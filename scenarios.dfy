/** Names built from words: what the extractor makes of a space-separated
    name, of a doubled space, of a single word, and of sample names. */
module Scenarios {
  import opened Wrappers
  import opened JsString
  import opened EmailFormats
  import opened Extractor

  /** Words without spaces, joined by single spaces, parse into the first
      word, the interior words run together, and the last word, lowered. */
  lemma ParseWords(ts: seq<string>)
    requires |ts| >= 2
    requires forall k :: 0 <= k < |ts| ==> ' ' !in ts[k]
    ensures Parse(Join(ts, ' ')) ==
            Some(ParsedName(Lower(ts[0]), Lower(Concat(ts[1..|ts| - 1])), Lower(ts[|ts| - 1])))
  {
    SplitJoin(ts, ' ');
    ParseFields(Join(ts, ' '));
  }

  /** Two words give an empty middle name. */
  lemma ParseTwoWords(a: string, b: string)
    requires ' ' !in a && ' ' !in b
    ensures Parse(a + " " + b) == Some(ParsedName(Lower(a), "", Lower(b)))
  {
    SplitNoSeparator(b, ' ');
    SplitAtFirst(a, ' ', b);
  }

  /** A doubled space between two words gives three pieces, the interior
      one empty ... */
  lemma DoubledSpaceTokens(a: string, b: string)
    requires ' ' !in a && ' ' !in b
    ensures Split(a + "  " + b, ' ') == [a, "", b]
  {
    SplitNoSeparator(b, ' ');
    var rest := "" + [' '] + b;
    SplitAtFirst("", ' ', b);
    assert a + "  " + b == a + [' '] + rest;
    SplitAtFirst(a, ' ', rest);
  }

  /** ... so the middle name is still empty. */
  lemma ParseDoubledSpace(a: string, b: string)
    requires ' ' !in a && ' ' !in b
    ensures Parse(a + "  " + b) == Some(ParsedName(Lower(a), "", Lower(b)))
  {
    var s := a + "  " + b;
    DoubledSpaceTokens(a, b);
    ParseFields(s);
    var t := Split(s, ' ');
    assert t[1..|t| - 1] == [""];
    assert Concat([""]) == "";
  }

  /** A single word is never a name. */
  lemma ParseOneWord(w: string)
    requires ' ' !in w
    ensures Parse(w) == None
  {
    SplitNoSeparator(w, ' ');
  }

  /** Four pieces: "Jane Quincy Ann Doe" has middle name "quincyann". */
  lemma FourPieceName(s: string)
    requires s == "Jane Quincy Ann Doe"
    ensures Parse(s) == Some(ParsedName("jane", "quincyann", "doe"))
  {
    var t := ["Jane", "Quincy", "Ann", "Doe"];
    assert Join(t, ' ') == s;
    ParseWords(t);
    assert t[1..3] == ["Quincy", "Ann"];
    FourPieceLowered();
  }

  lemma FourPieceLowered()
    ensures Lower(Concat(["Quincy", "Ann"])) == "quincyann"
    ensures Lower("Jane") == "jane" && Lower("Doe") == "doe"
  {
    assert Concat(["Quincy", "Ann"]) == "QuincyAnn";
    assert Lower("QuincyAnn") == "quincyann";
  }

  /** A trimmed two-word name under any key of the table: the full name is
      kept as it is, and the address is the rule applied to the two lowered
      words with an empty middle name. */
  lemma DeriveTwoWords(a: string, b: string, domain: string, f: Format)
    requires ' ' !in a && ' ' !in b
    requires a != "" && b != "" && !IsJsWhitespace(a[0]) && !IsJsWhitespace(b[|b| - 1])
    ensures Derive(a + " " + b, domain, KeyOf(f)) ==
            Some(EmailRecord(a + " " + b, Generate(f, Lower(a), "", Lower(b)) + "@" + domain))
  {
    var raw := a + " " + b;
    assert raw[0] == a[0] && raw[|raw| - 1] == b[|b| - 1];
    TrimNothingToRemove(raw);
    ParseTwoWords(a, b);
    LookupKeyOf(f);
    DeriveSome(raw, domain, KeyOf(f), ParsedName(Lower(a), "", Lower(b)), f);
  }

  /** Under `fn_ln` a parsed name gives the trimmed text and
      first_last@domain. */
  lemma UnderscoreRecord(raw: string, domain: string, key: string, p: ParsedName)
    requires Parse(FullName(raw)) == Some(p) && key == "fn_ln"
    ensures Derive(raw, domain, key) == Some(EmailRecord(FullName(raw), p.first + "_" + p.last + "@" + domain))
  {
    DeriveSome(raw, domain, key, p, FnUnderscoreLn);
  }

  /** "Jane Doe" under `fn_ln` at acme.com. */
  lemma JaneDoe(raw: string, domain: string, key: string)
    requires raw == "Jane Doe" && domain == "acme.com" && key == "fn_ln"
    ensures Derive(raw, domain, key) == Some(EmailRecord("Jane Doe", "jane_doe@acme.com"))
  {
    assert raw == "Jane" + " " + "Doe";
    TrimNothingToRemove(raw);
    ParseTwoWords("Jane", "Doe");
    FourPieceLowered();
    UnderscoreRecord(raw, domain, key, ParsedName("jane", "", "doe"));
    SampleAddresses();
  }

  /** "John Q. Public" under `fn_ln` at acme.com: the middle name is
      dropped by the rule. */
  lemma JohnQPublicRecord(raw: string, domain: string, key: string)
    requires raw == "John Q. Public" && domain == "acme.com" && key == "fn_ln"
    ensures Derive(raw, domain, key) == Some(EmailRecord("John Q. Public", "john_public@acme.com"))
  {
    JohnQPublic(raw);
    UnderscoreRecord(raw, domain, key, ParsedName("john", "q.", "public"));
    SampleAddresses();
  }

  lemma SampleAddresses()
    ensures "jane" + "_" + "doe" + "@" + "acme.com" == "jane_doe@acme.com"
    ensures "john" + "_" + "public" + "@" + "acme.com" == "john_public@acme.com"
  {
  }

  /** "John Q. Public": the period-bearing middle token is not rejected,
      it only ends up in the middle name. */
  lemma JohnQPublic(raw: string)
    requires raw == "John Q. Public"
    ensures FullName(raw) == raw
    ensures Parse(raw) == Some(ParsedName("john", "q.", "public"))
  {
    TrimNothingToRemove(raw);
    var t := ["John", "Q.", "Public"];
    assert Join(t, ' ') == raw;
    ParseWords(t);
    assert t[1..2] == ["Q."];
    JohnQPublicLowered();
  }

  lemma JohnQPublicLowered()
    ensures Lower(Concat(["Q."])) == "q."
    ensures Lower("John") == "john" && Lower("Public") == "public"
  {
    assert Concat(["Q."]) == "Q.";
  }

  /** "X" is a single word and gives no record, whatever the key. */
  lemma SingleWordX(raw: string, domain: string, key: string)
    requires raw == "X"
    ensures Derive(raw, domain, key) == None
  {
    TrimNothingToRemove(raw);
    ParseOneWord(raw);
    DeriveNone(raw, domain, key);
  }
}
