/** `extractNamesAndGenerateEmails` of popup.js: every scanned display
    string is trimmed, split on single spaces, rejected when it has fewer
    than two pieces, turned into a lower-case (first, middle, last) name and
    passed through the selected format rule; each accepted string gives one
    `{fullName, email}` record, in the order the strings were scanned.
    The page scan is replaced by the sequence of scanned strings. */
module Extractor {
  import opened Wrappers
  import opened JsString
  import opened EmailFormats
  import opened FilterMaps

  datatype ParsedName = ParsedName(first: string, middle: string, last: string)

  datatype EmailRecord = EmailRecord(fullName: string, email: string)

  // ---------------------------------------------------------------------------
  // One scanned string

  /** `element.textContent.trim().replace('', '')`: the replace is a no-op,
      so the full name is the trimmed text. */
  function FullName(raw: string): (r: string)
    ensures r == Trim(raw)
  {
    ReplaceEmptyByEmpty(Trim(raw));
    ReplaceFirst(Trim(raw), "", "")
  }

  /** Whether a scanned string yields a name: only the number of pieces is
      tested, never what the pieces contain. */
  predicate Accepted(raw: string) {
    |Split(FullName(raw), ' ')| >= 2
  }

  /** So a string is accepted exactly when its trimmed text contains a
      space. */
  lemma AcceptedIffSpace(raw: string)
    ensures Accepted(raw) <==> ' ' in Trim(raw)
  {
    SplitCount(FullName(raw), ' ');
    CountPositive(FullName(raw), ' ');
  }

  /** The two branches that assign `firstName`, `middleName`, `lastName`;
      None when there are fewer than two pieces. */
  function Parse(fullName: string): (r: Option<ParsedName>)
    ensures r.None? <==> |Split(fullName, ' ')| < 2
  {
    var parts := Split(fullName, ' ');
    if |parts| < 2 then None
    else if |parts| == 2 then Some(ParsedName(Lower(parts[0]), "", Lower(parts[1])))
    else Some(ParsedName(Lower(parts[0]), Lower(Concat(parts[1..|parts| - 1])), Lower(parts[|parts| - 1])))
  }

  /** Both branches agree with one rule: first and last are the outer pieces
      and middle is every interior piece joined with no separator (so it is
      empty for two pieces), all lowered. */
  lemma ParseFields(fullName: string)
    requires |Split(fullName, ' ')| >= 2
    ensures var t := Split(fullName, ' ');
            Parse(fullName) == Some(ParsedName(Lower(t[0]), Lower(Concat(t[1..|t| - 1])), Lower(t[|t| - 1])))
  {
    var t := Split(fullName, ' ');
    if |t| == 2 {
      assert t[1..|t| - 1] == [];
    }
  }

  /** The middle name is empty exactly when every interior piece is, as
      happens with a doubled space: three pieces, empty middle. */
  lemma ParseMiddleEmpty(fullName: string)
    requires |Split(fullName, ' ')| >= 2
    ensures var t := Split(fullName, ' ');
            Parse(fullName).value.middle == "" <==> forall k :: 1 <= k < |t| - 1 ==> t[k] == ""
  {
    ParseFields(fullName);
    var t := Split(fullName, ' ');
    var inner := t[1..|t| - 1];
    assert forall k :: 1 <= k < |t| - 1 ==> t[k] == inner[k - 1];
    assert forall k :: 0 <= k < |inner| ==> inner[k] == t[k + 1];
  }

  /** All three fields are lower-case. */
  lemma ParseIsLower(fullName: string)
    requires |Split(fullName, ' ')| >= 2
    ensures var p := Parse(fullName).value; IsLower(p.first) && IsLower(p.middle) && IsLower(p.last)
  {
    var t := Split(fullName, ' ');
    LowerIsLower(t[0]);
    LowerIsLower(t[|t| - 1]);
    LowerIsLower(Concat(t[1..|t| - 1]));
  }

  /** Because the text was trimmed, an accepted name has a non-empty first
      and last name: the trimmed text neither starts nor ends with a space. */
  lemma AcceptedHasFirstAndLast(raw: string)
    requires Accepted(raw)
    ensures var p := Parse(FullName(raw)).value; p.first != "" && p.last != ""
  {
    TrimEnds(raw);
    TrimmedOuterNames(FullName(raw));
  }

  /** A text with two or more pieces that neither starts nor ends with
      whitespace has non-empty outer pieces, hence a non-empty first and
      last name. */
  lemma TrimmedOuterNames(s: string)
    requires s == [] || (!IsJsWhitespace(s[0]) && !IsJsWhitespace(s[|s| - 1]))
    requires |Split(s, ' ')| >= 2
    ensures var p := Parse(s).value; p.first != "" && p.last != ""
  {
    var t := Split(s, ' ');
    assert s != [];
    SplitFirstEmpty(s, ' ');
    SplitLastEmpty(s, ' ');
    assert t[0] != [] && t[|t| - 1] != [];
  }

  /** The interior pieces are lowered after joining; joining the lowered
      pieces gives the same middle name. */
  lemma ParseMiddleOfLoweredPieces(fullName: string)
    requires |Split(fullName, ' ')| >= 2
    ensures var t := Split(fullName, ' '); var inner := t[1..|t| - 1];
            Parse(fullName).value.middle == Concat(seq(|inner|, k requires 0 <= k < |inner| => Lower(inner[k])))
  {
    ParseFields(fullName);
    var t := Split(fullName, ' ');
    LowerConcat(t[1..|t| - 1]);
  }

  /** The rule selected by `key` applied to one scanned string: None when
      the string is rejected or the key is not in the table. */
  function Derive(raw: string, domain: string, key: string): (r: Option<EmailRecord>)
    ensures r.Some? <==> Accepted(raw) && Lookup(key).Some?
    ensures r.Some? ==> r.value.fullName == Trim(raw)
  {
    var fullName := FullName(raw);
    match Parse(fullName)
    case None => None
    case Some(p) =>
      match Lookup(key)
      case None => None
      case Some(f) => Some(EmailRecord(fullName, Generate(f, p.first, p.middle, p.last) + "@" + domain))
  }

  /** A derived address is the selected rule's local part, an `@` and the
      domain; the local part is lower-case and never empty. */
  lemma DeriveEmail(raw: string, domain: string, key: string)
    requires Derive(raw, domain, key).Some?
    ensures var p := Parse(Trim(raw)).value;
            var local := Generate(Lookup(key).value, p.first, p.middle, p.last);
            && Derive(raw, domain, key).value.email == local + "@" + domain
            && local != "" && IsLower(local)
  {
    var p := Parse(Trim(raw)).value;
    var f := Lookup(key).value;
    AcceptedHasFirstAndLast(raw);
    ParseIsLower(Trim(raw));
    GeneratePreservesLower(f, p.first, p.middle, p.last);
    var local := Generate(f, p.first, p.middle, p.last);
    assert local != "" by {
      match f
      case Filn => assert |CharAt0(p.first)| == 1;
      case FnDotMiLn => assert |CharAt0(p.middle)| <= 1;
      case _ =>
    }
  }

  // ---------------------------------------------------------------------------
  // The whole scan

  /** The records of a scan: each scanned string's record, if any, in scan
      order. */
  function Batch(names: seq<string>, domain: string, key: string): (r: seq<EmailRecord>)
    ensures |r| <= |names|
  {
    FilterMap(raw => Derive(raw, domain, key), names)
  }

  /** The records of two consecutive scans are those of the first followed
      by those of the second: the scan keeps the input order. */
  lemma BatchAppend(a: seq<string>, b: seq<string>, domain: string, key: string)
    ensures Batch(a + b, domain, key) == Batch(a, domain, key) + Batch(b, domain, key)
  {
    FilterMapAppend(raw => Derive(raw, domain, key), a, b);
  }

  /** A scan of one string gives that string's record, if any. */
  lemma BatchSingle(raw: string, domain: string, key: string)
    ensures Batch([raw], domain, key) == AsSeq(Derive(raw, domain, key))
  {
    assert [raw][..0] == [];
  }

  /** A record is in the output exactly when some scanned string derives
      it. */
  lemma BatchMembers(names: seq<string>, domain: string, key: string, rec: EmailRecord)
    ensures rec in Batch(names, domain, key) <==>
            exists i :: 0 <= i < |names| && Derive(names[i], domain, key) == Some(rec)
  {
    FilterMapMembers(raw => Derive(raw, domain, key), names, rec);
  }

  /** Every record carries a trimmed scanned string as its full name and
      the selected rule's address for it. */
  lemma BatchRecords(names: seq<string>, domain: string, key: string, rec: EmailRecord)
    requires rec in Batch(names, domain, key)
    ensures Lookup(key).Some?
    ensures exists i :: 0 <= i < |names| && Accepted(names[i]) && rec.fullName == Trim(names[i]) &&
              var p := Parse(Trim(names[i])).value;
              rec.email == Generate(Lookup(key).value, p.first, p.middle, p.last) + "@" + domain
  {
    BatchMembers(names, domain, key, rec);
    var i :| 0 <= i < |names| && Derive(names[i], domain, key) == Some(rec);
    DeriveEmail(names[i], domain, key);
  }

  /** An unknown key silences every string: the output is empty. */
  lemma BatchUnknownKey(names: seq<string>, domain: string, key: string)
    requires Lookup(key).None?
    ensures Batch(names, domain, key) == []
  {
    FilterMapNone(raw => Derive(raw, domain, key), names);
  }

  /** Nothing is dropped exactly when the key is known and every string has
      at least two pieces (or there is nothing to scan). */
  lemma BatchKeepsAll(names: seq<string>, domain: string, key: string)
    ensures |Batch(names, domain, key)| == |names| <==>
            (names == [] || Lookup(key).Some?) && forall i :: 0 <= i < |names| ==> Accepted(names[i])
  {
    FilterMapKeepsAll(raw => Derive(raw, domain, key), names);
  }

  /** What the two assigning branches of the loop body compute is Parse. */
  lemma ParseBranches(fullName: string, first: string, middle: string, last: string)
    requires var t := Split(fullName, ' ');
             && |t| >= 2 && first == Lower(t[0]) && last == Lower(t[|t| - 1])
             && middle == (if |t| == 2 then "" else Lower(Concat(t[1..|t| - 1])))
    ensures Parse(fullName) == Some(ParsedName(first, middle, last))
  {
  }

  /** Derive when the name is parsed and the key is in the table ... */
  lemma DeriveSome(raw: string, domain: string, key: string, p: ParsedName, f: Format)
    requires Parse(FullName(raw)) == Some(p) && Lookup(key) == Some(f)
    ensures Derive(raw, domain, key) == Some(EmailRecord(FullName(raw), Generate(f, p.first, p.middle, p.last) + "@" + domain))
  {
  }

  /** ... and otherwise. */
  lemma DeriveNone(raw: string, domain: string, key: string)
    requires Parse(FullName(raw)).None? || Lookup(key).None?
    ensures Derive(raw, domain, key) == None
  {
  }

  /** Scanning one more string appends that string's record, if any. */
  lemma BatchStep(names: seq<string>, i: nat, domain: string, key: string)
    requires i < |names|
    ensures Batch(names[..i + 1], domain, key) == Batch(names[..i], domain, key) + AsSeq(Derive(names[i], domain, key))
  {
    assert names[..i + 1] == names[..i] + [names[i]];
    BatchAppend(names[..i], [names[i]], domain, key);
    BatchSingle(names[i], domain, key);
  }

  /** The `forEach` callback: handles one scanned element, pushing its
      record onto the `persons` it closes over, or leaving `persons` as it
      is when it returns early (fewer than two pieces) or the key is not in
      the table. */
  method VisitElement(persons: seq<EmailRecord>, element: string, domain: string, formatKey: string)
    returns (persons': seq<EmailRecord>)
    ensures persons' == persons + AsSeq(Derive(element, domain, formatKey))
  {
    persons' := persons;
    var fullName := FullName(element);
    var nameParts := Split(fullName, ' ');
    if |nameParts| < 2 {
      DeriveNone(element, domain, formatKey);
      return;
    }
    var firstName := "";
    var middleName := "";
    var lastName := "";
    if |nameParts| == 2 {
      firstName := Lower(nameParts[0]);
      lastName := Lower(nameParts[1]);
    } else if |nameParts| >= 3 {
      firstName := Lower(nameParts[0]);
      lastName := Lower(nameParts[|nameParts| - 1]);
      middleName := Lower(Concat(nameParts[1..|nameParts| - 1]));
    }
    ParseBranches(fullName, firstName, middleName, lastName);
    var generateFormat := Lookup(formatKey);
    if generateFormat.Some? {
      var emailUsername := Generate(generateFormat.value, firstName, middleName, lastName);
      DeriveSome(element, domain, formatKey, ParsedName(firstName, middleName, lastName), generateFormat.value);
      persons' := persons' + [EmailRecord(fullName, emailUsername + "@" + domain)];
    } else {
      DeriveNone(element, domain, formatKey);
    }
  }

  /** `extractNamesAndGenerateEmails(domain, formatKey)` over the scanned
      strings `nameElements`: the `forEach` loop over the elements, in
      order. */
  method ExtractNamesAndGenerateEmails(nameElements: seq<string>, domain: string, formatKey: string)
    returns (persons: seq<EmailRecord>)
    ensures persons == Batch(nameElements, domain, formatKey)
  {
    persons := [];
    var i := 0;
    while i < |nameElements|
      invariant 0 <= i <= |nameElements|
      invariant persons == Batch(nameElements[..i], domain, formatKey)
    {
      BatchStep(nameElements, i, domain, formatKey);
      persons := VisitElement(persons, nameElements[i], domain, formatKey);
      i := i + 1;
    }
    assert nameElements[..i] == nameElements;
  }
}
