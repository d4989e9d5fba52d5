/** The JavaScript string built-ins the name extractor relies on, modelled on
    `string` (a sequence of Unicode scalar values):
    `trim`, `split` with a one-character separator, `join('')`,
    `replace` with a string pattern, `charAt(0)` and `toLowerCase`. */
module JsString {
  import opened Wrappers

  // ---------------------------------------------------------------------------
  // trim

  /** The code points that `String.prototype.trim` removes: the ECMAScript
      WhiteSpace set (tab, vertical tab, form feed, space, no-break space,
      byte order mark and the other space separators) and the LineTerminator
      set (line feed, carriage return, line and paragraph separator). */
  predicate IsJsWhitespace(c: char) {
    var n := c as int;
    || 0x09 <= n <= 0x0D || n == 0x20 || n == 0xA0 || n == 0x1680
    || 0x2000 <= n <= 0x200A || n == 0x2028 || n == 0x2029 || n == 0x202F
    || n == 0x205F || n == 0x3000 || n == 0xFEFF
  }

  /** The code units of the WhiteSpace and LineTerminator tables of
      ECMAScript, listed one by one. */
  const WhitespaceCodePoints: seq<int> :=
    [ 0x09, 0x0A, 0x0B, 0x0C, 0x0D, 0x20, 0xA0, 0x1680,
      0x2000, 0x2001, 0x2002, 0x2003, 0x2004, 0x2005, 0x2006, 0x2007,
      0x2008, 0x2009, 0x200A, 0x2028, 0x2029, 0x202F, 0x205F, 0x3000, 0xFEFF ]

  /** IsJsWhitespace holds exactly for the characters of that list. */
  lemma WhitespaceTable(c: char)
    ensures IsJsWhitespace(c) <==> c as int in WhitespaceCodePoints
  {
    var n := c as int;
    if IsJsWhitespace(c) {
      if 0x2000 <= n <= 0x200A {
        assert WhitespaceCodePoints[8 + n - 0x2000] == n;
      } else if 0x09 <= n <= 0x0D {
        assert WhitespaceCodePoints[n - 0x09] == n;
      }
    }
  }

  /** The number of whitespace characters `s` starts with. */
  function LeadingWhitespace(s: string): (n: nat)
    ensures n <= |s|
  {
    if |s| > 0 && IsJsWhitespace(s[0]) then 1 + LeadingWhitespace(s[1..]) else 0
  }

  /** The number of whitespace characters `s` ends with. */
  function TrailingWhitespace(s: string): (n: nat)
    ensures n <= |s|
  {
    if |s| > 0 && IsJsWhitespace(s[|s| - 1]) then 1 + TrailingWhitespace(s[..|s| - 1]) else 0
  }

  /** LeadingWhitespace counts the longest all-whitespace prefix. */
  lemma {:induction false} LeadingWhitespaceSpec(s: string)
    ensures var n := LeadingWhitespace(s);
            && (forall i :: 0 <= i < n ==> IsJsWhitespace(s[i]))
            && (n == |s| || !IsJsWhitespace(s[n]))
  {
    if |s| > 0 && IsJsWhitespace(s[0]) {
      LeadingWhitespaceSpec(s[1..]);
      var n := LeadingWhitespace(s);
      forall i | 0 <= i < n ensures IsJsWhitespace(s[i]) {
        if i > 0 { assert s[i] == s[1..][i - 1]; }
      }
    }
  }

  /** TrailingWhitespace counts the longest all-whitespace suffix. */
  lemma {:induction false} TrailingWhitespaceSpec(s: string)
    ensures var n := TrailingWhitespace(s);
            && (forall i :: |s| - n <= i < |s| ==> IsJsWhitespace(s[i]))
            && (n == |s| || !IsJsWhitespace(s[|s| - 1 - n]))
  {
    if |s| > 0 && IsJsWhitespace(s[|s| - 1]) {
      var init := s[..|s| - 1];
      TrailingWhitespaceSpec(init);
      var n := TrailingWhitespace(s);
      forall i | |s| - n <= i < |s| ensures IsJsWhitespace(s[i]) {
        if i < |s| - 1 { assert s[i] == init[i]; }
      }
      if n < |s| { assert s[|s| - 1 - n] == init[|init| - 1 - (n - 1)]; }
    }
  }

  /** The leading half of trim. */
  function TrimStart(s: string): string {
    s[LeadingWhitespace(s)..]
  }

  /** The trailing half of trim. */
  function TrimEnd(s: string): string {
    s[..|s| - TrailingWhitespace(s)]
  }

  /** `s.trim()`, which removes whitespace from both ends (TrimSpec). */
  function Trim(s: string): string {
    TrimEnd(TrimStart(s))
  }

  /** TrimStart drops exactly the leading whitespace. */
  lemma TrimStartSpec(s: string)
    ensures var r := TrimStart(s); var k := LeadingWhitespace(s);
            && r == s[k..] && (forall i :: 0 <= i < k ==> IsJsWhitespace(s[i]))
            && (r == [] || !IsJsWhitespace(r[0]))
  {
    LeadingWhitespaceSpec(s);
  }

  /** TrimEnd drops exactly the trailing whitespace. */
  lemma TrimEndSpec(s: string)
    ensures var r := TrimEnd(s);
            && r == s[..|r|] && (forall i :: |r| <= i < |s| ==> IsJsWhitespace(s[i]))
            && (r == [] || !IsJsWhitespace(r[|r| - 1]))
  {
    TrailingWhitespaceSpec(s);
  }

  /** Trim keeps a slice of `s` that starts after the leading whitespace;
      everything outside it is whitespace, and the slice neither starts nor
      ends with whitespace (in particular not with a space). */
  lemma TrimSpec(s: string)
    ensures var r := Trim(s); var k := LeadingWhitespace(s);
            && k + |r| <= |s| && r == s[k..k + |r|]
            && (forall i :: 0 <= i < k ==> IsJsWhitespace(s[i]))
            && (forall i :: k + |r| <= i < |s| ==> IsJsWhitespace(s[i]))
            && (r == [] || (!IsJsWhitespace(r[0]) && !IsJsWhitespace(r[|r| - 1])))
  {
    var k := LeadingWhitespace(s);
    var t := TrimStart(s);
    var r := TrimEnd(t);
    TrimStartSpec(s);
    TrimEndSpec(t);
    forall i | k + |r| <= i < |s| ensures IsJsWhitespace(s[i]) {
      assert s[i] == t[i - k];
    }
    if r != [] {
      assert r[0] == t[0];
    }
  }

  /** What trim leaves neither starts nor ends with whitespace. */
  lemma TrimEnds(s: string)
    ensures var r := Trim(s); r == [] || (!IsJsWhitespace(r[0]) && !IsJsWhitespace(r[|r| - 1]))
  {
    TrimSpec(s);
  }

  /** A string that neither starts nor ends with whitespace is its own
      trim. */
  lemma TrimNothingToRemove(s: string)
    requires s == [] || (!IsJsWhitespace(s[0]) && !IsJsWhitespace(s[|s| - 1]))
    ensures Trim(s) == s
  {
  }

  /** Trimming twice is trimming once. */
  lemma TrimIdempotent(s: string)
    ensures Trim(Trim(s)) == Trim(s)
  {
    var r := Trim(s);
    TrimSpec(s);
    if r != [] {
      assert LeadingWhitespace(r) == 0;
      assert TrailingWhitespace(r) == 0;
    }
  }

  // ---------------------------------------------------------------------------
  // replace with a string pattern

  /** Whether `pat` occurs in `s` at position `i`. */
  predicate OccursAt(s: string, pat: string, i: nat) {
    i + |pat| <= |s| && s[i..i + |pat|] == pat
  }

  /** `s.indexOf(pat, from)`: the first position at or after `from` where
      `pat` occurs, or None. */
  function IndexOfFrom(s: string, pat: string, from: nat): (r: Option<nat>)
    requires from <= |s|
    ensures r.Some? ==> from <= r.value && OccursAt(s, pat, r.value)
                        && forall j :: from <= j < r.value ==> !OccursAt(s, pat, j)
    ensures r.None? ==> forall j :: from <= j <= |s| ==> !OccursAt(s, pat, j)
    decreases |s| - from
  {
    if OccursAt(s, pat, from) then Some(from)
    else if from == |s| then None
    else IndexOfFrom(s, pat, from + 1)
  }

  /** `s.replace(pat, rep)` with a string pattern and a replacement free of
      `$` (JavaScript expands `$$`, `$&`, `` $` `` and `$'` in `rep`): only
      the first occurrence of `pat` is replaced; with no occurrence `s` is
      returned unchanged. */
  function ReplaceFirst(s: string, pat: string, rep: string): (r: string)
    requires '$' !in rep
    ensures forall i: nat :: OccursAt(s, pat, i) && (forall j: nat :: j < i ==> !OccursAt(s, pat, j)) ==>
              r == s[..i] + rep + s[i + |pat|..]
    ensures (forall i: nat :: !OccursAt(s, pat, i)) ==> r == s
  {
    match IndexOfFrom(s, pat, 0)
    case None => s
    case Some(i) => s[..i] + rep + s[i + |pat|..]
  }

  /** The empty pattern occurs at position 0, so replacing it by the empty
      string leaves every string as it was. */
  lemma ReplaceEmptyByEmpty(s: string)
    ensures ReplaceFirst(s, "", "") == s
  {
    assert OccursAt(s, "", 0);
    assert IndexOfFrom(s, "", 0) == Some(0);
    assert s[..0] + "" + s[0..] == s;
  }

  // ---------------------------------------------------------------------------
  // split with a one-character separator

  /** `s.split(d)` for a one-character string `d`: the pieces between the
      separators, empty pieces included, so `""` gives `[""]` and `"a  b"`
      gives `["a", "", "b"]`. */
  function Split(s: string, d: char): (r: seq<string>)
    ensures |r| >= 1
    decreases |s|
  {
    if |s| == 0 then [""]
    else
      var rest := Split(s[1..], d);
      if s[0] == d then [""] + rest
      else [[s[0]] + rest[0]] + rest[1..]
  }

  /** `ts.join(d)`, an independent reading of what Split undoes. */
  function Join(ts: seq<string>, d: char): string {
    if |ts| == 0 then ""
    else if |ts| == 1 then ts[0]
    else ts[0] + [d] + Join(ts[1..], d)
  }

  /** `ts.join('')`. */
  function Concat(ts: seq<string>): (r: string)
    ensures |r| == 0 <==> forall k :: 0 <= k < |ts| ==> ts[k] == []
  {
    if |ts| == 0 then "" else ts[0] + Concat(ts[1..])
  }

  /** The number of occurrences of `d` in `s`. */
  function Count(s: string, d: char): nat {
    if |s| == 0 then 0 else (if s[0] == d then 1 else 0) + Count(s[1..], d)
  }

  /** Joining the pieces back with the separator gives the original string. */
  lemma {:induction false} JoinSplit(s: string, d: char)
    ensures Join(Split(s, d), d) == s
    decreases |s|
  {
    if |s| > 0 {
      var rest := Split(s[1..], d);
      JoinSplit(s[1..], d);
      if s[0] == d {
        assert Split(s, d) == [""] + rest;
        assert ([""] + rest)[1..] == rest;
      } else {
        var r := Split(s, d);
        assert r == [[s[0]] + rest[0]] + rest[1..];
        if |rest| == 1 {
          assert r == [[s[0]] + rest[0]];
        } else {
          assert r[1..] == rest[1..];
          assert Join(rest, d) == rest[0] + [d] + Join(rest[1..], d);
        }
      }
      assert s == [s[0]] + s[1..];
    }
  }

  /** No piece contains the separator. */
  lemma {:induction false} SplitPiecesLackSeparator(s: string, d: char)
    ensures forall k :: 0 <= k < |Split(s, d)| ==> d !in Split(s, d)[k]
    decreases |s|
  {
    if |s| > 0 {
      SplitPiecesLackSeparator(s[1..], d);
      var rest := Split(s[1..], d);
      if s[0] != d {
        var r := Split(s, d);
        assert d !in rest[0];
        assert forall c :: c in [s[0]] + rest[0] ==> c == s[0] || c in rest[0];
        assert forall k :: 1 <= k < |r| ==> r[k] == rest[k];
      }
    }
  }

  /** A string without the separator is a single piece. */
  lemma {:induction false} SplitNoSeparator(s: string, d: char)
    requires d !in s
    ensures Split(s, d) == [s]
    decreases |s|
  {
    if |s| > 0 {
      assert d !in s[1..];
      SplitNoSeparator(s[1..], d);
      assert s[0] != d;
      assert [s[0]] + s[1..] == s;
    }
  }

  /** The first piece is everything before the first separator, and the
      remaining pieces are those of what follows it. */
  lemma {:induction false} SplitAtFirst(a: string, d: char, b: string)
    requires d !in a
    ensures Split(a + [d] + b, d) == [a] + Split(b, d)
    decreases |a|
  {
    var s := a + [d] + b;
    if |a| == 0 {
      assert s == [d] + b;
      assert s[1..] == b;
    } else {
      assert s[1..] == a[1..] + [d] + b;
      assert d !in a[1..];
      SplitAtFirst(a[1..], d, b);
      assert [s[0]] + a[1..] == a;
    }
  }

  /** Splitting pieces that hold no separator, joined with it, gives the
      pieces back. */
  lemma {:induction false} SplitJoin(ts: seq<string>, d: char)
    requires |ts| >= 1
    requires forall k :: 0 <= k < |ts| ==> d !in ts[k]
    ensures Split(Join(ts, d), d) == ts
    decreases |ts|
  {
    if |ts| == 1 {
      SplitNoSeparator(ts[0], d);
    } else {
      SplitJoin(ts[1..], d);
      SplitAtFirst(ts[0], d, Join(ts[1..], d));
      assert [ts[0]] + ts[1..] == ts;
    }
  }

  /** There is one more piece than there are separators. */
  lemma {:induction false} SplitCount(s: string, d: char)
    ensures |Split(s, d)| == Count(s, d) + 1
    decreases |s|
  {
    if |s| > 0 {
      SplitCount(s[1..], d);
    }
  }

  /** `d` occurs in `s` exactly when it is counted at least once. */
  lemma {:induction false} CountPositive(s: string, d: char)
    ensures Count(s, d) > 0 <==> d in s
    decreases |s|
  {
    if |s| > 0 {
      CountPositive(s[1..], d);
      assert s == [s[0]] + s[1..];
    }
  }

  /** The first piece is empty only when `s` is empty or starts with `d`. */
  lemma SplitFirstEmpty(s: string, d: char)
    ensures Split(s, d)[0] == [] ==> s == [] || s[0] == d
  {
  }

  /** The last piece is empty only when `s` is empty or ends with `d`. */
  lemma {:induction false} SplitLastEmpty(s: string, d: char)
    ensures var r := Split(s, d); r[|r| - 1] == [] ==> s == [] || s[|s| - 1] == d
    decreases |s|
  {
    if |s| > 0 {
      var rest := Split(s[1..], d);
      SplitLastEmpty(s[1..], d);
      if s[0] != d && |rest| == 1 {
        assert Split(s, d) == [[s[0]] + rest[0]];
      } else if |s| > 1 {
        assert s[1..][|s[1..]| - 1] == s[|s| - 1];
      }
    }
  }

  // ---------------------------------------------------------------------------
  // charAt(0)

  /** `s.charAt(0)`: the first character as a string, or `""` when `s` is
      empty (JavaScript returns the empty string for an index out of range). */
  function CharAt0(s: string): (r: string)
    ensures |r| == (if |s| == 0 then 0 else 1)
    ensures |s| > 0 ==> r[0] == s[0]
  {
    if |s| == 0 then "" else s[..1]
  }

  // ---------------------------------------------------------------------------
  // toLowerCase, ASCII only

  predicate IsUpperAscii(c: char) {
    'A' <= c <= 'Z'
  }

  /** Maps `A`-`Z` to `a`-`z` and leaves every other character alone. */
  function LowerChar(c: char): (r: char)
    ensures !IsUpperAscii(r)
    ensures !IsUpperAscii(c) ==> r == c
  {
    if IsUpperAscii(c) then (c as int + 32) as char else c
  }

  /** The letter an upper-case ASCII letter becomes, read off the
      alphabet. */
  lemma LowerCharTable(c: char)
    requires IsUpperAscii(c)
    ensures LowerChar(c) == "abcdefghijklmnopqrstuvwxyz"[c as int - 'A' as int]
  {
  }

  /** `s.toLowerCase()`, restricted to ASCII letters. */
  function Lower(s: string): (r: string)
    ensures |r| == |s|
  {
    seq(|s|, i requires 0 <= i < |s| => LowerChar(s[i]))
  }

  /** A string with no upper-case ASCII letter. */
  predicate IsLower(s: string) {
    forall i :: 0 <= i < |s| ==> !IsUpperAscii(s[i])
  }

  /** Lowering yields a lower-case string, and changes nothing in one. */
  lemma LowerIsLower(s: string)
    ensures IsLower(Lower(s))
    ensures IsLower(s) ==> Lower(s) == s
  {
  }

  lemma LowerIdempotent(s: string)
    ensures Lower(Lower(s)) == Lower(s)
  {
    LowerIsLower(Lower(s));
    LowerIsLower(s);
  }

  /** Lowering distributes over concatenation. */
  lemma LowerAppend(a: string, b: string)
    ensures Lower(a + b) == Lower(a) + Lower(b)
  {
  }

  /** Lowering the joined interior tokens (what the script does) is the same
      as joining the lowered tokens. */
  lemma {:induction false} LowerConcat(ts: seq<string>)
    ensures Lower(Concat(ts)) == Concat(seq(|ts|, k requires 0 <= k < |ts| => Lower(ts[k])))
  {
    if |ts| > 0 {
      LowerConcat(ts[1..]);
      LowerAppend(ts[0], Concat(ts[1..]));
      var lowered := seq(|ts|, k requires 0 <= k < |ts| => Lower(ts[k]));
      assert lowered[1..] == seq(|ts[1..]|, k requires 0 <= k < |ts[1..]| => Lower(ts[1..][k]));
    }
  }

  /** Concatenations and single characters of lower-case strings are
      lower-case. */
  lemma IsLowerAppend(a: string, b: string)
    requires IsLower(a) && IsLower(b)
    ensures IsLower(a + b)
  {
    forall i | 0 <= i < |a + b| ensures !IsUpperAscii((a + b)[i]) {
      if i < |a| { assert (a + b)[i] == a[i]; } else { assert (a + b)[i] == b[i - |a|]; }
    }
  }
}
