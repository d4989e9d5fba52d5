/** The `EMAIL_FORMATS` table of popup.js: six format keys, each naming a
    total rule from (first, middle, last) to the local part of an address.
    The script declares the table twice, at top level and again inside the
    extractor; the two declarations are identical, so it is modelled once. */
module EmailFormats {
  import opened Wrappers
  import opened JsString

  /** One constructor per entry of the table. */
  datatype Format = FnDotLn | Filn | Fn | FnLn | FnUnderscoreLn | FnDotMiLn

  /** The key that selects each rule: one of the six keys of the table. */
  function KeyOf(f: Format): (r: string)
    ensures r in {"fn.ln", "filn", "fn", "fnln", "fn_ln", "fn.miln"}
  {
    match f
    case FnDotLn => "fn.ln"
    case Filn => "filn"
    case Fn => "fn"
    case FnLn => "fnln"
    case FnUnderscoreLn => "fn_ln"
    case FnDotMiLn => "fn.miln"
  }

  /** `EMAIL_FORMATS[formatKey]`: the rule a key selects, or None for a key
      that is not in the table. */
  function Lookup(key: string): (r: Option<Format>)
    ensures r.Some? ==> KeyOf(r.value) == key
  {
    if key == "fn.ln" then Some(FnDotLn)
    else if key == "filn" then Some(Filn)
    else if key == "fn" then Some(Fn)
    else if key == "fnln" then Some(FnLn)
    else if key == "fn_ln" then Some(FnUnderscoreLn)
    else if key == "fn.miln" then Some(FnDotMiLn)
    else None
  }

  /** Every rule is found under its own key, and a key is found exactly
      when it is one of the six. */
  lemma LookupKeyOf(f: Format)
    ensures Lookup(KeyOf(f)) == Some(f)
  {
  }

  /** Different rules have different keys. */
  lemma KeyOfInjective(f: Format, g: Format)
    requires KeyOf(f) == KeyOf(g)
    ensures f == g
  {
    LookupKeyOf(f);
    LookupKeyOf(g);
  }

  lemma LookupKnownKeys(key: string)
    ensures Lookup(key).Some? <==> key in {"fn.ln", "filn", "fn", "fnln", "fn_ln", "fn.miln"}
  {
  }

  /** Applies a rule. `middle` is tested for truthiness: the empty string
      selects the second branch of `fn.miln`. */
  function Generate(f: Format, first: string, middle: string, last: string): string {
    match f
    case FnDotLn => first + "." + last
    case Filn => CharAt0(first) + last
    case Fn => first
    case FnLn => first + last
    case FnUnderscoreLn => first + "_" + last
    case FnDotMiLn => if middle != "" then first + "." + CharAt0(middle) + last else first + "." + last
  }

  /** Every rule but `filn` starts with the whole first name (`filn` with
      its initial), and every rule but `fn` ends with the whole last name. */
  lemma GenerateAffixes(f: Format, first: string, middle: string, last: string)
    ensures var r := Generate(f, first, middle, last);
            && (f != Filn ==> first <= r)
            && (f == Filn ==> CharAt0(first) <= r)
            && (f != Fn ==> |last| <= |r| && r[|r| - |last|..] == last)
  {
  }

  /** The six rules on a sample name. */
  lemma GenerateExamples()
    ensures Generate(FnDotLn, "jane", "", "doe") == "jane.doe"
    ensures Generate(Filn, "jane", "", "doe") == "jdoe"
    ensures Generate(Fn, "jane", "", "doe") == "jane"
    ensures Generate(FnLn, "jane", "", "doe") == "janedoe"
    ensures Generate(FnUnderscoreLn, "jane", "", "doe") == "jane_doe"
    ensures Generate(FnDotMiLn, "jane", "quincy", "doe") == "jane.qdoe"
    ensures Generate(FnDotMiLn, "jane", "", "doe") == "jane.doe"
  {
    assert CharAt0("jane") == "j";
    assert CharAt0("quincy") == "q";
  }

  /** Only `fn.miln` looks at the middle name. */
  lemma GenerateIgnoresMiddle(f: Format, first: string, m1: string, m2: string, last: string)
    requires f != FnDotMiLn
    ensures Generate(f, first, m1, last) == Generate(f, first, m2, last)
  {
  }

  /** `fn.miln` looks only at the first character of the middle name, and
      with no middle name it coincides with `fn.ln`. */
  lemma MiddleInitialOnly(first: string, m1: string, m2: string, last: string)
    requires CharAt0(m1) == CharAt0(m2)
    ensures Generate(FnDotMiLn, first, m1, last) == Generate(FnDotMiLn, first, m2, last)
  {
  }

  lemma MiddleInitialFallsBack(first: string, last: string)
    ensures Generate(FnDotMiLn, first, "", last) == Generate(FnDotLn, first, "", last)
  {
  }

  /** With a non-empty middle name, `fn.miln` puts exactly one character of
      it between the dot and the last name. */
  lemma MiddleInitialShape(first: string, middle: string, last: string)
    requires middle != ""
    ensures var r := Generate(FnDotMiLn, first, middle, last);
            && |r| == |first| + 2 + |last|
            && r[..|first|] == first && r[|first|] == '.' && r[|first| + 1] == middle[0]
            && r[|first| + 2..] == last
  {
    var r := Generate(FnDotMiLn, first, middle, last);
    assert r == first + "." + CharAt0(middle) + last;
    assert r[|first| + 2..] == last;
  }

  /** `filn`: the initial of a non-empty first name followed by the last
      name. */
  lemma FirstInitialShape(first: string, middle: string, last: string)
    requires first != ""
    ensures var r := Generate(Filn, first, middle, last);
            && |r| == |last| + 1 && r[0] == first[0] && r[1..] == last
  {
  }

  /** The rules add only `.` and `_`, so lower-case names give a lower-case
      local part. */
  lemma {:induction false} GeneratePreservesLower(f: Format, first: string, middle: string, last: string)
    requires IsLower(first) && IsLower(middle) && IsLower(last)
    ensures IsLower(Generate(f, first, middle, last))
  {
    assert IsLower(".") && IsLower("_");
    assert IsLower(CharAt0(first)) && IsLower(CharAt0(middle));
    IsLowerAppend(first, ".");
    IsLowerAppend(first + ".", last);
    IsLowerAppend(CharAt0(first), last);
    IsLowerAppend(first, last);
    IsLowerAppend(first, "_");
    IsLowerAppend(first + "_", last);
    IsLowerAppend(first + ".", CharAt0(middle));
    IsLowerAppend(first + "." + CharAt0(middle), last);
  }
}
