/**
 The framework string comparisons that NamespaceKey relies on, as value-level functions:
 ordinal comparison, ordinal comparison ignoring case, and culture-sensitive lower-casing.
 Comparisons return the sign (-1, 0 or 1) of the framework's result.
 Case mappings are modelled on ASCII letters, the Greek sigma (whose final form 'ς' and
 ordinary form 'σ' share the capital 'Σ'), and the dotted/dotless I of the Turkish culture.
 */
module StringComparison {

  import opened Wrappers

  /** Ordinal comparison of two non-null strings: the first differing character decides,
      otherwise the shorter string comes first. */
  function OrdinalCompare(a: string, b: string): (r: int)
    ensures -1 <= r <= 1
    ensures r == 0 <==> a == b
  {
    if a == [] then (if b == [] then 0 else -1)
    else if b == [] then 1
    else if a[0] < b[0] then -1
    else if b[0] < a[0] then 1
    else
      var t := OrdinalCompare(a[1..], b[1..]);
      assert a == [a[0]] + a[1..] && b == [b[0]] + b[1..];
      t
  }

  /** Swapping the arguments negates the result. */
  lemma {:induction false} OrdinalAntisymmetric(a: string, b: string)
    ensures OrdinalCompare(b, a) == -OrdinalCompare(a, b)
  {
    if a != [] && b != [] && a[0] == b[0] {
      OrdinalAntisymmetric(a[1..], b[1..]);
    }
  }

  /** "Not after" is transitive. */
  lemma {:induction false} OrdinalTransitive(a: string, b: string, c: string)
    requires OrdinalCompare(a, b) <= 0 && OrdinalCompare(b, c) <= 0
    ensures OrdinalCompare(a, c) <= 0
  {
    if a != [] && b != [] && c != [] && a[0] == b[0] && b[0] == c[0] {
      OrdinalTransitive(a[1..], b[1..], c[1..]);
    }
  }

  /** The ordinal comparison of two nullable strings: null comes before every string,
      and two nulls are equal. */
  function NullableOrdinalCompare(a: Option<string>, b: Option<string>): (r: int)
    ensures -1 <= r <= 1
    ensures r == 0 <==> a == b
    ensures a.None? && b.Some? ==> r < 0
    ensures a.Some? && b.Some? ==> r == OrdinalCompare(a.value, b.value)
  {
    match (a, b)
    case (None, None) => 0
    case (None, Some(_)) => -1
    case (Some(_), None) => 1
    case (Some(x), Some(y)) => OrdinalCompare(x, y)
  }

  lemma NullableOrdinalAntisymmetric(a: Option<string>, b: Option<string>)
    ensures NullableOrdinalCompare(b, a) == -NullableOrdinalCompare(a, b)
  {
    if a.Some? && b.Some? {
      OrdinalAntisymmetric(a.value, b.value);
    }
  }

  lemma NullableOrdinalTransitive(a: Option<string>, b: Option<string>, c: Option<string>)
    requires NullableOrdinalCompare(a, b) <= 0 && NullableOrdinalCompare(b, c) <= 0
    ensures NullableOrdinalCompare(a, c) <= 0
  {
    if a.Some? && b.Some? && c.Some? {
      OrdinalTransitive(a.value, b.value, c.value);
    }
  }

  /** The invariant upper-case mapping OrdinalIgnoreCase applies to each character. */
  function UpperChar(c: char): (u: char)
    ensures 'a' <= c <= 'z' ==> 'A' <= u <= 'Z' && u as int == c as int - 32
    ensures c == 'ς' || c == 'σ' ==> u == 'Σ'
    ensures !('a' <= c <= 'z') && c != 'ς' && c != 'σ' ==> u == c
  {
    if 'a' <= c <= 'z' then (c as int - 32) as char
    else if c == 'ς' || c == 'σ' then 'Σ'
    else c
  }

  /** The case fold under which OrdinalIgnoreCase compares strings. */
  function FoldUpper(s: string): (r: string)
    ensures |r| == |s|
    ensures forall i :: 0 <= i < |s| ==> r[i] == UpperChar(s[i])
  {
    seq(|s|, i requires 0 <= i < |s| => UpperChar(s[i]))
  }

  lemma FoldUpperAppend(a: string, b: string)
    ensures FoldUpper(a + b) == FoldUpper(a) + FoldUpper(b)
  {
  }

  /** Comparison with StringComparison.OrdinalIgnoreCase. */
  function IgnoreCaseCompare(a: string, b: string): (r: int)
    ensures -1 <= r <= 1
    ensures r == 0 <==> FoldUpper(a) == FoldUpper(b)
  {
    OrdinalCompare(FoldUpper(a), FoldUpper(b))
  }

  /** c and d are the same character, or an ASCII letter and its other-case partner. */
  predicate AsciiCaseVariant(c: char, d: char) {
    || c == d
    || ('A' <= c <= 'Z' && d as int == c as int + 32)
    || ('a' <= c <= 'z' && d as int == c as int - 32)
  }

  /** Strings that differ only in the case of ASCII letters compare equal ignoring case. */
  lemma IgnoreCaseEqualOnCaseVariants(a: string, b: string)
    requires |a| == |b|
    requires forall i :: 0 <= i < |a| ==> AsciiCaseVariant(a[i], b[i])
    ensures IgnoreCaseCompare(a, b) == 0
  {
    forall i | 0 <= i < |a|
      ensures FoldUpper(a)[i] == FoldUpper(b)[i]
    {
      assert AsciiCaseVariant(a[i], b[i]);
    }
    assert FoldUpper(a) == FoldUpper(b);
  }

  /** The culture in force when String.ToLower() runs: the invariant mapping (which every
      other culture modelled here shares), or the Turkish one (shared by Azerbaijani), which
      lowers 'I' to dotless 'ı' and dotted 'İ' to 'i'. */
  datatype Culture = Invariant | Turkish

  /** The lower-case mapping of one character under a culture. */
  function LowerChar(culture: Culture, c: char): (l: char)
    ensures 'A' <= c <= 'Z' && !(culture.Turkish? && c == 'I') ==> l as int == c as int + 32
    ensures culture.Turkish? && c == 'I' ==> l == 'ı'
    ensures culture.Turkish? && c == 'İ' ==> l == 'i'
    ensures c == 'Σ' ==> l == 'σ'
    ensures !('A' <= c <= 'Z') && c != 'İ' && c != 'Σ' ==> l == c
  {
    if culture.Turkish? && c == 'I' then 'ı'
    else if culture.Turkish? && c == 'İ' then 'i'
    else if 'A' <= c <= 'Z' then (c as int + 32) as char
    else if c == 'Σ' then 'σ'
    else c
  }

  /** String.ToLower() under the given current culture. */
  function ToLower(culture: Culture, s: string): (r: string)
    ensures |r| == |s|
    ensures forall i :: 0 <= i < |s| ==> r[i] == LowerChar(culture, s[i])
  {
    seq(|s|, i requires 0 <= i < |s| => LowerChar(culture, s[i]))
  }

  predicate IsAscii(s: string) {
    forall i :: 0 <= i < |s| ==> s[i] as int < 128
  }

  /** Under the invariant culture, ASCII strings equal ignoring case lower-case to the same
      string. Beyond ASCII this fails: 'ς' and 'σ' are equal ignoring case, yet both are
      already lower case (see SigmaVariantsLowerApart). */
  lemma AsciiIgnoreCaseEqualLowersEqual(a: string, b: string)
    requires IsAscii(a) && IsAscii(b)
    requires IgnoreCaseCompare(a, b) == 0
    ensures ToLower(Invariant, a) == ToLower(Invariant, b)
  {
    forall i | 0 <= i < |a|
      ensures LowerChar(Invariant, a[i]) == LowerChar(Invariant, b[i])
    {
      assert FoldUpper(a)[i] == FoldUpper(b)[i];
    }
  }

  /** In every culture "ς" and "σ" are equal ignoring case but lower-case to different strings. */
  lemma SigmaVariantsLowerApart(culture: Culture)
    ensures IgnoreCaseCompare("ς", "σ") == 0
    ensures ToLower(culture, "ς") != ToLower(culture, "σ")
  {
    assert FoldUpper("ς") == FoldUpper("σ") by {
      assert FoldUpper("ς")[0] == 'Σ' == FoldUpper("σ")[0];
    }
    assert ToLower(culture, "ς")[0] == 'ς';
  }
}
