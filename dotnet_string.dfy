/** The behaviour of System.String and System.Char that the extension methods
    build on: white space, Trim, ASCII casing, IndexOf and Equals. */
module DotNetString {
  import opened Wrappers

  /** char.IsWhiteSpace: the Unicode space, line and paragraph separators
      together with U+0009..U+000D and U+0085. */
  function IsWhiteSpace(c: char): (r: bool)
    ensures c == ' ' || c == '\t' || c == '\n' || c == '\r' ==> r
    ensures 'A' <= c <= 'Z' || 'a' <= c <= 'z' || '0' <= c <= '9' ==> !r
    ensures c as int < 0x09 || 0x3000 < c as int ==> !r
  {
    var n := c as int;
    (0x09 <= n <= 0x0D) || n == 0x20 || n == 0x85 || n == 0xA0 || n == 0x1680 ||
    (0x2000 <= n <= 0x200A) || n == 0x2028 || n == 0x2029 || n == 0x202F ||
    n == 0x205F || n == 0x3000
  }

  predicate AllWhiteSpace(s: string) {
    forall i :: 0 <= i < |s| ==> IsWhiteSpace(s[i])
  }

  /** string.IsNullOrWhiteSpace: null, or nothing left once trimmed. */
  function IsNullOrWhiteSpace(s: Nullable<string>): (r: bool)
    ensures r <==> s.Null? || Trim(s.value) == []
    ensures s == NonNull([]) ==> r
  {
    s.Null? || AllWhiteSpace(s.value)
  }

  /** No white space at either end. */
  predicate Unpadded(s: string) {
    s == [] || (!IsWhiteSpace(s[0]) && !IsWhiteSpace(s[|s| - 1]))
  }

  /** The first index at or after i whose character is not white space, or |s|. */
  function SkipWhiteSpace(s: string, i: nat): (k: nat)
    requires i <= |s|
    ensures i <= k <= |s|
    ensures forall j :: i <= j < k ==> IsWhiteSpace(s[j])
    ensures k < |s| ==> !IsWhiteSpace(s[k])
    decreases |s| - i
  {
    if i == |s| || !IsWhiteSpace(s[i]) then i else SkipWhiteSpace(s, i + 1)
  }

  /** The index just past the last character before j that is not white space,
      searching no further back than lo. */
  function SkipWhiteSpaceBack(s: string, lo: nat, j: nat): (k: nat)
    requires lo <= j <= |s|
    ensures lo <= k <= j
    ensures forall x :: k <= x < j ==> IsWhiteSpace(s[x])
    ensures k > lo ==> !IsWhiteSpace(s[k - 1])
    decreases j
  {
    if j == lo || !IsWhiteSpace(s[j - 1]) then j else SkipWhiteSpaceBack(s, lo, j - 1)
  }

  /** string.Trim(): the string without the white space at its ends. */
  function Trim(s: string): (r: string)
    ensures |r| <= |s|
    ensures r == [] <==> AllWhiteSpace(s)
    ensures Unpadded(r)
    ensures Unpadded(s) ==> r == s
    ensures TrimOffset(s) + |r| <= |s|
    ensures r == s[TrimOffset(s)..TrimOffset(s) + |r|]
    ensures Padding(s, TrimOffset(s), TrimOffset(s) + |r|)
  {
    var a := SkipWhiteSpace(s, 0);
    var e := SkipWhiteSpaceBack(s, a, |s|);
    assert Padding(s, a, e);
    assert a == e ==> AllWhiteSpace(s) by {
      if a == e {
        forall j | 0 <= j < |s| ensures IsWhiteSpace(s[j]) {
        }
      }
    }
    s[a..e]
  }

  /** Where the characters Trim keeps begin in s. */
  function TrimOffset(s: string): (i: nat)
    ensures i <= |s|
  {
    SkipWhiteSpace(s, 0)
  }

  /** Everything of s outside s[a..e] is white space. */
  predicate Padding(s: string, a: nat, e: nat)
    requires a <= e <= |s|
  {
    (forall j :: 0 <= j < a ==> IsWhiteSpace(s[j])) &&
    (forall j :: e <= j < |s| ==> IsWhiteSpace(s[j]))
  }

  /** Trim keeps exactly the window between the padding when the window
      begins and ends with a character that is not white space. */
  lemma TrimIsWindow(s: string, a: nat, e: nat)
    requires a < e <= |s| && Padding(s, a, e)
    requires !IsWhiteSpace(s[a]) && !IsWhiteSpace(s[e - 1])
    ensures Trim(s) == s[a..e]
  {
  }

  lemma AllWhiteSpaceConcat(a: string, b: string)
    requires AllWhiteSpace(a) && AllWhiteSpace(b)
    ensures AllWhiteSpace(a + b)
  {
  }

  /** Padding around a window of m is padding around the shifted window of w1 + m + w2. */
  lemma PaddingShifts(w1: string, m: string, w2: string, a: nat, e: nat)
    requires AllWhiteSpace(w1) && AllWhiteSpace(w2)
    requires a <= e <= |m| && Padding(m, a, e)
    ensures Padding(w1 + m + w2, |w1| + a, |w1| + e)
  {
  }

  /** White space around a string does not change what Trim keeps. */
  lemma TrimIgnoresPadding(w1: string, m: string, w2: string)
    requires AllWhiteSpace(w1) && AllWhiteSpace(w2)
    ensures Trim(w1 + m + w2) == Trim(m)
  {
    if AllWhiteSpace(m) {
      AllWhiteSpaceConcat(w1, m);
      AllWhiteSpaceConcat(w1 + m, w2);
    } else {
      var r := Trim(m);
      var i := TrimOffset(m);
      var s := w1 + m + w2;
      PaddingShifts(w1, m, w2, i, i + |r|);
      var a, e := |w1| + i, |w1| + i + |r|;
      assert s[a..e] == r;
      TrimIsWindow(s, a, e);
    }
  }

  predicate IsAsciiUpper(c: char) { 'A' <= c <= 'Z' }
  predicate IsAsciiLower(c: char) { 'a' <= c <= 'z' }

  /** char.ToUpper restricted to ASCII letters; every other character is kept. */
  function ToUpperAscii(c: char): (r: char)
    ensures !IsAsciiLower(r)
    ensures IsAsciiLower(c) ==> IsAsciiUpper(r) && r as int - 'A' as int == c as int - 'a' as int
    ensures !IsAsciiLower(c) ==> r == c
  {
    if IsAsciiLower(c) then (c as int - 32) as char else c
  }

  /** char.ToLower restricted to ASCII letters; every other character is kept. */
  function ToLowerAscii(c: char): (r: char)
    ensures !IsAsciiUpper(r)
    ensures IsAsciiUpper(c) ==> IsAsciiLower(r) && r as int - 'a' as int == c as int - 'A' as int
    ensures !IsAsciiUpper(c) ==> r == c
  {
    if IsAsciiUpper(c) then (c as int + 32) as char else c
  }

  /** string.ToLower() under the same ASCII restriction. */
  function ToLowerString(s: string): (r: string)
    ensures |r| == |s|
    ensures forall i :: 0 <= i < |r| ==> !IsAsciiUpper(r[i]) && EqualIgnoringCase(r[i], s[i])
    ensures (forall i :: 0 <= i < |s| ==> !IsAsciiUpper(s[i])) ==> r == s
  {
    seq(|s|, i requires 0 <= i < |s| => ToLowerAscii(s[i]))
  }

  /** Two characters that are equal when case is ignored. */
  predicate EqualIgnoringCase(a: char, b: char) {
    ToUpperAscii(a) == ToUpperAscii(b)
  }

  /** Equal position by position when case is ignored. */
  predicate SameIgnoringCase(a: string, b: string) {
    |a| == |b| && forall i :: 0 <= i < |a| ==> EqualIgnoringCase(a[i], b[i])
  }

  /** Two characters agree ignoring case exactly when their lower-case forms agree. */
  lemma EqualIgnoringCaseByLower(x: char, y: char)
    ensures EqualIgnoringCase(x, y) <==> ToLowerAscii(x) == ToLowerAscii(y)
  {
  }

  lemma CaseMapsAreProjections(c: char)
    ensures ToUpperAscii(ToUpperAscii(c)) == ToUpperAscii(c)
    ensures ToLowerAscii(ToLowerAscii(c)) == ToLowerAscii(c)
    ensures !IsAsciiLower(ToUpperAscii(c)) && !IsAsciiUpper(ToLowerAscii(c))
    ensures EqualIgnoringCase(ToUpperAscii(c), c) && EqualIgnoringCase(ToLowerAscii(c), c)
    ensures IsAsciiLower(c) ==> ToLowerAscii(ToUpperAscii(c)) == c
    ensures IsAsciiUpper(c) ==> ToUpperAscii(ToLowerAscii(c)) == c
  {
  }

  /** string.IndexOf(char): the first position of c, or -1. */
  function IndexOf(s: string, c: char): (r: int)
    ensures -1 <= r < |s|
    ensures r == -1 <==> c !in s
    ensures r >= 0 ==> s[r] == c && c !in s[..r]
  {
    if s == [] then -1
    else if s[0] == c then 0
    else
      var k := IndexOf(s[1..], c);
      if k == -1 then -1
      else
        assert s[..k + 1] == [s[0]] + s[1..][..k];
        k + 1
  }

  /** System.StringComparison */
  datatype StringComparison =
    | CurrentCulture | CurrentCultureIgnoreCase
    | InvariantCulture | InvariantCultureIgnoreCase
    | Ordinal | OrdinalIgnoreCase
  {
    predicate IgnoresCase() {
      this == CurrentCultureIgnoreCase || this == InvariantCultureIgnoreCase || this == OrdinalIgnoreCase
    }
  }

  /** string.Equals(string, StringComparison) on a non-null receiver: a null
      argument never equals it; otherwise the two strings agree position by
      position, up to ASCII case when the comparison ignores case. */
  function StringEquals(a: string, b: Nullable<string>, comparison: StringComparison): (r: bool)
    ensures b.Null? ==> !r
    ensures !comparison.IgnoresCase() ==> (r <==> b == NonNull(a))
    ensures b == NonNull(a) ==> r
    ensures r ==> |b.value| == |a|
  {
    b.NonNull? && if comparison.IgnoresCase() then SameIgnoringCase(a, b.value) else a == b.value
  }

  /** Equality under every StringComparison is symmetric. */
  lemma StringEqualsSymmetric(a: string, b: string, comparison: StringComparison)
    ensures StringEquals(a, NonNull(b), comparison) == StringEquals(b, NonNull(a), comparison)
  {
  }

  /** An IgnoreCase comparison holds exactly when the lower-case forms of the
      two strings are the same string. */
  lemma StringEqualsIgnoringCase(a: string, b: string, comparison: StringComparison)
    requires comparison.IgnoresCase()
    ensures StringEquals(a, NonNull(b), comparison) <==> ToLowerString(a) == ToLowerString(b)
  {
    if |a| == |b| {
      forall i | 0 <= i < |a| ensures EqualIgnoringCase(a[i], b[i]) <==> ToLowerString(a)[i] == ToLowerString(b)[i] {
        EqualIgnoringCaseByLower(a[i], b[i]);
      }
    } else {
      assert |ToLowerString(a)| != |ToLowerString(b)|;
    }
  }
}
