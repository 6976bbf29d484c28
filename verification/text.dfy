/** Character- and string-level primitives shared by the whole search core:
    ASCII lower-casing, the character classes behind the `\w` and `\s`
    regular-expression escapes, first-occurrence substring search
    (`indexOf` / `includes`) and the clamping `String.prototype.slice`. */
module Text {

  /** `toLowerCase` restricted to ASCII: A-Z map to a-z, every other
      character is left alone, so lengths and offsets are preserved. */
  function Lower(c: char): char {
    if 'A' <= c <= 'Z' then (c as int + 32) as char else c
  }

  function LowerStr(s: string): (r: string)
    ensures |r| == |s|
    ensures forall i :: 0 <= i < |s| ==> r[i] == Lower(s[i])
  {
    seq(|s|, i requires 0 <= i < |s| => Lower(s[i]))
  }

  lemma LowerIdempotent(s: string)
    ensures LowerStr(LowerStr(s)) == LowerStr(s)
  {
  }

  lemma LowerSlice(s: string, i: nat, j: nat)
    requires i <= j <= |s|
    ensures LowerStr(s[i..j]) == LowerStr(s)[i..j]
  {
  }

  /** A slice of a slice is a slice of the whole. */
  lemma SliceOfSlice<T>(s: seq<T>, a: nat, b: nat, c: nat, d: nat)
    requires a <= b <= |s| && c <= d <= b - a
    ensures s[a..b][c..d] == s[a + c..a + d]
  {
    forall k | 0 <= k < d - c
      ensures s[a..b][c..d][k] == s[a + c..a + d][k]
    {
      assert s[a..b][c..d][k] == s[a..b][c + k];
    }
  }

  /** The ASCII word characters matched by `\w`. */
  predicate IsWordChar(c: char) {
    ('a' <= c <= 'z') || ('A' <= c <= 'Z') || ('0' <= c <= '9') || c == '_'
  }

  /** The characters matched by `\s` (ECMAScript white space and line terminators). */
  predicate IsSpace(c: char) {
    || c == ' '
    || ('\t' <= c <= '\r')
    || c == '\U{00A0}' || c == '\U{1680}'
    || ('\U{2000}' <= c <= '\U{200A}')
    || c == '\U{2028}' || c == '\U{2029}' || c == '\U{202F}'
    || c == '\U{205F}' || c == '\U{3000}' || c == '\U{FEFF}'
  }

  lemma LowerKeepsClasses(c: char)
    ensures IsWordChar(Lower(c)) == IsWordChar(c)
    ensures IsSpace(Lower(c)) == IsSpace(c)
  {
  }

  /** `p` occurs in `s` starting at offset `k`. */
  predicate OccursAt(s: string, p: string, k: nat) {
    k + |p| <= |s| && s[k..k + |p|] == p
  }

  /** `s.indexOf(p, k)`: the first offset at or after `k` where `p` occurs,
      or -1 when there is none. */
  function IndexFrom(s: string, p: string, k: nat): (r: int)
    decreases |s| - k
    ensures r == -1 || (k <= r && OccursAt(s, p, r))
    ensures r == -1 ==> forall j :: k <= j && j + |p| <= |s| ==> !OccursAt(s, p, j)
    ensures r >= 0 ==> forall j :: k <= j < r ==> !OccursAt(s, p, j)
  {
    if k + |p| > |s| then -1
    else if s[k..k + |p|] == p then k
    else IndexFrom(s, p, k + 1)
  }

  /** `s.indexOf(p)`. */
  function IndexOf(s: string, p: string): (r: int)
    ensures r >= -1
    ensures r == -1 || OccursAt(s, p, r)
    ensures r == -1 <==> forall j :: 0 <= j && j + |p| <= |s| ==> !OccursAt(s, p, j)
    ensures r >= 0 ==> forall j :: 0 <= j < r ==> !OccursAt(s, p, j)
  {
    IndexFrom(s, p, 0)
  }

  /** `s.includes(p)`. */
  predicate Contains(s: string, p: string) {
    IndexOf(s, p) >= 0
  }

  function Min(a: int, b: int): int { if a <= b then a else b }

  function Max(a: int, b: int): int { if a >= b then a else b }

  /** The offset `String.prototype.slice` uses for an argument `x` on a
      string of length `n`: negative values count from the end, and the
      result is clamped to 0..n. */
  function ClampIndex(x: int, n: nat): (r: nat)
    ensures r <= n
    ensures 0 <= x <= n ==> r == x
  {
    if x < 0 then Max(n + x, 0) else Min(x, n)
  }

  /** `s.slice(a, b)`: empty whenever the clamped end precedes the clamped start. */
  function Slice(s: string, a: int, b: int): (r: string)
    ensures 0 <= a <= b <= |s| ==> r == s[a..b]
    ensures 0 <= a <= |s| <= b ==> r == s[a..]
    ensures 0 <= b <= a ==> r == ""
    ensures |r| <= |s|
  {
    var from := ClampIndex(a, |s|);
    var to := ClampIndex(b, |s|);
    if from >= to then "" else s[from..to]
  }
}
