/**
 * Character-string helpers shared by the title reader and the constant table:
 * stripping trailing blanks (as `get_rtrim` and the title trim do) and the
 * byte-wise three-way comparison of C's `strcmp`.
 */
module Text {

  /** A string ends in a blank. */
  predicate EndsInSpace(s: string)
  {
    |s| > 0 && s[|s| - 1] == ' '
  }

  /** Every character of `s` from position `from` on is a blank. */
  predicate AllSpacesFrom(s: string, from: nat)
  {
    forall k :: from <= k < |s| ==> s[k] == ' '
  }

  /**
   * `s` without its trailing blanks: the longest prefix of `s` that does not
   * end in a blank and is followed only by blanks.
   */
  function RTrim(s: string): (r: string)
    ensures |r| <= |s| && r == s[..|r|]
    ensures !EndsInSpace(r)
    ensures AllSpacesFrom(s, |r|)
    decreases |s|
  {
    if EndsInSpace(s) then RTrim(s[..|s| - 1]) else s
  }

  /** The three properties of RTrim's contract determine its result uniquely. */
  lemma RTrimUnique(s: string, t: string)
    requires |t| <= |s| && t == s[..|t|]
    requires !EndsInSpace(t)
    requires AllSpacesFrom(s, |t|)
    ensures RTrim(s) == t
  {
  }

  /**
   * C's `strcmp` on strings without embedded NUL characters, normalised to
   * -1, 0 or 1: the first differing character decides, and a proper prefix
   * (which meets the other string's NUL terminator first) is smaller.
   */
  function StrCmp(a: string, b: string): (r: int)
    ensures -1 <= r <= 1
    ensures r == 0 <==> a == b
  {
    if a == [] && b == [] then 0
    else if a == [] then -1
    else if b == [] then 1
    else if a[0] < b[0] then -1
    else if b[0] < a[0] then 1
    else
      var r := StrCmp(a[1..], b[1..]);
      assert r == 0 ==> a == [a[0]] + a[1..] == [b[0]] + b[1..] == b;
      assert a == b ==> a[1..] == b[1..];
      r
  }

  /** Swapping the operands of `strcmp` negates the result. */
  lemma {:induction false} StrCmpAntisymmetric(a: string, b: string)
    ensures StrCmp(b, a) == -StrCmp(a, b)
  {
    if a != [] && b != [] && a[0] == b[0] {
      StrCmpAntisymmetric(a[1..], b[1..]);
    }
  }

  /** The order `strcmp` defines is transitive. */
  lemma {:induction false} StrCmpTransitive(a: string, b: string, c: string)
    requires StrCmp(a, b) <= 0 && StrCmp(b, c) <= 0
    ensures StrCmp(a, c) <= 0
  {
    if a != [] && b != [] && c != [] && a[0] == b[0] == c[0] {
      StrCmpTransitive(a[1..], b[1..], c[1..]);
    }
  }

  /** A strict step followed by a weak one is strict. */
  lemma StrCmpStrictTransitive(a: string, b: string, c: string)
    requires StrCmp(a, b) < 0 && StrCmp(b, c) <= 0
    ensures StrCmp(a, c) < 0
  {
  }

  /** A weak step followed by a strict one is strict. */
  lemma StrCmpTransitiveStrict(a: string, b: string, c: string)
    requires StrCmp(a, b) <= 0 && StrCmp(b, c) < 0
    ensures StrCmp(a, c) < 0
  {
  }
}
