/**
 * Character-level comparison used to recognise option names.
 *
 * The front end compares option names with `String.Compare(strA, indexA,
 * strB, indexB, length, ignoreCase)`.  That call compares the region of
 * `strA` that starts at `indexA` and is at most `length` characters long
 * (shorter when `strA` ends first) with the region of `strB` built the same
 * way; the result is 0 exactly when both regions are equal.  Case is folded
 * as ASCII case folding here.
 */
module Text {

  /** Maps an upper-case ASCII letter to its lower-case form and leaves every other character alone. */
  function FoldAscii(c: char): (f: char)
    ensures !('A' <= f <= 'Z')
    ensures f == c || ('A' <= c <= 'Z' && f as int == c as int + 32)
  {
    if 'A' <= c <= 'Z' then (c as int + 32) as char else c
  }

  /** Two strings are equal once both are case-folded. */
  predicate EqualsIgnoreCase(a: string, b: string)
  {
    |a| == |b| && forall i :: 0 <= i < |a| ==> FoldAscii(a[i]) == FoldAscii(b[i])
  }

  function Min(x: int, y: int): int
  {
    if x <= y then x else y
  }

  /**
   * `String.Compare(a, ia, b, ib, len, ignoreCase: true) == 0`.  The library
   * throws when a start index lies beyond its string; callers must not do that.
   */
  predicate RegionEqualsIgnoreCase(a: string, ia: nat, b: string, ib: nat, len: nat)
    requires ia <= |a| && ib <= |b|
    ensures ia + len <= |a| && ib + len <= |b| ==>
      (RegionEqualsIgnoreCase(a, ia, b, ib, len) <==> EqualsIgnoreCase(a[ia..ia + len], b[ib..ib + len]))
    ensures RegionEqualsIgnoreCase(a, ia, b, ib, len) && ib + len <= |b| ==> ia + len <= |a|
  {
    var la := Min(len, |a| - ia);
    var lb := Min(len, |b| - ib);
    EqualsIgnoreCase(a[ia..ia + la], b[ib..ib + lb])
  }
}
