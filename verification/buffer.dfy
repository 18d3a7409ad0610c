/** The caller-owned JavaScript number arrays that the pair scans of
    source/collision/narrowphase/detection.ts fill and that source/simulation/World.ts sizes.
    Writing past the end of such an array grows it; the slots skipped over are holes, which
    the model fills with the buffer's `hole` value. */
module Buffers {

  function Max(a: int, b: int): (m: int)
    ensures m >= a && m >= b && (m == a || m == b)
  {
    if a < b then b else a
  }

  /** The array `s` after `s[i] = v`: inside the array one slot changes; past the end the
      array grows to length i + 1, holes in between. */
  function Written<T>(s: seq<T>, i: nat, v: T, hole: T): (r: seq<T>)
    ensures |r| == Max(|s|, i + 1)
    ensures r[i] == v
    ensures forall m :: 0 <= m < |r| && m != i ==> r[m] == if m < |s| then s[m] else hole
  {
    if i < |s| then s[i := v] else s + seq(i - |s|, _ => hole) + [v]
  }

  /** The array `s` after `s[0] = r[0]; s[1] = r[1]; ...`: the written values first, then
      whatever of `s` lies beyond them. */
  function Listed<T>(s: seq<T>, r: seq<T>): (a: seq<T>)
    ensures |a| == Max(|s|, |r|)
    ensures a[..|r|] == r
    ensures forall m :: |r| <= m < |s| ==> a[m] == s[m]
  {
    if |r| <= |s| then r + s[|r|..] else r
  }

  /** Writing the next value in order extends the listing by that value. */
  lemma ListedNext<T>(s: seq<T>, r: seq<T>, v: T, hole: T)
    ensures Written(Listed(s, r), |r|, v, hole) == Listed(s, r + [v])
  {
    var a, b := Written(Listed(s, r), |r|, v, hole), Listed(s, r + [v]);
    assert |a| == |b|;
    forall m | 0 <= m < |a|
      ensures a[m] == b[m]
    {
      if m < |r| {
        assert a[m] == Listed(s, r)[..|r|][m];
        assert b[m] == b[..|r| + 1][m];
      } else if m == |r| {
        assert b[m] == b[..|r| + 1][m];
      }
    }
  }

  /** The array `s` after `for (j = 0; j < n; ++j) s[j] = fill;`. */
  function Filled<T>(s: seq<T>, n: nat, fill: T): (r: seq<T>)
    ensures |r| == Max(|s|, n)
    ensures forall m :: 0 <= m < |r| ==> r[m] == if m < n then fill else s[m]
  {
    seq(Max(|s|, n), m requires 0 <= m < Max(|s|, n) => if m < n then fill else s[m])
  }

  /** The reset loop has filled nothing yet. */
  lemma FilledNone<T>(s: seq<T>, fill: T)
    ensures Filled(s, 0, fill) == s
  {
  }

  /** Filling the next slot extends the filled prefix by one. */
  lemma FilledNext<T>(s: seq<T>, n: nat, fill: T, hole: T)
    ensures Written(Filled(s, n, fill), n, fill, hole) == Filled(s, n + 1, fill)
  {
    var a, b := Written(Filled(s, n, fill), n, fill, hole), Filled(s, n + 1, fill);
    assert |a| == |b|;
    forall m | 0 <= m < |a|
      ensures a[m] == b[m]
    {
    }
  }

  /** `new Array(n)`, with every slot a hole. */
  function Holes<T>(n: nat, hole: T): (s: seq<T>)
    ensures |s| == n && forall i :: 0 <= i < n ==> s[i] == hole
  {
    seq(n, _ => hole)
  }

  /** A growable array of T. */
  class Buffer<T> {
    const hole: T
    var items: seq<T>

    /** `new Array(n)`: n holes. */
    constructor (n: nat, hole: T)
      ensures this.hole == hole && items == Holes(n, hole)
    {
      this.hole := hole;
      items := Holes(n, hole);
    }

    /** The array replaced by `new Array(n)`. */
    method Reset(n: nat)
      modifies this
      ensures items == Holes(n, hole)
    {
      items := Holes(n, hole);
    }

    /** `buffer[i] = v`. */
    method Put(i: nat, v: T)
      modifies this
      ensures items == Written(old(items), i, v, hole)
    {
      items := Written(items, i, v, hole);
    }
  }
}
