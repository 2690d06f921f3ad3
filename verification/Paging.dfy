/** Page windows over a list, or over a stretch of a longer one. */
module Paging {
  function Clamp(x: int, n: nat): (r: nat)
    ensures r <= n && (x <= r || r == n) && (r <= x || r == 0)
  {
    if x < 0 then 0 else if x > n then n else x
  }

  /** The elements of q, which starts at flat position start, whose position lies in
      [offset, offset + limit). */
  function Window<T>(q: seq<T>, start: int, offset: int, limit: int): seq<T> {
    var lo, hi := Clamp(offset - start, |q|), Clamp(offset + limit - start, |q|);
    if lo <= hi then q[lo..hi] else []
  }

  /** A window over two stretches is the windows over each. */
  lemma WindowOfConcat<T>(p: seq<T>, q: seq<T>, start: int, offset: int, limit: int)
    ensures Window(p + q, start, offset, limit)
         == Window(p, start, offset, limit) + Window(q, start + |p|, offset, limit)
  {
    var lo, hi := Clamp(offset - start, |p + q|), Clamp(offset + limit - start, |p + q|);
    if lo <= hi {
      SliceOfConcat(p, q, lo, hi);
      assert Clamp(offset - start, |p|) == Clamp(lo, |p|) && Clamp(offset + limit - start, |p|) == Clamp(hi, |p|);
      assert Clamp(offset - start - |p|, |q|) == Clamp(lo - |p|, |q|);
      assert Clamp(offset + limit - start - |p|, |q|) == Clamp(hi - |p|, |q|);
    }
  }

  lemma SliceOfConcat<T>(p: seq<T>, q: seq<T>, lo: nat, hi: nat)
    requires lo <= hi <= |p + q|
    ensures (p + q)[lo..hi]
         == p[Clamp(lo, |p|)..Clamp(hi, |p|)] + q[Clamp(lo - |p|, |q|)..Clamp(hi - |p|, |q|)]
  {
  }

  /** Two adjacent windows make one. */
  lemma AdjacentWindows<T>(q: seq<T>, start: int, offset: int, a: nat, b: nat)
    ensures Window(q, start, offset, a) + Window(q, start, offset + a, b) == Window(q, start, offset, a + b)
  {
  }

  /** The first n pages, one after the other. */
  function Pages<T>(q: seq<T>, start: int, limit: nat, n: nat): seq<T> {
    if n == 0 then [] else Pages(q, start, limit, n - 1) + Window(q, start, (n - 1) * limit, limit)
  }

  lemma OneMorePage<T>(q: seq<T>, start: nat, limit: nat, n: nat, before: nat)
    requires n > 0 && (n - 1) * limit == before
    requires Pages(q, start, limit, n - 1) == Window(q, start, 0, before)
    ensures Pages(q, start, limit, n) == Window(q, start, 0, before + limit)
  {
    AdjacentWindows(q, start, 0, before, limit);
  }

  lemma {:induction false} PagesAreOneWindow<T>(q: seq<T>, start: nat, limit: nat, n: nat)
    ensures Pages(q, start, limit, n) == Window(q, start, 0, n * limit)
  {
    if n > 0 {
      PagesAreOneWindow(q, start, limit, n - 1);
      OneMorePage(q, start, limit, n, (n - 1) * limit);
    }
  }

  /** Enough pages to reach the end give back the list, each element once, in order. */
  lemma PagesGiveAll<T>(q: seq<T>, start: nat, limit: nat, n: nat)
    requires n * limit >= start + |q|
    ensures Pages(q, start, limit, n) == q
  {
    PagesAreOneWindow(q, start, limit, n);
  }
}
