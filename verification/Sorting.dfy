/** sorted(): a stable sort by a total preorder, and the text order of keys. */
module Sorting {

  ghost predicate TotalPreorder<T(!new)>(leq: (T, T) -> bool) {
    && (forall x, y :: leq(x, y) || leq(y, x))
    && (forall x, y, z :: leq(x, y) && leq(y, z) ==> leq(x, z))
  }

  ghost predicate Ordered<T>(leq: (T, T) -> bool, q: seq<T>) {
    forall i, j | 0 <= i < j < |q| :: leq(q[i], q[j])
  }

  /** x goes in front of the first element it is not greater than. */
  function Insert<T>(leq: (T, T) -> bool, x: T, q: seq<T>): seq<T> {
    if q == [] then [x]
    else if leq(x, q[0]) then [x] + q
    else [q[0]] + Insert(leq, x, q[1..])
  }

  function Sort<T>(leq: (T, T) -> bool, q: seq<T>): seq<T> {
    if q == [] then [] else Insert(leq, q[0], Sort(leq, q[1..]))
  }

  lemma {:induction false} InsertKeeps<T>(leq: (T, T) -> bool, x: T, q: seq<T>)
    ensures multiset(Insert(leq, x, q)) == multiset{x} + multiset(q)
  {
    if q != [] {
      assert q == [q[0]] + q[1..];
      InsertKeeps(leq, x, q[1..]);
    }
  }

  lemma {:induction false} InsertOrders<T(!new)>(leq: (T, T) -> bool, x: T, q: seq<T>)
    requires TotalPreorder(leq) && Ordered(leq, q)
    ensures Ordered(leq, Insert(leq, x, q))
  {
    if q != [] && !leq(x, q[0]) {
      InsertOrders(leq, x, q[1..]);
      InsertKeeps(leq, x, q[1..]);
      var r := Insert(leq, x, q[1..]);
      forall y | y in r
        ensures leq(q[0], y)
      {
        assert y in multiset(r);
        assert y == x || y in q[1..];
      }
    }
  }

  /** Sorting permutes and orders. */
  lemma {:induction false} SortSorts<T(!new)>(leq: (T, T) -> bool, q: seq<T>)
    requires TotalPreorder(leq)
    ensures multiset(Sort(leq, q)) == multiset(q) && |Sort(leq, q)| == |q|
    ensures Ordered(leq, Sort(leq, q))
  {
    if q != [] {
      assert q == [q[0]] + q[1..];
      SortSorts(leq, q[1..]);
      InsertKeeps(leq, q[0], Sort(leq, q[1..]));
      InsertOrders(leq, q[0], Sort(leq, q[1..]));
      assert |Sort(leq, q)| == |multiset(Sort(leq, q))|;
    }
  }

  function Filter<T>(keep: T -> bool, q: seq<T>): seq<T> {
    if q == [] then []
    else if keep(q[0]) then [q[0]] + Filter(keep, q[1..])
    else Filter(keep, q[1..])
  }

  lemma {:induction false} FilterInsert<T(!new)>(leq: (T, T) -> bool, keep: T -> bool, x: T, q: seq<T>)
    requires TotalPreorder(leq) && Ordered(leq, q)
    ensures Filter(keep, Insert(leq, x, q))
         == if keep(x) then Insert(leq, x, Filter(keep, q)) else Filter(keep, q)
  {
    if q == [] {
    } else if leq(x, q[0]) {
      assert ([x] + q)[1..] == q;
      if keep(x) {
        assert forall y | y in q :: leq(x, y);
        FilterIn(keep, q);
      }
    } else {
      FilterInsert(leq, keep, x, q[1..]);
      assert ([q[0]] + Insert(leq, x, q[1..]))[1..] == Insert(leq, x, q[1..]);
      assert ([q[0]] + Filter(keep, q[1..]))[1..] == Filter(keep, q[1..]);
    }
  }

  lemma {:induction false} FilterIn<T>(keep: T -> bool, q: seq<T>)
    ensures forall y :: y in Filter(keep, q) <==> y in q && keep(y)
  {
    if q != [] {
      FilterIn(keep, q[1..]);
      assert q == [q[0]] + q[1..];
    }
  }

  /** A stable sort commutes with a filter. */
  lemma {:induction false} SortFilterCommute<T(!new)>(leq: (T, T) -> bool, keep: T -> bool, q: seq<T>)
    requires TotalPreorder(leq)
    ensures Sort(leq, Filter(keep, q)) == Filter(keep, Sort(leq, q))
  {
    if q != [] {
      SortFilterCommute(leq, keep, q[1..]);
      SortSorts(leq, q[1..]);
      FilterInsert(leq, keep, q[0], Sort(leq, q[1..]));
      if keep(q[0]) {
        assert ([q[0]] + Filter(keep, q[1..]))[1..] == Filter(keep, q[1..]);
      }
    }
  }

  // ----- filters -----

  lemma {:induction false} FilterConcat<T>(keep: T -> bool, p: seq<T>, q: seq<T>)
    ensures Filter(keep, p + q) == Filter(keep, p) + Filter(keep, q)
  {
    if p == [] {
      assert p + q == q;
    } else {
      assert (p + q)[1..] == p[1..] + q;
      FilterConcat(keep, p[1..], q);
    }
  }

  lemma FilterSnoc<T>(keep: T -> bool, q: seq<T>)
    requires q != []
    ensures Filter(keep, q)
         == Filter(keep, q[..|q| - 1]) + (if keep(q[|q| - 1]) then [q[|q| - 1]] else [])
  {
    assert q == q[..|q| - 1] + [q[|q| - 1]];
    FilterConcat(keep, q[..|q| - 1], [q[|q| - 1]]);
  }

  lemma {:induction false} FilterAll<T>(keep: T -> bool, q: seq<T>, all: bool)
    requires forall x | x in q :: keep(x) == all
    ensures Filter(keep, q) == if all then q else []
  {
    if q != [] {
      FilterAll(keep, q[1..], all);
    }
  }

  lemma {:induction false} FilterFilter<T>(p: T -> bool, r: T -> bool, both: T -> bool, q: seq<T>)
    requires forall x | x in q :: both(x) <==> r(x) && p(x)
    ensures Filter(p, Filter(r, q)) == Filter(both, q)
  {
    if q != [] {
      FilterFilter(p, r, both, q[1..]);
      if r(q[0]) {
        assert ([q[0]] + Filter(r, q[1..]))[1..] == Filter(r, q[1..]);
      }
    }
  }

  /** The places of a list at which something holds. */
  function Places<T>(keep: T -> bool, q: seq<T>): set<nat> {
    set i | 0 <= i < |q| && keep(q[i])
  }

  /** A filter keeps one element for each place. */
  lemma {:induction false} FilterCounts<T>(keep: T -> bool, q: seq<T>)
    ensures |Filter(keep, q)| == |Places(keep, q)|
  {
    if q != [] {
      var k := |q| - 1;
      FilterCounts(keep, q[..k]);
      FilterSnoc(keep, q);
      assert Places(keep, q) == Places(keep, q[..k]) + if keep(q[k]) then {k} else {};
    }
  }

  // ----- lists without repetition -----

  predicate Distinct<T(==)>(q: seq<T>) {
    forall i, j | 0 <= i < j < |q| :: q[i] != q[j]
  }

  lemma {:induction false} FilterDistinct<T>(keep: T -> bool, q: seq<T>)
    requires Distinct(q)
    ensures Distinct(Filter(keep, q))
  {
    if q != [] {
      FilterDistinct(keep, q[1..]);
      FilterIn(keep, q[1..]);
    }
  }

  lemma PermutationStaysDistinct<T>(p: seq<T>, q: seq<T>)
    requires Distinct(p) && multiset(p) == multiset(q)
    ensures Distinct(q) && forall x :: x in p <==> x in q
  {
    assert forall x :: x in q <==> x in multiset(q);
    assert forall x :: x in p <==> x in multiset(p);
    forall i, j | 0 <= i < j < |q|
      ensures q[i] != q[j]
    {
      if q[i] == q[j] {
        TwiceCounts(q, i, j);
        var a :| 0 <= a < |p| && p[a] == q[i];
        OnceCounts(p, a);
      }
    }
  }

  lemma TwiceCounts<T>(q: seq<T>, i: nat, j: nat)
    requires i < j < |q| && q[i] == q[j]
    ensures multiset(q)[q[i]] >= 2
  {
    assert q == q[..j] + [q[j]] + q[j + 1..];
    assert q[i] in q[..j];
  }

  lemma OnceCounts<T>(q: seq<T>, i: nat)
    requires Distinct(q) && i < |q|
    ensures multiset(q)[q[i]] == 1
  {
    assert q == q[..i] + [q[i]] + q[i + 1..];
    assert q[i] !in q[..i] && q[i] !in q[i + 1..];
  }

  // ----- text order -----

  /** Python compares strings by code point, lexicographically. */
  predicate TextLe(a: string, b: string) {
    a == "" || (b != "" && (a[0] < b[0] || (a[0] == b[0] && TextLe(a[1..], b[1..]))))
  }

  lemma {:induction false} TextTotal(a: string, b: string)
    ensures TextLe(a, b) || TextLe(b, a)
    ensures TextLe(a, b) && TextLe(b, a) ==> a == b
  {
    if a != "" && b != "" {
      TextTotal(a[1..], b[1..]);
      assert a == [a[0]] + a[1..] && b == [b[0]] + b[1..];
    }
  }

  lemma {:induction false} TextTransitive(a: string, b: string, c: string)
    requires TextLe(a, b) && TextLe(b, c)
    ensures TextLe(a, c)
  {
    if a != "" && a[0] == b[0] == c[0] {
      TextTransitive(a[1..], b[1..], c[1..]);
    }
  }

  /** The order of key tuples: a number, then texts. */
  datatype Key = Key(rank: int, texts: seq<string>)

  predicate TextsLe(a: seq<string>, b: seq<string>) {
    a == [] || (b != [] && (if a[0] == b[0] then TextsLe(a[1..], b[1..]) else TextLe(a[0], b[0])))
  }

  predicate KeyLe(a: Key, b: Key) {
    a.rank < b.rank || (a.rank == b.rank && TextsLe(a.texts, b.texts))
  }

  lemma {:induction false} TextsTotal(a: seq<string>, b: seq<string>)
    ensures TextsLe(a, b) || TextsLe(b, a)
  {
    if a != [] && b != [] {
      TextTotal(a[0], b[0]);
      if a[0] == b[0] {
        TextsTotal(a[1..], b[1..]);
      }
    }
  }

  lemma {:induction false} TextsTransitive(a: seq<string>, b: seq<string>, c: seq<string>)
    requires TextsLe(a, b) && TextsLe(b, c)
    ensures TextsLe(a, c)
  {
    if a != [] {
      if a[0] == b[0] == c[0] {
        TextsTransitive(a[1..], b[1..], c[1..]);
      } else if a[0] != b[0] && b[0] != c[0] {
        TextTransitive(a[0], b[0], c[0]);
        TextTotal(a[0], b[0]);
      }
    }
  }

  lemma KeyOrder()
    ensures forall a, b :: KeyLe(a, b) || KeyLe(b, a)
    ensures forall a, b, c :: KeyLe(a, b) && KeyLe(b, c) ==> KeyLe(a, c)
  {
    forall a, b
      ensures KeyLe(a, b) || KeyLe(b, a)
    {
      TextsTotal(a.texts, b.texts);
    }
    forall a, b, c | KeyLe(a, b) && KeyLe(b, c)
      ensures KeyLe(a, c)
    {
      if a.rank == b.rank == c.rank {
        TextsTransitive(a.texts, b.texts, c.texts);
      }
    }
  }

  /** The comparison of sorted(key=...). */
  function ByKey<T>(key: T -> Key): (T, T) -> bool {
    (x: T, y: T) => KeyLe(key(x), key(y))
  }

  lemma ByKeyIsTotalPreorder<T(!new)>(key: T -> Key)
    ensures TotalPreorder(ByKey(key))
  {
    KeyOrder();
  }
}
