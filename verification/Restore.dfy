/** Differential rollback: the diff of two states, and the row writes of restore_state. */
module Restore {
  import opened Rows
  import opened VersionStore
  import opened Sorting

  // ----- ordered id lists -----

  lemma LeastExists(s: set<Id>)
    requires s != {}
    ensures exists m :: m in s && forall k | k in s :: m <= k
  {
    var x :| x in s;
    if s != {x} {
      LeastExists(s - {x});
      var y :| y in s - {x} && forall k | k in s - {x} :: y <= k;
      assert forall k | k in s :: k == x || k in s - {x};
      var m := if x <= y then x else y;
      assert m in s && forall k | k in s :: m <= k;
    }
  }

  function Least(s: set<Id>): (m: Id)
    requires s != {}
    ensures m in s && forall k | k in s :: m <= k
  {
    LeastExists(s);
    var m :| m in s && forall k | k in s :: m <= k;
    m
  }

  /** sorted() of a set of ids. */
  function Sorted(s: set<Id>): (q: seq<Id>)
    ensures forall k :: k in q <==> k in s
    ensures forall i, j | 0 <= i < j < |q| :: q[i] < q[j]
    decreases s
  {
    if s == {} then []
    else
      var m := Least(s);
      var rest := Sorted(s - {m});
      assert forall k | k in rest :: k in s - {m} && m < k;
      [m] + rest
  }

  lemma AscendingStep(q: seq<Id>, s: set<Id>)
    requires forall i, j | 0 <= i < j < |q| :: q[i] < q[j]
    requires forall k: Id :: k in q <==> k in s
    requires s != {}
    ensures |q| > 0 && q[0] == Least(s)
    ensures forall k: Id :: k in q[1..] <==> k in s - {q[0]}
  {
    var m := Least(s);
    assert m in q;
    assert q[0] in q;
    forall k: Id
      ensures k in q[1..] <==> k in s - {q[0]}
    {
      if k in q[1..] {
        var i :| 0 <= i < |q[1..]| && q[1..][i] == k;
        assert q[i + 1] == k;
      } else if k in q {
        assert q == [q[0]] + q[1..];
      }
    }
  }

  /** A strictly ascending list is the sorted list of its elements. */
  lemma {:induction false} AscendingIsSorted(q: seq<Id>, s: set<Id>)
    requires forall i, j | 0 <= i < j < |q| :: q[i] < q[j]
    requires forall k: Id :: k in q <==> k in s
    ensures q == Sorted(s)
    decreases |q|
  {
    if q == [] {
      assert s == {};
    } else {
      assert q[0] in q;
      AscendingStep(q, s);
      AscendingIsSorted(q[1..], s - {q[0]});
      assert q == [q[0]] + q[1..];
    }
  }

  // ----- diff -----

  datatype ChangeSet = ChangeSet(added: seq<Id>, removed: seq<Id>, changed: seq<Id>)

  function DiffOf(base: map<Id, nat>, tip: map<Id, nat>): ChangeSet {
    ChangeSet(
      Sorted(tip.Keys - base.Keys),
      Sorted(base.Keys - tip.Keys),
      Sorted(set e | e in base && e in tip && base[e] != tip[e]))
  }

  predicate Ascending(q: seq<Id>) {
    forall i, j | 0 <= i < j < |q| :: q[i] < q[j]
  }

  /** Added is what only the second state has, removed what only the first has, changed what
      both have in different versions; each list ascending. */
  ghost predicate IsDiff(d: ChangeSet, base: map<Id, nat>, tip: map<Id, nat>) {
    && (forall e: Id :: e in d.added <==> e in tip && e !in base)
    && (forall e: Id :: e in d.removed <==> e in base && e !in tip)
    && (forall e: Id :: e in d.changed <==> e in base && e in tip && base[e] != tip[e])
    && Ascending(d.added) && Ascending(d.removed) && Ascending(d.changed)
  }

  lemma DiffExactly(base: map<Id, nat>, tip: map<Id, nat>)
    ensures IsDiff(DiffOf(base, tip), base, tip)
  {
  }

  // ----- upserts -----

  /** apply_snapshot: None when the kind is unknown or a unique index objects. */
  function ApplySnapshot(rows: Table, id: Id, snapshot: Snapshot): Option<Table> {
    match RowOf(snapshot.content)
    case None => None
    case Some(row) => if Clashes(rows, id, row) then None else Some(rows[id := row])
  }

  /** A row written back from its own snapshot is that row, whether the table has another
      row in its place or none; a step comes back under the recorded status. */
  lemma SnapshotRoundTrip(rows: Table, id: Id, row: Row, step: Step, status: Status)
    ensures RowOf(SnapshotOf(row).content) == Some(row)
    ensures RowOf(StepSnapshot(step, status).content) == Some(StepRow(step.(status := status)))
    ensures UniqueKeys(rows) && Lookup(rows, id) == Some(row) ==>
              forall damaged: Table | rows == damaged[id := row] ::
                ApplySnapshot(damaged, id, SnapshotOf(row)) == Some(rows)
  {
    if UniqueKeys(rows) && Lookup(rows, id) == Some(row) {
      forall damaged: Table | rows == damaged[id := row]
        ensures ApplySnapshot(damaged, id, SnapshotOf(row)) == Some(rows)
      {
        assert !Clashes(rows, id, rows[id]);
        assert forall m | m in damaged && m != id :: m in rows && rows[m] == damaged[m];
      }
    }
  }

  /** A paragraph snapshot without the binding key restores the paragraph it was taken
      from exactly when that paragraph was binding. */
  lemma LegacyParagraphRoundTripIff(name: Option<string>, text: string, position: int, binding: bool)
    ensures RowOf(ParagraphContent(name, text, position, None)) == Some(ParagraphRow(name, text, position, binding))
       <==> binding
  {
  }

  /** The row a list of snapshots restores for n. */
  predicate Restorable(nodes: seq<Id>, target: map<Id, Snapshot>) {
    forall n | n in nodes :: n in target && RowOf(target[n].content).Some?
  }

  function TargetRow(target: map<Id, Snapshot>, n: Id): Row
    requires n in target && RowOf(target[n].content).Some?
  {
    RowOf(target[n].content).value
  }

  /** The first loop of restore_state: upsert every node of the list in order. */
  function ApplyAll(rows: Table, nodes: seq<Id>, target: map<Id, Snapshot>): Option<Table>
    requires forall n | n in nodes :: n in target
  {
    if nodes == [] then Some(rows)
    else
      match ApplyAll(rows, nodes[..|nodes| - 1], target)
      case None => None
      case Some(t) => ApplySnapshot(t, nodes[|nodes| - 1], target[nodes[|nodes| - 1]])
  }

  lemma {:induction false} FailingUpserts(rows: Table, nodes: seq<Id>, target: map<Id, Snapshot>, k: nat)
    requires forall n | n in nodes :: n in target
    requires k <= |nodes| && ApplyAll(rows, nodes[..k], target).None?
    ensures ApplyAll(rows, nodes, target).None?
    decreases |nodes|
  {
    if k == |nodes| {
      assert nodes[..k] == nodes;
    } else {
      assert nodes[..|nodes| - 1][..k] == nodes[..k];
      FailingUpserts(rows, nodes[..|nodes| - 1], target, k);
    }
  }

  /** The target rows of a list of nodes. */
  function Targets(nodes: seq<Id>, target: map<Id, Snapshot>): Table
    requires Restorable(nodes, target)
  {
    map n | n in nodes :: TargetRow(target, n)
  }

  /** A row that has not been restored yet holds the unique key that the i-th node
      is about to be given back. */
  ghost predicate HolderAt(rows: Table, nodes: seq<Id>, target: map<Id, Snapshot>, i: nat, m: Id)
    requires Restorable(nodes, target) && i < |nodes|
  {
    && m in rows && m !in nodes[..i + 1]
    && KeyOf(TargetRow(target, nodes[i])).Some?
    && KeyOf(rows[m]) == KeyOf(TargetRow(target, nodes[i]))
  }

  ghost predicate Blocked(rows: Table, nodes: seq<Id>, target: map<Id, Snapshot>)
    requires Restorable(nodes, target)
  {
    exists i, m :: 0 <= i < |nodes| && HolderAt(rows, nodes, target, i, m)
  }

  /** The upserts get through exactly when no not-yet-restored row holds a key that is
      given back, and then every listed node has its target row and no other row moved. */
  lemma {:induction false} ApplyAllIff(rows: Table, nodes: seq<Id>, target: map<Id, Snapshot>)
    requires Distinct(nodes) && Restorable(nodes, target)
    requires UniqueKeys(Targets(nodes, target))
    ensures ApplyAll(rows, nodes, target).Some? <==> !Blocked(rows, nodes, target)
    ensures ApplyAll(rows, nodes, target).Some? ==>
              ApplyAll(rows, nodes, target).value == rows + Targets(nodes, target)
  {
    if nodes == [] {
      assert rows + Targets(nodes, target) == rows;
    } else {
      var k := |nodes| - 1;
      var front, n := nodes[..k], nodes[k];
      UniqueSubset(front, nodes, target);
      ApplyAllIff(rows, front, target);
      BlockedSnoc(rows, nodes, target);
      ClashIffHolder(rows, nodes, target);
      TargetsSnoc(rows, nodes, target);
    }
  }

  lemma TargetsSnoc(rows: Table, nodes: seq<Id>, target: map<Id, Snapshot>)
    requires nodes != [] && Restorable(nodes, target)
    ensures var k := |nodes| - 1;
            && Restorable(nodes[..k], target)
            && (rows + Targets(nodes[..k], target))[nodes[k] := TargetRow(target, nodes[k])]
               == rows + Targets(nodes, target)
  {
    var k := |nodes| - 1;
    assert nodes == nodes[..k] + [nodes[k]];
    assert forall n | n in nodes[..k] :: n in nodes;
  }

  lemma UniqueSubset(front: seq<Id>, nodes: seq<Id>, target: map<Id, Snapshot>)
    requires Restorable(nodes, target) && UniqueKeys(Targets(nodes, target))
    requires forall n | n in front :: n in nodes
    ensures Restorable(front, target) && UniqueKeys(Targets(front, target))
  {
    var all, some := Targets(nodes, target), Targets(front, target);
    forall m | m in some
      ensures !Clashes(some, m, some[m])
    {
      assert !Clashes(all, m, all[m]);
      assert forall x | x in some :: x in all && all[x] == some[x];
    }
  }

  lemma BlockedSnoc(rows: Table, nodes: seq<Id>, target: map<Id, Snapshot>)
    requires nodes != [] && Restorable(nodes, target)
    ensures Restorable(nodes[..|nodes| - 1], target)
    ensures Blocked(rows, nodes, target)
       <==> Blocked(rows, nodes[..|nodes| - 1], target)
            || exists m | m in rows :: HolderAt(rows, nodes, target, |nodes| - 1, m)
  {
    var k := |nodes| - 1;
    var front := nodes[..k];
    assert forall n | n in front :: n in nodes;
    forall i, m | 0 <= i < k
      ensures HolderAt(rows, nodes, target, i, m) <==> HolderAt(rows, front, target, i, m)
    {
      assert front[..i + 1] == nodes[..i + 1];
    }
  }

  lemma ClashIffHolder(rows: Table, nodes: seq<Id>, target: map<Id, Snapshot>)
    requires nodes != [] && Distinct(nodes) && Restorable(nodes, target)
    requires UniqueKeys(Targets(nodes, target))
    ensures var k := |nodes| - 1;
            && Restorable(nodes[..k], target)
            && (Clashes(rows + Targets(nodes[..k], target), nodes[k], TargetRow(target, nodes[k]))
                <==> exists m | m in rows :: HolderAt(rows, nodes, target, k, m))
  {
    var k := |nodes| - 1;
    var front, n := nodes[..k], nodes[k];
    assert nodes[..k + 1] == nodes;
    EarlierTargetsDoNotClash(nodes, target);
    var t := rows + Targets(front, target);
    var row := TargetRow(target, n);
    if m :| m in rows && HolderAt(rows, nodes, target, k, m) {
      assert m != n && m !in front && t[m] == rows[m];
      assert Clashes(t, n, row);
    }
    if Clashes(t, n, row) {
      var m :| m in t && m != n && KeyOf(t[m]) == KeyOf(row);
      assert m !in front;
      assert m !in nodes;
      assert HolderAt(rows, nodes, target, k, m);
    }
  }

  lemma EarlierTargetsDoNotClash(nodes: seq<Id>, target: map<Id, Snapshot>)
    requires nodes != [] && Distinct(nodes) && Restorable(nodes, target)
    requires UniqueKeys(Targets(nodes, target))
    ensures var k := |nodes| - 1;
            && (forall x | x in nodes[..k] :: x in nodes && x != nodes[k])
            && Restorable(nodes[..k], target)
            && forall m | m in Targets(nodes[..k], target) ::
                 KeyOf(TargetRow(target, nodes[k])).None?
                 || KeyOf(Targets(nodes[..k], target)[m]) != KeyOf(TargetRow(target, nodes[k]))
  {
    var k := |nodes| - 1;
    var all := Targets(nodes, target);
    assert nodes[k] in nodes && !Clashes(all, nodes[k], all[nodes[k]]);
    forall m | m in Targets(nodes[..k], target)
      ensures m in all && all[m] == Targets(nodes[..k], target)[m] && m != nodes[k]
    {
      assert m in nodes[..k];
    }
  }

  /** Upserts never break a unique index, in whatever order they come. */
  lemma {:induction false} ApplyAllKeepsUnique(rows: Table, nodes: seq<Id>, target: map<Id, Snapshot>)
    requires UniqueKeys(rows) && forall n | n in nodes :: n in target
    requires ApplyAll(rows, nodes, target).Some?
    ensures UniqueKeys(ApplyAll(rows, nodes, target).value)
  {
    if nodes != [] {
      var k := |nodes| - 1;
      ApplyAllKeepsUnique(rows, nodes[..k], target);
      UniqueAfterStore(ApplyAll(rows, nodes[..k], target).value, nodes[k], RowOf(target[nodes[k]].content).value);
    }
  }

  lemma UniqueAfterStore(t: Table, id: Id, row: Row)
    requires UniqueKeys(t) && !Clashes(t, id, row)
    ensures UniqueKeys(t[id := row])
  {
    var after := t[id := row];
    forall m | m in after
      ensures !Clashes(after, m, after[m])
    {
      if m != id { assert !Clashes(t, m, t[m]); }
    }
  }

  lemma UniqueAfterDelete(t: Table, ids: set<Id>)
    requires UniqueKeys(t)
    ensures UniqueKeys(t - ids)
  {
    var after := t - ids;
    forall m | m in after
      ensures !Clashes(after, m, after[m])
    {
      assert !Clashes(t, m, t[m]);
    }
  }

  // ----- restore_state -----

  /** The contents a state stands for. */
  function Contents(s: Store, m: map<Id, nat>): map<Id, Snapshot>
    requires forall e | e in m :: m[e] < |s.versions|
  {
    map e | e in m :: s.versions[m[e]].snapshot
  }

  function Minus(rows: Table, nodes: seq<Id>): Table {
    map e | e in rows && e !in nodes :: rows[e]
  }

  /** restore_state over the diff of two states; None when an upsert is refused. */
  function RestoreRows(s: Store, rows: Table, base: map<Id, nat>, tip: map<Id, nat>): Option<Table>
    requires forall e | e in base :: base[e] < |s.versions|
  {
    var d := DiffOf(base, tip);
    match ApplyAll(rows, d.changed + d.removed, Contents(s, base))
    case None => None
    case Some(t) => Some(Minus(t, d.added))
  }

  /** restore_state from the maps and the diff its four walks met: None when a node of the
      diff is in neither map or an upsert is refused. */
  function RestoreOnce(s: Store, rows: Table, base: map<Id, nat>, tip: map<Id, nat>, d: ChangeSet): Option<Table>
    requires forall e | e in base :: base[e] < |s.versions|
  {
    if exists n | n in d.changed + d.removed :: n !in base then None
    else
      match ApplyAll(rows, d.changed + d.removed, Contents(s, base))
      case None => None
      case Some(t) => if exists n | n in d.added :: n !in tip then None else Some(Minus(t, d.added))
  }

  /** after is a possible outcome of restore_state: each of the four walks may have met a
      different one of the possible states. */
  ghost predicate RestoresTo(s: Store, rows: Table, base: nat, tip: nat, after: Option<Table>)
    requires Valid(s) && base < |s.revisions| && tip < |s.revisions|
  {
    exists b: map<Id, nat>, t: map<Id, nat>, b': map<Id, nat>, t': map<Id, nat> ::
      RestoresVia(s, rows, base, tip, b, t, b', t', after)
  }

  ghost predicate RestoresVia(s: Store, rows: Table, base: nat, tip: nat, b: map<Id, nat>, t: map<Id, nat>,
                              b': map<Id, nat>, t': map<Id, nat>, after: Option<Table>)
    requires Valid(s) && base < |s.revisions| && tip < |s.revisions|
  {
    && IsStateAt(s, Some(base), b) && IsStateAt(s, Some(base), b')
    && IsStateAt(s, Some(tip), t) && IsStateAt(s, Some(tip), t')
    && (forall e | e in b :: b[e] < |s.versions|)
    && after == RestoreOnce(s, rows, b, t, DiffOf(b', t'))
  }

  lemma OneWalkEach(s: Store, rows: Table, base: map<Id, nat>, tip: map<Id, nat>)
    requires forall e | e in base :: base[e] < |s.versions|
    ensures RestoreOnce(s, rows, base, tip, DiffOf(base, tip)) == RestoreRows(s, rows, base, tip)
  {
    DiffLists(base, tip);
  }

  /** Where state_at has one answer, so has restore_state. */
  lemma RestoresToOne(s: Store, rows: Table, base: nat, tip: nat, m: map<Id, nat>, n: map<Id, nat>,
                      after: Option<Table>)
    requires Valid(s) && Clean(s) && base < |s.revisions| && tip < |s.revisions|
    requires IsStateAt(s, Some(base), m) && IsStateAt(s, Some(tip), n) && forall e | e in m :: m[e] < |s.versions|
    ensures RestoresTo(s, rows, base, tip, after) <==> after == RestoreRows(s, rows, m, n)
  {
    OneWalkEach(s, rows, m, n);
    if b: map<Id, nat>, t: map<Id, nat>, b': map<Id, nat>, t': map<Id, nat>
      :| RestoresVia(s, rows, base, tip, b, t, b', t', after) {
      CleanStateUnique(s, Some(base), m, b);
      CleanStateUnique(s, Some(base), m, b');
      CleanStateUnique(s, Some(tip), n, t);
      CleanStateUnique(s, Some(tip), n, t');
    }
    if after == RestoreRows(s, rows, m, n) {
      assert RestoresVia(s, rows, base, tip, m, n, m, n, after);
    }
  }

  lemma RestoreKeepsUnique(s: Store, rows: Table, base: map<Id, nat>, tip: map<Id, nat>)
    requires forall e | e in base :: base[e] < |s.versions|
    requires UniqueKeys(rows) && RestoreRows(s, rows, base, tip).Some?
    ensures UniqueKeys(RestoreRows(s, rows, base, tip).value)
  {
    var d := DiffOf(base, tip);
    var nodes := d.changed + d.removed;
    var t := ApplyAll(rows, nodes, Contents(s, base)).value;
    ApplyAllKeepsUnique(rows, nodes, Contents(s, base));
    MinusKeepsUnique(t, d.added);
  }

  lemma MinusKeepsUnique(t: Table, nodes: seq<Id>)
    requires UniqueKeys(t)
    ensures UniqueKeys(Minus(t, nodes))
  {
    var gone := set n | n in nodes;
    UniqueAfterDelete(t, gone);
    assert Minus(t, nodes) == t - gone;
  }

  /** Clearing the plan and loading every row of a state. */
  function FullReset(s: Store, m: map<Id, nat>): Table
    requires forall e | e in m :: m[e] < |s.versions| && RowOf(s.versions[m[e]].snapshot.content).Some?
  {
    map e | e in m :: RowOf(s.versions[m[e]].snapshot.content).value
  }

  ghost predicate Loadable(s: Store, m: map<Id, nat>) {
    && (forall e | e in m :: m[e] < |s.versions| && RowOf(s.versions[m[e]].snapshot.content).Some?)
    && UniqueKeys(FullReset(s, m))
  }

  /** Any listing, in any order, of what changed or went away and of what came. */
  ghost predicate Lists(base: map<Id, nat>, tip: map<Id, nat>, upserts: seq<Id>, deletes: seq<Id>) {
    && Distinct(upserts)
    && (forall e :: e in upserts <==> e in base && (e !in tip || base[e] != tip[e]))
    && (forall e :: e in deletes <==> e in tip && e !in base)
  }

  lemma DiffLists(base: map<Id, nat>, tip: map<Id, nat>)
    ensures var d := DiffOf(base, tip); Lists(base, tip, d.changed + d.removed, d.added)
  {
    var d := DiffOf(base, tip);
    var changed := set e | e in base && e in tip && base[e] != tip[e];
    assert forall e :: e in d.changed <==> e in changed;
    assert forall e :: e in d.removed <==> e in base.Keys - tip.Keys;
    var l := d.changed + d.removed;
    forall i, j | 0 <= i < j < |l|
      ensures l[i] != l[j]
    {
      if i < |d.changed| <= j {
        assert l[i] in d.changed && l[j] in d.removed;
      }
    }
  }

  /** What the two loops leave behind, node by node, from any rows. */
  lemma RestorePointwise(s: Store, rows: Table, base: map<Id, nat>, tip: map<Id, nat>,
                         upserts: seq<Id>, deletes: seq<Id>)
    requires Loadable(s, base) && Lists(base, tip, upserts, deletes)
    ensures Restorable(upserts, Contents(s, base))
    ensures ApplyAll(rows, upserts, Contents(s, base)).Some?
       <==> !Blocked(rows, upserts, Contents(s, base))
    ensures ApplyAll(rows, upserts, Contents(s, base)).Some? ==>
              forall e: Id ::
                Lookup(Minus(ApplyAll(rows, upserts, Contents(s, base)).value, deletes), e)
                == if e in base && (e !in tip || base[e] != tip[e]) then Lookup(FullReset(s, base), e)
                   else if e in tip && e !in base then None
                   else Lookup(rows, e)
  {
    var target := Contents(s, base);
    assert Restorable(upserts, target);
    var all, mine := FullReset(s, base), Targets(upserts, target);
    forall m | m in mine
      ensures !Clashes(mine, m, mine[m])
    {
      assert !Clashes(all, m, all[m]);
      assert forall x | x in mine :: x in all && all[x] == mine[x];
    }
    ApplyAllIff(rows, upserts, target);
  }

  /** The differential restore refines the full reset: from rows that materialise the
      tip, whatever the order of the lists, a restore that gets through leaves exactly
      the rows that reloading the base would. */
  lemma RestoreRefinesFullReset(s: Store, rows: Table, base: map<Id, nat>, tip: map<Id, nat>,
                                upserts: seq<Id>, deletes: seq<Id>)
    requires Loadable(s, base) && Lists(base, tip, upserts, deletes)
    requires Materialises(s, tip, rows)
    requires ApplyAll(rows, upserts, Contents(s, base)).Some?
    ensures Minus(ApplyAll(rows, upserts, Contents(s, base)).value, deletes) == FullReset(s, base)
  {
    RestorePointwise(s, rows, base, tip, upserts, deletes);
    var got := Minus(ApplyAll(rows, upserts, Contents(s, base)).value, deletes);
    forall e: Id
      ensures Lookup(got, e) == Lookup(FullReset(s, base), e)
    {
      assert if e in tip then RowOf(s.versions[tip[e]].snapshot.content) == Lookup(rows, e)
             else Lookup(rows, e) == None;
    }
    TablesEqual(got, FullReset(s, base));
  }

  /** A restore leaves alone every node on which the two states agree. */
  lemma RestoreSkips(s: Store, rows: Table, base: map<Id, nat>, tip: map<Id, nat>, e: Id)
    requires Loadable(s, base) && RestoreRows(s, rows, base, tip).Some?
    requires (e in base <==> e in tip) && (e in base ==> base[e] == tip[e])
    ensures Lookup(RestoreRows(s, rows, base, tip).value, e) == Lookup(rows, e)
  {
    var d := DiffOf(base, tip);
    DiffLists(base, tip);
    RestorePointwise(s, rows, base, tip, d.changed + d.removed, d.added);
  }

  /** From arbitrary rows, a restore that gets through reaches the base exactly when
      every row outside the diff already was the base row. */
  lemma RestoreReachesBaseIff(s: Store, rows: Table, base: map<Id, nat>, tip: map<Id, nat>)
    requires Loadable(s, base) && RestoreRows(s, rows, base, tip).Some?
    ensures RestoreRows(s, rows, base, tip).value == FullReset(s, base)
       <==> forall e: Id | !(e in base && (e !in tip || base[e] != tip[e])) && !(e in tip && e !in base) ::
              Lookup(rows, e) == Lookup(FullReset(s, base), e)
  {
    var d := DiffOf(base, tip);
    DiffLists(base, tip);
    RestorePointwise(s, rows, base, tip, d.changed + d.removed, d.added);
    var got := RestoreRows(s, rows, base, tip).value;
    if forall e: Id :: Lookup(got, e) == Lookup(FullReset(s, base), e) {
      TablesEqual(got, FullReset(s, base));
    }
  }
}
