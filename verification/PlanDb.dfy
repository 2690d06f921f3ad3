/** The tables of one plan and the operations on them, statement by statement. Each
    operation is tied to the transition it makes on the tables as a value. */
module PlanDb {
  import opened Rows
  import opened VersionStore
  import opened Restore
  import Sorting
  import opened StepTree
  import opened Regime
  import opened Propagation
  import opened Protocol
  import opened Outcomes
  import opened Runs
  import opened Commands
  import opened ConceptCommands

  /** The tables after aborting cascade c with these rows. */
  function AbortedWith(db: Db, c: nat, rows: Table): Db
    requires c < |db.cascades|
  {
    db.(rows := rows, cascades := Close(db.cascades, c, Aborted), refs := db.refs - {db.cascades[c].name})
  }

  /** That is what it means table by table. */
  lemma AbortedWithIff(db: Db, c: nat, rows: Table, after: Db)
    requires c < |db.cascades|
    ensures after == AbortedWith(db, c, rows) <==> AbortedFrom(db, after, c, rows)
  {
    if AbortedFrom(db, after, c, rows) {
      assert after.cascades == Close(db.cascades, c, Aborted);
    }
  }

  /** What an abort of the open cascade c reads and leaves. */
  lemma AbortRestores(db: Db, c: nat)
    requires Inv(db) && FindOpen(db.cascades) == Some(c)
    ensures c < |db.cascades| && db.cascades[c].status == Open
    ensures db.cascades[c].name in db.refs
    ensures db.cascades[c].base < |db.store.revisions| && db.refs[db.cascades[c].name] < |db.store.revisions|
    ensures Valid(db.store) && AllKindsKnown(db.store.versions)
    ensures Abort(db) == match Restored(db.store, db.rows, db.cascades[c].base, db.refs[db.cascades[c].name])
                         case None => Refused(UniqueViolation)
                         case Some(rows) => Accepted(AbortedWith(db, c, rows))
  {
    assert OpenCascadeOk(db, c);
  }

  /** after is a possible outcome of restoring the base of the open cascade. */
  ghost predicate AbortsTo(db: Db, after: Option<Table>)
    requires Inv(db) && FindOpen(db.cascades).Some?
  {
    var c := FindOpen(db.cascades).value;
    assert OpenCascadeOk(db, c);
    RestoresTo(db.store, db.rows, db.cascades[c].base, db.refs[db.cascades[c].name], after)
  }

  /** Where state_at has one answer, the abort of the class is the abort of the model. */
  lemma AbortsToOne(db: Db, after: Option<Table>)
    requires Inv(db) && Clean(db.store) && FindOpen(db.cascades).Some?
    ensures AbortsTo(db, after)
       <==> Abort(db) == match after
                         case None => Refused(UniqueViolation)
                         case Some(rows) => Accepted(AbortedWith(db, FindOpen(db.cascades).value, rows))
  {
    var c := FindOpen(db.cascades).value;
    AbortRestores(db, c);
    var base, tip := db.cascades[c].base, db.refs[db.cascades[c].name];
    StateInRange(db.store, base, StateOf(db.store, base));
    RestoresToOne(db.store, db.rows, base, tip, StateOf(db.store, base), StateOf(db.store, tip), after);
    match after {
      case None =>
      case Some(rows) => assert AbortedWith(db, c, rows).rows == rows;
    }
  }

  /** A patch of fields, concepts and project leaves the step where it is. */
  predicate SamePlace(step: Step, patched: Step) {
    patched == step.(fields := patched.fields, concepts := patched.concepts, projectId := patched.projectId)
  }

  lemma SamePlaceSameKey(rows: Table, u: Id, patched: Step)
    requires UniqueKeys(rows) && u in rows && rows[u].StepRow? && SamePlace(rows[u].step, patched)
    ensures !Clashes(rows, u, StepRow(patched))
  {
    assert KeyOf(StepRow(patched)) == KeyOf(rows[u]) && !Clashes(rows, u, rows[u]);
  }

  lemma {:induction false} SamePlaceSameUp(rows: Table, u: Id, patched: Step, x: Id, k: nat)
    requires u in rows && rows[u].StepRow? && SamePlace(rows[u].step, patched)
    ensures Up(Steps(rows[u := StepRow(patched)]), x, k) == Up(Steps(rows), x, k)
    decreases k
  {
    if k > 0 && x in Steps(rows) && Steps(rows)[x].parent.Some? {
      SamePlaceSameUp(rows, u, patched, Steps(rows)[x].parent.value, k - 1);
    }
  }

  /** A patch puts no step on a cycle. */
  lemma SamePlaceSameCycle(rows: Table, u: Id, patched: Step)
    requires u in rows && rows[u].StepRow? && SamePlace(rows[u].step, patched)
    ensures OnCycle(Steps(rows[u := StepRow(patched)]), u) <==> OnCycle(Steps(rows), u)
  {
    var before, after := Steps(rows), Steps(rows[u := StepRow(patched)]);
    if k: nat :| k >= 1 && Up(before, u, k) == Some(u) {
      SamePlaceSameUp(rows, u, patched, u, k);
      assert Up(after, u, k) == Some(u);
    }
    if k: nat :| k >= 1 && Up(after, u, k) == Some(u) {
      SamePlaceSameUp(rows, u, patched, u, k);
      assert Up(before, u, k) == Some(u);
    }
  }

  /** A step below u that step_invalidation cannot place or cannot mark. */
  ghost predicate Unmarkable(nodes: Nodes, u: Id) {
    exists d | d in Descendants(nodes, u) :: TieBreak(nodes, d).None? || Illegal(nodes, d)
  }

  /** step_invalidation of an existing step. */
  method InvalidateBelow(nodes: Nodes, u: Id)
    returns (updates: Result<seq<StatusUpdate>>, ghost ids: seq<Id>)
    requires u in nodes && !OnCycle(nodes, u)
    ensures updates.Raised? <==> Unmarkable(nodes, u)
    ensures updates.Ok? ==> updates.value == Marks(ids) && InvalidatesExactly(nodes, u, ids)
  {
    updates, ids := StepInvalidation(nodes, u);
  }

  /** Updates that step_invalidation gives never make apply_status_updates raise. */
  lemma MarksGetThrough(rows: Table, u: Id, ids: seq<Id>)
    requires InvalidatesExactly(Steps(rows), u, ids)
    requires !Unmarkable(Steps(rows), u)
    ensures ApplyUpdates(rows, Marks(ids)).Some?
  {
    assert forall d | d in ids :: d in Steps(rows);
    Sorting.FilterIn(Stale(rows), ids);
    MarkingRows(rows, ids);
  }

  lemma OpenIsRecorded(db: Db, c: nat)
    requires Inv(db) && FindOpen(db.cascades) == Some(c)
    ensures c < |db.cascades| && db.cascades[c].status == Open && db.cascades[c].name in db.refs
  {
    assert OpenCascadeOk(db, c);
  }

  class Connection {
    var rows: Table
    var versions: seq<NodeVersion>
    var revisions: seq<Revision>
    var head: Option<nat>
    var refs: map<RefName, nat>
    var cascades: seq<Cascade>
    var planFrozen: bool
    var blocks: map<Id, Block>
    /** How often this session holds the plan's advisory lock. */
    var locks: nat

    function StoreOf(): Store
      reads this
    {
      Store(versions, revisions)
    }

    function Model(): Db
      reads this
    {
      Db(rows, StoreOf(), head, refs, cascades, planFrozen, blocks)
    }

    constructor ()
      ensures Inv(Model()) && Synced(Model()) && locks == 0
      ensures Model() == Db(map[], Store([], []), None, map[], [], false, map[])
    {
      rows, versions, revisions, head := map[], [], [], None;
      refs, cascades, planFrozen, blocks, locks := map[], [], false, map[], 0;
      new;
      assert FindOpen(cascades).None?;
      assert forall e: Id :: Shows(StoreOf(), None, e, Lookup(rows, e));
    }

    // ----- version store -----

    method InsertNodeVersion(entity: Id, snapshot: Snapshot) returns (id: nat)
      modifies this`versions
      ensures (StoreOf(), id) == Insert(old(StoreOf()), NodeVersion(entity, snapshot))
      ensures id < |versions| && versions[id] == NodeVersion(entity, snapshot)
      ensures versions == if NodeVersion(entity, snapshot) in old(versions) then old(versions)
                          else old(versions) + [NodeVersion(entity, snapshot)]
    {
      match Find(versions, NodeVersion(entity, snapshot))
      case Some(i) => id := i;
      case None =>
        id := |versions|;
        versions := versions + [NodeVersion(entity, snapshot)];
    }

    method RecordRevision(changes: seq<Change>, parent: Option<nat>, refName: Option<RefName>,
                          carry: Option<seq<string>>, cascade: Option<nat>)
      modifies this`versions, this`revisions, this`head, this`refs, this`blocks
      ensures StoreOf() == Record(old(StoreOf()), changes, parent)
      ensures head == if refName.None? then Some(|old(revisions)|) else old(head)
      ensures refs == if refName.Some? && refName.value in old(refs)
                      then old(refs)[refName.value := |old(revisions)|] else old(refs)
      ensures blocks == Carry(old(blocks), parent, |old(revisions)|, cascade, carry)
      ensures CarriedOver(old(blocks), blocks, parent, |old(revisions)|, cascade, carry)
    {
      var ids: seq<nat> := [];
      for i := 0 to |changes|
        invariant (StoreOf(), ids) == InsertAll(old(StoreOf()), changes[..i])
        invariant head == old(head) && refs == old(refs) && blocks == old(blocks) && revisions == old(revisions)
      {
        assert changes[..i + 1][..i] == changes[..i];
        var id := InsertNodeVersion(changes[i].0, changes[i].1);
        ids := ids + [id];
      }
      assert changes[..|changes|] == changes;
      var rev := |revisions|;
      revisions := revisions + [Revision(parent, ids)];
      if refName.None? {
        head := Some(rev);
      } else if refName.value in refs {
        refs := refs[refName.value := rev];
      }
      blocks := Carry(blocks, parent, rev, cascade, carry);
      CarryExactly(old(blocks), parent, rev, cascade, carry);
    }

    /** state_at: the walk up the parent chain; the versions of one revision come back
        from the database in any order. */
    method StateAt(revision: nat) returns (r: Option<map<Id, nat>>)
      requires Valid(StoreOf())
      ensures r.None? <==> revision >= |revisions|
      ensures r.Some? ==> IsStateAt(StoreOf(), Some(revision), r.value)
    {
      if revision >= |revisions| {
        return None;
      }
      ghost var s := StoreOf();
      var state: map<Id, nat> := map[];
      var seen: set<Id> := {};
      var current: Option<nat> := Some(revision);
      while current.Some?
        invariant InRange(s, current)
        invariant forall e: Id | e !in seen ::
                    e !in state && Candidates(s, Some(revision), e) == Candidates(s, current, e)
        invariant forall e: Id | e in seen :: Choice(s, Some(revision), e, Get(state, e))
        decreases if current.Some? then current.value + 1 else 0
      {
        assert ValidRevision(s, current.value);
        var fetched := set v | v in revisions[current.value].versions;
        ghost var before := seen;
        while fetched != {}
          invariant fetched <= set v | v in revisions[current.value].versions
          invariant before <= seen
          invariant forall e: Id | e in seen :: Choice(s, Some(revision), e, Get(state, e))
          invariant forall e: Id | e !in seen ::
                      e !in state && Candidates(s, Some(revision), e) == Candidates(s, current, e)
          invariant forall v | v in revisions[current.value].versions && v !in fetched :: versions[v].entity in seen
          decreases fetched
        {
          var v :| v in fetched;
          fetched := fetched - {v};
          var e := versions[v].entity;
          if e !in seen {
            assert v in Touches(s, current.value, e);
            seen := seen + {e};
            if !versions[v].snapshot.deleted {
              state := state[e := v];
            }
            assert Choice(s, Some(revision), e, Get(state, e));
          }
        }
        forall e: Id | e !in seen
          ensures Candidates(s, current, e) == Candidates(s, revisions[current.value].parent, e)
        {
          assert Touches(s, current.value, e) == {};
        }
        current := revisions[current.value].parent;
      }
      forall e: Id
        ensures Choice(s, Some(revision), e, Get(state, e))
      {
        if e !in seen { assert Get(state, e) == None; }
      }
      return Some(state);
    }

    /** The entities of two states whose versions differ, in order. */
    static method ChangedEntries(a: map<Id, nat>, b: map<Id, nat>) returns (changed: seq<Id>)
      ensures changed == Sorted(set e | e in a && e in b && a[e] != b[e])
    {
      var common := Sorted(a.Keys * b.Keys);
      changed := [];
      for i := 0 to |common|
        invariant forall k: Id :: k in changed <==> k in common[..i] && k in a && k in b && a[k] != b[k]
        invariant forall x, y | 0 <= x < y < |changed| :: changed[x] < changed[y]
      {
        var e := common[i];
        assert e in common && common[..i + 1] == common[..i] + [e];
        if a[e] != b[e] {
          forall x | 0 <= x < |changed|
            ensures changed[x] < e
          {
            assert changed[x] in changed;
            var j :| 0 <= j < i && common[..i][j] == changed[x];
            assert common[j] < common[i];
          }
          changed := changed + [e];
        }
      }
      assert common[..|common|] == common;
      AscendingIsSorted(changed, set e | e in a && e in b && a[e] != b[e]);
    }

    /** diff: two walks, then the three lists; m and n are the states the walks met. */
    method Diff(a: nat, b: nat) returns (d: Option<ChangeSet>, ghost m: map<Id, nat>, ghost n: map<Id, nat>)
      requires Valid(StoreOf())
      ensures d.None? <==> a >= |revisions| || b >= |revisions|
      ensures d.Some? ==> IsStateAt(StoreOf(), Some(a), m) && IsStateAt(StoreOf(), Some(b), n)
                          && d.value == DiffOf(m, n)
      ensures d.Some? ==> IsDiff(d.value, m, n)
    {
      m, n := map[], map[];
      var stateA := StateAt(a);
      var stateB := StateAt(b);
      if stateA.None? || stateB.None? {
        return None, m, n;
      }
      m, n := stateA.value, stateB.value;
      var changed := ChangedEntries(stateA.value, stateB.value);
      DiffExactly(m, n);
      d := Some(ChangeSet(Sorted(stateB.value.Keys - stateA.value.Keys),
                          Sorted(stateA.value.Keys - stateB.value.Keys), changed));
    }

    // ----- restore -----

    /** _restore_row: create an absent row, update a present one; either way the unique
        indexes have their say. */
    method RestoreRow(node: Id, row: Row) returns (ok: bool)
      modifies this`rows
      ensures ok <==> !Clashes(old(rows), node, row)
      ensures rows == if ok then old(rows)[node := row] else old(rows)
    {
      ok := !Clashes(rows, node, row);
      if ok {
        if node in rows {
          rows := rows[node := row];
        } else {
          rows := rows + map[node := row];
        }
      }
    }

    method ApplyOneSnapshot(node: Id, snapshot: Snapshot) returns (ok: bool)
      modifies this`rows
      ensures ok <==> ApplySnapshot(old(rows), node, snapshot).Some?
      ensures rows == if ok then ApplySnapshot(old(rows), node, snapshot).value else old(rows)
    {
      match RowOf(snapshot.content)
      case None => ok := false;
      case Some(row) => ok := RestoreRow(node, row);
    }

    /** delete_node: refused for an unknown kind, silent for a missing row. */
    method DeleteNode(node: Id, content: Content) returns (ok: bool)
      modifies this`rows
      ensures ok <==> !content.OtherContent?
      ensures rows == if ok then old(rows) - {node} else old(rows)
    {
      ok := !content.OtherContent?;
      if ok {
        rows := rows - {node};
      }
    }

    /** The upserts of restore_state: changed nodes, then removed ones. RowMissing is a node
        the base map does not have. */
    method UpsertAll(nodes: seq<Id>, baseMap: map<Id, nat>) returns (why: Option<Refusal>)
      requires forall e | e in baseMap :: baseMap[e] < |versions|
      modifies this`rows
      ensures why.None? ==> forall n | n in nodes :: n in baseMap
      ensures (forall n | n in nodes :: n in baseMap) ==>
                match ApplyAll(old(rows), nodes, Contents(StoreOf(), baseMap))
                case None => why == Some(UniqueViolation)
                case Some(t) => why == None && rows == t
    {
      ghost var target := Contents(StoreOf(), baseMap);
      ghost var known := forall n | n in nodes :: n in baseMap;
      for i := 0 to |nodes|
        invariant forall n | n in nodes[..i] :: n in baseMap
        invariant known ==> ApplyAll(old(rows), nodes[..i], target) == Some(rows)
      {
        if nodes[i] !in baseMap {
          assert nodes[i] in nodes;
          return Some(RowMissing);
        }
        assert nodes[..i + 1][..i] == nodes[..i];
        var done := ApplyOneSnapshot(nodes[i], versions[baseMap[nodes[i]]].snapshot);
        if !done {
          if known { FailingUpserts(old(rows), nodes, target, i + 1); }
          return Some(UniqueViolation);
        }
      }
      assert nodes[..|nodes|] == nodes;
      return None;
    }

    /** The deletions of restore_state. */
    method DeleteAll(added: seq<Id>, tipMap: map<Id, nat>) returns (why: Option<Refusal>)
      requires AllKindsKnown(versions) && forall e | e in tipMap :: tipMap[e] < |versions|
      modifies this`rows
      ensures why == if forall n | n in added :: n in tipMap then None else Some(RowMissing)
      ensures why.None? ==> rows == Minus(old(rows), added)
    {
      for i := 0 to |added|
        invariant rows == Minus(old(rows), added[..i])
        invariant forall n | n in added[..i] :: n in tipMap
      {
        if added[i] !in tipMap {
          assert added[i] in added;
          return Some(RowMissing);
        }
        assert added[..i + 1] == added[..i] + [added[i]];
        var done := DeleteNode(added[i], versions[tipMap[added[i]]].snapshot.content);
        assert done;
      }
      assert added[..|added|] == added;
      return None;
    }

    /** restore_state: one of the outcomes that the answers of state_at allow; where they
        leave one answer, a refusal is that of a unique index. */
    method RestoreState(base: nat, tip: nat) returns (why: Option<Refusal>)
      requires Valid(StoreOf()) && AllKindsKnown(versions) && base < |revisions| && tip < |revisions|
      modifies this`rows
      ensures RestoresTo(StoreOf(), old(rows), base, tip, if why.None? then Some(rows) else None)
      ensures Clean(StoreOf()) ==> why == None || why == Some(UniqueViolation)
    {
      ghost var s := StoreOf();
      var baseMap := StateAt(base);
      var tipMap := StateAt(tip);
      var d, m, n := Diff(base, tip);
      StateInRange(s, base, baseMap.value);
      StateInRange(s, tip, tipMap.value);
      DiffLists(m, n);
      if Clean(s) {
        CleanStateUnique(s, Some(base), baseMap.value, m);
        CleanStateUnique(s, Some(tip), tipMap.value, n);
      }
      why := UpsertAll(d.value.changed + d.value.removed, baseMap.value);
      if why.None? {
        why := DeleteAll(d.value.added, tipMap.value);
      }
      assert RestoresVia(s, old(rows), base, tip, baseMap.value, tipMap.value, m, n,
                         if why.None? then Some(rows) else None);
    }

    // ----- cascade records, references and the lock -----

    method InsertCascade(record: Cascade) returns (ok: bool)
      requires record.status == Open
      modifies this`cascades
      ensures ok <==> FindOpen(old(cascades)).None?
      ensures cascades == if ok then old(cascades) + [record] else old(cascades)
    {
      ok := FindOpen(cascades).None?;
      if ok {
        cascades := cascades + [record];
      }
    }

    /** close_cascade: no row updated means there was no such open cascade. */
    method CloseCascade(c: nat, status: CascadeStatus) returns (ok: bool)
      modifies this`cascades
      ensures ok <==> status != Open && c < |old(cascades)| && old(cascades)[c].status == Open
      ensures ok ==> ClosedAs(old(cascades), cascades, c, status)
      ensures !ok ==> cascades == old(cascades)
    {
      ok := status != Open && c < |cascades| && cascades[c].status == Open;
      if ok {
        cascades := cascades[c := cascades[c].(status := status)];
      }
    }

    method AcquirePlanLock()
      modifies this`locks
      ensures locks == old(locks) + 1
    {
      locks := locks + 1;
    }

    /** release_plan_lock, in the finally block of an operation that ended with why. After a
        failed statement the unlock fails as well: the session keeps the lock. */
    method ReleasePlanLock(why: Option<Refusal>)
      requires locks > 0
      modifies this`locks
      ensures locks == if why == Some(UniqueViolation) then old(locks) else old(locks) - 1
    {
      if why != Some(UniqueViolation) {
        locks := locks - 1;
      }
    }

    /** Closing the connection at the end of a command frees whatever the session holds. */
    method EndSession()
      modifies this`locks
      ensures locks == 0
    {
      locks := 0;
    }

    // ----- begin, commit, abort -----

    method BeginCascade(allowAllFrozen: bool) returns (why: Option<Refusal>)
      modifies this
      ensures locks == old(locks) + if why == Some(UniqueViolation) then 1 else 0
      ensures match Begin(old(Model()), allowAllFrozen)
              case Accepted(db) => why == None && Model() == db
              case Refused(w) => why == Some(w) && Model() == old(Model())
      ensures why == None ==> OpenedFrom(old(Model()), Model())
      ensures why == Some(AlreadyOpen) <==> !NoneOpen(old(cascades))
      ensures why == Some(FrozenTruthRefusal)
         <==> NoneOpen(old(cascades)) && (old(planFrozen) || (!allowAllFrozen && !NotFullyFrozen(old(rows))))
    {
      BeginExactly(Model(), allowAllFrozen);
      AcquirePlanLock();
      if FindOpen(cascades).Some? {
        why := Some(AlreadyOpen);
      } else if planFrozen {
        why := Some(FrozenTruthRefusal);
      } else if !allowAllFrozen && AllStepsFrozen(rows) {
        why := Some(FrozenTruthRefusal);
      } else if head.None? {
        why := Some(NoHead);
      } else {
        var name := CascadeRef(|cascades|);
        if name in refs {
          why := Some(UniqueViolation);
        } else {
          refs := refs[name := head.value];
          var inserted := InsertCascade(Cascade(name, head.value, Open));
          assert inserted;
          why := None;
        }
      }
      ReleasePlanLock(why);
    }

    /** The statements of commit_cascade once the reference is read. */
    method Publish(c: nat) returns (why: Option<Refusal>)
      requires c < |cascades| && cascades[c].status == Open && cascades[c].name in refs
      modifies this
      ensures locks == old(locks)
      ensures head == Some(old(refs[cascades[c].name])) && rows == old(rows) && StoreOf() == old(StoreOf())
      ensures planFrozen == old(planFrozen)
      ensures if UniqueBlocks(Promote(old(blocks), c, head.value))
              then why == None && blocks == Promote(old(blocks), c, head.value)
                   && cascades == Close(old(cascades), c, Committed) && refs == old(refs - {cascades[c].name})
              else why == Some(UniqueViolation) && Model() == old(Model()).(head := head)
    {
      var name := cascades[c].name;
      var tip := refs[name];
      head := Some(tip);
      var promoted := Promote(blocks, c, tip);
      if !UniqueBlocks(promoted) {
        return Some(UniqueViolation);
      }
      blocks := promoted;
      var closed := CloseCascade(c, Committed);
      assert closed;
      refs := refs - {name};
      return None;
    }

    /** commit_cascade; green is the verdict of the gate. A refused promotion surfaces
        after head has moved, so it is the transaction around the command that undoes it. */
    method CommitCascade(green: bool) returns (why: Option<Refusal>)
      modifies this
      ensures locks == old(locks) + if why == Some(UniqueViolation) then 1 else 0
      ensures match Commit(old(Model()), green)
              case Accepted(db) => why == None && Model() == db
              case Refused(w) => why == Some(w) && Model() == old(Model()).(head := head)
                                 && (w != UniqueViolation ==> head == old(head))
      ensures why == None ==>
                green && old(FindOpen(cascades)).Some?
                && CommittedFrom(old(Model()), Model(), old(FindOpen(cascades)).value)
      ensures why == Some(NoOpenCascade) <==> NoneOpen(old(cascades))
      ensures why == Some(GateRed) <==> !NoneOpen(old(cascades)) && !green
    {
      CommitExactly(Model(), green);
      AcquirePlanLock();
      var open := FindOpen(cascades);
      if open.None? {
        why := Some(NoOpenCascade);
      } else if !green {
        why := Some(GateRed);
      } else {
        var name := cascades[open.value].name;
        if name !in refs {
          why := Some(RefNotFound);
        } else {
          why := Publish(open.value);
        }
      }
      ReleasePlanLock(why);
    }

    /** The statements of abort_cascade between taking and releasing the lock. */
    method RestoreAndClose(c: nat) returns (why: Option<Refusal>)
      requires Valid(StoreOf()) && AllKindsKnown(versions)
      requires c < |cascades| && cascades[c].status == Open && cascades[c].base < |revisions|
      requires cascades[c].name in refs && refs[cascades[c].name] < |revisions|
      modifies this
      ensures locks == old(locks)
      ensures why.Some? ==> Model() == old(Model()).(rows := rows)
      ensures why.None? ==> AbortedFrom(old(Model()), Model(), c, rows)
      ensures RestoresTo(old(StoreOf()), old(rows), old(cascades[c].base), old(refs[cascades[c].name]),
                         if why.None? then Some(rows) else None)
      ensures Clean(old(StoreOf())) ==> why == None || why == Some(UniqueViolation)
    {
      var name := cascades[c].name;
      why := RestoreState(cascades[c].base, refs[name]);
      if why.None? {
        refs := refs - {name};
        var closed := CloseCascade(c, Aborted);
        assert closed;
      }
    }

    /** abort_cascade, over every store; a refused restore leaves rows half restored until
        the transaction is rolled back. */
    method AbortCascade() returns (why: Option<Refusal>)
      requires Inv(Model())
      modifies this
      ensures locks == old(locks) + if why == Some(UniqueViolation) then 1 else 0
      ensures old(FindOpen(cascades)).None? ==> why == Some(NoOpenCascade) && Model() == old(Model())
      ensures old(FindOpen(cascades)).Some? ==>
                && (why.Some? ==> Model() == old(Model()).(rows := rows))
                && (why.None? ==> AbortedFrom(old(Model()), Model(), old(FindOpen(cascades)).value, rows))
                && AbortsTo(old(Model()), if why.None? then Some(rows) else None)
                && (Clean(old(StoreOf())) ==> why == None || why == Some(UniqueViolation))
    {
      ghost var start := Model();
      AcquirePlanLock();
      var open := FindOpen(cascades);
      if open.None? {
        why := Some(NoOpenCascade);
      } else {
        AbortRestores(start, open.value);
        why := RestoreAndClose(open.value);
      }
      ReleasePlanLock(why);
    }

    // ----- commands: transactions on a connection of their own -----

    /** The cascade_commit command: a refusal rolls the transaction back. */
    method CascadeCommit(green: bool) returns (why: Option<Refusal>)
      requires Inv(Model())
      modifies this
      ensures locks == 0
      ensures match Commit(old(Model()), green)
              case Accepted(db) => why == None && Model() == db
              case Refused(w) => why == Some(w) && Model() == old(Model())
      ensures why == None ==>
                green && old(FindOpen(cascades)).Some?
                && CommittedFrom(old(Model()), Model(), old(FindOpen(cascades)).value)
    {
      var savedHead := head;
      why := CommitCascade(green);
      if why.Some? {
        head := savedHead;
      }
      EndSession();
    }

    /** The cascade_abort command, over every store. */
    method CascadeAbort() returns (why: Option<Refusal>)
      requires Inv(Model())
      modifies this
      ensures locks == 0
      ensures why.Some? ==> Model() == old(Model())
      ensures why.None? ==> old(FindOpen(cascades)).Some?
                            && AbortedFrom(old(Model()), Model(), old(FindOpen(cascades)).value, rows)
      ensures old(FindOpen(cascades)).None? ==> why == Some(NoOpenCascade)
      ensures old(FindOpen(cascades)).Some? ==>
                AbortsTo(old(Model()), if why.None? then Some(rows) else None)
    {
      var savedRows := rows;
      why := AbortCascade();
      if why.Some? {
        rows := savedRows;
      }
      EndSession();
    }

    // ----- writing inside a cascade -----

    /** apply_status_updates: None when it raises, with some of the updates applied. */
    method ApplyStatusUpdates(updates: seq<StatusUpdate>) returns (snaps: Option<seq<Change>>)
      modifies this`rows
      ensures match ApplyUpdates(old(rows), updates)
              case None => snaps == None
              case Some((t, s)) => snaps == Some(s) && rows == t
    {
      var recorded: seq<Change> := [];
      for i := 0 to |updates|
        invariant ApplyUpdates(old(rows), updates[..i]) == Some((rows, recorded))
      {
        assert updates[..i + 1][..i] == updates[..i];
        ghost var before := rows;
        var (u, status) := updates[i];
        if u !in rows || !rows[u].StepRow? {
          FailingPrefix(old(rows), updates, i + 1);
          return None;
        }
        var step := rows[u].step;
        if step.status == status {
          continue;
        }
        if !ValidTransition(step.status, status, IsAtomic(step), true) {
          FailingPrefix(old(rows), updates, i + 1);
          return None;
        }
        rows := rows[u := StepRow(step.(status := status))];
        recorded := recorded + [(u, StepSnapshot(step, status))];
      }
      assert updates[..|updates|] == updates;
      return Some(recorded);
    }

    /** cascade_write_many; the caller has already edited the rows. A refusal after some
        status updates leaves them to the transaction's rollback. */
    method CascadeWriteMany(c: nat, nodeChanges: seq<Change>, updates: seq<StatusUpdate>,
                            carry: Option<seq<string>>) returns (why: Option<Refusal>)
      requires c < |cascades|
      modifies this
      ensures locks == old(locks)
      ensures match RecordInCascade(old(Model()), c, nodeChanges, updates, carry)
              case Accepted(db) => why == None && Model() == db
              case Refused(w) => why == Some(w) && Model() == old(Model()).(rows := rows)
    {
      if cascades[c].status != Open {
        return Some(NoOpenCascade);
      }
      var name := cascades[c].name;
      if name !in refs {
        return Some(RefNotFound);
      }
      var parent := refs[name];
      var snaps := ApplyStatusUpdates(updates);
      if snaps.None? {
        return Some(IllegalUpdate);
      }
      RecordRevision(nodeChanges + snaps.value, Some(parent), Some(name), carry, Some(c));
      return None;
    }

    /** cascade_write: one directly edited node. */
    method CascadeWrite(c: nat, node: Id, snapshot: Snapshot, updates: seq<StatusUpdate>,
                        carry: Option<seq<string>>) returns (why: Option<Refusal>)
      requires c < |cascades|
      modifies this
      ensures locks == old(locks)
      ensures match RecordInCascade(old(Model()), c, [(node, snapshot)], updates, carry)
              case Accepted(db) => why == None && Model() == db
              case Refused(w) => why == Some(w) && Model() == old(Model()).(rows := rows)
    {
      why := CascadeWriteMany(c, [(node, snapshot)], updates, carry);
    }

    /** check_admission. */
    method CheckAdmission(target: Target, cascade: Option<nat>) returns (admitted: bool)
      requires cascade.None? && FindOpen(cascades).None? && target.StepTarget? && target.uuid.Some? ==>
                 ChecksEnd(Steps(rows), target.uuid.value)
      ensures admitted <==> Admits(Model(), target, cascade)
      ensures target.UnknownTarget? ==> !admitted
      ensures !target.UnknownTarget? && cascade.Some? ==> (admitted <==> FindOpen(cascades) == cascade)
      ensures cascade.None? && (target.ConceptTarget? || target.RelationTarget?) ==> !admitted
      ensures cascade.None? && target.ParagraphTarget? ==> (admitted <==> NoneOpen(cascades) && NoStepFrozen(rows))
      ensures cascade.None? && target.StepTarget? ==>
                (admitted <==> NoneOpen(cascades) && target.uuid.Some?
                               && OpenToDirectEdits(Steps(rows), target.uuid.value))
    {
      AdmitsExactly(Model(), target, cascade);
      if target.UnknownTarget? {
        return false;
      }
      var open := FindOpen(cascades);
      if cascade.Some? {
        return open == cascade;
      }
      if open.Some? {
        return false;
      }
      match target
      case StepTarget(t) =>
        admitted := AdmitStepDirectly(Steps(rows), t);
      case ParagraphTarget =>
        admitted := forall u | u in Steps(rows) :: !FrozenAt(Steps(rows), u);
      case _ =>
        admitted := false;
    }

    // ----- step_update -----

    /** step_update with the merged step: direct, or inside a cascade with the invalidation
        of everything below it. */
    method StepUpdate(u: Id, patched: Step, cascade: Option<nat>, carry: Option<seq<string>>)
      returns (why: Option<Refusal>, ghost ids: seq<Id>)
      requires Inv(Model())
      requires u in rows && rows[u].StepRow? && SamePlace(rows[u].step, patched)
      requires cascade.None? && FindOpen(cascades).None? ==> ChecksEnd(Steps(rows), u)
      requires cascade.Some? && FindOpen(cascades) == cascade ==> !OnCycle(Steps(rows), u)
      modifies this
      ensures locks == old(locks)
      ensures why.None? ==>
                && Write(old(Model()), StepRequest(cascade, u, patched, ids, carry)) == Accepted(Model())
                && (cascade.Some? ==> InvalidatesExactly(Steps(old(rows)[u := StepRow(patched)]), u, ids))
      ensures why.Some? ==> Model() == old(Model())
      ensures why.Some? <==> !old(Admits(Model(), StepTarget(Some(u)), cascade))
                             || (cascade.Some? && Unmarkable(Steps(old(rows)[u := StepRow(patched)]), u))
    {
      ghost var start := Model();
      ghost var edit := (u, Some(StepRow(patched)));
      ids := [];
      var savedRows := rows;
      var admitted := CheckAdmission(StepTarget(Some(u)), cascade);
      if !admitted {
        return Some(NotAdmitted), ids;
      }
      PerformOne(rows, edit);
      SamePlaceSameKey(rows, u, patched);
      SamePlaceSameCycle(rows, u, patched);
      rows := rows[u := StepRow(patched)];
      var snapshot := StepSnapshot(patched, patched.status);
      if cascade.None? {
        WriteIsRecordedOnHead(start, StepRequest(None, u, patched, [], carry), edit, snapshot, rows);
        RecordOnHead(u, snapshot, carry);
        return None, ids;
      }
      why, ids := RecordStepEdit(cascade.value, u, patched, start, carry);
      if why.Some? {
        rows := savedRows;
      }
    }

    /** record_revision in direct mode. */
    method RecordOnHead(u: Id, snapshot: Snapshot, carry: Option<seq<string>>)
      modifies this
      ensures locks == old(locks)
      ensures Model() == old(Model()).(store := Record(old(StoreOf()), [(u, snapshot)], old(head)),
                                       head := Some(|old(revisions)|),
                                       blocks := Carry(old(blocks), old(head), |old(revisions)|, None, carry))
    {
      RecordRevision([(u, snapshot)], head, None, carry, None);
    }

    /** Invalidate what is below the edited step and record both in cascade c. */
    method RecordStepEdit(c: nat, u: Id, patched: Step, ghost start: Db, carry: Option<seq<string>>)
      returns (why: Option<Refusal>, ghost ids: seq<Id>)
      requires Inv(start) && FindOpen(start.cascades) == Some(c) && Model() == start.(rows := rows)
      requires u in rows && rows[u].StepRow? && !OnCycle(Steps(rows), u)
      requires Perform(start.rows, [(u, Some(StepRow(patched)))])
            == Some((rows, [(u, StepSnapshot(patched, patched.status))]))
      modifies this
      ensures locks == old(locks)
      ensures why.Some? <==> Unmarkable(Steps(old(rows)), u)
      ensures why.Some? ==> Model() == old(Model()).(rows := rows)
      ensures why.None? ==> InvalidatesExactly(Steps(old(rows)), u, ids)
                            && Write(start, StepRequest(Some(c), u, patched, ids, carry)) == Accepted(Model())
    {
      var updates;
      updates, ids := InvalidateBelow(Steps(rows), u);
      if updates.Raised? {
        return Some(IllegalUpdate), ids;
      }
      var snapshot := StepSnapshot(patched, patched.status);
      MarksGetThrough(rows, u, ids);
      WriteIsRecorded(start, StepRequest(Some(c), u, patched, ids, carry), c, (u, Some(StepRow(patched))), snapshot,
                      rows);
      OpenIsRecorded(start, c);
      why := CascadeWrite(c, u, snapshot, updates.value, carry);
    }

    // ----- the concept commands -----

    method FindConcept(conceptId: string) returns (found: Option<Id>)
      requires UniqueKeys(rows)
      ensures found == ConceptAt(rows, conceptId)
    {
      if id :| id in rows && Named(rows, id, conceptId) {
        OneConceptPerName(rows, conceptId, id);
        return Some(id);
      }
      return None;
    }

    /** Record the edit of one concept row in cascade c and mark every global step; a
        refusal rolls the transaction back. */
    method RecordConceptEdit(c: nat, edit: Edit, snapshot: Snapshot, ghost start: Db, order: seq<Id>)
      returns (why: Option<Refusal>)
      requires Inv(start) && FindOpen(start.cascades) == Some(c) && Model() == start.(rows := rows)
      requires Perform(start.rows, [edit]) == Some((rows, [(edit.0, snapshot)]))
      modifies this
      ensures locks == old(locks)
      ensures match Write(start, MrsRequest(ConceptTarget, c, edit, AllGlobals(old(rows), order)))
              case Accepted(db) => why == None && Model() == db
              case Refused(w) => why == Some(w) && Model() == old(Model()).(rows := rows)
    {
      WriteIsRecorded(start, MrsRequest(ConceptTarget, c, edit, AllGlobals(rows, order)), c, edit, snapshot, rows);
      why := CascadeWrite(c, edit.0, snapshot, Marks(AllGlobals(rows, order)), None);
    }

    /** concept_add; id is the generated identity of the new row and wellFormed the
        verdict of the field validation. */
    method ConceptAdd(c: nat, id: Id, concept: Concept, wellFormed: bool, order: seq<Id>)
      returns (why: Option<Refusal>)
      requires Inv(Model())
      modifies this
      ensures locks == old(locks)
      ensures match old(AddConcept(Model(), c, id, concept, wellFormed, order))
              case Accepted(db) => why == None && Model() == db
              case Refused(w) =>
                && Model() == old(Model())
                && why == Some(if w == IllegalUpdate && old(Clashes(rows, id, ConceptRow(concept)))
                               then UniqueViolation else w)
    {
      ghost var start := Model();
      var savedRows := rows;
      var admitted := CheckAdmission(ConceptTarget, Some(c));
      if !admitted {
        return Some(NotAdmitted);
      }
      if !LabelsResolve(rows, concept.sourceLabels) {
        return Some(LabelMissing);
      }
      if !wellFormed {
        return Some(InvalidFields);
      }
      PerformOne(rows, (id, Some(ConceptRow(concept))));
      var inserted := RestoreRow(id, ConceptRow(concept));
      if !inserted {
        return Some(UniqueViolation);
      }
      why := RecordConceptEdit(c, (id, Some(ConceptRow(concept))), SnapshotOf(ConceptRow(concept)), start, order);
      if why.Some? {
        rows := savedRows;
      }
    }

    /** concept_update. */
    method ConceptUpdate(c: nat, conceptId: string, fields: ConceptFields, wellFormed: bool, order: seq<Id>)
      returns (why: Option<Refusal>)
      requires Inv(Model())
      modifies this
      ensures locks == old(locks)
      ensures match old(UpdateConcept(Model(), c, conceptId, fields, wellFormed, order))
              case Accepted(db) => why == None && Model() == db
              case Refused(w) => why == Some(w) && Model() == old(Model())
    {
      ghost var start := Model();
      var savedRows := rows;
      var admitted := CheckAdmission(ConceptTarget, Some(c));
      if !admitted {
        return Some(NotAdmitted);
      }
      if fields.sourceLabels.Some? && !LabelsResolve(rows, fields.sourceLabels.value) {
        return Some(LabelMissing);
      }
      var found := FindConcept(conceptId);
      if found.None? {
        return Some(RowMissing);
      }
      if !wellFormed {
        return Some(InvalidFields);
      }
      var id := found.value;
      var merged := ConceptRow(Patched(rows[id].concept, fields));
      PerformOne(rows, (id, Some(merged)));
      PatchKeepsKey(rows, id, fields);
      rows := rows[id := merged];
      why := RecordConceptEdit(c, (id, Some(merged)), SnapshotOf(merged), start, order);
      if why.Some? {
        rows := savedRows;
      }
    }

    /** concept_remove: the row goes, its tombstone is recorded. */
    method ConceptRemove(c: nat, conceptId: string, order: seq<Id>) returns (why: Option<Refusal>)
      requires Inv(Model())
      modifies this
      ensures locks == old(locks)
      ensures match old(RemoveConcept(Model(), c, conceptId, order))
              case Accepted(db) => why == None && Model() == db
              case Refused(w) => why == Some(w) && Model() == old(Model())
    {
      ghost var start := Model();
      var savedRows := rows;
      var admitted := CheckAdmission(ConceptTarget, Some(c));
      if !admitted {
        return Some(NotAdmitted);
      }
      var found := FindConcept(conceptId);
      if found.None? {
        return Some(RowMissing);
      }
      if Referenced(rows, conceptId) {
        return Some(StillReferenced);
      }
      var id := found.value;
      var tombstone := Tombstone(rows[id]);
      PerformOne(rows, (id, None));
      rows := rows - {id};
      why := RecordConceptEdit(c, (id, None), tombstone, start, order);
      if why.Some? {
        rows := savedRows;
      }
    }
  }
}
