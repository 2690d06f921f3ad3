/** Inputs on which the cascade falls short of what its documentation promises: the
    witnesses behind the conditions of the exact theorems. */
module Counterexamples {
  import opened Rows
  import opened VersionStore
  import opened Restore
  import opened StepTree
  import opened Propagation
  import opened Protocol
  import opened WriteSoundness
  import opened Runs
  import opened CascadeLaws
  import opened Commands

  // ----- state_at is not last-writer-wins -----

  const DRAFT_STEP := Step(None, 3, "G-001", "g", "{}", [], [], None, Draft)

  function TwoVersions(status: Status): Store {
    Store([NodeVersion(0, StepSnapshot(DRAFT_STEP, Draft)), NodeVersion(0, StepSnapshot(DRAFT_STEP, status))],
          [Revision(None, [0, 1])])
  }

  /** One revision that holds a step twice, the later entry with another status:
      state_at may answer with either. */
  lemma LaterEntryNeedNotWin(status: Status)
    requires status != Draft
    ensures var s := TwoVersions(status);
            Valid(s) && IsStateAt(s, Some(0), map[0 := 0]) && IsStateAt(s, Some(0), map[0 := 1])
  {
    var s := TwoVersions(status);
    assert s.versions[0] != s.versions[1];
    assert ValidRevision(s, 0);
    forall e: Id
      ensures Candidates(s, Some(0), e) == if e == 0 then {0, 1} else {}
    {
      assert s.revisions[0].versions[0] == 0 && s.revisions[0].versions[1] == 1;
      assert e == 0 ==> Touches(s, 0, e) == {0, 1};
      assert e != 0 ==> Touches(s, 0, e) == {} && Candidates(s, None, e) == {};
    }
  }

  // ----- an abort does not undo what no write recorded -----

  lemma SamePick(s: Store, t: Store, a: nat, b: nat, m: map<Id, nat>, n: map<Id, nat>, e: Id)
    requires Valid(s) && Clean(s) && Valid(t) && Extends(s, t)
    requires a < |s.revisions| && b < |t.revisions| && IsStateAt(t, Some(a), m) && IsStateAt(t, Some(b), n)
    requires Candidates(t, Some(b), e) == Candidates(s, Some(a), e)
    ensures Get(m, e) == Get(n, e)
  {
    CandidatesStable(s, t, Some(a), e);
    CleanMeansOneCandidate(s, Some(a), e);
    assert Choice(t, Some(a), e, Get(m, e)) && Choice(t, Some(b), e, Get(n, e));
  }

  lemma BaseStillLoads(db: Db, store: Store, base: map<Id, nat>)
    requires Synced(db) && FindOpen(db.cascades).Some? && Valid(store) && Extends(db.store, store)
    requires IsStateAt(store, Some(BaseRevision(db)), base)
    ensures Loadable(store, base)
  {
    var rows: Table :| UniqueKeys(rows) && Agrees(db.store, Some(BaseRevision(db)), rows);
    HistoryImmutable(db.store, store, Some(BaseRevision(db)));
    AgreesIffEveryStateMaterialises(store, Some(BaseRevision(db)), rows);
    MaterialisedIsReset(store, base, rows);
  }

  /** A row that the first write of a cascade changes without recording it keeps that
      change when the cascade is aborted. */
  lemma AbortKeepsUnrecorded(db: Db, req: Request, next: Db, after: Db, v: Id)
    requires Synced(db) && FindOpen(db.cascades).Some? && Working(db) == Some(BaseRevision(db))
    requires req.cascade.Some? && Write(db, req) == Accepted(next) && Inv(next)
    requires v !in ChangedEntities(Effect(db.rows, req).value.1)
    requires Abort(next) == Accepted(after)
    ensures Lookup(after.rows, v) == Lookup(Effect(db.rows, req).value.0, v)
  {
    var changes := Effect(db.rows, req).value.1;
    var b, rev := BaseRevision(db), |db.store.revisions|;
    WriteFacts(db, req, next);
    UntouchedAfterRecord(db.store, changes, Working(db), v);
    var base, tip := StateOf(next.store, b), StateOf(next.store, rev);
    SamePick(db.store, next.store, b, rev, base, tip, v);
    assert Get(base, v) == Get(tip, v);
    BaseStillLoads(db, next.store, base);
    AbortRestoresRows(next, rev, after);
    RestoreSkips(next.store, next.rows, base, tip, v);
  }

  lemma AbortRestoresRows(db: Db, tip: nat, after: Db)
    requires Inv(db) && FindOpen(db.cascades).Some? && Working(db) == Some(tip) && Abort(db) == Accepted(after)
    ensures tip < |db.store.revisions| && BaseRevision(db) < |db.store.revisions|
    ensures var base := StateOf(db.store, BaseRevision(db));
            && (forall e | e in base :: base[e] < |db.store.versions|)
            && RestoreRows(db.store, db.rows, base, StateOf(db.store, tip)) == Some(after.rows)
  {
    WorkingInRange(db);
    StateInRange(db.store, BaseRevision(db), StateOf(db.store, BaseRevision(db)));
  }

  lemma WriteFacts(db: Db, req: Request, next: Db)
    requires Inv(db) && FindOpen(db.cascades).Some? && req.cascade.Some? && Write(db, req) == Accepted(next)
    ensures Effect(db.rows, req).Some? && next.rows == Effect(db.rows, req).value.0
    ensures next.store == Record(db.store, Effect(db.rows, req).value.1, Working(db))
    ensures next.cascades == db.cascades && Working(next) == Some(|db.store.revisions|)
    ensures Valid(next.store) && Extends(db.store, next.store) && |next.store.revisions| == |db.store.revisions| + 1
  {
    WorkingInRange(db);
    RecordKeepsChanges(db.store, Effect(db.rows, req).value.1, Working(db));
  }

  /** So deleting a step that a sibling depends on and aborting leaves that sibling
      without its dependency. */
  lemma AbortLeavesSiblingScrubbed(db: Db, c: nat, u: Id, v: Id, next: Db, after: Db)
    requires Synced(db) && FindOpen(db.cascades) == Some(c) && Working(db) == Some(BaseRevision(db))
    requires v in db.rows && DependsOnSibling(db.rows, v, u)
    requires Write(db, DeleteRequest(db.rows, Some(c), u)) == Accepted(next) && Inv(next)
    requires Abort(next) == Accepted(after)
    ensures Lookup(after.rows, v) == Some(Scrubbed(db.rows, v, u)) && after.rows != db.rows
  {
    var req := DeleteRequest(db.rows, Some(c), u);
    AcceptedHasEffect(db, req);
    DeleteInCascadeLeaves(db.rows, req, c, u, v);
    AbortKeepsUnrecorded(db, req, next, after, v);
  }

  lemma DeleteInCascadeLeaves(rows: Table, req: Request, c: nat, u: Id, v: Id)
    requires req == DeleteRequest(rows, Some(c), u) && Effect(rows, req).Some?
    requires v in rows && DependsOnSibling(rows, v, u)
    ensures v !in ChangedEntities(Effect(rows, req).value.1)
    ensures Lookup(Effect(rows, req).value.0, v) == Some(Scrubbed(rows, v, u))
    ensures Scrubbed(rows, v, u) != rows[v]
  {
    ScrubRewrites(rows, u);
    PerformOne(Perform(rows, Scrub(rows, u)).value.0, (u, None));
    assert Marks([]) == [];
    OneEditThenMarks(rows, req, (u, None), []);
  }

  // ----- small plans -----

  /** A plan whose rows were recorded in its first revision: rows[i] is entity i, version i. */
  function Seeded(rows: seq<Row>): Db {
    Db(map i: Id | 0 <= i < |rows| :: rows[i],
       Store(seq(|rows|, i requires 0 <= i < |rows| => NodeVersion(i, SnapshotOf(rows[i]))),
             [Revision(None, seq(|rows|, i => i))]),
       Some(0), map[], [], false, map[])
  }

  lemma SeededShows(rows: seq<Row>, s: Store, e: Id)
    requires s == Seeded(rows).store && Valid(s)
    ensures Shows(s, Some(0), e, Lookup(Seeded(rows).rows, e))
  {
    assert ValidRevision(s, 0);
    if e < |rows| {
      assert s.revisions[0].versions[e] == e;
      assert Touches(s, 0, e) == {e};
      assert RowOf(SnapshotOf(rows[e]).content) == Some(rows[e]);
    } else {
      assert Touches(s, 0, e) == {} && Candidates(s, None, e) == {};
    }
  }

  lemma SeededStore(rows: seq<Row>)
    ensures var s := Seeded(rows).store;
            Valid(s) && Clean(s) && AllKindsKnown(s.versions) && Agrees(s, Some(0), Seeded(rows).rows)
  {
    var s := Seeded(rows).store;
    assert ValidRevision(s, 0) && CleanRevision(s, 0);
    forall i | 0 <= i < |rows|
      ensures RowOf(s.versions[i].snapshot.content).Some?
    {
      assert RowOf(SnapshotOf(rows[i]).content) == Some(rows[i]);
    }
    forall e: Id
      ensures Shows(s, Some(0), e, Lookup(Seeded(rows).rows, e))
    {
      SeededShows(rows, s, e);
    }
  }

  lemma SeededIsSynced(rows: seq<Row>)
    requires UniqueKeys(Seeded(rows).rows)
    ensures Synced(Seeded(rows))
  {
    SeededStore(rows);
    assert FindOpen(Seeded(rows).cascades).None?;
  }

  /** The cascade opened on such a plan. */
  function Started(rows: seq<Row>): Db {
    Seeded(rows).(refs := map[CascadeRef(0) := 0], cascades := [Cascade(CascadeRef(0), 0, Open)])
  }

  lemma SeededOpens(rows: seq<Row>)
    requires UniqueKeys(Seeded(rows).rows) && !AllStepsFrozen(Seeded(rows).rows)
    ensures Begin(Seeded(rows), false) == Accepted(Started(rows))
    ensures Synced(Started(rows)) && FindOpen(Started(rows).cascades) == Some(0) && Working(Started(rows)) == Some(0)
  {
    SeededIsSynced(rows);
    BeginStaysSynced(Seeded(rows), false);
    FindOpenIs(Started(rows).cascades, 0);
  }

  /** The plan with one row, and the cascade opened on it. */
  function OneRow(row: Row): (db: Db)
    ensures db.rows == map[0 := row]
  {
    var db := Seeded([row]);
    assert db.rows == map[0 := row];
    db
  }

  function OneRowOpened(row: Row): (db: Db)
    ensures db.rows == map[0 := row]
  {
    var db := Started([row]);
    assert db.rows == map[0 := row];
    db
  }

  lemma OneRowIsSynced(row: Row)
    ensures Synced(OneRow(row))
  {
    SeededIsSynced([row]);
  }

  lemma OneRowOpens(row: Row)
    requires row.StepRow? ==> row.step.status != Frozen
    ensures Begin(OneRow(row), false) == Accepted(OneRowOpened(row))
    ensures Synced(OneRowOpened(row)) && FindOpen(OneRowOpened(row).cascades) == Some(0)
  {
    assert row.StepRow? ==> !AllStepsFrozen(OneRow(row).rows) by {
      assert 0 in OneRow(row).rows && OneRow(row).rows[0] == row;
    }
    SeededOpens([row]);
  }

  // ----- removing and adding one concept_id inside a cascade -----

  function C001(name: string): Row {
    ConceptRow(Concept("C-001", name, "d", [], []))
  }

  function Removal(): Request {
    MrsRequest(ConceptTarget, 0, (0, None), [])
  }

  function Addition(row: Row): Request {
    MrsRequest(ConceptTarget, 0, (1, Some(row)), [])
  }

  lemma MrsWithoutGlobals(db: Db, edit: Edit)
    requires Synced(db) && FindOpen(db.cascades) == Some(0)
    requires Perform(db.rows, [edit]).Some?
    ensures var req := MrsRequest(ConceptTarget, 0, edit, []);
            && Write(db, req).Accepted? && Synced(Write(db, req).db)
            && Write(db, req).db.rows == Perform(db.rows, [edit]).value.0
            && Write(db, req).db.cascades == db.cascades
            && Extends(db.store, Write(db, req).db.store)
  {
    var req := MrsRequest(ConceptTarget, 0, edit, []);
    assert Marks([]) == [];
    assert Perform(db.rows, []) == Some((db.rows, []));
    var edited := Perform(db.rows, [edit]).value.0;
    assert ApplyUpdates(edited, []) == Some((edited, []));
    assert Write(db, req).Accepted?;
    MrsRequestIsSound(db, ConceptTarget, 0, edit, []);
    SyncedExactly(db, WriteOp(req));
    WriteFacts(db, req, Write(db, req).db);
  }

  lemma RemovalGoesThrough(name: string)
    ensures var started := OneRowOpened(C001(name));
            Inv(started) && Write(started, Removal()).Accepted? && (
              var removed := Write(started, Removal()).db;
              && Synced(removed) && removed.rows == map[] && removed.cascades == started.cascades
              && Extends(started.store, removed.store))
  {
    OneRowOpens(C001(name));
    var started := OneRowOpened(C001(name));
    PerformOne(started.rows, (0, None));
    MrsWithoutGlobals(started, (0, None));
    assert started.rows - {0} == map[];
  }

  lemma AdditionGoesThrough(removed: Db, row: Row)
    requires Synced(removed) && FindOpen(removed.cascades) == Some(0) && removed.rows == map[]
    ensures Write(removed, Addition(row)).Accepted?
    ensures var added := Write(removed, Addition(row)).db;
            && Synced(added) && added.rows == map[1 := row] && added.cascades == removed.cascades
            && Extends(removed.store, added.store)
  {
    PerformOne(removed.rows, (1, Some(row)));
    MrsWithoutGlobals(removed, (1, Some(row)));
    assert removed.rows[1 := row] == map[1 := row];
  }

  /** Remove concept C-001 and add a new concept of the same id in one cascade: the
      abort of that cascade fails. */
  lemma ReAddedConceptBlocksAbort(name: string, other: string)
    ensures var started := OneRowOpened(C001(name));
            Inv(started) && Write(started, Removal()).Accepted? && (
              var removed := Write(started, Removal()).db;
              Inv(removed) && Write(removed, Addition(C001(other))).Accepted? && (
                var added := Write(removed, Addition(C001(other))).db;
                Inv(added) && Abort(added) == Refused(UniqueViolation)))
  {
    RemovalGoesThrough(name);
    OneRowOpens(C001(name));
    var removed := Write(OneRowOpened(C001(name)), Removal()).db;
    AdditionGoesThrough(removed, C001(other));
    SameKeyBlocks(OneRow(C001(name)), Write(removed, Addition(C001(other))).db, name, other);
  }

  lemma SameKeyBlocks(before: Db, added: Db, name: string, other: string)
    requires before == OneRow(C001(name)) && Synced(added) && FindOpen(added.cascades) == Some(0)
    requires BaseRevision(added) == 0 && added.rows == map[1 := C001(other)] && Extends(before.store, added.store)
    ensures Abort(added) == Refused(UniqueViolation)
  {
    OneRowIsSynced(C001(name));
    HistoryImmutable(before.store, added.store, Some(0));
    ReusedKeyBlocksAbort(added, before.rows, 0, 1);
  }

  lemma OneOp(db: Db, op: Op)
    requires Inv(db)
    ensures Run(db, [op]) == Apply(db, op) && (SoundRun(db, [op]) <==> Sound(db, op))
  {
    assert [op][..0] == [];
    assert Run(db, []) == db && SoundRun(db, []);
  }

  lemma RemovalRuns(started: Db, row: Row, op: Op)
    requires Synced(started) && FindOpen(started.cascades) == Some(0) && started.rows == map[0 := row]
    requires op == WriteOp(Removal())
    ensures SoundRun(started, [op]) && Synced(Run(started, [op]))
    ensures Run(started, [op]).rows == map[] && Run(started, [op]).cascades == started.cascades
    ensures Extends(started.store, Run(started, [op]).store)
  {
    PerformOne(started.rows, (0, None));
    MrsWithoutGlobals(started, (0, None));
    assert started.rows - {0} == map[];
    OneOp(started, op);
    SyncedExactly(started, op);
  }

  lemma EmptiedAborts(before: Db, removed: Db, row: Row)
    requires Synced(before) && before.head == Some(0) && FindOpen(before.cascades).None?
    requires before.rows == map[0 := row] && Synced(removed) && FindOpen(removed.cascades) == Some(0)
    requires BaseRevision(removed) == 0 && removed.rows == map[] && Extends(before.store, removed.store)
    ensures Abort(removed).Accepted?
  {
    HistoryImmutable(before.store, removed.store, Some(0));
    AbortGetsThroughIff(removed, before.rows);
  }

  /** The premises and the conclusion of the undo theorem, for one run. */
  ghost predicate UndoneRun(before: Db, started: Db, ops: seq<Op>) {
    && Synced(before) && Begin(before, false) == Accepted(started) && Inv(started)
    && AllInside(ops) && SoundRun(started, ops)
    && Abort(Run(started, ops)).Accepted? && Undone(before, Abort(Run(started, ops)).db)
  }

  lemma PremisesSuffice(before: Db, started: Db, ops: seq<Op>)
    requires Synced(before) && Begin(before, false) == Accepted(started) && Inv(started)
    requires AllInside(ops) && SoundRun(started, ops) && Abort(Run(started, ops)).Accepted?
    ensures UndoneRun(before, started, ops)
  {
    AbortUndoesEverything(before, false, started, ops, Abort(Run(started, ops)).db);
  }

  lemma RemovalStarts(before: Db, started: Db)
    requires Synced(before) && before.head == Some(0) && before.cascades == []
    requires Begin(before, false) == Accepted(started)
    ensures Synced(started) && FindOpen(started.cascades) == Some(0) && started.cascades[0].base == 0
    ensures started.rows == before.rows && started.store == before.store && FindOpen(before.cascades).None?
  {
    BeginStaysSynced(before, false);
  }

  lemma EmptiedRunAborts(before: Db, started: Db, row: Row, ops: seq<Op>)
    requires Synced(before) && before.head == Some(0) && before.cascades == [] && before.rows == map[0 := row]
    requires Begin(before, false) == Accepted(started) && ops == [WriteOp(Removal())]
    ensures Inv(started) && AllInside(ops) && SoundRun(started, ops) && Run(started, ops).rows == map[]
    ensures Abort(Run(started, ops)).Accepted?
  {
    RemovalStarts(before, started);
    RemovalRuns(started, row, WriteOp(Removal()));
    EmptiedAborts(before, Run(started, ops), row);
  }

  /** The same without the addition goes as promised: begin, remove C-001, abort, and the
      concept is back. */
  lemma RemovalIsUndone(name: string)
    ensures var started, ops := OneRowOpened(C001(name)), [WriteOp(Removal())];
            Inv(started) && UndoneRun(OneRow(C001(name)), started, ops) && Run(started, ops).rows == map[]
  {
    OneRowIsSynced(C001(name));
    OneRowOpens(C001(name));
    EmptiedRunAborts(OneRow(C001(name)), OneRowOpened(C001(name)), C001(name), [WriteOp(Removal())]);
    PremisesSuffice(OneRow(C001(name)), OneRowOpened(C001(name)), [WriteOp(Removal())]);
  }

  // ----- a step transition without a cascade, while one is open -----

  function Ready(): Request {
    Request(None, StepTarget(Some(0)), false, [],
            [(0, Some(StepRow(DRAFT_STEP.(status := ReadyForReview))))], [], None, true)
  }

  /** Open a cascade, transition a draft step without naming it, commit the cascade: the
      transition is no longer in the history of head, while its row still shows it. */
  lemma DirectTransitionIsLost()
    ensures var started := OneRowOpened(StepRow(DRAFT_STEP));
            Inv(started) && !Admits(started, StepTarget(Some(0)), None) && Write(started, Ready()).Accepted? && (
              var moved := Write(started, Ready()).db;
              Inv(moved) && moved.head == Some(1) && Commit(moved, true).Accepted? && (
                var after := Commit(moved, true).db;
                after.head == Some(0) && Inv(after) && !Agrees(after.store, Working(after), after.rows)))
  {
    OneRowOpens(StepRow(DRAFT_STEP));
    var started := OneRowOpened(StepRow(DRAFT_STEP));
    var ready := StepRow(DRAFT_STEP.(status := ReadyForReview));
    assert !Clashes(started.rows, 0, ready);
    PerformOne(started.rows, (0, Some(ready)));
    assert Perform(started.rows, []) == Some((started.rows, []));
    assert Effect(started.rows, Ready()) == Some((started.rows[0 := ready], [(0, SnapshotOf(ready))]));
    assert Write(started, Ready()).Accepted?;
    var moved := Write(started, Ready()).db;
    WriteOnHeadKeepsInv(started, Ready());
    GreenCommitRefusedIff(moved);
    var after := Commit(moved, true).db;
    CommitKeepsInv(moved, true);
    CommitAllOrNothing(moved, true);
    WriteOnHeadStore(started, Ready(), moved);
    HistoryImmutable(started.store, after.store, Some(0));
    assert Lookup(after.rows, 0) != Lookup(started.rows, 0);
    if Agrees(after.store, Some(0), after.rows) {
      AgreesUnique(started.store, Some(0), after.rows, started.rows);
    }
  }

  lemma WriteOnHeadStore(db: Db, req: Request, next: Db)
    requires Inv(db) && req.cascade.None? && Write(db, req) == Accepted(next)
    ensures Effect(db.rows, req).Some? && next.rows == Effect(db.rows, req).value.0
    ensures Valid(next.store) && Extends(db.store, next.store) && next.head == Some(|db.store.revisions|)
    ensures next.cascades == db.cascades && next.refs == db.refs
  {
    RecordKeepsChanges(db.store, Effect(db.rows, req).value.1, db.head);
  }

  // ----- deleting a step inside a cascade, and aborting -----

  const FIRST := Step(None, 3, "G-001", "a", "{}", [], [], None, Draft)
  const SECOND := Step(None, 3, "G-002", "b", "{}", ["G-001"], [], None, Draft)

  /** Two global steps, the second depending on the first, and a cascade just opened. */
  function TwoSteps(): (db: Db)
    ensures db.rows == map[0 := StepRow(FIRST), 1 := StepRow(SECOND)]
  {
    var db := Started([StepRow(FIRST), StepRow(SECOND)]);
    assert db.rows == map[0 := StepRow(FIRST), 1 := StepRow(SECOND)];
    db
  }

  lemma TwoStepsAgree(s: Store, rows: Table)
    requires s == TwoSteps().store && rows == TwoSteps().rows
    ensures Valid(s) && Clean(s) && Agrees(s, Some(0), rows)
  {
    SeededStore([StepRow(FIRST), StepRow(SECOND)]);
  }

  lemma TwoStepsAreSynced()
    ensures Synced(TwoSteps()) && FindOpen(TwoSteps().cascades) == Some(0)
    ensures DependsOnSibling(TwoSteps().rows, 1, 0)
  {
    assert FIRST.stepId != SECOND.stepId;
    assert "G-001" in SECOND.dependsOn by { assert SECOND.dependsOn[0] == "G-001"; }
    assert !AllStepsFrozen(TwoSteps().rows) by {
      assert 0 in TwoSteps().rows && TwoSteps().rows[0].step.status == Draft;
    }
    SeededOpens([StepRow(FIRST), StepRow(SECOND)]);
  }

  function DeleteFirst(): Request {
    DeleteRequest(TwoSteps().rows, Some(0), 0)
  }

  lemma DeleteFirstEffect(rows: Table)
    requires rows == TwoSteps().rows && DependsOnSibling(rows, 1, 0)
    ensures Effect(rows, DeleteFirst()) == Some((map[1 := Scrubbed(rows, 1, 0)], [(0, Tombstone(rows[0]))]))
  {
    var scrubbed := Scrubbed(rows, 1, 0);
    ScrubOfFirst(rows);
    assert FIRST.stepId != SECOND.stepId;
    PerformOne(rows, (1, Some(scrubbed)));
    var quiet := rows[1 := scrubbed];
    PerformOne(quiet, (0, None));
    var edited := quiet - {0};
    assert edited == map[1 := scrubbed];
    assert ApplyUpdates(edited, []) == Some((edited, []));
    var changes := [(0, Tombstone(rows[0]))];
    assert Perform(quiet, DeleteFirst().edits) == Some((edited, changes));
    assert changes + [] == changes;
  }

  lemma ScrubOfFirst(rows: Table)
    requires rows == TwoSteps().rows && DependsOnSibling(rows, 1, 0)
    ensures Scrub(rows, 0) == [(1, Some(Scrubbed(rows, 1, 0)))]
  {
    var dependents := set v | v in rows && DependsOnSibling(rows, v, 0);
    assert dependents == {1};
    AscendingIsSorted([1], dependents);
  }

  lemma ScrubbingDeleteIsAccepted(db: Db, req: Request, after: Table)
    requires Inv(db) && FindOpen(db.cascades) == Some(0) && req == DeleteRequest(db.rows, Some(0), 0)
    requires Effect(db.rows, req).Some? && after == Effect(db.rows, req).value.0
    ensures Write(db, req).Accepted? && Inv(Write(db, req).db)
    ensures FindOpen(Write(db, req).db.cascades) == Some(0) && Write(db, req).db.rows == after
  {
    WriteInCascadeKeepsInv(db, req);
  }

  lemma DeleteFirstGoesThrough()
    ensures Inv(TwoSteps()) && Write(TwoSteps(), DeleteFirst()).Accepted?
    ensures var next := Write(TwoSteps(), DeleteFirst()).db;
            Inv(next) && FindOpen(next.cascades) == Some(0) && next.rows.Keys == {1}
            && next.rows[1] == Scrubbed(TwoSteps().rows, 1, 0)
  {
    TwoStepsAreSynced();
    DeleteFirstEffect(TwoSteps().rows);
    ScrubbingDeleteIsAccepted(TwoSteps(), DeleteFirst(), map[1 := Scrubbed(TwoSteps().rows, 1, 0)]);
  }

  lemma OnlyFirstComesBack(s: Store, base: map<Id, nat>, tip: map<Id, nat>, first: Row, second: Row, n: Id)
    requires Loadable(s, base) && FullReset(s, base) == map[0 := first, 1 := second] && Get(base, 1) == Get(tip, 1)
    requires var d := DiffOf(base, tip); n in d.changed + d.removed
    ensures n == 0 && n in Contents(s, base) && TargetRow(Contents(s, base), n) == first
  {
    DiffLists(base, tip);
    assert base.Keys == FullReset(s, base).Keys;
    assert FullReset(s, base)[0] == first;
  }

  lemma OtherKeyDoesNotBlock(rows: Table, nodes: seq<Id>, target: map<Id, Snapshot>, first: Row)
    requires Restorable(nodes, target)
    requires forall n | n in nodes :: TargetRow(target, n) == first
    requires forall m | m in rows :: KeyOf(rows[m]) != KeyOf(first)
    ensures !Blocked(rows, nodes, target)
  {
    assert forall i | 0 <= i < |nodes| :: nodes[i] in nodes;
  }

  lemma NothingBlocksFirst(s: Store, rows: Table, base: map<Id, nat>, tip: map<Id, nat>, first: Row, second: Row)
    requires rows.Keys == {1} && KeyOf(rows[1]) == KeyOf(second) && KeyOf(first) != KeyOf(second)
    requires Loadable(s, base) && FullReset(s, base) == map[0 := first, 1 := second] && Get(base, 1) == Get(tip, 1)
    ensures RestoreRows(s, rows, base, tip).Some?
  {
    var d := DiffOf(base, tip);
    var nodes, target := d.changed + d.removed, Contents(s, base);
    forall n | n in nodes
      ensures n in target && TargetRow(target, n) == first
    {
      OnlyFirstComesBack(s, base, tip, first, second, n);
    }
    OtherKeyDoesNotBlock(rows, nodes, target, first);
    DiffLists(base, tip);
    RestorePointwise(s, rows, base, tip, nodes, d.added);
  }

  lemma DeleteFirstAborts(next: Db)
    requires Inv(TwoSteps()) && Write(TwoSteps(), DeleteFirst()) == Accepted(next) && Inv(next)
    requires FindOpen(next.cascades) == Some(0) && next.rows.Keys == {1}
    requires DependsOnSibling(TwoSteps().rows, 1, 0) && next.rows[1] == Scrubbed(TwoSteps().rows, 1, 0)
    ensures Abort(next).Accepted?
  {
    var db := TwoSteps();
    TwoStepsAreSynced();
    DeleteFirstEffect(db.rows);
    WriteFacts(db, DeleteFirst(), next);
    var base, tip := StateOf(next.store, 0), StateOf(next.store, 1);
    UntouchedAfterRecord(db.store, [(0, Tombstone(db.rows[0]))], Some(0), 1);
    SamePick(db.store, next.store, 0, 1, base, tip, 1);
    TwoStepsAgree(db.store, db.rows);
    HistoryImmutable(db.store, next.store, Some(0));
    AgreesIffEveryStateMaterialises(next.store, Some(0), db.rows);
    MaterialisedIsReset(next.store, base, db.rows);
    assert FIRST.stepId != SECOND.stepId;
    NothingBlocksFirst(next.store, next.rows, base, tip, StepRow(FIRST), StepRow(SECOND));
  }

  /** Delete the first step in the cascade, abort: both writes are accepted, and the
      second step has lost its dependency for good. */
  lemma DependencyIsLost()
    ensures Synced(TwoSteps()) && DependsOnSibling(TwoSteps().rows, 1, 0)
    ensures Write(TwoSteps(), DeleteFirst()).Accepted? && (
              var next := Write(TwoSteps(), DeleteFirst()).db;
              Inv(next) && Abort(next).Accepted? && (
                var after := Abort(next).db;
                after.rows != TwoSteps().rows && Lookup(after.rows, 1) == Some(Scrubbed(TwoSteps().rows, 1, 0))))
  {
    TwoStepsAreSynced();
    DeleteFirstGoesThrough();
    var next := Write(TwoSteps(), DeleteFirst()).db;
    DeleteFirstAborts(next);
    AbortLeavesSiblingScrubbed(TwoSteps(), 0, 0, 1, next, Abort(next).db);
  }
}
