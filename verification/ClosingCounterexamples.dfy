/** Runs on which closing a cascade falls short: plan.status after an abort, and context
    blocks across a commit of nothing. */
module ClosingCounterexamples {
  import opened Rows
  import opened VersionStore
  import opened Restore
  import opened StepTree
  import opened Propagation
  import opened Protocol
  import opened WriteSoundness
  import opened Runs
  import opened CascadeLaws
  import opened Commands
  import opened Counterexamples

  // ----- plan.status outlives the abort -----

  const READY := Step(None, 3, "G-001", "g", "{}", [], [], None, ReadyForReview)

  function FrozenRow(): Row {
    StepRow(READY.(status := Frozen))
  }

  /** step_transition of step 0, inside cascade 0. */
  function Transition(row: Row): Request {
    Request(Some(0), StepTarget(Some(0)), true, [], [(0, Some(row))], [], None, true)
  }

  function Freeze(): Request {
    Transition(FrozenRow())
  }

  lemma TransitionEffect(rows: Table, row: Row)
    requires !Clashes(rows, 0, row)
    ensures Effect(rows, Transition(row)) == Some((rows[0 := row], [(0, SnapshotOf(row))]))
  {
    PerformOne(rows, (0, Some(row)));
    assert Perform(rows, []) == Some((rows, []));
    var edited := rows[0 := row];
    assert ApplyUpdates(edited, []) == Some((edited, []));
    assert [(0, SnapshotOf(row))] + [] == [(0, SnapshotOf(row))];
  }

  lemma TransitionIsAccepted(db: Db, row: Row)
    requires Inv(db) && FindOpen(db.cascades) == Some(0) && !Clashes(db.rows, 0, row)
    ensures Write(db, Transition(row)).Accepted?
    ensures var next := Write(db, Transition(row)).db;
            && next.rows == db.rows[0 := row] && next.cascades == db.cascades
            && next.planFrozen == AllStepsFrozen(db.rows[0 := row])
  {
    TransitionEffect(db.rows, row);
  }

  lemma TransitionStaysSynced(db: Db, row: Row)
    requires Synced(db) && FindOpen(db.cascades) == Some(0) && !Clashes(db.rows, 0, row)
    requires Write(db, Transition(row)).Accepted?
    ensures Synced(Write(db, Transition(row)).db) && Extends(db.store, Write(db, Transition(row)).db.store)
  {
    TransitionEffect(db.rows, row);
    SilentFreeWriteIsSound(db, Transition(row));
    SyncedExactly(db, WriteOp(Transition(row)));
    WriteFacts(db, Transition(row), Write(db, Transition(row)).db);
  }

  lemma OneRowAborts(before: Db, db: Db)
    requires before.rows.Keys == {0} && Valid(before.store) && |before.store.revisions| > 0
    requires Agrees(before.store, Some(0), before.rows)
    requires Synced(db) && FindOpen(db.cascades) == Some(0) && BaseRevision(db) == 0
    requires db.rows.Keys == {0} && Extends(before.store, db.store)
    ensures Abort(db).Accepted? && Abort(db).db.rows == before.rows
  {
    HistoryImmutable(before.store, db.store, Some(0));
    AbortGetsThroughIff(db, before.rows);
    AbortReachesBase(db, before.rows);
  }

  lemma AbortKeepsStatus(db: Db)
    requires Inv(db) && Abort(db).Accepted? && db.planFrozen
    ensures Begin(Abort(db).db, false) == Refused(FrozenTruthRefusal)
  {
    ClosingClosesTheOne(db, true);
  }

  /** The write is accepted, and so is an abort after it; the rows are these again, but no
      cascade can be opened. */
  ghost predicate Locked(started: Db, req: Request, rows: Table) {
    Inv(started) && Write(started, req).Accepted? && (
      var next := Write(started, req).db;
      Inv(next) && Abort(next).Accepted?
      && Abort(next).db.rows == rows && Begin(Abort(next).db, false) == Refused(FrozenTruthRefusal))
  }

  lemma FrozenThenAborted(before: Db, started: Db, row: Row)
    requires before.rows.Keys == {0} && Valid(before.store) && |before.store.revisions| > 0
    requires Agrees(before.store, Some(0), before.rows) && Extends(before.store, started.store)
    requires Synced(started) && FindOpen(started.cascades) == Some(0) && BaseRevision(started) == 0
    requires started.rows == before.rows && row.StepRow? && row.step.status == Frozen
    ensures Locked(started, Transition(row), before.rows)
  {
    assert !Clashes(started.rows, 0, row);
    TransitionIsAccepted(started, row);
    TransitionStaysSynced(started, row);
    var next := Write(started, Transition(row)).db;
    assert 0 in next.rows && next.rows[0] == row;
    OneRowAborts(before, next);
    AbortKeepsStatus(next);
  }

  lemma StartedRow(row: Row)
    requires row.StepRow? ==> row.step.status != Frozen
    ensures var before, started := OneRow(row), OneRowOpened(row);
            && Valid(before.store) && |before.store.revisions| > 0 && Agrees(before.store, Some(0), before.rows)
            && Synced(started) && FindOpen(started.cascades) == Some(0) && BaseRevision(started) == 0
            && started.store == before.store && Begin(before, false) == Accepted(started)
  {
    OneRowOpens(row);
    SeededStore([row]);
  }

  lemma FrozenRowOutlivesAbort(row: Row, frozen: Row)
    requires row.StepRow? && row.step.status != Frozen && frozen.StepRow? && frozen.step.status == Frozen
    ensures Begin(OneRow(row), false) == Accepted(OneRowOpened(row))
    ensures Locked(OneRowOpened(row), Transition(frozen), map[0 := row])
  {
    StartedRow(row);
    FrozenThenAborted(OneRow(row), OneRowOpened(row), frozen);
  }

  /** Freeze every step inside a cascade and abort: the steps are thawed again, and no
      cascade can be opened on the plan, because plan.status still says frozen. */
  lemma StatusOutlivesAbort()
    ensures Begin(OneRow(StepRow(READY)), false) == Accepted(OneRowOpened(StepRow(READY)))
    ensures Locked(OneRowOpened(StepRow(READY)), Freeze(), map[0 := StepRow(READY)])
  {
    FrozenRowOutlivesAbort(StepRow(READY), FrozenRow());
  }

  // ----- context blocks and a cascade that wrote nothing -----

  /** What is compiled, before it is tagged. */
  const COMPILED := Block(None, None, "plan", {}, "common, level 3")

  lemma StartedPlan(db: Db)
    requires db == OneRowOpened(C001("c"))
    ensures Inv(db) && FindOpen(db.cascades) == Some(0) && Working(db) == Some(0) && db.head == Some(0)
    ensures db.blocks == map[] && db.cascades[0] == Cascade(CascadeRef(0), 0, Open)
  {
    OneRowOpens(C001("c"));
  }

  /** A block stored in the working pair, or at head, of a plan whose cascade wrote nothing. */
  lemma StoredBlock(db: Db, id: Id, under: bool)
    requires Inv(db) && FindOpen(db.cascades) == Some(0) && Working(db) == Some(0) && db.head == Some(0)
    requires id !in db.blocks
    requires var cascade := if under then Some(0) else None;
             forall b | b in db.blocks :: db.blocks[b].cascade != cascade
    ensures var after := StoreBlock(db, id, COMPILED, under);
            && Inv(after)
            && after == db.(blocks := db.blocks[id := COMPILED.(revision := Some(0),
                                                                cascade := if under then Some(0) else None)])
  {
    StoreBlockKeepsInv(db, id, COMPILED, under);
  }

  /** A cascade without a write, and one block stored under it and at head: the green
      commit is refused. */
  lemma EmptyCommitIsRefused()
    ensures var one := StoreBlock(OneRowOpened(C001("c")), 0, COMPILED, true);
            var both := StoreBlock(one, 1, COMPILED, false);
            Inv(both) && Commit(both, true) == Refused(UniqueViolation)
  {
    var started := OneRowOpened(C001("c"));
    StartedPlan(started);
    StoredBlock(started, 0, true);
    var one := StoreBlock(started, 0, COMPILED, true);
    assert Working(one) == Some(0);
    StoredBlock(one, 1, false);
    DoubleRefusesCommit(StoreBlock(one, 1, COMPILED, false), 0, 1);
  }

  lemma DoubleRefusesCommit(db: Db, a: Id, b: Id)
    requires Inv(db) && FindOpen(db.cascades) == Some(0) && Working(db).Some?
    requires a in db.blocks && b in db.blocks && Collides(db.blocks[a], db.blocks[b], Working(db).value, 0)
    ensures Commit(db, true) == Refused(UniqueViolation)
  {
    GreenCommitRefusedIff(db);
    ReferencesFollowCascades(db);
  }

  /** A block compiled at head while the cascade is open is stale; committing the cascade
      that wrote nothing makes it current. */
  lemma EmptyCommitRevivesBlock()
    ensures var db := StoreBlock(OneRowOpened(C001("c")), 1, COMPILED, false);
            Inv(db) && !Current(db, 1) && Commit(db, true).Accepted? && Current(Commit(db, true).db, 1)
  {
    var started := OneRowOpened(C001("c"));
    StartedPlan(started);
    StoredBlock(started, 1, false);
    var db := StoreBlock(started, 1, COMPILED, false);
    assert Working(db) == Some(0);
    HeadBlockRevives(db, 1);
  }

  lemma HeadBlockRevives(db: Db, b: Id)
    requires Inv(db) && FindOpen(db.cascades) == Some(0) && Working(db).Some?
    requires db.blocks.Keys == {b} && TaggedAsHead(db.blocks[b], Working(db).value)
    ensures !Current(db, b) && Commit(db, true).Accepted? && Current(Commit(db, true).db, b)
  {
    GreenCommitRefusedIff(db);
    CommitAllOrNothing(db, true);
  }
}
