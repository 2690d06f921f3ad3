/** Runs on which step_delete, step_move and step_create do what no history shows or no
    loop survives. */
module TreeCounterexamples {
  import opened Rows
  import opened VersionStore
  import opened Restore
  import opened StepTree
  import opened Regime
  import opened TreeShape
  import opened Propagation
  import opened Protocol
  import opened WriteSoundness
  import opened Runs
  import opened Commands
  import opened DirectCommands
  import opened Counterexamples

  // ----- plans without frozen steps -----

  /** Every step of these is of level 3 and has no parent. */
  predicate Flat(nodes: Nodes) {
    forall x | x in nodes :: nodes[x].parent.None? && nodes[x].level == 3
  }

  lemma FlatIsMutable(nodes: Nodes, u: Id)
    requires Flat(nodes) && u in nodes && DirectStatus(nodes[u].status)
    ensures DirectlyMutable(nodes, u) && PathsResolve(nodes, u)
  {
    forall x: Id
      ensures !StrictlyAbove(nodes, u, x) && !StrictlyAbove(nodes, x, u)
    {
      AboveUnfold(nodes, u, x);
      AboveUnfold(nodes, x, u);
    }
  }

  // ----- a frozen sibling of a deleted step -----

  /** SECOND, frozen. */
  function FrozenSecond(): Row {
    StepRow(SECOND.(status := Frozen))
  }

  /** A draft step, and a frozen one beside it that depends on it; no cascade is open. */
  function FrozenSibling(): (db: Db)
    ensures db.rows == map[0 := StepRow(FIRST), 1 := FrozenSecond()]
  {
    var db := Seeded([StepRow(FIRST), FrozenSecond()]);
    assert db.rows == map[0 := StepRow(FIRST), 1 := FrozenSecond()];
    db
  }

  lemma FrozenSiblingFacts()
    ensures Synced(FrozenSibling()) && FindOpen(FrozenSibling().cascades).None?
    ensures DependsOnSibling(FrozenSibling().rows, 1, 0)
    ensures Admits(FrozenSibling(), StepTarget(Some(0)), None)
  {
    assert FIRST.stepId != SECOND.stepId;
    assert "G-001" in SECOND.dependsOn by { assert SECOND.dependsOn[0] == "G-001"; }
    SeededIsSynced([StepRow(FIRST), FrozenSecond()]);
    FlatIsMutable(Steps(FrozenSibling().rows), 0);
  }

  lemma ScrubOne(rows: Table, u: Id, v: Id)
    requires v in rows && DependsOnSibling(rows, v, u)
    requires forall x | x in rows && x != v :: !DependsOnSibling(rows, x, u)
    ensures Scrub(rows, u) == [(v, Some(Scrubbed(rows, v, u)))]
  {
    var dependents := set x | x in rows && DependsOnSibling(rows, x, u);
    assert dependents == {v};
    AscendingIsSorted([v], dependents);
  }

  lemma ScrubbedClashesNot(rows: Table, u: Id, v: Id)
    requires UniqueKeys(rows) && v in rows && DependsOnSibling(rows, v, u)
    ensures !Clashes(rows, v, Scrubbed(rows, v, u))
  {
    assert !Clashes(rows, v, rows[v]) && KeyOf(Scrubbed(rows, v, u)) == KeyOf(rows[v]);
  }

  lemma DirectDeleteEffect(rows: Table)
    requires rows == FrozenSibling().rows && UniqueKeys(rows) && DependsOnSibling(rows, 1, 0)
    ensures Effect(rows, DeleteRequest(rows, None, 0)).Some?
  {
    ScrubOne(rows, 0, 1);
    ScrubbedClashesNot(rows, 0, 1);
    PerformOne(rows, (1, Some(Scrubbed(rows, 1, 0))));
    PerformOne(rows[1 := Scrubbed(rows, 1, 0)], (0, None));
  }

  /** Deleting the draft step directly is accepted and rewrites the frozen step. */
  lemma FrozenSiblingIsRewritten()
    ensures var db := FrozenSibling();
            var req := DeleteRequest(db.rows, None, 0);
            Inv(db) && FrozenAt(Steps(db.rows), 1) && Write(db, req).Accepted?
            && Lookup(Write(db, req).db.rows, 1) == Some(Scrubbed(db.rows, 1, 0))
            && Lookup(Write(db, req).db.rows, 1) != Lookup(db.rows, 1)
  {
    FrozenSiblingFacts();
    var db := FrozenSibling();
    DirectDeleteEffect(db.rows);
    var req := DeleteRequest(db.rows, None, 0);
    assert Write(db, req).Accepted?;
    AcceptedHasEffect(db, req);
    ScrubbingLeaves(db.rows, req, 0, 1);
  }

  // ----- a sibling of a moved step -----

  const GLOBAL_A := Step(None, 3, "G-001", "a", "{}", [], [], None, Draft)
  const GLOBAL_B := Step(None, 3, "G-002", "b", "{}", [], [], None, Draft)
  const TACTICAL_A := Step(Some(0), 4, "T-001", "a", "{}", [], [], None, Draft)
  const TACTICAL_B := Step(Some(0), 4, "T-002", "b", "{}", ["T-001"], [], None, Draft)

  function FourRows(): seq<Row> {
    [StepRow(GLOBAL_A), StepRow(GLOBAL_B), StepRow(TACTICAL_A), StepRow(TACTICAL_B)]
  }

  /** Two global steps; the second tactical step of the first depends on the first one. A
      cascade was just opened. */
  function FourSteps(): (db: Db)
    ensures db.rows == map[0 := StepRow(GLOBAL_A), 1 := StepRow(GLOBAL_B), 2 := StepRow(TACTICAL_A),
                           3 := StepRow(TACTICAL_B)]
  {
    var db := Started(FourRows());
    assert db.rows == map[0 := StepRow(GLOBAL_A), 1 := StepRow(GLOBAL_B), 2 := StepRow(TACTICAL_A),
                          3 := StepRow(TACTICAL_B)];
    db
  }

  lemma FourKeys(rows: Table)
    requires rows == FourSteps().rows
    ensures UniqueKeys(rows)
  {
    assert GLOBAL_A.stepId != GLOBAL_B.stepId && TACTICAL_A.stepId != TACTICAL_B.stepId;
    assert KeyOf(rows[0]) != KeyOf(rows[1]) && KeyOf(rows[2]) != KeyOf(rows[3]);
    assert forall m, n | m in {0, 1} && n in {2, 3} :: KeyOf(rows[m]) != KeyOf(rows[n]);
  }

  lemma FourDepend(rows: Table)
    requires rows == FourSteps().rows
    ensures DependsOnSibling(rows, 3, 2) && forall x | x in rows && x != 3 :: !DependsOnSibling(rows, x, 2)
  {
    assert "T-001" in TACTICAL_B.dependsOn by { assert TACTICAL_B.dependsOn[0] == "T-001"; }
  }

  lemma FourStepsFacts()
    ensures Synced(FourSteps()) && FindOpen(FourSteps().cascades) == Some(0)
  {
    FourKeys(FourSteps().rows);
    assert !AllStepsFrozen(FourSteps().rows) by {
      assert 0 in FourSteps().rows && FourSteps().rows[0].step.status == Draft;
    }
    SeededOpens(FourRows());
  }

  /** step_move of the first tactical step below the second global one. */
  function MoveFirst(): Request {
    MoveRequest(FourSteps().rows, Some(0), 2, Some(1), "T-001", [])
  }

  lemma MoveFirstEffect(rows: Table)
    requires rows == FourSteps().rows && UniqueKeys(rows)
    requires DependsOnSibling(rows, 3, 2)
    requires forall x | x in rows && x != 3 :: !DependsOnSibling(rows, x, 2)
    ensures Perform(rows, MoveFirst().silent).Some?
    ensures Perform(rows, MoveFirst().silent).value.0 == rows[3 := Scrubbed(rows, 3, 2)]
    ensures Effect(rows, MoveFirst()).Some?
  {
    ScrubOne(rows, 2, 3);
    ScrubbedClashesNot(rows, 2, 3);
    PerformOne(rows, (3, Some(Scrubbed(rows, 3, 2))));
    var quiet := rows[3 := Scrubbed(rows, 3, 2)];
    var moved := StepRow(Moved(TACTICAL_A, Some(1), "T-001"));
    assert !Clashes(quiet, 2, moved);
    PerformOne(quiet, (2, Some(moved)));
    assert MoveFirst().updates == [];
    assert ApplyUpdates(quiet[2 := moved], []) == Some((quiet[2 := moved], []));
  }

  /** With nothing below it, the invalidation of a step marks nothing. */
  lemma NothingBelow(nodes: Nodes, u: Id)
    requires forall x | x in nodes :: nodes[x].parent != Some(u)
    ensures Returned(nodes, u, [])
  {
    forall x: Id
      ensures !StrictlyAbove(nodes, u, x)
    {
      if k: nat :| k >= 1 && Up(nodes, x, k) == Some(u) {
        UpDefinedBelow(nodes, x, k - 1, k);
        UpSplit(nodes, x, k - 1, 1);
      }
    }
  }

  lemma MovedIsMarkless(rows: Table)
    requires rows == FourSteps().rows && Perform(rows, MoveFirst().silent).Some?
    requires Perform(rows, MoveFirst().silent).value.0 == rows[3 := Scrubbed(rows, 3, 2)]
    ensures MarksBelow(rows, MoveFirst(), 2, [])
  {
    NothingBelow(Steps(Edited(rows, MoveFirst(), 2)), 2);
  }

  /** An accepted move that marks nothing scrubs the siblings it leaves behind, and leaves
      rows and history apart. */
  lemma MarklessMoveLoses(db: Db, c: nat, u: Id, p: Id, newId: string, v: Id)
    requires Synced(db) && u in db.rows && db.rows[u].StepRow? && Some(p) != db.rows[u].step.parent
    requires v in db.rows && DependsOnSibling(db.rows, v, u)
    requires var req := MoveRequest(db.rows, Some(c), u, Some(p), newId, []);
             Write(db, req).Accepted? && MarksBelow(db.rows, req, u, [])
    ensures var next := Write(db, MoveRequest(db.rows, Some(c), u, Some(p), newId, [])).db;
            && Lookup(next.rows, v) == Some(Scrubbed(db.rows, v, u)) && Lookup(next.rows, v) != Lookup(db.rows, v)
            && !Synced(next)
  {
    var req := MoveRequest(db.rows, Some(c), u, Some(p), newId, []);
    AcceptedHasEffect(db, req);
    MarklessEffect(db.rows, req, u, v);
    MoveIsSoundIff(db, Some(c), u, Some(p), newId, [], req);
    SyncedExactly(db, WriteOp(req));
  }

  lemma MarklessEffect(rows: Table, req: Request, u: Id, v: Id)
    requires MarksBelow(rows, req, u, []) && Effect(rows, req).Some? && req.silent == Scrub(rows, u)
    requires v in rows && DependsOnSibling(rows, v, u)
    ensures Lookup(Effect(rows, req).value.0, v) == Some(Scrubbed(rows, v, u))
    ensures Lookup(Effect(rows, req).value.0, v) != Lookup(rows, v)
  {
    MarksBelowFacts(rows, req, u, []);
    ScrubRewrites(rows, u);
  }

  lemma MoveIsAccepted(db: Db)
    requires db == FourSteps() && Inv(db) && FindOpen(db.cascades) == Some(0) && Effect(db.rows, MoveFirst()).Some?
    ensures Write(db, MoveFirst()).Accepted?
  {
  }

  lemma MoveFirstIsReady(db: Db)
    requires db == FourSteps() && Inv(db) && FindOpen(db.cascades) == Some(0)
    ensures DependsOnSibling(db.rows, 3, 2) && Write(db, MoveFirst()).Accepted?
    ensures MarksBelow(db.rows, MoveFirst(), 2, [])
  {
    FourDepend(db.rows);
    MoveFirstEffect(db.rows);
    MovedIsMarkless(db.rows);
    MoveIsAccepted(db);
  }

  /** Moving the first tactical step is accepted; the one left behind loses its dependency,
      and the history does not know. */
  lemma MoveLosesDependency()
    ensures Synced(FourSteps()) && Write(FourSteps(), MoveFirst()).Accepted? && (
              var next := Write(FourSteps(), MoveFirst()).db;
              Lookup(next.rows, 3) == Some(Scrubbed(FourSteps().rows, 3, 2))
              && Lookup(next.rows, 3) != Lookup(FourSteps().rows, 3) && !Synced(next))
  {
    FourStepsFacts();
    MoveFirstIsReady(FourSteps());
    MarklessMoveLoses(FourSteps(), 0, 2, 1, "T-001", 3);
  }

  lemma MoveFirstPassesChecks()
    ensures MayMove(Steps(FourSteps().rows), 2, 1)
  {
  }

  // ----- a cycle of two accepted commands -----

  const TACTICAL := Step(Some(0), 4, "T-001", "t", "{}", [], [], None, Draft)
  const ATOMIC := Step(Some(1), 5, "A-001", "a", "{}", [], [], None, Draft)
  const MISPLACED := Step(Some(2), 4, "T-001", "m", "{}", [], [], None, Draft)

  /** One branch: a global, a tactical and an atomic step; no cascade is open. */
  function Branch(): (db: Db)
    ensures db.rows == map[0 := StepRow(GLOBAL_A), 1 := StepRow(TACTICAL), 2 := StepRow(ATOMIC)]
  {
    var db := Seeded([StepRow(GLOBAL_A), StepRow(TACTICAL), StepRow(ATOMIC)]);
    assert db.rows == map[0 := StepRow(GLOBAL_A), 1 := StepRow(TACTICAL), 2 := StepRow(ATOMIC)];
    db
  }

  /** In a plan without frozen steps whose paths all resolve, every draft may be edited
      directly. */
  lemma UnfrozenIsMutable(nodes: Nodes, u: Id)
    requires u in nodes && nodes[u].status == Draft
    requires forall x | x in nodes :: nodes[x].status != Frozen && TieBreak(nodes, x).Some?
    ensures DirectlyMutable(nodes, u) && PathsResolve(nodes, u)
  {
  }

  lemma SilentFreeEffect(rows: Table, req: Request, u: Id, row: Row)
    requires req.cascade.None? && req.silent == [] && req.edits == [(u, Some(row))] && !Clashes(rows, u, row)
    ensures Effect(rows, req) == Some((rows[u := row], [(u, SnapshotOf(row))]))
  {
    PerformOne(rows, (u, Some(row)));
    assert Perform(rows, []) == Some((rows, []));
  }

  /** A direct, admitted command on one row that clashes with none is accepted. */
  lemma DirectIsAccepted(db: Db, req: Request, target: Id, u: Id, row: Row)
    requires Inv(db) && FindOpen(db.cascades).None? && req.target == StepTarget(Some(target))
    requires req.cascade.None? && req.silent == [] && req.edits == [(u, Some(row))] && !Clashes(db.rows, u, row)
    requires DirectlyMutable(Steps(db.rows), target) && PathsResolve(Steps(db.rows), target)
    ensures Write(db, req).Accepted? && Inv(Write(db, req).db)
    ensures Write(db, req).db.rows == db.rows[u := row] && FindOpen(Write(db, req).db.cascades).None?
  {
    SilentFreeEffect(db.rows, req, u, row);
    WriteOnHeadKeepsInv(db, req);
  }

  lemma BranchKeys(rows: Table)
    requires rows == Branch().rows
    ensures UniqueKeys(rows)
  {
    assert GLOBAL_A.parent != TACTICAL.parent && TACTICAL.parent != ATOMIC.parent && GLOBAL_A.parent != ATOMIC.parent;
  }

  lemma BranchFacts(db: Db)
    requires db == Branch()
    ensures Inv(db) && FindOpen(db.cascades).None?
    ensures DirectlyMutable(Steps(db.rows), 2) && PathsResolve(Steps(db.rows), 2)
  {
    BranchKeys(db.rows);
    SeededIsSynced([StepRow(GLOBAL_A), StepRow(TACTICAL), StepRow(ATOMIC)]);
    UnfrozenIsMutable(Steps(db.rows), 2);
  }

  lemma MisplacedFits(rows: Table)
    requires rows == Branch().rows
    ensures !Clashes(rows, 3, StepRow(MISPLACED)) && NoDependents(rows[3 := StepRow(MISPLACED)], 2)
  {
    assert GLOBAL_A.parent != MISPLACED.parent && TACTICAL.parent != MISPLACED.parent
           && ATOMIC.parent != MISPLACED.parent;
    assert ATOMIC.parent != GLOBAL_A.parent && ATOMIC.parent != TACTICAL.parent;
  }

  /** step_create of a tactical step below the atomic one, then step_move of the atomic
      step below the new one. */
  function Misplace(): Request {
    CreateRequest(None, 3, MISPLACED, None)
  }

  function Loop(rows: Table): Request
    requires rows == Branch().rows[3 := StepRow(MISPLACED)]
  {
    MoveRequest(rows, None, 2, Some(3), "A-001", [])
  }

  lemma MovedFits(rows: Table)
    requires rows == Branch().rows[3 := StepRow(MISPLACED)]
    ensures !Clashes(rows, 2, StepRow(Moved(ATOMIC, Some(3), "A-001")))
  {
    var moved := Moved(ATOMIC, Some(3), "A-001");
    assert moved.parent != GLOBAL_A.parent && moved.parent != TACTICAL.parent && moved.parent != MISPLACED.parent;
  }

  lemma MoveFacts(rows: Table)
    requires rows == Branch().rows[3 := StepRow(MISPLACED)] && NoDependents(rows, 2)
    ensures Loop(rows).silent == []
    ensures DirectlyMutable(Steps(rows), 2) && PathsResolve(Steps(rows), 2)
  {
    assert (set v | v in rows && DependsOnSibling(rows, v, 2)) == {};
    UnfrozenIsMutable(Steps(rows), 2);
  }

  lemma LoopIsACycle(rows: Table)
    requires rows == Branch().rows[3 := StepRow(MISPLACED)]
    ensures OnCycle(Steps(rows[2 := StepRow(Moved(ATOMIC, Some(3), "A-001"))]), 2)
  {
    var after := Steps(rows[2 := StepRow(Moved(ATOMIC, Some(3), "A-001"))]);
    assert Up(after, 2, 1) == Some(3) && Up(after, 3, 1) == Some(2);
    UpSplit(after, 2, 1, 1);
    assert Up(after, 2, 2) == Some(2);
  }

  lemma MisplaceIsAccepted(db: Db)
    requires db == Branch()
    ensures Inv(db) && Write(db, Misplace()).Accepted?
    ensures var middle := Write(db, Misplace()).db;
            && Inv(middle) && FindOpen(middle.cascades).None?
            && middle.rows == db.rows[3 := StepRow(MISPLACED)]
  {
    BranchFacts(db);
    MisplacedFits(db.rows);
    DirectIsAccepted(db, Misplace(), 2, 3, StepRow(MISPLACED));
  }

  lemma LoopIsAccepted(middle: Db)
    requires Inv(middle) && FindOpen(middle.cascades).None?
    requires middle.rows == Branch().rows[3 := StepRow(MISPLACED)]
    ensures MayMove(Steps(middle.rows), 2, 3) && Write(middle, Loop(middle.rows)).Accepted?
    ensures Write(middle, Loop(middle.rows)).db.rows
         == middle.rows[2 := StepRow(Moved(ATOMIC, Some(3), "A-001"))]
  {
    MisplacedFits(Branch().rows);
    MoveFacts(middle.rows);
    MovedFits(middle.rows);
    DirectIsAccepted(middle, Loop(middle.rows), 2, 2, StepRow(Moved(ATOMIC, Some(3), "A-001")));
  }

  /** The walks up and down from u go on for ever. */
  ghost predicate GoesRound(nodes: Nodes, u: Id) {
    OnCycle(nodes, u) && !WalkEnds(nodes, u) && forall k: nat :: Generation(nodes, u, k) != {}
  }

  lemma NeverEnds(nodes: Nodes, u: Id)
    requires OnCycle(nodes, u) && forall x | x in nodes :: nodes[x].status != Frozen
    ensures GoesRound(nodes, u)
  {
    WalkEndsIff(nodes, u);
    FrontierEmptiesIff(nodes, u);
  }

  lemma LoopGoesRound(rows: Table)
    requires rows == Branch().rows[3 := StepRow(MISPLACED)]
    ensures GoesRound(Steps(rows[2 := StepRow(Moved(ATOMIC, Some(3), "A-001"))]), 2)
  {
    LoopIsACycle(rows);
    NeverEnds(Steps(rows[2 := StepRow(Moved(ATOMIC, Some(3), "A-001"))]), 2);
  }

  lemma MisplacedMayBeCreated()
    ensures LevelsFall(Steps(Branch().rows)) && MayCreate(Steps(Branch().rows), MISPLACED)
  {
  }

  /** Both commands pass their checks and are accepted on head; afterwards the atomic step
      is its own ancestor, and the walks up and down from it never end. */
  lemma AcceptedCommandsMakeCycle()
    ensures Inv(Branch()) && Write(Branch(), Misplace()).Accepted? && (
              var middle := Write(Branch(), Misplace()).db;
              Inv(middle) && middle.rows == Branch().rows[3 := StepRow(MISPLACED)]
              && MayMove(Steps(middle.rows), 2, 3) && Write(middle, Loop(middle.rows)).Accepted?
              && GoesRound(Steps(Write(middle, Loop(middle.rows)).db.rows), 2))
  {
    MisplaceIsAccepted(Branch());
    var middle := Write(Branch(), Misplace()).db;
    LoopIsAccepted(middle);
    LoopGoesRound(middle.rows);
  }
}
