/** The mutating commands as requests: which of them always keep rows and history
    together, and which do so only under a condition on the rows. */
module Commands {
  import opened Rows
  import opened VersionStore
  import opened StepTree
  import opened Regime
  import opened TreeShape
  import opened Propagation
  import opened Protocol
  import opened WriteSoundness
  import opened Runs
  import opened Sorting
  import opened Restore

  // ----- requests -----

  /** concept_add, concept_update and relation_add store one row, concept_remove and
      relation_remove delete one; all of them then mark every global step. */
  function MrsRequest(target: Target, cascade: nat, edit: Edit, globals: seq<Id>): Request {
    Request(Some(cascade), target, true, [], [edit], Marks(globals), None, false)
  }

  /** step_update and step_set_status store one step; in cascade mode they mark ids.
      step_set_status has a second way of its own, for executing an atomic step. */
  function StepRequest(cascade: Option<nat>, u: Id, step: Step, ids: seq<Id>,
                       carry: Option<seq<string>>): Request
  {
    Request(cascade, StepTarget(Some(u)), true, [], [(u, Some(StepRow(step)))], Marks(ids), carry, false)
  }

  /** v is another step of u's scope that lists u among its dependencies. */
  predicate DependsOnSibling(rows: Table, v: Id, u: Id) {
    && u in rows && rows[u].StepRow? && v in rows && rows[v].StepRow? && v != u
    && rows[v].step.parent == rows[u].step.parent && rows[v].step.level == rows[u].step.level
    && rows[u].step.stepId in rows[v].step.dependsOn
  }

  predicate NoDependents(rows: Table, u: Id) {
    forall v | v in rows :: !DependsOnSibling(rows, v, u)
  }

  function WithoutText(text: string, q: seq<string>): seq<string> {
    if q == [] then []
    else if q[0] == text then WithoutText(text, q[1..])
    else [q[0]] + WithoutText(text, q[1..])
  }

  function Scrubbed(rows: Table, v: Id, u: Id): Row
    requires DependsOnSibling(rows, v, u)
  {
    StepRow(rows[v].step.(dependsOn := WithoutText(rows[u].step.stepId, rows[v].step.dependsOn)))
  }

  /** The sibling updates of delete_step and move_step: they drop the step's id from the
      depends_on of its siblings. */
  function Scrub(rows: Table, u: Id): seq<Edit> {
    var siblings := Sorted(set v | v in rows && DependsOnSibling(rows, v, u));
    seq(|siblings|, i requires 0 <= i < |siblings| =>
      assert siblings[i] in siblings; (siblings[i], Some(Scrubbed(rows, siblings[i], u))))
  }

  /** step_delete of a step without children. */
  function DeleteRequest(rows: Table, cascade: Option<nat>, u: Id): Request {
    Request(cascade, StepTarget(Some(u)), true, Scrub(rows, u), [(u, None)], [], None, false)
  }

  /** step_move; ids are the steps its invalidation marks. */
  function MoveRequest(rows: Table, cascade: Option<nat>, u: Id, newParent: Option<Id>, newId: string,
                       ids: seq<Id>): Request
    requires u in rows && rows[u].StepRow?
  {
    var step := rows[u].step;
    Request(cascade, StepTarget(Some(u)), true,
            if newParent == step.parent then [] else Scrub(rows, u),
            [(u, Some(StepRow(Moved(step, newParent, newId))))], Marks(ids), None, false)
  }

  // ----- one edit, then marks on other rows -----

  lemma PerformOne(rows: Table, edit: Edit)
    ensures Perform(rows, [edit])
         == match edit.1
            case Some(row) =>
              if Clashes(rows, edit.0, row) then None else Some((rows[edit.0 := row], [(edit.0, SnapshotOf(row))]))
            case None =>
              if edit.0 !in rows then None else Some((rows - {edit.0}, [(edit.0, Tombstone(rows[edit.0]))]))
  {
    assert [edit][..0] == [];
    var none: seq<Change> := [];
    assert forall c: Change :: none + [c] == [c];
  }

  lemma OneThenMarksIsClean(first: Change, edited: Table, stale: seq<Id>)
    requires Distinct(stale) && AreSteps(edited, stale) && first.0 !in stale
    ensures var all := [first] + MarkSnapshots(edited, stale);
            && NoConflict(all)
            && ChangedEntities(all) == {first.0} + SetOf(stale)
  {
    var all := [first] + MarkSnapshots(edited, stale);
    assert forall i | 1 <= i < |all| :: all[i].0 == stale[i - 1] && stale[i - 1] in stale;
    forall e | e in stale
      ensures e in ChangedEntities(all)
    {
      var i :| 0 <= i < |stale| && stale[i] == e;
      assert all[i + 1].0 == e;
    }
    assert all[0].0 == first.0;
  }

  /** Marking other steps after one edit records no entity twice. */
  lemma OneEditThenMarks(rows: Table, req: Request, edit: Edit, ids: seq<Id>)
    requires req.edits == [edit] && req.updates == Marks(ids)
    requires Effect(rows, req).Some?
    requires var quiet := Perform(rows, req.silent).value.0;
             var edited := Perform(quiet, [edit]).value.0;
             Distinct(ids) && AreSteps(edited, ids) && edit.0 !in ids
    ensures NoConflict(Effect(rows, req).value.1)
    ensures var edited := Perform(Perform(rows, req.silent).value.0, [edit]).value.0;
            ChangedEntities(Effect(rows, req).value.1)
            == {edit.0} + if req.cascade.Some? then set d | d in ids && Stale(edited)(d) else {}
  {
    var quiet := Perform(rows, req.silent).value.0;
    PerformOne(quiet, edit);
    var (edited, changes) := Perform(quiet, [edit]).value;
    var first := changes[0];
    var stale := if req.cascade.Some? then Filter(Stale(edited), ids) else [];
    FilterIn(Stale(edited), ids);
    FilterDistinct(Stale(edited), ids);
    OneThenMarksIsClean(first, edited, stale);
    if req.cascade.Some? {
      MarkingRows(edited, ids);
    }
    assert Effect(rows, req).value.1 == [first] + MarkSnapshots(edited, stale);
    assert SetOf(stale) == if req.cascade.Some? then set d | d in ids && Stale(edited)(d) else {};
  }

  /** Editing the row first and recording it in cascade c afterwards is the one write of
      that edit. */
  lemma WriteIsRecorded(db: Db, req: Request, c: nat, edit: Edit, snapshot: Snapshot, edited: Table)
    requires Inv(db) && FindOpen(db.cascades) == Some(c) && req.cascade == Some(c)
    requires req.silent == [] && req.edits == [edit] && !req.syncsPlanStatus && !req.target.UnknownTarget?
    requires Perform(db.rows, [edit]) == Some((edited, [(edit.0, snapshot)]))
    ensures match RecordInCascade(db.(rows := edited), c, [(edit.0, snapshot)], req.updates, req.carry)
            case Accepted(next) => Write(db, req) == Accepted(next)
            case Refused(w) => Write(db, req) == Refused(w)
  {
    assert Perform(db.rows, req.silent) == Some((db.rows, []));
    WorkingInRange(db);
    ReferencesFollowCascades(db);
  }

  /** Editing the row and recording it on head is the one direct write of that edit. */
  lemma WriteIsRecordedOnHead(db: Db, req: Request, edit: Edit, snapshot: Snapshot, edited: Table)
    requires Inv(db) && req.cascade.None? && (req.checked ==> Admits(db, req.target, None))
    requires req.silent == [] && req.edits == [edit] && !req.syncsPlanStatus
    requires Perform(db.rows, [edit]) == Some((edited, [(edit.0, snapshot)]))
    ensures Write(db, req)
         == Accepted(db.(rows := edited, store := Record(db.store, [(edit.0, snapshot)], db.head),
                         head := Some(|db.store.revisions|),
                         blocks := Carry(db.blocks, db.head, |db.store.revisions|, None, req.carry)))
  {
    assert Perform(db.rows, req.silent) == Some((db.rows, []));
  }

  /** Everything a request changes it records, and nothing twice differently. */
  ghost predicate Faithful(rows: Table, req: Request)
    requires Effect(rows, req).Some?
  {
    NoConflict(Effect(rows, req).value.1) && SameOutside(Effect(rows, req).value.1, rows, Effect(rows, req).value.0)
  }

  lemma CheckedSoundIff(db: Db, req: Request)
    requires Inv(db) && req.checked && Write(db, req).Accepted?
    ensures Sound(db, WriteOp(req)) <==> Faithful(db.rows, req)
  {
  }

  lemma SilentFreeWriteIsSound(db: Db, req: Request)
    requires Inv(db) && req.silent == [] && req.checked
    requires Write(db, req).Accepted? ==> NoConflict(Effect(db.rows, req).value.1)
    ensures Sound(db, WriteOp(req))
  {
    if Write(db, req).Accepted? {
      EffectReflects(db.rows, req);
    }
  }

  /** The concept and relation commands always keep rows and history together. */
  lemma MrsRequestIsSound(db: Db, target: Target, cascade: nat, edit: Edit, globals: seq<Id>)
    requires Inv(db) && Distinct(globals) && AreSteps(db.rows, globals)
    requires edit.0 !in globals
    ensures Sound(db, WriteOp(MrsRequest(target, cascade, edit, globals)))
  {
    var req := MrsRequest(target, cascade, edit, globals);
    if Write(db, req).Accepted? {
      PerformOne(db.rows, edit);
      OneEditThenMarks(db.rows, req, edit, globals);
    }
    SilentFreeWriteIsSound(db, req);
  }

  /** A call of step_invalidation on u returned, with the marks of ids: its walk ends
      exactly off a cycle. */
  ghost predicate Returned(nodes: Nodes, u: Id, ids: seq<Id>) {
    !OnCycle(nodes, u) && InvalidatesExactly(nodes, u, ids)
  }

  lemma DirectEditIsClean(rows: Table, req: Request, edit: Edit)
    requires req.edits == [edit] && req.cascade.None? && Effect(rows, req).Some?
    ensures NoConflict(Effect(rows, req).value.1) && ChangedEntities(Effect(rows, req).value.1) == {edit.0}
    ensures Perform(rows, req.silent).Some?
    ensures forall e: Id | e != edit.0 ::
              Lookup(Effect(rows, req).value.0, e) == Lookup(Perform(rows, req.silent).value.0, e)
  {
    PerformOne(Perform(rows, req.silent).value.0, edit);
    var changes := Effect(rows, req).value.1;
    assert |changes| == 1 && changes[0].0 == edit.0;
  }

  /** Editing or transitioning a step, and inside a cascade marking what is below it,
      always keeps rows and history together. */
  lemma StepRequestIsSound(db: Db, cascade: Option<nat>, u: Id, step: Step, ids: seq<Id>,
                           carry: Option<seq<string>>)
    requires Inv(db)
    requires cascade.Some? ==> Returned(Steps(db.rows[u := StepRow(step)]), u, ids)
    ensures Sound(db, WriteOp(StepRequest(cascade, u, step, ids, carry)))
  {
    var req := StepRequest(cascade, u, step, ids, carry);
    if Write(db, req).Accepted? {
      AcceptedHasEffect(db, req);
      StepEffectIsClean(db.rows, req, u, step, ids);
    }
    SilentFreeWriteIsSound(db, req);
  }

  lemma StepEffectIsClean(rows: Table, req: Request, u: Id, step: Step, ids: seq<Id>)
    requires req.silent == [] && req.edits == [(u, Some(StepRow(step)))] && req.updates == Marks(ids)
    requires req.cascade.Some? ==> Returned(Steps(rows[u := StepRow(step)]), u, ids)
    requires Effect(rows, req).Some?
    ensures NoConflict(Effect(rows, req).value.1)
  {
    var edit := (u, Some(StepRow(step)));
    if req.cascade.None? {
      DirectEditIsClean(rows, req, edit);
    } else {
      PerformOne(rows, edit);
      assert Perform(rows, []) == Some((rows, []));
      assert forall d | d in ids :: d in Steps(rows[u := StepRow(step)]);
      OneEditThenMarks(rows, req, edit, ids);
    }
  }

  /** A write that edits a step and also lists that step in its status updates keeps
      them together exactly when the update is skipped: otherwise one revision holds two
      versions of the step, and state_at may answer with the older one. */
  lemma MutatedStepInUpdatesIff(db: Db, cascade: nat, u: Id, step: Step, status: Status)
    requires Inv(db)
    requires var req := Request(Some(cascade), StepTarget(Some(u)), true, [], [(u, Some(StepRow(step)))],
                                [(u, status)], None, false);
             Write(db, req).Accepted?
    ensures var req := Request(Some(cascade), StepTarget(Some(u)), true, [], [(u, Some(StepRow(step)))],
                               [(u, status)], None, false);
            Sound(db, WriteOp(req)) <==> step.status == status
  {
    var req := Request(Some(cascade), StepTarget(Some(u)), true, [], [(u, Some(StepRow(step)))],
                       [(u, status)], None, false);
    PerformOne(db.rows, (u, Some(StepRow(step))));
    var edited := db.rows[u := StepRow(step)];
    assert [(u, status)][..0] == [];
    assert ApplyUpdates(edited, []) == Some((edited, []));
    var changes := Effect(db.rows, req).value.1;
    if step.status == status {
      assert changes == [(u, SnapshotOf(StepRow(step)))];
      SilentFreeWriteIsSound(db, req);
    } else {
      assert changes == [(u, SnapshotOf(StepRow(step))), (u, StepSnapshot(step, status))];
      assert changes[0].0 == changes[1].0 && changes[0].1 != changes[1].1;
    }
  }

  // ----- step_delete and step_move edit siblings without recording them -----

  lemma {:induction false} PerformStores(rows: Table, edits: seq<Edit>)
    requires forall i | 0 <= i < |edits| :: edits[i].1.Some?
    requires forall i, j | 0 <= i < j < |edits| :: edits[i].0 != edits[j].0
    requires Perform(rows, edits).Some?
    ensures var t := Perform(rows, edits).value.0;
            && (forall i | 0 <= i < |edits| :: Lookup(t, edits[i].0) == edits[i].1)
            && (forall e: Id | (forall i | 0 <= i < |edits| :: edits[i].0 != e) :: Lookup(t, e) == Lookup(rows, e))
  {
    if edits != [] {
      PerformStores(rows, edits[..|edits| - 1]);
    }
  }

  lemma {:induction false} WithoutTextDrops(text: string, q: seq<string>)
    ensures text !in WithoutText(text, q)
  {
    if q != [] {
      WithoutTextDrops(text, q[1..]);
    }
  }

  function OtherThan(text: string): string -> bool {
    (x: string) => x != text
  }

  /** The other texts stay, in their order and as often as they were listed. */
  lemma {:induction false} WithoutTextKeeps(text: string, q: seq<string>)
    ensures WithoutText(text, q) == Filter(OtherThan(text), q)
    ensures forall x :: multiset(WithoutText(text, q))[x] == if x == text then 0 else multiset(q)[x]
  {
    if q != [] {
      WithoutTextKeeps(text, q[1..]);
      assert q == [q[0]] + q[1..];
    }
  }

  /** The scrub rewrites exactly the dependent siblings, each to a different row. */
  lemma ScrubRewrites(rows: Table, u: Id)
    requires Perform(rows, Scrub(rows, u)).Some?
    ensures var t := Perform(rows, Scrub(rows, u)).value.0;
            && (forall v | v in rows && DependsOnSibling(rows, v, u) ::
                  Lookup(t, v) == Some(Scrubbed(rows, v, u)) && Lookup(t, v) != Lookup(rows, v))
            && (forall v: Id | !DependsOnSibling(rows, v, u) :: Lookup(t, v) == Lookup(rows, v))
            && (Scrub(rows, u) == [] <==> NoDependents(rows, u))
  {
    var siblings := Sorted(set v | v in rows && DependsOnSibling(rows, v, u));
    var edits := Scrub(rows, u);
    PerformStores(rows, edits);
    var t := Perform(rows, edits).value.0;
    forall v | v in rows && DependsOnSibling(rows, v, u)
      ensures Lookup(t, v) == Some(Scrubbed(rows, v, u)) && Lookup(t, v) != Lookup(rows, v)
    {
      assert v in siblings;
      var i :| 0 <= i < |siblings| && siblings[i] == v;
      assert edits[i] == (v, Some(Scrubbed(rows, v, u)));
      WithoutTextDrops(rows[u].step.stepId, rows[v].step.dependsOn);
    }
    forall v: Id | !DependsOnSibling(rows, v, u)
      ensures Lookup(t, v) == Lookup(rows, v)
    {
      assert v !in siblings;
      assert forall i | 0 <= i < |edits| :: edits[i].0 == siblings[i] && siblings[i] in siblings;
    }
  }

  /** v as the scrub of u leaves it: a step of the same parent and level that lists the id of
      u lists the same ids without it, in the same order; every other row is as it was. */
  ghost predicate ScrubbedAt(before: Table, after: Table, u: Id, v: Id)
    requires u in before && before[u].StepRow?
  {
    var gone := before[u].step;
    if v in before && before[v].StepRow? && before[v].step.parent == gone.parent
       && before[v].step.level == gone.level && gone.stepId in before[v].step.dependsOn
    then Lookup(after, v)
         == Some(StepRow(before[v].step.(dependsOn := Filter(OtherThan(gone.stepId), before[v].step.dependsOn))))
    else Lookup(after, v) == Lookup(before, v)
  }

  lemma ScrubExactly(rows: Table, u: Id, v: Id)
    requires u in rows && rows[u].StepRow? && v != u && Perform(rows, Scrub(rows, u)).Some?
    ensures ScrubbedAt(rows, Perform(rows, Scrub(rows, u)).value.0, u, v)
  {
    ScrubRewrites(rows, u);
    if DependsOnSibling(rows, v, u) {
      WithoutTextKeeps(rows[u].step.stepId, rows[v].step.dependsOn);
    }
  }

  /** What step_delete leaves: the step is gone, its siblings are scrubbed. */
  lemma DeleteLeaves(db: Db, cascade: Option<nat>, u: Id, after: Db, v: Id)
    requires Inv(db) && u in db.rows && db.rows[u].StepRow?
    requires Write(db, DeleteRequest(db.rows, cascade, u)) == Accepted(after)
    ensures u !in after.rows
    ensures v != u ==> ScrubbedAt(db.rows, after.rows, u, v)
  {
    var req := DeleteRequest(db.rows, cascade, u);
    AcceptedHasEffect(db, req);
    NoUpdates(db.rows, req);
    var quiet := Perform(db.rows, req.silent).value.0;
    PerformOne(quiet, (u, None));
    if v != u {
      ScrubExactly(db.rows, u, v);
    }
  }

  lemma NoUpdates(rows: Table, req: Request)
    requires req.updates == [] && Effect(rows, req).Some?
    ensures Perform(rows, req.silent).Some?
    ensures Perform(Perform(rows, req.silent).value.0, req.edits).Some?
    ensures Effect(rows, req).value.0 == Perform(Perform(rows, req.silent).value.0, req.edits).value.0
  {
  }

  /** A step moved to the parent it has stays as it is, and so do its siblings. */
  lemma MoveInPlaceLeaves(db: Db, u: Id, newId: string, after: Db)
    requires Inv(db) && u in db.rows && db.rows[u].StepRow?
    requires Write(db, MoveRequest(db.rows, None, u, db.rows[u].step.parent, newId, [])) == Accepted(after)
    ensures after.rows == db.rows
  {
    var req := MoveRequest(db.rows, None, u, db.rows[u].step.parent, newId, []);
    AcceptedHasEffect(db, req);
    NoUpdates(db.rows, req);
    assert Perform(db.rows, []) == Some((db.rows, []));
    PerformOne(db.rows, req.edits[0]);
    assert req.edits == [req.edits[0]];
  }

  lemma DeleteIsFaithfulIff(rows: Table, req: Request, u: Id)
    requires UniqueKeys(rows)
    requires exists cascade :: req == DeleteRequest(rows, cascade, u)
    requires Effect(rows, req).Some?
    ensures Faithful(rows, req) <==> NoDependents(rows, u)
  {
    ScrubRewrites(rows, u);
    var quiet := Perform(rows, req.silent).value.0;
    PerformOne(quiet, (u, None));
    assert Marks([]) == [];
    OneEditThenMarks(rows, req, (u, None), []);
    var (after, changes) := Effect(rows, req).value;
    assert after == quiet - {u};
    if v :| v in rows && DependsOnSibling(rows, v, u) {
      assert Lookup(after, v) == Lookup(quiet, v) && v !in ChangedEntities(changes);
    } else {
      EffectReflects(rows, req);
    }
  }

  /** Deleting a step keeps rows and history together exactly when no sibling depends
      on it. */
  lemma DeleteIsSoundIff(db: Db, cascade: Option<nat>, u: Id)
    requires Inv(db) && Write(db, DeleteRequest(db.rows, cascade, u)).Accepted?
    ensures Sound(db, WriteOp(DeleteRequest(db.rows, cascade, u)))
       <==> NoDependents(db.rows, u)
  {
    CheckedSoundIff(db, DeleteRequest(db.rows, cascade, u));
    DeleteIsFaithfulIff(db.rows, DeleteRequest(db.rows, cascade, u), u);
  }

  /** A sibling of a moved step that was not on a cycle is not below it afterwards. */
  lemma SiblingNotBelow(before: Nodes, after: Nodes, u: Id, v: Id)
    requires !OnCycle(before, u) && MovesOnly(before, after, u)
    requires u in before && v in before && v != u && before[v].parent == before[u].parent
    ensures !StrictlyAbove(after, u, v)
  {
    if k: nat :| k >= 1 && Up(after, v, k) == Some(u) {
      BelowAfterMove(before, after, u, v, k);
      AboveUnfold(before, u, v);
      AboveUnfold(before, u, u);
    }
  }

  /** Moving a step keeps rows and history together exactly when it stays under its
      parent or every sibling of the old scope that depends on it is marked along the
      way. A sibling of a step that is not on a cycle never is, so then exactly when no
      sibling depends on it. */
  lemma MoveIsSoundIff(db: Db, cascade: Option<nat>, u: Id, newParent: Option<Id>, newId: string,
                       ids: seq<Id>, req: Request)
    requires Inv(db) && u in db.rows && db.rows[u].StepRow?
    requires req == MoveRequest(db.rows, cascade, u, newParent, newId, ids)
    requires Write(db, req).Accepted? && MarksBelow(db.rows, req, u, ids)
    ensures Sound(db, WriteOp(req))
       <==> newParent == db.rows[u].step.parent || DependentsAreMarked(db.rows, req, u, ids)
    ensures !OnCycle(Steps(db.rows), u) ==>
              (Sound(db, WriteOp(req)) <==> newParent == db.rows[u].step.parent || NoDependents(db.rows, u))
  {
    AcceptedHasEffect(db, req);
    CheckedSoundIff(db, req);
    if newParent == db.rows[u].step.parent {
      MarksBelowFacts(db.rows, req, u, ids);
      EffectReflects(db.rows, req);
    } else {
      ScrubIsFaithfulIff(db.rows, req, u, ids);
      if !OnCycle(Steps(db.rows), u) {
        MarkedMeansNone(db.rows, req, u, ids);
      }
    }
  }

  lemma AcceptedHasEffect(db: Db, req: Request)
    requires Inv(db) && Write(db, req).Accepted?
    ensures Effect(db.rows, req).Some?
    ensures Write(db, req).db.rows == Effect(db.rows, req).value.0
  {
  }

  /** The rows after an edit of u and the marks inside a cascade. */
  lemma EditThenMarksLeaves(rows: Table, req: Request, u: Id, ids: seq<Id>, v: Id)
    requires MarksBelow(rows, req, u, ids) && Effect(rows, req).Some?
    ensures var edited := Edited(rows, req, u);
            Lookup(Effect(rows, req).value.0, v)
            == if req.cascade.Some? && v in ids && v in edited && edited[v].StepRow?
               then Some(StepRow(edited[v].step.(status := NeedsReview))) else Lookup(edited, v)
    ensures req.cascade.Some? ==> u !in ids
  {
    var quiet, edited := Perform(rows, req.silent).value.0, Edited(rows, req, u);
    assert req.edits == [req.edits[0]];
    PerformOne(quiet, req.edits[0]);
    if req.cascade.Some? {
      assert forall d | d in ids :: d in Steps(edited);
      MarkingRows(edited, ids);
    }
  }

  lemma StepRequestMarksBelow(rows: Table, cascade: Option<nat>, u: Id, step: Step, ids: seq<Id>,
                              carry: Option<seq<string>>)
    requires cascade.Some? ==> Returned(Steps(rows[u := StepRow(step)]), u, ids)
    ensures MarksBelow(rows, StepRequest(cascade, u, step, ids, carry), u, ids)
    ensures Edited(rows, StepRequest(cascade, u, step, ids, carry), u) == rows[u := StepRow(step)]
  {
    assert Perform(rows, []) == Some((rows, []));
  }

  /** What editing a step leaves: the step as edited; inside a cascade every step below it
      at needs_review, unless it executes or has executed; no other row changes. */
  lemma StepEditLeaves(db: Db, cascade: Option<nat>, u: Id, step: Step, ids: seq<Id>, carry: Option<seq<string>>,
                       after: Db, v: Id)
    requires Inv(db) && Write(db, StepRequest(cascade, u, step, ids, carry)) == Accepted(after)
    requires cascade.Some? ==> Returned(Steps(db.rows[u := StepRow(step)]), u, ids)
    ensures Lookup(after.rows, u) == Some(StepRow(step))
    ensures v != u ==>
              Lookup(after.rows, v)
              == if cascade.Some? && v in db.rows && db.rows[v].StepRow?
                    && StrictlyAbove(Steps(db.rows[u := StepRow(step)]), u, v)
                    && !(db.rows[v].step.level == 5
                         && (db.rows[v].step.status == Done || db.rows[v].step.status == InProgress))
                 then Some(StepRow(db.rows[v].step.(status := NeedsReview))) else Lookup(db.rows, v)
  {
    var req := StepRequest(cascade, u, step, ids, carry);
    var nodes := Steps(db.rows[u := StepRow(step)]);
    AcceptedHasEffect(db, req);
    StepRequestMarksBelow(db.rows, cascade, u, step, ids, carry);
    EditThenMarksLeaves(db.rows, req, u, ids, u);
    EditThenMarksLeaves(db.rows, req, u, ids, v);
    if v != u && cascade.Some? && v in nodes {
      BelowIsListed(nodes, u, ids, v);
    }
  }

  lemma BelowIsListed(nodes: Nodes, u: Id, ids: seq<Id>, v: Id)
    requires InvalidatesExactly(nodes, u, ids) && v in nodes
    ensures v in ids <==> StrictlyAbove(nodes, u, v) && nodes[v].status != NeedsReview
                          && !(nodes[v].level == 5 && (nodes[v].status == Done || nodes[v].status == InProgress))
  {
    assert v in Descendants(nodes, u) <==> StrictlyAbove(nodes, u, v);
  }

  /** What step_move to another parent leaves: the step under its new parent with its new id
      and no dependencies, otherwise as it was; its old siblings scrubbed; inside a cascade
      the steps of the invalidation at needs_review. */
  lemma MoveLeaves(db: Db, cascade: Option<nat>, u: Id, newParent: Option<Id>, newId: string, ids: seq<Id>,
                   req: Request, after: Db, v: Id)
    requires Inv(db) && u in db.rows && db.rows[u].StepRow? && newParent != db.rows[u].step.parent
    requires req == MoveRequest(db.rows, cascade, u, newParent, newId, ids)
    requires Write(db, req) == Accepted(after) && MarksBelow(db.rows, req, u, ids)
    ensures Lookup(after.rows, u)
         == Some(StepRow(db.rows[u].step.(parent := newParent, stepId := newId, dependsOn := [])))
    ensures v != u && !(cascade.Some? && v in ids) ==> ScrubbedAt(db.rows, after.rows, u, v)
    ensures cascade.Some? && v in ids ==>
              v in after.rows && after.rows[v].StepRow? && after.rows[v].step.status == NeedsReview
  {
    AcceptedHasEffect(db, req);
    EditThenMarksLeaves(db.rows, req, u, ids, u);
    EditThenMarksLeaves(db.rows, req, u, ids, v);
    if v != u {
      ScrubExactly(db.rows, u, v);
    }
    if cascade.Some? && v in ids {
      assert v in Steps(Edited(db.rows, req, u));
    }
  }

  /** The rows between the edit of a one-step request and its marks. */
  function Edited(rows: Table, req: Request, u: Id): Table
    requires |req.edits| == 1 && req.edits[0].1.Some? && Perform(rows, req.silent).Some?
  {
    Perform(rows, req.silent).value.0[u := req.edits[0].1.value]
  }

  /** The request stores u; inside a cascade it marks what step_invalidation returned
      for u afterwards. */
  ghost predicate MarksBelow(rows: Table, req: Request, u: Id, ids: seq<Id>) {
    && |req.edits| == 1 && req.edits[0].0 == u && req.edits[0].1.Some? && req.edits[0].1.value.StepRow?
    && req.updates == Marks(ids) && Perform(rows, req.silent).Some?
    && (req.cascade.Some? ==> Returned(Steps(Edited(rows, req, u)), u, ids))
  }

  /** Every sibling that depends on u is among the steps the request marks. */
  predicate DependentsAreMarked(rows: Table, req: Request, u: Id, ids: seq<Id>) {
    forall v | v in rows && DependsOnSibling(rows, v, u) :: req.cascade.Some? && v in ids
  }

  lemma MarksBelowFacts(rows: Table, req: Request, u: Id, ids: seq<Id>)
    requires MarksBelow(rows, req, u, ids) && Effect(rows, req).Some?
    ensures NoConflict(Effect(rows, req).value.1)
    ensures forall e: Id :: e in ChangedEntities(Effect(rows, req).value.1)
                            <==> e == u || (req.cascade.Some? && e in ids)
    ensures forall e: Id | e != u && !(req.cascade.Some? && e in ids) ::
              Lookup(Effect(rows, req).value.0, e) == Lookup(Perform(rows, req.silent).value.0, e)
  {
    assert req.edits == [req.edits[0]];
    if req.cascade.None? {
      DirectEditIsClean(rows, req, req.edits[0]);
    } else {
      MarksInCascade(rows, req, u, ids);
    }
  }

  lemma MarksInCascade(rows: Table, req: Request, u: Id, ids: seq<Id>)
    requires MarksBelow(rows, req, u, ids) && Effect(rows, req).Some? && req.cascade.Some?
    ensures NoConflict(Effect(rows, req).value.1)
    ensures ChangedEntities(Effect(rows, req).value.1) == {u} + SetOf(ids)
    ensures forall e: Id | e != u && e !in ids ::
              Lookup(Effect(rows, req).value.0, e) == Lookup(Perform(rows, req.silent).value.0, e)
  {
    var quiet, edited := Perform(rows, req.silent).value.0, Edited(rows, req, u);
    assert req.edits == [req.edits[0]];
    PerformOne(quiet, req.edits[0]);
    assert forall d | d in ids :: d in Steps(edited) && Stale(edited)(d);
    OneEditThenMarks(rows, req, req.edits[0], ids);
    assert SetOf(ids) == set d | d in ids && Stale(edited)(d);
    MarkingRows(edited, ids);
  }

  /** A request that scrubs the siblings of u is faithful exactly when it marks all those
      it rewrites. */
  lemma ScrubIsFaithfulIff(rows: Table, req: Request, u: Id, ids: seq<Id>)
    requires UniqueKeys(rows) && u in rows && rows[u].StepRow?
    requires MarksBelow(rows, req, u, ids) && Effect(rows, req).Some? && req.silent == Scrub(rows, u)
    ensures Faithful(rows, req) <==> DependentsAreMarked(rows, req, u, ids)
  {
    MarksBelowFacts(rows, req, u, ids);
    ScrubRewrites(rows, u);
    var (after, changes) := Effect(rows, req).value;
    if v :| v in rows && DependsOnSibling(rows, v, u) && !(req.cascade.Some? && v in ids) {
      assert v !in ChangedEntities(changes) && Lookup(after, v) != Lookup(rows, v);
    } else {
      forall e: Id | e !in ChangedEntities(changes)
        ensures Lookup(after, e) == Lookup(rows, e)
      {
        assert !DependsOnSibling(rows, e, u);
      }
    }
  }

  lemma MarkedMeansNone(rows: Table, req: Request, u: Id, ids: seq<Id>)
    requires u in rows && rows[u].StepRow? && !OnCycle(Steps(rows), u)
    requires MarksBelow(rows, req, u, ids) && req.silent == Scrub(rows, u)
    ensures DependentsAreMarked(rows, req, u, ids) <==> NoDependents(rows, u)
  {
    forall v | v in rows && DependsOnSibling(rows, v, u) && req.cascade.Some?
      ensures v !in ids
    {
      ScrubMovesOnly(rows, u, Perform(rows, req.silent).value.0, req.edits[0].1.value.step);
      SiblingNotBelow(Steps(rows), Steps(Edited(rows, req, u)), u, v);
    }
  }

  lemma ScrubMovesOnly(rows: Table, u: Id, quiet: Table, step: Step)
    requires u in rows && rows[u].StepRow?
    requires Perform(rows, Scrub(rows, u)).Some? && quiet == Perform(rows, Scrub(rows, u)).value.0
    ensures MovesOnly(Steps(rows), Steps(quiet[u := StepRow(step)]), u)
  {
    var after := Steps(quiet[u := StepRow(step)]);
    forall x: Id
      ensures x in after <==> x in Steps(rows)
      ensures x in after && x != u ==> after[x].parent == Steps(rows)[x].parent
    {
      ScrubKeepsParent(rows, u, quiet, x);
    }
  }

  /** The parent link of x; None if x is no step. */
  function ParentAt(rows: Table, x: Id): Option<Option<Id>> {
    if x in rows && rows[x].StepRow? then Some(rows[x].step.parent) else None
  }

  lemma ScrubKeepsParent(rows: Table, u: Id, quiet: Table, x: Id)
    requires Perform(rows, Scrub(rows, u)).Some? && quiet == Perform(rows, Scrub(rows, u)).value.0
    ensures ParentAt(quiet, x) == ParentAt(rows, x)
  {
    ScrubRewrites(rows, u);
    if DependsOnSibling(rows, x, u) {
      assert Lookup(quiet, x) == Some(Scrubbed(rows, x, u));
    } else {
      assert Lookup(quiet, x) == Lookup(rows, x);
    }
  }
}
