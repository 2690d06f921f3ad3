/** The commands that write steps on head, and what they do to frozen truth. */
module DirectCommands {
  import opened Rows
  import opened VersionStore
  import Sorting
  import opened StepTree
  import opened Regime
  import opened Propagation
  import opened Protocol
  import opened Outcomes
  import opened WriteSoundness
  import opened Runs
  import opened Commands

  // ----- admitted edits -----

  /** A direct write on step u that edits u and scrubs its siblings: step_delete and
      step_move. */
  predicate DirectScrubbing(rows: Table, req: Request, u: Id) {
    && req.cascade.None? && req.checked && req.target == StepTarget(Some(u))
    && req.silent == Scrub(rows, u) && |req.edits| == 1 && req.edits[0].0 == u
  }

  lemma ScrubbingLeaves(rows: Table, req: Request, u: Id, e: Id)
    requires DirectScrubbing(rows, req, u) && Effect(rows, req).Some? && e != u
    ensures Lookup(Effect(rows, req).value.0, e)
         == if DependsOnSibling(rows, e, u) then Some(Scrubbed(rows, e, u)) else Lookup(rows, e)
    ensures DependsOnSibling(rows, e, u) ==> Scrubbed(rows, e, u) != rows[e]
  {
    ScrubRewrites(rows, u);
    var quiet := Perform(rows, Scrub(rows, u)).value.0;
    assert req.edits == [req.edits[0]];
    PerformOne(quiet, req.edits[0]);
  }

  /** A sibling of a directly mutable step has nothing frozen above it either. */
  lemma SiblingFrozenTruth(nodes: Nodes, u: Id, v: Id)
    requires DirectlyMutable(nodes, u) && v in nodes && nodes[v].parent == nodes[u].parent
    ensures !FrozenTruth(nodes, u) && (FrozenTruth(nodes, v) <==> FrozenAt(nodes, v))
  {
    SubtreeIsOutsideFrozenTruth(nodes, u, u);
    FrozenAboveUnfold(nodes, u);
    FrozenAboveUnfold(nodes, v);
  }

  /** A direct delete or move changes no frozen step and no step below one, if and only if
      no frozen sibling depends on the step: the admission checks look above and below
      it, not beside it. */
  lemma DirectScrubbingKeepsFrozenTruthIff(db: Db, req: Request, u: Id, after: Db)
    requires Inv(db) && DirectScrubbing(db.rows, req, u) && Write(db, req) == Accepted(after)
    ensures (forall x: Id | FrozenTruth(Steps(db.rows), x) :: Lookup(after.rows, x) == Lookup(db.rows, x))
       <==> (forall v: Id | DependsOnSibling(db.rows, v, u) :: !FrozenAt(Steps(db.rows), v))
  {
    AcceptedHasEffect(db, req);
    var nodes := Steps(db.rows);
    forall e: Id | e != u
      ensures Lookup(after.rows, e)
           == if DependsOnSibling(db.rows, e, u) then Some(Scrubbed(db.rows, e, u)) else Lookup(db.rows, e)
      ensures DependsOnSibling(db.rows, e, u) ==> Scrubbed(db.rows, e, u) != db.rows[e]
      ensures DependsOnSibling(db.rows, e, u) ==> (FrozenTruth(nodes, e) <==> FrozenAt(nodes, e))
    {
      ScrubbingLeaves(db.rows, req, u, e);
      if DependsOnSibling(db.rows, e, u) {
        SiblingFrozenTruth(nodes, u, e);
      }
    }
    SubtreeIsOutsideFrozenTruth(nodes, u, u);
  }

  /** A direct edit of one step, nothing else touched, is a direct edit of the tree, so
      it keeps all frozen truth. */
  lemma DirectStepWriteKeepsFrozenTruth(db: Db, u: Id, step: Step, carry: Option<seq<string>>, after: Db, x: Id)
    requires Inv(db) && Write(db, StepRequest(None, u, step, [], carry)) == Accepted(after)
    requires FrozenTruth(Steps(db.rows), x)
    ensures Lookup(after.rows, x) == Lookup(db.rows, x) && FrozenTruth(Steps(after.rows), x)
  {
    var req := StepRequest(None, u, step, [], carry);
    AcceptedHasEffect(db, req);
    PerformOne(db.rows, (u, Some(StepRow(step))));
    assert Perform(db.rows, []) == Some((db.rows, []));
    assert Effect(db.rows, req).value.0 == db.rows[u := StepRow(step)];
    assert DirectEdit(Steps(db.rows), u, Steps(after.rows));
    DirectEditKeepsFrozenTruth(Steps(db.rows), u, Steps(after.rows), x);
  }

  // ----- the two ways past check_admission -----

  predicate IsStep(rows: Table, u: Id) {
    u in rows && rows[u].StepRow?
  }

  function WithStatus(rows: Table, u: Id, status: Status): Row
    requires IsStep(rows, u)
  {
    StepRow(rows[u].step.(status := status))
  }

  /** step_set_status on an atomic step that starts or finishes executing, on head and only
      while no cascade is open. */
  predicate MayExecute(db: Db, u: Id, status: Status) {
    && IsStep(db.rows, u) && IsAtomic(db.rows[u].step) && FindOpen(db.cascades).None?
    && ((db.rows[u].step.status == Frozen && status == InProgress)
        || (db.rows[u].step.status == InProgress && status == Done))
  }

  /** The status changes step_transition allows without a cascade: those of the status
      model, and draft to frozen in one go; never out of frozen. */
  predicate MayTransition(rows: Table, items: seq<Id>, to: Status) {
    && to in {Draft, ReadyForReview, Frozen}
    && forall u | u in items ::
         && IsStep(rows, u) && rows[u].step.status != to && rows[u].step.status != Frozen
         && ((rows[u].step.status == Draft && to == Frozen)
             || ValidTransition(rows[u].step.status, to, IsAtomic(rows[u].step), false))
  }

  /** Executing an atomic step follows the status model, out of frozen and in_progress. */
  lemma ExecutesIff(db: Db, u: Id, status: Status)
    ensures MayExecute(db, u, status)
       <==> u in db.rows && db.rows[u].StepRow? && db.rows[u].step.level == 5 && NoneOpen(db.cascades)
            && db.rows[u].step.status in {Frozen, InProgress} && status != NeedsReview
            && ValidTransition(db.rows[u].step.status, status, true, false)
  {
  }

  /** The pairs step_transition allows for one step without a cascade. */
  lemma TransitionPairs(rows: Table, u: Id, to: Status)
    requires u in rows && rows[u].StepRow?
    ensures MayTransition(rows, [u], to)
       <==> (rows[u].step.status, to) in
              {(Draft, ReadyForReview), (Draft, Frozen), (ReadyForReview, Draft), (ReadyForReview, Frozen),
               (NeedsReview, Draft), (NeedsReview, Frozen)}
  {
    assert u in [u];
  }

  /** Both store the new status of some steps and record them. */
  function StatusRequest(rows: Table, items: seq<Id>, to: Status, carry: Option<seq<string>>, syncs: bool): Request
    requires forall u | u in items :: IsStep(rows, u)
  {
    Request(None, StepTarget(None), false, [],
            seq(|items|, i requires 0 <= i < |items| =>
              assert items[i] in items; (items[i], Some(WithStatus(rows, items[i], to)))),
            [], carry, syncs)
  }

  lemma {:induction false} PerformRecords(rows: Table, edits: seq<Edit>)
    requires Perform(rows, edits).Some?
    ensures var changes := Perform(rows, edits).value.1;
            |changes| == |edits| && forall i | 0 <= i < |edits| :: changes[i].0 == edits[i].0
  {
    if edits != [] {
      PerformRecords(rows, edits[..|edits| - 1]);
    }
  }

  /** The edits name exactly the items, each with its new row. */
  lemma StatusEdits(rows: Table, items: seq<Id>, to: Status, carry: Option<seq<string>>, syncs: bool, x: Id)
    requires forall u | u in items :: IsStep(rows, u)
    ensures var edits := StatusRequest(rows, items, to, carry, syncs).edits;
            if x in items then exists i | 0 <= i < |edits| :: edits[i] == (x, Some(WithStatus(rows, x, to)))
            else forall i | 0 <= i < |edits| :: edits[i].0 != x
  {
    var edits := StatusRequest(rows, items, to, carry, syncs).edits;
    if x in items {
      var i :| 0 <= i < |items| && items[i] == x;
      assert edits[i] == (x, Some(WithStatus(rows, x, to)));
    } else {
      assert forall i | 0 <= i < |edits| :: edits[i].0 == items[i] && items[i] in items;
    }
  }

  lemma StatusEffect(rows: Table, items: seq<Id>, to: Status, carry: Option<seq<string>>, syncs: bool)
    requires Sorting.Distinct(items) && forall u | u in items :: IsStep(rows, u)
    requires Effect(rows, StatusRequest(rows, items, to, carry, syncs)).Some?
    ensures var (after, changes) := Effect(rows, StatusRequest(rows, items, to, carry, syncs)).value;
            && NoConflict(changes)
            && forall x: Id :: Lookup(after, x) == if x in items then Some(WithStatus(rows, x, to)) else Lookup(rows, x)
  {
    var edits := StatusRequest(rows, items, to, carry, syncs).edits;
    assert Perform(rows, []) == Some((rows, []));
    assert forall i | 0 <= i < |edits| :: edits[i].0 == items[i] && edits[i].1.Some?;
    PerformStores(rows, edits);
    PerformRecords(rows, edits);
    var after := Perform(rows, edits).value.0;
    forall x: Id
      ensures Lookup(after, x) == if x in items then Some(WithStatus(rows, x, to)) else Lookup(rows, x)
    {
      StatusEdits(rows, items, to, carry, syncs, x);
    }
  }

  /** Such a write keeps rows, history and head together exactly while no cascade is open.
      Executing an atomic step asks that of the plan; step_transition does not. */
  lemma StatusRequestIsSoundIff(db: Db, items: seq<Id>, to: Status, carry: Option<seq<string>>, syncs: bool)
    requires Inv(db) && Sorting.Distinct(items) && forall u | u in items :: IsStep(db.rows, u)
    requires Write(db, StatusRequest(db.rows, items, to, carry, syncs)).Accepted?
    ensures Sound(db, WriteOp(StatusRequest(db.rows, items, to, carry, syncs))) <==> FindOpen(db.cascades).None?
  {
    AcceptedHasEffect(db, StatusRequest(db.rows, items, to, carry, syncs));
    StatusEffect(db.rows, items, to, carry, syncs);
    EffectReflects(db.rows, StatusRequest(db.rows, items, to, carry, syncs));
  }

  // ----- paragraphs, concepts and relations on head -----

  /** A checked direct request on paragraphs gets through exactly while no cascade is open
      and no step is frozen, and its statements do. */
  lemma DirectParagraphIff(db: Db, req: Request)
    requires Inv(db) && req.cascade.None? && req.checked && req.target.ParagraphTarget?
    ensures Write(db, req).Accepted?
       <==> (forall c | 0 <= c < |db.cascades| :: db.cascades[c].status != Open)
            && (forall u | u in db.rows && db.rows[u].StepRow? :: db.rows[u].step.status != Frozen)
            && Effect(db.rows, req).Some?
  {
    WriteAcceptedIff(db, req);
    AdmitsExactly(db, req.target, None);
  }

  /** The same for concepts and relations: never. */
  lemma DirectConceptNever(db: Db, req: Request)
    requires Inv(db) && req.cascade.None? && req.checked && (req.target.ConceptTarget? || req.target.RelationTarget?)
    ensures Write(db, req) == Refused(NotAdmitted)
  {
    AdmitsExactly(db, req.target, None);
  }

  lemma ChangedOnHead(before: Db, req: Request)
    requires Inv(before) && req.cascade.None? && req.checked && Write(before, req).Accepted?
    ensures !req.target.ConceptTarget? && !req.target.RelationTarget?
    ensures req.target.ParagraphTarget? ==> NoneOpen(before.cascades) && NoStepFrozen(before.rows)
  {
    if req.target.ConceptTarget? || req.target.RelationTarget? {
      DirectConceptNever(before, req);
    } else if req.target.ParagraphTarget? {
      DirectParagraphIff(before, req);
    }
  }

  lemma ChangedByWrite(before: Db, op: Op)
    requires Inv(before) && op.WriteOp? && Apply(before, op) != before
    ensures Write(before, op.req).Accepted?
  {
  }

  /** So along any run a checked request without a cascade changes something only if it is
      not about concepts or relations, and if it is about paragraphs only while no cascade
      is open and no step is frozen. */
  lemma ChangesOnHeadOverRuns(db: Db, ops: seq<Op>, last: Op)
    requires Inv(db) && last.WriteOp? && last.req.cascade.None? && last.req.checked
    requires Apply(Run(db, ops), last) != Run(db, ops)
    ensures !last.req.target.ConceptTarget? && !last.req.target.RelationTarget?
    ensures last.req.target.ParagraphTarget? ==>
              NoneOpen(Run(db, ops).cascades) && NoStepFrozen(Run(db, ops).rows)
  {
    ChangedByWrite(Run(db, ops), last);
    ChangedOnHead(Run(db, ops), last.req);
  }

  // ----- every direct command -----

  datatype DirectCommand =
    | EditStep(u: Id, step: Step, carry: Option<seq<string>>)
    | ScrubStep(u: Id, req: Request)
    | CreateStep(id: Id, step: Step, carry: Option<seq<string>>)
    | ExecuteStep(u: Id, to: Status, carry: Option<seq<string>>)
    | TransitionSteps(items: seq<Id>, to: Status, carry: Option<seq<string>>)

  /** step_create: a new row, admitted for its parent, or like a paragraph if it has none. */
  function CreateRequest(cascade: Option<nat>, id: Id, step: Step, carry: Option<seq<string>>): Request {
    Request(cascade, if step.parent.Some? then StepTarget(step.parent) else ParagraphTarget, true, [],
            [(id, Some(StepRow(step)))], [], carry, false)
  }

  predicate MayRun(db: Db, cmd: DirectCommand) {
    match cmd
    case EditStep(_, _, _) => true
    case ScrubStep(u, req) => DirectScrubbing(db.rows, req, u)
    case CreateStep(id, _, _) => id !in db.rows
    case ExecuteStep(u, to, _) => MayExecute(db, u, to)
    case TransitionSteps(items, to, _) => Sorting.Distinct(items) && MayTransition(db.rows, items, to)
  }

  function RequestOf(db: Db, cmd: DirectCommand): Request
    requires MayRun(db, cmd)
  {
    match cmd
    case EditStep(u, step, carry) => StepRequest(None, u, step, [], carry)
    case ScrubStep(_, req) => req
    case CreateStep(id, step, carry) => CreateRequest(None, id, step, carry)
    case ExecuteStep(u, to, carry) => StatusRequest(db.rows, [u], to, carry, false)
    case TransitionSteps(items, to, carry) => StatusRequest(db.rows, items, to, carry, true)
  }

  /** The steps a command changes although the regime protects them. */
  predicate Reaches(rows: Table, cmd: DirectCommand, x: Id) {
    match cmd
    case EditStep(_, _, _) => false
    case ScrubStep(u, _) => DependsOnSibling(rows, x, u)
    case CreateStep(_, _, _) => false
    case ExecuteStep(u, _, _) => x == u
    case TransitionSteps(items, _, _) => x in items
  }

  lemma StatusCommandLeaves(db: Db, cmd: DirectCommand, after: Db, x: Id)
    requires Inv(db) && MayRun(db, cmd) && (cmd.ExecuteStep? || cmd.TransitionSteps?)
    requires Write(db, RequestOf(db, cmd)) == Accepted(after)
    ensures Reaches(db.rows, cmd, x) ==> IsStep(db.rows, x) && db.rows[x].step.status != cmd.to
    ensures Lookup(after.rows, x)
         == if Reaches(db.rows, cmd, x) then Some(WithStatus(db.rows, x, cmd.to)) else Lookup(db.rows, x)
  {
    AcceptedHasEffect(db, RequestOf(db, cmd));
    match cmd {
      case ExecuteStep(u, to, carry) => StatusEffect(db.rows, [u], to, carry, false);
      case TransitionSteps(items, to, carry) => StatusEffect(db.rows, items, to, carry, true);
      case _ =>
    }
  }

  lemma CreationLeaves(db: Db, id: Id, step: Step, carry: Option<seq<string>>, after: Db, x: Id)
    requires Inv(db) && Write(db, CreateRequest(None, id, step, carry)) == Accepted(after) && x != id
    ensures Lookup(after.rows, x) == Lookup(db.rows, x)
  {
    var req := CreateRequest(None, id, step, carry);
    AcceptedHasEffect(db, req);
    assert Perform(db.rows, []) == Some((db.rows, []));
    PerformOne(db.rows, (id, Some(StepRow(step))));
  }

  /** After a transition plan.status says frozen exactly if there is a step and all are
      frozen; no other direct edit touches it. */
  lemma TransitionMirrorsStatus(db: Db, cmd: DirectCommand, after: Db)
    requires Inv(db) && MayRun(db, cmd) && Write(db, RequestOf(db, cmd)) == Accepted(after)
    ensures cmd.TransitionSteps? ==>
              (after.planFrozen
               <==> (exists u | u in after.rows :: after.rows[u].StepRow?)
                    && forall u | u in after.rows && after.rows[u].StepRow? :: after.rows[u].step.status == Frozen)
    ensures !cmd.TransitionSteps? && !cmd.ScrubStep? ==> after.planFrozen == db.planFrozen
  {
    WriteExactly(db, RequestOf(db, cmd));
  }

  /** Over every direct command: a frozen step, or a step below one, changes exactly when
      the command executes it, transitions it, or scrubs it as a sibling; in the first two
      only in its status, and a transition never touches a frozen step itself. */
  lemma FrozenTruthChangesIff(db: Db, cmd: DirectCommand, after: Db, x: Id)
    requires Inv(db) && MayRun(db, cmd) && Write(db, RequestOf(db, cmd)) == Accepted(after)
    requires FrozenTruth(Steps(db.rows), x)
    ensures Lookup(after.rows, x) != Lookup(db.rows, x) <==> Reaches(db.rows, cmd, x)
    ensures (cmd.ExecuteStep? || cmd.TransitionSteps?) && Reaches(db.rows, cmd, x) ==>
              x in db.rows && db.rows[x].StepRow?
              && Lookup(after.rows, x) == Some(StepRow(db.rows[x].step.(status := cmd.to)))
    ensures cmd.TransitionSteps? && FrozenAt(Steps(db.rows), x) ==> !Reaches(db.rows, cmd, x)
  {
    match cmd {
      case EditStep(u, step, carry) => DirectStepWriteKeepsFrozenTruth(db, u, step, carry, after, x);
      case ScrubStep(u, req) =>
        AcceptedHasEffect(db, req);
        SubtreeIsOutsideFrozenTruth(Steps(db.rows), u, u);
        ScrubbingLeaves(db.rows, req, u, x);
      case CreateStep(id, step, carry) => CreationLeaves(db, id, step, carry, after, x);
      case _ => StatusCommandLeaves(db, cmd, after, x);
    }
  }
}
