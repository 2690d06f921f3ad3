/** What the transitions leave, table by table, and when they refuse: statements about the
    tables themselves, beside the functions that make the transitions. */
module Outcomes {
  import opened Rows
  import opened VersionStore
  import opened StepTree
  import opened Regime
  import opened Propagation
  import opened Protocol

  // ----- the cascade table -----

  predicate NoneOpen(cascades: seq<Cascade>) {
    forall c | 0 <= c < |cascades| :: cascades[c].status != Open
  }

  /** Record c got this status; its name, its base and every other record stand. */
  predicate ClosedAs(before: seq<Cascade>, after: seq<Cascade>, c: nat, status: CascadeStatus) {
    && c < |before| == |after|
    && after[c].status == status && after[c].name == before[c].name && after[c].base == before[c].base
    && forall d | 0 <= d < |before| && d != c :: after[d] == before[d]
  }

  // ----- begin -----

  /** Some step is not frozen, or there is no step. */
  predicate NotFullyFrozen(rows: Table) {
    || (exists u | u in rows && rows[u].StepRow? :: rows[u].step.status != Frozen)
    || (forall u | u in rows :: !rows[u].StepRow?)
  }

  /** after is db with one more cascade, open and based at head. */
  predicate OpenedFrom(db: Db, after: Db) {
    && db.head.Some? && |after.cascades| == |db.cascades| + 1
    && (forall c | 0 <= c < |db.cascades| :: after.cascades[c] == db.cascades[c])
    && after.cascades[|db.cascades|] == Cascade(CascadeRef(|db.cascades|), db.head.value, Open)
    && after.refs == db.refs[CascadeRef(|db.cascades|) := db.head.value]
    && after.rows == db.rows && after.store == db.store && after.head == db.head
    && after.planFrozen == db.planFrozen && after.blocks == db.blocks
  }

  /** When begin refuses, with which reason, and what it leaves otherwise. */
  lemma BeginExactly(db: Db, allowAllFrozen: bool)
    ensures Begin(db, allowAllFrozen) == Refused(AlreadyOpen) <==> !NoneOpen(db.cascades)
    ensures Begin(db, allowAllFrozen) == Refused(FrozenTruthRefusal)
       <==> NoneOpen(db.cascades) && (db.planFrozen || (!allowAllFrozen && !NotFullyFrozen(db.rows)))
    ensures Begin(db, allowAllFrozen) == Refused(NoHead)
       <==> NoneOpen(db.cascades) && !db.planFrozen && (allowAllFrozen || NotFullyFrozen(db.rows)) && db.head.None?
    ensures Begin(db, allowAllFrozen).Accepted?
       <==> NoneOpen(db.cascades) && !db.planFrozen && (allowAllFrozen || NotFullyFrozen(db.rows))
            && db.head.Some? && CascadeRef(|db.cascades|) !in db.refs
    ensures Begin(db, allowAllFrozen).Accepted? ==> OpenedFrom(db, Begin(db, allowAllFrozen).db)
  {
  }

  /** plan_unfreeze is for plans whose steps are all frozen; it leaves plan.status thawed
      and a cascade open, and no step is thawed by it. */
  lemma UnfreezeExactly(db: Db)
    ensures Unfreeze(db).Accepted?
       <==> !NotFullyFrozen(db.rows) && NoneOpen(db.cascades) && db.head.Some? && CascadeRef(|db.cascades|) !in db.refs
    ensures Unfreeze(db).Accepted? ==>
              !Unfreeze(db).db.planFrozen && OpenedFrom(db.(planFrozen := false), Unfreeze(db).db)
  {
    BeginExactly(db.(planFrozen := false), true);
  }

  // ----- closing -----

  /** Each block keeps everything but, if it was compiled under c at the tip, its tag. */
  predicate PromotedFrom(before: map<Id, Block>, after: map<Id, Block>, c: nat, tip: nat) {
    && after.Keys == before.Keys
    && forall b | b in before ::
         && after[b].revision == before[b].revision && after[b].nodePath == before[b].nodePath
         && after[b].definitions == before[b].definitions && after[b].identity == before[b].identity
         && (before[b].cascade == Some(c) && before[b].revision == Some(tip) ==> after[b].cascade == None)
         && (before[b].cascade != Some(c) || before[b].revision != Some(tip) ==>
               after[b].cascade == before[b].cascade)
  }

  /** after is db with its open cascade c committed: head at the tip, the reference gone,
      plan.status, rows and history as they were. */
  predicate CommittedFrom(db: Db, after: Db, c: nat) {
    && c < |db.cascades| && db.cascades[c].status == Open && db.cascades[c].name in db.refs
    && after.head == Some(db.refs[db.cascades[c].name])
    && after.refs == db.refs - {db.cascades[c].name}
    && ClosedAs(db.cascades, after.cascades, c, Committed)
    && PromotedFrom(db.blocks, after.blocks, c, db.refs[db.cascades[c].name])
    && after.rows == db.rows && after.store == db.store && after.planFrozen == db.planFrozen
  }

  lemma CommitExactly(db: Db, green: bool)
    ensures Commit(db, green) == Refused(NoOpenCascade) <==> NoneOpen(db.cascades)
    ensures Commit(db, green) == Refused(GateRed) <==> !NoneOpen(db.cascades) && !green
    ensures Commit(db, green).Accepted? ==>
              green && FindOpen(db.cascades).Some?
              && CommittedFrom(db, Commit(db, green).db, FindOpen(db.cascades).value)
  {
  }

  /** after is db with cascade c aborted and these rows: the reference gone, everything
      but the rows and the record as it was. */
  predicate AbortedFrom(db: Db, after: Db, c: nat, rows: Table) {
    && c < |db.cascades|
    && after.rows == rows && after.refs == db.refs - {db.cascades[c].name}
    && ClosedAs(db.cascades, after.cascades, c, Aborted)
    && after.store == db.store && after.head == db.head
    && after.planFrozen == db.planFrozen && after.blocks == db.blocks
  }

  lemma AbortExactly(db: Db)
    requires Inv(db)
    ensures Abort(db) == Refused(NoOpenCascade) <==> NoneOpen(db.cascades)
    ensures Abort(db).Accepted? ==>
              FindOpen(db.cascades).Some? && db.cascades[FindOpen(db.cascades).value].status == Open
              && AbortedFrom(db, Abort(db).db, FindOpen(db.cascades).value, Abort(db).db.rows)
  {
  }

  // ----- admission -----

  predicate NoStepFrozen(rows: Table) {
    forall u | u in rows && rows[u].StepRow? :: rows[u].step.status != Frozen
  }

  /** Step u is in draft or ready for review, no step above or below it is frozen, and the
      path of every step below it resolves. */
  ghost predicate OpenToDirectEdits(nodes: Nodes, u: Id) {
    && u in nodes && (nodes[u].status == Draft || nodes[u].status == ReadyForReview)
    && (forall a: Id | StrictlyAbove(nodes, a, u) && a in nodes :: nodes[a].status != Frozen)
    && (forall d: Id | StrictlyAbove(nodes, u, d) && d in nodes ::
          nodes[d].status != Frozen && ParentPath(nodes, nodes[d]).Some?)
  }

  lemma OpenToDirectEditsIff(nodes: Nodes, u: Id)
    ensures OpenToDirectEdits(nodes, u) <==> DirectlyMutable(nodes, u) && PathsResolve(nodes, u)
  {
    if OpenToDirectEdits(nodes, u) {
      assert forall d | d in Descendants(nodes, u) :: StrictlyAbove(nodes, u, d) && d in nodes;
    } else if DirectlyMutable(nodes, u) && PathsResolve(nodes, u) {
      forall d: Id | StrictlyAbove(nodes, u, d) && d in nodes
        ensures nodes[d].status != Frozen && ParentPath(nodes, nodes[d]).Some?
      {
        assert d in Descendants(nodes, u) && TieBreak(nodes, d).Some? && !FrozenAt(nodes, d);
      }
    }
  }

  /** The admission rule, kind by kind. */
  lemma AdmitsExactly(db: Db, target: Target, cascade: Option<nat>)
    ensures target.UnknownTarget? ==> !Admits(db, target, cascade)
    ensures !target.UnknownTarget? && cascade.Some? ==>
              (Admits(db, target, cascade) <==> FindOpen(db.cascades) == cascade)
    ensures cascade.None? && (target.ConceptTarget? || target.RelationTarget?) ==> !Admits(db, target, cascade)
    ensures cascade.None? && target.ParagraphTarget? ==>
              (Admits(db, target, cascade) <==> NoneOpen(db.cascades) && NoStepFrozen(db.rows))
    ensures cascade.None? && target.StepTarget? ==>
              (Admits(db, target, cascade)
               <==> NoneOpen(db.cascades) && target.uuid.Some? && OpenToDirectEdits(Steps(db.rows), target.uuid.value))
  {
    if cascade.None? && target.StepTarget? && target.uuid.Some? {
      OpenToDirectEditsIff(Steps(db.rows), target.uuid.value);
    }
    if cascade.None? && target.ParagraphTarget? && NoStepFrozen(db.rows) {
      assert forall u | u in Steps(db.rows) :: !FrozenAt(Steps(db.rows), u);
    }
    if cascade.None? && target.ParagraphTarget? && !NoStepFrozen(db.rows) {
      var u :| u in db.rows && db.rows[u].StepRow? && db.rows[u].step.status == Frozen;
      assert u in Steps(db.rows) && FrozenAt(Steps(db.rows), u);
    }
  }

  // ----- writing -----

  /** The write cannot have changed the block: none of the paths is the one it is anchored
      at or that of a definition it embeds. */
  predicate KeepsBlock(block: Block, paths: seq<string>) {
    forall i | 0 <= i < |paths| :: paths[i] != block.nodePath && paths[i] !in block.definitions
  }

  /** The blocks of the old working pair that the write cannot have changed are at the new
      revision; no other block and no other field changed. */
  predicate CarriedOver(before: map<Id, Block>, after: map<Id, Block>, fromRevision: Option<nat>, toRevision: nat,
                        cascade: Option<nat>, paths: Option<seq<string>>)
  {
    && after.Keys == before.Keys
    && forall b | b in before ::
         && after[b].cascade == before[b].cascade && after[b].nodePath == before[b].nodePath
         && after[b].definitions == before[b].definitions && after[b].identity == before[b].identity
         && (if before[b].revision == fromRevision && before[b].cascade == cascade
                && paths.Some? && KeepsBlock(before[b], paths.value)
             then after[b].revision == Some(toRevision)
             else after[b].revision == before[b].revision)
  }

  lemma CarryExactly(blocks: map<Id, Block>, fromRevision: Option<nat>, toRevision: nat,
                     cascade: Option<nat>, paths: Option<seq<string>>)
    ensures CarriedOver(blocks, Carry(blocks, fromRevision, toRevision, cascade, paths),
                        fromRevision, toRevision, cascade, paths)
  {
    if paths.Some? {
      assert forall b | b in blocks :: Untouched(blocks[b], paths.value) <==> KeepsBlock(blocks[b], paths.value);
    }
  }

  /** The revision a write is made at: the tip of its cascade, or head. */
  function WrittenAt(db: Db, cascade: Option<nat>): Option<nat> {
    match cascade
    case None => db.head
    case Some(c) => if CascadeRef(c) in db.refs then Some(db.refs[CascadeRef(c)]) else None
  }

  /** after is db with these rows and one more revision on top of the one written at; the
      cascade's reference moved to it, or head did, and nothing else but the blocks. */
  predicate WrittenFrom(db: Db, after: Db, req: Request, rows: Table) {
    var rev := |db.store.revisions|;
    && after.rows == rows && after.cascades == db.cascades
    && db.store.versions <= after.store.versions && db.store.revisions <= after.store.revisions
    && |after.store.revisions| == rev + 1
    && after.store.revisions[rev].parent == WrittenAt(db, req.cascade)
    && (req.cascade.None? ==> after.head == Some(rev) && after.refs == db.refs)
    && (req.cascade.Some? ==> after.head == db.head && after.refs == db.refs[CascadeRef(req.cascade.value) := rev])
    && (req.syncsPlanStatus ==> (after.planFrozen <==> !NotFullyFrozen(rows)))
    && (!req.syncsPlanStatus ==> after.planFrozen == db.planFrozen)
    && CarriedOver(db.blocks, after.blocks, WrittenAt(db, req.cascade), rev, req.cascade, req.carry)
  }

  lemma OneMoreRevision(s: Store, changes: seq<Change>, parent: Option<nat>)
    requires Valid(s)
    ensures var t := Record(s, changes, parent);
            Extends(s, t) && |t.revisions| == |s.revisions| + 1 && t.revisions[|s.revisions|].parent == parent
  {
    InsertAllFacts(s, changes);
  }

  /** A write is accepted exactly when it is admitted, where it asks, and its statements get
      through. */
  lemma WriteAcceptedIff(db: Db, req: Request)
    requires Inv(db)
    ensures Write(db, req).Accepted?
       <==> (req.checked || req.cascade.Some? ==> Admits(db, req.target, req.cascade)) && Effect(db.rows, req).Some?
  {
  }

  lemma WriteCarries(db: Db, req: Request)
    requires Inv(db) && Write(db, req).Accepted?
    ensures Write(db, req).db.blocks
         == Carry(db.blocks, WrittenAt(db, req.cascade), |db.store.revisions|, req.cascade, req.carry)
  {
    match req.cascade {
      case None =>
      case Some(c) => assert OpenCascadeOk(db, c);
    }
  }

  lemma WriteLeavesBlocks(db: Db, req: Request)
    requires Inv(db) && Write(db, req).Accepted?
    ensures CarriedOver(db.blocks, Write(db, req).db.blocks, WrittenAt(db, req.cascade), |db.store.revisions|,
                        req.cascade, req.carry)
  {
    WriteCarries(db, req);
    CarryExactly(db.blocks, WrittenAt(db, req.cascade), |db.store.revisions|, req.cascade, req.carry);
  }

  /** What an accepted write leaves in every table. */
  lemma WriteExactly(db: Db, req: Request)
    requires Inv(db) && Write(db, req).Accepted?
    ensures Effect(db.rows, req).Some? && WrittenFrom(db, Write(db, req).db, req, Effect(db.rows, req).value.0)
  {
    var (rows, changes) := Effect(db.rows, req).value;
    OneMoreRevision(db.store, changes, WrittenAt(db, req.cascade));
    WriteLeavesBlocks(db, req);
  }

  /** Revision r holds these changes in order. */
  predicate RevisionHolds(s: Store, r: nat, changes: seq<Change>) {
    && r < |s.revisions| && |s.revisions[r].versions| == |changes|
    && forall i | 0 <= i < |changes| ::
         s.revisions[r].versions[i] < |s.versions|
         && s.versions[s.revisions[r].versions[i]] == NodeVersion(changes[i].0, changes[i].1)
  }

  /** Recording edited rows under cascade c: the updates' rows, one revision on top of the
      tip that holds the changes and then what the updates record, the reference at it. */
  predicate RecordedUnder(db: Db, after: Db, c: nat, updated: (Table, seq<Change>), changes: seq<Change>,
                          carry: Option<seq<string>>)
    requires c < |db.cascades| && db.cascades[c].name in db.refs
  {
    var name, rev := db.cascades[c].name, |db.store.revisions|;
    && after.rows == updated.0 && after.head == db.head && after.cascades == db.cascades
    && after.planFrozen == db.planFrozen && after.refs == db.refs[name := rev]
    && |after.store.revisions| == rev + 1 && after.store.revisions[rev].parent == Some(db.refs[name])
    && RevisionHolds(after.store, rev, changes + updated.1)
    && CarriedOver(db.blocks, after.blocks, Some(db.refs[name]), rev, Some(c), carry)
  }

  lemma RecordInCascadeExactly(db: Db, c: nat, changes: seq<Change>, updates: seq<StatusUpdate>,
                               carry: Option<seq<string>>)
    requires Valid(db.store) && c < |db.cascades|
    ensures var outcome := RecordInCascade(db, c, changes, updates, carry);
            var found := db.cascades[c].name in db.refs;
            && (outcome == Refused(NoOpenCascade) <==> db.cascades[c].status != Open)
            && (outcome == Refused(RefNotFound) <==> db.cascades[c].status == Open && !found)
            && (outcome == Refused(IllegalUpdate)
                <==> db.cascades[c].status == Open && found && ApplyUpdates(db.rows, updates).None?)
            && (outcome.Accepted? ==>
                  found && ApplyUpdates(db.rows, updates).Some?
                  && RecordedUnder(db, outcome.db, c, ApplyUpdates(db.rows, updates).value, changes, carry))
  {
    var name := db.cascades[c].name;
    if name in db.refs && ApplyUpdates(db.rows, updates).Some? {
      InsertAllFacts(db.store, changes + ApplyUpdates(db.rows, updates).value.1);
      CarryExactly(db.blocks, Some(db.refs[name]), |db.store.revisions|, Some(c), carry);
    }
  }

  /** Inside a cascade, or directly while none is open, a block is current after a write
      exactly if it was before and the write carried it: none of the changed paths is its
      own or that of a definition in it. Without changed paths every block goes stale. */
  lemma WriteKeepsCurrencyIff(db: Db, req: Request, b: Id)
    requires Inv(db) && Write(db, req).Accepted?
    requires req.cascade.None? ==> NoneOpen(db.cascades)
    ensures b in db.blocks <==> b in Write(db, req).db.blocks
    ensures Current(Write(db, req).db, b)
       <==> Current(db, b) && req.carry.Some?
            && forall i | 0 <= i < |req.carry.value| ::
                 req.carry.value[i] != db.blocks[b].nodePath && req.carry.value[i] !in db.blocks[b].definitions
  {
    WriteExactly(db, req);
    if req.cascade.Some? { assert OpenCascadeOk(db, req.cascade.value); }
    if b in db.blocks {
      assert InTable(db, db.blocks[b]);
    }
  }

  // ----- storing a block -----

  /** The pair a stored block is tagged with. */
  function TagPair(db: Db, underCascade: bool): (Option<nat>, Option<nat>) {
    if underCascade && FindOpen(db.cascades).Some? then (Working(db), FindOpen(db.cascades)) else (db.head, None)
  }

  /** Storing a block adds it under the working pair or at head, unless its id is taken or
      an equal one is stored there; stored under the working pair it is current. */
  lemma StoreBlockExactly(db: Db, id: Id, block: Block, under: bool)
    ensures var after := StoreBlock(db, id, block, under);
            var (revision, cascade) := TagPair(db, under);
            && after == db.(blocks := after.blocks)
            && after.blocks - {id} == db.blocks - {id}
            && (id in db.blocks ==> after == db)
            && (id !in db.blocks ==>
                  (id !in after.blocks
                   <==> exists b | b in db.blocks ::
                          db.blocks[b].revision == revision && db.blocks[b].cascade == cascade
                          && db.blocks[b].nodePath == block.nodePath && db.blocks[b].identity == block.identity))
            && (id !in db.blocks && id in after.blocks ==>
                  && after.blocks[id] == Block(revision, cascade, block.nodePath, block.definitions, block.identity)
                  && (Current(after, id) <==> under || NoneOpen(db.cascades)))
  {
    var after := StoreBlock(db, id, block, under);
    assert Working(after) == Working(db);
    assert id !in after.blocks ==> after.blocks == db.blocks;
  }
}
