/** Runs of commands: the invariant every run keeps, and what follows from it. */
module Runs {
  import opened Rows
  import opened VersionStore
  import opened Restore
  import opened Propagation
  import opened Protocol
  import opened Outcomes
  import opened WriteSoundness

  datatype Op =
    | BeginOp(allowAllFrozen: bool)
    | UnfreezeOp
    | CommitOp(green: bool)
    | AbortOp
    | WriteOp(req: Request)
    | StoreBlockOp(id: Id, block: Block, underCascade: bool)

  ghost function Attempt(db: Db, op: Op): Outcome
    requires Inv(db)
  {
    match op
    case BeginOp(all) => Begin(db, all)
    case UnfreezeOp => Unfreeze(db)
    case CommitOp(green) => Commit(db, green)
    case AbortOp => Abort(db)
    case WriteOp(req) => Write(db, req)
    case StoreBlockOp(id, block, under) => Accepted(StoreBlock(db, id, block, under))
  }

  /** A refused command is rolled back. */
  ghost function Apply(db: Db, op: Op): Db
    requires Inv(db)
  {
    match Attempt(db, op)
    case Accepted(next) => next
    case Refused(_) => db
  }

  // ----- every command keeps the invariant -----

  lemma BeginKeepsInv(db: Db, allowAllFrozen: bool)
    requires Inv(db) && Begin(db, allowAllFrozen).Accepted?
    ensures Inv(Begin(db, allowAllFrozen).db)
  {
    var after := Begin(db, allowAllFrozen).db;
    var c := |db.cascades|;
    assert OpenCascadeOk(after, c);
    assert forall b | b in db.blocks :: InTable(after, db.blocks[b]);
  }

  lemma CommitKeepsInv(db: Db, green: bool)
    requires Inv(db) && Commit(db, green).Accepted?
    ensures Inv(Commit(db, green).db)
  {
    var after := Commit(db, green).db;
    var c := FindOpen(db.cascades).value;
    assert OpenCascadeOk(db, c);
    forall b | b in after.blocks
      ensures InTable(after, after.blocks[b])
    {
      assert InTable(db, db.blocks[b]);
    }
  }

  lemma AbortKeepsInv(db: Db)
    requires Inv(db) && Abort(db).Accepted?
    ensures Inv(Abort(db).db)
  {
    var after := Abort(db).db;
    var c := FindOpen(db.cascades).value;
    assert OpenCascadeOk(db, c);
    var name := db.cascades[c].name;
    var base, tip := StateOf(db.store, db.cascades[c].base), StateOf(db.store, db.refs[name]);
    StateInRange(db.store, db.cascades[c].base, base);
    RestoreKeepsUnique(db.store, db.rows, base, tip);
    assert forall b | b in after.blocks :: InTable(db, db.blocks[b]) ==> InTable(after, after.blocks[b]);
  }

  lemma {:induction false} RecordKeepsKinds(s: Store, changes: seq<Change>)
    requires AllRestorable(changes) && AllKindsKnown(s.versions)
    ensures AllKindsKnown(InsertAll(s, changes).0.versions)
  {
    if changes != [] {
      var k := |changes| - 1;
      RecordKeepsKinds(s, changes[..k]);
      assert RowOf(changes[k].1.content).Some?;
    }
  }

  lemma CarryKeepsBlocks(db: Db, after: Db, fromRevision: Option<nat>, rev: nat,
                         cascade: Option<nat>, paths: Option<seq<string>>)
    requires forall b | b in db.blocks :: InTable(db, db.blocks[b])
    requires rev == |db.store.revisions| < |after.store.revisions| && after.cascades == db.cascades
    requires UniqueBlocks(db.blocks)
    requires after.blocks == Carry(db.blocks, fromRevision, rev, cascade, paths)
    ensures forall b | b in after.blocks :: InTable(after, after.blocks[b])
    ensures UniqueBlocks(after.blocks)
  {
    forall b | b in after.blocks
      ensures InTable(after, after.blocks[b])
    {
      assert InTable(db, db.blocks[b]);
    }
    forall a, b | a in after.blocks && b in after.blocks && a != b
      ensures !SameIdentity(after.blocks[a], after.blocks[b])
    {
      assert InTable(db, db.blocks[a]) && InTable(db, db.blocks[b]);
      assert !SameIdentity(db.blocks[a], db.blocks[b]);
    }
  }

  /** A new revision on top of at is below whatever at is below, and is no ancestor of
      any older revision. */
  lemma NewRevisionAncestry(s: Store, changes: seq<Change>, at: nat)
    requires Valid(s) && at < |s.revisions|
    ensures var t := Record(s, changes, Some(at));
            var rev := |s.revisions|;
            && Valid(t) && Extends(s, t) && |t.revisions| == rev + 1
            && (forall r, a | 0 <= r < rev && a >= 0 :: Descends(t, r, a) <==> Descends(s, r, a))
            && (forall a | 0 <= a < rev :: Descends(t, rev, a) <==> Descends(s, at, a))
            && (forall r | 0 <= r < rev :: !Descends(t, r, rev))
  {
    var t := Record(s, changes, Some(at));
    var rev := |s.revisions|;
    RecordKeepsChanges(s, changes, Some(at));
    forall r, a | 0 <= r < rev && a >= 0
      ensures Descends(t, r, a) <==> Descends(s, r, a)
    {
      DescendsStable(s, t, r, a);
    }
    forall r | 0 <= r < rev
      ensures !Descends(t, r, rev)
    {
      if Descends(t, r, rev) { DescendsIsOlder(t, r, rev); }
    }
    assert ValidRevision(t, rev);
  }

  lemma WriteInCascadeKeepsInv(db: Db, req: Request)
    requires Inv(db) && Write(db, req).Accepted? && req.cascade.Some?
    ensures Inv(Write(db, req).db)
  {
    var after := Write(db, req).db;
    var c := req.cascade.value;
    var (rows, changes) := Effect(db.rows, req).value;
    EffectReflects(db.rows, req);
    assert OpenCascadeOk(db, c);
    var tip := db.refs[CascadeRef(c)];
    RecordKeepsKinds(db.store, changes);
    NewRevisionAncestry(db.store, changes, tip);
    CarryKeepsBlocks(db, after, Some(tip), |db.store.revisions|, Some(c), req.carry);
    assert OpenCascadeOk(after, c);
  }

  lemma WriteOnHeadKeepsInv(db: Db, req: Request)
    requires Inv(db) && Write(db, req).Accepted? && req.cascade.None?
    ensures Inv(Write(db, req).db)
  {
    var after := Write(db, req).db;
    var (rows, changes) := Effect(db.rows, req).value;
    EffectReflects(db.rows, req);
    RecordKeepsKinds(db.store, changes);
    RecordKeepsChanges(db.store, changes, db.head);
    CarryKeepsBlocks(db, after, db.head, |db.store.revisions|, None, req.carry);
    match FindOpen(db.cascades) {
      case None =>
      case Some(c) =>
        assert OpenCascadeOk(db, c);
        NewRevisionAncestry(db.store, changes, db.head.value);
        assert OpenCascadeOk(after, c);
    }
  }

  lemma StoringKeepsBlocksUnique(blocks: map<Id, Block>, id: Id, stored: Block)
    requires UniqueBlocks(blocks) && id !in blocks
    requires forall b | b in blocks :: !SameIdentity(blocks[b], stored)
    ensures UniqueBlocks(blocks[id := stored])
  {
  }

  lemma InvWithBlocks(db: Db, blocks: map<Id, Block>)
    requires Inv(db) && UniqueBlocks(blocks)
    requires forall b | b in blocks :: InTable(db, blocks[b])
    ensures Inv(db.(blocks := blocks))
  {
    var after := db.(blocks := blocks);
    assert forall c | 0 <= c < |db.cascades| && db.cascades[c].status == Open ::
        OpenCascadeOk(db, c) && OpenCascadeOk(after, c);
    assert forall b | b in blocks :: InTable(db, blocks[b]) && InTable(after, blocks[b]);
  }

  lemma StoreBlockKeepsInv(db: Db, id: Id, block: Block, under: bool)
    requires Inv(db)
    ensures Inv(StoreBlock(db, id, block, under))
  {
    var after := StoreBlock(db, id, block, under);
    if after != db {
      WorkingInRange(db);
      StoringKeepsBlocksUnique(db.blocks, id, after.blocks[id]);
      InvWithBlocks(db, after.blocks);
    }
  }

  lemma UnfreezeKeepsInv(db: Db)
    requires Inv(db) && Unfreeze(db).Accepted?
    ensures Inv(Unfreeze(db).db)
  {
    var draft := db.(planFrozen := false);
    assert forall b | b in draft.blocks :: InTable(db, db.blocks[b]);
    BeginKeepsInv(draft, true);
  }

  /** Every command, accepted or refused, keeps the invariant. */
  lemma InvKept(db: Db, op: Op)
    requires Inv(db)
    ensures Inv(Apply(db, op))
  {
    if Attempt(db, op).Accepted? {
      match op {
        case BeginOp(all) => BeginKeepsInv(db, all);
        case UnfreezeOp => UnfreezeKeepsInv(db);
        case CommitOp(green) => CommitKeepsInv(db, green);
        case AbortOp => AbortKeepsInv(db);
        case WriteOp(req) =>
          if req.cascade.Some? { WriteInCascadeKeepsInv(db, req); } else { WriteOnHeadKeepsInv(db, req); }
        case StoreBlockOp(id, block, under) => StoreBlockKeepsInv(db, id, block, under);
      }
    }
  }

  // ----- lifecycle -----

  ghost function Run(db: Db, ops: seq<Op>): (after: Db)
    requires Inv(db)
    ensures Inv(after)
  {
    if ops == [] then db
    else
      var before := Run(db, ops[..|ops| - 1]);
      InvKept(before, ops[|ops| - 1]);
      Apply(before, ops[|ops| - 1])
  }

  /** Revisions and node versions are only added, and a cascade keeps its name and base
      forever and its status once it is closed. */
  predicate Later(db: Db, after: Db) {
    && Extends(db.store, after.store)
    && |db.cascades| <= |after.cascades|
    && forall c | 0 <= c < |db.cascades| ::
         && after.cascades[c].name == db.cascades[c].name && after.cascades[c].base == db.cascades[c].base
         && (db.cascades[c].status != Open ==> after.cascades[c].status == db.cascades[c].status)
  }

  lemma WriteIsLater(db: Db, req: Request)
    requires Inv(db) && Write(db, req).Accepted?
    ensures Later(db, Write(db, req).db)
  {
    WorkingInRange(db);
    var (rows, changes) := Effect(db.rows, req).value;
    RecordKeepsChanges(db.store, changes, if req.cascade.Some? then Working(db) else db.head);
  }

  lemma OpeningIsLater(db: Db, allowAllFrozen: bool)
    requires Begin(db, allowAllFrozen).Accepted?
    ensures Later(db, Begin(db, allowAllFrozen).db)
  {
  }

  lemma ClosingIsLater(db: Db, c: nat, status: CascadeStatus, after: Db)
    requires c < |db.cascades| && db.cascades[c].status == Open
    requires after.store == db.store && after.cascades == Close(db.cascades, c, status)
    ensures Later(db, after)
  {
  }

  lemma LaterKept(db: Db, op: Op)
    requires Inv(db)
    ensures Later(db, Apply(db, op))
  {
    match Attempt(db, op) {
      case Refused(_) =>
      case Accepted(after) =>
        match op {
          case BeginOp(all) => OpeningIsLater(db, all);
          case UnfreezeOp => OpeningIsLater(db.(planFrozen := false), true);
          case CommitOp(green) => ClosingIsLater(db, FindOpen(db.cascades).value, Committed, after);
          case AbortOp => ClosingIsLater(db, FindOpen(db.cascades).value, Aborted, after);
          case WriteOp(req) => WriteIsLater(db, req);
          case StoreBlockOp(id, block, under) =>
        }
    }
  }

  lemma LaterTransitive(a: Db, b: Db, c: Db)
    requires Later(a, b) && Later(b, c)
    ensures Later(a, c)
  {
  }

  lemma WorkingInRange(db: Db)
    requires Inv(db)
    ensures InRange(db.store, Working(db))
    ensures FindOpen(db.cascades).Some? ==>
              Working(db) == Some(db.refs[CascadeRef(FindOpen(db.cascades).value)])
  {
    match FindOpen(db.cascades) {
      case None =>
      case Some(c) => assert OpenCascadeOk(db, c);
    }
  }

  lemma FindOpenIs(cascades: seq<Cascade>, c: nat)
    requires c < |cascades| && cascades[c].status == Open
    requires forall d | 0 <= d < |cascades| && cascades[d].status == Open :: d == c
    ensures FindOpen(cascades) == Some(c)
  {
  }

  /** Over every run history only grows and closed cascades stay closed. */
  lemma {:induction false} LaterOverRuns(db: Db, ops: seq<Op>)
    requires Inv(db)
    ensures Later(db, Run(db, ops))
  {
    if ops != [] {
      var before := Run(db, ops[..|ops| - 1]);
      LaterOverRuns(db, ops[..|ops| - 1]);
      LaterKept(before, ops[|ops| - 1]);
      LaterTransitive(db, before, Run(db, ops));
    }
  }

  /** At most one cascade is open, and a reference exists exactly while its cascade is
      open. So opening never trips over the unique index on open cascades or over an old
      reference, closing finds its reference and its one open row, and the re-reads after
      begin, commit and abort see what they expect. */
  ghost predicate LifecycleHolds(db: Db, allowAllFrozen: bool, green: bool)
    requires Inv(db)
  {
    && (forall c, d | 0 <= c < |db.cascades| && 0 <= d < |db.cascades|
          && db.cascades[c].status == Open && db.cascades[d].status == Open :: c == d)
    && (forall c: nat :: CascadeRef(c) in db.refs <==> c < |db.cascades| && db.cascades[c].status == Open)
    && Begin(db, allowAllFrozen) != Refused(UniqueViolation)
    && (Begin(db, allowAllFrozen).Accepted? ==>
          FindOpen(Begin(db, allowAllFrozen).db.cascades) == Some(|db.cascades|))
    && Commit(db, green) != Refused(RefNotFound)
    && (Commit(db, green).Accepted? ==> FindOpen(Commit(db, green).db.cascades).None?)
    && (Abort(db).Accepted? ==> FindOpen(Abort(db).db.cascades).None?)
  }

  lemma LifecycleFacts(db: Db, allowAllFrozen: bool, green: bool)
    requires Inv(db)
    ensures LifecycleHolds(db, allowAllFrozen, green)
  {
    ReferencesFollowCascades(db);
    ClosingClosesTheOne(db, green);
    OpeningOpensTheOne(db, allowAllFrozen);
  }

  lemma OpeningOpensTheOne(db: Db, allowAllFrozen: bool)
    requires CascadeRef(|db.cascades|) !in db.refs
    ensures Begin(db, allowAllFrozen) != Refused(UniqueViolation)
    ensures Begin(db, allowAllFrozen).Accepted? ==>
              FindOpen(Begin(db, allowAllFrozen).db.cascades) == Some(|db.cascades|)
  {
  }

  /** The lifecycle rules hold in every state a run reaches. */
  lemma LifecycleOverRuns(db: Db, ops: seq<Op>, allowAllFrozen: bool, green: bool)
    requires Inv(db)
    ensures LifecycleHolds(Run(db, ops), allowAllFrozen, green)
  {
    LifecycleFacts(Run(db, ops), allowAllFrozen, green);
  }

  lemma ReferencesFollowCascades(db: Db)
    requires Inv(db)
    ensures forall c: nat :: CascadeRef(c) in db.refs <==> c < |db.cascades| && db.cascades[c].status == Open
  {
    forall c: nat
      ensures CascadeRef(c) in db.refs <==> c < |db.cascades| && db.cascades[c].status == Open
    {
      if c < |db.cascades| && db.cascades[c].status == Open {
        assert OpenCascadeOk(db, c);
      }
    }
  }

  lemma ClosingClosesTheOne(db: Db, green: bool)
    requires Inv(db)
    ensures Commit(db, green).Accepted? ==> FindOpen(Commit(db, green).db.cascades).None?
    ensures Abort(db).Accepted? ==> FindOpen(Abort(db).db.cascades).None?
  {
    if FindOpen(db.cascades).Some? {
      NoneOpenAfterClosing(db.cascades, FindOpen(db.cascades).value, Committed);
      NoneOpenAfterClosing(db.cascades, FindOpen(db.cascades).value, Aborted);
    }
  }

  lemma NoneOpenAfterClosing(cascades: seq<Cascade>, c: nat, status: CascadeStatus)
    requires c < |cascades| && status != Open
    requires forall d | 0 <= d < |cascades| && cascades[d].status == Open :: d == c
    ensures FindOpen(Close(cascades, c, status)).None?
  {
    var closed := Close(cascades, c, status);
    assert forall d | 0 <= d < |closed| :: closed[d].status != Open;
  }

  /** Over every run, what state_at may answer at an existing revision never changes. */
  lemma HistoryOverRuns(db: Db, ops: seq<Op>, at: nat)
    requires Inv(db) && at < |db.store.revisions|
    ensures var after := Run(db, ops);
            && at < |after.store.revisions|
            && (forall m :: IsStateAt(after.store, Some(at), m) <==> IsStateAt(db.store, Some(at), m))
            && (forall rows :: Agrees(after.store, Some(at), rows) <==> Agrees(db.store, Some(at), rows))
  {
    LaterOverRuns(db, ops);
    HistoryImmutable(db.store, Run(db, ops).store, Some(at));
  }

  // ----- commit -----

  /** A refused commit changes nothing. A commit moves head to the tip, closes the only
      open cascade as committed and drops its reference; blocks compiled under it at the
      tip lose their tag, and nothing else changes: no row, no history, no plan.status. */
  lemma CommitAllOrNothing(db: Db, green: bool)
    requires Inv(db)
    ensures !green || FindOpen(db.cascades).None? ==> Apply(db, CommitOp(green)) == db
    ensures Commit(db, green).Refused? ==> Apply(db, CommitOp(green)) == db
    ensures Commit(db, green).Accepted? ==>
              var after := Commit(db, green).db;
              && green && FindOpen(db.cascades).Some?
              && after.head == Working(db) && after.rows == db.rows && after.store == db.store
              && after.planFrozen == db.planFrozen
              && FindOpen(after.cascades).None? && after.refs == map[]
              && Working(after) == Working(db)
              && (var c := FindOpen(db.cascades).value;
                  && |after.cascades| == |db.cascades|
                  && after.cascades[c] == db.cascades[c].(status := Committed)
                  && (forall d | 0 <= d < |db.cascades| && d != c :: after.cascades[d] == db.cascades[d])
                  && after.blocks.Keys == db.blocks.Keys
                  && forall b | b in db.blocks ::
                       after.blocks[b] == if db.blocks[b].cascade == Some(c) && db.blocks[b].revision == Working(db)
                                          then db.blocks[b].(cascade := None) else db.blocks[b])
  {
    WorkingInRange(db);
    CommitExactly(db, green);
    ClosingClosesTheOne(db, green);
    if Commit(db, green).Accepted? {
      NoOtherReference(db);
    }
  }

  lemma NoOtherReference(db: Db)
    requires Inv(db) && FindOpen(db.cascades).Some?
    ensures db.refs - {CascadeRef(FindOpen(db.cascades).value)} == map[]
  {
    var c := FindOpen(db.cascades).value;
    assert forall n | n in db.refs :: n == CascadeRef(n.cascade);
    assert (db.refs - {CascadeRef(c)}).Keys == {};
  }

  /** A commit is a fast-forward, so that no published revision is lost, exactly when
      head still is the base of the cascade. */
  lemma CommitFastForwardIff(db: Db, green: bool)
    requires Inv(db) && Commit(db, green).Accepted?
    ensures var c := FindOpen(db.cascades).value;
            var after := Commit(db, green).db;
            && db.head.Some? && after.head.Some?
            && after.head.value < |after.store.revisions|
            && (Descends(after.store, after.head.value, db.head.value)
                <==> db.head.value == db.cascades[c].base)
  {
    assert OpenCascadeOk(db, FindOpen(db.cascades).value);
  }

  // ----- agreement -----

  /** Some rows can be loaded at a revision without breaking a unique index. */
  ghost predicate Loads(s: Store, at: nat)
    requires Valid(s) && at < |s.revisions|
  {
    exists rows: Table :: UniqueKeys(rows) && Agrees(s, Some(at), rows)
  }

  /** No block tagged as head data carries a revision younger than head. */
  predicate BlocksPublished(db: Db) {
    forall b | b in db.blocks && db.blocks[b].cascade.None? && db.blocks[b].revision.Some? ::
      db.head.Some? && db.blocks[b].revision.value <= db.head.value
  }

  /** Rows, version store, head and open cascade belong together: state_at has one
      answer everywhere, the rows are that answer at the working revision, and head is
      the base of the open cascade. */
  ghost predicate Synced(db: Db) {
    && Inv(db) && Clean(db.store) && BlocksPublished(db)
    && InRange(db.store, Working(db)) && Agrees(db.store, Working(db), db.rows)
    && match FindOpen(db.cascades)
       case None => true
       case Some(c) => db.head == Some(db.cascades[c].base) && Loads(db.store, db.cascades[c].base)
  }

  /** The guard of one command: a write records no entity twice with different
      snapshots, records every row it changes, and does not run on head while a cascade
      is open. */
  ghost predicate Sound(db: Db, op: Op)
    requires Inv(db)
  {
    match op
    case WriteOp(req) =>
      Write(db, req).Accepted? ==>
        var (rows, changes) := Effect(db.rows, req).value;
        && NoConflict(changes) && SameOutside(changes, db.rows, rows)
        && (req.cascade.None? ==> FindOpen(db.cascades).None?)
    case _ => true
  }

  lemma BeginStaysSynced(db: Db, allowAllFrozen: bool)
    requires Synced(db) && Begin(db, allowAllFrozen).Accepted?
    ensures Synced(Begin(db, allowAllFrozen).db)
  {
    BeginKeepsInv(db, allowAllFrozen);
    var after := Begin(db, allowAllFrozen).db;
    assert after.cascades[..|db.cascades|] == db.cascades;
    assert Working(after) == db.head;
    assert Loads(after.store, db.head.value);
  }

  lemma UnfreezeStaysSynced(db: Db)
    requires Synced(db) && Unfreeze(db).Accepted?
    ensures Synced(Unfreeze(db).db)
  {
    var draft := db.(planFrozen := false);
    assert Inv(draft) by {
      assert forall b | b in draft.blocks :: InTable(db, db.blocks[b]);
    }
    assert Working(draft) == Working(db);
    BeginStaysSynced(draft, true);
  }

  lemma CommitStaysSynced(db: Db, green: bool)
    requires Synced(db) && Commit(db, green).Accepted?
    ensures Synced(Commit(db, green).db)
  {
    CommitKeepsInv(db, green);
    CommitAllOrNothing(db, green);
    var c := FindOpen(db.cascades).value;
    assert OpenCascadeOk(db, c);
    DescendsIsOlder(db.store, db.refs[CascadeRef(c)], db.cascades[c].base);
  }

  /** The rows an abort leaves: those of the base, whatever happened in the cascade. */
  lemma AbortReachesBase(db: Db, baseRows: Table)
    requires Synced(db) && Abort(db).Accepted?
    requires Agrees(db.store, Some(db.cascades[FindOpen(db.cascades).value].base), baseRows)
    ensures Abort(db).db.rows == baseRows
  {
    var c := FindOpen(db.cascades).value;
    assert OpenCascadeOk(db, c);
    var b, t := db.cascades[c].base, db.refs[db.cascades[c].name];
    var base, tip := StateOf(db.store, b), StateOf(db.store, t);
    BaseLoads(db, base, baseRows);
    AgreesIffEveryStateMaterialises(db.store, Some(t), db.rows);
    var d := DiffOf(base, tip);
    DiffLists(base, tip);
    RestoreRefinesFullReset(db.store, db.rows, base, tip, d.changed + d.removed, d.added);
  }

  /** The base of an open cascade can be reloaded, and gives the rows that agree with it. */
  lemma BaseLoads(db: Db, base: map<Id, nat>, baseRows: Table)
    requires Synced(db) && FindOpen(db.cascades).Some?
    requires IsStateAt(db.store, Some(db.cascades[FindOpen(db.cascades).value].base), base)
    requires Agrees(db.store, Some(db.cascades[FindOpen(db.cascades).value].base), baseRows)
    ensures Loadable(db.store, base) && FullReset(db.store, base) == baseRows && UniqueKeys(baseRows)
  {
    var b := db.cascades[FindOpen(db.cascades).value].base;
    var rows: Table :| UniqueKeys(rows) && Agrees(db.store, Some(b), rows);
    AgreesUnique(db.store, Some(b), rows, baseRows);
    AgreesIffEveryStateMaterialises(db.store, Some(b), rows);
    MaterialisedIsReset(db.store, base, rows);
  }

  lemma MaterialisedIsReset(s: Store, m: map<Id, nat>, rows: Table)
    requires Materialises(s, m, rows) && UniqueKeys(rows)
    ensures Loadable(s, m) && FullReset(s, m) == rows
  {
    forall e | e in m
      ensures m[e] < |s.versions| && e in rows && RowOf(s.versions[m[e]].snapshot.content) == Some(rows[e])
    {
      assert if e in m then m[e] < |s.versions| && Lookup(rows, e).Some?
                            && RowOf(s.versions[m[e]].snapshot.content) == Lookup(rows, e)
             else Lookup(rows, e) == None;
    }
    forall e: Id
      ensures Lookup(FullReset(s, m), e) == Lookup(rows, e)
    {
    }
    TablesEqual(FullReset(s, m), rows);
  }

  lemma AbortStaysSynced(db: Db)
    requires Synced(db) && Abort(db).Accepted?
    ensures Synced(Abort(db).db)
  {
    AbortKeepsInv(db);
    var after := Abort(db).db;
    var c := FindOpen(db.cascades).value;
    var b := db.cascades[c].base;
    var baseRows: Table :| UniqueKeys(baseRows) && Agrees(db.store, Some(b), baseRows);
    AbortReachesBase(db, baseRows);
    assert FindOpen(after.cascades).None?;
  }

  lemma StoreBlockStaysSynced(db: Db, id: Id, block: Block, under: bool)
    requires Synced(db)
    ensures Synced(StoreBlock(db, id, block, under))
  {
    StoreBlockKeepsInv(db, id, block, under);
    var after := StoreBlock(db, id, block, under);
    assert Working(after) == Working(db);
  }

  lemma WriteInCascadeSyncedIff(db: Db, req: Request)
    requires Synced(db) && Write(db, req).Accepted? && req.cascade.Some?
    ensures Synced(Write(db, req).db) <==> Sound(db, WriteOp(req))
  {
    WriteInCascadeKeepsInv(db, req);
    var after := Write(db, req).db;
    var c := req.cascade.value;
    assert OpenCascadeOk(db, c);
    var (rows, changes) := Effect(db.rows, req).value;
    EffectReflects(db.rows, req);
    RecordingAgreesIff(db.store, Working(db), db.rows, changes, rows);
    RecordKeepsChanges(db.store, changes, Working(db));
    HistoryImmutable(db.store, after.store, Some(db.cascades[c].base));
    assert Working(after) == Some(|db.store.revisions|);
    var baseRows: Table :| UniqueKeys(baseRows) && Agrees(db.store, Some(db.cascades[c].base), baseRows);
    assert Agrees(after.store, Some(db.cascades[c].base), baseRows);
  }

  lemma WriteOnHeadSyncedIff(db: Db, req: Request)
    requires Synced(db) && Write(db, req).Accepted? && req.cascade.None?
    ensures Synced(Write(db, req).db) <==> Sound(db, WriteOp(req))
  {
    WriteOnHeadKeepsInv(db, req);
    var after := Write(db, req).db;
    var (rows, changes) := Effect(db.rows, req).value;
    EffectReflects(db.rows, req);
    match FindOpen(db.cascades) {
      case None =>
        RecordingAgreesIff(db.store, db.head, db.rows, changes, rows);
        RecordKeepsChanges(db.store, changes, db.head);
        assert forall b | b in db.blocks :: InTable(db, db.blocks[b]);
      case Some(c) =>
        assert after.head == Some(|db.store.revisions|);
        assert db.cascades[c].base < |db.store.revisions|;
    }
  }

  /** Agreement in every reachable state, exactly: from a state where rows, store, head
      and cascade belong together, a command keeps them together if and only if it
      meets its guard; every command other than a write always does. */
  lemma SyncedExactly(db: Db, op: Op)
    requires Synced(db)
    ensures Synced(Apply(db, op)) <==> Sound(db, op)
  {
    if Attempt(db, op).Accepted? {
      match op {
        case BeginOp(all) => BeginStaysSynced(db, all);
        case UnfreezeOp => UnfreezeStaysSynced(db);
        case CommitOp(green) => CommitStaysSynced(db, green);
        case AbortOp => AbortStaysSynced(db);
        case WriteOp(req) =>
          if req.cascade.Some? { WriteInCascadeSyncedIff(db, req); } else { WriteOnHeadSyncedIff(db, req); }
        case StoreBlockOp(id, block, under) => StoreBlockStaysSynced(db, id, block, under);
      }
    }
  }

  ghost predicate SoundRun(db: Db, ops: seq<Op>)
    requires Inv(db)
  {
    ops == []
    || (SoundRun(db, ops[..|ops| - 1]) && Sound(Run(db, ops[..|ops| - 1]), ops[|ops| - 1]))
  }

  /** Along a run of sound commands every state is synced; so head is the base of the
      open cascade throughout, and every commit on the way is a fast-forward. */
  lemma {:induction false} SyncedOverRuns(db: Db, ops: seq<Op>)
    requires Synced(db) && SoundRun(db, ops)
    ensures Synced(Run(db, ops))
  {
    if ops != [] {
      SyncedOverRuns(db, ops[..|ops| - 1]);
      SyncedExactly(Run(db, ops[..|ops| - 1]), ops[|ops| - 1]);
    }
  }
}
