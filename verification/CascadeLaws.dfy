/** What closing a cascade undoes and what it publishes, over whole runs. */
module CascadeLaws {
  import opened Rows
  import opened VersionStore
  import opened Restore
  import opened Protocol
  import opened Outcomes
  import opened Runs

  // ----- when an abort gets through -----

  ghost function BaseState(db: Db): map<Id, nat>
    requires Inv(db) && FindOpen(db.cascades).Some?
  {
    StateOf(db.store, db.cascades[FindOpen(db.cascades).value].base)
  }

  ghost function TipState(db: Db): map<Id, nat>
    requires Inv(db) && FindOpen(db.cascades).Some?
  {
    WorkingInRange(db);
    StateOf(db.store, Working(db).value)
  }

  /** Row m holds the unique key that base row n must be given back, and is still there
      when n's turn comes: it was added inside the cascade, or it is a changed row that
      is restored after the changed row n. */
  ghost predicate Holds(db: Db, baseRows: Table, n: Id, m: Id)
    requires Inv(db) && FindOpen(db.cascades).Some?
  {
    var base, tip := BaseState(db), TipState(db);
    && n in baseRows && m in db.rows && m != n
    && KeyOf(baseRows[n]).Some? && KeyOf(db.rows[m]) == KeyOf(baseRows[n])
    && n in base && (n !in tip || base[n] != tip[n])
    && (m !in base || (n in tip && m in tip && base[m] != tip[m] && n < m))
  }

  ghost function BaseRevision(db: Db): nat
    requires Inv(db) && FindOpen(db.cascades).Some?
  {
    db.cascades[FindOpen(db.cascades).value].base
  }

  lemma SplitIndex(changed: seq<Id>, removed: seq<Id>, i: nat)
    requires i < |changed + removed|
    ensures i < |changed| ==> (changed + removed)[i] in changed && (changed + removed)[..i + 1] == changed[..i + 1]
    ensures i >= |changed| ==> (changed + removed)[i] in removed
                               && forall x | x in changed :: x in (changed + removed)[..i + 1]
  {
    if i >= |changed| {
      var l := (changed + removed)[..i + 1];
      assert (changed + removed)[i] == removed[i - |changed|];
      forall x | x in changed
        ensures x in l
      {
        var j :| 0 <= j < |changed| && changed[j] == x;
        assert l[j] == x;
      }
    }
  }

  /** A holder in the order of the restore loop is a holder in terms of the diff. */
  lemma HolderInOrder(db: Db, baseRows: Table, i: nat, m: Id)
    requires Synced(db) && FindOpen(db.cascades).Some?
    requires Agrees(db.store, Some(BaseRevision(db)), baseRows)
    requires var d := DiffOf(BaseState(db), TipState(db));
             var nodes := d.changed + d.removed;
             Loadable(db.store, BaseState(db)) && FullReset(db.store, BaseState(db)) == baseRows
             && Materialises(db.store, TipState(db), db.rows)
             && Restorable(nodes, Contents(db.store, BaseState(db))) && i < |nodes|
    ensures var d := DiffOf(BaseState(db), TipState(db));
            var nodes := d.changed + d.removed;
            HolderAt(db.rows, nodes, Contents(db.store, BaseState(db)), i, m)
            <==> Holds(db, baseRows, nodes[i], m)
                 && (m in BaseState(db) && nodes[i] in TipState(db) ==> m !in nodes[..i + 1])
  {
    var base, tip := BaseState(db), TipState(db);
    var d := DiffOf(base, tip);
    var nodes := d.changed + d.removed;
    var n := nodes[i];
    DiffLists(base, tip);
    assert n in nodes;
    SplitIndex(d.changed, d.removed, i);
    assert TargetRow(Contents(db.store, base), n) == baseRows[n];
    assert nodes[..i + 1][i] == n;
    assert if m in tip then tip[m] < |db.store.versions| && Lookup(db.rows, m).Some?
                            && RowOf(db.store.versions[tip[m]].snapshot.content) == Lookup(db.rows, m)
           else Lookup(db.rows, m) == None;
    assert forall x | x in nodes[..i + 1] :: x in nodes;
    if m in db.rows && m in base && base[m] == tip[m] {
      assert db.rows[m] == baseRows[m] && m in baseRows;
      assert !Clashes(baseRows, n, baseRows[n]);
    }
    if m in db.rows && m in base && base[m] != tip[m] {
      var changed := set e | e in base && e in tip && base[e] != tip[e];
      assert m in changed && m in d.changed;
      var j :| 0 <= j < |d.changed| && d.changed[j] == m;
      if i < |d.changed| {
        assert d.changed[i] == n;
        assert m !in nodes[..i + 1] ==> i < j;
      }
    }
  }

  lemma HolderComesLater(base: map<Id, nat>, tip: map<Id, nat>, i: nat, m: Id)
    requires var d := DiffOf(base, tip);
             i < |d.changed + d.removed| && (d.changed + d.removed)[i] in tip && (d.changed + d.removed)[i] < m
    ensures m !in (DiffOf(base, tip).changed + DiffOf(base, tip).removed)[..i + 1]
  {
    var d := DiffOf(base, tip);
    SplitIndex(d.changed, d.removed, i);
    assert forall x | x in d.removed :: x !in tip;
    assert d.changed[i] == (d.changed + d.removed)[i];
  }

  /** An abort gets through exactly when no row still standing in the way holds a unique
      key of a base row that has to be put back. */
  lemma AbortGetsThroughIff(db: Db, baseRows: Table)
    requires Synced(db) && FindOpen(db.cascades).Some?
    requires Agrees(db.store, Some(BaseRevision(db)), baseRows)
    ensures Abort(db).Accepted? <==> !exists n: Id, m: Id :: Holds(db, baseRows, n, m)
  {
    var base, tip := BaseState(db), TipState(db);
    var c := FindOpen(db.cascades).value;
    assert OpenCascadeOk(db, c);
    WorkingInRange(db);
    BaseLoads(db, base, baseRows);
    AgreesIffEveryStateMaterialises(db.store, Working(db), db.rows);
    var d := DiffOf(base, tip);
    DiffLists(base, tip);
    var nodes := d.changed + d.removed;
    var target := Contents(db.store, base);
    RestorePointwise(db.store, db.rows, base, tip, nodes, d.added);
    assert Abort(db).Accepted? <==> !Blocked(db.rows, nodes, target);
    if Blocked(db.rows, nodes, target) {
      var i, m :| 0 <= i < |nodes| && HolderAt(db.rows, nodes, target, i, m);
      HolderInOrder(db, baseRows, i, m);
    }
    if n: Id, m: Id :| Holds(db, baseRows, n, m) {
      assert n in nodes;
      var i :| 0 <= i < |nodes| && nodes[i] == n;
      if m in base && n in tip {
        HolderComesLater(base, tip, i, m);
      }
      HolderInOrder(db, baseRows, i, m);
      assert Blocked(db.rows, nodes, target);
    }
  }

  /** So a cascade that removed a row and gave its unique key to a new row cannot be
      aborted: the restore puts rows back before it deletes the added ones. */
  lemma ReusedKeyBlocksAbort(db: Db, baseRows: Table, n: Id, m: Id)
    requires Synced(db) && FindOpen(db.cascades).Some?
    requires Agrees(db.store, Some(BaseRevision(db)), baseRows)
    requires n in baseRows && n !in db.rows && m in db.rows && m !in baseRows
    requires KeyOf(baseRows[n]).Some? && KeyOf(db.rows[m]) == KeyOf(baseRows[n])
    ensures Abort(db) == Refused(UniqueViolation)
  {
    AgreeingStateKeys(db.store, BaseRevision(db), BaseState(db), baseRows);
    WorkingInRange(db);
    AgreeingStateKeys(db.store, Working(db).value, TipState(db), db.rows);
    assert Holds(db, baseRows, n, m);
    AbortGetsThroughIff(db, baseRows);
    ReferencesFollowCascades(db);
  }

  lemma AgreeingStateKeys(s: Store, at: nat, m: map<Id, nat>, rows: Table)
    requires Valid(s) && at < |s.revisions| && IsStateAt(s, Some(at), m) && Agrees(s, Some(at), rows)
    ensures m.Keys == rows.Keys
  {
    AgreesIffEveryStateMaterialises(s, Some(at), rows);
    forall e: Id
      ensures e in m <==> e in rows
    {
      assert if e in m then m[e] < |s.versions| && Lookup(rows, e).Some?
                            && RowOf(s.versions[m[e]].snapshot.content) == Lookup(rows, e)
             else Lookup(rows, e) == None;
    }
  }

  // ----- what any abort leaves -----

  /** The diff of the open cascade names e. */
  ghost predicate Diffed(db: Db, e: Id)
    requires Inv(db) && FindOpen(db.cascades).Some?
  {
    var base, tip := BaseState(db), TipState(db);
    (e in base || e in tip) && !(e in base && e in tip && base[e] == tip[e])
  }

  lemma DiffedSplits(db: Db, e: Id)
    requires Inv(db) && FindOpen(db.cascades).Some?
    ensures var base, tip := BaseState(db), TipState(db);
            Diffed(db, e) <==> (e in base && (e !in tip || base[e] != tip[e])) || (e in tip && e !in base)
  {
  }

  /** An abort that gets through puts back the base row of every entity the diff names and
      leaves every other row as it is, sound or not as the writes may have been. */
  lemma AbortRestoresDiffed(db: Db, baseRows: Table, after: Db, e: Id)
    requires Inv(db) && FindOpen(db.cascades).Some? && Abort(db) == Accepted(after)
    requires UniqueKeys(baseRows) && Agrees(db.store, Some(BaseRevision(db)), baseRows)
    ensures Lookup(after.rows, e) == if Diffed(db, e) then Lookup(baseRows, e) else Lookup(db.rows, e)
  {
    var base, tip := BaseState(db), TipState(db);
    WorkingInRange(db);
    AgreesIffEveryStateMaterialises(db.store, Some(BaseRevision(db)), baseRows);
    MaterialisedIsReset(db.store, base, baseRows);
    var d := DiffOf(base, tip);
    DiffLists(base, tip);
    RestorePointwise(db.store, db.rows, base, tip, d.changed + d.removed, d.added);
    assert RestoreRows(db.store, db.rows, base, tip) == Some(after.rows);
    DiffedSplits(db, e);
    assert e !in base ==> Lookup(FullReset(db.store, base), e) == None;
  }

  /** db is in the cascade that was opened as c on before, whatever was written since. */
  predicate SameCascade(before: Db, db: Db, c: nat) {
    && FindOpen(db.cascades) == Some(c) && before.head.Some? && db.cascades[c].base == before.head.value
    && Extends(before.store, db.store)
  }

  lemma StepInSameCascade(before: Db, db: Db, c: nat, op: Op)
    requires Inv(db) && SameCascade(before, db, c) && InsideCascade(op)
    ensures SameCascade(before, Apply(db, op), c)
  {
    LaterKept(db, op);
    if op.WriteOp? && Write(db, op.req).Accepted? {
      assert Write(db, op.req).db.cascades == db.cascades;
    }
  }

  lemma {:induction false} RunInSameCascade(before: Db, start: Db, c: nat, ops: seq<Op>)
    requires Inv(start) && SameCascade(before, start, c) && AllInside(ops)
    ensures SameCascade(before, Run(start, ops), c)
  {
    if ops != [] {
      var front, op := ops[..|ops| - 1], ops[|ops| - 1];
      assert forall i | 0 <= i < |front| :: front[i] == ops[i];
      RunInSameCascade(before, start, c, front);
      StepInSameCascade(before, Run(start, front), c, op);
    }
  }

  lemma AbortOfSameCascade(before: Db, last: Db, c: nat, after: Db, e: Id)
    requires Synced(before) && FindOpen(before.cascades).None?
    requires Inv(last) && SameCascade(before, last, c) && Abort(last) == Accepted(after)
    ensures Lookup(after.rows, e) == if Diffed(last, e) then Lookup(before.rows, e) else Lookup(last.rows, e)
  {
    HistoryImmutable(before.store, last.store, before.head);
    AbortRestoresDiffed(last, before.rows, after, e);
  }

  lemma BeginStartsCascade(before: Db, allowAllFrozen: bool, start: Db)
    requires Begin(before, allowAllFrozen) == Accepted(start)
    ensures FindOpen(before.cascades).None? && SameCascade(before, start, |before.cascades|)
  {
  }

  /** Begin, any writes at all, abort: a row is what it was before begin exactly if the
      diff names it or the writes left it so; otherwise it stays as the writes left it. */
  lemma AbortAfterAnyRun(before: Db, allowAllFrozen: bool, start: Db, ops: seq<Op>, last: Db, after: Db, e: Id)
    requires Synced(before) && Begin(before, allowAllFrozen) == Accepted(start) && Inv(start)
    requires AllInside(ops) && last == Run(start, ops) && Abort(last) == Accepted(after)
    ensures FindOpen(last.cascades).Some?
    ensures Lookup(after.rows, e) == if Diffed(last, e) then Lookup(before.rows, e) else Lookup(last.rows, e)
    ensures Lookup(after.rows, e) == Lookup(before.rows, e)
       <==> Diffed(last, e) || Lookup(last.rows, e) == Lookup(before.rows, e)
  {
    BeginStartsCascade(before, allowAllFrozen, start);
    RunInSameCascade(before, start, |before.cascades|, ops);
    AbortOfSameCascade(before, last, |before.cascades|, after, e);
  }

  // ----- abort undoes everything -----

  predicate InsideCascade(op: Op) {
    op.WriteOp? || op.StoreBlockOp?
  }

  predicate AllInside(ops: seq<Op>) {
    forall i | 0 <= i < |ops| :: InsideCascade(ops[i])
  }

  /** db is a later state of the cascade that was opened as c on before. */
  predicate StillInside(before: Db, db: Db, c: nat) {
    && FindOpen(db.cascades) == Some(c)
    && c == |before.cascades| && |db.cascades| == c + 1 && db.cascades[..c] == before.cascades
    && db.cascades[c] == Cascade(CascadeRef(c), if before.head.Some? then before.head.value else 0, Open)
    && db.head == before.head && before.head.Some?
    && db.refs.Keys == {CascadeRef(c)}
    && Extends(before.store, db.store)
    && forall b | b in before.blocks :: b in db.blocks && db.blocks[b] == before.blocks[b]
  }

  lemma WriteStaysInside(before: Db, db: Db, c: nat, req: Request)
    requires Inv(before) && Synced(db) && StillInside(before, db, c)
    requires Write(db, req).Accepted? && Sound(db, WriteOp(req))
    ensures StillInside(before, Write(db, req).db, c)
  {
    var after := Write(db, req).db;
    WriteIsLater(db, req);
    assert req.cascade == Some(c);
    forall b | b in before.blocks
      ensures b in after.blocks && after.blocks[b] == before.blocks[b]
    {
      assert InTable(before, before.blocks[b]);
    }
  }

  lemma StepStaysInside(before: Db, db: Db, c: nat, op: Op)
    requires Inv(before) && Synced(db) && StillInside(before, db, c)
    requires InsideCascade(op) && Sound(db, op)
    ensures StillInside(before, Apply(db, op), c)
  {
    match op {
      case WriteOp(req) =>
        if Write(db, req).Accepted? { WriteStaysInside(before, db, c, req); }
      case StoreBlockOp(id, block, under) =>
    }
  }

  lemma {:induction false} RunStaysInside(before: Db, start: Db, c: nat, ops: seq<Op>)
    requires Inv(before) && Synced(start) && StillInside(before, start, c)
    requires AllInside(ops) && SoundRun(start, ops)
    ensures Synced(Run(start, ops)) && StillInside(before, Run(start, ops), c)
  {
    if ops != [] {
      var front, op := ops[..|ops| - 1], ops[|ops| - 1];
      assert forall i | 0 <= i < |front| :: front[i] == ops[i];
      RunStaysInside(before, start, c, front);
      SyncedExactly(Run(start, front), op);
      StepStaysInside(before, Run(start, front), c, op);
    }
  }

  lemma BeginStartsInside(before: Db, allowAllFrozen: bool)
    requires before.refs == map[] && Begin(before, allowAllFrozen).Accepted?
    ensures StillInside(before, Begin(before, allowAllFrozen).db, |before.cascades|)
  {
  }

  lemma BeginIsInside(before: Db, allowAllFrozen: bool)
    requires Synced(before) && Begin(before, allowAllFrozen).Accepted?
    ensures var start := Begin(before, allowAllFrozen).db;
            Synced(start) && StillInside(before, start, |before.cascades|)
  {
    BeginHasNoReference(before);
    BeginStartsInside(before, allowAllFrozen);
    BeginStaysSynced(before, allowAllFrozen);
  }

  /** after is before with one more record, that of the aborted cascade, with more history
      and perhaps more blocks. */
  predicate Undone(before: Db, after: Db) {
    && after.rows == before.rows && after.head == before.head && after.refs == before.refs
    && FindOpen(after.cascades).None? && Working(after) == Working(before)
    && before.head.Some?
    && after.cascades == before.cascades + [Cascade(CascadeRef(|before.cascades|), before.head.value, Aborted)]
    && Extends(before.store, after.store)
    && forall b | b in before.blocks ::
         b in after.blocks && after.blocks[b] == before.blocks[b] && (Current(after, b) <==> Current(before, b))
  }

  lemma AbortFromInside(before: Db, last: Db, after: Db, c: nat)
    requires Synced(before) && FindOpen(before.cascades).None?
    requires Synced(last) && StillInside(before, last, c)
    requires Abort(last) == Accepted(after)
    ensures Undone(before, after) && after.planFrozen == last.planFrozen
  {
    HistoryImmutable(before.store, last.store, before.head);
    AbortReachesBase(last, before.rows);
    AbortExactly(last);
    ClosingClosesTheOne(last, true);
    BeginHasNoReference(before);
    assert after.refs.Keys == {};
  }

  /** Begin, any sound writes, abort: the rows, head, references and the open-cascade
      lookup are those from before begin; every block stored before is untouched and
      current again exactly if it was; only the version store, new blocks and the closed
      record have come on top. What an abort does not put back is plan.status. */
  lemma AbortUndoesEverything(before: Db, allowAllFrozen: bool, start: Db, ops: seq<Op>, after: Db)
    requires Synced(before) && Begin(before, allowAllFrozen) == Accepted(start) && Inv(start)
    requires AllInside(ops) && SoundRun(start, ops)
    requires Abort(Run(start, ops)) == Accepted(after)
    ensures Undone(before, after) && after.planFrozen == Run(start, ops).planFrozen
  {
    BeginIsInside(before, allowAllFrozen);
    RunStaysInside(before, start, |before.cascades|, ops);
    AbortFromInside(before, Run(start, ops), after, |before.cascades|);
  }

  lemma BeginHasNoReference(before: Db)
    requires Inv(before) && FindOpen(before.cascades).None?
    ensures before.refs == map[]
  {
    assert forall n | n in before.refs :: n.cascade < |before.cascades|;
    assert before.refs.Keys == {};
  }

  /** A cascade can be opened again after the abort exactly when no write of the aborted
      one left plan.status at frozen: the rows are back, the mirror of them is not. */
  lemma BeginAgainIff(before: Db, allowAllFrozen: bool, start: Db, ops: seq<Op>, after: Db)
    requires Synced(before) && Begin(before, allowAllFrozen) == Accepted(start) && Inv(start)
    requires AllInside(ops) && SoundRun(start, ops)
    requires Abort(Run(start, ops)) == Accepted(after)
    ensures Begin(after, allowAllFrozen).Accepted? <==> !Run(start, ops).planFrozen
  {
    AbortUndoesEverything(before, allowAllFrozen, start, ops, after);
    BeginExactly(before, allowAllFrozen);
    BeginExactly(after, allowAllFrozen);
    AbortKeepsInv(Run(start, ops));
    ReferencesFollowCascades(after);
  }

  /** After a commit a cascade can be opened again exactly when plan.status was not frozen
      before it and, unless that is waived, some step is not frozen or there is none: the
      commit itself never stands in the way. */
  lemma BeginAfterCommitIff(db: Db, green: bool, allowAllFrozen: bool)
    requires Inv(db) && Commit(db, green).Accepted?
    ensures Begin(Commit(db, green).db, allowAllFrozen).Accepted?
       <==> !db.planFrozen
            && (allowAllFrozen
                || (exists u | u in db.rows && db.rows[u].StepRow? :: db.rows[u].step.status != Frozen)
                || (forall u | u in db.rows :: !db.rows[u].StepRow?))
  {
    CommitAllOrNothing(db, green);
    WorkingInRange(db);
    BeginExactly(Commit(db, green).db, allowAllFrozen);
  }

  // ----- context blocks across a commit -----

  predicate TaggedAsHead(block: Block, tip: nat) {
    block.revision == Some(tip) && block.cascade.None?
  }

  /** A commit keeps exactly the current blocks current, if and only if none was tagged
      as head data at the tip already. */
  lemma CommitKeepsCurrencyIff(db: Db, green: bool)
    requires Inv(db) && Commit(db, green).Accepted?
    ensures var after := Commit(db, green).db;
            (forall b: Id :: Current(after, b) <==> Current(db, b))
            <==> forall b | b in db.blocks :: !TaggedAsHead(db.blocks[b], Working(db).value)
  {
    WorkingInRange(db);
    CommitAllOrNothing(db, green);
    var after := Commit(db, green).db;
    forall b: Id
      ensures Current(after, b) <==> Current(db, b) || (b in db.blocks && TaggedAsHead(db.blocks[b], Working(db).value))
      ensures b in db.blocks && TaggedAsHead(db.blocks[b], Working(db).value) ==> !Current(db, b)
    {
    }
  }

  /** Promoting a would make it the double of b. */
  predicate Collides(a: Block, b: Block, tip: nat, c: nat) {
    && TaggedAsHead(b, tip) && a.revision == Some(tip) && a.cascade == Some(c)
    && a.nodePath == b.nodePath && a.identity == b.identity
  }

  lemma PromotionBreaksIndexIff(blocks: map<Id, Block>, tip: nat, c: nat)
    requires UniqueBlocks(blocks)
    ensures !UniqueBlocks(Promote(blocks, c, tip))
       <==> exists a, b | a in blocks && b in blocks :: Collides(blocks[a], blocks[b], tip, c)
  {
    var after := Promote(blocks, c, tip);
    if !UniqueBlocks(after) {
      var a, b :| a in after && b in after && a != b && SameIdentity(after[a], after[b]);
      assert !SameIdentity(blocks[a], blocks[b]);
      assert Collides(blocks[a], blocks[b], tip, c) || Collides(blocks[b], blocks[a], tip, c);
    }
    if a, b :| a in blocks && b in blocks && Collides(blocks[a], blocks[b], tip, c) {
      assert SameIdentity(after[a], after[b]) && a != b;
    }
  }

  /** A green commit is refused exactly when promoting a block would duplicate a stored
      one. */
  lemma GreenCommitRefusedIff(db: Db)
    requires Inv(db) && FindOpen(db.cascades).Some?
    ensures Commit(db, true).Refused?
       <==> exists a, b | a in db.blocks && b in db.blocks ::
              Collides(db.blocks[a], db.blocks[b], Working(db).value, FindOpen(db.cascades).value)
  {
    WorkingInRange(db);
    var c := FindOpen(db.cascades).value;
    assert OpenCascadeOk(db, c);
    PromotionBreaksIndexIff(db.blocks, Working(db).value, c);
  }

  /** Once a cascade has recorded anything, a green commit gets through and a block is
      current after it exactly if it was current just before. */
  lemma CommitAfterWriteKeepsCurrency(db: Db)
    requires Synced(db) && FindOpen(db.cascades).Some?
    requires Working(db) != Some(BaseRevision(db))
    ensures Commit(db, true).Accepted?
    ensures forall b: Id :: Current(Commit(db, true).db, b) <==> Current(db, b)
  {
    WorkingInRange(db);
    var c := FindOpen(db.cascades).value;
    assert OpenCascadeOk(db, c);
    DescendsIsOlder(db.store, Working(db).value, BaseRevision(db));
    GreenCommitRefusedIff(db);
    CommitKeepsCurrencyIff(db, true);
  }

  // ----- the unchecked path -----

  /** A step transition without a cascade skips check_admission. Run while a cascade is
      open it publishes a revision on head that a commit of the cascade then drops from
      the history of head. */
  lemma UncheckedTransitionIsLost(db: Db, req: Request, next: Db, green: bool)
    requires Synced(db) && FindOpen(db.cascades).Some?
    requires req.cascade.None? && !req.checked && Write(db, req) == Accepted(next)
    requires Inv(next) && Commit(next, green).Accepted?
    ensures !Sound(db, WriteOp(req)) && !Synced(next)
    ensures next.head == Some(|db.store.revisions|)
    ensures var after := Commit(next, green).db;
            after.head.Some? && after.head.value < |after.store.revisions|
            && !Descends(after.store, after.head.value, next.head.value)
  {
    SyncedExactly(db, WriteOp(req));
    CommitFastForwardIff(next, green);
    assert next.cascades == db.cascades;
    assert db.cascades[FindOpen(db.cascades).value].base < |db.store.revisions|;
  }
}
