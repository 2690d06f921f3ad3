/** The cascade transaction of one plan, as transitions on its tables. A command is one
    database transaction: it either takes effect as a whole or leaves every table as
    it was. */
module Protocol {
  import opened Rows
  import opened VersionStore
  import opened Restore
  import opened StepTree
  import opened Regime
  import opened Propagation

  // ----- tables -----

  /** A reference is named after its cascade: "cascade/<uuid>". */
  datatype RefName = CascadeRef(cascade: nat)

  datatype CascadeStatus = Open | Committed | Aborted

  datatype Cascade = Cascade(name: RefName, base: nat, status: CascadeStatus)

  /** A stored context block: the working pair it was compiled at, the path it is
      anchored at, the paths of the step definitions it embeds, and the rest of its
      identity (level, kind, common block, scope, content hash, child reference). */
  datatype Block = Block(
    revision: Option<nat>, cascade: Option<nat>,
    nodePath: string, definitions: set<string>, identity: string)

  datatype Db = Db(
    rows: Table, store: Store, head: Option<nat>, refs: map<RefName, nat>,
    cascades: seq<Cascade>, planFrozen: bool, blocks: map<Id, Block>)

  datatype Refusal =
    | AlreadyOpen | FrozenTruthRefusal | NoHead | NoOpenCascade | GateRed
    | RefNotFound | UniqueViolation | NotAdmitted | RowMissing | IllegalUpdate
    | LabelMissing | InvalidFields | StillReferenced

  datatype Outcome = Accepted(db: Db) | Refused(why: Refusal)

  // ----- record: the cascade table -----

  /** get_open_cascade. */
  function FindOpen(cascades: seq<Cascade>): (r: Option<nat>)
    ensures r.Some? ==> r.value < |cascades| && cascades[r.value].status == Open
    ensures r.None? ==> forall c | 0 <= c < |cascades| :: cascades[c].status != Open
  {
    if cascades == [] then None
    else if cascades[|cascades| - 1].status == Open then Some(|cascades| - 1)
    else FindOpen(cascades[..|cascades| - 1])
  }

  function Close(cascades: seq<Cascade>, c: nat, status: CascadeStatus): seq<Cascade>
    requires c < |cascades|
  {
    cascades[c := cascades[c].(status := status)]
  }

  /** The revision commands read and write at: the tip of the open cascade, else head. */
  function Working(db: Db): Option<nat> {
    match FindOpen(db.cascades)
    case None => db.head
    case Some(c) =>
      if db.cascades[c].name in db.refs then Some(db.refs[db.cascades[c].name]) else None
  }

  // ----- begin -----

  predicate AllStepsFrozen(rows: Table) {
    && (exists u | u in rows :: rows[u].StepRow?)
    && (forall u | u in rows && rows[u].StepRow? :: rows[u].step.status == Frozen)
  }

  function Begin(db: Db, allowAllFrozen: bool): Outcome {
    if FindOpen(db.cascades).Some? then Refused(AlreadyOpen)
    else if db.planFrozen then Refused(FrozenTruthRefusal)
    else if !allowAllFrozen && AllStepsFrozen(db.rows) then Refused(FrozenTruthRefusal)
    else if db.head.None? then Refused(NoHead)
    else
      var name := CascadeRef(|db.cascades|);
      if name in db.refs then Refused(UniqueViolation)
      else Accepted(db.(refs := db.refs[name := db.head.value],
                        cascades := db.cascades + [Cascade(name, db.head.value, Open)]))
  }

  /** plan_unfreeze: the audited way out of a fully frozen plan. */
  function Unfreeze(db: Db): Outcome {
    if !AllStepsFrozen(db.rows) then Refused(FrozenTruthRefusal)
    else if FindOpen(db.cascades).Some? then Refused(AlreadyOpen)
    else Begin(db.(planFrozen := false), true)
  }

  // ----- context blocks -----

  /** promote_cascade_blocks_to_head. */
  function Promote(blocks: map<Id, Block>, c: nat, tip: nat): map<Id, Block> {
    map b | b in blocks ::
      if blocks[b].cascade == Some(c) && blocks[b].revision == Some(tip)
      then blocks[b].(cascade := None) else blocks[b]
  }

  predicate SameIdentity(a: Block, b: Block) {
    a.revision == b.revision && a.cascade == b.cascade
    && a.nodePath == b.nodePath && a.identity == b.identity
  }

  /** The unique index over stored blocks. */
  predicate UniqueBlocks(blocks: map<Id, Block>) {
    forall a, b | a in blocks && b in blocks && a != b :: !SameIdentity(blocks[a], blocks[b])
  }

  predicate Untouched(block: Block, paths: seq<string>) {
    block.nodePath !in paths && forall d | d in block.definitions :: d !in paths
  }

  /** carry_forward_context_blocks. */
  function Carry(blocks: map<Id, Block>, fromRevision: Option<nat>, toRevision: nat,
                 cascade: Option<nat>, paths: Option<seq<string>>): map<Id, Block>
  {
    match paths
    case None => blocks
    case Some(changed) =>
      map b | b in blocks ::
        if blocks[b].revision == fromRevision && blocks[b].cascade == cascade && Untouched(blocks[b], changed)
        then blocks[b].(revision := Some(toRevision)) else blocks[b]
  }

  /** A block is current when its pair is the working pair. */
  predicate Current(db: Db, b: Id) {
    b in db.blocks && db.blocks[b].revision == Working(db) && db.blocks[b].cascade == FindOpen(db.cascades)
  }

  /** Compiling a block at the working pair, or, without naming the cascade, at head. */
  function StoreBlock(db: Db, id: Id, block: Block, underCascade: bool): Db {
    var cascade := if underCascade then FindOpen(db.cascades) else None;
    var stored := block.(revision := if cascade.Some? then Working(db) else db.head, cascade := cascade);
    if id in db.blocks || exists b | b in db.blocks :: SameIdentity(db.blocks[b], stored)
    then db else db.(blocks := db.blocks[id := stored])
  }

  // ----- closing -----

  function Commit(db: Db, green: bool): Outcome {
    match FindOpen(db.cascades)
    case None => Refused(NoOpenCascade)
    case Some(c) =>
      var name := db.cascades[c].name;
      if !green then Refused(GateRed)
      else if name !in db.refs then Refused(RefNotFound)
      else
        var tip := db.refs[name];
        var blocks := Promote(db.blocks, c, tip);
        if !UniqueBlocks(blocks) then Refused(UniqueViolation)
        else Accepted(db.(head := Some(tip), blocks := blocks,
                          cascades := Close(db.cascades, c, Committed), refs := db.refs - {name}))
  }

  /** What state_at returned. */
  ghost function StateOf(s: Store, at: nat): (m: map<Id, nat>)
    requires Valid(s) && at < |s.revisions|
    ensures IsStateAt(s, Some(at), m)
  {
    StateExists(s, Some(at));
    var m :| IsStateAt(s, Some(at), m);
    m
  }

  /** restore_state between two revisions. */
  ghost function Restored(s: Store, rows: Table, base: nat, tip: nat): Option<Table>
    requires Valid(s) && base < |s.revisions| && tip < |s.revisions|
  {
    StateInRange(s, base, StateOf(s, base));
    RestoreRows(s, rows, StateOf(s, base), StateOf(s, tip))
  }

  ghost function Abort(db: Db): Outcome
    requires Inv(db)
  {
    match FindOpen(db.cascades)
    case None => Refused(NoOpenCascade)
    case Some(c) =>
      var name := db.cascades[c].name;
      assert OpenCascadeOk(db, c);
      match Restored(db.store, db.rows, db.cascades[c].base, db.refs[name])
      case None => Refused(UniqueViolation)
      case Some(rows) =>
        Accepted(db.(rows := rows, cascades := Close(db.cascades, c, Aborted), refs := db.refs - {name}))
  }

  lemma StateInRange(s: Store, at: nat, m: map<Id, nat>)
    requires Valid(s) && at < |s.revisions| && IsStateAt(s, Some(at), m)
    ensures forall e | e in m :: m[e] < |s.versions| && m[e] in Candidates(s, Some(at), e) && !Deleted(s, m[e])
  {
    forall e | e in m
      ensures m[e] < |s.versions| && m[e] in Candidates(s, Some(at), e) && !Deleted(s, m[e])
    {
      assert Choice(s, Some(at), e, Get(m, e));
      CandidatesBelongToEntity(s, Some(at), e);
    }
  }

  // ----- writing -----

  datatype Target =
    | ConceptTarget | RelationTarget | ParagraphTarget
    | StepTarget(uuid: Option<Id>) | UnknownTarget(kind: string)

  /** check_admission: cascade names the cascade the request claims to run inside. */
  ghost predicate Admits(db: Db, target: Target, cascade: Option<nat>) {
    && !target.UnknownTarget?
    && match cascade
       case Some(c) => FindOpen(db.cascades) == Some(c)
       case None =>
         && FindOpen(db.cascades).None?
         && match target
            case StepTarget(t) => t.Some? && DirectlyMutable(Steps(db.rows), t.value)
                                  && PathsResolve(Steps(db.rows), t.value)
            case ParagraphTarget => forall u | u in Steps(db.rows) :: !FrozenAt(Steps(db.rows), u)
            case _ => false
  }

  /** A statement on one row: store it, or delete it. */
  type Edit = (Id, Option<Row>)

  /** The rows after a list of statements, and the snapshots a faithful recorder takes
      of them; None when a unique index objects or a deleted row is missing. */
  function Perform(rows: Table, edits: seq<Edit>): Option<(Table, seq<Change>)> {
    if edits == [] then Some((rows, []))
    else
      match Perform(rows, edits[..|edits| - 1])
      case None => None
      case Some((t, changes)) =>
        var (id, after) := edits[|edits| - 1];
        match after
        case Some(row) =>
          if Clashes(t, id, row) then None
          else Some((t[id := row], changes + [(id, SnapshotOf(row))]))
        case None =>
          if id !in t then None
          else Some((t - {id}, changes + [(id, Tombstone(t[id]))]))
  }

  /** A mutating command. It edits rows and records them; silent edits are row
      statements whose result it does not record. In cascade mode it also applies
      status updates. checked is false where a command skips check_admission: a step
      transition without a cascade, and the execution of an atomic step. */
  datatype Request = Request(
    cascade: Option<nat>, target: Target, checked: bool,
    silent: seq<Edit>, edits: seq<Edit>, updates: seq<StatusUpdate>,
    carry: Option<seq<string>>, syncsPlanStatus: bool)

  /** The rows a request leaves and everything it records. */
  function Effect(rows: Table, req: Request): Option<(Table, seq<Change>)> {
    match Perform(rows, req.silent)
    case None => None
    case Some((quiet, _)) =>
      match Perform(quiet, req.edits)
      case None => None
      case Some((edited, changes)) =>
        if req.cascade.None? then Some((edited, changes))
        else
          match ApplyUpdates(edited, req.updates)
          case None => None
          case Some((updated, snaps)) => Some((updated, changes + snaps))
  }

  ghost predicate Lets(db: Db, req: Request) {
    if req.checked || req.cascade.Some? then Admits(db, req.target, req.cascade) else true
  }

  ghost function Write(db: Db, req: Request): Outcome
    requires Inv(db)
  {
    if !Lets(db, req) then Refused(NotAdmitted)
    else
      match Effect(db.rows, req)
      case None => Refused(IllegalUpdate)
      case Some((rows, changes)) =>
        var rev := |db.store.revisions|;
        var status := if req.syncsPlanStatus then AllStepsFrozen(rows) else db.planFrozen;
        match req.cascade
        case None =>
          Accepted(db.(rows := rows, store := Record(db.store, changes, db.head), head := Some(rev),
                       planFrozen := status, blocks := Carry(db.blocks, db.head, rev, None, req.carry)))
        case Some(c) =>
          var name := db.cascades[c].name;
          var tip := db.refs[name];
          Accepted(db.(rows := rows, store := Record(db.store, changes, Some(tip)),
                       refs := db.refs[name := rev], planFrozen := status,
                       blocks := Carry(db.blocks, Some(tip), rev, Some(c), req.carry)))
  }

  /** cascade_write and cascade_write_many: the rows were edited by the caller, who
      hands over the snapshots of its own edits. */
  function RecordInCascade(db: Db, c: nat, changes: seq<Change>, updates: seq<StatusUpdate>,
                           carry: Option<seq<string>>): Outcome
    requires c < |db.cascades|
  {
    var name := db.cascades[c].name;
    if db.cascades[c].status != Open then Refused(NoOpenCascade)
    else if name !in db.refs then Refused(RefNotFound)
    else
      match ApplyUpdates(db.rows, updates)
      case None => Refused(IllegalUpdate)
      case Some((rows, snaps)) =>
        var rev := |db.store.revisions|;
        Accepted(db.(rows := rows, store := Record(db.store, changes + snaps, Some(db.refs[name])),
                     refs := db.refs[name := rev],
                     blocks := Carry(db.blocks, Some(db.refs[name]), rev, Some(c), carry)))
  }

  // ----- the invariant of every run -----

  predicate InTable(db: Db, block: Block) {
    && InRange(db.store, block.revision)
    && (block.cascade.Some? ==> block.cascade.value < |db.cascades|)
  }

  /** The cascade open as c: its reference descends from its base, and so does head;
      head is on the way from the base to the tip only while it still is the base. */
  ghost predicate OpenCascadeOk(db: Db, c: nat)
    requires Valid(db.store) && c < |db.cascades|
  {
    var base := db.cascades[c].base;
    && CascadeRef(c) in db.refs && db.refs[CascadeRef(c)] < |db.store.revisions|
    && Descends(db.store, db.refs[CascadeRef(c)], base)
    && db.head.Some? && db.head.value < |db.store.revisions|
    && Descends(db.store, db.head.value, base)
    && (Descends(db.store, db.refs[CascadeRef(c)], db.head.value) <==> db.head.value == base)
  }

  ghost predicate Inv(db: Db) {
    && Valid(db.store) && InRange(db.store, db.head)
    && AllKindsKnown(db.store.versions)
    && UniqueKeys(db.rows)
    && (forall c | 0 <= c < |db.cascades| ::
          db.cascades[c].name == CascadeRef(c) && db.cascades[c].base < |db.store.revisions|)
    && (forall c, d | 0 <= c < |db.cascades| && 0 <= d < |db.cascades|
                      && db.cascades[c].status == Open && db.cascades[d].status == Open :: c == d)
    && (forall n | n in db.refs :: n.cascade < |db.cascades| && db.cascades[n.cascade].status == Open)
    && (forall c | 0 <= c < |db.cascades| && db.cascades[c].status == Open :: OpenCascadeOk(db, c))
    && (forall b | b in db.blocks :: InTable(db, db.blocks[b]))
    && UniqueBlocks(db.blocks)
  }
}
