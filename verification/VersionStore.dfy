/** The append-only version store: content-addressed node versions and revisions
    linked by parent. Both tables are sequences in insertion order, and a freshly
    generated UUID is the position of its row, so a parent precedes its child. */
module VersionStore {
  import opened Rows

  datatype NodeVersion = NodeVersion(entity: Id, snapshot: Snapshot)
  datatype Revision = Revision(parent: Option<nat>, versions: seq<nat>)
  datatype Store = Store(versions: seq<NodeVersion>, revisions: seq<Revision>)

  type Change = (Id, Snapshot)

  predicate ValidRevision(s: Store, r: nat)
    requires r < |s.revisions|
  {
    && (s.revisions[r].parent.Some? ==> s.revisions[r].parent.value < r)
    && (forall v | v in s.revisions[r].versions :: v < |s.versions|)
  }

  /** The foreign keys of the store, and UNIQUE (plan, entity, hash) with a digest
      that tells contents apart. */
  ghost predicate Valid(s: Store) {
    && (forall i, j | 0 <= i < j < |s.versions| :: s.versions[i] != s.versions[j])
    && (forall r | 0 <= r < |s.revisions| :: ValidRevision(s, r))
  }

  predicate InRange(s: Store, at: Option<nat>) {
    at.Some? ==> at.value < |s.revisions|
  }

  predicate Extends(s: Store, t: Store) {
    s.versions <= t.versions && s.revisions <= t.revisions
  }

  /** Every stored snapshot is of one of the four kinds a restore knows. */
  predicate AllKindsKnown(versions: seq<NodeVersion>) {
    forall v | 0 <= v < |versions| :: RowOf(versions[v].snapshot.content).Some?
  }

  // ----- recording -----

  function Find(versions: seq<NodeVersion>, nv: NodeVersion): (r: Option<nat>)
    ensures r.Some? ==> r.value < |versions| && versions[r.value] == nv
    ensures r.None? ==> nv !in versions
  {
    if versions == [] then None
    else if versions[|versions| - 1] == nv then Some(|versions| - 1)
    else Find(versions[..|versions| - 1], nv)
  }

  /** insert_node_version: reuse an identical version, else append one. */
  function Insert(s: Store, nv: NodeVersion): (Store, nat) {
    match Find(s.versions, nv)
    case Some(i) => (s, i)
    case None => (s.(versions := s.versions + [nv]), |s.versions|)
  }

  function InsertAll(s: Store, changes: seq<Change>): (Store, seq<nat>) {
    if changes == [] then (s, [])
    else
      var last := changes[|changes| - 1];
      var (s1, ids) := InsertAll(s, changes[..|changes| - 1]);
      var (s2, id) := Insert(s1, NodeVersion(last.0, last.1));
      (s2, ids + [id])
  }

  /** record_revision without its ref: the new revision is the last one. */
  function Record(s: Store, changes: seq<Change>, parent: Option<nat>): Store {
    var (t, ids) := InsertAll(s, changes);
    t.(revisions := t.revisions + [Revision(parent, ids)])
  }

  lemma {:induction false} InsertAllFacts(s: Store, changes: seq<Change>)
    requires Valid(s)
    ensures var (t, ids) := InsertAll(s, changes);
            && Valid(t) && Extends(s, t) && t.revisions == s.revisions
            && |ids| == |changes|
            && (forall i | 0 <= i < |ids| :: ids[i] < |t.versions|
                  && t.versions[ids[i]] == NodeVersion(changes[i].0, changes[i].1))
  {
    if changes != [] {
      var k := |changes| - 1;
      InsertAllFacts(s, changes[..k]);
      InsertFacts(InsertAll(s, changes[..k]).0, NodeVersion(changes[k].0, changes[k].1));
    }
  }

  lemma InsertFacts(s: Store, nv: NodeVersion)
    requires Valid(s)
    ensures var (t, id) := Insert(s, nv);
            && Valid(t) && Extends(s, t) && t.revisions == s.revisions
            && id < |t.versions| && t.versions[id] == nv
  {
    var t := Insert(s, nv).0;
    forall r | 0 <= r < |t.revisions|
      ensures ValidRevision(t, r)
    {
      assert ValidRevision(s, r);
    }
  }

  /** A recorded revision holds exactly the given changes, in order; the store stays
      valid and only grows. */
  lemma RecordKeepsChanges(s: Store, changes: seq<Change>, parent: Option<nat>)
    requires Valid(s) && InRange(s, parent)
    ensures var t := Record(s, changes, parent);
            var rev := |s.revisions|;
            && Valid(t) && Extends(s, t) && |t.revisions| == rev + 1
            && t.revisions[rev].parent == parent
            && |t.revisions[rev].versions| == |changes|
            && forall i | 0 <= i < |changes| ::
                 t.revisions[rev].versions[i] < |t.versions| &&
                 t.versions[t.revisions[rev].versions[i]] == NodeVersion(changes[i].0, changes[i].1)
  {
    InsertAllFacts(s, changes);
    var s1 := InsertAll(s, changes).0;
    var t := Record(s, changes, parent);
    forall r | 0 <= r < |t.revisions|
      ensures ValidRevision(t, r)
    {
      if r < |s.revisions| {
        assert ValidRevision(s1, r);
      }
    }
  }

  // ----- reading a state back -----

  /** The versions of one entity that one revision holds. */
  function Touches(s: Store, r: nat, e: Id): set<nat>
    requires r < |s.revisions| && ValidRevision(s, r)
  {
    set v | v in s.revisions[r].versions && s.versions[v].entity == e
  }

  /** The versions of e held by the nearest revision at or above at that holds any.
      The walk of state_at keeps the first of them it is handed, and the query that
      hands them over has no ORDER BY, so any of them can be first. */
  function Candidates(s: Store, at: Option<nat>, e: Id): set<nat>
    requires Valid(s) && InRange(s, at)
    decreases if at.Some? then at.value + 1 else 0
  {
    match at
    case None => {}
    case Some(r) =>
      var here := Touches(s, r, e);
      if here != {} then here else Candidates(s, s.revisions[r].parent, e)
  }

  lemma {:induction false} CandidatesBelongToEntity(s: Store, at: Option<nat>, e: Id)
    requires Valid(s) && InRange(s, at)
    ensures forall v | v in Candidates(s, at, e) :: v < |s.versions| && s.versions[v].entity == e
    decreases if at.Some? then at.value + 1 else 0
  {
    if at.Some? && Touches(s, at.value, e) == {} {
      CandidatesBelongToEntity(s, s.revisions[at.value].parent, e);
    }
  }

  predicate Deleted(s: Store, v: nat) {
    v < |s.versions| && s.versions[v].snapshot.deleted
  }

  /** One entity of a possible result of state_at. */
  ghost predicate Choice(s: Store, at: Option<nat>, e: Id, pick: Option<nat>)
    requires Valid(s) && InRange(s, at)
  {
    var c := Candidates(s, at, e);
    match pick
    case Some(v) => v in c && !Deleted(s, v)
    case None => c == {} || exists v | v in c :: Deleted(s, v)
  }

  function Get(m: map<Id, nat>, e: Id): Option<nat> {
    if e in m then Some(m[e]) else None
  }

  /** m is a possible result of state_at: every fetch order gives one of these. */
  ghost predicate IsStateAt(s: Store, at: Option<nat>, m: map<Id, nat>)
    requires Valid(s) && InRange(s, at)
  {
    forall e: Id :: Choice(s, at, e, Get(m, e))
  }

  /** state_at has one answer for e: no two versions compete, unless all say deleted. */
  ghost predicate Unambiguous(s: Store, at: Option<nat>, e: Id)
    requires Valid(s) && InRange(s, at)
  {
    forall v, w | v in Candidates(s, at, e) && w in Candidates(s, at, e) ::
      v == w || (Deleted(s, v) && Deleted(s, w))
  }

  function Entities(s: Store): set<Id> {
    set v | 0 <= v < |s.versions| :: s.versions[v].entity
  }

  ghost function PickOne(c: set<nat>): nat
    requires c != {}
  {
    var v :| v in c; v
  }

  /** The result of state_at when pick decides between competing versions of x. */
  ghost function StateChoosing(s: Store, at: Option<nat>, x: Id, pick: nat): map<Id, nat>
    requires Valid(s) && InRange(s, at)
  {
    map e | e in Entities(s) && Candidates(s, at, e) != {}
            && !Deleted(s, if e == x then pick else PickOne(Candidates(s, at, e)))
      :: if e == x then pick else PickOne(Candidates(s, at, e))
  }

  lemma StateChoosingIsPossible(s: Store, at: Option<nat>, x: Id, pick: nat)
    requires Valid(s) && InRange(s, at)
    requires pick in Candidates(s, at, x)
    ensures IsStateAt(s, at, StateChoosing(s, at, x, pick))
  {
    var m := StateChoosing(s, at, x, pick);
    forall e: Id
      ensures Choice(s, at, e, Get(m, e))
    {
      CandidatesBelongToEntity(s, at, e);
      if Candidates(s, at, e) != {} {
        var v :| v in Candidates(s, at, e);
        assert e in Entities(s);
      }
    }
  }

  /** state_at is a function of the revision exactly when no revision on the way
      holds competing versions. */
  lemma StateAtDeterministicIff(s: Store, at: Option<nat>)
    requires Valid(s) && InRange(s, at)
    ensures (forall m, n | IsStateAt(s, at, m) && IsStateAt(s, at, n) :: m == n)
       <==> (forall e: Id :: Unambiguous(s, at, e))
  {
    if forall e: Id :: Unambiguous(s, at, e) {
      forall m, n | IsStateAt(s, at, m) && IsStateAt(s, at, n)
        ensures m == n
      {
        forall e: Id
          ensures Get(m, e) == Get(n, e)
        {
          assert Unambiguous(s, at, e);
          assert Choice(s, at, e, Get(m, e)) && Choice(s, at, e, Get(n, e));
        }
        assert forall e: Id :: e in m <==> Get(m, e).Some?;
        assert forall e: Id :: e in n <==> Get(n, e).Some?;
        assert m.Keys == n.Keys;
        assert forall e | e in m :: m[e] == Get(m, e).value == Get(n, e).value;
      }
    } else {
      var e: Id :| !Unambiguous(s, at, e);
      AmbiguityShows(s, at, e);
    }
  }

  lemma AmbiguityShows(s: Store, at: Option<nat>, e: Id)
    requires Valid(s) && InRange(s, at) && !Unambiguous(s, at, e)
    ensures exists m, n :: IsStateAt(s, at, m) && IsStateAt(s, at, n) && m != n
  {
    var v, w :| v in Candidates(s, at, e) && w in Candidates(s, at, e)
                && v != w && !(Deleted(s, v) && Deleted(s, w));
    StateChoosingIsPossible(s, at, e, v);
    StateChoosingIsPossible(s, at, e, w);
    var m, n := StateChoosing(s, at, e, v), StateChoosing(s, at, e, w);
    CandidatesBelongToEntity(s, at, e);
    assert e in Entities(s);
    assert Get(m, e) != Get(n, e);
  }

  // ----- rows against a state -----

  /** A materialised state: the table holds exactly the rows its versions restore. */
  ghost predicate Materialises(s: Store, m: map<Id, nat>, rows: Table) {
    forall e: Id ::
      if e in m then
        m[e] < |s.versions| && Lookup(rows, e).Some?
        && RowOf(s.versions[m[e]].snapshot.content) == Lookup(rows, e)
      else
        Lookup(rows, e) == None
  }

  /** Whatever version of e state_at picks, it stands for this row (None: no row). */
  ghost predicate Shows(s: Store, at: Option<nat>, e: Id, row: Option<Row>)
    requires Valid(s) && InRange(s, at)
  {
    && (Candidates(s, at, e) == {} ==> row == None)
    && forall v | v in Candidates(s, at, e) ::
         v < |s.versions|
         && if Deleted(s, v) then row == None
            else row.Some? && RowOf(s.versions[v].snapshot.content) == row
  }

  /** Rows agree with a revision: every possible result of state_at materialises them. */
  ghost predicate Agrees(s: Store, at: Option<nat>, rows: Table)
    requires Valid(s) && InRange(s, at)
  {
    forall e: Id :: Shows(s, at, e, Lookup(rows, e))
  }

  lemma AgreesIffEveryStateMaterialises(s: Store, at: Option<nat>, rows: Table)
    requires Valid(s) && InRange(s, at)
    ensures Agrees(s, at, rows)
       <==> forall m | IsStateAt(s, at, m) :: Materialises(s, m, rows)
  {
    if Agrees(s, at, rows) {
      forall m | IsStateAt(s, at, m)
        ensures Materialises(s, m, rows)
      {
        forall e: Id
          ensures if e in m then
                    m[e] < |s.versions| && Lookup(rows, e).Some?
                    && RowOf(s.versions[m[e]].snapshot.content) == Lookup(rows, e)
                  else Lookup(rows, e) == None
        {
          assert Choice(s, at, e, Get(m, e)) && Shows(s, at, e, Lookup(rows, e));
        }
      }
    } else {
      var e: Id :| !Shows(s, at, e, Lookup(rows, e));
      CandidatesBelongToEntity(s, at, e);
      if Candidates(s, at, e) == {} {
        StateExists(s, at);
        var m :| IsStateAt(s, at, m);
        assert Choice(s, at, e, Get(m, e));
      } else {
        var v :| v in Candidates(s, at, e)
          && !(if Deleted(s, v) then Lookup(rows, e) == None
               else Lookup(rows, e).Some? && RowOf(s.versions[v].snapshot.content) == Lookup(rows, e));
        StateChoosingIsPossible(s, at, e, v);
        var m := StateChoosing(s, at, e, v);
        assert e in Entities(s);
      }
    }
  }

  lemma StateExists(s: Store, at: Option<nat>)
    requires Valid(s) && InRange(s, at)
    ensures exists m :: IsStateAt(s, at, m)
  {
    if x: Id :| Candidates(s, at, x) != {} {
      var pick :| pick in Candidates(s, at, x);
      StateChoosingIsPossible(s, at, x, pick);
    } else {
      var m: map<Id, nat> := map[];
      assert forall e: Id :: Choice(s, at, e, Get(m, e));
      assert IsStateAt(s, at, m);
    }
  }

  /** At most one table agrees with a revision. */
  lemma AgreesUnique(s: Store, at: Option<nat>, rows: Table, rows': Table)
    requires Valid(s) && InRange(s, at)
    requires Agrees(s, at, rows) && Agrees(s, at, rows')
    ensures rows == rows'
  {
    forall e: Id
      ensures Lookup(rows, e) == Lookup(rows', e)
    {
      assert Shows(s, at, e, Lookup(rows, e)) && Shows(s, at, e, Lookup(rows', e));
      if v :| v in Candidates(s, at, e) {}
    }
    TablesEqual(rows, rows');
  }

  lemma TablesEqual(rows: Table, rows': Table)
    requires forall e: Id :: Lookup(rows, e) == Lookup(rows', e)
    ensures rows == rows'
  {
    assert forall e | e in rows :: Lookup(rows, e) == Some(rows[e]);
    assert forall e | e in rows' :: Lookup(rows', e) == Some(rows'[e]);
    assert rows.Keys == rows'.Keys;
  }

  // ----- history never changes -----

  lemma {:induction false} CandidatesStable(s: Store, t: Store, at: Option<nat>, e: Id)
    requires Valid(s) && Valid(t) && Extends(s, t) && InRange(s, at)
    ensures Candidates(t, at, e) == Candidates(s, at, e)
    decreases if at.Some? then at.value + 1 else 0
  {
    if at.Some? {
      assert ValidRevision(s, at.value);
      assert Touches(t, at.value, e) == Touches(s, at.value, e);
      if Touches(s, at.value, e) == {} {
        CandidatesStable(s, t, s.revisions[at.value].parent, e);
      }
    }
  }

  /** Growing the store changes neither what state_at may return at an existing
      revision nor the rows that agree with it. */
  lemma HistoryImmutable(s: Store, t: Store, at: Option<nat>)
    requires Valid(s) && Valid(t) && Extends(s, t) && InRange(s, at)
    ensures forall m :: IsStateAt(t, at, m) <==> IsStateAt(s, at, m)
    ensures forall rows :: Agrees(t, at, rows) <==> Agrees(s, at, rows)
  {
    forall e: Id
      ensures Candidates(t, at, e) == Candidates(s, at, e)
      ensures forall pick :: Choice(t, at, e, pick) <==> Choice(s, at, e, pick)
      ensures forall row :: Shows(t, at, e, row) <==> Shows(s, at, e, row)
    {
      CandidatesStable(s, t, at, e);
      CandidatesBelongToEntity(s, at, e);
      assert forall v: nat | v < |s.versions| :: t.versions[v] == s.versions[v];
    }
    forall m
      ensures IsStateAt(t, at, m) <==> IsStateAt(s, at, m)
    {
      assert forall e: Id :: Choice(t, at, e, Get(m, e)) <==> Choice(s, at, e, Get(m, e));
    }
    forall rows
      ensures Agrees(t, at, rows) <==> Agrees(s, at, rows)
    {
      assert forall e: Id :: Shows(t, at, e, Lookup(rows, e)) <==> Shows(s, at, e, Lookup(rows, e));
    }
  }

  // ----- one write -----

  function ChangedEntities(changes: seq<Change>): set<Id> {
    set i | 0 <= i < |changes| :: changes[i].0
  }

  /** No entity is recorded twice with different snapshots. */
  ghost predicate NoConflict(changes: seq<Change>) {
    forall i, j | 0 <= i < |changes| && 0 <= j < |changes| && changes[i].0 == changes[j].0 ::
      changes[i].1 == changes[j].1
  }

  ghost predicate CleanRevision(s: Store, r: nat)
    requires r < |s.revisions| && ValidRevision(s, r)
  {
    forall v, w | v in s.revisions[r].versions && w in s.revisions[r].versions
                  && s.versions[v].entity == s.versions[w].entity :: v == w
  }

  /** No revision holds two versions of one entity. */
  ghost predicate Clean(s: Store)
    requires Valid(s)
  {
    forall r | 0 <= r < |s.revisions| :: CleanRevision(s, r)
  }

  /** What state_at sees just after changes were recorded on top of parent: of an
      entity not among them, what it saw before. */
  lemma UntouchedAfterRecord(s: Store, changes: seq<Change>, parent: Option<nat>, e: Id)
    requires Valid(s) && InRange(s, parent) && e !in ChangedEntities(changes)
    ensures var t := Record(s, changes, parent);
            var rev := Some(|s.revisions|);
            && Valid(t) && Extends(s, t) && InRange(t, rev)
            && Candidates(t, rev, e) == Candidates(s, parent, e)
  {
    RecordKeepsChanges(s, changes, parent);
    var t := Record(s, changes, parent);
    var r := |s.revisions|;
    assert ValidRevision(t, r);
    var ids := t.revisions[r].versions;
    forall v | v in ids
      ensures t.versions[v].entity != e
    {
      var i :| 0 <= i < |ids| && ids[i] == v;
      assert changes[i].0 in ChangedEntities(changes);
    }
    assert Touches(t, r, e) == {};
    CandidatesStable(s, t, parent, e);
  }

  /** Of an entity among them, one of the snapshots given for it. */
  lemma RecordedAfterRecord(s: Store, changes: seq<Change>, parent: Option<nat>, e: Id)
    requires Valid(s) && InRange(s, parent) && e in ChangedEntities(changes)
    ensures var t := Record(s, changes, parent);
            var rev := Some(|s.revisions|);
            && Valid(t) && InRange(t, rev) && Candidates(t, rev, e) != {}
            && forall v | v in Candidates(t, rev, e) ::
                 v < |t.versions| && exists i | 0 <= i < |changes| ::
                   changes[i].0 == e && t.versions[v] == NodeVersion(e, changes[i].1)
  {
    RecordKeepsChanges(s, changes, parent);
    var t := Record(s, changes, parent);
    var r := |s.revisions|;
    assert ValidRevision(t, r);
    var ids := t.revisions[r].versions;
    var k :| 0 <= k < |changes| && changes[k].0 == e;
    assert ids[k] in Touches(t, r, e);
    forall v | v in Touches(t, r, e)
      ensures exists i | 0 <= i < |changes| :: changes[i].0 == e && t.versions[v] == NodeVersion(e, changes[i].1)
    {
      var i :| 0 <= i < |ids| && ids[i] == v;
      assert t.versions[ids[i]] == NodeVersion(changes[i].0, changes[i].1);
    }
  }

  lemma RecordCleanIff(s: Store, changes: seq<Change>, parent: Option<nat>)
    requires Valid(s) && InRange(s, parent) && Clean(s)
    ensures var t := Record(s, changes, parent);
            Valid(t) && (Clean(t) <==> NoConflict(changes))
  {
    RecordKeepsChanges(s, changes, parent);
    var t := Record(s, changes, parent);
    var r := |s.revisions|;
    var ids := t.revisions[r].versions;
    assert ValidRevision(t, r);
    forall q | 0 <= q < r
      ensures CleanRevision(t, q)
    {
      assert ValidRevision(s, q) && CleanRevision(s, q);
      assert t.revisions[q] == s.revisions[q];
    }
    if NoConflict(changes) {
      forall v, w | v in ids && w in ids && t.versions[v].entity == t.versions[w].entity
        ensures v == w
      {
        var i :| 0 <= i < |ids| && ids[i] == v;
        var j :| 0 <= j < |ids| && ids[j] == w;
        assert t.versions[v] == t.versions[w];
      }
      assert CleanRevision(t, r);
    } else {
      var i, j :| 0 <= i < |changes| && 0 <= j < |changes|
                  && changes[i].0 == changes[j].0 && changes[i].1 != changes[j].1;
      assert ids[i] in ids && ids[j] in ids && ids[i] != ids[j];
      assert !CleanRevision(t, r);
    }
  }

  /** In a clean store state_at has one answer everywhere. */
  lemma {:induction false} CleanMeansOneCandidate(s: Store, at: Option<nat>, e: Id)
    requires Valid(s) && Clean(s) && InRange(s, at)
    ensures forall v, w | v in Candidates(s, at, e) && w in Candidates(s, at, e) :: v == w
    decreases if at.Some? then at.value + 1 else 0
  {
    if at.Some? {
      assert CleanRevision(s, at.value);
      if Touches(s, at.value, e) == {} {
        CleanMeansOneCandidate(s, s.revisions[at.value].parent, e);
      }
    }
  }

  lemma CleanStateUnique(s: Store, at: Option<nat>, m: map<Id, nat>, n: map<Id, nat>)
    requires Valid(s) && Clean(s) && InRange(s, at) && IsStateAt(s, at, m) && IsStateAt(s, at, n)
    ensures m == n
  {
    forall e: Id
      ensures Unambiguous(s, at, e)
    {
      CleanMeansOneCandidate(s, at, e);
    }
    StateAtDeterministicIff(s, at);
  }

  // ----- ancestry -----

  /** anc is at or above at on the parent chain. */
  predicate Descends(s: Store, at: nat, anc: nat)
    requires at < |s.revisions| && (forall r | 0 <= r < |s.revisions| :: ValidRevision(s, r))
    decreases at
  {
    at == anc
    || (s.revisions[at].parent.Some?
        && (assert ValidRevision(s, at); Descends(s, s.revisions[at].parent.value, anc)))
  }

  lemma {:induction false} DescendsIsOlder(s: Store, at: nat, anc: nat)
    requires Valid(s) && at < |s.revisions| && Descends(s, at, anc)
    ensures anc <= at
    decreases at
  {
    if at != anc {
      assert ValidRevision(s, at);
      DescendsIsOlder(s, s.revisions[at].parent.value, anc);
    }
  }

  lemma {:induction false} DescendsStable(s: Store, t: Store, at: nat, anc: nat)
    requires Valid(s) && Valid(t) && Extends(s, t) && at < |s.revisions|
    ensures Descends(t, at, anc) <==> Descends(s, at, anc)
    decreases at
  {
    assert ValidRevision(s, at);
    if at != anc && s.revisions[at].parent.Some? {
      DescendsStable(s, t, s.revisions[at].parent.value, anc);
    }
  }
}
