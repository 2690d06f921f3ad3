/** When a write keeps the working rows and the version store in agreement. */
module WriteSoundness {
  import opened Rows
  import opened VersionStore
  import opened Restore
  import opened Propagation
  import opened Protocol

  predicate StandsFor(snapshot: Snapshot, row: Option<Row>) {
    if snapshot.deleted then row == None
    else row.Some? && RowOf(snapshot.content) == row
  }

  /** Every entity of a change list has an entry that stands for its row. */
  ghost predicate Reflects(changes: seq<Change>, rows: Table) {
    forall e | e in ChangedEntities(changes) ::
      exists i | 0 <= i < |changes| :: changes[i].0 == e && StandsFor(changes[i].1, Lookup(rows, e))
  }

  ghost predicate SameOutside(changes: seq<Change>, before: Table, after: Table) {
    forall e: Id | e !in ChangedEntities(changes) :: Lookup(after, e) == Lookup(before, e)
  }

  lemma ChangedAppend(p: seq<Change>, q: seq<Change>)
    ensures ChangedEntities(p + q) == ChangedEntities(p) + ChangedEntities(q)
  {
    forall e | e in ChangedEntities(q)
      ensures e in ChangedEntities(p + q)
    {
      var i :| 0 <= i < |q| && q[i].0 == e;
      assert (p + q)[|p| + i].0 == e;
    }
    forall e | e in ChangedEntities(p)
      ensures e in ChangedEntities(p + q)
    {
      var i :| 0 <= i < |p| && p[i].0 == e;
      assert (p + q)[i].0 == e;
    }
  }

  /** Recording on after recording: the later entries speak for what they name. */
  lemma ReflectsAppend(p: seq<Change>, q: seq<Change>, before: Table, middle: Table, after: Table)
    requires Reflects(p, middle) && SameOutside(p, before, middle)
    requires Reflects(q, after) && SameOutside(q, middle, after)
    ensures Reflects(p + q, after) && SameOutside(p + q, before, after)
  {
    ChangedAppend(p, q);
    forall e | e in ChangedEntities(p + q)
      ensures exists i | 0 <= i < |p + q| :: (p + q)[i].0 == e && StandsFor((p + q)[i].1, Lookup(after, e))
    {
      if e in ChangedEntities(q) {
        var i :| 0 <= i < |q| && q[i].0 == e && StandsFor(q[i].1, Lookup(after, e));
        assert (p + q)[|p| + i] == q[i];
      } else {
        var i :| 0 <= i < |p| && p[i].0 == e && StandsFor(p[i].1, Lookup(middle, e));
        assert (p + q)[i] == p[i];
      }
    }
  }

  predicate AllRestorable(changes: seq<Change>) {
    forall i | 0 <= i < |changes| :: RowOf(changes[i].1.content).Some?
  }

  lemma OneChange(id: Id, snapshot: Snapshot, before: Table, after: Table)
    requires StandsFor(snapshot, Lookup(after, id))
    requires forall e: Id | e != id :: Lookup(after, e) == Lookup(before, e)
    ensures Reflects([(id, snapshot)], after) && SameOutside([(id, snapshot)], before, after)
  {
    var q := [(id, snapshot)];
    assert q[0].0 == id;
  }

  lemma {:induction false} PerformReflects(rows: Table, edits: seq<Edit>)
    requires UniqueKeys(rows) && Perform(rows, edits).Some?
    ensures var (t, changes) := Perform(rows, edits).value;
            UniqueKeys(t) && Reflects(changes, t) && SameOutside(changes, rows, t) && AllRestorable(changes)
  {
    if edits != [] {
      var k := |edits| - 1;
      PerformReflects(rows, edits[..k]);
      var (t, changes) := Perform(rows, edits[..k]).value;
      var (id, after) := edits[k];
      match after {
        case Some(row) =>
          OneChange(id, SnapshotOf(row), t, t[id := row]);
          ReflectsAppend(changes, [(id, SnapshotOf(row))], rows, t, t[id := row]);
          UniqueAfterStore(t, id, row);
        case None =>
          OneChange(id, Tombstone(t[id]), t, t - {id});
          ReflectsAppend(changes, [(id, Tombstone(t[id]))], rows, t, t - {id});
          UniqueAfterDelete(t, {id});
      }
    }
  }

  lemma {:induction false} UpdatesReflect(rows: Table, updates: seq<StatusUpdate>)
    requires UniqueKeys(rows) && ApplyUpdates(rows, updates).Some?
    ensures var (t, snaps) := ApplyUpdates(rows, updates).value;
            UniqueKeys(t) && Reflects(snaps, t) && SameOutside(snaps, rows, t) && AllRestorable(snaps)
  {
    if updates != [] {
      var k := |updates| - 1;
      UpdatesReflect(rows, updates[..k]);
      var (t, snaps) := ApplyUpdates(rows, updates[..k]).value;
      var (u, status) := updates[k];
      var s := t[u].step;
      if s.status != status {
        var row := StepRow(s.(status := status));
        assert KeyOf(row) == KeyOf(t[u]) && !Clashes(t, u, t[u]);
        UniqueAfterStore(t, u, row);
        OneChange(u, StepSnapshot(s, status), t, t[u := row]);
        ReflectsAppend(snaps, [(u, StepSnapshot(s, status))], rows, t, t[u := row]);
      }
    }
  }

  /** What a request records stands for the rows it leaves; rows it neither records
      nor edits silently are as before. */
  lemma EffectReflects(rows: Table, req: Request)
    requires UniqueKeys(rows) && Effect(rows, req).Some?
    ensures var (t, changes) := Effect(rows, req).value;
            UniqueKeys(t) && Reflects(changes, t) && AllRestorable(changes)
            && (req.silent == [] ==> SameOutside(changes, rows, t))
  {
    PerformReflects(rows, req.silent);
    var quiet := Perform(rows, req.silent).value.0;
    PerformReflects(quiet, req.edits);
    var (edited, changes) := Perform(quiet, req.edits).value;
    if req.cascade.Some? {
      UpdatesReflect(edited, req.updates);
      var (t, snaps) := ApplyUpdates(edited, req.updates).value;
      ReflectsAppend(changes, snaps, quiet, edited, t);
    }
  }

  /** Recording keeps agreement exactly when no entity is recorded twice with different
      snapshots and every row that changed is recorded. */
  lemma RecordingAgreesIff(s: Store, at: Option<nat>, before: Table, changes: seq<Change>, after: Table)
    requires Valid(s) && InRange(s, at) && Clean(s) && Agrees(s, at, before)
    requires Reflects(changes, after)
    ensures var t := Record(s, changes, at);
            var rev := Some(|s.revisions|);
            Valid(t) && InRange(t, rev)
            && (Clean(t) && Agrees(t, rev, after)
                <==> NoConflict(changes) && SameOutside(changes, before, after))
  {
    RecordCleanIff(s, changes, at);
    RecordKeepsChanges(s, changes, at);
    var t := Record(s, changes, at);
    var rev := Some(|s.revisions|);
    forall e: Id
      ensures e in ChangedEntities(changes) && NoConflict(changes) ==> Shows(t, rev, e, Lookup(after, e))
      ensures e !in ChangedEntities(changes) ==>
                (Shows(t, rev, e, Lookup(after, e)) <==> Lookup(after, e) == Lookup(before, e))
    {
      if e !in ChangedEntities(changes) {
        UntouchedAfterRecord(s, changes, at, e);
        assert Shows(s, at, e, Lookup(before, e));
        UntouchedShows(s, t, at, rev, e, Lookup(before, e), Lookup(after, e));
      } else if NoConflict(changes) {
        RecordedShows(s, at, changes, after, e);
      }
    }
  }

  lemma RecordedShows(s: Store, at: Option<nat>, changes: seq<Change>, after: Table, e: Id)
    requires Valid(s) && InRange(s, at) && NoConflict(changes)
    requires Reflects(changes, after) && e in ChangedEntities(changes)
    ensures var t := Record(s, changes, at);
            var rev := Some(|s.revisions|);
            Valid(t) && InRange(t, rev) && Shows(t, rev, e, Lookup(after, e))
  {
    RecordedAfterRecord(s, changes, at, e);
    var t := Record(s, changes, at);
    var i :| 0 <= i < |changes| && changes[i].0 == e && StandsFor(changes[i].1, Lookup(after, e));
    forall v | v in Candidates(t, Some(|s.revisions|), e)
      ensures v < |t.versions| && t.versions[v] == NodeVersion(e, changes[i].1)
    {
      var j :| 0 <= j < |changes| && t.versions[v] == NodeVersion(e, changes[j].1) && changes[j].0 == e;
      assert changes[j].1 == changes[i].1;
    }
  }

  lemma UntouchedShows(s: Store, t: Store, at: Option<nat>, rev: Option<nat>, e: Id,
                       before: Option<Row>, after: Option<Row>)
    requires Valid(s) && Valid(t) && Extends(s, t) && InRange(s, at) && InRange(t, rev)
    requires Candidates(t, rev, e) == Candidates(s, at, e)
    requires Shows(s, at, e, before)
    ensures Shows(t, rev, e, after) <==> after == before
  {
    CandidatesBelongToEntity(s, at, e);
    assert forall v: nat | v < |s.versions| :: t.versions[v] == s.versions[v];
    if Candidates(s, at, e) != {} {
      var v :| v in Candidates(s, at, e);
      assert Deleted(t, v) <==> Deleted(s, v);
    }
  }
}
