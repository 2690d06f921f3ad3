/** Invalidation: which steps a change sends back to needs_review, and how the status
    updates reach the rows. */
module Propagation {
  import opened Rows
  import opened Sorting
  import opened StepTree
  import opened VersionStore

  type StatusUpdate = (Id, Status)

  // ----- apply_status_updates -----

  /** The rows and the recorded snapshots after a list of status updates; None when a
      step is missing or a transition is illegal. A step already at its status is
      skipped, and its snapshot is not recorded. */
  function ApplyUpdates(rows: Table, updates: seq<StatusUpdate>): Option<(Table, seq<Change>)> {
    if updates == [] then Some((rows, []))
    else
      var (u, status) := updates[|updates| - 1];
      match ApplyUpdates(rows, updates[..|updates| - 1])
      case None => None
      case Some((t, snaps)) =>
        if u !in t || !t[u].StepRow? then None
        else
          var s := t[u].step;
          if s.status == status then Some((t, snaps))
          else if !ValidTransition(s.status, status, IsAtomic(s), true) then None
          else Some((t[u := StepRow(s.(status := status))], snaps + [(u, StepSnapshot(s, status))]))
  }

  lemma {:induction false} FailingPrefix(rows: Table, updates: seq<StatusUpdate>, k: nat)
    requires k <= |updates| && ApplyUpdates(rows, updates[..k]).None?
    ensures ApplyUpdates(rows, updates).None?
    decreases |updates|
  {
    if k == |updates| {
      assert updates[..k] == updates;
    } else {
      assert updates[..|updates| - 1][..k] == updates[..k];
      FailingPrefix(rows, updates[..|updates| - 1], k);
    }
  }

  /** An update that apply_status_updates lets through: the step is there, and it is at the
      new status already, or may go there inside a cascade. */
  predicate LetThrough(rows: Table, u: Id, status: Status) {
    && u in rows && rows[u].StepRow?
    && (var s := rows[u].step;
        s.status == status
        || (KnownStatus(s.status, s.level == 5) && KnownStatus(status, s.level == 5)
            && (status == NeedsReview || status in LegalTargets(s.status, s.level == 5))))
  }

  /** Every updated step has its new status, nothing else changed, and exactly the steps
      whose status changed are recorded, each as the row it now is. */
  ghost predicate Updated(rows: Table, updates: seq<StatusUpdate>, t: Table, snaps: seq<Change>) {
    && (forall i | 0 <= i < |updates| ::
          LetThrough(rows, updates[i].0, updates[i].1)
          && Lookup(t, updates[i].0) == Some(StepRow(rows[updates[i].0].step.(status := updates[i].1))))
    && (forall e: Id | (forall i | 0 <= i < |updates| :: updates[i].0 != e) :: Lookup(t, e) == Lookup(rows, e))
    && (forall c :: c in snaps <==>
          exists i | 0 <= i < |updates| ::
            Lookup(rows, updates[i].0) != Lookup(t, updates[i].0)
            && Lookup(t, updates[i].0).Some? && c == (updates[i].0, SnapshotOf(t[updates[i].0])))
  }

  /** One more update of a step that is still as it was. */
  lemma OneUpdate(t: Table, snaps: seq<Change>, u: Id, status: Status, rows: Table, updates: seq<StatusUpdate>)
    requires updates != [] && updates[|updates| - 1] == (u, status)
    requires ApplyUpdates(rows, updates[..|updates| - 1]) == Some((t, snaps)) && Lookup(t, u) == Lookup(rows, u)
    ensures ApplyUpdates(rows, updates)
         == if !LetThrough(rows, u, status) then None
            else if rows[u].step.status == status then Some((t, snaps))
            else Some((t[u := StepRow(rows[u].step.(status := status))],
                       snaps + [(u, StepSnapshot(rows[u].step, status))]))
  {
  }

  lemma SkippedUpdate(rows: Table, updates: seq<StatusUpdate>, t: Table, snaps: seq<Change>)
    requires updates != [] && Updated(rows, updates[..|updates| - 1], t, snaps)
    requires var (u, status) := updates[|updates| - 1];
             LetThrough(rows, u, status) && rows[u].step.status == status && Lookup(t, u) == Lookup(rows, u)
    ensures Updated(rows, updates, t, snaps)
  {
    assert forall i | 0 <= i < |updates| - 1 :: updates[..|updates| - 1][i] == updates[i];
  }

  lemma MadeUpdate(rows: Table, updates: seq<StatusUpdate>, t: Table, snaps: seq<Change>)
    requires updates != [] && Updated(rows, updates[..|updates| - 1], t, snaps)
    requires forall i | 0 <= i < |updates| - 1 :: updates[i].0 != updates[|updates| - 1].0
    requires var (u, status) := updates[|updates| - 1];
             LetThrough(rows, u, status) && rows[u].step.status != status
    ensures var (u, status) := updates[|updates| - 1];
            Updated(rows, updates, t[u := StepRow(rows[u].step.(status := status))],
                    snaps + [(u, StepSnapshot(rows[u].step, status))])
  {
    assert forall i | 0 <= i < |updates| - 1 :: updates[..|updates| - 1][i] == updates[i];
  }

  /** Updates of different steps get through exactly if each does, and then leave this. */
  lemma {:induction false} UpdatesExactly(rows: Table, updates: seq<StatusUpdate>)
    requires forall i, j | 0 <= i < j < |updates| :: updates[i].0 != updates[j].0
    ensures ApplyUpdates(rows, updates).Some?
       <==> forall i | 0 <= i < |updates| :: LetThrough(rows, updates[i].0, updates[i].1)
    ensures ApplyUpdates(rows, updates).Some? ==>
              Updated(rows, updates, ApplyUpdates(rows, updates).value.0, ApplyUpdates(rows, updates).value.1)
  {
    if updates != [] {
      var k := |updates| - 1;
      var front := updates[..k];
      UpdatesExactly(rows, front);
      if ApplyUpdates(rows, front).Some? {
        var (u, status) := updates[k];
        var (t, snaps) := ApplyUpdates(rows, front).value;
        assert Lookup(t, u) == Lookup(rows, u);
        OneUpdate(t, snaps, u, status, rows, updates);
        if LetThrough(rows, u, status) {
          if rows[u].step.status == status {
            SkippedUpdate(rows, updates, t, snaps);
          } else {
            MadeUpdate(rows, updates, t, snaps);
          }
        }
      }
    }
  }

  // ----- step_invalidation -----

  predicate Needs(nodes: Nodes, u: Id) {
    && u in nodes && nodes[u].status != NeedsReview
    && !(IsAtomic(nodes[u]) && (nodes[u].status == Done || nodes[u].status == InProgress))
  }

  function Marks(ids: seq<Id>): seq<StatusUpdate> {
    seq(|ids|, i requires 0 <= i < |ids| => (ids[i], NeedsReview))
  }

  /** The exact answer of step_invalidation: the strict descendants that need it, each
      once, in the order of impact_set. */
  ghost predicate InvalidatesExactly(nodes: Nodes, origin: Id, ids: seq<Id>) {
    && Enumerates(ids, set d | d in Descendants(nodes, origin) && Needs(nodes, d))
    && Ordered(ByKey(TieKey(nodes)), ids)
  }

  predicate Illegal(nodes: Nodes, d: Id) {
    Needs(nodes, d) && !KnownStatus(nodes[d].status, IsAtomic(nodes[d]))
  }

  /** ids are the steps of a list that need invalidation, in list order. */
  ghost predicate Selects(nodes: Nodes, list: seq<Id>, ids: seq<Id>) {
    && Enumerates(ids, set d | d in SetOf(list) && Needs(nodes, d))
    && Ordered(ByKey(TieKey(nodes)), ids)
    && forall d | d in ids :: KnownStatus(nodes[d].status, IsAtomic(nodes[d]))
  }

  lemma SelectionSkips(nodes: Nodes, list: seq<Id>, i: nat, ids: seq<Id>)
    requires i < |list| && Selects(nodes, list[..i], ids) && !Needs(nodes, list[i])
    ensures Selects(nodes, list[..i + 1], ids)
  {
    assert list[..i + 1] == list[..i] + [list[i]];
  }

  lemma SelectionTakes(nodes: Nodes, list: seq<Id>, i: nat, ids: seq<Id>)
    requires i < |list| && Distinct(list) && Ordered(ByKey(TieKey(nodes)), list)
    requires Selects(nodes, list[..i], ids) && Needs(nodes, list[i])
    requires KnownStatus(nodes[list[i]].status, IsAtomic(nodes[list[i]]))
    ensures Selects(nodes, list[..i + 1], ids + [list[i]])
  {
    assert list[..i + 1] == list[..i] + [list[i]];
    assert forall x | x in ids :: x in list[..i];
    assert list[i] !in list[..i];
  }

  method StepInvalidation(nodes: Nodes, origin: Id)
    returns (r: Result<seq<StatusUpdate>>, ghost ids: seq<Id>)
    requires !OnCycle(nodes, origin)
    ensures origin !in nodes <==> r == Raised(ValueError)
    ensures origin in nodes ==>
              (r == Raised(GraphIntegrityError)
               <==> exists d | d in Descendants(nodes, origin) :: TieBreak(nodes, d).None?)
    ensures r == Raised(StatusTransitionError) ==>
              exists d | d in Descendants(nodes, origin) :: Illegal(nodes, d)
    ensures r != Raised(CascadeError)
    ensures origin in nodes ==>
              (r.Ok? <==> forall d | d in Descendants(nodes, origin) :: TieBreak(nodes, d).Some? && !Illegal(nodes, d))
    ensures r.Ok? ==> r.value == Marks(ids) && InvalidatesExactly(nodes, origin, ids)
    ensures r.Ok? ==> |r.value| == |ids| && forall i | 0 <= i < |ids| :: r.value[i] == (ids[i], NeedsReview)
    ensures r.Ok? ==>
              forall d: Id :: d in ids
                <==> d in nodes && StrictlyAbove(nodes, origin, d) && nodes[d].status != NeedsReview
                     && (nodes[d].level == 5 ==> nodes[d].status != Done && nodes[d].status != InProgress)
    ensures origin in nodes ==>
              (r.Ok? <==> forall d: Id | d in nodes && StrictlyAbove(nodes, origin, d) ::
                            && ParentPath(nodes, nodes[d]).Some? && !nodes[d].status.UnknownStatus?
                            && (nodes[d].status == Done || nodes[d].status == InProgress ==> nodes[d].level == 5))
  {
    ids := [];
    if origin !in nodes {
      return Raised(ValueError), ids;
    }
    var impact := ImpactSet(nodes, origin);
    if impact.Raised? {
      return Raised(impact.error), ids;
    }
    var below := impact.value;
    var updates: seq<StatusUpdate> := [];
    for i := 0 to |below|
      invariant updates == Marks(ids)
      invariant Selects(nodes, below[..i], ids)
    {
      var d := below[i];
      assert d in Descendants(nodes, origin);
      if !Needs(nodes, d) {
        SelectionSkips(nodes, below, i, ids);
        continue;
      }
      if !ValidTransition(nodes[d].status, NeedsReview, IsAtomic(nodes[d]), true) {
        return Raised(StatusTransitionError), ids;
      }
      SelectionTakes(nodes, below, i, ids);
      updates := updates + [(d, NeedsReview)];
      ids := ids + [d];
    }
    assert below[..|below|] == below;
    assert SetOf(below) == Descendants(nodes, origin);
    forall d | d in Descendants(nodes, origin) && Needs(nodes, d)
      ensures !Illegal(nodes, d)
    {
      assert d in ids;
    }
    r := Ok(updates);
  }

  // ----- what marking does to the rows -----

  predicate AreSteps(rows: Table, ids: seq<Id>) {
    forall u | u in ids :: u in rows && rows[u].StepRow?
  }

  predicate AllKnown(rows: Table, ids: seq<Id>)
    requires AreSteps(rows, ids)
  {
    forall u | u in ids :: KnownStatus(rows[u].step.status, IsAtomic(rows[u].step))
  }

  function Marked(row: Row): Row
    requires row.StepRow?
  {
    StepRow(row.step.(status := NeedsReview))
  }

  /** Not yet at needs_review. */
  function Stale(rows: Table): Id -> bool {
    (u: Id) => u in rows && rows[u].StepRow? && rows[u].step.status != NeedsReview
  }

  function MarkSnapshots(rows: Table, ids: seq<Id>): seq<Change>
    requires AreSteps(rows, ids)
  {
    seq(|ids|, i requires 0 <= i < |ids| => (ids[i], StepSnapshot(rows[ids[i]].step, NeedsReview)))
  }

  /** Marking distinct steps changes exactly their status, and records exactly those
      that were not at needs_review already; it fails exactly on an unknown status
      among the latter. */
  lemma {:induction false} MarkingRows(rows: Table, ids: seq<Id>)
    requires Distinct(ids) && AreSteps(rows, ids)
    ensures AreSteps(rows, Filter(Stale(rows), ids))
    ensures ApplyUpdates(rows, Marks(ids)).Some? <==> AllKnown(rows, Filter(Stale(rows), ids))
    ensures ApplyUpdates(rows, Marks(ids)).Some? ==>
              var (t, snaps) := ApplyUpdates(rows, Marks(ids)).value;
              && snaps == MarkSnapshots(rows, Filter(Stale(rows), ids))
              && forall e: Id :: Lookup(t, e) == if e in ids then Some(Marked(rows[e])) else Lookup(rows, e)
  {
    FilterIn(Stale(rows), ids);
    if ids != [] {
      var k := |ids| - 1;
      var front := ids[..k];
      assert Marks(ids)[..k] == Marks(front);
      MarkingRows(rows, front);
      FilterSnoc(Stale(rows), ids);
      assert ids[k] !in front;
      FilterIn(Stale(rows), front);
      MarkOneMore(rows, ids);
    }
  }

  lemma MarkOneMore(rows: Table, ids: seq<Id>)
    requires ids != [] && Distinct(ids) && AreSteps(rows, ids)
    ensures var k := |ids| - 1;
            var u := ids[k];
            match ApplyUpdates(rows, Marks(ids[..k]))
            case None => ApplyUpdates(rows, Marks(ids)).None?
            case Some((t, snaps)) =>
              Lookup(t, u) == Lookup(rows, u) ==>
                ApplyUpdates(rows, Marks(ids))
                == if !Stale(rows)(u) then Some((t, snaps))
                   else if !KnownStatus(rows[u].step.status, IsAtomic(rows[u].step)) then None
                   else Some((t[u := Marked(rows[u])], snaps + [(u, StepSnapshot(rows[u].step, NeedsReview))]))
  {
    assert Marks(ids)[..|ids| - 1] == Marks(ids[..|ids| - 1]);
    assert ids[|ids| - 1] in ids;
  }

  // ----- the invalidation is a fixpoint -----

  predicate SameLinks(nodes: Nodes, nodes': Nodes) {
    && nodes.Keys == nodes'.Keys
    && forall x | x in nodes :: nodes'[x] == nodes[x].(status := nodes'[x].status)
  }

  lemma {:induction false} SameLinksSameUp(nodes: Nodes, nodes': Nodes, x: Id, k: nat)
    requires SameLinks(nodes, nodes')
    ensures Up(nodes', x, k) == Up(nodes, x, k)
    decreases k
  {
    if k > 0 && x in nodes && nodes[x].parent.Some? {
      SameLinksSameUp(nodes, nodes', nodes[x].parent.value, k - 1);
    }
  }

  lemma SameLinksSameDescendants(nodes: Nodes, nodes': Nodes, origin: Id)
    requires SameLinks(nodes, nodes')
    ensures Descendants(nodes', origin) == Descendants(nodes, origin)
  {
    forall x: Id, k: nat
      ensures Up(nodes', x, k) == Up(nodes, x, k)
    {
      SameLinksSameUp(nodes, nodes', x, k);
    }
  }

  /** After applying the invalidation below a step every step below it is at needs_review,
      changed in nothing else, unless it is an atomic step that executes or has executed:
      that one, and every row outside the list, stays as it is. Computing the invalidation
      again finds nothing left to do. */
  lemma InvalidationFixpoint(rows: Table, origin: Id, ids: seq<Id>, again: seq<Id>)
    requires InvalidatesExactly(Steps(rows), origin, ids)
    requires ApplyUpdates(rows, Marks(ids)).Some?
    ensures var t := ApplyUpdates(rows, Marks(ids)).value.0;
            && (forall e: Id | e !in ids :: Lookup(t, e) == Lookup(rows, e))
            && (forall u | u in Steps(rows) && IsAtomic(rows[u].step)
                           && (rows[u].step.status == Done || rows[u].step.status == InProgress) ::
                  Lookup(t, u) == Lookup(rows, u))
            && (forall d: Id | d in Steps(rows) && StrictlyAbove(Steps(rows), origin, d) ::
                  Lookup(t, d)
                  == if rows[d].step.level == 5 && (rows[d].step.status == Done || rows[d].step.status == InProgress)
                     then Some(rows[d]) else Some(StepRow(rows[d].step.(status := NeedsReview))))
            && (InvalidatesExactly(Steps(t), origin, again) ==> again == [])
  {
    var nodes := Steps(rows);
    assert forall u | u in ids :: u in nodes;
    MarkingRows(rows, ids);
    var t := ApplyUpdates(rows, Marks(ids)).value.0;
    forall x: Id
      ensures x in Steps(t) <==> x in nodes
      ensures x in nodes ==> Steps(t)[x] == nodes[x].(status := Steps(t)[x].status)
    {
      assert Lookup(t, x) == if x in ids then Some(Marked(rows[x])) else Lookup(rows, x);
    }
    SameLinksSameDescendants(nodes, Steps(t), origin);
    forall d | d in Descendants(nodes, origin)
      ensures !Needs(Steps(t), d)
      ensures Lookup(t, d) == if d in ids then Some(Marked(rows[d])) else Some(rows[d])
    {
      assert Lookup(t, d) == if d in ids then Some(Marked(rows[d])) else Lookup(rows, d);
    }
    if InvalidatesExactly(Steps(t), origin, again) && again != [] {
      assert again[0] in again;
    }
  }

  // ----- invalidation of the global steps -----

  function Global(rows: Table): Id -> bool {
    (u: Id) => u in rows && rows[u].StepRow? && rows[u].step.level == 3
  }

  function StaleGlobal(rows: Table): Id -> bool {
    (u: Id) => Stale(rows)(u) && Global(rows)(u)
  }

  function StepIdKey(rows: Table): Id -> Key {
    (u: Id) => Key(0, if u in rows && rows[u].StepRow? then [rows[u].step.stepId] else [])
  }

  /** The list the concept and relation commands build: every global step, sorted by
      step_id. order is the order in which the rows happen to be loaded. */
  function AllGlobals(rows: Table, order: seq<Id>): seq<Id> {
    Sort(ByKey(StepIdKey(rows)), Filter(Global(rows), order))
  }

  /** The list of mrs_invalidation: the same without the steps already at needs_review. */
  function StaleGlobals(rows: Table, order: seq<Id>): seq<Id> {
    Sort(ByKey(StepIdKey(rows)), Filter(StaleGlobal(rows), order))
  }

  method MrsInvalidation(rows: Table, order: seq<Id>) returns (r: Result<seq<StatusUpdate>>)
    requires Distinct(order)
    ensures AreSteps(rows, StaleGlobals(rows, order))
    ensures r.Ok? <==> AllKnown(rows, StaleGlobals(rows, order))
    ensures r.Ok? ==> r.value == Marks(StaleGlobals(rows, order))
    ensures r.Raised? ==> r.error == StatusTransitionError
    ensures r.Ok? ==> MarksGlobals(rows, order, r.value)
    ensures r.Ok? <==> forall u | u in order && u in rows && rows[u].StepRow? && rows[u].step.level == 3 ::
                         rows[u].step.status in {Draft, ReadyForReview, Frozen, NeedsReview}
  {
    GlobalsFacts(rows, order);
    GlobalsOrder(rows, order);
    r := MarkGlobals(rows, StaleGlobals(rows, order));
  }

  /** The updates send exactly the loaded steps of level 3 that are not there yet to
      needs_review, in the order of their step ids. */
  predicate MarksGlobals(rows: Table, order: seq<Id>, updates: seq<StatusUpdate>) {
    && (forall i | 0 <= i < |updates| ::
          updates[i].0 in rows && rows[updates[i].0].StepRow? && updates[i].1 == NeedsReview)
    && (forall u | u in order && u in rows && rows[u].StepRow? ::
          (exists i | 0 <= i < |updates| :: updates[i].0 == u)
          <==> rows[u].step.level == 3 && rows[u].step.status != NeedsReview)
    && (forall i | 0 <= i < |updates| :: updates[i].0 in order)
    && forall i, j | 0 <= i < j < |updates| ::
         updates[i].0 != updates[j].0
         && TextLe(rows[updates[i].0].step.stepId, rows[updates[j].0].step.stepId)
  }

  lemma GlobalsOrder(rows: Table, order: seq<Id>)
    requires Distinct(order)
    ensures AreSteps(rows, StaleGlobals(rows, order))
    ensures MarksGlobals(rows, order, Marks(StaleGlobals(rows, order)))
  {
    GlobalsFacts(rows, order);
    ByKeyIsTotalPreorder(StepIdKey(rows));
    SortSorts(ByKey(StepIdKey(rows)), Filter(StaleGlobal(rows), order));
    assert forall u: Id ::
        StaleGlobal(rows)(u)
        <==> u in rows && rows[u].StepRow? && rows[u].step.level == 3 && rows[u].step.status != NeedsReview;
    ListMarksGlobals(rows, order, StaleGlobals(rows, order));
  }

  lemma ListMarksGlobals(rows: Table, order: seq<Id>, q: seq<Id>)
    requires Distinct(q) && Ordered(ByKey(StepIdKey(rows)), q)
    requires forall u :: u in q <==> u in order && u in rows && rows[u].StepRow?
                                     && rows[u].step.level == 3 && rows[u].step.status != NeedsReview
    ensures MarksGlobals(rows, order, Marks(q))
  {
    forall i | 0 <= i < |q|
      ensures q[i] in order && q[i] in rows && rows[q[i]].StepRow?
    {
      assert q[i] in q;
    }
    forall i, j | 0 <= i < j < |q|
      ensures TextLe(rows[q[i]].step.stepId, rows[q[j]].step.stepId)
    {
      assert ByKey(StepIdKey(rows))(q[i], q[j]);
      OneText(rows[q[i]].step.stepId, rows[q[j]].step.stepId);
    }
    forall u | u in q
      ensures exists i | 0 <= i < |Marks(q)| :: Marks(q)[i].0 == u
    {
      var i :| 0 <= i < |q| && q[i] == u;
      assert Marks(q)[i].0 == u;
    }
    forall i | 0 <= i < |Marks(q)|
      ensures Marks(q)[i].0 in q
    {
    }
  }

  lemma OneText(a: string, b: string)
    requires TextsLe([a], [b])
    ensures TextLe(a, b)
  {
    TextTotal(a, a);
  }

  method MarkGlobals(rows: Table, globals: seq<Id>) returns (r: Result<seq<StatusUpdate>>)
    requires AreSteps(rows, globals) && forall u | u in globals :: rows[u].step.level == 3
    ensures r.Ok? <==> AllKnown(rows, globals)
    ensures r.Ok? ==> r.value == Marks(globals)
    ensures r.Raised? ==> r.error == StatusTransitionError
  {
    var updates: seq<StatusUpdate> := [];
    for i := 0 to |globals|
      invariant |updates| == i && forall j | 0 <= j < i :: updates[j] == (globals[j], NeedsReview)
      invariant forall j | 0 <= j < i :: KnownStatus(rows[globals[j]].step.status, false)
    {
      assert globals[i] in globals;
      if !ValidTransition(rows[globals[i]].step.status, NeedsReview, false, true) {
        return Raised(StatusTransitionError);
      }
      updates := updates + [(globals[i], NeedsReview)];
    }
    r := Ok(updates);
  }

  lemma GlobalsFacts(rows: Table, order: seq<Id>)
    requires Distinct(order)
    ensures Distinct(AllGlobals(rows, order)) && Distinct(StaleGlobals(rows, order))
    ensures forall u :: u in AllGlobals(rows, order) <==> u in order && Global(rows)(u)
    ensures forall u :: u in StaleGlobals(rows, order) <==> u in order && StaleGlobal(rows)(u)
    ensures Filter(Stale(rows), AllGlobals(rows, order)) == StaleGlobals(rows, order)
    ensures AreSteps(rows, AllGlobals(rows, order)) && AreSteps(rows, StaleGlobals(rows, order))
    ensures forall u | u in StaleGlobals(rows, order) :: rows[u].step.level == 3
  {
    ByKeyIsTotalPreorder(StepIdKey(rows));
    var all, stale := Filter(Global(rows), order), Filter(StaleGlobal(rows), order);
    FilterIn(Global(rows), order);
    FilterIn(StaleGlobal(rows), order);
    FilterDistinct(Global(rows), order);
    FilterDistinct(StaleGlobal(rows), order);
    SortSorts(ByKey(StepIdKey(rows)), all);
    SortSorts(ByKey(StepIdKey(rows)), stale);
    PermutationEnumerates(all, AllGlobals(rows, order), SetOf(all));
    PermutationEnumerates(stale, StaleGlobals(rows, order), SetOf(stale));
    FilterFilter(Stale(rows), Global(rows), StaleGlobal(rows), order);
    SortFilterCommute(ByKey(StepIdKey(rows)), Stale(rows), all);
  }

  lemma BothListsMark(rows: Table, order: seq<Id>)
    requires Enumerates(order, Steps(rows).Keys)
    ensures AreSteps(rows, StaleGlobals(rows, order))
    ensures ApplyUpdates(rows, Marks(AllGlobals(rows, order)))
         == ApplyUpdates(rows, Marks(StaleGlobals(rows, order)))
    ensures ApplyUpdates(rows, Marks(AllGlobals(rows, order))).Some?
       <==> AllKnown(rows, StaleGlobals(rows, order))
    ensures ApplyUpdates(rows, Marks(AllGlobals(rows, order))).Some? ==>
              var (t, snaps) := ApplyUpdates(rows, Marks(AllGlobals(rows, order))).value;
              && snaps == MarkSnapshots(rows, StaleGlobals(rows, order))
              && forall e: Id ::
                   Lookup(t, e) == if Global(rows)(e) then Some(Marked(rows[e])) else Lookup(rows, e)
  {
    GlobalsFacts(rows, order);
    var all, stale := AllGlobals(rows, order), StaleGlobals(rows, order);
    MarkingRows(rows, all);
    MarkingRows(rows, stale);
    FilterAll(Stale(rows), stale, true);
    if ApplyUpdates(rows, Marks(all)).Some? {
      var t, t' := ApplyUpdates(rows, Marks(all)).value.0, ApplyUpdates(rows, Marks(stale)).value.0;
      forall e: Id
        ensures Lookup(t, e) == Lookup(t', e)
        ensures Lookup(t, e) == if Global(rows)(e) then Some(Marked(rows[e])) else Lookup(rows, e)
      {
        assert e in Steps(rows) <==> e in order;
      }
      TablesEqual(t, t');
    }
  }

  /** The commands' unfiltered list and the list of mrs_invalidation have the same
      outcome, snapshots included: both refuse together, and otherwise every global
      step ends at needs_review and no other row moves. */
  lemma InlineInvalidationIsMrsInvalidation(rows: Table, order: seq<Id>)
    requires Enumerates(order, Steps(rows).Keys)
    ensures ApplyUpdates(rows, Marks(AllGlobals(rows, order)))
         == ApplyUpdates(rows, Marks(StaleGlobals(rows, order)))
    ensures AreSteps(rows, StaleGlobals(rows, order))
    ensures ApplyUpdates(rows, Marks(AllGlobals(rows, order))).Some?
       <==> AllKnown(rows, StaleGlobals(rows, order))
    ensures ApplyUpdates(rows, Marks(AllGlobals(rows, order))).Some? ==>
              var (t, snaps) := ApplyUpdates(rows, Marks(AllGlobals(rows, order))).value;
              && snaps == MarkSnapshots(rows, StaleGlobals(rows, order))
              && forall e: Id ::
                   Lookup(t, e) == if e in rows && rows[e].StepRow? && rows[e].step.level == 3
                                   then Some(StepRow(rows[e].step.(status := NeedsReview))) else Lookup(rows, e)
  {
    BothListsMark(rows, order);
  }
}
