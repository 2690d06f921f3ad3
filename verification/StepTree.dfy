/** The step tree: ancestors, descendants, and the admission rule for direct edits. */
module StepTree {
  import opened Rows
  import opened Sorting

  type Nodes = map<Id, Step>

  datatype Result<+T> = Ok(value: T) | Raised(error: TreeError)
  datatype TreeError = CascadeError | ValueError | GraphIntegrityError | StatusTransitionError

  // ----- ancestry, independent of any traversal -----

  /** The k-th ancestor of x: follow the parent link k times. */
  function Up(nodes: Nodes, x: Id, k: nat): Option<Id>
    decreases k
  {
    if k == 0 then Some(x)
    else if x in nodes && nodes[x].parent.Some? then Up(nodes, nodes[x].parent.value, k - 1)
    else None
  }

  ghost predicate StrictlyAbove(nodes: Nodes, a: Id, x: Id) {
    exists k: nat | k >= 1 :: Up(nodes, x, k) == Some(a)
  }

  predicate FrozenAt(nodes: Nodes, x: Id) {
    x in nodes && nodes[x].status == Frozen
  }

  ghost predicate FrozenAbove(nodes: Nodes, x: Id) {
    exists a: Id :: StrictlyAbove(nodes, a, x) && FrozenAt(nodes, a)
  }

  ghost predicate FrozenAtOrBelow(nodes: Nodes, x: Id) {
    FrozenAt(nodes, x) || exists d: Id :: StrictlyAbove(nodes, x, d) && FrozenAt(nodes, d)
  }

  ghost predicate OnCycle(nodes: Nodes, x: Id) {
    StrictlyAbove(nodes, x, x)
  }

  lemma {:induction false} UpSplit(nodes: Nodes, x: Id, j: nat, k: nat)
    requires Up(nodes, x, j).Some?
    ensures Up(nodes, x, j + k) == Up(nodes, Up(nodes, x, j).value, k)
    decreases j
  {
    if j > 0 {
      UpSplit(nodes, nodes[x].parent.value, j - 1, k);
    }
  }

  lemma {:induction false} UpDefinedBelow(nodes: Nodes, x: Id, j: nat, k: nat)
    requires j <= k && Up(nodes, x, k).Some?
    ensures Up(nodes, x, j).Some?
    decreases j
  {
    if j > 0 {
      UpDefinedBelow(nodes, nodes[x].parent.value, j - 1, k - 1);
    }
  }

  /** The ancestors of a node form a chain. */
  lemma AncestorsFormChain(nodes: Nodes, x: Id, a: Id, b: Id)
    requires StrictlyAbove(nodes, a, x) && StrictlyAbove(nodes, b, x)
    ensures a == b || StrictlyAbove(nodes, a, b) || StrictlyAbove(nodes, b, a)
  {
    var j: nat :| j >= 1 && Up(nodes, x, j) == Some(a);
    var k: nat :| k >= 1 && Up(nodes, x, k) == Some(b);
    if j < k {
      UpSplit(nodes, x, j, k - j);
      assert Up(nodes, a, k - j) == Some(b);
    } else if k < j {
      UpSplit(nodes, x, k, j - k);
      assert Up(nodes, b, j - k) == Some(a);
    }
  }

  /** One step of the parent chain. */
  lemma AboveUnfold(nodes: Nodes, a: Id, x: Id)
    ensures StrictlyAbove(nodes, a, x)
       <==> x in nodes && nodes[x].parent.Some?
            && (nodes[x].parent.value == a || StrictlyAbove(nodes, a, nodes[x].parent.value))
  {
    if k: nat :| k >= 1 && Up(nodes, x, k) == Some(a) {
      if k > 1 {
        assert Up(nodes, nodes[x].parent.value, k - 1) == Some(a);
      }
    }
    if x in nodes && nodes[x].parent.Some? {
      var p := nodes[x].parent.value;
      if p == a {
        assert Up(nodes, x, 1) == Some(a);
      }
      if k: nat :| k >= 1 && Up(nodes, p, k) == Some(a) {
        assert Up(nodes, x, k + 1) == Some(a);
      }
    }
  }

  lemma FrozenAboveUnfold(nodes: Nodes, x: Id)
    ensures FrozenAbove(nodes, x)
       <==> x in nodes && nodes[x].parent.Some? && nodes[x].parent.value in nodes
            && (FrozenAt(nodes, nodes[x].parent.value) || FrozenAbove(nodes, nodes[x].parent.value))
  {
    if FrozenAbove(nodes, x) {
      var a: Id :| StrictlyAbove(nodes, a, x) && FrozenAt(nodes, a);
      AboveUnfold(nodes, a, x);
      var p := nodes[x].parent.value;
      if p != a {
        AboveUnfold(nodes, a, p);
      }
    }
    if x in nodes && nodes[x].parent.Some? && nodes[x].parent.value in nodes {
      var p := nodes[x].parent.value;
      AboveUnfold(nodes, p, x);
      if FrozenAbove(nodes, p) {
        var a: Id :| StrictlyAbove(nodes, a, p) && FrozenAt(nodes, a);
        AboveUnfold(nodes, a, x);
      }
    }
  }

  // ----- frozen_ancestor -----

  /** The walk up from x ends at the k-th link: there is no such ancestor, its row is
      missing, or it is frozen. */
  ghost predicate StopsAt(nodes: Nodes, x: Id, k: nat) {
    k >= 1 && (Up(nodes, x, k).None? || Up(nodes, x, k).value !in nodes || FrozenAt(nodes, Up(nodes, x, k).value))
  }

  /** The walk of frozen_ancestor from x ends. */
  ghost predicate WalkEnds(nodes: Nodes, x: Id) {
    exists k: nat :: StopsAt(nodes, x, k)
  }

  /** frozen_ancestor, for every step from which its loop ends. */
  method FrozenAncestor(nodes: Nodes, origin: Id) returns (r: Result<bool>)
    requires origin in nodes ==> WalkEnds(nodes, origin)
    ensures origin !in nodes ==> r == Raised(CascadeError)
    ensures origin in nodes ==> r.Ok? && (r.value <==> FrozenAbove(nodes, origin))
  {
    if origin !in nodes {
      return Raised(CascadeError);
    }
    var parent := nodes[origin].parent;
    FrozenAboveUnfold(nodes, origin);
    ghost var end: nat :| StopsAt(nodes, origin, end);
    ghost var k: nat := 1;
    while parent.Some?
      invariant 1 <= k <= end && parent == Up(nodes, origin, k)
      invariant FrozenAbove(nodes, origin)
           <==> parent.Some? && parent.value in nodes
                && (FrozenAt(nodes, parent.value) || FrozenAbove(nodes, parent.value))
      decreases end - k
    {
      if parent.value !in nodes {
        break;
      }
      var p := nodes[parent.value];
      if p.status == Frozen {
        return Ok(true);
      }
      FrozenAboveUnfold(nodes, parent.value);
      UpSplit(nodes, origin, k, 1);
      parent := p.parent;
      k := k + 1;
    }
    return Ok(false);
  }

  lemma {:induction false} CycleReturns(nodes: Nodes, a: Id, k: nat)
    requires OnCycle(nodes, a)
    ensures exists j: nat | j > k :: Up(nodes, a, j) == Some(a)
  {
    var c: nat :| c >= 1 && Up(nodes, a, c) == Some(a);
    if k > 0 {
      CycleReturns(nodes, a, k - 1);
      var j: nat :| j > k - 1 && Up(nodes, a, j) == Some(a);
      UpSplit(nodes, a, j, c);
      assert Up(nodes, a, j + c) == Some(a);
    }
  }

  /** From a step on a cycle the links never run out. */
  lemma CycleNeverRunsOut(nodes: Nodes, a: Id, k: nat)
    requires OnCycle(nodes, a)
    ensures Up(nodes, a, k).Some? && Up(nodes, a, k).value in nodes
    ensures exists j: nat | j > k :: Up(nodes, a, j) == Some(a)
  {
    CycleReturns(nodes, a, k);
    var j: nat :| j > k && Up(nodes, a, j) == Some(a);
    UpDefinedBelow(nodes, a, k, j);
    UpDefinedBelow(nodes, a, k + 1, j);
    UpSplit(nodes, a, k, 1);
  }

  lemma CycleHoldsTheWalk(nodes: Nodes, x: Id, a: Id)
    requires StrictlyAbove(nodes, a, x) && OnCycle(nodes, a) && WalkEnds(nodes, x)
    ensures FrozenAbove(nodes, x)
  {
    var k: nat :| StopsAt(nodes, x, k);
    var j: nat :| j >= 1 && Up(nodes, x, j) == Some(a);
    CycleNeverRunsOut(nodes, a, k);
    UpSplit(nodes, x, j, k);
    UpDefinedBelow(nodes, x, k, j + k);
    CycleNeverRunsOut(nodes, a, k + 1);
    UpSplit(nodes, x, j, k + 1);
    UpDefinedBelow(nodes, x, k + 1, j + k + 1);
    UpSplit(nodes, x, k, 1);
    assert StrictlyAbove(nodes, Up(nodes, x, k).value, x);
  }

  ghost predicate PassedBefore(nodes: Nodes, x: Id, k: nat, a: Id) {
    exists j: nat | 1 <= j < k :: Up(nodes, x, j) == Some(a)
  }

  lemma {:induction false} EndsOrCycles(nodes: Nodes, x: Id, k: nat, seen: set<Id>)
    requires k >= 1 && seen <= nodes.Keys
    requires forall a | a in seen :: PassedBefore(nodes, x, k, a)
    ensures WalkEnds(nodes, x) || exists a: Id :: StrictlyAbove(nodes, a, x) && OnCycle(nodes, a)
    decreases nodes.Keys - seen
  {
    if !StopsAt(nodes, x, k) {
      var a := Up(nodes, x, k).value;
      assert StrictlyAbove(nodes, a, x);
      if a in seen {
        var j: nat :| 1 <= j < k && Up(nodes, x, j) == Some(a);
        UpSplit(nodes, x, j, k - j);
        assert Up(nodes, a, k - j) == Some(a);
      } else {
        forall b | b in seen + {a}
          ensures PassedBefore(nodes, x, k + 1, b)
        {
          if b != a {
            var j: nat :| 1 <= j < k && Up(nodes, x, j) == Some(b);
          }
        }
        EndsOrCycles(nodes, x, k + 1, seen + {a});
      }
    }
  }

  /** The loop of frozen_ancestor ends exactly when a frozen step is above, or no step
      above is on a cycle. */
  lemma WalkEndsIff(nodes: Nodes, x: Id)
    ensures WalkEnds(nodes, x)
       <==> FrozenAbove(nodes, x) || !exists a: Id :: StrictlyAbove(nodes, a, x) && OnCycle(nodes, a)
  {
    if FrozenAbove(nodes, x) {
      var a: Id :| StrictlyAbove(nodes, a, x) && FrozenAt(nodes, a);
      var k: nat :| k >= 1 && Up(nodes, x, k) == Some(a);
      assert StopsAt(nodes, x, k);
    } else if a: Id :| StrictlyAbove(nodes, a, x) && OnCycle(nodes, a) {
      if WalkEnds(nodes, x) {
        CycleHoldsTheWalk(nodes, x, a);
      }
    } else {
      EndsOrCycles(nodes, x, 1, {});
    }
  }

  // ----- impact_set -----

  /** The steps k links below origin. */
  function Generation(nodes: Nodes, origin: Id, k: nat): set<Id> {
    if k == 0 then {origin} else set x | x in nodes && Up(nodes, x, k) == Some(origin)
  }

  /** The steps at most k links below origin. */
  ghost function Collected(nodes: Nodes, origin: Id, k: nat): set<Id> {
    set x | x in nodes && exists j: nat | 1 <= j <= k :: Up(nodes, x, j) == Some(origin)
  }

  ghost function Descendants(nodes: Nodes, origin: Id): set<Id> {
    set x | x in nodes && StrictlyAbove(nodes, origin, x)
  }

  /** parent_path: None where it raises GraphIntegrityError. */
  function ParentPath(nodes: Nodes, s: Step): Option<string> {
    if s.level == 3 then Some("")
    else if s.parent.None? || s.parent.value !in nodes then None
    else
      var p := nodes[s.parent.value];
      if s.level == 4 then Some(p.stepId)
      else if p.parent.None? || p.parent.value !in nodes then None
      else Some(nodes[p.parent.value].stepId + "/" + p.stepId)
  }

  /** tie_break_key of a step of the tree. */
  function TieBreak(nodes: Nodes, x: Id): Option<Key> {
    if x !in nodes || ParentPath(nodes, nodes[x]).None? then None
    else Some(Key(nodes[x].level, [ParentPath(nodes, nodes[x]).value, nodes[x].stepId]))
  }

  function TieKey(nodes: Nodes): Id -> Key {
    (x: Id) => if TieBreak(nodes, x).Some? then TieBreak(nodes, x).value else Key(0, [])
  }

  /** The path of a step's parent is made of the step ids above it: none for a global step,
      one for a tactical step, two below; it exists if those steps do. */
  lemma ParentPathIs(nodes: Nodes, x: Id)
    requires x in nodes
    ensures nodes[x].level == 3 ==> ParentPath(nodes, nodes[x]) == Some("")
    ensures nodes[x].level == 4 ==>
              ParentPath(nodes, nodes[x])
              == if Up(nodes, x, 1).Some? && Up(nodes, x, 1).value in nodes
                 then Some(nodes[Up(nodes, x, 1).value].stepId) else None
    ensures nodes[x].level != 3 && nodes[x].level != 4 ==>
              ParentPath(nodes, nodes[x])
              == if Up(nodes, x, 2).Some? && Up(nodes, x, 2).value in nodes
                 then Some(nodes[Up(nodes, x, 2).value].stepId + "/" + nodes[Up(nodes, x, 1).value].stepId) else None
  {
    if nodes[x].parent.Some? {
      assert Up(nodes, x, 1) == nodes[x].parent;
      assert Up(nodes, x, 2) == Up(nodes, nodes[x].parent.value, 1);
    }
  }

  /** By level, then by the path of the parent, then by step id. */
  predicate TopDown(nodes: Nodes, q: seq<Id>) {
    && (forall x | x in q :: x in nodes && ParentPath(nodes, nodes[x]).Some?)
    && forall i, j | 0 <= i < j < |q| ::
         && nodes[q[i]].level <= nodes[q[j]].level
         && (nodes[q[i]].level == nodes[q[j]].level ==>
               var a, b := ParentPath(nodes, nodes[q[i]]).value, ParentPath(nodes, nodes[q[j]]).value;
               TextLe(a, b) && (a == b ==> TextLe(nodes[q[i]].stepId, nodes[q[j]].stepId)))
  }

  lemma TwoTexts(a: string, b: string, c: string, d: string)
    requires TextsLe([a, b], [c, d])
    ensures TextLe(a, c) && (a == c ==> TextLe(b, d))
  {
    TextTotal(a, a);
    TextTotal(b, b);
    assert [a, b][1..] == [b] && [c, d][1..] == [d];
  }

  lemma OrderedIsTopDown(nodes: Nodes, q: seq<Id>)
    requires KeysResolve(nodes, q) && Ordered(ByKey(TieKey(nodes)), q)
    ensures TopDown(nodes, q)
  {
    forall x | x in q
      ensures x in nodes && ParentPath(nodes, nodes[x]).Some?
    {
      assert TieBreak(nodes, x).Some?;
    }
    forall i, j | 0 <= i < j < |q| && nodes[q[i]].level == nodes[q[j]].level
      ensures var a, b := ParentPath(nodes, nodes[q[i]]).value, ParentPath(nodes, nodes[q[j]]).value;
              TextLe(a, b) && (a == b ==> TextLe(nodes[q[i]].stepId, nodes[q[j]].stepId))
    {
      assert ByKey(TieKey(nodes))(q[i], q[j]);
      TwoTexts(ParentPath(nodes, nodes[q[i]]).value, nodes[q[i]].stepId,
               ParentPath(nodes, nodes[q[j]]).value, nodes[q[j]].stepId);
    }
    forall i, j | 0 <= i < j < |q|
      ensures nodes[q[i]].level <= nodes[q[j]].level
    {
      assert ByKey(TieKey(nodes))(q[i], q[j]);
    }
  }

  function SetOf(q: seq<Id>): set<Id> {
    set x | x in q
  }

  ghost predicate Enumerates(q: seq<Id>, s: set<Id>) {
    Distinct(q) && forall x :: x in q <==> x in s
  }

  function ChildrenAmong(nodes: Nodes, seen: set<Id>, p: Id): set<Id> {
    set x | x in seen && x in nodes && nodes[x].parent == Some(p)
  }

  function ListedChildren(children: map<Id, seq<Id>>, p: Id): seq<Id> {
    if p in children then children[p] else []
  }

  /** The children lists of the tree; the rows of a plan come in no particular order. */
  method ChildrenOf(nodes: Nodes) returns (children: map<Id, seq<Id>>)
    ensures forall p: Id :: Enumerates(ListedChildren(children, p), ChildrenAmong(nodes, nodes.Keys, p))
  {
    children := map[];
    var rest := nodes.Keys;
    ghost var seen: set<Id> := {};
    while rest != {}
      invariant rest !! seen && rest + seen == nodes.Keys
      invariant forall p: Id :: Enumerates(ListedChildren(children, p), ChildrenAmong(nodes, seen, p))
    {
      var u :| u in rest;
      ghost var before, was := children, seen;
      if nodes[u].parent.Some? {
        var p := nodes[u].parent.value;
        children := children[p := ListedChildren(children, p) + [u]];
      }
      rest, seen := rest - {u}, seen + {u};
      forall p: Id
        ensures Enumerates(ListedChildren(children, p), ChildrenAmong(nodes, seen, p))
      {
        assert Enumerates(ListedChildren(before, p), ChildrenAmong(nodes, was, p));
        if nodes[u].parent == Some(p) {
          assert ListedChildren(children, p) == ListedChildren(before, p) + [u];
          assert ChildrenAmong(nodes, seen, p) == ChildrenAmong(nodes, was, p) + {u};
        } else {
          assert ListedChildren(children, p) == ListedChildren(before, p);
          assert ChildrenAmong(nodes, seen, p) == ChildrenAmong(nodes, was, p);
        }
      }
    }
    assert seen == nodes.Keys;
  }

  function ChildrenOfAll(nodes: Nodes, parents: set<Id>): set<Id> {
    set x | x in nodes && nodes[x].parent.Some? && nodes[x].parent.value in parents
  }

  lemma GenerationStep(nodes: Nodes, origin: Id, k: nat)
    ensures Generation(nodes, origin, k + 1) == ChildrenOfAll(nodes, Generation(nodes, origin, k))
  {
    forall x | x in nodes && nodes[x].parent.Some?
      ensures Up(nodes, x, k + 1) == Some(origin) <==> nodes[x].parent.value in Generation(nodes, origin, k)
    {
      assert Up(nodes, x, k + 1) == Up(nodes, nodes[x].parent.value, k);
    }
  }

  lemma GenerationsDisjoint(nodes: Nodes, origin: Id, x: Id, j: nat, k: nat)
    requires !OnCycle(nodes, origin)
    requires Up(nodes, x, j) == Some(origin) && Up(nodes, x, k) == Some(origin)
    ensures j == k
  {
    var lo, hi := if j < k then j else k, if j < k then k else j;
    if lo < hi {
      UpSplit(nodes, x, lo, hi - lo);
    }
  }

  lemma CollectedStep(nodes: Nodes, origin: Id, k: nat)
    requires !OnCycle(nodes, origin)
    ensures Collected(nodes, origin, k + 1) == Collected(nodes, origin, k) + Generation(nodes, origin, k + 1)
    ensures Collected(nodes, origin, k) !! Generation(nodes, origin, k + 1)
  {
    forall x | x in Collected(nodes, origin, k) && x in Generation(nodes, origin, k + 1)
      ensures false
    {
      var j: nat :| 1 <= j <= k && Up(nodes, x, j) == Some(origin);
      GenerationsDisjoint(nodes, origin, x, j, k + 1);
    }
  }

  lemma PassesGeneration(nodes: Nodes, origin: Id, x: Id, j: nat, k: nat)
    requires 1 <= k <= j && x in nodes && Up(nodes, x, j) == Some(origin)
    ensures exists y :: y in Generation(nodes, origin, k)
  {
    UpDefinedBelow(nodes, x, j - k, j);
    UpSplit(nodes, x, j - k, k);
    assert Up(nodes, x, j - k).value in Generation(nodes, origin, k);
  }

  lemma NoGenerationMeansDone(nodes: Nodes, origin: Id, k: nat)
    requires k >= 1 && Generation(nodes, origin, k) == {}
    ensures Collected(nodes, origin, k) == Descendants(nodes, origin)
  {
    forall x | x in Descendants(nodes, origin)
      ensures x in Collected(nodes, origin, k)
    {
      var j: nat :| j >= 1 && Up(nodes, x, j) == Some(origin);
      if j > k {
        PassesGeneration(nodes, origin, x, j, k);
      }
    }
  }

  predicate KeysResolve(nodes: Nodes, q: seq<Id>) {
    forall x | x in q :: TieBreak(nodes, x).Some?
  }

  /** The children of every step of a frontier. */
  method NextFrontier(nodes: Nodes, children: map<Id, seq<Id>>, frontier: seq<Id>) returns (next: seq<Id>)
    requires Distinct(frontier)
    requires forall p: Id :: Enumerates(ListedChildren(children, p), ChildrenAmong(nodes, nodes.Keys, p))
    ensures Enumerates(next, ChildrenOfAll(nodes, SetOf(frontier)))
  {
    next := [];
    for i := 0 to |frontier|
      invariant Enumerates(next, ChildrenOfAll(nodes, SetOf(frontier[..i])))
    {
      var kids := ListedChildren(children, frontier[i]);
      ghost var was := next;
      for j := 0 to |kids|
        invariant next == was + kids[..j]
      {
        next := next + [kids[j]];
      }
      assert kids[..|kids|] == kids;
      MoreChildren(nodes, frontier, i, was, kids);
    }
    assert frontier[..|frontier|] == frontier;
  }

  lemma RoundStep(nodes: Nodes, origin: Id, k: nat,
                  frontier: seq<Id>, result: seq<Id>, next: seq<Id>)
    requires !OnCycle(nodes, origin)
    requires Enumerates(frontier, Generation(nodes, origin, k))
    requires Enumerates(result, Collected(nodes, origin, k))
    requires Enumerates(next, ChildrenOfAll(nodes, SetOf(frontier)))
    ensures Enumerates(next, Generation(nodes, origin, k + 1))
    ensures Enumerates(result + next, Collected(nodes, origin, k + 1))
    ensures next == [] ==> Collected(nodes, origin, k + 1) == Collected(nodes, origin, k)
    ensures next != [] ==> nodes.Keys - Collected(nodes, origin, k + 1) < nodes.Keys - Collected(nodes, origin, k)
  {
    assert SetOf(frontier) == Generation(nodes, origin, k);
    GenerationStep(nodes, origin, k);
    CollectedStep(nodes, origin, k);
    AppendEnumerates(result, next, Collected(nodes, origin, k), Generation(nodes, origin, k + 1));
    if next != [] {
      LessToFind(nodes, origin, k, next[0]);
    } else {
      assert forall x | x in Generation(nodes, origin, k + 1) :: x in next;
    }
  }

  lemma {:induction false} EmptiesFrom(nodes: Nodes, origin: Id, k: nat)
    requires !OnCycle(nodes, origin)
    ensures exists j: nat :: Generation(nodes, origin, j) == {}
    decreases nodes.Keys - Collected(nodes, origin, k)
  {
    var next := Generation(nodes, origin, k + 1);
    if next != {} {
      var x :| x in next;
      LessToFind(nodes, origin, k, x);
      EmptiesFrom(nodes, origin, k + 1);
    }
  }

  /** The frontier of impact_set runs empty exactly when the origin is not on a cycle. */
  lemma FrontierEmptiesIff(nodes: Nodes, origin: Id)
    ensures (exists k: nat :: Generation(nodes, origin, k) == {}) <==> !OnCycle(nodes, origin)
  {
    if OnCycle(nodes, origin) {
      forall k: nat
        ensures Generation(nodes, origin, k) != {}
      {
        CycleNeverRunsOut(nodes, origin, k);
        if k >= 1 {
          var j: nat :| j > k && Up(nodes, origin, j) == Some(origin);
          PassesGeneration(nodes, origin, origin, j, k);
        }
      }
    } else {
      EmptiesFrom(nodes, origin, 0);
    }
  }

  /** The breadth-first walk of impact_set. */
  method BreadthFirst(nodes: Nodes, origin: Id) returns (result: seq<Id>)
    requires !OnCycle(nodes, origin)
    ensures Enumerates(result, Descendants(nodes, origin))
  {
    var children := ChildrenOf(nodes);
    result := [];
    var frontier := [origin];
    ghost var k: nat := 0;
    while frontier != []
      invariant Enumerates(frontier, Generation(nodes, origin, k))
      invariant Enumerates(result, Collected(nodes, origin, k))
      invariant frontier == [] ==> k >= 1
      decreases nodes.Keys - Collected(nodes, origin, k), |frontier|
    {
      var next := NextFrontier(nodes, children, frontier);
      RoundStep(nodes, origin, k, frontier, result, next);
      result := result + next;
      frontier := next;
      k := k + 1;
    }
    assert forall x | x in Generation(nodes, origin, k) :: x in frontier;
    NoGenerationMeansDone(nodes, origin, k);
  }

  /** impact_set lists every strict descendant once, in tie-break order; it raises
      exactly when the path of some descendant cannot be resolved. */
  method ImpactSet(nodes: Nodes, origin: Id) returns (r: Result<seq<Id>>)
    requires !OnCycle(nodes, origin)
    ensures r.Raised? <==> exists x | x in Descendants(nodes, origin) :: TieBreak(nodes, x).None?
    ensures r.Raised? ==> r.error == GraphIntegrityError
    ensures r.Ok? ==> Enumerates(r.value, Descendants(nodes, origin))
                      && Ordered(ByKey(TieKey(nodes)), r.value)
    ensures r.Ok? ==> TopDown(nodes, r.value)
  {
    var result := BreadthFirst(nodes, origin);
    if !KeysResolve(nodes, result) {
      return Raised(GraphIntegrityError);
    }
    ByKeyIsTotalPreorder(TieKey(nodes));
    SortSorts(ByKey(TieKey(nodes)), result);
    r := Ok(Sort(ByKey(TieKey(nodes)), result));
    PermutationEnumerates(result, r.value, Descendants(nodes, origin));
    OrderedIsTopDown(nodes, r.value);
  }

  lemma MoreChildren(nodes: Nodes, frontier: seq<Id>, i: nat, was: seq<Id>, kids: seq<Id>)
    requires i < |frontier| && Distinct(frontier)
    requires Enumerates(was, ChildrenOfAll(nodes, SetOf(frontier[..i])))
    requires Enumerates(kids, ChildrenAmong(nodes, nodes.Keys, frontier[i]))
    ensures Enumerates(was + kids, ChildrenOfAll(nodes, SetOf(frontier[..i + 1])))
  {
    var before, now := ChildrenOfAll(nodes, SetOf(frontier[..i])), ChildrenAmong(nodes, nodes.Keys, frontier[i]);
    assert frontier[..i + 1] == frontier[..i] + [frontier[i]];
    assert ChildrenOfAll(nodes, SetOf(frontier[..i + 1])) == before + now;
    AppendEnumerates(was, kids, before, now);
  }

  lemma AppendEnumerates(p: seq<Id>, q: seq<Id>, s: set<Id>, t: set<Id>)
    requires Enumerates(p, s) && Enumerates(q, t) && s !! t
    ensures Enumerates(p + q, s + t)
  {
    forall i, j | 0 <= i < j < |p + q|
      ensures (p + q)[i] != (p + q)[j]
    {
      if i < |p| <= j {
        assert p[i] in p && q[j - |p|] in q;
      }
    }
  }

  lemma PermutationEnumerates(p: seq<Id>, q: seq<Id>, s: set<Id>)
    requires Enumerates(p, s) && multiset(p) == multiset(q)
    ensures Enumerates(q, s)
  {
    PermutationStaysDistinct(p, q);
  }

  lemma LessToFind(nodes: Nodes, origin: Id, k: nat, x: Id)
    requires !OnCycle(nodes, origin) && x in Generation(nodes, origin, k + 1)
    ensures nodes.Keys - Collected(nodes, origin, k + 1) < nodes.Keys - Collected(nodes, origin, k)
  {
    CollectedStep(nodes, origin, k);
    assert x in nodes.Keys - Collected(nodes, origin, k);
    assert x !in nodes.Keys - Collected(nodes, origin, k + 1);
  }
}
