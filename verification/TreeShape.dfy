/** What keeps the parent links a tree: the loops over them have no bound of their own,
    so they end only off a cycle. */
module TreeShape {
  import opened Rows
  import opened StepTree
  import opened Regime

  // ----- ranks -----

  /** The parent links have no cycle: some rank falls along every link. */
  ghost predicate Ranked(nodes: Nodes, rank: map<Id, nat>) {
    && nodes.Keys <= rank.Keys
    && forall x | x in nodes && nodes[x].parent.Some? && nodes[x].parent.value in nodes ::
         rank[nodes[x].parent.value] < rank[x]
  }

  lemma {:induction false} RankFallsUpwards(nodes: Nodes, rank: map<Id, nat>, x: Id, k: nat)
    requires Ranked(nodes, rank) && k >= 1
    requires x in nodes && Up(nodes, x, k).Some? && Up(nodes, x, k).value in nodes
    ensures rank[Up(nodes, x, k).value] < rank[x]
    decreases k
  {
    var p := nodes[x].parent.value;
    if k > 1 {
      assert Up(nodes, p, k - 1) == Up(nodes, x, k);
      assert p in nodes;
      RankFallsUpwards(nodes, rank, p, k - 1);
    }
  }

  lemma NothingAboveItself(nodes: Nodes, rank: map<Id, nat>, x: Id)
    requires Ranked(nodes, rank)
    ensures !OnCycle(nodes, x)
  {
    if k: nat :| k >= 1 && Up(nodes, x, k) == Some(x) {
      assert x in nodes;
      RankFallsUpwards(nodes, rank, x, k);
    }
  }

  /** In a tree every loop over the links ends, for every step. */
  lemma LoopsEnd(nodes: Nodes, rank: map<Id, nat>, x: Id)
    requires Ranked(nodes, rank)
    ensures !OnCycle(nodes, x) && WalkEnds(nodes, x) && ChecksEnd(nodes, x)
  {
    NothingAboveItself(nodes, rank, x);
    if a: Id :| StrictlyAbove(nodes, a, x) && OnCycle(nodes, a) {
      NothingAboveItself(nodes, rank, a);
    }
    WalkEndsIff(nodes, x);
  }

  // ----- moving a step -----

  /** The parent links of after are those of before, except u's. */
  predicate MovesOnly(before: Nodes, after: Nodes, u: Id) {
    before.Keys == after.Keys && forall x | x in before && x != u :: after[x].parent == before[x].parent
  }

  lemma {:induction false} BelowAfterMove(before: Nodes, after: Nodes, u: Id, x: Id, k: nat)
    requires MovesOnly(before, after, u) && Up(after, x, k) == Some(u)
    ensures x == u || StrictlyAbove(before, u, x)
    decreases k
  {
    if k > 0 && x != u {
      var p := after[x].parent.value;
      BelowAfterMove(before, after, u, p, k - 1);
      AboveUnfold(before, u, x);
    }
  }

  /** The steps below u stay the ones below u, whatever becomes of u itself. */
  lemma SameBelow(before: Nodes, after: Nodes, u: Id, x: Id)
    requires MovesOnly(before, after, u) && x != u
    ensures StrictlyAbove(after, u, x) <==> StrictlyAbove(before, u, x)
  {
    if k: nat :| k >= 1 && Up(after, x, k) == Some(u) {
      BelowAfterMove(before, after, u, x, k);
    }
    if k: nat :| k >= 1 && Up(before, x, k) == Some(u) {
      BelowAfterMove(after, before, u, x, k);
    }
  }

  /** A move puts the step on a cycle exactly when it goes below the step itself. */
  lemma MoveMakesCycleIff(before: Nodes, after: Nodes, u: Id, p: Id)
    requires u in before && MovesOnly(before, after, u) && after[u].parent == Some(p)
    ensures OnCycle(after, u) <==> p == u || StrictlyAbove(before, u, p)
  {
    AboveUnfold(after, u, u);
    if p != u {
      SameBelow(before, after, u, p);
    }
  }

  /** The rank of a tree after u moved below p: u and everything below it goes up by
      more than the rank of p. */
  ghost function Lifted(nodes: Nodes, rank: map<Id, nat>, u: Id, p: Id): map<Id, nat>
    requires nodes.Keys <= rank.Keys && p in nodes
  {
    map x | x in nodes :: if x == u || StrictlyAbove(nodes, u, x) then rank[x] + rank[p] + 1 else rank[x]
  }

  lemma LiftedRanks(nodes: Nodes, rank: map<Id, nat>, u: Id, p: Id, after: Nodes)
    requires Ranked(nodes, rank) && u in nodes && p in nodes
    requires MovesOnly(nodes, after, u) && after[u].parent == Some(p)
    requires p != u && !StrictlyAbove(nodes, u, p)
    ensures Ranked(after, Lifted(nodes, rank, u, p))
  {
    var lifted := Lifted(nodes, rank, u, p);
    forall x | x in after && after[x].parent.Some? && after[x].parent.value in after
      ensures lifted[after[x].parent.value] < lifted[x]
    {
      AboveUnfold(nodes, u, x);
    }
  }

  /** A move keeps the tree exactly when the step does not go below itself. */
  lemma MoveKeepsTreeIff(nodes: Nodes, rank: map<Id, nat>, u: Id, p: Id, after: Nodes)
    requires Ranked(nodes, rank) && u in nodes && p in nodes
    requires MovesOnly(nodes, after, u) && after[u].parent == Some(p)
    ensures (exists rank': map<Id, nat> :: Ranked(after, rank')) <==> p != u && !StrictlyAbove(nodes, u, p)
  {
    MoveMakesCycleIff(nodes, after, u, p);
    if rank': map<Id, nat> :| Ranked(after, rank') {
      NothingAboveItself(after, rank', u);
    }
    if p != u && !StrictlyAbove(nodes, u, p) {
      LiftedRanks(nodes, rank, u, p, after);
    }
  }

  // ----- levels -----

  /** Every step is of a legal level and below a step of a smaller one. */
  predicate LevelsFall(nodes: Nodes) {
    forall x | x in nodes ::
      && 3 <= nodes[x].level <= 5
      && (nodes[x].parent.Some? && nodes[x].parent.value in nodes ==>
            nodes[nodes[x].parent.value].level < nodes[x].level)
  }

  function Levels(nodes: Nodes): map<Id, nat>
    requires LevelsFall(nodes)
  {
    map x | x in nodes :: nodes[x].level
  }

  /** Falling levels rank the tree, so no step is on a cycle and every loop ends. */
  lemma LevelsRank(nodes: Nodes, x: Id)
    requires LevelsFall(nodes)
    ensures Ranked(nodes, Levels(nodes))
    ensures !OnCycle(nodes, x) && WalkEnds(nodes, x) && ChecksEnd(nodes, x)
  {
    assert forall y | y in nodes && nodes[y].parent.Some? && nodes[y].parent.value in nodes ::
        Levels(nodes)[nodes[y].parent.value] < Levels(nodes)[y];
    LoopsEnd(nodes, Levels(nodes), x);
  }

  // ----- the commands that shape the tree -----

  /** The row move_step leaves. */
  function Moved(step: Step, newParent: Option<Id>, newId: string): Step {
    if newParent == step.parent then step
    else step.(parent := newParent, stepId := newId, dependsOn := [])
  }

  /** step_create, step_move, step_delete, and any edit of a step in its place. */
  datatype TreeOp =
    | Create(id: Id, step: Step)
    | Move(u: Id, newParent: Id, newId: string)
    | Delete(u: Id)
    | Edit(u: Id, step: Step)

  /** The checks step_create makes: a legal level, a parent exactly below level 3, and
      that parent exists. The level of the parent is not among them. */
  predicate MayCreate(nodes: Nodes, step: Step) {
    && 3 <= step.level <= 5 && (step.level == 3 <==> step.parent.None?)
    && (step.parent.Some? ==> step.parent.value in nodes)
    && step.status == Draft && step.dependsOn == []
  }

  /** A generated UUID is in no row and no link. */
  predicate Fresh(nodes: Nodes, id: Id) {
    id !in nodes && forall x | x in nodes :: nodes[x].parent != Some(id)
  }

  /** The checks move_step makes. */
  predicate MayMove(nodes: Nodes, u: Id, newParent: Id) {
    && u in nodes && newParent in nodes
    && (nodes[u].parent == Some(newParent) || nodes[newParent].level == nodes[u].level - 1)
  }

  /** The tree after one command; None when it is refused. Scrubbing depends_on is no
      matter of shape. */
  function TreeStep(nodes: Nodes, op: TreeOp): Option<Nodes> {
    match op
    case Create(id, step) =>
      if Fresh(nodes, id) && MayCreate(nodes, step) then Some(nodes[id := step]) else None
    case Move(u, p, newId) =>
      if MayMove(nodes, u, p) then Some(nodes[u := Moved(nodes[u], Some(p), newId)]) else None
    case Delete(u) =>
      if u in nodes && forall x | x in nodes :: nodes[x].parent != Some(u) then Some(nodes - {u}) else None
    case Edit(u, step) =>
      if u in nodes && step.parent == nodes[u].parent && step.level == nodes[u].level
      then Some(nodes[u := step]) else None
  }

  /** A creation below a step of a smaller level; any other command. */
  predicate BelowSmaller(nodes: Nodes, op: TreeOp) {
    op.Create? && op.step.parent.Some? && op.step.parent.value in nodes ==>
      nodes[op.step.parent.value].level < op.step.level
  }

  /** The guard of a move keeps the levels falling, and so do deletions and edits; a
      creation does exactly when the parent is of a smaller level. */
  lemma LevelsKeptIff(nodes: Nodes, op: TreeOp)
    requires LevelsFall(nodes) && TreeStep(nodes, op).Some?
    ensures LevelsFall(TreeStep(nodes, op).value) <==> BelowSmaller(nodes, op)
  {
    var after := TreeStep(nodes, op).value;
    if op.Create? && !BelowSmaller(nodes, op) {
      assert op.id in after && after[op.id].parent.value in after;
    }
  }

  function TreeRun(nodes: Nodes, ops: seq<TreeOp>): Nodes {
    if ops == [] then nodes
    else
      var before := TreeRun(nodes, ops[..|ops| - 1]);
      match TreeStep(before, ops[|ops| - 1])
      case None => before
      case Some(after) => after
  }

  /** Every creation of the run goes below a step of a smaller level. */
  predicate BuildsDown(nodes: Nodes, ops: seq<TreeOp>) {
    ops == []
    || (BuildsDown(nodes, ops[..|ops| - 1]) && BelowSmaller(TreeRun(nodes, ops[..|ops| - 1]), ops[|ops| - 1]))
  }

  /** So over every run whose creations go below smaller levels, whatever is moved, no
      step ever is on a cycle and every loop over the links ends. */
  lemma {:induction false} LoopsEndOverRuns(nodes: Nodes, ops: seq<TreeOp>, x: Id)
    requires LevelsFall(nodes) && BuildsDown(nodes, ops)
    ensures var after := TreeRun(nodes, ops);
            LevelsFall(after) && !OnCycle(after, x) && WalkEnds(after, x) && ChecksEnd(after, x)
  {
    if ops != [] {
      var before, op := TreeRun(nodes, ops[..|ops| - 1]), ops[|ops| - 1];
      LoopsEndOverRuns(nodes, ops[..|ops| - 1], x);
      if TreeStep(before, op).Some? {
        LevelsKeptIff(before, op);
      }
    }
    LevelsRank(TreeRun(nodes, ops), x);
  }

  // ----- a cycle -----

  /** A tactical step below an atomic one, then the atomic step below the tactical one:
      both commands are accepted, and the walks up and down from the two never end. */
  lemma CreateThenMoveMakesCycle(nodes: Nodes, atomic: Id, tactical: Id, step: Step, newId: string)
    requires LevelsFall(nodes) && atomic in nodes && nodes[atomic].level == 5
    requires Fresh(nodes, tactical) && MayCreate(nodes, step) && step.level == 4 && step.parent == Some(atomic)
    requires forall x: Id :: !FrozenAt(nodes, x)
    ensures var create, move := Create(tactical, step), Move(atomic, tactical, newId);
            && !BelowSmaller(nodes, create) && TreeStep(nodes, create).Some?
            && TreeStep(TreeStep(nodes, create).value, move).Some?
            && OnCycle(TreeRun(nodes, [create, move]), atomic)
            && !WalkEnds(TreeRun(nodes, [create, move]), atomic)
            && forall k: nat :: Generation(TreeRun(nodes, [create, move]), atomic, k) != {}
  {
    var create, move := Create(tactical, step), Move(atomic, tactical, newId);
    var middle := nodes[tactical := step];
    var after := middle[atomic := Moved(middle[atomic], Some(tactical), newId)];
    TwoOps(nodes, create, move, middle, after);
    assert Up(middle, tactical, 1) == Some(atomic);
    MoveMakesCycleIff(middle, after, atomic, tactical);
    assert !FrozenAt(nodes, atomic);
    NoneFrozen(nodes, tactical, step, atomic, Moved(middle[atomic], Some(tactical), newId), after);
    WalkEndsIff(after, atomic);
    FrontierEmptiesIff(after, atomic);
  }

  lemma TwoOps(nodes: Nodes, first: TreeOp, second: TreeOp, middle: Nodes, after: Nodes)
    requires TreeStep(nodes, first) == Some(middle) && TreeStep(middle, second) == Some(after)
    ensures TreeRun(nodes, [first, second]) == after
  {
    assert [first, second][..1] == [first] && [first][..0] == [];
    assert TreeRun(nodes, []) == nodes;
    assert TreeRun(nodes, [first]) == middle;
  }

  lemma NoneFrozen(nodes: Nodes, id: Id, step: Step, u: Id, moved: Step, after: Nodes)
    requires forall x: Id :: !FrozenAt(nodes, x)
    requires step.status != Frozen && moved.status != Frozen && after == nodes[id := step][u := moved]
    ensures forall x: Id :: !FrozenAt(after, x)
  {
    assert forall x: Id :: FrozenAt(after, x) ==> x != u && x != id && FrozenAt(nodes, x);
  }
}
