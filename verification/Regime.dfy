/** The regime for direct edits of steps, and what it protects. */
module Regime {
  import opened Rows
  import opened StepTree

  predicate DirectStatus(status: Status) {
    status == Draft || status == ReadyForReview
  }

  ghost predicate PathsResolve(nodes: Nodes, x: Id) {
    forall d | d in Descendants(nodes, x) :: TieBreak(nodes, d).Some?
  }

  /** A step that may be edited directly on the plan head. */
  ghost predicate DirectlyMutable(nodes: Nodes, target: Id) {
    && target in nodes && DirectStatus(nodes[target].status)
    && !FrozenAtOrBelow(nodes, target) && !FrozenAbove(nodes, target)
  }

  method FrozenAtOrBelowCheck(nodes: Nodes, origin: Id) returns (r: Result<bool>)
    requires origin in nodes && !FrozenAt(nodes, origin) ==> !OnCycle(nodes, origin)
    ensures origin !in nodes ==> r == Raised(CascadeError)
    ensures origin in nodes && (FrozenAt(nodes, origin) || PathsResolve(nodes, origin)) ==>
              r.Ok? && (r.value <==> FrozenAtOrBelow(nodes, origin))
    ensures origin in nodes && !FrozenAt(nodes, origin) && !PathsResolve(nodes, origin) ==>
              r == Raised(GraphIntegrityError)
  {
    if origin !in nodes {
      return Raised(CascadeError);
    }
    if nodes[origin].status == Frozen {
      return Ok(true);
    }
    var impact := ImpactSet(nodes, origin);
    if impact.Raised? {
      return Raised(impact.error);
    }
    var below := impact.value;
    for i := 0 to |below|
      invariant forall d | d in below[..i] :: !FrozenAt(nodes, d)
    {
      assert below[i] in Descendants(nodes, origin);
      if nodes[below[i]].status == Frozen {
        return Ok(true);
      }
    }
    assert forall d | d in Descendants(nodes, origin) :: d in below[..|below|];
    return Ok(false);
  }

  /** The loops that the direct checks of u come to run all end. */
  ghost predicate ChecksEnd(nodes: Nodes, u: Id) {
    u in nodes && DirectStatus(nodes[u].status) ==>
      && !OnCycle(nodes, u)
      && (PathsResolve(nodes, u) && !FrozenAtOrBelow(nodes, u) ==> WalkEnds(nodes, u))
  }

  /** The step branch of check_admission in direct mode. */
  method AdmitStepDirectly(nodes: Nodes, target: Option<Id>) returns (admitted: bool)
    requires target.Some? ==> ChecksEnd(nodes, target.value)
    ensures admitted <==>
              target.Some? && DirectlyMutable(nodes, target.value) && PathsResolve(nodes, target.value)
  {
    if target.None? || target.value !in nodes {
      return false;
    }
    if !DirectStatus(nodes[target.value].status) {
      return false;
    }
    var below := FrozenAtOrBelowCheck(nodes, target.value);
    if below.Raised? || below.value {
      return false;
    }
    var above := FrozenAncestor(nodes, target.value);
    return !above.value;
  }

  ghost function Subtree(nodes: Nodes, target: Id): set<Id> {
    {target} + Descendants(nodes, target)
  }

  /** Below a directly mutable step nothing is frozen, and nothing has a frozen step
      anywhere above it: the check downwards and the check upwards together cover
      every ancestor, because the ancestors of a node form a chain. */
  lemma SubtreeIsOutsideFrozenTruth(nodes: Nodes, target: Id, x: Id)
    requires DirectlyMutable(nodes, target) && x in Subtree(nodes, target)
    ensures !FrozenAt(nodes, x) && !FrozenAbove(nodes, x)
  {
    if x != target && FrozenAbove(nodes, x) {
      var a: Id :| StrictlyAbove(nodes, a, x) && FrozenAt(nodes, a);
      AncestorsFormChain(nodes, x, a, target);
    }
  }

  /** Both checks are needed: without the check upwards a step below a frozen one, and
      without the check downwards a step above a frozen one, would be let in. */
  lemma BothChecksAreNeeded(target: Id, other: Id, step: Step, frozen: Step)
    requires target != other && step.status == Draft && frozen.status == Frozen
    ensures var below := map[target := step.(parent := Some(other)), other := frozen.(parent := None)];
            !FrozenAtOrBelow(below, target) && FrozenAbove(below, target)
    ensures var above := map[target := step.(parent := None), other := frozen.(parent := Some(target))];
            FrozenAtOrBelow(above, target) && !FrozenAbove(above, target)
  {
    var below := map[target := step.(parent := Some(other)), other := frozen.(parent := None)];
    assert Up(below, target, 1) == Some(other);
    assert StrictlyAbove(below, other, target) && FrozenAt(below, other);
    if d: Id :| StrictlyAbove(below, target, d) && FrozenAt(below, d) {
      AboveUnfold(below, target, d);
    }
    var above := map[target := step.(parent := None), other := frozen.(parent := Some(target))];
    assert Up(above, other, 1) == Some(target);
    assert StrictlyAbove(above, target, other) && FrozenAt(above, other);
    FrozenAboveUnfold(above, target);
  }

  // ----- frozen truth over runs of direct edits -----

  /** What no direct edit may touch: frozen steps and steps below one. */
  ghost predicate FrozenTruth(nodes: Nodes, x: Id) {
    FrozenAt(nodes, x) || (x in nodes && FrozenAbove(nodes, x))
  }

  /** One directly admitted edit that stays inside the subtree of its target; steps
      it creates are new to the tree. */
  ghost predicate DirectEdit(before: Nodes, target: Id, after: Nodes) {
    && DirectlyMutable(before, target)
    && forall x | x in before && x !in Subtree(before, target) :: x in after && after[x] == before[x]
  }

  ghost predicate DirectRun(states: seq<Nodes>, targets: seq<Id>) {
    && |states| == |targets| + 1
    && forall i | 0 <= i < |targets| :: DirectEdit(states[i], targets[i], states[i + 1])
  }

  lemma DirectEditKeepsFrozenTruth(before: Nodes, target: Id, after: Nodes, x: Id)
    requires DirectEdit(before, target, after) && FrozenTruth(before, x)
    ensures x in after && after[x] == before[x] && FrozenTruth(after, x)
  {
    if x in Subtree(before, target) {
      SubtreeIsOutsideFrozenTruth(before, target, x);
    }
    if FrozenAbove(before, x) {
      var a: Id :| StrictlyAbove(before, a, x) && FrozenAt(before, a);
      var k: nat :| k >= 1 && Up(before, x, k) == Some(a);
      ChainSurvives(before, target, after, x, a, k);
    }
  }

  /** The links from x up to a frozen step are themselves frozen truth. */
  lemma {:induction false} ChainSurvives(before: Nodes, target: Id, after: Nodes, x: Id, a: Id, k: nat)
    requires DirectEdit(before, target, after) && FrozenAt(before, a)
    requires x in before && Up(before, x, k) == Some(a)
    ensures Up(after, x, k) == Some(a) && FrozenAt(after, a)
    decreases k
  {
    if a in Subtree(before, target) {
      SubtreeIsOutsideFrozenTruth(before, target, a);
    }
    if k > 0 {
      assert StrictlyAbove(before, a, x);
      if x in Subtree(before, target) {
        SubtreeIsOutsideFrozenTruth(before, target, x);
      }
      var p := before[x].parent.value;
      assert Up(before, p, k - 1) == Some(a);
      assert p in before;
      ChainSurvives(before, target, after, p, a, k - 1);
      assert after[x] == before[x];
      assert Up(after, x, k) == Up(after, p, k - 1);
    }
  }

  /** Over any run of directly admitted edits, each confined to its target's subtree,
      no frozen step and no step below a frozen one ever changes. */
  lemma {:induction false} FrozenTruthOverRuns(states: seq<Nodes>, targets: seq<Id>, x: Id)
    requires DirectRun(states, targets) && FrozenTruth(states[0], x)
    ensures forall i | 0 <= i < |states| :: x in states[i] && states[i][x] == states[0][x]
    decreases |targets|
  {
    if |targets| == 0 {
      assert x in states[0];
    } else {
      DirectEditKeepsFrozenTruth(states[0], targets[0], states[1], x);
      var rest := states[1..];
      forall i | 0 <= i < |targets[1..]|
        ensures DirectEdit(rest[i], targets[1..][i], rest[i + 1])
      {
        assert DirectEdit(states[i + 1], targets[i + 1], states[i + 2]);
      }
      FrozenTruthOverRuns(rest, targets[1..], x);
      forall i | 0 <= i < |states|
        ensures x in states[i] && states[i][x] == states[0][x]
      {
        if i > 0 { assert states[i] == rest[i - 1]; }
      }
    }
  }
}
