/**
  `StateManager`: owns a state tree and a cursor on the current state, and runs
  the handlers of the tree's states. Each handler invocation is appended to
  `calls`, which is how the model observes the side effects the handlers have on
  their actor.
 */
module StateManagement {
  import opened StateTree
  import opened Transition
  import opened Dispatch

  /** `std::find` over `ancestorsB`: the first position holding `x`, or `|b|` for `end()`. */
  method Find(b: seq<Node>, x: Node) returns (j: nat)
    ensures j <= |b|
    ensures j < |b| ==> b[j] == x
    ensures forall i :: 0 <= i < j ==> b[i] != x
    ensures j == IndexOf(b, x)
  {
    j := 0;
    while j < |b| && b[j] != x
      invariant j <= |b|
      invariant forall i :: 0 <= i < j ==> b[i] != x
    {
      j := j + 1;
    }
  }

  /** The `push_back` loop of `transitionTo`: the chain of `n` leaf-first, root excluded. */
  method ChainLeafFirst(t: Tree, n: Node) returns (ancestors: seq<Node>)
    requires t.Valid() && t.Contains(n)
    ensures ancestors == Up(t, n)
  {
    ancestors := [];
    var it := n;
    while it != Root
      invariant t.Contains(it)
      invariant ancestors + Up(t, it) == Up(t, n)
      decreases it
    {
      ancestors := ancestors + [it];
      it := t.parent[it];
    }
  }

  /** The front-`insert` loop of `transitionTo`: the chain of `n` root-first, root excluded. */
  method ChainRootFirst(t: Tree, n: Node) returns (ancestors: seq<Node>)
    requires t.Valid() && t.Contains(n)
    ensures ancestors == Down(t, n)
  {
    ancestors := [];
    var it := n;
    while it != Root
      invariant t.Contains(it)
      invariant Down(t, it) + ancestors == Down(t, n)
      decreases it
    {
      ancestors := [it] + ancestors;
      it := t.parent[it];
    }
  }

  /**
    Where the two loops of `transitionTo` stop is where the specification cuts
    the chains: `i` exits, then entries from just past `commonAt`.
   */
  lemma PhasesMatch(t: Tree, cur: Node, target: Node, i: nat, commonAt: nat)
    requires t.Valid() && t.Contains(cur) && t.Contains(target)
    requires i <= |Up(t, cur)|
    requires forall l :: 0 <= l < i ==> Up(t, cur)[l] !in Down(t, target)
    requires i < |Up(t, cur)| ==> commonAt == IndexOf(Down(t, target), Up(t, cur)[i]) < |Down(t, target)|
    requires i == |Up(t, cur)| ==> commonAt == |Down(t, target)|
    ensures commonAt <= |Down(t, target)|
    ensures Up(t, cur)[..i] == ExitedNodes(t, cur, target)
    ensures Down(t, target)[(if commonAt == |Down(t, target)| then 0 else commonAt + 1)..] == EnteredNodes(t, cur, target)
    ensures cur != target ==>
              TransitionCalls(t, cur, target) ==
              Exits(Up(t, cur)[..i]) + Entries(Down(t, target)[(if commonAt == |Down(t, target)| then 0 else commonAt + 1)..])
  {
    assert i == FirstShared(Up(t, cur), Down(t, target));
  }

  /** Moving the head of the remaining walk onto the walked part keeps the whole walk. */
  lemma ShiftOne(done: seq<Node>, x: Node, tail: seq<Node>, rest: seq<Node>)
    requires rest == [x] + tail
    ensures done + rest == (done + [x]) + tail
  {
  }

  class StateManager {
    /** The tree is built before the manager and never changes afterwards. */
    const tree: Tree
    /** `m_current_state`. */
    var current: Node
    /** Every `on_entry`, `on_exit` and `process_event` run so far, in order. */
    var calls: seq<Call>

    /** The cursor is a state of the tree, never the root. */
    ghost predicate Valid()
      reads this
    {
      tree.Valid() && tree.IsState(current)
    }

    constructor (stateTree: Tree, initial: Node)
      requires stateTree.Valid() && stateTree.IsState(initial)
      ensures Valid()
      ensures tree == stateTree && current == initial && calls == []
    {
      tree := stateTree;
      current := initial;
      calls := [];
    }

    /** `init`: runs `on_entry` of the cursor and of no other node. */
    method Init()
      requires Valid()
      modifies this`calls
      ensures calls == old(calls) + [Entry(current)]
    {
      calls := calls + [Entry(current)];
    }

    /**
      `transitionTo`: a self-transition exits and re-enters the current state;
      otherwise the current chain is exited up to the first node the target chain
      shares, and the target chain is entered from just below that node. The
      cursor ends on the target.
     */
    method TransitionTo(target: Node)
      requires Valid() && tree.IsState(target)
      modifies this
      ensures Valid() && current == target
      ensures calls == old(calls) + TransitionCalls(tree, old(current), target)
      ensures old(current) == target ==> calls == old(calls) + [Exit(target), Entry(target)]
    {
      if target == current {
        calls := calls + [Exit(current), Entry(current)];
        return;
      }
      var from := current;
      var ancestorsA := ChainLeafFirst(tree, from);
      var ancestorsB := ChainRootFirst(tree, target);
      ghost var before := calls;
      var i, commonAt := ExitPhase(ancestorsA, ancestorsB);
      var start := if commonAt == |ancestorsB| then 0 else commonAt + 1;
      EntryPhase(ancestorsB, start);
      PhasesMatch(tree, from, target, i, commonAt);
      assert calls == before + (Exits(ancestorsA[..i]) + Entries(ancestorsB[start..]));
      current := target;
    }

    /**
      First loop of `transitionTo`: exits the nodes of `ancestorsA` in order until
      one is found in `ancestorsB` (by `std::find`), whose index is `commonAt`.
     */
    method ExitPhase(ancestorsA: seq<Node>, ancestorsB: seq<Node>) returns (i: nat, commonAt: nat)
      modifies this`calls
      ensures i <= |ancestorsA|
      ensures forall l :: 0 <= l < i ==> ancestorsA[l] !in ancestorsB
      ensures i < |ancestorsA| ==> commonAt == IndexOf(ancestorsB, ancestorsA[i]) < |ancestorsB|
      ensures i == |ancestorsA| ==> commonAt == |ancestorsB|
      ensures calls == old(calls) + Exits(ancestorsA[..i])
    {
      i := 0;
      commonAt := |ancestorsB|;
      while i < |ancestorsA|
        invariant i <= |ancestorsA|
        invariant forall l :: 0 <= l < i ==> ancestorsA[l] !in ancestorsB
        invariant commonAt == |ancestorsB|
        invariant calls == old(calls) + Exits(ancestorsA[..i])
      {
        var found := Find(ancestorsB, ancestorsA[i]);
        if found < |ancestorsB| {
          commonAt := found;
          return;
        }
        ExitsSnoc(ancestorsA[..i], ancestorsA[i]);
        assert ancestorsA[..i + 1] == ancestorsA[..i] + [ancestorsA[i]];
        calls := calls + [Exit(ancestorsA[i])];
        i := i + 1;
      }
    }

    /** Second loop of `transitionTo`: enters `ancestorsB` from index `start` to its end, root to leaf. */
    method EntryPhase(ancestorsB: seq<Node>, start: nat)
      requires start <= |ancestorsB|
      modifies this`calls
      ensures calls == old(calls) + Entries(ancestorsB[start..])
    {
      var j := start;
      while j < |ancestorsB|
        invariant start <= j <= |ancestorsB|
        invariant calls == old(calls) + Entries(ancestorsB[start..j])
      {
        EntriesSlice(ancestorsB, start, j);
        calls := calls + [Entry(ancestorsB[j])];
        j := j + 1;
      }
      assert ancestorsB[start..j] == ancestorsB[start..];
    }

    /**
      `processEvent`: offers the event to the current state and, while the state
      it was offered to returns non-zero and is not the root, to that state's
      parent. `verdict(n)` is what node `n`'s `process_event` returns for this
      event. The cursor does not move.
     */
    method ProcessEvent(verdict: Node -> int)
      requires Valid()
      modifies this`calls
      ensures calls == old(calls) + Offers(Bubble(tree, current, verdict))
    {
      calls := calls + [Offer(current)];
      ghost var offered := [current];
      assert Offers(offered) == [Offer(current)];
      if verdict(current) != 0 {
        var parentState := tree.parent[current];
        WalkClimb(tree, current, verdict);
        OffersSnoc(offered, parentState);
        offered := offered + [parentState];
        calls := calls + [Offer(parentState)];
        while verdict(parentState) != 0 && parentState != Root
          invariant tree.Contains(parentState)
          invariant Bubble(tree, current, verdict) == offered + Bubble(tree, parentState, verdict)[1..]
          invariant calls == old(calls) + Offers(offered)
          decreases parentState
        {
          WalkClimb(tree, parentState, verdict);
          ghost var rest := Bubble(tree, parentState, verdict)[1..];
          parentState := tree.parent[parentState];
          ShiftOne(offered, parentState, Bubble(tree, parentState, verdict)[1..], rest);
          OffersSnoc(offered, parentState);
          offered := offered + [parentState];
          calls := calls + [Offer(parentState)];
        }
        WalkEnds(tree, parentState, verdict);
        assert offered + [] == offered;
      } else {
        WalkEnds(tree, current, verdict);
      }
    }

    /** `currentState()` getter. */
    method CurrentState() returns (n: Node)
      ensures n == current
    {
      n := current;
    }

    /** `currentState(it)` setter: moves the cursor without running any handler. */
    method SetCurrentState(n: Node)
      requires Valid() && tree.IsState(n)
      modifies this`current
      ensures Valid() && current == n
    {
      current := n;
    }
  }
}
