/**
  Event bubbling (`StateManager::processEvent`): the event is offered to the
  current state, and while the state it was offered to does not return 0 it is
  offered to that state's parent, up to and including the root.
 */
module Dispatch {
  import opened StateTree
  import opened Transition
  import Handler

  /**
    The nodes whose `process_event` runs, in call order, when `verdict(n)` is what
    node `n` returns for the event: the walk stops after the first node that
    returns 0, or after the root.
   */
  function Bubble(t: Tree, n: Node, verdict: Node -> int): (s: seq<Node>)
    requires t.Valid() && t.Contains(n)
    ensures s != [] && s[0] == n
    ensures |s| <= |Up(t, n)| + 1
    decreases n
  {
    if !Handler.IsHandled(verdict(n)) && n != Root then [n] + Bubble(t, t.parent[n], verdict) else [n]
  }

  /** A refusing proper node passes the walk on: after it comes its parent's walk. */
  lemma WalkClimb(t: Tree, n: Node, verdict: Node -> int)
    requires t.Valid() && t.Contains(n) && !Handler.IsHandled(verdict(n)) && n != Root
    ensures Bubble(t, n, verdict)[1..] == [t.parent[n]] + Bubble(t, t.parent[n], verdict)[1..]
  {
    var b := Bubble(t, t.parent[n], verdict);
    assert b == [t.parent[n]] + b[1..];
  }

  /** The walk ends at a node that handles the event, and at the root. */
  lemma WalkEnds(t: Tree, n: Node, verdict: Node -> int)
    requires t.Valid() && t.Contains(n) && (Handler.IsHandled(verdict(n)) || n == Root)
    ensures Bubble(t, n, verdict)[1..] == []
  {
  }

  /** A node that handles the event is the only one offered it. */
  lemma BubbleTakenAt(t: Tree, n: Node, verdict: Node -> int)
    requires t.Valid() && t.Contains(n) && Handler.IsHandled(verdict(n))
    ensures Bubble(t, n, verdict) == [n]
  {
  }

  /** A proper state that refuses the event passes it on to its parent. */
  lemma BubblePassedOn(t: Tree, n: Node, verdict: Node -> int)
    requires t.Valid() && t.IsState(n) && !Handler.IsHandled(verdict(n))
    ensures Bubble(t, n, verdict) == [n] + Bubble(t, t.parent[n], verdict)
  {
  }

  /**
    Offered in order: the current node, then its ancestors up to the root; every
    node but the last refused the event; the last one handled it or is the root;
    no handler is called twice.
   */
  lemma {:induction false} BubbleOrder(t: Tree, n: Node, verdict: Node -> int)
    requires t.Valid() && t.Contains(n)
    ensures Bubble(t, n, verdict) == (Up(t, n) + [Root])[..|Bubble(t, n, verdict)|]
    ensures forall i :: 0 <= i < |Bubble(t, n, verdict)| - 1 ==> !Handler.IsHandled(verdict(Bubble(t, n, verdict)[i]))
    ensures var s := Bubble(t, n, verdict); Handler.IsHandled(verdict(s[|s| - 1])) || s[|s| - 1] == Root
    ensures Distinct(Bubble(t, n, verdict))
    decreases n
  {
    var s := Bubble(t, n, verdict);
    if n != Root && !Handler.IsHandled(verdict(n)) {
      var p := t.parent[n];
      BubbleOrder(t, p, verdict);
      assert Up(t, n) + [Root] == [n] + (Up(t, p) + [Root]);
      var rest := Bubble(t, p, verdict);
      assert s == [n] + rest;
      assert ([n] + (Up(t, p) + [Root]))[..|s|] == [n] + (Up(t, p) + [Root])[..|rest|];
      forall i, j | 0 <= i < j < |s| ensures s[i] != s[j] {
        if i == 0 {
          BubbleBelow(t, p, verdict, j - 1);
        } else {
          assert s[i] == rest[i - 1] && s[j] == rest[j - 1];
        }
      }
    }
  }

  /** Every node a bubble walk reaches is at or above its start. */
  lemma {:induction false} BubbleBelow(t: Tree, n: Node, verdict: Node -> int, i: nat)
    requires t.Valid() && t.Contains(n)
    requires i < |Bubble(t, n, verdict)|
    ensures Bubble(t, n, verdict)[i] <= n
    decreases n
  {
    if i > 0 {
      BubbleBelow(t, t.parent[n], verdict, i - 1);
    }
  }

  /**
    A state that keeps the default `process_event` never stops an event: it is
    always passed on to the parent.
   */
  lemma DefaultHandlerPassesOn<E>(t: Tree, n: Node, verdict: Node -> int, event: E)
    requires t.Valid() && t.IsState(n)
    requires verdict(n) == Handler.DefaultProcessEvent(event)
    ensures |Bubble(t, n, verdict)| >= 2 && Bubble(t, n, verdict)[1] == t.parent[n]
  {
  }
}
