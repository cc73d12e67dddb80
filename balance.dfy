/**
  Entry/exit balance of every state across a run of the state manager. For each
  state the `on_entry`/`on_exit` calls must alternate, starting with an entry, and
  the state is on the current node's chain (it is active) exactly when it has been
  entered once more than it has been exited. The actors' own effects (heater,
  lamp, timers) are paired entry/exit actions, so they inherit this.
 */
module Balance {
  import opened StateTree
  import opened Transition

  /** What one call contributes to node `x`'s log: `true` for `on_entry`, `false` for `on_exit`. */
  function Mark(c: Call, x: Node): seq<bool> {
    match c
    case Entry(y) => if y == x then [true] else []
    case Exit(y) => if y == x then [false] else []
    case Offer(_) => []
  }

  /** The entries and exits of node `x` in a trace, in order. */
  function Log(calls: seq<Call>, x: Node): seq<bool> {
    if calls == [] then [] else Mark(calls[0], x) + Log(calls[1..], x)
  }

  predicate Alternating(s: seq<bool>) {
    forall i :: 0 <= i < |s| ==> s[i] == (i % 2 == 0)
  }

  /** Every state alternates entry/exit from an entry, and is active exactly when its log is odd. */
  ghost predicate Balanced(t: Tree, calls: seq<Call>, cur: Node)
    requires t.Valid() && t.Contains(cur)
  {
    forall x :: t.IsState(x) ==> Alternating(Log(calls, x)) && (|Log(calls, x)| % 2 == 1 <==> x in Up(t, cur))
  }

  lemma {:induction false} LogAppend(a: seq<Call>, b: seq<Call>, x: Node)
    ensures Log(a + b, x) == Log(a, x) + Log(b, x)
  {
    if a != [] {
      assert (a + b)[1..] == a[1..] + b;
      LogAppend(a[1..], b, x);
    } else {
      assert a + b == b;
    }
  }

  lemma {:induction false} LogExits(s: seq<Node>, x: Node)
    requires Distinct(s)
    ensures Log(Exits(s), x) == if x in s then [false] else []
  {
    if s != [] {
      assert Exits(s)[1..] == Exits(s[1..]);
      LogExits(s[1..], x);
      assert x == s[0] ==> x !in s[1..];
    }
  }

  lemma {:induction false} LogEntries(s: seq<Node>, x: Node)
    requires Distinct(s)
    ensures Log(Entries(s), x) == if x in s then [true] else []
  {
    if s != [] {
      assert Entries(s)[1..] == Entries(s[1..]);
      LogEntries(s[1..], x);
      assert x == s[0] ==> x !in s[1..];
    }
  }

  /** `process_event` calls never count as entries or exits. */
  lemma {:induction false} LogOffers(s: seq<Node>, x: Node)
    ensures Log(Offers(s), x) == []
  {
    if s != [] {
      assert Offers(s)[1..] == Offers(s[1..]);
      LogOffers(s[1..], x);
    }
  }

  /**
    What one transition does to a single state: a self-transition exits and
    re-enters the current node only; otherwise a node leaving the active chain is
    exited once, a node joining it is entered once, and every other node is untouched.
   */
  lemma TransitionLog(t: Tree, cur: Node, target: Node, x: Node)
    requires t.Valid() && t.IsState(cur) && t.IsState(target)
    ensures Log(TransitionCalls(t, cur, target), x) ==
      if cur == target then (if x == cur then [false, true] else [])
      else if x in Up(t, cur) && x !in Up(t, target) then [false]
      else if x in Up(t, target) && x !in Up(t, cur) then [true]
      else []
  {
    if cur != target {
      var ex, en := ExitedNodes(t, cur, target), EnteredNodes(t, cur, target);
      TransitionMembership(t, cur, target);
      LogAppend(Exits(ex), Entries(en), x);
      LogExits(ex, x);
      LogEntries(en, x);
    } else {
      var c := [Exit(cur), Entry(cur)];
      assert c[1..] == [Entry(cur)] && c[1..][1..] == [];
      assert Log(c, x) == Mark(Exit(cur), x) + Log(c[1..], x);
      assert Log(c[1..], x) == Mark(Entry(cur), x) + Log([], x);
    }
  }

  /** Any transition, self-transition included, keeps every state balanced. */
  lemma TransitionKeepsBalance(t: Tree, calls: seq<Call>, cur: Node, target: Node)
    requires t.Valid() && t.IsState(cur) && t.IsState(target)
    requires Balanced(t, calls, cur)
    ensures Balanced(t, calls + TransitionCalls(t, cur, target), target)
  {
    forall x | t.IsState(x)
      ensures Alternating(Log(calls + TransitionCalls(t, cur, target), x))
      ensures |Log(calls + TransitionCalls(t, cur, target), x)| % 2 == 1 <==> x in Up(t, target)
    {
      TransitionKeepsNode(t, calls, cur, target, x);
    }
  }

  lemma TransitionKeepsNode(t: Tree, calls: seq<Call>, cur: Node, target: Node, x: Node)
    requires t.Valid() && t.IsState(cur) && t.IsState(target) && t.IsState(x)
    requires Alternating(Log(calls, x)) && (|Log(calls, x)| % 2 == 1 <==> x in Up(t, cur))
    ensures Alternating(Log(calls + TransitionCalls(t, cur, target), x))
    ensures |Log(calls + TransitionCalls(t, cur, target), x)| % 2 == 1 <==> x in Up(t, target)
  {
    var l, d := Log(calls, x), Log(TransitionCalls(t, cur, target), x);
    LogAppend(calls, TransitionCalls(t, cur, target), x);
    TransitionLog(t, cur, target, x);
    var before, after := x in Up(t, cur), x in Up(t, target);
    if cur == target && x == cur {
      assert before && after && d == [false, true];
    }
    StepParity(l, d, before, after);
  }

  /** Parity bookkeeping for one node: the four ways a transition can touch it. */
  lemma StepParity(l: seq<bool>, d: seq<bool>, before: bool, after: bool)
    requires Alternating(l) && (|l| % 2 == 1 <==> before)
    requires || (d == [false, true] && before && after)
             || (d == [false] && before && !after)
             || (d == [true] && !before && after)
             || (d == [] && before == after)
    ensures Alternating(l + d) && (|l + d| % 2 == 1 <==> after)
  {
    ExtendAlternating(l, d);
  }

  /** Appending what a transition may log for one node keeps the alternation. */
  lemma ExtendAlternating(l: seq<bool>, d: seq<bool>)
    requires Alternating(l)
    requires d == [] || d == [|l| % 2 == 0] || (|l| % 2 == 1 && d == [false, true])
    ensures Alternating(l + d)
  {
  }

  /** Offering an event changes nobody's balance. */
  lemma OffersKeepBalance(t: Tree, calls: seq<Call>, cur: Node, s: seq<Node>)
    requires t.Valid() && t.Contains(cur)
    requires Balanced(t, calls, cur)
    ensures Balanced(t, calls + Offers(s), cur)
  {
    forall x | t.IsState(x) ensures Log(calls + Offers(s), x) == Log(calls, x) {
      LogAppend(calls, Offers(s), x);
      LogOffers(s, x);
    }
  }

  /**
    `init` enters the cursor and nothing above it, so the states start balanced
    exactly when the initial state hangs directly below the root.
   */
  lemma InitBalanced(t: Tree, n: Node)
    requires t.Valid() && t.IsState(n)
    ensures Balanced(t, [Entry(n)], n) <==> t.parent[n] == Root
  {
    assert Up(t, n) == [n] + Up(t, t.parent[n]);
    forall x | t.IsState(x) ensures Log([Entry(n)], x) == if x == n then [true] else [] {
      assert [Entry(n)][1..] == [];
    }
    if t.parent[n] != Root {
      var p := t.parent[n];
      assert p in Up(t, n) && Log([Entry(n)], p) == [];
    }
  }
}
