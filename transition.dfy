/**
  What `StateManager::transitionTo` does to the handlers of a tree, as functions of
  the current node and the target: which `on_exit` and `on_entry` calls it makes
  and in what order. The least-common-ancestor walk is defined the way the source
  runs it (the first node of the current chain that `std::find` locates in the
  target chain); the lemmas relate it to the textbook description (exit up to the
  LCA, enter from below it) and to the set of nodes each side owns.
 */
module Transition {
  import opened StateTree

  /** One handler invocation: `on_entry`, `on_exit` or `process_event` of a node. */
  datatype Call = Entry(node: Node) | Exit(node: Node) | Offer(node: Node)

  function Exits(s: seq<Node>): seq<Call> {
    seq(|s|, i requires 0 <= i < |s| => Exit(s[i]))
  }

  function Entries(s: seq<Node>): seq<Call> {
    seq(|s|, i requires 0 <= i < |s| => Entry(s[i]))
  }

  function Offers(s: seq<Node>): seq<Call> {
    seq(|s|, i requires 0 <= i < |s| => Offer(s[i]))
  }

  lemma ExitsSnoc(s: seq<Node>, x: Node)
    ensures Exits(s + [x]) == Exits(s) + [Exit(x)]
  {
  }

  lemma EntriesSnoc(s: seq<Node>, x: Node)
    ensures Entries(s + [x]) == Entries(s) + [Entry(x)]
  {
  }

  lemma EntriesSlice(b: seq<Node>, start: nat, j: nat)
    requires start <= j < |b|
    ensures Entries(b[start..j + 1]) == Entries(b[start..j]) + [Entry(b[j])]
  {
    assert b[start..j + 1] == b[start..j] + [b[j]];
    EntriesSnoc(b[start..j], b[j]);
  }

  lemma OffersCons(x: Node, s: seq<Node>)
    ensures Offers([x] + s) == [Offer(x)] + Offers(s)
  {
  }

  lemma OffersSnoc(s: seq<Node>, x: Node)
    ensures Offers(s + [x]) == Offers(s) + [Offer(x)]
  {
  }

  /** `std::find(b.begin(), b.end(), x) - b.begin()`: the first position of `x`, or `|b|`. */
  function IndexOf(b: seq<Node>, x: Node): (j: nat)
    ensures j <= |b|
    ensures j < |b| ==> b[j] == x
    ensures forall i :: 0 <= i < j ==> b[i] != x
    ensures j == |b| <==> x !in b
  {
    if b == [] then 0 else if b[0] == x then 0 else 1 + IndexOf(b[1..], x)
  }

  /** Where the exit loop breaks: the first position of `a` whose node `b` contains, or `|a|`. */
  function FirstShared(a: seq<Node>, b: seq<Node>): (k: nat)
    ensures k <= |a|
    ensures forall i :: 0 <= i < k ==> a[i] !in b
    ensures k < |a| ==> a[k] in b
  {
    if a == [] then 0 else if a[0] in b then 0 else 1 + FirstShared(a[1..], b)
  }

  /** `commonAncestor` of `transitionTo`: the first shared node, or the root when there is none. */
  function Lca(t: Tree, cur: Node, target: Node): (l: Node)
    requires t.Valid() && t.Contains(cur) && t.Contains(target)
    ensures t.Contains(l)
  {
    var a := Up(t, cur);
    var k := FirstShared(a, Down(t, target));
    if k < |a| then a[k] else Root
  }

  /** The nodes whose `on_exit` runs, in call order: the current chain up to the break. */
  function ExitedNodes(t: Tree, cur: Node, target: Node): seq<Node>
    requires t.Valid() && t.Contains(cur) && t.Contains(target)
  {
    var a := Up(t, cur);
    a[..FirstShared(a, Down(t, target))]
  }

  /**
    The nodes whose `on_entry` runs, in call order: the target chain from just past
    the common ancestor's position, or all of it when there is no common ancestor.
   */
  function EnteredNodes(t: Tree, cur: Node, target: Node): seq<Node>
    requires t.Valid() && t.Contains(cur) && t.Contains(target)
  {
    var a := Up(t, cur);
    var b := Down(t, target);
    var k := FirstShared(a, b);
    var start := if k < |a| then IndexOf(b, a[k]) + 1 else 0;
    b[start..]
  }

  /** Every handler call of `transitionTo(target)` from `cur`, self-transition included. */
  function TransitionCalls(t: Tree, cur: Node, target: Node): seq<Call>
    requires t.Valid() && t.Contains(cur) && t.Contains(target)
  {
    if cur == target then [Exit(cur), Entry(cur)]
    else Exits(ExitedNodes(t, cur, target)) + Entries(EnteredNodes(t, cur, target))
  }

  /**
    `TransitionCalls` between two different nodes, read off their two chains: `k`
    is where the chains first meet and `start` where the entries begin.
   */
  lemma TransitionFromChains(t: Tree, cur: Node, target: Node, a: seq<Node>, b: seq<Node>, k: nat, start: nat)
    requires t.Valid() && t.Contains(cur) && t.Contains(target) && cur != target
    requires Up(t, cur) == a && Down(t, target) == b
    requires k == FirstShared(a, b)
    requires start == if k < |a| then IndexOf(b, a[k]) + 1 else 0
    ensures start <= |b|
    ensures TransitionCalls(t, cur, target) == Exits(a[..k]) + Entries(b[start..])
  {
  }

  /**
    The node the walk stops at is the least common ancestor: it is on both chains
    (or is the root), and every node on both chains is on its chain.
   */
  lemma LcaIsLeastCommonAncestor(t: Tree, cur: Node, target: Node)
    requires t.Valid() && t.Contains(cur) && t.Contains(target)
    ensures Lca(t, cur, target) == Root || (Lca(t, cur, target) in Up(t, cur) && Lca(t, cur, target) in Up(t, target))
    ensures forall z :: z in Up(t, cur) && z in Up(t, target) ==> z in Up(t, Lca(t, cur, target))
  {
    var a, b := Up(t, cur), Down(t, target);
    var k := FirstShared(a, b);
    UpDownSameNodes(t, target);
    if k < |a| {
      UpSuffix(t, cur, k);
    }
    forall z | z in a && z in Up(t, target) ensures z in Up(t, Lca(t, cur, target)) {
      var i :| 0 <= i < |a| && a[i] == z;
      assert i >= k;
      assert z in a[k..];
    }
  }

  /**
    The exit phase covers exactly the current chain below the LCA, and the entry
    phase exactly the target chain below the LCA:
    chain(cur) = exited ++ chain(LCA) and chain(target) root-first = chain(LCA) ++ entered.
   */
  lemma TransitionSplitsAtLca(t: Tree, cur: Node, target: Node)
    requires t.Valid() && t.Contains(cur) && t.Contains(target)
    ensures Up(t, cur) == ExitedNodes(t, cur, target) + Up(t, Lca(t, cur, target))
    ensures Down(t, target) == Down(t, Lca(t, cur, target)) + EnteredNodes(t, cur, target)
  {
    ExitSplit(t, cur, target);
    EntrySplit(t, cur, target);
  }

  lemma ExitSplit(t: Tree, cur: Node, target: Node)
    requires t.Valid() && t.Contains(cur) && t.Contains(target)
    ensures Up(t, cur) == ExitedNodes(t, cur, target) + Up(t, Lca(t, cur, target))
  {
    var a := Up(t, cur);
    var k := FirstShared(a, Down(t, target));
    if k < |a| {
      UpSuffix(t, cur, k);
    }
    Reassemble(a, k, Up(t, Lca(t, cur, target)));
  }

  /** A sequence is its prefix up to `k` followed by what comes after. */
  lemma Reassemble(a: seq<Node>, k: nat, rest: seq<Node>)
    requires k <= |a|
    requires k < |a| ==> rest == a[k..]
    requires k == |a| ==> rest == []
    ensures a == a[..k] + rest
  {
    if k < |a| {
      assert a == a[..k] + a[k..];
    }
  }

  lemma EntrySplit(t: Tree, cur: Node, target: Node)
    requires t.Valid() && t.Contains(cur) && t.Contains(target)
    ensures Down(t, target) == Down(t, Lca(t, cur, target)) + EnteredNodes(t, cur, target)
  {
    var a, b := Up(t, cur), Down(t, target);
    var k := FirstShared(a, b);
    if k < |a| {
      var l := a[k];
      var j := IndexOf(b, l);
      assert Lca(t, cur, target) == l && EnteredNodes(t, cur, target) == b[j + 1..];
      DownSplit(t, target, j);
    } else {
      assert EnteredNodes(t, cur, target) == b;
    }
  }

  lemma DownSplit(t: Tree, n: Node, j: nat)
    requires t.Valid() && t.Contains(n)
    requires j < |Down(t, n)|
    ensures Down(t, n) == Down(t, Down(t, n)[j]) + Down(t, n)[j + 1..]
  {
    var b := Down(t, n);
    DownPrefix(t, n, j);
    assert b == b[..j + 1] + b[j + 1..];
  }

  /**
    Set view of one transition between different nodes: a node is exited exactly
    when it is on the current chain and not on the target chain, entered exactly
    when it is on the target chain and not on the current chain; exits run child
    before parent, entries parent before child; the root is never touched.
   */
  lemma TransitionMembership(t: Tree, cur: Node, target: Node)
    requires t.Valid() && t.Contains(cur) && t.Contains(target)
    ensures forall x :: x in ExitedNodes(t, cur, target) <==> x in Up(t, cur) && x !in Up(t, target)
    ensures forall x :: x in EnteredNodes(t, cur, target) <==> x in Up(t, target) && x !in Up(t, cur)
    ensures forall i, j :: 0 <= i < j < |ExitedNodes(t, cur, target)| ==>
              ExitedNodes(t, cur, target)[i] > ExitedNodes(t, cur, target)[j]
    ensures forall i, j :: 0 <= i < j < |EnteredNodes(t, cur, target)| ==>
              EnteredNodes(t, cur, target)[i] < EnteredNodes(t, cur, target)[j]
    ensures Distinct(ExitedNodes(t, cur, target)) && Distinct(EnteredNodes(t, cur, target))
    ensures Root !in ExitedNodes(t, cur, target) && Root !in EnteredNodes(t, cur, target)
  {
    TransitionSplitsAtLca(t, cur, target);
    ExitedMembership(t, cur, target);
    EnteredMembership(t, cur, target);
    UpDecreasing(t, cur);
    DownIncreasing(t, target);
    PrefixDecreasing(Up(t, cur), ExitedNodes(t, cur, target), Up(t, Lca(t, cur, target)));
    SuffixIncreasing(Down(t, target), Down(t, Lca(t, cur, target)), EnteredNodes(t, cur, target));
  }

  lemma PrefixDecreasing(s: seq<Node>, p: seq<Node>, q: seq<Node>)
    requires s == p + q
    requires forall i, j :: 0 <= i < j < |s| ==> s[i] > s[j]
    ensures forall i, j :: 0 <= i < j < |p| ==> p[i] > p[j]
    ensures Distinct(p)
  {
    assert forall i :: 0 <= i < |p| ==> p[i] == s[i];
  }

  lemma SuffixIncreasing(s: seq<Node>, p: seq<Node>, q: seq<Node>)
    requires s == p + q
    requires forall i, j :: 0 <= i < j < |s| ==> s[i] < s[j]
    ensures forall i, j :: 0 <= i < j < |q| ==> q[i] < q[j]
    ensures Distinct(q)
  {
    assert forall i :: 0 <= i < |q| ==> q[i] == s[|p| + i];
  }

  lemma ExitedMembership(t: Tree, cur: Node, target: Node)
    requires t.Valid() && t.Contains(cur) && t.Contains(target)
    ensures forall x :: x in ExitedNodes(t, cur, target) <==> x in Up(t, cur) && x !in Up(t, target)
  {
    var l := Lca(t, cur, target);
    var a, ex, rest := Up(t, cur), ExitedNodes(t, cur, target), Up(t, Lca(t, cur, target));
    ExitSplit(t, cur, target);
    LcaIsLeastCommonAncestor(t, cur, target);
    UpDecreasing(t, cur);
    assert a == ex + rest;
    if l != Root {
      AncestorTransitive(t, l, target);
    }
  }

  lemma EnteredMembership(t: Tree, cur: Node, target: Node)
    requires t.Valid() && t.Contains(cur) && t.Contains(target)
    ensures forall x :: x in EnteredNodes(t, cur, target) <==> x in Up(t, target) && x !in Up(t, cur)
  {
    var l := Lca(t, cur, target);
    var b, en, pre := Down(t, target), EnteredNodes(t, cur, target), Down(t, Lca(t, cur, target));
    EntrySplit(t, cur, target);
    LcaIsLeastCommonAncestor(t, cur, target);
    DownIncreasing(t, target);
    UpDownSameNodes(t, target);
    UpDownSameNodes(t, l);
    assert b == pre + en;
    if l != Root {
      AncestorTransitive(t, l, cur);
    }
  }

  /** Chains with no node in common: every node of the current chain is exited, then the whole target chain is entered. */
  lemma NoSharedAncestor(t: Tree, cur: Node, target: Node)
    requires t.Valid() && t.Contains(cur) && t.Contains(target)
    requires forall x :: x in Up(t, cur) ==> x !in Up(t, target)
    ensures Lca(t, cur, target) == Root
    ensures ExitedNodes(t, cur, target) == Up(t, cur)
    ensures EnteredNodes(t, cur, target) == Down(t, target)
  {
    var a, b := Up(t, cur), Down(t, target);
    UpDownSameNodes(t, target);
    assert FirstShared(a, b) == |a|;
    assert a[..|a|] == a;
  }

  /** Moving down into a descendant exits nothing and does not re-enter the current node. */
  lemma TargetBelowCurrent(t: Tree, cur: Node, target: Node)
    requires t.Valid() && t.IsState(cur) && t.Contains(target)
    requires cur != target && cur in Up(t, target)
    ensures Lca(t, cur, target) == cur
    ensures ExitedNodes(t, cur, target) == []
    ensures cur !in EnteredNodes(t, cur, target)
    ensures Down(t, target) == Down(t, cur) + EnteredNodes(t, cur, target)
  {
    var a, b := Up(t, cur), Down(t, target);
    UpDownSameNodes(t, target);
    assert a[0] == cur && cur in b;
    assert FirstShared(a, b) == 0;
    EntrySplit(t, cur, target);
    EnteredMembership(t, cur, target);
  }

  /** Moving up to an ancestor exits exactly the nodes below it and enters nothing. */
  lemma TargetAboveCurrent(t: Tree, cur: Node, target: Node)
    requires t.Valid() && t.Contains(cur) && t.IsState(target)
    requires cur != target && target in Up(t, cur)
    ensures Lca(t, cur, target) == target
    ensures EnteredNodes(t, cur, target) == []
    ensures Up(t, cur) == ExitedNodes(t, cur, target) + Up(t, target)
  {
    var l := Lca(t, cur, target);
    LcaIsLeastCommonAncestor(t, cur, target);
    assert target in Up(t, target);
    assert target in Up(t, l);
    assert l in Up(t, target);
    assert target <= l && l <= target;
    TransitionSplitsAtLca(t, cur, target);
  }

  /**
    Shape of a transition between different states: no node is both exited and
    entered, and the entry phase is empty exactly when the target is an ancestor
    of the current node; otherwise it ends with the target itself.
   */
  lemma TransitionShape(t: Tree, cur: Node, target: Node)
    requires t.Valid() && t.IsState(cur) && t.IsState(target) && cur != target
    ensures forall x :: x in ExitedNodes(t, cur, target) ==> x !in EnteredNodes(t, cur, target)
    ensures EnteredNodes(t, cur, target) == [] <==> target in Up(t, cur)
    ensures EnteredNodes(t, cur, target) != [] ==>
              EnteredNodes(t, cur, target)[|EnteredNodes(t, cur, target)| - 1] == target
  {
    var en := EnteredNodes(t, cur, target);
    EnteredMembership(t, cur, target);
    ExitedMembership(t, cur, target);
    EntrySplit(t, cur, target);
    if target in Up(t, cur) {
      AncestorTransitive(t, target, cur);
    } else {
      assert target in Up(t, target);
      assert target in en;
    }
  }

  /** A transition never calls a handler of the root. */
  lemma TransitionSkipsRoot(t: Tree, cur: Node, target: Node)
    requires t.Valid() && t.IsState(cur) && t.IsState(target)
    ensures forall c :: c in TransitionCalls(t, cur, target) ==> c.node != Root
  {
    if cur != target {
      var ex, en := ExitedNodes(t, cur, target), EnteredNodes(t, cur, target);
      TransitionMembership(t, cur, target);
      CallsOnNodes(ex, en);
    }
  }

  /** Every call of an exit list followed by an entry list is on a node of one of the lists. */
  lemma CallsOnNodes(ex: seq<Node>, en: seq<Node>)
    ensures forall c :: c in Exits(ex) + Entries(en) ==> c.node in ex || c.node in en
  {
    forall c | c in Exits(ex) + Entries(en) ensures c.node in ex || c.node in en {
      if c in Exits(ex) {
        var i :| 0 <= i < |ex| && Exits(ex)[i] == c;
      } else {
        var i :| 0 <= i < |en| && Entries(en)[i] == c;
      }
    }
  }
}
