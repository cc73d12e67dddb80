/**
  The state tree an actor owns: an arena of nodes addressed by stable indices.
  Node 0 is the root (the head set by `set_head`); every other node was appended
  with `append_child` under a node that already existed, so its parent has a
  smaller index. That numbering is what makes every upward walk terminate.
 */
module StateTree {

  type Node = nat

  /** The head of the tree (`tree.begin()`): it bounds every walk and is never a current state. */
  const Root: Node := 0

  datatype Tree = Tree(parent: seq<Node>) {

    /** Acyclic with a single root: each non-root node hangs below an older node. */
    predicate Valid() {
      |parent| >= 1 && forall n :: 0 < n < |parent| ==> parent[n] < n
    }

    predicate Contains(n: Node) {
      n < |parent|
    }

    /** A node that may be current or a transition target: in the tree and not the root. */
    predicate IsState(n: Node) {
      0 < n < |parent|
    }
  }

  predicate Distinct(s: seq<Node>) {
    forall i, j :: 0 <= i < j < |s| ==> s[i] != s[j]
  }

  /**
    The chain of `n` leaf-first, root excluded: `n`, its parent, ..., the child of
    the root. This is the vector `ancestorsA` that `transitionTo` fills with `push_back`.
   */
  function Up(t: Tree, n: Node): (s: seq<Node>)
    requires t.Valid() && t.Contains(n)
    ensures forall i :: 0 <= i < |s| ==> t.IsState(s[i]) && s[i] <= n
    ensures n != Root <==> s != []
    ensures n != Root ==> s[0] == n
    decreases n
  {
    if n == Root then [] else [n] + Up(t, t.parent[n])
  }

  /**
    The chain of `n` root-first, root excluded: the vector `ancestorsB` that
    `transitionTo` fills by inserting at its front.
   */
  function Down(t: Tree, n: Node): (s: seq<Node>)
    requires t.Valid() && t.Contains(n)
    ensures forall i :: 0 <= i < |s| ==> t.IsState(s[i]) && s[i] <= n
    ensures n != Root <==> s != []
    ensures n != Root ==> s[|s| - 1] == n
    decreases n
  {
    if n == Root then [] else Down(t, t.parent[n]) + [n]
  }

  /** Walking up strictly decreases the index, so no node occurs twice on a chain. */
  lemma {:induction false} UpDecreasing(t: Tree, n: Node)
    requires t.Valid() && t.Contains(n)
    ensures forall i, j :: 0 <= i < j < |Up(t, n)| ==> Up(t, n)[i] > Up(t, n)[j]
    ensures Distinct(Up(t, n))
    decreases n
  {
    if n != Root {
      UpDecreasing(t, t.parent[n]);
    }
  }

  /** Read root-first, the chain strictly increases. */
  lemma {:induction false} DownIncreasing(t: Tree, n: Node)
    requires t.Valid() && t.Contains(n)
    ensures forall i, j :: 0 <= i < j < |Down(t, n)| ==> Down(t, n)[i] < Down(t, n)[j]
    ensures Distinct(Down(t, n))
    decreases n
  {
    if n != Root {
      DownIncreasing(t, t.parent[n]);
    }
  }

  /** Both vectors of `transitionTo` hold the same nodes: the ancestors-or-self of `n` below the root. */
  lemma {:induction false} UpDownSameNodes(t: Tree, n: Node)
    requires t.Valid() && t.Contains(n)
    ensures |Up(t, n)| == |Down(t, n)|
    ensures forall x :: x in Up(t, n) <==> x in Down(t, n)
    decreases n
  {
    if n != Root {
      UpDownSameNodes(t, t.parent[n]);
    }
  }

  /** What lies above position `i` of a leaf-first chain is the chain of the node at `i`. */
  lemma {:induction false} UpSuffix(t: Tree, n: Node, i: nat)
    requires t.Valid() && t.Contains(n)
    requires i < |Up(t, n)|
    ensures Up(t, n)[i..] == Up(t, Up(t, n)[i])
    decreases n
  {
    if i > 0 {
      var p := t.parent[n];
      assert Up(t, n)[i..] == Up(t, p)[i - 1..];
      UpSuffix(t, p, i - 1);
    }
  }

  /** What lies up to position `i` of a root-first chain is the chain of the node at `i`. */
  lemma {:induction false} DownPrefix(t: Tree, n: Node, i: nat)
    requires t.Valid() && t.Contains(n)
    requires i < |Down(t, n)|
    ensures Down(t, n)[..i + 1] == Down(t, Down(t, n)[i])
    decreases n
  {
    var p := t.parent[n];
    if i < |Down(t, n)| - 1 {
      assert Down(t, n)[..i + 1] == Down(t, p)[..i + 1];
      DownPrefix(t, p, i);
    }
  }

  /** Being on a chain is transitive: the chain of a node on `n`'s chain lies inside `n`'s chain. */
  lemma AncestorTransitive(t: Tree, x: Node, n: Node)
    requires t.Valid() && t.Contains(n)
    requires x in Up(t, n)
    ensures forall z :: z in Up(t, x) ==> z in Up(t, n)
  {
    var i :| 0 <= i < |Up(t, n)| && Up(t, n)[i] == x;
    UpSuffix(t, n, i);
  }
}
