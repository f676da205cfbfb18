/** The tree walk: `verify_node` visits a node and then its children, left
  * to right, appending every node that matches to the caller's list, and
  * `query_selector_all` runs it from a root with a fresh list. */
module Traversal {
  import opened Lists
  import opened SelectorParsing
  import opened Matching

  /** The nodes of a tree in pre-order: the root, then each child's subtree
    * in child order. */
  function Preorder(n: Node): (r: seq<Node>)
    ensures |r| >= 1 && r[0] == n
    decreases n, 1
  {
    [n] + PreorderAll(n.children)
  }

  /** The pre-order walks of a list of siblings, one after the other. */
  function PreorderAll(cs: seq<Node>): seq<Node>
    decreases cs, 0
  {
    if cs == [] then [] else PreorderAll(cs[..|cs| - 1]) + Preorder(cs[|cs| - 1])
  }

  /** The number of nodes in a tree. */
  function Size(n: Node): nat
    decreases n, 1
  {
    1 + SizeAll(n.children)
  }

  function SizeAll(cs: seq<Node>): nat
    decreases cs, 0
  {
    if cs == [] then 0 else Size(cs[0]) + SizeAll(cs[1..])
  }

  /** The nodes of `ns` that some selector of `sels` matches, in order. */
  function Filter(ns: seq<Node>, sels: seq<SelectorValue>): (r: seq<Node>)
    ensures |r| <= |ns|
    ensures forall x :: x in r ==> x in ns && MatchesAny(sels, x)
  {
    if ns == [] then []
    else
      var rest := Filter(ns[..|ns| - 1], sels);
      var last := ns[|ns| - 1];
      if MatchesAny(sels, last) then rest + [last] else rest
  }

  // ---------------------------------------------------------------------
  // Properties of the walk and the filter

  /** The walk visits every node of the tree exactly once: it has one entry
    * per node. */
  lemma {:induction false} PreorderSize(n: Node)
    ensures |Preorder(n)| == Size(n)
    decreases n, 1
  {
    PreorderAllSize(n.children);
  }

  lemma {:induction false} PreorderAllSize(cs: seq<Node>)
    ensures |PreorderAll(cs)| == SizeAll(cs)
    decreases cs, 0
  {
    if cs != [] {
      var pre := cs[..|cs| - 1];
      PreorderAllSize(pre);
      PreorderSize(cs[|cs| - 1]);
      SizeAllSnoc(pre, cs[|cs| - 1]);
      assert pre + [cs[|cs| - 1]] == cs;
    }
  }

  lemma {:induction false} SizeAllSnoc(cs: seq<Node>, c: Node)
    ensures SizeAll(cs + [c]) == SizeAll(cs) + Size(c)
  {
    if cs != [] {
      assert (cs + [c])[1..] == cs[1..] + [c];
      SizeAllSnoc(cs[1..], c);
    } else {
      assert [c][1..] == [];
    }
  }

  /** The walk of the first `i + 1` children is the walk of the first `i`
    * followed by the subtree of child `i`. */
  lemma PreorderAllPrefix(cs: seq<Node>, i: nat)
    requires i < |cs|
    ensures PreorderAll(cs[..i + 1]) == PreorderAll(cs[..i]) + Preorder(cs[i])
  {
    assert cs[..i + 1][..i] == cs[..i];
  }

  /** Filtering distributes over concatenation, keeping order. */
  lemma {:induction false} FilterAppend(a: seq<Node>, b: seq<Node>, sels: seq<SelectorValue>)
    ensures Filter(a + b, sels) == Filter(a, sels) + Filter(b, sels)
    decreases |b|
  {
    if b == [] {
      assert a + b == a;
    } else {
      var pre := b[..|b| - 1];
      var last := b[|b| - 1];
      var kept := if MatchesAny(sels, last) then [last] else [];
      assert b == pre + [last];
      FilterAppend(a, pre, sels);
      Associative(a, pre, [last]);
      FilterSnoc(a + pre, last, sels);
      FilterSnoc(pre, last, sels);
      Associative(Filter(a, sels), Filter(pre, sels), kept);
    }
  }

  lemma FilterSnoc(ns: seq<Node>, x: Node, sels: seq<SelectorValue>)
    ensures Filter(ns + [x], sels) == Filter(ns, sels) + if MatchesAny(sels, x) then [x] else []
  {
    assert (ns + [x])[..|ns|] == ns;
  }

  /** A node is kept exactly when it occurs and some selector matches it. */
  lemma {:induction false} FilterMembership(ns: seq<Node>, sels: seq<SelectorValue>, x: Node)
    ensures x in Filter(ns, sels) <==> x in ns && MatchesAny(sels, x)
    decreases |ns|
  {
    if ns != [] {
      var pre := ns[..|ns| - 1];
      FilterMembership(pre, sels, x);
      assert ns == pre + [ns[|ns| - 1]];
    }
  }

  /** When every node matches, nothing is dropped. */
  lemma {:induction false} FilterKeepsAll(ns: seq<Node>, sels: seq<SelectorValue>)
    requires forall i :: 0 <= i < |ns| ==> MatchesAny(sels, ns[i])
    ensures Filter(ns, sels) == ns
    decreases |ns|
  {
    if ns != [] {
      var pre := ns[..|ns| - 1];
      FilterKeepsAll(pre, sels);
      assert ns == pre + [ns[|ns| - 1]];
    }
  }

  // ---------------------------------------------------------------------
  // The walk as the source runs it

  /** What `verify_node` has visited after its first `k` children: the node
    * itself, then the subtrees of those children. */
  function Visited(node: Node, k: nat): seq<Node>
    requires k <= |node.children|
  {
    [node] + PreorderAll(node.children[..k])
  }

  lemma VisitedStart(node: Node, sels: seq<SelectorValue>)
    ensures Filter(Visited(node, 0), sels) == if MatchesAny(sels, node) then [node] else []
  {
    assert node.children[..0] == [];
    assert Visited(node, 0) == [node];
    assert [node][..0] == [];
  }

  lemma VisitedStep(node: Node, i: nat, sels: seq<SelectorValue>)
    requires i < |node.children|
    ensures Filter(Visited(node, i + 1), sels) ==
      Filter(Visited(node, i), sels) + Filter(Preorder(node.children[i]), sels)
  {
    PreorderAllPrefix(node.children, i);
    assert Visited(node, i + 1) == Visited(node, i) + Preorder(node.children[i]);
    FilterAppend(Visited(node, i), Preorder(node.children[i]), sels);
  }

  lemma VisitedAll(node: Node)
    ensures Visited(node, |node.children|) == Preorder(node)
  {
    assert node.children[..|node.children|] == node.children;
  }

  /** `verify_node`: appends to `matched`, in pre-order, every node of the
    * subtree rooted at `node` that the selector list matches. */
  method VerifyNode(node: Node, selector: seq<SelectorValue>, matched: MutableList<Node>)
    modifies matched
    ensures matched.items == old(matched.items) + Filter(Preorder(node), selector)
    decreases node
  {
    if MatchesAny(selector, node) {
      matched.Append(node);
    }
    VisitedStart(node, selector);
    for i := 0 to |node.children|
      invariant matched.items == old(matched.items) + Filter(Visited(node, i), selector)
    {
      VerifyNode(node.children[i], selector, matched);
      VisitedStep(node, i, selector);
      Associative(old(matched.items), Filter(Visited(node, i), selector), Filter(Preorder(node.children[i]), selector));
    }
    VisitedAll(node);
  }

  /** `query_selector_all`: the nodes of the tree rooted at `node`, root
    * included, that the selector list `selector` matches, in pre-order. */
  method QuerySelectorAll(node: Node, selector: string) returns (r: seq<Node>)
    ensures r == Filter(Preorder(node), SelectorsFromStr(selector))
  {
    var matchedNodes := new MutableList<Node>();
    VerifyNode(node, SelectorsFromStr(selector), matchedNodes);
    r := matchedNodes.items;
  }

  // ---------------------------------------------------------------------
  // What a query returns

  /** A node is in the result exactly when it is in the tree and matches. */
  lemma QueryMembership(root: Node, selector: string, x: Node)
    ensures x in Filter(Preorder(root), SelectorsFromStr(selector)) <==>
      x in Preorder(root) && MatchesAny(SelectorsFromStr(selector), x)
  {
    FilterMembership(Preorder(root), SelectorsFromStr(selector), x);
  }

  /** The result is never longer than the tree has nodes. */
  lemma QueryBound(root: Node, selector: string)
    ensures |Filter(Preorder(root), SelectorsFromStr(selector))| <= Size(root)
  {
    PreorderSize(root);
  }

  /** A list with a match-all member (an empty or blank piece, as left by
    * a trailing comma) returns every node of the tree in pre-order. */
  lemma QueryWithUniversal(root: Node, sels: seq<SelectorValue>)
    requires Universal in sels
    ensures Filter(Preorder(root), sels) == Preorder(root)
  {
    var ns := Preorder(root);
    forall i | 0 <= i < |ns| ensures MatchesAny(sels, ns[i]) {
      UniversalMatchesAll(ns[i]);
    }
    FilterKeepsAll(ns, sels);
  }

  /** The empty selector returns every node of the tree in pre-order. */
  lemma QueryEmptySelector(root: Node)
    ensures Filter(Preorder(root), SelectorsFromStr("")) == Preorder(root)
  {
    EmptySelectorList();
    QueryWithUniversal(root, SelectorsFromStr(""));
  }
}
