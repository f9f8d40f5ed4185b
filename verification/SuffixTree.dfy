/** The trie of partial labellings that the beam search shares between its hypotheses. */
module SuffixTrees {
  import opened Topology

  const ROOT_NODE: int := -1

  datatype LabelNode = LabelNode(tip: nat, parent: int, frame: nat)

  // ----- what a list of nodes means -----

  predicate IsNode(nodes: seq<LabelNode>, node: int) {
    ROOT_NODE <= node < |nodes|
  }

  /** Parents come first, and were added at a strictly earlier frame. */
  predicate IsForest(nodes: seq<LabelNode>, alphabet: nat) {
    forall i :: 0 <= i < |nodes| ==> Grown(nodes, alphabet, i)
  }

  predicate Grown(nodes: seq<LabelNode>, alphabet: nat, i: int)
    requires 0 <= i < |nodes|
  {
    && ROOT_NODE <= nodes[i].parent < i
    && nodes[i].tip < alphabet
    && (nodes[i].parent >= 0 ==> nodes[nodes[i].parent].frame < nodes[i].frame)
  }

  predicate NoTwins(nodes: seq<LabelNode>) {
    forall i, j :: 0 <= i < j < |nodes| ==> nodes[i].parent != nodes[j].parent || nodes[i].tip != nodes[j].tip
  }

  /** The labelling that a node stands for. */
  function PathOf(nodes: seq<LabelNode>, alphabet: nat, node: int): seq<nat>
    requires IsForest(nodes, alphabet) && IsNode(nodes, node)
    decreases node
  {
    if node < 0 then [] else
    assert Grown(nodes, alphabet, node);
    PathOf(nodes, alphabet, nodes[node].parent) + [nodes[node].tip]
  }

  /** The frames at which the labels of that labelling were added. */
  function FramesOf(nodes: seq<LabelNode>, alphabet: nat, node: int): seq<nat>
    requires IsForest(nodes, alphabet) && IsNode(nodes, node)
    decreases node
  {
    if node < 0 then [] else
    assert Grown(nodes, alphabet, node);
    FramesOf(nodes, alphabet, nodes[node].parent) + [nodes[node].frame]
  }

  predicate StrictlyIncreasing(s: seq<nat>) {
    forall i, j :: 0 <= i < j < |s| ==> s[i] < s[j]
  }

  lemma {:induction false} FramesIncrease(nodes: seq<LabelNode>, alphabet: nat, node: int)
    requires IsForest(nodes, alphabet) && IsNode(nodes, node)
    ensures var f := FramesOf(nodes, alphabet, node);
      && StrictlyIncreasing(f)
      && |f| == |PathOf(nodes, alphabet, node)|
      && (f == [] <==> node < 0)
      && (f != [] ==> f[|f| - 1] == nodes[node].frame)
    decreases node
  {
    if node >= 0 {
      assert Grown(nodes, alphabet, node);
      FramesIncrease(nodes, alphabet, nodes[node].parent);
    }
  }

  lemma {:induction false} PathLabels(nodes: seq<LabelNode>, alphabet: nat, node: int)
    requires IsForest(nodes, alphabet) && IsNode(nodes, node)
    ensures forall i :: 0 <= i < |PathOf(nodes, alphabet, node)| ==> PathOf(nodes, alphabet, node)[i] < alphabet
    decreases node
  {
    if node >= 0 {
      assert Grown(nodes, alphabet, node);
      PathLabels(nodes, alphabet, nodes[node].parent);
    }
  }

  /** Two nodes never stand for the same labelling. */
  lemma {:induction false} PathsDiffer(nodes: seq<LabelNode>, alphabet: nat, a: int, b: int)
    requires IsForest(nodes, alphabet) && NoTwins(nodes) && IsNode(nodes, a) && IsNode(nodes, b)
    ensures PathOf(nodes, alphabet, a) == PathOf(nodes, alphabet, b) <==> a == b
    decreases a
  {
    if a >= 0 && b >= 0 && PathOf(nodes, alphabet, a) == PathOf(nodes, alphabet, b) {
      assert Grown(nodes, alphabet, a) && Grown(nodes, alphabet, b);
      var u, v := PathOf(nodes, alphabet, nodes[a].parent), PathOf(nodes, alphabet, nodes[b].parent);
      assert u == (u + [nodes[a].tip])[..|u|];
      assert v == (v + [nodes[b].tip])[..|v|];
      PathsDiffer(nodes, alphabet, nodes[a].parent, nodes[b].parent);
    }
  }

  /** Adding nodes leaves the old labellings alone. */
  lemma {:induction false} PathStays(nodes: seq<LabelNode>, more: seq<LabelNode>, alphabet: nat, node: int)
    requires IsForest(nodes, alphabet) && IsForest(more, alphabet) && nodes <= more && IsNode(nodes, node)
    ensures PathOf(more, alphabet, node) == PathOf(nodes, alphabet, node)
    decreases node
  {
    if node >= 0 {
      assert Grown(nodes, alphabet, node);
      PathStays(nodes, more, alphabet, nodes[node].parent);
    }
  }

  // ----- the flat child table -----

  function Cell(node: nat, alphabet: nat, c: nat): nat {
    node * alphabet + c
  }

  lemma CellInside(node: nat, alphabet: nat, c: nat, rows: nat)
    requires node < rows && c < alphabet
    ensures Cell(node, alphabet, c) < rows * alphabet
  {
    assert (node + 1) * alphabet <= rows * alphabet;
  }

  lemma RowsApart(node: nat, other: nat, alphabet: nat, c: nat, d: nat)
    requires node < other && c < alphabet
    ensures Cell(node, alphabet, c) < Cell(other, alphabet, d)
  {
    assert (node + 1) * alphabet <= other * alphabet;
  }

  lemma CellInjective(node: nat, alphabet: nat, c: nat, other: nat, d: nat)
    requires c < alphabet && d < alphabet && Cell(node, alphabet, c) == Cell(other, alphabet, d)
    ensures node == other && c == d
  {
    if node < other { RowsApart(node, other, alphabet, c, d); }
    if other < node { RowsApart(other, node, alphabet, d, c); }
  }

  /** The table after one more row, with the parent's cell set: every other cell keeps its child. */
  lemma CellAfter(table: seq<int>, rows: nat, alphabet: nat, parent: int, c: nat, child: int, x: nat, d: nat)
    requires |table| == rows * alphabet && parent < rows && c < alphabet && x <= rows && d < alphabet
    ensures Cell(x, alphabet, d) < rows * alphabet + alphabet && (x < rows ==> Cell(x, alphabet, d) < |table|)
    ensures parent >= 0 ==> Cell(parent, alphabet, c) < |table|
    ensures ((if parent < 0 then table else table[Cell(parent, alphabet, c) := child])
      + seq(alphabet, i => -1))[Cell(x, alphabet, d)]
      == if x == parent && d == c then child else if x == rows then -1 else table[Cell(x, alphabet, d)]
  {
    CellInside(x, alphabet, d, rows + 1);
    assert (rows + 1) * alphabet == rows * alphabet + alphabet;
    if x < rows { CellInside(x, alphabet, d, rows); } else { assert Cell(x, alphabet, d) >= |table|; }
    if parent >= 0 {
      CellInside(parent, alphabet, c, rows);
      if Cell(x, alphabet, d) == Cell(parent, alphabet, c) { CellInjective(x, alphabet, d, parent, c); }
    }
  }

  lemma OneMoreRow(rows: nat, alphabet: nat)
    ensures (rows + 1) * alphabet == rows * alphabet + alphabet
  {
  }

  lemma ForestGrows(nodes: seq<LabelNode>, alphabet: nat, node: LabelNode)
    requires IsForest(nodes, alphabet) && IsNode(nodes, node.parent) && node.tip < alphabet
    requires node.parent >= 0 ==> nodes[node.parent].frame < node.frame
    ensures IsForest(nodes + [node], alphabet)
  {
    forall i | 0 <= i < |nodes + [node]| ensures Grown(nodes + [node], alphabet, i) {
      if i < |nodes| { assert Grown(nodes, alphabet, i); }
    }
  }

  class SuffixTree {
    var nodes: seq<LabelNode>
    /** Row-major: the child of `node` by label c is at node * alphabetSize + c, or -1. */
    var children: seq<int>
    var rootChildren: seq<int>
    var alphabetSize: nat

    predicate Shaped()
      reads this
    {
      |rootChildren| == alphabetSize && |children| == |nodes| * alphabetSize
    }

    function Child(node: int, c: nat): (child: int)
      requires Shaped() && IsNode(nodes, node) && c < alphabetSize
      reads this
    {
      if node == ROOT_NODE then rootChildren[c]
      else
        CellInside(node, alphabetSize, c, |nodes|);
        children[Cell(node, alphabetSize, c)]
    }

    /** A child entry is empty or names a node with that parent and label. */
    ghost predicate Points(node: int, c: int)
      requires Shaped() && IsNode(nodes, node) && 0 <= c < alphabetSize
      reads this
    {
      var child := Child(node, c);
      child == -1 || (0 <= child < |nodes| && nodes[child].parent == node && nodes[child].tip == c)
    }

    ghost predicate Listed(i: int)
      requires Shaped() && IsForest(nodes, alphabetSize) && 0 <= i < |nodes|
      reads this
    {
      assert Grown(nodes, alphabetSize, i);
      Child(nodes[i].parent, nodes[i].tip) == i
    }

    ghost predicate Valid()
      reads this
    {
      && Shaped()
      && IsForest(nodes, alphabetSize)
      && (forall node, c :: IsNode(nodes, node) && 0 <= c < alphabetSize ==> Points(node, c))
      && (forall i :: 0 <= i < |nodes| ==> Listed(i))
    }

    lemma Twinless()
      requires Valid()
      ensures NoTwins(nodes)
    {
      forall i, j | 0 <= i < j < |nodes| ensures nodes[i].parent != nodes[j].parent || nodes[i].tip != nodes[j].tip {
        assert Listed(i) && Listed(j);
      }
    }

    constructor ()
      ensures Valid() && nodes == [] && alphabetSize == 0
    {
      nodes, children, rootChildren, alphabetSize := [], [], [], 0;
    }

    method Reset(alphabet: nat)
      modifies this
      ensures Valid() && nodes == [] && alphabetSize == alphabet
    {
      nodes, children, alphabetSize := [], [], alphabet;
      rootChildren := seq(alphabet, i => -1);
    }

    method TipOf(node: int) returns (r: Option<nat>)
      requires Valid() && IsNode(nodes, node)
      ensures var path := PathOf(nodes, alphabetSize, node); r == if path == [] then None else Some(path[|path| - 1])
    {
      if node >= 0 { return Some(nodes[node].tip); } else { return None; }
    }

    /** Finds the node of the one-label-longer labelling, and finds none only if the tree has none. */
    method GetChild(node: int, c: nat) returns (r: Option<int>)
      requires Valid() && IsNode(nodes, node) && c < alphabetSize
      ensures r.Some? ==>
        0 <= r.value < |nodes|
        && PathOf(nodes, alphabetSize, r.value) == PathOf(nodes, alphabetSize, node) + [c]
      ensures r.Some? ==> nodes[r.value].parent == node
      ensures r.None? ==> Child(node, c) == -1
      ensures r.None? ==> forall x :: IsNode(nodes, x) ==>
        PathOf(nodes, alphabetSize, x) != PathOf(nodes, alphabetSize, node) + [c]
    {
      var child := Child(node, c);
      assert Points(node, c);
      if child >= 0 {
        assert Grown(nodes, alphabetSize, child);
        return Some(child);
      }
      forall x | IsNode(nodes, x) ensures PathOf(nodes, alphabetSize, x) != PathOf(nodes, alphabetSize, node) + [c] {
        Childless(node, c, x);
      }
      return None;
    }

    lemma Childless(node: int, c: nat, x: int)
      requires Valid() && IsNode(nodes, node) && c < alphabetSize && Child(node, c) < 0 && IsNode(nodes, x)
      ensures PathOf(nodes, alphabetSize, x) != PathOf(nodes, alphabetSize, node) + [c]
    {
      if x >= 0 && PathOf(nodes, alphabetSize, x) == PathOf(nodes, alphabetSize, node) + [c] {
        assert Grown(nodes, alphabetSize, x) && Listed(x);
        Twinless();
        var u, v := PathOf(nodes, alphabetSize, nodes[x].parent), PathOf(nodes, alphabetSize, node);
        assert u == (u + [nodes[x].tip])[..|u|];
        assert v == (v + [c])[..|v|];
        PathsDiffer(nodes, alphabetSize, nodes[x].parent, node);
      }
    }

    method AddNode(parent: int, c: nat, frame: nat) returns (node: int)
      requires Valid() && IsNode(nodes, parent) && c < alphabetSize && Child(parent, c) == -1
      requires parent >= 0 ==> nodes[parent].frame < frame
      modifies this
      ensures Valid() && alphabetSize == old(alphabetSize)
      ensures nodes == old(nodes) + [LabelNode(c, parent, frame)] && node == |old(nodes)|
      ensures PathOf(nodes, alphabetSize, node) == old(PathOf(nodes, alphabetSize, parent)) + [c]
    {
      ghost var before := nodes;
      node := |nodes|;
      label write:
      if parent == ROOT_NODE {
        rootChildren := rootChildren[c := node];
      } else {
        CellInside(parent, alphabetSize, c, |nodes|);
        children := children[Cell(parent, alphabetSize, c) := node];
      }
      nodes := nodes + [LabelNode(c, parent, frame)];
      children := children + seq(alphabetSize, i => -1);
      OneMoreRow(|before|, alphabetSize);
      ForestGrows(before, alphabetSize, LabelNode(c, parent, frame));
      forall x: int, d: nat | IsNode(nodes, x) && d < alphabetSize
        ensures Child(x, d) == if x == parent && d == c then node else if x == |before| then -1
          else old@write(if IsNode(nodes, x) then Child(x, d) else 0)
      {
        if x >= 0 { CellAfter(old@write(children), |before|, alphabetSize, parent, c, node, x, d); }
      }
      forall x, d | IsNode(nodes, x) && 0 <= d < alphabetSize ensures Points(x, d) {
        if x < |before| { assert old@write(Points(x, d)); }
      }
      forall i | 0 <= i < |nodes| ensures Listed(i) {
        if i < |before| { assert old@write(Listed(i)); assert Grown(before, alphabetSize, i); }
      }
      PathStays(before, nodes, alphabetSize, parent);
    }

    /** Walks to the root, then reverses: the labelling and its frames, oldest first. */
    method Walk(node: int) returns (labels: seq<nat>, frames: seq<nat>)
      requires Valid() && IsNode(nodes, node)
      ensures labels == PathOf(nodes, alphabetSize, node) && frames == FramesOf(nodes, alphabetSize, node)
    {
      var walk := [];
      var next := node;
      while next >= 0
        invariant IsNode(nodes, next)
        invariant PathOf(nodes, alphabetSize, node) == PathOf(nodes, alphabetSize, next) + Tips(walk)
        invariant FramesOf(nodes, alphabetSize, node) == FramesOf(nodes, alphabetSize, next) + Stamps(walk)
        decreases next
      {
        assert Grown(nodes, alphabetSize, next);
        walk := walk + [nodes[next]];
        next := nodes[next].parent;
      }
      labels, frames := [], [];
      var k := |walk|;
      assert walk[..k] == walk;
      while k > 0
        invariant 0 <= k <= |walk|
        invariant labels + Tips(walk[..k]) == Tips(walk) && frames + Stamps(walk[..k]) == Stamps(walk)
      {
        k := k - 1;
        assert walk[..k + 1] == walk[..k] + [walk[k]];
        labels := labels + [walk[k].tip];
        frames := frames + [walk[k].frame];
      }
    }
  }

  /** A walk's labels and frames, last visited first. */
  function Tips(walk: seq<LabelNode>): seq<nat> {
    if walk == [] then [] else [walk[|walk| - 1].tip] + Tips(walk[..|walk| - 1])
  }

  function Stamps(walk: seq<LabelNode>): seq<nat> {
    if walk == [] then [] else [walk[|walk| - 1].frame] + Stamps(walk[..|walk| - 1])
  }
}
