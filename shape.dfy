/** The shape of the tree that `buildTree` / `build_tree` allocates: a binary
    tree over the heap positions 0 .. M-1, where position i has its children at
    2i+1 and 2i+2 when those are below M, and null otherwise. */
module Shape {

  /** A `Node` with its `data` and its two child links; `Nil` is a null link. */
  datatype Tree = Nil | Node(data: string, left: Tree, right: Tree) {

    /** `Node::isFull` / `Node.is_full`: both children present. */
    predicate IsFull()
      requires Node?
    {
      left.Node? && right.Node?
    }

    /** `Node::isLeaf` / `Node.is_leaf`: no child present. */
    predicate IsLeaf()
      requires Node?
    {
      left.Nil? && right.Nil?
    }
  }

  /** Number of nodes. */
  function Size(t: Tree): nat {
    match t
    case Nil => 0
    case Node(_, l, r) => 1 + Size(l) + Size(r)
  }

  /** Number of leaves. */
  function LeafCount(t: Tree): nat {
    match t
    case Nil => 0
    case Node(_, l, r) => if t.IsLeaf() then 1 else LeafCount(l) + LeafCount(r)
  }

  /** Every node is a leaf or full: no node has exactly one child. */
  ghost predicate FullBinary(t: Tree) {
    match t
    case Nil => true
    case Node(_, l, r) => (t.IsLeaf() || t.IsFull()) && FullBinary(l) && FullBinary(r)
  }

  /** The data of the leaves, in in-order (left subtree, node, right subtree). */
  function InOrderLeaves(t: Tree): (s: seq<string>)
    ensures |s| == LeafCount(t)
  {
    match t
    case Nil => []
    case Node(d, l, r) => InOrderLeaves(l) + (if t.IsLeaf() then [d] else []) + InOrderLeaves(r)
  }

  /** The data of the non-leaf nodes, in in-order. */
  function Internals(t: Tree): seq<string> {
    match t
    case Nil => []
    case Node(d, l, r) => Internals(l) + (if t.IsLeaf() then [] else [d]) + Internals(r)
  }

  /** The bare shape: every payload replaced by the empty string. */
  function Erase(t: Tree): Tree {
    match t
    case Nil => Nil
    case Node(_, l, r) => Node("", Erase(l), Erase(r))
  }

  /** Size, leaf count and the leaf/full dichotomy depend on the shape only. */
  lemma {:induction false} ShapeDetermines(a: Tree, b: Tree)
    requires Erase(a) == Erase(b)
    ensures a.Nil? == b.Nil?
    ensures Size(a) == Size(b) && LeafCount(a) == LeafCount(b)
    ensures FullBinary(a) == FullBinary(b)
  {
    if a.Node? {
      ShapeDetermines(a.left, b.left);
      ShapeDetermines(a.right, b.right);
    }
  }

  /** A full binary tree has one leaf more than it has internal nodes. */
  lemma {:induction false} FullBinaryLeafCount(t: Tree)
    requires FullBinary(t) && t.Node?
    ensures 2 * LeafCount(t) == Size(t) + 1
  {
    if !t.IsLeaf() {
      FullBinaryLeafCount(t.left);
      FullBinaryLeafCount(t.right);
    }
  }

  // ----- decimal placeholders (`std::to_string`, Python `str`) -----

  function DigitChar(d: nat): (c: char)
    requires d < 10
    ensures '0' <= c <= '9' && c as int - '0' as int == d
  {
    ('0' as int + d) as char
  }

  predicate IsDecimal(s: string) {
    forall k :: 0 <= k < |s| ==> '0' <= s[k] <= '9'
  }

  /** The value of a string of decimal digits, most significant first. */
  function DecimalValue(s: string): nat
    requires IsDecimal(s)
  {
    if s == [] then 0
    else DecimalValue(s[..|s| - 1]) * 10 + (s[|s| - 1] as int - '0' as int)
  }

  /** `to_string` / `str` of a non-negative number: at least one digit and no
      leading zero. */
  function NatToString(n: nat): (s: string)
    ensures |s| >= 1 && IsDecimal(s)
    ensures s[0] == '0' ==> n == 0
    decreases n
  {
    if n < 10 then [DigitChar(n)] else NatToString(n / 10) + [DigitChar(n % 10)]
  }

  /** Reading the decimal rendering back gives the number. */
  lemma {:induction false} NatToStringValue(n: nat)
    ensures DecimalValue(NatToString(n)) == n
    decreases n
  {
    var s := NatToString(n);
    if n >= 10 {
      NatToStringValue(n / 10);
      assert s[..|s| - 1] == NatToString(n / 10);
    }
  }

  /** `to_string` / `str` of an integer. */
  function IntToString(x: int): string {
    if x < 0 then "-" + NatToString(-x) else NatToString(x)
  }

  /** The rendering has a minus sign exactly for negative numbers, followed by
      the digits of the magnitude without leading zeros. */
  lemma IntToStringSpec(x: int)
    ensures var r := IntToString(x);
      && |r| >= 1 && (r[0] == '-' <==> x < 0)
      && (x >= 0 && r[0] == '0' ==> x == 0)
      && (x < 0 ==> |r| >= 2 && r[1] != '0')
      && (x < 0 ==> IsDecimal(r[1..]) && DecimalValue(r[1..]) == -x)
      && (x >= 0 ==> IsDecimal(r) && DecimalValue(r) == x)
  {
    if x < 0 {
      NatToStringValue(-x);
      assert ("-" + NatToString(-x))[1..] == NatToString(-x);
    } else {
      NatToStringValue(x);
    }
  }

  /** `nodeIndices` / `node_arr`: position i holds i + 1. */
  function Indices(n: nat): (s: seq<int>)
    ensures |s| == n
  {
    seq(n, i => i + 1)
  }

  /** The placeholder payloads `buildTree` gives positions 0 .. |indices|-1:
      the decimal form of each index. */
  function Placeholders(indices: seq<int>): (s: seq<string>)
    ensures |s| == |indices|
  {
    seq(|indices|, i requires 0 <= i < |indices| => IntToString(indices[i]))
  }

  // ----- buildTree -----

  /** `buildTree(indices, index, numNodes)`: a node for every position below
      numNodes, labelled with its placeholder labels[index], which is
      `to_string(indices[index])` when labels == Placeholders(indices). */
  function BuildTree(labels: seq<string>, index: nat, numNodes: nat): Tree
    requires numNodes <= |labels|
    decreases numNodes - index
  {
    if index < numNodes then
      Node(labels[index],
           BuildTree(labels, 2 * index + 1, numNodes),
           BuildTree(labels, 2 * index + 2, numNodes))
    else Nil
  }

  // ----- heap positions -----

  /** The subtree found at heap position p: 0 is the root, and position p is
      the left child of (p-1)/2 when p is odd and its right child when even. */
  function At(t: Tree, p: nat): Tree
    decreases p
  {
    if p == 0 then t
    else
      var parent := At(t, (p - 1) / 2);
      if parent.Nil? then Nil
      else if p % 2 == 1 then parent.left
      else parent.right
  }

  /** Position j lies in the subtree rooted at position i. */
  ghost predicate Descends(j: nat, i: nat)
    decreases j
  {
    if j <= i then j == i else Descends((j - 1) / 2, i)
  }

  lemma {:induction false} DescendsFromRoot(j: nat)
    ensures Descends(j, 0)
    decreases j
  {
    if j > 0 {
      DescendsFromRoot((j - 1) / 2);
    }
  }

  /** The subtree at i is i itself plus the two disjoint subtrees of its children. */
  lemma {:induction false} DescendsChild(i: nat, j: nat)
    ensures Descends(j, 2 * i + 1) ==> Descends(j, i) && j != i
    ensures Descends(j, 2 * i + 2) ==> Descends(j, i) && j != i
    ensures Descends(j, i) && j != i ==> Descends(j, 2 * i + 1) || Descends(j, 2 * i + 2)
    ensures !(Descends(j, 2 * i + 1) && Descends(j, 2 * i + 2))
    decreases j
  {
    var parent := (j - 1) / 2;
    if j > 2 * i + 2 {
      DescendsChild(i, parent);
    } else if j == 2 * i + 1 || j == 2 * i + 2 {
      assert parent == i;
    } else if i < j {
      assert parent < i;
      assert !Descends(parent, i);
    }
  }

  /** Position p > 0 is child 2q+1 or 2q+2 of its parent q = (p-1)/2. */
  lemma ParentChild(p: nat)
    requires p > 0
    ensures p % 2 == 1 ==> p == 2 * ((p - 1) / 2) + 1
    ensures p % 2 == 0 ==> p == 2 * ((p - 1) / 2) + 2
  {
  }

  lemma AtLeft(t: Tree, q: nat)
    ensures At(t, 2 * q + 1) == if At(t, q).Nil? then Nil else At(t, q).left
  {
    assert (2 * q + 1 - 1) / 2 == q && (2 * q + 1) % 2 == 1;
  }

  lemma AtRight(t: Tree, q: nat)
    ensures At(t, 2 * q + 2) == if At(t, q).Nil? then Nil else At(t, q).right
  {
    assert (2 * q + 2 - 1) / 2 == q && (2 * q + 2) % 2 == 0;
  }

  /** The subtrees built at 2q+1 and 2q+2 are the children of the one built
      at q (and absent when q is). */
  lemma BuildTreeChildren(labels: seq<string>, q: nat, numNodes: nat)
    requires numNodes <= |labels|
    ensures var t := BuildTree(labels, q, numNodes);
      && BuildTree(labels, 2 * q + 1, numNodes) == (if t.Nil? then Nil else t.left)
      && BuildTree(labels, 2 * q + 2, numNodes) == (if t.Nil? then Nil else t.right)
  {
  }

  lemma {:induction false} AtBuildTree(labels: seq<string>, numNodes: nat, p: nat)
    requires numNodes <= |labels|
    ensures At(BuildTree(labels, 0, numNodes), p) == BuildTree(labels, p, numNodes)
    decreases p
  {
    if p > 0 {
      var t := BuildTree(labels, 0, numNodes);
      var q := (p - 1) / 2;
      AtBuildTree(labels, numNodes, q);
      BuildTreeChildren(labels, q, numNodes);
      ParentChild(p);
      if p % 2 == 1 {
        AtLeft(t, q);
        assert p == 2 * q + 1;
      } else {
        AtRight(t, q);
        assert p == 2 * q + 2;
      }
    }
  }

  /** `buildTree(indices, 0, M)` creates a node exactly at the positions p < M;
      the node at p carries the placeholder labels[p] and has its children
      at positions 2p+1 and 2p+2. */
  lemma BuildTreePositions(labels: seq<string>, numNodes: nat, p: nat)
    requires numNodes <= |labels|
    ensures var t := BuildTree(labels, 0, numNodes);
      At(t, p) == if p < numNodes then Node(labels[p], At(t, 2 * p + 1), At(t, 2 * p + 2)) else Nil
  {
    AtBuildTree(labels, numNodes, p);
    AtBuildTree(labels, numNodes, 2 * p + 1);
    AtBuildTree(labels, numNodes, 2 * p + 2);
  }

  /** Raising the bound by one adds exactly the node at position numNodes, to
      the subtree that position descends from. */
  lemma {:induction false} BuildTreeSizeStep(labels: seq<string>, index: nat, numNodes: nat)
    requires numNodes + 1 <= |labels|
    ensures Size(BuildTree(labels, index, numNodes + 1))
         == Size(BuildTree(labels, index, numNodes)) + (if Descends(numNodes, index) then 1 else 0)
    decreases numNodes + 1 - index
  {
    if index < numNodes {
      BuildTreeSizeStep(labels, 2 * index + 1, numNodes);
      BuildTreeSizeStep(labels, 2 * index + 2, numNodes);
      DescendsChild(index, numNodes);
    }
  }

  /** `buildTree(indices, 0, M)` creates exactly M nodes. */
  lemma {:induction false} BuildTreeSize(labels: seq<string>, numNodes: nat)
    requires numNodes <= |labels|
    ensures Size(BuildTree(labels, 0, numNodes)) == numNodes
  {
    if numNodes > 0 {
      BuildTreeSize(labels, numNodes - 1);
      BuildTreeSizeStep(labels, 0, numNodes - 1);
      DescendsFromRoot(numNodes - 1);
    }
  }

  /** With an odd node count no node gets exactly one child: 2i+1 < M forces
      2i+2 < M, since 2i+1 = M-1 would make M even. */
  lemma {:induction false} BuildTreeFullBinary(labels: seq<string>, index: nat, numNodes: nat)
    requires numNodes <= |labels| && numNodes % 2 == 1
    ensures FullBinary(BuildTree(labels, index, numNodes))
    decreases numNodes - index
  {
    if index < numNodes {
      BuildTreeFullBinary(labels, 2 * index + 1, numNodes);
      BuildTreeFullBinary(labels, 2 * index + 2, numNodes);
    }
  }

  /** The tree built for N transactions has 2N-1 nodes, is full, and has
      exactly N leaves. */
  lemma BuildTreeLeafCount(n: nat)
    requires n >= 1
    ensures var t := BuildTree(Placeholders(Indices(2 * n - 1)), 0, 2 * n - 1);
      Size(t) == 2 * n - 1 && FullBinary(t) && LeafCount(t) == n
  {
    var m := 2 * n - 1;
    BuildTreeSize(Placeholders(Indices(m)), m);
    BuildTreeFullBinary(Placeholders(Indices(m)), 0, m);
    FullBinaryLeafCount(BuildTree(Placeholders(Indices(m)), 0, m));
  }

  /** The tree `buildTreeFromVector` allocates for n transactions, before any
      leaf is filled: `buildTree(nodeIndices, 0, 2n-1)`. */
  function AllocatedTree(n: nat): (t: Tree)
    requires n >= 1
    ensures t.Node? && FullBinary(t) && LeafCount(t) == n
  {
    BuildTreeLeafCount(n);
    BuildTree(Placeholders(Indices(2 * n - 1)), 0, 2 * n - 1)
  }

  // ----- the node arena -----

  /** The tree stored in an arena `d` of node payloads by heap position, with
      M = m positions: the same links as `buildTree`, the payloads of `d`. */
  function Layout(d: seq<string>, i: nat, m: nat): Tree
    requires m <= |d|
    decreases m - i
  {
    if i < m then Node(d[i], Layout(d, 2 * i + 1, m), Layout(d, 2 * i + 2, m)) else Nil
  }

  /** At a present position of the arena, `isLeaf` holds exactly when the
      left child position is past the end, and `isFull` exactly when the right
      one is not; the one case in between is a node with a left child only. */
  lemma LayoutLinks(d: seq<string>, i: nat, m: nat)
    requires i < m <= |d|
    ensures Layout(d, i, m).IsLeaf() <==> 2 * i + 1 >= m
    ensures Layout(d, i, m).IsFull() <==> 2 * i + 2 < m
    ensures !Layout(d, i, m).IsLeaf() && !Layout(d, i, m).IsFull() <==> 2 * i + 2 == m
  {
  }

  /** The subtree at position i depends only on the payloads of its own positions. */
  lemma {:induction false} LayoutFrame(d: seq<string>, e: seq<string>, i: nat, m: nat)
    requires m <= |d| && m <= |e|
    requires forall j :: i <= j < m && Descends(j, i) ==> d[j] == e[j]
    ensures Layout(d, i, m) == Layout(e, i, m)
    decreases m - i
  {
    if i < m {
      forall j | 2 * i + 1 <= j < m && Descends(j, 2 * i + 1) ensures d[j] == e[j] {
        DescendsChild(i, j);
      }
      forall j | 2 * i + 2 <= j < m && Descends(j, 2 * i + 2) ensures d[j] == e[j] {
        DescendsChild(i, j);
      }
      LayoutFrame(d, e, 2 * i + 1, m);
      LayoutFrame(d, e, 2 * i + 2, m);
    }
  }

  /** e differs from d at most inside the subtree at position i. */
  ghost predicate UnchangedOutside(d: seq<string>, e: seq<string>, i: nat) {
    |d| == |e| && forall j {:trigger Descends(j, i)} :: 0 <= j < |d| && !Descends(j, i) ==> d[j] == e[j]
  }

  lemma UnchangedOutsideTrans(d: seq<string>, e: seq<string>, f: seq<string>, i: nat)
    requires UnchangedOutside(d, e, i) && UnchangedOutside(e, f, i)
    ensures UnchangedOutside(d, f, i)
  {
  }

  /** A change inside a child's subtree is a change inside the parent's. */
  lemma UnchangedOutsideWiden(d: seq<string>, e: seq<string>, i: nat, c: nat)
    requires c == 2 * i + 1 || c == 2 * i + 2
    requires UnchangedOutside(d, e, c)
    ensures UnchangedOutside(d, e, i)
  {
    forall j | 0 <= j < |d| && !Descends(j, i) ensures d[j] == e[j] {
      DescendsChild(i, j);
    }
  }

  /** A change inside one child's subtree leaves the parent's own slot and the
      other child's subtree as they were. */
  lemma SiblingUnchanged(d: seq<string>, e: seq<string>, i: nat, c: nat, s: nat, m: nat)
    requires (c == 2 * i + 1 && s == 2 * i + 2) || (c == 2 * i + 2 && s == 2 * i + 1)
    requires m <= |d| && UnchangedOutside(d, e, c)
    ensures i < |d| ==> d[i] == e[i]
    ensures Layout(d, s, m) == Layout(e, s, m)
  {
    assert !Descends(i, c);
    forall j | s <= j < m && Descends(j, s) ensures d[j] == e[j] {
      DescendsChild(i, j);
    }
    LayoutFrame(d, e, s, m);
  }

  /** Writing slot i leaves every subtree below it unchanged. */
  lemma LayoutUpdateBelow(d: seq<string>, i: nat, v: string, c: nat, m: nat)
    requires i < c && i < |d| && m <= |d|
    ensures Layout(d[i := v], c, m) == Layout(d, c, m)
  {
    LayoutFrame(d[i := v], d, c, m);
  }
}
