/** One step of each recursive traversal over the node arena: given what the
    recursive calls on the two children established, what the visit of the
    node itself establishes for its whole subtree. The recursive methods of
    both implementations discharge their postconditions with these. */
module Arena {
  import opened Hex
  import opened Shape
  import opened Merkle

  /** `buildTree` at `index`: the placeholder written first, then the left and
      the right subtree built. */
  lemma BuildStep(labels: seq<string>, index: nat, m: nat,
                  before: seq<string>, mid: seq<string>, after: seq<string>)
    requires index < m && m == |before| && m <= |labels|
    requires UnchangedOutside(before[index := labels[index]], mid, 2 * index + 1)
    requires Layout(mid, 2 * index + 1, m) == BuildTree(labels, 2 * index + 1, m)
    requires UnchangedOutside(mid, after, 2 * index + 2)
    requires Layout(after, 2 * index + 2, m) == BuildTree(labels, 2 * index + 2, m)
    ensures Layout(after, index, m) == BuildTree(labels, index, m)
    ensures UnchangedOutside(before, after, index)
  {
    var placed := before[index := labels[index]];
    SiblingUnchanged(placed, mid, index, 2 * index + 1, 2 * index + 2, m);
    SiblingUnchanged(mid, after, index, 2 * index + 2, 2 * index + 1, m);
    UnchangedOutsideWiden(placed, mid, index, 2 * index + 1);
    UnchangedOutsideWiden(mid, after, index, 2 * index + 2);
    UnchangedOutsideTrans(before, placed, mid, index);
    UnchangedOutsideTrans(before, mid, after, index);
  }

  /** `calculateMerkleRoot(node)` at a full node: both children resolved, then
      the node's data overwritten with H(left data + right data). */
  lemma ResolveStep(sha256: string -> Digest, node: nat, m: nat,
                    before: seq<string>, mid: seq<string>, after: seq<string>)
    requires node < m == |before|
    requires 2 * node + 2 < m
    requires FullBinary(Layout(before, node, m))
    requires UnchangedOutside(before, mid, 2 * node + 1)
    requires Layout(mid, 2 * node + 1, m) == Resolve(sha256, Layout(before, 2 * node + 1, m))
    requires UnchangedOutside(mid, after, 2 * node + 2)
    requires FullBinary(Layout(mid, 2 * node + 2, m))
    requires Layout(after, 2 * node + 2, m) == Resolve(sha256, Layout(mid, 2 * node + 2, m))
    ensures var h := Hash(sha256, after[2 * node + 1] + after[2 * node + 2]);
      && Layout(after[node := h], node, m) == Resolve(sha256, Layout(before, node, m))
      && UnchangedOutside(before, after[node := h], node)
  {
    var h := Hash(sha256, after[2 * node + 1] + after[2 * node + 2]);
    var final := after[node := h];
    SiblingUnchanged(before, mid, node, 2 * node + 1, 2 * node + 2, m);
    SiblingUnchanged(mid, after, node, 2 * node + 2, 2 * node + 1, m);
    LayoutUpdateBelow(after, node, h, 2 * node + 1, m);
    LayoutUpdateBelow(after, node, h, 2 * node + 2, m);
    var l := Resolve(sha256, Layout(before, 2 * node + 1, m));
    var r := Resolve(sha256, Layout(before, 2 * node + 2, m));
    assert Layout(after, 2 * node + 1, m) == l && Layout(after, 2 * node + 2, m) == r;
    assert after[2 * node + 1] == l.data && after[2 * node + 2] == r.data;
    assert Layout(final, node, m) == Node(h, l, r);
    UnchangedOutsideWiden(before, mid, node, 2 * node + 1);
    UnchangedOutsideWiden(mid, after, node, 2 * node + 2);
    UnchangedOutsideTrans(before, mid, after, node);
    UnchangedOutsideTrans(before, after, final, node);
  }

  /** `addLeafData(transactions, node)` at a present node: the left subtree
      filled from `pending`, then the node itself (a leaf takes the hash of
      the last pending transaction, which is popped; any other node is given
      `internal(data)`), then the right subtree filled from what is left. */
  lemma FillStep(sha256: string -> Digest, node: nat, m: nat, pending: seq<string>, blank: bool,
                 before: seq<string>, mid: seq<string>, placed: seq<string>, after: seq<string>,
                 afterLeft: seq<string>, afterSelf: seq<string>, rest: seq<string>)
    requires node < m == |before|
    requires LeafCount(Layout(before, node, m)) <= |pending|
    requires UnchangedOutside(before, mid, 2 * node + 1)
    requires var f := FillLeaves(sha256, Layout(before, 2 * node + 1, m), pending);
      Layout(mid, 2 * node + 1, m) == (if blank then BlankInternals(f.0) else f.0) && afterLeft == f.1
    requires Layout(before, node, m).IsLeaf() ==>
      |afterLeft| >= 1 && placed == mid[node := Hash(sha256, afterLeft[|afterLeft| - 1])]
      && afterSelf == afterLeft[..|afterLeft| - 1]
    requires !Layout(before, node, m).IsLeaf() ==>
      placed == (if blank then mid[node := ""] else mid) && afterSelf == afterLeft
    requires UnchangedOutside(placed, after, 2 * node + 2)
    requires LeafCount(Layout(placed, 2 * node + 2, m)) <= |afterSelf|
    requires var f := FillLeaves(sha256, Layout(placed, 2 * node + 2, m), afterSelf);
      Layout(after, 2 * node + 2, m) == (if blank then BlankInternals(f.0) else f.0) && rest == f.1
    ensures var f := FillLeaves(sha256, Layout(before, node, m), pending);
      && Layout(after, node, m) == (if blank then BlankInternals(f.0) else f.0)
      && rest == f.1
    ensures UnchangedOutside(before, after, node)
  {
    var c1, c2 := 2 * node + 1, 2 * node + 2;
    var t, l, r := Layout(before, node, m), Layout(before, c1, m), Layout(before, c2, m);
    assert t == Node(before[node], l, r);
    assert placed == mid[node := placed[node]];
    SiblingUnchanged(before, mid, node, c1, c2, m);
    LayoutUpdateBelow(mid, node, placed[node], c1, m);
    LayoutUpdateBelow(mid, node, placed[node], c2, m);
    assert Layout(placed, c2, m) == r;
    SiblingUnchanged(placed, after, node, c2, c1, m);
    assert Layout(after, c1, m) == Layout(mid, c1, m);
    var fl := FillLeaves(sha256, l, pending);
    var fr := FillLeaves(sha256, r, afterSelf);
    var self := if t.IsLeaf() then Hash(sha256, afterLeft[|afterLeft| - 1]) else before[node];
    assert FillLeaves(sha256, t, pending) == (Node(self, fl.0, fr.0), fr.1);
    assert Layout(after, node, m) == Node(placed[node], Layout(mid, c1, m), Layout(after, c2, m));
    UnchangedOutsideWiden(before, mid, node, c1);
    UnchangedOutsideWiden(placed, after, node, c2);
    UnchangedOutsideTrans(before, mid, placed, node);
    UnchangedOutsideTrans(before, placed, after, node);
  }
}
