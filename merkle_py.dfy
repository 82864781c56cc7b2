/** The Python implementation (file.py). Nodes live in an arena as in the C++
    model: slot p of `nodes` is the `data` of the node at heap position p, its
    children are at 2p+1 and 2p+2 when those are slots, and `root` is None
    exactly when the arena is empty. The list handed to `build_tree_from_list`
    is a mutable object the tree drains, so it is a class of its own. */
module MerklePy {
  import opened Hex
  import opened Shape
  import opened Merkle
  import opened Arena

  /** A Python list of transaction strings, shared by reference. */
  class TransactionList {
    var items: seq<string>

    constructor (items: seq<string>)
      ensures this.items == items
    {
      this.items := items;
    }
  }

  /** `no_of_nodes_required`: a tree with one leaf per transaction in which
      every node is a leaf or has two children has exactly this many nodes
      (and for an empty list the count is negative, so nothing is built). */
  function NodesRequired(arr: seq<string>): (r: int)
    ensures |arr| == 0 ==> r < 0
    ensures |arr| >= 1 ==> forall t :: FullBinary(t) && LeafCount(t) == |arr| ==> Size(t) == r
  {
    var x := |arr|;
    assert forall t :: FullBinary(t) && t.Node? ==> 2 * LeafCount(t) == Size(t) + 1 by {
      forall t | FullBinary(t) && t.Node? ensures 2 * LeafCount(t) == Size(t) + 1 {
        FullBinaryLeafCount(t);
      }
    }
    2 * x - 1
  }

  class MerkleTree {
    /** `hashlib.sha256(...).digest()`, a foreign library call. */
    const sha256: string -> Digest
    var nodes: array<string>
    /** `_merkle_root` */
    var merkleRoot: string

    /** The node graph reachable from `root`. */
    ghost function View(): Tree
      reads this, nodes
    {
      Layout(nodes[..], 0, nodes.Length)
    }

    ghost predicate Valid()
      reads this, nodes
    {
      FullBinary(View())
    }

    /** `__init__`: no root, empty Merkle root. */
    constructor (sha256: string -> Digest)
      ensures this.sha256 == sha256
      ensures nodes.Length == 0 && merkleRoot == "" && Valid()
    {
      this.sha256 := sha256;
      nodes := new string[0];
      merkleRoot := "";
    }

    /** `calculate_hash`: `hexdigest()` of the SHA-256 of the string. */
    function CalculateHash(data: string): (r: string)
      ensures |r| == 2 * DigestLength && UnHex(r) == sha256(data)
      ensures forall k :: 0 <= k < |r| ==> IsHexDigit(r[k])
    {
      HexRoundTrip(sha256(data));
      Hash(sha256, data)
    }

    /** `build_tree(arr, i, n)`: a node labelled `str(arr[i])`, then its left
        and its right subtree; nothing at or past position n. */
    method BuildTree(arr: seq<int>, i: nat, n: nat)
      requires n == nodes.Length && n <= |arr|
      modifies nodes
      ensures Layout(nodes[..], i, n) == Shape.BuildTree(Placeholders(arr), i, n)
      ensures UnchangedOutside(old(nodes[..]), nodes[..], i)
      decreases n - i
    {
      if i < n {
        ghost var before := nodes[..];
        nodes[i] := IntToString(arr[i]);
        BuildTree(arr, 2 * i + 1, n);
        ghost var mid := nodes[..];
        BuildTree(arr, 2 * i + 2, n);
        BuildStep(Placeholders(arr), i, n, before, mid, nodes[..]);
      }
    }

    /** `add_leaf_data(arr, node)`: in-order, a leaf takes the hash of
        `arr.pop()` and every other node is given the empty string. */
    method AddLeafData(arr: TransactionList, node: nat)
      requires LeafCount(Layout(nodes[..], node, nodes.Length)) <= |arr.items|
      modifies nodes, arr
      ensures var filled := FillLeaves(sha256, Layout(old(nodes[..]), node, nodes.Length), old(arr.items));
        Layout(nodes[..], node, nodes.Length) == BlankInternals(filled.0) && arr.items == filled.1
      ensures UnchangedOutside(old(nodes[..]), nodes[..], node)
      decreases nodes.Length - node
    {
      if node >= nodes.Length {  // not node
        return;
      }
      ghost var pending := arr.items;
      ghost var before := nodes[..];
      AddLeafData(arr, 2 * node + 1);
      ghost var mid := nodes[..];
      ghost var afterLeft := arr.items;
      LayoutLinks(nodes[..], node, nodes.Length);
      if 2 * node + 1 >= nodes.Length && 2 * node + 2 >= nodes.Length {  // node.is_leaf()
        var last := arr.items[|arr.items| - 1];
        arr.items := arr.items[..|arr.items| - 1];  // arr.pop()
        nodes[node] := CalculateHash(last);
      } else {
        nodes[node] := "";
      }
      ghost var placed := nodes[..];
      ghost var afterSelf := arr.items;
      SiblingUnchanged(before, mid, node, 2 * node + 1, 2 * node + 2, nodes.Length);
      assert placed == mid[node := placed[node]];
      LayoutUpdateBelow(mid, node, placed[node], 2 * node + 2, nodes.Length);
      assert Layout(before, node, nodes.Length)
        == Node(before[node], Layout(before, 2 * node + 1, nodes.Length), Layout(placed, 2 * node + 2, nodes.Length));
      AddLeafData(arr, 2 * node + 2);
      FillStep(sha256, node, nodes.Length, pending, true,
               before, mid, placed, nodes[..], afterLeft, afterSelf, arr.items);
    }

    /** `build_tree_from_list`: allocates `no_of_nodes_required` nodes labelled
        1 .. 2N-1, fills the N leaves from the list (draining it) and blanks
        the other nodes. An empty list leaves no root. */
    method BuildTreeFromList(transactions: TransactionList)
      modifies this, transactions
      ensures fresh(nodes) && Valid()
      ensures transactions.items == []
      ensures |old(transactions.items)| == 0 ==> nodes.Length == 0
      ensures |old(transactions.items)| >= 1 ==>
        nodes.Length == 2 * |old(transactions.items)| - 1
        && View() == BlankInternals(BuiltTree(sha256, old(transactions.items)))
      ensures merkleRoot == old(merkleRoot)
    {
      ghost var items := transactions.items;
      var nodesRequired := NodesRequired(transactions.items);
      // range(1, nodes_required + 1) is empty when nodes_required is -1
      var count: nat := if nodesRequired < 0 then 0 else nodesRequired;
      var nodeArr := Indices(count);
      nodes := new string[count];
      BuildTree(nodeArr, 0, count);
      if count > 0 {
        assert Layout(nodes[..], 0, count) == AllocatedTree(|items|);
      }
      AddLeafData(transactions, 0);
      if count > 0 {
        assert items[..|items|] == items;
        var filled := FillLeaves(sha256, AllocatedTree(|items|), items).0;
        assert View() == BlankInternals(filled);
        ShapeDetermines(filled, AllocatedTree(|items|));
        BlankInternalsSpec(filled);
        ShapeDetermines(BlankInternals(filled), filled);
      }
    }

    /** `merkle_hash(node)`: returns a leaf as it is; otherwise resolves the
        left and then the right child and overwrites the node's data with the
        hash of their data concatenated. */
    method MerkleHash(node: nat) returns (result: nat)
      requires node < nodes.Length
      requires FullBinary(Layout(nodes[..], node, nodes.Length))
      modifies nodes
      ensures result == node
      ensures Layout(nodes[..], node, nodes.Length) == Resolve(sha256, Layout(old(nodes[..]), node, nodes.Length))
      ensures UnchangedOutside(old(nodes[..]), nodes[..], node)
      decreases nodes.Length - node
    {
      ghost var before := nodes[..];
      if 2 * node + 1 >= nodes.Length && 2 * node + 2 >= nodes.Length {  // node.is_leaf()
        return node;
      }
      assert Layout(before, node, nodes.Length).IsFull();
      var leftNode := MerkleHash(2 * node + 1);
      var left := nodes[leftNode];
      ghost var mid := nodes[..];
      SiblingUnchanged(before, mid, node, 2 * node + 1, 2 * node + 2, nodes.Length);
      var rightNode := MerkleHash(2 * node + 2);
      var right := nodes[rightNode];
      ghost var after := nodes[..];
      SiblingUnchanged(mid, after, node, 2 * node + 2, 2 * node + 1, nodes.Length);
      assert left == after[2 * node + 1];
      nodes[node] := CalculateHash(left + right);
      ResolveStep(sha256, node, nodes.Length, before, mid, after);
      result := node;
    }

    /** `calculate_merkle_root`: hashes the tree bottom-up, records the root
        node's data and returns it. Without a root `merkle_hash(None)` raises,
        so a built tree is required. */
    method CalculateMerkleRoot() returns (r: string)
      requires nodes.Length > 0 && Valid()
      modifies this`merkleRoot, nodes
      ensures Valid()
      ensures View() == Resolve(sha256, old(View()))
      ensures r == merkleRoot == View().data
    {
      var merkleRootNode := MerkleHash(0);
      merkleRoot := nodes[merkleRootNode];
      r := merkleRoot;
      ShapeDetermines(View(), old(View()));
    }

    /** `get_merkle_root` */
    method GetMerkleRoot() returns (r: string)
      ensures r == merkleRoot
    {
      r := merkleRoot;
    }

    /** `verify_transactions(arr1)`: builds and roots a fresh tree from `arr1`
        (draining it) and compares its root with the stored one. */
    method VerifyTransactions(arr1: TransactionList) returns (verified: bool)
      requires |arr1.items| >= 1
      modifies arr1
      ensures arr1.items == []
      ensures verified <==> merkleRoot == MerkleRoot(sha256, old(arr1.items))
    {
      var hash1 := GetMerkleRoot();
      ghost var items := arr1.items;
      var newTree := new MerkleTree(sha256);
      newTree.BuildTreeFromList(arr1);
      var _ := newTree.CalculateMerkleRoot();
      var hash2 := newTree.GetMerkleRoot();
      BlankedRoot(sha256, items);
      verified := hash1 == hash2;
    }
  }

  /** Building alone does not compute the root: `get_merkle_root` still
      returns the empty string. */
  method RootBeforeCalculation(sha256: string -> Digest, transactions: seq<string>) returns (root: string)
    ensures root == ""
  {
    var tree := new MerkleTree(sha256);
    var list := new TransactionList(transactions);
    tree.BuildTreeFromList(list);
    root := tree.GetMerkleRoot();
  }

  /** A tree built and rooted from a list verifies a second list holding the
      same transactions (the first one has been drained by then). */
  method VerifyOwnTransactions(sha256: string -> Digest, transactions: seq<string>) returns (verified: bool)
    requires |transactions| >= 1
    ensures verified
  {
    var tree := new MerkleTree(sha256);
    var list := new TransactionList(transactions);
    tree.BuildTreeFromList(list);
    var root := tree.CalculateMerkleRoot();
    BlankedRoot(sha256, transactions);
    var again := new TransactionList(transactions);
    verified := tree.VerifyTransactions(again);
  }

  /** Building from a list drains it, so verifying with that same list object
      afterwards finds it empty: the call would fail inside
      `calculate_merkle_root`. */
  method ListDrainedAfterBuild(sha256: string -> Digest, transactions: seq<string>) returns (left: seq<string>)
    ensures left == []
  {
    var tree := new MerkleTree(sha256);
    var list := new TransactionList(transactions);
    tree.BuildTreeFromList(list);
    left := list.items;
  }
}
