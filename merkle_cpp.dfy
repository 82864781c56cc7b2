/** The C++ implementation (main.cpp): `MerkleTree` with its `root` and
    `merkleRoot` fields. The `Node` objects live in an arena: slot p of `nodes`
    is the `data` of the node at heap position p, whose `left` and `right`
    point at positions 2p+1 and 2p+2 when those are slots, and are null
    otherwise. `root` is null exactly when the arena is empty. */
module MerkleCpp {
  import opened Hex
  import opened Shape
  import opened Merkle
  import opened Arena

  class MerkleTree {
    /** SHA256_Init / SHA256_Update / SHA256_Final, a foreign library call. */
    const sha256: string -> Digest
    var nodes: array<string>
    var merkleRoot: string

    /** The node graph reachable from `root`. */
    ghost function View(): Tree
      reads this, nodes
    {
      Layout(nodes[..], 0, nodes.Length)
    }

    ghost predicate Valid()
      reads this, nodes
    {
      FullBinary(View())
    }

    /** `MerkleTree()`: no root, empty Merkle root. */
    constructor (sha256: string -> Digest)
      ensures this.sha256 == sha256
      ensures nodes.Length == 0 && merkleRoot == "" && Valid()
    {
      this.sha256 := sha256;
      nodes := new string[0];
      merkleRoot := "";
    }

    /** `calculateHash`: digest the string, then run the hex loop. */
    method CalculateHash(str: string) returns (r: string)
      ensures r == Hash(sha256, str)
    {
      var hash := sha256(str);
      r := HexEncode(hash);
    }

    /** `calculateMerkleRoot(Node*)`: returns a leaf as it is; otherwise
        resolves the left and then the right child and overwrites the node's
        data with the hash of their data concatenated. */
    method CalculateMerkleRootFrom(node: nat) returns (result: nat)
      requires node < nodes.Length
      requires FullBinary(Layout(nodes[..], node, nodes.Length))
      modifies nodes
      ensures result == node
      ensures Layout(nodes[..], node, nodes.Length) == Resolve(sha256, Layout(old(nodes[..]), node, nodes.Length))
      ensures UnchangedOutside(old(nodes[..]), nodes[..], node)
      decreases nodes.Length - node
    {
      ghost var before := nodes[..];
      if 2 * node + 1 >= nodes.Length && 2 * node + 2 >= nodes.Length {  // node->isLeaf()
        return node;
      }
      assert Layout(before, node, nodes.Length).IsFull();
      var leftChild := CalculateMerkleRootFrom(2 * node + 1);
      ghost var mid := nodes[..];
      SiblingUnchanged(before, mid, node, 2 * node + 1, 2 * node + 2, nodes.Length);
      var rightChild := CalculateMerkleRootFrom(2 * node + 2);
      ghost var after := nodes[..];
      var combinedData := nodes[leftChild] + nodes[rightChild];
      var h := CalculateHash(combinedData);
      nodes[node] := h;
      ResolveStep(sha256, node, nodes.Length, before, mid, after);
      result := node;
    }

    /** `buildTree(indices, index, numNodes)`: creates the node at `index`
        with its placeholder, then its left and its right subtree. */
    method BuildTree(indices: seq<int>, index: nat, numNodes: nat)
      requires numNodes == nodes.Length && numNodes <= |indices|
      modifies nodes
      ensures Layout(nodes[..], index, numNodes) == Shape.BuildTree(Placeholders(indices), index, numNodes)
      ensures UnchangedOutside(old(nodes[..]), nodes[..], index)
      decreases numNodes - index
    {
      if index < numNodes {
        ghost var before := nodes[..];
        nodes[index] := IntToString(indices[index]);
        BuildTree(indices, 2 * index + 1, numNodes);
        ghost var mid := nodes[..];
        BuildTree(indices, 2 * index + 2, numNodes);
        BuildStep(Placeholders(indices), index, numNodes, before, mid, nodes[..]);
      }
    }

    /** `addLeafData(transactions, node)`: in-order, each leaf takes the hash
        of `transactions.back()`, which is then popped. The vector handed in
        is const, so the model pops a copy: its contents are always
        transactions[..remaining]. */
    method AddLeafData(transactions: seq<string>, remaining: nat, node: nat) returns (rest: nat)
      requires remaining <= |transactions|
      requires LeafCount(Layout(nodes[..], node, nodes.Length)) <= remaining
      modifies nodes
      ensures rest <= remaining
      ensures var filled := FillLeaves(sha256, Layout(old(nodes[..]), node, nodes.Length), transactions[..remaining]);
        Layout(nodes[..], node, nodes.Length) == filled.0 && transactions[..rest] == filled.1
      ensures UnchangedOutside(old(nodes[..]), nodes[..], node)
      decreases nodes.Length - node
    {
      if node >= nodes.Length {  // node == nullptr
        return remaining;
      }
      ghost var before := nodes[..];
      rest := AddLeafData(transactions, remaining, 2 * node + 1);
      ghost var mid := nodes[..];
      ghost var afterLeft := transactions[..rest];
      LayoutLinks(nodes[..], node, nodes.Length);
      if 2 * node + 1 >= nodes.Length && 2 * node + 2 >= nodes.Length {  // node->isLeaf()
        var h := CalculateHash(transactions[rest - 1]);  // transactions.back()
        nodes[node] := h;
        rest := rest - 1;  // transactions.pop_back()
      }
      ghost var placed := nodes[..];
      ghost var afterSelf := transactions[..rest];
      SiblingUnchanged(before, mid, node, 2 * node + 1, 2 * node + 2, nodes.Length);
      assert placed == mid[node := placed[node]];
      LayoutUpdateBelow(mid, node, placed[node], 2 * node + 2, nodes.Length);
      assert Layout(before, node, nodes.Length)
        == Node(before[node], Layout(before, 2 * node + 1, nodes.Length), Layout(placed, 2 * node + 2, nodes.Length));
      rest := AddLeafData(transactions, rest, 2 * node + 2);
      FillStep(sha256, node, nodes.Length, transactions[..remaining], false,
               before, mid, placed, nodes[..], afterLeft, afterSelf, transactions[..rest]);
    }

    /** `buildTreeFromVector`: allocates 2N-1 nodes labelled 1 .. 2N-1 and
        fills the N leaves from the transactions. */
    method BuildTreeFromVector(transactions: seq<string>)
      requires |transactions| >= 1
      modifies this
      ensures fresh(nodes) && Valid()
      ensures nodes.Length == 2 * |transactions| - 1
      ensures View() == BuiltTree(sha256, transactions)
      ensures merkleRoot == old(merkleRoot)
    {
      var numNodes := 2 * |transactions| - 1;
      var nodeIndices := new int[numNodes];
      for i := 0 to numNodes
        modifies nodeIndices
        invariant forall k :: 0 <= k < i ==> nodeIndices[k] == k + 1
      {
        nodeIndices[i] := i + 1;
      }
      assert nodeIndices[..] == Indices(numNodes);
      nodes := new string[numNodes];
      BuildTree(nodeIndices[..], 0, numNodes);
      assert Layout(nodes[..], 0, numNodes) == AllocatedTree(|transactions|);
      var remaining := AddLeafData(transactions, |transactions|, 0);
      assert remaining == 0;
      assert transactions[..|transactions|] == transactions;
      assert View() == BuiltTree(sha256, transactions);
    }

    /** `calculateMerkleRoot()`: a no-op without a root; otherwise hashes the
        tree bottom-up and records the root node's data. */
    method CalculateMerkleRoot()
      requires Valid()
      modifies this`merkleRoot, nodes
      ensures Valid()
      ensures nodes.Length == 0 ==> merkleRoot == old(merkleRoot)
      ensures nodes.Length > 0 ==> View() == Resolve(sha256, old(View())) && merkleRoot == View().data
    {
      if nodes.Length == 0 {  // root == nullptr
        return;
      }
      var merkleRootNode := CalculateMerkleRootFrom(0);
      merkleRoot := nodes[merkleRootNode];
      ShapeDetermines(View(), old(View()));
    }

    /** `getMerkleRoot()` */
    method GetMerkleRoot() returns (r: string)
      ensures r == merkleRoot
    {
      r := merkleRoot;
    }

    /** `verifyTransactions`: builds and roots a fresh tree from the candidate
        list and compares its root with the stored one. */
    method VerifyTransactions(transactionsToVerify: seq<string>) returns (verified: bool)
      requires |transactionsToVerify| >= 1
      ensures verified <==> merkleRoot == MerkleRoot(sha256, transactionsToVerify)
    {
      var newTree := new MerkleTree(sha256);
      newTree.BuildTreeFromVector(transactionsToVerify);
      newTree.CalculateMerkleRoot();
      var newMerkleRoot := newTree.GetMerkleRoot();
      verified := merkleRoot == newMerkleRoot;
    }
  }

  /** Building alone does not compute the root: `getMerkleRoot` still
      returns the empty string. */
  method RootBeforeCalculation(sha256: string -> Digest, transactions: seq<string>) returns (root: string)
    requires |transactions| >= 1
    ensures root == ""
  {
    var tree := new MerkleTree(sha256);
    tree.BuildTreeFromVector(transactions);
    root := tree.GetMerkleRoot();
  }

  /** A tree built and rooted from a list verifies that same list. */
  method VerifyOwnTransactions(sha256: string -> Digest, transactions: seq<string>) returns (verified: bool)
    requires |transactions| >= 1
    ensures verified
  {
    var tree := new MerkleTree(sha256);
    tree.BuildTreeFromVector(transactions);
    tree.CalculateMerkleRoot();
    verified := tree.VerifyTransactions(transactions);
  }
}
