/** The two implementations side by side: for the same transactions they
    compute the same Merkle root, although the Python one blanks the
    placeholders that the C++ one keeps in the internal nodes. */
module Agreement {
  import opened Hex
  import opened Merkle
  import MerkleCpp
  import MerklePy

  method SameRoot(sha256: string -> Digest, transactions: seq<string>) returns (cppRoot: string, pyRoot: string)
    requires |transactions| >= 1
    ensures cppRoot == pyRoot == MerkleRoot(sha256, transactions)
  {
    var cppTree := new MerkleCpp.MerkleTree(sha256);
    cppTree.BuildTreeFromVector(transactions);
    cppTree.CalculateMerkleRoot();
    cppRoot := cppTree.GetMerkleRoot();

    var pyTree := new MerklePy.MerkleTree(sha256);
    var list := new MerklePy.TransactionList(transactions);
    pyTree.BuildTreeFromList(list);
    pyRoot := pyTree.CalculateMerkleRoot();
    BlankedRoot(sha256, transactions);
  }
}
