# Merkle tree, C++ and Python

A model of a small Merkle-tree program written twice, once in C++ (`main.cpp`)
and once in Python (`file.py`). Given N transactions (strings), both build a
binary tree over the heap positions 0 .. 2N-2 (position i has its children at
2i+1 and 2i+2 when those are positions), give each leaf, in in-order, the
SHA-256 hex digest of the transaction popped off the end of the list, and then
hash the tree bottom-up: every internal node takes H(left data + right data).
The root's data is the Merkle root; `verifyTransactions` /
`verify_transactions` rebuilds a tree from a candidate list and compares roots.

Layout of the project:

- `hex.dfy` (module `Hex`): the 32-byte digest written as 64 lowercase hex
  characters, the `sprintf` loop of `calculateHash` as a method over a `char`
  buffer, and `Hash`, the hex digest of a string. SHA-256 itself is a
  parameter `sha256: string -> Digest`.
- `shape.dfy` (module `Shape`): the `Node` graph as a `Tree` datatype,
  `isLeaf`/`isFull`, the tree `buildTree` allocates (as a function), its size,
  leaf count and leaf/full dichotomy, and `Layout`, the tree stored in an array
  of node payloads indexed by heap position, with its frame lemmas.
- `merkle.dfy` (module `Merkle`): the specification functions `FillLeaves`
  (leaf filling by popping), `BlankInternals` (the Python variant that clears
  internal nodes), `Resolve` (bottom-up hashing) and `MerkleRoot`, with their
  properties: in-order leaf k holds H(tx[N-1-k]), the list is drained exactly,
  every internal node is the hash of its children, worked roots for 1, 3 and
  4 transactions, and what verification does and does not guarantee.
- `arena.dfy` (module `Arena`): one step of each recursive traversal over the
  node array.
- `merkle_cpp.dfy` (module `MerkleCpp`): class `MerkleTree` of `main.cpp`;
  `nodes` is the node array (the `root` pointer is null exactly when it is
  empty), `merkleRoot` the stored root. Each recursive method is proved
  against the specification function on the array's tree.
- `merkle_py.dfy` (module `MerklePy`): class `MerkleTree` of `file.py`, with
  the caller's list as class `TransactionList`, which the tree drains.
- `agreement.dfy` (module `Agreement`): both implementations compute the same
  root for the same list.

## Model

| member | source | states |
|---|---|---|
| Hex.HexOf | main.cpp:79-84 | 32 digest bytes become exactly 64 characters, two per byte |
| Hex.HexOfAt | main.cpp:80-81 | characters 2i and 2i+1 are the high and low hex digits of byte i |
| Hex.HexOfIsLowerHex | main.cpp:81 | every character of the encoding is one of 0-9, a-f |
| Hex.HexRoundTrip | main.cpp:79-84 | reading the hex string back gives the digest bytes: the encoding loses nothing |
| Hex.HexOfInjective | main.cpp:79-84 | different digests give different hex strings |
| Hex.UpToNul | main.cpp:84 | `std::string(buf)` is a prefix of the buffer free of NUL, stopped by a NUL or by the end |
| Hex.UpToNulAt | main.cpp:84 | the string built from the buffer stops at the first NUL |
| Hex.HexEncode | main.cpp:79-84 | the `%02x` loop leaves the hex encoding of the digest followed by NUL, so the string returned is the full 64-character encoding |
| Hex.Hash | main.cpp:72-85 | a hash is 64 lowercase hex characters |
| Hex.HashInjective | main.cpp:72-85 | when SHA-256 has no collision between x and y, equal hex digests of x and y mean x equals y |
| Shape.LayoutLinks | main.cpp:55-62 | at a present position, `isLeaf` holds iff 2i+1 is past the end, `isFull` iff 2i+2 is not; a one-child node only when 2i+2 equals M |
| Shape.FullBinaryLeafCount | main.cpp:120 | a tree whose nodes are all leaves or full has (M+1)/2 leaves for M nodes |
| Shape.Tree.IsFull | main.cpp:56-58 | both child links present (see Shape.LayoutLinks for what this means in the arena) |
| Shape.Tree.IsLeaf | main.cpp:60-62 | no child link present (see Shape.LayoutLinks) |
| Shape.NatToString | main.cpp:137 | the decimal placeholder of a non-negative number: at least one digit, all digits, no leading zero |
| Shape.NatToStringValue | main.cpp:137 | reading the decimal placeholder back gives the number |
| Shape.IntToStringSpec | file.py:50 | `str` / `to_string`: a minus sign exactly for negative numbers, then digits without leading zero that read back as the magnitude |
| Shape.BuildTree | file.py:48-54 | a node for each position below n with its placeholder, children at 2i+1 and 2i+2 (its properties are Shape.BuildTreePositions, Shape.BuildTreeSize, Shape.BuildTreeFullBinary) |
| Shape.Indices | file.py:67 | the labels list has one entry per node |
| Shape.BuildTreePositions | main.cpp:135-143 | the node at position p exists iff p < M, carries its placeholder label, and has its children at 2p+1 and 2p+2 |
| Shape.BuildTreeSize | main.cpp:135-143 | building from position 0 creates exactly M nodes |
| Shape.BuildTreeFullBinary | main.cpp:135-143 | for odd M every node built is a leaf or full, never one-child |
| Shape.BuildTreeLeafCount | main.cpp:120-128 | for N transactions the built tree has 2N-1 nodes, every node leaf or full, and exactly N leaves |
| Shape.AllocatedTree | main.cpp:118-128 | the tree allocated for N transactions is non-empty, leaf-or-full everywhere, with N leaves |
| Merkle.FillLeaves | main.cpp:146-159 | filling takes exactly one transaction per leaf off the end of the list and keeps the shape |
| Merkle.FillLeavesOrder | main.cpp:151-158 | in-order leaf k receives H of the k-th transaction from the end |
| Merkle.FillLeavesKeepsInternals | main.cpp:153-156 | filling leaves the data of non-leaf nodes untouched |
| Merkle.FillLeavesDigests | main.cpp:154 | every leaf holds a 64-character hex digest after filling |
| Merkle.BlankInternals | file.py:60-63 | clearing internal nodes keeps the shape |
| Merkle.BlankInternalsSpec | file.py:60-63 | clearing keeps every leaf and leaves only the empty string in internal nodes |
| Merkle.Resolve | main.cpp:99-112 | bottom-up hashing keeps the shape |
| Merkle.ResolveSpec | main.cpp:99-112 | after hashing every internal node holds H(left data + right data), left first, and leaves are unchanged |
| Merkle.ResolveUnique | main.cpp:99-112 | the hashed tree is the only tree of that shape, with those leaves, satisfying the hash equation |
| Merkle.ResolveDependsOnLeaves | file.py:79-85 | the hashed tree depends only on the shape and the leaves, not on what internal nodes held before |
| Merkle.ResolveRootInjective | main.cpp:177-191 | when SHA-256 has no collision among the strings hashed for either tree, two digest-leaved trees of one shape with equal roots have equal leaves |
| Merkle.BuiltTree | main.cpp:118-132 | the built and filled tree is non-empty, leaf-or-full everywhere, with N leaves |
| Merkle.BuiltTreeLeaves | main.cpp:146-159 | filling drains the list exactly (N pops, never on an empty list), leaf k holds H(tx[N-1-k]), internal nodes keep their labels |
| Merkle.BlankedRoot | file.py:56-64 | clearing internal nodes, as the Python version does, does not change the Merkle root |
| Merkle.MerkleRoot | main.cpp:162-169 | the root of a list (the hashed built tree's root data) is always 64 lowercase hex characters |
| Merkle.MerkleRootSingle | main.cpp:100-101 | for one transaction the root is H(tx) with no combining step |
| Merkle.MerkleRootThree | main.cpp:99-112 | for [a, b, c] the root is H(H(H(c) + H(b)) + H(a)) |
| Merkle.MerkleRootFour | main.cpp:99-112 | for [a, b, c, d] the root is H(H(H(d) + H(c)) + H(H(b) + H(a))) |
| Merkle.MerkleRootLengthCollision | main.cpp:177-191 | for every hash function, [a, b] and the one-element list [H(b) + H(a)] have the same root, so verification accepts a different list |
| Merkle.MerkleRootInjective | main.cpp:177-191 | when SHA-256 has no collision among the transactions and the concatenations hashed for either list, equal roots of equally long lists mean equal lists |
| Arena.BuildStep | main.cpp:135-143 | writing a node's label and building both subtrees builds the whole subtree and changes nothing outside it |
| Arena.ResolveStep | main.cpp:104-109 | hashing both children and then the node hashes the whole subtree and changes nothing outside it |
| Arena.FillStep | main.cpp:151-158 | filling left, the node, then right fills the whole subtree in order and changes nothing outside it |
| MerkleCpp.MerkleTree.constructor | main.cpp:115 | a new tree has no root and an empty Merkle root |
| MerkleCpp.MerkleTree.CalculateHash | main.cpp:72-85 | returns the hex digest of the string |
| MerkleCpp.MerkleTree.CalculateMerkleRootFrom | main.cpp:99-112 | returns the node it was given, whose subtree is now the hashed subtree; nothing outside it changes |
| MerkleCpp.MerkleTree.BuildTree | main.cpp:135-143 | the subtree at the index is the allocated tree, nothing outside it changes |
| MerkleCpp.MerkleTree.AddLeafData | main.cpp:146-159 | the subtree is filled as `FillLeaves` says, and the list left is the list minus one element per leaf |
| MerkleCpp.MerkleTree.BuildTreeFromVector | main.cpp:118-132 | the tree has 2N-1 nodes and is the built tree, leaf-or-full everywhere; the stored root is untouched |
| MerkleCpp.MerkleTree.CalculateMerkleRoot | main.cpp:162-169 | no-op on an empty tree; otherwise the tree is hashed bottom-up and the stored root is the root node's data |
| MerkleCpp.MerkleTree.GetMerkleRoot | main.cpp:172-174 | returns the stored root |
| MerkleCpp.MerkleTree.VerifyTransactions | main.cpp:177-191 | true iff the stored root equals the Merkle root of the candidate list |
| MerkleCpp.RootBeforeCalculation | main.cpp:115 | building alone leaves the stored root empty |
| MerkleCpp.VerifyOwnTransactions | main.cpp:177-191 | a tree built and rooted from a list verifies that list |
| MerklePy.TransactionList.constructor | file.py:43 | the list holds the given transactions |
| MerklePy.NodesRequired | file.py:44-46 | the count is the size of every leaf-or-full tree with one leaf per transaction; negative for an empty list |
| MerklePy.MerkleTree.constructor | file.py:35-37 | a new tree has no root and an empty Merkle root |
| MerklePy.MerkleTree.CalculateHash | file.py:39-41 | returns 64 lowercase hex characters that read back as the SHA-256 digest (so exactly its hex encoding) |
| MerklePy.MerkleTree.BuildTree | file.py:48-54 | the subtree at i is the allocated tree, nothing outside it changes |
| MerklePy.MerkleTree.AddLeafData | file.py:56-64 | the subtree is filled as `FillLeaves` says with internal nodes cleared, and the list loses one element per leaf |
| MerklePy.MerkleTree.BuildTreeFromList | file.py:43-69 | the caller's list ends empty; for N >= 1 the tree has 2N-1 nodes and is the built tree with internal nodes cleared, for N = 0 there is no root |
| MerklePy.MerkleTree.MerkleHash | file.py:79-85 | returns the node it was given, whose subtree is now the hashed subtree; nothing outside it changes |
| MerklePy.MerkleTree.CalculateMerkleRoot | file.py:78-89 | the tree is hashed bottom-up; the root node's data is stored and returned |
| MerklePy.MerkleTree.GetMerkleRoot | file.py:91-92 | returns the stored root |
| MerklePy.MerkleTree.VerifyTransactions | file.py:94-105 | true iff the stored root equals the Merkle root of the candidate list; the candidate list ends empty |
| MerklePy.RootBeforeCalculation | file.py:91-92 | building alone leaves the stored root empty |
| MerklePy.VerifyOwnTransactions | file.py:94-105 | a tree built and rooted from a list verifies a list with the same transactions |
| MerklePy.ListDrainedAfterBuild | file.py:61 | after building, the caller's list is empty |
| Agreement.SameRoot | file.py:78-89 | the C++ and the Python implementation compute the same root for the same list |

## Left out

- SHA-256 itself (the OpenSSL calls in `main.cpp` and `hashlib` in `file.py`) is a parameter of the model, a function from strings to 32-byte digests; nothing is assumed about it except where a lemma requires `CollisionFree`, i.e. no collision on the finite set of strings that lemma's computation hashes.
- `file.py` never imports `hashlib`, so as written `calculate_hash` raises `NameError`; the model assumes the import.
- MerkleRootInjective: tamper detection is proved only when SHA-256 has no collision among the finitely many strings hashed for the two lists, and only between lists of equal length; `MerkleRootLengthCollision` shows lists of different lengths with equal roots.
- Integer width: `numNodes = 2 * size() - 1` and the child positions `2 * index + 1` / `2 * index + 2` are C++ `int`s, which overflow for more than 2^29 transactions (and make `numNodes` negative beyond 2^30); positions are unbounded naturals here, so the model covers only lists small enough for neither to happen.
- String encoding: the C++ version hashes the bytes of a `std::string` and the Python version the UTF-8 encoding of a `str`; both are modelled by one `sha256` over character sequences, so `Agreement.SameRoot` speaks of inputs whose C++ bytes are the UTF-8 encoding of the Python strings.
- Console output (`inorderTraversal` / `inorder_traversal` and the messages printed by the verifiers) and the sample driver `main` are not modelled.
- The `sprintf` formatting is modelled only as the byte-to-hex mapping plus the terminating NUL it writes.
- Memory: `Node` objects live in an array indexed by heap position rather than on the heap behind pointers; allocation failure and the missing destructor are not modelled.
- The C++ `buildTreeFromVector` hands its `const` vector to the non-const parameter of `addLeafData`, which does not compile; the model pops a copy of the vector, tracked by a count of remaining elements.
- MerkleCpp.MerkleTree.BuildTreeFromVector: requires at least one transaction, since for an empty vector `2 * size() - 1` underflows and the vector allocation fails.
- MerkleCpp.MerkleTree.VerifyTransactions: requires at least one candidate transaction, for the same reason.
- MerklePy.MerkleTree.CalculateMerkleRoot: requires a built tree, since `merkle_hash(None)` raises `AttributeError`.
- MerklePy.MerkleTree.VerifyTransactions: requires at least one candidate transaction, since an empty list leaves no root and the root computation then raises.
- Python integer labels `str(arr[i])` and C++ `to_string` are the same decimal rendering here; both are only placeholders.
