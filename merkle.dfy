/** What the two implementations compute, as functions on trees: the leaf
    filling of `addLeafData` / `add_leaf_data`, the bottom-up hashing of
    `calculateMerkleRoot` / `merkle_hash`, and the Merkle root of a list of
    transactions. Both classes are proved against these functions. */
module Merkle {
  import opened Hex
  import opened Shape

  // ----- leaf filling -----

  /** In-order traversal that gives every leaf the hash of the last pending
      transaction and pops it; the other nodes keep their payload. Returns the
      filled tree and what is left of the pending list. */
  function FillLeaves(sha256: string -> Digest, t: Tree, pending: seq<string>): (r: (Tree, seq<string>))
    requires LeafCount(t) <= |pending|
    ensures r.1 == pending[..|pending| - LeafCount(t)]
    ensures Erase(r.0) == Erase(t)
    decreases t
  {
    match t
    case Nil => (Nil, pending)
    case Node(d, l, rt) =>
      var afterLeft := FillLeaves(sha256, l, pending);
      var rest := afterLeft.1;
      var self := if t.IsLeaf() then (Hash(sha256, rest[|rest| - 1]), rest[..|rest| - 1]) else (d, rest);
      var afterRight := FillLeaves(sha256, rt, self.1);
      (Node(self.0, afterLeft.0, afterRight.0), afterRight.1)
  }

  /** The hashes of the last n pending transactions, last one first: the order
      in which popping hands them out. */
  function Popped(sha256: string -> Digest, pending: seq<string>, n: nat): (s: seq<string>)
    requires n <= |pending|
    ensures |s| == n
  {
    seq(n, k requires 0 <= k < n => Hash(sha256, pending[|pending| - 1 - k]))
  }

  /** Popping x and then y more hands out the same as popping x + y. */
  lemma PoppedJoin(sha256: string -> Digest, pending: seq<string>, a: seq<string>, b: seq<string>, x: nat, y: nat)
    requires x + y <= |pending|
    requires a == Popped(sha256, pending, x) && b == Popped(sha256, pending[..|pending| - x], y)
    ensures a + b == Popped(sha256, pending, x + y)
  {
    var rest := pending[..|pending| - x];
    forall k | x <= k < x + y
      ensures (a + b)[k] == Popped(sha256, pending, x + y)[k]
    {
      assert rest[|rest| - 1 - (k - x)] == pending[|pending| - 1 - k];
    }
  }

  /** At a node with children, filling fills the left subtree from `pending`
      and the right one from what the left one leaves. */
  lemma FillLeavesNode(sha256: string -> Digest, d: string, l: Tree, r: Tree, pending: seq<string>)
    requires !(l.Nil? && r.Nil?) && LeafCount(l) + LeafCount(r) <= |pending|
    ensures var f := FillLeaves(sha256, Node(d, l, r), pending).0;
      && f == Node(d, FillLeaves(sha256, l, pending).0, FillLeaves(sha256, r, pending[..|pending| - LeafCount(l)]).0)
      && !f.IsLeaf()
  {
    var fl := FillLeaves(sha256, l, pending).0;
    var fr := FillLeaves(sha256, r, pending[..|pending| - LeafCount(l)]).0;
    assert Erase(fl) == Erase(l) && Erase(fr) == Erase(r);
    assert !(fl.Nil? && fr.Nil?);
  }

  /** The in-order leaves of a node with children are those of its left
      subtree followed by those of its right subtree. */
  lemma InOrderLeavesNode(t: Tree)
    requires t.Node? && !t.IsLeaf()
    ensures InOrderLeaves(t) == InOrderLeaves(t.left) + InOrderLeaves(t.right)
  {
    assert InOrderLeaves(t) == InOrderLeaves(t.left) + [] + InOrderLeaves(t.right);
    assert InOrderLeaves(t.left) + [] == InOrderLeaves(t.left);
  }

  /** The k-th leaf in in-order receives the hash of the k-th transaction
      counted from the end of the pending list. */
  lemma {:induction false} FillLeavesOrder(sha256: string -> Digest, t: Tree, pending: seq<string>)
    requires LeafCount(t) <= |pending|
    ensures InOrderLeaves(FillLeaves(sha256, t, pending).0) == Popped(sha256, pending, LeafCount(t))
  {
    match t
    case Nil =>
    case Node(d, l, rt) =>
      if t.IsLeaf() {
        assert FillLeaves(sha256, t, pending).0 == Node(Hash(sha256, pending[|pending| - 1]), Nil, Nil);
      } else {
        var rest := pending[..|pending| - LeafCount(l)];
        FillLeavesOrder(sha256, l, pending);
        FillLeavesOrder(sha256, rt, rest);
        FillLeavesNode(sha256, d, l, rt, pending);
        var f := FillLeaves(sha256, t, pending).0;
        InOrderLeavesNode(f);
        PoppedJoin(sha256, pending, InOrderLeaves(f.left), InOrderLeaves(f.right), LeafCount(l), LeafCount(rt));
      }
  }

  /** Filling touches only leaves: the non-leaf payloads are those of the input. */
  lemma {:induction false} FillLeavesKeepsInternals(sha256: string -> Digest, t: Tree, pending: seq<string>)
    requires LeafCount(t) <= |pending|
    ensures Internals(FillLeaves(sha256, t, pending).0) == Internals(t)
  {
    match t
    case Nil =>
    case Node(d, l, rt) =>
      var afterLeft := FillLeaves(sha256, l, pending);
      FillLeavesKeepsInternals(sha256, l, pending);
      if !t.IsLeaf() {
        FillLeavesKeepsInternals(sha256, rt, afterLeft.1);
      }
  }

  /** Every leaf payload is a digest: 64 lowercase hex characters. */
  ghost predicate DigestLeaves(t: Tree) {
    match t
    case Nil => true
    case Node(d, l, r) =>
      && (t.IsLeaf() ==> |d| == 2 * DigestLength && forall k :: 0 <= k < |d| ==> IsHexDigit(d[k]))
      && DigestLeaves(l) && DigestLeaves(r)
  }

  lemma {:induction false} FillLeavesDigests(sha256: string -> Digest, t: Tree, pending: seq<string>)
    requires LeafCount(t) <= |pending|
    ensures DigestLeaves(FillLeaves(sha256, t, pending).0)
  {
    match t
    case Nil =>
    case Node(d, l, rt) =>
      var afterLeft := FillLeaves(sha256, l, pending);
      FillLeavesDigests(sha256, l, pending);
      if !t.IsLeaf() {
        FillLeavesDigests(sha256, rt, afterLeft.1);
      }
  }

  /** `add_leaf_data` in file.py also writes '' into every non-leaf node. */
  function BlankInternals(t: Tree): (r: Tree)
    ensures Erase(r) == Erase(t)
  {
    match t
    case Nil => Nil
    case Node(d, l, rt) => Node(if t.IsLeaf() then d else "", BlankInternals(l), BlankInternals(rt))
  }

  /** Blanking keeps the shape and the leaves, and leaves only '' elsewhere. */
  lemma {:induction false} BlankInternalsSpec(t: Tree)
    ensures InOrderLeaves(BlankInternals(t)) == InOrderLeaves(t)
    ensures forall x :: x in Internals(BlankInternals(t)) ==> x == ""
  {
    match t
    case Nil =>
    case Node(d, l, rt) =>
      BlankInternalsSpec(l);
      BlankInternalsSpec(rt);
  }

  // ----- root computation -----

  /** Bottom-up hashing: every non-leaf payload becomes the hash of the
      concatenated payloads of its left and right child; leaves are kept. */
  function Resolve(sha256: string -> Digest, t: Tree): (r: Tree)
    requires FullBinary(t)
    ensures Erase(r) == Erase(t)
  {
    match t
    case Nil => Nil
    case Node(_, l, rt) =>
      if t.IsLeaf() then t
      else
        var l' := Resolve(sha256, l);
        var r' := Resolve(sha256, rt);
        Node(Hash(sha256, l'.data + r'.data), l', r')
  }

  /** Every full node holds the hash of its left child's payload followed by its
      right child's. */
  ghost predicate WellHashed(sha256: string -> Digest, t: Tree) {
    match t
    case Nil => true
    case Node(d, l, r) =>
      (t.IsFull() ==> d == Hash(sha256, l.data + r.data)) && WellHashed(sha256, l) && WellHashed(sha256, r)
  }

  /** After hashing, the hash equation holds at every internal node and the
      leaves are unchanged. */
  lemma {:induction false} ResolveSpec(sha256: string -> Digest, t: Tree)
    requires FullBinary(t)
    ensures WellHashed(sha256, Resolve(sha256, t))
    ensures InOrderLeaves(Resolve(sha256, t)) == InOrderLeaves(t)
  {
    match t
    case Nil =>
    case Node(_, l, rt) =>
      if !t.IsLeaf() {
        ResolveSpec(sha256, l);
        ResolveSpec(sha256, rt);
      }
  }

  /** Shape, leaves and the hash equation determine the hashed tree: there is
      exactly one tree that meets the postcondition of the root computation. */
  lemma {:induction false} ResolveUnique(sha256: string -> Digest, t: Tree, u: Tree)
    requires FullBinary(t)
    requires Erase(u) == Erase(t) && InOrderLeaves(u) == InOrderLeaves(t) && WellHashed(sha256, u)
    ensures u == Resolve(sha256, t)
  {
    match t
    case Nil =>
    case Node(_, l, rt) =>
      if t.IsLeaf() {
        assert u.left == Nil && u.right == Nil;
        assert InOrderLeaves(u) == [u.data] && InOrderLeaves(t) == [t.data];
      } else {
        ShapeDetermines(u.left, l);
        assert InOrderLeaves(u) == InOrderLeaves(u.left) + InOrderLeaves(u.right);
        assert InOrderLeaves(u.left) == InOrderLeaves(t)[..LeafCount(l)];
        assert InOrderLeaves(u.right) == InOrderLeaves(t)[LeafCount(l)..];
        ResolveUnique(sha256, l, u.left);
        ResolveUnique(sha256, rt, u.right);
      }
  }

  /** The hashed tree depends on the shape and the leaves only, not on the
      payloads the non-leaf nodes held before. */
  lemma ResolveDependsOnLeaves(sha256: string -> Digest, a: Tree, b: Tree)
    requires FullBinary(a)
    requires Erase(a) == Erase(b) && InOrderLeaves(a) == InOrderLeaves(b)
    ensures FullBinary(b) && Resolve(sha256, a) == Resolve(sha256, b)
  {
    ShapeDetermines(a, b);
    ResolveSpec(sha256, a);
    ResolveUnique(sha256, b, Resolve(sha256, a));
  }

  lemma ResolveDataLength(sha256: string -> Digest, t: Tree)
    requires FullBinary(t) && t.Node? && DigestLeaves(t)
    ensures |Resolve(sha256, t).data| == 2 * DigestLength
  {
  }

  /** The strings the bottom-up hashing passes to SHA-256: at every full node,
      the payloads of its two hashed children concatenated. */
  ghost function HashInputs(sha256: string -> Digest, t: Tree): set<string>
    requires FullBinary(t)
  {
    match t
    case Nil => {}
    case Node(_, l, r) =>
      if t.IsLeaf() then {}
      else {Resolve(sha256, l).data + Resolve(sha256, r).data} + HashInputs(sha256, l) + HashInputs(sha256, r)
  }

  /** Without a SHA-256 collision among the strings hashed for either tree,
      two trees of one shape whose leaves are digests and whose hashed roots
      agree have the same leaves. */
  lemma {:induction false} ResolveRootInjective(sha256: string -> Digest, a: Tree, b: Tree)
    requires FullBinary(a) && a.Node? && Erase(a) == Erase(b) && FullBinary(b)
    requires DigestLeaves(a) && DigestLeaves(b)
    requires CollisionFree(sha256, HashInputs(sha256, a) + HashInputs(sha256, b))
    requires Resolve(sha256, a).data == Resolve(sha256, b).data
    ensures InOrderLeaves(a) == InOrderLeaves(b)
  {
    if !a.IsLeaf() {
      var la, ra := Resolve(sha256, a.left), Resolve(sha256, a.right);
      var lb, rb := Resolve(sha256, b.left), Resolve(sha256, b.right);
      var all := HashInputs(sha256, a) + HashInputs(sha256, b);
      assert !b.IsLeaf() by {
        ShapeDetermines(a.left, b.left);
        ShapeDetermines(a.right, b.right);
      }
      CollisionFreeSubset(sha256, all, {la.data + ra.data, lb.data + rb.data});
      HashInjective(sha256, la.data + ra.data, lb.data + rb.data);
      ResolveDataLength(sha256, a.left);
      ResolveDataLength(sha256, b.left);
      assert la.data == (la.data + ra.data)[..2 * DigestLength];
      assert ra.data == (la.data + ra.data)[2 * DigestLength..];
      CollisionFreeSubset(sha256, all, HashInputs(sha256, a.left) + HashInputs(sha256, b.left));
      CollisionFreeSubset(sha256, all, HashInputs(sha256, a.right) + HashInputs(sha256, b.right));
      ResolveRootInjective(sha256, a.left, b.left);
      ResolveRootInjective(sha256, a.right, b.right);
    }
  }

  // ----- the whole pipeline -----

  /** The tree `buildTreeFromVector` leaves behind: the 2N-1 positions built by
      `buildTree`, leaves filled from the transactions, placeholders elsewhere. */
  function BuiltTree(sha256: string -> Digest, transactions: seq<string>): (t: Tree)
    requires |transactions| >= 1
    ensures t.Node? && FullBinary(t) && LeafCount(t) == |transactions|
  {
    var shape := AllocatedTree(|transactions|);
    var filled := FillLeaves(sha256, shape, transactions).0;
    ShapeDetermines(filled, shape);
    filled
  }

  /** The Merkle root of a list of transactions: 64 lowercase hexadecimal
      characters, whether it is the hash of the only leaf or of a pair of
      children. */
  function MerkleRoot(sha256: string -> Digest, transactions: seq<string>): (r: string)
    requires |transactions| >= 1
    ensures |r| == 2 * DigestLength && forall k :: 0 <= k < |r| ==> IsHexDigit(r[k])
  {
    var t := BuiltTree(sha256, transactions);
    FillLeavesDigests(sha256, AllocatedTree(|transactions|), transactions);
    assert t.IsLeaf() ==> Resolve(sha256, t) == t && DigestLeaves(t);
    Resolve(sha256, t).data
  }

  /** Blanking the placeholders of the built tree, as the Python
      implementation does, changes neither the shape nor the leaves, and so
      not the Merkle root. */
  lemma BlankedRoot(sha256: string -> Digest, transactions: seq<string>)
    requires |transactions| >= 1
    ensures var t := BlankInternals(BuiltTree(sha256, transactions));
      FullBinary(t) && Resolve(sha256, t).data == MerkleRoot(sha256, transactions)
  {
    var t := BuiltTree(sha256, transactions);
    BlankInternalsSpec(t);
    ResolveDependsOnLeaves(sha256, t, BlankInternals(t));
  }

  /** The built tree drains the transactions exactly, its k-th leaf in in-order
      holds the hash of transactions[N-1-k], and its other nodes keep the
      placeholders of `buildTree`. */
  lemma BuiltTreeLeaves(sha256: string -> Digest, transactions: seq<string>)
    requires |transactions| >= 1
    ensures var n := |transactions|;
      var shape := AllocatedTree(n);
      var t := BuiltTree(sha256, transactions);
      && FillLeaves(sha256, shape, transactions).1 == []
      && |InOrderLeaves(t)| == n
      && (forall k :: 0 <= k < n ==> InOrderLeaves(t)[k] == Hash(sha256, transactions[n - 1 - k]))
      && Internals(t) == Internals(shape)
  {
    var n := |transactions|;
    var shape := AllocatedTree(n);
    FillLeavesOrder(sha256, shape, transactions);
    FillLeavesKeepsInternals(sha256, shape, transactions);
  }

  /** One transaction: the tree is a single leaf and the root is its hash. */
  lemma MerkleRootSingle(sha256: string -> Digest, tx: string)
    ensures MerkleRoot(sha256, [tx]) == Hash(sha256, tx)
  {
    var shape := AllocatedTree(1);
    assert Erase(shape) == Node("", Nil, Nil);
    var t := FillLeaves(sha256, shape, [tx]).0;
    assert BuiltTree(sha256, [tx]) == t;
    FillLeavesOrder(sha256, shape, [tx]);
    assert InOrderLeaves(t) == [t.data];
  }

  /** A node with two leaf children hashes to H(left + right). */
  lemma ResolvePair(sha256: string -> Digest, t: Tree)
    requires Erase(t) == Node("", Node("", Nil, Nil), Node("", Nil, Nil))
    ensures FullBinary(t) && t.IsFull()
    ensures Resolve(sha256, t).data == Hash(sha256, t.left.data + t.right.data)
    ensures InOrderLeaves(t) == [t.left.data, t.right.data]
  {
    var l, r := t.left, t.right;
    ErasedLeaf(l);
    ErasedLeaf(r);
    assert t == Node(t.data, Node(l.data, Nil, Nil), Node(r.data, Nil, Nil));
  }

  /** A tree whose shape is a single node is a leaf. */
  lemma ErasedLeaf(u: Tree)
    requires Erase(u) == Node("", Nil, Nil)
    ensures u == Node(u.data, Nil, Nil)
  {
    assert Erase(u.left) == Nil && Erase(u.right) == Nil;
  }

  /** Three transactions: M = 5 positions, leaves at positions 3, 4 and 2 in
      in-order, so the root is H(H(H(c) + H(b)) + H(a)). */
  lemma MerkleRootThree(sha256: string -> Digest, a: string, b: string, c: string)
    ensures MerkleRoot(sha256, [a, b, c])
         == Hash(sha256, Hash(sha256, Hash(sha256, c) + Hash(sha256, b)) + Hash(sha256, a))
  {
    var txs := [a, b, c];
    var shape := AllocatedTree(3);
    var leaf := Node("", Nil, Nil);
    assert Erase(shape) == Node("", Node("", leaf, leaf), leaf) by {
      var ind := Placeholders(Indices(5));
      assert BuildTree(ind, 3, 5).IsLeaf() && BuildTree(ind, 4, 5).IsLeaf() && BuildTree(ind, 2, 5).IsLeaf();
    }
    var t := FillLeaves(sha256, shape, txs).0;
    assert BuiltTree(sha256, txs) == t;
    FillLeavesOrder(sha256, shape, txs);
    assert Erase(t.left) == Node("", leaf, leaf) && Erase(t.right) == leaf;
    ResolvePair(sha256, t.left);
    assert t.right.IsLeaf() && Resolve(sha256, t.right) == t.right;
    assert InOrderLeaves(t) == InOrderLeaves(t.left) + [t.right.data];
    assert Resolve(sha256, t).data == Hash(sha256, Resolve(sha256, t.left).data + t.right.data);
    assert Popped(sha256, txs, 3) == [Hash(sha256, c), Hash(sha256, b), Hash(sha256, a)];
  }

  /** Four transactions: the root is H(H(H(d) + H(c)) + H(H(b) + H(a))), the
      leaves taking the transactions in reverse order. */
  lemma MerkleRootFour(sha256: string -> Digest, a: string, b: string, c: string, d: string)
    ensures MerkleRoot(sha256, [a, b, c, d])
         == Hash(sha256, Hash(sha256, Hash(sha256, d) + Hash(sha256, c))
                       + Hash(sha256, Hash(sha256, b) + Hash(sha256, a)))
  {
    var txs := [a, b, c, d];
    var shape := AllocatedTree(4);
    var leaf := Node("", Nil, Nil);
    var pair := Node("", leaf, leaf);
    assert Erase(shape) == Node("", pair, pair) by {
      var ind := Placeholders(Indices(7));
      assert BuildTree(ind, 3, 7).IsLeaf() && BuildTree(ind, 4, 7).IsLeaf();
      assert BuildTree(ind, 5, 7).IsLeaf() && BuildTree(ind, 6, 7).IsLeaf();
    }
    var t := FillLeaves(sha256, shape, txs).0;
    assert BuiltTree(sha256, txs) == t;
    FillLeavesOrder(sha256, shape, txs);
    assert Erase(t.left) == pair && Erase(t.right) == pair;
    ResolvePair(sha256, t.left);
    ResolvePair(sha256, t.right);
    assert InOrderLeaves(t) == InOrderLeaves(t.left) + InOrderLeaves(t.right);
    assert Popped(sha256, txs, 4) == [Hash(sha256, d), Hash(sha256, c), Hash(sha256, b), Hash(sha256, a)];
  }

  /** Roots are not bound to the list length: for every hash function the
      two-element list [a, b] and the one-element list holding H(b) + H(a)
      have the same Merkle root. */
  lemma MerkleRootLengthCollision(sha256: string -> Digest, a: string, b: string)
    ensures MerkleRoot(sha256, [a, b]) == MerkleRoot(sha256, [Hash(sha256, b) + Hash(sha256, a)])
  {
    var txs := [a, b];
    var shape := AllocatedTree(2);
    var leaf := Node("", Nil, Nil);
    assert Erase(shape) == Node("", leaf, leaf) by {
      var ind := Placeholders(Indices(3));
      assert BuildTree(ind, 1, 3).IsLeaf() && BuildTree(ind, 2, 3).IsLeaf();
    }
    var t := FillLeaves(sha256, shape, txs).0;
    assert BuiltTree(sha256, txs) == t;
    FillLeavesOrder(sha256, shape, txs);
    ResolvePair(sha256, t);
    assert Popped(sha256, txs, 2) == [Hash(sha256, b), Hash(sha256, a)];
    MerkleRootSingle(sha256, Hash(sha256, b) + Hash(sha256, a));
  }

  /** The transactions of a list, as a set. */
  function Elements(xs: seq<string>): set<string> {
    set x | x in xs
  }

  /** Every string SHA-256 is applied to while computing the Merkle root of a
      list: the transactions for the leaves, and the concatenated child
      payloads for the other nodes. */
  ghost function MerkleInputs(sha256: string -> Digest, transactions: seq<string>): set<string>
    requires |transactions| >= 1
  {
    Elements(transactions) + HashInputs(sha256, BuiltTree(sha256, transactions))
  }

  /** Without a SHA-256 collision among the transactions, the popped hashes
      determine the list. */
  lemma PoppedInjective(sha256: string -> Digest, xs: seq<string>, ys: seq<string>)
    requires |xs| == |ys| && CollisionFree(sha256, Elements(xs) + Elements(ys))
    requires Popped(sha256, xs, |xs|) == Popped(sha256, ys, |ys|)
    ensures xs == ys
  {
    var n := |xs|;
    forall j | 0 <= j < n ensures xs[j] == ys[j] {
      assert Popped(sha256, xs, n)[n - 1 - j] == Popped(sha256, ys, n)[n - 1 - j];
      CollisionFreeSubset(sha256, Elements(xs) + Elements(ys), {xs[j], ys[j]});
      HashInjective(sha256, xs[j], ys[j]);
    }
  }

  /** Without a SHA-256 collision among the strings hashed for either list,
      lists of one length that have the same Merkle root are equal: any
      change of content or order changes the root. */
  lemma MerkleRootInjective(sha256: string -> Digest, xs: seq<string>, ys: seq<string>)
    requires |xs| == |ys| >= 1
    requires CollisionFree(sha256, MerkleInputs(sha256, xs) + MerkleInputs(sha256, ys))
    requires MerkleRoot(sha256, xs) == MerkleRoot(sha256, ys)
    ensures xs == ys
  {
    var shape := AllocatedTree(|xs|);
    var tx, ty := BuiltTree(sha256, xs), BuiltTree(sha256, ys);
    var all := MerkleInputs(sha256, xs) + MerkleInputs(sha256, ys);
    assert tx == FillLeaves(sha256, shape, xs).0;
    assert ty == FillLeaves(sha256, shape, ys).0;
    FillLeavesDigests(sha256, shape, xs);
    FillLeavesDigests(sha256, shape, ys);
    CollisionFreeSubset(sha256, all, HashInputs(sha256, tx) + HashInputs(sha256, ty));
    ResolveRootInjective(sha256, tx, ty);
    FillLeavesOrder(sha256, shape, xs);
    FillLeavesOrder(sha256, shape, ys);
    CollisionFreeSubset(sha256, all, Elements(xs) + Elements(ys));
    PoppedInjective(sha256, xs, ys);
  }
}
