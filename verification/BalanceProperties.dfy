/**
  What the tree over a list of balances guarantees.

  Binding results return two byte strings: either the claim holds, or these two different strings,
  both hashed in the run at hand, have the same hash.
 */
module BalanceProperties {
  import opened Wrappers
  import opened Ordering
  import opened Buffers
  import opened Hashing
  import opened LayeredTree
  import opened TreeShape
  import opened TreeBinding
  import opened MerkleHash
  import opened MerkleTrees
  import opened BalanceTrees

  // ---- What a run hashes ----

  function LeafPreimages(balances: Balances): set<Bytes> {
    set i | 0 <= i < |balances| :: PreimageAt(balances, i)
  }

  /** Every string hashed while the tree is built. */
  ghost function BuildPreimages(keccak: Hasher, balances: Balances): set<Bytes>
    requires balances != []
  {
    LeafPreimages(balances) + Concatenations(BuildPairs(TreeLayers(keccak, balances)))
  }

  /** Every string hashed while a claim is verified. */
  function VerifyPreimages(keccak: Hasher, index: uint256, account: Address, amount: uint256,
                           proof: seq<Bytes>): set<Bytes> {
    {LeafPreimage(index, account, amount)}
    + Concatenations(FoldPairs(Joiner(keccak), ToNode(keccak, index, account, amount), proof))
  }

  // ---- Completeness ----

  function DecodeAll(items: seq<string>): Option<seq<Bytes>> {
    if items == [] then
      Some([])
    else
      match (HexToBuffer(items[0]), DecodeAll(items[1..]))
      case (Some(first), Some(rest)) => Some([first] + rest)
      case _ => None
  }

  lemma {:induction false} DecodeHexAll(items: seq<Bytes>)
    ensures DecodeAll(HexAll(items)) == Some(items)
  {
    hide HexToBuffer, BufferToHex;
    if items != [] {
      HexRoundTrip(items[0]);
      DecodeHexAll(items[1..]);
      assert HexAll(items)[1..] == HexAll(items[1..]);
      assert items == [items[0]] + items[1..];
    }
  }

  /** Every balance's published proof decodes and is accepted. */
  lemma {:induction false} Completeness(keccak: Hasher, balances: Balances, i: nat)
    requires i < |balances|
    ensures DecodeAll(HexAll(ProofFor(keccak, balances, i))) == Some(ProofFor(keccak, balances, i))
    ensures Accepts(keccak, MerkleRoot(keccak, balances), i, balances[i].account, balances[i].amount,
                    ProofFor(keccak, balances, i))
  {
    hide BufferLeq, Leaves, Joiner, LeafPreimage;
    DecodeHexAll(ProofFor(keccak, balances, i));
    NodesInLeaves(keccak, balances, i);
    JoinerCommutes(keccak);
    var leaves := TreeLeaves(keccak, balances);
    ProofReachesRoot(Joiner(keccak), leaves, Position(leaves, Nodes(keccak, balances)[i]));
  }

  // ---- Soundness and uniqueness of proofs ----

  /** Each leaf is the hash of some balance's packed fields. */
  lemma {:induction false} LeafOrigin(keccak: Hasher, balances: Balances, leaf: Bytes) returns (j: nat)
    requires leaf in TreeLeaves(keccak, balances)
    ensures j < |balances| && leaf == keccak(PreimageAt(balances, j))
    ensures PreimageAt(balances, j) in LeafPreimages(balances)
  {
    hide BufferLeq, Leaves, PreimageAt;
    var nodes := Nodes(keccak, balances);
    LeavesCanonical(nodes);
    assert leaf in nodes;
    j :| 0 <= j < |nodes| && nodes[j] == leaf;
  }

  lemma {:induction false} LeavesHashSized(keccak: Hasher, balances: Balances)
    ensures AllHashSized(TreeLeaves(keccak, balances))
  {
    hide PreimageAt, TreeLeaves;
    var leaves := TreeLeaves(keccak, balances);
    forall i | 0 <= i < |leaves| ensures |leaves[i]| == HASH_LENGTH {
      var j := LeafOrigin(keccak, balances, leaves[i]);
    }
  }

  /** The leaves, read as numbers, strictly increase. */
  lemma {:induction false} LeavesIncrease(keccak: Hasher, balances: Balances, i: nat, j: nat)
    requires i < j < |TreeLeaves(keccak, balances)|
    ensures var leaves := TreeLeaves(keccak, balances);
            FromBigEndian(leaves[i]) < FromBigEndian(leaves[j])
  {
    hide BufferLeq, Leaves, FromBigEndian, PreimageAt;
    var leaves := TreeLeaves(keccak, balances);
    LeavesHashSized(keccak, balances);
    LeavesCanonical(Nodes(keccak, balances));
    BufferOrderIsNumeric(leaves[i], leaves[j]);
  }

  lemma {:induction false} ProofItemsHashSized(keccak: Hasher, layers: seq<seq<Bytes>>, i: nat, j: nat)
    requires IsLayering(Joiner(keccak), layers) && AllHashSized(layers[0]) && j <= |layers|
    ensures AllHashSized(ProofItems(layers, i, j))
  {
    hide IsLayering, Joiner, Ancestor;
    if j > 0 {
      ProofItemsHashSized(keccak, layers, i, j - 1);
      NodesHashSized(keccak, layers, j - 1);
    }
  }

  /** The items the tree gives out are hashes, `bytes32` values for the contract. */
  lemma {:induction false} ProofHashSized(keccak: Hasher, balances: Balances, i: nat)
    requires i < |balances|
    ensures AllHashSized(ProofFor(keccak, balances, i))
  {
    hide TreeLeaves, Nodes, IsLayering, Joiner, Layers, ProofItems;
    var leaves := TreeLeaves(keccak, balances);
    LeavesHashSized(keccak, balances);
    LayersAreLayering(Joiner(keccak), leaves);
    NodesInLeaves(keccak, balances, i);
    ProofItemsHashSized(keccak, TreeLayers(keccak, balances), Position(leaves, Nodes(keccak, balances)[i]),
                        |TreeLayers(keccak, balances)|);
  }

  /** The layered build satisfies what `TreeBinding` asks of a tree. */
  lemma {:induction false} BuildBinds(keccak: Hasher, balances: Balances, hashed: set<Bytes>)
    requires balances != []
    requires CollisionFree(keccak, hashed) && BuildPreimages(keccak, balances) <= hashed
    ensures var leaves, pairs := TreeLeaves(keccak, balances), BuildPairs(TreeLayers(keccak, balances));
            && HashSizedPairs(pairs)
            && Concatenations(pairs) <= hashed
            && RangeJoinsIn(Joiner(keccak), leaves, 0, |leaves|, pairs)
            && MerkleRoot(keccak, balances) == TreeHash(Joiner(keccak), leaves, 0, |leaves|)
  {
    hide RangeJoinsIn, TreeHash, TreeLeaves, Joiner, Concatenations;
    var leaves := TreeLeaves(keccak, balances);
    LeavesHashSized(keccak, balances);
    LayersAreLayering(Joiner(keccak), leaves);
    BuildPairsHashSized(keccak, TreeLayers(keccak, balances));
    JoinsAreBuilt(Joiner(keccak), leaves, BuildPairs(TreeLayers(keccak, balances)));
    RootIsTreeHash(Joiner(keccak), leaves);
  }

  /** Without a collision no leaf can pass for a joined pair whose length differs. */
  lemma {:induction false} LeavesDistinctFromJoins(
      keccak: Hasher, balances: Balances, hashed: set<Bytes>, pairs: set<(Bytes, Bytes)>)
    requires CollisionFree(keccak, hashed) && Concatenations(pairs) <= hashed
    requires LeafPreimages(balances) <= hashed
    requires forall p | p in pairs :: |p.0| + |p.1| != LEAF_LENGTH
    ensures LeavesNotJoined(Joiner(keccak), pairs, TreeLeaves(keccak, balances))
  {
    hide Joiner, Concatenations, TreeLeaves, NotJoined;
    var leaves := TreeLeaves(keccak, balances);
    forall i | 0 <= i < |leaves| ensures NotJoined(Joiner(keccak), pairs, leaves[i]) {
      var j := LeafOrigin(keccak, balances, leaves[i]);
      CollisionFreeNotJoined(keccak, hashed, pairs, PreimageAt(balances, j));
    }
  }

  /** The claim is the tree's balance at that very index, with the one proof the tree gives out for it. */
  ghost predicate GivenOut(keccak: Hasher, balances: Balances, index: uint256, account: Address, amount: uint256,
                           proof: seq<Bytes>) {
    && index < |balances| && balances[index] == Balance(account, amount)
    && proof == ProofFor(keccak, balances, index)
  }

  /**
    Item k and the running hash before it, sorted and concatenated, spell the packed fields of
    balance j, and the items after it are j's proof.
   */
  ghost predicate ReadsAsPair(keccak: Hasher, balances: Balances, node: Bytes, proof: seq<Bytes>, j: nat, k: nat) {
    && j < |balances| && k < |proof|
    && SortAndConcat(FoldProof(Joiner(keccak), node, proof[..k]), proof[k]) == PreimageAt(balances, j)
    && proof[k + 1..] == ProofFor(keccak, balances, j)
  }

  /** The fold passes through a leaf by reading that leaf's packed fields as a pair. */
  ghost predicate LeafReadAsPair(keccak: Hasher, balances: Balances, node: Bytes, proof: seq<Bytes>) {
    exists j: nat, k: nat :: ReadsAsPair(keccak, balances, node, proof, j, k)
  }

  /** No item has the length of a leaf's packed fields less one hash, as no bytes32 value has. */
  predicate NoLeafSizedItem(proof: seq<Bytes>) {
    forall item | item in proof :: |item| != LEAF_LENGTH - HASH_LENGTH
  }

  /** Only an item of that one length can complete a hash to the packed fields of a leaf. */
  lemma {:induction false} NoPairReading(keccak: Hasher, balances: Balances, node: Hash, proof: seq<Bytes>)
    requires NoLeafSizedItem(proof)
    ensures !LeafReadAsPair(keccak, balances, node, proof)
  {
    hide SortAndConcat, Joiner, FoldProof, LeafPreimage, ProofFor;
    forall j: nat, k: nat ensures !ReadsAsPair(keccak, balances, node, proof, j, k) {
      if ReadsAsPair(keccak, balances, node, proof, j, k) {
        FoldHashSized(keccak, node, proof[..k]);
      }
    }
  }

  /** A published proof is never read that way. */
  lemma {:induction false} GivenOutNoLeafSizedItem(keccak: Hasher, balances: Balances, i: nat)
    requires i < |balances|
    ensures NoLeafSizedItem(ProofFor(keccak, balances, i))
  {
    hide ProofFor;
    ProofHashSized(keccak, balances, i);
  }

  lemma {:induction false} OpenedLeaf(
      keccak: Hasher, balances: Balances, index: uint256, account: Address, amount: uint256,
      proof: seq<Bytes>, hashed: set<Bytes>) returns (i: nat, under: seq<Bytes>)
    requires balances != []
    requires CollisionFree(keccak, hashed) && BuildPreimages(keccak, balances) <= hashed
    requires VerifyPreimages(keccak, index, account, amount, proof) <= hashed
    requires Accepts(keccak, MerkleRoot(keccak, balances), index, account, amount, proof)
    ensures var join, leaves := Joiner(keccak), TreeLeaves(keccak, balances);
            var node: Bytes := ToNode(keccak, index, account, amount);
            && i < |leaves| && proof == under + Proof(TreeLayers(keccak, balances), i)
            && FoldProof(join, node, under) == leaves[i]
            && FoldPairs(join, node, under) <= FoldPairs(join, node, proof)
  {
    hide TreeLeaves, Joiner, Concatenations, LeafPreimage, BuildPairs, FoldPairs, AuditPath, TreeHash, FoldProof;
    hide RangeJoinsIn, BindsPairs, NotJoined, Proof, MerkleRoot;
    var join, leaves := Joiner(keccak), TreeLeaves(keccak, balances);
    var node: Bytes := ToNode(keccak, index, account, amount);
    var pairs, folded := BuildPairs(TreeLayers(keccak, balances)), FoldPairs(join, node, proof);
    BuildBinds(keccak, balances, hashed);
    FoldPairsHashSized(keccak, node, proof);
    CollisionFreeBinds(keccak, hashed, folded, pairs);
    CollisionFreeNotJoined(keccak, hashed, pairs, LeafPreimage(index, account, amount));
    i, under := OpenRoot(join, leaves, 0, |leaves|, node, proof, pairs, folded);
    ProofIsAuditPath(join, leaves, i);
  }

  lemma {:induction false} PositionUnique(s: seq<Bytes>, i: nat)
    requires StrictlySorted(BufferLeq, s) && i < |s|
    ensures Position(s, s[i]) == i
  {
  }

  /** Without a collision, items that carry a node to a leaf end in the packed fields of a balance. */
  lemma {:induction false} LeafPairRead(
      keccak: Hasher, balances: Balances, node: Bytes, proof: seq<Bytes>, under: seq<Bytes>, j: nat,
      hashed: set<Bytes>)
    requires CollisionFree(keccak, hashed) && j < |balances| && PreimageAt(balances, j) in hashed
    requires Concatenations(FoldPairs(Joiner(keccak), node, under)) <= hashed
    requires under != [] && proof == under + ProofFor(keccak, balances, j)
    requires FoldProof(Joiner(keccak), node, under) == keccak(PreimageAt(balances, j))
    ensures ReadsAsPair(keccak, balances, node, proof, j, |under| - 1)
  {
    hide SortAndConcat, FoldPairs, FoldProof, PreimageAt, ProofFor;
    var folded := FoldPairs(Joiner(keccak), node, under);
    var init, last := FoldLast(Joiner(keccak), node, under, folded);
    var pair := (FoldProof(Joiner(keccak), node, init), last);
    assert SortAndConcat(pair.0, pair.1) in Concatenations(folded);
    assert proof[..|init|] == init && proof[|init| + 1..] == ProofFor(keccak, balances, j);
  }

  lemma {:induction false} FoldNothing(join: Join<Bytes>, node: Bytes)
    ensures FoldProof(join, node, []) == node
  {
  }

  /** The collision-free, accepting half of `VerifierExact`. */
  lemma {:induction false} OpenedBalance(
      keccak: Hasher, balances: Balances, index: uint256, account: Address, amount: uint256,
      proof: seq<Bytes>, hashed: set<Bytes>)
    requires balances != []
    requires CollisionFree(keccak, hashed) && BuildPreimages(keccak, balances) <= hashed
    requires VerifyPreimages(keccak, index, account, amount, proof) <= hashed
    requires Accepts(keccak, MerkleRoot(keccak, balances), index, account, amount, proof)
    ensures || GivenOut(keccak, balances, index, account, amount, proof)
            || LeafReadAsPair(keccak, balances, ToNode(keccak, index, account, amount), proof)
  {
    hide BufferLeq, Leaves, Joiner, LeafPreimage, SortAndConcat, FoldProof, FoldPairs, BuildPairs;
    hide Proof, MerkleRoot, ReadsAsPair;
    var leaves, node: Bytes := TreeLeaves(keccak, balances), ToNode(keccak, index, account, amount);
    var i, under := OpenedLeaf(keccak, balances, index, account, amount, proof, hashed);
    var j := LeafOrigin(keccak, balances, leaves[i]);
    LeavesCanonical(Nodes(keccak, balances));
    PositionUnique(leaves, i);
    if under == [] {
      FoldNothing(Joiner(keccak), node);
      assert proof == Proof(TreeLayers(keccak, balances), i);
      assert LeafPreimage(index, account, amount) in hashed;
      LeafPreimageInjective(index, account, amount, j, balances[j].account, balances[j].amount);
    } else {
      LeafPairRead(keccak, balances, node, proof, under, j, hashed);
    }
  }

  /** A proof that reads a leaf as a pair is accepted, whatever node it starts from. */
  lemma {:induction false} PairReadingAccepted(
      keccak: Hasher, balances: Balances, node: Bytes, proof: seq<Bytes>, j: nat, k: nat)
    requires ReadsAsPair(keccak, balances, node, proof, j, k)
    ensures FoldProof(Joiner(keccak), node, proof) == MerkleRoot(keccak, balances)
  {
    hide SortAndConcat, FoldProof, MerkleRoot, ProofFor, LeafPreimage;
    var rest := ProofFor(keccak, balances, j);
    assert proof[..k + 1] == proof[..k] + [proof[k]] && proof == proof[..k + 1] + rest;
    FoldAppend(Joiner(keccak), node, proof[..k], proof[k]);
    FoldConcat(Joiner(keccak), node, proof[..k + 1], rest);
    Completeness(keccak, balances, j);
  }

  /**
    The verifier is exact, for every proof: it accepts a claim just when the claim is given out by
    the tree or, never both, the fold reads a leaf's packed fields as a pair, which takes an item of
    52 bytes; or else two strings hashed in this run collide.
   */
  lemma {:induction false} VerifierExact(
      keccak: Hasher, balances: Balances, index: uint256, account: Address, amount: uint256,
      proof: seq<Bytes>) returns (a: Bytes, b: Bytes)
    requires balances != []
    ensures var hashed := BuildPreimages(keccak, balances)
                          + VerifyPreimages(keccak, index, account, amount, proof);
            || (Accepts(keccak, MerkleRoot(keccak, balances), index, account, amount, proof)
                <==> || GivenOut(keccak, balances, index, account, amount, proof)
                     || LeafReadAsPair(keccak, balances, ToNode(keccak, index, account, amount), proof))
            || Collides(keccak, hashed, a, b)
    ensures NoLeafSizedItem(proof) ==>
              !LeafReadAsPair(keccak, balances, ToNode(keccak, index, account, amount), proof)
    ensures GivenOut(keccak, balances, index, account, amount, proof) ==> NoLeafSizedItem(proof)
  {
    hide BuildPreimages, VerifyPreimages, MerkleRoot, ProofFor, ToNode, ReadsAsPair, FoldProof, NoLeafSizedItem;
    a, b := [], [];
    var node := ToNode(keccak, index, account, amount);
    var hashed := BuildPreimages(keccak, balances) + VerifyPreimages(keccak, index, account, amount, proof);
    if NoLeafSizedItem(proof) {
      NoPairReading(keccak, balances, node, proof);
    }
    if GivenOut(keccak, balances, index, account, amount, proof) {
      Completeness(keccak, balances, index);
      GivenOutNoLeafSizedItem(keccak, balances, index);
    } else if LeafReadAsPair(keccak, balances, node, proof) {
      var j: nat, k: nat :| ReadsAsPair(keccak, balances, node, proof, j, k);
      PairReadingAccepted(keccak, balances, node, proof, j, k);
    } else if !CollisionFree(keccak, hashed) {
      a, b := FindCollision(keccak, hashed);
    } else if Accepts(keccak, MerkleRoot(keccak, balances), index, account, amount, proof) {
      OpenedBalance(keccak, balances, index, account, amount, proof, hashed);
    }
  }

  // ---- The root commits to the list ----

  lemma {:induction false} ConcatenationsUnion(p: set<(Bytes, Bytes)>, q: set<(Bytes, Bytes)>)
    ensures Concatenations(p + q) == Concatenations(p) + Concatenations(q)
  {
    hide SortAndConcat;
  }

  lemma {:induction false} RootsOpenAlike(keccak: Hasher, c: Balances, d: Balances, hashed: set<Bytes>)
    requires c != [] && d != [] && CollisionFree(keccak, hashed)
    requires BuildPreimages(keccak, c) <= hashed && BuildPreimages(keccak, d) <= hashed
    requires MerkleRoot(keccak, c) == MerkleRoot(keccak, d)
    ensures TreeLeaves(keccak, c) == TreeLeaves(keccak, d)
  {
    hide Joiner, Concatenations, BuildPairs, TreeHash, BufferLeq, Leaves, MerkleRoot;
    hide RangeJoinsIn, LeavesNotJoined, BindsPairs;
    var join, cs, ds := Joiner(keccak), TreeLeaves(keccak, c), TreeLeaves(keccak, d);
    var cPairs, dPairs := BuildPairs(TreeLayers(keccak, c)), BuildPairs(TreeLayers(keccak, d));
    var pairs := cPairs + dPairs;
    BuildBinds(keccak, c, hashed);
    BuildBinds(keccak, d, hashed);
    JoinsInMonotone(join, cs, 0, |cs|, cPairs, pairs);
    JoinsInMonotone(join, ds, 0, |ds|, dPairs, pairs);
    ConcatenationsUnion(cPairs, dPairs);
    CollisionFreeBinds(keccak, hashed, pairs, pairs);
    LeavesDistinctFromJoins(keccak, c, hashed, pairs);
    LeavesDistinctFromJoins(keccak, d, hashed, pairs);
    BufferOrder();
    LeavesCanonical(Nodes(keccak, c));
    LeavesCanonical(Nodes(keccak, d));
    SameRootSameLeaves(join, BufferLeq, cs, 0, |cs|, ds, 0, |ds|, pairs);
    assert cs[0..|cs|] == cs && ds[0..|ds|] == ds;
  }

  /** Without a collision every balance of one list is in the other, at the same index. */
  lemma {:induction false} SameLeavesSameBalance(keccak: Hasher, c: Balances, d: Balances, hashed: set<Bytes>, i: nat)
    requires CollisionFree(keccak, hashed)
    requires LeafPreimages(c) <= hashed && LeafPreimages(d) <= hashed
    requires TreeLeaves(keccak, c) == TreeLeaves(keccak, d) && i < |c|
    ensures i < |d| && c[i] == d[i]
  {
    hide TreeLeaves, LeafPreimage;
    NodesInLeaves(keccak, c, i);
    var j := LeafOrigin(keccak, d, Nodes(keccak, c)[i]);
    assert PreimageAt(c, i) in LeafPreimages(c);
    LeafPreimageInjective(i, c[i].account, c[i].amount, j, d[j].account, d[j].amount);
  }

  /**
    Equal roots come from equal lists (same length, same accounts and amounts in the same order),
    or else two strings hashed while the trees were built collide.
   */
  lemma {:induction false} RootCommitment(keccak: Hasher, c: Balances, d: Balances) returns (a: Bytes, b: Bytes)
    requires c != [] && d != []
    requires MerkleRoot(keccak, c) == MerkleRoot(keccak, d)
    ensures c == d || Collides(keccak, BuildPreimages(keccak, c) + BuildPreimages(keccak, d), a, b)
  {
    hide TreeLeaves, MerkleRoot, LeafPreimages, Concatenations, BuildPairs;
    a, b := [], [];
    var hashed := BuildPreimages(keccak, c) + BuildPreimages(keccak, d);
    if CollisionFree(keccak, hashed) {
      RootsOpenAlike(keccak, c, d, hashed);
      SameLeavesSameBalance(keccak, c, d, hashed, |c| - 1);
      SameLeavesSameBalance(keccak, d, c, hashed, |d| - 1);
      forall i | 0 <= i < |c| ensures c[i] == d[i] {
        SameLeavesSameBalance(keccak, c, d, hashed, i);
      }
    } else {
      a, b := FindCollision(keccak, hashed);
    }
  }

  // ---- Deduplication ----

  /** The tree has one leaf per balance exactly when no two packed leaves collide. */
  lemma {:induction false} NoLeafLost(keccak: Hasher, balances: Balances)
    ensures |TreeLeaves(keccak, balances)| == |balances|
       <==> CollisionFree(keccak, LeafPreimages(balances))
  {
    hide BufferLeq, LeafPreimage;
    var nodes, leaves := Nodes(keccak, balances), TreeLeaves(keccak, balances);
    LeavesCanonical(nodes);
    assert (set x | x in nodes) == (set x | x in leaves);
    DistinctIffFull(nodes);
    DistinctIffFull(leaves);
    if CollisionFree(keccak, LeafPreimages(balances)) {
      forall i, j | 0 <= i < j < |nodes| ensures nodes[i] != nodes[j] {
        if nodes[i] == nodes[j] {
          assert PreimageAt(balances, i) in LeafPreimages(balances);
          assert PreimageAt(balances, j) in LeafPreimages(balances);
          LeafPreimageInjective(i, balances[i].account, balances[i].amount,
                                j, balances[j].account, balances[j].amount);
        }
      }
    } else {
      var a, b := FindCollision(keccak, LeafPreimages(balances));
      var i :| 0 <= i < |balances| && PreimageAt(balances, i) == a;
      var j :| 0 <= j < |balances| && PreimageAt(balances, j) == b;
      assert i != j && nodes[i] == nodes[j];
    }
  }
}
