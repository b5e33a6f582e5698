/**
  Where the verifier stops being exact: `VerifierExact` names the condition, an item of 52 bytes
  that completes a hash to a leaf's packed fields, and this module shows that it can be met.
 */
module VerifierBoundary {
  import opened Ordering
  import opened Buffers
  import opened Hashing
  import opened LayeredTree
  import opened MerkleHash
  import opened BalanceTrees
  import opened BalanceProperties

  lemma {:induction false} BigEndianOfZero(width: nat)
    ensures BigEndian(0, width) == seq(width, _ => 0)
  {
    if width > 0 {
      BigEndianOfZero(width - 1);
    }
  }

  lemma {:induction false} PackIsZeros()
    ensures forall i | 0 <= i < WORD_LENGTH :: Pack(0)[i] == 0
  {
    BigEndianOfZero(WORD_LENGTH);
  }

  /** A buffer that is not all zeros comes after anything that starts with as many zeros. */
  lemma {:induction false} AboveZeros(a: Bytes, zeros: Bytes, rest: Bytes)
    requires |a| == |zeros| && a != zeros && forall i | 0 <= i < |zeros| :: zeros[i] == 0
    ensures !BufferLeq(a, zeros + rest)
  {
    assert (zeros + rest)[1..] == zeros[1..] + rest;
    if a[0] == 0 {
      assert a == [a[0]] + a[1..] && zeros == [zeros[0]] + zeros[1..];
      AboveZeros(a[1..], zeros[1..], rest);
    }
  }

  lemma {:induction false} OneLayer<T>(join: Join<T>, x: T)
    ensures Layers(join, [x]) == [[x]]
    ensures BuildPairs([[x]]) == {} && Proof([[x]], 0) == []
  {
    assert ProofItems([[x]], 0, 1) == ProofItems([[x]], 0, 0) + Items(PairElement(Ancestor(0, 0), [x]));
  }

  lemma {:induction false} OneItem<T>(join: Join<T>, node: T, item: T)
    ensures FoldPairs(join, node, [item]) == {(node, item)}
    ensures FoldProof(join, node, []) == node
  {
    assert [item][..0] == [];
  }

  lemma {:induction false} OneElement<T(!new)>(leq: (T, T) -> bool, x: T)
    ensures Dedup(Sort(leq, [x])) == [x]
  {
    assert Sort(leq, [x]) == Insert(leq, x, []) == [x];
    assert [x][..0] == [];
  }

  /** A tree over one balance is its leaf, and that leaf's proof has no items. */
  lemma {:induction false} OneBalance(keccak: Hasher, balances: Balances)
    requires |balances| == 1
    ensures BuildPreimages(keccak, balances) == {PreimageAt(balances, 0)}
    ensures ProofFor(keccak, balances, 0) == []
  {
    hide BufferLeq, Leaves, PreimageAt, Joiner, Layers, Nodes, Dedup, Sort, BuildPairs, SortAndConcat, Proof;
    var nodes := Nodes(keccak, balances);
    assert nodes == [nodes[0]];
    LeavesCanonical(nodes);
    OneElement(BufferLeq, nodes[0]);
    OneLayer(Joiner(keccak), nodes[0]);
    assert LeafPreimages(balances) == {PreimageAt(balances, 0)};
  }

  /** The claim's own leaf hash, taken as an amount, makes the item and that hash spell a leaf. */
  lemma {:induction false} ItemSpellsLeaf(
      keccak: Hasher, balances: Balances, node: Hash, holder: Address, n: uint256)
    requires node != Pack(0) && node == Pack(n) && balances == [Balance(holder, n)]
    ensures ReadsAsPair(keccak, balances, node, [Pack(0) + holder], 0, 0)
    ensures SortAndConcat(node, Pack(0) + holder) == PreimageAt(balances, 0)
  {
    hide Pack, ProofFor, BufferLeq, Joiner, FoldProof;
    PackIsZeros();
    AboveZeros(node, Pack(0), holder);
    OneItem(Joiner(keccak), node, Pack(0) + holder);
    OneBalance(keccak, balances);
    var proof := [Pack(0) + holder];
    assert proof[..0] == [] && proof[1..] == [];
  }

  /**
    Whatever the hash function, a list of one balance whose amount is the claim's own leaf hash
    makes the verifier accept that claim, at an index outside the list; no more than two strings
    are hashed.
   */
  lemma {:induction false} LeafSizedItemAccepted(
      keccak: Hasher, index: uint256, account: Address, amount: uint256, holder: Address)
      returns (balances: Balances, proof: seq<Bytes>)
    requires index > 0 && ToNode(keccak, index, account, amount) != Pack(0)
    ensures |balances| == 1 <= index && proof == [Pack(0) + holder]
    ensures Accepts(keccak, MerkleRoot(keccak, balances), index, account, amount, proof)
    ensures BuildPreimages(keccak, balances) + VerifyPreimages(keccak, index, account, amount, proof)
         == {PreimageAt(balances, 0), LeafPreimage(index, account, amount)}
  {
    hide Pack, MerkleRoot, ProofFor, BuildPreimages, BufferLeq, Joiner, ToNode, FoldProof, FoldPairs;
    hide SortAndConcat, PreimageAt, LeafPreimage;
    var node := ToNode(keccak, index, account, amount);
    var n := UnpackHash(node);
    balances, proof := [Balance(holder, n)], [Pack(0) + holder];
    OneBalance(keccak, balances);
    OneItem<Bytes>(Joiner(keccak), node, Pack(0) + holder);
    ItemSpellsLeaf(keccak, balances, node, holder, n);
    PairReadingAccepted(keccak, balances, node, proof, 0, 0);
  }

  /** So the condition on proof items is needed even where nothing hashed collides. */
  lemma {:induction false} ExactOnlyForHashes() returns (
      keccak: Hasher, balances: Balances, index: uint256, account: Address, amount: uint256, proof: seq<Bytes>)
    ensures 0 < |balances| <= index
    ensures Accepts(keccak, MerkleRoot(keccak, balances), index, account, amount, proof)
    ensures CollisionFree(
              keccak,
              BuildPreimages(keccak, balances) + VerifyPreimages(keccak, index, account, amount, proof))
  {
    hide LeafPreimage, MerkleRoot, BuildPreimages, VerifyPreimages, Accepts;
    var ones: Hash, twos: Hash := seq(HASH_LENGTH, _ => 1), seq(HASH_LENGTH, _ => 2);
    account := seq(ADDRESS_LENGTH, _ => 0);
    index, amount := 1, 1;
    var claimed := LeafPreimage(index, account, amount);
    keccak := (b: Bytes) => if b == claimed then ones else twos;
    PackIsZeros();
    assert ToNode(keccak, index, account, amount)[0] != Pack(0)[0];
    balances, proof := LeafSizedItemAccepted(keccak, index, account, amount, account);
  }
}
