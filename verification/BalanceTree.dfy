/**
  The tree over a list of balances, its proofs, and the verifier.

  Accounts are 20-byte addresses, and indices and amounts are uint256 values.
 */
module BalanceTrees {
  import opened Wrappers
  import opened Errors
  import opened Buffers
  import opened Hashing
  import opened LayeredTree
  import opened MerkleHash
  import opened MerkleTrees

  datatype Balance = Balance(account: Address, amount: uint256)

  /** Short enough for every index to be a uint256, as any JavaScript array is. */
  type Balances = b: seq<Balance> | |b| <= UINT256_LIMIT

  const LEAF_LENGTH: nat := 84

  /** Non-standard packed mode of the Solidity ABI: uint256, address, uint256. */
  function LeafPreimage(index: uint256, account: Address, amount: uint256): (r: Bytes)
    ensures |r| == LEAF_LENGTH
  {
    Pack(index) + account + Pack(amount)
  }

  function ToNode(keccak: Hasher, index: uint256, account: Address, amount: uint256): Hash {
    keccak(LeafPreimage(index, account, amount))
  }

  /** The layout: big-endian index in bytes 0..31, the address, big-endian amount in bytes 52..83. */
  lemma {:induction false} LeafLayout(index: uint256, account: Address, amount: uint256)
    ensures var r := LeafPreimage(index, account, amount);
            FromBigEndian(r[..32]) == index && r[32..52] == account && FromBigEndian(r[52..]) == amount
  {
    hide Pack;
    var r := LeafPreimage(index, account, amount);
    assert r[..32] == Pack(index) && r[32..52] == account && r[52..] == Pack(amount);
    PackReadsBack(index);
    PackReadsBack(amount);
  }

  /** The packed fields can be told apart again. */
  lemma {:induction false} LeafPreimageInjective(
      index: uint256, account: Address, amount: uint256,
      index': uint256, account': Address, amount': uint256)
    requires LeafPreimage(index, account, amount) == LeafPreimage(index', account', amount')
    ensures index == index' && account == account' && amount == amount'
  {
    hide LeafPreimage, FromBigEndian;
    LeafLayout(index, account, amount);
    LeafLayout(index', account', amount');
  }

  function PreimageAt(balances: Balances, i: nat): Bytes
    requires i < |balances|
  {
    LeafPreimage(i, balances[i].account, balances[i].amount)
  }

  /** One hash per balance, before sorting and deduplication. */
  function Nodes(keccak: Hasher, balances: Balances): (r: seq<Bytes>)
    ensures |r| == |balances|
    ensures forall i | 0 <= i < |balances| :: r[i] == keccak(PreimageAt(balances, i))
  {
    seq(|balances|, i requires 0 <= i < |balances| => keccak(PreimageAt(balances, i)))
  }

  ghost function TreeLeaves(keccak: Hasher, balances: Balances): (r: seq<Bytes>)
    ensures r == [] <==> balances == []
  {
    Leaves(Nodes(keccak, balances))
  }

  ghost function TreeLayers(keccak: Hasher, balances: Balances): (r: seq<seq<Bytes>>)
    requires balances != []
    ensures r != [] && r[0] == TreeLeaves(keccak, balances) && |r[|r| - 1]| == 1
  {
    Layers(Joiner(keccak), TreeLeaves(keccak, balances))
  }

  ghost function MerkleRoot(keccak: Hasher, balances: Balances): Bytes
    requires balances != []
  {
    Root(TreeLayers(keccak, balances))
  }

  lemma {:induction false} NodesInLeaves(keccak: Hasher, balances: Balances, i: nat)
    requires i < |balances|
    ensures Nodes(keccak, balances)[i] in TreeLeaves(keccak, balances)
  {
    hide BufferLeq, Leaves;
    LeavesCanonical(Nodes(keccak, balances));
  }

  /** The proof the tree gives out for balance i. */
  ghost function ProofFor(keccak: Hasher, balances: Balances, i: nat): seq<Bytes>
    requires i < |balances|
  {
    NodesInLeaves(keccak, balances, i);
    Proof(TreeLayers(keccak, balances), Position(TreeLeaves(keccak, balances), Nodes(keccak, balances)[i]))
  }

  /** What the verifier decides. */
  predicate Accepts(keccak: Hasher, root: Bytes, index: uint256, account: Address, amount: uint256,
                    proof: seq<Bytes>) {
    FoldProof(Joiner(keccak), ToNode(keccak, index, account, amount), proof) == root
  }

  lemma {:induction false} CombineIsJoin(keccak: Hasher, first: Bytes, second: Bytes)
    ensures Combine(Joiner(keccak), first, Some(second)) == Joiner(keccak)(first, second)
  {
  }

  class BalanceTree {
    const tree: MerkleTree

    ghost predicate Valid()
      reads this, tree
    {
      tree.Valid()
    }

    constructor (tree: MerkleTree)
      requires tree.Valid()
      ensures Valid() && this.tree == tree
    {
      this.tree := tree;
    }

    /** The source's constructor. */
    static method Create(keccak: Hasher, balances: Balances) returns (r: Result<BalanceTree, Error>)
      ensures balances == [] <==> r == Err(EmptyTree)
      ensures balances != [] ==> r.Ok? && fresh(r.value) && fresh(r.value.tree)
      ensures r.Ok? ==>
                && r.value.Valid() && r.value.tree.keccak == keccak
                && r.value.tree.elements == TreeLeaves(keccak, balances)
    {
      hide BufferLeq, Leaves;
      var nodes: seq<Bytes> := seq(|balances|, index requires 0 <= index < |balances| =>
        ToNode(keccak, index, balances[index].account, balances[index].amount));
      assert nodes == Nodes(keccak, balances);
      var created := MerkleTree.Create(keccak, nodes);
      match created {
        case Err(e) =>
          return Err(e);
        case Ok(tree) =>
          var t := new BalanceTree(tree);
          return Ok(t);
      }
    }

    static method VerifyProof(keccak: Hasher, index: uint256, account: Address, amount: uint256,
                              proof: seq<Bytes>, root: Bytes) returns (ok: bool)
      ensures ok <==> Accepts(keccak, root, index, account, amount, proof)
    {
      hide Joiner, CombinedHash, Combine, LeafPreimage;
      var pair: Bytes := ToNode(keccak, index, account, amount);
      for i := 0 to |proof|
        invariant pair == FoldProof(Joiner(keccak), ToNode(keccak, index, account, amount), proof[..i])
      {
        CombinedHashIsCombine(keccak, pair, Some(proof[i]));
        CombineIsJoin(keccak, pair, proof[i]);
        FoldAppend(Joiner(keccak), ToNode(keccak, index, account, amount), proof[..i], proof[i]);
        assert proof[..i + 1] == proof[..i] + [proof[i]];
        pair := CombinedHash(keccak, Some(pair), Some(proof[i])).value;
      }
      assert proof[..|proof|] == proof;
      ok := pair == root;
    }

    method GetHexRoot() returns (root: string)
      requires Valid()
      ensures root == BufferToHex(Root(Layers(Joiner(tree.keccak), tree.elements)))
    {
      root := tree.GetHexRoot();
    }

    method GetProof(index: uint256, account: Address, amount: uint256) returns (r: Result<seq<string>, Error>)
      requires Valid()
      ensures var node: Bytes := ToNode(tree.keccak, index, account, amount);
              r == if node in tree.elements
                   then Ok(HexAll(ProofOf(tree.keccak, tree.elements, node).value))
                   else Err(NoSuchElement)
    {
      r := tree.GetHexProof(ToNode(tree.keccak, index, account, amount));
    }
  }
}
