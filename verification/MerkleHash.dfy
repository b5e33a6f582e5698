/** How this repository's Merkle tree joins two nodes: sort the pair, concatenate, hash. */
module MerkleHash {
  import opened Wrappers
  import opened Ordering
  import opened Buffers
  import opened Hashing
  import opened LayeredTree
  import opened TreeBinding

  function SortAndConcat(first: Bytes, second: Bytes): (r: Bytes)
    ensures |r| == |first| + |second|
  {
    if BufferLeq(first, second) then first + second else second + first
  }

  /** It is the concatenation of the two buffers in sorted order. */
  lemma {:induction false} SortAndConcatSorts(first: Bytes, second: Bytes)
    ensures var sorted := Sort(BufferLeq, [first, second]);
            SortAndConcat(first, second) == sorted[0] + sorted[1] && BufferLeq(sorted[0], sorted[1])
    ensures |first| == |second| ==>
              SortAndConcat(first, second)
              == if FromBigEndian(first) <= FromBigEndian(second) then first + second else second + first
  {
    hide BufferLeq;
    BufferOrder();
    var args := [first, second];
    assert args[1..] == [second];
    SortSorted(BufferLeq, args);
    assert Sort(BufferLeq, [second]) == [second];
    assert Sort(BufferLeq, args) == Insert(BufferLeq, first, [second]);
    if |first| == |second| {
      BufferOrderIsNumeric(first, second);
    }
  }

  /** Either argument may be absent; the other is then passed through unhashed. */
  function CombinedHash(keccak: Hasher, first: Option<Bytes>, second: Option<Bytes>): Option<Bytes> {
    if first.None? then second
    else if second.None? then first
    else Some(keccak(SortAndConcat(first.value, second.value)))
  }

  function HashPair(keccak: Hasher, first: Bytes, second: Bytes): Hash {
    keccak(SortAndConcat(first, second))
  }

  function Joiner(keccak: Hasher): Join<Bytes> {
    (first, second) => HashPair(keccak, first, second)
  }

  /** `CombinedHash` on a present first argument, as at both its call sites. */
  lemma {:induction false} CombinedHashIsCombine(keccak: Hasher, first: Bytes, second: Option<Bytes>)
    ensures CombinedHash(keccak, Some(first), second) == Some(Combine(Joiner(keccak), first, second))
  {
  }

  lemma {:induction false} JoinerCommutes(keccak: Hasher)
    ensures Commutative(Joiner(keccak))
  {
    BufferOrder();
    forall a: Bytes, b: Bytes ensures SortAndConcat(a, b) == SortAndConcat(b, a) {
      assert BufferLeq(a, b) || BufferLeq(b, a);
    }
  }

  /** Argument order does not matter, and an absent argument leaves the other as it is. */
  lemma {:induction false} CombinedHashLaws(keccak: Hasher, first: Option<Bytes>, second: Option<Bytes>)
    ensures CombinedHash(keccak, first, second) == CombinedHash(keccak, second, first)
    ensures CombinedHash(keccak, None, second) == second
    ensures first.Some? && second.Some? ==>
              CombinedHash(keccak, first, second) == Some(Joiner(keccak)(first.value, second.value))
  {
    hide SortAndConcat;
    JoinerCommutes(keccak);
    if first.Some? && second.Some? {
      assert Joiner(keccak)(first.value, second.value) == Joiner(keccak)(second.value, first.value);
    }
  }

  /** Sorting a pair of equally long halves loses which side was which, and nothing else. */
  lemma {:induction false} SortAndConcatInjective(a: Bytes, b: Bytes, c: Bytes, d: Bytes)
    requires |a| == |c| == |d|
    requires SortAndConcat(a, b) == SortAndConcat(c, d)
    ensures (a == c && b == d) || (a == d && b == c)
  {
    hide BufferLeq;
    var s, n := SortAndConcat(a, b), |a|;
    assert |b| == n;
    assert (s[..n] == a && s[n..] == b) || (s[..n] == b && s[n..] == a);
    assert (s[..n] == c && s[n..] == d) || (s[..n] == d && s[n..] == c);
  }

  // ---- The leaf list ----

  ghost predicate IsLeafList(leaves: seq<Bytes>, elements: seq<Bytes>) {
    StrictlySorted(BufferLeq, leaves) && SameMembers(leaves, elements)
  }

  /** Sorting and deduplicating gives the one strictly increasing list with the same members. */
  lemma {:induction false} SortedDedupIsLeafList(elements: seq<Bytes>, leaves: seq<Bytes>)
    ensures IsLeafList(leaves, elements) <==> leaves == Dedup(Sort(BufferLeq, elements))
  {
    hide BufferLeq;
    BufferOrder();
    CanonicalListMembers(BufferLeq, elements);
    if IsLeafList(leaves, elements) {
      StrictlySortedUnique(BufferLeq, leaves, Dedup(Sort(BufferLeq, elements)));
    }
  }

  /** The canonical leaf list of a collection of elements. */
  ghost function Leaves(elements: seq<Bytes>): (r: seq<Bytes>)
    ensures r == [] <==> elements == []
  {
    SortedDedupIsLeafList(elements, Dedup(Sort(BufferLeq, elements)));
    var leaves :| IsLeafList(leaves, elements);
    assert elements != [] ==> elements[0] in leaves;
    assert leaves != [] ==> leaves[0] in elements;
    leaves
  }

  lemma {:induction false} LeavesCanonical(elements: seq<Bytes>)
    ensures StrictlySorted(BufferLeq, Leaves(elements))
    ensures SameMembers(Leaves(elements), elements)
    ensures Leaves(elements) == Dedup(Sort(BufferLeq, elements))
  {
    hide BufferLeq;
    SortedDedupIsLeafList(elements, Dedup(Sort(BufferLeq, elements)));
    SortedDedupIsLeafList(elements, Leaves(elements));
  }

  /**
    Two collections have the same leaves exactly when they have the same members: reordering and
    repeating elements changes nothing, adding or removing a value does.
   */
  lemma {:induction false} SetCanonicity(a: seq<Bytes>, b: seq<Bytes>)
    ensures Leaves(a) == Leaves(b) <==> SameMembers(a, b)
  {
    hide BufferLeq, Sort, Leaves;
    BufferOrder();
    LeavesCanonical(a);
    LeavesCanonical(b);
    if SameMembers(a, b) {
      StrictlySortedUnique(BufferLeq, Leaves(a), Leaves(b));
    }
  }

  // ---- What gets hashed ----

  function Concatenations(pairs: set<(Bytes, Bytes)>): set<Bytes> {
    set p | p in pairs :: SortAndConcat(p.0, p.1)
  }

  ghost predicate AllHashSized(s: seq<Bytes>) {
    forall i | 0 <= i < |s| :: |s[i]| == HASH_LENGTH
  }

  lemma {:induction false} StepHashSized(keccak: Hasher, layer: seq<Bytes>, above: seq<Bytes>)
    requires IsStep(Joiner(keccak), layer, above) && AllHashSized(layer)
    ensures AllHashSized(above)
  {
    hide SortAndConcat;
  }

  lemma {:induction false} NodesHashSized(keccak: Hasher, layers: seq<seq<Bytes>>, j: nat)
    requires IsLayering(Joiner(keccak), layers) && j < |layers| && AllHashSized(layers[0])
    ensures AllHashSized(layers[j])
  {
    hide IsStep, Joiner;
    if j > 0 {
      NodesHashSized(keccak, layers, j - 1);
      assert IsStep(Joiner(keccak), layers[j - 1], layers[j - 1 + 1]);
      StepHashSized(keccak, layers[j - 1], layers[j]);
    }
  }

  ghost predicate HashSizedPairs(pairs: set<(Bytes, Bytes)>) {
    forall p | p in pairs :: |p.0| == HASH_LENGTH && |p.1| == HASH_LENGTH
  }

  lemma {:induction false} BuildPairsHashSized(keccak: Hasher, layers: seq<seq<Bytes>>)
    requires IsLayering(Joiner(keccak), layers) && AllHashSized(layers[0])
    ensures HashSizedPairs(BuildPairs(layers))
  {
    hide IsLayering, Joiner;
    forall p | p in BuildPairs(layers) ensures |p.0| == HASH_LENGTH && |p.1| == HASH_LENGTH {
      var j, i :| 0 <= j < |layers| && 0 <= i < |layers[j]| / 2
               && p == (layers[j][2 * i], layers[j][2 * i + 1]);
      NodesHashSized(keccak, layers, j);
    }
  }

  lemma {:induction false} FoldHashSized(keccak: Hasher, node: Bytes, proof: seq<Bytes>)
    requires |node| == HASH_LENGTH
    ensures |FoldProof(Joiner(keccak), node, proof)| == HASH_LENGTH
  {
    hide SortAndConcat;
  }

  lemma {:induction false} FoldPairsHashSized(keccak: Hasher, node: Bytes, proof: seq<Bytes>)
    requires |node| == HASH_LENGTH
    ensures forall p | p in FoldPairs(Joiner(keccak), node, proof) :: |p.0| == HASH_LENGTH && p.1 in proof
  {
    hide Joiner;
    forall p | p in FoldPairs(Joiner(keccak), node, proof) ensures |p.0| == HASH_LENGTH && p.1 in proof {
      var i :| 0 <= i < |proof| && p == (FoldProof(Joiner(keccak), node, proof[..i]), proof[i]);
      FoldHashSized(keccak, node, proof[..i]);
    }
  }

  /** No collision among the hashed strings: equal joins come from equal pairs, up to a swap. */
  lemma {:induction false} CollisionFreeBinds(
      keccak: Hasher, hashed: set<Bytes>, folded: set<(Bytes, Bytes)>, pairs: set<(Bytes, Bytes)>)
    requires CollisionFree(keccak, hashed)
    requires Concatenations(folded) <= hashed && Concatenations(pairs) <= hashed
    requires HashSizedPairs(pairs) && forall p | p in folded :: |p.0| == HASH_LENGTH
    ensures BindsPairs(Joiner(keccak), folded, pairs)
  {
    hide SortAndConcat;
    forall p, q | p in folded && q in pairs && Joiner(keccak)(p.0, p.1) == Joiner(keccak)(q.0, q.1)
      ensures p == q || p == (q.1, q.0)
    {
      assert SortAndConcat(p.0, p.1) in Concatenations(folded);
      assert SortAndConcat(q.0, q.1) in Concatenations(pairs);
      SortAndConcatInjective(p.0, p.1, q.0, q.1);
    }
  }

  /** Nor is the hash of a longer or shorter string a join. */
  lemma {:induction false} CollisionFreeNotJoined(
      keccak: Hasher, hashed: set<Bytes>, pairs: set<(Bytes, Bytes)>, preimage: Bytes)
    requires CollisionFree(keccak, hashed)
    requires Concatenations(pairs) <= hashed && preimage in hashed
    requires forall p | p in pairs :: |p.0| + |p.1| != |preimage|
    ensures NotJoined(Joiner(keccak), pairs, keccak(preimage))
  {
    hide BufferLeq;
    forall p | p in pairs ensures Joiner(keccak)(p.0, p.1) != keccak(preimage) {
      assert SortAndConcat(p.0, p.1) in Concatenations(pairs);
    }
  }
}
