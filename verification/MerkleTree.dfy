/** The `MerkleTree` class, proved against the layered tree over its canonical leaf list. */
module MerkleTrees {
  import opened Wrappers
  import opened Errors
  import opened Ordering
  import opened Buffers
  import opened Hashing
  import opened LayeredTree
  import opened TreeShape
  import opened MerkleHash

  /** The index sends each element's hex key to its position, and has no other key. */
  ghost predicate IndexesExactly(elements: seq<Bytes>, index: map<string, nat>) {
    && (forall i | 0 <= i < |elements| :: MapsTo(index, BufferToHex(elements[i]), i))
    && (forall key | key in index :: index[key] < |elements| && BufferToHex(elements[index[key]]) == key)
  }

  function Position(s: seq<Bytes>, x: Bytes): (i: nat)
    requires x in s
    ensures i < |s| && s[i] == x
  {
    if s[0] == x then 0 else 1 + Position(s[1..], x)
  }

  /** The proof of `el` in the tree over `leaves`, or the exception for an element it lacks. */
  function ProofOf(keccak: Hasher, leaves: seq<Bytes>, el: Bytes): Result<seq<Bytes>, Error>
    requires leaves != []
  {
    if el in leaves then
      Ok(Proof(Layers(Joiner(keccak), leaves), Position(leaves, el)))
    else
      Err(NoSuchElement)
  }

  function HexAll(items: seq<Bytes>): (r: seq<string>)
    ensures |r| == |items|
    ensures forall i | 0 <= i < |items| :: r[i] == BufferToHex(items[i])
  {
    seq(|items|, i requires 0 <= i < |items| => BufferToHex(items[i]))
  }

  /** In a list without repetitions a buffer's hex key occurs at exactly the buffer's position. */
  lemma {:induction false} IndexedPosition(elements: seq<Bytes>, index: map<string, nat>, el: Bytes)
    requires IndexesExactly(elements, index) && StrictlySorted(BufferLeq, elements)
    ensures BufferToHex(el) in index <==> el in elements
    ensures el in elements ==> index[BufferToHex(el)] == Position(elements, el)
  {
    hide BufferLeq, BufferToHex;
    var key := BufferToHex(el);
    if key in index {
      HexInjective(elements[index[key]], el);
    }
    if el in elements {
      assert MapsTo(index, BufferToHex(elements[Position(elements, el)]), Position(elements, el));
    }
  }

  lemma {:induction false} ConcatSingle<T>(a: seq<T>, x: T, b: seq<T>)
    ensures a + ([x] + b) == (a + [x]) + b
  {
  }

  class MerkleTree {
    const keccak: Hasher
    var elements: seq<Bytes>
    var bufferElementPositionIndex: map<string, nat>
    var layers: seq<seq<Bytes>>

    ghost predicate Valid()
      reads this
    {
      && elements != []
      && StrictlySorted(BufferLeq, elements)
      && IndexesExactly(elements, bufferElementPositionIndex)
      && layers == Layers(Joiner(keccak), elements)
    }

    constructor (keccak: Hasher, elements: seq<Bytes>, index: map<string, nat>, layers: seq<seq<Bytes>>)
      requires elements != [] && StrictlySorted(BufferLeq, elements) && IndexesExactly(elements, index)
      requires layers == Layers(Joiner(keccak), elements)
      ensures Valid() && this.keccak == keccak && this.elements == elements
    {
      this.keccak := keccak;
      this.elements := elements;
      bufferElementPositionIndex := index;
      this.layers := layers;
    }

    /** The source's constructor, whose only exception is the one for an empty input. */
    static method Create(keccak: Hasher, input: seq<Bytes>) returns (r: Result<MerkleTree, Error>)
      ensures input == [] <==> r == Err(EmptyTree)
      ensures input != [] ==> r.Ok? && fresh(r.value)
      ensures r.Ok? ==> r.value.Valid() && r.value.keccak == keccak && r.value.elements == Leaves(input)
    {
      var elements := Sort(BufferLeq, input);
      elements := Dedup(elements);
      LeavesCanonical(input);
      var index := IndexPositions(elements);
      var built := GetLayers(keccak, elements);
      match built {
        case Err(e) =>
          return Err(e);
        case Ok(layers) =>
          var tree := new MerkleTree(keccak, elements, index, layers);
          return Ok(tree);
      }
    }

    static method IndexPositions(elements: seq<Bytes>) returns (memo: map<string, nat>)
      requires StrictlySorted(BufferLeq, elements)
      ensures IndexesExactly(elements, memo)
    {
      hide BufferLeq, BufferToHex;
      memo := map[];
      for index := 0 to |elements|
        invariant IndexesExactly(elements[..index], memo)
      {
        forall i | 0 <= i < index ensures BufferToHex(elements[i]) != BufferToHex(elements[index]) {
          if BufferToHex(elements[i]) == BufferToHex(elements[index]) {
            HexInjective(elements[i], elements[index]);
          }
        }
        ghost var before, seen := memo, elements[..index + 1];
        memo := memo[BufferToHex(elements[index]) := index];
        forall i | 0 <= i < |seen| ensures MapsTo(memo, BufferToHex(seen[i]), i) {
          assert i < index ==> MapsTo(before, BufferToHex(elements[..index][i]), i);
        }
        forall key | key in memo
          ensures memo[key] < |seen| && BufferToHex(seen[memo[key]]) == key
        {
          assert key != BufferToHex(elements[index]) ==> key in before && before[key] == memo[key];
        }
      }
      assert elements[..|elements|] == elements;
    }

    static method GetLayers(keccak: Hasher, elements: seq<Bytes>) returns (r: Result<seq<seq<Bytes>>, Error>)
      ensures r == if elements == [] then Err(EmptyTree) else Ok(Layers(Joiner(keccak), elements))
    {
      hide Joiner;
      if elements == [] {
        return Err(EmptyTree);
      }
      var layers := [elements];
      while |layers[|layers| - 1]| > 1
        invariant layers != [] && layers[|layers| - 1] != []
        invariant Layers(Joiner(keccak), elements)
               == layers[..|layers| - 1] + Layers(Joiner(keccak), layers[|layers| - 1])
        decreases |layers[|layers| - 1]|
      {
        var next := GetNextLayer(keccak, layers[|layers| - 1]);
        ConcatSingle(layers[..|layers| - 1], layers[|layers| - 1], Layers(Joiner(keccak), next));
        assert layers == layers[..|layers| - 1] + [layers[|layers| - 1]];
        layers := layers + [next];
      }
      assert layers == layers[..|layers| - 1] + [layers[|layers| - 1]];
      return Ok(layers);
    }

    static method GetNextLayer(keccak: Hasher, elements: seq<Bytes>) returns (layer: seq<Bytes>)
      ensures layer == NextLayer(Joiner(keccak), elements)
    {
      hide Joiner, Combine, CombinedHash;
      layer := [];
      for idx := 0 to |elements|
        invariant layer == PairUp(Joiner(keccak), elements, idx)
      {
        if idx % 2 == 0 {
          CombinedHashIsCombine(keccak, elements[idx], At(elements, idx + 1));
          layer := layer + [CombinedHash(keccak, Some(elements[idx]), At(elements, idx + 1)).value];
        }
      }
    }

    method GetRoot() returns (root: Bytes)
      requires Valid()
      ensures root == Root(Layers(Joiner(keccak), elements))
    {
      root := layers[|layers| - 1][0];
    }

    method GetHexRoot() returns (root: string)
      requires Valid()
      ensures root == BufferToHex(Root(Layers(Joiner(keccak), elements)))
    {
      var buffer := GetRoot();
      root := BufferToHex(buffer);
    }

    method GetProof(el: Bytes) returns (r: Result<seq<Bytes>, Error>)
      requires Valid()
      ensures r == ProofOf(keccak, elements, el)
    {
      hide BufferLeq, BufferToHex, Joiner;
      IndexedPosition(elements, bufferElementPositionIndex, el);
      if BufferToHex(el) !in bufferElementPositionIndex {
        return Err(NoSuchElement);
      }
      var idx := bufferElementPositionIndex[BufferToHex(el)];
      ghost var start := idx;
      var proof := [];
      for j := 0 to |layers|
        invariant idx == Ancestor(start, j)
        invariant proof == ProofItems(layers, start, j)
      {
        var pairElement := PairElement(idx, layers[j]);
        if pairElement.Some? {
          proof := proof + [pairElement.value];
        }
        idx := idx / 2;
      }
      return Ok(proof);
    }

    method GetHexProof(el: Bytes) returns (r: Result<seq<string>, Error>)
      requires Valid()
      ensures el in elements ==> r == Ok(HexAll(ProofOf(keccak, elements, el).value))
      ensures el !in elements ==> r == Err(NoSuchElement)
    {
      var proof := GetProof(el);
      match proof {
        case Err(e) => return Err(e);
        case Ok(items) => return Ok(HexAll(items));
      }
    }
  }

  /**
    A tree over any buffers has a proof for exactly the buffers it was given; the proof folds up to
    the root and is no longer than the tree is high.
   */
  lemma {:induction false} MembershipProofs(keccak: Hasher, input: seq<Bytes>, el: Bytes)
    requires input != []
    ensures var join, leaves := Joiner(keccak), Leaves(input);
            var r := ProofOf(keccak, leaves, el);
            && (el in input <==> r.Ok?)
            && (el !in input ==> r == Err(NoSuchElement))
            && (r.Ok? ==>
                  && FoldProof(join, el, r.value) == Root(Layers(join, leaves))
                  && |r.value| < |Layers(join, leaves)|)
  {
    hide BufferLeq, Leaves, Joiner, Layers, FoldProof, Root, Proof;
    var join, leaves := Joiner(keccak), Leaves(input);
    LeavesCanonical(input);
    JoinerCommutes(keccak);
    if el in leaves {
      ProofReachesRoot(join, leaves, Position(leaves, el));
      ProofLength(join, leaves, Position(leaves, el));
    }
  }
}
