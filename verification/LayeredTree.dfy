/**
  The layered tree over any element type and any way of joining two nodes: layers from leaves to
  root, the proof read off the layers, and the fold that checks a proof.
 */
module LayeredTree {
  import opened Wrappers

  type Join<!T> = (T, T) -> T

  ghost predicate Commutative<T(!new)>(join: Join<T>) {
    forall a, b :: join(a, b) == join(b, a)
  }

  /** A node with no partner is promoted as it is. */
  function Combine<T>(join: Join<T>, first: T, second: Option<T>): T {
    if second.Some? then join(first, second.value) else first
  }

  function At<T>(layer: seq<T>, i: nat): Option<T> {
    if i < |layer| then Some(layer[i]) else None
  }

  // ---- Layers ----

  /** What the reducer has pushed once it has seen the first n elements of `layer`. */
  function PairUp<T>(join: Join<T>, layer: seq<T>, n: nat): (r: seq<T>)
    requires n <= |layer|
    ensures n <= 2 * |r| <= n + 1
  {
    if n == 0 then
      []
    else
      var pushed := PairUp(join, layer, n - 1);
      if (n - 1) % 2 == 0 then pushed + [Combine(join, layer[n - 1], At(layer, n))] else pushed
  }

  function NextLayer<T>(join: Join<T>, layer: seq<T>): (r: seq<T>)
    ensures |layer| <= 2 * |r| <= |layer| + 1
  {
    PairUp(join, layer, |layer|)
  }

  /** Node k of `above` comes from nodes 2k and 2k + 1 of `layer`, or from 2k alone at an odd end. */
  ghost predicate IsStep<T>(join: Join<T>, layer: seq<T>, above: seq<T>) {
    && 1 < |layer| <= 2 * |above| <= |layer| + 1
    && forall k | 0 <= k < |above| :: above[k] == Combine(join, layer[2 * k], At(layer, 2 * k + 1))
  }

  /** Each layer but the last pairs up into the next one, and the last holds the root alone. */
  ghost predicate IsLayering<T>(join: Join<T>, layers: seq<seq<T>>) {
    && layers != []
    && |layers[|layers| - 1]| == 1
    && forall j | 0 <= j < |layers| - 1 :: IsStep(join, layers[j], layers[j + 1])
  }

  function Layers<T>(join: Join<T>, leaves: seq<T>): (r: seq<seq<T>>)
    requires leaves != []
    ensures r != [] && r[0] == leaves && |r[|r| - 1]| == 1
    decreases |leaves|
  {
    if |leaves| == 1 then
      [leaves]
    else
      [leaves] + Layers(join, NextLayer(join, leaves))
  }

  function Root<T>(layers: seq<seq<T>>): T
    requires layers != [] && layers[|layers| - 1] != []
  {
    layers[|layers| - 1][0]
  }

  // ---- Proofs ----

  function PairElement<T>(idx: nat, layer: seq<T>): Option<T> {
    At(layer, if idx % 2 == 0 then idx + 1 else idx - 1)
  }

  /** An optional item as a list of at most one element. */
  function Items<T>(o: Option<T>): seq<T> {
    if o.Some? then [o.value] else []
  }

  /** The position after j halvings. */
  function Ancestor(idx: nat, j: nat): nat {
    if j == 0 then idx else Ancestor(idx, j - 1) / 2
  }

  /** The items collected from the first j layers. */
  function ProofItems<T>(layers: seq<seq<T>>, idx: nat, j: nat): seq<T>
    requires j <= |layers|
  {
    if j == 0 then
      []
    else
      ProofItems(layers, idx, j - 1) + Items(PairElement(Ancestor(idx, j - 1), layers[j - 1]))
  }

  function Proof<T>(layers: seq<seq<T>>, idx: nat): seq<T> {
    ProofItems(layers, idx, |layers|)
  }

  /** The running hash after all items of `proof`, starting from `node`. */
  function FoldProof<T>(join: Join<T>, node: T, proof: seq<T>): T {
    if proof == [] then
      node
    else
      join(FoldProof(join, node, proof[..|proof| - 1]), proof[|proof| - 1])
  }

  // ---- What gets joined ----

  /** Every pair joined while the layers are built; a promoted last node is in none. */
  function BuildPairs<T(==)>(layers: seq<seq<T>>): set<(T, T)> {
    set j, i | 0 <= j < |layers| && 0 <= i < |layers[j]| / 2 :: (layers[j][2 * i], layers[j][2 * i + 1])
  }

  /** Every pair joined while `proof` is folded over `node`. */
  function FoldPairs<T(==)>(join: Join<T>, node: T, proof: seq<T>): set<(T, T)> {
    set i | 0 <= i < |proof| :: (FoldProof(join, node, proof[..i]), proof[i])
  }

  // ---- Basic laws ----

  lemma {:induction false} PairUpAt<T>(join: Join<T>, layer: seq<T>, n: nat, i: nat)
    requires 2 * i < n <= |layer|
    ensures i < |PairUp(join, layer, n)|
    ensures PairUp(join, layer, n)[i] == Combine(join, layer[2 * i], At(layer, 2 * i + 1))
    decreases n
  {
    if 2 * i < n - 1 {
      PairUpAt(join, layer, n - 1, i);
    }
  }

  lemma {:induction false} NextLayerIsStep<T>(join: Join<T>, layer: seq<T>)
    requires |layer| > 1
    ensures IsStep(join, layer, NextLayer(join, layer))
  {
    forall k | 0 <= k < |NextLayer(join, layer)|
      ensures NextLayer(join, layer)[k] == Combine(join, layer[2 * k], At(layer, 2 * k + 1))
    {
      PairUpAt(join, layer, |layer|, k);
    }
  }

  /** The layers are a layering. */
  lemma {:induction false} LayersAreLayering<T>(join: Join<T>, leaves: seq<T>)
    requires leaves != []
    ensures IsLayering(join, Layers(join, leaves))
    decreases |leaves|
  {
    hide IsStep, NextLayer;
    if |leaves| > 1 {
      var above := NextLayer(join, leaves);
      LayersAreLayering(join, above);
      NextLayerIsStep(join, leaves);
      var layers, rest := Layers(join, leaves), Layers(join, above);
      forall j | 0 <= j < |layers| - 1 ensures IsStep(join, layers[j], layers[j + 1]) {
        assert j > 0 ==> IsStep(join, rest[j - 1], rest[j - 1 + 1]);
      }
    }
  }

  lemma {:induction false} FoldAppend<T>(join: Join<T>, node: T, proof: seq<T>, item: T)
    ensures FoldProof(join, node, proof + [item]) == join(FoldProof(join, node, proof), item)
  {
    assert (proof + [item])[..|proof|] == proof;
  }

  /** A proof can be folded in two stretches. */
  lemma {:induction false} FoldConcat<T>(join: Join<T>, node: T, first: seq<T>, rest: seq<T>)
    ensures FoldProof(join, node, first + rest) == FoldProof(join, FoldProof(join, node, first), rest)
  {
    if rest == [] {
      assert first + rest == first;
    } else {
      var n := |rest| - 1;
      FoldConcat(join, node, first, rest[..n]);
      assert (first + rest)[..|first + rest| - 1] == first + rest[..n];
    }
  }
}
