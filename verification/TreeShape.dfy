/**
  The layered tree against the recursive one.

  `TreeHash` and `AuditPath` follow sections 2.1 and 2.1.1 of RFC 6962 (split at the largest power
  of two below n), with this repository's pair hash: no domain-separation prefix, each pair sorted.
  The loop that pairs up neighbours and promotes an odd last node computes exactly those.
 */
module TreeShape {
  import opened LayeredTree

  function Pow2(n: nat): (r: nat)
    ensures r > 0
  {
    if n == 0 then 1 else 2 * Pow2(n - 1)
  }

  /** The largest power of two below n: doubles k until the next doubling would reach n. */
  function SplitPoint(n: nat, k: nat := 1): (r: nat)
    requires 0 < k < n
    ensures k <= r < n <= 2 * r
    decreases n - k
  {
    if n <= 2 * k then k else SplitPoint(n, 2 * k)
  }

  /** The split of a layer is twice the split of the layer above it. */
  lemma {:induction false} SplitPointDoubles(n: nat, up: nat, k: nat)
    requires 0 < k < up && n <= 2 * up <= n + 1
    ensures SplitPoint(n, 2 * k) == 2 * SplitPoint(up, k)
    decreases up - k
  {
    if up > 2 * k {
      SplitPointDoubles(n, up, 2 * k);
    }
  }

  lemma {:induction false} SplitPointIsPower(n: nat, c: nat) returns (e: nat)
    requires Pow2(c) < n
    ensures SplitPoint(n, Pow2(c)) == Pow2(e)
    decreases n - Pow2(c)
  {
    if n <= 2 * Pow2(c) {
      e := c;
    } else {
      e := SplitPointIsPower(n, c + 1);
    }
  }

  lemma {:induction false} Pow2Monotone(a: nat, b: nat)
    requires a < b
    ensures 2 * Pow2(a) <= Pow2(b)
  {
    if a + 1 < b {
      Pow2Monotone(a, b - 1);
    }
  }

  /** `SplitPoint` is the k of RFC 6962: a power of two below n that no other one exceeds. */
  lemma {:induction false} SplitPointLargest(n: nat, c: nat)
    requires n > 1
    ensures exists e :: SplitPoint(n) == Pow2(e)
    ensures Pow2(c) < n <==> Pow2(c) <= SplitPoint(n)
  {
    var e := SplitPointIsPower(n, 0);
    if c > e {
      Pow2Monotone(e, c);
    } else if c < e {
      Pow2Monotone(c, e);
    }
  }

  /** The tree hash of leaves lo..hi-1, D[lo:hi] in the RFC's notation. */
  function TreeHash<T>(join: Join<T>, leaves: seq<T>, lo: nat, hi: nat): T
    requires lo < hi <= |leaves|
    decreases hi - lo
  {
    if hi == lo + 1 then
      leaves[lo]
    else
      var mid := lo + SplitPoint(hi - lo);
      join(TreeHash(join, leaves, lo, mid), TreeHash(join, leaves, mid, hi))
  }

  /** Sibling subtree hashes of leaf i within D[lo:hi], lowest first. */
  function AuditPath<T>(join: Join<T>, leaves: seq<T>, lo: nat, hi: nat, i: nat): seq<T>
    requires lo <= i < hi <= |leaves|
    decreases hi - lo
  {
    if hi == lo + 1 then
      []
    else
      var mid := lo + SplitPoint(hi - lo);
      if i < mid then
        AuditPath(join, leaves, lo, mid, i) + [TreeHash(join, leaves, mid, hi)]
      else
        AuditPath(join, leaves, mid, hi, i) + [TreeHash(join, leaves, lo, mid)]
  }

  /** All pairs the recursive tree over D[lo:hi] joins are in `pairs`. */
  ghost predicate RangeJoinsIn<T>(join: Join<T>, leaves: seq<T>, lo: nat, hi: nat, pairs: set<(T, T)>)
    requires lo < hi <= |leaves|
    decreases hi - lo
  {
    hi == lo + 1 ||
    var mid := lo + SplitPoint(hi - lo);
    && (TreeHash(join, leaves, lo, mid), TreeHash(join, leaves, mid, hi)) in pairs
    && RangeJoinsIn(join, leaves, lo, mid, pairs)
    && RangeJoinsIn(join, leaves, mid, hi, pairs)
  }

  ghost predicate LayerJoinsIn<T>(layer: seq<T>, pairs: set<(T, T)>) {
    forall i | 0 <= i && 2 * i + 1 < |layer| :: (layer[2 * i], layer[2 * i + 1]) in pairs
  }

  // ---- One layer up ----

  /** Nodes lo..hi-1 of a layer are exactly the children of nodes a..b-1 of the next one. */
  ghost predicate Covers<T>(layer: seq<T>, lo: nat, hi: nat, a: nat, b: nat) {
    && a < b && lo == 2 * a && hi <= |layer|
    && (hi == 2 * b || (hi == 2 * b - 1 && hi == |layer|))
  }

  /** The two sides of the split of D[lo:hi] cover the two sides of the split above. */
  lemma {:induction false} CoversSplit<T>(
      layer: seq<T>, lo: nat, hi: nat, a: nat, b: nat) returns (mid: nat, midUp: nat)
    requires Covers(layer, lo, hi, a, b) && b - a > 1
    ensures mid == lo + SplitPoint(hi - lo) && midUp == a + SplitPoint(b - a)
    ensures lo < mid < hi && a < midUp < b
    ensures Covers(layer, lo, mid, a, midUp) && Covers(layer, mid, hi, midUp, b)
  {
    SplitPointDoubles(hi - lo, b - a, 1);
    mid, midUp := lo + SplitPoint(hi - lo), a + SplitPoint(b - a);
  }

  lemma {:induction false} TreeHashOfOne<T>(join: Join<T>, leaves: seq<T>, lo: nat)
    requires lo < |leaves|
    ensures TreeHash(join, leaves, lo, lo + 1) == leaves[lo]
  {
  }

  lemma {:induction false} TreeHashUnfold<T>(join: Join<T>, leaves: seq<T>, lo: nat, mid: nat, hi: nat)
    requires lo < mid < hi <= |leaves| && mid == lo + SplitPoint(hi - lo)
    ensures TreeHash(join, leaves, lo, hi)
         == join(TreeHash(join, leaves, lo, mid), TreeHash(join, leaves, mid, hi))
  {
  }

  lemma {:induction false} TreeHashOfPair<T>(join: Join<T>, layer: seq<T>, above: seq<T>, lo: nat, hi: nat, a: nat)
    requires IsStep(join, layer, above) && Covers(layer, lo, hi, a, a + 1)
    ensures a < |above| && TreeHash(join, layer, lo, hi) == above[a] == TreeHash(join, above, a, a + 1)
  {
  }

  lemma {:induction false} TreeHashOneLayerUp<T>(
      join: Join<T>, layer: seq<T>, above: seq<T>, lo: nat, hi: nat, a: nat, b: nat)
    requires IsStep(join, layer, above) && Covers(layer, lo, hi, a, b)
    ensures b <= |above|
    ensures TreeHash(join, layer, lo, hi) == TreeHash(join, above, a, b)
    decreases b - a
  {
    hide TreeHash, SplitPoint;
    if b == a + 1 {
      TreeHashOfPair(join, layer, above, lo, hi, a);
    } else {
      var mid, midUp := CoversSplit(layer, lo, hi, a, b);
      TreeHashOneLayerUp(join, layer, above, lo, mid, a, midUp);
      TreeHashOneLayerUp(join, layer, above, mid, hi, midUp, b);
      TreeHashUnfold(join, layer, lo, mid, hi);
      TreeHashUnfold(join, above, a, midUp, b);
    }
  }

  lemma {:induction false} ConcatAssoc<T>(a: seq<T>, b: seq<T>, c: seq<T>)
    ensures a + (b + c) == a + b + c
  {
  }

  /** The sibling of node i without division: its parent q has the children 2q and 2q + 1. */
  lemma {:induction false} SiblingOf<T>(layer: seq<T>, i: nat, q: nat)
    requires 2 * q <= i <= 2 * q + 1
    ensures PairElement(i, layer) == At(layer, 4 * q + 1 - i)
  {
  }

  lemma {:induction false} AuditPathOfOne<T>(join: Join<T>, leaves: seq<T>, a: nat)
    requires a < |leaves|
    ensures AuditPath(join, leaves, a, a + 1, a) == []
  {
  }

  lemma {:induction false} AuditPathUnfold<T>(join: Join<T>, leaves: seq<T>, lo: nat, mid: nat, hi: nat, i: nat)
    requires lo < mid < hi <= |leaves| && mid == lo + SplitPoint(hi - lo)
    requires lo <= i < hi
    ensures AuditPath(join, leaves, lo, hi, i)
         == if i < mid then AuditPath(join, leaves, lo, mid, i) + [TreeHash(join, leaves, mid, hi)]
                       else AuditPath(join, leaves, mid, hi, i) + [TreeHash(join, leaves, lo, mid)]
  {
  }

  lemma {:induction false} AuditPathOfPair<T>(join: Join<T>, layer: seq<T>, lo: nat, hi: nat, a: nat, i: nat)
    requires Covers(layer, lo, hi, a, a + 1) && lo <= i < hi
    ensures AuditPath(join, layer, lo, hi, i) == Items(At(layer, 4 * a + 1 - i))
  {
  }

  lemma {:induction false} AuditPathOneLayerUp<T>(
      join: Join<T>, layer: seq<T>, above: seq<T>, lo: nat, hi: nat, a: nat, b: nat, i: nat, q: nat)
    requires IsStep(join, layer, above) && Covers(layer, lo, hi, a, b)
    requires lo <= i < hi && 2 * q <= i <= 2 * q + 1
    ensures a <= q < b <= |above|
    ensures AuditPath(join, layer, lo, hi, i)
         == Items(At(layer, 4 * q + 1 - i)) + AuditPath(join, above, a, b, q)
    decreases b - a
  {
    hide TreeHash, AuditPath, SplitPoint;
    var items := Items(At(layer, 4 * q + 1 - i));
    if b == a + 1 {
      AuditPathOfPair(join, layer, lo, hi, a, i);
      AuditPathOfOne(join, above, a);
    } else {
      var mid, midUp := CoversSplit(layer, lo, hi, a, b);
      AuditPathUnfold(join, layer, lo, mid, hi, i);
      AuditPathUnfold(join, above, a, midUp, b, q);
      if i < mid {
        AuditPathOneLayerUp(join, layer, above, lo, mid, a, midUp, i, q);
        TreeHashOneLayerUp(join, layer, above, mid, hi, midUp, b);
        ConcatAssoc(items, AuditPath(join, above, a, midUp, q), [TreeHash(join, above, midUp, b)]);
      } else {
        AuditPathOneLayerUp(join, layer, above, mid, hi, midUp, b, i, q);
        TreeHashOneLayerUp(join, layer, above, lo, mid, a, midUp);
        ConcatAssoc(items, AuditPath(join, above, midUp, b, q), [TreeHash(join, above, a, midUp)]);
      }
    }
  }

  lemma {:induction false} JoinsInUnfold<T>(
      join: Join<T>, leaves: seq<T>, lo: nat, mid: nat, hi: nat, pairs: set<(T, T)>)
    requires lo < mid < hi <= |leaves| && mid == lo + SplitPoint(hi - lo)
    ensures RangeJoinsIn(join, leaves, lo, hi, pairs) <==>
              && (TreeHash(join, leaves, lo, mid), TreeHash(join, leaves, mid, hi)) in pairs
              && RangeJoinsIn(join, leaves, lo, mid, pairs)
              && RangeJoinsIn(join, leaves, mid, hi, pairs)
  {
    hide TreeHash, SplitPoint;
  }

  lemma {:induction false} JoinsInOfPair<T>(join: Join<T>, layer: seq<T>, lo: nat, hi: nat, a: nat, pairs: set<(T, T)>)
    requires Covers(layer, lo, hi, a, a + 1) && LayerJoinsIn(layer, pairs)
    ensures RangeJoinsIn(join, layer, lo, hi, pairs)
  {
    if hi == lo + 2 {
      assert (layer[2 * a], layer[2 * a + 1]) in pairs;
      JoinsInUnfold(join, layer, lo, lo + 1, hi, pairs);
    }
  }

  lemma {:induction false} JoinsInOneLayerUp<T>(
      join: Join<T>, layer: seq<T>, above: seq<T>, lo: nat, hi: nat, a: nat, b: nat, pairs: set<(T, T)>)
    requires IsStep(join, layer, above) && Covers(layer, lo, hi, a, b)
    requires LayerJoinsIn(layer, pairs)
    requires b <= |above| && RangeJoinsIn(join, above, a, b, pairs)
    ensures RangeJoinsIn(join, layer, lo, hi, pairs)
    decreases b - a
  {
    hide TreeHash, RangeJoinsIn, SplitPoint;
    if b == a + 1 {
      JoinsInOfPair(join, layer, lo, hi, a, pairs);
    } else {
      var mid, midUp := CoversSplit(layer, lo, hi, a, b);
      JoinsInUnfold(join, layer, lo, mid, hi, pairs);
      JoinsInUnfold(join, above, a, midUp, b, pairs);
      TreeHashOneLayerUp(join, layer, above, lo, mid, a, midUp);
      TreeHashOneLayerUp(join, layer, above, mid, hi, midUp, b);
      JoinsInOneLayerUp(join, layer, above, lo, mid, a, midUp, pairs);
      JoinsInOneLayerUp(join, layer, above, mid, hi, midUp, b, pairs);
    }
  }

  lemma {:induction false} JoinsInMonotone<T>(
      join: Join<T>, leaves: seq<T>, lo: nat, hi: nat, pairs: set<(T, T)>, more: set<(T, T)>)
    requires lo < hi <= |leaves| && RangeJoinsIn(join, leaves, lo, hi, pairs) && pairs <= more
    ensures RangeJoinsIn(join, leaves, lo, hi, more)
    decreases hi - lo
  {
    hide TreeHash;
    if hi > lo + 1 {
      var mid := lo + SplitPoint(hi - lo);
      JoinsInMonotone(join, leaves, lo, mid, pairs, more);
      JoinsInMonotone(join, leaves, mid, hi, pairs, more);
    }
  }

  // ---- From the leaves to the root ----

  lemma {:induction false} LayerNonEmpty<T>(join: Join<T>, layers: seq<seq<T>>, j: nat)
    requires IsLayering(join, layers) && j < |layers|
    ensures |layers[j]| > 0
    ensures |layers[j]| == 1 <==> j == |layers| - 1
  {
    assert j == |layers| - 1 || IsStep(join, layers[j], layers[j + 1]);
  }

  lemma {:induction false} RootFromLayer<T>(join: Join<T>, layers: seq<seq<T>>, j: nat)
    requires IsLayering(join, layers) && j < |layers|
    ensures layers[j] != [] && Root(layers) == TreeHash(join, layers[j], 0, |layers[j]|)
    decreases |layers| - j
  {
    LayerNonEmpty(join, layers, j);
    if j < |layers| - 1 {
      assert IsStep(join, layers[j], layers[j + 1]);
      RootFromLayer(join, layers, j + 1);
      TreeHashOneLayerUp(join, layers[j], layers[j + 1], 0, |layers[j]|, 0, |layers[j + 1]|);
    }
  }

  /** The root of the layers is the recursive tree hash of the leaves. */
  lemma {:induction false} RootIsTreeHash<T>(join: Join<T>, leaves: seq<T>)
    requires leaves != []
    ensures Root(Layers(join, leaves)) == TreeHash(join, leaves, 0, |leaves|)
  {
    LayersAreLayering(join, leaves);
    RootFromLayer(join, Layers(join, leaves), 0);
  }

  /** Each layer but the last lies, whole, under the whole of the next one. */
  lemma {:induction false} WholeLayer<T>(join: Join<T>, layers: seq<seq<T>>, j: nat)
    requires IsLayering(join, layers) && 0 < j < |layers|
    ensures IsStep(join, layers[j - 1], layers[j])
    ensures Covers(layers[j - 1], 0, |layers[j - 1]|, 0, |layers[j]|)
  {
    assert IsStep(join, layers[j - 1], layers[j - 1 + 1]);
  }

  lemma {:induction false} PathFromLayer<T>(join: Join<T>, layers: seq<seq<T>>, i: nat, j: nat)
    requires IsLayering(join, layers) && j < |layers| && i < |layers[0]|
    ensures Ancestor(i, j) < |layers[j]|
    ensures AuditPath(join, layers[0], 0, |layers[0]|, i)
         == ProofItems(layers, i, j) + AuditPath(join, layers[j], 0, |layers[j]|, Ancestor(i, j))
  {
    hide AuditPath, IsStep, Covers, PairElement, IsLayering;
    if j > 0 {
      var below, above, node := layers[j - 1], layers[j], Ancestor(i, j - 1);
      PathFromLayer(join, layers, i, j - 1);
      WholeLayer(join, layers, j);
      SiblingOf(below, node, node / 2);
      AuditPathOneLayerUp(join, below, above, 0, |below|, 0, |above|, node, node / 2);
      ConcatAssoc(ProofItems(layers, i, j - 1), Items(PairElement(node, below)),
                  AuditPath(join, above, 0, |above|, node / 2));
    }
  }

  lemma {:induction false} LastLayer<T>(join: Join<T>, layers: seq<seq<T>>, i: nat)
    requires IsLayering(join, layers) && i < |layers[0]|
    ensures AuditPath(join, layers[0], 0, |layers[0]|, i) == ProofItems(layers, i, |layers| - 1)
    ensures ProofItems(layers, i, |layers| - 1) == Proof(layers, i)
  {
    var top := |layers| - 1;
    PathFromLayer(join, layers, i, top);
  }

  /** The proof read off the layers is the recursive audit path. */
  lemma {:induction false} ProofIsAuditPath<T>(join: Join<T>, leaves: seq<T>, i: nat)
    requires i < |leaves|
    ensures Proof(Layers(join, leaves), i) == AuditPath(join, leaves, 0, |leaves|, i)
  {
    LayersAreLayering(join, leaves);
    LastLayer(join, Layers(join, leaves), i);
  }

  lemma {:induction false} JoinsInFromLayer<T>(join: Join<T>, layers: seq<seq<T>>, j: nat, pairs: set<(T, T)>)
    requires IsLayering(join, layers) && j < |layers|
    requires forall k | 0 <= k < |layers| :: LayerJoinsIn(layers[k], pairs)
    ensures layers[j] != [] && RangeJoinsIn(join, layers[j], 0, |layers[j]|, pairs)
    decreases |layers| - j
  {
    LayerNonEmpty(join, layers, j);
    if j < |layers| - 1 {
      LayerNonEmpty(join, layers, j + 1);
      JoinsInFromLayer(join, layers, j + 1, pairs);
      WholeLayer(join, layers, j + 1);
      JoinsInOneLayerUp(join, layers[j], layers[j + 1], 0, |layers[j]|, 0, |layers[j + 1]|, pairs);
    }
  }

  /** Every pair the recursive tree joins is joined by the layered build. */
  lemma {:induction false} JoinsAreBuilt<T>(join: Join<T>, leaves: seq<T>, pairs: set<(T, T)>)
    requires leaves != [] && BuildPairs(Layers(join, leaves)) <= pairs
    ensures RangeJoinsIn(join, leaves, 0, |leaves|, pairs)
  {
    var layers := Layers(join, leaves);
    LayersAreLayering(join, leaves);
    forall k | 0 <= k < |layers| ensures LayerJoinsIn(layers[k], pairs) {
      forall i | 0 <= i && 2 * i + 1 < |layers[k]| ensures (layers[k][2 * i], layers[k][2 * i + 1]) in pairs {
        assert 0 <= i < |layers[k]| / 2;
        assert (layers[k][2 * i], layers[k][2 * i + 1]) in BuildPairs(layers);
      }
    }
    JoinsInFromLayer(join, layers, 0, pairs);
  }

  // ---- The split laws, for the layered build itself ----

  lemma {:induction false} SlicesSplit<T>(c: seq<T>, lo: nat, hi: nat, d: seq<T>, from: nat, to: nat, k: nat)
    requires lo <= hi <= |c| && from <= to <= |d| && k <= hi - lo
    requires c[lo..hi] == d[from..to]
    ensures to - from == hi - lo
    ensures c[lo..lo + k] == d[from..from + k] && c[lo + k..hi] == d[from + k..to]
  {
    assert c[lo..lo + k] == c[lo..hi][..k] && c[lo + k..hi] == c[lo..hi][k..];
    assert d[from..from + k] == d[from..to][..k] && d[from + k..to] == d[from..to][k..];
  }

  /** Only the leaves in range matter. */
  lemma {:induction false} TreeHashShift<T>(join: Join<T>, c: seq<T>, lo: nat, hi: nat, d: seq<T>, from: nat)
    requires lo < hi <= |c| && from + (hi - lo) <= |d|
    requires c[lo..hi] == d[from..from + (hi - lo)]
    ensures TreeHash(join, c, lo, hi) == TreeHash(join, d, from, from + (hi - lo))
    decreases hi - lo
  {
    hide TreeHash, SplitPoint;
    var to := from + (hi - lo);
    if hi == lo + 1 {
      TreeHashOfOne(join, c, lo);
      TreeHashOfOne(join, d, from);
      assert c[lo] == c[lo..hi][0] == d[from..to][0] == d[from];
    } else {
      var k := SplitPoint(hi - lo);
      SlicesSplit(c, lo, hi, d, from, to, k);
      TreeHashShift(join, c, lo, lo + k, d, from);
      TreeHashShift(join, c, lo + k, hi, d, from + k);
      TreeHashUnfold(join, c, lo, lo + k, hi);
      TreeHashUnfold(join, d, from, from + k, to);
    }
  }

  lemma {:induction false} AuditPathShift<T>(
      join: Join<T>, c: seq<T>, lo: nat, hi: nat, d: seq<T>, from: nat, i: nat)
    requires lo <= i < hi <= |c| && from + (hi - lo) <= |d|
    requires c[lo..hi] == d[from..from + (hi - lo)]
    ensures AuditPath(join, c, lo, hi, i) == AuditPath(join, d, from, from + (hi - lo), from + (i - lo))
    decreases hi - lo
  {
    hide TreeHash, SplitPoint, AuditPath;
    var to := from + (hi - lo);
    if hi == lo + 1 {
      AuditPathOfOne(join, c, lo);
      AuditPathOfOne(join, d, from);
    } else {
      var k := SplitPoint(hi - lo);
      SlicesSplit(c, lo, hi, d, from, to, k);
      AuditPathUnfold(join, c, lo, lo + k, hi, i);
      AuditPathUnfold(join, d, from, from + k, to, from + (i - lo));
      if i < lo + k {
        AuditPathShift(join, c, lo, lo + k, d, from, i);
        TreeHashShift(join, c, lo + k, hi, d, from + k);
      } else {
        AuditPathShift(join, c, lo + k, hi, d, from + k, i);
        TreeHashShift(join, c, lo, lo + k, d, from);
      }
    }
  }

  function LayeredRoot<T>(join: Join<T>, leaves: seq<T>): T
    requires leaves != []
  {
    Root(Layers(join, leaves))
  }

  function LayeredProof<T>(join: Join<T>, leaves: seq<T>, i: nat): seq<T>
    requires i < |leaves|
  {
    Proof(Layers(join, leaves), i)
  }

  /** The layered root of a stretch of leaves is a tree hash within the whole list. */
  lemma {:induction false} PartRoot<T>(join: Join<T>, leaves: seq<T>, lo: nat, hi: nat, part: seq<T>)
    requires lo < hi <= |leaves| && part == leaves[lo..hi]
    ensures LayeredRoot(join, part) == TreeHash(join, leaves, lo, hi)
  {
    hide TreeHash, Layers, Root;
    RootIsTreeHash(join, part);
    assert part[0..|part|] == leaves[lo..lo + |part|];
    TreeHashShift(join, part, 0, |part|, leaves, lo);
  }

  /** Its layered proof is an audit path within the whole list. */
  lemma {:induction false} PartProof<T>(join: Join<T>, leaves: seq<T>, lo: nat, hi: nat, part: seq<T>, i: nat)
    requires lo <= i < hi <= |leaves| && part == leaves[lo..hi]
    ensures LayeredProof(join, part, i - lo) == AuditPath(join, leaves, lo, hi, i)
  {
    hide AuditPath, Layers, Proof;
    ProofIsAuditPath(join, part, i - lo);
    assert part[0..|part|] == leaves[lo..lo + |part|];
    AuditPathShift(join, part, 0, |part|, leaves, lo, i - lo);
  }

  /** The layered root joins the root of the first k leaves with the root of the rest. */
  lemma {:induction false} RootSplits<T>(join: Join<T>, leaves: seq<T>)
    requires |leaves| > 1
    ensures var k := SplitPoint(|leaves|);
            LayeredRoot(join, leaves) == join(LayeredRoot(join, leaves[..k]), LayeredRoot(join, leaves[k..]))
  {
    hide TreeHash, LayeredRoot, LayeredProof, AuditPath, SplitPoint;
    var k, n := SplitPoint(|leaves|), |leaves|;
    PartRoot(join, leaves, 0, n, leaves);
    PartRoot(join, leaves, 0, k, leaves[..k]);
    PartRoot(join, leaves, k, n, leaves[k..]);
    TreeHashUnfold(join, leaves, 0, k, n);
  }

  /** The layered proof is the proof within its own side, then the root of the other side. */
  lemma {:induction false} ProofSplits<T>(join: Join<T>, leaves: seq<T>, i: nat)
    requires i < |leaves| && |leaves| > 1
    ensures var k := SplitPoint(|leaves|);
            LayeredProof(join, leaves, i)
            == if i < k
               then LayeredProof(join, leaves[..k], i) + [LayeredRoot(join, leaves[k..])]
               else LayeredProof(join, leaves[k..], i - k) + [LayeredRoot(join, leaves[..k])]
  {
    hide TreeHash, LayeredRoot, LayeredProof, AuditPath, SplitPoint;
    var k, n := SplitPoint(|leaves|), |leaves|;
    PartProof(join, leaves, 0, n, leaves, i);
    AuditPathUnfold(join, leaves, 0, k, n, i);
    if i < k {
      PartProof(join, leaves, 0, k, leaves[..k], i);
      PartRoot(join, leaves, k, n, leaves[k..]);
    } else {
      PartProof(join, leaves, k, n, leaves[k..], i);
      PartRoot(join, leaves, 0, k, leaves[..k]);
    }
  }

  // ---- Sizes ----

  function CeilDiv(n: nat, d: nat): nat
    requires d > 0
  {
    (n + d - 1) / d
  }

  lemma {:induction false} CancelFactor(d: nat, a: int, b: int)
    requires d * a < d * b
    ensures a < b
  {
  }

  lemma {:induction false} DivUnique(a: nat, d: nat, q: nat)
    requires d > 0 && d * q <= a < d * q + d
    ensures a / d == q
  {
    var r := a / d;
    assert d * r <= a < d * r + d;
    assert d * (r + 1) == d * r + d && d * (q + 1) == d * q + d;
    CancelFactor(d, r, q + 1);
    CancelFactor(d, q, r + 1);
  }

  lemma {:induction false} DivTwice(n: nat, half: nat, whole: nat)
    requires 0 < half && whole == 2 * half
    ensures n / whole == (n / half) / 2
  {
    var q, r := n / half, (n / half) / 2;
    assert half * q <= n < half * q + half;
    assert 2 * r <= q <= 2 * r + 1;
    assert half * (2 * r) == whole * r;
    assert q == 2 * r || half * q == whole * r + half;
    DivUnique(n, whole, r);
  }

  lemma {:induction false} CeilDivIsSucc(n: nat, d: nat)
    requires n > 0 && d > 0
    ensures CeilDiv(n, d) == (n - 1) / d + 1
  {
    var q := (n - 1) / d;
    assert d * q <= n - 1 < d * q + d;
    assert d * (q + 1) == d * q + d;
    DivUnique(n + d - 1, d, q + 1);
  }

  lemma {:induction false} CeilDivTwice(n: nat, half: nat, whole: nat)
    requires 0 < half && whole == 2 * half
    ensures CeilDiv(n, whole) == (CeilDiv(n, half) + 1) / 2
  {
    if n == 0 {
      DivUnique(whole - 1, whole, 0);
      DivUnique(half - 1, half, 0);
    } else {
      CeilDivIsSucc(n, half);
      CeilDivIsSucc(n, whole);
      DivTwice(n - 1, half, whole);
    }
  }

  lemma {:induction false} LayerLength<T>(join: Join<T>, layers: seq<seq<T>>, j: nat, width: nat)
    requires IsLayering(join, layers) && j < |layers| && width == Pow2(j)
    ensures |layers[j]| == CeilDiv(|layers[0]|, width)
  {
    if j == 0 {
      DivUnique(|layers[0]|, 1, |layers[0]|);
    } else {
      LayerLength(join, layers, j - 1, Pow2(j - 1));
      assert IsStep(join, layers[j - 1], layers[j - 1 + 1]);
      CeilDivTwice(|layers[0]|, Pow2(j - 1), width);
    }
  }

  /** Layer j has exactly ceil(n / 2^j) nodes. */
  lemma {:induction false} LayerLengths<T>(join: Join<T>, leaves: seq<T>, j: nat)
    requires leaves != [] && j < |Layers(join, leaves)|
    ensures |Layers(join, leaves)[j]| == CeilDiv(|leaves|, Pow2(j))
  {
    LayersAreLayering(join, leaves);
    LayerLength(join, Layers(join, leaves), j, Pow2(j));
  }

  lemma {:induction false} CeilDivIsOne(n: nat, d: nat)
    requires n > 0 && d > 0
    ensures CeilDiv(n, d) == 1 <==> n <= d
  {
    CeilDivIsSucc(n, d);
    var q := (n - 1) / d;
    assert d * q <= n - 1 < d * q + d;
    if n <= d {
      DivUnique(n - 1, d, 0);
    }
  }

  /** There are ceil(log2 n) + 1 layers. */
  lemma {:induction false} LayerCount<T>(join: Join<T>, leaves: seq<T>)
    requires leaves != []
    ensures var height := |Layers(join, leaves)| - 1;
            |leaves| <= Pow2(height) && (height > 0 ==> Pow2(height - 1) < |leaves|)
  {
    var layers := Layers(join, leaves);
    LayersAreLayering(join, leaves);
    var height := |layers| - 1;
    LayerLengths(join, leaves, height);
    CeilDivIsOne(|leaves|, Pow2(height));
    if height > 0 {
      LayerNonEmpty(join, layers, height - 1);
      LayerLengths(join, leaves, height - 1);
      CeilDivIsOne(|leaves|, Pow2(height - 1));
    }
  }

  lemma {:induction false} ProofItemsBound<T>(layers: seq<seq<T>>, i: nat, j: nat)
    requires j <= |layers|
    ensures |ProofItems(layers, i, j)| <= j
  {
    if j > 0 {
      ProofItemsBound(layers, i, j - 1);
    }
  }

  /** A proof has at most as many items as the tree is high: the root's own layer adds none. */
  lemma {:induction false} ProofLength<T>(join: Join<T>, leaves: seq<T>, i: nat)
    requires i < |leaves|
    ensures |Proof(Layers(join, leaves), i)| < |Layers(join, leaves)|
  {
    hide AuditPath;
    var layers := Layers(join, leaves);
    LayersAreLayering(join, leaves);
    ProofItemsBound(layers, i, |layers| - 1);
    LastLayer(join, layers, i);
  }

  lemma {:induction false} AncestorIsQuotient(i: nat, j: nat, width: nat)
    requires width == Pow2(j)
    ensures Ancestor(i, j) == i / width
  {
    if j > 0 {
      AncestorIsQuotient(i, j - 1, Pow2(j - 1));
      DivTwice(i, Pow2(j - 1), width);
    }
  }

  // ---- Completeness ----

  lemma {:induction false} StepUp<T(!new)>(join: Join<T>, layer: seq<T>, above: seq<T>, node: T, proof: seq<T>, i: nat)
    requires Commutative(join) && IsStep(join, layer, above)
    requires i < |layer| && FoldProof(join, node, proof) == layer[i]
    ensures i / 2 < |above|
    ensures FoldProof(join, node, proof + Items(PairElement(i, layer))) == above[i / 2]
  {
    var pair := PairElement(i, layer);
    if pair.None? {
      assert proof + Items(pair) == proof;
    } else {
      FoldAppend(join, node, proof, pair.value);
    }
  }

  lemma {:induction false} RunningNode<T(!new)>(join: Join<T>, layers: seq<seq<T>>, i: nat, j: nat)
    requires Commutative(join)
    requires IsLayering(join, layers) && j < |layers| && i < |layers[0]|
    ensures Ancestor(i, j) < |layers[j]|
    ensures FoldProof(join, layers[0][i], ProofItems(layers, i, j)) == layers[j][Ancestor(i, j)]
  {
    if j > 0 {
      RunningNode(join, layers, i, j - 1);
      assert IsStep(join, layers[j - 1], layers[j - 1 + 1]);
      StepUp(join, layers[j - 1], layers[j], layers[0][i], ProofItems(layers, i, j - 1), Ancestor(i, j - 1));
    }
  }

  /**
    The items contributed by layers 0..j-1 carry leaf i to node i / 2^j of layer j, through
    promoted odd nodes as well, and that node exists.
   */
  lemma {:induction false} RunningHash<T(!new)>(join: Join<T>, leaves: seq<T>, i: nat, j: nat, node: nat)
    requires Commutative(join)
    requires i < |leaves| && j < |Layers(join, leaves)|
    requires node == i / Pow2(j)
    ensures var layers := Layers(join, leaves);
            && node < |layers[j]|
            && FoldProof(join, leaves[i], ProofItems(layers, i, j)) == layers[j][node]
  {
    LayersAreLayering(join, leaves);
    RunningNode(join, Layers(join, leaves), i, j);
    AncestorIsQuotient(i, j, Pow2(j));
  }

  /** Folding the proof of leaf i over leaf i gives the root. */
  lemma {:induction false} ProofReachesRoot<T(!new)>(join: Join<T>, leaves: seq<T>, i: nat)
    requires Commutative(join)
    requires i < |leaves|
    ensures var layers := Layers(join, leaves);
            FoldProof(join, leaves[i], Proof(layers, i)) == Root(layers)
  {
    hide AuditPath, FoldProof;
    var layers := Layers(join, leaves);
    LayersAreLayering(join, leaves);
    RunningNode(join, layers, i, |layers| - 1);
    LastLayer(join, layers, i);
  }
}
