/**
  What a root commits to, as long as joining is injective up to a swap on the pairs actually joined
  and no leaf is itself a join of such a pair.
 */
module TreeBinding {
  import opened Ordering
  import opened LayeredTree
  import opened TreeShape

  /** A join shared by the two sets of pairs determines its two sides, though not which was which. */
  ghost predicate BindsPairs<T>(join: Join<T>, folded: set<(T, T)>, pairs: set<(T, T)>) {
    forall p, q | p in folded && q in pairs && join(p.0, p.1) == join(q.0, q.1) ::
      p == q || p == (q.1, q.0)
  }

  ghost predicate NotJoined<T>(join: Join<T>, pairs: set<(T, T)>, value: T) {
    forall p | p in pairs :: join(p.0, p.1) != value
  }

  ghost predicate LeavesNotJoined<T>(join: Join<T>, pairs: set<(T, T)>, leaves: seq<T>) {
    forall i | 0 <= i < |leaves| :: NotJoined(join, pairs, leaves[i])
  }

  /** The last fold step, and the pair it joins. */
  lemma {:induction false} FoldLast<T>(
      join: Join<T>, node: T, proof: seq<T>, folded: set<(T, T)>) returns (init: seq<T>, last: T)
    requires proof != [] && FoldPairs(join, node, proof) <= folded
    ensures proof == init + [last]
    ensures FoldProof(join, node, proof) == join(FoldProof(join, node, init), last)
    ensures (FoldProof(join, node, init), last) in folded
    ensures FoldPairs(join, node, init) <= folded
  {
    var n := |proof| - 1;
    init, last := proof[..n], proof[n];
    assert (FoldProof(join, node, proof[..n]), proof[n]) in FoldPairs(join, node, proof);
    forall p | p in FoldPairs(join, node, init) ensures p in folded {
      var i :| 0 <= i < |init| && p == (FoldProof(join, node, init[..i]), init[i]);
      assert init[..i] == proof[..i];
      assert (FoldProof(join, node, proof[..i]), proof[i]) in FoldPairs(join, node, proof);
    }
  }

  /** A tree over more than one leaf is a join of a known pair. */
  lemma {:induction false} RangeLast<T>(
      join: Join<T>, leaves: seq<T>, lo: nat, hi: nat, pairs: set<(T, T)>) returns (mid: nat)
    requires lo < hi <= |leaves| && lo + 1 < hi && RangeJoinsIn(join, leaves, lo, hi, pairs)
    ensures mid == lo + SplitPoint(hi - lo) && lo < mid < hi
    ensures TreeHash(join, leaves, lo, hi)
         == join(TreeHash(join, leaves, lo, mid), TreeHash(join, leaves, mid, hi))
    ensures (TreeHash(join, leaves, lo, mid), TreeHash(join, leaves, mid, hi)) in pairs
    ensures RangeJoinsIn(join, leaves, lo, mid, pairs) && RangeJoinsIn(join, leaves, mid, hi, pairs)
  {
    hide TreeHash, RangeJoinsIn;
    mid := lo + SplitPoint(hi - lo);
    TreeHashUnfold(join, leaves, lo, mid, hi);
    JoinsInUnfold(join, leaves, lo, mid, hi, pairs);
  }

  /**
    Any item list that carries `value` to the root passes through a leaf: it first carries `value` to
    that leaf and goes on with exactly that leaf's audit path.
   */
  lemma {:induction false} OpenRoot<T>(
      join: Join<T>, leaves: seq<T>, lo: nat, hi: nat, value: T, proof: seq<T>,
      pairs: set<(T, T)>, folded: set<(T, T)>) returns (i: nat, under: seq<T>)
    requires lo < hi <= |leaves|
    requires RangeJoinsIn(join, leaves, lo, hi, pairs) && FoldPairs(join, value, proof) <= folded
    requires BindsPairs(join, folded, pairs) && NotJoined(join, pairs, value)
    requires FoldProof(join, value, proof) == TreeHash(join, leaves, lo, hi)
    ensures lo <= i < hi && proof == under + AuditPath(join, leaves, lo, hi, i)
    ensures FoldProof(join, value, under) == leaves[i] && FoldPairs(join, value, under) <= folded
    decreases hi - lo
  {
    hide TreeHash, RangeJoinsIn, SplitPoint, AuditPath, FoldPairs;
    if hi == lo + 1 {
      i, under := lo, proof;
      TreeHashOfOne(join, leaves, lo);
      AuditPathOfOne(join, leaves, lo);
    } else {
      var mid := RangeLast(join, leaves, lo, hi, pairs);
      var left, right := TreeHash(join, leaves, lo, mid), TreeHash(join, leaves, mid, hi);
      assert join((left, right).0, (left, right).1) != value;
      var init, last := FoldLast(join, value, proof, folded);
      var node := FoldProof(join, value, init);
      assert join((node, last).0, (node, last).1) == join((left, right).0, (left, right).1);
      if node == left && last == right {
        i, under := OpenRoot(join, leaves, lo, mid, value, init, pairs, folded);
        ConcatAssoc(under, AuditPath(join, leaves, lo, mid, i), [last]);
      } else {
        i, under := OpenRoot(join, leaves, mid, hi, value, init, pairs, folded);
        ConcatAssoc(under, AuditPath(join, leaves, mid, hi, i), [last]);
      }
      AuditPathUnfold(join, leaves, lo, mid, hi, i);
    }
  }

  /** Two strictly increasing leaf lists with the same root are the same list. */
  lemma {:induction false} SameRootSameLeaves<T(!new)>(
      join: Join<T>, leq: (T, T) -> bool, c: seq<T>, lo: nat, hi: nat, d: seq<T>, from: nat, to: nat,
      pairs: set<(T, T)>)
    requires lo < hi <= |c| && from < to <= |d|
    requires TotalOrder(leq) && StrictlySorted(leq, c) && StrictlySorted(leq, d)
    requires RangeJoinsIn(join, c, lo, hi, pairs) && RangeJoinsIn(join, d, from, to, pairs)
    requires BindsPairs(join, pairs, pairs) && LeavesNotJoined(join, pairs, c) && LeavesNotJoined(join, pairs, d)
    requires TreeHash(join, c, lo, hi) == TreeHash(join, d, from, to)
    ensures c[lo..hi] == d[from..to]
    decreases hi - lo
  {
    hide TreeHash, RangeJoinsIn, SplitPoint;
    assert NotJoined(join, pairs, c[lo]) && NotJoined(join, pairs, d[from]);
    if hi == lo + 1 {
      TreeHashOfOne(join, c, lo);
      if to > from + 1 {
        var m := RangeLast(join, d, from, to, pairs);
        assert false;
      }
      TreeHashOfOne(join, d, from);
    } else if to == from + 1 {
      TreeHashOfOne(join, d, from);
      var m := RangeLast(join, c, lo, hi, pairs);
      assert false;
    } else {
      SameRootSplit(join, leq, c, lo, hi, d, from, to, pairs);
    }
  }

  lemma {:induction false} SameRootSplit<T(!new)>(
      join: Join<T>, leq: (T, T) -> bool, c: seq<T>, lo: nat, hi: nat, d: seq<T>, from: nat, to: nat,
      pairs: set<(T, T)>)
    requires lo + 1 < hi <= |c| && from + 1 < to <= |d|
    requires TotalOrder(leq) && StrictlySorted(leq, c) && StrictlySorted(leq, d)
    requires RangeJoinsIn(join, c, lo, hi, pairs) && RangeJoinsIn(join, d, from, to, pairs)
    requires BindsPairs(join, pairs, pairs) && LeavesNotJoined(join, pairs, c) && LeavesNotJoined(join, pairs, d)
    requires TreeHash(join, c, lo, hi) == TreeHash(join, d, from, to)
    ensures c[lo..hi] == d[from..to]
    decreases hi - lo, 0
  {
    hide TreeHash, RangeJoinsIn, SplitPoint;
    var m := RangeLast(join, c, lo, hi, pairs);
    var n := RangeLast(join, d, from, to, pairs);
    var p := (TreeHash(join, c, lo, m), TreeHash(join, c, m, hi));
    var q := (TreeHash(join, d, from, n), TreeHash(join, d, n, to));
    assert join(p.0, p.1) == join(q.0, q.1);
    assert c[lo..m][0] == c[lo] && c[m..hi][0] == c[m] && d[from..n][0] == d[from] && d[n..to][0] == d[n];
    assert leq(c[lo], c[m]) && c[lo] != c[m] && leq(d[from], d[n]);
    if p == q {
      SameRootSameLeaves(join, leq, c, lo, m, d, from, n, pairs);
      SameRootSameLeaves(join, leq, c, m, hi, d, n, to, pairs);
      assert c[lo..hi] == c[lo..m] + c[m..hi] && d[from..to] == d[from..n] + d[n..to];
    } else {
      // The sides are swapped: each list would then start below the other.
      SameRootSameLeaves(join, leq, c, lo, m, d, n, to, pairs);
      SameRootSameLeaves(join, leq, c, m, hi, d, from, n, pairs);
      assert false;
    }
  }
}
