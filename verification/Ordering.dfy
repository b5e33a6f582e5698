/**
  Sorting and adjacent deduplication under a total order.

  `Array.prototype.sort` belongs to the JavaScript engine, so it is modelled by its result.
  `StrictlySortedUnique` shows that nothing hangs on the insertion sort chosen here: a strictly
  increasing list is fixed by its set of members.
 */
module Ordering {
  ghost predicate TotalOrder<T(!new)>(leq: (T, T) -> bool) {
    && (forall a, b :: leq(a, b) || leq(b, a))
    && (forall a, b :: leq(a, b) && leq(b, a) ==> a == b)
    && (forall a, b, c :: leq(a, b) && leq(b, c) ==> leq(a, c))
  }

  ghost predicate StrictTotalOrder<T(!new)>(lt: (T, T) -> bool) {
    && (forall a, b :: lt(a, b) ==> !lt(b, a))
    && (forall a, b :: a != b ==> lt(a, b) || lt(b, a))
    && (forall a, b, c :: lt(a, b) && lt(b, c) ==> lt(a, c))
  }

  ghost predicate Sorted<T(!new)>(leq: (T, T) -> bool, s: seq<T>) {
    forall i, j | 0 <= i < j < |s| :: leq(s[i], s[j])
  }

  ghost predicate StrictlySorted<T(!new)>(leq: (T, T) -> bool, s: seq<T>) {
    forall i, j | 0 <= i < j < |s| :: leq(s[i], s[j]) && s[i] != s[j]
  }

  ghost predicate SameMembers<T(!new)>(a: seq<T>, b: seq<T>) {
    forall x :: x in a <==> x in b
  }

  /** Lexicographic order; a proper prefix comes first. */
  predicate LexLeq<T(==)>(lt: (T, T) -> bool, a: seq<T>, b: seq<T>) {
    a == [] || (b != [] && if a[0] == b[0] then LexLeq(lt, a[1..], b[1..]) else lt(a[0], b[0]))
  }

  /** Equal before position k, different at it. */
  predicate DifferFirstAt<T(==)>(a: seq<T>, b: seq<T>, k: nat) {
    k < |a| && k < |b| && a[..k] == b[..k] && a[k] != b[k]
  }

  ghost predicate LessWhereDifferent<T>(lt: (T, T) -> bool, a: seq<T>, b: seq<T>) {
    exists k: nat :: DifferFirstAt(a, b, k) && lt(a[k], b[k])
  }

  lemma {:induction false} LessShift<T>(lt: (T, T) -> bool, a: seq<T>, b: seq<T>)
    requires a != [] && b != [] && a[0] == b[0]
    ensures LessWhereDifferent(lt, a, b) <==> LessWhereDifferent(lt, a[1..], b[1..])
  {
    if k: nat :| DifferFirstAt(a, b, k) && lt(a[k], b[k]) {
      assert a[1..][..k - 1] == a[..k][1..] && b[1..][..k - 1] == b[..k][1..];
      assert DifferFirstAt(a[1..], b[1..], k - 1);
    }
    if k: nat :| DifferFirstAt(a[1..], b[1..], k) && lt(a[1..][k], b[1..][k]) {
      assert a[..k + 1] == [a[0]] + a[1..][..k] && b[..k + 1] == [b[0]] + b[1..][..k];
      assert DifferFirstAt(a, b, k + 1);
    }
  }

  /** Lexicographic order: a prefix comes first, and otherwise the first difference decides. */
  lemma {:induction false} LexExact<T>(lt: (T, T) -> bool, a: seq<T>, b: seq<T>)
    ensures LexLeq(lt, a, b) <==> a <= b || LessWhereDifferent(lt, a, b)
  {
    if a != [] && b != [] {
      if a[0] == b[0] {
        LexExact(lt, a[1..], b[1..]);
        assert a == [a[0]] + a[1..] && b == [b[0]] + b[1..];
        LessShift(lt, a, b);
      } else {
        assert DifferFirstAt(a, b, 0);
      }
    }
  }

  lemma {:induction false} LexTotal<T(!new)>(lt: (T, T) -> bool, a: seq<T>, b: seq<T>)
    requires StrictTotalOrder(lt)
    ensures LexLeq(lt, a, b) || LexLeq(lt, b, a)
    ensures LexLeq(lt, a, b) && LexLeq(lt, b, a) ==> a == b
  {
    if a != [] && b != [] && a[0] == b[0] {
      LexTotal(lt, a[1..], b[1..]);
      assert a == [a[0]] + a[1..] && b == [b[0]] + b[1..];
    }
  }

  lemma {:induction false} LexTransitive<T(!new)>(lt: (T, T) -> bool, a: seq<T>, b: seq<T>, c: seq<T>)
    requires StrictTotalOrder(lt)
    requires LexLeq(lt, a, b) && LexLeq(lt, b, c)
    ensures LexLeq(lt, a, c)
  {
    if a != [] && a[0] == b[0] && b[0] == c[0] {
      LexTransitive(lt, a[1..], b[1..], c[1..]);
    }
  }

  /** Lexicographic order by a strict total order on the elements is a total order on lists. */
  lemma {:induction false} LexOrder<T(!new)>(lt: (T, T) -> bool, leq: (seq<T>, seq<T>) -> bool)
    requires StrictTotalOrder(lt) && forall a, b :: leq(a, b) <==> LexLeq(lt, a, b)
    ensures TotalOrder(leq)
  {
    hide LexLeq, StrictTotalOrder;
    forall a, b ensures leq(a, b) || leq(b, a) ensures leq(a, b) && leq(b, a) ==> a == b {
      LexTotal(lt, a, b);
    }
    forall a, b, c | leq(a, b) && leq(b, c) ensures leq(a, c) {
      LexTransitive(lt, a, b, c);
    }
  }

  function Insert<T>(leq: (T, T) -> bool, x: T, s: seq<T>): (r: seq<T>)
    ensures |r| == |s| + 1
  {
    if s == [] || leq(x, s[0]) then [x] + s else [s[0]] + Insert(leq, x, s[1..])
  }

  function Sort<T>(leq: (T, T) -> bool, s: seq<T>): (r: seq<T>)
    ensures |r| == |s|
  {
    if s == [] then [] else Insert(leq, s[0], Sort(leq, s[1..]))
  }

  lemma {:induction false} InsertPermutes<T>(leq: (T, T) -> bool, x: T, s: seq<T>)
    ensures multiset(Insert(leq, x, s)) == multiset([x] + s)
  {
    if s != [] && !leq(x, s[0]) {
      InsertPermutes(leq, x, s[1..]);
      assert s == [s[0]] + s[1..];
    }
  }

  lemma {:induction false} SortPermutes<T>(leq: (T, T) -> bool, s: seq<T>)
    ensures multiset(Sort(leq, s)) == multiset(s)
  {
    if s != [] {
      SortPermutes(leq, s[1..]);
      InsertPermutes(leq, s[0], Sort(leq, s[1..]));
      assert s == [s[0]] + s[1..];
    }
  }

  lemma {:induction false} MultisetMembers<T>(a: seq<T>, b: seq<T>)
    requires multiset(a) == multiset(b)
    ensures |a| == |b|
    ensures forall x :: x in a <==> x in b
  {
    assert |multiset(a)| == |a| && |multiset(b)| == |b|;
    forall x ensures x in a <==> x in b {
      assert x in a <==> x in multiset(a);
      assert x in b <==> x in multiset(b);
    }
  }

  lemma {:induction false} InsertSorted<T(!new)>(leq: (T, T) -> bool, x: T, s: seq<T>)
    requires TotalOrder(leq) && Sorted(leq, s)
    ensures Sorted(leq, Insert(leq, x, s))
  {
    if s != [] && !leq(x, s[0]) {
      InsertSorted(leq, x, s[1..]);
      var r := Insert(leq, x, s[1..]);
      InsertPermutes(leq, x, s[1..]);
      MultisetMembers(r, [x] + s[1..]);
      forall y | y in r ensures leq(s[0], y) {
        assert y in [x] + s[1..];
      }
    }
  }

  lemma {:induction false} SortSorted<T(!new)>(leq: (T, T) -> bool, s: seq<T>)
    requires TotalOrder(leq)
    ensures Sorted(leq, Sort(leq, s))
    ensures SameMembers(Sort(leq, s), s) && |Sort(leq, s)| == |s|
  {
    SortPermutes(leq, s);
    MultisetMembers(Sort(leq, s), s);
    if s != [] {
      SortSorted(leq, s[1..]);
      InsertSorted(leq, s[0], Sort(leq, s[1..]));
    }
  }

  /** Keeps an element when it is the first or differs from the one just before it. */
  function Dedup<T(==)>(s: seq<T>): (r: seq<T>)
    ensures |r| <= |s|
    ensures r == [] <==> s == []
  {
    if s == [] then
      []
    else
      var kept, last := Dedup(s[..|s| - 1]), s[|s| - 1];
      if |s| == 1 || s[|s| - 2] != last then kept + [last] else kept
  }

  lemma {:induction false} StrictlySortedAppend<T(!new)>(leq: (T, T) -> bool, s: seq<T>, x: T)
    requires TotalOrder(leq) && StrictlySorted(leq, s) && s != []
    requires leq(s[|s| - 1], x) && s[|s| - 1] != x
    ensures StrictlySorted(leq, s + [x])
  {
    var last := s[|s| - 1];
    forall i | 0 <= i < |s| ensures leq(s[i], x) && s[i] != x {
      assert i == |s| - 1 || leq(s[i], last);
    }
  }

  lemma {:induction false} DedupSorted<T(!new)>(leq: (T, T) -> bool, s: seq<T>)
    requires TotalOrder(leq) && Sorted(leq, s)
    ensures StrictlySorted(leq, Dedup(s))
    ensures SameMembers(Dedup(s), s)
    ensures s != [] ==> Dedup(s)[|Dedup(s)| - 1] == s[|s| - 1]
  {
    hide TotalOrder;
    if s != [] {
      var init, last := s[..|s| - 1], s[|s| - 1];
      DedupSorted(leq, init);
      assert s == init + [last];
      if |s| > 1 && s[|s| - 2] != last {
        StrictlySortedAppend(leq, Dedup(init), last);
      }
    }
  }

  /** A strictly increasing list is determined by its set of members. */
  lemma {:induction false} StrictlySortedUnique<T(!new)>(leq: (T, T) -> bool, a: seq<T>, b: seq<T>)
    requires TotalOrder(leq)
    requires StrictlySorted(leq, a) && StrictlySorted(leq, b)
    requires SameMembers(a, b)
    ensures a == b
  {
    assert b == [] || b[0] in a;
    if a != [] {
      assert a[0] in b;
      assert leq(a[0], b[0]) && leq(b[0], a[0]);
      forall x ensures x in a[1..] <==> x in b[1..] {
        assert x in a <==> x in b;
        assert a == [a[0]] + a[1..] && b == [b[0]] + b[1..];
        assert a[0] !in a[1..] && b[0] !in b[1..];
      }
      StrictlySortedUnique(leq, a[1..], b[1..]);
    }
  }

  /** Sorting, then deduplicating: strictly increasing, with the same members. */
  lemma {:induction false} CanonicalListMembers<T(!new)>(leq: (T, T) -> bool, a: seq<T>)
    requires TotalOrder(leq)
    ensures StrictlySorted(leq, Dedup(Sort(leq, a)))
    ensures SameMembers(Dedup(Sort(leq, a)), a)
  {
    SortSorted(leq, a);
    DedupSorted(leq, Sort(leq, a));
  }

  ghost predicate Distinct<T>(s: seq<T>) {
    forall i, j | 0 <= i < j < |s| :: s[i] != s[j]
  }

  /** A list has as many members as positions exactly when nothing repeats. */
  lemma {:induction false} DistinctIffFull<T>(s: seq<T>)
    ensures Distinct(s) <==> |set x | x in s| == |s|
    ensures |set x | x in s| <= |s|
  {
    if s != [] {
      var init, last := s[..|s| - 1], s[|s| - 1];
      DistinctIffFull(init);
      assert s == init + [last];
      var members := set x | x in init;
      assert (set x | x in s) == members + {last};
      if last in init {
        assert members + {last} == members;
        var i :| 0 <= i < |init| && init[i] == last;
        assert s[i] == s[|s| - 1];
      } else {
        assert Distinct(s) <==> Distinct(init) by {
          assert forall i | 0 <= i < |init| :: s[i] == init[i] && init[i] != last;
        }
      }
    }
  }
}
