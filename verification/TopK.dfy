/** Keeping the `k` greatest elements of a stream, in any arrival order. */
module TopK {
  import opened StableSort

  ghost predicate TotalOrder<T(!new)>(leq: (T, T) -> bool)
  {
    TotalPreorder(leq) && forall a, b :: leq(a, b) && leq(b, a) ==> a == b
  }

  /** `kept` are `k` of `all`, or all of them, and nothing left out is greater than anything kept. */
  ghost predicate IsTopK<T>(kept: multiset<T>, all: multiset<T>, k: nat, leq: (T, T) -> bool)
  {
    && kept <= all
    && |kept| == (if k < |all| then k else |all|)
    && forall x, y :: x in kept && y in all - kept ==> leq(y, x)
  }

  lemma TopKRoom<T>(kept: multiset<T>, all: multiset<T>, k: nat, leq: (T, T) -> bool, x: T)
    requires IsTopK(kept, all, k, leq) && |kept| < k
    ensures IsTopK(kept + multiset{x}, all + multiset{x}, k, leq)
  {
    assert |all - kept| == 0;
    assert all == kept + (all - kept);
  }

  /** With no room left, the new element replaces a least kept one if it is no smaller. */
  lemma TopKReplace<T(!new)>(kept: multiset<T>, all: multiset<T>, k: nat, leq: (T, T) -> bool, x: T, least: T)
    requires TotalPreorder(leq) && IsTopK(kept, all, k, leq) && |kept| == k
    requires least in kept && (forall y :: y in kept ==> leq(least, y)) && leq(least, x)
    ensures IsTopK(kept - multiset{least} + multiset{x}, all + multiset{x}, k, leq)
  {
    var kept', all' := kept - multiset{least} + multiset{x}, all + multiset{x};
    assert |kept - multiset{least}| == k - 1;
    assert all' - kept' == (all - kept) + multiset{least};
    forall a, b | a in kept' && b in all' - kept' ensures leq(b, a) {
      assert a in kept || a == x;
      assert b in all - kept || b == least;
      assert leq(b, least);
    }
  }

  lemma TopKIgnore<T>(kept: multiset<T>, all: multiset<T>, k: nat, leq: (T, T) -> bool, x: T)
    requires IsTopK(kept, all, k, leq) && |kept| == k
    requires forall y :: y in kept ==> leq(x, y)
    ensures IsTopK(kept, all + multiset{x}, k, leq)
  {
    assert (all + multiset{x}) - kept == (all - kept) + multiset{x};
  }

  lemma TopKUnique<T(!new)>(a: multiset<T>, b: multiset<T>, all: multiset<T>, k: nat, leq: (T, T) -> bool)
    requires TotalOrder(leq) && IsTopK(a, all, k, leq) && IsTopK(b, all, k, leq)
    ensures a == b
  {
    if a != b {
      var x := Surplus(a, b);
      var y := Surplus(b, a);
      NoExchange(a, b, all, k, leq, x, y);
    }
  }

  /** Two selections cannot each hold more of something than the other. */
  lemma NoExchange<T(!new)>(a: multiset<T>, b: multiset<T>, all: multiset<T>, k: nat, leq: (T, T) -> bool, x: T, y: T)
    requires TotalOrder(leq) && IsTopK(a, all, k, leq) && IsTopK(b, all, k, leq)
    requires a[x] > b[x]
    ensures b[y] <= a[y]
  {
    assert b[y] > a[y] ==> x in all - b && y in all - a;
    assert b[y] > a[y] ==> leq(x, y) && leq(y, x);
  }

  lemma Surplus<T>(a: multiset<T>, b: multiset<T>) returns (x: T)
    requires |a| == |b| && a != b
    ensures a[x] > b[x]
  {
    if forall x :: a[x] <= b[x] {
      NoSurplus(a, b);
    }
    x :| a[x] > b[x];
  }

  lemma NoSurplus<T>(a: multiset<T>, b: multiset<T>)
    requires |a| == |b| && a <= b
    ensures a == b
  {
    assert b == a + (b - a);
    assert |b - a| == 0;
  }

  // ---------- Agreement with sorting everything once ----------

  /** The last `k` of a sorted sequence, or all of it. */
  function Last<T>(s: seq<T>, k: nat): (r: seq<T>)
    ensures |r| == if k < |s| then k else |s|
  {
    if k < |s| then s[|s| - k..] else s
  }

  lemma LastIsTopK<T(!new)>(s: seq<T>, k: nat, leq: (T, T) -> bool)
    requires TotalPreorder(leq)
    ensures IsTopK(multiset(Last(Sort(s, leq), k)), multiset(s), k, leq)
  {
    var t := Sort(s, leq);
    SortMultiset(s, leq);
    SortSorted(s, leq);
    var cut := |t| - |Last(t, k)|;
    var front, back := t[..cut], t[cut..];
    assert Last(t, k) == back;
    assert t == front + back;
    assert multiset(t) - multiset(back) == multiset(front);
    forall x, y | x in multiset(back) && y in multiset(front) ensures leq(y, x) {
      assert x in back && y in front;
    }
  }

  /** Sorted sequences with the same elements are the same, when only equal elements tie. */
  lemma {:induction false} SortedUnique<T(!new)>(s: seq<T>, t: seq<T>, leq: (T, T) -> bool)
    requires TotalOrder(leq) && Sorted(s, leq) && Sorted(t, leq) && multiset(s) == multiset(t)
    ensures s == t
  {
    hide TotalOrder, TotalPreorder, Sorted;
    assert |multiset(s)| == |s| && |multiset(t)| == |t|;
    if s != [] {
      SameHead(s, t, leq);
      SortedTail(s, leq);
      SortedTail(t, leq);
      TailMultiset(s);
      TailMultiset(t);
      SortedUnique(s[1..], t[1..], leq);
      assert s == [s[0]] + s[1..] && t == [t[0]] + t[1..];
    }
  }

  lemma SameHead<T(!new)>(s: seq<T>, t: seq<T>, leq: (T, T) -> bool)
    requires TotalOrder(leq) && Sorted(s, leq) && Sorted(t, leq) && multiset(s) == multiset(t) && s != [] && t != []
    ensures s[0] == t[0]
  {
    assert s[0] in multiset(t) && t[0] in multiset(s);
    assert s[0] in t && t[0] in s;
    assert leq(s[0], t[0]) && leq(t[0], s[0]);
  }

  lemma SortedTail<T>(s: seq<T>, leq: (T, T) -> bool)
    requires Sorted(s, leq) && s != []
    ensures Sorted(s[1..], leq)
  {
  }

  lemma TailMultiset<T>(s: seq<T>)
    requires s != []
    ensures multiset(s[1..]) == multiset(s) - multiset{s[0]}
  {
    assert s == [s[0]] + s[1..];
  }

  /** A streamed selection, once sorted, is the tail of sorting everything once. */
  lemma StreamedEqualsSorted<T(!new)>(kept: seq<T>, all: seq<T>, k: nat, leq: (T, T) -> bool)
    requires TotalOrder(leq) && IsTopK(multiset(kept), multiset(all), k, leq)
    ensures Sort(kept, leq) == Last(Sort(all, leq), k)
  {
    LastIsTopK(all, k, leq);
    TopKUnique(multiset(kept), multiset(Last(Sort(all, leq), k)), multiset(all), k, leq);
    SortMultiset(kept, leq);
    SortSorted(kept, leq);
    SortSorted(all, leq);
    SortedUnique(Sort(kept, leq), Last(Sort(all, leq), k), leq);
  }
}
