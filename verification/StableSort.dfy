/**
 * Rust's `sort_by` as a function: the stable sort by a total preorder.  Sortedness and stability
 * determine the result, so nothing here depends on how the library sorts.
 */
module StableSort {
  import opened Seqs

  ghost predicate TotalPreorder<T(!new)>(leq: (T, T) -> bool)
  {
    && (forall a, b :: leq(a, b) || leq(b, a))
    && (forall a, b, c :: leq(a, b) && leq(b, c) ==> leq(a, c))
  }

  ghost predicate Sorted<T>(s: seq<T>, leq: (T, T) -> bool)
  {
    forall i, j :: 0 <= i < j < |s| ==> leq(s[i], s[j])
  }

  /** Equal as far as the order can tell. */
  predicate Ties<T>(a: T, b: T, leq: (T, T) -> bool) { leq(a, b) && leq(b, a) }

  /** Puts `x` behind the last element that is not greater. */
  function Insert<T>(s: seq<T>, x: T, leq: (T, T) -> bool): (r: seq<T>)
    ensures |r| == |s| + 1
  {
    if s == [] || leq(s[|s| - 1], x) then s + [x]
    else Insert(s[..|s| - 1], x, leq) + [s[|s| - 1]]
  }

  function Sort<T>(s: seq<T>, leq: (T, T) -> bool): (r: seq<T>)
    ensures |r| == |s|
  {
    if s == [] then [] else Insert(Sort(s[..|s| - 1], leq), s[|s| - 1], leq)
  }

  function Take<T>(s: seq<T>, k: nat): (r: seq<T>)
    ensures |r| == if k < |s| then k else |s|
  {
    if k < |s| then s[..k] else s
  }

  // ---------- What sorting does ----------

  lemma {:induction false} InsertMultiset<T>(s: seq<T>, x: T, leq: (T, T) -> bool)
    ensures multiset(Insert(s, x, leq)) == multiset(s) + multiset{x}
  {
    if s != [] && !leq(s[|s| - 1], x) {
      InsertMultiset(s[..|s| - 1], x, leq);
      assert s == s[..|s| - 1] + [s[|s| - 1]];
    }
  }

  lemma {:induction false} SortMultiset<T>(s: seq<T>, leq: (T, T) -> bool)
    ensures multiset(Sort(s, leq)) == multiset(s)
  {
    if s != [] {
      SortMultiset(s[..|s| - 1], leq);
      InsertMultiset(Sort(s[..|s| - 1], leq), s[|s| - 1], leq);
      assert s == s[..|s| - 1] + [s[|s| - 1]];
    }
  }

  lemma {:induction false} InsertSorted<T(!new)>(s: seq<T>, x: T, leq: (T, T) -> bool)
    requires TotalPreorder(leq) && Sorted(s, leq)
    ensures Sorted(Insert(s, x, leq), leq)
  {
    if s != [] {
      var last := s[|s| - 1];
      if leq(last, x) {
        assert forall i :: 0 <= i < |s| ==> leq(s[i], last);
      } else {
        InsertSorted(s[..|s| - 1], x, leq);
        InsertMultiset(s[..|s| - 1], x, leq);
        var front := Insert(s[..|s| - 1], x, leq);
        forall i | 0 <= i < |front| ensures leq(front[i], last) {
          assert front[i] in multiset(front);
          assert front[i] == x || front[i] in s[..|s| - 1];
        }
      }
    }
  }

  lemma {:induction false} SortSorted<T(!new)>(s: seq<T>, leq: (T, T) -> bool)
    requires TotalPreorder(leq)
    ensures Sorted(Sort(s, leq), leq)
  {
    if s != [] {
      SortSorted(s[..|s| - 1], leq);
      InsertSorted(Sort(s[..|s| - 1], leq), s[|s| - 1], leq);
    }
  }

  /** The elements that tie with `x`, in order. */
  function TiesOf<T>(s: seq<T>, x: T, leq: (T, T) -> bool): seq<T>
  {
    Filter(s, (y: T) => Ties(x, y, leq))
  }

  /** Every class of ties keeps its order. */
  ghost predicate SameTies<T(!new)>(s: seq<T>, t: seq<T>, leq: (T, T) -> bool)
  {
    forall x :: TiesOf(s, x, leq) == TiesOf(t, x, leq)
  }

  lemma {:induction false} InsertStable<T(!new)>(s: seq<T>, x: T, leq: (T, T) -> bool, z: T)
    requires TotalPreorder(leq) && Sorted(s, leq)
    ensures TiesOf(Insert(s, x, leq), z, leq) == TiesOf(s + [x], z, leq)
  {
    var p := (y: T) => Ties(z, y, leq);
    if s != [] && !leq(s[|s| - 1], x) {
      var front, last := s[..|s| - 1], s[|s| - 1];
      InsertStable(front, x, leq, z);
      FilterConcat(Insert(front, x, leq), [last], p);
      FilterConcat(front, [x], p);
      FilterConcat(s, [x], p);
      assert s == front + [last];
      FilterConcat(front, [last], p);
      assert !(p(x) && p(last));
      assert Filter([x], p) == (if p(x) then [x] else []) && Filter([last], p) == (if p(last) then [last] else []);
    }
  }

  lemma {:induction false} SortStable<T(!new)>(s: seq<T>, leq: (T, T) -> bool)
    requires TotalPreorder(leq)
    ensures SameTies(Sort(s, leq), s, leq)
  {
    if s != [] {
      var front, last := s[..|s| - 1], s[|s| - 1];
      SortStable(front, leq);
      SortSorted(front, leq);
      forall z ensures TiesOf(Sort(s, leq), z, leq) == TiesOf(s, z, leq) {
        var p := (y: T) => Ties(z, y, leq);
        InsertStable(Sort(front, leq), last, leq, z);
        FilterConcat(Sort(front, leq), [last], p);
        FilterConcat(front, [last], p);
        assert s == front + [last];
        assert TiesOf(Sort(front, leq), z, leq) == TiesOf(front, z, leq);
      }
    }
  }

  /** Two sorted sequences that order every class of ties alike are equal. */
  lemma {:induction false} StableSortIsUnique<T(!new)>(s: seq<T>, t: seq<T>, leq: (T, T) -> bool)
    requires TotalPreorder(leq) && Sorted(s, leq) && Sorted(t, leq) && SameTies(s, t, leq)
    ensures s == t
  {
    if s == [] {
      if t != [] {
        TieSurvives(t, leq, t[0]);
      }
    } else {
      TieSurvives(s, leq, s[0]);
      HeadsAgree(s, t, leq);
      forall z ensures TiesOf(s[1..], z, leq) == TiesOf(t[1..], z, leq) {
        assert TiesOf(s, z, leq) == TiesOf(t, z, leq);
        TiesTail(s, z, leq);
        TiesTail(t, z, leq);
      }
      StableSortIsUnique(s[1..], t[1..], leq);
    }
  }

  lemma TiesTail<T>(s: seq<T>, z: T, leq: (T, T) -> bool)
    requires s != []
    ensures TiesOf(s[1..], z, leq) == if Ties(z, s[0], leq) then TiesOf(s, z, leq)[1..] else TiesOf(s, z, leq)
    ensures Ties(z, s[0], leq) ==> TiesOf(s, z, leq) != [] && TiesOf(s, z, leq)[0] == s[0]
  {
  }

  lemma TieSurvives<T(!new)>(s: seq<T>, leq: (T, T) -> bool, x: T)
    requires TotalPreorder(leq) && x in s
    ensures x in TiesOf(s, x, leq)
  {
    FilterSound(s, (y: T) => Ties(x, y, leq));
    assert leq(x, x);
  }

  lemma HeadsAgree<T(!new)>(s: seq<T>, t: seq<T>, leq: (T, T) -> bool)
    requires TotalPreorder(leq) && Sorted(s, leq) && Sorted(t, leq) && SameTies(s, t, leq) && s != []
    ensures t != [] && s[0] == t[0]
  {
    var p := (y: T) => Ties(s[0], y, leq);
    TieSurvives(s, leq, s[0]);
    FilterSound(t, p);
    assert TiesOf(s, s[0], leq) == TiesOf(t, s[0], leq);
    assert s[0] in t;
    var q := (y: T) => Ties(t[0], y, leq);
    TieSurvives(t, leq, t[0]);
    FilterSound(s, q);
    assert TiesOf(s, t[0], leq) == TiesOf(t, t[0], leq);
    assert t[0] in s;
    assert leq(s[0], t[0]) && leq(t[0], s[0]);
    TiesTail(s, s[0], leq);
    TiesTail(t, s[0], leq);
  }

  // ---------- Sorting what is sorted, and keeping only the front ----------

  lemma {:induction false} SortOfSorted<T(!new)>(s: seq<T>, leq: (T, T) -> bool)
    requires TotalPreorder(leq) && Sorted(s, leq)
    ensures Sort(s, leq) == s
  {
    hide TotalPreorder, Insert;
    if s != [] {
      var front, last := s[..|s| - 1], s[|s| - 1];
      assert s == front + [last];
      SortOfSorted(front, leq);
      InsertLast(front, last, leq);
    }
  }

  lemma InsertLast<T>(s: seq<T>, x: T, leq: (T, T) -> bool)
    requires s != [] ==> leq(s[|s| - 1], x)
    ensures Insert(s, x, leq) == s + [x]
  {
  }

  /** Only the first `k` elements decide the first `k` after an insertion. */
  lemma {:induction false} InsertTake<T(!new)>(s: seq<T>, x: T, k: nat, leq: (T, T) -> bool)
    requires TotalPreorder(leq) && Sorted(s, leq)
    ensures Take(Insert(s, x, leq), k) == Take(Insert(Take(s, k), x, leq), k)
  {
    if k < |s| {
      var front, last := s[..|s| - 1], s[|s| - 1];
      if leq(last, x) {
        if k > 0 {
          assert s[..k][k - 1] == s[k - 1] && (leq(s[k - 1], last) || k - 1 == |s| - 1);
        }
      } else {
        InsertTake(front, x, k, leq);
        assert Take(front, k) == s[..k];
      }
    }
  }

  /**
   * One step of a bounded, sorted page: adding an element to the page and keeping the best `k`
   * is the same as keeping the best `k` of everything seen.
   */
  lemma SortTakeStep<T(!new)>(s: seq<T>, x: T, k: nat, leq: (T, T) -> bool)
    requires TotalPreorder(leq)
    ensures Take(Sort(Take(Sort(s, leq), k) + [x], leq), k) == Take(Sort(s + [x], leq), k)
  {
    hide Insert;
    var page := Take(Sort(s, leq), k);
    SortSorted(s, leq);
    assert Sorted(page, leq);
    SortOfSorted(page, leq);
    assert (page + [x])[..|page|] == page && (s + [x])[..|s|] == s;
    InsertTake(Sort(s, leq), x, k, leq);
  }

  lemma SortTakeIdempotent<T(!new)>(s: seq<T>, k: nat, leq: (T, T) -> bool)
    requires TotalPreorder(leq)
    ensures Sort(Take(Sort(s, leq), k), leq) == Take(Sort(s, leq), k)
  {
    SortSorted(s, leq);
    assert Sorted(Take(Sort(s, leq), k), leq);
    SortOfSorted(Take(Sort(s, leq), k), leq);
  }

  /** Whatever stands before a cut of the sorted sequence is at most what is left behind it. */
  lemma CutIsOrdered<T(!new)>(s: seq<T>, leq: (T, T) -> bool, k: nat, x: T, y: T)
    requires TotalPreorder(leq) && k <= |s|
    ensures var t := Sort(s, leq);
            && multiset(s) - multiset(t[..k]) == multiset(t[k..])
            && multiset(s) - multiset(t[k..]) == multiset(t[..k])
            && (x in t[..k] && y in multiset(t[k..]) ==> leq(x, y))
  {
    hide Sort, TotalPreorder, Sorted;
    var t := Sort(s, leq);
    SortMultiset(s, leq);
    SortSorted(s, leq);
    CutMultiset(t, k);
    if x in t[..k] && y in multiset(t[k..]) {
      CutSorted(t, leq, k, x, y);
    }
  }

  lemma CutMultiset<T>(t: seq<T>, k: nat)
    requires k <= |t|
    ensures multiset(t) - multiset(t[..k]) == multiset(t[k..]) && multiset(t) - multiset(t[k..]) == multiset(t[..k])
  {
    assert t == t[..k] + t[k..];
  }

  lemma CutSorted<T>(t: seq<T>, leq: (T, T) -> bool, k: nat, x: T, y: T)
    requires k <= |t| && Sorted(t, leq) && x in t[..k] && y in multiset(t[k..])
    ensures leq(x, y)
  {
    assert y in t[k..];
    var i :| 0 <= i < k && t[i] == x;
    var j :| 0 <= j < |t[k..]| && t[k..][j] == y;
    assert t[k + j] == y;
  }
}
