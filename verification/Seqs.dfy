/** Filtering, counting and front-to-back dropping on sequences. */
module Seqs {

  function Filter<T>(s: seq<T>, keep: T -> bool): (r: seq<T>)
    ensures |r| <= |s|
  {
    if s == [] then []
    else if keep(s[0]) then [s[0]] + Filter(s[1..], keep)
    else Filter(s[1..], keep)
  }

  function Count<T>(s: seq<T>, p: T -> bool): (n: nat)
    ensures n <= |s|
  {
    if s == [] then 0 else (if p(s[0]) then 1 else 0) + Count(s[1..], p)
  }

  /** `s` without its first `n` elements that satisfy `p`. */
  function DropFirst<T>(s: seq<T>, n: nat, p: T -> bool): (r: seq<T>)
    ensures |r| <= |s|
  {
    if s == [] || n == 0 then s
    else if p(s[0]) then DropFirst(s[1..], n - 1, p)
    else [s[0]] + DropFirst(s[1..], n, p)
  }

  lemma {:induction false} FilterConcat<T>(a: seq<T>, b: seq<T>, keep: T -> bool)
    ensures Filter(a + b, keep) == Filter(a, keep) + Filter(b, keep)
  {
    hide Filter;
    if a == [] {
      assert a + b == b;
      FilterNothing(a, keep);
    } else {
      assert (a + b)[0] == a[0] && (a + b)[1..] == a[1..] + b;
      FilterStep(a, keep);
      FilterStep(a + b, keep);
      FilterConcat(a[1..], b, keep);
      assert [a[0]] + (Filter(a[1..], keep) + Filter(b, keep)) == [a[0]] + Filter(a[1..], keep) + Filter(b, keep);
    }
  }

  lemma FilterStep<T>(s: seq<T>, keep: T -> bool)
    requires s != []
    ensures Filter(s, keep) == if keep(s[0]) then [s[0]] + Filter(s[1..], keep) else Filter(s[1..], keep)
  {
  }

  lemma FilterNothing<T>(s: seq<T>, keep: T -> bool)
    requires s == []
    ensures Filter(s, keep) == []
  {
  }

  lemma {:induction false} FilterSame<T>(s: seq<T>, p: T -> bool, q: T -> bool)
    requires forall x :: x in s ==> p(x) == q(x)
    ensures Filter(s, p) == Filter(s, q)
  {
    if s != [] {
      assert forall x :: x in s[1..] ==> x in s;
      FilterSame(s[1..], p, q);
    }
  }

  lemma {:induction false} FilterTwice<T>(s: seq<T>, p: T -> bool, q: T -> bool, both: T -> bool)
    requires forall x :: x in s ==> both(x) == (p(x) && q(x))
    ensures Filter(Filter(s, p), q) == Filter(s, both)
  {
    if s != [] {
      assert forall x :: x in s[1..] ==> x in s;
      FilterTwice(s[1..], p, q, both);
      FilterConcat(if p(s[0]) then [s[0]] else [], Filter(s[1..], p), q);
    }
  }

  lemma {:induction false} FilterKeepsAll<T>(s: seq<T>, p: T -> bool)
    requires forall x :: x in s ==> p(x)
    ensures Filter(s, p) == s
  {
    if s != [] {
      assert forall x :: x in s[1..] ==> x in s;
      FilterKeepsAll(s[1..], p);
    }
  }

  lemma {:induction false} FilterKeepsNone<T>(s: seq<T>, p: T -> bool)
    requires forall x :: x in s ==> !p(x)
    ensures Filter(s, p) == []
  {
    if s != [] {
      assert forall x :: x in s[1..] ==> x in s;
      FilterKeepsNone(s[1..], p);
    }
  }

  lemma {:induction false} FilterSound<T>(s: seq<T>, p: T -> bool)
    ensures forall x :: x in Filter(s, p) <==> x in s && p(x)
  {
    if s != [] {
      FilterSound(s[1..], p);
      assert forall x :: x in s <==> x == s[0] || x in s[1..];
    }
  }

  lemma {:induction false} DropFirstSound<T>(s: seq<T>, n: nat, p: T -> bool)
    ensures forall x :: x in DropFirst(s, n, p) ==> x in s
  {
    if s != [] && n != 0 {
      DropFirstSound(s[1..], if p(s[0]) then n - 1 else n, p);
      assert forall x :: x in s[1..] ==> x in s;
    }
  }

  lemma {:induction false} CountConcat<T>(a: seq<T>, b: seq<T>, p: T -> bool)
    ensures Count(a + b, p) == Count(a, p) + Count(b, p)
  {
    if a == [] {
      assert a + b == b;
    } else {
      CountConcat(a[1..], b, p);
      assert (a + b)[1..] == a[1..] + b;
    }
  }

  /** Dropping as many as the front part holds empties the front part of them and no more. */
  lemma {:induction false} DropFirstSplit<T>(a: seq<T>, b: seq<T>, p: T -> bool, not: T -> bool)
    requires forall x :: x in a ==> not(x) == !p(x)
    ensures DropFirst(a + b, Count(a, p), p) == Filter(a, not) + b
  {
    if a == [] {
      assert a + b == b;
    } else {
      assert forall x :: x in a[1..] ==> x in a;
      DropFirstSplit(a[1..], b, p, not);
      assert (a + b)[1..] == a[1..] + b;
      if Count(a, p) == 0 {
        DropNone(a, p, not);
      }
    }
  }

  lemma {:induction false} DropNone<T>(a: seq<T>, p: T -> bool, not: T -> bool)
    requires forall x :: x in a ==> not(x) == !p(x)
    requires Count(a, p) == 0
    ensures Filter(a, not) == a
  {
    if a != [] {
      assert forall x :: x in a[1..] ==> x in a;
      DropNone(a[1..], p, not);
    }
  }

  lemma {:induction false} DropFirstAll<T>(s: seq<T>, n: nat, p: T -> bool, not: T -> bool)
    requires forall x :: x in s ==> not(x) == !p(x)
    requires n >= Count(s, p)
    ensures DropFirst(s, n, p) == Filter(s, not)
  {
    if s != [] {
      assert forall x :: x in s[1..] ==> x in s;
      if n == 0 {
        DropNone(s, p, not);
      } else {
        DropFirstAll(s[1..], if p(s[0]) then n - 1 else n, p, not);
      }
    }
  }

  lemma {:induction false} DropFirstAdd<T>(s: seq<T>, a: nat, b: nat, p: T -> bool)
    ensures DropFirst(DropFirst(s, a, p), b, p) == DropFirst(s, a + b, p)
  {
    if s != [] && a != 0 {
      if p(s[0]) {
        DropFirstAdd(s[1..], a - 1, b, p);
      } else {
        DropFirstAdd(s[1..], a, b, p);
        assert ([s[0]] + DropFirst(s[1..], a, p))[1..] == DropFirst(s[1..], a, p);
      }
    }
  }

  lemma {:induction false} DropFirstCount<T>(s: seq<T>, n: nat, p: T -> bool)
    ensures Count(DropFirst(s, n, p), p) == if n < Count(s, p) then Count(s, p) - n else 0
    ensures |s| - |DropFirst(s, n, p)| == if n < Count(s, p) then n else Count(s, p)
  {
    if s != [] && n != 0 {
      if p(s[0]) {
        DropFirstCount(s[1..], n - 1, p);
      } else {
        DropFirstCount(s[1..], n, p);
        assert ([s[0]] + DropFirst(s[1..], n, p))[1..] == DropFirst(s[1..], n, p);
      }
    }
  }

  /** Dropping elements that satisfy `p` leaves the others, in order. */
  lemma {:induction false} DropFirstKeeps<T>(s: seq<T>, n: nat, p: T -> bool, not: T -> bool)
    requires forall x :: x in s ==> not(x) ==> !p(x)
    ensures Filter(DropFirst(s, n, p), not) == Filter(s, not)
  {
    if s != [] && n != 0 {
      assert forall x :: x in s[1..] ==> x in s;
      if p(s[0]) {
        DropFirstKeeps(s[1..], n - 1, p, not);
      } else {
        DropFirstKeeps(s[1..], n, p, not);
        assert ([s[0]] + DropFirst(s[1..], n, p))[1..] == DropFirst(s[1..], n, p);
      }
    }
  }
}
