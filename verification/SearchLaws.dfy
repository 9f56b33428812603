/**
 * What a local history search returns, said of the messages themselves (src/history_search.rs): the
 * order of the page, which matches it leaves out, and what every part of the query asks for.
 */
module SearchLaws {
  import opened Common
  import opened Ordering
  import opened Seqs
  import opened StableSort
  import opened HistorySearch
  import opened Utf8

  // ---------- The page ----------

  /** The results that the scanned items give before they are cut to a page. */
  function AllMatches(inputs: seq<Input>, q: Query): seq<SearchResult>
  {
    Results(Take(Eligible(inputs, q.source), SCAN_MAX_ITEMS), q)
  }

  /** Newest first; of the same time by context, and of the same context by excerpt. */
  ghost predicate InOrder(a: SearchResult, b: SearchResult)
  {
    && a.atUnix >= b.atUnix
    && (a.atUnix == b.atUnix ==> LexLeq(a.context, b.context))
    && (a.atUnix == b.atUnix && a.context == b.context ==> LexLeq(a.excerpt, b.excerpt))
  }

  lemma InOrderIff(a: SearchResult, b: SearchResult)
    ensures Before(a, b) <==> InOrder(a, b)
  {
    hide LexLeq;
    LexTotal(a.context, a.context);
  }

  /** Along every page the results are newest first. */
  lemma PageIsInOrder(inputs: seq<Input>, q: Query, i: nat, j: nat)
    requires i < j < |IdealPage(inputs, q).results|
    ensures InOrder(IdealPage(inputs, q).results[i], IdealPage(inputs, q).results[j])
  {
    hide Before, Sort, Results, Eligible, InOrder;
    var all := AllMatches(inputs, q);
    BeforeIsTotalPreorder();
    SortSorted(all, Before);
    InOrderIff(IdealPage(inputs, q).results[i], IdealPage(inputs, q).results[j]);
  }

  /** What a full page leaves out comes after everything on it, and is no newer. */
  lemma LeftOutIsOlder(inputs: seq<Input>, q: Query, kept: SearchResult, out: SearchResult)
    requires var page := IdealPage(inputs, q).results;
             kept in page && out in multiset(AllMatches(inputs, q)) - multiset(page)
    ensures InOrder(kept, out) && out.atUnix <= kept.atUnix
  {
    hide Before, Results, Eligible, TotalPreorder;
    var all, page := AllMatches(inputs, q), IdealPage(inputs, q).results;
    var t := Sort(all, Before);
    BeforeIsTotalPreorder();
    SortSorted(all, Before);
    SortMultiset(all, Before);
    var n := |page|;
    assert t == t[..n] + t[n..] && page == t[..n];
    assert multiset(t) - multiset(page) == multiset(t[n..]);
    assert out in t[n..];
    InOrderIff(kept, out);
  }

  /** A page that is not full holds every match, each as often as it was found. */
  lemma UnfullPageHoldsAll(inputs: seq<Input>, q: Query)
    ensures var page := IdealPage(inputs, q);
            && (page.resultLimitReached <==> |AllMatches(inputs, q)| > 128)
            && |page.results| == (if |AllMatches(inputs, q)| > 128 then 128 else |AllMatches(inputs, q)|)
            && (!page.resultLimitReached ==> multiset(page.results) == multiset(AllMatches(inputs, q)))
            && (page.scanLimitReached <==> |Eligible(inputs, q.source)| > 8192)
            && page.scannedItems == (if |Eligible(inputs, q.source)| > 8192 then 8192 else |Eligible(inputs, q.source)|)
  {
    hide Before, Sort, Results, Eligible;
    SortMultiset(AllMatches(inputs, q), Before);
  }

  /** The matches are the results of the scanned items that match. */
  lemma {:induction false} ResultsAre(items: seq<Item>, q: Query, r: SearchResult)
    ensures r in Results(items, q) <==> exists item :: item in items && Matches(q, item) && item.result == r
  {
    hide Matches, Filter;
    var p := (i: Item) => Matches(q, i);
    FilterSound(items, p);
    var kept := Filter(items, p);
    if r in ResultsOf(kept) {
      var k :| 0 <= k < |kept| && ResultsOf(kept)[k] == r;
      assert kept[k] in kept && kept[k].result == r;
    }
    if item :| item in items && Matches(q, item) && item.result == r {
      assert item in kept;
      var k :| 0 <= k < |kept| && kept[k] == item;
      assert ResultsOf(kept)[k] == r;
    }
  }

  /** On a page that is not full stands exactly what matches among the first 8192 items. */
  lemma OnPageIff(inputs: seq<Input>, q: Query, r: SearchResult)
    requires !IdealPage(inputs, q).resultLimitReached
    ensures r in IdealPage(inputs, q).results <==>
            exists item :: item in Take(Eligible(inputs, q.source), 8192) && Matches(q, item) && item.result == r
  {
    hide Matches, Results, Eligible, IdealPage;
    UnfullPageHoldsAll(inputs, q);
    ResultsAre(Take(Eligible(inputs, q.source), SCAN_MAX_ITEMS), q, r);
    assert r in multiset(IdealPage(inputs, q).results) <==> r in multiset(AllMatches(inputs, q));
  }

  // ---------- What is scanned ----------

  lemma {:induction false} ReverseAt<T>(s: seq<T>, i: nat)
    requires i < |s|
    ensures Reverse(s)[i] == s[|s| - 1 - i]
    decreases |s|
  {
    if i > 0 {
      ReverseAt(s[..|s| - 1], i - 1);
    }
  }

  /** Every item of every conversation or session whose source the query asks for can be scanned, and no other. */
  lemma {:induction false} EligibleIff(inputs: seq<Input>, f: SourceFilter, item: Item)
    ensures item in Eligible(inputs, f) <==>
            exists k :: 0 <= k < |inputs| && item in inputs[k].items && (f == All || f == Only(inputs[k].source))
  {
    if inputs != [] {
      EligibleIff(inputs[1..], f, item);
      InReverse(inputs[0].items, item);
      if k :| 0 <= k < |inputs[1..]| && item in inputs[1..][k].items && (f == All || f == Only(inputs[1..][k].source)) {
        assert inputs[k + 1] == inputs[1..][k];
      }
      if k :| 0 <= k < |inputs| && item in inputs[k].items && (f == All || f == Only(inputs[k].source)) {
        assert k > 0 ==> inputs[1..][k - 1] == inputs[k];
      }
    }
  }

  lemma {:induction false} InReverse<T>(s: seq<T>, x: T)
    ensures x in Reverse(s) <==> x in s
  {
    if s != [] {
      InReverse(s[..|s| - 1], x);
      assert s == s[..|s| - 1] + [s[|s| - 1]];
    }
  }

  // ---------- What a query asks for ----------

  /** `value` contains `w`, but for the case of ASCII letters. */
  ghost predicate HasWord(value: Bytes, w: Bytes)
  {
    exists x, m, y :: value == x + m + y && EqIgnoreCase(m, w)
  }

  lemma ContainsIff(value: Bytes, w: Bytes)
    ensures ContainsIgnoreCase(value, w) <==> HasWord(value, w)
  {
    hide EqIgnoreCase;
    if w == [] {
      EmptyMatches();
      assert value == value + [] + [];
    } else {
      if i :| 0 <= i < |value| && ContainsAt(value, i, w) {
        assert value == value[..i] + value[i..i + |w|] + value[i + |w|..];
      }
      if x, m, y :| value == x + m + y && EqIgnoreCase(m, w) {
        SameLength(m, w);
        assert value[|x|..|x| + |w|] == m;
        assert ContainsAt(value, |x|, w);
      }
    }
  }

  lemma EmptyMatches()
    ensures EqIgnoreCase([], [])
  {
  }

  lemma SameLength(a: Bytes, b: Bytes)
    requires EqIgnoreCase(a, b)
    ensures |a| == |b|
  {
  }

  /** A query that asks for nothing. */
  const ANYTHING: Query := Query([], [], None, None, None, None, false, None, All)

  /** Asking for a sender finds the items whose sender contains it. */
  lemma SenderFilter(w: Bytes, item: Item)
    ensures Matches(ANYTHING.(sender := Some(w)), item) <==> item.sender.Some? && HasWord(item.sender.value, w)
  {
    hide ContainsIgnoreCase, HasWord;
    if item.sender.Some? {
      ContainsIff(item.sender.value, w);
    }
  }

  lemma RoomFilter(w: Bytes, item: Item)
    ensures Matches(ANYTHING.(room := Some(w)), item) <==> item.room.Some? && HasWord(item.room.value, w)
  {
    hide ContainsIgnoreCase, HasWord;
    if item.room.Some? {
      ContainsIff(item.room.value, w);
    }
  }

  /** The two times are inclusive. */
  lemma TimeFilter(t: int, item: Item)
    ensures Matches(ANYTHING.(afterUnix := Some(t)), item) <==> t <= item.atUnix
    ensures Matches(ANYTHING.(beforeUnix := Some(t)), item) <==> item.atUnix <= t
  {
  }

  lemma DeliveryFilter(d: Delivery, item: Item)
    ensures Matches(ANYTHING.(delivery := Some(d)), item) <==> item.delivery == Some(d)
    ensures Matches(ANYTHING.(attachmentOnly := true), item) <==> |item.attachments| > 0
  {
  }

  /** A word is looked for in every searched field and every attachment name. */
  lemma TermFilter(w: Bytes, item: Item)
    ensures Matches(ANYTHING.(terms := [w]), item) <==>
            exists v :: (v in item.searchable || v in item.attachments) && HasWord(v, w)
  {
    hide ContainsIgnoreCase, HasWord;
    forall v ensures ContainsIgnoreCase(v, w) <==> HasWord(v, w) {
      ContainsIff(v, w);
    }
    var q := ANYTHING.(terms := [w]);
    assert q.terms[0] == w;
    if v :| v in item.searchable && HasWord(v, w) {
      var i :| 0 <= i < |item.searchable| && item.searchable[i] == v;
    }
    if v :| v in item.attachments && HasWord(v, w) {
      var i :| 0 <= i < |item.attachments| && item.attachments[i] == v;
    }
    if i :| 0 <= i < |item.searchable| && ContainsIgnoreCase(item.searchable[i], w) {
      assert item.searchable[i] in item.searchable;
    }
    if i :| 0 <= i < |item.attachments| && ContainsIgnoreCase(item.attachments[i], w) {
      assert item.attachments[i] in item.attachments;
    }
  }

  /** A query finds exactly what each of its parts alone would find; the source and the raw text do not filter items. */
  lemma MatchesIsConjunction(q: Query, item: Item)
    ensures Matches(q, item) <==>
            && (q.sender.Some? ==> Matches(ANYTHING.(sender := q.sender), item))
            && (q.room.Some? ==> Matches(ANYTHING.(room := q.room), item))
            && (q.afterUnix.Some? ==> Matches(ANYTHING.(afterUnix := q.afterUnix), item))
            && (q.beforeUnix.Some? ==> Matches(ANYTHING.(beforeUnix := q.beforeUnix), item))
            && (q.attachmentOnly ==> Matches(ANYTHING.(attachmentOnly := true), item))
            && (q.delivery.Some? ==> Matches(ANYTHING.(delivery := q.delivery), item))
            && (forall k :: 0 <= k < |q.terms| ==> Matches(ANYTHING.(terms := [q.terms[k]]), item))
  {
    hide ContainsIgnoreCase;
    forall k | 0 <= k < |q.terms|
      ensures Matches(ANYTHING.(terms := [q.terms[k]]), item) <==> FindsTerm(q.terms[k], item)
    {
      assert [q.terms[k]][0] == q.terms[k];
    }
    assert forall k :: 0 <= k < |q.terms| ==>
      (FindsTerm(q.terms[k], item) <==>
         || (exists i :: 0 <= i < |item.searchable| && ContainsIgnoreCase(item.searchable[i], q.terms[k]))
         || (exists i :: 0 <= i < |item.attachments| && ContainsIgnoreCase(item.attachments[i], q.terms[k])));
  }

  predicate FindsTerm(w: Bytes, item: Item)
  {
    || (exists i :: 0 <= i < |item.searchable| && ContainsIgnoreCase(item.searchable[i], w))
    || (exists i :: 0 <= i < |item.attachments| && ContainsIgnoreCase(item.attachments[i], w))
  }

  /** What a query asks of an item, each part by its own filter. */
  ghost predicate Satisfies(q: Query, item: Item) {
    && (q.sender.Some? ==> item.sender.Some? && HasWord(item.sender.value, q.sender.value))
    && (q.room.Some? ==> item.room.Some? && HasWord(item.room.value, q.room.value))
    && (q.afterUnix.Some? ==> q.afterUnix.value <= item.atUnix)
    && (q.beforeUnix.Some? ==> item.atUnix <= q.beforeUnix.value)
    && (q.attachmentOnly ==> |item.attachments| > 0)
    && (q.delivery.Some? ==> item.delivery == q.delivery)
    && (forall k :: 0 <= k < |q.terms| ==> HasTerm(item, q.terms[k]))
  }

  ghost predicate HasTerm(item: Item, w: Bytes) {
    exists v :: (v in item.searchable || v in item.attachments) && HasWord(v, w)
  }

  lemma MatchesIff(q: Query, item: Item)
    ensures Matches(q, item) <==> Satisfies(q, item)
  {
    hide Matches, HasWord;
    MatchesIsConjunction(q, item);
    if q.sender.Some? { SenderFilter(q.sender.value, item); }
    if q.room.Some? { RoomFilter(q.room.value, item); }
    if q.afterUnix.Some? { TimeFilter(q.afterUnix.value, item); }
    if q.beforeUnix.Some? { TimeFilter(q.beforeUnix.value, item); }
    if q.delivery.Some? { DeliveryFilter(q.delivery.value, item); }
    DeliveryFilter(Delivered, item);
    forall k | 0 <= k < |q.terms|
      ensures Matches(ANYTHING.(terms := [q.terms[k]]), item) <==> HasTerm(item, q.terms[k])
    {
      TermFilter(q.terms[k], item);
    }
  }

  /** A page that is not full shows exactly the scanned items that satisfy the query. */
  lemma FoundIff(inputs: seq<Input>, q: Query, r: SearchResult)
    requires !IdealPage(inputs, q).resultLimitReached
    ensures r in IdealPage(inputs, q).results <==>
            exists item :: item in Take(Eligible(inputs, q.source), 8192) && Satisfies(q, item) && item.result == r
  {
    hide Matches, Satisfies, Eligible, IdealPage;
    OnPageIff(inputs, q, r);
    forall item ensures Matches(q, item) <==> Satisfies(q, item) {
      MatchesIff(q, item);
    }
  }

  // ---------- Which queries are refused ----------

  ghost predicate IsControl(c: char) { c as int < 32 || 127 <= c as int <= 159 }

  /** The bytes of one character show whether it is a control character. */
  lemma UnitControl(c: char)
    ensures HasControl(Unit(c)) <==> IsControl(c)
    ensures Unit(c)[|Unit(c)| - 1] != 0xc2
  {
    var u := Unit(c);
    if |u| == 1 {
      assert u[0] as int == c as int;
    } else if |u| == 2 && IsControl(c) {
      assert u[0] == 0xc2 && 0x80 <= u[1] <= 0x9f;
    }
  }

  /** A pair of bytes that shows a control character lies inside one character. */
  lemma ControlConcat(a: Bytes, b: Bytes)
    requires a != [] && a[|a| - 1] != 0xc2
    ensures HasControl(a + b) <==> HasControl(a) || HasControl(b)
  {
    var s := a + b;
    forall i | 0 <= i < |s| ensures s[i] == if i < |a| then a[i] else b[i - |a|] {
    }
    if i :| 0 <= i < |a| && (a[i] < 0x20 || a[i] == 0x7f) {
      assert s[i] == a[i];
    }
    if i :| 0 <= i < |b| && (b[i] < 0x20 || b[i] == 0x7f) {
      assert s[|a| + i] == b[i];
    }
    if i :| 0 <= i < |a| - 1 && a[i] == 0xc2 && 0x80 <= a[i + 1] <= 0x9f {
      assert s[i] == a[i] && s[i + 1] == a[i + 1];
    }
    if i :| 0 <= i < |b| - 1 && b[i] == 0xc2 && 0x80 <= b[i + 1] <= 0x9f {
      assert s[|a| + i] == b[i] && s[|a| + i + 1] == b[i + 1];
    }
  }

  lemma {:induction false} ControlIff(text: string)
    ensures HasControl(Encode(text)) <==> exists c :: c in text && IsControl(c)
  {
    hide HasControl, Unit;
    if text == [] {
      NoControl();
    } else {
      UnitControl(text[0]);
      ControlConcat(Unit(text[0]), Encode(text[1..]));
      ControlIff(text[1..]);
      assert forall c :: c in text <==> c == text[0] || c in text[1..];
    }
  }

  lemma NoControl()
    ensures !HasControl([])
  {
  }

  lemma TextAcceptedIff(s: string)
    ensures ValidText(Encode(s)) <==> |Encode(s)| <= 256 && forall c :: c in s ==> !IsControl(c)
  {
    hide HasControl, Encode;
    ControlIff(s);
  }

  /** A query is refused for a text over 256 bytes or with a control character, over eight words, or crossed times. */
  lemma QueryAcceptedIff(q: Query, text: string, sender: string, room: string)
    requires q.text == Encode(text)
    requires q.sender.Some? ==> q.sender.value == Encode(sender)
    requires q.room.Some? ==> q.room.value == Encode(room)
    ensures ValidQuery(q) <==>
            && |q.text| <= 256 && (forall c :: c in text ==> !IsControl(c))
            && (q.sender.Some? ==> |q.sender.value| <= 256 && forall c :: c in sender ==> !IsControl(c))
            && (q.room.Some? ==> |q.room.value| <= 256 && forall c :: c in room ==> !IsControl(c))
            && |q.terms| <= 8
            && (q.afterUnix.Some? && q.beforeUnix.Some? ==> q.afterUnix.value <= q.beforeUnix.value)
  {
    hide ValidText, Encode;
    TextAcceptedIff(text);
    TextAcceptedIff(sender);
    TextAcceptedIff(room);
  }
}
