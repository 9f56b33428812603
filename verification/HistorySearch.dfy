/** Bounded local history search (src/history_search.rs). */
module HistorySearch {
  import opened Common
  import opened Ordering
  import opened Seqs
  import opened StableSort

  const QUERY_MAX_BYTES: nat := 256
  const TERM_MAX_ITEMS: nat := 8
  const SCAN_MAX_ITEMS: nat := 8192
  const RESULT_MAX_ITEMS: nat := 128

  datatype Source = Lxmf | OmenChat
  datatype SourceFilter = All | Only(source: Source)
  datatype Delivery = Incoming | Pending | Delivered | Failed

  /** A query; `terms` are the whitespace-separated words of its text. */
  datatype Query = Query(
    text: Bytes, terms: seq<Bytes>, sender: Option<Bytes>, room: Option<Bytes>,
    afterUnix: Option<int>, beforeUnix: Option<int>, attachmentOnly: bool,
    delivery: Option<Delivery>, source: SourceFilter)

  datatype SearchResult = SearchResult(
    source: Source, key: nat, sender: Bytes, context: Bytes, excerpt: Bytes,
    attachmentName: Option<Bytes>, atUnix: int, delivery: Option<Delivery>)

  /** A stored message or event: the fields that are searched, and the result it would give. */
  datatype Item = Item(
    atUnix: int, searchable: seq<Bytes>, attachments: seq<Bytes>, sender: Option<Bytes>,
    room: Option<Bytes>, delivery: Option<Delivery>, result: SearchResult)

  /** One conversation or session, oldest item first. */
  datatype Input = Input(source: Source, items: seq<Item>)

  datatype Page = Page(results: seq<SearchResult>, scannedItems: nat, scanLimitReached: bool, resultLimitReached: bool)

  datatype Error = InvalidQuery

  // ---------- Matching ----------

  predicate ContainsIgnoreCase(value: Bytes, needle: Bytes)
  {
    needle == [] || exists i :: 0 <= i < |value| && ContainsAt(value, i, needle)
  }

  predicate ContainsAt(value: Bytes, i: nat, needle: Bytes)
  {
    i + |needle| <= |value| && EqIgnoreCase(value[i..i + |needle|], needle)
  }

  predicate HasControl(text: Bytes)
  {
    || (exists i :: 0 <= i < |text| && (text[i] < 0x20 || text[i] == 0x7f))
    || (exists i :: 0 <= i < |text| - 1 && text[i] == 0xc2 && 0x80 <= text[i + 1] <= 0x9f)
  }

  predicate ValidText(text: Bytes) { |text| <= QUERY_MAX_BYTES && !HasControl(text) }

  predicate ValidQuery(q: Query)
  {
    && ValidText(q.text)
    && (q.sender.Some? ==> ValidText(q.sender.value))
    && (q.room.Some? ==> ValidText(q.room.value))
    && |q.terms| <= TERM_MAX_ITEMS
    && (q.afterUnix.Some? && q.beforeUnix.Some? ==> q.afterUnix.value <= q.beforeUnix.value)
  }

  /** `matches_common` */
  predicate Matches(q: Query, item: Item)
  {
    && (q.afterUnix.Some? ==> item.atUnix >= q.afterUnix.value)
    && (q.beforeUnix.Some? ==> item.atUnix <= q.beforeUnix.value)
    && (q.attachmentOnly ==> item.attachments != [])
    && (q.delivery.Some? ==> item.delivery == q.delivery)
    && (q.sender.Some? ==> item.sender.Some? && ContainsIgnoreCase(item.sender.value, q.sender.value))
    && (q.room.Some? ==> item.room.Some? && ContainsIgnoreCase(item.room.value, q.room.value))
    && (forall t :: 0 <= t < |q.terms| ==>
          || (exists i :: 0 <= i < |item.searchable| && ContainsIgnoreCase(item.searchable[i], q.terms[t]))
          || (exists i :: 0 <= i < |item.attachments| && ContainsIgnoreCase(item.attachments[i], q.terms[t])))
  }

  // ---------- The order of results ----------

  /** Newest first, then by context, then by excerpt. */
  predicate Before(a: SearchResult, b: SearchResult)
  {
    || a.atUnix > b.atUnix
    || (a.atUnix == b.atUnix && (
          if a.context == b.context then LexLeq(a.excerpt, b.excerpt) else LexLeq(a.context, b.context)))
  }

  lemma BeforeIsTotalPreorder()
    ensures TotalPreorder(Before)
  {
    hide LexLeq;
    forall a, b ensures Before(a, b) || Before(b, a) {
      LexTotal(a.context, b.context);
      LexTotal(a.excerpt, b.excerpt);
    }
    forall a, b, c | Before(a, b) && Before(b, c) ensures Before(a, c) {
      BeforeTransitive(a, b, c);
    }
  }

  lemma BeforeTransitive(a: SearchResult, b: SearchResult, c: SearchResult)
    requires Before(a, b) && Before(b, c)
    ensures Before(a, c)
  {
    hide LexLeq;
    if a.atUnix == b.atUnix == c.atUnix {
      if a.context == b.context == c.context {
        LexTransitive(a.excerpt, b.excerpt, c.excerpt);
      } else if a.context != b.context && b.context != c.context {
        LexTransitive(a.context, b.context, c.context);
        if a.context == c.context {
          LexAntisymmetric(a.context, b.context);
        }
      }
    }
  }

  // ---------- What a search should return ----------

  predicate Allows(f: SourceFilter, s: Source) { f.All? || f.source == s }

  function Reverse<T>(s: seq<T>): (r: seq<T>)
    ensures |r| == |s|
  {
    if s == [] then [] else [s[|s| - 1]] + Reverse(s[..|s| - 1])
  }

  /** Everything the query may look at, in the order it looks. */
  function Eligible(inputs: seq<Input>, f: SourceFilter): seq<Item>
  {
    if inputs == [] then []
    else (if Allows(f, inputs[0].source) then Reverse(inputs[0].items) else []) + Eligible(inputs[1..], f)
  }

  function Results(items: seq<Item>, q: Query): seq<SearchResult>
  {
    ResultsOf(Filter(items, (i: Item) => Matches(q, i)))
  }

  function ResultsOf(items: seq<Item>): (r: seq<SearchResult>)
    ensures |r| == |items|
  {
    seq(|items|, i requires 0 <= i < |items| => items[i].result)
  }

  /** One scan, one stable sort, one cut. */
  function IdealPage(inputs: seq<Input>, q: Query): Page
  {
    var eligible := Eligible(inputs, q.source);
    var scanned := Take(eligible, SCAN_MAX_ITEMS);
    var matching := Results(scanned, q);
    Page(Take(Sort(matching, Before), RESULT_MAX_ITEMS), |scanned|,
         |eligible| > SCAN_MAX_ITEMS, |matching| > RESULT_MAX_ITEMS)
  }

  // ---------- The incremental search ----------

  /** What the page holds after `matching` were pushed: all of them, or the sorted best. */
  function Retained(matching: seq<SearchResult>): seq<SearchResult>
  {
    if |matching| <= RESULT_MAX_ITEMS then matching else Take(Sort(matching, Before), RESULT_MAX_ITEMS)
  }

  lemma RetainedStep(matching: seq<SearchResult>, r: SearchResult)
    ensures var pushed := Retained(matching) + [r];
            var cut := if |pushed| > RESULT_MAX_ITEMS then Take(Sort(pushed, Before), RESULT_MAX_ITEMS) else pushed;
            Retained(matching + [r]) == cut
  {
    hide Sort, Before;
    if |matching| > RESULT_MAX_ITEMS {
      BeforeIsTotalPreorder();
      SortTakeStep(matching, r, RESULT_MAX_ITEMS, Before);
    }
  }

  /** The final sort gives the page of one sort over everything. */
  lemma RetainedSorts(matching: seq<SearchResult>)
    ensures Sort(Retained(matching), Before) == Take(Sort(matching, Before), RESULT_MAX_ITEMS)
  {
    hide Sort, Before;
    if |matching| > RESULT_MAX_ITEMS {
      BeforeIsTotalPreorder();
      SortTakeIdempotent(matching, RESULT_MAX_ITEMS, Before);
    }
  }

  class BoundedSearch {
    const query: Query
    const scanMaxItems: nat
    var results: seq<SearchResult>
    var scannedItems: nat
    var scanLimitReached: bool
    var resultLimitReached: bool

    constructor (query: Query, scanMaxItems: nat)
      ensures this.query == query && this.scanMaxItems == scanMaxItems && Seen([])
    {
      this.query := query;
      this.scanMaxItems := scanMaxItems;
      results, scannedItems, scanLimitReached, resultLimitReached := [], 0, false, false;
    }

    /** The page reflects exactly the items `seen`, and nothing was turned away yet. */
    ghost predicate Seen(seen: seq<Item>)
      reads this
    {
      && scannedItems == |seen| <= scanMaxItems && !scanLimitReached
      && results == Retained(Results(seen, query))
      && resultLimitReached == (|Results(seen, query)| > RESULT_MAX_ITEMS)
    }

    method AdmitScan() returns (ok: bool)
      modifies this`scannedItems, this`scanLimitReached
      ensures ok == (old(scannedItems) < scanMaxItems)
      ensures scannedItems == if ok then old(scannedItems) + 1 else old(scannedItems)
      ensures scanLimitReached == if ok then old(scanLimitReached) else true
    {
      if scannedItems >= scanMaxItems {
        scanLimitReached := true;
        return false;
      }
      scannedItems := scannedItems + 1;
      return true;
    }

    method Push(result: SearchResult, ghost matching: seq<SearchResult>)
      requires results == Retained(matching) && resultLimitReached == (|matching| > RESULT_MAX_ITEMS)
      modifies this`results, this`resultLimitReached
      ensures results == Retained(matching + [result])
      ensures resultLimitReached == (|matching + [result]| > RESULT_MAX_ITEMS)
    {
      hide Sort, Before;
      RetainedStep(matching, result);
      results := results + [result];
      if |results| > RESULT_MAX_ITEMS {
        resultLimitReached := true;
        results := Take(Sort(results, Before), RESULT_MAX_ITEMS);
      }
    }

    /** Looks at one admitted item. */
    method Consider(item: Item, ghost seen: seq<Item>)
      requires results == Retained(Results(seen, query))
      requires resultLimitReached == (|Results(seen, query)| > RESULT_MAX_ITEMS)
      modifies this`results, this`resultLimitReached
      ensures results == Retained(Results(seen + [item], query))
      ensures resultLimitReached == (|Results(seen + [item], query)| > RESULT_MAX_ITEMS)
    {
      hide Results, Retained;
      ResultsStep(seen, item, query);
      if Matches(query, item) {
        Push(item.result, Results(seen, query));
      }
    }

    /** The inner loop: newest first, until the scan limit turns an item away. */
    method ScanInput(items: seq<Item>, ghost seen: seq<Item>)
      requires Seen(seen)
      modifies this
      ensures Scanned(seen + Reverse(items))
    {
      hide Results, Retained;
      ghost var all := seen + Reverse(items);
      ghost var done := seen;
      var i := |items|;
      assert items[..i] == items;
      while i > 0
        invariant 0 <= i <= |items| && Seen(done) && all == done + Reverse(items[..i])
      {
        var admitted := AdmitScan();
        if !admitted {
          assert all[..scanMaxItems] == done;
          return;
        }
        var item := items[i - 1];
        assert items[..i][..i - 1] == items[..i - 1];
        Consider(item, done);
        done := done + [item];
        i := i - 1;
      }
      assert all == done;
    }

    /** The outer loop over conversations and sessions. */
    method ScanInputs(inputs: seq<Input>)
      requires Seen([])
      modifies this
      ensures Scanned(Eligible(inputs, query.source))
    {
      hide Results, Retained, Eligible, Reverse;
      ghost var eligible := Eligible(inputs, query.source);
      ghost var seen: seq<Item> := [];
      var i := 0;
      assert inputs[0..] == inputs;
      while i < |inputs| && !scanLimitReached
        invariant i <= |inputs| && eligible == seen + Eligible(inputs[i..], query.source)
        invariant if scanLimitReached then Scanned(eligible) else Seen(seen)
      {
        EligibleStep(inputs, i, query.source);
        if Allows(query.source, inputs[i].source) {
          ScanInput(inputs[i].items, seen);
          seen := seen + Reverse(inputs[i].items);
          TakeOverrun(seen, Eligible(inputs[i + 1..], query.source), scanMaxItems);
        }
        i := i + 1;
      }
      NothingLeft(inputs, i, query.source);
      assert seen + [] == seen;
    }

    /** The page and its flags reflect the part of `eligible` that the scan limit admits. */
    ghost predicate Scanned(eligible: seq<Item>)
      reads this
    {
      var scanned := Take(eligible, scanMaxItems);
      && scannedItems == |scanned| && scanLimitReached == (|eligible| > scanMaxItems)
      && results == Retained(Results(scanned, query))
      && resultLimitReached == (|Results(scanned, query)| > RESULT_MAX_ITEMS)
    }
  }

  lemma EligibleStep(inputs: seq<Input>, i: nat, f: SourceFilter)
    requires i < |inputs|
    ensures Allows(f, inputs[i].source) ==>
              forall s: seq<Item> :: s + Eligible(inputs[i..], f)
                                  == s + Reverse(inputs[i].items) + Eligible(inputs[i + 1..], f)
    ensures !Allows(f, inputs[i].source) ==> Eligible(inputs[i..], f) == Eligible(inputs[i + 1..], f)
  {
    assert inputs[i..][1..] == inputs[i + 1..];
  }

  lemma NothingLeft(inputs: seq<Input>, i: nat, f: SourceFilter)
    requires i <= |inputs|
    ensures i == |inputs| ==> Eligible(inputs[i..], f) == []
  {
  }

  lemma TakeOverrun(s: seq<Item>, rest: seq<Item>, k: nat)
    ensures |s| > k ==> Take(s + rest, k) == Take(s, k)
  {
  }

  lemma ResultsStep(seen: seq<Item>, item: Item, q: Query)
    ensures Results(seen + [item], q) == if Matches(q, item) then Results(seen, q) + [item.result] else Results(seen, q)
  {
    hide Matches;
    var p := (i: Item) => Matches(q, i);
    FilterConcat(seen, [item], p);
    assert Filter([item], p) == if p(item) then [item] else [];
  }

  /** `search_local_history` returns the ideal page, flags included. */
  method SearchLocalHistory(inputs: seq<Input>, query: Query) returns (r: Result<Page, Error>)
    ensures r == if ValidQuery(query) then Ok(IdealPage(inputs, query)) else Err(InvalidQuery)
  {
    hide Results, Retained, Sort, Before, ValidQuery, Eligible;
    if !ValidQuery(query) {
      return Err(InvalidQuery);
    }
    var search := new BoundedSearch(query, SCAN_MAX_ITEMS);
    search.ScanInputs(inputs);
    RetainedSorts(Results(Take(Eligible(inputs, query.source), SCAN_MAX_ITEMS), query));
    var sorted := Sort(search.results, Before);
    r := Ok(Page(sorted, search.scannedItems, search.scanLimitReached, search.resultLimitReached));
  }
}
