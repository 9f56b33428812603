/** The bounded structured-log reader (src/structured_log_reader.rs). */
module LogReader {
  import opened Common
  import opened Ordering
  import opened StableSort
  import opened TopK

  datatype Limits = Limits(
    entryLimit: nat, directoryEntryLimit: nat, fileLimit: nat, fileBytes: nat, totalBytes: nat)

  datatype Candidate = Candidate(path: Bytes, modified: int, active: bool)

  datatype LogEntry = LogEntry(epochMs: int, body: Bytes)

  // ---------- Orders ----------

  /** By modification time, then path. */
  predicate Older(a: Candidate, b: Candidate)
  {
    if a.modified != b.modified then a.modified < b.modified
    else if a.path != b.path then LexLeq(a.path, b.path)
    else a.active || !b.active
  }

  lemma OlderIsTotalOrder()
    ensures TotalOrder(Older)
  {
    hide LexLeq;
    forall a, b ensures Older(a, b) || Older(b, a) {
      LexTotal(a.path, b.path);
    }
    forall a, b, c | Older(a, b) && Older(b, c) ensures Older(a, c) {
      OlderTransitive(a, b, c);
    }
    forall a, b | Older(a, b) && Older(b, a) ensures a == b {
      if a.path != b.path {
        LexAntisymmetric(a.path, b.path);
      }
    }
  }

  lemma OlderTransitive(a: Candidate, b: Candidate, c: Candidate)
    requires Older(a, b) && Older(b, c)
    ensures Older(a, c)
  {
    hide LexLeq;
    if a.modified == b.modified == c.modified && a.path != b.path && b.path != c.path {
      LexTransitive(a.path, b.path, c.path);
      if a.path == c.path {
        LexAntisymmetric(a.path, b.path);
      }
    }
  }

  predicate AtMost(a: int, b: int) { a <= b }

  // ---------- Retaining the newest ----------

  /** The first position of a least element. */
  function LeastAt<T>(s: seq<T>, leq: (T, T) -> bool): (at: nat)
    requires s != []
    ensures at < |s|
  {
    var last := |s| - 1;
    if last == 0 then 0
    else
      var at := LeastAt(s[..last], leq);
      if leq(s[at], s[last]) then at else last
  }

  lemma {:induction false} LeastAtIsLeast<T(!new)>(s: seq<T>, leq: (T, T) -> bool)
    requires TotalPreorder(leq) && s != []
    ensures forall i :: 0 <= i < |s| ==> leq(s[LeastAt(s, leq)], s[i])
    ensures forall i :: 0 <= i < LeastAt(s, leq) ==> !leq(s[i], s[LeastAt(s, leq)])
    decreases |s|
  {
    var last := |s| - 1;
    if last > 0 {
      LeastAtIsLeast(s[..last], leq);
      assert forall i :: 0 <= i < last ==> s[..last][i] == s[i];
    }
  }

  /** `min_by`: the least element of a nonempty sequence, at its first position. */
  method FirstLeast<T(!new)>(s: seq<T>, leq: (T, T) -> bool) returns (at: nat)
    requires TotalPreorder(leq) && s != []
    ensures at == LeastAt(s, leq)
    ensures forall i :: 0 <= i < |s| ==> leq(s[at], s[i])
  {
    hide TotalPreorder;
    at := 0;
    for n := 1 to |s|
      invariant at == LeastAt(s[..n], leq)
    {
      assert s[..n + 1][..n] == s[..n];
      if !leq(s[at], s[n]) {
        at := n;
      }
    }
    assert s[..|s|] == s;
    LeastAtIsLeast(s, leq);
  }

  /** Where a new element goes: behind the others, in place of the first least one, or nowhere. */
  function Slot<T>(kept: seq<T>, x: T, slots: nat, leq: (T, T) -> bool, orEqual: bool): (at: Option<nat>)
    ensures at.Some? ==> at.value <= |kept|
  {
    if |kept| < slots then Some(|kept|)
    else if kept == [] then None
    else
      var least := LeastAt(kept, leq);
      if (if orEqual then leq(kept[least], x) else !leq(x, kept[least])) then Some(least) else None
  }

  /** `s` with `x` pushed, put in place of the element at `at`, or turned away. */
  function Retained<T>(s: seq<T>, x: T, at: Option<nat>): seq<T>
    requires at.Some? ==> at.value <= |s|
  {
    if at.None? then s else if at.value == |s| then s + [x] else s[at.value := x]
  }

  /** Where a new element goes; `orEqual` says whether it replaces an equal one. */
  method RetainAt<T(!new)>(kept: seq<T>, x: T, slots: nat, leq: (T, T) -> bool, orEqual: bool, ghost seen: seq<T>)
    returns (at: Option<nat>)
    requires TotalPreorder(leq) && IsTopK(multiset(kept), multiset(seen), slots, leq)
    ensures at == Slot(kept, x, slots, leq, orEqual)
    ensures IsTopK(multiset(Retained(kept, x, at)), multiset(seen + [x]), slots, leq)
  {
    hide IsTopK, TotalPreorder;
    TopKSize(multiset(kept), multiset(seen), slots, leq);
    assert multiset(seen + [x]) == multiset(seen) + multiset{x};
    if |kept| < slots {
      TopKRoom(multiset(kept), multiset(seen), slots, leq, x);
      return Some(|kept|);
    }
    if kept == [] {
      TopKIgnore(multiset(kept), multiset(seen), slots, leq, x);
      return None;
    }
    var least := FirstLeast(kept, leq);
    LeastOfMultiset(kept, least, x, leq);
    if (if orEqual then leq(kept[least], x) else !leq(x, kept[least])) {
      TopKReplace(multiset(kept), multiset(seen), slots, leq, x, kept[least]);
      assert multiset(kept[least := x]) == multiset(kept) - multiset{kept[least]} + multiset{x};
      return Some(least);
    }
    TopKIgnore(multiset(kept), multiset(seen), slots, leq, x);
    return None;
  }

  lemma TopKSize<T>(kept: multiset<T>, all: multiset<T>, k: nat, leq: (T, T) -> bool)
    requires IsTopK(kept, all, k, leq)
    ensures |kept| <= k
  {
  }

  lemma LeastOfMultiset<T(!new)>(s: seq<T>, least: nat, x: T, leq: (T, T) -> bool)
    requires TotalPreorder(leq) && least < |s| && forall i :: 0 <= i < |s| ==> leq(s[least], s[i])
    ensures s[least] in multiset(s) && forall y :: y in multiset(s) ==> leq(s[least], y)
    ensures leq(s[least], x) || leq(x, s[least])
    ensures leq(x, s[least]) ==> forall y :: y in multiset(s) ==> leq(x, y)
  {
    forall y | y in multiset(s) ensures leq(s[least], y) {
      assert y in s;
    }
  }

  class RecentLogs {
    /** The active log first, if there is one, then the retained rotated logs. */
    var candidates: seq<Candidate>
    var entries: seq<LogEntry>
    const active: Option<Candidate>

    constructor (active: Option<Candidate>)
      ensures this.active == active && candidates == Actives() && entries == []
    {
      this.active := active;
      candidates := if active.Some? then [active.value] else [];
      entries := [];
    }

    function Actives(): seq<Candidate> { if active.Some? then [active.value] else [] }

    /** The retained candidates are the active log and the newest rotated logs among `seen`. */
    ghost predicate Selected(seen: seq<Candidate>, limit: nat)
      requires limit > 0
      reads this
    {
      && Actives() <= candidates
      && IsTopK(multiset(candidates[|Actives()|..]), multiset(seen), limit - |Actives()|, Older)
    }

    /** `retain_candidate`: `seen` are the rotated logs offered so far. */
    method RetainCandidate(candidate: Candidate, limit: nat, ghost seen: seq<Candidate>)
      requires limit > 0 && Selected(seen, limit)
      modifies this`candidates
      ensures Selected(seen + [candidate], limit)
    {
      hide Older, IsTopK;
      OlderIsTotalOrder();
      var from := |Actives()|;
      var rotated := candidates[from..];
      var at := RetainAt(rotated, candidate, limit - from, Older, false, seen);
      if at.Some? {
        candidates := if at.value == |rotated| then candidates + [candidate]
                      else candidates[from + at.value := candidate];
        assert candidates[from..] == Retained(rotated, candidate, at);
      }
    }

    /** The retained entries are those that one pass over `seen` keeps, and no other choice has greater epochs. */
    ghost predicate Recent(seen: seq<LogEntry>, limit: nat)
      reads this
    {
      && entries == Kept(seen, limit)
      && multiset(entries) <= multiset(seen)
      && IsTopK(multiset(Epochs(entries)), multiset(Epochs(seen)), limit, AtMost)
    }

    /** `retain_recent_entry`: an entry as old as the oldest replaces it. */
    method RetainRecentEntry(entry: LogEntry, limit: nat, ghost seen: seq<LogEntry>)
      requires Recent(seen, limit)
      modifies this`entries
      ensures Recent(seen + [entry], limit)
    {
      hide IsTopK, Kept, Slot;
      var at := RetainAt(Epochs(entries), entry.epochMs, limit, AtMost, true, Epochs(seen));
      KeptStep(seen, entry, limit);
      EpochsRetained(entries, entry, at);
      RetainedFrom(entries, entry, at);
      EpochsSnoc(seen, entry);
      assert multiset(seen + [entry]) == multiset(seen) + multiset{entry};
      if at.Some? {
        entries := if at.value == |entries| then entries + [entry] else entries[at.value := entry];
      }
    }

    /** The directory scan, up to its own limit. */
    method ScanDirectory(listing: seq<DirEntry>, limits: Limits) returns (scanned: nat, truncated: bool, matching: nat)
      requires limits.fileLimit > 0 && Selected([], limits.fileLimit)
      modifies this`candidates
      ensures scanned == Min(|listing|, limits.directoryEntryLimit)
      ensures truncated == (|listing| > limits.directoryEntryLimit)
      ensures matching == |Offered(listing[..scanned])| && Selected(Offered(listing[..scanned]), limits.fileLimit)
    {
      hide Ascii, Selected;
      scanned, truncated, matching := 0, false, 0;
      while scanned < |listing|
        invariant scanned <= |listing| && scanned <= limits.directoryEntryLimit
        invariant matching == |Offered(listing[..scanned])| && Selected(Offered(listing[..scanned]), limits.fileLimit)
      {
        if scanned == limits.directoryEntryLimit {
          truncated := true;
          return;
        }
        var e := listing[scanned];
        OfferedConcat(listing[..scanned], [e]);
        assert listing[..scanned + 1] == listing[..scanned] + [e];
        OfferedOne(e);
        if IsRotatedLog(e) {
          RetainCandidate(Candidate(e.name, e.modified, false), limits.fileLimit, Offered(listing[..scanned]));
          matching := matching + 1;
        } else {
          assert Offered(listing[..scanned]) + [] == Offered(listing[..scanned]);
        }
        scanned := scanned + 1;
      }
    }

    /** The line loop over one file. */
    method ReadLines(lines: seq<Bytes>, parse: Bytes -> Option<LogEntry>, limit: nat, ghost seen: seq<LogEntry>)
      requires Recent(seen, limit)
      modifies this`entries
      ensures Recent(seen + ParseAll(lines, parse), limit)
    {
      hide Recent, ParseAll;
      ghost var done := seen;
      assert lines[0..] == lines;
      for i := 0 to |lines|
        invariant Recent(done, limit)
        invariant seen + ParseAll(lines, parse) == done + ParseAll(lines[i..], parse)
      {
        assert lines[i..][1..] == lines[i + 1..];
        var entry := parse(lines[i]);
        ParseStep(lines[i..], parse);
        if entry.Some? {
          RetainRecentEntry(entry.value, limit, done);
          done := done + [entry.value];
        }
      }
      ParseNothing(lines[|lines|..], parse);
      assert done + [] == done;
    }

    /** The file loop under the byte budget. */
    method ReadFiles(cs: seq<Candidate>, files: Bytes -> Option<Bytes>, parse: Bytes -> Option<LogEntry>,
                     limits: Limits)
      returns (counts: Counts)
      requires Recent([], limits.entryLimit)
      modifies this`entries
      ensures counts == ReadAll(cs, files, parse, limits.fileBytes, limits.totalBytes).counts
      ensures Recent(ReadAll(cs, files, parse, limits.fileBytes, limits.totalBytes).entries, limits.entryLimit)
    {
      hide Recent, ReadOne, ReadAll;
      ghost var all := ReadAll(cs, files, parse, limits.fileBytes, limits.totalBytes);
      ghost var seen: seq<LogEntry> := [];
      counts := NONE;
      var i := 0;
      assert cs[0..] == cs;
      while i < |cs|
        invariant i <= |cs| && counts.bytes <= limits.totalBytes && Recent(seen, limits.entryLimit)
        invariant var rest := ReadAll(cs[i..], files, parse, limits.fileBytes, limits.totalBytes - counts.bytes);
                  all.entries == seen + rest.entries && all.counts == counts.Plus(rest.counts)
      {
        var remaining := limits.totalBytes - counts.bytes;
        if remaining == 0 {
          break;
        }
        ReadAllStep(cs, i, files, parse, limits.fileBytes, remaining);
        var one := ReadFile(files(cs[i].path), parse, limits.fileBytes, remaining, limits.entryLimit, seen);
        seen := seen + ReadOne(files(cs[i].path), parse, limits.fileBytes, remaining).entries;
        counts := counts.Plus(one);
        i := i + 1;
      }
      ReadAllEnds(cs, i, files, parse, limits.fileBytes, limits.totalBytes - counts.bytes);
      assert seen + [] == seen;
    }

    /** The body of the file loop: the tail of one file, line by line, or a read failure. */
    method ReadFile(content: Option<Bytes>, parse: Bytes -> Option<LogEntry>, fileBytes: nat, remaining: nat,
                    limit: nat, ghost seen: seq<LogEntry>)
      returns (counts: Counts)
      requires Recent(seen, limit)
      modifies this`entries
      ensures counts == ReadOne(content, parse, fileBytes, remaining).counts
      ensures Recent(seen + ReadOne(content, parse, fileBytes, remaining).entries, limit)
    {
      hide Recent, Tail, SplitLines, AfterFirstLine, ParseAll;
      if content.None? {
        assert seen + [] == seen;
        return Counts(0, 0, 0, 1);
      }
      var readLimit := Min(fileBytes, remaining);
      var bytes := Tail(content.value, readLimit);
      var truncated := |content.value| > readLimit;
      ReadLines(SplitLines(if truncated then AfterFirstLine(bytes) else bytes), parse, limit, seen);
      return Counts(|bytes|, 1, if truncated then 1 else 0, 0);
    }
  }

  // ---------- Selecting files ----------

  datatype DirEntry = Unreadable | Named(name: Bytes, isFile: bool, modified: int)

  predicate IsRotatedLog(e: DirEntry)
  {
    && e.Named? && e.isFile
    && Ascii("omenbrowser_rs-") <= e.name
    && |e.name| >= 6 && e.name[|e.name| - 6..] == Ascii(".jsonl")
  }

  /** The rotated logs that a listing offers. */
  function Offered(listing: seq<DirEntry>): (r: seq<Candidate>)
    ensures forall i :: 0 <= i < |r| ==> !r[i].active
  {
    if listing == [] then []
    else
      var e := listing[0];
      (if IsRotatedLog(e) then [Candidate(e.name, e.modified, false)] else []) + Offered(listing[1..])
  }

  lemma {:induction false} OfferedConcat(a: seq<DirEntry>, b: seq<DirEntry>)
    ensures Offered(a + b) == Offered(a) + Offered(b)
  {
    hide IsRotatedLog;
    if a == [] {
      assert a + b == b;
    } else {
      OfferedConcat(a[1..], b);
      assert (a + b)[1..] == a[1..] + b;
    }
  }

  /** Newest first. */
  predicate Newer(a: Candidate, b: Candidate) { Older(b, a) }

  /** The active log first, then newest first. */
  predicate ReadOrder(a: Candidate, b: Candidate)
  {
    if a.active != b.active then a.active else Newer(a, b)
  }

  lemma ReadOrderIsTotalOrder()
    ensures TotalOrder(ReadOrder) && TotalOrder(Newer)
  {
    hide Older;
    OlderIsTotalOrder();
  }

  lemma NewerIsPreorder()
    ensures TotalPreorder(Newer)
  {
    ReadOrderIsTotalOrder();
  }

  /** The active log, then the `limit` newest of the others: one sort of everything. */
  function Selection(active: Option<Candidate>, offered: seq<Candidate>, limit: nat): seq<Candidate>
    requires limit > 0
  {
    var first := if active.Some? then [active.value] else [];
    first + Take(Sort(offered, Newer), limit - |first|)
  }

  lemma SelectionIsTopK(offered: seq<Candidate>, k: nat)
    ensures IsTopK(multiset(Take(Sort(offered, Newer), k)), multiset(offered), k, Older)
  {
    hide Older, Sort, TotalOrder, TotalPreorder;
    ReadOrderIsTotalOrder();
    NewerIsPreorder();
    var t := Sort(offered, Newer);
    SortMultiset(offered, Newer);
    SortSorted(offered, Newer);
    var cut := |Take(t, k)|;
    assert t == t[..cut] + t[cut..] && Take(t, k) == t[..cut];
    assert multiset(t) - multiset(t[..cut]) == multiset(t[cut..]);
    forall x, y | x in multiset(t[..cut]) && y in multiset(t[cut..]) ensures Older(y, x) {
      assert x in t[..cut] && y in t[cut..];
    }
  }

  /** Sorting the streamed candidates for reading gives that selection. */
  lemma StreamedSelection(active: Option<Candidate>, rotated: seq<Candidate>, offered: seq<Candidate>, limit: nat)
    requires limit > 0 && (active.Some? ==> active.value.active)
    requires forall i :: 0 <= i < |offered| ==> !offered[i].active
    requires var first := if active.Some? then [active.value] else [];
             IsTopK(multiset(rotated), multiset(offered), limit - |first|, Older)
    ensures var first := if active.Some? then [active.value] else [];
            Sort(first + rotated, ReadOrder) == Selection(active, offered, limit)
  {
    hide Older, Sort, Sorted, IsTopK, TotalPreorder, Take, ReadOrder, Newer;
    var first := if active.Some? then [active.value] else [];
    var best := Take(Sort(offered, Newer), limit - |first|);
    OlderIsTotalOrder();
    ReadOrderIsTotalOrder();
    SelectionIsTopK(offered, limit - |first|);
    TopKUnique(multiset(rotated), multiset(best), multiset(offered), limit - |first|, Older);
    SortSorted(first + rotated, ReadOrder);
    SortMultiset(first + rotated, ReadOrder);
    assert multiset(first + rotated) == multiset(first) + multiset(rotated);
    assert multiset(first + best) == multiset(first) + multiset(best);
    SelectionSorted(first, offered, limit - |first|);
    SortedUnique(Sort(first + rotated, ReadOrder), first + best, ReadOrder);
  }

  lemma SelectionSorted(first: seq<Candidate>, offered: seq<Candidate>, k: nat)
    requires |first| <= 1 && (first != [] ==> first[0].active)
    requires forall i :: 0 <= i < |offered| ==> !offered[i].active
    ensures Sorted(first + Take(Sort(offered, Newer), k), ReadOrder)
  {
    SortedNewest(offered);
    var t := Take(Sort(offered, Newer), k);
    assert Sorted(t, Newer) && forall i :: 0 <= i < |t| ==> !t[i].active by {
      hide Older, Sort;
    }
    ActiveFirst(first, t);
  }

  lemma ActiveFirst(first: seq<Candidate>, t: seq<Candidate>)
    requires |first| <= 1 && (first != [] ==> first[0].active)
    requires Sorted(t, Newer) && forall i :: 0 <= i < |t| ==> !t[i].active
    ensures Sorted(first + t, ReadOrder)
  {
    hide Older;
    if first == [] {
      assert first + t == t;
    } else {
      var s := first + t;
      forall i, j | 0 <= i < j < |s| ensures ReadOrder(s[i], s[j]) {
        if i > 0 {
          assert Newer(t[i - 1], t[j - 1]);
        }
      }
    }
  }

  lemma SortedNewest(offered: seq<Candidate>)
    requires forall i :: 0 <= i < |offered| ==> !offered[i].active
    ensures Sorted(Sort(offered, Newer), Newer)
    ensures forall i :: 0 <= i < |offered| ==> !Sort(offered, Newer)[i].active
  {
    hide Older;
    ReadOrderIsTotalOrder();
    var t := Sort(offered, Newer);
    SortSorted(offered, Newer);
    SortMultiset(offered, Newer);
    forall i | 0 <= i < |t| ensures !t[i].active {
      assert t[i] in multiset(t);
      assert t[i] in offered;
    }
  }

  // ---------- Reading files ----------

  /** The last `limit` bytes of a file. */
  function Tail(content: Bytes, limit: nat): (r: Bytes)
    ensures |r| <= limit && |r| <= |content|
  {
    if |content| <= limit then content else content[|content| - limit..]
  }

  /** What follows the first line break, or nothing. */
  function AfterFirstLine(bytes: Bytes): Bytes
  {
    if bytes == [] then [] else if bytes[0] == 10 then bytes[1..] else AfterFirstLine(bytes[1..])
  }

  function SplitLines(bytes: Bytes): (r: seq<Bytes>)
    ensures r != []
  {
    if bytes == [] then [[]]
    else
      var rest := SplitLines(bytes[1..]);
      if bytes[0] == 10 then [[]] + rest else [[bytes[0]] + rest[0]] + rest[1..]
  }

  function ParseAll(lines: seq<Bytes>, parse: Bytes -> Option<LogEntry>): seq<LogEntry>
  {
    if lines == [] then []
    else if parse(lines[0]).Some? then [parse(lines[0]).value] + ParseAll(lines[1..], parse)
    else ParseAll(lines[1..], parse)
  }

  /** The entries read from one file: a truncated read drops its first, partial line. */
  function FileEntries(content: Bytes, limit: nat, parse: Bytes -> Option<LogEntry>): seq<LogEntry>
  {
    var bytes := Tail(content, limit);
    ParseAll(SplitLines(if |content| > limit then AfterFirstLine(bytes) else bytes), parse)
  }

  function Min(a: nat, b: nat): nat { if a < b then a else b }

  datatype Counts = Counts(bytes: nat, files: nat, truncated: nat, failures: nat)
  {
    function Plus(other: Counts): Counts
    {
      Counts(bytes + other.bytes, files + other.files, truncated + other.truncated, failures + other.failures)
    }
  }

  const NONE: Counts := Counts(0, 0, 0, 0)

  datatype Readout = Readout(entries: seq<LogEntry>, counts: Counts)

  /** What one file gives; `None` is a file that cannot be read. */
  function ReadOne(content: Option<Bytes>, parse: Bytes -> Option<LogEntry>, fileBytes: nat, budget: nat): (r: Readout)
    ensures r.counts.bytes <= budget
  {
    if content.None? then Readout([], Counts(0, 0, 0, 1))
    else
      var limit := Min(fileBytes, budget);
      Readout(FileEntries(content.value, limit, parse),
              Counts(|Tail(content.value, limit)|, 1, if |content.value| > limit then 1 else 0, 0))
  }

  /** Everything the byte budget lets the reader see, file after file. */
  function ReadAll(cs: seq<Candidate>, files: Bytes -> Option<Bytes>, parse: Bytes -> Option<LogEntry>,
                   fileBytes: nat, budget: nat): (r: Readout)
    ensures r.counts.bytes <= budget
    decreases cs
  {
    if cs == [] || budget == 0 then Readout([], NONE)
    else
      var first := ReadOne(files(cs[0].path), parse, fileBytes, budget);
      var rest := ReadAll(cs[1..], files, parse, fileBytes, budget - first.counts.bytes);
      Readout(first.entries + rest.entries, first.counts.Plus(rest.counts))
  }

  /** What one pass over the entries keeps, in its own order. */
  function Kept(seen: seq<LogEntry>, limit: nat): (kept: seq<LogEntry>)
  {
    if seen == [] then []
    else
      var kept, x := Kept(seen[..|seen| - 1], limit), seen[|seen| - 1];
      Retained(kept, x, Slot(Epochs(kept), x.epochMs, limit, AtMost, true))
  }

  function Epochs(es: seq<LogEntry>): (r: seq<int>)
    ensures |r| == |es|
  {
    seq(|es|, i requires 0 <= i < |es| => es[i].epochMs)
  }

  lemma OfferedOne(e: DirEntry)
    ensures Offered([e]) == if IsRotatedLog(e) then [Candidate(e.name, e.modified, false)] else []
  {
  }

  lemma ReadAllStep(cs: seq<Candidate>, i: nat, files: Bytes -> Option<Bytes>, parse: Bytes -> Option<LogEntry>,
                    fileBytes: nat, budget: nat)
    requires i < |cs| && budget > 0
    ensures var first := ReadOne(files(cs[i].path), parse, fileBytes, budget);
            var all, rest := ReadAll(cs[i..], files, parse, fileBytes, budget),
                             ReadAll(cs[i + 1..], files, parse, fileBytes, budget - first.counts.bytes);
            all == Readout(first.entries + rest.entries, first.counts.Plus(rest.counts))
  {
    hide ReadOne;
    assert cs[i..][0] == cs[i] && cs[i..][1..] == cs[i + 1..];
  }

  lemma ReadAllEnds(cs: seq<Candidate>, i: nat, files: Bytes -> Option<Bytes>, parse: Bytes -> Option<LogEntry>,
                    fileBytes: nat, budget: nat)
    requires i <= |cs| && (i == |cs| || budget == 0)
    ensures ReadAll(cs[i..], files, parse, fileBytes, budget) == Readout([], NONE)
  {
  }

  lemma EpochsConcat(a: seq<LogEntry>, b: seq<LogEntry>)
    ensures Epochs(a + b) == Epochs(a) + Epochs(b)
  {
  }

  lemma ParseStep(lines: seq<Bytes>, parse: Bytes -> Option<LogEntry>)
    requires lines != []
    ensures parse(lines[0]).Some? ==>
              ParseAll(lines, parse) == [parse(lines[0]).value] + ParseAll(lines[1..], parse)
    ensures parse(lines[0]).None? ==> ParseAll(lines, parse) == ParseAll(lines[1..], parse)
  {
  }

  lemma ParseNothing(lines: seq<Bytes>, parse: Bytes -> Option<LogEntry>)
    requires lines == []
    ensures ParseAll(lines, parse) == []
  {
  }

  /** Pushing or replacing adds at most the new element. */
  lemma RetainedFrom(s: seq<LogEntry>, x: LogEntry, at: Option<nat>)
    requires at.Some? ==> at.value <= |s|
    ensures multiset(Retained(s, x, at)) <= multiset(s) + multiset{x}
  {
    if at.Some? && at.value < |s| {
      assert s == s[..at.value] + [s[at.value]] + s[at.value + 1..];
      assert s[at.value := x] == s[..at.value] + [x] + s[at.value + 1..];
    }
  }

  lemma EpochsRetained(s: seq<LogEntry>, x: LogEntry, at: Option<nat>)
    requires at.Some? ==> at.value <= |s|
    ensures Epochs(Retained(s, x, at)) == Retained(Epochs(s), x.epochMs, at)
  {
  }

  lemma EpochsSnoc(s: seq<LogEntry>, x: LogEntry)
    ensures Epochs(s + [x]) == Epochs(s) + [x.epochMs]
  {
  }

  lemma KeptStep(seen: seq<LogEntry>, x: LogEntry, limit: nat)
    ensures var kept := Kept(seen, limit);
            Kept(seen + [x], limit) == Retained(kept, x, Slot(Epochs(kept), x.epochMs, limit, AtMost, true))
  {
    hide Slot;
    assert (seen + [x])[..|seen|] == seen;
  }

  // ---------- The whole reader ----------

  predicate ByEpoch(a: LogEntry, b: LogEntry) { a.epochMs <= b.epochMs }

  lemma {:induction false} EpochsInsert(s: seq<LogEntry>, x: LogEntry)
    ensures Epochs(Insert(s, x, ByEpoch)) == Insert(Epochs(s), x.epochMs, AtMost)
  {
    if s == [] || ByEpoch(s[|s| - 1], x) {
      EpochsConcat(s, [x]);
    } else {
      EpochsInsert(s[..|s| - 1], x);
      EpochsConcat(Insert(s[..|s| - 1], x, ByEpoch), [s[|s| - 1]]);
      assert Epochs(s)[..|s| - 1] == Epochs(s[..|s| - 1]);
    }
  }

  lemma {:induction false} EpochsSort(s: seq<LogEntry>)
    ensures Epochs(Sort(s, ByEpoch)) == Sort(Epochs(s), AtMost)
  {
    if s != [] {
      EpochsSort(s[..|s| - 1]);
      EpochsInsert(Sort(s[..|s| - 1], ByEpoch), s[|s| - 1]);
      assert Epochs(s)[..|s| - 1] == Epochs(s[..|s| - 1]);
    }
  }

  datatype Stats = Stats(
    directoryEntriesScanned: nat, directoryScanTruncated: bool, matchingFiles: nat, selectedFiles: nat,
    readings: Counts)

  /**
   * `load_recent_log_entries`: reading the selection that one sort of all offered files would
   * give, it returns what one pass keeps of everything the byte budget showed it, in order of time;
   * their epochs are the greatest there were.
   */
  method LoadRecentLogEntries(active: Option<int>, listing: seq<DirEntry>,
                              files: Bytes -> Option<Bytes>, parse: Bytes -> Option<LogEntry>, limits: Limits)
    returns (entries: seq<LogEntry>, stats: Stats)
    ensures limits.entryLimit == 0 || limits.fileLimit == 0 || limits.totalBytes == 0 ==>
              entries == [] && stats == Stats(0, false, 0, 0, NONE)
    ensures limits.entryLimit > 0 && limits.fileLimit > 0 && limits.totalBytes > 0 ==>
              var offered := Offered(listing[..Min(|listing|, limits.directoryEntryLimit)]);
              var selection := Selection(ActiveLog(active), offered, limits.fileLimit);
              var seen := ReadAll(selection, files, parse, limits.fileBytes, limits.totalBytes);
              && entries == Sort(Kept(seen.entries, limits.entryLimit), ByEpoch)
              && IsMostRecent(entries, seen.entries, limits.entryLimit)
              && seen.counts.bytes <= limits.totalBytes
              && stats == Stats(Min(|listing|, limits.directoryEntryLimit), |listing| > limits.directoryEntryLimit,
                                |offered| + (if active.Some? then 1 else 0), |selection|, seen.counts)
  {
    hide IsTopK, Older, ReadAll, Selection, Offered, Sort, Kept, IsMostRecent;
    if limits.entryLimit == 0 || limits.fileLimit == 0 || limits.totalBytes == 0 {
      return [], Stats(0, false, 0, 0, NONE);
    }
    var activeLog := ActiveLog(active);
    var logs := new RecentLogs(activeLog);
    NothingSeen<Candidate>(limits.fileLimit - |logs.Actives()|, Older);
    assert logs.candidates[|logs.Actives()|..] == [];
    StartIsRecent(logs, limits.entryLimit);
    var scanned, truncated, matching := logs.ScanDirectory(listing, limits);
    StreamedSelection(activeLog, logs.candidates[|logs.Actives()|..], Offered(listing[..scanned]), limits.fileLimit);
    assert logs.candidates == logs.Actives() + logs.candidates[|logs.Actives()|..];
    var selection := Sort(logs.candidates, ReadOrder);
    var counts := logs.ReadFiles(selection, files, parse, limits);
    ghost var seen := ReadAll(selection, files, parse, limits.fileBytes, limits.totalBytes);
    MostRecentFrom(logs, seen.entries, limits.entryLimit);
    entries := Sort(logs.entries, ByEpoch);
    stats := Stats(scanned, truncated, matching + |logs.Actives()|, |selection|, counts);
  }

  /** Some of the entries seen, with the `limit` greatest epochs in ascending order. */
  ghost predicate IsMostRecent(entries: seq<LogEntry>, seen: seq<LogEntry>, limit: nat)
  {
    && Epochs(entries) == Last(Sort(Epochs(seen), AtMost), limit)
    && multiset(entries) <= multiset(seen)
  }

  lemma StartIsRecent(logs: RecentLogs, limit: nat)
    requires logs.entries == []
    ensures logs.Recent([], limit)
  {
    assert Epochs([]) == [];
    NothingSeen<int>(limit, AtMost);
  }

  lemma MostRecentFrom(logs: RecentLogs, seen: seq<LogEntry>, limit: nat)
    requires logs.Recent(seen, limit)
    ensures IsMostRecent(Sort(logs.entries, ByEpoch), seen, limit) && logs.entries == Kept(seen, limit)
  {
    hide IsTopK, Sort, Kept, Last, TotalPreorder;
    IntsAreOrdered();
    EpochsSort(logs.entries);
    SortMultiset(logs.entries, ByEpoch);
    StreamedEqualsSorted(Epochs(logs.entries), Epochs(seen), limit, AtMost);
  }

  function ActiveLog(modified: Option<int>): (c: Option<Candidate>)
    ensures c.Some? <==> modified.Some?
    ensures c.Some? ==> c.value.active
  {
    if modified.Some? then Some(Candidate(Ascii("omenbrowser_rs.jsonl"), modified.value, true)) else None
  }

  lemma NothingSeen<T>(k: nat, leq: (T, T) -> bool)
    ensures IsTopK(multiset([]), multiset([]), k, leq)
  {
  }

  lemma IntsAreOrdered()
    ensures TotalOrder(AtMost)
  {
  }
}
