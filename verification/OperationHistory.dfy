/** The operation history object (src/operations.rs): a deque of records, updated in place. */
module OperationHistory {
  import opened Common
  import opened Seqs
  import opened Operations

  class OperationHistory {
    var records: seq<Record>
    var retainedBytes: nat
    var rejected: Word
    var evictedTerminal: Word
    const maxItems: nat
    const maxBytes: nat

    ghost function View(): History
      reads this
    {
      History(records, retainedBytes, rejected, evictedTerminal, maxItems, maxBytes)
    }

    constructor (maxItems: nat, maxBytes: nat)
      ensures View() == Empty(maxItems, maxBytes) && Valid(View())
    {
      records := [];
      retainedBytes := 0;
      rejected := 0;
      evictedTerminal := 0;
      this.maxItems := if maxItems < 1 then 1 else maxItems;
      this.maxBytes := if maxBytes < 1 then 1 else maxBytes;
    }

    method Upsert(record: Record) returns (r: Result<(), Error>)
      requires Valid(View())
      modifies this
      ensures (View(), r) == Operations.Upsert(old(View()), record) && Valid(View())
    {
      hide Validate, Others, Evictions, Survivors, Evicted, Valid, RecordBytes, EvictFront, Terminals, UniqueIds;
      UpsertKeepsValid(View(), record);
      ValidMeans(View());
      var valid := Validate(record);
      if valid.Err? {
        rejected := SaturatingAdd(rejected, 1);
        return Err(valid.error);
      }
      var projectedItems, projectedBytes, evict, i := PlanEvictions(record);
      EvictionsAt(View(), record, i);
      if projectedItems > maxItems || projectedBytes > maxBytes {
        rejected := SaturatingAdd(rejected, 1);
        return Err(HistoryCapacity);
      }
      RetainGivesSurvivors(records, record.id, i, evict);
      SurvivorsAre(records, record.id, i);
      TotalConcat(Survivors(records, record.id, i), [record]);
      records := Filter(records, (x: Record) => x.id != record.id && x.id !in evict) + [record];
      retainedBytes := projectedBytes;
      evictedTerminal := SaturatingAdd(evictedTerminal, if |evict| <= WORD_MAX then |evict| else WORD_MAX);
      r := Ok(());
    }

    method Remove(id: Id) returns (r: Option<Record>)
      requires Valid(View())
      modifies this
      ensures (View(), r) == Operations.Remove(old(View()), id) && Valid(View())
    {
      hide Validate, Valid, Others, TotalBytes, RecordBytes, Find;
      ValidMeans(View());
      RemoveKeepsValid(View(), id);
      OthersSizes(records, id);
      r := None;
      assert records[0..] == records;
      for i := 0 to |records|
        invariant records == old(records) && Find(records, id) == Find(records[i..], id)
        invariant View() == old(View())
      {
        FindStep(records, i, id);
        if records[i].id == id {
          RemoveAt(records, i);
          r := Some(records[i]);
          retainedBytes := retainedBytes - RecordBytes(records[i]);
          records := records[..i] + records[i + 1..];
          return;
        }
      }
      FindEnds(records, id);
    }

    method ReplaceDomainSnapshot(domain: Domain, snapshot: seq<Record>) returns (r: Result<(), Error>)
      requires Valid(View())
      modifies this
      ensures (View(), r) == Operations.ReplaceDomainSnapshot(old(View()), domain, snapshot) && Valid(View())
    {
      hide Validate, Valid, OfOtherDomains;
      SnapshotKeepsValid(View(), domain, snapshot);
      if exists i :: 0 <= i < |snapshot| && snapshot[i].id.domain != domain {
        rejected := SaturatingAdd(rejected, 1);
        return Err(DomainMismatch);
      }
      var duplicate := HasDuplicateIds(snapshot);
      if duplicate {
        rejected := SaturatingAdd(rejected, 1);
        return Err(DuplicateOperation);
      }
      var snapshotBytes := ValidatedBytes(snapshot);
      if snapshotBytes.Err? {
        rejected := SaturatingAdd(rejected, 1);
        return Err(snapshotBytes.error);
      }
      var kept := OfOtherDomains(records, domain);
      var keptBytes := SumBytes(kept);
      if |kept| + |snapshot| > maxItems || keptBytes + snapshotBytes.value > maxBytes {
        rejected := SaturatingAdd(rejected, 1);
        return Err(HistoryCapacity);
      }
      TotalConcat(kept, snapshot);
      records := kept + snapshot;
      retainedBytes := keptBytes + snapshotBytes.value;
      r := Ok(());
    }

    method ExpireTerminalBefore(cutoffUnixMs: int, maxRemove: nat) returns (removed: nat)
      requires Valid(View())
      modifies this
      ensures (View(), removed) == Operations.ExpireTerminalBefore(old(View()), cutoffUnixMs, maxRemove)
      ensures Valid(View())
    {
      hide Validate;
      ExpireKeepsValid(View(), cutoffUnixMs, maxRemove);
      if maxRemove == 0 {
        return 0;
      }
      var kept, removedBytes;
      kept, removed, removedBytes := RetainUnexpired(records, cutoffUnixMs, maxRemove);
      records := kept;
      retainedBytes := retainedBytes - removedBytes;
    }

    /** The front-to-back scan of `upsert`: stops as soon as the projection fits, `i` records in. */
    method PlanEvictions(record: Record)
      returns (projectedItems: nat, projectedBytes: nat, evict: set<Id>, ghost i: nat)
      requires UniqueIds(records) && retainedBytes == TotalBytes(records)
      ensures i <= |records| && evict == Evicted(records, record.id, i)
      ensures var s := Survivors(records, record.id, i);
              projectedItems == |s| + 1 && projectedBytes == TotalBytes(s) + RecordBytes(record)
      ensures forall j: nat :: j < i ==> !HasRoom(View(), Survivors(records, record.id, j), record)
      ensures HasRoom(View(), Survivors(records, record.id, i), record) || i == |records|
    {
      hide Others, Survivors, Evicted, RecordBytes;
      var existing := Find(records, record.id);
      OthersSizes(records, record.id);
      SurvivorsAtStart(records, record.id);
      projectedItems := |records| - (if existing.Some? then 1 else 0) + 1;
      var existingBytes := if existing.Some? then RecordBytes(existing.value) else 0;
      projectedBytes := retainedBytes - existingBytes + RecordBytes(record);
      evict := {};
      var at := 0;
      while at < |records| && !(projectedItems <= maxItems && projectedBytes <= maxBytes)
        invariant at <= |records| && evict == Evicted(records, record.id, at)
        invariant var s := Survivors(records, record.id, at);
                  projectedItems == |s| + 1 && projectedBytes == TotalBytes(s) + RecordBytes(record)
        invariant forall j: nat :: j < at ==> !HasRoom(View(), Survivors(records, record.id, j), record)
      {
        SurvivorsStep(records, record.id, at);
        EvictedStep(records, record.id, at);
        if records[at].id != record.id && records[at].state.IsTerminal() {
          projectedItems := projectedItems - 1;
          projectedBytes := projectedBytes - RecordBytes(records[at]);
          evict := evict + {records[at].id};
        }
        at := at + 1;
      }
      i := at;
    }
  }

  method HasDuplicateIds(rs: seq<Record>) returns (duplicate: bool)
    ensures duplicate <==> !UniqueIds(rs)
  {
    var ids: set<Id> := {};
    for i := 0 to |rs|
      invariant ids == set k | 0 <= k < i :: rs[k].id
      invariant forall a, b :: 0 <= a < b < i ==> rs[a].id != rs[b].id
    {
      if rs[i].id in ids {
        return true;
      }
      ids := ids + {rs[i].id};
    }
    return false;
  }

  method ValidatedBytes(rs: seq<Record>) returns (r: Result<nat, Error>)
    ensures r == if FirstInvalid(rs).Some? then Err(FirstInvalid(rs).value) else Ok(TotalBytes(rs))
  {
    hide Validate;
    var bytes := 0;
    for i := 0 to |rs|
      invariant FirstInvalid(rs) == FirstInvalid(rs[i..])
      invariant bytes == TotalBytes(rs[..i])
    {
      var valid := Validate(rs[i]);
      assert rs[i..][1..] == rs[i + 1..];
      if valid.Err? {
        return Err(valid.error);
      }
      TotalConcat(rs[..i], [rs[i]]);
      assert rs[..i + 1] == rs[..i] + [rs[i]];
      bytes := bytes + valid.value;
    }
    assert rs[..|rs|] == rs;
    r := Ok(bytes);
  }

  method SumBytes(rs: seq<Record>) returns (bytes: nat)
    ensures bytes == TotalBytes(rs)
  {
    bytes := 0;
    for i := 0 to |rs|
      invariant bytes == TotalBytes(rs[..i])
    {
      TotalConcat(rs[..i], [rs[i]]);
      assert rs[..i + 1] == rs[..i] + [rs[i]];
      bytes := bytes + RecordBytes(rs[i]);
    }
    assert rs[..|rs|] == rs;
  }

  /** The `retain` pass of `expire_terminal_before`, with its counters. */
  method RetainUnexpired(rs: seq<Record>, cutoff: int, maxRemove: nat)
    returns (kept: seq<Record>, removed: nat, removedBytes: nat)
    ensures kept == DropFirst(rs, maxRemove, (r: Record) => ExpiredBefore(r, cutoff))
    ensures |kept| + removed == |rs| && TotalBytes(kept) + removedBytes == TotalBytes(rs)
  {
    hide RecordBytes, TotalBytes, DropFirst;
    ghost var p := (r: Record) => ExpiredBefore(r, cutoff);
    kept, removed, removedBytes := [], 0, 0;
    assert rs[0..] == rs;
    for i := 0 to |rs|
      invariant removed <= maxRemove && |kept| + removed == i
      invariant kept + DropFirst(rs[i..], maxRemove - removed, p) == DropFirst(rs, maxRemove, p)
      invariant TotalBytes(kept) + removedBytes == TotalBytes(rs[..i])
    {
      ExpireStep(rs, i, kept, p, maxRemove - removed);
      if removed < maxRemove && rs[i].state.IsTerminal() && rs[i].updatedAtUnixMs < cutoff {
        removed := removed + 1;
        removedBytes := removedBytes + RecordBytes(rs[i]);
      } else {
        kept := kept + [rs[i]];
      }
    }
    assert rs[..|rs|] == rs;
  }

  lemma ExpireStep(rs: seq<Record>, i: nat, kept: seq<Record>, p: Record -> bool, n: nat)
    requires i < |rs|
    ensures TotalBytes(rs[..i + 1]) == TotalBytes(rs[..i]) + RecordBytes(rs[i])
    ensures TotalBytes(kept + [rs[i]]) == TotalBytes(kept) + RecordBytes(rs[i])
    ensures n > 0 && p(rs[i]) ==> DropFirst(rs[i..], n, p) == DropFirst(rs[i + 1..], n - 1, p)
    ensures n == 0 || !p(rs[i]) ==>
              kept + DropFirst(rs[i..], n, p) == kept + [rs[i]] + DropFirst(rs[i + 1..], n, p)
  {
    hide RecordBytes;
    assert rs[i..][1..] == rs[i + 1..];
    assert rs[..i + 1] == rs[..i] + [rs[i]];
    assert TotalBytes([rs[i]]) == RecordBytes(rs[i]);
    TotalConcat(rs[..i], [rs[i]]);
    TotalConcat(kept, [rs[i]]);
  }

  lemma FindStep(rs: seq<Record>, i: nat, id: Id)
    requires i < |rs|
    ensures Find(rs[i..], id) == if rs[i].id == id then Some(rs[i]) else Find(rs[i + 1..], id)
  {
    assert rs[i..][1..] == rs[i + 1..];
  }

  lemma FindEnds(rs: seq<Record>, id: Id)
    ensures Find(rs[|rs|..], id) == None
  {
  }

  lemma {:induction false} RemoveAt(rs: seq<Record>, i: nat)
    requires i < |rs| && UniqueIds(rs)
    ensures Others(rs, rs[i].id) == rs[..i] + rs[i + 1..]
  {
    var p := (r: Record) => r.id != rs[i].id;
    assert rs == rs[..i] + ([rs[i]] + rs[i + 1..]);
    FilterConcat(rs[..i], [rs[i]] + rs[i + 1..], p);
    FilterConcat([rs[i]], rs[i + 1..], p);
    FilterKeepsAll(rs[..i], p);
    FilterKeepsAll(rs[i + 1..], p);
  }

  lemma ValidMeans(h: History)
    requires Valid(h)
    ensures UniqueIds(h.records) && h.bytes == TotalBytes(h.records)
  {
  }

  /** The other records once the terminal ones among the first `i` records are evicted. */
  ghost function Survivors(rs: seq<Record>, id: Id, i: nat): seq<Record>
    requires i <= |rs|
  {
    Unresolved(Others(rs[..i], id)) + Others(rs[i..], id)
  }

  ghost function Evicted(rs: seq<Record>, id: Id, i: nat): set<Id>
    requires i <= |rs|
  {
    set j | 0 <= j < i && rs[j].id != id && rs[j].state.IsTerminal() :: rs[j].id
  }

  lemma SurvivorsAtStart(rs: seq<Record>, id: Id)
    ensures Survivors(rs, id, 0) == Others(rs, id) && Evicted(rs, id, 0) == {}
  {
    assert rs[..0] == [] && rs[0..] == rs;
    assert Unresolved(Others([], id)) == [];
  }

  lemma SurvivorsStep(rs: seq<Record>, id: Id, i: nat)
    requires i < |rs|
    ensures var s, s' := Survivors(rs, id, i), Survivors(rs, id, i + 1);
            if rs[i].id != id && rs[i].state.IsTerminal()
            then |s'| == |s| - 1 && TotalBytes(s') == TotalBytes(s) - RecordBytes(rs[i])
            else s' == s
  {
    hide RecordBytes, Unresolved, Others, TotalBytes;
    OthersStep(rs, id, i);
    var pre, post := Others(rs[..i], id), Others(rs[i + 1..], id);
    if rs[i].id != id {
      EvictOne(pre, rs[i], post);
    } else {
      assert pre + [] == pre && [] + post == post;
    }
  }

  lemma OthersStep(rs: seq<Record>, id: Id, i: nat)
    requires i < |rs|
    ensures var mid := if rs[i].id != id then [rs[i]] else [];
            && Others(rs[..i + 1], id) == Others(rs[..i], id) + mid
            && Others(rs[i..], id) == mid + Others(rs[i + 1..], id)
  {
    var p := (r: Record) => r.id != id;
    assert rs[..i + 1] == rs[..i] + [rs[i]];
    assert rs[i..] == [rs[i]] + rs[i + 1..];
    FilterConcat(rs[..i], [rs[i]], p);
    FilterConcat([rs[i]], rs[i + 1..], p);
  }

  lemma EvictOne(pre: seq<Record>, x: Record, post: seq<Record>)
    ensures var s, s' := Unresolved(pre) + ([x] + post), Unresolved(pre + [x]) + post;
            if x.state.IsTerminal() then |s'| == |s| - 1 && TotalBytes(s') == TotalBytes(s) - RecordBytes(x)
            else s' == s
  {
    hide RecordBytes;
    FilterConcat(pre, [x], (r: Record) => !r.state.IsTerminal());
    assert Unresolved([x]) == if x.state.IsTerminal() then [] else [x];
    assert Unresolved(pre) + [] == Unresolved(pre);
    assert TotalBytes([x]) == RecordBytes(x);
    TotalConcat(Unresolved(pre), [x] + post);
    TotalConcat([x], post);
    TotalConcat(Unresolved(pre), post);
  }

  lemma SurvivorsAre(rs: seq<Record>, id: Id, i: nat)
    requires i <= |rs|
    ensures Survivors(rs, id, i) == EvictFront(Others(rs, id), Terminals(Others(rs[..i], id)))
  {
    var pre, post := Others(rs[..i], id), Others(rs[i..], id);
    assert rs == rs[..i] + rs[i..];
    FilterConcat(rs[..i], rs[i..], (r: Record) => r.id != id);
    DropFirstSplit(pre, post, (r: Record) => r.state.IsTerminal(), (r: Record) => !r.state.IsTerminal());
  }

  lemma {:induction false} EvictedCount(rs: seq<Record>, id: Id, i: nat)
    requires i <= |rs| && UniqueIds(rs)
    ensures |Evicted(rs, id, i)| == Terminals(Others(rs[..i], id))
    decreases i
  {
    hide Terminals, Evicted;
    if i == 0 {
      EmptyPrefix(rs, id);
      SurvivorsAtStart(rs, id);
    } else {
      EvictedCount(rs, id, i - 1);
      EvictedStep(rs, id, i - 1);
      TerminalsStep(rs, id, i - 1);
    }
  }

  lemma EvictedStep(rs: seq<Record>, id: Id, i: nat)
    requires i < |rs| && UniqueIds(rs)
    ensures rs[i].id !in Evicted(rs, id, i)
    ensures Evicted(rs, id, i + 1)
         == Evicted(rs, id, i) + if rs[i].id != id && rs[i].state.IsTerminal() then {rs[i].id} else {}
  {
  }

  lemma TerminalsStep(rs: seq<Record>, id: Id, i: nat)
    requires i < |rs|
    ensures Terminals(Others(rs[..i + 1], id))
         == Terminals(Others(rs[..i], id)) + if rs[i].id != id && rs[i].state.IsTerminal() then 1 else 0
  {
    assert rs[..i + 1] == rs[..i] + [rs[i]];
    FilterConcat(rs[..i], [rs[i]], (r: Record) => r.id != id);
    CountConcat(Others(rs[..i], id), Others([rs[i]], id), (r: Record) => r.state.IsTerminal());
  }

  lemma EmptyPrefix(rs: seq<Record>, id: Id)
    ensures Terminals(Others(rs[..0], id)) == 0
  {
    assert rs[..0] == [];
  }

  /** Some earlier prefix holds exactly `k` of the terminal records. */
  lemma {:induction false} PrefixWith(rs: seq<Record>, id: Id, i: nat, k: nat) returns (j: nat)
    requires i <= |rs| && k < Terminals(Others(rs[..i], id))
    ensures j < i && Terminals(Others(rs[..j], id)) == k
    decreases i
  {
    EmptyPrefix(rs, id);
    TerminalsStep(rs, id, i - 1);
    if k < Terminals(Others(rs[..i - 1], id)) {
      j := PrefixWith(rs, id, i - 1, k);
    } else {
      j := i - 1;
    }
  }

  /** Where the scan stops, the number evicted so far is the least that makes room, if any does. */
  lemma EvictionsAt(h: History, r: Record, i: nat)
    requires i <= |h.records| && forall j: nat :: j < i ==> !HasRoom(h, Survivors(h.records, r.id, j), r)
    requires HasRoom(h, Survivors(h.records, r.id, i), r) || i == |h.records|
    ensures Evictions(h, Others(h.records, r.id), r, 0)
         == if HasRoom(h, Survivors(h.records, r.id, i), r) then Some(Terminals(Others(h.records[..i], r.id))) else None
  {
    hide Others, Survivors, HasRoom;
    var others := Others(h.records, r.id);
    var n := Terminals(Others(h.records[..i], r.id));
    SurvivorsAre(h.records, r.id, i);
    forall k: nat | k < n ensures !HasRoom(h, EvictFront(others, k), r) {
      var j := PrefixWith(h.records, r.id, i, k);
      SurvivorsAre(h.records, r.id, j);
    }
    TerminalsPrefix(h.records, r.id, i);
    if i == |h.records| {
      assert h.records[..i] == h.records;
    }
  }

  lemma TerminalsPrefix(rs: seq<Record>, id: Id, i: nat)
    requires i <= |rs|
    ensures Terminals(Others(rs[..i], id)) <= Terminals(Others(rs, id))
  {
    assert rs == rs[..i] + rs[i..];
    FilterConcat(rs[..i], rs[i..], (r: Record) => r.id != id);
    CountConcat(Others(rs[..i], id), Others(rs[i..], id), (r: Record) => r.state.IsTerminal());
  }

  lemma RetainGivesSurvivors(rs: seq<Record>, id: Id, i: nat, evict: set<Id>)
    requires i <= |rs| && UniqueIds(rs) && evict == Evicted(rs, id, i)
    ensures Filter(rs, (x: Record) => x.id != id && x.id !in evict) == Survivors(rs, id, i)
    ensures |evict| == Terminals(Others(rs[..i], id))
  {
    hide Evicted, Filter, UniqueIds;
    EvictedCount(rs, id, i);
    var keep := (x: Record) => x.id != id && x.id !in evict;
    RetainEarlier(rs, id, i, keep);
    RetainLater(rs, id, i, keep);
    FilterConcat(rs[..i], rs[i..], keep);
    assert rs == rs[..i] + rs[i..];
  }

  lemma RetainEarlier(rs: seq<Record>, id: Id, i: nat, keep: Record -> bool)
    requires i <= |rs| && UniqueIds(rs) && forall x :: keep(x) == (x.id != id && x.id !in Evicted(rs, id, i))
    ensures Filter(rs[..i], keep) == Unresolved(Others(rs[..i], id))
  {
    hide Evicted, Filter, UniqueIds;
    var p, q := (x: Record) => x.id != id, (x: Record) => !x.state.IsTerminal();
    forall x | x in rs[..i] ensures keep(x) == (p(x) && q(x)) {
      assert x in rs;
      if x.id != id {
        EvictedMeans(rs, id, i, x);
      }
    }
    FilterTwice(rs[..i], p, q, keep);
  }

  lemma RetainLater(rs: seq<Record>, id: Id, i: nat, keep: Record -> bool)
    requires i <= |rs| && UniqueIds(rs) && forall x :: keep(x) == (x.id != id && x.id !in Evicted(rs, id, i))
    ensures Filter(rs[i..], keep) == Others(rs[i..], id)
  {
    hide Evicted, Filter, UniqueIds;
    forall x | x in rs[i..] ensures keep(x) == (x.id != id) {
      LaterNotEvicted(rs, id, i, x);
    }
    FilterSame(rs[i..], keep, (x: Record) => x.id != id);
  }

  lemma EvictedMeans(rs: seq<Record>, id: Id, i: nat, x: Record)
    requires i <= |rs| && UniqueIds(rs) && x in rs && x.id != id
    ensures x in rs[..i] ==> (x.id in Evicted(rs, id, i) <==> x.state.IsTerminal())
  {
  }

  lemma LaterNotEvicted(rs: seq<Record>, id: Id, i: nat, x: Record)
    requires i <= |rs| && UniqueIds(rs) && x in rs[i..]
    ensures x.id !in Evicted(rs, id, i)
  {
  }

  /** The other records' number and size, from the one record that shares the identifier. */
  lemma {:induction false} OthersSizes(rs: seq<Record>, id: Id)
    requires UniqueIds(rs)
    ensures var found := Find(rs, id);
            && |Others(rs, id)| == |rs| - (if found.Some? then 1 else 0)
            && TotalBytes(Others(rs, id)) == TotalBytes(rs) - (if found.Some? then RecordBytes(found.value) else 0)
  {
    hide RecordBytes;
    if rs != [] {
      var p := (r: Record) => r.id != id;
      if rs[0].id == id {
        assert forall x :: x in rs[1..] ==> p(x);
        FilterKeepsAll(rs[1..], p);
      } else {
        OthersSizes(rs[1..], id);
        TotalConcat([rs[0]], Others(rs[1..], id));
      }
    }
  }
}
