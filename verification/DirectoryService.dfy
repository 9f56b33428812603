/** The directory service object (src/directory.rs): its fields, and its file as one more field. */
module DirectoryService {
  import opened Common
  import opened Seqs
  import opened StableSort
  import opened Directory
  import opened DirectoryPruning
  import opened DirectoryRuns
  import opened DirectoryLastSeen

  datatype Error = InvalidStrings | IdentityChanged | SaveFailed

  class DirectoryService {
    var entries: map<Hash, Entry>
    var announceStream: seq<Entry>
    var pendingLiveSave: bool
    var pendingLiveSaveDue: real
    /** The contents of the file. */
    var file: Store

    ghost function Mem(): Memory
      reads this
    {
      Memory(entries, announceStream, pendingLiveSave, pendingLiveSaveDue)
    }

    ghost function View(): World
      reads this
    {
      World(Mem(), file)
    }

    /** A service with an empty file. */
    constructor ()
      ensures View() == World(Memory(map[], [], false, 0.0), Store(map[], []))
      ensures Synced(View()) && WellStored(Mem())
    {
      entries, announceStream, pendingLiveSave, pendingLiveSaveDue := map[], [], false, 0.0;
      file := Store(map[], []);
    }

    method IngestAnnounce(a: Announce, t: Times) returns (r: Result<Entry, Error>)
      modifies this
      ensures View() == Step(old(View()), DoAnnounce(a, t))
      ensures r == if !ValidAnnounce(a) then Err(InvalidStrings)
                   else if IdentityConflict(Lookup(old(entries), a.destinationHash), a) then Err(IdentityChanged)
                   else Ok(Announced(Lookup(old(entries), a.destinationHash), a, t.seen))
    {
      hide ValidAnnounce, Prune, PruneChanges, Announced, ShouldSave, IdentityConflict;
      if !ValidAnnounce(a) {
        return Err(InvalidStrings);
      }
      var existing := Lookup(entries, a.destinationHash);
      if IdentityConflict(existing, a) {
        return Err(IdentityChanged);
      }
      var entry := Announced(existing, a, t.seen);
      var shouldSaveEntry := ShouldSave(existing, entry, t.seen);
      entries := entries[a.destinationHash := entry];
      announceStream := [entry] + Filter(announceStream, (x: Entry) => x.destinationHash != a.destinationHash);
      announceStream := Take(announceStream, ANNOUNCE_STREAM_MAXLENGTH);
      var pruned := PruneTransientEntries(t.prune);
      if shouldSaveEntry || pruned {
        ScheduleSave(t.schedule);
      }
      return Ok(entry);
    }

    method ScheduleSave(now: real)
      modifies this`pendingLiveSave, this`pendingLiveSaveDue
      ensures Mem() == ScheduleLiveSave(old(Mem()), now)
    {
      var due := now + LIVE_ANNOUNCE_SAVE_DEBOUNCE_SECONDS;
      if !pendingLiveSave || pendingLiveSaveDue > due {
        pendingLiveSave := true;
        pendingLiveSaveDue := due;
      }
    }

    method PruneTransientEntries(now: real) returns (changed: bool)
      modifies this`entries, this`announceStream
      ensures Mem() == Prune(old(Mem()), now) && changed == PruneChanges(old(Mem()), now)
    {
      hide FreshStream, Removable;
      var retained := FreshStream(announceStream, now);
      changed := |retained| != |announceStream|;
      announceStream := Take(retained, ANNOUNCE_STREAM_MAXLENGTH);
      var removable := RemovableHashes(entries, now);
      if removable != {} {
        changed := true;
        entries := entries - removable;
        announceStream := Without(announceStream, removable);
      } else {
        FilterKeepsAll(announceStream, (e: Entry) => e.destinationHash !in removable);
        assert entries - removable == entries;
      }
    }

    /** One attempt to write the file; memory keeps what the snapshot prunes. */
    method SaveNow(a: Attempt) returns (ok: bool)
      modifies this`file, this`pendingLiveSave, this`pendingLiveSaveDue
      ensures View() == Save(old(View()), a) && ok == Saves(old(Mem()), a)
    {
      hide Prune, ValidStore;
      var snapshot := new DirectoryService();
      snapshot.entries, snapshot.announceStream := entries, announceStream;
      snapshot.pendingLiveSave, snapshot.pendingLiveSaveDue := pendingLiveSave, pendingLiveSaveDue;
      var _ := snapshot.PruneTransientEntries(a.now);
      var next := Store(snapshot.entries, Take(snapshot.announceStream, ANNOUNCE_STREAM_MAXLENGTH));
      if !ValidStore(next) || !a.published {
        return false;
      }
      file := next;
      pendingLiveSave, pendingLiveSaveDue := false, 0.0;
      return true;
    }

    /** Any of the setters, through `persist_entry_change`: a failed save is rolled back. */
    method UpdateEntry(h: Hash, c: Change, a: Attempt) returns (r: Result<Option<Entry>, Error>)
      modifies this
      ensures View() == Step(old(View()), DoUpdate(h, c, a))
      ensures r == if Find(old(Mem()), h).None? then Ok(None)
                   else if SavesIn(old(View()), DoUpdate(h, c, a)) then Ok(Some(Apply(Find(old(Mem()), h).value, c)))
                   else Err(SaveFailed)
      ensures r.Err? ==> View() == old(View())
    {
      hide Saves, Snapshot, Apply;
      var found := if h in entries then Some(entries[h]) else FindInStream(announceStream, h);
      if found.None? {
        return Ok(None);
      }
      var entry := Apply(found.value, c);
      var previous := Lookup(entries, h);
      entries := entries[h := entry];
      var ok := SaveNow(a);
      if !ok {
        entries := if previous.Some? then entries[h := previous.value] else entries - {h};
        assert entries == old(entries);
        return Err(SaveFailed);
      }
      return Ok(Some(entry));
    }

    method ClearAnnounces(a: Attempt) returns (ok: bool)
      modifies this
      ensures View() == Step(old(View()), DoClear(a)) && ok == SavesIn(old(View()), DoClear(a))
      ensures !ok ==> View() == old(View())
    {
      hide Saves, Snapshot;
      var previous := announceStream;
      announceStream := [];
      ok := SaveNow(a);
      if !ok {
        announceStream := previous;
      }
    }

    /** The answer is whether a save was due; the error is a save that failed. */
    method FlushPending(a: Attempt) returns (r: Result<bool, Error>)
      modifies this
      ensures View() == Step(old(View()), DoFlushPending(a))
      ensures r == if !old(pendingLiveSave) then Ok(false)
                   else if Saves(old(Mem()), a) then Ok(true)
                   else Err(SaveFailed)
      ensures r == Ok(true) ==> !pendingLiveSave && Agree(entries, file.entries)
    {
      hide Snapshot, Agree, ValidStore;
      SaveAlwaysSyncs(View(), a);
      if pendingLiveSave {
        var ok := SaveNow(a);
        return if ok then Ok(true) else Err(SaveFailed);
      }
      return Ok(false);
    }

    method FlushDue(clock: real, a: Attempt) returns (r: Result<bool, Error>)
      modifies this
      ensures View() == Step(old(View()), DoFlushDue(clock, a))
      ensures r == if !old(pendingLiveSave) || old(pendingLiveSaveDue) > clock then Ok(false)
                   else if Saves(old(Mem()), a) then Ok(true)
                   else Err(SaveFailed)
    {
      hide Saves, Snapshot;
      if pendingLiveSave && pendingLiveSaveDue <= clock {
        var ok := SaveNow(a);
        return if ok then Ok(true) else Err(SaveFailed);
      }
      return Ok(false);
    }
  }

  // ---------- Finding what to prune ----------

  /** Collects stale entries, then sorts the fresh ones and takes the overflow from the front. */
  method RemovableHashes(m: map<Hash, Entry>, now: real) returns (removable: set<Hash>)
    ensures removable == Removable(m, now)
  {
    hide FreshKeys, StaleHashes, Least, KeyLeq, Sort;
    var stale, keys := CollectTransients(m, now);
    DistinctSize(keys);
    LeastOfNone(Elements(keys));
    removable := stale;
    if |keys| > TRANSIENT_ENTRY_MAXCOUNT {
      var overflow := Take(Sort(keys, KeyLeq), |keys| - TRANSIENT_ENTRY_MAXCOUNT);
      LeastOfSorted(keys, |keys| - TRANSIENT_ENTRY_MAXCOUNT);
      removable := removable + set k | k in overflow :: k.hash;
    }
  }

  method CollectTransients(m: map<Hash, Entry>, now: real) returns (stale: set<Hash>, keys: seq<Key>)
    ensures stale == StaleHashes(m, now)
    ensures Distinct(keys) && Elements(keys) == FreshKeys(m, now)
  {
    hide IsPersistent, IsStale;
    var remaining := m.Keys;
    stale, keys := {}, [];
    while remaining != {}
      invariant remaining <= m.Keys
      invariant stale == StaleHashes(m, now) - remaining
      invariant forall k :: k in keys <==> k in FreshKeys(m, now) && k.hash !in remaining
      invariant Distinct(keys)
      decreases |remaining|
    {
      var h :| h in remaining;
      if !IsPersistent(m[h]) {
        if IsStale(m[h], now) {
          stale := stale + {h};
        } else {
          keys := keys + [Key(m[h].lastSeen, h)];
        }
      }
      remaining := remaining - {h};
    }
  }

  function Elements(s: seq<Key>): set<Key> { set k | k in s }

  ghost predicate Distinct(s: seq<Key>)
  {
    forall i, j :: 0 <= i < j < |s| ==> s[i] != s[j]
  }

  lemma {:induction false} DistinctSize(s: seq<Key>)
    requires Distinct(s)
    ensures |Elements(s)| == |s|
  {
    if s != [] {
      DistinctSize(s[1..]);
      assert Elements(s) == {s[0]} + Elements(s[1..]);
    }
  }

  lemma KeyLeqIsTotalPreorder()
    ensures TotalPreorder(KeyLeq)
  {
    hide KeyLeq;
    forall a, b, c ensures KeyLeq(a, b) || KeyLeq(b, a)
      ensures KeyLeq(a, b) && KeyLeq(b, c) ==> KeyLeq(a, c)
    {
      KeyOrder(a, b, c);
    }
  }

  /** Sorting and cutting finds the keys of lowest rank. */
  lemma LeastOfSorted(s: seq<Key>, n: nat)
    requires Distinct(s)
    ensures Least(Elements(s), n) == Elements(Take(Sort(s, KeyLeq), n))
  {
    hide KeyLeq, Sort, Below;
    KeyLeqIsTotalPreorder();
    var t := Sort(s, KeyLeq);
    SortMultiset(s, KeyLeq);
    SortSorted(s, KeyLeq);
    SameElements(s, t);
    var keys := Elements(s);
    assert keys == Elements(t);
    forall i | 0 <= i < |t| ensures t[i] in keys && |Below(keys, t[i])| == i {
      RankInSorted(t, i);
    }
    forall k | k in Least(keys, n) ensures k in Take(t, n) {
      var i :| 0 <= i < |t| && t[i] == k;
      assert Take(t, n)[i] == k;
    }
    forall k | k in Take(t, n) ensures k in Least(keys, n) {
      var i :| 0 <= i < |Take(t, n)| && Take(t, n)[i] == k;
      assert t[i] == k;
    }
  }

  lemma SameElements(s: seq<Key>, t: seq<Key>)
    requires Distinct(s) && multiset(s) == multiset(t)
    ensures Distinct(t) && forall k :: k in s <==> k in t
  {
    forall k ensures k in s <==> k in t {
      assert k in multiset(s) <==> k in multiset(t);
    }
    forall i, j | 0 <= i < j < |t| ensures t[i] != t[j] {
      OnceEach(s, t[i]);
      CountedTwice(t, i, j);
    }
  }

  lemma CountedTwice(t: seq<Key>, i: nat, j: nat)
    requires i < j < |t|
    ensures t[i] == t[j] ==> multiset(t)[t[i]] >= 2
  {
    var front, back := t[..j], t[j..];
    assert t == front + back && front[i] == t[i] && back[0] == t[j];
    assert multiset(t) == multiset(front) + multiset(back);
    assert t[i] in front && t[j] in back;
  }

  lemma {:induction false} OnceEach(s: seq<Key>, k: Key)
    requires Distinct(s)
    ensures multiset(s)[k] <= 1
  {
    if s != [] {
      OnceEach(s[1..], k);
      assert s == [s[0]] + s[1..];
      if s[0] == k {
        assert k !in s[1..];
      }
    }
  }

  lemma RankInSorted(t: seq<Key>, i: nat)
    requires Distinct(t) && Sorted(t, KeyLeq) && i < |t|
    ensures |Below(Elements(t), t[i])| == i
  {
    hide KeyLeq;
    var keys := Elements(t);
    forall j | 0 <= j < |t| ensures KeyLess(t[j], t[i]) <==> j < i {
      KeyOrder(t[i], t[j], t[i]);
    }
    assert Below(keys, t[i]) == Elements(t[..i]);
    DistinctSize(t[..i]);
  }
}
