/** What pruning the directory keeps and what it removes. */
module DirectoryPruning {
  import opened Ordering
  import opened Seqs
  import opened StableSort
  import opened Directory

  lemma KeyOrder(a: Key, b: Key, c: Key)
    ensures KeyLeq(a, b) || KeyLeq(b, a)
    ensures KeyLeq(a, b) && KeyLeq(b, a) ==> a == b
    ensures KeyLeq(a, b) && KeyLeq(b, c) ==> KeyLeq(a, c)
  {
    hide LexLeq;
    LexTotal(a.hash, b.hash);
    if LexLeq(a.hash, b.hash) && LexLeq(b.hash, a.hash) {
      LexAntisymmetric(a.hash, b.hash);
    }
    if LexLeq(a.hash, b.hash) && LexLeq(b.hash, c.hash) {
      LexTransitive(a.hash, b.hash, c.hash);
    }
  }

  lemma {:induction false} LeastKey(keys: set<Key>) returns (m: Key)
    requires keys != {}
    ensures m in keys && forall k :: k in keys ==> KeyLeq(m, k)
    decreases keys
  {
    hide KeyLeq;
    var x :| x in keys;
    KeyOrder(x, x, x);
    if keys == {x} {
      m := x;
    } else {
      var rest := LeastKey(keys - {x});
      KeyOrder(rest, x, x);
      m := if KeyLeq(rest, x) then rest else x;
      forall k | k in keys ensures KeyLeq(m, k) {
        if k != x {
          KeyOrder(m, rest, k);
        }
      }
    }
  }

  /** Counting from the least key, every rank is taken once. */
  lemma {:induction false} LeastSize(keys: set<Key>, n: nat)
    ensures |Least(keys, n)| == if n < |keys| then n else |keys|
    decreases keys
  {
    hide Below, KeyLeq;
    if keys == {} || n == 0 {
      assert Least(keys, n) == {};
    } else {
      var m := LeastKey(keys);
      var rest := keys - {m};
      LeastSize(rest, n - 1);
      BelowLeast(keys, m);
      forall k | k in rest ensures |Below(keys, k)| == 1 + |Below(rest, k)| {
        BelowSplit(keys, m, k);
      }
      assert Least(keys, n) == {m} + Least(rest, n - 1);
    }
  }

  lemma BelowLeast(keys: set<Key>, m: Key)
    requires forall k :: k in keys ==> KeyLeq(m, k)
    ensures |Below(keys, m)| == 0
  {
    hide KeyLeq;
    forall k | k in keys ensures !KeyLess(k, m) {
      KeyOrder(m, k, m);
    }
  }

  lemma BelowSplit(keys: set<Key>, m: Key, k: Key)
    requires m in keys && k in keys && k != m && forall l :: l in keys ==> KeyLeq(m, l)
    ensures |Below(keys, k)| == 1 + |Below(keys - {m}, k)|
  {
    hide KeyLeq;
    assert Below(keys, k) == {m} + Below(keys - {m}, k);
  }

  /** Whatever is among the least is strictly less than whatever is not. */
  lemma LeastIsDownwardClosed(keys: set<Key>, n: nat, a: Key, b: Key)
    requires a in Least(keys, n) && b in keys && b !in Least(keys, n)
    ensures KeyLess(a, b)
  {
    hide KeyLeq;
    KeyOrder(a, b, b);
    if KeyLeq(b, a) {
      forall l | l in Below(keys, b) ensures l in Below(keys, a) {
        KeyOrder(l, b, a);
        KeyOrder(b, l, l);
      }
      SubsetSize(Below(keys, b), Below(keys, a));
    }
  }

  lemma {:induction false} SubsetSize<T>(a: set<T>, b: set<T>)
    requires a <= b
    ensures |a| <= |b|
  {
    assert b == a + (b - a);
    assert |b| == |a| + |b - a|;
  }

  // ---------- Pruning ----------

  function Excess(m: map<Hash, Entry>, now: real): nat
  {
    var n := |FreshKeys(m, now)|;
    if n > TRANSIENT_ENTRY_MAXCOUNT then n - TRANSIENT_ENTRY_MAXCOUNT else 0
  }

  lemma RemovableIsTransient(m: map<Hash, Entry>, now: real, h: Hash)
    requires h in Removable(m, now)
    ensures h in m && !IsPersistent(m[h])
  {
    hide Least, IsPersistent;
    LeastWithin(FreshKeys(m, now), Excess(m, now));
  }

  /** Every persistent entry survives, and no survivor changes. */
  lemma PruneKeepsPersistent(m: Memory, now: real)
    ensures forall h :: h in m.entries && IsPersistent(m.entries[h]) ==> h in Prune(m, now).entries
    ensures forall h :: h in Prune(m, now).entries ==> h in m.entries && Prune(m, now).entries[h] == m.entries[h]
    ensures forall h :: h in m.entries && h !in Prune(m, now).entries ==> !IsPersistent(m.entries[h])
  {
    hide Removable, IsPersistent, FreshStream, Without;
    forall h | h in m.entries && h !in Prune(m, now).entries ensures !IsPersistent(m.entries[h]) {
      RemovableIsTransient(m.entries, now, h);
    }
  }

  /**
   * The evicted fresh entries are exactly as many as overflow the limit, and each was unseen
   * longer than every transient entry that stays, ties broken by hash.
   */
  lemma PruneEvictsLeast(m: Memory, now: real)
    ensures |Overflow(m.entries, now)| == Excess(m.entries, now)
    ensures forall h :: h in m.entries && h !in Prune(m, now).entries ==>
              IsStale(m.entries[h], now) || h in Overflow(m.entries, now)
    ensures forall h, k ::
              h in Overflow(m.entries, now) && k in Prune(m, now).entries && !IsPersistent(m.entries[k]) ==>
              h in m.entries && KeyLess(Key(m.entries[h].lastSeen, h), Key(m.entries[k].lastSeen, k))
  {
    hide Least, IsPersistent, IsStale, KeyLess, Without, FreshStream;
    var keys, n := FreshKeys(m.entries, now), Excess(m.entries, now);
    LeastSize(keys, n);
    LeastWithin(keys, n);
    HashesOf(m.entries, now, Least(keys, n));
    forall h, k | h in Overflow(m.entries, now) && k in Prune(m, now).entries && !IsPersistent(m.entries[k])
      ensures h in m.entries && KeyLess(Key(m.entries[h].lastSeen, h), Key(m.entries[k].lastSeen, k))
    {
      RemovableIsTransient(m.entries, now, h);
      var a, b := Key(m.entries[h].lastSeen, h), Key(m.entries[k].lastSeen, k);
      assert a in Least(keys, n);
      assert b in keys && b !in Least(keys, n);
      LeastIsDownwardClosed(keys, n, a, b);
    }
  }

  lemma LeastWithin(keys: set<Key>, n: nat)
    ensures Least(keys, n) <= keys
  {
  }

  /** Keys of one map are told apart by their hashes. */
  lemma {:induction false} HashesOf(m: map<Hash, Entry>, now: real, keys: set<Key>)
    requires keys <= FreshKeys(m, now)
    ensures |set k | k in keys :: k.hash| == |keys|
    decreases keys
  {
    hide IsPersistent, IsStale;
    if keys != {} {
      var x :| x in keys;
      HashesOf(m, now, keys - {x});
      assert (set k | k in keys :: k.hash) == (set k | k in keys - {x} :: k.hash) + {x.hash};
    }
  }

  /** What is left over: no stale transient entry, and no more transient entries than allowed. */
  lemma PruneBoundsTransients(m: Memory, now: real)
    ensures StaleHashes(Prune(m, now).entries, now) == {}
    ensures FreshKeys(Prune(m, now).entries, now)
         == FreshKeys(m.entries, now) - Least(FreshKeys(m.entries, now), Excess(m.entries, now))
    ensures |FreshKeys(Prune(m, now).entries, now)| <= TRANSIENT_ENTRY_MAXCOUNT
  {
    hide Least, IsPersistent, IsStale, Without, FreshStream, FreshKeys, Overflow;
    var keys, n := FreshKeys(m.entries, now), Excess(m.entries, now);
    LeastSize(keys, n);
    SizeOfRest(keys, n);
    forall k | k in keys ensures k in Least(keys, n) <==> k.hash in Removable(m.entries, now) {
      KeyIsRemovable(m.entries, now, k);
    }
    FreshKeysWithout(m.entries, Removable(m.entries, now), now);
    assert FreshKeys(Prune(m, now).entries, now) == keys - Least(keys, n);
  }

  lemma SizeOfRest(keys: set<Key>, n: nat)
    ensures |keys - Least(keys, n)| == |keys| - |Least(keys, n)|
  {
    hide Least;
    LeastWithin(keys, n);
    assert keys == (keys - Least(keys, n)) + Least(keys, n);
  }

  lemma FreshKeysWithout(m: map<Hash, Entry>, hashes: set<Hash>, now: real)
    ensures FreshKeys(m - hashes, now) == set k | k in FreshKeys(m, now) && k.hash !in hashes
  {
    hide IsPersistent, IsStale;
    forall k | k in FreshKeys(m, now) && k.hash !in hashes ensures k in FreshKeys(m - hashes, now) {
      assert k.hash in m - hashes;
    }
  }

  lemma KeyIsRemovable(m: map<Hash, Entry>, now: real, k: Key)
    requires k in FreshKeys(m, now)
    ensures k in Least(FreshKeys(m, now), Excess(m, now)) <==> k.hash in Removable(m, now)
  {
    hide Least, IsPersistent, IsStale;
    LeastWithin(FreshKeys(m, now), Excess(m, now));
  }

  ghost predicate StreamInside(m: Memory)
  {
    forall e :: e in m.stream ==> e.destinationHash in m.entries
  }

  lemma PruneKeepsStreamInside(m: Memory, now: real)
    requires StreamInside(m)
    ensures StreamInside(Prune(m, now))
    ensures forall e :: e in Prune(m, now).stream ==> e in m.stream
    ensures |Prune(m, now).stream| <= ANNOUNCE_STREAM_MAXLENGTH
  {
    hide Removable, IsPersistent, IsStale;
    var removable := Removable(m.entries, now);
    var kept := FreshStream(m.stream, now);
    var cut := Take(kept, ANNOUNCE_STREAM_MAXLENGTH);
    FilterSound(m.stream, (e: Entry) => IsPersistent(e) || !IsStale(e, now));
    FilterSound(cut, (e: Entry) => e.destinationHash !in removable);
  }

  /** Pruning again at the same time finds nothing to do. */
  lemma PruneIsIdempotent(m: Memory, now: real)
    ensures Prune(Prune(m, now), now) == Prune(m, now) && !PruneChanges(Prune(m, now), now)
  {
    hide Least, IsPersistent, IsStale;
    var p := Prune(m, now);
    PruneBoundsTransients(m, now);
    LeastOfNone(FreshKeys(p.entries, now));
    assert Removable(p.entries, now) == {};
    PrunedStreamIsFresh(m, now);
    FilterKeepsAll(p.stream, (e: Entry) => IsPersistent(e) || !IsStale(e, now));
    FilterKeepsAll(p.stream, (e: Entry) => e.destinationHash !in Removable(p.entries, now));
  }

  lemma LeastOfNone(keys: set<Key>)
    ensures Least(keys, 0) == {}
  {
  }

  lemma PrunedStreamIsFresh(m: Memory, now: real)
    ensures |Prune(m, now).stream| <= ANNOUNCE_STREAM_MAXLENGTH
    ensures forall e :: e in Prune(m, now).stream ==> IsPersistent(e) || !IsStale(e, now)
  {
    hide Removable, IsPersistent, IsStale;
    var removable := Removable(m.entries, now);
    var kept := FreshStream(m.stream, now);
    var cut := Take(kept, ANNOUNCE_STREAM_MAXLENGTH);
    assert forall e :: e in cut ==> e in kept;
    FilterSound(m.stream, (e: Entry) => IsPersistent(e) || !IsStale(e, now));
    FilterSound(cut, (e: Entry) => e.destinationHash !in removable);
  }
}
