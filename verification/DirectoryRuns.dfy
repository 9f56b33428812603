/** What holds over every run of announces, settings, flushes and failed saves of the directory. */
module DirectoryRuns {
  import opened Ordering
  import opened Seqs
  import opened StableSort
  import opened Directory
  import opened DirectoryPruning

  datatype Command =
    | DoAnnounce(announce: Announce, times: Times)
    | DoUpdate(hash: Hash, change: Change, attempt: Attempt)
    | DoClear(attempt: Attempt)
    | DoFlushPending(attempt: Attempt)
    | DoFlushDue(clock: real, attempt: Attempt)

  function Step(w: World, c: Command): World
  {
    match c
    case DoAnnounce(a, t) => w.(mem := Ingest(w.mem, a, t))
    case DoUpdate(h, change, a) => Update(w, h, change, a)
    case DoClear(a) => ClearTransientAnnounces(w, a)
    case DoFlushPending(a) => FlushPendingSave(w, a)
    case DoFlushDue(clock, a) => FlushDueSave(w, clock, a)
  }

  function Run(w: World, cs: seq<Command>): World
    decreases cs
  {
    if cs == [] then w else Run(Step(w, cs[0]), cs[1..])
  }

  // ---------- Memory and disk ----------

  /**
   * The file holds no destination that memory lacks, agrees with memory on everything but
   * `lastSeen`, and lacks only transient entries.
   */
  ghost predicate Agree(m: map<Hash, Entry>, d: map<Hash, Entry>)
  {
    && (forall h :: h in d ==> h in m && SameButLastSeen(m[h], d[h]))
    && (forall h :: h in m && h !in d ==> !IsPersistent(m[h]))
  }

  ghost predicate Synced(w: World)
  {
    !w.mem.pending ==> Agree(w.mem.entries, w.disk.entries)
  }

  lemma SaveSyncs(w: World, a: Attempt)
    requires Synced(w)
    ensures Synced(Save(w, a))
    ensures Saves(w.mem, a) ==> Agree(w.mem.entries, Save(w, a).disk.entries)
  {
    hide Prune, ValidStore, IsPersistent;
    PruneKeepsPersistent(w.mem, a.now);
  }

  /** A duplicate announce leaves an entry that differs from the known one only in `lastSeen`. */
  lemma QuietIngestKeepsAgreement(m: Memory, a: Announce, t: Times, d: map<Hash, Entry>)
    requires Agree(m.entries, d) && !Ingest(m, a, t).pending
    ensures Agree(Ingest(m, a, t).entries, d)
  {
    hide Prune, PruneChanges, IsPersistent, Announced, SameButLastSeen, Accepts, Agree;
    if Accepts(m, a) {
      var existing := Lookup(m.entries, a.destinationHash);
      var m1 := Entered(m, a, t.seen);
      var e := m1.entries[a.destinationHash];
      QuietPruneKeepsEntries(m1, t.prune);
      assert !ShouldSave(existing, e, t.seen) && !PruneChanges(m1, t.prune);
      AgreeAfterTouch(m.entries, d, a.destinationHash, e);
    }
  }

  lemma AgreeAfterTouch(m: map<Hash, Entry>, d: map<Hash, Entry>, h: Hash, e: Entry)
    requires Agree(m, d) && h in m && SameButLastSeen(m[h], e)
    ensures Agree(m[h := e], d)
  {
    hide IsPersistent;
    SamePersistence(m[h], e);
  }

  lemma QuietPruneKeepsEntries(m: Memory, now: real)
    ensures !PruneChanges(m, now) ==> Prune(m, now).entries == m.entries
    ensures Prune(m, now).pending == m.pending && Prune(m, now).due == m.due
  {
    hide FreshStream, Removable, Without;
  }

  lemma SamePersistence(a: Entry, b: Entry)
    requires SameButLastSeen(a, b)
    ensures IsPersistent(a) == IsPersistent(b)
  {
  }

  lemma StepKeepsSynced(w: World, c: Command)
    requires Synced(w)
    ensures Synced(Step(w, c))
  {
    hide Agree, Ingest, Apply, Find;
    match c
    case DoAnnounce(a, t) =>
      IngestOnlySchedules(w.mem, a, t);
      if !Ingest(w.mem, a, t).pending {
        QuietIngestKeepsAgreement(w.mem, a, t, w.disk.entries);
      }
    case DoUpdate(h, change, a) =>
      if Find(w.mem, h).Some? {
        var changed := w.mem.(entries := w.mem.entries[h := Apply(Find(w.mem, h).value, change)]);
        SaveAlwaysSyncs(w.(mem := changed), a);
      }
    case DoClear(a) => SaveAlwaysSyncs(w.(mem := w.mem.(stream := [])), a);
    case DoFlushPending(a) => SaveSyncs(w, a);
    case DoFlushDue(_, a) => SaveSyncs(w, a);
  }

  lemma SaveAlwaysSyncs(w: World, a: Attempt)
    ensures Saves(w.mem, a) ==> Agree(Save(w, a).mem.entries, Save(w, a).disk.entries)
  {
    hide Prune, ValidStore, IsPersistent;
    PruneKeepsPersistent(w.mem, a.now);
  }

  /** An announce never cancels a pending save and never postpones it. */
  lemma IngestOnlySchedules(m: Memory, a: Announce, t: Times)
    ensures m.pending ==> Ingest(m, a, t).pending && Ingest(m, a, t).due <= m.due
    ensures !m.pending && Ingest(m, a, t).pending ==>
              Ingest(m, a, t).due == t.schedule + LIVE_ANNOUNCE_SAVE_DEBOUNCE_SECONDS
  {
    hide Prune, Announced, Accepts, ShouldSave, PruneChanges;
    if Accepts(m, a) {
      var m1 := Entered(m, a, t.seen);
      QuietPruneKeepsEntries(m1, t.prune);
    }
  }

  /** In every run, memory and disk agree whenever no save is pending. */
  lemma {:induction false} RunKeepsSynced(w: World, cs: seq<Command>)
    requires Synced(w)
    ensures Synced(Run(w, cs))
    decreases cs
  {
    hide Synced, Step;
    if cs != [] {
      StepKeepsSynced(w, cs[0]);
      RunKeepsSynced(Step(w, cs[0]), cs[1..]);
    }
  }

  lemma LoadedIsSynced(file: Store, stream: seq<Entry>, now: real, a: Attempt)
    requires Load(file, stream, now, a).Some?
    ensures Synced(Load(file, stream, now, a).value)
  {
    hide Prune, PruneChanges;
    var m := Memory(file.entries, Take(stream, ANNOUNCE_STREAM_MAXLENGTH), false, 0.0);
    QuietPruneKeepsEntries(m, now);
    SaveAlwaysSyncs(World(Prune(m, now), file), a);
  }

  /** From start-up on, whatever happens, memory and disk agree whenever no save is pending. */
  lemma EveryRunIsSynced(file: Store, stream: seq<Entry>, now: real, a: Attempt, cs: seq<Command>)
    requires Load(file, stream, now, a).Some?
    ensures var w := Run(Load(file, stream, now, a).value, cs);
            !w.mem.pending ==> Agree(w.mem.entries, w.disk.entries)
  {
    hide Load, Run, Agree;
    LoadedIsSynced(file, stream, now, a);
    RunKeepsSynced(Load(file, stream, now, a).value, cs);
  }

  // ---------- The save deadline ----------

  lemma StepNeverPostpones(w: World, c: Command)
    requires w.mem.pending && Step(w, c).mem.pending
    ensures Step(w, c).mem.due <= w.mem.due
  {
    hide Ingest, Find, Snapshot, ValidStore;
    if c.DoAnnounce? {
      IngestOnlySchedules(w.mem, c.announce, c.times);
    }
  }

  /** A save is pending at every state of the run. */
  ghost predicate PendingThroughout(w: World, cs: seq<Command>)
    decreases cs
  {
    w.mem.pending && (cs != [] ==> PendingThroughout(Step(w, cs[0]), cs[1..]))
  }

  lemma {:induction false} RunNeverPostpones(w: World, cs: seq<Command>)
    requires PendingThroughout(w, cs)
    ensures Run(w, cs).mem.due <= w.mem.due
    decreases cs
  {
    hide Step;
    if cs != [] {
      StepNeverPostpones(w, cs[0]);
      RunNeverPostpones(Step(w, cs[0]), cs[1..]);
    }
  }

  // ---------- Identity pinning ----------

  /** If `h` has a known identity before, it has the same one after, up to the case of letters. */
  ghost predicate Pinned(before: map<Hash, Entry>, after: map<Hash, Entry>, h: Hash)
  {
    h in before && h in after && before[h].identityHash.Some? ==>
      && after[h].identityHash.Some?
      && EqIgnoreCase(before[h].identityHash.value, after[h].identityHash.value)
  }

  lemma StepPinsIdentity(w: World, c: Command, h: Hash)
    ensures Pinned(w.mem.entries, Step(w, c).mem.entries, h)
  {
    hide Ingest, Saves, Snapshot;
    if c.DoAnnounce? {
      IngestPinsIdentity(w.mem, c.announce, c.times, h);
    }
  }

  lemma IngestPinsIdentity(m: Memory, a: Announce, t: Times, h: Hash)
    ensures Pinned(m.entries, Ingest(m, a, t).entries, h)
  {
    hide Prune, ShouldSave, PruneChanges, PreferredDisplayName, IsPersistent, ValidStrings;
    if Accepts(m, a) {
      var m1 := Entered(m, a, t.seen);
      PruneKeepsPersistent(m1, t.prune);
    }
  }

  ghost predicate StaysKnown(w: World, cs: seq<Command>, h: Hash)
    decreases cs
  {
    h in w.mem.entries && (cs != [] ==> StaysKnown(Step(w, cs[0]), cs[1..], h))
  }

  /** While an entry stays in the directory, no run changes or forgets its identity. */
  lemma {:induction false} RunPinsIdentity(w: World, cs: seq<Command>, h: Hash)
    requires StaysKnown(w, cs, h)
    ensures Pinned(w.mem.entries, Run(w, cs).mem.entries, h)
    decreases cs
  {
    hide Step;
    if cs != [] {
      StepPinsIdentity(w, cs[0], h);
      RunPinsIdentity(Step(w, cs[0]), cs[1..], h);
    }
  }

  /** An announce that claims another identity for a known destination changes nothing at all. */
  lemma ConflictingAnnounceIsInert(w: World, a: Announce, t: Times)
    requires IdentityConflict(Lookup(w.mem.entries, a.destinationHash), a)
    ensures Step(w, DoAnnounce(a, t)) == w
  {
  }

  // ---------- Stored entries ----------

  ghost predicate WellStored(m: Memory)
  {
    && (forall h :: h in m.entries ==> m.entries[h].destinationHash == h && ValidEntry(m.entries[h]))
    && (forall e :: e in m.stream ==> ValidEntry(e))
    && StreamInside(m)
  }

  lemma StepKeepsWellStored(w: World, c: Command)
    requires WellStored(w.mem)
    ensures WellStored(Step(w, c).mem)
  {
    hide ValidEntry, Snapshot, ValidStore;
    match c
    case DoAnnounce(a, t) => IngestKeepsWellStored(w.mem, a, t);
    case DoUpdate(h, change, a) =>
      if Find(w.mem, h).Some? {
        ApplyKeepsValid(Find(w.mem, h).value, change);
      }
    case DoClear(a) =>
    case DoFlushPending(a) =>
    case DoFlushDue(_, a) =>
  }

  lemma ApplyKeepsValid(e: Entry, c: Change)
    ensures ValidEntry(Apply(e, c)) == ValidEntry(e) && Apply(e, c).destinationHash == e.destinationHash
  {
  }

  lemma AnnouncedIsValid(m: Memory, a: Announce, now: real)
    requires Accepts(m, a) && WellStored(m)
    ensures var e := Announced(Lookup(m.entries, a.destinationHash), a, now);
            ValidEntry(e) && e.destinationHash == a.destinationHash
  {
    hide IsPlaceholderName;
  }

  lemma IngestKeepsWellStored(m: Memory, a: Announce, t: Times)
    requires WellStored(m)
    ensures WellStored(Ingest(m, a, t))
  {
    hide Prune, ShouldSave, PruneChanges, Announced, ValidEntry, Accepts, IsPersistent, WellStored, Filter, Lookup;
    if Accepts(m, a) {
      AnnouncedIsValid(m, a, t.seen);
      var e := Announced(Lookup(m.entries, a.destinationHash), a, t.seen);
      var p := (x: Entry) => x.destinationHash != a.destinationHash;
      var m1 := Entered(m, a, t.seen);
      EntryAddedIsWellStored(m, m1, e, p);
      PruneKeepsWellStored(m1, t.prune);
      WellStoredIgnoresSave(Prune(m1, t.prune), Ingest(m, a, t));
    }
  }

  lemma EntryAddedIsWellStored(m: Memory, m1: Memory, e: Entry, p: Entry -> bool)
    requires WellStored(m) && ValidEntry(e)
    requires m1.entries == m.entries[e.destinationHash := e]
    requires m1.stream == Take([e] + Filter(m.stream, p), ANNOUNCE_STREAM_MAXLENGTH)
    ensures WellStored(m1)
  {
    hide ValidEntry;
    FilterSound(m.stream, p);
    assert forall x :: x in m1.stream ==> x == e || x in m.stream;
  }

  lemma PruneKeepsWellStored(m: Memory, now: real)
    requires WellStored(m)
    ensures WellStored(Prune(m, now))
  {
    hide ValidEntry, Prune, IsPersistent;
    PruneKeepsPersistent(m, now);
    PruneKeepsStreamInside(m, now);
  }

  lemma WellStoredIgnoresSave(m: Memory, m': Memory)
    requires WellStored(m) && m'.entries == m.entries && m'.stream == m.stream
    ensures WellStored(m')
  {
    hide ValidEntry;
  }

  lemma {:induction false} RunKeepsWellStored(w: World, cs: seq<Command>)
    requires WellStored(w.mem)
    ensures WellStored(Run(w, cs).mem)
    decreases cs
  {
    hide WellStored, Step;
    if cs != [] {
      StepKeepsWellStored(w, cs[0]);
      RunKeepsWellStored(Step(w, cs[0]), cs[1..]);
    }
  }

  // ---------- Restarts ----------

  /** The file as the memory that a restart would begin with. */
  function FromFile(file: Store, stream: seq<Entry>): Memory
  {
    Memory(file.entries, Take(stream, ANNOUNCE_STREAM_MAXLENGTH), false, 0.0)
  }

  /** The stream of the file, or one rebuilt from its entries. */
  ghost predicate IsStartStream(file: Store, stream: seq<Entry>)
  {
    || stream == file.stream
    || forall e :: e in stream ==> e.destinationHash in file.entries && e == file.entries[e.destinationHash]
  }

  lemma SavedIsWellStored(m: Memory, now: real, stream: seq<Entry>)
    requires WellStored(m) && IsStartStream(Snapshot(m, now), stream)
    ensures WellStored(FromFile(Snapshot(m, now), stream))
  {
    hide ValidEntry, Prune;
    PruneKeepsWellStored(m, now);
    var file := Snapshot(m, now);
    assert forall e :: e in file.stream ==> e in Prune(m, now).stream;
    assert forall e :: e in FromFile(file, stream).stream ==> e in stream;
  }

  /** Restarting from a file that a well-stored directory saved gives a well-stored directory. */
  lemma RestartIsWellStored(m: Memory, saved: real, stream: seq<Entry>, now: real, a: Attempt)
    requires WellStored(m) && IsStartStream(Snapshot(m, saved), stream)
    requires Load(Snapshot(m, saved), stream, now, a).Some?
    ensures WellStored(Load(Snapshot(m, saved), stream, now, a).value.mem)
  {
    hide WellStored, Snapshot, Prune, PruneChanges, Saves, IsStartStream;
    SavedIsWellStored(m, saved, stream);
    var file := Snapshot(m, saved);
    PruneKeepsWellStored(FromFile(file, stream), now);
    WellStoredIgnoresSave(Prune(FromFile(file, stream), now), Load(file, stream, now, a).value.mem);
  }
}
