/** Exactly how far `lastSeen` in the directory's file can be behind memory (src/directory.rs). */
module DirectoryLastSeen {
  import opened Common
  import opened Seqs
  import opened StableSort
  import opened Directory
  import opened DirectoryPruning
  import opened DirectoryRuns

  // ---------- Quiet announces ----------

  /** An accepted announce that repeats a known entry inside the cooldown, with nothing to prune. */
  predicate IsQuiet(m: Memory, a: Announce, t: Times)
  {
    var m1 := Entered(m, a, t.seen);
    && Accepts(m, a)
    && !ShouldSave(Lookup(m.entries, a.destinationHash), m1.entries[a.destinationHash], t.seen)
    && !PruneChanges(m1, t.prune)
  }

  /** With no save pending, an announce leaves none pending exactly if it is refused or quiet. */
  lemma StaysQuietIff(m: Memory, a: Announce, t: Times)
    requires !m.pending
    ensures !Ingest(m, a, t).pending <==> !Accepts(m, a) || IsQuiet(m, a, t)
  {
    hide Prune, PruneChanges, Accepts, Entered, ShouldSave;
    QuietPruneKeepsEntries(Entered(m, a, t.seen), t.prune);
    assert Entered(m, a, t.seen).pending == m.pending by { EnteredKeepsSave(m, a, t.seen); }
  }

  lemma EnteredKeepsSave(m: Memory, a: Announce, now: real)
    ensures Entered(m, a, now).pending == m.pending && Entered(m, a, now).due == m.due
  {
  }

  /** A quiet announce moves one `lastSeen` and nothing else in the map. */
  lemma QuietMovesLastSeen(m: Memory, a: Announce, t: Times)
    requires IsQuiet(m, a, t)
    ensures a.destinationHash in m.entries
    ensures Ingest(m, a, t).entries
         == m.entries[a.destinationHash := m.entries[a.destinationHash].(lastSeen := t.seen)]
  {
    hide Prune, PruneChanges, Accepts, Announced;
    QuietPruneKeepsEntries(Entered(m, a, t.seen), t.prune);
    AnnouncedSeen(Lookup(m.entries, a.destinationHash), a, t.seen);
  }

  lemma AnnouncedSeen(existing: Option<Entry>, a: Announce, now: real)
    ensures Announced(existing, a, now).lastSeen == now
  {
  }

  // ---------- Saves ----------

  /** The command writes the file. */
  predicate SavesIn(w: World, c: Command)
  {
    match c
    case DoAnnounce(_, _) => false
    case DoUpdate(h, change, a) => Find(w.mem, h).Some? && Saves(Changed(w.mem, h, change), a)
    case DoClear(a) => Saves(w.mem.(stream := []), a)
    case DoFlushPending(a) => w.mem.pending && Saves(w.mem, a)
    case DoFlushDue(clock, a) => w.mem.pending && w.mem.due <= clock && Saves(w.mem, a)
  }

  function Changed(m: Memory, h: Hash, c: Change): Memory
    requires Find(m, h).Some?
  {
    m.(entries := m.entries[h := Apply(Find(m, h).value, c)])
  }

  /** Every entry of the file is the one in memory, `lastSeen` included. */
  ghost predicate Exact(w: World)
  {
    forall h :: h in w.disk.entries ==> h in w.mem.entries && w.disk.entries[h] == w.mem.entries[h]
  }

  lemma SaveIsExact(w: World, a: Attempt)
    requires Saves(w.mem, a)
    ensures Exact(Save(w, a)) && !Save(w, a).mem.pending
  {
    hide Prune, ValidStore;
    PruneKeepsPersistent(w.mem, a.now);
  }

  /** The file changes only in a save, which copies memory exactly. */
  lemma StepDisk(w: World, c: Command)
    ensures SavesIn(w, c) ==> Exact(Step(w, c)) && !Step(w, c).mem.pending
    ensures !SavesIn(w, c) ==> Step(w, c).disk == w.disk
    ensures !SavesIn(w, c) && !c.DoAnnounce? ==> Step(w, c) == w
  {
    hide Exact, Saves, Snapshot, Apply, Find;
    if SavesIn(w, c) {
      match c
      case DoUpdate(h, change, a) => SaveIsExact(w.(mem := Changed(w.mem, h, change)), a);
      case DoClear(a) => SaveIsExact(w.(mem := w.mem.(stream := [])), a);
      case DoFlushPending(a) => SaveIsExact(w, a);
      case DoFlushDue(_, a) => SaveIsExact(w, a);
    }
  }

  /** The state right after the last save in the run, or `at` if there is none. */
  function LastSave(w: World, cs: seq<Command>, at: World): World
    decreases |cs|
  {
    if cs == [] then at
    else LastSave(Step(w, cs[0]), cs[1..], if SavesIn(w, cs[0]) then Step(w, cs[0]) else at)
  }

  /** At every point of every run the file is the copy of memory that its last save made. */
  lemma {:induction false} DiskIsLastSave(w: World, cs: seq<Command>, at: World)
    requires Exact(at) && at.disk == w.disk
    ensures Run(w, cs).disk == LastSave(w, cs, at).disk && Exact(LastSave(w, cs, at))
    decreases |cs|
  {
    hide Exact, SavesIn, Step;
    if cs != [] {
      var w1 := Step(w, cs[0]);
      StepDisk(w, cs[0]);
      DiskIsLastSave(w1, cs[1..], if SavesIn(w, cs[0]) then w1 else at);
    }
  }

  /** Start-up leaves an exact file. */
  lemma LoadedIsExact(file: Store, stream: seq<Entry>, now: real, a: Attempt)
    requires Load(file, stream, now, a).Some?
    ensures Exact(Load(file, stream, now, a).value)
  {
    hide Prune, PruneChanges, Exact, Saves, Snapshot;
    var m := Memory(file.entries, Take(stream, ANNOUNCE_STREAM_MAXLENGTH), false, 0.0);
    QuietPruneKeepsEntries(m, now);
    if PruneChanges(m, now) {
      SaveIsExact(World(Prune(m, now), file), a);
    } else {
      SameIsExact(Prune(m, now), file);
    }
  }

  lemma SameIsExact(m: Memory, file: Store)
    requires m.entries == file.entries
    ensures Exact(World(m, file))
  {
  }

  // ---------- `lastSeen` in memory and on disk ----------

  predicate QuietlyHears(w: World, c: Command, h: Hash)
  {
    c.DoAnnounce? && c.announce.destinationHash == h && IsQuiet(w.mem, c.announce, c.times)
  }

  function HeardAfter(w: World, c: Command, h: Hash, before: seq<real>): seq<real>
  {
    if SavesIn(w, c) then [] else if QuietlyHears(w, c, h) then before + [c.times.seen] else before
  }

  /** When the quiet announces of `h` since the last save were heard; `before` are those heard earlier. */
  function Heard(w: World, cs: seq<Command>, h: Hash, before: seq<real>): seq<real>
    decreases |cs|
  {
    if cs == [] then before
    else Heard(Step(w, cs[0]), cs[1..], h, HeardAfter(w, cs[0], h, before))
  }

  function LastOr(times: seq<real>, otherwise: real): real
  {
    if times == [] then otherwise else times[|times| - 1]
  }

  /** With no save pending, memory has heard of `h` exactly what the file has, and then `heard`. */
  ghost predicate Tracks(w: World, h: Hash, heard: seq<real>)
  {
    !w.mem.pending && h in w.disk.entries ==>
      h in w.mem.entries && w.mem.entries[h].lastSeen == LastOr(heard, w.disk.entries[h].lastSeen)
  }

  lemma TracksStep(w: World, c: Command, h: Hash, heard: seq<real>)
    requires Tracks(w, h, heard)
    ensures Tracks(Step(w, c), h, HeardAfter(w, c, h, heard))
  {
    hide SavesIn, IsQuiet, Ingest, Update, ClearTransientAnnounces, FlushPendingSave, FlushDueSave;
    StepDisk(w, c);
    if c.DoAnnounce? {
      var a, t := c.announce, c.times;
      IngestOnlySchedules(w.mem, a, t);
      if !w.mem.pending {
        StaysQuietIff(w.mem, a, t);
        RefusedIsInert(w.mem, a, t);
        if IsQuiet(w.mem, a, t) {
          QuietMovesLastSeen(w.mem, a, t);
        }
      }
    }
  }

  lemma RefusedIsInert(m: Memory, a: Announce, t: Times)
    ensures !Accepts(m, a) ==> Ingest(m, a, t) == m
    ensures IsQuiet(m, a, t) ==> Accepts(m, a)
  {
  }

  lemma {:induction false} RunTracks(w: World, cs: seq<Command>, h: Hash, heard: seq<real>)
    requires Tracks(w, h, heard)
    ensures Tracks(Run(w, cs), h, Heard(w, cs, h, heard))
    decreases |cs|
  {
    hide Tracks, HeardAfter, Step;
    if cs != [] {
      TracksStep(w, cs[0], h, heard);
      RunTracks(Step(w, cs[0]), cs[1..], h, HeardAfter(w, cs[0], h, heard));
    }
  }

  lemma ExactTracks(w: World, h: Hash)
    requires Exact(w)
    ensures Tracks(w, h, [])
  {
  }

  /**
   * In every run, when no save is pending, `lastSeen` in memory is the time of the last quiet
   * announce since the last save, or what the file holds if there was none.
   */
  lemma LastSeenInMemory(w: World, cs: seq<Command>, h: Hash)
    requires Exact(w) && !Run(w, cs).mem.pending && h in Run(w, cs).disk.entries
    ensures var w' := Run(w, cs);
            && h in w'.mem.entries
            && w'.mem.entries[h].lastSeen == LastOr(Heard(w, cs, h, []), w'.disk.entries[h].lastSeen)
  {
    hide Exact, Run, Heard;
    ExactTracks(w, h);
    RunTracks(w, cs, h, []);
  }

  /** Every quiet announce of `h` comes later than what was heard of it before. */
  ghost predicate Advances(w: World, cs: seq<Command>, h: Hash)
    decreases |cs|
  {
    cs != [] ==>
      && (QuietlyHears(w, cs[0], h) && h in w.mem.entries ==> w.mem.entries[h].lastSeen < cs[0].times.seen)
      && Advances(Step(w, cs[0]), cs[1..], h)
  }

  /** With no save pending, the file is behind exactly if something was heard. */
  ghost predicate Behind(w: World, h: Hash, heard: seq<real>)
  {
    !w.mem.pending && h in w.disk.entries ==>
      && h in w.mem.entries
      && w.disk.entries[h].lastSeen <= w.mem.entries[h].lastSeen
      && (w.disk.entries[h].lastSeen == w.mem.entries[h].lastSeen <==> heard == [])
  }

  lemma BehindStep(w: World, c: Command, h: Hash, heard: seq<real>)
    requires Tracks(w, h, heard) && Behind(w, h, heard)
    requires QuietlyHears(w, c, h) && h in w.mem.entries ==> w.mem.entries[h].lastSeen < c.times.seen
    ensures Behind(Step(w, c), h, HeardAfter(w, c, h, heard))
  {
    hide SavesIn, IsQuiet, Ingest, Update, ClearTransientAnnounces, FlushPendingSave, FlushDueSave;
    StepDisk(w, c);
    if c.DoAnnounce? {
      var a, t := c.announce, c.times;
      IngestOnlySchedules(w.mem, a, t);
      if !w.mem.pending {
        StaysQuietIff(w.mem, a, t);
        RefusedIsInert(w.mem, a, t);
        if IsQuiet(w.mem, a, t) {
          QuietMovesLastSeen(w.mem, a, t);
        }
      }
    }
  }

  lemma {:induction false} RunBehind(w: World, cs: seq<Command>, h: Hash, heard: seq<real>)
    requires Tracks(w, h, heard) && Behind(w, h, heard) && Advances(w, cs, h)
    ensures Behind(Run(w, cs), h, Heard(w, cs, h, heard))
    decreases |cs|
  {
    hide Tracks, HeardAfter, Step, QuietlyHears, Behind;
    if cs != [] {
      TracksStep(w, cs[0], h, heard);
      BehindStep(w, cs[0], h, heard);
      RunBehind(Step(w, cs[0]), cs[1..], h, HeardAfter(w, cs[0], h, heard));
    }
  }

  /**
   * With a clock that advances and no save pending, memory and file agree on `lastSeen` of `h`
   * exactly if no quiet announce of `h` came since the last save.
   */
  lemma LastSeenAgreesIff(w: World, cs: seq<Command>, h: Hash)
    requires Exact(w) && Advances(w, cs, h)
    requires !Run(w, cs).mem.pending && h in Run(w, cs).disk.entries
    ensures var w' := Run(w, cs);
            && h in w'.mem.entries
            && (w'.mem.entries[h].lastSeen == w'.disk.entries[h].lastSeen <==> Heard(w, cs, h, []) == [])
  {
    hide Run, Heard, Advances;
    RunBehind(w, cs, h, []);
  }

  // ---------- No bound on the lag ----------

  /** A saved peer, written at `start`, that was last heard `n` announces later and not written since. */
  function Lagging(h: Hash, name: Bytes, start: real, n: nat): World
  {
    var e := NewEntry(h, name, Peer).(saved := true, lastSeen := start);
    var seen := e.(lastSeen := start + n as real * 299.0);
    World(Memory(map[h := seen], [seen], false, 0.0), Store(map[h := e], [e]))
  }

  function Reannounce(h: Hash, name: Bytes, start: real, n: nat): Command
  {
    var now := start + n as real * 299.0;
    DoAnnounce(Announce(h, name, Peer, None, None, None, None), Times(now, now, now))
  }

  function Reannounces(h: Hash, name: Bytes, start: real, from: nat, n: nat): seq<Command>
    decreases n
  {
    if n == 0 then [] else [Reannounce(h, name, start, from + 1)] + Reannounces(h, name, start, from + 1, n - 1)
  }

  lemma ReannounceLags(h: Hash, name: Bytes, start: real, n: nat)
    requires |h| <= MAX_DESTINATION_BYTES && 0 < |name| <= MAX_DISPLAY_NAME_BYTES
    ensures Step(Lagging(h, name, start, n), Reannounce(h, name, start, n + 1)) == Lagging(h, name, start, n + 1)
  {
    hide Ingest, PreferredDisplayName, Prune, PruneChanges, Removable, FreshStream;
    var m, now := Lagging(h, name, start, n).mem, start + (n + 1) as real * 299.0;
    var m1 := Lagging(h, name, start, n + 1).mem;
    SameName(name, h);
    assert m.entries[h := m1.entries[h]] == m1.entries;
    NothingToPrune(m1, m1.entries[h], now);
    QuietDuplicate(m, m1, Announce(h, name, Peer, None, None, None, None), now);
  }

  lemma SameName(name: Bytes, h: Hash)
    requires name != []
    ensures PreferredDisplayName(name, Some(name), h) == name
  {
    hide IsPlaceholderName;
  }

  /** A duplicate inside the cooldown moves `lastSeen` and schedules nothing. */
  lemma QuietDuplicate(m: Memory, m1: Memory, a: Announce, now: real)
    requires Accepts(m, a) && a.destinationHash in m.entries && |m.stream| == 1
    requires m.stream[0].destinationHash == a.destinationHash
    requires var known := m.entries[a.destinationHash];
             var e := Announced(Some(known), a, now);
             && SameButLastSeen(known, e) && now - known.lastSeen < DUPLICATE_ANNOUNCE_SAVE_COOLDOWN_SECONDS
             && m1 == m.(entries := m.entries[a.destinationHash := e], stream := [e])
    requires Prune(m1, now) == m1 && !PruneChanges(m1, now)
    ensures Ingest(m, a, Times(now, now, now)) == m1
  {
    hide Prune, PruneChanges, Announced, Accepts;
    var e := Announced(Some(m.entries[a.destinationHash]), a, now);
    assert m.stream == [m.stream[0]] && m.stream[1..] == [];
    assert Filter(m.stream, (x: Entry) => x.destinationHash != a.destinationHash) == [];
    assert Take([e] + [], ANNOUNCE_STREAM_MAXLENGTH) == [e];
  }

  lemma NothingToPrune(m: Memory, e: Entry, now: real)
    requires IsPersistent(e) && m.entries == map[e.destinationHash := e] && m.stream == [e]
    ensures Prune(m, now) == m && !PruneChanges(m, now)
  {
    hide IsPersistent;
    assert FreshKeys(m.entries, now) == {};
    LeastOfNone({});
    assert Removable(m.entries, now) == {};
    FilterKeepsAll(m.stream, (x: Entry) => IsPersistent(x) || !IsStale(x, now));
    FilterKeepsAll(m.stream, (x: Entry) => x.destinationHash !in Removable(m.entries, now));
  }

  /**
   * Nothing bounds how long quiet announces go on: when `n` of them come 299 seconds apart and nothing
   * else happens, the file is `n * 299` seconds behind and no save is pending.
   */
  lemma {:induction false} LastSeenLagsWithoutBound(h: Hash, name: Bytes, start: real, from: nat, n: nat)
    requires |h| <= MAX_DESTINATION_BYTES && 0 < |name| <= MAX_DISPLAY_NAME_BYTES
    ensures Run(Lagging(h, name, start, from), Reannounces(h, name, start, from, n))
         == Lagging(h, name, start, from + n)
    decreases n
  {
    hide Step, Lagging, Reannounce;
    if n > 0 {
      ReannounceLags(h, name, start, from);
      LastSeenLagsWithoutBound(h, name, start, from + 1, n - 1);
      var cs := Reannounces(h, name, start, from, n);
      assert cs[0] == Reannounce(h, name, start, from + 1);
      assert cs[1..] == Reannounces(h, name, start, from + 1, n - 1);
    }
  }
}
