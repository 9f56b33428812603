/** What becomes of a user's settings for a directory entry over whole runs (src/directory.rs). */
module DirectorySettings {
  import opened Common
  import opened Directory
  import opened DirectoryPruning
  import opened DirectoryRuns
  import opened DirectoryLastSeen

  /** The settings of an entry, apart from being saved and from the reply ticket. */
  datatype Settings = Settings(
    trusted: bool, trustLevel: Trust, identifyOnConnect: bool, preferredDelivery: Option<Delivery>,
    deliveryFallback: Fallback, maxAutomaticDirectStampCost: Option<nat>, askAboveDirectStampCost: Option<nat>,
    sortRank: Option<int>)

  function SettingsOf(e: Entry): Settings
  {
    Settings(e.trusted, e.trustLevel, e.identifyOnConnect, e.preferredDelivery, e.deliveryFallback,
             e.maxAutomaticDirectStampCost, e.askAboveDirectStampCost, e.sortRank)
  }

  /** Persistent for more than its reply ticket. */
  predicate IsAnchored(e: Entry) { IsPersistent(e.(offerReplyTicket := None)) }

  predicate Carries(m: map<Hash, Entry>, h: Hash, e: Entry)
  {
    h in m && SettingsOf(m[h]) == SettingsOf(e) && (e.saved ==> m[h].saved)
  }

  lemma CarriedIsPersistent(m: map<Hash, Entry>, h: Hash, e: Entry)
    requires Carries(m, h, e) && IsAnchored(e)
    ensures IsAnchored(m[h]) && IsPersistent(m[h])
  {
  }

  // ---------- Which settings anchor their entry ----------

  /** Every setting anchors its entry, except taking it off the saved list and a trust level below trusted. */
  lemma SettingAnchorsIff(e: Entry, c: Change)
    ensures IsAnchored(Apply(e, c)) <==>
            match c
            case RemoveSaved => false
            case SetTrust(level) => level == Trusted || IsAnchored(e.(trusted := false))
            case _ => true
  {
  }

  /** A re-announce keeps the settings of a known entry and drops its reply ticket. */
  lemma ReannounceKeepsSettings(known: Entry, a: Announce, now: real)
    ensures var e := Announced(Some(known), a, now);
            SettingsOf(e) == SettingsOf(known) && (known.saved ==> e.saved) && e.offerReplyTicket == None
    ensures IsPersistent(Announced(Some(known), a, now)) <==>
            IsAnchored(known) || (a.kind == Node && known.trustLevel == Trusted)
  {
    hide PreferredDisplayName;
  }

  // ---------- Memory ----------

  predicate SetterOn(c: Command, h: Hash) { c.DoUpdate? && c.hash == h }

  /** The command is an accepted announce of `h`. */
  predicate Hears(w: World, c: Command, h: Hash)
  {
    c.DoAnnounce? && c.announce.destinationHash == h && Accepts(w.mem, c.announce)
  }

  /** An anchored entry stays in memory; only an accepted announce of it changes it. */
  lemma StepInMemory(w: World, c: Command, h: Hash)
    requires h in w.mem.entries && IsAnchored(w.mem.entries[h]) && !SetterOn(c, h)
    ensures h in Step(w, c).mem.entries
    ensures !Hears(w, c, h) ==> Step(w, c).mem.entries[h] == w.mem.entries[h]
    ensures Hears(w, c, h) ==>
              Step(w, c).mem.entries[h] == Announced(Some(w.mem.entries[h]), c.announce, c.times.seen)
  {
    hide Prune, PruneChanges, Accepts, Announced, ShouldSave, IsPersistent, Saves, Snapshot, Find, Apply;
    if c.DoAnnounce? && Accepts(w.mem, c.announce) {
      var m1 := Entered(w.mem, c.announce, c.times.seen);
      if c.announce.destinationHash == h {
        ReannounceKeepsSettings(w.mem.entries[h], c.announce, c.times.seen);
      }
      AnchoredIsPersistent(w.mem.entries[h]);
      PruneKeepsPersistent(m1, c.times.prune);
    }
  }

  lemma AnchoredIsPersistent(e: Entry)
    requires IsAnchored(e)
    ensures IsPersistent(e)
  {
  }

  // ---------- Whole runs ----------

  predicate Kept(w: World, h: Hash, e: Entry) { Carries(w.mem.entries, h, e) && Carries(w.disk.entries, h, e) }

  lemma StepKeepsSettings(w: World, c: Command, h: Hash, e: Entry)
    requires Kept(w, h, e) && IsAnchored(e) && !SetterOn(c, h)
    ensures Kept(Step(w, c), h, e)
  {
    hide IsAnchored, SettingsOf, Step, SavesIn, Hears;
    CarriedIsPersistent(w.mem.entries, h, e);
    StepInMemory(w, c, h);
    if Hears(w, c, h) {
      HeardCarries(w, c, h, e);
    }
    StepDisk(w, c);
    if SavesIn(w, c) {
      SavedPersistentIsOnDisk(w, c, h);
    }
  }

  lemma HeardCarries(w: World, c: Command, h: Hash, e: Entry)
    requires Hears(w, c, h) && Carries(w.mem.entries, h, e)
    requires h in Step(w, c).mem.entries
    requires Step(w, c).mem.entries[h] == Announced(Some(w.mem.entries[h]), c.announce, c.times.seen)
    ensures Carries(Step(w, c).mem.entries, h, e)
  {
    hide Announced, Step, Accepts;
    ReannounceKeepsSettings(w.mem.entries[h], c.announce, c.times.seen);
  }

  /** A save that follows no setter on `h` writes the entry that memory holds. */
  lemma SavedPersistentIsOnDisk(w: World, c: Command, h: Hash)
    requires SavesIn(w, c) && !SetterOn(c, h) && h in w.mem.entries && IsPersistent(w.mem.entries[h])
    ensures h in Step(w, c).disk.entries
  {
    hide IsPersistent, Prune, ValidStore, Find, Apply;
    match c
    case DoUpdate(g, change, a) => PruneKeepsPersistent(Changed(w.mem, g, change), a.now);
    case DoClear(a) => PruneKeepsPersistent(w.mem.(stream := []), a.now);
    case DoFlushPending(a) => PruneKeepsPersistent(w.mem, a.now);
    case DoFlushDue(_, a) => PruneKeepsPersistent(w.mem, a.now);
  }

  predicate NoSetterOn(cs: seq<Command>, h: Hash) { forall i :: 0 <= i < |cs| ==> !SetterOn(cs[i], h) }

  /** Anchored settings that memory and file hold survive every run without another setter on the entry. */
  lemma {:induction false} RunKeepsSettings(w: World, cs: seq<Command>, h: Hash, e: Entry)
    requires Kept(w, h, e) && IsAnchored(e) && NoSetterOn(cs, h)
    ensures Kept(Run(w, cs), h, e)
    decreases |cs|
  {
    hide Kept, IsAnchored, Step, SetterOn;
    if cs != [] {
      assert !SetterOn(cs[0], h);
      StepKeepsSettings(w, cs[0], h, e);
      RunKeepsSettings(Step(w, cs[0]), cs[1..], h, e);
    }
  }

  /** A setter changes nothing unless its save succeeds, and then memory and file both hold the new entry. */
  lemma AcceptedSetting(w: World, h: Hash, c: Change, a: Attempt)
    requires Find(w.mem, h).Some?
    ensures var w' := Step(w, DoUpdate(h, c, a));
            var e := Apply(Find(w.mem, h).value, c);
            if SavesIn(w, DoUpdate(h, c, a))
            then && h in w'.mem.entries && w'.mem.entries[h] == e && !w'.mem.pending && Synced(w')
                 && (IsPersistent(e) ==> h in w'.disk.entries && w'.disk.entries[h] == e)
            else w' == w
  {
    hide Prune, ValidStore, IsPersistent, Apply, Find, Agree;
    PruneKeepsPersistent(Changed(w.mem, h, c), a.now);
    SaveAlwaysSyncs(w.(mem := Changed(w.mem, h, c)), a);
  }

  /** An accepted setting that anchors its entry is in memory and on disk after any later run without another setter. */
  lemma AcceptedSettingLasts(w: World, h: Hash, c: Change, a: Attempt, cs: seq<Command>)
    requires SavesIn(w, DoUpdate(h, c, a)) && NoSetterOn(cs, h)
    requires IsAnchored(Apply(Find(w.mem, h).value, c))
    ensures Kept(Run(Step(w, DoUpdate(h, c, a)), cs), h, Apply(Find(w.mem, h).value, c))
  {
    hide Run, IsAnchored, IsPersistent, Step, Apply, SettingsOf, Saves, Synced;
    var e := Apply(Find(w.mem, h).value, c);
    AcceptedSetting(w, h, c, a);
    AnchoredIsPersistent(e);
    RunKeepsSettings(Step(w, DoUpdate(h, c, a)), cs, h, e);
  }

  // ---------- The reply ticket ----------

  /** Some command of the run is an accepted announce of `h`. */
  predicate HearsIn(w: World, cs: seq<Command>, h: Hash)
    decreases |cs|
  {
    cs != [] && (Hears(w, cs[0], h) || HearsIn(Step(w, cs[0]), cs[1..], h))
  }

  function TicketAfter(heard: bool, ticket: Option<bool>): Option<bool> { if heard then None else ticket }

  lemma {:induction false} TicketInMemory(w: World, cs: seq<Command>, h: Hash)
    requires h in w.mem.entries && IsAnchored(w.mem.entries[h]) && NoSetterOn(cs, h)
    ensures var m := Run(w, cs).mem.entries;
            && h in m && IsAnchored(m[h])
            && m[h].offerReplyTicket == TicketAfter(HearsIn(w, cs, h), w.mem.entries[h].offerReplyTicket)
    decreases |cs|
  {
    hide IsAnchored, Step, Hears, SetterOn;
    if cs != [] {
      assert !SetterOn(cs[0], h);
      TicketStep(w, cs[0], h);
      TicketInMemory(Step(w, cs[0]), cs[1..], h);
    }
  }

  lemma TicketStep(w: World, c: Command, h: Hash)
    requires h in w.mem.entries && IsAnchored(w.mem.entries[h]) && !SetterOn(c, h)
    ensures var m := Step(w, c).mem.entries;
            && h in m && IsAnchored(m[h])
            && m[h].offerReplyTicket == TicketAfter(Hears(w, c, h), w.mem.entries[h].offerReplyTicket)
  {
    hide Step, Announced, Accepts;
    StepInMemory(w, c, h);
    if Hears(w, c, h) {
      ReannounceKeepsSettings(w.mem.entries[h], c.announce, c.times.seen);
    }
  }

  /**
   * Over any run without a setter on an anchored entry, and when no save is pending at its end, the
   * reply ticket in memory and on disk is still what it was exactly if no announce of the entry was
   * accepted; otherwise it is gone from both.
   */
  lemma ReplyTicketLastsIff(w: World, cs: seq<Command>, h: Hash)
    requires Synced(w) && h in w.mem.entries && IsAnchored(w.mem.entries[h]) && NoSetterOn(cs, h)
    requires !Run(w, cs).mem.pending
    ensures var w' := Run(w, cs);
            && h in w'.mem.entries && h in w'.disk.entries
            && w'.disk.entries[h].offerReplyTicket == w'.mem.entries[h].offerReplyTicket
            && w'.mem.entries[h].offerReplyTicket == TicketAfter(HearsIn(w, cs, h), w.mem.entries[h].offerReplyTicket)
  {
    hide Run, HearsIn, IsPersistent;
    TicketInMemory(w, cs, h);
    RunKeepsSynced(w, cs);
    AnchoredIsPersistent(Run(w, cs).mem.entries[h]);
  }

  /** An accepted reply ticket is on disk, and gone from it after one announce and the flush that follows. */
  lemma ReannounceDropsReplyTicket(w: World, h: Hash, b: bool, first: Attempt, a: Announce, t: Times, flush: Attempt)
    requires SavesIn(w, DoUpdate(h, SetOfferReplyTicket(Some(b)), first)) && a.destinationHash == h
    requires var w1 := Step(w, DoUpdate(h, SetOfferReplyTicket(Some(b)), first));
             Accepts(w1.mem, a) && Saves(Step(w1, DoAnnounce(a, t)).mem, flush)
    ensures var w1 := Step(w, DoUpdate(h, SetOfferReplyTicket(Some(b)), first));
            var w3 := Run(w1, [DoAnnounce(a, t), DoFlushPending(flush)]);
            && h in w1.disk.entries && w1.disk.entries[h].offerReplyTicket == Some(b)
            && h in w3.disk.entries && w3.disk.entries[h].offerReplyTicket == None
  {
    hide Run, Step, HearsIn, IsAnchored, IsPersistent, Saves, Find, Accepts;
    var c := SetOfferReplyTicket(Some(b));
    var w1 := Step(w, DoUpdate(h, c, first));
    var cs := [DoAnnounce(a, t), DoFlushPending(flush)];
    AcceptedSetting(w, h, c, first);
    SettingAnchorsIff(Find(w.mem, h).value, c);
    AnchoredIsPersistent(w1.mem.entries[h]);
    FlushedRun(w1, a, t, flush);
    ReplyTicketLastsIff(w1, cs, h);
  }

  lemma FlushedRun(w: World, a: Announce, t: Times, flush: Attempt)
    requires Accepts(w.mem, a) && Saves(Step(w, DoAnnounce(a, t)).mem, flush)
    ensures var cs := [DoAnnounce(a, t), DoFlushPending(flush)];
            !Run(w, cs).mem.pending && HearsIn(w, cs, a.destinationHash) && NoSetterOn(cs, a.destinationHash)
  {
    hide Ingest, Accepts, Saves;
    var cs := [DoAnnounce(a, t), DoFlushPending(flush)];
    assert cs[1..] == [DoFlushPending(flush)] && cs[1..][1..] == [];
    var w1 := Step(w, cs[0]);
    assert Run(w, cs) == Run(w1, cs[1..]) == Step(w1, cs[1]);
  }
}
