/**
 * Plugin removal, installation and recovery (src/plugins.rs) as a crash-recoverable protocol.
 * A rename and a registry replacement are atomic; deleting or copying a tree is not.  A crash
 * can leave the disk in any state that an operation passes through.
 */
module PluginTransactions {
  import opened Common
  import opened FileTree
  import opened PluginNames

  const MAX_SCAN_ENTRIES: nat := 4096

  /** A registration; `path` is the name of the plugin's directory. */
  datatype Entry = Entry(enabled: bool, trusted: bool, path: string, source: Option<string>)

  /** The plugins directory: its entries by name, and the contents of the registry file. */
  datatype Disk = Disk(entries: map<string, Tree>, registry: map<string, Entry>)

  predicate IsTransactionName(name: string) { IsStagingName(name) || IsQuarantineName(name) }

  predicate HasDir(d: Disk, name: string) { name in d.entries && d.entries[name].Dir? }

  /** No interrupted transaction is pending. */
  ghost predicate Clean(d: Disk)
  {
    forall name :: name in d.entries && IsTransactionName(name) ==> !d.entries[name].Dir?
  }

  // ---------- Atomic effects ----------

  function Without(d: Disk, name: string): Disk
  {
    d.(entries := d.entries - {name})
  }

  function Moved(d: Disk, from: string, to: string): Disk
    requires from in d.entries
  {
    d.(entries := (d.entries - {from})[to := d.entries[from]])
  }

  function Placed(d: Disk, name: string, t: Tree): Disk
  {
    d.(entries := d.entries[name := t])
  }

  function Unregistered(d: Disk, id: string): Disk
  {
    d.(registry := d.registry - {id})
  }

  // ---------- Recovery ----------

  datatype Action = Ignore | Delete | Restore(id: string)

  /** What recovery does about one directory entry. */
  function ActionFor(d: Disk, name: string): (a: Action)
    ensures a != Ignore ==> HasDir(d, name) && IsTransactionName(name)
    ensures a.Restore? ==> a.id !in d.entries && IsQuarantineName(name)
  {
    if !HasDir(d, name) then Ignore
    else if IsStagingName(name) then Delete
    else if !IsQuarantineName(name) then Ignore
    else
      var id := IdOf(name, REMOVE_PREFIX).value;
      if id !in d.registry then Delete else if id in d.entries then Ignore else Restore(id)
  }

  function RecoverOne(d: Disk, name: string): Disk
  {
    match ActionFor(d, name)
    case Ignore => d
    case Delete => Without(d, name)
    case Restore(id) => Moved(d, name, id)
  }

  function RecoverAll(d: Disk, listing: seq<string>): Disk
    decreases listing
  {
    if listing == [] then d else RecoverAll(RecoverOne(d, listing[0]), listing[1..])
  }

  /** The part of a directory listing that recovery looks at. */
  function Scanned(listing: seq<string>): seq<string>
  {
    if |listing| <= MAX_SCAN_ENTRIES then listing else listing[..MAX_SCAN_ENTRIES]
  }

  /** `d'` is a state that recovering `d` passes through: between entries, or inside one deletion. */
  ghost predicate RecoveryState(d: Disk, listing: seq<string>, d': Disk)
    decreases listing
  {
    || d' == d
    || (listing != [] && (
         || (ActionFor(d, listing[0]).Delete? && PartlyDeleted(d, listing[0], d'))
         || RecoveryState(RecoverOne(d, listing[0]), listing[1..], d')))
  }

  /** `d` with some part of the tree at `name` already gone. */
  ghost predicate PartlyDeleted(d: Disk, name: string, d': Disk)
  {
    exists m :: d' == Placed(d, name, Dir(m))
  }

  /** `d` with the tree at `name` reduced to a part of it. */
  ghost predicate PartLeft(d: Disk, name: string, d': Disk)
  {
    name in d.entries && exists t :: PartOf(t, d.entries[name]) && d' == Placed(d, name, t)
  }

  // ---------- Removal ----------

  /** What may be removed: `id` cannot be read as a transaction, and the quarantine name is fresh for it. */
  predicate RemovalOf(d0: Disk, id: string, q: string)
  {
    !IsTransactionName(id) && IdOf(q, REMOVE_PREFIX) == Some(id) && q !in d0.entries
  }

  function Gone(d0: Disk, id: string): Disk
  {
    Unregistered(Without(d0, id), id)
  }

  /** The states that removing `id` from `d0`, or recovering from that removal, can leave. */
  ghost predicate RemovalState(d0: Disk, id: string, q: string, d: Disk)
  {
    || d == d0
    || (HasDir(d0, id) && d == Moved(d0, id, q))
    || PartlyDeleted(Gone(d0, id), q, d)
    || d == Gone(d0, id)
  }

  lemma OtherEntriesAreInert(d0: Disk, id: string, q: string, d: Disk, name: string)
    requires Clean(d0) && RemovalOf(d0, id, q) && RemovalState(d0, id, q, d) && name != q
    ensures RecoverOne(d, name) == d && ActionFor(d, name) == Ignore
  {
    hide IdOf;
    if HasDir(d, name) && name != id {
      assert name in d0.entries && d0.entries[name] == d.entries[name];
    }
  }

  lemma QuarantineIsResolved(d0: Disk, id: string, q: string, d: Disk)
    requires Clean(d0) && RemovalOf(d0, id, q) && RemovalState(d0, id, q, d)
    ensures RecoverOne(d, q) == d0 || RecoverOne(d, q) == Gone(d0, id)
    ensures ActionFor(d, q).Delete? ==> forall d' :: PartlyDeleted(d, q, d') ==> RemovalState(d0, id, q, d')
  {
    hide IdOf;
    PrefixesAreDisjoint(q);
    if HasDir(d0, id) && d == Moved(d0, id, q) {
      if id in d0.registry {
        assert (d.entries - {q})[id := d.entries[q]] == d0.entries;
      } else {
        assert d0.registry - {id} == d0.registry;
        DeletionProceeds(d0, id, q, d);
      }
    } else if PartlyDeleted(Gone(d0, id), q, d) {
      DeletionProceeds(d0, id, q, d);
    } else {
      assert q !in d.entries;
    }
  }

  lemma DeletionProceeds(d0: Disk, id: string, q: string, d: Disk)
    requires RemovalOf(d0, id, q) && d.registry == Gone(d0, id).registry
    requires q in d.entries && d.entries - {q} == Gone(d0, id).entries
    ensures Without(d, q) == Gone(d0, id)
    ensures forall d' :: PartlyDeleted(d, q, d') ==> PartlyDeleted(Gone(d0, id), q, d')
  {
    hide IdOf;
    forall d' | PartlyDeleted(d, q, d') ensures PartlyDeleted(Gone(d0, id), q, d') {
      var m :| d' == Placed(d, q, Dir(m));
      assert d'.entries == Gone(d0, id).entries[q := Dir(m)];
      assert d' == Placed(Gone(d0, id), q, Dir(m));
    }
  }

  lemma EndsAreRemovalStates(d0: Disk, id: string, q: string)
    ensures RemovalState(d0, id, q, d0) && RemovalState(d0, id, q, Gone(d0, id))
  {
  }

  /** A recovery that looks at the quarantine ends the removal one way or the other. */
  lemma {:induction false} CompletedRecoveryEndsRemoval(
    d0: Disk, id: string, q: string, d: Disk, listing: seq<string>)
    requires Clean(d0) && RemovalOf(d0, id, q) && RemovalState(d0, id, q, d)
    requires q in listing || d == d0 || d == Gone(d0, id)
    ensures RecoverAll(d, listing) == d0 || RecoverAll(d, listing) == Gone(d0, id)
    decreases listing
  {
    hide IdOf, RemovalState, RemovalOf, RecoverOne, PartlyDeleted, Clean, Gone;
    if listing != [] {
      if listing[0] == q {
        QuarantineIsResolved(d0, id, q, d);
      } else {
        OtherEntriesAreInert(d0, id, q, d, listing[0]);
      }
      EndsAreRemovalStates(d0, id, q);
      CompletedRecoveryEndsRemoval(d0, id, q, RecoverOne(d, listing[0]), listing[1..]);
    }
  }

  /** The listing shows every entry of the directory, within the scan limit, in any order. */
  ghost predicate Lists(listing: seq<string>, d: Disk)
  {
    forall name :: name in d.entries ==> name in Scanned(listing)
  }

  /**
   * Successive crashes: `crashes[0]` is where an operation stopped, and each later state is where
   * a recovery of the one before it stopped.
   */
  ghost predicate CrashSequence(crashes: seq<Disk>, listings: seq<seq<string>>)
  {
    && |crashes| == |listings| > 0
    && forall i :: 0 < i < |crashes| ==> RecoveryState(crashes[i - 1], Scanned(listings[i - 1]), crashes[i])
  }

  ghost function Recovered(crashes: seq<Disk>, listings: seq<seq<string>>): Disk
    requires CrashSequence(crashes, listings)
  {
    RecoverAll(crashes[|crashes| - 1], Scanned(listings[|listings| - 1]))
  }

  /** No step of any recovery, finished or not, leaves the states `inv`. */
  ghost predicate RecoveryClosed(inv: Disk -> bool)
  {
    forall d, name :: inv(d) ==>
      && inv(RecoverOne(d, name))
      && (ActionFor(d, name).Delete? ==> forall d' :: PartlyDeleted(d, name, d') ==> inv(d'))
  }

  lemma {:induction false} InterruptedRecoveryKeeps(inv: Disk -> bool, d: Disk, listing: seq<string>, d': Disk)
    requires RecoveryClosed(inv) && inv(d) && RecoveryState(d, listing, d')
    ensures inv(d')
    decreases listing
  {
    hide PartlyDeleted, ActionFor;
    if d' != d && !(ActionFor(d, listing[0]).Delete? && PartlyDeleted(d, listing[0], d')) {
      InterruptedRecoveryKeeps(inv, RecoverOne(d, listing[0]), listing[1..], d');
    }
  }

  lemma {:induction false} CrashesKeep(inv: Disk -> bool, crashes: seq<Disk>, listings: seq<seq<string>>, i: nat)
    requires RecoveryClosed(inv) && CrashSequence(crashes, listings) && i < |crashes| && inv(crashes[0])
    ensures inv(crashes[i])
  {
    hide RecoveryState, RecoveryClosed;
    if i > 0 {
      CrashesKeep(inv, crashes, listings, i - 1);
      InterruptedRecoveryKeeps(inv, crashes[i - 1], Scanned(listings[i - 1]), crashes[i]);
    }
  }

  lemma RemovalStatesAreClosed(d0: Disk, id: string, q: string)
    requires Clean(d0) && RemovalOf(d0, id, q)
    ensures RecoveryClosed((d: Disk) => RemovalState(d0, id, q, d))
  {
    hide IdOf, RemovalState, RemovalOf, RecoverOne, PartlyDeleted, ActionFor, Clean;
    forall d, name | RemovalState(d0, id, q, d)
      ensures RemovalState(d0, id, q, RecoverOne(d, name))
      ensures ActionFor(d, name).Delete? ==> forall d' :: PartlyDeleted(d, name, d') ==> RemovalState(d0, id, q, d')
    {
      if name == q {
        QuarantineIsResolved(d0, id, q, d);
        EndsAreRemovalStates(d0, id, q);
      } else {
        OtherEntriesAreInert(d0, id, q, d, name);
      }
    }
  }

  /**
   * Removal is crash-atomic: however often removal and recovery are interrupted, a completed
   * recovery leaves the tree and the registry entry both as before or both gone, and no
   * transaction directory.
   */
  lemma RemovalIsCrashAtomic(d0: Disk, id: string, q: string, crashes: seq<Disk>, listings: seq<seq<string>>)
    requires Clean(d0) && RemovalOf(d0, id, q) && CrashSequence(crashes, listings)
    requires RemovalState(d0, id, q, crashes[0])
    requires Lists(listings[|listings| - 1], crashes[|crashes| - 1])
    ensures var d := Recovered(crashes, listings);
            (d == d0 || d == Gone(d0, id)) && Clean(d)
  {
    hide IdOf, RemovalOf, RecoverAll, RecoveryClosed, RecoveryState;
    var last := |crashes| - 1;
    RemovalStatesAreClosed(d0, id, q);
    CrashesKeep((d: Disk) => RemovalState(d0, id, q, d), crashes, listings, last);
    CompletedRecoveryEndsRemoval(d0, id, q, crashes[last], Scanned(listings[last]));
  }

  // ---------- Installation ----------

  predicate InstallationOf(d0: Disk, id: string, s: string, source: Tree)
  {
    && !IsTransactionName(id) && IdOf(s, INSTALL_PREFIX) == Some(id)
    && s !in d0.entries && id !in d0.entries && source.Dir?
  }

  function Registered(d: Disk, id: string, e: Entry): Disk
  {
    d.(registry := d.registry[id := e])
  }

  /**
   * The states that installing `source` over `d0`, or recovering from that, can leave.  A target
   * that is only partly there needs a refused registry save (`rollback`).
   */
  ghost predicate InstallState(d0: Disk, id: string, s: string, source: Tree, e: Entry, rollback: bool, d: Disk)
  {
    || d == d0
    || PartlyDeleted(d0, s, d)
    || d == Placed(d0, id, source)
    || d == Registered(Placed(d0, id, source), id, e)
    || (rollback && PartlyDeleted(d0, id, d))
  }

  lemma InstallRecoveryStep(
    d0: Disk, id: string, s: string, source: Tree, e: Entry, rollback: bool, d: Disk, name: string)
    requires Clean(d0) && InstallationOf(d0, id, s, source) && InstallState(d0, id, s, source, e, rollback, d)
    ensures RecoverOne(d, name) == if name == s && s in d.entries then d0 else d
    ensures ActionFor(d, name).Delete? ==>
              name == s && forall d' :: PartlyDeleted(d, s, d') ==> PartlyDeleted(d0, s, d')
  {
    hide IdOf;
    if name == s && s in d.entries {
      assert d.entries - {s} == d0.entries;
      assert d == Placed(d0, s, d.entries[s]);
      DeletingStagedTree(d0, s, d);
    } else if HasDir(d, name) && name != id {
      assert name in d0.entries && d0.entries[name] == d.entries[name];
    }
  }

  lemma DeletingStagedTree(d0: Disk, s: string, d: Disk)
    requires s in d.entries && d == Placed(d0, s, d.entries[s])
    ensures forall d' :: PartlyDeleted(d, s, d') ==> PartlyDeleted(d0, s, d')
  {
    forall d' | PartlyDeleted(d, s, d') ensures PartlyDeleted(d0, s, d') {
      var m :| d' == Placed(d, s, Dir(m));
      assert d' == Placed(d0, s, Dir(m));
    }
  }

  lemma InstallStatesAreClosed(d0: Disk, id: string, s: string, source: Tree, e: Entry, rollback: bool)
    requires Clean(d0) && InstallationOf(d0, id, s, source)
    ensures RecoveryClosed((d: Disk) => InstallState(d0, id, s, source, e, rollback, d))
  {
    hide IdOf, InstallationOf, RecoverOne, ActionFor, PartlyDeleted, Clean;
    forall d, name | InstallState(d0, id, s, source, e, rollback, d)
      ensures InstallState(d0, id, s, source, e, rollback, RecoverOne(d, name))
      ensures ActionFor(d, name).Delete? ==>
                forall d' :: PartlyDeleted(d, name, d') ==> InstallState(d0, id, s, source, e, rollback, d')
    {
      InstallRecoveryStep(d0, id, s, source, e, rollback, d, name);
    }
  }

  lemma {:induction false} CompletedRecoveryEndsInstall(
    d0: Disk, id: string, s: string, source: Tree, e: Entry, rollback: bool, d: Disk, listing: seq<string>)
    requires Clean(d0) && InstallationOf(d0, id, s, source) && InstallState(d0, id, s, source, e, rollback, d)
    requires s in d.entries ==> s in listing
    ensures RecoverAll(d, listing) == if s in d.entries then d0 else d
    decreases listing
  {
    hide IdOf, InstallationOf, RecoverOne, Clean, InstallState;
    if listing != [] {
      InstallRecoveryStep(d0, id, s, source, e, rollback, d, listing[0]);
      StagingIsFresh(d0, id, s, source, e, rollback);
      CompletedRecoveryEndsInstall(d0, id, s, source, e, rollback, RecoverOne(d, listing[0]), listing[1..]);
    }
  }

  lemma StagingIsFresh(d0: Disk, id: string, s: string, source: Tree, e: Entry, rollback: bool)
    requires InstallationOf(d0, id, s, source)
    ensures s !in d0.entries && InstallState(d0, id, s, source, e, rollback, d0)
  {
  }

  /**
   * Installation is crash-atomic as long as the registry save is not refused: a completed recovery
   * leaves either no trace of the plugin or its whole tree, and no transaction directory.
   */
  lemma InstallIsCrashAtomic(
    d0: Disk, id: string, s: string, source: Tree, e: Entry, crashes: seq<Disk>, listings: seq<seq<string>>)
    requires Clean(d0) && InstallationOf(d0, id, s, source) && CrashSequence(crashes, listings)
    requires InstallState(d0, id, s, source, e, false, crashes[0])
    requires Lists(listings[|listings| - 1], crashes[|crashes| - 1])
    ensures var d := Recovered(crashes, listings);
            && (d == d0 || d == Placed(d0, id, source) || d == Registered(Placed(d0, id, source), id, e))
            && Clean(d)
  {
    hide IdOf, RecoverAll, RecoveryClosed, RecoveryState;
    var last := |crashes| - 1;
    InstallStatesAreClosed(d0, id, s, source, e, false);
    CrashesKeep((d: Disk) => InstallState(d0, id, s, source, e, false, d), crashes, listings, last);
    CompletedRecoveryEndsInstall(d0, id, s, source, e, false, crashes[last], Scanned(listings[last]));
  }
}
