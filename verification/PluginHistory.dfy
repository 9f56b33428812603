/**
 * Whole histories of the plugins directory (src/plugins.rs): installations and removals one after
 * the other, each finished or stopped anywhere, with recovery before the next one where it is needed.
 */
module PluginHistory {
  import opened Common
  import opened FileTree
  import opened PluginNames
  import opened PluginTransactions
  import opened PluginInstallRuns

  /** An installation staged under `s`, whose registry save was or was not refused, or a removal through `q`. */
  datatype Operation =
    | Install(id: string, s: string, source: Tree, e: Entry, refused: bool)
    | Remove(id: string, q: string)

  /** The id does not start with a dot, and the transaction name is made for it and free. */
  predicate IsFair(d: Disk, op: Operation)
  {
    && IsSafeId(op.id) && op.id[0] != '.'
    && match op
       case Install(id, s, _, _, _) => IdOf(s, INSTALL_PREFIX) == Some(id) && s !in d.entries
       case Remove(id, q) => IdOf(q, REMOVE_PREFIX) == Some(id) && q !in d.entries
  }

  /** A disk at which the operation can stop; installing over an entry, or from no directory, changes nothing. */
  ghost predicate Stops(d: Disk, op: Operation, x: Disk)
  {
    match op
    case Install(id, s, source, e, refused) =>
      if id in d.entries || !source.Dir? then x == d else Occurs(Installation(d, id, s, source, e), refused, x)
    case Remove(id, q) => RemovalState(d, id, q, x)
  }

  /** A completed recovery, after any number of interrupted ones, turns `x` into `d'`. */
  ghost predicate Recovers(x: Disk, d': Disk)
  {
    exists crashes, listings ::
      && CrashSequence(crashes, listings) && crashes[0] == x
      && Lists(listings[|listings| - 1], crashes[|crashes| - 1])
      && d' == Recovered(crashes, listings)
  }

  /** The operation stops somewhere, and is recovered from unless it left no transaction behind. */
  ghost predicate Performs(d: Disk, op: Operation, d': Disk)
  {
    IsFair(d, op) && exists x :: Stops(d, op, x) && (Recovers(x, d') || (Clean(x) && d' == x))
  }

  // ---------- One operation ----------

  /** The tree is the whole source of the installation, or a part of it after a refused save. */
  ghost predicate InstalledBy(op: Operation, name: string, t: Tree)
  {
    && op.Install? && op.id == name && Fits(op.source)
    && (t == op.source || (op.refused && PartOf(t, op.source)))
  }

  /** Every entry and registration is as before or comes from the operation, and nothing is pending. */
  ghost predicate Follows(d: Disk, op: Operation, d': Disk)
  {
    && Clean(d')
    && (forall name :: name in d'.entries ==>
          (name in d.entries && d'.entries[name] == d.entries[name]) || InstalledBy(op, name, d'.entries[name]))
    && (forall id :: id in d'.registry ==>
          || (id in d.registry && d'.registry[id] == d.registry[id])
          || (op.Install? && op.id == id && d'.registry[id] == op.e))
  }

  lemma NothingFollows(d: Disk, op: Operation)
    requires Clean(d)
    ensures Follows(d, op, d)
  {
    hide Clean;
  }

  /** With no transaction directory there is nothing to recover from. */
  lemma {:induction false} CleanRecovers(d: Disk, listing: seq<string>)
    requires Clean(d)
    ensures RecoverAll(d, listing) == d
  {
    hide IdOf;
    if listing != [] {
      CleanRecovers(d, listing[1..]);
    }
  }

  lemma {:induction false} CleanCrashes(d: Disk, listing: seq<string>, d': Disk)
    requires Clean(d) && RecoveryState(d, listing, d')
    ensures d' == d
    decreases listing
  {
    hide IdOf, PartlyDeleted;
    if listing != [] && d' != d {
      CleanCrashes(d, listing[1..], d');
    }
  }

  lemma {:induction false} CleanStays(crashes: seq<Disk>, listings: seq<seq<string>>, k: nat)
    requires CrashSequence(crashes, listings) && Clean(crashes[0]) && k < |crashes|
    ensures crashes[k] == crashes[0]
  {
    hide Clean, RecoveryState;
    if k > 0 {
      CleanStays(crashes, listings, k - 1);
      CleanCrashes(crashes[k - 1], Scanned(listings[k - 1]), crashes[k]);
    }
  }

  lemma CleanIsKept(x: Disk, d': Disk)
    requires Clean(x) && Recovers(x, d')
    ensures d' == x
  {
    hide Clean, RecoverAll, RecoveryState;
    var crashes, listings :| CrashSequence(crashes, listings) && crashes[0] == x
      && Lists(listings[|listings| - 1], crashes[|crashes| - 1]) && d' == Recovered(crashes, listings);
    CleanStays(crashes, listings, |crashes| - 1);
    CleanRecovers(x, Scanned(listings[|listings| - 1]));
  }

  // ---------- Removals ----------

  lemma RemovalFollows(d: Disk, op: Operation, x: Disk, d': Disk)
    requires Clean(d) && op.Remove? && IsFair(d, op) && Stops(d, op, x)
    requires Recovers(x, d') || (Clean(x) && d' == x)
    ensures Follows(d, op, d')
  {
    hide IdOf, IsSafeId, Clean, RemovalState, RecoverAll, RecoveryState;
    PlainIdsAreNotTransactions(op.id);
    if Recovers(x, d') {
      var crashes, listings :| CrashSequence(crashes, listings) && crashes[0] == x
        && Lists(listings[|listings| - 1], crashes[|crashes| - 1]) && d' == Recovered(crashes, listings);
      RemovalIsCrashAtomic(d, op.id, op.q, crashes, listings);
    } else {
      CleanRemovalState(d, op.id, op.q, x);
      GoneIsClean(d, op.id);
    }
  }

  lemma CleanRemovalState(d: Disk, id: string, q: string, x: Disk)
    requires RemovalState(d, id, q, x) && Clean(x) && IdOf(q, REMOVE_PREFIX) == Some(id)
    ensures x == d || x == Gone(d, id)
  {
    hide IdOf;
    assert IsTransactionName(q);
    assert q in x.entries ==> !x.entries[q].Dir?;
  }

  lemma GoneIsClean(d: Disk, id: string)
    requires Clean(d)
    ensures Clean(Gone(d, id))
  {
    hide IdOf;
  }

  // ---------- Installations ----------

  lemma InstallFollows(d: Disk, op: Operation, x: Disk, d': Disk)
    requires Clean(d) && op.Install? && IsFair(d, op) && Stops(d, op, x)
    requires Recovers(x, d') || (Clean(x) && d' == x)
    ensures Follows(d, op, d')
  {
    hide IdOf, IsSafeId, Clean, Occurs, Recovers, Follows;
    PlainIdsAreNotTransactions(op.id);
    if op.id in d.entries || !op.source.Dir? {
      if Recovers(x, d') {
        CleanIsKept(x, d');
      }
      NothingFollows(d, op);
    } else {
      var i := Installation(d, op.id, op.s, op.source, op.e);
      assert Legal(i);
      StopOutcome(i, op.refused, x, d');
      OutcomeFollows(i, op.refused, d');
    }
  }

  /** Where an installation that stopped can end. */
  ghost predicate Ends(i: Installation, refused: bool, d': Disk)
  {
    || d' == i.d0
    || (Fits(i.source) && d' == Registered(Placed(i.d0, i.id, i.source), i.id, i.e))
    || (Fits(i.source) && d' == Placed(i.d0, i.id, i.source))
    || (Fits(i.source) && refused && Holds(i, i.id, d'))
  }

  lemma StopOutcome(i: Installation, refused: bool, x: Disk, d': Disk)
    requires Legal(i) && Occurs(i, refused, x) && (Recovers(x, d') || (Clean(x) && d' == x))
    ensures Ends(i, refused, d')
  {
    hide Clean, InstallationOf, RecoverAll, RecoveryState, Reached, Ends;
    var phase :| Reached(i, Moment(phase, x)) && (phase == RollingBack ==> refused);
    var m := Moment(phase, x);
    LegalIsApart(i);
    ReachedIff(i, m);
    if Recovers(x, d') {
      var crashes, listings :| CrashSequence(crashes, listings) && crashes[0] == x
        && Lists(listings[|listings| - 1], crashes[|crashes| - 1]) && d' == Recovered(crashes, listings);
      CrashOutcome(i, m, crashes, listings);
      if i.s in x.entries {
        EndsAtStart(i, refused);
      } else {
        UnstagedEnds(i, m, refused);
      }
    } else {
      StagedIsPending(i, m);
      UnstagedEnds(i, m, refused);
    }
  }

  lemma EndsAtStart(i: Installation, refused: bool)
    ensures Ends(i, refused, i.d0)
  {
  }

  lemma UnstagedEnds(i: Installation, m: Moment, refused: bool)
    requires Possible(i, m) && i.s !in m.disk.entries && (m.phase == RollingBack ==> refused)
    ensures Ends(i, refused, m.disk)
  {
    hide Fits, PartOf;
  }

  lemma StagedIsPending(i: Installation, m: Moment)
    requires Legal(i) && Possible(i, m)
    ensures i.s in m.disk.entries ==> !Clean(m.disk)
  {
    hide IdOf, Fits;
    LegalIsApart(i);
    assert IsTransactionName(i.s);
    if m.phase.Copying? || m.phase.Discarding? {
      var t :| Staged(i, t) && m.disk == Placed(i.d0, i.s, t);
      PartIsDir(t, i.source);
      assert m.disk.entries[i.s].Dir?;
    }
  }

  lemma OutcomeFollows(i: Installation, refused: bool, d': Disk)
    requires Legal(i) && Ends(i, refused, d')
    ensures Follows(i.d0, Install(i.id, i.s, i.source, i.e, refused), d')
  {
    hide IdOf, Fits, PartOf;
    LegalIsApart(i);
    PartOfSelf(i.source);
    if Holds(i, i.id, d') {
      var t :| PartOf(t, i.source) && d' == Placed(i.d0, i.id, t);
    }
  }

  lemma PerformsFollows(d: Disk, op: Operation, d': Disk)
    requires Clean(d) && Performs(d, op, d')
    ensures Follows(d, op, d')
  {
    hide Clean, IsFair, Stops, Recovers, Follows;
    var x :| Stops(d, op, x) && (Recovers(x, d') || (Clean(x) && d' == x));
    if op.Install? {
      InstallFollows(d, op, x, d');
    } else {
      RemovalFollows(d, op, x, d');
    }
  }

  // ---------- Histories ----------

  /** `disks[k + 1]` is what operation `k` made of `disks[k]`. */
  ghost predicate IsHistory(disks: seq<Disk>, ops: seq<Operation>)
  {
    |disks| == |ops| + 1 && forall k :: 0 <= k < |ops| ==> Performs(disks[k], ops[k], disks[k + 1])
  }

  ghost predicate EntryExplained(d0: Disk, ops: seq<Operation>, name: string, t: Tree)
  {
    (name in d0.entries && t == d0.entries[name]) || exists k :: 0 <= k < |ops| && InstalledBy(ops[k], name, t)
  }

  ghost predicate RegistrationExplained(d0: Disk, ops: seq<Operation>, id: string, e: Entry)
  {
    || (id in d0.registry && e == d0.registry[id])
    || exists k :: 0 <= k < |ops| && ops[k].Install? && ops[k].id == id && ops[k].e == e
  }

  /**
   * In every history of installations and removals of plain ids, no transaction is left pending, and
   * every entry is an initial one, the whole source of some installation, or a part of the source of
   * an installation whose registry save was refused; every registration is initial or an installation's.
   */
  lemma {:induction false} EveryEntryIsExplained(disks: seq<Disk>, ops: seq<Operation>, k: nat)
    requires IsHistory(disks, ops) && Clean(disks[0]) && k < |disks|
    ensures Clean(disks[k])
    ensures forall name :: name in disks[k].entries ==>
              EntryExplained(disks[0], ops[..k], name, disks[k].entries[name])
    ensures forall id :: id in disks[k].registry ==>
              RegistrationExplained(disks[0], ops[..k], id, disks[k].registry[id])
  {
    hide Clean, Performs, InstalledBy;
    if k > 0 {
      EveryEntryIsExplained(disks, ops, k - 1);
      PerformsFollows(disks[k - 1], ops[k - 1], disks[k]);
      var now, before := ops[..k], ops[..k - 1];
      assert now == before + [ops[k - 1]] && now[k - 1] == ops[k - 1];
      forall name | name in disks[k].entries
        ensures EntryExplained(disks[0], now, name, disks[k].entries[name])
      {
        if name in disks[k - 1].entries && disks[k].entries[name] == disks[k - 1].entries[name] {
          EntryStaysExplained(disks[0], before, ops[k - 1], name, disks[k].entries[name]);
        }
      }
      forall id | id in disks[k].registry
        ensures RegistrationExplained(disks[0], now, id, disks[k].registry[id])
      {
        if id in disks[k - 1].registry && disks[k].registry[id] == disks[k - 1].registry[id] {
          RegistrationStaysExplained(disks[0], before, ops[k - 1], id, disks[k].registry[id]);
        }
      }
    }
  }

  lemma EntryStaysExplained(d0: Disk, ops: seq<Operation>, op: Operation, name: string, t: Tree)
    requires EntryExplained(d0, ops, name, t)
    ensures EntryExplained(d0, ops + [op], name, t)
  {
    hide InstalledBy;
    if !(name in d0.entries && t == d0.entries[name]) {
      var k :| 0 <= k < |ops| && InstalledBy(ops[k], name, t);
      assert (ops + [op])[k] == ops[k];
    }
  }

  lemma RegistrationStaysExplained(d0: Disk, ops: seq<Operation>, op: Operation, id: string, e: Entry)
    requires RegistrationExplained(d0, ops, id, e)
    ensures RegistrationExplained(d0, ops + [op], id, e)
  {
    if !(id in d0.registry && e == d0.registry[id]) {
      var k :| 0 <= k < |ops| && ops[k].Install? && ops[k].id == id && ops[k].e == e;
      assert (ops + [op])[k] == ops[k];
    }
  }
}
