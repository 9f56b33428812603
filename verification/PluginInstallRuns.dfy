/**
 * The runs of `install_from_folder` (src/plugins.rs), one file-system call at a time: which disks a
 * crash can really leave, and what recovery makes of each.  Copying and deleting a tree move one entry
 * at a time; no order of the entries is assumed.
 */
module PluginInstallRuns {
  import opened FileTree
  import opened PluginNames
  import opened PluginTransactions
  import opened PluginCopy

  /** Installing `source` as `id` on the disk `d0`, staged under `s`, with registry entry `e`. */
  datatype Installation = Installation(d0: Disk, id: string, s: string, source: Tree, e: Entry)

  /** `Discarding` and `RollingBack` are the two cleanups: after a failed copy or rename, and after a refused save. */
  datatype Phase = Idle | Copying | Discarding | InPlace | RollingBack | Installed | Failed

  datatype Moment = Moment(phase: Phase, disk: Disk)

  /** The staging and target names are distinct and free, and the source is a directory. */
  predicate Apart(i: Installation)
  {
    i.source.Dir? && i.s != i.id && i.s !in i.d0.entries && i.id !in i.d0.entries
  }

  /** Moreover recovery reads the staging name as one for `id`, and nothing else on the disk as a transaction. */
  ghost predicate Legal(i: Installation)
  {
    Clean(i.d0) && InstallationOf(i.d0, i.id, i.s, i.source)
  }

  /** Within the copy limits. */
  ghost predicate Fits(t: Tree) { Copyable(t, 0, Cost(0, 0)) }

  /** What the copy can have staged so far: it never writes an entry that the limits refuse. */
  ghost predicate Staged(i: Installation, t: Tree) { PartOf(t, i.source) && Fits(t) }

  // ---------- Steps ----------

  /** The staged part of the source grows by one entry. */
  ghost predicate Copies(i: Installation, d: Disk, d': Disk)
  {
    exists t, t' :: OneFewer(t', t) && Staged(i, t') && d == Placed(i.d0, i.s, t) && d' == Placed(i.d0, i.s, t')
  }

  /** The tree at `name` loses one entry. */
  ghost predicate Deletes(i: Installation, name: string, d: Disk, d': Disk)
  {
    exists t, t' :: OneFewer(t, t') && d == Placed(i.d0, name, t) && d' == Placed(i.d0, name, t')
  }

  ghost predicate Cleans(i: Installation, name: string, a: Moment, b: Moment)
  {
    || (b.phase == a.phase && Deletes(i, name, a.disk, b.disk))
    || (a.disk == Placed(i.d0, name, EMPTY) && b == Moment(Failed, i.d0))
  }

  ghost predicate Next(i: Installation, a: Moment, b: Moment)
  {
    match a.phase
    case Idle => b == Moment(Copying, Placed(i.d0, i.s, EMPTY))
    case Copying =>
      || (b.phase == Copying && Copies(i, a.disk, b.disk))
      || b == Moment(Discarding, a.disk)
      || (Fits(i.source) && a.disk == Placed(i.d0, i.s, i.source)
          && b == Moment(InPlace, Moved(a.disk, i.s, i.id)))
    case Discarding => Cleans(i, i.s, a, b)
    case InPlace =>
      || b == Moment(Installed, Registered(a.disk, i.id, i.e))
      || b == Moment(RollingBack, a.disk)
    case RollingBack => Cleans(i, i.id, a, b)
    case Installed => false
    case Failed => false
  }

  ghost predicate IsRun(i: Installation, run: seq<Moment>, last: Moment)
  {
    && run != [] && run[0] == Moment(Idle, i.d0) && run[|run| - 1] == last
    && forall k :: 0 <= k < |run| - 1 ==> Next(i, run[k], run[k + 1])
  }

  ghost predicate Reached(i: Installation, m: Moment) { exists run :: IsRun(i, run, m) }

  lemma RenameMoves(i: Installation)
    requires Apart(i)
    ensures Moved(Placed(i.d0, i.s, i.source), i.s, i.id) == Placed(i.d0, i.id, i.source)
  {
    assert i.d0.entries[i.s := i.source] - {i.s} == i.d0.entries;
  }

  lemma IsPlaced(d: Disk, name: string, t: Tree)
    ensures name in Placed(d, name, t).entries
  {
  }

  // ---------- What runs can reach ----------

  /** The disk of each phase, exactly. */
  ghost predicate Possible(i: Installation, m: Moment)
  {
    match m.phase
    case Idle => m.disk == i.d0
    case Copying => exists t :: Staged(i, t) && m.disk == Placed(i.d0, i.s, t)
    case Discarding => exists t :: Staged(i, t) && m.disk == Placed(i.d0, i.s, t)
    case InPlace => Fits(i.source) && m.disk == Placed(i.d0, i.id, i.source)
    case RollingBack => Fits(i.source) && Holds(i, i.id, m.disk)
    case Installed => Fits(i.source) && m.disk == Registered(Placed(i.d0, i.id, i.source), i.id, i.e)
    case Failed => m.disk == i.d0
  }

  /** Some part of the source is at the plugin's name. */
  ghost predicate Holds(i: Installation, name: string, d: Disk)
  {
    exists t :: PartOf(t, i.source) && d == Placed(i.d0, name, t)
  }

  lemma HoldsPart(i: Installation, name: string, t: Tree)
    requires PartOf(t, i.source)
    ensures Holds(i, name, Placed(i.d0, name, t))
  {
  }

  lemma StagedIsPossible(i: Installation, phase: Phase, t: Tree)
    requires Staged(i, t) && (phase.Copying? || phase.Discarding?)
    ensures Possible(i, Moment(phase, Placed(i.d0, i.s, t)))
  {
  }

  lemma PlacedIsInjective(d: Disk, name: string, t: Tree, t': Tree)
    requires Placed(d, name, t) == Placed(d, name, t')
    ensures t == t'
  {
    assert Placed(d, name, t).entries[name] == t;
  }

  lemma NextIsPossible(i: Installation, a: Moment, b: Moment)
    requires Apart(i) && Possible(i, a) && Next(i, a, b)
    ensures Possible(i, b)
  {
    hide Fits, PartOf, OneFewer, Placed;
    EmptyIsStaged(i);
    PartOfSelf(i.source);
    if a.phase.Copying? && b.phase.Copying? {
      var t, t' :| OneFewer(t', t) && Staged(i, t')
                   && a.disk == Placed(i.d0, i.s, t) && b.disk == Placed(i.d0, i.s, t');
      StagedIsPossible(i, Copying, t');
    } else if a.phase.Copying? {
      RenameMoves(i);
    } else if a.phase.Idle? {
      StagedIsPossible(i, Copying, EMPTY);
    } else if a.phase.InPlace? {
      HoldsPart(i, i.id, i.source);
    } else if a.phase.Discarding? && b.phase.Discarding? {
      DeletesStaged(i, a.disk, b.disk);
    } else if a.phase.RollingBack? && b.phase.RollingBack? {
      DeletesPart(i, a.disk, b.disk);
    }
  }

  lemma LegalIsApart(i: Installation)
    requires Legal(i)
    ensures Apart(i)
  {
  }

  lemma EmptyIsStaged(i: Installation)
    requires i.source.Dir?
    ensures Staged(i, EMPTY)
  {
  }

  lemma DeletesStaged(i: Installation, d: Disk, d': Disk)
    requires Possible(i, Moment(Discarding, d)) && Deletes(i, i.s, d, d')
    ensures Possible(i, Moment(Discarding, d'))
  {
    hide PartOf, OneFewer, Placed, Fits;
    var u :| Staged(i, u) && d == Placed(i.d0, i.s, u);
    var t, t' :| OneFewer(t, t') && d == Placed(i.d0, i.s, t) && d' == Placed(i.d0, i.s, t');
    PlacedIsInjective(i.d0, i.s, t, u);
    FewerIsPart(t, t', i.source);
    PartOfSelf(t);
    FewerIsPart(t, t', t);
    StagedPart(i, t', t);
    StagedIsPossible(i, Discarding, t');
  }

  lemma StagedPart(i: Installation, p: Tree, t: Tree)
    requires Staged(i, t) && PartOf(p, t)
    ensures Staged(i, p)
  {
    hide PartOf, Copyable;
    PartOfTransitive(p, t, i.source);
    CopyablePart(p, t);
  }

  lemma DeletesPart(i: Installation, d: Disk, d': Disk)
    requires Holds(i, i.id, d) && Deletes(i, i.id, d, d')
    ensures Holds(i, i.id, d')
  {
    hide PartOf, OneFewer, Placed;
    var u :| PartOf(u, i.source) && d == Placed(i.d0, i.id, u);
    var t, t' :| OneFewer(t, t') && d == Placed(i.d0, i.id, t) && d' == Placed(i.d0, i.id, t');
    PlacedIsInjective(i.d0, i.id, t, u);
    FewerIsPart(t, t', i.source);
    HoldsPart(i, i.id, t');
  }

  lemma {:induction false} RunIsPossible(i: Installation, run: seq<Moment>, k: nat)
    requires Apart(i) && run != [] && IsRun(i, run, run[|run| - 1]) && k < |run|
    ensures Possible(i, run[k])
  {
    hide Apart, Possible, Next;
    if k == 0 {
      StartIsPossible(i);
    } else {
      RunIsPossible(i, run, k - 1);
      NextIsPossible(i, run[k - 1], run[k]);
    }
  }

  lemma StartIsPossible(i: Installation)
    ensures Possible(i, Moment(Idle, i.d0))
  {
  }

  // ---------- Every possible moment is reached ----------

  lemma Extend(i: Installation, m: Moment, m': Moment)
    requires Reached(i, m) && Next(i, m, m')
    ensures Reached(i, m')
  {
    hide Next;
    var run :| IsRun(i, run, m);
    var longer := run + [m'];
    assert forall k :: 0 <= k < |longer| - 1 ==> longer[k] == run[k];
    assert IsRun(i, longer, m');
  }

  lemma StartIsReached(i: Installation)
    ensures Reached(i, Moment(Idle, i.d0))
  {
    assert IsRun(i, [Moment(Idle, i.d0)], Moment(Idle, i.d0));
  }

  /** The copy can stop at everything that it can stage. */
  lemma {:induction false} CopyReaches(i: Installation, ts: seq<Tree>, t: Tree, k: nat)
    requires Staged(i, t) && IsChain(ts, t, EMPTY) && k < |ts|
    ensures Staged(i, ts[k]) && Reached(i, Moment(Copying, Placed(i.d0, i.s, ts[k])))
    decreases |ts| - k
  {
    hide Reached, PartOf, OneFewer, Placed, Fits;
    PartOfSelf(t);
    ChainOfParts(t, ts, t, k);
    StagedPart(i, ts[k], t);
    if k == |ts| - 1 {
      StartIsReached(i);
      Extend(i, Moment(Idle, i.d0), Moment(Copying, Placed(i.d0, i.s, EMPTY)));
    } else {
      CopyReaches(i, ts, t, k + 1);
      assert OneFewer(ts[k], ts[k + 1]);
      assert Copies(i, Placed(i.d0, i.s, ts[k + 1]), Placed(i.d0, i.s, ts[k]));
      Extend(i, Moment(Copying, Placed(i.d0, i.s, ts[k + 1])), Moment(Copying, Placed(i.d0, i.s, ts[k])));
    }
  }

  lemma {:induction false} ChainOfParts(whole: Tree, ts: seq<Tree>, t: Tree, k: nat)
    requires PartOf(t, whole) && ts != [] && IsChain(ts, t, ts[|ts| - 1]) && k < |ts|
    ensures PartOf(ts[k], whole)
  {
    hide PartOf, OneFewer;
    if k > 0 {
      ChainOfParts(whole, ts, t, k - 1);
      FewerIsPart(ts[k - 1], ts[k], whole);
    }
  }

  /** The rollback can stop at every part of the source. */
  lemma {:induction false} RollbackReaches(i: Installation, ts: seq<Tree>, k: nat)
    requires ts != [] && IsChain(ts, i.source, ts[|ts| - 1]) && k < |ts|
    requires Reached(i, Moment(RollingBack, Placed(i.d0, i.id, i.source)))
    ensures Reached(i, Moment(RollingBack, Placed(i.d0, i.id, ts[k])))
  {
    hide Reached, OneFewer, Placed;
    if k > 0 {
      RollbackReaches(i, ts, k - 1);
      assert OneFewer(ts[k - 1], ts[k]);
      assert Deletes(i, i.id, Placed(i.d0, i.id, ts[k - 1]), Placed(i.d0, i.id, ts[k]));
      Extend(i, Moment(RollingBack, Placed(i.d0, i.id, ts[k - 1])), Moment(RollingBack, Placed(i.d0, i.id, ts[k])));
    }
  }

  lemma CopyingIsReached(i: Installation, t: Tree)
    requires Apart(i) && Staged(i, t)
    ensures Reached(i, Moment(Copying, Placed(i.d0, i.s, t)))
    ensures Reached(i, Moment(Discarding, Placed(i.d0, i.s, t)))
  {
    hide Reached, Placed, PartOf, Fits;
    PartIsDir(t, i.source);
    EmptyIsPart(t);
    var ts := ChainToPart(t, EMPTY);
    CopyReaches(i, ts, t, 0);
    Extend(i, Moment(Copying, Placed(i.d0, i.s, t)), Moment(Discarding, Placed(i.d0, i.s, t)));
  }

  lemma PartIsDir(p: Tree, t: Tree)
    requires PartOf(p, t)
    ensures t.Dir? ==> p.Dir?
  {
  }

  lemma EmptyIsPart(t: Tree)
    requires t.Dir?
    ensures PartOf(EMPTY, t)
  {
  }

  lemma InPlaceIsReached(i: Installation)
    requires Apart(i) && Fits(i.source)
    ensures Reached(i, Moment(InPlace, Placed(i.d0, i.id, i.source)))
    ensures Reached(i, Moment(RollingBack, Placed(i.d0, i.id, i.source)))
    ensures Reached(i, Moment(Installed, Registered(Placed(i.d0, i.id, i.source), i.id, i.e)))
  {
    hide Reached, Placed, PartOf, Fits;
    PartOfSelf(i.source);
    CopyingIsReached(i, i.source);
    RenameMoves(i);
    assert i.s in Placed(i.d0, i.s, i.source).entries by { IsPlaced(i.d0, i.s, i.source); }
    var placed := Moment(InPlace, Placed(i.d0, i.id, i.source));
    Extend(i, Moment(Copying, Placed(i.d0, i.s, i.source)), placed);
    Extend(i, placed, Moment(RollingBack, placed.disk));
    Extend(i, placed, Moment(Installed, Registered(placed.disk, i.id, i.e)));
  }

  lemma RollingBackIsReached(i: Installation, t: Tree)
    requires Apart(i) && Fits(i.source) && PartOf(t, i.source)
    ensures Reached(i, Moment(RollingBack, Placed(i.d0, i.id, t)))
  {
    hide Reached, Placed, PartOf, Fits;
    InPlaceIsReached(i);
    var ts := ChainToPart(i.source, t);
    RollbackReaches(i, ts, |ts| - 1);
  }

  lemma FailureIsReached(i: Installation)
    requires Apart(i)
    ensures Reached(i, Moment(Failed, i.d0))
  {
    hide Reached, Placed, PartOf, Fits;
    EmptyIsStaged(i);
    CopyingIsReached(i, EMPTY);
    Extend(i, Moment(Discarding, Placed(i.d0, i.s, EMPTY)), Moment(Failed, i.d0));
  }

  /** The moments that runs of these steps reach are exactly the possible ones. */
  lemma ReachedIff(i: Installation, m: Moment)
    requires Apart(i)
    ensures Reached(i, m) <==> Possible(i, m)
  {
    hide PartOf, Placed, Fits, Next, Apart;
    if Reached(i, m) {
      var run :| IsRun(i, run, m);
      RunIsPossible(i, run, |run| - 1);
    }
    if Possible(i, m) {
      PossibleIsReached(i, m);
    }
  }

  lemma PossibleIsReached(i: Installation, m: Moment)
    requires Apart(i) && Possible(i, m)
    ensures Reached(i, m)
  {
    hide Apart, PartOf, Placed, Fits, Next, Reached;
    StartIsReached(i);
    FailureIsReached(i);
    if m.phase.Copying? || m.phase.Discarding? {
      var t :| Staged(i, t) && m.disk == Placed(i.d0, i.s, t);
      CopyingIsReached(i, t);
    } else if m.phase.InPlace? || m.phase.Installed? {
      InPlaceIsReached(i);
    } else if m.phase.RollingBack? {
      var t :| PartOf(t, i.source) && m.disk == Placed(i.d0, i.id, t);
      RollingBackIsReached(i, t);
    }
  }

  /** `d` occurs in some run of the installation, and in one without a refused save unless `refused`. */
  ghost predicate Occurs(i: Installation, refused: bool, d: Disk)
  {
    exists phase :: Reached(i, Moment(phase, d)) && (phase == RollingBack ==> refused)
  }

  /** The same, by what is possible. */
  ghost predicate InRun(i: Installation, refused: bool, d: Disk)
  {
    exists phase :: Possible(i, Moment(phase, d)) && (phase == RollingBack ==> refused)
  }

  lemma IsInRun(i: Installation, m: Moment)
    requires Possible(i, m)
    ensures InRun(i, m.phase == RollingBack, m.disk) && InRun(i, true, m.disk)
  {
    hide Possible;
  }

  lemma InRunMeans(i: Installation, refused: bool, d: Disk)
    requires Apart(i) && InRun(i, refused, d)
    ensures Occurs(i, refused, d) && InstallState(i.d0, i.id, i.s, i.source, i.e, refused, d)
  {
    hide Possible, Reached, PartlyDeleted, Apart;
    var phase :| Possible(i, Moment(phase, d)) && (phase == RollingBack ==> refused);
    ReachedIff(i, Moment(phase, d));
    PossibleIsInstallState(i, Moment(phase, d));
  }

  lemma StartOccurs(i: Installation, refused: bool)
    ensures Occurs(i, refused, i.d0)
  {
    hide Reached;
    StartIsReached(i);
  }

  /** Deleting the staging directory passes only through disks of runs, and ends where the run began. */
  lemma DiscardingStaged(i: Installation, d: Disk)
    requires Apart(i) && Possible(i, Moment(Copying, d))
    ensures HasDir(d, i.s) && Without(d, i.s) == i.d0 && InRun(i, false, d) && InRun(i, false, i.d0)
    ensures forall d' :: PartLeft(d, i.s, d') ==> InRun(i, false, d')
  {
    hide PartOf, Fits;
    var t :| Staged(i, t) && d == Placed(i.d0, i.s, t);
    PartIsDir(t, i.source);
    assert d.entries - {i.s} == i.d0.entries;
    IsInRun(i, Moment(Copying, d));
    IsInRun(i, Moment(Failed, i.d0));
    forall d' | PartLeft(d, i.s, d') ensures InRun(i, false, d') {
      var p :| PartOf(p, t) && d' == Placed(d, i.s, p);
      assert d' == Placed(i.d0, i.s, p);
      StagedPart(i, p, t);
      StagedIsPossible(i, Discarding, p);
      IsInRun(i, Moment(Discarding, d'));
    }
  }

  /** So does deleting the plugin's directory after a refused save. */
  lemma RollingBackPlaced(i: Installation, d: Disk)
    requires Apart(i) && Fits(i.source) && d == Placed(i.d0, i.id, i.source)
    ensures HasDir(d, i.id) && Without(d, i.id) == i.d0
    ensures InRun(i, false, d) && InRun(i, false, Registered(d, i.id, i.e))
    ensures forall d' :: PartLeft(d, i.id, d') ==> InRun(i, true, d')
  {
    hide PartOf, Fits;
    assert d.entries - {i.id} == i.d0.entries;
    IsInRun(i, Moment(InPlace, d));
    IsInRun(i, Moment(Installed, Registered(d, i.id, i.e)));
    forall d' | PartLeft(d, i.id, d') ensures InRun(i, true, d') {
      var p :| PartOf(p, i.source) && d' == Placed(d, i.id, p);
      assert d' == Placed(i.d0, i.id, p);
      IsInRun(i, Moment(RollingBack, d'));
    }
  }

  lemma InRunIsMonotone(i: Installation, d: Disk)
    requires InRun(i, false, d)
    ensures InRun(i, true, d)
  {
    hide Possible;
  }

  // ---------- What a crash leaves ----------

  /**
   * A crash can leave an incomplete tree under the plugin's own name exactly when the registry save
   * was refused, and then any part of the source can be what is left.
   */
  lemma PartialTreeIffRefused(i: Installation, phase: Phase, t: Tree)
    requires Apart(i) && t != i.source
    ensures Reached(i, Moment(phase, Placed(i.d0, i.id, t))) <==>
            phase == RollingBack && Fits(i.source) && PartOf(t, i.source)
  {
    hide PartOf, Fits, Next, Reached;
    var d := Placed(i.d0, i.id, t);
    ReachedIff(i, Moment(phase, d));
    assert d.entries[i.id] == t && i.id in d.entries && i.s !in d.entries;
    if PartOf(t, i.source) {
      HoldsPart(i, i.id, t);
    }
    if Holds(i, i.id, d) {
      var u :| PartOf(u, i.source) && d == Placed(i.d0, i.id, u);
      PlacedIsInjective(i.d0, i.id, t, u);
    }
  }

  /** What is left under the plugin's name stays: the recovery of no listing touches it. */
  lemma PartialTreeStays(i: Installation, t: Tree, listing: seq<string>)
    requires Legal(i) && PartOf(t, i.source)
    ensures RecoverAll(Placed(i.d0, i.id, t), Scanned(listing)) == Placed(i.d0, i.id, t)
  {
    hide Clean, PartOf, IdOf, RecoverAll;
    LegalIsApart(i);
    var d := Placed(i.d0, i.id, t);
    HoldsPart(i, i.id, t);
    HeldIsPartlyDeleted(i, i.id, d);
    CompletedRecoveryEndsInstall(i.d0, i.id, i.s, i.source, i.e, true, d, Scanned(listing));
  }

  /** The states that installation and its recovery are closed under include every moment of a run. */
  lemma PossibleIsInstallState(i: Installation, m: Moment)
    requires Apart(i) && Possible(i, m)
    ensures InstallState(i.d0, i.id, i.s, i.source, i.e, m.phase == RollingBack, m.disk)
    ensures i.s in m.disk.entries ==> PartlyDeleted(i.d0, i.s, m.disk)
  {
    hide Fits, PartOf;
    if m.phase.Copying? || m.phase.Discarding? {
      var t :| Staged(i, t) && m.disk == Placed(i.d0, i.s, t);
      HoldsPart(i, i.s, t);
      HeldIsPartlyDeleted(i, i.s, m.disk);
    } else if m.phase.RollingBack? {
      HeldIsPartlyDeleted(i, i.id, m.disk);
      assert i.s !in m.disk.entries;
    }
  }

  lemma HeldIsPartlyDeleted(i: Installation, name: string, d: Disk)
    requires Holds(i, name, d) && i.source.Dir?
    ensures PartlyDeleted(i.d0, name, d)
  {
    hide PartOf;
    var t :| PartOf(t, i.source) && d == Placed(i.d0, name, t);
    PartIsDir(t, i.source);
    assert d == Placed(i.d0, name, Dir(t.children));
  }

  /**
   * What a completed recovery leaves, for every moment at which an installation can crash and however
   * often the recovery is interrupted: the disk as it was before if the staging directory was still
   * there, and otherwise the disk as the crash left it.
   */
  lemma CrashOutcome(i: Installation, m: Moment, crashes: seq<Disk>, listings: seq<seq<string>>)
    requires Legal(i) && Reached(i, m) && CrashSequence(crashes, listings) && crashes[0] == m.disk
    requires Lists(listings[|listings| - 1], crashes[|crashes| - 1])
    ensures Recovered(crashes, listings) == if i.s in m.disk.entries then i.d0 else m.disk
  {
    hide IdOf, RecoverAll, RecoveryClosed, RecoveryState, Possible, Reached, PartlyDeleted, Clean, InstallState,
         InstallationOf;
    LegalIsApart(i);
    ReachedIff(i, m);
    PossibleIsInstallState(i, m);
    var last := |crashes| - 1;
    var inv := (d: Disk) => After(i, m, d);
    AfterIsClosed(i, m);
    CrashesKeep(inv, crashes, listings, last);
    AfterIsInstallState(i, m, crashes[last]);
    CompletedRecoveryEndsInstall(
      i.d0, i.id, i.s, i.source, i.e, m.phase == RollingBack, crashes[last], Scanned(listings[last]));
  }

  /** What the crash at `m` can turn into while recoveries are interrupted. */
  ghost predicate After(i: Installation, m: Moment, d: Disk)
  {
    if i.s in m.disk.entries then d == i.d0 || PartlyDeleted(i.d0, i.s, d) else d == m.disk
  }

  lemma AfterIsInstallState(i: Installation, m: Moment, d: Disk)
    requires Legal(i) && After(i, m, d)
    requires InstallState(i.d0, i.id, i.s, i.source, i.e, m.phase == RollingBack, m.disk)
    ensures InstallState(i.d0, i.id, i.s, i.source, i.e, m.phase == RollingBack, d)
    ensures i.s in d.entries ==> i.s in m.disk.entries
    ensures i.s in m.disk.entries && i.s !in d.entries ==> d == i.d0
  {
    hide IdOf, Clean;
    LegalIsApart(i);
  }

  lemma AfterIsClosed(i: Installation, m: Moment)
    requires Legal(i)
    requires InstallState(i.d0, i.id, i.s, i.source, i.e, m.phase == RollingBack, m.disk)
    ensures RecoveryClosed((d: Disk) => After(i, m, d))
  {
    hide IdOf, InstallationOf, RecoverOne, PartlyDeleted, Clean, InstallState;
    forall d, name | After(i, m, d)
      ensures After(i, m, RecoverOne(d, name))
      ensures ActionFor(d, name).Delete? ==> forall d' :: PartlyDeleted(d, name, d') ==> After(i, m, d')
    {
      AfterIsInstallState(i, m, d);
      InstallRecoveryStep(i.d0, i.id, i.s, i.source, i.e, m.phase == RollingBack, d, name);
    }
  }
}
