/**
 * The plugin registry's operations on the disk (src/plugins.rs).  Every state the disk passes
 * through is recorded, so a contract about the trace is a contract about every crash point.
 */
module PluginStore {
  import opened Common
  import opened FileTree
  import opened PluginNames
  import opened PluginTransactions
  import opened PluginCopy
  import opened PluginInstallRuns

  const BUILTIN_MICRONPLUS_PLUGIN_ID := "micronplus_textui"
  const BUILTIN_OMENCHAT_PLUGIN_ID := "omenchat_lxmf"

  datatype Error = UnsafeId | Builtin | NotADirectory | AlreadyExists | Unconfirmed | Refused | Io

  /** One built-in plugin has an older spelling. */
  function NormalizeId(id: string): (r: string)
    ensures id == "micronplus-textui" ==> r == "micronplus_textui"
    ensures id != "micronplus-textui" ==> r == id
  {
    if id == "micronplus-textui" then BUILTIN_MICRONPLUS_PLUGIN_ID else id
  }

  /** The registration of an installed plugin: enabled and trusted, in its own directory. */
  function EntryFor(id: string, sourcePath: string): (e: Entry)
    ensures e.enabled && e.trusted && e.path == id && e.source == Some(sourcePath)
  {
    Entry(true, true, id, Some(sourcePath))
  }

  class PluginStore {
    var disk: Disk
    ghost var trace: seq<Disk>

    /** The states since `from` satisfy `p`, and so does the present one. */
    ghost predicate Since(from: nat, p: Disk -> bool)
      reads this
    {
      from <= |trace| && p(disk) && forall k :: from <= k < |trace| ==> p(trace[k])
    }

    // ---------- The file system: any call may be refused ----------

    method Rename(from: string, to: string) returns (ok: bool)
      requires from in disk.entries
      modifies this
      ensures disk == if ok then Moved(old(disk), from, to) else old(disk)
      ensures trace == old(trace) + [disk]
    {
      ok := *;
      if ok {
        disk := Moved(disk, from, to);
      }
      trace := trace + [disk];
    }

    method SaveRegistry(registry: map<string, Entry>) returns (ok: bool)
      modifies this
      ensures disk == if ok then old(disk).(registry := registry) else old(disk)
      ensures trace == old(trace) + [disk]
    {
      ok := *;
      if ok {
        disk := disk.(registry := registry);
      }
      trace := trace + [disk];
    }

    /** Deletes any number of the entries below `name`. */
    method DeleteSome(name: string)
      requires HasDir(disk, name)
      modifies this
      ensures old(trace) <= trace && Remains(old(disk), name, disk)
      ensures forall k :: |old(trace)| <= k < |trace| ==> Remains(old(disk), name, trace[k])
    {
      hide PartOf;
      ghost var whole := disk.entries[name];
      var pieces: nat :| true;
      PartOfSelf(whole);
      assert disk == Placed(disk, name, whole);
      IsRemains(disk, name, whole);
      for i := 0 to pieces
        invariant HasDir(disk, name) && PartOf(disk.entries[name], whole)
        invariant disk == Placed(old(disk), name, disk.entries[name]) && Remains(old(disk), name, disk)
        invariant old(trace) <= trace
        invariant forall k :: |old(trace)| <= k < |trace| ==> Remains(old(disk), name, trace[k])
      {
        var part: Tree := *;
        if part.Dir? && PartOf(part, disk.entries[name]) {
          PartOfTransitive(part, disk.entries[name], whole);
          disk := Placed(disk, name, part);
          assert disk == Placed(old(disk), name, part);
          IsRemains(old(disk), name, part);
          trace := trace + [disk];
        }
      }
    }

    /** Deletes a tree piece by piece; a refusal leaves what is left of it. */
    method RemoveDirAll(name: string) returns (ok: bool)
      requires HasDir(disk, name)
      modifies this
      ensures if ok then disk == Without(old(disk), name) else Remains(old(disk), name, disk)
      ensures old(trace) <= trace
      ensures forall k :: |old(trace)| <= k < |trace| ==>
                trace[k] == Without(old(disk), name) || Remains(old(disk), name, trace[k])
    {
      hide Remains;
      DeleteSome(name);
      RemainsWithout(old(disk), name, disk);
      ok := *;
      if ok {
        disk := Without(disk, name);
        trace := trace + [disk];
      }
    }

    // ---------- Removal ----------

    /** `remove_installed_with_save`, where `quarantine` is a fresh quarantine name for `id`. */
    method RemoveInstalledWithSave(id: string, quarantine: string) returns (r: Result<bool, Error>)
      requires quarantine !in disk.entries
      modifies this
      ensures old(trace) <= trace
      ensures Since(|old(trace)|, (d: Disk) => RemovalState(old(disk), id, quarantine, d))
      ensures r.Ok? ==> disk == Gone(old(disk), id)
      ensures r.Ok? ==> r.value == (id in old(disk).entries || id in old(disk).registry)
      ensures id in old(disk).entries && !old(disk).entries[id].Dir? <==> r == Err(NotADirectory)
      ensures r == Err(NotADirectory) ==> disk == old(disk) && trace == old(trace)
    {
      var registry := disk.registry;
      var quarantined := false;
      if id in disk.entries {
        if !disk.entries[id].Dir? {
          return Err(NotADirectory);
        }
        var renamed := Rename(id, quarantine);
        if !renamed {
          return Err(Io);
        }
        quarantined := true;
      }
      if !quarantined && id !in registry {
        assert disk.entries - {id} == disk.entries && disk.registry - {id} == disk.registry;
        return Ok(false);
      }
      var saved := SaveRegistry(registry - {id});
      if !saved {
        if quarantined {
          RestoreUndoes(old(disk), id, quarantine);
          var restored := Rename(quarantine, id);
        }
        return Err(Refused);
      }
      if quarantined {
        QuarantineIsGone(old(disk), id, quarantine, disk);
        var deleted := RemoveDirAll(quarantine);
        if !deleted {
          return Err(Io);
        }
      } else {
        assert old(disk).entries - {id} == old(disk).entries;
      }
      return Ok(true);
    }

    /** `remove_installed`: the checks before the transaction, with the numbers that make its name fresh. */
    method RemoveInstalled(pluginId: string, pid: nat, sequence: nat, nanos: nat) returns (r: Result<bool, Error>)
      requires pid <= U32_MAX && sequence <= U64_MAX && nanos <= U128_MAX
      requires IsSafeId(NormalizeId(pluginId)) ==>
                 TransactionName(REMOVE_PREFIX, NormalizeId(pluginId), pid, sequence, nanos) !in disk.entries
      modifies this
      ensures old(trace) <= trace
      ensures var id := NormalizeId(pluginId);
              if !IsSafeId(id) then r == Err(UnsafeId) && disk == old(disk) && trace == old(trace)
              else if id == BUILTIN_MICRONPLUS_PLUGIN_ID || id == BUILTIN_OMENCHAT_PLUGIN_ID then
                r == Err(Builtin) && disk == old(disk) && trace == old(trace)
              else
                var q := TransactionName(REMOVE_PREFIX, id, pid, sequence, nanos);
                && IdOf(q, REMOVE_PREFIX) == Some(id)
                && Since(|old(trace)|, (d: Disk) => RemovalState(old(disk), id, q, d))
                && (r.Ok? ==> disk == Gone(old(disk), id))
    {
      hide IsSafeId, IdOf, RemovalState;
      var id := NormalizeId(pluginId);
      if !IsSafeId(id) {
        return Err(UnsafeId);
      }
      if id == BUILTIN_MICRONPLUS_PLUGIN_ID || id == BUILTIN_OMENCHAT_PLUGIN_ID {
        return Err(Builtin);
      }
      NameRoundTrip(REMOVE_PREFIX, id, pid, sequence, nanos);
      r := RemoveInstalledWithSave(id, TransactionName(REMOVE_PREFIX, id, pid, sequence, nanos));
    }

    // ---------- Recovery ----------

    /** `recover_pending_plugin_transactions` over one listing of the directory. */
    method Recover(listing: seq<string>) returns (r: Result<(), Error>)
      modifies this
      ensures old(trace) <= trace
      ensures Since(|old(trace)|, (d: Disk) => RecoveryState(old(disk), Scanned(listing), d))
      ensures r.Ok? ==> disk == RecoverAll(old(disk), Scanned(listing))
    {
      hide ActionFor, RecoverOne, RecoveryState;
      ghost var scanned := Scanned(listing);
      RecoveryStart(disk, scanned);
      var i := 0;
      while i < |listing| && i < MAX_SCAN_ENTRIES
        invariant i <= |scanned| && |scanned| == if |listing| <= MAX_SCAN_ENTRIES then |listing| else MAX_SCAN_ENTRIES
        invariant RecoverAll(disk, scanned[i..]) == RecoverAll(old(disk), scanned)
        invariant forall d :: RecoveryState(disk, scanned[i..], d) ==> RecoveryState(old(disk), scanned, d)
        invariant old(trace) <= trace
        invariant Since(|old(trace)|, (d: Disk) => RecoveryState(old(disk), scanned, d))
      {
        RecoveryUnfold(disk, scanned[i..]);
        assert scanned[i..][1..] == scanned[i + 1..];
        var ok := RecoverEntry(listing[i]);
        if !ok {
          return Err(Io);
        }
        i := i + 1;
      }
      assert scanned[i..] == [];
      return Ok(());
    }

    method RecoverEntry(name: string) returns (ok: bool)
      modifies this
      ensures old(trace) <= trace
      ensures ok ==> disk == RecoverOne(old(disk), name)
      ensures Since(|old(trace)|, (d: Disk) =>
                d == old(disk) || d == RecoverOne(old(disk), name)
                || (ActionFor(old(disk), name).Delete? && PartlyDeleted(old(disk), name, d)))
    {
      hide IdOf;
      match ActionFor(disk, name) {
        case Ignore => ok := true;
        case Delete => ok := RemoveDirAll(name);
        case Restore(id) => ok := Rename(name, id);
      }
    }

    // ---------- Installation ----------

    /** Fills the staging directory; every intermediate state holds a part of the source within the limits. */
    method CopyToStaging(staging: string, source: Tree, ghost i: Installation) returns (ok: bool)
      requires source.Dir? && i.d0 == disk && i.s == staging && i.source == source
      modifies this
      ensures old(trace) <= trace && Possible(i, Moment(Copying, disk))
      ensures forall k :: |old(trace)| <= k < |trace| ==> Possible(i, Moment(Copying, trace[k]))
      ensures ok ==> disk == Placed(i.d0, staging, source) && Copyable(source, 0, Cost(0, 0))
    {
      hide Copyable, PartOf, Possible;
      disk := Placed(disk, staging, EMPTY);
      trace := trace + [disk];
      EmptyIsStaged(i);
      StagedIsPossible(i, Copying, EMPTY);
      var pieces: nat :| true;
      for k := 0 to pieces
        invariant old(trace) <= trace && Possible(i, Moment(Copying, disk))
        invariant forall j :: |old(trace)| <= j < |trace| ==> Possible(i, Moment(Copying, trace[j]))
        invariant staging in disk.entries && disk == Placed(i.d0, staging, disk.entries[staging])
      {
        var part: Tree := *;
        if part.Dir? && PartOf(part, source) {
          var _ := CopyPart(staging, part, i);
        }
      }
      PartOfSelf(source);
      ok := CopyPart(staging, source, i);
      if ok {
        ok := *;
      }
    }

    /** Brings the staging directory to one part of the source, if the copy limits allow it. */
    method CopyPart(staging: string, part: Tree, ghost i: Installation) returns (ok: bool)
      requires part.Dir? && PartOf(part, i.source) && i.s == staging
      requires staging in disk.entries && disk == Placed(i.d0, staging, disk.entries[staging])
      modifies this
      ensures ok <==> Copyable(part, 0, Cost(0, 0))
      ensures disk == if ok then Placed(i.d0, staging, part) else old(disk)
      ensures trace == if ok then old(trace) + [disk] else old(trace)
      ensures ok ==> Possible(i, Moment(Copying, disk))
    {
      hide Copyable, PartOf, Possible;
      var copy;
      copy, ok := CopyWithinBudget(part);
      if ok {
        disk := Placed(disk, staging, copy);
        assert disk == Placed(i.d0, staging, part);
        trace := trace + [disk];
        StagedIsPossible(i, Copying, part);
      }
    }

    /** `install_from_folder` once its manifest names `id`; `staging` is a fresh staging name for it. */
    method InstallFromFolder(source: Tree, sourcePath: string, confirmUnsafe: bool, id: string, staging: string)
      returns (r: Result<(), Error>, ghost saveRefused: bool)
      requires staging !in disk.entries && staging != id
      modifies this
      ensures old(trace) <= trace
      ensures var refusal := if !confirmUnsafe then Some(Unconfirmed)
                             else if !source.Dir? then Some(NotADirectory)
                             else if !IsSafeId(id) then Some(UnsafeId)
                             else if id in old(disk).entries then Some(AlreadyExists)
                             else None;
              if refusal.Some? then r == Err(refusal.value) && disk == old(disk) && trace == old(trace)
              else r.Ok? || r == Err(Refused) || r == Err(Io)
      ensures disk != old(disk) ==> confirmUnsafe && source.Dir? && IsSafeId(id) && id !in old(disk).entries
      ensures var i := Installation(old(disk), id, staging, source, EntryFor(id, sourcePath));
              Since(|old(trace)|, (d: Disk) => Occurs(i, saveRefused, d))
      ensures Since(|old(trace)|, (d: Disk) =>
                InstallState(old(disk), id, staging, source, EntryFor(id, sourcePath), saveRefused, d))
      ensures r.Ok? ==>
                && disk == Registered(Placed(old(disk), id, source), id, EntryFor(id, sourcePath))
                && Copyable(source, 0, Cost(0, 0)) && !saveRefused
    {
      hide Copyable, IsSafeId, PartlyDeleted, Possible, Occurs, PartLeft, InstallState, InRun;
      var entry := Entry(true, true, id, Some(sourcePath));
      ghost var i := Installation(disk, id, staging, source, entry);
      saveRefused := false;
      AtStart(i);
      if !confirmUnsafe {
        return Err(Unconfirmed), false;
      }
      if !source.Dir? {
        return Err(NotADirectory), false;
      }
      if !IsSafeId(id) {
        return Err(UnsafeId), false;
      }
      if id in disk.entries {
        return Err(AlreadyExists), false;
      }
      r, saveRefused := StageAndRegister(source, id, entry, staging, i);
      InRunStates(i, saveRefused);
    }

    /** The transaction itself, once the checks have passed. */
    method StageAndRegister(source: Tree, id: string, entry: Entry, staging: string, ghost i: Installation)
      returns (r: Result<(), Error>, ghost saveRefused: bool)
      requires i == Installation(disk, id, staging, source, entry) && Apart(i)
      modifies this
      ensures old(trace) <= trace && InRun(i, saveRefused, disk)
      ensures forall k :: |old(trace)| <= k < |trace| ==> InRun(i, saveRefused, trace[k])
      ensures r.Ok? || r == Err(Refused) || r == Err(Io)
      ensures r.Ok? ==>
                && disk == Registered(Placed(i.d0, id, source), id, entry)
                && Copyable(source, 0, Cost(0, 0)) && !saveRefused
    {
      hide Copyable, PartlyDeleted, Possible, PartLeft, InRun, Placed, Moved, Without;
      var registry := disk.registry;
      var copied := CopyToStaging(staging, source, i);
      StagedStates(i);
      DiscardingStaged(i, disk);
      if !copied {
        var cleaned := RemoveDirAll(staging);
        return Err(Refused), false;
      }
      var renamed := Rename(staging, id);
      if !renamed {
        var cleaned := RemoveDirAll(staging);
        return Err(Io), false;
      }
      RenameMoves(i);
      RollingBackPlaced(i, disk);
      KeepsRegistry(i.d0, id, source);
      var saved := SaveRegistry(registry[id := entry]);
      if !saved {
        forall d | InRun(i, false, d) ensures InRun(i, true, d) {
          InRunIsMonotone(i, d);
        }
        var cleaned := RemoveDirAll(id);
        return Err(Refused), true;
      }
      return Ok(()), false;
    }
  }

  lemma AtStart(i: Installation)
    ensures Occurs(i, false, i.d0) && InstallState(i.d0, i.id, i.s, i.source, i.e, false, i.d0)
  {
    StartOccurs(i, false);
  }

  lemma InRunStates(i: Installation, refused: bool)
    requires Apart(i)
    ensures forall d :: InRun(i, refused, d) ==>
              Occurs(i, refused, d) && InstallState(i.d0, i.id, i.s, i.source, i.e, refused, d)
  {
    hide InRun, Occurs, InstallState, Apart;
    forall d | InRun(i, refused, d)
      ensures Occurs(i, refused, d) && InstallState(i.d0, i.id, i.s, i.source, i.e, refused, d)
    {
      InRunMeans(i, refused, d);
    }
  }

  lemma StagedStates(i: Installation)
    ensures forall d :: Possible(i, Moment(Copying, d)) ==> InRun(i, false, d)
  {
    hide Possible, InRun;
    forall d | Possible(i, Moment(Copying, d)) ensures InRun(i, false, d) {
      IsInRun(i, Moment(Copying, d));
    }
  }

  lemma KeepsRegistry(d: Disk, name: string, t: Tree)
    ensures Placed(d, name, t).registry == d.registry
  {
  }

  /** What deleting a directory leaves of it while it is going on. */
  ghost predicate Remains(d: Disk, name: string, d': Disk) { PartLeft(d, name, d') && PartlyDeleted(d, name, d') }

  lemma IsRemains(d: Disk, name: string, t: Tree)
    requires name in d.entries && PartOf(t, d.entries[name]) && t.Dir?
    ensures Remains(d, name, Placed(d, name, t))
  {
    hide PartOf;
    assert Placed(d, name, t) == Placed(d, name, Dir(t.children));
  }

  lemma RemainsWithout(d: Disk, name: string, d': Disk)
    requires Remains(d, name, d')
    ensures Without(d', name) == Without(d, name)
  {
    assert Without(d', name).entries == d.entries - {name};
  }

  method CopyWithinBudget(source: Tree) returns (copy: Tree, ok: bool)
    requires source.Dir?
    ensures ok <==> Copyable(source, 0, Cost(0, 0))
    ensures ok ==> copy == source
  {
    var budget := new PluginInstallBudget();
    copy, ok := CopyPluginTree(source, 0, budget);
  }

  lemma RecoveryStart(d: Disk, listing: seq<string>)
    ensures RecoveryState(d, listing, d) && listing[0..] == listing
  {
  }

  lemma RecoveryUnfold(d: Disk, listing: seq<string>)
    requires listing != []
    ensures RecoverAll(d, listing) == RecoverAll(RecoverOne(d, listing[0]), listing[1..])
    ensures RecoveryState(d, listing, d) && RecoveryState(d, listing, RecoverOne(d, listing[0]))
    ensures ActionFor(d, listing[0]).Delete? ==>
              forall d' :: PartlyDeleted(d, listing[0], d') ==> RecoveryState(d, listing, d')
    ensures forall d' :: RecoveryState(RecoverOne(d, listing[0]), listing[1..], d') ==> RecoveryState(d, listing, d')
  {
    assert RecoveryState(RecoverOne(d, listing[0]), listing[1..], RecoverOne(d, listing[0]));
  }

  lemma RestoreUndoes(d0: Disk, id: string, q: string)
    requires HasDir(d0, id) && q !in d0.entries
    ensures Moved(Moved(d0, id, q), q, id) == d0
  {
    assert Moved(Moved(d0, id, q), q, id).entries == d0.entries;
  }

  lemma QuarantineIsGone(d0: Disk, id: string, q: string, d: Disk)
    requires HasDir(d0, id) && q !in d0.entries && d == Unregistered(Moved(d0, id, q), id)
    ensures PartlyDeleted(Gone(d0, id), q, d) && Without(d, q) == Gone(d0, id)
    ensures forall d' :: PartlyDeleted(d, q, d') ==> PartlyDeleted(Gone(d0, id), q, d')
  {
    assert d == Placed(Gone(d0, id), q, Dir(d0.entries[id].children));
    assert Without(d, q).entries == Gone(d0, id).entries;
    forall d' | PartlyDeleted(d, q, d') ensures PartlyDeleted(Gone(d0, id), q, d') {
      var m :| d' == Placed(d, q, Dir(m));
      assert d' == Placed(Gone(d0, id), q, Dir(m));
    }
  }
}
