/**
 * Which entries of the plugins directory a whole recovery keeps (src/plugins.rs), for plugins
 * whose own ids may read as transaction names.
 */
module PluginSurvival {
  import opened Common
  import opened FileTree
  import opened PluginNames
  import opened PluginTransactions

  // ---------- Whole recoveries ----------

  lemma {:induction false} RecoverConcat(d: Disk, a: seq<string>, b: seq<string>)
    ensures RecoverAll(d, a + b) == RecoverAll(RecoverAll(d, a), b)
    decreases a
  {
    hide RecoverOne;
    if a == [] {
      assert a + b == b;
    } else {
      assert (a + b)[0] == a[0] && (a + b)[1..] == a[1..] + b;
      RecoverConcat(RecoverOne(d, a[0]), a[1..], b);
    }
  }

  lemma {:induction false} RegistryIsKept(d: Disk, listing: seq<string>)
    ensures RecoverAll(d, listing).registry == d.registry
    decreases listing
  {
    hide ActionFor;
    if listing != [] {
      RegistryIsKept(RecoverOne(d, listing[0]), listing[1..]);
    }
  }

  /** Only looking at an entry can remove it, and nothing is ever put in its place. */
  lemma {:induction false} UnlistedStays(d: Disk, listing: seq<string>, name: string)
    requires name in d.entries && name !in listing
    ensures name in RecoverAll(d, listing).entries && RecoverAll(d, listing).entries[name] == d.entries[name]
    decreases listing
  {
    hide IdOf;
    if listing != [] {
      UnlistedStays(RecoverOne(d, listing[0]), listing[1..], name);
    }
  }

  /** A name that is gone comes back only as a registered id, from one of its quarantines. */
  lemma {:induction false} AbsentStays(d: Disk, listing: seq<string>, name: string)
    requires name !in d.entries
    requires name !in d.registry || forall q :: q in listing ==> IdOf(q, REMOVE_PREFIX) != Some(name)
    ensures name !in RecoverAll(d, listing).entries
    decreases listing
  {
    hide IdOf;
    if listing != [] {
      assert listing[0] in listing && forall q :: q in listing[1..] ==> q in listing;
      AbsentStays(RecoverOne(d, listing[0]), listing[1..], name);
    }
  }

  // ---------- Plain names ----------

  /** No recovery, of any listing, touches an entry whose name is not a transaction name. */
  lemma {:induction false} OrdinaryEntrySurvives(d: Disk, listing: seq<string>, name: string)
    requires name in d.entries && !IsTransactionName(name)
    ensures name in RecoverAll(d, listing).entries && RecoverAll(d, listing).entries[name] == d.entries[name]
    decreases listing
  {
    hide IdOf;
    if listing != [] {
      OrdinaryEntrySurvives(RecoverOne(d, listing[0]), listing[1..], name);
    }
  }

  /** So a plugin whose id does not start with a dot keeps its tree and its registration. */
  lemma PlainPluginSurvives(d: Disk, listing: seq<string>, id: string)
    requires id in d.entries && IsSafeId(id) && id[0] != '.'
    ensures var d' := RecoverAll(d, Scanned(listing));
            && id in d'.entries && d'.entries[id] == d.entries[id]
            && d'.registry == d.registry
  {
    hide IdOf, IsSafeId, RecoverAll;
    PlainIdsAreNotTransactions(id);
    OrdinaryEntrySurvives(d, Scanned(listing), id);
    RegistryIsKept(d, Scanned(listing));
  }

  // ---------- Names that read as transactions ----------

  /** The id that a quarantine name stands for. */
  function TargetOf(name: string): (id: string)
    requires IsQuarantineName(name)
    ensures |id| < |name|
  {
    IdIsShorter(name, REMOVE_PREFIX);
    IdOf(name, REMOVE_PREFIX).value
  }

  /**
   * An entry that recovery can never remove: one whose name is not a transaction name, one that is
   * no directory, or a quarantine of a registered id whose own entry can never be removed.
   */
  ghost predicate Secure(d: Disk, name: string)
    decreases |name|
  {
    && name in d.entries
    && (HasDir(d, name) && IsTransactionName(name) ==>
          && !IsStagingName(name)
          && TargetOf(name) in d.registry && Secure(d, TargetOf(name)))
  }

  lemma {:induction false} SecureStep(d: Disk, x: string, name: string)
    requires Secure(d, name)
    ensures Secure(RecoverOne(d, x), name) && RecoverOne(d, x).entries[name] == d.entries[name]
    decreases |name|
  {
    hide IdOf;
    if HasDir(d, name) && IsTransactionName(name) {
      IdIsShorter(name, REMOVE_PREFIX);
      SecureStep(d, x, IdOf(name, REMOVE_PREFIX).value);
    }
  }

  /** A secure entry keeps its tree through the recovery of every listing. */
  lemma {:induction false} SecureSurvives(d: Disk, listing: seq<string>, name: string)
    requires Secure(d, name)
    ensures name in RecoverAll(d, listing).entries && RecoverAll(d, listing).entries[name] == d.entries[name]
    decreases listing
  {
    hide Secure, RecoverOne;
    if listing != [] {
      SecureStep(d, listing[0], name);
      SecureSurvives(RecoverOne(d, listing[0]), listing[1..], name);
    } else {
      SecureIsPresent(d, name);
    }
  }

  lemma SecureIsPresent(d: Disk, name: string)
    requires Secure(d, name)
    ensures name in d.entries
  {
  }

  predicate Distinct(s: seq<string>) { forall i, j :: 0 <= i < j < |s| ==> s[i] != s[j] }

  /** Looking at the entry now would remove it. */
  predicate Falls(d: Disk, name: string) { HasDir(d, name) && ActionFor(d, name) != Ignore }

  lemma FallenIsGone(d: Disk, name: string)
    requires Falls(d, name)
    ensures name !in RecoverOne(d, name).entries
  {
    hide IdOf;
    if ActionFor(d, name).Restore? {
      IdIsShorter(name, REMOVE_PREFIX);
    }
  }

  /** An entry that is not secure is removed by looking at the names it depends on, shortest first. */
  lemma {:induction false} Undermine(d: Disk, name: string) returns (order: seq<string>)
    requires name in d.entries && !Secure(d, name)
    ensures name !in RecoverAll(d, order).entries && Distinct(order)
    ensures forall x :: x in order ==> x in d.entries && |x| <= |name|
    decreases |name|
  {
    hide IdOf;
    if Falls(d, name) {
      order := [name];
      FallenIsGone(d, name);
      assert RecoverAll(d, order) == RecoverOne(d, name) by { RecoverSingle(d, name); }
    } else {
      var t := IdOf(name, REMOVE_PREFIX).value;
      IdIsShorter(name, REMOVE_PREFIX);
      var below := Undermine(d, t);
      order := below + [name];
      RemovedLast(d, below, name, t);
    }
  }

  lemma RecoverSingle(d: Disk, name: string)
    ensures RecoverAll(d, [name]) == RecoverOne(d, name)
  {
    assert [name][1..] == [];
  }

  lemma RemovedLast(d: Disk, below: seq<string>, name: string, t: string)
    requires HasDir(d, name) && name !in below && !IsStagingName(name)
    requires IdOf(name, REMOVE_PREFIX) == Some(t) && t in d.registry && t !in RecoverAll(d, below).entries
    ensures name !in RecoverAll(d, below + [name]).entries
  {
    hide IdOf, RecoverAll, RecoverOne;
    var d' := RecoverAll(d, below);
    UnlistedStays(d, below, name);
    RegistryIsKept(d, below);
    RecoverConcat(d, below, [name]);
    RecoverSingle(d', name);
    FallenIsGone(d', name);
  }

  // ---------- Every order of the directory ----------

  /** `listing` shows every entry once. */
  ghost predicate Enumerates(listing: seq<string>, d: Disk)
  {
    Distinct(listing) && forall name :: name in listing <==> name in d.entries
  }

  lemma {:induction false} Arrange(names: set<string>) returns (s: seq<string>)
    ensures Distinct(s) && forall x :: x in s <==> x in names
    decreases names
  {
    if names == {} {
      s := [];
    } else {
      var x :| x in names;
      var rest := Arrange(names - {x});
      s := [x] + rest;
    }
  }

  lemma {:induction false} EnumerationSize(listing: seq<string>, names: set<string>)
    requires Distinct(listing) && forall x :: x in listing ==> x in names
    ensures |listing| <= |names|
    decreases |listing|
  {
    if listing != [] {
      assert forall x :: x in listing[1..] ==> x in listing;
      EnumerationSize(listing[1..], names - {listing[0]});
    }
  }

  function QuarantinesOf(d: Disk, id: string): set<string>
  {
    set q | q in d.entries && IdOf(q, REMOVE_PREFIX) == Some(id)
  }

  /** While `name` is there and registered, its quarantines are left alone. */
  lemma {:induction false} QuarantinesWait(d: Disk, qs: seq<string>, name: string)
    requires name in d.entries && name in d.registry
    requires forall q :: q in qs ==> IdOf(q, REMOVE_PREFIX) == Some(name)
    ensures RecoverAll(d, qs) == d
    decreases qs
  {
    hide IdOf;
    if qs != [] {
      assert qs[0] in qs && forall q :: q in qs[1..] ==> q in qs;
      PrefixesAreDisjoint(qs[0]);
      QuarantinesWait(d, qs[1..], name);
    }
  }

  /** Some order of the directory removes an entry that is not secure, for good. */
  lemma RemovingOrder(d: Disk, name: string) returns (listing: seq<string>)
    requires name in d.entries && !Secure(d, name)
    ensures Enumerates(listing, d) && name !in RecoverAll(d, listing).entries
  {
    hide IdOf, RecoverAll, Secure;
    var order := Undermine(d, name);
    var qs := [];
    if name in d.registry {
      qs := Arrange(QuarantinesOf(d, name));
      QuarantinesWait(d, qs, name);
    } else {
      RecoverNothing(d);
    }
    QuarantinesAreLonger(d, qs, order, name);
    var first := qs + order;
    var rest := Arrange(d.entries.Keys - (set x | x in first));
    listing := first + rest;
    DistinctConcat(qs, order);
    DistinctConcat(first, rest);
    RecoverConcat(d, qs, order);
    RecoverConcat(d, first, rest);
    RegistryIsKept(d, first);
    AbsentStays(RecoverAll(d, first), rest, name);
  }

  lemma DistinctConcat(a: seq<string>, b: seq<string>)
    requires Distinct(a) && Distinct(b) && forall x :: x in a ==> x !in b
    ensures Distinct(a + b)
  {
    var s := a + b;
    forall i, j | 0 <= i < j < |s| ensures s[i] != s[j] {
      assert i < |a| <= j ==> s[i] in a && s[j] in b;
    }
  }

  lemma RecoverNothing(d: Disk)
    ensures RecoverAll(d, []) == d
  {
  }

  lemma QuarantinesAreLonger(d: Disk, qs: seq<string>, order: seq<string>, name: string)
    requires forall q :: q in qs ==> IdOf(q, REMOVE_PREFIX) == Some(name)
    requires forall x :: x in order ==> |x| <= |name|
    ensures forall q :: q in qs ==> q !in order
  {
    hide IdOf;
    forall q | q in qs ensures q !in order {
      IdIsShorter(q, REMOVE_PREFIX);
    }
  }

  /**
   * Exactly which entries every order of the directory keeps: the secure ones.  A registered plugin
   * whose id reads as an installation, or as a removal of an id that is not registered or is itself
   * not secure, is lost under some order.
   */
  lemma SurvivesEveryOrderIff(d: Disk, name: string)
    requires name in d.entries && |d.entries.Keys| <= MAX_SCAN_ENTRIES
    ensures (forall listing :: Enumerates(listing, d) ==> name in RecoverAll(d, Scanned(listing)).entries)
       <==> Secure(d, name)
  {
    hide IdOf, RecoverAll, Secure;
    if Secure(d, name) {
      forall listing | Enumerates(listing, d) ensures name in RecoverAll(d, Scanned(listing)).entries {
        SecureSurvives(d, Scanned(listing), name);
      }
    } else {
      var listing := RemovingOrder(d, name);
      EnumerationSize(listing, d.entries.Keys);
      assert Scanned(listing) == listing;
    }
  }

  // ---------- A lost plugin ----------

  lemma {:induction false} NothingComesBack(d: Disk, listing: seq<string>)
    requires d.entries == map[]
    ensures RecoverAll(d, listing) == d
    decreases listing
  {
    hide IdOf;
    if listing != [] {
      NothingComesBack(d, listing[1..]);
    }
  }

  lemma {:induction false} OnlyEntryFalls(d: Disk, listing: seq<string>, id: string)
    requires d.entries.Keys == {id} && ActionFor(d, id) == Delete && id in listing
    ensures RecoverAll(d, listing).entries == map[]
    decreases listing
  {
    hide IdOf;
    if listing[0] == id {
      assert Without(d, id).entries == map[];
      NothingComesBack(Without(d, id), listing[1..]);
    } else {
      assert RecoverOne(d, listing[0]) == d;
      OnlyEntryFalls(d, listing[1..], id);
    }
  }

  /** The id check alone does not protect a plugin: every recovery that sees this one deletes it. */
  lemma DottedPluginIsLost(t: map<string, Tree>, e: Entry, listing: seq<string>)
    requires ".plugin-remove-61.1.1.1" in Scanned(listing)
    ensures var id := ".plugin-remove-61.1.1.1";
            var d := Disk(map[id := Dir(t)], map[id := e]);
            var d' := RecoverAll(d, Scanned(listing));
            IsSafeId(id) && d'.entries == map[] && d'.registry == d.registry
  {
    hide IdOf, IsSafeId;
    DottedIdReadAsRemoval();
    var id := ".plugin-remove-61.1.1.1";
    var d := Disk(map[id := Dir(t)], map[id := e]);
    PrefixesAreDisjoint(id);
    assert "a" != id;
    assert ActionFor(d, id) == Delete;
    OnlyEntryFalls(d, Scanned(listing), id);
    RegistryIsKept(d, Scanned(listing));
  }
}
