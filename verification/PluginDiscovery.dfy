/** Which plugins discovery registers, and under which directory (src/plugins.rs). */
module PluginDiscovery {
  import opened Common
  import opened FileTree
  import opened Ordering
  import opened PluginNames
  import opened PluginTransactions
  import opened PluginSurvival
  import opened Seqs
  import opened StableSort
  import opened Utf8

  const MAX_INSTALLED: nat := 256

  /** A visible directory with a manifest file. */
  predicate IsCandidate(d: Disk, name: string)
  {
    HasDir(d, name) && !(name != "" && name[0] == '.') && "plugin.json" in d.entries[name].children
  }

  /** The id that a candidate's manifest claims, if any; `manifest` reads `plugin.json`. */
  function Claim(d: Disk, name: string, manifest: Tree -> Option<string>): (id: Option<string>)
    ensures id.Some? ==> IsCandidate(d, name) && IsSafeId(id.value)
  {
    if !IsCandidate(d, name) then None
    else
      var id := manifest(d.entries[name].children["plugin.json"]);
      if id.Some? && IsSafeId(id.value) then id else None
  }

  /** The first candidates within the scan limit, up to the limit on installed plugins. */
  function Candidates(d: Disk, listing: seq<string>): (names: seq<string>)
    ensures |names| <= MAX_INSTALLED
  {
    var all := Filter(Scanned(listing), (name: string) => IsCandidate(d, name));
    if |all| <= MAX_INSTALLED then all else all[..MAX_INSTALLED]
  }

  /** Paths in one directory are ordered by the bytes of their names. */
  predicate NameLeq(a: string, b: string) { LexLeq(Encode(a), Encode(b)) }

  /** What an unregistered id is registered as when the directory `name` claims it. */
  function Found(name: string): Entry { Entry(false, false, name, None) }

  /** Registers every claimed id that is neither built in nor registered, in the order of `names`. */
  function AutoRegister(d: Disk, names: seq<string>, manifest: Tree -> Option<string>, builtins: set<string>): Disk
    decreases names
  {
    if names == [] then d
    else
      var id := Claim(d, names[0], manifest);
      var d' := if id.None? || id.value in builtins || id.value in d.registry then d
                else Registered(d, id.value, Found(names[0]));
      AutoRegister(d', names[1..], manifest, builtins)
  }

  /** The registry part of `discover_with_builtins`, after recovery. */
  function Discover(d: Disk, listing: seq<string>, manifest: Tree -> Option<string>, builtins: set<string>): Disk
  {
    AutoRegister(d, Sort(Candidates(d, listing), NameLeq), manifest, builtins)
  }

  // ---------- What is registered ----------

  /** The first of `names` whose manifest claims `id`. */
  function FirstClaimant(d: Disk, names: seq<string>, manifest: Tree -> Option<string>, id: string): (r: Option<string>)
    ensures r.Some? ==> r.value in names && Claim(d, r.value, manifest) == Some(id)
    ensures r.None? ==> forall name :: name in names ==> Claim(d, name, manifest) != Some(id)
  {
    if names == [] then None
    else if Claim(d, names[0], manifest) == Some(id) then Some(names[0])
    else FirstClaimant(d, names[1..], manifest, id)
  }

  /** What the registry says of `id` afterwards: as before, or the first claimant of a new id. */
  ghost predicate RegistersId(
    d: Disk, names: seq<string>, manifest: Tree -> Option<string>, builtins: set<string>, d': Disk, id: string)
  {
    var first := FirstClaimant(d, names, manifest, id);
    if id in d.registry then id in d'.registry && d'.registry[id] == d.registry[id]
    else if id in builtins || first.None? then id !in d'.registry
    else id in d'.registry && d'.registry[id] == Found(first.value)
  }

  lemma {:induction false} AutoRegisterMeans(
    d: Disk, names: seq<string>, manifest: Tree -> Option<string>, builtins: set<string>)
    ensures var d' := AutoRegister(d, names, manifest, builtins);
            d'.entries == d.entries && forall id :: RegistersId(d, names, manifest, builtins, d', id)
    decreases names
  {
    hide Claim, RegistersId;
    var d' := AutoRegister(d, names, manifest, builtins);
    if names == [] {
      forall id ensures RegistersId(d, names, manifest, builtins, d', id) {
        NothingRegistered(d, manifest, builtins, id);
      }
    } else {
      var id := Claim(d, names[0], manifest);
      var d1 := if id.None? || id.value in builtins || id.value in d.registry then d
                else Registered(d, id.value, Found(names[0]));
      AutoRegisterMeans(d1, names[1..], manifest, builtins);
      forall x ensures RegistersId(d, names, manifest, builtins, d', x) {
        SameClaims(d, d1, names[1..], manifest, x);
        RegistersStep(d, d1, names, manifest, builtins, d', x);
      }
    }
  }

  lemma NothingRegistered(d: Disk, manifest: Tree -> Option<string>, builtins: set<string>, id: string)
    ensures RegistersId(d, [], manifest, builtins, d, id)
  {
  }

  lemma RegistersStep(
    d: Disk, d1: Disk, names: seq<string>, manifest: Tree -> Option<string>, builtins: set<string>, d': Disk, x: string)
    requires names != [] && RegistersId(d1, names[1..], manifest, builtins, d', x)
    requires FirstClaimant(d1, names[1..], manifest, x) == FirstClaimant(d, names[1..], manifest, x)
    requires var id := Claim(d, names[0], manifest);
             d1 == if id.None? || id.value in builtins || id.value in d.registry then d
                   else Registered(d, id.value, Found(names[0]))
    ensures RegistersId(d, names, manifest, builtins, d', x)
  {
    hide Claim, FirstClaimant;
    FirstClaimantStep(d, names, manifest, x);
  }

  lemma FirstClaimantStep(d: Disk, names: seq<string>, manifest: Tree -> Option<string>, id: string)
    requires names != []
    ensures FirstClaimant(d, names, manifest, id)
         == if Claim(d, names[0], manifest) == Some(id) then Some(names[0])
            else FirstClaimant(d, names[1..], manifest, id)
  {
    hide Claim;
  }

  lemma {:induction false} SameClaims(
    d: Disk, d': Disk, names: seq<string>, manifest: Tree -> Option<string>, id: string)
    requires d.entries == d'.entries
    ensures FirstClaimant(d', names, manifest, id) == FirstClaimant(d, names, manifest, id)
  {
    if names != [] {
      SameClaims(d, d', names[1..], manifest, id);
    }
  }

  /** Two visiting orders give the same registry exactly if every new id has the same first claimant in both. */
  lemma SameRegistryIff(
    d: Disk, names: seq<string>, names': seq<string>, manifest: Tree -> Option<string>, builtins: set<string>)
    ensures AutoRegister(d, names, manifest, builtins) == AutoRegister(d, names', manifest, builtins)
       <==> forall id :: id !in d.registry && id !in builtins ==>
              FirstClaimant(d, names, manifest, id) == FirstClaimant(d, names', manifest, id)
  {
    hide FirstClaimant, AutoRegister;
    var r, r' := AutoRegister(d, names, manifest, builtins), AutoRegister(d, names', manifest, builtins);
    AutoRegisterMeans(d, names, manifest, builtins);
    AutoRegisterMeans(d, names', manifest, builtins);
    if r == r' {
      forall id | id !in d.registry && id !in builtins
        ensures FirstClaimant(d, names, manifest, id) == FirstClaimant(d, names', manifest, id)
      {
        assert RegistersId(d, names, manifest, builtins, r, id) && RegistersId(d, names', manifest, builtins, r', id);
        assert id in r.registry ==> r.registry[id].path == r'.registry[id].path;
      }
    }
    if forall id :: id !in d.registry && id !in builtins ==>
         FirstClaimant(d, names, manifest, id) == FirstClaimant(d, names', manifest, id) {
      forall id ensures id in r.registry <==> id in r'.registry
                ensures id in r.registry ==> r.registry[id] == r'.registry[id] {
        assert RegistersId(d, names, manifest, builtins, r, id) && RegistersId(d, names', manifest, builtins, r', id);
      }
      assert r.registry == r'.registry;
    }
  }

  // ---------- The order of the directory ----------

  lemma NameLeqIsTotal()
    ensures TotalPreorder(NameLeq)
  {
    hide LexLeq, Encode;
    forall a, b ensures NameLeq(a, b) || NameLeq(b, a) {
      LexTotal(Encode(a), Encode(b));
    }
    forall a, b, c | NameLeq(a, b) && NameLeq(b, c) ensures NameLeq(a, c) {
      LexTransitive(Encode(a), Encode(b), Encode(c));
    }
  }

  lemma NameLeqSeparates(a: string, b: string)
    requires NameLeq(a, b) && NameLeq(b, a)
    ensures a == b
  {
    LexAntisymmetric(Encode(a), Encode(b));
    EncodeInjective(a, b);
  }

  /** In a sorted visit the first claimant is the least one. */
  lemma {:induction false} FirstIsLeast(
    d: Disk, names: seq<string>, manifest: Tree -> Option<string>, id: string, name: string)
    requires Sorted(names, NameLeq) && name in names && Claim(d, name, manifest) == Some(id)
    ensures var first := FirstClaimant(d, names, manifest, id); first.Some? && NameLeq(first.value, name)
    decreases |names|
  {
    hide Claim, NameLeq;
    if Claim(d, names[0], manifest) == Some(id) {
      if name == names[0] {
        Reflexive(name);
      } else {
        var i :| 0 < i < |names| && names[i] == name;
        assert NameLeq(names[0], names[i]);
      }
    } else {
      FirstIsLeast(d, names[1..], manifest, id, name);
    }
  }

  lemma Reflexive(name: string)
    ensures NameLeq(name, name)
  {
    LexTotal(Encode(name), Encode(name));
  }

  /** So a sorted visit registers by the set of names it visits. */
  lemma SortedVisitsAgree(
    d: Disk, names: seq<string>, names': seq<string>, manifest: Tree -> Option<string>, builtins: set<string>)
    requires Sorted(names, NameLeq) && Sorted(names', NameLeq) && forall name :: name in names <==> name in names'
    ensures AutoRegister(d, names, manifest, builtins) == AutoRegister(d, names', manifest, builtins)
  {
    hide Claim, NameLeq, AutoRegister, FirstClaimant, Sorted;
    forall id ensures FirstClaimant(d, names, manifest, id) == FirstClaimant(d, names', manifest, id) {
      var first, first' := FirstClaimant(d, names, manifest, id), FirstClaimant(d, names', manifest, id);
      if first.Some? {
        FirstIsLeast(d, names', manifest, id, first.value);
        FirstIsLeast(d, names, manifest, id, first'.value);
        NameLeqSeparates(first.value, first'.value);
      }
    }
    SameRegistryIff(d, names, names', manifest, builtins);
  }

  lemma SortedNames(names: seq<string>)
    ensures Sorted(Sort(names, NameLeq), NameLeq)
    ensures forall name :: name in Sort(names, NameLeq) <==> name in names
  {
    hide NameLeq, Sort, Sorted, TotalPreorder;
    NameLeqIsTotal();
    SortSorted(names, NameLeq);
    SortMultiset(names, NameLeq);
    forall name ensures name in Sort(names, NameLeq) <==> name in names {
      assert name in multiset(Sort(names, NameLeq)) <==> name in multiset(names);
    }
  }

  /** Because discovery sorts, listings with the same candidates give the same registry. */
  lemma DiscoveryUsesCandidateSet(
    d: Disk, listing: seq<string>, listing': seq<string>, manifest: Tree -> Option<string>, builtins: set<string>)
    requires forall name :: name in Candidates(d, listing) <==> name in Candidates(d, listing')
    ensures Discover(d, listing, manifest, builtins) == Discover(d, listing', manifest, builtins)
  {
    hide Candidates, NameLeq, Sort, AutoRegister;
    SortedNames(Candidates(d, listing));
    SortedNames(Candidates(d, listing'));
    var names, names' := Sort(Candidates(d, listing), NameLeq), Sort(Candidates(d, listing'), NameLeq);
    SortedVisitsAgree(d, names, names', manifest, builtins);
  }

  function CandidateNames(d: Disk): set<string> { set name | name in d.entries && IsCandidate(d, name) }

  lemma AllCandidates(d: Disk, listing: seq<string>)
    requires Enumerates(listing, d) && |d.entries.Keys| <= MAX_SCAN_ENTRIES && |CandidateNames(d)| <= MAX_INSTALLED
    ensures forall name :: name in Candidates(d, listing) <==> name in CandidateNames(d)
  {
    hide IsCandidate;
    var p := (name: string) => IsCandidate(d, name);
    var all := Filter(listing, p);
    EnumerationSize(listing, d.entries.Keys);
    FilterSound(listing, p);
    DistinctFilter(listing, p);
    forall name | name in all ensures name in CandidateNames(d) {
    }
    EnumerationSize(all, CandidateNames(d));
  }

  lemma {:induction false} DistinctFilter(s: seq<string>, p: string -> bool)
    requires Distinct(s)
    ensures Distinct(Filter(s, p))
  {
    if s != [] {
      DistinctFilter(s[1..], p);
      FilterSound(s[1..], p);
      assert s[0] !in s[1..];
    }
  }

  /** Within the two limits, the order in which the file system lists the directory makes no difference. */
  lemma DiscoveryIgnoresListingOrder(
    d: Disk, listing: seq<string>, listing': seq<string>, manifest: Tree -> Option<string>, builtins: set<string>)
    requires Enumerates(listing, d) && Enumerates(listing', d)
    requires |d.entries.Keys| <= MAX_SCAN_ENTRIES && |CandidateNames(d)| <= MAX_INSTALLED
    ensures Discover(d, listing, manifest, builtins) == Discover(d, listing', manifest, builtins)
  {
    hide Candidates, Discover, CandidateNames, Enumerates;
    AllCandidates(d, listing);
    AllCandidates(d, listing');
    DiscoveryUsesCandidateSet(d, listing, listing', manifest, builtins);
  }

  /** Discovery brings a removed plugin back only if another visited directory's manifest claims its id. */
  lemma DiscoveryRespectsRemoval(
    d0: Disk, id: string, listing: seq<string>, manifest: Tree -> Option<string>, builtins: set<string>)
    ensures var names := Candidates(Gone(d0, id), listing);
            var d := Discover(Gone(d0, id), listing, manifest, builtins);
            && id !in d.entries
            && (id in d.registry <==>
                  && id !in builtins
                  && exists name :: name in names && name != id && Claim(d0, name, manifest) == Some(id))
  {
    hide IsSafeId, Candidates, Sort, NameLeq, AutoRegister, FirstClaimant;
    var names := Candidates(Gone(d0, id), listing);
    SortedNames(names);
    AutoRegisterMeans(Gone(d0, id), Sort(names, NameLeq), manifest, builtins);
    assert forall name :: name != id ==> Claim(Gone(d0, id), name, manifest) == Claim(d0, name, manifest);
    assert Claim(Gone(d0, id), id, manifest) == None;
    var d := Discover(Gone(d0, id), listing, manifest, builtins);
    assert RegistersId(Gone(d0, id), Sort(names, NameLeq), manifest, builtins, d, id);
  }

  // ---------- What is recorded ----------

  /** A candidate is a visible directory that holds a manifest file; no transaction directory is one. */
  lemma CandidateIff(d: Disk, name: string)
    ensures IsCandidate(d, name) <==>
            && name in d.entries && d.entries[name].Dir?
            && "plugin.json" in d.entries[name].children
            && (|name| == 0 || name[0] != '.')
    ensures IsCandidate(d, name) ==> !IsTransactionName(name)
  {
    hide IsSafeId;
    assert INSTALL_PREFIX[0] == '.' && REMOVE_PREFIX[0] == '.';
  }

  /** A candidate claims exactly the id its manifest gives, if that id is safe. */
  lemma ClaimIff(d: Disk, name: string, manifest: Tree -> Option<string>, id: string)
    ensures Claim(d, name, manifest) == Some(id) <==>
            && IsCandidate(d, name) && IsSafeId(id)
            && manifest(d.entries[name].children["plugin.json"]) == Some(id)
  {
    hide IsSafeId;
  }

  /**
   * A plugin that discovery registers is neither enabled nor trusted, has no source, and records the
   * candidate that claims its id whose name is first by its bytes.
   */
  lemma NewRegistrationIs(
    d: Disk, listing: seq<string>, manifest: Tree -> Option<string>, builtins: set<string>, id: string)
    requires id !in d.registry && id in Discover(d, listing, manifest, builtins).registry
    ensures var e := Discover(d, listing, manifest, builtins).registry[id];
            && !e.enabled && !e.trusted && e.source == None && id !in builtins
            && e.path in Candidates(d, listing) && Claim(d, e.path, manifest) == Some(id)
            && (forall name :: name in Candidates(d, listing) && Claim(d, name, manifest) == Some(id) ==>
                  LexLeq(Encode(e.path), Encode(name)))
  {
    hide Claim, Candidates, Sort, AutoRegister, FirstClaimant, Sorted, LexLeq, Encode;
    var names := Sort(Candidates(d, listing), NameLeq);
    SortedNames(Candidates(d, listing));
    AutoRegisterMeans(d, names, manifest, builtins);
    var d' := Discover(d, listing, manifest, builtins);
    assert RegistersId(d, names, manifest, builtins, d', id);
    forall name | name in Candidates(d, listing) && Claim(d, name, manifest) == Some(id)
      ensures LexLeq(Encode(d'.registry[id].path), Encode(name))
    {
      FirstIsLeast(d, names, manifest, id, name);
    }
  }

  /** The candidates visited are the first 256 of the first 4096 names listed, in the order of the listing. */
  lemma CandidatesAre(d: Disk, listing: seq<string>)
    ensures var scanned := if |listing| <= 4096 then listing else listing[..4096];
            var all := Filter(scanned, (name: string) => IsCandidate(d, name));
            Candidates(d, listing) == if |all| <= 256 then all else all[..256]
  {
    hide IsCandidate, Filter;
  }
}
