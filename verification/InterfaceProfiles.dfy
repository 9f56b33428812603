/** Interface profiles, their validation and the searches for unused names (src/interfaces.rs). */
module InterfaceProfiles {
  import opened Common
  import opened Decimal
  import opened Text
  import opened Utf8

  const MAX_PROFILES: nat := 64
  const MAX_PEERS: nat := 64
  const MAX_FIELD_BYTES: nat := 16 * 1024
  const MAX_PASSPHRASE_BYTES: nat := 4096

  datatype InterfaceKind = Auto | TcpClient | TcpServer | I2p | RNode | Unknown(kind: string)

  datatype Profile = Profile(
    id: string,
    name: string,
    kind: InterfaceKind,
    enabled: bool,
    targetHost: string,
    targetPort: nat,
    networkName: string,
    passphrase: string,
    connectable: bool,
    peers: seq<string>,
    devicePort: string,
    frequency: nat,
    bandwidth: nat,
    txPower: int,
    spreadingFactor: nat,
    codingRate: nat)

  /** A new profile of the given kind, enabled and with the default settings of that kind. */
  function NewProfile(id: string, name: string, kind: InterfaceKind): Profile
  {
    Profile(id, name, kind, true, if kind.TcpServer? then "0.0.0.0" else "", 4242, "", "",
            kind.I2p?, [], "", 867_200_000, 125_000, 7, 8, 5)
  }

  // ---------- Validation ----------

  predicate NoBreaks(s: string) { '\n' !in s && '\r' !in s }

  predicate ValidScalar(s: string, maxBytes: nat)
  {
    |Encode(s)| <= maxBytes && NoBreaks(s) && '\0' !in s
  }

  predicate ValidField(s: string) { ValidScalar(s, MAX_FIELD_BYTES) }

  predicate ValidProfile(p: Profile)
  {
    |p.peers| <= MAX_PEERS &&
    ValidField(p.id) && ValidField(p.name) && ValidField(p.targetHost) &&
    ValidField(p.networkName) && ValidField(p.devicePort) &&
    (p.kind.Unknown? ==> ValidField(p.kind.kind)) &&
    (forall i :: 0 <= i < |p.peers| ==> ValidField(p.peers[i])) &&
    ValidScalar(p.passphrase, MAX_PASSPHRASE_BYTES)
  }

  predicate AllValid(ps: seq<Profile>) { forall i :: 0 <= i < |ps| ==> ValidProfile(ps[i]) }

  predicate UniqueIds(ps: seq<Profile>)
  {
    forall i, j :: 0 <= i < j < |ps| ==> ps[i].id != ps[j].id
  }

  predicate ValidProfiles(ps: seq<Profile>)
  {
    |ps| <= MAX_PROFILES && AllValid(ps) && UniqueIds(ps)
  }

  /** Validates in list order, remembering the ids already met. */
  method ValidateProfiles(ps: seq<Profile>) returns (ok: bool)
    ensures ok <==> ValidProfiles(ps)
  {
    hide ValidProfile;
    if |ps| > MAX_PROFILES {
      return false;
    }
    var ids: set<string> := {};
    for n := 0 to |ps|
      invariant AllValid(ps[..n]) && UniqueIds(ps[..n])
      invariant forall id :: id in ids <==> exists i :: 0 <= i < n && ps[i].id == id
    {
      if !ValidProfile(ps[n]) {
        return false;
      }
      if ps[n].id in ids {
        return false;
      }
      ids := ids + {ps[n].id};
    }
    assert ps[..|ps|] == ps;
    return true;
  }

  // ---------- Unused names ----------

  function Numbered(prefix: string, n: nat): string { prefix + Show(n) }

  lemma NumberedInjective(prefix: string, a: nat, b: nat)
    requires Numbered(prefix, a) == Numbered(prefix, b)
    ensures a == b
  {
    assert Show(a) == Numbered(prefix, a)[|prefix|..] == Show(b);
    ShowInjective(a, b);
  }

  /** All the numbers from `from` up to `k` are taken. */
  predicate AllTaken(prefix: string, used: seq<string>, from: nat, k: nat)
  {
    forall n :: from <= n < k ==> Numbered(prefix, n) in used
  }

  /** Taken names are distinct, so there are no more of them than entries in the list. */
  lemma {:induction false} Pigeonhole(prefix: string, used: seq<string>, from: nat, k: nat)
    requires from <= k && AllTaken(prefix, used, from, k)
    ensures k - from <= |used|
    decreases k
  {
    hide Numbered;
    if k > from {
      assert Numbered(prefix, k - 1) in used;
      var i :| 0 <= i < |used| && used[i] == Numbered(prefix, k - 1);
      var others := used[..i] + used[i + 1..];
      forall n | from <= n < k - 1 ensures Numbered(prefix, n) in others {
        if Numbered(prefix, n) == used[i] {
          NumberedInjective(prefix, n, k - 1);
        }
        assert Numbered(prefix, n) in used;
        InOthers(used, i, Numbered(prefix, n));
      }
      Pigeonhole(prefix, others, from, k - 1);
    }
  }

  lemma InOthers(used: seq<string>, i: nat, x: string)
    requires i < |used| && x in used && x != used[i]
    ensures x in used[..i] + used[i + 1..]
  {
    var j :| 0 <= j < |used| && used[j] == x;
    var others := used[..i] + used[i + 1..];
    assert others[if j < i then j else j - 1] == x;
  }

  /** The least number from `from` on whose name is unused: the search needs at most |used| + 1 tries. */
  function FirstFree(prefix: string, used: seq<string>, from: nat, k: nat): (r: nat)
    requires from <= k && AllTaken(prefix, used, from, k)
    ensures k <= r <= from + |used|
    ensures Numbered(prefix, r) !in used && AllTaken(prefix, used, from, r)
    decreases |used| + from + 1 - k
  {
    Pigeonhole(prefix, used, from, k);
    if Numbered(prefix, k) in used then
      FirstFreeContinues(prefix, used, from, k);
      FirstFree(prefix, used, from, k + 1)
    else k
  }

  lemma FirstFreeContinues(prefix: string, used: seq<string>, from: nat, k: nat)
    requires from <= k && AllTaken(prefix, used, from, k) && Numbered(prefix, k) in used
    ensures AllTaken(prefix, used, from, k + 1) && k + 1 - from <= |used|
  {
    Pigeonhole(prefix, used, from, k + 1);
  }

  method SearchSuffix(prefix: string, used: seq<string>, from: nat) returns (candidate: string, tries: nat)
    ensures candidate == Numbered(prefix, FirstFree(prefix, used, from, from))
    ensures candidate !in used && 1 <= tries <= |used| + 1
  {
    hide Numbered, FirstFree;
    var suffix := from;
    candidate, tries := Numbered(prefix, suffix), 1;
    while candidate in used
      invariant from <= suffix && candidate == Numbered(prefix, suffix)
      invariant AllTaken(prefix, used, from, suffix) && tries == suffix - from + 1
      decreases |used| + from + 1 - suffix
    {
      FirstFreeContinues(prefix, used, from, suffix);
      suffix := suffix + 1;
      candidate, tries := Numbered(prefix, suffix), tries + 1;
    }
    Pigeonhole(prefix, used, from, suffix);
    LeastIsUnique(prefix, used, from, suffix, FirstFree(prefix, used, from, from));
  }

  lemma LeastIsUnique(prefix: string, used: seq<string>, from: nat, a: nat, b: nat)
    requires from <= a && AllTaken(prefix, used, from, a) && Numbered(prefix, a) !in used
    requires from <= b && AllTaken(prefix, used, from, b) && Numbered(prefix, b) !in used
    ensures a == b
  {
  }

  function Base(p: Profile): string
  {
    if Trim(p.name) == [] then p.id else Trim(p.name)
  }

  /** The trimmed name, else name and id, else the name with the first unused number from 2 on. */
  function UniqueSectionName(p: Profile, used: seq<string>): (r: string)
    ensures r !in used
  {
    var base := Base(p);
    if base !in used then base
    else if base + " " + p.id !in used then base + " " + p.id
    else Numbered(base + " ", FirstFree(base + " ", used, 2, 2))
  }

  method FindSectionName(p: Profile, used: seq<string>) returns (r: string)
    ensures r == UniqueSectionName(p, used)
  {
    var base := if Trim(p.name) == [] then p.id else Trim(p.name);
    if base !in used {
      return base;
    }
    var candidate := base + " " + p.id;
    if candidate !in used {
      return candidate;
    }
    var tries;
    candidate, tries := SearchSuffix(base + " ", used, 2);
    return candidate;
  }

  function SectionNames(ps: seq<Profile>, used: seq<string>): (names: seq<string>)
    ensures |names| == |ps|
  {
    if ps == [] then []
    else [UniqueSectionName(ps[0], used)] + SectionNames(ps[1..], used + [UniqueSectionName(ps[0], used)])
  }

  predicate Distinct(names: seq<string>)
  {
    forall i, j :: 0 <= i < j < |names| ==> names[i] != names[j]
  }

  /** Whatever the names and ids of the profiles, no two sections share a name. */
  lemma {:induction false} SectionNamesDistinct(ps: seq<Profile>, used: seq<string>)
    ensures Distinct(SectionNames(ps, used))
    ensures forall i :: 0 <= i < |ps| ==> SectionNames(ps, used)[i] !in used
    decreases |ps|
  {
    hide UniqueSectionName;
    if ps != [] {
      var name := UniqueSectionName(ps[0], used);
      SectionNamesDistinct(ps[1..], used + [name]);
      assert name in used + [name];
    }
  }

  function Bases(ps: seq<Profile>): (r: seq<string>)
    ensures |r| == |ps|
  {
    if ps == [] then [] else [Base(ps[0])] + Bases(ps[1..])
  }

  /** Profiles whose own names differ are rendered under their own names. */
  lemma {:induction false} DistinctNamesAreKept(ps: seq<Profile>, used: seq<string>)
    requires Distinct(Bases(ps)) && forall i :: 0 <= i < |ps| ==> Bases(ps)[i] !in used
    ensures SectionNames(ps, used) == Bases(ps)
    decreases |ps|
  {
    hide Base;
    if ps != [] {
      var base, rest := Base(ps[0]), Bases(ps[1..]);
      assert Bases(ps)[0] == base && forall i :: 0 <= i < |rest| ==> Bases(ps)[i + 1] == rest[i];
      assert UniqueSectionName(ps[0], used) == base;
      DistinctNamesAreKept(ps[1..], used + [base]);
    }
  }

  function Ids(ps: seq<Profile>): (ids: seq<string>)
    ensures |ids| == |ps|
  {
    seq(|ps|, i requires 0 <= i < |ps| => ps[i].id)
  }

  /** The clock's id, or that id with the first unused number from 1 on. */
  function UniqueProfileId(ps: seq<Profile>, base: string): (r: string)
    ensures forall i :: 0 <= i < |ps| ==> ps[i].id != r
  {
    var used := Ids(ps);
    assert forall i :: 0 <= i < |ps| ==> used[i] == ps[i].id;
    if base !in used then base else Numbered(base + "_", FirstFree(base + "_", used, 1, 1))
  }

  method FindProfileId(ps: seq<Profile>, base: string) returns (r: string)
    ensures r == UniqueProfileId(ps, base)
  {
    if base !in Ids(ps) {
      return base;
    }
    var tries;
    r, tries := SearchSuffix(base + "_", Ids(ps), 1);
  }
}
