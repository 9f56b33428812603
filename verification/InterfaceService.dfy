/** The interface profile list and the managed configuration file (src/interfaces.rs). */
module InterfaceService {
  import opened Common
  import opened Utf8
  import opened InterfaceProfiles
  import opened InterfaceConfig
  import opened InterfaceFixedPoint

  const MAX_CONFIG_BYTES: nat := 1024 * 1024

  datatype Error = Rejected | WriteFailed | Unreadable

  datatype Preset = Preset(id: string, name: string, host: string, port: nat)

  datatype Outcome = Created(profile: Profile) | Enabled(profile: Profile) | AlreadyEnabled(profile: Profile)

  function DefaultName(kind: InterfaceKind): string
  {
    match kind
    case Auto => "Auto Interface"
    case TcpClient => "TCP Gateway"
    case TcpServer => "TCP Server"
    case I2p => "I2P"
    case RNode => "RNode"
    case Unknown(_) => "Unknown Interface"
  }

  function ProfileFor(ps: seq<Profile>, base: string, kind: InterfaceKind): Profile
  {
    NewProfile(UniqueProfileId(ps, base), DefaultName(kind), kind)
  }

  function GatewayProfile(ps: seq<Profile>, base: string, preset: Preset): Profile
  {
    NewProfile(UniqueProfileId(ps, base), preset.name, TcpClient)
      .(targetHost := preset.host, targetPort := preset.port)
  }

  /** The position of a profile by id, or the length of the list. */
  function Position(ps: seq<Profile>, id: string): (at: nat)
    ensures at <= |ps| && (at < |ps| ==> ps[at].id == id)
    ensures forall i :: 0 <= i < at ==> ps[i].id != id
  {
    if ps == [] || ps[0].id == id then 0 else 1 + Position(ps[1..], id)
  }

  predicate Serves(p: Profile, preset: Preset)
  {
    p.kind.TcpClient? && p.targetHost == preset.host && p.targetPort == preset.port
  }

  /** The position of the first client profile with the gateway's host and port, or the length of the list. */
  function ServingPosition(ps: seq<Profile>, preset: Preset): (at: nat)
    ensures at <= |ps|
    ensures at < |ps| ==>
              ps[at].kind == TcpClient && ps[at].targetHost == preset.host && ps[at].targetPort == preset.port
    ensures forall i :: 0 <= i < at ==>
              !(ps[i].kind == TcpClient && ps[i].targetHost == preset.host && ps[i].targetPort == preset.port)
  {
    if ps == [] || Serves(ps[0], preset) then 0 else 1 + ServingPosition(ps[1..], preset)
  }

  function Without(ps: seq<Profile>, id: string): (r: seq<Profile>)
    ensures |r| <= |ps|
  {
    if ps == [] then []
    else if ps[0].id != id then [ps[0]] + Without(ps[1..], id)
    else Without(ps[1..], id)
  }

  function FlipEnabled(p: Profile): Profile { p.(enabled := !p.enabled) }

  /** Only an I2P profile can be connectable. */
  function FlipConnectable(p: Profile): Profile { if p.kind.I2p? then p.(connectable := !p.connectable) else p }

  /** `after` is `before` with the profile `id` edited to `p`. */
  ghost predicate Edited(before: seq<Profile>, after: seq<Profile>, id: string, edit: Profile -> Profile, p: Profile)
  {
    var at := Position(before, id);
    at < |before| && p == edit(before[at]) && after == before[at := p]
  }

  // ---------- Which edits keep a list valid ----------

  /** A profile created with an unused id can only be refused for its size, its text or the item limit. */
  lemma CreatedIsValid(ps: seq<Profile>, p: Profile)
    requires ValidProfiles(ps) && forall i :: 0 <= i < |ps| ==> ps[i].id != p.id
    ensures ValidProfiles([p] + ps) <==> |ps| < MAX_PROFILES && ValidProfile(p)
    ensures UniqueIds([p] + ps)
  {
    hide ValidProfile;
    var all := [p] + ps;
    if ValidProfiles(all) {
      assert ValidProfile(all[0]);
    }
    forall i, j | 0 <= i < j < |all| ensures all[i].id != all[j].id {
      if i > 0 { assert ps[i - 1].id != ps[j - 1].id; }
    }
  }

  /** Replacing a profile by one with the same id keeps the list valid exactly if the new one is. */
  lemma ReplacedIsValid(ps: seq<Profile>, at: nat, p: Profile)
    requires ValidProfiles(ps) && at < |ps| && ps[at].id == p.id
    ensures ValidProfiles(ps[at := p]) <==> ValidProfile(p)
  {
    hide ValidProfile;
    var all := ps[at := p];
    if ValidProfiles(all) {
      assert ValidProfile(all[at]);
    }
  }

  lemma RemovedIsValid(ps: seq<Profile>, at: nat)
    requires ValidProfiles(ps) && at < |ps|
    ensures ValidProfiles(ps[..at] + ps[at + 1..])
  {
    hide ValidProfile;
    var rest := ps[..at] + ps[at + 1..];
    assert forall i :: 0 <= i < |rest| ==> rest[i] == ps[if i < at then i else i + 1];
  }

  /** With unique ids, deleting removes one profile or none, and says which. */
  lemma {:induction false} WithoutRemovesOne(ps: seq<Profile>, id: string)
    requires UniqueIds(ps)
    ensures var at := Position(ps, id); Without(ps, id) == if at < |ps| then ps[..at] + ps[at + 1..] else ps
    decreases |ps|
  {
    if ps != [] {
      WithoutRemovesOne(ps[1..], id);
      var at := Position(ps, id);
      if ps[0].id == id {
        assert Position(ps[1..], id) == |ps| - 1;
      } else if at < |ps| {
        assert ps[..at] + ps[at + 1..] == [ps[0]] + (ps[1..][..at - 1] + ps[1..][at..]);
      }
    }
  }

  // ---------- The configuration file ----------

  /** No file, or one of bounded size in UTF-8. */
  predicate IsReadable(file: Option<Bytes>)
  {
    file.Some? ==> |file.value| <= MAX_CONFIG_BYTES && Decode(file.value).Some?
  }

  function TextOf(file: Option<Bytes>): Option<string>
    requires IsReadable(file)
  {
    if file.None? then None else Decode(file.value)
  }

  class InterfaceConfigService {
    var profiles: seq<Profile>
    /** The list in the profiles file. */
    var stored: seq<Profile>
    /** The bytes of the Reticulum configuration file. */
    var config: Option<Bytes>

    /** Between calls the list in memory is the list on disk, and it is valid. */
    ghost predicate Valid()
      reads this
    {
      profiles == stored && ValidProfiles(profiles)
    }

    constructor (loaded: seq<Profile>, file: Option<Bytes>)
      ensures profiles == stored == loaded && config == file
    {
      profiles := loaded;
      stored := loaded;
      config := file;
    }

    /** Validates the list in memory and replaces the file; `writes` says whether the write succeeds. */
    method Persist(writes: bool) returns (r: Result<(), Error>)
      modifies this`stored
      ensures r.Ok? <==> ValidProfiles(profiles) && writes
      ensures stored == if r.Ok? then profiles else old(stored)
    {
      hide ValidProfile;
      var valid := ValidateProfiles(profiles);
      if !valid {
        return Err(Rejected);
      }
      if !writes {
        return Err(WriteFailed);
      }
      stored := profiles;
      return Ok(());
    }

    method Create(kind: InterfaceKind, base: string, writes: bool) returns (r: Result<Profile, Error>)
      requires Valid()
      modifies this`profiles, this`stored
      ensures Valid()
      ensures r.Ok? <==> |old(profiles)| < MAX_PROFILES && writes
                         && ValidProfile(ProfileFor(old(profiles), base, kind))
      ensures r.Ok? ==> r.value == ProfileFor(old(profiles), base, kind) && profiles == [r.value] + old(profiles)
      ensures r.Err? ==> profiles == old(profiles)
    {
      hide ValidProfile, UniqueProfileId;
      var previous := profiles;
      var id := FindProfileId(profiles, base);
      var profile := NewProfile(id, DefaultName(kind), kind);
      CreatedIsValid(profiles, profile);
      profiles := [profile] + profiles;
      var saved := Persist(writes);
      if saved.Err? {
        profiles := previous;
        return Err(saved.error);
      }
      return Ok(profile);
    }

    method Update(profile: Profile, writes: bool) returns (r: Result<bool, Error>)
      requires Valid()
      modifies this`profiles, this`stored
      ensures Valid()
      ensures var at := Position(old(profiles), profile.id); r == Ok(false) <==> at == |old(profiles)|
      ensures var at := Position(old(profiles), profile.id); r == Ok(true) ==> profiles == old(profiles)[at := profile]
      ensures r == Ok(true) <==>
        Position(old(profiles), profile.id) < |old(profiles)| && ValidProfile(profile) && writes
      ensures r != Ok(true) ==> profiles == old(profiles)
    {
      hide ValidProfile;
      var at := Position(profiles, profile.id);
      if at == |profiles| {
        return Ok(false);
      }
      if !ValidProfile(profile) {
        return Err(Rejected);
      }
      var previous := profiles;
      ReplacedIsValid(profiles, at, profile);
      profiles := profiles[at := profile];
      var saved := Persist(writes);
      if saved.Err? {
        profiles := previous;
        return Err(saved.error);
      }
      return Ok(true);
    }

    method ToggleEnabled(id: string, writes: bool) returns (r: Result<Option<Profile>, Error>)
      requires Valid()
      modifies this`profiles, this`stored
      ensures Valid()
      ensures r == Ok(None) <==> Position(old(profiles), id) == |old(profiles)|
      ensures r.Err? <==> Position(old(profiles), id) < |old(profiles)| && !writes
      ensures r.Ok? && r.value.Some? ==> Edited(old(profiles), profiles, id, FlipEnabled, r.value.value)
      ensures !(r.Ok? && r.value.Some?) ==> profiles == old(profiles)
    {
      var previous := profiles;
      var at := Position(profiles, id);
      if at == |profiles| {
        return Ok(None);
      }
      var profile := profiles[at].(enabled := !profiles[at].enabled);
      assert ValidProfile(profiles[at]);
      ReplacedIsValid(profiles, at, profile);
      profiles := profiles[at := profile];
      r := KeepOrRestore(previous, profile, writes);
    }

    method ToggleConnectable(id: string, writes: bool) returns (r: Result<Option<Profile>, Error>)
      requires Valid()
      modifies this`profiles, this`stored
      ensures Valid()
      ensures r == Ok(None) <==> Position(old(profiles), id) == |old(profiles)|
      ensures r.Err? <==> Position(old(profiles), id) < |old(profiles)| && !writes
      ensures r.Ok? && r.value.Some? ==> Edited(old(profiles), profiles, id, FlipConnectable, r.value.value)
      ensures !(r.Ok? && r.value.Some?) ==> profiles == old(profiles)
    {
      var previous := profiles;
      var at := Position(profiles, id);
      if at == |profiles| {
        return Ok(None);
      }
      var profile := profiles[at];
      if profile.kind == I2p {
        profile := profile.(connectable := !profile.connectable);
      }
      assert ValidProfile(profiles[at]);
      ReplacedIsValid(profiles, at, profile);
      profiles := profiles[at := profile];
      r := KeepOrRestore(previous, profile, writes);
    }

    /** Persists an edited list, or puts the previous one back. */
    method KeepOrRestore(previous: seq<Profile>, profile: Profile, writes: bool)
      returns (r: Result<Option<Profile>, Error>)
      requires stored == previous && ValidProfiles(previous) && ValidProfiles(profiles)
      modifies this`profiles, this`stored
      ensures Valid() && (r.Ok? <==> writes) && (r.Ok? ==> r.value == Some(profile))
      ensures profiles == if r.Ok? then old(profiles) else previous
    {
      hide ValidProfiles;
      var saved := Persist(writes);
      if saved.Err? {
        profiles := previous;
        return Err(saved.error);
      }
      return Ok(Some(profile));
    }

    method Delete(id: string, writes: bool) returns (r: Result<bool, Error>)
      requires Valid()
      modifies this`profiles, this`stored
      ensures Valid()
      ensures r.Err? <==> Position(old(profiles), id) < |old(profiles)| && !writes
      ensures r.Ok? ==> r.value == (Position(old(profiles), id) < |old(profiles)|)
      ensures r == Ok(true) ==>
        var at := Position(old(profiles), id); profiles == old(profiles)[..at] + old(profiles)[at + 1..]
      ensures r != Ok(true) ==> profiles == old(profiles)
    {
      hide ValidProfile;
      var previous := profiles;
      WithoutRemovesOne(profiles, id);
      if Position(profiles, id) < |profiles| {
        RemovedIsValid(profiles, Position(profiles, id));
      }
      profiles := Without(profiles, id);
      var changed := |profiles| != |previous|;
      if changed {
        var saved := Persist(writes);
        if saved.Err? {
          profiles := previous;
          return Err(saved.error);
        }
      }
      return Ok(changed);
    }

    /** Enables the profile of a known gateway or creates one; `presets` is the gateway file as read. */
    method CreateGatewayProfile(presets: Result<seq<Preset>, Error>, gatewayId: string, base: string, writes: bool)
      returns (r: Result<Option<Outcome>, Error>)
      requires Valid()
      modifies this`profiles, this`stored
      ensures Valid()
      ensures presets.Err? ==> r == Err(presets.error)
      ensures presets.Ok? && PresetPosition(presets.value, gatewayId) == |presets.value| ==> r == Ok(None)
      ensures presets.Ok? && PresetPosition(presets.value, gatewayId) < |presets.value| ==>
        GatewayResult(old(profiles), profiles, presets.value[PresetPosition(presets.value, gatewayId)], base, writes, r)
      ensures !(r.Ok? && r.value.Some? && !r.value.value.AlreadyEnabled?) ==> profiles == old(profiles)
    {
      hide ValidProfile, UniqueProfileId;
      if presets.Err? {
        return Err(presets.error);
      }
      var found := PresetPosition(presets.value, gatewayId);
      if found == |presets.value| {
        return Ok(None);
      }
      var preset := presets.value[found];
      var previous := profiles;
      var at := ServingPosition(profiles, preset);
      if at < |profiles| {
        if profiles[at].enabled {
          return Ok(Some(AlreadyEnabled(profiles[at])));
        }
        var profile := profiles[at].(enabled := true);
        EnabledIsValid(profiles[at]);
        ReplacedIsValid(profiles, at, profile);
        profiles := profiles[at := profile];
        var saved := KeepOrRestore(previous, profile, writes);
        if saved.Err? {
          return Err(saved.error);
        }
        return Ok(Some(Enabled(profile)));
      }
      var id := FindProfileId(profiles, base);
      var profile := NewProfile(id, preset.name, TcpClient).(targetHost := preset.host, targetPort := preset.port);
      CreatedIsValid(profiles, profile);
      profiles := [profile] + profiles;
      var saved := Persist(writes);
      if saved.Err? {
        profiles := previous;
        return Err(saved.error);
      }
      return Ok(Some(Created(profile)));
    }

    /** The configuration file holds what apply wrote for the current profiles. */
    ghost predicate IsApplied()
      reads this
    {
      config.Some? && |config.value| <= MAX_CONFIG_BYTES &&
      exists existing, newName :: config.value == Encode(Applied(existing, profiles, newName))
    }

    function Readable(): bool
      reads this`config
    {
      IsReadable(config)
    }

    /** The text of the configuration file, if there is one. */
    function Existing(): Option<string>
      reads this`config
      requires Readable()
    {
      TextOf(config)
    }

    method Apply(newName: string, writes: bool) returns (r: Result<(), Error>)
      requires Valid()
      modifies this`config
      ensures r.Ok? <==> old(Readable()) && writes &&
                         |Encode(Applied(old(Existing()), profiles, newName))| <= MAX_CONFIG_BYTES
      ensures r.Ok? ==> IsApplied() && config == Some(Encode(Applied(old(Existing()), profiles, newName)))
      ensures r.Err? ==> config == old(config)
      ensures old(IsApplied()) ==> config == old(config) && (r.Ok? <==> writes)
    {
      hide Encode, Decode, Applied, ValidProfile;
      if IsApplied() {
        AppliedAgain(newName);
      }
      if !Readable() {
        return Err(Unreadable);
      }
      var text := TryRenderConfigForApply(Existing(), profiles, newName);
      if |Encode(text)| > MAX_CONFIG_BYTES {
        return Err(Rejected);
      }
      if !writes {
        return Err(WriteFailed);
      }
      config := Some(Encode(text));
      return Ok(());
    }

    /** A file written by apply is read back whole, and applying again would write the same bytes. */
    lemma AppliedAgain(newName: string)
      requires Valid() && IsApplied()
      ensures Readable() && Encode(Applied(Existing(), profiles, newName)) == config.value
    {
      hide Encode, Decode, Applied, ValidProfile, ProfileLacks;
      var existing, first :| config.value == Encode(Applied(existing, profiles, first));
      DecodeEncode(Applied(existing, profiles, first));
      ValidLacksBreaks(profiles, '\n');
      ApplyIsFixedPoint(existing, profiles, first, newName);
    }
  }

  function DefaultProfile(base: string): Profile { NewProfile(base, "Default Interface", Auto) }

  /** The profiles a service starts with. */
  function Initial(loaded: seq<Profile>, base: string): seq<Profile>
  {
    if loaded == [] then [DefaultProfile(base)] else loaded
  }

  /**
   * Opens the service on a profiles file (`[]` if there is none) and a configuration file; `presets`
   * says whether the gateway presets could be read or written.
   */
  method Open(loaded: seq<Profile>, file: Option<Bytes>, base: string, newName: string,
              presets: bool, persists: bool, applies: bool)
    returns (r: Result<InterfaceConfigService, Error>)
    ensures r.Ok? <==>
            && presets
            && ValidProfiles(loaded) && ValidProfiles(Initial(loaded, base)) && (loaded == [] ==> persists)
            && IsReadable(file) && applies
            && |Encode(Applied(TextOf(file), Initial(loaded, base), newName))| <= MAX_CONFIG_BYTES
    ensures r.Ok? ==> fresh(r.value) && r.value.Valid() && r.value.IsApplied()
    ensures r.Ok? ==> r.value.profiles == Initial(loaded, base)
    ensures r.Ok? && loaded != [] ==> r.value.profiles == loaded
    ensures r.Ok? && loaded == [] ==>
              && |r.value.profiles| == 1 && r.value.profiles[0].kind == Auto && r.value.profiles[0].enabled
              && r.value.profiles[0].id == base && r.value.profiles[0].name == "Default Interface"
  {
    hide ValidProfile, Encode, Decode, Applied;
    if !presets {
      return Err(Unreadable);
    }
    var valid := ValidateProfiles(loaded);
    if !valid {
      return Err(Unreadable);
    }
    var service := new InterfaceConfigService(loaded, file);
    if loaded == [] {
      service.profiles := [DefaultProfile(base)];
      var saved := service.Persist(persists);
      if saved.Err? {
        return Err(saved.error);
      }
    }
    var applied := service.Apply(newName, applies);
    if applied.Err? {
      return Err(applied.error);
    }
    return Ok(service);
  }

  lemma EnabledIsValid(p: Profile)
    requires ValidProfile(p)
    ensures ValidProfile(p.(enabled := true))
  {
    hide ValidScalar;
  }

  function PresetPosition(presets: seq<Preset>, id: string): (at: nat)
    ensures at <= |presets| && (at < |presets| ==> presets[at].id == id)
    ensures forall i :: 0 <= i < at ==> presets[i].id != id
  {
    if presets == [] || presets[0].id == id then 0 else 1 + PresetPosition(presets[1..], id)
  }

  /** How a known gateway leaves the list, by whether a profile serves it and whether that one is enabled. */
  ghost predicate GatewayResult(before: seq<Profile>, after: seq<Profile>, preset: Preset, base: string,
                                writes: bool, r: Result<Option<Outcome>, Error>)
  {
    var at := ServingPosition(before, preset);
    if at < |before| && before[at].enabled then
      r == Ok(Some(AlreadyEnabled(before[at]))) && after == before
    else if at < |before| then
      var profile := before[at].(enabled := true);
      if writes then r == Ok(Some(Enabled(profile))) && after == before[at := profile] else r.Err?
    else
      var profile := GatewayProfile(before, base, preset);
      if writes && |before| < MAX_PROFILES && ValidProfile(profile)
      then r == Ok(Some(Created(profile))) && after == [profile] + before
      else r.Err?
  }
}
