/** Rendering and reading the managed Reticulum configuration (src/interfaces.rs). */
module InterfaceConfig {
  import opened Common
  import opened Decimal
  import opened Seqs
  import opened Text
  import opened InterfaceProfiles

  const DEFAULT_INSTANCE_NAME: string := "omenbrowser_rs"
  const NAME_KEY: string := "instance_name"
  const IDENTITY_KEY: string := "network_identity"

  // ---------- Instance names ----------

  predicate IsNameChar(c: char)
  {
    'a' <= c <= 'z' || 'A' <= c <= 'Z' || '0' <= c <= '9' || c == '_' || c == '-'
  }

  predicate IsSafeName(s: string) { s != [] && forall i :: 0 <= i < |s| ==> IsNameChar(s[i]) }

  function SafeName(value: string): (r: string)
    ensures IsSafeName(r)
  {
    var kept := Filter(Trim(value), IsNameChar);
    KeptIsSafe(Trim(value));
    DefaultIsSafe();
    if kept == [] then DEFAULT_INSTANCE_NAME else kept
  }

  lemma KeptIsSafe(s: string)
    ensures var kept := Filter(s, IsNameChar); kept != [] ==> IsSafeName(kept)
  {
    hide IsNameChar, Filter;
    var kept := Filter(s, IsNameChar);
    FilterSound(s, IsNameChar);
    assert forall i :: 0 <= i < |kept| ==> kept[i] in kept;
  }

  lemma DefaultIsSafe()
    ensures IsSafeName(DEFAULT_INSTANCE_NAME)
  {
  }

  lemma SafeNameIsFixed(s: string)
    requires IsSafeName(s)
    ensures SafeName(s) == s
  {
    assert IsNameChar(s[0]) && IsNameChar(s[|s| - 1]);
    TrimSame(s);
    FilterKeepsAll(s, IsNameChar);
  }

  // ---------- Reading ----------

  predicate IsSection(line: string)
  {
    var t := Trim(line); t != [] && t[0] == '[' && t[|t| - 1] == ']'
  }

  predicate OpensReticulum(line: string) { Trim(line) == "[reticulum]" }

  /** The nonempty value a line assigns to `key`. */
  function Assigned(line: string, key: string): Option<string>
  {
    match SplitOnce(Trim(line), '=')
    case None => None
    case Some((k, v)) => if Trim(k) == key && Trim(v) != [] then Some(Trim(v)) else None
  }

  /** The first value assigned to `key` inside a `[reticulum]` section. */
  function ReadLines(ls: seq<string>, inside: bool, key: string): Option<string>
    decreases |ls|
  {
    if ls == [] then None
    else if IsSection(ls[0]) then ReadLines(ls[1..], OpensReticulum(ls[0]), key)
    else if inside && Assigned(ls[0], key).Some? then Assigned(ls[0], key)
    else ReadLines(ls[1..], inside, key)
  }

  function ReadValue(config: string, key: string): Option<string>
  {
    ReadLines(Lines(config), false, key)
  }

  method ReadReticulumValue(config: string, key: string) returns (r: Option<string>)
    ensures r == ReadValue(config, key)
  {
    hide IsSection, OpensReticulum, Assigned, Lines;
    var lines := Lines(config);
    var inside := false;
    for n := 0 to |lines|
      invariant ReadLines(lines[n..], inside, key) == ReadValue(config, key)
    {
      ghost var rest := lines[n..];
      assert rest[0] == lines[n] && rest[1..] == lines[n + 1..];
      if IsSection(lines[n]) {
        inside := OpensReticulum(lines[n]);
        continue;
      }
      if inside {
        var value := Assigned(lines[n], key);
        if value.Some? {
          return value;
        }
      }
    }
    return None;
  }

  // ---------- Rendering ----------

  /** The managed header up to the end of its `[reticulum]` section. */
  function Head(name: string): seq<string>
  {
    Preamble() + ["[reticulum]"] + Reticulum(name)
  }

  function Preamble(): seq<string>
  {
    ["# OMENbrowser_rs " + "managed " + "Reticulum " + "configuration",
     "# Generated by the " + "OMENbrowser_rs " + "Interfaces " + "panel.",
     ""]
  }

  function Reticulum(name: string): seq<string>
  {
    ["share_instance" + " = " + "Yes", NAME_KEY + " = " + name, "enable_transport" + " = " + "No", ""]
  }

  function Foot(): seq<string>
  {
    ["[logging]"] + ["loglevel" + " = " + "4", ""] + ["[interfaces]"]
  }

  function Header(name: string): string { JoinLines(Head(name) + Foot()) }

  datatype Setting = Setting(key: string, value: string)

  function YesNo(b: bool): string { if b then "Yes" else "No" }

  function TrueFalse(b: bool): string { if b then "true" else "false" }

  function ShowInt(n: int): string { if n < 0 then "-" + Show(-n) else Show(n) }

  function OrElse(s: string, default: string): string { if s == [] then default else s }

  function Optional(key: string, value: string): seq<Setting>
  {
    if value == [] then [] else [Setting(key, value)]
  }

  function JoinComma(items: seq<string>): string
  {
    if items == [] then "" else if |items| == 1 then items[0] else items[0] + ", " + JoinComma(items[1..])
  }

  function TypeName(kind: InterfaceKind): string
  {
    match kind
    case Auto => "AutoInterface"
    case TcpClient => "TCPClientInterface"
    case TcpServer => "TCPServerInterface"
    case I2p => "I2PInterface"
    case RNode => "RNodeInterface"
    case Unknown(name) => name
  }

  function KindSettings(p: Profile): seq<Setting>
  {
    match p.kind
    case Auto => []
    case TcpClient =>
      [Setting("target_host", OrElse(p.targetHost, "127.0.0.1")), Setting("target_port", Show(p.targetPort))]
      + Optional("network_name", p.networkName) + Optional("passphrase", p.passphrase)
    case TcpServer =>
      [Setting("listen_ip", OrElse(p.targetHost, "0.0.0.0")), Setting("listen_port", Show(p.targetPort))]
      + Optional("network_name", p.networkName) + Optional("passphrase", p.passphrase)
    case I2p =>
      [Setting("connectable", YesNo(p.connectable)), Setting("peers", JoinComma(p.peers))]
    case RNode =>
      [Setting("port", p.devicePort), Setting("frequency", Show(p.frequency)),
       Setting("bandwidth", Show(p.bandwidth)), Setting("txpower", ShowInt(p.txPower)),
       Setting("spreadingfactor", Show(p.spreadingFactor)), Setting("codingrate", Show(p.codingRate))]
    case Unknown(_) => []
  }

  function Settings(p: Profile): seq<Setting>
  {
    [Setting("type", TypeName(p.kind)), Setting("enabled", YesNo(p.enabled)),
     Setting("interface_enabled", TrueFalse(p.enabled))] + KindSettings(p)
  }

  function SectionLine(name: string): string { "  " + ("[[" + name + "]]") }

  function SettingLine(s: Setting): string { "    " + (s.key + " = " + s.value) }

  function SettingLines(ss: seq<Setting>): (ls: seq<string>)
    ensures |ls| == |ss|
  {
    seq(|ss|, i requires 0 <= i < |ss| => SettingLine(ss[i]))
  }

  function ProfileLines(p: Profile, section: string): seq<string>
  {
    [SectionLine(section)] + SettingLines(Settings(p)) + [""]
  }

  function BodyLines(ps: seq<Profile>, used: seq<string>): seq<string>
    decreases |ps|
  {
    if ps == [] then []
    else
      var section := UniqueSectionName(ps[0], used);
      ProfileLines(ps[0], section) + BodyLines(ps[1..], used + [section])
  }

  function Rendered(ps: seq<Profile>, name: string): string
  {
    TrimEnd(JoinLines([Header(SafeName(name))] + BodyLines(ps, []))) + "\n"
  }

  method RenderConfigWithInstanceName(ps: seq<Profile>, name: string) returns (text: string)
    ensures text == Rendered(ps, name)
  {
    hide *;
    var lines := [Header(SafeName(name))];
    var used: seq<string> := [];
    assert ps[0..] == ps;
    for n := 0 to |ps|
      invariant lines + BodyLines(ps[n..], used) == [Header(SafeName(name))] + BodyLines(ps, [])
    {
      var section := FindSectionName(ps[n], used);
      BodyStep(ps, n, used);
      used := used + [section];
      lines := lines + ProfileLines(ps[n], section);
    }
    BodyDone(ps, used);
    assert lines == [Header(SafeName(name))] + BodyLines(ps, []);
    RenderedMeans(ps, name);
    return TrimEnd(JoinLines(lines)) + "\n";
  }

  lemma BodyStep(ps: seq<Profile>, n: nat, used: seq<string>)
    requires n < |ps|
    ensures BodyLines(ps[n..], used)
         == ProfileLines(ps[n], UniqueSectionName(ps[n], used))
            + BodyLines(ps[n + 1..], used + [UniqueSectionName(ps[n], used)])
  {
    hide ProfileLines, UniqueSectionName;
    assert ps[n..][1..] == ps[n + 1..];
  }

  lemma BodyDone(ps: seq<Profile>, used: seq<string>)
    ensures BodyLines(ps[|ps|..], used) == []
  {
  }

  lemma RenderedMeans(ps: seq<Profile>, name: string)
    ensures Rendered(ps, name) == TrimEnd(JoinLines([Header(SafeName(name))] + BodyLines(ps, []))) + "\n"
  {
  }

  // ---------- The preserved network identity ----------

  function IdentityLine(id: string): string { IDENTITY_KEY + " = " + id }

  predicate IsIdentityEntry(line: string) { IDENTITY_KEY <= Trim(line) }

  predicate NextInside(line: string, inside: bool)
  {
    if IsSection(line) then OpensReticulum(line) else inside
  }

  predicate NextInserted(line: string, inside: bool, inserted: bool)
  {
    inserted || (inside && (IsSection(line) || IsIdentityEntry(line)))
  }

  /** What one line becomes: itself, itself after the identity line, the identity line, or nothing. */
  function Emitted(line: string, inside: bool, inserted: bool, identityLine: string): seq<string>
  {
    if IsSection(line) then if inside && !inserted then [identityLine, line] else [line]
    else if inside && IsIdentityEntry(line) then if inserted then [] else [identityLine]
    else [line]
  }

  /** Puts the identity line at the end of the first `[reticulum]` section or over its first entry. */
  function Spliced(ls: seq<string>, inside: bool, inserted: bool, line: string): seq<string>
    decreases |ls|
  {
    if ls == [] then if inside && !inserted then [line] else []
    else
      Emitted(ls[0], inside, inserted, line)
      + Spliced(ls[1..], NextInside(ls[0], inside), NextInserted(ls[0], inside, inserted), line)
  }

  function WithIdentity(config: string, id: string): string
  {
    TrimEnd(JoinLines(Spliced(Lines(config), false, false, IdentityLine(id)))) + "\n"
  }

  lemma SectionIsNoEntry(line: string)
    requires IsSection(line)
    ensures !IsIdentityEntry(line)
  {
    hide Trim;
    assert IDENTITY_KEY[0] == 'n';
  }

  lemma SplicedStep(ls: seq<string>, n: nat, inside: bool, inserted: bool, line: string)
    requires n < |ls|
    ensures Spliced(ls[n..], inside, inserted, line)
         == Emitted(ls[n], inside, inserted, line)
            + Spliced(ls[n + 1..], NextInside(ls[n], inside), NextInserted(ls[n], inside, inserted), line)
  {
    hide Emitted, NextInside, NextInserted;
    assert ls[n..][1..] == ls[n + 1..];
  }

  /** One turn of the rewriting loop: what it pushes and the two flags it leaves. */
  method RewriteLine(line: string, wasInside: bool, wasInserted: bool, identityLine: string)
    returns (emitted: seq<string>, inside: bool, inserted: bool)
    ensures emitted == Emitted(line, wasInside, wasInserted, identityLine)
    ensures inside == NextInside(line, wasInside) && inserted == NextInserted(line, wasInside, wasInserted)
  {
    hide IsSection, OpensReticulum, IsIdentityEntry;
    emitted, inside, inserted := [], wasInside, wasInserted;
    if IsSection(line) {
      SectionIsNoEntry(line);
      if inside && !inserted {
        emitted := emitted + [identityLine];
        inserted := true;
      }
      inside := OpensReticulum(line);
    }
    if inside && IsIdentityEntry(line) {
      if !inserted {
        emitted := emitted + [identityLine];
        inserted := true;
      }
      return;
    }
    emitted := emitted + [line];
  }

  method RenderConfigWithNetworkIdentity(config: string, id: string) returns (text: string)
    ensures text == WithIdentity(config, id)
  {
    hide *;
    var identityLine := IdentityLine(id);
    var lines := Lines(config);
    var output: seq<string> := [];
    var inside, inserted := false, false;
    assert lines[0..] == lines;
    for n := 0 to |lines|
      invariant output + Spliced(lines[n..], inside, inserted, identityLine)
             == Spliced(lines, false, false, identityLine)
    {
      SplicedStep(lines, n, inside, inserted, identityLine);
      ghost var rest := Spliced(lines[n + 1..], NextInside(lines[n], inside),
                                NextInserted(lines[n], inside, inserted), identityLine);
      var emitted: seq<string>;
      emitted, inside, inserted := RewriteLine(lines[n], inside, inserted, identityLine);
      assert output + (emitted + rest) == (output + emitted) + rest;
      output := output + emitted;
    }
    SplicedEnd(lines, inside, inserted, identityLine);
    if inside && !inserted {
      output := output + [identityLine];
    }
    assert output == Spliced(lines, false, false, identityLine);
    WithIdentityMeans(config, id);
    return TrimEnd(JoinLines(output)) + "\n";
  }

  lemma SplicedEnd(ls: seq<string>, inside: bool, inserted: bool, line: string)
    ensures Spliced(ls[|ls|..], inside, inserted, line) == if inside && !inserted then [line] else []
  {
  }

  lemma WithIdentityMeans(config: string, id: string)
    ensures WithIdentity(config, id)
         == TrimEnd(JoinLines(Spliced(Lines(config), false, false, IdentityLine(id)))) + "\n"
  {
  }

  // ---------- What is written on apply ----------

  function NameFor(existing: Option<string>, newName: string): string
  {
    if existing.None? then newName
    else match ReadValue(existing.value, NAME_KEY) case Some(name) => name case None => newName
  }

  function IdentityIn(existing: Option<string>): Option<string>
  {
    if existing.None? then None else ReadValue(existing.value, IDENTITY_KEY)
  }

  function Applied(existing: Option<string>, ps: seq<Profile>, newName: string): string
  {
    var rendered := Rendered(ps, NameFor(existing, newName));
    match IdentityIn(existing)
    case None => rendered
    case Some(id) => WithIdentity(rendered, id)
  }

  method TryRenderConfigForApply(existing: Option<string>, ps: seq<Profile>, newName: string)
    returns (text: string)
    ensures text == Applied(existing, ps, newName)
  {
    hide Rendered, WithIdentity, ReadValue;
    var name := newName;
    if existing.Some? {
      var found := ReadReticulumValue(existing.value, NAME_KEY);
      if found.Some? {
        name := found.value;
      }
    }
    text := RenderConfigWithInstanceName(ps, name);
    if existing.None? {
      return;
    }
    var identity := ReadReticulumValue(existing.value, IDENTITY_KEY);
    if identity.Some? {
      text := RenderConfigWithNetworkIdentity(text, identity.value);
    }
  }
}
