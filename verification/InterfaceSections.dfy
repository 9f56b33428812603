/**
 * Reading the profile sections of a rendered configuration back (src/interfaces.rs): a reader for
 * `[[name]]` sections, and what it finds of every profile.
 */
module InterfaceSections {
  import opened Common
  import opened Decimal
  import opened Text
  import opened InterfaceProfiles
  import opened InterfaceConfig
  import opened InterfaceHeader
  import opened InterfaceFixedPoint

  // ---------- The reader ----------

  /** The line opens a `[[name]]` section. */
  predicate Doubles(line: string) { "[[" <= Trim(line) }

  predicate OpensSection(line: string, section: string) { Trim(line) == "[[" + section + "]]" }

  /** The value that a line gives to `key`, without the white space around it. */
  function ValueOn(line: string, key: string): Option<string>
  {
    match SplitOnce(Trim(line), '=')
    case None => None
    case Some((k, v)) => if Trim(k) == key then Some(Trim(v)) else None
  }

  /** The first value of `key` between the line that opens the section and the next such line. */
  function ReadIn(ls: seq<string>, section: string, inside: bool, key: string): Option<string>
    decreases |ls|
  {
    if ls == [] then None
    else if Doubles(ls[0]) then
      if inside then None else ReadIn(ls[1..], section, OpensSection(ls[0], section), key)
    else if inside && ValueOn(ls[0], key).Some? then ValueOn(ls[0], key)
    else ReadIn(ls[1..], section, inside, key)
  }

  function ReadSection(text: string, section: string, key: string): Option<string>
  {
    ReadIn(Lines(text), section, false, key)
  }

  // ---------- Reading line by line ----------

  predicate NoneDoubles(ls: seq<string>) { forall i :: 0 <= i < |ls| ==> !Doubles(ls[i]) }

  lemma {:induction false} ReadPlain(a: seq<string>, b: seq<string>, section: string, inside: bool, key: string)
    requires NoneDoubles(a)
    ensures ReadIn(a + b, section, inside, key)
         == if inside && ReadIn(a, section, true, key).Some? then ReadIn(a, section, true, key)
            else ReadIn(b, section, inside, key)
    decreases |a|
  {
    hide Doubles, OpensSection, ValueOn;
    if a == [] {
      assert a + b == b;
    } else {
      assert !Doubles(a[0]) && (a + b)[0] == a[0] && (a + b)[1..] == a[1..] + b;
      ReadPlain(a[1..], b, section, inside, key);
    }
  }

  lemma ReadOpening(line: string, b: seq<string>, section: string, inside: bool, key: string)
    requires Doubles(line)
    ensures ReadIn([line] + b, section, inside, key)
         == if inside then None else ReadIn(b, section, OpensSection(line, section), key)
  {
    hide Doubles, OpensSection, ValueOn;
    assert ([line] + b)[1..] == b;
  }

  /** The reader sees only trimmed lines, so what is trimmed off the end of the text makes no difference. */
  lemma {:induction false} ReadLast(a: seq<string>, l: string, l': string, section: string, inside: bool, key: string)
    requires Trim(l) == Trim(l')
    ensures ReadIn(a + [l], section, inside, key) == ReadIn(a + [l'], section, inside, key)
    decreases |a|
  {
    hide Trim;
    if a == [] {
      assert a + [l] == [l] && a + [l'] == [l'] && [l][1..] == [l'][1..];
    } else {
      assert (a + [l])[1..] == a[1..] + [l] && (a + [l'])[1..] == a[1..] + [l'];
      ReadLast(a[1..], l, l', section, if Doubles(a[0]) then OpensSection(a[0], section) else inside, key);
    }
  }

  lemma {:induction false} ReadBlank(a: seq<string>, section: string, inside: bool, key: string)
    ensures ReadIn(a + [""], section, inside, key) == ReadIn(a, section, inside, key)
    decreases |a|
  {
    hide Doubles, OpensSection, ValueOn;
    if a == [] {
      assert a + [""] == [""] && [""][1..] == [];
      BlankIsPlain(key);
    } else {
      assert (a + [""])[0] == a[0] && (a + [""])[1..] == a[1..] + [""];
      ReadBlank(a[1..], section, if Doubles(a[0]) then OpensSection(a[0], section) else inside, key);
    }
  }

  lemma BlankIsPlain(key: string)
    ensures !Doubles("") && ValueOn("", key) == None
  {
    TrimSame("");
  }

  lemma {:induction false} ReadTrimmed(ls: seq<string>, section: string, key: string)
    ensures ReadIn(TrimLines(ls), section, false, key) == ReadIn(ls, section, false, key)
    decreases |ls|
  {
    hide ReadIn, Trim, TrimEnd;
    if ls != [] {
      var front, last := ls[..|ls| - 1], ls[|ls| - 1];
      assert ls == front + [last];
      TrimTrimEnd(last);
      ReadLast(front, last, TrimEnd(last), section, false, key);
      if TrimEnd(last) == [] {
        ReadBlank(front, section, false, key);
        ReadTrimmed(front, section, key);
      }
    }
  }

  // ---------- Settings ----------

  /** The first setting of that key. */
  function Lookup(ss: seq<Setting>, key: string): Option<string>
  {
    if ss == [] then None else if ss[0].key == key then Some(Trim(ss[0].value)) else Lookup(ss[1..], key)
  }

  lemma KeyHasNoEquals(s: Setting)
    requires Keyed(s)
    ensures '=' !in s.key && Visible(s.key) && s.key[0] != '['
  {
    assert IsKeyChar(s.key[0]) && IsKeyChar(s.key[|s.key| - 1]);
    KeyCharIsVisible(s.key[0]);
    KeyCharIsVisible(s.key[|s.key| - 1]);
  }

  lemma TrimmedSetting(s: Setting)
    requires Keyed(s)
    ensures Trim(SettingLine(s)) == s.key + " =" + TrimEnd(" " + s.value)
  {
    hide Trim, TrimEnd, IsSpace;
    KeyHasNoEquals(s);
    SpaceIsSpace();
    var inner := s.key + " = " + s.value;
    TrimIndented("    ", inner);
    assert inner == (s.key + " =") + (" " + s.value);
    EqualsIsVisible();
    TrimEndSame(s.key + " =");
    TrimEndConcat(s.key + " =", " " + s.value);
  }

  lemma EqualsIsVisible()
    ensures !IsSpace('=')
  {
  }

  /** A setting is read from its line with its own key, and from no other. */
  lemma SettingReads(s: Setting, key: string)
    requires Keyed(s)
    ensures !Doubles(SettingLine(s))
    ensures ValueOn(SettingLine(s), key) == if s.key == key then Some(Trim(s.value)) else None
  {
    hide Trim, TrimEnd, IsSpace, SplitOnce, SettingLine, Visible;
    KeyHasNoEquals(s);
    TrimmedSetting(s);
    var v := TrimEnd(" " + s.value);
    SplitOnceAppend(s.key + " ", '=', v);
    assert s.key + " " + ['='] + v == s.key + " =" + v;
    SpaceIsSpace();
    TrimPad(s.key, ' ');
    TrimVisible(s.key);
    TrimTrimEnd(" " + s.value);
    TrimLeading(s.value);
    assert Trim(SettingLine(s))[0] == s.key[0] && "[["[0] == '[';
  }

  lemma TrimVisible(s: string)
    requires Visible(s)
    ensures Trim(s) == s
  {
    TrimSame(s);
  }

  lemma TrimLeading(s: string)
    ensures Trim(" " + s) == Trim(s)
  {
    hide TrimStart, TrimEnd, IsSpace;
    SpaceIsSpace();
    TrimStartPad(' ', s);
  }

  lemma {:induction false} SettingsRead(ss: seq<Setting>, section: string, key: string)
    requires AllKeyed(ss)
    ensures NoneDoubles(SettingLines(ss))
    ensures ReadIn(SettingLines(ss), section, true, key) == Lookup(ss, key)
    decreases |ss|
  {
    hide SettingLine, Keyed, Doubles, ValueOn, Trim;
    if ss != [] {
      assert Keyed(ss[0]);
      SettingReads(ss[0], key);
      SettingsRead(ss[1..], section, key);
      assert SettingLines(ss)[1..] == SettingLines(ss[1..]);
      forall i | 0 <= i < |ss| ensures !Doubles(SettingLines(ss)[i]) {
        if i > 0 {
          assert SettingLines(ss)[i] == SettingLines(ss[1..])[i - 1];
        }
      }
    }
  }

  // ---------- Sections ----------

  lemma SectionOpens(name: string, section: string)
    ensures Doubles(SectionLine(name))
    ensures OpensSection(SectionLine(name), section) <==> name == section
  {
    hide TrimEnd, IsSpace, Trim;
    var inner := "[[" + name + "]]";
    BracketsAreVisible();
    SpaceIsSpace();
    assert inner[|inner| - 1] == ']';
    TrimIndented("  ", inner);
    TrimEndSame(inner);
    if inner == "[[" + section + "]]" {
      assert name == inner[2..|inner| - 2] == section;
    }
  }

  /** One profile's lines, followed by anything that starts a section or is nothing. */
  lemma ProfileReads(p: Profile, name: string, rest: seq<string>, section: string, key: string)
    requires rest == [] || Doubles(rest[0])
    ensures ReadIn(ProfileLines(p, name) + rest, section, false, key)
         == if name == section then Lookup(Settings(p), key) else ReadIn(rest, section, false, key)
  {
    hide ReadIn, Settings, SettingLines, SectionLine, Doubles, OpensSection, ValueOn;
    var settings := SettingLines(Settings(p));
    SettingsAreKeyed(p);
    SettingsRead(Settings(p), section, key);
    SectionOpens(name, section);
    BlankIsPlain(key);
    var lines := settings + [""];
    assert NoneDoubles(lines);
    ReadBlank(settings, section, true, key);
    ReadPlain(lines, rest, section, name == section, key);
    assert ProfileLines(p, name) + rest == [SectionLine(name)] + (lines + rest);
    ReadOpening(SectionLine(name), lines + rest, section, false, key);
    ReadNext(rest, section, key);
  }

  lemma ReadNext(rest: seq<string>, section: string, key: string)
    requires rest == [] || Doubles(rest[0])
    ensures ReadIn(rest, section, true, key) == None
  {
    hide Doubles;
  }

  lemma BodyStarts(ps: seq<Profile>, used: seq<string>)
    ensures var body := BodyLines(ps, used); body == [] || Doubles(body[0])
  {
    hide Doubles, UniqueSectionName, SectionLine, Settings;
    if ps != [] {
      SectionOpens(UniqueSectionName(ps[0], used), "");
    }
  }

  /** Under the i-th section name stand the settings of the i-th profile. */
  lemma {:induction false} BodyReads(ps: seq<Profile>, used: seq<string>, i: nat, key: string)
    requires i < |ps|
    ensures ReadIn(BodyLines(ps, used), SectionNames(ps, used)[i], false, key) == Lookup(Settings(ps[i]), key)
    decreases |ps|
  {
    hide ReadIn, Doubles, UniqueSectionName, ProfileLines, Settings;
    var name, section := UniqueSectionName(ps[0], used), SectionNames(ps, used)[i];
    var rest := BodyLines(ps[1..], used + [name]);
    BodyStarts(ps[1..], used + [name]);
    ProfileReads(ps[0], name, rest, section, key);
    if i > 0 {
      SectionNamesDistinct(ps, used);
      assert SectionNames(ps, used)[0] == name;
      BodyReads(ps[1..], used + [name], i - 1, key);
    }
  }

  // ---------- Whole texts ----------

  lemma VisibleIsPlain(line: string)
    requires Visible(line) && (line[0] != '[' || (|line| > 1 && line[1] != '['))
    ensures !Doubles(line)
  {
    hide Trim;
    TrimSame(line);
    assert "[["[0] == '[' && "[["[1] == '[';
  }

  lemma AssignmentIsPlain(key: string, value: string)
    requires Visible(key) && Visible(value) && key[0] != '['
    ensures !Doubles(key + " = " + value)
  {
    hide Doubles;
    var line := key + " = " + value;
    assert line[0] == key[0] && line[|line| - 1] == value[|value| - 1];
    VisibleIsPlain(line);
  }

  lemma WordsArePlain(a: string, b: string, c: string, d: string)
    requires a != [] && !IsSpace(a[0]) && a[0] != '[' && d != [] && !IsSpace(d[|d| - 1])
    ensures !Doubles(a + b + c + d)
  {
    hide Doubles;
    var line := a + b + c + d;
    assert line[0] == a[0] && line[|line| - 1] == d[|d| - 1];
    VisibleIsPlain(line);
  }

  lemma PreambleIsPlain()
    ensures NoneDoubles(Preamble())
  {
    hide Doubles;
    WordsArePlain("# OMENbrowser_rs ", "managed ", "Reticulum ", "configuration");
    WordsArePlain("# Generated by the ", "OMENbrowser_rs ", "Interfaces ", "panel.");
    BlankIsPlain("");
  }

  lemma ReticulumIsPlain(name: string)
    requires IsSafeName(name)
    ensures NoneDoubles(Reticulum(name))
  {
    hide Doubles, Visible, IsSafeName, NoBreaks;
    SafeNameIsVisible(name);
    ShareKey();
    NameKey();
    TransportKey();
    AssignmentIsPlain("share_instance", "Yes");
    AssignmentIsPlain(NAME_KEY, name);
    AssignmentIsPlain("enable_transport", "No");
    BlankIsPlain("");
  }

  lemma BracketsArePlain()
    ensures !Doubles("[reticulum]") && !Doubles("[logging]") && !Doubles("[interfaces]")
  {
    hide Doubles;
    var a, b, c := "[reticulum]", "[logging]", "[interfaces]";
    assert a[1] == 'r' && a[|a| - 1] == ']';
    assert b[1] == 'l' && b[|b| - 1] == ']';
    assert c[1] == 'i' && c[|c| - 1] == ']';
    VisibleIsPlain(a);
    VisibleIsPlain(b);
    VisibleIsPlain(c);
  }

  lemma HeaderIsPlain(name: string)
    requires IsSafeName(name)
    ensures NoneDoubles(Head(name)) && NoneDoubles(Foot())
  {
    hide Doubles, Visible, IsSafeName, Preamble, Reticulum, NoBreaks;
    PreambleIsPlain();
    ReticulumIsPlain(name);
    BracketsArePlain();
    LevelKey();
    AssignmentIsPlain("loglevel", "4");
    BlankIsPlain("");
  }

  lemma IdentityIsPlain(id: string)
    requires GoodIdentity(id)
    ensures !Doubles(IdentityLine(id))
  {
    hide Doubles, Visible;
    IdentityKey();
    AssignmentIsPlain(IDENTITY_KEY, id);
  }

  /**
   * Reading the text that is written, with or without a network identity, under the i-th section name
   * gives the settings of the i-th profile.
   */
  lemma RenderedSections(ps: seq<Profile>, name: string, i: nat, key: string)
    requires AllLack(ps, '\n') && AllLack(ps, '\r') && i < |ps|
    ensures ReadSection(Rendered(ps, name), SectionNames(ps, [])[i], key) == Lookup(Settings(ps[i]), key)
  {
    hide ReadIn, Lines, Rendered, Head, Foot, SafeName, IsSafeName, Ended, BodyLines, TrimLines, ProfileLacks, Settings,
         Doubles, SectionNames;
    var n, section := SafeName(name), SectionNames(ps, [])[i];
    RenderedLines(ps, name);
    TailReadsBack(ps);
    HeaderIsPlain(n);
    ReadPlain(Head(n), Foot() + Tail(ps), section, false, key);
    ReadPlain(Foot(), Tail(ps), section, false, key);
    assert Head(n) + Foot() + Tail(ps) == Head(n) + (Foot() + Tail(ps));
    ReadTrimmed(BodyLines(ps, []), section, key);
    BodyReads(ps, [], i, key);
  }

  lemma WithIdentitySections(ps: seq<Profile>, name: string, id: string, i: nat, key: string)
    requires AllLack(ps, '\n') && AllLack(ps, '\r') && GoodIdentity(id) && i < |ps|
    ensures ReadSection(WithIdentity(Rendered(ps, name), id), SectionNames(ps, [])[i], key)
         == Lookup(Settings(ps[i]), key)
  {
    hide ReadIn, Lines, Rendered, WithIdentity, Head, Foot, SafeName, IsSafeName, Ended, BodyLines, TrimLines,
         ProfileLacks, Settings, Doubles, SectionNames, GoodIdentity, IdentityLine, Spliced, Inert;
    var n, section, line := SafeName(name), SectionNames(ps, [])[i], IdentityLine(id);
    WithIdentityLines(ps, name, id);
    TailIsInert(ps);
    TailReadsBack(ps);
    InertSplices(Tail(ps), line);
    assert SplicedTail(ps, id) == Tail(ps);
    HeaderIsPlain(n);
    IdentityIsPlain(id);
    var rest := [line] + (Foot() + Tail(ps));
    assert Head(n) + [line] + Foot() + Tail(ps) == Head(n) + rest;
    ReadPlain(Head(n), rest, section, false, key);
    ReadPlain([line], Foot() + Tail(ps), section, false, key);
    ReadPlain(Foot(), Tail(ps), section, false, key);
    ReadTrimmed(BodyLines(ps, []), section, key);
    BodyReads(ps, [], i, key);
  }

  /** So does reading what apply writes for a list that passes validation. */
  lemma AppliedSections(existing: Option<string>, ps: seq<Profile>, newName: string, i: nat, key: string)
    requires AllValid(ps) && i < |ps|
    ensures ReadSection(Applied(existing, ps, newName), SectionNames(ps, [])[i], key) == Lookup(Settings(ps[i]), key)
  {
    hide ReadSection, Rendered, WithIdentity, ReadValue, ValidProfile, ProfileLacks, Settings, GoodIdentity, NameFor,
         SectionNames;
    ValidLacksBreaks(ps, '\n');
    ValidLacksBreaks(ps, '\r');
    var name := NameFor(existing, newName);
    if IdentityIn(existing).Some? {
      ReadIsGood(existing.value, IDENTITY_KEY);
      WithIdentitySections(ps, name, IdentityIn(existing).value, i, key);
    } else {
      RenderedSections(ps, name, i, key);
    }
  }

  // ---------- What the settings of a profile are ----------

  lemma {:induction false} LookupAt(ss: seq<Setting>, k: nat)
    requires k < |ss| && forall j :: 0 <= j < k ==> ss[j].key != ss[k].key
    ensures Lookup(ss, ss[k].key) == Some(Trim(ss[k].value))
  {
    hide Trim;
    if k > 0 {
      LookupAt(ss[1..], k - 1);
    }
  }

  lemma {:induction false} LookupNowhere(ss: seq<Setting>, key: string)
    requires forall j :: 0 <= j < |ss| ==> ss[j].key != key
    ensures Lookup(ss, key) == None
  {
    hide Trim;
    if ss != [] {
      LookupNowhere(ss[1..], key);
    }
  }

  lemma NumeralIsVisible(n: nat)
    ensures Trim(Show(n)) == Show(n)
  {
    hide Show, Trim;
    ShowDigits(n);
    var s := Show(n);
    assert IsDigit(s[0]) && IsDigit(s[|s| - 1]);
    TrimSame(s);
  }

  lemma SignedIsVisible(n: int)
    ensures Trim(ShowInt(n)) == if n < 0 then "-" + Show(-n) else Show(n)
  {
    hide Show, Trim;
    if n < 0 {
      ShowDigits(-n);
      var s := "-" + Show(-n);
      assert IsDigit(Show(-n)[|Show(-n)| - 1]) && s[|s| - 1] == Show(-n)[|Show(-n)| - 1];
      TrimSame(s);
    } else {
      NumeralIsVisible(n);
    }
  }

  lemma WordsAreVisible()
    ensures Trim("Yes") == "Yes" && Trim("No") == "No" && Trim("true") == "true" && Trim("false") == "false"
    ensures Trim("127.0.0.1") == "127.0.0.1" && Trim("0.0.0.0") == "0.0.0.0"
  {
    hide Trim;
    TrimSame("Yes");
    TrimSame("No");
    TrimSame("true");
    TrimSame("false");
    TrimSame("127.0.0.1");
    TrimSame("0.0.0.0");
  }

  lemma TypesAreVisible()
    ensures Trim("AutoInterface") == "AutoInterface" && Trim("TCPClientInterface") == "TCPClientInterface"
    ensures Trim("TCPServerInterface") == "TCPServerInterface" && Trim("I2PInterface") == "I2PInterface"
    ensures Trim("RNodeInterface") == "RNodeInterface"
  {
    hide Trim;
    TrimSame("AutoInterface");
    TrimSame("TCPClientInterface");
    TrimSame("TCPServerInterface");
    TrimSame("I2PInterface");
    TrimSame("RNodeInterface");
  }

  /** Every section names its type and says twice whether it is enabled. */
  lemma CommonSays(p: Profile)
    ensures Lookup(Settings(p), "type")
         == match p.kind
            case Auto => Some("AutoInterface")
            case TcpClient => Some("TCPClientInterface")
            case TcpServer => Some("TCPServerInterface")
            case I2p => Some("I2PInterface")
            case RNode => Some("RNodeInterface")
            case Unknown(kind) => Some(Trim(kind))
    ensures Lookup(Settings(p), "enabled") == Some(if p.enabled then "Yes" else "No")
    ensures Lookup(Settings(p), "interface_enabled") == Some(if p.enabled then "true" else "false")
  {
    hide Trim, KindSettings, Lookup;
    TypesAreVisible();
    WordsAreVisible();
    var ss := Settings(p);
    LookupAt(ss, 0);
    LookupAt(ss, 1);
    LookupAt(ss, 2);
  }

  /** A text is read back without the white space around it, and not at all if it is optional and empty. */
  function IfAny(s: string): Option<string> { if s == "" then None else Some(Trim(s)) }

  lemma ClientSays(p: Profile)
    requires p.kind.TcpClient?
    ensures Lookup(Settings(p), "target_host") == Some(if p.targetHost == "" then "127.0.0.1" else Trim(p.targetHost))
    ensures Lookup(Settings(p), "target_port") == Some(Show(p.targetPort))
    ensures Lookup(Settings(p), "network_name") == IfAny(p.networkName)
    ensures Lookup(Settings(p), "passphrase") == IfAny(p.passphrase)
  {
    hide Trim, Lookup, Show;
    WordsAreVisible();
    NumeralIsVisible(p.targetPort);
    var ss := Settings(p);
    LookupAt(ss, 3);
    LookupAt(ss, 4);
    OptionalSays(ss, p);
  }

  lemma ServerSays(p: Profile)
    requires p.kind.TcpServer?
    ensures Lookup(Settings(p), "listen_ip") == Some(if p.targetHost == "" then "0.0.0.0" else Trim(p.targetHost))
    ensures Lookup(Settings(p), "listen_port") == Some(Show(p.targetPort))
    ensures Lookup(Settings(p), "network_name") == IfAny(p.networkName)
    ensures Lookup(Settings(p), "passphrase") == IfAny(p.passphrase)
  {
    hide Trim, Lookup, Show;
    WordsAreVisible();
    NumeralIsVisible(p.targetPort);
    var ss := Settings(p);
    LookupAt(ss, 3);
    LookupAt(ss, 4);
    OptionalSays(ss, p);
  }

  lemma OptionalSays(ss: seq<Setting>, p: Profile)
    requires |ss| >= 5 && ss[5..] == Optional("network_name", p.networkName) + Optional("passphrase", p.passphrase)
    requires forall j :: 0 <= j < 5 ==> ss[j].key != "network_name" && ss[j].key != "passphrase"
    ensures Lookup(ss, "network_name") == IfAny(p.networkName)
    ensures Lookup(ss, "passphrase") == IfAny(p.passphrase)
  {
    hide Trim, Lookup;
    assert forall j :: 5 <= j < |ss| ==> ss[j] == ss[5..][j - 5];
    if p.networkName == "" {
      LookupNowhere(ss, "network_name");
    } else {
      LookupAt(ss, 5);
    }
    if p.passphrase == "" {
      LookupNowhere(ss, "passphrase");
    } else {
      LookupAt(ss, |ss| - 1);
    }
  }

  /** Peers are separated by a comma and a space. */
  lemma PeersAre(x: string, rest: seq<string>)
    ensures JoinComma([]) == "" && JoinComma([x]) == x
    ensures rest != [] ==> JoinComma([x] + rest) == x + ", " + JoinComma(rest)
  {
    assert ([x] + rest)[1..] == rest;
  }

  lemma TunnelSays(p: Profile)
    requires p.kind.I2p?
    ensures Lookup(Settings(p), "connectable") == Some(if p.connectable then "Yes" else "No")
    ensures Lookup(Settings(p), "peers") == Some(Trim(JoinComma(p.peers)))
  {
    hide Trim, Lookup, JoinComma;
    WordsAreVisible();
    var ss := Settings(p);
    LookupAt(ss, 3);
    LookupAt(ss, 4);
  }

  lemma RadioSays(p: Profile)
    requires p.kind.RNode?
    ensures Lookup(Settings(p), "port") == Some(Trim(p.devicePort))
    ensures Lookup(Settings(p), "frequency") == Some(Show(p.frequency))
    ensures Lookup(Settings(p), "bandwidth") == Some(Show(p.bandwidth))
    ensures Lookup(Settings(p), "txpower") == Some(if p.txPower < 0 then "-" + Show(-p.txPower) else Show(p.txPower))
    ensures Lookup(Settings(p), "spreadingfactor") == Some(Show(p.spreadingFactor))
    ensures Lookup(Settings(p), "codingrate") == Some(Show(p.codingRate))
  {
    hide Trim, Lookup, Show, ShowInt;
    NumeralIsVisible(p.frequency);
    NumeralIsVisible(p.bandwidth);
    SignedIsVisible(p.txPower);
    NumeralIsVisible(p.spreadingFactor);
    NumeralIsVisible(p.codingRate);
    var ss := Settings(p);
    LookupAt(ss, 3);
    LookupAt(ss, 4);
    LookupAt(ss, 5);
    LookupAt(ss, 6);
    LookupAt(ss, 7);
    LookupAt(ss, 8);
  }

  // ---------- Each profile is read back ----------

  /** What a section says about a profile. */
  ghost predicate SaysProfile(text: string, section: string, p: Profile)
  {
    && ReadSection(text, section, "type") ==
         (match p.kind
          case Auto => Some("AutoInterface")
          case TcpClient => Some("TCPClientInterface")
          case TcpServer => Some("TCPServerInterface")
          case I2p => Some("I2PInterface")
          case RNode => Some("RNodeInterface")
          case Unknown(kind) => Some(Trim(kind)))
    && ReadSection(text, section, "enabled") == Some(if p.enabled then "Yes" else "No")
    && ReadSection(text, section, "interface_enabled") == Some(if p.enabled then "true" else "false")
  }

  ghost predicate SaysAddress(text: string, section: string, p: Profile)
  {
    && (p.kind.TcpClient? ==>
          && ReadSection(text, section, "target_host")
             == Some(if p.targetHost == "" then "127.0.0.1" else Trim(p.targetHost))
          && ReadSection(text, section, "target_port") == Some(Show(p.targetPort)))
    && (p.kind.TcpServer? ==>
          && ReadSection(text, section, "listen_ip")
             == Some(if p.targetHost == "" then "0.0.0.0" else Trim(p.targetHost))
          && ReadSection(text, section, "listen_port") == Some(Show(p.targetPort)))
    && (p.kind.TcpClient? || p.kind.TcpServer? ==>
          && ReadSection(text, section, "network_name") == IfAny(p.networkName)
          && ReadSection(text, section, "passphrase") == IfAny(p.passphrase))
  }

  ghost predicate SaysTunnel(text: string, section: string, p: Profile)
  {
    p.kind.I2p? ==>
      && ReadSection(text, section, "connectable") == Some(if p.connectable then "Yes" else "No")
      && ReadSection(text, section, "peers") == Some(Trim(JoinComma(p.peers)))
  }

  ghost predicate SaysRadio(text: string, section: string, p: Profile)
  {
    p.kind.RNode? ==>
      && ReadSection(text, section, "port") == Some(Trim(p.devicePort))
      && ReadSection(text, section, "frequency") == Some(Show(p.frequency))
      && ReadSection(text, section, "bandwidth") == Some(Show(p.bandwidth))
      && ReadSection(text, section, "txpower")
         == Some(if p.txPower < 0 then "-" + Show(-p.txPower) else Show(p.txPower))
      && ReadSection(text, section, "spreadingfactor") == Some(Show(p.spreadingFactor))
      && ReadSection(text, section, "codingrate") == Some(Show(p.codingRate))
  }

  /**
   * The round trip of the profiles: in what apply writes for a list that passes validation, the i-th
   * section says of every field that its kind has what the i-th profile holds.
   */
  lemma ProfilesReadBack(existing: Option<string>, ps: seq<Profile>, newName: string, i: nat)
    requires AllValid(ps) && i < |ps|
    ensures var (text, section) := (Applied(existing, ps, newName), SectionNames(ps, [])[i]);
            && SaysProfile(text, section, ps[i]) && SaysAddress(text, section, ps[i])
            && SaysTunnel(text, section, ps[i]) && SaysRadio(text, section, ps[i])
  {
    hide Applied, SectionNames, ValidProfile, SaysProfile, SaysAddress, SaysTunnel, SaysRadio, ReadSection, Lookup,
         Settings;
    var text, section := Applied(existing, ps, newName), SectionNames(ps, [])[i];
    forall key ensures ReadSection(text, section, key) == Lookup(Settings(ps[i]), key) {
      AppliedSections(existing, ps, newName, i, key);
    }
    FoundProfile(text, section, ps[i]);
    FoundAddress(text, section, ps[i]);
    FoundTunnel(text, section, ps[i]);
    FoundRadio(text, section, ps[i]);
  }

  /** The section holds the settings of the profile. */
  ghost predicate HoldsSettings(text: string, section: string, p: Profile)
  {
    forall key :: ReadSection(text, section, key) == Lookup(Settings(p), key)
  }

  lemma FoundProfile(text: string, section: string, p: Profile)
    requires HoldsSettings(text, section, p)
    ensures SaysProfile(text, section, p)
  {
    hide ReadSection, Settings, Lookup, Trim;
    CommonSays(p);
  }

  lemma FoundAddress(text: string, section: string, p: Profile)
    requires HoldsSettings(text, section, p)
    ensures SaysAddress(text, section, p)
  {
    hide ReadSection, Settings, Lookup, Trim, Show;
    if p.kind.TcpClient? {
      ClientSays(p);
    } else if p.kind.TcpServer? {
      ServerSays(p);
    }
  }

  lemma FoundTunnel(text: string, section: string, p: Profile)
    requires HoldsSettings(text, section, p)
    ensures SaysTunnel(text, section, p)
  {
    hide ReadSection, Settings, Lookup, Trim, JoinComma;
    if p.kind.I2p? {
      TunnelSays(p);
    }
  }

  lemma FoundRadio(text: string, section: string, p: Profile)
    requires HoldsSettings(text, section, p)
    ensures SaysRadio(text, section, p)
  {
    hide ReadSection, Settings, Lookup, Trim, Show;
    if p.kind.RNode? {
      RadioSays(p);
    }
  }
}
