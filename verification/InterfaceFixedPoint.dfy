/**
 * Applying a configuration is a fixed point: what is written reads back as the same instance name
 * and network identity, so applying again writes the same text (src/interfaces.rs).
 */
module InterfaceFixedPoint {
  import opened Common
  import opened Decimal
  import opened Text
  import opened Utf8
  import opened InterfaceProfiles
  import opened InterfaceConfig
  import opened InterfaceHeader

  // ---------- Line breaks ----------

  predicate IsBreak(c: char) { c == '\n' || c == '\r' }

  predicate Lacks(s: string, c: char) { c !in s }

  predicate ProfileLacks(p: Profile, c: char)
  {
    && Lacks(p.id, c) && Lacks(p.name, c) && Lacks(p.targetHost, c) && Lacks(p.networkName, c)
    && Lacks(p.passphrase, c) && Lacks(p.devicePort, c) && (p.kind.Unknown? ==> Lacks(p.kind.kind, c))
    && forall i :: 0 <= i < |p.peers| ==> Lacks(p.peers[i], c)
  }

  predicate AllLack(ps: seq<Profile>, c: char) { forall i :: 0 <= i < |ps| ==> ProfileLacks(ps[i], c) }

  /** Every list that was ever persisted or loaded is free of line breaks. */
  lemma ValidLacksBreaks(ps: seq<Profile>, c: char)
    requires AllValid(ps) && IsBreak(c)
    ensures AllLack(ps, c)
  {
    hide Encode;
    forall i | 0 <= i < |ps| ensures ProfileLacks(ps[i], c) {
      assert ValidProfile(ps[i]);
    }
  }

  // ---------- Profile lines never reopen the `[reticulum]` section ----------

  predicate Keyed(s: Setting) { s.key != [] && forall i :: 0 <= i < |s.key| ==> IsKeyChar(s.key[i]) }

  predicate IsKeyChar(c: char) { 'a' <= c <= 'z' || c == '_' }

  predicate AllKeyed(ss: seq<Setting>) { forall i :: 0 <= i < |ss| ==> Keyed(ss[i]) }

  predicate Opens(ls: seq<string>) { exists i :: 0 <= i < |ls| && OpensReticulum(ls[i]) }

  lemma SectionLineDoesNotOpen(name: string)
    ensures !OpensReticulum(SectionLine(name))
  {
    hide Trim, TrimEnd, IsSpace;
    var inner := "[[" + name + "]]";
    BracketsAreVisible();
    SpaceIsSpace();
    assert inner[|inner| - 1] == ']';
    TrimIndented("  ", inner);
    TrimEndSame(inner);
    assert inner[1] == '[' && "[reticulum]"[1] == 'r';
  }

  lemma BracketsAreVisible()
    ensures !IsSpace('[') && !IsSpace(']')
  {
  }

  lemma SettingLineDoesNotOpen(s: Setting)
    requires Keyed(s)
    ensures !OpensReticulum(SettingLine(s))
  {
    hide Trim, TrimEnd, IsSpace;
    var inner := s.key + " = " + s.value;
    assert IsKeyChar(s.key[0]) && inner[0] == s.key[0];
    KeyCharIsVisible(s.key[0]);
    SpaceIsSpace();
    TrimIndented("    ", inner);
    assert "[reticulum]"[0] == '[';
  }

  lemma KeyCharIsVisible(c: char)
    requires IsKeyChar(c)
    ensures !IsSpace(c) && c != '['
  {
  }

  lemma CommonKeys()
    ensures Keyed(Setting("type", "")) && Keyed(Setting("enabled", "")) && Keyed(Setting("interface_enabled", ""))
  {
  }

  lemma AddressKeys()
    ensures Keyed(Setting("target_host", "")) && Keyed(Setting("target_port", ""))
    ensures Keyed(Setting("listen_ip", "")) && Keyed(Setting("listen_port", ""))
  {
  }

  lemma OptionalKeys()
    ensures Keyed(Setting("network_name", "")) && Keyed(Setting("passphrase", ""))
  {
  }

  lemma TunnelKeys()
    ensures Keyed(Setting("connectable", "")) && Keyed(Setting("peers", ""))
  {
  }

  lemma RadioKeys()
    ensures Keyed(Setting("port", "")) && Keyed(Setting("frequency", "")) && Keyed(Setting("bandwidth", ""))
    ensures Keyed(Setting("txpower", "")) && Keyed(Setting("spreadingfactor", "")) && Keyed(Setting("codingrate", ""))
  {
  }

  lemma SettingsAreKeyed(p: Profile)
    ensures AllKeyed(Settings(p))
  {
    hide IsKeyChar, Show, JoinComma, ShowInt, TypeName;
    CommonKeys();
    AddressKeys();
    OptionalKeys();
    TunnelKeys();
    RadioKeys();
    assert AllKeyed(KindSettings(p));
  }

  lemma ProfileLinesDoNotOpen(p: Profile, section: string)
    ensures !Opens(ProfileLines(p, section))
  {
    hide Settings, OpensReticulum, SettingLine, SectionLine, Keyed;
    SettingsAreKeyed(p);
    forall i | 0 <= i < |Settings(p)| ensures !OpensReticulum(SettingLine(Settings(p)[i])) {
      SettingLineDoesNotOpen(Settings(p)[i]);
    }
    SectionLineDoesNotOpen(section);
    EmptyDoesNotOpen();
  }

  lemma EmptyDoesNotOpen()
    ensures !OpensReticulum("")
  {
    TrimSame("");
  }

  /** As it is rendered, no line of any profile opens the section, whatever the profile contains. */
  lemma {:induction false} BodyDoesNotOpen(ps: seq<Profile>, used: seq<string>)
    ensures !Opens(BodyLines(ps, used))
    decreases |ps|
  {
    hide UniqueSectionName, ProfileLines, OpensReticulum;
    if ps != [] {
      var section := UniqueSectionName(ps[0], used);
      ProfileLinesDoNotOpen(ps[0], section);
      BodyDoesNotOpen(ps[1..], used + [section]);
    }
  }

  // ---------- Profile lines contain no more line breaks than the profile ----------

  predicate LinesLack(ls: seq<string>, c: char) { forall i :: 0 <= i < |ls| ==> Lacks(ls[i], c) }

  predicate ValuesLack(ss: seq<Setting>, c: char) { forall i :: 0 <= i < |ss| ==> Lacks(ss[i].value, c) }

  lemma ShowLacks(n: nat, c: char)
    requires IsBreak(c)
    ensures Lacks(Show(n), c)
  {
    ShowDigits(n);
  }

  lemma ShowIntLacks(n: int, c: char)
    requires IsBreak(c)
    ensures Lacks(ShowInt(n), c)
  {
    hide Show;
    ShowLacks(if n < 0 then -n else n, c);
  }

  lemma {:induction false} JoinCommaLacks(items: seq<string>, c: char)
    requires IsBreak(c) && forall i :: 0 <= i < |items| ==> Lacks(items[i], c)
    ensures Lacks(JoinComma(items), c)
  {
    if |items| > 1 {
      JoinCommaLacks(items[1..], c);
    }
  }

  lemma LiteralsLack(c: char)
    requires IsBreak(c)
    ensures Lacks("Yes", c) && Lacks("No", c) && Lacks("true", c) && Lacks("false", c)
    ensures Lacks("127.0.0.1", c) && Lacks("0.0.0.0", c)
  {
  }

  lemma TypeNamesLack(c: char)
    requires IsBreak(c)
    ensures Lacks("AutoInterface", c) && Lacks("TCPClientInterface", c) && Lacks("TCPServerInterface", c)
    ensures Lacks("I2PInterface", c) && Lacks("RNodeInterface", c)
  {
  }

  lemma KindValuesLack(p: Profile, c: char)
    requires ProfileLacks(p, c) && IsBreak(c)
    ensures ValuesLack(KindSettings(p), c)
  {
    hide Show, ShowInt, JoinComma, Lacks;
    LiteralsLack(c);
    ShowLacks(p.targetPort, c);
    ShowLacks(p.frequency, c);
    ShowLacks(p.bandwidth, c);
    ShowIntLacks(p.txPower, c);
    ShowLacks(p.spreadingFactor, c);
    ShowLacks(p.codingRate, c);
    JoinCommaLacks(p.peers, c);
  }

  lemma ValuesOfProfileLack(p: Profile, c: char)
    requires ProfileLacks(p, c) && IsBreak(c)
    ensures ValuesLack(Settings(p), c)
  {
    hide KindSettings, Lacks;
    LiteralsLack(c);
    TypeNamesLack(c);
    KindValuesLack(p, c);
  }

  lemma SettingLineLacks(s: Setting, c: char)
    requires IsBreak(c) && Keyed(s) && Lacks(s.value, c)
    ensures Lacks(SettingLine(s), c)
  {
    assert Lacks(s.key, c);
  }

  lemma ProfileLinesLack(p: Profile, section: string, c: char)
    requires ProfileLacks(p, c) && IsBreak(c) && Lacks(section, c)
    ensures LinesLack(ProfileLines(p, section), c)
  {
    hide Settings, SettingLine, Keyed, ProfileLacks;
    SettingsAreKeyed(p);
    ValuesOfProfileLack(p, c);
    forall i | 0 <= i < |Settings(p)| ensures Lacks(SettingLine(Settings(p)[i]), c) {
      SettingLineLacks(Settings(p)[i], c);
    }
    assert Lacks(SectionLine(section), c);
  }

  lemma SectionNameLacks(p: Profile, used: seq<string>, c: char)
    requires ProfileLacks(p, c) && IsBreak(c)
    ensures Lacks(UniqueSectionName(p, used), c)
  {
    hide Trim, Show, FirstFree;
    var base := Base(p);
    assert Lacks(base, c);
    assert Lacks(base + " " + p.id, c);
    ShowLacks(FirstFree(base + " ", used, 2, 2), c);
    assert Lacks(Numbered(base + " ", FirstFree(base + " ", used, 2, 2)), c);
  }

  lemma {:induction false} BodyLacks(ps: seq<Profile>, used: seq<string>, c: char)
    requires AllLack(ps, c) && IsBreak(c)
    ensures LinesLack(BodyLines(ps, used), c)
    decreases |ps|
  {
    hide UniqueSectionName, ProfileLines, ProfileLacks, Lacks;
    if ps != [] {
      var section := UniqueSectionName(ps[0], used);
      SectionNameLacks(ps[0], used, c);
      ProfileLinesLack(ps[0], section, c);
      BodyLacks(ps[1..], used + [section], c);
    }
  }

  // ---------- Inert lines ----------

  /** A whole line that does not open the `[reticulum]` section. */
  predicate Inert(line: string) { Lacks(line, '\n') && !OpensReticulum(line) }

  predicate AllInert(ls: seq<string>) { forall i :: 0 <= i < |ls| ==> Inert(ls[i]) }

  lemma {:induction false} InertReads(ls: seq<string>, key: string)
    requires AllInert(ls)
    ensures ReadLines(ls, false, key) == None
    decreases |ls|
  {
    hide OpensReticulum, IsSection;
    if ls != [] {
      assert Inert(ls[0]);
      InertReads(ls[1..], key);
    }
  }

  lemma {:induction false} InertSplices(ls: seq<string>, line: string)
    requires AllInert(ls)
    ensures Spliced(ls, false, true, line) == ls
    decreases |ls|
  {
    hide OpensReticulum, IsSection, IsIdentityEntry;
    if ls != [] {
      assert Inert(ls[0]);
      InertSplices(ls[1..], line);
    }
  }

  lemma TrimmedLineIsInert(line: string)
    requires Inert(line)
    ensures Inert(TrimEnd(line))
  {
    hide Trim;
    TrimTrimEnd(line);
  }

  lemma StrippedLineIsInert(line: string)
    requires Inert(line)
    ensures Inert(StripCarriageReturn(line))
  {
    hide Trim;
    if line != [] && line[|line| - 1] == '\r' {
      TrimPad(line[..|line| - 1], '\r');
      assert line == line[..|line| - 1] + ['\r'];
    }
  }

  lemma {:induction false} TrimLinesIsInert(ls: seq<string>)
    requires AllInert(ls)
    ensures AllInert(TrimLines(ls)) && TrimLines(TrimLines(ls)) == TrimLines(ls)
    decreases |ls|
  {
    hide Inert, TrimEnd;
    if ls != [] {
      var last := ls[|ls| - 1];
      TrimmedLineIsInert(last);
      TrimEndSame(TrimEnd(last));
      TrimLinesIsInert(ls[..|ls| - 1]);
    }
  }

  /** Reading joined inert lines gives inert lines: a carriage return at an end makes no difference. */
  lemma {:induction false} LinesOfInert(ls: seq<string>)
    requires AllInert(ls)
    ensures AllInert(Lines(Ended(ls)))
    decreases |ls|
  {
    hide Inert, Lines, JoinLines, StripCarriageReturn;
    if ls == [] {
      LinesOfNothing();
    } else {
      StrippedLineIsInert(ls[0]);
      LinesOfInert(ls[1..]);
      EndedStep(ls);
      NoNewlineIn(ls[0]);
      LinesSplit(ls[0], Ended(ls[1..]));
    }
  }

  lemma NoNewlineIn(line: string)
    requires Inert(line)
    ensures '\n' !in line
  {
  }

  lemma LinesOfNothing()
    ensures Lines(Ended([])) == []
  {
  }

  lemma EndedStep(ls: seq<string>)
    requires ls != []
    ensures Ended(ls) == ls[0] + "\n" + Ended(ls[1..])
  {
    hide JoinLines;
    if |ls| == 1 {
      JoinOne(ls[0]);
      assert ls == [ls[0]];
    } else {
      JoinStep(ls);
      assert ls[0] + "\n" + JoinLines(ls[1..]) + "\n" == ls[0] + "\n" + (JoinLines(ls[1..]) + "\n");
    }
  }

  /** The profile part of a rendering, once read, cannot answer for the `[reticulum]` section. */
  lemma TailIsInert(ps: seq<Profile>)
    requires AllLack(ps, '\n')
    ensures AllInert(Tail(ps)) && TrimLines(Tail(ps)) == Tail(ps)
    ensures AllInert(Lines(Ended(Tail(ps))))
  {
    hide ProfileLacks, BodyLines, TrimLines, Lines, Ended, OpensReticulum, Lacks;
    BodyLacks(ps, [], '\n');
    BodyDoesNotOpen(ps, []);
    TrimLinesIsInert(BodyLines(ps, []));
    LinesOfInert(Tail(ps));
  }

  lemma {:induction false} TrimLinesLack(ls: seq<string>, c: char)
    requires LinesLack(ls, c)
    ensures LinesLack(TrimLines(ls), c)
    decreases |ls|
  {
    if ls != [] {
      TrimLinesLack(ls[..|ls| - 1], c);
    }
  }

  /** Without carriage returns either, the lines read are exactly those rendered. */
  lemma TailReadsBack(ps: seq<Profile>)
    requires AllLack(ps, '\n') && AllLack(ps, '\r')
    ensures Lines(Ended(Tail(ps))) == Tail(ps)
  {
    hide ProfileLacks, BodyLines, TrimLines, Lines, Ended, Lacks;
    BodyLacks(ps, [], '\n');
    BodyLacks(ps, [], '\r');
    TrimLinesLack(BodyLines(ps, []), '\n');
    TrimLinesLack(BodyLines(ps, []), '\r');
    AreClean(Tail(ps));
    LinesOfEnded(Tail(ps));
  }

  lemma AreClean(ls: seq<string>)
    requires LinesLack(ls, '\n') && LinesLack(ls, '\r')
    ensures AllClean(ls)
  {
    forall i | 0 <= i < |ls| ensures Clean(ls[i]) {
      assert Lacks(ls[i], '\n') && Lacks(ls[i], '\r');
    }
  }

  // ---------- Reading back ----------

  /** Whatever the profiles contain, a rendering reads back as its sanitized instance name. */
  lemma RenderedReadsBack(ps: seq<Profile>, name: string)
    ensures ReadValue(Rendered(ps, name), NAME_KEY) == Some(SafeName(name))
  {
    hide Lines, Rendered, Head, Foot, SafeName, ReadLines, InsideAfter, IsSafeName, Clean, Ended, Tail;
    var n := SafeName(name);
    RenderedLines(ps, name);
    HeadReads(n);
    ReadConcat(Head(n), Foot(), false, NAME_KEY);
    ReadConcat(Head(n) + Foot(), Lines(Ended(Tail(ps))), false, NAME_KEY);
  }

  /** No profile without line feeds can put a network identity into a rendering. */
  lemma RenderedHasNoIdentity(ps: seq<Profile>, name: string)
    requires AllLack(ps, '\n')
    ensures ReadValue(Rendered(ps, name), IDENTITY_KEY) == None
  {
    hide Lines, Rendered, Head, Foot, SafeName, ReadLines, InsideAfter, IsSafeName, Clean, Ended, Tail,
         ProfileLacks, Inert;
    var n := SafeName(name);
    RenderedLines(ps, name);
    HeadReads(n);
    FootReads(true, IDENTITY_KEY);
    ReadConcat(Head(n), Foot(), false, IDENTITY_KEY);
    InsideConcat(Head(n), Foot(), false);
    ReadConcat(Head(n) + Foot(), Lines(Ended(Tail(ps))), false, IDENTITY_KEY);
    TailIsInert(ps);
    InertReads(Lines(Ended(Tail(ps))), IDENTITY_KEY);
  }

  /** With a preserved identity, both the name and the identity read back, whatever the profiles contain. */
  lemma WithIdentityReadsBack(ps: seq<Profile>, name: string, id: string)
    requires GoodIdentity(id)
    ensures ReadValue(WithIdentity(Rendered(ps, name), id), NAME_KEY) == Some(SafeName(name))
    ensures ReadValue(WithIdentity(Rendered(ps, name), id), IDENTITY_KEY) == Some(id)
  {
    hide Lines, Rendered, WithIdentity, Head, Foot, SafeName, ReadLines, InsideAfter, IsSafeName, Clean, Ended,
         SplicedTail, IdentityLine, GoodIdentity, Assigned, IsSection;
    var n := SafeName(name);
    var line := IdentityLine(id);
    WithIdentityLines(ps, name, id);
    HeadReads(n);
    IdentityLineIsClean(id);
    ReadOne(line, true, IDENTITY_KEY);
    var rest := Foot() + Lines(Ended(SplicedTail(ps, id)));
    assert Head(n) + [line] + Foot() + Lines(Ended(SplicedTail(ps, id))) == Head(n) + ([line] + rest);
    ReadConcat([line], rest, true, IDENTITY_KEY);
    ReadConcat(Head(n), [line] + rest, false, IDENTITY_KEY);
    ReadConcat(Head(n), [line] + rest, false, NAME_KEY);
  }

  /** Putting an identity back inserts one line and leaves the profile sections untouched. */
  lemma IdentityInsertsOneLine(ps: seq<Profile>, name: string, id: string)
    requires AllLack(ps, '\n') && AllLack(ps, '\r')
    ensures Rendered(ps, name) == JoinLines(Head(SafeName(name)) + Foot()) + "\n" + Ended(Tail(ps))
    ensures WithIdentity(Rendered(ps, name), id)
         == JoinLines(Head(SafeName(name)) + [IdentityLine(id)] + Foot()) + "\n" + Ended(Tail(ps))
  {
    hide Lines, Rendered, WithIdentity, Head, Foot, SafeName, Ended, Tail, IdentityLine, ProfileLacks, Inert,
         Spliced, TrimLines, JoinLines;
    RenderedText(ps, name);
    WithIdentityText(ps, name, id);
    TailIsInert(ps);
    TailReadsBack(ps);
    InertSplices(Tail(ps), IdentityLine(id));
  }

  // ---------- Values that were read ----------

  lemma {:induction false} LinesHaveNoNewline(s: string)
    ensures forall i :: 0 <= i < |Lines(s)| ==> '\n' !in Lines(s)[i]
    decreases |s|
  {
    if s != [] {
      var at := IndexOf(s, '\n');
      if at < |s| {
        LinesHaveNoNewline(s[at + 1..]);
      } else {
        assert s[..at] == s;
      }
    }
  }

  lemma AssignedIsGood(line: string, key: string)
    requires '\n' !in line && Assigned(line, key).Some?
    ensures GoodIdentity(Assigned(line, key).value)
  {
    hide Trim, IsSpace, IndexOf;
    var t := Trim(line);
    var i := IndexOf(t, '=');
    assert forall c :: c in t[i + 1..] ==> c in t;
    TrimmedEnds(t[i + 1..]);
  }

  lemma {:induction false} ReadLinesIsGood(ls: seq<string>, inside: bool, key: string)
    requires forall i :: 0 <= i < |ls| ==> '\n' !in ls[i]
    requires ReadLines(ls, inside, key).Some?
    ensures GoodIdentity(ReadLines(ls, inside, key).value)
    decreases |ls|
  {
    hide IsSection, OpensReticulum, Assigned, GoodIdentity;
    if IsSection(ls[0]) {
      ReadLinesIsGood(ls[1..], OpensReticulum(ls[0]), key);
    } else if inside && Assigned(ls[0], key).Some? {
      AssignedIsGood(ls[0], key);
    } else {
      ReadLinesIsGood(ls[1..], inside, key);
    }
  }

  lemma ReadIsGood(config: string, key: string)
    requires ReadValue(config, key).Some?
    ensures GoodIdentity(ReadValue(config, key).value)
  {
    hide Lines, ReadLines, GoodIdentity;
    LinesHaveNoNewline(config);
    ReadLinesIsGood(Lines(config), false, key);
  }

  // ---------- The fixed point ----------

  /** What apply writes reads back as the sanitized instance name and the identity found before. */
  lemma ApplyReadsBack(existing: Option<string>, ps: seq<Profile>, newName: string)
    requires AllLack(ps, '\n') || IdentityIn(existing).Some?
    ensures ReadValue(Applied(existing, ps, newName), NAME_KEY) == Some(SafeName(NameFor(existing, newName)))
    ensures ReadValue(Applied(existing, ps, newName), IDENTITY_KEY) == IdentityIn(existing)
  {
    hide ReadValue, Rendered, WithIdentity, SafeName, ProfileLacks, NameFor, GoodIdentity;
    var name := NameFor(existing, newName);
    if IdentityIn(existing).Some? {
      ReadIsGood(existing.value, IDENTITY_KEY);
      WithIdentityReadsBack(ps, name, IdentityIn(existing).value);
    } else {
      RenderedReadsBack(ps, name);
      RenderedHasNoIdentity(ps, name);
    }
  }

  lemma RenderedBySafeName(ps: seq<Profile>, a: string, b: string)
    requires SafeName(a) == SafeName(b)
    ensures Rendered(ps, a) == Rendered(ps, b)
  {
    hide SafeName, Header, BodyLines, TrimEnd, JoinLines;
  }

  /** Applying to what was applied writes the same text, whatever name a fresh install would draw. */
  lemma ApplyIsFixedPoint(existing: Option<string>, ps: seq<Profile>, newName: string, otherName: string)
    requires AllLack(ps, '\n') || IdentityIn(existing).Some?
    ensures Applied(Some(Applied(existing, ps, newName)), ps, otherName) == Applied(existing, ps, newName)
  {
    hide ReadValue, Rendered, WithIdentity, SafeName, ProfileLacks, IsSafeName;
    ApplyReadsBack(existing, ps, newName);
    var name := NameFor(existing, newName);
    var text := Applied(existing, ps, newName);
    SafeNameIsFixed(SafeName(name));
    RenderedBySafeName(ps, SafeName(name), name);
  }

  /**
   * For profiles of any content, the fixed point is lost exactly when the existing text had no
   * identity and the profiles themselves, through embedded line feeds, put one into the rendering.
   */
  lemma ApplyIsFixedPointIff(existing: Option<string>, ps: seq<Profile>, newName: string, otherName: string)
    ensures Applied(Some(Applied(existing, ps, newName)), ps, otherName) == Applied(existing, ps, newName)
       <==> IdentityIn(existing).Some? || ReadValue(Rendered(ps, NameFor(existing, newName)), IDENTITY_KEY).None?
  {
    hide ReadValue, Rendered, WithIdentity, SafeName, IsSafeName, GoodIdentity;
    if IdentityIn(existing).Some? {
      ApplyIsFixedPoint(existing, ps, newName, otherName);
    } else {
      var name := NameFor(existing, newName);
      RenderedReadsBack(ps, name);
      SafeNameIsFixed(SafeName(name));
      RenderedBySafeName(ps, SafeName(name), name);
      var found := ReadValue(Rendered(ps, name), IDENTITY_KEY);
      if found.Some? {
        ReadIsGood(Rendered(ps, name), IDENTITY_KEY);
        IdentityChangesText(ps, name, found.value);
      }
    }
  }

  lemma IdentityChangesText(ps: seq<Profile>, name: string, id: string)
    requires GoodIdentity(id)
    ensures WithIdentity(Rendered(ps, name), id) != Rendered(ps, name)
  {
    hide WithIdentity, Rendered, SafeName, Lines, GoodIdentity, Tail, SplicedTail, Ended, Head, IdentityLine;
    var head := Head(SafeName(name));
    RenderedLines(ps, name);
    WithIdentityLines(ps, name, id);
    IdentityLineDiffers(id);
    var a, b := Lines(Rendered(ps, name)), Lines(WithIdentity(Rendered(ps, name), id));
    assert a[|head|] == "[logging]" && b[|head|] == IdentityLine(id);
  }

  lemma IdentityLineDiffers(id: string)
    ensures IdentityLine(id) != "[logging]"
  {
    IdentityKey();
    assert IdentityLine(id)[0] == 'n' && "[logging]"[0] == '[';
  }
}
