/** How the managed header of a rendered configuration reads and is rewritten (src/interfaces.rs). */
module InterfaceHeader {
  import opened Common
  import opened Text
  import opened InterfaceProfiles
  import opened InterfaceConfig

  // ---------- Reading and rewriting line by line ----------

  function InsideAfter(ls: seq<string>, inside: bool): bool
    decreases |ls|
  {
    if ls == [] then inside else InsideAfter(ls[1..], NextInside(ls[0], inside))
  }

  lemma {:induction false} ReadConcat(a: seq<string>, b: seq<string>, inside: bool, key: string)
    ensures ReadLines(a + b, inside, key)
         == if ReadLines(a, inside, key).Some? then ReadLines(a, inside, key)
            else ReadLines(b, InsideAfter(a, inside), key)
    decreases |a|
  {
    hide IsSection, OpensReticulum, Assigned;
    if a == [] {
      assert a + b == b;
    } else {
      ReadConcat(a[1..], b, NextInside(a[0], inside), key);
      assert (a + b)[1..] == a[1..] + b;
    }
  }

  lemma ReadOne(line: string, inside: bool, key: string)
    ensures ReadLines([line], inside, key)
         == if !IsSection(line) && inside then Assigned(line, key) else None
    ensures InsideAfter([line], inside) == NextInside(line, inside)
  {
    hide IsSection, OpensReticulum, Assigned;
    assert [line][1..] == [];
  }

  /** A line that neither opens a section nor assigns the network identity. */
  predicate Quiet(line: string) { !IsSection(line) && !IsIdentityEntry(line) }

  lemma {:induction false} SplicedQuiet(a: seq<string>, b: seq<string>, inside: bool, inserted: bool, line: string)
    requires forall i :: 0 <= i < |a| ==> Quiet(a[i])
    ensures Spliced(a + b, inside, inserted, line) == a + Spliced(b, inside, inserted, line)
    decreases |a|
  {
    hide IsSection, OpensReticulum, IsIdentityEntry;
    if a == [] {
      assert a + b == b;
    } else {
      assert Quiet(a[0]);
      SplicedQuiet(a[1..], b, inside, inserted, line);
      assert (a + b)[1..] == a[1..] + b;
    }
  }

  lemma SplicedSection(section: string, b: seq<string>, inside: bool, inserted: bool, line: string)
    requires IsSection(section)
    ensures Spliced([section] + b, inside, inserted, line)
         == (if inside && !inserted then [line, section] else [section])
            + Spliced(b, OpensReticulum(section), inserted || inside, line)
  {
    hide IsSection, OpensReticulum, IsIdentityEntry;
    assert ([section] + b)[1..] == b;
  }

  // ---------- Kinds of lines ----------

  /** A line with no white space at either end. */
  predicate Visible(line: string)
  {
    line != [] && !IsSpace(line[0]) && !IsSpace(line[|line| - 1])
  }

  lemma VisibleIsQuiet(line: string)
    requires Visible(line) && line[0] != '[' && line[0] != 'n'
    ensures Quiet(line)
  {
    TrimSame(line);
    assert IDENTITY_KEY[0] == 'n';
  }

  lemma EmptyIsQuiet()
    ensures Quiet("") && Assigned("", NAME_KEY).None? && Assigned("", IDENTITY_KEY).None?
  {
    TrimSame("");
    assert |IDENTITY_KEY| == 16;
  }

  lemma SplitAtEquals(key: string, value: string)
    requires '=' !in key
    ensures SplitOnce(key + " = " + value, '=') == Some((key + " ", " " + value))
  {
    SplitOnceAppend(key + " ", '=', " " + value);
    assert key + " " + ['='] + (" " + value) == key + " = " + value;
  }

  /** An assignment as the renderer writes it is read back exactly. */
  lemma AssignmentReads(key: string, value: string, wanted: string)
    requires Visible(key) && '=' !in key && Visible(value)
    ensures Assigned(key + " = " + value, wanted) == if key == wanted then Some(value) else None
  {
    hide IsSpace, SplitOnce, Trim;
    var line := key + " = " + value;
    assert line[0] == key[0] && line[|line| - 1] == value[|value| - 1];
    TrimSame(line);
    SplitAtEquals(key, value);
    SpaceIsSpace();
    TrimPad(key, ' ');
    TrimSame(key);
    TrimIndented(" ", value);
    TrimEndSame(value);
  }

  lemma SpaceIsSpace()
    ensures IsSpace(' ')
  {
  }

  lemma AssignmentIsQuiet(key: string, value: string)
    requires Visible(key) && Visible(value) && key[0] != '[' && key[0] != 'n'
    ensures Quiet(key + " = " + value)
  {
    var line := key + " = " + value;
    assert line[0] == key[0] && line[|line| - 1] == value[|value| - 1];
    VisibleIsQuiet(line);
  }

  // ---------- The managed header ----------

  lemma FourWords(a: string, b: string, c: string, d: string)
    requires a != [] && '\n' !in a && '\n' !in b && '\n' !in c && '\n' !in d
    requires !IsSpace(a[0]) && a[0] != '[' && a[0] != 'n' && d != [] && !IsSpace(d[|d| - 1])
    ensures Quiet(a + b + c + d) && Clean(a + b + c + d)
  {
    var line := a + b + c + d;
    assert line[0] == a[0] && line[|line| - 1] == d[|d| - 1];
    VisibleIsQuiet(line);
  }

  lemma TitleLine()
    ensures Quiet(Preamble()[0]) && Clean(Preamble()[0])
  {
    hide Quiet, Clean;
    FourWords("# OMENbrowser_rs ", "managed ", "Reticulum ", "configuration");
  }

  lemma SourceLine()
    ensures Quiet(Preamble()[1]) && Clean(Preamble()[1])
  {
    hide Quiet, Clean;
    FourWords("# Generated by the ", "OMENbrowser_rs ", "Interfaces ", "panel.");
  }

  lemma {:induction false} QuietReads(ls: seq<string>, inside: bool, key: string)
    requires forall i :: 0 <= i < |ls| ==> Quiet(ls[i])
    ensures InsideAfter(ls, inside) == inside
    ensures !inside ==> ReadLines(ls, inside, key).None?
    decreases |ls|
  {
    hide IsSection, OpensReticulum, IsIdentityEntry;
    if ls != [] {
      assert Quiet(ls[0]);
      QuietReads(ls[1..], inside, key);
    }
  }

  lemma PreambleIsQuiet()
    ensures forall i :: 0 <= i < |Preamble()| ==> Quiet(Preamble()[i]) && Clean(Preamble()[i])
  {
    hide Quiet;
    TitleLine();
    SourceLine();
    EmptyIsQuiet();
    assert Clean("");
  }

  lemma ReadFour(a: string, b: string, c: string, d: string, key: string)
    requires !IsSection(a) && !IsSection(b) && !IsSection(c) && !IsSection(d)
    ensures ReadLines([a, b, c, d], true, key)
         == if Assigned(a, key).Some? then Assigned(a, key)
            else if Assigned(b, key).Some? then Assigned(b, key)
            else if Assigned(c, key).Some? then Assigned(c, key)
            else Assigned(d, key)
  {
    hide IsSection, OpensReticulum, Assigned, ReadLines;
    ReadOne(a, true, key);
    ReadOne(b, true, key);
    ReadOne(c, true, key);
    ReadOne(d, true, key);
    ReadConcat([a], [b, c, d], true, key);
    ReadConcat([b], [c, d], true, key);
    ReadConcat([c], [d], true, key);
    assert [a] + [b, c, d] == [a, b, c, d] && [b] + [c, d] == [b, c, d] && [c] + [d] == [c, d];
  }

  lemma SafeNameIsVisible(name: string)
    requires IsSafeName(name)
    ensures Visible(name) && NoBreaks(name)
  {
    assert IsNameChar(name[0]) && IsNameChar(name[|name| - 1]);
  }

  lemma ShareKey()
    ensures Visible("share_instance") && '=' !in "share_instance" && '\n' !in "share_instance"
    ensures Visible("Yes") && NoBreaks("Yes")
  {
  }

  lemma NameKey()
    ensures Visible(NAME_KEY) && '=' !in NAME_KEY && '\n' !in NAME_KEY && NAME_KEY[0] == 'i'
  {
  }

  lemma IdentityKey()
    ensures Visible(IDENTITY_KEY) && '=' !in IDENTITY_KEY && '\n' !in IDENTITY_KEY && IDENTITY_KEY[0] == 'n'
  {
  }

  lemma TransportKey()
    ensures Visible("enable_transport") && '=' !in "enable_transport" && '\n' !in "enable_transport"
    ensures Visible("No") && NoBreaks("No")
  {
  }

  lemma LevelKey()
    ensures Visible("loglevel") && '\n' !in "loglevel" && Visible("4") && NoBreaks("4")
  {
  }

  lemma AssignmentIsClean(key: string, value: string)
    requires '\n' !in key && '\n' !in value && Visible(value)
    ensures Clean(key + " = " + value)
  {
    var line := key + " = " + value;
    assert line[|line| - 1] == value[|value| - 1];
  }

  predicate QuietAndClean(ls: seq<string>)
  {
    forall i :: 0 <= i < |ls| ==> Quiet(ls[i]) && Clean(ls[i])
  }

  lemma ReticulumIsQuiet(name: string)
    requires IsSafeName(name)
    ensures QuietAndClean(Reticulum(name))
  {
    hide Quiet, Visible, Clean, IsSafeName, NoBreaks;
    SafeNameIsVisible(name);
    ShareKey();
    NameKey();
    TransportKey();
    NoNewline(name);
    NoNewline("Yes");
    NoNewline("No");
    AssignmentIsQuiet("share_instance", "Yes");
    AssignmentIsQuiet(NAME_KEY, name);
    AssignmentIsQuiet("enable_transport", "No");
    AssignmentIsClean("share_instance", "Yes");
    AssignmentIsClean(NAME_KEY, name);
    AssignmentIsClean("enable_transport", "No");
    EmptyIsQuiet();
    EmptyIsClean();
  }

  lemma NoNewline(s: string)
    requires NoBreaks(s)
    ensures '\n' !in s && '\r' !in s
  {
  }

  lemma EmptyIsClean()
    ensures Clean("")
  {
  }

  lemma ReticulumReads(name: string)
    requires IsSafeName(name)
    ensures ReadLines(Reticulum(name), true, NAME_KEY) == Some(name)
    ensures ReadLines(Reticulum(name), true, IDENTITY_KEY) == None
  {
    hide Assigned, IsSection, IsIdentityEntry, Visible, Clean, IsSafeName, NoBreaks, ReadLines;
    ReticulumIsQuiet(name);
    var ls := Reticulum(name);
    assert Quiet(ls[0]) && Quiet(ls[1]) && Quiet(ls[2]) && Quiet(ls[3]);
    SafeNameIsVisible(name);
    ShareKey();
    NameKey();
    IdentityKey();
    TransportKey();
    assert "share_instance"[0] == 's' && "enable_transport"[0] == 'e';
    EmptyIsQuiet();
    AssignmentReads("share_instance", "Yes", NAME_KEY);
    AssignmentReads("share_instance", "Yes", IDENTITY_KEY);
    AssignmentReads(NAME_KEY, name, NAME_KEY);
    AssignmentReads(NAME_KEY, name, IDENTITY_KEY);
    AssignmentReads("enable_transport", "No", IDENTITY_KEY);
    ReadFour(ls[0], ls[1], ls[2], ls[3], NAME_KEY);
    ReadFour(ls[0], ls[1], ls[2], ls[3], IDENTITY_KEY);
    assert ls == [ls[0], ls[1], ls[2], ls[3]];
  }

  lemma ReticulumOpens()
    ensures IsSection("[reticulum]") && OpensReticulum("[reticulum]") && Clean("[reticulum]")
  {
    hide Trim;
    var line := "[reticulum]";
    assert line[0] == '[' && line[|line| - 1] == ']' && line[1] == 'r';
    TrimSame(line);
  }

  lemma LoggingOpens()
    ensures IsSection("[logging]") && !OpensReticulum("[logging]") && Clean("[logging]")
  {
    hide Trim;
    var line := "[logging]";
    assert line[0] == '[' && line[|line| - 1] == ']' && line[1] == 'l';
    TrimSame(line);
  }

  lemma InterfacesOpens()
    ensures IsSection("[interfaces]") && !OpensReticulum("[interfaces]") && Clean("[interfaces]")
  {
    hide Trim;
    var line := "[interfaces]";
    assert line[0] == '[' && line[|line| - 1] == ']' && line[1] == 'i';
    TrimSame(line);
  }

  lemma QuietAndCleanParts(ls: seq<string>)
    requires QuietAndClean(ls)
    ensures AllClean(ls) && forall i :: 0 <= i < |ls| ==> Quiet(ls[i])
  {
    hide Quiet, Clean;
  }

  lemma HeadReads(name: string)
    requires IsSafeName(name)
    ensures ReadLines(Head(name), false, NAME_KEY) == Some(name)
    ensures ReadLines(Head(name), false, IDENTITY_KEY) == None
    ensures InsideAfter(Head(name), false) && AllClean(Head(name))
  {
    hide Preamble, Reticulum, Quiet, Clean, IsSafeName, IsSection, OpensReticulum, ReadLines, InsideAfter;
    PreambleIsQuiet();
    ReticulumIsQuiet(name);
    QuietAndCleanParts(Reticulum(name));
    ReticulumOpens();
    ReticulumReads(name);
    HeadReadsKey(name, NAME_KEY);
    HeadReadsKey(name, IDENTITY_KEY);
  }

  /** Only the `[reticulum]` section of the header can answer. */
  lemma HeadReadsKey(name: string, key: string)
    requires IsSafeName(name)
    ensures ReadLines(Head(name), false, key) == ReadLines(Reticulum(name), true, key)
    ensures InsideAfter(Head(name), false)
  {
    hide Preamble, Reticulum, Quiet, Clean, IsSafeName, IsSection, OpensReticulum, ReadLines, InsideAfter;
    var opening := ["[reticulum]"];
    PreambleIsQuiet();
    QuietReads(Preamble(), false, key);
    ReticulumOpens();
    ReadOne("[reticulum]", false, key);
    ReticulumIsQuiet(name);
    QuietAndCleanParts(Reticulum(name));
    QuietReads(Reticulum(name), true, key);
    ReadConcat(Preamble(), opening, false, key);
    InsideConcat(Preamble(), opening, false);
    ReadConcat(Preamble() + opening, Reticulum(name), false, key);
    InsideConcat(Preamble() + opening, Reticulum(name), false);
  }

  lemma {:induction false} InsideConcat(a: seq<string>, b: seq<string>, inside: bool)
    ensures InsideAfter(a + b, inside) == InsideAfter(b, InsideAfter(a, inside))
    decreases |a|
  {
    hide NextInside;
    if a == [] {
      assert a + b == b;
    } else {
      InsideConcat(a[1..], b, NextInside(a[0], inside));
      assert (a + b)[1..] == a[1..] + b;
    }
  }

  lemma LevelIsQuiet()
    ensures QuietAndClean(["loglevel" + " = " + "4", ""])
  {
    hide Quiet, Visible, Clean, NoBreaks;
    LevelKey();
    NoNewline("4");
    AssignmentIsQuiet("loglevel", "4");
    AssignmentIsClean("loglevel", "4");
    EmptyIsQuiet();
    EmptyIsClean();
  }

  lemma FootReads(inside: bool, key: string)
    ensures ReadLines(Foot(), inside, key) == None && !InsideAfter(Foot(), inside)
    ensures AllClean(Foot())
  {
    hide Quiet, Clean, IsSection, OpensReticulum, ReadLines, InsideAfter;
    var level := ["loglevel" + " = " + "4", ""];
    LevelIsQuiet();
    QuietAndCleanParts(level);
    QuietReads(level, false, key);
    LoggingOpens();
    InterfacesOpens();
    ReadOne("[logging]", inside, key);
    ReadOne("[interfaces]", false, key);
    ReadConcat(["[logging]"], level, inside, key);
    InsideConcat(["[logging]"], level, inside);
    ReadConcat(["[logging]"] + level, ["[interfaces]"], inside, key);
    InsideConcat(["[logging]"] + level, ["[interfaces]"], inside);
  }

  /** The identity line lands at the end of the managed `[reticulum]` section. */
  lemma SplicedHeader(name: string, rest: seq<string>, line: string)
    requires IsSafeName(name)
    ensures Spliced(Head(name) + Foot() + rest, false, false, line)
         == Head(name) + [line] + Foot() + Spliced(rest, false, true, line)
  {
    hide Preamble, Reticulum, Quiet, Clean, IsSafeName, IsSection, OpensReticulum, Spliced;
    SplicedFoot(rest, line);
    var tail := Foot() + rest;
    var tail' := [line] + Foot() + Spliced(rest, false, true, line);
    ReticulumIsQuiet(name);
    QuietAndCleanParts(Reticulum(name));
    SplicedQuiet(Reticulum(name), tail, true, false, line);
    ReticulumOpens();
    SplicedSection("[reticulum]", Reticulum(name) + tail, false, false, line);
    PreambleIsQuiet();
    SplicedQuiet(Preamble(), ["[reticulum]"] + (Reticulum(name) + tail), false, false, line);
    assert Head(name) + Foot() + rest == Preamble() + (["[reticulum]"] + (Reticulum(name) + tail));
    assert Head(name) + [line] + Foot() + Spliced(rest, false, true, line)
        == Preamble() + (["[reticulum]"] + (Reticulum(name) + tail'));
  }

  lemma SplicedFoot(rest: seq<string>, line: string)
    ensures Spliced(Foot() + rest, true, false, line) == [line] + Foot() + Spliced(rest, false, true, line)
  {
    hide Quiet, Clean, IsSection, OpensReticulum, Spliced;
    var level := ["loglevel" + " = " + "4", ""];
    LevelIsQuiet();
    QuietAndCleanParts(level);
    LoggingOpens();
    InterfacesOpens();
    SplicedSection("[interfaces]", rest, false, true, line);
    SplicedQuiet(level, ["[interfaces]"] + rest, false, true, line);
    SplicedSection("[logging]", level + (["[interfaces]"] + rest), true, false, line);
    assert Foot() + rest == ["[logging]"] + (level + (["[interfaces]"] + rest));
    assert [line] + Foot() + Spliced(rest, false, true, line)
        == [line, "[logging]"] + (level + (["[interfaces]"] + Spliced(rest, false, true, line)));
  }

  // ---------- The rendered texts, line by line ----------

  lemma EndsVisibly(front: seq<string>)
    requires front != []
    ensures JoinLines(front + Foot()) != []
    ensures !IsSpace(JoinLines(front + Foot())[|JoinLines(front + Foot())| - 1])
  {
    hide JoinLines;
    var all := front + ["[logging]"] + ["loglevel" + " = " + "4", ""];
    assert front + Foot() == all + ["[interfaces]"];
    JoinConcat(all, ["[interfaces]"]);
    FollowingOne("[interfaces]");
    var line := "[interfaces]";
    assert line[|line| - 1] == ']';
  }

  /** The profile part of a rendering, without trailing white space. */
  function Tail(ps: seq<Profile>): seq<string> { TrimLines(BodyLines(ps, [])) }

  lemma RenderedText(ps: seq<Profile>, name: string)
    ensures Rendered(ps, name) == JoinLines(Head(SafeName(name)) + Foot()) + "\n" + Ended(Tail(ps))
  {
    hide Head, Foot, JoinLines, TrimEnd, SafeName, BodyLines, TrimLines, Following, Ended, IsSpace;
    var n := SafeName(name);
    var header := Head(n) + Foot();
    var body := BodyLines(ps, []);
    HeadNotEmpty(n);
    EndsVisibly(Head(n));
    JoinConcat(header, body);
    JoinConcat([JoinLines(header)], body);
    JoinOne(JoinLines(header));
    TrimmedText(header, body);
  }

  lemma HeadNotEmpty(name: string)
    ensures Head(name) != []
  {
  }

  lemma RenderedLines(ps: seq<Profile>, name: string)
    ensures Lines(Rendered(ps, name)) == Head(SafeName(name)) + Foot() + Lines(Ended(Tail(ps)))
  {
    hide Head, Foot, JoinLines, SafeName, Tail, Ended, Lines, Rendered, ReadLines, InsideAfter, Clean, IsSafeName;
    var n := SafeName(name);
    HeadNotEmpty(n);
    HeadReads(n);
    FootReads(false, NAME_KEY);
    RenderedText(ps, name);
    LinesOfJoined(Head(n) + Foot(), Ended(Tail(ps)));
  }

  predicate GoodIdentity(id: string) { Visible(id) && '\n' !in id }

  lemma IdentityLineIsClean(id: string)
    requires GoodIdentity(id)
    ensures Clean(IdentityLine(id))
    ensures Assigned(IdentityLine(id), IDENTITY_KEY) == Some(id) && !IsSection(IdentityLine(id))
  {
    hide Visible, Assigned;
    IdentityKey();
    AssignmentIsClean(IDENTITY_KEY, id);
    AssignmentReads(IDENTITY_KEY, id, IDENTITY_KEY);
    IdentityLineStarts(id);
  }

  lemma IdentityLineStarts(id: string)
    requires Visible(id)
    ensures !IsSection(IdentityLine(id))
  {
    hide Trim;
    IdentityKey();
    var line := IdentityLine(id);
    assert line[0] == IDENTITY_KEY[0] && line[|line| - 1] == id[|id| - 1];
    TrimSame(line);
  }

  /** The profile part after the identity has been put back. */
  function SplicedTail(ps: seq<Profile>, id: string): seq<string>
  {
    TrimLines(Spliced(Lines(Ended(Tail(ps))), false, true, IdentityLine(id)))
  }

  lemma WithIdentityText(ps: seq<Profile>, name: string, id: string)
    ensures WithIdentity(Rendered(ps, name), id)
         == JoinLines(Head(SafeName(name)) + [IdentityLine(id)] + Foot()) + "\n" + Ended(SplicedTail(ps, id))
  {
    hide Head, Foot, JoinLines, SafeName, Tail, Ended, Lines, Rendered, TrimEnd, TrimLines, IdentityLine, IsSpace,
         Spliced, IsSafeName;
    var n := SafeName(name);
    var line := IdentityLine(id);
    RenderedLines(ps, name);
    SplicedHeader(n, Lines(Ended(Tail(ps))), line);
    EndsVisibly(Head(n) + [line]);
    TrimmedText(Head(n) + [line] + Foot(), Spliced(Lines(Ended(Tail(ps))), false, true, line));
  }

  lemma WithIdentityLines(ps: seq<Profile>, name: string, id: string)
    requires GoodIdentity(id)
    ensures Lines(WithIdentity(Rendered(ps, name), id))
         == Head(SafeName(name)) + [IdentityLine(id)] + Foot() + Lines(Ended(SplicedTail(ps, id)))
  {
    hide Head, Foot, JoinLines, SafeName, Ended, Lines, Rendered, IdentityLine, SplicedTail, WithIdentity,
         ReadLines, InsideAfter, Clean, IsSafeName, GoodIdentity, Assigned, IsSection;
    var n := SafeName(name);
    HeadReads(n);
    FootReads(false, NAME_KEY);
    IdentityLineIsClean(id);
    WithIdentityText(ps, name, id);
    LinesOfJoined(Head(n) + [IdentityLine(id)] + Foot(), Ended(SplicedTail(ps, id)));
  }
}
