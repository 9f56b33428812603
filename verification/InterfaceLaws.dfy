/**
 * Which lines, names and profiles the configuration code recognises (src/interfaces.rs), said of
 * their characters.
 */
module InterfaceLaws {
  import opened Common
  import opened Seqs
  import opened Text
  import opened Utf8
  import opened InterfaceProfiles
  import opened InterfaceConfig
  import opened InterfaceHeader
  import opened InterfaceService

  // ---------- Text ----------

  /** The 25 characters of white space. */
  lemma SpaceIff(c: char)
    ensures IsSpace(c) <==>
            || 9 <= c as int <= 13 || 8192 <= c as int <= 8202
            || c as int in {32, 133, 160, 5760, 8232, 8233, 8239, 8287, 12288}
  {
  }

  lemma {:induction false} SpaceAhead(s: string, i: nat)
    requires i < |s| - |TrimStart(s)|
    ensures IsSpace(s[i])
    decreases i
  {
    hide IsSpace;
    if i > 0 {
      SpaceAhead(s[1..], i - 1);
    }
  }

  lemma StartDecomposes(s: string) returns (x: string)
    ensures AllSpace(x) && s == x + TrimStart(s)
  {
    hide IsSpace, TrimStart;
    x := s[..|s| - |TrimStart(s)|];
    forall i | 0 <= i < |x| ensures IsSpace(x[i]) {
      SpaceAhead(s, i);
    }
  }

  lemma {:induction false} EndIsSpace(s: string)
    ensures AllSpace(s[|TrimEnd(s)|..])
    decreases |s|
  {
    hide IsSpace;
    if s != [] && IsSpace(s[|s| - 1]) {
      var front := s[..|s| - 1];
      EndIsSpace(front);
      assert s[|TrimEnd(front)|..] == front[|TrimEnd(front)|..] + [s[|s| - 1]];
    }
  }

  lemma EndDecomposes(s: string) returns (z: string)
    ensures AllSpace(z) && s == TrimEnd(s) + z
  {
    hide AllSpace;
    z := s[|TrimEnd(s)|..];
    EndIsSpace(s);
  }

  /** Nothing, or something without white space at either end. */
  predicate IsCore(s: string) { s == [] || Visible(s) }

  lemma CoreOf(s: string)
    ensures IsCore(Trim(s))
  {
    hide TrimStart, TrimEnd, IsSpace;
    TrimmedEnds(s);
  }

  lemma Between(s: string, x: string, t: string, core: string, z: string)
    requires s == x + t && t == core + z
    ensures s == x + core + z
  {
  }

  /** A text is its trimmed core between white space. */
  lemma Decomposes(s: string) returns (x: string, z: string)
    ensures AllSpace(x) && AllSpace(z) && s == x + Trim(s) + z && IsCore(Trim(s))
  {
    hide TrimStart, TrimEnd, IsSpace, IsCore, AllSpace;
    x := StartDecomposes(s);
    z := EndDecomposes(TrimStart(s));
    Between(s, x, TrimStart(s), Trim(s), z);
    CoreOf(s);
  }

  /** And it has no other core. */
  lemma TrimsTo(x: string, core: string, z: string)
    requires AllSpace(x) && AllSpace(z) && IsCore(core)
    ensures Trim(x + core + z) == core
  {
    hide TrimStart, TrimEnd, IsSpace;
    if core == [] {
      AllSpaceTrims(x + core + z);
    } else {
      assert x + core + z == x + (core + z);
      TrimIndented(x, core + z);
      TrimEndConcat(core, z);
      SpaceEnds(z);
      TrimEndSame(core);
    }
  }

  lemma {:induction false} SpaceEnds(z: string)
    requires AllSpace(z)
    ensures TrimEnd(z) == []
    decreases |z|
  {
    if z != [] {
      SpaceEnds(z[..|z| - 1]);
    }
  }

  lemma {:induction false} AllSpaceTrims(s: string)
    requires AllSpace(s)
    ensures Trim(s) == []
  {
    if s != [] {
      AllSpaceTrims(s[1..]);
    }
  }

  /** A carriage return before the line feed belongs to the line break; a last line needs none. */
  lemma LineBreaks(line: string, rest: string)
    requires '\n' !in line
    ensures Lines(line + "\r\n" + rest) == [line] + Lines(rest)
    ensures line != [] ==> Lines(line) == [line]
  {
    LinesSplit(line + "\r", rest);
    assert line + "\r" + "\n" + rest == line + "\r\n" + rest;
    assert (line + "\r")[..|line|] == line;
    NoBreakAtAll(line);
  }

  lemma {:induction false} NoBreakAtAll(line: string)
    requires '\n' !in line
    ensures IndexOf(line, '\n') == |line|
  {
    if line != [] {
      NoBreakAtAll(line[1..]);
    }
  }

  // ---------- Lines of a configuration ----------

  /** A section line is anything in brackets, with white space around it. */
  lemma SectionIff(line: string)
    ensures IsSection(line) <==> exists x, y, z :: AllSpace(x) && AllSpace(z) && line == x + ("[" + y + "]") + z
  {
    hide Trim, IsSpace;
    if IsSection(line) {
      var x, z := Decomposes(line);
      var t := Trim(line);
      assert t == "[" + t[1..|t| - 1] + "]";
      assert line == x + ("[" + t[1..|t| - 1] + "]") + z;
    }
    if x, y, z :| AllSpace(x) && AllSpace(z) && line == x + ("[" + y + "]") + z {
      var core := "[" + y + "]";
      BracketIsVisible();
      assert core[0] == '[' && core[|core| - 1] == ']';
      TrimsTo(x, core, z);
    }
  }

  lemma BracketIsVisible()
    ensures !IsSpace('[') && !IsSpace(']')
  {
  }

  /** The section of interest is `[reticulum]`, letter by letter. */
  lemma ReticulumIff(line: string)
    ensures OpensReticulum(line) <==> exists x, z :: AllSpace(x) && AllSpace(z) && line == x + "[reticulum]" + z
  {
    hide Trim, IsSpace;
    if OpensReticulum(line) {
      var x, z := Decomposes(line);
      assert line == x + "[reticulum]" + z;
    }
    if x, z :| AllSpace(x) && AllSpace(z) && line == x + "[reticulum]" + z {
      BracketIsVisible();
      var core := "[reticulum]";
      assert core[0] == '[' && core[|core| - 1] == ']';
      TrimsTo(x, core, z);
    }
  }

  /** An identity entry is a line whose first word begins with the key. */
  lemma IdentityEntryIff(line: string)
    ensures IsIdentityEntry(line) <==> exists x, y :: AllSpace(x) && line == x + IDENTITY_KEY + y
  {
    hide Trim, IsSpace, TrimEnd;
    IdentityKey();
    if IsIdentityEntry(line) {
      var x, z := Decomposes(line);
      var y := Trim(line)[|IDENTITY_KEY|..] + z;
      assert Trim(line) == IDENTITY_KEY + Trim(line)[|IDENTITY_KEY|..];
      assert line == x + IDENTITY_KEY + y;
    }
    if x, y :| AllSpace(x) && line == x + IDENTITY_KEY + y {
      assert line == x + (IDENTITY_KEY + y);
      assert (IDENTITY_KEY + y)[0] == IDENTITY_KEY[0];
      TrimIndented(x, IDENTITY_KEY + y);
      TrimEndConcat(IDENTITY_KEY, y);
      TrimEndSame(IDENTITY_KEY);
    }
  }

  /** The parts of an assignment, with white space allowed around key and value. */
  ghost predicate Assigns(line: string, key: string, value: string, a: string, b: string, c: string, d: string)
  {
    AllSpace(a) && AllSpace(b) && AllSpace(c) && AllSpace(d) && line == a + key + b + "=" + c + value + d
  }

  /** A line gives `key` a value exactly if it is such an assignment; the value may hold further equals signs. */
  lemma AssignedIff(line: string, key: string, value: string)
    requires Visible(key) && '=' !in key && Visible(value)
    ensures Assigned(line, key) == Some(value) <==> exists a, b, c, d :: Assigns(line, key, value, a, b, c, d)
  {
    hide Trim, IsSpace, SplitOnce, Visible;
    if Assigned(line, key) == Some(value) {
      var a, d := Decomposes(line);
      var t := Trim(line);
      var (k, v) := SplitOnce(t, '=').value;
      SplitIs(t, '=');
      var b0, b := Decomposes(k);
      var c, c0 := Decomposes(v);
      AssignedEdges(t, key, value, b0, b, c, c0);
      assert line == a + t + d && t == key + b + "=" + c + value;
      assert line == a + key + b + "=" + c + value + d;
      assert Assigns(line, key, value, a, b, c, d);
    }
    if a, b, c, d :| Assigns(line, key, value, a, b, c, d) {
      AssignsReads(line, key, value, a, b, c, d);
    }
  }

  lemma SplitIs(s: string, c: char)
    requires SplitOnce(s, c).Some?
    ensures var (k, v) := SplitOnce(s, c).value; s == k + [c] + v && c !in k
  {
    var i := IndexOf(s, c);
    assert s == s[..i] + [s[i]] + s[i + 1..];
  }

  /** A trimmed line has no white space before its key or after its value. */
  lemma AssignedEdges(t: string, key: string, value: string, b0: string, b: string, c: string, c0: string)
    requires IsCore(t) && Visible(key) && Visible(value)
    requires AllSpace(b0) && AllSpace(b) && AllSpace(c) && AllSpace(c0)
    requires t == (b0 + key + b) + "=" + (c + value + c0)
    ensures t == key + b + "=" + c + value
  {
    hide IsSpace;
    var inner := key + b + "=" + c + value;
    assert t == b0 + (key + b + "=" + (c + value + c0));
    StartsWithPad(b0, key + b + "=" + (c + value + c0));
    assert t == (b0 + key + b + "=" + (c + value)) + c0;
    EndsWithPad(b0 + key + b + "=" + (c + value), c0);
    assert b0 == [] && c0 == [];
    assert (key + b) + "=" + (c + value) == inner;
  }

  lemma StartsWithPad(pad: string, s: string)
    requires AllSpace(pad)
    ensures pad != [] ==> IsSpace((pad + s)[0])
  {
  }

  lemma EndsWithPad(s: string, pad: string)
    requires AllSpace(pad)
    ensures pad != [] ==> IsSpace((s + pad)[|s + pad| - 1])
  {
  }

  lemma AssignsReads(line: string, key: string, value: string, a: string, b: string, c: string, d: string)
    requires Visible(key) && '=' !in key && Visible(value) && Assigns(line, key, value, a, b, c, d)
    ensures Assigned(line, key) == Some(value)
  {
    hide Trim, IsSpace, SplitOnce;
    var t := key + b + "=" + c + value;
    assert t[0] == key[0] && t[|t| - 1] == value[|value| - 1];
    assert line == a + t + d;
    TrimsTo(a, t, d);
    SpaceHasNoEquals(b);
    assert '=' !in key + b;
    SplitOnceAppend(key + b, '=', c + value);
    assert (key + b) + ['='] + (c + value) == t;
    TrimsTo([], key, b);
    TrimsTo(c, value, []);
    assert [] + key + b == key + b && c + value + [] == c + value;
  }

  lemma SpaceHasNoEquals(s: string)
    requires AllSpace(s)
    ensures '=' !in s
  {
  }

  // ---------- Names ----------

  predicate IsAllowed(c: char)
  {
    48 <= c as int <= 57 || 65 <= c as int <= 90 || 97 <= c as int <= 122 || c as int == 95 || c as int == 45
  }

  /** The sanitized name is every ASCII letter, digit, `_` and `-` of the name, in order, or the default name. */
  lemma SafeNameIs(value: string)
    ensures var kept := Filter(value, (c: char) => IsAllowed(c));
            SafeName(value) == if kept == [] then "omenbrowser_rs" else kept
  {
    hide Trim, Filter, IsSpace;
    var p := (c: char) => IsAllowed(c);
    var x, z := Decomposes(value);
    SpaceIsDropped(x);
    SpaceIsDropped(z);
    FilterKeepsNone(x, p);
    FilterKeepsNone(z, p);
    FilterConcat(x + Trim(value), z, p);
    FilterConcat(x, Trim(value), p);
    FilterSame(Trim(value), p, IsNameChar);
  }

  lemma SpaceIsDropped(s: string)
    requires AllSpace(s)
    ensures forall c :: c in s ==> !IsAllowed(c)
  {
  }

  // ---------- Profiles ----------

  /** Every text of a profile but its passphrase. */
  function TextsOf(p: Profile): seq<string>
  {
    [p.id, p.name, p.targetHost, p.networkName, p.devicePort]
    + (if p.kind.Unknown? then [p.kind.kind] else []) + p.peers
  }

  predicate IsPlainText(s: string, max: nat)
  {
    |Encode(s)| <= max && forall i :: 0 <= i < |s| ==> s[i] as int != 0 && s[i] as int != 10 && s[i] as int != 13
  }

  /** A profile is valid iff it has at most 64 peers and its texts are bounded and free of NUL and line breaks. */
  lemma ValidProfileIff(p: Profile)
    ensures ValidProfile(p) <==>
            && |p.peers| <= 64
            && (forall s :: s in TextsOf(p) ==> IsPlainText(s, 16384))
            && IsPlainText(p.passphrase, 4096)
  {
    hide Encode;
    forall s, n ensures ValidScalar(s, n) <==> IsPlainText(s, n) {
    }
    hide ValidScalar, IsPlainText;
    var first := [p.id, p.name, p.targetHost, p.networkName, p.devicePort];
    var kind := if p.kind.Unknown? then [p.kind.kind] else [];
    assert first[0] in first && first[1] in first && first[2] in first && first[3] in first && first[4] in first;
    assert forall s :: s in TextsOf(p) <==> s in first || s in kind || s in p.peers;
  }

  /** What a new profile of each kind holds. */
  lemma NewProfileHolds(id: string, name: string, kind: InterfaceKind)
    ensures var p := NewProfile(id, name, kind);
            && p.id == id && p.name == name && p.kind == kind && p.enabled
            && p.targetPort == 4242 && p.targetHost == (if kind == TcpServer then "0.0.0.0" else "")
            && (p.connectable <==> kind == I2p) && p.peers == []
            && p.networkName == "" && p.passphrase == "" && p.devicePort == ""
            && p.frequency == 867_200_000 && p.bandwidth == 125_000 && p.txPower == 7
            && p.spreadingFactor == 8 && p.codingRate == 5
  {
  }

  /** The name that each kind of profile is created under. */
  lemma DefaultNameIs(kind: InterfaceKind)
    ensures kind == Auto ==> DefaultName(kind) == "Auto Interface"
    ensures kind == TcpClient ==> DefaultName(kind) == "TCP Gateway"
    ensures kind == TcpServer ==> DefaultName(kind) == "TCP Server"
    ensures kind == I2p ==> DefaultName(kind) == "I2P"
    ensures kind == RNode ==> DefaultName(kind) == "RNode"
    ensures kind.Unknown? ==> DefaultName(kind) == "Unknown Interface"
  {
  }

  /** The name of a section is the trimmed name of its profile, or its id if that is blank. */
  lemma BaseIs(p: Profile, x: string, core: string, z: string)
    requires AllSpace(x) && AllSpace(z) && IsCore(core) && p.name == x + core + z
    ensures Base(p) == if core == "" then p.id else core
  {
    TrimsTo(x, core, z);
  }

  // ---------- The configuration file ----------

  /** An existing file is read iff it has at most 1 MiB and is the encoding of a text, which is then what is read. */
  lemma ReadableIff(bytes: Bytes, text: string)
    ensures IsReadable(None) && TextOf(None) == None
    ensures IsReadable(Some(bytes)) && TextOf(Some(bytes)) == Some(text) <==>
            |bytes| <= 1_048_576 && Encode(text) == bytes
  {
    hide Encode, Decode;
    DecodeEncode(text);
    if Decode(bytes).Some? {
      EncodeDecode(bytes);
    }
  }
}
