/** The string operations of Rust's standard library that the configuration code relies on. */
module Text {
  import opened Common

  /** `char::is_whitespace`: the Unicode White_Space property. */
  predicate IsSpace(c: char)
  {
    '\U{9}' <= c <= '\U{D}' || c == ' ' || c == '\U{85}' || c == '\U{A0}' || c == '\U{1680}' ||
    '\U{2000}' <= c <= '\U{200A}' || c == '\U{2028}' || c == '\U{2029}' || c == '\U{202F}' ||
    c == '\U{205F}' || c == '\U{3000}'
  }

  function TrimStart(s: string): (r: string)
    ensures |r| <= |s| && r == s[|s| - |r|..]
  {
    if s != [] && IsSpace(s[0]) then TrimStart(s[1..]) else s
  }

  function TrimEnd(s: string): (r: string)
    ensures |r| <= |s| && r == s[..|r|]
    ensures r != [] ==> !IsSpace(r[|r| - 1])
  {
    if s != [] && IsSpace(s[|s| - 1]) then TrimEnd(s[..|s| - 1]) else s
  }

  function Trim(s: string): (r: string)
    ensures |r| <= |s|
    ensures forall c :: c in r ==> c in s
  {
    TrimEnd(TrimStart(s))
  }

  /** The position of the first `c`, or the length if there is none. */
  function IndexOf(s: string, c: char): (i: nat)
    ensures i <= |s| && c !in s[..i]
    ensures i < |s| ==> s[i] == c
  {
    if s == [] || s[0] == c then 0 else 1 + IndexOf(s[1..], c)
  }

  /** `str::split_once`. */
  function SplitOnce(s: string, c: char): Option<(string, string)>
  {
    var i := IndexOf(s, c);
    if i < |s| then Some((s[..i], s[i + 1..])) else None
  }

  function StripCarriageReturn(s: string): (r: string)
  {
    if s != [] && s[|s| - 1] == '\r' then s[..|s| - 1] else s
  }

  /** `str::lines`: every line ends with `\n` or `\r\n`, except possibly the last. */
  function Lines(s: string): (ls: seq<string>)
    decreases |s|
  {
    if s == [] then []
    else
      var i := IndexOf(s, '\n');
      if i < |s| then [StripCarriageReturn(s[..i])] + Lines(s[i + 1..]) else [s]
  }

  /** Every line with a line feed before it. */
  function Following(ls: seq<string>): string
  {
    if ls == [] then "" else "\n" + ls[0] + Following(ls[1..])
  }

  /** `join("\n")`. */
  function JoinLines(ls: seq<string>): string
  {
    if ls == [] then "" else ls[0] + Following(ls[1..])
  }

  // ---------- Trimming ----------

  lemma TrimEndSame(s: string)
    requires s != [] ==> !IsSpace(s[|s| - 1])
    ensures TrimEnd(s) == s
  {
  }

  lemma TrimSame(s: string)
    requires s != [] ==> !IsSpace(s[0]) && !IsSpace(s[|s| - 1])
    ensures Trim(s) == s
  {
  }

  lemma {:induction false} TrimEndConcat(a: string, b: string)
    ensures TrimEnd(a + b) == if TrimEnd(b) == [] then TrimEnd(a) else a + TrimEnd(b)
    decreases |b|
  {
    hide IsSpace, TrimEnd;
    if b == [] {
      assert a + b == a;
      TrimEndSame(b);
    } else {
      var front, last := b[..|b| - 1], b[|b| - 1];
      assert b == front + [last] && a + b == (a + front) + [last];
      if IsSpace(last) {
        TrimEndConcat(a, front);
        TrimEndPad(front, last);
        TrimEndPad(a + front, last);
      } else {
        TrimEndSame(b);
        TrimEndSame(a + b);
      }
    }
  }

  lemma TrimStartPad(pad: char, s: string)
    requires IsSpace(pad)
    ensures TrimStart([pad] + s) == TrimStart(s)
  {
    assert ([pad] + s)[1..] == s;
  }

  lemma TrimStartSame(s: string)
    requires s != [] ==> !IsSpace(s[0])
    ensures TrimStart(s) == s
  {
  }

  lemma TrimEndPad(s: string, pad: char)
    requires IsSpace(pad)
    ensures TrimEnd(s + [pad]) == TrimEnd(s)
  {
    assert (s + [pad])[..|s|] == s;
  }

  /** A trailing space makes no difference to a trimmed text. */
  lemma {:induction false} TrimPad(s: string, pad: char)
    requires IsSpace(pad)
    ensures Trim(s + [pad]) == Trim(s)
    decreases |s|
  {
    hide IsSpace, TrimStart, TrimEnd;
    if s == [] {
      assert s + [pad] == [pad] + [];
      TrimStartPad(pad, []);
    } else if IsSpace(s[0]) {
      TrimPad(s[1..], pad);
      TrimStartPad(s[0], s[1..]);
      TrimStartPad(s[0], s[1..] + [pad]);
      assert s == [s[0]] + s[1..] && s + [pad] == [s[0]] + (s[1..] + [pad]);
    } else {
      TrimStartSame(s);
      TrimStartSame(s + [pad]);
      TrimEndPad(s, pad);
    }
  }

  lemma {:induction false} TrimTrimEnd(s: string)
    ensures Trim(TrimEnd(s)) == Trim(s)
    decreases |s|
  {
    hide IsSpace, Trim, TrimEnd;
    if s != [] && IsSpace(s[|s| - 1]) {
      var t := s[..|s| - 1];
      TrimTrimEnd(t);
      TrimPad(t, s[|s| - 1]);
      assert s == t + [s[|s| - 1]];
      TrimEndPad(t, s[|s| - 1]);
    } else {
      TrimEndSame(s);
    }
  }

  predicate AllSpace(s: string) { forall i :: 0 <= i < |s| ==> IsSpace(s[i]) }

  /** Indentation is dropped, and a text that starts with a visible character keeps that character. */
  lemma {:induction false} TrimIndented(pad: string, s: string)
    requires AllSpace(pad) && s != [] && !IsSpace(s[0])
    ensures Trim(pad + s) == TrimEnd(s) != [] && TrimEnd(s)[0] == s[0]
    decreases |pad|
  {
    hide IsSpace, TrimEnd, TrimStart;
    TrimEndVisible(s);
    TrimStartIndented(pad, s);
  }

  lemma {:induction false} TrimStartIndented(pad: string, s: string)
    requires AllSpace(pad) && s != [] && !IsSpace(s[0])
    ensures TrimStart(pad + s) == s
    decreases |pad|
  {
    hide IsSpace, TrimStart;
    if pad == [] {
      assert pad + s == s;
      TrimStartSame(s);
    } else {
      TrimStartIndented(pad[1..], s);
      TrimStartPad(pad[0], pad[1..] + s);
      assert pad + s == [pad[0]] + (pad[1..] + s);
    }
  }

  lemma TrimEndVisible(s: string)
    requires s != [] && !IsSpace(s[0])
    ensures TrimEnd(s) != [] && TrimEnd(s)[0] == s[0]
  {
    hide IsSpace, TrimEnd;
    TrimEndConcat([s[0]], s[1..]);
    assert s == [s[0]] + s[1..];
    TrimEndSame([s[0]]);
  }

  lemma {:induction false} StartVisible(s: string)
    ensures TrimStart(s) != [] ==> !IsSpace(TrimStart(s)[0])
  {
    if s != [] && IsSpace(s[0]) { StartVisible(s[1..]); }
  }

  lemma TrimmedEnds(s: string)
    ensures Trim(s) != [] ==> !IsSpace(Trim(s)[0]) && !IsSpace(Trim(s)[|Trim(s)| - 1])
  {
    hide IsSpace, TrimStart, TrimEnd;
    StartVisible(s);
  }

  // ---------- Splitting ----------

  lemma {:induction false} IndexOfAppend(a: string, c: char, b: string)
    requires c !in a
    ensures IndexOf(a + [c] + b, c) == |a|
  {
    if a == [] {
      assert a + [c] + b == [c] + b;
    } else {
      IndexOfAppend(a[1..], c, b);
      assert (a + [c] + b)[1..] == a[1..] + [c] + b;
    }
  }

  lemma SplitOnceAppend(a: string, c: char, b: string)
    requires c !in a
    ensures SplitOnce(a + [c] + b, c) == Some((a, b))
  {
    IndexOfAppend(a, c, b);
    var s := a + [c] + b;
    assert s[..|a|] == a && s[|a| + 1..] == b;
  }

  // ---------- Lines ----------

  /** A line that `lines` gives back unchanged. */
  predicate Clean(line: string)
  {
    '\n' !in line && (line != [] ==> line[|line| - 1] != '\r')
  }

  predicate AllClean(ls: seq<string>) { forall i :: 0 <= i < |ls| ==> Clean(ls[i]) }

  lemma LinesStep(line: string, rest: string)
    requires Clean(line)
    ensures Lines(line + "\n" + rest) == [line] + Lines(rest)
  {
    hide Lines;
    LinesSplit(line, rest);
  }

  lemma LinesSplit(line: string, rest: string)
    requires '\n' !in line
    ensures Lines(line + "\n" + rest) == [StripCarriageReturn(line)] + Lines(rest)
  {
    hide IndexOf;
    IndexOfAppend(line, '\n', rest);
    var s := line + "\n" + rest;
    assert s[..|line|] == line && s[|line| + 1..] == rest;
  }

  lemma JoinStep(ls: seq<string>)
    requires |ls| > 1
    ensures JoinLines(ls) == ls[0] + "\n" + JoinLines(ls[1..])
  {
    assert Following(ls[1..]) == "\n" + ls[1] + Following(ls[1..][1..]);
    assert ls[0] + ("\n" + ls[1] + Following(ls[1..][1..])) == ls[0] + "\n" + (ls[1] + Following(ls[1..][1..]));
  }

  lemma JoinOne(line: string)
    ensures JoinLines([line]) == line
  {
    assert [line][1..] == [];
  }

  /** Reading the lines of joined lines gives them back, whatever follows. */
  lemma {:induction false} LinesOfJoined(ls: seq<string>, rest: string)
    requires AllClean(ls) && ls != []
    ensures Lines(JoinLines(ls) + "\n" + rest) == ls + Lines(rest)
    decreases |ls|
  {
    hide Lines, JoinLines, Clean;
    if |ls| == 1 {
      assert ls == [ls[0]];
      JoinOne(ls[0]);
      LinesStep(ls[0], rest);
    } else {
      var tail := ls[1..];
      LinesOfJoined(tail, rest);
      LinesStep(ls[0], JoinLines(tail) + "\n" + rest);
      JoinStep(ls);
      Reassociate(ls[0] + "\n", JoinLines(tail), "\n", rest);
      assert [ls[0]] + (tail + Lines(rest)) == ls + Lines(rest);
    }
  }

  lemma Reassociate(a: string, b: string, c: string, d: string)
    ensures a + b + c + d == a + (b + c + d)
  {
  }

  lemma {:induction false} FollowingConcat(a: seq<string>, b: seq<string>)
    ensures Following(a + b) == Following(a) + Following(b)
  {
    if a == [] {
      assert a + b == b;
    } else {
      assert (a + b)[0] == a[0] && (a + b)[1..] == a[1..] + b;
      FollowingConcat(a[1..], b);
      Reassociate("\n", a[0], Following(a[1..]), Following(b));
      Reassociate("", "\n" + a[0], Following(a[1..]), Following(b));
    }
  }

  lemma JoinConcat(a: seq<string>, b: seq<string>)
    requires a != []
    ensures JoinLines(a + b) == JoinLines(a) + Following(b)
  {
    assert (a + b)[1..] == a[1..] + b;
    FollowingConcat(a[1..], b);
  }

  /** The lines left when the joined text loses its trailing white space. */
  function TrimLines(ls: seq<string>): (r: seq<string>)
    ensures |r| <= |ls|
  {
    if ls == [] then []
    else
      var last := TrimEnd(ls[|ls| - 1]);
      if last == [] then TrimLines(ls[..|ls| - 1]) else ls[..|ls| - 1] + [last]
  }

  lemma {:induction false} TrimEndFollowing(ls: seq<string>)
    ensures TrimEnd(Following(ls)) == Following(TrimLines(ls))
    decreases |ls|
  {
    hide TrimEnd, IsSpace;
    if ls == [] {
      TrimEndSame("");
    } else {
      var init, last := ls[..|ls| - 1], ls[|ls| - 1];
      TrimEndFollowing(init);
      FollowingConcat(init, [last]);
      assert ls == init + [last];
      FollowingOne(last);
      TrimEndConcat("\n", last);
      TrimEndNewline();
      TrimEndConcat(Following(init), "\n" + last);
      FollowingConcat(init, [TrimEnd(last)]);
      FollowingOne(TrimEnd(last));
    }
  }

  lemma FollowingOne(line: string)
    ensures Following([line]) == "\n" + line
  {
    assert [line][1..] == [];
  }

  lemma TrimEndNewline()
    ensures TrimEnd("\n") == ""
  {
    assert "\n"[..0] == "";
  }

  /** What follows the header of a rendered text, as text of its own. */
  function Ended(ls: seq<string>): string
  {
    if ls == [] then "" else JoinLines(ls) + "\n"
  }

  /** A joined text whose header ends visibly, trimmed and closed with a line feed. */
  lemma TrimmedText(header: seq<string>, rest: seq<string>)
    requires header != [] && JoinLines(header) != []
    requires !IsSpace(JoinLines(header)[|JoinLines(header)| - 1])
    ensures TrimEnd(JoinLines(header + rest)) + "\n" == JoinLines(header) + "\n" + Ended(TrimLines(rest))
  {
    hide TrimEnd, JoinLines, Following, IsSpace, TrimLines;
    JoinConcat(header, rest);
    TrimEndSame(JoinLines(header));
    TrimEndConcat(JoinLines(header), Following(rest));
    TrimEndFollowing(rest);
    var f := Following(TrimLines(rest));
    assert TrimEnd(JoinLines(header + rest)) == JoinLines(header) + f;
    FollowingEnded(TrimLines(rest));
    assert JoinLines(header) + f + "\n" == JoinLines(header) + (f + "\n");
    assert JoinLines(header) + ("\n" + Ended(TrimLines(rest))) == JoinLines(header) + "\n" + Ended(TrimLines(rest));
  }

  lemma FollowingEnded(ls: seq<string>)
    ensures Following(ls) + "\n" == "\n" + Ended(ls)
  {
  }

  lemma LinesOfEnded(ls: seq<string>)
    requires AllClean(ls)
    ensures Lines(Ended(ls)) == ls
  {
    hide JoinLines, Clean;
    if ls != [] {
      LinesOfJoined(ls, "");
      assert JoinLines(ls) + "\n" + "" == JoinLines(ls) + "\n";
      assert Lines("") == [];
    }
  }
}
