/** What the log reader selects, cuts and keeps, said of bytes and times (src/structured_log_reader.rs). */
module LogLaws {
  import opened Common
  import opened Ordering
  import opened StableSort
  import opened LogReader

  // ---------- Bytes and lines ----------

  /** The tail is the end of the file, as much of it as the limit allows. */
  lemma TailIs(content: Bytes, limit: nat)
    ensures exists front :: content == front + Tail(content, limit)
    ensures |Tail(content, limit)| == if |content| < limit then |content| else limit
  {
    var n := |content| - |Tail(content, limit)|;
    assert content == content[..n] + Tail(content, limit);
  }

  /** A cut line goes with its line feed; without a line feed nothing is left. */
  lemma {:induction false} AfterFirstLineIs(line: Bytes, rest: Bytes)
    requires 10 !in line
    ensures AfterFirstLine(line + [10] + rest) == rest && AfterFirstLine(line) == []
  {
    if line == [] {
      assert line + [10] + rest == [10] + rest;
    } else {
      AfterFirstLineIs(line[1..], rest);
      assert (line + [10] + rest)[1..] == line[1..] + [10] + rest;
    }
  }

  function Joined(lines: seq<Bytes>): Bytes
    requires lines != []
  {
    if |lines| == 1 then lines[0] else lines[0] + [10] + Joined(lines[1..])
  }

  /** The lines are the text between the line feeds. */
  lemma {:induction false} SplitLinesIs(bytes: Bytes)
    ensures Joined(SplitLines(bytes)) == bytes
    ensures forall i :: 0 <= i < |SplitLines(bytes)| ==> 10 !in SplitLines(bytes)[i]
  {
    if bytes != [] {
      SplitLinesIs(bytes[1..]);
      var rest, lines := SplitLines(bytes[1..]), SplitLines(bytes);
      assert lines[1..] == if bytes[0] == 10 then rest else rest[1..];
      assert bytes == [bytes[0]] + bytes[1..];
    }
  }

  /** The entries of a file are those of its lines that parse, in order. */
  lemma ParsedLine(line: Bytes, rest: seq<Bytes>, parse: Bytes -> Option<LogEntry>)
    ensures ParseAll([], parse) == []
    ensures ParseAll([line] + rest, parse)
         == (if parse(line).Some? then [parse(line).value] else []) + ParseAll(rest, parse)
  {
    assert ([line] + rest)[1..] == rest;
  }

  // ---------- Files ----------

  /** The active log has its one name, which is not that of a rotated log. */
  lemma ActiveLogIs(modified: int)
    ensures ActiveLog(Some(modified)) == Some(Candidate(Ascii("omenbrowser_rs.jsonl"), modified, true))
    ensures !IsRotatedLog(Named(Ascii("omenbrowser_rs.jsonl"), true, modified))
  {
    var a, name := Ascii("omenbrowser_rs-"), Ascii("omenbrowser_rs.jsonl");
    assert a[14] == 45 && name[14] == 46;
  }

  /** A rotated log is a regular file with the program's prefix and the suffix of a log. */
  lemma RotatedIs(mid: Bytes, modified: int, e: DirEntry)
    ensures IsRotatedLog(Named(Ascii("omenbrowser_rs-") + mid + Ascii(".jsonl"), true, modified))
    ensures IsRotatedLog(e) ==>
              && e.Named? && e.isFile
              && Ascii("omenbrowser_rs-") <= e.name
              && exists front :: e.name == front + Ascii(".jsonl")
  {
    var a, b := Ascii("omenbrowser_rs-"), Ascii(".jsonl");
    var name := a + mid + b;
    assert name[|name| - 6..] == b && a <= name;
    if IsRotatedLog(e) {
      assert e.name == e.name[..|e.name| - 6] + b;
    }
  }

  /** `x` was modified later, or at the same time and its path is not before. */
  predicate AtLeastAsNew(x: Candidate, y: Candidate)
  {
    x.modified > y.modified || (x.modified == y.modified && LexLeq(y.path, x.path))
  }

  lemma NewerIff(x: Candidate, y: Candidate)
    requires x.active == y.active
    ensures Older(y, x) <==> AtLeastAsNew(x, y)
  {
    hide LexLeq;
    LexTotal(x.path, x.path);
  }

  /** How many other logs are selected. */
  function OthersSelected(active: Option<Candidate>, offered: seq<Candidate>, limit: nat): nat
    requires limit > 0
  {
    var room := if active.Some? then limit - 1 else limit;
    if |offered| < room then |offered| else room
  }

  /** The active log comes first, then as many of the others as there is room for, newest first. */
  lemma SelectionIs(active: Option<Candidate>, offered: seq<Candidate>, limit: nat)
    requires limit > 0
    ensures var n := OthersSelected(active, offered, limit);
            Selection(active, offered, limit)
            == (if active.Some? then [active.value] else []) + Sort(offered, Newer)[..n]
  {
    hide Sort;
  }

  lemma SelectedInOrder(offered: seq<Candidate>, i: nat, j: nat)
    requires i < j < |offered| && forall k :: 0 <= k < |offered| ==> !offered[k].active
    ensures AtLeastAsNew(Sort(offered, Newer)[i], Sort(offered, Newer)[j])
  {
    hide Older, Sort, TotalPreorder, AtLeastAsNew;
    NewerIsPreorder();
    SortSorted(offered, Newer);
    SortMultiset(offered, Newer);
    var t := Sort(offered, Newer);
    NoneActive(offered, t);
    NewerIff(t[i], t[j]);
  }

  /** No log left out is newer than one that is selected. */
  lemma LeftOutIsOlder(offered: seq<Candidate>, n: nat, x: Candidate, y: Candidate)
    requires n <= |offered| && forall k :: 0 <= k < |offered| ==> !offered[k].active
    requires x in Sort(offered, Newer)[..n] && y in multiset(offered) - multiset(Sort(offered, Newer)[..n])
    ensures AtLeastAsNew(x, y)
  {
    hide Older, Sort, TotalPreorder, AtLeastAsNew;
    NewerIsPreorder();
    var t := Sort(offered, Newer);
    SortMultiset(offered, Newer);
    CutIsOrdered(offered, Newer, n, x, y);
    NoneActive(offered, t);
    assert x in t && y in offered;
    NewerIff(x, y);
  }

  lemma NoneActive(offered: seq<Candidate>, t: seq<Candidate>)
    requires multiset(offered) == multiset(t) && forall i :: 0 <= i < |offered| ==> !offered[i].active
    ensures forall i :: 0 <= i < |t| ==> !t[i].active
  {
    forall i | 0 <= i < |t| ensures !t[i].active {
      assert t[i] in multiset(t);
      assert t[i] in multiset(offered);
      assert t[i] in offered;
    }
  }

  // ---------- Entries ----------

  /** The entries come oldest first, as many as allowed, and no epoch left out is later than one kept. */
  lemma MostRecentMeans(entries: seq<LogEntry>, seen: seq<LogEntry>, limit: nat)
    requires IsMostRecent(entries, seen, limit)
    ensures |entries| == if |seen| < limit then |seen| else limit
    ensures forall i, j :: 0 <= i < j < |entries| ==> entries[i].epochMs <= entries[j].epochMs
    ensures forall e, y :: e in entries && y in multiset(Epochs(seen)) - multiset(Epochs(entries)) ==> y <= e.epochMs
  {
    hide Sort, TotalPreorder;
    var n := |seen| - |entries|;
    assert Epochs(entries) == Sort(Epochs(seen), AtMost)[n..];
    forall i, j | 0 <= i < j < |entries| ensures entries[i].epochMs <= entries[j].epochMs {
      EpochsAscend(entries, seen, n, i, j);
    }
    forall e, y | e in entries && y in multiset(Epochs(seen)) - multiset(Epochs(entries)) ensures y <= e.epochMs {
      EpochLeftOut(entries, seen, n, e, y);
    }
  }

  lemma EpochsAscend(entries: seq<LogEntry>, seen: seq<LogEntry>, n: nat, i: nat, j: nat)
    requires n <= |seen| && Epochs(entries) == Sort(Epochs(seen), AtMost)[n..] && i < j < |entries|
    ensures entries[i].epochMs <= entries[j].epochMs
  {
    hide Sort, TotalPreorder;
    IntsAreOrdered();
    SortSorted(Epochs(seen), AtMost);
    var t := Sort(Epochs(seen), AtMost);
    assert Epochs(entries)[i] == t[n + i] && Epochs(entries)[j] == t[n + j];
    assert AtMost(t[n + i], t[n + j]);
  }

  lemma EpochLeftOut(entries: seq<LogEntry>, seen: seq<LogEntry>, n: nat, e: LogEntry, y: int)
    requires n <= |seen| && Epochs(entries) == Sort(Epochs(seen), AtMost)[n..]
    requires e in entries && y in multiset(Epochs(seen)) - multiset(Epochs(entries))
    ensures y <= e.epochMs
  {
    hide Sort, TotalPreorder;
    IntsAreOrdered();
    var i :| 0 <= i < |entries| && entries[i] == e;
    assert Epochs(entries)[i] == e.epochMs;
    CutIsOrdered(Epochs(seen), AtMost, n, y, e.epochMs);
    assert e.epochMs in Epochs(entries);
  }
}
