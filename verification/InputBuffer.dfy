/**
 * The text-input buffer (src/input.rs): UTF-8 bytes with a byte cursor, proved to behave as a
 * sequence of characters split at the cursor.
 */
module InputBuffer {
  import opened Common
  import opened Utf8

  /** The characters before and after the cursor. */
  datatype Zipper = Zipper(left: string, right: string)

  datatype Edit =
    | SetText(text: string)
    | SetCursor(index: nat)
    | InsertChar(ch: char)
    | InsertStr(text: string)
    | Backspace
    | Delete
    | MoveLeft
    | MoveRight
    | MoveHome
    | MoveEnd

  function Step(z: Zipper, e: Edit): Zipper
  {
    match e
    case SetText(text) => Zipper(text, [])
    case SetCursor(index) =>
      var all := z.left + z.right;
      if index < |all| then Zipper(all[..index], all[index..]) else Zipper(all, [])
    case InsertChar(ch) => Zipper(z.left + [ch], z.right)
    case InsertStr(text) => Zipper(z.left + text, z.right)
    case Backspace => if z.left == [] then z else Zipper(z.left[..|z.left| - 1], z.right)
    case Delete => if z.right == [] then z else Zipper(z.left, z.right[1..])
    case MoveLeft =>
      if z.left == [] then z
      else Zipper(z.left[..|z.left| - 1], [z.left[|z.left| - 1]] + z.right)
    case MoveRight =>
      if z.right == [] then z else Zipper(z.left + [z.right[0]], z.right[1..])
    case MoveHome => Zipper([], z.left + z.right)
    case MoveEnd => Zipper(z.left + z.right, [])
  }

  function Run(z: Zipper, edits: seq<Edit>): Zipper
    decreases |edits|
  {
    if edits == [] then z else Run(Step(z, edits[0]), edits[1..])
  }

  function Times(e: Edit, n: nat): seq<Edit>
  {
    if n == 0 then [] else [e] + Times(e, n - 1)
  }

  // ---------- Laws of the character view ----------

  /** As many backspaces as characters take back what was just typed, wherever the cursor was. */
  lemma {:induction false} BackspacesUndo(z: Zipper, text: string)
    ensures Run(Zipper(z.left + text, z.right), Times(Backspace, |text|)) == z
  {
    if text == [] {
      assert z.left + text == z.left;
    } else {
      var init, last := text[..|text| - 1], text[|text| - 1];
      assert text == init + [last];
      assert (z.left + text)[..|z.left + text| - 1] == z.left + init;
      BackspacesUndo(z, init);
      assert Times(Backspace, |text|)[1..] == Times(Backspace, |init|);
    }
  }

  lemma InsertThenBackspaces(z: Zipper, text: string)
    ensures Run(z, [InsertStr(text)] + Times(Backspace, |text|)) == z
  {
    var edits := [InsertStr(text)] + Times(Backspace, |text|);
    assert edits[1..] == Times(Backspace, |text|);
    BackspacesUndo(z, text);
  }

  /** Inserting a string is inserting its characters one by one. */
  lemma {:induction false} InsertStrIsTyping(z: Zipper, text: string)
    ensures Run(z, Typing(text)) == Step(z, InsertStr(text))
    decreases |text|
  {
    if text == [] {
      assert z.left + text == z.left;
    } else {
      InsertStrIsTyping(Step(z, InsertChar(text[0])), text[1..]);
      assert z.left + [text[0]] + text[1..] == z.left + text;
      assert Typing(text)[1..] == Typing(text[1..]);
    }
  }

  function Typing(text: string): seq<Edit>
  {
    if text == [] then [] else [InsertChar(text[0])] + Typing(text[1..])
  }

  predicate IsMove(e: Edit)
  {
    e.SetCursor? || e.MoveLeft? || e.MoveRight? || e.MoveHome? || e.MoveEnd?
  }

  /** Moving the cursor, by any run of moves, never changes the text. */
  lemma {:induction false} MovesKeepText(z: Zipper, edits: seq<Edit>)
    requires forall e :: e in edits ==> IsMove(e)
    ensures Run(z, edits).left + Run(z, edits).right == z.left + z.right
    decreases |edits|
  {
    if edits != [] {
      assert edits[0] in edits && forall e :: e in edits[1..] ==> e in edits;
      MoveKeepsText(z, edits[0]);
      MovesKeepText(Step(z, edits[0]), edits[1..]);
    }
  }

  lemma MoveKeepsText(z: Zipper, e: Edit)
    requires IsMove(e)
    ensures Step(z, e).left + Step(z, e).right == z.left + z.right
  {
    var all := z.left + z.right;
    if e.SetCursor? && e.index < |all| {
      assert all[..e.index] + all[e.index..] == all;
    }
    assert all + [] == all == [] + all;
    if e.MoveLeft? && z.left != [] {
      assert z.left == z.left[..|z.left| - 1] + [z.left[|z.left| - 1]];
    }
    if e.MoveRight? && z.right != [] {
      assert z.right == [z.right[0]] + z.right[1..];
    }
  }

  // ---------- Byte positions of characters ----------

  /** The bytes and cursor that stand for a character view. */
  ghost predicate Represents(text: Bytes, cursor: nat, z: Zipper)
  {
    text == Encode(z.left) + Encode(z.right) && cursor == |Encode(z.left)|
  }

  lemma RepresentsUnique(text: Bytes, cursor: nat, z: Zipper, z': Zipper)
    requires Represents(text, cursor, z) && Represents(text, cursor, z')
    ensures z == z'
  {
    assert Encode(z.left) == text[..cursor] == Encode(z'.left);
    assert Encode(z.right) == text[cursor..] == Encode(z'.right);
    EncodeInjective(z.left, z'.left);
    EncodeInjective(z.right, z'.right);
  }

  lemma SplitLeft(z: Zipper)
    requires z.left != []
    ensures Encode(z.left) == Encode(z.left[..|z.left| - 1]) + Unit(z.left[|z.left| - 1])
  {
    EncodeSnoc(z.left[..|z.left| - 1], z.left[|z.left| - 1]);
    assert z.left[..|z.left| - 1] + [z.left[|z.left| - 1]] == z.left;
  }

  class InputBuffer {
    var text: Bytes
    var cursor: nat

    /** The text is UTF-8 and the cursor stands between two characters. */
    ghost predicate Valid()
      reads this
    {
      cursor <= |text| && Decode(text[..cursor]).Some? && Decode(text[cursor..]).Some?
    }

    ghost function View(): Zipper
      reads this
      requires Valid()
    {
      Zipper(Decode(text[..cursor]).value, Decode(text[cursor..]).value)
    }

    lemma ViewRepresents()
      requires Valid()
      ensures Represents(text, cursor, View())
    {
      hide Decode, Encode;
      EncodeDecode(text[..cursor]);
      EncodeDecode(text[cursor..]);
      assert text == text[..cursor] + text[cursor..];
    }

    lemma RepresentsView(z: Zipper)
      requires Represents(text, cursor, z)
      ensures Valid() && View() == z
    {
      hide Decode, Encode;
      assert text[..cursor] == Encode(z.left) && text[cursor..] == Encode(z.right);
      DecodeEncode(z.left);
      DecodeEncode(z.right);
    }

    constructor (initial: string)
      ensures Valid() && View() == Zipper(initial, [])
      ensures text == Encode(initial)
    {
      text := Encode(initial);
      cursor := |Encode(initial)|;
      new;
      RepresentsView(Zipper(initial, []));
    }

    method SetText(value: string)
      modifies this
      ensures Valid() && View() == Zipper(value, [])
    {
      text := Encode(value);
      cursor := |text|;
      RepresentsView(Zipper(value, []));
    }

    /** Steps over whole characters from the start; past the last one the cursor goes to the end. */
    method SetCursorCharIndex(index: nat)
      requires Valid()
      modifies this`cursor
      ensures Valid() && View() == Step(old(View()), SetCursor(index))
    {
      hide Decode, Encode, Unit, StartsWell;
      ghost var z := View();
      ghost var all := z.left + z.right;
      ViewRepresents();
      EncodeConcat(z.left, z.right);
      var at, n := 0, 0;
      EncodeEmpty();
      assert all[..0] == [];
      AtEndIff(all, 0);
      while n < index && at < |text|
        invariant n <= |all| && n <= index && text == Encode(all)
        invariant at == |Encode(all[..n])| && at <= |text| && (at == |text| <==> n == |all|)
        decreases index - n
      {
        CharAt(all, n);
        at := at + LeadWidth(text[at]);
        n := n + 1;
        AtEndIff(all, n);
      }
      cursor := at;
      PrefixSplit(all, n);
      assert all[..n] + all[n..] == all;
      if index >= |all| {
        assert n == |all|;
        assert all[..n] == all && all[n..] == [];
      }
      RepresentsView(Zipper(all[..n], all[n..]));
    }

    method InsertChar(ch: char)
      requires Valid()
      modifies this
      ensures Valid() && View() == Step(old(View()), Edit.InsertChar(ch))
    {
      hide Decode, Encode, Unit;
      ghost var z := View();
      ViewRepresents();
      text := text[..cursor] + Unit(ch) + text[cursor..];
      cursor := cursor + Width(ch);
      EncodeSnoc(z.left, ch);
      RepresentsView(Zipper(z.left + [ch], z.right));
    }

    method InsertStr(value: string)
      requires Valid()
      modifies this
      ensures Valid() && View() == Step(old(View()), Edit.InsertStr(value))
    {
      hide Decode, Encode, Unit;
      ghost var z := View();
      ViewRepresents();
      text := text[..cursor] + Encode(value) + text[cursor..];
      cursor := cursor + |Encode(value)|;
      EncodeConcat(z.left, value);
      RepresentsView(Zipper(z.left + value, z.right));
    }

    /** Walks back over continuation bytes to the start of the character before the cursor. */
    method PreviousBoundary() returns (previous: Option<nat>)
      requires Valid()
      ensures previous.None? <==> View().left == []
      ensures previous.Some? ==>
        previous.value == |Encode(View().left[..|View().left| - 1])| && previous.value < cursor
    {
      hide Decode, Encode, Unit;
      ghost var z := View();
      ViewRepresents();
      EncodeEmpty();
      if cursor == 0 {
        EmptyIff(z.left);
        return None;
      }
      SplitLeft(z);
      ghost var start := |Encode(z.left[..|z.left| - 1])|;
      ghost var u := Unit(z.left[|z.left| - 1]);
      assert forall i :: start <= i < cursor ==> text[i] == u[i - start];
      var at := cursor - 1;
      while IsContinuation(text[at])
        invariant start <= at < cursor <= |text|
        decreases at
      {
        at := at - 1;
      }
      return Some(at);
    }

    /** Steps over the character after the cursor by the width its first byte announces. */
    method NextBoundary() returns (next: Option<nat>)
      requires Valid()
      ensures next.None? <==> View().right == []
      ensures next.Some? ==>
        next.value == cursor + Width(View().right[0]) && next.value <= |text|
    {
      hide Decode, Encode, Unit, StartsWell;
      ghost var z := View();
      ViewRepresents();
      EncodeEmpty();
      EmptyIff(z.right);
      if cursor == |text| {
        return None;
      }
      CharAt(z.right, 0);
      EncodeHead(z.right);
      assert z.right[..0] == [];
      assert text[cursor] == Encode(z.right)[0];
      return Some(cursor + LeadWidth(text[cursor]));
    }

    method Backspace()
      requires Valid()
      modifies this
      ensures Valid() && View() == Step(old(View()), Edit.Backspace)
    {
      hide Decode, Encode, Unit;
      ghost var z := View();
      ViewRepresents();
      var previous := PreviousBoundary();
      if previous.Some? {
        SplitLeft(z);
        text := text[..previous.value] + text[cursor..];
        cursor := previous.value;
        RepresentsView(Zipper(z.left[..|z.left| - 1], z.right));
      }
    }

    method Delete()
      requires Valid()
      modifies this`text
      ensures Valid() && View() == Step(old(View()), Edit.Delete)
    {
      hide Decode, Encode, Unit;
      ghost var z := View();
      ViewRepresents();
      var next := NextBoundary();
      if next.Some? {
        EncodeHead(z.right);
        text := text[..cursor] + text[next.value..];
        RepresentsView(Zipper(z.left, z.right[1..]));
      }
    }

    method MoveLeft()
      requires Valid()
      modifies this`cursor
      ensures Valid() && View() == Step(old(View()), Edit.MoveLeft)
    {
      hide Decode, Encode, Unit;
      ghost var z := View();
      ViewRepresents();
      var previous := PreviousBoundary();
      if previous.Some? {
        SplitLeft(z);
        cursor := previous.value;
        ghost var right := [z.left[|z.left| - 1]] + z.right;
        EncodeHead(right);
        assert right[1..] == z.right;
        RepresentsView(Zipper(z.left[..|z.left| - 1], right));
      }
    }

    method MoveRight()
      requires Valid()
      modifies this`cursor
      ensures Valid() && View() == Step(old(View()), Edit.MoveRight)
    {
      hide Decode, Encode, Unit;
      ghost var z := View();
      ViewRepresents();
      var next := NextBoundary();
      if next.Some? {
        EncodeHead(z.right);
        EncodeSnoc(z.left, z.right[0]);
        cursor := next.value;
        RepresentsView(Zipper(z.left + [z.right[0]], z.right[1..]));
      }
    }

    method MoveHome()
      requires Valid()
      modifies this`cursor
      ensures Valid() && View() == Step(old(View()), Edit.MoveHome)
    {
      hide Decode, Encode, Unit;
      ghost var z := View();
      ViewRepresents();
      EncodeConcat(z.left, z.right);
      EncodeEmpty();
      cursor := 0;
      RepresentsView(Zipper([], z.left + z.right));
    }

    method MoveEnd()
      requires Valid()
      modifies this`cursor
      ensures Valid() && View() == Step(old(View()), Edit.MoveEnd)
    {
      hide Decode, Encode, Unit;
      ghost var z := View();
      ViewRepresents();
      EncodeConcat(z.left, z.right);
      EncodeEmpty();
      cursor := |text|;
      RepresentsView(Zipper(z.left + z.right, []));
    }

    method DisplayWithCursor() returns (rendered: Bytes)
      requires Valid()
      ensures Decode(rendered) == Some(View().left + ['|'] + View().right)
    {
      hide Decode, Encode, Unit;
      ghost var z := View();
      ViewRepresents();
      rendered := text[..cursor] + Unit('|') + text[cursor..];
      EncodeSnoc(z.left, '|');
      EncodeConcat(z.left + ['|'], z.right);
      DecodeEncode(z.left + ['|'] + z.right);
    }

    method Perform(e: Edit)
      requires Valid()
      modifies this
      ensures Valid() && View() == Step(old(View()), e)
    {
      hide Decode, Encode;
      match e
      case SetText(value) => SetText(value);
      case SetCursor(index) => SetCursorCharIndex(index);
      case InsertChar(ch) => InsertChar(ch);
      case InsertStr(value) => InsertStr(value);
      case Backspace => Backspace();
      case Delete => Delete();
      case MoveLeft => MoveLeft();
      case MoveRight => MoveRight();
      case MoveHome => MoveHome();
      case MoveEnd => MoveEnd();
    }

    /** Any run of edits on the bytes is the same run on the characters. */
    method Replay(edits: seq<Edit>)
      requires Valid()
      modifies this
      ensures Valid() && View() == Run(old(View()), edits)
      ensures Represents(text, cursor, Run(old(View()), edits))
    {
      hide Decode, Encode, Step;
      for n := 0 to |edits|
        invariant Valid() && Run(View(), edits[n..]) == Run(old(View()), edits)
      {
        Perform(edits[n]);
        assert edits[n..][1..] == edits[n + 1..];
      }
      assert edits[|edits|..] == [];
      ViewRepresents();
    }

    /** Typing a string and backspacing once per character leaves every byte where it was. */
    method TypeAndTakeBack(value: string)
      requires Valid()
      modifies this
      ensures Valid() && text == old(text) && cursor == old(cursor)
    {
      hide Decode, Encode, Step;
      ViewRepresents();
      InsertThenBackspaces(View(), value);
      Replay([Edit.InsertStr(value)] + Times(Edit.Backspace, |value|));
    }
  }

  lemma EncodeEmpty()
    ensures Encode([]) == []
  {
  }

  lemma EncodeHead(s: string)
    requires s != []
    ensures Encode(s) == Unit(s[0]) + Encode(s[1..])
  {
  }

  lemma EmptyIff(s: string)
    ensures Encode(s) == [] <==> s == []
  {
    hide Unit;
  }

  lemma PrefixSplit(s: string, n: nat)
    requires n <= |s|
    ensures Encode(s) == Encode(s[..n]) + Encode(s[n..])
  {
    hide Encode;
    EncodeConcat(s[..n], s[n..]);
    assert s == s[..n] + s[n..];
  }

  lemma AtEndIff(s: string, n: nat)
    requires n <= |s|
    ensures |Encode(s[..n])| <= |Encode(s)|
    ensures |Encode(s[..n])| == |Encode(s)| <==> n == |s|
  {
    hide Encode;
    PrefixSplit(s, n);
    EmptyIff(s[n..]);
  }

  /** The byte where character `n` starts announces its width. */
  lemma CharAt(s: string, n: nat)
    requires n < |s|
    ensures |Encode(s[..n])| < |Encode(s)|
    ensures LeadWidth(Encode(s)[|Encode(s[..n])|]) == Width(s[n])
    ensures |Encode(s[..n + 1])| == |Encode(s[..n])| + Width(s[n])
  {
    hide Encode, Unit, StartsWell, Decode;
    PrefixSplit(s, n);
    EncodeHead(s[n..]);
    UnitStartsWell(s[n], Encode(s[n + 1..]));
    assert s[n..][1..] == s[n + 1..];
    EncodeSnoc(s[..n], s[n]);
    assert s[..n] + [s[n]] == s[..n + 1];
  }
}
