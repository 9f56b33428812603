/**
 * The names of plugin transaction directories (src/plugins.rs): a prefix, the plugin id in
 * hexadecimal, and three numbers that make the name fresh.  Recovery reads the id back.
 */
module PluginNames {
  import opened Common
  import Decimal

  const INSTALL_PREFIX := ".plugin-install-"
  const REMOVE_PREFIX := ".plugin-remove-"

  const U32_MAX: nat := 0xffff_ffff
  const U64_MAX: nat := 0xffff_ffff_ffff_ffff
  const U128_MAX: nat := 0xffff_ffff_ffff_ffff_ffff_ffff_ffff_ffff

  predicate SafeChar(c: char)
  {
    'a' <= c <= 'z' || 'A' <= c <= 'Z' || '0' <= c <= '9' || c == '_' || c == '-' || c == '.'
  }

  predicate IsSafeId(id: string)
  {
    id != "" && id != "." && id != ".." && forall i :: 0 <= i < |id| ==> SafeChar(id[i])
  }

  // ---------- Hexadecimal ----------

  function HexDigit(d: nat): (c: char)
    requires d < 16
  {
    if d < 10 then ('0' as int + d) as char else ('a' as int + d - 10) as char
  }

  function HexValue(c: char): (d: Option<nat>)
    ensures d.Some? ==> d.value < 16
  {
    if '0' <= c <= '9' then Some(c as int - '0' as int)
    else if 'a' <= c <= 'f' then Some(c as int - 'a' as int + 10)
    else if 'A' <= c <= 'F' then Some(c as int - 'A' as int + 10)
    else None
  }

  /** `u8::from_str_radix(_, 16)` on two characters, which accepts a leading `+`. */
  function HexPair(a: char, b: char): (n: Option<nat>)
    ensures n.Some? ==> n.value < 256
  {
    if a == '+' then HexValue(b)
    else if HexValue(a).Some? && HexValue(b).Some? then Some(16 * HexValue(a).value + HexValue(b).value)
    else None
  }

  function EncodedId(id: string): (s: string)
    requires forall i :: 0 <= i < |id| ==> id[i] < 128 as char
    ensures |s| == 2 * |id|
  {
    if id == "" then ""
    else [HexDigit(id[0] as int / 16), HexDigit(id[0] as int % 16)] + EncodedId(id[1..])
  }

  function DecodedId(s: string): Option<string>
    requires |s| % 2 == 0
  {
    if s == "" then Some("")
    else
      var first := HexPair(s[0], s[1]);
      var rest := DecodedId(s[2..]);
      if first.None? || rest.None? then None else Some([first.value as char] + rest.value)
  }

  lemma HexRoundTrip(n: nat)
    requires n < 256
    ensures HexPair(HexDigit(n / 16), HexDigit(n % 16)) == Some(n)
  {
  }

  lemma {:induction false} DecodeEncode(id: string)
    requires forall i :: 0 <= i < |id| ==> id[i] < 128 as char
    ensures DecodedId(EncodedId(id)) == Some(id)
  {
    if id != "" {
      DecodeEncode(id[1..]);
      HexRoundTrip(id[0] as int);
      assert EncodedId(id)[2..] == EncodedId(id[1..]);
      assert id == [id[0]] + id[1..];
    }
  }

  // ---------- Dotted fields ----------

  predicate NoDot(s: string)
  {
    forall i :: 0 <= i < |s| ==> s[i] != '.'
  }

  /** `split('.')` */
  function SplitDots(s: string): (parts: seq<string>)
    ensures parts != []
  {
    if s == "" then [""]
    else
      var rest := SplitDots(s[1..]);
      if s[0] == '.' then [""] + rest else [[s[0]] + rest[0]] + rest[1..]
  }

  lemma {:induction false} SplitField(a: string, rest: string)
    requires NoDot(a)
    ensures SplitDots(a + "." + rest) == [a] + SplitDots(rest)
  {
    if a != "" {
      SplitField(a[1..], rest);
      assert (a + "." + rest)[1..] == a[1..] + "." + rest;
      assert [a[0]] + a[1..] == a;
    } else {
      assert (a + "." + rest)[1..] == rest;
    }
  }

  lemma {:induction false} SplitLast(a: string)
    requires NoDot(a)
    ensures SplitDots(a) == [a]
  {
    if a != "" {
      SplitLast(a[1..]);
      assert [a[0]] + a[1..] == a;
    }
  }

  // ---------- Transaction names ----------

  function TransactionName(prefix: string, id: string, pid: nat, sequence: nat, nanos: nat): string
    requires IsSafeId(id)
  {
    prefix + Fields(EncodedId(id), pid, sequence, nanos)
  }

  function Fields(encoded: string, pid: nat, sequence: nat, nanos: nat): string
  {
    encoded + "." + (Decimal.Show(pid) + "." + (Decimal.Show(sequence) + "." + Decimal.Show(nanos)))
  }

  /** `plugin_id_from_transaction_name` */
  function IdOf(name: string, prefix: string): (id: Option<string>)
    ensures id.Some? ==> IsSafeId(id.value) && prefix <= name
  {
    if !(prefix <= name) then None
    else
      var parts := SplitDots(name[|prefix|..]);
      if |parts| != 4
         || Decimal.Parse(parts[1], U32_MAX).None?
         || Decimal.Parse(parts[2], U64_MAX).None?
         || Decimal.Parse(parts[3], U128_MAX).None?
         || parts[0] == "" || |parts[0]| % 2 != 0
      then None
      else
        var id := DecodedId(parts[0]);
        if id.Some? && IsSafeId(id.value) then id else None
  }

  lemma SplitFields(encoded: string, pid: nat, sequence: nat, nanos: nat)
    requires NoDot(encoded)
    ensures SplitDots(Fields(encoded, pid, sequence, nanos))
         == [encoded, Decimal.Show(pid), Decimal.Show(sequence), Decimal.Show(nanos)]
  {
    hide SplitDots;
    Decimal.ShowDigits(pid);
    Decimal.ShowDigits(sequence);
    Decimal.ShowDigits(nanos);
    var a, b, c := Decimal.Show(pid), Decimal.Show(sequence), Decimal.Show(nanos);
    SplitLast(c);
    SplitField(b, c);
    SplitField(a, b + "." + c);
    SplitField(encoded, a + "." + (b + "." + c));
  }

  lemma {:induction false} EncodedHasNoDot(id: string)
    requires forall i :: 0 <= i < |id| ==> id[i] < 128 as char
    ensures NoDot(EncodedId(id))
  {
    if id != "" {
      EncodedHasNoDot(id[1..]);
    }
  }

  /** Recovery reads back exactly the id that the name was made for. */
  lemma NameRoundTrip(prefix: string, id: string, pid: nat, sequence: nat, nanos: nat)
    requires IsSafeId(id) && pid <= U32_MAX && sequence <= U64_MAX && nanos <= U128_MAX
    ensures IdOf(TransactionName(prefix, id, pid, sequence, nanos), prefix) == Some(id)
  {
    hide SplitDots, DecodedId, Fields, Decimal.Show, Decimal.Parse;
    var encoded := EncodedId(id);
    var name := TransactionName(prefix, id, pid, sequence, nanos);
    assert name[|prefix|..] == Fields(encoded, pid, sequence, nanos);
    EncodedHasNoDot(id);
    SplitFields(encoded, pid, sequence, nanos);
    Decimal.ParseShow(pid, U32_MAX);
    Decimal.ParseShow(sequence, U64_MAX);
    Decimal.ParseShow(nanos, U128_MAX);
    DecodeEncode(id);
  }

  /** No name is both an installation and a removal. */
  lemma PrefixesAreDisjoint(name: string)
    ensures IdOf(name, INSTALL_PREFIX).None? || IdOf(name, REMOVE_PREFIX).None?
  {
    if INSTALL_PREFIX <= name && REMOVE_PREFIX <= name {
      assert name[8] == INSTALL_PREFIX[8] && name[8] == REMOVE_PREFIX[8];
    }
  }

  /** Names made for different ids, processes, sequence numbers or instants differ. */
  lemma NameInjective(prefix: string, id: string, id': string, pid: nat, pid': nat,
                      sequence: nat, sequence': nat, nanos: nat, nanos': nat)
    requires IsSafeId(id) && IsSafeId(id')
    requires TransactionName(prefix, id, pid, sequence, nanos) == TransactionName(prefix, id', pid', sequence', nanos')
    ensures id == id' && pid == pid' && sequence == sequence' && nanos == nanos'
  {
    hide SplitDots, DecodedId, Fields, Decimal.Show;
    var name := TransactionName(prefix, id, pid, sequence, nanos);
    assert name[|prefix|..] == Fields(EncodedId(id), pid, sequence, nanos);
    assert name[|prefix|..] == Fields(EncodedId(id'), pid', sequence', nanos');
    EncodedHasNoDot(id);
    EncodedHasNoDot(id');
    SplitFields(EncodedId(id), pid, sequence, nanos);
    SplitFields(EncodedId(id'), pid', sequence', nanos');
    DecodeEncode(id);
    DecodeEncode(id');
    Decimal.ShowInjective(pid, pid');
    Decimal.ShowInjective(sequence, sequence');
    Decimal.ShowInjective(nanos, nanos');
  }

  /** The two transaction name spaces, as recovery tells them apart. */
  predicate IsStagingName(name: string) { IdOf(name, INSTALL_PREFIX).Some? }
  predicate IsQuarantineName(name: string) { IdOf(name, REMOVE_PREFIX).Some? }

  /** A plugin whose id does not start with a dot can never be mistaken for a transaction. */
  lemma PlainIdsAreNotTransactions(id: string)
    requires IsSafeId(id) && id[0] != '.'
    ensures !IsStagingName(id) && !IsQuarantineName(id)
  {
    assert INSTALL_PREFIX[0] == '.' && REMOVE_PREFIX[0] == '.';
  }

  lemma {:induction false} FirstFieldIsShorter(s: string)
    ensures |SplitDots(s)[0]| <= |s|
  {
    if s != "" {
      FirstFieldIsShorter(s[1..]);
    }
  }

  lemma {:induction false} DecodedLength(s: string)
    requires |s| % 2 == 0 && DecodedId(s).Some?
    ensures 2 * |DecodedId(s).value| == |s|
  {
    if s != "" {
      DecodedLength(s[2..]);
    }
  }

  /** A transaction name is longer than the id in it, so no chain of such names comes back to itself. */
  lemma IdIsShorter(name: string, prefix: string)
    requires IdOf(name, prefix).Some? && prefix != ""
    ensures |IdOf(name, prefix).value| < |name|
  {
    hide SplitDots, DecodedId, IsSafeId;
    var rest := name[|prefix|..];
    FirstFieldIsShorter(rest);
    DecodedLength(SplitDots(rest)[0]);
  }

  /** The id check alone does not rule the confusion out: this safe id reads as a removal of "a". */
  lemma DottedIdReadAsRemoval()
    ensures IsSafeId(".plugin-remove-61.1.1.1") && IdOf(".plugin-remove-61.1.1.1", REMOVE_PREFIX) == Some("a")
  {
    hide SplitDots, IsSafeId, Decimal.Show;
    var id := ".plugin-remove-61.1.1.1";
    ASafe(id);
    ASafe("a");
    assert EncodedId("a") == "61";
    ShowOne();
    assert Fields("61", 1, 1, 1) == "61.1.1.1";
    assert TransactionName(REMOVE_PREFIX, "a", 1, 1, 1) == id;
    NameRoundTrip(REMOVE_PREFIX, "a", 1, 1, 1);
  }

  lemma ASafe(id: string)
    requires id == "a" || id == ".plugin-remove-61.1.1.1"
    ensures IsSafeId(id)
  {
  }

  lemma ShowOne()
    ensures Decimal.Show(1) == "1"
  {
  }
}
