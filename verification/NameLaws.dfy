/** Exactly which ids are safe and which names read as transactions (src/plugins.rs), character by character. */
module NameLaws {
  import opened Common
  import opened PluginNames
  import opened Decimal

  /** A safe id is one path component of ASCII letters, digits, `-`, `.` and `_` that leads nowhere else. */
  lemma SafeIdIff(id: string)
    ensures IsSafeId(id) <==>
            && 0 < |id| && id != ['.'] && id != ['.', '.']
            && forall i :: 0 <= i < |id| ==>
                 var c := id[i] as int; 48 <= c <= 57 || 65 <= c <= 90 || 97 <= c <= 122 || c in {45, 46, 95}
  {
  }

  // ---------- Numbers ----------

  /** Decimal digits with an optional plus sign, for a value of at most `max`. */
  ghost predicate IsNumber(s: string, max: nat)
  {
    exists digits ::
      && (s == digits || s == ['+'] + digits) && 0 < |digits|
      && (forall i :: 0 <= i < |digits| ==> 48 <= digits[i] as int <= 57)
      && AllDigits(digits) && Value(digits) <= max
  }

  lemma ParsesIff(s: string, max: nat)
    ensures Parse(s, max).Some? <==> IsNumber(s, max)
  {
    var digits := if s != [] && s[0] == '+' then s[1..] else s;
    if Parse(s, max).Some? {
      assert s == digits || s == ['+'] + digits;
    }
    if IsNumber(s, max) {
      var d :| (s == d || s == ['+'] + d) && 0 < |d| && (forall i :: 0 <= i < |d| ==> 48 <= d[i] as int <= 57)
               && AllDigits(d) && Value(d) <= max;
      assert d == digits;
    }
  }

  /** A numeral has no leading zero. */
  lemma {:induction false} ShowIsCanonical(n: nat)
    ensures Show(n)[0] == '0' <==> n == 0
    ensures n == 0 ==> Show(n) == "0"
  {
    if n >= 10 {
      ShowIsCanonical(n / 10);
    }
  }

  // ---------- Hexadecimal ----------

  /** Ids are written in lower case, and upper case is read alike. */
  lemma HexCases(d: nat, c: char)
    requires d < 16
    ensures 48 <= HexDigit(d) as int <= 57 || 97 <= HexDigit(d) as int <= 102
    ensures HexValue(HexDigit(d)) == Some(d)
    ensures 65 <= c as int <= 70 ==> HexValue(c) == HexValue((c as int + 32) as char)
    ensures HexValue(c).Some? <==> 48 <= c as int <= 57 || 65 <= c as int <= 70 || 97 <= c as int <= 102
  {
  }

  /** Every character of the id is written as two digits, the high one first. */
  lemma {:induction false} EncodedAt(id: string, i: nat)
    requires (forall k :: 0 <= k < |id| ==> id[k] < 128 as char) && i < |id|
    ensures HexValue(EncodedId(id)[2 * i]) == Some(id[i] as int / 16)
    ensures HexValue(EncodedId(id)[2 * i + 1]) == Some(id[i] as int % 16)
  {
    hide HexValue, HexDigit;
    HexCases(id[0] as int / 16, 'a');
    HexCases(id[0] as int % 16, 'a');
    if i > 0 {
      EncodedAt(id[1..], i - 1);
      assert EncodedId(id)[2..] == EncodedId(id[1..]);
    }
  }

  // ---------- Transaction names ----------

  function JoinDots(parts: seq<string>): string
    requires parts != []
  {
    if |parts| == 1 then parts[0] else parts[0] + "." + JoinDots(parts[1..])
  }

  lemma {:induction false} SplitIsJoin(s: string)
    ensures JoinDots(SplitDots(s)) == s && forall i :: 0 <= i < |SplitDots(s)| ==> NoDot(SplitDots(s)[i])
  {
    if s != "" {
      SplitIsJoin(s[1..]);
      var rest, parts := SplitDots(s[1..]), SplitDots(s);
      assert parts[1..] == if s[0] == '.' then rest else rest[1..];
      assert s == [s[0]] + s[1..];
    }
  }

  /** A transaction name: prefix, hexadecimal id, and numbers of at most 32, 64 and 128 bits. */
  ghost predicate Spells(name: string, prefix: string, id: string, code: string, a: string, b: string, c: string)
  {
    && name == prefix + (code + "." + (a + "." + (b + "." + c)))
    && NoDot(code) && NoDot(a) && NoDot(b) && NoDot(c)
    && IsNumber(a, 0xffff_ffff) && IsNumber(b, 0xffff_ffff_ffff_ffff)
    && IsNumber(c, 0xffff_ffff_ffff_ffff_ffff_ffff_ffff_ffff)
    && |code| == 2 * |id| && DecodedId(code) == Some(id) && IsSafeId(id)
  }

  /** Recovery takes exactly these names for transactions of `id`. */
  lemma ReadsIff(name: string, prefix: string, id: string)
    ensures IdOf(name, prefix) == Some(id) <==> exists code, a, b, c :: Spells(name, prefix, id, code, a, b, c)
  {
    hide SplitDots, DecodedId, IsSafeId, Parse, IsNumber;
    if IdOf(name, prefix) == Some(id) {
      var rest := name[|prefix|..];
      var parts := SplitDots(rest);
      SplitIsJoin(rest);
      JoinFour(parts);
      DecodedLength(parts[0]);
      ParsesIff(parts[1], U32_MAX);
      ParsesIff(parts[2], U64_MAX);
      ParsesIff(parts[3], U128_MAX);
      assert name == prefix + rest;
      assert Spells(name, prefix, id, parts[0], parts[1], parts[2], parts[3]);
    }
    if exists code, a, b, c :: Spells(name, prefix, id, code, a, b, c) {
      var code, a, b, c :| Spells(name, prefix, id, code, a, b, c);
      SpelledReads(name, prefix, id, code, a, b, c);
    }
  }

  lemma JoinFour(parts: seq<string>)
    requires |parts| == 4
    ensures JoinDots(parts) == parts[0] + "." + (parts[1] + "." + (parts[2] + "." + parts[3]))
  {
    assert parts[1..][1..] == parts[2..] && parts[2..][1..] == parts[3..];
    assert JoinDots(parts[2..]) == parts[2] + "." + parts[3];
  }

  lemma SpelledReads(name: string, prefix: string, id: string, code: string, a: string, b: string, c: string)
    requires Spells(name, prefix, id, code, a, b, c)
    ensures IdOf(name, prefix) == Some(id)
  {
    hide SplitDots, DecodedId, Parse, IsNumber;
    assert name[|prefix|..] == code + "." + (a + "." + (b + "." + c));
    SplitLast(c);
    SplitField(b, c);
    SplitField(a, b + "." + c);
    SplitField(code, a + "." + (b + "." + c));
    ParsesIff(a, U32_MAX);
    ParsesIff(b, U64_MAX);
    ParsesIff(c, U128_MAX);
  }
}
