/**
 * UTF-8 (RFC 3629): the encoder of section 3, and a strict decoder written from the syntax of
 * section 4. Each is proved to be the inverse of the other.
 */
module Utf8 {
  import opened Common

  predicate IsContinuation(b: byte) { 0x80 <= b < 0xC0 }

  function Width(c: char): (n: nat)
    ensures 1 <= n <= 4
  {
    if c as int < 0x80 then 1 else if c as int < 0x800 then 2 else if c as int < 0x10000 then 3 else 4
  }

  function Trailing(n: int): (b: byte)
    ensures IsContinuation(b) && b as int == 0x80 + n % 64
  {
    (0x80 + n % 64) as byte
  }

  /** Section 3: the bits of a scalar value spread over one to four bytes. */
  function Unit(c: char): (r: Bytes)
    ensures |r| == Width(c)
    ensures !IsContinuation(r[0]) && forall i :: 1 <= i < |r| ==> IsContinuation(r[i])
  {
    var n := c as int;
    match Width(c)
    case 1 => [n as byte]
    case 2 => [(0xC0 + n / 0x40) as byte, Trailing(n)]
    case 3 => [(0xE0 + n / 0x1000) as byte, Trailing(n / 0x40), Trailing(n)]
    case _ => [(0xF0 + n / 0x40000) as byte, Trailing(n / 0x1000), Trailing(n / 0x40), Trailing(n)]
  }

  function Encode(s: string): (r: Bytes)
  {
    if s == [] then [] else Unit(s[0]) + Encode(s[1..])
  }

  /** How many bytes a leading byte announces; none if it cannot lead. */
  function LeadWidth(b: byte): (n: nat)
    ensures n <= 4
  {
    if b < 0x80 then 1
    else if 0xC2 <= b <= 0xDF then 2
    else if 0xE0 <= b <= 0xEF then 3
    else if 0xF0 <= b <= 0xF4 then 4
    else 0
  }

  /** Section 4: the syntax of one character, with no overlong form, surrogate or value past U+10FFFF. */
  predicate WellFormed(b: Bytes)
  {
    b != [] && |b| == LeadWidth(b[0]) &&
    (forall i :: 1 <= i < |b| ==> IsContinuation(b[i])) &&
    (b[0] == 0xE0 ==> b[1] >= 0xA0) &&
    (b[0] == 0xED ==> b[1] <= 0x9F) &&
    (b[0] == 0xF0 ==> b[1] >= 0x90) &&
    (b[0] == 0xF4 ==> b[1] <= 0x8F)
  }

  function CodePoint(b: Bytes): (n: int)
    requires WellFormed(b)
  {
    match |b|
    case 1 => b[0] as int
    case 2 => (b[0] as int - 0xC0) * 0x40 + (b[1] as int - 0x80)
    case 3 => (b[0] as int - 0xE0) * 0x1000 + (b[1] as int - 0x80) * 0x40 + (b[2] as int - 0x80)
    case _ => (b[0] as int - 0xF0) * 0x40000 + (b[1] as int - 0x80) * 0x1000
              + (b[2] as int - 0x80) * 0x40 + (b[3] as int - 0x80)
  }

  /** The bytes of the first character, if the text starts with one. */
  predicate StartsWell(b: Bytes)
  {
    b != [] && LeadWidth(b[0]) <= |b| && WellFormed(b[..LeadWidth(b[0])])
  }

  lemma CodePointIsScalar(b: Bytes)
    requires WellFormed(b)
    ensures 0 <= CodePoint(b) < 0xD800 || 0xE000 <= CodePoint(b) < 0x11_0000
  {
    if |b| >= 2 { assert IsContinuation(b[1]); }
    if |b| >= 3 { assert IsContinuation(b[2]); }
    if |b| >= 4 { assert IsContinuation(b[3]); }
  }

  function CharOf(b: Bytes): (c: char)
    requires WellFormed(b)
    ensures c as int == CodePoint(b)
  {
    CodePointIsScalar(b);
    CodePoint(b) as char
  }

  /** `String::from_utf8`. */
  function Decode(b: Bytes): (s: Option<string>)
    decreases |b|
  {
    if b == [] then Some([])
    else if !StartsWell(b) then None
    else
      var w := LeadWidth(b[0]);
      match Decode(b[w..])
      case None => None
      case Some(rest) => Some([CharOf(b[..w])] + rest)
  }

  // ---------- One character ----------

  lemma SplitBits(n: nat)
    ensures n == n / 0x40 * 0x40 + n % 64
    ensures n / 0x40 == n / 0x1000 * 0x40 + n / 0x40 % 64
    ensures n / 0x1000 == n / 0x40000 * 0x40 + n / 0x1000 % 64
  {
  }

  /** Trailing groups of six bits can be taken off one after the other. */
  lemma JoinBits(high: nat, low: nat)
    requires low < 64
    ensures (high * 0x40 + low) / 0x40 == high && (high * 0x40 + low) % 64 == low
    ensures (high * 0x40 + low) / 0x1000 == high / 0x40
    ensures (high * 0x40 + low) / 0x40000 == high / 0x1000
  {
  }

  lemma UnitIsWellFormed(c: char)
    ensures WellFormed(Unit(c)) && CodePoint(Unit(c)) == c as int
  {
    var n := c as int;
    var b := Unit(c);
    SplitBits(n);
    if Width(c) == 3 {
      assert b == [(0xE0 + n / 0x1000) as byte, Trailing(n / 0x40), Trailing(n)];
    } else if Width(c) == 4 {
      assert b == [(0xF0 + n / 0x40000) as byte, Trailing(n / 0x1000), Trailing(n / 0x40), Trailing(n)];
    }
  }

  lemma UnitOfCodePoint(b: Bytes)
    requires WellFormed(b)
    ensures Unit(CharOf(b)) == b
  {
    if |b| == 2 {
      assert IsContinuation(b[1]);
      JoinBits(b[0] as int - 0xC0, b[1] as int - 0x80);
    } else if |b| == 3 {
      UnitOfThree(b);
    } else if |b| == 4 {
      UnitOfFour(b);
    }
  }

  lemma UnitOfThree(b: Bytes)
    requires WellFormed(b) && |b| == 3
    ensures Unit(CharOf(b)) == b
  {
    assert IsContinuation(b[1]) && IsContinuation(b[2]);
    JoinBits(b[0] as int - 0xE0, b[1] as int - 0x80);
    JoinBits((b[0] as int - 0xE0) * 0x40 + (b[1] as int - 0x80), b[2] as int - 0x80);
  }

  lemma UnitOfFour(b: Bytes)
    requires WellFormed(b) && |b| == 4
    ensures Unit(CharOf(b)) == b
  {
    assert IsContinuation(b[1]) && IsContinuation(b[2]) && IsContinuation(b[3]);
    JoinBits(b[0] as int - 0xF0, b[1] as int - 0x80);
    JoinBits((b[0] as int - 0xF0) * 0x40 + (b[1] as int - 0x80), b[2] as int - 0x80);
    JoinBits(((b[0] as int - 0xF0) * 0x40 + (b[1] as int - 0x80)) * 0x40 + (b[2] as int - 0x80), b[3] as int - 0x80);
  }

  /** A character followed by anything is read back whole. */
  lemma UnitStartsWell(c: char, rest: Bytes)
    ensures StartsWell(Unit(c) + rest) && LeadWidth((Unit(c) + rest)[0]) == Width(c)
    ensures (Unit(c) + rest)[..Width(c)] == Unit(c) && (Unit(c) + rest)[Width(c)..] == rest
    ensures WellFormed(Unit(c)) && CharOf(Unit(c)) == c
  {
    hide WellFormed, CodePoint, Unit;
    UnitIsWellFormed(c);
    LeadOfWellFormed(Unit(c));
    assert (Unit(c) + rest)[..Width(c)] == Unit(c);
  }

  lemma LeadOfWellFormed(b: Bytes)
    requires WellFormed(b)
    ensures b != [] && LeadWidth(b[0]) == |b|
  {
  }

  // ---------- Whole texts ----------

  lemma {:induction false} DecodeEncode(s: string)
    ensures Decode(Encode(s)) == Some(s)
  {
    hide WellFormed, CodePoint, Unit, StartsWell;
    if s != [] {
      UnitStartsWell(s[0], Encode(s[1..]));
      DecodeEncode(s[1..]);
      assert s == [s[0]] + s[1..];
    }
  }

  lemma {:induction false} EncodeDecode(b: Bytes)
    requires Decode(b).Some?
    ensures Encode(Decode(b).value) == b
    decreases |b|
  {
    hide WellFormed, CodePoint, Unit;
    if b != [] {
      var w := LeadWidth(b[0]);
      LeadOfWellFormed(b[..w]);
      EncodeDecode(b[w..]);
      UnitOfCodePoint(b[..w]);
      assert b == b[..w] + b[w..];
      var s := Decode(b).value;
      assert s[1..] == Decode(b[w..]).value;
    }
  }

  lemma EncodeInjective(s: string, t: string)
    requires Encode(s) == Encode(t)
    ensures s == t
  {
    DecodeEncode(s);
    DecodeEncode(t);
  }

  lemma {:induction false} EncodeConcat(s: string, t: string)
    ensures Encode(s + t) == Encode(s) + Encode(t)
  {
    hide Unit;
    if s == [] {
      assert s + t == t;
    } else {
      EncodeConcat(s[1..], t);
      assert (s + t)[1..] == s[1..] + t;
    }
  }

  lemma EncodeOne(c: char)
    ensures Encode([c]) == Unit(c)
  {
    assert [c][1..] == [];
  }

  lemma EncodeSnoc(s: string, c: char)
    ensures Encode(s + [c]) == Encode(s) + Unit(c)
  {
    EncodeConcat(s, [c]);
    EncodeOne(c);
  }

  // ---------- Character boundaries ----------

  /** `str::is_char_boundary`. */
  predicate IsBoundary(b: Bytes, i: nat)
  {
    i <= |b| && (i < |b| ==> !IsContinuation(b[i]))
  }

  /** In an encoded text the boundaries are exactly the ends of its prefixes of whole characters. */
  lemma {:induction false} BoundaryIff(s: string, i: nat)
    ensures IsBoundary(Encode(s), i) <==> exists k :: 0 <= k <= |s| && i == |Encode(s[..k])|
  {
    hide Unit;
    var b := Encode(s);
    if s == [] {
      assert s[..0] == [];
      assert IsBoundary(b, i) ==> i == |Encode(s[..0])|;
    } else {
      var u := Unit(s[0]);
      assert s[..0] == [];
      if i == 0 {
        assert i == |Encode(s[..0])|;
      } else if i < |u| {
        assert b[i] == u[i];
        forall k | 0 <= k <= |s| ensures i != |Encode(s[..k])| {
          if k > 0 { PrefixStep(s, k); }
        }
      } else {
        BoundaryIff(s[1..], i - |u|);
        assert IsBoundary(b, i) == IsBoundary(Encode(s[1..]), i - |u|);
        if k :| 0 <= k <= |s[1..]| && i - |u| == |Encode(s[1..][..k])| {
          PrefixStep(s, k + 1);
        }
        if k :| 0 <= k <= |s| && i == |Encode(s[..k])| {
          if k > 0 { PrefixStep(s, k); }
        }
      }
    }
  }

  lemma PrefixStep(s: string, k: nat)
    requires 0 < k <= |s|
    ensures Encode(s[..k]) == Unit(s[0]) + Encode(s[1..][..k - 1])
  {
    assert s[..k][1..] == s[1..][..k - 1];
  }
}
