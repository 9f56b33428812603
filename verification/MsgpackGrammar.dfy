/**
 * The MessagePack grammar (the "Formats" section of the MessagePack specification), written
 * as a printer from syntax trees to bytes.  Nothing here mentions the scanner: a byte string
 * is a MessagePack value exactly when it is the encoding of some well-formed tree.
 */
module MsgpackGrammar {
  import opened Common

  /** How many header bytes hold a length: none (inside the marker), or 1, 2 or 4. */
  datatype Length = Fix | L8 | L16 | L32

  datatype IntFormat = PosFix | NegFix | Unsigned(width: nat) | Signed(width: nat)

  /** One MessagePack value; `format` fields record which of the alternative headers is used. */
  datatype Value =
    | Nil
    | Bool(b: bool)
    | Int(format: IntFormat, n: int)
    | Float(bits: Bytes)
    | Str(header: Length, data: Bytes)
    | Bin(header: Length, data: Bytes)
    | Array(header: Length, items: seq<Value>)
    | Map(header: Length, items: seq<Value>)  // keys and values alternate
    | Ext(header: Length, tag: byte, data: Bytes)

  function Pow256(k: nat): (r: nat)
    ensures r >= 1
  {
    if k == 0 then 1 else 256 * Pow256(k - 1)
  }

  function BigEndian(n: nat, k: nat): (s: Bytes)
    requires n < Pow256(k)
    ensures |s| == k
    decreases k
  {
    if k == 0 then [] else BigEndian(n / 256, k - 1) + [(n % 256) as byte]
  }

  function FromBigEndian(s: Bytes): (n: nat)
    ensures n < Pow256(|s|)
  {
    if s == [] then 0 else 256 * FromBigEndian(s[..|s| - 1]) + s[|s| - 1] as nat
  }

  lemma {:induction false} BigEndianOfBytes(s: Bytes)
    ensures BigEndian(FromBigEndian(s), |s|) == s
  {
    if s != [] {
      BigEndianOfBytes(s[..|s| - 1]);
      assert s == s[..|s| - 1] + [s[|s| - 1]];
    }
  }

  lemma {:induction false} BytesOfBigEndian(n: nat, k: nat)
    requires n < Pow256(k)
    ensures FromBigEndian(BigEndian(n, k)) == n
    decreases k
  {
    if k > 0 {
      var s := BigEndian(n, k);
      BytesOfBigEndian(n / 256, k - 1);
      assert s[..|s| - 1] == BigEndian(n / 256, k - 1);
    }
  }

  /** The number of length bytes after the marker. */
  function LengthWidth(l: Length): (w: nat)
    ensures w <= 4
  {
    match l
    case Fix => 0
    case L8 => 1
    case L16 => 2
    case L32 => 4
  }

  /** Two's complement of `n` in `k` bytes. */
  function TwosComplement(n: int, k: nat): (r: nat)
    requires 0 <= 2 * n + Pow256(k) && 2 * n < Pow256(k)
    ensures r < Pow256(k)
  {
    if n >= 0 then n else n + Pow256(k)
  }

  /** Width, range and header choices that the specification allows. */
  ghost predicate WellFormed(v: Value)
  {
    match v
    case Nil => true
    case Bool(_) => true
    case Int(format, n) => IntInRange(format, n)
    case Float(bits) => |bits| == 4 || |bits| == 8
    case Str(h, data) => |data| < if h == Fix then 32 else Pow256(LengthWidth(h))
    case Bin(h, data) => h != Fix && |data| < Pow256(LengthWidth(h))
    case Array(h, items) =>
      && h != L8 && |items| < (if h == Fix then 16 else Pow256(LengthWidth(h)))
      && WellFormedAll(items)
    case Map(h, items) =>
      && h != L8 && |items| % 2 == 0 && |items| / 2 < (if h == Fix then 16 else Pow256(LengthWidth(h)))
      && WellFormedAll(items)
    case Ext(h, _, data) =>
      if h == Fix then |data| in {1, 2, 4, 8, 16} else |data| < Pow256(LengthWidth(h))
  }

  predicate IntInRange(format: IntFormat, n: int)
  {
    match format
    case PosFix => 0 <= n < 128
    case NegFix => -32 <= n < 0
    case Unsigned(w) => w in {1, 2, 4, 8} && 0 <= n < Pow256(w)
    case Signed(w) => w in {1, 2, 4, 8} && 0 <= 2 * n + Pow256(w) && 2 * n < Pow256(w)
  }

  ghost predicate WellFormedAll(vs: seq<Value>)
  {
    vs == [] || (WellFormed(vs[0]) && WellFormedAll(vs[1..]))
  }

  /** Every encoding is a marker byte, the bytes of an explicit length, and a payload. */
  ghost function Encode(v: Value): (s: Bytes)
    requires WellFormed(v)
    ensures |s| >= 1
    decreases v, 1
  {
    [Marker(v)] + LengthField(v) + Payload(v)
  }

  ghost function EncodeAll(vs: seq<Value>): (s: Bytes)
    requires WellFormedAll(vs)
    ensures |s| >= |vs|
    decreases vs
  {
    if vs == [] then [] else Encode(vs[0]) + EncodeAll(vs[1..])
  }

  ghost function Marker(v: Value): byte
    requires WellFormed(v)
  {
    match v
    case Nil => 0xc0
    case Bool(b) => if b then 0xc3 else 0xc2
    case Int(format, n) => IntMarker(format, n)
    case Float(bits) => if |bits| == 4 then 0xca else 0xcb
    case Str(h, data) => if h == Fix then (0xa0 + |data|) as byte else Pick(h, 0xd9, 0xda, 0xdb)
    case Bin(h, data) => Pick(h, 0xc4, 0xc5, 0xc6)
    case Array(h, items) => if h == Fix then (0x90 + |items|) as byte else Pick(h, 0, 0xdc, 0xdd)
    case Map(h, items) => if h == Fix then (0x80 + |items| / 2) as byte else Pick(h, 0, 0xde, 0xdf)
    case Ext(h, _, data) => if h == Fix then FixExtMarker(|data|) else Pick(h, 0xc7, 0xc8, 0xc9)
  }

  function IntMarker(format: IntFormat, n: int): byte
    requires IntInRange(format, n)
  {
    match format
    case PosFix => n as byte
    case NegFix => (256 + n) as byte
    case Unsigned(w) => if w == 1 then 0xcc else if w == 2 then 0xcd else if w == 4 then 0xce else 0xcf
    case Signed(w) => if w == 1 then 0xd0 else if w == 2 then 0xd1 else if w == 4 then 0xd2 else 0xd3
  }

  function Pick(l: Length, m8: byte, m16: byte, m32: byte): byte
  {
    if l == L8 then m8 else if l == L16 then m16 else m32
  }

  function FixExtMarker(n: nat): (m: byte)
    requires n in {1, 2, 4, 8, 16}
  {
    if n == 1 then 0xd4 else if n == 2 then 0xd5 else if n == 4 then 0xd6 else if n == 8 then 0xd7 else 0xd8
  }

  ghost function LengthField(v: Value): (s: Bytes)
    requires WellFormed(v)
  {
    match v
    case Str(h, data) => if h == Fix then [] else BigEndian(|data|, LengthWidth(h))
    case Bin(h, data) => BigEndian(|data|, LengthWidth(h))
    case Array(h, items) => if h == Fix then [] else BigEndian(|items|, LengthWidth(h))
    case Map(h, items) => if h == Fix then [] else BigEndian(|items| / 2, LengthWidth(h))
    case Ext(h, _, data) => if h == Fix then [] else BigEndian(|data|, LengthWidth(h))
    case _ => []
  }

  ghost function Payload(v: Value): (s: Bytes)
    requires WellFormed(v)
    decreases v, 0
  {
    match v
    case Int(Unsigned(w), n) => BigEndian(n, w)
    case Int(Signed(w), n) => BigEndian(TwosComplement(n, w), w)
    case Float(bits) => bits
    case Str(_, data) => data
    case Bin(_, data) => data
    case Array(_, items) => EncodeAll(items)
    case Map(_, items) => EncodeAll(items)
    case Ext(_, tag, data) => [tag] + data
    case _ => []
  }

  /** The values in a tree, counting every container and every element. */
  ghost function Count(v: Value): (n: nat)
    ensures n >= 1
  {
    if v.Array? || v.Map? then 1 + CountAll(v.items) else 1
  }

  ghost function CountAll(vs: seq<Value>): (n: nat)
    ensures n >= |vs|
  {
    if vs == [] then 0 else Count(vs[0]) + CountAll(vs[1..])
  }

  /** The depth of the deepest value, where `v` itself is at depth 0. */
  ghost function Depth(v: Value): nat
  {
    if v.Array? || v.Map? then DepthAll(v.items) else 0
  }

  /** One more than the depth of the deepest of `vs`, or 0 for none. */
  ghost function DepthAll(vs: seq<Value>): nat
  {
    if vs == [] then 0 else
      var first, rest := 1 + Depth(vs[0]), DepthAll(vs[1..]);
      if first < rest then rest else first
  }

  /** No container holds more than `max` elements; a map entry is two elements. */
  ghost predicate ContainersWithin(v: Value, max: nat)
  {
    v.Array? || v.Map? ==> |v.items| <= max && ContainersWithinAll(v.items, max)
  }

  ghost predicate ContainersWithinAll(vs: seq<Value>, max: nat)
  {
    vs == [] || (ContainersWithin(vs[0], max) && ContainersWithinAll(vs[1..], max))
  }

  /**
   * The bytes charged against the scalar limit: strings, binaries, and length-prefixed
   * extensions with their tag byte.  Numbers and fixed-size extensions are never charged.
   */
  function ScalarCharge(v: Value): nat
  {
    match v
    case Str(_, data) => |data|
    case Bin(_, data) => |data|
    case Ext(h, _, data) => if h == Fix then 0 else |data| + 1
    case _ => 0
  }

  ghost predicate ScalarsWithin(v: Value, max: nat)
  {
    ScalarCharge(v) <= max && (v.Array? || v.Map? ==> ScalarsWithinAll(v.items, max))
  }

  ghost predicate ScalarsWithinAll(vs: seq<Value>, max: nat)
  {
    vs == [] || (ScalarsWithin(vs[0], max) && ScalarsWithinAll(vs[1..], max))
  }
}
