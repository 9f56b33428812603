/**
 * The MessagePack preflight scanner (src/msgpack.rs).  `ScanValue` says what one pass over the
 * bytes decides; it is proved sound and complete against MsgpackGrammar, and the scanner
 * object, which moves its own offset and value counter, is proved to compute it.
 */
module Msgpack {
  import opened Common
  import opened MsgpackGrammar

  datatype Limits = Limits(scalarBytes: nat, containerItems: nat, totalValues: nat, nestingDepth: nat)

  datatype Error =
    | ByteLimit | NestingLimit | ValueLimit | ReservedMarker | ContainerLimit
    | ScalarLimit | LengthOverflow | Truncated | Trailing

  /**
   * What a marker byte announces: a payload of `skip` bytes; a payload of `fixed` bytes more than
   * the length in the next `width` bytes; or that many elements, twice over for the `pairs` of a map.
   */
  datatype Shape =
    | Leaf(skip: nat)
    | Scalar(width: nat, fixed: nat)
    | Container(width: nat, fixed: nat, pairs: bool)
    | Reserved

  function ShapeOf(m: byte): (r: Shape)
    ensures r.Scalar? || r.Container? ==> r.width <= 4
    ensures r.Container? ==> r.fixed < 16
    ensures r.Scalar? ==> r.fixed < 32
  {
    if m <= 0x7f || m == 0xc0 || m == 0xc2 || m == 0xc3 || 0xe0 <= m then Leaf(0)
    else if m <= 0x8f then Container(0, m as nat - 0x80, true)
    else if m <= 0x9f then Container(0, m as nat - 0x90, false)
    else if m <= 0xbf then Scalar(0, m as nat - 0xa0)
    else if m == 0xc1 then Reserved
    else if m <= 0xc6 then Scalar(Wide(m as nat - 0xc4), 0)
    else if m <= 0xc9 then Scalar(Wide(m as nat - 0xc7), 1)
    else if m <= 0xcb then Leaf(if m == 0xca then 4 else 8)
    else if m <= 0xcf then Leaf(Wide(m as nat - 0xcc))
    else if m <= 0xd3 then Leaf(Wide(m as nat - 0xd0))
    else if m <= 0xd8 then Leaf(1 + if m == 0xd8 then 16 else Wide(m as nat - 0xd4))
    else if m <= 0xdb then Scalar(Wide(m as nat - 0xd9), 0)
    else if m <= 0xdd then Container(if m == 0xdc then 2 else 4, 0, false)
    else Container(if m == 0xde then 2 else 4, 0, true)
  }

  function Elements(n: nat, pairs: bool): nat { if pairs then 2 * n else n }

  /** 1, 2, 4 or 8 bytes. */
  function Wide(i: nat): (w: nat)
    ensures w in {1, 2, 4, 8} && (i <= 2 ==> w <= 4)
  {
    if i == 0 then 1 else if i == 1 then 2 else if i == 2 then 4 else 8
  }

  datatype Progress = Progress(offset: nat, values: nat)

  type Outcome = Result<Progress, Error>

  ghost function ScanValue(s: Bytes, lim: Limits, depth: nat, p: Progress): (r: Outcome)
    requires p.offset <= |s|
    ensures r.Ok? ==> p.offset < r.value.offset <= |s|
    decreases |s| - p.offset, 0, 0
  {
    if depth > lim.nestingDepth then Err(NestingLimit)
    else if p.values + 1 > lim.totalValues then Err(ValueLimit)
    else if p.offset == |s| then Err(Truncated)
    else
      ScanBody(s, lim, depth, ShapeOf(s[p.offset]), Progress(p.offset + 1, p.values + 1))
  }

  /** What remains of a value after its marker. */
  ghost function ScanBody(s: Bytes, lim: Limits, depth: nat, shape: Shape, q: Progress): (r: Outcome)
    requires q.offset <= |s|
    ensures r.Ok? ==> q.offset <= r.value.offset <= |s|
    decreases |s| - q.offset, 2, 0
  {
    match shape
    case Reserved => Err(ReservedMarker)
    case Leaf(skip) => Skip(s, q, skip)
    case Scalar(width, fixed) =>
      if q.offset + width > |s| then Err(Truncated)
      else
        var len := fixed + FromBigEndian(s[q.offset..q.offset + width]);
        if len > lim.scalarBytes then Err(ScalarLimit) else Skip(s, q, width + len)
    case Container(width, fixed, pairs) =>
      if q.offset + width > |s| then Err(Truncated)
      else
        var items := Elements(fixed + FromBigEndian(s[q.offset..q.offset + width]), pairs);
        if items > lim.containerItems then Err(ContainerLimit)
        else ScanItems(s, lim, depth + 1, items, q.(offset := q.offset + width))
  }

  ghost function Skip(s: Bytes, p: Progress, n: nat): Outcome
  {
    if p.offset + n > |s| then Err(Truncated) else Ok(p.(offset := p.offset + n))
  }

  ghost function ScanItems(s: Bytes, lim: Limits, depth: nat, items: nat, p: Progress): (r: Outcome)
    requires p.offset <= |s|
    ensures r.Ok? ==> p.offset <= r.value.offset <= |s|
    decreases |s| - p.offset, 1, items
  {
    if items == 0 then Ok(p)
    else
      var first := ScanValue(s, lim, depth, p);
      if first.Err? then first else ScanItems(s, lim, depth, items - 1, first.value)
  }

  /** The tree `v` sits at depth `depth` below `used` values already counted, within every limit. */
  ghost predicate Admits(lim: Limits, depth: nat, used: nat, v: Value)
  {
    && depth + Depth(v) <= lim.nestingDepth
    && used + Count(v) <= lim.totalValues
    && ContainersWithin(v, lim.containerItems)
    && ScalarsWithin(v, lim.scalarBytes)
  }

  ghost predicate AdmitsAll(lim: Limits, depth: nat, used: nat, vs: seq<Value>)
  {
    && (vs != [] ==> depth - 1 + DepthAll(vs) <= lim.nestingDepth)
    && used + CountAll(vs) <= lim.totalValues
    && ContainersWithinAll(vs, lim.containerItems)
    && ScalarsWithinAll(vs, lim.scalarBytes)
  }

  // ---------- Soundness: what the scan accepts is in the grammar ----------

  lemma {:induction false} ScanSound(s: Bytes, lim: Limits, depth: nat, p: Progress) returns (v: Value)
    requires p.offset <= |s|
    requires ScanValue(s, lim, depth, p).Ok?
    ensures WellFormed(v) && Admits(lim, depth, p.values, v)
    ensures var q := ScanValue(s, lim, depth, p).value;
            s[p.offset..q.offset] == Encode(v) && q.values == p.values + Count(v)
    decreases |s| - p.offset, 0, 1
  {
    hide Marker, LengthField, Payload, WellFormed, Admits, AdmitsAll, Count, CountAll, ShapeOf, FromBigEndian,
         Pow256, ScanItems;
    var q := ScanValue(s, lim, depth, p).value;
    var m := s[p.offset];
    var from := p.offset + 1;
    match ShapeOf(m)
    case Leaf(skip) =>
      v := LeafTree(m, s[from..q.offset]);
      Slices(s, p.offset, 0, q.offset);
      NodeAdmits(lim, depth, p.values, v);
    case Scalar(width, fixed) =>
      v := ScalarTree(m, s[from..from + width], s[from + width..q.offset]);
      Slices(s, p.offset, width, q.offset);
      NodeAdmits(lim, depth, p.values, v);
    case Container(_, _, _) =>
      v := ContainerSound(s, lim, depth, p);
  }

  lemma {:induction false} ContainerSound(s: Bytes, lim: Limits, depth: nat, p: Progress) returns (v: Value)
    requires p.offset < |s| && ShapeOf(s[p.offset]).Container?
    requires ScanValue(s, lim, depth, p).Ok?
    ensures WellFormed(v) && Admits(lim, depth, p.values, v)
    ensures var q := ScanValue(s, lim, depth, p).value;
            s[p.offset..q.offset] == Encode(v) && q.values == p.values + Count(v)
    decreases |s| - p.offset, 0, 0
  {
    hide Marker, LengthField, Payload, WellFormed, Admits, AdmitsAll, Count, CountAll, ShapeOf, FromBigEndian,
         Pow256, ScanItems;
    var q := ScanValue(s, lim, depth, p).value;
    var m := s[p.offset];
    var from := p.offset + 1;
    var Container(width, fixed, pairs) := ShapeOf(m);
    var n := FromBigEndian(s[from..from + width]);
    var vs := ItemsSound(s, lim, depth + 1, Elements(fixed + n, pairs), Progress(from + width, p.values + 1));
    v := ContainerTree(m, s[from..from + width], vs);
    Slices(s, p.offset, width, q.offset);
    NodeAdmits(lim, depth, p.values, v);
  }

  lemma NodeAdmits(lim: Limits, depth: nat, used: nat, v: Value)
    requires depth <= lim.nestingDepth && used < lim.totalValues && ScalarCharge(v) <= lim.scalarBytes
    requires v.Array? || v.Map? ==> |v.items| <= lim.containerItems && AdmitsAll(lim, depth + 1, used + 1, v.items)
    ensures Admits(lim, depth, used, v)
    ensures Count(v) == if v.Array? || v.Map? then 1 + CountAll(v.items) else 1
  {
  }

  lemma Slices(s: Bytes, a: nat, width: nat, b: nat)
    requires a + 1 + width <= b <= |s|
    ensures s[a..b] == [s[a]] + s[a + 1..a + 1 + width] + s[a + 1 + width..b]
  {
  }

  lemma {:induction false} ItemsSound(s: Bytes, lim: Limits, depth: nat, items: nat, p: Progress)
    returns (vs: seq<Value>)
    requires p.offset <= |s| && depth > 0 && p.values <= lim.totalValues
    requires ScanItems(s, lim, depth, items, p).Ok?
    ensures |vs| == items && WellFormedAll(vs) && AdmitsAll(lim, depth, p.values, vs)
    ensures var q := ScanItems(s, lim, depth, items, p).value;
            s[p.offset..q.offset] == EncodeAll(vs) && q.values == p.values + CountAll(vs)
    decreases |s| - p.offset, 1, items
  {
    hide ScanValue, Encode, WellFormed;
    if items == 0 {
      vs := [];
    } else {
      var r := ScanValue(s, lim, depth, p).value;
      var q := ScanItems(s, lim, depth, items, p).value;
      var v := ScanSound(s, lim, depth, p);
      var rest := ItemsSound(s, lim, depth, items - 1, r);
      vs := [v] + rest;
      assert vs[0] == v && vs[1..] == rest;
      assert ContainersWithinAll(vs, lim.containerItems);
      assert ScalarsWithinAll(vs, lim.scalarBytes);
      assert p.values + CountAll(vs) <= lim.totalValues;
      assert depth - 1 + DepthAll(vs) <= lim.nestingDepth;
      assert s[p.offset..q.offset] == s[p.offset..r.offset] + s[r.offset..q.offset];
    }
  }

  /** A value with no length field and no elements. */
  lemma LeafTree(m: byte, body: Bytes) returns (v: Value)
    requires ShapeOf(m) == Leaf(|body|)
    ensures !v.Array? && !v.Map? && ScalarCharge(v) == 0
    ensures WellFormed(v) && Marker(v) == m && LengthField(v) == [] && Payload(v) == body
  {
    if m <= 0x7f { v := Int(PosFix, m as int); }
    else if m >= 0xe0 { v := Int(NegFix, m as int - 256); }
    else if m == 0xc0 { v := Nil; }
    else if m <= 0xc3 { v := Bool(m == 0xc3); }
    else if m <= 0xcb { v := Float(body); }
    else if m <= 0xd3 { v := IntTree(m, body); }
    else { v := Ext(Fix, body[0], body[1..]); }
  }

  lemma IntTree(m: byte, body: Bytes) returns (v: Value)
    requires 0xcc <= m <= 0xd3 && ShapeOf(m) == Leaf(|body|)
    ensures v.Int? && WellFormed(v) && Marker(v) == m && Payload(v) == body
  {
    hide Pow256, BigEndian, FromBigEndian;
    var n := FromBigEndian(body);
    BigEndianOfBytes(body);
    if m <= 0xcf {
      v := Int(Unsigned(|body|), n);
    } else {
      v := Int(Signed(|body|), if 2 * n < Pow256(|body|) then n else n - Pow256(|body|));
    }
  }

  lemma ScalarTree(m: byte, header: Bytes, body: Bytes) returns (v: Value)
    requires ShapeOf(m).Scalar? && |header| == ShapeOf(m).width
    requires |body| == ShapeOf(m).fixed + FromBigEndian(header)
    ensures !v.Array? && !v.Map? && ScalarCharge(v) == |body|
    ensures WellFormed(v) && Marker(v) == m && LengthField(v) == header && Payload(v) == body
  {
    hide Pow256, BigEndian, FromBigEndian;
    BigEndianOfBytes(header);
    LengthRoundTrip(Fix, 0);
    var h := LengthOf(|header|);
    if 0xc7 <= m <= 0xc9 {
      v := Ext(h, body[0], body[1..]);
    } else if 0xc4 <= m <= 0xc6 {
      v := Bin(h, body);
    } else {
      v := Str(h, body);
    }
  }

  lemma ContainerTree(m: byte, header: Bytes, vs: seq<Value>) returns (v: Value)
    requires ShapeOf(m).Container? && |header| == ShapeOf(m).width && WellFormedAll(vs)
    requires |vs| == Elements(ShapeOf(m).fixed + FromBigEndian(header), ShapeOf(m).pairs)
    ensures (v.Array? || v.Map?) && v.items == vs && ScalarCharge(v) == 0
    ensures WellFormed(v) && Marker(v) == m && LengthField(v) == header && Payload(v) == EncodeAll(vs)
  {
    hide Pow256, BigEndian, FromBigEndian;
    BigEndianOfBytes(header);
    LengthRoundTrip(Fix, 0);
    var h := LengthOf(|header|);
    v := if m <= 0x8f || m >= 0xde then Map(h, vs) else Array(h, vs);
  }

  function LengthOf(width: nat): (h: Length)
    ensures width in {0, 1, 2, 4} ==> LengthWidth(h) == width
  {
    if width == 0 then Fix else if width == 1 then L8 else if width == 2 then L16 else L32
  }

  // ---------- Completeness: what the grammar and the limits allow is accepted ----------

  /** `s` holds the encoding of `t` at `at`. */
  predicate Holds(s: Bytes, at: nat, t: Bytes)
  {
    at + |t| <= |s| && s[at..at + |t|] == t
  }

  lemma HoldsParts(s: Bytes, at: nat, a: Bytes, b: Bytes)
    requires Holds(s, at, a + b)
    ensures Holds(s, at, a) && Holds(s, at + |a|, b)
  {
    var t := a + b;
    assert s[at..at + |a|] == t[..|a|];
    assert s[at + |a|..at + |t|] == t[|a|..];
  }

  lemma {:induction false} ScanComplete(s: Bytes, lim: Limits, depth: nat, p: Progress, v: Value)
    requires WellFormed(v) && Admits(lim, depth, p.values, v)
    requires Holds(s, p.offset, Encode(v))
    ensures ScanValue(s, lim, depth, p) == Ok(Progress(p.offset + |Encode(v)|, p.values + Count(v)))
    decreases v, if v.Array? || v.Map? then 1 + |v.items| else 0
  {
    hide Marker, LengthField, Payload, WellFormed, ShapeOf, FromBigEndian, Pow256, ScanItems;
    var m, l, b := Marker(v), LengthField(v), Payload(v);
    HoldsParts(s, p.offset, [m] + l, b);
    HoldsParts(s, p.offset, [m], l);
    assert s[p.offset..p.offset + 1][0] == m;
    MarkerShape(v);
    if ShapeOf(m).Container? {
      ItemsComplete(s, lim, depth + 1, Progress(p.offset + 1 + |l|, p.values + 1), v, v.items);
    }
  }

  lemma {:induction false} ItemsComplete(s: Bytes, lim: Limits, depth: nat, p: Progress, v: Value, vs: seq<Value>)
    requires depth > 0 && WellFormedAll(vs) && AdmitsAll(lim, depth, p.values, vs)
    requires Holds(s, p.offset, EncodeAll(vs))
    requires forall i :: 0 <= i < |vs| ==> vs[i] < v
    ensures ScanItems(s, lim, depth, |vs|, p) == Ok(Progress(p.offset + |EncodeAll(vs)|, p.values + CountAll(vs)))
    decreases v, |vs|
  {
    hide ScanValue, Encode, WellFormed, Admits, AdmitsAll, Count;
    if vs == [] {
      assert EncodeAll(vs) == [] && CountAll(vs) == 0;
    } else {
      AdmitsParts(lim, depth, p.values, vs);
      HoldsParts(s, p.offset, Encode(vs[0]), EncodeAll(vs[1..]));
      ScanComplete(s, lim, depth, p, vs[0]);
      var q := Progress(p.offset + |Encode(vs[0])|, p.values + Count(vs[0]));
      ItemsComplete(s, lim, depth, q, v, vs[1..]);
    }
  }

  lemma AdmitsParts(lim: Limits, depth: nat, used: nat, vs: seq<Value>)
    requires depth > 0 && vs != [] && AdmitsAll(lim, depth, used, vs)
    ensures Admits(lim, depth, used, vs[0]) && AdmitsAll(lim, depth, used + Count(vs[0]), vs[1..])
  {
  }

  /** The marker announces exactly the length field and payload that follow it. */
  ghost predicate Announced(v: Value)
    requires WellFormed(v)
  {
    match ShapeOf(Marker(v))
    case Reserved => false
    case Leaf(skip) =>
      LengthField(v) == [] && skip == |Payload(v)| && !v.Array? && !v.Map?
    case Scalar(width, fixed) =>
      && |LengthField(v)| == width && !v.Array? && !v.Map?
      && fixed + FromBigEndian(LengthField(v)) == |Payload(v)| == ScalarCharge(v)
    case Container(width, fixed, pairs) =>
      && |LengthField(v)| == width && (v.Array? || v.Map?) && WellFormedAll(v.items)
      && Elements(fixed + FromBigEndian(LengthField(v)), pairs) == |v.items| && Payload(v) == EncodeAll(v.items)
  }

  lemma MarkerShape(v: Value)
    requires WellFormed(v)
    ensures Announced(v)
  {
    hide Pow256, BigEndian, FromBigEndian;
    if v.Array? || v.Map? {
      ContainerShape(v);
    } else if v.Str? || v.Bin? || v.Ext? {
      ScalarShape(v);
    }
  }

  lemma ScalarShape(v: Value)
    requires WellFormed(v) && (v.Str? || v.Bin? || v.Ext?)
    ensures Announced(v)
  {
    hide Pow256, BigEndian, FromBigEndian;
    LengthRoundTrip(v.header, |v.data|);
  }

  lemma ContainerShape(v: Value)
    requires WellFormed(v) && (v.Array? || v.Map?)
    ensures Announced(v)
  {
    hide Pow256, BigEndian, FromBigEndian;
    LengthRoundTrip(v.header, if v.Array? then |v.items| else |v.items| / 2);
  }

  lemma LengthRoundTrip(l: Length, n: nat)
    ensures FromBigEndian([]) == 0
    ensures n < Pow256(LengthWidth(l)) ==> FromBigEndian(BigEndian(n, LengthWidth(l))) == n
  {
    if n < Pow256(LengthWidth(l)) {
      BytesOfBigEndian(n, LengthWidth(l));
    }
  }

  // ---------- The accepted language ----------

  /** `s` is one MessagePack value with nothing after it, inside the five limits. */
  ghost predicate Accepted(s: Bytes, maxBytes: nat, lim: Limits)
  {
    |s| <= maxBytes && exists v :: WellFormed(v) && Encode(v) == s && Admits(lim, 0, 0, v)
  }

  /** The verdict of one pass: the first failing check, or success. */
  ghost function Verdict(s: Bytes, maxBytes: nat, lim: Limits): Result<(), Error>
  {
    if |s| > maxBytes then Err(ByteLimit)
    else
      match ScanValue(s, lim, 0, Progress(0, 0))
      case Err(e) => Err(e)
      case Ok(q) => if q.offset == |s| then Ok(()) else Err(Trailing)
  }

  lemma VerdictDecidesAccepted(s: Bytes, maxBytes: nat, lim: Limits)
    ensures Accepted(s, maxBytes, lim) <==> Verdict(s, maxBytes, lim).Ok?
  {
    hide ScanValue, Encode, WellFormed, Admits;
    var r := ScanValue(s, lim, 0, Progress(0, 0));
    if r.Ok? && r.value.offset == |s| {
      var v := ScanSound(s, lim, 0, Progress(0, 0));
      assert s[0..|s|] == s;
    }
    forall v | WellFormed(v) && Encode(v) == s && Admits(lim, 0, 0, v)
      ensures r.Ok? && r.value.offset == |s|
    {
      assert s[0..|s|] == s;
      ScanComplete(s, lim, 0, Progress(0, 0), v);
    }
  }

  /** No value's encoding is a proper prefix of another's. */
  lemma EncodingsArePrefixFree(v: Value, w: Value)
    requires WellFormed(v) && WellFormed(w)
    requires Encode(v) <= Encode(w)
    ensures Encode(v) == Encode(w)
  {
    hide ScanValue, Encode, WellFormed;
    var s, t := Encode(v), Encode(w);
    var n := |t|;
    var lim := Limits(n, n, n, n);
    BytesBoundTree(v, n);
    BytesBoundTree(w, n);
    assert t[0..|s|] == s && t[0..|t|] == t;
    ScanComplete(t, lim, 0, Progress(0, 0), v);
    ScanComplete(t, lim, 0, Progress(0, 0), w);
  }

  lemma AcceptedIsPrefixFree(s: Bytes, t: Bytes, sBytes: nat, tBytes: nat, sLim: Limits, tLim: Limits)
    requires Accepted(s, sBytes, sLim) && Accepted(t, tBytes, tLim)
    requires s <= t
    ensures s == t
  {
    hide Encode, WellFormed, Admits;
    var v :| WellFormed(v) && Encode(v) == s && Admits(sLim, 0, 0, v);
    var w :| WellFormed(w) && Encode(w) == t && Admits(tLim, 0, 0, w);
    EncodingsArePrefixFree(v, w);
  }

  /** No measure that the limits bound can exceed the length of the encoding. */
  lemma {:induction false} BytesBoundTree(v: Value, n: nat)
    requires WellFormed(v) && |Encode(v)| <= n
    ensures Depth(v) < |Encode(v)| && Count(v) <= |Encode(v)|
    ensures ContainersWithin(v, n) && ScalarsWithin(v, n)
    decreases v
  {
    hide Pow256, BigEndian, Marker;
    if v.Array? || v.Map? {
      BytesBoundAll(v.items, n);
    }
  }

  lemma {:induction false} BytesBoundAll(vs: seq<Value>, n: nat)
    requires WellFormedAll(vs) && |EncodeAll(vs)| <= n
    ensures DepthAll(vs) <= |EncodeAll(vs)| && CountAll(vs) <= |EncodeAll(vs)|
    ensures ContainersWithinAll(vs, n) && ScalarsWithinAll(vs, n)
    decreases vs
  {
    hide Encode, WellFormed;
    if vs != [] {
      BytesBoundTree(vs[0], n);
      BytesBoundAll(vs[1..], n);
    }
  }

  // ---------- The scanner object ----------

  method ValidateMsgpackWithLimits(
    bytes: Bytes, maxBytes: Word, maxScalarBytes: Word, maxContainerItems: Word,
    maxTotalValues: Word, maxNestingDepth: Word)
    returns (r: Result<(), Error>)
    requires |bytes| <= SLICE_MAX
    ensures var lim := Limits(maxScalarBytes, maxContainerItems, maxTotalValues, maxNestingDepth);
            r == Verdict(bytes, maxBytes, lim) && (r.Ok? <==> Accepted(bytes, maxBytes, lim))
  {
    hide Accepted, ScanValue;
    VerdictDecidesAccepted(bytes, maxBytes, Limits(maxScalarBytes, maxContainerItems, maxTotalValues, maxNestingDepth));
    if |bytes| > maxBytes {
      return Err(ByteLimit);
    }
    var scanner := new MsgpackScanner(bytes, maxScalarBytes, maxContainerItems, maxTotalValues, maxNestingDepth);
    r := scanner.Value(0);
    if r.Err? {
      return;
    }
    r := if scanner.offset != |bytes| then Err(Trailing) else Ok(());
  }

  class MsgpackScanner {
    const bytes: Bytes
    const maxScalarBytes: Word
    const maxContainerItems: Word
    const maxTotalValues: Word
    const maxNestingDepth: Word
    var offset: Word
    var values: Word
    /** How many times `Value` has been entered. */
    ghost var calls: nat

    constructor (bytes: Bytes, maxScalarBytes: Word, maxContainerItems: Word, maxTotalValues: Word,
                 maxNestingDepth: Word)
      requires |bytes| <= SLICE_MAX
      ensures Scanning(0) && offset == values == calls == 0 && this.bytes == bytes
      ensures Lim() == Limits(maxScalarBytes, maxContainerItems, maxTotalValues, maxNestingDepth)
    {
      this.bytes := bytes;
      this.maxScalarBytes := maxScalarBytes;
      this.maxContainerItems := maxContainerItems;
      this.maxTotalValues := maxTotalValues;
      this.maxNestingDepth := maxNestingDepth;
      offset, values, calls := 0, 0, 0;
    }

    ghost function Lim(): Limits
    {
      Limits(maxScalarBytes, maxContainerItems, maxTotalValues, maxNestingDepth)
    }

    ghost function At(): Progress
      reads this
    {
      Progress(offset, values)
    }

    /** The bound on the work: one call per byte or per permitted value, and the call that fails. */
    ghost predicate CallsBounded()
      reads this
    {
      calls <= 1 + if |bytes| < maxTotalValues then |bytes| else maxTotalValues
    }

    /** Between values, at depth `depth`: every counted value has consumed a byte. */
    ghost predicate Scanning(depth: nat)
      reads this
    {
      && offset <= |bytes| <= SLICE_MAX
      && depth <= values == calls <= offset
      && values <= maxTotalValues
    }

    /** The result and the new position are those the specification gives. */
    ghost predicate Follows(spec: Outcome, r: Result<(), Error>, depth: nat)
      reads this
    {
      && CallsBounded()
      && match spec
         case Ok(q) => r.Ok? && Scanning(depth) && At() == q
         case Err(e) => r == Err(e)
    }

    method Value(depth: Word) returns (r: Result<(), Error>)
      requires Scanning(depth)
      modifies this
      ensures Follows(ScanValue(bytes, Lim(), depth, old(At())), r, depth)
      decreases |bytes| - offset, 0, 0
    {
      hide ScanBody;
      calls := calls + 1;
      if depth > maxNestingDepth {
        return Err(NestingLimit);
      }
      values := SaturatingAdd(values, 1);
      if values > maxTotalValues {
        return Err(ValueLimit);
      }
      var marker := TakeByte();
      if marker.Err? {
        return Err(marker.error);
      }
      r := Body(marker.value, depth);
    }

    /** The `match` on the marker. */
    method Body(marker: byte, depth: Word) returns (r: Result<(), Error>)
      requires Scanning(depth + 1)
      modifies this
      ensures Follows(ScanBody(bytes, Lim(), depth, ShapeOf(marker), old(At())), r, depth)
      decreases |bytes| - offset, 2, 0
    {
      hide ScanBody;
      ReservedBody(bytes, Lim(), depth, At());
      if marker <= 0x7f || marker == 0xc0 || marker == 0xc2 || marker == 0xc3 || 0xe0 <= marker {
        r := SkipBytes(0, depth);
      } else if marker <= 0x8f {
        r := FixContainer(marker as nat - 0x80, true, depth);
      } else if marker <= 0x9f {
        r := FixContainer(marker as nat - 0x90, false, depth);
      } else if marker <= 0xbf {
        r := FixScalar(marker as nat - 0xa0, depth);
      } else if marker == 0xc1 {
        r := Err(ReservedMarker);
      } else if marker == 0xc4 || marker == 0xd9 {
        r := LongScalar(1, 0, depth);
      } else if marker == 0xc5 || marker == 0xda {
        r := LongScalar(2, 0, depth);
      } else if marker == 0xc6 || marker == 0xdb {
        r := LongScalar(4, 0, depth);
      } else if marker == 0xc7 {
        r := LongScalar(1, 1, depth);
      } else if marker == 0xc8 {
        r := LongScalar(2, 1, depth);
      } else if marker == 0xc9 {
        r := LongScalar(4, 1, depth);
      } else if marker == 0xca || marker == 0xce || marker == 0xd2 {
        r := SkipBytes(4, depth);
      } else if marker == 0xcb || marker == 0xcf || marker == 0xd3 {
        r := SkipBytes(8, depth);
      } else if marker == 0xcc || marker == 0xd0 {
        r := SkipBytes(1, depth);
      } else if marker == 0xcd || marker == 0xd1 || marker == 0xd4 {
        r := SkipBytes(2, depth);
      } else if marker == 0xd5 {
        r := SkipBytes(3, depth);
      } else if marker == 0xd6 {
        r := SkipBytes(5, depth);
      } else if marker == 0xd7 {
        r := SkipBytes(9, depth);
      } else if marker == 0xd8 {
        r := SkipBytes(17, depth);
      } else if marker == 0xdc {
        r := LongContainer(2, false, depth);
      } else if marker == 0xdd {
        r := LongContainer(4, false, depth);
      } else if marker == 0xde {
        r := LongContainer(2, true, depth);
      } else {
        r := LongContainer(4, true, depth);
      }
    }

    /** `container` on a count held in the marker. */
    method FixContainer(n: Word, pairs: bool, depth: Word) returns (r: Result<(), Error>)
      requires Scanning(depth + 1) && n < 16
      modifies this
      ensures Follows(ScanBody(bytes, Lim(), depth, Shape.Container(0, n, pairs), old(At())), r, depth)
      decreases |bytes| - offset, 1, WORD_MAX + 1
    {
      hide ScanItems;
      EmptyLength(bytes[offset..offset]);
      r := Items(if pairs then SaturatingMul(n, 2) else n, depth);
    }

    /** `read_uint` followed by `container`. */
    method LongContainer(width: Word, pairs: bool, depth: Word) returns (r: Result<(), Error>)
      requires Scanning(depth + 1) && width <= 4
      modifies this
      ensures Follows(ScanBody(bytes, Lim(), depth, Shape.Container(width, 0, pairs), old(At())), r, depth)
      decreases |bytes| - offset, 1, WORD_MAX + 1
    {
      hide ScanItems, FromBigEndian;
      var len := ReadUint(width);
      if len.Err? {
        return Err(len.error);
      }
      r := Items(if pairs then SaturatingMul(len.value, 2) else len.value, depth);
    }

    /** `container` */
    method Items(items: Word, depth: Word) returns (r: Result<(), Error>)
      requires Scanning(depth + 1)
      modifies this
      ensures Follows(
                if items > maxContainerItems then Err(ContainerLimit)
                else ScanItems(bytes, Lim(), depth + 1, items, old(At())), r, depth)
      decreases |bytes| - offset, 1, items
    {
      hide ScanValue;
      if items > maxContainerItems {
        return Err(ContainerLimit);
      }
      ghost var spec := ScanItems(bytes, Lim(), depth + 1, items, At());
      for i := 0 to items
        invariant Scanning(depth + 1) && old(offset) <= offset
        invariant spec == ScanItems(bytes, Lim(), depth + 1, items - i, At())
      {
        r := Value(depth + 1);
        if r.Err? {
          return;
        }
      }
      r := Ok(());
    }

    /** `scalar` on a length held in the marker. */
    method FixScalar(len: Word, ghost depth: nat) returns (r: Result<(), Error>)
      requires Scanning(depth + 1) && len <= SLICE_MAX
      modifies this`offset
      ensures Follows(ScanBody(bytes, Lim(), depth, Shape.Scalar(0, len), old(At())), r, depth)
    {
      EmptyLength(bytes[offset..offset]);
      if len > maxScalarBytes {
        return Err(ScalarLimit);
      }
      r := SkipBytes(len, depth);
    }

    /** `read_uint` followed by `scalar`, with `extra` bytes for an extension's tag. */
    method LongScalar(width: Word, extra: Word, ghost depth: nat) returns (r: Result<(), Error>)
      requires Scanning(depth + 1) && width <= 4 && extra <= 1
      modifies this`offset
      ensures Follows(ScanBody(bytes, Lim(), depth, Shape.Scalar(width, extra), old(At())), r, depth)
    {
      hide FromBigEndian;
      var n := ReadUint(width);
      if n.Err? {
        return Err(n.error);
      }
      var len := SaturatingAdd(n.value, extra);
      if len > maxScalarBytes {
        return Err(ScalarLimit);
      }
      r := SkipBytes(len, depth);
    }

    method SkipBytes(len: Word, ghost depth: nat) returns (r: Result<(), Error>)
      requires Scanning(depth + 1) && len <= SLICE_MAX
      modifies this`offset
      ensures Follows(ScanBody(bytes, Lim(), depth, Leaf(len), old(At())), r, depth)
    {
      var taken := Take(len);
      r := if taken.Ok? then Ok(()) else Err(taken.error);
    }

    method Take(len: Word) returns (r: Result<Bytes, Error>)
      requires offset <= |bytes| <= SLICE_MAX
      modifies this`offset
      ensures old(offset) + len <= |bytes| ==>
                r == Ok(bytes[old(offset)..old(offset) + len]) && offset == old(offset) + len
      ensures old(offset) + len > |bytes| ==>
                offset == old(offset) && r == Err(if offset + len > WORD_MAX then LengthOverflow else Truncated)
    {
      if offset + len > WORD_MAX {
        return Err(LengthOverflow);
      }
      var end := offset + len;
      if end > |bytes| {
        return Err(Truncated);
      }
      r := Ok(bytes[offset..end]);
      offset := end;
    }

    method TakeByte() returns (r: Result<byte, Error>)
      requires offset <= |bytes| <= SLICE_MAX
      modifies this`offset
      ensures old(offset) < |bytes| ==> r == Ok(bytes[old(offset)]) && offset == old(offset) + 1
      ensures old(offset) == |bytes| ==> r == Err(Truncated) && offset == old(offset)
    {
      var taken := Take(1);
      r := if taken.Ok? then Ok(taken.value[0]) else Err(taken.error);
    }

    method ReadUint(width: Word) returns (r: Result<Word, Error>)
      requires offset <= |bytes| <= SLICE_MAX && width <= 8
      modifies this`offset
      ensures old(offset) + width <= |bytes| ==>
                && r.Ok? && offset == old(offset) + width
                && r.value == FromBigEndian(bytes[old(offset)..offset])
                && (width <= 4 ==> r.value < 0x1_0000_0000)
      ensures old(offset) + width > |bytes| ==> r == Err(Truncated) && offset == old(offset)
    {
      var taken := Take(width);
      if taken.Err? {
        return Err(taken.error);
      }
      var value := 0;
      for i := 0 to |taken.value|
        invariant value == FromBigEndian(taken.value[..i])
      {
        value := 256 * value + taken.value[i] as nat;
        assert taken.value[..i + 1][..i] == taken.value[..i];
      }
      assert taken.value[..|taken.value|] == taken.value;
      Pow256Word(width);
      r := Ok(value);
    }
  }

  lemma EmptyLength(s: Bytes)
    requires s == []
    ensures FromBigEndian(s) == 0
  {
  }

  lemma ReservedBody(s: Bytes, lim: Limits, depth: nat, p: Progress)
    requires p.offset <= |s|
    ensures ScanBody(s, lim, depth, Reserved, p) == Err(ReservedMarker)
  {
  }

  lemma Pow256Word(k: nat)
    requires k <= 8
    ensures Pow256(k) <= if k <= 4 then 0x1_0000_0000 else WORD_MAX + 1
  {
    assert Pow256(2) == 0x1_0000;
    assert Pow256(4) == 0x1_0000_0000;
    assert Pow256(6) == 0x1_0000_0000_0000;
    assert Pow256(8) == 0x1_0000_0000_0000_0000;
  }
}
