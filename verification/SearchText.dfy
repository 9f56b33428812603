/** Shortening of displayed search text (src/history_search.rs, `bounded_search_text`). */
module SearchText {
  import opened Common
  import opened Utf8

  const ELLIPSIS: char := '\U{2026}'

  /** `r` is the longest prefix of whole characters that leaves room for the ellipsis, then the ellipsis. */
  ghost predicate IsShortened(r: Bytes, s: string, maxBytes: nat)
  {
    exists k :: 0 <= k < |s| && r == Encode(s[..k] + [ELLIPSIS]) &&
      |r| <= maxBytes < |Encode(s[..k + 1] + [ELLIPSIS])|
  }

  method BoundedSearchText(value: Bytes, maxBytes: nat) returns (r: Bytes)
    requires Decode(value).Some?
    ensures |r| <= maxBytes && Decode(r).Some?
    ensures |value| <= maxBytes ==> r == value
    ensures |value| > maxBytes && maxBytes < Width(ELLIPSIS) ==> r == []
    ensures |value| > maxBytes >= Width(ELLIPSIS) ==> IsShortened(r, Decode(value).value, maxBytes)
  {
    hide Encode, Decode, Unit;
    ghost var s := Decode(value).value;
    EncodeDecode(value);
    if |value| <= maxBytes {
      return value;
    }
    if maxBytes < Width(ELLIPSIS) {
      DecodeNothing();
      return [];
    }
    var room := maxBytes - Width(ELLIPSIS);
    var end: nat := room;
    while !IsBoundary(value, end)
      invariant end <= room < |value|
      invariant forall i: nat :: end < i <= room ==> !IsBoundary(value, i)
      decreases end
    {
      StartIsBoundary(s);
      end := end - 1;
    }
    r := value[..end] + Unit(ELLIPSIS);
    Shortened(s, end, maxBytes, r);
  }

  lemma DecodeNothing()
    ensures Decode([]).Some?
  {
  }

  lemma StartIsBoundary(s: string)
    ensures IsBoundary(Encode(s), 0)
  {
    hide Unit;
  }

  lemma Shortened(s: string, end: nat, maxBytes: nat, r: Bytes)
    requires Width(ELLIPSIS) <= maxBytes < |Encode(s)| && end + Width(ELLIPSIS) <= maxBytes
    requires IsBoundary(Encode(s), end)
    requires forall i: nat :: end < i <= maxBytes - Width(ELLIPSIS) ==> !IsBoundary(Encode(s), i)
    requires r == Encode(s)[..end] + Unit(ELLIPSIS)
    ensures |r| <= maxBytes && Decode(r).Some? && IsShortened(r, s, maxBytes)
  {
    hide Encode, Decode, Unit, IsBoundary;
    BoundaryIff(s, end);
    var k :| 0 <= k <= |s| && end == |Encode(s[..k])|;
    assert s[..|s|] == s;
    EncodeConcat(s[..k], s[k..]);
    assert s == s[..k] + s[k..];
    EncodeSnoc(s[..k], ELLIPSIS);
    DecodeEncode(s[..k] + [ELLIPSIS]);
    BoundaryIff(s, |Encode(s[..k + 1])|);
    EncodeSnoc(s[..k], s[k]);
    assert s[..k + 1] == s[..k] + [s[k]];
    EncodeSnoc(s[..k + 1], ELLIPSIS);
  }
}
