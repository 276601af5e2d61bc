/** `decodePolyline` of app/navigate/page.js: the Encoded Polyline Algorithm Format.
    Coordinates stay in integer units of 1e-5 degrees; the final division by 1e5 is only a
    change of unit and is not modelled. A reference encoder of the same format is the
    decoder's partner: decoding what it produces gives back the encoded points. */
module Polyline {

  /** One emitted coordinate pair in 1e-5 degrees, in the decoder's output order `[lng, lat]`. */
  datatype Point = Point(lng: int, lat: int)

  /** The signed latitude and longitude steps one loop iteration of the decoder reads. */
  datatype Delta = Delta(dlat: int, dlng: int)

  /** One variable-length group: the accumulated unsigned value and the text after it. */
  datatype Group = Group(value: nat, rest: string)

  /** Every character is stored as its code plus 63. */
  const Offset: int := 63

  /** Bit 0x20 of a chunk says that another chunk of the same group follows. */
  const Continue: int := 32

  function Pow32(n: nat): (p: nat)
    ensures p >= 1
  {
    if n == 0 then 1 else 32 * Pow32(n - 1)
  }

  /** `b & 0x1f`: the low five bits of `b` in two's complement, which is `b` modulo 32
      (Dafny's `%` never yields a negative remainder). */
  function Low5(b: int): (c: nat)
    ensures c < 32
  {
    b % 32
  }

  /** `~x` on a two's-complement integer. */
  function BitNot(x: int): int {
    -x - 1
  }

  /** Reads one group of 5-bit chunks from the front of `s`. Chunk k lands at bits 5k..5k+4,
      so OR-ing it in at `shift` is adding `chunk * 32^k`. A character whose value minus 63 is
      below 0x20 ends the group. Reading past the end of the text yields NaN in the source,
      whose low five bits are 0 and which ends the group: the group's last chunk is 0. */
  function ReadGroup(s: string): (g: Group)
    ensures |g.rest| <= |s|
    ensures |s| > 0 ==> |g.rest| < |s|
    decreases |s|
  {
    if |s| == 0 then Group(0, [])
    else
      var b := s[0] as int - Offset;
      if b >= Continue then
        var g := ReadGroup(s[1..]);
        Group(Low5(b) + 32 * g.value, g.rest)
      else
        Group(Low5(b), s[1..])
  }

  /** A group spelled with n characters holds less than 32^n. With at most six characters the
      value stays below 2^30, where the source's 32-bit `|`, `<<`, `>>` and `~` agree with the
      unbounded arithmetic used here. */
  lemma {:induction false} GroupValueBound(s: string)
    ensures ReadGroup(s).value < Pow32(|s| - |ReadGroup(s).rest|)
    decreases |s|
  {
    if |s| > 0 && s[0] as int - Offset >= Continue {
      var g := ReadGroup(s[1..]);
      GroupValueBound(s[1..]);
      var p := Pow32(|s| - 1 - |g.rest|);
      assert Pow32(|s| - |g.rest|) == 32 * p;
      assert Low5(s[0] as int - Offset) + 32 * g.value <= 31 + 32 * (p - 1);
    }
  }

  lemma SixCharacterGroupsFit(s: string)
    requires |s| - |ReadGroup(s).rest| <= 6
    ensures ReadGroup(s).value < 0x4000_0000
  {
    GroupValueBound(s);
    var n := |s| - |ReadGroup(s).rest|;
    PowMonotone(n, 6);
  }

  lemma {:induction false} PowMonotone(m: nat, n: nat)
    requires m <= n
    ensures Pow32(m) <= Pow32(n)
    decreases n
  {
    if m < n {
      PowMonotone(m, n - 1);
    }
  }

  /** Zig-zag decoding of `r`: an even value stands for `r >> 1`, an odd one for `~(r >> 1)`. */
  function ZigZagDecode(r: nat): (d: int)
    ensures r % 2 == 0 ==> d == r / 2
    ensures r % 2 == 1 ==> d == -(r / 2) - 1
    ensures (d >= 0) == (r % 2 == 0)
  {
    if r % 2 == 1 then BitNot(r / 2) else r / 2
  }

  /** Zig-zag encoding, the inverse the format's encoder applies before chunking. */
  function ZigZagEncode(d: int): (r: nat)
    ensures ZigZagDecode(r) == d
  {
    if d >= 0 then 2 * d else -2 * d - 1
  }

  lemma ZigZagBijection(r: nat)
    ensures ZigZagEncode(ZigZagDecode(r)) == r
  {
  }

  /** The decoder over the remaining text with running accumulators `lat` and `lng`: each step
      reads one latitude group, then one longitude group, and emits one point. */
  function DecodeFrom(s: string, lat: int, lng: int): (pts: seq<Point>)
    ensures (|pts| == 0) == (|s| == 0)
    ensures |pts| <= |s|
    decreases |s|
  {
    if |s| == 0 then []
    else
      var g1 := ReadGroup(s);
      var lat' := lat + ZigZagDecode(g1.value);
      var g2 := ReadGroup(g1.rest);
      var lng' := lng + ZigZagDecode(g2.value);
      [Point(lng', lat')] + DecodeFrom(g2.rest, lat', lng')
  }

  /** `decodePolyline(str)`: both accumulators start at 0. The empty string gives no points,
      and every point consumes at least one character. */
  function Decode(s: string): (pts: seq<Point>)
    ensures |s| == 0 ==> pts == []
    ensures |pts| == 0 ==> |s| == 0
    ensures |pts| <= |s|
  {
    DecodeFrom(s, 0, 0)
  }

  /** The steps the decoder reads, one `Delta` per loop iteration, without accumulating. */
  function Deltas(s: string): seq<Delta>
    decreases |s|
  {
    if |s| == 0 then []
    else
      var g1 := ReadGroup(s);
      var g2 := ReadGroup(g1.rest);
      [Delta(ZigZagDecode(g1.value), ZigZagDecode(g2.value))] + Deltas(g2.rest)
  }

  function SumLat(ds: seq<Delta>): int {
    if |ds| == 0 then 0 else ds[0].dlat + SumLat(ds[1..])
  }

  function SumLng(ds: seq<Delta>): int {
    if |ds| == 0 then 0 else ds[0].dlng + SumLng(ds[1..])
  }

  /** Point k is the running sum of the first k+1 steps, longitude first. */
  lemma {:induction false} DecodeFromIsPrefixSums(s: string, lat: int, lng: int)
    ensures |DecodeFrom(s, lat, lng)| == |Deltas(s)|
    ensures forall k :: 0 <= k < |Deltas(s)| ==>
      DecodeFrom(s, lat, lng)[k] == Point(lng + SumLng(Deltas(s)[..k + 1]), lat + SumLat(Deltas(s)[..k + 1]))
    decreases |s|
  {
    if |s| > 0 {
      var g1 := ReadGroup(s);
      var d1 := ZigZagDecode(g1.value);
      var g2 := ReadGroup(g1.rest);
      var d2 := ZigZagDecode(g2.value);
      var ds := Deltas(s);
      var tail := Deltas(g2.rest);
      assert ds == [Delta(d1, d2)] + tail;
      DecodeFromIsPrefixSums(g2.rest, lat + d1, lng + d2);
      var pts := DecodeFrom(s, lat, lng);
      var rest := DecodeFrom(g2.rest, lat + d1, lng + d2);
      assert pts == [Point(lng + d2, lat + d1)] + rest;
      forall k | 0 <= k < |ds|
        ensures pts[k] == Point(lng + SumLng(ds[..k + 1]), lat + SumLat(ds[..k + 1]))
      {
        PrefixSumsOfCons(ds, Delta(d1, d2), tail, k);
        if k > 0 {
          assert pts[k] == rest[k - 1];
        }
      }
    }
  }

  /** Summing a prefix of `[d] + tail` is `d` plus the sum of the shorter prefix of `tail`. */
  lemma PrefixSumsOfCons(ds: seq<Delta>, d: Delta, tail: seq<Delta>, k: nat)
    requires ds == [d] + tail && k < |ds|
    ensures SumLng(ds[..k + 1]) == d.dlng + SumLng(tail[..k])
    ensures SumLat(ds[..k + 1]) == d.dlat + SumLat(tail[..k])
  {
    assert ds[..k + 1][0] == d;
    assert ds[..k + 1][1..] == tail[..k];
  }

  lemma DecodeIsPrefixSums(s: string)
    ensures |Decode(s)| == |Deltas(s)|
    ensures forall k :: 0 <= k < |Deltas(s)| ==>
      Decode(s)[k] == Point(SumLng(Deltas(s)[..k + 1]), SumLat(Deltas(s)[..k + 1]))
  {
    DecodeFromIsPrefixSums(s, 0, 0);
  }

  // ---------------------------------------------------------------------------------------
  // The reference encoder of the format

  /** Chunks a non-negative value, least significant five bits first. */
  function EncodeValue(v: nat): (s: string)
    ensures 1 <= |s|
    decreases v
  {
    if v < 32 then [(v + Offset) as char]
    else [((v % 32) + Continue + Offset) as char] + EncodeValue(v / 32)
  }

  /** Encodes `pts` as steps from the previous point, starting from (`lat`, `lng`):
      the latitude step, then the longitude step, for every point. */
  function EncodeFrom(pts: seq<Point>, lat: int, lng: int): string
    decreases |pts|
  {
    if |pts| == 0 then []
    else
      EncodeValue(ZigZagEncode(pts[0].lat - lat))
        + (EncodeValue(ZigZagEncode(pts[0].lng - lng)) + EncodeFrom(pts[1..], pts[0].lat, pts[0].lng))
  }

  function Encode(pts: seq<Point>): string {
    EncodeFrom(pts, 0, 0)
  }

  lemma {:induction false} ReadEncodedValue(v: nat, rest: string)
    ensures ReadGroup(EncodeValue(v) + rest) == Group(v, rest)
    decreases v
  {
    var s := EncodeValue(v) + rest;
    if v >= 32 {
      assert s[1..] == EncodeValue(v / 32) + rest;
      ReadEncodedValue(v / 32, rest);
    } else {
      assert s[1..] == rest;
    }
  }

  lemma {:induction false} DecodeEncodeFrom(pts: seq<Point>, lat: int, lng: int)
    ensures DecodeFrom(EncodeFrom(pts, lat, lng), lat, lng) == pts
    decreases |pts|
  {
    if |pts| > 0 {
      var tail := EncodeFrom(pts[1..], pts[0].lat, pts[0].lng);
      var a := EncodeValue(ZigZagEncode(pts[0].lat - lat));
      var b := EncodeValue(ZigZagEncode(pts[0].lng - lng));
      ReadEncodedValue(ZigZagEncode(pts[0].lat - lat), b + tail);
      ReadEncodedValue(ZigZagEncode(pts[0].lng - lng), tail);
      DecodeStep(a + (b + tail), lat, lng, ZigZagEncode(pts[0].lat - lat), b + tail, ZigZagEncode(pts[0].lng - lng), tail, pts[0].lat, pts[0].lng);
      DecodeEncodeFrom(pts[1..], pts[0].lat, pts[0].lng);
      assert pts == [pts[0]] + pts[1..];
    }
  }

  /** One iteration of the decoder: a latitude group `v1` ending at `mid`, then a longitude
      group `v2` ending at `rest`. */
  lemma DecodeStep(s: string, lat: int, lng: int, v1: nat, mid: string, v2: nat, rest: string, lat': int, lng': int)
    requires |s| > 0 && ReadGroup(s) == Group(v1, mid) && ReadGroup(mid) == Group(v2, rest)
    requires lat' == lat + ZigZagDecode(v1) && lng' == lng + ZigZagDecode(v2)
    ensures DecodeFrom(s, lat, lng) == [Point(lng', lat')] + DecodeFrom(rest, lat', lng')
  {
  }

  /** Decoding the standard encoding of any point sequence recovers it exactly. */
  lemma DecodeEncode(pts: seq<Point>)
    ensures Decode(Encode(pts)) == pts
  {
    DecodeEncodeFrom(pts, 0, 0);
  }

  // ---------------------------------------------------------------------------------------
  // The decoder as the source writes it: an index walking the text

  /** The text from position `i` on; empty once `i` has run past the end. */
  function Suffix(s: string, i: nat): string {
    if i <= |s| then s[i..] else []
  }

  /** What one chunk read at position `i` contributes to a group whose chunks so far add up
      to `value` and whose next chunk has weight `weight`. */
  lemma ChunkAt(s: string, i: nat, value: int, weight: int)
    ensures i >= |s| ==>
      value + weight * ReadGroup(Suffix(s, i)).value == value && ReadGroup(Suffix(s, i)).rest == Suffix(s, i + 1)
    ensures i < |s| && s[i] as int - Offset >= Continue ==>
      && value + weight * ReadGroup(Suffix(s, i)).value
         == (value + Low5(s[i] as int - Offset) * weight) + (weight * 32) * ReadGroup(Suffix(s, i + 1)).value
      && ReadGroup(Suffix(s, i)).rest == ReadGroup(Suffix(s, i + 1)).rest
    ensures i < |s| && s[i] as int - Offset < Continue ==>
      && value + weight * ReadGroup(Suffix(s, i)).value == value + Low5(s[i] as int - Offset) * weight
      && ReadGroup(Suffix(s, i)).rest == Suffix(s, i + 1)
  {
    if i < |s| {
      assert Suffix(s, i)[1..] == Suffix(s, i + 1);
      var chunk := Low5(s[i] as int - Offset);
      var later := ReadGroup(Suffix(s, i + 1)).value;
      if s[i] as int - Offset >= Continue {
        assert ReadGroup(Suffix(s, i)).value == chunk + 32 * later;
        ShiftIn(value, weight, chunk, later);
      } else {
        assert ReadGroup(Suffix(s, i)).value == chunk;
      }
    }
  }

  /** One `do { ... } while (b >= 0x20)` loop of the source, starting at `index`. */
  method ReadGroupAt(s: string, index: nat) returns (value: nat, next: nat)
    ensures next > index
    ensures Group(value, Suffix(s, next)) == ReadGroup(Suffix(s, index))
  {
    ghost var whole := ReadGroup(Suffix(s, index));
    value := 0;
    var weight: nat := 1; // 2^shift
    next := index;
    var more := true;
    while more
      invariant next >= index
      invariant more ==> whole.value == value + weight * ReadGroup(Suffix(s, next)).value
      invariant more ==> whole.rest == ReadGroup(Suffix(s, next)).rest
      invariant !more ==> next > index && whole.value == value && whole.rest == Suffix(s, next)
      decreases more, if next <= |s| then |s| - next else 0
    {
      ChunkAt(s, next, value, weight);
      if next < |s| {
        var b := s[next] as int - Offset;
        var chunk := Low5(b);
        MulNonNegative(chunk, weight);
        value := value + chunk * weight;
        more := b >= Continue;
      } else {
        more := false;
      }
      next := next + 1;
      weight := weight * 32;
    }
  }

  lemma ShiftIn(value: int, weight: int, chunk: int, later: int)
    ensures value + weight * (chunk + 32 * later) == (value + chunk * weight) + (weight * 32) * later
  {
  }

  lemma MulNonNegative(a: nat, b: nat)
    ensures a * b >= 0
  {
  }

  /** `decodePolyline` as a loop over an index, equal to the recursive definition. */
  method DecodePolyline(s: string) returns (coordinates: seq<Point>)
    ensures coordinates == Decode(s)
    ensures |coordinates| == |Deltas(s)|
  {
    var index: nat := 0;
    var lat := 0;
    var lng := 0;
    coordinates := [];
    assert Suffix(s, 0) == s;
    while index < |s|
      invariant coordinates + DecodeFrom(Suffix(s, index), lat, lng) == Decode(s)
      decreases |s| - index
    {
      ghost var before, lat0, lng0, done := Suffix(s, index), lat, lng, coordinates;
      var r1, r2;
      r1, index := ReadGroupAt(s, index);
      ghost var mid := Suffix(s, index);
      lat := lat + ZigZagDecode(r1);
      r2, index := ReadGroupAt(s, index);
      lng := lng + ZigZagDecode(r2);
      coordinates := coordinates + [Point(lng, lat)];
      DecodeStep(before, lat0, lng0, r1, mid, r2, Suffix(s, index), lat, lng);
      assert done + ([Point(lng, lat)] + DecodeFrom(Suffix(s, index), lat, lng))
          == coordinates + DecodeFrom(Suffix(s, index), lat, lng);
    }
    assert Suffix(s, index) == [];
    DecodeIsPrefixSums(s);
  }

  /** The groups of the format's published example, one per coordinate step. */
  lemma ReferenceGroups()
    ensures EncodeValue(7700000) == "_p~iF" && EncodeValue(24039999) == "~ps|U"
    ensures EncodeValue(440000) == "_ulL" && EncodeValue(149999) == "nnqC"
    ensures EncodeValue(510400) == "_mqN" && EncodeValue(1100599) == "vxq`@"
  {
    assert EncodeValue(7700000) == "_p~iF";
    assert EncodeValue(24039999) == "~ps|U";
    assert EncodeValue(440000) == "_ulL";
    assert EncodeValue(149999) == "nnqC";
    assert EncodeValue(510400) == "_mqN";
    assert EncodeValue(1100599) == "vxq`@";
  }

  /** The format's published example decodes to (38.5, -120.2), (40.7, -120.95), (43.252, -126.453). */
  lemma ReferenceVector()
    ensures Decode("_p~iF~ps|U_ulLnnqC_mqNvxq`@")
         == [Point(-12020000, 3850000), Point(-12095000, 4070000), Point(-12645300, 4325200)]
  {
    var pts := [Point(-12020000, 3850000), Point(-12095000, 4070000), Point(-12645300, 4325200)];
    ReferenceGroups();
    assert EncodeFrom(pts[2..], 4070000, -12095000) == "_mqNvxq`@";
    assert EncodeFrom(pts[1..], 3850000, -12020000) == "_ulLnnqC_mqNvxq`@";
    assert Encode(pts) == "_p~iF~ps|U_ulLnnqC_mqNvxq`@";
    DecodeEncode(pts);
  }
}
