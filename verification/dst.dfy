/** The DST export: for every vertex, `struct.pack('<ii', int(x), int(y))`, i.e.
    two little-endian two's-complement 32-bit integers, 8 bytes per vertex and
    nothing else. Packing raises when a coordinate does not fit in 32 bits. */
module Dst {
  import opened Results
  import opened Geometry

  type Byte = b: int | 0 <= b < 256

  /** Bytes per packed integer and per record. */
  const IntSize := 4
  const RecordSize := 8

  const TwoTo31 := 0x8000_0000
  const TwoTo32 := 0x1_0000_0000

  /** The range of a signed 32-bit `i` field. */
  predicate InInt32(v: int) {
    -TwoTo31 <= v < TwoTo31
  }

  /** A point whose coordinates can be packed. */
  predicate Packable(p: Point) {
    InInt32(p.x) && InInt32(p.y)
  }

  function Pow256(n: nat): (r: nat)
    ensures r > 0
  {
    if n == 0 then 1 else 256 * Pow256(n - 1)
  }

  /** The `n` low-order bytes of `u`, least significant first. */
  function LeBytes(u: nat, n: nat): (r: seq<Byte>)
    ensures |r| == n
  {
    if n == 0 then [] else [u % 256] + LeBytes(u / 256, n - 1)
  }

  /** The unsigned value of a little-endian byte string. */
  function LeValue(bs: seq<Byte>): (v: nat)
    ensures v < Pow256(|bs|)
  {
    if |bs| == 0 then 0 else bs[0] + 256 * LeValue(bs[1..])
  }

  lemma {:induction false} LeValueOfBytes(u: nat, n: nat)
    requires u < Pow256(n)
    ensures LeValue(LeBytes(u, n)) == u
    decreases n
  {
    if n > 0 {
      LeValueOfBytes(u / 256, n - 1);
      assert LeBytes(u, n)[1..] == LeBytes(u / 256, n - 1);
    }
  }

  lemma {:induction false} LeBytesOfValue(bs: seq<Byte>)
    ensures LeBytes(LeValue(bs), |bs|) == bs
    decreases |bs|
  {
    if |bs| > 0 {
      LeBytesOfValue(bs[1..]);
      var v := LeValue(bs);
      assert v % 256 == bs[0] && v / 256 == LeValue(bs[1..]);
    }
  }

  /** Two's-complement reading of a signed value as an unsigned 32-bit one. */
  function ToUnsigned(v: int): (u: nat)
    requires InInt32(v)
    ensures u < TwoTo32
  {
    if v < 0 then v + TwoTo32 else v
  }

  function ToSigned(u: nat): (v: int)
    requires u < TwoTo32
    ensures InInt32(v)
  {
    if u >= TwoTo31 then u - TwoTo32 else u
  }

  /** `struct.pack('<i', v)`: four bytes which, read least significant first,
      are `v` modulo 2^32 (two's complement). */
  function PackInt(v: int): (r: seq<Byte>)
    requires InInt32(v)
    ensures |r| == IntSize
    ensures LeValue(r) == v % TwoTo32
  {
    assert Pow256(IntSize) == TwoTo32;
    LeValueOfBytes(ToUnsigned(v), IntSize);
    LeBytes(ToUnsigned(v), IntSize)
  }

  /** `struct.unpack('<i', bs)`. */
  function UnpackInt(bs: seq<Byte>): (v: int)
    requires |bs| == IntSize
    ensures InInt32(v)
  {
    assert Pow256(IntSize) == TwoTo32;
    ToSigned(LeValue(bs))
  }

  /** Unpacking a packed integer gives it back. */
  lemma PackIntRoundTrip(v: int)
    requires InInt32(v)
    ensures UnpackInt(PackInt(v)) == v
  {
    assert Pow256(IntSize) == TwoTo32;
    LeValueOfBytes(ToUnsigned(v), IntSize);
  }

  /** Every 4-byte string is the packing of the integer it unpacks to. */
  lemma UnpackIntRoundTrip(bs: seq<Byte>)
    requires |bs| == IntSize
    ensures PackInt(UnpackInt(bs)) == bs
  {
    assert Pow256(IntSize) == TwoTo32;
    LeBytesOfValue(bs);
  }

  /** One record: `struct.pack('<ii', x, y)`, `x` in the first four bytes and
      `y` in the last four, each as two's complement; it unpacks to `p`. */
  function PackPoint(p: Point): (r: seq<Byte>)
    requires Packable(p)
    ensures |r| == RecordSize
    ensures LeValue(r[..IntSize]) == p.x % TwoTo32 && LeValue(r[IntSize..]) == p.y % TwoTo32
    ensures UnpackPoint(r) == p
  {
    var a, b := PackInt(p.x), PackInt(p.y);
    PackIntRoundTrip(p.x);
    PackIntRoundTrip(p.y);
    assert (a + b)[..IntSize] == a && (a + b)[IntSize..] == b;
    a + b
  }

  function UnpackPoint(bs: seq<Byte>): (p: Point)
    requires |bs| == RecordSize
    ensures Packable(p)
  {
    Point(UnpackInt(bs[..IntSize]), UnpackInt(bs[IntSize..]))
  }

  /** The failing vertex: packing raised on its truncated coordinates. */
  datatype PackError = OutOfRange(index: nat)

  /** The records of already-truncated points. */
  function PackAll(ps: seq<Point>): (r: seq<Byte>)
    requires forall i :: 0 <= i < |ps| ==> Packable(ps[i])
    ensures |r| == RecordSize * |ps|
    ensures forall i :: 0 <= i < |ps| ==> r[RecordSize * i .. RecordSize * i + RecordSize] == PackPoint(ps[i])
  {
    if |ps| == 0 then []
    else
      var rest := PackAll(ps[1..]);
      var r := PackPoint(ps[0]) + rest;
      assert forall i :: 0 < i < |ps| ==> r[RecordSize * i .. RecordSize * i + RecordSize] == rest[RecordSize * (i - 1) .. RecordSize * (i - 1) + RecordSize];
      r
  }

  /** The index of the first point that cannot be packed, if any. */
  function FirstUnpackable(ps: seq<Point>): (r: Option<nat>)
    ensures r.None? <==> forall i :: 0 <= i < |ps| ==> Packable(ps[i])
    ensures r.Some? ==> r.value < |ps| && !Packable(ps[r.value]) && forall i :: 0 <= i < r.value ==> Packable(ps[i])
  {
    if |ps| == 0 then None
    else if !Packable(ps[0]) then Some(0)
    else match FirstUnpackable(ps[1..])
      case None => None
      case Some(k) => Some(k + 1)
  }

  /** The bytes `export_dst` writes for the vertices, or the index of the
      first vertex, in order, at which `struct.pack` raises. */
  function EncodeDst(vs: seq<Vertex>): (r: Result<seq<Byte>, PackError>)
    ensures r.Success? <==> forall i :: 0 <= i < |vs| ==> Packable(Truncated(vs[i]))
    ensures r.Success? ==> |r.value| == RecordSize * |vs|
    ensures r.Success? ==> forall i :: 0 <= i < |vs| ==>
      && r.value[RecordSize * i .. RecordSize * i + IntSize] == PackInt(Trunc(vs[i].x))
      && r.value[RecordSize * i + IntSize .. RecordSize * i + RecordSize] == PackInt(Trunc(vs[i].y))
    ensures r.Failure? ==> r.error.index < |vs| && !Packable(Truncated(vs[r.error.index]))
    ensures r.Failure? ==> forall i :: 0 <= i < r.error.index ==> Packable(Truncated(vs[i]))
  {
    var ps := TruncateAll(vs);
    match FirstUnpackable(ps)
    case Some(k) => Failure(OutOfRange(k))
    case None =>
      var bytes := PackAll(ps);
      assert forall i :: 0 <= i < |vs| ==>
        bytes[RecordSize * i .. RecordSize * i + IntSize] == bytes[RecordSize * i .. RecordSize * i + RecordSize][..IntSize] &&
        bytes[RecordSize * i + IntSize .. RecordSize * i + RecordSize] == bytes[RecordSize * i .. RecordSize * i + RecordSize][IntSize..];
      Success(bytes)
  }

  /** A byte string that is not a whole number of records: the offset of the
      incomplete trailing record. */
  datatype DecodeError = TrailingBytes(offset: nat)

  /** Reads the records of a DST byte string back into points. */
  function DecodeDst(bs: seq<Byte>): (r: Result<seq<Point>, DecodeError>)
    ensures r.Success? <==> |bs| % RecordSize == 0
    ensures r.Success? ==> |r.value| == |bs| / RecordSize
    ensures r.Success? ==> forall i :: 0 <= i < |r.value| ==>
      Packable(r.value[i]) && r.value[i] == UnpackPoint(bs[RecordSize * i .. RecordSize * i + RecordSize])
    ensures r.Failure? ==> r.error.offset == |bs| - |bs| % RecordSize
    decreases |bs|
  {
    if |bs| == 0 then Success([])
    else if |bs| < RecordSize then Failure(TrailingBytes(0))
    else match DecodeDst(bs[RecordSize..])
      case Failure(e) => Failure(TrailingBytes(e.offset + RecordSize))
      case Success(ps) =>
        var r := [UnpackPoint(bs[..RecordSize])] + ps;
        forall i | 0 < i < |r|
          ensures r[i] == UnpackPoint(bs[RecordSize * i .. RecordSize * i + RecordSize])
        {
          RecordShift(bs, i);
        }
        Success(r)
  }

  /** Record `i` of `bs` is record `i - 1` of `bs` without its first record. */
  lemma RecordShift(bs: seq<Byte>, i: int)
    requires 0 < i && RecordSize * i + RecordSize <= |bs|
    ensures bs[RecordSize * i .. RecordSize * i + RecordSize] ==
      bs[RecordSize..][RecordSize * (i - 1) .. RecordSize * (i - 1) + RecordSize]
  {
    var j := RecordSize * (i - 1);
    assert RecordSize + j == RecordSize * i;
    var a := bs[RecordSize * i .. RecordSize * i + RecordSize];
    var b := bs[RecordSize..][j .. j + RecordSize];
    forall k | 0 <= k < RecordSize ensures a[k] == b[k] {
    }
  }

  lemma PackPointRoundTrip(p: Point)
    requires Packable(p)
    ensures UnpackPoint(PackPoint(p)) == p
  {
    var r := PackPoint(p);
    assert r[..IntSize] == PackInt(p.x) && r[IntSize..] == PackInt(p.y);
    PackIntRoundTrip(p.x);
    PackIntRoundTrip(p.y);
  }

  lemma {:induction false} PackAllRoundTrip(ps: seq<Point>)
    requires forall i :: 0 <= i < |ps| ==> Packable(ps[i])
    ensures DecodeDst(PackAll(ps)) == Success(ps)
    decreases |ps|
  {
    if |ps| > 0 {
      var bs := PackAll(ps);
      assert bs[..RecordSize] == PackPoint(ps[0]) && bs[RecordSize..] == PackAll(ps[1..]);
      PackAllRoundTrip(ps[1..]);
      PackPointRoundTrip(ps[0]);
      assert ps == [ps[0]] + ps[1..];
    }
  }

  /** Decoding what was written gives every vertex, truncated, in order. */
  lemma DstRoundTrip(vs: seq<Vertex>)
    requires EncodeDst(vs).Success?
    ensures DecodeDst(EncodeDst(vs).value) == Success(TruncateAll(vs))
  {
    PackAllRoundTrip(TruncateAll(vs));
  }

  lemma {:induction false} DecodeDstRoundTrip(bs: seq<Byte>)
    requires |bs| % RecordSize == 0
    ensures PackAll(DecodeDst(bs).value) == bs
    decreases |bs|
  {
    if |bs| > 0 {
      var head := bs[..RecordSize];
      DecodeDstRoundTrip(bs[RecordSize..]);
      UnpackIntRoundTrip(head[..IntSize]);
      UnpackIntRoundTrip(head[IntSize..]);
      assert head == head[..IntSize] + head[IntSize..];
      var ps := DecodeDst(bs).value;
      assert ps[1..] == DecodeDst(bs[RecordSize..]).value;
      assert bs == head + bs[RecordSize..];
    }
  }
}
