/** Entropy-coded segments as bytes: the stuffing that keeps 0xFF from looking
    like a marker, and the reading side of jdarith.c (get_byte and the marker
    handling inside arith_decode). */
module ByteSource {
  import opened Numbers

  const MARKER_EOI: byte := 0xD9

  function StuffByte(b: byte): (s: seq<byte>) {
    if b == 0xFF then [0xFF, 0x00] else [b]
  }

  function Stuff(u: seq<byte>): (s: seq<byte>) {
    if u == [] then [] else StuffByte(u[0]) + Stuff(u[1..])
  }

  lemma {:induction false} StuffConcat(u: seq<byte>, v: seq<byte>)
    ensures Stuff(u + v) == Stuff(u) + Stuff(v)
    decreases |u|
  {
    if u == [] {
      assert u + v == v;
    } else {
      assert (u + v)[1..] == u[1..] + v;
      StuffConcat(u[1..], v);
    }
  }

  lemma StuffOne(b: byte)
    ensures Stuff([b]) == StuffByte(b)
  {
    assert [b][1..] == [];
  }

  /** Writing b, stuffed if need be, after the bytes for u. */
  lemma StuffSnoc(head: seq<byte>, u: seq<byte>, b: byte)
    ensures head + Stuff(u) + StuffByte(b) == head + Stuff(u + [b])
  {
    StuffConcat(u, [b]);
    StuffOne(b);
    assert head + Stuff(u) + StuffByte(b) == head + (Stuff(u) + StuffByte(b));
  }

  /** Inside a segment no marker can appear: every 0xFF is followed by 0x00. */
  lemma {:induction false} StuffHidesMarkers(u: seq<byte>, k: nat)
    requires k < |Stuff(u)| && Stuff(u)[k] == 0xFF
    ensures k + 1 < |Stuff(u)| && Stuff(u)[k + 1] == 0x00
    decreases |u|
  {
    var n := |StuffByte(u[0])|;
    if k >= n {
      assert Stuff(u)[k] == Stuff(u[1..])[k - n];
      StuffHidesMarkers(u[1..], k - n);
    }
  }

  /** What is left to read, and the marker that reading has run into (0 if none). */
  datatype Source = Source(data: seq<byte>, marker: byte)

  datatype Read = Read(b: byte, data: seq<byte>)

  /** Swallow extra 0xFF bytes. At the end of the data the source manager
      supplies an EOI marker. */
  function SkipFill(data: seq<byte>): (r: Read)
    ensures r.b != 0xFF && |r.data| <= |data|
    ensures r.b == 0 ==> |r.data| < |data|
    decreases |data|
  {
    if data == [] then Read(MARKER_EOI, [])
    else if data[0] == 0xFF then SkipFill(data[1..])
    else Read(data[0], data[1..])
  }

  datatype Fetch = Fetch(b: byte, src: Source)

  /** The next byte of entropy-coded data; zeros once a marker has been hit. */
  function NextByte(src: Source): (f: Fetch) {
    if src.marker != 0 then Fetch(0, src)
    else if src.data != [] && src.data[0] != 0xFF then Fetch(src.data[0], Source(src.data[1..], 0))
    else
      var r := SkipFill(if src.data == [] then [] else src.data[1..]);
      if r.b == 0 then Fetch(0xFF, Source(r.data, 0)) else Fetch(0, Source(r.data, r.b))
  }

  /** The marker that ends the segment being read, and the data behind it. */
  function NextMarker(src: Source): (r: Read)
    decreases |src.data|
  {
    if src.marker != 0 then Read(src.marker, src.data)
    else if src.data == [] then Read(MARKER_EOI, [])
    else if src.data[0] != 0xFF then NextMarker(Source(src.data[1..], 0))
    else
      var r := SkipFill(src.data[1..]);
      if r.b == 0 then NextMarker(Source(r.data, 0)) else r
  }

  /** Reading entropy-coded data never steps over the marker. */
  lemma NextByteKeepsMarker(src: Source)
    ensures NextMarker(NextByte(src).src) == NextMarker(src)
  {
  }

  /** A segment u, then a marker m, then whatever follows. */
  function Segment(u: seq<byte>, m: byte, tail: seq<byte>): (s: seq<byte>) {
    Stuff(u) + [0xFF, m] + tail
  }

  lemma {:induction false} SegmentMarker(u: seq<byte>, m: byte, tail: seq<byte>)
    requires m != 0 && m != 0xFF
    ensures NextMarker(Source(Segment(u, m, tail), 0)) == Read(m, tail)
    decreases |u|
  {
    var s := Segment(u, m, tail);
    if u == [] {
      assert s[1..][0] == m && s[1..][1..] == tail;
    } else {
      SegmentMarker(u[1..], m, tail);
      FirstOfSegment(u, m, tail);
      NextByteKeepsMarker(Source(s, 0));
    }
  }

  lemma NextOfPlain(b: byte, x: seq<byte>)
    requires b != 0xFF
    ensures NextByte(Source([b] + x, 0)) == Fetch(b, Source(x, 0))
  {
    assert ([b] + x)[1..] == x;
  }

  lemma NextOfMarked(b: byte, x: seq<byte>)
    requires b != 0xFF
    ensures NextByte(Source([0xFF, b] + x, 0))
         == if b == 0 then Fetch(0xFF, Source(x, 0)) else Fetch(0, Source(x, b))
  {
    var s: seq<byte> := [0xFF, b] + x;
    assert s[1..] == [b] + x;
    assert ([b] + x)[1..] == x;
  }

  /** Reading takes the stuffing off again. */
  lemma FirstOfSegment(u: seq<byte>, m: byte, tail: seq<byte>)
    requires u != []
    ensures NextByte(Source(Segment(u, m, tail), 0)) == Fetch(u[0], Source(Segment(u[1..], m, tail), 0))
  {
    hide NextByte;
    var rest := Segment(u[1..], m, tail);
    assert Segment(u, m, tail) == StuffByte(u[0]) + rest;
    if u[0] == 0xFF {
      NextOfMarked(0, rest);
    } else {
      NextOfPlain(u[0], rest);
    }
  }

  /** The number formed by c and the next j bytes of the source. */
  function Ahead(c: nat, src: Source, j: nat): (w: nat)
    decreases j
  {
    if j == 0 then c
    else
      var f := NextByte(src);
      Ahead(256 * c + f.b, f.src, j - 1)
  }

  lemma {:induction false} AheadAfterMarker(c: nat, src: Source, j: nat)
    requires src.marker != 0
    ensures Ahead(c, src, j) == c * Pow2(8 * j)
    decreases j
  {
    if j > 0 {
      AheadAfterMarker(256 * c, src, j - 1);
      Pow2Add8(8 * (j - 1));
      MulByteShift(c, Pow2(8 * (j - 1)));
    }
  }

  lemma {:induction false} AheadMore(c: nat, src: Source, j: nat)
    ensures 256 * Ahead(c, src, j) <= Ahead(c, src, j + 1) < 256 * Ahead(c, src, j) + 256
    decreases j
  {
    var f := NextByte(src);
    if j == 0 {
      assert Ahead(256 * c + f.b, f.src, 0) == 256 * c + f.b;
    } else {
      AheadMore(256 * c + f.b, f.src, j - 1);
    }
  }

  lemma {:induction false} AheadOffset(c: nat, off: nat, src: Source, j: nat)
    ensures Ahead(c + off, src, j) == Ahead(c, src, j) + off * Pow2(8 * j)
    decreases j
  {
    if j > 0 {
      var f := NextByte(src);
      AheadOffset(256 * c + f.b, 256 * off, f.src, j - 1);
      Pow2Add8(8 * (j - 1));
      MulByteShift(off, Pow2(8 * (j - 1)));
    }
  }

  lemma EndValue(c: nat, m: byte, tail: seq<byte>, j: nat)
    requires m != 0 && m != 0xFF
    ensures Ahead(c, Source(Segment([], m, tail), 0), j) == c * Pow2(8 * j)
  {
    assert Segment([], m, tail) == [0xFF, m] + tail;
    NextOfMarked(m, tail);
    if j > 0 {
      AheadAfterMarker(256 * c, Source(tail, m), j - 1);
      Pow2Add8(8 * (j - 1));
      MulByteShift(c, Pow2(8 * (j - 1)));
    }
  }

  /** Read from the start, a segment denotes its unstuffed bytes followed by
      zeros for ever. */
  lemma {:induction false} SegmentValue(p: seq<byte>, u: seq<byte>, m: byte, tail: seq<byte>, j: nat)
    requires m != 0 && m != 0xFF && |u| <= j
    ensures Ahead(Num(p), Source(Segment(u, m, tail), 0), j) == Num(p + u + Repeat(0, j - |u|))
    decreases |u|
  {
    hide Segment, NextByte;
    if u != [] {
      FirstOfSegment(u, m, tail);
      NumSnoc(p, u[0]);
      SegmentValue(p + [u[0]], u[1..], m, tail, j - 1);
      assert p + [u[0]] + u[1..] == p + u;
    } else {
      NumZeros(p, j);
      assert p + u == p;
      EndValue(Num(p), m, tail, j);
    }
  }
}
