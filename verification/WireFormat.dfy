/**
 * The format of the bytes on the wire, stated without the reader and the writer: a header is a 96-bit
 * number in network order, and a frame a chain of distances between its zeroes.
 */
module WireFormat {
  import opened Messages
  import opened Cobs
  import opened Frames

  /** The number that bytes stand for, most significant first. */
  function BigEndian(b: seq<Byte>): (n: nat) {
    if b == [] then 0 else BigEndian(b[..|b| - 1]) * 256 + b[|b| - 1]
  }

  /** A header as a 96-bit number: each field at its place. */
  function Number(h: Header): (n: nat) {
    h.version * 0x100_0000_0000_0000_0000_0000
    + h.segLen * 0x1_0000_0000_0000_0000_0000
    + (if h.seg then 0x800_0000_0000_0000_0000 else 0)
    + (if h.ack then 0x400_0000_0000_0000_0000 else 0)
    + (if h.rst then 0x200_0000_0000_0000_0000 else 0)
    + (if h.fin then 0x100_0000_0000_0000_0000 else 0)
    + h.winSize * 0x1_0000_0000_0000_0000
    + h.seqNum * 0x10_0000_0000_0000
    + h.msgLen * 0x1000_0000_0000
    + h.segId * 0x1_0000_0000
    + h.ackNum * 0x10_0000
    + h.curAckVec
  }

  /** The number of four bytes. */
  function Four(b0: int, b1: int, b2: int, b3: int): int {
    b0 * 0x100_0000 + b1 * 0x1_0000 + b2 * 0x100 + b3
  }

  lemma {:induction false} FourBytes(b: seq<Byte>)
    requires |b| == 4
    ensures BigEndian(b) == Four(b[0], b[1], b[2], b[3])
  {
    var c, d := b[..3], b[..2];
    assert c[..2] == d && d[..1] == [b[0]] && [b[0]][..0] == [];
    assert BigEndian(d[..1]) == b[0];
    assert BigEndian(d) == BigEndian(d[..1]) * 256 + b[1];
    assert BigEndian(c) == BigEndian(d) * 256 + b[2];
  }

  /** Four more bytes. */
  lemma {:induction false} FourMore(b: seq<Byte>)
    requires |b| >= 4
    ensures BigEndian(b) == BigEndian(b[..|b| - 4]) * 0x1_0000_0000 + BigEndian(b[|b| - 4..])
  {
    var n := |b| - 4;
    FourBytes(b[n..]);
    assert b[..n + 3][..n + 2] == b[..n + 2] && b[..n + 2][..n + 1] == b[..n + 1] && b[..n + 1][..n] == b[..n];
    assert BigEndian(b[..n + 1]) == BigEndian(b[..n]) * 256 + b[n];
    assert BigEndian(b[..n + 2]) == BigEndian(b[..n + 1]) * 256 + b[n + 1];
    assert BigEndian(b[..n + 3]) == BigEndian(b[..n + 2]) * 256 + b[n + 2];
  }

  /** Twelve bytes, four at a time. */
  lemma {:induction false} TwelveBytes(b: seq<Byte>)
    requires |b| == 12
    ensures BigEndian(b) == BigEndian(b[..4]) * 0x1_0000_0000_0000_0000 + BigEndian(b[4..8]) * 0x1_0000_0000 + BigEndian(b[8..])
  {
    hide BigEndian;
    FourMore(b);
    FourMore(b[..8]);
    assert b[..8][..4] == b[..4] && b[..8][4..] == b[4..8];
  }

  /** The first four bytes. */
  lemma {:induction false} FirstGroup(h: Header)
    requires h.InRange()
    ensures BigEndian(WriteHeader(h)[..4]) == Four(h.version, h.segLen, Flags(h), h.winSize)
  {
    FourBytes(WriteHeader(h)[..4]);
    hide BigEndian, Up, Hi, Lo, Flags;
  }

  /** Message number, segment count and segment number share four bytes. */
  lemma {:induction false} SecondGroup(h: Header)
    requires h.InRange()
    ensures BigEndian(WriteHeader(h)[4..8]) == h.seqNum * 0x10_0000 + h.msgLen * 0x1000 + h.segId
  {
    var b := WriteHeader(h);
    FourBytes(b[4..8]);
    assert b[4..8] == [b[4], b[5], b[6], b[7]];
    hide BigEndian, Flags;
    Nibbles(h.seqNum, h.msgLen, h.segId);
  }

  lemma {:induction false} Nibbles(x: nat, m: nat, g: nat)
    requires x < 4096 && m < 256 && g < 4096
    ensures Four(Up(Hi(x)) + Lo(x) / 16, Up(Lo(x)) + m / 16, Up(m) + Hi(g) % 16, Lo(g)) == x * 0x10_0000 + m * 0x1000 + g
  {
    Halves(x);
    Halves(m);
    Halves(g);
    hide Up, Hi, Lo;
  }

  lemma {:induction false} Halves(x: nat)
    requires x < 4096
    ensures Up(Hi(x)) + Lo(x) / 16 == x / 16 && Up(Lo(x)) == Up(x) == (x % 16) * 16 && x == (x / 16) * 16 + x % 16
    ensures Hi(x) % 16 == x / 256 && Lo(x) == x % 256 && x == (x / 256) * 256 + x % 256
  {
    var h, l := x / 256, x % 256;
    var m, n := l / 16, l % 16;
    assert x == 256 * h + l && l == 16 * m + n;
    assert x == 16 * (16 * h + m) + n;
    assert x / 16 == 16 * h + m && x % 16 == n;
  }

  /** Acknowledged number and vector share four bytes. */
  lemma {:induction false} ThirdGroup(h: Header)
    requires h.InRange()
    ensures BigEndian(WriteHeader(h)[8..]) == h.ackNum * 0x10_0000 + h.curAckVec
  {
    var b := WriteHeader(h);
    FourBytes(b[8..]);
    assert b[8..] == [b[8], b[9], b[10], b[11]];
    hide BigEndian, Flags;
    Nibbles(h.ackNum, 0, h.curAckVec);
    assert Up(0) == 0;
  }

  /** The bytes a header is written as are its number. */
  lemma {:induction false} HeaderOnWire(h: Header)
    requires h.InRange()
    ensures BigEndian(WriteHeader(h)) == Number(h)
  {
    TwelveBytes(WriteHeader(h));
    FirstGroup(h);
    SecondGroup(h);
    ThirdGroup(h);
    hide BigEndian, WriteHeader;
  }

  // ---- Reading ----

  /** Three fields of 12, 8 and 12 bits in four bytes. */
  lemma {:induction false} FieldsOf(b0: Byte, b1: Byte, b2: Byte, b3: Byte)
    ensures Upper12(b0, b1) * 0x10_0000 + Middle8(b1, b2) * 0x1000 + Lower12(b2, b3) == Four(b0, b1, b2, b3)
  {
    UpperBound(b0, b1);
    assert Up(b1) == (b1 % 16) * 16;
    var x: int, y: int := b1, b2;
    assert x == (x / 16) * 16 + x % 16 && y == (y / 16) * 16 + y % 16;
  }

  /** The four flags and the bits above them. */
  lemma {:induction false} FlagBits(b: Byte)
    ensures var v: int := b; v == (v / 16) * 16 + BitAt(b, 3) + BitAt(b, 2) + BitAt(b, 1) + BitAt(b, 0)
  {
    var v: int := b;
    var v1, v2, v3 := v / 2, v / 4, v / 8;
    assert v2 == v1 / 2 && v3 == v2 / 2 && v / 16 == v3 / 2;
    assert v == v1 * 2 + BitAt(b, 0);
    assert v1 * 2 == v2 * 4 + BitAt(b, 1);
    assert v2 * 4 == v3 * 8 + BitAt(b, 2);
    assert v3 * 8 == (v / 16) * 16 + BitAt(b, 3);
  }

  /** The value of a flag in its byte. */
  function BitAt(b: Byte, i: nat): nat
    requires i < 4
  {
    if !Bit(b, i) then 0 else match i case 0 => 1 case 1 => 2 case 2 => 4 case 3 => 8
  }

  /**
   * Any twelve bytes are read as the fields of their number: it is that of the header read, up to the
   * four bits above the flags and the eight bits between the acknowledged number and the vector,
   * which are not read.
   */
  lemma {:induction false} HeaderFromWire(b: seq<Byte>)
    requires |b| >= HEADER_SIZE
    ensures exists top: nat, gap: nat ::
      top < 16 && gap < 256
      && BigEndian(b[..HEADER_SIZE]) == Number(ReadHeader(b)) + top * 0x1000_0000_0000_0000_0000 + gap * 0x1000
  {
    var c := b[..HEADER_SIZE];
    TwelveBytes(c);
    FourBytes(c[..4]);
    FourBytes(c[4..8]);
    FourBytes(c[8..]);
    assert c[4..8] == [b[4], b[5], b[6], b[7]] && c[8..] == [b[8], b[9], b[10], b[11]];
    FieldsOf(b[4], b[5], b[6], b[7]);
    FieldsOf(b[8], b[9], b[10], b[11]);
    FlagBits(b[2]);
    hide BigEndian, Upper12, Lower12, Middle8, Bit;
    var v: int := b[2];
    var top: nat, gap: nat := v / 16, Middle8(b[9], b[10]);
    assert BigEndian(c) == Number(ReadHeader(b)) + top * 0x1000_0000_0000_0000_0000 + gap * 0x1000;
  }

  // ---- Frames ----

  lemma {:induction false} Be32FromWire(b: seq<Byte>)
    requires |b| == 4
    ensures FromBe32(b) == BigEndian(b)
  {
    FourBytes(b);
    hide BigEndian;
  }

  /**
   * The encoding of a buffer: the last byte is zero and no other is; a payload byte that is not zero
   * travels as it is; and the first byte, and each byte that is zero in the payload, is the distance
   * to the next such byte, or to the end.
   */
  lemma {:induction false} EncodingIs(x: seq<Byte>, i: nat)
    requires 3 <= |x| <= 256 && i < |x| - 1
    ensures Framed(Encode(x))
    ensures var y: int := Encode(x)[i];
      if i > 0 && x[i] != 0 then y == x[i]
      else
        && 0 < y && i + y <= |x| - 1
        && (i + y < |x| - 1 ==> x[i + y] == 0)
        && forall k :: i < k < i + y ==> x[k] != 0
  {
    EncodeFrames(x);
  }

  lemma {:induction false} HeadOf(d: seq<Byte>, n: nat, head: seq<Byte>, seg: seq<Byte>)
    requires 13 + n <= |d| && |head| == 12 && d[1 .. 13 + n] == head + seg
    ensures d[1..13] == head
  {
    assert d[1..13] == d[1 .. 13 + n][..12];
  }

  /**
   * A frame once its byte stuffing is undone: the header's number, the segment, and the checksum of
   * both in network order.
   */
  lemma {:induction false} FrameOnWire(h: Header, seg: seq<Byte>, sum: seq<Byte> -> Word)
    requires Sendable(h, seg)
    ensures var f, n := WriteFrame(h, seg, sum), |seg|;
      && Framed(f) && |f| == 18 + n
      && var d := Decode(f);
      && |d| == 18 + n
      && BigEndian(d[1..13]) == Number(h) && d[13 .. 13 + n] == seg
      && BigEndian(d[13 + n .. 17 + n]) == sum(d[1 .. 13 + n])
  {
    DecodedParts(h, seg, sum);
    HeaderOnWire(h);
    hide WriteHeader, ReadHeader, BigEndian, FromBe32, WriteFrame, Decode, Framed, Number;
    var f, n := WriteFrame(h, seg, sum), |seg|;
    var d := Decode(f);
    HeadOf(d, n, WriteHeader(h), seg);
    Be32FromWire(d[13 + n .. 17 + n]);
  }

  /**
   * What is reported of a decoded frame: too short for the segment length in its second byte, or
   * else damaged exactly if the four bytes behind the segment are not the checksum.
   */
  lemma {:induction false} ReportIs(d: seq<Byte>, len: nat, sum: seq<Byte> -> Word)
    requires HEADER_SIZE < |d| && len <= |d|
    ensures var n: int, r := d[2], CheckFrame(d, len, sum);
      && (r == ErrMalformed <==> len < 18 + n)
      && (r != ErrMalformed ==>
          && SegmentOf(d, len, sum) == d[13 .. 13 + n]
          && (r == Success <==> BigEndian(d[13 + n .. 17 + n]) == sum(d[1 .. 13 + n])))
  {
    hide BigEndian, FromBe32, Upper12, Lower12, Middle8;
    var n: int := d[2];
    if len >= 18 + n { Be32FromWire(d[13 + n .. 17 + n]); }
  }
}
