/** Frame headers, checksums and whole frames on the wire. */
module Frames {
  import opened Messages
  import opened Cobs
  import Memory

  /** An unsigned 32-bit word. */
  type Word = c: int | 0 <= c < 0x1_0000_0000

  const HEADER_SIZE: nat := 12
  const COBS_OVERHEAD: nat := 2

  datatype Header = Header(version: nat, segLen: nat, winSize: nat, seqNum: nat, msgLen: nat, segId: nat,
                           ackNum: nat, curAckVec: nat, rst: bool, fin: bool, ack: bool, seg: bool) {
    /** Every field fits the bits the format gives it. */
    predicate InRange() {
      && version < 256 && segLen < 256 && winSize < 256 && msgLen < 256
      && seqNum < 4096 && segId < 4096 && ackNum < 4096 && curAckVec < 4096
    }
  }

  function Flag(b: bool): nat {
    if b then 1 else 0
  }

  /** Most and least significant byte of a 16-bit word in network order. */
  function Hi(x: nat): Byte
    requires x < 0x1_0000
  {
    x / 256
  }

  function Lo(x: nat): Byte {
    x % 256
  }

  /** Low nibble of a byte moved up, `(x << 4)` cut to 8 bits. */
  function Up(x: nat): Byte {
    (x % 16) * 16
  }

  /** The 12 header bytes. */
  function WriteHeader(h: Header): (b: seq<Byte>)
    requires h.InRange()
    ensures |b| == HEADER_SIZE
  {
    [ h.version,
      h.segLen,
      Flags(h),
      h.winSize,
      Up(Hi(h.seqNum)) + Lo(h.seqNum) / 16,
      Up(Lo(h.seqNum)) + h.msgLen / 16,
      Up(h.msgLen) + Hi(h.segId) % 16,
      Lo(h.segId),
      Up(Hi(h.ackNum)) + Lo(h.ackNum) / 16,
      Up(Lo(h.ackNum)),
      Hi(h.curAckVec) % 16,
      Lo(h.curAckVec) ]
  }

  /** The 12 bits of two bytes that start at the first bit: `src[0] >> 4`, and `(src[0] << 4) | (src[1] >> 4)`. */
  function Upper12(a: Byte, b: Byte): (x: nat)
    ensures x < 4096
  {
    UpperBound(a, b);
    (a / 16) * 256 + Up(a) + b / 16
  }

  /** The low nibble of one byte and the whole of the next. */
  function Lower12(a: Byte, b: Byte): (x: nat)
    ensures x < 4096
  {
    var n: nat := a % 16;
    n * 256 + b
  }

  /** The low nibble of one byte and the high nibble of the next. */
  function Middle8(a: Byte, b: Byte): (x: nat)
    ensures x < 256
  {
    Up(a) + b / 16
  }

  lemma {:induction false} UpperBound(a: Byte, b: Byte)
    ensures 0 <= (a / 16) * 256 + Up(a) + b / 16 < 4096
    ensures (a / 16) * 256 + Up(a) + b / 16 == a * 16 + b / 16
  {
  }

  function Bit(b: Byte, i: nat): bool
    requires i < 4
  {
    match i
    case 0 => b % 2 == 1
    case 1 => (b / 2) % 2 == 1
    case 2 => (b / 4) % 2 == 1
    case 3 => (b / 8) % 2 == 1
  }

  function Flags(h: Header): Byte {
    Flag(h.fin) + 2 * Flag(h.rst) + 4 * Flag(h.ack) + 8 * Flag(h.seg)
  }

  function ReadHeader(b: seq<Byte>): (h: Header)
    requires |b| >= HEADER_SIZE
    ensures h.InRange()
  {
    Header(b[0], b[1], b[3], Upper12(b[4], b[5]), Middle8(b[5], b[6]), Lower12(b[6], b[7]),
           Upper12(b[8], b[9]), Lower12(b[10], b[11]), Bit(b[2], 1), Bit(b[2], 0), Bit(b[2], 2), Bit(b[2], 3))
  }

  lemma {:induction false} FlagsRead(h: Header)
    ensures var b := Flags(h);
      Bit(b, 0) == h.fin && Bit(b, 1) == h.rst && Bit(b, 2) == h.ack && Bit(b, 3) == h.seg
  {
  }

  /** A 12-bit field followed by a nibble. */
  lemma {:induction false} UpperRead(x: nat, n: nat)
    requires x < 4096 && n < 16
    ensures Up(Hi(x)) + Lo(x) / 16 < 256 && Up(Lo(x)) + n < 256
    ensures Upper12(Up(Hi(x)) + Lo(x) / 16, Up(Lo(x)) + n) == x
  {
    assert Up(Hi(x)) + Lo(x) / 16 == x / 16;
    assert Up(Lo(x)) == (x % 16) * 16;
    UpperBound(x / 16, (x % 16) * 16 + n);
    NibbleOut(x % 16, n);
  }

  lemma {:induction false} NibbleOut(a: nat, n: nat)
    requires a < 16 && n < 16
    ensures (a * 16 + n) / 16 == a && (a * 16 + n) % 16 == n
  {
  }

  /** An 8-bit field across two bytes. */
  lemma {:induction false} MiddleRead(u: nat, m: nat, n: nat)
    requires m < 256 && n < 16
    ensures Up(u) + m / 16 < 256 && Up(m) + n < 256
    ensures Middle8(Up(u) + m / 16, Up(m) + n) == m
  {
    NibbleOut(u % 16, m / 16);
    NibbleOut(m % 16, n);
  }

  /** A 12-bit field that ends on a byte boundary, after a nibble of another field. */
  lemma {:induction false} LowerRead(u: nat, x: nat)
    requires x < 4096
    ensures Hi(x) < 16 && Up(u) + Hi(x) % 16 < 256
    ensures Lower12(Up(u) + Hi(x) % 16, Lo(x)) == x
  {
    NibbleOut(u % 16, Hi(x));
  }

  lemma {:induction false} SeqNumField(x: nat, m: nat)
    requires x < 4096 && m < 256
    ensures Up(Hi(x)) + Lo(x) / 16 < 256 && Up(Lo(x)) + m / 16 < 256
    ensures Upper12(Up(Hi(x)) + Lo(x) / 16, Up(Lo(x)) + m / 16) == x
  {
    UpperRead(x, m / 16);
  }

  lemma {:induction false} MsgLenField(x: nat, m: nat, g: nat)
    requires m < 256 && g < 4096
    ensures Up(Lo(x)) + m / 16 < 256 && Up(m) + Hi(g) % 16 < 256
    ensures Middle8(Up(Lo(x)) + m / 16, Up(m) + Hi(g) % 16) == m
  {
    MiddleRead(Lo(x), m, Hi(g) % 16);
  }

  lemma {:induction false} SequenceFields(h: Header, b: seq<Byte>)
    requires h.InRange() && b == WriteHeader(h)
    ensures Upper12(b[4], b[5]) == h.seqNum && Middle8(b[5], b[6]) == h.msgLen && Lower12(b[6], b[7]) == h.segId
  {
    hide Upper12, Middle8, Lower12, Flags, Up, Hi, Lo;
    SeqNumField(h.seqNum, h.msgLen);
    MsgLenField(h.seqNum, h.msgLen, h.segId);
    LowerRead(h.msgLen, h.segId);
  }

  lemma {:induction false} AckNumField(x: nat)
    requires x < 4096
    ensures Up(Hi(x)) + Lo(x) / 16 < 256 && Upper12(Up(Hi(x)) + Lo(x) / 16, Up(Lo(x))) == x
  {
    UpperRead(x, 0);
  }

  lemma {:induction false} AckVecField(x: nat)
    requires x < 4096
    ensures Lower12(Hi(x) % 16, Lo(x)) == x
  {
    LowerRead(0, x);
  }

  lemma {:induction false} AckFields(h: Header, b: seq<Byte>)
    requires h.InRange() && b == WriteHeader(h)
    ensures Upper12(b[8], b[9]) == h.ackNum && Lower12(b[10], b[11]) == h.curAckVec
  {
    hide Upper12, Middle8, Lower12, Flags, Up, Hi, Lo;
    AckNumField(h.ackNum);
    AckVecField(h.curAckVec);
  }

  /** Reading undoes writing, for every header in range. */
  lemma {:induction false} ReadWriteHeader(h: Header)
    requires h.InRange()
    ensures ReadHeader(WriteHeader(h)) == h
  {
    FlagsRead(h);
    SequenceFields(h, WriteHeader(h));
    AckFields(h, WriteHeader(h));
    hide Up, Hi, Lo, Upper12, Middle8, Lower12, Bit, Flag, Flags;
  }

  // ---- Checksums in network order ----

  function Be32(c: Word): (b: seq<Byte>)
    ensures |b| == 4
  {
    [c / 0x100_0000, (c / 0x1_0000) % 256, (c / 0x100) % 256, c % 256]
  }

  function FromBe32(b: seq<Byte>): Word
    requires |b| == 4
  {
    var b0: int, b1: int, b2: int := b[0], b[1], b[2];
    b0 * 0x100_0000 + b1 * 0x1_0000 + b2 * 0x100 + b[3]
  }

  lemma {:induction false} FromBe32Be32(c: Word)
    ensures FromBe32(Be32(c)) == c
  {
    var q := c / 0x100;
    var r := q / 0x100;
    assert c / 0x1_0000 == r && c / 0x100_0000 == r / 0x100;
    assert c == q * 0x100 + c % 256 && q == r * 0x100 + q % 256 && r == (r / 256) * 0x100 + r % 256;
  }

  // ---- Whole frames ----

  function FrameLen(segLen: nat): nat {
    COBS_OVERHEAD + HEADER_SIZE + segLen + 4
  }

  /** What a checksum covers: header and segment. */
  function Covered(h: Header, seg: seq<Byte>): (b: seq<Byte>)
    requires h.InRange()
    ensures |b| == HEADER_SIZE + |seg|
  {
    WriteHeader(h) + seg
  }

  /** A frame before byte stuffing, with room for the two bytes of the encoding. */
  function Plain(h: Header, seg: seq<Byte>, sum: seq<Byte> -> Word): (b: seq<Byte>)
    requires h.InRange()
    ensures |b| == FrameLen(|seg|)
  {
    [0] + Covered(h, seg) + Be32(sum(Covered(h, seg))) + [0]
  }

  /** A header and its segment fit a frame. */
  predicate Sendable(h: Header, seg: seq<Byte>) {
    h.InRange() && h.segLen == |seg| <= 238
  }

  function WriteFrame(h: Header, seg: seq<Byte>, sum: seq<Byte> -> Word): (f: seq<Byte>)
    requires Sendable(h, seg)
    ensures |f| == FrameLen(|seg|)
  {
    Encode(Plain(h, seg, sum))
  }

  datatype ReadResult = Success | ErrChecksum | ErrMalformed

  /** What reading a decoded buffer reports, when its frame is len bytes long. */
  function CheckFrame(d: seq<Byte>, len: nat, sum: seq<Byte> -> Word): ReadResult
    requires HEADER_SIZE < |d| && len <= |d|
  {
    var n := ReadHeader(d[1..]).segLen;
    if FrameLen(n) > len then ErrMalformed
    else if FromBe32(d[13 + n .. 17 + n]) != sum(d[1 .. 13 + n]) then ErrChecksum
    else Success
  }

  /** The segment of a decoded frame that is not malformed. */
  function SegmentOf(d: seq<Byte>, len: nat, sum: seq<Byte> -> Word): seq<Byte>
    requires HEADER_SIZE < |d| && len <= |d| && CheckFrame(d, len, sum) != ErrMalformed
  {
    d[13 .. 13 + ReadHeader(d[1..]).segLen]
  }

  lemma {:induction false} HeaderPrefix(b: seq<Byte>, c: seq<Byte>)
    requires |b| >= HEADER_SIZE && |c| >= HEADER_SIZE && b[..HEADER_SIZE] == c[..HEADER_SIZE]
    ensures ReadHeader(b) == ReadHeader(c)
  {
    assert forall i :: 0 <= i < HEADER_SIZE ==> b[i] == b[..HEADER_SIZE][i] == c[i];
  }

  /** The parts of a written frame once it is decoded. */
  lemma {:induction false} DecodedParts(h: Header, seg: seq<Byte>, sum: seq<Byte> -> Word)
    requires Sendable(h, seg)
    ensures var f := WriteFrame(h, seg, sum);
      && Framed(f)
      && var d := Decode(f);
      && ReadHeader(d[1..]) == h
      && d[1 .. 13 + |seg|] == Covered(h, seg) && d[13 .. 13 + |seg|] == seg
      && FromBe32(d[13 + |seg| .. 17 + |seg|]) == sum(Covered(h, seg))
  {
    hide ReadHeader, WriteHeader, Be32, FromBe32, Encode, Decode, Framed, Covered;
    var x := Plain(h, seg, sum);
    DecodeEncode(x);
    ClearedPlain(h, seg, sum);
    PlainParts(h, seg, sum);
    HeaderPrefix(x[1..], WriteHeader(h));
    ReadWriteHeader(h);
    FromBe32Be32(sum(Covered(h, seg)));
  }

  /** The first and last bytes of a plain frame are zero already. */
  lemma {:induction false} ClearedPlain(h: Header, seg: seq<Byte>, sum: seq<Byte> -> Word)
    requires h.InRange()
    ensures Cleared(Plain(h, seg, sum)) == Plain(h, seg, sum)
  {
    hide WriteHeader, Be32, Covered;
  }

  lemma {:induction false} PlainParts(h: Header, seg: seq<Byte>, sum: seq<Byte> -> Word)
    requires h.InRange()
    ensures var x, n := Plain(h, seg, sum), |seg|;
      && x[1..][..HEADER_SIZE] == WriteHeader(h)[..HEADER_SIZE]
      && x[1 .. 13 + n] == Covered(h, seg) && x[13 .. 13 + n] == seg
      && x[13 + n .. 17 + n] == Be32(sum(Covered(h, seg)))
  {
    hide WriteHeader, Be32;
    var x, c, n := Plain(h, seg, sum), Covered(h, seg), |seg|;
    assert x[1 .. 13 + n] == c && x[13 + n .. 17 + n] == Be32(sum(c));
    Memory.SliceAfter(x, 1, 0, HEADER_SIZE);
    Memory.SliceAfter(x, 1, HEADER_SIZE, HEADER_SIZE + n);
    assert x[1..] == c + x[13 + n..];
    assert c[..HEADER_SIZE] == WriteHeader(h)[..HEADER_SIZE] && c[HEADER_SIZE..] == seg;
    assert x[13 .. 13 + n] == x[1 .. 13 + n][HEADER_SIZE..];
  }

  /** Reading a frame that was written gives back its header and segment, whatever the checksum function. */
  lemma {:induction false} ReadWriteFrame(h: Header, seg: seq<Byte>, sum: seq<Byte> -> Word)
    requires Sendable(h, seg)
    ensures var f := WriteFrame(h, seg, sum);
      && Framed(f) && |f| == FrameLen(|seg|)
      && var d := Decode(f);
      && CheckFrame(d, |f|, sum) == Success
      && ReadHeader(d[1..]) == h && SegmentOf(d, |f|, sum) == seg
  {
    hide ReadHeader, FromBe32, WriteFrame, Decode, Covered, Framed;
    DecodedParts(h, seg, sum);
  }

  /** A frame written with any other checksum is refused, but its header is read all the same. */
  lemma {:induction false} WrongChecksum(h: Header, seg: seq<Byte>, sum: seq<Byte> -> Word, wrong: Word)
    requires Sendable(h, seg) && wrong != sum(Covered(h, seg))
    ensures var f := WriteFrame(h, seg, _ => wrong);
      && Framed(f)
      && CheckFrame(Decode(f), |f|, sum) == ErrChecksum && ReadHeader(Decode(f)[1..]) == h
  {
    hide ReadHeader, FromBe32, WriteFrame, Decode, Covered, Framed;
    DecodedParts(h, seg, _ => wrong);
  }

  /** arq__frame_write. */
  method WriteInto(h: Header, seg: seq<Byte>, sum: seq<Byte> -> Word, buf: array<Byte>) returns (len: nat)
    requires Sendable(h, seg) && FrameLen(|seg|) <= buf.Length
    modifies buf
    ensures len == FrameLen(|seg|) && buf[..len] == WriteFrame(h, seg, sum)
    ensures buf[len..] == old(buf[len..])
  {
    hide WriteHeader, Be32, Encode, Memory.Put;
    var n := h.segLen;
    len := FrameLen(n);
    ghost var b := buf[..];
    Memory.CopyInto(buf, 1, WriteHeader(h));
    Memory.CopyInto(buf, 1 + HEADER_SIZE, seg);
    assert buf[..][1 .. 13 + n] == buf[1 .. 13 + n];
    Memory.CopyInto(buf, 13 + n, Be32(sum(buf[1 .. 13 + n])));
    Written(b, h, seg, sum);
    assert buf[..][..len] == buf[..len] && buf[..][len..] == buf[len..] && b[len..] == old(buf[len..]);
    EncodeInPlace(buf, len);
  }

  /** Writing the parts one after another into a buffer. */
  lemma {:induction false} Written(b: seq<Byte>, h: Header, seg: seq<Byte>, sum: seq<Byte> -> Word)
    requires Sendable(h, seg) && FrameLen(|seg|) <= |b|
    ensures var n, len := |seg|, FrameLen(|seg|);
      var b2 := Memory.Put(Memory.Put(b, 1, WriteHeader(h)), 1 + HEADER_SIZE, seg);
      var b3 := Memory.Put(b2, 13 + n, Be32(sum(b2[1 .. 13 + n])));
      Encode(b3[..len]) == WriteFrame(h, seg, sum) && b3[len..] == b[len..]
  {
    hide WriteHeader, Be32, Encode, WriteFrame, Memory.Put;
    var n, len := |seg|, FrameLen(|seg|);
    var b1 := Memory.Put(b, 1, WriteHeader(h));
    var b2 := Memory.Put(b1, 1 + HEADER_SIZE, seg);
    var c := b2[1 .. 13 + n];
    var b3 := Memory.Put(b2, 13 + n, Be32(sum(c)));
    Memory.PutParts(b, 1, WriteHeader(h));
    Memory.PutParts(b1, 13, seg);
    Memory.PutParts(b2, 13 + n, Be32(sum(c)));
    assert c == b2[..13][1..] + b2[13 .. 13 + n] && b2[..13][1..] == b1[..13][1..] == b1[1 .. 13];
    assert b3[..len][1 .. 13 + n] == b3[..13 + n][1..] == b2[..13 + n][1..] == c;
    assert b3[..len][13 + n .. 17 + n] == b3[13 + n .. 17 + n];
    assert b3[len..] == b3[17 + n..][1..] == b2[13 + n..][5..] == b1[13..][n + 5..] == b[13..][n + 5..] == b[len..];
    Assembled(b3[..len], h, seg, sum);
  }

  /** A buffer whose parts are in place encodes to the frame, whatever its first and last bytes. */
  lemma {:induction false} Assembled(b: seq<Byte>, h: Header, seg: seq<Byte>, sum: seq<Byte> -> Word)
    requires Sendable(h, seg) && |b| == FrameLen(|seg|)
    requires b[1 .. 13 + |seg|] == WriteHeader(h) + seg
    requires b[13 + |seg| .. 17 + |seg|] == Be32(sum(b[1 .. 13 + |seg|]))
    ensures Encode(b) == WriteFrame(h, seg, sum)
  {
    hide WriteHeader, Be32, Encode;
    var x, c, n := Plain(h, seg, sum), Covered(h, seg), |seg|;
    assert x[1 .. 13 + n] == c && x[13 + n .. 17 + n] == Be32(sum(c));
    assert x[1 .. |x| - 1] == x[1 .. 13 + n] + x[13 + n .. 17 + n];
    assert b[1 .. |b| - 1] == b[1 .. 13 + n] + b[13 + n .. 17 + n];
    SameEncoding(b, x);
  }

  /** The bytes that the encoding overwrites do not matter. */
  lemma {:induction false} SameEncoding(x: seq<Byte>, y: seq<Byte>)
    requires 3 <= |x| == |y| <= 256 && x[1 .. |x| - 1] == y[1 .. |y| - 1]
    ensures Encode(x) == Encode(y)
  {
    assert forall i :: 1 <= i < |x| - 1 ==> x[i] == x[1 .. |x| - 1][i - 1] == y[i];
    forall i | 0 <= i < |x| ensures Encoded(x, i) == Encoded(y, i) {
      if i < |x| - 1 { NextZeroIs(y, i + 1, NextZero(x, i + 1)); }
    }
  }

  /** What arq__frame_read reports: the result, the header, and the segment unless malformed. */
  datatype Reading = Reading(result: ReadResult, header: Header, segment: seq<Byte>)

  /** Reading a buffer whose first len bytes are a complete frame; the rest is left from earlier frames. */
  function ReadBuffer(b: seq<Byte>, len: nat, sum: seq<Byte> -> Word): Reading
    requires HEADER_SIZE < |b| && len <= |b| && Framed(b[..len])
  {
    var d := Decode(b[..len]) + b[len..];
    var result := CheckFrame(d, len, sum);
    Reading(result, ReadHeader(d[1..]), if result == ErrMalformed then [] else SegmentOf(d, len, sum))
  }

  /**
   * Bytes behind the frame do not matter: a frame too short to hold the header it is read with is
   * malformed, and any other is read as if it were alone.
   */
  lemma {:induction false} ReadIgnoresStale(f: seq<Byte>, stale: seq<Byte>, sum: seq<Byte> -> Word)
    requires Framed(f) && HEADER_SIZE < |f + stale|
    ensures (f + stale)[..|f|] == f
    ensures |f| <= HEADER_SIZE ==> ReadBuffer(f + stale, |f|, sum).result == ErrMalformed
    ensures |f| > HEADER_SIZE ==> (f + [])[..|f|] == f && ReadBuffer(f + stale, |f|, sum) == ReadBuffer(f, |f|, sum)
  {
    assert (f + stale)[..|f|] == f && (f + stale)[|f|..] == stale && f[..|f|] == f;
    hide ReadHeader, FromBe32, Decode;
    if |f| > HEADER_SIZE {
      var d := Decode(f);
      assert d + f[|f|..] == d;
      assert (d + stale)[1..][..HEADER_SIZE] == d[1..][..HEADER_SIZE];
      HeaderPrefix((d + stale)[1..], d[1..]);
      var n := ReadHeader(d[1..]).segLen;
      if FrameLen(n) <= |f| {
        assert (d + stale)[13 + n .. 17 + n] == d[13 + n .. 17 + n];
        assert (d + stale)[1 .. 13 + n] == d[1 .. 13 + n];
        assert (d + stale)[13 .. 13 + n] == d[13 .. 13 + n];
      }
    }
  }

  /** A frame that was written is read back from a buffer, whatever lies behind it. */
  lemma {:induction false} ReadsBack(h: Header, seg: seq<Byte>, stale: seq<Byte>, sum: seq<Byte> -> Word)
    requires Sendable(h, seg)
    ensures var f := WriteFrame(h, seg, sum);
      && Framed(f) && (f + stale)[..|f|] == f
      && ReadBuffer(f + stale, |f|, sum) == Reading(Success, h, seg)
  {
    var f := WriteFrame(h, seg, sum);
    ReadWriteFrame(h, seg, sum);
    ReadIgnoresStale(f, stale, sum);
    hide ReadHeader, CheckFrame, SegmentOf, Decode, WriteFrame;
    assert f[..|f|] == f && Decode(f) + f[|f|..] == Decode(f);
  }

  /** arq__frame_read on a buffer whose first len bytes are a complete frame. */
  method ReadFrom(buf: array<Byte>, len: nat, sum: seq<Byte> -> Word) returns (res: ReadResult, h: Header, seg: seq<Byte>)
    requires HEADER_SIZE < buf.Length && len <= buf.Length && Framed(buf[..][..len])
    modifies buf
    ensures buf[..] == Decode(old(buf[..])[..len]) + old(buf[len..])
    ensures Reading(res, h, seg) == ReadBuffer(old(buf[..]), len, sum)
  {
    hide ReadHeader, FromBe32, Decode;
    ghost var was := buf[..];
    assert was[..len] == buf[..len] && was[len..] == buf[len..];
    DecodeInPlace(buf, len);
    assert buf[..] == buf[..len] + buf[len..];
    assert buf[..][1..] == buf[1..];
    h := ReadHeader(buf[1..]);
    seg := [];
    if FrameLen(h.segLen) > len {
      return ErrMalformed, h, seg;
    }
    seg := buf[13 .. 13 + h.segLen];
    var found := FromBe32(buf[13 + h.segLen .. 17 + h.segLen]);
    var computed := sum(buf[1 .. 13 + h.segLen]);
    assert buf[..][13 + h.segLen .. 17 + h.segLen] == buf[13 + h.segLen .. 17 + h.segLen];
    res := if found != computed then ErrChecksum else Success;
  }
}
