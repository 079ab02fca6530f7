/** Messages, their segments, and the configuration both ends share. */
module Messages {
  import opened Arith
  import opened AckVec
  import opened SeqNum

  type Byte = b: int | 0 <= b < 256

  /** Milliseconds in an unsigned 32-bit word. */
  type Time = t: int | 0 <= t <= 0xFFFF_FFFF

  const TIME_INFINITY: Time := 0xFFFF_FFFF

  function SubSat(x: Time, y: Time): Time {
    if x > y then x - y else 0
  }

  /** The time that the first n polls of a schedule add up to. */
  function Total(dts: seq<Time>, n: nat): (t: nat)
    requires n <= |dts|
  {
    if n == 0 then 0 else Total(dts, n - 1) + dts[n - 1]
  }

  lemma {:induction false} TotalTail(dts: seq<Time>, n: nat)
    requires n < |dts|
    ensures Total(dts, n + 1) == dts[0] + Total(dts[1..], n)
  {
    if n > 0 { TotalTail(dts, n - 1); }
  }

  lemma {:induction false} TotalGrows(dts: seq<Time>, i: nat, j: nat)
    requires i <= j <= |dts|
    ensures Total(dts, i) <= Total(dts, j)
    decreases j - i
  {
    if i < j { TotalGrows(dts, i, j - 1); }
  }

  function Min(x: int, y: int): int {
    if x < y then x else y
  }

  function Max(x: int, y: int): int {
    if x > y then x else y
  }

  /** Window capacity in messages, segments in a message, bytes in a segment. */
  datatype Shape = Shape(cap: nat, segs: nat, segLen: nat) {

    /** The bounds of the frame format: 12 bits of acknowledgement, 238 bytes of payload. */
    ghost predicate Valid() {
      Divides(cap) && 1 <= segs <= 12 && 1 <= segLen <= 238
    }

    /** Bytes in a full message: segs * segLen. */
    function MsgLen(): nat {
      Mul(segs, segLen)
    }

    function FullVec(): nat {
      Mask(segs)
    }
  }

  /** Number of segments that carry a message of len bytes. */
  function SegCount(len: nat, segLen: nat): nat
    requires segLen > 0
  {
    Quo(len + segLen - 1, segLen)
  }

  /** Segment seg of a message: segLen bytes, or what is left of the message. */
  function Segment(data: seq<Byte>, seg: nat, segLen: nat): seq<Byte>
    requires Mul(seg, segLen) <= |data|
  {
    data[Mul(seg, segLen) .. Min(Mul(seg, segLen) + segLen, |data|)]
  }

  /** The segments of a message are those that start before its end. */
  lemma {:induction false} SegCountIs(len: nat, segLen: nat, seg: nat)
    requires segLen > 0
    ensures seg < SegCount(len, segLen) <==> Mul(seg, segLen) < len
    decreases seg
  {
    if seg > 0 && len >= 1 {
      if len > segLen {
        SegCountIs(len - segLen, segLen, seg - 1);
      } else {
        assert Quo(len - 1, segLen) == 0;
      }
    }
  }

  lemma {:induction false} SegCountBounds(len: nat, sh: Shape)
    requires sh.segLen > 0 && len <= sh.MsgLen()
    ensures SegCount(len, sh.segLen) <= sh.segs
    ensures len > 0 ==> SegCount(len, sh.segLen) >= 1
    ensures len == sh.MsgLen() ==> SegCount(len, sh.segLen) == sh.segs
  {
    SegCountIs(len, sh.segLen, 0);
    SegCountIs(len, sh.segLen, sh.segs);
    if sh.segs > 0 { SegCountIs(len, sh.segLen, sh.segs - 1); }
  }

  /** Concatenation of a list of byte strings. */
  function Flatten(xs: seq<seq<Byte>>): seq<Byte> {
    if xs == [] then [] else xs[0] + Flatten(xs[1..])
  }

  lemma {:induction false} FlattenConcat(xs: seq<seq<Byte>>, ys: seq<seq<Byte>>)
    ensures Flatten(xs + ys) == Flatten(xs) + Flatten(ys)
  {
    if xs == [] {
      assert xs + ys == ys;
    } else {
      assert (xs + ys)[1..] == xs[1..] + ys;
      FlattenConcat(xs[1..], ys);
    }
  }

  lemma {:induction false} FlattenSplit(xs: seq<seq<Byte>>, n: nat)
    requires n <= |xs|
    ensures Flatten(xs) == Flatten(xs[..n]) + Flatten(xs[n..])
  {
    assert xs == xs[..n] + xs[n..];
    FlattenConcat(xs[..n], xs[n..]);
  }

  lemma {:induction false} FlattenOne(x: seq<Byte>)
    ensures Flatten([x]) == x
  {
  }
}
