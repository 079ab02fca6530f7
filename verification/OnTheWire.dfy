/**
 * The frames of a two-ended run as bytes: every segment and every acknowledgement that is ever on the
 * network fits its header fields, and is read back as it was sent.
 */
module OnTheWire {
  import opened Arith
  import opened AckVec
  import opened Messages
  import opened Frames
  import Cobs
  import S = SendWindow
  import R = RecvWindow
  import I = RecvInvariant
  import T = TwoEnded
  import Safety
  import WireFormat

  /** The header of one poll: a segment or none, an acknowledgement or none. */
  function HeaderOf(seg: R.Arrival, ack: S.AckHdr): Header {
    var h := Header(0, 0, 0, 0, 0, 0, 0, 0, false, false, ack.AckHdr?, seg.Arrived?);
    var h := if seg.Arrived? then h.(segLen := |seg.f.data|, seqNum := seg.f.sn, msgLen := seg.f.count, segId := seg.f.seg) else h;
    if ack.AckHdr? then h.(ackNum := ack.sn, curAckVec := ack.vec) else h
  }

  /**
   * The header of a poll as a number: the length of the segment, the flags for a segment (8) and an
   * acknowledgement (4), the message number, the segments in the message and the place of this one,
   * the number acknowledged and its vector; all else is zero.
   */
  lemma {:induction false} HeaderIs(seg: R.Arrival, ack: S.AckHdr)
    ensures WireFormat.Number(HeaderOf(seg, ack)) ==
      (if seg.Arrived? then
         |seg.f.data| * 0x1_0000_0000_0000_0000_0000 + 0x800_0000_0000_0000_0000
         + seg.f.sn * 0x10_0000_0000_0000 + seg.f.count * 0x1000_0000_0000 + seg.f.seg * 0x1_0000_0000
       else 0)
      + (if ack.AckHdr? then 0x400_0000_0000_0000_0000 + ack.sn * 0x10_0000 + ack.vec else 0)
  {
  }

  function Payload(seg: R.Arrival): seq<Byte> {
    if seg.Arrived? then seg.f.data else []
  }

  /** What the receive poll makes of a frame that was read: a segment to store, if there is one. */
  function SegmentIn(r: Reading): R.Arrival {
    if r.result == Success && r.header.seg then
      R.Arrived(R.Frame(r.header.seqNum, r.header.segId, r.header.msgLen, r.segment))
    else R.Nothing
  }

  /** What the send poll makes of its header: an acknowledgement, if there is one. */
  function AckIn(r: Reading): S.AckHdr
    requires r.header.InRange()
  {
    if r.header.ack then S.AckHdr(r.header.ackNum, r.header.curAckVec) else S.NoAck
  }

  // ---- Damaged frames ----

  /** A frame with a wrong checksum delivers no segment, but its acknowledgement reaches the send poll. */
  lemma {:induction false} DamagedAckArrives(h: Header, seg: seq<Byte>, sum: seq<Byte> -> Word, wrong: Word)
    requires Sendable(h, seg) && wrong != sum(Covered(h, seg)) && h.ack
    ensures var f := WriteFrame(h, seg, _ => wrong);
      && Cobs.Framed(f) && f[..|f|] == f
      && var r := ReadBuffer(f, |f|, sum);
      && r.result == ErrChecksum && SegmentIn(r) == R.Nothing
      && r.header.InRange() && AckIn(r) == S.AckHdr(h.ackNum, h.curAckVec)
  {
    hide ReadHeader, FromBe32, WriteFrame, Cobs.Decode, Covered, Cobs.Framed, CheckFrame;
    WrongChecksum(h, seg, sum, wrong);
    var f := WriteFrame(h, seg, _ => wrong);
    assert f[..|f|] == f && Cobs.Decode(f) + f[|f|..] == Cobs.Decode(f);
  }

  /** A send poll frees something exactly when the number is in the window and the first message is complete after it. */
  lemma {:induction false} FreesIff(w: S.SendWnd, sn: nat, vec: Vec)
    ensures S.Freed(w, sn, vec) > 0 <==>
      && S.Acceptable(w, sn)
      && (if sn == w.base then vec == w.msgs[0].full else w.msgs[0].cur == w.msgs[0].full)
  {
  }

  /**
   * What a frame that was read frees depends on its header alone, whatever the checksum said: on the
   * acknowledgement flag, on the number being in the window, and on the vector completing the first
   * message.
   */
  lemma {:induction false} HeaderFreesIff(w: S.SendWnd, r: Reading)
    requires r.header.InRange() && |w.msgs| > 0
    ensures S.AckStep(w, AckIn(r)).msgs != w.msgs ==> r.header.ack
    ensures |S.AckStep(w, AckIn(r)).msgs| < |w.msgs| <==>
      && r.header.ack && w.base <= r.header.ackNum < w.base + |w.msgs|
      && (if r.header.ackNum == w.base then r.header.curAckVec == w.msgs[0].full else w.msgs[0].cur == w.msgs[0].full)
  {
    hide S.Done, S.Acked;
    if r.header.ack { FreesIff(w, r.header.ackNum, r.header.curAckVec); }
  }

  /**
   * A message just accepted, of which nothing was ever sent, is freed by one frame with a wrong
   * checksum.
   */
  lemma {:induction false} DamagedAckFreesUnsent(sh: Shape, w: S.SendWnd, sum: seq<Byte> -> Word, wrong: Word)
    requires S.Valid(sh, w) && |w.msgs| > 0 && w.msgs[0].full == sh.FullVec() && w.msgs[0].cur == 0
    ensures sh.FullVec() < 4096 && w.base < 4096
    ensures var h := HeaderOf(R.Nothing, S.AckHdr(w.base, sh.FullVec()));
      && Sendable(h, [])
      && (wrong != sum(Covered(h, [])) ==>
          var f := WriteFrame(h, [], _ => wrong);
          && Cobs.Framed(f) && f[..|f|] == f
          && var r := ReadBuffer(f, |f|, sum);
          && r.result == ErrChecksum && r.header.InRange()
          && |S.AckStep(w, AckIn(r)).msgs| < |w.msgs|)
  {
    hide WriteFrame, ReadBuffer, Covered, S.Acked, Mask, Rem, Mul, Cobs.Framed;
    Pow2Values();
    MaskIsVec(sh.segs);
    FullBelow(sh.segs);
    var h := HeaderOf(R.Nothing, S.AckHdr(w.base, sh.FullVec()));
    if wrong != sum(Covered(h, [])) {
      DamagedAckArrives(h, [], sum, wrong);
      var f := WriteFrame(h, [], _ => wrong);
      HeaderFreesIff(w, ReadBuffer(f, |f|, sum));
    }
  }

  lemma {:induction false} FullBelow(n: nat)
    requires n <= 12
    ensures Mask(n) < 4096
  {
    Pow2Values();
    if n < 12 { MaskOrder(n, 12); }
  }

  // ---- The frames of a run ----

  /** A segment of a run fits the header. */
  lemma {:induction false} SegmentFits(cfg: T.Config, x: T.Sys, d: T.DataFrame)
    requires T.Inv(cfg, x) && d in x.net
    ensures d.f.sn < 4096 && d.f.count <= 12 && d.f.seg < 12 && |d.f.data| <= 238
  {
    hide Mul, Quo, Rem, Flatten, T.SenderInv, T.PtrInv, T.PastInv, T.AcksInv, I.Inv, I.Delivered;
    assert I.Genuine(cfg.rcv, d.f, T.Sealed(x), d.k);
    InvSizes(cfg, x);
    I.GenuineOk(cfg.rcv, d.f, T.Sealed(x), d.k);
    SegCountBounds(|T.Sealed(x)[d.k]|, cfg.rcv);
  }

  lemma {:induction false} InvSizes(cfg: T.Config, x: T.Sys)
    requires T.Inv(cfg, x)
    ensures I.Sizes(cfg.rcv, T.Sealed(x))
  {
  }

  /** An acknowledgement of a run fits the 12 bits of its vector field. */
  lemma {:induction false} AckFits(cfg: T.Config, x: T.Sys, a: T.AckFrame)
    requires T.Inv(cfg, x) && a in x.acks
    ensures a.vec < 4096
  {
    hide Mul, Quo, Rem, Flatten, T.SenderInv, T.PtrInv, T.PastInv, T.NetInv, I.Inv, I.Delivered, Has;
    assert T.AckInv(cfg, x, a);
    InvSizes(cfg, x);
    var n := SegCount(|T.Sealed(x)[a.k]|, cfg.snd.segLen);
    SegCountBounds(|T.Sealed(x)[a.k]|, cfg.rcv);
    WithinIsAtMostMask(a.vec, n);
    Pow2Values();
    if n < 12 { MaskOrder(n, 12); }
  }

  /**
   * In every reachable state, a frame that carries any segment and any acknowledgement of the run is
   * read back from its bytes, with any checksum function and whatever lies behind it in the buffer,
   * as that segment and that acknowledgement.
   */
  lemma {:induction false} RunsTravel(cfg: T.Config, xs: seq<T.Sys>, es: seq<T.Event>, n: nat,
                                      frame: T.Option<T.DataFrame>, ack: T.Option<T.AckFrame>,
                                      stale: seq<Byte>, sum: seq<Byte> -> Word)
    requires T.Run(cfg, xs, es) && n <= |es|
    requires (frame.Some? ==> frame.value in xs[n].net) && (ack.Some? ==> ack.value in xs[n].acks)
    ensures var h, seg := HeaderOf(T.Segs(frame), T.Hdr(ack)), Payload(T.Segs(frame));
      && Sendable(h, seg)
      && var f := WriteFrame(h, seg, sum);
      && Cobs.Framed((f + stale)[..|f|])
      && var r := ReadBuffer(f + stale, |f|, sum);
      && SegmentIn(r) == T.Segs(frame) && r.header.InRange() && AckIn(r) == T.Hdr(ack)
  {
    hide T.Inv, WriteFrame, ReadBuffer, T.Step, Rem;
    Safety.RunInv(cfg, xs, es, n);
    if frame.Some? { SegmentFits(cfg, xs[n], frame.value); }
    if ack.Some? { AckFits(cfg, xs[n], ack.value); }
    ReadsBack(HeaderOf(T.Segs(frame), T.Hdr(ack)), Payload(T.Segs(frame)), stale, sum);
  }
}
