/**
 * Adding bytes to a message that was flushed before it was full. The flush settled how many segments
 * the message has, and its last segment may be on its way; this is exactly when that does no harm.
 */
module Appending {
  import opened Arith
  import opened AckVec
  import opened Messages
  import opened TwoEnded
  import opened SenderSteps
  import S = SendWindow
  import F = SendFifo
  import R = RecvWindow
  import I = RecvInvariant
  import RecvReading

  // ---- One message that grows ----

  /** m2 is m with more bytes, but no more segments. */
  ghost predicate Stretched(m: seq<Byte>, m2: seq<Byte>, segLen: nat)
    requires segLen > 0
  {
    0 < |m| && m <= m2 && SegCount(|m|, segLen) == SegCount(|m2|, segLen)
  }

  /** All segments but the last are the same. */
  lemma {:induction false} SegmentsSame(m: seq<Byte>, m2: seq<Byte>, seg: nat, S: nat)
    requires S > 0 && Stretched(m, m2, S) && seg + 1 < SegCount(|m|, S)
    ensures I.SegmentOf(m2, seg, S) == I.SegmentOf(m, seg, S)
  {
    SegCountIs(|m|, S, seg + 1);
    SegCountIs(|m|, S, seg);
    assert Mul(seg + 1, S) == Mul(seg, S) + S;
    hide Mul, SegCount;
    assert m2[..|m|] == m;
  }

  /** The last segment grows with the message. */
  lemma {:induction false} LastSegmentGrows(m: seq<Byte>, m2: seq<Byte>, S: nat)
    requires S > 0 && Stretched(m, m2, S)
    ensures SegCount(|m|, S) > 0
    ensures var n := SegCount(|m|, S); |I.SegmentOf(m2, n - 1, S)| - |I.SegmentOf(m, n - 1, S)| == |m2| - |m|
  {
    var n := SegCount(|m|, S);
    SegCountIs(|m|, S, 0);
    SegCountIs(|m|, S, n - 1);
    SegCountIs(|m2|, S, n - 1);
    SegCountIs(|m2|, S, n);
    assert Mul(n, S) == Mul(n - 1, S) + S;
    hide Mul, SegCount;
  }

  lemma {:induction false} StoredLenSame(m: seq<Byte>, m2: seq<Byte>, v: nat, k: nat, S: nat)
    requires S > 0 && Stretched(m, m2, S) && k <= SegCount(|m|, S) && !Has(v, SegCount(|m|, S) - 1)
    requires SegCount(|m|, S) > 0
    ensures I.StoredLen(m2, v, k, S) == I.StoredLen(m, v, k, S)
  {
    if k > 0 {
      StoredLenSame(m, m2, v, k - 1, S);
      if k < SegCount(|m|, S) { SegmentsSame(m, m2, k - 1, S); }
    }
  }

  /** A slot that does not hold the last segment goes on collecting the message. */
  lemma {:induction false} HoldsStretched(sh: Shape, s: R.Slot, m: seq<Byte>, m2: seq<Byte>)
    requires sh.Valid() && Stretched(m, m2, sh.segLen) && I.Holds(sh, s, m)
    requires SegCount(|m|, sh.segLen) > 0 && !Has(s.cur, SegCount(|m|, sh.segLen) - 1)
    ensures I.Holds(sh, s, m2)
  {
    hide Mul, Quo, Has, I.StoredLen;
    var n := SegCount(|m|, sh.segLen);
    StoredLenSame(m, m2, s.cur, n, sh.segLen);
    forall i: nat | i < n && Has(s.cur, i) ensures s.cur != 0 ==> I.HasSegment(s.data, m2, i, sh.segLen) {
      if s.cur != 0 {
        assert I.HasSegment(s.data, m, i, sh.segLen);
        SegmentsSame(m, m2, i, sh.segLen);
      }
    }
  }

  /** A receiver that does not have the last segment of message k cannot tell that it grew. */
  lemma {:induction false} ReceiverStretched(sh: Shape, w: R.RecvWnd, msgs: seq<seq<Byte>>, rb: nat, k: nat, m2: seq<Byte>)
    requires I.Inv(sh, w, msgs, rb) && k < |msgs| && Stretched(msgs[k], m2, sh.segLen) && |m2| <= sh.MsgLen()
    requires SegCount(|msgs[k]|, sh.segLen) > 0 && !I.Got(w, rb, k, SegCount(|msgs[k]|, sh.segLen) - 1)
    ensures I.Inv(sh, w, msgs[k := m2], rb)
    ensures rb + w.slide <= |msgs|
    ensures w.copyOfs > 0 ==> rb + w.slide < |msgs| && w.copyOfs <= |msgs[rb + w.slide]|
    ensures w.copyOfs > 0 ==> w.copyOfs <= |msgs[k := m2][rb + w.slide]|
    ensures I.Delivered(w, msgs[k := m2], rb) == I.Delivered(w, msgs, rb)
  {
    hide Mul, Quo, Has, Rem, R.Marks, I.Holds, I.Blank, Flatten, R.SlotOk, I.SlotHolds;
    var msgs' := msgs[k := m2];
    forall j: nat | j < |w.slots| ensures I.SlotHolds(sh, w, msgs', rb, j) {
      SlotStretched(sh, w, msgs, rb, k, m2, j);
    }
    ReadPointBefore(sh, w, msgs, rb, k);
    assert msgs'[..rb + w.slide] == msgs[..rb + w.slide];
  }

  lemma {:induction false} SlotStretched(sh: Shape, w: R.RecvWnd, msgs: seq<seq<Byte>>, rb: nat, k: nat, m2: seq<Byte>, j: nat)
    requires I.Inv(sh, w, msgs, rb) && k < |msgs| && Stretched(msgs[k], m2, sh.segLen) && j < |w.slots|
    requires SegCount(|msgs[k]|, sh.segLen) > 0 && !I.Got(w, rb, k, SegCount(|msgs[k]|, sh.segLen) - 1)
    ensures I.SlotHolds(sh, w, msgs[k := m2], rb, j)
  {
    hide Mul, Quo, Has, Rem, R.Marks, I.Holds, I.Blank, R.SlotOk;
    assert I.SlotHolds(sh, w, msgs, rb, j);
    if w.slide <= j < w.size && rb + j == k {
      HoldsStretched(sh, w.slots[j], msgs[k], m2);
    }
  }

  /** The read point is not behind, nor inside, a message whose last segment is missing. */
  lemma {:induction false} ReadPointBefore(sh: Shape, w: R.RecvWnd, msgs: seq<seq<Byte>>, rb: nat, k: nat)
    requires I.Inv(sh, w, msgs, rb) && k < |msgs|
    requires SegCount(|msgs[k]|, sh.segLen) > 0 && !I.Got(w, rb, k, SegCount(|msgs[k]|, sh.segLen) - 1)
    ensures rb + w.slide <= k
    ensures w.copyOfs > 0 ==> rb + w.slide < k && w.copyOfs < |msgs[rb + w.slide]|
  {
    hide Mul, Quo, Has, Rem, R.Marks, I.Holds, I.Blank, I.SlotHolds;
    if w.copyOfs > 0 {
      var j := w.slide;
      var s := w.slots[j];
      assert I.SlotHolds(sh, w, msgs, rb, j);
      RecvReading.SlotKnown(sh, w, msgs, rb, j);
      I.CompleteSlot(sh, s, msgs[rb + j]);
    }
  }

  // ---- A send that fits in the flushed message ----

  /** The system after a send that fits. */
  lemma {:induction false} FitStep(cfg: Config, x: Sys, src: seq<Byte>)
    requires Inv(cfg, x) && Flushed(cfg, x) && |src| > 0
    requires |x.s.msgs[|x.s.msgs| - 1].data| + |src| <= cfg.snd.MsgLen()
    ensures SendStep(cfg, x, src) == x.(s := F.Grown(cfg.snd, x.s, src), accepted := x.accepted + src)
  {
    hide Rem, Mul, Quo, Flatten, I.Inv, MessageInv, NetInv, AcksInv, PastInv, I.Delivered, S.Send;
    F.SendGrows(cfg.snd, x.s, src, cfg.tinyDelay);
    assert src[..|src|] == src;
  }

  /** The list of sealed messages after it. */
  lemma {:induction false} FitSealed(cfg: Config, x: Sys, src: seq<Byte>)
    requires !x.open && |x.s.msgs| > 0
    ensures var x', j := x.(s := F.Grown(cfg.snd, x.s, src), accepted := x.accepted + src), |x.s.msgs| - 1;
      && |Sealed(x)| == |x.past| + j + 1 && Sealed(x)[|x.past| + j] == x.s.msgs[j].data
      && Sealed(x') == Sealed(x)[|x.past| + j := x.s.msgs[j].data + src]
      && All(x') == Sealed(x') && All(x) == Sealed(x)
  {
    var x', j := x.(s := F.Grown(cfg.snd, x.s, src), accepted := x.accepted + src), |x.s.msgs| - 1;
    assert S.Datas(x'.s.msgs) == S.Datas(x.s.msgs)[j := x.s.msgs[j].data + src];
  }

  /** The last message gets no more segments, and its last one is nowhere. */
  ghost predicate Fits(cfg: Config, x: Sys, src: seq<Byte>)
    requires cfg.Valid()
  {
    && Inv(cfg, x) && SentInv(cfg, x) && Flushed(cfg, x) && |src| > 0
    && |x.s.msgs[|x.s.msgs| - 1].data| + |src| <= cfg.snd.MsgLen()
    && MayAppend(cfg, x, src)
  }

  lemma {:induction false} FitsStretched(cfg: Config, x: Sys, src: seq<Byte>)
    requires cfg.Valid() && Fits(cfg, x, src)
    ensures var j := |x.s.msgs| - 1; var m, n := x.s.msgs[j].data, SegCount(|x.s.msgs[j].data|, cfg.snd.segLen);
      && Stretched(m, m + src, cfg.snd.segLen) && n > 0
      && !I.Got(x.r, x.rb, |x.past| + j, n - 1)
      && |m + src| <= cfg.rcv.MsgLen()
  {
    hide Rem, Mul, Quo, Flatten, I.Inv, MessageInv, NetInv, AcksInv, PastInv, I.Delivered, I.Got;
    var j := |x.s.msgs| - 1;
    FitSealed(cfg, x, src);
    SegCountBounds(|x.s.msgs[j].data|, cfg.snd);
  }

  lemma {:induction false} FitNet(cfg: Config, x: Sys, src: seq<Byte>)
    requires cfg.Valid() && Fits(cfg, x, src)
    ensures NetInv(cfg, x.(s := F.Grown(cfg.snd, x.s, src), accepted := x.accepted + src))
  {
    hide Rem, Mul, Quo, Flatten, I.Inv, MessageInv, AcksInv, PastInv, I.Delivered, I.Got, Inv, SentInv, Has;
    var x', j := x.(s := F.Grown(cfg.snd, x.s, src), accepted := x.accepted + src), |x.s.msgs| - 1;
    FitSealed(cfg, x, src);
    FitsStretched(cfg, x, src);
    InvNet(cfg, x);
    var k, m := |x.past| + j, x.s.msgs[j].data;
    forall d | d in x'.net ensures I.Genuine(cfg.rcv, d.f, Sealed(x'), d.k) {
      assert I.Genuine(cfg.rcv, d.f, Sealed(x), d.k);
      if d.k == k {
        assert !(d.f.seg == SegCount(|m|, cfg.snd.segLen) - 1);
        SegmentsSame(m, m + src, d.f.seg, cfg.snd.segLen);
      }
    }
  }

  lemma {:induction false} InvNet(cfg: Config, x: Sys)
    requires Inv(cfg, x)
    ensures NetInv(cfg, x) && AcksInv(cfg, x) && PastInv(cfg, x)
    ensures cfg.rcv.segLen == cfg.snd.segLen
  {
  }

  lemma {:induction false} FitAcks(cfg: Config, x: Sys, src: seq<Byte>)
    requires cfg.Valid() && Fits(cfg, x, src)
    ensures AcksInv(cfg, x.(s := F.Grown(cfg.snd, x.s, src), accepted := x.accepted + src))
  {
    hide Rem, Mul, Quo, Flatten, I.Inv, MessageInv, PastInv, I.Delivered, I.Got, Inv, SentInv, Has, Within;
    var x', j := x.(s := F.Grown(cfg.snd, x.s, src), accepted := x.accepted + src), |x.s.msgs| - 1;
    FitSealed(cfg, x, src);
    FitsStretched(cfg, x, src);
    InvNet(cfg, x);
    forall a | a in x'.acks ensures AckInv(cfg, x', a) { assert AckInv(cfg, x, a); }
  }

  lemma {:induction false} FitMessages(cfg: Config, x: Sys, src: seq<Byte>, i: nat)
    requires cfg.Valid() && Fits(cfg, x, src) && i < |x.s.msgs|
    ensures MessageInv(cfg, x.(s := F.Grown(cfg.snd, x.s, src), accepted := x.accepted + src), i)
  {
    hide Rem, Mul, Quo, Flatten, I.Inv, AcksInv, NetInv, PastInv, I.Delivered, I.Got, SentInv, Has, Within, Mask;
    FitsStretched(cfg, x, src);
    assert MessageInv(cfg, x, i);
  }

  /** A send that fits and may append keeps the invariant. */
  lemma {:induction false} FitKeeps(cfg: Config, x: Sys, src: seq<Byte>)
    requires cfg.Valid() && Fits(cfg, x, src)
    ensures Inv(cfg, SendStep(cfg, x, src))
  {
    hide Rem, Mul, Quo, Flatten, I.Inv, MessageInv, NetInv, AcksInv, I.Delivered, I.Got, SentInv, MayAppend, S.Send, SendStep;
    var x', j := SendStep(cfg, x, src), |x.s.msgs| - 1;
    FitStep(cfg, x, src);
    FitSealed(cfg, x, src);
    FitsStretched(cfg, x, src);
    FitNet(cfg, x, src);
    FitAcks(cfg, x, src);
    F.SendRefinesQueue(cfg.snd, x.s, src, cfg.tinyDelay);
    F.SendGrows(cfg.snd, x.s, src, cfg.tinyDelay);
    assert src[..|src|] == src;
    forall i: nat | i < |x'.s.msgs| ensures MessageInv(cfg, x', i) { FitMessages(cfg, x, src, i); }
    ReceiverStretched(cfg.rcv, x.r, Sealed(x), x.rb, |x.past| + j, x.s.msgs[j].data + src);
    FlattenConcat(x.past, S.Datas(x.s.msgs));
    FlattenConcat(x.past, S.Datas(x'.s.msgs));
    PastSame(cfg, x, x');
  }

  // ---- Any send to a flushed message ----

  /** A send that goes past the flushed message fills it, and then goes on as if it had been full. */
  lemma {:induction false} PastStep(cfg: Config, x: Sys, a: seq<Byte>, b: seq<Byte>)
    requires Inv(cfg, x) && Flushed(cfg, x) && |b| > 0
    requires |x.s.msgs[|x.s.msgs| - 1].data| + |a| == cfg.snd.MsgLen()
    ensures S.Valid(cfg.snd, SendStep(cfg, x, a).s) && !Flushed(cfg, SendStep(cfg, x, a))
    ensures SendStep(cfg, x, a + b) == SendStep(cfg, SendStep(cfg, x, a), b)
  {
    hide Rem, Mul, Quo, Flatten, I.Inv, MessageInv, NetInv, AcksInv, PastInv, I.Delivered, S.Send;
    var y := SendStep(cfg, x, a);
    FitStep(cfg, x, a);
    F.SendSplits(cfg.snd, x.s, a, b, cfg.tinyDelay);
    F.SendRefinesQueue(cfg.snd, x.s, a + b, cfg.tinyDelay);
    F.SendRefinesQueue(cfg.snd, x.s, a, cfg.tinyDelay);
    F.SendGrows(cfg.snd, x.s, a, cfg.tinyDelay);
    F.SendRefinesQueue(cfg.snd, y.s, b, cfg.tinyDelay);
    TinyMeansPartial(cfg, x, a + b);
    TinyMeansPartial(cfg, y, b);
    assert a[..|a|] == a;
    var t := S.Taken(cfg.snd, y.s, b);
    assert x.accepted + (a + b[..t]) == (x.accepted + a) + b[..t];
  }

  /** A send that may append keeps the invariant. */
  lemma {:induction false} AppendKeeps(cfg: Config, x: Sys, src: seq<Byte>)
    requires Inv(cfg, x) && SentInv(cfg, x) && Flushed(cfg, x) && |src| > 0 && MayAppend(cfg, x, src)
    ensures Inv(cfg, SendStep(cfg, x, src))
  {
    hide Rem, Mul, Quo, Flatten, I.Inv, MessageInv, NetInv, AcksInv, PastInv, I.Delivered, I.Got, SentInv, SendStep;
    var L, len := cfg.snd.MsgLen(), |x.s.msgs[|x.s.msgs| - 1].data|;
    if len + |src| <= L {
      FitKeeps(cfg, x, src);
    } else {
      var a, b := src[..L - len], src[L - len..];
      assert a + b == src;
      FitKeeps(cfg, x, a);
      PastStep(cfg, x, a, b);
      SendKeeps(cfg, SendStep(cfg, x, a), b);
    }
  }

  /** What any send makes of the flushed message. */
  lemma {:induction false} AppendedMessage(cfg: Config, x: Sys, src: seq<Byte>)
    requires Inv(cfg, x) && Flushed(cfg, x) && |src| > 0
    ensures var x', j := SendStep(cfg, x, src), |x.s.msgs| - 1;
      && j < |x'.s.msgs| && !(x'.open && j == |x'.s.msgs| - 1)
      && x'.s.msgs[j].full == x.s.msgs[j].full
      && |x'.s.msgs[j].data| == Min(|x.s.msgs[j].data| + |src|, cfg.snd.MsgLen())
      && x.s.msgs[j].data <= x'.s.msgs[j].data
  {
    hide Rem, Mul, Quo, Flatten, I.Inv, MessageInv, NetInv, AcksInv, PastInv, I.Delivered, S.Send, S.Cut;
    var L, j := cfg.snd.MsgLen(), |x.s.msgs| - 1;
    var len := |x.s.msgs[j].data|;
    var x' := SendStep(cfg, x, src);
    F.SendRefinesQueue(cfg.snd, x.s, src, cfg.tinyDelay);
    if len + |src| <= L {
      F.SendGrows(cfg.snd, x.s, src, cfg.tinyDelay);
    } else {
      var a, b := src[..L - len], src[L - len..];
      assert a + b == src;
      F.SendGrows(cfg.snd, x.s, a, cfg.tinyDelay);
      F.SendSplits(cfg.snd, x.s, a, b, cfg.tinyDelay);
      F.SendRefinesQueue(cfg.snd, S.Send(cfg.snd, x.s, a, cfg.tinyDelay), b, cfg.tinyDelay);
      TinyMeansPartial(cfg, x, src);
    }
    VectorsStay(cfg, x, src);
  }

  lemma {:induction false} VectorsStay(cfg: Config, x: Sys, src: seq<Byte>)
    requires S.Valid(cfg.snd, x.s) && |src| > 0
    ensures var s := S.Send(cfg.snd, x.s, src, cfg.tinyDelay);
      |x.s.msgs| <= |s.msgs| && forall j :: 0 <= j < |x.s.msgs| ==> s.msgs[j].full == x.s.msgs[j].full
  {
    hide Rem, Mul, Quo, Flatten, S.Cut;
    F.SendRefinesQueue(cfg.snd, x.s, src, cfg.tinyDelay);
  }

  lemma {:induction false} SealedAt(x: Sys, j: nat)
    requires j < SealedSize(x)
    ensures |x.past| + j < |Sealed(x)| && Sealed(x)[|x.past| + j] == x.s.msgs[j].data
  {
  }

  /** The message has more segments than its vector says. */
  lemma {:induction false} CountBreaks(cfg: Config, x: Sys, src: seq<Byte>)
    requires Inv(cfg, x) && Flushed(cfg, x) && |src| > 0
    requires var len := |x.s.msgs[|x.s.msgs| - 1].data|;
      SegCount(Min(len + |src|, cfg.snd.MsgLen()), cfg.snd.segLen) != SegCount(len, cfg.snd.segLen)
    ensures !Inv(cfg, SendStep(cfg, x, src))
  {
    hide Rem, Mul, Quo, Flatten, I.Inv, NetInv, AcksInv, PastInv, I.Delivered, SendStep, I.Got, Has, Within, Mask, SegCount;
    var x', j := SendStep(cfg, x, src), |x.s.msgs| - 1;
    AppendedMessage(cfg, x, src);
    assert MessageInv(cfg, x, j);
    MaskOrder(SegCount(|x'.s.msgs[j].data|, cfg.snd.segLen), SegCount(|x.s.msgs[j].data|, cfg.snd.segLen));
    assert !MessageInv(cfg, x', j);
  }

  /** The last segment is on the network as it was. */
  lemma {:induction false} FrameBreaks(cfg: Config, x: Sys, src: seq<Byte>, d: DataFrame)
    requires Inv(cfg, x) && Flushed(cfg, x) && |src| > 0
    requires var j := |x.s.msgs| - 1; var n := SegCount(|x.s.msgs[j].data|, cfg.snd.segLen);
      && SegCount(Min(|x.s.msgs[j].data| + |src|, cfg.snd.MsgLen()), cfg.snd.segLen) == n
      && d in x.net && d.k == |x.past| + j && d.f.seg == n - 1
    ensures !Inv(cfg, SendStep(cfg, x, src))
  {
    hide Rem, Mul, Quo, Flatten, I.Inv, AcksInv, PastInv, I.Delivered, SendStep, I.Got, Has, Within, Mask, SegCount, MessageInv;
    var x', j := SendStep(cfg, x, src), |x.s.msgs| - 1;
    AppendedMessage(cfg, x, src);
    LastSegmentGrows(x.s.msgs[j].data, x'.s.msgs[j].data, cfg.snd.segLen);
    SealedAt(x, j);
    SealedAt(x', j);
    assert x'.past == x.past && x'.net == x.net by { SendFrame(cfg, x, src); }
    assert I.Genuine(cfg.rcv, d.f, Sealed(x), d.k);
    assert !I.Genuine(cfg.rcv, d.f, Sealed(x'), d.k);
  }

  lemma {:induction false} SendFrame(cfg: Config, x: Sys, src: seq<Byte>)
    requires S.Valid(cfg.snd, x.s)
    ensures var x' := SendStep(cfg, x, src); x' == x.(s := x'.s, open := x'.open, accepted := x'.accepted)
  {
  }

  /**
   * Bytes sent after a flush of an unfinished message keep the two-ended invariant exactly when they
   * give the message no more segments and its last segment was never on the network.
   */
  lemma {:induction false} AppendKeepsIff(cfg: Config, x: Sys, src: seq<Byte>)
    requires Inv(cfg, x) && SentInv(cfg, x) && Flushed(cfg, x) && |src| > 0
    ensures Inv(cfg, SendStep(cfg, x, src)) <==> MayAppend(cfg, x, src)
  {
    hide Inv, SentInv, SendStep;
    InvFormed(cfg, x);
    var j := |x.s.msgs| - 1;
    var n := SegCount(|x.s.msgs[j].data|, cfg.snd.segLen);
    if MayAppend(cfg, x, src) {
      AppendKeeps(cfg, x, src);
    } else if SegCount(Min(|x.s.msgs[j].data| + |src|, cfg.snd.MsgLen()), cfg.snd.segLen) != n {
      CountBreaks(cfg, x, src);
    } else {
      var d :| d in x.net && d.k == |x.past| + j && d.f.seg == n - 1;
      FrameBreaks(cfg, x, src, d);
    }
  }
}
