/** Whatever the receiver has, in any run, was put on the network under its own number. */
module Announcing {
  import opened Arith
  import opened AckVec
  import opened SeqNum
  import opened Messages
  import opened TwoEnded
  import opened SenderSteps
  import opened Appending
  import S = SendWindow
  import F = SendFifo
  import R = RecvWindow
  import I = RecvInvariant
  import RecvReading
  import RecvAcks

  /** The sealed messages of x are still there, with as many segments as they had. */
  ghost predicate Kept(cfg: Config, x: Sys, x': Sys)
    requires cfg.Valid()
  {
    && x'.r == x.r && x'.rb == x.rb && x.net <= x'.net
    && |Sealed(x)| <= |Sealed(x')|
    && forall k :: 0 <= k < |Sealed(x)| ==>
         SegCount(|Sealed(x')[k]|, cfg.snd.segLen) == SegCount(|Sealed(x)[k]|, cfg.snd.segLen)
  }

  lemma {:induction false} PrefixKept(cfg: Config, x: Sys, x': Sys)
    requires cfg.Valid() && Sealed(x) <= Sealed(x')
    requires x'.r == x.r && x'.rb == x.rb && x.net <= x'.net
    ensures Kept(cfg, x, x')
  {
    hide Quo, SegCount, Sealed;
  }

  /** Nothing has arrived of a message that is not sealed. */
  lemma {:induction false} GotIsSealed(cfg: Config, x: Sys, k: nat, seg: nat)
    requires Inv(cfg, x) && I.Got(x.r, x.rb, k, seg)
    ensures k < |Sealed(x)|
  {
    hide Mul, Quo, Rem, Has, Flatten, MessageInv, NetInv, AcksInv, PastInv, I.SlotHolds, R.SlotOk, I.Delivered;
  }

  lemma {:induction false} KeptSent(cfg: Config, x: Sys, x': Sys)
    requires Inv(cfg, x) && SentInv(cfg, x) && Kept(cfg, x, x')
    ensures SentInv(cfg, x')
  {
    hide Inv, Sealed, I.Got, Quo, SegCount;
    InvFormed(cfg, x);
    forall k: nat, seg: nat |
      k < |Sealed(x')| && seg < SegCount(|Sealed(x')[k]|, cfg.snd.segLen) && I.Got(x'.r, x'.rb, k, seg)
      ensures Announced(x', k, seg)
    {
      GotIsSealed(cfg, x, k, seg);
      assert Announced(x, k, seg);
    }
  }

  // ---- The sender's steps ----

  lemma {:induction false} SendKept(cfg: Config, x: Sys, src: seq<Byte>)
    requires Inv(cfg, x) && (|src| > 0 && Flushed(cfg, x) ==> MayAppend(cfg, x, src))
    ensures Kept(cfg, x, SendStep(cfg, x, src))
  {
    hide Mul, Quo, Rem, Has, Flatten, I.Inv, MessageInv, NetInv, AcksInv, PastInv, I.Delivered, S.Send, SegCount;
    var x' := SendStep(cfg, x, src);
    if |src| == 0 {
      SendNothing(cfg, x, src);
    } else if !Flushed(cfg, x) {
      SendShape(cfg, x, src);
      SealedPrefix(x, x');
      PrefixKept(cfg, x, x');
    } else {
      var j := |x.s.msgs| - 1;
      AppendedMessage(cfg, x, src);
      F.SendRefinesQueue(cfg.snd, x.s, src, cfg.tinyDelay);
      forall k | 0 <= k < |Sealed(x)|
        ensures k < |Sealed(x')| && SegCount(|Sealed(x')[k]|, cfg.snd.segLen) == SegCount(|Sealed(x)[k]|, cfg.snd.segLen)
      {
        if k >= |x.past| {
          SealedAt(x, k - |x.past|);
          SealedAt(x', k - |x.past|);
        }
      }
    }
  }

  lemma {:induction false} SameBytesKept(cfg: Config, x: Sys, x': Sys)
    requires cfg.Valid() && x'.past == x.past && S.Datas(x'.s.msgs) == S.Datas(x.s.msgs) && (x'.open ==> x.open)
    requires x'.r == x.r && x'.rb == x.rb && x.net <= x'.net
    ensures Kept(cfg, x, x')
  {
    assert |x'.s.msgs| == |S.Datas(x'.s.msgs)| == |x.s.msgs|;
    PrefixKept(cfg, x, x');
  }

  lemma {:induction false} FlushKept(cfg: Config, x: Sys)
    requires Inv(cfg, x)
    ensures Kept(cfg, x, FlushSys(cfg, x))
  {
    hide Mul, Quo, Rem, Has, Flatten, I.Inv, MessageInv, NetInv, AcksInv, PastInv, I.Delivered, S.Flush;
    S.FlushValid(cfg.snd, x.s);
    SameBytesKept(cfg, x, FlushSys(cfg, x));
  }

  lemma {:induction false} AckedKept(cfg: Config, x: Sys, ack: Option<AckFrame>, dt: Time, room: bool)
    requires Inv(cfg, x) && Enabled(cfg, x, PollSender(ack, dt, room))
    ensures Kept(cfg, x, AckedSys(x, ack))
  {
    hide Mul, Quo, Rem, Has, Flatten, I.Inv, NetInv, AcksInv, PastInv, MessageInv, I.Delivered, S.Done, S.Acked, AckedSys, Sealed;
    var x' := AckedSys(x, ack);
    AckedCases(x, ack);
    if ack.Some? && S.Acceptable(x.s, Wire(ack.value.k)) {
      var a := ack.value;
      AckNumber(cfg, x, a);
      var j := Wire(a.k) - x.s.base;
      var ms := S.Acked(x.s.msgs, j, a.vec);
      F.AckedValid(cfg.snd, x.s, j, a.vec);
      forall i: nat | i < |ms| ensures MessageInv(cfg, x.(s := x.s.(msgs := ms)), i) { AckedMessage(cfg, x, a, j, i); }
      SlidePast(cfg, x, ms, S.Done(ms));
      SlidLists(x, x.(s := x.s.(msgs := ms)), x', S.Done(ms));
    }
    PrefixKept(cfg, x, x');
  }

  lemma {:induction false} TimedKept(cfg: Config, x: Sys, dt: Time)
    requires Inv(cfg, x)
    ensures Kept(cfg, x, TimedSys(cfg, x, dt))
  {
    hide Mul, Quo, Rem, Has, Flatten, I.Inv, MessageInv, NetInv, AcksInv, PastInv, I.Delivered, S.Timers;
    S.TimersValid(cfg.snd, x.s, dt);
    SameBytesKept(cfg, x, TimedSys(cfg, x, dt));
  }

  lemma {:induction false} EmitKept(cfg: Config, x: Sys)
    requires Inv(cfg, x)
    ensures Kept(cfg, x, EmitSys(cfg, x))
  {
    hide Mul, Quo, Rem, Has, Flatten, I.Inv, MessageInv, NetInv, AcksInv, PastInv, I.Delivered, S.PtrNext, S.AtSlot, S.Restart, Cut, EmitSys;
    EmitCases(cfg, x);
    RestartBytes(cfg, x);
    SameBytesKept(cfg, x, EmitSys(cfg, x));
  }

  lemma {:induction false} RestartBytes(cfg: Config, x: Sys)
    requires cfg.snd.cap > 0 && x.p.sn < SEQS && x.s.base < SEQS
    ensures S.Datas(S.Restart(cfg.snd, x.s, x.p.sn, cfg.rto).msgs) == S.Datas(x.s.msgs)
  {
    hide Rem;
  }

  // ---- The receiver's steps ----

  /** A receiver step that adds at most one announced segment to what had arrived. */
  lemma {:induction false} ReceiverSent(cfg: Config, x: Sys, x': Sys)
    requires cfg.Valid() && SentInv(cfg, x) && Sealed(x') == Sealed(x) && x'.net == x.net
    requires forall k: nat, seg: nat ::
      k < |Sealed(x)| && seg < SegCount(|Sealed(x)[k]|, cfg.snd.segLen) && I.Got(x'.r, x'.rb, k, seg)
      ==> I.Got(x.r, x.rb, k, seg) || Announced(x, k, seg)
    ensures SentInv(cfg, x')
  {
    hide Sealed, I.Got, Quo, SegCount;
    forall k: nat, seg: nat |
      k < |Sealed(x')| && seg < SegCount(|Sealed(x')[k]|, cfg.snd.segLen) && I.Got(x'.r, x'.rb, k, seg)
      ensures Announced(x', k, seg)
    {
      assert Announced(x, k, seg);
    }
  }

  lemma {:induction false} ArrivalSent(cfg: Config, x: Sys, frame: Option<DataFrame>, dt: Time, room: bool)
    requires Inv(cfg, x) && SentInv(cfg, x) && Enabled(cfg, x, PollReceiver(frame, dt, room))
    requires R.ArrivalOk(cfg.rcv, Segs(frame))
    requires forall d :: d in x.net ==> d.k + 1 < x.rb + SEQS
    ensures SentInv(cfg, ReceiveSys(cfg, x, frame))
  {
    hide Mul, Quo, Rem, Has, Flatten, I.Got, MessageInv, AcksInv, I.SlotHolds, R.Receive, SegCount;
    if frame.Some? {
      var d := frame.value;
      assert I.Genuine(cfg.rcv, d.f, Sealed(x), d.k);
      I.ReceiveKeeps(cfg.rcv, x.r, Sealed(x), x.rb, d.f, d.k, cfg.isaDelay);
      assert Announced(x, d.k, d.f.seg);
      ReceiverSent(cfg, x, ReceiveSys(cfg, x, frame));
    }
  }

  lemma {:induction false} InterSegmentSent(cfg: Config, x: Sys, dt: Time)
    requires Inv(cfg, x) && SentInv(cfg, x)
    ensures SentInv(cfg, x.(r := R.InterSegment(cfg.rcv, x.r, dt)))
  {
    hide Mul, Quo, Rem, Has, Flatten, I.Got, MessageInv, AcksInv, I.SlotHolds, SegCount;
    RecvAcks.InterSegmentSame(cfg.rcv, x.r, dt);
    RecvAcks.AcksKeep(cfg.rcv, x.r, R.InterSegment(cfg.rcv, x.r, dt), Sealed(x), x.rb);
    ReceiverSent(cfg, x, x.(r := R.InterSegment(cfg.rcv, x.r, dt)));
  }

  lemma {:induction false} AckSysSent(cfg: Config, x: Sys)
    requires Inv(cfg, x) && SentInv(cfg, x)
    ensures x.r.size <= |x.r.slots| && SentInv(cfg, AckSys(x))
  {
    hide Mul, Quo, Rem, Has, Flatten, I.Got, MessageInv, AcksInv, I.SlotHolds, SegCount;
    RecvAcks.AckIsTruthful(cfg.rcv, x.r, Sealed(x), x.rb);
    ReceiverSent(cfg, x, AckSys(x));
  }

  lemma {:induction false} ReadSent(cfg: Config, x: Sys, max: nat)
    requires Inv(cfg, x) && SentInv(cfg, x)
    ensures var (r, bytes) := R.Read(cfg.rcv, x.r, max); SentInv(cfg, x.(r := r, delivered := x.delivered + bytes))
  {
    hide Mul, Quo, Rem, Has, Flatten, I.Got, MessageInv, AcksInv, I.Inv, SegCount, R.ReadMessages, R.Valid, I.Delivered, NetInv;
    InvFormed(cfg, x);
    var (r, bytes) := R.Read(cfg.rcv, x.r, max);
    forall k: nat, seg: nat |
      k < |Sealed(x)| && seg < SegCount(|Sealed(x)[k]|, cfg.snd.segLen) && I.Got(r, x.rb, k, seg)
      ensures I.Got(x.r, x.rb, k, seg)
    {
      RecvReading.ReadGot(cfg.rcv, x.r, Sealed(x), x.rb, max, x.r.size, k, seg);
    }
    ReceiverSent(cfg, x, x.(r := r, delivered := x.delivered + bytes));
  }
}
