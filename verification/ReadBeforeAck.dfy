/**
 * A message that is read out before its acknowledgement went out: the slot is cleared with the vector
 * still to be reported, so that from then on the receiver acknowledges it as empty. In a run within
 * the guards such a message never leaves the send window.
 */
module ReadBeforeAck {
  import opened Arith
  import opened AckVec
  import opened SeqNum
  import opened Messages
  import opened TwoEnded
  import opened SenderSteps
  import opened Announcing
  import opened Safety
  import S = SendWindow
  import F = SendFifo
  import R = RecvWindow
  import I = RecvInvariant
  import RecvAcks
  import RecvReading

  /** The vector that completes sealed message k. */
  function Whole(cfg: Config, x: Sys, k: nat): nat
    requires cfg.snd.segLen > 0 && k < |Sealed(x)|
  {
    Mask(SegCount(|Sealed(x)[k]|, cfg.snd.segLen))
  }

  /** Message k is in the send window, not completely acknowledged there. */
  ghost predicate Waiting(x: Sys, k: nat, whole: nat) {
    |x.past| <= k < |x.past| + |x.s.msgs| && x.s.msgs[k - |x.past|].cur != whole
  }

  /** No acknowledgement of all of message k was ever sent. */
  ghost predicate NotAcked(x: Sys, k: nat, whole: nat) {
    forall a :: a in x.acks && a.k == k ==> a.vec != whole
  }

  /** Message k was read out, and nobody knows but the receiver. */
  ghost predicate Stuck(cfg: Config, x: Sys, k: nat)
    requires cfg.snd.segLen > 0
  {
    && k < x.rb + x.r.slide && k < |Sealed(x)|
    && Waiting(x, k, Whole(cfg, x, k)) && NotAcked(x, k, Whole(cfg, x, k))
  }

  // ---- The sender's steps ----

  /** Messages of the window keep their place and what they know, and may get new ones behind them. */
  ghost predicate CursKept(x: Sys, x': Sys) {
    && x'.past == x.past && x'.acks == x.acks && |x.s.msgs| <= |x'.s.msgs|
    && forall j :: 0 <= j < |x.s.msgs| ==> x'.s.msgs[j].cur == x.s.msgs[j].cur
  }

  lemma {:induction false} StuckKept(cfg: Config, x: Sys, x': Sys, k: nat)
    requires cfg.Valid() && Stuck(cfg, x, k) && Kept(cfg, x, x') && CursKept(x, x')
    ensures Stuck(cfg, x', k)
  {
    hide Mask, Quo, SegCount, Sealed;
  }

  lemma {:induction false} SendCurs(cfg: Config, x: Sys, src: seq<Byte>)
    requires S.Valid(cfg.snd, x.s)
    ensures CursKept(x, SendStep(cfg, x, src))
  {
    hide Rem, Mul, Quo, Flatten, S.Cut;
    F.SendRefinesQueue(cfg.snd, x.s, src, cfg.tinyDelay);
  }

  lemma {:induction false} TimedCurs(cfg: Config, x: Sys, dt: Time)
    requires S.Valid(cfg.snd, x.s)
    ensures CursKept(x, FlushSys(cfg, x)) && CursKept(x, TimedSys(cfg, x, dt))
  {
    hide Rem, Mul, Quo, Flatten, Mask, SegCount;
    S.StepValid(cfg.snd, x.s, dt);
  }

  lemma {:induction false} EmitCurs(cfg: Config, x: Sys)
    requires S.Valid(cfg.snd, x.s) && S.PtrOk(x.p)
    ensures CursKept(x, EmitSys(cfg, x))
  {
    hide Rem, Mul, Quo, Flatten, S.PtrNext, S.AtSlot, Cut;
    EmitCases(cfg, x);
  }

  /** An acknowledgement does not complete it, so that it is not slid past. */
  lemma {:induction false} AckedWaits(cfg: Config, x: Sys, ack: Option<AckFrame>, dt: Time, room: bool, k: nat)
    requires Inv(cfg, x) && Enabled(cfg, x, PollSender(ack, dt, room)) && Stuck(cfg, x, k)
    ensures Waiting(AckedSys(x, ack), k, Whole(cfg, x, k))
  {
    hide Mul, Quo, Rem, Has, Flatten, I.Inv, NetInv, AcksInv, PastInv, I.Delivered, S.Acked, S.Done, Mask, Within, I.Got, AckedSys;
    AckedCases(x, ack);
    if ack.Some? && S.Acceptable(x.s, Wire(ack.value.k)) {
      var a := ack.value;
      AckNumber(cfg, x, a);
      var i, j := Wire(a.k) - x.s.base, k - |x.past|;
      var ms := S.Acked(x.s.msgs, i, a.vec);
      assert MessageInv(cfg, x, j);
      SealedIs(x, j);
      AckedCur(x.s.msgs, i, a.vec, j);
      var n := S.Done(ms);
      DoneStops(ms, j);
      assert |S.Datas(x.s.msgs[..n])| == n;
    }
  }

  lemma {:induction false} DoneStops(ms: seq<S.Message>, j: nat)
    requires j < |ms| && ms[j].cur != ms[j].full
    ensures S.Done(ms) <= j
  {
  }

  lemma {:induction false} SealedIs(x: Sys, j: nat)
    requires j < |x.s.msgs| && |x.past| + j < |Sealed(x)|
    ensures Sealed(x)[|x.past| + j] == x.s.msgs[j].data && !(x.open && j == |x.s.msgs| - 1)
  {
  }

  lemma {:induction false} AckedCur(msgs: seq<S.Message>, i: nat, vec: Vec, j: nat)
    requires i < |msgs| && j < |msgs|
    ensures var ms := S.Acked(msgs, i, vec);
      |ms| == |msgs| && ms[j].cur == (if i == j then vec else msgs[j].cur) && ms[j].full == msgs[j].full
  {
  }

  lemma {:induction false} SenderStuck(cfg: Config, x: Sys, ack: Option<AckFrame>, dt: Time, room: bool, k: nat)
    requires Inv(cfg, x) && SentInv(cfg, x) && Formed(cfg, x) && Enabled(cfg, x, PollSender(ack, dt, room)) && Stuck(cfg, x, k)
    ensures Stuck(cfg, Next(cfg, x, PollSender(ack, dt, room)), k)
  {
    hide Inv, SentInv, Kept, CursKept, TimedSys, EmitSys, OpenWaits, S.Valid, R.Valid, Enabled, Mask, Sealed, S.AckStep, FreedBy;
    AckKeeps(cfg, x, ack, dt, room);
    AckedKept(cfg, x, ack, dt, room);
    AckedWaits(cfg, x, ack, dt, room, k);
    var y := AckedSys(x, ack);
    WholeKept(cfg, x, y, k);
    InvFormed(cfg, y);
    TimedKeeps(cfg, y, dt);
    TimedKept(cfg, y, dt);
    TimedCurs(cfg, y, dt);
    var z := TimedSys(cfg, y, dt);
    InvFormed(cfg, z);
    StuckKept(cfg, y, z, k);
    if room {
      EmitKept(cfg, z);
      EmitCurs(cfg, z);
      StuckKept(cfg, z, EmitSys(cfg, z), k);
    }
  }

  lemma {:induction false} WholeKept(cfg: Config, x: Sys, x': Sys, k: nat)
    requires cfg.Valid() && Kept(cfg, x, x') && k < |Sealed(x)|
    ensures k < |Sealed(x')| && Whole(cfg, x', k) == Whole(cfg, x, k)
    ensures x'.r == x.r && x'.rb == x.rb
  {
    hide Mask, Quo, SegCount, Sealed;
  }

  // ---- The receiver's steps ----

  /** The sender is as it was, and the read point has not moved back. */
  ghost predicate ReadOn(x: Sys, x': Sys) {
    x'.s == x.s && x'.past == x.past && x'.open == x.open && x'.acks == x.acks && x.rb + x.r.slide <= x'.rb + x'.r.slide
  }

  lemma {:induction false} StuckReadOn(cfg: Config, x: Sys, x': Sys, k: nat)
    requires cfg.snd.segLen > 0 && Stuck(cfg, x, k) && ReadOn(x, x')
    ensures Stuck(cfg, x', k)
  {
    hide Mask, Quo, SegCount;
    assert Sealed(x') == Sealed(x);
  }

  lemma {:induction false} ArrivalReadOn(cfg: Config, x: Sys, frame: Option<DataFrame>, dt: Time, room: bool)
    requires Inv(cfg, x) && Enabled(cfg, x, PollReceiver(frame, dt, room)) && R.ArrivalOk(cfg.rcv, Segs(frame))
    ensures ReadOn(x, ReceiveSys(cfg, x, frame))
  {
    hide Mul, Quo, Rem, Has, Flatten, I.Got, MessageInv, AcksInv, I.SlotHolds, R.Receive, SegCount, PastInv, PtrInv, R.SlotOk, Sealed;
    if frame.Some? {
      var d := frame.value;
      assert I.Genuine(cfg.rcv, d.f, Sealed(x), d.k);
      NetAhead(cfg, x);
      I.ReceiveKeeps(cfg.rcv, x.r, Sealed(x), x.rb, d.f, d.k, cfg.isaDelay);
    }
  }

  lemma {:induction false} InterSegmentReadOn(cfg: Config, x: Sys, dt: Time)
    requires R.Valid(cfg.rcv, x.r)
    ensures ReadOn(x, x.(r := R.InterSegment(cfg.rcv, x.r, dt)))
  {
    hide R.Valid;
  }

  lemma {:induction false} ReadReadsOn(cfg: Config, x: Sys, max: nat)
    requires Inv(cfg, x)
    ensures var (r, bytes) := R.Read(cfg.rcv, x.r, max); ReadOn(x, x.(r := r, delivered := x.delivered + bytes))
  {
    hide Mul, Quo, Rem, Has, Flatten, I.Got, MessageInv, AcksInv, NetInv, PastInv, I.Inv, I.Delivered, R.ReadMessages;
    RecvReading.ReadContinues(cfg.rcv, x.r, Sealed(x), x.rb, max, x.r.size);
  }

  /** What the receiver acknowledges of it is nothing. */
  lemma {:induction false} AckSysStuck(cfg: Config, x: Sys, k: nat)
    requires Inv(cfg, x) && Stuck(cfg, x, k)
    ensures x.r.size <= |x.r.slots| && Stuck(cfg, AckSys(x), k)
  {
    hide Mul, Quo, Rem, Has, Flatten, I.Got, MessageInv, AcksInv, NetInv, PastInv, I.SlotHolds, I.Delivered, Mask, SegCount, R.SlotOk;
    RecvAcks.AckIsTruthful(cfg.rcv, x.r, Sealed(x), x.rb);
    SomeSegment(cfg, x, k);
    var y := AckSys(x);
    assert Sealed(y) == Sealed(x);
  }

  /** A message has segments, so the vector that completes it is not empty. */
  lemma {:induction false} SomeSegment(cfg: Config, x: Sys, k: nat)
    requires Inv(cfg, x) && k < |Sealed(x)|
    ensures Whole(cfg, x, k) != 0
  {
    hide Mul, Quo, Rem, Has, Flatten, I.Got, MessageInv, AcksInv, NetInv, PastInv, I.SlotHolds, I.Delivered, Mask;
    SegCountBounds(|Sealed(x)[k]|, cfg.rcv);
    MaskOrder(0, SegCount(|Sealed(x)[k]|, cfg.snd.segLen));
    ZeroMask();
  }

  lemma {:induction false} ZeroMask()
    ensures Mask(0) == 0
  {
  }

  lemma {:induction false} ReceiverStuck(cfg: Config, x: Sys, frame: Option<DataFrame>, dt: Time, room: bool, k: nat)
    requires Inv(cfg, x) && Formed(cfg, x) && Enabled(cfg, x, PollReceiver(frame, dt, room)) && Stuck(cfg, x, k)
    ensures Stuck(cfg, Next(cfg, x, PollReceiver(frame, dt, room)), k)
  {
    hide Inv, ReadOn, ReceiveSys, AckSys, R.InterSegment, S.Valid, R.Valid, Enabled, Stuck;
    ArrivalKeeps(cfg, x, frame, dt, room);
    ArrivalReadOn(cfg, x, frame, dt, room);
    var y := ReceiveSys(cfg, x, frame);
    InvFormed(cfg, y);
    StuckReadOn(cfg, x, y, k);
    InterSegmentKeeps(cfg, y, dt);
    InterSegmentReadOn(cfg, y, dt);
    var z := y.(r := R.InterSegment(cfg.rcv, y.r, dt));
    StuckReadOn(cfg, y, z, k);
    if room { AckSysStuck(cfg, z, k); }
  }

  // ---- Runs ----

  lemma {:induction false} NextStuck(cfg: Config, x: Sys, e: Event, k: nat)
    requires Inv(cfg, x) && SentInv(cfg, x) && Formed(cfg, x) && Enabled(cfg, x, e) && Stuck(cfg, x, k)
    ensures Stuck(cfg, Next(cfg, x, e), k)
  {
    hide Inv, SentInv, Stuck, Kept, CursKept, ReadOn, MayAppend, SendStep, FlushSys, R.Read, S.Valid, R.Valid;
    match e
    case Send(src) =>
      SendKept(cfg, x, src);
      SendCurs(cfg, x, src);
      StuckKept(cfg, x, SendStep(cfg, x, src), k);
    case FlushNow =>
      FlushKept(cfg, x);
      TimedCurs(cfg, x, 0);
      StuckKept(cfg, x, FlushSys(cfg, x), k);
    case PollSender(ack, dt, room) => SenderStuck(cfg, x, ack, dt, room, k);
    case PollReceiver(frame, dt, room) => ReceiverStuck(cfg, x, frame, dt, room, k);
    case Read(max) =>
      ReadReadsOn(cfg, x, max);
      var (r, bytes) := R.Read(cfg.rcv, x.r, max);
      StuckReadOn(cfg, x, x.(r := r, delivered := x.delivered + bytes), k);
  }

  /**
   * A message that was read out while no acknowledgement of all of it had been sent, and that the
   * sender does not know to be complete, stays in the send window for the rest of the run.
   */
  lemma {:induction false} ReadBeforeAckIsStuck(cfg: Config, xs: seq<Sys>, es: seq<Event>, n: nat, m: nat, k: nat)
    requires Run(cfg, xs, es) && n <= m <= |es| && cfg.snd.segLen > 0 && Stuck(cfg, xs[n], k)
    ensures Stuck(cfg, xs[m], k) && |xs[m].past| <= k
    decreases m
  {
    hide Inv, SentInv, Next, Stuck;
    if n == m {
      assert |xs[m].past| <= k by { StuckInWindow(cfg, xs[m], k); }
    } else {
      ReadBeforeAckIsStuck(cfg, xs, es, n, m - 1, k);
      RunInv(cfg, xs, es, m - 1);
      assert Step(cfg, xs[m - 1], es[m - 1], xs[m - 1 + 1]);
      NextStuck(cfg, xs[m - 1], es[m - 1], k);
      StuckInWindow(cfg, xs[m], k);
    }
  }

  lemma {:induction false} StuckInWindow(cfg: Config, x: Sys, k: nat)
    requires cfg.snd.segLen > 0 && Stuck(cfg, x, k)
    ensures |x.past| <= k < |x.past| + |x.s.msgs|
  {
    hide Mask, SegCount;
  }
}
