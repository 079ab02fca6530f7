/**
 * Selective repeat in whole runs: what the receiver lacks of a message when its last segment comes, or
 * when segments stop coming, is reported, and what is reported as lacking is what the sender repeats.
 */
module SelectiveRepeat {
  import opened Arith
  import opened AckVec
  import opened SeqNum
  import opened Messages
  import opened TwoEnded
  import B = Burst
  import I = RecvInvariant
  import R = RecvWindow
  import S = SendWindow
  import RecvAcks
  import RecvSignals
  import Retransmission
  import RunBursts
  import Safety

  /** The arrival of d is reported at once: it is the last segment of its message, or the delay is over. */
  predicate ReportsNow(cfg: Config, d: DataFrame, dt: Time) {
    d.f.seg + 1 == d.f.count || cfg.isaDelay <= dt
  }

  /** Segment d is within reach and new to the receiver. */
  predicate Fresh(cfg: Config, x: Sys, d: DataFrame) {
    x.rb + x.r.slide <= d.k < x.rb + x.r.slide + cfg.rcv.cap && !I.Got(x.r, x.rb, d.k, d.f.seg)
  }

  /** Where a fresh segment goes. */
  lemma {:induction false} FreshArrives(cfg: Config, x: Sys, d: DataFrame, dt: Time)
    requires Inv(cfg, x) && Formed(cfg, x) && Enabled(cfg, x, PollReceiver(Some(d), dt, true)) && Fresh(cfg, x, d)
    ensures R.FrameOk(cfg.rcv, d.f) && d.f.sn == Wire(d.k)
    ensures !R.OutOfReach(cfg.rcv, x.r, d.f.sn) && !RecvSignals.Known(cfg.rcv, x.r, d.f)
    ensures var r, rb := R.Receive(cfg.rcv, x.r, d.f, cfg.isaDelay), ReceiveSys(cfg, x, Some(d)).rb;
      && r.base == Wire(rb) && rb + r.slide <= d.k < rb + r.size
  {
    hide Mul, Quo, Flatten, Has, Rem, Mask, R.Marks, Within, MessageInv, AcksInv, PastInv, I.SlotHolds, R.SlotOk,
      I.Delivered, R.Receive;
    assert I.Genuine(cfg.rcv, d.f, Sealed(x), d.k);
    Safety.NetAhead(cfg, x);
    I.GenuineOk(cfg.rcv, d.f, Sealed(x), d.k);
    I.ReachKeeps(cfg.rcv, x.r, Sealed(x), x.rb, d.k);
    var m, rb := R.Reach(cfg.rcv, x.r, d.f.sn), I.NewBase(cfg.rcv, x.r, x.rb, d.k);
    RecvSignals.ArrivalMoves(cfg.rcv, x.r, d.f, cfg.isaDelay);
    RecvSignals.ReachSlot(cfg.rcv, x.r, d.f.sn, d.f.sn);
    assert I.Got(m, rb, d.k, d.f.seg) <==> I.Got(x.r, x.rb, d.k, d.f.seg);
  }

  /** The receiver's state before it reports. */
  function HeardSys(cfg: Config, x: Sys, d: DataFrame, dt: Time): Sys
    requires Formed(cfg, x) && R.FrameOk(cfg.rcv, d.f)
  {
    ReceiveSys(cfg, x, Some(d)).(r := RecvSignals.Heard(cfg.rcv, x.r, d.f, dt, cfg.isaDelay))
  }

  lemma {:induction false} HeardInv(cfg: Config, x: Sys, d: DataFrame, dt: Time)
    requires Inv(cfg, x) && Formed(cfg, x) && Enabled(cfg, x, PollReceiver(Some(d), dt, true)) && R.FrameOk(cfg.rcv, d.f)
    ensures var z := HeardSys(cfg, x, d, dt);
      && Inv(cfg, z) && z.acks == x.acks && z.r.size <= |z.r.slots|
      && Next(cfg, x, PollReceiver(Some(d), dt, true)) == AckSys(z)
  {
    hide Inv, R.Receive, R.InterSegment, R.SendAck, S.Valid, Enabled, Wire, I.NewBase;
    Safety.ArrivalKeeps(cfg, x, Some(d), dt, true);
    var y := ReceiveSys(cfg, x, Some(d));
    InvFormed(cfg, y);
    Safety.InterSegmentKeeps(cfg, y, dt);
    InvFormed(cfg, y.(r := R.InterSegment(cfg.rcv, y.r, dt)));
  }

  /** The message of the segment is in the window, and the report is of it. */
  lemma {:induction false} ReportNamesIt(cfg: Config, x: Sys, d: DataFrame, dt: Time)
    requires Inv(cfg, x) && Formed(cfg, x) && Enabled(cfg, x, PollReceiver(Some(d), dt, true)) && Fresh(cfg, x, d)
    requires ReportsNow(cfg, d, dt) && RecvSignals.NoneUp(x.r)
    ensures R.FrameOk(cfg.rcv, d.f)
    ensures var z := HeardSys(cfg, x, d, dt);
      && z.rb + z.r.slide <= d.k < z.rb + z.r.size <= z.rb + cfg.rcv.cap && z.r.size <= |z.r.slots|
      && R.SendAck(z.r).1.AckHdr? && R.SendAck(z.r).1.sn == Wire(d.k)
  {
    hide Inv, Mul, Rem, R.Receive, R.InterSegment, R.SendAck, S.Valid, Enabled, I.NewBase, Fresh,
      RecvSignals.Known, R.OutOfReach, RecvSignals.SlotFor, R.SlotOk, Has;
    FreshArrives(cfg, x, d, dt);
    var y, z := ReceiveSys(cfg, x, Some(d)), HeardSys(cfg, x, d, dt);
    RecvSignals.HeardIs(cfg.rcv, x.r, d.f, dt, cfg.isaDelay);
    RecvSignals.TimerSignals(cfg.rcv, y.r, dt);
    RecvSignals.GapIsReported(cfg.rcv, x.r, d.f, dt, cfg.isaDelay);
    WireAhead(z.rb, d.k - z.rb);
    RemSmall(d.k - z.rb, cfg.rcv.cap);
  }

  /** A report that names a message not read out is of exactly the segments that have arrived. */
  lemma {:induction false} ReportIsExact(cfg: Config, z: Sys, k: nat)
    requires Inv(cfg, z) && z.rb + z.r.slide <= k < z.rb + z.r.size <= z.rb + cfg.rcv.cap && z.r.size <= |z.r.slots|
    requires R.SendAck(z.r).1.AckHdr? && R.SendAck(z.r).1.sn == Wire(k)
    ensures var x', vec := AckSys(z), R.SendAck(z.r).1.vec;
      x'.acks == z.acks + {AckFrame(k, vec)} && forall seg: nat :: Has(vec, seg) <==> I.Got(x'.r, x'.rb, k, seg)
  {
    hide Mul, Quo, Flatten, Has, Rem, Mask, R.Marks, MessageInv, AcksInv, PastInv, NetInv, SenderInv, PtrInv,
      I.SlotHolds, I.Delivered, I.Got, R.SendAck;
    RecvAcks.AckIsTruthful(cfg.rcv, z.r, Sealed(z), z.rb);
    WireSame(z.rb + R.FirstDue(z.r, 0), k);
  }

  /**
   * With no other acknowledgement due, the poll in which such a segment arrives puts exactly one
   * acknowledgement on the network: of the segment's message, and of exactly the segments of it that
   * have arrived.
   */
  lemma {:induction false} GapIsAcknowledged(cfg: Config, x: Sys, d: DataFrame, dt: Time)
    requires Inv(cfg, x) && Formed(cfg, x) && Enabled(cfg, x, PollReceiver(Some(d), dt, true)) && Fresh(cfg, x, d)
    requires ReportsNow(cfg, d, dt) && RecvSignals.NoneUp(x.r)
    ensures var x' := Next(cfg, x, PollReceiver(Some(d), dt, true));
      exists vec: Vec ::
        x'.acks == x.acks + {AckFrame(d.k, vec)} && forall seg: nat :: Has(vec, seg) <==> I.Got(x'.r, x'.rb, d.k, seg)
  {
    hide Inv, Next, HeardSys, AckSys, Has, I.Got, Enabled, Fresh, R.SendAck;
    ReportNamesIt(cfg, x, d, dt);
    HeardInv(cfg, x, d, dt);
    var z := HeardSys(cfg, x, d, dt);
    ReportIsExact(cfg, z, d.k);
    var vec := R.SendAck(z.r).1.vec;
    assert AckSys(z).acks == x.acks + {AckFrame(d.k, vec)};
  }

  /** Acknowledgement a names a message of the window and leaves some of its segments out. */
  ghost predicate LeavesOut(x: Sys, a: AckFrame) {
    S.Acceptable(x.s, Wire(a.k)) && a.vec != x.s.msgs[Wire(a.k) - x.s.base].full
  }

  /** The number of segments of the message it names. */
  ghost function NamedCount(cfg: Config, x: Sys, a: AckFrame): nat
    requires cfg.Valid() && LeavesOut(x, a)
  {
    B.Count(cfg.snd, x.s.msgs[Wire(a.k) - x.s.base])
  }

  /** The segments of message sn that are due in w are exactly the first count that are not marked in vec. */
  ghost predicate DueWithout(cfg: Config, w: S.SendWnd, sn: nat, count: nat, vec: Vec)
    requires cfg.Valid()
  {
    forall seg: nat, c: nat ::
      S.SegHdr(sn, seg, c) in B.Due(cfg.snd, w, -1, 0) <==> c == count && seg < count && !Has(vec, seg)
  }

  /** The poll that takes such an acknowledgement leaves exactly those segments of the message due. */
  lemma {:induction false} NakLeavesDue(cfg: Config, x: Sys, a: AckFrame, dt: Time)
    requires cfg.Valid() && Formed(cfg, x) && Possible(x, PollSender(Some(a), dt, false)) && LeavesOut(x, a)
    ensures var x' := Next(cfg, x, PollSender(Some(a), dt, false));
      && DueWithout(cfg, x'.s, Wire(a.k), NamedCount(cfg, x, a), a.vec)
      && x'.p == x.p && !(x'.s.tinyOn && x'.s.tiny == 0)
  {
    hide S.Ack, S.Timers, Wire, B.Due, B.Count, R.Valid, S.Valid;
    S.AckValid(cfg.snd, x.s, Hdr(Some(a)));
    Retransmission.TimersAge(cfg.snd, S.AckStep(x.s, Hdr(Some(a))), dt);
    forall seg: nat, c: nat
      ensures S.SegHdr(Wire(a.k), seg, c) in B.Due(cfg.snd, Next(cfg, x, PollSender(Some(a), dt, false)).s, -1, 0) <==>
        c == NamedCount(cfg, x, a) && seg < c && !Has(a.vec, seg)
    {
      Retransmission.NakStaysDue(cfg.snd, x.s, Wire(a.k), a.vec, dt, seg, c);
    }
  }

  /**
   * In every run: when the sender, its pointer at rest, takes an acknowledgement that leaves something
   * out, the polls that follow announce what is due, once each, and of that message exactly the
   * segments left out.
   */
  lemma {:induction false} MissingIsRepeated(cfg: Config, xs: seq<Sys>, es: seq<Event>, m: nat,
                                             a: AckFrame, dt: Time, hs: seq<S.SegHdr>)
    requires Run(cfg, xs, es) && m < |es| && es[m] == PollSender(Some(a), dt, false) && !xs[m].p.valid && cfg.rto > 0
    requires LeavesOut(xs[m], a) && RunBursts.Announces(cfg, xs, es, m + 1, hs)
    ensures hs == B.Padded(B.Due(cfg.snd, xs[m + 1].s, -1, 0), |hs|)
    ensures DueWithout(cfg, xs[m + 1].s, Wire(a.k), NamedCount(cfg, xs[m], a), a.vec)
  {
    hide Next, Formed, Enabled, B.Due, B.Padded, NamedCount, DueWithout, LeavesOut, Wire, RunBursts.Announces;
    assert Step(cfg, xs[m], es[m], xs[m + 1]);
    assert Possible(xs[m], es[m]) by { EnabledIsPossible(cfg, xs[m], es[m]); }
    NakLeavesDue(cfg, xs[m], a, dt);
    RunBursts.RunBurstEnumerates(cfg, xs, es, m + 1, hs);
  }

  lemma {:induction false} EnabledIsPossible(cfg: Config, x: Sys, e: Event)
    requires Formed(cfg, x) && Enabled(cfg, x, e)
    ensures Possible(x, e)
  {
  }

  /**
   * The gap closes by what was missing: in every run in which a segment arrives that is reported at
   * once, with no other acknowledgement due, there is an acknowledgement that is then on the network
   * for good; whenever the sender takes it with the pointer at rest and does not know more by then,
   * the segments of that message it leaves due are exactly those the receiver had not got.
   */
  lemma {:induction false} GapIsRefilled(cfg: Config, xs: seq<Sys>, es: seq<Event>, n: nat, d: DataFrame, dt: Time)
      returns (a: AckFrame)
    requires Run(cfg, xs, es) && n < |es| && es[n] == PollReceiver(Some(d), dt, true)
    requires Fresh(cfg, xs[n], d) && ReportsNow(cfg, d, dt) && RecvSignals.NoneUp(xs[n].r)
    ensures a.k == d.k && xs[n + 1].acks == xs[n].acks + {a}
    ensures forall m: nat, t: Time :: m < |es| && es[m] == PollSender(Some(a), t, false) && LeavesOut(xs[m], a) ==>
      var count := NamedCount(cfg, xs[m], a);
      forall seg: nat :: seg < count ==>
        (S.SegHdr(Wire(a.k), seg, count) in B.Due(cfg.snd, xs[m + 1].s, -1, 0) <==>
         !I.Got(xs[n + 1].r, xs[n + 1].rb, d.k, seg))
  {
    hide Next, Formed, Enabled, B.Due, NamedCount, LeavesOut, Wire, Inv, SentInv, Fresh, ReportsNow, I.Got, Has;
    Safety.RunInv(cfg, xs, es, n);
    assert Step(cfg, xs[n], es[n], xs[n + 1]);
    GapIsAcknowledged(cfg, xs[n], d, dt);
    var vec: Vec :| xs[n + 1].acks == xs[n].acks + {AckFrame(d.k, vec)}
                    && forall seg: nat :: Has(vec, seg) <==> I.Got(xs[n + 1].r, xs[n + 1].rb, d.k, seg);
    a := AckFrame(d.k, vec);
    forall m: nat, t: Time | m < |es| && es[m] == PollSender(Some(a), t, false) && LeavesOut(xs[m], a)
      ensures DueWithout(cfg, xs[m + 1].s, Wire(a.k), NamedCount(cfg, xs[m], a), a.vec)
    {
      assert Step(cfg, xs[m], es[m], xs[m + 1]);
      EnabledIsPossible(cfg, xs[m], es[m]);
      NakLeavesDue(cfg, xs[m], a, t);
    }
  }
}
