/** The receiver's steps keep the two-ended invariant, and what that means for whole runs. */
module Safety {
  import opened Arith
  import opened AckVec
  import opened SeqNum
  import opened Messages
  import opened TwoEnded
  import S = SendWindow
  import opened SenderSteps
  import opened Appending
  import opened Announcing
  import R = RecvWindow
  import I = RecvInvariant
  import RecvReading
  import RecvAcks

  // ---- The receiver ----

  /** A receiver step that keeps its own invariant, the read point and everything that had arrived. */
  lemma {:induction false} ReceiverKeeps(cfg: Config, x: Sys, x': Sys)
    requires Inv(cfg, x) && x' == x.(r := x'.r, rb := x'.rb, delivered := x'.delivered)
    requires I.Inv(cfg.rcv, x'.r, Sealed(x), x'.rb)
    requires forall k: nat, seg: nat :: I.Got(x.r, x.rb, k, seg) ==> I.Got(x'.r, x'.rb, k, seg)
    requires x'.r.copyOfs > 0 ==> x'.rb + x'.r.slide < |Sealed(x)| && x'.r.copyOfs <= |Sealed(x)[x'.rb + x'.r.slide]|
    requires x'.rb + x'.r.slide <= |Sealed(x)| && x'.delivered == I.Delivered(x'.r, Sealed(x), x'.rb)
    ensures Inv(cfg, x')
  {
    hide Mul, Quo, Flatten, I.Inv, Has, Rem, I.Delivered, Mask, I.Got, Within;
    assert Sealed(x') == Sealed(x) && All(x') == All(x);
    forall j: nat | j < |x'.s.msgs| ensures MessageInv(cfg, x', j) { assert MessageInv(cfg, x, j); }
    forall k: nat | k < |x'.past| ensures Complete(cfg, x', k, x'.past[k]) { assert Complete(cfg, x, k, x.past[k]); }
    forall a | a in x'.acks ensures AckInv(cfg, x', a) { assert AckInv(cfg, x, a); }
  }

  /** The send base is never ahead of the receive window: what it passed has been received. */
  lemma {:induction false} PastWithinReach(cfg: Config, x: Sys)
    requires Inv(cfg, x)
    ensures |x.past| <= x.rb + x.r.size <= x.rb + cfg.rcv.cap
  {
    hide Mul, Flatten, Has, Rem, I.Delivered, Mask, Within, MessageInv, NetInv, AcksInv;
    if |x.past| > 0 {
      var k := |x.past| - 1;
      assert Complete(cfg, x, k, x.past[k]);
      SegCountBounds(|x.past[k]|, cfg.snd);
      assert I.Got(x.r, x.rb, k, 0);
    }
  }

  lemma {:induction false} ArrivalKeeps(cfg: Config, x: Sys, frame: Option<DataFrame>, dt: Time, room: bool)
    requires Inv(cfg, x) && Enabled(cfg, x, PollReceiver(frame, dt, room))
    ensures R.ArrivalOk(cfg.rcv, Segs(frame))
    ensures Inv(cfg, ReceiveSys(cfg, x, frame))
  {
    hide Mul, Quo, Flatten, Has, Rem, Mask, I.Got, Within, MessageInv, AcksInv, I.SlotHolds, R.Receive, PastInv, PtrInv, R.SlotOk, Sealed, Wire;
    if frame.Some? {
      var d := frame.value;
      assert I.Genuine(cfg.rcv, d.f, Sealed(x), d.k);
      NetAhead(cfg, x);
      I.ReceiveKeeps(cfg.rcv, x.r, Sealed(x), x.rb, d.f, d.k, cfg.isaDelay);
      ReceiverKeeps(cfg, x, ReceiveSys(cfg, x, frame));
    }
  }

  lemma {:induction false} InterSegmentKeeps(cfg: Config, x: Sys, dt: Time)
    requires Inv(cfg, x)
    ensures Inv(cfg, x.(r := R.InterSegment(cfg.rcv, x.r, dt)))
  {
    hide Mul, Quo, Flatten, Has, Rem, Mask, I.Got, Within, MessageInv, AcksInv, I.SlotHolds;
    RecvAcks.InterSegmentSame(cfg.rcv, x.r, dt);
    RecvAcks.AcksKeep(cfg.rcv, x.r, R.InterSegment(cfg.rcv, x.r, dt), Sealed(x), x.rb);
    ReceiverKeeps(cfg, x, x.(r := R.InterSegment(cfg.rcv, x.r, dt)));
  }

  lemma {:induction false} AcksGrow(cfg: Config, x: Sys, a: AckFrame)
    requires Inv(cfg, x) && AckInv(cfg, x, a)
    ensures Inv(cfg, x.(acks := x.acks + {a}))
  {
    hide Mul, Quo, Flatten, I.Inv, Has, Rem, I.Delivered, Mask, I.Got, Within;
    var x' := x.(acks := x.acks + {a});
    assert Sealed(x') == Sealed(x) && All(x') == All(x);
    forall j: nat | j < |x'.s.msgs| ensures MessageInv(cfg, x', j) { assert MessageInv(cfg, x, j); }
    forall k: nat | k < |x'.past| ensures Complete(cfg, x', k, x'.past[k]) { assert Complete(cfg, x, k, x.past[k]); }
    forall b | b in x'.acks ensures AckInv(cfg, x', b) { if b != a { assert AckInv(cfg, x, b); } }
  }

  /** The vector of a slot marks segments of its message only. */
  lemma {:induction false} VectorWithin(cfg: Config, x: Sys, j: nat)
    requires Inv(cfg, x) && j < x.r.size
    ensures Within(x.r.slots[j].cur, SegCount(|Sealed(x)[x.rb + j]|, cfg.snd.segLen))
  {
    hide Mul, Quo, Flatten, Rem, MessageInv, AcksInv, NetInv, PastInv, I.StoredLen, I.HasSegment;
    assert I.SlotHolds(cfg.rcv, x.r, Sealed(x), x.rb, j);
    NoMarks(SegCount(|Sealed(x)[x.rb + j]|, cfg.snd.segLen));
  }

  /** Sending an acknowledgement, before it is on the network. */
  lemma {:induction false} SendAckKeeps(cfg: Config, x: Sys)
    requires Inv(cfg, x)
    ensures x.r.size <= |x.r.slots|
    ensures Inv(cfg, x.(r := R.SendAck(x.r).0))
  {
    hide Mul, Quo, Flatten, Has, Rem, Mask, I.Got, Within, MessageInv, AcksInv, I.SlotHolds, PastInv, NetInv, SenderInv, PtrInv;
    RecvAcks.AckIsTruthful(cfg.rcv, x.r, Sealed(x), x.rb);
    ReceiverKeeps(cfg, x, x.(r := R.SendAck(x.r).0));
  }

  /** What the acknowledgement says is true of the receiver. */
  lemma {:induction false} NewAckInv(cfg: Config, x: Sys)
    requires Inv(cfg, x) && x.r.size <= |x.r.slots| && R.SendAck(x.r).1.AckHdr?
    ensures AckInv(cfg, x.(r := R.SendAck(x.r).0), AckFrame(x.rb + R.FirstDue(x.r, 0), R.SendAck(x.r).1.vec))
  {
    hide Mul, Quo, Flatten, Has, Rem, Mask, I.Got, Within, MessageInv, AcksInv, I.SlotHolds, PastInv, NetInv, SenderInv, PtrInv;
    RecvAcks.AckIsTruthful(cfg.rcv, x.r, Sealed(x), x.rb);
    VectorWithin(cfg, x, R.FirstDue(x.r, 0));
  }

  lemma {:induction false} AckSysKeeps(cfg: Config, x: Sys)
    requires Inv(cfg, x)
    ensures x.r.size <= |x.r.slots| && Inv(cfg, AckSys(x))
  {
    hide Inv, AckInv;
    SendAckKeeps(cfg, x);
    if R.SendAck(x.r).1.AckHdr? {
      NewAckInv(cfg, x);
      AcksGrow(cfg, x.(r := R.SendAck(x.r).0), AckFrame(x.rb + R.FirstDue(x.r, 0), R.SendAck(x.r).1.vec));
    }
  }

  lemma {:induction false} ReadKeeps(cfg: Config, x: Sys, max: nat)
    requires Inv(cfg, x)
    ensures var (r, bytes) := R.Read(cfg.rcv, x.r, max);
      Inv(cfg, x.(r := r, delivered := x.delivered + bytes))
  {
    hide Mul, Quo, Flatten, Has, Rem, Mask, I.Got, Within, MessageInv, AcksInv, I.SlotHolds, R.ReadMessages;
    RecvReading.ReadContinues(cfg.rcv, x.r, Sealed(x), x.rb, max, x.r.size);
    var (r, bytes) := R.Read(cfg.rcv, x.r, max);
    ReceiverKeeps(cfg, x, x.(r := r, delivered := x.delivered + bytes));
  }

  // ---- Runs ----

  /** No frame on the network is ahead of the receiver by as much as the sequence space. */
  lemma {:induction false} NetAhead(cfg: Config, x: Sys)
    requires Inv(cfg, x)
    ensures forall d :: d in x.net ==> d.k + 1 < x.rb + SEQS
  {
    hide Mul, Quo, Flatten, Has, Rem, Mask, I.Got, Within, MessageInv, AcksInv, I.SlotHolds, PastInv, I.Delivered;
    PastWithinReach(cfg, x);
    forall d | d in x.net ensures d.k < |Sealed(x)| {
      assert I.Genuine(cfg.rcv, d.f, Sealed(x), d.k);
    }
  }

  /** Every step keeps the invariant. */
  lemma {:induction false} NextKeeps(cfg: Config, x: Sys, e: Event)
    requires Inv(cfg, x) && SentInv(cfg, x) && Formed(cfg, x) && Enabled(cfg, x, e)
    ensures Inv(cfg, Next(cfg, x, e))
  {
    hide Inv, SentInv, MayAppend, SendStep, FlushSys, AckedSys, TimedSys, EmitSys, ReceiveSys, AckSys, R.InterSegment, R.Read, OpenWaits, S.Valid, R.Valid;
    match e
    case Send(src) =>
      if |src| > 0 && Flushed(cfg, x) { AppendKeeps(cfg, x, src); } else { SendKeeps(cfg, x, src); }
    case FlushNow => FlushKeeps(cfg, x);
    case PollSender(ack, dt, room) =>
      AckKeeps(cfg, x, ack, dt, room);
      var y := AckedSys(x, ack);
      InvFormed(cfg, y);
      TimedKeeps(cfg, y, dt);
      var z := TimedSys(cfg, y, dt);
      InvFormed(cfg, z);
      if room { EmitKeeps(cfg, z); }
    case PollReceiver(frame, dt, room) =>
      ArrivalKeeps(cfg, x, frame, dt, room);
      var y := ReceiveSys(cfg, x, frame);
      InvFormed(cfg, y);
      InterSegmentKeeps(cfg, y, dt);
      if room { AckSysKeeps(cfg, y.(r := R.InterSegment(cfg.rcv, y.r, dt))); }
    case Read(max) => ReadKeeps(cfg, x, max);
  }

  /** Every step keeps that what the receiver has was sent. */
  lemma {:induction false} NextSent(cfg: Config, x: Sys, e: Event)
    requires Inv(cfg, x) && SentInv(cfg, x) && Formed(cfg, x) && Enabled(cfg, x, e)
    ensures SentInv(cfg, Next(cfg, x, e))
  {
    hide Inv, SentInv, Kept, MayAppend, SendStep, FlushSys, AckedSys, TimedSys, EmitSys, ReceiveSys, AckSys, R.InterSegment, R.Read, OpenWaits, S.Valid, R.Valid;
    match e
    case Send(src) =>
      SendKept(cfg, x, src);
      KeptSent(cfg, x, SendStep(cfg, x, src));
    case FlushNow =>
      FlushKept(cfg, x);
      KeptSent(cfg, x, FlushSys(cfg, x));
    case PollSender(ack, dt, room) => PollSenderSent(cfg, x, ack, dt, room);
    case PollReceiver(frame, dt, room) =>
      NetAhead(cfg, x);
      ArrivalKeeps(cfg, x, frame, dt, room);
      ArrivalSent(cfg, x, frame, dt, room);
      var y := ReceiveSys(cfg, x, frame);
      InvFormed(cfg, y);
      InterSegmentKeeps(cfg, y, dt);
      InterSegmentSent(cfg, y, dt);
      if room { AckSysSent(cfg, y.(r := R.InterSegment(cfg.rcv, y.r, dt))); }
    case Read(max) => ReadSent(cfg, x, max);
  }

  lemma {:induction false} PollSenderSent(cfg: Config, x: Sys, ack: Option<AckFrame>, dt: Time, room: bool)
    requires Inv(cfg, x) && SentInv(cfg, x) && Formed(cfg, x) && Enabled(cfg, x, PollSender(ack, dt, room))
    ensures SentInv(cfg, Next(cfg, x, PollSender(ack, dt, room)))
  {
    hide Inv, SentInv, Kept, AckedSys, TimedSys, EmitSys, OpenWaits, S.Valid, R.Valid, Enabled;
    AckKeeps(cfg, x, ack, dt, room);
    AckedKept(cfg, x, ack, dt, room);
    var y := AckedSys(x, ack);
    InvFormed(cfg, y);
    TimedKeeps(cfg, y, dt);
    TimedKept(cfg, y, dt);
    var z := TimedSys(cfg, y, dt);
    InvFormed(cfg, z);
    KeptSent(cfg, x, y);
    KeptSent(cfg, y, z);
    if room {
      EmitKept(cfg, z);
      KeptSent(cfg, z, EmitSys(cfg, z));
    }
  }

  /** d is the frame that header h announces, cut from window s. */
  ghost predicate Carries(cfg: Config, s: S.SendWnd, h: S.SegHdr, d: DataFrame)
    requires cfg.Valid() && s.base < SEQS && h.SegHdr? && h.sn < SEQS
  {
    && Wire(d.k) == h.sn
    && d.f == R.Frame(h.sn, h.seg, h.count, Cut(S.AtSlot(cfg.snd, s, h.sn).data, h.seg, cfg.snd.segLen))
  }

  lemma {:induction false} EmitCarries(cfg: Config, x: Sys)
    requires Inv(cfg, x)
    ensures var (s, p, h) := S.Emit(cfg.snd, x.s, x.p, cfg.rto);
      && EmitSys(cfg, x).s == s && EmitSys(cfg, x).p == p && s.base < SEQS
      && (h.NoSeg? ==> EmitSys(cfg, x).net == x.net)
      && (h.SegHdr? ==> h.sn < SEQS && exists d :: Carries(cfg, s, h, d) && EmitSys(cfg, x).net == x.net + {d})
  {
    hide Mul, Quo, Rem, Flatten, I.Inv, MessageInv, NetInv, AcksInv, PastInv, I.Delivered, S.PtrNext, S.AtSlot, Cut, SegCount;
    var (s, p, h) := S.Emit(cfg.snd, x.s, x.p, cfg.rto);
    if h.SegHdr? {
      var m := S.AtSlot(cfg.snd, s, h.sn);
      var k := |x.past| + Ahead(h.sn, s.base);
      AheadBack(h.sn, s.base);
      RemAdd(|x.past|, Ahead(h.sn, s.base), SEQS);
      var d := DataFrame(k, R.Frame(h.sn, h.seg, h.count, Cut(m.data, h.seg, cfg.snd.segLen)));
      assert Carries(cfg, s, h, d);
      assert EmitSys(cfg, x).net == x.net + {d};
    }
  }

  /**
   * The sender's polls of a run are calls of the send poll, and what they put on the network is what
   * those calls announce: the bytes at the segment's place in the slot, under a number that reads so
   * on the wire.
   */
  lemma {:induction false} SenderPolls(cfg: Config, x: Sys, ack: Option<AckFrame>, dt: Time, room: bool)
    requires Inv(cfg, x) && Formed(cfg, x) && Enabled(cfg, x, PollSender(ack, dt, room))
    ensures var x' := Next(cfg, x, PollSender(ack, dt, room));
      var (s, p, h) := S.Poll(cfg.snd, x.s, x.p, Hdr(ack), dt, cfg.rto, room);
      && x' == x.(s := s, p := p, net := x'.net, past := x'.past, open := x'.open) && s.base < SEQS
      && (h.NoSeg? ==> x'.net == x.net)
      && (h.SegHdr? ==> h.sn < SEQS && exists d :: Carries(cfg, s, h, d) && x'.net == x.net + {d})
  {
    hide Inv, S.Timers, S.AckStep, S.Emit, S.Valid, R.Valid, Enabled;
    AckKeeps(cfg, x, ack, dt, room);
    var y := AckedSys(x, ack);
    InvFormed(cfg, y);
    TimedKeeps(cfg, y, dt);
    var z := TimedSys(cfg, y, dt);
    InvFormed(cfg, z);
    EmitCarries(cfg, z);
    BaseBelow(cfg, z);
  }

  lemma {:induction false} BaseBelow(cfg: Config, x: Sys)
    requires Inv(cfg, x)
    ensures x.s.base < SEQS
  {
  }

  /**
   * The receiver's polls of a run are calls of the receive poll, and the acknowledgement they put on
   * the network has the vector that call reports, and a number that reads so on the wire.
   */
  lemma {:induction false} ReceiverPolls(cfg: Config, x: Sys, frame: Option<DataFrame>, dt: Time, room: bool)
    requires Inv(cfg, x) && Formed(cfg, x) && Enabled(cfg, x, PollReceiver(frame, dt, room))
    ensures var x' := Next(cfg, x, PollReceiver(frame, dt, room));
      var (r, a) := R.Poll(cfg.rcv, x.r, Segs(frame), dt, cfg.isaDelay, room);
      && x' == x.(r := r, rb := x'.rb, acks := x'.acks)
      && (a.NoAck? ==> x'.acks == x.acks)
      && (a.AckHdr? ==> exists f: AckFrame :: f.vec == a.vec && Wire(f.k) == a.sn && x'.acks == x.acks + {f})
  {
    hide Inv, R.Arrive, R.InterSegment, R.SendAck, S.Valid, R.Valid, Enabled, Wire;
    ArrivalKeeps(cfg, x, frame, dt, room);
    var y := ReceiveSys(cfg, x, frame);
    InvFormed(cfg, y);
    InterSegmentKeeps(cfg, y, dt);
    var z := y.(r := R.InterSegment(cfg.rcv, y.r, dt));
    if room {
      AckNamed(cfg, z);
      var a := R.SendAck(z.r).1;
      if a.AckHdr? {
        var f := AckFrame(z.rb + R.FirstDue(z.r, 0), a.vec);
        assert AckSys(z).acks == x.acks + {f};
      }
    }
  }

  lemma {:induction false} AckNamed(cfg: Config, x: Sys)
    requires Inv(cfg, x)
    ensures x.r.size <= |x.r.slots|
    ensures R.SendAck(x.r).1.AckHdr? ==> Wire(x.rb + R.FirstDue(x.r, 0)) == R.SendAck(x.r).1.sn
  {
    hide Mul, Quo, Rem, Flatten, MessageInv, NetInv, AcksInv, PastInv, I.Delivered, I.SlotHolds;
    RecvAcks.AckIsTruthful(cfg.rcv, x.r, Sealed(x), x.rb);
  }

  /** A fresh receiver, of which nothing was sent. */
  lemma {:induction false} InitRecv(cfg: Config)
    requires cfg.Valid()
    ensures var x := Init(cfg); R.Valid(cfg.rcv, x.r) && I.Inv(cfg.rcv, x.r, [], 0)
  {
    hide Mul, Flatten;
    var x := Init(cfg);
    NoMarks(cfg.rcv.segs);
    forall j: nat | j < |x.r.slots| ensures I.SlotHolds(cfg.rcv, x.r, [], 0, j) {}
  }

  lemma {:induction false} InitInv(cfg: Config)
    requires cfg.Valid()
    ensures Inv(cfg, Init(cfg)) && SentInv(cfg, Init(cfg))
  {
    hide I.Inv, R.Valid, Mul, Quo, Has, Mask;
    InitRecv(cfg);
    var x := Init(cfg);
    assert Sealed(x) == [] && All(x) == [];
    assert Flatten(All(x)) == [];
  }

  lemma {:induction false} RunInv(cfg: Config, xs: seq<Sys>, es: seq<Event>, n: nat)
    requires Run(cfg, xs, es) && n <= |es|
    ensures Inv(cfg, xs[n]) && SentInv(cfg, xs[n])
  {
    hide Inv, SentInv, Next, Init;
    if n == 0 {
      InitInv(cfg);
    } else {
      RunInv(cfg, xs, es, n - 1);
      assert Step(cfg, xs[n - 1], es[n - 1], xs[n - 1 + 1]);
      NextKeeps(cfg, xs[n - 1], es[n - 1]);
      NextSent(cfg, xs[n - 1], es[n - 1]);
    }
  }

  /**
   * Two-ended safety: in every run, at every moment, the bytes handed out at the receiver are a
   * prefix of the bytes accepted at the sender.
   */
  lemma {:induction false} DeliveredIsPrefixOfAccepted(cfg: Config, xs: seq<Sys>, es: seq<Event>, n: nat)
    requires Run(cfg, xs, es) && n <= |es|
    ensures xs[n].delivered <= xs[n].accepted
  {
    RunInv(cfg, xs, es, n);
    InvIsSafe(cfg, xs[n]);
  }

  lemma {:induction false} InvIsSafe(cfg: Config, x: Sys)
    requires Inv(cfg, x)
    ensures x.delivered <= x.accepted
  {
    hide Mul, Quo, Has, Rem, Mask, I.Got, Within, MessageInv, AcksInv, NetInv, PastInv, I.Inv, Flatten;
    RecvReading.DeliveredOk(cfg.rcv, x.r, Sealed(x), x.rb);
    var n := x.rb + x.r.slide;
    assert Sealed(x)[..n] == All(x)[..n];
    if x.r.copyOfs > 0 { assert Sealed(x)[n] == All(x)[n]; }
    StartOfAll(All(x), n, x.r.copyOfs);
  }

  /** Whole messages and part of the next are a start of all messages. */
  lemma {:induction false} StartOfAll(all: seq<seq<Byte>>, n: nat, ofs: nat)
    requires n <= |all| && (ofs > 0 ==> n < |all| && ofs <= |all[n]|)
    ensures Flatten(all[..n]) + (if ofs > 0 then all[n][..ofs] else []) <= Flatten(all)
  {
    FlattenSplit(all, n);
    if ofs > 0 {
      assert all[n..][0] == all[n];
      assert Flatten(all[n..]) == all[n] + Flatten(all[n..][1..]);
      assert all[n] == all[n][..ofs] + all[n][ofs..];
    }
  }

  /** The receiver holds the bytes m of message k whole, in the slot of the message. */
  ghost predicate HeldWhole(x: Sys, k: nat, m: seq<Byte>) {
    && x.rb + x.r.slide <= k < x.rb + x.r.size && k - x.rb < |x.r.slots|
    && var slot := x.r.slots[k - x.rb]; slot.cur == slot.full && slot.len == |m| && m <= slot.data
  }

  /**
   * Nothing acknowledged is lost: in every run the bytes accepted so far are those of the messages
   * that left the send window and of those still in it, and each that left was handed out, it and
   * all before it, or is held whole by the receiver.
   */
  lemma {:induction false} NothingAcknowledgedIsLost(cfg: Config, xs: seq<Sys>, es: seq<Event>, n: nat)
    requires Run(cfg, xs, es) && n <= |es|
    ensures xs[n].accepted == Flatten(xs[n].past + S.Datas(xs[n].s.msgs))
    ensures forall k: nat :: k < |xs[n].past| ==>
      Flatten(xs[n].past[..k + 1]) <= xs[n].delivered || HeldWhole(xs[n], k, xs[n].past[k])
  {
    RunInv(cfg, xs, es, n);
    var x := xs[n];
    hide Run;
    forall k: nat | k < |x.past| ensures Flatten(x.past[..k + 1]) <= x.delivered || HeldWhole(x, k, x.past[k]) {
      if k >= x.rb + x.r.slide { PastIsStored(cfg, x, k); } else { PastIsDelivered(cfg, x, k); }
    }
  }

  lemma {:induction false} PastIsDelivered(cfg: Config, x: Sys, k: nat)
    requires Inv(cfg, x) && k < |x.past| && k < x.rb + x.r.slide
    ensures Flatten(x.past[..k + 1]) <= x.delivered
  {
    RecvReading.DeliveredOk(cfg.rcv, x.r, Sealed(x), x.rb);
    hide Mul, Quo, Has, Rem, Mask, I.Got, Within, MessageInv, AcksInv, NetInv, PastInv, I.Inv;
    var read := Sealed(x)[..x.rb + x.r.slide];
    FlattenSplit(read, k + 1);
    assert read[..k + 1] == x.past[..k + 1];
  }

  lemma {:induction false} PastIsStored(cfg: Config, x: Sys, k: nat)
    requires Inv(cfg, x) && k < |x.past| && k >= x.rb + x.r.slide
    ensures HeldWhole(x, k, x.past[k])
  {
    hide Mul, Flatten, Rem, Mask, MessageInv, AcksInv, NetInv, I.StoredLen, I.HasSegment, R.Marks;
    assert Complete(cfg, x, k, x.past[k]);
    var n := SegCount(|x.past[k]|, cfg.snd.segLen);
    SegCountBounds(|x.past[k]|, cfg.snd);
    assert I.Got(x.r, x.rb, k, 0);
    var j := k - x.rb;
    var slot := x.r.slots[j];
    assert I.SlotHolds(cfg.rcv, x.r, Sealed(x), x.rb, j);
    assert Sealed(x)[k] == x.past[k];
    forall seg: nat | seg < n ensures Has(slot.cur, seg) {
      assert I.Got(x.r, x.rb, k, seg);
    }
    NoMarks(0);
    LessThanMask(slot.cur, n);
    assert R.SlotOk(cfg.rcv, slot);
    I.CompleteSlot(cfg.rcv, slot, x.past[k]);
  }

  /** No run gets stuck: in a reachable state every event that the guards allow can be taken. */
  lemma {:induction false} RunsContinue(cfg: Config, xs: seq<Sys>, es: seq<Event>, e: Event)
    requires Run(cfg, xs, es)
    ensures Formed(cfg, xs[|es|])
    ensures Enabled(cfg, xs[|es|], e) ==> Run(cfg, xs + [Next(cfg, xs[|es|], e)], es + [e])
  {
    hide Next, Formed, Enabled, Init, Inv, SentInv;
    RunInv(cfg, xs, es, |es|);
    InvFormed(cfg, xs[|es|]);
  }
}
