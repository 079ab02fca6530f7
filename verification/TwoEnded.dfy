/**
 * A sender and a receiver joined by a network that loses, reorders and repeats frames and
 * acknowledgements. Messages carry unbounded numbers here; only their 12-bit images reach the code.
 */
module TwoEnded {
  import opened Arith
  import opened AckVec
  import opened SeqNum
  import opened Messages
  import S = SendWindow
  import R = RecvWindow
  import I = RecvInvariant

  /** Both ends are configured alike; the windows are small against the sequence space. */
  datatype Config = Config(snd: Shape, rcv: Shape, rto: Time, tinyDelay: Time, isaDelay: Time) {
    ghost predicate Valid() {
      && snd.Valid() && rcv.Valid()
      && snd.segs == rcv.segs && snd.segLen == rcv.segLen
      && snd.cap + 2 * rcv.cap < SEQS
    }
  }

  /** A data frame on the network, with the number of the message it was cut from. */
  datatype DataFrame = DataFrame(k: nat, f: R.Frame)

  /** An acknowledgement on the network, with the number of the message it speaks of. */
  datatype AckFrame = AckFrame(k: nat, vec: Vec)

  /**
   * past lists the messages that slid out of the send window, so that msgs[j] is message number
   * |past| + j; rb numbers the base of the receive window; open says that the last message may still
   * grow. net and acks hold everything ever sent.
   */
  datatype Sys = Sys(s: S.SendWnd, p: S.Ptr, past: seq<seq<Byte>>, open: bool,
                     r: R.RecvWnd, rb: nat,
                     net: set<DataFrame>, acks: set<AckFrame>,
                     accepted: seq<Byte>, delivered: seq<Byte>)

  datatype Option<T> = None | Some(value: T)

  datatype Event =
    | Send(src: seq<Byte>)
    | FlushNow
    | PollSender(ack: Option<AckFrame>, dt: Time, room: bool)
    | PollReceiver(frame: Option<DataFrame>, dt: Time, room: bool)
    | Read(max: nat)

  // ---- Messages ----

  /** All messages begun so far. */
  function All(x: Sys): seq<seq<Byte>> {
    x.past + S.Datas(x.s.msgs)
  }

  /** The messages whose bytes can no longer change. */
  function Sealed(x: Sys): seq<seq<Byte>> {
    x.past + S.Datas(x.s.msgs)[..SealedSize(x)]
  }

  function SealedSize(x: Sys): (n: nat)
    ensures n <= |x.s.msgs|
  {
    if x.open && |x.s.msgs| > 0 then |x.s.msgs| - 1 else |x.s.msgs|
  }

  // ---- Steps ----

  function Init(cfg: Config): Sys
    requires cfg.Valid()
  {
    MaskIsVec(cfg.rcv.segs);
    var blank := R.Slot(0, 0, cfg.rcv.FullVec(), seq(cfg.rcv.MsgLen(), i => 0), false);
    Sys(S.SendWnd(0, [], 0, false), S.Ptr(0, 0, false), [], false,
        R.RecvWnd(0, 0, 0, 0, 0, seq(cfg.rcv.cap, i => blank), TIME_INFINITY, 0, false), 0,
        {}, {}, [], [])
  }

  /** The header fields of an incoming acknowledgement, if there is one. */
  function Hdr(a: Option<AckFrame>): S.AckHdr {
    match a
    case None => S.NoAck
    case Some(f) => S.AckHdr(Wire(f.k), f.vec)
  }

  /** Messages that an incoming acknowledgement slides out of the send window. */
  function FreedBy(x: Sys, a: Option<AckFrame>): (n: nat)
    ensures n <= |x.s.msgs|
  {
    match a
    case None => 0
    case Some(f) => S.Freed(x.s, Wire(f.k), f.vec)
  }

  /** What the network can do: hand over anything ever sent, at any time. */
  predicate Possible(x: Sys, e: Event) {
    match e
    case PollSender(ack, _, _) => ack.Some? ==> ack.value in x.acks
    case PollReceiver(frame, _, _) => frame.Some? ==> frame.value in x.net
    case _ => true
  }

  /** The last message was flushed before it was full. */
  predicate Flushed(cfg: Config, x: Sys) {
    !x.open && |x.s.msgs| > 0 && |x.s.msgs[|x.s.msgs| - 1].data| < cfg.snd.MsgLen()
  }

  /** Segment seg of message k has been put on the network. */
  ghost predicate Announced(x: Sys, k: nat, seg: int) {
    exists d :: d in x.net && d.k == k && d.f.seg == seg
  }

  /**
   * A send may add to the flushed last message: the message gets no more segments than it had, and
   * its last segment, which grows, was never on the network.
   */
  ghost predicate MayAppend(cfg: Config, x: Sys, src: seq<Byte>)
    requires cfg.snd.segLen > 0 && |x.s.msgs| > 0
  {
    var j := |x.s.msgs| - 1;
    var len, n := |x.s.msgs[j].data|, SegCount(|x.s.msgs[j].data|, cfg.snd.segLen);
    && SegCount(Min(len + |src|, cfg.snd.MsgLen()), cfg.snd.segLen) == n
    && !Announced(x, |x.past| + j, n - 1)
  }

  /**
   * The schedules the theorems are about. A send adds to a message that was flushed unfinished only
   * where that does no harm. An acknowledgement does not free the message a valid send pointer is
   * on. A data frame that arrives is not of a message already read out and not yet far behind.
   * Nothing that arrives is so old that its number stands for a message of the current window.
   */
  ghost predicate Guarded(cfg: Config, x: Sys, e: Event)
    requires cfg.snd.segLen > 0 && x.s.base < SEQS && x.p.sn < SEQS
  {
    match e
    case Send(src) => |src| > 0 && Flushed(cfg, x) ==> MayAppend(cfg, x, src)
    case FlushNow => true
    case PollSender(ack, dt, room) =>
      ack.Some? ==>
        && |x.past| + |x.s.msgs| <= ack.value.k + SEQS
        && (x.p.valid ==> FreedBy(x, ack) <= Ahead(x.p.sn, x.s.base))
    case PollReceiver(frame, dt, room) =>
      frame.Some? ==>
        && !I.Late(x.r, x.rb, frame.value.k)
        && x.rb + x.r.slide + cfg.rcv.cap <= frame.value.k + SEQS
    case Read(max) => true
  }

  ghost predicate Enabled(cfg: Config, x: Sys, e: Event)
    requires cfg.snd.segLen > 0 && x.s.base < SEQS && x.p.sn < SEQS
  {
    Possible(x, e) && Guarded(cfg, x, e)
  }

  /** The bytes of segment seg of a message; empty past its end. */
  function Cut(m: seq<Byte>, seg: nat, segLen: nat): seq<Byte> {
    if Mul(seg, segLen) <= |m| then Segment(m, seg, segLen) else []
  }

  function SendStep(cfg: Config, x: Sys, src: seq<Byte>): Sys
    requires S.Valid(cfg.snd, x.s)
  {
    var s := S.Send(cfg.snd, x.s, src, cfg.tinyDelay);
    x.(s := s,
       open := if |src| == 0 then x.open else s.tinyOn && !(Flushed(cfg, x) && |s.msgs| == |x.s.msgs|),
       accepted := x.accepted + src[..S.Taken(cfg.snd, x.s, src)])
  }

  /** The state after the acknowledgement, and then the timers, of a send poll. */
  function AckedSys(x: Sys, ack: Option<AckFrame>): Sys {
    x.(s := S.AckStep(x.s, Hdr(ack)), past := x.past + S.Datas(x.s.msgs[..FreedBy(x, ack)]))
  }

  function TimedSys(cfg: Config, x: Sys, dt: Time): Sys
    requires S.Valid(cfg.snd, x.s)
  {
    var s := S.Step(x.s, dt);
    x.(s := S.Timers(cfg.snd, x.s, dt), open := x.open && !(s.tinyOn && s.tiny == 0))
  }

  function EmitSys(cfg: Config, x: Sys): Sys
    requires S.Valid(cfg.snd, x.s) && S.PtrOk(x.p)
  {
    var (s, p, h) := S.Emit(cfg.snd, x.s, x.p, cfg.rto);
    if h.NoSeg? then x.(s := s, p := p)
    else
      var m := S.AtSlot(cfg.snd, s, h.sn);
      var d := DataFrame(|x.past| + Ahead(h.sn, s.base), R.Frame(h.sn, h.seg, h.count, Cut(m.data, h.seg, cfg.snd.segLen)));
      x.(s := s, p := p, net := x.net + {d})
  }

  function Segs(frame: Option<DataFrame>): R.Arrival {
    match frame
    case None => R.Nothing
    case Some(d) => R.Arrived(d.f)
  }

  function ReceiveSys(cfg: Config, x: Sys, frame: Option<DataFrame>): Sys
    requires R.Valid(cfg.rcv, x.r) && R.ArrivalOk(cfg.rcv, Segs(frame))
  {
    var r := R.Arrive(cfg.rcv, x.r, Segs(frame), cfg.isaDelay);
    if frame.None? then x.(r := r)
    else
      var k := frame.value.k;
      x.(r := r, rb := if x.rb + x.r.slide <= k < x.rb + x.r.slide + cfg.rcv.cap then I.NewBase(cfg.rcv, x.r, x.rb, k) else x.rb)
  }

  function AckSys(x: Sys): Sys
    requires x.r.size <= |x.r.slots|
  {
    var (r, a) := R.SendAck(x.r);
    if a.NoAck? then x.(r := r) else x.(r := r, acks := x.acks + {AckFrame(x.rb + R.FirstDue(x.r, 0), a.vec)})
  }

  function FlushSys(cfg: Config, x: Sys): Sys
    requires S.Valid(cfg.snd, x.s)
  {
    x.(s := S.Flush(cfg.snd, x.s), open := false)
  }

  // ---- Runs ----

  /** Well-formedness: the windows stay inside their buffers, and frames inside theirs. */
  ghost predicate Formed(cfg: Config, x: Sys) {
    && cfg.Valid() && S.Valid(cfg.snd, x.s) && S.PtrOk(x.p) && R.Valid(cfg.rcv, x.r)
    && forall d :: d in x.net ==> R.FrameOk(cfg.rcv, d.f)
  }

  function Next(cfg: Config, x: Sys, e: Event): Sys
    requires Formed(cfg, x) && Possible(x, e)
  {
    match e
    case Send(src) => SendStep(cfg, x, src)
    case FlushNow => FlushSys(cfg, x)
    case PollSender(ack, dt, room) =>
      S.AckValid(cfg.snd, x.s, Hdr(ack));
      S.TimersValid(cfg.snd, S.AckStep(x.s, Hdr(ack)), dt);
      var y := TimedSys(cfg, AckedSys(x, ack), dt);
      if room then EmitSys(cfg, y) else y
    case PollReceiver(frame, dt, room) =>
      var y := ReceiveSys(cfg, x, frame);
      R.ArriveValid(cfg.rcv, x.r, Segs(frame), cfg.isaDelay);
      R.InterSegmentValid(cfg.rcv, y.r, dt);
      var z := y.(r := R.InterSegment(cfg.rcv, y.r, dt));
      if room then AckSys(z) else z
    case Read(max) =>
      var (r, bytes) := R.Read(cfg.rcv, x.r, max);
      x.(r := r, delivered := x.delivered + bytes)
  }

  /** xs are the states of a run that starts fresh and takes the events es. */
  ghost predicate Run(cfg: Config, xs: seq<Sys>, es: seq<Event>) {
    && cfg.Valid() && |xs| == |es| + 1 && xs[0] == Init(cfg)
    && forall i :: 0 <= i < |es| ==> Step(cfg, xs[i], es[i], xs[i + 1])
  }

  ghost predicate Step(cfg: Config, x: Sys, e: Event, x': Sys) {
    Formed(cfg, x) && Enabled(cfg, x, e) && x' == Next(cfg, x, e)
  }

  /** x to x' by e, whatever the guards say. */
  ghost predicate Takes(cfg: Config, x: Sys, e: Event, x': Sys) {
    Formed(cfg, x) && Possible(x, e) && x' == Next(cfg, x, e)
  }

  // ---- The invariant ----

  /** Message j of the send window; the last one may be open. */
  ghost predicate MessageInv(cfg: Config, x: Sys, j: nat)
    requires cfg.Valid() && j < |x.s.msgs|
  {
    var m, n := x.s.msgs[j], SegCount(|x.s.msgs[j].data|, cfg.snd.segLen);
    if x.open && j == |x.s.msgs| - 1 then
      m.cur == 0 && m.full == cfg.snd.FullVec() && x.s.tinyOn && m.rtx == x.s.tiny && |m.data| < cfg.snd.MsgLen()
    else
      && m.full == Mask(n) && Within(m.cur, n)
      && forall seg: nat :: Has(m.cur, seg) ==> I.Got(x.r, x.rb, |x.past| + j, seg)
  }

  ghost predicate SenderInv(cfg: Config, x: Sys)
    requires cfg.Valid()
  {
    && S.Valid(cfg.snd, x.s) && x.s.base == Wire(|x.past|)
    && (x.open ==> |x.s.msgs| > 0)
    && I.Sizes(cfg.snd, x.past)
    && (forall j: nat :: j < |x.s.msgs| ==> MessageInv(cfg, x, j))
  }

  /** The pointer is on a sealed message of the window, at a segment the message has. */
  ghost predicate PtrInv(cfg: Config, x: Sys)
    requires cfg.Valid() && x.s.base < SEQS
  {
    && S.PtrOk(x.p)
    && (x.p.valid ==>
        var j := Ahead(x.p.sn, x.s.base);
        j < SealedSize(x) && x.p.seg < SegCount(|x.s.msgs[j].data|, cfg.snd.segLen))
  }

  /** The receiver has every segment of message k. */
  ghost predicate Complete(cfg: Config, x: Sys, k: nat, m: seq<Byte>)
    requires cfg.Valid()
  {
    forall seg: nat :: seg < SegCount(|m|, cfg.snd.segLen) ==> I.Got(x.r, x.rb, k, seg)
  }

  ghost predicate PastInv(cfg: Config, x: Sys)
    requires cfg.Valid()
  {
    forall k: nat :: k < |x.past| ==> Complete(cfg, x, k, x.past[k])
  }

  ghost predicate NetInv(cfg: Config, x: Sys)
    requires cfg.Valid()
  {
    forall d :: d in x.net ==> I.Genuine(cfg.rcv, d.f, Sealed(x), d.k)
  }

  ghost predicate AckInv(cfg: Config, x: Sys, a: AckFrame)
    requires cfg.Valid()
  {
    && a.k < |Sealed(x)|
    && Within(a.vec, SegCount(|Sealed(x)[a.k]|, cfg.snd.segLen))
    && forall seg: nat :: Has(a.vec, seg) ==> I.Got(x.r, x.rb, a.k, seg)
  }

  ghost predicate AcksInv(cfg: Config, x: Sys)
    requires cfg.Valid()
  {
    forall a :: a in x.acks ==> AckInv(cfg, x, a)
  }

  /** Whatever the receiver has was put on the network under its own number. */
  ghost predicate SentInv(cfg: Config, x: Sys)
    requires cfg.Valid()
  {
    forall k: nat, seg: nat ::
      k < |Sealed(x)| && seg < SegCount(|Sealed(x)[k]|, cfg.snd.segLen) && I.Got(x.r, x.rb, k, seg) ==> Announced(x, k, seg)
  }

  ghost predicate Inv(cfg: Config, x: Sys) {
    && cfg.Valid()
    && SenderInv(cfg, x) && PtrInv(cfg, x) && PastInv(cfg, x) && NetInv(cfg, x) && AcksInv(cfg, x)
    && I.Inv(cfg.rcv, x.r, Sealed(x), x.rb)
    && x.accepted == Flatten(All(x))
    && (x.r.copyOfs > 0 ==> x.rb + x.r.slide < |Sealed(x)| && x.r.copyOfs <= |Sealed(x)[x.rb + x.r.slide]|)
    && x.delivered == I.Delivered(x.r, Sealed(x), x.rb)
  }

  lemma {:induction false} InvFormed(cfg: Config, x: Sys)
    requires Inv(cfg, x)
    ensures Formed(cfg, x)
  {
    hide Mul, Quo, Flatten, Has, Rem, Mask, I.Got, Within, MessageInv, AcksInv, I.SlotHolds, PastInv, I.Delivered;
    forall d | d in x.net ensures R.FrameOk(cfg.rcv, d.f) {
      assert I.Genuine(cfg.rcv, d.f, Sealed(x), d.k);
      I.GenuineOk(cfg.rcv, d.f, Sealed(x), d.k);
    }
  }
}
