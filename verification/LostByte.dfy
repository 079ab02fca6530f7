/**
 * What the guard on sends is for: a run that breaks it once, by adding a byte to a flushed message
 * whose only segment is on its way, and loses the byte. The message has no more segments than before.
 */
module LostByte {
  import opened Arith
  import opened AckVec
  import opened SeqNum
  import opened Messages
  import opened OneSlot
  import opened TwoEnded
  import Memory
  import SenderSteps
  import F = SendFifo
  import S = SendWindow
  import R = RecvWindow

  /** Windows of one message, of one segment of two bytes. */
  ghost predicate Small(cfg: Config) {
    && cfg.snd == cfg.rcv && cfg.snd.cap == 1 && cfg.snd.segs == 1 && cfg.snd.segLen == 2
    && cfg.tinyDelay > 0
  }

  ghost predicate Facts(cfg: Config)
    requires Small(cfg)
  {
    && cfg.Valid() && Slots(cfg.snd.cap) && Numbers() && OneOfTwo(cfg.snd) && cfg.snd.FullVec() == 1
    && Masks() && Bits() && Clears() && Marks1()
  }

  lemma {:induction false} SmallFacts(cfg: Config)
    requires Small(cfg)
    ensures Facts(cfg)
  {
    hide Rem, Mul, Quo, Mask, FirstClear, Has, Within, R.Marks, Mark, Wire, SegCount;
    SlotFacts(cfg.snd.cap);
    NumberFacts();
    OneOfTwoFacts(cfg.snd);
    MaskFacts();
    BitFacts();
    ClearFacts();
    Marks1Facts();
  }

  // ---- The sender's states ----

  function Snd(base: nat, data: seq<Byte>, rtx: Time, tiny: Time, on: bool): S.SendWnd {
    S.SendWnd(base, if data == [] then [] else [S.Message(data, 0, 1, rtx)], tiny, on)
  }

  lemma {:induction false} SndValid(cfg: Config, base: nat, data: seq<Byte>, rtx: Time, tiny: Time, on: bool)
    requires Small(cfg) && base < SEQS && |data| <= 2
    ensures S.Valid(cfg.snd, Snd(base, data, rtx, tiny, on))
  {
    hide Rem, Mul, Mask, FirstClear, Has, Within, R.Marks, Mark;
    SmallFacts(cfg);
  }

  /** A send into an empty window. */
  lemma {:induction false} SendNew(cfg: Config, base: nat, data: seq<Byte>, tiny: Time)
    requires Small(cfg) && base < SEQS && 1 <= |data| <= 2
    ensures var w, partial := Snd(base, [], 0, tiny, false), |data| < 2;
      && S.Valid(cfg.snd, w) && S.Taken(cfg.snd, w, data) == |data|
      && S.Send(cfg.snd, w, data, cfg.tinyDelay)
        == Snd(base, data, if partial then cfg.tinyDelay else 0, if partial then cfg.tinyDelay else tiny, partial)
  {
    hide Rem, Mul, Mask, FirstClear, Has, Within, R.Marks, Mark;
    SmallFacts(cfg);
    var w := Snd(base, [], 0, tiny, false);
    SndValid(cfg, base, [], 0, tiny, false);
    F.SendRefinesQueue(cfg.snd, w, data, cfg.tinyDelay);
    assert S.Bytes(w) + data[..|data|] == data;
    assert S.Cut(data, 2) == [data];
  }

  lemma {:induction false} SendMore(cfg: Config, a: Byte, b: Byte, rtx: Time, tiny: Time)
    requires Small(cfg)
    ensures var w := Snd(0, [a], rtx, tiny, true);
      && S.Valid(cfg.snd, w) && S.Taken(cfg.snd, w, [b]) == 1
      && S.Send(cfg.snd, w, [b], cfg.tinyDelay) == Snd(0, [a, b], 0, tiny, false)
  {
    hide Rem, Mul, Mask, FirstClear, Has, Within, R.Marks, Mark;
    SmallFacts(cfg);
    SndValid(cfg, 0, [a], rtx, tiny, true);
    var w := Snd(0, [a], rtx, tiny, true);
    F.SendGrows(cfg.snd, w, [b], cfg.tinyDelay);
    assert [a] + [b] == [a, b];
    assert F.Grown(cfg.snd, w, [b]).msgs == Snd(0, [a, b], 0, tiny, false).msgs;
  }

  // ---- The receiver's states ----

  function Rcv(base: nat, slide: nat, size: nat, copySn: nat, slot: R.Slot): R.RecvWnd {
    R.RecvWnd(base, size, slide, copySn, 0, [slot], TIME_INFINITY, 0, false)
  }

  lemma {:induction false} RcvValid(cfg: Config, w: R.RecvWnd, s: R.Slot)
    requires Small(cfg) && w == Rcv(w.base, w.slide, w.size, w.copySn, s) && w.base <= 1 && w.slide <= w.size <= 1
    requires w.copySn == w.base + w.slide && |s.data| == 2
    requires (s.cur == 0 && s.len == 0) || (s.cur == 1 && s.len <= 2)
    ensures R.Valid(cfg.rcv, w)
  {
    hide Rem, Mul, Mask, FirstClear, Has, Within, R.Marks, Mark, Wire;
    SmallFacts(cfg);
  }

  /** The frame of message sn, when the window is fresh or has read out the message before. */
  lemma {:induction false} ReceiveNext(cfg: Config, sn: nat, s: R.Slot, p: seq<Byte>)
    requires Small(cfg) && sn <= 1 && |s.data| == 2 && s.cur == 0 && s.len == 0 && s.full == 1 && 1 <= |p| <= 2
    ensures var w := if sn == 0 then Rcv(0, 0, 0, 0, s) else Rcv(0, 1, 1, 1, s);
      var f := R.Frame(sn, 0, 1, p);
      && R.Valid(cfg.rcv, w) && R.FrameOk(cfg.rcv, f)
      && R.Receive(cfg.rcv, w, f, cfg.isaDelay) == Rcv(sn, 0, 1, sn, R.Slot(|p|, 1, 1, p + s.data[|p|..], true))
  {
    hide Rem, Mul, Mask, FirstClear, Has, Within, R.Marks, Mark, Wire;
    SmallFacts(cfg);
    var w := if sn == 0 then Rcv(0, 0, 0, 0, s) else Rcv(0, 1, 1, 1, s);
    var f := R.Frame(sn, 0, 1, p);
    RcvValid(cfg, w, s);
    assert R.Reach(cfg.rcv, w, sn) == Rcv(sn, 0, 1, sn, s);
    assert Memory.Put(s.data, 0, p) == p + s.data[|p|..];
    assert R.Stored(cfg.rcv, s, f) == R.Slot(|p|, 1, 1, p + s.data[|p|..], true);
  }

  lemma {:induction false} AckNext(cfg: Config, s: R.Slot)
    requires Small(cfg) && s.ack && s.cur == 1
    ensures R.SendAck(Rcv(0, 0, 1, 0, s)) == (Rcv(0, 0, 1, 0, s.(ack := false)), S.AckHdr(0, 1))
    ensures R.FirstDue(Rcv(0, 0, 1, 0, s), 0) == 0
  {
    hide Rem, Mul, Mask, FirstClear, Has, Within, R.Marks, Mark, Wire;
    SmallFacts(cfg);
    assert [s][0 := s.(ack := false)] == [s.(ack := false)];
  }

  /** A read that takes the whole message. */
  lemma {:induction false} ReadNext(cfg: Config, sn: nat, s: R.Slot, p: seq<Byte>)
    requires Small(cfg) && sn <= 1 && 1 <= |p| <= 2 && |s.data| == 2 && s.data[..|p|] == p
    requires s.len == |p| && s.cur == 1 == s.full
    ensures R.Valid(cfg.rcv, Rcv(sn, 0, 1, sn, s))
    ensures R.Read(cfg.rcv, Rcv(sn, 0, 1, sn, s), 2) == (Rcv(sn, 1, 1, sn + 1, s.(len := 0, cur := 0)), p)
  {
    hide Rem, Mul, Mask, FirstClear, Has, Within, R.Marks, Mark, Wire;
    SmallFacts(cfg);
    var w := Rcv(sn, 0, 1, sn, s);
    RcvValid(cfg, w, s);
    assert R.NextMessage(cfg.rcv, w) == Rcv(sn, 1, 1, sn + 1, s.(len := 0, cur := 0));
    R.NextMessageValid(cfg.rcv, w);
    assert R.ReadMessages(cfg.rcv, R.NextMessage(cfg.rcv, w), 2 - |p|, 0) == (R.NextMessage(cfg.rcv, w), []);
    assert p + [] == p;
  }

  // ---- The states of the run ----

  const FRESH := R.Slot(0, 0, 1, [0, 0], false)

  /** A state, by the fields that change. */
  function At(s: S.SendWnd, p: S.Ptr, past: seq<seq<Byte>>, open: bool, r: R.RecvWnd, rb: nat,
              net: set<DataFrame>, acks: set<AckFrame>, accepted: seq<Byte>, delivered: seq<Byte>): Sys {
    Sys(s, p, past, open, r, rb, net, acks, accepted, delivered)
  }

  function First(a: Byte): DataFrame {
    DataFrame(0, R.Frame(0, 0, 1, [a]))
  }

  function Second(c: Byte, d: Byte): DataFrame {
    DataFrame(1, R.Frame(1, 0, 1, [c, d]))
  }

  /** The thirteen states. */
  function State(cfg: Config, a: Byte, b: Byte, c: Byte, d: Byte, i: nat): Sys
  {
    var t := cfg.tinyDelay;
    var off, on, done, next := S.Ptr(0, 0, false), S.Ptr(0, 0, true), S.Ptr(0, 1, false), S.Ptr(1, 0, true);
    var empty, held := Rcv(0, 0, 0, 0, FRESH), Rcv(0, 0, 1, 0, R.Slot(1, 1, 1, [a, 0], false));
    var read := Rcv(0, 1, 1, 1, R.Slot(0, 0, 1, [a, 0], false));
    var held2 := Rcv(1, 0, 1, 1, R.Slot(2, 1, 1, [c, d], true));
    var read2 := Rcv(1, 1, 1, 2, R.Slot(0, 0, 1, [c, d], true));
    var d0, d1, k0 := First(a), Second(c, d), AckFrame(0, 1);
    match i
    case 0 => At(Snd(0, [], 0, 0, false), off, [], false, empty, 0, {}, {}, [], [])
    case 1 => At(Snd(0, [a], t, t, true), off, [], true, empty, 0, {}, {}, [a], [])
    case 2 => At(Snd(0, [a], 0, t, true), off, [], false, empty, 0, {}, {}, [a], [])
    case 3 => At(Snd(0, [a], 0, t, true), on, [], false, empty, 0, {d0}, {}, [a], [])
    case 4 => At(Snd(0, [a], cfg.rto, t, true), done, [], false, empty, 0, {d0}, {}, [a], [])
    case 5 => At(Snd(0, [a], cfg.rto, t, true), done, [], false, held, 0, {d0}, {k0}, [a], [])
    case 6 => At(Snd(0, [a], cfg.rto, t, true), done, [], false, read, 0, {d0}, {k0}, [a], [a])
    case 7 => At(Snd(0, [a, b], 0, t, false), done, [], false, read, 0, {d0}, {k0}, [a, b], [a])
    case 8 => At(Snd(1, [], 0, t, false), done, [[a, b]], false, read, 0, {d0}, {k0}, [a, b], [a])
    case 9 => At(Snd(1, [c, d], 0, t, false), done, [[a, b]], false, read, 0, {d0}, {k0}, [a, b, c, d], [a])
    case 10 => At(Snd(1, [c, d], 0, t, false), next, [[a, b]], false, read, 0, {d0, d1}, {k0}, [a, b, c, d], [a])
    case 11 => At(Snd(1, [c, d], 0, t, false), next, [[a, b]], false, held2, 1, {d0, d1}, {k0}, [a, b, c, d], [a])
    case _ => At(Snd(1, [c, d], 0, t, false), next, [[a, b]], false, read2, 1, {d0, d1}, {k0}, [a, b, c, d], [a, c, d])
  }

  function Events(a: Byte, b: Byte, c: Byte, d: Byte): (es: seq<Event>)
    ensures |es| == 12
  {
    [ Send([a]), FlushNow, PollSender(None, 0, true), PollSender(None, 0, true),
      PollReceiver(Some(First(a)), 0, true), Read(2),
      Send([b]), PollSender(Some(AckFrame(0, 1)), 0, false),
      Send([c, d]), PollSender(None, 0, true), PollReceiver(Some(Second(c, d)), 0, false), Read(2) ]
  }

  lemma {:induction false} StatesFormed(cfg: Config, a: Byte, b: Byte, c: Byte, d: Byte, i: nat)
    requires Small(cfg) && i <= 12
    ensures Formed(cfg, State(cfg, a, b, c, d, i)) && Facts(cfg)
  {
    hide S.Valid, R.Valid, S.PtrOk;
    SmallFacts(cfg);
    SndForms(cfg, a, b, c, d, i);
    RcvForms(cfg, a, b, c, d, i);
  }

  lemma {:induction false} SndForms(cfg: Config, a: Byte, b: Byte, c: Byte, d: Byte, i: nat)
    requires Small(cfg) && i <= 12
    ensures S.Valid(cfg.snd, State(cfg, a, b, c, d, i).s) && S.PtrOk(State(cfg, a, b, c, d, i).p)
  {
    hide S.Valid;
    var t := cfg.tinyDelay;
    SndValid(cfg, 0, [], 0, 0, false);
    SndValid(cfg, 0, [a], t, t, true);
    SndValid(cfg, 0, [a], 0, t, true);
    SndValid(cfg, 0, [a], cfg.rto, t, true);
    SndValid(cfg, 0, [a, b], 0, t, false);
    SndValid(cfg, 1, [], 0, t, false);
    SndValid(cfg, 1, [c, d], 0, t, false);
  }

  lemma {:induction false} RcvForms(cfg: Config, a: Byte, b: Byte, c: Byte, d: Byte, i: nat)
    requires Small(cfg) && i <= 12
    ensures var x := State(cfg, a, b, c, d, i);
      R.Valid(cfg.rcv, x.r) && forall e :: e in x.net ==> R.FrameOk(cfg.rcv, e.f)
  {
    hide R.Valid;
    RcvValid(cfg, Rcv(0, 0, 0, 0, FRESH), FRESH);
    RcvValid(cfg, Rcv(0, 0, 1, 0, R.Slot(1, 1, 1, [a, 0], false)), R.Slot(1, 1, 1, [a, 0], false));
    RcvValid(cfg, Rcv(0, 1, 1, 1, R.Slot(0, 0, 1, [a, 0], false)), R.Slot(0, 0, 1, [a, 0], false));
    RcvValid(cfg, Rcv(1, 0, 1, 1, R.Slot(2, 1, 1, [c, d], true)), R.Slot(2, 1, 1, [c, d], true));
    RcvValid(cfg, Rcv(1, 1, 1, 2, R.Slot(0, 0, 1, [c, d], true)), R.Slot(0, 0, 1, [c, d], true));
  }

  // ---- The steps of the run ----

  lemma {:induction false} Step0(cfg: Config, a: Byte, b: Byte, c: Byte, d: Byte)
    requires Small(cfg)
    ensures Takes(cfg, State(cfg, a, b, c, d, 0), Events(a, b, c, d)[0], State(cfg, a, b, c, d, 1))
  {
    hide Rem, Mul, Quo, Mask, FirstClear, Has, Within, R.Marks, Mark, Wire, SegCount, S.Cut, Flatten, S.Send, S.Taken;
    var x, y := State(cfg, a, b, c, d, 0), State(cfg, a, b, c, d, 1);
    StatesFormed(cfg, a, b, c, d, 0);
    SendNew(cfg, 0, [a], 0);
    assert [] + [a][..1] == [a];
  }

  lemma {:induction false} Step1(cfg: Config, a: Byte, b: Byte, c: Byte, d: Byte)
    requires Small(cfg)
    ensures Takes(cfg, State(cfg, a, b, c, d, 1), Events(a, b, c, d)[1], State(cfg, a, b, c, d, 2))
  {
    hide Rem, Mul, Quo, Mask, FirstClear, Has, Within, R.Marks, Mark, Wire, SegCount, S.Cut, Flatten;
    var x, y := State(cfg, a, b, c, d, 1), State(cfg, a, b, c, d, 2);
    StatesFormed(cfg, a, b, c, d, 1);
    assert S.Flush(cfg.snd, x.s).msgs == y.s.msgs;
  }

  lemma {:induction false} Step2(cfg: Config, a: Byte, b: Byte, c: Byte, d: Byte)
    requires Small(cfg)
    ensures Takes(cfg, State(cfg, a, b, c, d, 2), Events(a, b, c, d)[2], State(cfg, a, b, c, d, 3))
  {
    hide Rem, Mul, Quo, Mask, FirstClear, Has, Within, R.Marks, Mark, Wire, SegCount, S.Cut, Flatten;
    var x, y := State(cfg, a, b, c, d, 2), State(cfg, a, b, c, d, 3);
    StatesFormed(cfg, a, b, c, d, 2);
    assert S.StepAll(x.s.msgs, 0) == x.s.msgs;
    assert AckedSys(x, None) == x by { SenderSteps.AckedCases(x, None); }
    assert TimedSys(cfg, x, 0) == x;
    assert S.Scan(x.s, x.p, 0) == 0;
    assert Cut([a], 0, cfg.snd.segLen) == [a];
    assert EmitSys(cfg, x) == y;
  }

  lemma {:induction false} Step3(cfg: Config, a: Byte, b: Byte, c: Byte, d: Byte)
    requires Small(cfg)
    ensures Takes(cfg, State(cfg, a, b, c, d, 3), Events(a, b, c, d)[3], State(cfg, a, b, c, d, 4))
  {
    hide Rem, Mul, Quo, Mask, FirstClear, Has, Within, R.Marks, Mark, Wire, SegCount, S.Cut, Flatten;
    var x, y := State(cfg, a, b, c, d, 3), State(cfg, a, b, c, d, 4);
    StatesFormed(cfg, a, b, c, d, 3);
    assert S.StepAll(x.s.msgs, 0) == x.s.msgs;
    assert AckedSys(x, None) == x by { SenderSteps.AckedCases(x, None); }
    assert TimedSys(cfg, x, 0) == x;
    assert S.Scan(x.s, S.Ptr(0, 1, true), 0) == 1;
    assert S.Restart(cfg.snd, x.s, 0, cfg.rto).msgs == y.s.msgs;
    assert EmitSys(cfg, x) == y;
  }

  lemma {:induction false} Step4(cfg: Config, a: Byte, b: Byte, c: Byte, d: Byte)
    requires Small(cfg)
    ensures Takes(cfg, State(cfg, a, b, c, d, 4), Events(a, b, c, d)[4], State(cfg, a, b, c, d, 5))
  {
    hide Rem, Mul, Quo, Mask, FirstClear, Has, Within, R.Marks, Mark, Wire, SegCount, S.Cut, Flatten, R.Receive, R.Stored, R.Reach, R.SendAck;
    var x, y := State(cfg, a, b, c, d, 4), State(cfg, a, b, c, d, 5);
    StatesFormed(cfg, a, b, c, d, 4);
    ReceiveNext(cfg, 0, FRESH, [a]);
    assert [a] + FRESH.data[1..] == [a, 0];
    AckNext(cfg, R.Slot(1, 1, 1, [a, 0], true));
  }

  lemma {:induction false} Step5(cfg: Config, a: Byte, b: Byte, c: Byte, d: Byte)
    requires Small(cfg)
    ensures Takes(cfg, State(cfg, a, b, c, d, 5), Events(a, b, c, d)[5], State(cfg, a, b, c, d, 6))
  {
    hide Rem, Mul, Quo, Mask, FirstClear, Has, Within, R.Marks, Mark, Wire, SegCount, S.Cut, Flatten, R.Read;
    var x, y := State(cfg, a, b, c, d, 5), State(cfg, a, b, c, d, 6);
    StatesFormed(cfg, a, b, c, d, 5);
    ReadNext(cfg, 0, R.Slot(1, 1, 1, [a, 0], false), [a]);
    assert [] + [a] == [a];
  }

  lemma {:induction false} Step6(cfg: Config, a: Byte, b: Byte, c: Byte, d: Byte)
    requires Small(cfg)
    ensures Takes(cfg, State(cfg, a, b, c, d, 6), Events(a, b, c, d)[6], State(cfg, a, b, c, d, 7))
  {
    hide Rem, Mul, Quo, Mask, FirstClear, Has, Within, R.Marks, Mark, Wire, SegCount, S.Cut, Flatten, S.Send, S.Taken;
    var x, y := State(cfg, a, b, c, d, 6), State(cfg, a, b, c, d, 7);
    StatesFormed(cfg, a, b, c, d, 6);
    SendMore(cfg, a, b, cfg.rto, cfg.tinyDelay);
    assert [a] + [b][..1] == [a, b];
  }

  lemma {:induction false} Step7(cfg: Config, a: Byte, b: Byte, c: Byte, d: Byte)
    requires Small(cfg)
    ensures Takes(cfg, State(cfg, a, b, c, d, 7), Events(a, b, c, d)[7], State(cfg, a, b, c, d, 8))
  {
    hide Rem, Mul, Quo, Mask, FirstClear, Has, Within, R.Marks, Mark, Wire, SegCount, S.Cut, Flatten;
    var x, y := State(cfg, a, b, c, d, 7), State(cfg, a, b, c, d, 8);
    StatesFormed(cfg, a, b, c, d, 7);
    var ms := S.Acked(x.s.msgs, 0, 1);
    assert S.Done(ms) == 1;
    assert ms[1..] == [] && x.s.msgs[..1] == x.s.msgs;
    assert S.Datas(x.s.msgs) == [[a, b]];
    assert AckedSys(x, Some(AckFrame(0, 1))) == y;
    assert S.StepAll([], 0) == [];
    assert TimedSys(cfg, y, 0) == y;
  }

  lemma {:induction false} Step8(cfg: Config, a: Byte, b: Byte, c: Byte, d: Byte)
    requires Small(cfg)
    ensures Takes(cfg, State(cfg, a, b, c, d, 8), Events(a, b, c, d)[8], State(cfg, a, b, c, d, 9))
  {
    hide Rem, Mul, Quo, Mask, FirstClear, Has, Within, R.Marks, Mark, Wire, SegCount, S.Cut, Flatten, S.Send, S.Taken;
    var x, y := State(cfg, a, b, c, d, 8), State(cfg, a, b, c, d, 9);
    StatesFormed(cfg, a, b, c, d, 8);
    SendNew(cfg, 1, [c, d], cfg.tinyDelay);
    assert [a, b] + [c, d][..2] == [a, b, c, d];
  }

  lemma {:induction false} Step9(cfg: Config, a: Byte, b: Byte, c: Byte, d: Byte)
    requires Small(cfg)
    ensures Takes(cfg, State(cfg, a, b, c, d, 9), Events(a, b, c, d)[9], State(cfg, a, b, c, d, 10))
  {
    hide Rem, Mul, Quo, Mask, FirstClear, Has, Within, R.Marks, Mark, Wire, SegCount, S.Cut, Flatten;
    var x, y := State(cfg, a, b, c, d, 9), State(cfg, a, b, c, d, 10);
    StatesFormed(cfg, a, b, c, d, 9);
    assert S.StepAll(x.s.msgs, 0) == x.s.msgs;
    assert AckedSys(x, None) == x by { SenderSteps.AckedCases(x, None); }
    assert TimedSys(cfg, x, 0) == x;
    assert S.Scan(x.s, x.p, 0) == 0;
    assert Cut([c, d], 0, cfg.snd.segLen) == [c, d];
    assert EmitSys(cfg, x) == y;
  }

  lemma {:induction false} Step10(cfg: Config, a: Byte, b: Byte, c: Byte, d: Byte)
    requires Small(cfg)
    ensures Takes(cfg, State(cfg, a, b, c, d, 10), Events(a, b, c, d)[10], State(cfg, a, b, c, d, 11))
  {
    hide Rem, Mul, Quo, Mask, FirstClear, Has, Within, R.Marks, Mark, Wire, SegCount, S.Cut, Flatten, R.Receive, R.Stored, R.Reach;
    var x, y := State(cfg, a, b, c, d, 10), State(cfg, a, b, c, d, 11);
    StatesFormed(cfg, a, b, c, d, 10);
    ReceiveNext(cfg, 1, R.Slot(0, 0, 1, [a, 0], false), [c, d]);
    assert [c, d] + [a, 0][2..] == [c, d];
  }

  lemma {:induction false} Step11(cfg: Config, a: Byte, b: Byte, c: Byte, d: Byte)
    requires Small(cfg)
    ensures Takes(cfg, State(cfg, a, b, c, d, 11), Events(a, b, c, d)[11], State(cfg, a, b, c, d, 12))
  {
    hide Rem, Mul, Quo, Mask, FirstClear, Has, Within, R.Marks, Mark, Wire, SegCount, S.Cut, Flatten, R.Read;
    var x, y := State(cfg, a, b, c, d, 11), State(cfg, a, b, c, d, 12);
    StatesFormed(cfg, a, b, c, d, 11);
    ReadNext(cfg, 1, R.Slot(2, 1, 1, [c, d], true), [c, d]);
    assert [a] + [c, d] == [a, c, d];
  }

  // ---- The run ----

  /** All steps but the seventh are within the guards. */
  lemma {:induction false} StateGuarded(cfg: Config, a: Byte, b: Byte, c: Byte, d: Byte, i: nat)
    requires Small(cfg) && i < 12
    ensures var x := State(cfg, a, b, c, d, i);
      cfg.snd.segLen > 0 && x.s.base < SEQS && x.p.sn < SEQS && (Guarded(cfg, x, Events(a, b, c, d)[i]) <==> i != 6)
  {
    hide Rem, Mul, Quo, Mask, FirstClear, Has, Within, R.Marks, Mark, Wire, SegCount, S.Cut, Flatten, S.Freed;
    SmallFacts(cfg);
    var x := State(cfg, a, b, c, d, i);
    if i == 6 {
      assert First(a) in x.net;
      assert Announced(x, 0, 0);
    }
  }

  lemma {:induction false} StateTaken(cfg: Config, a: Byte, b: Byte, c: Byte, d: Byte, i: nat)
    requires Small(cfg) && i < 12
    ensures Takes(cfg, State(cfg, a, b, c, d, i), Events(a, b, c, d)[i], State(cfg, a, b, c, d, i + 1))
  {
    hide Takes, State, Events, Formed;
    match i
    case 0 => Step0(cfg, a, b, c, d);
    case 1 => Step1(cfg, a, b, c, d);
    case 2 => Step2(cfg, a, b, c, d);
    case 3 => Step3(cfg, a, b, c, d);
    case 4 => Step4(cfg, a, b, c, d);
    case 5 => Step5(cfg, a, b, c, d);
    case 6 => Step6(cfg, a, b, c, d);
    case 7 => Step7(cfg, a, b, c, d);
    case 8 => Step8(cfg, a, b, c, d);
    case 9 => Step9(cfg, a, b, c, d);
    case 10 => Step10(cfg, a, b, c, d);
    case _ => Step11(cfg, a, b, c, d);
  }

  lemma {:induction false} StartsFresh(cfg: Config, a: Byte, b: Byte, c: Byte, d: Byte)
    requires Small(cfg)
    ensures cfg.Valid() && State(cfg, a, b, c, d, 0) == Init(cfg)
  {
    hide Rem, Mul, Quo, Mask, Wire, SegCount;
    SmallFacts(cfg);
    assert seq(2, i => 0 as Byte) == [0, 0];
    assert Init(cfg).r.slots == [FRESH];
  }

  /**
   * A message [a] is flushed and sent; b is added to it, within its one segment; the acknowledgement
   * of [a] frees both; [c, d] follows. From a fresh system, with every step but the adding of b
   * within the guards, the receiver hands out a, c, d of the accepted a, b, c, d.
   */
  lemma {:induction false} ByteIsLost(cfg: Config, a: Byte, b: Byte, c: Byte, d: Byte, xs: seq<Sys>)
    requires Small(cfg) && |xs| == 13 && forall i :: 0 <= i <= 12 ==> xs[i] == State(cfg, a, b, c, d, i)
    ensures cfg.Valid() && xs[0] == Init(cfg)
    ensures forall i :: 0 <= i < 12 ==> Takes(cfg, xs[i], Events(a, b, c, d)[i], xs[i + 1])
    ensures forall i :: 0 <= i < 12 ==> xs[i].s.base < SEQS && xs[i].p.sn < SEQS
    ensures forall i :: 0 <= i < 12 ==> (Guarded(cfg, xs[i], Events(a, b, c, d)[i]) <==> i != 6)
    ensures xs[12].accepted == [a, b, c, d] && xs[12].delivered == [a, c, d]
    ensures b != c ==> !(xs[12].delivered <= xs[12].accepted)
  {
    StartsFresh(cfg, a, b, c, d);
    LastState(cfg, a, b, c, d);
    hide Takes, State, Events, Guarded, Init;
    forall i: nat | i < 12
      ensures Takes(cfg, xs[i], Events(a, b, c, d)[i], xs[i + 1])
      ensures xs[i].s.base < SEQS && xs[i].p.sn < SEQS && (Guarded(cfg, xs[i], Events(a, b, c, d)[i]) <==> i != 6)
    {
      StateTaken(cfg, a, b, c, d, i);
      StateGuarded(cfg, a, b, c, d, i);
    }
  }

  lemma {:induction false} LastState(cfg: Config, a: Byte, b: Byte, c: Byte, d: Byte)
    ensures var x := State(cfg, a, b, c, d, 12); x.accepted == [a, b, c, d] && x.delivered == [a, c, d]
    ensures b != c ==> !([a, c, d] <= [a, b, c, d])
  {
    assert [a, c, d][1] == c && [a, b, c, d][1] == b;
  }
}
