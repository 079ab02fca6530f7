/**
 * What the guard on the send pointer is for: a run that breaks it once, by an acknowledgement that
 * frees the message the pointer is on while no frame can go out, and loses a byte. The pointer then
 * announces a segment of the next message under the freed number, and the receiver adds it to the
 * message it holds.
 */
module StrayByte {
  import opened Arith
  import opened AckVec
  import opened SeqNum
  import opened Messages
  import opened OneSlot
  import opened TwoEnded
  import Memory
  import SenderSteps
  import F = SendFifo
  import S = SendWindow
  import R = RecvWindow

  /** Windows of one message, of two segments of one byte. */
  ghost predicate Small(cfg: Config) {
    && cfg.snd == cfg.rcv && cfg.snd.cap == 1 && cfg.snd.segs == 2 && cfg.snd.segLen == 1
    && cfg.tinyDelay > 0
  }

  ghost predicate Facts(cfg: Config)
    requires Small(cfg)
  {
    && cfg.Valid() && Slots(cfg.snd.cap) && Numbers() && TwoOfOne(cfg.snd) && cfg.snd.FullVec() == 3
    && Masks() && Bits() && Clears() && Marks2()
  }

  lemma {:induction false} SmallFacts(cfg: Config)
    requires Small(cfg)
    ensures Facts(cfg)
  {
    hide Rem, Mul, Quo, Mask, FirstClear, Has, Within, R.Marks, Mark, Wire, SegCount;
    SlotFacts(cfg.snd.cap);
    NumberFacts();
    TwoOfOneFacts(cfg.snd);
    MaskFacts();
    BitFacts();
    ClearFacts();
    Marks2Facts();
  }

  // ---- The sender's states ----

  function Snd(base: nat, data: seq<Byte>, full: Vec, rtx: Time, tiny: Time, on: bool): S.SendWnd {
    S.SendWnd(base, if data == [] then [] else [S.Message(data, 0, full, rtx)], tiny, on)
  }

  lemma {:induction false} SndValid(cfg: Config, base: nat, data: seq<Byte>, full: Vec, rtx: Time, tiny: Time, on: bool)
    requires Small(cfg) && base < SEQS && |data| <= 2
    ensures S.Valid(cfg.snd, Snd(base, data, full, rtx, tiny, on))
  {
    hide Rem, Mul, Quo, SegCount, Mask, FirstClear, Has, Within, R.Marks, Mark, Wire;
    SmallFacts(cfg);
  }

  /** A send into an empty window. */
  lemma {:induction false} SendNew(cfg: Config, base: nat, data: seq<Byte>, tiny: Time, on: bool)
    requires Small(cfg) && base < SEQS && 1 <= |data| <= 2
    ensures var w, partial := Snd(base, [], 3, 0, tiny, on), |data| < 2;
      && S.Valid(cfg.snd, w) && S.Taken(cfg.snd, w, data) == |data|
      && S.Send(cfg.snd, w, data, cfg.tinyDelay)
        == Snd(base, data, 3, if partial then cfg.tinyDelay else 0, if partial then cfg.tinyDelay else tiny, partial)
  {
    hide Rem, Mul, Quo, SegCount, Mask, FirstClear, Has, Within, R.Marks, Mark, Wire;
    SmallFacts(cfg);
    var w := Snd(base, [], 3, 0, tiny, on);
    SndValid(cfg, base, [], 3, 0, tiny, on);
    F.SendRefinesQueue(cfg.snd, w, data, cfg.tinyDelay);
    assert S.Bytes(w) + data[..|data|] == data;
    assert S.Cut(data, 2) == [data];
  }

  // ---- The receiver's states ----

  function Rcv(size: nat, slide: nat, slot: R.Slot): R.RecvWnd {
    R.RecvWnd(0, size, slide, slide, 0, [slot], TIME_INFINITY, 0, false)
  }

  lemma {:induction false} RcvValid(cfg: Config, size: nat, slide: nat, s: R.Slot)
    requires Small(cfg) && slide <= size <= 1 && |s.data| == 2
    requires (s.cur == 0 && s.len == 0) || (s.cur == 1 && s.len <= 1) || (s.cur == 3 && s.len <= 2)
    ensures R.Valid(cfg.rcv, Rcv(size, slide, s))
  {
    hide Rem, Mul, Quo, SegCount, Mask, FirstClear, Has, Within, R.Marks, Mark, Wire;
    SmallFacts(cfg);
  }

  /** The first segment of a message of one, into a fresh window. */
  lemma {:induction false} ReceiveFirst(cfg: Config, a: Byte)
    requires Small(cfg)
    ensures var s, f := R.Slot(0, 0, 3, [0, 0], false), R.Frame(0, 0, 1, [a]);
      && R.Valid(cfg.rcv, Rcv(0, 0, s)) && R.FrameOk(cfg.rcv, f)
      && R.Receive(cfg.rcv, Rcv(0, 0, s), f, cfg.isaDelay) == Rcv(1, 0, R.Slot(1, 1, 1, [a, 0], true))
  {
    hide Rem, Mul, Quo, SegCount, Mask, FirstClear, Has, Within, R.Marks, Mark, Wire;
    SmallFacts(cfg);
    var s, f := R.Slot(0, 0, 3, [0, 0], false), R.Frame(0, 0, 1, [a]);
    RcvValid(cfg, 0, 0, s);
    assert R.Reach(cfg.rcv, Rcv(0, 0, s), 0) == Rcv(1, 0, s);
    assert Memory.Put([0, 0], 0, [a]) == [a, 0];
    assert R.Stored(cfg.rcv, s, f) == R.Slot(1, 1, 1, [a, 0], true);
  }

  /** The stray segment joins it. */
  lemma {:induction false} ReceiveStray(cfg: Config, a: Byte, c: Byte)
    requires Small(cfg)
    ensures var s, f := R.Slot(1, 1, 1, [a, 0], false), R.Frame(0, 1, 2, [c]);
      && R.Valid(cfg.rcv, Rcv(1, 0, s)) && R.FrameOk(cfg.rcv, f)
      && R.Receive(cfg.rcv, Rcv(1, 0, s), f, cfg.isaDelay) == Rcv(1, 0, R.Slot(2, 3, 3, [a, c], true))
  {
    hide Rem, Mul, Quo, SegCount, Mask, FirstClear, Has, Within, R.Marks, Mark, Wire;
    SmallFacts(cfg);
    var s, f := R.Slot(1, 1, 1, [a, 0], false), R.Frame(0, 1, 2, [c]);
    RcvValid(cfg, 1, 0, s);
    assert R.Reach(cfg.rcv, Rcv(1, 0, s), 0) == Rcv(1, 0, s);
    assert Memory.Put([a, 0], 1, [c]) == [a, c];
    assert R.Stored(cfg.rcv, s, f) == R.Slot(2, 3, 3, [a, c], true);
  }

  lemma {:induction false} AckFirst(cfg: Config, s: R.Slot)
    requires Small(cfg) && s.ack && s.cur == 1
    ensures R.SendAck(Rcv(1, 0, s)) == (Rcv(1, 0, s.(ack := false)), S.AckHdr(0, 1))
    ensures R.FirstDue(Rcv(1, 0, s), 0) == 0
  {
    hide Rem, Mul, Quo, SegCount, Mask, FirstClear, Has, Within, R.Marks, Mark, Wire;
    SmallFacts(cfg);
    assert [s][0 := s.(ack := false)] == [s.(ack := false)];
  }

  lemma {:induction false} ReadAll(cfg: Config, a: Byte, c: Byte)
    requires Small(cfg)
    ensures var s := R.Slot(2, 3, 3, [a, c], true);
      && R.Valid(cfg.rcv, Rcv(1, 0, s))
      && R.Read(cfg.rcv, Rcv(1, 0, s), 2) == (Rcv(1, 1, s.(len := 0, cur := 0)), [a, c])
  {
    hide Rem, Mul, Quo, SegCount, Mask, FirstClear, Has, Within, R.Marks, Mark, Wire;
    SmallFacts(cfg);
    var s := R.Slot(2, 3, 3, [a, c], true);
    var w := Rcv(1, 0, s);
    RcvValid(cfg, 1, 0, s);
    assert R.NextMessage(cfg.rcv, w) == Rcv(1, 1, s.(len := 0, cur := 0));
    R.NextMessageValid(cfg.rcv, w);
    assert R.ReadMessages(cfg.rcv, R.NextMessage(cfg.rcv, w), 0, 0) == (R.NextMessage(cfg.rcv, w), []);
    assert [a, c][0..2] + [] == [a, c];
  }

  // ---- The states of the run ----

  function First(a: Byte): DataFrame {
    DataFrame(0, R.Frame(0, 0, 1, [a]))
  }

  /** Announced as segment 1 of message 0; its byte is of message 1. */
  function Stray(c: Byte): DataFrame {
    DataFrame(4096, R.Frame(0, 1, 2, [c]))
  }

  /** The ten states. */
  function State(cfg: Config, a: Byte, b: Byte, c: Byte, i: nat): Sys {
    var t := cfg.tinyDelay;
    var off, on, moved := S.Ptr(0, 0, false), S.Ptr(0, 0, true), S.Ptr(0, 1, true);
    var empty, held := Rcv(0, 0, R.Slot(0, 0, 3, [0, 0], false)), Rcv(1, 0, R.Slot(1, 1, 1, [a, 0], false));
    var mixed, read := Rcv(1, 0, R.Slot(2, 3, 3, [a, c], true)), Rcv(1, 1, R.Slot(0, 0, 3, [a, c], true));
    var d0, d1, k0 := First(a), Stray(c), AckFrame(0, 1);
    match i
    case 0 => Sys(Snd(0, [], 3, 0, 0, false), off, [], false, empty, 0, {}, {}, [], [])
    case 1 => Sys(Snd(0, [a], 3, t, t, true), off, [], true, empty, 0, {}, {}, [a], [])
    case 2 => Sys(Snd(0, [a], 1, 0, t, true), off, [], false, empty, 0, {}, {}, [a], [])
    case 3 => Sys(Snd(0, [a], 1, 0, t, true), on, [], false, empty, 0, {d0}, {}, [a], [])
    case 4 => Sys(Snd(0, [a], 1, 0, t, true), on, [], false, held, 0, {d0}, {k0}, [a], [])
    case 5 => Sys(Snd(1, [], 3, 0, t, true), on, [[a]], false, held, 0, {d0}, {k0}, [a], [])
    case 6 => Sys(Snd(1, [b, c], 3, 0, t, false), on, [[a]], false, held, 0, {d0}, {k0}, [a, b, c], [])
    case 7 => Sys(Snd(1, [b, c], 3, 0, t, false), moved, [[a]], false, held, 0, {d0, d1}, {k0}, [a, b, c], [])
    case 8 => Sys(Snd(1, [b, c], 3, 0, t, false), moved, [[a]], false, mixed, 0, {d0, d1}, {k0}, [a, b, c], [])
    case _ => Sys(Snd(1, [b, c], 3, 0, t, false), moved, [[a]], false, read, 0, {d0, d1}, {k0}, [a, b, c], [a, c])
  }

  function Events(a: Byte, b: Byte, c: Byte): (es: seq<Event>)
    ensures |es| == 9
  {
    [ Send([a]), FlushNow, PollSender(None, 0, true), PollReceiver(Some(First(a)), 0, true),
      PollSender(Some(AckFrame(0, 1)), 0, false), Send([b, c]), PollSender(None, 0, true),
      PollReceiver(Some(Stray(c)), 0, false), Read(2) ]
  }

  lemma {:induction false} SndForms(cfg: Config, a: Byte, b: Byte, c: Byte, i: nat)
    requires Small(cfg) && i <= 9
    ensures S.Valid(cfg.snd, State(cfg, a, b, c, i).s) && S.PtrOk(State(cfg, a, b, c, i).p)
  {
    hide S.Valid;
    var t := cfg.tinyDelay;
    SndValid(cfg, 0, [], 3, 0, 0, false);
    SndValid(cfg, 0, [a], 3, t, t, true);
    SndValid(cfg, 0, [a], 1, 0, t, true);
    SndValid(cfg, 1, [], 3, 0, t, true);
    SndValid(cfg, 1, [b, c], 3, 0, t, false);
  }

  lemma {:induction false} RcvForms(cfg: Config, a: Byte, b: Byte, c: Byte, i: nat)
    requires Small(cfg) && i <= 9
    ensures var x := State(cfg, a, b, c, i);
      R.Valid(cfg.rcv, x.r) && forall e :: e in x.net ==> R.FrameOk(cfg.rcv, e.f)
  {
    hide R.Valid;
    RcvValid(cfg, 0, 0, R.Slot(0, 0, 3, [0, 0], false));
    RcvValid(cfg, 1, 0, R.Slot(1, 1, 1, [a, 0], false));
    RcvValid(cfg, 1, 0, R.Slot(2, 3, 3, [a, c], true));
    RcvValid(cfg, 1, 1, R.Slot(0, 0, 3, [a, c], true));
  }

  lemma {:induction false} StatesFormed(cfg: Config, a: Byte, b: Byte, c: Byte, i: nat)
    requires Small(cfg) && i <= 9
    ensures Formed(cfg, State(cfg, a, b, c, i)) && Facts(cfg)
  {
    hide S.Valid, R.Valid, S.PtrOk;
    SmallFacts(cfg);
    SndForms(cfg, a, b, c, i);
    RcvForms(cfg, a, b, c, i);
  }

  // ---- The steps of the run ----

  lemma {:induction false} Step0(cfg: Config, a: Byte, b: Byte, c: Byte)
    requires Small(cfg)
    ensures Takes(cfg, State(cfg, a, b, c, 0), Events(a, b, c)[0], State(cfg, a, b, c, 1))
  {
    hide Rem, Mul, Quo, Mask, FirstClear, Has, Within, R.Marks, Mark, Wire, SegCount, S.Cut, Flatten, S.Send, S.Taken;
    StatesFormed(cfg, a, b, c, 0);
    SendNew(cfg, 0, [a], 0, false);
    assert [] + [a][..1] == [a];
  }

  lemma {:induction false} Step1(cfg: Config, a: Byte, b: Byte, c: Byte)
    requires Small(cfg)
    ensures Takes(cfg, State(cfg, a, b, c, 1), Events(a, b, c)[1], State(cfg, a, b, c, 2))
  {
    hide Rem, Mul, Quo, Mask, FirstClear, Has, Within, R.Marks, Mark, Wire, SegCount, S.Cut, Flatten;
    StatesFormed(cfg, a, b, c, 1);
    var x, y := State(cfg, a, b, c, 1), State(cfg, a, b, c, 2);
    assert S.Flush(cfg.snd, x.s).msgs == y.s.msgs;
  }

  lemma {:induction false} Step2(cfg: Config, a: Byte, b: Byte, c: Byte)
    requires Small(cfg)
    ensures Takes(cfg, State(cfg, a, b, c, 2), Events(a, b, c)[2], State(cfg, a, b, c, 3))
  {
    hide Rem, Mul, Quo, Mask, FirstClear, Has, Within, R.Marks, Mark, Wire, SegCount, S.Cut, Flatten;
    StatesFormed(cfg, a, b, c, 2);
    var x, y := State(cfg, a, b, c, 2), State(cfg, a, b, c, 3);
    Idle(cfg, x);
    assert S.Scan(x.s, x.p, 0) == 0;
    assert Cut([a], 0, cfg.snd.segLen) == [a];
    assert EmitSys(cfg, x) == y;
  }

  lemma {:induction false} Step3(cfg: Config, a: Byte, b: Byte, c: Byte)
    requires Small(cfg)
    ensures Takes(cfg, State(cfg, a, b, c, 3), Events(a, b, c)[3], State(cfg, a, b, c, 4))
  {
    hide Rem, Mul, Quo, Mask, FirstClear, Has, Within, R.Marks, Mark, Wire, SegCount, S.Cut, Flatten, R.Receive, R.Stored, R.Reach, R.SendAck, R.FirstDue, S.Valid, R.Valid, Bits, Clears, Marks2, Masks;
    StatesFormed(cfg, a, b, c, 3);
    ReceiveFirst(cfg, a);
    AckFirst(cfg, R.Slot(1, 1, 1, [a, 0], true));
  }

  lemma {:induction false} Step4(cfg: Config, a: Byte, b: Byte, c: Byte)
    requires Small(cfg)
    ensures Takes(cfg, State(cfg, a, b, c, 4), Events(a, b, c)[4], State(cfg, a, b, c, 5))
  {
    hide Rem, Mul, Quo, Mask, FirstClear, Has, Within, R.Marks, Mark, Wire, SegCount, S.Cut, Flatten;
    StatesFormed(cfg, a, b, c, 4);
    var x, y := State(cfg, a, b, c, 4), State(cfg, a, b, c, 5);
    var ms := S.Acked(x.s.msgs, 0, 1);
    assert S.Done(ms) == 1;
    assert ms[1..] == [] && x.s.msgs[..1] == x.s.msgs;
    assert S.Datas(x.s.msgs) == [[a]];
    assert AckedSys(x, Some(AckFrame(0, 1))) == y;
    assert S.StepAll([], 0) == [];
    assert TimedSys(cfg, y, 0) == y;
  }

  lemma {:induction false} Step5(cfg: Config, a: Byte, b: Byte, c: Byte)
    requires Small(cfg)
    ensures Takes(cfg, State(cfg, a, b, c, 5), Events(a, b, c)[5], State(cfg, a, b, c, 6))
  {
    hide Rem, Mul, Quo, Mask, FirstClear, Has, Within, R.Marks, Mark, Wire, SegCount, S.Cut, Flatten, S.Send, S.Taken;
    StatesFormed(cfg, a, b, c, 5);
    SendNew(cfg, 1, [b, c], cfg.tinyDelay, true);
    assert [a] + [b, c][..2] == [a, b, c];
  }

  lemma {:induction false} Step6(cfg: Config, a: Byte, b: Byte, c: Byte)
    requires Small(cfg)
    ensures Takes(cfg, State(cfg, a, b, c, 6), Events(a, b, c)[6], State(cfg, a, b, c, 7))
  {
    hide Rem, Mul, Quo, Mask, FirstClear, Has, Within, R.Marks, Mark, Wire, SegCount, S.Cut, Flatten;
    StatesFormed(cfg, a, b, c, 6);
    var x, y := State(cfg, a, b, c, 6), State(cfg, a, b, c, 7);
    Idle(cfg, x);
    assert Cut([b, c], 1, cfg.snd.segLen) == [c];
    assert EmitSys(cfg, x) == y;
  }

  lemma {:induction false} Step7(cfg: Config, a: Byte, b: Byte, c: Byte)
    requires Small(cfg)
    ensures Takes(cfg, State(cfg, a, b, c, 7), Events(a, b, c)[7], State(cfg, a, b, c, 8))
  {
    hide Rem, Mul, Quo, Mask, FirstClear, Has, Within, R.Marks, Mark, Wire, SegCount, S.Cut, Flatten, R.Receive, R.Stored, R.Reach;
    StatesFormed(cfg, a, b, c, 7);
    ReceiveStray(cfg, a, c);
  }

  lemma {:induction false} Step8(cfg: Config, a: Byte, b: Byte, c: Byte)
    requires Small(cfg)
    ensures Takes(cfg, State(cfg, a, b, c, 8), Events(a, b, c)[8], State(cfg, a, b, c, 9))
  {
    hide Rem, Mul, Quo, Mask, FirstClear, Has, Within, R.Marks, Mark, Wire, SegCount, S.Cut, Flatten, R.Read;
    StatesFormed(cfg, a, b, c, 8);
    ReadAll(cfg, a, c);
    assert [] + [a, c] == [a, c];
  }

  /** A sender's poll without an acknowledgement or time only emits. */
  lemma {:induction false} Idle(cfg: Config, x: Sys)
    requires S.Valid(cfg.snd, x.s) && !(x.s.tinyOn && x.s.tiny == 0)
    ensures AckedSys(x, None) == x && TimedSys(cfg, x, 0) == x
  {
    hide Rem, Mul, Quo, Flatten, S.Flush;
    SenderSteps.AckedCases(x, None);
    assert S.StepAll(x.s.msgs, 0) == x.s.msgs;
  }

  // ---- The run ----

  lemma {:induction false} StateTaken(cfg: Config, a: Byte, b: Byte, c: Byte, i: nat)
    requires Small(cfg) && i < 9
    ensures Takes(cfg, State(cfg, a, b, c, i), Events(a, b, c)[i], State(cfg, a, b, c, i + 1))
  {
    hide Takes, State, Events;
    match i
    case 0 => Step0(cfg, a, b, c);
    case 1 => Step1(cfg, a, b, c);
    case 2 => Step2(cfg, a, b, c);
    case 3 => Step3(cfg, a, b, c);
    case 4 => Step4(cfg, a, b, c);
    case 5 => Step5(cfg, a, b, c);
    case 6 => Step6(cfg, a, b, c);
    case 7 => Step7(cfg, a, b, c);
    case _ => Step8(cfg, a, b, c);
  }

  /** All steps but the fifth are within the guards. */
  lemma {:induction false} StateGuarded(cfg: Config, a: Byte, b: Byte, c: Byte, i: nat)
    requires Small(cfg) && i < 9
    ensures var x := State(cfg, a, b, c, i);
      cfg.snd.segLen > 0 && x.s.base < SEQS && x.p.sn < SEQS && (Guarded(cfg, x, Events(a, b, c)[i]) <==> i != 4)
  {
    hide Rem, Mul, Quo, Mask, FirstClear, Has, Within, R.Marks, Mark, Wire, SegCount, S.Cut, Flatten;
    SmallFacts(cfg);
    if i == 4 {
      var ms := S.Acked(State(cfg, a, b, c, 4).s.msgs, 0, 1);
      assert S.Done(ms) == 1;
    }
  }

  lemma {:induction false} Ends(cfg: Config, a: Byte, b: Byte, c: Byte)
    requires Small(cfg)
    ensures cfg.Valid() && State(cfg, a, b, c, 0) == Init(cfg)
    ensures var x := State(cfg, a, b, c, 9); x.accepted == [a, b, c] && x.delivered == [a, c]
    ensures b != c ==> !([a, c] <= [a, b, c])
  {
    hide Rem, Mul, Quo, Mask, Wire, SegCount, FirstClear, Has, Within, R.Marks, Mark;
    SmallFacts(cfg);
    assert seq(2, i => 0 as Byte) == [0, 0];
    assert Init(cfg).r.slots == [R.Slot(0, 0, 3, [0, 0], false)];
    assert [a, c][1] == c && [a, b, c][1] == b;
  }

  /**
   * A message [a] is flushed, sent and received; its acknowledgement frees it under the pointer; [b, c]
   * takes its slot, and c goes out as segment 1 of message 0. From a fresh system, with every step but
   * the taking of the acknowledgement within the guards, the receiver hands out a, c of the accepted
   * a, b, c.
   */
  lemma {:induction false} StrayByteIsDelivered(cfg: Config, a: Byte, b: Byte, c: Byte, xs: seq<Sys>)
    requires Small(cfg) && |xs| == 10 && forall i :: 0 <= i <= 9 ==> xs[i] == State(cfg, a, b, c, i)
    ensures cfg.Valid() && xs[0] == Init(cfg)
    ensures forall i :: 0 <= i < 9 ==> Takes(cfg, xs[i], Events(a, b, c)[i], xs[i + 1])
    ensures forall i :: 0 <= i < 9 ==> xs[i].s.base < SEQS && xs[i].p.sn < SEQS
    ensures forall i :: 0 <= i < 9 ==> (Guarded(cfg, xs[i], Events(a, b, c)[i]) <==> i != 4)
    ensures xs[9].accepted == [a, b, c] && xs[9].delivered == [a, c]
    ensures b != c ==> !(xs[9].delivered <= xs[9].accepted)
  {
    hide Takes, State, Events, Guarded, Init;
    Ends(cfg, a, b, c);
    forall i: nat | i < 9
      ensures Takes(cfg, xs[i], Events(a, b, c)[i], xs[i + 1])
      ensures xs[i].s.base < SEQS && xs[i].p.sn < SEQS && (Guarded(cfg, xs[i], Events(a, b, c)[i]) <==> i != 4)
    {
      StateTaken(cfg, a, b, c, i);
      StateGuarded(cfg, a, b, c, i);
    }
  }
}
