/**
 * A run of the sender, from reset, that announces a segment of a later message under the number of a
 * freed one: the acknowledgement that frees the message comes while no frame can go out, so that the
 * pointer stays on it, and its slot is filled again before the pointer moves.
 */
module StrayRun {
  import opened Arith
  import opened AckVec
  import opened SeqNum
  import opened Messages
  import opened OneSlot
  import opened SendWindow
  import F = SendFifo

  /** One message in the window, of two segments of one byte. */
  predicate Pair(sh: Shape) {
    sh.cap == 1 && sh.segs == 2 && sh.segLen == 1
  }

  ghost predicate Facts(sh: Shape)
    requires Pair(sh)
  {
    sh.Valid() && Slots(sh.cap) && Numbers() && TwoOfOne(sh) && sh.FullVec() == 3 && Masks() && Clears()
  }

  lemma {:induction false} PairFacts(sh: Shape)
    requires Pair(sh)
    ensures Facts(sh)
  {
    hide Rem, Mul, Quo, Mask, FirstClear, Wire, SegCount;
    SlotFacts(sh.cap);
    NumberFacts();
    TwoOfOneFacts(sh);
    MaskFacts();
    ClearFacts();
  }

  function Empty(base: nat): SendWnd {
    SendWnd(base, [], 0, false)
  }

  /** A window that holds one message, nothing of it acknowledged. */
  function One(base: nat, data: seq<Byte>, rtx: Time): SendWnd {
    SendWnd(base, [Message(data, 0, 3, rtx)], 0, false)
  }

  lemma {:induction false} OneValid(sh: Shape, base: nat, data: seq<Byte>, rtx: Time)
    requires Pair(sh) && base < SEQS && |data| == 2
    ensures Valid(sh, Empty(base)) && Valid(sh, One(base, data, rtx))
  {
    hide Rem, Mul, Quo, SegCount, Mask, FirstClear, Wire;
    PairFacts(sh);
  }

  lemma {:induction false} SendOne(sh: Shape, base: nat, data: seq<Byte>, delay: Time)
    requires Pair(sh) && base < SEQS && |data| == 2
    ensures Valid(sh, Empty(base)) && Send(sh, Empty(base), data, delay) == One(base, data, 0)
  {
    hide Rem, Mul, Quo, SegCount, Mask, FirstClear, Wire;
    PairFacts(sh);
    OneValid(sh, base, data, 0);
    F.SendRefinesQueue(sh, Empty(base), data, delay);
    assert Mul(sh.cap, 2) == 2 by { MulOne(2); }
    assert Bytes(Empty(base)) + data[..2] == data;
    assert Cut(data, 2) == [data];
    assert Recut(sh, Empty(base), [data], delay) == One(base, data, 0).msgs;
  }

  /** A poll without an acknowledgement steps the timer and moves the pointer. */
  lemma {:induction false} PollOne(sh: Shape, base: nat, data: seq<Byte>, rtx: Time, p: Ptr, dt: Time, rto: Time)
    requires Pair(sh) && base < SEQS && |data| == 2 && PtrOk(p)
    ensures Valid(sh, One(base, data, rtx))
    ensures Poll(sh, One(base, data, rtx), p, NoAck, dt, rto, true) == Emit(sh, One(base, data, SubSat(rtx, dt)), p, rto)
  {
    hide Rem, Mul, Quo, SegCount, Mask, FirstClear, Wire, Emit;
    OneValid(sh, base, data, rtx);
    OneValid(sh, base, data, SubSat(rtx, dt));
    assert StepAll(One(base, data, rtx).msgs, dt) == One(base, data, SubSat(rtx, dt)).msgs;
  }

  /** The first segment, from an invalid pointer. */
  lemma {:induction false} EmitFirst(sh: Shape, base: nat, data: seq<Byte>, p: Ptr, rto: Time)
    requires Pair(sh) && base < SEQS && |data| == 2 && PtrOk(p) && !p.valid
    ensures sh.Valid()
    ensures Emit(sh, One(base, data, 0), p, rto) == (One(base, data, 0), Ptr(base, 0, true), SegHdr(base, 0, 2))
  {
    hide Rem, Mul, Quo, Mask, FirstClear, SegCount, Wire;
    PairFacts(sh);
    WireSmall(base);
    assert Scan(One(base, data, 0), p, 0) == 0;
  }

  /** The second segment of the slot that the pointer's number selects. */
  lemma {:induction false} EmitSecond(sh: Shape, base: nat, sn: nat, data: seq<Byte>, rto: Time)
    requires Pair(sh) && |data| == 2 && base < SEQS && sn < SEQS
    ensures sh.Valid()
    ensures Emit(sh, One(base, data, 0), Ptr(sn, 0, true), rto) == (One(base, data, 0), Ptr(sn, 1, true), SegHdr(sn, 1, 2))
  {
    hide Rem, Mul, Quo, Mask, FirstClear, SegCount, Wire;
    PairFacts(sh);
    RemOne(Ahead(sn, base), sh.cap);
  }

  /** After the last segment the timer is restarted and the pointer rests. */
  lemma {:induction false} EmitDone(sh: Shape, base: nat, data: seq<Byte>, rto: Time)
    requires Pair(sh) && |data| == 2 && base < SEQS
    ensures sh.Valid()
    ensures Emit(sh, One(base, data, 0), Ptr(base, 1, true), rto) == (One(base, data, rto), Ptr(base, 2, false), NoSeg)
  {
    hide Rem, Mul, Quo, Mask, FirstClear, SegCount, Wire;
    PairFacts(sh);
    WireSmall(base);
    RemOne(Ahead(base, base), sh.cap);
    assert Scan(One(base, data, 0), Ptr(base, 2, true), 0) == 1;
    assert Restart(sh, One(base, data, 0), base, rto).msgs == One(base, data, rto).msgs;
  }

  /** The acknowledgement of both segments, in a poll that cannot send. */
  lemma {:induction false} PollAcked(sh: Shape, base: nat, data: seq<Byte>, rtx: Time, p: Ptr, rto: Time)
    requires Pair(sh) && |data| == 2 && base < SEQS && PtrOk(p)
    ensures Valid(sh, One(base, data, rtx))
    ensures Poll(sh, One(base, data, rtx), p, AckHdr(base, 3), 0, rto, false) == (Empty(Wire(base + 1)), p, NoSeg)
  {
    hide Rem, Mul, Quo, Mask, FirstClear, Wire, SegCount;
    PairFacts(sh);
    OneValid(sh, base, data, rtx);
    OneValid(sh, Wire(base + 1), data, 0);
    var ms := Acked(One(base, data, rtx).msgs, 0, 3);
    assert Done(ms) == 1;
    assert ms[1..] == [];
    assert StepAll([], 0) == [];
  }

  /** What a run of polls and sends has announced. */
  datatype Ran = Ran(w: SendWnd, p: Ptr, hs: seq<SegHdr>)

  datatype Op = OpSend(src: seq<Byte>, delay: Time) | OpPoll(ack: AckHdr, dt: Time, room: bool)

  const RESET := Ran(SendWnd(0, [], 0, false), Ptr(0, 0, false), [])

  ghost predicate Runs(sh: Shape, rto: Time, r: Ran, ops: seq<Op>, r': Ran)
    decreases |ops|
  {
    if ops == [] then r == r'
    else
      && Valid(sh, r.w) && PtrOk(r.p)
      && match ops[0]
         case OpSend(src, delay) => Runs(sh, rto, r.(w := Send(sh, r.w, src, delay)), ops[1..], r')
         case OpPoll(ack, dt, room) =>
           var (w, p, h) := Poll(sh, r.w, r.p, ack, dt, rto, room);
           Runs(sh, rto, Ran(w, p, r.hs + if h.SegHdr? then [h] else []), ops[1..], r')
  }

  lemma {:induction false} RunsStep(sh: Shape, rto: Time, r: Ran, op: Op, mid: Ran, ops: seq<Op>, r': Ran)
    requires Valid(sh, r.w) && PtrOk(r.p) && Runs(sh, rto, mid, ops, r')
    requires match op
      case OpSend(src, delay) => mid == r.(w := Send(sh, r.w, src, delay))
      case OpPoll(ack, dt, room) =>
        var (w, p, h) := Poll(sh, r.w, r.p, ack, dt, rto, room);
        mid == Ran(w, p, r.hs + if h.SegHdr? then [h] else [])
    ensures Runs(sh, rto, r, [op] + ops, r')
  {
    hide Poll, Send, Valid, Rem;
    assert ([op] + ops)[1..] == ops;
  }

  const POLL := OpPoll(NoAck, 0, true)

  /**
   * The message [a, b] goes out, both segments once and, after the timeout, the first again; its
   * acknowledgement comes while no frame can go out; [c, d] takes its slot. The next poll announces
   * segment 1 of 2 of message 0, whose bytes are now those of [c, d].
   */
  lemma {:induction false} StrayRunFromReset(sh: Shape, rto: Time, delay: Time, a: Byte, b: Byte, c: Byte, d: Byte)
    requires Pair(sh)
    ensures var tail := [OpPoll(NoAck, rto, true)] + ([OpPoll(AckHdr(0, 3), 0, false)] + ([OpSend([c, d], delay)] + ([POLL] + [])));
      var ops := [OpSend([a, b], delay)] + ([POLL] + ([POLL] + ([POLL] + tail)));
      Runs(sh, rto, RESET, ops, Ran(One(1, [c, d], 0), Ptr(0, 1, true),
        [SegHdr(0, 0, 2), SegHdr(0, 1, 2), SegHdr(0, 0, 2), SegHdr(0, 1, 2)]))
    ensures Valid(sh, One(1, [c, d], 0)) && AtSlot(sh, One(1, [c, d], 0), 0).data == [c, d]
  {
    hide Poll, Send, Valid, Rem, Emit, AtSlot, Wire, Runs;
    var m, m2 := [a, b], [c, d];
    var h0, h1 := SegHdr(0, 0, 2), SegHdr(0, 1, 2);
    OneValid(sh, 0, m, 0);
    OneValid(sh, 0, m, rto);
    OneValid(sh, 1, m2, 0);
    SecondSlot(sh, m2);
    WireSmall(1);
    var r1 := Ran(One(0, m, 0), Ptr(0, 0, false), []);
    var r2 := Ran(One(0, m, 0), Ptr(0, 0, true), [h0]);
    var r3 := Ran(One(0, m, 0), Ptr(0, 1, true), [h0, h1]);
    var r4 := Ran(One(0, m, rto), Ptr(0, 2, false), [h0, h1]);
    var r5 := Ran(One(0, m, 0), Ptr(0, 0, true), [h0, h1, h0]);
    var r6 := Ran(Empty(1), Ptr(0, 0, true), [h0, h1, h0]);
    var r7 := Ran(One(1, m2, 0), Ptr(0, 0, true), [h0, h1, h0]);
    var r8 := Ran(One(1, m2, 0), Ptr(0, 1, true), [h0, h1, h0, h1]);
    assert Runs(sh, rto, r8, [], r8) by { RunsNothing(sh, rto, r8); }
    PollOne(sh, 1, m2, 0, r7.p, 0, rto);
    EmitSecond(sh, 1, 0, m2, rto);
    var o7 := [POLL] + [];
    RunsStep(sh, rto, r7, POLL, r8, [], r8);
    SendOne(sh, 1, m2, delay);
    var o6 := [OpSend(m2, delay)] + o7;
    RunsStep(sh, rto, r6, OpSend(m2, delay), r7, o7, r8);
    PollAcked(sh, 0, m, 0, r5.p, rto);
    var o5 := [OpPoll(AckHdr(0, 3), 0, false)] + o6;
    RunsStep(sh, rto, r5, OpPoll(AckHdr(0, 3), 0, false), r6, o6, r8);
    PollOne(sh, 0, m, rto, r4.p, rto, rto);
    EmitFirst(sh, 0, m, r4.p, rto);
    var o4 := [OpPoll(NoAck, rto, true)] + o5;
    RunsStep(sh, rto, r4, OpPoll(NoAck, rto, true), r5, o5, r8);
    PollOne(sh, 0, m, 0, r3.p, 0, rto);
    EmitDone(sh, 0, m, rto);
    var o3 := [POLL] + o4;
    RunsStep(sh, rto, r3, POLL, r4, o4, r8);
    PollOne(sh, 0, m, 0, r2.p, 0, rto);
    EmitSecond(sh, 0, 0, m, rto);
    var o2 := [POLL] + o3;
    RunsStep(sh, rto, r2, POLL, r3, o3, r8);
    PollOne(sh, 0, m, 0, r1.p, 0, rto);
    EmitFirst(sh, 0, m, r1.p, rto);
    var o1 := [POLL] + o2;
    RunsStep(sh, rto, r1, POLL, r2, o2, r8);
    SendOne(sh, 0, m, delay);
    RunsStep(sh, rto, RESET, OpSend(m, delay), r1, o1, r8);
  }

  lemma {:induction false} RunsNothing(sh: Shape, rto: Time, r: Ran)
    ensures Runs(sh, rto, r, [], r)
  {
  }

  lemma {:induction false} SecondSlot(sh: Shape, data: seq<Byte>)
    requires Pair(sh) && |data| == 2
    ensures sh.Valid() && AtSlot(sh, One(1, data, 0), 0).data == data
  {
    hide Rem, Mul, Mask, FirstClear, SegCount, Wire;
    PairFacts(sh);
  }
}
