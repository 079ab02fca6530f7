/**
 * What the guard on the age of acknowledgements is for: a run of the sender, from reset, in which an
 * acknowledgement comes a second time after 4096 messages and frees a message nothing was sent of.
 */
module OldAck {
  import opened Arith
  import opened SeqNum
  import opened Messages
  import opened SendWindow
  import opened StrayRun

  /** One message accepted, announced and acknowledged: the operations, and what they announce. */
  function Round(n: nat, data: seq<Byte>, delay: Time): seq<Op> {
    [OpSend(data, delay)] + ([POLL] + ([POLL] + ([POLL] + [OpPoll(AckHdr(Wire(n), 3), 0, false)])))
  }

  function RoundHeaders(n: nat): seq<SegHdr> {
    [SegHdr(Wire(n), 0, 2), SegHdr(Wire(n), 1, 2)]
  }

  function Rounds(n: nat, ds: seq<seq<Byte>>, delay: Time): seq<Op>
    decreases |ds|
  {
    if ds == [] then [] else Round(n, ds[0], delay) + Rounds(n + 1, ds[1..], delay)
  }

  function Headers(n: nat, count: nat): seq<SegHdr>
    decreases count
  {
    if count == 0 then [] else RoundHeaders(n) + Headers(n + 1, count - 1)
  }

  /** The pointer after the round of message n. */
  function Rested(n: nat): Ptr {
    Ptr(Wire(n), 2, false)
  }

  /** A round leaves the window empty at the next number. */
  lemma {:induction false} RoundRuns(sh: Shape, rto: Time, n: nat, data: seq<Byte>, delay: Time, p: Ptr, hs: seq<SegHdr>,
                                     tail: seq<Op>, r: Ran)
    requires Pair(sh) && |data| == 2 && PtrOk(p) && !p.valid
    requires Runs(sh, rto, Ran(Empty(Wire(n + 1)), Rested(n), hs + RoundHeaders(n)), tail, r)
    ensures Runs(sh, rto, Ran(Empty(Wire(n)), p, hs), Round(n, data, delay) + tail, r)
  {
    hide Poll, Send, Valid, Rem, Emit, Wire, Runs;
    var base, h0, h1 := Wire(n), SegHdr(Wire(n), 0, 2), SegHdr(Wire(n), 1, 2);
    var ack := OpPoll(AckHdr(base, 3), 0, false);
    var r1 := Ran(One(base, data, 0), p, hs);
    var r2 := Ran(One(base, data, 0), Ptr(base, 0, true), hs + [h0]);
    var r3 := Ran(One(base, data, 0), Ptr(base, 1, true), hs + [h0] + [h1]);
    var r4 := Ran(One(base, data, rto), Rested(n), hs + [h0] + [h1]);
    OneValid(sh, base, data, 0);
    OneValid(sh, base, data, rto);
    assert hs + [h0] + [h1] == hs + RoundHeaders(n);
    NextNumber(n);
    PollAcked(sh, base, data, rto, Rested(n), rto);
    RunsStep(sh, rto, r4, ack, Ran(Empty(Wire(n + 1)), Rested(n), hs + [h0] + [h1]), tail, r);
    PollOne(sh, base, data, 0, r3.p, 0, rto);
    EmitDone(sh, base, data, rto);
    RunsStep(sh, rto, r3, POLL, r4, [ack] + tail, r);
    PollOne(sh, base, data, 0, r2.p, 0, rto);
    EmitSecond(sh, base, base, data, rto);
    RunsStep(sh, rto, r2, POLL, r3, [POLL] + ([ack] + tail), r);
    PollOne(sh, base, data, 0, p, 0, rto);
    EmitFirst(sh, base, data, p, rto);
    RunsStep(sh, rto, r1, POLL, r2, [POLL] + ([POLL] + ([ack] + tail)), r);
    SendOne(sh, base, data, delay);
    RunsStep(sh, rto, Ran(Empty(base), p, hs), OpSend(data, delay), r1, [POLL] + ([POLL] + ([POLL] + ([ack] + tail))), r);
    assert Round(n, data, delay) + tail == [OpSend(data, delay)] + ([POLL] + ([POLL] + ([POLL] + ([ack] + tail))));
  }

  lemma {:induction false} NextNumber(n: nat)
    ensures Wire(Wire(n) + 1) == Wire(n + 1)
  {
    RemAdd(n, 1, SEQS);
  }

  lemma {:induction false} RoundsRun(sh: Shape, rto: Time, n: nat, ds: seq<seq<Byte>>, delay: Time, p: Ptr, hs: seq<SegHdr>,
                                     tail: seq<Op>, r: Ran)
    requires Pair(sh) && PtrOk(p) && !p.valid && forall i :: 0 <= i < |ds| ==> |ds[i]| == 2
    requires Runs(sh, rto, Ran(Empty(Wire(n + |ds|)), if ds == [] then p else Rested(n + |ds| - 1), hs + Headers(n, |ds|)), tail, r)
    ensures Runs(sh, rto, Ran(Empty(Wire(n)), p, hs), Rounds(n, ds, delay) + tail, r)
    decreases |ds|
  {
    hide Runs, Rem, Wire, Round, RoundHeaders;
    if ds == [] {
      assert [] + tail == tail && hs + [] == hs;
    } else {
      var rest := ds[1..];
      assert hs + Headers(n, |ds|) == hs + RoundHeaders(n) + Headers(n + 1, |rest|);
      RoundsRun(sh, rto, n + 1, rest, delay, Rested(n), hs + RoundHeaders(n), tail, r);
      RoundRuns(sh, rto, n, ds[0], delay, p, hs, Rounds(n + 1, rest, delay) + tail, r);
      assert Rounds(n, ds, delay) + tail == Round(n, ds[0], delay) + (Rounds(n + 1, rest, delay) + tail);
    }
  }

  lemma {:induction false} AllNumbers()
    ensures Wire(SEQS) == 0 && Wire(0) == 0 && Wire(1) == 1
  {
  }

  /**
   * After 4096 messages, each announced and acknowledged, another is accepted; the acknowledgement of
   * the first message, repeated, frees it. What was announced is what was announced before.
   */
  lemma {:induction false} OldAckFreesUnsent(sh: Shape, rto: Time, ds: seq<seq<Byte>>, delay: Time, data: seq<Byte>)
    requires Pair(sh) && |data| == 2 && |ds| == SEQS && forall i :: 0 <= i < |ds| ==> |ds[i]| == 2
    ensures var ops := Rounds(0, ds, delay) + ([OpSend(data, delay)] + ([OpPoll(AckHdr(0, 3), 0, false)] + []));
      Runs(sh, rto, RESET, ops, Ran(Empty(1), Rested(SEQS - 1), Headers(0, SEQS)))
  {
    hide Runs, Rem, Wire, Poll, Send, Valid, Headers, Rounds, Emit;
    AllNumbers();
    var p, hs := Rested(SEQS - 1), Headers(0, SEQS);
    var r := Ran(Empty(1), p, hs);
    OneValid(sh, 0, data, 0);
    RunsNothing(sh, rto, r);
    PollAcked(sh, 0, data, 0, p, rto);
    RunsStep(sh, rto, Ran(One(0, data, 0), p, hs), OpPoll(AckHdr(0, 3), 0, false), r, [], r);
    SendOne(sh, 0, data, delay);
    RunsStep(sh, rto, Ran(Empty(0), p, hs), OpSend(data, delay), Ran(One(0, data, 0), p, hs), [OpPoll(AckHdr(0, 3), 0, false)] + [], r);
    assert [] + hs == hs;
    RoundsRun(sh, rto, 0, ds, delay, Ptr(0, 0, false), [], [OpSend(data, delay)] + ([OpPoll(AckHdr(0, 3), 0, false)] + []), r);
  }
}
