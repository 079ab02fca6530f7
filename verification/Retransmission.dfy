/**
 * What makes a message due, how long it then waits, and what the send poll announces: acknowledgements
 * that leave something out, sends, flushes and timers, joined to the list of due headers.
 */
module Retransmission {
  import opened Arith
  import opened AckVec
  import opened SeqNum
  import opened Messages
  import opened SendWindow
  import opened Burst
  import F = SendFifo

  // ---- What is in the list of due headers ----

  lemma {:induction false} MissingHas(v: nat, n: nat, k: nat, seg: nat)
    ensures seg in Missing(v, n, k) <==> k <= seg < n && !Has(v, seg)
    decreases n - k
  {
    hide Has;
    if k < n { MissingHas(v, n, k + 1, seg); }
  }

  lemma {:induction false} HeadersHas(segs: seq<nat>, sn: nat, count: nat, h: SegHdr)
    ensures h in Headers(segs, sn, count) <==> h.SegHdr? && h.sn == sn && h.count == count && h.seg in segs
  {
    if segs != [] {
      HeadersHas(segs[1..], sn, count, h);
      assert segs == [segs[0]] + segs[1..];
    }
  }

  /** Segment seg of message j has not been acknowledged, and the message is due. */
  predicate DueSegment(sh: Shape, w: SendWnd, j: nat, seg: nat)
    requires sh.segLen > 0 && j < |w.msgs|
  {
    w.msgs[j].rtx == 0 && seg < Count(sh, w.msgs[j]) && !Has(w.msgs[j].cur, seg)
  }

  /** Header h is of a due segment of message i. */
  predicate DueHeader(sh: Shape, w: SendWnd, i: nat, h: SegHdr)
    requires sh.segLen > 0 && i < |w.msgs|
  {
    h.SegHdr? && h.sn == Wire(w.base + i) && h.count == Count(sh, w.msgs[i]) && DueSegment(sh, w, i, h.seg)
  }

  lemma {:induction false} MessageHas(sh: Shape, w: SendWnd, j: nat, h: SegHdr)
    requires sh.segLen > 0 && j < |w.msgs|
    ensures w.msgs[j].rtx == 0 && h in MessageHeaders(sh, w, j, 0) <==> DueHeader(sh, w, j, h)
  {
    hide Missing, Headers, Wire, Has, Quo;
    var m := w.msgs[j];
    HeadersHas(Missing(m.cur, Count(sh, m), 0), Wire(w.base + j), Count(sh, m), h);
    if h.SegHdr? { MissingHas(m.cur, Count(sh, m), 0, h.seg); }
  }

  lemma {:induction false} DueHas(sh: Shape, w: SendWnd, j: nat, h: SegHdr)
    requires sh.segLen > 0 && j <= |w.msgs|
    ensures h in Due(sh, w, -1, j) <==> exists i :: j <= i < |w.msgs| && DueHeader(sh, w, i, h)
    decreases |w.msgs| - j
  {
    hide MessageHeaders, DueHeader;
    if j < |w.msgs| {
      MessageHas(sh, w, j, h);
      DueHas(sh, w, j + 1, h);
    }
  }

  /** A header of message j is due exactly for each segment not acknowledged, once the timer has run out. */
  lemma {:induction false} DueIff(sh: Shape, w: SendWnd, j: nat, seg: nat, count: nat)
    requires Valid(sh, w) && j < |w.msgs|
    ensures SegHdr(Wire(w.base + j), seg, count) in Due(sh, w, -1, 0) <==>
      count == Count(sh, w.msgs[j]) && DueSegment(sh, w, j, seg)
  {
    hide Wire, Quo, Mul, Has, Due, DueSegment;
    var h := SegHdr(Wire(w.base + j), seg, count);
    DueHas(sh, w, 0, h);
    assert DueHeader(sh, w, j, h) <==> count == Count(sh, w.msgs[j]) && DueSegment(sh, w, j, seg);
    if exists i :: 0 <= i < |w.msgs| && DueHeader(sh, w, i, h) {
      var i :| 0 <= i < |w.msgs| && DueHeader(sh, w, i, h);
      WireSame(w.base + i, w.base + j);
    }
  }

  // ---- Acknowledgements ----

  /**
   * The message an acknowledgement names takes its vector; if the vector leaves something out, the
   * message stays in the window and its timer is zero at once. All others that stay are unchanged.
   */
  lemma {:induction false} AckTimers(w: SendWnd, sn: nat, vec: Vec)
    ensures var w', n := Ack(w, sn, vec), Freed(w, sn, vec);
      && |w'.msgs| == |w.msgs| - n
      && (Acceptable(w, sn) && vec != w.msgs[sn - w.base].full ==> n <= sn - w.base)
      && forall i :: 0 <= i < |w'.msgs| ==>
          var m, named := w.msgs[i + n], Acceptable(w, sn) && i + n == sn - w.base;
          w'.msgs[i] == if !named then m else m.(cur := vec, rtx := if vec == m.full then m.rtx else 0)
  {
    if Acceptable(w, sn) {
      var j := sn - w.base;
      var m := w.msgs[j];
      assert Acked(w.msgs, j, vec)[j] == m.(cur := vec, rtx := if vec == m.full then m.rtx else 0);
    }
  }

  /** The segments of a message that an acknowledgement leaves out are due at once, and no others of the message. */
  lemma {:induction false} NakMakesDue(sh: Shape, w: SendWnd, sn: nat, vec: Vec, seg: nat, count: nat)
    requires Valid(sh, w) && sn < SEQS && Acceptable(w, sn) && vec != w.msgs[sn - w.base].full
    ensures Valid(sh, Ack(w, sn, vec))
    ensures SegHdr(sn, seg, count) in Due(sh, Ack(w, sn, vec), -1, 0) <==>
      count == Count(sh, w.msgs[sn - w.base]) && seg < count && !Has(vec, seg)
  {
    hide Mul, Quo, Has, Due, Done, Rem;
    AckValid(sh, w, AckHdr(sn, vec));
    AckTimers(w, sn, vec);
    var w', n := Ack(w, sn, vec), Freed(w, sn, vec);
    var j := sn - w.base - n;
    RemAdd(w.base + n, j, SEQS);
    WireSmall(sn);
    assert Wire(w'.base + j) == sn;
    DueIff(sh, w', j, seg, count);
  }

  // ---- Sends ----

  /**
   * A send leaves the last message, if it is full now, and all full messages after it due at once,
   * also when the last one was full before and only waited for its acknowledgement. A message begun
   * and not filled waits for the delay, as the tinygram timer does; any other keeps its timer. Sending
   * no bytes changes nothing.
   */
  lemma {:induction false} SendTimers(sh: Shape, w: SendWnd, src: seq<Byte>, delay: Time)
    requires Valid(sh, w)
    ensures var w' := Send(sh, w, src, delay);
      && (|src| == 0 ==> w' == w)
      && (|src| > 0 ==>
          && (forall j :: 0 <= j < |w'.msgs| ==>
              var full := |w'.msgs[j].data| == sh.MsgLen();
              && (j >= LastIndex(w) && full ==> w'.msgs[j].rtx == 0)
              && (j >= |w.msgs| && !full ==> w'.msgs[j].rtx == delay == w'.tiny)
              && (j < |w.msgs| && !(j >= LastIndex(w) && full) ==> w'.msgs[j].rtx == w.msgs[j].rtx))
          && (w'.tinyOn <==> |w'.msgs| > 0 && |w'.msgs[|w'.msgs| - 1].data| < sh.MsgLen())
          && (w'.tinyOn && |w'.msgs| == |w.msgs| ==> w'.tiny == w.tiny))
  {
    hide Mul, Bytes, Cut;
    MsgLenPositive(sh);
    F.CutProperties(Bytes(w) + src[..Taken(sh, w, src)], sh.MsgLen());
  }

  // ---- Flushes and timers ----

  /** A flush makes the last message due at once, complete with the segments it has, and changes no other. */
  lemma {:induction false} FlushMakesDue(sh: Shape, w: SendWnd, seg: nat, count: nat)
    requires Valid(sh, w) && |w.msgs| > 0
    ensures var w', i := Flush(sh, w), |w.msgs| - 1;
      && Valid(sh, w') && |w'.msgs| == |w.msgs| && w'.base == w.base && w'.tiny == w.tiny && w'.tinyOn == w.tinyOn
      && (forall j :: 0 <= j < i ==> w'.msgs[j] == w.msgs[j])
      && w'.msgs[i].data == w.msgs[i].data && w'.msgs[i].cur == w.msgs[i].cur
      && (forall s: nat :: Has(w'.msgs[i].full, s) <==> s < Count(sh, w.msgs[i]))
      && (SegHdr(Wire(w.base + i), seg, count) in Due(sh, w', -1, 0) <==>
          count == Count(sh, w.msgs[i]) && seg < count && !Has(w.msgs[i].cur, seg))
  {
    hide Mul, Quo, Has, Due, Rem, Mask;
    FlushValid(sh, w);
    var n := Count(sh, w.msgs[|w.msgs| - 1]);
    SegCountBounds(|w.msgs[|w.msgs| - 1].data|, sh);
    MaskIsVec(n);
    forall s: nat ensures Has(Mask(n), s) <==> s < n { HasMask(n, s); }
    DueIff(sh, Flush(sh, w), |w.msgs| - 1, seg, count);
  }

  // ---- Time ----

  /** The tinygram timer has run out after a time t. */
  predicate TinyOver(w: SendWnd, t: nat) {
    w.tinyOn && w.tiny <= t
  }

  /** Message j after a time t: its timer has run down, or it was flushed, being the last when the tinygram timer ran out. */
  function AgedMessage(sh: Shape, w: SendWnd, j: nat, t: nat): (m: Message)
    requires Valid(sh, w) && j < |w.msgs|
  {
    var m := w.msgs[j];
    SegCountBounds(|m.data|, sh);
    MaskIsVec(Count(sh, m));
    if TinyOver(w, t) && j == |w.msgs| - 1 then m.(full := Mask(Count(sh, m)), rtx := 0)
    else m.(rtx := Max(0, m.rtx - t))
  }

  /** The window after a time t in which nothing is acknowledged, sent or announced. */
  function Aged(sh: Shape, w: SendWnd, t: nat): (r: SendWnd)
    requires Valid(sh, w)
    ensures |r.msgs| == |w.msgs| && r.base == w.base
    ensures forall j :: 0 <= j < |w.msgs| ==> r.msgs[j] == AgedMessage(sh, w, j, t)
  {
    w.(msgs := seq(|w.msgs|, j requires 0 <= j < |w.msgs| => AgedMessage(sh, w, j, t)),
       tiny := if w.tinyOn then Max(0, w.tiny - t) else w.tiny, tinyOn := w.tinyOn && !TinyOver(w, t))
  }

  lemma {:induction false} AgedValid(sh: Shape, w: SendWnd, t: nat)
    requires Valid(sh, w)
    ensures Valid(sh, Aged(sh, w, t))
  {
    hide Mul, Quo;
  }

  /** What the timers of a poll do is to let its time pass. */
  lemma {:induction false} TimersAge(sh: Shape, w: SendWnd, dt: Time)
    requires Valid(sh, w)
    ensures Timers(sh, w, dt) == Aged(sh, w, dt)
  {
    hide Mul, Quo, Mask;
    var r := Timers(sh, w, dt);
    StepValid(sh, w, dt);
    assert r.msgs == Aged(sh, w, dt).msgs;
  }

  /** Times add up. */
  lemma {:induction false} AgedAdds(sh: Shape, w: SendWnd, t: nat, u: nat)
    requires Valid(sh, w)
    ensures Valid(sh, Aged(sh, w, t)) && Aged(sh, Aged(sh, w, t), u) == Aged(sh, w, t + u)
  {
    AgedValid(sh, w, t);
    hide Mul, Quo, Mask;
    assert Aged(sh, Aged(sh, w, t), u).msgs == Aged(sh, w, t + u).msgs;
  }

  /** Every message has a vector that counts its segments, or is the last, to be flushed before its timer runs out. */
  ghost predicate Waits(sh: Shape, w: SendWnd) {
    && Valid(sh, w)
    && forall j :: 0 <= j < |w.msgs| ==>
        || Counted(sh, w.msgs[j])
        || (j == |w.msgs| - 1 && w.tinyOn && w.tiny <= w.msgs[j].rtx && Within(w.msgs[j].cur, Count(sh, w.msgs[j])))
  }

  lemma {:induction false} AgedWaits(sh: Shape, w: SendWnd, t: nat)
    requires Waits(sh, w)
    ensures Waits(sh, Aged(sh, w, t))
    ensures Aged(sh, w, t).tinyOn ==> Aged(sh, w, t).tiny > 0
    ensures Ready(sh, Aged(sh, w, t))
  {
    AgedValid(sh, w, t);
    hide Mul, Quo, Mask, Within;
    forall j | 0 <= j < |w.msgs| ensures Count(sh, w.msgs[j]) <= 16 { SegCountBounds(|w.msgs[j].data|, sh); }
  }

  /** hs are the headers of consecutive polls with the times dts, to which no acknowledgement comes. */
  ghost predicate TimedPolls(sh: Shape, w: SendWnd, p: Ptr, rto: Time, dts: seq<Time>, hs: seq<SegHdr>)
    decreases |dts|
  {
    && |hs| == |dts|
    && (dts == [] ||
        (Valid(sh, w) && PtrOk(p) && var (w', p', h) := Poll(sh, w, p, NoAck, dts[0], rto, true);
         hs[0] == h && TimedPolls(sh, w', p', rto, dts[1..], hs[1..])))
  }

  /** A poll that cannot send a frame takes its acknowledgement and lets its time pass; the pointer waits. */
  lemma {:induction false} NoRoomWaits(sh: Shape, w: SendWnd, p: Ptr, ack: AckHdr, dt: Time, rto: Time)
    requires Valid(sh, w) && PtrOk(p)
    ensures Valid(sh, AckStep(w, ack)) && Poll(sh, w, p, ack, dt, rto, false) == (Aged(sh, AckStep(w, ack), dt), p, NoSeg)
  {
    AckValid(sh, w, ack);
    TimersAge(sh, AckStep(w, ack), dt);
    hide Valid, Timers, Aged, Ack;
  }

  /** With the pointer at rest, a poll lets its time pass and announces the first header due. */
  lemma {:induction false} RestingPoll(sh: Shape, w: SendWnd, p: Ptr, dt: Time, rto: Time)
    requires Waits(sh, w) && PtrOk(p) && !p.valid && rto > 0
    ensures var (w', p', h) := Poll(sh, w, p, NoAck, dt, rto, true); var due := Due(sh, Aged(sh, w, dt), -1, 0);
      && h == (if due == [] then NoSeg else due[0])
      && (h == NoSeg ==> due == [] && w' == Aged(sh, w, dt) && p' == p)
  {
    hide Valid, Due, Poll, Aged;
    AgedWaits(sh, w, dt);
    var v := Aged(sh, w, dt);
    PollIsEmit(sh, w, p, dt, rto);
    EmitTakesHead(sh, v, p, rto);
    Emit0(sh, v, p, rto);
  }

  lemma {:induction false} PollIsEmit(sh: Shape, w: SendWnd, p: Ptr, dt: Time, rto: Time)
    requires Valid(sh, w) && PtrOk(p)
    ensures Poll(sh, w, p, NoAck, dt, rto, true) == Emit(sh, Aged(sh, w, dt), p, rto)
  {
    TimersAge(sh, w, dt);
    hide Valid, Timers, Aged, Emit;
  }

  lemma {:induction false} Emit0(sh: Shape, w: SendWnd, p: Ptr, rto: Time)
    requires Valid(sh, w) && PtrOk(p) && !p.valid
    ensures var (w', p', h) := Emit(sh, w, p, rto); w' == w && (h == NoSeg ==> p' == p)
  {
  }

  /**
   * With the pointer at rest and no acknowledgements, polls announce nothing until their times add
   * up to what some message waited for; that poll announces the first header that is due by then.
   */
  lemma {:induction false} AnnouncesWhenDue(sh: Shape, w: SendWnd, p: Ptr, rto: Time,
                                            dts: seq<Time>, hs: seq<SegHdr>, i: nat)
    requires Waits(sh, w) && PtrOk(p) && !p.valid && rto > 0
    requires TimedPolls(sh, w, p, rto, dts, hs) && i < |dts| && forall k :: 0 <= k < i ==> hs[k] == NoSeg
    ensures hs[i] == var due := Due(sh, Aged(sh, w, Total(dts, i + 1)), -1, 0); if due == [] then NoSeg else due[0]
    decreases |dts|
  {
    hide Valid, Due, Poll, Aged, Waits;
    RestingPoll(sh, w, p, dts[0], rto);
    WaitsValid(sh, w);
    TotalTail(dts, 0);
    if i > 0 {
      AgedWaits(sh, w, dts[0]);
      AnnouncesWhenDue(sh, Aged(sh, w, dts[0]), p, rto, dts[1..], hs[1..], i - 1);
      AgedAdds(sh, w, dts[0], Total(dts[1..], i));
      TotalTail(dts, i);
    }
  }

  lemma {:induction false} WaitsValid(sh: Shape, w: SendWnd)
    requires Waits(sh, w)
    ensures Valid(sh, w)
  {
  }

  // ---- The retransmission timer ----

  lemma {:induction false} NoneClear(v: Vec, k: nat, n: nat)
    requires k <= 16
    ensures FirstClear(v, k) >= n <==> forall seg: nat :: k <= seg < n ==> Has(v, seg)
  {
    var i := FirstClear(v, k);
    if i < n { assert !Has(v, i); }
  }

  /**
   * The timer of the pointer's message restarts exactly when no segment of it behind the pointer is
   * missing; no other timer changes.
   */
  lemma {:induction false} EmitTimers(sh: Shape, w: SendWnd, p: Ptr, rto: Time)
    requires Ready(sh, w) && PtrReady(sh, w, p)
    ensures var w' := Emit(sh, w, p, rto).0;
      if !p.valid then w' == w
      else
        var j := Ahead(p.sn, w.base); var m := w.msgs[j];
        var finished := forall seg: nat :: p.seg + 1 <= seg < Count(sh, m) ==> Has(m.cur, seg);
        w' == if finished then w.(msgs := w.msgs[j := m.(rtx := rto)]) else w
  {
    hide Missing, Headers, Rem, Quo, Mask, Has, Flatten, Mul, Scan, Count;
    if p.valid {
      var j := Ahead(p.sn, w.base);
      PlaceOfPtr(sh, w, p.sn);
      assert Counted(sh, w.msgs[j]);
      NextMissing(w.msgs[j], Count(sh, w.msgs[j]), p.seg + 1);
      NoneClear(w.msgs[j].cur, p.seg + 1, Count(sh, w.msgs[j]));
    }
  }

  /** Wherever the pointer comes to be, it is on a due segment. */
  lemma {:induction false} EmitLands(sh: Shape, w: SendWnd, p: Ptr, rto: Time)
    requires Ready(sh, w) && PtrReady(sh, w, p) && rto > 0
    ensures var p' := Emit(sh, w, p, rto).1;
      p'.valid ==> Ahead(p'.sn, w.base) < |w.msgs| && DueSegment(sh, w, Ahead(p'.sn, w.base), p'.seg)
  {
    hide Missing, Headers, Rem, Quo, Mask, Has, Flatten, Mul, MessageHeaders, Count;
    if p.valid {
      var j := Ahead(p.sn, w.base);
      PlaceOfPtr(sh, w, p.sn);
      assert Counted(sh, w.msgs[j]);
      NextMissing(w.msgs[j], Count(sh, w.msgs[j]), p.seg + 1);
    }
    var q := if p.valid then p.(seg := FirstClear(AtSlot(sh, w, p.sn).cur, p.seg + 1)) else p;
    var k := Scan(w, q, 0);
    if k < |w.msgs| {
      assert Counted(sh, w.msgs[k]);
      CountedEligible(sh, w, k);
      NextMissing(w.msgs[k], Count(sh, w.msgs[k]), 0);
      AheadOf(w.base, k);
    }
  }

  /** Message j is due and misses a segment, or the pointer is on it. */
  ghost predicate Owed(sh: Shape, w: SendWnd, p: Ptr, j: nat)
    requires sh.segLen > 0 && j < |w.msgs| && w.base < SEQS && p.sn < SEQS
  {
    (p.valid && j == Ahead(p.sn, w.base)) || exists seg: nat :: DueSegment(sh, w, j, seg)
  }

  /** Message j once all that is owed has been announced: its timer runs anew if it was part of that. */
  ghost function Settled(sh: Shape, w: SendWnd, p: Ptr, rto: Time, j: nat): Message
    requires sh.segLen > 0 && j < |w.msgs| && w.base < SEQS && p.sn < SEQS
  {
    if w.msgs[j].rtx == 0 && Owed(sh, w, p, j) then w.msgs[j].(rtx := rto) else w.msgs[j]
  }

  lemma {:induction false} SameDue(sh: Shape, w: SendWnd, w': SendWnd, j: nat)
    requires sh.segLen > 0 && j < |w.msgs| && j < |w'.msgs| && w'.msgs[j] == w.msgs[j]
    ensures forall seg: nat :: DueSegment(sh, w', j, seg) <==> DueSegment(sh, w, j, seg)
  {
  }

  lemma {:induction false} EmitSizes(sh: Shape, w: SendWnd, p: Ptr, rto: Time)
    requires Valid(sh, w) && PtrOk(p)
    ensures var (w', p', h) := Emit(sh, w, p, rto);
      sh.segLen > 0 && w'.base == w.base < SEQS && |w'.msgs| == |w.msgs| && p.sn < SEQS && p'.sn < SEQS
  {
    hide PtrNext;
  }

  /** What an emission announces does not change how things settle. */
  lemma {:induction false} EmitSettles(sh: Shape, w: SendWnd, p: Ptr, rto: Time, j: nat)
    requires Ready(sh, w) && PtrReady(sh, w, p) && rto > 0 && j < |w.msgs|
    ensures var (w', p', h) := Emit(sh, w, p, rto);
      && w'.base == w.base < SEQS && |w'.msgs| == |w.msgs| && p'.sn < SEQS
      && Settled(sh, w', p', rto, j) == Settled(sh, w, p, rto, j)
  {
    hide Quo, Has, Mul, Count, Emit, Ready;
    ReadyValid(sh, w, p);
    EmitSizes(sh, w, p, rto);
    EmitTimers(sh, w, p, rto);
    EmitLands(sh, w, p, rto);
    EmitTakesHead(sh, w, p, rto);
    var (w', p', h) := Emit(sh, w, p, rto);
    var m := w.msgs[j];
    if p.valid && j == Ahead(p.sn, w.base) && w' == w && exists seg: nat :: p.seg + 1 <= seg < Count(sh, m) && !Has(m.cur, seg) {
      var seg: nat :| p.seg + 1 <= seg < Count(sh, m) && !Has(m.cur, seg);
      assert DueSegment(sh, w, j, seg);
    }
    if p'.valid && j == Ahead(p'.sn, w.base) { assert DueSegment(sh, w, j, p'.seg); }
    if w'.msgs[j] == w.msgs[j] { SameDue(sh, w, w', j); }
  }

  /** n polls without time and acknowledgements lead from w and p to w' and p'. */
  ghost predicate PollsTo(sh: Shape, w: SendWnd, p: Ptr, rto: Time, n: nat, w': SendWnd, p': Ptr)
    decreases n
  {
    if n == 0 then w' == w && p' == p
    else Valid(sh, w) && PtrOk(p) && var (v, q, _) := Quiet(sh, w, p, rto); PollsTo(sh, v, q, rto, n - 1, w', p')
  }

  lemma {:induction false} NothingOwed(sh: Shape, w: SendWnd, p: Ptr, j: nat)
    requires Valid(sh, w) && PtrOk(p) && !p.valid && Left(sh, w, p) == [] && j < |w.msgs|
    ensures !Owed(sh, w, p, j)
  {
    hide Due, DueSegment, Count, Mul, Wire;
    forall seg: nat ensures !DueSegment(sh, w, j, seg) {
      DueIff(sh, w, j, seg, Count(sh, w.msgs[j]));
    }
  }

  lemma {:induction false} RestsAtNoSeg(sh: Shape, w: SendWnd, p: Ptr, rto: Time)
    requires sh.Valid() && PtrOk(p) && w.base < SEQS
    ensures Emit(sh, w, p, rto).2 == NoSeg ==> !Emit(sh, w, p, rto).1.valid
  {
    hide PtrNext;
  }

  /**
   * After a burst in which all that was due was announced, the pointer is at rest, the timers of
   * exactly the messages that were due with a segment missing run anew, and nothing else changed.
   */
  lemma {:induction false} BurstRestarts(sh: Shape, w: SendWnd, p: Ptr, rto: Time, n: nat, w': SendWnd, p': Ptr)
    requires Ready(sh, w) && PtrReady(sh, w, p) && rto > 0 && !(w.tinyOn && w.tiny == 0)
    requires PollsTo(sh, w, p, rto, n, w', p') && n > |Left(sh, w, p)|
    ensures !p'.valid && |w'.msgs| == |w.msgs| && w'.base == w.base
    ensures forall j :: 0 <= j < |w.msgs| ==> w'.msgs[j] == Settled(sh, w, p, rto, j)
    decreases n
  {
    hide Valid, Ready, PtrReady, Quiet, Emit, Left, Owed;
    ReadyValid(sh, w, p);
    QuietIsEmit(sh, w, p, rto);
    EmitSizes(sh, w, p, rto);
    EmitTakesHead(sh, w, p, rto);
    var (v, q, h) := Quiet(sh, w, p, rto);
    ReadyValid(sh, v, q);
    forall j | 0 <= j < |w.msgs|
      ensures Settled(sh, v, q, rto, j) == Settled(sh, w, p, rto, j)
    {
      EmitSettles(sh, w, p, rto, j);
    }
    if n > 1 {
      BurstRestarts(sh, v, q, rto, n - 1, w', p');
    } else {
      RestsAtNoSeg(sh, w, p, rto);
      forall j | 0 <= j < |v.msgs| ensures v.msgs[j] == Settled(sh, v, q, rto, j) { NothingOwed(sh, v, q, j); }
    }
  }

  // ---- Answers ----

  /** What is due after an acknowledgement that leaves something out, and a time dt. */
  lemma {:induction false} NakStaysDue(sh: Shape, w: SendWnd, sn: nat, vec: Vec, t: nat, seg: nat, count: nat)
    requires Valid(sh, w) && sn < SEQS && Acceptable(w, sn) && vec != w.msgs[sn - w.base].full
    ensures Valid(sh, Ack(w, sn, vec))
    ensures SegHdr(sn, seg, count) in Due(sh, Aged(sh, Ack(w, sn, vec), t), -1, 0) <==>
      count == Count(sh, w.msgs[sn - w.base]) && seg < count && !Has(vec, seg)
  {
    hide Mul, Quo, Has, Due, Done, Rem, Mask;
    AckValid(sh, w, AckHdr(sn, vec));
    AckTimers(w, sn, vec);
    var w', n := Ack(w, sn, vec), Freed(w, sn, vec);
    var j := sn - w.base - n;
    RemAdd(w.base + n, j, SEQS);
    WireSmall(sn);
    AgedValid(sh, w', t);
    DueIff(sh, Aged(sh, w', t), j, seg, count);
  }

  /**
   * With the pointer at rest, the poll that takes such an acknowledgement announces a segment at once,
   * the first one that the vector does not mark if no message before it is due.
   */
  lemma {:induction false} NakIsAnswered(sh: Shape, w: SendWnd, p: Ptr, sn: nat, vec: Vec, dt: Time, rto: Time)
    requires Valid(sh, w) && sn < SEQS && Acceptable(w, sn) && vec != w.msgs[sn - w.base].full
    requires Waits(sh, Ack(w, sn, vec)) && PtrOk(p) && !p.valid && rto > 0
    requires exists seg: nat :: seg < Count(sh, w.msgs[sn - w.base]) && !Has(vec, seg)
    ensures var h, n := Poll(sh, w, p, AckHdr(sn, vec), dt, rto, true).2, Freed(w, sn, vec);
      && n <= sn - w.base
      && h.SegHdr? && h in Due(sh, Aged(sh, Ack(w, sn, vec), dt), -1, 0)
      && ((forall i :: 0 <= i < sn - w.base - n ==> AgedMessage(sh, Ack(w, sn, vec), i, dt).rtx > 0) ==>
          h == SegHdr(sn, FirstClear(vec, 0), Count(sh, w.msgs[sn - w.base])))
  {
    hide Mul, Quo, Has, Due, Done, Rem, Mask, Poll, Emit, Timers, FirstClear, Acked, Counted, Within;
    var w', c := Ack(w, sn, vec), Count(sh, w.msgs[sn - w.base]);
    AckValid(sh, w, AckHdr(sn, vec));
    AckTimers(w, sn, vec);
    PollTakesAck(sh, w, p, AckHdr(sn, vec), dt, rto);
    RestingPoll(sh, w', p, dt, rto);
    var seg: nat :| seg < c && !Has(vec, seg);
    NakStaysDue(sh, w, sn, vec, dt, seg, c);
    var v, j := Aged(sh, w', dt), sn - w.base - Freed(w, sn, vec);
    AgedWaits(sh, w', dt);
    if forall i :: 0 <= i < j ==> AgedMessage(sh, w', i, dt).rtx > 0 {
      NoneBefore(sh, v, 0, j);
      RemAdd(w.base + Freed(w, sn, vec), j, SEQS);
      WireSmall(sn);
      FirstOfMessage(sh, v, j, seg);
    }
  }

  lemma {:induction false} PollTakesAck(sh: Shape, w: SendWnd, p: Ptr, ack: AckHdr, dt: Time, rto: Time)
    requires Valid(sh, w) && PtrOk(p)
    ensures Valid(sh, AckStep(w, ack))
    ensures Poll(sh, w, p, ack, dt, rto, true) == Poll(sh, AckStep(w, ack), p, NoAck, dt, rto, true)
  {
    hide Valid, Timers, Emit, Ack;
    AckValid(sh, w, ack);
  }

  lemma {:induction false} NoneBefore(sh: Shape, w: SendWnd, i: nat, j: nat)
    requires sh.segLen > 0 && i <= j <= |w.msgs| && forall k :: i <= k < j ==> w.msgs[k].rtx > 0
    ensures Due(sh, w, -1, i) == Due(sh, w, -1, j)
    decreases j - i
  {
    hide MessageHeaders;
    if i < j { NoneBefore(sh, w, i + 1, j); }
  }

  /** The headers due from a message on start with its first missing segment. */
  lemma {:induction false} FirstOfMessage(sh: Shape, w: SendWnd, j: nat, seg: nat)
    requires Ready(sh, w) && j < |w.msgs| && DueSegment(sh, w, j, seg)
    ensures var due := Due(sh, w, -1, j);
      due != [] && due[0] == SegHdr(Wire(w.base + j), FirstClear(w.msgs[j].cur, 0), Count(sh, w.msgs[j]))
  {
    hide Missing, Headers, Rem, Quo, Mask, Has, Mul, MessageHeaders;
    assert Counted(sh, w.msgs[j]);
    MessageNext(sh, w, j, 0);
    NextMissing(w.msgs[j], Count(sh, w.msgs[j]), 0);
    NoneClear(w.msgs[j].cur, 0, Count(sh, w.msgs[j]));
  }

  /** A window of one message just begun, none of which is acknowledged. */
  ghost predicate One(sh: Shape, w: SendWnd, src: seq<Byte>) {
    && sh.Valid() && 0 < |src| < sh.MsgLen() && w.base < SEQS && w.tinyOn && sh.FullVec() < 0x1_0000
    && w.msgs == [Message(src, 0, sh.FullVec(), w.tiny)]
  }

  lemma {:induction false} OneWaits(sh: Shape, w: SendWnd, src: seq<Byte>)
    requires One(sh, w, src)
    ensures Waits(sh, w)
  {
    hide Mul, Quo, Mask;
    forall seg: nat ensures !Has(0, seg) { HasZero(seg); }
  }

  lemma {:induction false} OneDue(sh: Shape, w: SendWnd, src: seq<Byte>, t: nat)
    requires One(sh, w, src) && Waits(sh, w)
    ensures var due := Due(sh, Aged(sh, w, t), -1, 0);
      if w.tiny <= t then due != [] && due[0] == SegHdr(w.base, 0, SegCount(|src|, sh.segLen)) else due == []
  {
    hide Mul, Quo, Mask, MessageHeaders;
    var v := Aged(sh, w, t);
    if w.tiny <= t {
      AgedWaits(sh, w, t);
      HasZero(0);
      WireSmall(w.base);
      SegCountBounds(|src|, sh);
      FirstOfMessage(sh, v, 0, 0);
    }
  }

  /**
   * A message shorter than the full length, accepted into an empty window: polls announce nothing
   * until their times add up to the tinygram delay, and that poll announces its first segment, with
   * the number of segments it has.
   */
  lemma {:induction false} TinygramWaits(sh: Shape, w: SendWnd, src: seq<Byte>, delay: Time, p: Ptr, rto: Time,
                                         dts: seq<Time>, hs: seq<SegHdr>, i: nat)
    requires Valid(sh, w) && w.msgs == [] && 0 < |src| < sh.MsgLen() && PtrOk(p) && !p.valid && rto > 0
    requires TimedPolls(sh, Send(sh, w, src, delay), p, rto, dts, hs)
    requires i < |dts| && (i > 0 ==> Total(dts, i) < delay)
    ensures hs[i] == if delay <= Total(dts, i + 1) then SegHdr(w.base, 0, SegCount(|src|, sh.segLen)) else NoSeg
    decreases i
  {
    hide Send, Due, Poll, Aged, Waits, Mul, Quo, Valid;
    SendsOne(sh, w, src, delay);
    var w' := Send(sh, w, src, delay);
    OneWaits(sh, w', src);
    forall k | 0 <= k < i ensures hs[k] == NoSeg {
      TotalGrows(dts, k, i);
      TotalGrows(dts, k + 1, i);
      TinygramWaits(sh, w, src, delay, p, rto, dts, hs, k);
    }
    AnnouncesWhenDue(sh, w', p, rto, dts, hs, i);
    OneDue(sh, w', src, Total(dts, i + 1));
  }

  lemma {:induction false} SendsOne(sh: Shape, w: SendWnd, src: seq<Byte>, delay: Time)
    requires Valid(sh, w) && w.msgs == [] && 0 < |src| < sh.MsgLen()
    ensures var w' := Send(sh, w, src, delay); One(sh, w', src) && w'.base == w.base && w'.tiny == delay
  {
    hide Mul, Quo, Mask;
    MulOrder(0, sh.cap, sh.MsgLen());
    MaskIsVec(sh.segs);
    assert Bytes(w) == [] && src[..|src|] == src && [] + src == src;
    assert Taken(sh, w, src) == |src|;
    assert Cut(src, sh.MsgLen()) == [src];
  }
}
