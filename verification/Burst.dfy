/**
 * What a burst of send polls puts on the wire: exactly the segments that are missing from messages
 * whose timer has run out, each once, in order.
 */
module Burst {
  import opened Arith
  import opened AckVec
  import opened SeqNum
  import opened Messages
  import opened SendWindow

  /** The segments from k up to n that v does not mark, in order. */
  function Missing(v: nat, n: nat, k: nat): seq<nat>
    decreases n - k
  {
    if k >= n then [] else (if Has(v, k) then [] else [k]) + Missing(v, n, k + 1)
  }

  function Count(sh: Shape, m: Message): nat
    requires sh.segLen > 0
  {
    SegCount(|m.data|, sh.segLen)
  }

  function Headers(segs: seq<nat>, sn: nat, count: nat): (hs: seq<SegHdr>)
    ensures |hs| == |segs|
  {
    if segs == [] then [] else [SegHdr(sn, segs[0], count)] + Headers(segs[1..], sn, count)
  }

  /** The headers of message j's missing segments from segment k on. */
  function MessageHeaders(sh: Shape, w: SendWnd, j: nat, k: nat): seq<SegHdr>
    requires sh.segLen > 0 && j < |w.msgs|
  {
    var m := w.msgs[j];
    Headers(Missing(m.cur, Count(sh, m), k), Wire(w.base + j), Count(sh, m))
  }

  /** The headers due from place j on, leaving out the message at place `skip`. */
  function Due(sh: Shape, w: SendWnd, skip: int, j: nat): seq<SegHdr>
    requires sh.segLen > 0 && j <= |w.msgs|
    decreases |w.msgs| - j
  {
    if j == |w.msgs| then []
    else (if j != skip && w.msgs[j].rtx == 0 then MessageHeaders(sh, w, j, 0) else []) + Due(sh, w, skip, j + 1)
  }

  /** Every message whose timer has run out is complete or flushed, so that its vector counts its segments. */
  ghost predicate Ready(sh: Shape, w: SendWnd) {
    && Valid(sh, w)
    && forall j :: 0 <= j < |w.msgs| && w.msgs[j].rtx == 0 ==> Counted(sh, w.msgs[j])
  }

  ghost predicate Counted(sh: Shape, m: Message)
    requires sh.segLen > 0
  {
    Count(sh, m) <= 16 && m.full == Mask(Count(sh, m)) && Within(m.cur, Count(sh, m))
  }

  // ---- Inside one message ----

  /** The pointer's jump to the next clear bit steps through the missing segments. */
  lemma {:induction false} NextMissing(m: Message, n: nat, k: nat)
    requires n <= 16 && k <= 16 && m.full == Mask(n)
    ensures var i := FirstClear(m.cur, k);
      && (Mask(i) < m.full <==> i < n)
      && Missing(m.cur, n, k) == if i < n then [i] + Missing(m.cur, n, i + 1) else []
    decreases 16 - k
  {
    var i := FirstClear(m.cur, k);
    MaskOrder(i, n);
    if Has(m.cur, k) {
      VecWithin(m.cur);
      NextMissing(m, n, k + 1);
    }
  }

  lemma {:induction false} MessageNext(sh: Shape, w: SendWnd, j: nat, k: nat)
    requires sh.segLen > 0 && j < |w.msgs| && k <= 16 && Counted(sh, w.msgs[j])
    ensures var m := w.msgs[j]; var i := FirstClear(m.cur, k);
      MessageHeaders(sh, w, j, k) ==
        if Mask(i) < m.full then [SegHdr(Wire(w.base + j), i, Count(sh, m))] + MessageHeaders(sh, w, j, i + 1) else []
  {
    var m := w.msgs[j];
    var n, i := Count(sh, m), FirstClear(m.cur, k);
    NextMissing(m, n, k);
    if i < n {
      assert ([i] + Missing(m.cur, n, i + 1))[1..] == Missing(m.cur, n, i + 1);
    }
  }

  /** A counted message passes the pointer's numeric test exactly when it misses a segment. */
  lemma {:induction false} CountedEligible(sh: Shape, w: SendWnd, j: nat)
    requires Ready(sh, w) && j < |w.msgs| && w.msgs[j].rtx == 0
    ensures w.msgs[j].cur < w.msgs[j].full <==> MessageHeaders(sh, w, j, 0) != []
    ensures w.msgs[j].cur < w.msgs[j].full <==> Mask(FirstClear(w.msgs[j].cur, 0)) < w.msgs[j].full
  {
    var m := w.msgs[j];
    var n, i := Count(sh, m), FirstClear(m.cur, 0);
    assert Counted(sh, m);
    MessageNext(sh, w, j, 0);
    LessThanMask(m.cur, n);
    MaskOrder(i, n);
    if i >= n {
      assert Full(m.cur, n);
    } else {
      assert !Full(m.cur, n);
    }
  }

  // ---- Across messages ----

  const INVALID := Ptr(0, 0, false)

  lemma {:induction false} ScanDue(sh: Shape, w: SendWnd, j: nat)
    requires Ready(sh, w) && j <= |w.msgs|
    ensures var k := Scan(w, INVALID, j);
      && (k == |w.msgs| ==> Due(sh, w, -1, j) == [])
      && (k < |w.msgs| ==>
          && Due(sh, w, -1, j) == MessageHeaders(sh, w, k, 0) + Due(sh, w, -1, k + 1)
          && Due(sh, w, k, j) == Due(sh, w, -1, k + 1))
    decreases |w.msgs| - j
  {
    hide Missing, Headers, Rem, Quo, Mask, FirstClear, Has, MessageHeaders, Flatten, Mul;
    if j < |w.msgs| {
      if Eligible(w, INVALID, j) {
        DueSkipsBehind(sh, w, j, j + 1);
      } else {
        if w.msgs[j].rtx == 0 { CountedEligible(sh, w, j); }
        ScanDue(sh, w, j + 1);
      }
    }
  }

  lemma {:induction false} DueSkipsBehind(sh: Shape, w: SendWnd, skip: nat, j: nat)
    requires sh.segLen > 0 && skip < j <= |w.msgs|
    ensures Due(sh, w, skip, j) == Due(sh, w, -1, j)
    decreases |w.msgs| - j
  {
    hide Missing, Headers, Rem, Quo, Has, MessageHeaders;
    if j < |w.msgs| { DueSkipsBehind(sh, w, skip, j + 1); }
  }

  /** Once the timer of message k runs again, what is due is what was due without it. */
  lemma {:induction false} RestartedDue(sh: Shape, w: SendWnd, k: nat, rto: Time, j: nat)
    requires sh.segLen > 0 && k < |w.msgs| && j <= |w.msgs| && rto > 0
    ensures var w' := w.(msgs := w.msgs[k := w.msgs[k].(rtx := rto)]);
      Due(sh, w', -1, j) == Due(sh, w, k, j)
    decreases |w.msgs| - j
  {
    hide Missing, Headers, Rem, Quo;
    if j < |w.msgs| {
      RestartedDue(sh, w, k, rto, j + 1);
      var w' := w.(msgs := w.msgs[k := w.msgs[k].(rtx := rto)]);
      assert MessageHeaders(sh, w', j, 0) == MessageHeaders(sh, w, j, 0);
    }
  }

  // ---- The pointer ----

  /** The pointer is on a message of the window whose timer has run out, or nowhere. */
  ghost predicate PtrReady(sh: Shape, w: SendWnd, p: Ptr)
    requires sh.Valid() && w.base < SEQS
  {
    && PtrOk(p)
    && (p.valid ==> Ahead(p.sn, w.base) < |w.msgs| && w.msgs[Ahead(p.sn, w.base)].rtx == 0)
  }

  /** The headers still to be sent before the pointer comes to rest. */
  function Left(sh: Shape, w: SendWnd, p: Ptr): seq<SegHdr>
    requires Valid(sh, w) && PtrOk(p)
    requires p.valid ==> Ahead(p.sn, w.base) < |w.msgs|
  {
    if p.valid then
      var j := Ahead(p.sn, w.base);
      MessageHeaders(sh, w, j, p.seg + 1) + Due(sh, w, j, 0)
    else
      Due(sh, w, -1, 0)
  }

  lemma {:induction false} PlaceOfPtr(sh: Shape, w: SendWnd, sn: nat)
    requires Valid(sh, w) && sn < SEQS && Ahead(sn, w.base) < |w.msgs|
    ensures Rel(sh, w, sn) == Ahead(sn, w.base)
    ensures Wire(w.base + Ahead(sn, w.base)) == sn
  {
    AheadBack(sn, w.base);
  }

  /** Landing on the first eligible message takes the first due header. */
  lemma {:induction false} Landed(sh: Shape, w: SendWnd, p: Ptr)
    requires Ready(sh, w) && p.sn < SEQS
    requires forall j :: 0 <= j < |w.msgs| ==> (Eligible(w, p, j) <==> Eligible(w, INVALID, j))
    ensures var p' := PtrScan(w, p); var due := Due(sh, w, -1, 0);
      && PtrReady(sh, w, p')
      && (p'.valid <==> due != [])
      && (p'.valid ==> Rel(sh, w, p'.sn) < |w.msgs| && due == [SegHdr(p'.sn, p'.seg, Count(sh, AtSlot(sh, w, p'.sn)))] + Left(sh, w, p'))
      && (!p'.valid ==> Left(sh, w, p') == [])
  {
    hide Missing, Headers, Rem, Quo, Mask, FirstClear, Has, MessageHeaders, Flatten, Mul, Due;
    ScanSame(w, p, INVALID, 0);
    ScanDue(sh, w, 0);
    var k := Scan(w, INVALID, 0);
    if k < |w.msgs| {
      CountedEligible(sh, w, k);
      MessageNext(sh, w, k, 0);
      AheadOf(w.base, k);
      PlaceOfPtr(sh, w, Wire(w.base + k));
    }
  }

  lemma {:induction false} ScanSame(w: SendWnd, p: Ptr, q: Ptr, j: nat)
    requires j <= |w.msgs|
    requires forall i :: 0 <= i < |w.msgs| ==> (Eligible(w, p, i) <==> Eligible(w, q, i))
    ensures Scan(w, p, j) == Scan(w, q, j)
    decreases |w.msgs| - j
  {
    if j < |w.msgs| && !Eligible(w, p, j) { ScanSame(w, p, q, j + 1); }
  }

  /** The pointer stays inside its message. */
  lemma {:induction false} InsideTakesHead(sh: Shape, w: SendWnd, p: Ptr)
    requires Ready(sh, w) && PtrReady(sh, w, p) && p.valid
    requires var m := AtSlot(sh, w, p.sn); Mask(FirstClear(m.cur, p.seg + 1)) < m.full
    ensures var m := AtSlot(sh, w, p.sn); var p' := p.(seg := FirstClear(m.cur, p.seg + 1));
      PtrReady(sh, w, p') && Left(sh, w, p) == [SegHdr(p.sn, p'.seg, Count(sh, m))] + Left(sh, w, p')
  {
    hide Missing, Headers, Rem, Quo, Mask, FirstClear, Has, MessageHeaders, Due, Flatten, Mul;
    var j := Ahead(p.sn, w.base);
    PlaceOfPtr(sh, w, p.sn);
    assert Counted(sh, w.msgs[j]);
    MessageNext(sh, w, j, p.seg + 1);
    InsideIsBelow16(FirstClear(w.msgs[j].cur, p.seg + 1), w.msgs[j].full);
  }

  /** The pointer leaves its message: its timer restarts, and what is left is what is due without it. */
  lemma {:induction false} OutsideRestarts(sh: Shape, w: SendWnd, p: Ptr, rto: Time)
    requires Ready(sh, w) && PtrReady(sh, w, p) && p.valid && rto > 0
    requires var m := AtSlot(sh, w, p.sn); !(Mask(FirstClear(m.cur, p.seg + 1)) < m.full)
    ensures var w' := Restart(sh, w, p.sn, rto);
      && Ready(sh, w') && Left(sh, w, p) == Due(sh, w', -1, 0)
      && |w'.msgs| == |w.msgs| && w'.base == w.base
      && (forall i :: 0 <= i < |w.msgs| ==> w.msgs[i].(rtx := 0) == w'.msgs[i].(rtx := 0))
      && (forall i, s :: 0 <= i < |w.msgs| ==> (Eligible(w, p.(seg := s), i) <==> Eligible(w', INVALID, i)))
      && (forall i, s :: 0 <= i < |w.msgs| ==> (Eligible(w', p.(seg := s), i) <==> Eligible(w', INVALID, i)))
  {
    hide Missing, Headers, Rem, Quo, Mask, FirstClear, Has, MessageHeaders, Due, Flatten, Mul;
    var j := Ahead(p.sn, w.base);
    PlaceOfPtr(sh, w, p.sn);
    assert Counted(sh, w.msgs[j]);
    MessageNext(sh, w, j, p.seg + 1);
    RestartedDue(sh, w, j, rto, 0);
    RestartReady(sh, w, j, rto);
    var w' := Restart(sh, w, p.sn, rto);
    forall i, s | 0 <= i < |w.msgs|
      ensures Eligible(w, p.(seg := s), i) <==> Eligible(w', INVALID, i)
      ensures Eligible(w', p.(seg := s), i) <==> Eligible(w', INVALID, i)
    {
      if Wire(w.base + i) == p.sn { WireSame(w.base + i, w.base + j); }
    }
  }

  /** Each emission takes the head of what is left; with nothing left, nothing is emitted. */
  lemma {:induction false} EmitTakesHead(sh: Shape, w: SendWnd, p: Ptr, rto: Time)
    requires Ready(sh, w) && PtrReady(sh, w, p) && rto > 0
    ensures var (w', p', h) := Emit(sh, w, p, rto);
      && Ready(sh, w') && PtrReady(sh, w', p')
      && w'.tiny == w.tiny && w'.tinyOn == w.tinyOn
      && Left(sh, w, p) == (if h == NoSeg then [] else [h] + Left(sh, w', p'))
      && (h == NoSeg ==> Left(sh, w', p') == [])
  {
    hide Missing, Headers, Rem, Quo, Mask, FirstClear, Has, MessageHeaders, Due, Scan, Flatten, Mul;
    var m := AtSlot(sh, w, p.sn);
    if !p.valid {
      Landed(sh, w, p);
    } else if Mask(FirstClear(m.cur, p.seg + 1)) < m.full {
      InsideTakesHead(sh, w, p);
    } else {
      var w', q := Restart(sh, w, p.sn, rto), p.(seg := FirstClear(m.cur, p.seg + 1));
      OutsideRestarts(sh, w, p, rto);
      ScanRestarted(w, w', q, 0);
      Landed(sh, w', q);
    }
  }

  lemma {:induction false} RestartReady(sh: Shape, w: SendWnd, j: nat, rto: Time)
    requires Ready(sh, w) && j < |w.msgs| && rto > 0
    ensures Ready(sh, w.(msgs := w.msgs[j := w.msgs[j].(rtx := rto)]))
  {
  }

  lemma {:induction false} ScanRestarted(w: SendWnd, w': SendWnd, p: Ptr, j: nat)
    requires |w.msgs| == |w'.msgs| && w.base == w'.base && j <= |w.msgs|
    requires forall i :: 0 <= i < |w.msgs| ==> w.msgs[i].(rtx := 0) == w'.msgs[i].(rtx := 0)
    requires forall i :: 0 <= i < |w.msgs| ==> (Eligible(w, p, i) <==> Eligible(w', p, i))
    ensures Scan(w, p, j) == Scan(w', p, j)
    decreases |w.msgs| - j
  {
    if j < |w.msgs| && !Eligible(w, p, j) { ScanRestarted(w, w', p, j + 1); }
  }

  // ---- Bursts ----

  /** No time passes and no acknowledgement comes in: one poll of a burst. */
  function Quiet(sh: Shape, w: SendWnd, p: Ptr, rto: Time): (r: (SendWnd, Ptr, SegHdr))
    requires Valid(sh, w) && PtrOk(p)
    ensures PtrOk(r.1)
  {
    Poll(sh, w, p, NoAck, 0, rto, true)
  }

  lemma {:induction false} QuietIsEmit(sh: Shape, w: SendWnd, p: Ptr, rto: Time)
    requires Valid(sh, w) && PtrOk(p) && !(w.tinyOn && w.tiny == 0)
    ensures Quiet(sh, w, p, rto) == Emit(sh, w, p, rto)
  {
    assert StepAll(w.msgs, 0) == w.msgs;
    assert Step(w, 0) == w;
  }

  /** hs are the headers of consecutive quiet polls that start in w with pointer p. */
  ghost predicate Polls(sh: Shape, w: SendWnd, p: Ptr, rto: Time, hs: seq<SegHdr>)
    decreases |hs|
  {
    hs == [] ||
    (Valid(sh, w) && PtrOk(p) && var (w', p', h) := Quiet(sh, w, p, rto); hs[0] == h && Polls(sh, w', p', rto, hs[1..]))
  }

  /** The first n headers of a list, with NoSeg after its end. */
  function Padded(hs: seq<SegHdr>, n: nat): (r: seq<SegHdr>)
    ensures |r| == n
  {
    seq(n, i => if 0 <= i < |hs| then hs[i] else NoSeg)
  }

  lemma {:induction false} PaddedHead(hs: seq<SegHdr>, rest: seq<SegHdr>, h: SegHdr, n: nat)
    requires n > 0
    requires if hs == [] then h == NoSeg && rest == [] else h == hs[0] && rest == hs[1..]
    ensures Padded(hs, n) == [h] + Padded(rest, n - 1)
  {
  }

  lemma {:induction false} ReadyValid(sh: Shape, w: SendWnd, p: Ptr)
    requires Ready(sh, w) && PtrReady(sh, w, p)
    ensures Valid(sh, w) && PtrOk(p)
    ensures p.valid ==> Ahead(p.sn, w.base) < |w.msgs|
  {
  }

  lemma {:induction false} PollsDrainLeft(sh: Shape, w: SendWnd, p: Ptr, rto: Time, hs: seq<SegHdr>)
    requires Ready(sh, w) && PtrReady(sh, w, p) && rto > 0 && !(w.tinyOn && w.tiny == 0)
    requires Polls(sh, w, p, rto, hs)
    ensures hs == Padded(Left(sh, w, p), |hs|)
    decreases |hs|
  {
    hide Ready, PtrReady, Left, Quiet, Emit, Valid;
    if hs != [] {
      ReadyValid(sh, w, p);
      QuietIsEmit(sh, w, p, rto);
      EmitTakesHead(sh, w, p, rto);
      var (w', p', h) := Quiet(sh, w, p, rto);
      ReadyValid(sh, w', p');
      PollsDrainLeft(sh, w', p', rto, hs[1..]);
      PaddedHead(Left(sh, w, p), Left(sh, w', p'), h, |hs|);
      assert hs == [h] + hs[1..];
    }
  }

  /**
   * From an invalid pointer, with no time passing, no acknowledgements, no tinygram about to be
   * flushed and a positive retransmission timeout, any number of polls emits exactly the missing
   * segments of the messages whose timer is zero, once each, in window order and segment order
   * within a message, and after them nothing.
   */
  lemma {:induction false} BurstEnumerates(sh: Shape, w: SendWnd, p: Ptr, rto: Time, hs: seq<SegHdr>)
    requires Ready(sh, w) && PtrOk(p) && !p.valid && rto > 0 && !(w.tinyOn && w.tiny == 0)
    requires Polls(sh, w, p, rto, hs)
    ensures hs == Padded(Due(sh, w, -1, 0), |hs|)
  {
    PollsDrainLeft(sh, w, p, rto, hs);
  }
}
