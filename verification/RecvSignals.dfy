/**
 * What an arrival stores, and which acknowledgements arrivals, silence and reading make due, for any
 * frames at all. Slots are named by the sequence numbers that select them, so that nothing here
 * depends on where the base is.
 */
module RecvSignals {
  import opened Arith
  import opened AckVec
  import opened SeqNum
  import opened Messages
  import opened RecvWindow
  import opened RecvAcks
  import L = SendLayout
  import S = SendWindow

  /** The slot that number q selects. */
  function SlotFor(sh: Shape, w: RecvWnd, q: nat): (s: Slot)
    requires sh.cap > 0 && |w.slots| == sh.cap && q < SEQS && w.base < SEQS
  {
    w.slots[Place(sh, w, q)]
  }

  /** Two numbers select one slot. */
  predicate Share(sh: Shape, q: nat, sn: nat)
    requires sh.cap > 0
  {
    SeqNum.Slot(q, sh.cap) == SeqNum.Slot(sn, sh.cap)
  }

  lemma {:induction false} PlaceSame(sh: Shape, w: RecvWnd, q: nat, sn: nat)
    requires sh.Valid() && w.base < SEQS && q < SEQS && sn < SEQS
    ensures Place(sh, w, q) == Place(sh, w, sn) <==> Share(sh, q, sn)
  {
    L.PlaceSlot(q, w.base, sh.cap);
    L.PlaceSlot(sn, w.base, sh.cap);
    L.SlotsDiffer(w.base, sh.cap);
  }

  /** Making room moves no slot to another number. */
  lemma {:induction false} ReachSlot(sh: Shape, w: RecvWnd, sn: nat, q: nat)
    requires Valid(sh, w) && sn < SEQS && q < SEQS && !OutOfReach(sh, w, sn)
    ensures SlotFor(sh, Reach(sh, w, sn), q) == SlotFor(sh, w, q)
  {
    hide Rem, Mul, Wire;
    if NewSize(w, sn) > sh.cap {
      var base := Wire(w.base + w.slide);
      var j := Place(sh, Reach(sh, w, sn), q);
      L.PlaceSlot(q, w.base, sh.cap);
      L.PlaceSlot(q, base, sh.cap);
      L.RotatedSlot(w.base, w.slide, j, sh.cap);
      L.SlotsDiffer(w.base, sh.cap);
    }
  }

  // ---- An arriving segment ----

  /** The segment is stored already. */
  predicate Known(sh: Shape, w: RecvWnd, f: Frame)
    requires sh.cap > 0 && |w.slots| == sh.cap && f.sn < SEQS && w.base < SEQS
  {
    Has(SlotFor(sh, w, f.sn).cur, f.seg)
  }

  /** An arrival within reach changes the slot of its number and no other. */
  lemma {:induction false} ArrivalSlot(sh: Shape, w: RecvWnd, f: Frame, delay: Time, q: nat)
    requires Valid(sh, w) && FrameOk(sh, f) && !OutOfReach(sh, w, f.sn) && q < SEQS
    ensures var r, s := Receive(sh, w, f, delay), SlotFor(sh, w, q);
      && |r.slots| == sh.cap && r.base < SEQS && |s.data| == sh.MsgLen()
      && SlotFor(sh, r, q) ==
        if !Share(sh, q, f.sn) then s else if Known(sh, w, f) then s.(ack := true) else Stored(sh, s, f)
  {
    hide Rem, Mul, Wire, Has, Marks, Stored;
    ReachSlots(sh, w, f.sn);
    var r := Reach(sh, w, f.sn);
    ReachSlot(sh, w, f.sn, q);
    ReachSlot(sh, w, f.sn, f.sn);
    PlaceSame(sh, r, q, f.sn);
    PlaceSame(sh, w, q, f.sn);
    assert Place(sh, Receive(sh, w, f, delay), q) == Place(sh, r, q);
  }

  /** A segment out of reach changes nothing and is not taken. */
  lemma {:induction false} ArrivalRefused(sh: Shape, w: RecvWnd, f: Frame, delay: Time)
    requires Valid(sh, w) && FrameOk(sh, f) && OutOfReach(sh, w, f.sn)
    ensures Receive(sh, w, f, delay) == w && Taken(sh, w, f) == 0
  {
  }

  /** One within reach moves the window as far as it takes, and no further, whether it is new or not. */
  lemma {:induction false} ArrivalMoves(sh: Shape, w: RecvWnd, f: Frame, delay: Time)
    requires Valid(sh, w) && FrameOk(sh, f) && !OutOfReach(sh, w, f.sn)
    ensures var r, m := Receive(sh, w, f, delay), Reach(sh, w, f.sn);
      r == m.(slots := r.slots, isa := r.isa, isaSn := r.isaSn, isaOn := r.isaOn)
  {
    hide Rem, Mul, Wire, Has, Marks, Stored, Place;
    ReachSlots(sh, w, f.sn);
  }

  /**
   * The last segment of a message makes an acknowledgement of the message due, whether or not the
   * others are there, and so does a segment that is stored already; nothing else raises or lowers a
   * flag. A last segment stops the inter-segment timer; any other new one starts it for its message.
   */
  lemma {:induction false} ArrivalSignals(sh: Shape, w: RecvWnd, f: Frame, delay: Time)
    requires Valid(sh, w) && FrameOk(sh, f) && !OutOfReach(sh, w, f.sn)
    ensures var r, last := Receive(sh, w, f, delay), f.seg + 1 == f.count;
      && |r.slots| == sh.cap && r.base < SEQS
      && (forall q: nat :: q < SEQS ==>
          (SlotFor(sh, r, q).ack <==> SlotFor(sh, w, q).ack || (Share(sh, q, f.sn) && (last || Known(sh, w, f)))))
      && (r.isaOn, r.isa, r.isaSn) ==
          if Known(sh, w, f) then (w.isaOn, w.isa, w.isaSn)
          else if last then (false, w.isa, w.isaSn)
          else (true, delay, f.sn)
  {
    hide Rem, Mul, Wire, Marks;
    ReachSlot(sh, w, f.sn, f.sn);
    ArrivalSlot(sh, w, f, delay, f.sn);
    var r, last := Receive(sh, w, f, delay), f.seg + 1 == f.count;
    forall q: nat | q < SEQS
      ensures SlotFor(sh, r, q).ack <==> SlotFor(sh, w, q).ack || (Share(sh, q, f.sn) && (last || Known(sh, w, f)))
    {
      ArrivalSlot(sh, w, f, delay, q);
      if Share(sh, q, f.sn) { PlaceSame(sh, w, q, f.sn); }
    }
  }

  /**
   * Slot t is slot s, with the segment of f stored if added: it is marked, its bytes lie at its place,
   * they are counted, and its message is complete with as many segments as f says, cut to 16 bits.
   */
  ghost predicate Stores(sh: Shape, f: Frame, s: Slot, t: Slot, added: bool)
  {
    var at := Mul(f.seg, sh.segLen);
    && |t.data| == |s.data|
    && t.len == s.len + (if added then |f.data| else 0)
    && t.full == (if added then Mask(Min(f.count, 16)) else s.full)
    && (forall seg: nat :: Has(t.cur, seg) <==> Has(s.cur, seg) || (added && seg == f.seg))
    && (forall b: nat :: b < |s.data| ==>
        t.data[b] == if added && at <= b < at + |f.data| then f.data[b - at] else s.data[b])
  }

  lemma {:induction false} StoredIs(sh: Shape, s: Slot, f: Frame)
    requires sh.Valid() && FrameOk(sh, f) && |s.data| == sh.MsgLen()
    ensures Stores(sh, f, s, Stored(sh, s, f), true)
  {
    MarkIsVec(s.cur, f.seg);
    MulOrder(f.seg, sh.segs, sh.segLen);
    hide Mul, Mark, Mask, Has;
    forall seg: nat ensures Has(Mark(s.cur, f.seg), seg) <==> Has(s.cur, seg) || seg == f.seg {
      HasMark(s.cur, f.seg, seg);
    }
  }

  /**
   * A segment within reach is stored in the slot of its number if it is new, and nowhere else; its
   * bytes are reported as taken.
   */
  lemma {:induction false} ArrivalStores(sh: Shape, w: RecvWnd, f: Frame, delay: Time)
    requires Valid(sh, w) && FrameOk(sh, f) && !OutOfReach(sh, w, f.sn)
    ensures var r := Receive(sh, w, f, delay);
      && |r.slots| == sh.cap && r.base < SEQS
      && Taken(sh, w, f) == (if Known(sh, w, f) then 0 else |f.data|)
      && forall q: nat :: q < SEQS ==>
          Stores(sh, f, SlotFor(sh, w, q), SlotFor(sh, r, q), Share(sh, q, f.sn) && !Known(sh, w, f))
  {
    hide Rem, Mul, Wire, Marks, Stored, Stores;
    ReachSlot(sh, w, f.sn, f.sn);
    ArrivalSlot(sh, w, f, delay, f.sn);
    forall q: nat | q < SEQS
      ensures Stores(sh, f, SlotFor(sh, w, q), SlotFor(sh, Receive(sh, w, f, delay), q), Share(sh, q, f.sn) && !Known(sh, w, f))
    {
      ArrivalSlot(sh, w, f, delay, q);
      if Share(sh, q, f.sn) && !Known(sh, w, f) {
        StoredIs(sh, SlotFor(sh, w, q), f);
      } else {
        StoresNothing(sh, f, SlotFor(sh, w, q), SlotFor(sh, Receive(sh, w, f, delay), q).ack);
      }
    }
  }

  lemma {:induction false} StoresNothing(sh: Shape, f: Frame, s: Slot, ack: bool)
    ensures Stores(sh, f, s, s.(ack := ack), false)
  {
  }

  // ---- The inter-segment timer ----

  /**
   * When the timer runs out, an acknowledgement of the message it watches is due, and it stops;
   * before that it only runs down.
   */
  lemma {:induction false} TimerSignals(sh: Shape, w: RecvWnd, dt: Time)
    requires Valid(sh, w)
    ensures var r, fires := InterSegment(sh, w, dt), w.isaOn && w.isa <= dt;
      && SameButAcks(w, r)
      && (forall q: nat :: q < SEQS ==>
          (SlotFor(sh, r, q).ack <==> SlotFor(sh, w, q).ack || (fires && Share(sh, q, w.isaSn))))
      && (r.isaOn <==> w.isaOn && !fires)
      && (r.isaOn ==> r.isa + dt == w.isa) && (fires ==> r.isa == 0) && (!w.isaOn ==> r.isa == w.isa) && r.isaSn == w.isaSn
  {
    hide Rem, Mul, Wire, Marks, Share;
    forall q: nat | q < SEQS
      ensures SlotFor(sh, InterSegment(sh, w, dt), q).ack <==> SlotFor(sh, w, q).ack || (w.isaOn && w.isa <= dt && Share(sh, q, w.isaSn))
    {
      PlaceSame(sh, w, q, w.isaSn);
    }
  }

  // ---- Reading ----

  /** Reading raises and lowers no flag and leaves the timer alone. */
  lemma {:induction false} ReadSignals(sh: Shape, w: RecvWnd, max: nat, n: nat)
    requires Valid(sh, w)
    ensures var r := ReadMessages(sh, w, max, n).0;
      && |r.slots| == sh.cap && r.base == w.base && r.size == w.size
      && r.isaOn == w.isaOn && r.isa == w.isa && r.isaSn == w.isaSn
      && forall j :: 0 <= j < sh.cap ==> r.slots[j].ack == w.slots[j].ack
    decreases n
  {
    hide Rem, Mul, Marks, Has, Wire, Mask;
    var s := w.slots[CopyPlace(sh, w)];
    if max > 0 && n > 0 && Readable(s) {
      SlotFits(sh, s);
      var c := Min(max, s.len - w.copyOfs);
      if w.copyOfs + c >= s.len {
        NextMessageValid(sh, w);
        ReadSignals(sh, NextMessage(sh, w), max - c, n - 1);
      }
    }
  }

  // ---- What is reported ----

  /** An acknowledgement that is due is among those that DueAcks lists, and only those are. */
  lemma {:induction false} DueAcksHas(w: RecvWnd, j: nat, a: S.AckHdr)
    requires w.size <= |w.slots| && j <= w.size
    ensures a in DueAcks(w, j) <==>
      exists k :: j <= k < w.size && w.slots[k].ack && a == S.AckHdr(Wire(w.base + k), w.slots[k].cur)
    decreases w.size - j
  {
    hide Wire;
    if j < w.size { DueAcksHas(w, j + 1, a); }
  }

  /** Number q is one of the window. */
  predicate InWindow(w: RecvWnd, q: nat)
    requires w.base < SEQS && q < SEQS
  {
    Ahead(q, w.base) < w.size
  }

  /** Of a number in the window an acknowledgement is due exactly when its flag is up, and it has the vector of its slot. */
  lemma {:induction false} DueIff(sh: Shape, w: RecvWnd, q: nat, vec: Vec)
    requires Valid(sh, w) && q < SEQS
    ensures S.AckHdr(q, vec) in DueAcks(w, 0) <==> InWindow(w, q) && SlotFor(sh, w, q).ack && SlotFor(sh, w, q).cur == vec
  {
    hide Mul, Marks, Has, Wire, DueAcks, Rem;
    DueAcksHas(w, 0, S.AckHdr(q, vec));
    var d := Ahead(q, w.base);
    AheadBack(q, w.base);
    if d < w.size { RemSmall(d, sh.cap); }
    if exists k :: 0 <= k < w.size && w.slots[k].ack && S.AckHdr(q, vec) == S.AckHdr(Wire(w.base + k), w.slots[k].cur) {
      var k :| 0 <= k < w.size && w.slots[k].ack && S.AckHdr(q, vec) == S.AckHdr(Wire(w.base + k), w.slots[k].cur);
      AheadOf(w.base, k);
    }
  }

  // ---- Polls ----

  /** The window after a poll in which f arrives and no frame can go out. */
  function Heard(sh: Shape, w: RecvWnd, f: Frame, dt: Time, delay: Time): RecvWnd
    requires Valid(sh, w) && FrameOk(sh, f)
  {
    ReceiveValid(sh, w, f, delay);
    InterSegment(sh, Receive(sh, w, f, delay), dt)
  }

  lemma {:induction false} HeardIs(sh: Shape, w: RecvWnd, f: Frame, dt: Time, delay: Time)
    requires Valid(sh, w) && FrameOk(sh, f)
    ensures Valid(sh, Receive(sh, w, f, delay)) && Valid(sh, Heard(sh, w, f, dt, delay))
    ensures Poll(sh, w, Arrived(f), dt, delay, false) == (Heard(sh, w, f, dt, delay), S.NoAck)
    ensures Poll(sh, w, Arrived(f), dt, delay, true) == SendAck(Heard(sh, w, f, dt, delay))
  {
    hide Valid, InterSegment, Receive, SendAck;
    ReceiveValid(sh, w, f, delay);
    InterSegmentValid(sh, Receive(sh, w, f, delay), dt);
    ValidSize(sh, Heard(sh, w, f, dt, delay));
  }

  lemma {:induction false} ValidSize(sh: Shape, w: RecvWnd)
    requires Valid(sh, w)
    ensures sh.Valid() && w.size <= |w.slots| == sh.cap && sh.cap > 0 && w.base < SEQS && w.isaSn < SEQS
  {
  }

  /**
   * After a poll in which a segment within reach arrives, an acknowledgement of q is due exactly if q
   * is in the window, and its flag was up, or the segment was of its message and the last one, or
   * known, or the delay is over at once, or the timer that ran before is not restarted and runs out;
   * it marks what the slot then has.
   */
  lemma {:induction false} PollRaises(sh: Shape, w: RecvWnd, f: Frame, dt: Time, delay: Time, q: nat, vec: Vec)
    requires Valid(sh, w) && FrameOk(sh, f) && !OutOfReach(sh, w, f.sn) && q < SEQS
    ensures var w', a := Heard(sh, w, f, dt, delay), Poll(sh, w, Arrived(f), dt, delay, true).1;
      && Valid(sh, w')
      && (S.AckHdr(q, vec) in DueAcks(w', 0) <==>
          && InWindow(w', q) && SlotFor(sh, w', q).cur == vec
          && (|| SlotFor(sh, w, q).ack
              || (Share(sh, q, f.sn) && (f.seg + 1 == f.count || Known(sh, w, f) || delay <= dt))
              || (Share(sh, q, w.isaSn) && Known(sh, w, f) && w.isaOn && w.isa <= dt)))
      && a == (if DueAcks(w', 0) == [] then S.NoAck else DueAcks(w', 0)[0])
  {
    hide Valid, InterSegment, Receive, SendAck, Known, Share, Place, DueAcks, SameButAcks, OutOfReach;
    HeardIs(sh, w, f, dt, delay);
    var r, w' := Receive(sh, w, f, delay), Heard(sh, w, f, dt, delay);
    ValidSize(sh, w);
    ValidSize(sh, r);
    ValidSize(sh, w');
    ArrivalSignals(sh, w, f, delay);
    TimerSignals(sh, r, dt);
    DueIff(sh, w', q, vec);
    SendAckTakesHead(w');
  }

  /** No acknowledgement is due. */
  ghost predicate NoneUp(w: RecvWnd) {
    forall j :: 0 <= j < |w.slots| ==> !w.slots[j].ack
  }

  /** With at most one flag up, that one is reported. */
  lemma {:induction false} OneUp(w: RecvWnd, k: nat, up: bool)
    requires w.size <= |w.slots| && k < |w.slots|
    requires forall j :: 0 <= j < |w.slots| ==> (w.slots[j].ack <==> up && j == k)
    ensures SendAck(w).1 == if up && k < w.size then S.AckHdr(Wire(w.base + k), w.slots[k].cur) else S.NoAck
  {
    var j := FirstDue(w, 0);
    if up && k < w.size { assert w.slots[k].ack; }
  }

  lemma {:induction false} PlaceOf(sh: Shape, w: RecvWnd, j: nat)
    requires sh.Valid() && w.base < SEQS && j < sh.cap
    ensures Place(sh, w, Wire(w.base + j)) == j
  {
    AheadOf(w.base, j);
    RemSmall(j, sh.cap);
  }

  /**
   * With no flag up, a poll in which a new segment within reach arrives reports at once if it is the
   * last one, and else exactly if the delay is over. The report is of the number in the window that
   * has the slot of the segment, which is the segment's own if that is in the window; it marks the
   * segment and what was there before, so that it shows the gaps.
   */
  lemma {:induction false} GapIsReported(sh: Shape, w: RecvWnd, f: Frame, dt: Time, delay: Time)
    requires Valid(sh, w) && FrameOk(sh, f) && !OutOfReach(sh, w, f.sn) && !Known(sh, w, f) && NoneUp(w)
    ensures var w', a := Heard(sh, w, f, dt, delay), Poll(sh, w, Arrived(f), dt, delay, true).1;
      && w'.base < SEQS
      && (a.AckHdr? <==> Place(sh, w', f.sn) < w'.size && (f.seg + 1 == f.count || delay <= dt))
      && (a.AckHdr? ==>
          && a.sn == Wire(w'.base + Place(sh, w', f.sn)) && (InWindow(w', f.sn) ==> a.sn == f.sn)
          && forall seg: nat :: Has(a.vec, seg) <==> Has(SlotFor(sh, w, f.sn).cur, seg) || seg == f.seg)
  {
    hide Valid, InterSegment, Receive, SendAck, Known, Share, Place, SameButAcks, OutOfReach, Reach, Stored, Has,
      Wire, InWindow;
    HeardIs(sh, w, f, dt, delay);
    var r, w' := Receive(sh, w, f, delay), Heard(sh, w, f, dt, delay);
    ValidSize(sh, w);
    ValidSize(sh, r);
    ValidSize(sh, w');
    var k, up := Place(sh, w', f.sn), f.seg + 1 == f.count || delay <= dt;
    forall j | 0 <= j < sh.cap ensures w'.slots[j].ack <==> up && j == k {
      var q := Wire(w'.base + j);
      GapFlag(sh, w, f, dt, delay, q);
      PlaceOf(sh, w', j);
      PlaceSame(sh, w', q, f.sn);
    }
    OneUp(w', k, up);
    GapVec(sh, w, f, dt, delay);
    InWindowPlace(sh, w', f.sn);
    var a := Poll(sh, w, Arrived(f), dt, delay, true).1;
    if a.AckHdr? { assert a.vec == SlotFor(sh, w', f.sn).cur; }
  }

  lemma {:induction false} InWindowPlace(sh: Shape, w: RecvWnd, q: nat)
    requires Valid(sh, w) && q < SEQS
    ensures InWindow(w, q) ==> Wire(w.base + Place(sh, w, q)) == q
  {
    hide Wire;
    AheadBack(q, w.base);
    if InWindow(w, q) { RemSmall(Ahead(q, w.base), sh.cap); }
  }

  lemma {:induction false} GapFlag(sh: Shape, w: RecvWnd, f: Frame, dt: Time, delay: Time, q: nat)
    requires Valid(sh, w) && FrameOk(sh, f) && !OutOfReach(sh, w, f.sn) && !Known(sh, w, f) && NoneUp(w) && q < SEQS
    ensures var w' := Heard(sh, w, f, dt, delay);
      && |w'.slots| == sh.cap && w'.base < SEQS
      && (SlotFor(sh, w', q).ack <==> Share(sh, q, f.sn) && (f.seg + 1 == f.count || delay <= dt))
  {
    hide Valid, InterSegment, Receive, Known, Share, Place, SameButAcks, OutOfReach;
    HeardIs(sh, w, f, dt, delay);
    var r := Receive(sh, w, f, delay);
    ValidSize(sh, w);
    ValidSize(sh, r);
    ValidSize(sh, Heard(sh, w, f, dt, delay));
    ArrivalSignals(sh, w, f, delay);
    TimerSignals(sh, r, dt);
  }

  lemma {:induction false} GapVec(sh: Shape, w: RecvWnd, f: Frame, dt: Time, delay: Time)
    requires Valid(sh, w) && FrameOk(sh, f) && !OutOfReach(sh, w, f.sn) && !Known(sh, w, f)
    ensures var w' := Heard(sh, w, f, dt, delay);
      && |w'.slots| == sh.cap && w'.base < SEQS
      && forall seg: nat :: Has(SlotFor(sh, w', f.sn).cur, seg) <==> Has(SlotFor(sh, w, f.sn).cur, seg) || seg == f.seg
  {
    hide Valid, InterSegment, Receive, Known, OutOfReach, Has, Reach, Rem, Mul;
    HeardIs(sh, w, f, dt, delay);
    var r := Receive(sh, w, f, delay);
    ValidSize(sh, w);
    ValidSize(sh, r);
    ArrivalStores(sh, w, f, delay);
    assert Stores(sh, f, SlotFor(sh, w, f.sn), SlotFor(sh, r, f.sn), true);
    TimerSignals(sh, r, dt);
  }

  // ---- Silence ----

  /** acks are the reports of consecutive polls with the times dts, in which nothing arrives. */
  ghost predicate Silent(sh: Shape, w: RecvWnd, delay: Time, dts: seq<Time>, acks: seq<S.AckHdr>)
    decreases |dts|
  {
    && |acks| == |dts|
    && (dts == [] ||
        (Valid(sh, w) && var (w', a) := Poll(sh, w, Nothing, dts[0], delay, true);
         acks[0] == a && Silent(sh, w', delay, dts[1..], acks[1..])))
  }

  /** A poll without arrivals while no flag is up. */
  lemma {:induction false} SilentPoll(sh: Shape, w: RecvWnd, dt: Time, delay: Time)
    requires Valid(sh, w) && NoneUp(w) && (w.isaOn ==> InWindow(w, w.isaSn))
    ensures var (w', a) := Poll(sh, w, Nothing, dt, delay, true);
      && Valid(sh, w') && NoneUp(w') && SameButAcks(w, w')
      && (w'.isaOn <==> w.isaOn && dt < w.isa) && (w'.isaOn ==> w'.isa + dt == w.isa && w'.isaSn == w.isaSn)
      && a == if w.isaOn && w.isa <= dt then S.AckHdr(w.isaSn, SlotFor(sh, w, w.isaSn).cur) else S.NoAck
  {
    hide Mul, Marks, Has, Wire, Rem, SlotOk, CopyPlace;
    InterSegmentValid(sh, w, dt);
    SendAckValid(sh, InterSegment(sh, w, dt));
    InWindowPlace(sh, w, w.isaSn);
    if w.isaOn { RemSmall(Ahead(w.isaSn, w.base), sh.cap); }
    OneUp(InterSegment(sh, w, dt), Place(sh, w, w.isaSn), w.isaOn && w.isa <= dt);
  }

  /**
   * A message whose segments stop coming: while nothing arrives and no other acknowledgement is due,
   * polls report nothing until their times add up to what was left on the timer; that poll reports
   * the segments the watched message has, and later ones nothing again. With the timer off they
   * report nothing.
   */
  lemma {:induction false} SilenceIsReported(sh: Shape, w: RecvWnd, delay: Time, dts: seq<Time>, acks: seq<S.AckHdr>, i: nat)
    requires Valid(sh, w) && NoneUp(w) && (w.isaOn ==> InWindow(w, w.isaSn))
    requires Silent(sh, w, delay, dts, acks) && i < |dts|
    ensures acks[i] == if w.isaOn && (i == 0 || Total(dts, i) < w.isa) && w.isa <= Total(dts, i + 1)
                       then S.AckHdr(w.isaSn, SlotFor(sh, w, w.isaSn).cur) else S.NoAck
    decreases |dts|
  {
    hide Valid, Poll, Rem, Mul;
    ValidSize(sh, w);
    SilentPoll(sh, w, dts[0], delay);
    var w' := Poll(sh, w, Nothing, dts[0], delay, true).0;
    TotalTail(dts, 0);
    if i > 0 {
      TotalTail(dts, i - 1);
      TotalTail(dts, i);
      SilenceIsReported(sh, w', delay, dts[1..], acks[1..], i - 1);
    }
  }
}
