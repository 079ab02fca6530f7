/**
 * Segments that the code takes for those of another message: of messages already read out, or so old
 * that their 12-bit number has come round. The receive-window invariant survives such an arrival
 * only by coincidence; this is exactly when.
 */
module LateRepeats {
  import opened Arith
  import opened AckVec
  import opened SeqNum
  import opened Messages
  import opened Memory
  import opened RecvWindow
  import opened RecvInvariant
  import O = OneSlot

  /** The frame could pass for the same segment of message m. */
  ghost predicate Passes(sh: Shape, f: Frame, m: seq<Byte>)
    requires sh.segLen > 0
  {
    f.count == SegCount(|m|, sh.segLen) && f.seg < f.count && f.data == SegmentOf(m, f.seg, sh.segLen)
  }

  /** How far the number of a frame is ahead of the base, as the code computes it. */
  function Lead(w: RecvWnd, sn: nat): (a: nat)
    requires w.base < SEQS && sn < SEQS
    ensures a < SEQS
  {
    Ahead(sn, w.base)
  }

  /** The code takes the frame for one of a message already read out, or of the one just before the base. */
  predicate Behind(w: RecvWnd, sn: nat)
    requires w.base < SEQS && sn < SEQS
  {
    Lead(w, sn) == SEQS - 1 || Lead(w, sn) < w.slide
  }

  /** Where such a frame goes. */
  function BehindPlace(sh: Shape, w: RecvWnd, sn: nat): int
    requires w.base < SEQS && sn < SEQS
  {
    if Lead(w, sn) == SEQS - 1 then sh.cap - 1 else Lead(w, sn)
  }

  /** The slot of the last message of a full window has the segment already, or takes one just like it. */
  ghost predicate LastTakes(sh: Shape, w: RecvWnd, msgs: seq<seq<Byte>>, rb: nat, f: Frame)
    requires Inv(sh, w, msgs, rb)
  {
    && w.slide < w.size == sh.cap
    && (Has(w.slots[sh.cap - 1].cur, f.seg) || Passes(sh, f, msgs[rb + sh.cap - 1]))
  }

  /**
   * What makes an arrival harmless, by how far ahead its number is: out of reach, or for a message
   * within reach that exists and has the segment or takes one just like it, or for the message just
   * before the base when the last slot of a full window does; for a message already read out, never.
   */
  ghost predicate Admits(sh: Shape, w: RecvWnd, msgs: seq<seq<Byte>>, rb: nat, f: Frame)
    requires Inv(sh, w, msgs, rb) && f.sn < SEQS
  {
    var a := Lead(w, f.sn);
    if a == SEQS - 1 then LastTakes(sh, w, msgs, rb, f)
    else if a < w.slide then false
    else if a < w.slide + sh.cap then
      && rb + a < |msgs|
      && ((a < w.size && Has(w.slots[a].cur, f.seg)) || Passes(sh, f, msgs[rb + a]))
    else true
  }

  /** A frame of a message behind the read point is taken for one within reach, and the window does not move. */
  lemma {:induction false} BehindReach(sh: Shape, w: RecvWnd, msgs: seq<seq<Byte>>, rb: nat, sn: nat)
    requires Inv(sh, w, msgs, rb) && sn < SEQS && Behind(w, sn)
    ensures !OutOfReach(sh, w, sn) && Reach(sh, w, sn) == w
    ensures 0 <= BehindPlace(sh, w, sn) < sh.cap && Place(sh, w, sn) == BehindPlace(sh, w, sn)
  {
    hide Holds, Blank, Mul, Marks, Has, SlotHolds, Rem;
    if Lead(w, sn) == SEQS - 1 {
      LastPlace(sh.cap);
      WireOfAll();
    } else {
      RemSmall(Lead(w, sn), sh.cap);
      WireSmall(Lead(w, sn) + 1);
    }
  }

  lemma {:induction false} WireOfAll()
    ensures Wire(SEQS) == 0
  {
  }

  lemma {:induction false} LastPlace(cap: nat)
    requires Divides(cap)
    ensures Rem(SEQS - 1, cap) == cap - 1
  {
    RemAdd(SEQS - 1, 1, cap);
    RemCases(SEQS - 1, 1, cap);
  }

  /** The window after a segment was stored at place j without moving the window. */
  ghost predicate StoredInto(sh: Shape, w: RecvWnd, r: RecvWnd, j: nat, f: Frame)
    requires Valid(sh, w) && FrameOk(sh, f) && j < sh.cap
  {
    && SlotOk(sh, w.slots[j])
    && r == w.(slots := w.slots[j := Stored(sh, w.slots[j], f)], isa := r.isa, isaSn := r.isaSn, isaOn := r.isaOn)
    && r.isaSn < SEQS
  }

  /** A segment stored in a slot that should be blank. */
  lemma {:induction false} BlankBreaks(sh: Shape, w: RecvWnd, r: RecvWnd, msgs: seq<seq<Byte>>, rb: nat, j: nat, f: Frame)
    requires Inv(sh, w, msgs, rb) && FrameOk(sh, f) && j < sh.cap && !(w.slide <= j < w.size) && StoredInto(sh, w, r, j, f)
    ensures !Inv(sh, r, msgs, rb)
  {
    hide Mul, Marks, Has, Holds, Rem;
    HasMark(w.slots[j].cur, f.seg, f.seg);
    HasZero(f.seg);
    assert !SlotHolds(sh, r, msgs, rb, j);
  }

  /** A slot that collects message m still does after storing f exactly when f passes for a segment of m. */
  lemma {:induction false} StoredHoldsIff(sh: Shape, s: Slot, m: seq<Byte>, f: Frame)
    requires sh.Valid() && |s.data| == sh.MsgLen() && Holds(sh, s, m) && 0 < |m| <= sh.MsgLen()
    requires FrameOk(sh, f) && f.seg < f.count && !Has(s.cur, f.seg)
    ensures Holds(sh, Stored(sh, s, f), m) <==> Passes(sh, f, m)
  {
    var s', n := Stored(sh, s, f), SegCount(|m|, sh.segLen);
    HasMark(s.cur, f.seg, f.seg);
    HasZero(f.seg);
    if Passes(sh, f, m) {
      SegCountIs(|m|, sh.segLen, f.seg);
      StoreSegment(sh, s, m, f);
    }
    if Holds(sh, s', m) {
      SegCountBounds(|m|, sh);
      MaskOrder(Min(f.count, 16), n);
      StoredMark(m, s.cur, f.seg, n, sh.segLen);
      if s.cur == 0 { StoredNone(m, n, sh.segLen); }
      SamePiece(sh, s, m, f);
    }
  }

  /** Two pieces of the same length at the same place of a buffer are the same. */
  lemma {:induction false} SamePiece(sh: Shape, s: Slot, m: seq<Byte>, f: Frame)
    requires sh.Valid() && |s.data| == sh.MsgLen() && FrameOk(sh, f) && f.seg < SegCount(|m|, sh.segLen)
    requires HasSegment(Stored(sh, s, f).data, m, f.seg, sh.segLen) && |f.data| == |SegmentOf(m, f.seg, sh.segLen)|
    ensures f.data == SegmentOf(m, f.seg, sh.segLen)
  {
    hide Mul, Quo, Has;
    var at := Mul(f.seg, sh.segLen);
    var data := Stored(sh, s, f).data;
    MulOrder(f.seg, sh.segs, sh.segLen);
    assert data[at .. at + |f.data|] == f.data;
  }

  /**
   * A segment placed in a slot of the window keeps the invariant exactly when it is there already, or
   * passes for a segment of the message of that slot.
   */
  lemma {:induction false} PlacedKeepsIff(sh: Shape, w: RecvWnd, r: RecvWnd, msgs: seq<seq<Byte>>, rb: nat, j: nat, f: Frame)
    requires Inv(sh, w, msgs, rb) && FrameOk(sh, f) && f.seg < f.count && w.slide <= j < w.size
    requires var s := w.slots[j];
      if Has(s.cur, f.seg) then r == w.(slots := w.slots[j := s.(ack := true)]) else StoredInto(sh, w, r, j, f)
    ensures Inv(sh, r, msgs, rb) <==> Has(w.slots[j].cur, f.seg) || Passes(sh, f, msgs[rb + j])
  {
    hide Mul, Marks, Rem, StoredLen, Holds;
    var s := w.slots[j];
    assert SlotHolds(sh, w, msgs, rb, j);
    if Has(s.cur, f.seg) {
      AckHolds(sh, s, msgs[rb + j]);
      SlotReplaced(sh, w, r, msgs, rb, j, s.(ack := true));
    } else {
      StoredHoldsIff(sh, s, msgs[rb + j], f);
      if Passes(sh, f, msgs[rb + j]) {
        StoredKeeps(sh, w, r, msgs, rb, j, f);
      }
      if Inv(sh, r, msgs, rb) {
        assert SlotHolds(sh, r, msgs, rb, j);
      }
    }
  }

  /** A frame behind the read point. */
  lemma {:induction false} BehindKeepsIff(sh: Shape, w: RecvWnd, msgs: seq<seq<Byte>>, rb: nat, f: Frame, delay: Time)
    requires Inv(sh, w, msgs, rb) && FrameOk(sh, f) && f.seg < f.count && Behind(w, f.sn)
    ensures Inv(sh, Receive(sh, w, f, delay), msgs, rb) <==> Admits(sh, w, msgs, rb, f)
  {
    hide Mul, Marks, Rem, StoredLen, Holds, Passes;
    BehindReach(sh, w, msgs, rb, f.sn);
    var j, r := BehindPlace(sh, w, f.sn), Receive(sh, w, f, delay);
    SlotIsOk(sh, w, j);
    if w.slide <= j < w.size {
      PlacedKeepsIff(sh, w, r, msgs, rb, j, f);
    } else {
      BlankHasNone(sh, w, msgs, rb, j, f.seg);
      BlankBreaks(sh, w, r, msgs, rb, j, f);
    }
  }

  lemma {:induction false} SlotIsOk(sh: Shape, w: RecvWnd, j: nat)
    requires Valid(sh, w) && j < sh.cap
    ensures SlotOk(sh, w.slots[j])
  {
  }

  /** A frame of a message within reach. */
  lemma {:induction false} AheadKeepsIff(sh: Shape, w: RecvWnd, msgs: seq<seq<Byte>>, rb: nat, f: Frame, delay: Time)
    requires Inv(sh, w, msgs, rb) && FrameOk(sh, f) && f.seg < f.count
    requires !Behind(w, f.sn) && Lead(w, f.sn) < w.slide + sh.cap
    ensures Inv(sh, Receive(sh, w, f, delay), msgs, NewBase(sh, w, rb, rb + Lead(w, f.sn))) <==> Admits(sh, w, msgs, rb, f)
  {
    hide Mul, Marks, Rem, StoredLen, Holds, Passes, SlotHolds, Blank, Has, Wire, SlotOk, Reach, OutOfReach, Stored, Place;
    var q, r := rb + Lead(w, f.sn), Receive(sh, w, f, delay);
    NumberOf(sh, w, rb, f.sn);
    ReachOf(sh, w, rb, q);
    if q >= |msgs| {
      UnknownBreaks(sh, w, msgs, rb, f, delay);
    } else {
      var room, rb' := Reach(sh, w, f.sn), NewBase(sh, w, rb, q);
      ReachKeeps(sh, w, msgs, rb, q);
      SlotIsOk(sh, room, q - rb');
      assert Got(room, rb', q, f.seg) <==> Got(w, rb, q, f.seg);
      PlacedKeepsIff(sh, room, r, msgs, rb', q - rb', f);
    }
  }

  /** Making room for a message that does not exist yet. */
  lemma {:induction false} UnknownBreaks(sh: Shape, w: RecvWnd, msgs: seq<seq<Byte>>, rb: nat, f: Frame, delay: Time)
    requires Inv(sh, w, msgs, rb) && FrameOk(sh, f)
    requires !Behind(w, f.sn) && Lead(w, f.sn) < w.slide + sh.cap && rb + Lead(w, f.sn) >= |msgs|
    ensures !Inv(sh, Receive(sh, w, f, delay), msgs, NewBase(sh, w, rb, rb + Lead(w, f.sn)))
  {
    hide Mul, Marks, Rem, Holds, SlotHolds, Blank, Has, SlotOk, Wire;
    NumberOf(sh, w, rb, f.sn);
    ReachOf(sh, w, rb, rb + Lead(w, f.sn));
  }

  /** The number ahead of the base that a frame's number is read as. */
  lemma {:induction false} NumberOf(sh: Shape, w: RecvWnd, rb: nat, sn: nat)
    requires sh.Valid() && w.base == Wire(rb) && sn < SEQS && w.base < SEQS && w.slide <= sh.cap
    requires !Behind(w, sn)
    ensures var q := rb + Lead(w, sn); Wire(q) == sn && InAge(sh, w, rb, q) && !Late(w, rb, q)
  {
    hide Rem;
    AheadBack(sn, w.base);
    RemAdd(rb, Lead(w, sn), SEQS);
  }

  /** The number of the base once the frame has arrived. */
  function BaseAfter(sh: Shape, w: RecvWnd, rb: nat, sn: nat): nat
    requires w.base < SEQS && sn < SEQS
  {
    if !Behind(w, sn) && Lead(w, sn) < w.slide + sh.cap then NewBase(sh, w, rb, rb + Lead(w, sn)) else rb
  }

  /**
   * The arrival of any genuine segment, however old and however often repeated, keeps the
   * receive-window invariant exactly when the window admits it.
   */
  lemma {:induction false} ArrivalKeepsIff(sh: Shape, w: RecvWnd, msgs: seq<seq<Byte>>, rb: nat, f: Frame, k: nat, delay: Time)
    requires Inv(sh, w, msgs, rb) && Genuine(sh, f, msgs, k)
    ensures FrameOk(sh, f)
    ensures Inv(sh, Receive(sh, w, f, delay), msgs, BaseAfter(sh, w, rb, f.sn)) <==> Admits(sh, w, msgs, rb, f)
  {
    hide Mul, Marks, Rem, Holds, Passes, SlotHolds, Has, Receive;
    GenuineOk(sh, f, msgs, k);
    if Behind(w, f.sn) {
      BehindKeepsIff(sh, w, msgs, rb, f, delay);
    } else if Lead(w, f.sn) < w.slide + sh.cap {
      AheadKeepsIff(sh, w, msgs, rb, f, delay);
    } else {
      OutsideIgnored(sh, w, rb, f, delay);
    }
  }

  lemma {:induction false} OutsideIgnored(sh: Shape, w: RecvWnd, rb: nat, f: Frame, delay: Time)
    requires Valid(sh, w) && FrameOk(sh, f) && w.base == Wire(rb) && w.slide <= sh.cap
    requires !Behind(w, f.sn) && Lead(w, f.sn) >= w.slide + sh.cap
    ensures Receive(sh, w, f, delay) == w
  {
    hide Mul, Marks, Rem, Has;
    NumberOf(sh, w, rb, f.sn);
    ReachOf(sh, w, rb, rb + Lead(w, f.sn));
  }

  /**
   * Within age, being admitted is a matter of being late: a segment that is neither late nor out of
   * age is always admitted, and a late one only by the last slot of a full window.
   */
  lemma {:induction false} AdmitsInAgeIff(sh: Shape, w: RecvWnd, msgs: seq<seq<Byte>>, rb: nat, f: Frame, k: nat)
    requires Inv(sh, w, msgs, rb) && Genuine(sh, f, msgs, k) && InAge(sh, w, rb, k)
    ensures Admits(sh, w, msgs, rb, f) <==> !Late(w, rb, k) || (k + 1 == rb && LastTakes(sh, w, msgs, rb, f))
  {
    hide Mul, Quo, Marks, Rem, Holds, Has, SlotHolds, SlotOk;
    if k < rb {
      WireAhead(k, rb - k);
      assert Lead(w, f.sn) == SEQS - (rb - k);
    } else {
      WireAhead(rb, k - rb);
    }
  }

  /**
   * The arrival of a genuine segment that is not out of age keeps the invariant exactly when the
   * message is not late, or is the one just before the base and the last slot of a full window takes
   * the segment.
   */
  lemma {:induction false} ReceiveKeepsIff(sh: Shape, w: RecvWnd, msgs: seq<seq<Byte>>, rb: nat, f: Frame, k: nat, delay: Time)
    requires Inv(sh, w, msgs, rb) && Genuine(sh, f, msgs, k) && InAge(sh, w, rb, k)
    ensures FrameOk(sh, f)
    ensures Inv(sh, Receive(sh, w, f, delay), msgs, BaseAfter(sh, w, rb, f.sn))
      <==> !Late(w, rb, k) || (k + 1 == rb && LastTakes(sh, w, msgs, rb, f))
  {
    hide Receive, Admits, LastTakes, Genuine, Rem;
    ArrivalKeepsIff(sh, w, msgs, rb, f, k, delay);
    AdmitsInAgeIff(sh, w, msgs, rb, f, k);
  }

  lemma {:induction false} StoredKeeps(sh: Shape, w: RecvWnd, r: RecvWnd, msgs: seq<seq<Byte>>, rb: nat, j: nat, f: Frame)
    requires Inv(sh, w, msgs, rb) && FrameOk(sh, f) && w.slide <= j < w.size && StoredInto(sh, w, r, j, f)
    requires !Has(w.slots[j].cur, f.seg) && Passes(sh, f, msgs[rb + j])
    ensures Inv(sh, r, msgs, rb)
  {
    hide Mul, Marks, Rem, StoredLen;
    SegCountIs(|msgs[rb + j]|, sh.segLen, f.seg);
    StoreAt(sh, w, msgs, rb, f.(sn := Wire(rb + j)), rb + j, 0, r);
  }

  lemma {:induction false} AckHolds(sh: Shape, s: Slot, m: seq<Byte>)
    requires sh.segLen > 0 && Holds(sh, s, m)
    ensures Holds(sh, s.(ack := true), m)
  {
  }

  // ---- What a reader gets ----

  /** One message in the window, one segment in a message, one byte in a segment. */
  predicate Tiny(sh: Shape) {
    sh.cap == 1 && sh.segs == 1 && sh.segLen == 1
  }

  ghost predicate Facts(sh: Shape)
    requires Tiny(sh)
  {
    && sh.Valid() && O.Slots(sh.cap) && O.Numbers() && O.OneOfOne(sh) && sh.FullVec() == 1
    && O.Masks() && O.Bits() && O.Marks1()
  }

  lemma {:induction false} TinyFacts(sh: Shape)
    requires Tiny(sh)
    ensures Facts(sh)
  {
    hide Rem, Mul, Quo, Mask, Has, Within, Marks, Mark, Wire, SegCount;
    O.SlotFacts(sh.cap);
    O.NumberFacts();
    O.OneOfOneFacts(sh);
    O.MaskFacts();
    O.BitFacts();
    O.Marks1Facts();
  }

  /** A window of one slot with one byte in its buffer, held or not. */
  function Window(size: nat, slide: nat, data: Byte, held: bool, ack: bool): RecvWnd {
    RecvWnd(0, size, slide, slide, 0, [Slot(if held then 1 else 0, if held then 1 else 0, 1, [data], ack)],
            TIME_INFINITY, 0, false)
  }

  lemma {:induction false} TinyValid(sh: Shape, size: nat, slide: nat, data: Byte, held: bool, ack: bool)
    requires Tiny(sh) && slide <= size <= 1
    ensures Valid(sh, Window(size, slide, data, held, ack))
  {
    hide Mul, Quo, SegCount, Mask, Marks, Has, Rem, Wire, Within, Mark;
    TinyFacts(sh);
  }

  lemma {:induction false} TinyReceive(sh: Shape, size: nat, slide: nat, d: Byte, ack: bool, a: Byte)
    requires Tiny(sh) && slide <= size <= 1
    ensures FrameOk(sh, Frame(0, 0, 1, [a])) && Valid(sh, Window(size, slide, d, false, ack))
    ensures Receive(sh, Window(size, slide, d, false, ack), Frame(0, 0, 1, [a]), 0) == Window(1, slide, a, true, true)
  {
    hide Mul, Quo, SegCount, Mask, Marks, Has, Rem, Wire, Within, Mark;
    TinyFacts(sh);
    TinyValid(sh, size, slide, d, false, ack);
    var w, f := Window(size, slide, d, false, ack), Frame(0, 0, 1, [a]);
    assert Reach(sh, w, 0) == w.(size := 1);
    assert Put([d], 0, [a]) == [a];
    assert Stored(sh, w.slots[0], f) == Slot(1, 1, 1, [a], true);
  }

  lemma {:induction false} TinyRead(sh: Shape, slide: nat, a: Byte)
    requires Tiny(sh) && slide <= 1
    ensures Valid(sh, Window(1, slide, a, true, true))
    ensures Read(sh, Window(1, slide, a, true, true), 1).1 == [a]
    ensures slide == 0 ==> Read(sh, Window(1, 0, a, true, true), 1).0 == Window(1, 1, a, false, true)
  {
    hide Mul, Quo, SegCount, Mask, Marks, Has, Rem, Wire, Within, Mark;
    TinyFacts(sh);
    TinyValid(sh, 1, slide, a, true, true);
    var w := Window(1, slide, a, true, true);
    NextMessageValid(sh, w);
    assert ReadMessages(sh, NextMessage(sh, w), 0, 0).1 == [];
  }

  /**
   * A message of one byte is received and read; its segment arrives again, and is read again: the
   * reader gets the byte twice.
   */
  lemma {:induction false} LateRepeatIsReadTwice(sh: Shape, a: Byte)
    requires Tiny(sh)
    ensures var f, w := Frame(0, 0, 1, [a]), Window(0, 0, 0, false, false);
      && FrameOk(sh, f) && Valid(sh, w)
      && var w1 := Receive(sh, w, f, 0);
      && Valid(sh, w1) && Read(sh, w1, 1).1 == [a]
      && var w2 := Read(sh, w1, 1).0;
      && Valid(sh, w2) && Late(w2, 0, 0)
      && var w3 := Receive(sh, w2, f, 0);
      && Valid(sh, w3) && Read(sh, w3, 1).1 == [a]
  {
    hide Receive, Read, Valid;
    TinyReceive(sh, 0, 0, 0, false, a);
    TinyRead(sh, 0, a);
    TinyReceive(sh, 1, 1, a, true, a);
    TinyRead(sh, 1, a);
  }

  // ---- A number that comes round ----

  /** The one-slot window once n messages have been received and read; d is left in its buffer. */
  function Drained(n: nat, d: Byte, ack: bool): RecvWnd {
    if n == 0 then Window(0, 0, d, false, ack)
    else RecvWnd(Wire(n - 1), 1, 1, Wire(n), 0, [Slot(0, 0, 1, [d], ack)], TIME_INFINITY, 0, false)
  }

  function Holding(n: nat, a: Byte): RecvWnd {
    RecvWnd(Wire(n), 1, 0, Wire(n), 0, [Slot(1, 1, 1, [a], true)], TIME_INFINITY, 0, false)
  }

  lemma {:induction false} DrainedValid(sh: Shape, n: nat, d: Byte, ack: bool)
    requires Tiny(sh)
    ensures Valid(sh, Drained(n, d, ack)) && Valid(sh, Holding(n, d))
  {
    hide Mul, Quo, SegCount, Mask, Marks, Has, Rem, Wire, Within, Mark;
    WireTwice(n);
    TinyFacts(sh);
  }

  lemma {:induction false} WireTwice(n: nat)
    ensures Wire(Wire(n) + 0) == Wire(n) && (n > 0 ==> Wire(Wire(n - 1) + 1) == Wire(n))
    ensures n > 0 ==> Ahead(Wire(n), Wire(n - 1)) == 1
  {
    hide Rem;
    RemAdd(n, 0, SEQS);
    if n > 0 {
      RemAdd(n - 1, 1, SEQS);
      WireAhead(n - 1, 1);
    }
  }

  lemma {:induction false} HoldNext(sh: Shape, n: nat, d: Byte, ack: bool, a: Byte)
    requires Tiny(sh)
    ensures FrameOk(sh, Frame(Wire(n), 0, 1, [a])) && Valid(sh, Drained(n, d, ack))
    ensures Receive(sh, Drained(n, d, ack), Frame(Wire(n), 0, 1, [a]), 0) == Holding(n, a)
  {
    hide Mul, Quo, SegCount, Mask, Marks, Has, Rem, Wire, Within, Mark;
    TinyFacts(sh);
    DrainedValid(sh, n, d, ack);
    WireTwice(n);
    WireSmall(2);
    RemOne(Lead(Drained(n, d, ack), Wire(n)), sh.cap);
    var w, f := Drained(n, d, ack), Frame(Wire(n), 0, 1, [a]);
    assert Put([d], 0, [a]) == [a];
    assert Reach(sh, w, Wire(n)) == RecvWnd(Wire(n), 1, 0, Wire(n), 0, w.slots, TIME_INFINITY, 0, false);
    assert Stored(sh, w.slots[0], f) == Slot(1, 1, 1, [a], true);
  }

  lemma {:induction false} ReadHeld(sh: Shape, n: nat, a: Byte)
    requires Tiny(sh)
    ensures Valid(sh, Holding(n, a)) && Read(sh, Holding(n, a), 1) == (Drained(n + 1, a, true), [a])
  {
    hide Mul, Quo, SegCount, Mask, Marks, Has, Rem, Wire, Within, Mark;
    TinyFacts(sh);
    DrainedValid(sh, n, a, true);
    WireTwice(n + 1);
    var w := Holding(n, a);
    NextMessageValid(sh, w);
    assert NextMessage(sh, w) == Drained(n + 1, a, true);
    assert ReadMessages(sh, NextMessage(sh, w), 0, 0) == (NextMessage(sh, w), []);
    assert [a][0..1] + [] == [a];
    assert ReadMessages(sh, w, 1, 1) == (NextMessage(sh, w), [a]);
  }

  /** Frames arrive one by one, and after each the reader asks for one byte. */
  function Hear(sh: Shape, w: RecvWnd, fs: seq<Frame>): seq<Byte>
    requires Valid(sh, w) && forall i :: 0 <= i < |fs| ==> FrameOk(sh, fs[i])
    decreases |fs|
  {
    if fs == [] then []
    else
      ReceiveValid(sh, w, fs[0], 0);
      var w1 := Receive(sh, w, fs[0], 0);
      ReadValid(sh, w1, 1, w1.size);
      Read(sh, w1, 1).1 + Hear(sh, Read(sh, w1, 1).0, fs[1..])
  }

  /** The frames of messages n, n + 1, and so on, of one byte each. */
  function FramesFrom(n: nat, bs: seq<Byte>): (fs: seq<Frame>)
    ensures |fs| == |bs|
    ensures forall i :: 0 <= i < |bs| ==> fs[i] == Frame(Wire(n + i), 0, 1, [bs[i]])
  {
    seq(|bs|, i requires 0 <= i < |bs| => Frame(Wire(n + i), 0, 1, [bs[i]]))
  }

  lemma {:induction false} HearsAll(sh: Shape, n: nat, d: Byte, ack: bool, bs: seq<Byte>)
    requires Tiny(sh)
    ensures Valid(sh, Drained(n, d, ack)) && forall i :: 0 <= i < |bs| ==> FrameOk(sh, FramesFrom(n, bs)[i])
    ensures Hear(sh, Drained(n, d, ack), FramesFrom(n, bs)) == bs
    decreases |bs|
  {
    hide Mul, Mask, Marks, Has, Rem, Wire, Receive, Read, Valid, Drained, Holding;
    DrainedValid(sh, n, d, ack);
    if bs != [] {
      HoldNext(sh, n, d, ack, bs[0]);
      ReadHeld(sh, n, bs[0]);
      HearsAll(sh, n + 1, bs[0], true, bs[1..]);
      assert FramesFrom(n, bs)[1..] == FramesFrom(n + 1, bs[1..]);
      assert [bs[0]] + bs[1..] == bs;
    }
  }

  /**
   * After 4096 messages, the frame of the first one, repeated, is taken for one of message 4096: its
   * byte is handed out once more.
   */
  lemma {:induction false} OldFrameIsTakenForNew(sh: Shape, bs: seq<Byte>)
    requires Tiny(sh) && |bs| == SEQS
    ensures Valid(sh, Window(0, 0, 0, false, false))
    ensures var fs := FramesFrom(0, bs) + [FramesFrom(0, bs)[0]];
      && (forall i :: 0 <= i < |fs| ==> FrameOk(sh, fs[i]))
      && Hear(sh, Window(0, 0, 0, false, false), fs) == bs + [bs[0]]
  {
    hide Hear, Rem;
    var fs := FramesFrom(0, bs) + [FramesFrom(0, bs)[0]];
    WireOfAll();
    WireSmall(0);
    assert fs == FramesFrom(0, bs + [bs[0]]);
    HearsAll(sh, 0, 0, false, bs + [bs[0]]);
  }
}
