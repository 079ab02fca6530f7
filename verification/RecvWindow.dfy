/**
 * The receive window as a list of slots counted from its base. The class RecvWindowImpl.RecvWindow
 * keeps the same slots in circular arrays.
 */
module RecvWindow {
  import opened Arith
  import opened AckVec
  import opened SeqNum
  import opened Messages
  import opened Memory
  import S = SendWindow

  /** Bytes stored, segments stored, the vector that completes the message, its buffer, and whether an ack is due. */
  datatype Slot = Slot(len: nat, cur: Vec, full: Vec, data: seq<Byte>, ack: bool)

  /**
   * base is the number of slots[0]; slide counts messages read out since the base last moved; the
   * next byte to read is byte copyOfs of message copySn.
   */
  datatype RecvWnd = RecvWnd(base: nat, size: nat, slide: nat, copySn: nat, copyOfs: nat, slots: seq<Slot>,
                             isa: Time, isaSn: nat, isaOn: bool)

  /** A data segment with the header fields that place it. */
  datatype Frame = Frame(sn: nat, seg: nat, count: nat, data: seq<Byte>)

  /**
   * What the code relies on to stay inside its buffers and for its shifts to be defined; nothing in
   * arq.h enforces it. SegmentInsideIff says why the segment number is bounded so.
   */
  predicate FrameOk(sh: Shape, f: Frame) {
    f.sn < SEQS && f.seg < sh.segs && f.count < 32 && |f.data| <= sh.segLen
  }

  /** The place of a segment is inside the slot of its message exactly for the segments a message has. */
  lemma {:induction false} SegmentInsideIff(sh: Shape, seg: nat)
    requires sh.Valid()
    ensures Mul(seg, sh.segLen) + sh.segLen <= sh.MsgLen() <==> seg < sh.segs
  {
    if seg < sh.segs {
      MulOrder(seg, sh.segs, sh.segLen);
    } else if seg > sh.segs {
      MulOrder(sh.segs, seg, sh.segLen);
    }
  }

  /** `(arq_uint16_t)((1u << count) - 1)`: 16 bits of the vector that completes a message. */
  function CountVec(count: nat): (v: Vec)
    requires count < 32
  {
    MaskIsVec(Min(count, 16));
    Mask(Min(count, 16))
  }

  /** Number of marks below n. */
  function Marks(v: nat, n: nat): (c: nat)
    ensures c <= n
  {
    if n == 0 then 0 else Marks(v, n - 1) + (if Has(v, n - 1) then 1 else 0)
  }

  ghost predicate SlotOk(sh: Shape, s: Slot) {
    |s.data| == sh.MsgLen() && Within(s.cur, sh.segs) && s.len <= Mul(Marks(s.cur, sh.segs), sh.segLen)
  }

  /** Every state the operations can reach, whatever frames arrive. */
  ghost predicate Valid(sh: Shape, w: RecvWnd) {
    && sh.Valid()
    && w.base < SEQS && w.copySn < SEQS && w.isaSn < SEQS
    && w.size <= sh.cap && |w.slots| == sh.cap
    && w.copySn == Wire(w.base + w.slide)
    && w.copyOfs <= w.slots[CopyPlace(sh, w)].len
    && forall j :: 0 <= j < sh.cap ==> SlotOk(sh, w.slots[j])
  }

  /** Place of the slot being read. */
  function CopyPlace(sh: Shape, w: RecvWnd): (j: nat)
    requires sh.cap > 0
    ensures j < sh.cap
  {
    Rem(w.slide, sh.cap)
  }

  function Place(sh: Shape, w: RecvWnd, sn: nat): (j: nat)
    requires sh.cap > 0 && sn < SEQS && w.base < SEQS
    ensures j < sh.cap
  {
    Rem(Ahead(sn, w.base), sh.cap)
  }

  // ---- An arriving segment ----

  /** `(seq - base + 1) % 4096`, the window size that would reach message sn. */
  function NewSize(w: RecvWnd, sn: nat): (n: nat)
    requires sn < SEQS && w.base < SEQS
    ensures n < SEQS
  {
    Wire(Ahead(sn, w.base) + 1)
  }

  /** Message sn is out of reach, even after sliding past the messages already read. */
  predicate OutOfReach(sh: Shape, w: RecvWnd, sn: nat)
    requires sn < SEQS && w.base < SEQS
  {
    NewSize(w, sn) > sh.cap && !(w.slide <= NewSize(w, sn) <= w.slide + sh.cap)
  }

  /** The slots as seen from k places on. */
  function Rotate(slots: seq<Slot>, k: nat): (r: seq<Slot>)
    requires k < |slots|
    ensures |r| == |slots|
    ensures forall j :: 0 <= j < |slots| ==> r[j] == slots[if k + j < |slots| then k + j else k + j - |slots|]
  {
    seq(|slots|, j requires 0 <= j < |slots| => slots[if k + j < |slots| then k + j else k + j - |slots|])
  }

  /** Makes room for message sn: slides if the window would grow past its capacity, else grows. */
  function Reach(sh: Shape, w: RecvWnd, sn: nat): (r: RecvWnd)
    requires sh.cap > 0 && |w.slots| == sh.cap && sn < SEQS && w.base < SEQS && !OutOfReach(sh, w, sn)
    ensures r.base < SEQS && |r.slots| == sh.cap
  {
    var n := NewSize(w, sn);
    if n > sh.cap then
      w.(size := n - w.slide, base := Wire(w.base + w.slide), slide := 0, slots := Rotate(w.slots, CopyPlace(sh, w)))
    else
      w.(size := Max(w.size, n))
  }

  function Stored(sh: Shape, s: Slot, f: Frame): Slot
    requires sh.Valid() && FrameOk(sh, f) && |s.data| == sh.MsgLen()
  {
    MarkIsVec(s.cur, f.seg);
    MulOrder(f.seg, sh.segs, sh.segLen);
    Slot(s.len + |f.data|, Mark(s.cur, f.seg), CountVec(f.count),
         Put(s.data, Mul(f.seg, sh.segLen), f.data), s.ack || f.seg + 1 == f.count)
  }

  /** A segment arrives. */
  function Receive(sh: Shape, w: RecvWnd, f: Frame, delay: Time): RecvWnd
    requires Valid(sh, w) && FrameOk(sh, f)
  {
    if OutOfReach(sh, w, f.sn) then w
    else
      var r := Reach(sh, w, f.sn);
      var j := Place(sh, r, f.sn);
      var s := r.slots[j];
      if Has(s.cur, f.seg) then
        r.(slots := r.slots[j := s.(ack := true)])
      else
        ReachSlots(sh, w, f.sn);
        var r' := r.(slots := r.slots[j := Stored(sh, s, f)]);
        if f.seg + 1 == f.count then r'.(isaOn := false) else r'.(isa := delay, isaSn := f.sn, isaOn := true)
  }

  /** Bytes taken from the segment: none when it is out of reach or already stored. */
  function Taken(sh: Shape, w: RecvWnd, f: Frame): nat
    requires Valid(sh, w) && FrameOk(sh, f)
  {
    if OutOfReach(sh, w, f.sn) || Has(Reach(sh, w, f.sn).slots[Place(sh, Reach(sh, w, f.sn), f.sn)].cur, f.seg) then 0
    else |f.data|
  }

  lemma {:induction false} ReachSlots(sh: Shape, w: RecvWnd, sn: nat)
    requires Valid(sh, w) && sn < SEQS && !OutOfReach(sh, w, sn)
    ensures forall j :: 0 <= j < sh.cap ==> SlotOk(sh, Reach(sh, w, sn).slots[j])
  {
    hide Rem, Mul, Marks, Has;
  }

  // ---- Reading ----

  predicate Readable(s: Slot) {
    s.len != 0 && s.cur == s.full
  }

  function Emptied(sh: Shape, s: Slot): Slot
    requires sh.Valid()
  {
    MaskIsVec(sh.segs);
    s.(len := 0, cur := 0, full := sh.FullVec())
  }

  /** The window once the message being read is used up. */
  function NextMessage(sh: Shape, w: RecvWnd): RecvWnd
    requires sh.Valid() && |w.slots| == sh.cap
  {
    var j := CopyPlace(sh, w);
    w.(slots := w.slots[j := Emptied(sh, w.slots[j])], copyOfs := 0, copySn := Wire(w.copySn + 1), slide := w.slide + 1)
  }

  /** Reading at most max bytes from at most n messages; the window left and the bytes read. */
  function ReadMessages(sh: Shape, w: RecvWnd, max: nat, n: nat): (r: (RecvWnd, seq<Byte>))
    requires Valid(sh, w)
    ensures |r.1| <= max
    decreases n
  {
    var s := w.slots[CopyPlace(sh, w)];
    if max == 0 || n == 0 || !Readable(s) then (w, [])
    else
      SlotFits(sh, s);
      var c := Min(max, s.len - w.copyOfs);
      var bytes := s.data[w.copyOfs .. w.copyOfs + c];
      if w.copyOfs + c < s.len then (w.(copyOfs := w.copyOfs + c), bytes)
      else
        NextMessageValid(sh, w);
        var (w', rest) := ReadMessages(sh, NextMessage(sh, w), max - c, n - 1);
        (w', bytes + rest)
  }

  function Read(sh: Shape, w: RecvWnd, max: nat): (RecvWnd, seq<Byte>)
    requires Valid(sh, w)
  {
    ReadMessages(sh, w, max, w.size)
  }

  lemma {:induction false} SlotFits(sh: Shape, s: Slot)
    requires SlotOk(sh, s)
    ensures s.len <= sh.MsgLen()
  {
    if Marks(s.cur, sh.segs) < sh.segs { MulOrder(Marks(s.cur, sh.segs), sh.segs, sh.segLen); }
  }

  lemma {:induction false} MarksZero(n: nat)
    ensures Marks(0, n) == 0
  {
    if n > 0 {
      MarksZero(n - 1);
      HasZero(n - 1);
    }
  }

  lemma {:induction false} NextMessageValid(sh: Shape, w: RecvWnd)
    requires Valid(sh, w)
    ensures Valid(sh, NextMessage(sh, w))
  {
    hide Mul, Marks, Has;
    WireNext(w.base, w.slide);
    forall j: nat ensures !Has(0, j) { HasZero(j); }
  }

  lemma {:induction false} WireNext(a: nat, b: nat)
    ensures Wire(Wire(a + b) + 1) == Wire(a + (b + 1))
  {
    RemAdd(a + b, 1, SEQS);
  }

  // ---- Acknowledging ----

  /** The first place from j on whose acknowledgement is due, or the size of the window. */
  function FirstDue(w: RecvWnd, j: nat): (k: nat)
    requires w.size <= |w.slots| && j <= w.size
    ensures j <= k <= w.size
    ensures forall i :: j <= i < k ==> !w.slots[i].ack
    ensures k < w.size ==> w.slots[k].ack
    decreases w.size - j
  {
    if j == w.size || w.slots[j].ack then j else FirstDue(w, j + 1)
  }

  function SendAck(w: RecvWnd): (RecvWnd, S.AckHdr)
    requires w.size <= |w.slots|
  {
    var k := FirstDue(w, 0);
    if k == w.size then (w, S.NoAck)
    else (w.(slots := w.slots[k := w.slots[k].(ack := false)]), S.AckHdr(Wire(w.base + k), w.slots[k].cur))
  }

  /** The inter-segment timer: when it runs out, the message it watches is due an acknowledgement. */
  function InterSegment(sh: Shape, w: RecvWnd, dt: Time): RecvWnd
    requires Valid(sh, w)
  {
    if !w.isaOn then w
    else
      var isa := SubSat(w.isa, dt);
      if isa > 0 then w.(isa := isa)
      else
        var j := Place(sh, w, w.isaSn);
        w.(isa := 0, isaOn := false, slots := w.slots[j := w.slots[j].(ack := true)])
  }

  // ---- Polling ----

  datatype Arrival = Nothing | Arrived(f: Frame)

  predicate ArrivalOk(sh: Shape, a: Arrival) {
    a.Arrived? ==> FrameOk(sh, a.f)
  }

  function Arrive(sh: Shape, w: RecvWnd, a: Arrival, delay: Time): RecvWnd
    requires Valid(sh, w) && ArrivalOk(sh, a)
  {
    if a.Arrived? then Receive(sh, w, a.f, delay) else w
  }

  /** One call of the receive poll: an arriving segment, the inter-segment timer, an acknowledgement. */
  function Poll(sh: Shape, w: RecvWnd, a: Arrival, dt: Time, delay: Time, room: bool): (RecvWnd, S.AckHdr)
    requires Valid(sh, w) && ArrivalOk(sh, a)
  {
    ArriveValid(sh, w, a, delay);
    var w' := InterSegment(sh, Arrive(sh, w, a, delay), dt);
    InterSegmentValid(sh, Arrive(sh, w, a, delay), dt);
    if room then SendAck(w') else (w', S.NoAck)
  }

  // ---- Every operation keeps the window inside its buffers ----

  lemma {:induction false} ReachValid(sh: Shape, w: RecvWnd, sn: nat)
    requires Valid(sh, w) && sn < SEQS && !OutOfReach(sh, w, sn)
    ensures Valid(sh, Reach(sh, w, sn))
  {
    hide Mul, Marks, Has;
    ReachSlots(sh, w, sn);
    if NewSize(w, sn) > sh.cap {
      assert CopyPlace(sh, Reach(sh, w, sn)) == 0;
    }
  }

  /** Storing keeps a slot within its buffer. */
  lemma {:induction false} StoredOk(sh: Shape, s: Slot, f: Frame)
    requires sh.Valid() && FrameOk(sh, f) && SlotOk(sh, s) && !Has(s.cur, f.seg)
    ensures SlotOk(sh, Stored(sh, s, f))
  {
    MarksMark(s.cur, f.seg, sh.segs);
    forall i: nat | Has(Mark(s.cur, f.seg), i) ensures i < sh.segs { HasMark(s.cur, f.seg, i); }
  }

  lemma {:induction false} MarksMark(v: nat, i: nat, n: nat)
    requires !Has(v, i)
    ensures Marks(Mark(v, i), n) == Marks(v, n) + if i < n then 1 else 0
  {
    if n > 0 {
      MarksMark(v, i, n - 1);
      HasMark(v, i, n - 1);
    }
  }

  lemma {:induction false} ReceiveValid(sh: Shape, w: RecvWnd, f: Frame, delay: Time)
    requires Valid(sh, w) && FrameOk(sh, f)
    ensures Valid(sh, Receive(sh, w, f, delay))
  {
    hide Mul, Marks, Has, Rem, SlotOk;
    if !OutOfReach(sh, w, f.sn) {
      ReachValid(sh, w, f.sn);
      var r := Reach(sh, w, f.sn);
      var j := Place(sh, r, f.sn);
      var s := r.slots[j];
      var r' := Receive(sh, w, f, delay);
      if !Has(s.cur, f.seg) {
        StoredOk(sh, s, f);
      } else {
        AckOk(sh, s, true);
      }
      assert CopyPlace(sh, r') == CopyPlace(sh, r);
    }
  }

  lemma {:induction false} AckOk(sh: Shape, s: Slot, ack: bool)
    requires SlotOk(sh, s)
    ensures SlotOk(sh, s.(ack := ack))
  {
  }

  lemma {:induction false} ArriveValid(sh: Shape, w: RecvWnd, a: Arrival, delay: Time)
    requires Valid(sh, w) && ArrivalOk(sh, a)
    ensures Valid(sh, Arrive(sh, w, a, delay))
  {
    if a.Arrived? { ReceiveValid(sh, w, a.f, delay); }
  }

  lemma {:induction false} InterSegmentValid(sh: Shape, w: RecvWnd, dt: Time)
    requires Valid(sh, w)
    ensures Valid(sh, InterSegment(sh, w, dt))
  {
    hide Mul, Marks, Has, Rem, SlotOk;
    var w' := InterSegment(sh, w, dt);
    AckOk(sh, w.slots[Place(sh, w, w.isaSn)], true);
    assert CopyPlace(sh, w') == CopyPlace(sh, w);
  }

  lemma {:induction false} SendAckValid(sh: Shape, w: RecvWnd)
    requires Valid(sh, w)
    ensures Valid(sh, SendAck(w).0)
  {
    hide Mul, Marks, Has, Rem, SlotOk;
    var k := FirstDue(w, 0);
    if k < w.size { AckOk(sh, w.slots[k], false); }
    assert CopyPlace(sh, SendAck(w).0) == CopyPlace(sh, w);
  }

  lemma {:induction false} ReadValid(sh: Shape, w: RecvWnd, max: nat, n: nat)
    requires Valid(sh, w)
    ensures Valid(sh, ReadMessages(sh, w, max, n).0)
    decreases n
  {
    hide Mul, Marks, Has, Rem, SlotOk;
    var s := w.slots[CopyPlace(sh, w)];
    if max > 0 && n > 0 && Readable(s) {
      SlotFits(sh, s);
      var c := Min(max, s.len - w.copyOfs);
      if w.copyOfs + c >= s.len {
        NextMessageValid(sh, w);
        ReadValid(sh, NextMessage(sh, w), max - c, n - 1);
      } else {
        assert CopyPlace(sh, w.(copyOfs := w.copyOfs + c)) == CopyPlace(sh, w);
      }
    }
  }
}
