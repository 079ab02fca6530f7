/** What the receive window holds, in terms of the messages that were sent. */
module RecvInvariant {
  import opened Arith
  import opened AckVec
  import opened SeqNum
  import opened Messages
  import opened Memory
  import opened RecvWindow

  // ---- One slot and one message ----

  /** Bytes of the segments below k that v marks. */
  function StoredLen(m: seq<Byte>, v: nat, k: nat, segLen: nat): nat
    requires segLen > 0 && k <= SegCount(|m|, segLen)
  {
    if k == 0 then 0
    else
      SegCountIs(|m|, segLen, k - 1);
      StoredLen(m, v, k - 1, segLen) + (if Has(v, k - 1) then |Segment(m, k - 1, segLen)| else 0)
  }

  /** Segment i of m lies at its place in data. */
  ghost predicate HasSegment(data: seq<Byte>, m: seq<Byte>, i: nat, segLen: nat)
    requires segLen > 0 && i < SegCount(|m|, segLen)
  {
    SegCountIs(|m|, segLen, i);
    var at, p := Mul(i, segLen), Segment(m, i, segLen);
    at + |p| <= |data| && data[at .. at + |p|] == p
  }

  /** A slot that holds nothing. */
  ghost predicate Blank(sh: Shape, s: Slot) {
    s.len == 0 && s.cur == 0 && s.full == sh.FullVec()
  }

  /** A slot that holds the marked segments of message m and nothing else. */
  ghost predicate Collects(sh: Shape, s: Slot, m: seq<Byte>)
    requires sh.segLen > 0
  {
    var n := SegCount(|m|, sh.segLen);
    && n <= 16 && s.full == Mask(n) && Within(s.cur, n)
    && s.len == StoredLen(m, s.cur, n, sh.segLen)
    && forall i: nat :: i < n && Has(s.cur, i) ==> HasSegment(s.data, m, i, sh.segLen)
  }

  ghost predicate Holds(sh: Shape, s: Slot, m: seq<Byte>)
    requires sh.segLen > 0
  {
    if s.cur == 0 then Blank(sh, s) else Collects(sh, s, m)
  }

  lemma {:induction false} StoredAll(m: seq<Byte>, v: nat, k: nat, segLen: nat)
    requires segLen > 0 && k <= SegCount(|m|, segLen) && Full(v, k)
    ensures StoredLen(m, v, k, segLen) == Min(Mul(k, segLen), |m|)
  {
    if k > 0 {
      SegCountIs(|m|, segLen, k - 1);
      StoredAll(m, v, k - 1, segLen);
    }
  }

  lemma {:induction false} StoredNone(m: seq<Byte>, k: nat, segLen: nat)
    requires segLen > 0 && k <= SegCount(|m|, segLen)
    ensures StoredLen(m, 0, k, segLen) == 0
  {
    if k > 0 {
      StoredNone(m, k - 1, segLen);
      HasZero(k - 1);
    }
  }

  lemma {:induction false} StoredMark(m: seq<Byte>, v: nat, i: nat, k: nat, segLen: nat)
    requires segLen > 0 && i < SegCount(|m|, segLen) && k <= SegCount(|m|, segLen) && !Has(v, i)
    ensures Mul(i, segLen) <= |m|
    ensures StoredLen(m, Mark(v, i), k, segLen)
      == StoredLen(m, v, k, segLen) + if i < k then |Segment(m, i, segLen)| else 0
  {
    SegCountIs(|m|, segLen, i);
    if k > 0 {
      StoredMark(m, v, i, k - 1, segLen);
      HasMark(v, i, k - 1);
    }
  }

  lemma {:induction false} StoredBytes(data: seq<Byte>, m: seq<Byte>, k: nat, segLen: nat)
    requires segLen > 0 && k <= SegCount(|m|, segLen) && |m| <= |data|
    requires forall i: nat :: i < k ==> HasSegment(data, m, i, segLen)
    ensures var n := Min(Mul(k, segLen), |m|); data[..n] == m[..n]
  {
    if k > 0 {
      StoredBytes(data, m, k - 1, segLen);
      SegCountIs(|m|, segLen, k - 1);
      assert HasSegment(data, m, k - 1, segLen);
      var a, n := Mul(k - 1, segLen), Min(Mul(k, segLen), |m|);
      assert data[..n] == data[..a] + data[a..n];
      assert m[..n] == m[..a] + m[a..n];
    }
  }

  /** A slot whose vector is full holds exactly the source message. */
  lemma {:induction false} CompleteSlot(sh: Shape, s: Slot, m: seq<Byte>)
    requires sh.segLen > 0 && Holds(sh, s, m) && |m| <= |s.data| && sh.segs > 0 && s.cur == s.full
    ensures s.len == |m| && s.data[..|m|] == m
    ensures Full(s.cur, SegCount(|m|, sh.segLen))
  {
    var n := SegCount(|m|, sh.segLen);
    if s.cur == 0 {
      MaskOrder(0, sh.segs);
    } else {
      LessThanMask(s.cur, n);
      StoredAll(m, s.cur, n, sh.segLen);
      SegCountIs(|m|, sh.segLen, n);
      StoredBytes(s.data, m, n, sh.segLen);
    }
  }

  /** Storing a segment of m keeps the slot a collection of segments of m. */
  lemma {:induction false} StoreSegment(sh: Shape, s: Slot, m: seq<Byte>, f: Frame)
    requires sh.Valid() && |s.data| == sh.MsgLen() && Holds(sh, s, m) && 0 < |m| <= sh.MsgLen()
    requires FrameOk(sh, f) && f.seg < f.count == SegCount(|m|, sh.segLen) && !Has(s.cur, f.seg)
    requires Mul(f.seg, sh.segLen) <= |m| && f.data == Segment(m, f.seg, sh.segLen)
    ensures Stored(sh, s, f).cur != 0 && Holds(sh, Stored(sh, s, f), m)
  {
    var s', n, S := Stored(sh, s, f), f.count, sh.segLen;
    SegCountBounds(|m|, sh);
    MulOrder(f.seg, sh.segs, S);
    HasMark(s.cur, f.seg, f.seg);
    if s'.cur == 0 { HasZero(f.seg); }
    StoredMark(m, s.cur, f.seg, n, S);
    if s.cur == 0 {
      StoredNone(m, n, S);
    }
    forall i: nat | Has(s'.cur, i) ensures i < n {
      HasMark(s.cur, f.seg, i);
      if s.cur == 0 { HasZero(i); }
    }
    forall i: nat | i < n && Has(s'.cur, i) ensures HasSegment(s'.data, m, i, S) {
      HasMark(s.cur, f.seg, i);
      if s.cur == 0 { HasZero(i); }
      WrittenSegment(s.data, m, f.seg, i, S);
    }
  }

  /** Writing a stretch leaves what lies before or after it alone. */
  lemma {:induction false} WrittenElsewhere(data: seq<Byte>, at: nat, p: seq<Byte>, from: nat, q: seq<Byte>)
    requires at + |p| <= |data| && from + |q| <= |data| && data[from .. from + |q|] == q
    requires from + |q| <= at || at + |p| <= from
    ensures Put(data, at, p)[from .. from + |q|] == q
  {
    var r := Put(data, at, p);
    var y := r[from .. from + |q|];
    forall k | 0 <= k < |q| ensures y[k] == q[k] {
      assert data[from .. from + |q|][k] == q[k];
    }
  }

  /** Writing segment g at its place puts it there and leaves the other segments alone. */
  lemma {:induction false} WrittenSegment(data: seq<Byte>, m: seq<Byte>, g: nat, i: nat, S: nat)
    requires S > 0 && g < SegCount(|m|, S) && i < SegCount(|m|, S) && |m| <= |data|
    requires i == g || HasSegment(data, m, i, S)
    ensures Mul(g, S) + |SegmentOf(m, g, S)| <= |data|
    ensures HasSegment(Put(data, Mul(g, S), SegmentOf(m, g, S)), m, i, S)
  {
    SegCountIs(|m|, S, g);
    SegCountIs(|m|, S, i);
    if i < g { MulOrder(i, g, S); } else if g < i { MulOrder(g, i, S); }
    hide Mul, Quo;
    if i != g {
      WrittenElsewhere(data, Mul(g, S), SegmentOf(m, g, S), Mul(i, S), SegmentOf(m, i, S));
    }
  }

  function SegmentOf(m: seq<Byte>, i: nat, S: nat): seq<Byte>
    requires S > 0 && i < SegCount(|m|, S)
  {
    SegCountIs(|m|, S, i);
    Segment(m, i, S)
  }

  // ---- The window and the list of messages ----

  ghost predicate Sizes(sh: Shape, msgs: seq<seq<Byte>>) {
    forall k :: 0 <= k < |msgs| ==> 0 < |msgs[k]| <= sh.MsgLen()
  }

  /** What slot j holds when the base is message number rb: its message inside the window, nothing outside. */
  ghost predicate SlotHolds(sh: Shape, w: RecvWnd, msgs: seq<seq<Byte>>, rb: nat, j: nat)
    requires sh.segLen > 0 && j < |w.slots| && w.size + rb <= |msgs|
  {
    if w.slide <= j < w.size then Holds(sh, w.slots[j], msgs[rb + j]) else Blank(sh, w.slots[j])
  }

  /**
   * The receive-window invariant: rb is the unbounded number of the base, the read point lies inside
   * the window, and every slot that is not blank collects segments of the one message it stands for.
   */
  ghost predicate Inv(sh: Shape, w: RecvWnd, msgs: seq<seq<Byte>>, rb: nat) {
    && Valid(sh, w) && Sizes(sh, msgs)
    && w.base == Wire(rb)
    && w.slide <= w.size && rb + w.size <= |msgs|
    && (forall j: nat :: j < |w.slots| ==> SlotHolds(sh, w, msgs, rb, j))
    && (w.copyOfs > 0 ==> w.slide < w.size && Readable(w.slots[w.slide]) && w.copyOfs < w.slots[w.slide].len)
  }

  /** The bytes handed out: all messages before the read point, and the part of the next one. */
  function Delivered(w: RecvWnd, msgs: seq<seq<Byte>>, rb: nat): seq<Byte>
    requires rb + w.slide <= |msgs|
    requires w.copyOfs > 0 ==> rb + w.slide < |msgs| && w.copyOfs <= |msgs[rb + w.slide]|
  {
    Flatten(msgs[..rb + w.slide]) + if w.copyOfs > 0 then msgs[rb + w.slide][..w.copyOfs] else []
  }

  /** Segment seg of message k has arrived: the message was read out, or the segment is stored. */
  predicate Got(w: RecvWnd, rb: nat, k: nat, seg: nat) {
    k < rb + w.slide || (k < rb + w.size && k - rb < |w.slots| && Has(w.slots[k - rb].cur, seg))
  }

  /** f carries segment f.seg of message k. */
  ghost predicate Genuine(sh: Shape, f: Frame, msgs: seq<seq<Byte>>, k: nat)
    requires sh.segLen > 0
  {
    && k < |msgs| && f.sn == Wire(k)
    && f.count == SegCount(|msgs[k]|, sh.segLen) && f.seg < f.count
    && f.data == SegmentOf(msgs[k], f.seg, sh.segLen)
  }

  lemma {:induction false} GenuineOk(sh: Shape, f: Frame, msgs: seq<seq<Byte>>, k: nat)
    requires sh.Valid() && Sizes(sh, msgs) && Genuine(sh, f, msgs, k)
    ensures FrameOk(sh, f) && Mul(f.seg, sh.segLen) <= |msgs[k]|
  {
    SegCountBounds(|msgs[k]|, sh);
    SegCountIs(|msgs[k]|, sh.segLen, f.seg);
  }

  /** Message k was read out, or just precedes the base: the code would take its segments for those of a later message. */
  predicate Late(w: RecvWnd, rb: nat, k: nat) {
    rb <= k + 1 && k < rb + w.slide
  }

  /** Message k is not so old or so far ahead that its 12-bit number stands for one within reach. */
  predicate InAge(sh: Shape, w: RecvWnd, rb: nat, k: nat) {
    rb + w.slide + sh.cap <= k + SEQS && k + 1 < rb + SEQS
  }

  // ---- Arrival ----

  /** The size that would reach message k, and whether k is within reach. */
  lemma {:induction false} ReachOf(sh: Shape, w: RecvWnd, rb: nat, k: nat)
    requires sh.Valid() && w.base == Wire(rb) && InAge(sh, w, rb, k) && !Late(w, rb, k) && w.slide <= sh.cap
    ensures k + 1 < rb ==> OutOfReach(sh, w, Wire(k))
    ensures k + 1 >= rb ==> k >= rb + w.slide && NewSize(w, Wire(k)) == k - rb + 1
    ensures k + 1 >= rb ==> (OutOfReach(sh, w, Wire(k)) <==> k >= rb + w.slide + sh.cap)
  {
    if k + 1 < rb {
      var d := rb - 1 - k;
      WireAhead(k, d + 1);
    } else {
      WireAhead(rb, k - rb);
    }
  }

  /** The unbounded number of the base once room is made for message k. */
  function NewBase(sh: Shape, w: RecvWnd, rb: nat, k: nat): nat {
    if k >= rb + sh.cap then rb + w.slide else rb
  }

  /** What making room for message k keeps, the base being number rb' afterwards. */
  ghost predicate MadeRoom(sh: Shape, w: RecvWnd, msgs: seq<seq<Byte>>, rb: nat, k: nat, r: RecvWnd, rb': nat) {
    && Inv(sh, r, msgs, rb')
    && rb' + r.slide == rb + w.slide && r.copyOfs == w.copyOfs
    && rb' + r.slide <= k < rb' + r.size && Place(sh, r, Wire(k)) == k - rb'
    && (forall q: nat, seg: nat :: Got(w, rb, q, seg) <==> Got(r, rb', q, seg))
    && rb + w.size <= rb' + r.size
  }

  lemma {:induction false} GrowKeeps(sh: Shape, w: RecvWnd, msgs: seq<seq<Byte>>, rb: nat, k: nat)
    requires Inv(sh, w, msgs, rb) && k < |msgs| && rb + w.slide <= k < rb + sh.cap
    ensures MadeRoom(sh, w, msgs, rb, k, w.(size := Max(w.size, k - rb + 1)), rb)
  {
    hide Mul, Marks, Has, Holds, Blank, Rem, SlotOk;
    var r := w.(size := Max(w.size, k - rb + 1));
    WireAhead(rb, k - rb);
    RemSmall(k - rb, sh.cap);
    assert CopyPlace(sh, r) == CopyPlace(sh, w);
    forall j: nat | j < |r.slots| ensures SlotHolds(sh, r, msgs, rb, j) {
      assert SlotHolds(sh, w, msgs, rb, j);
      BlankHolds(sh, r.slots[j], r, msgs, rb, j);
    }
    forall q: nat, seg: nat | Got(r, rb, q, seg) ensures Got(w, rb, q, seg) {
      if q >= rb + w.size { BlankHasNone(sh, w, msgs, rb, q - rb, seg); }
    }
  }

  lemma {:induction false} BlankHasNone(sh: Shape, w: RecvWnd, msgs: seq<seq<Byte>>, rb: nat, j: nat, seg: nat)
    requires Inv(sh, w, msgs, rb) && j < |w.slots| && !(w.slide <= j < w.size)
    ensures !Has(w.slots[j].cur, seg)
  {
    hide Mul, Marks, Rem, SlotOk;
    assert SlotHolds(sh, w, msgs, rb, j);
    HasZero(seg);
  }

  lemma {:induction false} SlideKeeps(sh: Shape, w: RecvWnd, msgs: seq<seq<Byte>>, rb: nat, k: nat, r: RecvWnd)
    requires Inv(sh, w, msgs, rb) && k < |msgs| && rb + sh.cap <= k < rb + w.slide + sh.cap
    requires Valid(sh, r) && r == w.(size := k + 1 - rb - w.slide, base := Wire(rb + w.slide), slide := 0, slots := r.slots)
    requires forall j: nat :: j < sh.cap ==> r.slots[j] == w.slots[if w.slide + j < sh.cap then w.slide + j else w.slide + j - sh.cap]
    ensures MadeRoom(sh, w, msgs, rb, k, r, rb + w.slide)
  {
    hide Mul, Marks, Has, Holds, Blank, Rem, SlotOk;
    var rb' := rb + w.slide;
    WireAhead(rb', k - rb');
    RemSmall(k - rb', sh.cap);
    forall j: nat | j < |r.slots| ensures SlotHolds(sh, r, msgs, rb', j) {
      assert SlotHolds(sh, w, msgs, rb, if w.slide + j < sh.cap then w.slide + j else w.slide + j - sh.cap);
      BlankHolds(sh, r.slots[j], r, msgs, rb', j);
    }
    forall q: nat, seg: nat ensures Got(w, rb, q, seg) <==> Got(r, rb', q, seg) {
      var j := q - rb';
      if 0 <= j < sh.cap {
        var i := if w.slide + j < sh.cap then w.slide + j else w.slide + j - sh.cap;
        assert r.slots[j] == w.slots[i];
        if i < w.slide || i >= w.size { BlankHasNone(sh, w, msgs, rb, i, seg); }
      }
    }
  }

  /** Making room for a message keeps the invariant and the read point. */
  lemma {:induction false} ReachKeeps(sh: Shape, w: RecvWnd, msgs: seq<seq<Byte>>, rb: nat, k: nat)
    requires Inv(sh, w, msgs, rb) && InAge(sh, w, rb, k)
    requires k < |msgs| && rb + w.slide <= k < rb + w.slide + sh.cap
    ensures !OutOfReach(sh, w, Wire(k))
    ensures MadeRoom(sh, w, msgs, rb, k, Reach(sh, w, Wire(k)), NewBase(sh, w, rb, k))
  {
    hide Mul, Marks, Has, Holds, Blank, Rem, SlotOk, SlotHolds, MadeRoom;
    ReachOf(sh, w, rb, k);
    if k < rb + sh.cap {
      GrowKeeps(sh, w, msgs, rb, k);
    } else {
      ReachValid(sh, w, Wire(k));
      RemAdd(rb, w.slide, SEQS);
      forall j: nat | j < sh.cap ensures Reach(sh, w, Wire(k)).slots[j] == w.slots[if w.slide + j < sh.cap then w.slide + j else w.slide + j - sh.cap] {
        SlideSlot(sh, w, Wire(k), j);
      }
      SlideKeeps(sh, w, msgs, rb, k, Reach(sh, w, Wire(k)));
    }
  }

  lemma {:induction false} BlankHolds(sh: Shape, s: Slot, r: RecvWnd, msgs: seq<seq<Byte>>, rb: nat, j: nat)
    requires sh.segLen > 0 && j < |r.slots| && r.size + rb <= |msgs| && s == r.slots[j]
    ensures Blank(sh, s) ==> SlotHolds(sh, r, msgs, rb, j)
  {
  }

  /** After a slide, slot j is the one that was slide places further on. */
  lemma {:induction false} SlideSlot(sh: Shape, w: RecvWnd, sn: nat, j: nat)
    requires Valid(sh, w) && w.slide <= sh.cap && sn < SEQS && !OutOfReach(sh, w, sn) && NewSize(w, sn) > sh.cap && j < sh.cap
    ensures Reach(sh, w, sn).slots[j] == w.slots[if w.slide + j < sh.cap then w.slide + j else w.slide + j - sh.cap]
  {
    if w.slide == sh.cap { assert Rem(0, sh.cap) == 0; }
  }

  /** A slot that was changed without moving the window. */
  lemma {:induction false} SlotReplaced(sh: Shape, r: RecvWnd, r': RecvWnd, msgs: seq<seq<Byte>>, rb: nat, j: nat, s: Slot)
    requires Inv(sh, r, msgs, rb) && r.slide <= j < r.size && SlotOk(sh, s) && Holds(sh, s, msgs[rb + j])
    requires r.copyOfs > 0 && j == r.slide ==> s.(ack := false) == r.slots[j].(ack := false)
    requires r' == r.(slots := r.slots[j := s], isa := r'.isa, isaSn := r'.isaSn, isaOn := r'.isaOn) && r'.isaSn < SEQS
    ensures Inv(sh, r', msgs, rb)
  {
    hide Mul, Marks, Has, Holds, Blank, Rem, SlotOk;
    forall q: nat | q < |r'.slots| ensures SlotHolds(sh, r', msgs, rb, q) {
      assert SlotHolds(sh, r, msgs, rb, q);
    }
    assert CopyPlace(sh, r') == CopyPlace(sh, r);
    if r.copyOfs > 0 { CopyPlaceIs(sh, r); }
  }

  lemma {:induction false} CopyPlaceIs(sh: Shape, w: RecvWnd)
    requires sh.cap > 0 && w.slide < sh.cap
    ensures CopyPlace(sh, w) == w.slide
  {
  }

  /**
   * A genuine segment that is neither late nor out of age keeps the invariant and the read point,
   * loses nothing that had arrived, and if it is within reach it has arrived afterwards, and nothing
   * else has.
   */
  lemma {:induction false} ReceiveKeeps(sh: Shape, w: RecvWnd, msgs: seq<seq<Byte>>, rb: nat, f: Frame, k: nat, delay: Time)
    requires Inv(sh, w, msgs, rb) && Genuine(sh, f, msgs, k) && InAge(sh, w, rb, k) && !Late(w, rb, k)
    ensures FrameOk(sh, f)
    ensures var r, rb' := Receive(sh, w, f, delay), if rb + w.slide <= k < rb + w.slide + sh.cap then NewBase(sh, w, rb, k) else rb;
      && Inv(sh, r, msgs, rb')
      && rb' + r.slide == rb + w.slide && r.copyOfs == w.copyOfs
      && (forall q: nat, seg: nat :: Got(w, rb, q, seg) ==> Got(r, rb', q, seg))
      && (forall q: nat, seg: nat :: Got(r, rb', q, seg) ==> Got(w, rb, q, seg) || (q == k && seg == f.seg))
      && (rb + w.slide <= k < rb + w.slide + sh.cap ==> Got(r, rb', k, f.seg))
  {
    hide Mul, Marks, Rem, Has, Holds, SlotHolds, SlotOk, StoredLen, Got;
    GenuineOk(sh, f, msgs, k);
    ReachOf(sh, w, rb, k);
    if rb + w.slide <= k < rb + w.slide + sh.cap {
      ReachKeeps(sh, w, msgs, rb, k);
      StoreAt(sh, Reach(sh, w, f.sn), msgs, NewBase(sh, w, rb, k), f, k, delay, Receive(sh, w, f, delay));
    }
  }

  lemma {:induction false} StoreAt(sh: Shape, r: RecvWnd, msgs: seq<seq<Byte>>, rb: nat, f: Frame, k: nat, delay: Time, r': RecvWnd)
    requires Inv(sh, r, msgs, rb) && Genuine(sh, f, msgs, k) && FrameOk(sh, f) && Mul(f.seg, sh.segLen) <= |msgs[k]|
    requires rb + r.slide <= k < rb + r.size
    requires var s := r.slots[k - rb];
      r' == if Has(s.cur, f.seg) then r.(slots := r.slots[k - rb := s.(ack := true)])
            else r.(slots := r.slots[k - rb := Stored(sh, s, f)], isa := r'.isa, isaSn := r'.isaSn, isaOn := r'.isaOn)
    requires r'.isaSn < SEQS
    ensures Inv(sh, r', msgs, rb)
    ensures forall q: nat, seg: nat :: Got(r', rb, q, seg) <==> Got(r, rb, q, seg) || (q == k && seg == f.seg)
  {
    hide Mul, Marks, Rem, StoredLen;
    var j := k - rb;
    var s := r.slots[j];
    assert SlotHolds(sh, r, msgs, rb, j);
    if Has(s.cur, f.seg) {
      SlotReplaced(sh, r, r', msgs, rb, j, s.(ack := true));
    } else {
      StoreSegment(sh, s, msgs[k], f);
      StoredOk(sh, s, f);
      if Readable(s) { CompleteSlot(sh, s, msgs[k]); }
      SlotReplaced(sh, r, r', msgs, rb, j, Stored(sh, s, f));
      forall q: nat, seg: nat ensures Got(r', rb, q, seg) <==> Got(r, rb, q, seg) || (q == k && seg == f.seg) {
        HasMark(s.cur, f.seg, seg);
      }
      HasMark(s.cur, f.seg, f.seg);
    }
  }
}
