/** The receive window in circular arrays, as arq__recv_wnd_t keeps it. */
module RecvWindowImpl {
  import opened Arith
  import opened AckVec
  import opened SeqNum
  import opened Messages
  import opened SendLayout
  import Memory
  import S = SendWindow
  import R = RecvWindow

  /** Slot i of the arrays. */
  function SlotAt(ms: seq<Msg>, acks: seq<bool>, buf: seq<Byte>, L: nat, i: nat): (s: R.Slot)
    requires i < |ms| == |acks| && |buf| == Mul(|ms|, L)
    ensures |s.data| == L
  {
    MulOrder(i, |ms|, L);
    R.Slot(ms[i].len, ms[i].cur, ms[i].full, buf[Mul(i, L) .. Mul(i, L) + L], acks[i])
  }

  /** Counted from base, the slots of the arrays are `slots`. */
  ghost predicate Shows(slots: seq<R.Slot>, base: nat, ms: seq<Msg>, acks: seq<bool>, buf: seq<Byte>, L: nat) {
    && |slots| == |ms| == |acks| > 0 && |buf| == Mul(|ms|, L)
    && forall j: nat :: j < |slots| ==> slots[j] == SlotAt(ms, acks, buf, L, SlotOf(base, j, |ms|))
  }

  /** The slots of the arrays, counted from base. */
  function SlotsFrom(base: nat, ms: seq<Msg>, acks: seq<bool>, buf: seq<Byte>, L: nat): (slots: seq<R.Slot>)
    requires |ms| == |acks| > 0 && |buf| == Mul(|ms|, L)
    ensures Shows(slots, base, ms, acks, buf, L)
  {
    seq(|ms|, j requires 0 <= j < |ms| => SlotAt(ms, acks, buf, L, SlotOf(base, j, |ms|)))
  }

  lemma {:induction false} BlankValid(sh: Shape, w: R.RecvWnd)
    requires sh.Valid() && |w.slots| == sh.cap && w == R.RecvWnd(0, 0, 0, 0, 0, w.slots, TIME_INFINITY, 0, false)
    requires forall j :: 0 <= j < sh.cap ==> |w.slots[j].data| == sh.MsgLen() && w.slots[j].len == 0 == w.slots[j].cur
    ensures R.Valid(sh, w)
  {
    forall j: nat ensures !Has(0, j) { HasZero(j); }
  }

  /** Moving the base turns the slots round. */
  lemma {:induction false} ShowsRotated(slots: seq<R.Slot>, base: nat, ms: seq<Msg>, acks: seq<bool>, buf: seq<Byte>, L: nat, slide: nat)
    requires Shows(slots, base, ms, acks, buf, L) && Divides(|ms|)
    ensures Shows(R.Rotate(slots, Rem(slide, |ms|)), Wire(base + slide), ms, acks, buf, L)
  {
    var cap, k := |ms|, Rem(slide, |ms|);
    var slots' := R.Rotate(slots, k);
    hide SlotAt, Mul, Rem;
    forall j: nat | j < cap ensures slots'[j] == SlotAt(ms, acks, buf, L, SlotOf(Wire(base + slide), j, cap)) {
      RotatedSlot(base, slide, j, cap);
    }
  }

  /** Rows of the buffer do not overlap: changing row i leaves the others alone. */
  lemma {:induction false} OtherRow(buf: seq<Byte>, buf': seq<Byte>, cap: nat, L: nat, i: nat, k: nat)
    requires i < cap && k < cap && i != k && |buf| == |buf'| == Mul(cap, L)
    requires forall p :: 0 <= p < |buf| && !(Mul(i, L) <= p < Mul(i, L) + L) ==> buf'[p] == buf[p]
    ensures Mul(k, L) + L <= |buf| && buf'[Mul(k, L) .. Mul(k, L) + L] == buf[Mul(k, L) .. Mul(k, L) + L]
  {
    MulOrder(k, cap, L);
    if i < k { MulOrder(i, k, L); } else { MulOrder(k, i, L); }
    hide Mul;
  }

  /** Changing one slot of the arrays changes one slot of the window. */
  lemma {:induction false} ShowsUpdated(slots: seq<R.Slot>, base: nat, ms: seq<Msg>, acks: seq<bool>, buf: seq<Byte>,
                     ms': seq<Msg>, acks': seq<bool>, buf': seq<Byte>, L: nat, j: nat)
    requires Shows(slots, base, ms, acks, buf, L) && j < |slots|
    requires |ms'| == |ms| && |acks'| == |acks| && |buf'| == |buf|
    requires var i := SlotOf(base, j, |ms|);
      && (forall k :: 0 <= k < |ms| && k != i ==> ms'[k] == ms[k] && acks'[k] == acks[k])
      && (forall p :: 0 <= p < |buf| && !(Mul(i, L) <= p < Mul(i, L) + L) ==> buf'[p] == buf[p])
    ensures Shows(slots[j := SlotAt(ms', acks', buf', L, SlotOf(base, j, |ms|))], base, ms', acks', buf', L)
  {
    SlotsDiffer(base, |ms|);
    var i := SlotOf(base, j, |ms|);
    hide Rem, Mul;
    var slots' := slots[j := SlotAt(ms', acks', buf', L, i)];
    forall q: nat | q < |slots'| ensures slots'[q] == SlotAt(ms', acks', buf', L, SlotOf(base, q, |ms'|)) {
      if q != j {
        OtherRow(buf, buf', |ms|, L, i, SlotOf(base, q, |ms|));
      }
    }
  }

  lemma {:induction false} RowWritten(x: seq<Byte>, y: seq<Byte>, row: nat, L: nat, ofs: nat, p: seq<Byte>)
    requires |y| == |x| && row + L <= |x| && ofs + |p| <= L
    requires forall k :: 0 <= k < |x| ==> y[k] == if row + ofs <= k < row + ofs + |p| then p[k - (row + ofs)] else x[k]
    ensures y[row .. row + L] == Memory.Put(x[row .. row + L], ofs, p)
  {
  }

  /** What is still to be read, together with the bytes read so far, makes up the whole reading. */
  ghost predicate Continues(sh: Shape, whole: (R.RecvWnd, seq<Byte>), w: R.RecvWnd, left: nat, n: nat, bytes: seq<Byte>)
    requires R.Valid(sh, w)
  {
    var (w', rest) := R.ReadMessages(sh, w, left, n);
    whole == (w', bytes + rest)
  }

  lemma {:induction false} ContinuesStart(sh: Shape, w: R.RecvWnd, max: nat, n: nat)
    requires R.Valid(sh, w)
    ensures Continues(sh, R.ReadMessages(sh, w, max, n), w, max, n, [])
  {
    var (w', rest) := R.ReadMessages(sh, w, max, n);
    assert [] + rest == rest;
  }

  lemma {:induction false} ContinuesDone(sh: Shape, whole: (R.RecvWnd, seq<Byte>), w: R.RecvWnd, left: nat, n: nat, bytes: seq<Byte>)
    requires R.Valid(sh, w) && Continues(sh, whole, w, left, n, bytes)
    requires left == 0 || n == 0 || !R.Readable(w.slots[R.CopyPlace(sh, w)])
    ensures whole == (w, bytes)
  {
    hide Mul, Has, Rem, R.Marks;
    assert bytes + [] == bytes;
  }

  /** One turn of the reading loop. */
  lemma {:induction false} ContinuesStep(sh: Shape, whole: (R.RecvWnd, seq<Byte>), w: R.RecvWnd, left: nat, n: nat, bytes: seq<Byte>)
    requires R.Valid(sh, w) && Continues(sh, whole, w, left, n, bytes) && left > 0 && n > 0
    requires R.Readable(w.slots[R.CopyPlace(sh, w)])
    ensures var s := w.slots[R.CopyPlace(sh, w)]; var c := Min(left, s.len - w.copyOfs);
      && w.copyOfs + c <= s.len <= |s.data|
      && var bytes' := bytes + s.data[w.copyOfs .. w.copyOfs + c];
      if w.copyOfs + c < s.len then
        c == left && R.Valid(sh, w.(copyOfs := w.copyOfs + c)) && whole == (w.(copyOfs := w.copyOfs + c), bytes')
      else R.Valid(sh, R.NextMessage(sh, w)) && Continues(sh, whole, R.NextMessage(sh, w), left - c, n - 1, bytes')
  {
    R.NextMessageValid(sh, w);
    R.ReadValid(sh, w, left, n);
    R.SlotFits(sh, w.slots[R.CopyPlace(sh, w)]);
    hide Mul, Has, Rem, R.Marks, R.Valid;
    var s := w.slots[R.CopyPlace(sh, w)];
    var c := Min(left, s.len - w.copyOfs);
    var x := s.data[w.copyOfs .. w.copyOfs + c];
    if w.copyOfs + c >= s.len {
      var rest := R.ReadMessages(sh, R.NextMessage(sh, w), left - c, n - 1).1;
      assert bytes + (x + rest) == (bytes + x) + rest;
    }
  }

  class RecvWindow {
    const sh: Shape
    const L: nat             // msg_len, in bytes
    const fullVec: Vec       // full_ack_vec
    const msg: array<Msg>
    const ack: array<bool>
    const buf: array<Byte>
    var base: nat            // w.seq
    var size: nat
    var slide: nat
    var copySn: nat
    var copyOfs: nat
    var isa: Time            // inter_seg_ack
    var isaSn: nat
    var isaOn: bool
    ghost var view: R.RecvWnd

    ghost predicate Shaped() {
      && sh.Valid() && L == sh.MsgLen() && L > 0 && fullVec == sh.FullVec()
      && msg.Length == sh.cap && ack.Length == sh.cap && buf.Length == Mul(sh.cap, L)
      && msg as object != ack as object && ack as object != buf as object && msg as object != buf as object
    }

    /** The fields represent view. */
    ghost predicate Valid()
      reads this, msg, ack, buf
    {
      && Shaped()
      && R.Valid(sh, view)
      && view == R.RecvWnd(base, size, slide, copySn, copyOfs, view.slots, isa, isaSn, isaOn)
      && Shows(view.slots, base, msg[..], ack[..], buf[..], L)
    }

    constructor (sh: Shape)
      requires sh.Valid()
      ensures Valid() && this.sh == sh && fresh(msg) && fresh(ack) && fresh(buf)
      ensures view == R.RecvWnd(0, 0, 0, 0, 0, view.slots, TIME_INFINITY, 0, false)
      ensures forall j :: 0 <= j < sh.cap ==> view.slots[j] == R.Slot(0, 0, sh.FullVec(), view.slots[j].data, false)
    {
      S.MsgLenPositive(sh);
      MaskIsVec(sh.segs);
      this.sh, L, fullVec := sh, sh.MsgLen(), sh.FullVec();
      msg := new Msg[sh.cap];
      ack := new bool[sh.cap];
      buf := new Byte[Mul(sh.cap, sh.MsgLen())];
      base, size, slide, copySn, copyOfs, isa, isaSn, isaOn := 0, 0, 0, 0, 0, 0, 0, false;
      new;
      Rst();
    }

    method Rst()
      requires Shaped()
      modifies this, msg, ack
      ensures Valid()
      ensures view == R.RecvWnd(0, 0, 0, 0, 0, view.slots, TIME_INFINITY, 0, false)
      ensures forall j :: 0 <= j < sh.cap ==> view.slots[j] == R.Slot(0, 0, sh.FullVec(), view.slots[j].data, false)
    {
      hide Rem, Mul, Has, R.Marks, Mask, R.Valid, SlotOf;
      base, size, slide, copySn, copyOfs := 0, 0, 0, 0, 0;
      for i := 0 to sh.cap
        invariant forall j :: 0 <= j < i ==> msg[j] == Msg(0, 0, fullVec)
        modifies msg
      {
        msg[i] := Msg(0, 0, fullVec);
      }
      isaOn, isa, isaSn := false, TIME_INFINITY, 0;
      for i := 0 to sh.cap
        invariant forall j :: 0 <= j < i ==> !ack[j]
        modifies ack
      {
        ack[i] := false;
      }
      view := R.RecvWnd(0, 0, 0, 0, 0, SlotsFrom(0, msg[..], ack[..], buf[..], L), TIME_INFINITY, 0, false);
      BlankValid(sh, view);
    }

    // ---- An arriving segment ----

    /** The window as Reach leaves it, field by field. */
    lemma {:induction false} ReachFields(sn: nat)
      requires Valid() && sn < SEQS && !R.OutOfReach(sh, view, sn)
      ensures var r, n := R.Reach(sh, view, sn), R.NewSize(view, sn);
        && R.Valid(sh, r)
        && r == (if n > sh.cap then R.RecvWnd(Wire(base + slide), n - slide, 0, copySn, copyOfs, r.slots, isa, isaSn, isaOn)
                 else R.RecvWnd(base, Max(size, n), slide, copySn, copyOfs, r.slots, isa, isaSn, isaOn))
        && Shows(r.slots, r.base, msg[..], ack[..], buf[..], L)
    {
      hide Mul, Has, R.Marks, Rem, SlotAt;
      R.ReachValid(sh, view, sn);
      ShowsRotated(view.slots, base, msg[..], ack[..], buf[..], L, slide);
    }

    /** Makes room for message sn: slides if the window would grow past its capacity, else grows. */
    method Reach(sn: nat) returns (ok: bool)
      requires Valid() && sn < SEQS
      modifies this
      ensures Valid()
      ensures ok == !R.OutOfReach(sh, old(view), sn)
      ensures view == if ok then R.Reach(sh, old(view), sn) else old(view)
    {
      hide Mul, Has, Rem, R.Marks, R.Reach, Shows, R.SlotOk, R.CopyPlace;
      var newSize := Wire(Ahead(sn, base) + 1);
      if newSize > sh.cap && (newSize < slide || newSize - slide > sh.cap) {
        return false;
      }
      ok := true;
      ReachFields(sn);
      view := R.Reach(sh, view, sn);
      if newSize > sh.cap {
        size := newSize - slide;
        base := Wire(base + slide);
        slide := 0;
      } else {
        size := Max(size, newSize);
      }
    }

    /** Copies a segment to its place in slot i and marks it. */
    method Store(i: nat, seg: nat, count: nat, p: seq<Byte>)
      requires Shaped() && i < sh.cap && seg < sh.segs && count < 32 && |p| <= sh.segLen
      modifies msg, ack, buf
      ensures forall k :: 0 <= k < sh.cap && k != i ==> msg[k] == old(msg[k]) && ack[k] == old(ack[k])
      ensures forall q :: 0 <= q < buf.Length && !(Mul(i, L) <= q < Mul(i, L) + L) ==> buf[q] == old(buf[q])
      ensures SlotAt(msg[..], ack[..], buf[..], L, i)
        == R.Stored(sh, old(SlotAt(msg[..], ack[..], buf[..], L, i)), R.Frame(0, seg, count, p))
    {
      hide Mul, Has, Rem, R.Marks, R.CountVec, AckVec.Mark, Memory.Put, Mask, Divides;
      MulOrder(i, sh.cap, L);
      MulOrder(seg, sh.segs, sh.segLen);
      MarkIsVec(msg[i].cur, seg);
      Memory.CopyInto(buf, Mul(i, L) + Mul(seg, sh.segLen), p);
      msg[i] := Msg(msg[i].len + |p|, AckVec.Mark(msg[i].cur, seg), R.CountVec(count));
      if seg + 1 == count {
        ack[i] := true;
      }
      RowWritten(old(buf[..]), buf[..], Mul(i, L), L, Mul(seg, sh.segLen), p);
    }

    /** A segment that is already there: an acknowledgement is due again. */
    method Raise(i: nat, ghost j: nat, ghost target: R.RecvWnd)
      requires Valid() && j < sh.cap && i == SlotOf(base, j, sh.cap) && R.Valid(sh, target)
      requires target == view.(slots := view.slots[j := view.slots[j].(ack := true)])
      modifies `view, ack
      ensures Valid() && view == target
    {
      hide Mul, Has, Rem, R.Valid;
      ack[i] := true;
      ShowsUpdated(view.slots, base, msg[..], old(ack[..]), buf[..], msg[..], ack[..], buf[..], L, j);
      view := target;
    }

    /** A new segment: stored, with the inter-segment timer stopped by the last one and restarted by any other. */
    method Add(i: nat, f: R.Frame, delay: Time, ghost j: nat, ghost target: R.RecvWnd)
      requires Valid() && R.FrameOk(sh, f) && j < sh.cap && i == SlotOf(base, j, sh.cap) && R.Valid(sh, target)
      requires var r := view.(slots := view.slots[j := R.Stored(sh, view.slots[j], f)]);
        target == if f.seg + 1 == f.count then r.(isaOn := false) else r.(isa := delay, isaSn := f.sn, isaOn := true)
      modifies this, msg, ack, buf
      ensures Valid() && view == target
    {
      hide Mul, Has, Rem, R.Marks, R.Valid, Mask, AckVec.Mark, Memory.Put;
      Store(i, f.seg, f.count, f.data);
      ShowsUpdated(view.slots, base, old(msg[..]), old(ack[..]), old(buf[..]), msg[..], ack[..], buf[..], L, j);
      if f.seg + 1 == f.count {
        isaOn := false;
      } else {
        isa, isaSn, isaOn := delay, f.sn, true;
      }
      view := target;
    }

    method Frame(f: R.Frame, delay: Time) returns (n: nat)
      requires Valid() && R.FrameOk(sh, f)
      modifies this, msg, ack, buf
      ensures Valid()
      ensures view == R.Receive(sh, old(view), f, delay)
      ensures n == R.Taken(sh, old(view), f)
    {
      hide Mul, Has, Rem, R.Marks, Wire, Mask, AckVec.Mark, Memory.Put, R.Reach, R.OutOfReach, R.SlotOk, R.CopyPlace, SlotOf;
      R.ReceiveValid(sh, view, f, delay);
      ghost var target := R.Receive(sh, view, f, delay);
      var ok := Reach(f.sn);
      if !ok {
        return 0;
      }
      ghost var j := R.Place(sh, view, f.sn);
      PlaceSlot(f.sn, base, sh.cap);
      var i := Slot(f.sn, sh.cap);
      assert view.slots[j] == SlotAt(msg[..], ack[..], buf[..], L, i);
      if Has(msg[i].cur, f.seg) {
        Raise(i, j, target);
        return 0;
      }
      Add(i, f, delay, j, target);
      n := |f.data|;
    }

    // ---- Reading ----

    /** The slot being read. */
    lemma {:induction false} ReadSlot()
      requires Valid()
      ensures var i, s := Slot(copySn, sh.cap), view.slots[R.CopyPlace(sh, view)];
        && msg[i] == Msg(s.len, s.cur, s.full) && |s.data| == L
        && Mul(i, L) + L <= buf.Length && buf[..][Mul(i, L) .. Mul(i, L) + L] == s.data
    {
      CopySlot();
      MulOrder(Slot(copySn, sh.cap), sh.cap, L);
    }

    lemma {:induction false} CopySlot()
      requires Valid()
      ensures Slot(copySn, sh.cap) == SlotOf(base, R.CopyPlace(sh, view), sh.cap)
      ensures view.slots[R.CopyPlace(sh, view)] == SlotAt(msg[..], ack[..], buf[..], L, Slot(copySn, sh.cap))
    {
      SlotFormsAgree(base + slide, sh.cap);
      RemAdd(slide, base, sh.cap);
    }

    /** Gives back the slot of the message just used up. */
    method Advance(i: nat)
      requires Valid() && i == Slot(copySn, sh.cap)
      modifies this, msg
      ensures Valid()
      ensures view == R.NextMessage(sh, old(view))
      ensures size == old(size) && copySn == Wire(old(copySn) + 1)
    {
      CopySlot();
      R.NextMessageValid(sh, view);
      hide Mul, Has, Rem, R.Marks;
      ghost var j := R.CopyPlace(sh, view);
      msg[i] := Msg(0, 0, fullVec);
      ShowsUpdated(view.slots, base, old(msg[..]), ack[..], buf[..], msg[..], ack[..], buf[..], L, j);
      view := R.NextMessage(sh, view);
      copyOfs := 0;
      copySn := Wire(copySn + 1);
      slide := slide + 1;
    }

    /** One turn of the reading loop, on a readable message: copies out what fits. */
    method CopyOut(idx: nat, left: nat) returns (bytes: seq<Byte>, usedUp: bool)
      requires Valid() && idx == Slot(copySn, sh.cap) && R.Readable(view.slots[R.CopyPlace(sh, view)])
      modifies this, msg
      ensures Valid() && size == old(size)
      ensures var v, s := old(view), old(view.slots[R.CopyPlace(sh, view)]);
        var c := Min(left, s.len - v.copyOfs);
        && v.copyOfs + c <= |s.data| && bytes == s.data[v.copyOfs .. v.copyOfs + c]
        && usedUp == (v.copyOfs + c >= s.len)
        && view == (if usedUp then R.NextMessage(sh, v) else v.(copyOfs := v.copyOfs + c))
        && copySn == if usedUp then Wire(old(copySn) + 1) else old(copySn)
    {
      hide Mul, Has, Rem, R.NextMessage, Shows, R.Marks, Wire;
      ReadSlot();
      ghost var s := view.slots[R.CopyPlace(sh, view)];
      R.SlotFits(sh, s);
      var c := Min(left, msg[idx].len - copyOfs);
      SubSlice(buf[..], Mul(idx, L), s.data, copyOfs, c);
      bytes := buf[Mul(idx, L) + copyOfs .. Mul(idx, L) + copyOfs + c];
      usedUp := copyOfs + c >= msg[idx].len;
      if usedUp {
        Advance(idx);
      } else {
        copyOfs := copyOfs + c;
        view := view.(copyOfs := copyOfs);
      }
    }

    method Recv(max: nat) returns (bytes: seq<Byte>)
      requires Valid()
      modifies this, msg
      ensures Valid()
      ensures (view, bytes) == R.Read(sh, old(view), max)
    {
      hide Mul, Has, Rem, R.ReadMessages, R.NextMessage, Continues, Shows, R.Marks;
      var i, left: nat := 0, max;
      var baseCopySn := copySn;
      WireSmall(copySn);
      bytes := [];
      ghost var whole := R.Read(sh, view, max);
      ContinuesStart(sh, view, max, size);
      while left > 0 && i < size
        invariant Valid() && i <= size == old(size)
        invariant copySn == Wire(baseCopySn + i)
        invariant Continues(sh, whole, view, left, size - i, bytes)
        decreases size - i
      {
        ReadSlot();
        SlotFormsAgree(baseCopySn + i, sh.cap);
        var idx := Slot(baseCopySn + i, sh.cap);
        if msg[idx].len == 0 || msg[idx].cur != msg[idx].full {
          break;
        }
        ContinuesStep(sh, whole, view, left, size - i, bytes);
        R.WireNext(baseCopySn, i);
        var chunk, usedUp := CopyOut(idx, left);
        bytes := bytes + chunk;
        if !usedUp {
          return;
        }
        left := left - |chunk|;
        i := i + 1;
      }
      if left > 0 && i < size { ReadSlot(); }
      ContinuesDone(sh, whole, view, left, size - i, bytes);
    }

    // ---- Acknowledging ----

    method SendAck() returns (a: S.AckHdr)
      requires Valid()
      modifies `view, ack
      ensures Valid()
      ensures (view, a) == R.SendAck(old(view))
    {
      hide Mul, Has, Rem, R.Marks;
      R.SendAckValid(sh, view);
      for k := 0 to size
        invariant view == old(view) && unchanged(ack)
        invariant R.FirstDue(view, 0) == R.FirstDue(view, k)
      {
        var i := SlotOf(base, k, sh.cap);
        assert view.slots[k] == SlotAt(msg[..], ack[..], buf[..], L, i);
        if ack[i] {
          a := S.AckHdr(Wire(base + k), msg[i].cur);
          ack[i] := false;
          ShowsUpdated(view.slots, base, msg[..], old(ack[..]), buf[..], msg[..], ack[..], buf[..], L, k);
          view := R.SendAck(view).0;
          return;
        }
      }
      a := S.NoAck;
    }

    /** The inter-segment timer. */
    method InterSegment(dt: Time)
      requires Valid()
      modifies `view, `isa, `isaOn, ack
      ensures Valid()
      ensures view == R.InterSegment(sh, old(view), dt)
    {
      hide Mul, Has, Rem, R.Marks;
      R.InterSegmentValid(sh, view, dt);
      if isaOn {
        ghost var v := view;
        isa := SubSat(isa, dt);
        if isa == 0 {
          isaOn := false;
          PlaceSlot(isaSn, base, sh.cap);
          var i := Slot(isaSn, sh.cap);
          ghost var j := R.Place(sh, v, isaSn);
          ack[i] := true;
          ShowsUpdated(v.slots, base, msg[..], old(ack[..]), buf[..], msg[..], ack[..], buf[..], L, j);
        }
        view := R.InterSegment(sh, v, dt);
      }
    }

    /** One receive poll; room says that a frame can go out. */
    method Poll(arrival: R.Arrival, dt: Time, delay: Time, room: bool) returns (a: S.AckHdr)
      requires Valid() && R.ArrivalOk(sh, arrival)
      modifies this, msg, ack, buf
      ensures Valid()
      ensures (view, a) == R.Poll(sh, old(view), arrival, dt, delay, room)
    {
      hide Mul, Has, Rem, R.Marks, Shows, R.Receive, R.InterSegment, R.SendAck;
      if arrival.Arrived? {
        var n := Frame(arrival.f, delay);
      }
      InterSegment(dt);
      a := S.NoAck;
      if room {
        a := SendAck();
      }
    }
  }
}
