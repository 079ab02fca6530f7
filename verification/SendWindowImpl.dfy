/** The send window in circular arrays, as arq__send_wnd_t keeps it. */
module SendWindowImpl {
  import opened Arith
  import opened AckVec
  import opened SeqNum
  import opened Messages
  import opened SendLayout
  import W = SendWindow
  import F = SendFifo
  import Memory

  class SendWindow {
    const sh: Shape
    const L: nat             // msg_len, in bytes
    const fullVec: Vec       // full_ack_vec
    const msg: array<Msg>
    const rtx: array<Time>
    const buf: array<Byte>
    var base: nat            // w.seq
    var size: nat
    var tiny: Time
    var tinyOn: bool
    ghost var view: W.SendWnd

    ghost predicate Shaped() {
      && sh.Valid() && L == sh.MsgLen() && L > 0 && fullVec == sh.FullVec()
      && msg.Length == sh.cap && rtx.Length == sh.cap && buf.Length == Mul(sh.cap, L)
      && msg as object != rtx as object && rtx as object != buf as object && msg as object != buf as object
    }

    /** The fields represent view. */
    ghost predicate Valid()
      reads this, msg, rtx, buf
    {
      && Shaped()
      && W.Valid(sh, view)
      && base == view.base && size == |view.msgs| && tiny == view.tiny && tinyOn == view.tinyOn
      && Slots(view, msg[..], rtx[..], fullVec)
      && BufferHolds(W.Bytes(view))
    }

    /** The buffer holds the string b, going round from the base message. */
    ghost predicate BufferHolds(b: seq<Byte>)
      requires Shaped()
      reads this`base, buf
    {
      Holds(buf[..], Origin(base, sh.cap, L), b)
    }

    // ---- Sending ----

    /** Both copies of a send: src goes in at place `at` and continues from the start of the buffer. */
    method CopyRound(src: seq<Byte>, at: nat, ghost s: nat, ghost b: seq<Byte>)
      requires Holds(buf[..], s, b) && |b| + |src| <= buf.Length
      requires at == if s + |b| <= buf.Length then s + |b| else s + |b| - buf.Length
      modifies buf
      ensures Holds(buf[..], s, b + src)
    {
      hide Memory.Put;
      var pre := Min(|src|, buf.Length - at);
      Memory.CopyInto(buf, at, src[..pre]);
      Memory.CopyInto(buf, 0, src[pre..]);
      TwoCopiesAppend(old(buf[..]), buf[..], s, b, src, at, pre);
    }

    /** Bytes in the window: whole messages before the last one, and the last one. */
    lemma {:induction false} WindowLength()
      requires Valid()
      ensures var last := W.LastIndex(view); var len := msg[SlotOf(base, last, sh.cap)].len;
        last < sh.cap && len <= L && (len == 0 ==> last == 0) && |W.Bytes(view)| == Mul(last, L) + len <= Mul(sh.cap, L)
    {
      hide Rem, Flatten;
      F.WindowIsCut(sh, view);
      CutLength(W.Bytes(view), L);
    }

    /** The copying of a send, and the numbers its bookkeeping needs. */
    method CopyBytes(src: seq<Byte>) returns (n: nat, last: nat, full: nat, rem: nat, newSize: nat)
      requires Valid()
      modifies buf
      ensures n <= |src| && n == Min(|src|, Mul(sh.cap, L) - |W.Bytes(view)|)
      ensures BufferHolds(W.Bytes(view) + src[..n])
      ensures last == W.LastIndex(view)
      ensures rem < L && newSize == (if rem > 0 then last + full + 1 else last + full) <= sh.cap
      ensures var cs := W.Cut(W.Bytes(view) + src[..n], L);
        && |cs| == newSize
        && (forall j :: 0 <= j < last + full ==> |cs[j]| == L)
        && (rem > 0 ==> |cs[last + full]| == rem)
    {
      hide Rem, Mul, Quo, Flatten;
      WindowLength();
      last := if size > 1 then size - 1 else 0;
      var idx := SlotOf(base, last, sh.cap);
      var lastLen := msg[idx].len;
      var inWindow := Mul(last, L) + lastLen;
      n := Min(|src|, Mul(sh.cap, L) - inWindow);
      AppendPlace(base, last, sh.cap, L, lastLen);
      CopyRound(src[..n], Mul(idx, L) + lastLen, Origin(base, sh.cap, L), W.Bytes(view));
      SendShape(W.Bytes(view) + src[..n], L, sh.cap, last, lastLen, n);
      full := Quo(lastLen + n, L);
      rem := lastLen + n - Mul(full, L);
      newSize := SegCount(inWindow + n, L);
    }

    /** Gives count messages from place `last` on the full length, and lets their timers run out. */
    method MarkFull(last: nat, count: nat)
      requires Shaped() && last + count <= sh.cap
      modifies msg, rtx
      ensures Settled(base, old(msg[..]), old(rtx[..]), msg[..], rtx[..], last, count, 0, L, false, 0)
    {
      hide Rem, Mul, Quo, Flatten;
      SlotsDiffer(base, sh.cap);
      for k := 0 to count
        invariant Settled(base, old(msg[..]), old(rtx[..]), msg[..], rtx[..], last, k, 0, L, false, 0)
      {
        var i := SlotOf(base, last + k, sh.cap);
        rtx[i] := 0;
        msg[i] := msg[i].(len := L);
      }
    }

    /** The bookkeeping of a send that completes `full` messages from place `last` on and leaves rem bytes over. */
    method Settle(last: nat, full: nat, rem: nat, newSize: nat, delay: Time)
      requires Shaped() && rem < L
      requires newSize == (if rem > 0 then last + full + 1 else last + full) <= sh.cap
      modifies msg, rtx, `size, `tiny, `tinyOn
      ensures size == newSize && tinyOn == (rem > 0)
      ensures tiny == if rem > 0 && newSize > old(size) then delay else old(tiny)
      ensures Settled(base, old(msg[..]), old(rtx[..]), msg[..], rtx[..], last, full, rem, L, newSize > old(size), delay)
    {
      hide Rem, Mul, Quo, Flatten;
      MarkFull(last, full);
      SlotsDiffer(base, sh.cap);
      var orig := size;
      size := newSize;
      if rem > 0 {
        var i := SlotOf(base, size - 1, sh.cap);
        msg[i] := msg[i].(len := rem);
      }
      tinyOn := rem > 0;
      if tinyOn && size > orig {
        rtx[SlotOf(base, size - 1, sh.cap)] := delay;
        tiny := delay;
      }
    }

    method Send(src: seq<Byte>, delay: Time) returns (n: nat)
      requires Valid()
      modifies this, msg, rtx, buf
      ensures Valid() && n == W.Taken(sh, old(view), src)
      ensures view == W.Send(sh, old(view), src, delay)
    {
      hide Rem, Mul, Quo, Flatten, W.Cut, W.Send, Settled, Holds, Origin, W.Taken;
      F.SendRefinesQueue(sh, view, src, delay);
      if |src| == 0 {
        NothingSent(sh, view, src, delay);
        return 0;
      }
      var last, full, rem, newSize;
      n, last, full, rem, newSize := CopyBytes(src);
      Settle(last, full, rem, newSize, delay);
      F.WindowIsCut(sh, view);
      F.CutGrows(W.Bytes(view), src[..n], L);
      SettledSlots(sh, view, src, delay, old(msg[..]), old(rtx[..]), msg[..], rtx[..], last, full, rem);
      view := W.Send(sh, view, src, delay);
    }

    // ---- Acknowledgement ----

    /** Records vec as what message j has acknowledged. */
    method Mark(j: nat, vec: Vec)
      requires Valid() && j < size
      modifies msg, rtx, `view
      ensures Valid()
      ensures view == old(view).(msgs := W.Acked(old(view).msgs, j, vec))
    {
      hide Rem, Mul, Quo, Flatten;
      SlotsDiffer(base, sh.cap);
      var i := SlotOf(base, j, sh.cap);
      msg[i] := msg[i].(cur := vec);
      if msg[i].cur != msg[i].full {
        rtx[i] := 0;
      }
      F.AckedValid(sh, view, j, vec);
      view := view.(msgs := W.Acked(view.msgs, j, vec));
    }

    /** Blanks the leading messages that are completely acknowledged. */
    method Blank() returns (n: nat)
      requires Valid()
      modifies msg
      ensures n == W.Done(view.msgs)
      ensures forall j: nat :: j < sh.cap ==> var k := SlotOf(base, j, sh.cap);
        msg[k] == (if j < n then Msg(0, 0, fullVec) else old(msg[k]))
    {
      hide Rem, Mul, Quo, Flatten;
      SlotsDiffer(base, sh.cap);
      n := 0;
      while n < size
        invariant n <= size
        invariant forall j: nat :: j < sh.cap ==> var k := SlotOf(base, j, sh.cap);
          msg[k] == (if j < n then Msg(0, 0, fullVec) else old(msg[k]))
        invariant forall j :: 0 <= j < n ==> view.msgs[j].cur == view.msgs[j].full
      {
        var k := SlotOf(base, n, sh.cap);
        assert old(msg[k]) == Msg(|view.msgs[n].data|, view.msgs[n].cur, view.msgs[n].full);
        if msg[k].cur != msg[k].full {
          break;
        }
        msg[k] := Msg(0, 0, fullVec);
        n := n + 1;
      }
      DoneIs(view.msgs, n);
    }

    /** The buffer, seen from a base moved on by n messages. */
    lemma {:induction false} BufferSlides(n: nat)
      requires Valid() && n <= size
      ensures Holds(buf[..], Origin(Wire(base + n), sh.cap, L), Flatten(W.Datas(view.msgs[n..])))
    {
      hide Rem, Mul, Quo, W.Cut, Has, Wire, Slots;
      F.WindowIsCut(sh, view);
      var b, k := W.Bytes(view), Mul(n, L);
      SlotFormsAgree(base + n, sh.cap);
      PlaceOfSlot(base, n, sh.cap, L);
      CutDrop(b, L, n);
      F.CutProperties(b[Min(k, |b|)..], L);
      assert W.Datas(view.msgs[n..]) == W.Datas(view.msgs)[n..];
      if k <= |b| {
        HoldsDrop(buf[..], Origin(base, sh.cap, L), b, k, Origin(Wire(base + n), sh.cap, L));
      }
    }

    method Slide()
      requires Valid()
      modifies msg, `base, `size, `view
      ensures Valid()
      ensures view == W.Slid(old(view))
    {
      hide Rem, Mul, Quo, Flatten, W.Done, Holds, Origin, W.Cut, Slots, Has, W.Datas;
      BufferSlides(W.Done(view.msgs));
      var n := Blank();
      BlankedSlots(view, n, old(msg[..]), msg[..], rtx[..], fullVec);
      F.DropValid(sh, view, n);
      size := size - n;
      base := Wire(base + n);
      view := view.(base := base, msgs := view.msgs[n..]);
    }

    method Ack(sn: nat, vec: Vec)
      requires Valid()
      modifies this, msg, rtx
      ensures Valid()
      ensures view == W.Ack(old(view), sn, vec)
    {
      if size == 0 || base > sn || base + size - 1 < sn {
        return;
      }
      Mark(sn - base, vec);
      Slide();
    }

    // ---- Flush, timers, reset ----

    method Flush()
      requires Valid()
      modifies `view, msg, rtx
      ensures Valid()
      ensures view == W.Flush(sh, old(view))
    {
      hide Rem, Mul, Quo, Flatten;
      if size == 0 {
        return;
      }
      SlotsDiffer(base, sh.cap);
      W.FlushValid(sh, view);
      var i := SlotOf(base, size - 1, sh.cap);
      if msg[i].len > 0 {
        var segs := SegCount(msg[i].len, sh.segLen);
        SegCountBounds(msg[i].len, sh);
        MaskIsVec(segs);
        msg[i] := msg[i].(full := Mask(segs));
        rtx[i] := 0;
      }
      view := W.Flush(sh, view);
    }

    method Step(dt: Time)
      requires Valid()
      modifies `view, `tiny, rtx
      ensures Valid()
      ensures view == W.Step(old(view), dt)
    {
      hide Rem, Mul, Quo, Flatten;
      SlotsDiffer(base, sh.cap);
      W.StepValid(sh, view, dt);
      for k := 0 to size
        invariant forall j: nat :: j < sh.cap ==> var i := SlotOf(base, j, sh.cap);
          rtx[i] == if j < k then SubSat(old(rtx[i]), dt) else old(rtx[i])
        modifies rtx
      {
        var i := SlotOf(base, k, sh.cap);
        rtx[i] := SubSat(rtx[i], dt);
      }
      if tinyOn {
        tiny := SubSat(tiny, dt);
      }
      view := W.Step(view, dt);
    }

    method SetTinyOff()
      requires Valid()
      modifies `tinyOn, `view
      ensures Valid() && view == old(view).(tinyOn := false)
    {
      hide Rem, Mul, Quo, Flatten;
      tinyOn := false;
      view := view.(tinyOn := false);
    }

    constructor (sh: Shape)
      requires sh.Valid()
      ensures Valid() && view == W.SendWnd(0, [], 0, false)
      ensures this.sh == sh && fresh(msg) && fresh(rtx) && fresh(buf)
    {
      W.MsgLenPositive(sh);
      MaskIsVec(sh.segs);
      this.sh, L, fullVec := sh, sh.MsgLen(), sh.FullVec();
      MulOrder(0, sh.cap, sh.MsgLen());
      msg := new Msg[sh.cap];
      rtx := new Time[sh.cap];
      buf := new Byte[Mul(sh.cap, sh.MsgLen())];
      base, size, tiny, tinyOn := 0, 0, 0, false;
      new;
      Rst();
    }

    method Rst()
      requires Shaped()
      modifies this, msg, rtx
      ensures Valid() && view == W.SendWnd(0, [], 0, false)
    {
      size := 0;
      base := 0;
      for i := 0 to sh.cap
        invariant size == base == 0
        invariant forall j :: 0 <= j < i ==> msg[j] == Msg(0, 0, fullVec)
      {
        msg[i] := Msg(0, 0, fullVec);
      }
      for i := 0 to sh.cap
        invariant size == base == 0
        invariant forall j :: 0 <= j < sh.cap ==> msg[j] == Msg(0, 0, fullVec)
      {
        rtx[i] := 0;
      }
      tiny := 0;
      tinyOn := false;
      view := W.SendWnd(0, [], 0, false);
      MulOrder(0, sh.cap, L);
    }

    /** Where segment seg of message sn lies in the buffer (arq__wnd_seg), for a segment the message has. */
    method Seg(sn: nat, seg: nat) returns (at: nat, len: nat)
      requires Valid() && sn < SEQS && Ahead(sn, base) < size
      requires Mul(seg, sh.segLen) < |view.msgs[Ahead(sn, base)].data|
      ensures at + len <= buf.Length
      ensures buf[at .. at + len] == Segment(view.msgs[Ahead(sn, base)].data, seg, sh.segLen)
    {
      hide Rem, Mul, Quo, Flatten;
      MessageAt(sn);
      var idx := Slot(sn, sh.cap);
      ghost var m := view.msgs[Ahead(sn, base)].data;
      var ofs := Mul(seg, sh.segLen);
      at := Mul(idx, L) + ofs;
      len := Min(sh.segLen, msg[idx].len - ofs);
      SubSlice(buf[..], Mul(idx, L), m, ofs, len);
    }

    /** A message of the window lies unbroken in its slot. */
    lemma {:induction false} MessageAt(sn: nat)
      requires Valid() && sn < SEQS && Ahead(sn, base) < size
      ensures var m, at := view.msgs[Ahead(sn, base)].data, Mul(Slot(sn, sh.cap), L);
        msg[Slot(sn, sh.cap)].len == |m| && at + |m| <= buf.Length && buf[at .. at + |m|] == m
    {
      hide Rem, Mul, Quo, Flatten, W.Cut, Holds, Origin, Wire, Has;
      var j := Ahead(sn, base);
      SlotOfAhead(sn, base, sh.cap);
      F.WindowIsCut(sh, view);
      assert W.Datas(view.msgs)[j] == view.msgs[j].data;
      CutPiece(W.Bytes(view), L, j);
      MessageInBuffer(buf[..], base, j, sh.cap, L, W.Bytes(view), |view.msgs[j].data|);
    }
  }
}
