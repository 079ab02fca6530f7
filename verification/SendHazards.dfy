/**
 * What the send window does with bytes added to a flushed message, and with a pointer left on a
 * message that was freed.
 */
module SendHazards {
  import opened Arith
  import opened AckVec
  import opened Messages
  import opened SeqNum
  import opened SendWindow
  import F = SendFifo

  // ---- Adding to a message after a flush ----

  /** A send adds to the last message if that has room, and leaves its vectors as they are. */
  lemma {:induction false} AppendKeepsVectors(sh: Shape, w: SendWnd, src: seq<Byte>, delay: Time)
    requires Valid(sh, w) && |src| > 0 && |w.msgs| > 0 && |w.msgs[|w.msgs| - 1].data| < sh.MsgLen()
    ensures var j, w' := |w.msgs| - 1, Send(sh, w, src, delay);
      && |w'.msgs| > j && w'.msgs[j].full == w.msgs[j].full && w'.msgs[j].cur == w.msgs[j].cur
      && w.msgs[j].data <= w'.msgs[j].data
  {
    hide Rem, Mul, Quo, Cut, Flatten;
    F.SendRefinesQueue(sh, w, src, delay);
  }

  /**
   * However many messages the window holds, an acknowledgement of the segments that the last message
   * had at the flush completes it with everything added since, sent or not; once the messages before
   * it are complete, it leaves the window.
   */
  lemma {:induction false} AppendedBytesAreFreed(sh: Shape, w: SendWnd, src: seq<Byte>, delay: Time)
    requires Valid(sh, w) && |src| > 0 && |w.msgs| > 0 && |w.msgs[|w.msgs| - 1].data| < sh.MsgLen()
    ensures var c := SegCount(|w.msgs[|w.msgs| - 1].data|, sh.segLen); c <= 16 && Mask(c) < 0x1_0000
    ensures Valid(sh, Flush(sh, w))
    ensures var j, w' := |w.msgs| - 1, Send(sh, Flush(sh, w), src, delay);
      && |w'.msgs| > j && |w'.msgs[j].data| > |w.msgs[j].data|
      && var ms := Acked(w'.msgs, j, Mask(SegCount(|w.msgs[j].data|, sh.segLen)));
      && ms[j].cur == ms[j].full
      && (Done(ms) >= j ==> Done(ms) > j)
  {
    hide Rem, Mul, Quo, Cut, Flatten, Send;
    var j := |w.msgs| - 1;
    var f := Flush(sh, w);
    SegCountBounds(|w.msgs[j].data|, sh);
    MaskIsVec(SegCount(|w.msgs[j].data|, sh.segLen));
    FlushValid(sh, w);
    AppendKeepsVectors(sh, f, src, delay);
    LastGrows(sh, f, src, delay);
  }

  lemma {:induction false} LastGrows(sh: Shape, w: SendWnd, src: seq<Byte>, delay: Time)
    requires Valid(sh, w) && F.Unfinished(sh, w) && |src| > 0
    ensures var j, w' := |w.msgs| - 1, Send(sh, w, src, delay);
      |w'.msgs| > j && |w'.msgs[j].data| > |w.msgs[j].data|
  {
    hide Rem, Mul, Quo, Cut, Flatten, Send;
    var j, w' := |w.msgs| - 1, Send(sh, w, src, delay);
    var room := sh.MsgLen() - |w.msgs[j].data|;
    if |src| <= room {
      F.SendGrows(sh, w, src, delay);
    } else {
      assert src == src[..room] + src[room..];
      F.SendGrows(sh, w, src[..room], delay);
      F.SendSplits(sh, w, src[..room], src[room..], delay);
      F.SendRefinesQueue(sh, Send(sh, w, src[..room], delay), src[room..], delay);
    }
  }

  // ---- A pointer left on a message that was freed ----

  /**
   * A valid pointer on a number that is no longer in the window names that number once more exactly
   * when the present occupant of its slot, a later message or none, has a segment after the pointer's
   * next clear bit; segment and count are then those of the occupant.
   */
  lemma {:induction false} StrayPointerIff(sh: Shape, w: SendWnd, p: Ptr, rto: Time)
    requires Valid(sh, w) && PtrOk(p) && p.valid && Ahead(p.sn, w.base) >= |w.msgs|
    ensures var m, h := AtSlot(sh, w, p.sn), Emit(sh, w, p, rto).2;
      var seg := FirstClear(m.cur, p.seg + 1);
      && (h.SegHdr? && h.sn == p.sn <==> Mask(seg) < m.full)
      && (h.SegHdr? && h.sn == p.sn ==> h == SegHdr(p.sn, seg, SegCount(|m.data|, sh.segLen)))
    ensures var j := Rel(sh, w, p.sn);
      if j < |w.msgs| then AtSlot(sh, w, p.sn) == w.msgs[j] && Wire(w.base + j) != p.sn
      else AtSlot(sh, w, p.sn).data == [] && AtSlot(sh, w, p.sn).cur == 0 && AtSlot(sh, w, p.sn).full == sh.FullVec()
  {
    hide Rem, Mul, Quo, Flatten, Cut, Mask, FirstClear, SegCount;
    var k := Scan(w, p.(seg := FirstClear(AtSlot(sh, w, p.sn).cur, p.seg + 1)), 0);
    if k < |w.msgs| { NotInWindow(w, p.sn, k); }
    if Rel(sh, w, p.sn) < |w.msgs| { NotInWindow(w, p.sn, Rel(sh, w, p.sn)); }
  }

  /** A number beyond the window is the number of none of its messages. */
  lemma {:induction false} NotInWindow(w: SendWnd, sn: nat, j: nat)
    requires w.base < SEQS && sn < SEQS && Ahead(sn, w.base) >= |w.msgs| && j < |w.msgs|
    ensures Wire(w.base + j) != sn
  {
    hide Rem;
    AheadOf(w.base, j);
  }

  /**
   * A slot that nothing occupies is named exactly until the pointer has passed the last segment a
   * message can have, with no segment count.
   */
  lemma {:induction false} StrayOnBlankIff(sh: Shape, w: SendWnd, p: Ptr, rto: Time)
    requires Valid(sh, w) && PtrOk(p) && p.valid && Rel(sh, w, p.sn) >= |w.msgs|
    ensures Emit(sh, w, p, rto).2 == SegHdr(p.sn, p.seg + 1, 0) <==> p.seg + 1 < sh.segs
  {
    hide Rem, Mul, Flatten, Cut, Mask;
    FirstClearZero(p.seg + 1);
    MaskOrder(p.seg + 1, sh.segs);
    NoSegments(sh.segLen);
  }

  lemma {:induction false} FirstClearZero(k: nat)
    requires k <= 16
    ensures FirstClear(0, k) == k
  {
    HasZero(k);
  }

  lemma {:induction false} NoSegments(segLen: nat)
    requires segLen > 0
    ensures SegCount(0, segLen) == 0
  {
  }
}
