/** The send pointer and the send poll, as arq__send_wnd_ptr_next and arq__send_poll run them. */
module SendPoll {
  import opened Arith
  import opened AckVec
  import opened SeqNum
  import opened Messages
  import opened SendLayout
  import opened SendWindowImpl
  import W = SendWindow

  class SendPointer {
    var sn: nat
    var seg: nat
    var valid: bool

    ghost function View(): W.Ptr
      reads this
    {
      W.Ptr(sn, seg, valid)
    }

    constructor ()
      ensures View() == W.Ptr(0, 0, false)
    {
      sn, seg, valid := 0, 0, false;
    }

    /** Moves to the next segment to send; completed says that the pointer ran off the end of its message. */
    method Next(sw: SendWindow) returns (completed: bool)
      requires sw.Valid() && W.PtrOk(View())
      modifies this
      ensures W.PtrOk(View())
      ensures (View(), completed) == W.PtrNext(sw.sh, sw.view, old(View()))
    {
      hide Rem, Mul, Quo, Flatten, Mask, Has, FirstClear, Ctz, Not32, W.Datas, Holds, Origin, Wire, Divides;
      completed := false;
      if valid {
        ShownSlot(sw, sn);
        var i := Slot(sn, sw.sh.cap);
        CtzFindsClear(sw.msg[i].cur, seg + 1);
        seg := seg + 1 + Ctz(Not32(Shr(sw.msg[i].cur, seg + 1)));
        if Mask(seg) < sw.msg[i].full {
          W.InsideIsBelow16(seg, sw.msg[i].full);
          return;
        }
        completed := true;
      }
      ghost var p := View();
      var j := 0;
      while j < sw.size
        invariant j <= sw.size && View() == p
        invariant W.Scan(sw.view, p, 0) == W.Scan(sw.view, p, j)
      {
        var next := Wire(j + sw.base);
        SlotFormsAgree(sw.base + j, sw.sh.cap);
        var i := Slot(next, sw.sh.cap);
        assert i == SlotOf(sw.base, j, sw.sh.cap);
        if !(valid && sn == next) && sw.rtx[i] == 0 && sw.msg[i].len > 0 && sw.msg[i].cur < sw.msg[i].full {
          assert W.Eligible(sw.view, p, j);
          W.BelowFullIsBelow16(sw.msg[i].cur, sw.msg[i].full);
          CtzFindsClear(sw.msg[i].cur, 0);
          sn := next;
          valid := true;
          seg := Ctz(Not32(sw.msg[i].cur));
          return;
        }
        j := j + 1;
      }
      valid := false;
    }
  }

  /** What the slot of sn shows, inside the window or not. */
  lemma {:induction false} ShownSlot(sw: SendWindow, sn: nat)
    requires sw.Valid() && sn < SEQS
    ensures var m, i := W.AtSlot(sw.sh, sw.view, sn), Slot(sn, sw.sh.cap);
      sw.msg[i] == Msg(|m.data|, m.cur, m.full)
    ensures Slot(sn, sw.sh.cap) == SlotOf(sw.base, W.Rel(sw.sh, sw.view, sn), sw.sh.cap)
  {
    PlaceSlot(sn, sw.base, sw.sh.cap);
  }

  /** Sets the timer of the slot of sn. */
  method Restart(sw: SendWindow, sn: nat, rto: Time)
    requires sw.Valid() && sn < SEQS
    modifies sw.rtx, sw`view
    ensures sw.Valid()
    ensures sw.view == W.Restart(sw.sh, old(sw.view), sn, rto)
  {
    hide Rem, Mul, Quo, Flatten;
    SlotsDiffer(sw.base, sw.sh.cap);
    ShownSlot(sw, sn);
    var i := Slot(sn, sw.sh.cap);
    sw.rtx[i] := rto;
    ghost var w := W.Restart(sw.sh, sw.view, sn, rto);
    assert W.Datas(w.msgs) == W.Datas(sw.view.msgs);
    sw.view := w;
  }

  /** One send poll; room says that a frame can go out. */
  method Poll(sw: SendWindow, sp: SendPointer, ack: W.AckHdr, dt: Time, rto: Time, room: bool) returns (h: W.SegHdr)
    requires sw.Valid() && W.PtrOk(sp.View())
    modifies sw, sw.msg, sw.rtx, sp
    ensures sw.Valid() && W.PtrOk(sp.View())
    ensures (sw.view, sp.View(), h) == W.Poll(sw.sh, old(sw.view), old(sp.View()), ack, dt, rto, room)
  {
    hide Rem, Mul, Quo, Flatten, W.PtrNext, W.Ack, W.Step, W.Flush, W.Restart, Holds, Origin, Mask, Has;
    h := W.NoSeg;
    if ack.AckHdr? {
      sw.Ack(ack.sn, ack.vec);
    }
    sw.Step(dt);
    if sw.tinyOn && sw.tiny == 0 {
      sw.Flush();
      sw.SetTinyOff();
    }
    if room {
      var was := sp.sn;
      var completed := sp.Next(sw);
      if completed {
        Restart(sw, was, rto);
      }
      if sp.valid {
        ShownSlot(sw, sp.sn);
        var len := sw.msg[Slot(sp.sn, sw.sh.cap)].len;
        h := W.SegHdr(sp.sn, sp.seg, SegCount(len, sw.sh.segLen));
      }
    }
  }
}
