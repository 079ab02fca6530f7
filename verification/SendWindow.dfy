/**
 * The send window as a list of messages in order, oldest first. The class SendWindowImpl.SendWindow
 * keeps the same list in circular arrays.
 */
module SendWindow {
  import opened Arith
  import opened AckVec
  import opened SeqNum
  import opened Messages

  /** Bytes of a message, the segments acknowledged, the vector that completes it, and its timer. */
  datatype Message = Message(data: seq<Byte>, cur: Vec, full: Vec, rtx: Time)

  /** base is the 12-bit number of msgs[0]. */
  datatype SendWnd = SendWnd(base: nat, msgs: seq<Message>, tiny: Time, tinyOn: bool)

  function Datas(msgs: seq<Message>): (r: seq<seq<Byte>>)
    ensures |r| == |msgs|
    ensures forall j :: 0 <= j < |msgs| ==> r[j] == msgs[j].data
  {
    seq(|msgs|, j requires 0 <= j < |msgs| => msgs[j].data)
  }

  /** The bytes the window holds. */
  function Bytes(w: SendWnd): seq<Byte> {
    Flatten(Datas(w.msgs))
  }

  /** Every message but the last has the full length, and none is empty. */
  ghost predicate Valid(sh: Shape, w: SendWnd) {
    && sh.Valid()
    && w.base < SEQS
    && |w.msgs| <= sh.cap
    && (forall j :: 0 <= j < |w.msgs| ==> 0 < |w.msgs[j].data| <= sh.MsgLen())
    && (forall j :: 0 <= j < |w.msgs| - 1 ==> |w.msgs[j].data| == sh.MsgLen())
  }

  // ---- Accepting bytes ----

  /** A string cut into pieces of L bytes; the last piece may be shorter. */
  function Cut(b: seq<Byte>, L: nat): (xs: seq<seq<Byte>>)
    requires L > 0
    decreases |b|
  {
    if |b| == 0 then [] else if |b| <= L then [b] else [b[..L]] + Cut(b[L..], L)
  }

  function Free(sh: Shape, w: SendWnd): int {
    Mul(sh.cap, sh.MsgLen()) - |Bytes(w)|
  }

  /** The last message, which may still grow; 0 in an empty window. */
  function LastIndex(w: SendWnd): nat {
    if |w.msgs| == 0 then 0 else |w.msgs| - 1
  }

  /** How many bytes of src a send takes. */
  function Taken(sh: Shape, w: SendWnd, src: seq<Byte>): (n: nat)
    ensures n <= |src|
  {
    Max(0, Min(|src|, Free(sh, w)))
  }

  /**
   * Accepting a string: the window bytes grow by the first bytes of the string, as many as fit, and
   * are cut anew into messages. Timers of messages filled up restart at zero; a new unfinished
   * message waits for the tinygram delay.
   */
  function Send(sh: Shape, w: SendWnd, src: seq<Byte>, delay: Time): SendWnd
    requires Valid(sh, w)
  {
    if |src| == 0 then w
    else
      MsgLenPositive(sh);
      var L := sh.MsgLen();
      var cs := Cut(Bytes(w) + src[..Taken(sh, w, src)], L);
      var partial := |cs| > 0 && |cs[|cs| - 1]| < L;
      SendWnd(w.base, Recut(sh, w, cs, delay), if partial && |cs| > |w.msgs| then delay else w.tiny, partial)
  }

  /** The messages of w with their bytes replaced by the pieces cs. */
  function Recut(sh: Shape, w: SendWnd, cs: seq<seq<Byte>>, delay: Time): (r: seq<Message>)
    requires sh.Valid()
    ensures |r| == |cs|
    ensures forall j :: 0 <= j < |cs| ==> r[j] == SentMessage(sh, w, cs[j], j, delay)
  {
    seq(|cs|, j requires 0 <= j < |cs| => SentMessage(sh, w, cs[j], j, delay))
  }

  /** Message j after a send that leaves it with the given bytes. */
  function SentMessage(sh: Shape, w: SendWnd, data: seq<Byte>, j: nat, delay: Time): (m: Message)
    requires sh.Valid()
  {
    MaskIsVec(sh.segs);
    var complete := |data| == sh.MsgLen();
    if j < |w.msgs| then
      var m := w.msgs[j];
      m.(data := data, rtx := if j >= LastIndex(w) && complete then 0 else m.rtx)
    else
      Message(data, 0, sh.FullVec(), if complete then 0 else delay)
  }

  lemma {:induction false} MsgLenPositive(sh: Shape)
    requires sh.Valid()
    ensures sh.MsgLen() >= 1
  {
    MulOrder(0, sh.segs, sh.segLen);
  }

  // ---- Acknowledgement ----

  /** Number of leading messages whose every segment has been acknowledged. */
  function Done(msgs: seq<Message>): (n: nat)
    ensures n <= |msgs|
    ensures forall j :: 0 <= j < n ==> msgs[j].cur == msgs[j].full
    ensures n < |msgs| ==> msgs[n].cur != msgs[n].full
  {
    if msgs == [] || msgs[0].cur != msgs[0].full then 0 else 1 + Done(msgs[1..])
  }

  /** Messages after one of them took an acknowledgement vector. */
  function Acked(msgs: seq<Message>, j: nat, vec: Vec): (r: seq<Message>)
    requires j < |msgs|
    ensures |r| == |msgs|
  {
    var m := msgs[j];
    msgs[j := m.(cur := vec, rtx := if vec != m.full then 0 else m.rtx)]
  }

  /** The code compares numbers without going round, so an ack past 4095 is ignored until the base wraps. */
  predicate Acceptable(w: SendWnd, sn: nat) {
    |w.msgs| > 0 && w.base <= sn < w.base + |w.msgs|
  }

  function Freed(w: SendWnd, sn: nat, vec: Vec): (n: nat)
    ensures n <= |w.msgs|
  {
    if Acceptable(w, sn) then Done(Acked(w.msgs, sn - w.base, vec)) else 0
  }

  /** Sliding past the leading messages that are completely acknowledged. */
  function Slid(w: SendWnd): SendWnd {
    var n := Done(w.msgs);
    w.(base := Wire(w.base + n), msgs := w.msgs[n..])
  }

  function Ack(w: SendWnd, sn: nat, vec: Vec): SendWnd {
    if Acceptable(w, sn) then Slid(w.(msgs := Acked(w.msgs, sn - w.base, vec))) else w
  }

  // ---- Flush and timers ----

  function Flush(sh: Shape, w: SendWnd): SendWnd
    requires Valid(sh, w)
  {
    if |w.msgs| == 0 then w
    else
      var i := |w.msgs| - 1;
      var m := w.msgs[i];
      SegCountBounds(|m.data|, sh);
      MaskIsVec(SegCount(|m.data|, sh.segLen));
      w.(msgs := w.msgs[i := m.(full := Mask(SegCount(|m.data|, sh.segLen)), rtx := 0)])
  }

  function StepAll(msgs: seq<Message>, dt: Time): (r: seq<Message>)
    ensures |r| == |msgs|
    ensures forall j :: 0 <= j < |msgs| ==> r[j] == msgs[j].(rtx := SubSat(msgs[j].rtx, dt))
  {
    seq(|msgs|, j requires 0 <= j < |msgs| => msgs[j].(rtx := SubSat(msgs[j].rtx, dt)))
  }

  function Step(w: SendWnd, dt: Time): SendWnd {
    w.(msgs := StepAll(w.msgs, dt), tiny := if w.tinyOn then SubSat(w.tiny, dt) else w.tiny)
  }

  // ---- The send pointer ----

  /** The segment sent last: its message's 12-bit number and its place in the message. */
  datatype Ptr = Ptr(sn: nat, seg: nat, valid: bool)

  predicate PtrOk(p: Ptr) {
    p.sn < SEQS && (p.valid ==> p.seg < 16)
  }

  /** Place in the window of the slot that sequence number sn selects. */
  function Rel(sh: Shape, w: SendWnd, sn: nat): (j: nat)
    requires sh.cap > 0 && sn < SEQS && w.base < SEQS
    ensures j < sh.cap
  {
    Rem(Ahead(sn, w.base), sh.cap)
  }

  /** What the slot of sn holds; a slot outside the window is blank. */
  function AtSlot(sh: Shape, w: SendWnd, sn: nat): Message
    requires sh.Valid() && sn < SEQS && w.base < SEQS
  {
    MaskIsVec(sh.segs);
    var j := Rel(sh, w, sn);
    if j < |w.msgs| then w.msgs[j] else Message([], 0, sh.FullVec(), 0)
  }

  /** A message the pointer may move to. */
  predicate Eligible(w: SendWnd, p: Ptr, j: nat)
    requires j < |w.msgs|
  {
    var m := w.msgs[j];
    && !(p.valid && p.sn == Wire(w.base + j))
    && m.rtx == 0 && |m.data| > 0 && m.cur < m.full
  }

  /** The first eligible message at or after place j, or the size of the window. */
  function Scan(w: SendWnd, p: Ptr, j: nat): (k: nat)
    requires j <= |w.msgs|
    ensures j <= k <= |w.msgs|
    ensures forall i :: j <= i < k ==> !Eligible(w, p, i)
    ensures k < |w.msgs| ==> Eligible(w, p, k)
    decreases |w.msgs| - j
  {
    if j == |w.msgs| || Eligible(w, p, j) then j else Scan(w, p, j + 1)
  }

  /** The next segment to send, and whether the pointer just finished a message. */
  function PtrNext(sh: Shape, w: SendWnd, p: Ptr): (r: (Ptr, bool))
    requires sh.Valid() && PtrOk(p) && w.base < SEQS
    ensures PtrOk(r.0)
  {
    if p.valid then
      var m := AtSlot(sh, w, p.sn);
      var seg := FirstClear(m.cur, p.seg + 1);
      if Mask(seg) < m.full then
        InsideIsBelow16(seg, m.full);
        (p.(seg := seg), false)
      else
        (PtrScan(w, p.(seg := seg)), true)
    else
      (PtrScan(w, p), false)
  }

  function PtrScan(w: SendWnd, p: Ptr): (r: Ptr)
    requires p.sn < SEQS
    ensures PtrOk(r)
  {
    var j := Scan(w, p, 0);
    if j < |w.msgs| then
      var seg := FirstClear(w.msgs[j].cur, 0);
      BelowFullIsBelow16(w.msgs[j].cur, w.msgs[j].full);
      Ptr(Wire(w.base + j), seg, true)
    else
      p.(valid := false)
  }

  lemma {:induction false} InsideIsBelow16(seg: nat, full: Vec)
    requires seg <= 16 && Mask(seg) < full
    ensures seg < 16
  {
    Pow2Values();
  }

  lemma {:induction false} BelowFullIsBelow16(cur: Vec, full: Vec)
    requires cur < full
    ensures FirstClear(cur, 0) < 16
  {
    if FirstClear(cur, 0) == 16 {
      VecWithin(cur);
      LessThanMask(cur, 16);
      Pow2Values();
    }
  }

  // ---- Polling ----

  /** An acknowledgement header: the message number and vector it carries. */
  datatype AckHdr = NoAck | AckHdr(sn: nat, vec: Vec)

  /** The data part of an outgoing header: message number, segment, and segments in the message. */
  datatype SegHdr = NoSeg | SegHdr(sn: nat, seg: nat, count: nat)

  function Restart(sh: Shape, w: SendWnd, sn: nat, rto: Time): SendWnd
    requires sh.cap > 0 && sn < SEQS && w.base < SEQS
  {
    var j := Rel(sh, w, sn);
    if j < |w.msgs| then w.(msgs := w.msgs[j := w.msgs[j].(rtx := rto)]) else w
  }

  function Timers(sh: Shape, w: SendWnd, dt: Time): SendWnd
    requires Valid(sh, w)
  {
    StepValid(sh, w, dt);
    var s := Step(w, dt);
    if s.tinyOn && s.tiny == 0 then Flush(sh, s).(tinyOn := false) else s
  }

  /** Choosing the next segment, when there is room for a frame to go out. */
  function Emit(sh: Shape, w: SendWnd, p: Ptr, rto: Time): (r: (SendWnd, Ptr, SegHdr))
    requires sh.Valid() && PtrOk(p) && w.base < SEQS
    ensures PtrOk(r.1)
  {
    var (p', completed) := PtrNext(sh, w, p);
    var w' := if completed then Restart(sh, w, p.sn, rto) else w;
    if p'.valid then
      var m := AtSlot(sh, w', p'.sn);
      (w', p', SegHdr(p'.sn, p'.seg, SegCount(|m.data|, sh.segLen)))
    else
      (w', p', NoSeg)
  }

  function AckStep(w: SendWnd, ack: AckHdr): SendWnd {
    if ack.AckHdr? then Ack(w, ack.sn, ack.vec) else w
  }

  /** One call of the send poll: acknowledgement, timers, tinygram flush, next segment. */
  function Poll(sh: Shape, w: SendWnd, p: Ptr, ack: AckHdr, dt: Time, rto: Time, room: bool): (r: (SendWnd, Ptr, SegHdr))
    requires Valid(sh, w) && PtrOk(p)
    ensures PtrOk(r.1)
  {
    AckValid(sh, w, ack);
    TimersValid(sh, AckStep(w, ack), dt);
    var w2 := Timers(sh, AckStep(w, ack), dt);
    if room then Emit(sh, w2, p, rto) else (w2, p, NoSeg)
  }

  // ---- Every operation keeps the window well formed ----

  lemma {:induction false} StepValid(sh: Shape, w: SendWnd, dt: Time)
    requires Valid(sh, w)
    ensures Valid(sh, Step(w, dt))
    ensures Datas(Step(w, dt).msgs) == Datas(w.msgs)
  {
  }

  lemma {:induction false} FlushValid(sh: Shape, w: SendWnd)
    requires Valid(sh, w)
    ensures Valid(sh, Flush(sh, w))
    ensures Datas(Flush(sh, w).msgs) == Datas(w.msgs)
  {
  }

  lemma {:induction false} TimersValid(sh: Shape, w: SendWnd, dt: Time)
    requires Valid(sh, w)
    ensures Valid(sh, Timers(sh, w, dt))
    ensures Datas(Timers(sh, w, dt).msgs) == Datas(w.msgs)
  {
    StepValid(sh, w, dt);
    FlushValid(sh, Step(w, dt));
  }

  lemma {:induction false} AckValid(sh: Shape, w: SendWnd, ack: AckHdr)
    requires Valid(sh, w)
    ensures Valid(sh, AckStep(w, ack))
  {
  }
}
