/** How circular arrays represent a send window. */
module SendLayout {
  import opened Arith
  import opened AckVec
  import opened SeqNum
  import opened Messages
  import W = SendWindow
  import F = SendFifo

  /** Length in bytes, acknowledged segments, and the vector that completes the message. */
  datatype Msg = Msg(len: nat, cur: Vec, full: Vec)

  /** Slot of the message j places after the base. */
  function SlotOf(base: nat, j: nat, cap: nat): (i: nat)
    requires cap > 0
    ensures i < cap
  {
    Slot(base + j, cap)
  }

  /** Where byte p of the window lies in a buffer of size bytes whose base message starts at byte s. */
  function Place(s: nat, p: nat, size: nat): int {
    if s + p < size then s + p else s + p - size
  }

  /** The byte at which the base message starts. */
  function Origin(base: nat, cap: nat, L: nat): nat
    requires cap > 0
  {
    Mul(Slot(base, cap), L)
  }

  // ---- Arithmetic of slots and places ----

  lemma {:induction false} SlotsDiffer(base: nat, cap: nat)
    requires cap > 0
    ensures forall i: nat, j: nat :: i < cap && j < cap && i != j ==> SlotOf(base, i, cap) != SlotOf(base, j, cap)
  {
    forall i: nat, j: nat | i < cap && j < cap && i != j ensures SlotOf(base, i, cap) != SlotOf(base, j, cap) {
      RemCases(base, i, cap);
      RemCases(base, j, cap);
    }
  }

  /** Message j starts at byte j * L of the window. */
  lemma {:induction false} PlaceOfSlot(base: nat, j: nat, cap: nat, L: nat)
    requires cap > 0 && j <= cap && L > 0
    ensures var s, C, at := Origin(base, cap, L), Mul(cap, L), Mul(SlotOf(base, j, cap), L);
      && s + L <= C && at + L <= C
      && at == if s + Mul(j, L) < C then s + Mul(j, L) else s + Mul(j, L) - C
  {
    var b := Slot(base, cap);
    RemCases(base, j, cap);
    MulAdd(b, j, L);
    MulOrder(b, cap, L);
    MulOrder(SlotOf(base, j, cap), cap, L);
    if b + j >= cap {
      MulAdd(b + j - cap, cap, L);
    }
  }

  /** The place of the first free byte, given the last message and its length. */
  lemma {:induction false} AppendPlace(base: nat, last: nat, cap: nat, L: nat, lastLen: nat)
    requires cap > 0 && last < cap && lastLen <= L && L > 0 && (lastLen == 0 ==> last == 0)
    ensures var s, C, n := Origin(base, cap, L), Mul(cap, L), Mul(last, L) + lastLen;
      Mul(SlotOf(base, last, cap), L) + lastLen == if s + n <= C then s + n else s + n - C
  {
    PlaceOfSlot(base, last, cap, L);
  }

  /** x, read round from place s, holds b. */
  ghost predicate Holds(x: seq<Byte>, s: nat, b: seq<Byte>) {
    s < |x| && |b| <= |x| && forall p: nat :: p < |b| ==> x[Place(s, p, |x|)] == b[p]
  }

  /** The two copies of a send, up to the end of the buffer and from its start, append src to what it holds. */
  lemma {:induction false} TwoCopiesAppend(x: seq<Byte>, y: seq<Byte>, s: nat, b: seq<Byte>, src: seq<Byte>, at: nat, pre: nat)
    requires Holds(x, s, b) && |y| == |x| && |b| + |src| <= |x|
    requires at == if s + |b| <= |x| then s + |b| else s + |b| - |x|
    requires pre == Min(|src|, |x| - at)
    requires forall k :: 0 <= k < |x| ==>
      y[k] == if k < |src| - pre then src[pre + k] else if at <= k < at + pre then src[k - at] else x[k]
    ensures Holds(y, s, b + src)
  {
  }

  // ---- Facts about cutting, in terms of lengths ----

  lemma {:induction false} CutLength(b: seq<Byte>, L: nat)
    requires L > 0
    ensures var xs := W.Cut(b, L);
      && (|b| == 0 <==> xs == [])
      && (xs != [] ==> |b| == Mul(|xs| - 1, L) + |xs[|xs| - 1]|)
    decreases |b|
  {
    if |b| > L { CutLength(b[L..], L); }
  }

  /** The shape of a cut follows from the length of the string alone. */
  lemma {:induction false} CutShape(b: seq<Byte>, L: nat, full: nat, rem: nat)
    requires L > 0 && |b| == Mul(full, L) + rem && rem < L
    ensures var xs := W.Cut(b, L);
      && |xs| == SegCount(|b|, L) == (if rem > 0 then full + 1 else full)
      && (forall j :: 0 <= j < full ==> |xs[j]| == L)
      && (rem > 0 ==> |xs[full]| == rem)
    decreases full
  {
    if full == 0 {
      if rem > 0 { assert Quo(rem - 1, L) == 0; }
    } else if |b| > L {
      CutShape(b[L..], L, full - 1, rem);
    } else {
      assert Quo(L - 1, L) == 0;
      assert Mul(full, L) == Mul(full - 1, L) + L;
      MulOrder(0, full, L);
    }
  }

  /** What a send computes with divisions is the shape of the new cut. */
  lemma {:induction false} SendShape(b: seq<Byte>, L: nat, cap: nat, last: nat, lastLen: nat, n: nat)
    requires L > 0 && |b| == Mul(last, L) + lastLen + n <= Mul(cap, L)
    ensures var full := Quo(lastLen + n, L); var rem := lastLen + n - Mul(full, L); var cs := W.Cut(b, L);
      && 0 <= rem < L
      && |cs| == SegCount(|b|, L) == (if rem > 0 then last + full + 1 else last + full) <= cap
      && (forall j :: 0 <= j < last + full ==> |cs[j]| == L)
      && (rem > 0 ==> |cs[last + full]| == rem)
  {
    DivRem(lastLen + n, L);
    var full := Quo(lastLen + n, L);
    MulAdd(last, full, L);
    CutShape(b, L, last + full, Rem(lastLen + n, L));
    F.CutCount(b, L, cap);
  }

  lemma {:induction false} CutDrop(b: seq<Byte>, L: nat, n: nat)
    requires L > 0 && n <= |W.Cut(b, L)|
    ensures W.Cut(b[Min(Mul(n, L), |b|)..], L) == W.Cut(b, L)[n..]
    decreases n
  {
    if n > 0 && |b| > L {
      CutDrop(b[L..], L, n - 1);
      assert b[L..][Min(Mul(n - 1, L), |b| - L)..] == b[Min(Mul(n, L), |b|)..];
      assert W.Cut(b, L)[n..] == W.Cut(b[L..], L)[n - 1..];
    } else if n == 0 {
      assert b[0..] == b;
    }
  }

  /** Piece j starts at byte j * L of the string. */
  lemma {:induction false} CutPiece(b: seq<Byte>, L: nat, j: nat)
    requires L > 0 && j < |W.Cut(b, L)|
    ensures Mul(j, L) + |W.Cut(b, L)[j]| <= |b|
    ensures W.Cut(b, L)[j] == b[Mul(j, L) .. Mul(j, L) + |W.Cut(b, L)[j]|]
    decreases j
  {
    if j > 0 { CutPiece(b[L..], L, j - 1); }
  }

  // ---- What the arrays represent ----

  /** The slots show the messages of v, in order from its base; the other slots are blank. */
  ghost predicate Slots(v: W.SendWnd, ms: seq<Msg>, rtx: seq<Time>, fullVec: Vec) {
    && |ms| == |rtx| > 0 && |v.msgs| <= |ms|
    && (forall j: nat :: j < |v.msgs| ==> var i := SlotOf(v.base, j, |ms|);
        ms[i] == Msg(|v.msgs[j].data|, v.msgs[j].cur, v.msgs[j].full) && rtx[i] == v.msgs[j].rtx)
    && (forall j: nat :: |v.msgs| <= j < |ms| ==> ms[SlotOf(v.base, j, |ms|)] == Msg(0, 0, fullVec))
  }

  /** Slots counted from a later base. */
  lemma {:induction false} SlotShift(base: nat, i: nat, cap: nat, j: nat)
    requires Divides(cap) && i <= cap && j < cap
    ensures SlotOf(Wire(base + i), j, cap) == SlotOf(base, if i + j < cap then i + j else i + j - cap, cap)
  {
    hide Rem, Mul, Wire;
    SlotFormsAgree(base + i, cap);
    RemAdd(base + i, j, cap);
    RemAdd(Wire(base + i), j, cap);
    if i + j >= cap {
      MulOne(cap);
      RemMul(base + (i + j - cap), 1, cap);
    }
  }

  lemma {:induction false} HoldsDrop(x: seq<Byte>, s: nat, b: seq<Byte>, k: nat, s': nat)
    requires Holds(x, s, b) && k <= |b| && s' == (if s + k < |x| then s + k else s + k - |x|)
    ensures Holds(x, s', b[k..])
  {
  }

  /** The slot that sequence number sn selects, as a place in the window. */
  lemma {:induction false} PlaceSlot(sn: nat, base: nat, cap: nat)
    requires Divides(cap) && sn < SEQS && base < SEQS
    ensures Slot(sn, cap) == SlotOf(base, Rem(Ahead(sn, base), cap), cap)
  {
    SlotOfAhead(sn, base, cap);
    RemAdd(Ahead(sn, base), base, cap);
  }

  /** The slot a sequence number selects, as a place in the window. */
  lemma {:induction false} SlotOfAhead(sn: nat, base: nat, cap: nat)
    requires Divides(cap) && sn < SEQS && base < SEQS
    ensures Slot(sn, cap) == SlotOf(base, Ahead(sn, base), cap)
  {
    AheadBack(sn, base);
    SlotFormsAgree(base + Ahead(sn, base), cap);
  }

  /** Slots seen from a base moved on by slide places. */
  lemma {:induction false} RotatedSlot(base: nat, slide: nat, j: nat, cap: nat)
    requires Divides(cap) && j < cap
    ensures var k := Rem(slide, cap) + j;
      SlotOf(base, if k < cap then k else k - cap, cap) == SlotOf(Wire(base + slide), j, cap)
  {
    hide Rem, Mul, Wire;
    SlotFormsAgree(base + slide, cap);
    RemAdd(base + slide, j, cap);
    RemAdd(Wire(base + slide), j, cap);
    RemAdd(slide, base + j, cap);
    var k := Rem(slide, cap) + j;
    if k >= cap {
      MulOne(cap);
      RemMul(base + (k - cap), 1, cap);
    }
  }

  /** A message of n bytes lies unbroken in its slot. */
  lemma {:induction false} MessageInBuffer(x: seq<Byte>, base: nat, j: nat, cap: nat, L: nat, b: seq<Byte>, n: nat)
    requires cap > 0 && j < cap && n <= L && L > 0 && |x| == Mul(cap, L)
    requires Mul(j, L) + n <= |b| && Holds(x, Origin(base, cap, L), b)
    ensures var at := Mul(SlotOf(base, j, cap), L);
      at + n <= |x| && x[at .. at + n] == b[Mul(j, L) .. Mul(j, L) + n]
  {
    PlaceOfSlot(base, j, cap, L);
    var s, at, p := Origin(base, cap, L), Mul(SlotOf(base, j, cap), L), Mul(j, L);
    var y, z := x[at .. at + n], b[p .. p + n];
    forall o | 0 <= o < n ensures y[o] == z[o] {
      assert x[Place(s, p + o, |x|)] == b[p + o];
    }
  }

  /** A stretch of a message is a stretch of the buffer. */
  lemma {:induction false} SubSlice(x: seq<Byte>, at: nat, m: seq<Byte>, ofs: nat, len: nat)
    requires at + |m| <= |x| && x[at .. at + |m|] == m && ofs + len <= |m|
    ensures x[at + ofs .. at + ofs + len] == m[ofs .. ofs + len]
  {
    var y, z := x[at + ofs .. at + ofs + len], m[ofs .. ofs + len];
    forall k | 0 <= k < len ensures y[k] == z[k] {
      assert x[at .. at + |m|][ofs + k] == m[ofs + k];
    }
  }

  lemma {:induction false} DoneIs(ms: seq<W.Message>, n: nat)
    requires n <= |ms| && (forall j :: 0 <= j < n ==> ms[j].cur == ms[j].full)
    requires n < |ms| ==> ms[n].cur != ms[n].full
    ensures W.Done(ms) == n
  {
  }

  /** What a send that completes `full` messages from place `last` on and leaves rem bytes over does to the slots. */
  ghost predicate Settled(base: nat, ms: seq<Msg>, rtx: seq<Time>, ms': seq<Msg>, rtx': seq<Time>,
                          last: nat, full: nat, rem: nat, L: nat, grew: bool, delay: Time)
  {
    && |ms| == |rtx| == |ms'| == |rtx'| > 0
    && forall j: nat :: j < |ms| ==> var i := SlotOf(base, j, |ms|);
      && ms'[i] == ms[i].(len := if last <= j < last + full then L else if rem > 0 && j == last + full then rem else ms[i].len)
      && rtx'[i] == if last <= j < last + full then 0 else if rem > 0 && j == last + full && grew then delay else rtx[i]
  }

  lemma {:induction false} NothingSent(sh: Shape, v: W.SendWnd, src: seq<Byte>, delay: Time)
    requires W.Valid(sh, v) && |src| == 0
    ensures W.Send(sh, v, src, delay) == v && W.Taken(sh, v, src) == 0
  {
    hide Rem, Mul, Quo, Flatten, W.Cut;
  }

  lemma {:induction false} SettledSlots(sh: Shape, v: W.SendWnd, src: seq<Byte>, delay: Time, ms: seq<Msg>, rtx: seq<Time>,
                     ms': seq<Msg>, rtx': seq<Time>, last: nat, full: nat, rem: nat)
    requires W.Valid(sh, v) && |src| > 0 && sh.MsgLen() > 0 && sh.FullVec() < 0x1_0000
    requires Slots(v, ms, rtx, sh.FullVec()) && |ms| == sh.cap
    requires last == W.LastIndex(v)
    requires var cs := W.Cut(W.Bytes(v) + src[..W.Taken(sh, v, src)], sh.MsgLen());
      && |v.msgs| <= |cs| == (if rem > 0 then last + full + 1 else last + full) <= sh.cap
      && (forall j :: 0 <= j < last + full ==> |cs[j]| == sh.MsgLen())
      && (rem > 0 ==> |cs[last + full]| == rem < sh.MsgLen())
      && Settled(v.base, ms, rtx, ms', rtx', last, full, rem, sh.MsgLen(), |cs| > |v.msgs|, delay)
    ensures var v' := W.Send(sh, v, src, delay);
      && Slots(v', ms', rtx', sh.FullVec())
      && |v'.msgs| == (if rem > 0 then last + full + 1 else last + full)
      && v'.tinyOn == (rem > 0)
      && v'.tiny == if rem > 0 && |v'.msgs| > |v.msgs| then delay else v.tiny
  {
    hide Rem, Mul, Quo, Flatten, W.Cut, W.Taken;
    var v' := W.Send(sh, v, src, delay);
    forall j: nat | j < |v'.msgs|
      ensures var i := SlotOf(v.base, j, |ms|);
        ms'[i] == Msg(|v'.msgs[j].data|, v'.msgs[j].cur, v'.msgs[j].full) && rtx'[i] == v'.msgs[j].rtx
    {
      if j < last { assert |v.msgs[j].data| == sh.MsgLen(); }
    }
  }

  /** Blanking the first n slots and moving the base past them drops the first n messages. */
  lemma {:induction false} BlankedSlots(v: W.SendWnd, n: nat, ms: seq<Msg>, ms': seq<Msg>, rtx: seq<Time>, fullVec: Vec)
    requires Divides(|ms|) && Slots(v, ms, rtx, fullVec) && |ms'| == |ms| && n <= |v.msgs|
    requires forall j: nat :: j < |ms| ==> var k := SlotOf(v.base, j, |ms|);
      ms'[k] == if j < n then Msg(0, 0, fullVec) else ms[k]
    ensures Slots(v.(base := Wire(v.base + n), msgs := v.msgs[n..]), ms', rtx, fullVec)
  {
    var v' := v.(base := Wire(v.base + n), msgs := v.msgs[n..]);
    forall j: nat | j < |ms'|
      ensures var i := SlotOf(v'.base, j, |ms'|);
        if j < |v'.msgs| then ms'[i] == Msg(|v'.msgs[j].data|, v'.msgs[j].cur, v'.msgs[j].full) && rtx[i] == v'.msgs[j].rtx
        else ms'[i] == Msg(0, 0, fullVec)
    {
      SlotShift(v.base, n, |ms|, j);
    }
  }
}
