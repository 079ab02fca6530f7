/**
 * When an acknowledgement does no harm. The two guards on acknowledgements of a run, on their age and
 * on the send pointer, are enough; this is exactly what is needed.
 */
module AckGuard {
  import opened Arith
  import opened AckVec
  import opened SeqNum
  import opened Messages
  import opened TwoEnded
  import opened SenderSteps
  import S = SendWindow
  import F = SendFifo
  import I = RecvInvariant

  /** The vector, taken for message j of the window, marks segments of it that have arrived. */
  ghost predicate Truthful(cfg: Config, x: Sys, j: nat, vec: Vec)
    requires cfg.Valid() && j < |x.s.msgs|
  {
    && Within(vec, SegCount(|x.s.msgs[j].data|, cfg.snd.segLen))
    && forall seg: nat :: Has(vec, seg) ==> I.Got(x.r, x.rb, |x.past| + j, seg)
  }

  /**
   * The acknowledgement is ignored, or what it says is true of the message of the window that has its
   * number, and it frees no message the valid pointer is on. Of a message that may still grow it has
   * to say nothing, and then restarts its timer, which has to be at zero.
   */
  ghost predicate Harmless(cfg: Config, x: Sys, a: AckFrame)
    requires cfg.Valid() && x.s.base < SEQS && x.p.sn < SEQS
  {
    S.Acceptable(x.s, Wire(a.k)) ==>
      var j := Wire(a.k) - x.s.base;
      && (if x.open && j == |x.s.msgs| - 1 then a.vec == 0 && x.s.tiny == 0 else Truthful(cfg, x, j, a.vec))
      && (x.p.valid ==> S.Freed(x.s, Wire(a.k), a.vec) <= Ahead(x.p.sn, x.s.base))
  }

  lemma {:induction false} TakenMessage(cfg: Config, x: Sys, a: AckFrame, j: nat, i: nat)
    requires Inv(cfg, x) && j < |x.s.msgs| && i < |x.s.msgs|
    requires if x.open && j == |x.s.msgs| - 1 then a.vec == 0 && x.s.tiny == 0 else Truthful(cfg, x, j, a.vec)
    ensures MessageInv(cfg, x.(s := x.s.(msgs := S.Acked(x.s.msgs, j, a.vec))), i)
  {
    hide Mul, Quo, Flatten, I.Inv, NetInv, PastInv, Has, Rem, Mask, AcksInv, I.Delivered, I.Got;
    assert MessageInv(cfg, x, i);
    OpenNotDone(cfg.snd.segs);
  }

  lemma {:induction false} HarmlessKeeps(cfg: Config, x: Sys, a: AckFrame)
    requires Inv(cfg, x) && S.Acceptable(x.s, Wire(a.k)) && Harmless(cfg, x, a)
    ensures var ms := S.Acked(x.s.msgs, Wire(a.k) - x.s.base, a.vec); Inv(cfg, Slide(x, ms, S.Done(ms)))
  {
    hide Inv, MessageInv, S.Valid, Rem, S.Acked, Truthful, Has;
    InvWindow(cfg, x);
    var j := Wire(a.k) - x.s.base;
    var ms := S.Acked(x.s.msgs, j, a.vec);
    F.AckedValid(cfg.snd, x.s, j, a.vec);
    forall i: nat | i < |ms| ensures MessageInv(cfg, x.(s := x.s.(msgs := ms)), i) { TakenMessage(cfg, x, a, j, i); }
    SlideKeeps(cfg, x, ms, S.Done(ms));
  }

  lemma {:induction false} InvWindow(cfg: Config, x: Sys)
    requires Inv(cfg, x)
    ensures cfg.Valid() && S.Valid(cfg.snd, x.s) && x.s.base < SEQS && x.p.sn < SEQS && |x.s.msgs| < SEQS
    ensures x.open ==> |x.s.msgs| > 0
  {
  }

  /** A message that the acknowledgement left in the window shows what it said. */
  lemma {:induction false} LeftTells(cfg: Config, x: Sys, vec: Vec, j: nat, n: nat)
    requires cfg.Valid() && j < |x.s.msgs| && n <= j
    requires var ms := S.Acked(x.s.msgs, j, vec); var x' := Slide(x, ms, n); MessageInv(cfg, x', j - n)
    requires SegCount(|x.s.msgs[j].data|, cfg.snd.segLen) <= 16
    requires x.open && j == |x.s.msgs| - 1 ==> x.s.msgs[j].full == cfg.snd.FullVec()
    ensures if x.open && j == |x.s.msgs| - 1 then vec == 0 && x.s.tiny == 0 else Truthful(cfg, x, j, vec)
  {
    hide Mul, Quo, Flatten, Has, Rem, Mask, I.Got, Within;
    var ms := S.Acked(x.s.msgs, j, vec);
    assert |S.Datas(x.s.msgs[..n])| == n;
    assert ms[n..][j - n] == ms[j];
    OpenNotDone(cfg.snd.segs);
  }

  /** A message that it freed was complete. */
  lemma {:induction false} FreedTells(cfg: Config, x: Sys, vec: Vec, j: nat, n: nat)
    requires Inv(cfg, x) && j < n <= |x.s.msgs| && !(x.open && j == |x.s.msgs| - 1)
    requires var ms := S.Acked(x.s.msgs, j, vec); ms[j].cur == ms[j].full && PastInv(cfg, Slide(x, ms, n))
    ensures Truthful(cfg, x, j, vec)
  {
    hide Mul, Quo, Flatten, Has, Rem, I.Got, I.Inv, NetInv, AcksInv, I.Delivered, Mask, Within;
    assert MessageInv(cfg, x, j);
    var x', k := Slide(x, S.Acked(x.s.msgs, j, vec), n), |x.past| + j;
    var count := SegCount(|x.s.msgs[j].data|, cfg.snd.segLen);
    assert x'.past[k] == x.s.msgs[j].data;
    assert Complete(cfg, x', k, x'.past[k]);
    MaskWithin(count);
    assert vec == Mask(count);
  }

  lemma {:induction false} MaskWithin(n: nat)
    ensures Within(Mask(n), n)
  {
    forall i: nat | Has(Mask(n), i) ensures i < n { HasMask(n, i); }
  }

  /** After a slide past the message it is on, a pointer is outside the window. */
  lemma {:induction false} PtrLeft(cfg: Config, x: Sys, ms: seq<S.Message>, n: nat)
    requires cfg.Valid() && x.s.base < SEQS && x.p.sn < SEQS && n <= |ms| == |x.s.msgs| < SEQS
    requires x.p.valid && n > Ahead(x.p.sn, x.s.base)
    ensures !PtrInv(cfg, Slide(x, ms, n))
  {
    hide Mul, Quo, Flatten, Rem, SegCount;
    var q := Ahead(x.p.sn, x.s.base);
    AheadBack(x.p.sn, x.s.base);
    RemAdd(x.s.base + n, SEQS - n + q, SEQS);
    RemMul(x.s.base + q, 1, SEQS);
    MulOne(SEQS);
    AheadOf(Wire(x.s.base + n), SEQS - n + q);
  }

  lemma {:induction false} KeepsTells(cfg: Config, x: Sys, a: AckFrame)
    requires Inv(cfg, x) && S.Acceptable(x.s, Wire(a.k))
    requires var ms := S.Acked(x.s.msgs, Wire(a.k) - x.s.base, a.vec); Inv(cfg, Slide(x, ms, S.Done(ms)))
    ensures Harmless(cfg, x, a)
  {
    hide Mul, Quo, Flatten, Rem, Has, Mask, I.Got, I.Inv, NetInv, AcksInv, I.Delivered, Truthful, PtrInv, Within, PastInv, S.Done;
    InvWindow(cfg, x);
    var j := Wire(a.k) - x.s.base;
    var ms := S.Acked(x.s.msgs, j, a.vec);
    var n := S.Done(ms);
    if x.p.valid && n > Ahead(x.p.sn, x.s.base) { PtrLeft(cfg, x, ms, n); }
    if j < n {
      FreedTells(cfg, x, a.vec, j, n);
    } else {
      assert MessageInv(cfg, x, j);
      SegCountBounds(|x.s.msgs[j].data|, cfg.snd);
      LeftTells(cfg, x, a.vec, j, n);
    }
  }

  /** Taking an acknowledgement keeps the two-ended invariant exactly when it is harmless. */
  lemma {:induction false} AckKeepsIff(cfg: Config, x: Sys, a: AckFrame)
    requires Inv(cfg, x)
    ensures cfg.Valid() && x.s.base < SEQS && x.p.sn < SEQS
    ensures Inv(cfg, AckedSys(x, Some(a))) <==> Harmless(cfg, x, a)
  {
    hide Inv, AckedSys, S.Done, S.Acked, Rem, Truthful;
    InvWindow(cfg, x);
    AckedCases(x, Some(a));
    if S.Acceptable(x.s, Wire(a.k)) {
      var ms := S.Acked(x.s.msgs, Wire(a.k) - x.s.base, a.vec);
      if Harmless(cfg, x, a) { HarmlessKeeps(cfg, x, a); }
      if Inv(cfg, Slide(x, ms, S.Done(ms))) { KeepsTells(cfg, x, a); }
    }
  }
}
