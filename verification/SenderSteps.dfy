/** The sender's steps keep the two-ended invariant. */
module SenderSteps {
  import opened Arith
  import opened AckVec
  import opened SeqNum
  import opened Messages
  import opened TwoEnded
  import S = SendWindow
  import F = SendFifo
  import R = RecvWindow
  import I = RecvInvariant

  // ---- Growing the list of sealed messages ----

  lemma {:induction false} DeliveredExtends(w: R.RecvWnd, msgs: seq<seq<Byte>>, msgs': seq<seq<Byte>>, rb: nat)
    requires msgs <= msgs' && rb + w.slide <= |msgs|
    requires w.copyOfs > 0 ==> rb + w.slide < |msgs| && w.copyOfs <= |msgs[rb + w.slide]|
    ensures I.Delivered(w, msgs', rb) == I.Delivered(w, msgs, rb)
  {
    assert msgs'[..rb + w.slide] == msgs[..rb + w.slide];
  }

  lemma {:induction false} RecvExtends(sh: Shape, w: R.RecvWnd, msgs: seq<seq<Byte>>, msgs': seq<seq<Byte>>, rb: nat)
    requires I.Inv(sh, w, msgs, rb) && msgs <= msgs' && I.Sizes(sh, msgs')
    ensures I.Inv(sh, w, msgs', rb)
  {
    hide I.Holds, I.Blank, Rem, Mul, R.Marks, Has;
    forall j: nat | j < |w.slots| ensures I.SlotHolds(sh, w, msgs', rb, j) {
      assert I.SlotHolds(sh, w, msgs, rb, j);
    }
  }

  /** What the receiver, the network and the past know stays true when only the send window changed. */
  lemma {:induction false} SealedExtends(cfg: Config, x: Sys, x': Sys)
    requires Inv(cfg, x) && Sealed(x) <= Sealed(x') && I.Sizes(cfg.snd, Sealed(x'))
    requires x'.r == x.r && x'.rb == x.rb && x'.net == x.net && x'.acks == x.acks && x'.delivered == x.delivered
    ensures NetInv(cfg, x') && AcksInv(cfg, x')
    ensures I.Inv(cfg.rcv, x'.r, Sealed(x'), x'.rb)
    ensures x'.r.copyOfs > 0 ==> x'.rb + x'.r.slide < |Sealed(x')| && x'.r.copyOfs <= |Sealed(x')[x'.rb + x'.r.slide]|
    ensures x'.delivered == I.Delivered(x'.r, Sealed(x'), x'.rb)
  {
    RecvExtends(cfg.rcv, x.r, Sealed(x), Sealed(x'), x.rb);
    DeliveredExtends(x.r, Sealed(x), Sealed(x'), x.rb);
    forall d | d in x'.net ensures I.Genuine(cfg.rcv, d.f, Sealed(x'), d.k) {
      assert I.Genuine(cfg.rcv, d.f, Sealed(x), d.k);
    }
    forall a | a in x'.acks ensures AckInv(cfg, x', a) {
      assert AckInv(cfg, x, a);
    }
  }

  lemma {:induction false} SealedSizes(cfg: Config, x: Sys)
    requires cfg.Valid() && S.Valid(cfg.snd, x.s) && I.Sizes(cfg.snd, x.past)
    ensures I.Sizes(cfg.snd, Sealed(x))
  {
  }

  // ---- Sending ----

  /** The shape of the send window after a send of at least one byte. */
  lemma {:induction false} SendShape(cfg: Config, x: Sys, src: seq<Byte>)
    requires Inv(cfg, x) && !Flushed(cfg, x) && |src| > 0
    ensures var x' := SendStep(cfg, x, src); var L := cfg.snd.MsgLen();
      && S.Valid(cfg.snd, x'.s) && x'.s.base == x.s.base && |x'.s.msgs| >= |x.s.msgs|
      && (x'.open ==> |x'.s.msgs| > 0)
      && SealedSize(x') >= SealedSize(x)
      && (forall j: nat :: j < SealedSize(x) ==> x'.s.msgs[j].data == x.s.msgs[j].data)
      && (forall j: nat :: j < |x'.s.msgs| ==> (|x'.s.msgs[j].data| == L <==> j < SealedSize(x')))
      && S.Bytes(x'.s) == S.Bytes(x.s) + src[..S.Taken(cfg.snd, x.s, src)]
  {
    hide Rem, Mul, Quo, Flatten, S.Cut, I.Inv, PtrInv, NetInv, AcksInv, PastInv;
    F.SendRefinesQueue(cfg.snd, x.s, src, cfg.tinyDelay);
    var x' := SendStep(cfg, x, src);
    assert forall j: nat :: j < SealedSize(x) ==> |x.s.msgs[j].data| == cfg.snd.MsgLen();
    TinyMeansPartial(cfg, x, src);
  }

  /** After a send the tinygram timer is on exactly when the last message is unfinished. */
  lemma {:induction false} TinyMeansPartial(cfg: Config, x: Sys, src: seq<Byte>)
    requires S.Valid(cfg.snd, x.s) && |src| > 0
    ensures var s := S.Send(cfg.snd, x.s, src, cfg.tinyDelay);
      s.tinyOn <==> |s.msgs| > 0 && |s.msgs[|s.msgs| - 1].data| < cfg.snd.MsgLen()
  {
    hide Rem, Mul, Quo, Flatten, S.Cut;
    S.MsgLenPositive(cfg.snd);
    var cs := S.Cut(S.Bytes(x.s) + src[..S.Taken(cfg.snd, x.s, src)], cfg.snd.MsgLen());
    assert S.Send(cfg.snd, x.s, src, cfg.tinyDelay).msgs == S.Recut(cfg.snd, x.s, cs, cfg.tinyDelay);
  }

  lemma {:induction false} SendMessages(cfg: Config, x: Sys, src: seq<Byte>, j: nat)
    requires Inv(cfg, x) && !Flushed(cfg, x) && |src| > 0
    requires j < |SendStep(cfg, x, src).s.msgs|
    ensures MessageInv(cfg, SendStep(cfg, x, src), j)
  {
    hide Rem, Mul, Quo, Flatten, S.Cut, I.Inv, PtrInv, NetInv, AcksInv, PastInv, Has, Within, Mask;
    SendShape(cfg, x, src);
    TinyMeansPartial(cfg, x, src);
    S.MsgLenPositive(cfg.snd);
    var x' := SendStep(cfg, x, src);
    var cs := S.Cut(S.Bytes(x.s) + src[..S.Taken(cfg.snd, x.s, src)], cfg.snd.MsgLen());
    assert x'.s.msgs == S.Recut(cfg.snd, x.s, cs, cfg.tinyDelay);
    assert x'.s.msgs[j] == S.SentMessage(cfg.snd, x.s, cs[j], j, cfg.tinyDelay);
    SegCountBounds(cfg.snd.MsgLen(), cfg.snd);
    NoMarks(cfg.snd.segs);
    if j < |x.s.msgs| {
      assert MessageInv(cfg, x, j);
    }
  }

  lemma {:induction false} NoMarks(n: nat)
    ensures Within(0, n) && forall seg: nat :: !Has(0, seg)
  {
    forall seg: nat ensures !Has(0, seg) { HasZero(seg); }
  }

  lemma {:induction false} SendKeeps(cfg: Config, x: Sys, src: seq<Byte>)
    requires Inv(cfg, x) && (|src| > 0 ==> !Flushed(cfg, x))
    ensures Inv(cfg, SendStep(cfg, x, src))
  {
    hide Rem, Mul, Quo, Flatten, S.Send, I.Inv, MessageInv, NetInv, AcksInv, PastInv, S.Valid, I.Delivered;
    var x' := SendStep(cfg, x, src);
    if |src| == 0 {
      SendNothing(cfg, x, src);
    } else {
      SendShape(cfg, x, src);
      forall j: nat | j < |x'.s.msgs| ensures MessageInv(cfg, x', j) { SendMessages(cfg, x, src, j); }
      SealedSizes(cfg, x');
      assert Sealed(x) <= Sealed(x') by { SealedPrefix(x, x'); }
      SealedExtends(cfg, x, x');
      FlattenConcat(x.past, S.Datas(x.s.msgs));
      FlattenConcat(x.past, S.Datas(x'.s.msgs));
      PastSame(cfg, x, x');
    }
  }

  lemma {:induction false} SendNothing(cfg: Config, x: Sys, src: seq<Byte>)
    requires S.Valid(cfg.snd, x.s) && |src| == 0
    ensures SendStep(cfg, x, src) == x
  {
    assert x.accepted + src[..S.Taken(cfg.snd, x.s, src)] == x.accepted;
  }

  lemma {:induction false} SealedPrefix(x: Sys, x': Sys)
    requires x'.past == x.past && SealedSize(x') >= SealedSize(x)
    requires forall j: nat :: j < SealedSize(x) ==> x'.s.msgs[j].data == x.s.msgs[j].data
    ensures Sealed(x) <= Sealed(x')
  {
  }

  lemma {:induction false} PastSame(cfg: Config, x: Sys, x': Sys)
    requires cfg.Valid() && PastInv(cfg, x) && x'.past == x.past && x'.r == x.r && x'.rb == x.rb
    ensures PastInv(cfg, x')
  {
    forall k: nat | k < |x'.past| ensures Complete(cfg, x', k, x'.past[k]) {
      assert Complete(cfg, x, k, x.past[k]);
    }
  }

  // ---- Acknowledgements ----

  /** An acknowledgement within age speaks of the message of the window that has its number. */
  lemma {:induction false} AckNumber(cfg: Config, x: Sys, a: AckFrame)
    requires Inv(cfg, x) && a in x.acks && |x.past| + |x.s.msgs| <= a.k + SEQS && S.Acceptable(x.s, Wire(a.k))
    ensures a.k == |x.past| + (Wire(a.k) - x.s.base) < |x.past| + SealedSize(x)
  {
    hide Mul, Quo, Flatten, I.Inv, MessageInv, NetInv, PastInv, Has, Within;
    assert AckInv(cfg, x, a);
    var j := Wire(a.k) - x.s.base;
    RemAdd(|x.past|, j, SEQS);
    WireSame(a.k, |x.past| + j);
  }

  /** Message i of the window once message j took the vector of a truthful acknowledgement. */
  lemma {:induction false} AckedMessage(cfg: Config, x: Sys, a: AckFrame, j: nat, i: nat)
    requires Inv(cfg, x) && a in x.acks && j < SealedSize(x) && a.k == |x.past| + j && i < |x.s.msgs|
    ensures MessageInv(cfg, x.(s := x.s.(msgs := S.Acked(x.s.msgs, j, a.vec))), i)
  {
    hide Mul, Quo, Flatten, I.Inv, NetInv, PastInv, Has, Rem, Mask;
    assert MessageInv(cfg, x, i);
    assert AckInv(cfg, x, a);
    if i == j { assert Sealed(x)[a.k] == x.s.msgs[j].data; }
  }

  /** A message completely acknowledged is completely received. */
  lemma {:induction false} DoneIsComplete(cfg: Config, x: Sys, ms: seq<S.Message>, j: nat)
    requires cfg.Valid() && j < |ms| && ms[j].cur == ms[j].full
    requires MessageInv(cfg, x.(s := x.s.(msgs := ms)), j)
    ensures !(x.open && j == |ms| - 1)
    ensures Complete(cfg, x, |x.past| + j, ms[j].data)
  {
    hide Mul, Quo, Has, Rem, Mask;
    var n := SegCount(|ms[j].data|, cfg.snd.segLen);
    if x.open && j == |ms| - 1 {
      OpenNotDone(cfg.snd.segs);
    } else {
      LessThanMask(ms[j].cur, n);
      var k := |x.past| + j;
      forall seg: nat | seg < n ensures I.Got(x.r, x.rb, k, seg) {
        assert Has(ms[j].cur, seg);
      }
    }
  }

  lemma {:induction false} OpenNotDone(n: nat)
    requires n >= 1
    ensures Mask(n) != 0
  {
    MaskOrder(0, n);
  }

  /** x without its first n messages, whose records now read ms. */
  function Slide(x: Sys, ms: seq<S.Message>, n: nat): Sys
    requires n <= |ms| == |x.s.msgs|
  {
    x.(s := x.s.(base := Wire(x.s.base + n), msgs := ms[n..]), past := x.past + S.Datas(x.s.msgs[..n]))
  }

  lemma {:induction false} SlidePast(cfg: Config, x: Sys, ms: seq<S.Message>, n: nat)
    requires cfg.Valid() && PastInv(cfg, x) && n <= |ms| == |x.s.msgs| && S.Datas(ms) == S.Datas(x.s.msgs)
    requires forall i: nat :: i < |ms| ==> MessageInv(cfg, x.(s := x.s.(msgs := ms)), i)
    requires forall i :: 0 <= i < n ==> ms[i].cur == ms[i].full
    ensures PastInv(cfg, Slide(x, ms, n))
    ensures x.open ==> n <= |ms| - 1 || |ms| == 0
  {
    hide Mul, Quo, Rem, Has, Mask, Within, I.Got, MessageInv;
    var x' := Slide(x, ms, n);
    if x.open && 0 < n == |ms| {
      DoneIsComplete(cfg, x, ms, n - 1);
    }
    forall i: nat | i < n ensures Complete(cfg, x, |x.past| + i, ms[i].data) {
      DoneIsComplete(cfg, x, ms, i);
    }
    forall k: nat | k < |x'.past| ensures Complete(cfg, x', k, x'.past[k]) {
      if k < |x.past| {
        assert Complete(cfg, x, k, x.past[k]);
      } else {
        assert S.Datas(ms)[k - |x.past|] == S.Datas(x.s.msgs)[k - |x.past|];
        assert Complete(cfg, x, k, ms[k - |x.past|].data);
      }
    }
  }

  lemma {:induction false} SlideMessages(cfg: Config, x: Sys, ms: seq<S.Message>, n: nat)
    requires cfg.Valid() && n <= |ms| == |x.s.msgs|
    requires forall i: nat :: i < |ms| ==> MessageInv(cfg, x.(s := x.s.(msgs := ms)), i)
    requires x.open ==> n < |ms|
    ensures forall i: nat :: i < |ms| - n ==> MessageInv(cfg, Slide(x, ms, n), i)
  {
    hide Mul, Quo, Rem, Has, Mask, Within, I.Got;
    var x1, x' := x.(s := x.s.(msgs := ms)), Slide(x, ms, n);
    forall i: nat | i < |ms| - n ensures MessageInv(cfg, x', i) {
      assert MessageInv(cfg, x1, n + i);
      assert |S.Datas(x.s.msgs[..n])| == n;
      assert |x'.past| + i == |x.past| + (n + i);
    }
  }

  /** Dropping the first n messages, all of them completely received. */
  lemma {:induction false} SlideKeeps(cfg: Config, x: Sys, ms: seq<S.Message>, n: nat)
    requires Inv(cfg, x) && n <= |ms| == |x.s.msgs| && S.Datas(ms) == S.Datas(x.s.msgs)
    requires S.Valid(cfg.snd, x.s.(msgs := ms))
    requires forall i: nat :: i < |ms| ==> MessageInv(cfg, x.(s := x.s.(msgs := ms)), i)
    requires forall i :: 0 <= i < n ==> ms[i].cur == ms[i].full
    requires x.p.valid ==> n <= Ahead(x.p.sn, x.s.base)
    ensures Inv(cfg, Slide(x, ms, n))
  {
    hide Mul, Quo, Flatten, I.Inv, NetInv, AcksInv, PastInv, MessageInv, Has, Mask, Within, I.Delivered, I.Got, Rem, SealedSize, All, Sealed;
    var x' := Slide(x, ms, n);
    SlidePast(cfg, x, ms, n);
    SlideMessages(cfg, x, ms, n);
    F.DropValid(cfg.snd, x.s.(msgs := ms), n);
    RemAdd(|x.past|, n, SEQS);
    SlidLists(x, x.(s := x.s.(msgs := ms)), x', n);
    PastSizes(cfg, x, n);
    SealedSizes(cfg, x');
    SealedExtends(cfg, x, x');
    if x.p.valid {
      PtrSlides(x.p.sn, x.s.base, n);
      assert S.Datas(ms)[Ahead(x.p.sn, x.s.base)] == S.Datas(x.s.msgs)[Ahead(x.p.sn, x.s.base)];
    }
  }

  lemma {:induction false} PastSizes(cfg: Config, x: Sys, n: nat)
    requires cfg.Valid() && S.Valid(cfg.snd, x.s) && I.Sizes(cfg.snd, x.past) && n <= |x.s.msgs|
    ensures I.Sizes(cfg.snd, x.past + S.Datas(x.s.msgs[..n]))
  {
    hide Mul, Rem;
  }

  lemma {:induction false} SlidLists(x: Sys, x1: Sys, x': Sys, n: nat)
    requires n <= |x.s.msgs| == |x1.s.msgs| && S.Datas(x1.s.msgs) == S.Datas(x.s.msgs)
    requires x'.past == x.past + S.Datas(x.s.msgs[..n]) && x'.s.msgs == x1.s.msgs[n..] && x'.open == x.open
    requires x.open ==> n < |x.s.msgs|
    ensures Sealed(x') == Sealed(x) && All(x') == All(x) && SealedSize(x') + n == SealedSize(x)
  {
    var d := S.Datas(x.s.msgs);
    assert S.Datas(x.s.msgs[..n]) == d[..n];
    assert S.Datas(x'.s.msgs) == S.Datas(x1.s.msgs)[n..];
    hide S.Datas;
    Regroup(x.past, d, n, SealedSize(x));
  }

  lemma {:induction false} Regroup(past: seq<seq<Byte>>, d: seq<seq<Byte>>, n: nat, m: nat)
    requires n <= m <= |d|
    ensures (past + d[..n]) + d[n..] == past + d
    ensures (past + d[..n]) + d[n..][..m - n] == past + d[..m]
  {
    assert d[..n] + d[n..] == d;
    assert d[..n] + d[n..][..m - n] == d[..m];
  }

  /** The place of the pointer after a slide. */
  lemma {:induction false} PtrSlides(sn: nat, base: nat, n: nat)
    requires sn < SEQS && base < SEQS && n <= Ahead(sn, base)
    ensures Ahead(sn, Wire(base + n)) == Ahead(sn, base) - n
  {
    var q := Ahead(sn, base);
    AheadBack(sn, base);
    RemAdd(base + n, q - n, SEQS);
    AheadOf(Wire(base + n), q - n);
  }

  lemma {:induction false} AcceptedKeeps(cfg: Config, x: Sys, a: AckFrame)
    requires Inv(cfg, x) && a in x.acks && |x.past| + |x.s.msgs| <= a.k + SEQS && S.Acceptable(x.s, Wire(a.k))
    requires x.p.valid ==> S.Freed(x.s, Wire(a.k), a.vec) <= Ahead(x.p.sn, x.s.base)
    ensures var ms := S.Acked(x.s.msgs, Wire(a.k) - x.s.base, a.vec);
      Inv(cfg, Slide(x, ms, S.Done(ms)))
  {
    var j := Wire(a.k) - x.s.base;
    AckNumber(cfg, x, a);
    var ms := S.Acked(x.s.msgs, j, a.vec);
    F.AckedValid(cfg.snd, x.s, j, a.vec);
    hide Inv, S.Acked, MessageInv, S.Valid, Rem;
    forall i: nat | i < |ms| ensures MessageInv(cfg, x.(s := x.s.(msgs := ms)), i) { AckedMessage(cfg, x, a, j, i); }
    SlideKeeps(cfg, x, ms, S.Done(ms));
  }

  lemma {:induction false} AckedCases(x: Sys, ack: Option<AckFrame>)
    ensures ack.None? || !S.Acceptable(x.s, Wire(ack.value.k)) ==> AckedSys(x, ack) == x
    ensures ack.Some? && S.Acceptable(x.s, Wire(ack.value.k)) ==>
      var ms := S.Acked(x.s.msgs, Wire(ack.value.k) - x.s.base, ack.value.vec);
      AckedSys(x, ack) == Slide(x, ms, S.Done(ms)) && FreedBy(x, ack) == S.Done(ms)
  {
    hide Rem, S.Done, S.Acked, Wire;
    assert S.Datas(x.s.msgs[..0]) == [];
  }

  lemma {:induction false} AckKeeps(cfg: Config, x: Sys, ack: Option<AckFrame>, dt: Time, room: bool)
    requires Inv(cfg, x) && Enabled(cfg, x, PollSender(ack, dt, room))
    ensures Inv(cfg, AckedSys(x, ack))
  {
    hide Inv, AckedSys, S.Done, S.Acked, Rem;
    AckedCases(x, ack);
    if ack.Some? && S.Acceptable(x.s, Wire(ack.value.k)) {
      AcceptedKeeps(cfg, x, ack.value);
    }
  }

  // ---- Timers and flush ----

  /** Changes to the records of messages that leave their bytes alone. */
  lemma {:induction false} RecordsKeep(cfg: Config, x: Sys, x': Sys)
    requires Inv(cfg, x) && x' == x.(s := x'.s, open := x'.open)
    requires S.Valid(cfg.snd, x'.s) && x'.s.base == x.s.base && S.Datas(x'.s.msgs) == S.Datas(x.s.msgs)
    requires x'.open ==> x.open
    requires forall j: nat :: j < |x'.s.msgs| ==> MessageInv(cfg, x', j)
    ensures Inv(cfg, x')
  {
    hide Mul, Quo, Flatten, I.Inv, NetInv, AcksInv, PastInv, MessageInv, Has, Mask, Rem, I.Delivered, Within;
    assert |x'.s.msgs| == |S.Datas(x'.s.msgs)| == |x.s.msgs|;
    forall j: nat | j < |x.s.msgs| ensures x'.s.msgs[j].data == x.s.msgs[j].data {
      assert S.Datas(x'.s.msgs)[j] == S.Datas(x.s.msgs)[j];
    }
    SealedPrefix(x, x');
    SealedSizes(cfg, x');
    SealedExtends(cfg, x, x');
    PastSame(cfg, x, x');
  }

  lemma {:induction false} FlushKeeps(cfg: Config, x: Sys)
    requires Inv(cfg, x)
    ensures Inv(cfg, FlushSys(cfg, x))
  {
    hide Mul, Quo, Flatten, I.Inv, NetInv, AcksInv, PastInv, Has, Rem, I.Delivered, Mask, I.Got;
    var x' := FlushSys(cfg, x);
    S.FlushValid(cfg.snd, x.s);
    forall j: nat | j < |x'.s.msgs| ensures MessageInv(cfg, x', j) {
      assert MessageInv(cfg, x, j);
      NoMarks(SegCount(|x.s.msgs[j].data|, cfg.snd.segLen));
    }
    RecordsKeep(cfg, x, x');
  }

  lemma {:induction false} StepKeeps(cfg: Config, x: Sys, dt: Time)
    requires Inv(cfg, x)
    ensures Inv(cfg, x.(s := S.Step(x.s, dt)))
  {
    hide Mul, Quo, Flatten, I.Inv, NetInv, AcksInv, PastInv, Has, Rem, I.Delivered, Mask, I.Got, Within;
    var x' := x.(s := S.Step(x.s, dt));
    S.StepValid(cfg.snd, x.s, dt);
    forall j: nat | j < |x'.s.msgs| ensures MessageInv(cfg, x', j) {
      assert MessageInv(cfg, x, j);
    }
    RecordsKeep(cfg, x, x');
  }

  lemma {:induction false} TinyOffKeeps(cfg: Config, x: Sys)
    requires Inv(cfg, x) && !x.open
    ensures Inv(cfg, x.(s := x.s.(tinyOn := false)))
  {
    hide Mul, Quo, Flatten, I.Inv, NetInv, AcksInv, PastInv, Has, Rem, I.Delivered, Mask, I.Got, Within;
    var x' := x.(s := x.s.(tinyOn := false));
    forall j: nat | j < |x'.s.msgs| ensures MessageInv(cfg, x', j) {
      assert MessageInv(cfg, x, j);
    }
    RecordsKeep(cfg, x, x');
  }

  /** An open message has its timer running after the timers of a poll. */
  ghost predicate OpenWaits(x: Sys) {
    x.open ==> |x.s.msgs| > 0 && x.s.msgs[|x.s.msgs| - 1].rtx > 0
  }

  lemma {:induction false} TimedKeeps(cfg: Config, x: Sys, dt: Time)
    requires Inv(cfg, x)
    ensures Inv(cfg, TimedSys(cfg, x, dt)) && OpenWaits(TimedSys(cfg, x, dt))
  {
    StepKeeps(cfg, x, dt);
    var y := x.(s := S.Step(x.s, dt));
    if y.s.tinyOn && y.s.tiny == 0 {
      FlushKeeps(cfg, y);
      TinyOffKeeps(cfg, FlushSys(cfg, y));
      assert TimedSys(cfg, x, dt) == FlushSys(cfg, y).(s := FlushSys(cfg, y).s.(tinyOn := false));
    } else {
      assert TimedSys(cfg, x, dt) == y;
      if y.open { assert MessageInv(cfg, y, |y.s.msgs| - 1); }
    }
  }

  // ---- Emission ----

  /** A message that misses a segment has its first clear bit below its segment count. */
  lemma {:induction false} ClearBelow(cur: Vec, n: nat)
    requires n <= 16 && Within(cur, n) && cur < Mask(n)
    ensures FirstClear(cur, 0) < n
  {
    LessThanMask(cur, n);
    assert !Full(cur, n);
  }

  /** Where the pointer of a send poll ends up: on a sealed message, at a segment it has. */
  lemma {:induction false} NextInv(cfg: Config, x: Sys)
    requires Inv(cfg, x) && OpenWaits(x)
    ensures PtrInv(cfg, x.(p := S.PtrNext(cfg.snd, x.s, x.p).0))
  {
    hide Mul, Quo, Flatten, I.Inv, NetInv, AcksInv, PastInv, Has, Rem, I.Delivered, Mask, I.Got, Within, FirstClear;
    var s, p := x.s, x.p;
    var p' := S.PtrNext(cfg.snd, s, p).0;
    if p.valid {
      var j := Ahead(p.sn, s.base);
      RemSmall(j, cfg.snd.cap);
      assert MessageInv(cfg, x, j);
      var m, n := s.msgs[j], SegCount(|s.msgs[j].data|, cfg.snd.segLen);
      var seg := FirstClear(m.cur, p.seg + 1);
      MaskOrder(seg, n);
      if !(Mask(seg) < m.full) { ScanInv(cfg, x, p.(seg := seg)); }
    } else {
      ScanInv(cfg, x, p);
    }
  }

  lemma {:induction false} ScanInv(cfg: Config, x: Sys, p: S.Ptr)
    requires Inv(cfg, x) && OpenWaits(x) && p.sn < SEQS
    ensures PtrInv(cfg, x.(p := S.PtrScan(x.s, p)))
  {
    hide Mul, Quo, Flatten, I.Inv, NetInv, AcksInv, PastInv, Has, Rem, I.Delivered, Mask, I.Got, Within, FirstClear;
    var k := S.Scan(x.s, p, 0);
    if k < |x.s.msgs| {
      assert MessageInv(cfg, x, k);
      assert S.Eligible(x.s, p, k);
      SegCountBounds(|x.s.msgs[k].data|, cfg.snd);
      ClearBelow(x.s.msgs[k].cur, SegCount(|x.s.msgs[k].data|, cfg.snd.segLen));
      AheadOf(x.s.base, k);
    }
  }

  lemma {:induction false} RestartKeeps(cfg: Config, x: Sys)
    requires Inv(cfg, x) && x.p.valid
    ensures Inv(cfg, x.(s := S.Restart(cfg.snd, x.s, x.p.sn, cfg.rto)))
  {
    hide Mul, Quo, Flatten, I.Inv, NetInv, AcksInv, PastInv, Has, Rem, I.Delivered, Mask, I.Got, Within;
    var j := Ahead(x.p.sn, x.s.base);
    RemSmall(j, cfg.snd.cap);
    var x' := x.(s := S.Restart(cfg.snd, x.s, x.p.sn, cfg.rto));
    assert S.Datas(x'.s.msgs) == S.Datas(x.s.msgs);
    forall i: nat | i < |x'.s.msgs| ensures MessageInv(cfg, x', i) {
      assert MessageInv(cfg, x, i);
    }
    RecordsKeep(cfg, x, x');
  }

  /** The frame cut for a pointer that satisfies the invariant is genuine. */
  lemma {:induction false} EmittedGenuine(cfg: Config, x: Sys)
    requires Inv(cfg, x) && x.p.valid
    ensures var m := S.AtSlot(cfg.snd, x.s, x.p.sn);
      var f := R.Frame(x.p.sn, x.p.seg, SegCount(|m.data|, cfg.snd.segLen), Cut(m.data, x.p.seg, cfg.snd.segLen));
      I.Genuine(cfg.rcv, f, Sealed(x), |x.past| + Ahead(x.p.sn, x.s.base))
  {
    hide Quo, Flatten, I.Inv, NetInv, AcksInv, PastInv, Has, I.Delivered, Mask, I.Got, Within, MessageInv;
    var j := Ahead(x.p.sn, x.s.base);
    RemSmall(j, cfg.snd.cap);
    AheadBack(x.p.sn, x.s.base);
    RemAdd(|x.past|, j, SEQS);
    SegCountIs(|x.s.msgs[j].data|, cfg.snd.segLen, x.p.seg);
    assert Sealed(x)[|x.past| + j] == x.s.msgs[j].data;
  }

  lemma {:induction false} NetGrows(cfg: Config, x: Sys, d: DataFrame)
    requires Inv(cfg, x) && I.Genuine(cfg.rcv, d.f, Sealed(x), d.k)
    ensures Inv(cfg, x.(net := x.net + {d}))
  {
    hide Mul, Quo, Flatten, I.Inv, Has, Rem, I.Delivered, Mask, I.Got, Within;
    var x' := x.(net := x.net + {d});
    assert Sealed(x') == Sealed(x) && All(x') == All(x);
    forall j: nat | j < |x'.s.msgs| ensures MessageInv(cfg, x', j) { assert MessageInv(cfg, x, j); }
    forall k: nat | k < |x'.past| ensures Complete(cfg, x', k, x'.past[k]) { assert Complete(cfg, x, k, x.past[k]); }
    forall a | a in x'.acks ensures AckInv(cfg, x', a) { assert AckInv(cfg, x, a); }
    forall e | e in x'.net ensures I.Genuine(cfg.rcv, e.f, Sealed(x'), e.k) {
      if e != d { assert I.Genuine(cfg.rcv, e.f, Sealed(x), e.k); }
    }
  }

  lemma {:induction false} PtrMoves(cfg: Config, x: Sys, p: S.Ptr)
    requires Inv(cfg, x) && PtrInv(cfg, x.(p := p))
    ensures Inv(cfg, x.(p := p))
  {
    hide Mul, Quo, Flatten, I.Inv, Has, Rem, I.Delivered, Mask, I.Got, Within;
    var x' := x.(p := p);
    assert Sealed(x') == Sealed(x) && All(x') == All(x);
    forall j: nat | j < |x'.s.msgs| ensures MessageInv(cfg, x', j) { assert MessageInv(cfg, x, j); }
    forall k: nat | k < |x'.past| ensures Complete(cfg, x', k, x'.past[k]) { assert Complete(cfg, x, k, x.past[k]); }
    forall a | a in x'.acks ensures AckInv(cfg, x', a) { assert AckInv(cfg, x, a); }
  }

  /** Moving to a pointer that satisfies the invariant, and sending its segment. */
  lemma {:induction false} MoveAndSend(cfg: Config, x: Sys, p: S.Ptr)
    requires Inv(cfg, x) && PtrInv(cfg, x.(p := p)) && p.valid
    ensures var m := S.AtSlot(cfg.snd, x.s, p.sn);
      var f := R.Frame(p.sn, p.seg, SegCount(|m.data|, cfg.snd.segLen), Cut(m.data, p.seg, cfg.snd.segLen));
      Inv(cfg, x.(p := p, net := x.net + {DataFrame(|x.past| + Ahead(p.sn, x.s.base), f)}))
  {
    PtrMoves(cfg, x, p);
    EmittedGenuine(cfg, x.(p := p));
    hide Mul, Quo, Flatten, I.Inv, NetInv, AcksInv, PastInv, MessageInv, Rem, I.Delivered;
    var m := S.AtSlot(cfg.snd, x.s, p.sn);
    var f := R.Frame(p.sn, p.seg, SegCount(|m.data|, cfg.snd.segLen), Cut(m.data, p.seg, cfg.snd.segLen));
    NetGrows(cfg, x.(p := p), DataFrame(|x.past| + Ahead(p.sn, x.s.base), f));
  }

  /** Restarting a timer does not disturb a pointer. */
  lemma {:induction false} RestartPtr(cfg: Config, x: Sys, p: S.Ptr)
    requires Inv(cfg, x) && x.p.valid && PtrInv(cfg, x.(p := p))
    ensures PtrInv(cfg, x.(s := S.Restart(cfg.snd, x.s, x.p.sn, cfg.rto), p := p))
  {
    hide Mul, Quo, Flatten, I.Inv, NetInv, AcksInv, PastInv, MessageInv, Rem, I.Delivered;
    RemSmall(Ahead(x.p.sn, x.s.base), cfg.snd.cap);
  }

  /** EmitSys, with the move of the pointer and the restart of the timer taken apart. */
  lemma {:induction false} EmitCases(cfg: Config, x: Sys)
    requires S.Valid(cfg.snd, x.s) && S.PtrOk(x.p)
    ensures var (p, completed) := S.PtrNext(cfg.snd, x.s, x.p);
      var y := if completed then x.(s := S.Restart(cfg.snd, x.s, x.p.sn, cfg.rto)) else x;
      if !p.valid then EmitSys(cfg, x) == y.(p := p)
      else
        var m := S.AtSlot(cfg.snd, y.s, p.sn);
        var f := R.Frame(p.sn, p.seg, SegCount(|m.data|, cfg.snd.segLen), Cut(m.data, p.seg, cfg.snd.segLen));
        EmitSys(cfg, x) == y.(p := p, net := y.net + {DataFrame(|y.past| + Ahead(p.sn, y.s.base), f)})
    ensures S.PtrNext(cfg.snd, x.s, x.p).1 ==> x.p.valid
  {
    hide Rem, Mul, Quo, Cut, S.PtrScan, Mask, FirstClear;
  }

  lemma {:induction false} EmitKeeps(cfg: Config, x: Sys)
    requires Inv(cfg, x) && OpenWaits(x)
    ensures Inv(cfg, EmitSys(cfg, x))
  {
    hide S.PtrNext, Inv, PtrInv, S.AtSlot, S.Restart, Cut, EmitSys;
    InvFormed(cfg, x);
    var (p', completed) := S.PtrNext(cfg.snd, x.s, x.p);
    EmitCases(cfg, x);
    NextInv(cfg, x);
    var y := if completed then x.(s := S.Restart(cfg.snd, x.s, x.p.sn, cfg.rto)) else x;
    if completed {
      RestartKeeps(cfg, x);
      RestartPtr(cfg, x, p');
    }
    if p'.valid { MoveAndSend(cfg, y, p'); } else { PtrMoves(cfg, y, p'); }
  }
}
