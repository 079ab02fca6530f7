/** The send window is a bounded byte queue cut into messages. */
module SendFifo {
  import opened Arith
  import opened AckVec
  import opened SeqNum
  import opened Messages
  import opened SendWindow

  // ---- Strings and their pieces ----

  /** No piece is empty or too long, and every piece but the last has the full length. */
  ghost predicate WellCut(xs: seq<seq<Byte>>, L: nat) {
    && (forall j :: 0 <= j < |xs| ==> 0 < |xs[j]| <= L)
    && (forall j :: 0 <= j < |xs| - 1 ==> |xs[j]| == L)
  }

  lemma {:induction false} CutProperties(b: seq<Byte>, L: nat)
    requires L > 0
    ensures WellCut(Cut(b, L), L) && Flatten(Cut(b, L)) == b
    decreases |b|
  {
    if 0 < |b| <= L {
      FlattenOne(b);
    } else if |b| > L {
      CutProperties(b[L..], L);
      var c := Cut(b[L..], L);
      assert Cut(b, L)[1..] == c;
      assert c != [];
    }
  }

  /** Cutting undoes concatenation. */
  lemma {:induction false} CutOfFlatten(xs: seq<seq<Byte>>, L: nat)
    requires L > 0 && WellCut(xs, L)
    ensures Cut(Flatten(xs), L) == xs
  {
    if |xs| == 1 {
      assert xs == [xs[0]];
      FlattenOne(xs[0]);
    } else if |xs| > 1 {
      var rest := xs[1..];
      CutOfFlatten(rest, L);
      var b := Flatten(xs);
      assert b[..L] == xs[0] && b[L..] == Flatten(rest);
      assert |Flatten(rest)| >= |rest[0]| > 0;
    }
  }

  /** Appending to a string appends to its pieces: full pieces stay, and the last one grows. */
  lemma {:induction false} CutGrows(b: seq<Byte>, more: seq<Byte>, L: nat)
    requires L > 0
    ensures var xs, ys := Cut(b, L), Cut(b + more, L);
      && |xs| <= |ys|
      && (forall j :: 0 <= j < |xs| ==> xs[j] <= ys[j])
      && (forall j :: 0 <= j < |xs| && |xs[j]| == L ==> ys[j] == xs[j])
    decreases |b|
  {
    if |b| > L {
      assert (b + more)[..L] == b[..L] && (b + more)[L..] == b[L..] + more;
      CutGrows(b[L..], more, L);
    }
  }

  /** A string fits in n pieces exactly when its length is at most n * L. */
  lemma {:induction false} CutCount(b: seq<Byte>, L: nat, n: nat)
    requires L > 0
    ensures |Cut(b, L)| <= n <==> |b| <= Mul(n, L)
    decreases n
  {
    if n > 0 && |b| > L {
      CutCount(b[L..], L, n - 1);
    }
  }

  lemma {:induction false} WindowIsCut(sh: Shape, w: SendWnd)
    requires Valid(sh, w)
    ensures sh.MsgLen() > 0 && Cut(Bytes(w), sh.MsgLen()) == Datas(w.msgs)
    ensures |Bytes(w)| <= Mul(sh.cap, sh.MsgLen())
  {
    MsgLenPositive(sh);
    CutOfFlatten(Datas(w.msgs), sh.MsgLen());
    CutCount(Bytes(w), sh.MsgLen(), sh.cap);
  }

  // ---- Sending ----

  /**
   * A send takes exactly as many bytes as fit and appends them to the window bytes. Messages that
   * were complete keep their bytes; the last one can only grow.
   */
  lemma {:induction false} SendRefinesQueue(sh: Shape, w: SendWnd, src: seq<Byte>, delay: Time)
    requires Valid(sh, w)
    ensures var n, w' := Taken(sh, w, src), Send(sh, w, src, delay);
      && n == Min(|src|, Mul(sh.cap, sh.MsgLen()) - |Bytes(w)|)
      && Bytes(w') == Bytes(w) + src[..n]
      && Valid(sh, w') && w'.base == w.base
      && |w'.msgs| >= |w.msgs|
      && (forall j :: 0 <= j < |w.msgs| ==> w.msgs[j].data <= w'.msgs[j].data)
      && (forall j :: 0 <= j < |w.msgs| && |w.msgs[j].data| == sh.MsgLen() ==> w'.msgs[j].data == w.msgs[j].data)
  {
    hide Rem, Mul, Flatten, Cut;
    WindowIsCut(sh, w);
    MaskIsVec(sh.segs);
    if |src| == 0 {
      assert Bytes(w) + [] == Bytes(w);
    } else {
      var n, w', L := Taken(sh, w, src), Send(sh, w, src, delay), sh.MsgLen();
      var b := Bytes(w) + src[..n];
      var cs := Cut(b, L);
      CutProperties(b, L);
      CutGrows(Bytes(w), src[..n], L);
      CutCount(b, L, sh.cap);
      assert Datas(w'.msgs) == cs;
    }
  }

  // ---- Adding to the last message ----

  /** More bytes that fit in the last piece go there. */
  lemma {:induction false} CutFills(b: seq<Byte>, more: seq<Byte>, L: nat)
    requires L > 0 && |b| > 0
    requires var xs := Cut(b, L); |xs| > 0 && |xs[|xs| - 1]| + |more| <= L
    ensures var xs := Cut(b, L); Cut(b + more, L) == xs[|xs| - 1 := xs[|xs| - 1] + more]
    decreases |b|
  {
    if |b| > L {
      assert (b + more)[..L] == b[..L] && (b + more)[L..] == b[L..] + more;
      var xs := Cut(b[L..], L);
      assert Cut(b, L) == [b[..L]] + xs;
      CutFills(b[L..], more, L);
    }
  }

  /** The last message is unfinished. */
  predicate Unfinished(sh: Shape, w: SendWnd) {
    |w.msgs| > 0 && |w.msgs[|w.msgs| - 1].data| < sh.MsgLen()
  }

  /** The window whose last message grew by src. */
  function Grown(sh: Shape, w: SendWnd, src: seq<Byte>): SendWnd
    requires |w.msgs| > 0
  {
    var j := |w.msgs| - 1;
    var m := w.msgs[j];
    var data := m.data + src;
    w.(msgs := w.msgs[j := m.(data := data, rtx := if |data| == sh.MsgLen() then 0 else m.rtx)],
       tinyOn := |data| < sh.MsgLen())
  }

  /** A send that fits in the unfinished last message changes nothing else. */
  lemma {:induction false} SendGrows(sh: Shape, w: SendWnd, src: seq<Byte>, delay: Time)
    requires Valid(sh, w) && Unfinished(sh, w) && |src| > 0
    requires |w.msgs[|w.msgs| - 1].data| + |src| <= sh.MsgLen()
    ensures Taken(sh, w, src) == |src|
    ensures Send(sh, w, src, delay) == Grown(sh, w, src)
  {
    hide Rem, Mul, Quo, Flatten, Cut;
    var j, L := |w.msgs| - 1, sh.MsgLen();
    WindowIsCut(sh, w);
    BytesNotEmpty(w);
    assert Datas(w.msgs)[j] == w.msgs[j].data;
    CutFills(Bytes(w), src, L);
    CutCount(Bytes(w) + src, L, sh.cap);
    assert src[..|src|] == src;
    var cs := Cut(Bytes(w) + src, L);
    assert Recut(sh, w, cs, delay) == Grown(sh, w, src).msgs;
  }

  lemma {:induction false} BytesNotEmpty(w: SendWnd)
    requires |w.msgs| > 0 && |w.msgs[0].data| > 0
    ensures |Bytes(w)| > 0
  {
  }

  /** A send that goes past the last message fills it first. */
  lemma {:induction false} SendSplits(sh: Shape, w: SendWnd, a: seq<Byte>, b: seq<Byte>, delay: Time)
    requires Valid(sh, w) && Unfinished(sh, w) && |b| > 0
    requires |w.msgs[|w.msgs| - 1].data| + |a| == sh.MsgLen()
    ensures Valid(sh, Send(sh, w, a, delay))
    ensures Send(sh, w, a + b, delay) == Send(sh, Send(sh, w, a, delay), b, delay)
    ensures (a + b)[..Taken(sh, w, a + b)] == a + b[..Taken(sh, Send(sh, w, a, delay), b)]
  {
    hide Rem, Mul, Quo, Flatten, Cut, Recut, Grown, SentMessage, Taken, Valid, Datas;
    WindowIsCut(sh, w);
    var w1 := Send(sh, w, a, delay);
    SendGrows(sh, w, a, delay);
    SendRefinesQueue(sh, w, a, delay);
    SendRefinesQueue(sh, w, a + b, delay);
    SendRefinesQueue(sh, w1, b, delay);
    var n := Taken(sh, w1, b);
    assert a[..|a|] == a;
    assert (a + b)[..|a| + n] == a + b[..n];
    assert Bytes(w) + (a + b[..n]) == (Bytes(w) + a) + b[..n];
    GrownShape(sh, w, a);
    RecutSame(sh, w, a, b, delay);
  }

  lemma {:induction false} GrownShape(sh: Shape, w: SendWnd, a: seq<Byte>)
    requires |w.msgs| > 0
    ensures var g := Grown(sh, w, a);
      g.base == w.base && |g.msgs| == |w.msgs| && g.tiny == w.tiny
  {
  }

  /** The pieces of the second send make the same messages of the filled window as of the window before. */
  lemma {:induction false} RecutSame(sh: Shape, w: SendWnd, a: seq<Byte>, b: seq<Byte>, delay: Time)
    requires Valid(sh, w) && Unfinished(sh, w) && |b| > 0
    requires |w.msgs[|w.msgs| - 1].data| + |a| == sh.MsgLen()
    ensures var w1 := Grown(sh, w, a);
      && Valid(sh, w1)
      && var cs := Cut(Bytes(w1) + b[..Taken(sh, w1, b)], sh.MsgLen());
      Recut(sh, w, cs, delay) == Recut(sh, w1, cs, delay)
  {
    hide Rem, Mul, Quo, Flatten, Cut, Taken;
    SendGrows(sh, w, a, delay);
    SendRefinesQueue(sh, w, a, delay);
    var w1 := Grown(sh, w, a);
    SendRefinesQueue(sh, w1, b, delay);
    var cs := Cut(Bytes(w1) + b[..Taken(sh, w1, b)], sh.MsgLen());
    forall i | 0 <= i < |cs| ensures SentMessage(sh, w, cs[i], i, delay) == SentMessage(sh, w1, cs[i], i, delay) {
      if i == |w.msgs| - 1 {
        assert Datas(Send(sh, w1, b, delay).msgs)[i] == cs[i];
        assert w1.msgs[i].data == cs[i];
      }
    }
  }

  // ---- Runs ----

  datatype Op =
    | OpSend(src: seq<Byte>, delay: Time)
    | OpAck(sn: nat, vec: Vec)
    | OpFlush
    | OpStep(dt: Time)

  /** A window, with all bytes accepted so far and all bytes of messages that slid out. */
  datatype Ledger = Ledger(w: SendWnd, accepted: seq<Byte>, gone: seq<Byte>)

  function Exec(sh: Shape, l: Ledger, op: Op): Ledger
    requires Valid(sh, l.w)
  {
    match op
    case OpSend(src, delay) =>
      l.(w := Send(sh, l.w, src, delay), accepted := l.accepted + src[..Taken(sh, l.w, src)])
    case OpAck(sn, vec) =>
      l.(w := Ack(l.w, sn, vec), gone := l.gone + Flatten(Datas(l.w.msgs[..Freed(l.w, sn, vec)])))
    case OpFlush => l.(w := Flush(sh, l.w))
    case OpStep(dt) => l.(w := Step(l.w, dt))
  }

  lemma {:induction false} ExecBalances(sh: Shape, l: Ledger, op: Op)
    requires Valid(sh, l.w) && l.accepted == l.gone + Bytes(l.w)
    ensures var l' := Exec(sh, l, op); Valid(sh, l'.w) && l'.accepted == l'.gone + Bytes(l'.w)
  {
    hide Valid, Send, Ack, Flush, Step, Taken, Freed, Flatten, Rem, Mul;
    match op
    case OpSend(src, delay) => SendRefinesQueue(sh, l.w, src, delay);
    case OpAck(sn, vec) => AckDropsPrefix(sh, l.w, sn, vec);
    case OpFlush => FlushValid(sh, l.w);
    case OpStep(dt) => StepValid(sh, l.w, dt);
  }

  lemma {:induction false} DropValid(sh: Shape, w: SendWnd, n: nat)
    requires Valid(sh, w) && n <= |w.msgs|
    ensures var w' := w.(base := Wire(w.base + n), msgs := w.msgs[n..]);
      && Valid(sh, w')
      && Datas(w'.msgs) == Datas(w.msgs)[n..]
      && Bytes(w) == Flatten(Datas(w.msgs[..n])) + Bytes(w')
  {
    FlattenSplit(Datas(w.msgs), n);
    assert Datas(w.msgs)[..n] == Datas(w.msgs[..n]);
    assert Datas(w.msgs)[n..] == Datas(w.msgs[n..]);
  }

  lemma {:induction false} AckedValid(sh: Shape, w: SendWnd, j: nat, vec: Vec)
    requires Valid(sh, w) && j < |w.msgs|
    ensures Valid(sh, w.(msgs := Acked(w.msgs, j, vec))) && Datas(Acked(w.msgs, j, vec)) == Datas(w.msgs)
  {
  }

  /** An acknowledgement drops messages from the front and leaves all other bytes in place. */
  lemma {:induction false} AckDropsPrefix(sh: Shape, w: SendWnd, sn: nat, vec: Vec)
    requires Valid(sh, w)
    ensures var n := Freed(w, sn, vec); var w' := Ack(w, sn, vec);
      && Valid(sh, w')
      && w'.base == Wire(w.base + n)
      && Datas(w'.msgs) == Datas(w.msgs)[n..]
      && Bytes(w) == Flatten(Datas(w.msgs[..n])) + Bytes(w')
  {
    if Acceptable(w, sn) {
      var n, ms := Freed(w, sn, vec), Acked(w.msgs, sn - w.base, vec);
      AckedValid(sh, w, sn - w.base, vec);
      DropValid(sh, w.(msgs := ms), n);
      assert Datas(ms[..n]) == Datas(w.msgs[..n]);
    } else {
      assert w.msgs[..0] == [] && Datas(w.msgs)[0..] == Datas(w.msgs);
    }
  }

  ghost predicate Run(sh: Shape, ls: seq<Ledger>, ops: seq<Op>) {
    && |ls| == |ops| + 1
    && (forall i :: 0 <= i < |ops| ==> Valid(sh, ls[i].w) && ls[i + 1] == Exec(sh, ls[i], ops[i]))
  }

  /** Conservation: in every run from an empty window no accepted byte is lost, repeated or reordered. */
  lemma {:induction false} RunConservesBytes(sh: Shape, ls: seq<Ledger>, ops: seq<Op>)
    requires sh.Valid() && Run(sh, ls, ops)
    requires ls[0].w.msgs == [] && ls[0].w.base < SEQS && ls[0].accepted == [] == ls[0].gone
    ensures Valid(sh, ls[|ops|].w)
    ensures ls[|ops|].accepted == ls[|ops|].gone + Bytes(ls[|ops|].w)
    ensures |Bytes(ls[|ops|].w)| <= Mul(sh.cap, sh.MsgLen())
    decreases |ops|
  {
    if |ops| > 0 {
      var n := |ops| - 1;
      var ls', ops' := ls[..n + 1], ops[..n];
      assert Run(sh, ls', ops');
      RunConservesBytes(sh, ls', ops');
      assert ls'[|ops'|] == ls[n];
      assert ls[n + 1] == Exec(sh, ls[n], ops[n]);
      ExecBalances(sh, ls[n], ops[n]);
    }
    WindowIsCut(sh, ls[|ops|].w);
  }
}
