/** The acknowledgements of the receive window. */
module RecvAcks {
  import opened Arith
  import opened AckVec
  import opened SeqNum
  import opened Messages
  import opened RecvWindow
  import opened RecvInvariant
  import S = SendWindow

  /** Same window, up to the flags and the timer that say which acknowledgements are due. */
  ghost predicate SameButAcks(w: RecvWnd, w': RecvWnd) {
    && |w'.slots| == |w.slots|
    && w' == w.(slots := w'.slots, isa := w'.isa, isaSn := w'.isaSn, isaOn := w'.isaOn)
    && forall j :: 0 <= j < |w.slots| ==> w'.slots[j] == w.slots[j].(ack := w'.slots[j].ack)
  }

  lemma {:induction false} AcksKeep(sh: Shape, w: RecvWnd, w': RecvWnd, msgs: seq<seq<Byte>>, rb: nat)
    requires Inv(sh, w, msgs, rb) && SameButAcks(w, w') && w'.isaSn < SEQS
    ensures Inv(sh, w', msgs, rb)
    ensures forall q: nat, seg: nat :: Got(w, rb, q, seg) <==> Got(w', rb, q, seg)
  {
    hide Mul, Marks, Has, Rem, StoredLen, HasSegment;
    forall j: nat | j < |w'.slots| ensures SlotHolds(sh, w', msgs, rb, j) {
      assert SlotHolds(sh, w, msgs, rb, j);
    }
    assert CopyPlace(sh, w') == CopyPlace(sh, w);
  }

  lemma {:induction false} SendAckSame(w: RecvWnd)
    requires w.size <= |w.slots|
    ensures SameButAcks(w, SendAck(w).0)
  {
  }

  lemma {:induction false} InterSegmentSame(sh: Shape, w: RecvWnd, dt: Time)
    requires Valid(sh, w)
    ensures SameButAcks(w, InterSegment(sh, w, dt))
    ensures InterSegment(sh, w, dt).isaSn < SEQS
  {
    hide Mul, Marks, Has, Rem;
  }

  /**
   * An emitted acknowledgement names a message of the window, every segment it marks has arrived, and
   * for a message not yet read out it marks exactly the segments that have arrived; for one that was
   * read out it marks none.
   */
  lemma {:induction false} AckIsTruthful(sh: Shape, w: RecvWnd, msgs: seq<seq<Byte>>, rb: nat)
    requires Inv(sh, w, msgs, rb)
    ensures var (w', a) := SendAck(w);
      && Inv(sh, w', msgs, rb)
      && (forall q: nat, seg: nat :: Got(w, rb, q, seg) <==> Got(w', rb, q, seg))
      && (a.AckHdr? ==>
          var k := rb + FirstDue(w, 0);
          && rb <= k < rb + w.size && a.sn == Wire(k)
          && (forall seg: nat :: Has(a.vec, seg) ==> Got(w, rb, k, seg))
          && (k >= rb + w.slide ==> forall seg: nat :: Has(a.vec, seg) <==> Got(w, rb, k, seg))
          && (k < rb + w.slide ==> a.vec == 0))
      && (a.NoAck? <==> forall j :: 0 <= j < w.size ==> !w.slots[j].ack)
  {
    hide Mul, Marks, Has, Rem;
    if FirstDue(w, 0) < w.slide { assert SlotHolds(sh, w, msgs, rb, FirstDue(w, 0)); }
    SendAckSame(w);
    AcksKeep(sh, w, SendAck(w).0, msgs, rb);
    assert Wire(w.base + FirstDue(w, 0)) == Wire(rb + FirstDue(w, 0)) by { RemAdd(rb, FirstDue(w, 0), SEQS); }
  }

  // ---- Draining the flags ----

  /** The acknowledgements due from place j on, in sequence order. */
  function DueAcks(w: RecvWnd, j: nat): seq<S.AckHdr>
    requires w.size <= |w.slots| && j <= w.size
    decreases w.size - j
  {
    if j == w.size then []
    else (if w.slots[j].ack then [S.AckHdr(Wire(w.base + j), w.slots[j].cur)] else []) + DueAcks(w, j + 1)
  }

  lemma {:induction false} FirstDueHead(w: RecvWnd, j: nat)
    requires w.size <= |w.slots| && j <= w.size
    ensures var k := FirstDue(w, j);
      DueAcks(w, j) == if k == w.size then [] else [S.AckHdr(Wire(w.base + k), w.slots[k].cur)] + DueAcks(w, k + 1)
    decreases w.size - j
  {
    if j < w.size && !w.slots[j].ack { FirstDueHead(w, j + 1); }
  }

  lemma {:induction false} DueSame(w: RecvWnd, w': RecvWnd, j: nat)
    requires w.size == w'.size && w.size <= |w.slots| && w.size <= |w'.slots| && j <= w.size && w.base == w'.base
    requires forall i :: j <= i < w.size ==> w.slots[i] == w'.slots[i]
    ensures DueAcks(w, j) == DueAcks(w', j)
    decreases w.size - j
  {
    if j < w.size { DueSame(w, w', j + 1); }
  }

  lemma {:induction false} NoneDue(w: RecvWnd, j: nat, k: nat)
    requires w.size <= |w.slots| && j <= k <= w.size && forall i :: j <= i < k ==> !w.slots[i].ack
    ensures DueAcks(w, j) == DueAcks(w, k)
    decreases k - j
  {
    if j < k { NoneDue(w, j + 1, k); }
  }

  /** Each acknowledgement sent is the first one due, and leaves the others due. */
  lemma {:induction false} SendAckTakesHead(w: RecvWnd)
    requires w.size <= |w.slots|
    ensures var (w', a) := SendAck(w);
      && |w'.slots| == |w.slots| && w'.size == w.size
      && (a.NoAck? ==> w' == w)
      && DueAcks(w, 0) == if a.NoAck? then [] else [a] + DueAcks(w', 0)
  {
    FirstDueHead(w, 0);
    var k := FirstDue(w, 0);
    if k < w.size {
      var w' := SendAck(w).0;
      NoneDue(w', 0, k + 1);
      DueSame(w, w', k + 1);
    }
  }

  /** acks are the results of consecutive calls with nothing arriving in between. */
  ghost predicate Calls(w: RecvWnd, acks: seq<S.AckHdr>)
    decreases |acks|
  {
    acks == [] || (w.size <= |w.slots| && acks[0] == SendAck(w).1 && Calls(SendAck(w).0, acks[1..]))
  }

  /** The first n of a list of acknowledgements, with NoAck after its end. */
  function Padded(acks: seq<S.AckHdr>, n: nat): (r: seq<S.AckHdr>)
    ensures |r| == n
  {
    seq(n, i => if 0 <= i < |acks| then acks[i] else S.NoAck)
  }

  /** With no arrivals, repeated calls report each raised flag of the window once, in order, and then nothing. */
  lemma {:induction false} CallsDrainFlags(w: RecvWnd, acks: seq<S.AckHdr>)
    requires w.size <= |w.slots| && Calls(w, acks)
    ensures acks == Padded(DueAcks(w, 0), |acks|)
    decreases |acks|
  {
    hide SendAck, DueAcks;
    if acks != [] {
      SendAckTakesHead(w);
      CallsDrainFlags(SendAck(w).0, acks[1..]);
      assert acks == [acks[0]] + acks[1..];
    }
  }
}
