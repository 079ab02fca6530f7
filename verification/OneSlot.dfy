/** Facts about windows of one slot, for the short concrete runs. */
module OneSlot {
  import opened Arith
  import opened AckVec
  import opened SeqNum
  import opened Messages
  import R = RecvWindow

  /** Slot selection with one slot. */
  ghost predicate Slots(cap: nat)
    requires cap > 0
  {
    Divides(cap) && Rem(0, cap) == 0 && Rem(1, cap) == 0 && Rem(4095, cap) == 0 && Mul(cap, 2) == 2
  }

  lemma {:induction false} SlotFacts(cap: nat)
    requires cap == 1
    ensures Slots(cap)
  {
    RemOne(SEQS, cap);
    RemOne(0, cap);
    RemOne(1, cap);
    RemOne(4095, cap);
    MulOne(2);
    hide Rem, Mul;
  }

  ghost predicate Numbers() {
    Wire(0) == 0 && Wire(1) == 1 && Wire(2) == 2
  }

  lemma {:induction false} NumberFacts()
    ensures Numbers()
  {
    WireSmall(0);
    WireSmall(1);
    WireSmall(2);
    hide Wire;
  }

  // ---- Sizes ----

  /** Messages of one segment of one byte. */
  ghost predicate OneOfOne(sh: Shape)
    requires sh.segLen > 0
  {
    sh.MsgLen() == 1 && SegCount(1, sh.segLen) == 1 && Mul(0, sh.segLen) == 0
  }

  lemma {:induction false} OneOfOneFacts(sh: Shape)
    requires sh.segs == 1 && sh.segLen == 1
    ensures OneOfOne(sh)
  {
    assert Mul(1, sh.segLen) == Mul(0, sh.segLen) + 1;
    assert Quo(1, sh.segLen) == 1 + Quo(0, sh.segLen);
  }

  /** Messages of one segment of two bytes. */
  ghost predicate OneOfTwo(sh: Shape)
    requires sh.segLen > 0
  {
    && sh.MsgLen() == 2 && SegCount(1, sh.segLen) == 1 == SegCount(2, sh.segLen)
    && Mul(0, sh.segLen) == 0 && Mul(1, sh.segLen) == 2
  }

  lemma {:induction false} OneOfTwoFacts(sh: Shape)
    requires sh.segs == 1 && sh.segLen == 2
    ensures OneOfTwo(sh)
  {
    assert Mul(1, sh.segLen) == Mul(0, sh.segLen) + 2;
    assert Quo(2, sh.segLen) == 1 + Quo(0, sh.segLen);
    assert Quo(3, sh.segLen) == 1 + Quo(1, sh.segLen);
  }

  /** Messages of two segments of one byte. */
  ghost predicate TwoOfOne(sh: Shape)
    requires sh.segLen > 0
  {
    && sh.MsgLen() == 2 && SegCount(1, sh.segLen) == 1 && SegCount(2, sh.segLen) == 2
    && Mul(0, sh.segLen) == 0 && Mul(1, sh.segLen) == 1 && Mul(2, sh.segLen) == 2
  }

  lemma {:induction false} TwoOfOneFacts(sh: Shape)
    requires sh.segs == 2 && sh.segLen == 1
    ensures TwoOfOne(sh)
  {
    assert Mul(2, sh.segLen) == Mul(1, sh.segLen) + 1 == Mul(0, sh.segLen) + 2;
    assert Quo(2, sh.segLen) == 1 + Quo(1, sh.segLen) == 2 + Quo(0, sh.segLen);
  }

  // ---- Vectors ----

  ghost predicate Masks() {
    Mask(0) == 0 && Mask(1) == 1 && Mask(2) == 3
  }

  lemma {:induction false} MaskFacts()
    ensures Masks()
  {
    assert Pow2(1) == 2 && Pow2(2) == 4;
  }

  ghost predicate Bits() {
    !Has(0, 0) && Has(1, 0) && !Has(1, 1) && Has(3, 0) && Has(3, 1) && Mark(0, 0) == 1 && Mark(1, 1) == 3
  }

  lemma {:induction false} BitFacts()
    ensures Bits()
  {
    HasZero(0);
    assert Has(1, 1) == Has(0, 0) && Has(3, 1) == Has(1, 0);
    assert Mark(1, 1) == 2 * Mark(0, 0) + 1;
  }

  ghost predicate Clears() {
    FirstClear(0, 0) == 0 && FirstClear(0, 1) == 1 && FirstClear(0, 2) == 2
  }

  lemma {:induction false} ClearFacts()
    ensures Clears()
  {
    HasZero(0);
    HasZero(1);
    HasZero(2);
  }

  /** Vectors of one segment. */
  ghost predicate Marks1() {
    R.Marks(0, 1) == 0 && R.Marks(1, 1) == 1 && Within(0, 1) && Within(1, 1)
  }

  lemma {:induction false} Marks1Facts()
    ensures Marks1()
  {
    R.MarksZero(1);
    BitFacts();
    assert R.Marks(1, 1) == R.Marks(1, 0) + 1;
    forall j: nat ensures !Has(0, j) { HasZero(j); }
    forall j: nat | Has(1, j) ensures j < 1 {
      if j > 0 { HasZero(j - 1); }
    }
  }

  /** Vectors of two segments. */
  ghost predicate Marks2() {
    && R.Marks(0, 2) == 0 && R.Marks(1, 2) == 1 && R.Marks(3, 2) == 2
    && Within(0, 2) && Within(1, 2) && Within(3, 2)
  }

  lemma {:induction false} Marks2Facts()
    ensures Marks2()
  {
    hide Has, Mark;
    R.MarksZero(2);
    BitFacts();
    assert R.Marks(1, 2) == R.Marks(1, 1) == R.Marks(1, 0) + 1;
    assert R.Marks(3, 2) == R.Marks(3, 1) + 1 == R.Marks(3, 0) + 2;
    forall j: nat ensures !Has(0, j) { HasZero(j); }
    Within1();
    Within3();
  }

  lemma {:induction false} Within1()
    ensures Within(1, 2)
  {
    forall j: nat | Has(1, j) ensures j < 2 {
      if j > 0 { HasZero(j - 1); }
    }
  }

  lemma {:induction false} Within3()
    ensures Within(3, 2)
  {
    forall j: nat | Has(3, j) ensures j < 2 {
      if j > 1 {
        assert Has(3, j) == Has(1, j - 1) == Has(0, j - 2);
        HasZero(j - 2);
      }
    }
  }
}
