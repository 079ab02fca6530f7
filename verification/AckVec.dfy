/**
 * Acknowledgement vectors: unsigned 16-bit words whose bit i stands for segment i of a message.
 * Words are naturals, and the bit operations of C are given by their binary digits.
 */
module AckVec {

  type Vec = v: nat | v < 0x1_0000

  function Pow2(i: nat): (p: nat)
    ensures p >= 1
  {
    if i == 0 then 1 else 2 * Pow2(i - 1)
  }

  /** Segment i is marked in v: `v & (1 << i)` is not zero. */
  predicate Has(v: nat, i: nat) {
    if i == 0 then v % 2 == 1 else Has(v / 2, i - 1)
  }

  /** `v | (1 << i)`. */
  function Mark(v: nat, i: nat): (w: nat)
    ensures w >= v
  {
    if i == 0 then (if v % 2 == 1 then v else v + 1) else 2 * Mark(v / 2, i - 1) + v % 2
  }

  /** `(1 << n) - 1`, the vector of a completely received message of n segments. */
  function Mask(n: nat): nat {
    Pow2(n) - 1
  }

  lemma {:induction false} Pow2Order(i: nat, j: nat)
    requires i < j
    ensures Pow2(i) < Pow2(j)
  {
    if i > 0 { Pow2Order(i - 1, j - 1); }
  }

  lemma {:induction false} Pow2Values()
    ensures Pow2(4) == 16 && Pow2(8) == 256 && Pow2(12) == 4096 && Pow2(16) == 0x1_0000
  {
    assert Pow2(4) == 16;
    assert Pow2(8) == 16 * Pow2(4);
    assert Pow2(12) == 16 * Pow2(8);
    assert Pow2(16) == 16 * Pow2(12);
  }

  lemma {:induction false} MaskIsVec(n: nat)
    requires n <= 16
    ensures Mask(n) < 0x1_0000
  {
    Pow2Values();
    if n < 16 { Pow2Order(n, 16); }
  }

  // ---- Bits of the word operations ----

  lemma {:induction false} HasZero(i: nat)
    ensures !Has(0, i)
  {
    if i > 0 { HasZero(i - 1); }
  }

  /** Marking segment i changes no other mark. */
  lemma {:induction false} HasMark(v: nat, i: nat, j: nat)
    ensures Has(Mark(v, i), j) <==> (i == j || Has(v, j))
  {
    if i > 0 && j > 0 {
      HasMark(v / 2, i - 1, j - 1);
    }
  }

  lemma {:induction false} HasMask(n: nat, j: nat)
    ensures Has(Mask(n), j) <==> j < n
  {
    if n == 0 {
      HasZero(j);
    } else if j > 0 {
      assert Mask(n) / 2 == Mask(n - 1);
      HasMask(n - 1, j - 1);
    }
  }

  // ---- Vectors of n segments ----

  /** v has no bit at or above n. */
  ghost predicate Within(v: nat, n: nat) {
    forall i: nat :: Has(v, i) ==> i < n
  }

  lemma {:induction false} HasBelowMask(v: nat, i: nat, n: nat)
    requires v <= Mask(n) && Has(v, i)
    ensures i < n
  {
    if n == 0 {
      HasZero(i);
    } else if i > 0 {
      HasBelowMask(v / 2, i - 1, n - 1);
    }
  }

  /** Words are determined by their bits. */
  lemma {:induction false} SameBits(v: nat, w: nat)
    requires forall i: nat :: Has(v, i) <==> Has(w, i)
    ensures v == w
    decreases v + w
  {
    if v + w > 0 {
      assert Has(v, 0) <==> Has(w, 0);
      var v2, w2 := v / 2, w / 2;
      forall i: nat ensures Has(v2, i) <==> Has(w2, i) {
        assert Has(v, i + 1) <==> Has(w, i + 1);
      }
      SameBits(v2, w2);
    }
  }

  lemma {:induction false} WithinIsAtMostMask(v: nat, n: nat)
    requires Within(v, n)
    ensures v <= Mask(n)
  {
    if n == 0 {
      forall i: nat ensures Has(v, i) <==> Has(0, i) { HasZero(i); }
      SameBits(v, 0);
    } else {
      var v2 := v / 2;
      forall i: nat | Has(v2, i) ensures i < n - 1 { assert Has(v, i + 1); }
      WithinIsAtMostMask(v2, n - 1);
    }
  }

  /** A 16-bit word has bits 0 to 15 only. */
  lemma {:induction false} VecWithin(v: Vec)
    ensures Within(v, 16)
  {
    Pow2Values();
    forall i: nat | Has(v, i) ensures i < 16 { HasBelowMask(v, i, 16); }
  }

  /** Every segment below n is marked. */
  ghost predicate Full(v: nat, n: nat) {
    forall i: nat :: i < n ==> Has(v, i)
  }

  /** Among vectors of n segments, the numeric test `v < Mask(n)` of the code says exactly that one is missing. */
  lemma {:induction false} LessThanMask(v: nat, n: nat)
    requires Within(v, n)
    ensures v < Mask(n) <==> v != Mask(n)
    ensures v == Mask(n) <==> Full(v, n)
  {
    WithinIsAtMostMask(v, n);
    if v == Mask(n) {
      forall i: nat | i < n ensures Has(v, i) { HasMask(n, i); }
    } else if Full(v, n) {
      forall i: nat ensures Has(v, i) <==> Has(Mask(n), i) { HasMask(n, i); }
      SameBits(v, Mask(n));
    }
  }

  lemma {:induction false} MaskOrder(s: nat, n: nat)
    ensures Mask(s) < Mask(n) <==> s < n
    ensures Mask(s) == Mask(n) <==> s == n
  {
    if s < n { Pow2Order(s, n); } else if n < s { Pow2Order(n, s); }
  }

  lemma {:induction false} MarkIsVec(v: Vec, i: nat)
    requires i < 16
    ensures Mark(v, i) < 0x1_0000
  {
    VecWithin(v);
    forall j: nat | Has(Mark(v, i), j) ensures j < 16 { HasMark(v, i, j); }
    WithinIsAtMostMask(Mark(v, i), 16);
    Pow2Values();
  }

  // ---- The next clear bit ----

  /** The least index at or above k whose bit is clear. */
  function FirstClear(v: Vec, k: nat): (i: nat)
    requires k <= 16
    ensures k <= i <= 16 && !Has(v, i)
    ensures forall j: nat :: k <= j < i ==> Has(v, j)
    decreases 16 - k
  {
    VecWithin(v);
    if Has(v, k) then FirstClear(v, k + 1) else k
  }

  /** Count of trailing zeroes (`__builtin_ctz`). */
  function Ctz(x: nat): nat
    requires x > 0
  {
    if x % 2 == 1 then 0 else 1 + Ctz(x / 2)
  }

  /** `v >> k`. */
  function Shr(v: nat, k: nat): (w: nat)
    ensures w <= v
  {
    if k == 0 then v else Shr(v / 2, k - 1)
  }

  /** `~x` on 32 bits. */
  function Not32(x: nat): nat
    requires x <= 0xFFFF_FFFF
  {
    0xFFFF_FFFF - x
  }

  lemma {:induction false} HasShr(v: nat, k: nat, j: nat)
    ensures Has(Shr(v, k), j) <==> Has(v, k + j)
  {
    if k > 0 { HasShr(v / 2, k - 1, j); }
  }

  lemma {:induction false} ShrNext(v: nat, k: nat)
    ensures Shr(v, k + 1) == Shr(v, k) / 2
  {
    if k > 0 { ShrNext(v / 2, k - 1); }
  }

  /** The trailing zeroes of a complement are the trailing ones of the word. */
  lemma {:induction false} CtzOfComplement(v: Vec, k: nat, n: nat)
    requires k <= 16 && n >= 1 && Shr(v, k) < Mask(n)
    ensures k + Ctz(Mask(n) - Shr(v, k)) == FirstClear(v, k)
    decreases n
  {
    HasShr(v, k, 0);
    if Has(v, k) {
      VecWithin(v);
      ShrNext(v, k);
      var u := Shr(v, k);
      assert u % 2 == 1 && Mask(n) == 2 * Mask(n - 1) + 1;
      assert (Mask(n) - u) / 2 == Mask(n - 1) - u / 2;
      CtzOfComplement(v, k + 1, n - 1);
    }
  }

  /** `k + ctz(~(v >> k))` finds the next clear bit: the step of the send pointer. */
  lemma {:induction false} CtzFindsClear(v: Vec, k: nat)
    requires k <= 16
    ensures Not32(Shr(v, k)) > 0
    ensures k + Ctz(Not32(Shr(v, k))) == FirstClear(v, k)
  {
    Pow2Values();
    assert Pow2(20) == 16 * Pow2(16);
    assert Pow2(24) == 16 * Pow2(20);
    assert Pow2(28) == 16 * Pow2(24);
    assert Pow2(32) == 16 * Pow2(28);
    CtzOfComplement(v, k, 32);
  }
}
