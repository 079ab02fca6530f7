/** Twelve-bit sequence numbers and the slots they select in a circular window. */
module SeqNum {
  import opened Arith

  const SEQS: nat := 4096

  /** Message number k as it travels on the wire: k % 4096. */
  function Wire(k: nat): (s: nat)
    ensures s < SEQS
  {
    Rem(k, SEQS)
  }

  /** How far sequence number s lies after base, going round: `(s - base) mod 4096`. */
  function Ahead(s: nat, base: nat): (d: nat)
    requires s < SEQS && base < SEQS
    ensures d < SEQS
  {
    if s >= base then s - base else s + SEQS - base
  }

  /** The capacities for which slot selection survives the wrap from 4095 to 0. */
  predicate Divides(cap: nat) {
    1 <= cap <= SEQS && Rem(SEQS, cap) == 0
  }

  /** Numbers less than 4096 apart are told apart on the wire. */
  lemma {:induction false} WireSame(a: nat, b: nat)
    requires Wire(a) == Wire(b) && a < b + SEQS && b < a + SEQS
    ensures a == b
  {
    if a < b { RemDistinct(a, b, SEQS); } else if b < a { RemDistinct(b, a, SEQS); }
  }

  /** The number that many places after base is the one we started from. */
  lemma {:induction false} AheadBack(s: nat, base: nat)
    requires s < SEQS && base < SEQS
    ensures Wire(base + Ahead(s, base)) == s
  {
    if s < base { assert Rem(s + SEQS, SEQS) == Rem(s, SEQS); }
  }

  lemma {:induction false} AheadOf(base: nat, j: nat)
    requires base < SEQS && j < SEQS
    ensures Ahead(Wire(base + j), base) == j
  {
    RemCases(base, j, SEQS);
  }

  lemma {:induction false} WireAhead(k: nat, j: nat)
    requires j < SEQS
    ensures Ahead(Wire(k + j), Wire(k)) == j
  {
    RemCases(k, j, SEQS);
  }

  lemma {:induction false} WireSmall(k: nat)
    requires k < SEQS
    ensures Wire(k) == k
  {
  }

  // ---- The slot map ----

  /** The slot that sequence number s selects. */
  function Slot(s: nat, cap: nat): (i: nat)
    requires cap > 0
    ensures i < cap
  {
    Rem(s, cap)
  }

  /** The two index forms of the code, `(seq + i) % cap` and `((seq + i) % 4096) % cap`, agree. */
  lemma {:induction false} SlotFormsAgree(k: nat, cap: nat)
    requires Divides(cap)
    ensures Slot(Wire(k), cap) == Slot(k, cap)
  {
    RemRem(k, SEQS, cap);
  }

  /** The slot of the i-th number of the run that starts at s. */
  function RunSlot(s: nat, i: nat, cap: nat): nat
    requires cap > 0
  {
    Slot(Wire(s + i), cap)
  }

  ghost predicate InjectiveRuns(cap: nat)
    requires cap > 0
  {
    forall s: nat, i: nat, j: nat :: s < SEQS && i < j < cap ==> RunSlot(s, i, cap) != RunSlot(s, j, cap)
  }

  /**
   * Selecting slot seq % cap keeps every run of cap consecutive sequence numbers apart, runs that
   * wrap included, exactly for the capacities that divide 4096.
   */
  lemma {:induction false} SlotMapInjective(cap: nat)
    requires 1 <= cap <= SEQS
    ensures InjectiveRuns(cap) <==> Divides(cap)
  {
    if Divides(cap) {
      forall s: nat, i: nat, j: nat | s < SEQS && i < j < cap
        ensures RunSlot(s, i, cap) != RunSlot(s, j, cap)
      {
        SlotFormsAgree(s + i, cap);
        SlotFormsAgree(s + j, cap);
        RemDistinct(s + i, s + j, cap);
      }
    } else {
      var r := Rem(SEQS, cap);
      var s := SEQS - r;
      DivRem(SEQS, cap);
      DivUnique(Quo(SEQS, cap), 0, cap);
      assert s < SEQS && r < cap;
      assert RunSlot(s, 0, cap) == 0 == RunSlot(s, r, cap);
    }
  }
}
