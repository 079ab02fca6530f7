/**
 * Products, quotients and remainders by repeated addition and subtraction. They are the operators
 * `*`, `/` and `%` (SameAsOperators); their properties are proved by induction, so that no proof
 * elsewhere depends on nonlinear arithmetic.
 */
module Arith {

  function Mul(a: nat, b: nat): nat {
    if a == 0 then 0 else Mul(a - 1, b) + b
  }

  function Quo(a: nat, m: nat): nat
    requires m > 0
  {
    if a < m then 0 else 1 + Quo(a - m, m)
  }

  function Rem(a: nat, m: nat): (r: nat)
    requires m > 0
    ensures r < m
  {
    if a < m then a else Rem(a - m, m)
  }

  lemma {:induction false} MulIsProduct(a: nat, b: nat)
    ensures Mul(a, b) == a * b
  {
    if a > 0 {
      MulIsProduct(a - 1, b);
      assert a * b == (a - 1) * b + b;
    }
  }

  lemma {:induction false} Sign(t: int, m: int)
    requires m > 0
    ensures t >= 1 ==> t * m >= m
    ensures t <= -1 ==> t * m <= -m
  {
    if t >= 1 {
      assert t * m == m + (t - 1) * m;
    } else if t <= -1 {
      assert t * m == -m + (t + 1) * m;
    }
  }

  /** These are the operators of the code. */
  lemma {:induction false} SameAsOperators(a: nat, m: nat)
    requires m > 0
    ensures Mul(a, m) == a * m
    ensures Quo(a, m) == a / m && Rem(a, m) == a % m
  {
    hide Mul, Quo, Rem;
    MulIsProduct(a, m);
    DivRem(a, m);
    MulIsProduct(Quo(a, m), m);
    DivisionUnique(a, m, Quo(a, m), Rem(a, m));
  }

  /** Quotient and remainder of the operators, by the equation that determines them. */
  lemma {:induction false} DivisionUnique(a: nat, m: nat, q: nat, r: nat)
    requires r < m && q * m + r == a
    ensures a / m == q && a % m == r
  {
    var t := a / m - q;
    assert t * m == (a / m) * m - q * m;
    assert t * m == r - a % m;
    Sign(t, m);
  }

  lemma {:induction false} MulAdd(a: nat, c: nat, b: nat)
    ensures Mul(a + c, b) == Mul(a, b) + Mul(c, b)
  {
    if c > 0 { MulAdd(a, c - 1, b); }
  }

  lemma {:induction false} MulOrder(a: nat, c: nat, b: nat)
    requires a < c
    ensures Mul(a, b) + b <= Mul(c, b)
  {
    MulAdd(a, c - a - 1, b);
  }

  lemma {:induction false} MulOne(b: nat)
    ensures Mul(0, b) == 0 && Mul(1, b) == b
  {
    assert Mul(1, b) == Mul(0, b) + b;
  }

  lemma {:induction false} DivRem(a: nat, m: nat)
    requires m > 0
    ensures a == Mul(Quo(a, m), m) + Rem(a, m)
  {
    if a >= m { DivRem(a - m, m); }
  }

  /** Quotient and remainder are determined by the division equation. */
  lemma {:induction false} DivUnique(q: nat, r: nat, m: nat)
    requires r < m
    ensures Quo(Mul(q, m) + r, m) == q && Rem(Mul(q, m) + r, m) == r
  {
    if q > 0 { DivUnique(q - 1, r, m); }
  }

  lemma {:induction false} RemMul(a: nat, q: nat, m: nat)
    requires m > 0
    ensures Rem(a + Mul(q, m), m) == Rem(a, m)
  {
    if q > 0 { RemMul(a, q - 1, m); }
  }

  lemma {:induction false} RemAdd(a: nat, b: nat, m: nat)
    requires m > 0
    ensures Rem(Rem(a, m) + b, m) == Rem(a + b, m)
  {
    DivRem(a, m);
    RemMul(Rem(a, m) + b, Quo(a, m), m);
  }

  /** Numbers closer than m apart have different remainders. */
  lemma {:induction false} RemDistinct(a: nat, b: nat, m: nat)
    requires a < b < a + m
    ensures Rem(a, m) != Rem(b, m)
  {
    if a >= m { RemDistinct(a - m, b - m, m); }
  }

  lemma {:induction false} RemCases(a: nat, b: nat, m: nat)
    requires m > 0 && b <= m
    ensures var r := Rem(a, m); Rem(a + b, m) == if r + b < m then r + b else r + b - m
  {
    RemAdd(a, b, m);
  }

  /** A multiple of m has remainders modulo m that survive reduction modulo the multiple. */
  lemma {:induction false} RemRem(a: nat, big: nat, m: nat)
    requires m > 0 && big > 0 && Rem(big, m) == 0
    ensures Rem(Rem(a, big), m) == Rem(a, m)
  {
    if a >= big {
      RemRem(a - big, big, m);
      DivRem(big, m);
      RemMul(a - big, Quo(big, m), m);
    }
  }

  lemma {:induction false} RemSmall(a: nat, m: nat)
    requires a < m
    ensures Rem(a, m) == a
  {
  }

  lemma {:induction false} RemOne(x: nat, one: nat)
    requires one == 1
    ensures Rem(x, one) == 0
  {
    if x > 0 { RemOne(x - 1, one); }
  }
}
