/** Word sizes, division facts and powers of two. */
module Arithmetic {
  const U16: int := 0x1_0000
  const U24: int := 0x100_0000
  const U31: int := 0x8000_0000
  const U32: int := 0x1_0000_0000
  const U64: int := 0x1_0000_0000_0000_0000

  function Max(a: int, b: int): int { if a > b then a else b }

  function Min(a: int, b: int): int { if a < b then a else b }

  function Pow2(k: nat): (p: nat)
    ensures p > 0
  {
    if k == 0 then 1 else 2 * Pow2(k - 1)
  }

  lemma {:induction false} Pow2Sum(a: nat, b: nat)
    ensures Pow2(a + b) == Pow2(a) * Pow2(b)
    decreases b
  {
    if b > 0 {
      Pow2Sum(a, b - 1);
      assert Pow2(a) * Pow2(b) == 2 * (Pow2(a) * Pow2(b - 1));
    }
  }

  lemma {:induction false} Pow2Monotone(a: nat, b: nat)
    requires a <= b
    ensures Pow2(a) <= Pow2(b)
    decreases b
  {
    if a < b {
      Pow2Monotone(a, b - 1);
    }
  }

  lemma MulAtLeast(t: int, m: int)
    requires t >= 1 && m >= 0
    ensures t * m >= m
  {
    assert t * m == (t - 1) * m + m && (t - 1) * m >= 0;
  }

  lemma NonNegative(a: nat, b: nat)
    ensures a * b >= 0
  {
    if a > 0 {
      MulAtLeast(a, b);
    }
  }

  lemma QuotientsAgree(a: int, b: int, r: int, s: int, m: int)
    requires a * m + r == b * m + s && 0 <= r < m && 0 <= s < m
    ensures a == b && r == s
  {
    assert a * m - b * m == (a - b) * m;
    if a > b {
      MulAtLeast(a - b, m);
    } else if a < b {
      assert (b - a) * m == b * m - a * m;
      MulAtLeast(b - a, m);
    }
  }

  lemma ModUnique(a: int, m: nat, q: int, r: int)
    requires m > 0 && a == q * m + r && 0 <= r < m
    ensures a % m == r && a / m == q
  {
    var q', r' := a / m, a % m;
    QuotientsAgree(q, q', r, r', m);
  }

  /** Dividing a sum: the remainder of the first part carries over. */
  lemma DivideSum(x: nat, b: nat, m: nat)
    requires m > 0
    ensures (x + b) / m == x / m + (x % m + b) / m && (x + b) % m == (x % m + b) % m
  {
    var q, i := x / m, x % m;
    var q2, i2 := (i + b) / m, (i + b) % m;
    assert (q + q2) * m == q * m + q2 * m;
    ModUnique(x + b, m, q + q2, i2);
  }

  lemma QuotientSmall(x: nat, m: nat)
    requires m > 0
    ensures x / m <= x && x % m <= x
  {
    var q := x / m;
    assert x == q * m + x % m;
    if q > 0 {
      MulAtLeast(m, q);
    }
  }

  /** Quotient and remainder under names of their own, so that proofs can treat them as unknowns. */
  function Quot(x: nat, m: nat): nat
    requires m > 0
  {
    x / m
  }

  function Rem(x: nat, m: nat): nat
    requires m > 0
  {
    x % m
  }

  lemma QuotUnique(a: nat, m: nat, q: nat, r: nat)
    requires a == q * m + r && r < m
    ensures Quot(a, m) == q && Rem(a, m) == r
  {
    ModUnique(a, m, q, r);
  }

  lemma QuotRemSum(x: nat, b: nat, m: nat)
    requires m > 0
    ensures Quot(x + b, m) == Quot(x, m) + Quot(Rem(x, m) + b, m) && Rem(x + b, m) == Rem(Rem(x, m) + b, m)
    ensures Quot(x + b, m) <= x + b && Rem(x, m) <= x
  {
    DivideSum(x, b, m);
    QuotientSmall(x, m);
    QuotientSmall(x + b, m);
  }
}
