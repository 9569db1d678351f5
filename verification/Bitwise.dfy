/** The C operators `&`, `|` and `~` on unsigned operands, as functions of natural numbers. */
module Bitwise {

  function Pow2(k: nat): (p: nat)
    ensures p > 0
  {
    if k == 0 then 1 else 2 * Pow2(k - 1)
  }

  function And(a: nat, b: nat): (c: nat)
    decreases a + b
  {
    if a == 0 || b == 0 then 0 else 2 * And(a / 2, b / 2) + (if a % 2 == 1 && b % 2 == 1 then 1 else 0)
  }

  function Or(a: nat, b: nat): (c: nat)
    ensures c >= a && c >= b
    decreases a + b
  {
    if a == 0 then b
    else if b == 0 then a
    else 2 * Or(a / 2, b / 2) + (if a % 2 == 0 && b % 2 == 0 then 0 else 1)
  }

  /** An or stays below a power of two exactly when both operands do. */
  lemma {:induction false} OrBelow(a: nat, b: nat, k: nat)
    ensures Or(a, b) < Pow2(k) <==> a < Pow2(k) && b < Pow2(k)
  {
    if a != 0 && b != 0 && k != 0 {
      OrBelow(a / 2, b / 2, k - 1);
    }
  }

  /** The low k bits of a number. */
  function Low(a: nat, k: nat): (l: nat)
    ensures l <= a && l < Pow2(k)
  {
    if k == 0 then 0 else 2 * Low(a / 2, k - 1) + a % 2
  }

  lemma {:induction false} AndAllOnes(a: nat, n: nat)
    requires a < Pow2(n)
    ensures And(a, Pow2(n) - 1) == a
    decreases n
  {
    if n != 0 && a != 0 {
      AndAllOnes(a / 2, n - 1);
      assert (Pow2(n) - 1) / 2 == Pow2(n - 1) - 1 && (Pow2(n) - 1) % 2 == 1;
    }
  }

  lemma {:induction false} Pow2Monotone(k: nat, n: nat)
    requires k <= n
    ensures Pow2(k) <= Pow2(n)
  {
    if k < n {
      Pow2Monotone(k, n - 1);
    }
  }

  lemma AndStep(a: nat, a': nat, b: nat, b': nat)
    requires a' == a / 2 && b == 2 * b'
    ensures And(a, b) == 2 * And(a', b')
  {
    assert b / 2 == b' && b % 2 == 0;
  }

  /** Masking with leading ones clears the low bits. */
  lemma {:induction false} AndLeadingOnes(a: nat, n: nat, k: nat)
    requires k <= n && a < Pow2(n)
    ensures Pow2(k) <= Pow2(n)
    ensures And(a, Pow2(n) - Pow2(k)) == a - Low(a, k)
    decreases n
  {
    Pow2Monotone(k, n);
    if k == 0 {
      AndAllOnes(a, n);
    } else {
      AndLeadingOnes(a / 2, n - 1, k - 1);
      AndStep(a, a / 2, Pow2(n) - Pow2(k), Pow2(n - 1) - Pow2(k - 1));
    }
  }

  /** Setting trailing ones fills the low bits. */
  lemma {:induction false} OrTrailingOnes(a: nat, k: nat)
    ensures Or(a, Pow2(k) - 1) == a - Low(a, k) + Pow2(k) - 1
    decreases k
  {
    if k != 0 {
      OrTrailingOnes(a / 2, k - 1);
      assert (Pow2(k) - 1) / 2 == Pow2(k - 1) - 1;
    }
  }

  lemma {:induction false} LowOfRest(a: nat, k: nat)
    ensures Low(a - Low(a, k), k) == 0
  {
    if k != 0 {
      LowOfRest(a / 2, k - 1);
      assert (a - Low(a, k)) / 2 == a / 2 - Low(a / 2, k - 1);
    }
  }

  lemma {:induction false} LowOfOffset(base: nat, d: nat, k: nat)
    requires Low(base, k) == 0 && d < Pow2(k)
    ensures Low(base + d, k) == d
    decreases k
  {
    if k != 0 {
      assert base % 2 == 0 && Low(base / 2, k - 1) == 0;
      LowOfOffset(base / 2, d / 2, k - 1);
      assert (base + d) / 2 == base / 2 + d / 2;
    }
  }

  // ---- quotient and remainder ----

  lemma LargerQuotient(d: nat, q: nat, x: nat, r: nat, r': nat)
    requires r < d && x >= 1
    ensures d * q + r < d * (q + x) + r'
  {
    assert d * (q + x) == d * q + d * x;
    assert d * x >= d * 1;
  }

  lemma DivisionIs(n: nat, d: nat, q: nat, r: nat)
    requires n == d * q + r && r < d
    ensures n / d == q && n % d == r
  {
    var q', r' := n / d, n % d;
    assert n == d * q' + r';
    if q < q' {
      LargerQuotient(d, q, q' - q, r, r');
    } else if q' < q {
      LargerQuotient(d, q', q - q', r', r);
    }
  }

  lemma LowStep(a: nat, m: nat)
    requires m > 0
    ensures a % (2 * m) == 2 * (a / 2 % m) + a % 2
  {
    var b := a / 2;
    assert b == m * (b / m) + b % m;
    assert a == 2 * b + a % 2;
    assert 2 * (m * (b / m)) == (2 * m) * (b / m);
    DivisionIs(a, 2 * m, b / m, 2 * (b % m) + a % 2);
  }

  /** The low bits are the remainder. */
  lemma {:induction false} LowIsRemainder(a: nat, k: nat)
    ensures Low(a, k) == a % Pow2(k)
  {
    if k != 0 {
      LowIsRemainder(a / 2, k - 1);
      LowStep(a, Pow2(k - 1));
    }
  }
}
