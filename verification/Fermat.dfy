/** Fermat's little theorem for base 2, by counting subsets: the inner entries of Pascal's row p
    are multiples of p. */
module Fermat {
  import opened NumberTheory

  function Choose(n: nat, k: nat): nat {
    if k == 0 then 1
    else if n == 0 then 0
    else Choose(n - 1, k - 1) + Choose(n - 1, k)
  }

  lemma {:induction false} ChooseBeyond(n: nat, k: nat)
    requires k > n
    ensures Choose(n, k) == 0
  {
    if n > 0 {
      ChooseBeyond(n - 1, k - 1);
      ChooseBeyond(n - 1, k);
    }
  }

  lemma {:induction false} ChooseFull(n: nat)
    ensures Choose(n, n) == 1
  {
    if n > 0 {
      ChooseFull(n - 1);
      ChooseBeyond(n - 1, n);
    }
  }

  /** k * C(n, k) == n * C(n - 1, k - 1). */
  lemma {:induction false} Absorption(n: nat, k: nat)
    requires n >= 1 && k >= 1
    ensures k * Choose(n, k) == n * Choose(n - 1, k - 1)
  {
    if n == 1 {
      if k > 1 { ChooseBeyond(1, k); ChooseBeyond(0, k - 1); }
    } else {
      Absorption(n - 1, k);
      if k > 1 { Absorption(n - 1, k - 1); }
      AbsorbArith(n, k, Choose(n - 1, k - 1), Choose(n - 1, k), if k == 1 then 0 else Choose(n - 2, k - 2),
                  Choose(n - 2, k - 1));
    }
  }

  lemma AbsorbArith(n: int, k: int, a: int, b: int, c: int, d: int)
    requires (k - 1) * a == (n - 1) * c && k * b == (n - 1) * d && a == c + d
    ensures k * (a + b) == n * a
  {
    assert k * (a + b) == a + (k - 1) * a + k * b;
    assert (n - 1) * c + (n - 1) * d == (n - 1) * (c + d);
    assert a + (n - 1) * a == n * a;
  }

  /** Sum of the first k entries of row n. */
  function RowSum(n: nat, k: nat): nat {
    if k == 0 then 0 else RowSum(n, k - 1) + Choose(n, k - 1)
  }

  lemma {:induction false} RowSumStep(n: nat, k: nat)
    requires n >= 1
    ensures RowSum(n, k + 1) == RowSum(n - 1, k) + RowSum(n - 1, k + 1)
  {
    if k > 0 { RowSumStep(n, k - 1); }
  }

  /** A row of Pascal's triangle sums to a power of two. */
  lemma {:induction false} RowIsPower(n: nat)
    ensures RowSum(n, n + 1) == Pow(2, n)
  {
    if n > 0 {
      RowIsPower(n - 1);
      RowSumStep(n, n);
      ChooseBeyond(n - 1, n);
    }
  }

  /** The inner entries of a prime row vanish modulo the prime. */
  lemma InnerEntry(p: nat, k: nat)
    requires Prime(p) && 1 <= k < p
    ensures Choose(p, k) % p == 0
  {
    Absorption(p, k);
    ModOfMultiple(Choose(p - 1, k - 1), p);
    Euclid(p, k, Choose(p, k));
    ModSmall(k, p);
  }

  lemma {:induction false} RowSumModPrime(p: nat, k: nat)
    requires Prime(p) && 1 <= k <= p
    ensures Cong(RowSum(p, k), 1, p)
  {
    if k == 1 {
      assert RowSum(p, 1) == RowSum(p, 0) + Choose(p, 0);
    } else {
      RowSumModPrime(p, k - 1);
      InnerEntry(p, k - 1);
      CongAdd(RowSum(p, k - 1), 1, Choose(p, k - 1), 0, p);
    }
  }

  /** 2^(p-1) == 1 modulo every odd prime p. */
  lemma FermatLittle(p: nat)
    requires Prime(p) && p % 2 == 1
    ensures Pow(2, p - 1) % p == 1
  {
    RowIsPower(p);
    RowSumModPrime(p, p);
    ChooseFull(p);
    CongAdd(RowSum(p, p), 1, 1, 1, p);
    assert Pow(2, p) == 2 * Pow(2, p - 1);
    CancelTwo(Pow(2, p - 1), 1, p);
    ModSmall(1, p);
  }

  /** Modulo a prime, 1 has no square roots but 1 and -1. */
  lemma SquareRootsOfOne(p: int, x: int)
    requires Prime(p) && 0 <= x < p && (x * x) % p == 1
    ensures x == 1 || x == p - 1
  {
    ModSmall(1, p);
    CongAdd(x * x, 1, 1, 1, p);
    assert (x - 1) * (x + 1) == x * x - 1;
    ModSmall(0, p);
    Euclid(p, x - 1, x + 1);
    if (x - 1) % p == 0 {
      if x == 0 { DivModUnique(-1, p, -1, p - 1); } else { ModSmall(x - 1, p); }
    } else if x + 1 < p {
      ModSmall(x + 1, p);
    }
  }
}
