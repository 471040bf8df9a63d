/** Integer facts shared by the arithmetic modules: division with remainder, powers,
    cancellation modulo an odd number, Euclid's lemma and Fermat's little theorem for base 2. */
module NumberTheory {

  function Pow(b: int, e: nat): int {
    if e == 0 then 1 else b * Pow(b, e - 1)
  }

  lemma MulLe(a: int, b: int, m: int)
    requires a <= b && 0 <= m
    ensures a * m <= b * m && m * a <= m * b
  {
  }

  lemma MulLt(a: int, b: int, m: int)
    requires a < b && 0 < m
    ensures a * m < b * m && m * a < m * b && a * m + m <= b * m
  {
    MulLe(a + 1, b, m);
  }

  /** Quotient and remainder are determined by a == q * n + r with 0 <= r < n. */
  lemma DivModUnique(a: int, n: int, q: int, r: int)
    requires n > 0 && a == q * n + r && 0 <= r < n
    ensures a / n == q && a % n == r
  {
    var q', r' := a / n, a % n;
    assert a == q' * n + r';
    if q < q' { MulLt(q, q', n); } else if q' < q { MulLt(q', q, n); }
  }

  lemma ModAddMul(a: int, k: int, n: int)
    requires n > 0
    ensures (a + k * n) % n == a % n && (a + k * n) / n == a / n + k
  {
    assert a + k * n == (a / n + k) * n + a % n;
    DivModUnique(a + k * n, n, a / n + k, a % n);
  }

  lemma ModOfMultiple(k: int, n: int)
    requires n > 0
    ensures (k * n) % n == 0 && (n * k) % n == 0
  {
    DivModUnique(k * n, n, k, 0);
    assert n * k == k * n;
  }

  lemma ModSmall(a: int, n: int)
    requires 0 <= a < n
    ensures a % n == a && a / n == 0
  {
    DivModUnique(a, n, 0, a);
  }

  /** Congruence of a and b modulo n, in both its forms. */
  ghost predicate Cong(a: int, b: int, n: int)
    requires n > 0
  {
    a % n == b % n
  }

  lemma CongByMultiple(a: int, b: int, k: int, n: int)
    requires n > 0 && a - b == k * n
    ensures Cong(a, b, n)
  {
    ModAddMul(b, k, n);
  }

  lemma CongMultiple(a: int, b: int, n: int) returns (k: int)
    requires n > 0 && Cong(a, b, n)
    ensures a - b == k * n
  {
    k := a / n - b / n;
    assert (a / n - b / n) * n == (a / n) * n - (b / n) * n;
  }

  lemma CongMul(a: int, a': int, b: int, b': int, n: int)
    requires n > 0 && Cong(a, a', n) && Cong(b, b', n)
    ensures Cong(a * b, a' * b', n)
  {
    var k := CongMultiple(a, a', n);
    var l := CongMultiple(b, b', n);
    assert a * b - a' * b' == (a - a') * b + a' * (b - b');
    assert (k * n) * b + a' * (l * n) == (k * b + a' * l) * n;
    CongByMultiple(a * b, a' * b', k * b + a' * l, n);
  }

  lemma CongAdd(a: int, a': int, b: int, b': int, n: int)
    requires n > 0 && Cong(a, a', n) && Cong(b, b', n)
    ensures Cong(a + b, a' + b', n) && Cong(a - b, a' - b', n)
  {
    var k := CongMultiple(a, a', n);
    var l := CongMultiple(b, b', n);
    assert (k + l) * n == k * n + l * n && (k - l) * n == k * n - l * n;
    CongByMultiple(a + b, a' + b', k + l, n);
    CongByMultiple(a - b, a' - b', k - l, n);
  }

  lemma CongMod(a: int, n: int)
    requires n > 0
    ensures Cong(a % n, a, n)
  {
    CongByMultiple(a % n, a, -(a / n), n);
  }

  lemma {:induction false} PowAdd(b: int, e: nat, f: nat)
    ensures Pow(b, e + f) == Pow(b, e) * Pow(b, f)
  {
    if e > 0 {
      PowAdd(b, e - 1, f);
      assert b * (Pow(b, e - 1) * Pow(b, f)) == (b * Pow(b, e - 1)) * Pow(b, f);
    }
  }

  lemma {:induction false} PowPositive(b: int, e: nat)
    requires b > 0
    ensures Pow(b, e) > 0
  {
    if e > 0 { PowPositive(b, e - 1); }
  }

  lemma {:induction false} PowMonotone(b: int, e: nat, f: nat)
    requires b >= 1 && e <= f
    ensures 1 <= Pow(b, e) <= Pow(b, f)
  {
    PowPositive(b, e);
    if e < f {
      PowMonotone(b, e, f - 1);
      MulLe(1, b, Pow(b, f - 1));
    }
  }

  lemma {:induction false} PowStrict(b: int, e: nat, f: nat)
    requires b >= 2 && e < f
    ensures Pow(b, e) < Pow(b, f)
  {
    PowMonotone(b, e, f - 1);
    MulLe(2, b, Pow(b, f - 1));
  }

  lemma MulShuffle(a: int, b: int, x: int, y: int)
    ensures (a * b) * (x * y) == (a * x) * (b * y)
  {
    assert (a * b) * (x * y) == a * (b * (x * y));
    assert b * (x * y) == x * (b * y);
    assert a * (x * (b * y)) == (a * x) * (b * y);
  }

  lemma {:induction false} PowMul(a: int, b: int, e: nat)
    ensures Pow(a * b, e) == Pow(a, e) * Pow(b, e)
  {
    if e > 0 {
      PowMul(a, b, e - 1);
      MulShuffle(a, b, Pow(a, e - 1), Pow(b, e - 1));
    }
  }

  lemma {:induction false} PowCong(a: int, b: int, e: nat, n: int)
    requires n > 0 && Cong(a, b, n)
    ensures Cong(Pow(a, e), Pow(b, e), n)
  {
    if e > 0 {
      PowCong(a, b, e - 1, n);
      CongMul(a, b, Pow(a, e - 1), Pow(b, e - 1), n);
    }
  }

  /** Doubling is injective modulo an odd number. */
  lemma CancelTwo(a: int, b: int, n: int)
    requires n > 0 && n % 2 == 1 && Cong(2 * a, 2 * b, n)
    ensures Cong(a, b, n)
  {
    var k := CongMultiple(2 * a, 2 * b, n);
    var m := n / 2;
    assert k * n == 2 * (k * m) + k;
    var h := k / 2;
    assert k == 2 * h;
    assert k * n == 2 * (h * n);
    CongByMultiple(a, b, h, n);
  }

  /** So is multiplication by any power of two. */
  lemma {:induction false} CancelPow2(a: int, b: int, e: nat, n: int)
    requires n > 0 && n % 2 == 1 && Cong(a * Pow(2, e), b * Pow(2, e), n)
    ensures Cong(a, b, n)
  {
    if e > 0 {
      var p := Pow(2, e - 1);
      assert a * (2 * p) == 2 * (a * p) && b * (2 * p) == 2 * (b * p);
      CancelTwo(a * p, b * p, n);
      CancelPow2(a, b, e - 1, n);
    }
  }

  ghost predicate Prime(p: int) {
    p >= 2 && forall d :: 2 <= d < p ==> p % d != 0
  }

  /** Euclid's lemma: a prime that divides a * b divides a or b. */
  lemma {:induction false} EuclidSmall(p: int, a: int, b: int)
    requires Prime(p) && 0 < a < p && (a * b) % p == 0
    ensures b % p == 0
    decreases a
  {
    if a > 1 {
      var q, r := p / a, p % a;
      assert r > 0;
      var k := CongMultiple(a * b, 0, p);
      assert r * b == p * b - (q * a) * b == (b - q * k) * p by {
        assert (q * a) * b == q * (a * b) == q * (k * p) == (q * k) * p;
        assert p == q * a + r;
        assert (q * a + r) * b == (q * a) * b + r * b;
      }
      ModOfMultiple(b - q * k, p);
      EuclidSmall(p, r, b);
    }
  }

  lemma Euclid(p: int, a: int, b: int)
    requires Prime(p) && (a * b) % p == 0
    ensures a % p == 0 || b % p == 0
  {
    if a % p != 0 {
      CongMod(a, p);
      CongMul(a % p, a, b, b, p);
      EuclidSmall(p, a % p, b);
    }
  }
}
