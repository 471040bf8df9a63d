/** No prime fails the strong Lucas-Selfridge test of new_src/primality_bpsw.c, hence none fails
    its Baillie-PSW test: the Frobenius argument, by counting in Pascal's triangle. */
module PrimeLucas {
  import opened NumberTheory
  import opened WindowPow
  import opened Fermat
  import opened Bpsw

  /** Even and odd part of the first k terms of (1 + x)^n with x * x == d. */
  function EvenSum(d: int, n: nat, k: nat): int {
    if k == 0 then 0
    else EvenSum(d, n, k - 1) + if k % 2 == 1 then Choose(n, k - 1) * Pow(d, (k - 1) / 2) else 0
  }

  function OddSum(d: int, n: nat, k: nat): int {
    if k == 0 then 0
    else OddSum(d, n, k - 1) + if k % 2 == 0 then Choose(n, k - 1) * Pow(d, (k - 1) / 2) else 0
  }

  /** How the sums unfold at an even and at an odd index. */
  lemma UnfoldEven(d: int, n: nat, k: nat)
    requires k > 0 && k % 2 == 0
    ensures EvenSum(d, n, k + 1) == EvenSum(d, n, k) + Choose(n, k) * Pow(d, k / 2)
    ensures OddSum(d, n, k + 1) == OddSum(d, n, k) && EvenSum(d, n, k) == EvenSum(d, n, k - 1)
    ensures OddSum(d, n, k) == OddSum(d, n, k - 1) + Choose(n, k - 1) * Pow(d, (k - 1) / 2)
  {
    hide Choose, Pow;
  }

  lemma UnfoldOdd(d: int, n: nat, k: nat)
    requires k % 2 == 1
    ensures OddSum(d, n, k + 1) == OddSum(d, n, k) + Choose(n, k) * Pow(d, k / 2)
    ensures EvenSum(d, n, k + 1) == EvenSum(d, n, k) && OddSum(d, n, k) == OddSum(d, n, k - 1)
    ensures EvenSum(d, n, k) == EvenSum(d, n, k - 1) + Choose(n, k - 1) * Pow(d, k / 2)
  {
    hide Choose, Pow;
    assert (k - 1) / 2 == k / 2;
  }

  /** One more factor 1 + x. */
  lemma {:induction false} SumsStep(d: int, n: nat, k: nat)
    ensures EvenSum(d, n + 1, k + 1) == EvenSum(d, n, k + 1) + d * OddSum(d, n, k)
    ensures OddSum(d, n + 1, k + 1) == OddSum(d, n, k + 1) + EvenSum(d, n, k)
  {
    if k > 0 {
      SumsStep(d, n, k - 1);
      var a, b := Choose(n, k - 1), Choose(n, k);
      assert Choose(n + 1, k) == a + b;
      if k % 2 == 0 {
        assert Pow(d, k / 2) == d * Pow(d, (k - 1) / 2);
        UnfoldEven(d, n, k);
        UnfoldEven(d, n + 1, k);
        hide *;
        EvenTerm(EvenSum(d, n, k), OddSum(d, n, k - 1), EvenSum(d, n + 1, k), a, b, d, Pow(d, (k - 1) / 2),
                 Choose(n + 1, k), Pow(d, k / 2));
      } else {
        UnfoldOdd(d, n, k);
        UnfoldOdd(d, n + 1, k);
        hide *;
        OddTerm(OddSum(d, n, k), EvenSum(d, n, k - 1), OddSum(d, n + 1, k), a, b, Choose(n + 1, k), Pow(d, k / 2));
      }
    }
  }

  lemma EvenTerm(e: int, o: int, e': int, a: int, b: int, d: int, w: int, x: int, y: int)
    requires e' == e + d * o && x == a + b && y == d * w
    ensures e' + x * y == (e + b * y) + d * (o + a * w)
  {
    assert x * y == a * y + b * y;
    assert a * y == d * (a * w) by { assert a * (d * w) == d * (a * w); }
    assert d * (o + a * w) == d * o + d * (a * w);
  }

  lemma OddTerm(o: int, e: int, o': int, a: int, b: int, x: int, y: int)
    requires o' == o + e && x == a + b
    ensures o' + x * y == (o + b * y) + (e + a * y)
  {
    assert x * y == a * y + b * y;
  }

  /** The two parts of (1 + x)^n are 2^(n-1) times V_n and U_n. */
  lemma {:induction false} SumsAreLucas(n: nat, q: int)
    ensures 2 * EvenSum(1 - 4 * q, n, n + 1) == Pow(2, n) * V(n, q)
    ensures 2 * OddSum(1 - 4 * q, n, n + 1) == Pow(2, n) * U(n, q)
  {
    var d := 1 - 4 * q;
    if n == 0 {
      assert EvenSum(d, 0, 1) == EvenSum(d, 0, 0) + Choose(0, 0) * Pow(d, 0);
      assert OddSum(d, 0, 1) == 0;
    } else {
      SumsAreLucas(n - 1, q);
      SumsStep(d, n - 1, n);
      ChooseBeyond(n - 1, n);
      LucasStep(n - 1, q);
      LucasScale(EvenSum(d, n - 1, n), OddSum(d, n - 1, n), Pow(2, n - 1), U(n - 1, q), V(n - 1, q),
                 U(n, q), V(n, q), d);
    }
  }

  lemma LucasScale(e: int, o: int, p: int, u: int, v: int, u': int, v': int, d: int)
    requires 2 * e == p * v && 2 * o == p * u
    requires 2 * u' == u + v && 2 * v' == d * u + v
    ensures 2 * (e + d * o) == (2 * p) * v' && 2 * (o + e) == (2 * p) * u'
  {
    assert (2 * p) * v' == p * (2 * v') == p * (d * u) + p * v;
    assert d * (2 * o) == d * (p * u) == p * (d * u);
    assert (2 * p) * u' == p * (2 * u') == p * u + p * v;
  }

  /** Modulo a prime only the ends of the row count. */
  lemma {:induction false} SumsModPrime(d: int, p: nat, k: nat)
    requires Prime(p) && 1 <= k <= p
    ensures Cong(EvenSum(d, p, k), 1, p) && Cong(OddSum(d, p, k), 0, p)
  {
    if k == 1 {
      assert EvenSum(d, p, 1) == EvenSum(d, p, 0) + Choose(p, 0) * Pow(d, 0);
      assert OddSum(d, p, 1) == 0;
    } else {
      SumsModPrime(d, p, k - 1);
      InnerEntry(p, k - 1);
      ModSmall(0, p);
      CongMul(Choose(p, k - 1), 0, Pow(d, (k - 1) / 2), Pow(d, (k - 1) / 2), p);
      var term := Choose(p, k - 1) * Pow(d, (k - 1) / 2);
      CongAdd(EvenSum(d, p, k - 1), 1, term, 0, p);
      CongAdd(OddSum(d, p, k - 1), 0, term, 0, p);
    }
  }

  /** U_p is D^((p-1)/2) and V_p is 1 modulo every odd prime p. */
  lemma LucasAtPrime(p: nat, q: int)
    requires Prime(p) && p % 2 == 1
    ensures Cong(V(p, q), 1, p) && Cong(U(p, q), Pow(1 - 4 * q, (p - 1) / 2), p)
  {
    var d := 1 - 4 * q;
    var w := Pow(d, (p - 1) / 2);
    SumsModPrime(d, p, p);
    SumsAreLucas(p, q);
    ChooseFull(p);
    assert EvenSum(d, p, p + 1) == EvenSum(d, p, p);
    assert OddSum(d, p, p + 1) == OddSum(d, p, p) + w;
    CongAdd(OddSum(d, p, p), 0, w, w, p);
    FermatLittle(p);
    assert Pow(2, p) == 2 * Pow(2, p - 1);
    ModSmall(1, p);
    CancelPower(p, Pow(2, p - 1), EvenSum(d, p, p), V(p, q), 1);
    CancelPower(p, Pow(2, p - 1), OddSum(d, p, p) + w, U(p, q), w);
  }

  lemma CancelPower(p: nat, h: int, s: int, v: int, w: int)
    requires p > 0 && p % 2 == 1 && Cong(h, 1, p) && 2 * s == (2 * h) * v && Cong(s, w, p)
    ensures Cong(v, w, p)
  {
    assert (2 * h) * v == 2 * (h * v);
    CongMul(h, 1, v, v, p);
  }

  /** Euler's criterion: what the Jacobi symbol over a prime says. */
  ghost predicate Legendre(p: nat, jacobi: int -> int)
    requires p > 0
  {
    forall d: int :: LegendreAt(p, d, jacobi(d))
  }

  ghost predicate LegendreAt(p: nat, d: int, j: int)
    requires p > 0
  {
    if d % p == 0 then j == 0
    else (j == 1 && Cong(Pow(d, (p - 1) / 2), 1, p)) || (j == -1 && Cong(Pow(d, (p - 1) / 2), -1, p))
  }

  /** When D is no square modulo p, U_(p+1) vanishes. */
  lemma RankDividesNext(p: nat, q: int)
    requires Prime(p) && p % 2 == 1 && Cong(Pow(1 - 4 * q, (p - 1) / 2), -1, p)
    ensures U(p + 1, q) % p == 0
  {
    LucasAtPrime(p, q);
    LucasStep(p, q);
    CongAdd(U(p, q), -1, V(p, q), 1, p);
    CancelTwo(U(p + 1, q), 0, p);
    ModSmall(0, p);
  }

  /** U at 2^s * d is U_d times the V's on the way, so a prime that divides it divides one. */
  lemma {:induction false} DescendToOdd(p: nat, q: int, s: nat, d: nat)
    requires Prime(p) && U(Scale(d, s), q) % p == 0
    ensures U(d, q) % p == 0 || exists r: nat :: r < s && V(Scale(d, r), q) % p == 0
  {
    if s > 0 {
      var k := Scale(d, s - 1);
      ScaleMore(d, s - 1);
      assert Scale(d, s) == 2 * k;
      LucasDouble(k, q);
      Euclid(p, U(k, q), V(k, q));
      if V(k, q) % p != 0 { DescendToOdd(p, q, s - 1, d); }
    }
  }

  /** A prime is no square. */
  lemma PrimeIsNoSquare(p: nat)
    requires Prime(p)
    ensures !IsSquare(p)
  {
    forall r | 0 <= r <= p ensures !SquaresTo(r, p) { NoSquareRoot(p, r); }
  }

  lemma NoSquareRoot(p: nat, r: nat)
    requires Prime(p) && r <= p
    ensures r * r != p
  {
    if r > 1 {
      ModOfMultiple(r, r);
      MulLt(1, r, r);
    }
  }

  /** The first useful discriminant of a prime that is a multiple of the prime is plus or minus
      the prime itself. */
  lemma ZeroSymbolMeansItself(p: nat, jacobi: int -> int, i: nat)
    requires Prime(p) && p > 2 && p % 2 == 1 && Legendre(p, jacobi) && FirstUseful(jacobi, i)
    requires jacobi(Discriminant(i)) == 0
    ensures p == Discriminant(i) || p == -Discriminant(i)
  {
    if p == 3 {
      ThreeStopsAtOnce(jacobi);
    } else {
      SymbolVanishes(p, jacobi);
      LastIsUseful(p, jacobi);
      SymbolIsZero(p, jacobi, Discriminant(i));
      hide *;
      assert i <= LastIndex(p) by { NotLater(jacobi, i, LastIndex(p)); }
      WithinLast(p, i);
      AbsoluteMultiple(p, Discriminant(i), 5 + 2 * i);
    }
  }

  lemma SymbolIsZero(p: nat, jacobi: int -> int, d: int)
    requires p > 0 && Legendre(p, jacobi) && jacobi(d) == 0
    ensures d % p == 0
  {
    assert LegendreAt(p, d, jacobi(d));
  }

  lemma NotLater(jacobi: int -> int, i: nat, j: nat)
    requires FirstUseful(jacobi, i) && jacobi(Discriminant(j)) != 1
    ensures i <= j
  {
  }

  lemma WithinLast(p: nat, i: nat)
    requires p >= 5 && i <= LastIndex(p)
    ensures 5 + 2 * i <= p && (Discriminant(i) == 5 + 2 * i || Discriminant(i) == -(5 + 2 * i))
  {
  }

  /** The search for 3 stops at the discriminant 5, whose symbol is -1. */
  lemma ThreeStopsAtOnce(jacobi: int -> int)
    requires Legendre(3, jacobi)
    ensures jacobi(Discriminant(0)) == -1
  {
    assert LegendreAt(3, 5, jacobi(5));
    assert Pow(5, 1) == 5 * Pow(5, 0);
  }

  lemma AbsoluteMultiple(p: nat, d: int, a: int)
    requires p > 0 && d % p == 0 && (d == a || d == -a) && 0 < a <= p
    ensures a == p
  {
    var k := d / p;
    assert d == k * p;
    if k >= 2 { MulLe(2, k, p); } else if k <= -2 { MulLe(k, -2, p); }
  }

  /** Every odd prime gets the verdict prime from the strong Lucas-Selfridge test. */
  lemma PrimesAreStrongLucas(p: nat, jacobi: int -> int, i: nat)
    requires Prime(p) && p > 2 && p % 2 == 1 && Legendre(p, jacobi) && FirstUseful(jacobi, i)
    ensures LucasVerdictAt(p, jacobi, i)
  {
    var disc := Discriminant(i);
    if jacobi(disc) == 0 {
      ZeroSymbolMeansItself(p, jacobi, i);
    } else {
      assert LegendreAt(p, disc, jacobi(disc));
      DiscriminantIsOneMod4(i);
      var q := (1 - disc) / 4;
      assert 1 - 4 * q == disc;
      RankDividesNext(p, q);
      StrongAtPrime(p, q);
    }
  }

  lemma StrongAtPrime(p: nat, q: int)
    requires Prime(p) && U(p + 1, q) % p == 0
    ensures exists s: nat, d: nat :: SplitAbove(p, s, d) && StrongLucas(p, q, s, d)
  {
    var s, d := SplitOf(p + 1);
    DescendToOdd(p, q, s, d);
    assert SplitAbove(p, s, d) && StrongLucas(p, q, s, d);
  }

  /** The Baillie-PSW test accepts every prime. */
  method PrimesPassBailliePsw(p: nat, jacobi: int -> int) returns (ok: bool)
    requires Prime(p) && Legendre(p, jacobi)
    ensures ok
  {
    hide *;
    SymbolVanishes(p, jacobi);
    ok := BailliePsw(p, jacobi);
    if p > 2 {
      ghost var i := AcceptedAt(p, jacobi);
      assert ok;
    }
  }

  lemma SymbolVanishes(p: nat, jacobi: int -> int)
    requires Prime(p) && Legendre(p, jacobi)
    ensures p >= 2 && VanishesOnMultiples(p, jacobi)
  {
    forall d: int | d % p == 0 ensures jacobi(d) == 0 { assert LegendreAt(p, d, jacobi(d)); }
  }

  /** Both parts of the test accept an odd prime. */
  lemma AcceptedAt(p: nat, jacobi: int -> int) returns (i: nat)
    requires Prime(p) && p > 2 && Legendre(p, jacobi)
    ensures p % 2 == 1 && !IsSquare(p) && StrongVerdict(p)
    ensures FirstUseful(jacobi, i) && LucasVerdictAt(p, jacobi, i)
  {
    assert p % 2 != 0;
    SymbolVanishes(p, jacobi);
    PrimeIsNoSquare(p);
    PrimesAreStrong(p);
    i := FirstUsefulExists(p, jacobi);
    PrimesAreStrongLucas(p, jacobi, i);
  }
}
