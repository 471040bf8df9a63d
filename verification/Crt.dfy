/** Chinese remaindering: the incremental solver of new_src/crt_runtime.c and
    new_src/gap_hunt.c, the direct solver of new_src/gap_target.c, and the proof that they
    return the same number. */
module Crt {
  import opened NumberTheory

  const TWO64: int := 0x1_0000_0000_0000_0000
  const TWO32: int := 0x1_0000_0000

  /** Inverse of a modulo the prime p, in [0, p) (mpz_invert). */
  function Inverse(p: nat, a: nat): (x: nat)
    requires Prime(p) && 0 < a < p
    ensures x < p && Cong(a * x, 1, p)
    decreases a
  {
    if a == 1 then 1
    else
      var q, r := p / a, p % a;
      var y := Inverse(p, r);
      InverseStep(p, a, q, r, y);
      (-(q * y)) % p
  }

  lemma InverseStep(p: int, a: int, q: int, r: int, y: int)
    requires p > 0 && p == q * a + r && Cong(r * y, 1, p)
    ensures Cong(a * ((-(q * y)) % p), 1, p)
  {
    CongMod(-(q * y), p);
    CongMul(a, a, (-(q * y)) % p, -(q * y), p);
    InverseArith(p, a, q, r, y);
    CongByMultiple(a * -(q * y), r * y, -y, p);
  }

  lemma InverseArith(p: int, a: int, q: int, r: int, y: int)
    requires p == q * a + r
    ensures a * -(q * y) - r * y == -y * p
  {
    assert a * -(q * y) == -((q * a) * y);
    assert y * p == y * (q * a) + y * r;
  }

  /** Distinct primes below 2^32. */
  ghost predicate PrimeList(ps: seq<nat>) {
    && (forall i :: 0 <= i < |ps| ==> Prime(ps[i]) && ps[i] < TWO32)
    && forall i, j :: 0 <= i < j < |ps| ==> ps[i] != ps[j]
  }

  /** Product of the first k primes whose offset is not 0. */
  function Modulus(ps: seq<nat>, os: seq<nat>, k: nat): int
    requires k <= |ps| == |os|
  {
    if k == 0 then 1
    else if os[k - 1] == 0 then Modulus(ps, os, k - 1)
    else Modulus(ps, os, k - 1) * ps[k - 1]
  }

  lemma {:induction false} ModulusPositive(ps: seq<nat>, os: seq<nat>, k: nat)
    requires k <= |ps| == |os| && PrimeList(ps)
    ensures Modulus(ps, os, k) >= 1
  {
    if k > 0 {
      ModulusPositive(ps, os, k - 1);
      MulLe(1, Modulus(ps, os, k - 1), ps[k - 1]);
    }
  }

  lemma {:induction false} ModulusDivisible(ps: seq<nat>, os: seq<nat>, k: nat, i: nat)
    requires i < k <= |ps| == |os| && PrimeList(ps) && os[i] != 0
    ensures Modulus(ps, os, k) % ps[i] == 0
  {
    if i == k - 1 {
      ModOfMultiple(Modulus(ps, os, k - 1), ps[i]);
    } else {
      ModulusDivisible(ps, os, k - 1, i);
      if os[k - 1] != 0 {
        CongMul(Modulus(ps, os, k - 1), 0, ps[k - 1], ps[k - 1], ps[i]);
      }
    }
  }

  lemma DistinctPrimes(p: nat, q: nat)
    requires Prime(p) && Prime(q) && p != q
    ensures q % p != 0
  {
    if q < p { ModSmall(q, p); }
  }

  /** A prime that is not in the list does not divide the product. */
  lemma {:induction false} ModulusCoprime(ps: seq<nat>, os: seq<nat>, k: nat, p: nat)
    requires k <= |ps| == |os| && PrimeList(ps) && Prime(p)
    requires forall i :: 0 <= i < k && os[i] != 0 ==> ps[i] != p
    ensures Modulus(ps, os, k) % p != 0
  {
    if k == 0 {
      ModSmall(1, p);
    } else {
      ModulusCoprime(ps, os, k - 1, p);
      if os[k - 1] != 0 {
        DistinctPrimes(p, ps[k - 1]);
        if Modulus(ps, os, k) % p == 0 { Euclid(p, Modulus(ps, os, k - 1), ps[k - 1]); }
      }
    }
  }

  /** x solves the first k congruences: base + x + o_i + adj vanishes modulo p_i. */
  ghost predicate Aligned(ps: seq<nat>, os: seq<nat>, k: nat, base: int, adj: nat, x: int)
    requires k <= |ps| == |os|
  {
    forall i :: 0 <= i < k && os[i] != 0 && ps[i] > 0 ==> (base + x + os[i] + adj) % ps[i] == 0
  }

  /** The digit k of the next prime: how often M must be added to reach the target residue.
      64-bit intermediate products do not wrap for primes below 2^32. */
  function NextDigit(p: nat, o: nat, adj: nat, base: nat, nadd: nat, m: nat): nat
    requires Prime(p) && m % p != 0
  {
    var sum := (base % p + o + adj) % p;
    var targetR := if sum == 0 then 0 else p - sum;
    var diff := (targetR + p - nadd % p) % p;
    (diff * Inverse(p, m % p)) % TWO64 % p
  }

  lemma NextDigitHits(p: nat, o: nat, adj: nat, base: nat, nadd: nat, m: nat)
    requires Prime(p) && p < TWO32 && m % p != 0
    ensures NextDigit(p, o, adj, base, nadd, m) < p
    ensures (base + (nadd + NextDigit(p, o, adj, base, nadd, m) * m) + o + adj) % p == 0
  {
    var sum := (base % p + o + adj) % p;
    var targetR := if sum == 0 then 0 else p - sum;
    var diff := (targetR + p - nadd % p) % p;
    var inv := Inverse(p, m % p);
    hide Inverse;
    assert 0 <= diff * inv < TWO64 by {
      MulLe(diff, TWO32 - 1, inv);
      MulLe(inv, TWO32 - 1, TWO32 - 1);
      MulLe(0, diff, inv);
    }
    ModSmall(diff * inv, TWO64);
    var k := (diff * inv) % p;
    // k * m == diff
    CongMod(m, p);
    CongMod(diff * inv, p);
    CongMul(k, diff * inv, m, m % p, p);
    assert (diff * inv) * (m % p) == diff * ((m % p) * inv);
    CongMul(diff, diff, (m % p) * inv, 1, p);
    // nadd + diff == targetR, and targetR == -(base + o + adj)
    CongMod(nadd, p);
    CongMod(targetR + p - nadd % p, p);
    CongAdd(diff, targetR + p - nadd % p, nadd, nadd % p, p);
    CongMod(base, p);
    CongMod(base % p + o + adj, p);
    CongAdd(base % p, base, o + adj, o + adj, p);
    CongAdd(sum, base + o + adj, targetR, targetR, p);
    CongByMultiple(sum + targetR, 0, if sum == 0 then 0 else 1, p);
    CongByMultiple(targetR + p, targetR, 1, p);
    CongAdd(k * m, diff, nadd, nadd, p);
    CongAdd(nadd + k * m, targetR, base + o + adj, base + o + adj, p);
    ModSmall(0, p);
  }

  /** align_base (adj 0) and align_anchor's loop: solve one prime after the other. */
  method Align(ps: seq<nat>, os: seq<nat>, base: nat, adj: nat) returns (nadd: nat, m: nat)
    requires |ps| == |os| && PrimeList(ps)
    ensures m == Modulus(ps, os, |ps|) && 0 <= nadd < m
    ensures Aligned(ps, os, |ps|, base, adj, nadd)
  {
    hide *;
    nadd, m := 0, 1;
    StartAligned(ps, os, base, adj);
    for i := 0 to |ps|
      invariant m == Modulus(ps, os, i) && 0 <= nadd < m
      invariant Aligned(ps, os, i, base, adj, nadd)
    {
      if os[i] != 0 {
        StepReady(ps, os, i);
        NextDigitHits(ps[i], os[i], adj, base, nadd, m);
        var k := NextDigit(ps[i], os[i], adj, base, nadd, m);
        AlignStep(ps, os, i, base, adj, nadd, k, m);
        DigitRoom(nadd, k, m, ps[i]);
        nadd := nadd + k * m;
        m := m * ps[i];
      } else {
        SkipStep(ps, os, i, base, adj, nadd);
      }
    }
  }

  /** Solutions exist. */
  lemma {:induction false} Solvable(ps: seq<nat>, os: seq<nat>, k: nat, base: nat, adj: nat) returns (x: nat)
    requires k <= |ps| == |os| && PrimeList(ps)
    ensures Aligned(ps, os, k, base, adj, x)
  {
    hide *;
    if k == 0 {
      x := 0;
      StartAligned(ps, os, base, adj);
    } else {
      x := Solvable(ps, os, k - 1, base, adj);
      if os[k - 1] != 0 {
        var m := Modulus(ps, os, k - 1);
        StepReady(ps, os, k - 1);
        NextDigitHits(ps[k - 1], os[k - 1], adj, base, x, m);
        var d := NextDigit(ps[k - 1], os[k - 1], adj, base, x, m);
        AlignStep(ps, os, k - 1, base, adj, x, d, m);
        MulLe(0, d, m);
        x := x + d * m;
      } else {
        SkipStep(ps, os, k - 1, base, adj, x);
      }
    }
  }

  lemma StartAligned(ps: seq<nat>, os: seq<nat>, base: int, adj: nat)
    requires |ps| == |os|
    ensures Modulus(ps, os, 0) == 1 && Aligned(ps, os, 0, base, adj, 0)
  {
  }

  lemma StepReady(ps: seq<nat>, os: seq<nat>, i: nat)
    requires i < |ps| == |os| && PrimeList(ps)
    ensures Prime(ps[i]) && ps[i] < TWO32 && ps[i] > 0
    ensures Modulus(ps, os, i) >= 1 && Modulus(ps, os, i) % ps[i] != 0
  {
    ModulusPositive(ps, os, i);
    ModulusCoprime(ps, os, i, ps[i]);
  }

  /** Adding k times the modulus keeps the earlier congruences and gains the next one. */
  lemma AlignStep(ps: seq<nat>, os: seq<nat>, i: nat, base: int, adj: nat, x: int, k: int, m: int)
    requires i < |ps| == |os| && PrimeList(ps) && os[i] != 0 && ps[i] > 0
    requires m == Modulus(ps, os, i) && m >= 1 && Aligned(ps, os, i, base, adj, x)
    requires (base + (x + k * m) + os[i] + adj) % ps[i] == 0
    ensures Aligned(ps, os, i + 1, base, adj, x + k * m) && Modulus(ps, os, i + 1) == m * ps[i]
  {
    hide PrimeList;
    ModOfMultiple(k, m);
    StaysAligned(ps, os, i, base, adj, x, k * m);
  }

  lemma SkipStep(ps: seq<nat>, os: seq<nat>, i: nat, base: int, adj: nat, x: int)
    requires i < |ps| == |os| && os[i] == 0 && Aligned(ps, os, i, base, adj, x)
    ensures Aligned(ps, os, i + 1, base, adj, x) && Modulus(ps, os, i + 1) == Modulus(ps, os, i)
  {
  }

  lemma DigitRoom(nadd: nat, k: nat, m: int, p: nat)
    requires nadd < m && k < p
    ensures 0 <= nadd + k * m < m * p
  {
    MulLe(k, p - 1, m);
    MulLe(0, k, m);
    assert (p - 1) * m == m * p - m;
  }

  /** Adding a multiple of the modulus so far keeps the earlier congruences. */
  lemma StaysAligned(ps: seq<nat>, os: seq<nat>, k: nat, base: int, adj: nat, x: int, y: int)
    requires k <= |ps| == |os| && PrimeList(ps) && Aligned(ps, os, k, base, adj, x)
    requires Modulus(ps, os, k) > 0 && y % Modulus(ps, os, k) == 0
    ensures Aligned(ps, os, k, base, adj, x + y)
  {
    var m := Modulus(ps, os, k);
    var c := y / m;
    assert y == c * m;
    forall i | 0 <= i < k && os[i] != 0 && ps[i] > 0
      ensures (base + (x + y) + os[i] + adj) % ps[i] == 0
    {
      ModulusDivisible(ps, os, k, i);
      var p := ps[i];
      CongMul(c, c, m, 0, p);
      CongAdd(base + x + os[i] + adj, 0, c * m, 0, p);
    }
  }

  /** Two numbers that agree modulo every prime of the list agree modulo the product. */
  lemma {:induction false} AgreeModProduct(ps: seq<nat>, os: seq<nat>, k: nat, d: int)
    requires k <= |ps| == |os| && PrimeList(ps)
    requires forall i :: 0 <= i < k && os[i] != 0 ==> d % ps[i] == 0
    ensures Modulus(ps, os, k) > 0 && d % Modulus(ps, os, k) == 0
  {
    ModulusPositive(ps, os, k);
    if k > 0 {
      AgreeModProduct(ps, os, k - 1, d);
      if os[k - 1] != 0 {
        ModulusCoprime(ps, os, k - 1, ps[k - 1]);
        DivideBoth(d, Modulus(ps, os, k - 1), ps[k - 1]);
      }
    } else {
      DivModUnique(d, 1, d, 0);
    }
  }

  lemma DivideBoth(d: int, m: int, p: int)
    requires m > 0 && Prime(p) && d % m == 0 && d % p == 0 && m % p != 0
    ensures m * p > 0 && d % (m * p) == 0
  {
    MulLe(1, m, p);
    var c := d / m;
    assert d == m * c;
    Euclid(p, m, c);
    var e := c / p;
    assert c == e * p;
    assert m * (e * p) == e * (m * p);
    ModOfMultiple(e, m * p);
  }

  /** The aligned value in [0, P) is unique. */
  lemma AlignedUnique(ps: seq<nat>, os: seq<nat>, base: int, adj: nat, x: int, y: int)
    requires |ps| == |os| && PrimeList(ps)
    requires 0 <= x < Modulus(ps, os, |ps|) && 0 <= y < Modulus(ps, os, |ps|)
    requires Aligned(ps, os, |ps|, base, adj, x) && Aligned(ps, os, |ps|, base, adj, y)
    ensures x == y
  {
    forall i | 0 <= i < |ps| && os[i] != 0 ensures (x - y) % ps[i] == 0 {
      CongAdd(base + x + os[i] + adj, 0, base + y + os[i] + adj, 0, ps[i]);
      ModSmall(0, ps[i]);
    }
    var m := Modulus(ps, os, |ps|);
    AgreeModProduct(ps, os, |ps|, x - y);
    var c := CongMultiple(x - y, 0, m) by { ModSmall(0, m); }
    if c > 0 { MulLe(1, c, m); } else if c < 0 { MulLe(c, -1, m); }
  }

  // ------------------------------------------------------------------ the direct solver

  function All(n: nat): seq<nat> { seq(n, _ => 1) }

  /** x has the given residues. */
  ghost predicate Solves(ps: seq<nat>, rs: seq<nat>, x: int)
    requires |ps| == |rs|
  {
    forall i :: 0 <= i < |ps| && ps[i] > 0 ==> Cong(x, rs[i], ps[i])
  }

  /** P / p_i keeps every other prime as a factor and loses p_i. */
  lemma Cofactor(ps: seq<nat>, i: nat, mi: int)
    requires PrimeList(ps) && i < |ps| && mi * ps[i] == Modulus(ps, All(|ps|), |ps|)
    ensures mi > 0 && mi % ps[i] != 0
    ensures forall j :: 0 <= j < |ps| && j != i ==> mi % ps[j] == 0
  {
    var n, p := |ps|, ps[i];
    var big := Modulus(ps, All(n), n);
    ModulusPositive(ps, All(n), n);
    if mi <= 0 { MulLe(mi, 0, p); }
    forall j | 0 <= j < n && j != i ensures mi % ps[j] == 0 {
      ModulusDivisible(ps, All(n), n, j);
      DistinctPrimes(ps[j], p);
      Euclid(ps[j], mi, p);
    }
    NotSquared(ps, n, i, mi);
  }

  /** A prime of the list divides the product only once. */
  lemma {:induction false} NotSquared(ps: seq<nat>, k: nat, i: nat, c: int)
    requires PrimeList(ps) && i < k <= |ps| && c * ps[i] == Modulus(ps, All(|ps|), k)
    ensures c % ps[i] != 0
  {
    var p := ps[i];
    var m := Modulus(ps, All(|ps|), k - 1);
    if i == k - 1 {
      ModulusCoprime(ps, All(|ps|), k - 1, p);
      assert c == m by { SameFactor(c, m, p); }
    } else {
      ModulusDivisible(ps, All(|ps|), k - 1, i);
      var c' := m / p;
      assert c' * p == m;
      NotSquared(ps, k - 1, i, c');
      assert c == c' * ps[k - 1] by {
        assert c * p == (c' * p) * ps[k - 1] == (c' * ps[k - 1]) * p;
        SameFactor(c, c' * ps[k - 1], p);
      }
      DistinctPrimes(p, ps[k - 1]);
      if c % p == 0 { Euclid(p, c', ps[k - 1]); }
    }
  }

  lemma SameFactor(a: int, b: int, p: int)
    requires p > 0 && a * p == b * p
    ensures a == b
  {
    if a < b { MulLt(a, b, p); } else if b < a { MulLt(b, a, p); }
  }

  /** crt_solve: sum the terms mi * r_i * (mi^-1 mod p_i), reducing modulo P. */
  method Solve(ps: seq<nat>, rs: seq<nat>, primorial: nat) returns (x: nat)
    requires |ps| == |rs| > 0 && PrimeList(ps) && primorial == Modulus(ps, All(|ps|), |ps|)
    ensures x < primorial && Solves(ps, rs, x)
  {
    x := 0;
    ModulusPositive(ps, All(|ps|), |ps|);
    forall j | 0 <= j < |ps| ensures Cong(0, 0, ps[j]) {}
    for i := 0 to |ps|
      invariant x < primorial
      invariant forall j :: 0 <= j < |ps| ==> Cong(x, if j < i then rs[j] else 0, ps[j])
    {
      ModulusDivisible(ps, All(|ps|), |ps|, i);
      var mi := primorial / ps[i];
      assert mi * ps[i] == primorial;
      Cofactor(ps, i, mi);
      var inv := Inverse(ps[i], mi % ps[i]);
      var term := mi * rs[i] * inv;
      ghost var was := x;
      TermSign(mi, rs[i], inv);
      x := (x + term) % primorial;
      forall j | 0 <= j < |ps| ensures Cong(x, if j < i + 1 then rs[j] else 0, ps[j]) {
        ModulusDivisible(ps, All(|ps|), |ps|, j);
        ModThroughProduct(was + term, primorial, ps[j]);
        if j == i {
          TermHits(ps[i], mi, rs[i], inv);
          CongAdd(was, 0, term, rs[i], ps[i]);
        } else {
          TermVanishes(ps[j], mi, rs[i], inv);
          CongAdd(was, if j < i then rs[j] else 0, term, 0, ps[j]);
        }
      }
    }
  }

  lemma TermSign(a: nat, b: nat, c: nat)
    ensures a * b * c >= 0
  {
    MulLe(0, a, b);
    MulLe(0, a * b, c);
  }

  lemma TermHits(p: nat, mi: nat, r: nat, inv: nat)
    requires p > 0 && Cong((mi % p) * inv, 1, p)
    ensures Cong(mi * r * inv, r, p)
  {
    CongMod(mi, p);
    CongMul(mi % p, mi, inv, inv, p);
    CongMul(mi * inv, 1, r, r, p);
    assert mi * r * inv == (mi * inv) * r;
  }

  lemma TermVanishes(p: nat, mi: nat, r: nat, inv: nat)
    requires p > 0 && mi % p == 0
    ensures Cong(mi * r * inv, 0, p)
  {
    ModSmall(0, p);
    CongMul(mi, 0, r * inv, r * inv, p);
    assert mi * r * inv == mi * (r * inv);
  }

  lemma ModThroughProduct(v: int, m: int, p: int)
    requires m > 0 && p > 0 && m % p == 0
    ensures Cong(v % m, v, p)
  {
    var c := m / p;
    assert m == c * p;
    assert v % m - v == -(v / m) * (c * p) == (-(v / m) * c) * p;
    CongByMultiple(v % m, v, -(v / m) * c, p);
  }

  /** With residues -(base + o_i + adj), the incremental and the direct solver agree. */
  lemma SolversAgree(ps: seq<nat>, os: seq<nat>, rs: seq<nat>, base: nat, adj: nat, x: nat, y: nat)
    requires |ps| == |os| == |rs| && PrimeList(ps)
    requires forall i :: 0 <= i < |ps| ==> os[i] != 0 && Cong(rs[i], -(base + os[i] + adj), ps[i])
    requires x < Modulus(ps, os, |ps|) && Aligned(ps, os, |ps|, base, adj, x)
    requires y < Modulus(ps, All(|ps|), |ps|) && Solves(ps, rs, y)
    ensures x == y
  {
    SameModulus(ps, os, |ps|);
    forall i | 0 <= i < |ps| && os[i] != 0 && ps[i] > 0 ensures (base + y + os[i] + adj) % ps[i] == 0 {
      CongAdd(y, -(base + os[i] + adj), base + os[i] + adj, base + os[i] + adj, ps[i]);
      ModSmall(0, ps[i]);
    }
    AlignedUnique(ps, os, base, adj, x, y);
  }

  lemma {:induction false} SameModulus(ps: seq<nat>, os: seq<nat>, k: nat)
    requires k <= |ps| == |os| && forall i :: 0 <= i < k ==> os[i] != 0
    ensures Modulus(ps, os, k) == Modulus(ps, All(|ps|), k)
  {
    if k > 0 { SameModulus(ps, os, k - 1); }
  }
}
