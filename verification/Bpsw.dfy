/** The Baillie-PSW test of new_src/primality_bpsw.c: the base-2 Miller-Rabin test and the
    strong Lucas-Selfridge test, against their defining conditions. */
module Bpsw {
  import opened NumberTheory
  import opened Bits
  import opened Fermat
  import opened WindowPow

  // ------------------------------------------------------------------ Miller-Rabin, base 2

  /** n - 1 == 2^r * d with d odd. */
  ghost predicate Split(n: nat, r: nat, d: nat) {
    n >= 1 && d % 2 == 1 && Scale(d, r) == n - 1
  }

  /** The strong probable-prime condition for base 2 with n - 1 == 2^r * d. */
  ghost predicate Strong(n: nat, r: nat, d: nat)
    requires n > 0
  {
    TwoTo(d, n) == 1 || exists i: nat :: i < r && TwoTo(Scale(d, i), n) == n - 1
  }

  ghost predicate StrongVerdict(n: nat) {
    n == 2 || (n > 2 && n % 2 == 1 && exists r: nat, d: nat :: Split(n, r, d) && Strong(n, r, d))
  }

  lemma {:induction false} SplitUnique(n: nat, r: nat, d: nat, r': nat, d': nat)
    requires Split(n, r, d) && Split(n, r', d')
    ensures r == r' && d == d'
  {
    if r > 0 { ScaleMore(d, r - 1); }
    if r' > 0 { ScaleMore(d', r' - 1); }
    ScaleMore(d, 0);
    ScaleMore(d', 0);
    if r > 0 && r' > 0 {
      SplitUnique(Scale(d, r - 1) + 1, r - 1, d, r' - 1, d');
    }
  }

  /** Squaring 2^e mod n gives 2^(2e) mod n. */
  lemma SquareTwoTo(e: nat, n: nat)
    requires n > 0
    ensures (TwoTo(e, n) * TwoTo(e, n)) % n == TwoTo(2 * e, n)
  {
    hide Pow;
    CongMod(Pow(2, e), n);
    CongMul(TwoTo(e, n), Pow(2, e), TwoTo(e, n), Pow(2, e), n);
    PowAdd(2, e, e);
  }

  method MillerRabinBase2(n: nat) returns (ok: bool)
    ensures ok <==> StrongVerdict(n)
  {
    if n < 2 { return false; }
    if n == 2 { return true; }
    if n % 2 == 0 { return false; }
    hide TwoTo, Pow, Scale;
    var d, r := n - 1, 0;
    ScaleMore(d, 0);
    while d % 2 == 0
      invariant d > 0 && Scale(d, r) == n - 1
      decreases d
    {
      ScaleHalf(d, r);
      d, r := d / 2, r + 1;
    }
    assert Split(n, r, d);
    forall r': nat, d': nat | Split(n, r', d') ensures r' == r && d' == d {
      SplitUnique(n, r, d, r', d');
    }
    assert StrongVerdict(n) <==> Strong(n, r, d);
    var x := TwoTo(d, n);
    ScaleMore(d, 0);
    if x == 1 { return true; }
    if x == n - 1 {
      assert r > 0;
      assert TwoTo(Scale(d, 0), n) == n - 1;
      return true;
    }
    for i := 0 to r - 1
      invariant x == TwoTo(Scale(d, i), n)
      invariant forall j: nat :: j <= i ==> TwoTo(Scale(d, j), n) != n - 1
    {
      ScaleMore(d, i);
      SquareTwoTo(Scale(d, i), n);
      x := (x * x) % n;
      if x == n - 1 { return true; }
    }
    return false;
  }

  lemma ScaleHalf(d: nat, r: nat)
    requires d % 2 == 0
    ensures Scale(d / 2, r + 1) == Scale(d, r)
  {
    assert (d / 2) * (2 * Pow(2, r)) == (2 * (d / 2)) * Pow(2, r);
  }

  lemma {:induction false} SplitOf(m: nat) returns (r: nat, d: nat)
    requires m > 0
    ensures Split(m + 1, r, d)
  {
    if m % 2 == 1 {
      r, d := 0, m;
      ScaleMore(m, 0);
    } else {
      r, d := SplitOf(m / 2);
      ScaleMore(d, r);
      r := r + 1;
    }
  }

  /** The chain of squares that ends in 1 passes through -1 unless it starts with 1. */
  lemma {:induction false} ChainHitsMinusOne(p: nat, d: nat, i: nat)
    requires Prime(p) && TwoTo(Scale(d, i), p) == 1
    ensures TwoTo(d, p) == 1 || exists j: nat :: j < i && TwoTo(Scale(d, j), p) == p - 1
  {
    ScaleMore(d, 0);
    if i > 0 {
      ScaleMore(d, i - 1);
      var e := Scale(d, i - 1);
      SquareTwoTo(e, p);
      SquareRootsOfOne(p, TwoTo(e, p));
      if TwoTo(e, p) == 1 { ChainHitsMinusOne(p, d, i - 1); }
    }
  }

  /** Every prime passes the base-2 Miller-Rabin test. */
  lemma PrimesAreStrong(p: nat)
    requires Prime(p)
    ensures StrongVerdict(p)
  {
    if p > 2 {
      assert p % 2 != 0;
      FermatLittle(p);
      var r, d := SplitOf(p - 1);
      ChainHitsMinusOne(p, d, r);
      assert Split(p, r, d) && Strong(p, r, d);
    }
  }

  /** Every odd prime passes the multi-limb Fermat and Euler tests. */
  lemma PrimesPassFermatAndEuler(p: nat)
    requires Prime(p) && p % 2 == 1
    ensures FermatVerdict(p) && EulerVerdict(p)
  {
    FermatLittle(p);
    if p >= 4 {
      var e := (p - 1) / 2;
      SquareTwoTo(e, p);
      SquareRootsOfOne(p, TwoTo(e, p));
    }
  }

  // --------------------------------------------------------------- Lucas sequences, P = 1

  /** U_k and V_k of the Lucas sequences with P = 1 and parameter Q, from their recurrences. */
  function U(k: nat, q: int): int {
    if k == 0 then 0 else if k == 1 then 1 else U(k - 1, q) - q * U(k - 2, q)
  }

  function V(k: nat, q: int): int {
    if k == 0 then 2 else if k == 1 then 1 else V(k - 1, q) - q * V(k - 2, q)
  }

  /** One step up expressed by U and V at the same index, for D = 1 - 4Q. */
  lemma {:induction false} LucasStep(k: nat, q: int)
    ensures 2 * U(k + 1, q) == U(k, q) + V(k, q)
    ensures 2 * V(k + 1, q) == (1 - 4 * q) * U(k, q) + V(k, q)
  {
    if k > 0 {
      LucasStep(k - 1, q);
      var u, v, u', v' := U(k - 1, q), V(k - 1, q), U(k, q), V(k, q);
      StepArith(u, v, u', v', q);
    }
  }

  lemma StepArith(u: int, v: int, u': int, v': int, q: int)
    requires 2 * u' == u + v && 2 * v' == (1 - 4 * q) * u + v
    ensures 2 * (u' - q * u) == u' + v'
    ensures 2 * (v' - q * v) == (1 - 4 * q) * u' + v'
  {
    assert (1 - 4 * q) * u == u - 4 * (q * u);
    assert q * (2 * u') == q * (u + v);
    assert (1 - 4 * q) * u' == u' - 4 * (q * u');
  }

  /** Addition formulas. */
  lemma {:induction false} LucasAdd(m: nat, n: nat, q: int)
    ensures 2 * U(m + n, q) == U(m, q) * V(n, q) + U(n, q) * V(m, q)
    ensures 2 * V(m + n, q) == V(m, q) * V(n, q) + (1 - 4 * q) * (U(m, q) * U(n, q))
  {
    if n > 0 {
      LucasAdd(m, n - 1, q);
      LucasStep(m + n - 1, q);
      LucasStep(n - 1, q);
      AddArith(U(m, q), V(m, q), U(n - 1, q), V(n - 1, q), U(n, q), V(n, q),
               U(m + n - 1, q), V(m + n - 1, q), U(m + n, q), V(m + n, q), 1 - 4 * q);
    }
  }

  lemma AddArith(um: int, vm: int, u: int, v: int, u': int, v': int, us: int, vs: int, us': int, vs': int, d: int)
    requires 2 * us == um * v + u * vm && 2 * vs == vm * v + d * (um * u)
    requires 2 * u' == u + v && 2 * v' == d * u + v
    requires 2 * us' == us + vs && 2 * vs' == d * us + vs
    ensures 2 * us' == um * v' + u' * vm && 2 * vs' == vm * v' + d * (um * u')
  {
    Scaled(um, u, v, d, v');
    Scaled(vm, u, v, 1, u');
    Scaled(vm, u, v, d, v');
    Scaled(um, u, v, 1, u');
    Scaled(d, um * u, um * v, 1, um * u');
    assert d * (2 * us) == d * (um * v) + d * (u * vm);
    assert 2 * (d * us) == d * (2 * us);
  }

  lemma Scaled(a: int, x: int, y: int, d: int, r: int)
    requires 2 * r == d * x + y
    ensures 2 * (a * r) == d * (a * x) + a * y
  {
    assert a * (2 * r) == a * (d * x + y);
    assert a * (d * x + y) == a * (d * x) + a * y;
  }

  /** V_k^2 - D U_k^2 == 4 Q^k. */
  lemma {:induction false} LucasNorm(k: nat, q: int)
    ensures V(k, q) * V(k, q) - (1 - 4 * q) * (U(k, q) * U(k, q)) == 4 * Pow(q, k)
  {
    if k > 0 {
      LucasNorm(k - 1, q);
      LucasStep(k - 1, q);
      NormArith(U(k - 1, q), V(k - 1, q), U(k, q), V(k, q), q, Pow(q, k - 1));
    }
  }

  lemma NormArith(u: int, v: int, u': int, v': int, q: int, p: int)
    requires 2 * u' == u + v && 2 * v' == (1 - 4 * q) * u + v
    requires v * v - (1 - 4 * q) * (u * u) == 4 * p
    ensures v' * v' - (1 - 4 * q) * (u' * u') == 4 * (q * p)
  {
    var d := 1 - 4 * q;
    var a := d * u;
    HalfSquare(v', a, v);
    HalfSquare(u', u, v);
    MulShuffle(d, u, d, u);
    assert a * v == d * (u * v);
    NormSum(d, q, p, u * u, u * v, v * v, u' * u', v' * v');
  }

  lemma HalfSquare(r: int, x: int, y: int)
    requires 2 * r == x + y
    ensures 4 * (r * r) == x * x + 2 * (x * y) + y * y
  {
    assert 4 * (r * r) == (x + y) * (x + y);
  }

  lemma NormSum(d: int, q: int, p: int, uu: int, uv: int, vv: int, uu': int, vv': int)
    requires d == 1 - 4 * q && vv - d * uu == 4 * p
    requires 4 * vv' == (d * d) * uu + 2 * (d * uv) + vv && 4 * uu' == uu + 2 * uv + vv
    ensures vv' - d * uu' == 4 * (q * p)
  {
    assert d * (4 * uu') == d * uu + 2 * (d * uv) + d * vv by {
      assert d * (uu + 2 * uv + vv) == d * uu + 2 * (d * uv) + d * vv;
    }
    assert (d * d) * uu == d * (d * uu);
    assert d * (vv - d * uu) == d * vv - d * (d * uu);
    assert (4 * q) * (4 * p) == 16 * (q * p);
  }

  /** Doubling formulas. */
  lemma LucasDouble(k: nat, q: int)
    ensures U(2 * k, q) == U(k, q) * V(k, q)
    ensures V(2 * k, q) == V(k, q) * V(k, q) - 2 * Pow(q, k)
  {
    LucasAdd(k, k, q);
    LucasNorm(k, q);
  }

  // ------------------------------------------------------- the strong Lucas-Selfridge test

  /** The i-th discriminant Selfridge's method tries: 5, -7, 9, -11, ... */
  function Discriminant(i: nat): int {
    if i % 2 == 0 then 5 + 2 * i else -(5 + 2 * i)
  }

  /** i is the first index at which the Jacobi symbol is not 1. */
  ghost predicate FirstUseful(jacobi: int -> int, i: nat) {
    jacobi(Discriminant(i)) != 1 && forall j: nat :: j < i ==> jacobi(Discriminant(j)) == 1
  }

  /** Every discriminant tried is 1 modulo 4, so Q = (1 - D) / 4 is exact. */
  lemma DiscriminantIsOneMod4(i: nat)
    ensures Discriminant(i) % 4 == 1
    ensures (1 - Discriminant(i)) / 4 * 4 == 1 - Discriminant(i)
  {
    var h := i / 2;
    if i % 2 == 0 {
      DivModUnique(Discriminant(i), 4, h + 1, 1);
      DivModUnique(1 - Discriminant(i), 4, -h - 1, 0);
    } else {
      DivModUnique(Discriminant(i), 4, -h - 2, 1);
      DivModUnique(1 - Discriminant(i), 4, h + 2, 0);
    }
  }

  /** n + 1 == 2^s * d with d odd. */
  ghost predicate SplitAbove(n: nat, s: nat, d: nat) {
    Split(n + 2, s, d)
  }

  /** The strong Lucas condition for n + 1 == 2^s * d: U_d vanishes modulo n, or V at one of
      d, 2d, ..., 2^(s-1) d does. */
  ghost predicate StrongLucas(n: nat, q: int, s: nat, d: nat)
    requires n > 0
  {
    U(d, q) % n == 0 || exists r: nat :: (r == 0 || r < s) && V(Scale(d, r), q) % n == 0
  }

  /** (u, v, w) are U_k, V_k and Q^k modulo n. */
  ghost predicate At(k: nat, q: int, n: nat, u: int, v: int, w: int) {
    && n > 0 && 0 <= u < n && 0 <= v < n
    && Cong(u, U(k, q), n) && Cong(v, V(k, q), n) && Cong(w, Pow(q, k), n)
  }

  /** x / 2 modulo an odd number. */
  method HalfMod(x: int, n: nat) returns (r: int)
    requires n % 2 == 1
    ensures 0 <= r < n && Cong(2 * r, x, n)
  {
    r := x % n;
    CongMod(x, n);
    ghost var s := r;
    if r % 2 == 1 { r := r + n; }
    hide Cong;
    CongByMultiple(r, s, if s % 2 == 1 then 1 else 0, n);
    SameRest(r, s, x, n);
    r := r / 2;
  }

  lemma SameRest(a: int, b: int, c: int, n: nat)
    requires n > 0 && Cong(a, b, n) && Cong(b, c, n)
    ensures Cong(a, c, n)
  {
  }

  /** One doubling: the values at 2k from those at k. */
  method DoubleIndex(ghost k: nat, ghost q: int, n: nat, u: int, v: int, w: int) returns (u2: int, v2: int, w2: int)
    requires At(k, q, n, u, v, w)
    ensures At(2 * k, q, n, u2, v2, w2)
  {
    hide U, V, Pow;
    u2 := (u * v) % n;
    v2 := (v * v - 2 * w) % n;
    w2 := (w * w) % n;
    LucasDouble(k, q);
    PowAdd(q, k, k);
    CongMod(u * v, n);
    CongMul(u, U(k, q), v, V(k, q), n);
    CongMod(v * v - 2 * w, n);
    CongMul(v, V(k, q), v, V(k, q), n);
    CongMul(2, 2, w, Pow(q, k), n);
    CongAdd(v * v, V(k, q) * V(k, q), 2 * w, 2 * Pow(q, k), n);
    CongMod(w * w, n);
    CongMul(w, Pow(q, k), w, Pow(q, k), n);
  }

  /** One step up: the values at k + 1 from those at k, for D = 1 - 4Q. */
  method NextIndex(ghost k: nat, q: int, d: int, n: nat, u: int, v: int, w: int) returns (u1: int, v1: int, w1: int)
    requires At(k, q, n, u, v, w) && n % 2 == 1 && d == 1 - 4 * q
    ensures At(k + 1, q, n, u1, v1, w1)
  {
    hide U, V;
    u1 := HalfMod(u + v, n);
    v1 := HalfMod(d * u + v, n);
    w1 := (w * q) % n;
    LucasStep(k, q);
    CongAdd(u, U(k, q), v, V(k, q), n);
    CancelTwo(u1, U(k + 1, q), n);
    CongMul(d, d, u, U(k, q), n);
    CongAdd(d * u, d * U(k, q), v, V(k, q), n);
    CancelTwo(v1, V(k + 1, q), n);
    CongMod(w * q, n);
    CongMul(w, Pow(q, k), q, q, n);
    assert Pow(q, k + 1) == q * Pow(q, k);
  }

  /** The bit loop: U, V and Q^k modulo n at k = d, reading d from its top bit down. */
  method LucasAt(n: nat, disc: int, q: int, d: nat) returns (u: int, v: int, w: int)
    requires n >= 3 && n % 2 == 1 && disc == 1 - 4 * q && d > 0
    ensures At(d, q, n, u, v, w)
  {
    hide *;
    u, v, w := 1, 1, q % n;
    var bit := BitLength(d) - 1;
    LucasStart(n, q);
    BitLengthTop(d);
    while bit > 0
      invariant 0 <= bit < BitLength(d)
      invariant At(Shr(d, bit), q, n, u, v, w)
    {
      bit := bit - 1;
      ShrBit(d, bit);
      u, v, w := DoubleIndex(Shr(d, bit + 1), q, n, u, v, w);
      if Shr(d, bit) % 2 == 1 {
        u, v, w := NextIndex(2 * Shr(d, bit + 1), q, disc, n, u, v, w);
      }
    }
    ShrAll(d);
  }

  lemma {:induction false} BitLengthTop(d: nat)
    requires d > 0
    ensures Shr(d, BitLength(d) - 1) == 1
  {
    hide Pow, Shr;
    if d == 1 {
      ShrAll(1);
    } else {
      BitLengthTop(d / 2);
      ShrHalf(d, BitLength(d / 2) - 1);
    }
  }

  lemma ShrHalf(d: nat, k: nat)
    ensures Shr(d, k + 1) == Shr(d / 2, k)
  {
    hide Pow;
    SmallPows();
    ShiftShift(d, 1, k);
  }

  lemma LucasStart(n: nat, q: int)
    requires n >= 3
    ensures At(1, q, n, 1, 1, q % n)
  {
    CongMod(q, n);
    assert Pow(q, 1) == q * Pow(q, 0);
  }

  /** The verdict lucas_lehmer_test gives for odd n > 2 that is no square, once Selfridge's
      search stops at index i. */
  ghost predicate LucasVerdictAt(n: nat, jacobi: int -> int, i: nat)
    requires n > 0
  {
    var disc := Discriminant(i);
    if jacobi(disc) == 0 then n == disc || n == -disc
    else exists s: nat, d: nat :: SplitAbove(n, s, d) && StrongLucas(n, (1 - disc) / 4, s, d)
  }

  function Magnitude(d: int): nat { if d < 0 then -d else d }

  predicate SquaresTo(r: nat, n: nat) { r * r == n }

  predicate IsSquare(n: nat) {
    exists r :: 0 <= r <= n && SquaresTo(r, n)
  }

  lemma FirstUsefulUnique(jacobi: int -> int, i: nat, j: nat)
    requires FirstUseful(jacobi, i) && FirstUseful(jacobi, j)
    ensures i == j
  {
  }

  /** What the search relies on: the Jacobi symbol over n vanishes on multiples of n. */
  ghost predicate VanishesOnMultiples(n: nat, jacobi: int -> int) {
    n >= 2 ==> forall d :: d % n == 0 ==> jacobi(d) == 0
  }

  /** Where the search ends at the latest: at a discriminant that n divides. */
  ghost function LastIndex(n: nat): nat { if n < 5 then 2 else (n - 5) / 2 }

  lemma LastIsUseful(n: nat, jacobi: int -> int)
    requires n >= 3 && n % 2 == 1 && VanishesOnMultiples(n, jacobi)
    ensures jacobi(Discriminant(LastIndex(n))) == 0
  {
    var d := Discriminant(LastIndex(n));
    LastIsMultiple(n);
    hide LastIndex, Discriminant;
  }

  lemma LastIsMultiple(n: nat)
    requires n >= 3 && n % 2 == 1
    ensures Discriminant(LastIndex(n)) % n == 0
  {
    if n > 3 {
      var d := Discriminant(LastIndex(n));
      assert d == n || d + n == 0;
      DivModUnique(d, n, if d > 0 then 1 else -1, 0);
    }
  }

  lemma FirstUsefulExists(n: nat, jacobi: int -> int) returns (i: nat)
    requires n >= 3 && n % 2 == 1 && VanishesOnMultiples(n, jacobi)
    ensures FirstUseful(jacobi, i)
  {
    LastIsUseful(n, jacobi);
    i := 0;
    while jacobi(Discriminant(i)) == 1
      invariant i <= LastIndex(n) && forall j: nat :: j < i ==> jacobi(Discriminant(j)) == 1
      decreases LastIndex(n) - i
    {
      i := i + 1;
    }
  }

  /** Selfridge's search for a discriminant whose Jacobi symbol is not 1.  It always ends. */
  method Selfridge(n: nat, jacobi: int -> int) returns (disc: int)
    requires n >= 3 && n % 2 == 1 && VanishesOnMultiples(n, jacobi)
    ensures exists i: nat :: FirstUseful(jacobi, i) && disc == Discriminant(i)
  {
    disc := 5;
    ghost var i: nat := 0;
    LastIsUseful(n, jacobi);
    FirstDiscriminant();
    hide Discriminant, LastIndex, VanishesOnMultiples;
    while jacobi(disc) == 1
      invariant i <= LastIndex(n) && disc == Discriminant(i)
      invariant forall j: nat :: j < i ==> jacobi(Discriminant(j)) == 1
      decreases LastIndex(n) - i
    {
      NextDiscriminant(i);
      disc := if disc > 0 then -(disc + 2) else -disc + 2;
      i := i + 1;
    }
  }

  lemma FirstDiscriminant()
    ensures Discriminant(0) == 5
  {
  }

  lemma NextDiscriminant(i: nat)
    ensures Discriminant(i + 1) == if Discriminant(i) > 0 then -(Discriminant(i) + 2) else -Discriminant(i) + 2
  {
  }

  /** The strong Lucas-Selfridge test.  `jacobi(D)` is the Jacobi symbol of D over n. */
  method LucasTest(n: nat, jacobi: int -> int) returns (ok: bool)
    requires VanishesOnMultiples(n, jacobi)
    ensures n < 2 ==> !ok
    ensures n == 2 ==> ok
    ensures n > 2 && (n % 2 == 0 || IsSquare(n)) ==> !ok
    ensures n > 2 && n % 2 == 1 && !IsSquare(n) ==>
              forall i: nat :: FirstUseful(jacobi, i) ==> (ok <==> LucasVerdictAt(n, jacobi, i))
    ensures n > 2 && n % 2 == 1 && !IsSquare(n) ==> forall i: nat ::
              FirstUseful(jacobi, i) && jacobi(Discriminant(i)) == 0 ==> (ok <==> Magnitude(Discriminant(i)) == n)
  {
    if n < 2 { return false; }
    if n == 2 { return true; }
    if n % 2 == 0 { return false; }
    if IsSquare(n) { return false; }
    hide IsSquare, FirstUseful, Discriminant, Split, StrongLucas;
    var disc := Selfridge(n, jacobi);
    ghost var i: nat :| FirstUseful(jacobi, i) && disc == Discriminant(i);
    forall i': nat | FirstUseful(jacobi, i') ensures i' == i {
      FirstUsefulUnique(jacobi, i, i');
    }
    if jacobi(disc) == 0 {
      ok := Magnitude(disc) == n;
    } else {
      DiscriminantIsOneMod4(i);
      ok := StrongLucasTest(n, disc);
    }
  }

  method StrongLucasTest(n: nat, disc: int) returns (ok: bool)
    requires n >= 3 && n % 2 == 1 && (1 - disc) / 4 * 4 == 1 - disc
    ensures ok <==> exists s: nat, d: nat :: SplitAbove(n, s, d) && StrongLucas(n, (1 - disc) / 4, s, d)
  {
    hide U, V, Pow, Scale, StrongLucas;
    var d, s := n + 1, 0;
    ScaleMore(d, 0);
    while d % 2 == 0
      invariant d > 0 && Scale(d, s) == n + 1
      decreases d
    {
      ScaleHalf(d, s);
      d, s := d / 2, s + 1;
    }
    ok := LucasDecide(n, disc, (1 - disc) / 4, s, d);
    assert SplitAbove(n, s, d);
    forall s': nat, d': nat | SplitAbove(n, s', d') ensures s' == s && d' == d {
      SplitUnique(n + 2, s, d, s', d');
    }
  }

  /** The verdict part: U_d, then V along the doublings. */
  method LucasDecide(n: nat, disc: int, q: int, s: nat, d: nat) returns (ok: bool)
    requires n >= 3 && n % 2 == 1 && disc == 1 - 4 * q && d > 0
    ensures ok <==> StrongLucas(n, q, s, d)
  {
    hide U, V, Pow, Scale;
    var u, v, w := LucasAt(n, disc, q, d);
    ScaleMore(d, 0);
    ZeroIff(u, U(d, q), n);
    ZeroIff(v, V(d, q), n);
    ok := u == 0 || v == 0;
    if ok {
      if v == 0 { assert V(Scale(d, 0), q) % n == 0; }
      return;
    }
    var round := 1;
    while !ok && round < s
      invariant 1 <= round && (round <= s || round == 1)
      invariant At(Scale(d, round - 1), q, n, u, v, w)
      invariant !ok ==> forall r: nat :: r < round ==> V(Scale(d, r), q) % n != 0
      invariant ok ==> exists r: nat :: r < s && V(Scale(d, r), q) % n == 0
      decreases s - round, !ok
    {
      ScaleMore(d, round - 1);
      u, v, w := DoubleIndex(Scale(d, round - 1), q, n, u, v, w);
      ZeroIff(v, V(Scale(d, round), q), n);
      ok := v == 0;
      round := round + 1;
    }
  }

  lemma ZeroIff(x: int, y: int, n: nat)
    requires n > 0 && 0 <= x < n && Cong(x, y, n)
    ensures x == 0 <==> y % n == 0
  {
    ModSmall(x, n);
  }

  /** baillie_psw_test: both tests must pass. */
  method BailliePsw(n: nat, jacobi: int -> int) returns (ok: bool)
    requires VanishesOnMultiples(n, jacobi)
    ensures ok ==> StrongVerdict(n) && (n > 2 ==> n % 2 == 1 && !IsSquare(n))
    ensures n == 2 ==> ok
    ensures n > 2 && n % 2 == 1 && !IsSquare(n) ==>
              forall i: nat :: FirstUseful(jacobi, i) ==> (ok <==> StrongVerdict(n) && LucasVerdictAt(n, jacobi, i))
    ensures n > 2 && n % 2 == 1 && !IsSquare(n) ==> forall i: nat ::
              FirstUseful(jacobi, i) && jacobi(Discriminant(i)) == 0 ==>
                (ok <==> StrongVerdict(n) && Magnitude(Discriminant(i)) == n)
  {
    assert StrongVerdict(2);
    hide StrongVerdict, IsSquare, FirstUseful, LucasVerdictAt, Discriminant;
    ok := MillerRabinBase2(n);
    if ok {
      ok := LucasTest(n, jacobi);
    }
  }
}
