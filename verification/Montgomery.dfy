/** Fixed-limb Montgomery arithmetic of new_src/primality_limbs.c: the negated inverse of n
    modulo 2^64, R mod n, and CIOS multiplication, each against plain modular arithmetic. */
module Montgomery {
  import opened NumberTheory
  import opened Limbs

  // ---------------------------------------------------------------- inverse modulo 2^64

  /** One Newton step x * (2 - n * x) in 64-bit arithmetic. */
  function Newton(n: Limb, x: Limb): Limb {
    (x * ((2 - n * x) % B)) % B
  }

  /** -(n^-1) mod 2^64 by six Newton steps from 1. */
  function Ninv(n: Limb): Limb {
    Neg(Newton(n, Newton(n, Newton(n, Newton(n, Newton(n, Newton(n, 1)))))))
  }

  /** -x in 64-bit arithmetic. */
  function Neg(x: Limb): Limb {
    if x == 0 then 0 else B - x
  }

  /** A Newton step doubles the number of correct low bits: m correct becomes m * m. */
  lemma NewtonDoubles(n: Limb, x: Limb, m: int)
    requires m >= 1 && Cong(n * x, 1, m) && B % (m * m) == 0
    ensures Cong(n * Newton(n, x), 1, m * m)
  {
    var k := CongMultiple(n * x, 1, m);
    var y := 2 - n * x;
    var b := B / (m * m);
    assert B == b * (m * m);
    var z := y % B;
    assert y - z == (y / B) * B;
    assert x * z == x * y - (x * (y / B)) * B by {
      assert x * (y - z) == x * ((y / B) * B) == (x * (y / B)) * B;
    }
    var x' := Newton(n, x);
    var q := (x * z) / B;
    assert x' == x * z - q * B;
    var t := x * (y / B) + q;
    assert x' == x * y - t * B by { assert t * B == (x * (y / B)) * B + q * B; }
    NewtonExact(n, x, m, k, t, b);
    CongByMultiple(n * x', 1, -(k * k) - n * t * b, m * m);
  }

  /** n * x == 1 + k * m makes n * x * (2 - n * x) == 1 - k * k * m * m. */
  lemma NewtonExact(n: int, x: int, m: int, k: int, t: int, b: int)
    requires n * x - 1 == k * m
    ensures n * (x * (2 - n * x) - t * (b * (m * m))) - 1 == (-(k * k) - n * t * b) * (m * m)
  {
    var u := k * m;
    assert n * x == 1 + u;
    assert n * (x * (2 - n * x)) == (n * x) * (2 - n * x) == (1 + u) * (1 - u) == 1 - u * u;
    assert u * u == (k * k) * (m * m) by { MulShuffle(k, m, k, m); }
    assert n * (t * (b * (m * m))) == (n * t * b) * (m * m);
    var w := x * (2 - n * x);
    var v := t * (b * (m * m));
    assert n * (w - v) == n * w - n * v;
    assert (-(k * k) - n * t * b) * (m * m) == -((k * k) * (m * m)) - (n * t * b) * (m * m);
  }

  /** For odd n the result is the negated inverse: n * Ninv(n) == -1 mod 2^64. */
  lemma NinvCorrect(n: Limb)
    requires n % 2 == 1
    ensures (n * Ninv(n) + 1) % B == 0
  {
    var x1 := Newton(n, 1);
    var x2 := Newton(n, x1);
    var x3 := Newton(n, x2);
    var x4 := Newton(n, x3);
    var x5 := Newton(n, x4);
    var x6 := Newton(n, x5);
    hide Newton;
    NewtonDoubles(n, 1, 2);
    NewtonDoubles(n, x1, 4);
    NewtonDoubles(n, x2, 16);
    NewtonDoubles(n, x3, 256);
    NewtonDoubles(n, x4, 0x1_0000);
    NewtonDoubles(n, x5, 0x1_0000_0000);
    NegatedInverse(n, x6);
  }

  lemma NegatedInverse(n: Limb, x: Limb)
    requires Cong(n * x, 1, B)
    ensures (n * Neg(x) + 1) % B == 0
  {
    var k := CongMultiple(n * x, 1, B);
    assert n * 0 == 0;
    assert x != 0;
    assert n * Neg(x) == n * B - n * x;
    ModOfMultiple(n - k, B);
    assert (n - k) * B == n * B - k * B;
  }

  // ------------------------------------------------------------------------- R mod n

  /** 2^64 is B, and powers of B are powers of 2. */
  lemma {:induction false} BPowIsPow2(k: nat)
    ensures BPow(k) == Pow(2, 64 * k)
  {
    if k > 0 {
      BPowIsPow2(k - 1);
      PowAdd(2, 64, 64 * (k - 1));
      Pow64();
    }
  }

  lemma Pow64()
    ensures Pow(2, 64) == B
  {
    assert Pow(2, 4) == 16 by { assert Pow(2, 2) == 4; PowAdd(2, 2, 2); }
    PowAdd(2, 4, 4);
    PowAdd(2, 8, 8);
    PowAdd(2, 16, 16);
    PowAdd(2, 32, 32);
  }

  /** 63 - clz(x): the index of the highest set bit. */
  function TopBit(x: Limb): (b: nat)
    requires x > 0
    ensures Pow(2, b) <= x < 2 * Pow(2, b)
    decreases x
  {
    if x == 1 then 0 else TopBit(x / 2) + 1
  }

  lemma TopBitBound(x: Limb)
    requires x > 0
    ensures TopBit(x) < 64
  {
    if TopBit(x) >= 64 {
      PowMonotone(2, 64, TopBit(x));
      Pow64();
    }
  }

  lemma OddLowLimb(s: seq<Limb>)
    requires s != []
    ensures Val(s) % 2 == s[0] % 2
  {
    hide Val;
    ValLow(s);
    assert B * Val(s[1..]) == (B / 2 * Val(s[1..])) * 2;
    ModAddMul(s[0], B / 2 * Val(s[1..]), 2);
  }

  /** 2^topbit of an odd n above 1 is below n. */
  lemma SeedBelow(n: seq<Limb>)
    requires n != [] && n[|n| - 1] > 0 && n[0] % 2 == 1 && Val(n) > 1
    ensures Pow(2, TopBit(n[|n| - 1]) + 64 * (|n| - 1)) < Val(n)
  {
    hide Val, BPow, Pow;
    var k := |n| - 1;
    var t := TopBit(n[k]);
    assert Val(n) == Val(n[..k]) + n[k] * BPow(k) by { ValTop(n); }
    PowAdd(2, t, 64 * k);
    BPowIsPow2(k);
    MulLe(Pow(2, t), n[k], BPow(k));
    OddLowLimb(n);
    EvenOrOne(t + 64 * k);
  }

  lemma ValTop(n: seq<Limb>)
    requires n != []
    ensures Val(n) == Val(n[..|n| - 1]) + n[|n| - 1] * BPow(|n| - 1)
  {
  }

  lemma EvenOrOne(e: nat)
    ensures Pow(2, e) == 1 || Pow(2, e) % 2 == 0
  {
  }

  /** r = 2^(64 * nl) mod n by repeated doubling of the top bit. */
  method RmodN(r: array<Limb>, n: array<Limb>)
    requires r != n && r.Length == n.Length > 0
    requires n[n.Length - 1] > 0 && n[0] % 2 == 1 && Val(n[..]) > 1
    modifies r
    ensures Val(r[..]) == BPow(n.Length) % Val(n[..]) && Val(r[..]) < Val(n[..])
  {
    hide Val, BPow, Pow, TopBit;
    var nl := n.Length;
    var tb := TopBit(n[nl - 1]);
    TopBitBound(n[nl - 1]);
    var topbit := (nl - 1) * 64 + tb;
    for i := 0 to nl
      invariant forall k :: 0 <= k < i ==> r[k] == 0
    {
      r[i] := 0;
    }
    ShiftedOne(tb);
    r[nl - 1] := Pow(2, tb);
    assert r[..] == r[..nl - 1] + [r[nl - 1]];
    ValZero(r[..nl - 1]);
    ValAppend(r[..nl - 1], r[nl - 1]);
    PowAdd(2, tb, 64 * (nl - 1));
    BPowIsPow2(nl - 1);
    assert Val(r[..]) == Pow(2, topbit);
    SeedBelow(n[..]);
    ModSmall(Pow(2, topbit), Val(n[..]));
    for i := 0 to 64 * nl - topbit
      invariant Val(r[..]) < Val(n[..]) && Val(r[..]) == Pow(2, topbit + i) % Val(n[..])
    {
      ghost var was := Val(r[..]);
      ModDbl(r, n);
      CongMod(Pow(2, topbit + i), Val(n[..]));
      CongMul(2, 2, was, Pow(2, topbit + i), Val(n[..]));
      PowDouble(topbit + i);
    }
    BPowIsPow2(nl);
  }

  lemma PowDouble(e: nat)
    ensures Pow(2, e + 1) == 2 * Pow(2, e)
  {
  }

  lemma ShiftedOne(t: nat)
    requires t < 64
    ensures 0 < Pow(2, t) < B
  {
    PowStrict(2, t, 64);
    PowPositive(2, t);
    Pow64();
  }

  // -------------------------------------------------------------- CIOS multiplication

  lemma TopLimbSmall(s: seq<Limb>)
    requires s != [] && Val(s) < 2 * BPow(|s| - 1)
    ensures s[|s| - 1] <= 1
  {
    if s[|s| - 1] >= 2 { MulLe(2, s[|s| - 1], BPow(|s| - 1)); }
  }

  /** m = t0 * ninv clears the lowest limb. */
  lemma ClearsLow(t0: Limb, n0: Limb, ninv: Limb, v: int, m: Limb, nRest: int, vRest: int)
    requires (n0 * ninv + 1) % B == 0 && m == (t0 * ninv) % B
    requires v == t0 + B * vRest
    ensures (v + m * (n0 + B * nRest)) % B == 0
  {
    var k := CongMultiple(n0 * ninv + 1, 0, B);
    var q := (t0 * ninv) / B;
    assert m == t0 * ninv - q * B;
    assert m * n0 == t0 * (n0 * ninv) - (q * n0) * B by {
      assert (t0 * ninv - q * B) * n0 == (t0 * ninv) * n0 - (q * B) * n0;
      assert (t0 * ninv) * n0 == t0 * (n0 * ninv) && (q * B) * n0 == (q * n0) * B;
    }
    assert t0 * (n0 * ninv) == t0 * (k * B - 1) == (t0 * k) * B - t0;
    assert m * (n0 + B * nRest) == m * n0 + (m * nRest) * B;
    var z := vRest + t0 * k - q * n0 + m * nRest;
    assert z * B == vRest * B + (t0 * k) * B - (q * n0) * B + (m * nRest) * B;
    ModOfMultiple(z, B);
  }

  /** Second half of a round: add the multiple of n that clears the lowest limb, then step
      the window t[i..] up by one limb, which divides it by B. */
  method Reduce(t: array<Limb>, i: nat, n: array<Limb>, ninv: Limb) returns (ghost m: Limb)
    requires t != n && n.Length > 0 && i + n.Length + 3 <= t.Length
    requires (n[0] * ninv + 1) % B == 0
    requires t[i + n.Length + 1] <= 1
    modifies t
    ensures t[i + n.Length + 2] == 0
    ensures B * Val(t[i + 1..i + n.Length + 2]) == old(Val(t[i..i + n.Length + 2])) + m * Val(n[..])
    ensures forall k :: 0 <= k < t.Length && !(i <= k <= i + n.Length + 2) ==> t[k] == old(t[k])
  {
    hide Val, BPow;
    var nl := n.Length;
    ghost var v := Val(t[i..i + nl + 2]);
    var f: Limb := (t[i] * ninv) % B;
    m := f;
    ValLow(t[i..i + nl + 2]);
    ValLow(n[..]);
    ClearsLow(t[i], n[0], ninv, v, m, Val(n[..][1..]), Val(t[i..i + nl + 2][1..]));
    AddMulRow(t, i, f, n);
    ValLow(t[i..i + nl + 2]);
    ghost var rest := t[i + 1..i + nl + 2];
    assert t[i..i + nl + 2][1..] == rest;
    LowVanishes(t[i], Val(rest), v + m * Val(n[..]));
    t[i + nl + 2] := 0;
    assert t[i + 1..i + nl + 2] == rest;
  }

  lemma LowVanishes(x: Limb, rest: int, v: int)
    requires v % B == 0 && v == x + B * rest
    ensures v == B * rest
  {
  }

  /** One round of the outer loop on the window t[i..]: add a_i * b, reduce, step up. */
  method CiosRound(t: array<Limb>, i: nat, ai: Limb, b: array<Limb>, n: array<Limb>, ninv: Limb)
    returns (ghost m: Limb)
    requires t != b && t != n && b.Length == n.Length > 0 && i + n.Length + 3 <= t.Length
    requires (n[0] * ninv + 1) % B == 0 && Val(b[..]) < Val(n[..])
    requires t[i + n.Length + 1] == 0
    requires Val(t[i..i + n.Length + 1]) < Val(b[..]) + Val(n[..])
    modifies t
    ensures t[i + n.Length + 2] == 0
    ensures B * Val(t[i + 1..i + n.Length + 2])
            == old(Val(t[i..i + n.Length + 1])) + ai * Val(b[..]) + m * Val(n[..])
    ensures Val(t[i + 1..i + n.Length + 2]) < Val(b[..]) + Val(n[..])
    ensures forall k :: 0 <= k < t.Length && !(i <= k <= i + n.Length + 2) ==> t[k] == old(t[k])
  {
    hide Val, BPow;
    var nl := n.Length;
    ghost var t0, bv, nv := Val(t[i..i + nl + 1]), Val(b[..]), Val(n[..]);
    assert t[i..i + nl + 2] == t[i..i + nl + 1] + [t[i + nl + 1]];
    ValAppend(t[i..i + nl + 1], 0);
    AddMulRow(t, i, ai, b);
    RowBound(t0, ai, bv, nv, 0);
    ValBound(n[..]);
    TwoLimbBound(t[i..i + nl + 2], nv);
    m := Reduce(t, i, n, ninv);
    RowBound(t0, ai, bv, nv, m);
  }

  lemma RowBound(t: int, a: Limb, b: int, n: int, m: Limb)
    requires 0 <= b < n && t < b + n
    ensures t + a * b + m * n < B * (b + n)
    ensures t + a * b < B * n + n
  {
    MulLe(a, B - 1, b);
    MulLe(m, B - 1, n);
    MulLe(b, n - 1, B);
  }

  lemma TwoLimbBound(s: seq<Limb>, n: int)
    requires |s| >= 2 && 0 <= n < BPow(|s| - 2) && Val(s) < B * n + n
    ensures s[|s| - 1] <= 1
  {
    TopLimbSmall(s);
  }

  /** r = a * b / R mod n for R = 2^(64 * nl); r may be a or b. */
  method MontMul(r: array<Limb>, a: array<Limb>, b: array<Limb>, n: array<Limb>, ninv: Limb)
    requires r.Length == a.Length == b.Length == n.Length > 0 && r != n
    requires (n[0] * ninv + 1) % B == 0
    requires Val(a[..]) < Val(n[..]) && Val(b[..]) < Val(n[..])
    modifies r
    ensures Val(r[..]) < Val(n[..])
    ensures Cong(Val(r[..]) * BPow(n.Length), old(Val(a[..])) * old(Val(b[..])), Val(n[..]))
  {
    hide Val, BPow;
    var nl := n.Length;
    var t := new Limb[2 * nl + 4](_ => 0);
    ghost var av, bv, nv := Val(a[..]), Val(b[..]), Val(n[..]);
    ghost var mult := 0;
    ValZero(t[0..nl + 1]);
    RowStart(a[..0], a[..0], a[..0]);
    for i := 0 to nl
      invariant t[i + nl + 1] == 0 && forall k :: i + nl + 1 < k < t.Length ==> t[k] == 0
      invariant Val(t[i..i + nl + 1]) < bv + nv
      invariant Val(t[i..i + nl + 1]) * BPow(i) == Val(a[..i]) * bv + mult * nv
      invariant Val(a[..]) == av && Val(b[..]) == bv && Val(n[..]) == nv
    {
      ghost var t0 := Val(t[i..i + nl + 1]);
      ghost var m := CiosRound(t, i, a[i], b, n, ninv);
      RowGrow(a[..i], a[..i], a[..i], a[i], a[i], a[i]);
      assert a[..i + 1] == a[..i] + [a[i]];
      CiosStep(t0, Val(t[i + 1..i + nl + 2]), a[i], bv, m, nv, BPow(i), Val(a[..i]), mult);
      mult := mult + m * BPow(i);
    }
    assert a[..nl] == a[..];
    MontFinish(r, t, n, bv);
    CongScaled(Val(r[..]), Val(t[nl..nl + nl + 1]), BPow(nl), av * bv, mult, nv);
  }

  lemma CiosStep(t0: int, t1: int, a: int, b: int, m: int, n: int, p: int, av: int, mult: int)
    requires B * t1 == t0 + a * b + m * n && t0 * p == av * b + mult * n
    ensures t1 * (B * p) == (av + a * p) * b + (mult + m * p) * n
  {
    assert t1 * (B * p) == (B * t1) * p;
    assert (t0 + a * b + m * n) * p == t0 * p + (a * b) * p + (m * n) * p;
    assert (a * b) * p == (a * p) * b && (m * n) * p == (m * p) * n;
    assert (av + a * p) * b == av * b + (a * p) * b;
    assert (mult + m * p) * n == mult * n + (m * p) * n;
  }

  /** The final conditional subtraction. */
  method MontFinish(r: array<Limb>, t: array<Limb>, n: array<Limb>, ghost b: int)
    requires r.Length == n.Length > 0 && r != n && t != r && t != n && t.Length == 2 * n.Length + 4
    requires 0 <= b < Val(n[..]) && Val(t[n.Length..n.Length + n.Length + 1]) < b + Val(n[..])
    modifies r
    ensures Val(r[..]) < Val(n[..])
    ensures || Val(r[..]) == Val(t[n.Length..n.Length + n.Length + 1])
            || Val(r[..]) == Val(t[n.Length..n.Length + n.Length + 1]) - Val(n[..])
    ensures n[..] == old(n[..])
  {
    hide Val, BPow;
    var nl := n.Length;
    ghost var low, top := t[nl..nl + nl], t[nl + nl];
    assert t[nl..nl + nl + 1] == low + [top];
    ValAppend(low, top);
    ValBound(low);
    ValBound(n[..]);
    ghost var v := Val(low + [top]);
    TopLimbSmall(low + [top]);
    var g := GteN(t, nl, n);
    if t[nl + nl] != 0 || g {
      ghost var borrow := SubN(r, t, nl, n);
      ValBound(r[..]);
      BorrowIsCarry(Val(r[..]), v - Val(n[..]), borrow - top, BPow(nl));
    } else {
      for i := 0 to nl
        invariant forall k :: 0 <= k < i ==> r[k] == t[nl + k]
      {
        r[i] := t[nl + i];
      }
      assert r[..] == low;
    }
  }

  lemma CongScaled(r: int, t: int, p: int, ab: int, mult: int, n: int)
    requires n > 0 && t * p == ab + mult * n && (r == t || r == t - n)
    ensures Cong(r * p, ab, n)
  {
    if r == t {
      CongByMultiple(r * p, ab, mult, n);
    } else {
      assert (t - n) * p == t * p - p * n;
      assert (mult - p) * n == mult * n - p * n;
      CongByMultiple(r * p, ab, mult - p, n);
    }
  }
}
