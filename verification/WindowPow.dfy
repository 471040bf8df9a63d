/** Windowed left-to-right exponentiation of new_src/primality_limbs.c and the multi-limb
    base-2 Fermat and Euler tests built on it, refined to plain modular exponentiation. */
module WindowPow {
  import opened NumberTheory
  import opened Bits
  import opened Limbs
  import opened Montgomery

  const MAX_LIMBS: nat := 20
  const FERMAT_WIN: nat := 4
  const FERMAT_WIN_MIN: nat := 3
  const FERMAT_WIN_MAX: nat := 5

  // ------------------------------------------------------------------- bit extraction

  /** The bits of v from position bit upwards. */
  function Shr(v: nat, bit: nat): nat {
    PowPositive(2, bit);
    v / Pow(2, bit)
  }

  /** Reading from bit 64 * k + off upwards looks at limb k shifted, followed by the rest. */
  lemma ShrLimb(s: seq<Limb>, k: nat, off: nat)
    requires k < |s| && off < 64
    ensures Shr(Val(s), 64 * k + off) == Shr(s[k] + B * Val(s[k + 1..]), off)
  {
    hide Val, BPow, Pow;
    var rest := s[k] + B * Val(s[k + 1..]);
    assert Val(s) == Val(s[..k]) + BPow(k) * rest by {
      assert s == s[..k] + s[k..];
      ValConcat(s[..k], s[k..]);
      ValLow(s[k..]);
      assert s[k..][1..] == s[k + 1..];
    }
    ValBound(s[..k]);
    BPowIsPow2(k);
    ShiftShift(Val(s), 64 * k, off);
    DivModUnique(Val(s), BPow(k), rest, Val(s[..k]));
  }

  /** A field of w bits that ends inside limb k is read from limb k alone. */
  lemma ShrInside(x: Limb, rest: nat, off: nat, w: nat)
    requires off + w <= 64
    ensures Pow(2, w) > 0
    ensures Shr(x + B * rest, off) % Pow(2, w) == Shr(x, off) % Pow(2, w)
  {
    hide Pow;
    PowPositive(2, off);
    PowPositive(2, w);
    PowAdd(2, off, w);
    PowAdd(2, off + w, 64 - off - w);
    Pow64();
    FieldArith(x, rest, Pow(2, off), Pow(2, w), Pow(2, 64 - off - w), B);
  }

  lemma FieldArith(x: nat, rest: nat, p: int, q: int, h: int, b: int)
    requires p > 0 && q > 0 && b == (p * q) * h
    ensures ((x + b * rest) / p) % q == (x / p) % q
  {
    assert ((p * q) * h) * rest == (q * (h * rest)) * p;
    ModAddMul(x, q * (h * rest), p);
    assert q * (h * rest) == (h * rest) * q;
    ModAddMul(x / p, h * rest, q);
  }

  lemma ShrOfSmall(v: nat, bit: nat, e: nat)
    requires v < Pow(2, e) && e <= bit
    ensures Shr(v, bit) == 0
  {
    PowMonotone(2, e, bit);
    ModSmall(v, Pow(2, bit));
  }

  lemma ValBelowPow(s: seq<Limb>)
    ensures Val(s) < Pow(2, 64 * |s|)
  {
    ValBound(s);
    BPowIsPow2(|s|);
  }

  /** A 4-bit field that straddles the border between limbs x and y: the masked pieces do not
      overlap, and or-ing them gives the field. */
  lemma Straddle(x: Limb, y: Limb, z: nat, off: nat)
    requires 60 < off < 64
    ensures y * Pow(2, 64 - off) >= 0
    ensures Or((Shr(x, off) % 0x1_0000_0000) % 16, ((y * Pow(2, 64 - off)) % B % 0x1_0000_0000) % 16)
            == Shr(x + B * (y + B * z), off) % 16
  {
    hide Or, Pow;
    PowPositive(2, off);
    PowPositive(2, 64 - off);
    PowAdd(2, off, 64 - off);
    Pow64();
    SmallPows();
    var h := Pow(2, 64 - off);
    assert h == 2 || h == 4 || h == 8;
    StraddleShift(x, y + B * z, Pow(2, off), h);
    var lo := x / Pow(2, off);
    var up := (y * h) % 16;
    LowMask(lo, h);
    HighMask(y, h);
    StraddleArith(lo, h, y, z);
    OrDisjoint(lo, up / h, 64 - off);
  }

  lemma SmallPows()
    ensures Pow(2, 1) == 2 && Pow(2, 2) == 4 && Pow(2, 3) == 8
  {
    PowAdd(2, 1, 1);
    PowAdd(2, 2, 1);
  }

  lemma StraddleShift(x: Limb, r: nat, p: int, h: int)
    requires p > 0 && h > 0 && p * h == B
    ensures (x + B * r) / p == x / p + h * r && x / p < h
  {
    assert (p * h) * r == (h * r) * p;
    ModAddMul(x, h * r, p);
    if x / p >= h { MulLe(h, x / p, p); }
  }

  lemma LowMask(lo: nat, h: int)
    requires lo < h <= 8
    ensures (lo % 0x1_0000_0000) % 16 == lo
  {
  }

  lemma HighMask(y: Limb, h: int)
    requires h == 2 || h == 4 || h == 8
    ensures y * h >= 0
    ensures ((y * h) % B % 0x1_0000_0000) % 16 == (y * h) % 16
    ensures (((y * h) % 16) / h) * h == (y * h) % 16
  {
    ModChain(y * h);
    ModOfMultiple(y, h);
    MultipleOf(y * h, h);
  }

  lemma ModChain(v: nat)
    ensures ((v % B) % 0x1_0000_0000) % 16 == v % 16
  {
    Mod16(v, B);
    Mod16(v % B, 0x1_0000_0000);
  }

  lemma Mod16(v: nat, m: int)
    requires m > 0 && m % 16 == 0
    ensures (v % m) % 16 == v % 16
  {
    var q := -((v / m) * (m / 16));
    assert (v / m) * m == ((v / m) * (m / 16)) * 16;
    assert v % m == v + q * 16;
    ModAddMul(v, q, 16);
  }

  lemma MultipleOf(v: nat, h: int)
    requires (h == 2 || h == 4 || h == 8) && v % h == 0
    ensures ((v % 16) / h) * h == v % 16
  {
    if h == 2 { assert v % 2 == 0; } else if h == 4 { assert v % 4 == 0; } else { assert v % 8 == 0; }
  }

  lemma StraddleArith(lo: nat, h: int, y: Limb, z: nat)
    requires lo < h && (h == 2 || h == 4 || h == 8)
    ensures lo + (y * h) % 16 == (lo + h * (y + B * z)) % 16
  {
    var u := (h * (B / 16)) * z;
    assert h * (y + B * z) == y * h + 16 * u by {
      assert h * (B * z) == (h * B) * z;
      assert (h * B) * z == (16 * (h * (B / 16))) * z;
    }
    ModOfMultiple(y, h);
    SmallSum(lo, y * h, h, u);
  }

  lemma SmallSum(lo: nat, v: nat, h: int, u: int)
    requires lo < h && (h == 2 || h == 4 || h == 8) && v % h == 0
    ensures lo + v % 16 == (lo + (v + 16 * u)) % 16
  {
    MultipleOf(v, h);
    var t := (v % 16) / h;
    assert v % 16 == t * h && v % 16 <= 16 - h;
    DivModUnique(lo + (v + 16 * u), 16, v / 16 + u, lo + v % 16);
  }

  /** Bits bit .. bit + 3, possibly straddling a limb border. */
  method GetBits4(e: array<Limb>, bit: nat) returns (w: nat)
    requires bit + 4 <= 64 * e.Length && e.Length <= MAX_LIMBS
    ensures w == Shr(Val(e[..]), bit) % 16
  {
    hide Val, Shr, Or, Pow;
    var limb, off := bit / 64, bit % 64;
    ShrLimb(e[..], limb, off);
    assert e[..][limb + 1..] == e[limb + 1..];
    Pow16();
    w := (Shr(e[limb], off) % 0x1_0000_0000) % 16;
    if off > 60 && limb + 1 < MAX_LIMBS {
      ValLow(e[limb + 1..]);
      Straddle(e[limb], e[limb + 1], Val(e[limb + 1..][1..]), off);
      w := Or(w, ((e[limb + 1] * Pow(2, 64 - off)) % B % 0x1_0000_0000) % 16);
    } else {
      ShrInside(e[limb], Val(e[limb + 1..]), off, 4);
    }
  }

  lemma Pow16()
    ensures Pow(2, 4) == 16
  {
    SmallPows();
    PowAdd(2, 2, 2);
  }

  /** One more bit on top of a field. */
  lemma ShrOneMore(v: nat, bit: nat, k: nat)
    ensures Pow(2, k) > 0 && Pow(2, k + 1) == 2 * Pow(2, k)
    ensures Shr(v, bit) % Pow(2, k + 1) == Shr(v, bit) % Pow(2, k) + (Shr(v, bit + k) % 2) * Pow(2, k)
  {
    PowPositive(2, k);
    ShiftShift(v, bit, k);
    hide Pow;
    TwoPartRest(Shr(v, bit), Pow(2, k));
  }

  lemma TwoPartRest(x: nat, p: nat)
    requires p > 0
    ensures x % (2 * p) == x % p + (x / p % 2) * p
  {
    var y := x / p;
    var h, b, r := y / 2, y % 2, x % p;
    assert x == y * p + r && y == 2 * h + b;
    hide *;
    assert (2 * h + b) * p == h * (2 * p) + b * p;
    MulLe(0, b, p);
    MulLe(b, 1, p);
    DivModUnique(x, 2 * p, h, b * p + r);
  }

  /** winBits bits from bitLo upwards; bits beyond the top limb read as 0. */
  method GetBitsW(e: array<Limb>, bitLo: nat, winBits: nat) returns (w: nat)
    ensures Pow(2, winBits) > 0
    ensures w == Shr(Val(e[..]), bitLo) % Pow(2, winBits)
  {
    hide Val, Shr, Or;
    w := 0;
    ghost var v := Val(e[..]);
    PowPositive(2, winBits);
    for k := 0 to winBits
      invariant Pow(2, k) > 0 && w == Shr(v, bitLo) % Pow(2, k) < Pow(2, k)
    {
      var b := bitLo + k;
      var limb := b / 64;
      ShrOneMore(v, bitLo, k);
      if limb >= e.Length {
        ValBelowPow(e[..]);
        BeyondTop(v, bitLo, k, winBits, 64 * e.Length);
        return;
      }
      ShrLimb(e[..], limb, b % 64);
      ShrInside(e[limb], Val(e[..][limb + 1..]), b % 64, 1);
      SmallPows();
      OrDisjoint(w, Shr(e[limb], b % 64) % 2, k);
      w := Or(w, (Shr(e[limb], b % 64) % 2) * Pow(2, k));
      assert (Shr(e[limb], b % 64) % 2) * Pow(2, k) <= Pow(2, k);
    }
  }

  lemma {:induction false} BeyondTop(v: nat, lo: nat, k: nat, w: nat, e: nat)
    requires v < Pow(2, e) && e <= lo + k && k <= w
    ensures Pow(2, k) > 0 && Pow(2, w) > 0
    ensures Shr(v, lo) % Pow(2, w) == Shr(v, lo) % Pow(2, k)
    decreases w - k
  {
    PowPositive(2, k);
    PowPositive(2, w);
    if k < w {
      ShrOneMore(v, lo, k);
      ShrOfSmall(v, lo + k, e);
      BeyondTop(v, lo, k + 1, w, e);
    }
  }

  // ------------------------------------------------------------- powers in Montgomery form

  /** v is 2^e in Montgomery form modulo n, for limb count nl. */
  ghost predicate IsPow(v: int, e: nat, n: int, nl: nat) {
    n > 0 && 0 <= v < n && Cong(v, Pow(2, e) * BPow(nl), n)
  }

  /** The Montgomery product of two powers is the power of the summed exponents. */
  lemma PowTimes(r: int, x: int, y: int, e: nat, f: nat, n: int, nl: nat)
    requires n > 0 && n % 2 == 1 && IsPow(x, e, n, nl) && IsPow(y, f, n, nl)
    requires 0 <= r < n && Cong(r * BPow(nl), x * y, n)
    ensures IsPow(r, e + f, n, nl)
  {
    hide Pow, BPow;
    var p := BPow(nl);
    CongMul(x, Pow(2, e) * p, y, Pow(2, f) * p, n);
    MulShuffle(Pow(2, e), p, Pow(2, f), p);
    PowAdd(2, e, f);
    var z := Pow(2, e + f);
    assert (Pow(2, e) * Pow(2, f)) * (p * p) == (z * p) * p;
    BPowIsPow2(nl);
    CancelPow2(r, z * p, 64 * nl, n);
  }

  /** Multiplying by plain 1 leaves Montgomery form. */
  lemma PowLeaves(r: int, x: int, e: nat, n: int, nl: nat)
    requires n > 0 && n % 2 == 1 && IsPow(x, e, n, nl)
    requires 0 <= r < n && Cong(r * BPow(nl), x * 1, n)
    ensures r == Pow(2, e) % n
  {
    hide Pow, BPow;
    BPowIsPow2(nl);
    CancelPow2(r, Pow(2, e), 64 * nl, n);
    ModSmall(r, n);
  }

  /** The number of trailing zero bits. */
  function Ctz(w: nat): (z: nat)
    requires w > 0
    decreases w
  {
    if w % 2 == 1 then 0 else Ctz(w / 2) + 1
  }

  lemma {:induction false} CtzSplits(w: nat)
    requires w > 0
    ensures Pow(2, Ctz(w)) > 0
    ensures Shr(w, Ctz(w)) * Pow(2, Ctz(w)) == w && Shr(w, Ctz(w)) % 2 == 1
  {
    PowPositive(2, Ctz(w));
    if w % 2 == 0 {
      CtzSplits(w / 2);
      var k, p := Ctz(w / 2), Pow(2, Ctz(w / 2));
      var u := Shr(w / 2, k);
      assert u * (2 * p) == 2 * (u * p) == w;
      ModOfMultiple(u, 2 * p);
      DivModUnique(w, 2 * p, u, 0);
    } else {
      DivModUnique(w, 1, w, 0);
    }
  }

  lemma {:induction false} CtzBelow(w: nat, k: nat)
    requires 0 < w < Pow(2, k)
    ensures Ctz(w) < k && Shr(w, Ctz(w)) < Pow(2, k - Ctz(w))
  {
    CtzSplits(w);
    var z := Ctz(w);
    PowPositive(2, z);
    if z >= k {
      PowMonotone(2, k, z);
      MulLe(1, Shr(w, z), Pow(2, z));
    } else {
      PowAdd(2, k - z, z);
      if Shr(w, z) >= Pow(2, k - z) { MulLe(Pow(2, k - z), Shr(w, z), Pow(2, z)); }
    }
  }

  // ------------------------------------------------------------------ the window loop

  /** n is an odd modulus above 1 and ninv its negated inverse modulo 2^64. */
  ghost predicate Modulus(n: array<Limb>, ninv: Limb)
    reads n
  {
    n.Length > 0 && n[0] % 2 == 1 && (n[0] * ninv + 1) % B == 0 && Val(n[..]) > 1 && Val(n[..]) % 2 == 1
  }

  /** a holds 2^e in Montgomery form. */
  ghost predicate Holds(a: array<Limb>, e: nat, n: array<Limb>)
    reads a, n
  {
    a.Length == n.Length && IsPow(Val(a[..]), e, Val(n[..]), n.Length)
  }

  /** win[k] holds the odd power 2^(2k+1). */
  ghost predicate Table(win: seq<array<Limb>>, n: array<Limb>)
    reads win, n
  {
    forall k :: 0 <= k < |win| ==> Holds(win[k], 2 * k + 1, n)
  }

  method MulPow(r: array<Limb>, a: array<Limb>, b: array<Limb>, n: array<Limb>, ninv: Limb,
                ghost e: nat, ghost f: nat)
    requires Modulus(n, ninv) && r != n && r.Length == n.Length
    requires Holds(a, e, n) && Holds(b, f, n)
    modifies r
    ensures Holds(r, e + f, n)
  {
    hide Val, BPow, Pow;
    ghost var x, y := Val(a[..]), Val(b[..]);
    MontMul(r, a, b, n, ninv);
    PowTimes(Val(r[..]), x, y, e, f, Val(n[..]), n.Length);
  }

  /** e * 2^k. */
  function Scale(e: nat, k: nat): nat {
    PowPositive(2, k);
    e * Pow(2, k)
  }

  lemma ScaleMore(e: nat, k: nat)
    ensures Scale(e, 0) == e && Scale(e, k + 1) == 2 * Scale(e, k)
  {
    assert e * (2 * Pow(2, k)) == 2 * (e * Pow(2, k));
  }

  /** res = res^(2^k). */
  method SquareTimes(res: array<Limb>, n: array<Limb>, ninv: Limb, k: nat, ghost e: nat)
    requires Modulus(n, ninv) && res != n && Holds(res, e, n)
    modifies res
    ensures Holds(res, Scale(e, k), n)
  {
    hide *;
    ScaleMore(e, 0);
    HoldsLength(res, e, n);
    for step := 0 to k
      invariant Modulus(n, ninv) && res.Length == n.Length && Holds(res, Scale(e, step), n)
    {
      ScaleMore(e, step);
      MulPow(res, res, res, n, ninv, Scale(e, step), Scale(e, step));
    }
  }

  lemma ShrStep(v: nat, b: nat, w: nat)
    ensures Pow(2, w) > 0
    ensures Shr(v, b) == Scale(Shr(v, b + w), w) + Shr(v, b) % Pow(2, w)
  {
    hide Pow;
    PowPositive(2, w);
    ShiftShift(v, b, w);
  }

  /** Splitting the last squarings around an odd multiplier adds the window's bits. */
  lemma WindowSum(e: nat, w: nat, k: nat)
    requires 0 < w < Pow(2, k)
    ensures Ctz(w) < k
    ensures Scale(Scale(e, k - Ctz(w)) + Shr(w, Ctz(w)), Ctz(w)) == Scale(e, k) + w
  {
    CtzBelow(w, k);
    CtzSplits(w);
    PowAdd(2, k - Ctz(w), Ctz(w));
    SumArith(e, Pow(2, k - Ctz(w)), Shr(w, Ctz(w)), Pow(2, Ctz(w)));
  }

  lemma SumArith(e: int, p: int, u: int, q: int)
    ensures (e * p + u) * q == e * (p * q) + u * q
  {
    assert (e * p) * q == e * (p * q);
  }

  /** One window of k exponent bits with value w: k squarings and, unless w is 0, one
      multiplication by an odd power placed before the trailing squarings. */
  method ApplyWindow(res: array<Limb>, win: seq<array<Limb>>, n: array<Limb>, ninv: Limb, k: nat, w: nat,
                     ghost e: nat)
    requires Modulus(n, ninv) && res != n && res !in win && Holds(res, e, n) && Table(win, n)
    requires k > 0 && w < Pow(2, k) && |win| == Pow(2, k - 1)
    modifies res
    ensures Holds(res, Scale(e, k) + w, n)
  {
    hide *;
    if w == 0 {
      SquareTimes(res, n, ninv, k, e);
    } else {
      var z := Ctz(w);
      CtzBelow(w, k);
      CtzSplits(w);
      WindowSum(e, w, k);
      var u := Shr(w, z);
      WindowIndex(u, k, z);
      TableAt(win, n, u / 2);
      HoldsLength(res, e, n);
      SquareTimes(res, n, ninv, k - z, e);
      MulPow(res, res, win[u / 2], n, ninv, Scale(e, k - z), u);
      SquareTimes(res, n, ninv, z, Scale(e, k - z) + u);
    }
  }

  lemma TableAt(win: seq<array<Limb>>, n: array<Limb>, i: nat)
    requires Table(win, n) && i < |win|
    ensures Holds(win[i], 2 * i + 1, n)
  {
  }

  lemma HoldsLength(a: array<Limb>, e: nat, n: array<Limb>)
    requires Holds(a, e, n)
    ensures a.Length == n.Length
  {
  }

  lemma WindowIndex(u: nat, k: nat, z: nat)
    requires u % 2 == 1 && z < k && u < Pow(2, k - z)
    ensures u / 2 < Pow(2, k - 1) && 2 * (u / 2) + 1 == u
  {
    PowMonotone(2, k - z, k);
  }

  /** res = 2^V in Montgomery form, where V = Val(exp) has its top bit at msb: windows of k bits
      while they fit, single bits at the end.  With fast set the fixed 4-bit reader is used. */
  method Pow2Window(res: array<Limb>, base: array<Limb>, win: seq<array<Limb>>, exp: array<Limb>, msb: nat,
                    n: array<Limb>, ninv: Limb, k: nat, fast: bool)
    requires Modulus(n, ninv) && res !in {base, n, exp} && res !in win && res.Length == n.Length
    requires Holds(base, 1, n) && Table(win, n)
    requires 1 <= k && |win| == Pow(2, k - 1) && (fast ==> k == 4)
    requires exp.Length <= MAX_LIMBS && msb < 64 * exp.Length && Shr(Val(exp[..]), msb) == 1
    modifies res
    ensures Holds(res, Val(exp[..]), n)
  {
    hide *;
    ghost var v: nat := Val(exp[..]);
    HoldsLength(base, 1, n);
    Copy(res, base);
    HoldsCopy(res, base, 1, n);
    var bit: int := msb - 1;
    while bit >= 0
      invariant -1 <= bit < msb && Val(exp[..]) == v
      invariant Modulus(n, ninv) && Holds(base, 1, n) && Table(win, n)
      invariant Holds(res, Shr(v, bit + 1), n)
    {
      ghost var e := Shr(v, bit + 1);
      HoldsLength(res, e, n);
      if bit < k - 1 {
        MulPow(res, res, res, n, ninv, e, e);
        var one := BitAt(exp, bit);
        ShrBit(v, bit);
        if one == 1 {
          MulPow(res, res, base, n, ninv, e + e, 1);
        }
        bit := bit - 1;
      } else {
        var w;
        if fast {
          w := GetBits4(exp, bit - 3);
          Pow16();
        } else {
          w := GetBitsW(exp, bit - (k - 1), k);
        }
        ShrStep(v, bit - (k - 1), k);
        FieldBelow(Shr(v, bit - (k - 1)), k);
        ApplyWindow(res, win, n, ninv, k, w, e);
        bit := bit - k;
      }
    }
    ShrAll(v);
  }

  method Copy(r: array<Limb>, a: array<Limb>)
    requires r.Length == a.Length && r != a
    modifies r
    ensures r[..] == a[..]
  {
    for i := 0 to r.Length
      invariant forall j :: 0 <= j < i ==> r[j] == a[j]
    {
      r[i] := a[i];
    }
  }

  lemma HoldsCopy(r: array<Limb>, a: array<Limb>, e: nat, n: array<Limb>)
    requires Holds(a, e, n) && r[..] == a[..]
    ensures Holds(r, e, n)
  {
    assert |r[..]| == |a[..]|;
  }

  /** (e[bit >> 6] >> (bit & 63)) & 1. */
  method BitAt(e: array<Limb>, bit: nat) returns (b: nat)
    requires bit < 64 * e.Length
    ensures b == Shr(Val(e[..]), bit) % 2
  {
    hide Val, Shr;
    ShrLimb(e[..], bit / 64, bit % 64);
    ShrInside(e[bit / 64], Val(e[..][bit / 64 + 1..]), bit % 64, 1);
    SmallPows();
    b := Shr(e[bit / 64], bit % 64) % 2;
  }

  lemma ShrBit(v: nat, bit: nat)
    ensures Shr(v, bit) == 2 * Shr(v, bit + 1) + Shr(v, bit) % 2
    ensures Shr(v, bit) % 2 <= 1
  {
    ShrStep(v, bit, 1);
    SmallPows();
  }

  lemma FieldBelow(x: nat, k: nat)
    ensures Pow(2, k) > 0 && 0 <= x % Pow(2, k) < Pow(2, k)
  {
    PowPositive(2, k);
  }

  lemma ShrAll(v: nat)
    ensures Shr(v, 0) == v
  {
    DivModUnique(v, 1, v, 0);
  }

  // ------------------------------------------------------------------------- the tests

  /** 2^e mod n. */
  function TwoTo(e: nat, n: nat): nat
    requires n > 0
  {
    Pow(2, e) % n
  }

  /** n passes the base-2 Fermat test. */
  predicate FermatVerdict(n: nat) {
    if n < 4 then n >= 2 else n % 2 == 1 && TwoTo(n - 1, n) == 1
  }

  /** n passes the base-2 Euler test. */
  predicate EulerVerdict(n: nat) {
    if n < 4 then n >= 2 else n % 2 == 1 && TwoTo((n - 1) / 2, n) in {1, n - 1}
  }

  /** Top-limb form with at least two limbs: the value is at least 2^64. */
  lemma MultiLimb(n: seq<Limb>)
    requires |n| >= 2 && n[|n| - 1] > 0
    ensures Val(n) >= B
  {
    var k := |n| - 1;
    MulLe(1, n[k], BPow(k));
    BPowAdd(1, k - 1);
    MulLe(1, BPow(k - 1), B);
    assert BPow(1) == B * BPow(0);
  }

  /** base = 2 in Montgomery form: R mod n, doubled. */
  method BuildBase(n: array<Limb>, ninv: Limb) returns (base: array<Limb>)
    requires Modulus(n, ninv) && n[n.Length - 1] > 0
    ensures fresh(base) && Holds(base, 1, n)
  {
    hide Val, BPow, IsPow;
    base := new Limb[n.Length](_ => 0);
    RmodN(base, n);
    ghost var one := Val(base[..]);
    ModDbl(base, n);
    BaseIsTwo(Val(base[..]), one, Val(n[..]), n.Length);
  }

  /** The table of odd powers base, base^3, base^5, ... */
  method BuildTable(n: array<Limb>, ninv: Limb, base: array<Limb>, count: nat) returns (win: seq<array<Limb>>)
    requires Modulus(n, ninv) && Holds(base, 1, n) && count > 0
    ensures fresh(set i | 0 <= i < |win| :: win[i])
    ensures |win| == count && Table(win, n)
  {
    hide *;
    HoldsLength(base, 1, n);
    var first := new Limb[n.Length](_ => 0);
    Copy(first, base);
    HoldsCopy(first, base, 1, n);
    win := [first];
    var base2 := new Limb[n.Length](_ => 0);
    MulPow(base2, base, base, n, ninv, 1, 1);
    TableNil(n);
    TableGrow([], first, n);
    assert [] + [first] == win;
    for i := 1 to count
      invariant |win| == i && Holds(base2, 2, n) && Table(win, n) && Modulus(n, ninv)
      invariant forall j :: 0 <= j < i ==> fresh(win[j])
    {
      var next := new Limb[n.Length](_ => 0);
      TableAt(win, n, i - 1);
      MulPow(next, win[i - 1], base2, n, ninv, 2 * (i - 1) + 1, 2);
      TableGrow(win, next, n);
      win := win + [next];
    }
  }

  lemma TableNil(n: array<Limb>)
    ensures Table([], n)
  {
  }

  lemma TableGrow(win: seq<array<Limb>>, x: array<Limb>, n: array<Limb>)
    requires Table(win, n) && Holds(x, 2 * |win| + 1, n)
    ensures Table(win + [x], n)
  {
  }

  lemma BaseIsTwo(base: int, one: int, n: int, nl: nat)
    requires n > 0 && one == BPow(nl) % n && base == (2 * one) % n && 0 <= base < n
    ensures IsPow(base, 1, n, nl)
  {
    CongMod(BPow(nl), n);
    CongMul(2, 2, one, BPow(nl), n);
    CongMod(2 * one, n);
    SmallPows();
  }

  /** e = n - 1 for odd n: only the lowest limb changes. */
  method MinusOne(n: array<Limb>) returns (e: array<Limb>)
    requires n.Length > 0 && n[0] % 2 == 1
    ensures fresh(e) && e.Length == n.Length && Val(e[..]) == Val(n[..]) - 1
  {
    hide Val;
    e := new Limb[n.Length](_ => 0);
    Copy(e, n);
    e[0] := e[0] - 1;
    assert e[1..] == n[1..];
    ValLow(e[..]);
    ValLow(n[..]);
    assert e[..][1..] == n[..][1..];
  }

  /** e = e >> 1, pulling each limb's top bit from the limb above. */
  method Halve(e: array<Limb>)
    requires e.Length > 0
    modifies e
    ensures Val(e[..]) == old(Val(e[..])) / 2
  {
    hide Val, BPow, Or;
    var nl := e.Length;
    ghost var was := e[..];
    ghost var b := was[0] % 2;
    RowStart(e[..0], was[..0], was[..0]);
    for i := 0 to nl - 1
      invariant forall k :: i <= k < nl ==> e[k] == was[k]
      invariant 2 * Val(e[..i]) + b == Val(was[..i]) + (was[i] % 2) * BPow(i)
    {
      ghost var low := e[..i];
      OrTop(e[i], e[i + 1]);
      e[i] := Or(e[i] / 2, (e[i + 1] * 0x8000_0000_0000_0000) % B);
      RowGrow(low, was[..i], was[..i], e[i], was[i], was[i]);
      assert e[..i + 1] == low + [e[i]] && was[..i + 1] == was[..i] + [was[i]];
      HalveStep(BPow(i), e[i], was[i], was[i + 1] % 2);
    }
    ghost var low := e[..nl - 1];
    e[nl - 1] := e[nl - 1] / 2;
    RowGrow(low, was[..nl - 1], was[..nl - 1], e[nl - 1], was[nl - 1], was[nl - 1]);
    assert e[..] == low + [e[nl - 1]] && was == was[..nl - 1] + [was[nl - 1]];
    HalveStep(BPow(nl - 1), e[nl - 1], was[nl - 1], 0);
    OddLowLimb(was);
  }

  lemma OrTop(x: Limb, y: Limb)
    ensures Or(x / 2, (y * 0x8000_0000_0000_0000) % B) == x / 2 + (y % 2) * 0x8000_0000_0000_0000 < B
  {
    hide Or;
    assert (y * 0x8000_0000_0000_0000) % B == (y % 2) * 0x8000_0000_0000_0000;
    Pow64();
    assert Pow(2, 64) == 2 * Pow(2, 63);
    OrDisjoint(x / 2, y % 2, 63);
  }

  lemma HalveStep(p: int, e: int, w: int, u: int)
    requires 2 * e == w - w % 2 + B * u
    ensures 2 * (e * p) == w * p - (w % 2) * p + u * (B * p)
  {
    assert (2 * e) * p == (w - w % 2 + B * u) * p;
    assert (B * u) * p == u * (B * p);
  }

  /** The index of the highest set bit. */
  method FindMsb(a: array<Limb>) returns (msb: nat)
    requires a.Length > 0 && Val(a[..]) > 0
    ensures msb < 64 * a.Length && Shr(Val(a[..]), msb) == 1
  {
    hide Val, Shr, Pow;
    var top := a.Length - 1;
    assert a[..top + 1] == a[..];
    while top > 0 && a[top] == 0
      invariant 0 <= top < a.Length && Val(a[..top + 1]) == Val(a[..])
    {
      assert a[..top + 1] == a[..top] + [a[top]];
      ValAppend(a[..top], 0);
      top := top - 1;
    }
    assert a[..top + 1] == a[..top] + [a[top]];
    if a[top] == 0 { assert top == 0; ValZero(a[..1]); }
    TopBitBound(a[top]);
    msb := top * 64 + TopBit(a[top]);
    TopShr(a[..top + 1]);
  }

  lemma TopShr(s: seq<Limb>)
    requires s != [] && s[|s| - 1] > 0
    ensures Shr(Val(s), 64 * (|s| - 1) + TopBit(s[|s| - 1])) == 1
  {
    var k := |s| - 1;
    var t := TopBit(s[k]);
    TopBitBound(s[k]);
    ShrLimb(s, k, t);
    assert s[k + 1..] == [];
    DivModUnique(s[k], Pow(2, t), 1, s[k] - Pow(2, t));
  }

  /** res == 1 as a limb array. */
  method IsOne(res: array<Limb>) returns (ok: bool)
    requires res.Length > 0
    ensures ok <==> Val(res[..]) == 1
  {
    hide Val, BPow;
    ValLow(res[..]);
    if res[0] != 1 {
      ghost var rest := Val(res[..][1..]);
      return false;
    }
    for i := 1 to res.Length
      invariant forall j :: 1 <= j < i ==> res[j] == 0
    {
      if res[i] != 0 {
        NonZero(res[..][1..], i - 1);
        return false;
      }
    }
    ValZero(res[..][1..]);
    return true;
  }

  lemma NonZero(s: seq<Limb>, i: nat)
    requires i < |s| && s[i] != 0
    ensures Val(s) > 0
  {
    assert s == s[..i] + s[i..];
    ValConcat(s[..i], s[i..]);
    ValLow(s[i..]);
    MulLe(1, Val(s[i..]), BPow(i));
  }

  /** Limb-wise equality is equality of values. */
  method Equal(a: array<Limb>, b: array<Limb>) returns (ok: bool)
    requires a.Length == b.Length
    ensures ok <==> Val(a[..]) == Val(b[..])
  {
    hide Val;
    for i := a.Length downto 0
      invariant a[i..] == b[i..]
    {
      if a[i] != b[i] {
        assert a[..][i + 1..] == b[..][i + 1..];
        if a[i] > b[i] { TopDecides(a[..], b[..], i); } else { TopDecides(b[..], a[..], i); }
        return false;
      }
      assert a[i..] == [a[i]] + a[i + 1..] && b[i..] == [b[i]] + b[i + 1..];
    }
    assert a[..] == b[..];
    return true;
  }

  /** Right-to-left binary powering modulo a single limb; 128-bit products never wrap. */
  method PowU64(n: Limb, exponent: Limb) returns (acc: Limb)
    requires n >= 4
    ensures acc == TwoTo(exponent, n)
  {
    hide *;
    acc := 1;
    var base: Limb := 2 % n;
    var e := exponent;
    PowStart(n, exponent);
    while e > 0
      invariant 0 <= acc < n && 0 <= base < n
      invariant Cong(acc * Pow(base, e), Pow(2, exponent), n)
    {
      PowStep(n, acc, base, e, Pow(2, exponent));
      ProductRoom(acc, base, n);
      if e % 2 == 1 {
        acc := (acc * base) % n;
      }
      base := (base * base) % n;
      e := e / 2;
    }
    PowEnd(n, acc, base, exponent);
  }

  lemma ProductRoom(a: nat, b: nat, n: Limb)
    requires a < n && b < n
    ensures 0 <= (a * b) % n < n && 0 <= (b * b) % n < n
  {
  }

  lemma PowStart(n: Limb, e: nat)
    requires n >= 4
    ensures 2 % n == 2 && Cong(1 * Pow(2, e), Pow(2, e), n)
  {
    ModSmall(2, n);
  }

  /** One bit of right-to-left powering keeps acc * base^e. */
  lemma PowStep(n: int, acc: nat, base: nat, e: nat, target: int)
    requires n > 0 && e > 0 && Cong(acc * Pow(base, e), target, n)
    ensures var acc' := if e % 2 == 1 then (acc * base) % n else acc;
            Cong(acc' * Pow((base * base) % n, e / 2), target, n)
  {
    hide Pow;
    PowSquare(base, e);
    var sq, sq' := Pow(base * base, e / 2), Pow((base * base) % n, e / 2);
    CongMod(base * base, n);
    PowCong((base * base) % n, base * base, e / 2, n);
    if e % 2 == 1 {
      CongMod(acc * base, n);
      CongMul((acc * base) % n, acc * base, sq', sq, n);
      assert acc * (base * sq) == (acc * base) * sq;
    } else {
      CongMul(acc, acc, sq', sq, n);
    }
  }

  lemma PowEnd(n: int, acc: int, base: int, e: nat)
    requires 0 <= acc < n && Cong(acc * Pow(base, 0), Pow(2, e), n)
    ensures acc == TwoTo(e, n)
  {
    ModSmall(acc, n);
  }

  lemma PowSquare(b: int, e: nat)
    ensures e % 2 == 0 ==> Pow(b, e) == Pow(b * b, e / 2)
    ensures e % 2 == 1 ==> Pow(b, e) == b * Pow(b * b, e / 2)
  {
    PowMul(b, b, e / 2);
    PowAdd(b, e / 2, e / 2);
    assert e == 2 * (e / 2) + e % 2;
  }

  /** fermat_u64_exact. */
  method FermatU64(n: Limb) returns (ok: bool)
    ensures ok == FermatVerdict(n)
  {
    if n < 4 { return n >= 2; }
    if n % 2 == 0 { return false; }
    var acc := PowU64(n, n - 1);
    return acc == 1;
  }

  /** euler_u64. */
  method EulerU64(n: Limb) returns (ok: bool)
    ensures ok == EulerVerdict(n)
  {
    if n < 4 { return n >= 2; }
    if n % 2 == 0 { return false; }
    var acc := PowU64(n, (n - 1) / 2);
    return acc == 1 || acc == n - 1;
  }

  // ------------------------------------------------------------------ multi-limb tests

  lemma ModulusOf(n: array<Limb>)
    requires n.Length >= 2 && n[n.Length - 1] > 0 && n[0] % 2 == 1
    ensures Modulus(n, Ninv(n[0])) && Val(n[..]) >= B
  {
    hide Ninv;
    NinvCorrect(n[0]);
    MultiLimb(n[..]);
    OddLowLimb(n[..]);
  }

  lemma OneVal(s: seq<Limb>)
    requires s != [] && s[0] == 1 && forall i :: 1 <= i < |s| ==> s[i] == 0
    ensures Val(s) == 1
  {
    ValLow(s);
    ValZero(s[1..]);
  }

  /** 2^Val(exp) mod n: the window loop, then one multiplication by 1 to leave Montgomery form. */
  method PowMod(n: array<Limb>, ninv: Limb, base: array<Limb>, win: seq<array<Limb>>, exp: array<Limb>,
                msb: nat, k: nat, fast: bool)
    returns (res: array<Limb>)
    requires Modulus(n, ninv) && Holds(base, 1, n) && Table(win, n)
    requires 1 <= k && |win| == Pow(2, k - 1) && (fast ==> k == 4)
    requires exp.Length <= MAX_LIMBS && msb < 64 * exp.Length && Shr(Val(exp[..]), msb) == 1
    ensures fresh(res) && res.Length == n.Length && Val(res[..]) == TwoTo(Val(exp[..]), Val(n[..]))
  {
    hide Val, BPow, Pow, Shr, IsPow, Table, TwoTo;
    res := new Limb[n.Length](_ => 0);
    Pow2Window(res, base, win, exp, msb, n, ninv, k, fast);
    var one := new Limb[n.Length](i => if i == 0 then 1 else 0);
    OneVal(one[..]);
    ghost var x := Val(res[..]);
    HoldsBound(res, Val(exp[..]), n);
    MontMul(res, res, one, n, ninv);
    HoldsLeaves(x, Val(res[..]), Val(exp[..]), n);
  }

  lemma HoldsBound(a: array<Limb>, e: nat, n: array<Limb>)
    requires Holds(a, e, n)
    ensures Val(a[..]) < Val(n[..]) && IsPow(Val(a[..]), e, Val(n[..]), n.Length)
  {
  }

  lemma HoldsLeaves(x: int, r: int, e: nat, n: array<Limb>)
    requires Val(n[..]) % 2 == 1 && IsPow(x, e, Val(n[..]), n.Length)
    requires 0 <= r < Val(n[..]) && Cong(r * BPow(n.Length), x * 1, Val(n[..]))
    ensures r == TwoTo(e, Val(n[..]))
  {
    PowLeaves(r, x, e, Val(n[..]), n.Length);
  }

  /** The exponentiation shared by the dynamic-window tests. */
  method DynPow(n: array<Limb>, exp: array<Limb>, k: nat) returns (res: array<Limb>)
    requires 2 <= n.Length <= MAX_LIMBS && n[n.Length - 1] > 0 && n[0] % 2 == 1
    requires exp.Length == n.Length && Val(exp[..]) > 0 && k >= 1
    ensures fresh(res) && res.Length == n.Length && Val(n[..]) > 0
    ensures Val(res[..]) == TwoTo(Val(exp[..]), Val(n[..]))
  {
    ModulusOf(n);
    PowPositive(2, k - 1);
    hide *;
    var ninv := Ninv(n[0]);
    var base := BuildBase(n, ninv);
    var win := BuildTable(n, ninv, base, Pow(2, k - 1));
    var msb := FindMsb(exp);
    res := PowMod(n, ninv, base, win, exp, msb, k, false);
  }

  /** fermat_test_cpu_nlimbs_dynwin; an out-of-range window width falls back to 4. */
  method FermatDynwin(n: array<Limb>, winBits: int) returns (ok: bool)
    requires n.Length >= 2 ==> n[n.Length - 1] > 0
    ensures 1 <= n.Length <= MAX_LIMBS ==> ok == FermatVerdict(Val(n[..]))
    ensures !(1 <= n.Length <= MAX_LIMBS) ==> !ok
  {
    if n.Length == 0 || n.Length > MAX_LIMBS { return false; }
    hide FermatVerdict, Val, TwoTo;
    if n.Length == 1 {
      SingleLimb(n[..]);
      ok := FermatU64(n[0]);
      return;
    }
    LargeOdd(n[..]);
    if n[0] % 2 == 0 { return false; }
    var e := MinusOne(n);
    var res := DynPow(n, e, WindowBits(winBits));
    ok := IsOne(res);
  }

  /** euler_test_cpu_nlimbs_dynwin. */
  method EulerDynwin(n: array<Limb>, winBits: int) returns (ok: bool)
    requires n.Length >= 2 ==> n[n.Length - 1] > 0
    ensures 1 <= n.Length <= MAX_LIMBS ==> ok == EulerVerdict(Val(n[..]))
    ensures !(1 <= n.Length <= MAX_LIMBS) ==> !ok
  {
    if n.Length == 0 || n.Length > MAX_LIMBS { return false; }
    hide EulerVerdict, Val, TwoTo;
    if n.Length == 1 {
      SingleLimb(n[..]);
      ok := EulerU64(n[0]);
      return;
    }
    LargeOdd(n[..]);
    if n[0] % 2 == 0 { return false; }
    ghost var v := Val(n[..]);
    var e := MinusOne(n);
    Halve(e);
    assert Val(n[..]) == v && Val(e[..]) == (v - 1) / 2;
    var res := DynPow(n, e, WindowBits(winBits));
    assert Val(n[..]) == v;
    var nm1 := NMinusOne(n);
    ok := IsOneOr(res, nm1);
  }

  /** res is 1 or equals nm1. */
  method IsOneOr(res: array<Limb>, nm1: array<Limb>) returns (ok: bool)
    requires res.Length == nm1.Length > 0
    ensures ok <==> Val(res[..]) == 1 || Val(res[..]) == Val(nm1[..])
  {
    hide *;
    ok := IsOne(res);
    if !ok { ok := Equal(res, nm1); }
  }

  /** n - 1 by limb subtraction of 1. */
  method NMinusOne(n: array<Limb>) returns (nm1: array<Limb>)
    requires n.Length > 0 && Val(n[..]) > 0
    ensures fresh(nm1) && nm1.Length == n.Length && Val(nm1[..]) == Val(n[..]) - 1
  {
    hide Val, BPow;
    var one := new Limb[n.Length](i => if i == 0 then 1 else 0);
    OneVal(one[..]);
    nm1 := new Limb[n.Length](_ => 0);
    assert n[0..0 + n.Length] == n[..];
    ghost var borrow := SubN(nm1, n, 0, one);
    ValBound(nm1[..]);
    ValBound(n[..]);
    BorrowIsCarry(Val(nm1[..]), Val(n[..]) - 1, borrow, BPow(n.Length));
  }

  /** The window width used for a requested one. */
  function WindowBits(winBits: int): (k: nat)
    ensures FERMAT_WIN_MIN <= k <= FERMAT_WIN_MAX && 1 <= k
  {
    if winBits < FERMAT_WIN_MIN || winBits > FERMAT_WIN_MAX then FERMAT_WIN else winBits
  }

  /** What the two verdicts say about a value of two or more limbs. */
  lemma LargeOdd(n: seq<Limb>)
    requires |n| >= 2 && n[|n| - 1] > 0
    ensures n[0] % 2 == 0 ==> !FermatVerdict(Val(n)) && !EulerVerdict(Val(n))
    ensures Val(n) >= B && Val(n) % 2 == n[0] % 2
    ensures n[0] % 2 == 1 ==> (FermatVerdict(Val(n)) <==> TwoTo(Val(n) - 1, Val(n)) == 1)
    ensures n[0] % 2 == 1 ==> (EulerVerdict(Val(n)) <==> TwoTo((Val(n) - 1) / 2, Val(n)) == 1
                                                         || TwoTo((Val(n) - 1) / 2, Val(n)) == Val(n) - 1)
  {
    hide Val, Pow, TwoTo;
    MultiLimb(n);
    OddLowLimb(n);
  }

  lemma SingleLimb(s: seq<Limb>)
    ensures |s| == 1 ==> Val(s) == s[0]
  {
    if |s| == 1 {
      ValLow(s);
      assert s[1..] == [];
    }
  }

  /** The precomputation shared by repeated tests of one number. */
  class Precomp {
    const n: array<Limb>
    const ninv: Limb
    const base: array<Limb>
    const win: seq<array<Limb>>
    const fermatExp: array<Limb>
    const fermatMsb: nat
    const nm1: array<Limb>
    const eulerExp: array<Limb>
    const eulerMsb: nat

    ghost predicate Valid()
      reads n, base, win, fermatExp, nm1, eulerExp
    {
      && 2 <= n.Length <= MAX_LIMBS && n[n.Length - 1] > 0 && Modulus(n, ninv)
      && Holds(base, 1, n) && Table(win, n) && |win| == 8
      && fermatExp.Length == nm1.Length == eulerExp.Length == n.Length
      && Val(fermatExp[..]) == Val(nm1[..]) == Val(n[..]) - 1
      && Val(eulerExp[..]) == (Val(n[..]) - 1) / 2
      && fermatMsb < 64 * n.Length && Shr(Val(fermatExp[..]), fermatMsb) == 1
      && eulerMsb < 64 * n.Length && Shr(Val(eulerExp[..]), eulerMsb) == 1
    }

    constructor (n: array<Limb>, ninv: Limb, base: array<Limb>, win: seq<array<Limb>>,
                 fermatExp: array<Limb>, fermatMsb: nat, nm1: array<Limb>, eulerExp: array<Limb>, eulerMsb: nat)
      requires 2 <= n.Length <= MAX_LIMBS && n[n.Length - 1] > 0 && Modulus(n, ninv)
      requires Holds(base, 1, n) && Table(win, n) && |win| == 8
      requires fermatExp.Length == nm1.Length == eulerExp.Length == n.Length
      requires Val(fermatExp[..]) == Val(nm1[..]) == Val(n[..]) - 1
      requires Val(eulerExp[..]) == (Val(n[..]) - 1) / 2
      requires fermatMsb < 64 * n.Length && Shr(Val(fermatExp[..]), fermatMsb) == 1
      requires eulerMsb < 64 * n.Length && Shr(Val(eulerExp[..]), eulerMsb) == 1
      ensures Valid() && this.n == n
    {
      hide Val, Shr, Modulus, Holds, Table;
      this.n, this.ninv, this.base, this.win := n, ninv, base, win;
      this.fermatExp, this.fermatMsb, this.nm1 := fermatExp, fermatMsb, nm1;
      this.eulerExp, this.eulerMsb := eulerExp, eulerMsb;
    }

    /** 2^exp mod n for one of the two stored exponents. */
    method Power(exp: array<Limb>, msb: nat) returns (res: array<Limb>)
      requires Valid() && exp.Length == n.Length && msb < 64 * n.Length && Shr(Val(exp[..]), msb) == 1
      ensures fresh(res) && res.Length == n.Length && Val(n[..]) > 0
      ensures Val(res[..]) == TwoTo(Val(exp[..]), Val(n[..]))
    {
      MultiLimb(n[..]);
      Pow8();
      hide Val, Pow, Shr, Modulus, Holds, Table, TwoTo;
      res := PowMod(n, ninv, base, win, exp, msb, FERMAT_WIN, true);
    }

    method Fermat() returns (ok: bool)
      requires Valid()
      ensures ok == FermatVerdict(Val(n[..]))
    {
      LargeOdd(n[..]);
      OddModulus(n, ninv);
      hide FermatVerdict, Val, Shr, Modulus, Holds, Table, TwoTo;
      var res := Power(fermatExp, fermatMsb);
      ok := IsOne(res);
    }

    method Euler() returns (ok: bool)
      requires Valid()
      ensures ok == EulerVerdict(Val(n[..]))
    {
      LargeOdd(n[..]);
      OddModulus(n, ninv);
      hide EulerVerdict, Val, Shr, Modulus, Holds, Table, TwoTo;
      var res := Power(eulerExp, eulerMsb);
      ok := IsOneOr(res, nm1);
    }
  }

  lemma OddModulus(n: array<Limb>, ninv: Limb)
    requires Modulus(n, ninv)
    ensures n[0] % 2 == 1
  {
  }

  /** primality_exact_precomp_init: refuses anything but 2 to 20 limbs, odd, with the 4-bit
      window selected. */
  method PrecompInit(a: array<Limb>, winBits: int) returns (ok: bool, pre: Precomp?)
    requires a.Length >= 2 ==> a[a.Length - 1] > 0
    ensures ok <==> 2 <= a.Length <= MAX_LIMBS && a[0] % 2 == 1 && WindowBits(winBits) == FERMAT_WIN
    ensures ok ==> pre != null && pre.Valid() && pre.n[..] == a[..]
  {
    ok, pre := false, null;
    if a.Length == 0 || a.Length > MAX_LIMBS { return; }
    if a.Length == 1 || a[0] % 2 == 0 { return; }
    if WindowBits(winBits) != FERMAT_WIN { return; }
    var n := new Limb[a.Length](_ => 0);
    Copy(n, a);
    pre := PrecompBuild(n);
    ok := true;
  }

  method PrecompBuild(n: array<Limb>) returns (pre: Precomp)
    requires 2 <= n.Length <= MAX_LIMBS && n[0] % 2 == 1 && n[n.Length - 1] > 0
    ensures pre.Valid() && pre.n == n
  {
    ModulusOf(n);
    Pow8();
    hide *;
    var ninv := Ninv(n[0]);
    var base := BuildBase(n, ninv);
    var win := BuildTable(n, ninv, base, 8);
    var fermatExp := MinusOne(n);
    var fermatMsb := FindMsb(fermatExp);
    var nm1 := MinusOne(n);
    var eulerExp := MinusOne(n);
    Halve(eulerExp);
    var eulerMsb := FindMsb(eulerExp);
    pre := new Precomp(n, ninv, base, win, fermatExp, fermatMsb, nm1, eulerExp, eulerMsb);
  }

  lemma Pow8()
    ensures Pow(2, FERMAT_WIN - 1) == 8
  {
    SmallPows();
  }
}
