/** The single-limb Montgomery product (mont_mul of new_src/primality_limbs.c) and the exact
    condition under which its 64-bit sum does not wrap. */
module Mont64 {
  import opened NumberTheory
  import opened Limbs

  /** The multiple of n that clears the low limb of a * b. */
  function Clearing(a: Limb, b: Limb, np: Limb): Limb {
    ((a * b) % B * np) % B
  }

  /** mont_mul, with the wrap of every 64-bit sum. */
  function MontMul64(a: Limb, b: Limb, n: Limb, np: Limb): Limb {
    var ab := a * b;
    var abLo, abHi := ab % B, ab / B;
    var mn := Clearing(a, b, np) * n;
    var mnLo, mnHi := mn % B, mn / B;
    var carry := if (abLo + mnLo) % B < abLo then 1 else 0;
    var u := (abHi + mnHi + carry) % B;
    if u >= n then u - n else u
  }

  /** The exact quotient that the program means to compute. */
  function Quotient(a: Limb, b: Limb, n: Limb, np: Limb): int {
    (a * b + Clearing(a, b, np) * n) / B
  }

  /** The two low limbs cancel, so their carry is 1 unless both are 0. */
  lemma LowCancels(a: Limb, b: Limb, n: Limb, np: Limb)
    requires (n * np + 1) % B == 0
    ensures (a * b + Clearing(a, b, np) * n) % B == 0
  {
    var lo := (a * b) % B;
    CongMod(a * b, B);
    CongMod(lo * np, B);
    CongMul(Clearing(a, b, np), lo * np, n, n, B);
    ModSmall(0, B);
    CongMul(lo, lo, n * np + 1, 0, B);
    assert lo * (n * np + 1) == (lo * np) * n + lo;
    CongAdd(Clearing(a, b, np) * n, (lo * np) * n, a * b, lo, B);
  }

  /** The program's high sum is the exact quotient, modulo 2^64. */
  lemma HighSum(x: nat, y: nat)
    requires (x + y) % B == 0
    ensures x / B + y / B + (if (x % B + y % B) % B < x % B then 1 else 0) == (x + y) / B
  {
    var xl, yl := x % B, y % B;
    assert x + y == (x / B + y / B) * B + (xl + yl);
    ModAddMul(xl + yl, x / B + y / B, B);
    ZeroOrFull(xl + yl);
    if xl + yl == 0 {
      DivModUnique(x + y, B, x / B + y / B, 0);
    } else {
      DivModUnique(x + y, B, x / B + y / B + 1, 0);
    }
  }

  lemma ZeroOrFull(s: int)
    requires 0 <= s < 2 * B && s % B == 0
    ensures s == 0 || s == B
  {
    if s >= B { DivModUnique(s, B, 1, s - B); } else { ModSmall(s, B); }
  }

  lemma QuotientBound(a: Limb, b: Limb, n: Limb, np: Limb)
    requires a < n && b < n
    ensures 0 <= Quotient(a, b, n, np) < 2 * n
  {
    var m := Clearing(a, b, np);
    MulLe(a, n, b);
    MulLe(b, B, n);
    MulLt(m, B, n);
    MulLe(0, a, b);
    MulLe(0, m, n);
    var t := a * b + m * n;
    assert 0 <= t < 2 * n * B;
    var q := t / B;
    assert t == q * B + t % B;
    if q >= 2 * n { MulLe(2 * n, q, B); } else if q < 0 { MulLe(q, -1, B); }
  }

  /** The largest sum the product can reach fits 128 bits: so for moduli up to about
      0.618 * 2^64. */
  predicate NeverWraps(n: Limb) { (n - 1) * (n - 1) + (B - 1) * n < B * B }

  lemma HalfNeverWraps(n: Limb)
    requires 0 < n && 2 * n <= B
    ensures NeverWraps(n)
  {
    MulLe(n - 1, n, n - 1);
    MulLe(n - 1, n, n);
    MulLe(2 * n, B, n);
    MulLe(2 * n, B, B);
    assert (B - 1) * n == B * n - n;
  }

  /** No operands below such a modulus wrap. */
  lemma QuotientFits(a: Limb, b: Limb, n: Limb, np: Limb)
    requires a < n && b < n && NeverWraps(n)
    ensures Quotient(a, b, n, np) < B
  {
    var m := Clearing(a, b, np);
    MulLe(a, n - 1, b);
    MulLe(b, n - 1, n - 1);
    MulLe(m, B - 1, n);
    hide Clearing;
    var t := a * b + m * n;
    assert t < B * B;
    var q := t / B;
    assert t == q * B + t % B;
    if q >= B { MulLe(B, q, B); }
  }

  /** mont_mul is right exactly when the quotient fits a limb; otherwise it drops 2^64 where
      it should drop n.  It fits for every modulus that NeverWraps, in particular up to 2^63. */
  lemma MontMul64ExactlyWhen(a: Limb, b: Limb, n: Limb, np: Limb)
    requires a < n && b < n && (n * np + 1) % B == 0
    ensures Cong(Quotient(a, b, n, np) * B, a * b, n)
    ensures MontMul64(a, b, n, np) == Quotient(a, b, n, np) % n <==> Quotient(a, b, n, np) < B
    ensures NeverWraps(n) ==> MontMul64(a, b, n, np) == Quotient(a, b, n, np) % n
  {
    var m := Clearing(a, b, np);
    var q := Quotient(a, b, n, np);
    LowCancels(a, b, n, np);
    QuotientBound(a, b, n, np);
    if NeverWraps(n) { QuotientFits(a, b, n, np); }
    hide NeverWraps;
    assert q * B == a * b + m * n;
    CongByMultiple(q * B, a * b, m, n);
    MulLe(0, a, b);
    MulLe(0, m, n);
    HighSum(a * b, m * n);
    Shortened(q, n);
    hide Clearing, Quotient;
    assert MontMul64(a, b, n, np) == if q % B >= n then q % B - n else q % B;
  }

  lemma Shortened(q: int, n: Limb)
    requires 0 < n && 0 <= q < 2 * n
    ensures (if q % B >= n then q % B - n else q % B) == q % n <==> q < B
  {
    if q < B { ModSmall(q, B); } else { DivModUnique(q, B, 1, q - B); }
    if q < n { ModSmall(q, n); } else { DivModUnique(q, n, 1, q - n); }
  }

  /** A failure at operands that strong_mrt passes: for this n the constant it computes as the
      Montgomery form of -1 is not (n - 1) * 2^64 modulo n. */
  lemma MinusOneWraps()
    ensures var n: Limb, np: Limb, r2: Limb := 12322982615183702583, 17161262717514802297, 10155987856062624997;
            && (n * np + 1) % B == 0 && r2 == (B * B) % n
            && MontMul64(n - 1, r2, n, np) != ((n - 1) * B) % n
  {
    var n: Limb, np: Limb, r2: Limb := 12322982615183702583, 17161262717514802297, 10155987856062624997;
    DivModUnique(n * np + 1, B, 11464242214100817997, 0);
    DivModUnique(B * B, n, 27613636856199181373, r2);
    DivModUnique((n - 1) * B, n, 18446744073709551614, 6199221156657853550);
    DivModUnique((n - 1) * r2, B, 6784506864202895236, 7833582626064140878);
    DivModUnique(7833582626064140878 * np, B, 7287690929525221843, 17570607508866848478);
    DivModUnique(17570607508866848478 * n, B, 11737696907638660896, 10613161447645410738);
    DivModUnique((n - 1) * r2 + 17570607508866848478 * n, B, 18522203771841556133, 0);
    assert MontMul64(n - 1, r2, n, np) == 75459698132004517;
  }
}
