/** The truncated fixed-point logarithm of new_src/pow_q48.c: square-and-shift, bit by bit,
    with truncation after every squaring. */
module Q48Log {
  import opened NumberTheory
  import opened Bits

  /** After k squarings: the truncated mantissa n, scaled by 2^shift and normalised to [1, 2),
      and the k fractional bits found so far below the integer part of the logarithm. */
  datatype LogState = LogState(n: nat, hi: nat)

  function Two(e: nat): (p: int)
    ensures p >= 1
  {
    PowPositive(2, e);
    Pow(2, e)
  }

  function Shift(src: nat, accuracy: nat): nat
    requires src > 0
  {
    accuracy + (BitLength(src) - 1)
  }

  /** The truncated square of the mantissa. */
  function Squared(n: nat, scale: int): nat
    requires scale >= 1
  {
    MulLe(0, n, n);
    n * n / scale
  }

  function Step(s: LogState, scale: int): LogState
    requires scale >= 1
  {
    var sq := Squared(s.n, scale);
    if sq / scale < 2 then LogState(sq, 2 * s.hi) else LogState(sq / 2, 2 * s.hi + 1)
  }

  function After(src: nat, accuracy: nat, k: nat): LogState
    requires src > 0
  {
    if k == 0 then LogState(src * Two(accuracy), BitLength(src) - 1)
    else Step(After(src, accuracy, k - 1), Two(Shift(src, accuracy)))
  }

  /** The value q48_mpz_log2 computes: log2(src) * 2^accuracy, truncated on the way. */
  function Log2(src: nat, accuracy: nat): nat
    requires src > 0
  {
    After(src, accuracy, accuracy).hi
  }

  // ------------------------------------------------------------- the loops compute Log2

  lemma TwoStep(e: nat)
    ensures Two(e + 1) == 2 * Two(e) && Two(0) == 1
  {
  }

  lemma SquareRange(n: nat, scale: int)
    requires scale >= 1 && scale <= n < 2 * scale
    ensures scale <= Squared(n, scale) < 4 * scale
    ensures Squared(n, scale) / scale < 2 <==> Squared(n, scale) < 2 * scale
  {
    MulLe(scale, n, n);
    MulLe(scale, n, scale);
    MulLt(n, 2 * scale, n);
    MulLt(n, 2 * scale, 2 * scale);
    assert (2 * scale) * (2 * scale) == (4 * scale) * scale;
    DivBetween(n * n, scale, scale, 4 * scale);
    var sq := Squared(n, scale);
    if sq < 2 * scale { DivBetween(sq, scale, 1, 2); } else { DivBetween(sq, scale, 2, 4); }
  }

  /** A mantissa in [1, 2) stays there. */
  lemma StepNormal(s: LogState, scale: int)
    requires scale >= 1 && scale <= s.n < 2 * scale
    ensures scale <= Step(s, scale).n < 2 * scale
  {
    hide Squared;
    SquareRange(s.n, scale);
  }

  lemma DivBetween(v: int, d: int, lo: int, hi: int)
    requires d >= 1 && lo * d <= v < hi * d
    ensures lo <= v / d < hi
  {
    if v / d < lo { MulLe(v / d + 1, lo, d); }
    if v / d >= hi { MulLe(hi, v / d, d); }
  }

  lemma {:induction false} AfterNormal(src: nat, accuracy: nat, k: nat)
    requires src > 0
    ensures var scale := Two(Shift(src, accuracy));
            scale <= After(src, accuracy, k).n < 2 * scale
  {
    hide Pow, Two, BitLength, Squared, Step;
    if k == 0 {
      StartNormal(src, accuracy);
    } else {
      AfterNormal(src, accuracy, k - 1);
      StepNormal(After(src, accuracy, k - 1), Two(Shift(src, accuracy)));
    }
  }

  lemma StartNormal(src: nat, accuracy: nat)
    requires src > 0
    ensures var scale := Two(Shift(src, accuracy));
            scale <= src * Two(accuracy) < 2 * scale
  {
    hide Pow, BitLength;
    BitLengthBounds(src);
    var l := BitLength(src) - 1;
    PowAdd(2, accuracy, l);
    TwoStep(l);
    MulLe(Two(l), src, Two(accuracy));
    MulLt(src, 2 * Two(l), Two(accuracy));
  }

  /** q48_mpz_log2: the nested loops end after accuracy + 1 squarings with Log2(src, accuracy). */
  method Log2Loop(src: nat, accuracy: nat) returns (out: nat, ghost squarings: nat)
    requires src > 0
    ensures out == Log2(src, accuracy) && squarings == accuracy + 1
  {
    hide Two, BitLength, Squared;
    var n := src;
    out := BitLength(src) - 1;
    var shift := accuracy + out;
    var scale := Two(shift);
    out := out * Two(accuracy);
    n := n * Two(accuracy);
    var bits := 0;
    while true
      invariant bits <= accuracy && scale == Two(Shift(src, accuracy))
      invariant n == After(src, accuracy, bits).n
      invariant out == After(src, accuracy, bits).hi * Two(accuracy - bits)
      decreases accuracy - bits
    {
      AfterNormal(src, accuracy, bits);
      ghost var start := bits;
      var tmp := n / scale;
      DivBetween(n, scale, 1, 2);
      while tmp < 2 && bits <= accuracy
        invariant start <= bits <= accuracy + 1 && tmp == n / scale
        invariant bits == start ==> tmp < 2
        invariant tmp < 2 && bits <= accuracy ==>
            n == After(src, accuracy, bits).n && out == After(src, accuracy, bits).hi * Two(accuracy - bits)
        invariant tmp >= 2 && bits <= accuracy ==>
            && bits > 0 && n == Squared(After(src, accuracy, bits - 1).n, scale)
            && out == 2 * After(src, accuracy, bits - 1).hi * Two(accuracy - bits)
        invariant bits == accuracy + 1 ==> out == After(src, accuracy, accuracy).hi
        decreases accuracy + 1 - bits
      {
        OutStep(After(src, accuracy, bits).hi, accuracy, bits);
        n := Squared(n, scale);
        tmp := n / scale;
        bits := bits + 1;
      }
      if bits > accuracy { break; }
      BitAdds(After(src, accuracy, bits - 1).hi, Two(accuracy - bits));
      out := out + Two(accuracy - bits);
      n := n / 2;
    }
    squarings := bits;
  }

  lemma OutStep(hi: nat, a: nat, bits: nat)
    requires bits <= a
    ensures bits < a ==> hi * Two(a - bits) == 2 * hi * Two(a - bits - 1)
    ensures bits == a ==> hi * Two(a - bits) == hi
  {
    if bits < a { TwoStep(a - bits - 1); }
  }

  lemma BitAdds(hi: nat, p: int)
    ensures 2 * hi * p + p == (2 * hi + 1) * p
  {
  }

  // ---------------------------------------------------------------- what Log2 is worth

  /** src^(2^k) by repeated squaring. */
  function Tower(src: nat, k: nat): nat {
    if k == 0 then src else (var t := Tower(src, k - 1); MulLe(0, t, t); t * t)
  }

  lemma {:induction false} TowerIsPower(src: nat, k: nat)
    ensures Tower(src, k) == Pow(src, Two(k))
  {
    if k == 0 {
      TwoStep(0);
      assert Pow(src, 1) == src * Pow(src, 0);
    } else {
      TowerIsPower(src, k - 1);
      TwoStep(k - 1);
      PowAdd(src, Two(k - 1), Two(k - 1));
    }
  }

  /** Truncation only ever loses: mantissa times 2^hi stays below src^(2^k). */
  lemma {:induction false} LowerInvariant(src: nat, accuracy: nat, k: nat)
    requires src > 0
    ensures var s := After(src, accuracy, k);
            Two(s.hi) * s.n <= Tower(src, k) * Two(Shift(src, accuracy))
  {
    hide Pow, Two, BitLength, Step;
    var scale := Two(Shift(src, accuracy));
    if k == 0 {
      StartExact(src, accuracy);
    } else {
      LowerInvariant(src, accuracy, k - 1);
      var s := After(src, accuracy, k - 1);
      LowerStep(s, scale, Tower(src, k - 1));
    }
  }

  /** Before the first squaring nothing has been lost. */
  lemma StartExact(src: nat, accuracy: nat)
    requires src > 0
    ensures Two(BitLength(src) - 1) * (src * Two(accuracy)) == src * Two(Shift(src, accuracy))
  {
    hide Pow, BitLength;
    var l := BitLength(src) - 1;
    PowAdd(2, accuracy, l);
    assert Two(l) * (src * Two(accuracy)) == src * (Two(accuracy) * Two(l));
  }

  lemma LowerStep(s: LogState, scale: int, x: nat)
    requires scale >= 1 && Two(s.hi) * s.n <= x * scale
    ensures Two(Step(s, scale).hi) * Step(s, scale).n <= (x * x) * scale
  {
    hide Two, Squared;
    var p, n := Two(s.hi), s.n;
    var sq := Squared(n, scale);
    SquaredFloor(n, scale);
    DoubleHi(s.hi);
    SquareBoth(p, n, x, scale);
    // (p * p) * sq * scale <= (p * p) * (n * n) <= (x * x) * scale * scale
    MulLe(sq * scale, n * n, p * p);
    assert (p * p) * (sq * scale) == ((p * p) * sq) * scale;
    CancelScale((p * p) * sq, (x * x) * scale, scale);
    assert (2 * (p * p)) * (sq / 2) == (p * p) * (2 * (sq / 2));
    MulLe(2 * (sq / 2), sq, p * p);
  }

  lemma SquaredFloor(n: nat, scale: int)
    requires scale >= 1
    ensures Squared(n, scale) * scale <= n * n < (Squared(n, scale) + 1) * scale
  {
    assert n * n == (n * n / scale) * scale + (n * n) % scale;
  }

  lemma DoubleHi(hi: nat)
    ensures Two(2 * hi) == Two(hi) * Two(hi)
    ensures Two(2 * hi + 1) == 2 * (Two(hi) * Two(hi))
  {
    PowAdd(2, hi, hi);
  }

  lemma SquareBoth(p: nat, n: nat, x: nat, scale: nat)
    requires p * n <= x * scale
    ensures (p * p) * (n * n) <= ((x * x) * scale) * scale
  {
    var a, b := p * n, x * scale;
    MulLe(0, p, n);
    MulLe(a, b, a);
    MulLe(a, b, b);
    MulShuffle(p, p, n, n);
    MulShuffle(x, x, scale, scale);
    assert (x * x) * (scale * scale) == ((x * x) * scale) * scale;
  }

  lemma CancelScale(a: int, b: int, scale: int)
    requires scale >= 1 && a * scale <= b * scale
    ensures a <= b
  {
    if a > b { MulLt(b, a, scale); }
  }

  /** The result never exceeds the exact logarithm: 2^Log2 <= src^(2^accuracy). */
  lemma Log2NeverExceeds(src: nat, accuracy: nat)
    requires src > 0
    ensures Pow(2, Log2(src, accuracy)) <= Pow(src, Two(accuracy))
  {
    hide Pow, Step;
    var s := After(src, accuracy, accuracy);
    var scale := Two(Shift(src, accuracy));
    LowerInvariant(src, accuracy, accuracy);
    AfterNormal(src, accuracy, accuracy);
    TowerIsPower(src, accuracy);
    MulLe(scale, s.n, Two(s.hi));
    CancelScale(Two(s.hi), Tower(src, accuracy), scale);
  }

  // ------------------------------------------------------- how much truncation can lose

  /** Exponent of the accumulated relative error (1 + 1/scale) after k squarings. */
  function Err(k: nat): nat {
    if k == 0 then 0 else 2 * Err(k - 1) + 2
  }

  lemma {:induction false} ErrIs(k: nat)
    ensures Err(k) == 2 * Two(k) - 2
  {
    TwoStep(0);
    if k > 0 {
      ErrIs(k - 1);
      TwoStep(k - 1);
    }
  }

  /** (N + 1)^e * (N - e) <= N^e * N, so for e <= N / 2 the error factor is at most 2. */
  lemma {:induction false} Bernoulli(n: int, e: nat)
    requires n >= 1 && e <= n
    ensures Pow(n + 1, e) * (n - e) <= Pow(n, e) * n
  {
    if e > 0 {
      Bernoulli(n, e - 1);
      PowPositive(n + 1, e - 1);
      BernoulliArith(n, n - e, Pow(n + 1, e - 1), Pow(n, e - 1));
    }
  }

  lemma BernoulliArith(n: int, d: int, c: int, a: int)
    requires 0 <= d < n && c >= 0 && c * (d + 1) <= a * n
    ensures ((n + 1) * c) * d <= (n * a) * n
  {
    assert (n + 1) * d == n * d + d && n * (d + 1) == n * d + n;
    MulLe((n + 1) * d, n * (d + 1), c);
    Swap(c, n + 1, d);
    Swap(c, n, d + 1);
    MulLe(c * (d + 1), a * n, n);
    Swap(n, a, n);
  }

  lemma Swap(c: int, x: int, y: int)
    ensures c * (x * y) == (x * c) * y == x * (c * y) == (c * x) * y
  {
  }

  lemma ErrorFactor(n: int, e: nat)
    requires n >= 1 && 2 * e <= n
    ensures Pow(n + 1, e) <= 2 * Pow(n, e)
  {
    hide Pow;
    Bernoulli(n, e);
    PowPositive(n, e);
    MulLe(n, 2 * (n - e), Pow(n, e));
    assert Pow(n, e) * (2 * (n - e)) == (2 * Pow(n, e)) * (n - e);
    CancelScale(Pow(n + 1, e), 2 * Pow(n, e), n - e);
  }

  /** One truncated squaring loses at most the factor (1 + 1/scale)^2. */
  lemma MantissaStep(n: nat, scale: int)
    requires scale >= 1 && scale <= n < 2 * scale
    ensures var sq := Squared(n, scale);
            var m := if sq / scale < 2 then sq else 2 * (sq / 2);
            n * n * scale <= m * ((scale + 1) * (scale + 1))
  {
    hide Squared;
    SquareRange(n, scale);
    SquaredFloor(n, scale);
    var sq := Squared(n, scale);
    var m := if sq / scale < 2 then sq else 2 * (sq / 2);
    MantissaArith(n * n, sq, m, scale);
  }

  lemma MantissaArith(n2: int, sq: int, m: int, scale: int)
    requires scale >= 1 && n2 < (sq + 1) * scale && scale <= m <= sq <= m + 1
    ensures n2 * scale <= m * ((scale + 1) * (scale + 1))
  {
    assert (sq + 1) * scale == sq * scale + scale && sq * (scale + 1) == sq * scale + sq;
    assert m * (scale + 1) == m * scale + m;
    MulLe(sq, m + 1, scale);
    assert (m + 1) * scale == m * scale + scale;
    MulLe(n2, sq * (scale + 1), scale);
    MulLe(sq * scale, m * (scale + 1), scale + 1);
    assert (sq * (scale + 1)) * scale == (sq * scale) * (scale + 1);
    assert (m * (scale + 1)) * (scale + 1) == m * ((scale + 1) * (scale + 1));
  }

  lemma UpperArith(x: nat, n: nat, p: nat, a: nat, c: nat, scale: int, m: nat)
    requires scale >= 1 && (x * scale) * a <= (n * p) * c
    requires n * n * scale <= m * ((scale + 1) * (scale + 1))
    ensures ((x * x) * scale) * (a * a * (scale * scale)) <= (m * (p * p)) * (c * c * ((scale + 1) * (scale + 1)))
  {
    var l, r := (x * scale) * a, (n * p) * c;
    MulLe(0, x, scale);
    MulLe(0, x * scale, a);
    MulLe(0, n, p);
    MulLe(0, n * p, c);
    MulLe(l, r, l);
    MulLe(l, r, r);
    MulLe(l * l, r * r, scale);
    MulShuffle(x * scale, a, x * scale, a);
    MulShuffle(x, scale, x, scale);
    MulShuffle(n * p, c, n * p, c);
    MulShuffle(n, p, n, p);
    var s2 := scale * scale;
    assert l * l == ((x * x) * s2) * (a * a);
    assert r * r == ((n * n) * (p * p)) * (c * c);
    Regroup(x * x, s2, a * a, scale);
    MulLe(0, p * p, c * c);
    MulLe(n * n * scale, m * ((scale + 1) * (scale + 1)), (p * p) * (c * c));
    assert (((n * n) * (p * p)) * (c * c)) * scale == (n * n * scale) * ((p * p) * (c * c));
    Regroup2(m, (scale + 1) * (scale + 1), p * p, c * c);
  }

  lemma Regroup(x: int, s2: int, a: int, s: int)
    ensures ((x * s2) * a) * s == (x * s) * (a * s2)
  {
    assert ((x * s2) * a) * s == (x * s2) * (a * s);
    MulShuffle(x, s2, s, a);
    assert (x * s2) * (s * a) == (x * s2) * (a * s);
    assert s2 * a == a * s2;
  }

  lemma Regroup2(m: int, t: int, p: int, c: int)
    ensures (m * t) * (p * c) == (m * p) * (c * t)
  {
    MulShuffle(m, t, p, c);
    assert t * c == c * t;
  }

  /** src^(2^k) stays below the mantissa times 2^hi, up to the accumulated error factor. */
  lemma {:induction false} UpperInvariant(src: nat, accuracy: nat, k: nat)
    requires src > 0
    ensures var s, scale := After(src, accuracy, k), Two(Shift(src, accuracy));
            (Tower(src, k) * scale) * Pow(scale, Err(k)) <= (s.n * Two(s.hi)) * Pow(scale + 1, Err(k))
  {
    hide Two, BitLength, Shift;
    var scale := Two(Shift(src, accuracy));
    if k == 0 {
      StartExact(src, accuracy);
      assert Pow(scale, 0) == 1 && Pow(scale + 1, 0) == 1;
    } else {
      UpperInvariant(src, accuracy, k - 1);
      AfterNormal(src, accuracy, k - 1);
      UpperStep(After(src, accuracy, k - 1), scale, Tower(src, k - 1), Err(k - 1));
    }
  }

  lemma UpperStep(s: LogState, scale: int, x: nat, e: nat)
    requires scale >= 1 && scale <= s.n < 2 * scale
    requires (x * scale) * Pow(scale, e) <= (s.n * Two(s.hi)) * Pow(scale + 1, e)
    ensures var t := Step(s, scale);
            ((x * x) * scale) * Pow(scale, 2 * e + 2) <= (t.n * Two(t.hi)) * Pow(scale + 1, 2 * e + 2)
  {
    hide Two, Squared, Pow;
    PowPositive(scale, e);
    PowPositive(scale + 1, e);
    MantissaStep(s.n, scale);
    var sq := Squared(s.n, scale);
    var m := if sq / scale < 2 then sq else 2 * (sq / 2);
    UpperArith(x, s.n, Two(s.hi), Pow(scale, e), Pow(scale + 1, e), scale, m);
    PowTwice(scale, e);
    PowTwice(scale + 1, e);
    DoubleHi(s.hi);
    var p := Two(s.hi) * Two(s.hi);
    assert (2 * (sq / 2)) * p == (sq / 2) * (2 * p);
  }

  lemma PowTwice(b: int, e: nat)
    ensures Pow(b, 2 * e + 2) == Pow(b, e) * Pow(b, e) * (b * b)
  {
    PowAdd(b, e, e);
    PowAdd(b, 2 * e, 2);
    assert Pow(b, 2) == b * Pow(b, 1) && Pow(b, 1) == b * Pow(b, 0);
  }

  /** From 4 on, truncation costs less than two units: src^(2^accuracy) < 2^(Log2 + 2). */
  lemma Log2AlmostReaches(src: nat, accuracy: nat)
    requires src >= 4
    ensures Pow(src, Two(accuracy)) < Pow(2, Log2(src, accuracy) + 2)
  {
    hide Pow, Step, Two, BitLength;
    var s := After(src, accuracy, accuracy);
    var scale := Two(Shift(src, accuracy));
    UpperInvariant(src, accuracy, accuracy);
    AfterNormal(src, accuracy, accuracy);
    TowerIsPower(src, accuracy);
    ScaleRoom(src, accuracy);
    ErrorFactor(scale, Err(accuracy));
    PowPositive(scale, Err(accuracy));
    TopArith(Tower(src, accuracy), s.n, Two(s.hi), Pow(scale, Err(accuracy)), Pow(scale + 1, Err(accuracy)), scale);
    TwoStep(s.hi);
    TwoStep(s.hi + 1);
    TwoIsPow(s.hi + 2);
  }

  lemma TwoIsPow(e: nat)
    ensures Two(e) == Pow(2, e)
  {
  }

  lemma ScaleRoom(src: nat, accuracy: nat)
    requires src >= 4
    ensures 2 * Err(accuracy) <= Two(Shift(src, accuracy))
  {
    ErrIs(accuracy);
    assert BitLength(src) >= 3;
    PowAdd(2, accuracy, 2);
    assert Pow(2, 2) == 4;
    PowMonotone(2, accuracy + 2, Shift(src, accuracy));
  }

  lemma TopArith(x: nat, n: nat, p: int, a: int, c: int, scale: int)
    requires scale >= 1 && a >= 1 && p >= 1 && n < 2 * scale && c <= 2 * a
    requires (x * scale) * a <= (n * p) * c
    ensures x < 4 * p
  {
    MulLe(0, n, p);
    MulLe(c, 2 * a, n * p);
    MulLt(n, 2 * scale, p);
    MulLt(n * p, (2 * scale) * p, 2 * a);
    assert ((2 * scale) * p) * (2 * a) == ((4 * p) * scale) * a;
    if x >= 4 * p {
      MulLe(4 * p, x, scale);
      MulLe((4 * p) * scale, x * scale, a);
    }
  }

  // -------------------------------------------------------------------- monotonicity

  /** s lies below t: fewer logarithm bits, or as many and no larger mantissa. */
  ghost predicate Below(s: LogState, t: LogState) {
    s.hi < t.hi || (s.hi == t.hi && s.n <= t.n)
  }

  /** Squaring keeps the order of two states with the same scale. */
  lemma StepMonotone(s: LogState, t: LogState, scale: int)
    requires scale >= 1 && Below(s, t)
    ensures Below(Step(s, scale), Step(t, scale))
  {
    hide Squared;
    if s.hi == t.hi {
      SquaredMonotone(s.n, t.n, scale);
      DivMonotone(Squared(s.n, scale), Squared(t.n, scale), scale);
    }
  }

  lemma SquaredMonotone(a: nat, b: nat, scale: int)
    requires scale >= 1 && a <= b
    ensures Squared(a, scale) <= Squared(b, scale)
  {
    MulLe(a, b, a);
    MulLe(a, b, b);
    DivMonotone(a * a, b * b, scale);
  }

  lemma DivMonotone(a: int, b: int, d: int)
    requires d >= 1 && a <= b
    ensures a / d <= b / d
  {
    if b / d < a / d { MulLe(b / d + 1, a / d, d); }
  }

  lemma {:induction false} AfterMonotone(src: nat, src': nat, accuracy: nat, k: nat)
    requires 0 < src <= src'
    ensures BitLength(src) == BitLength(src') ==> Below(After(src, accuracy, k), After(src', accuracy, k))
    ensures BitLength(src) < BitLength(src') ==> After(src, accuracy, k).hi < After(src', accuracy, k).hi
  {
    hide Squared, Pow, BitLength;
    if k == 0 {
      MulLe(src, src', Two(accuracy));
    } else {
      AfterMonotone(src, src', accuracy, k - 1);
      if BitLength(src) == BitLength(src') {
        StepMonotone(After(src, accuracy, k - 1), After(src', accuracy, k - 1), Two(Shift(src, accuracy)));
      }
    }
  }

  lemma {:induction false} BitLengthMonotone(a: nat, b: nat)
    requires a <= b
    ensures BitLength(a) <= BitLength(b)
  {
    if a > 0 { BitLengthMonotone(a / 2, b / 2); }
  }

  /** The truncated logarithm is monotone. */
  lemma Log2Monotone(src: nat, src': nat, accuracy: nat)
    requires 0 < src <= src'
    ensures Log2(src, accuracy) <= Log2(src', accuracy)
  {
    BitLengthMonotone(src, src');
    AfterMonotone(src, src', accuracy, accuracy);
  }
}
