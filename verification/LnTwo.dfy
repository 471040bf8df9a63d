/** The constant log2(e) of new_src/pow_q48.c against ln 2 itself, given by its series
    2 (1/3 + 1/(3 * 3^3) + 1/(5 * 3^5) + ...). */
module LnTwo {
  import opened NumberTheory
  import opened Q48Log
  import opened Q48

  /** 3 to the power -(2 j + 1). */
  function Thirds(j: nat): (r: real)
    ensures r > 0.0
  {
    if j == 0 then 1.0 / 3.0 else Thirds(j - 1) / 9.0
  }

  function Term(j: nat): real { 2.0 * Thirds(j) / (2 * j + 1) as real }

  /** The sum of the first m terms. */
  function Under(m: nat): real { if m == 0 then 0.0 else Under(m - 1) + Term(m - 1) }

  /** That sum, and a geometric series instead of the rest. */
  function Over(m: nat): real { Under(m) + 9.0 / 8.0 * Term(m) }

  lemma QuotientFalls(x: real, a: real, b: real)
    requires x > 0.0 && 0.0 < a <= b
    ensures 0.0 < x / b <= x / a
  {
    assert x / a - x / b == x * (b - a) / (a * b);
  }

  lemma TermFalls(j: nat)
    ensures 0.0 < Term(j + 1) <= Term(j) / 9.0
  {
    var x := 2.0 * Thirds(j + 1);
    QuotientFalls(x, (2 * j + 1) as real, (2 * j + 3) as real);
    assert Term(j) / 9.0 == x / (2 * j + 1) as real;
  }

  /** The brackets of ln 2 are nested. */
  lemma {:induction false} Nested(a: nat, b: nat)
    requires a <= b
    ensures Under(a) <= Under(b) < Over(b) <= Over(a)
    decreases b - a
  {
    hide Term;
    if a < b {
      Nested(a, b - 1);
      TermFalls(b - 1);
    }
    TermFalls(a);
  }

  // The partial sums, a few terms at a time.

  lemma Sum6()
    ensures Thirds(6) == 1.0 / 1594323.0
    ensures Under(6) == 15757912.0
                         / 22733865.0
  {
  }

  lemma Sum12()
    ensures Thirds(12) == 1.0 / 847288609443.0
    ensures Under(12) == 346617686907988864.0
                         / 500063617986634845.0
  {
    Sum6();
  }

  lemma Sum16()
    ensures Thirds(16) == 1.0 / 5559060566555523.0
    ensures Under(16) == 10222343103897452720952704.0
                         / 14747723702258348925112275.0
  {
    Sum12();
  }

  lemma Sum20()
    ensures Thirds(20) == 1.0 / 36472996377170786403.0
    ensures Under(20) == 52112452242329513449286024495168.0
                         / 75182376418571730210283091385675.0
  {
    Sum16();
  }

  lemma Sum24()
    ensures Thirds(24) == 1.0 / 239299329230617529590083.0
    ensures Under(24) == 9443662622785393135066238615529291327296.0
                         / 13624325233720948163518982443619506174725.0
  {
    Sum20();
  }

  lemma Sum28()
    ensures Thirds(28) == 1.0 / 1570042899082081611640534563.0
    ensures Under(28) == 22987111943663231777251924799337937713453181696.0
                         / 33163392405482405274214624254469992184589538975.0
  {
    Sum24();
  }

  lemma Sum32()
    ensures Thirds(32) == 1.0 / 10301051460877537453973547267843.0
    ensures Under(32) == 4885160137407771253400601118182930934216597868939146496.0
                         / 7047796304186638645984520552020312648059671845278255225.0
  {
    Sum28();
  }

  lemma Sum36()
    ensures Thirds(36) == 1.0 / 67585198634817523235520443624317923.0
    ensures Under(36) == 16941017237989951764419034789494113403612286454845999015618368.0
                         / 24440721556862547388393357549885297277511677187663733216781925.0
  {
    Sum32();
  }

  /** 2^112. */
  const UNIT: real := 0x1_0000_0000_0000_0000_0000_0000_0000 as real

  /** The constant is 2^112 / ln 2 rounded down: every bracket from the 36th on lies strictly
      between 2^112 / (LOG2E112 + 1) and 2^112 / LOG2E112. */
  lemma LogConstant(m: nat)
    requires m >= 36
    ensures LOG2E112 as real * Over(m) < UNIT < (LOG2E112 + 1) as real * Under(m)
  {
    hide Thirds, Under;
    Sum36();
    Nested(36, m);
  }

  /** The merit of the gap is not cut to 64 bits. */
  predicate Untruncated(start: nat, gap: nat)
    requires start >= 2
  {
    var l := Log2(start, 64);
    l > 0 && gap * LOG2E112 / l < W
  }

  /** The merit is gap / ln(start) in units of 2^-48, rounded down: with l for the logarithm to
      base 2 in units of 2^-64, merit * l * ln 2 does not exceed gap * 2^112, and with one more unit
      of merit it does, but for the rounding of the constant. */
  lemma MeritBrackets(start: nat, gap: nat, m: nat)
    requires start >= 2 && Untruncated(start, gap) && m >= 36
    ensures var q, l := Merit(start, start + gap), Log2(start, 64);
            && (q * l) as real * Over(m) <= gap as real * UNIT
            && ((q + 1) * l + gap) as real * Under(m) >= gap as real * UNIT
  {
    hide *;
    MeritIs(start, gap);
    FromBelow(Merit(start, start + gap) * Log2(start, 64), gap, m);
    FromAbove((Merit(start, start + gap) + 1) * Log2(start, 64), gap, m);
  }

  lemma FromBelow(x: nat, gap: nat, m: nat)
    requires x <= gap * LOG2E112 && m >= 36
    ensures x as real * Over(m) <= gap as real * UNIT
  {
    hide *;
    LogConstant(m);
    Positive(m);
    Stretch(x, gap, LOG2E112, Over(m), UNIT);
  }

  lemma FromAbove(x: nat, gap: nat, m: nat)
    requires x >= gap * LOG2E112 && m >= 36
    ensures (x + gap) as real * Under(m) >= gap as real * UNIT
  {
    hide *;
    LogConstant(m);
    Positive(m);
    Shrink(x, gap, LOG2E112, Under(m), UNIT);
  }

  lemma Positive(m: nat)
    ensures Under(m) >= 0.0 && Over(m) >= 0.0
  {
    Nested(0, m);
    assert Under(0) == 0.0;
  }

  lemma Stretch(x: nat, g: nat, c: int, o: real, top: real)
    requires x <= g * c && o >= 0.0 && c as real * o <= top
    ensures x as real * o <= g as real * top
  {
    Times(x as real, (g * c) as real, o);
    Times(c as real * o, top, g as real);
    assert (g * c) as real == g as real * c as real;
  }

  lemma Shrink(x: nat, g: nat, c: int, u: real, top: real)
    requires x >= g * c && u >= 0.0 && (c + 1) as real * u >= top
    ensures (x + g) as real * u >= g as real * top
  {
    assert x + g >= g * (c + 1);
    Times((g * (c + 1)) as real, (x + g) as real, u);
    Times(top, (c + 1) as real * u, g as real);
    assert (g * (c + 1)) as real == g as real * (c + 1) as real;
  }

  lemma Times(a: real, b: real, k: real)
    requires a <= b && k >= 0.0
    ensures a * k <= b * k
  {
  }

  lemma MeritIs(start: nat, gap: nat)
    requires start >= 2 && Untruncated(start, gap)
    ensures var q, l := Merit(start, start + gap), Log2(start, 64);
            q * l <= gap * LOG2E112 < (q + 1) * l
  {
    hide Log2;
    var l := Log2(start, 64);
    MulLe(0, gap, LOG2E112);
    DivNonNegative(gap * LOG2E112, l);
    Low64Exact(gap * LOG2E112 / l);
    Quotient(gap * LOG2E112, l);
  }

  lemma Quotient(a: int, l: int)
    requires l >= 1
    ensures a / l * l <= a < (a / l + 1) * l
  {
    assert (a / l + 1) * l == a / l * l + l;
  }
}
