/** Report thresholds: ceilings, natural logarithms and the integer jump threshold derived
    from a real merit bound (new_src/gap_hunt.c). */
module Merit {

  function Ceil(x: real): (c: int)
    ensures c as real - 1.0 < x <= c as real
  {
    -((-x).Floor)
  }

  /** The step threshold of one window: ceil(minMerit * ln(base)), at least 1. */
  function StepThreshold(minMerit: real, lnBase: real): (t: nat)
    ensures t >= 1
  {
    var t := Ceil(minMerit * lnBase);
    if t < 1 then 1 else t
  }

  /** A logarithm, as far as the gates rely on it: positive and monotone from 2 on. */
  ghost predicate IsLog(ln: nat -> real) {
    forall x: nat, y: nat :: 2 <= x <= y ==> 0.0 < ln(x) <= ln(y)
  }

  /** The report gate: gap / ln(start) reaches the merit bound. */
  predicate Qualifies(gap: int, lnStart: real, minMerit: real)
    requires lnStart > 0.0
  {
    gap as real / lnStart >= minMerit
  }

  /** A gap that qualifies at a start beyond the window base also reaches the window's step
      threshold. */
  lemma QualifiesReachesStep(gap: int, ln: nat -> real, base: nat, start: nat, minMerit: real)
    requires IsLog(ln) && 2 <= base <= start && minMerit >= 0.0
    requires gap >= 1 && Qualifies(gap, ln(start), minMerit)
    ensures gap >= StepThreshold(minMerit, ln(base))
  {
    assert minMerit * (ln(start) - ln(base)) >= 0.0;
  }
}
