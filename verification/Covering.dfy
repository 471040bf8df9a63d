/** The cover search (new_src/covering.c): how many positions a residue vector leaves uncovered,
    the local search steps, and the two optimizers around them. */
module Covering {
  import opened Wrappers
  import opened Marking
  import opened Cover

  const TWO32: nat := 0x1_0000_0000

  /** The switches of the two optimizers.  `blocks` holds, for the expected-blocks objective, the
      scaled penalty of a survivor as a function of the covered run after it. */
  datatype Objective = Objective(run: bool, lex: bool, blocks: Option<nat -> nat>)

  // ------------------------------------------------------------------ tables

  /** Unmarked positions of a table in [1, n). */
  function Free(c: seq<bool>, n: nat): nat
    requires n <= |c|
  {
    if n <= 1 then 0 else Free(c, n - 1) + if c[n - 1] then 0 else 1
  }

  /** Unmarked positions in [1, n) that residue r of p would cover. */
  function Gain(c: seq<bool>, p: nat, r: nat, n: nat): nat
    requires n <= |c| && p > 0
  {
    if n <= 1 then 0 else Gain(c, p, r, n - 1) + if !c[n - 1] && Divides(p, r, n - 1) then 1 else 0
  }

  /** Length of the marked run that ends before position j. */
  function RunTo(c: seq<bool>, j: nat): nat
    requires j <= |c|
  {
    if j <= 1 || !c[j - 1] then 0 else 1 + RunTo(c, j - 1)
  }

  /** Longest marked run inside [1, n). */
  function Longest(c: seq<bool>, n: nat): (m: nat)
    requires n <= |c|
    ensures m <= n
  {
    if n <= 1 then 0
    else
      RunToBound(c, n);
      var m := Longest(c, n - 1);
      if RunTo(c, n) > m then RunTo(c, n) else m
  }

  /** Length of the marked run that starts at position j. */
  function RunFrom(c: seq<bool>, j: nat): nat
    requires j <= |c|
    decreases |c| - j
  {
    if j == |c| || !c[j] then 0 else 1 + RunFrom(c, j + 1)
  }

  /** Penalties of the unmarked positions in [1, n). */
  function Cost(c: seq<bool>, penalty: nat -> nat, n: nat): nat
    requires n <= |c|
  {
    if n <= 1 then 0 else Cost(c, penalty, n - 1) + if c[n - 1] then 0 else penalty(RunFrom(c, n))
  }

  lemma {:induction false} RunToBound(c: seq<bool>, j: nat)
    requires j <= |c|
    ensures RunTo(c, j) <= j
  {
    if j > 1 && c[j - 1] { RunToBound(c, j - 1); }
  }

  /** How many positions a residue vector leaves uncovered. */
  ghost function Surviving(ps: seq<nat>, rs: seq<nat>, n: nat): nat
    requires |ps| == |rs|
  {
    |Uncovered(ps, rs, n)|
  }

  /** c is the table of what the vector covers. */
  ghost predicate IsTable(ps: seq<nat>, rs: seq<nat>, c: seq<bool>)
    requires |ps| == |rs|
  {
    forall j :: 1 <= j < |c| ==> c[j] == Covered(ps, rs, |ps|, j)
  }

  lemma {:induction false} TableCounts(ps: seq<nat>, rs: seq<nat>, c: seq<bool>, n: nat)
    requires |ps| == |rs| && IsTable(ps, rs, c) && n <= |c|
    ensures Surviving(ps, rs, n) == Free(c, n)
  {
    hide Covered;
    if n > 1 { TableCounts(ps, rs, c, n - 1); }
  }

  /** Position j is covered by one of the first k primes other than prime i. */
  ghost predicate CoveredBut(ps: seq<nat>, rs: seq<nat>, i: nat, k: nat, j: nat)
    requires k <= |ps| == |rs|
  {
    exists x :: 0 <= x < k && x != i && ps[x] > 0 && Divides(ps[x], rs[x], j)
  }

  /** c is the table of what the vector covers without its residue i. */
  ghost predicate IsTableBut(ps: seq<nat>, rs: seq<nat>, i: nat, c: seq<bool>)
    requires |ps| == |rs|
  {
    forall j :: 1 <= j < |c| ==> c[j] == CoveredBut(ps, rs, i, |ps|, j)
  }

  lemma WithResidue(ps: seq<nat>, rs: seq<nat>, i: nat, r: nat, j: nat)
    requires i < |ps| == |rs| && ps[i] > 0
    ensures Covered(ps, rs[i := r], |ps|, j) <==> CoveredBut(ps, rs, i, |ps|, j) || Divides(ps[i], r, j)
  {
    hide Divides;
    var rs' := rs[i := r];
    if Covered(ps, rs', |ps|, j) {
      var x :| 0 <= x < |ps| && ps[x] > 0 && Divides(ps[x], rs'[x], j);
    }
    if CoveredBut(ps, rs, i, |ps|, j) {
      var x :| 0 <= x < |ps| && x != i && ps[x] > 0 && Divides(ps[x], rs[x], j);
      assert Divides(ps[x], rs'[x], j);
    }
    assert rs'[i] == r;
  }

  /** Replacing one residue: the survivors are the free positions without that prime, less what
      the new residue gains. */
  lemma {:induction false} Replacement(ps: seq<nat>, rs: seq<nat>, i: nat, c: seq<bool>, r: nat, n: nat)
    requires i < |ps| == |rs| && ps[i] > 0 && IsTableBut(ps, rs, i, c) && n <= |c|
    ensures Gain(c, ps[i], r, n) <= Free(c, n)
    ensures Surviving(ps, rs[i := r], n) == Free(c, n) - Gain(c, ps[i], r, n)
  {
    hide Covered, CoveredBut, Divides;
    if n > 1 {
      Replacement(ps, rs, i, c, r, n - 1);
      WithResidue(ps, rs, i, r, n - 1);
    }
  }

  /** Nothing is gained between two hits. */
  lemma {:induction false} GainSkips(c: seq<bool>, p: nat, r: nat, a: nat, b: nat)
    requires p > 0 && 1 <= a <= b <= |c| && forall j :: a <= j < b ==> !Divides(p, r, j)
    ensures Gain(c, p, r, b) == Gain(c, p, r, a)
    decreases b - a
  {
    hide Divides;
    if a < b { GainSkips(c, p, r, a, b - 1); }
  }

  // ------------------------------------------------------------------ reading tables

  /** count_cover. */
  method CountCover(c: array<bool>, p: nat, r: nat) returns (n: nat)
    requires p > 0
    ensures n == Gain(c[..], p, r, c.Length)
  {
    hide Divides;
    n := 0;
    ghost var t := c[..];
    var j := FirstHit(p, r);
    if j <= c.Length { GainSkips(t, p, r, 1, j); } else if c.Length > 0 { GainSkips(t, p, r, 1, c.Length); }
    while j < c.Length
      invariant j > 0 && Divides(p, r, j)
      invariant j <= c.Length ==> n == Gain(t, p, r, j)
      invariant j > c.Length ==> n == Gain(t, p, r, c.Length)
      decreases c.Length - j
    {
      if !c[j] { n := n + 1; }
      NextMultiple(r, j, p);
      GainSkips(t, p, r, j + 1, if j + p <= c.Length then j + p else c.Length);
      j := j + p;
    }
  }

  /** count_survivors. */
  method CountSurvivors(c: array<bool>) returns (s: nat)
    ensures s == Free(c[..], c.Length)
  {
    s := 0;
    var j := 1;
    while j < c.Length
      invariant 1 <= j && (j <= c.Length || c.Length == 0)
      invariant s == if c.Length == 0 then 0 else Free(c[..], j)
    {
      if !c[j] { s := s + 1; }
      j := j + 1;
    }
  }

  /** covered_stats: longest marked run and number of free positions. */
  method CoveredStats(c: array<bool>) returns (longest: nat, surv: nat)
    ensures longest == Longest(c[..], c.Length) && surv == Free(c[..], c.Length)
  {
    longest, surv := 0, 0;
    if c.Length <= 1 { return; }
    ghost var t := c[..];
    var j := 1;
    while j < c.Length
      invariant 1 <= j <= c.Length && surv == Free(t, j) && longest == Longest(t, j)
      invariant j < c.Length && c[j] ==> RunTo(t, j) == 0
    {
      if !c[j] {
        surv := surv + 1;
        j := j + 1;
      } else {
        var s := j;
        ghost var was := longest;
        while j < c.Length && c[j]
          invariant s <= j <= c.Length && RunTo(t, j) == j - s
          invariant surv == Free(t, j) && Longest(t, j) == if j - s > was then j - s else was
          invariant j == s ==> c[j]
        {
          j := j + 1;
        }
        var len := j - s;
        if len > longest { longest := len; }
      }
    }
  }

  // ------------------------------------------------------------------ scores

  /** blocks_cost, for penalties given as whole numbers. */
  method BlocksCost(c: array<bool>, penalty: nat -> nat) returns (cost: nat)
    ensures cost == Cost(c[..], penalty, c.Length)
  {
    cost := 0;
    ghost var table := c[..];
    var j := 1;
    while j < c.Length
      invariant 1 <= j && (j <= c.Length || c.Length == 0)
      invariant cost == if c.Length == 0 then 0 else Cost(table, penalty, j)
    {
      if !c[j] {
        var r, t := 0, j + 1;
        while t < c.Length && c[t]
          invariant j + 1 <= t <= c.Length && r + RunFrom(table, t) == RunFrom(table, j + 1)
        {
          t, r := t + 1, r + 1;
        }
        cost := cost + penalty(r);
      }
      j := j + 1;
    }
  }

  /** The encoded score, lower is better; a cost of 2^32 or more loses its high bits. */
  function Encode(o: Objective, longest: nat, surv: nat, cost: nat, n: nat): nat
    requires longest <= n
  {
    if o.blocks.Some? then cost % TWO32 * TWO32 + surv
    else if o.run then (n - longest) * TWO32 + surv
    else if o.lex then surv * TWO32 + (n - longest)
    else surv
  }

  /** Survivors come first in the score. */
  predicate SurvivorsFirst(o: Objective) { o.blocks.None? && !o.run }

  /** In the classic and the lexicographic mode a score that is no larger leaves no more
      survivors. */
  lemma ScoreRanksSurvivors(o: Objective, l: nat, s: nat, l': nat, s': nat, n: nat)
    requires SurvivorsFirst(o) && l <= n && l' <= n < TWO32
    requires Encode(o, l, s, 0, n) <= Encode(o, l', s', 0, n)
    ensures s <= s'
  {
  }

  /** The longest run a residue vector covers inside the gap. */
  ghost function CoveredRun(ps: seq<nat>, rs: seq<nat>, n: nat): nat
    requires |ps| == |rs|
  {
    Longest(Table(ps, rs, n), n)
  }

  /** The better of two vectors: the longer run in the run mode, in which equal runs are decided by
      the survivors, and fewer survivors otherwise, in the lexicographic mode then the longer run. */
  ghost predicate NoWorse(o: Objective, ps: seq<nat>, rs: seq<nat>, rs': seq<nat>, n: nat)
    requires |ps| == |rs| == |rs'|
  {
    var l, l', s, s' := CoveredRun(ps, rs, n), CoveredRun(ps, rs', n), Surviving(ps, rs, n), Surviving(ps, rs', n);
    if o.run then l > l' || (l == l' && s <= s')
    else if o.lex then s < s' || (s == s' && l >= l')
    else s <= s'
  }

  /** Outside the blocks objective the scores order the vectors so. */
  lemma ScoreIsPreference(o: Objective, ps: seq<nat>, rs: seq<nat>, rs': seq<nat>, n: nat)
    requires o.blocks.None? && |ps| == |rs| == |rs'| && 2 <= n < TWO32
    ensures Score(o, ps, rs, n) <= Score(o, ps, rs', n) <==> NoWorse(o, ps, rs, rs', n)
  {
    hide Covered, Longest, Free;
    TableCounts(ps, rs, Table(ps, rs, n), n);
    TableCounts(ps, rs', Table(ps, rs', n), n);
    FreeBound(Table(ps, rs, n), n);
    FreeBound(Table(ps, rs', n), n);
  }

  /** Below 4096 survivors the cost cannot reach 2^32: the scaled penalty is at most 2^20. */
  lemma {:induction false} CostBound(c: seq<bool>, penalty: nat -> nat, n: nat)
    requires n <= |c| && forall r: nat :: penalty(r) <= 0x10_0000
    ensures Cost(c, penalty, n) <= 0x10_0000 * Free(c, n)
    ensures Free(c, n) < 4096 ==> Cost(c, penalty, n) < TWO32
  {
    if n > 1 { CostBound(c, penalty, n - 1); }
  }

  ghost function Score(o: Objective, ps: seq<nat>, rs: seq<nat>, n: nat): nat
    requires |ps| == |rs|
  {
    var c := Table(ps, rs, n);
    Encode(o, Longest(c, n), Surviving(ps, rs, n), if o.blocks.Some? then Cost(c, o.blocks.v, n) else 0, n)
  }

  ghost function Table(ps: seq<nat>, rs: seq<nat>, n: nat): (c: seq<bool>)
    requires |ps| == |rs|
    ensures |c| == n && IsTable(ps, rs, c)
  {
    seq(n, j requires 0 <= j => Covered(ps, rs, |ps|, j))
  }

  lemma {:induction false} SameRuns(c: seq<bool>, d: seq<bool>, n: nat)
    requires n <= |c| == |d| && forall j :: 1 <= j < |c| ==> c[j] == d[j]
    ensures RunTo(c, n) == RunTo(d, n) && Longest(c, n) == Longest(d, n)
  {
    if n > 1 { SameRuns(c, d, n - 1); }
  }

  lemma {:induction false} SameRunFrom(c: seq<bool>, d: seq<bool>, j: nat)
    requires 1 <= j <= |c| == |d| && forall j :: 1 <= j < |c| ==> c[j] == d[j]
    ensures RunFrom(c, j) == RunFrom(d, j)
    decreases |c| - j
  {
    if j < |c| { SameRunFrom(c, d, j + 1); }
  }

  lemma {:induction false} SameCost(c: seq<bool>, d: seq<bool>, penalty: nat -> nat, n: nat)
    requires n <= |c| == |d| && forall j :: 1 <= j < |c| ==> c[j] == d[j]
    ensures Cost(c, penalty, n) == Cost(d, penalty, n)
  {
    if n > 1 {
      SameCost(c, d, penalty, n - 1);
      SameRunFrom(c, d, n);
    }
  }

  /** Every residue of a usable vector lies in 1 to p - 1. */
  ghost predicate Usable(ps: seq<nat>, rs: seq<nat>) {
    |ps| == |rs| && forall i :: 0 <= i < |ps| ==> 1 <= rs[i] < ps[i]
  }

  ghost predicate Primes(ps: seq<nat>) {
    forall i :: 0 <= i < |ps| ==> ps[i] >= 2
  }

  /** eval_solution. */
  method EvalSolution(o: Objective, ps: seq<nat>, rs: seq<nat>, n: nat) returns (score: nat)
    requires |ps| == |rs| && Primes(ps)
    ensures score == Score(o, ps, rs, n)
  {
    hide Covered, Encode;
    var c := CoverTable(ps, rs, n);
    var longest, surv := CoveredStats(c);
    TableCounts(ps, rs, c[..], n);
    SameRuns(c[..], Table(ps, rs, n), n);
    var cost := 0;
    if o.blocks.Some? {
      cost := BlocksCost(c, o.blocks.v);
      SameCost(c[..], Table(ps, rs, n), o.blocks.v, n);
    }
    score := Encode(o, longest, surv, cost, n);
  }

  // ------------------------------------------------------------------ the blocks objective

  /** The cost of a residue vector. */
  ghost function CostOf(penalty: nat -> nat, ps: seq<nat>, rs: seq<nat>, n: nat): nat
    requires |ps| == |rs|
  {
    Cost(Table(ps, rs, n), penalty, n)
  }

  /** A costlier vector gets a higher score. */
  ghost predicate Ranked(o: Objective, ps: seq<nat>, rs: seq<nat>, rs': seq<nat>, n: nat)
    requires |ps| == |rs| == |rs'| && o.blocks.Some?
  {
    CostOf(o.blocks.v, ps, rs, n) < CostOf(o.blocks.v, ps, rs', n) ==> Score(o, ps, rs, n) < Score(o, ps, rs', n)
  }

  /** The scaled penalty of the program is at most 2^20. */
  ghost predicate Scaled(o: Objective) {
    o.blocks.Some? && forall r: nat :: o.blocks.v(r) <= 0x10_0000
  }

  /** Usable vectors of a gap below 2^32 with fewer than `bound` survivors. */
  ghost predicate Compared(o: Objective, ps: seq<nat>, rs: seq<nat>, rs': seq<nat>, n: nat, bound: nat) {
    && Scaled(o) && 2 <= n < TWO32 && Usable(ps, rs) && Usable(ps, rs')
    && Surviving(ps, rs, n) < bound && Surviving(ps, rs', n) < bound
  }

  /** Vectors whose costs stay below 2^32 are ranked by their costs. */
  lemma LowCostsRanked(o: Objective, ps: seq<nat>, rs: seq<nat>, rs': seq<nat>, n: nat)
    requires o.blocks.Some? && |ps| == |rs| == |rs'| && 2 <= n < TWO32
    requires CostOf(o.blocks.v, ps, rs', n) < TWO32
    ensures Ranked(o, ps, rs, rs', n)
  {
    hide Covered;
    TableCounts(ps, rs, Table(ps, rs, n), n);
    FreeBound(Table(ps, rs, n), n);
    var a, b := CostOf(o.blocks.v, ps, rs, n), CostOf(o.blocks.v, ps, rs', n);
    if a < b {
      ScoreParts(o, ps, rs, n);
      ScoreParts(o, ps, rs', n);
    }
  }

  lemma ScoreParts(o: Objective, ps: seq<nat>, rs: seq<nat>, n: nat)
    requires o.blocks.Some? && |ps| == |rs| && CostOf(o.blocks.v, ps, rs, n) < TWO32
    ensures Score(o, ps, rs, n) == CostOf(o.blocks.v, ps, rs, n) * TWO32 + Surviving(ps, rs, n)
  {
    hide CostOf;
    EncodedScore(o, ps, rs, n);
  }

  lemma EncodedScore(o: Objective, ps: seq<nat>, rs: seq<nat>, n: nat)
    requires o.blocks.Some? && |ps| == |rs|
    ensures Score(o, ps, rs, n) == CostOf(o.blocks.v, ps, rs, n) % TWO32 * TWO32 + Surviving(ps, rs, n)
  {
    hide Longest, Cost, Covered;
  }

  lemma {:induction false} FreeBound(c: seq<bool>, n: nat)
    requires 1 <= n <= |c|
    ensures Free(c, n) <= n - 1
  {
    if n > 1 { FreeBound(c, n - 1); }
  }

  lemma {:induction false} ConstantCost(c: seq<bool>, penalty: nat -> nat, k: nat, n: nat)
    requires n <= |c| && forall r: nat :: penalty(r) == k
    ensures Cost(c, penalty, n) == k * Free(c, n)
  {
    if n > 1 { ConstantCost(c, penalty, k, n - 1); }
  }

  lemma {:induction false} AllFreeFrom(c: seq<bool>, a: nat, n: nat)
    requires 1 <= a <= n <= |c| && forall j :: a <= j < n ==> !c[j]
    ensures Free(c, n) == Free(c, a) + (n - a)
    decreases n
  {
    if a < n { AllFreeFrom(c, a, n - 1); }
  }

  /** The objective of the instance: every survivor costs the full 2^20. */
  function FullPenalty(): Objective { Objective(false, false, Some((r: nat) => 0x10_0000)) }

  /** One prime, 4096 positions: residue 1 covers none of them, residue 5002 covers the first. */
  lemma InstanceFree(ps: seq<nat>, r: nat, n: nat)
    requires ps == [5003] && n == 4097 && (r == 1 || r == 5002)
    ensures Free(Table(ps, [r], n), n) == if r == 1 then 4096 else 4095
  {
    var c := Table(ps, [r], n);
    hide Table, Covered;
    forall j | 1 <= j < n ensures c[j] <==> r == 5002 && j == 1 { InstanceMarks(r, j); }
    AllFreeFrom(c, 2, n);
    assert Free(c, 2) == if c[1] then 0 else 1;
  }

  lemma InstanceCost(o: Objective, ps: seq<nat>, r: nat, n: nat)
    requires o == FullPenalty() && ps == [5003] && n == 4097 && (r == 1 || r == 5002)
    ensures Surviving(ps, [r], n) == (if r == 1 then 4096 else 4095)
    ensures CostOf(o.blocks.v, ps, [r], n) == if r == 1 then TWO32 else 4095 * 0x10_0000
  {
    var c := Table(ps, [r], n);
    InstanceFree(ps, r, n);
    TableCounts(ps, [r], c, n);
    ConstantCost(c, o.blocks.v, 0x10_0000, n);
    hide Free, Table, Surviving, Cost;
  }

  lemma InstanceMarks(r: nat, j: nat)
    requires 1 <= j < 4097 && (r == 1 || r == 5002)
    ensures Covered([5003], [r], 1, j) <==> r == 5002 && j == 1
  {
    assert Covered([5003], [r], 1, j) <==> Divides([5003][0], [r][0], j);
  }

  /** The cover with 4096 survivors costs more than the one with 4095, and gets the lower score. */
  lemma BlocksPreferCostlier(o: Objective, ps: seq<nat>, n: nat)
    requires o == FullPenalty() && ps == [5003] && n == 4097
    ensures forall bound: nat :: bound > 4096 ==> Compared(o, ps, [5002], [1], n, bound)
    ensures CostOf(o.blocks.v, ps, [5002], n) < CostOf(o.blocks.v, ps, [1], n)
    ensures Score(o, ps, [5002], n) > Score(o, ps, [1], n)
  {
    InstanceCost(o, ps, 1, n);
    InstanceCost(o, ps, 5002, n);
    hide Cost, Free, Table, Surviving, Longest, CostOf;
    EncodedScore(o, ps, [1], n);
    EncodedScore(o, ps, [5002], n);
  }

  lemma Misranked(bound: nat) returns (o: Objective, ps: seq<nat>, rs: seq<nat>, rs': seq<nat>, n: nat)
    requires bound > 4096
    ensures Compared(o, ps, rs, rs', n, bound) && |ps| == |rs| == |rs'| && o.blocks.Some?
    ensures !Ranked(o, ps, rs, rs', n)
  {
    o, ps, rs, rs' := FullPenalty(), [5003], [5002], [1];
    n :| n == 4097;
    BlocksPreferCostlier(o, ps, n);
    hide Score, CostOf, Compared;
  }

  /** The blocks objective ranks all covers with fewer than `bound` survivors by their costs
      exactly when the bound is at most 4096: from 2^32 on a cost loses its high bits. */
  lemma BlocksRankExactlyWhen(bound: nat)
    ensures bound <= 4096 <==>
            forall o: Objective, ps: seq<nat>, rs: seq<nat>, rs': seq<nat>, n: nat ::
              Compared(o, ps, rs, rs', n, bound) ==> Ranked(o, ps, rs, rs', n)
  {
    if bound <= 4096 {
      forall o: Objective, ps: seq<nat>, rs: seq<nat>, rs': seq<nat>, n: nat | Compared(o, ps, rs, rs', n, bound)
        ensures Ranked(o, ps, rs, rs', n)
      {
        var c := Table(ps, rs', n);
        TableCounts(ps, rs', c, n);
        CostBound(c, o.blocks.v, n);
        hide Ranked, Free, Cost;
        LowCostsRanked(o, ps, rs, rs', n);
      }
    } else {
      hide *;
      var o, ps, rs, rs', n := Misranked(bound);
      assert Compared(o, ps, rs, rs', n, bound) && !Ranked(o, ps, rs, rs', n);
    }
  }

  /** covering_count_survivors. */
  method SurvivorCount(ps: seq<nat>, rs: seq<nat>, n: nat) returns (s: nat)
    requires |ps| == |rs| && Primes(ps)
    ensures s == Surviving(ps, rs, n)
  {
    hide Covered;
    var c := CoverTable(ps, rs, n);
    s := CountSurvivors(c);
    TableCounts(ps, rs, c[..], n);
  }

  // ------------------------------------------------------------------ local search

  lemma CoveredButStep(ps: seq<nat>, rs: seq<nat>, i: nat, k: nat, j: nat)
    requires k < |ps| == |rs| && ps[k] > 0
    ensures CoveredBut(ps, rs, i, k + 1, j)
            <==> CoveredBut(ps, rs, i, k, j) || (k != i && Divides(ps[k], rs[k], j))
  {
    hide Divides;
  }

  /** Rebuild the coverage without one prime. */
  method TableBut(c: array<bool>, ps: seq<nat>, rs: seq<nat>, i: nat)
    requires |ps| == |rs| && Primes(ps)
    modifies c
    ensures IsTableBut(ps, rs, i, c[..])
    ensures c.Length > 0 ==> !c[0]
  {
    hide CoveredBut, Divides;
    for j := 0 to c.Length
      invariant forall x :: 0 <= x < j ==> !c[x]
    {
      c[j] := false;
    }
    forall j: nat ensures !CoveredBut(ps, rs, i, 0, j) { NoneYet(ps, rs, i, j); }
    for k := 0 to |ps|
      invariant forall j :: 1 <= j < c.Length ==> c[j] == CoveredBut(ps, rs, i, k, j)
      invariant c.Length > 0 ==> !c[0]
    {
      forall j: nat ensures CoveredBut(ps, rs, i, k + 1, j)
                            <==> CoveredBut(ps, rs, i, k, j) || (k != i && Divides(ps[k], rs[k], j))
      { CoveredButStep(ps, rs, i, k, j); }
      if k != i { MarkCover(c, ps[k], rs[k]); }
    }
  }

  lemma NoneYet(ps: seq<nat>, rs: seq<nat>, i: nat, j: nat)
    requires |ps| == |rs|
    ensures !CoveredBut(ps, rs, i, 0, j)
  {
  }

  /** Residue r covers at least as much of c as every other residue of p. */
  ghost predicate Greediest(c: seq<bool>, p: nat, r: nat)
    requires p > 0
  {
    forall x :: 1 <= x < p ==> Gain(c, p, x, |c|) <= Gain(c, p, r, |c|)
  }

  /** The residue that covers the most, the current one first. */
  method PickResidue(c: array<bool>, p: nat, current: nat) returns (best: nat)
    requires p > 0 && 1 <= current < p
    ensures 1 <= best < p && Greediest(c[..], p, best)
    ensures Gain(c[..], p, best, c.Length) == Gain(c[..], p, current, c.Length) ==> best == current
  {
    hide Gain;
    best := current;
    var bestC := CountCover(c, p, best);
    for r := 1 to p
      invariant 1 <= best < p && bestC == Gain(c[..], p, best, c.Length)
      invariant best == current || bestC > Gain(c[..], p, current, c.Length)
      invariant forall x :: 1 <= x < r ==> Gain(c[..], p, x, c.Length) <= bestC
    {
      var g := CountCover(c, p, r);
      if g > bestC { best, bestC := r, g; }
    }
  }

  /** Replacing a residue by a greediest one never leaves more survivors, and no residue of
      that prime would leave fewer. */
  lemma BestReplacement(ps: seq<nat>, rs: seq<nat>, i: nat, c: seq<bool>, r: nat, x: nat)
    requires Usable(ps, rs) && i < |ps| && IsTableBut(ps, rs, i, c)
    requires Greediest(c, ps[i], r) && 1 <= x < ps[i]
    ensures Surviving(ps, rs[i := r], |c|) <= Surviving(ps, rs[i := x], |c|)
  {
    Replacement(ps, rs, i, c, r, |c|);
    Replacement(ps, rs, i, c, x, |c|);
  }

  /** Survivors with residue x for prime i. */
  ghost function SurvivingWith(ps: seq<nat>, n: nat, rs: seq<nat>, i: nat, x: nat): nat
    requires i < |ps| == |rs|
  {
    Surviving(ps, rs[i := x], n)
  }

  /** Residue r of prime i leaves the fewest survivors while the others stay, and it is the current
      one if that does. */
  ghost predicate Settled(ps: seq<nat>, n: nat, rs: seq<nat>, i: nat, r: nat)
    requires i < |ps| == |rs|
  {
    && 1 <= r < ps[i]
    && (forall x :: 1 <= x < ps[i] ==> Surviving(ps, rs[i := r], n) <= SurvivingWith(ps, n, rs, i, x))
    && (Surviving(ps, rs[i := r], n) == Surviving(ps, rs, n) ==> r == rs[i])
  }

  lemma GreediestSettles(ps: seq<nat>, rs: seq<nat>, i: nat, c: seq<bool>, r: nat)
    requires Usable(ps, rs) && i < |ps| && IsTableBut(ps, rs, i, c) && 1 <= r < ps[i] && Greediest(c, ps[i], r)
    requires Gain(c, ps[i], r, |c|) == Gain(c, ps[i], rs[i], |c|) ==> r == rs[i]
    ensures Settled(ps, |c|, rs, i, r) && Surviving(ps, rs[i := r], |c|) <= Surviving(ps, rs, |c|)
  {
    hide Surviving, Gain, Free, IsTableBut, Greediest;
    forall x | 1 <= x < ps[i] ensures Surviving(ps, rs[i := r], |c|) <= SurvivingWith(ps, |c|, rs, i, x) {
      BestReplacement(ps, rs, i, c, r, x);
    }
    assert rs[i := rs[i]] == rs;
    assert SurvivingWith(ps, |c|, rs, i, rs[i]) == Surviving(ps, rs, |c|);
    Replacement(ps, rs, i, c, r, |c|);
    Replacement(ps, rs, i, c, rs[i], |c|);
  }

  /** The vectors of a sweep: prime by prime, from the first that is not fixed, a residue is settled. */
  ghost predicate SweepTrail(ps: seq<nat>, n: nat, fixed: nat, trail: seq<seq<nat>>) {
    && |trail| == (if fixed < |ps| then |ps| - fixed else 0) + 1
    && forall k :: 0 <= k < |trail| - 1 ==> SweepStep(ps, n, trail[k], trail[k + 1], fixed + k)
  }

  ghost predicate SweepStep(ps: seq<nat>, n: nat, rs: seq<nat>, rs': seq<nat>, i: nat) {
    i < |ps| == |rs| == |rs'| && rs' == rs[i := rs'[i]] && Settled(ps, n, rs, i, rs'[i])
  }

  /** One sweep leads from a to b. */
  ghost predicate Sweep(ps: seq<nat>, n: nat, fixed: nat, a: seq<nat>, b: seq<nat>) {
    exists trail :: SweepTrail(ps, n, fixed, trail) && trail[0] == a && trail[|trail| - 1] == b
  }

  /** local_sweep (fixed == 0) and local_sweep_fixed: prime by prime a residue that leaves the fewest
      survivors; their number never rises, the first `fixed` residues stay. */
  method LocalSweep(ps: seq<nat>, n: nat, rs: array<nat>, fixed: nat)
    requires Usable(ps, rs[..]) && Primes(ps)
    modifies rs
    ensures Usable(ps, rs[..])
    ensures Sweep(ps, n, fixed, old(rs[..]), rs[..])
    ensures Surviving(ps, rs[..], n) <= Surviving(ps, old(rs[..]), n)
    ensures forall k :: 0 <= k < fixed && k < |ps| ==> rs[k] == old(rs[k])
  {
    hide Gain, IsTableBut, Surviving, Greediest, Settled;
    var covered := new bool[n];
    var i := fixed;
    ghost var was := rs[..];
    ghost var trail := [was];
    while i < |ps|
      invariant fixed <= i && (i <= |ps| || i == fixed) && |trail| == i - fixed + 1
      invariant trail[0] == was && trail[i - fixed] == rs[..]
      invariant forall k :: 0 <= k < |trail| - 1 ==> SweepStep(ps, n, trail[k], trail[k + 1], fixed + k)
      invariant Usable(ps, rs[..]) && Surviving(ps, rs[..], n) <= Surviving(ps, was, n)
      invariant forall k :: 0 <= k < fixed && k < |ps| ==> rs[k] == was[k]
    {
      ghost var prev := rs[..];
      TableBut(covered, ps, rs[..], i);
      var best := PickResidue(covered, ps[i], rs[i]);
      GreediestSettles(ps, prev, i, covered[..], best);
      rs[i] := best;
      assert rs[..] == prev[i := best];
      trail := trail + [rs[..]];
      i := i + 1;
    }
    assert SweepTrail(ps, n, fixed, trail);
  }
}
