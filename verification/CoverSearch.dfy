/** The two cover optimizers (covering_optimize and covering_optimize_evolution of
    new_src/covering.c): random restarts, and a population with crossover, mutation and an
    iterated local search. */
module CoverSearch {
  import opened Marking
  import opened Cover
  import opened Covering
  import RunPolish

  const WORST: nat := 0xFFFF_FFFF_FFFF_FFFF

  /** Every score of a gap below 2^32 fits below the sentinel. */
  lemma ScoreBound(o: Objective, ps: seq<nat>, rs: seq<nat>, n: nat)
    requires |ps| == |rs| && 2 <= n < TWO32
    ensures Score(o, ps, rs, n) < WORST
  {
    TableCounts(ps, rs, Table(ps, rs, n), n);
    FreeBound(Table(ps, rs, n), n);
  }

  /** s lists the indices below |s|, each once. */
  ghost predicate Order(s: seq<nat>) {
    (forall v: nat :: v in s <==> v < |s|) && forall i, j :: 0 <= i < j < |s| ==> s[i] != s[j]
  }

  lemma SwapKeepsOrder(s: seq<nat>, i: nat, j: nat)
    requires i < |s| && j < |s| && Order(s)
    ensures Order(s[i := s[j]][j := s[i]])
  {
    SwapKeepsValues(s, i, j);
    var t := s[i := s[j]][j := s[i]];
    forall v: nat ensures v in t <==> v < |t| { assert v in s <==> v in t; }
    forall a, b | 0 <= a < b < |t| ensures t[a] != t[b] {
      var a', b' := if a == i then j else if a == j then i else a, if b == i then j else if b == j then i else b;
      assert t[a] == s[a'] && t[b] == s[b'] && a' != b';
    }
  }

  lemma SwapKeepsValues(s: seq<nat>, i: nat, j: nat)
    requires i < |s| && j < |s|
    ensures forall v :: v in s <==> v in s[i := s[j]][j := s[i]]
  {
    var t := s[i := s[j]][j := s[i]];
    forall v ensures v in s <==> v in t {
      if v in s {
        var k :| 0 <= k < |s| && s[k] == v;
        assert t[if k == i then j else if k == j then i else k] == v;
      }
      if v in t {
        var k :| 0 <= k < |t| && t[k] == v;
        assert s[if k == i then j else if k == j then i else k] == v;
      }
    }
  }

  lemma IdentityOrder(s: seq<nat>)
    requires forall k :: 0 <= k < |s| ==> s[k] == k
    ensures Order(s)
  {
    forall v: nat | v < |s| ensures v in s { assert s[v] == v; }
  }

  /** No evaluated vector leaves fewer survivors. */
  ghost predicate NoneBetter(ps: seq<nat>, n: nat, tried: seq<seq<nat>>, surv: nat) {
    forall k :: 0 <= k < |tried| ==> |tried[k]| == |ps| && surv <= Surviving(ps, tried[k], n)
  }

  /** No evaluated vector has a lower score. */
  ghost predicate LowestScore(o: Objective, ps: seq<nat>, n: nat, tried: seq<seq<nat>>, score: nat) {
    forall k :: 0 <= k < |tried| ==> |tried[k]| == |ps| && score <= Score(o, ps, tried[k], n)
  }

  /** rs is chosen after a polish. */
  ghost predicate Polished(lex: bool, ps: seq<nat>, n: nat, chosen: seq<nat>, rs: seq<nat>, trail: seq<seq<nat>>) {
    RunPolish.Trail(lex, ps, n, trail) && trail[0] == chosen && trail[|ps|] == rs
  }

  /** What an optimizer hands back: the chosen vector was evaluated and has the lowest score of
      all; it is returned as it is, or polished step by step; unless blocks count, nothing evaluated
      is better than the chosen vector, in the run mode nothing covers a longer run; where survivors
      come first nothing evaluated leaves fewer than the result; and where blocks count, and no cost
      loses its high bits, nothing evaluated costs less than the chosen vector. */
  ghost predicate Outcome(o: Objective, ps: seq<nat>, n: nat, tried: seq<seq<nat>>, chosen: seq<nat>, rs: seq<nat>,
                          surv: nat) {
    && Usable(ps, chosen) && Usable(ps, rs) && surv == Surviving(ps, rs, n)
    && chosen in tried && LowestScore(o, ps, n, tried, Score(o, ps, chosen, n))
    && (if o.run || o.lex then exists trail :: Polished(o.lex, ps, n, chosen, rs, trail) else rs == chosen)
    && (o.blocks.None? ==> NoneBeats(o, ps, n, tried, chosen))
    && (SurvivorsFirst(o) ==> NoneBetter(ps, n, tried, surv))
    && (o.blocks.Some? && LowCosts(o, ps, n, tried) ==> NoneCheaper(o, ps, n, tried, chosen))
  }

  /** No evaluated vector is better than the chosen one. */
  ghost predicate NoneBeats(o: Objective, ps: seq<nat>, n: nat, tried: seq<seq<nat>>, chosen: seq<nat>)
    requires |chosen| == |ps|
  {
    forall k :: 0 <= k < |tried| ==> |tried[k]| == |ps| && NoWorse(o, ps, chosen, tried[k], n)
  }

  lemma LowestScoreBeats(o: Objective, ps: seq<nat>, n: nat, tried: seq<seq<nat>>, chosen: seq<nat>)
    requires o.blocks.None? && 2 <= n < TWO32 && |chosen| == |ps|
    requires LowestScore(o, ps, n, tried, Score(o, ps, chosen, n))
    ensures NoneBeats(o, ps, n, tried, chosen)
  {
    hide Score, CoveredRun, Surviving;
    forall k | 0 <= k < |tried| ensures |tried[k]| == |ps| && NoWorse(o, ps, chosen, tried[k], n) {
      ScoreIsPreference(o, ps, chosen, tried[k], n);
    }
  }

  /** Every evaluated cost fits 32 bits. */
  ghost predicate LowCosts(o: Objective, ps: seq<nat>, n: nat, tried: seq<seq<nat>>)
    requires o.blocks.Some?
  {
    forall k :: 0 <= k < |tried| ==> |tried[k]| == |ps| && CostOf(o.blocks.v, ps, tried[k], n) < TWO32
  }

  /** No evaluated vector costs less. */
  ghost predicate NoneCheaper(o: Objective, ps: seq<nat>, n: nat, tried: seq<seq<nat>>, chosen: seq<nat>)
    requires o.blocks.Some? && |chosen| == |ps|
  {
    forall k :: 0 <= k < |tried| ==>
      |tried[k]| == |ps| && CostOf(o.blocks.v, ps, chosen, n) <= CostOf(o.blocks.v, ps, tried[k], n)
  }

  lemma LowestCostsLeast(o: Objective, ps: seq<nat>, n: nat, tried: seq<seq<nat>>, chosen: seq<nat>)
    requires o.blocks.Some? && 2 <= n < TWO32 && |chosen| == |ps| && chosen in tried && LowCosts(o, ps, n, tried)
    requires LowestScore(o, ps, n, tried, Score(o, ps, chosen, n))
    ensures NoneCheaper(o, ps, n, tried, chosen)
  {
    hide Score, CostOf;
    forall k | 0 <= k < |tried|
      ensures |tried[k]| == |ps| && CostOf(o.blocks.v, ps, chosen, n) <= CostOf(o.blocks.v, ps, tried[k], n)
    {
      LowCostsRanked(o, ps, tried[k], chosen, n);
    }
  }

  lemma LowestLeavesFewest(o: Objective, ps: seq<nat>, n: nat, tried: seq<seq<nat>>, rs: seq<nat>)
    requires SurvivorsFirst(o) && n < TWO32 && |rs| == |ps|
    requires LowestScore(o, ps, n, tried, Score(o, ps, rs, n))
    ensures NoneBetter(ps, n, tried, Surviving(ps, rs, n))
  {
    forall k | 0 <= k < |tried| ensures |tried[k]| == |ps| && Surviving(ps, rs, n) <= Surviving(ps, tried[k], n) {
      var t := tried[k];
      ScoreRanksSurvivors(o, Longest(Table(ps, rs, n), n), Surviving(ps, rs, n),
                          Longest(Table(ps, t, n), n), Surviving(ps, t, n), n);
    }
  }

  /** A number of sweeps leads from a to b. */
  ghost predicate Swept(ps: seq<nat>, n: nat, fixed: nat, sweeps: nat, a: seq<nat>, b: seq<nat>) {
    if sweeps == 0 then a == b
    else exists mid :: Swept(ps, n, fixed, sweeps - 1, a, mid) && Sweep(ps, n, fixed, mid, b)
  }

  /** A usable vector after the sweeps. */
  ghost predicate Refined(ps: seq<nat>, n: nat, fixed: nat, sweeps: nat, rs: seq<nat>) {
    exists g :: Usable(ps, g) && Swept(ps, n, fixed, sweeps, g, rs)
  }

  /** A restart: a greedy vector in some order of the primes, after the sweeps. */
  ghost predicate Restart(ps: seq<nat>, n: nat, fixed: nat, sweeps: nat, rs: seq<nat>) {
    exists g, ord: seq<nat> :: Greedy(ps, n, g, ord) && Swept(ps, n, fixed, sweeps, g, rs)
  }

  ghost predicate Greedy(ps: seq<nat>, n: nat, rs: seq<nat>, ord: seq<nat>) {
    && |ps| == |rs| == |ord| && Order(ord)
    && forall k :: 0 <= k < |ps| ==> GreedyChoice(ps, rs, ord, k, n)
  }

  /** A member of the population: a refined vector, and a restart where the strength says so. */
  ghost predicate Member(ps: seq<nat>, n: nat, fixed: nat, sweeps: nat, greedy: bool, rs: seq<nat>) {
    Refined(ps, n, fixed, sweeps, rs) && (greedy ==> Restart(ps, n, fixed, sweeps, rs))
  }

  lemma IsMember(ps: seq<nat>, n: nat, fixed: nat, sweeps: nat, greedy: bool, g: seq<nat>, ord: seq<nat>, rs: seq<nat>)
    requires Usable(ps, g) && Swept(ps, n, fixed, sweeps, g, rs) && (greedy ==> Greedy(ps, n, g, ord))
    ensures Member(ps, n, fixed, sweeps, greedy, rs)
  {
    hide Usable, Swept, Greedy;
  }

  /** The optimizers share one generator. */
  class Search {
    var rng: bv64

    constructor (seed: bv64)
      ensures rng == if seed != 0 then seed else 0x9e37_79b9_7f4a_7c15
    {
      rng := if seed != 0 then seed else 0x9e37_79b9_7f4a_7c15;
    }

    /** rng_next: xorshift, which never gets stuck at 0. */
    method Next() returns (v: nat)
      modifies this
      ensures v == rng as nat && (old(rng) != 0 ==> rng != 0)
    {
      var x := rng;
      x := x ^ (x << 13);
      x := x ^ (x >> 7);
      x := x ^ (x << 17);
      rng := x;
      v := x as nat;
    }

    /** A random order of the primes. */
    method Shuffle(order: array<nat>)
      modifies this, order
      ensures Order(order[..])
    {
      for i := 0 to order.Length
        invariant forall k :: 0 <= k < i ==> order[k] == k
      {
        order[i] := i;
      }
      IdentityOrder(order[..]);
      var i := order.Length;
      while i > 1
        invariant 0 <= i <= order.Length
        invariant Order(order[..])
      {
        i := i - 1;
        var x := Next();
        var j := x % (i + 1);
        SwapKeepsOrder(order[..], i, j);
        ghost var was := order[..];
        order[i], order[j] := order[j], order[i];
        assert order[..] == was[i := was[j]][j := was[i]];
      }
    }

    /** greedy_pass for one prime: a residue that covers the most of what is left, ties by coin. */
    method GreedyPick(c: array<bool>, p: nat) returns (best: nat)
      requires p >= 2
      modifies this
      ensures 1 <= best < p && Greediest(c[..], p, best)
    {
      hide Gain;
      best := 1;
      var bestC := 0;
      ghost var t := c[..];
      for r := 1 to p
        invariant 1 <= best < p && c[..] == t
        invariant r > 1 ==> bestC == Gain(t, p, best, |t|)
        invariant r == 1 ==> best == 1 && bestC == 0
        invariant forall x :: 1 <= x < r ==> Gain(t, p, x, |t|) <= bestC
      {
        var g := CountCover(c, p, r);
        var coin := false;
        if g == bestC {
          var x := Next();
          coin := x % 2 == 1;
        }
        if g > bestC || (g == bestC && coin) { best, bestC := r, g; }
      }
    }

    /** greedy_pass: in the given order, each prime takes a residue that covers the most of what
        the primes before it leave. */
    method GreedyPass(ps: seq<nat>, n: nat, rs: array<nat>, order: array<nat>)
      requires Primes(ps) && rs.Length == order.Length == |ps| && rs != order && Order(order[..])
      modifies this, rs
      ensures Usable(ps, rs[..]) && Greedy(ps, n, rs[..], order[..])
    {
      hide Divides, Greediest, CoveredBy, GreedyChoice;
      var covered := new bool[n](_ => false);
      ghost var ord := order[..];
      forall j: nat ensures !CoveredBy(ps, rs[..], ord, 0, j) { CoveredByNone(ps, rs[..], ord, j); }
      for k := 0 to |ps|
        invariant order[..] == ord
        invariant forall x :: 0 <= x < k ==> ord[x] < |ps| && 1 <= rs[ord[x]] < ps[ord[x]]
        invariant forall j :: 1 <= j < n ==> covered[j] == CoveredBy(ps, rs[..], ord, k, j)
        invariant forall x :: 0 <= x < k ==> GreedyChoice(ps, rs[..], ord, x, n)
      {
        var i := order[k];
        assert ord[k] in ord;
        var best := GreedyPick(covered, ps[i]);
        ghost var prev, c := rs[..], covered[..];
        rs[i] := best;
        assert rs[..] == prev[i := best];
        NextChoice(ps, prev, ord, k, best, c);
        MarkCover(covered, ps[i], best);
      }
      forall v | 0 <= v < |ps| ensures 1 <= rs[v] < ps[v] {
        assert v in ord;
      }
    }

    /** Sweeps of the local search. */
    method Refine(ps: seq<nat>, n: nat, rs: array<nat>, fixed: nat, sweeps: nat)
      requires Usable(ps, rs[..]) && Primes(ps)
      modifies rs
      ensures Usable(ps, rs[..]) && Surviving(ps, rs[..], n) <= Surviving(ps, old(rs[..]), n)
      ensures forall k :: 0 <= k < fixed && k < |ps| ==> rs[k] == old(rs[k])
      ensures Swept(ps, n, fixed, sweeps, old(rs[..]), rs[..])
    {
      hide Surviving, Sweep;
      ghost var was := rs[..];
      for s := 0 to sweeps
        invariant Swept(ps, n, fixed, s, was, rs[..])
        invariant Usable(ps, rs[..]) && Surviving(ps, rs[..], n) <= Surviving(ps, was, n)
        invariant forall k :: 0 <= k < fixed && k < |ps| ==> rs[k] == was[k]
      {
        LocalSweep(ps, n, rs, fixed);
      }
    }

    /** covering_optimize: the chosen restart has the lowest score; the polish of the run and the
        lexicographic mode starts from it. */
    method Optimize(o: Objective, ps: seq<nat>, n: nat, rs: array<nat>, strength: nat, sweeps: nat)
      returns (surv: nat, ghost tried: seq<seq<nat>>, ghost chosen: seq<nat>)
      requires Primes(ps) && rs.Length == |ps| > 0 && 2 <= n < TWO32
      modifies this, rs
      ensures |tried| == if strength > 0 then strength else 1
      ensures forall k :: 0 <= k < |tried| ==> Restart(ps, n, 0, sweeps, tried[k])
      ensures Outcome(o, ps, n, tried, chosen, rs[..], surv)
    {
      hide Surviving, Score, Longest, NoneBetter, Primes, Greedy, Swept;
      tried := [];
      var restarts := if strength > 0 then strength else 1;
      var order, best := new nat[|ps|], new nat[|ps|];
      var bestScore := WORST;
      for s := 0 to restarts
        invariant |tried| == s && LowestScore(o, ps, n, tried, bestScore)
        invariant forall k :: 0 <= k < |tried| ==> Restart(ps, n, 0, sweeps, tried[k])
        invariant s == 0 ==> bestScore == WORST
        invariant s > 0 ==> Usable(ps, best[..]) && bestScore == Score(o, ps, best[..], n) && best[..] in tried
      {
        Shuffle(order);
        GreedyPass(ps, n, rs, order);
        ghost var g, ord := rs[..], order[..];
        Refine(ps, n, rs, 0, sweeps);
        assert Greedy(ps, n, g, ord) && Swept(ps, n, 0, sweeps, g, rs[..]);
        var sc := EvalSolution(o, ps, rs[..], n);
        ScoreBound(o, ps, rs[..], n);
        tried := tried + [rs[..]];
        if sc < bestScore {
          bestScore := sc;
          Copy(rs, best);
        }
      }
      Copy(best, rs);
      chosen := rs[..];
      surv := PolishAndCount(o, ps, n, rs, tried);
    }

    /** The common end of both optimizers: polish where asked for, then count. */
    method PolishAndCount(o: Objective, ps: seq<nat>, n: nat, rs: array<nat>, ghost tried: seq<seq<nat>>)
      returns (surv: nat)
      requires Primes(ps) && Usable(ps, rs[..]) && 2 <= n < TWO32 && rs[..] in tried
      requires LowestScore(o, ps, n, tried, Score(o, ps, rs[..], n))
      modifies rs
      ensures Outcome(o, ps, n, tried, old(rs[..]), rs[..], surv)
    {
      hide Surviving, Score, NoneBetter, Primes, LowestScore, LowCosts, NoneCheaper, NoneBeats;
      ghost var chosen := rs[..];
      if o.blocks.Some? && LowCosts(o, ps, n, tried) { LowestCostsLeast(o, ps, n, tried, chosen); }
      if o.blocks.None? { LowestScoreBeats(o, ps, n, tried, chosen); }
      if SurvivorsFirst(o) { LowestLeavesFewest(o, ps, n, tried, chosen); }
      if o.run || o.lex {
        ghost var trail := RunPolish.Polish(o.lex, ps, n, rs);
        assert Polished(o.lex, ps, n, chosen, rs[..], trail);
      }
      surv := SurvivorCount(ps, rs[..], n);
      if SurvivorsFirst(o) { FewerIsNoWorse(ps, n, tried, Surviving(ps, chosen, n), surv); }
    }

    /** A uniformly drawn usable residue. */
    method Draw(p: nat) returns (r: nat)
      requires p >= 2
      modifies this
      ensures 1 <= r < p
    {
      var x := Next();
      r := 1 + x % (p - 1);
    }

    /** A random member of the initial population. */
    method RandomVector(ps: seq<nat>, rs: array<nat>)
      requires Primes(ps) && rs.Length == |ps|
      modifies this, rs
      ensures Usable(ps, rs[..])
    {
      for k := 0 to |ps|
        invariant forall x :: 0 <= x < k ==> 1 <= rs[x] < ps[x]
      {
        var v := Draw(ps[k]);
        rs[k] := v;
      }
    }

    /** Crossover of two parents and mutation of a fifth of the residues that are not fixed. */
    method Breed(ps: seq<nat>, a: seq<nat>, b: seq<nat>, child: array<nat>, fixed: nat)
      requires Primes(ps) && Usable(ps, a) && Usable(ps, b) && child.Length == |ps|
      modifies this, child
      ensures Usable(ps, child[..])
      ensures forall k :: 0 <= k < fixed && k < |ps| ==> child[k] == a[k] || child[k] == b[k]
    {
      for k := 0 to |ps|
        invariant forall x :: 0 <= x < k ==> child[x] == a[x] || child[x] == b[x]
      {
        var x := Next();
        child[k] := if x % 2 == 1 then a[k] else b[k];
      }
      var k := fixed;
      while k < |ps|
        invariant fixed <= k && Usable(ps, child[..])
        invariant forall x :: 0 <= x < fixed && x < |ps| ==> child[x] == a[x] || child[x] == b[x]
      {
        var x := Next();
        if x % 100 < 20 {
          var v := Draw(ps[k]);
          child[k] := v;
        }
        k := k + 1;
      }
    }

    /** tournament_select. */
    method Tournament(score: array<nat>) returns (w: nat)
      requires score.Length > 0
      modifies this
      ensures w < score.Length
    {
      var a := Next();
      var b := Next();
      a, b := a % score.Length, b % score.Length;
      w := if score[a] <= score[b] then a else b;
    }

    /** Perturb three to five residues that are not fixed. */
    method Perturb(ps: seq<nat>, child: array<nat>, fixed: nat)
      requires Primes(ps) && Usable(ps, child[..])
      modifies this, child
      ensures Usable(ps, child[..])
      ensures forall k :: 0 <= k < fixed && k < |ps| ==> child[k] == old(child[k])
    {
      if fixed >= |ps| { return; }
      var x := Next();
      for t := 0 to 3 + x % 3
        invariant Usable(ps, child[..])
        invariant forall k :: 0 <= k < fixed ==> child[k] == old(child[k])
      {
        var y := Next();
        var j := fixed + y % (|ps| - fixed);
        var v := Draw(ps[j]);
        child[j] := v;
      }
    }

    /** A first member: greedy or random, then refined. */
    method NewMember(ps: seq<nat>, n: nat, rs: array<nat>, order: array<nat>, greedy: bool, sweeps: nat, fixed: nat)
      requires Primes(ps) && rs.Length == order.Length == |ps| && rs != order
      modifies this, rs, order
      ensures Usable(ps, rs[..]) && Member(ps, n, fixed, sweeps, greedy, rs[..])
    {
      hide Surviving, Score, Primes, Greediest, Greedy, Swept, Member;
      if greedy {
        Shuffle(order);
        GreedyPass(ps, n, rs, order);
      } else {
        RandomVector(ps, rs);
      }
      ghost var g, ord := rs[..], order[..];
      Refine(ps, n, rs, fixed, sweeps);
      IsMember(ps, n, fixed, sweeps, greedy, g, ord, rs[..]);
    }

    /** The initial population: `strength` greedy members, the rest random, all refined. */
    method Populate(o: Objective, ps: seq<nat>, n: nat, pop: array<seq<nat>>, score: array<nat>, strength: nat,
                    sweeps: nat, fixed: nat)
      returns (ghost tried: seq<seq<nat>>)
      requires Primes(ps) && pop.Length == score.Length
      modifies this, pop, score
      ensures Population(o, ps, n, tried, pop[..], score[..]) && Floor(o, ps, n, tried, score[..])
      ensures |tried| == pop.Length
      ensures forall k :: 0 <= k < |tried| ==> Member(ps, n, fixed, sweeps, k < strength, tried[k])
    {
      hide Surviving, Score, Primes, Member, Population, Floor;
      tried := [];
      NobodyYet(o, ps, n);
      var order, rs := new nat[|ps|], new nat[|ps|];
      assert pop[..0] == [] && score[..0] == [];
      for i := 0 to pop.Length
        invariant |tried| == i && Population(o, ps, n, tried, pop[..i], score[..i])
        invariant Floor(o, ps, n, tried, score[..i])
        invariant forall k :: 0 <= k < |tried| ==> Member(ps, n, fixed, sweeps, k < strength, tried[k])
      {
        ghost var was := score[..i];
        NewMember(ps, n, rs, order, i < strength, sweeps, fixed);
        pop[i] := rs[..];
        var sc := EvalSolution(o, ps, rs[..], n);
        score[i] := sc;
        FloorGrows(o, ps, n, tried, was, rs[..], sc);
        PopulationGrows(o, ps, n, tried, pop[..i], was, rs[..], sc);
        assert pop[..i + 1] == pop[..i] + [rs[..]];
        assert score[..i + 1] == was + [sc];
        tried := tried + [rs[..]];
      }
      assert pop[..pop.Length] == pop[..] && score[..pop.Length] == score[..];
    }

    /** One generation: a refined child replaces the worst member when it is better. */
    method Generation(o: Objective, ps: seq<nat>, n: nat, pop: array<seq<nat>>, score: array<nat>, child: array<nat>,
                      sweeps: nat, fixed: nat, ghost tried: seq<seq<nat>>)
      returns (ghost tried': seq<seq<nat>>)
      requires Primes(ps) && pop.Length == score.Length > 0 && child.Length == |ps| && child != score
      requires Population(o, ps, n, tried, pop[..], score[..]) && Floor(o, ps, n, tried, score[..])
      modifies this, pop, score, child
      ensures Population(o, ps, n, tried', pop[..], score[..]) && Floor(o, ps, n, tried', score[..])
      ensures tried <= tried' && |tried'| == |tried| + 1
      ensures Member(ps, n, fixed, sweeps, false, tried'[|tried|])
      ensures forall i :: 0 <= i < score.Length ==> score[i] <= old(score[i])
    {
      hide Surviving, Score, Primes, Floor, Population, Usable, Swept, Member;
      var a := Tournament(score);
      var b := Tournament(score);
      MemberIs(o, ps, n, tried, pop[..], score[..], a);
      MemberIs(o, ps, n, tried, pop[..], score[..], b);
      Breed(ps, pop[a], pop[b], child, fixed);
      ghost var g := child[..];
      Refine(ps, n, child, fixed, sweeps);
      IsMember(ps, n, fixed, sweeps, false, g, [], child[..]);
      var sc := EvalSolution(o, ps, child[..], n);
      var worst := WorstMember(score);
      ghost var was, rows, row := score[..], pop[..], child[..];
      tried' := tried + [row];
      FloorKept(o, ps, n, tried, was, worst, row, sc);
      PopulationKept(o, ps, n, tried, rows, was, worst, row, sc);
      if sc < score[worst] {
        pop[worst] := child[..];
        score[worst] := sc;
        assert score[..] == was[worst := sc] && pop[..] == rows[worst := row];
      }
    }

    method WorstMember(score: array<nat>) returns (worst: nat)
      requires score.Length > 0
      ensures worst < score.Length && forall i :: 0 <= i < score.Length ==> score[i] <= score[worst]
    {
      worst := 0;
      for i := 1 to score.Length
        invariant worst < score.Length && forall x :: 0 <= x < i ==> score[x] <= score[worst]
      {
        if score[i] > score[worst] { worst := i; }
      }
    }

    /** covering_optimize_evolution: nothing that was ever evaluated, in the population, as a
        child or in the iterated local search, has a lower score than the vector that is polished
        and returned. */
    method Evolve(o: Objective, ps: seq<nat>, n: nat, rs: array<nat>, population: nat, strength0: nat, sweeps0: nat,
                  generations: nat, ilsRounds: nat, fixed0: nat)
      returns (surv: nat, ghost tried: seq<seq<nat>>, ghost chosen: seq<nat>)
      requires Primes(ps) && rs.Length == |ps| > 0 && 2 <= n < TWO32
      modifies this, rs
      ensures |tried| == (if population > 0 then population else 20) + generations + ilsRounds
      ensures var s, m, f := if strength0 > 0 then strength0 else 8, if sweeps0 > 0 then sweeps0 else 4,
                             if fixed0 > |ps| then |ps| else fixed0;
              forall k :: 0 <= k < |tried| ==>
                Member(ps, n, f, m, k < s && k < (if population > 0 then population else 20), tried[k])
      ensures Outcome(o, ps, n, tried, chosen, rs[..], surv)
    {
      hide Surviving, Score, Primes, NoneBetter, Population, Floor, LowestScore, Member, Swept;
      var popSize := if population > 0 then population else 20;
      var strength := if strength0 > 0 then strength0 else 8;
      var sweeps := if sweeps0 > 0 then sweeps0 else 4;
      var fixed := if fixed0 > |ps| then |ps| else fixed0;
      var pop, score, child := new seq<nat>[popSize](_ => []), new nat[popSize], new nat[|ps|];
      tried := Populate(o, ps, n, pop, score, strength, sweeps, fixed);
      for gen := 0 to generations
        invariant Population(o, ps, n, tried, pop[..], score[..]) && Floor(o, ps, n, tried, score[..])
        invariant |tried| == popSize + gen
        invariant forall k :: 0 <= k < |tried| ==> Member(ps, n, fixed, sweeps, k < strength && k < popSize, tried[k])
      {
        tried := Generation(o, ps, n, pop, score, child, sweeps, fixed, tried);
      }
      var best := BestMember(score);
      MemberIs(o, ps, n, tried, pop[..], score[..], best);
      FloorIsLowest(o, ps, n, tried, score[..], best);
      CopyRow(pop[best], rs);
      var bestScore := score[best];
      for r := 0 to ilsRounds
        invariant Usable(ps, rs[..]) && bestScore == Score(o, ps, rs[..], n) && rs[..] in tried
        invariant LowestScore(o, ps, n, tried, bestScore) && |tried| == popSize + generations + r
        invariant forall k :: 0 <= k < |tried| ==> Member(ps, n, fixed, sweeps, k < strength && k < popSize, tried[k])
      {
        CopyRow(rs[..], child);
        Perturb(ps, child, fixed);
        ghost var g := child[..];
        Refine(ps, n, child, fixed, sweeps);
        IsMember(ps, n, fixed, sweeps, false, g, [], child[..]);
        var cs := EvalSolution(o, ps, child[..], n);
        LowestGrows(o, ps, n, tried, bestScore, child[..], cs);
        tried := tried + [child[..]];
        if cs < bestScore {
          CopyRow(child[..], rs);
          bestScore := cs;
        }
      }
      chosen := rs[..];
      surv := PolishAndCount(o, ps, n, rs, tried);
    }

    method BestMember(score: array<nat>) returns (best: nat)
      requires score.Length > 0
      ensures best < score.Length && forall i :: 0 <= i < score.Length ==> score[best] <= score[i]
    {
      best := 0;
      for i := 1 to score.Length
        invariant best < score.Length && forall x :: 0 <= x < i ==> score[best] <= score[x]
      {
        if score[i] < score[best] { best := i; }
      }
    }

    method CopyRow(from: seq<nat>, to: array<nat>)
      requires |from| == to.Length
      modifies to
      ensures to[..] == from
    {
      for i := 0 to |from|
        invariant to[..i] == from[..i]
      {
        to[i] := from[i];
      }
    }

    /** memcpy between residue vectors. */
    method Copy(from: array<nat>, to: array<nat>)
      requires from.Length == to.Length
      modifies to
      ensures to[..] == old(from[..])
    {
      ghost var was := from[..];
      for i := 0 to from.Length
        invariant forall k :: 0 <= k < i ==> to[k] == was[k]
        invariant forall k :: i <= k < from.Length ==> from[k] == was[k]
      {
        to[i] := from[i];
      }
    }
  }

  /** Members are usable, were evaluated and carry their scores. */
  ghost predicate Population(o: Objective, ps: seq<nat>, n: nat, tried: seq<seq<nat>>, pop: seq<seq<nat>>,
                             score: seq<nat>) {
    && |pop| == |score|
    && forall i :: 0 <= i < |pop| ==> Usable(ps, pop[i]) && score[i] == Score(o, ps, pop[i], n) && pop[i] in tried
  }

  /** Every evaluated vector is matched by a member whose score is no higher. */
  ghost predicate Floor(o: Objective, ps: seq<nat>, n: nat, tried: seq<seq<nat>>, score: seq<nat>) {
    forall k :: 0 <= k < |tried| ==> |tried[k]| == |ps| && AtMost(score, Score(o, ps, tried[k], n))
  }

  ghost predicate AtMost(score: seq<nat>, v: nat) {
    exists i :: 0 <= i < |score| && score[i] <= v
  }

  lemma AtMostGrows(score: seq<nat>, v: nat, x: nat)
    requires AtMost(score, v)
    ensures AtMost(score + [x], v)
  {
    var i :| 0 <= i < |score| && score[i] <= v;
    assert (score + [x])[i] == score[i];
  }

  lemma FloorGrows(o: Objective, ps: seq<nat>, n: nat, tried: seq<seq<nat>>, score: seq<nat>, rs: seq<nat>, sc: nat)
    requires Floor(o, ps, n, tried, score) && |rs| == |ps| && sc == Score(o, ps, rs, n)
    ensures Floor(o, ps, n, tried + [rs], score + [sc])
  {
    hide Score, AtMost;
    var next := tried + [rs];
    forall k | 0 <= k < |next| ensures |next[k]| == |ps| && AtMost(score + [sc], Score(o, ps, next[k], n)) {
      if k < |tried| {
        AtMostGrows(score, Score(o, ps, tried[k], n), sc);
      } else {
        LastIsAtMost(score, sc);
      }
    }
  }

  lemma NobodyYet(o: Objective, ps: seq<nat>, n: nat)
    ensures Population(o, ps, n, [], [], []) && Floor(o, ps, n, [], [])
  {
  }

  lemma PopulationGrows(o: Objective, ps: seq<nat>, n: nat, tried: seq<seq<nat>>, pop: seq<seq<nat>>,
                        score: seq<nat>, rs: seq<nat>, sc: nat)
    requires Population(o, ps, n, tried, pop, score) && Usable(ps, rs) && sc == Score(o, ps, rs, n)
    ensures Population(o, ps, n, tried + [rs], pop + [rs], score + [sc])
  {
    hide Score, Usable;
    var next, pop' := tried + [rs], pop + [rs];
    assert next[|tried|] == rs;
    forall i | 0 <= i < |pop'| ensures pop'[i] in next { if i < |pop| { assert pop[i] in tried; } }
  }

  lemma LastIsAtMost(score: seq<nat>, x: nat)
    ensures AtMost(score + [x], x)
  {
    assert (score + [x])[|score|] == x;
  }

  /** Replacing a member by a better child keeps the floor; so does dropping a worse child. */
  lemma FloorKept(o: Objective, ps: seq<nat>, n: nat, tried: seq<seq<nat>>, score: seq<nat>, w: nat, child: seq<nat>,
                  sc: nat)
    requires Floor(o, ps, n, tried, score) && w < |score| && |child| == |ps| && sc == Score(o, ps, child, n)
    ensures Floor(o, ps, n, tried + [child], if sc < score[w] then score[w := sc] else score)
  {
    hide Score;
    var next := tried + [child];
    var score' := if sc < score[w] then score[w := sc] else score;
    assert score'[w] <= sc;
    forall k | 0 <= k < |next| ensures |next[k]| == |ps| && AtMost(score', Score(o, ps, next[k], n)) {
      if k < |tried| {
        var i :| 0 <= i < |score| && score[i] <= Score(o, ps, tried[k], n);
        assert score'[i] <= score[i];
      }
    }
  }

  lemma PopulationKept(o: Objective, ps: seq<nat>, n: nat, tried: seq<seq<nat>>, pop: seq<seq<nat>>, score: seq<nat>,
                       w: nat, child: seq<nat>, sc: nat)
    requires Population(o, ps, n, tried, pop, score) && w < |score| && Usable(ps, child)
    requires sc == Score(o, ps, child, n)
    ensures Population(o, ps, n, tried + [child], pop, score)
    ensures Population(o, ps, n, tried + [child], pop[w := child], score[w := sc])
  {
    hide Score, Usable;
    var next := tried + [child];
    assert next[|tried|] == child;
    forall i | 0 <= i < |pop| ensures pop[i] in next { assert pop[i] in tried; }
  }

  lemma MemberIs(o: Objective, ps: seq<nat>, n: nat, tried: seq<seq<nat>>, pop: seq<seq<nat>>, score: seq<nat>,
                 i: nat)
    requires Population(o, ps, n, tried, pop, score) && i < |score|
    ensures i < |pop| && Usable(ps, pop[i]) && score[i] == Score(o, ps, pop[i], n) && pop[i] in tried
  {
  }

  lemma FloorIsLowest(o: Objective, ps: seq<nat>, n: nat, tried: seq<seq<nat>>, score: seq<nat>, best: nat)
    requires Floor(o, ps, n, tried, score) && best < |score|
    requires forall i :: 0 <= i < |score| ==> score[best] <= score[i]
    ensures LowestScore(o, ps, n, tried, score[best])
  {
    hide Score;
  }

  lemma LowestGrows(o: Objective, ps: seq<nat>, n: nat, tried: seq<seq<nat>>, score: nat, rs: seq<nat>, sc: nat)
    requires LowestScore(o, ps, n, tried, score) && |rs| == |ps| && sc == Score(o, ps, rs, n)
    ensures LowestScore(o, ps, n, tried + [rs], if sc < score then sc else score)
  {
    hide Score;
  }

  /** Position j is covered by one of the first k primes in the given order. */
  ghost predicate CoveredBy(ps: seq<nat>, rs: seq<nat>, ord: seq<nat>, k: nat, j: nat)
    requires |ps| == |rs| && k <= |ord|
  {
    exists x :: 0 <= x < k && ord[x] < |ps| && ps[ord[x]] > 0 && Divides(ps[ord[x]], rs[ord[x]], j)
  }

  /** The k-th prime took a residue that covers the most of what its predecessors leave. */
  ghost predicate GreedyChoice(ps: seq<nat>, rs: seq<nat>, ord: seq<nat>, k: nat, n: nat)
    requires |ps| == |rs| && k < |ord|
  {
    ord[k] < |ps| && ps[ord[k]] > 0 &&
    exists c: seq<bool> :: |c| == n && (forall j :: 1 <= j < n ==> c[j] == CoveredBy(ps, rs, ord, k, j))
                           && Greediest(c, ps[ord[k]], rs[ord[k]])
  }

  lemma CoveredByNone(ps: seq<nat>, rs: seq<nat>, ord: seq<nat>, j: nat)
    requires |ps| == |rs|
    ensures !CoveredBy(ps, rs, ord, 0, j)
  {
  }

  /** Later residues do not matter for the primes before. */
  lemma CoveredByEarlier(ps: seq<nat>, rs: seq<nat>, ord: seq<nat>, k: nat, v: nat, x: nat, j: nat)
    requires |ps| == |rs| == |ord| && Order(ord) && x <= k < |ord| && ord[k] < |ps|
    ensures CoveredBy(ps, rs[ord[k] := v], ord, x, j) == CoveredBy(ps, rs, ord, x, j)
  {
    hide Divides;
    var rs' := rs[ord[k] := v];
    forall y | 0 <= y < x ensures ord[y] < |ps| && rs'[ord[y]] == rs[ord[y]] {
      assert ord[y] in ord && ord[y] != ord[k];
    }
  }

  lemma CoveredByNext(ps: seq<nat>, rs: seq<nat>, ord: seq<nat>, k: nat, j: nat)
    requires |ps| == |rs| == |ord| && k < |ord| && ord[k] < |ps| && ps[ord[k]] > 0
    ensures CoveredBy(ps, rs, ord, k + 1, j) <==> CoveredBy(ps, rs, ord, k, j) || Divides(ps[ord[k]], rs[ord[k]], j)
  {
    hide Divides;
  }

  /** The k-th choice joins the earlier ones. */
  lemma NextChoice(ps: seq<nat>, rs: seq<nat>, ord: seq<nat>, k: nat, v: nat, c: seq<bool>)
    requires |ps| == |rs| == |ord| && Order(ord) && k < |ord| && Primes(ps) && ord[k] < |ps|
    requires forall j :: 1 <= j < |c| ==> c[j] == CoveredBy(ps, rs, ord, k, j)
    requires Greediest(c, ps[ord[k]], v)
    requires forall x :: 0 <= x < k ==> GreedyChoice(ps, rs, ord, x, |c|)
    ensures var rs' := rs[ord[k] := v];
            && (forall x :: 0 <= x <= k ==> GreedyChoice(ps, rs', ord, x, |c|))
            && forall j :: 1 <= j < |c| ==> (CoveredBy(ps, rs', ord, k + 1, j) <==> c[j] || Divides(ps[ord[k]], v, j))
  {
    hide Divides, Greediest, CoveredBy;
    var rs' := rs[ord[k] := v];
    forall j | 1 <= j < |c| ensures CoveredBy(ps, rs', ord, k + 1, j) <==> c[j] || Divides(ps[ord[k]], v, j) {
      CoveredByNext(ps, rs', ord, k, j);
      CoveredByEarlier(ps, rs, ord, k, v, k, j);
    }
    forall j | 1 <= j < |c| ensures c[j] == CoveredBy(ps, rs', ord, k, j) {
      CoveredByEarlier(ps, rs, ord, k, v, k, j);
    }
    assert GreedyChoice(ps, rs', ord, k, |c|);
    forall x | 0 <= x < k ensures GreedyChoice(ps, rs', ord, x, |c|) { EarlierChoice(ps, rs, ord, k, v, x, |c|); }
  }

  lemma EarlierChoice(ps: seq<nat>, rs: seq<nat>, ord: seq<nat>, k: nat, v: nat, x: nat, n: nat)
    requires |ps| == |rs| == |ord| && Order(ord) && x < k < |ord| && ord[k] < |ps| && GreedyChoice(ps, rs, ord, x, n)
    ensures GreedyChoice(ps, rs[ord[k] := v], ord, x, n)
  {
    hide Divides, Greediest, CoveredBy;
    var rs' := rs[ord[k] := v];
    var c: seq<bool> :| |c| == n && (forall j :: 1 <= j < n ==> c[j] == CoveredBy(ps, rs, ord, x, j))
                        && Greediest(c, ps[ord[x]], rs[ord[x]]);
    forall j | 1 <= j < n ensures c[j] == CoveredBy(ps, rs', ord, x, j) { CoveredByEarlier(ps, rs, ord, k, v, x, j); }
    assert rs'[ord[x]] == rs[ord[x]];
  }

  lemma FewerIsNoWorse(ps: seq<nat>, n: nat, tried: seq<seq<nat>>, a: nat, b: nat)
    requires NoneBetter(ps, n, tried, a) && b <= a
    ensures NoneBetter(ps, n, tried, b)
  {
  }
}
