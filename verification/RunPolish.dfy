/** The run polish of the cover search (run_polish of new_src/covering.c): for each prime a
    residue chosen by the survivors it leaves and by an estimate of the longest covered run. */
module RunPolish {
  import opened Marking
  import opened Cover
  import opened Covering

  // ------------------------------------------------------------------ run boundaries

  /** a to b is the whole marked run around t. */
  ghost predicate MarkedRun(c: seq<bool>, a: nat, t: nat, b: nat) {
    && 1 <= a <= t <= b < |c| && (forall x :: a <= x <= b ==> c[x])
    && (a > 1 ==> !c[a - 1]) && (b + 1 < |c| ==> !c[b + 1])
  }

  /** Every marked position below `upto` knows its run. */
  ghost predicate Runs(c: seq<bool>, left: seq<nat>, right: seq<nat>, upto: nat) {
    && |left| == |right| == |c|
    && forall t :: 1 <= t < upto && t < |c| && c[t] ==> MarkedRun(c, left[t], t, right[t])
  }

  /** An unbroken marked stretch, counted from both ends. */
  lemma {:induction false} RunToIs(c: seq<bool>, a: nat, j: nat)
    requires 1 <= a <= j <= |c| && (forall x :: a <= x < j ==> c[x]) && (a > 1 ==> !c[a - 1])
    ensures RunTo(c, j) == j - a
    decreases j
  {
    if a < j { RunToIs(c, a, j - 1); }
  }

  lemma {:induction false} RunFromIs(c: seq<bool>, j: nat, e: nat)
    requires 1 <= j <= e <= |c| && (forall x :: j <= x < e ==> c[x]) && (e < |c| ==> !c[e])
    ensures RunFrom(c, j) == e - j
    decreases e - j
  {
    if j < e { RunFromIs(c, j + 1, e); }
  }

  /** Run boundaries, longest run and free positions of a table. */
  method Boundaries(c: array<bool>, left: array<nat>, right: array<nat>) returns (baseRun: nat, baseSurv: nat)
    requires left != right && left.Length == right.Length == c.Length
    modifies left, right
    ensures Runs(c[..], left[..], right[..], c.Length)
    ensures baseSurv == Free(c[..], c.Length) && baseRun == Longest(c[..], c.Length)
  {
    baseRun, baseSurv := 0, 0;
    ghost var t := c[..];
    if c.Length <= 1 { return; }
    var j := 1;
    while j < c.Length
      invariant 1 <= j <= c.Length && c[..] == t
      invariant Runs(t, left[..], right[..], j)
      invariant baseSurv == Free(t, j) && baseRun == Longest(t, j)
      invariant j < c.Length && t[j] ==> RunTo(t, j) == 0
    {
      if !c[j] {
        baseSurv := baseSurv + 1;
        j := j + 1;
      } else {
        var s := j;
        ghost var was := baseRun;
        while j < c.Length && c[j]
          invariant s <= j <= c.Length && forall x :: s <= x < j ==> t[x]
          invariant baseSurv == Free(t, j) && RunTo(t, j) == j - s
          invariant Longest(t, j) == if j - s > was then j - s else was
          invariant j == s ==> c[j]
        {
          j := j + 1;
        }
        var e := j - 1;
        if e - s + 1 > baseRun { baseRun := e - s + 1; }
        FillRun(c, left, right, s, e);
      }
    }
  }

  /** Write one run's boundaries. */
  method FillRun(c: array<bool>, left: array<nat>, right: array<nat>, s: nat, e: nat)
    requires left != right && left.Length == right.Length == c.Length && 1 <= s <= e
    requires MarkedRun(c[..], s, s, e) && Runs(c[..], left[..], right[..], s)
    modifies left, right
    ensures Runs(c[..], left[..], right[..], e + 1)
  {
    ghost var t := c[..];
    for x := s to e + 1
      invariant Runs(t, left[..], right[..], x) && c[..] == t
    {
      left[x] := s;
      right[x] := e;
      assert MarkedRun(t, s, x, e);
    }
  }

  // ------------------------------------------------------------------ the estimate

  /** The run that a mark at a free position joins. */
  function Merged(c: seq<bool>, j: nat): nat
    requires 1 <= j < |c|
  {
    1 + RunTo(c, j) + RunFrom(c, j + 1)
  }

  /** The run estimate of residue r of p, from its marks below n: the longest run of the table
      or the longest one that a single mark joins. */
  function Estimate(c: seq<bool>, p: nat, r: nat, n: nat): nat
    requires p > 0 && n <= |c|
  {
    if n <= 1 then Longest(c, |c|)
    else
      var e := Estimate(c, p, r, n - 1);
      if !c[n - 1] && Divides(p, r, n - 1) && Merged(c, n - 1) > e then Merged(c, n - 1) else e
  }

  function EstimateBefore(c: seq<bool>, p: nat, r: nat, j: nat): nat
    requires p > 0
  {
    Estimate(c, p, r, if j <= |c| then j else |c|)
  }

  function GainBefore(c: seq<bool>, p: nat, r: nat, j: nat): nat
    requires p > 0
  {
    Gain(c, p, r, if j <= |c| then j else |c|)
  }

  lemma {:induction false} EstimateSkips(c: seq<bool>, p: nat, r: nat, a: nat, b: nat)
    requires p > 0 && 1 <= a <= b <= |c| && forall j :: a <= j < b ==> !Divides(p, r, j)
    ensures Estimate(c, p, r, b) == Estimate(c, p, r, a)
    decreases b - a
  {
    hide Divides, Longest;
    if a < b { EstimateSkips(c, p, r, a, b - 1); }
  }

  lemma FirstMark(c: seq<bool>, p: nat, r: nat, j: nat)
    requires p > 0 && 0 < j && forall x :: 0 < x < j ==> !Divides(p, r, x)
    ensures GainBefore(c, p, r, j) == 0 && EstimateBefore(c, p, r, j) == Longest(c, |c|)
  {
    if |c| > 0 {
      GainSkips(c, p, r, 1, if j <= |c| then j else |c|);
      EstimateSkips(c, p, r, 1, if j <= |c| then j else |c|);
    }
  }

  lemma NextMark(c: seq<bool>, p: nat, r: nat, j: nat)
    requires p > 0 && 0 < j < |c| && Divides(p, r, j)
    ensures GainBefore(c, p, r, j + p) == GainBefore(c, p, r, j) + if c[j] then 0 else 1
    ensures var e := EstimateBefore(c, p, r, j);
            EstimateBefore(c, p, r, j + p) == if !c[j] && Merged(c, j) > e then Merged(c, j) else e
  {
    NextMultiple(r, j, p);
    var next := if j + p <= |c| then j + p else |c|;
    GainSkips(c, p, r, j + 1, next);
    EstimateSkips(c, p, r, j + 1, next);
  }

  /** The recorded boundaries give the merged run. */
  lemma BoundariesMerge(c: seq<bool>, left: seq<nat>, right: seq<nat>, j: nat)
    requires Runs(c, left, right, |c|) && 1 <= j < |c| && !c[j] && !c[0]
    ensures c[j - 1] ==> right[j - 1] + 1 >= left[j - 1] && RunTo(c, j) == right[j - 1] - left[j - 1] + 1
    ensures !c[j - 1] ==> RunTo(c, j) == 0
    ensures j + 1 < |c| && c[j + 1] ==>
              right[j + 1] + 1 >= left[j + 1] && RunFrom(c, j + 1) == right[j + 1] - left[j + 1] + 1
    ensures !(j + 1 < |c| && c[j + 1]) ==> RunFrom(c, j + 1) == 0
  {
    if c[j - 1] {
      assert MarkedRun(c, left[j - 1], j - 1, right[j - 1]);
      RunToIs(c, left[j - 1], j);
    }
    if j + 1 < |c| && c[j + 1] {
      assert MarkedRun(c, left[j + 1], j + 1, right[j + 1]);
      RunFromIs(c, j + 1, right[j + 1] + 1);
    }
  }

  /** What residue r of p would do: the free positions it covers and its run estimate. */
  method Trial(c: array<bool>, left: array<nat>, right: array<nat>, p: nat, r: nat, baseRun: nat)
    returns (run: nat, ncov: nat)
    requires p > 0 && left.Length == right.Length == c.Length && Runs(c[..], left[..], right[..], c.Length)
    requires (c.Length > 0 ==> !c[0]) && baseRun == Longest(c[..], c.Length)
    ensures ncov == Gain(c[..], p, r, c.Length) && run == Estimate(c[..], p, r, c.Length)
  {
    hide Divides, Longest, RunTo, RunFrom, Runs, Gain, Estimate;
    run, ncov := baseRun, 0;
    ghost var t := c[..];
    var j := FirstHit(p, r);
    FirstMark(t, p, r, j);
    while j < c.Length
      invariant j > 0 && Divides(p, r, j)
      invariant run == EstimateBefore(t, p, r, j) && ncov == GainBefore(t, p, r, j)
      decreases c.Length - j
    {
      NextMark(t, p, r, j);
      NextMultiple(r, j, p);
      if !c[j] {
        ncov := ncov + 1;
        BoundariesMerge(t, left[..], right[..], j);
        var len := 1;
        if c[j - 1] { len := len + (right[j - 1] - left[j - 1] + 1); }
        if j + 1 < c.Length && c[j + 1] { len := len + (right[j + 1] - left[j + 1] + 1); }
        if len > run { run := len; }
      }
      j := j + p;
    }
  }

  // ------------------------------------------------------------------ estimate and truth

  /** The table with residue r of p marked as well. */
  ghost function Marks(c: seq<bool>, p: nat, r: nat): (d: seq<bool>)
    requires p > 0
    ensures |d| == |c| && forall j :: 1 <= j < |c| ==> d[j] == (c[j] || Divides(p, r, j))
  {
    seq(|c|, j requires 0 <= j < |c| => c[j] || Divides(p, r, j))
  }

  /** The positions from a up to e are marked in d, and at most one of them is free in c. */
  ghost predicate OneJoin(c: seq<bool>, d: seq<bool>, a: nat, e: nat)
    requires |c| == |d|
  {
    && 1 <= a <= e <= |d| && (forall x :: a <= x < e ==> d[x])
    && forall x, y :: a <= x < e && a <= y < e && !c[x] && !c[y] ==> x == y
  }

  /** A longest run of d that needs at most one new mark. */
  ghost predicate LongestByOneMark(c: seq<bool>, d: seq<bool>)
    requires |c| == |d|
  {
    exists a: nat, e: nat :: OneJoin(c, d, a, e) && e - a == Longest(d, |d|)
  }

  lemma {:induction false} RunInside(c: seq<bool>, a: nat, e: nat, n: nat)
    requires 1 <= a <= e <= n <= |c| && forall x :: a <= x < e ==> c[x]
    ensures e - a <= RunTo(c, e) && e - a <= Longest(c, n)
    decreases n, e
  {
    if a < e {
      RunInside(c, a, e - 1, n - 1);
      if e < n { RunInside(c, a, e, n - 1); }
    }
  }

  lemma {:induction false} RunAfter(c: seq<bool>, j: nat, e: nat)
    requires 1 <= j <= e <= |c| && forall x :: j <= x < e ==> c[x]
    ensures e - j <= RunFrom(c, j)
    decreases e - j
  {
    if j < e { RunAfter(c, j + 1, e); }
  }

  lemma {:induction false} RunToExtent(c: seq<bool>, j: nat)
    requires 1 <= j <= |c|
    ensures RunTo(c, j) < j && forall x :: j - RunTo(c, j) <= x < j ==> c[x]
  {
    if j > 1 && c[j - 1] { RunToExtent(c, j - 1); }
  }

  lemma {:induction false} RunFromExtent(c: seq<bool>, j: nat)
    requires 1 <= j <= |c|
    ensures j + RunFrom(c, j) <= |c| && forall x :: j <= x < j + RunFrom(c, j) ==> c[x]
    decreases |c| - j
  {
    if j < |c| && c[j] { RunFromExtent(c, j + 1); }
  }

  /** The longest run lies somewhere. */
  lemma {:induction false} LongestAt(c: seq<bool>, n: nat) returns (a: nat, e: nat)
    requires 1 <= n <= |c|
    ensures 1 <= a <= e <= n && e - a == Longest(c, n) && forall x :: a <= x < e ==> c[x]
  {
    if n == 1 {
      a, e := 1, 1;
    } else if RunTo(c, n) > Longest(c, n - 1) {
      RunToExtent(c, n);
      a, e := n - RunTo(c, n), n;
    } else {
      a, e := LongestAt(c, n - 1);
    }
  }

  /** The estimate lies somewhere in the marked table, with one join at most. */
  lemma {:induction false} EstimateAt(c: seq<bool>, p: nat, r: nat, n: nat) returns (a: nat, e: nat)
    requires p > 0 && 1 <= n <= |c|
    ensures OneJoin(c, Marks(c, p, r), a, e) && e - a == Estimate(c, p, r, n)
  {
    hide Divides, Longest;
    if n == 1 {
      a, e := LongestAt(c, |c|);
    } else if Estimate(c, p, r, n) == Estimate(c, p, r, n - 1) {
      a, e := EstimateAt(c, p, r, n - 1);
    } else {
      var j := n - 1;
      RunToExtent(c, j);
      RunFromExtent(c, j + 1);
      a, e := j - RunTo(c, j), j + 1 + RunFrom(c, j + 1);
    }
  }

  lemma {:induction false} EstimateCovers(c: seq<bool>, p: nat, r: nat, j: nat, n: nat)
    requires p > 0 && 1 <= n <= |c|
    ensures Estimate(c, p, r, n) >= Longest(c, |c|)
    ensures 1 <= j < n && !c[j] && Divides(p, r, j) ==> Estimate(c, p, r, n) >= Merged(c, j)
  {
    hide Divides, Longest;
    if n > 1 { EstimateCovers(c, p, r, j, n - 1); }
  }

  /** What one mark joins, the estimate sees. */
  lemma OneJoinSeen(c: seq<bool>, p: nat, r: nat, a: nat, e: nat)
    requires p > 0 && |c| >= 1 && OneJoin(c, Marks(c, p, r), a, e)
    ensures e - a <= Estimate(c, p, r, |c|)
  {
    hide Divides, Longest, RunTo, RunFrom, Estimate;
    if j :| a <= j < e && !c[j] {
      assert Marks(c, p, r)[j];
      EstimateCovers(c, p, r, j, |c|);
      RunInside(c, a, j, |c|);
      RunAfter(c, j + 1, e);
    } else {
      EstimateCovers(c, p, r, 0, |c|);
      RunInside(c, a, e, |c|);
    }
  }

  /** The estimate never exceeds the longest run that the residue leads to, and it is that run
      exactly when some longest run needs at most one new mark. */
  lemma EstimateExactlyWhen(c: seq<bool>, p: nat, r: nat)
    requires p > 0 && |c| >= 1
    ensures var d := Marks(c, p, r);
            && Estimate(c, p, r, |c|) <= Longest(d, |d|)
            && (Estimate(c, p, r, |c|) == Longest(d, |d|) <==> LongestByOneMark(c, d))
  {
    hide Divides, Longest, Estimate;
    var d := Marks(c, p, r);
    var a, e := EstimateAt(c, p, r, |c|);
    RunInside(d, a, e, |d|);
    if LongestByOneMark(c, d) {
      var a': nat, e': nat :| OneJoin(c, d, a', e') && e' - a' == Longest(d, |d|);
      OneJoinSeen(c, p, r, a', e');
    }
  }

  /** Two marks around one run: the estimate is 3, the run is 4. */
  lemma EstimateMissesDoubleJoin()
    ensures var c := [false, false, true, true, false];
            Estimate(c, 3, 2, 5) == 3 && Longest(Marks(c, 3, 2), 5) == 4
  {
    var c := [false, false, true, true, false];
    var d := Marks(c, 3, 2);
    InstanceMarks(c);
    assert Estimate(c, 3, 2, 5) == 3 by { hide Divides, Longest, Merged; }
    hide Estimate;
    assert d[1] && d[2] && d[3] && d[4];
    RunInside(d, 1, 5, 5);
    LongestBelow(d, 5);
  }

  lemma InstanceMarks(c: seq<bool>)
    requires c == [false, false, true, true, false]
    ensures Longest(c, |c|) == 2 && Merged(c, 1) == 3 && Merged(c, 4) == 3
    ensures Divides(3, 2, 1) && !Divides(3, 2, 2) && !Divides(3, 2, 3) && Divides(3, 2, 4)
  {
    RunToIs(c, 1, 1);
    RunFromIs(c, 2, 4);
    RunToIs(c, 2, 4);
    RunFromIs(c, 5, 5);
    assert Longest(c, 2) == 0 && Longest(c, 3) == 1 && Longest(c, 4) == 2;
  }

  lemma {:induction false} LongestBelow(c: seq<bool>, n: nat)
    requires 1 <= n <= |c|
    ensures Longest(c, n) <= n - 1
  {
    if n > 1 {
      LongestBelow(c, n - 1);
      RunToExtent(c, n);
    }
  }

  // ------------------------------------------------------------------ the polish

  /** (a, b) is not better than (x, y). */
  predicate NoBetter(a: nat, b: nat, x: nat, y: nat) { a < x || (a == x && b <= y) }

  /** No residue of p beats r: in the lexicographic mode by gain and then by estimated run,
      otherwise by estimated run and then by gain. */
  ghost predicate Preferred(lex: bool, c: seq<bool>, p: nat, r: nat)
    requires p > 0
  {
    forall x :: 1 <= x < p ==>
      var (g, e, g', e') := (Gain(c, p, x, |c|), Estimate(c, p, x, |c|), Gain(c, p, r, |c|), Estimate(c, p, r, |c|));
      if lex then NoBetter(g, e, g', e') else NoBetter(e, g, e', g')
  }

  /** The choice of run_polish for one prime. */
  method PolishPick(lex: bool, c: array<bool>, left: array<nat>, right: array<nat>, p: nat, current: nat,
                    baseRun: nat, baseSurv: nat)
    returns (best: nat)
    requires p >= 2 && left.Length == right.Length == c.Length && Runs(c[..], left[..], right[..], c.Length)
    requires c.Length > 0 ==> !c[0]
    requires baseSurv == Free(c[..], c.Length) && baseRun == Longest(c[..], c.Length)
    requires forall x :: 1 <= x < p ==> Gain(c[..], p, x, c.Length) <= baseSurv
    ensures 1 <= best < p && Preferred(lex, c[..], p, best)
  {
    hide Gain, Runs, Longest, Free, Estimate;
    best := current;
    var bestRun, bestCov, bestSurv := 0, 0, baseSurv;
    var first := true;
    ghost var t := c[..];
    for r := 1 to p
      invariant first <==> r == 1
      invariant !first ==> 1 <= best < p && bestCov == Gain(t, p, best, |t|) && bestRun == Estimate(t, p, best, |t|)
      invariant if first || !lex then bestSurv == baseSurv else bestSurv == baseSurv - bestCov
      invariant lex ==> forall x :: 1 <= x < r ==>
          NoBetter(Gain(t, p, x, |t|), Estimate(t, p, x, |t|), bestCov, bestRun)
      invariant !lex ==> forall x :: 1 <= x < r ==>
          NoBetter(Estimate(t, p, x, |t|), Gain(t, p, x, |t|), bestRun, bestCov)
    {
      var run, ncov := Trial(c, left, right, p, r, baseRun);
      var better;
      if lex {
        var surv := baseSurv - ncov;
        better := first || surv < bestSurv || (surv == bestSurv && run > bestRun)
                  || (surv == bestSurv && run == bestRun && ncov > bestCov);
        if surv < bestSurv { bestSurv := surv; }
      } else {
        better := first || run > bestRun || (run == bestRun && ncov > bestCov);
      }
      if better { best, bestRun, bestCov, first := r, run, ncov, false; }
    }
  }

  /** The table without prime i. */
  ghost function TableWithout(ps: seq<nat>, rs: seq<nat>, i: nat, n: nat): (c: seq<bool>)
    requires |ps| == |rs|
    ensures |c| == n && IsTableBut(ps, rs, i, c) && (n > 0 ==> !c[0])
  {
    seq(n, j requires 0 <= j => j > 0 && CoveredBut(ps, rs, i, |ps|, j))
  }

  /** One prime's step: only its residue changes, to a preferred one. */
  ghost predicate PolishStep(lex: bool, ps: seq<nat>, n: nat, rs: seq<nat>, rs': seq<nat>, i: nat) {
    && Usable(ps, rs) && Usable(ps, rs') && i < |ps| && rs' == rs[i := rs'[i]]
    && Preferred(lex, TableWithout(ps, rs, i, n), ps[i], rs'[i])
  }

  /** The residue vectors between the steps. */
  ghost predicate Trail(lex: bool, ps: seq<nat>, n: nat, trail: seq<seq<nat>>) {
    |trail| == |ps| + 1 && forall i :: 0 <= i < |ps| ==> PolishStep(lex, ps, n, trail[i], trail[i + 1], i)
  }

  /** run_polish: one preferred residue after the other. */
  method Polish(lex: bool, ps: seq<nat>, n: nat, rs: array<nat>) returns (ghost trail: seq<seq<nat>>)
    requires Usable(ps, rs[..]) && Primes(ps)
    modifies rs
    ensures Usable(ps, rs[..])
    ensures Trail(lex, ps, n, trail) && trail[0] == old(rs[..]) && trail[|ps|] == rs[..]
    ensures lex ==> Surviving(ps, rs[..], n) <= Surviving(ps, old(rs[..]), n)
  {
    hide Gain, IsTableBut, Surviving, Preferred, Runs, Longest, Free, TableWithout;
    var covered, left, right := new bool[n], new nat[n], new nat[n];
    ghost var was := rs[..];
    trail := [was];
    for i := 0 to |ps|
      invariant Usable(ps, rs[..]) && (lex ==> Surviving(ps, rs[..], n) <= Surviving(ps, was, n))
      invariant |trail| == i + 1 && trail[0] == was && trail[i] == rs[..]
      invariant forall k :: 0 <= k < i ==> PolishStep(lex, ps, n, trail[k], trail[k + 1], k)
    {
      TableBut(covered, ps, rs[..], i);
      ghost var c := covered[..];
      SameTable(ps, rs[..], i, c);
      var baseRun, baseSurv := Boundaries(covered, left, right);
      assert covered[..] == c;
      GainsBounded(ps, rs[..], i, c);
      var best := PolishPick(lex, covered, left, right, ps[i], rs[i], baseRun, baseSurv);
      ghost var prev := rs[..];
      rs[i] := best;
      assert rs[..] == prev[i := best];
      assert PolishStep(lex, ps, n, prev, rs[..], i);
      if lex { StepKeepsSurvivors(ps, n, prev, rs[..], i); }
      trail := trail + [rs[..]];
    }
  }

  lemma SameTable(ps: seq<nat>, rs: seq<nat>, i: nat, c: seq<bool>)
    requires |ps| == |rs| && IsTableBut(ps, rs, i, c) && (|c| > 0 ==> !c[0])
    ensures c == TableWithout(ps, rs, i, |c|)
  {
    hide CoveredBut;
  }

  lemma GainsBounded(ps: seq<nat>, rs: seq<nat>, i: nat, c: seq<bool>)
    requires |ps| == |rs| && i < |ps| && ps[i] > 0 && IsTableBut(ps, rs, i, c)
    ensures forall x :: 1 <= x < ps[i] ==> Gain(c, ps[i], x, |c|) <= Free(c, |c|)
  {
    hide Gain, IsTableBut, Free;
    forall x | 1 <= x < ps[i] ensures Gain(c, ps[i], x, |c|) <= Free(c, |c|) {
      Replacement(ps, rs, i, c, x, |c|);
    }
  }

  /** In the lexicographic mode a step never leaves more survivors. */
  lemma StepKeepsSurvivors(ps: seq<nat>, n: nat, rs: seq<nat>, rs': seq<nat>, i: nat)
    requires PolishStep(true, ps, n, rs, rs', i)
    ensures Surviving(ps, rs', n) <= Surviving(ps, rs, n)
  {
    hide Gain, Surviving;
    var c := TableWithout(ps, rs, i, n);
    Replacement(ps, rs, i, c, rs'[i], n);
    Replacement(ps, rs, i, c, rs[i], n);
    assert rs[i := rs[i]] == rs;
  }

  /** The longest covered run of a residue vector. */
  ghost function LongestRun(ps: seq<nat>, rs: seq<nat>, n: nat): nat
    requires |ps| == |rs|
  {
    Longest(Table(ps, rs, n), n)
  }

  lemma RunOfReplacement(ps: seq<nat>, rs: seq<nat>, i: nat, r: nat, n: nat)
    requires i < |ps| == |rs| && ps[i] > 0
    ensures LongestRun(ps, rs[i := r], n) == Longest(Marks(TableWithout(ps, rs, i, n), ps[i], r), n)
  {
    hide Covered, CoveredBut, Divides, Longest;
    var d := Marks(TableWithout(ps, rs, i, n), ps[i], r);
    var t := Table(ps, rs[i := r], n);
    forall j | 1 <= j < n ensures t[j] == d[j] { WithResidue(ps, rs, i, r, j); }
    SameRuns(t, d, n);
  }

  /** In the run mode a step leads at least to the estimated run of the residue it replaces; so
      the run does not fall where that estimate was exact. */
  lemma StepKeepsRun(ps: seq<nat>, n: nat, rs: seq<nat>, rs': seq<nat>, i: nat)
    requires PolishStep(false, ps, n, rs, rs', i) && n >= 1
    ensures var c := TableWithout(ps, rs, i, n);
            && LongestRun(ps, rs', n) >= Estimate(c, ps[i], rs[i], n)
            && (LongestByOneMark(c, Marks(c, ps[i], rs[i])) ==> LongestRun(ps, rs', n) >= LongestRun(ps, rs, n))
  {
    hide Longest, Estimate, LongestByOneMark;
    var c := TableWithout(ps, rs, i, n);
    EstimateExactlyWhen(c, ps[i], rs'[i]);
    EstimateExactlyWhen(c, ps[i], rs[i]);
    RunOfReplacement(ps, rs, i, rs'[i], n);
    RunOfReplacement(ps, rs, i, rs[i], n);
    assert rs[i := rs[i]] == rs;
    hide TableWithout, Marks, Gain;
    assert Estimate(c, ps[i], rs[i], n) <= Estimate(c, ps[i], rs'[i], n);
  }
}
