/** What a set of residues covers, and the two programs that list what it leaves uncovered:
    covering_survivors of new_src/covering.c and gap_target_build of new_src/gap_target.c. */
module Cover {
  import opened NumberTheory
  import opened Marking
  import opened GapChain

  /** Moduli of a cover. */
  ghost predicate Moduli(ps: seq<nat>) {
    forall i :: 0 <= i < |ps| ==> ps[i] > 0
  }

  /** Position j is covered by one of the first k primes. */
  ghost predicate Covered(ps: seq<nat>, rs: seq<nat>, k: nat, j: nat)
    requires k <= |ps| == |rs|
  {
    exists i :: 0 <= i < k && ps[i] > 0 && Divides(ps[i], rs[i], j)
  }

  /** The uncovered positions in [1, n), ascending. */
  ghost function Uncovered(ps: seq<nat>, rs: seq<nat>, n: nat): seq<nat>
    requires |ps| == |rs|
  {
    if n <= 1 then []
    else Uncovered(ps, rs, n - 1) + if Covered(ps, rs, |ps|, n - 1) then [] else [n - 1]
  }

  lemma {:induction false} UncoveredMembers(ps: seq<nat>, rs: seq<nat>, n: nat)
    requires |ps| == |rs|
    ensures Ascending(Uncovered(ps, rs, n)) && |Uncovered(ps, rs, n)| <= n
    ensures forall j: nat :: j in Uncovered(ps, rs, n) <==> 1 <= j < n && !Covered(ps, rs, |ps|, j)
  {
    hide Covered;
    if n > 1 {
      UncoveredMembers(ps, rs, n - 1);
      AscendingAppend(Uncovered(ps, rs, n - 1), n - 1);
    }
  }

  /** first_hit: the first covered position in (0, p]. */
  function FirstHit(p: nat, r: nat): (f: nat)
    requires p > 0
    ensures 0 < f <= p && Divides(p, r, f)
    ensures forall j :: 0 < j < f ==> !Divides(p, r, j)
  {
    FirstMultiple(r, p);
    var f := (p - r % p) % p;
    if f > 0 then FirstOfResidue(p, r % p); f
    else FirstOfResidue(p, r % p); NextMultiple(r, 0, p); p
  }

  lemma FirstOfResidue(p: nat, m: nat)
    requires m < p
    ensures (p - m) % p == if m > 0 then p - m else 0
  {
    if m > 0 { ModSmall(p - m, p); }
  }

  /** mark_cover: everything one prime covers, from 1 on. */
  method MarkCover(covered: array<bool>, p: nat, r: nat)
    requires p > 0
    modifies covered
    ensures forall j :: 1 <= j < covered.Length ==> covered[j] == (old(covered[j]) || Divides(p, r, j))
    ensures covered.Length > 0 ==> covered[0] == old(covered[0])
  {
    hide Divides;
    ghost var was := covered[..];
    var j := FirstHit(p, r);
    while j < covered.Length
      invariant j > 0 && Divides(p, r, j)
      invariant forall i :: 1 <= i < j && i < covered.Length ==> covered[i] == (was[i] || Divides(p, r, i))
      invariant forall i :: j <= i < covered.Length ==> covered[i] == was[i]
      invariant covered.Length > 0 ==> covered[0] == was[0]
      decreases covered.Length - j
    {
      covered[j] := true;
      NextMultiple(r, j, p);
      j := j + p;
    }
  }

  /** Collect the unmarked positions from 1 on. */
  method CollectUnmarked(covered: array<bool>, ghost ps: seq<nat>, ghost rs: seq<nat>) returns (out: array<nat>, n: nat)
    requires |ps| == |rs| && forall j :: 1 <= j < covered.Length ==> covered[j] == Covered(ps, rs, |ps|, j)
    ensures fresh(out) && n <= out.Length && out[..n] == Uncovered(ps, rs, covered.Length)
  {
    hide Covered;
    out, n := new nat[covered.Length], 0;
    var j := 1;
    while j < covered.Length
      invariant 1 <= j && n < j && (j <= covered.Length || covered.Length == 0)
      invariant n <= out.Length && out[..n] == Uncovered(ps, rs, j)
    {
      if !covered[j] {
        out[n] := j;
        n := n + 1;
      }
      j := j + 1;
    }
  }

  lemma NotYetCovered(ps: seq<nat>, rs: seq<nat>)
    requires |ps| == |rs|
    ensures forall j: nat :: !Covered(ps, rs, 0, j)
  {
  }

  lemma CoveredStep(ps: seq<nat>, rs: seq<nat>, k: nat, j: nat)
    requires k < |ps| == |rs| && ps[k] > 0
    ensures Covered(ps, rs, k + 1, j) <==> Covered(ps, rs, k, j) || Divides(ps[k], rs[k], j)
  {
    hide Divides;
  }

  /** The covered table of a residue vector. */
  method CoverTable(ps: seq<nat>, rs: seq<nat>, n: nat) returns (covered: array<bool>)
    requires |ps| == |rs| && Moduli(ps)
    ensures fresh(covered) && covered.Length == n
    ensures forall j :: 1 <= j < n ==> covered[j] == Covered(ps, rs, |ps|, j)
  {
    hide Covered, Divides;
    covered := new bool[n](_ => false);
    NotYetCovered(ps, rs);
    for i := 0 to |ps|
      invariant forall j :: 1 <= j < n ==> covered[j] == Covered(ps, rs, i, j)
    {
      forall j: nat ensures Covered(ps, rs, i + 1, j) <==> Covered(ps, rs, i, j) || Divides(ps[i], rs[i], j) {
        CoveredStep(ps, rs, i, j);
      }
      MarkCover(covered, ps[i], rs[i]);
    }
  }

  /** covering_survivors. */
  method Survivors(ps: seq<nat>, rs: seq<nat>, gapTarget: nat) returns (out: array<nat>, n: nat)
    requires |ps| == |rs| && Moduli(ps)
    ensures fresh(out) && n <= out.Length
    ensures out[..n] == if |ps| == 0 || gapTarget < 2 then [] else Uncovered(ps, rs, gapTarget)
  {
    if |ps| == 0 || gapTarget < 2 { return new nat[0], 0; }
    var covered := CoverTable(ps, rs, gapTarget);
    out, n := CollectUnmarked(covered, ps, rs);
  }

  /** gap_target_build: the same positions from a table that starts at 0.  It refuses an empty
      prime list and a gap below 2. */
  method GapTargetBuild(gapSize: nat, ps: seq<nat>, rs: seq<nat>) returns (ok: bool, out: array<nat>, n: nat)
    requires |ps| == |rs| && Moduli(ps)
    ensures ok <==> gapSize >= 2 && |ps| > 0
    ensures n <= out.Length && out[..n] == if ok then Uncovered(ps, rs, gapSize) else []
  {
    hide Covered, Divides;
    ok := gapSize >= 2 && |ps| > 0;
    if !ok { return false, new nat[0], 0; }
    var composite := new bool[gapSize](_ => false);
    NotYetCovered(ps, rs);
    for i := 0 to |ps|
      invariant forall j :: 0 <= j < gapSize ==> composite[j] == Covered(ps, rs, i, j)
    {
      forall j: nat ensures Covered(ps, rs, i + 1, j) <==> Covered(ps, rs, i, j) || Divides(ps[i], rs[i], j) {
        CoveredStep(ps, rs, i, j);
      }
      MarkFromZero(composite, ps[i], rs[i]);
    }
    out, n := CollectUnmarked(composite, ps, rs);
  }

  method MarkFromZero(composite: array<bool>, p: nat, residue: nat)
    requires p > 0
    modifies composite
    ensures forall j :: 0 <= j < composite.Length ==> composite[j] == (old(composite[j]) || Divides(p, residue, j))
  {
    hide Divides;
    ghost var was := composite[..];
    FirstMultiple(residue, p);
    FirstOfResidue(p, residue % p);
    var r := residue % p;
    var j := (p - r) % p;
    while j < composite.Length
      invariant j >= 0 && Divides(p, residue, j)
      invariant forall i :: 0 <= i < j && i < composite.Length ==> composite[i] == (was[i] || Divides(p, residue, i))
      invariant forall i :: j <= i < composite.Length ==> composite[i] == was[i]
      decreases composite.Length - j
    {
      composite[j] := true;
      NextMultiple(residue, j, p);
      j := j + p;
    }
  }

  /** A base solves the cover when it has the cover's residues. */
  ghost predicate HasResidues(ps: seq<nat>, rs: seq<nat>, base: nat)
    requires |ps| == |rs|
  {
    forall i :: 0 <= i < |ps| && ps[i] > 0 ==> Cong(base, rs[i], ps[i])
  }

  /** A primality test, exact or probabilistic, that accepts no proper multiple of a cover prime. */
  ghost predicate RejectsMultiples(ps: seq<nat>, isPrime: nat -> bool) {
    forall i, v: nat :: 0 <= i < |ps| && 2 <= ps[i] < v && v % ps[i] == 0 ==> !isPrime(v)
  }

  /** Above the primes of the cover, a covered position passes no such test. */
  lemma CoveredIsRejected(ps: seq<nat>, rs: seq<nat>, base: nat, j: nat, isPrime: nat -> bool)
    requires |ps| == |rs| && HasResidues(ps, rs, base) && Covered(ps, rs, |ps|, j)
    requires RejectsMultiples(ps, isPrime) && forall i :: 0 <= i < |ps| ==> 2 <= ps[i] < base
    ensures !isPrime(base + j)
  {
    var i :| 0 <= i < |ps| && ps[i] > 0 && Divides(ps[i], rs[i], j);
    CongAdd(base, rs[i], j, j, ps[i]);
    assert (base + j) % ps[i] == 0;
  }

  /** gap_target_check tests base and the survivors.  Over a base with the cover's residues and
      above its primes, and with a test that accepts no proper multiple of them, this decides
      whether base passes and nothing else below base + gapSize does. */
  method GapTargetCheck(ps: seq<nat>, rs: seq<nat>, gapSize: nat, survivors: seq<nat>, base: nat, isPrime: nat -> bool)
    returns (valid: bool)
    requires |ps| == |rs| && survivors == Uncovered(ps, rs, gapSize)
    ensures valid <==> isPrime(base) && forall j: nat :: j in survivors ==> Vacant(isPrime, base, j)
    ensures HasResidues(ps, rs, base) && (forall i :: 0 <= i < |ps| ==> 2 <= ps[i] < base)
            && RejectsMultiples(ps, isPrime) ==>
              (valid <==> isPrime(base) && forall j: nat :: 1 <= j < gapSize ==> Vacant(isPrime, base, j))
  {
    hide Covered, RejectsMultiples, HasResidues;
    UncoveredMembers(ps, rs, gapSize);
    if !isPrime(base) { return false; }
    valid := true;
    for k := 0 to |survivors|
      invariant forall i :: 0 <= i < k ==> Vacant(isPrime, base, survivors[i])
    {
      if isPrime(base + survivors[k]) {
        assert survivors[k] in survivors;
        assert !Vacant(isPrime, base, survivors[k]);
        return false;
      }
    }
    if HasResidues(ps, rs, base) && (forall i :: 0 <= i < |ps| ==> 2 <= ps[i] < base) && RejectsMultiples(ps, isPrime) {
      forall j: nat | 1 <= j < gapSize ensures Vacant(isPrime, base, j) {
        if j !in survivors { CoveredIsRejected(ps, rs, base, j, isPrime); }
      }
    }
  }

  predicate Vacant(isPrime: nat -> bool, base: nat, j: nat) { !isPrime(base + j) }
}
