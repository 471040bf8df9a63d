/** The static composite template of a cover (new_src/crt_runtime.c), the aligned anchor of the
    gap walk (align_anchor of new_src/gap_hunt.c), and what a marked slot means. */
module Template {
  import opened NumberTheory
  import opened Crt
  import opened Marking
  import opened GapChain
  import Cover
  import HalfClass

  // ------------------------------------------------------------------ one prime's slots

  /** Odd position 2 * s + 1 has the residue of c modulo p. */
  ghost predicate SlotHit(p: nat, c: nat, s: nat)
    requires p > 0
  {
    Cong(2 * s + 1, c, p)
  }

  lemma SlotsApart(p: nat, c: nat, u: nat, s: nat)
    requires p % 2 == 1 && u < s && SlotHit(p, c, u) && SlotHit(p, c, s)
    ensures s >= u + p
  {
    CongAdd(2 * u + 1, 2 * s + 1, -1, -1, p);
    CancelTwo(u, s, p);
    var k := CongMultiple(u, s, p);
    if k < 0 { MulLe(k, -1, p); } else { MulLe(0, k, p); }
  }

  lemma NextSlot(p: nat, c: nat, u: nat)
    requires p % 2 == 1 && SlotHit(p, c, u)
    ensures SlotHit(p, c, u + p)
    ensures forall s: nat :: u < s < u + p ==> !SlotHit(p, c, s)
  {
    CongByMultiple(2 * (u + p) + 1, 2 * u + 1, 2, p);
    forall s: nat | u < s < u + p ensures !SlotHit(p, c, s) {
      if SlotHit(p, c, s) { SlotsApart(p, c, u, s); }
    }
  }

  /** The first odd position of a residue. */
  function FirstOdd(p: nat, c: nat): nat
    requires p > 0
  {
    var t := if c % p == 0 then p else c % p;
    if t % 2 == 0 then t + p else t
  }

  lemma FirstOddIs(p: nat, c: nat) returns (u: nat)
    requires p % 2 == 1
    ensures FirstOdd(p, c) == 2 * u + 1 && u <= p && SlotHit(p, c, u)
  {
    var r := c % p;
    var t := if r == 0 then p else r;
    var f := if t % 2 == 0 then t + p else t;
    u := f / 2;
    CongMod(c, p);
    hide *;
    CongByMultiple(t, r, if r == 0 then 1 else 0, p);
    CongByMultiple(f, t, if t % 2 == 0 then 1 else 0, p);
    FirstOddOf(p, c, r, t, f, u);
  }

  lemma FirstOddOf(p: nat, c: nat, r: nat, t: nat, f: nat, u: nat)
    requires p % 2 == 1 && r == c % p && t == (if r == 0 then p else r) && f == (if t % 2 == 0 then t + p else t)
    requires u == f / 2 && Cong(r, c, p) && Cong(t, r, p) && Cong(f, t, p)
    ensures FirstOdd(p, c) == 2 * u + 1 && u <= p && SlotHit(p, c, u)
  {
    assert f == 2 * u + 1;
    assert f < 2 * p + 1;
  }

  lemma FirstSlot(p: nat, c: nat)
    requires p % 2 == 1
    ensures FirstOdd(p, c) % 2 == 1 && SlotHit(p, c, FirstOdd(p, c) / 2)
    ensures forall s: nat :: s < FirstOdd(p, c) / 2 ==> !SlotHit(p, c, s)
  {
    var u := FirstOddIs(p, c);
    hide FirstOdd, SlotHit;
    forall s: nat | s < u ensures !SlotHit(p, c, s) {
      if SlotHit(p, c, s) { SlotsApart(p, c, s, u); }
    }
  }

  /** Mark the slots of one odd prime. */
  method MarkSlots(bits: array<bool>, window: nat, p: nat, c: nat)
    requires p % 2 == 1 && bits.Length == window / 2
    modifies bits
    ensures forall s :: 0 <= s < bits.Length ==> (bits[s] <==> old(bits[s]) || SlotHit(p, c, s))
  {
    hide SlotHit;
    ghost var was := bits[..];
    FirstSlot(p, c);
    var t := c % p;
    if t == 0 { t := p; }
    if t % 2 == 0 { t := t + p; }
    ghost var u: nat := t / 2;
    while t < window
      invariant t == 2 * u + 1 && SlotHit(p, c, u)
      invariant forall s :: 0 <= s < u && s < bits.Length ==> (bits[s] <==> was[s] || SlotHit(p, c, s))
      invariant forall s :: u <= s < bits.Length ==> bits[s] == was[s]
      decreases window - t
    {
      bits[(t - 1) / 2] := true;
      NextSlot(p, c, u);
      t, u := t + 2 * p, u + p;
    }
  }

  // ------------------------------------------------------------------ the template

  /** Slot s is marked by one of the first k primes: the prime 2 marks nothing. */
  ghost predicate Marked(ps: seq<nat>, os: seq<nat>, adj: nat, k: nat, s: nat)
    requires k <= |ps| == |os|
  {
    exists i :: 0 <= i < k && ps[i] > 2 && SlotHit(ps[i], os[i] + adj, s)
  }

  lemma MarkedStep(ps: seq<nat>, os: seq<nat>, adj: nat, k: nat, s: nat)
    requires k < |ps| == |os|
    ensures Marked(ps, os, adj, k + 1, s)
            <==> Marked(ps, os, adj, k, s) || (ps[k] > 2 && SlotHit(ps[k], os[k] + adj, s))
  {
    hide SlotHit;
  }

  lemma OddPrime(p: nat)
    requires Prime(p) && p != 2
    ensures p > 2 && p % 2 == 1
  {
  }

  /** crt_runtime_build_template: the parity adjustment, the marked slots and the number of
      unmarked ones. */
  method BuildTemplate(ps: seq<nat>, os: seq<nat>, window: nat)
    returns (ok: bool, adj: nat, bits: array<bool>, survivors: nat)
    requires |ps| == |os| && PrimeList(ps)
    ensures ok <==> window >= 2
    ensures ok ==> bits.Length == window / 2 && survivors == |Unmarked(bits[..], window / 2)|
    ensures ok ==> MarksOf(ps, os, adj, |ps|, bits[..])
    ensures ok ==> adj < 2 && (TwoIn(ps, os) ==> adj == 1)
    ensures ok ==> exists n0: nat :: n0 < Modulus(ps, os, |ps|) && Aligned(ps, os, |ps|, 0, 0, n0) && adj == n0 % 2
  {
    hide Marked, MarksOf, SlotHit, PrimeList, Aligned, Modulus, TwoIn;
    if window < 2 { return false, 0, new bool[0], 0; }
    var n0, m := Align(ps, os, 0, 0);
    adj := n0 % 2;
    if TwoIn(ps, os) { ParityFixed(ps, os, 0, 0, n0); }
    bits := new bool[window / 2](_ => false);
    NoMarks(ps, os, adj, bits[..]);
    for i := 0 to |ps|
      invariant MarksOf(ps, os, adj, i, bits[..])
    {
      ghost var was := bits[..];
      StepReady(ps, os, i);
      if ps[i] != 2 {
        OddPrime(ps[i]);
        MarkSlots(bits, window, ps[i], os[i] + adj);
      }
      NextMarks(ps, os, adj, i, was, bits[..]);
    }
    survivors := 0;
    for s := 0 to window / 2
      invariant survivors == |Unmarked(bits[..], s)|
    {
      if !bits[s] { survivors := survivors + 1; }
    }
    ok := true;
  }

  /** bits holds the marks of the first k primes. */
  ghost predicate MarksOf(ps: seq<nat>, os: seq<nat>, adj: nat, k: nat, bits: seq<bool>)
    requires k <= |ps| == |os|
  {
    forall s :: 0 <= s < |bits| ==> (bits[s] <==> Marked(ps, os, adj, k, s))
  }

  lemma NoMarks(ps: seq<nat>, os: seq<nat>, adj: nat, bits: seq<bool>)
    requires |ps| == |os| && forall s :: 0 <= s < |bits| ==> !bits[s]
    ensures MarksOf(ps, os, adj, 0, bits)
  {
  }

  lemma NextMarks(ps: seq<nat>, os: seq<nat>, adj: nat, i: nat, was: seq<bool>, bits: seq<bool>)
    requires i < |ps| == |os| && ps[i] >= 2 && |was| == |bits| && MarksOf(ps, os, adj, i, was)
    requires ps[i] == 2 ==> bits == was
    requires ps[i] != 2 ==> forall s :: 0 <= s < |bits| ==> (bits[s] <==> was[s] || SlotHit(ps[i], os[i] + adj, s))
    ensures MarksOf(ps, os, adj, i + 1, bits)
  {
    hide Marked, SlotHit;
    forall s | 0 <= s < |bits| ensures bits[s] <==> Marked(ps, os, adj, i + 1, s) { MarkedStep(ps, os, adj, i, s); }
  }

  /** The odd positions of the unmarked ones among the first n slots. */
  function Unmarked(bits: seq<bool>, n: nat): seq<nat>
    requires n <= |bits|
  {
    if n == 0 then [] else Unmarked(bits, n - 1) + if bits[n - 1] then [] else [2 * (n - 1) + 1]
  }

  lemma {:induction false} UnmarkedMembers(bits: seq<bool>, n: nat)
    requires n <= |bits|
    ensures Ascending(Unmarked(bits, n)) && |Unmarked(bits, n)| <= n
    ensures forall t :: t in Unmarked(bits, n) <==> t % 2 == 1 && 0 < t < 2 * n && !bits[t / 2]
  {
    if n > 0 {
      UnmarkedMembers(bits, n - 1);
      AscendingAppend(Unmarked(bits, n - 1), 2 * (n - 1) + 1);
    }
  }

  /** crt_runtime_survivors. */
  method TemplateSurvivors(bits: array<bool>, window: nat, out: array<nat>) returns (n: nat)
    requires bits.Length == window / 2 && out.Length >= window / 2
    modifies out
    ensures n <= out.Length && out[..n] == Unmarked(bits[..], window / 2)
  {
    n := 0;
    ghost var all := bits[..];
    for s := 0 to window / 2
      invariant n <= s && bits[..] == all && out[..n] == Unmarked(all, s)
    {
      if !bits[s] {
        out[n] := 2 * s + 1;
        n := n + 1;
      }
    }
  }

  // ------------------------------------------------------------------ parity

  /** The cover holds the prime 2 with an odd offset. */
  ghost predicate TwoIn(ps: seq<nat>, os: seq<nat>)
    requires |ps| == |os|
  {
    exists i :: 0 <= i < |ps| && ps[i] == 2 && os[i] % 2 == 1
  }

  /** With the prime 2 in the cover, the parity of a solution depends on the parity of base and
      adjustment only. */
  lemma ParityFixed(ps: seq<nat>, os: seq<nat>, base: int, adj: nat, x: int)
    requires |ps| == |os| && TwoIn(ps, os) && Aligned(ps, os, |ps|, base, adj, x)
    ensures (base + x + adj) % 2 == 1
  {
  }

  /** Without the prime 2, the modulus is odd. */
  lemma {:induction false} OddModulus(ps: seq<nat>, os: seq<nat>, k: nat)
    requires k <= |ps| == |os| && PrimeList(ps)
    requires forall i :: 0 <= i < k && ps[i] == 2 ==> os[i] == 0
    ensures Modulus(ps, os, k) % 2 == 1
  {
    if k > 0 {
      OddModulus(ps, os, k - 1);
      if os[k - 1] != 0 {
        OddPrime(ps[k - 1]);
        OddProduct(Modulus(ps, os, k - 1), ps[k - 1]);
      }
    }
  }

  lemma OddProduct(x: int, y: int)
    requires x % 2 == 1 && y % 2 == 1
    ensures (x * y) % 2 == 1
  {
    CongMul(x, 1, y, 1, 2);
  }

  /** The modulus is even exactly when the prime 2 takes part. */
  lemma ModulusParity(ps: seq<nat>, os: seq<nat>)
    requires |ps| == |os| && PrimeList(ps)
    ensures Modulus(ps, os, |ps|) % 2 == 0 <==> exists i :: 0 <= i < |ps| && ps[i] == 2 && os[i] != 0
  {
    if i :| 0 <= i < |ps| && ps[i] == 2 && os[i] != 0 {
      ModulusDivisible(ps, os, |ps|, i);
    } else {
      OddModulus(ps, os, |ps|);
    }
  }

  /** The prime 2 takes part with an odd offset and the adjustment is odd, or it takes no part. */
  ghost predicate ParityReady(ps: seq<nat>, os: seq<nat>, adj: nat)
    requires |ps| == |os|
  {
    (TwoIn(ps, os) && adj % 2 == 1) || forall i :: 0 <= i < |ps| && ps[i] == 2 ==> os[i] == 0
  }

  /** v + o_i + adj vanishes modulo every prime that takes part. */
  ghost predicate Anchored(ps: seq<nat>, os: seq<nat>, adj: nat, v: nat)
    requires |ps| == |os|
  {
    Aligned(ps, os, |ps|, v, adj, 0)
  }

  lemma AnchoredSum(ps: seq<nat>, os: seq<nat>, adj: nat, base: nat, x: nat)
    requires |ps| == |os|
    ensures Anchored(ps, os, adj, base + x) <==> Aligned(ps, os, |ps|, base, adj, x)
  {
  }

  /** align_anchor: the smallest even anchored value at or beyond the target. */
  method AlignAnchor(ps: seq<nat>, os: seq<nat>, target: nat, adj: nat) returns (b0: nat, m: nat)
    requires |ps| == |os| && PrimeList(ps)
    ensures m == Modulus(ps, os, |ps|) && m >= 1 && b0 >= target && Anchored(ps, os, adj, b0)
    ensures ParityReady(ps, os, adj) ==> b0 % 2 == 0
    ensures ParityReady(ps, os, adj) ==>
              forall v: nat :: target <= v < b0 && Anchored(ps, os, adj, v) ==> v % 2 != 0
  {
    hide *;
    var nadd;
    nadd, m := Align(ps, os, target, adj);
    b0 := target + nadd;
    AnchoredSum(ps, os, adj, target, nadd);
    ModulusPositive(ps, os, |ps|);
    if ParityReady(ps, os, adj) { AnchorParity(ps, os, target, adj, nadd, m); }
    NoneBefore(ps, os, target, adj, nadd, m);
    if b0 % 2 == 1 {
      Translates(ps, os, adj, b0, 1);
      b0 := b0 + m;
    }
  }

  /** When the first solution is odd, the modulus is odd as well. */
  lemma AnchorParity(ps: seq<nat>, os: seq<nat>, target: nat, adj: nat, nadd: nat, m: nat)
    requires |ps| == |os| && PrimeList(ps) && ParityReady(ps, os, adj) && m == Modulus(ps, os, |ps|)
    requires Aligned(ps, os, |ps|, target, adj, nadd)
    ensures (target + nadd) % 2 == 1 ==> (target + nadd + m) % 2 == 0
  {
    hide Aligned, PrimeList;
    if TwoIn(ps, os) && adj % 2 == 1 {
      ParityFixed(ps, os, target, adj, nadd);
    } else {
      OddModulus(ps, os, |ps|);
    }
  }

  /** Between the target and the first solution, and up to one period later, there is no other. */
  lemma NoneBefore(ps: seq<nat>, os: seq<nat>, target: nat, adj: nat, nadd: nat, m: nat)
    requires |ps| == |os| && PrimeList(ps) && m == Modulus(ps, os, |ps|) && nadd < m
    requires Aligned(ps, os, |ps|, target, adj, nadd)
    ensures forall v: nat :: target <= v < target + nadd + m && Anchored(ps, os, adj, v) ==> v == target + nadd
  {
    hide *;
    forall v: nat | target <= v < target + nadd + m && Anchored(ps, os, adj, v)
      ensures v == target + nadd
    {
      var x: nat := v - target;
      AnchoredSum(ps, os, adj, target, x);
      SameSolution(ps, os, target, adj, x, nadd, m);
    }
  }

  lemma SameSolution(ps: seq<nat>, os: seq<nat>, target: nat, adj: nat, x: nat, nadd: nat, m: int)
    requires |ps| == |os| && PrimeList(ps) && m == Modulus(ps, os, |ps|) && nadd < m && x < nadd + m
    requires Aligned(ps, os, |ps|, target, adj, nadd) && Aligned(ps, os, |ps|, target, adj, x)
    ensures x == nadd
  {
    hide *;
    if x < m {
      AlignedUnique(ps, os, target, adj, x, nadd);
    } else {
      DivModUnique(-m, m, -1, 0);
      StaysAligned(ps, os, |ps|, target, adj, x, -m);
      AlignedUnique(ps, os, target, adj, x + -m, nadd);
    }
  }

  /** Every window's value b0 + k * P keeps the congruences of the anchor. */
  lemma Translates(ps: seq<nat>, os: seq<nat>, adj: nat, b0: nat, k: nat)
    requires |ps| == |os| && PrimeList(ps) && Anchored(ps, os, adj, b0)
    ensures Modulus(ps, os, |ps|) >= 1 && b0 + k * Modulus(ps, os, |ps|) >= b0
    ensures Anchored(ps, os, adj, b0 + k * Modulus(ps, os, |ps|))
  {
    var m := Modulus(ps, os, |ps|);
    ModulusPositive(ps, os, |ps|);
    MulLe(0, k, m);
    ModOfMultiple(k, m);
    StaysAligned(ps, os, |ps|, b0, adj, 0, k * m);
    AnchoredSum(ps, os, adj, b0, k * m);
  }

  /** crt_runtime's candidates: with the prime 2 in the cover, base + nadd - adj is even for
      every even header base and anchored for the adjusted offsets. */
  lemma CandidateParity(ps: seq<nat>, os: seq<nat>, base: nat, nadd: nat, adj: nat)
    requires |ps| == |os| && PrimeList(ps) && TwoIn(ps, os) && base % 2 == 0 && adj == 1
    requires Aligned(ps, os, |ps|, base, 0, nadd)
    ensures nadd >= 1 && (base + nadd - adj) % 2 == 0 && Anchored(ps, os, adj, base + nadd - adj)
  {
    ParityFixed(ps, os, base, 0, nadd);
  }

  // ------------------------------------------------------------------ meaning

  /** Some odd prime of the cover divides v. */
  ghost predicate OddCoverPrimeDivides(ps: seq<nat>, v: nat) {
    exists i :: 0 <= i < |ps| && ps[i] > 2 && v % ps[i] == 0
  }

  /** A slot is marked exactly when an odd cover prime divides the value there. */
  lemma MarkedMeansDivisible(ps: seq<nat>, os: seq<nat>, adj: nat, v: nat, s: nat)
    requires |ps| == |os| && Anchored(ps, os, adj, v)
    requires forall i :: 0 <= i < |ps| && ps[i] > 2 ==> os[i] != 0
    ensures Marked(ps, os, adj, |ps|, s) <==> OddCoverPrimeDivides(ps, v + (2 * s + 1))
  {
    forall i | 0 <= i < |ps| && ps[i] > 2
      ensures SlotHit(ps[i], os[i] + adj, s) <==> (v + (2 * s + 1)) % ps[i] == 0
    {
      assert (v + 0 + os[i] + adj) % ps[i] == 0;
      HitMeansDivisible(ps[i], os[i] + adj, v, 2 * s + 1);
    }
  }

  /** The template agrees with divisibility at slot s of the value v. */
  ghost predicate Agrees(ps: seq<nat>, os: seq<nat>, adj: nat, v: nat, s: nat)
    requires |ps| == |os|
  {
    Marked(ps, os, adj, |ps|, s) <==> OddCoverPrimeDivides(ps, v + (2 * s + 1))
  }

  ghost predicate AlwaysAgrees(ps: seq<nat>, os: seq<nat>, adj: nat)
    requires |ps| == |os|
  {
    forall v: nat, s: nat :: Anchored(ps, os, adj, v) ==> Agrees(ps, os, adj, v, s)
  }

  /** The template marks slots for odd primes with offset 0, but the alignment skips these
      primes.  So the template is right for all aligned values exactly when no odd prime of
      the cover has offset 0. */
  lemma TemplateRightExactlyWhen(ps: seq<nat>, os: seq<nat>, adj: nat)
    requires |ps| == |os| && PrimeList(ps)
    ensures AlwaysAgrees(ps, os, adj) <==> forall i :: 0 <= i < |ps| && ps[i] > 2 ==> os[i] != 0
  {
    if z :| 0 <= z < |ps| && ps[z] > 2 && os[z] == 0 {
      var v, s := Disagreement(ps, os, adj, z);
      assert !Agrees(ps, os, adj, v, s);
    } else {
      forall v: nat, s: nat | Anchored(ps, os, adj, v) ensures Agrees(ps, os, adj, v, s) {
        MarkedMeansDivisible(ps, os, adj, v, s);
      }
    }
  }

  /** An unmarked slot whose value the skipped prime divides. */
  lemma Disagreement(ps: seq<nat>, os: seq<nat>, adj: nat, z: nat) returns (v: nat, s: nat)
    requires |ps| == |os| && PrimeList(ps) && z < |ps| && ps[z] > 2 && os[z] == 0
    ensures Anchored(ps, os, adj, v) && !Agrees(ps, os, adj, v, s)
  {
    s := UnmarkedSlot(ps, os, adj);
    var p, t := ps[z], 2 * s + 1;
    var v0 := Solvable(ps, os, |ps|, 0, adj);
    AnchoredSum(ps, os, adj, 0, v0);
    var m := Modulus(ps, os, |ps|);
    ModulusPositive(ps, os, |ps|);
    ModulusCoprime(ps, os, |ps|, p);
    NextDigitHits(p, t, 0, v0, 0, m);
    var k := NextDigit(p, t, 0, v0, 0, m);
    Translates(ps, os, adj, v0, k);
    v := v0 + k * m;
    assert (v + t) % p == 0;
    hide Marked, Anchored;
    assert OddCoverPrimeDivides(ps, v + t);
  }

  /** One residue more than the template's, for every odd prime. */
  function Beside(ps: seq<nat>, os: seq<nat>, adj: nat): (ws: seq<nat>)
    requires |ps| == |os| && forall i :: 0 <= i < |ps| ==> ps[i] >= 2
    ensures |ws| == |ps|
    ensures forall i :: 0 <= i < |ps| ==> ws[i] == BesideOne(ps[i], os[i] + adj)
  {
    seq(|ps|, i requires 0 <= i < |ps| => BesideOne(ps[i], os[i] + adj))
  }

  function BesideOne(p: nat, c: nat): (w: nat)
    requires p >= 2
    ensures w != 0
  {
    if p == 2 then 1 else MulLe(2, p, c + 2); p * (c + 2) - (c + 1)
  }

  lemma BesideMisses(p: nat, c: nat, t: nat)
    requires p > 2 && (t + BesideOne(p, c)) % p == 0
    ensures !Cong(t, c, p)
  {
    MulLe(2, p, c + 2);
    CongByMultiple(t + (p * (c + 2) - (c + 1)), t - (c + 1), c + 2, p);
    if Cong(t, c, p) {
      CongAdd(t, c, c + 1, c + 1, p);
      ModSmall(0, p);
      DivModUnique(-1, p, -1, p - 1);
      assert false;
    }
  }

  lemma UnmarkedSlot(ps: seq<nat>, os: seq<nat>, adj: nat) returns (s: nat)
    requires |ps| == |os| && PrimeList(ps)
    ensures !Marked(ps, os, adj, |ps|, s)
  {
    var ws := Beside(ps, os, adj);
    var t := OddSolution(ps, ws);
    s := t / 2;
    assert t == 2 * s + 1;
    hide SlotHit, PrimeList;
    forall i | 0 <= i < |ps| && ps[i] > 2 ensures !SlotHit(ps[i], os[i] + adj, s) {
      BesideSlot(ps[i], os[i] + adj, s);
    }
  }

  lemma BesideSlot(p: nat, c: nat, s: nat)
    requires p > 2 && (2 * s + 1 + BesideOne(p, c)) % p == 0
    ensures !SlotHit(p, c, s)
  {
    BesideMisses(p, c, 2 * s + 1);
  }

  /** An odd number that solves congruences whose only even modulus, if any, asks for it. */
  lemma OddSolution(ps: seq<nat>, ws: seq<nat>) returns (t: nat)
    requires |ps| == |ws| && PrimeList(ps)
    requires forall i :: 0 <= i < |ps| ==> ws[i] != 0 && (ps[i] == 2 ==> ws[i] == 1)
    ensures t % 2 == 1 && forall i :: 0 <= i < |ps| ==> ps[i] > 0 && (t + ws[i]) % ps[i] == 0
  {
    hide *;
    t := Solvable(ps, ws, |ps|, 0, 0);
    SolvesAll(ps, ws, t);
    if t % 2 == 0 {
      OddModulus(ps, ws, |ps|);
      var m := Modulus(ps, ws, |ps|);
      ModulusPositive(ps, ws, |ps|);
      ModOfMultiple(1, m);
      StaysAligned(ps, ws, |ps|, 0, 0, t, m);
      SolvesAll(ps, ws, t + m);
      t := t + m;
    }
  }

  lemma SolvesAll(ps: seq<nat>, ws: seq<nat>, t: nat)
    requires |ps| == |ws| && PrimeList(ps) && Aligned(ps, ws, |ps|, 0, 0, t)
    requires forall i :: 0 <= i < |ps| ==> ws[i] != 0 && (ps[i] == 2 ==> ws[i] == 1)
    ensures forall i :: 0 <= i < |ps| ==> ps[i] > 0 && (t + ws[i]) % ps[i] == 0
    ensures t % 2 == 0 ==> forall i :: 0 <= i < |ps| ==> ps[i] != 2
  {
  }

  lemma HitMeansDivisible(p: nat, c: nat, v: nat, t: nat)
    requires p > 0 && (v + c) % p == 0
    ensures Cong(t, c, p) <==> (v + t) % p == 0
  {
    ModSmall(0, p);
    if Cong(t, c, p) {
      CongAdd(v, v, t, c, p);
    } else if (v + t) % p == 0 {
      CongAdd(v + t, v + c, v, v, p);
      assert false;
    }
  }

  /** The template is a sound prefilter for every window of the walk: what it calls composite
      has a factor up to 100000. */
  lemma TemplateIsSound(ps: seq<nat>, os: seq<nat>, adj: nat, bits: seq<bool>, window: nat, back: nat, v: nat)
    requires |ps| == |os| && Anchored(ps, os, adj, v) && back <= v && v % 2 == 0
    requires forall i :: 0 <= i < |ps| ==> 2 <= ps[i] <= HalfClass.SIEVE_LIMIT && (ps[i] > 2 ==> os[i] != 0)
    requires |bits| == window / 2
    requires MarksOf(ps, os, adj, |ps|, bits)
    ensures HalfClass.TplSound(HalfClass.Template(bits, back, window), v - back)
  {
    hide *;
    hide HalfClass.TplComposite;
    forall off: nat | HalfClass.TplComposite(HalfClass.Template(bits, back, window), off)
      ensures HalfClass.HasSmallFactor(v - back + off)
    {
      CompositeHasFactor(ps, os, adj, bits, window, back, v, off);
    }
    SoundIfAll(HalfClass.Template(bits, back, window), v - back);
  }

  lemma SoundIfAll(tpl: HalfClass.Template, base: nat)
    requires forall off: nat :: HalfClass.TplComposite(tpl, off) ==> HalfClass.HasSmallFactor(base + off)
    ensures HalfClass.TplSound(tpl, base)
  {
  }

  lemma CompositeHasFactor(ps: seq<nat>, os: seq<nat>, adj: nat, bits: seq<bool>, window: nat, back: nat, v: nat,
                           off: nat)
    requires |ps| == |os| && Anchored(ps, os, adj, v) && back <= v && v % 2 == 0
    requires forall i :: 0 <= i < |ps| ==> 2 <= ps[i] <= HalfClass.SIEVE_LIMIT && (ps[i] > 2 ==> os[i] != 0)
    requires MarksOf(ps, os, adj, |ps|, bits)
    requires HalfClass.TplComposite(HalfClass.Template(bits, back, window), off)
    ensures HalfClass.HasSmallFactor(v - back + off)
  {
    hide Anchored, Marked, MarksOf, HalfClass.HasSmallFactor;
    var t: nat := off - back;
    assert v - back + off == v + t;
    if t % 2 == 0 {
      EvenHasFactor(v, t);
    } else {
      var s := (t - 1) / 2;
      assert t == 2 * s + 1 && bits[s];
      MarkAt(ps, os, adj, bits, s);
      MarkedHasFactor(ps, os, adj, v, s);
    }
  }

  lemma EvenHasFactor(v: nat, t: nat)
    requires v % 2 == 0 && t % 2 == 0
    ensures HalfClass.HasSmallFactor(v + t)
  {
    SmallFactor(v + t, 2);
  }

  lemma MarkAt(ps: seq<nat>, os: seq<nat>, adj: nat, bits: seq<bool>, s: nat)
    requires |ps| == |os| && MarksOf(ps, os, adj, |ps|, bits) && s < |bits| && bits[s]
    ensures Marked(ps, os, adj, |ps|, s)
  {
    hide Marked;
  }

  /** A marked slot lies over a value with a small factor. */
  lemma MarkedHasFactor(ps: seq<nat>, os: seq<nat>, adj: nat, v: nat, s: nat)
    requires |ps| == |os| && Anchored(ps, os, adj, v) && Marked(ps, os, adj, |ps|, s)
    requires forall i :: 0 <= i < |ps| ==> 2 <= ps[i] <= HalfClass.SIEVE_LIMIT && (ps[i] > 2 ==> os[i] != 0)
    ensures HalfClass.HasSmallFactor(v + (2 * s + 1))
  {
    hide Anchored, Marked, HalfClass.HasSmallFactor;
    MarkedMeansDivisible(ps, os, adj, v, s);
    var i :| 0 <= i < |ps| && ps[i] > 2 && (v + (2 * s + 1)) % ps[i] == 0;
    SmallFactor(v + (2 * s + 1), ps[i]);
  }

  /** The look-back of the walk: at least 4096 and even. */
  function BackLimit(raw: nat): (back: nat)
    ensures back >= raw && back % 2 == 0
  {
    var b := if raw < 4096 then 4096 else raw;
    if b % 2 == 1 then b + 1 else b
  }

  /** The aligned value of window k. */
  function WindowValue(ps: seq<nat>, os: seq<nat>, b0: nat, k: nat): int
    requires |ps| == |os|
  {
    b0 + k * Modulus(ps, os, |ps|)
  }

  /** For every window of the walk: where its base is even, the template is a sound prefilter of
      the class scan. */
  lemma WalkTemplateIsSound(ps: seq<nat>, os: seq<nat>, adj: nat, bits: seq<bool>, window: nat, raw: nat, b0: nat,
                            k: nat)
    requires |ps| == |os| && PrimeList(ps) && Anchored(ps, os, adj, b0)
    requires forall i :: 0 <= i < |ps| ==> ps[i] <= HalfClass.SIEVE_LIMIT && (ps[i] > 2 ==> os[i] != 0)
    requires |bits| == window / 2 && MarksOf(ps, os, adj, |ps|, bits)
    requires WindowValue(ps, os, b0, k) >= BackLimit(raw)
    ensures var base := WindowValue(ps, os, b0, k) - BackLimit(raw);
            base % 2 == 0 ==> HalfClass.TplSound(HalfClass.Template(bits, BackLimit(raw), window), base)
  {
    hide *;
    WindowAnchored(ps, os, adj, b0, k);
    var v, back := WindowValue(ps, os, b0, k), BackLimit(raw);
    if (v - back) % 2 == 0 {
      EvenSum(v, back);
      TemplateIsSound(ps, os, adj, bits, window, back, v);
    }
  }

  lemma EvenSum(v: int, back: int)
    requires (v - back) % 2 == 0 && back % 2 == 0
    ensures v % 2 == 0
  {
  }

  lemma WindowAnchored(ps: seq<nat>, os: seq<nat>, adj: nat, b0: nat, k: nat)
    requires |ps| == |os| && PrimeList(ps) && Anchored(ps, os, adj, b0)
    ensures WindowValue(ps, os, b0, k) >= b0 && Anchored(ps, os, adj, WindowValue(ps, os, b0, k))
    ensures forall i :: 0 <= i < |ps| ==> ps[i] >= 2
  {
    hide Anchored, Modulus;
    Translates(ps, os, adj, b0, k);
  }

  lemma SmallFactor(v: nat, d: nat)
    requires 2 <= d <= HalfClass.SIEVE_LIMIT && v % d == 0
    ensures HalfClass.HasSmallFactor(v)
  {
  }

  // ------------------------------------------------------------------ template and cover

  /** What the cover generator writes: offset p - r for residues 1 to p - 1, the prime 2 with
      residue 1. */
  ghost predicate Generated(ps: seq<nat>, rs: seq<nat>, os: seq<nat>) {
    && |ps| == |rs| == |os|
    && (forall i :: 0 <= i < |ps| ==> ps[i] >= 2 && 1 <= rs[i] < ps[i] && os[i] == (ps[i] - rs[i]) % ps[i])
    && exists i :: 0 <= i < |ps| && ps[i] == 2
  }

  lemma GeneratedOffsets(ps: seq<nat>, rs: seq<nat>, os: seq<nat>)
    requires Generated(ps, rs, os)
    ensures forall i :: 0 <= i < |ps| ==> os[i] == ps[i] - rs[i] && os[i] > 0
    ensures TwoIn(ps, os)
  {
    forall i | 0 <= i < |ps| ensures os[i] == ps[i] - rs[i] { ModSmall(ps[i] - rs[i], ps[i]); }
    var i :| 0 <= i < |ps| && ps[i] == 2;
    assert os[i] == 1;
  }

  /** End to end: inside the gap, position j survives the cover exactly when the template
      keeps the odd position j + 1. */
  lemma TemplateMatchesCover(ps: seq<nat>, rs: seq<nat>, os: seq<nat>, j: nat)
    requires Generated(ps, rs, os)
    ensures !Cover.Covered(ps, rs, |ps|, j) <==> j % 2 == 0 && !Marked(ps, os, 1, |ps|, j / 2)
  {
    GeneratedOffsets(ps, rs, os);
    var two :| 0 <= two < |ps| && ps[two] == 2;
    TwoCovers(rs[two], j);
    if j % 2 == 0 {
      forall i | 0 <= i < |ps|
        ensures Divides(ps[i], rs[i], j) <==> ps[i] > 2 && SlotHit(ps[i], os[i] + 1, j / 2)
      {
        PrimeMatches(ps[i], rs[i], os[i], j);
      }
      hide Divides, SlotHit;
    } else {
      hide SlotHit, Marked;
      assert Divides(ps[two], rs[two], j);
    }
  }

  lemma TwoCovers(r: nat, j: nat)
    requires r == 1
    ensures Divides(2, r, j) <==> j % 2 == 1
  {
  }

  lemma PrimeMatches(p: nat, r: nat, o: nat, j: nat)
    requires p >= 2 && 1 <= r < p && o == p - r && j % 2 == 0
    ensures Divides(p, r, j) <==> p > 2 && SlotHit(p, o + 1, j / 2)
  {
    CoverHit(p, r, j);
    assert j + 1 == 2 * (j / 2) + 1;
    if p == 2 { TwoCovers(r, j); }
  }

  lemma CoverHit(p: nat, r: nat, j: nat)
    requires p > 0 && r < p
    ensures Divides(p, r, j) <==> Cong(j + 1, (p - r) + 1, p)
  {
    ModSmall(0, p);
    CongByMultiple(p, 0, 1, p);
    hide Cong;
    Shifted(r + j, p, 1 - r, p);
    assert Cong(r + j, p, p) <==> Cong(j + 1, (p - r) + 1, p);
    HitIsCong(p, r, j);
  }

  lemma HitIsCong(p: nat, r: nat, j: nat)
    requires p > 0 && Cong(p, 0, p)
    ensures Divides(p, r, j) <==> Cong(r + j, p, p)
  {
    ModSmall(0, p);
  }

  /** Congruence does not depend on a common summand. */
  lemma Shifted(a: int, b: int, d: int, p: int)
    requires p > 0
    ensures Cong(a, b, p) <==> Cong(a + d, b + d, p)
  {
    if Cong(a, b, p) { CongAdd(a, b, d, d, p); }
    if Cong(a + d, b + d, p) { CongAdd(a + d, b + d, d, d, p); }
  }

  /** The entries of s in (1, gap], each lowered by 1. */
  function CutAndShift(s: seq<nat>, gap: nat): seq<nat> {
    if s == [] then []
    else
      var n := |s| - 1;
      CutAndShift(s[..n], gap) + if 1 < s[n] <= gap then [s[n] - 1] else []
  }

  lemma {:induction false} CutMembers(s: seq<nat>, gap: nat)
    requires Ascending(s)
    ensures Ascending(CutAndShift(s, gap))
    ensures forall j: nat :: j in CutAndShift(s, gap) <==> 1 <= j < gap && j + 1 in s
  {
    if s != [] {
      var n := |s| - 1;
      CutMembers(s[..n], gap);
      assert s == s[..n] + [s[n]];
      assert forall o :: o in s[..n] ==> o < s[n];
      if 1 < s[n] <= gap {
        forall o | o in CutAndShift(s[..n], gap) ensures o < s[n] - 1 { assert o + 1 in s[..n]; }
        AscendingAppend(CutAndShift(s[..n], gap), s[n] - 1);
      }
    }
  }

  /** Ascending lists with the same members are equal. */
  lemma {:induction false} AscendingUnique(s: seq<nat>, t: seq<nat>)
    requires Ascending(s) && Ascending(t) && forall x: nat :: x in s <==> x in t
    ensures s == t
  {
    assert (s != [] ==> s[0] in s) && (t != [] ==> t[0] in t);
    if s != [] {
      var a, b := s[|s| - 1], t[|t| - 1];
      var s', t' := s[..|s| - 1], t[..|t| - 1];
      assert a in t && b in s;
      assert a == b;
      forall x: nat ensures x in s' <==> x in t' {
        WithoutLast(s, x);
        WithoutLast(t, x);
      }
      AscendingUnique(s', t');
    }
  }

  lemma WithoutLast(s: seq<nat>, x: nat)
    requires Ascending(s) && s != []
    ensures x in s[..|s| - 1] <==> x in s && x != s[|s| - 1]
  {
    var n := |s| - 1;
    assert s == s[..n] + [s[n]];
  }

  lemma SurvivesBoth(ps: seq<nat>, rs: seq<nat>, os: seq<nat>, bits: seq<bool>, gap: nat, window: nat, j: nat)
    requires Generated(ps, rs, os) && |bits| == window / 2 && MarksOf(ps, os, 1, |ps|, bits)
    requires 1 <= j < gap && gap <= 2 * (window / 2)
    ensures j in Cover.Uncovered(ps, rs, gap) <==> j + 1 in Unmarked(bits, window / 2)
  {
    hide Marked, Cover.Covered;
    Cover.UncoveredMembers(ps, rs, gap);
    UnmarkedMembers(bits, window / 2);
    TemplateMatchesCover(ps, rs, os, j);
    assert j % 2 == 0 ==> (j + 1) / 2 == j / 2 && j / 2 < |bits|;
  }

  /** The survivor list of the cover is the survivor list of the template, cut to the gap and
      shifted by 1. */
  lemma SurvivorListsAgree(ps: seq<nat>, rs: seq<nat>, os: seq<nat>, bits: seq<bool>, gap: nat, window: nat)
    requires Generated(ps, rs, os) && |bits| == window / 2 && MarksOf(ps, os, 1, |ps|, bits)
    requires gap <= 2 * (window / 2)
    ensures Cover.Uncovered(ps, rs, gap) == CutAndShift(Unmarked(bits, window / 2), gap)
  {
    assert |ps| == |rs|;
    hide MarksOf, Cover.Covered, Generated, Unmarked, Cover.Uncovered, CutAndShift;
    UnmarkedMembers(bits, window / 2);
    CutMembers(Unmarked(bits, window / 2), gap);
    Cover.UncoveredMembers(ps, rs, gap);
    forall j: nat ensures j in Cover.Uncovered(ps, rs, gap) <==> j in CutAndShift(Unmarked(bits, window / 2), gap) {
      if 1 <= j < gap { SurvivesBoth(ps, rs, os, bits, gap, window, j); }
    }
    AscendingUnique(Cover.Uncovered(ps, rs, gap), CutAndShift(Unmarked(bits, window / 2), gap));
  }
}
