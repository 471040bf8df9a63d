/** The two-pass class scan (new_src/halfclass.c and the quarter branch of gh_batch_process in
    new_src/gap_hunt.c): only some residue classes modulo 60 are scanned, and a wide pair of
    found primes is resolved by looking for primes of the hidden classes between them. */
module HalfClass {
  import opened NumberTheory
  import opened GapChain
  import opened Merit
  import opened GapReport
  import opened Marking

  const SIEVE_LIMIT: nat := 100000

  // ------------------------------------------------------------------ classes modulo 60

  /** The scanned classes: 4 in quarter mode, 8 otherwise. */
  function Visible(quarter: bool): set<nat> {
    if quarter then {1, 7, 11, 13} else {1, 7, 11, 13, 17, 19, 23, 29}
  }

  /** The classes verified on demand. */
  function Hidden(quarter: bool): set<nat> {
    if quarter then {17, 19, 23, 29, 31, 37, 41, 43, 47, 49, 53, 59}
    else {31, 37, 41, 43, 47, 49, 53, 59}
  }

  /** Every number without a factor 2, 3 or 5 is in exactly one of the two halves. */
  lemma ClassesComplete(quarter: bool, v: nat)
    requires Coprime60(v)
    ensures v % 60 in Visible(quarter) <==> v % 60 !in Hidden(quarter)
  {
    VisibleClasses(quarter, v);
  }

  predicate Coprime60(v: nat) { v % 2 != 0 && v % 3 != 0 && v % 5 != 0 }

  /** Visible are the classes of the numbers without a factor 2, 3 or 5 below 15 in quarter mode
      and below 30 otherwise; hidden are the others without such a factor. */
  lemma VisibleClasses(quarter: bool, v: nat)
    ensures v % 60 in Visible(quarter) <==> Coprime60(v) && v % 60 < if quarter then 15 else 30
    ensures v % 60 in Hidden(quarter) <==> Coprime60(v) && v % 60 >= if quarter then 15 else 30
  {
    RestOfClass(v, 30, 2);
    RestOfClass(v, 20, 3);
    RestOfClass(v, 12, 5);
    ClassBelow(quarter, v % 60);
  }

  lemma ClassBelow(quarter: bool, c: nat)
    requires c < 60
    ensures c in Visible(quarter) <==> Coprime60(c) && c < if quarter then 15 else 30
    ensures c in Hidden(quarter) <==> Coprime60(c) && c >= if quarter then 15 else 30
  {
  }

  lemma RestOfClass(v: nat, k: nat, d: nat)
    requires d > 0 && k > 0 && k * d == 60
    ensures (v % 60) % d == v % d
  {
    var q := v / 60;
    assert q * 60 == (q * k) * d;
    ModAddMul(v % 60, q * k, d);
  }

  lemma HiddenSize(quarter: bool)
    ensures |Hidden(quarter)| == if quarter then 12 else 8
  {
  }

  function ClassAt(sub: nat, off: nat): nat {
    (sub + off % 60) % 60
  }

  predicate IsHidden(quarter: bool, sub: nat, off: nat) {
    ClassAt(sub, off) in Hidden(quarter)
  }

  // ------------------------------------------------------------------ the scan

  /** Region-aware compaction: drop the offsets at or after regionStart whose class is hidden. */
  function Kept(quarter: bool, base60: nat, s: seq<nat>, regionStart: nat): seq<nat> {
    if s == [] then []
    else
      var k := Kept(quarter, base60, s[..|s| - 1], regionStart);
      var off := s[|s| - 1];
      if off < regionStart || ClassAt(base60, off) in Visible(quarter) then k + [off] else k
  }

  /** halfclass_filter_offsets_region: compaction in place. */
  method FilterRegion(quarter: bool, base60: nat, offsets: array<nat>, count: nat, regionStart: nat)
    returns (w: nat)
    requires count <= offsets.Length
    modifies offsets
    ensures w <= count
    ensures offsets[..w] == Kept(quarter, base60, old(offsets[..count]), regionStart)
    ensures offsets[count..] == old(offsets[count..])
  {
    hide Visible;
    w := 0;
    ghost var was := offsets[..];
    for i := 0 to count
      invariant w <= i
      invariant offsets[..w] == Kept(quarter, base60, was[..i], regionStart)
      invariant forall j :: i <= j < offsets.Length ==> offsets[j] == was[j]
    {
      var off := offsets[i];
      assert was[..i + 1][..i] == was[..i];
      if off < regionStart || ClassAt(base60, off) in Visible(quarter) {
        offsets[w] := off;
        w := w + 1;
      }
    }
    assert was[..count] == old(offsets[..count]);
  }

  /** Compaction keeps the order and keeps exactly the scanned offsets. */
  lemma {:induction false} KeptExactly(quarter: bool, base60: nat, s: seq<nat>, regionStart: nat)
    requires Ascending(s)
    ensures Ascending(Kept(quarter, base60, s, regionStart))
    ensures forall o :: o in Kept(quarter, base60, s, regionStart) <==>
              o in s && (o < regionStart || ClassAt(base60, o) in Visible(quarter))
  {
    hide Visible;
    if s != [] {
      var n := |s| - 1;
      KeptExactly(quarter, base60, s[..n], regionStart);
      assert s == s[..n] + [s[n]];
      assert forall o :: o in s[..n] ==> o < s[n];
      AscendingAppend(Kept(quarter, base60, s[..n], regionStart), s[n]);
    }
  }

  /** An oracle that never accepts a number beyond 100000 with a factor up to 100000. */
  ghost predicate Rough(test: nat -> bool) {
    forall v: nat :: v > SIEVE_LIMIT && test(v) ==> !HasSmallFactor(v)
  }

  /** One window: every accepted offset of the first and last band and every accepted offset of
      a visible class is a candidate; when all classes are scanned, every accepted offset is. */
  datatype Range = Range(base: nat, interval: nat, regionStart: nat, tailStart: nat, quarter: bool, full: bool)

  predicate Scanned(r: Range, o: nat) {
    r.full || o < r.regionStart || o >= r.tailStart || (r.base + o) % 60 in Visible(r.quarter)
  }

  ghost predicate Covers(r: Range, off: seq<nat>, test: nat -> bool) {
    && Ascending(off)
    && (forall j :: 0 <= j < |off| ==> off[j] < r.interval)
    && forall o: nat :: o < r.interval && test(r.base + o) && Scanned(r, o) ==> o in off
  }

  /** An accepted offset that the scan skipped lies in a hidden class. */
  lemma SkippedIsHidden(r: Range, o: nat, test: nat -> bool)
    requires Rough(test) && r.base > SIEVE_LIMIT && test(r.base + o) && !Scanned(r, o)
    ensures (r.base + o) % 60 in Hidden(r.quarter)
  {
    var v := r.base + o;
    assert 2 <= 3 <= 5 <= SIEVE_LIMIT;
    ClassesComplete(r.quarter, v);
  }

  // ------------------------------------------------------------------ hidden candidates

  /** The covering template as a prefilter: slot (t - 1) / 2 of an odd position t. */
  datatype Template = Template(bits: seq<bool>, baseOff: nat, window: nat) | NoTemplate

  /** halfclass_tpl_composite. */
  predicate TplComposite(tpl: Template, off: nat) {
    tpl.Template? &&
    var t := off as int - tpl.baseOff;
    && 0 < t < tpl.window
    && (t % 2 == 0 || ((t - 1) / 2 < |tpl.bits| && tpl.bits[(t - 1) / 2]))
  }

  /** Whatever the template calls composite has a factor up to 100000. */
  ghost predicate TplSound(tpl: Template, base: nat) {
    forall off: nat :: TplComposite(tpl, off) ==> HasSmallFactor(base + off)
  }

  ghost predicate HasSmallFactor(v: nat) {
    exists d: nat :: 2 <= d <= SIEVE_LIMIT && v % d == 0
  }

  /** The table of sieving primes: odd numbers from 3 to 100000. */
  ghost predicate SieveTable(ps: seq<nat>) {
    forall i :: 0 <= i < |ps| ==> 3 <= ps[i] <= SIEVE_LIMIT
  }

  predicate SomeDivides(ps: seq<nat>, cap: nat, b: nat, m: nat)
    requires cap <= |ps|
  {
    exists i :: 0 <= i < cap && ps[i] > 0 && Divides(ps[i], b, m)
  }

  /** Mark the multiples of one prime from the interval's start on. */
  method MarkMultiples(bits: array<bool>, bsub: nat, p: nat)
    requires p > 0
    modifies bits
    ensures forall m :: 0 <= m < bits.Length ==> bits[m] == (old(bits[m]) || Divides(p, bsub, m))
  {
    hide Divides;
    var rem := bsub % p;
    var m := if rem > 0 then p - rem else 0;
    ghost var was := bits[..];
    FirstMultiple(bsub, p);
    while m < bits.Length
      invariant m >= 0 && Divides(p, bsub, m)
      invariant forall j :: 0 <= j < m && j < bits.Length ==> bits[j] == (was[j] || Divides(p, bsub, j))
      invariant forall j :: m <= j < bits.Length ==> bits[j] == was[j]
      decreases bits.Length - m
    {
      bits[m] := true;
      NextMultiple(bsub, m, p);
      m := m + p;
    }
  }

  /** How many of the first n offsets from class sub on are hidden. */
  function Count(quarter: bool, sub: nat, n: nat): nat {
    if n == 0 then 0 else Count(quarter, sub, n - 1) + if IsHidden(quarter, sub, n - 1) then 1 else 0
  }

  /** The hidden classes met by the first n offsets. */
  function Seen(quarter: bool, sub: nat, n: nat): set<nat> {
    if n == 0 then {}
    else
      var c := ClassAt(sub, n - 1);
      if c in Hidden(quarter) then Seen(quarter, sub, n - 1) + {c} else Seen(quarter, sub, n - 1)
  }

  lemma {:induction false} CountIsSeen(quarter: bool, sub: nat, n: nat)
    requires n <= 60
    ensures |Seen(quarter, sub, n)| == Count(quarter, sub, n)
    ensures Seen(quarter, sub, n) <= Hidden(quarter)
    ensures forall c :: c in Seen(quarter, sub, n) ==> exists j: nat :: j < n && c == ClassAt(sub, j)
  {
    hide Hidden, ClassAt;
    if n > 0 {
      CountIsSeen(quarter, sub, n - 1);
      forall j: nat | j < n - 1 ensures ClassAt(sub, j) != ClassAt(sub, n - 1) { ClassesDiffer(sub, j, n - 1); }
    }
  }

  lemma ClassesDiffer(sub: nat, i: nat, j: nat)
    requires i < j < 60
    ensures ClassAt(sub, i) != ClassAt(sub, j)
  {
  }

  lemma {:induction false} CountPeriod(quarter: bool, sub: nat, n: nat)
    ensures Count(quarter, sub, n + 60) == Count(quarter, sub, n) + Count(quarter, sub, 60)
  {
    hide Hidden;
    if n > 0 {
      CountPeriod(quarter, sub, n - 1);
      assert (n + 59) % 60 == (n - 1) % 60;
    }
  }

  lemma SubsetSize(a: set<nat>, b: set<nat>)
    requires a <= b
    ensures |a| <= |b|
  {
    assert b == a + (b - a);
  }

  /** The allocation bound: no hidden candidate of any interval is ever dropped. */
  lemma {:induction false} CountBound(quarter: bool, sub: nat, n: nat)
    ensures Count(quarter, sub, n) <= (n / 60) * |Hidden(quarter)| + 16
  {
    HiddenSize(quarter);
    hide Hidden;
    var h := |Hidden(quarter)|;
    if n < 60 {
      CountIsSeen(quarter, sub, n);
      SubsetSize(Seen(quarter, sub, n), Hidden(quarter));
      assert n / 60 == 0;
    } else {
      CountBound(quarter, sub, n - 60);
      CountPeriod(quarter, sub, n - 60);
      CountIsSeen(quarter, sub, 60);
      SubsetSize(Seen(quarter, sub, 60), Hidden(quarter));
      assert (n - 60) / 60 == n / 60 - 1;
      assert (n / 60 - 1) * h + h == (n / 60) * h;
    }
  }

  lemma {:induction false} CountMonotone(quarter: bool, sub: nat, m: nat, n: nat)
    requires m <= n
    ensures Count(quarter, sub, m) <= Count(quarter, sub, n)
    decreases n - m
  {
    hide Hidden, IsHidden;
    if m < n { CountMonotone(quarter, sub, m, n - 1); }
  }

  /** The mini-sieve bitmap over an interval: marked iff a table prime divides the value. */
  method MiniSieve(bsub: nat, interval: nat, ps: seq<nat>, cap: nat) returns (bits: array<bool>)
    requires SieveTable(ps) && cap <= |ps|
    ensures fresh(bits) && bits.Length == interval
    ensures forall m :: 0 <= m < interval ==> bits[m] == SomeDivides(ps, cap, bsub, m)
  {
    hide Divides;
    bits := new bool[interval](_ => false);
    for pi := 0 to cap
      invariant forall m :: 0 <= m < interval ==> bits[m] == SomeDivides(ps, pi, bsub, m)
    {
      MarkMultiples(bits, bsub, ps[pi]);
    }
  }

  /** A hidden-class offset that neither the mini-sieve nor the template proves composite. */
  predicate IsCandidate(quarter: bool, bsub: nat, sub60: nat, delta: nat, tpl: Template, ps: seq<nat>,
                        cap: nat, off: nat)
    requires cap <= |ps|
  {
    IsHidden(quarter, sub60, off) && !SomeDivides(ps, cap, bsub, off) && !TplComposite(tpl, delta + off)
  }

  /** The candidates below n, ascending. */
  function Candidates(quarter: bool, bsub: nat, sub60: nat, delta: nat, tpl: Template, ps: seq<nat>,
                      cap: nat, n: nat): seq<nat>
    requires cap <= |ps|
  {
    if n == 0 then []
    else
      var c := Candidates(quarter, bsub, sub60, delta, tpl, ps, cap, n - 1);
      if IsCandidate(quarter, bsub, sub60, delta, tpl, ps, cap, n - 1) then c + [n - 1] else c
  }

  lemma {:induction false} CandidateList(quarter: bool, bsub: nat, sub60: nat, delta: nat, tpl: Template,
                                         ps: seq<nat>, cap: nat, n: nat)
    requires cap <= |ps|
    ensures var c := Candidates(quarter, bsub, sub60, delta, tpl, ps, cap, n);
            && Ascending(c)
            && |c| <= Count(quarter, sub60, n)
            && forall o: nat :: o in c <==> o < n && IsCandidate(quarter, bsub, sub60, delta, tpl, ps, cap, o)
  {
    hide IsHidden, SomeDivides, TplComposite;
    if n > 0 {
      CandidateList(quarter, bsub, sub60, delta, tpl, ps, cap, n - 1);
      AscendingAppend(Candidates(quarter, bsub, sub60, delta, tpl, ps, cap, n - 1), n - 1);
    }
  }

  /** halfclass_collect_hidden_candidates_impl.  Intervals beyond 2^22, or a failed bitmap
      allocation, skip the mini-sieve: the list then is longer, never shorter. */
  method CollectCandidates(quarter: bool, bsub: nat, interval: nat, sub60: nat, delta: nat, tpl: Template,
                           ps: seq<nat>, sieveCap: nat, haveBitmap: bool)
    returns (cand: seq<nat>, sieved: nat)
    requires SieveTable(ps)
    ensures sieved <= |ps|
    ensures cand == Candidates(quarter, bsub, sub60, delta, tpl, ps, sieved, interval)
  {
    hide *;
    var bitmap := interval <= 0x40_0000 && haveBitmap;
    var cap := if |ps| < sieveCap then |ps| else sieveCap;
    sieved := if bitmap then cap else 0;
    var bits := new bool[0];
    if bitmap { bits := MiniSieve(bsub, interval, ps, cap); }
    HiddenSize(quarter);
    var room := interval / 60 * (if quarter then 12 else 8) + 16;
    CountBound(quarter, sub60, interval);
    var buffer := new nat[room];
    var cnt := 0;
    NoCandidates(quarter, bsub, sub60, delta, tpl, ps, sieved);
    for off := 0 to interval
      invariant cnt <= room
      invariant buffer[..cnt] == Candidates(quarter, bsub, sub60, delta, tpl, ps, sieved, off)
      invariant bitmap ==> bits.Length == interval
      invariant bitmap ==> forall m :: 0 <= m < interval ==> bits[m] == SomeDivides(ps, sieved, bsub, m)
    {
      NextCandidate(quarter, bsub, sub60, delta, tpl, ps, sieved, off);
      CandidateList(quarter, bsub, sub60, delta, tpl, ps, sieved, off + 1);
      CountMonotone(quarter, sub60, off + 1, interval);
      if IsHidden(quarter, sub60, off) && !(bitmap && bits[off]) && !TplComposite(tpl, delta + off) {
        buffer[cnt] := off;
        cnt := cnt + 1;
      }
    }
    cand := buffer[..cnt];
  }

  lemma NoCandidates(quarter: bool, bsub: nat, sub60: nat, delta: nat, tpl: Template, ps: seq<nat>, cap: nat)
    requires cap <= |ps|
    ensures Candidates(quarter, bsub, sub60, delta, tpl, ps, cap, 0) == []
  {
  }

  lemma NextCandidate(quarter: bool, bsub: nat, sub60: nat, delta: nat, tpl: Template, ps: seq<nat>, cap: nat,
                      off: nat)
    requires cap <= |ps|
    ensures Candidates(quarter, bsub, sub60, delta, tpl, ps, cap, off + 1)
            == Candidates(quarter, bsub, sub60, delta, tpl, ps, cap, off)
               + if IsHidden(quarter, sub60, off) && !SomeDivides(ps, cap, bsub, off) && !TplComposite(tpl, delta + off)
                 then [off] else []
    ensures cap == 0 ==> !SomeDivides(ps, cap, bsub, off)
  {
    hide IsHidden, TplComposite;
  }

  // ------------------------------------------------------------------ the reference: true pairs

  predicate At(test: nat -> bool, base: nat, o: nat) { test(base + o) }

  /** First accepted offset from i on, at most hi. */
  function NextTrue(test: nat -> bool, base: nat, i: nat, hi: nat): (r: nat)
    requires i <= hi
    ensures i <= r <= hi && (r < hi ==> At(test, base, r))
    ensures forall j :: i <= j < r ==> !At(test, base, j)
    decreases hi - i
  {
    if i == hi || At(test, base, i) then i else NextTrue(test, base, i + 1, hi)
  }

  /** The pairs of neighbouring accepted offsets from a to b. */
  function TrueBetween(test: nat -> bool, base: nat, a: nat, b: nat): seq<Pair>
    decreases b - a
  {
    if a >= b then []
    else var n := NextTrue(test, base, a + 1, b); [(a, n)] + TrueBetween(test, base, n, b)
  }

  ghost predicate NoneBetween(test: nat -> bool, base: nat, x: nat, y: nat) {
    forall o: nat :: x < o < y ==> !At(test, base, o)
  }

  lemma {:induction false} TrueSplit(test: nat -> bool, base: nat, a: nat, b: nat, c: nat)
    requires a <= b <= c && At(test, base, b)
    ensures TrueBetween(test, base, a, c) == TrueBetween(test, base, a, b) + TrueBetween(test, base, b, c)
    decreases b - a
  {
    if a < b {
      var n := NextTrue(test, base, a + 1, c);
      assert n <= b;
      assert NextTrue(test, base, a + 1, b) == n by { SameNext(test, base, a + 1, b, n); }
      TrueSplit(test, base, n, b, c);
    }
  }

  lemma SameNext(test: nat -> bool, base: nat, i: nat, hi: nat, n: nat)
    requires i <= n <= hi && (n < hi ==> At(test, base, n))
    requires forall j :: i <= j < n ==> !At(test, base, j)
    ensures NextTrue(test, base, i, hi) == n
  {
    var r := NextTrue(test, base, i, hi);
  }

  lemma NothingBetween(test: nat -> bool, base: nat, x: nat, y: nat)
    requires x < y && NoneBetween(test, base, x, y)
    ensures TrueBetween(test, base, x, y) == [(x, y)]
  {
    SameNext(test, base, x + 1, y, y);
    assert TrueBetween(test, base, y, y) == [];
  }

  // ------------------------------------------------------------------ resolving one pair

  /** halfclass_collect_hidden: the accepted candidates of the interval. */
  method CollectHidden(test: nat -> bool, quarter: bool, bsub: nat, interval: nat, sub60: nat, delta: nat,
                       tpl: Template, ps: seq<nat>, sieveCap: nat, haveBitmap: bool, ghost base: nat)
    returns (hid: seq<nat>)
    requires SieveTable(ps) && Rough(test) && base > SIEVE_LIMIT
    requires bsub == base + delta && TplSound(tpl, base)
    ensures Ascending(hid)
    ensures forall o: nat :: o in hid <==> o < interval && IsHidden(quarter, sub60, o) && At(test, bsub, o)
  {
    hide *;
    hide At;
    var cand, sieved := CollectCandidates(quarter, bsub, interval, sub60, delta, tpl, ps, sieveCap, haveBitmap);
    CandidateList(quarter, bsub, sub60, delta, tpl, ps, sieved, interval);
    hid := [];
    AscendingNil();
    for i := 0 to |cand|
      invariant Ascending(hid)
      invariant forall o: nat :: o in hid <==> o in cand[..i] && At(test, bsub, o)
    {
      ghost var was := hid;
      if test(bsub + cand[i]) {
        AscendingPrefix(cand, i);
        AscendingAppend(hid, cand[i]);
        hid := hid + [cand[i]];
      }
      AtIs(test, bsub, cand[i]);
      assert cand[..i + 1] == cand[..i] + [cand[i]];
    }
    assert cand[..|cand|] == cand;
    forall o: nat ensures o in hid <==> o < interval && IsHidden(quarter, sub60, o) && At(test, bsub, o) {
      AcceptedSurvives(test, quarter, base, sub60, delta, tpl, ps, sieved, o);
    }
  }

  lemma AtIs(test: nat -> bool, b: nat, o: nat)
    ensures At(test, b, o) == test(b + o)
  {
  }

  lemma AscendingNil()
    ensures Ascending([])
  {
  }

  lemma AscendingPrefix(s: seq<nat>, i: nat)
    requires Ascending(s) && i < |s|
    ensures forall o :: o in s[..i] ==> o < s[i]
  {
  }

  /** The sieve and the template never drop an accepted value. */
  lemma AcceptedSurvives(test: nat -> bool, quarter: bool, base: nat, sub60: nat, delta: nat, tpl: Template,
                         ps: seq<nat>, cap: nat, o: nat)
    requires cap <= |ps| && SieveTable(ps) && Rough(test) && base > SIEVE_LIMIT && TplSound(tpl, base)
    ensures At(test, base + delta, o) ==>
              IsCandidate(quarter, base + delta, sub60, delta, tpl, ps, cap, o) == IsHidden(quarter, sub60, o)
    ensures IsCandidate(quarter, base + delta, sub60, delta, tpl, ps, cap, o) ==> IsHidden(quarter, sub60, o)
  {
    hide IsHidden, TplComposite;
    assert base + delta + o == base + (delta + o);
  }

  /** The ascending neighbours of a chain. */
  function Links(chain: seq<nat>): seq<Pair> {
    if |chain| < 2 then []
    else
      var n := |chain| - 1;
      Links(chain[..n]) + if chain[n] > chain[n - 1] then [(chain[n - 1], chain[n])] else []
  }

  predicate Wanted(g: Gate, base: nat, limit: nat, x: Pair) {
    x.0 < limit && g.ln(base + x.0) > 0.0 && Qualifies(x.1 - x.0, g.ln(base + x.0), g.minMerit)
  }

  /** The pairs that start before the limit and reach the merit bound. */
  function Picked(g: Gate, base: nat, limit: nat, s: seq<Pair>): seq<Pair> {
    if s == [] then []
    else
      var n := |s| - 1;
      Picked(g, base, limit, s[..n]) + if Wanted(g, base, limit, s[n]) then [s[n]] else []
  }

  lemma PickOne(g: Gate, base: nat, limit: nat, s: seq<Pair>, x: Pair)
    ensures Picked(g, base, limit, s + [x])
            == Picked(g, base, limit, s) + if Wanted(g, base, limit, x) then [x] else []
  {
    hide Wanted;
    assert (s + [x])[..|s|] == s;
  }

  /** halfclass_emit_chain_impl. */
  method EmitChain(g: Gate, base: nat, chain: array<nat>, limit: nat) returns (res: seq<Pair>)
    requires forall v: nat :: v >= 2 ==> g.ln(v) > 0.0
    requires base >= 2
    ensures res == Picked(g, base, limit, Links(chain[..]))
  {
    hide *;
    ChainStart(g, base, limit, chain[..]);
    if chain.Length < 2 { return []; }
    var buffer := new Pair[chain.Length - 1](_ => (0, 0));
    var rc := 0;
    ghost var all := chain[..];
    for i := 1 to chain.Length
      invariant rc < i && chain[..] == all
      invariant buffer[..rc] == Picked(g, base, limit, Links(all[..i]))
    {
      var prev, next := chain[i - 1], chain[i];
      ChainStep(g, base, limit, all, i);
      if !(prev >= limit || next <= prev) {
        if Qualifies(next - prev, g.ln(base + prev), g.minMerit) {
          buffer[rc] := (prev, next);
          rc := rc + 1;
        }
      }
    }
    assert all[..chain.Length] == all;
    res := buffer[..rc];
  }

  lemma ChainStart(g: Gate, base: nat, limit: nat, all: seq<nat>)
    ensures |all| < 2 ==> Picked(g, base, limit, Links(all)) == []
    ensures |all| >= 2 ==> Picked(g, base, limit, Links(all[..1])) == []
  {
    if |all| >= 2 { assert |all[..1]| == 1; }
  }

  lemma ChainStep(g: Gate, base: nat, limit: nat, all: seq<nat>, i: nat)
    requires 1 <= i < |all| && g.ln(base + all[i - 1]) > 0.0
    ensures Picked(g, base, limit, Links(all[..i + 1])) == Picked(g, base, limit, Links(all[..i]))
              + if all[i - 1] < limit && all[i - 1] < all[i]
                   && Qualifies(all[i] - all[i - 1], g.ln(base + all[i - 1]), g.minMerit)
                then [(all[i - 1], all[i])] else []
  {
    var next := all[..i + 1];
    assert next[..i] == all[..i] && next[i] == all[i] && next[i - 1] == all[i - 1];
    assert Links(all[..i]) + [] == Links(all[..i]);
    PickOne(g, base, limit, Links(all[..i]), (all[i - 1], all[i]));
  }

  /** A chain that lists accepted offsets in order and misses none in between. */
  ghost predicate TrueChain(test: nat -> bool, base: nat, chain: seq<nat>) {
    && (forall k :: 0 <= k < |chain| ==> At(test, base, chain[k]))
    && forall k :: 0 <= k < |chain| - 1 ==> Next(test, base, chain[k], chain[k + 1])
  }

  ghost predicate Next(test: nat -> bool, base: nat, x: nat, y: nat) {
    x <= y && NoneBetween(test, base, x, y)
  }

  /** The links of such a chain, whose first entry may stand twice, are the true pairs. */
  lemma {:induction false} LinksAreTruePairs(test: nat -> bool, base: nat, chain: seq<nat>, k: nat)
    requires TrueChain(test, base, chain) && k < |chain|
    ensures chain[0] <= chain[k]
    ensures Links(chain[..k + 1]) == TrueBetween(test, base, chain[0], chain[k])
  {
    if k > 0 {
      hide At, NoneBetween;
      LinksAreTruePairs(test, base, chain, k - 1);
      assert chain[..k + 1][..k] == chain[..k];
      assert Next(test, base, chain[k - 1], chain[k - 1 + 1]);
      if chain[k - 1] < chain[k] {
        TrueSplit(test, base, chain[0], chain[k - 1], chain[k]);
        NothingBetween(test, base, chain[k - 1], chain[k]);
      }
    }
  }

  /** Everything accepted strictly between a and b is in a hidden class. */
  ghost predicate OnlyHidden(test: nat -> bool, quarter: bool, base: nat, a: nat, b: nat) {
    forall o: nat :: a < o < b && At(test, base, o) ==> InHidden(quarter, base, o)
  }

  predicate InHidden(quarter: bool, base: nat, o: nat) { (base + o) % 60 in Hidden(quarter) }

  /** hid lists, relative to a, what is accepted and hidden in [a, b). */
  ghost predicate HiddenList(test: nat -> bool, quarter: bool, base: nat, a: nat, b: nat, hid: seq<nat>)
    requires a <= b
  {
    && Ascending(hid)
    && forall o: nat :: o in hid <==> o < b - a && InHidden(quarter, base, a + o) && At(test, base, a + o)
  }

  lemma JoinIsTrueChain(test: nat -> bool, quarter: bool, base: nat, a: nat, b: nat, hid: seq<nat>, chain: seq<nat>)
    requires a < b && At(test, base, a) && At(test, base, b) && OnlyHidden(test, quarter, base, a, b)
    requires HiddenList(test, quarter, base, a, b, hid)
    requires |chain| == |hid| + 2 && chain[0] == a && chain[|hid| + 1] == b
    requires forall i :: 1 <= i <= |hid| ==> chain[i] == a + hid[i - 1]
    ensures TrueChain(test, base, chain)
  {
    hide At, InHidden;
    forall k | 0 <= k < |chain| ensures At(test, base, chain[k]) {
      if 1 <= k <= |hid| { assert hid[k - 1] in hid; }
    }
    forall k | 0 <= k < |chain| - 1 ensures Next(test, base, chain[k], chain[k + 1]) {
      JoinGap(test, quarter, base, a, b, hid, chain, k);
    }
  }

  lemma JoinGap(test: nat -> bool, quarter: bool, base: nat, a: nat, b: nat, hid: seq<nat>, chain: seq<nat>, k: nat)
    requires a < b && OnlyHidden(test, quarter, base, a, b)
    requires HiddenList(test, quarter, base, a, b, hid)
    requires |chain| == |hid| + 2 && chain[0] == a && chain[|hid| + 1] == b
    requires forall i :: 1 <= i <= |hid| ==> chain[i] == a + hid[i - 1]
    requires k < |chain| - 1
    ensures Next(test, base, chain[k], chain[k + 1])
  {
    hide At, InHidden;
    var x, y := chain[k], chain[k + 1];
    assert 1 <= k ==> x == a + hid[k - 1] && hid[k - 1] in hid;
    assert k + 1 <= |hid| ==> y == a + hid[k] && hid[k] in hid;
    forall o: nat | x < o < y ensures !At(test, base, o) {
      var rel: nat := o - a;
      assert a + rel == o;
      Absent(hid, k, rel);
    }
  }

  lemma Absent(s: seq<nat>, k: nat, x: nat)
    requires Ascending(s) && k <= |s| && (k > 0 ==> s[k - 1] < x) && (k < |s| ==> x < s[k])
    ensures x !in s
  {
  }

  /** halfclass_resolve_gap_ex: exactly the qualifying true pairs between a and b; out of
      memory, nothing. */
  method ResolveGap(g: Gate, test: nat -> bool, quarter: bool, base: nat, a: nat, b: nat, limit: nat,
                    tpl: Template, ps: seq<nat>, haveMemory: bool, haveBitmap: bool)
    returns (ok: bool, res: seq<Pair>)
    requires forall v: nat :: v >= 2 ==> g.ln(v) > 0.0
    requires SieveTable(ps) && Rough(test) && base > SIEVE_LIMIT && TplSound(tpl, base)
    requires At(test, base, a) && At(test, base, b) && OnlyHidden(test, quarter, base, a, b)
    ensures ok <==> haveMemory || b <= a
    ensures res == if ok then Picked(g, base, limit, TrueBetween(test, base, a, b)) else []
  {
    hide *;
    if b <= a { ok, res := true, []; NothingToPick(g, test, base, limit, a, b); return; }
    if !haveMemory { return false, []; }
    var interval := b - a;
    var base60 := base % 60;
    var sub60 := (base60 + a % 60) % 60;
    LargeBase(base);
    var hid := CollectHidden(test, quarter, base + a, interval, sub60, a, tpl, ps, 10000, haveBitmap, base);
    HiddenFound(test, quarter, base, a, b, sub60, hid);
    var chain := Join(a, b, hid);
    JoinIsTrueChain(test, quarter, base, a, b, hid, chain[..]);
    LinksAreTruePairs(test, base, chain[..], |hid| + 1);
    assert chain[..][..|hid| + 2] == chain[..];
    res := EmitChain(g, base, chain, limit);
    ok := true;
  }

  lemma LargeBase(base: nat)
    requires base > SIEVE_LIMIT
    ensures base >= 2
  {
  }

  lemma NothingToPick(g: Gate, test: nat -> bool, base: nat, limit: nat, a: nat, b: nat)
    requires b <= a
    ensures Picked(g, base, limit, TrueBetween(test, base, a, b)) == []
  {
  }

  lemma HiddenFound(test: nat -> bool, quarter: bool, base: nat, a: nat, b: nat, sub60: nat, hid: seq<nat>)
    requires a < b && sub60 == (base % 60 + a % 60) % 60 && Ascending(hid)
    requires forall o: nat :: o in hid <==> o < b - a && IsHidden(quarter, sub60, o) && At(test, base + a, o)
    ensures HiddenList(test, quarter, base, a, b, hid)
  {
    hide Hidden;
    forall o: nat ensures o in hid <==> o < b - a && InHidden(quarter, base, a + o) && At(test, base, a + o) {
      assert base + a + o == base + (a + o);
      ClassShift(base, a, o);
    }
  }

  lemma ClassShift(base: nat, a: nat, o: nat)
    ensures ((base % 60 + a % 60) % 60 + o % 60) % 60 == (base + (a + o)) % 60
  {
    CongMod(base, 60);
    CongMod(a, 60);
    CongMod(o, 60);
    CongAdd(base % 60, base, a % 60, a, 60);
    CongMod(base % 60 + a % 60, 60);
    CongAdd((base % 60 + a % 60) % 60, base + a, o % 60, o, 60);
  }

  /** The chain off_a, off_a + hid, off_b of halfclass_emit_resolved. */
  method Join(a: nat, b: nat, hid: seq<nat>) returns (chain: array<nat>)
    ensures fresh(chain) && chain.Length == |hid| + 2 && chain[0] == a && chain[|hid| + 1] == b
    ensures forall i :: 1 <= i <= |hid| ==> chain[i] == a + hid[i - 1]
  {
    chain := new nat[|hid| + 2];
    chain[0] := a;
    for i := 0 to |hid|
      invariant chain[0] == a && forall k :: 1 <= k <= i ==> chain[k] == a + hid[k - 1]
    {
      chain[i + 1] := a + hid[i];
    }
    chain[|hid| + 1] := b;
  }

  // ------------------------------------------------------------------ one window

  /** The report of the true pairs from a to b. */
  ghost function Between(g: Gate, test: nat -> bool, base: nat, a: nat, b: nat): seq<Gap> {
    Report(g, base, TrueBetween(test, base, a, b))
  }

  lemma BetweenSplit(g: Gate, test: nat -> bool, base: nat, a: nat, b: nat, c: nat)
    requires a <= b <= c && At(test, base, b)
    ensures Between(g, test, base, a, c) == Between(g, test, base, a, b) + Between(g, test, base, b, c)
  {
    hide At, Report;
    TrueSplit(test, base, a, b, c);
    ReportConcat(g, base, TrueBetween(test, base, a, b), TrueBetween(test, base, b, c));
  }

  lemma BetweenSame(g: Gate, test: nat -> bool, base: nat, a: nat)
    ensures Between(g, test, base, a, a) == []
  {
  }

  /** Last flagged index before i (0 when there is none). */
  function PrevFlag(fl: seq<bool>, i: nat): (r: nat)
    requires i <= |fl|
  {
    if i == 0 then 0 else if fl[i - 1] then i - 1 else PrevFlag(fl, i - 1)
  }

  lemma {:induction false} PrevFlagIs(fl: seq<bool>, i: nat, p: nat)
    requires p < i <= |fl| && fl[p] && NextFlag(fl, p + 1) >= i
    ensures PrevFlag(fl, i) == p
  {
    if p < i - 1 { PrevFlagIs(fl, i - 1, p); }
  }

  /** The full report of a window between its first and its last found prime. */
  ghost function TwoPass(g: Gate, base: nat, test: nat -> bool, off: seq<nat>, fl: seq<bool>): seq<Gap>
    requires |off| == |fl|
  {
    var p := NextFlag(fl, 0);
    if p == |fl| then []
    else
      var q := PrevFlag(fl, |fl|);
      if q < |fl| then Between(g, test, base, off[p], off[q]) else []
  }

  lemma {:induction false} PickedAreWanted(g: Gate, base: nat, limit: nat, s: seq<Pair>)
    ensures forall k :: 0 <= k < |Picked(g, base, limit, s)| ==>
              Wanted(g, base, limit, Picked(g, base, limit, s)[k]) && Picked(g, base, limit, s)[k] in s
  {
    hide Wanted;
    if s != [] { PickedAreWanted(g, base, limit, s[..|s| - 1]); }
  }

  /** Dropping the pairs below the merit bound does not change a report. */
  lemma {:induction false} ReportPicked(g: Gate, base: nat, limit: nat, s: seq<Pair>)
    requires base >= 2 && forall v: nat :: v >= 2 ==> g.ln(v) > 0.0
    requires forall k :: 0 <= k < |s| ==> s[k].0 < limit
    ensures Report(g, base, Picked(g, base, limit, s)) == Report(g, base, s)
  {
    hide Wanted, Emit, Report;
    if s != [] {
      var n := |s| - 1;
      var front, x := s[..n], s[n];
      ReportPicked(g, base, limit, front);
      assert s == front + [x];
      ReportConcat(g, base, front, [x]);
      ReportOne(g, base, x);
      OneEmitted(g, base, limit, x);
      if Wanted(g, base, limit, x) {
        ReportConcat(g, base, Picked(g, base, limit, front), [x]);
      } else {
        assert Picked(g, base, limit, s) == Picked(g, base, limit, front);
      }
    }
  }

  lemma OneEmitted(g: Gate, base: nat, limit: nat, x: Pair)
    requires base >= 2 && (forall v: nat :: v >= 2 ==> g.ln(v) > 0.0) && x.0 < limit
    ensures !Wanted(g, base, limit, x) ==> Emit(g, base + x.0, base + x.1) == []
  {
  }

  lemma {:induction false} PairsStartBefore(test: nat -> bool, base: nat, a: nat, b: nat)
    ensures forall k :: 0 <= k < |TrueBetween(test, base, a, b)| ==>
              var x := TrueBetween(test, base, a, b)[k]; a <= x.0 < x.1 <= b
    decreases b - a
  {
    hide At;
    if a < b { PairsStartBefore(test, base, NextTrue(test, base, a + 1, b), b); }
  }

  /** The endpoints of resolved pairs still face the final check. */
  method ReportResolved(g: Gate, base: nat, limit: nat, res: seq<Pair>) returns (gaps: seq<Gap>)
    requires forall k :: 0 <= k < |res| ==> Wanted(g, base, limit, res[k]) && res[k].0 < res[k].1
    ensures gaps == Report(g, base, res)
  {
    hide *;
    gaps := [];
    ReportNil(g, base);
    assert res[..0] == [];
    for k := 0 to |res|
      invariant gaps == Report(g, base, res[..k])
    {
      var x := res[k];
      assert res[..k + 1] == res[..k] + [x];
      ReportConcat(g, base, res[..k], [x]);
      ReportOne(g, base, x);
      WantedEmit(g, base, limit, x);
      if g.bpsw(base + x.0) && g.bpsw(base + x.1) {
        gaps := gaps + [Gap(base + x.0, x.1 - x.0)];
      }
    }
    assert res[..|res|] == res;
  }

  lemma WantedEmit(g: Gate, base: nat, limit: nat, x: Pair)
    requires Wanted(g, base, limit, x)
    ensures Emit(g, base + x.0, base + x.1)
            == if g.bpsw(base + x.0) && g.bpsw(base + x.1) then [Gap(base + x.0, x.1 - x.0)] else []
  {
    assert (base + x.1) - (base + x.0) == x.1 - x.0;
  }

  /** Containment: when a pair misses the merit bound, so does every pair inside it. */
  lemma {:induction false} InnerPairsFail(g: Gate, test: nat -> bool, base: nat, a: nat, c: nat, b: nat)
    requires ValidGate(g) && base >= 2 && a <= c <= b && a < b
    requires g.ln(base + a) > 0.0 && !Qualifies(b - a, g.ln(base + a), g.minMerit)
    ensures Between(g, test, base, c, b) == []
    decreases b - c
  {
    if c < b {
      var n := NextTrue(test, base, c + 1, b);
      InnerPairsFail(g, test, base, a, n, b);
      ShorterFails(g.ln(base + a), g.ln(base + c), b - a, n - c, g.minMerit);
      assert TrueBetween(test, base, c, b)[0] == (c, n);
      assert TrueBetween(test, base, c, b)[1..] == TrueBetween(test, base, n, b);
    } else {
      BetweenSame(g, test, base, c);
    }
  }

  lemma ShorterFails(l: real, l': real, gap: int, gap': int, m: real)
    requires 0.0 < l <= l' && 0 <= gap' <= gap && !Qualifies(gap, l, m)
    ensures !Qualifies(gap', l', m)
  {
    BelowBound(gap as real, l, m);
    BelowBound(gap' as real, l', m);
    ScaledBound(gap as real, gap' as real, l, l', m);
  }

  lemma BelowBound(a: real, l: real, m: real)
    requires l > 0.0
    ensures a / l < m <==> a < m * l
  {
    var q := a / l;
    assert q * l == a;
    ScaleOrder(q, m, l);
  }

  lemma ScaleOrder(x: real, y: real, l: real)
    requires l > 0.0
    ensures x < y <==> x * l < y * l
  {
    if x < y { assert (y - x) * l > 0.0; } else { assert (x - y) * l >= 0.0; }
  }

  lemma ScaledBound(a: real, a': real, l: real, l': real, m: real)
    requires 0.0 < l <= l' && 0.0 <= a' <= a < m * l
    ensures a' < m * l'
  {
    ScaleOrder(0.0, m, l);
    assert m * (l' - l) >= 0.0;
  }

  /** Everything accepted strictly between a and b was skipped by the scan. */
  ghost predicate AllSkipped(r: Range, test: nat -> bool, a: nat, b: nat) {
    forall o: nat :: a < o < b && At(test, r.base, o) ==> !Scanned(r, o)
  }

  lemma SkippedAreHidden(r: Range, test: nat -> bool, a: nat, b: nat)
    requires Rough(test) && r.base > SIEVE_LIMIT && AllSkipped(r, test, a, b)
    ensures OnlyHidden(test, r.quarter, r.base, a, b)
  {
    hide Rough, Visible, Hidden;
    forall o: nat | a < o < b && At(test, r.base, o) ensures InHidden(r.quarter, r.base, o) {
      SkippedIsHidden(r, o, test);
    }
  }

  /** The pair needs no resolution. */
  predicate Direct(r: Range, a: nat, b: nat) {
    r.full || (a < r.regionStart && b < r.regionStart) || (a >= r.tailStart && b >= r.tailStart)
  }

  /** Where nothing is skipped, the pair is a true pair. */
  lemma DirectPair(r: Range, test: nat -> bool, a: nat, b: nat)
    requires a < b && AllSkipped(r, test, a, b)
    requires Direct(r, a, b)
    ensures TrueBetween(test, r.base, a, b) == [(a, b)]
  {
    hide At;
    NothingBetween(test, r.base, a, b);
  }

  /** One found pair of the full-scan loop, with or without the class filter. */
  method ReportPair(g: Gate, r: Range, test: nat -> bool, a: nat, b: nat, tpl: Template, ps: seq<nat>,
                    haveMemory: bool, haveBitmap: bool)
    returns (gaps: seq<Gap>, ok: bool)
    requires ValidGate(g) && SieveTable(ps) && Rough(test) && r.base > SIEVE_LIMIT
    requires r.base % 2 == 0 ==> TplSound(tpl, r.base)
    requires a < b < r.interval && At(test, r.base, a) && At(test, r.base, b) && AllSkipped(r, test, a, b)
    ensures haveMemory ==> ok
    ensures gaps == if ok then Between(g, test, r.base, a, b) else []
  {
    hide *;
    PositiveLogs(g);
    LargeBase(r.base);
    gaps, ok := [], true;
    var p1, p2 := r.base + a, r.base + b;
    if Qualifies(b - a, g.ln(p1), g.minMerit) {
      if Direct(r, a, b) {
        DirectPair(r, test, a, b);
        DirectReport(g, test, r.base, a, b);
        if g.bpsw(p2) && g.bpsw(p1) { gaps := [Gap(p1, b - a)]; }
      } else {
        SkippedAreHidden(r, test, a, b);
        var t := if r.base % 2 == 0 then tpl else NoTemplate;
        NoTemplateSound(r.base);
        var res;
        ok, res := ResolveGap(g, test, r.quarter, r.base, a, b, r.interval, t, ps, haveMemory, haveBitmap);
        if ok {
          PickedAreWanted(g, r.base, r.interval, TrueBetween(test, r.base, a, b));
          PairsStartBefore(test, r.base, a, b);
          gaps := ReportResolved(g, r.base, r.interval, res);
          ResolvedReport(g, test, r.base, a, b, r.interval);
        }
      }
    } else {
      InnerPairsFail(g, test, r.base, a, a, b);
    }
  }

  lemma NoTemplateSound(base: nat)
    ensures TplSound(NoTemplate, base)
  {
  }

  lemma DirectReport(g: Gate, test: nat -> bool, base: nat, a: nat, b: nat)
    requires a < b && TrueBetween(test, base, a, b) == [(a, b)]
    requires g.ln(base + a) > 0.0 && Qualifies(b - a, g.ln(base + a), g.minMerit)
    ensures Between(g, test, base, a, b)
            == if g.bpsw(base + b) && g.bpsw(base + a) then [Gap(base + a, b - a)] else []
  {
    ReportOne(g, base, (a, b));
    assert (base + b) - (base + a) == b - a;
  }

  lemma ResolvedReport(g: Gate, test: nat -> bool, base: nat, a: nat, b: nat, limit: nat)
    requires base >= 2 && (forall v: nat :: v >= 2 ==> g.ln(v) > 0.0) && b <= limit
    ensures Report(g, base, Picked(g, base, limit, TrueBetween(test, base, a, b))) == Between(g, test, base, a, b)
  {
    PairsStartBefore(test, base, a, b);
    ReportPicked(g, base, limit, TrueBetween(test, base, a, b));
  }

  /** out' extends out by part of rep, and by all of it when nothing failed. */
  ghost predicate Progress(out: seq<Gap>, out': seq<Gap>, complete: bool, rep: seq<Gap>) {
    && out <= out'
    && (complete ==> out' == out + rep)
    && forall x :: x in out'[|out|..] ==> x in rep
  }

  lemma ProgressStep(out: seq<Gap>, out': seq<Gap>, complete: bool, rep: seq<Gap>, more: seq<Gap>, ok: bool)
    requires Progress(out, out', complete, rep)
    ensures Progress(out, out' + if ok then more else [], complete && ok, rep + more)
  {
    var next := out' + if ok then more else [];
    assert next[|out|..] == out'[|out|..] + if ok then more else [];
  }

  lemma ProgressStart(out: seq<Gap>)
    ensures Progress(out, out, true, [])
  {
  }

  lemma FlagIs(base: nat, off: seq<nat>, test: nat -> bool, k: nat)
    requires k < |off|
    ensures Flags(Window(base, off), test)[k] == At(test, base, off[k])
  {
  }

  lemma Neighbours(r: Range, off: seq<nat>, test: nat -> bool, fl: seq<bool>, p: nat, j: nat)
    requires Covers(r, off, test) && fl == Flags(Window(r.base, off), test)
    requires p < j < |off| && fl[p] && fl[j] && NextFlag(fl, p + 1) >= j
    ensures off[p] < off[j] < r.interval && At(test, r.base, off[p]) && At(test, r.base, off[j])
    ensures AllSkipped(r, test, off[p], off[j])
  {
    FlagIs(r.base, off, test, p);
    FlagIs(r.base, off, test, j);
    hide Flags, At, Scanned;
    forall o: nat | off[p] < o < off[j] && At(test, r.base, o) ensures !Scanned(r, o) {
      if o in off { NotFound(r.base, off, test, p, j, o); }
    }
  }

  lemma NotFound(base: nat, off: seq<nat>, test: nat -> bool, p: nat, j: nat, o: nat)
    requires Ascending(off) && p < j < |off| && NextFlag(Flags(Window(base, off), test), p + 1) >= j
    requires off[p] < o < off[j] && o in off
    ensures !At(test, base, o)
  {
    var k :| 0 <= k < |off| && off[k] == o;
    FlagIs(base, off, test, k);
    assert p < k < j;
  }

  /** The scan branch of gh_batch_process for one window, with or without the class filter.
      Unless a resolution runs out of memory it reports exactly the full report between the first
      and the last found prime; in any case it reports nothing else. */
  method ProcessClasses(g: Gate, r: Range, off: seq<nat>, flags: seq<bool>, test: nat -> bool, tpl: Template,
                        ps: seq<nat>, haveMemory: nat -> bool, haveBitmap: nat -> bool, out: seq<Gap>)
    returns (out': seq<Gap>, complete: bool)
    requires ValidGate(g) && SieveTable(ps) && Rough(test) && r.base > SIEVE_LIMIT
    requires r.base % 2 == 0 ==> TplSound(tpl, r.base)
    requires Covers(r, off, test) && flags == Flags(Window(r.base, off), test)
    ensures Progress(out, out', complete, TwoPass(g, r.base, test, off, flags))
    ensures (forall j: nat :: haveMemory(j)) ==> complete
  {
    hide *;
    out', complete := out, true;
    var haveLast, prev := false, 0;
    ghost var f: nat, p: nat := 0, 0;
    ProgressStart(out);
    for j := 0 to |off|
      invariant (forall i: nat :: haveMemory(i)) ==> complete
      invariant !haveLast ==> NextFlag(flags, 0) >= j && out' == out && complete
      invariant haveLast ==> f == NextFlag(flags, 0) <= p < j && flags[p] && prev == off[p]
      invariant haveLast ==> NextFlag(flags, p + 1) >= j && off[f] <= off[p]
      invariant haveLast ==> Progress(out, out', complete, Between(g, test, r.base, off[f], off[p]))
    {
      if flags[j] {
        var o := off[j];
        if haveLast {
          Neighbours(r, off, test, flags, p, j);
          var gaps, ok := ReportPair(g, r, test, prev, o, tpl, ps, haveMemory(j), haveBitmap(j));
          BetweenSplit(g, test, r.base, off[f], prev, o);
          ProgressStep(out, out', complete, Between(g, test, r.base, off[f], prev),
                       Between(g, test, r.base, prev, o), ok);
          out', complete := out' + gaps, complete && ok;
        } else {
          f := j;
          BetweenSame(g, test, r.base, o);
        }
        prev, haveLast := o, true;
        p := j;
      }
    }
    if haveLast { PrevFlagIs(flags, |flags|, p); }
    TwoPassIs(g, r.base, test, off, flags, f, p, haveLast);
  }

  lemma TwoPassIs(g: Gate, base: nat, test: nat -> bool, off: seq<nat>, fl: seq<bool>, f: nat, p: nat, have: bool)
    requires |off| == |fl|
    requires have ==> f == NextFlag(fl, 0) <= p < |fl| && PrevFlag(fl, |fl|) == p
    requires !have ==> NextFlag(fl, 0) >= |fl|
    ensures TwoPass(g, base, test, off, fl) == if have then Between(g, test, base, off[f], off[p]) else []
  {
  }

  // ------------------------------------------------------------------ against the full scan

  /** Over a candidate list that covers all classes, the chain of the full scan is the list
      of true pairs. */
  lemma {:induction false} ChainIsTrueBetween(r: Range, off: seq<nat>, test: nat -> bool, fl: seq<bool>, p: nat, q: nat)
    requires Covers(r, off, test) && r.full && fl == Flags(Window(r.base, off), test)
    requires p <= q < |fl| && fl[p] && fl[q] && NextFlag(fl, q + 1) == |fl|
    ensures off[p] <= off[q]
    ensures ChainFrom(off, fl, 1, p) == TrueBetween(test, r.base, off[p], off[q])
    decreases |fl| - p
  {
    hide Visible;
    var n := NextFlag(fl, p + 1);
    if p < q {
      assert n <= q;
      ChainIsTrueBetween(r, off, test, fl, n, q);
      Neighbours(r, off, test, fl, p, n);
      hide At;
      forall o: nat | off[p] < o < off[n] ensures !At(test, r.base, o) {}
      NothingBetween(test, r.base, off[p], off[n]);
      TrueSplit(test, r.base, off[p], off[n], off[q]);
    }
  }

  /** Offset of the first and of the last flagged candidate. */
  function FirstFound(off: seq<nat>, fl: seq<bool>): nat
    requires |off| == |fl|
  {
    if NextFlag(fl, 0) < |off| then off[NextFlag(fl, 0)] else 0
  }

  function LastFound(off: seq<nat>, fl: seq<bool>): nat
    requires |off| == |fl|
  {
    if PrevFlag(fl, |fl|) < |off| then off[PrevFlag(fl, |fl|)] else 0
  }

  lemma {:induction false} LastFlag(fl: seq<bool>, i: nat, p: nat)
    requires p < i <= |fl| && fl[p]
    ensures p <= PrevFlag(fl, i) < i && fl[PrevFlag(fl, i)]
    ensures forall j :: PrevFlag(fl, i) < j < i ==> !fl[j]
  {
    if !fl[i - 1] { LastFlag(fl, i - 1, p); }
  }

  /** First and last found offsets are accepted and bracket every found one. */
  lemma Ends(base: nat, test: nat -> bool, off: seq<nat>, j: nat)
    requires Ascending(off) && j < |off| && At(test, base, off[j])
    ensures var fl := Flags(Window(base, off), test);
            var p, q := NextFlag(fl, 0), PrevFlag(fl, |fl|);
            && p <= j <= q < |fl| && fl[p] && fl[q] && NextFlag(fl, q + 1) == |fl|
            && At(test, base, FirstFound(off, fl)) && At(test, base, LastFound(off, fl))
            && FirstFound(off, fl) == off[p] <= off[j] <= off[q] == LastFound(off, fl)
            && FirstFound(off, fl) in off && LastFound(off, fl) in off
  {
    var fl := Flags(Window(base, off), test);
    assert fl[j];
    LastFlag(fl, |fl|, j);
    var q := PrevFlag(fl, |fl|);
    assert NextFlag(fl, q + 1) == |fl|;
  }

  /** Among two candidate lists of a window, the larger one finds first what lies in its list. */
  lemma FoundIsFound(r: Range, test: nat -> bool, off: seq<nat>, all: seq<nat>, o: nat)
    requires Covers(r, off, test) && Covers(r.(full := true), all, test)
    requires o in off && At(test, r.base, o)
    ensures o in all
  {
    var j :| 0 <= j < |off| && off[j] == o;
    assert Scanned(r.(full := true), o);
  }

  /** The two-pass scan against the full scan of the same window: the full report is the
      two-pass report, preceded and followed by the pairs outside the first and the last
      found prime.  Nothing is left outside when the first accepted offset lies in the first
      band and the last one in the last band. */
  lemma TwoPassEqualsFullScan(g: Gate, r: Range, test: nat -> bool, off: seq<nat>, all: seq<nat>, j: nat)
    requires Covers(r, off, test) && Covers(r.(full := true), all, test)
    requires j < |off| && At(test, r.base, off[j])
    ensures var fo, fa := Flags(Window(r.base, off), test), Flags(Window(r.base, all), test);
            var t0, f, l, t1 := FirstFound(all, fa), FirstFound(off, fo), LastFound(off, fo), LastFound(all, fa);
            && t0 <= f <= l <= t1
            && FullReport(g, Window(r.base, all), test)
               == Between(g, test, r.base, t0, f) + TwoPass(g, r.base, test, off, fo)
                  + Between(g, test, r.base, l, t1)
            && (t0 < r.regionStart ==> f == t0)
            && (t1 >= r.tailStart ==> l == t1)
            && (t0 < r.regionStart && t1 >= r.tailStart ==>
                  FullReport(g, Window(r.base, all), test) == TwoPass(g, r.base, test, off, fo))
  {
    var fo, fa := Flags(Window(r.base, off), test), Flags(Window(r.base, all), test);
    Ends(r.base, test, off, j);
    FoundIsFound(r, test, off, all, off[j]);
    var k :| 0 <= k < |all| && all[k] == off[j];
    Ends(r.base, test, all, k);
    var t0, f, l, t1 := FirstFound(all, fa), FirstFound(off, fo), LastFound(off, fo), LastFound(all, fa);
    EndsNest(r, test, off, all, f, k);
    EndsNest(r, test, off, all, l, k);
    FullIsBetween(g, r, test, all, k);
    TwoPassIs(g, r.base, test, off, fo, NextFlag(fo, 0), PrevFlag(fo, |fo|), true);
    hide *;
    CutAtEnds(g, test, r.base, t0, f, l, t1);
    EndCovered(r, test, off, all, t0, j);
    EndCovered(r, test, off, all, t1, j);
  }

  lemma CutAtEnds(g: Gate, test: nat -> bool, base: nat, t0: nat, f: nat, l: nat, t1: nat)
    requires t0 <= f <= l <= t1 && At(test, base, f) && At(test, base, l)
    ensures Between(g, test, base, t0, t1)
            == Between(g, test, base, t0, f) + Between(g, test, base, f, l) + Between(g, test, base, l, t1)
    ensures t0 == f && l == t1 ==> Between(g, test, base, t0, t1) == Between(g, test, base, f, l)
  {
    hide At, Between;
    BetweenSplit(g, test, base, t0, f, t1);
    BetweenSplit(g, test, base, f, l, t1);
  }

  lemma EndsNest(r: Range, test: nat -> bool, off: seq<nat>, all: seq<nat>, o: nat, k: nat)
    requires Covers(r, off, test) && Covers(r.(full := true), all, test)
    requires o in off && At(test, r.base, o) && k < |all| && At(test, r.base, all[k])
    ensures var fa := Flags(Window(r.base, all), test); FirstFound(all, fa) <= o <= LastFound(all, fa)
  {
    FoundIsFound(r, test, off, all, o);
    var i :| 0 <= i < |all| && all[i] == o;
    Ends(r.base, test, all, i);
  }

  /** A true end inside a fully scanned band is found by the class scan as well. */
  lemma EndCovered(r: Range, test: nat -> bool, off: seq<nat>, all: seq<nat>, o: nat, j: nat)
    requires Covers(r, off, test) && Covers(r.(full := true), all, test)
    requires j < |off| && At(test, r.base, off[j]) && o in all && At(test, r.base, o)
    ensures var fo := Flags(Window(r.base, off), test);
            o < r.regionStart || o >= r.tailStart ==> FirstFound(off, fo) <= o <= LastFound(off, fo)
  {
    if o < r.regionStart || o >= r.tailStart {
      assert Scanned(r, o);
      var i :| 0 <= i < |off| && off[i] == o;
      Ends(r.base, test, off, i);
    }
  }

  lemma FullIsBetween(g: Gate, r: Range, test: nat -> bool, all: seq<nat>, k: nat)
    requires Covers(r.(full := true), all, test) && k < |all| && At(test, r.base, all[k])
    ensures var fa := Flags(Window(r.base, all), test);
            FullReport(g, Window(r.base, all), test)
            == Between(g, test, r.base, FirstFound(all, fa), LastFound(all, fa))
  {
    var fa := Flags(Window(r.base, all), test);
    Ends(r.base, test, all, k) by { assert Ascending(all); }
    hide Report;
    ChainIsTrueBetween(r.(full := true), all, test, fa, NextFlag(fa, 0), PrevFlag(fa, |fa|));
  }

  // ------------------------------------------------------------------ before the first found prime

  /** The last accepted offset below hi (0 when there is none). */
  function LastTrue(test: nat -> bool, base: nat, hi: nat): nat {
    if hi == 0 then 0 else if At(test, base, hi - 1) then hi - 1 else LastTrue(test, base, hi - 1)
  }

  lemma {:induction false} LastTrueIs(test: nat -> bool, base: nat, hi: nat, l: nat)
    requires l < hi && At(test, base, l) && forall o: nat :: l < o < hi ==> !At(test, base, o)
    ensures LastTrue(test, base, hi) == l
  {
    hide At;
    if l < hi - 1 { LastTrueIs(test, base, hi - 1, l); }
  }

  /** An ascending chain of accepted offsets that lists all of them up to its last entry. */
  lemma AscendingTrueChain(test: nat -> bool, base: nat, chain: seq<nat>)
    requires Ascending(chain) && forall k :: 0 <= k < |chain| ==> At(test, base, chain[k])
    requires |chain| > 0 ==> forall o: nat :: o <= chain[|chain| - 1] && At(test, base, o) ==> o in chain
    ensures TrueChain(test, base, chain)
  {
    hide At;
    forall k | 0 <= k < |chain| - 1 ensures Next(test, base, chain[k], chain[k + 1]) {
      forall o: nat | chain[k] < o < chain[k + 1] ensures !At(test, base, o) { Absent(chain, k + 1, o); }
    }
  }

  /** The pairs that halfclass_verify_prefix_ex has to report: those among the accepted offsets
      below v0, and up to v0 itself when v0 holds a prime. */
  function PrefixPairs(test: nat -> bool, base: nat, v0: nat, terminal: bool): seq<Pair> {
    var first := NextTrue(test, base, 0, v0);
    if terminal then TrueBetween(test, base, first, v0)
    else if first < v0 then TrueBetween(test, base, first, LastTrue(test, base, v0)) else []
  }

  /** halfclass_verify_prefix_ex: nothing visible lies below v0, so the hidden classes decide. */
  method VerifyPrefix(g: Gate, test: nat -> bool, quarter: bool, base: nat, v0: nat, terminal: bool, limit: nat,
                      tpl: Template, ps: seq<nat>, haveMemory: bool, haveBitmap: bool)
    returns (ok: bool, res: seq<Pair>)
    requires forall v: nat :: v >= 2 ==> g.ln(v) > 0.0
    requires SieveTable(ps) && Rough(test) && base > SIEVE_LIMIT && TplSound(tpl, base)
    requires terminal ==> At(test, base, v0)
    requires forall o: nat :: o < v0 && At(test, base, o) ==> InHidden(quarter, base, o)
    ensures ok <==> haveMemory || v0 == 0
    ensures res == if ok then Picked(g, base, limit, PrefixPairs(test, base, v0, terminal)) else []
  {
    hide *;
    if v0 == 0 { EmptyPrefix(g, test, base, limit, terminal); return true, []; }
    if !haveMemory { return false, []; }
    LargeBase(base);
    var base60 := base % 60;
    var hid := CollectHidden(test, quarter, base, v0, base60, 0, tpl, ps, 1300, haveBitmap, base);
    PrefixList(test, quarter, base, v0, hid);
    var chain := new nat[|hid| + if terminal then 1 else 0];
    for i := 0 to |hid|
      invariant chain[..i] == hid[..i]
    {
      chain[i] := hid[i];
    }
    if terminal { chain[|hid|] := v0; }
    assert chain[..] == hid + if terminal then [v0] else [];
    PrefixChain(test, base, v0, terminal, hid, chain[..]);
    res := EmitChain(g, base, chain, limit);
    ok := true;
  }

  lemma EmptyPrefix(g: Gate, test: nat -> bool, base: nat, limit: nat, terminal: bool)
    ensures Picked(g, base, limit, PrefixPairs(test, base, 0, terminal)) == []
  {
  }

  lemma PrefixList(test: nat -> bool, quarter: bool, base: nat, v0: nat, hid: seq<nat>)
    requires forall o: nat :: o < v0 && At(test, base, o) ==> InHidden(quarter, base, o)
    requires forall o: nat :: o in hid <==> o < v0 && IsHidden(quarter, base % 60, o) && At(test, base, o)
    ensures forall o: nat :: o in hid <==> o < v0 && At(test, base, o)
  {
    hide At, Hidden;
    forall o: nat ensures IsHidden(quarter, base % 60, o) == InHidden(quarter, base, o) { ClassShift(base, 0, o); }
  }

  lemma PrefixChain(test: nat -> bool, base: nat, v0: nat, terminal: bool, hid: seq<nat>, chain: seq<nat>)
    requires Ascending(hid) && forall o: nat :: o in hid <==> o < v0 && At(test, base, o)
    requires terminal ==> At(test, base, v0)
    requires chain == hid + if terminal then [v0] else []
    ensures Links(chain) == PrefixPairs(test, base, v0, terminal)
  {
    hide *;
    if terminal {
      MembersBelow(hid, v0);
      AscendingAppend(hid, v0);
    }
    assert !terminal ==> chain == hid;
    if chain != [] {
      PrefixIsTrueChain(test, base, v0, terminal, hid, chain);
      LinksAreTruePairs(test, base, chain, |chain| - 1);
      assert chain[..|chain| - 1 + 1] == chain;
      FirstOfChain(test, base, v0, terminal, hid, chain);
      if !terminal { LastOfChain(test, base, v0, hid); }
      PrefixPairsAre(test, base, v0, terminal, chain[0], chain[|chain| - 1]);
    } else {
      SameNext(test, base, 0, v0, v0) by { NoneListed(test, base, v0, hid); }
      PrefixPairsAre(test, base, v0, terminal, v0, v0);
      NoLinks();
    }
  }

  lemma MembersBelow(s: seq<nat>, x: nat)
    requires forall o: nat :: o in s ==> o < x
    ensures forall o :: o in s ==> o < x
  {
  }

  lemma NoneListed(test: nat -> bool, base: nat, v0: nat, hid: seq<nat>)
    requires hid == [] && forall o: nat :: o in hid <==> o < v0 && At(test, base, o)
    ensures forall o :: 0 <= o < v0 ==> !At(test, base, o)
  {
  }

  lemma LastOfChain(test: nat -> bool, base: nat, v0: nat, hid: seq<nat>)
    requires Ascending(hid) && hid != [] && forall o: nat :: o in hid <==> o < v0 && At(test, base, o)
    ensures LastTrue(test, base, v0) == hid[|hid| - 1]
  {
    hide At;
    var n := |hid| - 1;
    assert hid[n] in hid;
    forall o: nat | hid[n] < o < v0 ensures !At(test, base, o) { Absent(hid, n + 1, o); }
    LastTrueIs(test, base, v0, hid[n]);
  }

  lemma PrefixPairsAre(test: nat -> bool, base: nat, v0: nat, terminal: bool, first: nat, last: nat)
    requires first <= v0 && NextTrue(test, base, 0, v0) == first
    requires if terminal || first == v0 then last == v0 else last == LastTrue(test, base, v0)
    ensures PrefixPairs(test, base, v0, terminal) == TrueBetween(test, base, first, last)
    ensures first == v0 ==> PrefixPairs(test, base, v0, terminal) == []
  {
  }

  lemma NoLinks()
    ensures Links([]) == []
  {
  }

  lemma PrefixIsTrueChain(test: nat -> bool, base: nat, v0: nat, terminal: bool, hid: seq<nat>, chain: seq<nat>)
    requires Ascending(chain) && forall o: nat :: o in hid <==> o < v0 && At(test, base, o)
    requires terminal ==> At(test, base, v0)
    requires chain == hid + if terminal then [v0] else []
    ensures TrueChain(test, base, chain)
  {
    hide At;
    forall k | 0 <= k < |chain| ensures At(test, base, chain[k]) {
      if k < |hid| { assert hid[k] in hid; }
    }
    if chain != [] {
      forall o: nat | o <= chain[|chain| - 1] && At(test, base, o) ensures o in chain {
        assert |hid| > 0 ==> hid[|hid| - 1] in hid;
        assert terminal ==> chain[|hid|] == v0;
      }
    }
    AscendingTrueChain(test, base, chain);
  }

  lemma FirstOfChain(test: nat -> bool, base: nat, v0: nat, terminal: bool, hid: seq<nat>, chain: seq<nat>)
    requires Ascending(chain) && forall o: nat :: o in hid <==> o < v0 && At(test, base, o)
    requires chain == hid + (if terminal then [v0] else []) && chain != []
    ensures NextTrue(test, base, 0, v0) == chain[0] <= v0
    ensures !terminal ==> chain[0] < v0
  {
    hide At;
    assert |hid| > 0 ==> hid[0] in hid;
    forall j: nat | j < chain[0] && j < v0 ensures !At(test, base, j) { Absent(chain, 0, j); }
    SameNext(test, base, 0, v0, chain[0]);
  }

  /** Everything accepted below the first found prime lies in a hidden class when the scan has
      no fully scanned first band, so the prefix check applies; and with it the report of the
      full scan lacks nothing at the front. */
  lemma PrefixCompletesTheFront(g: Gate, r: Range, test: nat -> bool, off: seq<nat>, all: seq<nat>, j: nat)
    requires Covers(r, off, test) && Covers(r.(full := true), all, test)
    requires Rough(test) && r.base > SIEVE_LIMIT && ValidGate(g)
    requires j < |off| && At(test, r.base, off[j])
    ensures var fo, fa := Flags(Window(r.base, off), test), Flags(Window(r.base, all), test);
            var f, l, t1 := FirstFound(off, fo), LastFound(off, fo), LastFound(all, fa);
            && (forall o: nat :: o < f && At(test, r.base, o) ==> InHidden(r.quarter, r.base, o))
            && FullReport(g, Window(r.base, all), test)
               == Report(g, r.base, PrefixPairs(test, r.base, f, true)) + TwoPass(g, r.base, test, off, fo)
                  + Between(g, test, r.base, l, t1)
  {
    var fo, fa := Flags(Window(r.base, off), test), Flags(Window(r.base, all), test);
    TwoPassEqualsFullScan(g, r, test, off, all, j);
    Ends(r.base, test, off, j);
    var f, t0 := FirstFound(off, fo), FirstFound(all, fa);
    FirstFoundIsFirst(r, test, off, all, j);
    FoundFirst(r, test, off, j);
    hide *;
    assert Between(g, test, r.base, t0, f) == Report(g, r.base, PrefixPairs(test, r.base, f, true)) by {
      FrontIs(g, test, r.base, t0, f);
    }
  }

  lemma FrontIs(g: Gate, test: nat -> bool, base: nat, t0: nat, f: nat)
    requires t0 <= f && NextTrue(test, base, 0, f) == t0
    ensures Between(g, test, base, t0, f) == Report(g, base, PrefixPairs(test, base, f, true))
  {
  }

  lemma FoundFirst(r: Range, test: nat -> bool, off: seq<nat>, j: nat)
    requires Covers(r, off, test) && Rough(test) && r.base > SIEVE_LIMIT
    requires j < |off| && At(test, r.base, off[j])
    ensures forall o: nat :: o < FirstFound(off, Flags(Window(r.base, off), test)) && At(test, r.base, o) ==>
              InHidden(r.quarter, r.base, o)
  {
    var fo := Flags(Window(r.base, off), test);
    Ends(r.base, test, off, j);
    hide Rough, Hidden, Visible;
    forall o: nat | o < FirstFound(off, fo) && At(test, r.base, o) ensures InHidden(r.quarter, r.base, o) {
      if o in off { BelowFirst(r.base, test, off, j, o); }
      SkippedIsHidden(r, o, test);
    }
  }

  lemma FirstFoundIsFirst(r: Range, test: nat -> bool, off: seq<nat>, all: seq<nat>, j: nat)
    requires Covers(r, off, test) && Covers(r.(full := true), all, test)
    requires j < |off| && At(test, r.base, off[j])
    ensures var f := FirstFound(off, Flags(Window(r.base, off), test));
            var t0 := FirstFound(all, Flags(Window(r.base, all), test));
            t0 <= f && NextTrue(test, r.base, 0, f) == t0
  {
    Ends(r.base, test, off, j);
    FoundIsFound(r, test, off, all, off[j]);
    var k :| 0 <= k < |all| && all[k] == off[j];
    var f := FirstFound(off, Flags(Window(r.base, off), test));
    EndsNest(r, test, off, all, f, k);
    Ends(r.base, test, all, k);
    NoneBeforeFirst(r, test, all, k);
    hide *;
    SameNext(test, r.base, 0, f, FirstFound(all, Flags(Window(r.base, all), test)));
  }

  lemma NoneBeforeFirst(r: Range, test: nat -> bool, all: seq<nat>, k: nat)
    requires Covers(r.(full := true), all, test) && k < |all| && At(test, r.base, all[k])
    ensures forall o: nat :: o < FirstFound(all, Flags(Window(r.base, all), test)) ==> !At(test, r.base, o)
  {
    Ends(r.base, test, all, k);
    forall o: nat | o < FirstFound(all, Flags(Window(r.base, all), test)) ensures !At(test, r.base, o) {
      if o in all {
        BelowFirst(r.base, test, all, k, o);
      } else {
        assert Scanned(r.(full := true), o);
      }
    }
  }

  /** A candidate below the first found one is not accepted. */
  lemma BelowFirst(base: nat, test: nat -> bool, off: seq<nat>, k: nat, o: nat)
    requires Ascending(off) && k < |off| && At(test, base, off[k]) && o in off
    requires o < FirstFound(off, Flags(Window(base, off), test))
    ensures !At(test, base, o)
  {
    var i :| 0 <= i < |off| && off[i] == o;
    Ends(base, test, off, k);
    FlagIs(base, off, test, i);
    assert i < NextFlag(Flags(Window(base, off), test), 0);
  }
}
