/** The chunk-parallel jump chain of new_src/gap_hunt.c: K per-window state machines that
    share one batched primality call per round, skip most candidates, and still find exactly
    the pairs a full scan would find. */
module JumpScan {
  import opened GapChain
  import opened Merit

  const MAX_BATCH: nat := 4096
  const PAIR_CAP: nat := 128
  const NONE: nat := 0xFFFF_FFFF
  const TWO32: nat := 0x1_0000_0000
  const TWO64: nat := 0x1_0000_0000_0000_0000

  datatype Phase = FindFirst | JumpBack | FindEnd | Done

  /** The state of one window: current prime p, jump target q, slice [lo, hi) under test,
      width of the next slice, and the pairs recorded so far. */
  datatype Cursor = Cursor(phase: Phase, p: nat, q: nat, lo: nat, hi: nat, width: nat, out: seq<Pair>)

  /** What a window scan is given: ascending offsets below 2^32 that leave room for uint32
      index arithmetic with slices of up to c candidates, and a threshold of at least 1 that
      leaves room for uint64 offset arithmetic. */
  predicate Scannable(off: seq<nat>, thr: nat, c: nat) {
    && Ascending(off)
    && |off| + c < TWO32
    && (forall x :: x in off ==> x < TWO32)
    && 1 <= thr < TWO64 - TWO32
  }

  /** q is the first index beyond p whose offset is at least thr away from p's. */
  ghost predicate FirstReach(off: seq<nat>, thr: nat, p: nat, q: nat) {
    && p < q < |off|
    && off[q] - off[p] >= thr
    && forall j :: p < j < q ==> off[j] - off[p] < thr
  }

  ghost predicate NoneFlagged(fl: seq<bool>, a: nat, b: nat)
    requires b <= |fl|
  {
    forall j :: a <= j < b ==> !fl[j]
  }

  /** What every round keeps for every window. */
  ghost predicate WalkInv(off: seq<nat>, fl: seq<bool>, thr: nat, c: nat, s: Cursor)
    requires |off| == |fl|
  {
    && 1 <= s.width <= c
    && |s.out| <= PAIR_CAP
    && match s.phase
       case FindFirst =>
         && s.lo <= s.hi <= |fl| && (s.lo < s.hi || |fl| == 0)
         && s.out == [] && NoneFlagged(fl, 0, s.lo)
       case JumpBack =>
         && s.p < |fl| && fl[s.p] && FirstReach(off, thr, s.p, s.q)
         && s.p < s.lo <= s.hi <= s.q && NoneFlagged(fl, s.hi, s.q)
         && s.out + ChainFrom(off, fl, thr, s.p) == Chain(off, fl, thr)
       case FindEnd =>
         && s.p < |fl| && fl[s.p] && FirstReach(off, thr, s.p, s.q)
         && s.q <= s.lo < s.hi <= |fl| && NoneFlagged(fl, s.p + 1, s.lo)
         && s.out + ChainFrom(off, fl, thr, s.p) == Chain(off, fl, thr)
       case Done => s.out == Chain(off, fl, thr)
  }

  /** Rank of a window's state in a well-founded order: it drops in every round. */
  ghost function Rank(n: nat, s: Cursor): nat {
    match s.phase
    case FindFirst => Times(n + 1, 2 * n + 4) + Left(n, s.lo)
    case JumpBack => Times(Left(n, s.p), 2 * n + 4) + n + 2 + s.lo
    case FindEnd => Times(Left(n, s.p), 2 * n + 4) + Left(n, s.lo) + 1
    case Done => 0
  }

  ghost function Left(n: nat, x: nat): nat { if x <= n then n - x else 0 }

  function Times(a: nat, m: nat): nat { if a == 0 then 0 else m + Times(a - 1, m) }

  lemma {:induction false} TimesGrows(a: nat, b: nat, m: nat)
    requires a < b
    ensures Times(a, m) + m <= Times(b, m)
  {
    if a + 1 < b { TimesGrows(a, b - 1, m); }
  }

  ghost function Sum(s: seq<nat>): nat {
    if s == [] then 0 else s[0] + Sum(s[1..])
  }

  lemma {:induction false} SumDrops(a: seq<nat>, b: seq<nat>)
    requires |a| == |b|
    requires forall i :: 0 <= i < |a| ==> a[i] <= b[i]
    ensures Sum(a) <= Sum(b)
    ensures (exists i :: 0 <= i < |a| && a[i] < b[i]) ==> Sum(a) < Sum(b)
  {
    if a != [] {
      SumDrops(a[1..], b[1..]);
      if i :| 0 <= i < |a| && a[i] < b[i] {
        if i > 0 { assert a[1..][i - 1] < b[1..][i - 1]; }
      }
    }
  }

  function Min(a: int, b: int): int { if a < b then a else b }
  function Max(a: int, b: int): int { if a < b then b else a }

  /** First flagged index of [lo, lo + n), reading flags[d..] as the verdicts of that slice. */
  method FirstHit(flags: array<bool>, d: nat, lo: nat, n: nat, ghost fl: seq<bool>) returns (found: nat)
    requires d + n <= flags.Length && lo + n <= |fl| < NONE
    requires flags[d..d + n] == fl[lo..lo + n]
    ensures found != NONE ==> lo <= found < lo + n && fl[found] && NoneFlagged(fl, lo, found)
    ensures found == NONE ==> NoneFlagged(fl, lo, lo + n)
  {
    found := NONE;
    for j := 0 to n
      invariant found == NONE && NoneFlagged(fl, lo, lo + j)
    {
      assert flags[d + j] == flags[d..d + n][j] == fl[lo..lo + n][j];
      if flags[d + j] {
        found := lo + j;
        return;
      }
    }
  }

  /** Last flagged index of [lo, lo + n), scanning downwards. */
  method LastHit(flags: array<bool>, d: nat, lo: nat, n: nat, ghost fl: seq<bool>) returns (found: nat)
    requires d + n <= flags.Length && lo + n <= |fl| < NONE
    requires flags[d..d + n] == fl[lo..lo + n]
    ensures found != NONE ==> lo <= found < lo + n && fl[found] && NoneFlagged(fl, found + 1, lo + n)
    ensures found == NONE ==> NoneFlagged(fl, lo, lo + n)
  {
    found := NONE;
    for j := n downto 0
      invariant found == NONE && NoneFlagged(fl, lo + j, lo + n)
    {
      assert flags[d + j] == flags[d..d + n][j] == fl[lo..lo + n][j];
      if flags[d + j] {
        found := lo + j;
        return;
      }
    }
  }

  /** Binary search for the first index beyond p at distance thr or more. */
  method FindQ(off: seq<nat>, p: nat, thr: nat) returns (q: nat)
    requires Scannable(off, thr, 0) && p < |off|
    ensures q != NONE ==> FirstReach(off, thr, p, q)
    ensures q == NONE ==> forall j :: p < j < |off| ==> off[j] - off[p] < thr
  {
    assert off[p] in off;
    var lo, hi := p + 1, |off|;
    var target := (off[p] + thr) % TWO64;
    while lo < hi
      invariant p < lo <= hi <= |off|
      invariant forall j :: p < j < lo ==> off[j] < target
      invariant hi < |off| ==> off[hi] >= target
    {
      var mid := lo + (hi - lo) / 2;
      if off[mid] >= target {
        hi := mid;
      } else {
        lo := mid + 1;
      }
    }
    q := if lo < |off| then lo else NONE;
  }

  /** Window state once index f is known to be flagged: aim the next backward slice below the
      jump target q, or stop when no offset is far enough away. */
  function Aim(s: Cursor, f: nat, q: nat, c: nat, wave: nat): Cursor {
    if q == NONE then s.(phase := Done, p := f, q := q)
    else
      var cl := if q > wave then q - wave else 0;
      s.(phase := JumpBack, p := f, q := q, lo := Max(cl, f + 1), hi := q, width := Min(wave * 2, c))
  }

  lemma AimKeeps(off: seq<nat>, fl: seq<bool>, thr: nat, c: nat, wave: nat, s: Cursor, f: nat, q: nat)
    requires Scannable(off, thr, c) && |off| == |fl| && 1 <= wave <= c
    requires f < |fl| && fl[f] && 1 <= s.width <= c && |s.out| <= PAIR_CAP
    requires s.out + ChainFrom(off, fl, thr, f) == Chain(off, fl, thr)
    requires q != NONE ==> FirstReach(off, thr, f, q)
    requires q == NONE ==> forall j :: f < j < |off| ==> off[j] - off[f] < thr
    ensures WalkInv(off, fl, thr, c, Aim(s, f, q, c, wave))
    ensures Rank(|off|, Aim(s, f, q, c, wave)) < Times(Left(|off|, f), 2 * |off| + 4) + 2 * |off| + 4
  {
    if q == NONE {
      TailTooShort(off, fl, thr, f);
    }
  }

  /** Window state after a slice without a flagged candidate. */
  function Miss(s: Cursor, n: nat, c: nat, wave: nat): Cursor {
    match s.phase
    case Done => s
    case JumpBack =>
      if s.lo == s.p + 1 then
        // everything strictly between p and q is composite: look for the true endpoint
        s.(phase := if Min(s.q + wave, n) <= s.q then Done else FindEnd,
           lo := s.q, hi := Min(s.q + wave, n), width := Min(wave * 2, c))
      else
        s.(hi := s.lo, lo := if s.lo > s.p + 1 + s.width then s.lo - s.width else s.p + 1,
           width := Min(s.width * 2, c))
    case _ =>
      s.(phase := if s.hi >= n then Done else s.phase,
         lo := s.hi, hi := Min(s.hi + s.width, n), width := Min(s.width * 2, c))
  }

  lemma MissKeeps(off: seq<nat>, fl: seq<bool>, thr: nat, c: nat, wave: nat, s: Cursor)
    requires Scannable(off, thr, c) && |off| == |fl| && 1 <= wave <= c
    requires WalkInv(off, fl, thr, c, s) && s.phase != Done && NoneFlagged(fl, s.lo, s.hi)
    ensures WalkInv(off, fl, thr, c, Miss(s, |off|, c, wave))
    ensures Rank(|off|, Miss(s, |off|, c, wave)) < Rank(|off|, s)
  {
    var n := |off|;
    match s.phase {
      case FindFirst =>
        if s.hi >= n { assert NextFlag(fl, 0) == n; }
      case JumpBack =>
      case FindEnd =>
        if s.hi >= n { assert NextFlag(fl, s.p + 1) == n; }
    }
  }

  /** Index f of the tested slice is the flagged candidate the phase was looking for. */
  ghost predicate Hit(fl: seq<bool>, s: Cursor, f: nat)
    requires s.hi <= |fl|
  {
    && s.lo <= f < s.hi && fl[f]
    && match s.phase
       case JumpBack => NoneFlagged(fl, f + 1, s.hi)
       case _ => NoneFlagged(fl, s.lo, f)
  }

  /** The chain to the right of the hit, together with what is recorded (and, in FindEnd, the
      pair about to be recorded), is still the whole answer. */
  lemma HitKeeps(off: seq<nat>, fl: seq<bool>, thr: nat, c: nat, s: Cursor, f: nat)
    requires Scannable(off, thr, c) && |off| == |fl|
    requires WalkInv(off, fl, thr, c, s) && s.phase != Done && Hit(fl, s, f)
    ensures s.phase == FindEnd ==>
              s.out + [(off[s.p], off[f])] + ChainFrom(off, fl, thr, f) == Chain(off, fl, thr)
    ensures s.phase != FindEnd ==> s.out + ChainFrom(off, fl, thr, f) == Chain(off, fl, thr)
  {
    match s.phase {
      case FindFirst =>
        assert NextFlag(fl, 0) == f;
      case JumpBack =>
        JumpLosesNothing(off, fl, thr, s.p, f);
      case FindEnd =>
        assert NextFlag(fl, s.p + 1) == f;
        assert off[f] >= off[s.q];
        assert ChainFrom(off, fl, thr, s.p) == [(off[s.p], off[f])] + ChainFrom(off, fl, thr, f);
        Associate(s.out, [(off[s.p], off[f])], ChainFrom(off, fl, thr, f));
    }
  }

  lemma Associate(a: seq<Pair>, b: seq<Pair>, c: seq<Pair>)
    ensures a + b + c == a + (b + c)
  {
  }

  lemma HitRank(off: seq<nat>, fl: seq<bool>, thr: nat, c: nat, s: Cursor, f: nat)
    requires |off| == |fl| && WalkInv(off, fl, thr, c, s) && s.phase != Done && Hit(fl, s, f)
    ensures Times(Left(|off|, f), 2 * |off| + 4) + 2 * |off| + 4 <= Rank(|off|, s)
  {
    var n := |off|;
    TimesGrows(Left(n, f), if s.phase == FindFirst then n + 1 else Left(n, s.p), 2 * n + 4);
  }

  /** A window's share of one round: its slice and the place of the slice's verdicts. */
  datatype Slot = Slot(lo: nat, hi: nat, at: nat)

  /** The slice of a live window that a round tests; an empty one otherwise. */
  function Slice(s: Cursor): (nat, nat) {
    if s.phase != Done && s.lo < s.hi then (s.lo, s.hi) else (0, 0)
  }

  /** The slices lie one after the other in the first `total` verdict places. */
  ghost predicate Packed(s: seq<Slot>, total: nat) {
    && (forall i :: 0 <= i < |s| ==> s[i].lo <= s[i].hi && s[i].at + (s[i].hi - s[i].lo) <= total)
    && forall i, j :: 0 <= i < j < |s| ==> s[i].at + (s[i].hi - s[i].lo) <= s[j].at
  }

  lemma PackedGrows(s: seq<Slot>, t: Slot, total: nat)
    requires Packed(s, total) && t.lo <= t.hi && t.at == total
    ensures Packed(s + [t], total + (t.hi - t.lo))
  {
  }

  lemma SamePrefix(x: seq<bool>, y: seq<bool>, k: nat, a: nat, b: nat)
    requires a <= b <= k <= |x| && k <= |y| && x[..k] == y[..k]
    ensures x[a..b] == y[a..b]
  {
    assert x[a..b] == x[..k][a..b] && y[a..b] == y[..k][a..b];
  }

  /** The new state after hit f: the pair ending at f is recorded (in FindEnd) and the next
      backward slice is aimed from f. */
  function AfterHit(s: Cursor, off: seq<nat>, f: nat, q: nat, c: nat, wave: nat): Cursor
    requires s.phase == FindEnd ==> s.p < |off|
    requires f < |off|
  {
    var r := if s.phase == FindEnd then s.(out := s.out + [(off[s.p] % TWO32, off[f] % TWO32)]) else s;
    Aim(r, f, q, c, wave)
  }

  lemma AfterHitKeeps(off: seq<nat>, fl: seq<bool>, thr: nat, c: nat, wave: nat, s: Cursor, f: nat, q: nat)
    requires Scannable(off, thr, c) && |off| == |fl| && 1 <= wave <= c
    requires WalkInv(off, fl, thr, c, s) && s.phase != Done && Hit(fl, s, f)
    requires q != NONE ==> FirstReach(off, thr, f, q)
    requires q == NONE ==> forall j :: f < j < |off| ==> off[j] - off[f] < thr
    requires s.phase == FindEnd ==> |s.out| < PAIR_CAP
    ensures WalkInv(off, fl, thr, c, AfterHit(s, off, f, q, c, wave))
    ensures Rank(|off|, AfterHit(s, off, f, q, c, wave)) < Rank(|off|, s)
  {
    hide Chain, ChainFrom, Rank, Times, NoneFlagged;
    HitKeeps(off, fl, thr, c, s, f);
    HitRank(off, fl, thr, c, s, f);
    if s.phase == FindEnd {
      assert off[s.p] in off && off[f] in off;
      AimKeeps(off, fl, thr, c, wave, s.(out := s.out + [(off[s.p], off[f])]), f, q);
    } else {
      AimKeeps(off, fl, thr, c, wave, s, f, q);
    }
  }

  /** A hit with a full record means the window has more pairs than the cap. */
  lemma FullMeansTooMany(off: seq<nat>, fl: seq<bool>, thr: nat, c: nat, s: Cursor, f: nat)
    requires Scannable(off, thr, c) && |off| == |fl|
    requires WalkInv(off, fl, thr, c, s) && s.phase == FindEnd && Hit(fl, s, f) && |s.out| >= PAIR_CAP
    ensures |Chain(off, fl, thr)| > PAIR_CAP
  {
    HitKeeps(off, fl, thr, c, s, f);
  }

  /** One flight under scan.  `windows`, `cum` and `buffer` are the filled flight: window i's
      candidates sit at buffer[cum[i]..].  `prp` is the device's verdict on a candidate and
      `gpuOk(r)` says whether the device calls of round r succeed.  The per-window state
      (phase, pidx, qidx, clo, chi, wcur and the recorded pairs) lives in walk[i]. */
  class Scan {
    const windows: seq<Window>
    const cum: seq<nat>
    const buffer: seq<nat>
    const winCap: nat
    const prp: nat -> bool
    const gpuOk: nat -> bool
    const ln: nat -> real
    const minMerit: real
    const chunk: nat
    const wave: nat

    const walk: array<Cursor>
    const slots: array<Slot>
    const flags: array<bool>

    ghost predicate Shape() {
      && walk.Length == slots.Length == |windows| == |cum|
      && flags.Length == Times(|windows|, winCap)
      && 1 <= wave <= chunk
    }

    /** Window i's candidates: base plus each survivor offset. */
    ghost function Candidates(i: nat): (c: seq<nat>)
      requires i < |windows|
      ensures |c| == |windows[i].off|
      ensures forall j :: 0 <= j < |c| ==> c[j] == windows[i].base + windows[i].off[j]
    {
      seq(|windows[i].off|, j requires 0 <= j < |windows[i].off| => windows[i].base + windows[i].off[j])
    }

    /** The filled flight: every window's candidates sit in the buffer where cum says. */
    ghost predicate Filled()
      requires Shape()
    {
      forall i :: 0 <= i < |windows| ==>
        && |windows[i].off| <= winCap && cum[i] + |windows[i].off| <= |buffer|
        && buffer[cum[i]..cum[i] + |windows[i].off|] == Candidates(i)
    }

    ghost predicate Ready() {
      forall i :: 0 <= i < |windows| ==> Scannable(windows[i].off, Thr(i), chunk)
    }

    function Thr(i: nat): nat
      requires i < |windows|
    {
      StepThreshold(minMerit, ln(windows[i].base))
    }

    ghost function Fl(i: nat): (fl: seq<bool>)
      requires i < |windows|
      ensures |fl| == |windows[i].off|
    {
      Flags(windows[i], prp)
    }

    /** The answer for window i: what the full scan of that window would record. */
    ghost function Answer(i: nat): seq<Pair>
      requires i < |windows|
    {
      Chain(windows[i].off, Fl(i), Thr(i))
    }

    ghost predicate Good(i: nat, s: Cursor)
      requires i < |windows|
    {
      WalkInv(windows[i].off, Fl(i), Thr(i), chunk, s)
    }

    ghost function RankOf(i: nat, s: Cursor): nat
      requires i < |windows|
    {
      Rank(|windows[i].off|, s)
    }

    ghost function Ranks(ws: seq<Cursor>): (r: seq<nat>)
      requires |ws| == |windows|
      ensures |r| == |ws|
    {
      seq(|ws|, i requires 0 <= i < |ws| => RankOf(i, ws[i]))
    }

    /** Slot t holds the slice of window i in state s. */
    ghost predicate Slices(i: nat, s: Cursor, t: Slot)
      requires i < |windows|
    {
      t.lo == Slice(s).0 && t.hi == Slice(s).1 && t.lo <= t.hi <= |windows[i].off|
    }

    /** The verdicts of window i's slice are at its place in the flags buffer. */
    ghost predicate Tested(i: nat)
      requires Shape() && i < |windows|
      reads slots, flags
    {
      var t := slots[i];
      && t.lo <= t.hi <= |windows[i].off| && t.at + (t.hi - t.lo) <= flags.Length
      && flags[t.at..t.at + (t.hi - t.lo)] == Fl(i)[t.lo..t.hi]
    }

    constructor (windows: seq<Window>, cum: seq<nat>, buffer: seq<nat>, winCap: nat,
                 prp: nat -> bool, gpuOk: nat -> bool, ln: nat -> real, minMerit: real,
                 chunk: nat, jump2Wave: int)
      requires 1 <= chunk && |cum| == |windows|
      ensures Shape()
      ensures this.windows == windows && this.cum == cum && this.buffer == buffer
      ensures this.winCap == winCap && this.prp == prp && this.gpuOk == gpuOk
      ensures this.ln == ln && this.minMerit == minMerit && this.chunk == chunk
      ensures fresh({walk as object, slots, flags})
    {
      this.windows, this.cum, this.buffer, this.winCap := windows, cum, buffer, winCap;
      this.prp, this.gpuOk, this.ln, this.minMerit := prp, gpuOk, ln, minMerit;
      this.chunk := chunk;
      this.wave := if jump2Wave >= 2 && jump2Wave < chunk then jump2Wave else chunk;
      walk := new Cursor[|windows|](_ => Cursor(Done, NONE, NONE, 0, 0, 1, []));
      slots := new Slot[|windows|](_ => Slot(0, 0, 0));
      flags := new bool[Times(|windows|, winCap)](_ => false);
    }

    /** Restart every window, dropping whatever an earlier use of the flight recorded. */
    method Reset()
      requires Shape()
      modifies walk
      ensures forall i :: 0 <= i < |windows| ==> Good(i, walk[i]) && walk[i].phase == FindFirst
    {
      for i := 0 to |windows|
        invariant forall j :: 0 <= j < i ==> Good(j, walk[j]) && walk[j].phase == FindFirst
      {
        var n := |windows[i].off|;
        walk[i] := Cursor(FindFirst, NONE, NONE, 0, Min(n, wave), Min(wave * 2, chunk), []);
      }
    }

    lemma GoodSlice(i: nat, s: Cursor)
      requires i < |windows| && Good(i, s)
      ensures Slice(s).0 <= Slice(s).1 <= |windows[i].off|
    {
    }

    /** Lay out this round's slices one after the other in the verdict buffer. */
    method Layout() returns (total: nat)
      requires Shape() && Filled()
      requires forall i :: 0 <= i < |windows| ==> Good(i, walk[i])
      modifies slots
      ensures total <= flags.Length && Packed(slots[..], total)
      ensures forall i :: 0 <= i < |windows| ==> Slices(i, walk[i], slots[i])
    {
      hide Good, Filled, Packed;
      total := 0;
      PackedEmpty(slots[..0]);
      for i := 0 to |windows|
        invariant total <= Times(i, winCap)
        invariant Packed(slots[..i], total)
        invariant forall j :: 0 <= j < i ==> Slices(j, walk[j], slots[j])
      {
        GoodSlice(i, walk[i]);
        RoomFor(i);
        var t := Slot(Slice(walk[i]).0, Slice(walk[i]).1, total);
        PackedGrows(slots[..i], t, total);
        slots[i] := t;
        assert slots[..i + 1] == slots[..i] + [t];
        total := total + (t.hi - t.lo);
      }
      assert slots[..|windows|] == slots[..];
    }

    lemma GoodDone(i: nat, s: Cursor)
      requires i < |windows| && Good(i, s)
      ensures s.phase == Done ==> s.out == Answer(i) && |Answer(i)| <= PAIR_CAP
    {
    }

    lemma RoomFor(i: nat)
      requires Shape() && Filled() && i < |windows|
      ensures Times(i, winCap) + |windows[i].off| <= Times(i + 1, winCap) <= flags.Length
    {
      if i + 1 < |windows| { TimesGrows(i + 1, |windows|, winCap); }
    }

    lemma PackedEmpty(s: seq<Slot>)
      requires s == []
      ensures Packed(s, 0)
    {
    }

    /** gather + submit + collect for one window: its verdicts, leaving earlier places alone. */
    method TestSlice(i: nat)
      requires Shape() && Filled() && i < |windows|
      requires slots[i].lo <= slots[i].hi <= |windows[i].off|
      requires slots[i].at + (slots[i].hi - slots[i].lo) <= flags.Length
      modifies flags
      ensures Tested(i)
      ensures flags[..slots[i].at] == old(flags[..slots[i].at])
    {
      hide Fl, Filled, Candidates;
      var d, from, n := slots[i].at, slots[i].lo, slots[i].hi - slots[i].lo;
      for j := 0 to n
        invariant flags[..d] == old(flags[..d])
        invariant flags[d..d + j] == Fl(i)[from..from + j]
      {
        var c := from + j;
        BufferHolds(i, c);
        ghost var before := flags[d..d + j];
        flags[d + j] := prp(buffer[cum[i] + c]);
        assert flags[d..d + j + 1] == before + [Fl(i)[c]];
        assert Fl(i)[from..from + j + 1] == Fl(i)[from..from + j] + [Fl(i)[c]];
      }
    }

    /** The buffer holds the window's candidates. */
    lemma BufferHolds(i: nat, c: nat)
      requires Shape() && Filled() && i < |windows| && c < |windows[i].off|
      ensures cum[i] + c < |buffer| && prp(buffer[cum[i] + c]) == Fl(i)[c]
    {
      assert buffer[cum[i] + c] == buffer[cum[i]..cum[i] + |windows[i].off|][c] == Candidates(i)[c];
    }

    /** The device round: the verdict of every laid-out candidate. */
    method TestSlices(ghost total: nat)
      requires Shape() && Filled() && total <= flags.Length && Packed(slots[..], total)
      requires forall i :: 0 <= i < |windows| ==> Slices(i, walk[i], slots[i])
      modifies flags
      ensures forall i :: 0 <= i < |windows| ==> Tested(i)
    {
      hide Fl, Filled, Candidates;
      for i := 0 to |windows|
        invariant forall a :: 0 <= a < i ==> Tested(a)
      {
        ghost var before := flags[..];
        assert Slices(i, walk[i], slots[i]);
        label L:
        TestSlice(i);
        forall a | 0 <= a < i ensures Tested(a) {
          assert old@L(Tested(a));
          assert flags[..][..slots[i].at] == before[..slots[i].at] by {
            assert flags[..slots[i].at] == old@L(flags[..slots[i].at]);
          }
          var t := slots[a];
          assert t == slots[..][a] && slots[i] == slots[..][i];
          assert t.at + (t.hi - t.lo) <= slots[i].at;
          SamePrefix(flags[..], before, slots[i].at, t.at, t.at + (t.hi - t.lo));
        }
      }
    }

    /** The flagged candidate window i's phase is looking for in its tested slice, if any. */
    method Search(i: nat) returns (f: nat)
      requires Shape() && Ready() && i < |windows|
      requires walk[i].phase != Done && Good(i, walk[i]) && Slices(i, walk[i], slots[i]) && Tested(i)
      ensures walk[i].hi <= |Fl(i)|
      ensures f != NONE ==> Hit(Fl(i), walk[i], f)
      ensures f == NONE ==> NoneFlagged(Fl(i), walk[i].lo, walk[i].hi)
    {
      hide Chain, ChainFrom, Flags;
      var s := walk[i];
      assert Scannable(windows[i].off, Thr(i), chunk);
      if s.lo >= s.hi {
        f := NONE;
      } else if s.phase == JumpBack {
        f := LastHit(flags, slots[i].at, s.lo, s.hi - s.lo, Fl(i));
      } else {
        f := FirstHit(flags, slots[i].at, s.lo, s.hi - s.lo, Fl(i));
      }
    }

    /** One round for window i.  Fails only when a further pair would not fit. */
    method Advance(i: nat) returns (ok: bool)
      requires Shape() && Ready() && i < |windows|
      requires walk[i].phase != Done && Good(i, walk[i]) && Slices(i, walk[i], slots[i]) && Tested(i)
      modifies walk
      ensures forall j :: 0 <= j < |windows| && j != i ==> walk[j] == old(walk[j])
      ensures ok ==> Good(i, walk[i])
      ensures ok ==> RankOf(i, walk[i]) < RankOf(i, old(walk[i]))
      ensures !ok ==> |Answer(i)| > PAIR_CAP
    {
      hide Rank, Miss, Aim, ChainFrom, Flags, Chain;
      var s, off := walk[i], windows[i].off;
      assert Scannable(off, Thr(i), chunk);
      var f := Search(i);
      if f == NONE {
        MissKeeps(off, Fl(i), Thr(i), chunk, wave, s);
        walk[i] := Miss(s, |off|, chunk, wave);
        return true;
      }
      if s.phase == FindEnd && |s.out| >= PAIR_CAP {
        FullMeansTooMany(off, Fl(i), Thr(i), chunk, s, f);
        return false;
      }
      var q := FindQ(off, f, Thr(i));
      AfterHitKeeps(off, Fl(i), Thr(i), chunk, wave, s, f, q);
      hide WalkInv, Hit, AfterHit;
      walk[i] := AfterHit(s, off, f, q, chunk, wave);
      return true;
    }

    /** The state-machine half of a round: every live window moves on, the others rest. */
    method AdvanceAll() returns (ok: bool, anyActive: bool)
      requires Shape() && Ready()
      requires forall i :: 0 <= i < |windows| ==>
                 Good(i, walk[i]) && Slices(i, walk[i], slots[i]) && Tested(i)
      requires exists i :: 0 <= i < |windows| && walk[i].phase != Done
      modifies walk
      ensures ok ==> forall i :: 0 <= i < |windows| ==> Good(i, walk[i])
      ensures ok ==> (anyActive <==> exists i :: 0 <= i < |windows| && walk[i].phase != Done)
      ensures ok ==> Sum(Ranks(walk[..])) < Sum(Ranks(old(walk[..])))
      ensures !ok ==> exists i :: 0 <= i < |windows| && |Answer(i)| > PAIR_CAP
    {
      hide Fl, Ready, Slices, Tested, Rank, Good, Thr, Answer, Sum;
      ghost var before := walk[..];
      ghost var live :| 0 <= live < |windows| && before[live].phase != Done;
      anyActive := false;
      for i := 0 to |windows|
        invariant forall j :: i <= j < |windows| ==> walk[j] == before[j]
        invariant forall j :: i <= j < |windows| ==> Good(j, before[j]) && Slices(j, before[j], slots[j]) && Tested(j)
        invariant forall j :: 0 <= j < i ==> Good(j, walk[j])
        invariant forall j :: 0 <= j < i ==> RankOf(j, walk[j]) <= RankOf(j, before[j])
        invariant live < i ==> RankOf(live, walk[live]) < RankOf(live, before[live])
        invariant anyActive <==> exists j :: 0 <= j < i && walk[j].phase != Done
      {
        ok := true;
        if walk[i].phase != Done {
          ok := Advance(i);
          if !ok { return; }
          if walk[i].phase != Done { anyActive := true; }
        }
      }
      ok := true;
      assert Ranks(walk[..])[live] < Ranks(before)[live];
      SumDrops(Ranks(walk[..]), Ranks(before));
    }

    /** The whole scan.  It terminates for every oracle; when it succeeds every window holds
        exactly its own chain, whatever the slice widths and the other windows; and it fails
        only because a device round failed, the batch has more than 4096 windows or one of them has
        more than 128 pairs. */
    method Run() returns (ok: bool)
      requires Shape() && Filled() && Ready()
      modifies walk, slots, flags
      ensures ok ==> forall i :: 0 <= i < |windows| ==> walk[i].out == Answer(i)
      ensures ok ==> |windows| <= 4096 && forall i :: 0 <= i < |windows| ==> |Answer(i)| <= 128
      ensures |windows| <= 4096 && (forall i :: 0 <= i < |windows| ==> |Answer(i)| <= 128) ==>
                ok || exists r: nat :: !gpuOk(r)
    {
      hide Fl, Candidates, Filled, Ready, Slices, Tested, Packed, Rank, Good, Thr, Slice, Times, Ranks, Answer;
      if |windows| == 0 { return true; }
      if |windows| > MAX_BATCH { return false; }
      Reset();
      var anyActive, rounds := true, 0;
      assert walk[0].phase != Done;
      while anyActive
        invariant forall i :: 0 <= i < |windows| ==> Good(i, walk[i])
        invariant anyActive <==> exists i :: 0 <= i < |windows| && walk[i].phase != Done
        decreases Sum(Ranks(walk[..]))
      {
        var total := Layout();
        if total > 0 && !gpuOk(rounds) { return false; }
        TestSlices(total);   // nothing to test, and no device call, when total is 0
        rounds := rounds + 1;
        ok, anyActive := AdvanceAll();
        if !ok { return; }
      }
      forall i | 0 <= i < |windows| ensures walk[i].out == Answer(i) && |Answer(i)| <= PAIR_CAP {
        GoodDone(i, walk[i]);
      }
      return true;
    }
  }
}
