/** Filling a flight (gh_fill_* and gh_prefetch_step of new_src/gap_hunt.c): which residues every
    window is sieved with under the cached-anchor modes, pair folding and fallbacks, and where
    its survivors are placed. */
module FlightFill {
  import opened NumberTheory

  /** One window between its mark and its extraction. */
  datatype Win = Win(i: nat, k: nat, mode: nat, m: nat, buf: nat, twoBands: bool)

  /** Reserved flight of the prefetch. */
  datatype Filling = Filling(k0: nat, nextI: nat, cum: nat, done: bool, failed: bool)

  /** Value of window k: the aligned base minus the look-back. */
  function WindowBase(b0: nat, P: nat, back: nat, k: nat): int { b0 + k * P - back }

  /** Residues of a value modulo the sieving primes. */
  function Residues(primes: seq<nat>, v: int): (r: seq<nat>)
    requires Positive(primes)
    ensures |r| == |primes| && forall i :: 0 <= i < |r| ==> r[i] == v % primes[i]
  {
    seq(|primes|, i requires 0 <= i < |primes| => v % primes[i])
  }

  predicate Positive(primes: seq<nat>) { forall i :: 0 <= i < |primes| ==> primes[i] > 0 }

  /** Cached residues advanced by m windows without touching the cache. */
  function Folded(primes: seq<nat>, cache: seq<nat>, P: nat, m: nat): (r: seq<nat>)
    requires Positive(primes) && |cache| == |primes|
    ensures |r| == |primes| && forall i :: 0 <= i < |r| ==> r[i] == (cache[i] + m * (P % primes[i])) % primes[i]
  {
    seq(|primes|, i requires 0 <= i < |primes| => (cache[i] + m * (P % primes[i])) % primes[i])
  }

  /** Folding m steps onto the residues of window k gives the residues of window k + m. */
  lemma FoldedResidues(primes: seq<nat>, b0: nat, P: nat, back: nat, k: nat, m: nat)
    requires Positive(primes)
    ensures Folded(primes, Residues(primes, WindowBase(b0, P, back, k)), P, m)
            == Residues(primes, WindowBase(b0, P, back, k + m))
  {
    var c := Residues(primes, WindowBase(b0, P, back, k));
    forall i | 0 <= i < |primes|
      ensures Folded(primes, c, P, m)[i] == Residues(primes, WindowBase(b0, P, back, k + m))[i]
    {
      FoldedResidue(primes[i], b0, P, back, k, m);
    }
  }

  lemma FoldedResidue(p: nat, b0: nat, P: nat, back: nat, k: nat, m: nat)
    requires p > 0
    ensures (WindowBase(b0, P, back, k) % p + m * (P % p)) % p == WindowBase(b0, P, back, k + m) % p
  {
    var v := WindowBase(b0, P, back, k);
    CongMod(v, p);
    CongMod(P, p);
    CongMul(m, m, P % p, P, p);
    CongAdd(v % p, v, m * (P % p), m * P, p);
    assert (k + m) * P == k * P + m * P;
  }

  /** Fixed-stride placement of window i. */
  function Offset(i: nat, stride: nat): int { i * stride }

  lemma FixedPlace(i: nat, n: nat, stride: nat)
    requires i < n
    ensures 0 <= i * stride == Offset(i, stride) && i * stride + stride <= Offset(n, stride) == stride * n
  {
    MulLe(i + 1, n, stride);
    MulLe(0, i, stride);
    assert (i + 1) * stride == i * stride + stride;
  }

  /** Slices at fixed strides do not meet. */
  lemma StridesApart(cum: seq<nat>, count: seq<nat>, stride: nat, cap: nat)
    requires |cum| == |count| > 0 && Offset(|cum|, stride) <= cap
    requires forall i :: 0 <= i < |cum| ==> cum[i] == Offset(i, stride)
    requires forall i :: 0 <= i < |cum| ==> count[i] <= stride
    ensures forall i :: 0 <= i < |cum| ==> cum[i] + count[i] <= cap
    ensures forall i, j :: 0 <= i < j < |cum| ==> cum[i] + count[i] <= cum[j]
  {
    forall i | 0 <= i < |cum| ensures cum[i] + count[i] <= cap {
      MulLe(i + 1, |cum|, stride);
      assert (i + 1) * stride == i * stride + stride;
    }
    forall i, j | 0 <= i < j < |cum| ensures cum[i] + count[i] <= cum[j] {
      MulLe(i + 1, j, stride);
      assert (i + 1) * stride == i * stride + stride;
    }
  }

  /** Sum of the first n counts. */
  function SumTo(count: seq<nat>, n: nat): nat
    requires n <= |count|
  {
    if n == 0 then 0 else SumTo(count, n - 1) + count[n - 1]
  }

  lemma {:induction false} SumOfSame(s: seq<nat>, t: seq<nat>, n: nat)
    requires n <= |s| && n <= |t| && forall i :: 0 <= i < n ==> s[i] == t[i]
    ensures SumTo(s, n) == SumTo(t, n)
  {
    if n > 0 { SumOfSame(s, t, n - 1); }
  }

  /** The first n slices lie one after the other up to io. */
  ghost predicate Laid(cum: seq<nat>, count: seq<nat>, n: nat, io: nat, capacity: nat)
    requires n <= |cum| == |count|
  {
    && (forall i :: 0 <= i < n ==> cum[i] + count[i] <= io && count[i] <= capacity)
    && forall i, j :: 0 <= i < j < n ==> cum[i] + count[i] <= cum[j]
  }

  lemma LaidMore(cum: seq<nat>, count: seq<nat>, n: nat, io: nat, capacity: nat)
    requires n < |cum| == |count| && Laid(cum, count, n, io, capacity) && cum[n] == io && count[n] <= capacity
    ensures Laid(cum, count, n + 1, io + count[n], capacity)
  {
  }

  /** The first n slices follow each other without a hole. */
  ghost predicate Prefixes(cum: seq<nat>, count: seq<nat>, n: nat)
    requires n <= |cum| == |count|
  {
    forall i :: 0 <= i < n ==> cum[i] == SumTo(count, i)
  }

  lemma PrefixesMore(cum: seq<nat>, count: seq<nat>, n: nat)
    requires n < |cum| == |count| && Prefixes(cum, count, n) && cum[n] == SumTo(count, n)
    ensures Prefixes(cum, count, n + 1)
  {
    hide SumTo;
  }

  lemma SumNext(s: seq<nat>, n: nat)
    requires n < |s|
    ensures SumTo(s, n + 1) == SumTo(s, n) + s[n]
  {
  }

  /** What a fill asks the device: whether a call works, whether it takes the mark of a pair, whether
      a window has a second band, how many candidates the first and the second extraction placed,
      whether a deferred count is flagged, and what a failed mark leaves in the cache. */
  datatype Question = Works | TakesPair | HasTail | Count | TailCount | Flagged | Junk

  type Device = (Question, nat) -> nat

  predicate Yes(answer: nat) { answer % 2 == 1 }

  /** The answers of a device on which every call works, with counts that leave room for all windows;
      whether it takes pairs is left open. */
  ghost predicate Working(env: Device, quarter: bool, room: nat) {
    && (forall t: nat :: Yes(env(Works, t)))
    && (forall t: nat :: env(Count, t) <= room)
    && (quarter ==> forall t: nat, u: nat :: env(Count, t) + env(TailCount, u) <= room)
    && (forall t: nat :: !Yes(env(Flagged, t)))
  }

  /** How an extraction ends: with success or not, at which fill level and after which answers. */
  datatype Extraction = Extraction(ok: bool, io: nat, tick: nat)

  /** The extraction of one window from the device's answers at t, t + 1, ...: success, count,
      and for a second band count and success again. */
  function Extracting(env: Device, t: nat, io: nat, cap: nat, capacity: nat, twoBands: bool): Extraction {
    var nc := env(Count, t + 1);
    if !Yes(env(Works, t)) || nc > capacity || io + nc > cap then Extraction(false, io, t + 2)
    else if !twoBands then Extraction(true, io + nc, t + 2)
    else
      var nc2 := env(TailCount, t + 2);
      if !Yes(env(Works, t + 3)) || nc + nc2 > capacity || io + nc + nc2 > cap
      then Extraction(false, io + nc, t + 4)
      else Extraction(true, io + nc + nc2, t + 4)
  }

  /** On a working device an extraction succeeds and uses no more than the room of a window. */
  lemma ExtractionWorks(env: Device, t: nat, io: nat, cap: nat, capacity: nat, quarter: bool, twoBands: bool, room: nat)
    requires Working(env, quarter, room) && (twoBands ==> quarter) && room <= capacity && io + room <= cap
    ensures var x := Extracting(env, t, io, cap, capacity, twoBands);
            x.ok && io <= x.io <= io + room
  {
  }

  /** What decides how a fill goes on: whether it is still alive, its fill level, how many answers
      were asked for, and the anchor of the cached residues. */
  datatype Fill = Fill(ok: bool, io: nat, tick: nat, valid: bool, anchor: nat, since: nat)

  function Differing(a: seq<nat>, b: seq<nat>): nat
    requires |a| == |b|
  {
    if a == [] then 0
    else Differing(a[..|a| - 1], b[..|a| - 1]) + if a[|a| - 1] != b[|a| - 1] then 1 else 0
  }

  lemma {:induction false} NothingDiffers(a: seq<nat>)
    ensures Differing(a, a) == 0
  {
    if a != [] { NothingDiffers(a[..|a| - 1]); }
  }

  /** The fill state: the device's cached residues and its two bitmaps, each represented by
      the residues it was last marked with, and the flight under construction.  Every device
      call may fail. */
  class Filler {
    const b0: nat
    const P: nat
    const back: nat
    const interval: nat
    const width: nat
    const batch: nat
    const cap: nat
    const capacity: nat
    const incr: nat
    const mLimit: nat
    const check: nat
    const pairing: bool
    const quarter: bool
    const defer: bool
    const stride: nat
    const primes: seq<nat>
    const env: Device
    var tick: nat

    var resValid: bool
    var resK: nat
    var resWindows: nat
    var cache: seq<nat>
    var bitmap: seq<seq<nat>>

    var baseK: seq<nat>
    var winBase: seq<int>
    var count: seq<nat>
    var cum: seq<nat>
    var from: seq<seq<nat>>
    var total: nat
    /** Room that given-up steps of this flight used. */
    ghost var wasted: nat
    /** The room of each pair step of this flight that gave up, in order. */
    ghost var losses: seq<nat>

    /** A fresh device: nothing cached, nothing filled. */
    constructor (b0: nat, P: nat, back: nat, interval: nat, width: nat, batch: nat, cap: nat, capacity: nat, incr: nat,
                 mLimit: nat, check: nat, pairing: bool, quarter: bool, defer: bool, stride: nat, primes: seq<nat>,
                 env: Device)
      requires Positive(primes) && batch >= 1 && (quarter ==> !defer)
      ensures Valid() && !resValid && tick == 0 && wasted == 0 && losses == []
      ensures this.b0 == b0 && this.P == P && this.back == back && this.interval == interval && this.width == width
      ensures this.batch == batch && this.cap == cap && this.capacity == capacity && this.incr == incr
      ensures this.mLimit == mLimit && this.check == check && this.pairing == pairing && this.quarter == quarter
      ensures this.defer == defer && this.stride == stride && this.primes == primes && this.env == env
    {
      this.b0, this.P, this.back, this.interval, this.width := b0, P, back, interval, width;
      this.batch, this.cap, this.capacity, this.incr, this.mLimit := batch, cap, capacity, incr, mLimit;
      this.check, this.pairing, this.quarter, this.defer, this.stride := check, pairing, quarter, defer, stride;
      this.primes, this.env, tick := primes, env, 0;
      resValid, resK, resWindows := false, 0, 0;
      cache, bitmap := seq(|primes|, _ => 0), [[], []];
      baseK, winBase, count := seq(batch, _ => 0), seq(batch, _ => 0), seq(batch, _ => 0);
      cum, from, total, wasted, losses := seq(batch, _ => 0), seq(batch, _ => []), 0, 0, [];
    }

    /** The residues window k must be sieved with. */
    function Want(k: nat): seq<nat>
      requires Positive(primes)
    {
      Residues(primes, WindowBase(b0, P, back, k))
    }

    ghost predicate Valid()
      reads this
    {
      && Positive(primes) && batch >= 1 && (quarter ==> !defer)
      && |baseK| == |winBase| == |count| == |cum| == |from| == batch
      && |bitmap| == 2 && |cache| == |primes|
      && (resValid ==> cache == Want(resK))
    }

    /** The first n windows are in place: index, base and the residues behind the survivors. */
    ghost predicate Placed(k0: nat, n: nat)
      reads this`baseK, this`winBase, this`from
      requires Positive(primes) && |baseK| == |winBase| == |from| == batch && n <= batch
    {
      && (forall i :: 0 <= i < n ==> baseK[i] == k0 + i)
      && (forall i :: 0 <= i < n ==> winBase[i] == WindowBase(b0, P, back, k0 + i) && winBase[i] >= 0)
      && (forall i :: 0 <= i < n ==> from[i] == Want(k0 + i))
    }

    /** Where the slices of the first n windows lie: at fixed strides, or one after the other up
        to `io`, with unused room in between only where steps gave up after using some. */
    ghost predicate Sliced(n: nat, io: nat)
      reads this`cum, this`count, this`wasted
      requires |cum| == |count| == batch && n <= batch
    {
      if defer then
        (n > 0 ==> Offset(batch, stride) <= cap) && forall i :: 0 <= i < n ==> cum[i] == Offset(i, stride)
      else
        && io <= cap
        && Laid(cum, count, n, io, capacity)
        && io == SumTo(count, n) + wasted
        && (wasted == 0 ==> Prefixes(cum, count, n))
    }

    /** The whole flight is packed without a hole. */
    ghost predicate Tight()
      reads this`cum, this`count, this`total
      requires |cum| == |count| == batch
    {
      Prefixes(cum, count, batch) && total == SumTo(count, batch)
    }

    /** The lost room is the room of the pair steps that gave up. */
    ghost predicate Accounted()
      reads this`wasted, this`losses
    {
      wasted == SumTo(losses, |losses|)
    }

    ghost predicate Filled(k0: nat, n: nat, io: nat)
      reads this
      requires Valid() && n <= batch
    {
      Placed(k0, n) && Sliced(n, io)
    }

    /** A flight ready to be scanned. */
    ghost predicate Complete(k0: nat)
      reads this
      requires Valid()
    {
      && Placed(k0, batch)
      && (forall i :: 0 <= i < batch ==> cum[i] + count[i] <= cap)
      && (forall i, j :: 0 <= i < j < batch ==> cum[i] + count[i] <= cum[j])
      && (!defer ==> (Tight() <==> wasted == 0)) && Accounted()
    }

    /** The next answer of the device. */
    method Ask(q: Question) returns (answer: nat)
      modifies this`tick
      ensures answer == env(q, old(tick)) && tick == old(tick) + 1
    {
      answer := env(q, tick);
      tick := tick + 1;
    }

    method Coin(q: Question) returns (yes: bool)
      modifies this`tick
      ensures yes == Yes(env(q, old(tick))) && tick == old(tick) + 1
    {
      var a := Ask(q);
      yes := Yes(a);
    }

    /** The room every window may count on. */
    function Room(): (r: nat)
      requires batch >= 1
    {
      if defer then stride else if cap / batch < capacity then cap / batch else capacity
    }

    /** Every call works, and the counts fit. */
    ghost predicate Healthy() {
      batch >= 1 && Working(env, quarter, Room()) && (defer ==> stride * batch <= cap)
    }

    /** The first n windows of a flight fit the sieve. */
    ghost predicate AllFit(k0: nat, n: nat) {
      forall k: nat :: k0 <= k < k0 + n ==> FitsWidth(k)
    }

    /** The first i windows used no more than their room. */
    predicate Level(i: nat, io: nat)
      requires batch >= 1
    {
      defer || io <= i * Room()
    }

    lemma RoomAbove(i: nat, io: nat)
      requires batch >= 1 && i < batch && !defer && Level(i, io)
      ensures Room() <= capacity && io + Room() <= cap
      ensures forall n: nat, io': nat :: n == i + 1 && io' <= io + Room() ==> Level(n, io')
    {
      MulLe(i + 1, batch, Room());
      MulLe(Room(), cap / batch, batch);
      assert (i + 1) * Room() == i * Room() + Room();
    }

    /** gpu_adapter_window_fits. */
    predicate FitsWidth(k: nat) {
      var wb := WindowBase(b0, P, back, k);
      wb >= 0 && wb + interval < width
    }

    // -------------------------------------------------------------- how a fill goes, by the answers

    /** The state of a fill. */
    function Now(ok: bool, io: nat): Fill
      reads this`tick, this`resValid, this`resK, this`resWindows
    {
      Fill(ok, io, tick, resValid, resK, resWindows)
    }

    /** The residue mode of window k. */
    function ModeAt(valid: bool, anchor: nat, k: nat): nat {
      if incr >= 2 && valid && k >= anchor && k - anchor <= mLimit then 2
      else if incr == 1 && valid && k == anchor + 1 then 1
      else 0
    }

    /** Mark window k in a mode; every `check` windows the cached residues are checked. */
    function Marked(s: Fill, k: nat, mode: nat): Fill {
      if !Yes(env(Works, s.tick)) then s.(ok := false, tick := s.tick + 2, valid := false)
      else
        var t := if mode == 2 then s.(tick := s.tick + 1) else s.(tick := s.tick + 1, valid := true, anchor := k);
        if mode == 0 || check == 0 then t else Checked(t)
    }

    /** The periodic check of the cached residues. */
    function Checked(s: Fill): Fill {
      if s.since + 1 < check then s.(since := s.since + 1)
      else if Yes(env(Works, s.tick)) then s.(since := 0, tick := s.tick + 1)
      else s.(ok := false, since := 0, tick := s.tick + 1, valid := false)
    }

    /** Extract window i. */
    function Extracted(s: Fill, i: nat, twoBands: bool): Fill {
      if defer then
        if Yes(env(Works, s.tick)) && stride * batch <= cap
        then (MulLe(0, i, stride); s.(io := i * stride + stride, tick := s.tick + 1))
        else s.(ok := false, tick := s.tick + 1)
      else
        var x := Extracting(env, s.tick, s.io, cap, capacity, twoBands);
        s.(ok := x.ok, io := x.io, tick := x.tick)
    }

    function Tails(t: nat): bool { quarter && Yes(env(HasTail, t)) }

    /** One window: set up, mark, extract. */
    function WindowFill(s: Fill, i: nat, k: nat): Fill {
      if !FitsWidth(k) then s.(ok := false, tick := s.tick + 1)
      else
        var m := Marked(s.(tick := s.tick + 1), k, ModeAt(s.valid, s.anchor, k));
        if m.ok then Extracted(m, i, Tails(s.tick)) else m
    }

    /** Both windows fit and fold from the cache. */
    predicate PairFolds(s: Fill, k: nat) {
      FitsWidth(k) && FitsWidth(k + 1) && ModeAt(s.valid, s.anchor, k) == 2 && ModeAt(s.valid, s.anchor, k + 1) == 2
    }

    /** Two windows with one mark: not marked, given up in the first or in the second extraction,
        or done. */
    function PairFill(s: Fill, i: nat, k: nat): Fill {
      if !PairFolds(s, k) then s.(ok := false, tick := s.tick + if FitsWidth(k) then 2 else 1)
      else if !Yes(env(TakesPair, s.tick + 2)) then s.(ok := false, tick := s.tick + 3)
      else
        var a := Extracted(s.(tick := s.tick + 3), i, Tails(s.tick));
        if a.ok then Extracted(a, i + 1, Tails(s.tick + 1)) else a
    }

    /** A pair that fails is filled window by window. */
    function StepFill(s: Fill, i: nat, k: nat, q: nat): Fill {
      if q != 2 then WindowFill(s, i, k)
      else
        var p := PairFill(s, i, k);
        if p.ok then p
        else
          var a := WindowFill(p.(ok := true), i, k);
          if a.ok then WindowFill(a, i + 1, k + 1) else a
    }

    /** How many windows the next step fills. */
    function QuantumAt(s: Fill, i: nat, k: nat): (q: nat)
      ensures q == 1 || (q == 2 && i + 1 < batch)
    {
      var folds := pairing && check == 0 && k >= s.anchor && ModeAt(s.valid, s.anchor, k + 1) == 2;
      if i % 2 == 0 && i + 1 < batch && folds then 2 else 1
    }

    /** The windows from the i-th on, two at a time where they fold. */
    function FillFrom(s: Fill, i: nat, k0: nat): Fill
      decreases batch - i
    {
      if !s.ok || i >= batch then s
      else
        var k := k0 + i;
        var q := QuantumAt(s, i, k);
        FillFrom(StepFill(s, i, k, q), i + q, k0)
    }

    /** The deferred counts from the i-th on. */
    function CountsFrom(s: Fill, i: nat): Fill
      decreases batch - i
    {
      if i >= batch then s
      else if Yes(env(Flagged, s.tick + 1)) || env(Count, s.tick) > stride then s.(ok := false, tick := s.tick + 2)
      else CountsFrom(s.(tick := s.tick + 2), i + 1)
    }

    /** The end of a flight. */
    function Committed(s: Fill): Fill {
      if !s.ok then s
      else
        var t := s.(ok := Yes(env(Works, s.tick)), tick := s.tick + 1);
        if t.ok && defer then CountsFrom(t, 0) else t
    }

    /** A whole flight. */
    function Whole(s: Fill, k0: nat): Fill { Committed(FillFrom(s, 0, k0)) }

    /** gh_fill_mark_phase: set up the window and choose the residue mode. */
    method MarkPhase(i: nat, k: nat) returns (ok: bool, w: Win)
      requires Valid() && i < batch
      modifies this`tick, this`baseK, this`winBase
      ensures Valid() && baseK == old(baseK)[i := k]
      ensures winBase == old(winBase)[i := WindowBase(b0, P, back, k)]
      ensures (ok ==> winBase[i] >= 0) && w.i == i && w.k == k && w.buf == i % 2
      ensures ok <==> FitsWidth(k)
      ensures tick == old(tick) + 1 && w.twoBands == (quarter && Yes(env(HasTail, old(tick))))
      ensures w.mode == ModeAt(resValid, resK, k)
      ensures w.mode == 2 ==> incr >= 2 && resValid && k == resK + w.m && w.m <= mLimit
      ensures w.mode == 1 ==> resValid && k == resK + 1
      ensures w.mode <= 2 && (w.mode != 2 ==> w.m == 0)
    {
      baseK := baseK[i := k];
      var wb := WindowBase(b0, P, back, k);
      winBase := winBase[i := wb];
      var mode, m := 0, 0;
      if incr >= 2 && resValid && k >= resK && k - resK <= mLimit {
        mode, m := 2, k - resK;
      } else if incr == 1 && resValid && k == resK + 1 {
        mode := 1;
      }
      var twoBands := Coin(HasTail);
      w := Win(i, k, mode, m, i % 2, quarter && twoBands);
      ok := wb >= 0 && wb + interval < width;
    }

    /** gh_fill_mark_commit: mark the window's bitmap in the chosen mode. */
    method MarkCommit(w: Win, ghost io: nat) returns (ok: bool)
      requires Valid() && w.buf < 2
      requires w.mode == 2 ==> resValid && w.k == resK + w.m
      requires w.mode == 1 ==> resValid && w.k == resK + 1
      requires w.mode != 2 ==> w.m == 0
      modifies this`tick, this`resValid, this`resK, this`resWindows, this`cache, this`bitmap
      ensures Valid()
      ensures ok ==> bitmap[w.buf] == Want(w.k)
      ensures Now(ok, io) == Marked(old(Now(true, io)), w.k, w.mode)
    {
      hide Folded, Residues, WindowBase, Positive, Want, Checked;
      ok := MarkInMode(w);
      if !ok {
        resValid := false;
        var junk := Ask(Junk);
        cache := seq(|primes|, i => junk + i);
        return;
      }
      if w.mode != 2 { resK, resValid := w.k, true; }
      if w.mode != 0 && check > 0 { ok := CheckResidues(w, io); }
    }

    /** The cached residues never differ from the window's own, so only the call itself can fail. */
    method CheckResidues(w: Win, ghost io: nat) returns (ok: bool)
      requires Valid() && resValid && w.k == resK + w.m
      modifies this`tick, this`resValid, this`resWindows
      ensures Valid() && Now(ok, io) == Checked(old(Now(true, io)))
    {
      hide Residues, WindowBase, Positive, Want;
      ok := true;
      resWindows := resWindows + 1;
      if resWindows >= check {
        resWindows := 0;
        var answered := Coin(Works);
        var mismatches := Mismatches(w);
        if !answered || mismatches != 0 { resValid, ok := false, false; }
      }
    }

    /** The mark itself: from the folded, the advanced or the recomputed residues. */
    method MarkInMode(w: Win) returns (ok: bool)
      requires Valid() && w.buf < 2
      requires w.mode == 2 ==> resValid && w.k == resK + w.m
      requires w.mode == 1 ==> resValid && w.k == resK + 1
      modifies this`tick, this`cache, this`bitmap
      ensures |bitmap| == 2 && |cache| == |primes| && tick == old(tick) + 1
      ensures ok == Yes(env(Works, old(tick)))
      ensures ok ==> bitmap[w.buf] == Want(w.k)
      ensures w.mode == 2 || !ok ==> cache == old(cache)
      ensures ok && w.mode != 2 ==> cache == Want(w.k)
    {
      hide Folded, Residues, WindowBase, Positive;
      ok := Coin(Works);
      if !ok { return; }
      match w.mode {
        case 2 =>
          FoldedResidues(primes, b0, P, back, resK, w.m);
          bitmap := bitmap[w.buf := Folded(primes, cache, P, w.m)];
        case 1 =>
          FoldedResidues(primes, b0, P, back, resK, 1);
          cache := Folded(primes, cache, P, 1);
          bitmap := bitmap[w.buf := cache];
        case _ =>
          cache := Residues(primes, WindowBase(b0, P, back, w.k));
          bitmap := bitmap[w.buf := cache];
      }
    }

    /** gpu_sieve_residues_check: how many cached residues differ from the window's own. */
    method Mismatches(w: Win) returns (n: nat)
      requires Valid() && resValid && w.k == resK + w.m
      ensures n == 0
    {
      FoldedResidues(primes, b0, P, back, resK, w.m);
      var mine, own := Folded(primes, cache, P, w.m), Want(w.k);
      n := 0;
      for i := 0 to |primes|
        invariant n == Differing(mine[..i], own[..i])
      {
        assert mine[..i + 1][..i] == mine[..i] && own[..i + 1][..i] == own[..i];
        if mine[i] != own[i] { n := n + 1; }
      }
      NothingDiffers(mine[..|primes|]);
    }

    /** gh_fill_extract: place the window's survivors in the candidate buffer. */
    method Extract(w: Win, io: nat) returns (ok: bool, io': nat)
      requires Valid() && w.i < batch && w.buf < 2 && io <= cap
      modifies this`tick, this`count, this`cum, this`from
      ensures Valid() && io' <= cap
      ensures forall j :: 0 <= j < batch && j != w.i ==>
                cum[j] == old(cum[j]) && count[j] == old(count[j]) && from[j] == old(from[j])
      ensures !defer ==> io <= io'
      ensures ok ==> from[w.i] == bitmap[w.buf]
      ensures ok && defer ==> cum[w.i] == Offset(w.i, stride) && Offset(batch, stride) <= cap
      ensures ok && !defer ==> cum[w.i] == io && io' == io + count[w.i] && count[w.i] <= capacity
      ensures Now(ok, io') == Extracted(old(Now(true, io)), w.i, w.twoBands)
    {
      hide Want, Positive, Offset, Extracting;
      if defer {
        ok, io' := ExtractDeferred(w, io);
      } else {
        ok, io' := ExtractPacked(w, io);
      }
    }

    /** The packed case: the count decides where the next window starts. */
    method ExtractPacked(w: Win, io: nat) returns (ok: bool, io': nat)
      requires |count| == |cum| == |from| == batch && |bitmap| == 2 && w.i < batch && w.buf < 2 && io <= cap
      modifies this`tick, this`count, this`cum, this`from
      ensures |count| == |cum| == |from| == batch && io <= io' <= cap
      ensures forall j :: 0 <= j < batch && j != w.i ==>
                cum[j] == old(cum[j]) && count[j] == old(count[j]) && from[j] == old(from[j])
      ensures ok ==> from[w.i] == bitmap[w.buf] && cum[w.i] == io && io' == io + count[w.i] && count[w.i] <= capacity
      ensures Extraction(ok, io', tick) == Extracting(env, old(tick), io, cap, capacity, w.twoBands)
    {
      hide Extracting;
      var n;
      ok, n := ReadBands(io, w.twoBands);
      from, count, cum := from[w.i := bitmap[w.buf]], count[w.i := n], cum[w.i := io];
      io' := io + n;
    }

    /** The counts of one or two extraction passes: how many candidates were placed. */
    method ReadBands(io: nat, twoBands: bool) returns (ok: bool, n: nat)
      requires io <= cap
      modifies this`tick
      ensures io + n <= cap && (ok ==> n <= capacity)
      ensures Extraction(ok, io + n, tick) == Extracting(env, old(tick), io, cap, capacity, twoBands)
    {
      ok := Coin(Works);
      var nc := Ask(Count);
      if !ok || nc > capacity || io + nc > cap { return false, 0; }
      n := nc;
      if twoBands {
        var nc2 := Ask(TailCount);
        ok := Coin(Works);
        if !ok || nc + nc2 > capacity || io + nc + nc2 > cap { return false, nc; }
        n := nc + nc2;
      }
    }

    /** The fixed-stride case: no count is known yet. */
    method ExtractDeferred(w: Win, io: nat) returns (ok: bool, io': nat)
      requires Valid() && w.i < batch && w.buf < 2 && io <= cap
      modifies this`tick, this`count, this`cum, this`from
      ensures Valid() && io' <= cap
      ensures forall j :: 0 <= j < batch && j != w.i ==>
                cum[j] == old(cum[j]) && count[j] == old(count[j]) && from[j] == old(from[j])
      ensures ok ==> from[w.i] == bitmap[w.buf]
      ensures ok ==> cum[w.i] == Offset(w.i, stride) && Offset(batch, stride) <= cap
      ensures defer ==> Now(ok, io') == Extracted(old(Now(true, io)), w.i, w.twoBands)
    {
      hide Want, Positive, Offset;
      ok := Coin(Works);
      if stride * batch > cap || !ok { return false, io; }
      FixedPlace(w.i, batch, stride);
      from, count, cum := from[w.i := bitmap[w.buf]], count[w.i := 0], cum[w.i := w.i * stride];
      io' := w.i * stride + stride;
    }

    /** A window that was placed after the first n extends them. */
    lemma OneMore(k0: nat, n: nat, io: nat, io': nat)
      requires Valid() && n < batch && Filled(k0, n, io)
      requires baseK[n] == k0 + n && winBase[n] == WindowBase(b0, P, back, k0 + n) >= 0 && from[n] == Want(k0 + n)
      requires io' <= cap
      requires defer ==> cum[n] == Offset(n, stride) && Offset(batch, stride) <= cap
      requires !defer ==> cum[n] == io && io' == io + count[n] && count[n] <= capacity
      ensures Filled(k0, n + 1, io')
    {
      hide WindowBase, Residues, Want, Offset;
      SlicedMore(n, io, io');
      hide Sliced;
    }

    lemma SlicedMore(n: nat, io: nat, io': nat)
      requires |cum| == |count| == batch && n < batch && Sliced(n, io) && io' <= cap
      requires defer ==> cum[n] == Offset(n, stride) && Offset(batch, stride) <= cap
      requires !defer ==> cum[n] == io && io' == io + count[n] && count[n] <= capacity
      ensures Sliced(n + 1, io')
    {
      SumNext(count, n);
      hide Offset, SumTo, Laid, Prefixes;
      if !defer {
        LaidMore(cum, count, n, io, capacity);
        if wasted == 0 { PrefixesMore(cum, count, n); }
      }
    }

    /** gh_fill_window_step. */
    method WindowStep(i: nat, k0: nat, io: nat) returns (ok: bool, io': nat)
      requires Valid() && i < batch && io <= cap && Filled(k0, i, io)
      modifies this`tick, this`baseK, this`winBase, this`resValid, this`resK, this`resWindows, this`cache, this`bitmap
      modifies this`count, this`cum, this`from, this`wasted
      ensures Valid() && io' <= cap
      ensures ok ==> Filled(k0, i + 1, io') && wasted == old(wasted)
      ensures Now(ok, io') == WindowFill(old(Now(true, io)), i, k0 + i)
    {
      hide WindowBase, Residues, FitsWidth, Marked, ModeAt, Extracted;
      io' := io;
      var w;
      ok, w := MarkPhase(i, k0 + i);
      if !ok { return; }
      ok := MarkCommit(w, io);
      if !ok { return; }
      ok, io' := Place(i, k0, w, io);
    }

    /** gh_fill_pair_ok: both windows would fold from the cached anchor. */
    predicate PairOk(k: nat)
      reads this`resValid, this`resK
    {
      pairing && check == 0 && incr >= 2 && resValid && k >= resK && k + 1 - resK <= mLimit
    }

    /** gh_fill_quantum. */
    function Quantum(i: nat, k: nat): (q: nat)
      reads this`resValid, this`resK
      ensures q == 1 || (q == 2 && i % 2 == 0 && i + 1 < batch)
      ensures forall s: Fill :: s.valid == resValid && s.anchor == resK ==> q == QuantumAt(s, i, k)
    {
      if i % 2 != 0 || i + 1 >= batch then 1 else if PairOk(k) then 2 else 1
    }

    /** The folded mark of two windows: bitmap 0 for the first, bitmap 1 for the second. */
    method MarkPair(a: Win, b: Win) returns (ok: bool)
      requires Valid() && resValid && a.k == resK + a.m && b.k == a.k + 1 && b.m == a.m + 1
      modifies this`tick, this`bitmap
      ensures Valid() && (ok ==> bitmap[0] == Want(a.k) && bitmap[1] == Want(b.k))
      ensures ok == Yes(env(TakesPair, old(tick))) && tick == old(tick) + 1
    {
      hide Folded, Residues, WindowBase;
      ok := Coin(TakesPair);
      if ok {
        FoldedResidues(primes, b0, P, back, resK, a.m);
        FoldedResidues(primes, b0, P, back, resK, a.m + 1);
        bitmap := [Folded(primes, cache, P, a.m), Folded(primes, cache, P, a.m + 1)];
      }
    }

    /** Set up two windows and mark both from the anchored cache. */
    method MarkBoth(i: nat, k0: nat, ghost io: nat) returns (ok: bool, a: Win, b: Win)
      requires Valid() && i % 2 == 0 && i + 1 < batch && Filled(k0, i, io)
      modifies this`tick, this`baseK, this`winBase, this`bitmap
      ensures Valid() && Filled(k0, i, io)
      ensures ok ==> Ready(i, k0, a) && Ready(i + 1, k0, b)
      ensures var was := old(Now(true, io));
              ok == (PairFolds(was, k0 + i) && Yes(env(TakesPair, was.tick + 2)))
      ensures !ok ==> Now(false, io) == PairFill(old(Now(true, io)), i, k0 + i)
      ensures resValid == old(resValid) && resK == old(resK) && resWindows == old(resWindows)
      ensures ok ==> a.twoBands == Tails(old(tick)) && b.twoBands == Tails(old(tick) + 1) && tick == old(tick) + 3
    {
      hide WindowBase, Residues, Sliced, Want, PairOk, FitsWidth, Extracted;
      ok, a := MarkPhase(i, k0 + i);
      b := a;
      if !ok { return; }
      ok, b := MarkPhase(i + 1, k0 + i + 1);
      if !ok { return; }
      if a.mode != 2 || b.mode != 2 { return false, a, b; }
      ok := MarkPair(a, b);
    }

    /** Window i is marked with its own residues and waits for its extraction. */
    ghost predicate Ready(i: nat, k0: nat, w: Win)
      reads this
      requires Valid() && i < batch
    {
      && w.i == i && w.buf < 2 && bitmap[w.buf] == Want(k0 + i)
      && baseK[i] == k0 + i && winBase[i] == WindowBase(b0, P, back, k0 + i) && winBase[i] >= 0
    }

    /** Extract a marked window behind the first i; the flight grows, or keeps its windows and
        loses the room that was used. */
    method Place(i: nat, k0: nat, w: Win, io: nat) returns (ok: bool, io': nat)
      requires Valid() && i < batch && io <= cap && Filled(k0, i, io) && Ready(i, k0, w)
      modifies this`tick, this`count, this`cum, this`from, this`wasted
      ensures Valid() && io' <= cap && (!defer ==> io <= io')
      ensures Filled(k0, if ok then i + 1 else i, io')
      ensures wasted == old(wasted) + if ok || defer then 0 else io' - io
      ensures Now(ok, io') == Extracted(old(Now(true, io)), i, w.twoBands)
      ensures count[..i] == old(count[..i])
    {
      hide WindowBase, Residues, Offset, SumTo, Want, Extracting, Extracted;
      ghost var was := count;
      ok, io' := Extract(w, io);
      forall j | 0 <= j <= i ensures SumTo(count, j) == SumTo(was, j) { SumOfSame(count, was, j); }
      assert Placed(k0, i);
      if ok {
        assert Filled(k0, i, io);
        OneMore(k0, i, io, io');
      } else if !defer {
        wasted := wasted + (io' - io);
      }
    }

    /** On a working device an extraction succeeds and stays within the room of the window. */
    lemma ExtractedWorks(s: Fill, i: nat, twoBands: bool)
      requires Healthy() && (twoBands ==> quarter) && i < batch && Level(i, s.io)
      ensures var x := Extracted(s, i, twoBands); (s.ok ==> x.ok) && Level(i + 1, x.io)
    {
      hide Working, Extracting;
      if !defer {
        RoomAbove(i, s.io);
        ExtractionWorks(env, s.tick, s.io, cap, capacity, quarter, twoBands, Room());
      } else {
        WorksAt(s.tick);
      }
    }

    lemma WorksAt(t: nat)
      requires Healthy()
      ensures Yes(env(Works, t)) && !Yes(env(Flagged, t)) && (defer ==> env(Count, t) <= stride)
    {
    }

    lemma WindowWorks(s: Fill, i: nat, k: nat)
      requires Healthy() && s.ok && FitsWidth(k) && i < batch && Level(i, s.io)
      ensures var x := WindowFill(s, i, k); x.ok && Level(i + 1, x.io)
    {
      hide Healthy, Level, FitsWidth, Extracted;
      var m := Marked(s.(tick := s.tick + 1), k, ModeAt(s.valid, s.anchor, k));
      MarkWorks(s.(tick := s.tick + 1), k, ModeAt(s.valid, s.anchor, k));
      ExtractedWorks(m, i, Tails(s.tick));
    }

    lemma MarkWorks(s: Fill, k: nat, mode: nat)
      requires Healthy() && s.ok
      ensures var x := Marked(s, k, mode); x.ok && x.io == s.io
    {
      hide Healthy;
      WorksAt(s.tick);
      WorksAt(s.tick + 1);
    }

    /** On a working device a pair step gives up before it has used any room. */
    lemma PairLevel(s: Fill, i: nat, k: nat)
      requires Healthy() && s.ok && i + 1 < batch && Level(i, s.io)
      ensures var x := PairFill(s, i, k); if x.ok then Level(i + 2, x.io) else x.io == s.io
    {
      hide Healthy, Level, FitsWidth, Extracted, PairFolds;
      var t := s.(tick := s.tick + 3);
      ExtractedWorks(t, i, Tails(s.tick));
      ExtractedWorks(Extracted(t, i, Tails(s.tick)), i + 1, Tails(s.tick + 1));
    }

    /** A pair that is declined is filled window by window, so a step succeeds. */
    lemma StepWorks(s: Fill, i: nat, k: nat, q: nat)
      requires Healthy() && s.ok && (q == 1 || q == 2) && i + q <= batch && Level(i, s.io) && AllFit(k, q)
      ensures var x := StepFill(s, i, k, q); x.ok && Level(i + q, x.io)
    {
      hide Healthy, Level, FitsWidth, PairFill, WindowFill;
      assert FitsWidth(k);
      if q == 2 {
        assert FitsWidth(k + 1);
        PairLevel(s, i, k);
        var p := PairFill(s, i, k);
        if !p.ok {
          WindowWorks(p.(ok := true), i, k);
          WindowWorks(WindowFill(p.(ok := true), i, k), i + 1, k + 1);
        }
      } else {
        WindowWorks(s, i, k);
      }
    }

    /** A window that was filled fits; so do all windows of a step. */
    lemma StepFits(s: Fill, i: nat, k: nat, q: nat)
      requires StepFill(s, i, k, q).ok && (q == 1 || q == 2)
      ensures AllFit(k, q)
    {
      hide FitsWidth, Extracted, Marked, ModeAt;
    }

    lemma FitJoins(k0: nat, i: nat, q: nat, n: nat)
      requires AllFit(k0, i) && AllFit(k0 + i, q) && n == i + q
      ensures AllFit(k0, n)
    {
      hide FitsWidth;
    }

    lemma FitPart(k0: nat, i: nat, q: nat)
      requires AllFit(k0, batch) && i + q <= batch
      ensures AllFit(k0 + i, q)
    {
      hide FitsWidth;
    }

    /** On a working device a flight is filled exactly when its windows fit. */
    lemma {:induction false} FillWorks(s: Fill, i: nat, k0: nat)
      requires Healthy() && s.ok && i <= batch && Level(i, s.io) && AllFit(k0, i)
      ensures FillFrom(s, i, k0).ok <==> AllFit(k0, batch)
      decreases batch - i
    {
      hide Healthy, Level, StepFill, AllFit, ModeAt;
      if i < batch {
        var q := QuantumAt(s, i, k0 + i);
        var t := StepFill(s, i, k0 + i, q);
        if AllFit(k0, batch) {
          FitPart(k0, i, q);
          StepWorks(s, i, k0 + i, q);
        }
        if t.ok {
          StepFits(s, i, k0 + i, q);
          FitJoins(k0, i, q, i + q);
          StepWorks(s, i, k0 + i, q);
          FillWorks(t, i + q, k0);
        }
      }
    }

    lemma {:induction false} CountsWork(s: Fill, i: nat)
      requires Healthy() && defer && s.ok
      ensures CountsFrom(s, i).ok
      decreases batch - i
    {
      hide Healthy;
      if i < batch {
        WorksAt(s.tick);
        WorksAt(s.tick + 1);
        CountsWork(s.(tick := s.tick + 2), i + 1);
      }
    }

    /** On a device on which every call works and the counts fit, whether or not it takes pairs, a
        whole flight is filled exactly when each of its windows fits. */
    lemma WholeExactlyWhen(s: Fill, k0: nat)
      requires Healthy() && s.ok && s.io == 0
      ensures Whole(s, k0).ok <==> AllFit(k0, batch)
    {
      hide Working, FillFrom, CountsFrom;
      assert Level(0, 0);
      FillWorks(s, 0, k0);
      var t := FillFrom(s, 0, k0);
      WorksAt(t.tick);
      if t.ok && defer { CountsWork(t.(ok := true, tick := t.tick + 1), 0); }
    }

    /** gh_fill_pair_step.  It may also give up after its first window was placed: then the
        room of that window stays unused. */
    method PairStep(i: nat, k0: nat, io: nat) returns (ok: bool, io': nat)
      requires Valid() && i % 2 == 0 && i + 1 < batch && io <= cap && Filled(k0, i, io)
      modifies this`tick, this`baseK, this`winBase, this`bitmap, this`count, this`cum, this`from, this`wasted
      modifies this`losses
      ensures Valid() && io' <= cap && (!defer ==> io <= io')
      ensures Filled(k0, if ok then i + 2 else i, io')
      ensures wasted == old(wasted) + if ok || defer then 0 else io' - io
      ensures losses == old(losses) + if ok || defer then [] else [io' - io]
      ensures Now(ok, io') == PairFill(old(Now(true, io)), i, k0 + i)
    {
      hide Placed, Sliced, PairFill;
      ok, io' := PairTry(i, k0, io);
      if !ok && !defer { losses := losses + [io' - io]; }
    }

    /** Mark both windows, then extract one after the other. */
    method PairTry(i: nat, k0: nat, io: nat) returns (ok: bool, io': nat)
      requires Valid() && i % 2 == 0 && i + 1 < batch && io <= cap && Filled(k0, i, io)
      modifies this`tick, this`baseK, this`winBase, this`bitmap, this`count, this`cum, this`from, this`wasted
      ensures Valid() && io' <= cap && (!defer ==> io <= io')
      ensures Filled(k0, if ok then i + 2 else i, io')
      ensures wasted == old(wasted) + if ok || defer then 0 else io' - io
      ensures Now(ok, io') == PairFill(old(Now(true, io)), i, k0 + i)
    {
      hide Placed, Sliced, PairFolds, Extracted, Tails, Ready;
      io' := io;
      var a, b;
      ok, a, b := MarkBoth(i, k0, io);
      if !ok { return; }
      ok, io' := PlaceBoth(i, k0, a, b, io);
    }

    /** Extract two marked windows; when the second fails, the first is given up again. */
    method PlaceBoth(i: nat, k0: nat, a: Win, b: Win, io: nat) returns (ok: bool, io': nat)
      requires Valid() && i + 1 < batch && io <= cap && Filled(k0, i, io) && Ready(i, k0, a) && Ready(i + 1, k0, b)
      modifies this`tick, this`count, this`cum, this`from, this`wasted
      ensures Valid() && io' <= cap && (!defer ==> io <= io')
      ensures Filled(k0, if ok then i + 2 else i, io')
      ensures wasted == old(wasted) + if ok || defer then 0 else io' - io
      ensures var x := Extracted(old(Now(true, io)), i, a.twoBands);
              Now(ok, io') == if x.ok then Extracted(x, i + 1, b.twoBands) else x
    {
      hide WindowBase, Residues, Extracted, SumTo;
      ghost var was, first := wasted, count;
      ok, io' := Place(i, k0, a, io);
      if !ok { return; }
      ghost var second := count;
      ok, io' := Place(i + 1, k0, b, io');
      if !ok {
        assert count[..i] == second[..i + 1][..i] == first[..i];
        forall j | 0 <= j < i ensures count[j] == first[j] { assert count[..i][j] == first[..i][j]; }
        SumOfSame(count, first, i);
        DropLast(k0, i, io, io', was);
      }
    }

    /** Give the first window of a failed pair up again: its room is lost. */
    ghost method DropLast(k0: nat, i: nat, io: nat, io': nat, was: nat)
      requires Valid() && i + 1 <= batch && Filled(k0, i + 1, io')
      requires !defer ==> io' >= io && io == SumTo(count, i) + was && was <= wasted
      modifies this`wasted
      ensures Valid() && Filled(k0, i, io')
      ensures wasted == if defer then old(wasted) else was + (io' - io)
    {
      hide WindowBase, Residues, Want, Offset;
      if !defer { wasted := was + (io' - io); }
    }

    /** gh_fill_step: a pair that cannot be filled together is filled window by window.  Only a
        pair that gives up loses room. */
    method Step(i: nat, k0: nat, io: nat, q: nat) returns (ok: bool, io': nat)
      requires Valid() && i < batch && io <= cap && Filled(k0, i, io) && Accounted()
      requires q == 1 || (q == 2 && i % 2 == 0 && i + 1 < batch)
      modifies this`tick, this`baseK, this`winBase, this`resValid, this`resK, this`resWindows, this`cache, this`bitmap
      modifies this`count, this`cum, this`from, this`wasted, this`losses
      ensures Valid() && io' <= cap
      ensures ok ==> Filled(k0, i + q, io') && Accounted()
      ensures Now(ok, io') == StepFill(old(Now(true, io)), i, k0 + i, q)
      ensures q == 2 && !defer ==> var pair := PairFill(old(Now(true, io)), i, k0 + i);
                losses == old(losses) + if pair.ok then [] else [pair.io - io]
      ensures q == 1 ==> losses == old(losses)
    {
      hide Filled, PairFill, WindowFill, SumTo;
      io' := io;
      if q == 2 {
        ghost var was, lost := losses, wasted;
        ok, io' := PairStep(i, k0, io');
        LossAdded(was, lost);
        if ok { return; }
        ok, io' := WindowStep(i, k0, io');
        if !ok { return; }
        ok, io' := WindowStep(i + 1, k0, io');
      } else {
        ok, io' := WindowStep(i, k0, io');
      }
    }

    lemma LossAdded(was: seq<nat>, lost: nat)
      requires lost == SumTo(was, |was|)
      requires (losses == was && wasted == lost) || (exists x: nat :: losses == was + [x] && wasted == lost + x)
      ensures Accounted()
    {
      SumOfSame(losses, was, |was|);
    }

    /** gh_fill_commit: finalize the flight and take over deferred counts. */
    method Commit(k0: nat, io: nat) returns (ok: bool)
      requires Valid() && io <= cap && Filled(k0, batch, io) && Accounted()
      modifies this`tick, this`count, this`total
      ensures Valid() && (ok ==> Complete(k0)) && total == io
      ensures Now(ok, io) == Committed(old(Now(true, io)))
    {
      hide WindowBase, Residues, Offset, CountsFrom;
      total := io;
      ok := Coin(Works);
      assert !defer ==> (Tight() <==> wasted == 0);
      if ok && defer {
        ok := ReadCounts(io);
        if ok { StridesApart(cum, count, stride, cap); }
      }
    }

    /** Take over the deferred counts; one beyond its stride stops the walk. */
    method ReadCounts(ghost io: nat) returns (ok: bool)
      requires Valid() && defer
      modifies this`tick, this`count
      ensures Valid() && (ok ==> forall j :: 0 <= j < batch ==> count[j] <= stride)
      ensures Now(ok, io) == CountsFrom(old(Now(true, io)), 0)
    {
      hide Residues, WindowBase, Positive, CountsFrom;
      ghost var was := Now(true, io);
      for i := 0 to batch
        invariant Valid()
        invariant CountsFrom(was, 0) == CountsFrom(Now(true, io), i)
        invariant forall j :: 0 <= j < i ==> count[j] <= stride
      {
        CountsStep(Now(true, io), i);
        var c := Ask(Count);
        var flagged := Coin(Flagged);
        if flagged || c > stride { return false; }
        count := count[i := c];
      }
      ok := true;
      CountsStep(Now(true, io), batch);
    }

    lemma CountsStep(s: Fill, i: nat)
      ensures CountsFrom(s, i) ==
              if i >= batch then s
              else if Yes(env(Flagged, s.tick + 1)) || env(Count, s.tick) > stride
              then s.(ok := false, tick := s.tick + 2)
              else CountsFrom(s.(tick := s.tick + 2), i + 1)
    {
    }

    /** A fill that has failed stays as it is. */
    lemma FillStops(s: Fill, i: nat, k0: nat)
      requires !s.ok
      ensures Committed(FillFrom(s, i, k0)) == s
    {
    }

    lemma NothingFilled(k0: nat)
      requires Valid() && wasted == 0 && losses == []
      ensures Filled(k0, 0, 0) && Accounted()
    {
    }

    /** gh_fill_only: a whole flight at once.  It succeeds as the device's answers decide, and on a
        working device exactly when every window fits. */
    method FillOnly(k0: nat) returns (ok: bool)
      requires Valid()
      modifies this
      ensures Valid() && (ok ==> Complete(k0) && total == Whole(old(Now(true, 0)), k0).io)
      ensures ok == Whole(old(Now(true, 0)), k0).ok
      ensures Healthy() ==> (ok <==> AllFit(k0, batch))
    {
      hide WindowBase, Residues, Complete, Filled, Want, Healthy, AllFit, StepFill, QuantumAt, Committed;
      ghost var was := Now(true, 0);
      if Healthy() { WholeExactlyWhen(was, k0); }
      var io: nat, i: nat := 0, 0;
      wasted, losses := 0, [];
      NothingFilled(k0);
      while i < batch
        invariant Valid() && io <= cap && i <= batch && Filled(k0, i, io) && Accounted()
        invariant FillFrom(was, 0, k0) == FillFrom(Now(true, io), i, k0)
      {
        var q := Quantum(i, k0 + i);
        ok, io := Step(i, k0, io, q);
        if !ok { FillStops(Now(ok, io), i + q, k0); }
        if !ok { return; }
        i := i + q;
      }
      ok := Commit(k0, io);
    }

    /** What a reservation has achieved so far. */
    ghost predicate Underway(pf: Filling)
      reads this
      requires Valid()
    {
      if pf.failed then true
      else if pf.done then Complete(pf.k0) && total == pf.cum
      else pf.nextI <= batch && pf.cum <= cap && Filled(pf.k0, pf.nextI, pf.cum) && Accounted()
    }

    /** Where a reservation ends, by the answers still to come. */
    ghost function Ending(pf: Filling): Fill
      reads this`tick, this`resValid, this`resK, this`resWindows
    {
      if pf.failed || pf.done then Now(!pf.failed, pf.cum)
      else Committed(FillFrom(Now(true, pf.cum), pf.nextI, pf.k0))
    }

    /** gh_prefetch_step: the same flight in quanta, never splitting a pair. */
    method PrefetchStep(pf: Filling, qty: nat) returns (pf': Filling)
      requires Valid() && Underway(pf) && qty > 0
      modifies this
      ensures Valid() && Underway(pf') && pf'.k0 == pf.k0
      ensures pf'.done || pf'.failed || pf'.nextI > pf.nextI
      ensures Ending(pf') == old(Ending(pf))
    {
      hide WindowBase, Residues, Complete, Filled, StepFill, QuantumAt, Committed;
      pf' := pf;
      if pf.done || pf.failed { return; }
      var left: int := qty;
      while left > 0 && pf'.nextI < batch
        invariant Valid() && !pf'.done && !pf'.failed && pf'.k0 == pf.k0 && pf.nextI <= pf'.nextI <= batch
        invariant pf'.cum <= cap && Filled(pf.k0, pf'.nextI, pf'.cum) && Accounted()
        invariant Ending(pf') == old(Ending(pf))
        invariant left == qty - (pf'.nextI - pf.nextI)
        decreases batch - pf'.nextI
      {
        var q := Quantum(pf'.nextI, pf.k0 + pf'.nextI);
        if q > left && left < qty { break; }
        var ok, io := Step(pf'.nextI, pf.k0, pf'.cum, q);
        if !ok { FillStops(Now(ok, io), pf'.nextI + q, pf.k0); }
        if !ok { return pf'.(cum := io, failed := true); }
        pf' := pf'.(nextI := pf'.nextI + q, cum := io);
        left := left - q;
      }
      if pf'.nextI >= batch {
        var ok := Commit(pf.k0, pf'.cum);
        pf' := pf'.(done := true, failed := !ok);
      }
    }

    /** However the quanta are cut, the reservation ends as the serial fill of the flight would: with
        the same success, fill level, number of answers and anchor. */
    method FinishPrefetch(k0: nat, quanta: nat -> nat) returns (pf: Filling)
      requires Valid() && forall n: nat :: quanta(n) > 0
      modifies this
      ensures Valid() && (pf.done || pf.failed) && pf.k0 == k0
      ensures !pf.failed ==> Complete(k0) && total == pf.cum
      ensures Now(!pf.failed, pf.cum) == Whole(old(Now(true, 0)), k0)
      ensures Healthy() ==> (!pf.failed <==> AllFit(k0, batch))
    {
      hide WindowBase, Residues, Complete, Filled, Want, Healthy, AllFit, FillFrom, Committed;
      if Healthy() { WholeExactlyWhen(Now(true, 0), k0); }
      pf := Filling(k0, 0, 0, false, false);
      wasted, losses := 0, [];
      NothingFilled(k0);
      var round := 0;
      while !pf.done && !pf.failed
        invariant Valid() && Underway(pf) && pf.k0 == k0
        invariant Ending(pf) == Whole(old(Now(true, 0)), k0)
        decreases if pf.done || pf.failed then 0 else 1 + batch - pf.nextI
      {
        pf := PrefetchStep(pf, quanta(round));
        round := round + 1;
      }
    }
  }

  /** The answers of a device that takes a pair mark, extracts five candidates of the first
      window and fails on the second. */
  function LateAnswers(q: Question, t: nat): nat {
    match q
    case Count => 5
    case Works => if t == 7 then 0 else 1
    case _ => 1
  }

  /** A pair step that gives up late, right after a flight whose last window was window 0: five
      places of the buffer are lost. */
  method LateFailure() returns (f: Filler, ok: bool, io: nat)
    ensures fresh(f) && f.Valid() && !ok && io == 5 && f.wasted == 5
  {
    hide *;
    f := new Filler(1000, 30, 10, 10, 1000000, 2, 100, 50, 2, 10, 0, true, false, false, 0, [7], LateAnswers)
      by { OnePositive(); }
    var fits, w := f.MarkPhase(0, 0);
    LateStart(f, Fill(true, 0, 1, false, f.resK, f.resWindows));
    StateIs(f);
    var marked := f.MarkCommit(w, 0);
    StateIs(f);
    LateOutcome(f, f.Now(true, 0));
    EmptyFill(f);
    ok, io := f.PairStep(0, 1, 0);
    StateIs(f);
  }

  lemma OnePositive()
    ensures Positive([7])
  {
  }

  /** The window that anchors the cache. */
  lemma LateStart(f: Filler, s: Fill)
    requires f.env == LateAnswers && s.tick == 1 && !s.valid
    ensures f.ModeAt(s.valid, s.anchor, 0) == 0
    ensures f.Marked(s, 0, 0) == s.(tick := 2, valid := true, anchor := 0)
  {
  }

  lemma StateIs(f: Filler)
    ensures forall ok, io: nat :: f.Now(ok, io) == Fill(ok, io, f.tick, f.resValid, f.resK, f.resWindows)
  {
  }

  lemma EmptyFill(f: Filler)
    requires f.Valid() && !f.defer && f.wasted == 0
    ensures 0 <= f.cap && f.Filled(1, 0, 0)
  {
  }

  lemma LateOutcome(f: Filler, s: Fill)
    requires f.b0 == 1000 && f.P == 30 && f.back == 10 && f.interval == 10 && f.width == 1000000
    requires f.cap == 100 && f.capacity == 50 && f.incr == 2 && f.mLimit == 10 && !f.quarter && !f.defer
    requires f.env == LateAnswers && s.tick == 2 && s.valid && s.anchor == 0 && s.io == 0
    ensures var x := f.PairFill(s, 0, 1); !x.ok && x.io == 5
  {
  }
}
