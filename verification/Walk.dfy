/** The driver of the gap walk (main loop of gap_hunt_run in new_src/gap_hunt.c): two
    alternating flights, the prefetched next flight, the conservative checkpoint and the final
    drain, under arbitrary failures, stop signals and hard kills. */
module Walk {
  import opened Wrappers

  const MAX_INDEX: nat := 0xFFFF_FFFF_FFFF_FFFF

  /** A flight of windows k0, k0 + 1, ..., k0 + n - 1; active while its batch is in the air. */
  datatype Flight = Flight(active: bool, n: nat, k0: nat, total: nat)

  /** The reserved next flight and how far it is filled. */
  datatype Prefetch = NoPrefetch
                    | Prefetch(target: nat, k0: nat, nextI: nat, done: bool, failed: bool)

  datatype Outcome = Go | Break | Dead

  // ------------------------------------------------------------------ the books

  /** What is reserved and not yet processed: every slot may hold the first index of a span of
      `batch` windows.  Slots 0 and 1 are the flights in the air, slot 2 is the prefetched
      flight, slot 3 the flight being filled, scanned and reported right now. */
  datatype Books = Books(start: nat, batch: nat, next: nat, slot: seq<Option<nat>>)

  predicate In(i: nat, k0: nat, n: nat) { k0 <= i < k0 + n }

  predicate Owes(s: Option<nat>, batch: nat, i: nat) { s.Some? && In(i, s.v, batch) }

  predicate Apart(s: Option<nat>, t: Option<nat>, batch: nat) {
    s.Some? && t.Some? ==> s.v + batch <= t.v || t.v + batch <= s.v
  }

  predicate Within(b: Books, s: Option<nat>) { s.Some? ==> b.start <= s.v && s.v + b.batch <= b.next }

  ghost predicate NoRepeat(log: seq<nat>) {
    forall i, j :: 0 <= i < j < |log| ==> log[i] != log[j]
  }

  ghost predicate Owed(b: Books, i: nat)
    requires |b.slot| == 4
  {
    || Owes(b.slot[0], b.batch, i) || Owes(b.slot[1], b.batch, i)
    || Owes(b.slot[2], b.batch, i) || Owes(b.slot[3], b.batch, i)
  }

  /** The books balance: from start up to next, each index is either in the log, once, or owed
      by exactly one slot. */
  ghost predicate Balanced(b: Books, log: seq<nat>) {
    && |b.slot| == 4 && b.start <= b.next
    && (forall j :: 0 <= j < 4 ==> Within(b, b.slot[j]))
    && (forall i, j :: 0 <= i < j < 4 ==> Apart(b.slot[i], b.slot[j], b.batch))
    && NoRepeat(log)
    && forall i: nat :: i in log <==> b.start <= i < b.next && !Owed(b, i)
  }

  function Range(k0: nat, n: nat): (r: seq<nat>)
    ensures |r| == n && forall i :: 0 <= i < n ==> r[i] == k0 + i
  {
    seq(n, i requires 0 <= i => k0 + i)
  }

  lemma RangeMembers(k0: nat, n: nat)
    ensures forall i: nat :: i in Range(k0, n) <==> In(i, k0, n)
  {
    forall i: nat | In(i, k0, n) ensures i in Range(k0, n) { assert Range(k0, n)[i - k0] == i; }
  }

  /** Processing part of an owed span repeats nothing. */
  lemma PartProcessed(b: Books, log: seq<nat>, j: nat, m: nat)
    requires Balanced(b, log) && j < 4 && b.slot[j].Some? && m <= b.batch
    ensures NoRepeat(log + Range(b.slot[j].v, m))
    ensures forall i :: i in log + Range(b.slot[j].v, m) ==> b.start <= i < b.next
  {
    var k0 := b.slot[j].v;
    RangeMembers(k0, m);
    assert Within(b, b.slot[j]);
    forall i: nat | In(i, k0, m) ensures i !in log { assert Owes(b.slot[j], b.batch, i); }
    JoinNoRepeat(log, Range(k0, m));
  }

  lemma JoinNoRepeat(s: seq<nat>, t: seq<nat>)
    requires NoRepeat(s) && NoRepeat(t) && forall x :: x in t ==> x !in s
    ensures NoRepeat(s + t)
  {
    var u := s + t;
    forall i, j | 0 <= i < j < |u| ensures u[i] != u[j] {
      if i < |s| <= j { assert u[j] in t && u[i] in s; }
    }
  }

  /** Processing an owed span settles it. */
  lemma Settle(b: Books, log: seq<nat>, j: nat)
    requires Balanced(b, log) && j < 4 && b.slot[j].Some?
    ensures Balanced(b.(slot := b.slot[j := None]), log + Range(b.slot[j].v, b.batch))
  {
    var b' := b.(slot := b.slot[j := None]);
    var k0 := b.slot[j].v;
    var log' := log + Range(k0, b.batch);
    PartProcessed(b, log, j, b.batch);
    RangeMembers(k0, b.batch);
    assert Within(b, b.slot[j]);
    forall i: nat ensures i in log' <==> b'.start <= i < b'.next && !Owed(b', i) {
      OwedWithout(b, j, i);
    }
    assert forall i :: 0 <= i < 4 ==> b'.slot[i] == b.slot[i] || b'.slot[i] == None;
    hide NoRepeat;
  }

  lemma OwedWithout(b: Books, j: nat, i: nat)
    requires |b.slot| == 4 && j < 4 && b.slot[j].Some?
    requires forall x, y :: 0 <= x < y < 4 ==> Apart(b.slot[x], b.slot[y], b.batch)
    ensures Owed(b.(slot := b.slot[j := None]), i) <==> Owed(b, i) && !In(i, b.slot[j].v, b.batch)
  {
    var s := b.slot;
    assert Apart(s[0], s[1], b.batch) && Apart(s[0], s[2], b.batch) && Apart(s[0], s[3], b.batch);
    assert Apart(s[1], s[2], b.batch) && Apart(s[1], s[3], b.batch) && Apart(s[2], s[3], b.batch);
  }

  /** A span moves from one slot to a free one. */
  lemma Move(b: Books, log: seq<nat>, i: nat, j: nat)
    requires Balanced(b, log) && i < 4 && j < 4 && i != j && b.slot[j].None?
    ensures Balanced(b.(slot := b.slot[i := None][j := b.slot[i]]), log)
  {
    var b' := b.(slot := b.slot[i := None][j := b.slot[i]]);
    forall x: nat ensures Owed(b', x) == Owed(b, x) {}
    forall x, y | 0 <= x < y < 4 ensures Apart(b'.slot[x], b'.slot[y], b'.batch) {
      var x', y' := if x == j then i else x, if y == j then i else y;
      if x' < y' {
        assert Apart(b.slot[x'], b.slot[y'], b.batch);
      } else if y' < x' {
        assert Apart(b.slot[y'], b.slot[x'], b.batch);
      }
    }
    hide NoRepeat;
    assert forall x :: 0 <= x < 4 ==> b'.slot[x] == None || b'.slot[x] == b.slot[x] || b'.slot[x] == b.slot[i];
    assert Within(b, b.slot[i]);
  }

  /** The next `batch` indices go to a free slot. */
  lemma Reserve(b: Books, log: seq<nat>, j: nat)
    requires Balanced(b, log) && j < 4 && b.slot[j].None?
    ensures Balanced(b.(slot := b.slot[j := Some(b.next)], next := b.next + b.batch), log)
  {
    hide NoRepeat;
    var b' := b.(slot := b.slot[j := Some(b.next)], next := b.next + b.batch);
    forall x | 0 <= x < 4 ensures Within(b', b'.slot[x]) { assert Within(b, b.slot[x]); }
    forall x, y | 0 <= x < y < 4 ensures Apart(b'.slot[x], b'.slot[y], b'.batch) {
      assert Apart(b.slot[x], b.slot[y], b.batch);
      assert Within(b, b.slot[x]) && Within(b, b.slot[y]);
    }
    forall i: nat ensures i in log <==> b'.start <= i < b'.next && !Owed(b', i) {
      ReservedOwed(b, j, i);
    }
  }

  lemma ReservedOwed(b: Books, j: nat, i: nat)
    requires |b.slot| == 4 && j < 4 && b.slot[j].None?
    requires forall x :: 0 <= x < 4 ==> Within(b, b.slot[x])
    ensures Owed(b.(slot := b.slot[j := Some(b.next)], next := b.next + b.batch), i)
            <==> Owed(b, i) || In(i, b.next, b.batch)
    ensures Owed(b, i) ==> i < b.next
  {
    assert Within(b, b.slot[0]) && Within(b, b.slot[1]) && Within(b, b.slot[2]) && Within(b, b.slot[3]);
  }

  /** What is saved never passes an index that this run left out. */
  ghost predicate SafeSave(start: nat, disk: Option<nat>, log: seq<nat>) {
    disk.Some? ==> start <= disk.v <= MAX_INDEX && forall i: nat :: start <= i < disk.v ==> i in log
  }

  /** k lies at or below every owed span. */
  predicate Below(k: nat, b: Books)
    requires |b.slot| == 4
  {
    b.start <= k <= b.next && forall j :: 0 <= j < 4 && b.slot[j].Some? ==> k <= b.slot[j].v
  }

  /** A watermark below everything owed may be saved. */
  lemma WatermarkSafe(b: Books, log: seq<nat>, k: nat)
    requires Balanced(b, log) && Below(k, b) && b.next <= MAX_INDEX
    ensures SafeSave(b.start, Some(k), log)
  {
    forall i: nat | b.start <= i < k ensures i in log {
      assert !Owed(b, i);
    }
  }

  lemma SafeGrows(start: nat, disk: Option<nat>, log: seq<nat>, more: seq<nat>)
    requires SafeSave(start, disk, log)
    ensures SafeSave(start, disk, log + more)
  {
  }

  // ------------------------------------------------------------------ the driver

  function AirSpan(f: Flight): Option<nat> { if f.active then Some(f.k0) else None }

  function PrefetchSpan(p: Prefetch): Option<nat> { if p.Prefetch? then Some(p.k0) else None }

  function Least(k: nat, s: Option<nat>): (l: nat)
    ensures l <= k && (s.Some? ==> l <= s.v) && (l == k || s == Some(l))
  {
    if s.Some? && s.v < k then s.v else k
  }

  /** What holds of the flights and the reservation between any two steps. */
  ghost predicate Formed(batch: nat, kind: bool, fl: seq<Flight>, pref: Prefetch, turn: nat) {
    && batch >= 1 && |fl| == 2 && turn < 2
    && (forall j :: 0 <= j < 2 && fl[j].active ==> !kind && fl[j].n == batch)
    && (pref.Prefetch? ==> kind && pref.target < 2 && pref.nextI <= batch)
    && (pref.Prefetch? && pref.done && !pref.failed ==> fl[pref.target].n == batch && fl[pref.target].k0 == pref.k0)
  }

  /** Additionally, between two iterations: an idle flight of the prefetching walk is empty
      unless it is the reserved one, which is the next to be processed. */
  ghost predicate Resting(fl: seq<Flight>, pref: Prefetch, kind: bool, mine: nat)
    requires |fl| == 2 && mine < 2
  {
    kind ==>
      && fl[1 - mine].n == 0
      && (pref.Prefetch? ==> pref.target == mine)
      && (!pref.Prefetch? ==> fl[mine].n == 0)
  }

  /** What a run asks its environment: whether a stop signal or a kill has arrived, whether a device
      call or a write works, how many candidates a flight holds or how much a step fills. */
  datatype Question = Signal | Kill | Works | Amount

  type Environment = (Question, nat) -> nat

  predicate Yes(answer: nat) { answer % 2 == 1 }

  /** No stop signal ever arrives. */
  ghost predicate Quiet(env: Environment) { forall t: nat :: !Yes(env(Signal, t)) }

  /** No kill ever strikes. */
  ghost predicate Spared(env: Environment) { forall t: nat :: !Yes(env(Kill, t)) }

  /** Every device call and every write works. */
  ghost predicate Healthy(env: Environment) { forall t: nat :: Yes(env(Works, t)) }

  /** One run of the walk.  `env` answers every question whose answer the program cannot
      foresee, in the order they come up. */
  class Driver {
    const batch: nat
    const kmax: nat
    const start: nat
    const jump2: bool
    const prefetching: bool
    const inline: bool
    const env: Environment
    /** There was a saved index to resume from. */
    const resumed: bool
    var tick: nat
    var stop: bool
    var nextK: nat
    var turn: nat
    var fl: seq<Flight>
    var pref: Prefetch
    var windows: nat
    var lastSave: nat
    var disk: Option<nat>
    var failed: bool
    var failureK: nat
    var log: seq<nat>
    ghost var held: Option<nat>

    ghost function Ledger(): Books
      reads this
      requires |fl| == 2
    {
      Books(start, batch, nextK, [AirSpan(fl[0]), AirSpan(fl[1]), PrefetchSpan(pref), held])
    }

    ghost predicate Valid()
      reads this
    {
      && Formed(batch, jump2, fl, pref, turn) && nextK <= MAX_INDEX
      && Balanced(Ledger(), log) && SafeSave(start, disk, log) && (resumed ==> disk.Some?)
      && InLimit() && Counted() && (Healthy(env) && pref.Prefetch? ==> !pref.failed)
    }

    /** At most a batch beyond the limit is reserved. */
    predicate InLimit()
      reads this`nextK
    {
      kmax == 0 || nextK == start || nextK < kmax + batch
    }

    /** The processed windows are counted. */
    predicate Counted()
      reads this`windows, this`lastSave, this`log
    {
      windows == |log| && lastSave <= windows
    }

    /** What survives even a kill in the middle of a report. */
    ghost predicate Sound()
      reads this
    {
      PartSound(start, disk, log) && (resumed ==> disk.Some?)
    }

    /** Killed, with a sound state file. */
    ghost predicate Died()
      reads this
    {
      Sound() && !Spared(env)
    }

    /** The last index is reserved. */
    predicate Reached()
      reads this`nextK
    {
      kmax > 0 && nextK >= kmax
    }

    /** Without a signal the walk stops only when the last index is reserved and nothing is in the
        air, or waiting to be scanned. */
    ghost predicate Halted()
      reads this`stop, this`nextK, this`fl, this`pref
      requires |fl| == 2
    {
      stop && Quiet(env) ==> Reached() && !fl[0].active && !fl[1].active && pref.NoPrefetch?
    }

    /** While everything works, the walk fails only where the next index would overflow. */
    ghost predicate Blameless()
      reads this`failed, this`nextK
    {
      failed && Healthy(env) ==> nextK > MAX_INDEX - batch && !Reached()
    }

    /** The loop was left: the failed flight, if any, is not before failureK. */
    ghost predicate Left()
      reads this
    {
      && Valid() && Blameless()
      && (failed ==> start <= failureK <= nextK && (held.Some? ==> failureK <= held.v))
      && (!failed ==> held.None?)
    }

    constructor (batch: nat, kmax: nat, start: nat, jump2: bool, prefetching: bool, inline: bool,
                env: Environment, disk: Option<nat>)
      requires batch >= 1 && start <= MAX_INDEX && (disk.Some? ==> disk.v == start)
      ensures Valid() && held.None? && log == [] && Resting(fl, pref, jump2, turn) && !pref.Prefetch?
      ensures !failed && !stop
      ensures this.kmax == kmax && this.env == env && resumed == disk.Some?
      ensures this.start == start && this.disk == disk && this.jump2 == jump2 && this.batch == batch
    {
      this.batch, this.kmax, this.start, this.jump2 := batch, kmax, start, jump2;
      this.prefetching, this.inline, this.env, tick, stop := prefetching, inline, env, 0, false;
      resumed := disk.Some?;
      nextK, turn, pref, windows, lastSave := start, 0, NoPrefetch, 0, 0;
      fl := [Flight(false, 0, 0, 0), Flight(false, 0, 0, 0)];
      this.disk, failed, failureK, held, log := disk, false, start, None, [];
    }

    method Ask(q: Question) returns (answer: nat)
      modifies this`tick
      ensures answer == env(q, old(tick)) && tick == old(tick) + 1
    {
      answer := env(q, tick);
      tick := tick + 1;
    }

    method Coin(q: Question) returns (yes: bool)
      modifies this`tick
      ensures yes == Yes(env(q, old(tick))) && tick == old(tick) + 1
      ensures match q
              case Signal => Quiet(env) ==> !yes
              case Kill => Spared(env) ==> !yes
              case Works => Healthy(env) ==> yes
              case Amount => true
    {
      var a := Ask(q);
      yes := Yes(a);
    }

    /** A stop signal may arrive before any look at the stop flag. */
    method PollStop()
      modifies this`tick, this`stop
      ensures stop == (old(stop) || Yes(env(Signal, old(tick))))
      ensures Quiet(env) ==> stop == old(stop)
    {
      var signal := Coin(Signal);
      if signal { stop := true; }
    }

    /** Report the windows of a flight one by one; a kill may strike after each. */
    method Report(f: nat) returns (dead: bool, ghost count: nat)
      requires f < |fl|
      modifies this`tick, this`log, this`windows
      ensures count <= fl[f].n && (!dead ==> count == fl[f].n) && (Spared(env) ==> !dead)
      ensures log == old(log) + Range(fl[f].k0, count)
      ensures !dead ==> windows == old(windows) + fl[f].n
    {
      ghost var was := log;
      var k0, n := fl[f].k0, fl[f].n;
      assert Range(k0, 0) == [];
      dead, count := false, n;
      for i := 0 to n
        invariant count == n && log == was + Range(k0, i) && (Spared(env) ==> !dead) && windows == old(windows)
      {
        dead := Coin(Kill);
        if dead { count := i; }
        if dead { return; }
        log := log + [k0 + i];
        assert Range(k0, i + 1) == Range(k0, i) + [k0 + i];
      }
      dead := false;
      windows := windows + n;
    }

    /** A report of a whole owed span: the span is settled, or the process died meanwhile. */
    method ReportOwed(f: nat, ghost slot: nat) returns (dead: bool)
      requires Valid() && f < 2 && slot < 4 && fl[f].n == batch
      requires Ledger().slot[slot] == Some(fl[f].k0)
      modifies this`tick, this`log, this`windows
      ensures dead ==> Died()
      ensures !dead ==> SafeSave(start, disk, log) && Counted()
      ensures !dead ==> Balanced(Ledger().(slot := Ledger().slot[slot := None]), log)
    {
      hide Balanced, SafeSave, PartSound, Range, Healthy, Quiet, Spared;
      ghost var b, was := Ledger(), log;
      ghost var count;
      dead, count := Report(f);
      ReportedBooks(b, was, slot, disk);
    }

    /** Fill a whole flight; a failure may leave it half written. */
    method FillOnly(f: nat, k0: nat) returns (ok: bool)
      requires |fl| == 2 && f < 2
      modifies this`tick, this`fl
      ensures |fl| == 2 && fl[1 - f] == old(fl[1 - f]) && fl[f].active == old(fl[f].active)
      ensures ok ==> fl[f].n == batch && fl[f].k0 == k0
      ensures !ok ==> fl[f].n == old(fl[f].n)
      ensures Healthy(env) ==> ok
    {
      ok := Coin(Works);
      if ok {
        var total := Ask(Amount);
        fl := fl[f := fl[f].(n := batch, k0 := k0, total := total)];
      } else {
        fl := fl[f := fl[f].(k0 := k0)];
      }
    }

    /** gh_prefetch_step: fill some windows of the reserved flight. */
    method PrefetchStep()
      requires Formed(batch, jump2, fl, pref, turn) && pref.Prefetch?
      modifies this`tick, this`fl, this`pref
      ensures Formed(batch, jump2, fl, pref, turn) && pref.Prefetch?
      ensures pref.k0 == old(pref.k0) && pref.target == old(pref.target)
      ensures fl[1 - pref.target] == old(fl[1 - pref.target])
      ensures fl[pref.target].active == old(fl[pref.target].active)
      ensures old(pref.done) ==> pref.done
      ensures pref.done || pref.failed || pref.nextI > old(pref.nextI)
      ensures Healthy(env) && !old(pref.failed) ==> !pref.failed
    {
      if pref.done || pref.failed { return; }
      var t := pref.target;
      var qty := Ask(Amount);
      var left: int := qty + 1;
      var progress := false;
      while left > 0 && pref.nextI < batch
        invariant pref.Prefetch? && !pref.done && !pref.failed && pref.k0 == old(pref.k0) && pref.target == t
        invariant old(pref.nextI) <= pref.nextI <= batch && (progress <==> pref.nextI > old(pref.nextI))
        invariant left == qty + 1 || progress
        invariant |fl| == 2 && fl[1 - t] == old(fl[1 - t]) && fl[t].active == old(fl[t].active)
        decreases batch - pref.nextI
      {
        var pair := Coin(Amount);
        var q := if pair && pref.nextI + 2 <= batch then 2 else 1;
        if q > left && progress { break; }
        if pref.nextI == 0 { fl := fl[t := fl[t].(k0 := pref.k0)]; }
        var ok := Coin(Works);
        if !ok { pref := pref.(failed := true); return; }
        pref := pref.(nextI := pref.nextI + q);
        left := left - q;
        progress := true;
      }
      if pref.nextI >= batch {
        var total := Ask(Amount);
        var ok := Coin(Works);
        fl := fl[t := fl[t].(n := batch, total := total, k0 := pref.k0)];
        pref := pref.(done := true, failed := !ok);
      }
    }

    /** Finish the reserved flight serially. */
    method FinishPrefetch()
      requires Formed(batch, jump2, fl, pref, turn) && pref.Prefetch?
      modifies this`tick, this`fl, this`pref
      ensures Formed(batch, jump2, fl, pref, turn) && pref.Prefetch? && (pref.done || pref.failed)
      ensures Healthy(env) && !old(pref.failed) ==> !pref.failed
      ensures pref.k0 == old(pref.k0) && pref.target == old(pref.target)
      ensures fl[1 - pref.target] == old(fl[1 - pref.target])
      ensures fl[pref.target].active == old(fl[pref.target].active)
    {
      while !pref.done && !pref.failed
        invariant Formed(batch, jump2, fl, pref, turn) && pref.Prefetch?
        invariant Healthy(env) && !old(pref.failed) ==> !pref.failed
        invariant pref.k0 == old(pref.k0) && pref.target == old(pref.target)
        invariant fl[1 - pref.target] == old(fl[1 - pref.target])
        invariant fl[pref.target].active == old(fl[pref.target].active)
        decreases if pref.done || pref.failed then 0 else 1 + batch - pref.nextI
      {
        PrefetchStep();
      }
    }

    /** The chain scan of a flight: rounds that may each fail, with the fill of the reserved
        flight hidden behind them. */
    method ScanFlight(withPrefetch: bool) returns (ok: bool)
      requires Formed(batch, jump2, fl, pref, turn) && (withPrefetch ==> pref.Prefetch?)
      modifies this`tick, this`fl, this`pref
      ensures Formed(batch, jump2, fl, pref, turn) && pref.Prefetch? == old(pref.Prefetch?)
      ensures Healthy(env) ==> ok && (withPrefetch && !old(pref.failed) ==> !pref.failed)
      ensures !withPrefetch ==> pref == old(pref) && fl == old(fl)
      ensures withPrefetch ==> pref.k0 == old(pref.k0) && pref.target == old(pref.target)
      ensures withPrefetch ==> fl[1 - pref.target] == old(fl[1 - pref.target])
      ensures withPrefetch ==> fl[pref.target].active == old(fl[pref.target].active)
    {
      var rounds := Ask(Amount);
      for r := 0 to rounds
        invariant Formed(batch, jump2, fl, pref, turn) && pref.Prefetch? == old(pref.Prefetch?)
        invariant Healthy(env) && withPrefetch && !old(pref.failed) ==> !pref.failed
        invariant !withPrefetch ==> pref == old(pref) && fl == old(fl)
        invariant withPrefetch ==> pref.k0 == old(pref.k0) && pref.target == old(pref.target)
        invariant withPrefetch ==> fl[1 - pref.target] == old(fl[1 - pref.target])
        invariant withPrefetch ==> fl[pref.target].active == old(fl[pref.target].active)
      {
        ok := Coin(Works);
        if !ok { return; }
        if withPrefetch { PrefetchStep(); }
      }
      ok := Coin(Works);
    }

    /** save_state: an atomic replacement of the state file, or no change. */
    method SaveState(k: nat) returns (ok: bool)
      modifies this`tick, this`disk
      ensures disk == (if ok then Some(k) else old(disk)) && (Healthy(env) ==> ok)
    {
      ok := Coin(Works);
      if ok { disk := Some(k); }
    }

    /** A flight in the air is collected and reported before it is refilled. */
    method CollectStage() returns (o: Outcome)
      requires Valid() && held.None? && !failed && Resting(fl, pref, jump2, turn)
      modifies this`tick, this`log, this`windows, this`fl, this`failed, this`failureK
      ensures o == Break ==> Left() && failed
      ensures o == Dead ==> Died()
      ensures o == Go ==> Valid() && !failed && !fl[turn].active && Resting(fl, pref, jump2, turn)
      ensures o == Go ==> fl[1 - turn] == old(fl[1 - turn]) && fl[turn].k0 == old(fl[turn].k0)
      ensures o == Go && !old(fl[turn].active) ==> fl == old(fl)
    {
      hide Balanced, SafeSave, PartSound, Healthy, Quiet, Spared, InLimit;
      if fl[turn].active {
        OwedBounds(Ledger(), log, turn);
        var ok := Coin(Works);
        if !ok { failed, failureK := true, fl[turn].k0; return Break; }
        var dead := ReportOwed(turn, turn);
        if dead { return Dead; }
        ghost var b := Ledger();
        fl := fl[turn := fl[turn].(active := false, n := 0, total := 0)];
        assert Ledger() == b.(slot := b.slot[turn := None]);
      }
      o := Go;
    }

    /** Fill the flight at hand with the next indices, unless these would overflow. */
    method FillNext() returns (ok: bool)
      requires Valid() && held.None? && !failed && !fl[turn].active && !Reached()
      requires !pref.Prefetch? || pref.target != turn
      modifies this`tick, this`fl, this`failed, this`failureK
      ensures !ok ==> Left() && failed
      ensures ok ==> Valid() && !failed && Ledger() == old(Ledger()) && nextK as int <= MAX_INDEX - batch
      ensures ok ==> fl[turn].n == batch && fl[turn].k0 == nextK && !fl[turn].active
      ensures fl[1 - turn] == old(fl[1 - turn])
    {
      hide Balanced, SafeSave, PartSound, Healthy, Quiet, Spared, InLimit, Counted;
      ghost var b := Ledger();
      StartsBefore(b, log);
      ok := nextK <= MAX_INDEX - batch;
      if ok { ok := FillOnly(turn, nextK); }
      if !ok { failed, failureK := true, nextK; }
      assert Ledger() == b;
    }

    /** Prefetching walk: take over the reserved flight, or fill one now, or stop. */
    method Acquire() returns (o: Outcome, filled: bool)
      requires Valid() && held.None? && !failed && !stop && jump2 && Resting(fl, pref, jump2, turn)
      modifies this`tick, this`stop, this`fl, this`pref, this`nextK, this`held, this`failed, this`failureK
      ensures o == Go || o == Break
      ensures o == Break ==> Left() && failed
      ensures o == Go ==> Valid() && !failed && !pref.Prefetch? && fl[1 - turn].n == 0 && nextK >= old(nextK)
      ensures o == Go && filled ==> held == Some(fl[turn].k0) && fl[turn].n == batch
      ensures o == Go && filled ==> old(pref.Prefetch?) || nextK > old(nextK)
      ensures o == Go && !filled ==> stop && held.None? && fl[turn].n == 0
      ensures o == Go && Quiet(env) ==> (stop ==> Reached() && !filled)
    {
      hide Balanced, SafeSave, PartSound, Healthy, Quiet, Counted;
      o, filled := Go, false;
      ghost var b := Ledger();
      if pref.Prefetch? && pref.target == turn {
        OwedBounds(b, log, 2);
        FinishPrefetch();
        if pref.failed { failed, failureK := true, pref.k0; return Break, false; }
        Move(b, log, 2, 3);
        held, pref, filled := Some(pref.k0), NoPrefetch, true;
        assert Ledger() == b.(slot := b.slot[2 := None][3 := b.slot[2]]);
      } else {
        PollStop();
        if !stop && !(kmax > 0 && nextK >= kmax) {
          var ok := FillNext();
          if !ok { return Break, false; }
          Reserve(b, log, 3);
          held, nextK, filled := Some(nextK), nextK + batch, true;
          assert Ledger() == b.(slot := b.slot[3 := Some(b.next)], next := b.next + b.batch);
        } else if !pref.Prefetch? && fl[0].n == 0 && fl[1].n == 0 {
          stop := true;
        }
      }
    }

    /** Reserve the next flight for the prefetch. */
    method ReserveNext() returns (reserved: bool)
      requires Valid() && !failed && jump2 && !pref.Prefetch? && held == Some(fl[turn].k0)
      modifies this`tick, this`stop, this`pref, this`nextK
      ensures Valid() && nextK >= old(nextK)
      ensures reserved <==> !stop && prefetching && !old(Reached()) && old(nextK) + batch <= MAX_INDEX
      ensures reserved ==> pref == Prefetch(1 - turn, old(nextK), 0, false, false) && nextK == old(nextK) + batch
      ensures !reserved ==> pref == old(pref) && nextK == old(nextK)
      ensures Quiet(env) ==> stop == old(stop)
    {
      hide Balanced, SafeSave, PartSound, Healthy, Quiet, Counted;
      PollStop();
      reserved := !stop && prefetching && !(kmax > 0 && nextK >= kmax) && nextK as int <= MAX_INDEX - batch;
      if reserved {
        ghost var b := Ledger();
        Reserve(b, log, 2);
        pref, nextK := Prefetch(1 - turn, nextK, 0, false, false), nextK + batch;
        assert Ledger() == b.(slot := b.slot[2 := Some(b.next)], next := b.next + b.batch);
      }
    }

    /** Scan the flight at hand, unless it is empty, and finish the prefetch. */
    method ScanStage(reserved: bool) returns (ok: bool)
      requires Valid() && !failed && jump2 && held == Some(fl[turn].k0)
      requires reserved == pref.Prefetch? && (reserved ==> pref.target == 1 - turn)
      modifies this`tick, this`fl, this`pref, this`failed, this`failureK
      ensures !ok ==> Left() && failed
      ensures ok ==> Valid() && !failed && Ledger() == old(Ledger()) && fl[turn] == old(fl[turn])
      ensures ok && !reserved ==> pref == old(pref) && fl == old(fl)
      ensures ok && reserved ==> pref.Prefetch? && pref.target == 1 - turn && pref.k0 == old(pref).k0 && pref.done
    {
      hide Balanced, SafeSave, PartSound, Healthy, Quiet, Spared, InLimit, Counted;
      ghost var b := Ledger();
      OwedBounds(b, log, 3);
      ok := true;
      if fl[turn].total > 0 {
        ok := ScanFlight(reserved);
        assert Ledger() == b;
      }
      if ok && reserved && !pref.done {
        FinishPrefetch();
        assert Ledger() == b;
        ok := !pref.failed;
      }
      if !ok { failed, failureK := true, fl[turn].k0; }
    }

    /** Scan the flight at hand, finish the prefetch, report. */
    method ScanAndReport(reserved: bool) returns (o: Outcome)
      requires Valid() && !failed && jump2 && held == Some(fl[turn].k0) && fl[turn].n == batch
      requires reserved == pref.Prefetch? && (reserved ==> pref.target == 1 - turn)
      requires !reserved ==> fl[1 - turn].n == 0
      modifies this`tick, this`fl, this`pref, this`log, this`windows, this`held, this`failed, this`failureK
      ensures o == Break ==> Left() && failed
      ensures o == Dead ==> Died()
      ensures o == Go ==> Valid() && !failed && held.None? && pref.Prefetch? == reserved
      ensures o == Go && reserved ==> pref.k0 == old(pref.k0)
      ensures o == Go ==> Resting(fl, pref, jump2, 1 - turn) && (reserved ==> pref.done)
    {
      hide Balanced, SafeSave, PartSound, Healthy, Quiet, Spared, InLimit;
      ghost var b := Ledger();
      var ok := ScanStage(reserved);
      if !ok { return Break; }
      var dead := ReportOwed(turn, 3);
      if dead { return Dead; }
      held := None;
      fl := fl[turn := fl[turn].(n := 0)];
      assert Ledger() == b.(slot := b.slot[3 := None]);
      o := Go;
    }

    /** One turn of the prefetching walk. */
    method PrefetchingTurn() returns (o: Outcome)
      requires Valid() && held.None? && !failed && !stop && jump2 && Resting(fl, pref, jump2, turn)
      modifies this`tick, this`stop, this`fl, this`pref, this`nextK, this`log, this`windows, this`held
      modifies this`failed, this`failureK
      ensures o == Break ==> Left() && failed
      ensures o == Dead ==> Died()
      ensures o == Go ==> Valid() && Halted() && !failed && held.None? && Resting(fl, pref, jump2, 1 - turn)
      ensures o == Go && pref.Prefetch? ==> pref.done && nextK == pref.k0 + batch
      ensures o == Go ==> nextK > old(nextK)
                          || (nextK == old(nextK) && !pref.Prefetch? && (old(pref.Prefetch?) || stop))
    {
      hide Balanced, SafeSave, PartSound, Healthy, Quiet, Spared;
      var filled;
      o, filled := Acquire();
      if o != Go || !filled { return; }
      var reserved := ReserveNext();
      o := ScanAndReport(reserved);
    }

    /** Put a filled flight in the air, or report it now. */
    method SubmitOrReport() returns (o: Outcome)
      requires Valid() && held.None? && !failed && !jump2 && !fl[turn].active
      requires fl[turn].n == batch && fl[turn].k0 == nextK && nextK as int <= MAX_INDEX - batch && !Reached()
      modifies this`tick, this`fl, this`nextK, this`log, this`windows, this`held
      ensures o == Go || o == Dead
      ensures o == Dead ==> Died()
      ensures o == Go ==> Valid() && held.None? && fl[1 - turn] == old(fl[1 - turn]) && nextK > old(nextK)
      ensures o == Go ==> fl[turn].active == (old(fl[turn].total) > 0 && !inline)
    {
      hide Balanced, SafeSave, PartSound, Healthy, Quiet, Spared;
      ghost var b := Ledger();
      if fl[turn].total > 0 && !inline {
        Reserve(b, log, turn);
        fl, nextK := fl[turn := fl[turn].(active := true)], nextK + batch;
        assert Ledger() == b.(slot := b.slot[turn := Some(b.next)], next := b.next + b.batch);
      } else {
        Reserve(b, log, 3);
        nextK, held := nextK + batch, Some(nextK);
        assert Ledger() == b.(slot := b.slot[3 := Some(b.next)], next := b.next + b.batch);
        b := Ledger();
        var dead := ReportOwed(turn, 3);
        if dead { return Dead; }
        held := None;
        fl := fl[turn := fl[turn].(n := 0)];
        assert Ledger() == b.(slot := b.slot[3 := None]);
      }
      o := Go;
    }

    /** One turn of the other walks: refill this flight and submit it, or report it at once
        when it is empty or was scanned synchronously. */
    method PlainTurn() returns (o: Outcome)
      requires Valid() && held.None? && !failed && !stop && !jump2 && !fl[turn].active
      modifies this`tick, this`stop, this`fl, this`nextK, this`log, this`windows, this`held
      modifies this`failed, this`failureK
      ensures o == Break ==> Left() && failed
      ensures o == Dead ==> Died()
      ensures o == Go ==> Valid() && Halted() && !failed && held.None?
      ensures o == Go ==> fl[1 - turn].active == old(fl[1 - turn].active)
      ensures o == Go ==> nextK > old(nextK) || (nextK == old(nextK) && fl == old(fl) && (stop || fl[1 - turn].active))
    {
      hide Balanced, SafeSave, PartSound, Healthy, Quiet, Spared, Counted, InLimit;
      PollStop();
      ghost var b := Ledger();
      if !stop && !(kmax > 0 && nextK >= kmax) {
        var ok := FillNext();
        if !ok { return Break; }
        if fl[turn].total > 0 { ok := Coin(Works); }
        if !ok {
          StartsBefore(b, log);
          failed, failureK := true, nextK;
          return Break;
        }
        o := SubmitOrReport();
        return;
      } else if !fl[0].active && !fl[1].active {
        stop := true;
      }
      o := Go;
    }

    /** The periodic checkpoint: the oldest window that is not reported yet. */
    method Checkpoint() returns (o: Outcome)
      requires Valid() && Halted() && held.None? && !failed && (pref.Prefetch? ==> pref.done)
      modifies this`tick, this`disk, this`lastSave, this`failed, this`failureK
      ensures o == Go || o == Break
      ensures o == Break ==> Left() && failed
      ensures o == Go ==> Valid() && Halted() && !failed
      ensures o == Go && old(windows - lastSave) >= 1024 ==> disk.Some? && disk.v !in log && lastSave == windows
      ensures old(windows - lastSave) < 1024 ==> disk == old(disk) && lastSave == old(lastSave)
    {
      hide Balanced, SafeSave, PartSound, Healthy, Quiet, Spared, InLimit;
      o := Go;
      if windows - lastSave >= 1024 {
        ghost var b := Ledger();
        StartsBefore(b, log);
        var kSafe := nextK;
        if fl[0].active { OwedBounds(b, log, 0); if fl[0].k0 < kSafe { kSafe := fl[0].k0; } }
        if fl[1].active { OwedBounds(b, log, 1); if fl[1].k0 < kSafe { kSafe := fl[1].k0; } }
        if pref.Prefetch? && (pref.nextI > 0 || pref.done) {
          OwedBounds(b, log, 2);
          if pref.k0 < kSafe { kSafe := pref.k0; }
        }
        WatermarkSafe(b, log, kSafe);
        OldestIsOpen(b, log, kSafe);
        var ok := SaveState(kSafe);
        if !ok { failed, failureK := true, kSafe; return Break; }
        lastSave := windows;
      }
    }

    /** The reservation is the last one made. */
    ghost predicate Tail()
      reads this
    {
      pref.Prefetch? ==> nextK == pref.k0 + batch
    }

    /** Falls with every turn that does not advance nextK. */
    ghost function Rank(): nat
      reads this
      requires |fl| == 2 && turn < 2
    {
      4 * ((if pref.Prefetch? then 1 else 0) + (if fl[0].active then 1 else 0) + (if fl[1].active then 1 else 0))
      + (if jump2 || fl[turn].active then 0 else 2) + (if stop then 0 else 1)
    }

    ghost predicate AtTop()
      reads this
    {
      Valid() && Halted() && held.None? && !failed && Resting(fl, pref, jump2, turn) && Tail()
    }

    /** One turn of the prefetching walk, which never has a flight in the air. */
    method JumpTurn() returns (o: Outcome)
      requires AtTop() && !stop && jump2
      modifies this
      ensures o == Break ==> Left() && failed
      ensures o == Dead ==> Died()
      ensures o == Go ==> Valid() && Halted() && held.None? && !failed && Resting(fl, pref, jump2, 1 - turn) && Tail()
      ensures o == Go && pref.Prefetch? ==> pref.done
      ensures turn == old(turn) && (o == Go ==> !fl[0].active && !fl[1].active)
      ensures o == Go ==> nextK > old(nextK)
                          || (nextK == old(nextK) && !pref.Prefetch? && (old(pref.Prefetch?) || stop))
    {
      hide Balanced, SafeSave, PartSound, Healthy, Quiet, Spared;
      o := CollectStage();
      if o != Go { return; }
      o := PrefetchingTurn();
    }

    /** One turn of the two-flights walk. */
    method ScanTurn() returns (o: Outcome)
      requires AtTop() && !stop && !jump2
      modifies this
      ensures o == Break ==> Left() && failed
      ensures o == Dead ==> Died()
      ensures o == Go ==> Valid() && Halted() && held.None? && !failed && !pref.Prefetch?
      ensures turn == old(turn) && (o == Go ==> fl[1 - turn].active == old(fl[1 - turn].active))
      ensures o == Go ==> nextK > old(nextK)
                          || (nextK == old(nextK) && !fl[turn].active && (stop || fl[1 - turn].active))
    {
      hide Balanced, SafeSave, PartSound, Healthy, Quiet, Spared;
      o := CollectStage();
      if o != Go { return; }
      o := PlainTurn();
    }

    method OneTurn() returns (o: Outcome)
      requires AtTop() && !stop
      modifies this
      ensures o == Break ==> Left() && failed
      ensures o == Dead ==> Died()
      ensures o == Go ==> AtTop() && (nextK > old(nextK) || (nextK == old(nextK) && Rank() < old(Rank())))
    {
      hide Balanced, SafeSave, PartSound, Healthy, Quiet, Spared;
      if jump2 { o := JumpTurn(); } else { o := ScanTurn(); }
      if o != Go { return; }
      o := Checkpoint();
      if o != Go { return; }
      turn := 1 - turn;
      if !stop { PollStop(); }
    }

    /** The main loop.  It ends for every environment: with a kill, a failure, a signal, or with
        the last index reserved and nothing in the air. */
    method Loop() returns (o: Outcome)
      requires AtTop()
      modifies this
      ensures o == Break || o == Dead
      ensures o == Break ==> Left() && (!failed ==> Tail() && stop && Halted())
      ensures o == Break && !failed && Quiet(env) ==>
                kmax > 0 && nextK >= kmax && !fl[0].active && !fl[1].active && pref.NoPrefetch?
      ensures o == Dead ==> Died()
    {
      hide Balanced, SafeSave, PartSound, Rank, Healthy, Quiet, Spared;
      PollStop();
      while !stop
        invariant AtTop()
        decreases MAX_INDEX - nextK, Rank()
      {
        o := OneTurn();
        if o != Go { return; }
      }
      o := Break;
    }

    /** Collect one flight that is still in the air; when that fails, save no further than it. */
    method Drain(f: nat, saveK: nat, ghost b: Books) returns (dead: bool, saveK': nat, lost: bool, ghost b': Books)
      requires f < 2 && |fl| == 2 && |b.slot| == 4 && b.start == start && b.batch == batch
      requires Balanced(b, log) && b.slot[f] == AirSpan(fl[f]) && (fl[f].active ==> fl[f].n == batch)
      requires start <= saveK && SafeSave(start, disk, log) && (resumed ==> disk.Some?)
      modifies this`tick, this`log, this`windows, this`fl
      ensures (Spared(env) ==> !dead) && (Healthy(env) ==> !lost)
      ensures dead ==> Died()
      ensures !dead ==> Balanced(b', log) && SafeSave(start, disk, log)
      ensures |fl| == 2 && fl[1 - f] == old(fl[1 - f])
      ensures start <= saveK' && saveK' == if lost then Least(saveK, old(AirSpan(fl[f]))) else saveK
      ensures b' == b.(slot := b.slot[f := None]) || (lost && b' == b && saveK' <= b.slot[f].v)
    {
      hide Balanced, SafeSave, PartSound, Healthy, Quiet, Spared;
      dead, saveK', lost, b' := false, saveK, false, b;
      if fl[f].active {
        OwedBounds(b, log, f);
        var ok := Coin(Works);
        if ok {
          ghost var was := log;
          ghost var count;
          dead, count := Report(f);
          ReportedBooks(b, was, f, disk);
          if dead { b' := b.(slot := b.slot[f := None]); return; }
          b' := b.(slot := b.slot[f := None]);
        } else {
          lost := true;
          if fl[f].k0 < saveK { saveK' := fl[f].k0; }
        }
        fl := fl[f := fl[f].(active := false)];
      } else {
        assert b == b.(slot := b.slot[f := None]);
      }
    }

    /** The checkpoint before the drain: not past the failed flight nor the reserved one. */
    method ChooseSave() returns (saveK: nat)
      requires Left()
      ensures saveK == Least(if failed then failureK else nextK, PrefetchSpan(pref))
      ensures start <= saveK <= nextK && (held.Some? ==> saveK <= held.v)
      ensures pref.Prefetch? ==> saveK <= pref.k0
      ensures !failed ==> saveK == (if pref.Prefetch? then pref.k0 else nextK)
    {
      hide Balanced, SafeSave;
      StartsBefore(Ledger(), log);
      saveK := if failed then failureK else nextK;
      if pref.Prefetch? {
        OwedBounds(Ledger(), log, 2);
        if pref.k0 < saveK { saveK := pref.k0; }
      }
    }

    /** The least of the failed flight or the next index, the reserved flight and the flights in
        the air: what lies before it is never given up. */
    function Floor(): nat
      reads this
      requires |fl| == 2
    {
      Least(Least(Least(if failed then failureK else nextK, PrefetchSpan(pref)), AirSpan(fl[0])), AirSpan(fl[1]))
    }

    /** After the loop: choose the checkpoint, drain, save.  `clean` means that nothing failed;
        then the log is exactly what the checkpoint claims.  A failure costs no more than what it
        left unprocessed. */
    method Finish() returns (clean: bool)
      requires Left() && (!failed ==> Tail())
      modifies this
      ensures Sound() && nextK == old(nextK)
      ensures clean ==> disk.Some? && forall i: nat :: i in log <==> start <= i < disk.v
      ensures clean ==> !old(failed) && disk == Some(if old(pref).Prefetch? then old(pref).k0 else nextK)
      ensures Healthy(env) && Spared(env) ==> (clean <==> !old(failed)) && disk.Some?
      ensures disk == old(disk) || (disk.Some? && old(Floor()) <= disk.v)
    {
      hide Balanced, SafeSave, PartSound, Healthy, Quiet, Spared;
      ghost var b := Ledger();
      StartsBefore(b, log);
      var saveK := ChooseSave();
      var dead, lost;
      dead, saveK, lost, b := DrainBoth(saveK, b);
      if dead { return false; }
      WatermarkSafe(b, log, saveK);
      var ok := SaveState(saveK);
      SoundBooks(b, log, disk);
      clean := ok && !failed && !lost;
      if clean { CleanBooks(b, log, saveK); }
    }

    /** Collect both flights. */
    method DrainBoth(saveK: nat, ghost b: Books) returns (dead: bool, saveK': nat, lost: bool, ghost b': Books)
      requires |fl| == 2 && |b.slot| == 4 && b.start == start && b.batch == batch
      requires Balanced(b, log) && SafeSave(start, disk, log) && (resumed ==> disk.Some?)
      requires forall j :: 0 <= j < 2 ==> b.slot[j] == AirSpan(fl[j]) && (fl[j].active ==> fl[j].n == batch)
      requires start <= saveK <= b.next && forall j :: 2 <= j < 4 && b.slot[j].Some? ==> saveK <= b.slot[j].v
      modifies this`tick, this`log, this`windows, this`fl
      ensures dead ==> Died()
      ensures !dead ==> Balanced(b', log) && SafeSave(start, disk, log) && Below(saveK', b')
      ensures |b'.slot| == 4 && b' == b.(slot := b'.slot) && b'.slot[2] == b.slot[2] && b'.slot[3] == b.slot[3]
      ensures !dead && !lost ==> saveK' == saveK && b'.slot[0].None? && b'.slot[1].None?
      ensures saveK' >= Least(Least(saveK, b.slot[0]), b.slot[1])
      ensures (Spared(env) ==> !dead) && (Healthy(env) ==> !lost)
    {
      hide Balanced, SafeSave, PartSound, Healthy, Quiet, Spared, Died;
      ghost var b1;
      var lostA, lostB;
      dead, saveK', lostA, b1 := Drain(0, saveK, b);
      b', lost := b1, lostA;
      if dead { return; }
      dead, saveK', lostB, b' := Drain(1, saveK', b1);
      lost := lostA || lostB;
    }

    /** A whole run, from a loaded state to its end or its death.  A clean run without a signal has
        processed every index up to its limit, and at most a batch more; and a run is clean when
        everything works, unless it runs into the end of the index range. */
    method Run() returns (clean: bool)
      requires Valid() && held.None? && log == [] && Resting(fl, pref, jump2, turn) && !pref.Prefetch?
      requires !failed && !stop
      modifies this
      ensures Sound()
      ensures clean ==> disk.Some? && forall i: nat :: i in log <==> start <= i < disk.v
      ensures clean && Quiet(env) ==> kmax > 0 && disk.v >= kmax && (disk.v == start || disk.v < kmax + batch)
      ensures Healthy(env) && Spared(env) && kmax > 0 && kmax + batch <= MAX_INDEX + 1 ==> clean
    {
      hide Balanced, SafeSave, PartSound, Healthy, Quiet, Spared;
      var o := Loop();
      if o == Dead { return false; }
      clean := Finish();
    }
  }

  lemma SoundBooks(b: Books, log: seq<nat>, disk: Option<nat>)
    requires Balanced(b, log) && SafeSave(b.start, disk, log)
    ensures PartSound(b.start, disk, log)
  {
  }

  /** Once only the reservation is owed, the log ends exactly where it starts. */
  lemma CleanBooks(b: Books, log: seq<nat>, k: nat)
    requires |b.slot| == 4 && Balanced(b, log) && b.slot[0].None? && b.slot[1].None? && b.slot[3].None?
    requires if b.slot[2].Some? then k == b.slot[2].v && b.next == k + b.batch else k == b.next
    ensures forall i: nat :: i in log <==> b.start <= i < k
  {
    forall i: nat ensures Owed(b, i) <==> b.slot[2].Some? && In(i, k, b.batch) {}
  }

  // ------------------------------------------------------------------ whole histories

  /** The settings of one run, read from the environment at its start. */
  datatype Settings = Settings(batch: nat, kmax: nat, jump2: bool, prefetching: bool, inline: bool)

  /** A run with a limit that nothing disturbs. */
  ghost predicate Undisturbed(c: Settings, env: Environment) {
    Quiet(env) && Healthy(env) && Spared(env) && 0 < c.kmax && c.kmax + c.batch <= MAX_INDEX + 1
  }

  /** Any sequence of runs, each under its own settings and resuming from what the last one left
      on disk: whatever failed, stopped or was killed, every index below the saved one has been
      reported by some run, and no run reports an index twice; and one undisturbed run is enough
      for the saved index to reach its limit. */
  method Campaign(runs: nat, first: nat, settings: nat -> Settings, envs: nat -> Environment)
    returns (disk: Option<nat>, logs: seq<seq<nat>>)
    requires first <= MAX_INDEX && forall r: nat :: settings(r).batch >= 1
    ensures |logs| == runs && forall r :: 0 <= r < |logs| ==> NoRepeat(logs[r])
    ensures disk.Some? ==> first <= disk.v <= MAX_INDEX && forall i: nat :: first <= i < disk.v ==> Reported(logs, i)
    ensures forall r, i :: 0 <= r < |logs| && i in logs[r] ==> first <= i
    ensures forall r :: 0 <= r < runs && Undisturbed(settings(r), envs(r)) ==> disk.Some? && disk.v >= settings(r).kmax
  {
    hide Quiet, Healthy, Spared, Reported, NoRepeat;
    disk, logs := None, [];
    for r := 0 to runs
      invariant |logs| == r && forall r :: 0 <= r < |logs| ==> NoRepeat(logs[r])
      invariant disk.Some? ==>
          first <= disk.v <= MAX_INDEX && forall i: nat :: first <= i < disk.v ==> Reported(logs, i)
      invariant forall r, i :: 0 <= r < |logs| && i in logs[r] ==> first <= i
      invariant forall q :: 0 <= q < r && Undisturbed(settings(q), envs(q)) ==>
                  disk.Some? && disk.v >= settings(q).kmax
    {
      var k := if disk.Some? then disk.v else first;
      var c := settings(r);
      var w := new Driver(c.batch, c.kmax, k, c.jump2, c.prefetching, c.inline, envs(r), disk);
      var clean := w.Run();
      NextRun(logs, w.log, first, k, disk, w.disk);
      disk, logs := w.disk, logs + [w.log];
    }
  }

  ghost predicate Reported(logs: seq<seq<nat>>, i: nat) {
    exists r :: 0 <= r < |logs| && i in logs[r]
  }

  lemma NextRun(logs: seq<seq<nat>>, log: seq<nat>, first: nat, k: nat, disk: Option<nat>, disk': Option<nat>)
    requires k == if disk.Some? then disk.v else first
    requires disk.Some? ==> first <= disk.v <= MAX_INDEX && forall i: nat :: first <= i < disk.v ==> Reported(logs, i)
    requires PartSound(k, disk', log)
    ensures disk'.Some? ==> first <= disk'.v <= MAX_INDEX
    ensures disk'.Some? ==> forall i: nat :: first <= i < disk'.v ==> Reported(logs + [log], i)
    ensures NoRepeat(log) && forall i :: i in log ==> first <= i
  {
    if disk'.Some? {
      forall i: nat | first <= i < disk'.v ensures Reported(logs + [log], i) {
        if disk.Some? && i < disk.v {
          assert Reported(logs, i);
          var r :| 0 <= r < |logs| && i in logs[r];
          assert (logs + [log])[r] == logs[r];
        } else {
          assert (logs + [log])[|logs|] == log;
        }
      }
    }
  }

  /** The start of an owed span, or the next index to reserve, is not processed. */
  lemma OldestIsOpen(b: Books, log: seq<nat>, k: nat)
    requires |b.slot| == 4 && b.batch >= 1 && Balanced(b, log)
    requires k == b.next || exists j :: 0 <= j < 4 && b.slot[j] == Some(k)
    ensures k !in log
  {
    if k != b.next {
      var j :| 0 <= j < 4 && b.slot[j] == Some(k);
      assert Owes(b.slot[j], b.batch, k);
    }
  }

  /** Where an owed span lies. */
  lemma OwedBounds(b: Books, log: seq<nat>, j: nat)
    requires |b.slot| == 4 && j < 4 && b.slot[j].Some? && Balanced(b, log)
    ensures b.start <= b.slot[j].v && b.slot[j].v + b.batch <= b.next
  {
    assert Within(b, b.slot[j]);
  }

  lemma StartsBefore(b: Books, log: seq<nat>)
    requires Balanced(b, log)
    ensures b.start <= b.next
  {
  }

  lemma ReportedBooks(b: Books, was: seq<nat>, slot: nat, disk: Option<nat>)
    requires |b.slot| == 4 && slot < 4 && b.slot[slot].Some?
    requires Balanced(b, was) && SafeSave(b.start, disk, was)
    ensures var k0 := b.slot[slot].v;
            && Balanced(b.(slot := b.slot[slot := None]), was + Range(k0, b.batch))
            && SafeSave(b.start, disk, was + Range(k0, b.batch))
            && forall m: nat :: m <= b.batch ==> PartSound(b.start, disk, was + Range(k0, m))
  {
    hide *;
    var k0 := b.slot[slot].v;
    Settle(b, was, slot);
    SafeGrows(b.start, disk, was, Range(k0, b.batch));
    forall m: nat | m <= b.batch ensures PartSound(b.start, disk, was + Range(k0, m)) {
      PartProcessed(b, was, slot, m);
      SafeGrows(b.start, disk, was, Range(k0, m));
      PartIsSound(b.start, disk, was + Range(k0, m));
    }
  }

  ghost predicate PartSound(start: nat, disk: Option<nat>, log: seq<nat>) {
    NoRepeat(log) && (forall i :: i in log ==> start <= i) && SafeSave(start, disk, log)
  }

  lemma PartIsSound(start: nat, disk: Option<nat>, log: seq<nat>)
    requires NoRepeat(log) && (forall i :: i in log ==> start <= i) && SafeSave(start, disk, log)
    ensures PartSound(start, disk, log)
  {
  }
}
