/** The jump walk over class-filtered candidates (both settings of new_src/gap_hunt.c switched
    on at once): its report branch does not resolve hidden classes.  When it still reports the
    true gaps. */
module QuarterJump {
  import opened NumberTheory
  import opened GapChain
  import opened Merit
  import opened GapReport
  import opened HalfClass
  import JumpScan

  /** The found neighbours p and q pass the merit gate. */
  ghost predicate QualifyingNeighbours(g: Gate, base: nat, off: seq<nat>, fl: seq<bool>, p: nat, q: nat)
    requires |off| == |fl|
  {
    && WideNeighbours(off, fl, 1, p, q)
    && g.ln(base + off[p]) > 0.0 && Qualifies(off[q] - off[p], g.ln(base + off[p]), g.minMerit)
  }

  /** No accepted offset lies strictly inside a qualifying pair of found neighbours from index
      lo on. */
  ghost predicate NothingHiddenInside(g: Gate, test: nat -> bool, base: nat, off: seq<nat>, fl: seq<bool>, lo: nat)
    requires |off| == |fl|
  {
    forall p: nat, q: nat :: lo <= p && QualifyingNeighbours(g, base, off, fl, p, q) ==>
      NoneBetween(test, base, off[p], off[q])
  }

  /** What the oracle accepts also passes the final check. */
  ghost predicate Confirmed(g: Gate, test: nat -> bool) {
    forall v: nat :: test(v) ==> g.bpsw(v)
  }

  /** One found pair without a hidden prime inside a qualifying gap: pair and truth report the
      same. */
  lemma PairAgrees(g: Gate, test: nat -> bool, base: nat, a: nat, b: nat)
    requires ValidGate(g) && base >= 2 && a < b && At(test, base, b)
    requires g.ln(base + a) > 0.0
    requires Qualifies(b - a, g.ln(base + a), g.minMerit) ==> NoneBetween(test, base, a, b)
    ensures Between(g, test, base, a, b) == Emit(g, base + a, base + b)
  {
    if Qualifies(b - a, g.ln(base + a), g.minMerit) {
      NothingBetween(test, base, a, b);
      ReportOne(g, base, (a, b));
    } else {
      InnerPairsFail(g, test, base, a, a, b);
      hide Between;
      assert (base + b) - (base + a) == b - a;
    }
  }

  /** With nothing hidden inside, the visible pairs report what the true pairs do. */
  lemma {:induction false} VisibleIsTrue(g: Gate, test: nat -> bool, base: nat, off: seq<nat>, p: nat, q: nat)
    requires ValidGate(g) && base >= 2 && Ascending(off) && p <= q < |off|
    requires At(test, base, off[p]) && At(test, base, off[q])
    requires NextFlag(Flags(Window(base, off), test), q + 1) == |off|
    requires NothingHiddenInside(g, test, base, off, Flags(Window(base, off), test), p)
    ensures off[p] <= off[q]
    ensures Report(g, base, ChainFrom(off, Flags(Window(base, off), test), 1, p))
            == Between(g, test, base, off[p], off[q])
    decreases q - p
  {
    var fl := Flags(Window(base, off), test);
    FlagIs(base, off, test, p);
    FlagIs(base, off, test, q);
    if p < q {
      var n := NextFlag(fl, p + 1);
      assert n <= q && fl[n];
      FlagIs(base, off, test, n);
      FewerFrom(g, test, base, off, fl, p, n);
      VisibleIsTrue(g, test, base, off, n, q);
      StepReport(g, base, off, fl, p, n);
      PositiveLogs(g);
      FoundPairAgrees(g, test, base, off, fl, p, n);
      hide *;
      BetweenSplit(g, test, base, off[p], off[n], off[q]);
    } else {
      ReportEnd(g, base, off, fl, p);
      BetweenSame(g, test, base, off[p]);
    }
  }

  lemma FewerFrom(g: Gate, test: nat -> bool, base: nat, off: seq<nat>, fl: seq<bool>, lo: nat, hi: nat)
    requires |off| == |fl| && lo <= hi && NothingHiddenInside(g, test, base, off, fl, lo)
    ensures NothingHiddenInside(g, test, base, off, fl, hi)
  {
    hide NoneBetween, QualifyingNeighbours;
  }

  lemma FoundPairAgrees(g: Gate, test: nat -> bool, base: nat, off: seq<nat>, fl: seq<bool>, p: nat, n: nat)
    requires ValidGate(g) && base >= 2 && Ascending(off) && |fl| == |off| && p < n < |off|
    requires fl[p] && fl[n] && NextFlag(fl, p + 1) == n && At(test, base, off[n])
    requires g.ln(base + off[p]) > 0.0 && NothingHiddenInside(g, test, base, off, fl, p)
    ensures Between(g, test, base, off[p], off[n]) == Emit(g, base + off[p], base + off[n])
  {
    hide Between, Emit, NoneBetween;
    if Qualifies(off[n] - off[p], g.ln(base + off[p]), g.minMerit) {
      assert QualifyingNeighbours(g, base, off, fl, p, n);
    }
    PairAgrees(g, test, base, off[p], off[n]);
  }

  /** A qualifying pair of found neighbours is reported by the jump branch. */
  lemma {:induction false} VisiblePairReported(g: Gate, base: nat, off: seq<nat>, fl: seq<bool>, lo: nat, p: nat,
                                               q: nat)
    requires |off| == |fl| && Ascending(off) && lo <= p < |fl| && fl[lo]
    requires QualifyingNeighbours(g, base, off, fl, p, q)
    requires g.bpsw(base + off[p]) && g.bpsw(base + off[q])
    ensures Gap(base + off[p], off[q] - off[p]) in Report(g, base, ChainFrom(off, fl, 1, lo))
    decreases p - lo
  {
    hide Emit, Qualifies, Report, ChainFrom;
    var n := NextFlag(fl, lo + 1);
    if lo < p {
      VisiblePairReported(g, base, off, fl, n, p, q);
      StepReport(g, base, off, fl, lo, n);
    } else {
      StepReport(g, base, off, fl, p, q);
      QualifyingEmits(g, base, off[p], off[q]);
    }
  }

  lemma QualifyingEmits(g: Gate, base: nat, a: nat, b: nat)
    requires a < b && g.ln(base + a) > 0.0 && Qualifies(b - a, g.ln(base + a), g.minMerit)
    requires g.bpsw(base + a) && g.bpsw(base + b)
    ensures Emit(g, base + a, base + b) == [Gap(base + a, b - a)]
  {
    assert (base + b) - (base + a) == b - a;
  }

  /** A true gap that starts at a reaches no further than the next accepted offset. */
  lemma {:induction false} TrueGapsAreShort(g: Gate, test: nat -> bool, base: nat, f: nat, l: nat, a: nat, o: nat,
                                            len: nat)
    requires a < o <= l && At(test, base, o) && Gap(base + a, len) in Between(g, test, base, f, l)
    ensures len <= o - a
    decreases l - f
  {
    if f < l {
      var n := NextTrue(test, base, f + 1, l);
      var s := TrueBetween(test, base, f, l);
      assert s[0] == (f, n) && s[1..] == TrueBetween(test, base, n, l);
      if Gap(base + a, len) in Emit(g, base + f, base + n) {
        NextIsNear(test, base, f, l, o);
      } else {
        TrueGapsAreShort(g, test, base, n, l, a, o, len);
      }
    } else {
      BetweenSame(g, test, base, f);
    }
  }

  lemma NextIsNear(test: nat -> bool, base: nat, f: nat, l: nat, o: nat)
    requires f < o <= l && At(test, base, o)
    ensures NextTrue(test, base, f + 1, l) <= o
  {
    hide At;
  }

  /** One scanned window: the chain over class-filtered candidates reports the true gaps between
      its first and its last found prime exactly when no accepted offset lies strictly inside a
      qualifying recorded pair. */
  lemma JumpOverClasses(g: Gate, r: Range, test: nat -> bool, off: seq<nat>)
    requires ValidGate(g) && r.base >= 2 && Ascending(off) && Confirmed(g, test)
    ensures var w := Window(r.base, off);
            JumpReport(g, w, test) == TwoPass(g, r.base, test, off, Flags(w, test))
            <==> NothingHiddenInside(g, test, r.base, off, Flags(w, test), 0)
  {
    var w := Window(r.base, off);
    var fl := Flags(w, test);
    JumpReportsTheFullScan(g, w, test);
    var f := NextFlag(fl, 0);
    if f < |fl| {
      FlagIs(r.base, off, test, f);
      Ends(r.base, test, off, f);
      var l := PrevFlag(fl, |fl|);
      TwoPassIs(g, r.base, test, off, fl, f, l, true);
      FirstReport(g, w, test, f);
      FlagIs(r.base, off, test, l);
      if NothingHiddenInside(g, test, r.base, off, fl, 0) {
        FewerFrom(g, test, r.base, off, fl, 0, f);
        VisibleIsTrue(g, test, r.base, off, f, l);
      } else {
        HiddenInside(g, test, r.base, off, f, l);
      }
    } else {
      hide Between;
      FirstReport(g, w, test, f);
      TwoPassIs(g, r.base, test, off, fl, 0, 0, false);
    }
  }

  lemma HiddenInside(g: Gate, test: nat -> bool, base: nat, off: seq<nat>, f: nat, l: nat)
    requires ValidGate(g) && base >= 2 && Ascending(off) && Confirmed(g, test) && f < |off| && l < |off|
    requires NextFlag(Flags(Window(base, off), test), 0) == f
    requires NextFlag(Flags(Window(base, off), test), l + 1) == |off|
    requires !NothingHiddenInside(g, test, base, off, Flags(Window(base, off), test), 0)
    ensures Report(g, base, ChainFrom(off, Flags(Window(base, off), test), 1, f))
            != Between(g, test, base, off[f], off[l])
  {
    hide *;
    var fl := Flags(Window(base, off), test);
    var p, q, o := SomeHidden(g, test, base, off, fl);
    NeighboursLie(g, base, off, fl, p, q, f, l);
    ConfirmedEnd(g, test, base, off, fl, p);
    ConfirmedEnd(g, test, base, off, fl, q);
    InventedGap(g, test, base, off, fl, f, l, p, q, o);
  }

  lemma SomeHidden(g: Gate, test: nat -> bool, base: nat, off: seq<nat>, fl: seq<bool>) returns (p: nat, q: nat, o: nat)
    requires |off| == |fl| && !NothingHiddenInside(g, test, base, off, fl, 0)
    ensures QualifyingNeighbours(g, base, off, fl, p, q) && q < |off| && p < |off|
    ensures off[p] < o < off[q] && At(test, base, o)
  {
    p, q :| QualifyingNeighbours(g, base, off, fl, p, q) && !NoneBetween(test, base, off[p], off[q]);
    o :| off[p] < o < off[q] && At(test, base, o);
  }

  lemma NeighboursLie(g: Gate, base: nat, off: seq<nat>, fl: seq<bool>, p: nat, q: nat, f: nat, l: nat)
    requires |off| == |fl| && Ascending(off) && QualifyingNeighbours(g, base, off, fl, p, q) && l < |off|
    requires NextFlag(fl, 0) == f && NextFlag(fl, l + 1) == |off|
    ensures f <= p < q <= l && fl[f] && fl[p] && fl[q] && off[q] <= off[l]
  {
  }

  lemma ConfirmedEnd(g: Gate, test: nat -> bool, base: nat, off: seq<nat>, fl: seq<bool>, p: nat)
    requires fl == Flags(Window(base, off), test) && Confirmed(g, test) && p < |fl| && fl[p]
    ensures g.bpsw(base + off[p])
  {
  }

  /** The recorded pair p, q is reported, and it is no true gap when o lies inside. */
  lemma InventedGap(g: Gate, test: nat -> bool, base: nat, off: seq<nat>, fl: seq<bool>, f: nat, l: nat, p: nat, q: nat,
                    o: nat)
    requires Ascending(off) && |fl| == |off| && f <= p < q <= l < |off| && fl[f] && off[q] <= off[l]
    requires g.bpsw(base + off[p]) && g.bpsw(base + off[q])
    requires QualifyingNeighbours(g, base, off, fl, p, q) && off[p] < o < off[q] && At(test, base, o)
    ensures Gap(base + off[p], off[q] - off[p]) in Report(g, base, ChainFrom(off, fl, 1, f))
    ensures Gap(base + off[p], off[q] - off[p]) !in Between(g, test, base, off[f], off[l])
  {
    hide *;
    NoTrueGap(g, test, base, off[f], off[l], off[p], off[q], o);
    VisiblePairReported(g, base, off, fl, f, p, q);
  }

  lemma NoTrueGap(g: Gate, test: nat -> bool, base: nat, f: nat, l: nat, a: nat, b: nat, o: nat)
    requires a < o < b <= l && At(test, base, o)
    ensures Gap(base + a, b - a) !in Between(g, test, base, f, l)
  {
    hide *;
    if Gap(base + a, b - a) in Between(g, test, base, f, l) {
      TrueGapsAreShort(g, test, base, f, l, a, o, b - a);
    }
  }

  // ------------------------------------------------------------------ whole flights

  /** The true gaps of the first k windows, between the first and the last found prime of each. */
  ghost function Truth(g: Gate, ws: seq<Window>, test: nat -> bool, k: nat): seq<Gap>
    requires k <= |ws|
  {
    if k == 0 then []
    else Truth(g, ws, test, k - 1) + TwoPass(g, ws[k - 1].base, test, ws[k - 1].off, Flags(ws[k - 1], test))
  }

  /** Windows of one scan length that do not overlap. */
  ghost predicate Spread(ws: seq<Window>, interval: nat) {
    && (forall i :: 0 <= i < |ws| ==> ws[i].base >= 2 && Ascending(ws[i].off))
    && (forall i, o :: 0 <= i < |ws| && o in ws[i].off ==> o < interval)
    && forall i, j :: 0 <= i < j < |ws| ==> ws[i].base + interval <= ws[j].base
  }

  ghost predicate StartsIn(s: seq<Gap>, lo: nat, hi: nat) {
    forall x :: x in s ==> lo <= x.start < hi
  }

  lemma {:induction false} ReportStarts(g: Gate, base: nat, s: seq<Pair>, interval: nat)
    requires forall x :: x in s ==> x.0 < interval
    ensures StartsIn(Report(g, base, s), base, base + interval)
  {
    if s != [] {
      assert s[0] in s;
      ReportStarts(g, base, s[1..], interval);
    }
  }

  /** What either side reports of a window starts inside it. */
  lemma WindowStarts(g: Gate, w: Window, test: nat -> bool, interval: nat)
    requires Ascending(w.off) && forall o :: o in w.off ==> o < interval
    ensures StartsIn(FullReport(g, w, test), w.base, w.base + interval)
    ensures StartsIn(TwoPass(g, w.base, test, w.off, Flags(w, test)), w.base, w.base + interval)
  {
    hide Report, Chain, StartsIn, TrueBetween;
    var fl := Flags(w, test);
    ChainStarts(w, fl, interval);
    ReportStarts(g, w.base, Chain(w.off, fl, 1), interval);
    var f, l := NextFlag(fl, 0), PrevFlag(fl, |fl|);
    if f < |fl| && l < |fl| {
      assert w.off[l] in w.off;
      PairsStartBefore(test, w.base, w.off[f], w.off[l]);
      ReportStarts(g, w.base, TrueBetween(test, w.base, w.off[f], w.off[l]), interval);
    }
    NothingStarts(w.base, interval);
  }

  lemma NothingStarts(lo: nat, interval: nat)
    ensures StartsIn([], lo, lo + interval)
  {
  }

  lemma ChainStarts(w: Window, fl: seq<bool>, interval: nat)
    requires Ascending(w.off) && |fl| == |w.off| && forall o :: o in w.off ==> o < interval
    ensures forall x :: x in Chain(w.off, fl, 1) ==> x.0 < interval
  {
    ChainIsExact(w.off, fl, 1);
    forall x | x in Chain(w.off, fl, 1) ensures x.0 < interval {
      var a: nat, b: nat :| WideNeighbours(w.off, fl, 1, a, b) && w.off[a] == x.0 && w.off[b] == x.1;
      assert w.off[a] in w.off;
    }
  }

  lemma {:induction false} EarlierStarts(g: Gate, ws: seq<Window>, test: nat -> bool, interval: nat, k: nat, j: nat)
    requires Spread(ws, interval) && k <= j < |ws|
    ensures StartsIn(FullReports(g, ws, test, k), 0, ws[j].base)
    ensures StartsIn(Truth(g, ws, test, k), 0, ws[j].base)
  {
    hide FullReport, TwoPass, Flags;
    if k > 0 {
      EarlierStarts(g, ws, test, interval, k - 1, j);
      WindowStarts(g, ws[k - 1], test, interval);
    }
  }

  /** Lists cut at a start value can be compared part by part. */
  lemma SplitAtStart(a: seq<Gap>, b: seq<Gap>, a': seq<Gap>, b': seq<Gap>, lo: nat, hi: nat)
    requires StartsIn(a, 0, lo) && StartsIn(a', 0, lo) && StartsIn(b, lo, hi) && StartsIn(b', lo, hi)
    ensures a + b == a' + b' <==> a == a' && b == b'
  {
    if a + b == a' + b' {
      ShorterFront(a, b, a', b', lo, hi);
      ShorterFront(a', b', a, b, lo, hi);
      assert a == (a + b)[..|a|] && b == (a + b)[|a|..];
      assert a' == (a' + b')[..|a|] && b' == (a' + b')[|a|..];
    }
  }

  lemma ShorterFront(a: seq<Gap>, b: seq<Gap>, a': seq<Gap>, b': seq<Gap>, lo: nat, hi: nat)
    requires StartsIn(a', 0, lo) && StartsIn(b, lo, hi) && a + b == a' + b'
    ensures |a'| <= |a|
  {
    var u := a + b;
    assert forall i :: 0 <= i < |a'| ==> u[i] == a'[i] && a'[i] in a' && u[i].start < lo;
    assert |a| < |u| ==> u[|a|] == b[0] && b[0] in b && u[|a|].start >= lo;
  }

  /** A scanned flight over filtered candidates reports the truth exactly when no window hides a
      prime inside a qualifying recorded pair. */
  lemma {:induction false} ScannedFlight(g: Gate, ws: seq<Window>, test: nat -> bool, interval: nat, k: nat)
    requires ValidGate(g) && Confirmed(g, test) && Spread(ws, interval) && k <= |ws|
    ensures FullReports(g, ws, test, k) == Truth(g, ws, test, k)
            <==> forall i :: 0 <= i < k ==>
                   NothingHiddenInside(g, test, ws[i].base, ws[i].off, Flags(ws[i], test), 0)
  {
    hide FullReport, TwoPass, Flags, NothingHiddenInside, StartsIn, ValidGate, Confirmed;
    if k > 0 {
      ScannedFlight(g, ws, test, interval, k - 1);
      var w := ws[k - 1];
      EarlierStarts(g, ws, test, interval, k - 1, k - 1);
      WindowStarts(g, w, test, interval);
      SplitAtStart(FullReports(g, ws, test, k - 1), FullReport(g, w, test), Truth(g, ws, test, k - 1),
                   TwoPass(g, w.base, test, w.off, Flags(w, test)), w.base, w.base + interval);
      WindowTrue(g, w, test);
    }
  }

  lemma WindowTrue(g: Gate, w: Window, test: nat -> bool)
    requires ValidGate(g) && Confirmed(g, test) && w.base >= 2 && Ascending(w.off)
    ensures FullReport(g, w, test) == TwoPass(g, w.base, test, w.off, Flags(w, test))
            <==> NothingHiddenInside(g, test, w.base, w.off, Flags(w, test), 0)
  {
    hide *;
    assert w == Window(w.base, w.off);
    SaneWindow(w);
    JumpOverClasses(g, Range(w.base, 0, 0, 0, true, false), test, w.off);
    JumpReportsTheFullScan(g, w, test);
  }

  lemma SaneWindow(w: Window)
    requires w.base >= 2 && Ascending(w.off)
    ensures Sane(w)
  {
  }

  /** One flight of the jump walk over class-filtered candidates reports the true gaps exactly
      when: scanned, no accepted offset lies strictly inside a qualifying recorded pair of its
      windows; not scanned, for want of a candidate, the pairs recorded before are silent. */
  lemma FilteredFlightExactlyWhen(g: Gate, ws: seq<Window>, test: nat -> bool, interval: nat, total: nat,
                                  walks: seq<JumpScan.Cursor>)
    requires ValidGate(g) && Confirmed(g, test) && Spread(ws, interval) && |walks| == |ws|
    requires total == 0 ==> forall i :: 0 <= i < |ws| ==> ws[i].off == []
    ensures FlightReport(g, ws, test, total, walks) == Truth(g, ws, test, |ws|)
            <==> if total > 0 then forall i :: 0 <= i < |ws| ==>
                   NothingHiddenInside(g, test, ws[i].base, ws[i].off, Flags(ws[i], test), 0)
                 else Silent(g, ws, walks, |ws|)
  {
    hide *;
    if total > 0 {
      ScannedFlight(g, ws, test, interval, |ws|);
      ScannedReport(g, ws, test, total, walks);
    } else {
      FlightReportExactlyWhen(g, ws, test, total, walks);
      NothingFound(g, ws, test, |ws|);
      NothingTrue(g, ws, test, |ws|);
    }
  }

  lemma ScannedReport(g: Gate, ws: seq<Window>, test: nat -> bool, total: nat, walks: seq<JumpScan.Cursor>)
    requires total > 0 && |walks| == |ws|
    ensures FlightReport(g, ws, test, total, walks) == FullReports(g, ws, test, |ws|)
  {
  }

  lemma {:induction false} NothingTrue(g: Gate, ws: seq<Window>, test: nat -> bool, k: nat)
    requires k <= |ws| && forall i :: 0 <= i < |ws| ==> ws[i].off == []
    ensures Truth(g, ws, test, k) == []
  {
    hide Between, ValidGate;
    if k > 0 {
      NothingTrue(g, ws, test, k - 1);
      assert NextFlag(Flags(ws[k - 1], test), 0) == 0;
    }
  }
}
