/** From window chains to reported gaps (gh_batch_process of new_src/gap_hunt.c): the exact
    merit gate, the two report paths, and the proof that they report the same gaps. */
module GapReport {
  import opened GapChain
  import opened Merit
  import JumpScan

  /** A reported gap: its first prime and its length. */
  datatype Gap = Gap(start: nat, len: int)

  /** What decides a report besides the pair itself: the logarithm, the merit bound and the
      final primality check of both endpoints. */
  datatype Gate = Gate(ln: nat -> real, minMerit: real, bpsw: nat -> bool)

  ghost predicate ValidGate(g: Gate) {
    IsLog(g.ln) && g.minMerit >= 0.0
  }

  /** What the gate lets through of one pair of values. */
  function Emit(g: Gate, p1: nat, p2: nat): seq<Gap> {
    if g.ln(p1) > 0.0 && Qualifies(p2 - p1, g.ln(p1), g.minMerit) && g.bpsw(p1) && g.bpsw(p2)
    then [Gap(p1, p2 - p1)] else []
  }

  ghost function Report(g: Gate, base: nat, s: seq<Pair>): seq<Gap> {
    if s == [] then []
    else Emit(g, base + s[0].0, base + s[0].1) + Report(g, base, s[1..])
  }

  lemma {:induction false} ReportConcat(g: Gate, base: nat, s: seq<Pair>, t: seq<Pair>)
    ensures Report(g, base, s + t) == Report(g, base, s) + Report(g, base, t)
  {
    hide Emit;
    if s == [] {
      assert s + t == t;
    } else {
      ReportConcat(g, base, s[1..], t);
      assert (s + t)[0] == s[0] && (s + t)[1..] == s[1..] + t;
      AssociateGaps(Emit(g, base + s[0].0, base + s[0].1), Report(g, base, s[1..]), Report(g, base, t));
    }
  }

  lemma AssociateGaps(a: seq<Gap>, b: seq<Gap>, c: seq<Gap>)
    ensures a + b + c == a + (b + c)
  {
  }

  lemma ReportOne(g: Gate, base: nat, x: Pair)
    ensures Report(g, base, [x]) == Emit(g, base + x.0, base + x.1)
  {
    hide Emit;
    assert Report(g, base, [x][1..]) == [];
  }

  lemma ReportNil(g: Gate, base: nat)
    ensures Report(g, base, []) == []
  {
  }

  lemma PositiveLogs(g: Gate)
    requires ValidGate(g)
    ensures forall v: nat :: v >= 2 ==> g.ln(v) > 0.0
  {
  }

  /** A window's offsets are ascending and its base leaves positive logarithms. */
  ghost predicate Sane(w: Window) {
    w.base >= 2 && Ascending(w.off)
  }

  /** The report of a scan of all classes: every neighbouring pair goes to the gate. */
  ghost function FullReport(g: Gate, w: Window, prp: nat -> bool): seq<Gap> {
    Report(g, w.base, Chain(w.off, Flags(w, prp), 1))
  }

  /** The report of the jump chain: only pairs of at least the window's step threshold do. */
  ghost function JumpReport(g: Gate, w: Window, prp: nat -> bool): seq<Gap> {
    Report(g, w.base, Chain(w.off, Flags(w, prp), StepThreshold(g.minMerit, g.ln(w.base))))
  }

  lemma ShortPairsFail(g: Gate, base: nat, a: nat, b: nat)
    requires ValidGate(g) && base >= 2 && a < b
    requires b - a < StepThreshold(g.minMerit, g.ln(base))
    ensures Emit(g, base + a, base + b) == []
  {
    if g.ln(base + a) > 0.0 && Qualifies(b - a, g.ln(base + a), g.minMerit) {
      QualifiesReachesStep(b - a, g.ln, base, base + a, g.minMerit);
    }
  }

  lemma {:induction false} ThresholdIrrelevantFrom(g: Gate, w: Window, fl: seq<bool>, thr: int, p: nat)
    requires ValidGate(g) && Sane(w) && |fl| == |w.off| && p < |fl|
    requires thr == StepThreshold(g.minMerit, g.ln(w.base))
    ensures Report(g, w.base, ChainFrom(w.off, fl, thr, p)) == Report(g, w.base, ChainFrom(w.off, fl, 1, p))
    decreases |fl| - p
  {
    hide Emit, ValidGate, StepThreshold;
    var q := NextFlag(fl, p + 1);
    if q < |fl| {
      ThresholdIrrelevantFrom(g, w, fl, thr, q);
      var a, b := w.off[p], w.off[q];
      ReportConcat(g, w.base, Gated(a, b, thr), ChainFrom(w.off, fl, thr, q));
      ReportConcat(g, w.base, Gated(a, b, 1), ChainFrom(w.off, fl, 1, q));
      ReportOne(g, w.base, (a, b));
      if b - a < thr { ShortPairsFail(g, w.base, a, b); }
    }
  }

  /** Re-gating the jump chain's pairs reports the same gaps, in the same order, as gating
      every neighbouring pair. */
  lemma JumpReportsTheFullScan(g: Gate, w: Window, prp: nat -> bool)
    requires ValidGate(g) && Sane(w)
    ensures JumpReport(g, w, prp) == FullReport(g, w, prp)
  {
    hide ValidGate, StepThreshold, Emit;
    var p := NextFlag(Flags(w, prp), 0);
    if p < |w.off| {
      ThresholdIrrelevantFrom(g, w, Flags(w, prp), StepThreshold(g.minMerit, g.ln(w.base)), p);
    }
  }

  /** The report of the first k windows under the full scan. */
  ghost function FullReports(g: Gate, ws: seq<Window>, prp: nat -> bool, k: nat): seq<Gap>
    requires k <= |ws|
  {
    if k == 0 then [] else FullReports(g, ws, prp, k - 1) + FullReport(g, ws[k - 1], prp)
  }

  lemma StepReport(g: Gate, base: nat, off: seq<nat>, fl: seq<bool>, p: nat, q: nat)
    requires |off| == |fl| && Ascending(off) && p < q < |fl| && fl[q] && NextFlag(fl, p + 1) >= q
    ensures Report(g, base, ChainFrom(off, fl, 1, p))
            == Emit(g, base + off[p], base + off[q]) + Report(g, base, ChainFrom(off, fl, 1, q))
  {
    hide Emit;
    assert NextFlag(fl, p + 1) == q;
    assert ChainFrom(off, fl, 1, p) == [(off[p], off[q])] + ChainFrom(off, fl, 1, q);
  }

  /** The scan branch of gh_batch_process for one window of all classes, given all verdicts. */
  method ProcessFullScan(g: Gate, w: Window, flags: seq<bool>, ghost prp: nat -> bool, out: seq<Gap>)
    returns (out': seq<Gap>)
    requires Ascending(w.off) && w.base >= 2 && flags == Flags(w, prp) && (forall v: nat :: v >= 2 ==> g.ln(v) > 0.0)
    ensures out' == out + FullReport(g, w, prp)
  {
    hide *;
    out' := out;
    var haveLast, last := false, 0;
    ghost var p: nat := 0;
    for j := 0 to |w.off|
      invariant !haveLast ==> NextFlag(flags, 0) >= j && out' == out
      invariant haveLast ==> p < j && last == w.base + w.off[p] && NextFlag(flags, p + 1) >= j
      invariant haveLast ==>
          out' + Report(g, w.base, ChainFrom(w.off, flags, 1, p)) == out + FullReport(g, w, prp)
    {
      if flags[j] {
        var p1 := w.base + w.off[j];
        if haveLast {
          StepReport(g, w.base, w.off, flags, p, j);
          EmitCase(g, last, p1);
          if Qualifies(p1 - last, g.ln(last), g.minMerit) && g.bpsw(p1) && g.bpsw(last) {
            out' := out' + [Gap(last, p1 - last)];
          }
        }
        if !haveLast { FirstReport(g, w, prp, j); }
        last, haveLast := p1, true;
        p := j;
      }
    }
    if haveLast { ReportEnd(g, w.base, w.off, flags, p); } else { FirstReport(g, w, prp, |flags|); }
  }

  lemma FirstReport(g: Gate, w: Window, prp: nat -> bool, j: nat)
    requires j <= |w.off| && NextFlag(Flags(w, prp), 0) >= j && (j < |w.off| ==> Flags(w, prp)[j])
    ensures j < |w.off| ==> FullReport(g, w, prp) == Report(g, w.base, ChainFrom(w.off, Flags(w, prp), 1, j))
    ensures j == |w.off| ==> FullReport(g, w, prp) == []
  {
    hide Emit;
    assert NextFlag(Flags(w, prp), 0) == j;
  }

  lemma ReportEnd(g: Gate, base: nat, off: seq<nat>, fl: seq<bool>, p: nat)
    requires |off| == |fl| && p < |fl| && NextFlag(fl, p + 1) >= |fl|
    ensures Report(g, base, ChainFrom(off, fl, 1, p)) == []
  {
  }

  lemma EmitCase(g: Gate, p1: nat, p2: nat)
    requires g.ln(p1) > 0.0
    ensures Emit(g, p1, p2) == if Qualifies(p2 - p1, g.ln(p1), g.minMerit) && g.bpsw(p2) && g.bpsw(p1)
                               then [Gap(p1, p2 - p1)] else []
  {
  }

  /** The jump branch of gh_batch_process for one window, given its recorded pairs. */
  method ProcessJump(g: Gate, w: Window, pairs: seq<Pair>, out: seq<Gap>) returns (out': seq<Gap>)
    requires w.base >= 2 && (forall v: nat :: v >= 2 ==> g.ln(v) > 0.0)
    ensures out' == out + Report(g, w.base, pairs)
  {
    hide Emit;
    out' := out;
    for j := 0 to |pairs|
      invariant out' == out + Report(g, w.base, pairs[..j])
    {
      var x := pairs[j];
      assert pairs[..j + 1] == pairs[..j] + [x];
      ReportConcat(g, w.base, pairs[..j], [x]);
      ReportOne(g, w.base, x);
      var p1, p2 := w.base + x.0, w.base + x.1;
      EmitCase(g, p1, p2);
      if Qualifies(p2 - p1, g.ln(p1), g.minMerit) {
        if g.bpsw(p1) && g.bpsw(p2) {
          out' := out' + [Gap(p1, p2 - p1)];
        }
      }
    }
    assert pairs[..|pairs|] == pairs;
  }

  /** What the recorded pairs of the first k windows report. */
  ghost function Recorded(g: Gate, ws: seq<Window>, walks: seq<JumpScan.Cursor>, k: nat): seq<Gap>
    requires k <= |ws| == |walks|
  {
    if k == 0 then [] else Recorded(g, ws, walks, k - 1) + Report(g, ws[k - 1].base, walks[k - 1].out)
  }

  /** Windows that hold their own chains report what the full scan reports. */
  lemma {:induction false} RecordedChains(g: Gate, s: JumpScan.Scan, walks: seq<JumpScan.Cursor>, k: nat)
    requires ValidGate(g) && s.ln == g.ln && s.minMerit == g.minMerit && s.Ready()
    requires k <= |s.windows| == |walks|
    requires forall i :: 0 <= i < k ==> s.windows[i].base >= 2 && walks[i].out == s.Answer(i)
    ensures Recorded(g, s.windows, walks, k) == FullReports(g, s.windows, s.prp, k)
  {
    hide Report, Chain, Flags, ValidGate;
    if k > 0 {
      RecordedChains(g, s, walks, k - 1);
      JumpReportsTheFullScan(g, s.windows[k - 1], s.prp);
    }
  }

  /** The candidates of a window hold every offset below the scan length whose value passes the
      final check: the sieve drops composites only. */
  ghost predicate KeepsAccepted(g: Gate, w: Window, interval: nat) {
    forall o: nat :: o < interval && g.bpsw(w.base + o) ==> o in w.off
  }

  /** Every recorded pair starts inside the scan length. */
  ghost predicate Inside(walks: seq<JumpScan.Cursor>, interval: nat) {
    forall i, x :: 0 <= i < |walks| && x in walks[i].out ==> x.0 < interval
  }

  /** The pair x of offsets is reported over a base. */
  ghost predicate Passes(g: Gate, base: nat, x: Pair) {
    Emit(g, base + x.0, base + x.1) != []
  }

  /** No recorded pair has both ends accepted over its window's base and reaches the gate. */
  ghost predicate Silent(g: Gate, ws: seq<Window>, walks: seq<JumpScan.Cursor>, k: nat)
    requires k <= |ws| == |walks|
  {
    forall i, x :: 0 <= i < k && x in walks[i].out ==> !Passes(g, ws[i].base, x)
  }

  lemma {:induction false} ReportNothing(g: Gate, base: nat, s: seq<Pair>)
    ensures Report(g, base, s) == [] <==> forall x :: x in s ==> !Passes(g, base, x)
  {
    hide Emit;
    if s != [] {
      var head, tail := s[0], s[1..];
      ReportNothing(g, base, tail);
      var e, rest := Emit(g, base + head.0, base + head.1), Report(g, base, tail);
      assert Report(g, base, s) == e + rest;
      assert |e + rest| == |e| + |rest|;
      assert Passes(g, base, head) <==> |e| > 0;
      assert s == [head] + tail;
      forall x ensures x in s <==> x == head || x in tail {}
    }
  }

  /** The recorded pairs report nothing exactly when they are silent. */
  lemma {:induction false} RecordedNothing(g: Gate, ws: seq<Window>, walks: seq<JumpScan.Cursor>, k: nat)
    requires k <= |ws| == |walks|
    ensures Recorded(g, ws, walks, k) == [] <==> Silent(g, ws, walks, k)
  {
    hide Report, Passes;
    if k > 0 {
      RecordedNothing(g, ws, walks, k - 1);
      ReportNothing(g, ws[k - 1].base, walks[k - 1].out);
    }
  }

  /** What a successful flight reports: the chains of its windows, or, when it has no candidate
      and so skips the scan, whatever was recorded before. */
  ghost function FlightReport(g: Gate, ws: seq<Window>, prp: nat -> bool, total: nat, walks: seq<JumpScan.Cursor>)
    : seq<Gap>
    requires |ws| == |walks|
  {
    if total > 0 then FullReports(g, ws, prp, |ws|) else Recorded(g, ws, walks, |ws|)
  }

  /** Without candidates nothing is found, so the flight reports the pairs of its candidates
      exactly when it was scanned or the pairs recorded before are silent. */
  lemma FlightReportExactlyWhen(g: Gate, ws: seq<Window>, prp: nat -> bool, total: nat, walks: seq<JumpScan.Cursor>)
    requires |ws| == |walks| && (total == 0 ==> forall i :: 0 <= i < |ws| ==> ws[i].off == [])
    ensures FlightReport(g, ws, prp, total, walks) == FullReports(g, ws, prp, |ws|)
            <==> total > 0 || Silent(g, ws, walks, |ws|)
  {
    hide Silent;
    if total == 0 {
      RecordedNothing(g, ws, walks, |ws|);
      NothingFound(g, ws, prp, |ws|);
    }
  }

  lemma {:induction false} NothingFound(g: Gate, ws: seq<Window>, prp: nat -> bool, k: nat)
    requires k <= |ws| && forall i :: 0 <= i < |ws| ==> ws[i].off == []
    ensures FullReports(g, ws, prp, k) == []
  {
    if k > 0 {
      NothingFound(g, ws, prp, k - 1);
      EmptyWindow(g, ws[k - 1], prp);
    }
  }

  /** Over unfiltered candidates the sieve drops composites only: where nothing survived, no
      offset passes the final check, and pairs recorded before are silent. */
  lemma UnfilteredIsSilent(g: Gate, ws: seq<Window>, walks: seq<JumpScan.Cursor>, interval: nat)
    requires |ws| == |walks| && Inside(walks, interval)
    requires forall i :: 0 <= i < |ws| ==> ws[i].off == [] && KeepsAccepted(g, ws[i], interval)
    ensures Silent(g, ws, walks, |ws|)
  {
    forall i, x | 0 <= i < |ws| && x in walks[i].out ensures !Passes(g, ws[i].base, x) {
      var o := x.0;
      assert o !in ws[i].off;
    }
  }

  lemma EmptyWindow(g: Gate, w: Window, prp: nat -> bool)
    requires w.off == []
    ensures FullReport(g, w, prp) == []
  {
  }

  /** A finished scan records offsets of its own candidates only. */
  lemma RecordedInside(s: JumpScan.Scan, walks: seq<JumpScan.Cursor>, interval: nat)
    requires s.Ready() && |walks| == |s.windows|
    requires forall i :: 0 <= i < |walks| ==> walks[i].out == s.Answer(i)
    requires forall i :: 0 <= i < |s.windows| ==> forall o :: o in s.windows[i].off ==> o < interval
    ensures Inside(walks, interval)
  {
    forall i, x | 0 <= i < |walks| && x in walks[i].out ensures x.0 < interval {
      var w := s.windows[i];
      ChainIsExact(w.off, s.Fl(i), s.Thr(i));
      var a: nat, b: nat :| WideNeighbours(w.off, s.Fl(i), s.Thr(i), a, b) && w.off[a] == x.0 && w.off[b] == x.1;
      assert w.off[a] in w.off;
    }
  }

  /** One flight of the jump walk, from filled windows to reports.  The scan, and with it the
      reset of the recorded pairs, is skipped when the flight has no candidate at all. */
  method JumpFlight(g: Gate, s: JumpScan.Scan, total: nat, ghost interval: nat, out: seq<Gap>)
    returns (ok: bool, out': seq<Gap>)
    requires ValidGate(g) && s.ln == g.ln && s.minMerit == g.minMerit
    requires s.Shape() && s.Filled() && s.Ready()
    requires forall i :: 0 <= i < |s.windows| ==> s.windows[i].base >= 2
    requires forall i :: 0 <= i < |s.windows| ==> forall o :: o in s.windows[i].off ==> o < interval
    requires total == 0 ==> forall i :: 0 <= i < |s.windows| ==> s.windows[i].off == []
    requires Inside(s.walk[..], interval)
    modifies s.walk, s.slots, s.flags
    ensures out' == if ok then out + FlightReport(g, s.windows, s.prp, total, old(s.walk[..])) else out
    ensures ok && (total == 0 ==> forall i :: 0 <= i < |s.windows| ==> KeepsAccepted(g, s.windows[i], interval)) ==>
              out' == out + FullReports(g, s.windows, s.prp, |s.windows|)
    ensures ok ==> Inside(s.walk[..], interval)
    ensures total == 0 ==> ok
    ensures |s.windows| <= 4096 && (forall i :: 0 <= i < |s.windows| ==> |s.Answer(i)| <= 128) ==>
              ok || exists r: nat :: !s.gpuOk(r)
  {
    hide Emit, JumpScan.Scan.Filled, JumpScan.Scan.Ready, Report, Flags, Chain, ValidGate, JumpScan.Scan.Answer,
      FullReports, KeepsAccepted, Inside, Silent;
    PositiveLogs(g);
    ok, out' := true, out;
    ghost var before := s.walk[..];
    if total > 0 {
      ok := s.Run();
      if !ok { return; }
      RecordedChains(g, s, s.walk[..], |s.windows|);
      RecordedInside(s, s.walk[..], interval);
    } else if forall i :: 0 <= i < |s.windows| ==> KeepsAccepted(g, s.windows[i], interval) {
      UnfilteredIsSilent(g, s.windows, before, interval);
      FlightReportExactlyWhen(g, s.windows, s.prp, total, before);
    }
    ghost var walks := s.walk[..];
    for i := 0 to |s.windows|
      invariant s.walk[..] == walks && out' == out + Recorded(g, s.windows, walks, i)
    {
      assert walks[i] == s.walk[i];
      ghost var r := Report(g, s.windows[i].base, walks[i].out);
      assert out + (Recorded(g, s.windows, walks, i) + r) == out + Recorded(g, s.windows, walks, i) + r;
      out' := ProcessJump(g, s.windows[i], s.walk[i].out, out');
    }
  }
}
