/** From processed indices to written gaps: what the runs of a history leave in their output
    files, window by window. */
module History {
  import opened Wrappers
  import opened GapChain
  import opened GapReport
  import opened Walk

  /** What a run writes: the report of each processed window, in the order of the log. */
  ghost function Written(report: nat -> seq<Gap>, log: seq<nat>): seq<Gap> {
    if log == [] then [] else Written(report, log[..|log| - 1]) + report(log[|log| - 1])
  }

  lemma {:induction false} WrittenMembers(report: nat -> seq<Gap>, log: seq<nat>, x: Gap)
    ensures x in Written(report, log) <==> exists i :: i in log && x in report(i)
  {
    if log != [] {
      var front, last := log[..|log| - 1], log[|log| - 1];
      WrittenMembers(report, front, x);
      assert log == front + [last];
      assert forall i :: i in log <==> i in front || i == last;
    }
  }

  /** The windows k0, k0 + 1, ..., k0 + n - 1 of a walk. */
  ghost function FlightWindows(window: nat -> Window, k0: nat, n: nat): (ws: seq<Window>)
    ensures |ws| == n && forall i :: 0 <= i < n ==> ws[i] == window(k0 + i)
  {
    seq(n, i requires 0 <= i => window(k0 + i))
  }

  /** The report of each window of a walk. */
  ghost function Reports(g: Gate, window: nat -> Window, prp: nat -> bool): (r: nat -> seq<Gap>)
    ensures forall i: nat :: r(i) == FullReport(g, window(i), prp)
  {
    (i: nat) => FullReport(g, window(i), prp)
  }

  /** What a flight appends is what its indices write. */
  lemma {:induction false} FlightWrites(g: Gate, window: nat -> Window, prp: nat -> bool, k0: nat, n: nat, k: nat)
    requires k <= n
    ensures FullReports(g, FlightWindows(window, k0, n), prp, k)
            == Written(Reports(g, window, prp), Range(k0, k))
  {
    hide FullReport;
    if k > 0 {
      FlightWrites(g, window, prp, k0, n, k - 1);
      assert Range(k0, k)[..k - 1] == Range(k0, k - 1);
    } else {
      assert Range(k0, 0) == [];
    }
  }

  /** Some run wrote x. */
  ghost predicate SomeRunWrote(report: nat -> seq<Gap>, logs: seq<seq<nat>>, x: Gap) {
    exists r :: 0 <= r < |logs| && x in Written(report, logs[r])
  }

  /** A whole history over unfiltered candidates, where every processed window writes its full
      report: each gap of a window from the first to the saved index was written by some run, with
      one undisturbed run each up to its limit, and no run wrote anything else. */
  method Hunt(runs: nat, first: nat, settings: nat -> Settings, envs: nat -> Environment, ghost g: Gate,
              ghost window: nat -> Window, ghost prp: nat -> bool)
    returns (disk: Option<nat>, logs: seq<seq<nat>>)
    requires first <= MAX_INDEX && forall r: nat :: settings(r).batch >= 1
    ensures |logs| == runs && forall r :: 0 <= r < runs ==> NoRepeat(logs[r])
    ensures disk.Some? ==> forall i: nat, x :: first <= i < disk.v && x in FullReport(g, window(i), prp) ==>
              SomeRunWrote(Reports(g, window, prp), logs, x)
    ensures forall r: nat, i: nat, x ::
              (r < runs && Undisturbed(settings(r), envs(r)) && first <= i < settings(r).kmax &&
               x in FullReport(g, window(i), prp)) ==> SomeRunWrote(Reports(g, window, prp), logs, x)
    ensures forall x :: SomeRunWrote(Reports(g, window, prp), logs, x) ==>
              exists i: nat :: first <= i && x in FullReport(g, window(i), prp)
  {
    hide FullReport, Written, NoRepeat, Undisturbed;
    disk, logs := Campaign(runs, first, settings, envs);
    ghost var report := Reports(g, window, prp);
    if disk.Some? {
      forall i: nat, x | first <= i < disk.v && x in FullReport(g, window(i), prp)
        ensures SomeRunWrote(report, logs, x)
      {
        assert Reported(logs, i);
        var r :| 0 <= r < |logs| && i in logs[r];
        WrittenMembers(report, logs[r], x);
      }
    }
    forall x | SomeRunWrote(report, logs, x) ensures exists i: nat :: first <= i && x in FullReport(g, window(i), prp) {
      var r :| 0 <= r < |logs| && x in Written(report, logs[r]);
      WrittenMembers(report, logs[r], x);
      var i :| i in logs[r] && x in report(i);
      assert first <= i;
    }
  }
}
