/** The meaning of a window scan: which pairs of neighbouring probable primes of one window
    are far enough apart.  Both walks of new_src/gap_hunt.c (the full scan and the jump
    chain) are measured against `Chain`. */
module GapChain {

  /** One window of a flight: its base value and its ascending survivor offsets. */
  datatype Window = Window(base: nat, off: seq<nat>)

  type Pair = (nat, nat)

  predicate Ascending(s: seq<nat>) {
    forall i, j :: 0 <= i < j < |s| ==> s[i] < s[j]
  }

  lemma AscendingAppend(s: seq<nat>, x: nat)
    requires Ascending(s) && forall o :: o in s ==> o < x
    ensures Ascending(s + [x])
  {
    assert forall i :: 0 <= i < |s| ==> s[i] in s;
  }

  /** The verdict of the primality oracle on every candidate of a window. */
  function Flags(w: Window, prp: nat -> bool): (fl: seq<bool>)
    ensures |fl| == |w.off|
    ensures forall j :: 0 <= j < |fl| ==> fl[j] == prp(w.base + w.off[j])
  {
    seq(|w.off|, j requires 0 <= j < |w.off| => prp(w.base + w.off[j]))
  }

  /** First flagged index at or after i, or |fl| when there is none. */
  function NextFlag(fl: seq<bool>, i: nat): (r: nat)
    requires i <= |fl|
    ensures i <= r <= |fl|
    ensures r < |fl| ==> fl[r]
    ensures forall j :: i <= j < r ==> !fl[j]
    decreases |fl| - i
  {
    if i == |fl| || fl[i] then i else NextFlag(fl, i + 1)
  }

  function Gated(a: nat, b: nat, thr: int): seq<Pair> {
    if b - a >= thr then [(a, b)] else []
  }

  /** The wide neighbouring pairs to the right of the flagged index p, in order. */
  function ChainFrom(off: seq<nat>, fl: seq<bool>, thr: int, p: nat): seq<Pair>
    requires |off| == |fl| && p < |fl|
    decreases |fl| - p
  {
    var q := NextFlag(fl, p + 1);
    if q == |fl| then [] else Gated(off[p], off[q], thr) + ChainFrom(off, fl, thr, q)
  }

  function Chain(off: seq<nat>, fl: seq<bool>, thr: int): seq<Pair>
    requires |off| == |fl|
  {
    var p := NextFlag(fl, 0);
    if p == |fl| then [] else ChainFrom(off, fl, thr, p)
  }

  /** p and q are flagged neighbours whose offsets differ by at least thr. */
  ghost predicate WideNeighbours(off: seq<nat>, fl: seq<bool>, thr: int, p: nat, q: nat)
    requires |off| == |fl|
  {
    p < q < |fl| && fl[p] && fl[q] && (forall j :: p < j < q ==> !fl[j]) && off[q] - off[p] >= thr
  }

  /** x is the offset pair of some wide neighbours at index lo or later. */
  ghost predicate IsWidePair(off: seq<nat>, fl: seq<bool>, thr: int, lo: nat, x: Pair)
    requires |off| == |fl|
  {
    exists a: nat, b: nat ::
      lo <= a && WideNeighbours(off, fl, thr, a, b) && off[a] == x.0 && off[b] == x.1
  }

  ghost predicate InOrder(s: seq<Pair>) {
    forall i, j :: 0 <= i < j < |s| ==> s[i].1 <= s[j].0
  }

  lemma {:induction false} ChainFromMembers(off: seq<nat>, fl: seq<bool>, thr: int, p: nat, x: Pair)
    requires |off| == |fl| && p < |fl| && fl[p]
    ensures x in ChainFrom(off, fl, thr, p) <==> IsWidePair(off, fl, thr, p, x)
    decreases |fl| - p
  {
    var q := NextFlag(fl, p + 1);
    if q < |fl| {
      ChainFromMembers(off, fl, thr, q, x);
      if x in Gated(off[p], off[q], thr) {
        assert WideNeighbours(off, fl, thr, p, q);
      }
      forall a: nat, b: nat | p <= a && WideNeighbours(off, fl, thr, a, b)
        ensures q <= a || (a == p && b == q)
      {
      }
    }
  }

  lemma {:induction false} ChainFromInOrder(off: seq<nat>, fl: seq<bool>, thr: int, p: nat)
    requires |off| == |fl| && p < |fl| && fl[p] && Ascending(off)
    ensures InOrder(ChainFrom(off, fl, thr, p))
    ensures forall x :: x in ChainFrom(off, fl, thr, p) ==> off[p] <= x.0 < x.1
    decreases |fl| - p
  {
    var q := NextFlag(fl, p + 1);
    if q < |fl| {
      ChainFromInOrder(off, fl, thr, q);
    }
  }

  /** Chain lists exactly the wide neighbouring pairs, left to right, each once. */
  lemma ChainIsExact(off: seq<nat>, fl: seq<bool>, thr: int)
    requires |off| == |fl| && Ascending(off)
    ensures forall x :: x in Chain(off, fl, thr) <==> IsWidePair(off, fl, thr, 0, x)
    ensures InOrder(Chain(off, fl, thr))
    ensures forall x :: x in Chain(off, fl, thr) ==> x.0 < x.1
  {
    var p := NextFlag(fl, 0);
    if p < |fl| {
      ChainFromInOrder(off, fl, thr, p);
      forall x ensures x in Chain(off, fl, thr) <==> IsWidePair(off, fl, thr, 0, x) {
        ChainFromMembers(off, fl, thr, p, x);
        forall a: nat, b: nat | WideNeighbours(off, fl, thr, a, b) ensures p <= a {}
      }
    }
  }

  /** The jump: from a flagged p straight to any flagged m less than thr away, nothing is lost. */
  lemma {:induction false} JumpLosesNothing(off: seq<nat>, fl: seq<bool>, thr: int, p: nat, m: nat)
    requires |off| == |fl| && Ascending(off)
    requires p <= m < |fl| && fl[p] && fl[m]
    requires off[m] - off[p] < thr
    ensures ChainFrom(off, fl, thr, p) == ChainFrom(off, fl, thr, m)
    decreases m - p
  {
    if p < m {
      var q := NextFlag(fl, p + 1);
      assert q <= m;
      assert off[p] < off[q] && (q < m ==> off[q] < off[m]);
      JumpLosesNothing(off, fl, thr, q, m);
    }
  }

  /** Nothing is left once no offset reaches thr beyond p. */
  lemma {:induction false} TailTooShort(off: seq<nat>, fl: seq<bool>, thr: int, p: nat)
    requires |off| == |fl| && Ascending(off) && p < |fl|
    requires forall j :: p < j < |off| ==> off[j] - off[p] < thr
    ensures ChainFrom(off, fl, thr, p) == []
    decreases |fl| - p
  {
    var q := NextFlag(fl, p + 1);
    if q < |fl| {
      assert off[p] < off[q];
      TailTooShort(off, fl, thr, q);
    }
  }
}
