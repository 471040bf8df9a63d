/** Instances for the jump walk over class-filtered candidates, with proven primes: one window
    where it reports a false gap, and an empty flight where it reports a pair again that an
    earlier flight recorded. */
module QuarterInstances {
  import opened NumberTheory
  import opened GapChain
  import opened Merit
  import opened GapReport
  import opened HalfClass
  import opened QuarterJump
  import JumpScan
  import HiddenPrimes

  // ------------------------------------------------------------------ six primes

  /** No odd number from 3 to d divides m. */
  predicate NoOddDivisor(m: int, d: int)
    decreases d
  {
    if d < 3 then true else if m % d == 0 then false else NoOddDivisor(m, d - 2)
  }

  lemma {:induction false} NotSifted(m: nat, d: nat)
    requires d % 2 == 1 && NoOddDivisor(m, d)
    ensures !HiddenPrimes.Sifted(m, d + 1)
  {
    if d >= 3 { NotSifted(m, d - 2); }
  }

  lemma PrimeBySieve(m: nat)
    requires 3 <= m < 334 * 334 && m % 2 == 1 && NoOddDivisor(m, 333)
    ensures Prime(m)
  {
    NotSifted(m, 333);
    HiddenPrimes.UnsiftedIsPrime(m, 334);
  }

  lemma TrialA()
    ensures NoOddDivisor(104233, 333)
  {
    assert NoOddDivisor(104233, 23);
    assert NoOddDivisor(104233, 43);
    assert NoOddDivisor(104233, 63);
    assert NoOddDivisor(104233, 83);
    assert NoOddDivisor(104233, 103);
    assert NoOddDivisor(104233, 123);
    assert NoOddDivisor(104233, 143);
    assert NoOddDivisor(104233, 163);
    assert NoOddDivisor(104233, 183);
    assert NoOddDivisor(104233, 203);
    assert NoOddDivisor(104233, 223);
    assert NoOddDivisor(104233, 243);
    assert NoOddDivisor(104233, 263);
    assert NoOddDivisor(104233, 283);
    assert NoOddDivisor(104233, 303);
    assert NoOddDivisor(104233, 323);
  }

  lemma TrialB()
    ensures NoOddDivisor(104239, 333)
  {
    assert NoOddDivisor(104239, 23);
    assert NoOddDivisor(104239, 43);
    assert NoOddDivisor(104239, 63);
    assert NoOddDivisor(104239, 83);
    assert NoOddDivisor(104239, 103);
    assert NoOddDivisor(104239, 123);
    assert NoOddDivisor(104239, 143);
    assert NoOddDivisor(104239, 163);
    assert NoOddDivisor(104239, 183);
    assert NoOddDivisor(104239, 203);
    assert NoOddDivisor(104239, 223);
    assert NoOddDivisor(104239, 243);
    assert NoOddDivisor(104239, 263);
    assert NoOddDivisor(104239, 283);
    assert NoOddDivisor(104239, 303);
    assert NoOddDivisor(104239, 323);
  }

  lemma TrialC()
    ensures NoOddDivisor(104281, 333)
  {
    assert NoOddDivisor(104281, 23);
    assert NoOddDivisor(104281, 43);
    assert NoOddDivisor(104281, 63);
    assert NoOddDivisor(104281, 83);
    assert NoOddDivisor(104281, 103);
    assert NoOddDivisor(104281, 123);
    assert NoOddDivisor(104281, 143);
    assert NoOddDivisor(104281, 163);
    assert NoOddDivisor(104281, 183);
    assert NoOddDivisor(104281, 203);
    assert NoOddDivisor(104281, 223);
    assert NoOddDivisor(104281, 243);
    assert NoOddDivisor(104281, 263);
    assert NoOddDivisor(104281, 283);
    assert NoOddDivisor(104281, 303);
    assert NoOddDivisor(104281, 323);
  }

  lemma TrialD()
    ensures NoOddDivisor(111043, 333)
  {
    assert NoOddDivisor(111043, 23);
    assert NoOddDivisor(111043, 43);
    assert NoOddDivisor(111043, 63);
    assert NoOddDivisor(111043, 83);
    assert NoOddDivisor(111043, 103);
    assert NoOddDivisor(111043, 123);
    assert NoOddDivisor(111043, 143);
    assert NoOddDivisor(111043, 163);
    assert NoOddDivisor(111043, 183);
    assert NoOddDivisor(111043, 203);
    assert NoOddDivisor(111043, 223);
    assert NoOddDivisor(111043, 243);
    assert NoOddDivisor(111043, 263);
    assert NoOddDivisor(111043, 283);
    assert NoOddDivisor(111043, 303);
    assert NoOddDivisor(111043, 323);
  }

  lemma TrialE()
    ensures NoOddDivisor(111049, 333)
  {
    assert NoOddDivisor(111049, 23);
    assert NoOddDivisor(111049, 43);
    assert NoOddDivisor(111049, 63);
    assert NoOddDivisor(111049, 83);
    assert NoOddDivisor(111049, 103);
    assert NoOddDivisor(111049, 123);
    assert NoOddDivisor(111049, 143);
    assert NoOddDivisor(111049, 163);
    assert NoOddDivisor(111049, 183);
    assert NoOddDivisor(111049, 203);
    assert NoOddDivisor(111049, 223);
    assert NoOddDivisor(111049, 243);
    assert NoOddDivisor(111049, 263);
    assert NoOddDivisor(111049, 283);
    assert NoOddDivisor(111049, 303);
    assert NoOddDivisor(111049, 323);
  }

  lemma TrialF()
    ensures NoOddDivisor(111091, 333)
  {
    assert NoOddDivisor(111091, 23);
    assert NoOddDivisor(111091, 43);
    assert NoOddDivisor(111091, 63);
    assert NoOddDivisor(111091, 83);
    assert NoOddDivisor(111091, 103);
    assert NoOddDivisor(111091, 123);
    assert NoOddDivisor(111091, 143);
    assert NoOddDivisor(111091, 163);
    assert NoOddDivisor(111091, 183);
    assert NoOddDivisor(111091, 203);
    assert NoOddDivisor(111091, 223);
    assert NoOddDivisor(111091, 243);
    assert NoOddDivisor(111091, 263);
    assert NoOddDivisor(111091, 283);
    assert NoOddDivisor(111091, 303);
    assert NoOddDivisor(111091, 323);
  }

  /** An oracle that accepts six primes, three in each of two windows. */
  function Oracle(v: nat): bool {
    v == 104233 || v == 104239 || v == 104281 || v == 111043 || v == 111049 || v == 111091
  }

  function OneGate(): Gate { Gate(v => 1.0, 48.0, Oracle) }

  lemma OracleIsRough()
    ensures Rough(Oracle)
  {
    PrimeBySieve(104233) by { TrialA(); }
    PrimeBySieve(104239) by { TrialB(); }
    PrimeBySieve(104281) by { TrialC(); }
    PrimeBySieve(111043) by { TrialD(); }
    PrimeBySieve(111049) by { TrialE(); }
    PrimeBySieve(111091) by { TrialF(); }
    forall v: nat | v > SIEVE_LIMIT && Oracle(v) ensures !HasSmallFactor(v) { assert Prime(v); }
  }

  lemma GateIsFair()
    ensures ValidGate(OneGate()) && Confirmed(OneGate(), Oracle)
  {
  }

  // ------------------------------------------------------------------ a scanned window

  /** In the first window the first and the last prime are of a visible class, the one between
      them is of a hidden class. */
  function FirstRange(): Range { Range(100136, 6000, 4096, 5000, true, false) }

  function FirstWindow(): Window { Window(100136, [4097, 4145]) }

  /** The filtered jump walk reports a gap of 48 between two primes that have a prime between
      them; the truth has no such gap. */
  lemma FilteredJumpInvents()
    ensures ValidGate(OneGate()) && Rough(Oracle) && Confirmed(OneGate(), Oracle)
    ensures Covers(FirstRange(), FirstWindow().off, Oracle)
    ensures Gap(104233, 48) in JumpReport(OneGate(), FirstWindow(), Oracle)
    ensures Gap(104233, 48)
            !in TwoPass(OneGate(), 100136, Oracle, FirstWindow().off, Flags(FirstWindow(), Oracle))
  {
    OracleIsRough();
    GateIsFair();
    var g, w, off := OneGate(), FirstWindow(), FirstWindow().off;
    var fl := Flags(w, Oracle);
    FirstFlags(fl);
    FirstSetting(fl);
    hide *;
    InventedGap(g, Oracle, 100136, off, fl, 0, 1, 0, 1, 4103);
    JumpReportsTheFullScan(g, w, Oracle);
    FirstReport(g, w, Oracle, 0);
    TwoPassIs(g, 100136, Oracle, off, fl, 0, 1, true);
  }

  lemma FirstSetting(fl: seq<bool>)
    requires fl == Flags(FirstWindow(), Oracle)
    ensures Covers(FirstRange(), FirstWindow().off, Oracle) && Ascending(FirstWindow().off)
    ensures FirstWindow().base == 100136 && |FirstWindow().off| == 2
    ensures FirstWindow().off[0] == 4097 && FirstWindow().off[1] == 4145
    ensures Sane(FirstWindow()) && At(Oracle, 100136, 4103)
    ensures OneGate().bpsw(104233) && OneGate().bpsw(104281)
    ensures |fl| == 2 && QualifyingNeighbours(OneGate(), 100136, FirstWindow().off, fl, 0, 1)
  {
    assert (100136 + 4103) % 60 == 19;
  }

  lemma FirstFlags(fl: seq<bool>)
    requires fl == Flags(FirstWindow(), Oracle)
    ensures |fl| == 2 && fl[0] && fl[1] && NextFlag(fl, 0) == 0 && NextFlag(fl, 1) == 1 && NextFlag(fl, 2) == 2
    ensures PrevFlag(fl, 2) == 1
  {
  }

  // ------------------------------------------------------------------ an empty flight

  /** 6810 further on, an odd multiple of 30, all three primes are of hidden classes. */
  function SecondRange(): Range { Range(106946, 6000, 4096, 5000, true, false) }

  function SecondWindow(): Window { Window(106946, []) }

  /** What the scan of the first window recorded. */
  function OldPairs(): seq<JumpScan.Cursor> {
    [JumpScan.Cursor(JumpScan.Done, 0, 0, 0, 0, 1, [(4097, 4145)])]
  }

  /** The pair that the first window leaves behind is its own chain. */
  lemma OldPairsAreRecorded()
    ensures Chain(FirstWindow().off, Flags(FirstWindow(), Oracle), 48) == OldPairs()[0].out
  {
    var fl := Flags(FirstWindow(), Oracle);
    FirstFlags(fl);
    assert ChainFrom(FirstWindow().off, fl, 48, 1) == [];
    assert ChainFrom(FirstWindow().off, fl, 48, 0) == [(4097, 4145)];
  }

  /** A flight with the second window only has no candidate.  It reports the old pair over the
      new base: a gap of 48 between two primes that have a prime between them. */
  lemma EmptyFlightInvents()
    ensures ValidGate(OneGate()) && Rough(Oracle) && Confirmed(OneGate(), Oracle)
    ensures Covers(SecondRange(), SecondWindow().off, Oracle) && At(Oracle, 106946, 4103)
    ensures NothingHiddenInside(OneGate(), Oracle, 106946, [], Flags(SecondWindow(), Oracle), 0)
    ensures FlightReport(OneGate(), [SecondWindow()], Oracle, 0, OldPairs()) == [Gap(111043, 48)]
    ensures Truth(OneGate(), [SecondWindow()], Oracle, 1) == []
  {
    OracleIsRough();
    GateIsFair();
    NothingTrue(OneGate(), [SecondWindow()], Oracle, 1);
    SecondSetting();
    hide Rough, Truth;
    var g, x := OneGate(), (4097, 4145);
    ReportOne(g, 106946, x);
    assert Emit(g, 111043, 111091) == [Gap(111043, 48)];
    assert Recorded(g, [SecondWindow()], OldPairs(), 0) == [];
  }

  lemma SecondSetting()
    ensures Covers(SecondRange(), SecondWindow().off, Oracle)
  {
    assert (106946 + 4097) % 60 == 43 && (106946 + 4103) % 60 == 49 && (106946 + 4145) % 60 == 31;
  }
}
