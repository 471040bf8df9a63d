/** The table of sieving primes for hidden classes (halfclass_init_hidden_primes of
    new_src/halfclass.c): an odd-only sieve. */
module HiddenPrimes {
  import opened NumberTheory
  import opened GapChain
  import HalfClass

  const TABLE_SIZE: nat := 10000

  /** The odd number m has an odd divisor below i that is at least 3 and at most its root. */
  ghost predicate Sifted(m: nat, i: nat) {
    exists d: nat :: 3 <= d < i && Sifts(d, m)
  }

  ghost predicate Sifts(d: nat, m: nat) {
    d > 0 && d % 2 == 1 && d * d <= m && m % d == 0
  }

  /** Only multiples of i from its square on are new when i joins the divisors. */
  lemma SiftedStep(m: nat, i: nat)
    requires i >= 3
    ensures Sifted(m, i + 1) <==> Sifted(m, i) || Sifts(i, m)
  {
    hide Sifts;
  }

  /** A composite i brings nothing new. */
  lemma CompositeBringsNothing(m: nat, i: nat)
    requires i >= 3 && Sifted(i, i) && Sifts(i, m)
    ensures Sifted(m, i)
  {
    var d: nat :| 3 <= d < i && Sifts(d, i);
    DividesThrough(m, i, d);
    MulLe(1, i, i);
    assert Sifts(d, m);
  }

  lemma DividesThrough(m: nat, i: nat, d: nat)
    requires d > 0 && i > 0 && i % d == 0 && m % i == 0
    ensures m % d == 0
  {
    var a, b := i / d, m / i;
    assert i == a * d && m == b * i;
    assert b * (a * d) == (b * a) * d;
    ModOfMultiple(b * a, d);
  }

  /** An even number brings nothing for odd numbers. */
  lemma EvenBringsNothing(m: nat, i: nat)
    requires i % 2 == 0
    ensures !Sifts(i, m)
  {
  }

  /** What the sieve leaves over is prime. */
  lemma UnsiftedIsPrime(m: nat, i: nat)
    requires m % 2 == 1 && m >= 3 && i * i > m
    ensures Prime(m) <==> !Sifted(m, i)
  {
    if Sifted(m, i) {
      var d: nat :| 3 <= d < i && Sifts(d, m);
      MulLt(1, d, d);
      assert m % d == 0 && d < m;
    } else {
      forall a | 2 <= a < m ensures m % a != 0 {
        if m % a == 0 { SmallDivisor(m, i, a); }
      }
    }
  }

  lemma SmallDivisor(m: nat, i: nat, a: nat)
    requires m % 2 == 1 && 2 <= a < m && m % a == 0 && i * i > m
    ensures Sifted(m, i)
  {
    var b := m / a;
    assert m == b * a;
    if b <= 1 { MulLe(b, 1, a); }
    ModOfMultiple(a, b);
    OddFactor(a, b);
    OddFactor(b, a);
    var d := if a <= b then a else b;
    MulLe(d, if a <= b then b else a, d);
    if d >= i { MulLe(i, d, i); MulLe(i, d, d); }
    assert Sifts(d, m);
  }

  lemma OddFactor(a: nat, b: nat)
    requires (b * a) % 2 == 1
    ensures a % 2 == 1
  {
    if a % 2 == 0 { CongMul(b, b, a, 0, 2); }
  }

  /** bits[k] stands for the odd number 2 k + 1. */
  ghost predicate SiftedUpTo(bits: seq<bool>, i: nat) {
    forall k :: 1 <= k < |bits| ==> (bits[k] <==> Sifted(2 * k + 1, i))
  }

  /** Odd multiples of an odd i lie 2 i apart. */
  lemma NextOddMultiple(i: nat, m: nat, k: nat)
    requires i % 2 == 1 && m % i == 0 && m % 2 == 1 && i * i <= m
    requires m < 2 * k + 1 < m + 2 * i
    ensures !Sifts(i, 2 * k + 1)
  {
    var q := m / i;
    assert m == q * i;
    var x := 2 * k + 1 - m;
    assert x % 2 == 0;
    if x < i {
      DivModUnique(2 * k + 1, i, q, x);
    } else {
      assert (q + 1) * i == q * i + i;
      DivModUnique(2 * k + 1, i, q + 1, x - i);
    }
  }

  /** i sifts the number of slot k. */
  ghost predicate SlotSifted(i: nat, k: nat) { Sifts(i, 2 * k + 1) }

  /** Mark the odd multiples of i from its square on. */
  method MarkOddMultiples(bits: array<bool>, limit: nat, i: nat)
    requires i >= 3 && i % 2 == 1 && bits.Length == (limit + 1) / 2
    modifies bits
    ensures forall k :: 1 <= k < bits.Length ==> (bits[k] <==> old(bits[k]) || SlotSifted(i, k))
  {
    hide Sifts, SlotSifted;
    ghost var was := bits[..];
    var m := i * i;
    ghost var u := StartAtSquare(i);
    while m <= limit
      invariant m == 2 * u + 1 && SlotSifted(i, u)
      invariant forall k :: 1 <= k < u && k < bits.Length ==> (bits[k] <==> was[k] || SlotSifted(i, k))
      invariant forall k :: u <= k < bits.Length ==> bits[k] == was[k]
      decreases limit + 1 - m
    {
      bits[m / 2] := true;
      NextSlot(i, u);
      m, u := m + 2 * i, u + i;
    }
  }

  lemma StartAtSquare(i: nat) returns (u: nat)
    requires i >= 3 && i % 2 == 1
    ensures i * i == 2 * u + 1 && SlotSifted(i, u) && u >= 1
    ensures forall k: nat :: k < u ==> !SlotSifted(i, k)
  {
    ModOfMultiple(i, i);
    var h := i / 2;
    u := 2 * (h * h) + 2 * h;
    assert i * i == 2 * u + 1;
  }

  lemma NextSlot(i: nat, u: nat)
    requires i >= 3 && i % 2 == 1 && SlotSifted(i, u)
    ensures SlotSifted(i, u + i)
    ensures forall k: nat :: u < k < u + i ==> !SlotSifted(i, k)
  {
    ModAddMul(2 * u + 1, 2, i);
    forall k: nat | u < k < u + i ensures !SlotSifted(i, k) { NextOddMultiple(i, 2 * u + 1, k); }
  }

  /** x stands in the table, or the table is full of smaller ones. */
  ghost predicate Listed(primes: seq<nat>, x: nat) {
    x in primes || (|primes| == TABLE_SIZE && forall y :: y in primes ==> y < x)
  }

  /** halfclass_init_hidden_primes: the odd primes up to the limit, ascending, as many as the table
      holds. */
  method InitHiddenPrimes(limit: nat) returns (primes: seq<nat>)
    ensures Ascending(primes) && |primes| <= TABLE_SIZE
    ensures forall x :: x in primes ==> Prime(x) && 3 <= x <= limit
    ensures forall x: nat :: 3 <= x <= limit && Prime(x) ==> Listed(primes, x)
  {
    hide Sifts, Sifted, SlotSifted, SiftedUpTo;
    var bits := new bool[(limit + 1) / 2](_ => false);
    NothingSifted(bits[..]);
    var i := 3;
    while i * i <= limit
      invariant i >= 3 && i % 2 == 1 && SiftedUpTo(bits[..], i)
      decreases limit + 1 - i
    {
      WithinRoot(i, limit);
      ghost var was := bits[..];
      var composite := bits[i / 2];
      if !composite { MarkOddMultiples(bits, limit, i); }
      RoundAll(was, bits[..], i, composite);
      i := i + 2;
    }
    primes := Collect(bits, limit, i);
  }

  lemma NothingSifted(bits: seq<bool>)
    requires forall k :: 0 <= k < |bits| ==> !bits[k]
    ensures SiftedUpTo(bits, 3)
  {
  }

  lemma RoundAll(was: seq<bool>, bits: seq<bool>, i: nat, composite: bool)
    requires |was| == |bits| && i >= 3 && i % 2 == 1 && i / 2 < |was| && composite == was[i / 2]
    requires SiftedUpTo(was, i) && (composite ==> bits == was)
    requires !composite ==> forall k :: 1 <= k < |bits| ==> (bits[k] <==> was[k] || SlotSifted(i, k))
    ensures SiftedUpTo(bits, i + 2)
  {
    hide Sifts, Sifted, SlotSifted;
    assert 2 * (i / 2) + 1 == i;
    forall k | 1 <= k < |bits| ensures bits[k] <==> Sifted(2 * k + 1, i + 2) {
      RoundDone(k, i, composite, was[k]);
    }
  }

  lemma WithinRoot(i: nat, limit: nat)
    requires i >= 3 && i * i <= limit
    ensures 2 * (i / 2) + 1 <= limit && i < limit
  {
    MulLe(3, i, i);
  }

  lemma RoundDone(k: nat, i: nat, composite: bool, was: bool)
    requires i >= 3 && i % 2 == 1 && (was <==> Sifted(2 * k + 1, i)) && (composite <==> Sifted(i, i))
    ensures Sifted(2 * k + 1, i + 2) <==> was || (!composite && SlotSifted(i, k))
  {
    SiftedStep(2 * k + 1, i);
    SiftedStep(2 * k + 1, i + 1);
    EvenBringsNothing(2 * k + 1, i + 1);
    if composite && Sifts(i, 2 * k + 1) { CompositeBringsNothing(2 * k + 1, i); }
  }

  method Collect(bits: array<bool>, limit: nat, root: nat) returns (primes: seq<nat>)
    requires bits.Length == (limit + 1) / 2 && root * root > limit && SiftedUpTo(bits[..], root)
    ensures Ascending(primes) && |primes| <= TABLE_SIZE
    ensures forall x :: x in primes ==> Prime(x) && 3 <= x <= limit
    ensures forall x: nat :: 3 <= x <= limit && Prime(x) ==> Listed(primes, x)
  {
    hide Prime, Sifted;
    primes := [];
    var i := 3;
    while i <= limit && |primes| < TABLE_SIZE
      invariant i >= 3 && i % 2 == 1 && Ascending(primes) && |primes| <= TABLE_SIZE
      invariant forall x :: x in primes ==> Prime(x) && 3 <= x <= limit && x < i
      invariant forall x: nat :: 3 <= x < i && x <= limit && Prime(x) ==> x in primes
      decreases limit + 2 - i
    {
      assert i == 2 * (i / 2) + 1;
      UnsiftedIsPrime(i, root);
      EvenIsNotPrime(i + 1);
      AscendingAppend(primes, i);
      if !bits[i / 2] { primes := primes + [i]; }
      i := i + 2;
    }
  }

  lemma EvenIsNotPrime(x: nat)
    requires x > 2 && x % 2 == 0
    ensures !Prime(x)
  {
  }

  /** The program's table is fit for the mini-sieve. */
  method Table() returns (primes: seq<nat>)
    ensures HalfClass.SieveTable(primes)
    ensures forall x: nat :: 3 <= x <= HalfClass.SIEVE_LIMIT && Prime(x) ==> Listed(primes, x)
  {
    primes := InitHiddenPrimes(HalfClass.SIEVE_LIMIT);
    assert forall k :: 0 <= k < |primes| ==> primes[k] in primes;
  }
}
