/** Bitwise reading of natural numbers: disjunction, shifts and bit fields. */
module Bits {
  import opened NumberTheory

  /** Bitwise or. */
  function Or(a: nat, b: nat): nat {
    if a == 0 && b == 0 then 0
    else (if a % 2 == 1 || b % 2 == 1 then 1 else 0) + 2 * Or(a / 2, b / 2)
  }

  lemma {:induction false} OrZero(b: nat)
    ensures Or(0, b) == b && Or(b, 0) == b
  {
    if b > 0 { OrZero(b / 2); }
  }

  /** Or of fields that do not overlap is their sum. */
  lemma {:induction false} OrDisjoint(a: nat, c: nat, k: nat)
    requires a < Pow(2, k)
    ensures c * Pow(2, k) >= 0
    ensures Or(a, c * Pow(2, k)) == a + c * Pow(2, k)
    ensures Or(c * Pow(2, k), a) == a + c * Pow(2, k)
  {
    PowPositive(2, k);
    if k == 0 {
      OrZero(c);
    } else {
      var p := Pow(2, k - 1);
      assert c * (2 * p) == 2 * (c * p);
      MulLe(0, c, p);
      OrDisjoint(a / 2, c, k - 1);
      if a == 0 && c * p == 0 { OrZero(0); }
    }
  }

  /** Dividing twice by powers of two. */
  lemma ShiftShift(v: nat, a: nat, b: nat)
    ensures Pow(2, a) > 0 && Pow(2, b) > 0 && Pow(2, a + b) > 0
    ensures (v / Pow(2, a)) / Pow(2, b) == v / Pow(2, a + b)
  {
    PowPositive(2, a);
    PowPositive(2, b);
    PowAdd(2, a, b);
    var p, q := Pow(2, a), Pow(2, b);
    var x := v / p;
    var y := x / q;
    assert v == (y * q + x % q) * p + v % p;
    assert (y * q) * p == y * (p * q);
    assert (y * q + x % q) * p == (y * q) * p + (x % q) * p;
    MulLe(x % q, q - 1, p);
    assert (q - 1) * p == p * q - p;
    DivModUnique(v, p * q, y, (x % q) * p + v % p);
  }

  /** The number of binary digits of d (mpz_sizeinbase(d, 2) for d > 0). */
  function BitLength(d: nat): (b: nat)
    ensures d > 0 ==> b >= 1
  {
    if d == 0 then 0 else BitLength(d / 2) + 1
  }

  lemma {:induction false} BitLengthBounds(d: nat)
    requires d > 0
    ensures Pow(2, BitLength(d) - 1) <= d < Pow(2, BitLength(d))
  {
    if d > 1 { BitLengthBounds(d / 2); }
  }
}
