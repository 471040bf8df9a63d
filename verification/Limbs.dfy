/** Little-endian 64-bit limb arrays and the carry primitives of
    new_src/primality_limbs.c: multiply-accumulate rows, comparison, subtraction, modular
    doubling and R mod n. */
module Limbs {
  import opened NumberTheory
  import opened Bits

  const B: int := 0x1_0000_0000_0000_0000

  type Limb = x: int | 0 <= x < B

  /** B^k. */
  function BPow(k: nat): (r: int)
    ensures r >= 1
  {
    if k == 0 then 1 else B * BPow(k - 1)
  }

  /** The number a limb sequence stands for, least significant limb first. */
  function Val(s: seq<Limb>): (v: int)
    ensures v >= 0
  {
    if s == [] then 0 else Val(s[..|s| - 1]) + s[|s| - 1] * BPow(|s| - 1)
  }

  lemma ValAppend(s: seq<Limb>, x: Limb)
    ensures Val(s + [x]) == Val(s) + x * BPow(|s|)
  {
    assert (s + [x])[..|s|] == s;
  }

  lemma {:induction false} ValBound(s: seq<Limb>)
    ensures Val(s) < BPow(|s|)
  {
    if s != [] {
      ValBound(s[..|s| - 1]);
      var p := BPow(|s| - 1);
      MulLe(s[|s| - 1], B - 1, p);
      assert (B - 1) * p == B * p - p;
    }
  }

  lemma {:induction false} BPowAdd(i: nat, j: nat)
    ensures BPow(i + j) == BPow(i) * BPow(j)
  {
    if i > 0 {
      BPowAdd(i - 1, j);
      assert B * (BPow(i - 1) * BPow(j)) == (B * BPow(i - 1)) * BPow(j);
    }
  }

  lemma ScaleSum(p: int, v: int, x: int, q: int)
    ensures p * (v + x * q) == p * v + x * (p * q)
  {
    assert p * (x * q) == x * (p * q);
  }

  lemma {:induction false} ValConcat(s: seq<Limb>, t: seq<Limb>)
    ensures Val(s + t) == Val(s) + BPow(|s|) * Val(t)
  {
    if t == [] {
      assert s + t == s;
    } else {
      var k := |t| - 1;
      ValConcat(s, t[..k]);
      assert s + t == (s + t[..k]) + [t[k]];
      ValAppend(s + t[..k], t[k]);
      BPowAdd(|s|, k);
      ScaleSum(BPow(|s|), Val(t[..k]), t[k], BPow(k));
    }
  }

  /** Dropping the lowest limb divides by B. */
  lemma ValLow(s: seq<Limb>)
    requires s != []
    ensures Val(s) == s[0] + B * Val(s[1..])
  {
    assert s == [s[0]] + s[1..];
    ValConcat([s[0]], s[1..]);
    assert Val([s[0]]) == s[0] by { assert [s[0]] == [] + [s[0]]; ValAppend([], s[0]); }
    assert BPow(1) == B * BPow(0);
  }

  lemma {:induction false} ValZero(s: seq<Limb>)
    requires forall i :: 0 <= i < |s| ==> s[i] == 0
    ensures Val(s) == 0
  {
    if s != [] { ValZero(s[..|s| - 1]); }
  }

  lemma ProductBound(a: Limb, b: Limb)
    ensures 0 <= a * b <= (B - 1) * (B - 1)
  {
    MulLe(a, B - 1, b);
    MulLe(b, B - 1, B - 1);
    MulLe(0, a, b);
  }

  /** Add a 128-bit product-plus-carry p into the limb acc. */
  function MacOut(p: nat, acc: Limb): (r: (Limb, Limb))
    requires p <= (B - 1) * (B - 1) + (B - 1)
    ensures r.0 + B * r.1 == acc + p
  {
    var low := p % B;
    var high := p / B;
    var c := if acc + low >= B then 1 else 0;
    ((acc + low) % B, (high + c) % B)
  }

  /** Multiply-accumulate: low and high limb of acc + a * b + carry; nothing is lost. */
  function Mac(acc: Limb, a: Limb, b: Limb, carry: Limb): (r: (Limb, Limb))
    ensures r.0 + B * r.1 == acc + a * b + carry
  {
    ProductBound(a, b);
    MacOut(a * b + carry, acc)
  }

  /** One multiply-accumulate step of a row keeps the row equation. */
  lemma RowStep(v: int, c: int, o: int, x: int, y: int, p: int, accIn: int, yj: int, accOut: int, c': int)
    requires v + c * p == o + x * y
    requires accOut + B * c' == accIn + x * yj + c
    ensures (v + accOut * p) + c' * (B * p) == (o + accIn * p) + x * (y + yj * p)
  {
    assert (accOut + B * c') * p == (accIn + x * yj + c) * p;
    assert (accOut + B * c') * p == accOut * p + c' * (B * p);
    assert (accIn + x * yj + c) * p == accIn * p + (x * yj) * p + c * p;
    assert x * (y + yj * p) == x * y + (x * yj) * p;
  }

  /** t[off..] += x * y over |y| limbs, with the carry absorbed by the two limbs above. */
  method AddMulRow(t: array<Limb>, off: nat, x: Limb, y: array<Limb>)
    requires t != y && off + y.Length + 2 <= t.Length
    requires t[off + y.Length + 1] + 1 < B
    modifies t
    ensures Val(t[off..off + y.Length + 2]) == old(Val(t[off..off + y.Length + 2])) + x * Val(y[..])
    ensures forall k :: 0 <= k < t.Length && !(off <= k < off + y.Length + 2) ==> t[k] == old(t[k])
  {
    hide Val, BPow, Mac;
    var nl := y.Length;
    ghost var was := t[off..off + nl + 2];
    var c: Limb := 0;
    RowStart(t[off..off], was[..0], y[..0]);
    for j := 0 to nl
      invariant forall k :: 0 <= k < t.Length && !(off <= k < off + j) ==> t[k] == old(t[k])
      invariant Val(t[off..off + j]) + c * BPow(j) == Val(was[..j]) + x * Val(y[..j])
    {
      ghost var lowOut, cIn := t[off..off + j], c;
      var r := Mac(t[off + j], x, y[j], c);
      assert t[off + j] == was[j];
      RowStep(Val(lowOut), c, Val(was[..j]), x, Val(y[..j]), BPow(j), was[j], y[j], r.0, r.1);
      t[off + j], c := r.0, r.1;
      RowGrow(lowOut, was[..j], y[..j], r.0, was[j], y[j]);
      assert t[off..off + j + 1] == lowOut + [r.0];
      assert was[..j + 1] == was[..j] + [was[j]] && y[..j + 1] == y[..j] + [y[j]];
    }
    ghost var low, mid := t[off..off + nl], t[off..off + nl + 2];
    assert t[off + nl] == was[nl] && t[off + nl + 1] == was[nl + 1];
    assert mid == low + was[nl..];
    assert y[..nl] == y[..];
    AddTop(t, off + nl, c, low, was[..nl], was[nl], was[nl + 1], off);
    assert was == was[..nl] + [was[nl]] + [was[nl + 1]];
  }

  /** The carry of a row goes into the two limbs above it. */
  method AddTop(t: array<Limb>, at: nat, c: Limb, ghost low: seq<Limb>, ghost lowWas: seq<Limb>, ghost y: Limb,
                ghost y': Limb, ghost off: nat)
    requires off <= at && at + 2 <= t.Length && t[at + 1] + 1 < B
    requires low == t[off..at] && |lowWas| == |low| && t[at] == y && t[at + 1] == y'
    modifies t
    ensures t[off..at] == low
    ensures Val(t[off..at + 2]) - Val(low) == Val(lowWas + [y] + [y']) - Val(lowWas) + c * BPow(|low|)
    ensures forall k :: 0 <= k < t.Length && k != at && k != at + 1 ==> t[k] == old(t[k])
  {
    hide Val, BPow;
    var prev := t[at];
    t[at] := (t[at] + c) % B;
    t[at + 1] := t[at + 1] + (if t[at] < prev then 1 else 0);
    assert t[off..at + 2] == low + [t[at]] + [t[at + 1]];
    RowTop(low, lowWas, t[at], t[at + 1], y, y', c);
  }

  lemma RowStart(a: seq<Limb>, b: seq<Limb>, c: seq<Limb>)
    requires |a| == |b| == |c| == 0
    ensures Val(a) == Val(b) == Val(c) == 0 && BPow(0) == 1
  {
  }

  lemma RowGrow(a: seq<Limb>, b: seq<Limb>, c: seq<Limb>, x: Limb, y: Limb, z: Limb)
    requires |a| == |b| == |c|
    ensures Val(a + [x]) == Val(a) + x * BPow(|a|)
    ensures Val(b + [y]) == Val(b) + y * BPow(|a|)
    ensures Val(c + [z]) == Val(c) + z * BPow(|a|)
    ensures BPow(|a| + 1) == B * BPow(|a|)
  {
    ValAppend(a, x);
    ValAppend(b, y);
    ValAppend(c, z);
  }

  lemma RowTop(a: seq<Limb>, b: seq<Limb>, x: Limb, x': Limb, y: Limb, y': Limb, c: int)
    requires |a| == |b| && x + B * x' == y + B * y' + c
    ensures Val(a + [x] + [x']) - Val(a) == Val(b + [y] + [y']) - Val(b) + c * BPow(|a|)
  {
    var p := BPow(|a|);
    ValAppend(a, x);
    ValAppend(a + [x], x');
    ValAppend(b, y);
    ValAppend(b + [y], y');
    PowStep(|a|);
    hide *;
    RowTopArith(p, BPow(|a| + 1), B, x, x', y, y', c);
  }

  lemma PowStep(k: nat)
    ensures BPow(k + 1) == B * BPow(k)
  {
  }

  lemma RowTopArith(p: int, p': int, b: int, x: int, x': int, y: int, y': int, c: int)
    requires x + b * x' == y + b * y' + c && p' == b * p
    ensures x * p + x' * p' == y * p + y' * p' + c * p
  {
    assert x' * (b * p) == (b * x') * p && y' * (b * p) == (b * y') * p;
    assert (x + b * x') * p == x * p + (b * x') * p;
    assert (y + b * y' + c) * p == y * p + (b * y') * p + c * p;
  }

  /** The highest limb in which two numbers differ decides their order. */
  lemma {:induction false} TopDecides(s: seq<Limb>, t: seq<Limb>, i: nat)
    requires |s| == |t| && i < |s| && s[i + 1..] == t[i + 1..] && s[i] > t[i]
    ensures Val(s) > Val(t)
    decreases |s|
  {
    var k := |s| - 1;
    if i == k {
      ValBound(t[..k]);
      MulLe(t[k] + 1, s[k], BPow(k));
      assert (t[k] + 1) * BPow(k) == t[k] * BPow(k) + BPow(k);
    } else {
      assert s[k] == s[i + 1..][k - i - 1] == t[i + 1..][k - i - 1] == t[k];
      assert s[..k][i + 1..] == s[i + 1..][..k - i - 1];
      assert t[..k][i + 1..] == t[i + 1..][..k - i - 1];
      TopDecides(s[..k], t[..k], i);
    }
  }

  /** a[off..] >= b, comparing from the top limb down. */
  method GteN(a: array<Limb>, off: nat, b: array<Limb>) returns (g: bool)
    requires off + b.Length <= a.Length
    ensures g <==> Val(a[off..off + b.Length]) >= Val(b[..])
  {
    hide Val;
    ghost var x := a[off..off + b.Length];
    for i := b.Length downto 0
      invariant x[i..] == b[i..]
    {
      if a[off + i] > b[i] {
        TopDecides(x, b[..], i);
        return true;
      }
      if a[off + i] < b[i] {
        TopDecides(b[..], x, i);
        return false;
      }
      assert x[i..] == [x[i]] + x[i + 1..] && b[i..] == [b[i]] + b[i + 1..];
    }
    assert x == b[..];
    return true;
  }

  /** r = a[off..] - b over b.Length limbs; a final borrow is dropped. */
  method SubN(r: array<Limb>, a: array<Limb>, off: nat, b: array<Limb>) returns (ghost borrow: nat)
    requires r.Length == b.Length && off + b.Length <= a.Length
    requires r != b && (r == a ==> off == 0)
    modifies r
    ensures Val(r[..]) == old(Val(a[off..off + b.Length])) - Val(b[..]) + borrow * BPow(b.Length)
    ensures b[..] == old(b[..])
  {
    hide Val, BPow;
    ghost var was := a[off..off + b.Length];
    var c := 0;
    RowStart(r[..0], was[..0], b[..0]);
    for i := 0 to b.Length
      invariant 0 <= c <= 1
      invariant forall k :: i <= k < b.Length ==> a[off + k] == was[k]
      invariant Val(r[..i]) == Val(was[..i]) - Val(b[..i]) + c * BPow(i)
    {
      ghost var low, cIn := r[..i], c;
      var ai, bi := a[off + i], b[i];
      var d: Limb := (ai - bi) % B;
      var b1 := if ai < bi then 1 else 0;
      var d2: Limb := (d - c) % B;
      var b2 := if d < c then 1 else 0;
      BorrowStep(ai, bi, c);
      r[i] := d2;
      c := b1 + b2;
      RowGrow(low, was[..i], b[..i], d2, ai, bi);
      assert r[..i + 1] == low + [d2];
      assert was[..i + 1] == was[..i] + [was[i]] && b[..i + 1] == b[..i] + [b[i]];
      SubStep(BPow(i), ai, bi, cIn, d2, c);
    }
    borrow := c;
    assert r[..] == r[..b.Length] && was == was[..b.Length] && b[..] == b[..b.Length];
  }

  lemma BorrowStep(x: Limb, y: Limb, c: int)
    requires 0 <= c <= 1
    ensures var d := (x - y) % B;
            var b := (if x < y then 1 else 0) + (if d < c then 1 else 0);
            0 <= b <= 1 && (d - c) % B == x - y - c + b * B
  {
  }

  lemma SubStep(p: int, x: int, y: int, c: int, d: int, c': int)
    requires d == x - y - c + c' * B
    ensures d * p == x * p - y * p - c * p + c' * (B * p)
  {
    assert (x - y - c + c' * B) * p == x * p - y * p - c * p + (c' * B) * p;
  }

  /** a = 2a, returning the bit shifted out of the top limb. */
  method ShiftLeft(a: array<Limb>) returns (carry: nat)
    modifies a
    ensures carry <= 1
    ensures Val(a[..]) + carry * BPow(a.Length) == 2 * old(Val(a[..]))
  {
    hide Val, BPow, Or;
    ghost var was := a[..];
    carry := 0;
    RowStart(a[..0], was[..0], was[..0]);
    for i := 0 to a.Length
      invariant carry <= 1
      invariant forall k :: i <= k < a.Length ==> a[k] == was[k]
      invariant Val(a[..i]) + carry * BPow(i) == 2 * Val(was[..i])
    {
      ghost var low, cIn := a[..i], carry;
      var v := a[i];
      OrCarry(v, carry);
      a[i] := Or((v * 2) % B, carry);
      carry := v / 0x8000_0000_0000_0000;
      RowGrow(low, was[..i], was[..i], a[i], v, v);
      assert a[..i + 1] == low + [a[i]] && was[..i + 1] == was[..i] + [was[i]];
      DoubleStep(BPow(i), v, cIn, a[i], carry);
    }
    assert a[..a.Length] == a[..] && was[..a.Length] == was;
  }

  /** a = 2a mod n, in place. */
  method ModDbl(a: array<Limb>, n: array<Limb>)
    requires a != n && a.Length == n.Length && Val(a[..]) < Val(n[..])
    modifies a
    ensures Val(a[..]) < Val(n[..])
    ensures Val(a[..]) == (2 * old(Val(a[..]))) % Val(n[..])
  {
    hide Val, BPow;
    var nl := n.Length;
    ghost var r := 2 * Val(a[..]);
    var carry := ShiftLeft(a);
    ghost var twice := Val(a[..]);
    ValBound(a[..]);
    ValBound(n[..]);
    assert a[0..0 + nl] == a[..];
    var g := GteN(a, 0, n);
    CarryOut(carry, twice, BPow(nl), r, Val(n[..]));
    if carry != 0 || g {
      ghost var borrow := SubN(a, a, 0, n);
      ValBound(a[..]);
      BorrowIsCarry(Val(a[..]), r - Val(n[..]), borrow - carry, BPow(nl));
      DivModUnique(r, Val(n[..]), 1, r - Val(n[..]));
    } else {
      DivModUnique(r, Val(n[..]), 0, r);
    }
  }

  /** Or-ing a bit into a shifted limb adds it. */
  lemma OrCarry(v: Limb, c: nat)
    requires c <= 1
    ensures Or((v * 2) % B, c) == (v * 2) % B + c < B
  {
    var h := v % 0x8000_0000_0000_0000;
    assert (v * 2) % B == h * 2;
    assert Pow(2, 1) == 2;
    OrDisjoint(c, h, 1);
  }

  lemma DoubleStep(p: int, v: int, c: int, x: int, c': int)
    requires x + B * c' == 2 * v + c
    ensures x * p + c' * (B * p) == 2 * (v * p) + c * p
  {
    assert (x + B * c') * p == (2 * v + c) * p;
    assert (x + B * c') * p == x * p + c' * (B * p);
    assert (2 * v + c) * p == 2 * (v * p) + c * p;
  }

  /** A carry out of the top limb means the value is at least n. */
  lemma CarryOut(c: int, low: int, p: int, r: int, n: int)
    requires 0 <= c <= 1 && 0 <= low < p && r == low + c * p && n < p
    ensures c == 1 ==> r >= n
    ensures c == 0 ==> r == low
  {
  }

  /** Two numbers in [0, p) that differ by a multiple of p are equal. */
  lemma BorrowIsCarry(x: int, y: int, k: int, p: int)
    requires 0 <= x < p && 0 <= y < p && x == y + k * p
    ensures x == y
  {
    if k > 0 { MulLe(1, k, p); } else if k < 0 { MulLe(k, -1, p); }
  }
}
