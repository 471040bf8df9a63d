/** Consensus proof-of-work arithmetic of new_src/pow_q48.c: merit, difficulty and the
    rejection certificate, with 64-bit truncation and wrap-around written out. */
module Q48 {
  import opened NumberTheory
  import opened Bits
  import opened Q48Log

  const W: int := 0x1_0000_0000_0000_0000
  const LOG2E112: int := 0x171547652b82fe1777d0ffda0d23a

  // ---------------------------------------------------------------- the low 64 bits

  /** The low 64 bits of a value, or init when the value is not positive or they are all 0. */
  function Low64(value: int, init: nat): (r: nat)
    requires init < W
    ensures r < W
  {
    if value <= 0 || value % W == 0 then init else value % W
  }

  type Byte = x: int | 0 <= x < 256

  /** Minimal little-endian bytes of v (mpz_export with order -1 and size 1). */
  function Export(v: nat): seq<Byte> {
    if v == 0 then [] else [v % 256] + Export(v / 256)
  }

  function ByteVal(s: seq<Byte>): nat {
    if s == [] then 0 else s[0] + 256 * ByteVal(s[1..])
  }

  lemma {:induction false} ExportFaithful(v: nat)
    ensures ByteVal(Export(v)) == v && (v > 0 ==> |Export(v)| > 0)
  {
    if v > 0 {
      ExportFaithful(v / 256);
      assert Export(v)[1..] == Export(v / 256);
    }
  }

  lemma {:induction false} ExportShort(v: nat, k: nat)
    requires v < Pow(256, k)
    ensures |Export(v)| <= k
  {
    if v > 0 {
      assert k > 0;
      ExportShort(v / 256, k - 1);
    }
  }

  lemma {:induction false} ByteValAppend(s: seq<Byte>, x: Byte)
    ensures ByteVal(s + [x]) == ByteVal(s) + x * Pow(2, 8 * |s|)
    ensures ByteVal(s) < Pow(2, 8 * |s|)
  {
    if s == [] {
      assert s + [x] == [x];
      assert ByteVal([x][1..]) == 0;
    } else {
      ByteValAppend(s[1..], x);
      assert (s + [x])[1..] == s[1..] + [x];
      var p := Pow(2, 8 * (|s| - 1));
      Pow256();
      PowAdd(2, 8, 8 * (|s| - 1));
      assert 256 * (x * p) == x * (256 * p);
    }
  }

  lemma Pow256()
    ensures Pow(2, 8) == 256
  {
    assert Pow(2, 2) == 4;
    PowAdd(2, 2, 2);
    PowAdd(2, 4, 4);
  }

  lemma {:induction false} ByteValZeros(s: seq<Byte>, k: nat)
    requires k <= |s| && forall i :: k <= i < |s| ==> s[i] == 0
    ensures ByteVal(s) == ByteVal(s[..k])
  {
    if s != [] {
      if k > 0 {
        ByteValZeros(s[1..], k - 1);
        assert s[..k][1..] == s[1..][..k - 1];
      } else {
        ByteValZeros(s[1..], 0);
        assert s[1..][..0] == s[..0];
      }
    }
  }

  lemma WIs256Pow8()
    ensures Pow(256, 8) == W
  {
    assert Pow(256, 2) == 65536 by { assert Pow(256, 1) == 256 * Pow(256, 0); }
    PowAdd(256, 2, 2);
    PowAdd(256, 4, 4);
  }

  /** Little-endian byte buffer to number, byte by byte. */
  method Assemble(buf: array<Byte>) returns (r: nat)
    ensures r == ByteVal(buf[..])
  {
    hide Or, Pow, ByteVal;
    r := 0;
    assert ByteVal(buf[..0]) == 0 by { ByteValZeros(buf[..0], 0); EmptyBytes(buf[..0]); }
    for i := 0 to buf.Length
      invariant r == ByteVal(buf[..i])
    {
      ByteValAppend(buf[..i], buf[i]);
      OrDisjoint(r, buf[i], 8 * i);
      assert buf[..i + 1] == buf[..i] + [buf[i]];
      r := Or(r, buf[i] * Pow(2, 8 * i));
    }
    assert buf[..buf.Length] == buf[..];
  }

  lemma EmptyBytes(s: seq<Byte>)
    requires s == []
    ensures ByteVal(s) == 0
  {
  }

  /** q48_low64: the first bytes of a buffer that starts as init are overwritten with the bytes
      of value mod 2^64.  The callers pass init 0 or 1. */
  method Low64Bytes(value: int, init: nat) returns (r: nat)
    requires init < 256
    ensures r == Low64(value, init)
  {
    var buf := new Byte[8](i => if i == 0 then init else 0);
    hide Pow, ByteVal, Export;
    if value > 0 {
      var tmp := Export(value % W);
      ExportFaithful(value % W);
      WIs256Pow8();
      ExportShort(value % W, 8);
      for i := 0 to |tmp|
        invariant forall j :: 0 <= j < i ==> buf[j] == tmp[j]
        invariant forall j :: 1 <= j < 8 && j >= i ==> buf[j] == 0
        invariant i == 0 ==> buf[0] == init
      {
        buf[i] := tmp[i];
      }
      if |tmp| > 0 {
        assert buf[..][..|tmp|] == tmp;
        ByteValZeros(buf[..], |tmp|);
      }
      if value % W == 0 { ExportZero(); OneByte(buf[..]); }
    } else {
      OneByte(buf[..]);
    }
    r := Assemble(buf);
  }

  lemma ExportZero()
    ensures Export(0) == []
  {
  }

  lemma OneByte(s: seq<Byte>)
    requires |s| > 0 && forall i :: 1 <= i < |s| ==> s[i] == 0
    ensures ByteVal(s) == s[0]
  {
    ByteValZeros(s[1..], 0);
    EmptyBytes(s[1..][..0]);
  }

  // ------------------------------------------------------------------ node quantities

  function Merit(start: int, end: int): nat {
    if start <= 0 || end < 0 || end < start then 0
    else
      var l := Log2(start, 64);
      if l > 0 then Low64((end - start) * LOG2E112 / l, 0) else 0
  }

  /** The Q48 merit of a gap of 2: the exclusive bound of the random part. */
  function MinGapMerit(start: int): nat {
    if start <= 0 then 1
    else
      var l := Log2(start, 64);
      if l > 0 then Low64(2 * LOG2E112 / l, 1) else 1
  }

  /** rnd stands for the hash-derived pow_q48_rand(start, end). */
  function Difficulty(start: int, end: int, rnd: nat): nat {
    if start <= 0 || end < start then 0
    else
      var m := MinGapMerit(start);
      var modulus := if m == 0 then 1 else m;
      (Merit(start, end) + rnd % modulus) % W
  }

  datatype Verdict = Reject | Accept | Unknown

  function Classify(start: int, end: int, target: nat, rnd: nat): Verdict {
    if target == 0 then Unknown
    else if start <= 0 || end < start then Unknown
    else if Difficulty(start, end, rnd) >= target then Accept else Reject
  }

  function CeilDiv(a: int, b: int): int
    requires b > 0
  {
    (a + b - 1) / b
  }

  /** pow_q48_reject_bound; 0 means "no certificate". */
  function RejectBound(start: int, target: nat): nat {
    if target == 0 || start <= 0 then 0
    else
      var m := MinGapMerit(start);
      var needed := if target >= m then target - m + 1 else 0;
      var l := Log2(start, 64);
      if l > 0 then
        MulLe(0, l, needed);
        var b := CeilDiv(l * needed, LOG2E112);
        if b < 2 then 2 else b
      else 0
  }

  predicate SpanRejected(span: nat, bound: nat) {
    bound > 0 && span != W - 1 && bound > span
  }

  predicate SpanMayQualify(start: int, span: nat, target: nat) {
    target == 0 || start <= 0 || span == W - 1 || !SpanRejected(span, RejectBound(start, target))
  }

  // ------------------------------------------------------------------- the certificate

  lemma {:induction false} HiRange(src: nat, accuracy: nat, k: nat)
    requires src >= 1
    ensures (BitLength(src) - 1) * Two(k) <= After(src, accuracy, k).hi < BitLength(src) * Two(k)
  {
    hide Squared, Pow, Two, Step, BitLength;
    if k == 0 {
      TwoStep(0);
    } else {
      HiRange(src, accuracy, k - 1);
      TwoStep(k - 1);
      var s := After(src, accuracy, k - 1);
      StepHi(s, Two(Shift(src, accuracy)));
      DoubledRange(BitLength(src), Two(k - 1), s.hi);
    }
  }

  lemma StepHi(s: LogState, scale: int)
    requires scale >= 1
    ensures 2 * s.hi <= Step(s, scale).hi <= 2 * s.hi + 1
  {
    hide Squared;
  }

  lemma DoubledRange(bits: int, p: int, hi: int)
    requires (bits - 1) * p <= hi < bits * p
    ensures (bits - 1) * (2 * p) <= 2 * hi && 2 * hi + 1 < bits * (2 * p)
  {
    assert (bits - 1) * (2 * p) == 2 * ((bits - 1) * p) && bits * (2 * p) == 2 * (bits * p);
  }

  /** The whole part of the logarithm is the bit length less one.  From 2 on the logarithm is at
      least 2^64, so the random part's bound is never truncated. */
  lemma LogRange(start: nat)
    requires start >= 1
    ensures (BitLength(start) - 1) * W <= Log2(start, 64) < BitLength(start) * W
    ensures start >= 2 ==> Log2(start, 64) >= W
  {
    hide After, Pow;
    HiRange(start, 64, 64);
    Two64();
    if start >= 2 {
      assert BitLength(start) >= 2;
      MulLe(1, BitLength(start) - 1, W);
    }
  }

  lemma Two64()
    ensures Two(64) == W
  {
    WIs256Pow8();
    Pow256();
    PowPow(2, 8, 8);
  }

  lemma {:induction false} PowPow(b: int, e: nat, f: nat)
    ensures e * f >= 0 && Pow(Pow(b, e), f) == Pow(b, e * f)
  {
    if f > 0 {
      PowPow(b, e, f - 1);
      assert e * f == e + e * (f - 1);
      PowAdd(b, e, e * (f - 1));
    }
  }

  lemma DivRange(a: int, l: int)
    requires 0 <= a < W * W && l >= W
    ensures 0 <= a / l < W
  {
    if a / l >= W { MulLe(W, a / l, l); MulLe(W, l, W); }
  }

  lemma MinGapShrinks(start: nat, start': nat)
    requires 2 <= start <= start'
    ensures 1 <= MinGapMerit(start') <= MinGapMerit(start) < W
  {
    hide Log2;
    LogRange(start);
    LogRange(start');
    Log2Monotone(start, start', 64);
    DivRange(2 * LOG2E112, Log2(start, 64));
    DivRange(2 * LOG2E112, Log2(start', 64));
    QuotientShrinks(2 * LOG2E112, Log2(start, 64), Log2(start', 64));
    ModSmall(2 * LOG2E112 / Log2(start, 64), W);
    ModSmall(2 * LOG2E112 / Log2(start', 64), W);
  }

  /** The bound of the random part is the merit of a gap of 2, or 1 where that merit is 0: from a
      logarithm above 2 LOG2E112 on, and nowhere else. */
  lemma MinGapIsMeritOfTwo(start: nat)
    requires start >= 2
    ensures var m := Merit(start, start + 2);
            && MinGapMerit(start) == (if m > 0 then m else 1)
            && (m == 0 <==> Log2(start, 64) > 2 * LOG2E112)
    ensures MinGapMerit(start) == Merit(start, start + 2) <==> Log2(start, 64) <= 2 * LOG2E112
  {
    hide Log2;
    LogRange(start);
    var l := Log2(start, 64);
    DivRange(2 * LOG2E112, l);
    ModSmall(2 * LOG2E112 / l, W);
    QuotientZero(2 * LOG2E112, l);
  }

  lemma QuotientZero(a: int, l: int)
    requires a >= 0 && l >= 1
    ensures a / l == 0 <==> l > a
  {
  }

  /** That is so for every start of up to 2^49 bits, and for none of more than 2^50. */
  lemma MinGapForSizes(start: nat)
    requires start >= 2
    ensures BitLength(start) <= 0x2_0000_0000_0000 ==> MinGapMerit(start) == Merit(start, start + 2)
    ensures BitLength(start) > 0x4_0000_0000_0000 ==> MinGapMerit(start) == 1 && Merit(start, start + 2) == 0
  {
    hide Log2, MinGapMerit, Merit, BitLength;
    LogRange(start);
    MinGapIsMeritOfTwo(start);
  }

  lemma QuotientShrinks(a: int, l: int, l': int)
    requires a >= 0 && 1 <= l <= l'
    ensures 0 <= a / l' <= a / l
  {
    if a / l < a / l' {
      MulLe(a / l + 1, a / l', l');
      MulLe(l, l', a / l + 1);
    }
    DivNonNegative(a, l');
  }

  lemma Low64Below(v: int)
    requires v >= 0
    ensures Low64(v, 0) <= v
  {
    assert v % W <= v;
  }

  /** Ceiling and floor agree: g < ceil(l * x / c) exactly when floor(g * c / l) < x. */
  lemma CeilFloor(g: int, l: int, x: int, c: int)
    requires l >= 1 && c >= 1 && g >= 0 && x >= 0
    ensures g < CeilDiv(l * x, c) <==> g * c / l < x
  {
    var b := CeilDiv(l * x, c);
    var q := g * c / l;
    assert (b - 1) * c < l * x <= b * c by { assert b * c <= l * x + c - 1 < b * c + c; }
    assert q * l <= g * c < (q + 1) * l by { assert (q + 1) * l == q * l + l; }
    if g < b {
      MulLe(g, b - 1, c);
      if q >= x { MulLe(x, q, l); }
    } else {
      MulLe(b, g, c);
      if q < x { MulLe(q + 1, x, l); }
    }
  }

  /** The certificate is sound: a gap from 2 up to the bound computed at `start` is rejected
      at every later start, for every value of the hash, truncation and wrap included. */
  lemma CertificateIsSound(start: nat, target: nat, start': nat, gap: nat, rnd: nat)
    requires 0 < start <= start' && 0 < target < W
    requires 2 <= gap < RejectBound(start, target)
    ensures Difficulty(start', start' + gap, rnd) < target
    ensures Classify(start', start' + gap, target, rnd) == Reject
  {
    hide Log2, Low64, MinGapMerit, CeilDiv;
    if start == 1 { LogOfOne(); }
    LogRange(start);
    LogRange(start');
    Log2Monotone(start, start', 64);
    MinGapShrinks(start, start');
    var l, l', m, m' := Log2(start, 64), Log2(start', 64), MinGapMerit(start), MinGapMerit(start');
    var needed := if target >= m then target - m + 1 else 0;
    CeilFloor(gap, l, needed, LOG2E112);
    QuotientShrinks(gap * LOG2E112, l, l');
    Low64Below(gap * LOG2E112 / l');
    RandBelow(rnd, m');
    ModSmall(Merit(start', start' + gap) + rnd % m', W);
  }

  lemma RandBelow(rnd: nat, m: nat)
    requires m >= 1
    ensures 0 <= rnd % m <= m - 1
  {
  }

  lemma LogOfOne()
    ensures Log2(1, 64) == 0
  {
    OneStaysOne(64);
  }

  lemma {:induction false} OneStaysOne(k: nat)
    ensures After(1, 64, k) == LogState(Two(64), 0)
  {
    hide Pow, Two;
    assert BitLength(1) == 1;
    if k > 0 {
      OneStaysOne(k - 1);
      DivModUnique(Two(64) * Two(64), Two(64), Two(64), 0);
      DivModUnique(Two(64), Two(64), 1, 0);
    }
  }

  /** Neither the merit nor the difficulty of this gap leaves 64 bits. */
  predicate NoWrap(start: nat, gap: nat) {
    start >= 2 && (var l := Log2(start, 64); l > 0 && gap * LOG2E112 / l + MinGapMerit(start) - 1 < W)
  }

  /** Some value of the hash makes the node accept. */
  ghost predicate Acceptable(start: int, end: int, target: nat) {
    exists rnd: nat :: rnd < W && Classify(start, end, target, rnd) == Accept
  }

  /** The certificate is tight: without truncation or wrap, a gap of at least 2 can be accepted
      for some value of the hash exactly when it reaches the bound. */
  lemma CertificateIsTight(start: nat, target: nat, gap: nat)
    requires NoWrap(start, gap) && 0 < target < W && gap >= 2
    ensures Acceptable(start, start + gap, target) <==> gap >= RejectBound(start, target)
  {
    hide Classify, NoWrap, RejectBound, Log2;
    assert start >= 2 by { NoWrapStart(start, gap); }
    if gap >= RejectBound(start, target) {
      TopRandomAccepts(start, target, gap);
    } else {
      var end := start + gap;
      forall rnd: nat ensures Classify(start, end, target, rnd) == Reject {
        CertificateIsSound(start, target, start, gap, rnd);
      }
    }
  }

  lemma NoWrapStart(start: nat, gap: nat)
    requires NoWrap(start, gap)
    ensures start >= 2
  {
    hide Log2, MinGapMerit;
  }

  lemma TopRandomAccepts(start: nat, target: nat, gap: nat)
    requires NoWrap(start, gap) && 0 < target < W && gap >= 2
    requires gap >= RejectBound(start, target)
    ensures Acceptable(start, start + gap, target)
  {
    hide Log2, MinGapMerit, CeilDiv;
    MinGapShrinks(start, start);
    LogRange(start);
    var l, m := Log2(start, 64), MinGapMerit(start);
    var needed := if target >= m then target - m + 1 else 0;
    CeilFloor(gap, l, needed, LOG2E112);
    var q := gap * LOG2E112 / l;
    ModSmall(m - 1, m);
    Low64Exact(q);
    assert q >= 0 by { MulLe(0, gap, LOG2E112); DivNonNegative(gap * LOG2E112, l); }
    ModSmall(q + (m - 1), W);
    assert Classify(start, start + gap, target, m - 1) == Accept;
  }

  lemma DivNonNegative(a: int, d: int)
    requires a >= 0 && d >= 1
    ensures a / d >= 0
  {
  }

  lemma Low64Exact(q: int)
    requires q < W
    ensures Low64(q, 0) == if q <= 0 then 0 else q
  {
    if q > 0 { ModSmall(q, W); }
  }

  /** A rejected span rejects every gap inside it, at the region's start and beyond. */
  lemma RejectedSpansHideNothing(start: int, span: nat, target: nat, start': nat, gap: nat, rnd: nat)
    requires target < W && !SpanMayQualify(start, span, target)
    requires start <= start' && 2 <= gap <= span
    ensures Classify(start', start' + gap, target, rnd) == Reject
  {
    hide RejectBound, Classify;
    CertificateIsSound(start, target, start', gap, rnd);
  }

  /** Without truncation or wrap a span is skipped exactly when no gap inside it is acceptable at
      its start. */
  lemma SkippedExactlyWhen(start: nat, span: nat, target: nat)
    requires start >= 2 && NoWrap(start, span) && 0 < target < W && span < W - 1
    ensures !SpanMayQualify(start, span, target)
            <==> forall end: nat :: start + 2 <= end <= start + span ==> !Acceptable(start, end, target)
  {
    hide Classify, NoWrap, RejectBound, Log2;
    BoundAtLeastTwo(start, target);
    if !SpanMayQualify(start, span, target) {
      forall end: nat | start + 2 <= end <= start + span ensures !Acceptable(start, end, target) {
        NothingAcceptable(start, span, target, end - start);
      }
    } else {
      TopRandomAccepts(start, target, span);
      assert Acceptable(start, start + span, target);
    }
  }

  lemma NothingAcceptable(start: nat, span: nat, target: nat, gap: nat)
    requires target < W && !SpanMayQualify(start, span, target) && 2 <= gap <= span
    ensures !Acceptable(start, start + gap, target)
  {
    hide Classify, SpanMayQualify;
    var end := start + gap;
    forall rnd: nat ensures Classify(start, end, target, rnd) == Reject {
      RejectedSpansHideNothing(start, span, target, start, gap, rnd);
    }
  }

  lemma BoundAtLeastTwo(start: nat, target: nat)
    requires start >= 2 && 0 < target
    ensures RejectBound(start, target) >= 2
  {
    hide Log2, CeilDiv, MinGapMerit;
    LogRange(start);
  }
}
