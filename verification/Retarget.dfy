// Difficulty retargeting over the bignum, with the main network's constants.
module Retarget {
  import opened Arith
  import opened Bytes
  import opened Limbs
  import opened Bignum
  import opened Work

  const HSK_BITS: uint32 := 0x1c00_ffff
  const TARGET_SPACING: nat := 10 * 60
  const TARGET_TIMESPAN: nat := 144 * TARGET_SPACING
  const MIN_ACTUAL: nat := TARGET_TIMESPAN / 4
  const MAX_ACTUAL: nat := TARGET_TIMESPAN * 4

  // The proof-of-work limit, as stored: 0xffff followed by 25 zero bytes.
  const HSK_LIMIT: bytes := [0, 0, 0, 0, 0, 0xff, 0xff] + seq(25, i => 0)

  function Limit(): nat {
    Shl(0xffff, 25)
  }

  lemma LimitValue()
    ensures |HSK_LIMIT| == 32 && BE(HSK_LIMIT) == Limit()
  {
    var head: bytes := [0, 0, 0, 0, 0, 0xff, 0xff];
    ZeroTail(head, 25);
    ZerosBE(head, 5);
    BENext(head, 5);
    BENext(head, 6);
    assert head[..7] == head;
  }

  lemma {:induction false} ZeroTail(s: bytes, k: nat)
    ensures BE(s + seq(k, i => 0)) == Shl(BE(s), k)
  {
    var t := s + seq(k, i => 0);
    if k == 0 {
      assert t == s;
    } else {
      assert t[..|t| - 1] == s + seq(k - 1, i => 0);
      ZeroTail(s, k - 1);
    }
  }

  // Unsigned 64-bit subtraction read as a signed number: the difference of the times if
  // they are less than 2^63 apart, and in any case modulo 2^64.
  function SignedDifference(last: uint64, first: uint64): (d: int)
    ensures -0x8000_0000_0000_0000 <= d < 0x8000_0000_0000_0000
    ensures -0x8000_0000_0000_0000 <= last - first < 0x8000_0000_0000_0000 ==> d == last - first
    ensures (d - (last - first)) % 0x1_0000_0000_0000_0000 == 0
  {
    var d := (last - first) % 0x1_0000_0000_0000_0000;
    if d < 0x8000_0000_0000_0000 then d else d - 0x1_0000_0000_0000_0000
  }

  function Clamped(actual: int): (r: nat)
    ensures MIN_ACTUAL <= r <= MAX_ACTUAL
  {
    if actual < MIN_ACTUAL then MIN_ACTUAL else if actual > MAX_ACTUAL then MAX_ACTUAL else actual
  }

  function Distance(x: int, y: int): nat {
    if x < y then y - x else x - y
  }

  // The time used is the nearest to the actual one that is allowed.
  lemma ClampedNearest(actual: int, v: int)
    requires MIN_ACTUAL <= v <= MAX_ACTUAL && v != Clamped(actual)
    ensures Distance(Clamped(actual), actual) < Distance(v, actual)
  {
    assert MIN_ACTUAL <= Clamped(actual) <= MAX_ACTUAL;
  }

  // From the scaled difference of work to bits, with subtraction modulo m.
  function BitsOver(x: nat, top: nat, m: nat, limit: nat): nat
    requires m > 0
  {
    if x == 0 then HSK_BITS
    else
      var t := (Quotient(top, x) - 1) % m;
      if t > limit then HSK_BITS else Encode(t)
  }

  function BitsFor(x: nat): nat {
    BitsOver(x, P256(32), Modulus(), Limit())
  }

  function Quotient(a: nat, b: nat): nat
    requires b > 0
  {
    a / b
  }

  lemma QuotientIs(a: nat, b: nat)
    requires b > 0
    ensures b * Quotient(a, b) <= a < b * Quotient(a, b) + b
  {
  }

  function RetargetOver(firstWork: nat, firstTime: uint64, lastWork: nat, lastTime: uint64,
                        top: nat, m: nat, limit: nat): nat
    requires m > 0
  {
    var diff := (lastWork - firstWork) % m;
    BitsOver(Quotient(diff * TARGET_SPACING % m, Clamped(SignedDifference(lastTime, firstTime))), top, m, limit)
  }

  function RetargetBits(firstWork: nat, firstTime: uint64, lastWork: nat, lastTime: uint64): nat {
    RetargetOver(firstWork, firstTime, lastWork, lastTime, P256(32), Modulus(), Limit())
  }

  lemma RetargetIs(firstWork: nat, firstTime: uint64, lastWork: nat, lastTime: uint64, diff: nat, scaled: nat, actual: nat, x: nat, bits: nat)
    requires diff == (lastWork - firstWork) % Modulus() && scaled == diff * TARGET_SPACING % Modulus()
    requires actual == Clamped(SignedDifference(lastTime, firstTime)) && x == Quotient(scaled, actual) && bits == BitsFor(x)
    ensures bits == RetargetBits(firstWork, firstTime, lastWork, lastTime)
  {
  }

  method RetargetWindow(firstWork: bytes, firstTime: uint64, lastWork: bytes, lastTime: uint64) returns (bits: nat)
    requires |firstWork| == |lastWork| == 32
    ensures bits == RetargetBits(BE(firstWork), firstTime, BE(lastWork), lastTime)
  {
    var target, last, spacing := new limb[SIZE], new limb[SIZE], new limb[SIZE];
    FromArray(target, firstWork);
    FromArray(last, lastWork);
    FromInt(spacing, TARGET_SPACING);
    ghost var first, end := BE(firstWork), BE(lastWork);
    Sub(last, target, target);
    ghost var diff := V(target[..]);
    Mul(target, spacing, target);
    ghost var scaled := V(target[..]);
    var actual := SignedDifference(lastTime, firstTime);
    if actual < MIN_ACTUAL {
      actual := MIN_ACTUAL;
    }
    if actual > MAX_ACTUAL {
      actual := MAX_ACTUAL;
    }
    assert diff == (end - first) % Modulus() && scaled == diff * TARGET_SPACING % Modulus();
    bits := BitsOverTime(target, actual);
    RetargetIs(first, firstTime, end, lastTime, diff, scaled, actual, Quotient(scaled, actual), bits);
  }

  method BitsOverTime(target: Bn, actual: nat) returns (bits: nat)
    requires target.Length == SIZE && MIN_ACTUAL <= actual <= MAX_ACTUAL
    modifies target
    ensures bits == BitsFor(Quotient(old(V(target[..])), actual))
  {
    var divisor := new limb[SIZE];
    FromInt(divisor, actual);
    Div(target, divisor, target);
    bits := BitsOfWork(target);
  }

  predicate Before(t: nat, q: nat, m: nat) {
    m > 0 && t == (q - 1) % m
  }

  method Dec(target: Bn, one: Bn, ghost q: nat)
    requires target.Length == one.Length == SIZE && target != one && V(target[..]) == q && V(one[..]) == 1
    modifies target
    ensures Before(V(target[..]), q, Modulus())
  {
    Sub(target, one, target);
  }

  lemma BitsOverIs(x: nat, q: nat, t: nat, bits: nat, top: nat, m: nat, limit: nat)
    requires x != 0 && m > 0 && Quot(q, top, x) && Before(t, q, m)
    requires bits == if t > limit then HSK_BITS else Encode(t)
    ensures bits == BitsOver(x, top, m, limit)
  {
  }

  method BitsOfWork(target: Bn) returns (bits: nat)
    requires target.Length == SIZE
    modifies target
    ensures bits == BitsFor(old(V(target[..])))
  {
    ghost var x := V(target[..]);
    var zero := IsZero(target);
    if zero {
      return HSK_BITS;
    }
    bits := BitsOfQuotient(target, x);
  }

  // The same for work above zero.
  method BitsOfQuotient(target: Bn, ghost x: nat) returns (bits: nat)
    requires target.Length == SIZE && V(target[..]) == x > 0
    modifies target
    ensures bits == BitsFor(x)
  {
    var one, max := new limb[SIZE], new limb[SIZE];
    FromInt(one, 1);
    TwoTo256(max);
    ghost var top := V(max[..]);
    DivInto(max, target, top, x);
    ghost var q := V(target[..]);
    Dec(target, one, q);
    ghost var t := V(target[..]);
    bits := BitsUpToLimit(target);
    BitsOverIs(x, q, t, bits, top, Modulus(), Limit());
  }

  method BitsUpToLimit(target: Bn) returns (bits: nat)
    requires target.Length == SIZE
    ensures bits == if V(target[..]) > Limit() then HSK_BITS else Encode(V(target[..]))
  {
    var limit := new limb[SIZE];
    LimitValue();
    FromArray(limit, HSK_LIMIT);
    var cmp := Cmp(target, limit);
    if cmp > 0 {
      return HSK_BITS;
    }
    var data := ToArray(target);
    LimitFits(V(target[..]));
    bits := ToBits(data);
  }

  lemma LimitFits(t: nat)
    requires t <= Limit()
    ensures t < P256(32) && t % P256(32) == t
  {
    LimitValue();
    BEBound(HSK_LIMIT);
    ModCarry(t, t, 0, P256(32));
  }

  // ----- What retargeting guarantees along a chain -----

  // Spacing over clamped time is at most 1/36.
  lemma ScaledWork(diff: nat, actual: nat, top: nat)
    requires diff < top && MIN_ACTUAL <= actual
    ensures 32 * Quotient(diff * TARGET_SPACING, actual) <= top
  {
    var x := Quotient(diff * TARGET_SPACING, actual);
    QuotientIs(diff * TARGET_SPACING, actual);
    MulMono(x, MIN_ACTUAL, actual);
    assert x * actual == actual * x;
  }

  lemma QuotientAtLeast(p: nat, x: nat, k: nat)
    requires x > 0 && k * x <= p
    ensures k <= Quotient(p, x) <= p
  {
    var q := Quotient(p, x);
    QuotientIs(p, x);
    assert x * (q + 1) == x * q + x;
    if q < k {
      MulMono(x, q + 1, k);
    }
    MulMono(q, 1, x);
  }

  // The encoding of floor(top / x) - 1, or the limit's bits when x is zero or
  // that target is above the limit.
  predicate ExactBits(bits: nat, x: nat, top: nat, limit: nat) {
    if x == 0 || Quotient(top, x) - 1 > limit then bits == HSK_BITS
    else Quotient(top, x) >= 1 && bits == Encode(Quotient(top, x) - 1)
  }

  predicate DecodesWithin(bits: nat, limit: nat) {
    bits < 0x1_0000_0000 && Decode(bits).Some? && 1 <= Decode(bits).value <= limit
  }

  lemma EncodeWithin(t: nat)
    requires 1 <= t <= Limit()
    ensures DecodesWithin(Encode(t), Limit())
  {
    LimitFits(t);
    RoundTrip(t);
    TruncLowers(t);
  }

  lemma LimitWithin(bits: nat)
    requires bits == HSK_BITS
    ensures DecodesWithin(bits, Limit())
  {
    LimitParts(bits);
    LimitFits(Limit());
    ShlGrows(0xffff, 25);
  }

  lemma LimitParts(bits: uint32)
    requires bits == HSK_BITS
    ensures !Negative(bits) && Mantissa(bits) == 0xffff && ZeroBytes(bits) == 25
  {
  }

  lemma BitsOverExact(x: nat, top: nat, m: nat, limit: nat)
    requires 32 * x <= top < m
    ensures ExactBits(BitsOver(x, top, m, limit), x, top, limit)
    ensures x > 0 ==> Quotient(top, x) >= 32
  {
    if x > 0 {
      QuotientAtLeast(top, x, 32);
      var t := Quotient(top, x) - 1;
      ModCarry(t, t, 0, m);
    }
  }

  lemma ExactBitsWithin(bits: nat, x: nat, top: nat)
    requires ExactBits(bits, x, top, Limit())
    requires x > 0 ==> Quotient(top, x) >= 2
    ensures DecodesWithin(bits, Limit())
  {
    LimitWithin(HSK_BITS);
    if x > 0 && Quotient(top, x) - 1 <= Limit() {
      EncodeWithin(Quotient(top, x) - 1);
    }
  }

  // The difference of work times the spacing, over the clamped time.
  function ScaledDifference(firstWork: nat, firstTime: uint64, lastWork: nat, lastTime: uint64): nat
    requires firstWork <= lastWork
  {
    Quotient((lastWork - firstWork) * TARGET_SPACING, Clamped(SignedDifference(lastTime, firstTime)))
  }

  // It is the whole part of the work done, times 600 seconds, over the time used.
  lemma ScaledIs(firstWork: nat, firstTime: uint64, lastWork: nat, lastTime: uint64)
    requires firstWork <= lastWork
    ensures var t, x := Clamped(SignedDifference(lastTime, firstTime)), ScaledDifference(firstWork, firstTime, lastWork, lastTime);
      t * x <= (lastWork - firstWork) * 600 < t * x + t
  {
    QuotientIs((lastWork - firstWork) * TARGET_SPACING, Clamped(SignedDifference(lastTime, firstTime)));
  }

  lemma DifferenceFits(diff: nat, top: nat, m: nat)
    requires diff < top && TARGET_SPACING < top && top * top == m
    ensures diff % m == diff && diff * TARGET_SPACING % m == diff * TARGET_SPACING
  {
    MulMono(top, TARGET_SPACING, top);
    MulMono(diff, 1, TARGET_SPACING);
    ModCarry(diff, diff, 0, m);
    ModCarry(diff * TARGET_SPACING, diff * TARGET_SPACING, 0, m);
  }

  lemma RetargetExact(firstWork: nat, firstTime: uint64, lastWork: nat, lastTime: uint64,
                      top: nat, m: nat, limit: nat)
    requires firstWork <= lastWork < top && TARGET_SPACING < top && top * top == m
    ensures var x := ScaledDifference(firstWork, firstTime, lastWork, lastTime);
      ExactBits(RetargetOver(firstWork, firstTime, lastWork, lastTime, top, m, limit), x, top, limit)
      && (x > 0 ==> Quotient(top, x) >= 2)
  {
    var x := ScaledDifference(firstWork, firstTime, lastWork, lastTime);
    DifferenceFits(lastWork - firstWork, top, m);
    ScaledWork(lastWork - firstWork, Clamped(SignedDifference(lastTime, firstTime)), top);
    MulMono(top, 2, top);
    BitsOverExact(x, top, m, limit);
  }

  // With less work at the end the difference wraps, to a number so large that
  // the quotient is zero and the target before it wraps past any limit.
  lemma WrappedDifference(firstWork: nat, firstTime: uint64, lastWork: nat, lastTime: uint64, top: nat, m: nat, limit: nat)
    requires lastWork < firstWork < top && top >= 0x100_0000 && top * top == m && limit < top
    ensures RetargetOver(firstWork, firstTime, lastWork, lastTime, top, m, limit) == HSK_BITS
  {
    var d, actual := firstWork - lastWork, Clamped(SignedDifference(lastTime, firstTime));
    MulMono(top, 0x100_0000, top);
    ModBorrow(lastWork - firstWork, m - d, 1, m);
    WrappedScale(d, m);
    var x := Quotient(m - TARGET_SPACING * d, actual);
    MulMono(top + 1, actual, MAX_ACTUAL);
    assert actual * (top + 1) == (top + 1) * actual;
    QuotientAbove(m - TARGET_SPACING * d, actual, top);
    QuotientZero(top, x);
    ModBorrow(-1, m - 1, 1, m);
  }

  lemma WrappedScale(d: nat, m: nat)
    requires 0 < d && TARGET_SPACING * d < m
    ensures (m - d) * TARGET_SPACING % m == m - TARGET_SPACING * d
  {
    assert (m - d) * TARGET_SPACING == (m - TARGET_SPACING * d) + (TARGET_SPACING - 1) * m;
    ModCarry((m - d) * TARGET_SPACING, m - TARGET_SPACING * d, TARGET_SPACING - 1, m);
  }

  lemma QuotientAbove(a: nat, b: nat, q: nat)
    requires b > 0 && b * (q + 1) <= a
    ensures Quotient(a, b) > q
  {
    QuotientIs(a, b);
    if Quotient(a, b) <= q {
      MulMono(b, Quotient(a, b) + 1, q + 1);
    }
  }

  lemma QuotientZero(a: nat, b: nat)
    requires a < b
    ensures Quotient(a, b) == 0
  {
    var q := Quotient(a, b);
    QuotientIs(a, b);
    if q > 0 {
      MulMono(b, 1, q);
    }
  }

  lemma RetargetWraps(firstWork: nat, firstTime: uint64, lastWork: nat, lastTime: uint64)
    requires lastWork < firstWork < P256(32)
    ensures RetargetBits(firstWork, firstTime, lastWork, lastTime) == HSK_BITS
  {
    LimitFits(Limit());
    HalfOfModulus();
    P256Big(29);
    WrappedDifference(firstWork, firstTime, lastWork, lastTime, P256(32), Modulus(), Limit());
  }

  // For any two amounts of work: the exact encoding when work does not decrease,
  // the limit's bits when it does; either decodes to a target in 1..limit.
  lemma RetargetSound(firstWork: nat, firstTime: uint64, lastWork: nat, lastTime: uint64)
    requires firstWork < P256(32) && lastWork < P256(32)
    ensures firstWork <= lastWork ==>
      ExactBits(RetargetBits(firstWork, firstTime, lastWork, lastTime),
                ScaledDifference(firstWork, firstTime, lastWork, lastTime), P256(32), Limit())
    ensures firstWork > lastWork ==> RetargetBits(firstWork, firstTime, lastWork, lastTime) == HSK_BITS
    ensures DecodesWithin(RetargetBits(firstWork, firstTime, lastWork, lastTime), Limit())
  {
    var bits := RetargetBits(firstWork, firstTime, lastWork, lastTime);
    if firstWork > lastWork {
      RetargetWraps(firstWork, firstTime, lastWork, lastTime);
      LimitWithin(bits);
    } else {
      var x := ScaledDifference(firstWork, firstTime, lastWork, lastTime);
      assert P256(32) * P256(32) == Modulus() by { HalfOfModulus(); }
      assert TARGET_SPACING < P256(32) by { P256Big(29); }
      RetargetExact(firstWork, firstTime, lastWork, lastTime, P256(32), Modulus(), Limit());
      ExactBitsWithin(bits, x, P256(32));
    }
  }
}
