// The 512-bit bignum: sixteen 32-bit limbs, least significant first, updated
// in place.  Every operation is proved to be integer arithmetic modulo 2^512.
module Bignum {
  import opened Arith
  import opened Limbs
  import opened Bits

  const BASE: nat := 0x1_0000_0000
  const SIZE: nat := 16

  type limb = x: nat | x < BASE

  type Bn = array<limb>

  // 2^512
  function Modulus(): (m: nat)
    ensures m > 0
  {
    PowPositive(BASE, SIZE);
    Pow(BASE, SIZE)
  }

  function V(s: seq<limb>): nat {
    Val(BASE, s)
  }

  lemma InRange(s: seq<limb>)
    requires |s| == SIZE
    ensures V(s) < Modulus()
  {
    ValBound(BASE, s);
  }

  // ----- Initialisation -----

  method Init(n: Bn)
    requires n.Length == SIZE
    modifies n
    ensures V(n[..]) == 0
    ensures forall i :: 0 <= i < SIZE ==> n[i] == 0
  {
    for i := 0 to SIZE
      invariant forall j :: 0 <= j < i ==> n[j] == 0
    {
      n[i] := 0;
    }
    ValZeros(BASE, n[..]);
  }

  method FromInt(n: Bn, x: nat)
    requires n.Length == SIZE && x < BASE * BASE
    modifies n
    ensures V(n[..]) == x
  {
    Init(n);
    n[0] := x % BASE;
    n[1] := x / BASE;
    TwoLimbs(n[..]);
  }

  lemma TwoLimbs(s: seq<limb>)
    requires |s| >= 2 && forall i :: 2 <= i < |s| ==> s[i] == 0
    ensures V(s) == s[0] + BASE * s[1]
  {
    var t: seq<limb> := s[1..];
    assert t[0] == s[1] && t[1..] == s[2..];
    ValZeros(BASE, s[2..]);
    assert V(t) == t[0] + BASE * V(t[1..]);
  }

  method Assign(dst: Bn, src: Bn)
    requires dst.Length == src.Length == SIZE
    modifies dst
    ensures dst[..] == old(src[..])
  {
    for i := 0 to SIZE
      invariant forall j :: 0 <= j < i ==> dst[j] == old(src[j])
      invariant forall j :: i <= j < SIZE ==> src[j] == old(src[j])
    {
      dst[i] := src[i];
    }
  }

  // ----- Comparison -----

  method Cmp(a: Bn, b: Bn) returns (r: int)
    requires a.Length == b.Length == SIZE
    ensures r == if V(a[..]) > V(b[..]) then 1 else if V(a[..]) < V(b[..]) then -1 else 0
  {
    var i := SIZE;
    while i != 0
      invariant 0 <= i <= SIZE && a[i..] == b[i..]
    {
      i := i - 1;
      assert a[i..] == [a[i]] + a[i + 1..] && b[i..] == [b[i]] + b[i + 1..];
      assert a[..][i + 1..] == a[i + 1..] && b[..][i + 1..] == b[i + 1..];
      if a[i] > b[i] {
        ValLess(BASE, b[..], a[..], i);
        return 1;
      } else if a[i] < b[i] {
        ValLess(BASE, a[..], b[..], i);
        return -1;
      }
    }
    assert a[..] == a[0..] && b[..] == b[0..];
    return 0;
  }

  method IsZero(n: Bn) returns (r: bool)
    requires n.Length == SIZE
    ensures r <==> V(n[..]) == 0
  {
    for i := 0 to SIZE
      invariant forall j :: 0 <= j < i ==> n[j] == 0
    {
      if n[i] != 0 {
        ValZero(BASE, n[..], i);
        return false;
      }
    }
    ValZeros(BASE, n[..]);
    return true;
  }

  // ----- Addition and subtraction; c may be a or b -----

  // z holds the sum of x and y below column i, with a carry into it.
  ghost predicate Summed(x: seq<limb>, y: seq<limb>, z: seq<limb>, i: nat, carry: nat)
    requires |x| == |y| == |z| && i <= |x|
  {
    V(z[..i]) + carry * Pow(BASE, i) == V(x[..i]) + V(y[..i])
  }

  lemma SumStep(x: seq<limb>, y: seq<limb>, before: seq<limb>, z: seq<limb>, i: nat, carry0: nat, carry: nat)
    requires |x| == |y| == |z| == |before| && i < |x| && x[i] + y[i] + carry0 == z[i] + BASE * carry
    requires Summed(x, y, before, i, carry0) && z == before[i := z[i]]
    ensures Summed(x, y, z, i + 1, carry)
  {
    assert z[..i] == before[..i];
    AddColumn(BASE, Pow(BASE, i), x[i], y[i], carry0, z[i], carry);
    ValNext(BASE, x, i);
    ValNext(BASE, y, i);
    ValNext(BASE, z, i);
  }

  lemma SumDone(x: seq<limb>, y: seq<limb>, z: seq<limb>, carry: nat)
    requires |x| == |y| == |z| == SIZE && Summed(x, y, z, SIZE, carry)
    ensures V(z) == (V(x) + V(y)) % Modulus()
  {
    Whole(x);
    Whole(y);
    Whole(z);
    ModCarry(V(x) + V(y), V(z), carry, Modulus());
  }

  lemma Whole(s: seq<limb>)
    requires |s| == SIZE
    ensures s[..SIZE] == s && V(s) < Modulus()
  {
    InRange(s);
  }

  method Add(a: Bn, b: Bn, c: Bn)
    requires a.Length == b.Length == c.Length == SIZE
    modifies c
    ensures V(c[..]) == (old(V(a[..])) + old(V(b[..]))) % Modulus()
  {
    ghost var x, y := a[..], b[..];
    var carry: nat := 0;
    for i := 0 to SIZE
      invariant carry <= 1
      invariant forall j :: i <= j < SIZE ==> a[j] == x[j] && b[j] == y[j]
      invariant Summed(x, y, c[..], i, carry)
    {
      var tmp := a[i] + b[i] + carry;
      ghost var carry0, before := carry, c[..];
      carry := if tmp > BASE - 1 then 1 else 0;
      c[i] := tmp % BASE;
      SumStep(x, y, before, c[..], i, carry0, carry);
    }
    SumDone(x, y, c[..], carry);
  }

  method Sub(a: Bn, b: Bn, c: Bn)
    requires a.Length == b.Length == c.Length == SIZE
    modifies c
    ensures V(c[..]) == (old(V(a[..])) - old(V(b[..]))) % Modulus()
  {
    ghost var x, y := a[..], b[..];
    var borrow: nat := 0;
    for i := 0 to SIZE
      invariant borrow <= 1
      invariant forall j :: i <= j < SIZE ==> a[j] == x[j] && b[j] == y[j]
      invariant Taken(x, y, c[..], i, borrow)
    {
      var res := (a[i] + BASE) - (b[i] + borrow);
      ghost var borrow0, before := borrow, c[..];
      borrow := if res <= BASE - 1 then 1 else 0;
      c[i] := res % BASE;
      TakeStep(x, y, before, c[..], i, borrow0, borrow);
    }
    TakeDone(x, y, c[..], borrow);
  }

  // z holds the difference of x and y below column i, with a borrow from it.
  ghost predicate Taken(x: seq<limb>, y: seq<limb>, z: seq<limb>, i: nat, borrow: nat)
    requires |x| == |y| == |z| && i <= |x|
  {
    Summed(y, z, x, i, borrow)
  }

  lemma TakeStep(x: seq<limb>, y: seq<limb>, before: seq<limb>, z: seq<limb>, i: nat, borrow0: nat, borrow: nat)
    requires |x| == |y| == |z| == |before| && i < |x| && y[i] + z[i] + borrow0 == x[i] + BASE * borrow
    requires Taken(x, y, before, i, borrow0) && z == before[i := z[i]]
    ensures Taken(x, y, z, i + 1, borrow)
  {
    assert z[..i] == before[..i];
    assert x == x[i := x[i]];
    SumStep(y, z, x, x, i, borrow0, borrow);
  }

  lemma TakeDone(x: seq<limb>, y: seq<limb>, z: seq<limb>, borrow: nat)
    requires |x| == |y| == |z| == SIZE && borrow <= 1 && Taken(x, y, z, SIZE, borrow)
    ensures V(z) == (V(x) - V(y)) % Modulus()
  {
    Whole(x);
    Whole(y);
    Whole(z);
    BorrowMod(V(x), V(y), V(z), borrow, Modulus());
  }

  lemma BorrowMod(x: nat, y: nat, z: nat, borrow: nat, m: nat)
    requires z < m && borrow <= 1 && x + borrow * m == y + z
    ensures z == (x - y) % m
  {
    ModBorrow(x - y, z, borrow, m);
  }

  // z is x with one added, below column i, and perhaps a carry into it.
  ghost predicate Bumped(x: seq<limb>, z: seq<limb>, i: nat, carry: bool)
    requires |x| == |z| && i <= |x|
  {
    V(z[..i]) + (if carry then Pow(BASE, i) else 0) == V(x[..i]) + 1
  }

  lemma IncStep(x: seq<limb>, before: seq<limb>, z: seq<limb>, i: nat, carry: bool)
    requires |x| == |z| == |before| && i < |x| && x[i] as nat + 1 == z[i] + if carry then BASE else 0
    requires Bumped(x, before, i, true) && z == before[i := z[i]]
    ensures Bumped(x, z, i + 1, carry)
  {
    assert z[..i] == before[..i];
    AddColumn(BASE, Pow(BASE, i), x[i], 0, 1, z[i], if carry then 1 else 0);
    ValNext(BASE, x, i);
    ValNext(BASE, z, i);
  }

  lemma IncLimb(x: limb)
    ensures var r := (x as nat + 1) % BASE; x as nat + 1 == r + if r > x then 0 else BASE
  {
  }

  method Inc(n: Bn)
    requires n.Length == SIZE
    modifies n
    ensures V(n[..]) == (old(V(n[..])) + 1) % Modulus()
  {
    ghost var x := n[..];
    var i, carry := 0, true;
    while i < SIZE && carry
      invariant 0 <= i <= SIZE
      invariant forall j :: i <= j < SIZE ==> n[j] == x[j]
      invariant Bumped(x, n[..], i, carry)
      decreases SIZE - i, carry
    {
      ghost var before := n[..];
      IncLimb(n[i]);
      var res := (n[i] + 1) % BASE;
      carry := !(res > n[i]);
      n[i] := res;
      IncStep(x, before, n[..], i, carry);
      i := i + 1;
    }
    IncDone(x, n[..], i, carry);
  }

  lemma IncDone(x: seq<limb>, y: seq<limb>, i: nat, carry: bool)
    requires |x| == |y| == SIZE && i <= SIZE && (carry ==> i == SIZE) && forall j :: i <= j < SIZE ==> y[j] == x[j]
    requires Bumped(x, y, i, carry)
    ensures V(y) == (V(x) + 1) % Modulus()
  {
    assert y[i..] == x[i..];
    ValSplit(BASE, x, i);
    ValSplit(BASE, y, i);
    Whole(x);
    Whole(y);
    DivModUnique(V(x) + 1, if carry then 1 else 0, V(y), Modulus());
  }

  // ----- Shifts -----

  const HALF: nat := 0x8000_0000

  // Every limb shifted left by one, with c shifted in below.
  function Shl1(s: seq<limb>, c: nat): (r: seq<limb>)
    requires c < 2
    ensures |r| == |s|
    ensures forall k :: 0 <= k < |s| ==> r[k] == 2 * s[k] % BASE + (if k == 0 then c else s[k - 1] / HALF)
  {
    if s == [] then [] else [2 * s[0] % BASE + c] + Shl1(s[1..], s[0] / HALF)
  }

  lemma {:induction false} Shl1Doubles(s: seq<limb>, c: nat)
    requires c < 2
    ensures V(Shl1(s, c)) + (if s == [] then c else s[|s| - 1] / HALF) * Pow(BASE, |s|) == 2 * V(s) + c
  {
    if s != [] {
      Shl1Doubles(s[1..], s[0] / HALF);
      var r := Shl1(s, c);
      assert r[1..] == Shl1(s[1..], s[0] / HALF);
      var out, p := s[|s| - 1] / HALF, Pow(BASE, |s| - 1);
      assert out * (BASE * p) == BASE * (out * p) by { MulSwap(out, BASE, p); }
    }
  }

  method LshiftOneBit(a: Bn)
    requires a.Length == SIZE
    modifies a
    ensures V(a[..]) == 2 * old(V(a[..])) % Modulus()
    ensures old(V(a[..])) * 2 < Modulus() ==> V(a[..]) == 2 * old(V(a[..]))
  {
    ghost var s := a[..];
    var i := SIZE - 1;
    while i > 0
      invariant 0 <= i < SIZE
      invariant forall j :: 0 <= j <= i ==> a[j] == s[j]
      invariant forall j :: i < j < SIZE ==> a[j] == Shl1(s, 0)[j]
    {
      OrLowBit(2 * a[i] % BASE, a[i - 1] / HALF);
      a[i] := Or(2 * a[i] % BASE, a[i - 1] / HALF);
      i := i - 1;
    }
    a[0] := 2 * a[0] % BASE;
    assert a[..] == Shl1(s, 0);
    Shl1Value(s);
  }

  lemma OrLowBit(x: nat, c: nat)
    requires x % 2 == 0 && c < 2
    ensures Or(x, c) == x + c
  {
    assert Pow2(1) == 2;
    OrDisjoint(x, c, 1);
  }

  lemma Shl1Value(s: seq<limb>)
    requires |s| == SIZE
    ensures V(Shl1(s, 0)) == 2 * V(s) % Modulus()
    ensures V(s) * 2 < Modulus() ==> V(Shl1(s, 0)) == 2 * V(s)
  {
    var r := Shl1(s, 0);
    Shl1Doubles(s, 0);
    InRange(r);
    ModCarry(2 * V(s), V(r), s[SIZE - 1] / HALF, Modulus());
    if V(s) * 2 < Modulus() {
      DivModUnique(2 * V(s), 0, 2 * V(s), Modulus());
    }
  }

  function HalfLimb(x: limb, y: limb): limb {
    x / 2 + y % 2 * HALF
  }

  // Every limb shifted right by one, taking in the next limb's low bit.
  function Shr1(s: seq<limb>): (r: seq<limb>)
    ensures |r| == |s|
  {
    seq(|s|, k requires 0 <= k < |s| => HalfLimb(s[k], if k + 1 < |s| then s[k + 1] else 0))
  }

  lemma {:induction false} Shr1Halves(s: seq<limb>)
    ensures s == [] ==> V(Shr1(s)) == 0
    ensures s != [] ==> V(s) == 2 * V(Shr1(s)) + s[0] % 2
  {
    if s != [] {
      Shr1Halves(s[1..]);
      assert Shr1(s)[1..] == Shr1(s[1..]);
    }
  }

  method RshiftOneBit(a: Bn)
    requires a.Length == SIZE
    modifies a
    ensures V(a[..]) == old(V(a[..])) / 2
  {
    ghost var s := a[..];
    for i := 0 to SIZE - 1
      invariant forall j :: i <= j < SIZE ==> a[j] == s[j]
      invariant forall j :: 0 <= j < i ==> a[j] == HalfLimb(s[j], s[j + 1])
    {
      OrHighBit(a[i], a[i + 1]);
      a[i] := Or(a[i + 1] * HALF % BASE, a[i] / 2);
    }
    a[SIZE - 1] := a[SIZE - 1] / 2;
    LastHalf(s[SIZE - 1]);
    assert a[..] == Shr1(s);
    Shr1Halves(s);
  }

  lemma LastHalf(x: limb)
    ensures HalfLimb(x, 0) == x / 2
  {
  }

  lemma HighBit(y: limb)
    ensures y * HALF % BASE == y % 2 * HALF
  {
  }

  lemma OrHighBit(x: limb, y: limb)
    ensures Or(y * HALF % BASE, x / 2) == HalfLimb(x, y)
  {
    HighBit(y);
    assert Pow2(31) == HALF by { PowWord(); }
    if y % 2 == 0 {
      OrDisjoint(0, x / 2, 31);
    } else {
      OrDisjoint(HALF, x / 2, 31);
    }
  }

  method LshiftWord(a: Bn, nwords: nat)
    requires a.Length == SIZE && nwords <= SIZE
    modifies a
    ensures V(a[..]) == Shift(BASE, old(V(a[..])), nwords) % Modulus()
  {
    ghost var s := a[..];
    var i := SIZE - 1;
    while i >= nwords
      invariant nwords - 1 <= i < SIZE
      invariant forall j :: 0 <= j <= i ==> a[j] == s[j]
      invariant forall j :: i < j < SIZE ==> a[j] == s[j - nwords]
    {
      a[i] := a[i - nwords];
      i := i - 1;
    }
    while i >= 0
      invariant -1 <= i < nwords
      invariant forall j :: i < j < nwords ==> a[j] == 0
      invariant forall j :: nwords <= j < SIZE ==> a[j] == s[j - nwords]
    {
      a[i] := 0;
      i := i - 1;
    }
    ShiftedWords(s, a[..], nwords);
  }

  lemma ShiftedWords(s: seq<limb>, r: seq<limb>, n: nat)
    requires |s| == |r| == SIZE && n <= SIZE
    requires forall j :: 0 <= j < n ==> r[j] == 0
    requires forall j :: n <= j < SIZE ==> r[j] == s[j - n]
    ensures V(r) == Shift(BASE, V(s), n) % Modulus()
  {
    ShiftIsPow(BASE, V(s), n);
    var m := SIZE - n;
    ValSplit(BASE, r, n);
    ValZeros(BASE, r[..n]);
    assert r[n..] == s[..m];
    ValSplit(BASE, s, m);
    PowAdd(BASE, n, m);
    var lo, hi, p, q := V(s[..m]), V(s[m..]), Pow(BASE, n), Pow(BASE, m);
    WordArithmetic(lo, hi, p, q);
    InRange(r);
    ModCarry(V(s) * p, V(r), hi, Modulus());
  }

  lemma WordArithmetic(lo: nat, hi: nat, p: nat, q: nat)
    ensures (lo + q * hi) * p == p * lo + hi * (p * q)
  {
    assert (q * hi) * p == (p * q) * hi;
  }

  // ----- Bitwise or -----

  lemma {:induction false} OrBase(k: nat, x: nat, y: nat, z: nat, w: nat)
    requires x < Pow2(k) && z < Pow2(k)
    ensures Or(x + Doubled(y, k), z + Doubled(w, k)) == Or(x, z) + Doubled(Or(y, w), k)
    decreases k
  {
    if k == 0 {
      OrUnfold(0, 0);
    } else {
      OrBase(k - 1, x / 2, y, z / 2, w);
      OrStep(x, z, Doubled(y, k - 1), Doubled(w, k - 1), Doubled(Or(y, w), k - 1));
    }
  }

  lemma DoubledBase(y: nat)
    ensures Doubled(y, 32) == BASE * y && Pow2(32) == BASE
  {
    PowWord();
    DoubledIsTimes(y, 32);
  }

  // One more low bit on each side.
  lemma OrStep(x: nat, z: nat, s: nat, t: nat, u: nat)
    requires Or(x / 2 + s, z / 2 + t) == Or(x / 2, z / 2) + u
    ensures Or(x + 2 * s, z + 2 * t) == Or(x, z) + 2 * u
  {
    HalfSum(x, s);
    HalfSum(z, t);
    OrUnfold(x, z);
    OrUnfold(x + 2 * s, z + 2 * t);
  }

  lemma HalfSum(x: nat, s: nat)
    ensures (x + 2 * s) % 2 == x % 2 && (x + 2 * s) / 2 == x / 2 + s
  {
  }

  lemma DoubleMul(p: nat, h: nat, y: nat)
    requires p == 2 * h
    ensures p * y == 2 * (h * y)
  {
  }

  lemma OrUnfold(a: nat, b: nat)
    ensures Or(a, b) == 2 * Or(a / 2, b / 2) + (if a % 2 == 1 || b % 2 == 1 then 1 else 0)
  {
  }

  lemma {:induction false} OrValue(a: seq<limb>, b: seq<limb>, c: seq<limb>)
    requires |a| == |b| == |c|
    requires forall i :: 0 <= i < |a| ==> c[i] == Or(a[i], b[i])
    ensures V(c) == Or(V(a), V(b))
  {
    if a != [] {
      OrValue(a[1..], b[1..], c[1..]);
      PowWord();
      DoubledBase(V(a[1..]));
      DoubledBase(V(b[1..]));
      DoubledBase(Or(V(a[1..]), V(b[1..])));
      OrBase(32, a[0], V(a[1..]), b[0], V(b[1..]));
    }
  }

  method OrInto(a: Bn, b: Bn, c: Bn)
    requires a.Length == b.Length == c.Length == SIZE
    modifies c
    ensures V(c[..]) == Or(old(V(a[..])), old(V(b[..])))
  {
    ghost var x, y := a[..], b[..];
    for i := 0 to SIZE
      invariant forall j :: i <= j < SIZE ==> a[j] == x[j] && b[j] == y[j]
      invariant forall j :: 0 <= j < i ==> c[j] == Or(x[j], y[j])
    {
      OrLimb(a[i], b[i]);
      c[i] := Or(a[i], b[i]);
    }
    OrValue(x, y, c[..]);
  }

  lemma OrLimb(x: limb, y: limb)
    ensures Or(x, y) < BASE
  {
    PowWord();
    OrBelow(x, y, 32);
  }

  lemma {:induction false} OrBelow(a: nat, b: nat, k: nat)
    requires a < Pow2(k) && b < Pow2(k)
    ensures Or(a, b) < Pow2(k)
    decreases k
  {
    if k > 0 {
      OrBelow(a / 2, b / 2, k - 1);
      OrUnfold(a, b);
    } else {
      OrUnfold(0, 0);
    }
  }

  // ----- Multiplication -----

  // Row i of the schoolbook product: one limb times the first j limbs of y.
  function RowTo(xi: nat, i: nat, y: seq<limb>, j: nat): nat
    requires j <= |y|
  {
    if j == 0 then 0 else RowTo(xi, i, y, j - 1) + Shift(BASE, xi * y[j - 1], i + j - 1)
  }

  // The first i rows.
  function RowsTo(x: seq<limb>, y: seq<limb>, i: nat): nat
    requires i <= |x|
  {
    if i == 0 then 0 else RowsTo(x, y, i - 1) + RowTo(x[i - 1], i - 1, y, |y|)
  }

  // One more limb of a row.
  lemma RowLimb(x: nat, a: nat, v: nat, i: nat, j: nat)
    ensures Shift(BASE, x * (v + Shift(BASE, a, j)), i) == Shift(BASE, x * v, i) + Shift(BASE, x * a, i + j)
  {
    Distribute(x, v, Shift(BASE, a, j));
    ShiftTimes(BASE, x, a, j);
    ShiftShift(BASE, x * a, j, i);
    ShiftSum(BASE, x * v, Shift(BASE, x * a, j), i);
  }

  lemma {:induction false} RowValue(xi: nat, i: nat, y: seq<limb>, j: nat)
    requires j <= |y|
    ensures RowTo(xi, i, y, j) == Shift(BASE, xi * V(y[..j]), i)
  {
    if j == 0 {
      ShiftIsPow(BASE, 0, i);
    } else {
      RowValue(xi, i, y, j - 1);
      ShiftNext(BASE, y, j - 1);
      RowLimb(xi, y[j - 1], V(y[..j - 1]), i, j - 1);
    }
  }

  lemma Distribute(x: nat, a: nat, b: nat)
    ensures x * (a + b) == x * a + x * b
  {
  }

  // The rows add up to the product.
  lemma {:induction false} RowsValue(x: seq<limb>, y: seq<limb>, i: nat)
    requires i <= |x|
    ensures RowsTo(x, y, i) == V(x[..i]) * V(y)
  {
    if i == 0 {
      assert V(x[..0]) == 0;
    } else {
      RowsValue(x, y, i - 1);
      RowValue(x[i - 1], i - 1, y, |y|);
      assert y[..|y|] == y;
      ShiftNext(BASE, x, i - 1);
      Commute(x[i - 1], V(y));
      ShiftTimes(BASE, V(y), x[i - 1], i - 1);
      AddRow(V(x[..i - 1]), V(y), Shift(BASE, x[i - 1], i - 1));
    }
  }

  lemma Commute(x: nat, y: nat)
    ensures x * y == y * x
  {
  }

  lemma AddRow(vx: nat, vy: nat, s: nat)
    ensures vx * vy + vy * s == (vx + s) * vy
  {
  }

  // c = a * b mod 2^512, row by row; c may be a or b.
  method Mul(a: Bn, b: Bn, c: Bn)
    requires a.Length == b.Length == c.Length == SIZE
    modifies c
    ensures V(c[..]) == old(V(a[..])) * old(V(b[..])) % Modulus()
  {
    ghost var x, y := a[..], b[..];
    var row, cc := new limb[SIZE], new limb[SIZE];
    Init(cc);
    for i := 0 to SIZE
      invariant a[..] == x && b[..] == y
      invariant V(cc[..]) == RowsTo(x, y, i) % Modulus()
    {
      Row(a[i], i, b, row);
      ModSum(RowsTo(x, y, i), RowTo(x[i], i, y, SIZE), Modulus());
      Add(cc, row, cc);
    }
    RowsValue(x, y, SIZE);
    assert x[..SIZE] == x;
    Assign(c, cc);
  }

  // One row; a product at or above 2^512 is not computed, and would vanish.
  method Row(ai: limb, i: nat, b: Bn, row: Bn)
    requires b.Length == row.Length == SIZE && i < SIZE && row != b
    modifies row
    ensures V(row[..]) == RowTo(ai, i, b[..], SIZE) % Modulus()
  {
    ghost var y := b[..];
    var tmp := new limb[SIZE];
    Init(row);
    for j := 0 to SIZE
      invariant b[..] == y
      invariant V(row[..]) == RowTo(ai, i, y, j) % Modulus()
    {
      RowStep(ai, i, y, j);
      if i + j < SIZE {
        Init(tmp);
        LimbProduct(ai, b[j]);
        var intermediate := ai * b[j];
        FromInt(tmp, intermediate);
        LshiftWord(tmp, i + j);
        Add(tmp, row, row);
      }
    }
  }

  lemma RowStep(ai: nat, i: nat, y: seq<limb>, j: nat)
    requires j < SIZE == |y|
    ensures RowTo(ai, i, y, j + 1) % Modulus() ==
      if i + j < SIZE then (Shift(BASE, ai * y[j], i + j) % Modulus() + RowTo(ai, i, y, j) % Modulus()) % Modulus()
      else RowTo(ai, i, y, j) % Modulus()
  {
    var term := Shift(BASE, ai * y[j], i + j);
    ModSum(term, RowTo(ai, i, y, j), Modulus());
    if i + j >= SIZE {
      Vanishes(ai * y[j], i + j, SIZE);
      ModAdd(RowTo(ai, i, y, j), 0, Modulus());
    }
  }

  lemma Vanishes(z: nat, k: nat, n: nat)
    requires k >= n
    ensures Pow(BASE, n) > 0 && Shift(BASE, z, k) % Pow(BASE, n) == 0
  {
    PowPositive(BASE, n);
    ShiftShift(BASE, z, k - n, n);
    ShiftIsPow(BASE, Shift(BASE, z, k - n), n);
    ModCarry(Shift(BASE, z, k), 0, Shift(BASE, z, k - n), Pow(BASE, n));
  }

  lemma LimbProduct(x: limb, y: limb)
    ensures 0 <= x * y < BASE * BASE
  {
    MulMono(x, 0, y);
    MulMono(x, y, BASE - 1);
  }

  // ----- Division -----

  lemma TopLimb(v: nat, low: nat, t: nat, p: nat)
    requires v == low + t * p && low < p && t < BASE
    ensures t >= HALF <==> 2 * v >= BASE * p
  {
    if t >= HALF {
      MulMono(p, HALF, t);
    } else {
      MulMono(p, t, HALF - 1);
    }
  }

  lemma TopBit(s: seq<limb>, n: nat)
    requires |s| == n + 1
    ensures s[n] >= HALF <==> 2 * V(s) >= Pow(BASE, n + 1)
  {
    assert s[..n + 1] == s;
    ValNext(BASE, s, n);
    ValBound(BASE, s[..n]);
    TopLimb(V(s), V(s[..n]), s[n], Pow(BASE, n));
  }

  // y * 2^k
  function Doubled(y: nat, k: nat): nat {
    Shift(2, y, k)
  }

  lemma DoubledIsTimes(y: nat, k: nat)
    ensures Doubled(y, k) == y * Pow2(k)
  {
    ShiftIsPow(2, y, k);
  }

  lemma {:induction false} DoubledAtLeast(y: nat, k: nat)
    requires y > 0
    ensures Pow2(k) <= Doubled(y, k)
  {
    if k > 0 {
      DoubledAtLeast(y, k - 1);
    }
  }

  // Where the division stands: remainder t and quotient so far q, with the
  // divisor y shifted by j in d and the quotient bit 2^j in p (j = -1 at the end).
  ghost predicate Dividing(x: nat, y: nat, j: int, t: nat, q: nat, p: nat, d: nat) {
    && -1 <= j && t + q * y == x
    && (if j == -1 then p == 0 && t < y
        else p == Pow2(j) && d == Doubled(y, j) && t < 2 * d && q % Pow2(j + 1) == 0)
  }

  lemma DivStep(x: nat, y: nat, j: int, t: nat, q: nat, p: nat, d: nat)
    requires Dividing(x, y, j, t, q, p, d) && j >= 0
    ensures if t >= d then Or(q, p) == q + p && Dividing(x, y, j - 1, t - d, q + p, p / 2, d / 2)
            else Dividing(x, y, j - 1, t, q, p / 2, d / 2)
  {
    OrDisjoint(q, p, j + 1);
    QuotientBit(q, p, j);
    DivHalf(y, j, p, d);
    DivMoves(x, y, t, q, p, d);
  }

  lemma DivHalf(y: nat, j: nat, p: nat, d: nat)
    requires p == Pow2(j) && d == Doubled(y, j)
    ensures d == y * p
    ensures if j == 0 then p / 2 == 0 && d == y else p / 2 == Pow2(j - 1) && d / 2 == Doubled(y, j - 1) && 2 * (d / 2) == d
  {
    DoubledIsTimes(y, j);
  }

  // What goes from the remainder comes to the quotient.
  lemma DivMoves(x: nat, y: nat, t: nat, q: nat, p: nat, d: nat)
    requires t + q * y == x && d == y * p
    ensures (t - d) + (q + p) * y == x
  {
    Distribute(y, q, p);
    Commute(y, q);
    Commute(y, q + p);
  }

  lemma QuotientBit(q: nat, p: nat, j: nat)
    requires p == Pow2(j) && q % Pow2(j + 1) == 0
    ensures q % p == 0 && (q + p) % p == 0
  {
    var m := q / Pow2(j + 1);
    assert q == Pow2(j + 1) * m;
    DoubleMul(Pow2(j + 1), p, m);
    EvenMultiple(p, 2 * m, q);
    EvenMultiple(p, 2 * m + 1, q + p);
  }

  lemma EvenMultiple(p: nat, m: nat, q: nat)
    requires p > 0 && q == p * m
    ensures q % p == 0
  {
    DivModUnique(q, m, 0, p);
  }

  // The shifted divisor is the first to pass x, or the last that still fits.
  lemma DivStart(x: nat, y: nat, k: nat, overflow: bool, p: nat, d: nat)
    requires 0 < y && (k > 0 ==> Doubled(y, k - 1) <= x)
    requires if overflow then p == Pow2(k) && d == Doubled(y, k) && x < 2 * d
             else p == Pow2(k) / 2 && d == Doubled(y, k) / 2 && x < Doubled(y, k)
    ensures Dividing(x, y, if overflow then k else k - 1, x, 0, p, d)
  {
  }

  // c = floor(a / b) by shift and subtract; c may be a or b.
  method Div(a: Bn, b: Bn, c: Bn)
    requires a.Length == b.Length == c.Length == SIZE
    requires V(b[..]) != 0
    modifies c
    ensures V(c[..]) == old(V(a[..])) / old(V(b[..]))
  {
    ghost var x, y := V(a[..]), V(b[..]);
    var current, denom, tmp := new limb[SIZE], new limb[SIZE], new limb[SIZE];
    FromInt(current, 1);
    Assign(denom, b);
    Assign(tmp, a);
    ghost var j := AlignDivisor(a, denom, current, y);
    Init(c);
    Subtract(tmp, denom, current, c, x, y, j);
    DivModUnique(x, V(c[..]), V(tmp[..]), y);
  }

  // The first loop of the division: double until past the dividend, or until
  // the top bit leaves no room; then step back once unless there was no room.
  method AlignDivisor(a: Bn, denom: Bn, current: Bn, ghost y: nat) returns (ghost j: int)
    requires a.Length == denom.Length == current.Length == SIZE
    requires a != denom && a != current && denom != current
    requires y > 0 && V(denom[..]) == y && V(current[..]) == 1
    modifies denom, current
    ensures Dividing(V(a[..]), y, j, V(a[..]), 0, V(current[..]), V(denom[..]))
  {
    ghost var x := V(a[..]);
    InRange(denom[..]);
    var overflow := false;
    ghost var k := 0;
    var cmp := Cmp(denom, a);
    while cmp != 1
      invariant V(a[..]) == x && V(current[..]) == Pow2(k) && V(denom[..]) == Doubled(y, k) < Modulus()
      invariant cmp == 1 <==> V(denom[..]) > x
      invariant k > 0 ==> Doubled(y, k - 1) <= x
      decreases Modulus() - V(denom[..])
    {
      TopBit(denom[..], SIZE - 1);
      if denom[SIZE - 1] >= HALF {
        overflow := true;
        break;
      }
      DoubleBoth(denom, current, y, k);
      k := k + 1;
      cmp := Cmp(denom, a);
    }
    if overflow {
      InRange(a[..]);
    } else {
      RshiftOneBit(denom);
      RshiftOneBit(current);
    }
    DivStart(x, y, k, overflow, V(current[..]), V(denom[..]));
    j := if overflow then k else k - 1;
  }

  method DoubleBoth(denom: Bn, current: Bn, ghost y: nat, ghost k: nat)
    requires denom.Length == current.Length == SIZE && denom != current && y > 0
    requires V(current[..]) == Pow2(k) && V(denom[..]) == Doubled(y, k) && 2 * Doubled(y, k) < Modulus()
    modifies denom, current
    ensures V(current[..]) == Pow2(k + 1) && V(denom[..]) == Doubled(y, k + 1)
    ensures V(denom[..]) > old(V(denom[..]))
  {
    DoubledAtLeast(y, k);
    LshiftOneBit(current);
    LshiftOneBit(denom);
  }

  // The second loop of the division.
  method Subtract(tmp: Bn, denom: Bn, current: Bn, c: Bn, ghost x: nat, ghost y: nat, ghost j0: int)
    requires tmp.Length == denom.Length == current.Length == c.Length == SIZE
    requires tmp != denom && tmp != current && tmp != c && denom != current && denom != c && current != c
    requires y > 0 && Dividing(x, y, j0, V(tmp[..]), V(c[..]), V(current[..]), V(denom[..]))
    modifies tmp, denom, current, c
    ensures x == y * V(c[..]) + V(tmp[..]) && V(tmp[..]) < y
  {
    ghost var j, t, q, p, d := j0, V(tmp[..]), V(c[..]), V(current[..]), V(denom[..]);
    var done := IsZero(current);
    while !done
      invariant V(tmp[..]) == t && V(c[..]) == q && V(current[..]) == p && V(denom[..]) == d
      invariant (done <==> p == 0) && Dividing(x, y, j, t, q, p, d)
      decreases p
    {
      DivStep(x, y, j, t, q, p, d);
      var fits := SubtractIf(tmp, denom, current, c);
      if fits {
        t, q := t - d, Or(q, p);
      }
      RshiftOneBit(current);
      RshiftOneBit(denom);
      j, p, d := j - 1, p / 2, d / 2;
      done := IsZero(current);
    }
    DivEnd(x, y, j, t, q, p, d);
  }

  // Takes the shifted divisor from the remainder if it fits, and sets its bit.
  method SubtractIf(tmp: Bn, denom: Bn, current: Bn, c: Bn) returns (fits: bool)
    requires tmp.Length == denom.Length == current.Length == c.Length == SIZE
    requires tmp != denom && tmp != current && tmp != c && denom != current && denom != c && current != c
    modifies tmp, c
    ensures fits <==> old(V(tmp[..])) >= V(denom[..])
    ensures V(tmp[..]) == if fits then old(V(tmp[..])) - V(denom[..]) else old(V(tmp[..]))
    ensures V(c[..]) == if fits then Or(old(V(c[..])), V(current[..])) else old(V(c[..]))
  {
    var cmp := Cmp(tmp, denom);
    fits := cmp != -1;
    if fits {
      ghost var t, d := V(tmp[..]), V(denom[..]);
      InRange(tmp[..]);
      ModCarry(t - d, t - d, 0, Modulus());
      Sub(tmp, denom, tmp);
      OrInto(c, current, c);
    }
  }

  lemma DivEnd(x: nat, y: nat, j: int, t: nat, q: nat, p: nat, d: nat)
    requires Dividing(x, y, j, t, q, p, d) && p == 0
    ensures x == y * q + t && t < y
  {
    assert q * y == y * q;
  }
}
