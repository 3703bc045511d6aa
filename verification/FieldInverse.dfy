// Modular inversion by binary extended GCD.
module FieldInverse {
  import opened Arith
  import opened Bits
  import opened Limbs
  import opened Field
  import opened FieldReduce

  // ----- Divisors -----

  predicate Divides(d: nat, n: nat)
    requires d > 0
  {
    n % d == 0
  }

  // g's divisors are exactly the common divisors of x and y.
  ghost predicate IsGcd(g: nat, x: nat, y: nat) {
    g > 0 && forall d: nat {:trigger Divides(d, g)} :: d > 0 ==> (Divides(d, g) <==> Divides(d, x) && Divides(d, y))
  }

  // a and b have the same common divisors as x and y.
  ghost predicate SameDivisors(a: nat, b: nat, x: nat, y: nat) {
    forall d: nat {:trigger Divides(d, a)} :: d > 0 ==> (Divides(d, a) && Divides(d, b) <==> Divides(d, x) && Divides(d, y))
  }

  lemma DividesHalf(d: nat, a: nat, b: nat)
    requires d > 0 && b % 2 == 1 && a % 2 == 0
    ensures Divides(d, a / 2) && Divides(d, b) <==> Divides(d, a) && Divides(d, b)
  {
    if Divides(d, a / 2) {
      var k := a / 2 / d;
      assert a == d * (2 * k);
      ModShift(0, 2 * k, d);
    }
    if Divides(d, a) && Divides(d, b) {
      OddDivisor(d, b);
      HalfOfMultiple(d, a);
    }
  }

  lemma EvenTimes(d: int, k: int)
    requires d % 2 == 0
    ensures d * k % 2 == 0
  {
    TwoTimes(d, d / 2, k, 0);
    SumParity(d / 2 * k, 0);
  }

  lemma OddTimes(d: int, k: int)
    requires d % 2 == 1 && k % 2 == 1
    ensures d * k % 2 == 1
  {
    TwoTimes(d, d / 2, k, 1);
    SumParity(d / 2 * k, k);
  }

  lemma SumParity(n: int, k: int)
    ensures (2 * n + k) % 2 == k % 2
  {
  }

  lemma TwoTimes(d: int, h: int, k: int, r: int)
    requires d == 2 * h + r
    ensures d * k == 2 * (h * k) + r * k
  {
    assert (2 * h + r) * k == 2 * (h * k) + r * k;
  }

  lemma OddDivisor(d: nat, b: nat)
    requires d > 0 && b % 2 == 1 && Divides(d, b)
    ensures d % 2 == 1
  {
    var k := b / d;
    assert b == d * k;
    if d % 2 == 0 {
      EvenTimes(d, k);
    }
  }

  lemma HalfOfMultiple(d: nat, a: nat)
    requires d > 0 && d % 2 == 1 && a % 2 == 0 && Divides(d, a)
    ensures Divides(d, a / 2)
  {
    var k := a / d;
    EvenFactor(d, k);
    assert a / 2 == d * (k / 2);
    ModShift(0, k / 2, d);
  }

  lemma EvenFactor(d: int, k: int)
    requires d % 2 == 1 && d * k % 2 == 0
    ensures k % 2 == 0
  {
    if k % 2 == 1 {
      OddTimes(d, k);
    }
  }

  lemma DividesDifference(d: nat, a: nat, b: nat)
    requires d > 0 && a >= b
    ensures Divides(d, a - b) && Divides(d, b) <==> Divides(d, a) && Divides(d, b)
  {
    if Divides(d, b) {
      var k := b / d;
      assert a == (a - b) + d * k;
      ModShift(a - b, k, d);
    }
  }

  lemma SameHalf(a: nat, b: nat, x: nat, y: nat)
    requires SameDivisors(a, b, x, y) && b % 2 == 1 && a % 2 == 0
    ensures SameDivisors(a / 2, b, x, y)
  {
    forall d: nat {:trigger Divides(d, a / 2)} | d > 0
      ensures Divides(d, a / 2) && Divides(d, b) <==> Divides(d, x) && Divides(d, y)
    {
      DividesHalf(d, a, b);
      assert Divides(d, a) || !Divides(d, a);
    }
  }

  lemma SameDifference(a: nat, b: nat, c: nat, x: nat, y: nat)
    requires SameDivisors(a, b, x, y) && a == b + c
    ensures SameDivisors(c, b, x, y)
  {
    forall d: nat {:trigger Divides(d, c)} | d > 0
      ensures Divides(d, c) && Divides(d, b) <==> Divides(d, x) && Divides(d, y)
    {
      DividesDifference(d, a, b);
      assert Divides(d, a) || !Divides(d, a);
    }
  }

  lemma SameSwap(a: nat, b: nat, x: nat, y: nat)
    requires SameDivisors(a, b, x, y)
    ensures SameDivisors(b, a, x, y)
  {
    forall d: nat {:trigger Divides(d, b)} | d > 0
      ensures Divides(d, b) && Divides(d, a) <==> Divides(d, x) && Divides(d, y)
    {
      assert Divides(d, a) || !Divides(d, a);
    }
  }

  lemma SameHalfRight(a: nat, b: nat, x: nat, y: nat)
    requires SameDivisors(a, b, x, y) && a % 2 == 1 && b % 2 == 0
    ensures SameDivisors(a, b / 2, x, y)
  {
    SameSwap(a, b, x, y);
    SameHalf(b, a, x, y);
    SameSwap(b / 2, a, x, y);
  }

  lemma SameHalfDifference(a: nat, b: nat, x: nat, y: nat)
    requires SameDivisors(a, b, x, y) && a % 2 == 1 && b % 2 == 1 && a > b
    ensures SameDivisors((a - b) / 2, b, x, y)
  {
    SameDifference(a, b, a - b, x, y);
    SameHalf(a - b, b, x, y);
  }

  // ----- Congruences u * x = a (mod m) -----

  predicate Cong(u: int, x: int, a: int, m: nat)
    requires m > 0
  {
    (u * x - a) % m == 0
  }

  lemma CongFrom(u: int, x: int, a: int, m: nat, k: int)
    requires m > 0 && u * x - a == m * k
    ensures Cong(u, x, a, m)
  {
    ModShift(0, k, m);
  }

  lemma CongQuotient(u: int, x: int, a: int, m: nat) returns (k: int)
    requires m > 0 && Cong(u, x, a, m)
    ensures u * x - a == m * k
  {
    k := (u * x - a) / m;
  }

  // Halving both sides: u is made even by adding m.
  function Halved(u: nat, m: nat): nat {
    if u % 2 == 0 then u / 2 else (u + m) / 2
  }

  // From u * x - a = m * k to the same for u halved: k, or k + x, is even.
  lemma HalvedQuotient(u: nat, w: nat, x: nat, a: nat, m: nat, k: int, j: int)
    requires u * x - a == m * k && a % 2 == 0
    requires (u == 2 * w && j == k) || (u + m == 2 * w && j == k + x)
    ensures 2 * (w * x - a / 2) == m * j
  {
    TwoTimes(2 * w, w, x, 0);
    assert (u + m) * x == u * x + m * x;
    assert m * (k + x) == m * k + m * x;
  }

  lemma HalvedCong(u: nat, x: nat, a: nat, m: nat)
    requires m % 2 == 1 && a % 2 == 0 && Cong(u, x, a, m)
    ensures Cong(Halved(u, m), x, a / 2, m)
  {
    var k := CongQuotient(u, x, a, m);
    var w := Halved(u, m);
    var j := if u % 2 == 0 then k else k + x;
    HalvedQuotient(u, w, x, a, m, k, j);
    EvenFactor(m, j);
    var i := j / 2;
    assert j == 2 * i;
    assert m * (2 * i) == 2 * (m * i);
    CongFrom(w, x, a / 2, m, i);
  }

  lemma DifferenceCong(u: nat, v: nat, w: nat, x: nat, a: nat, b: nat, c: nat, m: nat)
    requires m > 0 && Cong(u, x, a, m) && Cong(v, x, b, m)
    requires (w == u - v || w == u - v + m) && c == a - b
    ensures Cong(w, x, c, m)
  {
    var j := CongQuotient(u, x, a, m);
    var k := CongQuotient(v, x, b, m);
    var i := if w == u - v then j - k else j - k + x;
    assert (u - v) * x == u * x - v * x && (u - v + m) * x == (u - v) * x + m * x;
    assert m * (j - k) == m * j - m * k && m * (j - k + x) == m * (j - k) + m * x;
    CongFrom(w, x, c, m, i);
  }

  lemma DifferenceHalved(u: nat, v: nat, w: nat, x: nat, a: nat, b: nat, m: nat)
    requires m % 2 == 1 && a % 2 == 1 && b % 2 == 1 && a > b
    requires Cong(u, x, a, m) && Cong(v, x, b, m) && (w == u - v || w == u - v + m)
    ensures Cong(Halved(w, m), x, (a - b) / 2, m) && (a - b) / 2 > 0
  {
    DifferenceCong(u, v, w, x, a, b, a - b, m);
    HalvedCong(w, x, a - b, m);
  }

  // ----- The loop's steps -----

  method Even(vli: Vli) returns (r: bool)
    requires vli.Length == DIGITS
    ensures r <==> F(vli[..]) % 2 == 0
  {
    FourDigits(vli[..]);
    r := vli[0] % 2 == 0;
  }

  // u = u / 2 modulo m, with the carry of u + m put back as the top bit.
  method HalveMod(u: Vli, mod: Vli)
    requires u.Length == mod.Length == DIGITS && u != mod
    requires F(u[..]) < F(mod[..])
    modifies u
    ensures F(u[..]) == Halved(old(F(u[..])), F(mod[..])) < F(mod[..])
  {
    var carry := 0;
    var even := Even(u);
    if !even {
      carry := Add(u, u, mod);
    }
    Rshift1(u);
    if carry != 0 {
      SetTopBit(u);
    }
  }

  method SetTopBit(u: Vli)
    requires u.Length == DIGITS && u[3] < HIGHBIT
    modifies u
    ensures F(u[..]) == old(F(u[..])) + TOP / 2
  {
    FourDigits(u[..]);
    OrHighBit(u[3], 1);
    u[3] := Or(u[3], HIGHBIT);
    FourDigits(u[..]);
  }

  // u = u - v modulo m; a carry of u + m and the borrow after it cancel.
  method SubMod(u: Vli, v: Vli, mod: Vli)
    requires u.Length == v.Length == mod.Length == DIGITS && u != mod && u != v
    requires F(u[..]) < F(mod[..]) && F(v[..]) < F(mod[..])
    modifies u
    ensures F(u[..]) == (if old(F(u[..])) < F(v[..]) then old(F(u[..])) + F(mod[..]) else old(F(u[..]))) - F(v[..])
    ensures F(u[..]) < F(mod[..])
  {
    var cmp := Cmp(u, v);
    var dropped := 0;
    if cmp < 0 {
      dropped := Add(u, u, mod);
    }
    dropped := Sub(u, u, v);
    InField(u[..]);
    InField(mod[..]);
  }

  // What the loop keeps of the pair (a, u), for the input x and modulus m.
  ghost predicate Tracks(a: nat, u: nat, x: nat, m: nat) {
    m > 0 && a > 0 && u < m && Cong(u, x, a, m)
  }

  // An even a is halved.
  method HalveStep(a: Vli, u: Vli, mod: Vli, ghost x: nat)
    requires a.Length == u.Length == mod.Length == DIGITS && a != u && a != mod && u != mod
    requires F(mod[..]) % 2 == 1 && F(a[..]) % 2 == 0
    requires Tracks(F(a[..]), F(u[..]), x, F(mod[..]))
    modifies a, u
    ensures F(a[..]) == old(F(a[..])) / 2 && Tracks(F(a[..]), F(u[..]), x, F(mod[..]))
  {
    HalvedCong(F(u[..]), x, F(a[..]), F(mod[..]));
    Rshift1(a);
    HalveMod(u, mod);
  }

  method SubtractHalf(a: Vli, b: Vli)
    requires a.Length == b.Length == DIGITS && a != b && F(a[..]) >= F(b[..])
    modifies a
    ensures F(a[..]) == (old(F(a[..])) - F(b[..])) / 2
  {
    var dropped := Sub(a, a, b);
    InField(a[..]);
    Rshift1(a);
  }

  // Of two odd numbers the larger becomes half the difference.
  method SubtractStep(a: Vli, u: Vli, b: Vli, v: Vli, mod: Vli, ghost x: nat)
    requires a.Length == u.Length == b.Length == v.Length == mod.Length == DIGITS
    requires a != u && a != mod && u != mod && a != b && a != v && u != b && u != v
    requires F(mod[..]) % 2 == 1 && F(a[..]) % 2 == 1 && F(b[..]) % 2 == 1 && F(a[..]) > F(b[..])
    requires Tracks(F(a[..]), F(u[..]), x, F(mod[..])) && Tracks(F(b[..]), F(v[..]), x, F(mod[..]))
    modifies a, u
    ensures F(a[..]) == (old(F(a[..])) - F(b[..])) / 2 && Tracks(F(a[..]), F(u[..]), x, F(mod[..]))
  {
    ghost var p, q, y, z, m := F(a[..]), F(b[..]), F(u[..]), F(v[..]), F(mod[..]);
    assert m % 2 == 1 && p % 2 == 1 && q % 2 == 1 && p > q && Cong(y, x, p, m) && Cong(z, x, q, m) && y < m && z < m;
    SubtractHalf(a, b);
    SubMod(u, v, mod);
    DifferenceHalved(y, z, F(u[..]), x, p, q, m);
    HalveMod(u, mod);
  }

  ghost predicate Keeps(a: nat, b: nat, u: nat, v: nat, x: nat, m: nat) {
    Tracks(a, u, x, m) && Tracks(b, v, x, m) && SameDivisors(a, b, x, m) && (a % 2 == 1 || b % 2 == 1)
  }

  ghost predicate TimesIsGcd(r: nat, x: nat, m: nat)
    requires m > 0
  {
    exists g: nat :: IsGcd(g, x, m) && Cong(r, x, g, m)
  }

  lemma GcdBelow(g: nat, x: nat, m: nat)
    requires IsGcd(g, x, m) && m > 0
    ensures g <= m
  {
    ModShift(0, 1, g);
    assert Divides(g, g);
    assert m % g == 0;
    if g > m {
      ModCarry(m, m, 0, g);
    }
  }

  lemma GcdUnique(g: nat, h: nat, x: nat, y: nat)
    requires IsGcd(g, x, y) && IsGcd(h, x, y)
    ensures g == h
  {
    ModShift(0, 1, g);
    ModShift(0, 1, h);
    assert Divides(g, g) && Divides(h, h);
    assert Divides(g, h) && Divides(h, g);
    var j, k := h / g, g / h;
    assert h == g * j && g == h * k;
    MulMono(g, 1, j);
    MulMono(h, 1, k);
  }

  // The result is an inverse exactly when one exists.
  lemma InverseExact(r: nat, x: nat, m: nat)
    requires m > 1 && TimesIsGcd(r, x, m)
    ensures r * x % m == 1 <==> IsGcd(1, x, m)
  {
    var g: nat :| IsGcd(g, x, m) && Cong(r, x, g, m);
    GcdBelow(g, x, m);
    var k := CongQuotient(r, x, g, m);
    assert r * x == g + m * k;
    ModShift(g, k, m);
    if g < m {
      ModCarry(g, g, 0, m);
    } else {
      ModShift(0, 1, m);
    }
    if IsGcd(1, x, m) {
      GcdUnique(1, g, x, m);
    }
  }

  // result * input is congruent to the greatest common divisor.
  method ModInv(result: Vli, input: Vli, mod: Vli)
    requires result.Length == input.Length == mod.Length == DIGITS
    requires F(mod[..]) % 2 == 1 && F(mod[..]) > 1
    modifies result
    ensures old(F(input[..])) == 0 ==> F(result[..]) == 0
    ensures old(F(input[..])) > 0 ==> TimesIsGcd(F(result[..]), old(F(input[..])), old(F(mod[..])))
    ensures F(result[..]) < old(F(mod[..]))
  {
    ghost var x, m := F(input[..]), F(mod[..]);
    var zero := IsZero(input);
    if zero {
      Clear(result);
      return;
    }
    var a, b, u, v := new digit[4], new digit[4], new digit[4], new digit[4];
    Set(a, input);
    Set(b, mod);
    SetOne(u);
    Clear(v);
    CongFrom(1, x, x, m, 0);
    CongFrom(0, x, m, m, -1);
    var cmp := Cmp(a, b);
    while cmp != 0
      invariant F(mod[..]) == m
      invariant Keeps(F(a[..]), F(b[..]), F(u[..]), F(v[..]), x, m)
      invariant cmp == if F(a[..]) > F(b[..]) then 1 else if F(a[..]) < F(b[..]) then -1 else 0
      decreases F(a[..]) + F(b[..])
    {
      Step(a, b, u, v, mod, cmp, x);
      cmp := Cmp(a, b);
    }
    assert IsGcd(F(a[..]), x, m);
    Set(result, u);
  }

  method SetOne(u: Vli)
    requires u.Length == DIGITS
    modifies u
    ensures F(u[..]) == 1
  {
    Clear(u);
    u[0] := 1;
    FourDigits(u[..]);
  }

  method Step(a: Vli, b: Vli, u: Vli, v: Vli, mod: Vli, cmp: int, ghost x: nat)
    requires a.Length == u.Length == b.Length == v.Length == mod.Length == DIGITS
    requires a != u && a != mod && u != mod && a != b && a != v && u != b && u != v && b != v && b != mod && v != mod
    requires F(mod[..]) % 2 == 1 && Keeps(F(a[..]), F(b[..]), F(u[..]), F(v[..]), x, F(mod[..]))
    requires cmp != 0 && cmp == if F(a[..]) > F(b[..]) then 1 else if F(a[..]) < F(b[..]) then -1 else 0
    modifies a, b, u, v
    ensures Keeps(F(a[..]), F(b[..]), F(u[..]), F(v[..]), x, F(mod[..]))
    ensures F(a[..]) + F(b[..]) < old(F(a[..])) + old(F(b[..]))
  {
    ghost var p, q, m := F(a[..]), F(b[..]), F(mod[..]);
    var even := Even(a);
    var other := Even(b);
    if even {
      SameHalf(p, q, x, m);
      HalveStep(a, u, mod, x);
    } else if other {
      SameHalfRight(p, q, x, m);
      HalveStep(b, v, mod, x);
    } else if cmp > 0 {
      SameHalfDifference(p, q, x, m);
      SubtractStep(a, u, b, v, mod, x);
    } else {
      SameSwap(p, q, x, m);
      SameHalfDifference(q, p, x, m);
      SameSwap((q - p) / 2, p, x, m);
      SubtractStep(b, v, a, u, mod, x);
    }
  }
}
