// 256-bit field arithmetic on four 64-bit digits, least significant first,
// written into digit arrays that may alias their operands.
module Field {
  import opened Arith
  import opened Bits
  import opened Limbs

  const W: nat := 0x1_0000_0000_0000_0000
  const W2: nat := 0x1_0000_0000_0000_0000_0000_0000_0000_0000
  const TOP: nat := 0x1_0000_0000_0000_0000_0000_0000_0000_0000_0000_0000_0000_0000_0000_0000_0000_0000
  const DIGITS: nat := 4

  type digit = x: nat | x < W
  type uint128 = x: nat | x < W2

  type Vli = array<digit>

  function F(s: seq<digit>): nat {
    Val(W, s)
  }

  lemma FourDigits(s: seq<digit>)
    requires |s| == DIGITS
    ensures F(s) == s[0] + W * s[1] + W2 * s[2] + W * W2 * s[3]
    ensures F(s) < TOP
  {
    var t: seq<digit>, u: seq<digit>, v: seq<digit> := s[1..], s[2..], s[3..];
    assert t[1..] == u && u[1..] == v && v[1..] == [];
    OneDigit(v);
    OneDigit(u);
    OneDigit(t);
    OneDigit(s);
  }

  lemma OneDigit(s: seq<digit>)
    requires s != []
    ensures F(s) == s[0] + W * F(s[1..])
  {
  }

  lemma PowTop()
    ensures Pow(W, 4) == TOP
  {
    assert Pow(W, 2) == W2;
    assert Pow(W, 3) == W * W2;
  }

  // ----- Small operations -----

  method Clear(vli: Vli)
    requires vli.Length == DIGITS
    modifies vli
    ensures vli[..] == [0, 0, 0, 0] && F(vli[..]) == 0
  {
    for i := 0 to DIGITS
      invariant forall j :: 0 <= j < i ==> vli[j] == 0
    {
      vli[i] := 0;
    }
    FourDigits(vli[..]);
  }

  method IsZero(vli: Vli) returns (r: bool)
    requires vli.Length == DIGITS
    ensures r <==> F(vli[..]) == 0
  {
    for i := 0 to DIGITS
      invariant forall j :: 0 <= j < i ==> vli[j] == 0
    {
      if vli[i] != 0 {
        ValZero(W, vli[..], i);
        return false;
      }
    }
    ValZeros(W, vli[..]);
    return true;
  }

  method Set(dest: Vli, src: Vli)
    requires dest.Length == src.Length == DIGITS
    modifies dest
    ensures dest[..] == old(src[..])
  {
    for i := 0 to DIGITS
      invariant forall j :: 0 <= j < i ==> dest[j] == old(src[j])
      invariant forall j :: i <= j < DIGITS ==> src[j] == old(src[j])
    {
      dest[i] := src[i];
    }
  }

  method Cmp(left: Vli, right: Vli) returns (r: int)
    requires left.Length == right.Length == DIGITS
    ensures r == if F(left[..]) > F(right[..]) then 1 else if F(left[..]) < F(right[..]) then -1 else 0
  {
    var i := DIGITS - 1;
    while i >= 0
      invariant -1 <= i < DIGITS && left[i + 1..] == right[i + 1..]
    {
      assert left[i..] == [left[i]] + left[i + 1..] && right[i..] == [right[i]] + right[i + 1..];
      assert left[..][i + 1..] == left[i + 1..] && right[..][i + 1..] == right[i + 1..];
      if left[i] > right[i] {
        ValLess(W, right[..], left[..], i);
        return 1;
      } else if left[i] < right[i] {
        ValLess(W, left[..], right[..], i);
        return -1;
      }
      i := i - 1;
    }
    assert left[..] == left[0..] && right[..] == right[0..];
    return 0;
  }

  // ----- Carry chains; result may be an operand -----

  // The carry is kept when a sum equals its left digit.
  method Add(result: Vli, left: Vli, right: Vli) returns (carry: nat)
    requires result.Length == left.Length == right.Length == DIGITS
    modifies result
    ensures carry <= 1
    ensures F(result[..]) + carry * TOP == old(F(left[..])) + old(F(right[..]))
  {
    ghost var x, y := left[..], right[..];
    carry := 0;
    for i := 0 to DIGITS
      invariant carry <= 1
      invariant forall j :: i <= j < DIGITS ==> left[j] == x[j] && right[j] == y[j]
      invariant F(result[..i]) + carry * Pow(W, i) == F(x[..i]) + F(y[..i])
    {
      ghost var carry0 := carry;
      var sum := (left[i] + right[i] + carry) % W;
      if sum != left[i] {
        carry := if sum < left[i] then 1 else 0;
      }
      AddColumn(W, Pow(W, i), x[i], y[i], carry0, sum, carry);
      ghost var before := result[..i];
      result[i] := sum;
      assert result[..i] == before;
      ValNext(W, result[..], i);
      ValNext(W, x, i);
      ValNext(W, y, i);
      assert result[..][..i] == result[..i] && result[..][..i + 1] == result[..i + 1];
    }
    PowTop();
    assert result[..DIGITS] == result[..] && x[..DIGITS] == x && y[..DIGITS] == y;
  }

  method Sub(result: Vli, left: Vli, right: Vli) returns (borrow: nat)
    requires result.Length == left.Length == right.Length == DIGITS
    modifies result
    ensures borrow <= 1
    ensures F(result[..]) + old(F(right[..])) == old(F(left[..])) + borrow * TOP
  {
    ghost var x, y := left[..], right[..];
    borrow := 0;
    for i := 0 to DIGITS
      invariant borrow <= 1
      invariant forall j :: i <= j < DIGITS ==> left[j] == x[j] && right[j] == y[j]
      invariant F(result[..i]) + F(y[..i]) == F(x[..i]) + borrow * Pow(W, i)
    {
      ghost var borrow0 := borrow;
      var diff := (left[i] - right[i] - borrow) % W;
      if diff != left[i] {
        borrow := if diff > left[i] then 1 else 0;
      }
      AddColumn(W, Pow(W, i), y[i], diff, borrow0, x[i], borrow);
      ghost var before := result[..i];
      result[i] := diff;
      assert result[..i] == before;
      ValNext(W, result[..], i);
      ValNext(W, x, i);
      ValNext(W, y, i);
      assert result[..][..i] == result[..i] && result[..][..i + 1] == result[..i + 1];
    }
    PowTop();
    assert result[..DIGITS] == result[..] && x[..DIGITS] == x && y[..DIGITS] == y;
  }

  // ----- Shifts -----

  lemma {:induction false} Pow2Split(shift: nat)
    requires shift <= 64
    ensures Pow2(shift) * Pow2(64 - shift) == W
  {
    if shift == 0 {
      PowWord();
      Pow2Add(32, 32);
    } else {
      Pow2Split(shift - 1);
      TwiceProduct(Pow2(shift - 1), Pow2(64 - shift));
    }
  }

  lemma {:induction false} Pow2Add(j: nat, k: nat)
    ensures Pow2(j + k) == Pow2(j) * Pow2(k)
  {
    if j > 0 {
      Pow2Add(j - 1, k);
      TwiceProduct(Pow2(j - 1), Pow2(k));
    }
  }

  lemma TwiceProduct(p: nat, q: nat)
    ensures (2 * p) * q == 2 * (p * q) == p * (2 * q)
  {
  }

  // A digit times p: its high part is x / q, its low part a multiple of p.
  lemma ShiftDigit(x: nat, p: nat, q: nat)
    requires p > 0 && q > 0 && p * q == W && x < W
    ensures x * p % W == x % q * p && x * p == x % q * p + W * (x / q)
    ensures (x * p % W) % p == 0 && 0 <= x / q < p && x * p % W + p <= W
  {
    assert x == x % q + q * (x / q);
    assert x * p == x % q * p + (x / q) * (p * q);
    MulMono(p, x % q + 1, q);
    DivModUnique(x * p, x / q, x % q * p, W);
    ModShift(0, x % q, p);
    if x / q >= p {
      MulMono(q, p, x / q);
    }
  }

  method Lshift(result: Vli, vli: Vli, shift: nat) returns (carry: nat)
    requires result.Length == vli.Length == DIGITS && 0 < shift < 64
    modifies result
    ensures carry < Pow2(shift)
    ensures F(result[..]) + carry * TOP == Pow2(shift) * old(F(vli[..]))
    ensures old(vli[0]) == 0 ==> result[0] == 0
  {
    ghost var x, p := vli[..], Pow2(shift);
    Pow2Split(shift);
    carry := 0;
    for i := 0 to DIGITS
      invariant carry < p && (i == 0 ==> carry == 0)
      invariant forall j :: i <= j < DIGITS ==> vli[j] == x[j]
      invariant i > 0 && x[0] == 0 ==> result[0] == 0
      invariant F(result[..i]) + carry * Pow(W, i) == p * F(x[..i])
    {
      var temp := vli[i];
      ShiftDigit(temp, p, Pow2(64 - shift));
      OrDisjoint(temp * p % W, carry, shift);
      ghost var carry0, before := carry, result[..i];
      result[i] := Or(temp * Pow2(shift) % W, carry);
      carry := temp / Pow2(64 - shift);
      ShiftColumn(p, Pow(W, i), temp, carry0, result[i], carry, F(x[..i]));
      assert result[..i] == before;
      ValNext(W, result[..], i);
      ValNext(W, x, i);
      assert result[..][..i] == result[..i] && result[..][..i + 1] == result[..i + 1];
    }
    PowTop();
    assert result[..DIGITS] == result[..] && x[..DIGITS] == x;
  }

  lemma ShiftColumn(p: nat, P: nat, temp: nat, carry: nat, z: nat, carry': nat, low: nat)
    requires temp * p + carry == z + W * carry'
    ensures p * low - carry * P + z * P + carry' * (W * P) == p * (low + temp * P)
  {
    assert (temp * p + carry) * P == p * (temp * P) + carry * P;
    assert (z + W * carry') * P == z * P + carry' * (W * P);
    assert p * (low + temp * P) == p * low + p * (temp * P);
  }

  const HIGHBIT: nat := 0x8000_0000_0000_0000

  lemma OrHighBit(x: nat, c: nat)
    requires x < HIGHBIT && c <= 1
    ensures Or(x, c * HIGHBIT) == Or(c * HIGHBIT, x) == c * HIGHBIT + x
  {
    assert Pow2(63) == HIGHBIT by { Pow2Split(63); }
    OrDisjoint(c * HIGHBIT, x, 63);
    OrSwap(x, c * HIGHBIT);
  }

  lemma {:induction false} OrSwap(a: nat, b: nat)
    ensures Or(a, b) == Or(b, a)
    decreases a + b
  {
    if a != 0 || b != 0 {
      OrSwap(a / 2, b / 2);
    }
  }

  lemma LowBit(x: nat)
    ensures x * HIGHBIT % W == x % 2 * HIGHBIT
  {
    assert x * HIGHBIT == x % 2 * HIGHBIT + W * (x / 2);
    ModShift(x % 2 * HIGHBIT, x / 2, W);
  }

  // One digit of a halving: c is the bit that came from above.
  lemma HalfColumn(r: seq<digit>, s: seq<digit>, c: nat)
    requires r != [] && s != [] && c <= 1
    requires r[0] == c * HIGHBIT + s[0] / 2
    requires 2 * F(r[1..]) + c == F(s[1..])
    ensures 2 * F(r) + s[0] % 2 == F(s)
  {
    OneDigit(r);
    OneDigit(s);
  }

  method Rshift1(vli: Vli)
    requires vli.Length == DIGITS
    modifies vli
    ensures F(vli[..]) == old(F(vli[..])) / 2
    ensures vli[3] < HIGHBIT
  {
    ghost var s := vli[..];
    var i, carry := DIGITS, 0;
    ghost var bit := 0;
    while i > 0
      invariant 0 <= i <= DIGITS && 0 <= bit <= 1 && carry == bit * HIGHBIT
      invariant forall j :: 0 <= j < i ==> vli[j] == s[j]
      invariant 2 * F(vli[i..]) + bit == F(s[i..])
      invariant i == DIGITS ==> bit == 0
      invariant i < DIGITS ==> vli[3] < HIGHBIT
    {
      i := i - 1;
      var temp := vli[i];
      ghost var above := vli[i + 1..];
      OrHighBit(temp / 2, bit);
      LowBit(temp);
      vli[i] := Or(temp / 2, carry);
      assert vli[i..][1..] == above && s[i..][1..] == s[i + 1..];
      HalfColumn(vli[i..], s[i..], bit);
      bit := temp % 2;
      carry := temp * HIGHBIT % W;
    }
    assert vli[0..] == vli[..] && s[0..] == s;
  }
}
