// Bitwise operations on non-negative integers, and the bit trick that rounds
// a requested bucket count up to a power of two.
module Bits {
  import Arith
  import opened Limbs
  import opened Probing

  function Pow2(k: nat): (p: nat)
    ensures p > 0
  {
    PowPositive(2, k);
    Pow(2, k)
  }

  // The bitwise or of two words.
  function Or(a: nat, b: nat): nat
    decreases a + b
  {
    if a == 0 && b == 0 then 0
    else 2 * Or(a / 2, b / 2) + (if a % 2 == 1 || b % 2 == 1 then 1 else 0)
  }

  function Shr(x: nat, k: nat): nat
    decreases k
  {
    if k == 0 then x else Shr(x / 2, k - 1)
  }

  function Bit(x: nat, i: nat): nat
    decreases i
  {
    if i == 0 then x % 2 else Bit(x / 2, i - 1)
  }

  lemma {:induction false} OrBit(a: nat, b: nat, i: nat)
    ensures Bit(Or(a, b), i) == 0 <==> Bit(a, i) == 0 && Bit(b, i) == 0
    decreases i
  {
    if i > 0 {
      OrBit(a / 2, b / 2, i - 1);
    }
  }

  lemma {:induction false} ShrBit(x: nat, k: nat, i: nat)
    ensures Bit(Shr(x, k), i) == Bit(x, i + k)
    decreases k
  {
    if k > 0 {
      ShrBit(x / 2, k - 1, i);
    }
  }

  lemma {:induction false} ShrHalf(x: nat, k: nat)
    ensures Shr(x, k) / 2 == Shr(x / 2, k)
    decreases k
  {
    if k > 0 {
      ShrHalf(x / 2, k - 1);
    }
  }

  lemma {:induction false} ZeroBits(x: nat, n: nat)
    requires x < Pow2(n)
    requires forall i :: 0 <= i < n ==> Bit(x, i) == 0
    ensures x == 0
  {
    if n > 0 {
      forall i | 0 <= i < n - 1
        ensures Bit(x / 2, i) == 0
      {
        assert Bit(x, i + 1) == 0;
      }
      ZeroBits(x / 2, n - 1);
      assert Bit(x, 0) == 0;
    }
  }

  // Or with a single bit above which `a` is clear below: the words add up.
  lemma {:induction false} OrDisjoint(a: nat, b: nat, k: nat)
    requires b < Pow2(k) && a % Pow2(k) == 0
    ensures Or(a, b) == a + b
    decreases k
  {
    if k == 0 {
      OrZero(a);
    } else {
      var p := Pow2(k - 1);
      var q := a / (2 * p);
      assert a == 2 * (p * q) by {
        assert a == (2 * p) * q;
      }
      Arith.DivModUnique(a / 2, q, 0, p);
      OrDisjoint(a / 2, b / 2, k - 1);
    }
  }

  lemma {:induction false} OrZero(a: nat)
    ensures Or(a, 0) == a
  {
    if a > 0 {
      OrZero(a / 2);
    }
  }

  // x |= x >> w
  function SmearStep(x: nat, w: nat): nat {
    Or(x, Shr(x, w))
  }

  // The passes with shifts w, 2w, 4w, ... up to 16.
  function SmearFrom(x: nat, w: nat): nat
    requires w > 0
    decreases 17 - w
  {
    if w > 16 then x else SmearFrom(SmearStep(x, w), 2 * w)
  }

  function Smear(x: nat): nat {
    SmearFrom(x, 1)
  }

  const WORD: nat := 0x1_0000_0000

  // --x; smear; ++x, all modulo 2^32
  function RoundUp32(x: nat): nat
    requires x < WORD
  {
    (Smear((x - 1) % WORD) + 1) % WORD
  }

  lemma SmearStepHalf(x: nat, w: nat)
    ensures SmearStep(x, w) / 2 == SmearStep(x / 2, w)
  {
    ShrHalf(x, w);
  }

  lemma {:induction false} SmearHalf(x: nat, w: nat)
    requires w > 0
    ensures SmearFrom(x, w) / 2 == SmearFrom(x / 2, w)
    decreases 17 - w
  {
    if w <= 16 {
      SmearStepHalf(x, w);
      SmearHalf(SmearStep(x, w), 2 * w);
    }
  }

  // A multiple of n is a multiple of 2n, or n above one.
  lemma Aligned(i: nat, n: nat, m: nat)
    requires (n == 1 && m == 2) || (n == 2 && m == 4) || (n == 4 && m == 8) || (n == 8 && m == 16) || (n == 16 && m == 32)
    requires i % n == 0
    ensures i % m == 0 || (i >= n && (i - n) % m == 0)
  {
    if n == 1 {
      assert i % 2 == 0 || (i - 1) % 2 == 0;
    } else if n == 2 {
      AlignedTo2(i);
    } else if n == 4 {
      AlignedTo4(i);
    } else if n == 8 {
      AlignedTo8(i);
    } else {
      AlignedTo16(i);
    }
  }

  lemma AlignedTo2(i: nat)
    requires i % 2 == 0
    ensures i % 4 == 0 || (i >= 2 && (i - 2) % 4 == 0)
  {
  }

  lemma AlignedTo4(i: nat)
    requires i % 4 == 0
    ensures i % 8 == 0 || (i >= 4 && (i - 4) % 8 == 0)
  {
  }

  lemma AlignedTo8(i: nat)
    requires i % 8 == 0
    ensures i % 16 == 0 || (i >= 8 && (i - 8) % 16 == 0)
  {
  }

  lemma AlignedTo16(i: nat)
    requires i % 16 == 0
    ensures i % 32 == 0 || (i >= 16 && (i - 16) % 32 == 0)
  {
  }

  // A clear bit after a smear step was clear before it, and so was the bit w above.
  lemma SmearStepBits(x: nat, w: nat, n: nat)
    requires w == n && (n == 1 || n == 2 || n == 4 || n == 8 || n == 16)
    requires forall i :: 0 <= i < 32 && i % (2 * n) == 0 ==> Bit(SmearStep(x, w), i) == 0
    ensures forall i :: 0 <= i < 32 && i % n == 0 ==> Bit(x, i) == 0
  {
    forall i | 0 <= i < 32 && i % n == 0
      ensures Bit(x, i) == 0
    {
      var j := if i % (2 * n) == 0 then i else i - n;
      Aligned(i, n, 2 * n);
      assert Bit(SmearStep(x, w), j) == 0;
      OrBit(x, Shr(x, w), j);
      ShrBit(x, w, j);
    }
  }

  lemma SmearOdd(x: nat)
    requires 0 < x < WORD
    ensures Smear(x) % 2 == 1
  {
    if Smear(x) % 2 == 0 {
      var a := SmearStep(x, 1);
      var b := SmearStep(a, 2);
      var c := SmearStep(b, 4);
      var d := SmearStep(c, 8);
      assert Smear(x) == SmearStep(d, 16) by {
        assert SmearFrom(a, 2) == SmearFrom(b, 4) == SmearFrom(c, 8) == SmearFrom(d, 16);
        assert SmearFrom(d, 16) == SmearFrom(SmearStep(d, 16), 32);
      }
      SmearStepBits(d, 16, 16);
      SmearStepBits(c, 8, 8);
      SmearStepBits(b, 4, 4);
      SmearStepBits(a, 2, 2);
      SmearStepBits(x, 1, 1);
      PowWord();
      ZeroBits(x, 32);
    }
  }

  lemma PowWord()
    ensures Pow2(32) == WORD
  {
    assert Pow2(8) == 256;
    assert Pow2(16) == 65536;
    assert Pow2(24) == 0x100_0000;
  }

  lemma {:induction false} SmearZero(w: nat)
    requires w > 0
    ensures SmearFrom(0, w) == 0
    decreases 17 - w
  {
    if w <= 16 {
      ShrZero(w);
      SmearZero(2 * w);
    }
  }

  lemma ShrZero(k: nat)
    ensures Shr(0, k) == 0
  {
  }

  lemma HalfPow2(y: nat)
    requires y % 2 == 1 && IsPow2(y / 2 + 1)
    ensures IsPow2(y + 1)
  {
    assert (y + 1) / 2 == y / 2 + 1 && (y + 1) % 2 == 0;
  }

  lemma {:induction false} SmearValue(x: nat)
    requires x < WORD
    ensures IsPow2(Smear(x) + 1) && x <= Smear(x)
    ensures x > 0 ==> Smear(x) + 1 <= 2 * x
  {
    if x > 0 {
      var y := Smear(x);
      assert y / 2 == Smear(x / 2) by { SmearHalf(x, 1); }
      assert y % 2 == 1 by { SmearOdd(x); }
      SmearValue(x / 2);
      HalfPow2(y);
      if x == 1 {
        SmearZero(1);
      }
    } else {
      SmearZero(1);
    }
  }

  lemma SmearTop(z: nat)
    requires z < WORD
    ensures z >= 0x8000_0000 ==> Smear(z) + 1 == WORD
    ensures z < 0x8000_0000 ==> IsPow2(Smear(z) + 1) && z <= Smear(z) <= 2 * z
  {
    SmearValue(z);
    if z >= 0x8000_0000 {
      PowWord();
      OnlyPow2Between(Smear(z) + 1, 31);
    } else if z == 0 {
      SmearZero(1);
    }
  }

  // The smallest power of two that is at least x, up to 2^31; beyond that (and
  // for a request of zero buckets) the increment wraps to zero.
  lemma RoundUpLeast(x: nat)
    requires x < WORD
    ensures 1 <= x <= 0x8000_0000 ==>
      IsPow2(RoundUp32(x)) && x <= RoundUp32(x) < 2 * x && RoundUp32(x) <= 0x8000_0000
    ensures x == 0 || x > 0x8000_0000 ==> RoundUp32(x) == 0
  {
    var z := (x - 1) % WORD;
    SmearTop(z);
    WrapUp(x, z, Smear(z), RoundUp32(x));
    if 1 <= x <= 0x8000_0000 {
      BelowWord(RoundUp32(x));
    }
  }

  lemma WrapUp(x: nat, z: nat, y: nat, r: nat)
    requires x < WORD && z == (x - 1) % WORD && r == (y + 1) % WORD
    requires z >= 0x8000_0000 ==> y + 1 == WORD
    requires z < 0x8000_0000 ==> z <= y <= 2 * z
    ensures 1 <= x <= 0x8000_0000 ==> r == y + 1 && z < 0x8000_0000 && x <= r < 2 * x
    ensures x == 0 || x > 0x8000_0000 ==> r == 0
  {
  }

  lemma BelowWord(r: nat)
    requires IsPow2(r) && r < WORD
    ensures r <= 0x8000_0000
  {
    if r > 0x8000_0000 {
      PowWord();
      OnlyPow2Between(r, 31);
    }
  }

  lemma BelowHalf(n: nat)
    requires IsPow2(n) && n < 0x8000_0000
    ensures n <= 0x4000_0000
  {
    if n > 0x4000_0000 {
      PowWord();
      OnlyPow2Between(n, 30);
    }
  }

  lemma {:induction false} NextPow2(n: nat, r: nat)
    requires IsPow2(n) && IsPow2(r) && n < r < 4 * n
    ensures r == 2 * n
    decreases n
  {
    if n > 1 {
      NextPow2(n / 2, r / 2);
    }
  }

  lemma {:induction false} OnlyPow2Between(p: nat, n: nat)
    requires IsPow2(p) && Pow2(n) < p < 4 * Pow2(n)
    ensures p == 2 * Pow2(n)
    decreases n
  {
    if n > 0 {
      OnlyPow2Between(p / 2, n - 1);
    }
  }
}
