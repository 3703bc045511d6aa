// Numbers as little-endian sequences of limbs, in any base.
module Limbs {
  import opened Arith

  function Pow(B: nat, n: nat): nat {
    if n == 0 then 1 else B * Pow(B, n - 1)
  }

  function Val(B: nat, s: seq<nat>): nat {
    if s == [] then 0 else s[0] + B * Val(B, s[1..])
  }

  ghost predicate Digits(B: nat, s: seq<nat>) {
    forall i :: 0 <= i < |s| ==> s[i] < B
  }

  lemma PowPositive(B: nat, n: nat)
    requires B > 0
    ensures Pow(B, n) > 0
  {
  }

  lemma {:induction false} ValSnoc(B: nat, s: seq<nat>, x: nat)
    ensures Val(B, s + [x]) == Val(B, s) + x * Pow(B, |s|)
  {
    if s == [] {
      assert s + [x] == [x];
      assert [x][1..] == [];
    } else {
      assert (s + [x])[1..] == s[1..] + [x];
      ValSnoc(B, s[1..], x);
      MulSwap(B, x, Pow(B, |s| - 1));
      assert B * (Val(B, s[1..]) + x * Pow(B, |s| - 1)) == B * Val(B, s[1..]) + B * (x * Pow(B, |s| - 1));
    }
  }

  lemma MulSwap(a: int, b: int, c: int)
    ensures a * (b * c) == b * (a * c)
  {
    assert a * (b * c) == (a * b) * c == (b * a) * c;
  }

  // The prefix one longer.
  lemma ValNext(B: nat, s: seq<nat>, i: nat)
    requires i < |s|
    ensures Val(B, s[..i + 1]) == Val(B, s[..i]) + s[i] * Pow(B, i)
  {
    assert s[..i + 1] == s[..i] + [s[i]];
    ValSnoc(B, s[..i], s[i]);
  }

  lemma {:induction false} ValBound(B: nat, s: seq<nat>)
    requires B > 0 && Digits(B, s)
    ensures Val(B, s) < Pow(B, |s|)
  {
    if s != [] {
      assert Digits(B, s[1..]);
      ValBound(B, s[1..]);
      MulMono(B, Val(B, s[1..]), Pow(B, |s| - 1) - 1);
      assert B * (Pow(B, |s| - 1) - 1) == B * Pow(B, |s| - 1) - B;
    }
  }

  lemma SplitStep(B: nat, x: nat, lo: nat, p: nat, v: nat)
    ensures x + B * (lo + p * v) == (x + B * lo) + (B * p) * v
  {
    assert B * (lo + p * v) == B * lo + B * (p * v);
    assert B * (p * v) == (B * p) * v;
  }

  lemma {:induction false} ValSplit(B: nat, s: seq<nat>, i: nat)
    requires i <= |s|
    ensures Val(B, s) == Val(B, s[..i]) + Pow(B, i) * Val(B, s[i..])
  {
    if i == 0 {
      assert s[..0] == [] && s[0..] == s;
    } else {
      var t := s[1..];
      assert s[..i][1..] == t[..i - 1] && t[i - 1..] == s[i..];
      ValSplit(B, t, i - 1);
      SplitStep(B, s[0], Val(B, t[..i - 1]), Pow(B, i - 1), Val(B, s[i..]));
    }
  }

  lemma {:induction false} ValZeros(B: nat, s: seq<nat>)
    requires forall i :: 0 <= i < |s| ==> s[i] == 0
    ensures Val(B, s) == 0
  {
    if s != [] {
      ValZeros(B, s[1..]);
    }
  }

  lemma {:induction false} ValZero(B: nat, s: seq<nat>, i: nat)
    requires B > 0 && i < |s| && s[i] != 0
    ensures Val(B, s) > 0
  {
    if i > 0 {
      ValZero(B, s[1..], i - 1);
      MulMono(B, 1, Val(B, s[1..]));
    }
  }

  lemma {:induction false} PowAdd(B: nat, m: nat, n: nat)
    ensures Pow(B, m + n) == Pow(B, m) * Pow(B, n)
  {
    if m > 0 {
      PowAdd(B, m - 1, n);
      assert B * (Pow(B, m - 1) * Pow(B, n)) == (B * Pow(B, m - 1)) * Pow(B, n);
    }
  }

  // x * B^k
  function Shift(B: nat, x: nat, k: nat): nat {
    if k == 0 then x else B * Shift(B, x, k - 1)
  }

  lemma {:induction false} ShiftIsPow(B: nat, x: nat, k: nat)
    ensures Shift(B, x, k) == x * Pow(B, k)
  {
    if k > 0 {
      ShiftIsPow(B, x, k - 1);
      MulSwap(B, x, Pow(B, k - 1));
    }
  }

  lemma {:induction false} ShiftSum(B: nat, x: nat, y: nat, k: nat)
    ensures Shift(B, x + y, k) == Shift(B, x, k) + Shift(B, y, k)
  {
    if k > 0 {
      ShiftSum(B, x, y, k - 1);
      assert B * (Shift(B, x, k - 1) + Shift(B, y, k - 1)) == B * Shift(B, x, k - 1) + B * Shift(B, y, k - 1);
    }
  }

  lemma {:induction false} ShiftShift(B: nat, x: nat, j: nat, k: nat)
    ensures Shift(B, Shift(B, x, j), k) == Shift(B, x, j + k)
    decreases k
  {
    if k > 0 {
      ShiftShift(B, x, j, k - 1);
    }
  }

  lemma {:induction false} ShiftTimes(B: nat, m: nat, x: nat, k: nat)
    ensures m * Shift(B, x, k) == Shift(B, m * x, k)
  {
    if k > 0 {
      ShiftTimes(B, m, x, k - 1);
      MulSwap(m, B, Shift(B, x, k - 1));
    }
  }

  lemma ShiftNext(B: nat, s: seq<nat>, i: nat)
    requires i < |s|
    ensures Val(B, s[..i + 1]) == Val(B, s[..i]) + Shift(B, s[i], i)
  {
    ValNext(B, s, i);
    ShiftIsPow(B, s[i], i);
  }

  // Sequences are compared by their most significant difference.
  lemma {:induction false} ValLess(B: nat, s: seq<nat>, t: seq<nat>, i: nat)
    requires B > 0 && Digits(B, s) && Digits(B, t) && |s| == |t| && i < |s|
    requires s[i] < t[i] && s[i + 1..] == t[i + 1..]
    ensures Val(B, s) < Val(B, t)
    decreases i
  {
    if i > 0 {
      assert s[1..][i..] == s[i + 1..] && t[1..][i..] == t[i + 1..];
      ValLess(B, s[1..], t[1..], i - 1);
      HighWins(B, s[0], Val(B, s[1..]), t[0], Val(B, t[1..]));
    } else {
      assert s[1..] == t[1..];
    }
  }

  lemma HighWins(B: nat, x: nat, v: nat, y: nat, w: nat)
    requires x < B && v < w
    ensures x + B * v < y + B * w
  {
    MulMono(B, v + 1, w);
    assert B * (v + 1) == B * v + B;
  }

  // One column of an addition: a + b + carry = digit + B * carry'.
  lemma AddColumn(B: nat, P: nat, x: nat, y: nat, carry: nat, z: nat, carry': nat)
    requires x + y + carry == z + B * carry'
    ensures x * P + y * P + carry * P == z * P + carry' * (B * P)
  {
    assert (x + y + carry) * P == x * P + y * P + carry * P;
    assert (z + B * carry') * P == z * P + (B * carry') * P;
    assert (B * carry') * P == carry' * (B * P);
  }

  // Adding multiples of the modulus does not change a remainder.
  lemma ModSum(x: int, y: int, n: int)
    requires n > 0
    ensures (x % n + y % n) % n == (x + y) % n
  {
    ModAdd(x, y % n, n);
    ModAdd(y, x, n);
  }

  lemma ModMultiple(x: int, k: int, n: int)
    requires n > 0
    ensures (x + k * n) % n == x % n
  {
    ModShift(x, k, n);
  }
}
