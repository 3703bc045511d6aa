// The probe sequence of the open-addressing table: triangular steps modulo a
// power of two.  Nothing here depends on the table itself.
module Probing {
  import opened Arith

  predicate IsPow2(n: nat) {
    n == 1 || (n > 1 && n % 2 == 0 && IsPow2(n / 2))
  }

  // 1 + 2 + ... + s
  function Tri(s: nat): nat {
    if s == 0 then 0 else Tri(s - 1) + s
  }

  // x & (n - 1), for n a power of two.
  function Mask(x: nat, n: nat): (r: nat)
    ensures n > 0 ==> r < n
    decreases n
  {
    if n <= 1 then 0 else 2 * Mask(x / 2, n / 2) + x % 2
  }

  lemma {:induction false} MaskAdd(x: nat, y: nat, n: nat)
    requires IsPow2(n)
    ensures Mask(Mask(x, n) + y, n) == Mask(x + y, n)
    decreases n
  {
    if n > 1 {
      MaskAdd(x / 2, (x % 2 + y) / 2, n / 2);
      assert (Mask(x, n) + y) / 2 == Mask(x / 2, n / 2) + (x % 2 + y) / 2;
      assert (x + y) / 2 == x / 2 + (x % 2 + y) / 2;
    }
  }

  // Equal low bits: the numbers differ by a multiple of n.
  lemma {:induction false} MaskEqual(x: nat, y: nat, n: nat) returns (q: int)
    requires IsPow2(n) && Mask(x, n) == Mask(y, n)
    ensures y - x == n * q
    decreases n
  {
    if n == 1 {
      q := y - x;
    } else {
      q := MaskEqual(x / 2, y / 2, n / 2);
      DoubleProduct(n / 2, q);
    }
  }

  lemma {:induction false} MaskSmall(x: nat, n: nat)
    requires IsPow2(n) && x < n
    ensures Mask(x, n) == x
    decreases n
  {
    if n > 1 {
      MaskSmall(x / 2, n / 2);
    }
  }

  // The bucket visited after `s` steps of `i = (i + (++step)) & mask`.
  function Probe(start: nat, s: nat, n: nat): (i: nat)
    requires n > 0
    ensures i < n
    decreases s
  {
    if s == 0 then Mask(start, n) else Mask(Probe(start, s - 1, n) + s, n)
  }

  // The steps add up to triangular numbers.
  lemma {:induction false} ProbeIsTriangular(start: nat, s: nat, n: nat)
    requires IsPow2(n)
    ensures Probe(start, s, n) == Mask(start + Tri(s), n)
    decreases s
  {
    if s > 0 {
      ProbeIsTriangular(start, s - 1, n);
      MaskAdd(start + Tri(s - 1), s, n);
    }
  }

  // An odd factor does not help divisibility by a power of two.
  lemma {:induction false} OddFactor(x: int, y: int, n: nat, q: int) returns (r: int)
    requires IsPow2(n) && x % 2 == 1 && x * y == n * q
    ensures y == n * r
    decreases n
  {
    if n == 1 {
      r := y;
    } else {
      var m, z, w := n / 2, y / 2, x / 2;
      assert n * q == 2 * (m * q);
      assert x * y == 2 * (w * y) + y;
      assert y == 2 * z;
      assert x * y == 2 * (x * z);
      r := OddFactor(x, z, m, q);
      assert n * r == 2 * (m * r);
    }
  }

  lemma {:induction false} TriTwice(s: nat)
    ensures 2 * Tri(s) == s * (s + 1)
  {
    if s > 0 {
      TriTwice(s - 1);
    }
  }

  lemma TriDifference(a: nat, b: nat)
    ensures 2 * (Tri(b) - Tri(a)) == (b - a) * (a + b + 1)
  {
    TriTwice(a);
    TriTwice(b);
    assert b * (b + 1) - a * (a + 1) == (b - a) * (a + b + 1);
  }

  // The first n probes never repeat: with n a power of two, two triangular
  // numbers below n are never congruent.
  lemma ProbesDistinct(start: nat, a: nat, b: nat, n: nat)
    requires IsPow2(n) && a < b < n
    ensures Probe(start, a, n) != Probe(start, b, n)
  {
    ProbeIsTriangular(start, a, n);
    ProbeIsTriangular(start, b, n);
    if Probe(start, a, n) == Probe(start, b, n) {
      var q := MaskEqual(start + Tri(a), start + Tri(b), n);
      NoCongruentTriangles(a, b, n, q);
    }
  }

  function Twice(n: nat): (m: nat)
    ensures m == 2 * n && (IsPow2(n) ==> IsPow2(m))
  {
    n + n
  }

  lemma NoCongruentTriangles(a: nat, b: nat, n: nat, q: int)
    requires IsPow2(n) && a < b < n
    ensures Tri(b) - Tri(a) != n * q
  {
    TriDifference(a, b);
    DoubleProduct(n, q);
    NoOddEvenSplit(b - a, a + b + 1, Twice(n), q);
  }

  lemma DoubleProduct(n: int, q: int)
    ensures 2 * (n * q) == (2 * n) * q
  {
  }

  // Two positive numbers of different parity below a power of two do not
  // multiply to a multiple of it.
  lemma NoOddEvenSplit(x: int, y: int, n: nat, q: int)
    requires IsPow2(n) && 0 < x < n && 0 < y < n && (x + y) % 2 == 1
    ensures x * y != n * q
  {
    if x * y == n * q {
      var r;
      if x % 2 == 1 {
        r := OddFactor(x, y, n, q);
      } else {
        r := OddFactor(y, x, n, q);
      }
      MulSign(n, r);
    }
  }

  // Pigeonhole: n distinct values below n are all of them.
  lemma InjectionCovers(f: nat -> nat, n: nat, target: nat)
    requires target < n
    requires forall i :: 0 <= i < n ==> f(i) < n
    requires forall i, j :: 0 <= i < j < n ==> f(i) != f(j)
    ensures exists i :: 0 <= i < n && f(i) == target
  {
    if forall i :: 0 <= i < n ==> f(i) != target {
      var image := Image(f, n);
      var all := Below(n);
      assert image <= all - {target};
      SubsetSize(image, all - {target});
    }
  }

  lemma SubsetSize<T>(s: set<T>, t: set<T>)
    requires s <= t
    ensures |s| <= |t|
    decreases t
  {
    if s != {} {
      var x :| x in s;
      SubsetSize(s - {x}, t - {x});
    }
  }

  ghost function Below(n: nat): (s: set<nat>)
    ensures |s| == n
    ensures forall x :: x in s <==> 0 <= x < n
  {
    if n == 0 then {} else Below(n - 1) + {n - 1}
  }

  ghost function Image(f: nat -> nat, n: nat): (s: set<nat>)
    requires forall i, j :: 0 <= i < j < n ==> f(i) != f(j)
    ensures |s| == n
    ensures forall x :: x in s <==> exists i :: 0 <= i < n && f(i) == x
  {
    if n == 0 then {} else Image(f, n - 1) + {f(n - 1)}
  }

  // Every bucket is visited within the first n steps.
  lemma ProbeCovers(start: nat, n: nat, target: nat)
    requires IsPow2(n) && target < n
    ensures exists s :: 0 <= s < n && Probe(start, s, n) == target
  {
    var f := (s: nat) => Probe(start, s, n);
    forall i, j | 0 <= i < j < n
      ensures f(i) != f(j)
    {
      ProbesDistinct(start, i, j, n);
    }
    InjectionCovers(f, n, target);
    var s :| 0 <= s < n && f(s) == target;
    assert Probe(start, s, n) == target;
  }

  lemma {:induction false} MaskMultiple(x: nat, q: nat, n: nat)
    requires IsPow2(n)
    ensures Mask(x + n * q, n) == Mask(x, n)
    decreases n
  {
    if n > 1 {
      var m := n / 2;
      assert n * q == 2 * (m * q);
      assert (x + n * q) / 2 == x / 2 + m * q;
      MaskMultiple(x / 2, q, m);
    }
  }

  lemma TriRound(n: nat, s: nat)
    requires s + 1 == 2 * n
    ensures Tri(s) == n * s
  {
    TriTwice(s);
    DoubleProduct(n, s);
  }

  lemma MaskRound(start: nat, t: nat, s: nat, n: nat)
    requires IsPow2(n) && t == n * s
    ensures Mask(start + t, n) == Mask(start, n)
  {
    MaskMultiple(start, s, n);
  }

  // The probe is back at its start after 2n - 1 steps.
  lemma ProbeReturns(start: nat, s: nat, n: nat)
    requires IsPow2(n) && s + 1 == 2 * n
    ensures Probe(start, s, n) == Mask(start, n)
  {
    ProbeIsTriangular(start, s, n);
    TriRound(n, s);
    MaskRound(start, Tri(s), s, n);
  }
}
