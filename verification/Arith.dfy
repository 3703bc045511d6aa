// Integer facts shared by the models: division, remainders, products.
module Arith {

  lemma MulSign(n: int, d: int)
    requires n > 0
    ensures d >= 1 ==> n * d >= n
    ensures d <= -1 ==> n * d <= -n
  {
    if d >= 1 {
      assert n * d == n + n * (d - 1);
    } else if d <= -1 {
      assert n * d == -n + n * (d + 1);
    }
  }

  // A quotient and remainder pair is the quotient and remainder.
  lemma DivModUnique(x: int, q: int, r: int, n: int)
    requires n > 0 && 0 <= r < n && x == n * q + r
    ensures x / n == q && x % n == r
  {
    var d := x / n - q;
    assert n * (x / n) - n * q == n * d;
    MulSign(n, d);
  }

  lemma ModShift(z: int, q: int, n: int)
    requires n > 0
    ensures (z + n * q) % n == z % n
    ensures (z + n * q) / n == z / n + q
  {
    assert z + n * q == n * (z / n + q) + z % n by {
      assert n * (z / n + q) == n * (z / n) + n * q;
    }
    DivModUnique(z + n * q, z / n + q, z % n, n);
  }

  lemma ModAdd(x: int, y: int, n: int)
    requires n > 0
    ensures (x % n + y) % n == (x + y) % n
  {
    assert x + y == (x % n + y) + n * (x / n);
    ModShift(x % n + y, x / n, n);
  }

  lemma MulMono(a: int, b: int, c: int)
    requires 0 <= a && b <= c
    ensures a * b <= a * c
  {
  }

  // A difference that borrowed at most once.
  lemma ModBorrow(x: int, r: int, borrow: int, n: int)
    requires 0 <= r < n && 0 <= borrow <= 1 && r == x + borrow * n
    ensures x % n == r
  {
    DivModUnique(x, -borrow, r, n);
  }

  lemma ModCarry(x: int, r: int, carry: int, n: int)
    requires 0 <= r < n && x == r + carry * n
    ensures x % n == r
  {
    DivModUnique(x, carry, r, n);
  }
}
