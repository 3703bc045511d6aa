// Products of field elements by columns, in full.
module FieldMul {
  import opened Arith
  import opened Bits
  import opened Limbs
  import opened Field

  // 2^256 - 2^224 + 2^192 + 2^96 - 1
  const P: nat := 0xFFFF_FFFF_0000_0001_0000_0000_0000_0000_0000_0000_FFFF_FFFF_FFFF_FFFF_FFFF_FFFF

  const CURVE_P: seq<digit> := [0xFFFF_FFFF_FFFF_FFFF, 0xFFFF_FFFF, 0, 0xFFFF_FFFF_0000_0001]

  lemma CurvePrime()
    ensures |CURVE_P| == DIGITS && F(CURVE_P) == P
  {
    FourDigits(CURVE_P);
  }

  // ----- Products, one column at a time -----

  // The first row of column k.
  function First(k: nat): nat {
    if k < DIGITS then 0 else k + 1 - DIGITS
  }

  function Last(k: nat): nat {
    if k < DIGITS then k + 1 else DIGITS
  }

  function Term(x: nat, y: nat): nat {
    x * y
  }

  // Column k summed over the rows below i.
  function Column(x: seq<digit>, y: seq<digit>, k: nat, i: nat): nat
    requires |x| == |y| == DIGITS && k < 2 * DIGITS - 1 && First(k) <= i <= Last(k)
    decreases i
  {
    if i == First(k) then 0 else Column(x, y, k, i - 1) + Term(x[i - 1], y[k - (i - 1)])
  }

  // The columns below k, each at its place.
  function Columns(x: seq<digit>, y: seq<digit>, k: nat): nat
    requires |x| == |y| == DIGITS && k <= 2 * DIGITS - 1
  {
    if k == 0 then 0 else Columns(x, y, k - 1) + Place(Column(x, y, k - 1, Last(k - 1)), Pow(W, k - 1))
  }

  function Place(c: nat, p: nat): nat {
    c * p
  }

  lemma Product(x: digit, y: digit)
    ensures Term(x, y) <= (W - 1) * (W - 1)
  {
    MulMono(x, y, W - 1);
    MulMono(W - 1, x, W - 1);
  }

  lemma {:induction false} ColumnBound(x: seq<digit>, y: seq<digit>, k: nat, i: nat)
    requires |x| == |y| == DIGITS && k < 2 * DIGITS - 1 && First(k) <= i <= Last(k)
    ensures Column(x, y, k, i) <= (i - First(k)) * ((W - 1) * (W - 1))
    decreases i
  {
    if i > First(k) {
      ColumnBound(x, y, k, i - 1);
      Product(x[i - 1], y[k - (i - 1)]);
    }
  }

  lemma RowProduct(a: nat, y: seq<digit>)
    requires |y| == DIGITS
    ensures a * F(y) == Term(a, y[0]) + W * Term(a, y[1]) + W2 * Term(a, y[2]) + W * W2 * Term(a, y[3])
  {
    FourDigits(y);
  }

  lemma Rows(x: seq<digit>, v: nat)
    requires |x| == DIGITS
    ensures F(x) * v == x[0] * v + W * (x[1] * v) + W2 * (x[2] * v) + W * W2 * (x[3] * v)
  {
    FourDigits(x);
  }

  lemma ColumnTerms(x: seq<digit>, y: seq<digit>)
    requires |x| == |y| == DIGITS
    ensures Column(x, y, 0, 1) == Term(x[0], y[0])
    ensures Column(x, y, 1, 2) == Term(x[0], y[1]) + Term(x[1], y[0])
    ensures Column(x, y, 2, 3) == Term(x[0], y[2]) + Term(x[1], y[1]) + Term(x[2], y[0])
    ensures Column(x, y, 3, 4) == Term(x[0], y[3]) + Term(x[1], y[2]) + Term(x[2], y[1]) + Term(x[3], y[0])
    ensures Column(x, y, 4, 4) == Term(x[1], y[3]) + Term(x[2], y[2]) + Term(x[3], y[1])
    ensures Column(x, y, 5, 4) == Term(x[2], y[3]) + Term(x[3], y[2])
    ensures Column(x, y, 6, 4) == Term(x[3], y[3])
  {
  }

  lemma PlaceColumn(x: seq<digit>, y: seq<digit>, k: nat, c: nat, p: nat)
    requires |x| == |y| == DIGITS && k < 2 * DIGITS - 1 && c == Column(x, y, k, Last(k)) && p == Pow(W, k)
    ensures Columns(x, y, k + 1) == Columns(x, y, k) + c * p
  {
  }

  // The seven columns are the sixteen digit products.
  lemma ColumnsAreProduct(x: seq<digit>, y: seq<digit>)
    requires |x| == |y| == DIGITS
    ensures Columns(x, y, 7) == F(x) * F(y)
  {
    Rows(x, F(y));
    RowProduct(x[0], y);
    RowProduct(x[1], y);
    RowProduct(x[2], y);
    RowProduct(x[3], y);
    ColumnTerms(x, y);
    PlaceColumn(x, y, 0, Column(x, y, 0, 1), 1);
    PlaceColumn(x, y, 1, Column(x, y, 1, 2), W);
    PlaceColumn(x, y, 2, Column(x, y, 2, 3), W2);
    PlaceColumn(x, y, 3, Column(x, y, 3, 4), W * W2);
    PlaceColumn(x, y, 4, Column(x, y, 4, 4), TOP);
    PlaceColumn(x, y, 5, Column(x, y, 5, 4), W * TOP);
    PlaceColumn(x, y, 6, Column(x, y, 6, 4), W2 * TOP);
  }

  // One row: the 128-bit sum wraps exactly when it ends below the product.
  method AddRow(r01: uint128, r2: nat, product: uint128) returns (r01': uint128, r2': nat)
    ensures r01' + r2' * W2 == r01 + r2 * W2 + product
    ensures r2 <= r2' <= r2 + 1
  {
    r01' := (r01 + product) % W2;
    r2' := r2 + (if r01' < product then 1 else 0);
  }

  method MultColumn(left: Vli, right: Vli, k: nat, carry: uint128) returns (r01: uint128, r2: digit)
    requires left.Length == right.Length == DIGITS && k < 2 * DIGITS - 1
    ensures r01 + r2 * W2 == carry + Column(left[..], right[..], k, Last(k)) && r2 <= 4
  {
    r01, r2 := carry, 0;
    var i := First(k);
    while i <= k && i < DIGITS
      invariant First(k) <= i <= Last(k) && r2 <= i - First(k)
      invariant r01 + r2 * W2 == carry + Column(left[..], right[..], k, i)
    {
      Product(left[i], right[k - i]);
      var product: nat := Term(left[i], right[k - i]);
      r01, r2 := AddRow(r01, r2, product);
      i := i + 1;
    }
  }

  // Moving to the next column: the low digit goes out, the rest moves down.
  lemma NextColumn(r01: uint128, r2: digit)
    requires r2 <= 4
    ensures Or(r01 / W, r2 * W) == r01 / W + r2 * W < W2
    ensures r01 + r2 * W2 == r01 % W + W * (r01 / W + r2 * W)
  {
    Pow2Split(0);
    assert r2 * W % Pow2(64) == 0 by { ModShift(0, r2, W); }
    OrDisjoint(r2 * W, r01 / W, 64);
    OrSwap(r01 / W, r2 * W);
  }

  lemma PutColumn(P: nat, done: nat, carry: nat, sum: nat, z: nat, carry': nat, total: nat)
    requires done + carry * P == total
    requires carry + sum == z + W * carry'
    ensures done + z * P + carry' * (W * P) == total + sum * P
  {
    assert (carry + sum) * P == carry * P + sum * P;
    assert (z + W * carry') * P == z * P + carry' * (W * P);
  }

  method Mult(result: Vli, left: Vli, right: Vli)
    requires result.Length == 2 * DIGITS && left.Length == right.Length == DIGITS
    modifies result
    ensures left[..] == old(left[..]) && right[..] == old(right[..])
    ensures F(result[..]) == F(left[..]) * F(right[..])
  {
    ghost var x, y := left[..], right[..];
    var r01 := MultColumns(result, left, right);
    ghost var low := result[..7];
    ProductColumns(F(low), r01, x, y);
    result[2 * DIGITS - 1] := r01 % W;
    assert result[..] == low + [r01 % W];
    ProductDigits(low, r01, x, y);
  }

  lemma ProductColumns(low: nat, r01: nat, x: seq<digit>, y: seq<digit>)
    requires |x| == |y| == DIGITS && low + r01 * Pow(W, 7) == Columns(x, y, 7)
    ensures low + r01 * Pow(W, 7) == F(x) * F(y) && r01 < W
  {
    ColumnsAreProduct(x, y);
    LastDigit(low, r01, F(x), F(y), x, y);
  }

  lemma ProductDigits(low: seq<digit>, r01: nat, x: seq<digit>, y: seq<digit>)
    requires |low| == 7 && r01 < W && F(low) + r01 * Pow(W, 7) == F(x) * F(y)
    ensures F(low + [r01 % W]) == F(x) * F(y)
  {
    assert r01 % W == r01;
    ValSnoc(W, low, r01);
  }

  // All digits but the last; what is left over is returned.
  method MultColumns(result: Vli, left: Vli, right: Vli) returns (r01: uint128)
    requires result.Length == 2 * DIGITS && left.Length == right.Length == DIGITS
    modifies result
    ensures left[..] == old(left[..]) && right[..] == old(right[..])
    ensures F(result[..7]) + r01 * Pow(W, 7) == Columns(left[..], right[..], 7)
  {
    ghost var x, y := left[..], right[..];
    r01 := 0;
    for k := 0 to 2 * DIGITS - 1
      invariant left[..] == x && right[..] == y
      invariant F(result[..k]) + r01 * Pow(W, k) == Columns(x, y, k)
    {
      ghost var carry, before := r01, result[..k];
      var r2;
      r01, r2 := MultColumn(left, right, k, r01);
      NextColumn(r01, r2);
      PutColumn(Pow(W, k), F(before), carry, Column(x, y, k, Last(k)), r01 % W, r01 / W + r2 * W, Columns(x, y, k));
      result[k] := r01 % W;
      assert result[..][..k] == before && result[..][..k + 1] == result[..k + 1];
      ValNext(W, result[..], k);
      r01 := Or(r01 / W, r2 * W);
    }
  }

  lemma LastDigit(low: nat, r01: nat, vx: nat, vy: nat, x: seq<digit>, y: seq<digit>)
    requires |x| == |y| == DIGITS && vx == F(x) && vy == F(y)
    requires low + r01 * Pow(W, 7) == vx * vy
    ensures r01 < W
  {
    FourDigits(x);
    FourDigits(y);
    MulMono(vx, vy, TOP - 1);
    MulMono(TOP - 1, vx, TOP - 1);
    assert Pow(W, 7) == W * W2 * TOP by { PowTop(); }
  }
}
