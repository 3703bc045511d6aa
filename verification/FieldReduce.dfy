// The Solinas reduction modulo the P-256 prime, and modular multiplication.
module FieldReduce {
  import opened Arith
  import opened Bits
  import opened Limbs
  import opened Field
  import opened FieldMul

  const H: nat := 0x1_0000_0000

  // x & 0xffffffff00000000
  function High32(x: digit): digit {
    x / H * H
  }

  // low | (x << 32)
  function Join(low: nat, x: digit): (r: digit)
    requires low < H
    ensures r == low + x % H * H
  {
    JoinDisjoint(low, x % H);
    assert x * H % W == x % H * H by {
      assert x * H == x % H * H + W * (x / H);
      ModShift(x % H * H, x / H, W);
    }
    Or(low, x * H % W)
  }

  // low | (x & 0xffffffff00000000)
  function JoinHigh(low: nat, x: digit): (r: digit)
    requires low < H
    ensures r == low + x / H * H
  {
    JoinDisjoint(low, x / H);
    Or(low, High32(x))
  }

  lemma JoinDisjoint(low: nat, high: nat)
    requires low < H
    ensures Or(low, high * H) == low + high * H
  {
    PowWord();
    ModShift(0, high, H);
    OrDisjoint(high * H, low, 32);
    OrSwap(low, high * H);
  }

  // ----- The terms, from the product's digits -----

  type Product8 = d: seq<digit> | |d| == 8 witness [0, 0, 0, 0, 0, 0, 0, 0]

  function S1(d: Product8): seq<digit> {
    [0, High32(d[5]), d[6], d[7]]
  }

  function S2(d: Product8): seq<digit> {
    [0, d[6] % H * H, Join(d[6] / H, d[7]), d[7] / H]
  }

  function S3(d: Product8): seq<digit> {
    [d[4], d[5] % H, 0, d[7]]
  }

  function S4(d: Product8): seq<digit> {
    [Join(d[4] / H, d[5]), JoinHigh(d[5] / H, d[6]), d[7], Join(d[6] / H, d[4])]
  }

  function D1(d: Product8): seq<digit> {
    [Join(d[5] / H, d[6]), d[6] / H, 0, Join(d[4] % H, d[5])]
  }

  function D2(d: Product8): seq<digit> {
    [d[6], d[7], 0, JoinHigh(d[4] / H, d[5])]
  }

  function D3(d: Product8): seq<digit> {
    [Join(d[6] / H, d[7]), Join(d[7] / H, d[4]), Join(d[4] / H, d[5]), d[6] % H * H]
  }

  function D4(d: Product8): seq<digit> {
    [d[7], High32(d[4]), d[5], High32(d[6])]
  }

  function Folded(d: Product8): int {
    F(d[..4]) + 2 * F(S1(d)) + 2 * F(S2(d)) + F(S3(d)) + F(S4(d)) - F(D1(d)) - F(D2(d)) - F(D3(d)) - F(D4(d))
  }

  // How many times the prime was taken out, by 32-bit words of the high half.
  function Multiple(d: Product8): int {
    WordMultiple(d[4] % H, d[4] / H, d[5] % H, d[5] / H, d[6] % H, d[6] / H, d[7] % H, d[7] / H)
  }

  // Four digits from eight 32-bit words.
  lemma FourWords(s: seq<digit>, a: nat, b: nat, c: nat, d: nat, e: nat, f: nat, g: nat, h: nat)
    requires |s| == 4 && s[0] == a + b * H && s[1] == c + d * H && s[2] == e + f * H && s[3] == g + h * H
    ensures F(s) == a + H * b + W * c + W * H * d + W2 * e + W2 * H * f + W2 * W * g + W2 * W * H * h
  {
    FourDigits(s);
  }

  lemma S1Words(d: Product8)
    ensures F(S1(d)) == W * H * (d[5] / H) + W2 * (d[6] % H) + W2 * H * (d[6] / H) + W2 * W * (d[7] % H) + W2 * W * H * (d[7] / H)
  {
    SplitWords(d[4]);
    SplitWords(d[5]);
    SplitWords(d[6]);
    SplitWords(d[7]);
    FourWords(S1(d), 0, 0, 0, d[5] / H, d[6] % H, d[6] / H, d[7] % H, d[7] / H);
  }

  lemma S2Words(d: Product8)
    ensures F(S2(d)) == W * H * (d[6] % H) + W2 * (d[6] / H) + W2 * H * (d[7] % H) + W2 * W * (d[7] / H)
  {
    SplitWords(d[4]);
    SplitWords(d[5]);
    SplitWords(d[6]);
    SplitWords(d[7]);
    FourWords(S2(d), 0, 0, 0, d[6] % H, d[6] / H, d[7] % H, d[7] / H, 0);
  }

  lemma S3Words(d: Product8)
    ensures F(S3(d)) == (d[4] % H) + H * (d[4] / H) + W * (d[5] % H) + W2 * W * (d[7] % H) + W2 * W * H * (d[7] / H)
  {
    SplitWords(d[4]);
    SplitWords(d[5]);
    SplitWords(d[6]);
    SplitWords(d[7]);
    FourWords(S3(d), d[4] % H, d[4] / H, d[5] % H, 0, 0, 0, d[7] % H, d[7] / H);
  }

  lemma S4Words(d: Product8)
    ensures F(S4(d)) == (d[4] / H) + H * (d[5] % H) + W * (d[5] / H) + W * H * (d[6] / H) + W2 * (d[7] % H) + W2 * H * (d[7] / H) + W2 * W * (d[6] / H) + W2 * W * H * (d[4] % H)
  {
    SplitWords(d[4]);
    SplitWords(d[5]);
    SplitWords(d[6]);
    SplitWords(d[7]);
    FourWords(S4(d), d[4] / H, d[5] % H, d[5] / H, d[6] / H, d[7] % H, d[7] / H, d[6] / H, d[4] % H);
  }

  lemma D1Words(d: Product8)
    ensures F(D1(d)) == (d[5] / H) + H * (d[6] % H) + W * (d[6] / H) + W2 * W * (d[4] % H) + W2 * W * H * (d[5] % H)
  {
    SplitWords(d[4]);
    SplitWords(d[5]);
    SplitWords(d[6]);
    SplitWords(d[7]);
    FourWords(D1(d), d[5] / H, d[6] % H, d[6] / H, 0, 0, 0, d[4] % H, d[5] % H);
  }

  lemma D2Words(d: Product8)
    ensures F(D2(d)) == (d[6] % H) + H * (d[6] / H) + W * (d[7] % H) + W * H * (d[7] / H) + W2 * W * (d[4] / H) + W2 * W * H * (d[5] / H)
  {
    SplitWords(d[4]);
    SplitWords(d[5]);
    SplitWords(d[6]);
    SplitWords(d[7]);
    FourWords(D2(d), d[6] % H, d[6] / H, d[7] % H, d[7] / H, 0, 0, d[4] / H, d[5] / H);
  }

  lemma D3Words(d: Product8)
    ensures F(D3(d)) == (d[6] / H) + H * (d[7] % H) + W * (d[7] / H) + W * H * (d[4] % H) + W2 * (d[4] / H) + W2 * H * (d[5] % H) + W2 * W * H * (d[6] % H)
  {
    SplitWords(d[4]);
    SplitWords(d[5]);
    SplitWords(d[6]);
    SplitWords(d[7]);
    FourWords(D3(d), d[6] / H, d[7] % H, d[7] / H, d[4] % H, d[4] / H, d[5] % H, 0, d[6] % H);
  }

  lemma D4Words(d: Product8)
    ensures F(D4(d)) == (d[7] % H) + H * (d[7] / H) + W * H * (d[4] / H) + W2 * (d[5] % H) + W2 * H * (d[5] / H) + W2 * W * H * (d[6] / H)
  {
    SplitWords(d[4]);
    SplitWords(d[5]);
    SplitWords(d[6]);
    SplitWords(d[7]);
    FourWords(D4(d), d[7] % H, d[7] / H, 0, d[4] / H, d[5] % H, d[5] / H, 0, d[6] / H);
  }

  lemma HighWords(d: Product8)
    ensures F(d) == F(d[..4]) + TOP * F(d[4..])
    ensures F(d[4..]) == d[4] + W * d[5] + W2 * d[6] + W2 * W * d[7]
  {
    ValSplit(W, d, 4);
    PowTop();
    FourDigits(d[4..]);
  }

  // What is added and what is subtracted, linear in the eight high words.
  lemma Added(w8: int, w9: int, w10: int, w11: int, w12: int, w13: int, w14: int, w15: int,
              s1: int, s2: int, s3: int, s4: int)
    requires s1 == W * H * w11 + W2 * w12 + W2 * H * w13 + W2 * W * w14 + W2 * W * H * w15
    requires s2 == W * H * w12 + W2 * w13 + W2 * H * w14 + W2 * W * w15
    requires s3 == w8 + H * w9 + W * w10 + W2 * W * w14 + W2 * W * H * w15
    requires s4 == w9 + H * w10 + W * w11 + W * H * w13 + W2 * w14 + W2 * H * w15 + W2 * W * w13 + W2 * W * H * w8
    ensures 2 * s1 + 2 * s2 + s3 + s4
         == 0x1_0000_0000_0000_0000_0000_0000_0000_0000_0000_0000_0000_0000_0000_0001 * w8
            + 0x1_0000_0001 * w9
            + 0x1_0000_0001_0000_0000 * w10
            + 0x2_0000_0001_0000_0000_0000_0000 * w11
            + 0x2_0000_0002_0000_0000_0000_0000_0000_0000 * w12
            + 0x1_0000_0002_0000_0002_0000_0001_0000_0000_0000_0000_0000_0000 * w13
            + 0x3_0000_0002_0000_0001_0000_0000_0000_0000_0000_0000_0000_0000 * w14
            + 0x3_0000_0002_0000_0001_0000_0000_0000_0000_0000_0000_0000_0000_0000_0000 * w15
  {
  }

  lemma Subtracted(w8: int, w9: int, w10: int, w11: int, w12: int, w13: int, w14: int, w15: int,
                   d1: int, d2: int, d3: int, d4: int)
    requires d1 == w11 + H * w12 + W * w13 + W2 * W * w8 + W2 * W * H * w10
    requires d2 == w12 + H * w13 + W * w14 + W * H * w15 + W2 * W * w9 + W2 * W * H * w11
    requires d3 == w13 + H * w14 + W * w15 + W * H * w8 + W2 * w9 + W2 * H * w10 + W2 * W * H * w12
    requires d4 == w14 + H * w15 + W * H * w9 + W2 * w10 + W2 * H * w11 + W2 * W * H * w13
    ensures d1 + d2 + d3 + d4
         == 0x1_0000_0000_0000_0000_0000_0001_0000_0000_0000_0000_0000_0000 * w8
            + 0x1_0000_0000_0000_0001_0000_0001_0000_0000_0000_0000_0000_0000 * w9
            + 0x1_0000_0000_0000_0001_0000_0001_0000_0000_0000_0000_0000_0000_0000_0000 * w10
            + 0x1_0000_0000_0000_0001_0000_0000_0000_0000_0000_0000_0000_0000_0000_0001 * w11
            + 0x1_0000_0000_0000_0000_0000_0000_0000_0000_0000_0000_0000_0001_0000_0001 * w12
            + 0x1_0000_0000_0000_0000_0000_0000_0000_0000_0000_0001_0000_0001_0000_0001 * w13
            + 0x1_0000_0001_0000_0001 * w14
            + 0x1_0000_0001_0000_0001_0000_0000 * w15
  {
  }

  lemma SolinasIdentity(w8: int, w9: int, w10: int, w11: int, w12: int, w13: int, w14: int, w15: int,
                        hi: int, added: int, subtracted: int)
    requires hi == w8 + H * w9 + W * w10 + W * H * w11 + W2 * w12 + W2 * H * w13 + W2 * W * w14 + W2 * W * H * w15
    requires added
         == 0x1_0000_0000_0000_0000_0000_0000_0000_0000_0000_0000_0000_0000_0000_0001 * w8
            + 0x1_0000_0001 * w9
            + 0x1_0000_0001_0000_0000 * w10
            + 0x2_0000_0001_0000_0000_0000_0000 * w11
            + 0x2_0000_0002_0000_0000_0000_0000_0000_0000 * w12
            + 0x1_0000_0002_0000_0002_0000_0001_0000_0000_0000_0000_0000_0000 * w13
            + 0x3_0000_0002_0000_0001_0000_0000_0000_0000_0000_0000_0000_0000 * w14
            + 0x3_0000_0002_0000_0001_0000_0000_0000_0000_0000_0000_0000_0000_0000_0000 * w15
    requires subtracted
         == 0x1_0000_0000_0000_0000_0000_0001_0000_0000_0000_0000_0000_0000 * w8
            + 0x1_0000_0000_0000_0001_0000_0001_0000_0000_0000_0000_0000_0000 * w9
            + 0x1_0000_0000_0000_0001_0000_0001_0000_0000_0000_0000_0000_0000_0000_0000 * w10
            + 0x1_0000_0000_0000_0001_0000_0000_0000_0000_0000_0000_0000_0000_0000_0001 * w11
            + 0x1_0000_0000_0000_0000_0000_0000_0000_0000_0000_0000_0000_0001_0000_0001 * w12
            + 0x1_0000_0000_0000_0000_0000_0000_0000_0000_0000_0001_0000_0001_0000_0001 * w13
            + 0x1_0000_0001_0000_0001 * w14
            + 0x1_0000_0001_0000_0001_0000_0000 * w15
    ensures TOP * hi == added - subtracted + P * WordMultiple(w8, w9, w10, w11, w12, w13, w14, w15)
  {
  }

  function WordMultiple(w8: int, w9: int, w10: int, w11: int, w12: int, w13: int, w14: int, w15: int): int {
    w8 + 0x1_0000_0001 * w9 + 0x1_0000_0001_0000_0000 * w10
      + 0x1_0000_0000_FFFF_FFFF_FFFF_FFFF * w11
      + 0x1_0000_0000_FFFF_FFFF_FFFF_FFFE_FFFF_FFFF * w12
      + 0x1_0000_0000_FFFF_FFFF_FFFF_FFFE_FFFF_FFFE_FFFF_FFFF * w13
      + 0x1_0000_0000_FFFF_FFFF_FFFF_FFFE_FFFF_FFFE_FFFF_FFFE_FFFF_FFFF * w14
      + 0x1_0000_0000_FFFF_FFFF_FFFF_FFFE_FFFF_FFFE_FFFF_FFFE_FFFF_FFFF_0000_0000 * w15
  }

  lemma HighHalf(d: Product8)
    ensures F(d[4..]) == d[4] % H + H * (d[4] / H) + W * (d[5] % H) + W * H * (d[5] / H) + W2 * (d[6] % H)
         + W2 * H * (d[6] / H) + W2 * W * (d[7] % H) + W2 * W * H * (d[7] / H)
  {
    HighWords(d);
    SplitWords(d[4]);
    SplitWords(d[5]);
    SplitWords(d[6]);
    SplitWords(d[7]);
  }

  lemma SplitWords(x: digit)
    ensures x == x % H + H * (x / H)
  {
  }

  lemma FoldedCongruent(d: Product8)
    ensures F(d) == Folded(d) + P * Multiple(d)
  {
    HighWords(d);
    assert TOP * F(d[4..]) == 2 * F(S1(d)) + 2 * F(S2(d)) + F(S3(d)) + F(S4(d))
                              - F(D1(d)) - F(D2(d)) - F(D3(d)) - F(D4(d)) + P * Multiple(d) by {
      HighHalf(d);
      S1Words(d);
      S2Words(d);
      S3Words(d);
      S4Words(d);
      D1Words(d);
      D2Words(d);
      D3Words(d);
      D4Words(d);
      Added(d[4] % H, d[4] / H, d[5] % H, d[5] / H, d[6] % H, d[6] / H, d[7] % H, d[7] / H,
            F(S1(d)), F(S2(d)), F(S3(d)), F(S4(d)));
      Subtracted(d[4] % H, d[4] / H, d[5] % H, d[5] / H, d[6] % H, d[6] / H, d[7] % H, d[7] / H,
                 F(D1(d)), F(D2(d)), F(D3(d)), F(D4(d)));
      SolinasIdentity(d[4] % H, d[4] / H, d[5] % H, d[5] / H, d[6] % H, d[6] / H, d[7] % H, d[7] / H,
                      F(d[4..]), 2 * F(S1(d)) + 2 * F(S2(d)) + F(S3(d)) + F(S4(d)), F(D1(d)) + F(D2(d)) + F(D3(d)) + F(D4(d)));
    }
  }

  // ----- The reduction -----

  method Reduce(result: Vli, product: Vli, p: Vli)
    requires result.Length == p.Length == DIGITS && product.Length == 8 && p[..] == CURVE_P
    requires result != product && result != p
    modifies result
    ensures F(result[..]) == F(product[..]) % P
  {
    ghost var d: Product8 := product[..];
    var carry := Fold(result, product);
    FoldedCongruent(d);
    Correct(result, carry, p);
    ModMultiple(Folded(d), Multiple(d), P);
  }

  method Fold(result: Vli, product: Vli) returns (carry: int)
    requires result.Length == DIGITS && product.Length == 8 && result != product
    modifies result
    ensures product[..] == old(product[..])
    ensures F(result[..]) + carry * TOP == Folded(product[..])
  {
    ghost var d: Product8 := product[..];
    carry := FoldAdd(result, product);
    var tmp := new digit[4];
    SetDigits(tmp, Join(product[5] / H, product[6]), product[6] / H, 0, Join(product[4] % H, product[5]));
    assert tmp[..] == D1(d);
    var borrow := Sub(result, result, tmp);
    carry := carry - borrow;
    SetDigits(tmp, product[6], product[7], 0, JoinHigh(product[4] / H, product[5]));
    assert tmp[..] == D2(d);
    borrow := Sub(result, result, tmp);
    carry := carry - borrow;
    SetDigits(tmp, Join(product[6] / H, product[7]), Join(product[7] / H, product[4]), Join(product[4] / H, product[5]), product[6] % H * H);
    assert tmp[..] == D3(d);
    borrow := Sub(result, result, tmp);
    carry := carry - borrow;
    SetDigits(tmp, product[7], High32(product[4]), product[5], High32(product[6]));
    assert tmp[..] == D4(d);
    borrow := Sub(result, result, tmp);
    carry := carry - borrow;
  }

  method FoldAdd(result: Vli, product: Vli) returns (carry: int)
    requires result.Length == DIGITS && product.Length == 8 && result != product
    modifies result
    ensures product[..] == old(product[..])
    ensures var d: Product8 := product[..];
      F(result[..]) + carry * TOP == F(d[..4]) + 2 * F(S1(d)) + 2 * F(S2(d)) + F(S3(d)) + F(S4(d))
  {
    ghost var d: Product8 := product[..];
    SetLow(result, product);
    var tmp := new digit[4];
    SetDigits(tmp, 0, High32(product[5]), product[6], product[7]);
    assert tmp[..] == S1(d);
    carry := AddDoubled(result, tmp);
    var more := 0;
    tmp[1], tmp[2], tmp[3] := product[6] % H * H, Join(product[6] / H, product[7]), product[7] / H;
    assert tmp[..] == S2(d);
    more := AddDoubled(result, tmp);
    carry := carry + more;
    SetDigits(tmp, product[4], product[5] % H, 0, product[7]);
    assert tmp[..] == S3(d);
    more := Add(result, result, tmp);
    carry := carry + more;
    SetDigits(tmp, Join(product[4] / H, product[5]), JoinHigh(product[5] / H, product[6]), product[7], Join(product[6] / H, product[4]));
    assert tmp[..] == S4(d);
    more := Add(result, result, tmp);
    carry := carry + more;
  }

  method SetDigits(tmp: Vli, a: digit, b: digit, c: digit, e: digit)
    requires tmp.Length == DIGITS
    modifies tmp
    ensures tmp[..] == [a, b, c, e]
  {
    tmp[0], tmp[1], tmp[2], tmp[3] := a, b, c, e;
  }

  method SetLow(result: Vli, product: Vli)
    requires result.Length == DIGITS && product.Length == 8 && result != product
    modifies result
    ensures result[..] == product[..4]
  {
    for i := 0 to DIGITS
      invariant forall j :: 0 <= j < i ==> result[j] == product[j]
    {
      result[i] := product[i];
    }
  }

  // Doubles tmp in place and adds it; a zero low digit stays zero.
  method AddDoubled(result: Vli, tmp: Vli) returns (carry: nat)
    requires result.Length == tmp.Length == DIGITS && result != tmp
    modifies result, tmp
    ensures F(result[..]) + carry * TOP == old(F(result[..])) + 2 * old(F(tmp[..]))
    ensures old(tmp[0]) == 0 ==> tmp[0] == 0
  {
    carry := Lshift(tmp, tmp, 1);
    assert Pow2(1) == 2;
    var more := Add(result, result, tmp);
    carry := carry + more;
  }

  // Brings result + carry * 2^256 below the prime.
  method Correct(result: Vli, carry0: int, p: Vli)
    requires result.Length == p.Length == DIGITS && p[..] == CURVE_P && result != p
    modifies result
    ensures F(result[..]) == (old(F(result[..])) + carry0 * TOP) % P
  {
    ghost var v, k := F(result[..]) + carry0 * TOP, 0;
    var carry := carry0;
    CurvePrime();
    InField(result[..]);
    if carry < 0 {
      while carry < 0
        invariant F(result[..]) + carry * TOP == v + k * P < P && p[..] == CURVE_P
        invariant F(result[..]) < TOP
        decreases P - (v + k * P)
      {
        var more := Add(result, result, p);
        carry := carry + more;
        k := k + 1;
        InField(result[..]);
      }
    } else {
      var cmp := Cmp(p, result);
      while carry != 0 || cmp != 1
        invariant carry >= 0 && F(result[..]) + carry * TOP == v + k * P && p[..] == CURVE_P
        invariant F(result[..]) < TOP
        invariant cmp == 1 <==> P > F(result[..])
        decreases v + k * P
      {
        var borrow := Sub(result, result, p);
        carry := carry - borrow;
        k := k - 1;
        InField(result[..]);
        cmp := Cmp(p, result);
      }
    }
    ModCarry(v, F(result[..]), -k, P);
  }

  lemma InField(s: seq<digit>)
    requires |s| == DIGITS
    ensures F(s) < TOP
  {
    FourDigits(s);
  }

  // result = left * right mod p
  method ModMult(result: Vli, left: Vli, right: Vli, p: Vli)
    requires result.Length == left.Length == right.Length == p.Length == DIGITS && p[..] == CURVE_P && result != p
    modifies result
    ensures F(result[..]) == old(F(left[..])) * old(F(right[..])) % P
  {
    var product := new digit[8];
    Mult(product, left, right);
    Reduce(result, product, p);
  }
}
