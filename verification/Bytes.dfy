// Bytes and byte strings, and the bit numbering used for tree keys.
module Bytes {
  type byte = x: nat | x < 256

  type bytes = seq<byte>

  datatype Option<+T> = None | Some(value: T)

  // Bit i, most significant bit of the first byte first.
  function BitOf(b: byte, i: nat): (r: nat)
    ensures r < 2
    decreases 7 - i
  {
    if i >= 7 then b % 2 else BitOf(b / 2, i + 1)
  }

  // The number that bits 0 to i make, most significant bit first.
  function Number(b: byte, i: nat): nat {
    if i == 0 then BitOf(b, 0) else 2 * Number(b, i - 1) + BitOf(b, i)
  }

  function Power(k: nat): (p: nat)
    ensures p > 0
  {
    if k == 0 then 1 else 2 * Power(k - 1)
  }

  lemma {:induction false} HighBitsZero(b: byte, i: nat)
    requires i <= 7 && b < Power(7 - i)
    ensures BitOf(b, i) == 0
    decreases 7 - i
  {
    if i < 7 {
      HighBitsZero(b / 2, i + 1);
    }
  }

  lemma {:induction false} NumberHalf(b: byte, i: nat)
    requires i < 7
    ensures Number(b, i) == Number(b / 2, i + 1)
  {
    assert BitOf(b, i) == BitOf(b / 2, i + 1);
    if i > 0 {
      NumberHalf(b, i - 1);
    } else {
      assert Power(7) == 2 * 2 * 2 * Power(4);
      HighBitsZero(b / 2, 0);
    }
  }

  // The eight bits make up the byte.
  lemma {:induction false} BitsOfByte(b: byte)
    ensures Number(b, 7) == b
  {
    if b == 0 {
      ZeroByte(7);
    } else {
      NumberHalf(b, 6);
      BitsOfByte(b / 2);
    }
  }

  lemma {:induction false} ZeroByte(i: nat)
    requires i <= 7
    ensures Number(0, i) == 0
  {
    HighBitsZero(0, i);
    if i > 0 {
      ZeroByte(i - 1);
    }
  }

  function HasBit(m: bytes, i: nat): (r: nat)
    requires i < 8 * |m|
    ensures r < 2
  {
    if i < 8 then BitOf(m[0], i) else HasBit(m[1..], i - 8)
  }

  lemma {:induction false} HasBitIndex(m: bytes, i: nat)
    requires i < 8 * |m|
    ensures HasBit(m, i) == BitOf(m[i / 8], i % 8)
  {
    if i >= 8 {
      HasBitIndex(m[1..], i - 8);
    }
  }

  // (m[i >> 3] >> (7 - (i & 7))) & 1
  function BitAt(m: bytes, i: nat): (r: nat)
    requires i < 8 * |m|
    ensures r == HasBit(m, i)
  {
    HasBitIndex(m, i);
    BitOf(m[i / 8], i % 8)
  }
}
