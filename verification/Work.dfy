// Targets and compact bits, and the proof of work of a target.
module Work {
  import opened Arith
  import opened Bytes
  import opened Limbs
  import opened Bits
  import opened Bignum

  type uint32 = x: nat | x < 0x1_0000_0000
  type uint64 = x: nat | x < 0x1_0000_0000_0000_0000

  // ----- Big-endian byte strings -----

  function BE(s: bytes): nat {
    if s == [] then 0 else 256 * BE(s[..|s| - 1]) + s[|s| - 1]
  }

  // 256^k
  function P256(k: nat): (p: nat)
    ensures p > 0
  {
    PowPositive(256, k);
    Pow(256, k)
  }

  lemma {:induction false} BEBound(s: bytes)
    ensures BE(s) < P256(|s|)
  {
    if s != [] {
      BEBound(s[..|s| - 1]);
    }
  }

  // x * 256^k
  function Shl(x: nat, k: nat): nat {
    Shift(256, x, k)
  }

  // x / 256^k
  function ShrBytes(x: nat, k: nat): nat
    decreases k
  {
    if k == 0 then x else ShrBytes(x / 256, k - 1)
  }

  lemma {:induction false} P256Pow(k: nat)
    ensures P256(4 * k) == Pow(BASE, k)
  {
    if k > 0 {
      P256Pow(k - 1);
      assert P256(4 * k) == 256 * P256(4 * k - 1) == 65536 * P256(4 * k - 2) == 0x100_0000 * P256(4 * k - 3);
    }
  }

  // ----- Bignum conversions -----

  function Word(a: byte, b: byte, c: byte, d: byte): limb {
    0x100_0000 * (a as nat) + 0x1_0000 * (b as nat) + 0x100 * (c as nat) + d
  }

  function WordBytes(w: limb): (s: bytes)
    ensures |s| == 4
  {
    [w / 0x100_0000, w / 0x1_0000 % 256, w / 0x100 % 256, w % 256]
  }

  lemma BESnoc(s: bytes, b: byte)
    ensures BE(s + [b]) == 256 * BE(s) + b
  {
    assert (s + [b])[..|s|] == s;
  }

  lemma BEAppend(s: bytes, w: limb)
    ensures BE(s + WordBytes(w)) == BASE * BE(s) + w
  {
    var b := WordBytes(w);
    var t1 := s + [b[0]];
    var t2 := t1 + [b[1]];
    var t3 := t2 + [b[2]];
    assert s + b == t3 + [b[3]];
    BESnoc(s, b[0]);
    BESnoc(t1, b[1]);
    BESnoc(t2, b[2]);
    BESnoc(t3, b[3]);
    WordSplit(w);
  }

  lemma WordSplit(w: limb)
    ensures w == 256 * (256 * (256 * (w / 0x100_0000) + w / 0x1_0000 % 256) + w / 0x100 % 256) + w % 256
  {
    assert w / 0x1_0000 == w / 0x100 / 0x100 && w / 0x100_0000 == w / 0x1_0000 / 0x100;
  }

  lemma BEFour(s: bytes, i: nat)
    requires i + 4 <= |s|
    ensures BE(s[..i + 4]) == BASE * BE(s[..i]) + Word(s[i], s[i + 1], s[i + 2], s[i + 3])
  {
    BENext(s, i);
    BENext(s, i + 1);
    BENext(s, i + 2);
    BENext(s, i + 3);
  }

  lemma BENext(s: bytes, i: nat)
    requires i < |s|
    ensures BE(s[..i + 1]) == 256 * BE(s[..i]) + s[i]
  {
    assert s[..i + 1][..i] == s[..i];
  }

  // The 256-bit number in 32 big-endian bytes.
  method FromArray(n: Bn, data: bytes)
    requires n.Length == SIZE && |data| == 32
    modifies n
    ensures V(n[..]) == BE(data)
  {
    Init(n);
    var j, i := 7, 0;
    while j >= 0
      invariant -1 <= j <= 7 && i == 4 * (7 - j)
      invariant forall k :: 8 <= k < SIZE ==> n[k] == 0
      invariant Loaded(n[..], j + 1, data, i)
    {
      ghost var before := n[..];
      n[j] := Word(data[i], data[i + 1], data[i + 2], data[i + 3]);
      LoadStep(before, n[..], j, data, i);
      i := i + 4;
      j := j - 1;
    }
    assert data[..32] == data;
    LowHalf(n[..]);
  }

  // The words from j up to 8 hold the first i bytes.
  ghost predicate Loaded(s: seq<limb>, j: nat, data: bytes, i: nat)
    requires |s| == SIZE && j <= 8 && i <= |data|
  {
    V(s[j..8]) == BE(data[..i])
  }

  lemma LoadStep(before: seq<limb>, s: seq<limb>, j: nat, data: bytes, i: nat)
    requires |before| == |s| == SIZE && j < 8 && i + 4 <= |data| && Loaded(before, j + 1, data, i)
    requires s == before[j := Word(data[i], data[i + 1], data[i + 2], data[i + 3])]
    ensures Loaded(s, j, data, i + 4)
  {
    BEFour(data, i);
    assert s[j..8] == [s[j]] + before[j + 1..8];
  }

  lemma LowHalf(s: seq<limb>)
    requires |s| == SIZE
    ensures (forall k :: 8 <= k < SIZE ==> s[k] == 0) ==> V(s) == V(s[0..8])
    ensures V(s[0..8]) == V(s) % Pow(BASE, 8)
    ensures Pow(BASE, 8) > 0
  {
    PowPositive(BASE, 8);
    assert s[0..8] == s[..8];
    ValSplit(BASE, s, 8);
    ValBound(BASE, s[..8]);
    if forall k :: 8 <= k < SIZE ==> s[k] == 0 {
      ValZeros(BASE, s[8..]);
    }
    ModShift(V(s[..8]), V(s[8..]), Pow(BASE, 8));
    ModCarry(V(s[..8]), V(s[..8]), 0, Pow(BASE, 8));
  }

  // The low 256 bits, as 32 big-endian bytes.
  method ToArray(n: Bn) returns (data: bytes)
    requires n.Length == SIZE
    ensures |data| == 32 && BE(data) == V(n[..]) % P256(32)
  {
    data := [];
    var j := 7;
    while j >= 0
      invariant -1 <= j <= 7 && |data| == 4 * (7 - j)
      invariant BE(data) == V(n[j + 1..8])
    {
      BEAppend(data, n[j]);
      ghost var rest := n[j + 1..8];
      assert n[j..8] == [n[j]] + rest;
      data := data + WordBytes(n[j]);
      j := j - 1;
    }
    LowHalf(n[..]);
    P256Pow(8);
    assert n[..][0..8] == n[0..8];
  }

  // ----- Compact targets -----

  // The mantissa of a compact value after its exponent is applied: the value
  // the decoder starts from, and the number of zero bytes below it.
  function Mantissa(bits: uint32): nat {
    var e, m := bits / 0x100_0000, bits % 0x80_0000;
    if e <= 3 then ShrBytes(m, 3 - e) else m
  }

  // The shift is reduced modulo 32 (`& 31`).
  function ZeroBytes(bits: uint32): (k: nat)
    ensures k < 32
  {
    var e := bits / 0x100_0000;
    if e <= 3 then 0 else (e - 3) % 32
  }

  predicate Negative(bits: uint32) {
    bits / 0x80_0000 % 2 == 1
  }

  // What the decoder accepts, and the target it yields.
  function Decode(bits: uint32): Option<nat> {
    if bits == 0 || Negative(bits) || Shl(Mantissa(bits), ZeroBytes(bits)) >= P256(32) then None
    else Some(Shl(Mantissa(bits), ZeroBytes(bits)))
  }

  // The same without the reduction of the shift.
  function DecodeFully(bits: uint32): Option<nat> {
    var e := bits / 0x100_0000;
    var k := if e <= 3 then 0 else e - 3;
    if bits == 0 || Negative(bits) || Shl(Mantissa(bits), k) >= P256(32) then None
    else Some(Shl(Mantissa(bits), k))
  }

  lemma DecodeIs(bits: uint32, m: nat, k: nat, fits: bool)
    requires bits != 0 && !Negative(bits) && m == Mantissa(bits) && k == ZeroBytes(bits) && (fits <==> Shl(m, k) < P256(32))
    ensures Decode(bits) == if fits then Some(Shl(m, k)) else None
  {
  }

  // Expands compact bits into 32 big-endian bytes.
  method ToTarget(bits: uint32) returns (ok: bool, target: bytes)
    ensures |target| == 32
    ensures ok <==> Decode(bits).Some?
    ensures ok ==> BE(target) == Decode(bits).value
  {
    target := seq(32, i => 0);
    if bits == 0 {
      return false, target;
    }
    if bits / 0x80_0000 % 2 == 1 {
      return false, target;
    }
    var exponent, mantissa: nat, shift := bits / 0x100_0000, bits % 0x80_0000, 0;
    if exponent <= 3 {
      mantissa := ShrBytes(mantissa, 3 - exponent);
    } else {
      shift := (exponent - 3) % 32;
    }
    assert mantissa == Mantissa(bits) && shift == ZeroBytes(bits);
    ok, target := Fill(mantissa, shift);
    DecodeIs(bits, mantissa, shift, ok);
  }

  // Writes m0 * 256^shift from the low end up; fails if it does not fit.
  method Fill(m0: nat, shift: nat) returns (ok: bool, target: bytes)
    requires shift < 32
    ensures |target| == 32
    ensures ok <==> Shl(m0, shift) < P256(32)
    ensures ok ==> BE(target) == Shl(m0, shift)
  {
    target := seq(32, i => 0);
    var mantissa, i := m0, 31 - shift;
    ZerosBE(target, 32);
    assert target[..32] == target;
    while mantissa != 0 && i >= 0
      invariant -1 <= i <= 31 - shift && |target| == 32
      invariant forall k :: 0 <= k <= i ==> target[k] == 0
      invariant BE(target) + Shl(mantissa, 31 - i) == Shl(m0, shift)
      decreases i + 1
    {
      PutByte(target, i, mantissa % 256);
      ShlStep(mantissa, 31 - i);
      target := target[i := mantissa % 256];
      mantissa := mantissa / 256;
      i := i - 1;
    }
    FillDone(target, mantissa, i, Shl(m0, shift));
    return mantissa == 0, target;
  }

  lemma FillDone(target: bytes, mantissa: nat, i: int, t: nat)
    requires |target| == 32 && -1 <= i <= 31 && (mantissa == 0 || i == -1) && BE(target) + Shl(mantissa, 31 - i) == t
    ensures mantissa == 0 <==> t < P256(32)
    ensures mantissa == 0 ==> BE(target) == t
  {
    BEBound(target);
    ShlBounds(mantissa, 31 - i);
  }

  lemma {:induction false} ShlBounds(x: nat, k: nat)
    ensures if x == 0 then Shl(x, k) == 0 else Shl(x, k) >= P256(k)
  {
    if k > 0 {
      ShlBounds(x, k - 1);
    }
  }

  lemma {:induction false} ZerosBE(s: bytes, n: nat)
    requires n <= |s| && forall i :: 0 <= i < n ==> s[i] == 0
    ensures BE(s[..n]) == 0
  {
    if n > 0 {
      ZerosBE(s, n - 1);
      BENext(s, n - 1);
    }
  }

  // Filling in a zero byte, all above it zero, adds its positional value.
  lemma {:induction false} PutByte(s: bytes, i: nat, b: byte)
    requires i < |s| && s[i] == 0
    ensures BE(s[i := b]) == BE(s) + Shl(b, |s| - 1 - i)
    decreases |s|
  {
    var n := |s| - 1;
    var t := s[i := b];
    assert s[..n + 1] == s && t[..n + 1] == t;
    BENext(s, n);
    BENext(t, n);
    if i < n {
      assert t[..n] == s[..n][i := b];
      PutByte(s[..n], i, b);
    } else {
      assert t[..n] == s[..n];
    }
  }

  lemma {:induction false} ShlStep(x: nat, k: nat)
    ensures Shl(x, k) == Shl(x % 256, k) + Shl(x / 256, k + 1)
  {
    ShiftIsPow(256, x, k);
    ShiftIsPow(256, x % 256, k);
    ShiftIsPow(256, x / 256, k + 1);
    assert x == x % 256 + 256 * (x / 256);
    assert (x % 256 + 256 * (x / 256)) * P256(k) == x % 256 * P256(k) + (x / 256) * (256 * P256(k));
  }

  // The number of significant bytes.
  function ByteLen(t: nat): nat {
    if t == 0 then 0 else 1 + ByteLen(t / 256)
  }

  function Encode(t: nat): nat {
    if t == 0 then 0
    else
      var n := ByteLen(t);
      var m := if n <= 3 then Shl(t, 3 - n) else ShrBytes(t, n - 3);
      if m / 0x80_0000 % 2 == 1 then (n + 1) * 0x100_0000 + m / 256 else n * 0x100_0000 + m
  }

  lemma {:induction false} LeadingZeros(s: bytes, i: nat)
    requires i <= |s| && BE(s[..i]) == 0 && (i < |s| ==> s[i] != 0)
    ensures ByteLen(BE(s)) == |s| - i
    decreases |s|
  {
    if i == |s| {
      assert s[..i] == s;
    } else {
      var n := |s| - 1;
      assert s[..n][..i] == s[..i];
      if i < n {
        LeadingZeros(s[..n], i);
        Nonzero(s[..n], i);
      } else {
        assert s[..n] == s[..i];
      }
      LenNext(BE(s[..n]), s[n]);
    }
  }

  lemma LenNext(x: nat, b: byte)
    ensures x > 0 || b > 0 ==> ByteLen(256 * x + b) == 1 + ByteLen(x)
  {
  }

  lemma {:induction false} Nonzero(s: bytes, i: nat)
    requires i < |s| && s[i] != 0
    ensures BE(s) > 0
    decreases |s|
  {
    if i < |s| - 1 {
      Nonzero(s[..|s| - 1], i);
    }
  }

  // A prefix is the number with its low bytes shifted out.
  lemma {:induction false} PrefixBE(s: bytes, k: nat)
    requires k <= |s|
    ensures BE(s[..|s| - k]) == ShrBytes(BE(s), k)
    decreases k
  {
    if k == 0 {
      assert s[..|s|] == s;
    } else {
      var n := |s| - 1;
      PrefixBE(s[..n], k - 1);
      assert s[..n][..n - (k - 1)] == s[..|s| - k];
    }
  }

  // Compresses 32 big-endian bytes into compact bits.
  method ToBits(target: bytes) returns (bits: nat)
    requires |target| == 32
    ensures bits == Encode(BE(target))
  {
    var i := 0;
    while i < 32 && target[i] == 0
      invariant 0 <= i <= 32 && BE(target[..i]) == 0
    {
      BENext(target, i);
      i := i + 1;
    }
    LeadingZeros(target, i);
    var exponent := 32 - i;
    if exponent == 0 {
      return 0;
    }
    var mantissa: nat := 0;
    if exponent <= 3 {
      assert target[..32] == target;
      BENext(target, 31);
      BENext(target, 30);
      BENext(target, 29);
      ZeroPrefix(target, i, 29);
      mantissa := (if exponent == 3 then 0x1_0000 * (target[29] as nat) else 0)
                  + (if exponent >= 2 then 0x100 * (target[30] as nat) else 0) + target[31];
      mantissa := Shl(mantissa, 3 - exponent);
    } else {
      var shift := exponent - 3;
      ghost var first := i;
      while i < 32 - shift
        invariant first <= i <= 32 - shift && mantissa == BE(target[..i])
      {
        BENext(target, i);
        mantissa := 256 * mantissa + target[i];
        i := i + 1;
      }
      PrefixBE(target, shift);
    }
    if mantissa / 0x80_0000 % 2 == 1 {
      mantissa := mantissa / 256;
      exponent := exponent + 1;
    }
    return exponent * 0x100_0000 + mantissa;
  }

  lemma {:induction false} ZeroPrefix(s: bytes, i: nat, j: nat)
    requires i <= |s| && j <= |s| && BE(s[..i]) == 0
    ensures j <= i ==> BE(s[..j]) == 0
    decreases i
  {
    if j < i {
      BENext(s, i - 1);
      ZeroPrefix(s, i - 1, j);
    }
  }

  // ----- What the encoding keeps -----

  // How many low bytes it drops: as few as leave a mantissa below 2^23.
  function Dropped(t: nat): nat {
    if t < 0x80_0000 then 0 else 1 + Dropped(t / 256)
  }

  // t with the dropped bytes cleared.
  function Trunc(t: nat): nat {
    Shl(ShrBytes(t, Dropped(t)), Dropped(t))
  }

  lemma {:induction false} LenAndDropped(t: nat)
    requires t >= 0x80_0000
    ensures var n, k := ByteLen(t), Dropped(t);
      && n >= 3 && k >= 1 && 0x8000 <= ShrBytes(t, k) < 0x80_0000
      && if ShrBytes(t, n - 3) < 0x80_0000 then k == n - 3
         else k == n - 2 && ShrBytes(t, n - 2) == ShrBytes(t, n - 3) / 256
    ensures ShrBytes(t, ByteLen(t) - 3) < 0x100_0000
  {
    var u := t / 256;
    if u >= 0x80_0000 {
      LenAndDropped(u);
    } else {
      assert ShrBytes(t, 1) == u;
      assert ByteLen(t) == 1 + ByteLen(u) == 2 + ByteLen(u / 256) == 3 + ByteLen(u / 256 / 256);
      assert u / 256 / 256 < 0x80;
      if u >= 0x1_0000 {
        assert ByteLen(u / 256 / 256) == 1 + ByteLen(0);
        assert ShrBytes(t, 1) == u;
      } else {
        assert u >= 0x8000 && ByteLen(u / 256 / 256) == 0;
      }
    }
  }

  lemma EncodeLarge(t: nat)
    requires t >= 0x80_0000
    ensures Encode(t) == (Dropped(t) + 3) * 0x100_0000 + ShrBytes(t, Dropped(t))
    ensures 1 <= Dropped(t) && 0x8000 <= ShrBytes(t, Dropped(t)) < 0x80_0000
  {
    LenAndDropped(t);
  }

  lemma {:induction false} ShrShl(t: nat, k: nat)
    ensures Shl(ShrBytes(t, k), k) <= t < Shl(ShrBytes(t, k), k) + P256(k)
    decreases k
  {
    if k > 0 {
      ShrShl(t / 256, k - 1);
    }
  }

  lemma {:induction false} ShlMono(x: nat, y: nat, k: nat)
    requires x <= y
    ensures Shl(x, k) <= Shl(y, k)
    decreases k
  {
    if k > 0 {
      ShlMono(x, y, k - 1);
    }
  }

  lemma {:induction false} ShrMono(x: nat, y: nat, k: nat)
    requires x <= y
    ensures ShrBytes(x, k) <= ShrBytes(y, k)
    decreases k
  {
    if k > 0 {
      ShrMono(x / 256, y / 256, k - 1);
    }
  }

  // Decoding an encoded target gives the truncated target.
  lemma RoundTrip(t: nat)
    requires 0 < t < P256(32)
    ensures Encode(t) < 0x1_0000_0000 && Decode(Encode(t)) == Some(Trunc(t))
  {
    ShrShl(t, Dropped(t));
    if t < 0x80_0000 {
      SmallTarget(t);
    } else {
      EncodeLarge(t);
      DroppedBound(t, 32);
      LargeBits(Encode(t), Dropped(t), ShrBytes(t, Dropped(t)));
    }
  }

  lemma LargeBits(bits: nat, k: nat, m: nat)
    requires 1 <= k <= 30 && 0x8000 <= m < 0x80_0000 && bits == (k + 3) * 0x100_0000 + m
    ensures bits < 0x1_0000_0000 && !Negative(bits) && Mantissa(bits) == m && ZeroBytes(bits) == k
  {
  }

  lemma ByteLenSmall(t: nat)
    requires 0 < t < 0x100_0000
    ensures ByteLen(t) == if t < 0x100 then 1 else if t < 0x1_0000 then 2 else 3
  {
    assert ByteLen(t) == 1 + ByteLen(t / 256);
    if t >= 0x100 {
      assert ByteLen(t / 256) == 1 + ByteLen(t / 256 / 256);
      if t >= 0x1_0000 {
        assert ByteLen(t / 256 / 256) == 1 + ByteLen(t / 256 / 256 / 256);
      }
    }
  }

  lemma SmallEncode(t: nat)
    requires 0 < t < 0x80_0000
    ensures Encode(t) == if t < 0x80 then 0x100_0000 + 0x1_0000 * t
                         else if t < 0x8000 then 0x200_0000 + 0x100 * t
                         else 0x300_0000 + t
  {
    ByteLenSmall(t);
    assert Shl(t, 0) == t;
    assert Shl(t, 1) == 256 * Shl(t, 0);
    assert Shl(t, 2) == 256 * Shl(t, 1);
  }

  lemma SmallParts(bits: uint32, e: nat, m: nat)
    requires e < 128 && m < 0x80_0000 && bits == e * 0x100_0000 + m
    ensures !Negative(bits) && bits / 0x100_0000 == e && bits % 0x80_0000 == m
  {
  }

  lemma SmallMantissa(m: nat, e: nat)
    requires 1 <= e <= 3
    ensures ShrBytes(m, 3 - e) == if e == 1 then m / 0x1_0000 else if e == 2 then m / 0x100 else m
  {
    assert ShrBytes(m, 1) == m / 256 && ShrBytes(m, 2) == m / 256 / 256 && m / 256 / 256 == m / 0x1_0000;
  }

  lemma SmallDecode(bits: uint32, e: nat, m: nat)
    requires 1 <= e <= 3 && m < 0x80_0000 && bits == e * 0x100_0000 + m
    ensures !Negative(bits) && bits / 0x100_0000 == e && bits % 0x80_0000 == m
    ensures Decode(bits) == Some(if e == 1 then m / 0x1_0000 else if e == 2 then m / 0x100 else m)
  {
    SmallParts(bits, e, m);
    SmallMantissa(m, e);
    P256Big(29);
    DecodeIs(bits, ShrBytes(m, 3 - e), 0, true);
  }

  lemma SmallTarget(t: nat)
    requires 0 < t < 0x80_0000
    ensures Encode(t) < 0x1_0000_0000 && Decode(Encode(t)) == Some(t)
  {
    SmallEncode(t);
    if t < 0x80 {
      SmallDecode(Encode(t), 1, 0x1_0000 * t);
    } else if t < 0x8000 {
      SmallDecode(Encode(t), 2, 0x100 * t);
    } else {
      SmallDecode(Encode(t), 3, t);
    }
  }

  lemma P256Big(k: nat)
    ensures P256(k + 3) >= 0x100_0000
  {
    assert P256(k + 3) == 256 * P256(k + 2) == 65536 * P256(k + 1) == 0x100_0000 * P256(k);
  }

  lemma {:induction false} DroppedBound(t: nat, n: nat)
    requires 0 < t < P256(n) && n >= 2
    ensures Dropped(t) <= n - 2
    decreases n
  {
    assert P256(2) == 65536;
    if t >= 0x80_0000 {
      DroppedBound(t / 256, n - 1);
    }
  }

  // Truncation only lowers a target, keeps at least its two leading bytes,
  // and is monotone.
  lemma TruncLowers(t: nat)
    ensures Trunc(t) <= t < Trunc(t) + P256(Dropped(t))
    ensures t > 0 ==> Trunc(t) > 0
    ensures Dropped(t) > 0 ==> ShrBytes(t, Dropped(t)) >= 0x8000
  {
    ShrShl(t, Dropped(t));
    if t >= 0x80_0000 {
      EncodeLarge(t);
      ShlBounds(ShrBytes(t, Dropped(t)), Dropped(t));
    }
  }

  lemma {:induction false} DroppedMono(t: nat, u: nat)
    requires t <= u
    ensures Dropped(t) <= Dropped(u)
  {
    if t >= 0x80_0000 {
      DroppedMono(t / 256, u / 256);
    }
  }

  // What is dropped from t but not from a larger u leaves t below u's leading byte.
  lemma {:induction false} DroppedLess(t: nat, k: nat)
    requires Dropped(t) < k
    ensures t < Shl(0x8000, k)
    decreases k
  {
    if t >= 0x80_0000 {
      DroppedLess(t / 256, k - 1);
    } else {
      assert Shl(0x8000, k) == 256 * Shl(0x8000, k - 1);
      ShlGrows(0x8000, k - 1);
    }
  }

  lemma {:induction false} ShlGrows(x: nat, k: nat)
    ensures x <= Shl(x, k)
    decreases k
  {
    if k > 0 {
      ShlGrows(x, k - 1);
    }
  }

  lemma TruncMono(t: nat, u: nat)
    requires t <= u
    ensures Trunc(t) <= Trunc(u)
  {
    var k := Dropped(u);
    DroppedMono(t, u);
    if Dropped(t) == k {
      ShrMono(t, u, k);
      ShlMono(ShrBytes(t, k), ShrBytes(u, k), k);
    } else {
      ShrShl(t, Dropped(t));
      DroppedLess(t, k);
      TruncLowers(u);
      ShlMono(0x8000, ShrBytes(u, k), k);
    }
  }

  // The compact values the encoder produces.
  predicate Canonical(bits: uint32) {
    var e, m := bits / 0x100_0000, bits % 0x80_0000;
    && !Negative(bits) && 1 <= e <= 33 && 0x8000 <= m
    && (e == 1 ==> m % 0x1_0000 == 0) && (e == 2 ==> m % 0x100 == 0) && (e == 33 ==> m < 0x1_0000)
  }

  lemma SmallTargetCanonical(t: nat)
    requires 0 < t < 0x80_0000
    ensures Encode(t) < 0x1_0000_0000 && Canonical(Encode(t))
  {
    SmallEncode(t);
    if t < 0x80 {
      SmallDecode(Encode(t), 1, 0x1_0000 * t);
    } else if t < 0x8000 {
      SmallDecode(Encode(t), 2, 0x100 * t);
    } else {
      SmallDecode(Encode(t), 3, t);
    }
  }

  lemma LargeCanonical(bits: nat, k: nat, m: nat)
    requires 1 <= k <= 30 && 0x8000 <= m < 0x80_0000 && bits == (k + 3) * 0x100_0000 + m && (k == 30 ==> m < 0x1_0000)
    ensures bits < 0x1_0000_0000 && Canonical(bits)
  {
    LargeBits(bits, k, m);
    assert bits / 0x100_0000 == k + 3 && bits % 0x80_0000 == m;
  }

  lemma EncodeCanonical(t: nat)
    requires 0 < t < P256(32)
    ensures Encode(t) < 0x1_0000_0000 && Canonical(Encode(t))
  {
    if t < 0x80_0000 {
      SmallTargetCanonical(t);
    } else {
      EncodeLarge(t);
      DroppedBound(t, 32);
      if Dropped(t) == 30 {
        ShrBelow(t, 30, 2);
        assert P256(2) == 65536;
      }
      LargeCanonical(Encode(t), Dropped(t), ShrBytes(t, Dropped(t)));
    }
  }

  lemma {:induction false} ShrBelow(t: nat, k: nat, n: nat)
    requires t < P256(k + n)
    ensures ShrBytes(t, k) < P256(n)
    decreases k
  {
    if k > 0 {
      ShrBelow(t / 256, k - 1, n);
    }
  }

  lemma {:induction false} DroppedShl(m: nat, k: nat)
    requires 0x8000 <= m < 0x80_0000
    ensures Dropped(Shl(m, k)) == k && ShrBytes(Shl(m, k), k) == m
    ensures k > 0 ==> Shl(m, k) >= 0x80_0000
    decreases k
  {
    if k > 0 {
      DroppedShl(m, k - 1);
      ShlGrows(m, k - 1);
    }
  }

  // Canonical compact values survive decoding and encoding unchanged.
  lemma CanonicalRoundTrip(bits: uint32)
    requires Canonical(bits)
    ensures Decode(bits).Some? && Decode(bits).value > 0 && Encode(Decode(bits).value) == bits
  {
    var e, m := bits / 0x100_0000, bits % 0x80_0000;
    SplitBits(bits);
    if e <= 3 {
      SmallCanonical(bits, e, m);
    } else {
      LargeRoundTrip(bits, e, m, Shl(m, e - 3));
    }
  }

  lemma LargeRoundTrip(bits: uint32, e: nat, m: nat, t: nat)
    requires Canonical(bits) && e == bits / 0x100_0000 && e > 3 && m == bits % 0x80_0000 && t == Shl(m, e - 3)
    requires bits == e * 0x100_0000 + m
    ensures Decode(bits) == Some(t) && t > 0 && Encode(t) == bits
  {
    DroppedShl(m, e - 3);
    CanonicalFits(m, e - 3);
    EncodeLarge(t);
    CanonicalDecodes(bits, e, m);
  }

  lemma SplitBits(bits: uint32)
    requires !Negative(bits)
    ensures bits == (bits / 0x100_0000) * 0x100_0000 + bits % 0x80_0000
  {
  }

  lemma CanonicalDecodes(bits: uint32, e: nat, m: nat)
    requires Canonical(bits) && e == bits / 0x100_0000 && e > 3 && m == bits % 0x80_0000 && Shl(m, e - 3) < P256(32)
    ensures Decode(bits) == Some(Shl(m, e - 3))
  {
    WideParts(bits, e, m);
    DecodeIs(bits, m, e - 3, true);
  }

  lemma WideParts(bits: uint32, e: nat, m: nat)
    requires e == bits / 0x100_0000 && 3 < e <= 33 && m == bits % 0x80_0000
    ensures Mantissa(bits) == m && ZeroBytes(bits) == e - 3
  {
  }

  lemma SmallCanonical(bits: uint32, e: nat, m: nat)
    requires Canonical(bits) && e == bits / 0x100_0000 && e <= 3 && m == bits % 0x80_0000
    ensures Decode(bits).Some? && Decode(bits).value > 0 && Encode(Decode(bits).value) == bits
  {
    SmallDecode(bits, e, m);
    SmallEncode(Decode(bits).value);
  }

  lemma CanonicalFits(m: nat, k: nat)
    requires m < 0x80_0000 && k <= 30 && (k == 30 ==> m < 0x1_0000)
    ensures Shl(m, k) < P256(32)
  {
    if k == 30 {
      ShlBelow(m, 2, k);
    } else {
      ShlBelow(m, 3, k);
      P256Mono(k + 3, 32);
    }
  }

  lemma {:induction false} ShlBelow(m: nat, n: nat, k: nat)
    requires m < P256(n)
    ensures Shl(m, k) < P256(n + k)
    decreases k
  {
    if k > 0 {
      ShlBelow(m, n, k - 1);
    }
  }

  lemma {:induction false} P256Mono(j: nat, k: nat)
    requires j <= k
    ensures P256(j) <= P256(k)
    decreases k
  {
    if j < k {
      P256Mono(j, k - 1);
    }
  }

  lemma {:induction false} ShlAbove(m: nat, n: nat, k: nat)
    requires m >= P256(n)
    ensures Shl(m, k) >= P256(n + k)
    decreases k
  {
    if k > 0 {
      ShlAbove(m, n, k - 1);
    }
  }

  // Three bytes shifted by z bytes pass 32 bytes.
  lemma ShlOverflow(m: nat, z: nat)
    requires m < 0x100_0000 && z < 32
    ensures Shl(m, z) >= P256(32) <==> (z == 31 && m >= 0x100) || (z == 30 && m >= 0x1_0000)
  {
    assert P256(1) == 0x100 && P256(2) == 0x1_0000 && P256(3) == 0x100_0000;
    var n := if z == 31 then 1 else if z == 30 then 2 else 3;
    if m >= P256(n) {
      ShlAbove(m, n, z);
    } else {
      ShlBelow(m, n, z);
      P256Mono(n + z, 32);
    }
  }

  lemma FieldsOf(bits: uint32, sign: nat, e: nat, m: nat)
    requires sign <= 1 && e < 256 && m < 0x80_0000 && bits == e * 0x100_0000 + sign * 0x80_0000 + m
    ensures bits / 0x100_0000 == e && bits % 0x80_0000 == m && (Negative(bits) <==> sign == 1)
  {
    assert bits / 0x80_0000 == 2 * e + sign;
  }

  // What a compact value stands for, field by field, while its shift is not reduced: none
  // for zero and for a sign, and otherwise m * 256^(e - 3), rounded down, if it fits.
  lemma DecodeFields(bits: uint32, sign: nat, e: nat, m: nat)
    requires sign <= 1 && e <= 34 && m < 0x80_0000 && bits == e * 0x100_0000 + sign * 0x80_0000 + m
    ensures bits == 0 || sign == 1 ==> Decode(bits) == None
    ensures bits != 0 && sign == 0 && e < 3 ==> Decode(bits) == Some(if e == 0 then 0 else if e == 1 then m / 0x1_0000 else m / 0x100)
    ensures bits != 0 && sign == 0 && e >= 3 ==>
      Decode(bits) == if m * P256(e - 3) < P256(32) then Some(m * P256(e - 3)) else None
  {
    FieldsOf(bits, sign, e, m);
    if bits != 0 && sign == 0 {
      if e == 0 {
        DecodeNothing(bits, m);
      } else if e < 3 {
        SmallDecode(bits, e, m);
      } else {
        ShiftIsPow(256, m, e - 3);
        DecodeShifted(bits, e, m, e - 3);
      }
    }
  }

  lemma DecodeNothing(bits: uint32, m: nat)
    requires bits != 0 && !Negative(bits) && bits / 0x100_0000 == 0 && m == bits % 0x80_0000
    ensures Decode(bits) == Some(0)
  {
    assert m / 256 / 256 / 256 == 0;
    assert ShrBytes(m, 3) == ShrBytes(m / 256, 2) && ShrBytes(m / 256, 2) == ShrBytes(m / 256 / 256, 1);
    assert ShrBytes(m / 256 / 256, 1) == ShrBytes(m / 256 / 256 / 256, 0);
    P256Big(29);
    DecodeIs(bits, 0, 0, true);
  }

  lemma DecodeShifted(bits: uint32, e: nat, m: nat, k: nat)
    requires bits != 0 && !Negative(bits) && bits / 0x100_0000 == e && m == bits % 0x80_0000 && 3 <= e <= 34 && k == e - 3
    ensures Decode(bits) == if Shl(m, k) < P256(32) then Some(Shl(m, k)) else None
  {
    ReducedShift(bits, e);
    DecodeIs(bits, m, k, Shl(m, k) < P256(32));
  }

  // The decoder was meant to refuse a target of more than 256 bits.  It does so
  // exactly when the exponent is at most 34, or the mantissa is zero, or the
  // exponent is one of those that still shift a large mantissa out.
  lemma OverflowRefused(bits: uint32)
    requires bits != 0 && !Negative(bits)
    ensures Decode(bits) == DecodeFully(bits) <==>
      (|| bits / 0x100_0000 <= 34
       || bits % 0x80_0000 == 0
       || (bits / 0x100_0000 % 32 == 2 && bits % 0x80_0000 >= 0x100)
       || (bits / 0x100_0000 % 32 == 1 && bits % 0x80_0000 >= 0x1_0000))
  {
    var e, m, z := bits / 0x100_0000, bits % 0x80_0000, ZeroBytes(bits);
    DecodeIs(bits, Mantissa(bits), z, Shl(Mantissa(bits), z) < P256(32));
    if e <= 34 {
      ReducedShift(bits, e);
    } else {
      FullyRefused(bits, e, m, z);
      WrappedShift(bits, e);
      ShlOverflow(m, z);
    }
  }

  lemma ReducedShift(bits: uint32, e: nat)
    requires e == bits / 0x100_0000 && e <= 34
    ensures ZeroBytes(bits) == if e <= 3 then 0 else e - 3
  {
  }

  lemma WrappedShift(bits: uint32, e: nat)
    requires e == bits / 0x100_0000 && e > 34
    ensures ZeroBytes(bits) < 32
    ensures ZeroBytes(bits) == 31 <==> e % 32 == 2
    ensures ZeroBytes(bits) == 30 <==> e % 32 == 1
  {
  }

  // Beyond exponent 34 only a zero mantissa fits.
  lemma FullyRefused(bits: uint32, e: nat, m: nat, z: nat)
    requires bits != 0 && !Negative(bits) && e == bits / 0x100_0000 && e > 34 && m == bits % 0x80_0000
    ensures Mantissa(bits) == m
    ensures DecodeFully(bits) == if m == 0 then Some(0) else None
    ensures m == 0 ==> Shl(m, z) == 0 < P256(32)
  {
    ShlBounds(m, e - 3);
    ShlBounds(m, z);
    P256Mono(32, e - 3);
  }

  // Exponent 35 wraps around to exponent 3.
  lemma OverflowAccepted(bits: uint32)
    requires bits == 0x2300_0001
    ensures Decode(bits) == Some(1) && DecodeFully(bits) == None
  {
    WrapParts(bits);
    assert P256(32) > 1 by { P256Big(29); }
    ShlBounds(1, bits / 0x100_0000 - 3);
  }

  lemma WrapParts(bits: uint32)
    requires bits == 0x2300_0001
    ensures !Negative(bits) && bits / 0x100_0000 == 35 && Mantissa(bits) == 1 && ZeroBytes(bits) == 0
  {
  }

  // ----- Proof of work -----

  // floor(2^256 / (target + 1)), cut to 256 bits.
  function ProofOf(target: nat): nat {
    P256(32) / (target + 1) % P256(32)
  }

  // Only the zero target loses its proof to the cut.
  lemma ProofExact(target: nat)
    ensures ProofOf(target) == P256(32) / (target + 1) <==> target != 0
    ensures target == 0 ==> ProofOf(target) == 0
    ensures 0 < target < P256(32) ==> 0 < ProofOf(target)
  {
    ProofOver(target, P256(32));
  }

  lemma ProofOver(target: nat, p: nat)
    requires p > 0
    ensures p / (target + 1) % p == p / (target + 1) <==> target != 0
    ensures target == 0 ==> p / (target + 1) % p == 0
    ensures 0 < target < p ==> 0 < p / (target + 1) % p
  {
    if target == 0 {
      assert p / 1 == p;
      ModCarry(p, 0, 1, p);
    } else {
      QuotientBounds(p, target + 1);
      ModCarry(p / (target + 1), p / (target + 1), 0, p);
    }
  }

  lemma QuotientBounds(p: nat, d: nat)
    requires p > 0 && d >= 2
    ensures p / d < p && (d <= p ==> p / d >= 1)
  {
    var q := p / d;
    assert p == d * q + p % d;
    if q >= p {
      MulMono(d, p, q);
    }
    MulSign(d, q);
  }

  // 1 << 256
  method TwoTo256(n: Bn)
    requires n.Length == SIZE
    modifies n
    ensures V(n[..]) == P256(32) < Modulus()
  {
    FromInt(n, 1);
    LshiftWord(n, 8);
    ShiftIsPow(BASE, 1, 8);
    P256Pow(8);
    HalfOfModulus();
    ModCarry(P256(32), P256(32), 0, Modulus());
  }

  lemma HalfOfModulus()
    ensures P256(32) * P256(32) == Modulus() && 1 < P256(32) < Modulus()
  {
    P256Pow(8);
    PowAdd(BASE, 8, 8);
    P256Big(29);
    MulMono(P256(32), 2, P256(32));
  }

  lemma IncExact(x: nat, data: bytes)
    requires |data| == 32 && x == BE(data)
    ensures (x + 1) % Modulus() == x + 1
  {
    BEBound(data);
    SumFits(x, 1);
  }

  lemma ProofIs(target: nat, q: nat, p: nat, top: nat)
    requires top == P256(32) && Quot(q, top, target + 1) && p == q % P256(32)
    ensures p == ProofOf(target)
  {
  }

  // floor(2^256 / (target + 1)), as 32 bytes.
  method ProofOfTarget(target: bytes) returns (proof: bytes)
    requires |target| == 32
    ensures |proof| == 32 && BE(proof) == ProofOf(BE(target))
  {
    var max := new limb[SIZE];
    TwoTo256(max);
    ghost var top := V(max[..]);
    var t := Denominator(target);
    DivInto(max, t, top, BE(target) + 1);
    ghost var q := V(t[..]);
    proof := ToArray(t);
    ProofIs(BE(target), q, BE(proof), top);
  }

  predicate Quot(q: nat, a: nat, b: nat) {
    b > 0 && q == a / b
  }

  // t = floor(a / t)
  method DivInto(a: Bn, t: Bn, ghost top: nat, ghost d: nat)
    requires a.Length == t.Length == SIZE && V(a[..]) == top && V(t[..]) == d > 0
    modifies t
    ensures Quot(V(t[..]), top, d)
  {
    Div(a, t, t);
  }

  // The target, and one.
  method Denominator(target: bytes) returns (t: Bn)
    requires |target| == 32
    ensures fresh(t) && t.Length == SIZE && V(t[..]) == BE(target) + 1
  {
    t := new limb[SIZE];
    FromArray(t, target);
    IncExact(V(t[..]), target);
    Inc(t);
  }

  method GetProof(bits: uint32) returns (r: Option<bytes>)
    ensures r.Some? <==> Decode(bits).Some?
    ensures r.Some? ==> |r.value| == 32 && BE(r.value) == ProofOf(Decode(bits).value)
  {
    var ok, target := ToTarget(bits);
    if !ok {
      return None;
    }
    var proof := ProofOfTarget(target);
    return Some(proof);
  }

  // The work of a header on top of its parent's.
  function TotalWork(prevWork: nat, target: nat): nat {
    (prevWork + ProofOf(target)) % P256(32)
  }

  method CalcWork(bits: uint32, prevWork: bytes) returns (r: Option<bytes>)
    requires |prevWork| == 32
    ensures r.Some? <==> Decode(bits).Some?
    ensures r.Some? ==> |r.value| == 32 && BE(r.value) == TotalWork(BE(prevWork), Decode(bits).value)
  {
    var proof := GetProof(bits);
    if proof.None? {
      return None;
    }
    var work := AddBytes(prevWork, proof.value);
    return Some(work);
  }

  lemma SumExact(x: nat, y: nat, a: bytes, b: bytes)
    requires |a| == |b| == 32 && x == BE(a) && y == BE(b)
    ensures (x + y) % Modulus() == x + y
  {
    BEBound(a);
    BEBound(b);
    SumFits(x, y);
  }

  method AddBytes(x: bytes, y: bytes) returns (r: bytes)
    requires |x| == |y| == 32
    ensures |r| == 32 && BE(r) == (BE(x) + BE(y)) % P256(32)
  {
    var prev, sum := new limb[SIZE], new limb[SIZE];
    FromArray(prev, x);
    FromArray(sum, y);
    Add(prev, sum, sum);
    ghost var total := V(sum[..]);
    r := ToArray(sum);
    SumIs(x, y, total, BE(r));
  }

  lemma SumIs(x: bytes, y: bytes, total: nat, r: nat)
    requires |x| == |y| == 32 && total == (BE(x) + BE(y)) % Modulus() && r == total % P256(32)
    ensures r == (BE(x) + BE(y)) % P256(32)
  {
    SumExact(BE(x), BE(y), x, y);
  }

  lemma SumBelow(x: nat, y: nat, top: nat, m: nat)
    requires x < top && y < top && 2 <= top && top * top == m
    ensures (x + y) % m == x + y
  {
    MulMono(top, 2, top);
    ModCarry(x + y, x + y, 0, m);
  }

  lemma SumFits(x: nat, y: nat)
    requires x < P256(32) && y < P256(32)
    ensures (x + y) % Modulus() == x + y
  {
    HalfOfModulus();
    SumBelow(x, y, P256(32), Modulus());
  }
}
