// Names in DNS messages as bytes, and the parser that follows pointers (section
// 4.1.4 of RFC 1035).
module DnsName {
  import opened Bytes

  const DOT: byte := 0x2e
  const MAX_LABEL: nat := 63
  const MAX_NAME: nat := 255
  const MAX_HOPS: nat := 10
  const POINTER_LIMIT: nat := 0x4000

  type Pointer = p: nat | p < POINTER_LIMIT

  const ROOT: bytes := [DOT]

  // Names are C strings: 0xff stands for NUL and 0xfe for a dot in a label.
  predicate CString(s: bytes) {
    forall i :: 0 <= i < |s| ==> s[i] != 0
  }

  function ToWire(b: byte): byte {
    if b == 0xff then 0 else if b == 0xfe then DOT else b
  }

  function FromWire(b: byte): byte {
    if b == 0 then 0xff else if b == DOT then 0xfe else b
  }

  function LabelToWire(s: bytes): (w: bytes)
    ensures |w| == |s|
  {
    if s == [] then [] else LabelToWire(s[..|s| - 1]) + [ToWire(s[|s| - 1])]
  }

  function LabelFromWire(w: bytes): (s: bytes)
    ensures |w| == |s|
  {
    if w == [] then [] else LabelFromWire(w[..|w| - 1]) + [FromWire(w[|w| - 1])]
  }

  // The position of the first dot, or the length if there is none.
  function FirstDot(s: bytes): (d: nat)
    ensures d <= |s| && (d < |s| ==> s[d] == DOT)
  {
    if s == [] then 0 else if s[0] == DOT then 0 else 1 + FirstDot(s[1..])
  }

  lemma {:induction false} FirstDotIs(s: bytes, d: nat)
    requires d < |s| && s[d] == DOT && forall i :: 0 <= i < d ==> s[i] != DOT
    ensures FirstDot(s) == d
  {
    if d > 0 {
      FirstDotIs(s[1..], d - 1);
    }
  }

  lemma {:induction false} NoDotBefore(s: bytes)
    ensures DOT !in s[..FirstDot(s)]
  {
    if s != [] && s[0] != DOT {
      var d := FirstDot(s[1..]);
      NoDotBefore(s[1..]);
      assert s[..d + 1] == [s[0]] + s[1..][..d];
    }
  }

  // ----- What a message encodes -----

  function PointerAt(msg: bytes, o: nat): Pointer
    requires o + 1 < |msg| && msg[o] >= 0xc0
  {
    0x100 * (msg[o] as nat - 0xc0) + msg[o + 1] as nat
  }

  // The bytes of msg at o spell the text t after h pointers, where t is a
  // sequence of labels each followed by a dot.
  predicate Encodes(msg: bytes, o: nat, t: bytes, h: nat)
    decreases h, |t|
  {
    && o < |msg|
    && if msg[o] == 0 then t == [] && h == 0
       else if msg[o] <= MAX_LABEL then
         var c: nat := msg[o];
         && o + 1 + c <= |msg| && c < |t| && t[c] == DOT
         && LabelFromWire(msg[o + 1..o + 1 + c]) == t[..c]
         && Encodes(msg, o + 1 + c, t[c + 1..], h)
       else msg[o] >= 0xc0 && o + 1 < |msg| && h > 0 && Encodes(msg, PointerAt(msg, o), t, h - 1)
  }

  // The end of a name at o: after its zero byte or its first pointer.
  function End(msg: bytes, o: nat): nat
    decreases |msg| - o
  {
    if o >= |msg| then o
    else if msg[o] == 0 then o + 1
    else if msg[o] <= MAX_LABEL then End(msg, o + 1 + msg[o])
    else o + 2
  }

  // ----- Parsing -----

  datatype Parsed = Failed | Parsed(name: bytes, used: nat)

  // The empty sequence of labels is written as a single dot.
  function Text(t: bytes): bytes {
    if t == [] then ROOT else t
  }

  // The parser's loop: at off in cur, with name read so far, after ptr pointers.
  function Walk(cur: bytes, off: nat, dmp: Option<bytes>, ptr: nat, name: bytes, res: nat): Parsed
    requires ptr <= MAX_HOPS
    decreases MAX_HOPS - ptr, |cur| - off
  {
    if off >= |cur| then Failed
    else if cur[off] == 0 then
      Parsed(Text(name), if ptr == 0 then off + 1 else res)
    else if cur[off] <= MAX_LABEL then
      var c: nat := cur[off];
      if off + 1 + c > |cur| || |name| + c + 1 > MAX_NAME then Failed
      else Walk(cur, off + 1 + c, dmp, ptr, name + LabelFromWire(cur[off + 1..off + 1 + c]) + [DOT], res)
    else if cur[off] >= 0xc0 then
      if dmp.None? || off + 1 >= |cur| || ptr == MAX_HOPS then Failed
      else Walk(dmp.value, PointerAt(cur, off), dmp, ptr + 1, name, if ptr == 0 then off + 2 else res)
    else Failed
  }

  function ParseResult(data: bytes, dmp: Option<bytes>): Parsed {
    Walk(data, 0, dmp, 0, [], 0)
  }

  method Parse(data: bytes, dmp: Option<bytes>) returns (r: Parsed)
    ensures r == ParseResult(data, dmp)
  {
    var cur := data;
    var off: nat, res: nat, ptr: nat := 0, 0, 0;
    var name: bytes := [];
    while true
      invariant ptr <= MAX_HOPS
      invariant Walk(cur, off, dmp, ptr, name, res) == ParseResult(data, dmp)
      decreases MAX_HOPS - ptr, |cur| - off
    {
      if off >= |cur| {
        return Failed;
      }
      var c: nat := cur[off];
      off := off + 1;
      if c == 0 {
        break;
      }
      if c <= MAX_LABEL {
        if off + c > |cur| {
          return Failed;
        }
        if |name| + c + 1 > MAX_NAME {
          return Failed;
        }
        name := ReadLabel(name, cur, off, c);
        name := name + [DOT];
        off := off + c;
      } else if c >= 0xc0 {
        if dmp.None? {
          return Failed;
        }
        if off >= |cur| {
          return Failed;
        }
        var c1: nat := cur[off];
        off := off + 1;
        if ptr == 0 {
          res := off;
        }
        if ptr + 1 > MAX_HOPS {
          return Failed;
        }
        ptr := ptr + 1;
        off := 0x100 * (c - 0xc0) + c1;
        cur := dmp.value;
      } else {
        return Failed;
      }
    }
    if ptr == 0 {
      res := off;
    }
    if name == [] {
      name := ROOT;
    }
    return Parsed(name, res);
  }

  method ReadLabel(name: bytes, data: bytes, off: nat, c: nat) returns (r: bytes)
    requires off + c <= |data|
    ensures r == name + LabelFromWire(data[off..off + c])
  {
    r := name;
    for j := off to off + c
      invariant r == name + LabelFromWire(data[off..j])
    {
      var b := data[j];
      if b == 0 {
        b := 0xff;
      }
      if b == DOT {
        b := 0xfe;
      }
      assert data[off..j + 1][..j - off] == data[off..j];
      r := r + [b];
    }
  }

  // ----- The parser reads exactly what is encoded -----

  lemma {:induction false} EndBound(msg: bytes, o: nat, t: bytes, h: nat)
    requires Encodes(msg, o, t, h)
    ensures o < End(msg, o) <= |msg|
    decreases |t|
  {
    if 0 < msg[o] <= MAX_LABEL {
      EndBound(msg, o + 1 + msg[o], t[msg[o] + 1..], h);
    }
  }

  lemma Window(msg: bytes, b: nat, e: nat, i: nat, j: nat)
    requires i <= j && b + j <= e <= |msg|
    ensures msg[b..e][i..j] == msg[b + i..b + j]
  {
    forall x | 0 <= x < j - i
      ensures msg[b..e][i..j][x] == msg[b + i..b + j][x]
    {
      assert msg[b..e][i + x] == msg[b + i + x];
    }
  }

  function Outcome(name: bytes, t: bytes, hops: nat, used: nat): Parsed {
    if hops <= MAX_HOPS && |name| + |t| <= MAX_NAME then Parsed(Text(name + t), used) else Failed
  }

  // Reading one label moves it from the text still to come to the name.
  lemma OutcomeLabel(name: bytes, t: bytes, c: nat, name': bytes, t': bytes, hops: nat, used: nat)
    requires c < |t| && t[c] == DOT && name' == name + t[..c] + [DOT] && t' == t[c + 1..]
    ensures Outcome(name', t', hops, used) == Outcome(name, t, hops, used)
    ensures |name| + c + 1 > MAX_NAME ==> Outcome(name, t, hops, used) == Failed
  {
    assert t == t[..c] + [DOT] + t[c + 1..];
    assert name' + t' == name + t;
  }

  // From an encoded position the loop succeeds exactly within the two limits.
  // The window is msg[b..e], and o = b + k is the position in the message.
  lemma {:induction false} WalkEncoded(msg: bytes, b: nat, e: nat, k: nat, o: nat, t: bytes, h: nat, ptr: nat, name: bytes, res: nat)
    requires e <= |msg| && o == b + k && Encodes(msg, o, t, h) && End(msg, o) <= e && ptr <= MAX_HOPS && |name| <= MAX_NAME
    ensures o < End(msg, o)
    ensures Walk(msg[b..e], k, Some(msg), ptr, name, res)
         == Outcome(name, t, ptr + h, if ptr == 0 then End(msg, o) - b else res)
    decreases h, |t|, 1
  {
    EndBound(msg, o, t, h);
    var cur := msg[b..e];
    assert cur[k] == msg[o];
    if msg[o] == 0 {
      assert name + t == name;
    } else if msg[o] <= MAX_LABEL {
      WalkLabel(msg, b, e, k, o, msg[o], t, h, ptr, name, res);
    } else {
      WalkPointer(msg, b, e, k, o, t, h, ptr, name, res);
    }
  }

  // What an encoded label says of the rest.
  lemma EncodedLabel(msg: bytes, o: nat, o': nat, c: nat, t: bytes, h: nat)
    requires Encodes(msg, o, t, h) && 0 < msg[o] <= MAX_LABEL && c == msg[o] && o' == o + 1 + c
    ensures o' <= |msg| && c < |t| && t[c] == DOT && LabelFromWire(msg[o + 1..o']) == t[..c]
    ensures Encodes(msg, o', t[c + 1..], h) && End(msg, o) == End(msg, o')
  {
  }

  lemma {:induction false} WalkLabel(msg: bytes, b: nat, e: nat, k: nat, o: nat, c: nat, t: bytes, h: nat, ptr: nat, name: bytes, res: nat)
    requires e <= |msg| && o == b + k && Encodes(msg, o, t, h) && o < End(msg, o) <= e && ptr <= MAX_HOPS && |name| <= MAX_NAME
    requires 0 < msg[o] <= MAX_LABEL && c == msg[o]
    ensures Walk(msg[b..e], k, Some(msg), ptr, name, res)
         == Outcome(name, t, ptr + h, if ptr == 0 then End(msg, o) - b else res)
    decreases h, |t|, 0
  {
    var k', o' := k + 1 + c, o + 1 + c;
    EncodedLabel(msg, o, o', c, t, h);
    var text, t' := t[..c], t[c + 1..];
    var name' := name + text + [DOT];
    EndBound(msg, o', t', h);
    WalkOverLabel(msg, b, e, k, k', o, o', c, text, ptr, name, name', res);
    OutcomeLabel(name, t, c, name', t', ptr + h, if ptr == 0 then End(msg, o) - b else res);
    if |name| + c + 1 <= MAX_NAME {
      WalkEncoded(msg, b, e, k', o', t', h, ptr, name', res);
    }
  }

  // The loop's step over a label, in a window of the message.
  lemma WalkOverLabel(msg: bytes, b: nat, e: nat, k: nat, k': nat, o: nat, o': nat, c: nat, text: bytes, ptr: nat,
                      name: bytes, name': bytes, res: nat)
    requires o == b + k < e <= |msg| && ptr <= MAX_HOPS && 0 < msg[o] <= MAX_LABEL && c == msg[o]
    requires k' == k + 1 + c && o' == o + 1 + c && name' == name + text + [DOT]
    requires o' <= e ==> text == LabelFromWire(msg[o + 1..o'])
    ensures Walk(msg[b..e], k, Some(msg), ptr, name, res)
         == if o' > e || |name| + c + 1 > MAX_NAME then Failed
            else Walk(msg[b..e], k', Some(msg), ptr, name', res)
  {
    assert msg[b..e][k] == msg[o];
    if o' <= e {
      Window(msg, b, e, k + 1, k');
    }
  }

  // The loop's step over a pointer.
  lemma WalkOverPointer(msg: bytes, b: nat, e: nat, k: nat, o: nat, ptr: nat, name: bytes, res: nat)
    requires o == b + k < e <= |msg| && ptr <= MAX_HOPS && msg[o] >= 0xc0
    ensures Walk(msg[b..e], k, Some(msg), ptr, name, res)
         == if o + 1 >= e || ptr == MAX_HOPS then Failed
            else Walk(msg[0..|msg|], PointerAt(msg, o), Some(msg), ptr + 1, name, if ptr == 0 then k + 2 else res)
  {
    assert msg[b..e][k] == msg[o] && msg[0..|msg|] == msg;
    if o + 1 < e {
      assert msg[b..e][k + 1] == msg[o + 1];
    }
  }

  lemma {:induction false} WalkPointer(msg: bytes, b: nat, e: nat, k: nat, o: nat, t: bytes, h: nat, ptr: nat, name: bytes, res: nat)
    requires e <= |msg| && o == b + k && Encodes(msg, o, t, h) && o < End(msg, o) <= e && ptr <= MAX_HOPS && |name| <= MAX_NAME
    requires msg[o] > MAX_LABEL
    ensures Walk(msg[b..e], k, Some(msg), ptr, name, res)
         == Outcome(name, t, ptr + h, if ptr == 0 then End(msg, o) - b else res)
    decreases h, |t|, 0
  {
    var p := EncodedPointer(msg, o, t, h);
    var used := if ptr == 0 then k + 2 else res;
    if ptr < MAX_HOPS {
      WalkFrom(msg, p, t, h - 1, ptr + 1, name, used);
    }
    PointerWalked(msg, b, e, k, o, p, t, h, ptr, name, res, used);
  }

  lemma {:induction false} WalkFrom(msg: bytes, p: nat, t: bytes, h: nat, ptr: nat, name: bytes, used: nat)
    requires Encodes(msg, p, t, h) && 0 < ptr <= MAX_HOPS && |name| <= MAX_NAME
    ensures Walk(msg[0..|msg|], p, Some(msg), ptr, name, used) == Outcome(name, t, ptr + h, used)
    decreases h, |t|, 2
  {
    EndBound(msg, p, t, h);
    WalkEncoded(msg, 0, |msg|, p, p, t, h, ptr, name, used);
  }

  lemma PointerWalked(msg: bytes, b: nat, e: nat, k: nat, o: nat, p: Pointer, t: bytes, h: nat, ptr: nat, name: bytes, res: nat, used: nat)
    requires o == b + k && o + 1 < e <= |msg| && ptr <= MAX_HOPS && msg[o] >= 0xc0 && p == PointerAt(msg, o) && h > 0
    requires used == (if ptr == 0 then k + 2 else res)
    requires ptr < MAX_HOPS ==> Walk(msg[0..|msg|], p, Some(msg), ptr + 1, name, used) == Outcome(name, t, ptr + h, used)
    ensures Walk(msg[b..e], k, Some(msg), ptr, name, res) == Outcome(name, t, ptr + h, used)
  {
    WalkOverPointer(msg, b, e, k, o, ptr, name, res);
  }

  // What an encoded pointer says of the rest.
  lemma EncodedPointer(msg: bytes, o: nat, t: bytes, h: nat) returns (p: Pointer)
    requires Encodes(msg, o, t, h) && msg[o] > MAX_LABEL
    ensures msg[o] >= 0xc0 && o + 1 < |msg| && p == PointerAt(msg, o)
    ensures h > 0 && Encodes(msg, p, t, h - 1) && End(msg, o) == o + 2
  {
    p := PointerAt(msg, o);
  }

  // A label in front of an encoded text.
  lemma LabelEncodes(msg: bytes, o: nat, c: nat, text: bytes, t: bytes, h: nat)
    requires o + 1 + c <= |msg| && 0 < msg[o] <= MAX_LABEL && c == msg[o]
    requires text == LabelFromWire(msg[o + 1..o + 1 + c]) && Encodes(msg, o + 1 + c, t, h)
    ensures Encodes(msg, o, text + [DOT] + t, h)
  {
    var u := text + [DOT] + t;
    assert u[..c] == text && u[c] == DOT && u[c + 1..] == t;
  }

  // If the loop succeeds from o, the text t is encoded there.
  predicate SoundAt(msg: bytes, e: nat, o: nat, w: Parsed, t: bytes, h: nat) {
    w.Parsed? ==> Encodes(msg, o, t, h) && End(msg, o) <= e
  }

  // Whatever the loop returns is encoded there.
  lemma {:induction false} WalkSound(msg: bytes, b: nat, e: nat, k: nat, o: nat, ptr: nat, name: bytes, res: nat)
    returns (t: bytes, h: nat)
    requires b <= e <= |msg| && o == b + k && ptr <= MAX_HOPS
    ensures SoundAt(msg, e, o, Walk(msg[b..e], k, Some(msg), ptr, name, res), t, h)
    decreases MAX_HOPS - ptr, |msg| - o, 1
  {
    t, h := [], 0;
    if o < e {
      assert msg[b..e][k] == msg[o];
      if 0 < msg[o] <= MAX_LABEL {
        t, h := SoundLabel(msg, b, e, k, o, msg[o], ptr, name, res);
      } else if msg[o] >= 0xc0 {
        t, h := SoundPointer(msg, b, e, k, o, ptr, name, res);
      }
    }
  }

  lemma {:induction false} SoundLabel(msg: bytes, b: nat, e: nat, k: nat, o: nat, c: nat, ptr: nat, name: bytes, res: nat)
    returns (t: bytes, h: nat)
    requires o == b + k < e <= |msg| && ptr <= MAX_HOPS && 0 < msg[o] <= MAX_LABEL && c == msg[o]
    ensures SoundAt(msg, e, o, Walk(msg[b..e], k, Some(msg), ptr, name, res), t, h)
    decreases MAX_HOPS - ptr, |msg| - o, 0
  {
    t, h := [], 0;
    var k', o' := k + 1 + c, o + 1 + c;
    var text := if o' <= e then LabelFromWire(msg[o + 1..o']) else [];
    var name' := name + text + [DOT];
    WalkOverLabel(msg, b, e, k, k', o, o', c, text, ptr, name, name', res);
    if o' <= e && |name| + c + 1 <= MAX_NAME {
      t, h := WalkSound(msg, b, e, k', o', ptr, name', res);
      t := SoundOverLabel(msg, e, o, o', c, text, t, h, Walk(msg[b..e], k', Some(msg), ptr, name', res));
    }
  }

  lemma SoundOverLabel(msg: bytes, e: nat, o: nat, o': nat, c: nat, text: bytes, t: bytes, h: nat, w: Parsed) returns (t': bytes)
    requires o' == o + 1 + c <= e <= |msg| && 0 < msg[o] <= MAX_LABEL && c == msg[o]
    requires text == LabelFromWire(msg[o + 1..o']) && SoundAt(msg, e, o', w, t, h)
    ensures SoundAt(msg, e, o, w, t', h)
  {
    t' := text + [DOT] + t;
    if w.Parsed? {
      LabelEncodes(msg, o, c, text, t, h);
    }
  }

  lemma {:induction false} SoundPointer(msg: bytes, b: nat, e: nat, k: nat, o: nat, ptr: nat, name: bytes, res: nat)
    returns (t: bytes, h: nat)
    requires o == b + k < e <= |msg| && ptr <= MAX_HOPS && msg[o] >= 0xc0
    ensures SoundAt(msg, e, o, Walk(msg[b..e], k, Some(msg), ptr, name, res), t, h)
    decreases MAX_HOPS - ptr, |msg| - o, 0
  {
    t, h := [], 0;
    WalkOverPointer(msg, b, e, k, o, ptr, name, res);
    if o + 1 < e && ptr < MAX_HOPS {
      var p := PointerAt(msg, o);
      t, h := WalkSound(msg, 0, |msg|, p, p, ptr + 1, name, if ptr == 0 then k + 2 else res);
      h := h + 1;
    }
  }

  // A position encodes at most one text, with one hop count.
  lemma {:induction false} EncodesOnce(msg: bytes, o: nat, t: bytes, h: nat, t': bytes, h': nat)
    requires Encodes(msg, o, t, h) && Encodes(msg, o, t', h')
    ensures t == t' && h == h'
    decreases h, |t|
  {
    if msg[o] == 0 {
    } else if msg[o] <= MAX_LABEL {
      var c: nat := msg[o];
      EncodesOnce(msg, o + 1 + c, t[c + 1..], h, t'[c + 1..], h');
      assert t == t[..c] + [DOT] + t[c + 1..] && t' == t'[..c] + [DOT] + t'[c + 1..];
    } else {
      EncodesOnce(msg, PointerAt(msg, o), t, h - 1, t', h' - 1);
    }
  }

  // The bytes at o, up to e, spell name within the parser's two limits.
  ghost predicate ReadsAs(msg: bytes, o: nat, e: nat, name: bytes, used: nat) {
    exists t: bytes, h: nat :: Spells(msg, o, e, name, used, t, h)
  }

  predicate Spells(msg: bytes, o: nat, e: nat, name: bytes, used: nat, t: bytes, h: nat) {
    && Encodes(msg, o, t, h) && h <= MAX_HOPS && |t| <= MAX_NAME && name == Text(t)
    && used == End(msg, o) - o && End(msg, o) <= e
  }

  // The parser returns a name and its size in the window msg[o..e] exactly
  // when the bytes spell that name within ten pointers and 255 characters.
  lemma ParseExact(msg: bytes, o: nat, e: nat, name: bytes, used: nat)
    requires o <= e <= |msg|
    ensures ParseResult(msg[o..e], Some(msg)) == Parsed(name, used) <==> ReadsAs(msg, o, e, name, used)
  {
    if ReadsAs(msg, o, e, name, used) {
      var t: bytes, h: nat :| Spells(msg, o, e, name, used, t, h);
      WalkEncoded(msg, o, e, 0, o, t, h, 0, [], 0);
      assert [] + t == t;
    }
    if ParseResult(msg[o..e], Some(msg)) == Parsed(name, used) {
      var t, h := WalkSound(msg, o, e, 0, o, 0, [], 0);
      WalkEncoded(msg, o, e, 0, o, t, h, 0, [], 0);
      assert [] + t == t;
      assert Spells(msg, o, e, name, used, t, h);
    }
  }
}
