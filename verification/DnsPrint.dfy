// The printer of names in DNS messages, which compresses them.
module DnsPrint {
  import opened Bytes
  import opened DnsName

  // Offsets by the text that starts there; a zero offset reads as absent.
  type Offsets = map<bytes, Pointer>

  class Compressor {
    var offsets: Offsets

    constructor ()
      ensures offsets == map[]
    {
      offsets := map[];
    }
  }

  ghost function View(cmp: Compressor?): Option<Offsets>
    reads cmp
  {
    if cmp == null then None else Some(cmp.offsets)
  }

  function Lookup(c: Option<Offsets>, s: bytes): Pointer {
    if c.Some? && s in c.value then c.value[s] else 0
  }

  function Store(c: Option<Offsets>, s: bytes, o: nat): Option<Offsets> {
    if c.Some? && s != ROOT && o < POINTER_LIMIT then Some(c.value[s := o]) else c
  }

  function PointerBytes(p: Pointer): bytes {
    [0xc0 + p / 0x100, p % 0x100]
  }

  // out with one more label behind it.
  function Labelled(out: bytes, text: bytes): (r: bytes)
    requires |text| <= MAX_LABEL
    ensures |r| == |out| + 1 + |text|
  {
    out + [|text|] + LabelToWire(text)
  }

  // The label of d characters from position at of the name is refused: empty, too
  // long, or past 256 bytes.
  predicate BadLabel(at: nat, d: nat) {
    (d == 0 && at > 0) || d > MAX_LABEL || at + 1 + d > 256
  }

  predicate Known(s: bytes, cmp: Option<Offsets>) {
    s != ROOT && Lookup(cmp, s) != 0
  }

  // Why the scan of a name stops: at a bad label, at the end of the name, or at a
  // text seen before.
  datatype Halt = AtBad | AtEnd | AtSeen(p: Pointer)

  // What the scan does: the labels it prints, where it stops, and the map it leaves.
  datatype Scan = Scan(labels: bytes, halt: Halt, cmp: Option<Offsets>)

  function Front(head: bytes, t: Scan): Scan {
    t.(labels := head + t.labels)
  }

  // The text behind the first dot.
  function AfterDot(s: bytes): (r: bytes)
    ensures s != [] ==> |r| < |s|
  {
    if s == [] then [] else if s[0] == DOT then s[1..] else AfterDot(s[1..])
  }

  lemma {:induction false} AfterDotIs(s: bytes, d: nat)
    requires d == FirstDot(s) < |s|
    ensures AfterDot(s) == s[d + 1..]
  {
    if d > 0 {
      AfterDotIs(s[1..], d - 1);
      assert s[1..][d..] == s[d + 1..];
    }
  }

  // The scan of the text s at offset o, from position at of its name on: label by
  // label, each text before a label entered at its offset.
  function Scanned(s: bytes, o: nat, at: nat, cmp: Option<Offsets>): Scan
    decreases |s|
  {
    var d := FirstDot(s);
    if d == |s| then Scan([], AtEnd, cmp)
    else if BadLabel(at, d) then Scan([], AtBad, cmp)
    else if Known(s, cmp) then Scan([], AtSeen(Lookup(cmp, s)), cmp)
    else Front(Labelled([], s[..d]), Scanned(AfterDot(s), o + d + 1, at + d + 1, Store(cmp, s, o)))
  }

  datatype Written = Refused | Written(wire: bytes, cmp: Option<Offsets>)

  // A name with a bad label, of the wrong length, or without a dot at its end.
  predicate Unfit(name: bytes, bad: bool) {
    bad || |name| > MAX_NAME || name == [] || name[|name| - 1] != DOT
  }

  // What ends an accepted name after its labels: a pointer to a text seen before,
  // nothing for the root, or a zero byte.
  function Ending(name: bytes, halt: Halt): bytes {
    if halt.AtSeen? then PointerBytes(halt.p) else if name == ROOT then [] else [0]
  }

  function Finished(name: bytes, t: Scan): Written {
    if Unfit(name, t.halt.AtBad?) then Refused else Written(t.labels + Ending(name, t.halt), t.cmp)
  }

  // The name printed at offset o, or its refusal.
  function Serialized(name: bytes, o: nat, cmp: Option<Offsets>): Written {
    Finished(name, Scanned(name, o, 0, cmp))
  }

  // All the bytes written: a name that is refused leaves its labels, and the size of
  // the label at which a text seen before starts.
  function Room(name: bytes, t: Scan): nat {
    match Finished(name, t)
    case Written(wire, _) => |wire|
    case Refused => |t.labels| + if t.halt.AtSeen? then 1 else 0
  }

  lemma ScannedLabel(s: bytes, d: nat, text: bytes, s': bytes, o: nat, o': nat, at: nat, at': nat, cmp: Option<Offsets>, cmp': Option<Offsets>)
    requires SplitsAtDot(s, d, text, s') && !BadLabel(at, d) && !Known(s, cmp)
    requires o' == o + d + 1 && at' == at + d + 1 && cmp' == Store(cmp, s, o)
    ensures Scanned(s, o, at, cmp) == Front(Labelled([], text), Scanned(s', o', at', cmp'))
  {
    AfterDotIs(s, d);
    assert s[d + 1..] == s' && s[..d] == text;
  }

  // The text s split at its first dot.
  predicate SplitsAtDot(s: bytes, d: nat, text: bytes, s': bytes) {
    |text| == d == FirstDot(s) < |s| && s == text + [DOT] + s'
  }

  // m is was with out written over it at base.
  predicate Layout(m: bytes, was: bytes, base: nat, out: bytes) {
    && |m| == |was| && base + |out| <= |m| && m[base..base + |out|] == out
    && m[..base] == was[..base] && m[base + |out|..] == was[base + |out|..]
  }

  method PutByte(msg: array<byte>, base: nat, off: nat, b: byte, ghost was: bytes, ghost out: bytes)
    requires Layout(msg[..], was, base, out) && off == |out| && base + off < msg.Length
    modifies msg
    ensures Layout(msg[..], was, base, out + [b])
  {
    msg[base + off] := b;
  }

  method PutPointer(msg: array<byte>, base: nat, off: nat, p: Pointer, ghost was: bytes, ghost out: bytes, ghost x: byte)
    requires Layout(msg[..], was, base, out + [x]) && off == |out| && base + off + 1 < msg.Length
    modifies msg
    ensures Layout(msg[..], was, base, out + PointerBytes(p))
  {
    msg[base + off] := 0xc0 + p / 0x100;
    msg[base + off + 1] := p % 0x100;
  }

  lemma ToWireNext(name: bytes, begin: nat, j: nat, head: bytes)
    requires begin <= j < |name|
    ensures head + LabelToWire(name[begin..j + 1]) == head + LabelToWire(name[begin..j]) + [ToWire(name[j])]
  {
    assert name[begin..j + 1][..j - begin] == name[begin..j];
  }

  method PutLabel(name: bytes, msg: array<byte>, base: nat, off0: nat, begin: nat, i: nat, ghost was: bytes, ghost out: bytes)
    returns (off: nat)
    requires begin <= i <= |name| && base + off0 + (i - begin) <= msg.Length
    requires i - begin <= MAX_LABEL && Layout(msg[..], was, base, out + [i - begin]) && off0 == |out| + 1
    modifies msg
    ensures off == off0 + (i - begin)
    ensures Layout(msg[..], was, base, Labelled(out, name[begin..i]))
  {
    off := off0;
    ghost var head := out + [i - begin];
    assert name[begin..begin] == [] && head + [] == head;
    for j := begin to i
      invariant off == off0 + (j - begin)
      invariant Layout(msg[..], was, base, head + LabelToWire(name[begin..j]))
    {
      var ch := name[j];
      if ch == 0xff {
        ch := 0;
      }
      if ch == 0xfe {
        ch := DOT;
      }
      ToWireNext(name, begin, j, head);
      PutByte(msg, base, off, ch, was, head + LabelToWire(name[begin..j]));
      off := off + 1;
    }
  }

  // ----- The scan -----

  // out is printed, and the scan of the rest completes it to t.
  predicate Completes(s: bytes, o: nat, at: nat, c: Option<Offsets>, out: bytes, t: Scan) {
    t == Front(out, Scanned(s, o, at, c))
  }

  lemma CompletesLabel(s: bytes, d: nat, text: bytes, s': bytes, o: nat, o': nat, at: nat, at': nat, c: Option<Offsets>, c': Option<Offsets>,
                       out: bytes, t: Scan)
    requires Completes(s, o, at, c, out, t) && SplitsAtDot(s, d, text, s') && !BadLabel(at, d) && !Known(s, c)
    requires o' == o + d + 1 && at' == at + d + 1 && c' == Store(c, s, o)
    ensures Completes(s', o', at', c', Labelled(out, text), t) && |t.labels| >= |Labelled(out, text)|
  {
    ScannedLabel(s, d, text, s', o, o', at, at', c, c');
    FrontLabel(out, text, Scanned(s', o', at', c'));
  }

  lemma FrontLabel(out: bytes, text: bytes, t: Scan)
    requires |text| <= MAX_LABEL
    ensures Front(out, Front(Labelled([], text), t)) == Front(Labelled(out, text), t)
  {
    assert out + (Labelled([], text) + t.labels) == Labelled(out, text) + t.labels;
  }

  // The scan stops at s.
  lemma CompletesStop(s: bytes, d: nat, o: nat, at: nat, c: Option<Offsets>, out: bytes, t: Scan)
    requires Completes(s, o, at, c, out, t) && d == FirstDot(s)
    ensures d == |s| ==> t == Scan(out, AtEnd, c)
    ensures d < |s| && BadLabel(at, d) ==> t == Scan(out, AtBad, c)
    ensures d < |s| && !BadLabel(at, d) && Known(s, c) ==> t == Scan(out, AtSeen(Lookup(c, s)), c)
  {
    assert out + [] == out;
  }

  // Looks a text up, and enters it if it is new and within reach of a pointer.
  method Note(cmp: Compressor?, sub: bytes, o: nat) returns (p: Pointer)
    modifies cmp
    ensures p == if sub == ROOT then 0 else Lookup(old(View(cmp)), sub)
    ensures View(cmp) == if p == 0 then Store(old(View(cmp)), sub, o) else old(View(cmp))
  {
    p := 0;
    if cmp != null && sub != ROOT {
      p := Lookup(Some(cmp.offsets), sub);
      if p == 0 && o < POINTER_LIMIT {
        cmp.offsets := cmp.offsets[sub := o];
      }
    }
  }

  // A label of the name starts at begin, and s is the text from there.
  ghost predicate From(name: bytes, begin: nat, s: bytes) {
    exists pre: bytes :: |pre| == begin && name == pre + s && (begin > 0 ==> name[begin - 1] == DOT)
  }

  lemma FromIs(name: bytes, begin: nat, s: bytes)
    requires From(name, begin, s)
    ensures begin <= |name| && name[begin..] == s && (begin > 0 ==> name[begin - 1] == DOT)
  {
  }

  lemma FromNext(name: bytes, begin: nat, s: bytes, text: bytes, s': bytes, next: nat)
    requires From(name, begin, s) && s == text + [DOT] + s' && next == begin + |text| + 1
    ensures From(name, next, s') && |s| == |name| - begin
  {
    var pre: bytes :| |pre| == begin && name == pre + s;
    assert name == (pre + text + [DOT]) + s';
  }

  lemma DotSplits(s: bytes, d: nat) returns (text: bytes, s': bytes)
    requires d < |s| && s[d] == DOT
    ensures |text| == d && s == text + [DOT] + s'
  {
    text, s' := s[..d], s[d + 1..];
  }

  // out is printed, and the size of one label more.
  ghost predicate HalfLabel(m: bytes, was: bytes, base: nat, out: bytes) {
    exists x: byte :: Layout(m, was, base, out + [x])
  }

  // Prints the label name[begin..i], unless the text from begin is known.
  method OneLabel(name: bytes, msg: array<byte>, base: nat, cmp: Compressor?, off: nat, begin: nat, i: nat,
                  ghost was: bytes, ghost out: bytes, ghost c: Option<Offsets>, ghost s: bytes, ghost text: bytes, ghost s': bytes)
    returns (p: Pointer)
    requires begin == off == |out| <= i < |name| && i - begin <= MAX_LABEL && From(name, begin, s) && |s| == |name| - begin
    requires |text| == i - begin && s == text + [DOT] + s'
    requires base + begin < msg.Length && (!Known(s, c) ==> base + i + 1 <= msg.Length)
    requires Layout(msg[..], was, base, out) && View(cmp) == c
    modifies msg, cmp
    ensures p == if s == ROOT then 0 else Lookup(c, s)
    ensures View(cmp) == if p == 0 then Store(c, s, base + off) else c
    ensures p == 0 ==> Layout(msg[..], was, base, Labelled(out, text))
    ensures p != 0 ==> HalfLabel(msg[..], was, base, out)
  {
    FromIs(name, begin, s);
    assert text == name[begin..i];
    PutByte(msg, base, off, i - begin, was, out);
    p := Note(cmp, name[begin..], base + off);
    if p == 0 {
      var end := PutLabel(name, msg, base, off + 1, begin, i, was, out);
    }
  }

  // The checks of the scan find exactly the bad labels.
  lemma BadIs(name: bytes, begin: nat, i: nat, s: bytes)
    requires From(name, begin, s) && begin <= i < |name| && FirstDot(s) == i - begin
    ensures (i > 0 && name[i - 1] == DOT) || i - begin > MAX_LABEL || begin + 1 + (i - begin) > 256 <==> BadLabel(begin, i - begin)
  {
    FromIs(name, begin, s);
    assert i > begin ==> name[i - 1] == s[i - begin - 1];
    NoDotBefore(s);
    assert i > begin ==> s[i - begin - 1] == s[..i - begin][i - begin - 1];
  }

  function HaltOf(fail: bool, ptr: int): Halt
    requires -1 <= ptr < POINTER_LIMIT
  {
    if fail then AtBad else if ptr == -1 then AtEnd else AtSeen(ptr)
  }

  // The labels before s are printed, and the text s from position begin of the name
  // is still to come.
  ghost predicate Going(m: bytes, was: bytes, base: nat, begin: nat, s: bytes, out: bytes, c: Option<Offsets>, t: Scan) {
    begin == |out| && Layout(m, was, base, out) && Completes(s, base + begin, begin, c, out, t)
  }

  // The scan is over.
  ghost predicate Over(m: bytes, was: bytes, base: nat, out: bytes, fail: bool, ptr: int, c: Option<Offsets>, t: Scan)
    requires -1 <= ptr < POINTER_LIMIT
  {
    && t == Scan(out, HaltOf(fail, ptr), c)
    && if ptr == -1 then Layout(m, was, base, out) else HalfLabel(m, was, base, out)
  }

  // What a good label of s means for the scan: a text seen before, or a label printed
  // and the text s' behind it still to come.
  predicate Means(name: bytes, s: bytes, text: bytes, s': bytes, o': nat, at: nat, at': nat, c: Option<Offsets>, c': Option<Offsets>,
                  out: bytes, t: Scan) {
    && |text| <= MAX_LABEL
    && if Known(s, c) then at < Room(name, t) && t == Scan(out, AtSeen(Lookup(c, s)), c)
       else at' == |Labelled(out, text)| <= Room(name, t) && Completes(s', o', at', c', Labelled(out, text), t)
  }

  lemma LabelMeans(name: bytes, s: bytes, d: nat, text: bytes, s': bytes, o: nat, o': nat, at: nat, at': nat, c: Option<Offsets>,
                   c': Option<Offsets>, out: bytes, t: Scan)
    requires at == |out| && Completes(s, o, at, c, out, t) && SplitsAtDot(s, d, text, s') && !BadLabel(at, d)
    requires o' == o + d + 1 && at' == at + d + 1 && c' == Store(c, s, o)
    ensures Means(name, s, text, s', o', at, at', c, c', out, t)
  {
    if !Known(s, c) {
      CompletesLabel(s, d, text, s', o, o', at, at', c, c', out, t);
    } else {
      CompletesStop(s, d, o, at, c, out, t);
    }
  }

  // A good label: known from begin, or printed.
  method GoodLabel(name: bytes, msg: array<byte>, base: nat, cmp: Compressor?, begin: nat, i: nat,
                   ghost was: bytes, ghost s: bytes, ghost text: bytes, ghost s': bytes, ghost out: bytes, ghost t: Scan)
    returns (p: Pointer)
    requires From(name, begin, s) && |s| == |name| - begin && begin == |out| <= i < |name| && |text| == i - begin && s == text + [DOT] + s'
    requires Layout(msg[..], was, base, out) && base + Room(name, t) <= msg.Length
    requires Means(name, s, text, s', base + (i + 1), begin, i + 1, View(cmp), Store(View(cmp), s, base + begin), out, t)
    modifies msg, cmp
    ensures if p != 0 then t == Scan(out, AtSeen(p), View(cmp)) && HalfLabel(msg[..], was, base, out)
            else |text| <= MAX_LABEL && Going(msg[..], was, base, i + 1, s', Labelled(out, text), View(cmp), t)
  {
    p := OneLabel(name, msg, base, cmp, begin, begin, i, was, out, View(cmp), s, text, s');
  }

  // A dot at i ends a label.
  method AtDot(name: bytes, msg: array<byte>, base: nat, cmp: Compressor?, begin: nat, i: nat,
               ghost was: bytes, ghost s: bytes, ghost text: bytes, ghost s': bytes, ghost out: bytes, ghost t: Scan)
    returns (fail: bool, ptr: int)
    requires From(name, begin, s) && |s| == |name| - begin && begin <= i < |name| && SplitsAtDot(s, i - begin, text, s')
    requires Going(msg[..], was, base, begin, s, out, View(cmp), t) && base + Room(name, t) <= msg.Length
    modifies msg, cmp
    ensures -1 <= ptr < POINTER_LIMIT && (fail ==> ptr == -1)
    ensures if fail || ptr != -1 then Over(msg[..], was, base, out, fail, ptr, View(cmp), t)
            else |text| <= MAX_LABEL && Going(msg[..], was, base, i + 1, s', Labelled(out, text), View(cmp), t)
  {
    var size := i - begin;
    fail, ptr := false, -1;
    BadIs(name, begin, i, s);
    if (i > 0 && name[i - 1] == DOT) || size > MAX_LABEL || begin + 1 + size > 256 {
      CompletesStop(s, i - begin, base + begin, begin, View(cmp), out, t);
      return true, ptr;
    }
    LabelMeans(name, s, i - begin, text, s', base + begin, base + (i + 1), begin, i + 1, View(cmp), Store(View(cmp), s, base + begin), out, t);
    var p := GoodLabel(name, msg, base, cmp, begin, i, was, s, text, s', out, t);
    if p != 0 {
      ptr := p;
    }
  }

  // Where the scan stands: in the label from begin, with no dot so far up to i.
  ghost predicate Scanning(m: bytes, was: bytes, base: nat, name: bytes, begin: nat, i: nat, s: bytes, out: bytes,
                           c: Option<Offsets>, t: Scan) {
    From(name, begin, s) && begin <= i <= begin + FirstDot(s) && Going(m, was, base, begin, s, out, c, t)
  }

  lemma {:induction false} DotAt(s: bytes, d: nat)
    requires d < |s| && s[d] == DOT
    ensures FirstDot(s) <= d
  {
    if d > 0 && s[0] != DOT {
      DotAt(s[1..], d - 1);
    }
  }

  // One character further.
  lemma DotHere(name: bytes, begin: nat, i: nat, s: bytes)
    requires From(name, begin, s) && begin <= i <= begin + FirstDot(s) && i < |name|
    ensures if name[i] == DOT then FirstDot(s) == i - begin else i + 1 <= begin + FirstDot(s)
  {
    FromIs(name, begin, s);
    assert s[i - begin] == name[i];
    if name[i] == DOT {
      DotAt(s, i - begin);
    }
  }

  // One character of the scan.
  method ScanOne(name: bytes, msg: array<byte>, base: nat, cmp: Compressor?, begin: nat, i: nat,
                 ghost was: bytes, ghost s: bytes, ghost out: bytes, ghost t: Scan)
    returns (fail: bool, ptr: int, next: nat, ghost s': bytes, ghost out': bytes)
    requires i < |name| && Scanning(msg[..], was, base, name, begin, i, s, out, View(cmp), t) && base + Room(name, t) <= msg.Length
    modifies msg, cmp
    ensures -1 <= ptr < POINTER_LIMIT && (fail ==> ptr == -1)
    ensures if fail || ptr != -1 then next == |out| && out' == out && Over(msg[..], was, base, out, fail, ptr, View(cmp), t)
            else Scanning(msg[..], was, base, name, next, i + 1, s', out', View(cmp), t)
  {
    fail, ptr, next, s', out' := false, -1, begin, s, out;
    DotHere(name, begin, i, s);
    if name[i] == DOT {
      ghost var text, rest := DotSplits(s, i - begin);
      FromNext(name, begin, s, text, rest, i + 1);
      fail, ptr := AtDot(name, msg, base, cmp, begin, i, was, s, text, rest, out, t);
      if !fail && ptr == -1 {
        s', out' := rest, Labelled(out, text);
        next := i + 1;
      }
    }
  }

  // The label scan: stops at the end of the name, at a text seen before (with
  // its offset in ptr), or at a label that is refused.
  method ScanName(name: bytes, msg: array<byte>, base: nat, cmp: Compressor?, ghost was: bytes, ghost t: Scan)
    returns (fail: bool, off: nat, ptr: int, ghost out: bytes)
    requires Scanning(msg[..], was, base, name, 0, 0, name, [], View(cmp), t) && base + Room(name, t) <= msg.Length
    modifies msg, cmp
    ensures -1 <= ptr < POINTER_LIMIT && (fail ==> ptr == -1)
    ensures off == |out| && Over(msg[..], was, base, out, fail, ptr, View(cmp), t)
  {
    var i := 0;
    ghost var s := name;
    off, ptr, out, fail := 0, -1, [], false;
    while i < |name|
      invariant i <= |name| && ptr == -1 && !fail
      invariant Scanning(msg[..], was, base, name, off, i, s, out, View(cmp), t)
    {
      fail, ptr, off, s, out := ScanOne(name, msg, base, cmp, off, i, was, s, out, t);
      if fail || ptr != -1 {
        return;
      }
      i := i + 1;
    }
    CompletesStop(s, |s|, base + off, off, View(cmp), out, t);
  }

  lemma ScanStart(name: bytes, m: bytes, base: nat, c: Option<Offsets>, t: Scan)
    requires base <= |m| && t == Scanned(name, base, 0, c)
    ensures Scanning(m, m, base, name, 0, 0, name, [], c, t)
  {
    assert name == [] + name && [] + t.labels == t.labels;
  }

  // ----- The whole name -----

  // The labels of a refused name are in the message, and at most one byte more.
  ghost predicate LeftBehind(m: bytes, was: bytes, base: nat, labels: bytes) {
    Layout(m, was, base, labels) || HalfLabel(m, was, base, labels)
  }

  method PutEnd(name: bytes, msg: array<byte>, base: nat, off: nat, ptr: int, ghost was: bytes, ghost out: bytes) returns (len: nat)
    requires off == |out| && -1 <= ptr < POINTER_LIMIT && base + off + |Ending(name, HaltOf(false, ptr))| <= msg.Length
    requires if ptr == -1 then Layout(msg[..], was, base, out) else name != ROOT && HalfLabel(msg[..], was, base, out)
    modifies msg
    ensures var e := Ending(name, HaltOf(false, ptr)); len == off + |e| && Layout(msg[..], was, base, out + e)
  {
    if |name| == 1 && name[0] == DOT {
      assert name == ROOT && out + [] == out;
      return off;
    }
    if ptr != -1 {
      ghost var x: byte :| Layout(msg[..], was, base, out + [x]);
      PutPointer(msg, base, off, ptr, was, out, x);
      return off + 2;
    }
    PutByte(msg, base, off, 0, was, out);
    return off + 1;
  }

  lemma RootScan(o: nat, cmp: Option<Offsets>)
    ensures Scanned(ROOT, o, 0, cmp) == Scan([0], AtEnd, cmp)
  {
    assert FirstDot(ROOT) == 0 && ROOT[1..] == [] && Labelled([], []) + [] == [0];
  }

  // Writes name at msg[base..], where the offsets in cmp are counted from msg[0].
  // The length of a refused name is that of the labels printed before it was, and
  // the map is that of the scan.
  method Serialize(name: bytes, msg: array<byte>, base: nat, cmp: Compressor?) returns (ok: bool, len: nat)
    requires CString(name) && base + Room(name, Scanned(name, base, 0, View(cmp))) <= msg.Length
    modifies msg, cmp
    ensures View(cmp) == old(Scanned(name, base, 0, View(cmp))).cmp
    ensures ok <==> old(Serialized(name, base, View(cmp))).Written?
    ensures ok ==> len == |old(Serialized(name, base, View(cmp))).wire|
    ensures ok ==> Layout(msg[..], old(msg[..]), base, old(Serialized(name, base, View(cmp))).wire)
    ensures !ok ==> len == |old(Scanned(name, base, 0, View(cmp))).labels|
    ensures !ok ==> LeftBehind(msg[..], old(msg[..]), base, old(Scanned(name, base, 0, View(cmp))).labels)
  {
    ghost var was, t := msg[..], Scanned(name, base, 0, View(cmp));
    ScanStart(name, was, base, View(cmp), t);
    RootScan(base, View(cmp));
    var fail, off, ptr, out := ScanName(name, msg, base, cmp, was, t);
    if Unfit(name, fail) {
      return false, off;
    }
    len := PutEnd(name, msg, base, off, ptr, was, out);
    ok := true;
  }
}
