// Names printed one after another with one compression map parse back.
module DnsRoundTrip {
  import opened Bytes
  import opened DnsName
  import opened DnsPrint

  // Labels of 1 to 63 characters, each followed by a dot.
  predicate Labels(s: bytes)
    decreases |s|
  {
    s == [] || (0 < FirstDot(s) < |s| && FirstDot(s) <= MAX_LABEL && Labels(AfterDot(s)))
  }

  predicate ValidName(s: bytes) {
    CString(s) && |s| <= MAX_NAME && (s == ROOT || (s != [] && Labels(s)))
  }

  // The labels of a name, without the root's lone dot.
  function TextOf(name: bytes): (t: bytes)
    ensures ValidName(name) ==> Text(t) == name
  {
    if name == ROOT then [] else name
  }

  lemma {:induction false} LabelSurvives(s: bytes)
    requires CString(s) && DOT !in s
    ensures LabelFromWire(LabelToWire(s)) == s
  {
    if s != [] {
      var n := |s| - 1;
      LabelSurvives(s[..n]);
      assert s[n] in s;
      assert LabelToWire(s)[..n] == LabelToWire(s[..n]);
    }
  }

  // A label is printed with 0xff as NUL and 0xfe as a dot, and read the other way round.
  lemma {:induction false} LabelBytes(s: bytes, i: nat)
    requires i < |s|
    ensures LabelToWire(s)[i] == if s[i] == 0xff then 0 else if s[i] == 0xfe then DOT else s[i]
    ensures LabelFromWire(s)[i] == if s[i] == 0 then 0xff else if s[i] == DOT then 0xfe else s[i]
  {
    if i < |s| - 1 {
      LabelBytes(s[..|s| - 1], i);
    }
  }

  // ----- Encodings in a growing message -----

  // Every pointer met from o points strictly before itself, to bytes that end
  // before it too.
  predicate PointsBack(msg: bytes, o: nat, t: bytes, h: nat)
    requires Encodes(msg, o, t, h)
    decreases h, |t|
  {
    if msg[o] == 0 then true
    else if msg[o] <= MAX_LABEL then PointsBack(msg, o + 1 + msg[o], t[msg[o] + 1..], h)
    else PointerAt(msg, o) < End(msg, PointerAt(msg, o)) <= o && PointsBack(msg, PointerAt(msg, o), t, h - 1)
  }

  predicate Printed(msg: bytes, o: nat, t: bytes, h: nat) {
    Encodes(msg, o, t, h) && PointsBack(msg, o, t, h)
  }

  ghost predicate PrintedSomehow(msg: bytes, o: nat, t: bytes) {
    exists h: nat :: Printed(msg, o, t, h)
  }

  lemma {:induction false} PrintedGrows(msg: bytes, more: bytes, o: nat, t: bytes, h: nat)
    requires Printed(msg, o, t, h)
    ensures Printed(msg + more, o, t, h) && End(msg + more, o) == End(msg, o)
    decreases h, |t|
  {
    var m := msg + more;
    assert m[o] == msg[o];
    if 0 < msg[o] <= MAX_LABEL {
      var c: nat := msg[o];
      assert m[o + 1..o + 1 + c] == msg[o + 1..o + 1 + c];
      PrintedGrows(msg, more, o + 1 + c, t[c + 1..], h);
    } else if msg[o] != 0 {
      assert m[o + 1] == msg[o + 1];
      PrintedGrows(msg, more, PointerAt(msg, o), t, h - 1);
    }
  }

  // The text s split behind its first label.
  predicate FirstLabel(s: bytes, d: nat, text: bytes, s': bytes) {
    SplitsAtDot(s, d, text, s') && 0 < d <= MAX_LABEL && CString(text) && CString(s')
  }

  lemma TextSplit(s: bytes) returns (text: bytes, s': bytes)
    requires FirstDot(s) < |s|
    ensures SplitsAtDot(s, FirstDot(s), text, s') && AfterDot(s) == s'
  {
    text, s' := DotSplits(s, FirstDot(s));
    AfterDotIs(s, FirstDot(s));
    assert s[FirstDot(s) + 1..] == s';
  }

  lemma LabelOf(s: bytes) returns (d: nat, text: bytes, s': bytes)
    requires Labels(s) && s != [] && CString(s)
    ensures FirstLabel(s, d, text, s') && Labels(s')
  {
    d := FirstDot(s);
    text, s' := TextSplit(s);
    forall i | 0 <= i < |text|
      ensures text[i] != 0
    {
      assert s[i] == text[i];
    }
    forall i | 0 <= i < |s'|
      ensures s'[i] != 0
    {
      assert s[d + 1 + i] == s'[i];
    }
  }

  // Every entry for labels of at most n characters is printed at its offset.
  ghost predicate Tracks(msg: bytes, offsets: Offsets, n: nat) {
    forall s: bytes {:trigger TracksAt(msg, offsets, n, s)} :: TracksAt(msg, offsets, n, s)
  }

  ghost predicate TracksAt(msg: bytes, offsets: Offsets, n: nat, s: bytes) {
    s in offsets && |s| <= n && offsets[s] > 0 && Labels(s) ==> PrintedSomehow(msg, offsets[s], s)
  }

  // ----- Printing one name -----

  lemma {:induction false} LastDot(s: bytes)
    requires Labels(s) && s != []
    ensures s[|s| - 1] == DOT
    decreases |s|
  {
    var text, s' := TextSplit(s);
    if s' != [] {
      LastDot(s');
    }
  }

  // Each entry for labels is an old one, or is printed at its offset.
  ghost predicate Explained(msg: bytes, before: Offsets, after: Offsets) {
    forall k: bytes {:trigger ExplainedAt(msg, before, after, k)} :: ExplainedAt(msg, before, after, k)
  }

  ghost predicate ExplainedAt(msg: bytes, before: Offsets, after: Offsets, k: bytes) {
    k in after && Labels(k) ==> (k in before && before[k] == after[k]) || PrintedSomehow(msg, after[k], k)
  }

  // What printing the text s at o, up to the end of m, achieves.
  ghost predicate Achieved(m: bytes, o: nat, s: bytes, cmp: Offsets, cmp': Option<Offsets>, h: nat) {
    cmp'.Some? && Printed(m, o, s, h) && End(m, o) == |m| && Explained(m, cmp, cmp'.value)
  }

  lemma PointerPrinted(msg: bytes, m: bytes, s: bytes, cmp: Offsets, p: Pointer) returns (h: nat)
    requires s != [] && PrintedSomehow(msg, p, s) && m == msg + PointerBytes(p)
    ensures Achieved(m, |msg|, s, cmp, Some(cmp), h)
  {
    var h': nat :| Printed(msg, p, s, h');
    h := h' + 1;
    EndBound(msg, p, s, h');
    PrintedGrows(msg, PointerBytes(p), p, s, h');
    assert m[|msg|] == 0xc0 + p / 0x100 && m[|msg| + 1] == p % 0x100;
    assert PointerAt(m, |msg|) == p;
  }

  lemma TracksGrows(msg: bytes, more: bytes, cmp: Offsets, n: nat, s: bytes, o: nat)
    requires Tracks(msg, cmp, |s|) && n < |s|
    ensures Tracks(msg + more, Store(Some(cmp), s, o).value, n)
  {
    var cmp' := Store(Some(cmp), s, o).value;
    forall k: bytes {:trigger TracksAt(msg + more, cmp', n, k)}
      ensures TracksAt(msg + more, cmp', n, k)
    {
      assert TracksAt(msg, cmp, |s|, k);
      if k in cmp' && |k| <= n && cmp'[k] > 0 && Labels(k) {
        var h: nat :| Printed(msg, cmp[k], k, h);
        PrintedGrows(msg, more, cmp[k], k, h);
      }
    }
  }

  lemma LabelPrinted(m: bytes, o: nat, o': nat, s: bytes, d: nat, text: bytes, s': bytes, h: nat)
    requires FirstLabel(s, d, text, s') && o' == o + d + 1 <= |m|
    requires m[o] == d && m[o + 1..o'] == LabelToWire(text) && Printed(m, o', s', h)
    ensures Printed(m, o, s, h) && End(m, o) == End(m, o')
  {
    NoDotBefore(s);
    assert s[..d] == text && s[d + 1..] == s';
    LabelSurvives(text);
    LabelEncodes(m, o, d, text, s', h);
    LabelPoints(m, o, o', s, d, s', h);
  }

  lemma LabelPoints(m: bytes, o: nat, o': nat, s: bytes, d: nat, s': bytes, h: nat)
    requires Encodes(m, o, s, h) && m[o] == d && 0 < d <= MAX_LABEL && o' == o + d + 1 && d < |s| && s' == s[d + 1..]
    requires Printed(m, o', s', h)
    ensures PointsBack(m, o, s, h) && End(m, o) == End(m, o')
  {
  }

  lemma LabelAchieved(m: bytes, o: nat, o': nat, s: bytes, d: nat, text: bytes, s': bytes, cmp: Offsets, cmp': Option<Offsets>, h: nat)
    requires FirstLabel(s, d, text, s') && o' == o + d + 1 <= |m| && m[o] == d && m[o + 1..o'] == LabelToWire(text)
    requires Achieved(m, o', s', Store(Some(cmp), s, o).value, cmp', h)
    ensures Achieved(m, o, s, cmp, cmp', h)
  {
    LabelPrinted(m, o, o', s, d, text, s', h);
    LabelExplained(m, cmp, Store(Some(cmp), s, o).value, cmp'.value, s, o, h);
  }

  // The entry for s itself is explained by s being printed.
  lemma LabelExplained(m: bytes, cmp: Offsets, cmp1: Offsets, after: Offsets, s: bytes, o: nat, h: nat)
    requires Explained(m, cmp1, after) && Some(cmp1) == Store(Some(cmp), s, o) && Printed(m, o, s, h)
    ensures Explained(m, cmp, after)
  {
    forall k: bytes {:trigger ExplainedAt(m, cmp, after, k)}
      ensures ExplainedAt(m, cmp, after, k)
    {
      assert ExplainedAt(m, cmp1, after, k);
    }
  }

  lemma LabelPlaced(msg: bytes, text: bytes, rest: bytes, m: bytes)
    requires |text| <= MAX_LABEL && m == msg + Labelled([], text) + rest
    ensures m == msg + (Labelled([], text) + rest)
    ensures m[|msg|] == |text| && m[|msg| + 1..|msg| + 1 + |text|] == LabelToWire(text)
    ensures |msg + Labelled([], text)| == |msg| + |text| + 1
  {
  }

  lemma Join(msg: bytes, head: bytes, labels: bytes, tail: bytes)
    ensures msg + ((head + labels) + tail) == msg + head + (labels + tail)
    ensures msg + (head + (labels + tail)) == msg + head + (labels + tail)
  {
  }

  function Tail(halt: Halt): bytes {
    if halt.AtSeen? then PointerBytes(halt.p) else [0]
  }

  // Printed labels spell themselves, and so do the entries they leave.
  lemma {:induction false} WirePrinted(msg: bytes, s: bytes, at: nat, cmp: Offsets, t: Scan) returns (h: nat)
    requires Labels(s) && CString(s) && at + |s| <= MAX_NAME && Tracks(msg, cmp, |s|)
    requires t == Scanned(s, |msg|, at, Some(cmp))
    ensures !t.halt.AtBad? && Achieved(msg + (t.labels + Tail(t.halt)), |msg|, s, cmp, t.cmp, h)
    decreases |s|, 1
  {
    if s == [] || Known(s, Some(cmp)) {
      h := StopPrinted(msg, s, at, cmp, t);
    } else {
      var d, text, s' := LabelOf(s);
      var o, cmp1 := |msg|, Store(Some(cmp), s, |msg|).value;
      ScannedLabel(s, d, text, s', o, o + d + 1, at, at + d + 1, Some(cmp), Some(cmp1));
      h := LabelWirePrinted(msg, s, d, text, s', o + d + 1, at + d + 1, cmp, cmp1, Scanned(s', o + d + 1, at + d + 1, Some(cmp1)), t);
    }
  }

  // Where no label is printed.
  lemma StopPrinted(msg: bytes, s: bytes, at: nat, cmp: Offsets, t: Scan) returns (h: nat)
    requires Labels(s) && CString(s) && at + |s| <= MAX_NAME && Tracks(msg, cmp, |s|) && (s == [] || Known(s, Some(cmp)))
    requires t == Scanned(s, |msg|, at, Some(cmp))
    ensures !t.halt.AtBad? && Achieved(msg + (t.labels + Tail(t.halt)), |msg|, s, cmp, t.cmp, h)
  {
    if s == [] {
      h := 0;
      EndPrinted(msg, msg + ([] + [0]), cmp);
    } else {
      assert TracksAt(msg, cmp, |s|, s);
      h := PointerPrinted(msg, msg + ([] + PointerBytes(cmp[s])), s, cmp, cmp[s]);
    }
  }

  lemma EndPrinted(msg: bytes, m: bytes, cmp: Offsets)
    requires m == msg + ([] + [0])
    ensures Achieved(m, |msg|, [], cmp, Some(cmp), 0)
  {
    assert m[|msg|] == 0;
  }

  lemma {:induction false} LabelWirePrinted(msg: bytes, s: bytes, d: nat, text: bytes, s': bytes, o': nat, at': nat, cmp: Offsets, cmp1: Offsets,
                                            t': Scan, t: Scan) returns (h: nat)
    requires Tracks(msg, cmp, |s|) && FirstLabel(s, d, text, s')
    requires Labels(s') && o' == |msg| + d + 1 && Some(cmp1) == Store(Some(cmp), s, |msg|) && at' + |s'| <= MAX_NAME
    requires t' == Scanned(s', o', at', Some(cmp1)) && t == Front(Labelled([], text), t')
    ensures !t.halt.AtBad? && Achieved(msg + (t.labels + Tail(t.halt)), |msg|, s, cmp, t.cmp, h)
    decreases |s|, 0
  {
    var head, o := Labelled([], text), |msg|;
    var msg1 := msg + head;
    assert |msg1| == o';
    assert Tracks(msg1, cmp1, |s'|) by { TracksGrows(msg, head, cmp, |s'|, s, o); }
    h := WirePrinted(msg1, s', at', cmp1, t');
    var rest := t'.labels + Tail(t.halt);
    var m := msg1 + rest;
    assert Achieved(m, o, s, cmp, t.cmp, h) by {
      LabelPlaced(msg, text, rest, m);
      LabelAchieved(m, o, o', s, d, text, s', cmp, t.cmp, h);
    }
    Join(msg, head, t'.labels, Tail(t.halt));
  }

  // ----- Names that are not labels -----

  // A text that is not made of labels is the end of none that is, so its scan
  // enters no labels.
  lemma {:induction false} ScanUnexplained(m: bytes, s: bytes, o: nat, at: nat, cmp: Offsets, t: Scan)
    requires !Labels(s) && (at > 0 || FirstDot(s) > 0) && t == Scanned(s, o, at, Some(cmp))
    ensures t.cmp.Some? && Explained(m, cmp, t.cmp.value)
    decreases |s|
  {
    var d := FirstDot(s);
    if d < |s| && !BadLabel(at, d) && !Known(s, Some(cmp)) {
      var s', cmp1, t' := UnlabelledRest(s, d, o, at, cmp, t);
      ScanUnexplained(m, s', o + d + 1, at + d + 1, cmp1, t');
      StoreUnexplained(m, cmp, cmp1, t'.cmp.value, s, o);
    }
  }

  lemma UnlabelledRest(s: bytes, d: nat, o: nat, at: nat, cmp: Offsets, t: Scan) returns (s': bytes, cmp1: Offsets, t': Scan)
    requires !Labels(s) && (at > 0 || d > 0) && d == FirstDot(s) < |s| && !BadLabel(at, d) && !Known(s, Some(cmp))
    requires t == Scanned(s, o, at, Some(cmp))
    ensures |s'| < |s| && !Labels(s') && Some(cmp1) == Store(Some(cmp), s, o)
    ensures t' == Scanned(s', o + d + 1, at + d + 1, Some(cmp1)) && t.cmp == t'.cmp
  {
    var text, rest := TextSplit(s);
    s', cmp1 := rest, Store(Some(cmp), s, o).value;
    t' := Scanned(s', o + d + 1, at + d + 1, Some(cmp1));
    ScannedLabel(s, d, text, s', o, o + d + 1, at, at + d + 1, Some(cmp), Some(cmp1));
  }

  lemma StoreUnexplained(m: bytes, cmp: Offsets, cmp1: Offsets, after: Offsets, s: bytes, o: nat)
    requires Explained(m, cmp1, after) && !Labels(s) && Some(cmp1) == Store(Some(cmp), s, o)
    ensures Explained(m, cmp, after)
  {
    forall k: bytes {:trigger ExplainedAt(m, cmp, after, k)}
      ensures ExplainedAt(m, cmp, after, k)
    {
      assert ExplainedAt(m, cmp1, after, k);
    }
  }

  // What a name adds to the message: its labels even if it is refused.
  function Left(name: bytes, t: Scan): bytes {
    match Finished(name, t)
    case Written(wire, _) => wire
    case Refused => t.labels
  }

  lemma DotExplained(msg: bytes, s: bytes, s': bytes, cmp: Offsets, t: Scan)
    requires s == [DOT] + s' && s' != [] && CString(s') && |s| <= MAX_NAME && Tracks(msg, cmp, |s|)
    requires t == Scanned(s, |msg|, 0, Some(cmp))
    ensures t.cmp.Some? && Explained(msg + Left(s, t), cmp, t.cmp.value)
  {
    var o, m := |msg|, msg + Left(s, t);
    if !Known(s, Some(cmp)) {
      var cmp1 := Store(Some(cmp), s, o).value;
      var t' := Scanned(s', o + 1, 1, Some(cmp1));
      DotScan(s, s', o, Some(cmp), Some(cmp1), t', t);
      if Labels(s') {
        TracksGrows(msg, [0], cmp, |s'|, s, o);
        DotPrinted(msg, msg + [0], s, s', cmp1, t', t);
      } else {
        ScanUnexplained(m, s', o + 1, 1, cmp1, t');
      }
      StoreUnexplained(m, cmp, cmp1, t.cmp.value, s, o);
    } else {
      assert FirstDot(s) == 0;
    }
  }

  // A name with a leading dot that is new: a zero byte, and the rest.
  lemma DotScan(s: bytes, s': bytes, o: nat, cmp: Option<Offsets>, cmp1: Option<Offsets>, t': Scan, t: Scan)
    requires s == [DOT] + s' && !Known(s, cmp) && cmp1 == Store(cmp, s, o)
    requires t == Scanned(s, o, 0, cmp) && t' == Scanned(s', o + 1, 1, cmp1)
    ensures t == Front([0], t') && !Labels(s)
  {
    assert FirstDot(s) == 0 && s == [] + [DOT] + s';
    ScannedLabel(s, 0, [], s', o, o + 1, 0, 1, cmp, cmp1);
    assert Labelled([], []) == [0];
  }

  // Behind a leading dot, labels are printed as ever.
  lemma DotPrinted(msg: bytes, msg1: bytes, s: bytes, s': bytes, cmp1: Offsets, t': Scan, t: Scan)
    requires s == [DOT] + s' && s' != [] && CString(s') && |s| <= MAX_NAME && Labels(s')
    requires msg1 == msg + [0] && Tracks(msg1, cmp1, |s'|)
    requires t' == Scanned(s', |msg1|, 1, Some(cmp1)) && t == Front([0], t')
    ensures t.cmp.Some? && Explained(msg + Left(s, t), cmp1, t.cmp.value)
  {
    var h := WirePrinted(msg1, s', 1, cmp1, t');
    DotLeft(s, s', t', t);
    Join(msg, [0], t'.labels, Tail(t'.halt));
  }

  lemma DotLeft(s: bytes, s': bytes, t': Scan, t: Scan)
    requires s == [DOT] + s' && s' != [] && |s| <= MAX_NAME && Labels(s') && !t'.halt.AtBad? && t == Front([0], t')
    ensures Left(s, t) == ([0] + t'.labels) + Tail(t'.halt)
  {
    LastDot(s');
    assert s[|s| - 1] == s'[|s'| - 1];
  }

  // ----- Whole messages -----

  // Every entry for labels is printed at its offset.
  ghost predicate Good(msg: bytes, offsets: Offsets) {
    forall k: bytes {:trigger GoodAt(msg, offsets, k)} :: GoodAt(msg, offsets, k)
  }

  ghost predicate GoodAt(msg: bytes, offsets: Offsets, k: bytes) {
    k in offsets && offsets[k] > 0 && Labels(k) ==> PrintedSomehow(msg, offsets[k], k)
  }

  lemma GoodGrows(msg: bytes, more: bytes, cmp: Offsets)
    requires Good(msg, cmp)
    ensures Good(msg + more, cmp)
  {
    forall k: bytes {:trigger GoodAt(msg + more, cmp, k)}
      ensures GoodAt(msg + more, cmp, k)
    {
      assert GoodAt(msg, cmp, k);
      if k in cmp && cmp[k] > 0 && Labels(k) {
        var h: nat :| Printed(msg, cmp[k], k, h);
        PrintedGrows(msg, more, cmp[k], k, h);
      }
    }
  }

  lemma GoodAfter(msg: bytes, more: bytes, before: Offsets, after: Offsets)
    requires Good(msg, before) && Explained(msg + more, before, after)
    ensures Good(msg + more, after)
  {
    GoodGrows(msg, more, before);
    forall k: bytes {:trigger GoodAt(msg + more, after, k)}
      ensures GoodAt(msg + more, after, k)
    {
      assert GoodAt(msg + more, before, k) && ExplainedAt(msg + more, before, after, k);
    }
  }

  lemma GoodTracks(msg: bytes, offsets: Offsets, n: nat)
    requires Good(msg, offsets)
    ensures Tracks(msg, offsets, n)
  {
    forall k: bytes {:trigger TracksAt(msg, offsets, n, k)}
      ensures TracksAt(msg, offsets, n, k)
    {
      assert GoodAt(msg, offsets, k);
    }
  }

  lemma LabelsLeft(name: bytes, t: Scan)
    requires Labels(name) && name != [] && |name| <= MAX_NAME && !t.halt.AtBad?
    ensures Finished(name, t) == Written(t.labels + Tail(t.halt), t.cmp)
  {
    LastDot(name);
    assert FirstDot(ROOT) == 0;
  }

  // Whatever a name leaves behind, accepted or not, the entries for labels stay
  // printed; and a valid name is printed itself.
  lemma NamePrinted(msg: bytes, name: bytes, cmp: Offsets, t: Scan) returns (h: nat)
    requires CString(name) && |name| <= MAX_NAME && Good(msg, cmp) && t == Scanned(name, |msg|, 0, Some(cmp))
    ensures t.cmp.Some? && Good(msg + Left(name, t), t.cmp.value)
    ensures ValidName(name) ==> Finished(name, t).Written? && Achieved(msg + Left(name, t), |msg|, TextOf(name), cmp, t.cmp, h)
  {
    h := 0;
    GoodTracks(msg, cmp, |name|);
    if name == ROOT {
      RootScan(|msg|, Some(cmp));
      assert [0] + [] == [] + [0];
      EndPrinted(msg, msg + ([] + [0]), cmp);
    } else if name != [] && Labels(name) {
      h := WirePrinted(msg, name, 0, cmp, t);
      LabelsLeft(name, t);
    } else if name != [] && FirstDot(name) == 0 {
      assert name == [DOT] + name[1..];
      DotExplained(msg, name, name[1..], cmp, t);
    } else if name != [] {
      ScanUnexplained(msg + Left(name, t), name, |msg|, 0, cmp, t);
    }
    GoodAfter(msg, Left(name, t), cmp, t.cmp.value);
  }

  // A name and the bytes that precede it in the message.
  datatype Item = Item(gap: bytes, name: bytes)

  datatype Sheet = Sheet(msg: bytes, offsets: Offsets)

  function ItemScan(p: Sheet, item: Item): Scan {
    Scanned(item.name, |p.msg + item.gap|, 0, Some(p.offsets))
  }

  // The result of a print is not looked at: a refused name leaves the labels printed
  // before it was refused, and what its scan entered in the map.
  function AddItem(p: Sheet, item: Item): Sheet {
    var t := ItemScan(p, item);
    Sheet(p.msg + item.gap + Left(item.name, t), OffsetsOf(t.cmp))
  }

  function OffsetsOf(cmp: Option<Offsets>): Offsets {
    if cmp.Some? then cmp.value else map[]
  }

  // All items one after another, with one compression map.
  function Print(items: seq<Item>): Sheet {
    if items == [] then Sheet([], map[]) else AddItem(Print(items[..|items| - 1]), items[|items| - 1])
  }

  // Names are held in arrays of 256 characters.
  predicate Held(items: seq<Item>) {
    forall i :: 0 <= i < |items| ==> CString(items[i].name) && |items[i].name| <= MAX_NAME
  }

  // Where the name of item i starts and stops.
  function Start(items: seq<Item>, i: nat): nat
    requires i < |items|
  {
    |Print(items[..i]).msg| + |items[i].gap|
  }

  function Stop(items: seq<Item>, i: nat): (r: nat)
    requires i < |items|
    ensures Start(items, i) <= r
  {
    assert items[..i + 1][..i] == items[..i];
    |Print(items[..i + 1]).msg|
  }

  lemma AddGood(p: Sheet, item: Item, q: Sheet, o: nat) returns (h: nat)
    requires CString(item.name) && |item.name| <= MAX_NAME && Good(p.msg, p.offsets)
    requires q == AddItem(p, item) && o == |p.msg| + |item.gap|
    ensures Good(q.msg, q.offsets)
    ensures ValidName(item.name) ==> Printed(q.msg, o, TextOf(item.name), h) && End(q.msg, o) == |q.msg|
  {
    GoodGrows(p.msg, item.gap, p.offsets);
    h := NamePrinted(p.msg + item.gap, item.name, p.offsets, ItemScan(p, item));
  }

  lemma {:induction false} PrintGood(items: seq<Item>)
    requires Held(items)
    ensures Good(Print(items).msg, Print(items).offsets)
  {
    if items != [] {
      var n := |items| - 1;
      PrintGood(items[..n]);
      var h := AddGood(Print(items[..n]), items[n], Print(items), Start(items, n));
    }
  }

  lemma PrintLast(items: seq<Item>, n: nat)
    requires |items| == n + 1
    ensures Print(items) == AddItem(Print(items[..n]), items[n]) && Stop(items, n) == |Print(items).msg|
  {
    assert items[..n + 1] == items;
  }

  // The last name, as printed.
  lemma LastPrinted(items: seq<Item>, n: nat) returns (h: nat)
    requires Held(items) && |items| == n + 1 && ValidName(items[n].name)
    ensures Printed(Print(items).msg, Start(items, n), TextOf(items[n].name), h) && End(Print(items).msg, Start(items, n)) == Stop(items, n)
  {
    PrintGood(items[..n]);
    PrintLast(items, n);
    h := AddGood(Print(items[..n]), items[n], Print(items), Start(items, n));
  }

  lemma PlacesStay(items: seq<Item>, i: nat, n: nat)
    requires i < n <= |items|
    ensures Start(items[..n], i) == Start(items, i) && Stop(items[..n], i) == Stop(items, i)
  {
    assert items[..n][..i] == items[..i] && items[..n][..i + 1] == items[..i + 1];
  }

  lemma PrintedBounds(m: bytes, o: nat, t: bytes, h: nat)
    requires Printed(m, o, t, h)
    ensures o < End(m, o) <= |m|
  {
    EndBound(m, o, t, h);
  }

  // Later items leave it alone.
  lemma {:induction false} ItemPrinted(items: seq<Item>, i: nat) returns (h: nat)
    requires Held(items) && i < |items| && ValidName(items[i].name)
    ensures Printed(Print(items).msg, Start(items, i), TextOf(items[i].name), h)
    ensures End(Print(items).msg, Start(items, i)) == Stop(items, i)
  {
    var n := |items| - 1;
    if i == n {
      h := LastPrinted(items, n);
    } else {
      h := ItemPrinted(items[..n], i);
      PlacesStay(items, i, n);
      ItemStays(items, n, Start(items, i), TextOf(items[i].name), h);
    }
  }

  lemma ItemStays(items: seq<Item>, n: nat, o: nat, t: bytes, h: nat)
    requires |items| == n + 1 && Printed(Print(items[..n]).msg, o, t, h)
    ensures Printed(Print(items).msg, o, t, h) && End(Print(items).msg, o) == End(Print(items[..n]).msg, o)
  {
    PrintLast(items, n);
    var more := Appended(Print(items[..n]), items[n]);
    PrintedGrows(Print(items[..n]).msg, more, o, t, h);
  }

  lemma Appended(p: Sheet, item: Item) returns (more: bytes)
    ensures AddItem(p, item).msg == p.msg + more
  {
    more := item.gap + Left(item.name, ItemScan(p, item));
  }

  lemma ParsePrinted(m: bytes, o: nat, e: nat, name: bytes, h: nat)
    requires name != [] && |name| <= MAX_NAME && Printed(m, o, TextOf(name), h) && End(m, o) <= e <= |m|
    ensures o < End(m, o)
    ensures ParseResult(m[o..e], Some(m)) == if h <= MAX_HOPS then Parsed(name, End(m, o) - o) else Failed
  {
    var t := TextOf(name);
    WalkEncoded(m, o, e, 0, o, t, h, 0, [], 0);
    assert [] + t == t;
  }

  // What is spelled is labels.
  lemma {:induction false} EncodesLabels(msg: bytes, o: nat, t: bytes, h: nat)
    requires Encodes(msg, o, t, h)
    ensures Labels(t) && CString(t)
    decreases h, |t|
  {
    if 0 < msg[o] <= MAX_LABEL {
      var c: nat := msg[o];
      EncodesLabels(msg, o + 1 + c, t[c + 1..], h);
      LabelRead(msg[o + 1..o + 1 + c]);
      TextLabel(t, c, t[..c], t[c + 1..]);
    } else if msg[o] != 0 {
      EncodesLabels(msg, PointerAt(msg, o), t, h - 1);
    }
  }

  lemma TextLabel(t: bytes, c: nat, text: bytes, t': bytes)
    requires 0 < c < |t| && c <= MAX_LABEL && text == t[..c] && t[c] == DOT && t' == t[c + 1..] && Labels(t') && CString(t')
    requires CString(text) && DOT !in text
    ensures Labels(t) && CString(t)
  {
    assert forall i :: 0 <= i < c ==> t[i] == text[i];
    assert forall i :: c < i < |t| ==> t[i] == t'[i - (c + 1)];
    FirstDotIs(t, c);
    AfterDotIs(t, c);
  }

  lemma {:induction false} LabelRead(w: bytes)
    ensures CString(LabelFromWire(w)) && DOT !in LabelFromWire(w)
    decreases |w|
  {
    if w != [] {
      LabelRead(w[..|w| - 1]);
    }
  }

  // Every name that is ever read is valid.
  lemma ReadsValid(m: bytes, o: nat, e: nat, name: bytes, used: nat)
    requires o <= e <= |m| && ParseResult(m[o..e], Some(m)) == Parsed(name, used)
    ensures ValidName(name)
  {
    ParseExact(m, o, e, name, used);
    var t: bytes, h: nat :| Spells(m, o, e, name, used, t, h);
    EncodesLabels(m, o, t, h);
  }

  // Each name of a message parses back to itself, consuming exactly its own bytes,
  // exactly when it is valid and its pointer chain, which only points backwards, has
  // at most ten hops; whatever other names were refused.
  lemma RoundTrip(items: seq<Item>, i: nat, e: nat) returns (h: nat)
    requires Held(items) && i < |items| && Stop(items, i) <= e <= |Print(items).msg|
    ensures ValidName(items[i].name) ==>
      && Printed(Print(items).msg, Start(items, i), TextOf(items[i].name), h)
      && Start(items, i) < Stop(items, i)
    ensures Start(items, i) <= e
    ensures var r := ParseResult(Print(items).msg[Start(items, i)..e], Some(Print(items).msg));
      && (r == Parsed(items[i].name, Stop(items, i) - Start(items, i)) <==> ValidName(items[i].name) && h <= MAX_HOPS)
      && (ValidName(items[i].name) && h > MAX_HOPS ==> r == Failed)
  {
    h := 0;
    var m, o, name := Print(items).msg, Start(items, i), items[i].name;
    if ValidName(name) {
      h := ItemPrinted(items, i);
      ParsePrinted(m, o, e, name, h);
    } else if ParseResult(m[o..e], Some(m)) == Parsed(name, Stop(items, i) - o) {
      ReadsValid(m, o, e, name, Stop(items, i) - o);
    }
  }

  // A refused name can leave an entry behind for a text that is not in the message.
  // The same name is then accepted, as a pointer to bytes that spell another.
  lemma RefusedMisleads(name: bytes, items: seq<Item>)
    requires name == [0x61, DOT, DOT, 0x62, DOT] && items == [Item([0], name), Item([0], name)]
    ensures !ValidName(name) && Serialized(name, 4, Some(Print(items[..1]).offsets)).Written?
    ensures Start(items, 1) == 4 && Print(items).msg == [0, 1, 0x61, 0, 0xc0, 1]
    ensures ParseResult([0xc0, 1], Some(Print(items).msg)) == Parsed([0x61, DOT], 2)
  {
    var one, p := [Item([0], name)], Sheet([0, 1, 0x61], map[name := 1]);
    FirstDotIs(name, 1);
    assert one[..0] == [] && items[..0] == [] && items[..1] == one;
    assert name == [0x61] + [DOT] + [DOT, 0x62, DOT];
    RefusedOnce(name, [DOT, 0x62, DOT]);
    assert [] + [0] == [0] && [0] + [1, 0x61] == p.msg;
    assert Print(one) == p;
    RefusedTwice(name);
    assert p.msg + [0] == [0, 1, 0x61, 0] && [0, 1, 0x61, 0] + [0xc0, 1] == [0, 1, 0x61, 0, 0xc0, 1];
    MisleadingRead([0, 1, 0x61, 0, 0xc0, 1]);
  }

  lemma RefusedRest(rest: bytes, c: Option<Offsets>)
    requires rest == [DOT, 0x62, DOT]
    ensures !Labels(rest) && Scanned(rest, 3, 2, c) == Scan([], AtBad, c)
  {
    assert FirstDot(rest) == 0;
  }

  lemma RefusedOnce(name: bytes, rest: bytes)
    requires name == [0x61] + [DOT] + rest && rest == [DOT, 0x62, DOT]
    ensures !Labels(name) && Scanned(name, 1, 0, Some(map[])) == Scan([1, 0x61], AtBad, Some(map[name := 1]))
  {
    FirstDotIs(name, 1);
    AfterDotIs(name, 1);
    assert name[2..] == rest;
    RefusedRest(rest, Some(map[name := 1]));
    RefusedScan(name, rest);
  }

  lemma RefusedScan(name: bytes, rest: bytes)
    requires name == [0x61] + [DOT] + rest && FirstDot(name) == 1 && |name| == 5
    requires Scanned(rest, 3, 2, Some(map[name := 1])) == Scan([], AtBad, Some(map[name := 1]))
    ensures Scanned(name, 1, 0, Some(map[])) == Scan([1, 0x61], AtBad, Some(map[name := 1]))
  {
    ScannedLabel(name, 1, [0x61], rest, 1, 3, 0, 2, Some(map[]), Some(map[name := 1]));
    assert LabelToWire([0x61]) == [0x61] && Labelled([], [0x61]) + [] == [1, 0x61];
  }

  lemma RefusedTwice(name: bytes)
    requires name == [0x61, DOT, DOT, 0x62, DOT]
    ensures Scanned(name, 4, 0, Some(map[name := 1])) == Scan([], AtSeen(1), Some(map[name := 1]))
    ensures Serialized(name, 4, Some(map[name := 1])) == Written([0xc0, 1], Some(map[name := 1]))
  {
    FirstDotIs(name, 1);
    assert [] + PointerBytes(1) == [0xc0, 1];
  }

  lemma MisleadingRead(m: bytes)
    requires m == [0, 1, 0x61, 0, 0xc0, 1]
    ensures ParseResult([0xc0, 1], Some(m)) == Parsed([0x61, DOT], 2)
  {
    assert m[2..3] == [0x61] && LabelFromWire([0x61]) == [0x61];
    assert Walk(m, 3, Some(m), 1, [] + [0x61] + [DOT], 2) == Parsed([0x61, DOT], 2);
    assert Walk(m, 1, Some(m), 1, [], 2) == Parsed([0x61, DOT], 2);
  }

  // ----- Too many hops -----

  // a.a. ... a., with n labels
  function Nest(n: nat): (s: bytes)
    ensures |s| == 2 * n
  {
    if n == 0 then [] else [0x61, DOT] + Nest(n - 1)
  }

  ghost predicate ValidItems(items: seq<Item>) {
    forall i :: 0 <= i < |items| ==> ValidName(items[i].name)
  }

  function NestItems(n: nat): (items: seq<Item>)
    ensures |items| == n
  {
    if n == 0 then [] else NestItems(n - 1) + [Item([1], Nest(n))]
  }

  lemma {:induction false} NestLabels(n: nat)
    ensures Labels(Nest(n)) && CString(Nest(n))
    ensures n > 0 ==> FirstLabel(Nest(n), 1, [0x61], Nest(n - 1))
  {
    if n > 0 {
      NestLabels(n - 1);
      FirstDotIs(Nest(n), 1);
      AfterDotIs(Nest(n), 1);
      assert Nest(n) == [0x61] + [DOT] + Nest(n - 1);
      assert Nest(n)[2..] == Nest(n - 1);
    }
  }

  lemma {:induction false} NestValid(n: nat)
    requires n <= 127
    ensures ValidItems(NestItems(n))
    ensures n > 0 ==> NestItems(n)[..n - 1] == NestItems(n - 1) && NestItems(n)[n - 1] == Item([1], Nest(n))
  {
    if n > 0 {
      NestValid(n - 1);
      NestLabels(n);
      assert NestItems(n)[..n - 1] == NestItems(n - 1);
    }
  }

  // After n nested names: the longest is entered, and takes n - 1 hops.
  ghost predicate Nested(p: Sheet, n: nat) {
    && |p.msg| <= 5 * n && (forall k :: k in p.offsets ==> |k| <= 2 * n)
    && (n > 0 ==> Nest(n) in p.offsets && p.offsets[Nest(n)] > 0 && Printed(p.msg, p.offsets[Nest(n)], Nest(n), n - 1))
  }

  function NestEnd(n: nat, cmp: Offsets): Halt
    requires n > 1 ==> Nest(n - 1) in cmp
  {
    if n <= 1 then AtEnd else AtSeen(cmp[Nest(n - 1)])
  }

  lemma NestTail(n: nat, o: nat, cmp: Offsets)
    requires n > 1 ==> Nest(n - 1) in cmp && cmp[Nest(n - 1)] > 0
    ensures n > 0 ==> Scanned(Nest(n - 1), o, 2, Some(cmp)) == Scan([], NestEnd(n, cmp), Some(cmp))
  {
    if n > 0 {
      NestLabels(n - 1);
    }
  }

  lemma NestScan(n: nat, o: nat, cmp: Offsets)
    requires n > 0 && o < POINTER_LIMIT && forall k :: k in cmp ==> |k| <= 2 * (n - 1)
    requires n > 1 ==> Nest(n - 1) in cmp && cmp[Nest(n - 1)] > 0
    ensures Scanned(Nest(n), o, 0, Some(cmp)) == Scan([1, 0x61], NestEnd(n, cmp), Some(cmp[Nest(n) := o]))
  {
    NestLabels(n);
    var c := cmp[Nest(n) := o];
    assert n > 1 ==> Nest(n - 1) != Nest(n);
    NestTail(n, o + 2, c);
    ScannedLabel(Nest(n), 1, [0x61], Nest(n - 1), o, o + 2, 0, 2, Some(cmp), Some(c));
    assert LabelToWire([0x61]) == [0x61] && Labelled([], [0x61]) + [] == [1, 0x61];
  }

  lemma PointerTail(msg: bytes, m: bytes, o: nat, t: bytes, p: Pointer, h: nat)
    requires Printed(msg, p, t, h) && |msg| <= o && o + 2 == |m|
    requires msg <= m && m[o] == 0xc0 + p / 0x100 && m[o + 1] == p % 0x100
    ensures Printed(m, o, t, h + 1)
  {
    assert m == msg + m[|msg|..];
    EndBound(msg, p, t, h);
    PrintedGrows(msg, m[|msg|..], p, t, h);
    assert PointerAt(m, o) == p;
  }

  lemma NestPrinted(msg: bytes, n: nat, cmp: Offsets, m: bytes)
    requires n > 0 && (n > 1 ==> Nest(n - 1) in cmp && cmp[Nest(n - 1)] > 0 && Printed(msg, cmp[Nest(n - 1)], Nest(n - 1), n - 2))
    requires m == msg + ([1, 0x61] + Tail(NestEnd(n, cmp)))
    ensures Printed(m, |msg|, Nest(n), n - 1)
  {
    var o := |msg|;
    assert m[o] == 1 && m[o + 1] == 0x61;
    if n == 1 {
      assert m[o + 2] == 0;
    } else {
      var p := cmp[Nest(n - 1)];
      assert m[o + 2] == 0xc0 + p / 0x100 && m[o + 3] == p % 0x100;
      PointerTail(msg, m, o + 2, Nest(n - 1), p, n - 2);
    }
    NestLabel(m, o, n);
  }

  lemma NestLabel(m: bytes, o: nat, n: nat)
    requires n > 0 && o + 2 <= |m| && m[o] == 1 && m[o + 1] == 0x61 && Printed(m, o + 2, Nest(n - 1), n - 1)
    ensures Printed(m, o, Nest(n), n - 1)
  {
    NestLabels(n);
    assert LabelToWire([0x61]) == [0x61] == m[o + 1..o + 2];
    LabelPrinted(m, o, o + 2, Nest(n), 1, [0x61], Nest(n - 1), n - 1);
  }

  lemma NestAdds(p: Sheet, n: nat, msg: bytes, t: Scan)
    requires 0 < n <= 127 && msg == p.msg + [1] && t == Scanned(Nest(n), |msg|, 0, Some(p.offsets)) && !t.halt.AtBad? && t.cmp.Some?
    ensures AddItem(p, Item([1], Nest(n))) == Sheet(msg + (t.labels + Tail(t.halt)), t.cmp.value)
  {
    NestLabels(n);
    LabelsLeft(Nest(n), t);
  }

  lemma NestKeeps(p: Sheet, n: nat, msg: bytes, wire: bytes)
    requires 0 < n && Nested(p, n - 1) && |msg| == |p.msg| + 1 && |wire| <= 4 && Printed(msg + wire, |msg|, Nest(n), n - 1)
    requires |msg| < POINTER_LIMIT
    ensures Nested(Sheet(msg + wire, p.offsets[Nest(n) := |msg|]), n)
  {
  }

  lemma NestStep(p: Sheet, n: nat, q: Sheet)
    requires 0 < n <= 127 && Nested(p, n - 1) && q == AddItem(p, Item([1], Nest(n)))
    ensures Nested(q, n) && q.offsets[Nest(n)] == |p.msg| + 1
  {
    var msg := p.msg + [1];
    NestScan(n, |msg|, p.offsets);
    NestAdds(p, n, msg, Scanned(Nest(n), |msg|, 0, Some(p.offsets)));
    NestAfter(p, n, msg, [1, 0x61] + Tail(NestEnd(n, p.offsets)));
  }

  lemma NestAfter(p: Sheet, n: nat, msg: bytes, wire: bytes)
    requires 0 < n <= 127 && Nested(p, n - 1) && msg == p.msg + [1]
    requires wire == [1, 0x61] + Tail(NestEnd(n, p.offsets))
    ensures Nested(Sheet(msg + wire, p.offsets[Nest(n) := |msg|]), n)
  {
    if n > 1 {
      PrintedGrows(p.msg, [1], p.offsets[Nest(n - 1)], Nest(n - 1), n - 2);
    }
    NestPrinted(msg, n, p.offsets, msg + wire);
    NestKeeps(p, n, msg, wire);
  }

  lemma {:induction false} NestHops(n: nat)
    requires n <= 127
    ensures Nested(Print(NestItems(n)), n)
    ensures n > 0 ==> Print(NestItems(n)).offsets[Nest(n)] == Start(NestItems(n), n - 1)
  {
    if n > 0 {
      NestHops(n - 1);
      NestValid(n);
      NestStep(Print(NestItems(n - 1)), n, Print(NestItems(n)));
    }
  }

  lemma TooDeep(p: Sheet, n: nat, o: nat)
    requires 12 <= n <= 127 && Nested(p, n) && o == p.offsets[Nest(n)]
    ensures o < |p.msg| && ParseResult(p.msg[o..|p.msg|], Some(p.msg)) == Failed
  {
    NestLabels(n);
    PrintedBounds(p.msg, o, Nest(n), n - 1);
    ParsePrinted(p.msg, o, |p.msg|, Nest(n), n - 1);
  }

  // Twelve or more nested names: the last is valid, and does not parse back.
  lemma TooManyHops(n: nat)
    requires 12 <= n <= 127
    ensures ValidItems(NestItems(n))
    ensures var m, o := Print(NestItems(n)).msg, Start(NestItems(n), n - 1);
      o < |m| && ParseResult(m[o..|m|], Some(m)) == Failed
  {
    NestValid(n);
    NestHops(n);
    TooDeep(Print(NestItems(n)), n, Start(NestItems(n), n - 1));
  }

  // ----- Without compression -----

  // Without a map a text is accepted exactly when it is made of labels.
  lemma {:induction false} PlainScan(s: bytes, o: nat, at: nat, t: Scan)
    requires at + |s| <= MAX_NAME && (at > 0 || FirstDot(s) > 0) && t == Scanned(s, o, at, None)
    ensures t.cmp == None && !t.halt.AtSeen?
    ensures !t.halt.AtBad? && (s == [] || s[|s| - 1] == DOT) <==> Labels(s)
    decreases |s|
  {
    var d := FirstDot(s);
    if d == |s| {
      if s != [] && s[d - 1] == DOT {
        DotAt(s, d - 1);
      }
    } else if !BadLabel(at, d) {
      var text, s' := TextSplit(s);
      ScannedLabel(s, d, text, s', o, o + d + 1, at, at + d + 1, None, None);
      PlainScan(s', o + d + 1, at + d + 1, Scanned(s', o + d + 1, at + d + 1, None));
    }
  }

  // What the printer accepts without a map: labels, with or without a dot in front.
  lemma PackAccepts(name: bytes)
    ensures Serialized(name, 0, None).Written? <==>
      name != [] && |name| <= MAX_NAME && (Labels(name) || (name[0] == DOT && Labels(name[1..])))
  {
    if name != [] && |name| <= MAX_NAME {
      if name[0] == DOT {
        PackDot(name, name[1..]);
      } else {
        PlainScan(name, 0, 0, Scanned(name, 0, 0, None));
      }
    }
  }

  lemma PackDot(name: bytes, s': bytes)
    requires name != [] && name[0] == DOT && s' == name[1..] && |name| <= MAX_NAME
    ensures Serialized(name, 0, None).Written? <==> Labels(s')
    ensures !Labels(name)
  {
    var t' := Scanned(s', 1, 1, None);
    assert name == [DOT] + s';
    DotScan(name, s', 0, None, None, t', Scanned(name, 0, 0, None));
    PlainScan(s', 1, 1, t');
    assert s' != [] ==> name[|name| - 1] == s'[|s'| - 1];
  }

  predicate PrintedTo(m: bytes, o: nat, s: bytes) {
    Printed(m, o, s, 0) && End(m, o) == |m|
  }

  lemma {:induction false} PlainPrinted(msg: bytes, s: bytes, at: nat, t: Scan)
    requires Labels(s) && CString(s) && at + |s| <= MAX_NAME && t == Scanned(s, |msg|, at, None)
    ensures PrintedTo(msg + (t.labels + [0]), |msg|, s)
    decreases |s|
  {
    if s == [] {
      assert (msg + ([] + [0]))[|msg|] == 0;
    } else {
      var d, text, s' := LabelOf(s);
      var o, msg1 := |msg|, msg + Labelled([], text);
      var t' := Scanned(s', o + d + 1, at + d + 1, None);
      ScannedLabel(s, d, text, s', o, o + d + 1, at, at + d + 1, None, None);
      PlainPrinted(msg1, s', at + d + 1, t');
      LabelPrintedTo(msg, o, s, d, text, s', t'.labels + [0]);
      Join(msg, Labelled([], text), t'.labels, [0]);
    }
  }

  lemma LabelPrintedTo(msg: bytes, o: nat, s: bytes, d: nat, text: bytes, s': bytes, rest: bytes)
    requires FirstLabel(s, d, text, s') && o == |msg| && PrintedTo(msg + Labelled([], text) + rest, o + d + 1, s')
    ensures PrintedTo(msg + (Labelled([], text) + rest), o, s)
  {
    var m := msg + Labelled([], text) + rest;
    LabelPlaced(msg, text, rest, m);
    LabelPrinted(m, o, o + d + 1, s, d, text, s', 0);
  }

  lemma PackPlain(name: bytes, w: bytes)
    requires ValidName(name) && name != ROOT && Serialized(name, 0, None) == Written(w, None)
    ensures ParseResult(w[0..|w|], Some(w)) == Parsed(name, |w|)
  {
    var t := Scanned(name, 0, 0, None);
    PlainScan(name, 0, 0, t);
    PlainPrinted([], name, 0, t);
    LabelsLeft(name, t);
    assert [] + w == w;
    ParsePrinted(w, 0, |w|, name, 0);
  }

  // What the printer accepts without a map parses back exactly when it is valid.
  lemma PackExact(name: bytes)
    requires CString(name) && Serialized(name, 0, None).Written?
    ensures var w := Serialized(name, 0, None).wire;
      ParseResult(w, Some(w)) == Parsed(name, |w|) <==> ValidName(name)
  {
    var w := Serialized(name, 0, None).wire;
    assert w[0..|w|] == w;
    if name == ROOT {
      RootScan(0, None);
      assert [0] + [] == [0];
    } else if ValidName(name) {
      PlainScan(name, 0, 0, Scanned(name, 0, 0, None));
      PackPlain(name, w);
    } else if ParseResult(w, Some(w)) == Parsed(name, |w|) {
      ReadsValid(w, 0, |w|, name, |w|);
    }
  }
}
