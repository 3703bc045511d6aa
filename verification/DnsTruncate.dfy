// Truncation of a DNS message to a maximum size, on a record boundary.
module DnsTruncate {
  import opened Bytes
  import opened DnsName
  import opened DnsRoundTrip

  const HEADER: nat := 12

  function U16(m: bytes, o: nat): (n: nat)
    requires o + 2 <= |m|
    ensures n < 0x1_0000
  {
    0x100 * (m[o] as nat) + m[o + 1] as nat
  }

  // The four record counts of the header.
  function Counts(m: bytes): (c: seq<nat>)
    requires |m| >= HEADER
    ensures |c| == 4 && forall s :: 0 <= s < 4 ==> c[s] < 0x1_0000
  {
    [U16(m, 4), U16(m, 6), U16(m, 8), U16(m, 10)]
  }

  // ----- Skipping records -----

  // The end of the rest of a record whose name ends at e.
  function SkipBody(m: bytes, e: nat, question: bool): Option<nat> {
    if question then
      if e + 4 > |m| then None else Some(e + 4)
    else if e + 10 > |m| then None
    else if e + 10 + U16(m, e + 8) > |m| then None
    else Some(e + 10 + U16(m, e + 8))
  }

  // The end of the record at o, whose name must parse.
  function Skip(m: bytes, o: nat, question: bool): (e: Option<nat>)
    requires o <= |m|
    ensures e.Some? ==> e.value <= |m|
  {
    match ParseResult(m[o..|m|], Some(m))
    case Failed => None
    case Parsed(_, used) => SkipBody(m, o + used, question)
  }

  // The same, looking only at the record's own bytes: pointers are not followed.
  function Span(m: bytes, o: nat, question: bool): (e: Option<nat>)
    requires o <= |m|
    ensures e.Some? ==> e.value <= |m|
  {
    if End(m, o) > |m| || End(m, o) == o then None else SkipBody(m, End(m, o), question)
  }

  lemma ParsedEnd(m: bytes, o: nat, name: bytes, used: nat)
    requires o <= |m| && ParseResult(m[o..|m|], Some(m)) == Parsed(name, used)
    ensures o < o + used == End(m, o) <= |m|
  {
    ParseExact(m, o, |m|, name, used);
    var t: bytes, h: nat :| Spells(m, o, |m|, name, used, t, h);
    EndBound(m, o, t, h);
  }

  lemma SkipSpan(m: bytes, o: nat, question: bool)
    requires o <= |m| && Skip(m, o, question).Some?
    ensures Span(m, o, question) == Skip(m, o, question)
    ensures o < Skip(m, o, question).value
  {
    var r := ParseResult(m[o..|m|], Some(m));
    ParsedEnd(m, o, r.name, r.used);
  }

  // ----- What a record is, in bytes -----

  // Behind its name a question has four bytes; a record has eight, the length of its
  // data in two, the high one first, and the data.
  predicate Body(s: bytes, fixed: bytes, rd: bytes) {
    |fixed| == 8 && |rd| < 0x1_0000 && s == fixed + ([|rd| / 256, |rd| % 256] + rd)
  }

  ghost predicate BodyAt(m: bytes, o: nat, question: bool, e: nat) {
    o <= e <= |m| && if question then e == o + 4 else exists fixed: bytes, rd: bytes :: Body(m[o..e], fixed, rd)
  }

  // A name, and the rest of the record up to e.
  ghost predicate RecordAt(m: bytes, o: nat, question: bool, e: nat) {
    exists name: bytes, used: nat :: ReadsAs(m, o, |m|, name, used) && BodyAt(m, o + used, question, e)
  }

  lemma BodyExact(m: bytes, o: nat, question: bool, e: nat)
    requires o <= |m|
    ensures SkipBody(m, o, question) == Some(e) <==> BodyAt(m, o, question, e)
  {
    if !question && BodyAt(m, o, question, e) {
      var fixed: bytes, rd: bytes :| Body(m[o..e], fixed, rd);
      assert m[o + 8] == m[o..e][8] && m[o + 9] == m[o..e][9];
    }
    if !question && SkipBody(m, o, question) == Some(e) {
      BodySkipped(m, o, e);
    }
  }

  lemma BodySkipped(m: bytes, o: nat, e: nat)
    requires o <= |m| && SkipBody(m, o, false) == Some(e)
    ensures BodyAt(m, o, false, e)
  {
    var s := m[o..e];
    var fixed, rd := s[..8], s[10..];
    assert s[8] == m[o + 8] && s[9] == m[o + 9];
    assert s == fixed + ([s[8], s[9]] + rd);
    assert Body(s, fixed, rd);
  }

  // A record is skipped to e exactly when its bytes end there.
  lemma RecordExact(m: bytes, o: nat, question: bool, e: nat)
    requires o <= |m|
    ensures Skip(m, o, question) == Some(e) <==> RecordAt(m, o, question, e)
  {
    if Skip(m, o, question) == Some(e) {
      SkippedIsRecord(m, o, question, e);
    }
    if RecordAt(m, o, question, e) {
      var name: bytes, used: nat :| ReadsAs(m, o, |m|, name, used) && BodyAt(m, o + used, question, e);
      RecordIsSkipped(m, o, question, e, name, used);
    }
  }

  lemma SkippedIsRecord(m: bytes, o: nat, question: bool, e: nat)
    requires o <= |m| && Skip(m, o, question) == Some(e)
    ensures RecordAt(m, o, question, e)
  {
    var r := ParseResult(m[o..|m|], Some(m));
    ParseExact(m, o, |m|, r.name, r.used);
    ParsedEnd(m, o, r.name, r.used);
    BodyExact(m, o + r.used, question, e);
    assert ReadsAs(m, o, |m|, r.name, r.used);
  }

  lemma RecordIsSkipped(m: bytes, o: nat, question: bool, e: nat, name: bytes, used: nat)
    requires o <= |m| && ReadsAs(m, o, |m|, name, used) && BodyAt(m, o + used, question, e)
    ensures Skip(m, o, question) == Some(e)
  {
    ParseExact(m, o, |m|, name, used);
    BodyExact(m, o + used, question, e);
  }

  // e is where the record at o ends, if there is one.
  ghost predicate EndsAt(m: bytes, o: nat, question: bool, e: Option<nat>) {
    forall end: nat :: e == Some(end) <==> RecordAt(m, o, question, end)
  }

  lemma SkipEnds(m: bytes, o: nat, question: bool)
    requires o <= |m|
    ensures EndsAt(m, o, question, Skip(m, o, question))
  {
    forall end: nat
      ensures Skip(m, o, question) == Some(end) <==> RecordAt(m, o, question, end)
    {
      RecordExact(m, o, question, end);
    }
  }

  // A record written out is skipped to the end of its data, whatever follows.
  lemma RecordSkipped(m: bytes, pre: bytes, w: bytes, name: bytes, fixed: bytes, rd: bytes, post: bytes)
    requires |fixed| == 8 && |rd| < 0x1_0000
    requires m == pre + w + (fixed + ([|rd| / 256, |rd| % 256] + rd)) + post && ReadsAs(m, |pre|, |m|, name, |w|)
    ensures Skip(m, |pre|, false) == Some(|m| - |post|)
  {
    var o, e := |pre| + |w|, |m| - |post|;
    assert m[o..e] == fixed + ([|rd| / 256, |rd| % 256] + rd);
    assert Body(m[o..e], fixed, rd);
    RecordExact(m, |pre|, false, e);
  }

  // A record whose data would run past the message is refused.
  lemma RecordRunsOver(m: bytes, pre: bytes, w: bytes, name: bytes, fixed: bytes, n: nat, rest: bytes)
    requires |fixed| == 8 && |rest| < n < 0x1_0000
    requires m == pre + w + (fixed + [n / 256, n % 256] + rest) && ReadsAs(m, |pre|, |m|, name, |w|)
    ensures Skip(m, |pre|, false) == None
  {
    var o := |pre| + |w|;
    ParseExact(m, |pre|, |m|, name, |w|);
    assert m[o + 8] == n / 256 && m[o + 9] == n % 256;
  }

  // The records from the first offset to the last, each up to the next offset.
  ghost predicate Laid(m: bytes, question: bool, ends: seq<nat>) {
    forall i :: 0 <= i < |ends| - 1 ==> RecordAt(m, ends[i], question, ends[i + 1])
  }

  ghost predicate LaidFrom(m: bytes, o: nat, question: bool, n: nat, e: nat, ends: seq<nat>) {
    |ends| == n + 1 && ends[0] == o && ends[n] == e && Laid(m, question, ends)
  }

  // n records of one kind, from o.
  function Records(m: bytes, o: nat, question: bool, n: nat): (e: Option<nat>)
    requires o <= |m|
    ensures e.Some? ==> e.value <= |m|
    decreases n
  {
    if n == 0 then Some(o)
    else match Skip(m, o, question)
      case None => None
      case Some(e) => Records(m, e, question, n - 1)
  }

  // n records are read from o to e exactly when their bytes follow each other there.
  lemma RecordsLaid(m: bytes, o: nat, question: bool, n: nat, e: nat)
    requires o <= |m|
    ensures Records(m, o, question, n) == Some(e) <==> exists ends :: LaidFrom(m, o, question, n, e, ends)
  {
    if Records(m, o, question, n) == Some(e) {
      var ends := LayRecords(m, o, question, n, e);
    }
    if exists ends :: LaidFrom(m, o, question, n, e, ends) {
      var ends :| LaidFrom(m, o, question, n, e, ends);
      LaidRecords(m, o, question, n, e, ends);
    }
  }

  lemma {:induction false} LayRecords(m: bytes, o: nat, question: bool, n: nat, e: nat) returns (ends: seq<nat>)
    requires o <= |m| && Records(m, o, question, n) == Some(e)
    ensures LaidFrom(m, o, question, n, e, ends)
    decreases n
  {
    ends := [o];
    if n > 0 {
      var next := Skip(m, o, question).value;
      ends := LayRecords(m, next, question, n - 1, e);
      RecordExact(m, o, question, next);
      ends := LaidNext(m, o, question, n, e, ends);
    }
  }

  lemma LaidNext(m: bytes, o: nat, question: bool, n: nat, e: nat, tail: seq<nat>) returns (ends: seq<nat>)
    requires n > 0 && |tail| == n && LaidFrom(m, tail[0], question, n - 1, e, tail) && RecordAt(m, o, question, tail[0])
    ensures LaidFrom(m, o, question, n, e, ends)
  {
    ends := [o] + tail;
    forall i | 0 <= i < n
      ensures RecordAt(m, ends[i], question, ends[i + 1])
    {
      assert i > 0 ==> RecordAt(m, tail[i - 1], question, tail[i]);
    }
  }

  lemma {:induction false} LaidRecords(m: bytes, o: nat, question: bool, n: nat, e: nat, ends: seq<nat>)
    requires o <= |m| && LaidFrom(m, o, question, n, e, ends)
    ensures Records(m, o, question, n) == Some(e)
    decreases n
  {
    if n > 0 {
      assert RecordAt(m, ends[0], question, ends[1]);
      RecordExact(m, o, question, ends[1]);
      LaidRecords(m, ends[1], question, n - 1, e, ends[1..]);
    }
  }

  // All sections, with the given counts; the first holds the questions.
  function Sections(m: bytes, counts: seq<nat>): (e: Option<nat>)
    requires |m| >= HEADER
    ensures e.Some? ==> e.value <= |m|
  {
    if counts == [] then Some(HEADER)
    else
      var s := |counts| - 1;
      match Sections(m, counts[..s])
      case None => None
      case Some(o) => Records(m, o, s == 0, counts[s])
  }

  // ----- What truncation must find -----

  // The section in which the cut falls is the first with records left over;
  // the next record would pass max, and no later section keeps any.
  ghost predicate CutIn(m: bytes, counts: seq<nat>, max: nat, kept: seq<nat>, len: nat, s: nat)
    requires |counts| == |kept| && len <= |m|
  {
    && s < |counts| && kept[s] < counts[s]
    && (forall t :: 0 <= t < s ==> kept[t] == counts[t])
    && (forall t :: s < t < |counts| ==> kept[t] == 0)
    && Skip(m, len, s == 0).Some? && Skip(m, len, s == 0).value > max
  }

  // kept is the longest run of whole records that ends at or before max.
  ghost predicate IsCut(m: bytes, counts: seq<nat>, max: nat, kept: seq<nat>, len: nat) {
    && |counts| == |kept| && HEADER <= len <= max <= |m|
    && Sections(m, kept) == Some(len)
    && (kept == counts || exists s: nat :: CutIn(m, counts, max, kept, len, s))
  }

  // ----- The algorithm -----

  // One section: how many records are kept, where they end, and where reading
  // stopped.
  datatype Stop = Stop(kept: nat, last: nat, data: nat)

  function CutSection(m: bytes, o: nat, question: bool, count: nat, max: nat): (r: Option<Stop>)
    requires o <= max <= |m|
    decreases count
  {
    if count == 0 then Some(Stop(0, o, o))
    else match Skip(m, o, question)
      case None => None
      case Some(e) =>
        if e > max then Some(Stop(0, o, e))
        else match CutSection(m, e, question, count - 1, max)
          case None => None
          case Some(r) => Some(r.(kept := r.kept + 1))
  }

  // What one section's result means.
  ghost predicate SectionCut(m: bytes, o: nat, question: bool, count: nat, max: nat, r: Stop) {
    && r.kept <= count && o <= r.last <= max <= |m| && r.data <= |m|
    && Records(m, o, question, r.kept) == Some(r.last)
    && (r.kept == count ==> r.data == r.last)
    && (r.kept < count ==> Skip(m, r.last, question) == Some(r.data) && r.data > max)
  }

  lemma {:induction false} CutSectionMeans(m: bytes, o: nat, question: bool, count: nat, max: nat)
    requires o <= max <= |m| && CutSection(m, o, question, count, max).Some?
    ensures SectionCut(m, o, question, count, max, CutSection(m, o, question, count, max).value)
    decreases count
  {
    if count > 0 {
      SkipSpan(m, o, question);
      var e := Skip(m, o, question).value;
      if e <= max {
        CutSectionMeans(m, e, question, count - 1, max);
      }
    }
  }

  // One record of a section.
  lemma CutSectionNext(m: bytes, o: nat, question: bool, n: nat, max: nat, e: Option<nat>)
    requires o <= max <= |m| && n > 0 && e == Skip(m, o, question)
    ensures CutSection(m, o, question, n, max) ==
      if e.None? then None
      else if e.value > max then Some(Stop(0, o, e.value))
      else Raise(CutSection(m, e.value, question, n - 1, max), 1)
  {
  }

  // The records still to read, after i of count.
  ghost predicate Reading(m: bytes, o: nat, question: bool, count: nat, max: nat, i: nat, r: Option<Stop>)
    requires o <= max <= |m|
  {
    i <= count && r == Raise(CutSection(m, o, question, count - i, max), i)
  }

  lemma ReadingNext(m: bytes, o: nat, question: bool, count: nat, max: nat, i: nat, r: Option<Stop>, e: Option<nat>)
    requires o <= max <= |m| && i < count && Reading(m, o, question, count, max, i, r) && e == Skip(m, o, question)
    ensures e.None? ==> r.None?
    ensures e.Some? && e.value > max ==> r == Some(Stop(i, o, e.value))
    ensures e.Some? && e.value <= max ==> Reading(m, e.value, question, count, max, i + 1, r)
  {
    CutSectionNext(m, o, question, count - i, max, e);
  }

  method Section(m: bytes, o: nat, question: bool, count: nat, max: nat) returns (r: Option<Stop>)
    requires o <= max < |m|
    ensures r == CutSection(m, o, question, count, max)
  {
    var data, last: nat, i, j := o, o, 0, 0;
    ghost var whole := CutSection(m, o, question, count, max);
    while data <= max
      invariant i <= count && data <= |m|
      invariant data <= max ==> Reading(m, data, question, count, max, i, whole)
      invariant data > max ==> whole == Some(Stop(j, last, data))
      decreases |m| - data
    {
      last := data;
      j := i;
      if i == count {
        break;
      }
      i := i + 1;
      var next := ReadRecord(m, data, question);
      ReadingNext(m, data, question, count, max, j, whole, next);
      if next.None? {
        return None;
      }
      data := next.value;
    }
    return Some(Stop(j, last, data));
  }

  function Raise(r: Option<Stop>, i: nat): Option<Stop> {
    if r.None? then None else Some(r.value.(kept := r.value.kept + i))
  }

  method ReadRecord(m: bytes, o: nat, question: bool) returns (e: Option<nat>)
    requires o <= |m|
    ensures e == Skip(m, o, question)
    ensures EndsAt(m, o, question, e) && (e.Some? ==> o < e.value <= |m|)
  {
    SkipEnds(m, o, question);
    var r := Parse(m[o..|m|], Some(m));
    if r.Failed? {
      return None;
    }
    ParsedEnd(m, o, r.name, r.used);
    var data := o + r.used;
    if question {
      if |m| - data < 4 {
        return None;
      }
      return Some(data + 4);
    }
    if |m| - data < 8 {
      return None;
    }
    data := data + 8;
    if |m| - data < 2 {
      return None;
    }
    var rdlen := U16(m, data);
    data := data + 2;
    if |m| - data < rdlen {
      return None;
    }
    return Some(data + rdlen);
  }

  // A record that is reached but does not parse.
  ghost predicate Stuck(m: bytes, counts: seq<nat>, max: nat) {
    |m| >= HEADER && exists kept: seq<nat> :: StuckAfter(m, counts, max, kept)
  }

  ghost predicate StuckAfter(m: bytes, counts: seq<nat>, max: nat, kept: seq<nat>)
    requires |m| >= HEADER
  {
    && 0 < |kept| <= |counts|
    && var s := |kept| - 1;
      && kept[..s] == counts[..s] && kept[s] < counts[s]
      && Sections(m, kept).Some? && Sections(m, kept).value <= max && Skip(m, Sections(m, kept).value, s == 0).None?
  }

  lemma {:induction false} CutSectionStuck(m: bytes, o: nat, question: bool, count: nat, max: nat) returns (k: nat)
    requires o <= max <= |m| && CutSection(m, o, question, count, max).None?
    ensures k < count && Records(m, o, question, k).Some? && Records(m, o, question, k).value <= max
    ensures Skip(m, Records(m, o, question, k).value, question).None?
    decreases count
  {
    if Skip(m, o, question).None? {
      k := 0;
    } else {
      k := CutSectionStuck(m, Skip(m, o, question).value, question, count - 1, max);
      k := k + 1;
    }
  }

  // What the loop over sections keeps: the kept counts lead to last, and once
  // reading has passed max the cut is in one of the sections done.
  ghost predicate Cutting(m: bytes, counts: seq<nat>, max: nat, kept: seq<nat>, last: nat, data: nat, cut: nat) {
    && |kept| <= |counts| && HEADER <= last <= max <= |m| && Sections(m, kept) == Some(last)
    && (data <= max ==> kept == counts[..|kept|] && data == last)
    && (data > max ==> CutIn(m, counts[..|kept|], max, kept, last, cut))
  }

  lemma SectionKept(m: bytes, counts: seq<nat>, max: nat, kept: seq<nat>, last: nat, r: Stop)
    requires Cutting(m, counts, max, kept, last, last, 0) && |kept| < |counts|
    requires SectionCut(m, last, |kept| == 0, counts[|kept|], max, r)
    ensures Cutting(m, counts, max, kept + [r.kept], r.last, r.data, |kept|)
  {
    var s := |kept|;
    assert (kept + [r.kept])[..s] == kept;
    assert counts[..s + 1] == counts[..s] + [counts[s]];
  }

  lemma SectionDropped(m: bytes, counts: seq<nat>, max: nat, kept: seq<nat>, last: nat, data: nat, cut: nat)
    requires Cutting(m, counts, max, kept, last, data, cut) && data > max && |kept| < |counts|
    ensures Cutting(m, counts, max, kept + [0], last, data, cut)
  {
    assert (kept + [0])[..|kept|] == kept;
    assert counts[..|kept| + 1] == counts[..|kept|] + [counts[|kept|]];
  }

  lemma SectionStuck(m: bytes, counts: seq<nat>, max: nat, kept: seq<nat>, last: nat)
    requires Cutting(m, counts, max, kept, last, last, 0) && |kept| < |counts|
    requires CutSection(m, last, |kept| == 0, counts[|kept|], max).None?
    ensures Stuck(m, counts, max)
  {
    var s := |kept|;
    var k := CutSectionStuck(m, last, s == 0, counts[s], max);
    assert (kept + [k])[..s] == kept;
    assert StuckAfter(m, counts, max, kept + [k]);
  }

  // The counts kept and the end of the last record kept.
  method Cut(m: bytes, counts: seq<nat>, max: nat) returns (ok: bool, kept: seq<nat>, last: nat)
    requires HEADER <= max < |m| && |counts| == 4
    ensures ok ==> IsCut(m, counts, max, kept, last)
    ensures !ok ==> Stuck(m, counts, max)
  {
    var data: nat := HEADER;
    ghost var cut: nat := 0;
    kept, last := [], data;
    for s := 0 to 4
      invariant |kept| == s && Cutting(m, counts, max, kept, last, data, cut)
    {
      if data <= max {
        var r := Section(m, data, s == 0, counts[s], max);
        if r.None? {
          SectionStuck(m, counts, max, kept, last);
          return false, kept, last;
        }
        CutSectionMeans(m, data, s == 0, counts[s], max);
        SectionKept(m, counts, max, kept, last, r.value);
        cut := s;
        kept, last, data := kept + [r.value.kept], r.value.last, r.value.data;
      } else {
        SectionDropped(m, counts, max, kept, last, data, cut);
        kept := kept + [0];
      }
    }
    assert counts[..4] == counts;
    return true, kept, last;
  }

  method PutU16(msg: array<byte>, o: nat, n: nat)
    requires o + 2 <= msg.Length && n < 0x1_0000
    modifies msg
    ensures U16(msg[..], o) == n
    ensures forall i :: 0 <= i < msg.Length && i != o && i != o + 1 ==> msg[i] == old(msg[i])
  {
    msg[o] := n / 0x100 % 0x100;
    msg[o + 1] := n % 0x100;
  }

  method Truncate(msg: array<byte>, max: nat) returns (ok: bool, len: nat)
    modifies msg
    ensures !ok ==> msg[..] == old(msg[..])
    ensures !ok ==> msg.Length < HEADER || max < HEADER || Stuck(msg[..], Counts(msg[..]), max)
    ensures ok && msg.Length <= max ==> msg[..] == old(msg[..]) && len == msg.Length
    ensures ok && msg.Length > max ==> msg.Length >= HEADER && IsCut(old(msg[..]), Counts(old(msg[..])), max, Counts(msg[..]), len)
    ensures forall i :: 0 <= i < msg.Length && (i < 4 || i >= HEADER) ==> msg[i] == old(msg[i])
  {
    len := 0;
    if msg.Length < HEADER {
      return false, 0;
    }
    if max < HEADER {
      return false, 0;
    }
    if msg.Length <= max {
      return true, msg.Length;
    }
    var m := msg[..];
    var counts;
    ok, counts, len := Cut(m, Counts(m), max);
    if !ok {
      return;
    }
    KeptSmall(m, Counts(m), max, counts, len);
    PutU16(msg, 4, counts[0]);
    PutU16(msg, 6, counts[1]);
    PutU16(msg, 8, counts[2]);
    PutU16(msg, 10, counts[3]);
    assert Counts(msg[..]) == counts;
  }

  // No count grows.
  lemma KeptSmall(m: bytes, counts: seq<nat>, max: nat, kept: seq<nat>, len: nat)
    requires IsCut(m, counts, max, kept, len)
    ensures forall s :: 0 <= s < |counts| ==> kept[s] <= counts[s]
  {
    if kept != counts {
      var s: nat :| CutIn(m, counts, max, kept, len, s);
    }
  }

  // ----- The cut is determined -----

  lemma {:induction false} RecordsForward(m: bytes, o: nat, question: bool, n: nat)
    requires o <= |m| && Records(m, o, question, n).Some?
    ensures o <= Records(m, o, question, n).value
    decreases n
  {
    if n > 0 {
      SkipSpan(m, o, question);
      RecordsForward(m, Skip(m, o, question).value, question, n - 1);
    }
  }

  lemma {:induction false} RecordsSplit(m: bytes, o: nat, question: bool, j: nat, n: nat)
    requires o <= |m| && j < n && Records(m, o, question, n).Some?
    ensures Records(m, o, question, j).Some? && Skip(m, Records(m, o, question, j).value, question).Some?
    ensures Skip(m, Records(m, o, question, j).value, question).value <= Records(m, o, question, n).value
    decreases n
  {
    if j == 0 {
      RecordsForward(m, Skip(m, o, question).value, question, n - 1);
    } else {
      RecordsSplit(m, Skip(m, o, question).value, question, j - 1, n - 1);
    }
  }

  lemma {:induction false} SectionsPrefix(m: bytes, kept: seq<nat>, s: nat)
    requires |m| >= HEADER && s <= |kept| && Sections(m, kept).Some?
    ensures Sections(m, kept[..s]).Some? && Sections(m, kept[..s]).value <= Sections(m, kept).value
    decreases |kept|
  {
    if s == |kept| {
      assert kept[..s] == kept;
    } else {
      var n := |kept| - 1;
      RecordsForward(m, Sections(m, kept[..n]).value, n == 0, kept[n]);
      SectionsPrefix(m, kept[..n], s);
      assert kept[..n][..s] == kept[..s];
    }
  }

  // Sections without records do not move the end.
  lemma {:induction false} SectionsEmpty(m: bytes, kept: seq<nat>, s: nat)
    requires |m| >= HEADER && s <= |kept| && forall t :: s <= t < |kept| ==> kept[t] == 0
    ensures Sections(m, kept) == Sections(m, kept[..s])
    decreases |kept|
  {
    if s == |kept| {
      assert kept[..s] == kept;
    } else {
      var n := |kept| - 1;
      SectionsEmpty(m, kept[..n], s);
      assert kept[..n][..s] == kept[..s];
    }
  }

  // Reading on in section s, after fewer records than another walk that stays
  // within max, meets a record that ends within max.
  lemma OneMoreFits(m: bytes, a: seq<nat>, b: seq<nat>, s: nat, max: nat)
    requires |m| >= HEADER && s < |a| && s < |b| && a[..s] == b[..s] && a[s] < b[s]
    requires Sections(m, b).Some? && Sections(m, b).value <= max
    ensures Sections(m, a[..s + 1]).Some?
    ensures var o := Sections(m, a[..s + 1]).value; Skip(m, o, s == 0).Some? && Skip(m, o, s == 0).value <= max
  {
    SectionsPrefix(m, b, s + 1);
    assert b[..s + 1][..s] == b[..s] && a[..s + 1][..s] == a[..s];
    RecordsSplit(m, Sections(m, b[..s]).value, s == 0, a[s], b[s]);
  }

  lemma CutFirst(m: bytes, counts: seq<nat>, max: nat, a: seq<nat>, la: nat, b: seq<nat>, lb: nat, s: nat)
    requires IsCut(m, counts, max, a, la) && IsCut(m, counts, max, b, lb)
    requires s < |counts| && a[..s] == b[..s]
    ensures a[s] >= b[s]
  {
    KeptSmall(m, counts, max, b, lb);
    assert forall t :: 0 <= t < s ==> a[t] == a[..s][t] == b[..s][t] == b[t];
    if a[s] < b[s] {
      var c: nat :| CutIn(m, counts, max, a, la, c);
      if c >= s {
        OneMoreFits(m, a, b, s, max);
        SectionsEmpty(m, a, s + 1);
      }
    }
  }

  lemma {:induction false} SamePrefix(m: bytes, counts: seq<nat>, max: nat, a: seq<nat>, la: nat, b: seq<nat>, lb: nat, s: nat)
    requires IsCut(m, counts, max, a, la) && IsCut(m, counts, max, b, lb) && s <= |counts|
    ensures a[..s] == b[..s]
    decreases s
  {
    if s > 0 {
      SamePrefix(m, counts, max, a, la, b, lb, s - 1);
      CutFirst(m, counts, max, a, la, b, lb, s - 1);
      CutFirst(m, counts, max, b, lb, a, la, s - 1);
      assert a[..s] == a[..s - 1] + [a[s - 1]] && b[..s] == b[..s - 1] + [b[s - 1]];
    }
  }

  // There is only one cut.
  lemma CutUnique(m: bytes, counts: seq<nat>, max: nat, a: seq<nat>, la: nat, b: seq<nat>, lb: nat)
    requires IsCut(m, counts, max, a, la) && IsCut(m, counts, max, b, lb)
    ensures a == b && la == lb
  {
    SamePrefix(m, counts, max, a, la, b, lb, |counts|);
    assert a[..|counts|] == a && b[..|counts|] == b;
  }

  // A cut exists only when no record stands in the way.
  lemma CutNotStuck(m: bytes, counts: seq<nat>, max: nat, a: seq<nat>, la: nat)
    requires IsCut(m, counts, max, a, la)
    ensures !Stuck(m, counts, max)
  {
    if Stuck(m, counts, max) {
      var k :| StuckAfter(m, counts, max, k);
      StuckApart(m, counts, max, a, la, k);
    }
  }

  lemma SameTake(a: seq<nat>, k: seq<nat>)
    requires 0 < |k| <= |a|
    ensures a[..|k| - 1] == k[..|k| - 1] && a[|k| - 1] == k[|k| - 1] ==> a[..|k|] == k
  {
    assert a[..|k|] == a[..|k| - 1] + [a[|k| - 1]] && k == k[..|k| - 1] + [k[|k| - 1]];
  }

  lemma StuckApart(m: bytes, counts: seq<nat>, max: nat, a: seq<nat>, la: nat, k: seq<nat>)
    requires IsCut(m, counts, max, a, la) && |k| <= |counts|
    ensures !StuckAfter(m, counts, max, k)
  {
    if StuckAfter(m, counts, max, k) {
      var s := |k| - 1;
      assert k[..s + 1] == k;
      if a == counts {
        OneMoreFits(m, k, a, s, max);
      } else {
        var c: nat :| CutIn(m, counts, max, a, la, c);
        StuckOrCut(m, counts, max, a, la, k, c);
      }
    }
  }

  lemma StuckOrCut(m: bytes, counts: seq<nat>, max: nat, a: seq<nat>, la: nat, k: seq<nat>, c: nat)
    requires IsCut(m, counts, max, a, la) && CutIn(m, counts, max, a, la, c) && |k| <= |counts|
    ensures !StuckAfter(m, counts, max, k)
  {
    if StuckAfter(m, counts, max, k) {
      var s := |k| - 1;
      assert k[..s + 1] == k;
      SectionsEmpty(m, a, c + 1);
      assert forall t :: 0 <= t < s ==> k[t] == counts[..s][t];
      SameTake(a, k);
      if c < s {
        OneMoreFits(m, a, k, c, max);
      } else if c > s || a[s] > k[s] {
        OneMoreFits(m, k, a, s, max);
      } else if a[s] < k[s] {
        OneMoreFits(m, a, k, s, max);
      }
    }
  }

  // ----- The truncated message -----

  function SpanRecords(m: bytes, o: nat, question: bool, n: nat): (e: Option<nat>)
    requires o <= |m|
    ensures e.Some? ==> e.value <= |m|
    decreases n
  {
    if n == 0 then Some(o)
    else match Span(m, o, question)
      case None => None
      case Some(e) => SpanRecords(m, e, question, n - 1)
  }

  function SpanSections(m: bytes, counts: seq<nat>): (e: Option<nat>)
    requires |m| >= HEADER
    ensures e.Some? ==> e.value <= |m|
  {
    if counts == [] then Some(HEADER)
    else
      var s := |counts| - 1;
      match SpanSections(m, counts[..s])
      case None => None
      case Some(o) => SpanRecords(m, o, s == 0, counts[s])
  }

  // t is m cut to its length, apart from the counts in the header.
  ghost predicate SameRecords(m: bytes, t: bytes) {
    HEADER <= |t| <= |m| && forall i :: 0 <= i < |t| && (i < 4 || i >= HEADER) ==> t[i] == m[i]
  }

  lemma {:induction false} EndForward(m: bytes, o: nat)
    ensures End(m, o) >= o && (o < |m| ==> End(m, o) > o)
    decreases |m| - o
  {
    if o < |m| && 0 < m[o] <= MAX_LABEL {
      EndForward(m, o + 1 + m[o]);
    }
  }

  lemma {:induction false} EndSame(m: bytes, t: bytes, o: nat)
    requires SameRecords(m, t) && HEADER <= o && End(m, o) <= |t|
    ensures End(t, o) == End(m, o)
    decreases |m| - o
  {
    EndForward(m, o);
    if o < |t| && 0 < m[o] <= MAX_LABEL {
      EndSame(m, t, o + 1 + m[o]);
    }
  }

  lemma SkipSame(m: bytes, t: bytes, o: nat, question: bool)
    requires SameRecords(m, t) && HEADER <= o <= |t| && Skip(m, o, question).Some? && Skip(m, o, question).value <= |t|
    ensures Span(t, o, question) == Skip(m, o, question)
  {
    var r := ParseResult(m[o..|m|], Some(m));
    ParsedEnd(m, o, r.name, r.used);
    EndSame(m, t, o);
  }

  lemma {:induction false} RecordsSame(m: bytes, t: bytes, o: nat, question: bool, n: nat)
    requires SameRecords(m, t) && HEADER <= o <= |t| && Records(m, o, question, n).Some? && Records(m, o, question, n).value <= |t|
    ensures SpanRecords(t, o, question, n) == Records(m, o, question, n)
    decreases n
  {
    if n > 0 {
      var e := Skip(m, o, question).value;
      RecordsForward(m, e, question, n - 1);
      SkipSpan(m, o, question);
      SkipSame(m, t, o, question);
      RecordsSame(m, t, e, question, n - 1);
    }
  }

  lemma {:induction false} SectionsSame(m: bytes, t: bytes, kept: seq<nat>)
    requires SameRecords(m, t) && Sections(m, kept).Some? && Sections(m, kept).value <= |t|
    ensures SpanSections(t, kept) == Sections(m, kept) && HEADER <= Sections(m, kept).value
    decreases |kept|
  {
    if kept != [] {
      var n := |kept| - 1;
      var o := Sections(m, kept[..n]).value;
      RecordsForward(m, o, n == 0, kept[n]);
      SectionsSame(m, t, kept[..n]);
      RecordsSame(m, t, o, n == 0, kept[n]);
    }
  }

  // Walking the truncated message by its own counts ends exactly at its end.
  lemma TruncatedWalks(m: bytes, t: bytes, max: nat)
    requires |m| >= HEADER && SameRecords(m, t) && IsCut(m, Counts(m), max, Counts(t), |t|)
    ensures SpanSections(t, Counts(t)) == Some(|t|)
  {
    SectionsSame(m, t, Counts(t));
  }

  // ----- Reading the truncated message -----

  // Reading the name at o, through at most `hops` pointers, stays before hi.
  predicate StaysBelow(m: bytes, o: nat, hops: nat, hi: nat)
    decreases hops, |m| - o
  {
    && o < hi && o < |m|
    && if m[o] == 0 then true
       else if m[o] <= MAX_LABEL then StaysBelow(m, o + 1 + m[o], hops, hi)
       else m[o] >= 0xc0 ==> o + 1 < hi && o + 1 < |m| && (hops > 0 ==> StaysBelow(m, PointerAt(m, o), hops - 1, hi))
  }

  // No byte of m from a up to b is changed in t, as far as t goes.
  ghost predicate Unchanged(m: bytes, t: bytes, a: nat, b: nat) {
    forall i :: a <= i < b && i < |t| && i < |m| ==> t[i] == m[i]
  }

  // Reading the name at o, through at most `hops` pointers, reads no changed byte.
  ghost predicate SameName(m: bytes, t: bytes, o: nat, hops: nat)
    decreases hops, |m| - o
  {
    o < |m| ==>
      && Unchanged(m, t, o, o + 1)
      && if m[o] == 0 then true
         else if m[o] <= MAX_LABEL then Unchanged(m, t, o + 1, o + 1 + m[o]) && SameName(m, t, o + 1 + m[o], hops)
         else m[o] >= 0xc0 && o + 1 < |m| ==> Unchanged(m, t, o + 1, o + 2) && (hops > 0 ==> SameName(m, t, PointerAt(m, o), hops - 1))
  }

  lemma {:induction false} EncodesBelow(m: bytes, t: bytes, o: nat, text: bytes, h: nat, hops: nat)
    requires |t| <= |m| && Encodes(m, o, text, h) && h <= hops && SameName(m, t, o, hops) && StaysBelow(m, o, hops, |t|)
    ensures Encodes(t, o, text, h)
    decreases h, |text|
  {
    assert t[o] == m[o];
    if 0 < m[o] <= MAX_LABEL {
      var c: nat := m[o];
      EncodesBelow(m, t, o + 1 + c, text[c + 1..], h, hops);
      BelowBound(m, o + 1 + c, hops, |t|);
      assert t[o + 1..o + 1 + c] == m[o + 1..o + 1 + c];
    } else if m[o] != 0 {
      assert t[o + 1] == m[o + 1];
      EncodesBelow(m, t, PointerAt(m, o), text, h - 1, hops - 1);
      assert PointerAt(t, o) == PointerAt(m, o);
    }
  }

  lemma BelowBound(m: bytes, o: nat, hops: nat, hi: nat)
    requires StaysBelow(m, o, hops, hi)
    ensures o < hi
  {
  }

  lemma {:induction false} ReadBelow(m: bytes, t: bytes, o: nat, text: bytes, h: nat, hops: nat)
    requires |t| <= |m| && Encodes(t, o, text, h) && h <= hops && SameName(m, t, o, hops)
    ensures StaysBelow(m, o, hops, |t|)
    decreases h, |text|
  {
    assert m[o] == t[o];
    if 0 < m[o] <= MAX_LABEL {
      var c: nat := m[o];
      ReadBelow(m, t, o + 1 + c, text[c + 1..], h, hops);
    } else if m[o] != 0 {
      assert m[o + 1] == t[o + 1] && PointerAt(t, o) == PointerAt(m, o);
      ReadBelow(m, t, PointerAt(m, o), text, h - 1, hops - 1);
    }
  }

  lemma SkipIfBelow(m: bytes, t: bytes, o: nat, question: bool)
    requires SameRecords(m, t) && HEADER <= o <= |t| && Skip(m, o, question).Some? && Skip(m, o, question).value <= |t|
    requires SameName(m, t, o, MAX_HOPS) && StaysBelow(m, o, MAX_HOPS, |t|)
    ensures Skip(t, o, question) == Skip(m, o, question)
  {
    var r := ParseResult(m[o..|m|], Some(m));
    var used := NameBelow(m, t, o, r.name, r.used);
    SkipSame(m, t, o, question);
    SkipParsed(t, o, question, r.name, used);
  }

  lemma NameBelow(m: bytes, t: bytes, o: nat, name: bytes, used: nat) returns (used': nat)
    requires SameRecords(m, t) && HEADER <= o <= |t| && ParseResult(m[o..|m|], Some(m)) == Parsed(name, used)
    requires SameName(m, t, o, MAX_HOPS) && StaysBelow(m, o, MAX_HOPS, |t|)
    ensures ParseResult(t[o..|t|], Some(t)) == Parsed(name, used')
  {
    ParseExact(m, o, |m|, name, used);
    var text: bytes, h: nat :| Spells(m, o, |m|, name, used, text, h);
    EncodesBelow(m, t, o, text, h, MAX_HOPS);
    EndBound(t, o, text, h);
    used' := End(t, o) - o;
    assert Spells(t, o, |t|, name, used', text, h);
    ParseExact(t, o, |t|, name, used');
  }

  lemma SkipParsed(m: bytes, o: nat, question: bool, name: bytes, used: nat)
    requires o <= |m| && ParseResult(m[o..|m|], Some(m)) == Parsed(name, used)
    ensures Skip(m, o, question) == Span(m, o, question)
  {
    ParsedEnd(m, o, name, used);
  }

  lemma SkipThenBelow(m: bytes, t: bytes, o: nat, question: bool)
    requires SameRecords(m, t) && HEADER <= o <= |t| && SameName(m, t, o, MAX_HOPS) && Skip(t, o, question).Some?
    ensures StaysBelow(m, o, MAX_HOPS, |t|)
  {
    var q := ParseResult(t[o..|t|], Some(t));
    ParseExact(t, o, |t|, q.name, q.used);
    var text: bytes, h: nat :| Spells(t, o, |t|, q.name, q.used, text, h);
    ReadBelow(m, t, o, text, h, MAX_HOPS);
  }

  // A kept record is read from the truncated message exactly when its name stays
  // below the cut, and then with the same end.
  lemma SkipExact(m: bytes, t: bytes, o: nat, question: bool)
    requires SameRecords(m, t) && HEADER <= o <= |t| && Skip(m, o, question).Some? && Skip(m, o, question).value <= |t|
    requires SameName(m, t, o, MAX_HOPS)
    ensures Skip(t, o, question) == if StaysBelow(m, o, MAX_HOPS, |t|) then Skip(m, o, question) else None
  {
    if StaysBelow(m, o, MAX_HOPS, |t|) {
      SkipIfBelow(m, t, o, question);
    } else if Skip(t, o, question).Some? {
      SkipThenBelow(m, t, o, question);
    }
  }

  // Every record read, n of them from o, starts at a good offset.
  ghost predicate RecordsAll(m: bytes, o: nat, question: bool, n: nat, good: nat -> bool)
    requires o <= |m|
    decreases n
  {
    n == 0 || (good(o) && (Skip(m, o, question).Some? ==> RecordsAll(m, Skip(m, o, question).value, question, n - 1, good)))
  }

  ghost predicate SectionsAll(m: bytes, counts: seq<nat>, good: nat -> bool)
    requires |m| >= HEADER
  {
    counts == [] ||
    (var s := |counts| - 1;
     SectionsAll(m, counts[..s], good)
     && (Sections(m, counts[..s]).Some? ==> RecordsAll(m, Sections(m, counts[..s]).value, s == 0, counts[s], good)))
  }

  function Below(m: bytes, hi: nat): nat -> bool {
    (o: nat) => StaysBelow(m, o, MAX_HOPS, hi)
  }

  ghost function Same(m: bytes, t: bytes): nat -> bool {
    (o: nat) => SameName(m, t, o, MAX_HOPS)
  }

  lemma {:induction false} RecordsExact(m: bytes, t: bytes, o: nat, question: bool, n: nat)
    requires SameRecords(m, t) && HEADER <= o <= |t| && Records(m, o, question, n).Some? && Records(m, o, question, n).value <= |t|
    requires RecordsAll(m, o, question, n, Same(m, t))
    ensures Records(t, o, question, n).Some? <==> RecordsAll(m, o, question, n, Below(m, |t|))
    ensures Records(t, o, question, n).Some? ==> Records(t, o, question, n) == Records(m, o, question, n)
    decreases n
  {
    if n > 0 {
      var e := Skip(m, o, question).value;
      RecordsForward(m, e, question, n - 1);
      SkipSpan(m, o, question);
      SkipExact(m, t, o, question);
      RecordsExact(m, t, e, question, n - 1);
    }
  }

  lemma {:induction false} SectionsExact(m: bytes, t: bytes, kept: seq<nat>)
    requires SameRecords(m, t) && Sections(m, kept).Some? && Sections(m, kept).value <= |t|
    requires SectionsAll(m, kept, Same(m, t))
    ensures Sections(t, kept).Some? <==> SectionsAll(m, kept, Below(m, |t|))
    ensures Sections(t, kept).Some? ==> Sections(t, kept) == Sections(m, kept)
    decreases |kept|
  {
    if kept != [] {
      var n := |kept| - 1;
      var o := Sections(m, kept[..n]).value;
      RecordsForward(m, o, n == 0, kept[n]);
      SectionsSame(m, t, kept[..n]);
      SectionsExact(m, t, kept[..n]);
      RecordsExact(m, t, o, n == 0, kept[n]);
    }
  }

  // When no kept name reads a byte of a count that changes, reading the truncated
  // message by its own counts ends exactly at its end if and only if every kept name
  // stays below the cut.
  lemma TruncatedReads(m: bytes, t: bytes, max: nat)
    requires |m| >= HEADER && SameRecords(m, t) && IsCut(m, Counts(m), max, Counts(t), |t|)
    requires SectionsAll(m, Counts(t), Same(m, t))
    ensures Sections(t, Counts(t)) == Some(|t|) <==> SectionsAll(m, Counts(t), Below(m, |t|))
  {
    SectionsExact(m, t, Counts(t));
  }

  // A printed name stays below any end past its own.
  lemma {:induction false} PrintedStays(m: bytes, o: nat, text: bytes, h: nat, hops: nat, hi: nat)
    requires Printed(m, o, text, h) && End(m, o) <= hi
    ensures StaysBelow(m, o, hops, hi)
    decreases h, |text|
  {
    EndBound(m, o, text, h);
    if 0 < m[o] <= MAX_LABEL {
      PrintedStays(m, o + 1 + m[o], text[m[o] + 1..], h, hops, hi);
    } else if m[o] != 0 && hops > 0 {
      PrintedStays(m, PointerAt(m, o), text, h - 1, hops - 1, hi);
    }
  }

  ghost predicate PrintedAt(m: bytes, o: nat) {
    exists text: bytes :: PrintedSomehow(m, o, text)
  }

  ghost function Names(m: bytes): nat -> bool {
    (o: nat) => PrintedAt(m, o)
  }

  lemma {:induction false} RecordsPrinted(m: bytes, o: nat, question: bool, n: nat, hi: nat)
    requires o <= |m| && Records(m, o, question, n).Some? && Records(m, o, question, n).value <= hi
    requires RecordsAll(m, o, question, n, Names(m))
    ensures RecordsAll(m, o, question, n, Below(m, hi))
    decreases n
  {
    if n > 0 {
      var e := Skip(m, o, question).value;
      RecordsForward(m, e, question, n - 1);
      SkipSpan(m, o, question);
      assert PrintedAt(m, o);
      var text: bytes :| PrintedSomehow(m, o, text);
      var h: nat :| Printed(m, o, text, h);
      PrintedStays(m, o, text, h, MAX_HOPS, hi);
      RecordsPrinted(m, e, question, n - 1, hi);
    }
  }

  lemma {:induction false} SectionsPrinted(m: bytes, kept: seq<nat>, hi: nat)
    requires |m| >= HEADER && Sections(m, kept).Some? && Sections(m, kept).value <= hi && SectionsAll(m, kept, Names(m))
    ensures SectionsAll(m, kept, Below(m, hi))
    decreases |kept|
  {
    if kept != [] {
      var n := |kept| - 1;
      var o := Sections(m, kept[..n]).value;
      RecordsForward(m, o, n == 0, kept[n]);
      SectionsPrinted(m, kept[..n], hi);
      RecordsPrinted(m, o, n == 0, kept[n], hi);
    }
  }

  // So a message whose kept names were printed, and read no count that changes, can
  // be read after it is truncated.
  lemma TruncatedPrinted(m: bytes, t: bytes, max: nat)
    requires |m| >= HEADER && SameRecords(m, t) && IsCut(m, Counts(m), max, Counts(t), |t|)
    requires SectionsAll(m, Counts(t), Same(m, t)) && SectionsAll(m, Counts(t), Names(m))
    ensures Sections(t, Counts(t)) == Some(|t|)
  {
    SectionsPrinted(m, Counts(t), |t|);
    TruncatedReads(m, t, max);
  }

  // A kept question that points to the name of the next one, which is cut off,
  // cannot be read any more.
  lemma PointsPastCut(m: bytes, t: bytes)
    requires m == [0, 0, 0, 0, 0, 2, 0, 0, 0, 0, 0, 0, 0xc0, 18, 0, 0, 0, 0, 0, 0, 0, 0, 0]
    requires t == [0, 0, 0, 0, 0, 1, 0, 0, 0, 0, 0, 0, 0xc0, 18, 0, 0, 0, 0]
    ensures SameRecords(m, t) && IsCut(m, Counts(m), 22, Counts(t), |t|)
    ensures Sections(t, Counts(t)) == None
  {
    PastCutKept(m);
    PastCutCounts(m, t);
    assert CutIn(m, Counts(m), 22, Counts(t), 18, 0);
    PastCutLost(t);
  }

  lemma PastCutCounts(m: bytes, t: bytes)
    requires m == [0, 0, 0, 0, 0, 2, 0, 0, 0, 0, 0, 0, 0xc0, 18, 0, 0, 0, 0, 0, 0, 0, 0, 0]
    requires t == [0, 0, 0, 0, 0, 1, 0, 0, 0, 0, 0, 0, 0xc0, 18, 0, 0, 0, 0]
    ensures SameRecords(m, t) && Counts(m) == [2, 0, 0, 0] && Counts(t) == [1, 0, 0, 0]
  {
  }

  lemma PastCutKept(m: bytes)
    requires m == [0, 0, 0, 0, 0, 2, 0, 0, 0, 0, 0, 0, 0xc0, 18, 0, 0, 0, 0, 0, 0, 0, 0, 0]
    ensures Sections(m, [1, 0, 0, 0]) == Some(18) && Skip(m, 18, true) == Some(23)
  {
    QuestionAt(m, 12, 18);
    RootAt(m, 18);
    OneQuestion(m, 18);
  }

  lemma PastCutLost(t: bytes)
    requires t == [0, 0, 0, 0, 0, 1, 0, 0, 0, 0, 0, 0, 0xc0, 18, 0, 0, 0, 0]
    ensures Sections(t, [1, 0, 0, 0]) == None
  {
    var w := t[12..|t|];
    assert w[0] == t[12] && w[1] == t[13] && PointerAt(w, 0) == 18;
    assert Walk(t, 18, Some(t), 1, [], 2) == Failed;
    QuestionLost(t, [1, 0, 0, 0]);
  }

  lemma RootAt(m: bytes, o: nat)
    requires o + 5 == |m| && m[o] == 0
    ensures ParseResult(m[o..|m|], Some(m)) == Parsed(ROOT, 1) && Skip(m, o, true) == Some(o + 5)
  {
    assert m[o..|m|][0] == m[o];
  }

  lemma QuestionAt(m: bytes, o: nat, p: nat)
    requires o + 6 <= |m| && p < |m| && m[o] == 0xc0 && m[o + 1] == p && m[p] == 0
    ensures Skip(m, o, true) == Some(o + 6)
  {
    var w := m[o..|m|];
    assert w[0] == m[o] && w[1] == m[o + 1] && PointerAt(w, 0) == p;
    assert Walk(m, p, Some(m), 1, [], 2) == Parsed(ROOT, 2);
  }

  lemma OneQuestion(m: bytes, e: nat)
    requires |m| >= HEADER && Skip(m, HEADER, true) == Some(e)
    ensures Sections(m, [1, 0, 0, 0]) == Some(e)
  {
    var kept: seq<nat> := [1, 0, 0, 0];
    SectionsEmpty(m, kept, 1);
    assert kept[..1] == [1] && kept[..1][..0] == [];
    assert Records(m, HEADER, true, 1) == Some(e);
  }

  // Nothing is read when the first question is not.
  lemma QuestionLost(m: bytes, kept: seq<nat>)
    requires |m| >= HEADER && |kept| == 4 && kept[0] == 1 && Skip(m, HEADER, true) == None
    ensures Sections(m, kept) == None
  {
    RecordLost(m, kept[..1]);
    if Sections(m, kept).Some? {
      SectionsPrefix(m, kept, 1);
    }
  }

  lemma RecordLost(m: bytes, kept: seq<nat>)
    requires |m| >= HEADER && kept == [1] && Skip(m, HEADER, true) == None
    ensures Sections(m, kept) == None
  {
    assert kept[..0] == [] && Records(m, HEADER, true, 1) == None;
  }

  // A kept question whose name is spelled by a count cannot be read any more once
  // the count has changed: here it leads back to itself.
  lemma PointsAtCount(m: bytes, t: bytes)
    requires Padded(m, [0, 0, 0, 0, 0, 1, 0, 0, 1, 0, 0, 0, 0xc0, 9, 0, 0, 0, 0], 33)
    requires Padded(t, [0, 0, 0, 0, 0, 1, 0, 0, 0, 2, 0, 0, 0xc0, 9, 0, 0, 0, 0], 22)
    ensures SameRecords(m, t) && IsCut(m, Counts(m), 45, Counts(t), |t|)
    ensures SectionsAll(m, Counts(t), Below(m, |t|)) && Sections(t, Counts(t)) == None
  {
    PaddedCounts(m, t);
    CountKept(m);
    CountLost(t);
    assert CutIn(m, Counts(m), 45, Counts(t), 40, 2);
  }

  // Before the change the name ends at the count, and the records follow.
  lemma CountKept(m: bytes)
    requires Padded(m, [0, 0, 0, 0, 0, 1, 0, 0, 1, 0, 0, 0, 0xc0, 9, 0, 0, 0, 0], 33)
    ensures Sections(m, [1, 0, 2, 0]) == Some(40) && SectionsAll(m, [1, 0, 2, 0], Below(m, 40))
    ensures Skip(m, 40, false) == Some(51)
  {
    QuestionAt(m, 12, 9);
    ZeroRecord(m, 18);
    ZeroRecord(m, 29);
    ZeroRecord(m, 40);
    assert StaysBelow(m, 12, MAX_HOPS, 40) && StaysBelow(m, 18, MAX_HOPS, 40) && StaysBelow(m, 29, MAX_HOPS, 40);
    OneAndTwo(m, 18, 29, 40, Below(m, 40));
  }

  // After it the name is a label of two bytes, and then the pointer again.
  lemma CountLost(t: bytes)
    requires Padded(t, [0, 0, 0, 0, 0, 1, 0, 0, 0, 2, 0, 0, 0xc0, 9, 0, 0, 0, 0], 22)
    ensures Sections(t, [1, 0, 2, 0]) == None
  {
    CountLoops(t, 1, [], 2);
    var w := t[12..|t|];
    assert w[0] == t[12] && w[1] == t[13] && PointerAt(w, 0) == 9;
    QuestionLost(t, [1, 0, 2, 0]);
  }

  // head, and n zeros behind it.
  ghost predicate Padded(m: bytes, head: bytes, n: nat) {
    |m| == |head| + n && forall i :: 0 <= i < |m| ==> m[i] == if i < |head| then head[i] else 0
  }

  lemma PaddedCounts(m: bytes, t: bytes)
    requires Padded(m, [0, 0, 0, 0, 0, 1, 0, 0, 1, 0, 0, 0, 0xc0, 9, 0, 0, 0, 0], 33)
    requires Padded(t, [0, 0, 0, 0, 0, 1, 0, 0, 0, 2, 0, 0, 0xc0, 9, 0, 0, 0, 0], 22)
    ensures Counts(m) == [1, 0, 256, 0] && Counts(t) == [1, 0, 2, 0]
  {
    assert U16(m, 4) == 1 && U16(m, 6) == 0 && U16(m, 8) == 256 && U16(m, 10) == 0;
    assert U16(t, 4) == 1 && U16(t, 6) == 0 && U16(t, 8) == 2 && U16(t, 10) == 0;
  }

  lemma ZeroRecord(m: bytes, o: nat)
    requires o + 11 <= |m| && forall i :: o <= i < o + 11 ==> m[i] == 0
    ensures Skip(m, o, false) == Some(o + 11)
  {
    assert m[o..|m|][0] == m[o];
    assert U16(m, o + 9) == 0;
  }

  lemma SectionsSnoc(m: bytes, kept: seq<nat>, n: nat, more: seq<nat>, good: nat -> bool)
    requires |m| >= HEADER && Sections(m, kept).Some? && more == kept + [n]
    ensures Sections(m, more) == Records(m, Sections(m, kept).value, |kept| == 0, n)
    ensures SectionsAll(m, more, good) <==>
      SectionsAll(m, kept, good) && RecordsAll(m, Sections(m, kept).value, |kept| == 0, n, good)
  {
    assert more[..|more| - 1] == kept;
  }

  lemma TwoRecords(m: bytes, a: nat, b: nat, c: nat, good: nat -> bool)
    requires |m| >= HEADER && Skip(m, HEADER, true) == Some(a)
    requires Skip(m, a, false) == Some(b) && Skip(m, b, false) == Some(c)
    requires good(HEADER) && good(a) && good(b)
    ensures Records(m, HEADER, true, 1) == Some(a) && RecordsAll(m, HEADER, true, 1, good)
    ensures Records(m, a, false, 2) == Some(c) && RecordsAll(m, a, false, 2, good)
  {
    assert Records(m, b, false, 1) == Some(c) && RecordsAll(m, b, false, 1, good);
  }

  lemma OneAndTwo(m: bytes, a: nat, b: nat, c: nat, good: nat -> bool)
    requires |m| >= HEADER && Skip(m, HEADER, true) == Some(a)
    requires Skip(m, a, false) == Some(b) && Skip(m, b, false) == Some(c)
    requires good(HEADER) && good(a) && good(b)
    ensures Sections(m, [1, 0, 2, 0]) == Some(c) && SectionsAll(m, [1, 0, 2, 0], good)
  {
    TwoRecords(m, a, b, c, good);
    var k1: seq<nat>, k2: seq<nat>, k3: seq<nat> := [1], [1, 0], [1, 0, 2];
    SectionsSnoc(m, [], 1, k1, good);
    SectionsSnoc(m, k1, 0, k2, good);
    SectionsSnoc(m, k2, 2, k3, good);
    SectionsSnoc(m, k3, 0, [1, 0, 2, 0], good);
  }

  lemma {:induction false} CountLoops(t: bytes, ptr: nat, name: bytes, res: nat)
    requires |t| >= 14 && t[9] == 2 && t[12] == 0xc0 && t[13] == 9 && ptr <= MAX_HOPS && |name| <= 3 * ptr
    ensures Walk(t, 9, Some(t), ptr, name, res) == Failed
    decreases MAX_HOPS - ptr
  {
    var name' := name + LabelFromWire(t[10..12]) + [DOT];
    assert Walk(t, 9, Some(t), ptr, name, res) == Walk(t, 12, Some(t), ptr, name', res);
    if ptr < MAX_HOPS {
      CountLoops(t, ptr + 1, name', if ptr == 0 then 14 else res);
    }
  }
}
