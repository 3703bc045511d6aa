// What a new header must satisfy, and where two branches part: the parts of
// the chain that only read the map of stored headers.
module ChainRules {
  import opened Bytes
  import opened Work
  import opened Retarget
  import opened Headers

  // ----- Median time past -----

  // A 64-bit number read as signed: the number of that range with the same remainder.
  function Signed64(x: uint64): (r: int)
    ensures -0x8000_0000_0000_0000 <= r < 0x8000_0000_0000_0000 && r % 0x1_0000_0000_0000_0000 == x
  {
    if x < 0x8000_0000_0000_0000 then x else x - 0x1_0000_0000_0000_0000
  }

  ghost predicate Ascending(s: seq<int>) {
    forall i, j :: 0 <= i < j < |s| ==> s[i] <= s[j]
  }

  function Insert(s: seq<int>, x: int): (r: seq<int>)
    ensures multiset(r) == multiset(s) + multiset{x}
    ensures Ascending(s) ==> Ascending(r)
    decreases |s|
  {
    if s == [] then [x]
    else if x >= s[|s| - 1] then s + [x]
    else
      var r := Insert(s[..|s| - 1], x);
      assert s == s[..|s| - 1] + [s[|s| - 1]];
      InsertBelow(s, r, x);
      r + [s[|s| - 1]]
  }

  lemma InsertBelow(s: seq<int>, r: seq<int>, x: int)
    requires s != [] && x < s[|s| - 1] && multiset(r) == multiset(s[..|s| - 1]) + multiset{x}
    ensures Ascending(s) ==> forall i :: 0 <= i < |r| ==> r[i] <= s[|s| - 1]
  {
    if Ascending(s) {
      forall i | 0 <= i < |r|
        ensures r[i] <= s[|s| - 1]
      {
        assert r[i] in multiset(r);
        assert r[i] == x || r[i] in s[..|s| - 1];
      }
    }
  }

  function Sorted(s: seq<int>): (r: seq<int>)
    ensures multiset(r) == multiset(s) && Ascending(r) && |r| == |s|
  {
    if s == [] then []
    else
      assert s == s[..|s| - 1] + [s[|s| - 1]];
      var r := Insert(Sorted(s[..|s| - 1]), s[|s| - 1]);
      assert |multiset(r)| == |r| && |multiset(s)| == |s|;
      r
  }

  // The times of h and its ancestors, at most n of them.
  function Times(hashes: Hashes, h: Header, n: nat): (t: seq<int>)
    ensures |t| <= n && (n > 0 ==> |t| > 0)
    decreases n
  {
    if n == 0 then []
    else if h.prev in hashes then [Signed64(h.time)] + Times(hashes, hashes[h.prev], n - 1)
    else [Signed64(h.time)]
  }

  const TIMESPAN: nat := 11

  function MedianTime(hashes: Hashes, prev: Header): int {
    var t := Sorted(Times(hashes, prev, TIMESPAN));
    t[|t| / 2]
  }

  // How many of the numbers pass p.
  function Amount(s: seq<int>, p: int -> bool): nat {
    if s == [] then 0 else Amount(s[..|s| - 1], p) + if p(s[|s| - 1]) then 1 else 0
  }

  lemma AmountSnoc(s: seq<int>, x: int, p: int -> bool)
    ensures Amount(s + [x], p) == Amount(s, p) + if p(x) then 1 else 0
  {
    assert (s + [x])[..|s|] == s;
  }

  lemma {:induction false} AmountInsert(s: seq<int>, x: int, p: int -> bool)
    ensures Amount(Insert(s, x), p) == Amount(s, p) + if p(x) then 1 else 0
    decreases |s|
  {
    if s == [] {
      AmountSnoc([], x, p);
      assert [] + [x] == [x];
    } else if x >= s[|s| - 1] {
      AmountSnoc(s, x, p);
    } else {
      AmountInsert(s[..|s| - 1], x, p);
      AmountSnoc(Insert(s[..|s| - 1], x), s[|s| - 1], p);
    }
  }

  lemma {:induction false} AmountSorted(s: seq<int>, p: int -> bool)
    ensures Amount(Sorted(s), p) == Amount(s, p)
  {
    if s != [] {
      AmountSorted(s[..|s| - 1], p);
      AmountInsert(Sorted(s[..|s| - 1]), s[|s| - 1], p);
    }
  }

  // At most n - k of n numbers pass, or at most k, if the first k, or all others, do not.
  lemma {:induction false} AmountWithout(s: seq<int>, p: int -> bool, k: nat)
    requires k <= |s|
    ensures (forall i :: 0 <= i < k ==> !p(s[i])) ==> Amount(s, p) <= |s| - k
    ensures (forall i :: k <= i < |s| ==> !p(s[i])) ==> Amount(s, p) <= k
    decreases |s|
  {
    if s != [] {
      AmountWithout(s[..|s| - 1], p, if k < |s| then k else k - 1);
    }
  }

  function Under(m: int): int -> bool {
    x => x < m
  }

  function Over(m: int): int -> bool {
    x => x > m
  }

  // m is the middle of the numbers: one of them, with at most half of them below it and
  // fewer than half above.
  ghost predicate InMiddle(s: seq<int>, m: int) {
    m in s && 2 * Amount(s, Under(m)) <= |s| && 2 * Amount(s, Over(m)) < |s|
  }

  lemma AscendingMiddle(s: seq<int>, k: nat)
    requires Ascending(s) && k < |s|
    ensures Amount(s, Under(s[k])) <= k && Amount(s, Over(s[k])) <= |s| - (k + 1)
  {
    AmountWithout(s, Under(s[k]), k);
    AmountWithout(s, Over(s[k]), k + 1);
  }

  lemma MedianInMiddle(hashes: Hashes, prev: Header)
    ensures InMiddle(Times(hashes, prev, TIMESPAN), MedianTime(hashes, prev))
  {
    var t := Times(hashes, prev, TIMESPAN);
    var s, k := Sorted(t), |t| / 2;
    assert s[k] in multiset(s);
    AmountSorted(t, Under(s[k]));
    AmountSorted(t, Over(s[k]));
    AscendingMiddle(s, k);
  }

  // The times are those of prev and of the headers below it on its branch, as far as
  // there are any.
  lemma {:induction false} TimesAre(hashes: Hashes, genesis: Header, h: Header, n: nat)
    requires Linked(hashes, genesis) && Stored(hashes, h) && genesis.prev !in hashes
    ensures |Times(hashes, h, n)| == Least(n, h.height + 1)
    ensures forall i :: 0 <= i < Least(n, h.height + 1) ==> Times(hashes, h, n)[i] == Signed64(Anc(hashes, h, h.height - i).time)
    decreases n
  {
    if n > 0 {
      if h.height == 0 {
        OnlyGenesis(hashes, genesis, h);
      } else {
        Parent(hashes, genesis, h);
        var p := hashes[h.prev];
        TimesAre(hashes, genesis, p, n - 1);
        forall i | 0 < i < Least(n, h.height + 1)
          ensures Times(hashes, h, n)[i] == Signed64(Anc(hashes, h, h.height - i).time)
        {
          assert Times(hashes, h, n)[i] == Times(hashes, p, n - 1)[i - 1];
          AncNew(hashes, h, h.height - i);
        }
      }
    }
  }

  function Least(x: nat, y: nat): nat {
    if x < y then x else y
  }

  // The times still to collect from an optional header on.
  function TimesFrom(hashes: Hashes, h: Option<Header>, n: nat): seq<int> {
    if h.None? then [] else Times(hashes, h.value, n)
  }

  function Lookup(hashes: Hashes, k: Hash): Option<Header> {
    if k in hashes then Some(hashes[k]) else None
  }

  lemma TimesStep(hashes: Hashes, h: Header, n: nat)
    requires n > 0
    ensures TimesFrom(hashes, Some(h), n) == [Signed64(h.time)] + TimesFrom(hashes, Lookup(hashes, h.prev), n - 1)
  {
  }

  method CollectTimes(hashes: Hashes, prev: Header) returns (median: seq<int>)
    ensures median == Times(hashes, prev, TIMESPAN)
  {
    var h, i: nat := Some(prev), 0;
    ghost var whole := Times(hashes, prev, TIMESPAN);
    median := [];
    while i < TIMESPAN && h.Some?
      invariant i == |median| <= TIMESPAN && i <= |whole|
      invariant median == whole[..i] && TimesFrom(hashes, h, TIMESPAN - i) == whole[i..]
    {
      TimesStep(hashes, h.value, TIMESPAN - i);
      assert whole[i] == whole[i..][0] && whole[i + 1..] == whole[i..][1..];
      median := median + [Signed64(h.value.time)];
      h := Lookup(hashes, h.value.prev);
      i := i + 1;
    }
  }

  method GetMtp(hashes: Hashes, prev: Header) returns (m: int)
    ensures m == MedianTime(hashes, prev) && InMiddle(Times(hashes, prev, 11), m)
  {
    MedianInMiddle(hashes, prev);
    var median := CollectTimes(hashes, prev);
    median := Sorted(median);
    return median[|median| / 2];
  }

  // ----- The required bits -----

  predicate MedianOf(m: Header, u: Header, v: Header) {
    u.time <= m.time <= v.time || v.time <= m.time <= u.time
  }

  // m has the median time of three headers in a row.  On equal times it is y if y has
  // the median time, and otherwise x when y is earlier and z when y is later.
  ghost predicate IsMiddle(x: Header, y: Header, z: Header, m: Header) {
    && ((m == x && MedianOf(x, y, z)) || (m == y && MedianOf(y, x, z)) || (m == z && MedianOf(z, x, y)))
    && (MedianOf(y, x, z) ==> m == y)
    && (x.time == z.time != y.time ==> m == if y.time < x.time then x else z)
  }

  // Of three headers in a row, ordered by swaps, the middle one by time.
  function Middle(x: Header, y: Header, z: Header): (m: Header)
    ensures IsMiddle(x, y, z, m)
  {
    var (x1, z1) := if x.time > z.time then (z, x) else (x, z);
    var (x2, y2) := if x1.time > y.time then (y, x1) else (x1, y);
    if y2.time > z1.time then z1 else y2
  }

  // Only one header is.
  lemma OneMiddle(x: Header, y: Header, z: Header, m: Header)
    requires IsMiddle(x, y, z, m)
    ensures m == Middle(x, y, z)
  {
  }

  // m is the header to retarget from at height n: of the three up to there on h's branch,
  // the one with the median time.
  ghost predicate Suitable(hashes: Hashes, h: Header, n: nat, m: Header)
    requires n >= 2
  {
    IsMiddle(Anc(hashes, h, n - 2), Anc(hashes, h, n - 1), Anc(hashes, h, n), m)
  }

  // The bits a child of prev must carry.
  function NextBits(hashes: Hashes, prev: Header): nat {
    if prev.height < 144 + 2 then HSK_BITS
    else
      var first, last := SuitableFrom(hashes, prev, prev.height - 144), SuitableFrom(hashes, prev, prev.height);
      RetargetBits(BE(first.work), first.time, BE(last.work), last.time)
  }

  function SuitableFrom(hashes: Hashes, h: Header, n: nat): (m: Header)
    requires n >= 2
    ensures Suitable(hashes, h, n, m)
  {
    Middle(Anc(hashes, h, n - 2), Anc(hashes, h, n - 1), Anc(hashes, h, n))
  }

  lemma OneSuitable(hashes: Hashes, h: Header, n: nat, m: Header)
    requires n >= 2 && Suitable(hashes, h, n, m)
    ensures m == SuitableFrom(hashes, h, n)
  {
    OneMiddle(Anc(hashes, h, n - 2), Anc(hashes, h, n - 1), Anc(hashes, h, n), m);
  }

  // What the required bits are: those of the limit below height 146, and from there the
  // retargeting between the suitable headers at prev and 144 below it.
  ghost predicate RequiredBits(hashes: Hashes, prev: Header, bits: nat) {
    if prev.height < 146 then bits == HSK_BITS
    else forall first, last :: Suitable(hashes, prev, prev.height - 144, first) && Suitable(hashes, prev, prev.height, last) ==>
      bits == RetargetBits(BE(first.work), first.time, BE(last.work), last.time)
  }

  lemma NextBitsRequired(hashes: Hashes, prev: Header)
    ensures RequiredBits(hashes, prev, NextBits(hashes, prev))
  {
    forall first, last | prev.height >= 146 && Suitable(hashes, prev, prev.height - 144, first) && Suitable(hashes, prev, prev.height, last)
      ensures NextBits(hashes, prev) == RetargetBits(BE(first.work), first.time, BE(last.work), last.time)
    {
      OneSuitable(hashes, prev, prev.height - 144, first);
      OneSuitable(hashes, prev, prev.height, last);
    }
  }

  method SuitableBlock(hashes: Hashes, prev: Header, ghost genesis: Header, ghost h: Header) returns (m: Header)
    requires Linked(hashes, genesis) && Stored(hashes, h) && 2 <= prev.height <= h.height && prev == Anc(hashes, h, prev.height)
    ensures m == SuitableFrom(hashes, h, prev.height) && Suitable(hashes, h, prev.height, m)
  {
    AncStep(hashes, genesis, h, prev.height);
    AncStep(hashes, genesis, h, prev.height - 1);
    var z := prev;
    var y := hashes[z.prev];
    var x := hashes[y.prev];
    if x.time > z.time {
      x, z := z, x;
    }
    if x.time > y.time {
      x, y := y, x;
    }
    if y.time > z.time {
      y, z := z, y;
    }
    return y;
  }

  method GetAncestor(hashes: Hashes, hdr: Header, height: nat, ghost genesis: Header) returns (h: Header)
    requires Linked(hashes, genesis) && Stored(hashes, hdr) && height <= hdr.height
    ensures h == Anc(hashes, hdr, height) && h.height == height
  {
    h := hdr;
    AncStored(hashes, genesis, hdr, height);
    while h.height != height
      invariant height <= h.height <= hdr.height && Stored(hashes, h) && h == Anc(hashes, hdr, h.height)
      decreases h.height
    {
      AncStep(hashes, genesis, hdr, h.height);
      AncStored(hashes, genesis, hdr, h.height - 1);
      h := hashes[h.prev];
    }
  }

  method GetTarget(hashes: Hashes, prev: Header, ghost genesis: Header) returns (bits: nat)
    requires Linked(hashes, genesis) && Stored(hashes, prev)
    ensures bits == NextBits(hashes, prev) && RequiredBits(hashes, prev, bits)
  {
    NextBitsRequired(hashes, prev);
    if prev.height < 144 + 2 {
      return HSK_BITS;
    }
    var last := SuitableBlock(hashes, prev, genesis, prev);
    var height := prev.height - 144;
    var ancestor := GetAncestor(hashes, prev, height, genesis);
    var first := SuitableBlock(hashes, ancestor, genesis, prev);
    bits := RetargetWindow(first.work, first.time, last.work, last.time);
  }

  // ----- Forks -----

  ghost predicate Apart(hashes: Hashes, a: Header, b: Header, n: nat) {
    n <= a.height && n <= b.height ==> Anc(hashes, a, n).hash != Anc(hashes, b, n).hash
  }

  lemma LongerStep(hashes: Hashes, genesis: Header, b: Header, longer: Header)
    requires Linked(hashes, genesis) && Extends(hashes, b) && 0 < longer.height <= b.height && longer == Anc(hashes, b, longer.height)
    ensures longer.prev in hashes && Stored(hashes, hashes[longer.prev]) && hashes[longer.prev].height == longer.height - 1
    ensures hashes[longer.prev] == Anc(hashes, b, longer.height - 1)
  {
    var n, p := longer.height, hashes[b.prev];
    assert LinkedAt(hashes, genesis, b.prev);
    if n < b.height {
      AncNew(hashes, b, n);
      AncNew(hashes, b, n - 1);
      AncStep(hashes, genesis, p, n);
      AncStored(hashes, genesis, p, n - 1);
    }
  }

  // Follows parents until the height is at most the given one.
  method Shorten(hashes: Hashes, b: Header, longer0: Header, height: nat, ghost genesis: Header) returns (longer: Header)
    requires Linked(hashes, genesis) && Extends(hashes, b) && longer0.height <= b.height
    requires longer0 == Anc(hashes, b, longer0.height)
    ensures longer.height <= b.height && longer == Anc(hashes, b, longer.height)
    ensures longer.height == if longer0.height > height then height else longer0.height
    ensures longer == longer0 || Stored(hashes, longer)
  {
    longer := longer0;
    while longer.height > height
      invariant longer.height <= longer0.height && longer == Anc(hashes, b, longer.height)
      invariant longer == longer0 || (Stored(hashes, longer) && longer.height >= height)
      decreases longer.height
    {
      LongerStep(hashes, genesis, b, longer);
      longer := hashes[longer.prev];
    }
  }

  // The branches are apart above h.
  ghost predicate ApartAbove(hashes: Hashes, a: Header, b: Header, h: int) {
    forall n: nat {:trigger Apart(hashes, a, b, n)} :: n > h ==> Apart(hashes, a, b, n)
  }

  lemma ApartBelow(hashes: Hashes, a: Header, b: Header, h: nat)
    requires ApartAbove(hashes, a, b, h) && Apart(hashes, a, b, h)
    ensures ApartAbove(hashes, a, b, h - 1)
  {
  }

  // The highest common ancestor of a stored header and one about to be stored.
  method FindFork(hashes: Hashes, a: Header, b: Header, ghost genesis: Header) returns (f: Header)
    requires Linked(hashes, genesis) && Stored(hashes, a) && Extends(hashes, b) && b.hash !in hashes
    ensures IsFork(hashes, a, b, f) && Stored(hashes, f)
  {
    var fork, longer := a, b;
    while fork.hash != longer.hash
      invariant fork.height <= a.height && longer.height <= b.height && Stored(hashes, fork)
      invariant longer == b || Stored(hashes, longer)
      invariant fork == Anc(hashes, a, fork.height) && longer == Anc(hashes, b, longer.height)
      invariant ApartAbove(hashes, a, b, Least(fork.height, longer.height))
      decreases fork.height
    {
      longer := Shorten(hashes, b, longer, fork.height, genesis);
      if fork.hash == longer.hash {
        break;
      }
      OnlyGenesisShared(hashes, genesis, fork, longer, b);
      AncStep(hashes, genesis, a, fork.height);
      AncStored(hashes, genesis, a, fork.height - 1);
      if longer.height == fork.height {
        ApartBelow(hashes, a, b, fork.height);
      }
      fork := hashes[fork.prev];
    }
    ForkFound(hashes, a, b, fork);
    return fork;
  }

  lemma ForkFound(hashes: Hashes, a: Header, b: Header, f: Header)
    requires f.height <= a.height && f.height <= b.height && Anc(hashes, a, f.height) == f && Anc(hashes, b, f.height) == f
    requires ApartAbove(hashes, a, b, f.height)
    ensures IsFork(hashes, a, b, f)
  {
    forall n: nat {:trigger Anc(hashes, a, n)} | f.height < n <= a.height && n <= b.height
      ensures Anc(hashes, a, n).hash != Anc(hashes, b, n).hash
    {
      assert Apart(hashes, a, b, n);
    }
  }

  lemma OnlyGenesisShared(hashes: Hashes, genesis: Header, fork: Header, longer: Header, b: Header)
    requires Linked(hashes, genesis) && Stored(hashes, fork) && (longer == b || Stored(hashes, longer)) && b.height > 0
    requires longer.height <= fork.height && fork.hash != longer.hash
    ensures fork.height > 0
  {
    if fork.height == 0 {
      OnlyGenesis(hashes, genesis, fork);
      OnlyGenesis(hashes, genesis, longer);
    }
  }
}
