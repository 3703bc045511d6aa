// The header chain: four maps and a tip, updated by adding headers.
module Chain {
  import opened Arith
  import opened Bytes
  import opened Work
  import opened Retarget
  import opened Headers
  import opened ChainRules

  const SUCCESS := 0
  const ENEGTARGET := 19
  const EHIGHHASH := 20
  const ETIMETOONEW := 21
  const EDUPLICATE := 22
  const EDUPLICATEORPHAN := 23
  const ETIMETOOOLD := 24
  const EBADDIFFBITS := 25
  const EORPHAN := 26

  const MAX_ORPHANS: nat := 10000

  // ----- Comparing 32-byte strings -----

  lemma {:induction false} FirstDifference(a: bytes, b: bytes, i: nat)
    requires |a| == |b| && i < |a| && a[..i] == b[..i] && a[i] < b[i]
    ensures BE(a) < BE(b)
    decreases |a|
  {
    var n := |a| - 1;
    if i < n {
      assert a[..n][..i] == a[..i] && b[..n][..i] == b[..i];
      FirstDifference(a[..n], b[..n], i);
    } else {
      assert a[..n] == b[..n];
    }
  }

  method MemCmp(a: bytes, b: bytes) returns (r: int)
    requires |a| == |b|
    ensures r > 0 <==> BE(a) > BE(b)
    ensures r < 0 <==> BE(a) < BE(b)
  {
    for i := 0 to |a|
      invariant a[..i] == b[..i]
    {
      if a[i] != b[i] {
        if a[i] < b[i] {
          FirstDifference(a, b, i);
        } else {
          FirstDifference(b, a, i);
        }
        return (a[i] as int) - (b[i] as int);
      }
    }
    assert a == a[..|a|] && b == b[..|a|];
    return 0;
  }

  // ----- Proof of work and rules -----

  function PowVerdict(h: Header): int {
    if Decode(h.bits).None? then ENEGTARGET
    else if BE(h.hash) > Decode(h.bits).value then EHIGHHASH
    else SUCCESS
  }

  method VerifyPow(h: Header) returns (rc: int)
    ensures rc == PowVerdict(h)
    ensures rc == SUCCESS <==> Decode(h.bits).Some? && BE(h.hash) <= Decode(h.bits).value
    ensures rc == ENEGTARGET <==> Decode(h.bits).None?
    ensures rc == EHIGHHASH <==> Decode(h.bits).Some? && BE(h.hash) > Decode(h.bits).value
  {
    var ok, target := ToTarget(h.bits);
    if !ok {
      return ENEGTARGET;
    }
    var c := MemCmp(h.hash, target);
    if c > 0 {
      return EHIGHHASH;
    }
    return SUCCESS;
  }

  // What insertion decides of a header below prev.
  function InsertVerdict(hashes: Hashes, h: Header, prev: Header): int {
    if Signed64(h.time) <= MedianTime(hashes, prev) then ETIMETOOOLD
    else if h.bits != NextBits(hashes, prev) then EBADDIFFBITS
    else SUCCESS
  }

  // ----- Invariants -----

  // No stored header has more work than the tip.
  ghost predicate Best(hashes: Hashes, tip: Header) {
    forall k: Hash {:trigger BestAt(hashes, tip, k)} :: BestAt(hashes, tip, k)
  }

  ghost predicate BestAt(hashes: Hashes, tip: Header, k: Hash) {
    k in hashes ==> BE(hashes[k].work) <= BE(tip.work)
  }

  // The stored tree, its best tip, and the main chain by height.
  ghost predicate Core(hashes: Hashes, heights: map<nat, Header>, genesis: Header, tip: Header) {
    && Linked(hashes, genesis) && Stored(hashes, tip) && Best(hashes, tip)
    && Path(hashes, heights, tip, tip.height + 1)
  }

  // The header at k has its proof of work and passes the rules below its parent.
  // (A genesis block whose own parent turned up later would lengthen the times
  // that the median is taken of.)
  ghost predicate RuledAt(hashes: Hashes, genesis: Header, k: Hash) {
    k in hashes && k != genesis.hash && hashes[k].prev in hashes ==>
      && PowVerdict(hashes[k]) == SUCCESS
      && hashes[k].bits == NextBits(hashes, hashes[hashes[k].prev])
      && (genesis.prev !in hashes ==> Signed64(hashes[k].time) > MedianTime(hashes, hashes[hashes[k].prev]))
  }

  // Every stored header but the genesis block obeys the rules of the stored tree.
  ghost predicate Ruled(hashes: Hashes, genesis: Header) {
    forall k: Hash {:trigger RuledAt(hashes, genesis, k)} :: RuledAt(hashes, genesis, k)
  }

  ghost predicate OrphanAt(hashes: Hashes, orphans: Hashes, k: Hash) {
    k in orphans ==> orphans[k].hash == k && k !in hashes && PowVerdict(orphans[k]) == SUCCESS
  }

  ghost predicate PrevAt(hashes: Hashes, orphans: Hashes, prevs: Hashes, except: Option<Hash>, p: Hash) {
    p in prevs ==> prevs[p].prev == p && Stored(orphans, prevs[p]) && (p !in hashes || except == Some(p))
  }

  // Orphans are not stored, and are indexed by parents that are not stored,
  // except for one that has just been.
  ghost predicate Orphanage(hashes: Hashes, orphans: Hashes, prevs: Hashes, except: Option<Hash>) {
    && (forall k: Hash {:trigger OrphanAt(hashes, orphans, k)} :: OrphanAt(hashes, orphans, k))
    && (forall p: Hash {:trigger PrevAt(hashes, orphans, prevs, except, p)} :: PrevAt(hashes, orphans, prevs, except, p))
  }

  lemma PathTip(hashes: Hashes, heights: map<nat, Header>, genesis: Header, h: Header, more: Hashes, up: map<nat, Header>)
    requires Linked(hashes, genesis) && Extends(hashes, h) && h.hash !in hashes && Path(hashes, heights, h, h.height)
    requires more == hashes[h.hash := h] && up == heights[h.height := h]
    ensures Path(more, up, h, h.height + 1)
  {
    assert LinkedAt(hashes, genesis, h.prev);
    forall n: nat {:trigger OnPath(more, up, h, h.height + 1, n)}
      ensures OnPath(more, up, h, h.height + 1, n)
    {
      assert OnPath(hashes, heights, h, h.height, n);
      if n < h.height {
        AncNew(hashes, h, n);
        AncNew(more, h, n);
        AncGrow(hashes, genesis, h, hashes[h.prev], n);
      }
    }
  }

  lemma PathSide(hashes: Hashes, heights: map<nat, Header>, genesis: Header, tip: Header, h: Header, more: Hashes)
    requires Linked(hashes, genesis) && Stored(hashes, tip) && h.hash !in hashes && Path(hashes, heights, tip, tip.height + 1)
    requires more == hashes[h.hash := h]
    ensures Path(more, heights, tip, tip.height + 1)
  {
    forall n: nat {:trigger OnPath(more, heights, tip, tip.height + 1, n)}
      ensures OnPath(more, heights, tip, tip.height + 1, n)
    {
      assert OnPath(hashes, heights, tip, tip.height + 1, n);
      AncGrow(hashes, genesis, h, tip, n);
    }
  }

  lemma PathNext(hashes: Hashes, heights: map<nat, Header>, tip: Header, h: Header)
    requires Extends(hashes, h) && hashes[h.prev] == tip && Path(hashes, heights, tip, tip.height + 1)
    ensures Path(hashes, heights, h, h.height)
  {
    forall n: nat {:trigger OnPath(hashes, heights, h, h.height, n)}
      ensures OnPath(hashes, heights, h, h.height, n)
    {
      assert OnPath(hashes, heights, tip, tip.height + 1, n);
    }
  }

  // A header with no more work than the tip leaves the main chain alone.
  lemma CoreSide(hashes: Hashes, heights: map<nat, Header>, genesis: Header, tip: Header, h: Header, more: Hashes)
    requires Core(hashes, heights, genesis, tip) && Extends(hashes, h) && h.hash !in hashes && BE(h.work) <= BE(tip.work)
    requires more == hashes[h.hash := h]
    ensures Core(more, heights, genesis, tip)
  {
    LinkedGrow(hashes, genesis, h);
    PathSide(hashes, heights, genesis, tip, h, more);
    forall k: Hash
      ensures BestAt(more, tip, k)
    {
      assert BestAt(hashes, tip, k);
    }
  }

  // A header with more work becomes the tip once the heights below it are its own.
  lemma CoreTip(hashes: Hashes, heights: map<nat, Header>, genesis: Header, tip: Header, h: Header,
                more: Hashes, up: map<nat, Header>)
    requires Linked(hashes, genesis) && Best(hashes, tip) && Path(hashes, heights, h, h.height)
    requires Extends(hashes, h) && h.hash !in hashes && BE(h.work) > BE(tip.work)
    requires more == hashes[h.hash := h] && up == heights[h.height := h]
    ensures Core(more, up, genesis, h)
  {
    LinkedGrow(hashes, genesis, h);
    PathTip(hashes, heights, genesis, h, more, up);
    forall k: Hash
      ensures BestAt(more, h, k)
    {
      assert BestAt(hashes, tip, k);
    }
  }

  // ----- The rules keep holding -----

  lemma {:induction false} TimesGrow(hashes: Hashes, genesis: Header, c: Header, h: Header, n: nat)
    requires Linked(hashes, genesis) && Stored(hashes, h) && c.hash !in hashes && c.hash != genesis.prev
    ensures Times(hashes[c.hash := c], h, n) == Times(hashes, h, n)
    decreases n
  {
    assert LinkedAt(hashes, genesis, h.hash);
    if n > 0 && h.prev in hashes {
      assert LinkedAt(hashes, genesis, h.prev);
      TimesGrow(hashes, genesis, c, hashes[h.prev], n - 1);
    }
  }

  lemma NextBitsGrow(hashes: Hashes, genesis: Header, c: Header, h: Header)
    requires Linked(hashes, genesis) && Stored(hashes, h) && c.hash !in hashes
    ensures NextBits(hashes[c.hash := c], h) == NextBits(hashes, h)
  {
    var n := h.height;
    if n >= 144 + 2 {
      forall m: nat
        ensures Anc(hashes[c.hash := c], h, m) == Anc(hashes, h, m)
      {
        AncGrow(hashes, genesis, c, h, m);
      }
    }
  }

  // Storing a header that passes the rules leaves every other one passing them.
  lemma RuledGrow(hashes: Hashes, genesis: Header, h: Header)
    requires Linked(hashes, genesis) && Ruled(hashes, genesis) && Extends(hashes, h) && h.hash !in hashes
    requires PowVerdict(h) == SUCCESS && InsertVerdict(hashes, h, hashes[h.prev]) == SUCCESS
    ensures Ruled(hashes[h.hash := h], genesis)
  {
    var more := hashes[h.hash := h];
    forall k: Hash
      ensures RuledAt(more, genesis, k)
    {
      if k in more && k != genesis.hash {
        var prev := more[k].prev;
        assert RuledAt(hashes, genesis, k) && LinkedAt(hashes, genesis, k) && LinkedAt(hashes, genesis, prev);
        NextBitsGrow(hashes, genesis, h, hashes[prev]);
        if genesis.prev !in more {
          TimesGrow(hashes, genesis, h, hashes[prev], TIMESPAN);
        }
      }
    }
  }

  // ----- Reorganisation -----

  // The headers from a down to, but not including, height h.
  ghost predicate DownTo(hashes: Hashes, a: Header, h: nat, s: seq<Header>) {
    h + |s| == a.height && forall i :: 0 <= i < |s| ==> s[i] == Anc(hashes, a, a.height - i)
  }

  method Disconnected(hashes: Hashes, tip: Header, fork: Header, ghost genesis: Header) returns (s: seq<Header>)
    requires Linked(hashes, genesis) && Stored(hashes, tip) && fork.height <= tip.height && fork == Anc(hashes, tip, fork.height)
    ensures DownTo(hashes, tip, fork.height, s)
    ensures forall i :: 0 <= i < |s| ==> s[i].height == tip.height - i
  {
    var entry := tip;
    s := [];
    AncStored(hashes, genesis, tip, fork.height);
    while entry.hash != fork.hash
      invariant fork.height <= entry.height <= tip.height && Stored(hashes, entry) && entry == Anc(hashes, tip, entry.height)
      invariant DownTo(hashes, tip, entry.height, s)
      invariant forall i :: 0 <= i < |s| ==> s[i].height == tip.height - i
      decreases entry.height
    {
      s := s + [entry];
      AncStep(hashes, genesis, tip, entry.height);
      AncStored(hashes, genesis, tip, entry.height - 1);
      entry := hashes[entry.prev];
    }
  }

  // The headers above height h up to c, lowest first.
  ghost predicate UpFrom(hashes: Hashes, c: Header, h: nat, s: seq<Header>) {
    h + |s| == c.height && forall i :: 0 <= i < |s| ==> s[i] == Anc(hashes, c, h + 1 + i) && s[i].height == h + 1 + i
  }

  method Connected(hashes: Hashes, c: Header, fork: Header, ghost genesis: Header) returns (s: seq<Header>)
    requires Linked(hashes, genesis) && Extends(hashes, c) && c.hash !in hashes
    requires Stored(hashes, fork) && fork.height <= c.height && fork == Anc(hashes, c, fork.height)
    ensures UpFrom(hashes, c, fork.height, s) && s != []
  {
    var entry := c;
    s := [];
    while entry.hash != fork.hash
      invariant fork.height <= entry.height <= c.height && entry == Anc(hashes, c, entry.height)
      invariant entry == c || Stored(hashes, entry)
      invariant UpFrom(hashes, c, entry.height, s)
      invariant s == [] ==> entry == c
      decreases entry.height
    {
      ghost var above := s;
      s := [entry] + s;
      LongerStep(hashes, genesis, c, entry);
      entry := hashes[entry.prev];
      assert forall i :: 0 < i < |s| ==> s[i] == above[i - 1];
    }
  }

  // r is heights without those above low up to top.
  ghost predicate Cleared(heights: map<nat, Header>, low: int, top: nat, r: map<nat, Header>) {
    && (forall n :: n in r <==> n in heights && !(low < n <= top))
    && (forall n :: n in r ==> r[n] == heights[n])
  }

  method DeleteHeights(heights: map<nat, Header>, s: seq<Header>, ghost top: nat) returns (r: map<nat, Header>)
    requires |s| <= top + 1 && forall i :: 0 <= i < |s| ==> s[i].height == top - i
    ensures Cleared(heights, top - |s|, top, r)
  {
    r := heights;
    for i := 0 to |s|
      invariant Cleared(heights, top - i, top, r)
    {
      r := r - {s[i].height};
    }
  }

  // r is heights with s above low and below top.
  ghost predicate Filled(heights: map<nat, Header>, s: seq<Header>, low: nat, top: nat, r: map<nat, Header>)
    requires top <= low + |s|
  {
    && (forall n :: n in r <==> n in heights || low < n < top)
    && (forall n :: n in r ==> r[n] == if low < n < top then s[n - low - 1] else heights[n])
  }

  // All but the last, which is saved later.
  method SetHeights(heights: map<nat, Header>, s: seq<Header>, ghost low: nat) returns (r: map<nat, Header>)
    requires s != [] && forall i :: 0 <= i < |s| ==> s[i].height == low + 1 + i
    ensures Filled(heights, s, low, low + |s|, r)
  {
    r := heights;
    for i := 0 to |s| - 1
      invariant Filled(heights, s, low, low + i + 1, r)
    {
      r := r[s[i].height := s[i]];
    }
  }

  // Below the fork both branches have the same ancestors.
  lemma SharedBelow(hashes: Hashes, genesis: Header, tip: Header, c: Header, f: Header, n: nat)
    requires Linked(hashes, genesis) && Stored(hashes, tip) && Extends(hashes, c)
    requires IsFork(hashes, tip, c, f) && f.height < c.height && n <= f.height
    ensures Anc(hashes, tip, n) == Anc(hashes, c, n)
  {
    assert LinkedAt(hashes, genesis, c.prev);
    AncAnc(hashes, genesis, tip, f.height, n);
    AncNew(hashes, c, f.height);
    AncNew(hashes, c, n);
    AncAnc(hashes, genesis, hashes[c.prev], f.height, n);
  }

  lemma Reorganized(hashes: Hashes, genesis: Header, heights: map<nat, Header>, tip: Header, c: Header, f: Header,
                    s: seq<Header>, mid: map<nat, Header>, after: map<nat, Header>)
    requires Linked(hashes, genesis) && Stored(hashes, tip) && Extends(hashes, c) && Path(hashes, heights, tip, tip.height + 1)
    requires IsFork(hashes, tip, c, f) && UpFrom(hashes, c, f.height, s) && s != []
    requires Cleared(heights, f.height, tip.height, mid) && Filled(mid, s, f.height, c.height, after)
    ensures Path(hashes, after, c, c.height)
  {
    forall n: nat {:trigger OnPath(hashes, after, c, c.height, n)}
      ensures OnPath(hashes, after, c, c.height, n)
    {
      assert OnPath(hashes, heights, tip, tip.height + 1, n);
      if n <= f.height {
        SharedBelow(hashes, genesis, tip, c, f, n);
      }
    }
  }

  // ----- Orphans -----

  lemma Adopt(hashes: Hashes, orphans: Hashes, prevs: Hashes, x: Hash, more: Hashes)
    requires Orphanage(hashes, orphans, prevs, None) && x !in orphans && more.Keys == hashes.Keys + {x}
    ensures Orphanage(more, orphans, prevs, Some(x))
  {
    forall k: Hash
      ensures OrphanAt(more, orphans, k)
    {
      assert OrphanAt(hashes, orphans, k);
    }
    forall p: Hash {:trigger PrevAt(more, orphans, prevs, Some(x), p)}
      ensures PrevAt(more, orphans, prevs, Some(x), p)
    {
      assert PrevAt(hashes, orphans, prevs, None, p);
    }
  }

  lemma Resolved(hashes: Hashes, orphans: Hashes, prevs: Hashes, x: Hash, o: Header, left: Hashes, waiting: Hashes)
    requires Orphanage(hashes, orphans, prevs, Some(x)) && x in prevs && o == prevs[x]
    requires left == orphans - {o.hash} && waiting == prevs - {o.prev}
    ensures Orphanage(hashes, left, waiting, None) && |waiting| < |prevs|
    ensures o.prev == x && o.hash !in hashes && o.hash in orphans && PowVerdict(o) == SUCCESS
  {
    assert PrevAt(hashes, orphans, prevs, Some(x), x);
    assert OrphanAt(hashes, orphans, o.hash);
    forall k: Hash {:trigger OrphanAt(hashes, left, k)}
      ensures OrphanAt(hashes, left, k)
    {
      assert OrphanAt(hashes, orphans, k);
    }
    forall p: Hash {:trigger PrevAt(hashes, left, waiting, None, p)}
      ensures PrevAt(hashes, left, waiting, None, p)
    {
      assert PrevAt(hashes, orphans, prevs, Some(x), p);
    }
    assert prevs == waiting[x := o];
  }

  lemma NoneWaits(hashes: Hashes, orphans: Hashes, prevs: Hashes, x: Hash)
    requires Orphanage(hashes, orphans, prevs, Some(x)) && x !in prevs
    ensures Orphanage(hashes, orphans, prevs, None)
  {
    forall p: Hash {:trigger PrevAt(hashes, orphans, prevs, None, p)}
      ensures PrevAt(hashes, orphans, prevs, None, p)
    {
      assert PrevAt(hashes, orphans, prevs, Some(x), p);
    }
  }

  lemma NewOrphan(hashes: Hashes, orphans: Hashes, prevs: Hashes, h: Header, more: Hashes, waiting: Hashes)
    requires Orphanage(hashes, orphans, prevs, None)
    requires h.hash !in hashes && h.hash !in orphans && h.prev !in hashes && PowVerdict(h) == SUCCESS
    requires more == orphans[h.hash := h] && waiting == prevs[h.prev := h]
    ensures Orphanage(hashes, more, waiting, None)
  {
    forall k: Hash {:trigger OrphanAt(hashes, more, k)}
      ensures OrphanAt(hashes, more, k)
    {
      assert OrphanAt(hashes, orphans, k);
    }
    forall p: Hash {:trigger PrevAt(hashes, more, waiting, None, p)}
      ensures PrevAt(hashes, more, waiting, None, p)
    {
      assert PrevAt(hashes, orphans, prevs, None, p);
    }
  }

  lemma NoOrphans(hashes: Hashes)
    ensures Orphanage(hashes, map[], map[], None)
  {
    forall k: Hash {:trigger OrphanAt(hashes, map[], k)}
      ensures OrphanAt(hashes, map[], k)
    {
    }
    forall p: Hash {:trigger PrevAt(hashes, map[], map[], None, p)}
      ensures PrevAt(hashes, map[], map[], None, p)
    {
    }
  }

  // The first decision about a header, before any orphan is resolved.
  function AddVerdict(hashes: Hashes, orphans: Hashes, h: Header, now: nat): int {
    if h.time > now + 2 * 60 * 60 then ETIMETOONEW
    else if h.hash in hashes then EDUPLICATE
    else if h.hash in orphans then EDUPLICATEORPHAN
    else if PowVerdict(h) != SUCCESS then PowVerdict(h)
    else if h.prev !in hashes then EORPHAN
    else InsertVerdict(hashes, h, hashes[h.prev])
  }

  // h joins the orphans, which are first cleared if there are too many.
  predicate OrphanKept(orphans: Hashes, prevs: Hashes, h: Header, more: Hashes, waiting: Hashes) {
    && more == (if |orphans| > MAX_ORPHANS then map[] else orphans)[h.hash := h]
    && waiting == (if |orphans| > MAX_ORPHANS then map[] else prevs)[h.prev := h]
  }

  // Stored headers stay; the new ones are h and former orphans.
  ghost predicate Grown(before: Hashes, after: Hashes, h: Header, orphans: Hashes) {
    && (forall k :: k in before ==> k in after && after[k] == before[k])
    && (forall k :: k in after ==> k in before || k == h.hash || k in orphans)
  }

  lemma GrownOn(a: Hashes, b: Hashes, d: Hashes, h: Header, hdr: Header, orphans: Hashes, left: Hashes)
    requires Grown(a, b, h, orphans) && Grown(b, d, hdr, left) && left.Keys <= orphans.Keys
    requires hdr.hash in b || hdr.hash in orphans
    ensures Grown(a, d, h, orphans)
  {
  }

  // The orphan that waited for p waits still, or p and the orphan are stored, or the rules
  // refuse it below p and the code says so.
  ghost predicate AdoptedAt(was: Hashes, hashes: Hashes, prevs: Hashes, rc: int, p: Hash) {
    p in was && p !in prevs ==>
      p in hashes && (was[p].hash in hashes || (rc != SUCCESS && rc == InsertVerdict(hashes, was[p], hashes[p])))
  }

  ghost predicate Adopted(was: Hashes, hashes: Hashes, prevs: Hashes, rc: int) {
    forall p: Hash {:trigger AdoptedAt(was, hashes, prevs, rc, p)} :: AdoptedAt(was, hashes, prevs, rc, p)
  }

  // On the way, when prev has just been stored.
  ghost predicate AdoptingAt(was: Hashes, hashes: Hashes, prevs: Hashes, prev: Hash, p: Hash) {
    p in was ==> (p in prevs && prevs[p] == was[p]) || (p != prev && p !in prevs && p in hashes && was[p].hash in hashes)
  }

  ghost predicate Adopting(was: Hashes, hashes: Hashes, prevs: Hashes, prev: Hash) {
    forall p: Hash {:trigger AdoptingAt(was, hashes, prevs, prev, p)} :: AdoptingAt(was, hashes, prevs, prev, p)
  }

  // The orphan below prev is stored, as next.
  lemma AdoptNext(was: Hashes, hashes: Hashes, prevs: Hashes, prev: Hash, more: Hashes, left: Hashes, next: Hash)
    requires Adopting(was, hashes, prevs, prev) && prev in hashes && prev in prevs && left == prevs - {prev}
    requires next == prevs[prev].hash && next !in hashes && more.Keys == hashes.Keys + {next}
    ensures next in left ==> left[next] == prevs[next]
    ensures Adopting(was, more, left, next)
  {
    forall p: Hash {:trigger AdoptingAt(was, more, left, next, p)}
      ensures AdoptingAt(was, more, left, next, p)
    {
      assert AdoptingAt(was, hashes, prevs, prev, p);
    }
  }

  // Or it is refused, or there is none.
  lemma AdoptLast(was: Hashes, hashes: Hashes, prevs: Hashes, prev: Hash, left: Hashes, rc: int)
    requires Adopting(was, hashes, prevs, prev) && prev in hashes && left == prevs - {prev}
    requires prev in prevs ==> rc != SUCCESS && rc == InsertVerdict(hashes, prevs[prev], hashes[prev])
    ensures Adopted(was, hashes, left, rc)
  {
    forall p: Hash {:trigger AdoptedAt(was, hashes, left, rc, p)}
      ensures AdoptedAt(was, hashes, left, rc, p)
    {
      assert AdoptingAt(was, hashes, prevs, prev, p);
    }
  }

  datatype Book = Book(hashes: Hashes, heights: map<nat, Header>, orphans: Hashes, prevs: Hashes, tip: Header)

  // A header below a stored parent: refused with nothing changed, or stored.
  ghost predicate ConnectOutcome(b: Book, a: Book, h: Header, rc: int)
    requires h.prev in b.hashes
  {
    var v := InsertVerdict(b.hashes, h, b.hashes[h.prev]);
    if v != SUCCESS then rc == v && a == b
    else
      && h.hash in a.hashes && a.hashes[h.hash] == h.(height := a.hashes[h.hash].height, work := a.hashes[h.hash].work)
      && Grown(b.hashes, a.hashes, h, b.orphans) && a.orphans.Keys <= b.orphans.Keys
      && Adopted(b.prevs, a.hashes, a.prevs, rc)
  }

  ghost predicate Added(b: Book, a: Book, h: Header, now: nat, rc: int) {
    var v := AddVerdict(b.hashes, b.orphans, h, now);
    if h.time <= now + 2 * 60 * 60 && h.hash !in b.hashes && h.hash !in b.orphans && PowVerdict(h) == SUCCESS && h.prev in b.hashes
    then ConnectOutcome(b, a, h, rc)
    else if v == EORPHAN
    then rc == v && a == b.(orphans := a.orphans, prevs := a.prevs) && OrphanKept(b.orphans, b.prevs, h, a.orphans, a.prevs)
    else rc == v && a == b
  }

  // The header's hash is at most the target that its bits stand for.
  predicate Worked(h: Header) {
    Decode(h.bits).Some? && BE(h.hash) <= Decode(h.bits).value
  }

  // When a new header is stored: it is not too far ahead of the clock, is no orphan
  // already, has done its work and has a stored parent; and it is later than the median
  // of the times before it, and has the bits that are required.
  predicate Storable(b: Book, h: Header, now: nat) {
    && h.time <= now + 2 * 60 * 60 && h.hash !in b.orphans && Worked(h) && h.prev in b.hashes
    && Signed64(h.time) > MedianTime(b.hashes, b.hashes[h.prev]) && h.bits == NextBits(b.hashes, b.hashes[h.prev])
  }

  // The code of a header that is not stored says what is wrong with it.
  predicate RightCode(b: Book, h: Header, now: nat, rc: int) {
    if rc == ETIMETOONEW then h.time > now + 2 * 60 * 60
    else if rc == EDUPLICATE then h.hash in b.hashes
    else if rc == EDUPLICATEORPHAN then h.hash in b.orphans
    else if rc == ENEGTARGET then Decode(h.bits).None?
    else if rc == EHIGHHASH then Decode(h.bits).Some? && BE(h.hash) > Decode(h.bits).value
    else if rc == EORPHAN then Worked(h) && h.prev !in b.hashes
    else if rc == ETIMETOOOLD then h.prev in b.hashes && Signed64(h.time) <= MedianTime(b.hashes, b.hashes[h.prev])
    else rc == EBADDIFFBITS && h.prev in b.hashes && h.bits != NextBits(b.hashes, b.hashes[h.prev])
  }

  lemma StoredExactly(b: Book, a: Book, h: Header, now: nat, rc: int)
    requires Added(b, a, h, now, rc)
    ensures h.hash !in b.hashes ==> (h.hash in a.hashes <==> Storable(b, h, now))
    ensures h.hash in b.hashes || !Storable(b, h, now) ==> RightCode(b, h, now, rc) && a.hashes == b.hashes
  {
  }

  // The tip only changes to one with strictly more work.
  predicate Improves(before: Header, after: Header) {
    after == before || BE(after.work) > BE(before.work)
  }

  // h is stored above prev with its height and work filled in, and is the new
  // tip exactly when it has more work.
  predicate Inserted(before: Hashes, tip: Header, h: Header, prev: Header, hdr: Header, after: Hashes, newTip: Header) {
    && Decode(h.bits).Some? && hdr == h.(height := prev.height + 1, work := hdr.work)
    && BE(hdr.work) == TotalWork(BE(prev.work), Decode(h.bits).value)
    && after == before[h.hash := hdr] && newTip == if BE(hdr.work) > BE(tip.work) then hdr else tip
  }

  lemma InsertedGrown(before: Hashes, tip: Header, h: Header, prev: Header, hdr: Header, after: Hashes, newTip: Header, orphans: Hashes)
    requires Inserted(before, tip, h, prev, hdr, after, newTip) && h.hash !in before
    ensures hdr.hash == h.hash && Stored(after, hdr) && after.Keys == before.Keys + {h.hash}
    ensures Grown(before, after, hdr, orphans) && Improves(tip, newTip)
  {
  }

  // ----- The chain -----

  class HeaderChain {
    const genesis: Header
    var hashes: Hashes
    var heights: map<nat, Header>
    var orphans: Hashes
    var prevs: Hashes
    var tip: Header
    var height: nat

    ghost predicate Sound()
      reads this
    {
      Core(hashes, heights, genesis, tip) && height == tip.height
    }

    ghost predicate Lawful()
      reads this
    {
      Sound() && Ruled(hashes, genesis)
    }

    ghost predicate Valid()
      reads this
    {
      Lawful() && Orphanage(hashes, orphans, prevs, None)
    }

    constructor (g: Header)
      requires g.height == 0 && Decode(g.bits).Some?
      ensures Valid() && tip == genesis && genesis == g.(work := genesis.work)
      ensures BE(genesis.work) == ProofOf(Decode(g.bits).value)
    {
      var proof := GetProof(g.bits);
      var h := g.(work := proof.value);
      genesis := h;
      hashes := map[h.hash := h];
      heights := map[h.height := h];
      orphans, prevs := map[], map[];
      tip, height := h, h.height;
      new;
      forall k: Hash
        ensures LinkedAt(hashes, genesis, k)
      {
      }
      forall n: nat {:trigger OnPath(hashes, heights, tip, tip.height + 1, n)}
        ensures OnPath(hashes, heights, tip, tip.height + 1, n)
      {
      }
    }

    // Makes room on the main chain for a header on another branch.
    method Reorganize(competitor: Header)
      requires Sound() && Extends(hashes, competitor) && competitor.hash !in hashes
      modifies this`heights
      ensures Path(hashes, heights, competitor, competitor.height)
    {
      var fork := FindFork(hashes, tip, competitor, genesis);
      var disconnect := Disconnected(hashes, tip, fork, genesis);
      var connect := Connected(hashes, competitor, fork, genesis);
      ghost var before := heights;
      heights := DeleteHeights(heights, disconnect, tip.height);
      ghost var mid := heights;
      heights := SetHeights(heights, connect, fork.height);
      Reorganized(hashes, genesis, before, tip, competitor, fork, connect, mid, heights);
    }

    method Save(hdr: Header)
      requires Linked(hashes, genesis) && Extends(hashes, hdr) && hdr.hash !in hashes && Path(hashes, heights, hdr, hdr.height)
      requires Best(hashes, tip) && BE(hdr.work) > BE(tip.work)
      modifies this`hashes, this`heights, this`tip, this`height
      ensures Sound() && tip == hdr && hashes == old(hashes)[hdr.hash := hdr]
    {
      CoreTip(hashes, heights, genesis, tip, hdr, hashes[hdr.hash := hdr], heights[hdr.height := hdr]);
      hashes := hashes[hdr.hash := hdr];
      heights := heights[hdr.height := hdr];
      height := hdr.height;
      tip := hdr;
    }

    // Stores a header, on the main chain if it has more work than the tip.
    method Place(hdr: Header)
      requires Sound() && hdr.hash !in hashes && Extends(hashes, hdr)
      modifies this`hashes, this`heights, this`tip, this`height
      ensures Sound() && hashes == old(hashes)[hdr.hash := hdr]
      ensures tip == if BE(hdr.work) > BE(old(tip).work) then hdr else old(tip)
    {
      var c := MemCmp(hdr.work, tip.work);
      if c <= 0 {
        CoreSide(hashes, heights, genesis, tip, hdr, hashes[hdr.hash := hdr]);
        hashes := hashes[hdr.hash := hdr];
      } else {
        if hdr.prev != tip.hash {
          Reorganize(hdr);
        } else {
          PathNext(hashes, heights, tip, hdr);
        }
        Save(hdr);
      }
    }

    // Checks a header against its parent, and stores it.
    method Insert(h: Header, prev: Header) returns (rc: int, hdr: Header)
      requires Lawful() && h.hash !in hashes && h.prev in hashes && hashes[h.prev] == prev && PowVerdict(h) == SUCCESS
      modifies this`hashes, this`heights, this`tip, this`height
      ensures Lawful() && rc == InsertVerdict(old(hashes), h, prev)
      ensures rc != SUCCESS ==> hashes == old(hashes) && heights == old(heights) && tip == old(tip)
      ensures rc == SUCCESS ==> Inserted(old(hashes), old(tip), h, prev, hdr, hashes, tip)
    {
      hdr := h;
      assert Stored(hashes, prev) by { assert LinkedAt(hashes, genesis, h.prev); }
      var mtp := GetMtp(hashes, prev);
      if Signed64(hdr.time) <= mtp {
        return ETIMETOOOLD, hdr;
      }
      var bits := GetTarget(hashes, prev, genesis);
      if hdr.bits != bits {
        return EBADDIFFBITS, hdr;
      }
      var work := CalcWork(hdr.bits, prev.work);
      hdr := hdr.(height := prev.height + 1, work := work.value);
      RuledGrow(hashes, genesis, hdr);
      Place(hdr);
      return SUCCESS, hdr;
    }

    method ResolveOrphan(hash: Hash) returns (o: Option<Header>)
      requires Orphanage(hashes, orphans, prevs, Some(hash))
      modifies this`orphans, this`prevs
      ensures Orphanage(hashes, orphans, prevs, None)
      ensures o == Lookup(old(prevs), hash) && prevs == old(prevs) - {hash} && (o.None? ==> orphans == old(orphans))
      ensures o.Some? ==> o.value.prev == hash && o.value.hash !in hashes && PowVerdict(o.value) == SUCCESS && |prevs| < old(|prevs|)
      ensures o.Some? ==> o.value.hash in old(orphans) && orphans == old(orphans) - {o.value.hash}
    {
      if hash !in prevs {
        NoneWaits(hashes, orphans, prevs, hash);
        return None;
      }
      var orphan := prevs[hash];
      Resolved(hashes, orphans, prevs, hash, orphan, orphans - {orphan.hash}, prevs - {orphan.prev});
      prevs := prevs - {orphan.prev};
      orphans := orphans - {orphan.hash};
      return Some(orphan);
    }

    // Inserts the orphan that waits for a header just stored, if there is one.
    method Adoption(prev: Header) returns (rc: int, next: Option<Header>)
      requires Lawful() && Stored(hashes, prev) && Orphanage(hashes, orphans, prevs, Some(prev.hash))
      modifies this`hashes, this`heights, this`tip, this`height, this`orphans, this`prevs
      ensures Lawful() && Improves(old(tip), tip) && orphans.Keys <= old(orphans).Keys
      ensures next.None? ==> Orphanage(hashes, orphans, prevs, None) && hashes == old(hashes)
      ensures next.Some? ==> Orphanage(hashes, orphans, prevs, Some(next.value.hash)) && |prevs| < old(|prevs|)
      ensures next.Some? ==>
        Stored(hashes, next.value) && Grown(old(hashes), hashes, next.value, old(orphans)) && next.value.hash in old(orphans)
      ensures prevs == old(prevs) - {prev.hash} && (rc == SUCCESS <==> next.Some? || prev.hash !in old(prevs))
      ensures next.Some? ==> prev.hash in old(prevs) && next.value.hash == old(prevs)[prev.hash].hash
      ensures next.Some? ==> next.value.hash !in old(hashes) && hashes.Keys == old(hashes).Keys + {next.value.hash}
      ensures next.None? && prev.hash in old(prevs) ==> rc == InsertVerdict(hashes, old(prevs)[prev.hash], prev)
    {
      rc, next := SUCCESS, None;
      var o := ResolveOrphan(prev.hash);
      if o.Some? {
        ghost var before, top := hashes, tip;
        var hdr;
        rc, hdr := Insert(o.value, prev);
        if rc == SUCCESS {
          InsertedGrown(before, top, o.value, prev, hdr, hashes, tip, old(orphans));
          Adopt(before, orphans, prevs, hdr.hash, hashes);
          next := Some(hdr);
        }
      }
    }

    // Inserts the orphans that descend, one each, from a header just stored.
    method ResolveOrphans(first: Header) returns (rc: int)
      requires Lawful() && Stored(hashes, first) && Orphanage(hashes, orphans, prevs, Some(first.hash))
      modifies this`hashes, this`heights, this`tip, this`height, this`orphans, this`prevs
      ensures Valid() && Grown(old(hashes), hashes, first, old(orphans)) && Improves(old(tip), tip)
      ensures orphans.Keys <= old(orphans).Keys && Adopted(old(prevs), hashes, prevs, rc)
    {
      var prev := first;
      while true
        invariant Lawful() && Stored(hashes, prev) && Orphanage(hashes, orphans, prevs, Some(prev.hash))
        invariant Grown(old(hashes), hashes, first, old(orphans)) && Improves(old(tip), tip)
        invariant orphans.Keys <= old(orphans).Keys && Adopting(old(prevs), hashes, prevs, prev.hash)
        decreases |prevs|
      {
        ghost var before, left, waiting := hashes, orphans, prevs;
        var next;
        rc, next := Adoption(prev);
        if next.None? {
          AdoptLast(old(prevs), hashes, waiting, prev.hash, prevs, rc);
          return;
        }
        AdoptNext(old(prevs), before, waiting, prev.hash, hashes, prevs, next.value.hash);
        GrownOn(old(hashes), before, hashes, first, next.value, old(orphans), left);
        prev := next.value;
      }
    }

    // Inserts a header whose parent is stored, and the orphans that follow it.
    method Connect(h: Header) returns (rc: int)
      requires Valid() && h.hash !in hashes && h.hash !in orphans && h.prev in hashes && PowVerdict(h) == SUCCESS
      modifies this`hashes, this`heights, this`tip, this`height, this`orphans, this`prevs
      ensures Valid() && Improves(old(tip), tip)
      ensures ConnectOutcome(old(State()), State(), h, rc)
    {
      ghost var before := hashes;
      var hdr;
      rc, hdr := Insert(h, hashes[h.prev]);
      if rc != SUCCESS {
        return rc;
      }
      Adopt(before, orphans, prevs, h.hash, hashes);
      rc := ResolveOrphans(hdr);
    }

    ghost function State(): Book
      reads this
    {
      Book(hashes, heights, orphans, prevs, tip)
    }

    // Every return keeps the invariant; a refused header changes nothing, an
    // orphan only the orphan maps, and a stored one is followed by its orphans.
    method Add(h: Header, now: nat) returns (rc: int)
      requires Valid()
      modifies this`hashes, this`heights, this`tip, this`height, this`orphans, this`prevs
      ensures Valid() && Improves(old(tip), tip)
      ensures Added(old(State()), State(), h, now, rc)
      ensures h.hash !in old(hashes) ==> (h.hash in hashes <==> Storable(old(State()), h, now))
      ensures h.hash in old(hashes) || !Storable(old(State()), h, now) ==> RightCode(old(State()), h, now, rc) && hashes == old(hashes)
    {
      if h.time > now + 2 * 60 * 60 {
        return ETIMETOONEW;
      }
      if h.hash in hashes {
        return EDUPLICATE;
      }
      if h.hash in orphans {
        return EDUPLICATEORPHAN;
      }
      rc := VerifyPow(h);
      if rc != SUCCESS {
        return rc;
      }
      if h.prev !in hashes {
        AddOrphan(h);
        StoredExactly(old(State()), State(), h, now, EORPHAN);
        return EORPHAN;
      }
      rc := Connect(h);
      StoredExactly(old(State()), State(), h, now, rc);
    }

    method AddOrphan(h: Header)
      requires Orphanage(hashes, orphans, prevs, None)
      requires h.hash !in hashes && h.hash !in orphans && h.prev !in hashes && PowVerdict(h) == SUCCESS
      modifies this`orphans, this`prevs
      ensures Orphanage(hashes, orphans, prevs, None)
      ensures OrphanKept(old(orphans), old(prevs), h, orphans, prevs)
    {
      if |orphans| > MAX_ORPHANS {
        prevs := map[];
        orphans := map[];
        NoOrphans(hashes);
      }
      NewOrphan(hashes, orphans, prevs, h, orphans[h.hash := h], prevs[h.prev := h]);
      orphans := orphans[h.hash := h];
      prevs := prevs[h.prev := h];
    }
  }

  // ----- Consequences -----

  // heights is the chain of parents from the tip down to the genesis block.
  lemma MainChain(hashes: Hashes, heights: map<nat, Header>, genesis: Header, tip: Header, n: nat)
    requires Core(hashes, heights, genesis, tip)
    ensures n in heights <==> n <= tip.height
    ensures n <= tip.height ==> Stored(hashes, heights[n]) && heights[n].height == n
    ensures 0 < n <= tip.height ==> n - 1 in heights && heights[n].prev == heights[n - 1].hash
    ensures 0 in heights && heights[0] == genesis && tip.height in heights && heights[tip.height] == tip
  {
    assert OnPath(hashes, heights, tip, tip.height + 1, n);
    assert OnPath(hashes, heights, tip, tip.height + 1, tip.height);
    assert OnPath(hashes, heights, tip, tip.height + 1, 0);
    AncStored(hashes, genesis, tip, 0);
    OnlyGenesis(hashes, genesis, Anc(hashes, tip, 0));
    if n <= tip.height {
      AncStored(hashes, genesis, tip, n);
      if n > 0 {
        assert OnPath(hashes, heights, tip, tip.height + 1, n - 1);
        AncStep(hashes, genesis, tip, n);
        assert LinkedAt(hashes, genesis, heights[n].prev);
      }
    }
  }

  // Total work has not wrapped 256 bits anywhere in the tree.
  ghost predicate NoWrap(hashes: Hashes, genesis: Header) {
    forall k :: k in hashes && k != genesis.hash && hashes[k].prev in hashes && Decode(hashes[k].bits).Some? ==>
      BE(hashes[hashes[k].prev].work) + ProofOf(Decode(hashes[k].bits).value) < P256(32)
  }

  lemma {:induction false} WorkGrows(hashes: Hashes, genesis: Header, h: Header, m: nat)
    requires Linked(hashes, genesis) && NoWrap(hashes, genesis) && Stored(hashes, h) && m <= h.height
    ensures BE(Anc(hashes, h, m).work) <= BE(h.work)
    decreases h.height
  {
    if m < h.height {
      Parent(hashes, genesis, h);
      WorkGrows(hashes, genesis, hashes[h.prev], m);
      WorkStep(hashes, genesis, h, P256(32));
    }
  }

  lemma SumKept(w: nat, p: nat, top: nat)
    requires w + p < top
    ensures (w + p) % top == w + p
  {
    ModCarry(w + p, w + p, 0, top);
  }

  lemma WorkStep(hashes: Hashes, genesis: Header, h: Header, top: nat)
    requires Linked(hashes, genesis) && NoWrap(hashes, genesis) && Stored(hashes, h) && h.height > 0 && top == P256(32)
    ensures h.prev in hashes && BE(hashes[h.prev].work) <= BE(h.work)
  {
    Parent(hashes, genesis, h);
    SumKept(BE(hashes[h.prev].work), ProofOf(Decode(h.bits).value), top);
  }

  // The proofs of a header and of all below it on its branch.
  function BranchWork(hashes: Hashes, h: Header): nat
    decreases h.height
  {
    (if Decode(h.bits).Some? then ProofOf(Decode(h.bits).value) else 0)
    + if h.height == 0 || h.prev !in hashes || hashes[h.prev].height >= h.height then 0 else BranchWork(hashes, hashes[h.prev])
  }

  lemma AddedProof(w: nat, sum: nat, p: nat, top: nat)
    requires top > 0 && w == sum % top
    ensures (w + p) % top == (sum + p) % top
  {
    ModAdd(sum, p, top);
  }

  // In every chain the work of a stored header is the sum of the proofs on its branch,
  // cut to 256 bits.
  lemma {:induction false} WorkIsSum(hashes: Hashes, genesis: Header, h: Header)
    requires Linked(hashes, genesis) && Stored(hashes, h)
    requires Decode(genesis.bits).Some? && BE(genesis.work) == ProofOf(Decode(genesis.bits).value)
    ensures BE(h.work) == BranchWork(hashes, h) % P256(32)
    decreases h.height
  {
    if h.height == 0 {
      OnlyGenesis(hashes, genesis, h);
      BEBound(h.work);
      SumKept(BE(h.work), 0, P256(32));
    } else {
      Parent(hashes, genesis, h);
      var p := hashes[h.prev];
      WorkIsSum(hashes, genesis, p);
      AddedProof(BE(p.work), BranchWork(hashes, p), ProofOf(Decode(h.bits).value), P256(32));
      assert BranchWork(hashes, h) == BranchWork(hashes, p) + ProofOf(Decode(h.bits).value);
    }
  }

  // The bits required of the next header always decode to a target in 1..limit.
  lemma NextBitsSound(hashes: Hashes, prev: Header)
    ensures DecodesWithin(NextBits(hashes, prev), Limit())
  {
    var n := prev.height;
    if n < 144 + 2 {
      LimitWithin(HSK_BITS);
    } else {
      var first, last := SuitableFrom(hashes, prev, n - 144), SuitableFrom(hashes, prev, n);
      BEBound(first.work);
      BEBound(last.work);
      RetargetSound(BE(first.work), first.time, BE(last.work), last.time);
    }
  }

  // In every valid chain, each header above the genesis block carries a target
  // in 1..limit and hashes to at most that.
  lemma EveryTarget(hashes: Hashes, genesis: Header, h: Header)
    requires Linked(hashes, genesis) && Ruled(hashes, genesis) && Stored(hashes, h) && h.height > 0
    ensures DecodesWithin(h.bits, Limit()) && BE(h.hash) <= Decode(h.bits).value
  {
    Parent(hashes, genesis, h);
    assert RuledAt(hashes, genesis, h.hash);
    NextBitsSound(hashes, hashes[h.prev]);
  }

  // As long as total work has not wrapped, the bits are the exact encoding, over the
  // suitable headers 144 apart.
  lemma NextBitsExact(hashes: Hashes, genesis: Header, prev: Header, first: Header, last: Header)
    requires Linked(hashes, genesis) && NoWrap(hashes, genesis) && Stored(hashes, prev) && prev.height >= 146
    requires Suitable(hashes, prev, prev.height - 144, first) && Suitable(hashes, prev, prev.height, last)
    ensures BE(first.work) <= BE(last.work)
    ensures ExactBits(NextBits(hashes, prev), ScaledDifference(BE(first.work), first.time, BE(last.work), last.time), P256(32), Limit())
  {
    OneSuitable(hashes, prev, prev.height - 144, first);
    OneSuitable(hashes, prev, prev.height, last);
    FirstBeforeLast(hashes, genesis, prev);
    BEBound(last.work);
    RetargetSound(BE(first.work), first.time, BE(last.work), last.time);
  }

  lemma AncestorsGrow(hashes: Hashes, genesis: Header, h: Header, m: nat, n: nat)
    requires Linked(hashes, genesis) && NoWrap(hashes, genesis) && Stored(hashes, h) && m <= n <= h.height
    ensures BE(Anc(hashes, h, m).work) <= BE(Anc(hashes, h, n).work)
  {
    AncStored(hashes, genesis, h, n);
    AncAnc(hashes, genesis, h, n, m);
    WorkGrows(hashes, genesis, Anc(hashes, h, n), m);
  }

  lemma FirstBeforeLast(hashes: Hashes, genesis: Header, prev: Header)
    requires Linked(hashes, genesis) && NoWrap(hashes, genesis) && Stored(hashes, prev) && prev.height >= 144 + 2
    ensures BE(SuitableFrom(hashes, prev, prev.height - 144).work) <= BE(SuitableFrom(hashes, prev, prev.height).work)
  {
    var n := prev.height;
    AncestorsGrow(hashes, genesis, prev, n - 146, n - 144);
    AncestorsGrow(hashes, genesis, prev, n - 145, n - 144);
    AncestorsGrow(hashes, genesis, prev, n - 144, n - 2);
    AncestorsGrow(hashes, genesis, prev, n - 2, n - 1);
    AncestorsGrow(hashes, genesis, prev, n - 2, n);
  }

  // Any run of additions from a genesis block.
  method Run(g: Header, inputs: seq<(Header, nat)>) returns (chain: HeaderChain)
    requires g.height == 0 && Decode(g.bits).Some?
    ensures fresh(chain) && chain.Valid()
  {
    chain := new HeaderChain(g);
    for i := 0 to |inputs|
      invariant fresh(chain) && chain.Valid()
    {
      var rc := chain.Add(inputs[i].0, inputs[i].1);
    }
  }
}
