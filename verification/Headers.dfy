// Block headers, the tree they form, and ancestors in it.
module Headers {
  import opened Bytes
  import opened Work

  type Hash = b: bytes | |b| == 32 witness seq(32, i => 0)

  // The fields the chain reads; the hash is the header's cached identity.
  datatype Header = Header(hash: Hash, prev: Hash, time: uint64, bits: uint32, height: nat, work: Hash)

  type Hashes = map<Hash, Header>

  predicate Stored(hashes: Hashes, h: Header) {
    h.hash in hashes && hashes[h.hash] == h
  }

  // h's parent is stored, one below it, and h's work is added on top of it.
  predicate Extends(hashes: Hashes, h: Header) {
    && h.prev in hashes && hashes[h.prev].height + 1 == h.height
    && Decode(h.bits).Some? && BE(h.work) == TotalWork(BE(hashes[h.prev].work), Decode(h.bits).value)
  }

  ghost predicate LinkedAt(hashes: Hashes, genesis: Header, k: Hash) {
    k in hashes ==> hashes[k].hash == k && if k == genesis.hash then hashes[k] == genesis else Extends(hashes, hashes[k])
  }

  // Every stored header but the genesis block extends a stored header.
  ghost predicate Linked(hashes: Hashes, genesis: Header) {
    && Stored(hashes, genesis) && genesis.height == 0
    && forall k: Hash {:trigger LinkedAt(hashes, genesis, k)} :: LinkedAt(hashes, genesis, k)
  }

  // The ancestor of h at height n, following parents through the map.
  function Anc(hashes: Hashes, h: Header, n: nat): Header
    decreases h.height
  {
    if h.height <= n || h.prev !in hashes || hashes[h.prev].height >= h.height then h
    else Anc(hashes, hashes[h.prev], n)
  }

  lemma Parent(hashes: Hashes, genesis: Header, h: Header)
    requires Linked(hashes, genesis) && Stored(hashes, h) && h.height > 0
    ensures Extends(hashes, h) && Stored(hashes, hashes[h.prev])
  {
    assert LinkedAt(hashes, genesis, h.hash);
    assert LinkedAt(hashes, genesis, h.prev);
  }

  lemma OnlyGenesis(hashes: Hashes, genesis: Header, h: Header)
    requires Linked(hashes, genesis) && Stored(hashes, h) && h.height == 0
    ensures h == genesis
  {
    assert LinkedAt(hashes, genesis, h.hash);
  }

  lemma {:induction false} AncStored(hashes: Hashes, genesis: Header, h: Header, n: nat)
    requires Linked(hashes, genesis) && Stored(hashes, h) && n <= h.height
    ensures Stored(hashes, Anc(hashes, h, n)) && Anc(hashes, h, n).height == n
    decreases h.height
  {
    if n < h.height {
      Parent(hashes, genesis, h);
      AncStored(hashes, genesis, hashes[h.prev], n);
    }
  }

  // The parent of an ancestor is the next ancestor down.
  lemma {:induction false} AncStep(hashes: Hashes, genesis: Header, h: Header, n: nat)
    requires Linked(hashes, genesis) && Stored(hashes, h) && 0 < n <= h.height
    ensures var a := Anc(hashes, h, n); a.prev in hashes && hashes[a.prev] == Anc(hashes, h, n - 1)
    decreases h.height
  {
    Parent(hashes, genesis, h);
    if n < h.height {
      AncStep(hashes, genesis, hashes[h.prev], n);
    }
  }

  lemma {:induction false} AncAnc(hashes: Hashes, genesis: Header, h: Header, n: nat, m: nat)
    requires Linked(hashes, genesis) && Stored(hashes, h) && m <= n <= h.height
    ensures Anc(hashes, Anc(hashes, h, n), m) == Anc(hashes, h, m)
    decreases h.height
  {
    if n < h.height {
      Parent(hashes, genesis, h);
      AncAnc(hashes, genesis, hashes[h.prev], n, m);
    }
  }

  // A header that extends the map: its ancestors below itself are its parent's.
  lemma AncNew(hashes: Hashes, c: Header, n: nat)
    requires Extends(hashes, c) && n < c.height
    ensures Anc(hashes, c, n) == Anc(hashes, hashes[c.prev], n)
  {
  }

  // Storing a new header changes no ancestor.
  lemma {:induction false} AncGrow(hashes: Hashes, genesis: Header, c: Header, h: Header, n: nat)
    requires Linked(hashes, genesis) && Stored(hashes, h) && c.hash !in hashes
    ensures Anc(hashes[c.hash := c], h, n) == Anc(hashes, h, n)
    decreases h.height
  {
    if n < h.height {
      Parent(hashes, genesis, h);
      AncGrow(hashes, genesis, c, hashes[h.prev], n);
    }
  }

  lemma LinkedGrow(hashes: Hashes, genesis: Header, c: Header)
    requires Linked(hashes, genesis) && c.hash !in hashes && Extends(hashes, c)
    ensures Linked(hashes[c.hash := c], genesis)
  {
    var more := hashes[c.hash := c];
    forall k: Hash
      ensures LinkedAt(more, genesis, k)
    {
      assert LinkedAt(hashes, genesis, k);
    }
  }

  // ----- The main chain by height -----

  ghost predicate OnPath(hashes: Hashes, heights: map<nat, Header>, c: Header, top: nat, n: nat) {
    (n in heights <==> n < top) && (n in heights ==> heights[n] == Anc(hashes, c, n))
  }

  // heights holds c's ancestors at exactly the heights below top.
  ghost predicate Path(hashes: Hashes, heights: map<nat, Header>, c: Header, top: nat) {
    forall n: nat {:trigger OnPath(hashes, heights, c, top, n)} :: OnPath(hashes, heights, c, top, n)
  }

  // ----- Forks -----

  // f is the highest common ancestor of a and b.
  ghost predicate IsFork(hashes: Hashes, a: Header, b: Header, f: Header) {
    && f.height <= a.height && f.height <= b.height
    && Anc(hashes, a, f.height) == f && Anc(hashes, b, f.height) == f
    && forall n: nat {:trigger Anc(hashes, a, n)} :: f.height < n <= a.height && n <= b.height ==> Anc(hashes, a, n).hash != Anc(hashes, b, n).hash
  }
}
