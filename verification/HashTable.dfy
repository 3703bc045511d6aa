// The open-addressing hash table: three bucket states, triangular probing,
// tombstones, and a resize that rehashes inside the live arrays by kicking
// out the elements it meets.
module HashTable {
  import opened Arith
  import opened Probing
  import opened Bits
  import opened Bytes

  datatype Slot = Empty | Deleted | Live

  type uint32 = x: nat | x < WORD

  // A table of this many buckets cannot grow, and may be filled past its bound.
  const MAX_BUCKETS: nat := 0x8000_0000

  // (uint32_t)(n * 0.77 + 0.5)
  function Upper(n: nat): nat {
    (77 * n + 50) / 100
  }

  // The bucket count a resize request ends up with.
  function Buckets(request: uint32): nat {
    if RoundUp32(request) < 4 then 4 else RoundUp32(request)
  }

  // Asking for one bucket less keeps the size: it only sweeps tombstones out.
  lemma SameSize(n: nat)
    requires IsPow2(n) && 4 <= n <= 0x8000_0000
    ensures Buckets(n - 1) == n
  {
    RoundUpLeast(n - 1);
    NextPow2(n / 2, RoundUp32(n - 1));
  }

  // Asking for one bucket more doubles the table.
  lemma NextSize(n: nat)
    requires n == 0 || (IsPow2(n) && 4 <= n < 0x8000_0000)
    ensures Buckets(n + 1) == if n == 0 then 4 else 2 * n
  {
    RoundUpLeast(n + 1);
    if n > 0 {
      BelowHalf(n);
      NextPow2(n, RoundUp32(n + 1));
    }
  }

  // What comes of the request that a full load makes: below 2^31 buckets there is
  // room afterwards; at 2^31 at most a sweep takes place.
  lemma RequestRoom(n: nat, size: nat, request: uint32, b: nat)
    requires (n == 0 || (IsPow2(n) && 4 <= n <= MAX_BUCKETS)) && size <= n
    requires request == (if n > 2 * size % WORD then n - 1 else n + 1) && b == Buckets(request)
    ensures n < MAX_BUCKETS ==> size < Upper(b)
    ensures size < Upper(b) && n == MAX_BUCKETS ==> b == n && size < n
  {
    if n > 2 * size % WORD {
      SameSize(n);
    } else if n < MAX_BUCKETS {
      NextSize(n);
    } else {
      RoundUpLeast(n + 1);
    }
    assert b == if n > 2 * size % WORD then n else if n == 0 || n == MAX_BUCKETS then 4 else 2 * n;
    LoadRoom(n, size, b);
  }

  lemma LoadRoom(n: nat, size: nat, b: nat)
    requires (n == 0 || 4 <= n <= MAX_BUCKETS) && size <= n
    requires b == if n > 2 * size % WORD then n else if n == 0 || n == MAX_BUCKETS then 4 else 2 * n
    ensures n < MAX_BUCKETS ==> size < Upper(b)
    ensures size < Upper(b) && n == MAX_BUCKETS ==> b == n && size < n
  {
  }

  // ----- Probing through a table of flags -----

  // Bucket i is met by the probe, from its step `s` on, before any empty bucket.
  ghost predicate ReachFrom(flags: seq<Slot>, start: nat, s: nat, i: nat)
    requires |flags| > 0
    decreases |flags| - s
  {
    && s < |flags|
    && (|| Probe(start, s, |flags|) == i
        || (flags[Probe(start, s, |flags|)] != Empty && ReachFrom(flags, start, s + 1, i)))
  }

  lemma {:induction false} ReachMonotone(flags: seq<Slot>, flags': seq<Slot>, start: nat, s: nat, i: nat)
    requires |flags| == |flags'| > 0
    requires forall j :: 0 <= j < |flags| && flags'[j] == Empty ==> flags[j] == Empty
    requires ReachFrom(flags, start, s, i)
    ensures ReachFrom(flags', start, s, i)
    decreases |flags| - s
  {
    if Probe(start, s, |flags|) != i {
      ReachMonotone(flags, flags', start, s + 1, i);
    }
  }

  ghost function Occupied(flags: seq<Slot>): set<nat> {
    set i: nat | 0 <= i < |flags| && flags[i] != Empty
  }

  // A table with fewer occupied buckets than buckets stops every probe.
  lemma EmptyOnProbe(flags: seq<Slot>, start: nat) returns (e: nat)
    requires IsPow2(|flags|) && |Occupied(flags)| < |flags|
    ensures e < |flags| && flags[Probe(start, e, |flags|)] == Empty
  {
    var n := |flags|;
    if Below(n) <= Occupied(flags) {
      SubsetSize(Below(n), Occupied(flags));
    }
    var target :| target in Below(n) && target !in Occupied(flags);
    ProbeCovers(start, n, target);
    e :| 0 <= e < n && Probe(start, e, n) == target;
  }

  // The first s probes met no empty bucket, and no tombstone either unless some.
  ghost predicate Passed(flags: seq<Slot>, start: nat, s: nat, some: bool)
    requires |flags| > 0
  {
    forall j: nat {:trigger Probe(start, j, |flags|)} :: j < s && j < |flags| ==>
      flags[Probe(start, j, |flags|)] == Live || (some && flags[Probe(start, j, |flags|)] == Deleted)
  }

  lemma {:induction false} ReachPassed(flags: seq<Slot>, start: nat, j: nat, s: nat)
    requires |flags| > 0 && Passed(flags, start, s, true) && j <= s < |flags|
    ensures ReachFrom(flags, start, j, Probe(start, s, |flags|))
    decreases s - j
  {
    if j < s {
      ReachPassed(flags, start, j + 1, s);
    }
  }

  // A probe that has gone round has met every bucket.
  lemma AllPassed(flags: seq<Slot>, start: nat, s: nat, some: bool)
    requires IsPow2(|flags|) && s >= |flags| && Passed(flags, start, s, some)
    ensures forall y :: 0 <= y < |flags| ==> (flags[y] == Live || (some && flags[y] == Deleted)) && ReachFrom(flags, start, 0, y)
  {
    forall y | 0 <= y < |flags|
      ensures (flags[y] == Live || (some && flags[y] == Deleted)) && ReachFrom(flags, start, 0, y)
    {
      ProbeCovers(start, |flags|, y);
      var t :| 0 <= t < |flags| && Probe(start, t, |flags|) == y;
      ReachPassed(flags, start, 0, t);
    }
  }

  predicate AllLive(flags: seq<Slot>) {
    forall i :: 0 <= i < |flags| ==> flags[i] == Live
  }

  // ----- The meaning of a table -----

  // Key k sits in live bucket p, and is reachable there from its own hash.
  ghost predicate Sits<K>(hash: K -> uint32, flags: seq<Slot>, keys: seq<K>, k: K, p: nat) {
    && p < |flags| && p < |keys| && flags[p] == Live && keys[p] == k
    && ReachFrom(flags, Mask(hash(k), |flags|), 0, p)
  }

  // If bucket i is live, pos sends its key to it.
  ghost predicate Named<K>(flags: seq<Slot>, keys: seq<K>, pos: map<K, nat>, i: nat) {
    i < |flags| && i < |keys| && flags[i] == Live ==> keys[i] in pos && pos[keys[i]] == i
  }

  // pos says in which live bucket each key sits.
  ghost predicate Indexes<K(!new)>(hash: K -> uint32, flags: seq<Slot>, keys: seq<K>, pos: map<K, nat>) {
    && |flags| > 0 && |keys| >= |flags|
    && (forall i: nat {:trigger Named(flags, keys, pos, i)} :: Named(flags, keys, pos, i))
    && (forall k {:trigger Sits(hash, flags, keys, k, pos[k])} :: k in pos ==> Sits(hash, flags, keys, k, pos[k]))
  }

  ghost predicate Bound<K, V>(pos: map<K, nat>, vals: seq<V>, contents: map<K, V>, k: K)
    requires k in pos && k in contents
  {
    pos[k] < |vals| && contents[k] == vals[pos[k]]
  }

  // The key/value bindings of a table.
  ghost predicate Binds<K(!new), V>(pos: map<K, nat>, vals: seq<V>, contents: map<K, V>) {
    && contents.Keys == pos.Keys
    && forall k {:trigger Bound(pos, vals, contents, k)} :: k in pos ==> Bound(pos, vals, contents, k)
  }

  // Changing bucket x only, and not making it empty, moves no other key.
  lemma SitsElsewhere<K>(hash: K -> uint32, flags: seq<Slot>, flags': seq<Slot>, keys: seq<K>, keys': seq<K>, k: K, p: nat, x: nat)
    requires Sits(hash, flags, keys, k, p) && p != x
    requires x < |flags| == |flags'| && x < |keys| == |keys'|
    requires flags' == flags[x := flags'[x]] && flags'[x] != Empty && keys' == keys[x := keys'[x]]
    ensures Sits(hash, flags', keys', k, p)
  {
    ReachMonotone(flags, flags', Mask(hash(k), |flags|), 0, p);
  }

  // Making bucket x live for an absent key adds exactly that key.
  lemma PutBucket<K(!new)>(hash: K -> uint32, flags: seq<Slot>, keys: seq<K>, pos: map<K, nat>, x: nat, key: K)
    requires Indexes(hash, flags, keys, pos)
    requires x < |flags| && flags[x] != Live && key !in pos
    requires ReachFrom(flags, Mask(hash(key), |flags|), 0, x)
    ensures Indexes(hash, flags[x := Live], keys[x := key], pos[key := x])
  {
    var flags', keys', pos' := flags[x := Live], keys[x := key], pos[key := x];
    forall i: nat
      ensures Named(flags', keys', pos', i)
    {
      assert Named(flags, keys, pos, i);
    }
    forall k | k in pos'
      ensures Sits(hash, flags', keys', k, pos'[k])
    {
      if k == key {
        ReachMonotone(flags, flags', Mask(hash(k), |flags|), 0, x);
      } else {
        assert Sits(hash, flags, keys, k, pos[k]);
        SitsElsewhere(hash, flags, flags', keys, keys', k, pos[k], x);
      }
    }
  }

  lemma PutSizes<K(!new)>(hash: K -> uint32, flags: seq<Slot>, keys: seq<K>, pos: map<K, nat>, x: nat, key: K)
    requires x < |flags| && flags[x] != Live && key !in pos
    requires Indexes(hash, flags[x := Live], keys, pos[key := x])
    ensures |pos[key := x]| == |pos| + 1
    ensures |Occupied(flags[x := Live])| == |Occupied(flags)| + (if flags[x] == Empty then 1 else 0)
    ensures |pos| < |Occupied(flags)| + (if flags[x] == Empty then 1 else 0)
  {
    assert pos[key := x].Keys == pos.Keys + {key};
    OccupiedAfter(flags, x);
    KeysOccupy(hash, flags[x := Live], keys, pos[key := x]);
  }

  lemma OccupiedAfter(flags: seq<Slot>, x: nat)
    requires x < |flags|
    ensures |Occupied(flags[x := Live])| == |Occupied(flags)| + (if flags[x] == Empty then 1 else 0)
  {
    var now := Occupied(flags[x := Live]);
    assert now == Occupied(flags) + {x};
    if flags[x] != Empty {
      assert now == Occupied(flags);
    }
  }

  // Marking live bucket x deleted removes exactly its key, and leaves every
  // other key reachable.
  lemma DeleteBucket<K(!new)>(hash: K -> uint32, flags: seq<Slot>, keys: seq<K>, pos: map<K, nat>, x: nat)
    requires Indexes(hash, flags, keys, pos)
    requires x < |flags| && flags[x] == Live
    ensures keys[x] in pos
    ensures Indexes(hash, flags[x := Deleted], keys, pos - {keys[x]})
    ensures |pos - {keys[x]}| == |pos| - 1
    ensures Occupied(flags[x := Deleted]) == Occupied(flags)
  {
    var flags', pos' := flags[x := Deleted], pos - {keys[x]};
    assert Named(flags, keys, pos, x);
    assert pos'.Keys == pos.Keys - {keys[x]};
    forall i: nat
      ensures Named(flags', keys, pos', i)
    {
      assert Named(flags, keys, pos, i);
    }
    forall k | k in pos'
      ensures Sits(hash, flags', keys, k, pos'[k])
    {
      assert Sits(hash, flags, keys, k, pos[k]);
      SitsElsewhere(hash, flags, flags', keys, keys, k, pos[k], x);
    }
  }

  // What a probe for `key` can find.
  lemma WhereKeyIs<K(!new)>(hash: K -> uint32, flags: seq<Slot>, keys: seq<K>, pos: map<K, nat>, key: K)
    requires Indexes(hash, flags, keys, pos)
    ensures key in pos ==> Sits(hash, flags, keys, key, pos[key])
    ensures forall i :: 0 <= i < |flags| && flags[i] == Live ==> (keys[i] == key <==> key in pos && i == pos[key])
  {
    forall i | 0 <= i < |flags| && flags[i] == Live
      ensures keys[i] == key <==> key in pos && i == pos[key]
    {
      assert Named(flags, keys, pos, i);
      assert key in pos ==> Sits(hash, flags, keys, key, pos[key]);
    }
  }

  // The buckets of the keys in `some`.
  ghost function Positions<K>(pos: map<K, nat>, some: set<K>): set<nat>
    requires some <= pos.Keys
  {
    set k | k in some :: pos[k]
  }

  lemma {:induction false} PositionsSize<K(!new)>(hash: K -> uint32, flags: seq<Slot>, keys: seq<K>, pos: map<K, nat>, some: set<K>)
    requires Indexes(hash, flags, keys, pos) && some <= pos.Keys
    ensures |Positions(pos, some)| == |some|
  {
    if some != {} {
      var k :| k in some;
      PositionsSize(hash, flags, keys, pos, some - {k});
      assert Positions(pos, some) == Positions(pos, some - {k}) + {pos[k]};
      forall j | j in some - {k}
        ensures pos[j] != pos[k]
      {
        assert Sits(hash, flags, keys, j, pos[j]) && Sits(hash, flags, keys, k, pos[k]);
      }
    }
  }

  // There are at least as many occupied buckets as keys, and exactly as many
  // when there are no tombstones.
  lemma KeysOccupy<K(!new)>(hash: K -> uint32, flags: seq<Slot>, keys: seq<K>, pos: map<K, nat>)
    requires Indexes(hash, flags, keys, pos)
    ensures |pos| <= |Occupied(flags)|
    ensures (forall i :: 0 <= i < |flags| ==> flags[i] != Deleted) ==> |Occupied(flags)| == |pos|
  {
    PositionsSize(hash, flags, keys, pos, pos.Keys);
    forall k | k in pos
      ensures pos[k] in Occupied(flags)
    {
      assert Sits(hash, flags, keys, k, pos[k]);
    }
    SubsetSize(Positions(pos, pos.Keys), Occupied(flags));
    if forall i :: 0 <= i < |flags| ==> flags[i] != Deleted {
      forall i | i in Occupied(flags)
        ensures i in Positions(pos, pos.Keys)
      {
        assert Named(flags, keys, pos, i);
      }
      SubsetSize(Occupied(flags), Positions(pos, pos.Keys));
    }
  }

  // As many keys as buckets: every bucket is live, and the other way round.
  lemma FullTable<K(!new)>(hash: K -> uint32, flags: seq<Slot>, keys: seq<K>, pos: map<K, nat>)
    requires Indexes(hash, flags, keys, pos)
    ensures AllLive(flags) <==> |pos| == |flags|
    ensures |pos| <= |flags|
  {
    var buckets, all := Positions(pos, pos.Keys), Below(|flags|);
    PositionsSize(hash, flags, keys, pos, pos.Keys);
    forall k | k in pos
      ensures pos[k] in all && flags[pos[k]] == Live
    {
      assert Sits(hash, flags, keys, k, pos[k]);
    }
    SubsetSize(buckets, all);
    if AllLive(flags) {
      forall i | i in all
        ensures i in buckets
      {
        assert Named(flags, keys, pos, i);
      }
      SubsetSize(all, buckets);
    } else {
      var i :| 0 <= i < |flags| && flags[i] != Live;
      SubsetSize(buckets, all - {i});
    }
  }

  // Overwriting live bucket x, the home of an absent key, replaces its key.
  lemma ReplaceBucket<K(!new)>(hash: K -> uint32, flags: seq<Slot>, keys: seq<K>, pos: map<K, nat>, x: nat, key: K)
    requires Indexes(hash, flags, keys, pos)
    requires IsPow2(|flags|) && x < |flags| && flags[x] == Live && key !in pos && x == Mask(hash(key), |flags|)
    ensures keys[x] in pos && |(pos - {keys[x]})[key := x]| == |pos|
    ensures Indexes(hash, flags, keys[x := key], (pos - {keys[x]})[key := x])
  {
    var keys', left := keys[x := key], pos - {keys[x]};
    var pos' := left[key := x];
    assert Named(flags, keys, pos, x);
    assert left.Keys == pos.Keys - {keys[x]} && pos'.Keys == left.Keys + {key};
    forall i: nat
      ensures Named(flags, keys', pos', i)
    {
      assert Named(flags, keys, pos, i);
    }
    forall k | k in pos'
      ensures Sits(hash, flags, keys', k, pos'[k])
    {
      if k == key {
        MaskSmall(x, |flags|);
        HomeReached(hash(key), flags);
      } else {
        assert Sits(hash, flags, keys, k, pos[k]) && Sits(hash, flags, keys, keys[x], x);
      }
    }
  }

  lemma HomeReached(h: nat, flags: seq<Slot>)
    requires IsPow2(|flags|)
    ensures ReachFrom(flags, Mask(h, |flags|), 0, Mask(h, |flags|))
  {
    MaskSmall(Mask(h, |flags|), |flags|);
  }

  // ----- The state of a rehash in progress -----

  // An element still waiting in its old bucket, untouched.
  ghost predicate Waits<K, V>(contents: map<K, V>, home: map<K, nat>, oldFlags: seq<Slot>, keys: seq<K>, vals: seq<V>, k: K) {
    && k in contents && k in home && home[k] < |oldFlags| && home[k] < |keys| && home[k] < |vals|
    && oldFlags[home[k]] == Live && keys[home[k]] == k && vals[home[k]] == contents[k]
  }

  // A live old bucket belongs to a waiting element and is free in the new table.
  ghost predicate Pending<K>(home: map<K, nat>, oldFlags: seq<Slot>, newFlags: seq<Slot>, keys: seq<K>, waiting: set<K>, i: nat) {
    i < |oldFlags| && i < |keys| && oldFlags[i] == Live ==>
      && keys[i] in waiting && keys[i] in home && home[keys[i]] == i
      && (i < |newFlags| ==> newFlags[i] == Empty)
  }

  ghost predicate Moved<K, V>(contents: map<K, V>, vals: seq<V>, placed: map<K, nat>, k: K)
    requires k in placed
  {
    k in contents && placed[k] < |vals| && vals[placed[k]] == contents[k]
  }

  // `placed` and `waiting` split the table's keys, apart from the one in hand.
  ghost predicate Rehashing<K(!new), V>(
    hash: K -> uint32, contents: map<K, V>, home: map<K, nat>,
    oldFlags: seq<Slot>, newFlags: seq<Slot>, keys: seq<K>, vals: seq<V>,
    placed: map<K, nat>, waiting: set<K>)
  {
    && |newFlags| > 0 && |newFlags| <= |keys| == |vals| && |oldFlags| <= |keys|
    && (forall i :: 0 <= i < |newFlags| ==> newFlags[i] != Deleted)
    && Indexes(hash, newFlags, keys, placed)
    && (forall k {:trigger Moved(contents, vals, placed, k)} :: k in placed ==> Moved(contents, vals, placed, k))
    && (forall i: nat {:trigger Pending(home, oldFlags, newFlags, keys, waiting, i)} ::
          Pending(home, oldFlags, newFlags, keys, waiting, i))
    && (forall k {:trigger Waits(contents, home, oldFlags, keys, vals, k)} :: k in waiting ==>
          Waits(contents, home, oldFlags, keys, vals, k))
    && placed.Keys !! waiting && placed.Keys <= contents.Keys && waiting <= contents.Keys
  }

  // At the start of a rehash everything is waiting.
  lemma StartRehash<K(!new), V>(
    hash: K -> uint32, contents: map<K, V>, home: map<K, nat>, oldFlags: seq<Slot>, newFlags: seq<Slot>,
    keys: seq<K>, keys': seq<K>, vals: seq<V>, vals': seq<V>)
    requires oldFlags == [] ==> home == map[]
    requires oldFlags != [] ==> Indexes(hash, oldFlags, keys, home)
    requires |oldFlags| == |keys| == |vals| <= |keys'| == |vals'| && 0 < |newFlags| <= |keys'|
    requires keys <= keys' && vals <= vals'
    requires forall i :: 0 <= i < |newFlags| ==> newFlags[i] == Empty
    requires Binds(home, vals, contents)
    ensures Rehashing(hash, contents, home, oldFlags, newFlags, keys', vals', map[], contents.Keys)
  {
    forall i: nat
      ensures Pending(home, oldFlags, newFlags, keys', contents.Keys, i)
    {
      if i < |oldFlags| {
        assert Named(oldFlags, keys, home, i);
      }
    }
    forall k | k in contents
      ensures Waits(contents, home, oldFlags, keys', vals', k)
    {
      assert Bound(home, vals, contents, k);
      assert Sits(hash, oldFlags, keys, k, home[k]);
    }
  }

  // At its end, the new table stands for the same map.
  lemma EndRehash<K(!new), V>(
    hash: K -> uint32, contents: map<K, V>, home: map<K, nat>,
    oldFlags: seq<Slot>, newFlags: seq<Slot>, keys: seq<K>, vals: seq<V>, keys': seq<K>, vals': seq<V>,
    placed: map<K, nat>)
    requires Rehashing(hash, contents, home, oldFlags, newFlags, keys, vals, placed, {})
    requires placed.Keys == contents.Keys
    requires |keys'| == |vals'| == |newFlags| && keys' <= keys && vals' <= vals
    ensures Indexes(hash, newFlags, keys', placed)
    ensures Binds(placed, vals', contents)
    ensures |placed| == |contents| && |Occupied(newFlags)| == |placed|
  {
    KeysOccupy(hash, newFlags, keys, placed);
    assert |placed| == |placed.Keys| == |contents.Keys| == |contents|;
    forall i: nat
      ensures Named(newFlags, keys', placed, i)
    {
      assert Named(newFlags, keys, placed, i);
    }
    forall k | k in placed
      ensures Sits(hash, newFlags, keys', k, placed[k]) && Bound(placed, vals', contents, k)
    {
      assert Sits(hash, newFlags, keys, k, placed[k]) && Moved(contents, vals, placed, k);
    }
  }

  // Take the element of live old bucket j in hand.
  lemma TakeOut<K(!new), V>(
    hash: K -> uint32, contents: map<K, V>, home: map<K, nat>,
    oldFlags: seq<Slot>, newFlags: seq<Slot>, keys: seq<K>, vals: seq<V>,
    placed: map<K, nat>, waiting: set<K>, j: nat)
    requires Rehashing(hash, contents, home, oldFlags, newFlags, keys, vals, placed, waiting)
    requires j < |oldFlags| && oldFlags[j] == Live
    ensures keys[j] in waiting && keys[j] in contents && vals[j] == contents[keys[j]] && keys[j] !in placed
    ensures Rehashing(hash, contents, home, oldFlags[j := Deleted], newFlags, keys, vals, placed, waiting - {keys[j]})
  {
    var oldFlags', waiting' := oldFlags[j := Deleted], waiting - {keys[j]};
    assert Pending(home, oldFlags, newFlags, keys, waiting, j);
    assert Waits(contents, home, oldFlags, keys, vals, keys[j]);
    forall i: nat
      ensures Pending(home, oldFlags', newFlags, keys, waiting', i)
    {
      assert Pending(home, oldFlags, newFlags, keys, waiting, i);
    }
    forall k | k in waiting'
      ensures Waits(contents, home, oldFlags', keys, vals, k)
    {
      assert Waits(contents, home, oldFlags, keys, vals, k);
    }
  }

  // Put the element in hand down in the first empty new bucket of its probe.
  lemma PutDown<K(!new), V>(
    hash: K -> uint32, contents: map<K, V>, home: map<K, nat>,
    oldFlags: seq<Slot>, newFlags: seq<Slot>, keys: seq<K>, vals: seq<V>,
    placed: map<K, nat>, waiting: set<K>, key: K, i: nat)
    requires Rehashing(hash, contents, home, oldFlags, newFlags, keys, vals, placed, waiting)
    requires key in contents && key !in placed && key !in waiting
    requires i < |newFlags| && newFlags[i] == Empty && ReachFrom(newFlags, Mask(hash(key), |newFlags|), 0, i)
    requires i < |oldFlags| ==> oldFlags[i] != Live
    ensures Rehashing(hash, contents, home, oldFlags, newFlags[i := Live],
                      keys[i := key], vals[i := contents[key]], placed[key := i], waiting)
  {
    var newFlags', keys', vals', placed' := newFlags[i := Live], keys[i := key], vals[i := contents[key]], placed[key := i];
    PutBucket(hash, newFlags, keys, placed, i, key);
    forall k | k in placed'
      ensures Moved(contents, vals', placed', k)
    {
      if k != key {
        assert Moved(contents, vals, placed, k) && Sits(hash, newFlags, keys, k, placed[k]);
      }
    }
    forall j: nat
      ensures Pending(home, oldFlags, newFlags', keys', waiting, j)
    {
      assert Pending(home, oldFlags, newFlags, keys, waiting, j);
    }
    forall k | k in waiting
      ensures Waits(contents, home, oldFlags, keys', vals', k)
    {
      assert Waits(contents, home, oldFlags, keys, vals, k);
    }
  }

  // ----- The table -----

  // What the fields of a table stand for: its three arrays, the bucket of each
  // key, and the mathematical map.
  datatype Table<K, V> = Table(flags: seq<Slot>, keys: seq<K>, vals: seq<V>, pos: map<K, nat>, contents: map<K, V>)

  ghost predicate Wf<K(!new), V>(hash: K -> uint32, t: Table<K, V>, size: nat, nOccupied: nat, upperBound: nat) {
    match t
    case Table(flags, keys, vals, pos, contents) =>
      var n := |flags|;
      && n == |keys| == |vals|
      && size == |pos| <= nOccupied == |Occupied(flags)|
      && (nOccupied <= upperBound || n == MAX_BUCKETS)
      && (if n == 0 then pos == map[] && upperBound == 0 else
            && 4 <= n <= 0x8000_0000 && IsPow2(n) && upperBound == Upper(n)
            && Indexes(hash, flags, keys, pos))
      && Binds(pos, vals, contents)
  }

  lemma WfDelete<K(!new), V>(hash: K -> uint32, t: Table<K, V>, size: nat, nOccupied: nat, upperBound: nat, x: nat)
    requires Wf(hash, t, size, nOccupied, upperBound) && x < |t.flags| && t.flags[x] == Live
    ensures size > 0
    ensures Wf(hash, t.(flags := t.flags[x := Deleted], pos := t.pos - {t.keys[x]}, contents := t.contents - {t.keys[x]}),
               size - 1, nOccupied, upperBound)
  {
    DeleteBucket(hash, t.flags, t.keys, t.pos, x);
    var key := t.keys[x];
    forall k | k in t.pos - {key}
      ensures Bound(t.pos - {key}, t.vals, t.contents - {key}, k)
    {
      assert Bound(t.pos, t.vals, t.contents, k);
    }
  }

  lemma WfPut<K(!new), V>(hash: K -> uint32, t: Table<K, V>, size: nat, nOccupied: nat, upperBound: nat, key: K, x: nat)
    requires Wf(hash, t, size, nOccupied, upperBound) && (nOccupied < upperBound || |t.flags| == MAX_BUCKETS)
    requires key !in t.pos && x < |t.flags| && t.flags[x] != Live
    requires ReachFrom(t.flags, Mask(hash(key), |t.flags|), 0, x)
    ensures Wf(hash, t.(flags := t.flags[x := Live], keys := t.keys[x := key], pos := t.pos[key := x],
                        contents := t.contents[key := t.vals[x]]),
               size + 1, nOccupied + (if t.flags[x] == Empty then 1 else 0), upperBound)
    ensures t.contents[key := t.vals[x]] - {key} == t.contents - {key}
  {
    PutBucket(hash, t.flags, t.keys, t.pos, x, key);
    PutSizes(hash, t.flags, t.keys[x := key], t.pos, x, key);
    var pos', contents' := t.pos[key := x], t.contents[key := t.vals[x]];
    forall k | k in pos'
      ensures Bound(pos', t.vals, contents', k)
    {
      if k != key {
        assert Bound(t.pos, t.vals, t.contents, k);
      }
    }
  }

  // What a put of an absent key does to a table with no bucket left.
  lemma WfReplace<K(!new), V>(hash: K -> uint32, t: Table<K, V>, size: nat, nOccupied: nat, upperBound: nat, key: K, x: nat)
    requires Wf(hash, t, size, nOccupied, upperBound) && 0 < |t.flags|
    requires key !in t.pos && x == Mask(hash(key), |t.flags|) && t.flags[x] == Live
    ensures t.keys[x] in t.contents && t.keys[x] != key
    ensures Wf(hash, t.(keys := t.keys[x := key], pos := (t.pos - {t.keys[x]})[key := x],
                        contents := (t.contents - {t.keys[x]})[key := t.vals[x]]),
               size, nOccupied, upperBound)
  {
    ReplaceBucket(hash, t.flags, t.keys, t.pos, x, key);
    var gone := t.keys[x];
    var pos', contents' := (t.pos - {gone})[key := x], (t.contents - {gone})[key := t.vals[x]];
    forall k | k in pos'
      ensures Bound(pos', t.vals, contents', k)
    {
      if k != key {
        assert Bound(t.pos, t.vals, t.contents, k);
      }
    }
  }

  lemma WfSet<K(!new), V>(hash: K -> uint32, t: Table<K, V>, size: nat, nOccupied: nat, upperBound: nat, key: K, value: V)
    requires Wf(hash, t, size, nOccupied, upperBound) && key in t.pos
    ensures t.pos[key] < |t.vals|
    ensures Wf(hash, t.(vals := t.vals[t.pos[key] := value], contents := t.contents[key := value]),
               size, nOccupied, upperBound)
  {
    assert Sits(hash, t.flags, t.keys, key, t.pos[key]);
    var vals', contents' := t.vals[t.pos[key] := value], t.contents[key := value];
    assert contents'.Keys == t.pos.Keys;
    forall k | k in t.pos
      ensures Bound(t.pos, vals', contents', k)
    {
      assert Bound(t.pos, t.vals, t.contents, k) && Sits(hash, t.flags, t.keys, k, t.pos[k]);
    }
  }

  class HashTable<K(0,==,!new), V(0)> {
    const hash: K -> uint32
    var nBuckets: nat
    var size: nat
    var nOccupied: nat
    var upperBound: nat
    var flags: array<Slot>
    var keys: array<K>
    var vals: array<V>
    ghost var table: Table<K, V>

    ghost function Repr(): set<object>
      reads this
    {
      {flags as object, keys as object, vals as object}
    }

    ghost predicate Valid()
      reads this, flags, keys, vals
    {
      && (flags as object) != keys && (flags as object) != vals && (keys as object) != vals
      && flags[..] == table.flags && keys[..] == table.keys && vals[..] == table.vals
      && nBuckets == flags.Length
      && Wf(hash, table, size, nOccupied, upperBound)
    }

    // The mathematical map the table stands for.
    ghost function Contents(): map<K, V>
      reads this
    {
      table.contents
    }

    constructor (hash: K -> uint32)
      ensures Valid() && Contents() == map[] && this.hash == hash
      ensures fresh(Repr())
    {
      this.hash := hash;
      nBuckets, size, nOccupied, upperBound := 0, 0, 0, 0;
      flags := new Slot[0];
      keys := new K[0];
      vals := new V[0];
      table := Table([], [], [], map[], map[]);
    }

    // The key that a put of `key` throws out: none, unless all 2^31 buckets are
    // live and the key is absent.
    ghost function Displaced(key: K): set<K>
      reads this
      requires |table.keys| > 0 || size == 0
    {
      if size == MAX_BUCKETS && key !in Contents() then {table.keys[Mask(hash(key), |table.keys|)]} else {}
    }

    // Returns nBuckets when the key is absent.
    method Lookup(key: K) returns (x: nat)
      requires Valid()
      ensures x <= nBuckets
      ensures if key in Contents()
              then x < nBuckets && table.pos[key] == x && flags[x] == Live && keys[x] == key
              else x == nBuckets
    {
      if nBuckets == 0 {
        return 0;
      }
      WhereKeyIs(hash, table.flags, table.keys, table.pos, key);
      x := FindKey(hash(key), flags, keys, key, if key in table.pos then table.pos[key] else nBuckets);
    }

    method Get(key: K) returns (r: Option<V>)
      requires Valid()
      ensures r == if key in Contents() then Some(Contents()[key]) else None
    {
      var x := Lookup(key);
      if x == nBuckets {
        return None;
      }
      assert Bound(table.pos, table.vals, table.contents, key);
      return Some(vals[x]);
    }

    method Has(key: K) returns (r: bool)
      requires Valid()
      ensures r == (key in Contents())
    {
      var x := Lookup(key);
      r := x != nBuckets;
    }

    // Rebuilds the table with `request` buckets rounded up to a power of two,
    // unless the elements would not fit.
    method Resize(request: uint32)
      requires Valid()
      modifies this, Repr()
      ensures Valid() && Contents() == old(Contents())
      ensures fresh(Repr() - old(Repr()))
      ensures size == old(size)
      ensures if size < Upper(Buckets(request))
              then nBuckets == Buckets(request) && nOccupied == size
              else nBuckets == old(nBuckets) && nOccupied == old(nOccupied) && table == old(table)
      ensures size < Upper(Buckets(request)) ==> forall i :: 0 <= i < nBuckets ==> table.flags[i] != Deleted
    {
      var n := RoundUp32(request);
      RoundUpLeast(request);
      if n < 4 {
        n := 4;
      }
      if size >= Upper(n) {
        return;
      }
      Rehash(n);
    }

    // The part of a resize after the size check.
    method Rehash(n: nat)
      requires Valid() && IsPow2(n) && 4 <= n <= 0x8000_0000 && size < Upper(n)
      modifies this, Repr()
      ensures Valid() && Contents() == old(Contents())
      ensures fresh(flags) && (keys == old(keys) || fresh(keys)) && (vals == old(vals) || fresh(vals))
      ensures size == nOccupied == old(size) && nBuckets == n
      ensures forall i :: 0 <= i < n ==> table.flags[i] != Deleted
    {
      var newFlags, ks, vs;
      ghost var t1;
      newFlags, ks, vs, t1 := Rebuild(hash, flags, keys, vals, n, table, size, nOccupied, upperBound);
      Install(newFlags, ks, vs, n, t1);
    }

    // The rebuilt arrays take the place of the old ones.
    method Install(newFlags: array<Slot>, ks: array<K>, vs: array<V>, n: nat, ghost t: Table<K, V>)
      requires (newFlags as object) != ks && (newFlags as object) != vs && (ks as object) != vs
      requires newFlags[..] == t.flags && ks[..] == t.keys && vs[..] == t.vals
      requires newFlags.Length == n && Wf(hash, t, size, size, Upper(n))
      modifies this
      ensures Valid() && table == t && flags == newFlags && keys == ks && vals == vs
      ensures size == nOccupied == old(size) && nBuckets == n
    {
      flags, keys, vals, table := newFlags, ks, vs, t;
      nBuckets, nOccupied, upperBound := n, size, Upper(n);
    }

    // Finds or makes a bucket for `key`; ret is 0 when a live bucket was taken, 1
    // when an empty one was, 2 when a tombstone was reused.
    method Put(key: K) returns (x: nat, ret: nat)
      requires Valid()
      modifies this, Repr()
      ensures Valid()
      ensures fresh(Repr() - old(Repr()))
      ensures x < nBuckets && key in table.pos && table.pos[key] == x
      ensures Contents() - {key} == old(Contents()) - old(Displaced(key)) - {key}
      ensures ret <= 2 && (ret == 0 <==> key in old(Contents()) || old(size) == MAX_BUCKETS)
      ensures key in old(Contents()) ==> Contents() == old(Contents())
    {
      MakeRoom();
      x, ret := PutPrepared(key);
    }

    // The first part of Put: at the load bound, sweep tombstones out or double the
    // table; a table of 2^31 buckets asks for more than 32 bits and stays as it is.
    method MakeRoom()
      requires Valid()
      modifies this, Repr()
      ensures Valid() && (nOccupied < upperBound || nBuckets == MAX_BUCKETS)
      ensures fresh(Repr() - old(Repr()))
      ensures Contents() == old(Contents()) && size == old(size)
      ensures size == MAX_BUCKETS ==> table == old(table)
    {
      FullIsMax();
      if nOccupied >= upperBound {
        var request := if nBuckets > 2 * size % WORD then nBuckets - 1 else nBuckets + 1;
        RequestRoom(nBuckets, size, request, Buckets(request));
        Resize(request);
      }
    }

    // The table is full only at its greatest size.
    lemma FullIsMax()
      requires Valid()
      ensures size <= nBuckets <= MAX_BUCKETS && (size == nBuckets > 0 ==> size == MAX_BUCKETS)
      ensures nBuckets > 0 ==> (AllLive(table.flags) <==> size == nBuckets)
    {
      if nBuckets > 0 {
        FullTable(hash, table.flags, table.keys, table.pos);
      }
    }

    // The rest of Put, once there is room if there can be.
    method PutPrepared(key: K) returns (x: nat, ret: nat)
      requires Valid() && (nOccupied < upperBound || nBuckets == MAX_BUCKETS)
      modifies this, flags, keys
      ensures Valid() && flags == old(flags) && keys == old(keys) && vals == old(vals)
      ensures x < nBuckets && key in table.pos && table.pos[key] == x
      ensures Contents() - {key} == old(Contents()) - old(Displaced(key)) - {key}
      ensures ret <= 2 && (ret == 0 <==> key in old(Contents()) || old(size) == MAX_BUCKETS)
      ensures key in old(Contents()) ==> Contents() == old(Contents())
    {
      FullIsMax();
      x := Site(key);
      DisplacedAt(key, x);
      if flags[x] == Live {
        Overwrite(key, x);
        ret := 0;
      } else {
        ret := if flags[x] == Empty then 1 else 2;
        Occupy(key, x);
      }
    }

    // The key displaced is the one at the bucket found.
    lemma DisplacedAt(key: K, x: nat)
      requires Valid() && x < nBuckets
      requires key in table.pos ==> table.pos[key] == x && flags[x] == Live
      requires key !in table.pos ==> if AllLive(table.flags) then flags[x] == Live && x == Mask(hash(key), nBuckets) else flags[x] != Live
      ensures Displaced(key) == if flags[x] == Live && key !in Contents() then {table.keys[x]} else {}
      ensures flags[x] == Live <==> key in Contents() || size == MAX_BUCKETS
    {
      FullIsMax();
    }

    // The bucket to put the key in.
    method Site(key: K) returns (x: nat)
      requires Valid() && nBuckets > 0
      ensures x < nBuckets && ReachFrom(table.flags, Mask(hash(key), nBuckets), 0, x)
      ensures key in table.pos ==> table.pos[key] == x && flags[x] == Live
      ensures key !in table.pos ==> if AllLive(table.flags) then flags[x] == Live && x == Mask(hash(key), nBuckets) else flags[x] != Live
    {
      WhereKeyIs(hash, table.flags, table.keys, table.pos, key);
      x := FindSite(hash(key), flags, keys, key, if key in table.pos then table.pos[key] else nBuckets);
    }

    // Writes the key into a live bucket: its own, or that of the key it displaces.
    method Overwrite(key: K, x: nat)
      requires Valid() && x < nBuckets && flags[x] == Live
      requires key in table.pos ==> table.pos[key] == x
      requires key !in table.pos ==> x == Mask(hash(key), nBuckets)
      modifies this`table, keys
      ensures Valid() && key in table.pos && table.pos[key] == x
      ensures key in old(Contents()) ==> Contents() == old(Contents())
      ensures key !in old(Contents()) ==>
        Contents() - {key} == old(Contents()) - {old(table.keys[x])} - {key}
    {
      ghost var t := Overwritten(key, x);
      keys[x] := key;
      table := t;
      assert keys[..] == t.keys;
    }

    // What the table stands for once the key is written into live bucket x.
    lemma Overwritten(key: K, x: nat) returns (t: Table<K, V>)
      requires Valid() && x < nBuckets && flags[x] == Live
      requires key in table.pos ==> table.pos[key] == x
      requires key !in table.pos ==> x == Mask(hash(key), nBuckets)
      ensures Wf(hash, t, size, nOccupied, upperBound) && key in t.pos && t.pos[key] == x
      ensures t.flags == table.flags && t.keys == table.keys[x := key] && t.vals == table.vals
      ensures if key in Contents() then t.contents == Contents()
              else t.contents - {key} == Contents() - {table.keys[x]} - {key}
    {
      t := table;
      if key !in t.pos {
        WfReplace(hash, t, size, nOccupied, upperBound, key, x);
        t := t.(keys := t.keys[x := key], pos := (t.pos - {t.keys[x]})[key := x],
                contents := (t.contents - {t.keys[x]})[key := t.vals[x]]);
      } else {
        assert Sits(hash, t.flags, t.keys, key, x);
        assert t.keys[x := key] == t.keys;
      }
    }

    // Writes an absent key into a bucket that is not live.
    method Occupy(key: K, x: nat)
      requires Valid() && (nOccupied < upperBound || nBuckets == MAX_BUCKETS)
      requires x < nBuckets && flags[x] != Live && key !in table.pos
      requires ReachFrom(table.flags, Mask(hash(key), nBuckets), 0, x)
      modifies this`size, this`nOccupied, this`table, flags, keys
      ensures Valid() && key in table.pos && table.pos[key] == x
      ensures Contents() - {key} == old(Contents()) - {key}
    {
      ghost var t := Taken(key, x);
      nOccupied := nOccupied + (if flags[x] == Empty then 1 else 0);
      flags[x] := Live;
      keys[x] := key;
      size := size + 1;
      table := t;
      assert flags[..] == t.flags && keys[..] == t.keys;
    }

    // What the table stands for once an absent key is written into bucket x.
    lemma Taken(key: K, x: nat) returns (t: Table<K, V>)
      requires Valid() && (nOccupied < upperBound || nBuckets == MAX_BUCKETS)
      requires x < nBuckets && flags[x] != Live && key !in table.pos
      requires ReachFrom(table.flags, Mask(hash(key), nBuckets), 0, x)
      ensures Wf(hash, t, size + 1, nOccupied + (if flags[x] == Empty then 1 else 0), upperBound)
      ensures t.flags == table.flags[x := Live] && t.keys == table.keys[x := key] && t.vals == table.vals
      ensures key in t.pos && t.pos[key] == x && t.contents - {key} == Contents() - {key}
    {
      WfPut(hash, table, size, nOccupied, upperBound, key, x);
      t := table.(flags := table.flags[x := Live], keys := table.keys[x := key], pos := table.pos[key := x],
                  contents := table.contents[key := table.vals[x]]);
    }

    // Agrees with a map exactly when the key is present or a bucket is left.
    method Set(key: K, value: V)
      requires Valid()
      modifies this, Repr()
      ensures Valid()
      ensures fresh(Repr() - old(Repr()))
      ensures Contents() == (old(Contents()) - old(Displaced(key)))[key := value]
      ensures Contents() == old(Contents())[key := value] <==> key in old(Contents()) || |old(Contents())| < MAX_BUCKETS
    {
      ghost var before, gone := table.contents, Displaced(key);
      DisplacedStored(key);
      var x, _ := Put(key);
      SetAfterPut(table.contents, before, gone, key, value);
      WfSet(hash, table, size, nOccupied, upperBound, key, value);
      vals[x] := value;
      table := table.(vals := table.vals[x := value], contents := table.contents[key := value]);
      assert vals[..] == table.vals;
    }

    static lemma SetAfterPut(now: map<K, V>, before: map<K, V>, gone: set<K>, key: K, value: V)
      requires now - {key} == before - gone - {key} && gone <= before.Keys && key !in gone
      ensures now[key := value] == (before - gone)[key := value]
      ensures now[key := value] == before[key := value] <==> gone == {}
    {
      assert now[key := value] == (now - {key})[key := value];
      assert (before - gone)[key := value] == (before - gone - {key})[key := value];
      if gone != {} {
        var k :| k in gone;
        assert k in before[key := value] && k !in (before - gone)[key := value];
      }
    }

    // A displaced key is another key of the table.
    lemma DisplacedStored(key: K)
      requires Valid()
      ensures Displaced(key) <= Contents().Keys && key !in Displaced(key) && |Contents()| == size
      ensures Displaced(key) == {} <==> key in Contents() || size < MAX_BUCKETS
    {
      FullIsMax();
      assert |table.contents| == |table.contents.Keys| == |table.pos.Keys| == |table.pos|;
      if size == MAX_BUCKETS {
        assert Named(table.flags, table.keys, table.pos, Mask(hash(key), nBuckets));
      }
    }

    method Reset()
      requires Valid()
      modifies this, flags
      ensures Valid() && Contents() == map[] && Repr() == old(Repr())
    {
      forall j | 0 <= j < nBuckets {
        flags[j] := Empty;
      }
      size, nOccupied := 0, 0;
      table := table.(flags := flags[..], pos := map[], contents := map[]);
      assert Occupied(table.flags) == {};
    }

    method Delete(x: nat)
      requires Valid() && x <= nBuckets
      modifies this, flags
      ensures Valid() && Repr() == old(Repr())
      ensures Contents() == if x < nBuckets && old(flags[x]) == Live
                            then old(Contents()) - {old(keys[x])} else old(Contents())
    {
      if x != nBuckets && flags[x] == Live {
        WfDelete(hash, table, size, nOccupied, upperBound, x);
        flags[x] := Deleted;
        size := size - 1;
        table := table.(flags := table.flags[x := Deleted], pos := table.pos - {keys[x]},
                        contents := table.contents - {keys[x]});
        assert flags[..] == table.flags;
      }
    }

    method Del(key: K) returns (found: bool)
      requires Valid()
      modifies this, flags
      ensures Valid() && Repr() == old(Repr())
      ensures found == (key in old(Contents()))
      ensures Contents() == old(Contents()) - {key}
    {
      var x := Lookup(key);
      if x == nBuckets {
        return false;
      }
      Delete(x);
      return true;
    }
  }

  // The arrays a rehash works in, all different objects of the right sizes.
  ghost predicate Workspace<K, V>(flags: array<Slot>, newFlags: array<Slot>, keys: array<K>, vals: array<V>) {
    && flags != newFlags && (keys as object) != vals
    && (flags as object) != keys && (flags as object) != vals
    && (newFlags as object) != keys && (newFlags as object) != vals
    && flags.Length <= keys.Length == vals.Length && newFlags.Length <= keys.Length
    && IsPow2(newFlags.Length)
  }

  // No live bucket is left below `upto`.
  ghost predicate Emptied(flags: seq<Slot>, upto: nat) {
    forall i :: 0 <= i < |flags| && i < upto ==> flags[i] != Live
  }

  // One round of the kick-out loop: put the element in hand down, and take up
  // the element that was waiting there, if any.
  method PlaceOne<K(==,!new), V>(
    hash: K -> uint32, flags: array<Slot>, newFlags: array<Slot>, keys: array<K>, vals: array<V>, key: K, val: V,
    ghost contents: map<K, V>, ghost home: map<K, nat>, ghost placed: map<K, nat>, ghost waiting: set<K>, ghost upto: nat)
    returns (more: bool, key1: K, val1: V, ghost i: nat)
    requires Workspace(flags, newFlags, keys, vals) && |contents| < newFlags.Length
    requires Rehashing(hash, contents, home, flags[..], newFlags[..], keys[..], vals[..], placed, waiting)
    requires key in contents && key !in placed && key !in waiting && val == contents[key]
    modifies flags, newFlags, keys, vals
    ensures Rehashing(hash, contents, home, flags[..], newFlags[..], keys[..], vals[..],
                      placed[key := i], if more then waiting - {key1} else waiting)
    ensures more ==> key1 in contents && key1 in waiting && val1 == contents[key1] && key1 !in placed
    ensures Emptied(old(flags[..]), upto) ==> Emptied(flags[..], upto)
  {
    ghost var f0, n0, k0, v0 := flags[..], newFlags[..], keys[..], vals[..];
    RoomLeft(hash, n0, k0, placed, contents, key);
    var b := FirstEmpty(hash(key), newFlags);
    i := b;
    key1, val1 := keys[b], vals[b];
    more := b < flags.Length && flags[b] == Live;
    newFlags[b] := Live;
    keys[b], vals[b] := key, val;
    if more {
      TakeOut(hash, contents, home, f0, n0, k0, v0, placed, waiting, b);
      PutDown(hash, contents, home, f0[b := Deleted], n0, k0, v0, placed, waiting - {key1}, key, b);
      flags[b] := Deleted;
      assert flags[..] == f0[b := Deleted];
    } else {
      PutDown(hash, contents, home, f0, n0, k0, v0, placed, waiting, key, b);
    }
    assert newFlags[..] == n0[b := Live] && keys[..] == k0[b := key] && vals[..] == v0[b := val];
  }

  // The kick-out loop, from one element taken out of the old table.
  method PlaceAll<K(==,!new), V>(
    hash: K -> uint32, flags: array<Slot>, newFlags: array<Slot>, keys: array<K>, vals: array<V>, first: K, firstVal: V,
    ghost contents: map<K, V>, ghost home: map<K, nat>, ghost placed0: map<K, nat>, ghost waiting0: set<K>, ghost upto: nat)
    returns (ghost placed: map<K, nat>, ghost waiting: set<K>)
    requires Workspace(flags, newFlags, keys, vals) && |contents| < newFlags.Length
    requires Rehashing(hash, contents, home, flags[..], newFlags[..], keys[..], vals[..], placed0, waiting0)
    requires first in contents && first !in placed0 && first !in waiting0 && firstVal == contents[first]
    modifies flags, newFlags, keys, vals
    ensures Rehashing(hash, contents, home, flags[..], newFlags[..], keys[..], vals[..], placed, waiting)
    ensures placed.Keys + waiting == placed0.Keys + waiting0 + {first}
    ensures Emptied(old(flags[..]), upto) ==> Emptied(flags[..], upto)
  {
    placed, waiting := placed0, waiting0;
    var key, val, more := first, firstVal, true;
    while more
      invariant Rehashing(hash, contents, home, flags[..], newFlags[..], keys[..], vals[..], placed, waiting)
      invariant more ==> key in contents && key !in placed && key !in waiting && val == contents[key]
      invariant placed.Keys + waiting + (if more then {key} else {}) == placed0.Keys + waiting0 + {first}
      invariant Emptied(old(flags[..]), upto) ==> Emptied(flags[..], upto)
      decreases waiting, more
    {
      ghost var i, k := 0, key;
      more, key, val, i := PlaceOne(hash, flags, newFlags, keys, vals, key, val, contents, home, placed, waiting, upto);
      placed := placed[k := i];
      if more {
        waiting := waiting - {key};
      }
    }
  }

  // Rehash what sits in old bucket j.
  method RehashBucket<K(==,!new), V>(
    hash: K -> uint32, flags: array<Slot>, newFlags: array<Slot>, keys: array<K>, vals: array<V>, j: nat,
    ghost contents: map<K, V>, ghost home: map<K, nat>, ghost placed0: map<K, nat>, ghost waiting0: set<K>)
    returns (ghost placed: map<K, nat>, ghost waiting: set<K>)
    requires Workspace(flags, newFlags, keys, vals) && |contents| < newFlags.Length && j < flags.Length
    requires Rehashing(hash, contents, home, flags[..], newFlags[..], keys[..], vals[..], placed0, waiting0)
    requires Emptied(flags[..], j)
    modifies flags, newFlags, keys, vals
    ensures Rehashing(hash, contents, home, flags[..], newFlags[..], keys[..], vals[..], placed, waiting)
    ensures placed.Keys + waiting == placed0.Keys + waiting0
    ensures Emptied(flags[..], j + 1)
  {
    placed, waiting := placed0, waiting0;
    if flags[j] == Live {
      var key, val := keys[j], vals[j];
      TakeOut(hash, contents, home, flags[..], newFlags[..], keys[..], vals[..], placed, waiting, j);
      ghost var taken := flags[..][j := Deleted];
      flags[j] := Deleted;
      assert flags[..] == taken;
      waiting := waiting - {key};
      placed, waiting := PlaceAll(hash, flags, newFlags, keys, vals, key, val, contents, home, placed, waiting, j + 1);
    }
  }

  // Once no old bucket is live, nothing is waiting.
  lemma NothingWaits<K(!new), V>(
    hash: K -> uint32, contents: map<K, V>, home: map<K, nat>,
    oldFlags: seq<Slot>, newFlags: seq<Slot>, keys: seq<K>, vals: seq<V>,
    placed: map<K, nat>, waiting: set<K>)
    requires Rehashing(hash, contents, home, oldFlags, newFlags, keys, vals, placed, waiting)
    requires Emptied(oldFlags, |oldFlags|)
    ensures waiting == {}
  {
    forall k
      ensures k !in waiting
    {
      assert k in waiting ==> Waits(contents, home, oldFlags, keys, vals, k);
    }
  }

  // Rehash every live element of `flags` into `newFlags`, inside keys and vals.
  method KickOut<K(==,!new), V>(
    hash: K -> uint32, flags: array<Slot>, newFlags: array<Slot>, keys: array<K>, vals: array<V>,
    ghost contents: map<K, V>, ghost home: map<K, nat>)
    returns (ghost placed: map<K, nat>)
    requires Workspace(flags, newFlags, keys, vals) && |contents| < newFlags.Length
    requires Rehashing(hash, contents, home, flags[..], newFlags[..], keys[..], vals[..], map[], contents.Keys)
    modifies flags, newFlags, keys, vals
    ensures placed.Keys == contents.Keys
    ensures Rehashing(hash, contents, home, flags[..], newFlags[..], keys[..], vals[..], placed, {})
  {
    placed := map[];
    ghost var waiting := contents.Keys;
    for j := 0 to flags.Length
      invariant Emptied(flags[..], j)
      invariant Rehashing(hash, contents, home, flags[..], newFlags[..], keys[..], vals[..], placed, waiting)
      invariant contents.Keys == placed.Keys + waiting
    {
      placed, waiting := RehashBucket(hash, flags, newFlags, keys, vals, j, contents, home, placed, waiting);
    }
    NothingWaits(hash, contents, home, flags[..], newFlags[..], keys[..], vals[..], placed, waiting);
  }

  // The rehashing part of a resize: grow the arrays, kick out, shrink them.
  method Rebuild<K(0,==,!new), V(0)>(
    hash: K -> uint32, flags: array<Slot>, keys: array<K>, vals: array<V>, n: nat,
    ghost t: Table<K, V>, ghost size: nat, ghost nOccupied: nat, ghost upperBound: nat)
    returns (newFlags: array<Slot>, ks: array<K>, vs: array<V>, ghost t1: Table<K, V>)
    requires (flags as object) != keys && (flags as object) != vals && (keys as object) != vals
    requires flags[..] == t.flags && keys[..] == t.keys && vals[..] == t.vals
    requires Wf(hash, t, size, nOccupied, upperBound)
    requires IsPow2(n) && 4 <= n <= 0x8000_0000 && size < Upper(n)
    modifies flags, keys, vals
    ensures newFlags[..] == t1.flags && ks[..] == t1.keys && vs[..] == t1.vals
    ensures (newFlags as object) != ks && (newFlags as object) != vs && (ks as object) != vs
    ensures fresh(newFlags) && (ks == keys || fresh(ks)) && (vs == vals || fresh(vs))
    ensures newFlags.Length == n && t1.contents == t.contents
    ensures Wf(hash, t1, size, size, Upper(n))
    ensures forall i :: 0 <= i < n ==> t1.flags[i] != Deleted
  {
    newFlags := new Slot[n](_ => Empty);
    ks, vs := keys, vals;
    if flags.Length < n {
      ks := Realloc(keys, n);
      vs := Realloc(vals, n);
    }
    StartRehash(hash, t.contents, t.pos, t.flags, newFlags[..], t.keys, ks[..], t.vals, vs[..]);
    assert |t.contents| == |t.contents.Keys| == |t.pos.Keys| == |t.pos|;
    ghost var placed := KickOut(hash, flags, newFlags, ks, vs, t.contents, t.pos);
    ghost var k1, v1 := ks[..], vs[..];
    if flags.Length > n {
      ks := Realloc(ks, n);
      vs := Realloc(vs, n);
    }
    EndRehash(hash, t.contents, t.pos, flags[..], newFlags[..], k1, v1, ks[..], vs[..], placed);
    t1 := Table(newFlags[..], ks[..], vs[..], placed, t.contents);
  }

  // While an element is in hand, the new table still has an empty bucket.
  lemma RoomLeft<K(!new), V>(hash: K -> uint32, newFlags: seq<Slot>, keys: seq<K>, placed: map<K, nat>, contents: map<K, V>, key: K)
    requires Indexes(hash, newFlags, keys, placed)
    requires forall i :: 0 <= i < |newFlags| ==> newFlags[i] != Deleted
    requires placed.Keys <= contents.Keys && key in contents && key !in placed && |contents| < |newFlags|
    ensures |Occupied(newFlags)| < |newFlags|
  {
    KeysOccupy(hash, newFlags, keys, placed);
    SubsetSize(placed.Keys, contents.Keys - {key});
  }

  // realloc: the common prefix is kept, the rest is arbitrary.
  method Realloc<T(0)>(a: array<T>, n: nat) returns (b: array<T>)
    ensures fresh(b) && b.Length == n
    ensures a.Length <= n ==> a[..] <= b[..]
    ensures n <= a.Length ==> b[..] <= a[..]
  {
    b := new T[n];
    forall i | 0 <= i < n && i < a.Length {
      b[i] := a[i];
    }
  }

  // The probe loop of a lookup.  `at` is where the key sits, or the number of
  // buckets when it is absent; that is also what is returned.  The probe may go
  // all the way round, which takes 2n - 1 steps, when no bucket is empty.
  method FindKey<K(==)>(h: nat, flags: array<Slot>, keys: array<K>, key: K, ghost at: nat) returns (x: nat)
    requires IsPow2(flags.Length) && flags.Length <= keys.Length
    requires at <= flags.Length
    requires forall i :: 0 <= i < flags.Length && flags[i] == Live ==> (keys[i] == key <==> i == at)
    requires at < flags.Length ==> flags[at] == Live && ReachFrom(flags[..], Mask(h, flags.Length), 0, at)
    ensures x == at
  {
    ghost var fs := flags[..];
    var n, last := flags.Length, Mask(h, flags.Length);
    var i, step := last, 0;
    MaskSmall(last, n);
    while flags[i] != Empty && (flags[i] == Deleted || keys[i] != key)
      invariant i == Probe(last, step, n) && step < 2 * n - 1
      invariant at < n ==> ReachFrom(fs, last, step, at)
      decreases 2 * n - step
    {
      step := step + 1;
      i := Mask(i + step, n);
      RoundTripSteps(last, step, n);
      if i == last {
        return n;
      }
    }
    x := if flags[i] == Empty then n else i;
  }

  // The probe comes back to its start after a full round, and after 2n - 1 steps
  // at the latest.
  lemma RoundTripSteps(last: nat, step: nat, n: nat)
    requires IsPow2(n) && last < n && 0 < step < 2 * n
    ensures step == 2 * n - 1 ==> Probe(last, step, n) == last
    ensures Probe(last, step, n) == last ==> step >= n
  {
    MaskSmall(last, n);
    ProbeReturns(last, 2 * n - 1, n);
    if step < n {
      ProbesDistinct(last, 0, step, n);
    }
  }

  // The probe loop of an insertion: it stops at an empty bucket or at the key, or
  // when it has gone round, and remembers the last tombstone passed.
  method ProbeSite<K(==)>(h: nat, flags: array<Slot>, keys: array<K>, key: K, ghost at: nat)
    returns (i: nat, site: nat, round: bool, step: nat)
    requires IsPow2(flags.Length) && flags.Length <= keys.Length && at <= flags.Length
    requires forall i :: 0 <= i < flags.Length && flags[i] == Live ==> (keys[i] == key <==> i == at)
    requires at < flags.Length ==> flags[at] == Live && ReachFrom(flags[..], Mask(h, flags.Length), 0, at)
    ensures i < flags.Length && i == Probe(Mask(h, flags.Length), step, flags.Length) && site <= flags.Length
    ensures at < flags.Length ==> ReachFrom(flags[..], Mask(h, flags.Length), step, at)
    ensures Passed(flags[..], Mask(h, flags.Length), step, site < flags.Length)
    ensures site < flags.Length ==> flags[site] == Deleted && ReachFrom(flags[..], Mask(h, flags.Length), 0, site)
    ensures if round then step >= flags.Length && i == Mask(h, flags.Length)
            else flags[i] == Empty || (flags[i] == Live && i == at)
  {
    ghost var fs := flags[..];
    var n, last := flags.Length, Mask(h, flags.Length);
    i, step, site, round := last, 0, n, false;
    MaskSmall(last, n);
    while flags[i] != Empty && (flags[i] == Deleted || keys[i] != key)
      invariant i == Probe(last, step, n) && step < 2 * n - 1
      invariant at < n ==> ReachFrom(fs, last, step, at)
      invariant Passed(fs, last, step, site < n)
      invariant site <= n && (site < n ==> flags[site] == Deleted && ReachFrom(fs, last, 0, site))
      decreases 2 * n - step
    {
      Reached(fs, last, step);
      PassedNext(fs, last, step, site < n);
      if flags[i] == Deleted {
        site := i;
      }
      step := step + 1;
      i := Mask(i + step, n);
      RoundTripSteps(last, step, n);
      if i == last {
        round := true;
        return;
      }
    }
  }

  lemma PassedNext(flags: seq<Slot>, last: nat, step: nat, some: bool)
    requires |flags| > 0 && Passed(flags, last, step, some) && flags[Probe(last, step, |flags|)] != Empty
    ensures Passed(flags, last, step + 1, some || flags[Probe(last, step, |flags|)] == Deleted)
  {
  }

  // The bucket for an insertion: the key's own, or else the last tombstone passed, or
  // else the empty bucket that ended the probe; with every bucket live, the bucket
  // where the probe began.
  method FindSite<K(==)>(h: nat, flags: array<Slot>, keys: array<K>, key: K, ghost at: nat) returns (x: nat)
    requires IsPow2(flags.Length) && flags.Length <= keys.Length
    requires at <= flags.Length
    requires forall i :: 0 <= i < flags.Length && flags[i] == Live ==> (keys[i] == key <==> i == at)
    requires at < flags.Length ==> flags[at] == Live && ReachFrom(flags[..], Mask(h, flags.Length), 0, at)
    ensures x < flags.Length && ReachFrom(flags[..], Mask(h, flags.Length), 0, x)
    ensures at < flags.Length ==> x == at
    ensures at == flags.Length ==> (flags[x] == Live <==> AllLive(flags[..]))
    ensures at == flags.Length && AllLive(flags[..]) ==> x == Mask(h, flags.Length)
  {
    ghost var fs := flags[..];
    var n, last := flags.Length, Mask(h, flags.Length);
    x := n;
    if flags[last] == Empty {
      x := last;
      MaskSmall(last, n);
      assert Probe(last, 0, n) == last;
    } else {
      var i, site, round, step := ProbeSite(h, flags, keys, key, at);
      Reached(fs, last, step);
      if round {
        AllPassed(fs, last, step, site < n);
        x := site;
      }
      if x == n {
        x := if flags[i] == Empty && site != n then site else i;
      }
    }
  }

  // Whatever bucket the probe is at, it can be reached.
  lemma Reached(flags: seq<Slot>, last: nat, step: nat)
    requires IsPow2(|flags|) && Passed(flags, last, step, true)
    ensures ReachFrom(flags, last, 0, Probe(last, step, |flags|))
  {
    if step < |flags| {
      ReachPassed(flags, last, 0, step);
    } else {
      AllPassed(flags, last, step, true);
    }
  }

  // The rehash's probe loop, which looks only for an empty bucket.
  method FirstEmpty(h: nat, flags: array<Slot>) returns (i: nat)
    requires IsPow2(flags.Length) && |Occupied(flags[..])| < flags.Length
    ensures i < flags.Length && flags[i] == Empty
    ensures ReachFrom(flags[..], Mask(h, flags.Length), 0, i)
  {
    ghost var fs := flags[..];
    var n, start := flags.Length, Mask(h, flags.Length);
    i := start;
    var step := 0;
    ghost var e := EmptyOnProbe(fs, start);
    MaskSmall(start, n);
    while flags[i] != Empty
      invariant i == Probe(start, step, n) && step <= e
      invariant forall x :: ReachFrom(fs, start, step, x) ==> ReachFrom(fs, start, 0, x)
      decreases e - step
    {
      step := step + 1;
      i := Mask(i + step, n);
    }
    assert ReachFrom(fs, start, step, i);
  }

  // ----- Whole histories -----

  datatype Op<K, V> = SetOp(key: K, value: V) | GetOp(key: K) | HasOp(key: K) | DelOp(key: K)

  datatype Reply<V> = Done | Got(value: Option<V>) | Flag(answer: bool)

  // What a mathematical map does with one operation, and what it answers.
  function Apply<K(==), V>(m: map<K, V>, op: Op<K, V>): (map<K, V>, Reply<V>) {
    match op
    case SetOp(k, v) => (m[k := v], Done)
    case GetOp(k) => (m, Got(if k in m then Some(m[k]) else None))
    case HasOp(k) => (m, Flag(k in m))
    case DelOp(k) => (m - {k}, Flag(k in m))
  }

  function FinalMap<K(==), V>(ops: seq<Op<K, V>>): map<K, V> {
    if ops == [] then map[] else Apply(FinalMap(ops[..|ops| - 1]), ops[|ops| - 1]).0
  }

  function Replies<K(==), V>(ops: seq<Op<K, V>>): seq<Reply<V>> {
    if ops == [] then []
    else Replies(ops[..|ops| - 1]) + [Apply(FinalMap(ops[..|ops| - 1]), ops[|ops| - 1]).1]
  }

  lemma {:induction false} HistorySize<K, V>(ops: seq<Op<K, V>>)
    ensures |FinalMap(ops)| <= |ops|
  {
    if ops != [] {
      var m, op := FinalMap(ops[..|ops| - 1]), ops[|ops| - 1];
      HistorySize(ops[..|ops| - 1]);
      match op {
        case SetOp(k, v) =>
          assert m[k := v].Keys == m.Keys + {k};
        case DelOp(k) =>
          assert (m - {k}).Keys == m.Keys - {k};
          SubsetSize((m - {k}).Keys, m.Keys);
        case _ =>
      }
    }
  }

  // The operation is a set of a present key, finds a bucket left, or sets nothing.
  predicate Fits<K(==), V>(m: map<K, V>, op: Op<K, V>) {
    op.SetOp? && |m| >= MAX_BUCKETS ==> op.key in m
  }

  predicate Fitting<K(==), V>(ops: seq<Op<K, V>>) {
    ops == [] || (Fitting(ops[..|ops| - 1]) && Fits(FinalMap(ops[..|ops| - 1]), ops[|ops| - 1]))
  }

  // Histories without enough operations to fill 2^31 buckets all fit.
  lemma {:induction false} ShortFits<K, V>(ops: seq<Op<K, V>>)
    requires |ops| <= MAX_BUCKETS
    ensures Fitting(ops)
  {
    if ops != [] {
      HistorySize(ops[..|ops| - 1]);
      ShortFits(ops[..|ops| - 1]);
    }
  }

  // An operation is answered, and changes the table, as a map would exactly when
  // it fits.
  method Do<K(0,==,!new), V(0)>(t: HashTable<K, V>, op: Op<K, V>) returns (reply: Reply<V>)
    requires t.Valid()
    modifies t, t.Repr()
    ensures t.Valid() && fresh(t.Repr() - old(t.Repr()))
    ensures (t.Contents(), reply) == Apply(old(t.Contents()), op) <==> Fits(old(t.Contents()), op)
  {
    match op {
      case SetOp(k, v) =>
        t.Set(k, v);
        reply := Done;
      case GetOp(k) =>
        var r := t.Get(k);
        reply := Got(r);
      case HasOp(k) =>
        var r := t.Has(k);
        reply := Flag(r);
      case DelOp(k) =>
        var r := t.Del(k);
        reply := Flag(r);
    }
  }

  // A history of operations on a fresh table.
  method Play<K(0,==,!new), V(0)>(hash: K -> uint32, ops: seq<Op<K, V>>) returns (t: HashTable<K, V>, replies: seq<Reply<V>>)
    ensures t.Valid() && fresh(t) && fresh(t.Repr()) && Answered(ops, t.Contents(), replies)
  {
    t := new HashTable<K, V>(hash);
    replies := [];
    for i := 0 to |ops|
      invariant t.Valid() && fresh(t) && fresh(t.Repr()) && Answered(ops[..i], t.Contents(), replies)
    {
      replies := PlayOne(t, ops, i, replies);
    }
    assert ops[..|ops|] == ops;
  }

  method PlayOne<K(0,==,!new), V(0)>(t: HashTable<K, V>, ops: seq<Op<K, V>>, i: nat, replies0: seq<Reply<V>>)
    returns (replies: seq<Reply<V>>)
    requires t.Valid() && i < |ops| && Answered(ops[..i], t.Contents(), replies0)
    modifies t, t.Repr()
    ensures t.Valid() && fresh(t.Repr() - old(t.Repr())) && Answered(ops[..i + 1], t.Contents(), replies)
  {
    ghost var before := t.Contents();
    var r := Do(t, ops[i]);
    AnsweredNext(ops, i, before, replies0, t.Contents(), r);
    replies := replies0 + [r];
  }

  // Any history of operations on a fresh table is answered as by a map, as long
  // as no new key is set while 2^31 keys are bound.
  method Run<K(0,==,!new), V(0)>(hash: K -> uint32, ops: seq<Op<K, V>>) returns (replies: seq<Reply<V>>)
    ensures Fitting(ops) ==> replies == Replies(ops)
  {
    var t;
    t, replies := Play(hash, ops);
  }

  // Once the history is done the table holds what a map would, and the replies are
  // those of a map, if the history fits.
  ghost predicate Answered<K, V>(ops: seq<Op<K, V>>, m: map<K, V>, replies: seq<Reply<V>>) {
    Fitting(ops) ==> m == FinalMap(ops) && replies == Replies(ops)
  }

  lemma AnsweredNext<K, V>(ops: seq<Op<K, V>>, i: nat, m: map<K, V>, replies: seq<Reply<V>>, m': map<K, V>, r: Reply<V>)
    requires i < |ops| && Answered(ops[..i], m, replies) && ((m', r) == Apply(m, ops[i]) <==> Fits(m, ops[i]))
    ensures Answered(ops[..i + 1], m', replies + [r])
  {
    assert ops[..i + 1][..i] == ops[..i];
  }

  // The numbers below n, set one after the other.
  function Counted(n: nat): seq<Op<nat, nat>> {
    seq(n, i => SetOp(i, i))
  }

  lemma {:induction false} CountedMap(n: nat)
    ensures FinalMap(Counted(n)).Keys == Below(n)
    ensures |FinalMap(Counted(n))| == n
  {
    var m := FinalMap(Counted(n));
    if n > 0 {
      CountedMap(n - 1);
      assert Counted(n)[..n - 1] == Counted(n - 1);
      assert m.Keys == FinalMap<nat, nat>(Counted(n - 1)).Keys + {n - 1};
    }
  }

  // With whatever hash, setting 2^31 + 1 different keys makes the table forget one
  // of the first 2^31.
  method Overfull(hash: nat -> uint32) returns (lost: nat, found: bool)
    ensures lost in FinalMap(Counted(MAX_BUCKETS + 1)) && !found
  {
    ghost var ops := Counted(MAX_BUCKETS);
    ShortFits(ops);
    var t, _ := Play(hash, Counted(MAX_BUCKETS));
    CountedMap(MAX_BUCKETS);
    CountedMap(MAX_BUCKETS + 1);
    lost := Forgets(t, MAX_BUCKETS);
    found := t.Has(lost);
  }

  // Setting an absent key in a full table, which forgets the key it displaces.
  method Forgets(t: HashTable<nat, nat>, key: nat) returns (lost: nat)
    requires t.Valid() && |t.Contents()| == MAX_BUCKETS && key !in t.Contents()
    modifies t, t.Repr()
    ensures t.Valid() && lost in old(t.Contents()) && lost !in t.Contents()
  {
    t.FullIsMax();
    t.DisplacedStored(key);
    lost := t.keys[Mask(t.hash(key), t.nBuckets)];
    assert t.Displaced(key) == {lost};
    t.Set(key, 0);
  }
}
