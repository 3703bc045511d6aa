// The radix Merkle proof verifier, the tree it speaks about, and a prover.
// The digest function H is arbitrary; what is asked of it is only that it has
// no collision, and no all-zero digest, among the byte strings actually hashed.
module RadixProof {
  import opened Bytes

  type Digest = s: bytes | |s| == 32 witness seq(32, i => 0)

  type Hasher = bytes -> Digest

  const ZERO: Digest := seq(32, i => 0)
  const MAX_DATA_SIZE: nat := 668

  // ----- Preimages -----

  function PrefixBytes(size: nat): nat {
    (size + 7) / 8
  }

  // write_u16: little endian
  function U16(x: nat): (r: bytes)
    ensures |r| == 2 && (x < 0x1_0000 ==> r[0] as nat + 256 * (r[1] as nat) == x)
  {
    [x % 256, x / 256 % 256]
  }

  ghost predicate PrefixShape(prefix: bytes, size: nat) {
    size <= 256 && |prefix| == PrefixBytes(size)
  }

  // The three things a digest can stand for: nothing, a leaf, an inner node.
  datatype View =
    | Nothing
    | LeafView(key: Digest, hash: Digest)
    | InnerView(prefix: bytes, size: nat, left: Digest, right: Digest)

  ghost predicate ViewShape(v: View) {
    v.InnerView? ==> PrefixShape(v.prefix, v.size)
  }

  // The tagged byte string that is hashed for a leaf or an inner node.
  function Preimage(v: View): bytes
    requires !v.Nothing?
  {
    match v
    case LeafView(key, hash) => [0] + key + hash
    case InnerView(prefix, size, left, right) =>
      if size == 0 then [1] + left + right
      else [2] + U16(size) + prefix + left + right
  }

  function ViewHash(H: Hasher, v: View): Digest {
    if v.Nothing? then ZERO else H(Preimage(v))
  }

  // The digest of a view, as a function value.
  type Digester = View -> Digest

  function DigesterOf(H: Hasher): (D: Digester)
    ensures forall v :: D(v) == ViewHash(H, v)
  {
    v => ViewHash(H, v)
  }

  // The tags, the size field and the fixed widths make the encoding injective.
  lemma PreimageInjective(v: View, w: View)
    requires ViewShape(v) && ViewShape(w) && !v.Nothing? && !w.Nothing?
    requires Preimage(v) == Preimage(w)
    ensures v == w
  {
    var x, y := Preimage(v), Preimage(w);
    assert x[0] == (if v.LeafView? then 0 else if v.size == 0 then 1 else 2);
    assert y[0] == (if w.LeafView? then 0 else if w.size == 0 then 1 else 2);
    if v.LeafView? {
      assert x[1..33] == v.key && y[1..33] == w.key;
      assert x[33..] == v.hash && y[33..] == w.hash;
    } else {
      InnerInjective(v, w);
    }
  }

  lemma InnerInjective(v: View, w: View)
    requires ViewShape(v) && ViewShape(w) && v.InnerView? && w.InnerView?
    requires (v.size == 0) == (w.size == 0)
    requires Preimage(v) == Preimage(w)
    ensures v == w
  {
    var x, y := Preimage(v), Preimage(w);
    var s := |x| - 64;
    if v.size > 0 {
      assert x[1..3] == U16(v.size) && y[1..3] == U16(w.size);
      assert U16(v.size)[0] == U16(w.size)[0] && U16(v.size)[1] == U16(w.size)[1];
      assert v.size == w.size;
      assert x[3..s] == v.prefix && y[3..s] == w.prefix;
    }
    assert x[s..s + 32] == v.left && y[s..s + 32] == w.left;
    assert x[s + 32..] == v.right && y[s + 32..] == w.right;
  }

  // The byte strings behind a set of views, together with the values.
  ghost function Strings(views: set<View>, values: set<bytes>): set<bytes> {
    (set v | v in views && !v.Nothing? :: Preimage(v)) + values
  }

  ghost predicate CollisionFree(H: Hasher, strings: set<bytes>) {
    && (forall x, y :: x in strings && y in strings && H(x) == H(y) ==> x == y)
    && (forall x :: x in strings ==> H(x) != ZERO)
  }

  // Equal digests stand for equal things.
  ghost predicate Faithful(D: Digester, views: set<View>) {
    && (forall v :: v in views ==> ViewShape(v))
    && forall v, w :: v in views && w in views && D(v) == D(w) ==> v == w
  }

  lemma FreeIsFaithful(H: Hasher, views: set<View>, values: set<bytes>)
    requires CollisionFree(H, Strings(views, values)) && forall v :: v in views ==> ViewShape(v)
    ensures Faithful(DigesterOf(H), views)
  {
    forall v, w | v in views && w in views && ViewHash(H, v) == ViewHash(H, w)
      ensures v == w
    {
      assert !v.Nothing? ==> Preimage(v) in Strings(views, values);
      assert !w.Nothing? ==> Preimage(w) in Strings(views, values);
      if !v.Nothing? && !w.Nothing? {
        PreimageInjective(v, w);
      }
    }
  }

  // ----- Proofs -----

  datatype Node = Node(prefix: bytes, size: nat, node: Digest)

  datatype Kind =
    | DeadEnd
    | Short(prefix: bytes, size: nat, left: Digest, right: Digest)
    | Collision(nxKey: Digest, nxHash: Digest)
    | Exists(value: bytes)

  datatype Proof = Proof(kind: Kind, depth: nat, nodes: seq<Node>)

  // What the proof reader guarantees, and the verifier asserts.
  ghost predicate Decoded(p: Proof) {
    && p.depth <= 256 && |p.nodes| <= 256
    && PathShape(p.nodes)
    && (p.kind.Short? ==> PrefixShape(p.kind.prefix, p.kind.size) && p.kind.size != 0)
    && (p.kind.Exists? ==> |p.kind.value| <= MAX_DATA_SIZE)
  }

  datatype Verdict =
    | Present(data: bytes)
    | Absent
    | SamePath | SameKey | NegDepth | PathMismatch | TooDeep | HashMismatch | BadEncoding

  // ----- The verifier -----

  // The prefix is the next `size` bits of the key.
  ghost predicate OnPath(prefix: bytes, size: nat, key: Digest, depth: nat)
    requires size <= 8 * |prefix|
  {
    size == 0 ||
    (&& depth + size <= 256
     && HasBit(prefix, size - 1) == HasBit(key, depth + size - 1)
     && OnPath(prefix, size - 1, key, depth))
  }

  lemma {:induction false} OnPathBits(prefix: bytes, size: nat, key: Digest, depth: nat, i: nat)
    requires size <= 8 * |prefix| && OnPath(prefix, size, key, depth) && i < size
    ensures depth + size <= 256 && HasBit(prefix, i) == HasBit(key, depth + i)
  {
    if i < size - 1 {
      OnPathBits(prefix, size - 1, key, depth, i);
    }
  }

  // It is so exactly when it fits the key and every bit agrees.
  lemma OnPathExact(prefix: bytes, size: nat, key: Digest, depth: nat)
    requires size <= 8 * |prefix|
    ensures OnPath(prefix, size, key, depth) <==> size == 0 || (depth + size <= 256 && Agree(prefix, size, key, depth))
  {
    if OnPath(prefix, size, key, depth) && size > 0 {
      forall i | 0 <= i < size
        ensures HasBit(prefix, i) == HasBit(key, depth + i)
      {
        OnPathBits(prefix, size, key, depth, i);
      }
    } else if size > 0 && depth + size <= 256 && Agree(prefix, size, key, depth) {
      AgreeOnPath(prefix, size, key, depth, size);
    }
  }

  ghost predicate Agree(prefix: bytes, size: nat, key: Digest, depth: nat)
    requires size <= 8 * |prefix| && depth + size <= 256
  {
    forall i :: 0 <= i < size ==> HasBit(prefix, i) == HasBit(key, depth + i)
  }

  lemma {:induction false} AgreeOnPath(prefix: bytes, size: nat, key: Digest, depth: nat, n: nat)
    requires n <= size <= 8 * |prefix| && depth + size <= 256 && Agree(prefix, size, key, depth)
    ensures OnPath(prefix, n, key, depth)
  {
    if n > 0 {
      AgreeOnPath(prefix, size, key, depth, n - 1);
      var i := n - 1;
      assert HasBit(prefix, i) == HasBit(key, depth + i);
    }
  }

  // The verifier's comparison loop.
  method HasPrefix(prefix: bytes, size: nat, key: Digest, depth: nat) returns (r: bool)
    requires PrefixShape(prefix, size) && depth <= 256
    ensures r == OnPath(prefix, size, key, depth)
  {
    var xs, ys := size, 256 - depth;
    var len := if xs < ys then xs else ys;
    var x, y, c := 0, depth, 0;
    for i := 0 to len
      invariant x == c == i && y == depth + i && OnPath(prefix, i, key, depth)
    {
      if BitAt(prefix, x) != BitAt(key, y) {
        if OnPath(prefix, size, key, depth) {
          OnPathBits(prefix, size, key, depth, i);
        }
        break;
      }
      x, y, c := x + 1, y + 1, c + 1;
    }
    return c == size;
  }

  // The embedded name state: name size and name, then resource size and resource.
  function ParseNamestate(data: bytes): Option<bytes> {
    if |data| > MAX_DATA_SIZE || |data| < 1 then None
    else
      var rest := data[1..];
      if |rest| < data[0] then None
      else
        var rest := rest[data[0]..];
        if |rest| < 2 then None
        else
          var size: nat := rest[0] as nat + 256 * (rest[1] as nat);
          var rest := rest[2..];
          if |rest| < size then None else Some(rest[..size])
  }

  // What a name state is written as: the name behind its size in one byte, and the
  // resource behind its size in two, the low one first.  More may follow.
  function Written(name: bytes, res: bytes, rest: bytes): bytes
    requires |name| < 0x100 && |res| < 0x1_0000
  {
    [|name|] + (name + ([|res| % 256, |res| / 256] + (res + rest)))
  }

  ghost predicate HoldsResource(value: bytes, res: bytes) {
    |value| <= MAX_DATA_SIZE && exists name: bytes, rest: bytes :: WrittenAs(value, name, res, rest)
  }

  predicate WrittenAs(value: bytes, name: bytes, res: bytes, rest: bytes) {
    |name| < 0x100 && |res| < 0x1_0000 && value == Written(name, res, rest)
  }

  lemma NamestateRead(name: bytes, res: bytes, rest: bytes)
    requires |name| < 0x100 && |res| < 0x1_0000 && |Written(name, res, rest)| <= MAX_DATA_SIZE
    ensures ParseNamestate(Written(name, res, rest)) == Some(res)
  {
    var data := Written(name, res, rest);
    var size: bytes := [|res| % 256, |res| / 256];
    assert data[1..] == name + (size + (res + rest));
    assert data[1..][data[0]..] == size + (res + rest);
    assert data[1..][data[0]..][2..] == res + rest;
  }

  lemma NamestateSplit(value: bytes) returns (name: bytes, res: bytes, rest: bytes)
    requires ParseNamestate(value).Some?
    ensures WrittenAs(value, name, res, rest) && ParseNamestate(value) == Some(res)
  {
    var behind := value[1..];
    var tail: bytes;
    name, tail := Cut(behind, value[0]);
    var size, data := Cut(tail, 2);
    res, rest := Cut(data, size[0] as nat + 256 * (size[1] as nat));
    assert size == [|res| % 256, |res| / 256];
    assert value == [|name|] + behind;
  }

  lemma Cut(s: bytes, n: nat) returns (front: bytes, back: bytes)
    requires n <= |s|
    ensures front == s[..n] && back == s[n..] && s == front + back
  {
    front, back := s[..n], s[n..];
  }

  // The resource that is read is the one that was written.
  lemma NamestateExact(value: bytes, res: bytes)
    ensures ParseNamestate(value) == Some(res) <==> HoldsResource(value, res)
  {
    if HoldsResource(value, res) {
      var name: bytes, rest: bytes :| WrittenAs(value, name, res, rest);
      NamestateRead(name, res, rest);
    }
    if ParseNamestate(value) == Some(res) {
      var name, read, rest := NamestateSplit(value);
      assert WrittenAs(value, name, res, rest);
    }
  }

  lemma NamestatesExact(value: bytes)
    ensures forall res :: ParseNamestate(value) == Some(res) <==> HoldsResource(value, res)
  {
    forall res
      ensures ParseNamestate(value) == Some(res) <==> HoldsResource(value, res)
    {
      NamestateExact(value, res);
    }
  }

  function KindView(H: Hasher, key: Digest, kind: Kind): View {
    match kind
    case DeadEnd => Nothing
    case Short(prefix, size, left, right) => InnerView(prefix, size, left, right)
    case Collision(nxKey, nxHash) => LeafView(nxKey, nxHash)
    case Exists(value) => LeafView(key, H(value))
  }

  // `item` at `depth`, on the way to `key`, above the digest `child`.
  function NodeView(key: Digest, item: Node, depth: nat, child: Digest): View
    requires depth + item.size < 256
  {
    if HasBit(key, depth + item.size) == 1 then InnerView(item.prefix, item.size, item.node, child)
    else InnerView(item.prefix, item.size, child, item.node)
  }

  // Where a path of nodes that starts at `depth` ends.
  function End(nodes: seq<Node>, depth: nat): (d: nat)
    ensures d >= depth
  {
    if nodes == [] then depth else End(nodes[1..], depth + nodes[0].size + 1)
  }

  ghost predicate PathShape(nodes: seq<Node>) {
    nodes == [] || (PrefixShape(nodes[0].prefix, nodes[0].size) && PathShape(nodes[1..]))
  }

  lemma {:induction false} PathShapeSplit(nodes: seq<Node>, i: nat)
    requires PathShape(nodes) && i < |nodes|
    ensures PathShape(nodes[..i]) && PrefixShape(nodes[i].prefix, nodes[i].size)
    decreases |nodes|
  {
    if i > 0 {
      assert nodes[..i][1..] == nodes[1..][..i - 1];
      PathShapeSplit(nodes[1..], i - 1);
    }
  }

  lemma {:induction false} PathShapeSnoc(nodes: seq<Node>, x: Node)
    requires PathShape(nodes) && PrefixShape(x.prefix, x.size)
    ensures PathShape(nodes + [x])
    decreases |nodes|
  {
    if nodes != [] {
      assert (nodes + [x])[1..] == nodes[1..] + [x];
      PathShapeSnoc(nodes[1..], x);
    }
  }

  // From the top: the path follows the key ...
  ghost predicate Follows(key: Digest, nodes: seq<Node>, depth: nat)
    requires PathShape(nodes)
  {
    nodes == [] ||
    (&& depth + nodes[0].size < 256
     && OnPath(nodes[0].prefix, nodes[0].size, key, depth)
     && Follows(key, nodes[1..], depth + nodes[0].size + 1))
  }

  // ... and this is its digest, when `leaf` sits at its end.
  function TopHash(D: Digester, key: Digest, nodes: seq<Node>, depth: nat, leaf: Digest): Digest
    requires PathShape(nodes)
    requires End(nodes, depth) <= 256
  {
    if nodes == [] then leaf
    else
      EndGrows(nodes[1..], depth + nodes[0].size + 1);
      D(NodeView(key, nodes[0], depth, TopHash(D, key, nodes[1..], depth + nodes[0].size + 1, leaf)))
  }

  lemma EndGrows(nodes: seq<Node>, depth: nat)
    ensures End(nodes, depth) >= depth
  {
  }

  // What a dead end or another key's leaf claims can be said of this key.
  ghost predicate KindFits(key: Digest, p: Proof)
    requires Decoded(p)
  {
    && (p.kind.Short? ==> !OnPath(p.kind.prefix, p.kind.size, key, p.depth))
    && (p.kind.Collision? ==> p.kind.nxKey != key)
  }

  // What an accepted proof means, read from the top.
  ghost predicate Accepted(H: Hasher, root: Digest, key: Digest, p: Proof)
    requires Decoded(p)
  {
    && KindFits(key, p)
    && End(p.nodes, 0) == p.depth
    && Follows(key, p.nodes, 0)
    && var D := DigesterOf(H);
       TopHash(D, key, p.nodes, 0, D(KindView(H, key, p.kind))) == root
  }

  lemma {:induction false} EndSnoc(nodes: seq<Node>, x: Node, depth: nat)
    ensures End(nodes + [x], depth) == End(nodes, depth) + x.size + 1
    decreases |nodes|
  {
    if nodes != [] {
      assert (nodes + [x])[1..] == nodes[1..] + [x];
      EndSnoc(nodes[1..], x, depth + nodes[0].size + 1);
    } else {
      assert nodes + [x] == [x];
    }
  }

  lemma {:induction false} FollowsSnoc(key: Digest, nodes: seq<Node>, x: Node, depth: nat)
    requires PathShape(nodes)
    requires PrefixShape(x.prefix, x.size)
    ensures PathShape(nodes + [x])
    ensures Follows(key, nodes + [x], depth) <==>
      && Follows(key, nodes, depth)
      && End(nodes, depth) + x.size < 256 && OnPath(x.prefix, x.size, key, End(nodes, depth))
    decreases |nodes|
  {
    var all := nodes + [x];
    PathShapeSnoc(nodes, x);
    if nodes != [] {
      assert all[1..] == nodes[1..] + [x];
      FollowsSnoc(key, nodes[1..], x, depth + nodes[0].size + 1);
    } else {
      assert all == [x] && all[1..] == [];
    }
  }

  lemma {:induction false} TopHashSnoc(D: Digester, key: Digest, nodes: seq<Node>, x: Node, depth: nat, leaf: Digest)
    requires PathShape(nodes)
    requires PrefixShape(x.prefix, x.size) && End(nodes + [x], depth) <= 256
    ensures PathShape(nodes + [x]) && End(nodes, depth) + x.size < 256
    ensures TopHash(D, key, nodes + [x], depth, leaf)
         == TopHash(D, key, nodes, depth, D(NodeView(key, x, End(nodes, depth), leaf)))
    decreases |nodes|
  {
    var all := nodes + [x];
    PathShapeSnoc(nodes, x);
    EndSnoc(nodes, x, depth);
    if nodes != [] {
      assert all[1..] == nodes[1..] + [x];
      TopHashSnoc(D, key, nodes[1..], x, depth + nodes[0].size + 1, leaf);
    } else {
      assert all == [x] && all[1..] == [];
    }
  }

  // The verifier climbs from the leaf; its verdict is what the proof means
  // from the top.
  method Verify(H: Hasher, root: Digest, key: Digest, p: Proof) returns (v: Verdict)
    requires Decoded(p)
    ensures forall res :: v == Present(res) <==> Accepted(H, root, key, p) && p.kind.Exists? && HoldsResource(p.kind.value, res)
    ensures v.Absent? <==> Accepted(H, root, key, p) && !p.kind.Exists?
    ensures v == BadEncoding <==> Accepted(H, root, key, p) && p.kind.Exists? && forall res :: !HoldsResource(p.kind.value, res)
    ensures v == SamePath <==> p.kind.Short? && OnPath(p.kind.prefix, p.kind.size, key, p.depth)
    ensures v == SameKey <==> p.kind.Collision? && p.kind.nxKey == key
    ensures v in {NegDepth, PathMismatch, TooDeep} ==> Fault(key, p.nodes, p.depth, v)
    ensures v == HashMismatch <==> KindFits(key, p) && Reaches(key, p.nodes, 0, p.depth) && !Accepted(H, root, key, p)
  {
    match p.kind {
      case Short(prefix, size, _, _) =>
        var same := HasPrefix(prefix, size, key, p.depth);
        if same {
          return SamePath;
        }
      case Collision(nxKey, _) =>
        if nxKey == key {
          return SameKey;
        }
      case _ =>
    }
    var D := DigesterOf(H);
    var climbed := Climb(D, key, p.nodes, p.depth, D(KindView(H, key, p.kind)));
    if climbed.Failure? {
      return climbed.error;
    }
    if climbed.digest != root {
      return HashMismatch;
    }
    if p.kind.Exists? {
      NamestatesExact(p.kind.value);
      match ParseNamestate(p.kind.value) {
        case None => return BadEncoding;
        case Some(data) => return Present(data);
      }
    }
    return Absent;
  }

  // The nodes follow the key from depth d down to `start`.
  ghost predicate Reaches(key: Digest, nodes: seq<Node>, d: nat, start: nat)
    requires PathShape(nodes)
  {
    Follows(key, nodes, d) && End(nodes, d) == start
  }

  // The nodes below node i reach the leaf from depth d.
  ghost predicate ReachesBelow(key: Digest, nodes: seq<Node>, i: nat, d: nat, start: nat)
    requires PathShape(nodes) && i < |nodes|
  {
    && PathShape(nodes[i..]) && PathShape(nodes[i..][1..])
    && Reaches(key, nodes[i..][1..], d, start)
  }

  // Why a path is refused.  Some nodes at its end do reach the leaf; but the node above
  // them is longer than the depth they start at, or does not follow the key there; or
  // they are all the nodes, and start below the root.
  ghost predicate Fault(key: Digest, nodes: seq<Node>, start: nat, error: Verdict)
    requires PathShape(nodes)
  {
    match error
    case NegDepth =>
      exists i: nat, d: nat :: i < |nodes| && ReachesBelow(key, nodes, i, d, start) && d < nodes[i].size + 1
    case PathMismatch =>
      exists i: nat, d: nat :: i < |nodes| && ReachesBelow(key, nodes, i, d, start) && d >= nodes[i].size + 1
        && PrefixShape(nodes[i].prefix, nodes[i].size) && !OnPath(nodes[i].prefix, nodes[i].size, key, d - nodes[i].size - 1)
    case TooDeep => exists d: nat :: d > 0 && Reaches(key, nodes, d, start)
    case _ => false
  }

  lemma {:induction false} PathShapeTail(nodes: seq<Node>, i: nat)
    requires PathShape(nodes) && i <= |nodes|
    ensures PathShape(nodes[i..])
  {
    if i > 0 {
      PathShapeTail(nodes[1..], i - 1);
      assert nodes[1..][i - 1..] == nodes[i..];
    } else {
      assert nodes[0..] == nodes;
    }
  }

  // One more node above.
  lemma ReachesFrom(key: Digest, nodes: seq<Node>, i: nat, d: nat, start: nat)
    requires PathShape(nodes) && i < |nodes| && PathShape(nodes[i + 1..]) && Reaches(key, nodes[i + 1..], d, start)
    ensures ReachesBelow(key, nodes, i, d, start) && PrefixShape(nodes[i].prefix, nodes[i].size)
    ensures d >= nodes[i].size + 1 && d <= 256 && OnPath(nodes[i].prefix, nodes[i].size, key, d - nodes[i].size - 1) ==>
      Reaches(key, nodes[i..], d - nodes[i].size - 1, start)
  {
    PathShapeTail(nodes, i);
    PathShapeSplit(nodes, i);
    assert nodes[i..][1..] == nodes[i + 1..] && nodes[i..][0] == nodes[i];
  }

  datatype Climbed = Failure(error: Verdict) | Reached(digest: Digest)

  // What holds when the nodes from i on have been climbed, up to `depth` and `next`: they
  // follow the key, and the rest of the path is as good as the whole.
  ghost predicate Climbing(D: Digester, key: Digest, nodes: seq<Node>, start: nat, leaf: Digest, i: nat, depth: nat, next: Digest)
    requires PathShape(nodes)
  {
    && i <= |nodes| && depth <= 256 && PathShape(nodes[..i]) && PathShape(nodes[i..])
    && Reaches(key, nodes[i..], depth, start)
    && (Reaches(key, nodes, 0, start) <==> Reaches(key, nodes[..i], 0, depth))
    && (Reaches(key, nodes, 0, start) ==>
          start <= 256 && TopHash(D, key, nodes, 0, leaf) == TopHash(D, key, nodes[..i], 0, next))
  }

  // One node up.
  lemma ClimbUp(D: Digester, key: Digest, nodes: seq<Node>, start: nat, leaf: Digest, i: nat, depth: nat, next: Digest)
    requires PathShape(nodes) && i < |nodes| && Climbing(D, key, nodes, start, leaf, i + 1, depth, next)
    ensures PathShape(nodes[..i]) && PrefixShape(nodes[i].prefix, nodes[i].size) && ReachesBelow(key, nodes, i, depth, start)
    ensures Reaches(key, nodes, 0, start) <==>
      depth >= nodes[i].size + 1 && OnPath(nodes[i].prefix, nodes[i].size, key, depth - nodes[i].size - 1)
      && Reaches(key, nodes[..i], 0, depth - nodes[i].size - 1)
    ensures depth >= nodes[i].size + 1 && OnPath(nodes[i].prefix, nodes[i].size, key, depth - nodes[i].size - 1) ==>
      Climbing(D, key, nodes, start, leaf, i, depth - nodes[i].size - 1, D(NodeView(key, nodes[i], depth - nodes[i].size - 1, next)))
  {
    var item, front := nodes[i], nodes[..i];
    assert nodes[..i + 1] == front + [item];
    PathShapeSplit(nodes[..i + 1], i);
    assert nodes[..i + 1][..i] == front;
    EndSnoc(front, item, 0);
    FollowsSnoc(key, front, item, 0);
    ReachesFrom(key, nodes, i, depth, start);
    if Reaches(key, nodes, 0, start) {
      TopHashSnoc(D, key, front, item, 0, next);
    }
  }

  // The loop over the nodes, from the leaf up.
  method Climb(D: Digester, key: Digest, nodes: seq<Node>, start: nat, leaf: Digest) returns (r: Climbed)
    requires PathShape(nodes) && start <= 256
    ensures r.Reached? <==> Reaches(key, nodes, 0, start)
    ensures r.Reached? ==> r.digest == TopHash(D, key, nodes, 0, leaf)
    ensures r.Failure? ==> Fault(key, nodes, start, r.error)
  {
    var next, depth: nat, i := leaf, start, |nodes|;
    assert nodes[..i] == nodes && nodes[i..] == [];
    while i > 0
      invariant i <= |nodes| && Climbing(D, key, nodes, start, leaf, i, depth, next)
    {
      i := i - 1;
      var item := nodes[i];
      ClimbUp(D, key, nodes, start, leaf, i, depth, next);
      if depth < item.size + 1 {
        return Failure(NegDepth);
      }
      next := D(if BitAt(key, depth - 1) == 1 then InnerView(item.prefix, item.size, item.node, next)
                else InnerView(item.prefix, item.size, next, item.node));
      depth := depth - item.size - 1;
      var on := HasPrefix(item.prefix, item.size, key, depth);
      if !on {
        return Failure(PathMismatch);
      }
    }
    assert nodes[..0] == [] && nodes[0..] == nodes;
    if depth != 0 {
      assert Reaches(key, nodes, depth, start);
      return Failure(TooDeep);
    }
    return Reached(next);
  }

  // ----- The tree -----

  datatype Tree =
    | Nil
    | Leaf(key: Digest, value: bytes)
    | Internal(prefix: bytes, size: nat, left: Tree, right: Tree)

  // Bits of the tree's prefixes fit the key length.
  ghost predicate Shaped(t: Tree, depth: nat) {
    match t
    case Internal(prefix, size, left, right) =>
      && PrefixShape(prefix, size) && depth + size < 256
      && Shaped(left, depth + size + 1) && Shaped(right, depth + size + 1)
    case _ => true
  }

  function TreeView(H: Hasher, D: Digester, t: Tree, depth: nat): View
    requires Shaped(t, depth)
    decreases t, 0
  {
    match t
    case Nil => Nothing
    case Leaf(key, value) => LeafView(key, H(value))
    case Internal(prefix, size, left, right) =>
      InnerView(prefix, size, TreeHash(H, D, left, depth + size + 1), TreeHash(H, D, right, depth + size + 1))
  }

  function TreeHash(H: Hasher, D: Digester, t: Tree, depth: nat): Digest
    requires Shaped(t, depth)
    decreases t, 1
  {
    D(TreeView(H, D, t, depth))
  }

  // The value the tree stores under a key.
  ghost function Lookup(t: Tree, key: Digest, depth: nat): Option<bytes>
    requires Shaped(t, depth)
  {
    match t
    case Nil => None
    case Leaf(k, v) => if k == key then Some(v) else None
    case Internal(prefix, size, left, right) =>
      if !OnPath(prefix, size, key, depth) then None
      else if HasBit(key, depth + size) == 1 then Lookup(right, key, depth + size + 1)
      else Lookup(left, key, depth + size + 1)
  }

  // Every leaf key starts with the first `depth` bits of `path` and sits where
  // its own bits lead.
  ghost predicate Sorted(t: Tree, path: Digest, depth: nat)
    requires Shaped(t, depth) && depth <= 256
  {
    match t
    case Nil => true
    case Leaf(k, v) => SameBits(k, path, depth)
    case Internal(prefix, size, left, right) =>
      && (forall k: Digest, v :: Stores(t, k, v) ==> SameBits(k, path, depth) && OnPath(prefix, size, k, depth))
      && (forall k: Digest, v :: Stores(left, k, v) ==> HasBit(k, depth + size) == 0)
      && (forall k: Digest, v :: Stores(right, k, v) ==> HasBit(k, depth + size) == 1)
      && (forall k: Digest, v :: Stores(left, k, v) ==> Sorted(left, k, depth + size + 1))
      && (forall k: Digest, v :: Stores(right, k, v) ==> Sorted(right, k, depth + size + 1))
  }

  ghost predicate SameBits(a: Digest, b: Digest, n: nat)
    requires n <= 256
  {
    forall i :: 0 <= i < n ==> HasBit(a, i) == HasBit(b, i)
  }

  ghost predicate Stores(t: Tree, k: Digest, v: bytes) {
    match t
    case Nil => false
    case Leaf(k', v') => k == k' && v == v'
    case Internal(_, _, left, right) => Stores(left, k, v) || Stores(right, k, v)
  }

  // In a sorted tree, lookup finds exactly what is stored.
  lemma {:induction false} LookupStores(t: Tree, path: Digest, depth: nat, key: Digest, value: bytes)
    requires Shaped(t, depth) && depth <= 256 && Sorted(t, path, depth)
    ensures Lookup(t, key, depth) == Some(value) <==> Stores(t, key, value)
    decreases t
  {
    match t {
      case Internal(prefix, size, left, right) =>
        if Stores(left, key, value) {
          LookupStores(left, key, depth + size + 1, key, value);
        }
        if Stores(right, key, value) {
          LookupStores(right, key, depth + size + 1, key, value);
        }
        if Lookup(t, key, depth) == Some(value) {
          LookupIsStored(t, key, depth, value);
        }
      case _ =>
    }
  }

  lemma {:induction false} LookupIsStored(t: Tree, key: Digest, depth: nat, value: bytes)
    requires Shaped(t, depth) && Lookup(t, key, depth) == Some(value)
    ensures Stores(t, key, value)
    decreases t
  {
    match t {
      case Internal(prefix, size, left, right) =>
        if HasBit(key, depth + size) == 1 {
          LookupIsStored(right, key, depth + size + 1, value);
        } else {
          LookupIsStored(left, key, depth + size + 1, value);
        }
      case _ =>
    }
  }

  // ----- What gets hashed -----

  ghost function TreeViews(H: Hasher, D: Digester, t: Tree, depth: nat): set<View>
    requires Shaped(t, depth)
  {
    {TreeView(H, D, t, depth)} +
    match t
    case Internal(prefix, size, left, right) =>
      TreeViews(H, D, left, depth + size + 1) + TreeViews(H, D, right, depth + size + 1)
    case _ => {}
  }

  ghost function TreeValues(t: Tree): set<bytes> {
    match t
    case Nil => {}
    case Leaf(key, value) => {value}
    case Internal(prefix, size, left, right) => TreeValues(left) + TreeValues(right)
  }

  ghost function PathViews(D: Digester, key: Digest, nodes: seq<Node>, depth: nat, leaf: Digest): set<View>
    requires PathShape(nodes)
    requires End(nodes, depth) <= 256
  {
    if nodes == [] then {}
    else
      EndGrows(nodes[1..], depth + nodes[0].size + 1);
      {NodeView(key, nodes[0], depth, TopHash(D, key, nodes[1..], depth + nodes[0].size + 1, leaf))}
      + PathViews(D, key, nodes[1..], depth + nodes[0].size + 1, leaf)
  }

  ghost function ProofViews(H: Hasher, D: Digester, key: Digest, p: Proof): set<View>
    requires Decoded(p) && End(p.nodes, 0) <= 256
  {
    {KindView(H, key, p.kind)} + PathViews(D, key, p.nodes, 0, D(KindView(H, key, p.kind)))
  }

  ghost function KindValues(kind: Kind): set<bytes> {
    if kind.Exists? then {kind.value} else {}
  }

  lemma {:induction false} TreeViewsShaped(H: Hasher, D: Digester, t: Tree, depth: nat)
    requires Shaped(t, depth)
    ensures forall v :: v in TreeViews(H, D, t, depth) ==> ViewShape(v)
    decreases t
  {
    match t {
      case Internal(prefix, size, left, right) =>
        TreeViewsShaped(H, D, left, depth + size + 1);
        TreeViewsShaped(H, D, right, depth + size + 1);
      case _ =>
    }
  }

  lemma {:induction false} PathViewsShaped(D: Digester, key: Digest, nodes: seq<Node>, depth: nat, leaf: Digest)
    requires PathShape(nodes) && End(nodes, depth) <= 256
    ensures forall v :: v in PathViews(D, key, nodes, depth, leaf) ==> ViewShape(v)
    decreases |nodes|
  {
    if nodes != [] {
      PathViewsShaped(D, key, nodes[1..], depth + nodes[0].size + 1, leaf);
    }
  }

  // ----- Soundness against a tree -----

  ghost predicate KindOk(key: Digest, kind: Kind, depth: nat) {
    && (kind.Short? ==> PrefixShape(kind.prefix, kind.size) && !OnPath(kind.prefix, kind.size, key, depth))
    && (kind.Collision? ==> kind.nxKey != key)
  }

  // What a proof of this kind says is stored under the key.
  ghost function Claim(kind: Kind): Option<bytes> {
    if kind.Exists? then Some(kind.value) else None
  }

  // What the top digest of a path stands for.
  ghost function TopView(H: Hasher, D: Digester, key: Digest, kind: Kind, nodes: seq<Node>, depth: nat): (v: View)
    requires PathShape(nodes) && End(nodes, depth) <= 256
    ensures D(v) == TopHash(D, key, nodes, depth, D(KindView(H, key, kind)))
    ensures v in {KindView(H, key, kind)} + PathViews(D, key, nodes, depth, D(KindView(H, key, kind)))
  {
    if nodes == [] then KindView(H, key, kind)
    else
      EndGrows(nodes[1..], depth + nodes[0].size + 1);
      NodeView(key, nodes[0], depth, TopHash(D, key, nodes[1..], depth + nodes[0].size + 1, D(KindView(H, key, kind))))
  }

  // A path of nodes that follows the key down to a fitting end, all of whose
  // views and values are among the given ones.
  ghost predicate Path(
    H: Hasher, D: Digester, key: Digest, kind: Kind, nodes: seq<Node>, depth: nat, views: set<View>, values: set<bytes>)
  {
    && PathShape(nodes) && Follows(key, nodes, depth) && End(nodes, depth) <= 256
    && KindOk(key, kind, End(nodes, depth))
    && KindView(H, key, kind) in views && PathViews(D, key, nodes, depth, D(KindView(H, key, kind))) <= views
    && KindValues(kind) <= values
  }

  lemma PathTail(
    H: Hasher, D: Digester, key: Digest, kind: Kind, nodes: seq<Node>, depth: nat, views: set<View>, values: set<bytes>)
    requires Path(H, D, key, kind, nodes, depth, views, values) && nodes != []
    ensures Path(H, D, key, kind, nodes[1..], depth + nodes[0].size + 1, views, values)
  {
  }

  lemma {:induction false} PathMeansLookup(
    H: Hasher, D: Digester, t: Tree, key: Digest, kind: Kind, nodes: seq<Node>, depth: nat,
    views: set<View>, values: set<bytes>)
    requires Shaped(t, depth) && Faithful(D, views) && CollisionFree(H, values)
    requires Path(H, D, key, kind, nodes, depth, views, values)
    requires TreeViews(H, D, t, depth) <= views && TreeValues(t) <= values
    requires TopHash(D, key, nodes, depth, D(KindView(H, key, kind))) == TreeHash(H, D, t, depth)
    ensures Lookup(t, key, depth) == Claim(kind)
    decreases |nodes|
  {
    assert TreeView(H, D, t, depth) == TopView(H, D, key, kind, nodes, depth);
    if nodes != [] {
      var item := nodes[0];
      assert t.Internal? && t.prefix == item.prefix && t.size == item.size;
      PathTail(H, D, key, kind, nodes, depth, views, values);
      PathMeansLookup(H, D, if HasBit(key, depth + item.size) == 1 then t.right else t.left,
                      key, kind, nodes[1..], depth + item.size + 1, views, values);
    }
  }

  // If the proof is accepted against the digest of a tree, its claim is the
  // tree's own lookup.
  lemma Soundness(H: Hasher, t: Tree, key: Digest, p: Proof)
    requires Decoded(p) && Shaped(t, 0) && Accepted(H, TreeHash(H, DigesterOf(H), t, 0), key, p)
    requires CollisionFree(H, Strings(TreeViews(H, DigesterOf(H), t, 0) + ProofViews(H, DigesterOf(H), key, p),
                                      TreeValues(t) + KindValues(p.kind)))
    ensures Lookup(t, key, 0) == Claim(p.kind)
  {
    var D := DigesterOf(H);
    var views, values := TreeViews(H, D, t, 0) + ProofViews(H, D, key, p), TreeValues(t) + KindValues(p.kind);
    TreeViewsShaped(H, D, t, 0);
    PathViewsShaped(D, key, p.nodes, 0, D(KindView(H, key, p.kind)));
    FreeIsFaithful(H, views, values);
    PathMeansLookup(H, D, t, key, p.kind, p.nodes, 0, views, values);
  }

  // ----- Agreement of two proofs, for an arbitrary root -----

  lemma {:induction false} PathsAgree(
    H: Hasher, D: Digester, key: Digest, a: Kind, ns: seq<Node>, b: Kind, ms: seq<Node>, depth: nat,
    views: set<View>, values: set<bytes>)
    requires Faithful(D, views) && CollisionFree(H, values)
    requires Path(H, D, key, a, ns, depth, views, values)
    requires Path(H, D, key, b, ms, depth, views, values)
    requires TopHash(D, key, ns, depth, D(KindView(H, key, a))) == TopHash(D, key, ms, depth, D(KindView(H, key, b)))
    ensures Claim(a) == Claim(b)
    decreases |ns|
  {
    assert TopView(H, D, key, a, ns, depth) == TopView(H, D, key, b, ms, depth);
    if ns != [] && ms != [] {
      PathTail(H, D, key, a, ns, depth, views, values);
      PathTail(H, D, key, b, ms, depth, views, values);
      SameStep(D, key, ns, D(KindView(H, key, a)), ms, D(KindView(H, key, b)), depth);
      PathsAgree(H, D, key, a, ns[1..], b, ms[1..], depth + ns[0].size + 1, views, values);
    }
  }

  // Two paths with equal top nodes go on alike below them.
  lemma SameStep(D: Digester, key: Digest, ns: seq<Node>, x: Digest, ms: seq<Node>, y: Digest, depth: nat)
    requires PathShape(ns) && End(ns, depth) <= 256 && ns != []
    requires PathShape(ms) && End(ms, depth) <= 256 && ms != []
    requires End(ns[1..], depth + ns[0].size + 1) <= 256 && End(ms[1..], depth + ms[0].size + 1) <= 256
    requires NodeView(key, ns[0], depth, TopHash(D, key, ns[1..], depth + ns[0].size + 1, x))
          == NodeView(key, ms[0], depth, TopHash(D, key, ms[1..], depth + ms[0].size + 1, y))
    ensures ns[0].size == ms[0].size
    ensures TopHash(D, key, ns[1..], depth + ns[0].size + 1, x) == TopHash(D, key, ms[1..], depth + ms[0].size + 1, y)
  {
  }

  // Two proofs accepted for the same root and key agree on existence and on
  // the value, whatever the root is.
  lemma Agreement(H: Hasher, root: Digest, key: Digest, p: Proof, q: Proof)
    requires Decoded(p) && Decoded(q) && Accepted(H, root, key, p) && Accepted(H, root, key, q)
    requires CollisionFree(H, Strings(ProofViews(H, DigesterOf(H), key, p) + ProofViews(H, DigesterOf(H), key, q),
                                      KindValues(p.kind) + KindValues(q.kind)))
    ensures Claim(p.kind) == Claim(q.kind)
  {
    var D := DigesterOf(H);
    var views, values := ProofViews(H, D, key, p) + ProofViews(H, D, key, q), KindValues(p.kind) + KindValues(q.kind);
    PathViewsShaped(D, key, p.nodes, 0, D(KindView(H, key, p.kind)));
    PathViewsShaped(D, key, q.nodes, 0, D(KindView(H, key, q.kind)));
    FreeIsFaithful(H, views, values);
    PathsAgree(H, D, key, p.kind, p.nodes, q.kind, q.nodes, 0, views, values);
  }

  // ----- Completeness: the honest proof is accepted -----

  // The proof a holder of the tree builds by walking down to the key.
  ghost function Prove(H: Hasher, D: Digester, t: Tree, key: Digest, depth: nat): (p: Proof)
    requires Shaped(t, depth) && depth <= 256
    decreases t
  {
    match t
    case Nil => Proof(DeadEnd, depth, [])
    case Leaf(k, v) =>
      if k == key then Proof(Exists(v), depth, []) else Proof(Collision(k, H(v)), depth, [])
    case Internal(prefix, size, left, right) =>
      var d := depth + size + 1;
      if !OnPath(prefix, size, key, depth) then
        Proof(Short(prefix, size, TreeHash(H, D, left, d), TreeHash(H, D, right, d)), depth, [])
      else
        var bit := HasBit(key, depth + size);
        var sub := Prove(H, D, if bit == 1 then right else left, key, d);
        var item := Node(prefix, size, TreeHash(H, D, if bit == 1 then left else right, d));
        Proof(sub.kind, sub.depth, [item] + sub.nodes)
  }

  ghost predicate Honest(H: Hasher, D: Digester, t: Tree, key: Digest, depth: nat, p: Proof)
    requires Shaped(t, depth)
  {
    && PathShape(p.nodes) && p.depth == End(p.nodes, depth) <= 256
    && Follows(key, p.nodes, depth) && |p.nodes| <= 256 - depth
    && KindOk(key, p.kind, p.depth) && (p.kind.Short? ==> p.kind.size != 0)
    && TopHash(D, key, p.nodes, depth, D(KindView(H, key, p.kind))) == TreeHash(H, D, t, depth)
    && Claim(p.kind) == Lookup(t, key, depth)
  }

  lemma PathCons(D: Digester, key: Digest, item: Node, nodes: seq<Node>, depth: nat, leaf: Digest)
    requires PrefixShape(item.prefix, item.size) && PathShape(nodes) && depth + item.size < 256
    requires End(nodes, depth + item.size + 1) <= 256
    requires OnPath(item.prefix, item.size, key, depth) && Follows(key, nodes, depth + item.size + 1)
    ensures PathShape([item] + nodes) && End([item] + nodes, depth) == End(nodes, depth + item.size + 1)
    ensures Follows(key, [item] + nodes, depth)
    ensures TopHash(D, key, [item] + nodes, depth, leaf)
         == D(NodeView(key, item, depth, TopHash(D, key, nodes, depth + item.size + 1, leaf)))
  {
    assert ([item] + nodes)[1..] == nodes;
  }

  // Where the walk stops at once.
  lemma HonestStop(H: Hasher, D: Digester, t: Tree, key: Digest, depth: nat)
    requires Shaped(t, depth) && depth <= 256
    requires t.Internal? ==> !OnPath(t.prefix, t.size, key, depth)
    ensures Honest(H, D, t, key, depth, Prove(H, D, t, key, depth))
  {
  }

  // Where it goes on below an inner node.
  lemma HonestStep(H: Hasher, D: Digester, t: Tree, key: Digest, depth: nat, next: Tree, other: Tree, sub: Proof)
    requires Shaped(t, depth) && t.Internal? && OnPath(t.prefix, t.size, key, depth)
    requires (next, other) == if HasBit(key, depth + t.size) == 1 then (t.right, t.left) else (t.left, t.right)
    requires Honest(H, D, next, key, depth + t.size + 1, sub)
    ensures var item := Node(t.prefix, t.size, TreeHash(H, D, other, depth + t.size + 1));
      Honest(H, D, t, key, depth, Proof(sub.kind, sub.depth, [item] + sub.nodes))
  {
    var item := Node(t.prefix, t.size, TreeHash(H, D, other, depth + t.size + 1));
    PathCons(D, key, item, sub.nodes, depth, D(KindView(H, key, sub.kind)));
  }

  lemma ProveStep(H: Hasher, D: Digester, t: Tree, key: Digest, depth: nat, next: Tree, other: Tree, sub: Proof)
    requires Shaped(t, depth) && depth <= 256 && t.Internal? && OnPath(t.prefix, t.size, key, depth)
    requires (next, other) == if HasBit(key, depth + t.size) == 1 then (t.right, t.left) else (t.left, t.right)
    requires sub == Prove(H, D, next, key, depth + t.size + 1)
    ensures Prove(H, D, t, key, depth)
         == Proof(sub.kind, sub.depth, [Node(t.prefix, t.size, TreeHash(H, D, other, depth + t.size + 1))] + sub.nodes)
  {
  }

  lemma {:induction false} ProveHonest(H: Hasher, D: Digester, t: Tree, key: Digest, depth: nat)
    requires Shaped(t, depth) && depth <= 256
    ensures Honest(H, D, t, key, depth, Prove(H, D, t, key, depth))
    decreases t
  {
    if t.Internal? && OnPath(t.prefix, t.size, key, depth) {
      var (next, other) := if HasBit(key, depth + t.size) == 1 then (t.right, t.left) else (t.left, t.right);
      ProveHonest(H, D, next, key, depth + t.size + 1);
      var sub := Prove(H, D, next, key, depth + t.size + 1);
      HonestStep(H, D, t, key, depth, next, other, sub);
      ProveStep(H, D, t, key, depth, next, other, sub);
    } else {
      HonestStop(H, D, t, key, depth);
    }
  }

  ghost predicate SmallValues(t: Tree) {
    match t
    case Nil => true
    case Leaf(_, v) => |v| <= MAX_DATA_SIZE
    case Internal(_, _, left, right) => SmallValues(left) && SmallValues(right)
  }

  lemma {:induction false} LookupSmall(t: Tree, key: Digest, depth: nat)
    requires Shaped(t, depth) && SmallValues(t)
    ensures Lookup(t, key, depth).Some? ==> |Lookup(t, key, depth).value| <= MAX_DATA_SIZE
    decreases t
  {
    match t {
      case Internal(_, size, left, right) =>
        LookupSmall(left, key, depth + size + 1);
        LookupSmall(right, key, depth + size + 1);
      case _ =>
    }
  }

  // For every tree and every key there is an accepted proof of what the tree
  // holds there.
  lemma Completeness(H: Hasher, t: Tree, key: Digest)
    requires Shaped(t, 0) && SmallValues(t)
    ensures var D := DigesterOf(H);
      var p := Prove(H, D, t, key, 0);
      Decoded(p) && Accepted(H, TreeHash(H, D, t, 0), key, p) && Claim(p.kind) == Lookup(t, key, 0)
  {
    LookupSmall(t, key, 0);
    ProveHonest(H, DigesterOf(H), t, key, 0);
  }
}
