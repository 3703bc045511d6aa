// The reader of radix proofs, from the bytes that answer a request for a name.
module RadixReader {
  import opened Bytes
  import opened RadixProof

  // What is read at an offset, and the offset behind it.
  type Reading<T> = Option<(T, nat)>

  function ReadU16(data: bytes, o: nat): Reading<nat> {
    if o + 2 > |data| then None else Some((data[o] as nat + 256 * data[o + 1] as nat, o + 2))
  }

  function ReadBytes(data: bytes, o: nat, n: nat): Reading<bytes> {
    if o + n > |data| then None else Some((data[o..o + n], o + n))
  }

  function ReadDigest(data: bytes, o: nat): Reading<Digest> {
    if o + 32 > |data| then None else Some((data[o..o + 32], o + 32))
  }

  // A size in bits: one byte, or two if the top bit of the first is set.
  function ReadBitlen(data: bytes, o: nat): Reading<nat> {
    if o >= |data| then None
    else if data[o] < 0x80 then CheckedSize(data[o], o + 1)
    else if o + 1 >= |data| then None
    else CheckedSize(256 * (data[o] as nat - 0x80) + data[o + 1], o + 2)
  }

  function CheckedSize(size: nat, o: nat): Reading<nat> {
    if size == 0 || size > 256 then None else Some((size, o))
  }

  // A size in bits, and as many bytes as it takes.
  function ReadPrefix(data: bytes, o: nat): Reading<(bytes, nat)> {
    match ReadBitlen(data, o)
    case None => None
    case Some((size, o)) =>
      match ReadBytes(data, o, PrefixBytes(size))
      case None => None
      case Some((prefix, o)) => Some(((prefix, size), o))
  }

  function ReadNode(data: bytes, o: nat, prefixed: bool): Reading<Node> {
    match if prefixed then ReadPrefix(data, o) else Some((([], 0), o))
    case None => None
    case Some(((prefix, size), o)) =>
      match ReadDigest(data, o)
      case None => None
      case Some((node, o)) => Some((Node(prefix, size, node), o))
  }

  // The first n nodes; the bits of flags say which have a prefix.
  function ReadNodes(data: bytes, o: nat, flags: bytes, n: nat): Reading<seq<Node>>
    requires n <= 8 * |flags|
  {
    if n == 0 then Some(([], o))
    else match ReadNodes(data, o, flags, n - 1)
      case None => None
      case Some((nodes, o)) =>
        match ReadNode(data, o, HasBit(flags, n - 1) == 1)
        case None => None
        case Some((node, o)) => Some((nodes + [node], o))
  }

  function ReadKind(data: bytes, o: nat, tag: nat): Reading<Kind> {
    if tag == 0 then Some((DeadEnd, o))
    else if tag == 1 then ReadShort(data, o)
    else if tag == 2 then ReadCollision(data, o)
    else ReadExists(data, o)
  }

  function ReadShort(data: bytes, o: nat): Reading<Kind> {
    match ReadPrefix(data, o)
    case None => None
    case Some(((prefix, size), o)) =>
      match ReadDigest(data, o)
      case None => None
      case Some((left, o)) =>
        match ReadDigest(data, o)
        case None => None
        case Some((right, o)) => Some((Short(prefix, size, left, right), o))
  }

  function ReadCollision(data: bytes, o: nat): Reading<Kind> {
    match ReadDigest(data, o)
    case None => None
    case Some((nxKey, o)) =>
      match ReadDigest(data, o)
      case None => None
      case Some((nxHash, o)) => Some((Collision(nxKey, nxHash), o))
  }

  function ReadExists(data: bytes, o: nat): Reading<Kind> {
    match ReadU16(data, o)
    case None => None
    case Some((size, o)) =>
      if size > MAX_DATA_SIZE then None
      else match ReadBytes(data, o, size)
        case None => None
        case Some((value, o)) => Some((Exists(value), o))
  }

  // The head of a proof: its tag, its depth, how many nodes, and which have a prefix.
  datatype Head = Head(tag: nat, depth: nat, count: nat, flags: bytes)

  function ReadHead(data: bytes): (r: Reading<Head>)
    ensures r.Some? ==> r.value.0.count <= 256 && r.value.0.count <= 8 * |r.value.0.flags|
  {
    match ReadU16(data, 0)
    case None => None
    case Some((field, o)) =>
      if field % 0x4000 > 256 then None
      else match ReadU16(data, o)
        case None => None
        case Some((count, o)) =>
          if count > 256 then None
          else match ReadBytes(data, o, (count + 7) / 8)
            case None => None
            case Some((flags, o)) => Some((Head(field / 0x4000, field % 0x4000, count, flags), o))
  }

  function ReadProof(data: bytes): Reading<Proof> {
    match ReadHead(data)
    case None => None
    case Some((head, o)) =>
      match ReadNodes(data, o, head.flags, head.count)
      case None => None
      case Some((nodes, o)) =>
        match ReadKind(data, o, head.tag)
        case None => None
        case Some((kind, o)) => Some((Proof(kind, head.depth, nodes), o))
  }

  // The proof that the bytes start with, and where it ends.
  method Read(data: bytes) returns (r: Reading<Proof>)
    ensures r == ReadProof(data)
  {
    var start := ReadHead(data);
    if start.None? {
      return None;
    }
    var head, off := start.value.0, start.value.1;
    ghost var first := off;
    var nodes: seq<Node> := [];
    for i := 0 to head.count
      invariant ReadNodes(data, first, head.flags, i) == Some((nodes, off))
    {
      var item := ReadNode(data, off, BitAt(head.flags, i) == 1);
      if item.None? {
        NodesLost(data, first, head.flags, i + 1, head.count);
        return None;
      }
      nodes := nodes + [item.value.0];
      off := item.value.1;
    }
    var end := ReadKind(data, off, head.tag);
    if end.None? {
      return None;
    }
    return Some((Proof(end.value.0, head.depth, nodes), end.value.1));
  }

  lemma {:induction false} NodesLost(data: bytes, o: nat, flags: bytes, i: nat, n: nat)
    requires i <= n <= 8 * |flags| && ReadNodes(data, o, flags, i).None?
    ensures ReadNodes(data, o, flags, n).None?
  {
    if i < n {
      NodesLost(data, o, flags, i, n - 1);
    }
  }

  // ----- What is read has the shape the verifier asserts -----

  lemma PrefixDecoded(data: bytes, o: nat)
    requires ReadPrefix(data, o).Some?
    ensures var ((prefix, size), end) := ReadPrefix(data, o).value; PrefixShape(prefix, size) && size > 0 && o < end <= |data|
  {
  }

  lemma NodeDecoded(data: bytes, o: nat, prefixed: bool)
    requires o <= |data| && ReadNode(data, o, prefixed).Some?
    ensures var (node, end) := ReadNode(data, o, prefixed).value;
      PrefixShape(node.prefix, node.size) && (node.size > 0 <==> prefixed) && o < end <= |data|
  {
    if prefixed {
      PrefixDecoded(data, o);
    }
  }

  lemma {:induction false} NodesDecoded(data: bytes, o: nat, flags: bytes, n: nat)
    requires o <= |data| && n <= 8 * |flags| && ReadNodes(data, o, flags, n).Some?
    ensures var (nodes, end) := ReadNodes(data, o, flags, n).value; |nodes| == n && PathShape(nodes) && o <= end <= |data|
  {
    if n > 0 {
      NodesDecoded(data, o, flags, n - 1);
      var (nodes, end) := ReadNodes(data, o, flags, n - 1).value;
      NodeDecoded(data, end, HasBit(flags, n - 1) == 1);
      PathShapeSnoc(nodes, ReadNode(data, end, HasBit(flags, n - 1) == 1).value.0);
    }
  }

  lemma KindDecoded(data: bytes, o: nat, tag: nat)
    requires o <= |data| && ReadKind(data, o, tag).Some?
    ensures var (kind, end) := ReadKind(data, o, tag).value;
      && o <= end <= |data|
      && (kind.Short? ==> PrefixShape(kind.prefix, kind.size) && kind.size != 0)
      && (kind.Exists? ==> |kind.value| <= MAX_DATA_SIZE)
  {
    if tag == 1 && ReadPrefix(data, o).Some? {
      PrefixDecoded(data, o);
    }
  }

  // Every proof that is read has the shape the verifier relies on, and was within the
  // bytes given.
  lemma ReadDecoded(data: bytes)
    requires ReadProof(data).Some?
    ensures Decoded(ReadProof(data).value.0) && ReadProof(data).value.1 <= |data|
  {
    var (head, o) := ReadHead(data).value;
    NodesDecoded(data, o, head.flags, head.count);
    KindDecoded(data, ReadNodes(data, o, head.flags, head.count).value.1, head.tag);
  }

  // ----- The wire form of a proof is read back -----

  function Bitlen(size: nat): bytes
    requires size <= 256
  {
    if size < 0x80 then [size] else [0x80 + size / 256, size % 256]
  }

  function WritePrefix(prefix: bytes, size: nat): bytes
    requires size <= 256
  {
    Bitlen(size) + prefix
  }

  function WriteNode(x: Node): bytes
    requires x.size <= 256
  {
    (if x.size > 0 then WritePrefix(x.prefix, x.size) else []) + x.node
  }

  ghost function WriteNodes(nodes: seq<Node>): bytes
    requires PathShape(nodes)
  {
    if nodes == [] then []
    else
      PathShapeSplit(nodes, |nodes| - 1);
      WriteNodes(nodes[..|nodes| - 1]) + WriteNode(nodes[|nodes| - 1])
  }

  function TagOf(kind: Kind): (tag: nat)
    ensures tag < 4
  {
    match kind
    case DeadEnd => 0
    case Short(_, _, _, _) => 1
    case Collision(_, _) => 2
    case Exists(_) => 3
  }

  ghost function WriteKind(kind: Kind): bytes
    requires kind.Short? ==> kind.size <= 256
  {
    match kind
    case DeadEnd => []
    case Short(prefix, size, left, right) => WritePrefix(prefix, size) + (left + right)
    case Collision(nxKey, nxHash) => nxKey + nxHash
    case Exists(value) => U16(|value|) + value
  }

  // The flags say which nodes have a prefix; spare bits may be anything.
  predicate FlagsFor(flags: bytes, nodes: seq<Node>) {
    |nodes| <= 8 * |flags| && forall i :: 0 <= i < |nodes| ==> (HasBit(flags, i) == 1 <==> nodes[i].size > 0)
  }

  ghost function WriteProof(p: Proof, flags: bytes): bytes
    requires Decoded(p)
  {
    U16(0x4000 * TagOf(p.kind) + p.depth) + (U16(|p.nodes|) + (flags + (WriteNodes(p.nodes) + WriteKind(p.kind))))
  }

  // x stands in data at o.
  ghost predicate Stands(data: bytes, o: nat, x: bytes) {
    exists pre: bytes, post: bytes :: |pre| == o && data == pre + (x + post)
  }

  lemma StandsParts(data: bytes, o: nat, x: bytes, y: bytes, next: nat)
    requires Stands(data, o, x + y) && next == o + |x|
    ensures Stands(data, o, x) && Stands(data, next, y)
  {
    var pre: bytes, post: bytes :| |pre| == o && data == pre + ((x + y) + post);
    assert data == pre + (x + (y + post)) && data == (pre + x) + (y + post);
  }

  lemma StandsAt(data: bytes, o: nat, x: bytes)
    requires Stands(data, o, x)
    ensures o + |x| <= |data| && data[o..o + |x|] == x
  {
  }

  lemma U16Read(data: bytes, o: nat, x: nat)
    requires x < 0x1_0000 && Stands(data, o, U16(x))
    ensures ReadU16(data, o) == Some((x, o + 2))
  {
    StandsAt(data, o, U16(x));
    assert data[o] == data[o..o + 2][0] && data[o + 1] == data[o..o + 2][1];
  }

  lemma PrefixRead(data: bytes, o: nat, prefix: bytes, size: nat)
    requires PrefixShape(prefix, size) && size > 0 && Stands(data, o, WritePrefix(prefix, size))
    ensures ReadPrefix(data, o) == Some(((prefix, size), o + |WritePrefix(prefix, size)|))
  {
    var b := Bitlen(size);
    StandsParts(data, o, b, prefix, o + |b|);
    BitlenRead(data, o, size);
    StandsAt(data, o + |b|, prefix);
  }

  lemma BitlenRead(data: bytes, o: nat, size: nat)
    requires 0 < size <= 256 && Stands(data, o, Bitlen(size))
    ensures ReadBitlen(data, o) == Some((size, o + |Bitlen(size)|))
  {
    var b := Bitlen(size);
    StandsAt(data, o, b);
    assert data[o] == data[o..o + |b|][0];
    assert size >= 0x80 ==> data[o + 1] == data[o..o + |b|][1];
  }

  lemma DigestRead(data: bytes, o: nat, x: Digest)
    requires Stands(data, o, x)
    ensures ReadDigest(data, o) == Some((x, o + 32))
  {
    StandsAt(data, o, x);
  }

  lemma NodeRead(data: bytes, o: nat, x: Node, prefixed: bool, e: nat)
    requires PrefixShape(x.prefix, x.size) && (prefixed <==> x.size > 0)
    requires Stands(data, o, WriteNode(x)) && e == o + |WriteNode(x)|
    ensures ReadNode(data, o, prefixed) == Some((x, e))
  {
    if x.size > 0 {
      var w := WritePrefix(x.prefix, x.size);
      StandsParts(data, o, w, x.node, o + |w|);
      PrefixRead(data, o, x.prefix, x.size);
      DigestRead(data, o + |w|, x.node);
    } else {
      StandsParts(data, o, [], x.node, o);
      DigestRead(data, o, x.node);
      assert x.prefix == [];
    }
  }

  lemma NodesSplit(flags: bytes, nodes: seq<Node>, w: bytes, n: nat) returns (front: seq<Node>, last: Node, w0: bytes, w1: bytes)
    requires |nodes| == n + 1 && PathShape(nodes) && FlagsFor(flags, nodes) && w == WriteNodes(nodes)
    ensures nodes == front + [last] && |front| == n && PathShape(front) && PrefixShape(last.prefix, last.size) && FlagsFor(flags, front)
    ensures w0 == WriteNodes(front) && w1 == WriteNode(last) && w == w0 + w1
    ensures n < 8 * |flags| && (HasBit(flags, n) == 1 <==> last.size > 0)
  {
    PathShapeSplit(nodes, n);
    front, last := nodes[..n], nodes[n];
    w0, w1 := WriteNodes(front), WriteNode(last);
  }

  lemma {:induction false} NodesRead(data: bytes, o: nat, flags: bytes, nodes: seq<Node>, w: bytes, n: nat, e: nat)
    requires PathShape(nodes) && FlagsFor(flags, nodes) && w == WriteNodes(nodes) && Stands(data, o, w)
    requires n == |nodes| && e == o + |w|
    ensures ReadNodes(data, o, flags, n) == Some((nodes, e))
    decreases n
  {
    if n == 0 {
      assert nodes == [] && w == [];
    } else {
      var front, last, w0, w1 := NodesSplit(flags, nodes, w, n - 1);
      var a := o + |w0|;
      StandsParts(data, o, w0, w1, a);
      NodesRead(data, o, flags, front, w0, n - 1, a);
      NodesSnoc(data, o, flags, front, last, n - 1, a, e);
    }
  }

  lemma NodesSnoc(data: bytes, o: nat, flags: bytes, front: seq<Node>, last: Node, n: nat, a: nat, e: nat)
    requires n < 8 * |flags| && ReadNodes(data, o, flags, n) == Some((front, a)) && PrefixShape(last.prefix, last.size)
    requires (HasBit(flags, n) == 1 <==> last.size > 0) && Stands(data, a, WriteNode(last)) && e == a + |WriteNode(last)|
    ensures ReadNodes(data, o, flags, n + 1) == Some((front + [last], e))
  {
    NodeRead(data, a, last, HasBit(flags, n) == 1, e);
  }

  lemma DigestsRead(data: bytes, o: nat, x: Digest, y: Digest)
    requires Stands(data, o, x + y)
    ensures ReadDigest(data, o) == Some((x, o + 32)) && ReadDigest(data, o + 32) == Some((y, o + 64))
  {
    StandsParts(data, o, x, y, o + 32);
    DigestRead(data, o, x);
    DigestRead(data, o + 32, y);
  }

  lemma KindRead(data: bytes, o: nat, kind: Kind, tag: nat, e: nat)
    requires kind.Short? ==> PrefixShape(kind.prefix, kind.size) && kind.size > 0
    requires kind.Exists? ==> |kind.value| <= MAX_DATA_SIZE
    requires Stands(data, o, WriteKind(kind)) && tag == TagOf(kind) && e == o + |WriteKind(kind)|
    ensures ReadKind(data, o, tag) == Some((kind, e))
  {
    match kind
    case DeadEnd => StandsAt(data, o, []);
    case Short(prefix, size, left, right) =>
      var w := WritePrefix(prefix, size);
      StandsParts(data, o, w, left + right, o + |w|);
      PrefixRead(data, o, prefix, size);
      DigestsRead(data, o + |w|, left, right);
    case Collision(nxKey, nxHash) =>
      DigestsRead(data, o, nxKey, nxHash);
    case Exists(value) =>
      StandsParts(data, o, U16(|value|), value, o + 2);
      U16Read(data, o, |value|);
      StandsAt(data, o + 2, value);
  }

  lemma HeadRead(data: bytes, head: Head, tag: nat, depth: nat, count: nat, flags: bytes, a: nat)
    requires tag < 4 && depth <= 256 && count <= 256 && |flags| == (count + 7) / 8
    requires head == Head(tag, depth, count, flags) && a == 4 + |flags|
    requires Stands(data, 0, U16(0x4000 * tag + depth)) && Stands(data, 2, U16(count)) && Stands(data, 4, flags)
    ensures ReadHead(data) == Some((head, a))
  {
    U16Read(data, 0, 0x4000 * tag + depth);
    U16Read(data, 2, count);
    StandsAt(data, 4, flags);
  }

  // The four parts of a proof, one behind the other.
  ghost predicate Parts(data: bytes, p: Proof, flags: bytes, a: nat, b: nat, e: nat)
    requires Decoded(p)
  {
    && FlagsFor(flags, p.nodes) && |flags| == (|p.nodes| + 7) / 8
    && Stands(data, 0, U16(0x4000 * TagOf(p.kind) + p.depth)) && Stands(data, 2, U16(|p.nodes|)) && Stands(data, 4, flags)
    && Stands(data, a, WriteNodes(p.nodes)) && Stands(data, b, WriteKind(p.kind))
    && a == 4 + |flags| && b == a + |WriteNodes(p.nodes)| && e == b + |WriteKind(p.kind)|
  }

  lemma PartsStand(data: bytes, p: Proof, flags: bytes, w: bytes, a: nat, b: nat, e: nat)
    requires Decoded(p) && FlagsFor(flags, p.nodes) && |flags| == (|p.nodes| + 7) / 8
    requires w == WriteProof(p, flags) && Stands(data, 0, w)
    requires a == 4 + |flags| && b == a + |WriteNodes(p.nodes)| && e == b + |WriteKind(p.kind)|
    ensures Parts(data, p, flags, a, b, e) && e == |w|
  {
    var field, count := U16(0x4000 * TagOf(p.kind) + p.depth), U16(|p.nodes|);
    var nodes, kind := WriteNodes(p.nodes), WriteKind(p.kind);
    StandsParts(data, 0, field, count + (flags + (nodes + kind)), 2);
    StandsParts(data, 2, count, flags + (nodes + kind), 4);
    StandsParts(data, 4, flags, nodes + kind, a);
    StandsParts(data, a, nodes, kind, b);
  }

  lemma PartsRead(data: bytes, p: Proof, flags: bytes, a: nat, b: nat, e: nat, head: Head)
    requires Decoded(p) && Parts(data, p, flags, a, b, e) && head == Head(TagOf(p.kind), p.depth, |p.nodes|, flags)
    ensures ReadHead(data) == Some((head, a))
    ensures ReadNodes(data, a, flags, |p.nodes|) == Some((p.nodes, b))
    ensures ReadKind(data, b, head.tag) == Some((p.kind, e))
  {
    HeadRead(data, head, TagOf(p.kind), p.depth, |p.nodes|, flags, a);
    NodesRead(data, a, flags, p.nodes, WriteNodes(p.nodes), |p.nodes|, b);
    KindRead(data, b, p.kind, head.tag, e);
  }

  lemma ProofRead(data: bytes, p: Proof, head: Head, a: nat, b: nat, e: nat)
    requires ReadHead(data) == Some((head, a)) && ReadNodes(data, a, head.flags, head.count) == Some((p.nodes, b))
    requires ReadKind(data, b, head.tag) == Some((p.kind, e)) && head.depth == p.depth
    ensures ReadProof(data) == Some((p, e))
  {
  }

  // Every proof of that shape is read back from its wire form, whatever follows it.
  lemma ReadWritten(p: Proof, flags: bytes, rest: bytes)
    requires Decoded(p) && FlagsFor(flags, p.nodes) && |flags| == (|p.nodes| + 7) / 8
    ensures var w := WriteProof(p, flags); ReadProof(w + rest) == Some((p, |w|))
  {
    var w, a := WriteProof(p, flags), 4 + |flags|;
    var b := a + |WriteNodes(p.nodes)|;
    var e := b + |WriteKind(p.kind)|;
    var head := Head(TagOf(p.kind), p.depth, |p.nodes|, flags);
    StandsFirst(w, rest);
    PartsStand(w + rest, p, flags, w, a, b, e);
    PartsRead(w + rest, p, flags, a, b, e, head);
    ProofRead(w + rest, p, head, a, b, e);
  }

  lemma StandsFirst(w: bytes, rest: bytes)
    ensures Stands(w + rest, 0, w)
  {
    assert w + rest == [] + (w + rest);
  }
}
