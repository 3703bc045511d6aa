// The connection after and during the handshake: sealed frames, and the
// reassembly of frames from a stream cut into arbitrary chunks.
module Transport {
  import opened Bytes
  import opened Noise

  const MAX_MESSAGE: nat := 8 * 1000 * 1000 + 9
  const ACT_ONE_SIZE: nat := 80
  const ACT_TWO_SIZE: nat := 80
  const ACT_THREE_SIZE: nat := 65
  const HEADER_SIZE: nat := 20
  const MAC_SIZE: nat := 16

  // What a call comes to: the code it returns, or the end of the process at an
  // assertion.
  datatype Status = Code(n: int) | Abort

  const SUCCESS := Code(0)
  const EACTONE := Code(27)
  const EACTTWO := Code(28)
  const EACTTHREE := Code(29)
  const EBADSIZE := Code(30)
  const EBADTAG := Code(31)

  datatype Act = NoAct | ActOne | ActTwo | ActThree | ActDone

  // The callbacks: the code of the nth write, whether a callback closes the
  // connection, and the randomness drawn for the ephemeral key.
  datatype Env = Env(code: nat -> int, closes: nat -> bool, closesOnConnect: bool, ephemeral: bytes, entropy: bytes)

  // A connection: buf holds the bytes received of a frame of len bytes.
  datatype Conn = Conn(
    party: Party, act: Act, hasSize: bool, buf: bytes, len: nat,
    written: bytes, writes: nat, delivered: seq<bytes>, connects: nat)

  // ----- Little-endian sizes -----

  function LE(n: nat, k: nat): (s: bytes)
    ensures |s| == k
  {
    if k == 0 then [] else [n % 256] + LE(n / 256, k - 1)
  }

  function UnLE(s: bytes): nat {
    if s == [] then 0 else s[0] + 256 * UnLE(s[1..])
  }

  function Size(n: nat): bytes {
    LE(n % 0x1_0000_0000, 4)
  }

  // The size as a signed 32-bit number.
  function SizeOf(s: bytes): int {
    var n := UnLE(s) % 0x1_0000_0000;
    if n < 0x8000_0000 then n else n - 0x1_0000_0000
  }

  function Bound(k: nat): nat {
    if k == 0 then 1 else 256 * Bound(k - 1)
  }

  lemma {:induction false} UnLEOf(n: nat, k: nat)
    requires n < Bound(k)
    ensures UnLE(LE(n, k)) == n
  {
    if k > 0 {
      UnLEOf(n / 256, k - 1);
      assert LE(n, k)[1..] == LE(n / 256, k - 1);
    }
  }

  lemma FourBytes()
    ensures Bound(4) == 0x1_0000_0000
  {
    assert Bound(2) == 0x1_0000;
  }

  // The low byte comes first.
  lemma FourLE(s: bytes)
    requires |s| == 4
    ensures UnLE(s) == s[0] as nat + 0x100 * (s[1] as nat) + 0x1_0000 * (s[2] as nat) + 0x100_0000 * (s[3] as nat) < 0x1_0000_0000
  {
    var t, u, v := s[1..], s[2..], s[3..];
    assert t[1..] == u && u[1..] == v && v[1..] == [];
    assert UnLE(v) == v[0] as nat && UnLE(u) == u[0] as nat + 256 * UnLE(v) && UnLE(t) == t[0] as nat + 256 * UnLE(u);
  }

  lemma SizeRoundTrip(n: nat)
    requires n < 0x8000_0000
    ensures SizeOf(Size(n)) == n
  {
    FourBytes();
    UnLEOf(n, 4);
  }

  // ----- Writing -----

  function PutOut(env: Env, b: Conn, chunk: bytes): (Conn, Status) {
    var code := Code(env.code(b.writes));
    (b.(writes := b.writes + 1, written := if code == SUCCESS then b.written + chunk else b.written), code)
  }

  function Closed(b: Conn): Conn {
    b.(act := NoAct)
  }

  function WithSend(b: Conn, k: Keys): Conn {
    b.(party := b.party.(send := k))
  }

  function WithRecv(b: Conn, k: Keys): Conn {
    b.(party := b.party.(recv := k))
  }

  // Seals one part of a message and hands it and its tag to the writer.
  function SendPart(c: Crypto, env: Env, b: Conn, m: bytes): (Conn, Status) {
    var k := b.party.send;
    var out := c.seal(k.key, k.nonce, NO_DATA, m);
    var (b1, r1) := PutOut(env, WithSend(b, Next(c, k)), out);
    if r1 != SUCCESS then (b1, r1) else PutOut(env, b1, c.tag(k.key, k.nonce, NO_DATA, out))
  }

  function Send(c: Crypto, env: Env, b: Conn, m: bytes): (Conn, Status) {
    if b.act != ActDone then (b, SUCCESS)
    else
      var (b1, r1) := SendPart(c, env, b, Size(|m|));
      if r1 != SUCCESS then (Closed(b1), r1)
      else
        var (b2, r2) := SendPart(c, env, b1, m);
        if r2 != SUCCESS then (Closed(b2), r2) else (b2, SUCCESS)
  }

  // ----- Parsing one frame -----

  // What one frame does: the connection after it (its buffer untouched), the
  // code returned, and the length of the next frame.
  datatype Result = Result(conn: Conn, code: Status, next: nat)

  function Connected(env: Env, b: Conn): Conn {
    b.(act := if env.closesOnConnect then NoAct else ActDone, connects := b.connects + 1)
  }

  function ParseActTwo(c: Crypto, env: Env, b: Conn, frame: bytes): Result
    requires |frame| == ACT_TWO_SIZE
  {
    var (ok, p) := RecvActTwo(c, b.party, frame);
    if !ok then Result(b.(party := p), EACTTWO, 0)
    else
      var (act3, p3) := GenActThree(c, p);
      var (b1, r) := PutOut(env, b.(party := p3), act3);
      if r != SUCCESS then Result(b1, r, 0) else Result(Connected(env, b1), SUCCESS, HEADER_SIZE)
  }

  function ParseActOne(c: Crypto, env: Env, b: Conn, frame: bytes): Result
    requires |frame| == ACT_ONE_SIZE
  {
    var (ok, p) := RecvActOne(c, b.party, frame);
    if !ok then Result(b.(party := p), if ActOneAborts(c, frame) then Abort else EACTONE, 0)
    else AnswerActOne(c, env, b.(party := p))
  }

  function AnswerActOne(c: Crypto, env: Env, b: Conn): Result {
    var (act2, p2) := GenActTwo(c, b.party, env.ephemeral, env.entropy);
    SendActTwo(env, b.(party := p2), act2)
  }

  function SendActTwo(env: Env, b: Conn, act2: bytes): Result {
    var (b1, r) := PutOut(env, b, act2);
    if r != SUCCESS then Result(b1, r, 0) else Result(b1.(act := ActThree), SUCCESS, ACT_THREE_SIZE)
  }

  function ParseActThree(c: Crypto, env: Env, b: Conn, frame: bytes): Result
    requires |frame| == ACT_THREE_SIZE
  {
    var (ok, p) := RecvActThree(c, b.party, frame);
    if !ok then Result(b.(party := p), if ActThreeAborts(c, b.party, frame) then Abort else EACTTHREE, 0)
    else Result(Connected(env, b.(party := p)), SUCCESS, HEADER_SIZE)
  }

  function ParseHeader(c: Crypto, b: Conn, frame: bytes): Result
    requires |frame| == HEADER_SIZE
  {
    var k := b.party.recv;
    var plain := c.open(k.key, k.nonce, NO_DATA, frame[..4]);
    var b1 := WithRecv(b, Next(c, k));
    if c.tag(k.key, k.nonce, NO_DATA, frame[..4]) != frame[4..] then Result(b1, EBADTAG, 0)
    else
      var size := SizeOf(plain);
      if size < 0 || size > MAX_MESSAGE then Result(b1, EBADSIZE, 0)
      else Result(b1.(hasSize := true), SUCCESS, size + MAC_SIZE)
  }

  function ParsePayload(c: Crypto, env: Env, b: Conn, frame: bytes): Result
    requires |frame| >= MAC_SIZE
  {
    var k, n := b.party.recv, |frame| - MAC_SIZE;
    var plain := c.open(k.key, k.nonce, NO_DATA, frame[..n]);
    var b1 := WithRecv(b, Next(c, k));
    if c.tag(k.key, k.nonce, NO_DATA, frame[..n]) != frame[n..] then Result(b1, EBADTAG, 0)
    else
      var closes := env.closes(|b.delivered|);
      Result(b1.(hasSize := false, delivered := b.delivered + [plain], act := if closes then NoAct else b.act), SUCCESS, HEADER_SIZE)
  }

  // The last 16 bytes of a frame are the tag of the rest, under the receive cipher.
  predicate Tagged(c: Crypto, k: Keys, frame: bytes)
    requires |frame| >= MAC_SIZE
  {
    frame[|frame| - MAC_SIZE..] == c.tag(k.key, k.nonce, NO_DATA, frame[..|frame| - MAC_SIZE])
  }

  function Inside(c: Crypto, k: Keys, frame: bytes): bytes
    requires |frame| >= MAC_SIZE
  {
    c.open(k.key, k.nonce, NO_DATA, frame[..|frame| - MAC_SIZE])
  }

  // A payload is delivered exactly when its tag is right, and it is what was sealed.
  lemma PayloadJudged(c: Crypto, env: Env, b: Conn, frame: bytes)
    requires |frame| >= MAC_SIZE
    ensures var r, k := ParsePayload(c, env, b, frame), b.party.recv;
      && r.code == (if Tagged(c, k, frame) then SUCCESS else EBADTAG)
      && r.conn.delivered == b.delivered + (if Tagged(c, k, frame) then [Inside(c, k, frame)] else [])
      && r.conn.written == b.written
      && (r.code == SUCCESS ==> r.conn.act == (if env.closes(|b.delivered|) then NoAct else b.act) && !r.conn.hasSize && r.next == 20)
  {
    assert b.delivered + [] == b.delivered;
  }

  // A header is accepted exactly when its tag is right and the size in it, low byte first,
  // is at most the largest; a payload of that size and its tag come next.
  lemma HeaderJudged(c: Crypto, b: Conn, frame: bytes)
    requires |frame| == HEADER_SIZE && |Inside(c, b.party.recv, frame)| == 4
    ensures var r, k, s := ParseHeader(c, b, frame), b.party.recv, Inside(c, b.party.recv, frame);
      var size := s[0] as nat + 0x100 * (s[1] as nat) + 0x1_0000 * (s[2] as nat) + 0x100_0000 * (s[3] as nat);
      && r.code == (if !Tagged(c, k, frame) then EBADTAG else if size > MAX_MESSAGE then EBADSIZE else SUCCESS)
      && (r.code == SUCCESS ==> r.next == size + 16 && r.conn.hasSize)
      && r.conn.delivered == b.delivered && r.conn.written == b.written
  {
    FourLE(Inside(c, b.party.recv, frame));
  }

  // The frame length that goes with each state of a live connection.
  predicate Framed(b: Conn) {
    match b.act
    case NoAct => true
    case ActOne => !b.party.initiator && b.len == ACT_ONE_SIZE
    case ActTwo => b.party.initiator && b.len == ACT_TWO_SIZE
    case ActThree => !b.party.initiator && b.len == ACT_THREE_SIZE
    case ActDone => if b.hasSize then b.len >= MAC_SIZE else b.len == HEADER_SIZE
  }

  predicate Live(b: Conn) {
    b.act != NoAct
  }

  // A live connection is always waiting for at least one byte.
  predicate WellFormed(b: Conn) {
    Framed(b) && (Live(b) ==> |b.buf| < b.len)
  }

  function Parse(c: Crypto, env: Env, b: Conn, frame: bytes): (r: Result)
    requires Framed(b) && Live(b) && |frame| == b.len
    ensures r.conn.buf == b.buf && r.conn.party.initiator == b.party.initiator
    ensures r.code == SUCCESS && Live(r.conn) ==> r.next > 0 && Framed(r.conn.(len := r.next))
    ensures b.delivered <= r.conn.delivered
  {
    match b.act
    case ActOne => ParseActOne(c, env, b, frame)
    case ActTwo => ParseActTwo(c, env, b, frame)
    case ActThree => ParseActThree(c, env, b, frame)
    case ActDone => if b.hasSize then ParsePayload(c, env, b, frame) else ParseHeader(c, b, frame)
  }

  // The connection after a whole frame: closed with its buffer as it was, or
  // waiting for the next frame.
  function AfterFrame(r: Result): Conn {
    if r.code != SUCCESS || !Live(r.conn) then Closed(r.conn) else r.conn.(buf := [], len := r.next)
  }

  // ----- Reading a chunk -----

  function Feed(c: Crypto, env: Env, b: Conn, data: bytes): (r: (Conn, Status))
    requires WellFormed(b)
    ensures WellFormed(r.0)
    decreases |data|
  {
    if !Live(b) then (b, SUCCESS)
    else if |b.buf| + |data| < b.len then (b.(buf := b.buf + data), SUCCESS)
    else
      var need := b.len - |b.buf|;
      var r := Parse(c, env, b, b.buf + data[..need]);
      if Live(AfterFrame(r)) then Feed(c, env, AfterFrame(r), data[need..]) else (AfterFrame(r), r.code)
  }

  // One frame of a chunk.
  lemma FeedStep(c: Crypto, env: Env, b: Conn, data: bytes, frame: bytes, rest: bytes)
    requires WellFormed(b) && Live(b) && |b.buf| + |data| >= b.len
    requires var need := b.len - |b.buf|; frame == b.buf + data[..need] && rest == data[need..]
    ensures var r := Parse(c, env, b, frame);
      Feed(c, env, b, data) == if Live(AfterFrame(r)) then Feed(c, env, AfterFrame(r), rest) else (AfterFrame(r), r.code)
  {
  }

  // ----- Opening a connection -----

  // A new connection with its handshake state, before anything is exchanged.
  function Opened(p: Party): Conn {
    Conn(p, NoAct, false, [], 0, [], 0, [], 0)
  }

  function OnConnect(c: Crypto, env: Env, b: Conn): (Conn, Status) {
    if b.party.initiator then
      var (act1, p) := GenActOne(c, b.party, env.ephemeral, env.entropy);
      var (b1, r) := PutOut(env, b.(party := p, act := ActTwo), act1);
      if r != SUCCESS then (Closed(b1), r) else (b1.(buf := [], len := ACT_TWO_SIZE), SUCCESS)
    else (b.(act := ActOne, buf := [], len := ACT_ONE_SIZE), SUCCESS)
  }
}
