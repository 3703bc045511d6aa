// What the transport guarantees over whole streams: independence of chunking,
// lockstep of the two ciphers, and delivery in order.
module Delivery {
  import opened Bytes
  import opened Noise
  import opened Transport

  // ----- Chunking -----

  // Equal, or both closed and equal but for the partial frame in the buffer.
  predicate Alike(a: Conn, b: Conn) {
    a == b || (!Live(a) && !Live(b) && a.(buf := []) == b.(buf := []))
  }

  // The next frame completes within data and ends the connection.
  predicate FirstEnds(c: Crypto, env: Env, b: Conn, data: bytes)
    requires WellFormed(b) && Live(b)
  {
    |b.buf| + |data| >= b.len && !Live(AfterFrame(Parse(c, env, b, b.buf + data[..b.len - |b.buf|])))
  }

  // The buffer at the start of the frame that x ends in.
  function StartBuf(b: Conn, x: bytes): bytes {
    if |b.buf| + |x| < b.len then b.buf else []
  }

  // s is r with another buffer.
  predicate SameButBuf(r: Result, s: Result, buf: bytes) {
    s.conn == r.conn.(buf := buf) && s.code == r.code && s.next == r.next
  }

  lemma ActOneBuf(c: Crypto, env: Env, b: Conn, buf: bytes, frame: bytes)
    requires |frame| == ACT_ONE_SIZE
    ensures SameButBuf(ParseActOne(c, env, b, frame), ParseActOne(c, env, b.(buf := buf), frame), buf)
  {
  }

  lemma ActTwoBuf(c: Crypto, env: Env, b: Conn, buf: bytes, frame: bytes)
    requires |frame| == ACT_TWO_SIZE
    ensures SameButBuf(ParseActTwo(c, env, b, frame), ParseActTwo(c, env, b.(buf := buf), frame), buf)
  {
  }

  lemma ActThreeBuf(c: Crypto, env: Env, b: Conn, buf: bytes, frame: bytes)
    requires |frame| == ACT_THREE_SIZE
    ensures SameButBuf(ParseActThree(c, env, b, frame), ParseActThree(c, env, b.(buf := buf), frame), buf)
  {
  }

  lemma FrameBuf(c: Crypto, env: Env, b: Conn, buf: bytes, frame: bytes)
    requires Framed(b) && |frame| == b.len && b.act == ActDone
    ensures SameButBuf(Parse(c, env, b, frame), Parse(c, env, b.(buf := buf), frame), buf)
  {
    if b.hasSize {
      assert SameButBuf(ParsePayload(c, env, b, frame), ParsePayload(c, env, b.(buf := buf), frame), buf);
    } else {
      assert SameButBuf(ParseHeader(c, b, frame), ParseHeader(c, b.(buf := buf), frame), buf);
    }
  }

  // Parsing does not look at the buffer.
  lemma ParseBuf(c: Crypto, env: Env, b: Conn, buf: bytes, frame: bytes)
    requires Framed(b) && Live(b) && |frame| == b.len
    ensures SameButBuf(Parse(c, env, b, frame), Parse(c, env, b.(buf := buf), frame), buf)
  {
    match b.act
    case ActOne => ActOneBuf(c, env, b, buf, frame);
    case ActTwo => ActTwoBuf(c, env, b, buf, frame);
    case ActThree => ActThreeBuf(c, env, b, buf, frame);
    case ActDone => FrameBuf(c, env, b, buf, frame);
  }

  lemma AfterFrameBuf(r: Result, s: Result, buf: bytes)
    requires SameButBuf(r, s, buf)
    ensures Live(AfterFrame(r)) ==> AfterFrame(s) == AfterFrame(r)
    ensures !Live(AfterFrame(r)) ==> AfterFrame(s) == AfterFrame(r).(buf := buf) && AfterFrame(r).buf == r.conn.buf
  {
  }

  // How two reads compare with one.
  predicate Compares(two: (Conn, Status), one: (Conn, Status), cut: bool) {
    Alike(two.0, one.0) && two.1 == one.1 && (two.0 == one.0 <==> !cut)
  }

  // A step with outcome r, and the rest of a chunk.
  predicate Steps(c: Crypto, env: Env, r: Result, rest: bytes, fed: (Conn, Status))
    requires WellFormed(AfterFrame(r))
  {
    fed == if Live(AfterFrame(r)) then Feed(c, env, AfterFrame(r), rest) else (AfterFrame(r), r.code)
  }

  // A chunk whose first part completes a frame.
  lemma FeedSplit(c: Crypto, env: Env, b: Conn, data: bytes, head: bytes, frame: bytes, rest: bytes)
    requires WellFormed(b) && Live(b) && data == head + rest && frame == b.buf + head && |frame| == b.len
    ensures Steps(c, env, Parse(c, env, b, frame), rest, Feed(c, env, b, data))
    ensures FirstEnds(c, env, b, data) <==> !Live(AfterFrame(Parse(c, env, b, frame)))
  {
    assert data[..b.len - |b.buf|] == head && data[b.len - |b.buf|..] == rest;
    FeedStep(c, env, b, data, frame, rest);
  }

  // ----- What is refused -----

  // Nothing has come out of the connection.
  predicate Silent(b: Conn, b': Conn) {
    b'.written == b.written && b'.writes == b.writes && b'.delivered == b.delivered && b'.connects == b.connects
  }

  // The chunk completes an act that is not genuine: act one or two gets its code, unless
  // act one has a key that ends the process; the connection closes, and nothing has come
  // out of it.
  lemma ActRefused(c: Crypto, env: Env, b: Conn, data: bytes, head: bytes, act: bytes, rest: bytes)
    requires WellFormed(b) && (b.act == ActOne || b.act == ActTwo)
    requires data == head + rest && act == b.buf + head && |act| == 80
    requires !Genuine(c, b.party, act, if b.act == ActOne then b.party.localStatic else b.party.localEphemeral)
    ensures var (b', r) := Feed(c, env, b, data);
      && r == (if b.act == ActTwo then EACTTWO else if c.valid(c.fromHash(act[..64])) then EACTONE else Abort)
      && !Live(b') && Silent(b, b')
  {
    FeedSplit(c, env, b, data, head, act, rest);
    AcceptedGenuine(c, b.party, act);
  }

  // The same for act three, which ends the process when its key has the right tag but
  // cannot be used.
  lemma ActThreeRefused(c: Crypto, env: Env, b: Conn, data: bytes, head: bytes, act: bytes, rest: bytes)
    requires WellFormed(b) && b.act == ActThree
    requires data == head + rest && act == b.buf + head && |act| == 65 && !GenuineThree(c, b.party, act)
    ensures var (b', r) := Feed(c, env, b, data);
      && r == (if GenuineKey(c, b.party, act) && !c.valid(KeyInside(c, b.party, act)) then Abort else EACTTHREE)
      && !Live(b') && Silent(b, b')
  {
    FeedSplit(c, env, b, data, head, act, rest);
    AcceptedGenuineThree(c, b.party, act);
  }

  // A genuine act three connects, once.  When the callback for that closes the connection,
  // the rest of the chunk is not looked at.
  lemma ActThreeConnects(c: Crypto, env: Env, b: Conn, data: bytes, head: bytes, act: bytes, rest: bytes)
    requires WellFormed(b) && b.act == ActThree && env.closesOnConnect
    requires data == head + rest && act == b.buf + head && |act| == 65 && GenuineThree(c, b.party, act)
    ensures var (b', r) := Feed(c, env, b, data);
      r == SUCCESS && !Live(b') && b'.connects == b.connects + 1 && Silent(b, b'.(connects := b.connects))
      && b'.party.remoteStatic == KeyInside(c, b.party, act)
  {
    FeedSplit(c, env, b, data, head, act, rest);
    AcceptedGenuineThree(c, b.party, act);
  }

  // An initiator whose first act is refused by the writer does not connect.
  lemma OpeningRefused(c: Crypto, env: Env, p: Party)
    requires p.initiator && env.code(0) != 0
    ensures var (b, r) := OnConnect(c, env, Opened(p)); r == Code(env.code(0)) && !Live(b) && b.written == [] && b.writes == 1
  {
  }

  // The chunk completes a genuine act one or two, but the writer refuses the answer.
  lemma AnswerRefused(c: Crypto, env: Env, b: Conn, data: bytes, head: bytes, act: bytes, rest: bytes)
    requires WellFormed(b) && (b.act == ActOne || b.act == ActTwo)
    requires data == head + rest && act == b.buf + head && |act| == 80
    requires Genuine(c, b.party, act, if b.act == ActOne then b.party.localStatic else b.party.localEphemeral)
    requires env.code(b.writes) != 0
    ensures var (b', r) := Feed(c, env, b, data);
      r == Code(env.code(b.writes)) && !Live(b') && b'.writes == b.writes + 1 && Silent(b, b'.(writes := b.writes))
  {
    FeedSplit(c, env, b, data, head, act, rest);
    AcceptedGenuine(c, b.party, act);
  }

  // The chunk completes a header or payload with a wrong tag.
  lemma FrameRefused(c: Crypto, env: Env, b: Conn, data: bytes, head: bytes, frame: bytes, rest: bytes)
    requires WellFormed(b) && b.act == ActDone
    requires data == head + rest && frame == b.buf + head && |frame| == b.len && !Tagged(c, b.party.recv, frame)
    ensures var (b', r) := Feed(c, env, b, data); r == EBADTAG && !Live(b') && Silent(b, b')
  {
    FeedSplit(c, env, b, data, head, frame, rest);
    if b.hasSize {
      PayloadJudged(c, env, b, frame);
    }
  }

  // The chunk completes a header with a size, low byte first, above the largest.
  lemma SizeRefused(c: Crypto, env: Env, b: Conn, data: bytes, head: bytes, frame: bytes, rest: bytes)
    requires WellFormed(b) && b.act == ActDone && !b.hasSize
    requires data == head + rest && frame == b.buf + head && |frame| == b.len && Tagged(c, b.party.recv, frame)
    requires var s := Inside(c, b.party.recv, frame);
      |s| == 4 && s[0] as nat + 0x100 * (s[1] as nat) + 0x1_0000 * (s[2] as nat) + 0x100_0000 * (s[3] as nat) > MAX_MESSAGE
    ensures var (b', r) := Feed(c, env, b, data); r == EBADSIZE && !Live(b') && Silent(b, b')
  {
    FeedSplit(c, env, b, data, head, frame, rest);
    HeaderJudged(c, b, frame);
  }

  lemma FrameEnds(c: Crypto, env: Env, b: Conn, b1: Conn, frame: bytes, rest: bytes, two: (Conn, Status), one: (Conn, Status))
    requires WellFormed(b) && Live(b) && |frame| == b.len && b1 == b.(buf := b1.buf)
    requires Steps(c, env, Parse(c, env, b1, frame), rest, two) && Steps(c, env, Parse(c, env, b, frame), rest, one)
    ensures Compares(two, one, !Live(AfterFrame(Parse(c, env, b1, frame))) && b1.buf != b.buf)
  {
    ParseBuf(c, env, b, b1.buf, frame);
    AfterFrameBuf(Parse(c, env, b, frame), Parse(c, env, b1, frame), b1.buf);
  }

  // One frame completed by y, when x only adds to the buffer.
  lemma PartialFrame(c: Crypto, env: Env, b: Conn, b1: Conn, x: bytes, y: bytes, xy: bytes, two: (Conn, Status), one: (Conn, Status))
    requires WellFormed(b) && Live(b) && |b.buf| + |x| < b.len && b1 == b.(buf := b.buf + x) && xy == x + y
    requires two == Feed(c, env, b1, y) && one == Feed(c, env, b, xy)
    ensures Compares(two, one, FirstEnds(c, env, b1, y) && b1.buf != b.buf)
  {
    if |b1.buf| + |y| < b.len {
      assert (b.buf + x) + y == b.buf + (x + y);
    } else {
      var head, rest := Cut(y, b.len - |b1.buf|);
      var frame := b1.buf + head;
      assert frame == b.buf + (x + head) && xy == (x + head) + rest by { Joins(b.buf, x, head, rest); }
      FeedSplit(c, env, b1, y, head, frame, rest);
      FeedSplit(c, env, b, xy, x + head, frame, rest);
      FrameEnds(c, env, b, b1, frame, rest, two, one);
    }
  }

  lemma Cut(y: bytes, n: nat) returns (head: bytes, rest: bytes)
    requires n <= |y|
    ensures y == head + rest && |head| == n
  {
    head, rest := y[..n], y[n..];
  }

  lemma Joins(a: bytes, x: bytes, head: bytes, rest: bytes)
    ensures a + x + head == a + (x + head) && x + (head + rest) == (x + head) + rest
  {
  }

  // Feeding x and then y is feeding x + y: the same codes, and the same state,
  // except that a connection closed by a frame cut in two keeps the first
  // part of that frame in its buffer.
  lemma {:induction false} ChunkExact(c: Crypto, env: Env, b: Conn, x: bytes, y: bytes)
    requires WellFormed(b)
    ensures var (b1, r1) := Feed(c, env, b, x);
      var two, one := Feed(c, env, b1, y), Feed(c, env, b, x + y);
      && Alike(two.0, one.0)
      && one.1 == (if r1 != SUCCESS then r1 else two.1)
      && (two.0 == one.0 <==> !(Live(b1) && FirstEnds(c, env, b1, y) && b1.buf != StartBuf(b, x)))
    decreases |x|
  {
    if Live(b) {
      if |b.buf| + |x| < b.len {
        PartialFrame(c, env, b, b.(buf := b.buf + x), x, y, x + y, Feed(c, env, b.(buf := b.buf + x), y), Feed(c, env, b, x + y));
      } else {
        var need := b.len - |b.buf|;
        var r := Parse(c, env, b, b.buf + x[..need]);
        assert (x + y)[..need] == x[..need] && (x + y)[need..] == x[need..] + y;
        if Live(AfterFrame(r)) {
          ChunkExact(c, env, AfterFrame(r), x[need..], y);
        }
      }
    }
  }

  // ----- Frames and lockstep -----

  // One part as sealed under k, with its tag.
  function Part(c: Crypto, k: Keys, m: bytes): bytes {
    var out := c.seal(k.key, k.nonce, NO_DATA, m);
    out + c.tag(k.key, k.nonce, NO_DATA, out)
  }

  // A message as it travels: its sealed size, then itself.
  function Frame(c: Crypto, k: Keys, m: bytes): bytes {
    Part(c, k, Size(|m|)) + Part(c, Next(c, k), m)
  }

  function Frames(c: Crypto, k: Keys, ms: seq<bytes>): bytes
    decreases |ms|
  {
    if ms == [] then [] else Frame(c, k, ms[0]) + Frames(c, After(c, k, 2), ms[1..])
  }

  function SendAll(c: Crypto, env: Env, b: Conn, ms: seq<bytes>): Conn
    decreases |ms|
  {
    if ms == [] then b else SendAll(c, env, Send(c, env, b, ms[0]).0, ms[1..])
  }

  ghost predicate AllWritten(env: Env) {
    forall n :: Code(env.code(n)) == SUCCESS
  }

  lemma AfterTail(c: Crypto, k: Keys, n: nat)
    requires n > 0
    ensures After(c, After(c, k, 2), 2 * (n - 1)) == After(c, k, 2 * n)
  {
    AfterAfter(c, k, 2, 2 * (n - 1));
  }

  // The sender's bytes are exactly the frames, and two nonces go on each.
  predicate SentAs(c: Crypto, b: Conn, s: Conn, k: Keys, sent: bytes, n: nat) {
    s.act == ActDone && s.written == b.written + sent && s.party.send == After(c, k, n)
  }

  lemma {:induction false} SendAllFrames(c: Crypto, env: Env, b: Conn, k: Keys, ms: seq<bytes>)
    requires AllWritten(env) && b.act == ActDone && b.party.send == k
    ensures SentAs(c, b, SendAll(c, env, b, ms), k, Frames(c, k, ms), 2 * |ms|)
    decreases |ms|
  {
    if ms == [] {
      assert b.written + [] == b.written;
    } else {
      var b1, tail := Send(c, env, b, ms[0]).0, ms[1..];
      SendFrame(c, env, b, ms[0]);
      SendAllFrames(c, env, b1, After(c, k, 2), tail);
      SentThen(c, b, b1, SendAll(c, env, b1, tail), k, Frame(c, k, ms[0]), Frames(c, After(c, k, 2), tail), |ms|);
    }
  }

  lemma SentThen(c: Crypto, b: Conn, b1: Conn, s: Conn, k: Keys, head: bytes, tail: bytes, n: nat)
    requires n > 0 && b1.written == b.written + head && SentAs(c, b1, s, After(c, k, 2), tail, 2 * (n - 1))
    ensures SentAs(c, b, s, k, head + tail, 2 * n)
  {
    AfterTail(c, k, n);
    assert b.written + head + tail == b.written + (head + tail);
  }

  lemma SendPartWritten(c: Crypto, env: Env, b: Conn, m: bytes)
    requires AllWritten(env)
    ensures var (s, r) := SendPart(c, env, b, m);
      r == SUCCESS && s.act == b.act && s.written == b.written + Part(c, b.party.send, m) && s.party.send == Next(c, b.party.send)
  {
    var k := b.party.send;
    var out := c.seal(k.key, k.nonce, NO_DATA, m);
    Regroup(b.written, out, c.tag(k.key, k.nonce, NO_DATA, out));
  }

  lemma SendFrame(c: Crypto, env: Env, b: Conn, m: bytes)
    requires AllWritten(env) && b.act == ActDone
    ensures var (s, r) := Send(c, env, b, m);
      r == SUCCESS && s.act == ActDone && s.written == b.written + Frame(c, b.party.send, m) && s.party.send == After(c, b.party.send, 2)
  {
    var k := b.party.send;
    var b1 := SendPart(c, env, b, Size(|m|)).0;
    SendPartWritten(c, env, b, Size(|m|));
    SendPartWritten(c, env, b1, m);
    AfterTwo(c, k);
    Regroup(b.written, Part(c, k, Size(|m|)), Part(c, Next(c, k), m));
  }

  lemma AfterTwo(c: Crypto, k: Keys)
    ensures After(c, k, 2) == Next(c, Next(c, k))
  {
    assert After(c, k, 2) == Next(c, After(c, k, 1)) && After(c, k, 1) == Next(c, After(c, k, 0));
  }

  lemma Regroup(a: bytes, x: bytes, y: bytes)
    ensures a + x + y == a + (x + y)
  {
  }

  // The four pieces of a message, in the order in which they are handed to the writer.
  function Pieces(c: Crypto, k: Keys, m: bytes): (s: seq<bytes>)
    ensures |s| == 4
  {
    var k1 := Next(c, k);
    var size, body := c.seal(k.key, k.nonce, NO_DATA, Size(|m|)), c.seal(k1.key, k1.nonce, NO_DATA, m);
    [size, c.tag(k.key, k.nonce, NO_DATA, size), body, c.tag(k1.key, k1.nonce, NO_DATA, body)]
  }

  // The writer takes n of four pieces, and refuses the next if there is one.
  ghost predicate Takes(env: Env, writes: nat, n: nat) {
    n <= 4 && (forall i: nat :: writes <= i < writes + n ==> env.code(i) == 0) && (n < 4 ==> env.code(writes + n) != 0)
  }

  // Whatever the writer refuses, what is written is a whole number of pieces in order; at
  // the first one refused the connection is closed with that code.
  lemma SendUpTo(c: Crypto, env: Env, b: Conn, m: bytes, n: nat)
    requires b.act == ActDone && Takes(env, b.writes, n)
    ensures var (s, r) := Send(c, env, b, m);
      && s.written == b.written + Joined(Pieces(c, b.party.send, m)[..n])
      && s.writes == b.writes + (if n == 4 then 4 else n + 1)
      && r == (if n == 4 then SUCCESS else Code(env.code(b.writes + n))) && s.act == (if n == 4 then ActDone else NoAct)
  {
    var (b1, r1) := SendPart(c, env, b, Size(|m|));
    PartUpTo(c, env, b, Size(|m|), if n < 2 then n else 2);
    if n >= 2 {
      PartUpTo(c, env, b1, m, n - 2);
    }
    JoinPieces(b.written, Pieces(c, b.party.send, m), n);
  }

  // One part of a message, of whose two pieces the writer takes n.
  lemma PartUpTo(c: Crypto, env: Env, b: Conn, m: bytes, n: nat)
    requires n <= 2 && (forall i: nat :: b.writes <= i < b.writes + n ==> env.code(i) == 0)
    requires n < 2 ==> env.code(b.writes + n) != 0
    ensures var (s, r) := SendPart(c, env, b, m);
      var k := b.party.send;
      var out := c.seal(k.key, k.nonce, NO_DATA, m);
      && s.written == (if n == 0 then b.written else if n == 1 then b.written + out else b.written + out + c.tag(k.key, k.nonce, NO_DATA, out))
      && s.writes == b.writes + (if n == 2 then 2 else n + 1) && s.act == b.act && s.party.send == Next(c, k)
      && r == (if n == 2 then SUCCESS else Code(env.code(b.writes + n)))
  {
    assert n > 0 ==> env.code(b.writes) == 0;
    assert n > 1 ==> env.code(b.writes + 1) == 0;
  }

  lemma JoinPieces(was: bytes, s: seq<bytes>, n: nat)
    requires |s| == 4 && n <= 4
    ensures was + Joined(s[..n]) ==
      if n == 0 then was
      else if n == 1 then was + s[0]
      else if n == 2 then was + s[0] + s[1]
      else if n == 3 then was + s[0] + s[1] + s[2]
      else was + s[0] + s[1] + s[2] + s[3]
  {
    if n > 0 {
      JoinedSnoc(s[..n - 1], s[n - 1]);
      assert s[..n - 1] + [s[n - 1]] == s[..n];
      JoinPieces(was, s, n - 1);
      Regroup(was, Joined(s[..n - 1]), s[n - 1]);
    }
  }

  lemma {:induction false} JoinedSnoc(s: seq<bytes>, x: bytes)
    ensures Joined(s + [x]) == Joined(s) + x
  {
    if s == [] {
      assert [] + [x] == [x] && [x][1..] == [] && x + [] == [] + x;
    } else {
      JoinedSnoc(s[1..], x);
      assert (s + [x])[1..] == s[1..] + [x];
      Regroup(s[0], Joined(s[1..]), x);
    }
  }

  // ----- Receiving -----

  // Between messages, under the keys k.
  predicate Ready(b: Conn, k: Keys) {
    b.act == ActDone && !b.hasSize && b.buf == [] && b.len == HEADER_SIZE && b.party.recv == k
  }

  lemma PartOpens(c: Crypto, k: Keys, m: bytes)
    requires Lawful(c)
    ensures var p := Part(c, k, m);
      && |p| == |m| + MAC_SIZE && c.open(k.key, k.nonce, NO_DATA, p[..|m|]) == m
      && c.tag(k.key, k.nonce, NO_DATA, p[..|m|]) == p[|m|..]
  {
    var out := c.seal(k.key, k.nonce, NO_DATA, m);
    assert Part(c, k, m)[..|m|] == out;
  }

  lemma HeaderAccepted(c: Crypto, env: Env, b: Conn, k: Keys, n: nat)
    requires Lawful(c) && Ready(b, k) && n <= MAX_MESSAGE
    ensures |Part(c, k, Size(n))| == HEADER_SIZE
    ensures Parse(c, env, b, Part(c, k, Size(n))) == Result(WithRecv(b, Next(c, k)).(hasSize := true), SUCCESS, n + MAC_SIZE)
  {
    PartOpens(c, k, Size(n));
    SizeRoundTrip(n);
  }

  lemma PayloadAccepted(c: Crypto, env: Env, b: Conn, k: Keys, m: bytes)
    requires Lawful(c) && b.act == ActDone && b.hasSize && b.len == |m| + MAC_SIZE && b.party.recv == k
    ensures |Part(c, k, m)| == b.len
    ensures Parse(c, env, b, Part(c, k, m)) == Result(
      WithRecv(b, Next(c, k)).(hasSize := false, delivered := b.delivered + [m],
                               act := if env.closes(|b.delivered|) then NoAct else ActDone), SUCCESS, HEADER_SIZE)
  {
    PartOpens(c, k, m);
  }

  ghost predicate NeverCloses(env: Env) {
    forall n :: !env.closes(n)
  }

  // The receiver after one message.
  function Received(c: Crypto, b: Conn, m: bytes): Conn {
    WithRecv(b, After(c, b.party.recv, 2)).(delivered := b.delivered + [m])
  }

  lemma FeedWhole(c: Crypto, env: Env, b: Conn, frame: bytes, rest: bytes)
    requires WellFormed(b) && Live(b) && b.buf == [] && |frame| == b.len && Live(AfterFrame(Parse(c, env, b, frame)))
    ensures Feed(c, env, b, frame + rest) == Feed(c, env, AfterFrame(Parse(c, env, b, frame)), rest)
  {
    assert (frame + rest)[..b.len] == frame && (frame + rest)[b.len..] == rest && [] + frame == frame;
  }

  // A whole message is taken in two steps and leaves the receiver ready.
  lemma FeedFrame(c: Crypto, env: Env, b: Conn, k: Keys, m: bytes, rest: bytes)
    requires Lawful(c) && NeverCloses(env) && Ready(b, k) && |m| <= MAX_MESSAGE
    ensures Feed(c, env, b, Frame(c, k, m) + rest) == Feed(c, env, Received(c, b, m), rest)
    ensures Ready(Received(c, b, m), After(c, k, 2))
  {
    var head, body, k1 := Part(c, k, Size(|m|)), Part(c, Next(c, k), m), Next(c, k);
    HeaderAccepted(c, env, b, k, |m|);
    var b1 := AfterFrame(Parse(c, env, b, head));
    FeedWhole(c, env, b, head, body + rest);
    PayloadAccepted(c, env, b1, k1, m);
    FeedWhole(c, env, b1, body, rest);
    AfterTwo(c, k);
    assert AfterFrame(Parse(c, env, b1, body)) == Received(c, b, m);
    Regroup(head, body, rest);
  }

  ghost predicate SmallMessages(ms: seq<bytes>) {
    forall i :: 0 <= i < |ms| ==> |ms[i]| <= MAX_MESSAGE
  }

  predicate ReceivedAs(c: Crypto, b: Conn, r: (Conn, Status), k: Keys, ms: seq<bytes>, n: nat) {
    r.1 == SUCCESS && Ready(r.0, After(c, k, n)) && r.0.delivered == b.delivered + ms
  }

  lemma {:induction false} FeedStream(c: Crypto, env: Env, b: Conn, k: Keys, ms: seq<bytes>, w: bytes, r: (Conn, Status))
    requires Lawful(c) && NeverCloses(env) && Ready(b, k) && SmallMessages(ms) && w == Frames(c, k, ms) && r == Feed(c, env, b, w)
    ensures ReceivedAs(c, b, r, k, ms, 2 * |ms|)
    decreases |ms|
  {
    if ms == [] {
      FeedNothing(c, env, b, k);
    } else {
      var tail, k2, b1 := ms[1..], After(c, k, 2), Received(c, b, ms[0]);
      FeedFirst(c, env, b, b1, k, k2, ms, tail);
      FeedStream(c, env, b1, k2, tail, Frames(c, k2, tail), r);
      ReceivedThen(c, b, b1, r, k, ms, |ms|);
    }
  }

  // The whole stream at once: every message is delivered, in order, and the
  // receive cipher has moved with the send cipher.
  lemma FeedFrames(c: Crypto, env: Env, b: Conn, k: Keys, ms: seq<bytes>)
    requires Lawful(c) && NeverCloses(env) && Ready(b, k) && SmallMessages(ms)
    ensures ReceivedAs(c, b, Feed(c, env, b, Frames(c, k, ms)), k, ms, 2 * |ms|)
  {
    FeedStream(c, env, b, k, ms, Frames(c, k, ms), Feed(c, env, b, Frames(c, k, ms)));
  }

  lemma FeedFirst(c: Crypto, env: Env, b: Conn, b1: Conn, k: Keys, k2: Keys, ms: seq<bytes>, tail: seq<bytes>)
    requires Lawful(c) && NeverCloses(env) && Ready(b, k) && SmallMessages(ms) && ms != []
    requires tail == ms[1..] && k2 == After(c, k, 2) && b1 == Received(c, b, ms[0])
    ensures Ready(b1, k2) && SmallMessages(tail) && b1.delivered == b.delivered + [ms[0]]
    ensures Feed(c, env, b, Frames(c, k, ms)) == Feed(c, env, b1, Frames(c, k2, tail))
  {
    FeedFrame(c, env, b, k, ms[0], Frames(c, k2, tail));
  }

  lemma FeedNothing(c: Crypto, env: Env, b: Conn, k: Keys)
    requires Ready(b, k)
    ensures ReceivedAs(c, b, Feed(c, env, b, []), k, [], 0)
  {
    assert b.buf + [] == b.buf && b.delivered + [] == b.delivered;
  }

  lemma ReceivedThen(c: Crypto, b: Conn, b1: Conn, r: (Conn, Status), k: Keys, ms: seq<bytes>, n: nat)
    requires n == |ms| > 0 && b1.delivered == b.delivered + [ms[0]] && ReceivedAs(c, b1, r, After(c, k, 2), ms[1..], 2 * (n - 1))
    ensures ReceivedAs(c, b, r, k, ms, 2 * n)
  {
    AfterTail(c, k, n);
    assert b.delivered + [ms[0]] + ms[1..] == b.delivered + ms;
  }

  // ----- Any chunks -----

  function FeedChunks(c: Crypto, env: Env, b: Conn, chunks: seq<bytes>): (r: Conn)
    requires WellFormed(b)
    ensures WellFormed(r)
    decreases |chunks|
  {
    if chunks == [] then b else FeedChunks(c, env, Feed(c, env, b, chunks[0]).0, chunks[1..])
  }

  function Joined(chunks: seq<bytes>): bytes {
    if chunks == [] then [] else chunks[0] + Joined(chunks[1..])
  }

  lemma {:induction false} DeadChunks(c: Crypto, env: Env, b: Conn, chunks: seq<bytes>)
    requires !Live(b)
    ensures FeedChunks(c, env, b, chunks) == b
    decreases |chunks|
  {
    if chunks != [] {
      DeadChunks(c, env, b, chunks[1..]);
    }
  }

  // However a stream is cut, the outcome is the same as in one piece.
  lemma {:induction false} ChunksAlike(c: Crypto, env: Env, b: Conn, chunks: seq<bytes>)
    requires WellFormed(b)
    ensures Alike(FeedChunks(c, env, b, chunks), Feed(c, env, b, Joined(chunks)).0)
    decreases |chunks|
  {
    if chunks == [] {
      assert b.buf + [] == b.buf;
    } else {
      var b1 := Feed(c, env, b, chunks[0]).0;
      ChunksAlike(c, env, b1, chunks[1..]);
      ChunkExact(c, env, b, chunks[0], Joined(chunks[1..]));
    }
  }

  lemma {:induction false} DeliveredGrows(c: Crypto, env: Env, b: Conn, data: bytes)
    requires WellFormed(b)
    ensures b.delivered <= Feed(c, env, b, data).0.delivered
    decreases |data|
  {
    if Live(b) && |b.buf| + |data| >= b.len {
      var need := b.len - |b.buf|;
      var frame, rest := b.buf + data[..need], data[need..];
      FeedStep(c, env, b, data, frame, rest);
      var a := AfterFrame(Parse(c, env, b, frame));
      assert b.delivered <= a.delivered;
      if Live(a) {
        DeliveredGrows(c, env, a, rest);
        PrefixTrans(b.delivered, a.delivered, Feed(c, env, a, rest).0.delivered);
      }
    }
  }

  lemma PrefixTrans(a: seq<bytes>, b: seq<bytes>, d: seq<bytes>)
    requires a <= b <= d
    ensures a <= d
  {
  }

  // Messages sent under the receiver's keys, of which any part has arrived in
  // any chunks: what is delivered is a prefix of what was sent; once all has
  // arrived it is everything, and the ciphers are in lockstep again, with a
  // nonce below the rotation interval.
  lemma Delivered(c: Crypto, sender: Env, receiver: Env, s: Conn, r: Conn, ms: seq<bytes>, chunks: seq<bytes>, rest: bytes)
    requires Lawful(c) && AllWritten(sender) && NeverCloses(receiver) && SmallMessages(ms)
    requires s.act == ActDone && Ready(r, s.party.send) && s.party.send.nonce < ROTATION_INTERVAL
    requires SendAll(c, sender, s, ms).written == s.written + (Joined(chunks) + rest)
    ensures var s', r' := SendAll(c, sender, s, ms), FeedChunks(c, receiver, r, chunks);
      && r'.delivered <= r.delivered + ms
      && (rest == [] ==> r'.delivered == r.delivered + ms && Ready(r', s'.party.send) && s'.party.send.nonce < ROTATION_INTERVAL)
  {
    var k, data := s.party.send, Joined(chunks);
    SendAllFrames(c, sender, s, k, ms);
    SameTail(s.written, Frames(c, k, ms), data + rest);
    FeedFrames(c, receiver, r, k, ms);
    ChunksAlike(c, receiver, r, chunks);
    var part := Feed(c, receiver, r, data).0;
    ChunkExact(c, receiver, r, data, rest);
    DeliveredGrows(c, receiver, part, rest);
    NonceBound(c, k, 2 * |ms|);
    assert data + [] == data;
  }

  lemma SameTail(a: bytes, x: bytes, y: bytes)
    requires a + x == a + y
    ensures x == y
  {
    assert (a + x)[|a|..] == x && (a + y)[|a|..] == y;
  }

  // Without an honest sender the rule has a real exception: a header with a
  // wrong tag leaves a different buffer when it arrives in two pieces.
  lemma CutFrameDiffers(c: Crypto, env: Env, b: Conn, k: Keys, y: bytes)
    requires Ready(b, k) && |y| == HEADER_SIZE - 1 && c.tag(k.key, k.nonce, NO_DATA, ([0] + y)[..4]) != ([0] + y)[4..]
    ensures Feed(c, env, Feed(c, env, b, [0]).0, y).0 != Feed(c, env, b, [0] + y).0
  {
    var frame := [0] + y;
    assert b.buf + [0] == [0];
    var b1 := b.(buf := [0]);
    CutHeaderEnds(c, env, b1, k, y, frame);
    ChunkExact(c, env, b, [0], y);
  }

  lemma CutHeaderEnds(c: Crypto, env: Env, b1: Conn, k: Keys, y: bytes, frame: bytes)
    requires Ready(b1.(buf := []), k) && b1.buf == [0] && |y| == HEADER_SIZE - 1 && frame == [0] + y
    requires c.tag(k.key, k.nonce, NO_DATA, frame[..4]) != frame[4..]
    ensures WellFormed(b1) && FirstEnds(c, env, b1, y)
  {
    assert y[..b1.len - |b1.buf|] == y;
  }

  // ----- From connecting to talking -----

  lemma FeedOnce(c: Crypto, env: Env, b: Conn, frame: bytes)
    requires WellFormed(b) && Live(b) && b.buf == [] && |frame| == b.len && Live(AfterFrame(Parse(c, env, b, frame)))
    ensures Feed(c, env, b, frame) == (AfterFrame(Parse(c, env, b, frame)), SUCCESS)
  {
    assert frame + [] == frame;
    FeedWhole(c, env, b, frame, []);
    var a := AfterFrame(Parse(c, env, b, frame));
    assert a.buf + [] == a.buf;
  }

  // Both environments accept every write and keep the connection open.
  ghost predicate Honest(env: Env) {
    AllWritten(env) && NeverCloses(env) && !env.closesOnConnect
  }

  // The bytes written since b.
  function NewBytes(b: Conn, b': Conn): bytes {
    if |b.written| <= |b'.written| then b'.written[|b.written|..] else []
  }

  lemma ActOneRead(c: Crypto, env: Env, r: Conn, act: bytes)
    requires Honest(env) && r.act == ActOne && WellFormed(r) && r.buf == [] && |act| == ACT_ONE_SIZE
    requires RecvActOne(c, r.party, act).0
    ensures var (act2, p2) := GenActTwo(c, RecvActOne(c, r.party, act).1, env.ephemeral, env.entropy);
      var r1 := Feed(c, env, r, act).0;
      r1.act == ActThree && WellFormed(r1) && r1.buf == [] && r1.hasSize == r.hasSize && r1.party == p2 && NewBytes(r, r1) == act2
  {
    FeedOnce(c, env, r, act);
    var (act2, p2) := GenActTwo(c, RecvActOne(c, r.party, act).1, env.ephemeral, env.entropy);
    assert (r.written + act2)[|r.written|..] == act2;
  }

  lemma ActTwoRead(c: Crypto, env: Env, i: Conn, act: bytes)
    requires Honest(env) && i.act == ActTwo && WellFormed(i) && i.buf == [] && |act| == ACT_TWO_SIZE
    requires RecvActTwo(c, i.party, act).0
    ensures var (act3, p3) := GenActThree(c, RecvActTwo(c, i.party, act).1);
      var i1 := Feed(c, env, i, act).0;
      i1.act == ActDone && i1.connects == i.connects + 1 && i1.hasSize == i.hasSize && i1.len == HEADER_SIZE && i1.buf == [] && i1.party == p3 && NewBytes(i, i1) == act3
  {
    var r := ParseActTwo(c, env, i, act);
    assert r.code == SUCCESS && Live(r.conn);
    FeedOnce(c, env, i, act);
    var (act3, p3) := GenActThree(c, RecvActTwo(c, i.party, act).1);
    assert (i.written + act3)[|i.written|..] == act3;
  }

  lemma ActThreeRead(c: Crypto, env: Env, r: Conn, act: bytes)
    requires Honest(env) && r.act == ActThree && WellFormed(r) && r.buf == [] && |act| == ACT_THREE_SIZE
    requires RecvActThree(c, r.party, act).0
    ensures var r1 := Feed(c, env, r, act).0;
      r1.act == ActDone && r1.connects == r.connects + 1 && r1.hasSize == r.hasSize && r1.len == HEADER_SIZE && r1.buf == [] && r1.party == RecvActThree(c, r.party, act).1
  {
    FeedOnce(c, env, r, act);
  }

  // The three acts, each accepted, bring both connections to an end of the handshake.
  lemma Exchange(c: Crypto, envI: Env, envR: Env, i0: Conn, r0: Conn, act1: bytes, act2: bytes, act3: bytes,
                 q1: Party, q2: Party, q3: Party, p2: Party, p3: Party)
    requires Honest(envI) && Honest(envR) && i0.act == ActTwo && WellFormed(i0) && i0.buf == [] && !i0.hasSize
    requires r0.act == ActOne && WellFormed(r0) && r0.buf == [] && !r0.hasSize
    requires |act1| == ACT_ONE_SIZE && |act2| == ACT_TWO_SIZE && |act3| == ACT_THREE_SIZE
    requires RecvActOne(c, r0.party, act1) == (true, q1) && GenActTwo(c, q1, envR.ephemeral, envR.entropy) == (act2, q2)
    requires RecvActTwo(c, i0.party, act2) == (true, p2) && GenActThree(c, p2) == (act3, p3)
    requires RecvActThree(c, q2, act3) == (true, q3)
    ensures var r1 := Feed(c, envR, r0, act1).0;
      var i1 := Feed(c, envI, i0, NewBytes(r0, r1)).0;
      var r2 := Feed(c, envR, r1, NewBytes(i0, i1)).0;
        WellFormed(r1) && Talking(i1, p3) && Talking(r2, q3)
  {
    ActOneRead(c, envR, r0, act1);
    var r1 := Feed(c, envR, r0, act1).0;
    ActTwoRead(c, envI, i0, act2);
    ActThreeRead(c, envR, r1, act3);
  }

  // Between messages, with the handshake state p.
  predicate Talking(b: Conn, p: Party) {
    b.act == ActDone && !b.hasSize && b.buf == [] && b.len == HEADER_SIZE && b.party == p
  }

  // Two honest connections exchange the three acts, and each is then ready to
  // receive under exactly the keys the other sends with.
  lemma Connects(c: Crypto, envI: Env, envR: Env, ours: bytes, theirs: bytes)
    requires Lawful(c) && Honest(envI) && Honest(envR)
    ensures var i0 := OnConnect(c, envI, Opened(Init(c, true, ours, Some(c.pub(theirs))))).0;
      var r0 := OnConnect(c, envR, Opened(Init(c, false, theirs, None))).0;
      && WellFormed(i0) && WellFormed(r0)
      && var r1 := Feed(c, envR, r0, NewBytes(Opened(i0.party), i0)).0;
      var i1 := Feed(c, envI, i0, NewBytes(r0, r1)).0;
      var r2 := Feed(c, envR, r1, NewBytes(i0, i1)).0;
        && Ready(i1, r2.party.send) && Ready(r2, i1.party.send) && r2.party.remoteStatic == c.pub(ours)
        && i1.party.send.nonce == r2.party.send.nonce == 0
  {
    var pi, pr := Init(c, true, ours, Some(c.pub(theirs))), Init(c, false, theirs, None);
    HandshakeAgrees(c, ours, theirs, envI.ephemeral, envR.ephemeral, envI.entropy, envR.entropy);
    var (act1, p1) := GenActOne(c, pi, envI.ephemeral, envI.entropy);
    var i0, r0 := OnConnect(c, envI, Opened(pi)).0, OnConnect(c, envR, Opened(pr)).0;
    assert [] + act1 == act1 && i0.written == act1 && act1[0..] == act1;
    var (ok1, q1) := RecvActOne(c, r0.party, act1);
    var (act2, q2) := GenActTwo(c, q1, envR.ephemeral, envR.entropy);
    var (ok2, p2) := RecvActTwo(c, i0.party, act2);
    var (act3, p3) := GenActThree(c, p2);
    var (ok3, q3) := RecvActThree(c, q2, act3);
    Exchange(c, envI, envR, i0, r0, act1, act2, act3, q1, q2, q3, p2, p3);
  }
}
