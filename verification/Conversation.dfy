// Two connected parties talking both ways: messages are sent at any time, and
// any part of what is under way arrives at any time.
module Conversation {
  import opened Bytes
  import opened Noise
  import opened Transport
  import opened Delivery

  // The two connections, and how much of the other's bytes each has been given.
  datatype Talk = Talk(i: Conn, r: Conn, seenI: nat, seenR: nat)

  // The initiator (or the responder) sends a message, or is given up to n bytes.
  datatype Event = Say(initiator: bool, message: bytes) | Arrive(initiator: bool, n: nat)

  // The next bytes of a stream.
  function Chunk(written: bytes, seen: nat, n: nat): bytes {
    if seen + n <= |written| then written[seen..seen + n]
    else if seen <= |written| then written[seen..]
    else []
  }

  ghost predicate Orderly(t: Talk) {
    WellFormed(t.i) && WellFormed(t.r)
  }

  lemma SendFormed(c: Crypto, env: Env, b: Conn, m: bytes)
    requires WellFormed(b)
    ensures WellFormed(Send(c, env, b, m).0)
  {
  }

  function Step(c: Crypto, envI: Env, envR: Env, t: Talk, e: Event): (t': Talk)
    requires Orderly(t)
    ensures Orderly(t')
  {
    match e
    case Say(initiator, m) =>
      if initiator then SendFormed(c, envI, t.i, m); t.(i := Send(c, envI, t.i, m).0)
      else SendFormed(c, envR, t.r, m); t.(r := Send(c, envR, t.r, m).0)
    case Arrive(initiator, n) =>
      if initiator then
        var chunk := Chunk(t.r.written, t.seenI, n);
        t.(i := Feed(c, envI, t.i, chunk).0, seenI := t.seenI + |chunk|)
      else
        var chunk := Chunk(t.i.written, t.seenR, n);
        t.(r := Feed(c, envR, t.r, chunk).0, seenR := t.seenR + |chunk|)
  }

  function After(c: Crypto, envI: Env, envR: Env, t: Talk, events: seq<Event>): (t': Talk)
    requires Orderly(t)
    ensures Orderly(t')
  {
    if events == [] then t
    else Step(c, envI, envR, After(c, envI, envR, t, events[..|events| - 1]), events[|events| - 1])
  }

  // The messages of one side, in order.
  function Said(events: seq<Event>, initiator: bool): seq<bytes> {
    if events == [] then [] else SaidThen(Said(events[..|events| - 1], initiator), events[|events| - 1], initiator)
  }

  function SaidThen(said: seq<bytes>, e: Event, initiator: bool): seq<bytes> {
    if e.Say? && e.initiator == initiator then said + [e.message] else said
  }

  // ----- Sending and receiving do not meet -----

  // What receiving depends on, and changes.
  function RecvSide(b: Conn): Conn {
    b.(party := b.party.(send := Keys(0, [], [])), written := [], writes := 0)
  }

  // The same to a receiver.
  predicate SameRecv(a: Conn, b: Conn) {
    RecvSide(a) == RecvSide(b)
  }

  predicate SameSend(a: Conn, b: Conn) {
    a.party.send == b.party.send && a.written == b.written && a.writes == b.writes
  }

  lemma ParseApart(c: Crypto, env: Env, a: Conn, b: Conn, frame: bytes)
    requires Framed(a) && Framed(b) && a.act == ActDone && SameRecv(a, b) && |frame| == a.len
    ensures var x, y := Parse(c, env, a, frame), Parse(c, env, b, frame);
      && SameRecv(x.conn, y.conn) && x.code == y.code && x.next == y.next && SameSend(x.conn, a)
      && (x.conn.act == ActDone || x.conn.act == NoAct)
  {
    if a.hasSize {
      assert SameRecv(ParsePayload(c, env, a, frame).conn, ParsePayload(c, env, b, frame).conn);
    } else {
      assert SameRecv(ParseHeader(c, a, frame).conn, ParseHeader(c, b, frame).conn);
    }
  }

  // Reading the same bytes has the same effect whatever has been sent meanwhile,
  // and leaves the sending half alone.
  lemma {:induction false} FeedApart(c: Crypto, env: Env, a: Conn, b: Conn, data: bytes)
    requires WellFormed(a) && WellFormed(b) && a.act == ActDone && SameRecv(a, b)
    ensures SameRecv(Feed(c, env, a, data).0, Feed(c, env, b, data).0) && SameSend(Feed(c, env, a, data).0, a)
    ensures Feed(c, env, a, data).0.act == ActDone || Feed(c, env, a, data).0.act == NoAct
    decreases |data|
  {
    if |a.buf| + |data| >= a.len {
      var need := a.len - |a.buf|;
      var frame, rest := a.buf + data[..need], data[need..];
      ParseApart(c, env, a, b, frame);
      FeedStep(c, env, a, data, frame, rest);
      FeedStep(c, env, b, data, frame, rest);
      var x, y := AfterFrame(Parse(c, env, a, frame)), AfterFrame(Parse(c, env, b, frame));
      if Live(x) {
        FeedApart(c, env, x, y, rest);
      }
    }
  }

  lemma SendApart(c: Crypto, env: Env, b: Conn, m: bytes)
    requires AllWritten(env) && b.act == ActDone
    ensures SameRecv(Send(c, env, b, m).0, b)
  {
  }

  // ----- One direction -----

  // What sending has done since lo bytes had been written.
  function Sender(a: Conn, lo: nat): (Act, bytes, Keys)
    requires lo <= |a.written|
  {
    (a.act, a.written[lo..], a.party.send)
  }

  // The sender a (a0 at first) has sent ms, and the receiver b (b0 at first) has
  // been given the bytes up to seen; it is to receive on as if, like quiet, it had
  // only received.
  ghost predicate OneWayLike(c: Crypto, env: Env, a0: Conn, b0: Conn, a: Conn, b: Conn, ms: seq<bytes>, seen: nat, quiet: Conn)
    requires WellFormed(b0)
  {
    && |a0.written| <= seen <= |a.written| && b.act == ActDone
    && Sender(a, |a0.written|) == (ActDone, Frames(c, a0.party.send, ms), Noise.After(c, a0.party.send, 2 * |ms|))
    && SameRecv(b, quiet) && quiet == Feed(c, env, b0, a.written[|a0.written|..seen]).0
  }

  ghost predicate OneWay(c: Crypto, env: Env, a0: Conn, b0: Conn, a: Conn, b: Conn, ms: seq<bytes>, seen: nat)
    requires WellFormed(b0)
  {
    exists quiet: Conn :: OneWayLike(c, env, a0, b0, a, b, ms, seen, quiet)
  }

  lemma {:induction false} FramesAppend(c: Crypto, k: Keys, ms: seq<bytes>, m: bytes)
    ensures Frames(c, k, ms + [m]) == Frames(c, k, ms) + Frame(c, Noise.After(c, k, 2 * |ms|), m)
    decreases |ms|
  {
    var all := ms + [m];
    if ms == [] {
      assert all == [m] && all[1..] == [];
    } else {
      assert all[0] == ms[0] && all[1..] == ms[1..] + [m];
      FramesAppend(c, Noise.After(c, k, 2), ms[1..], m);
      AfterTail(c, k, |ms|);
    }
  }

  lemma SaysMore(c: Crypto, env: Env, a0: Conn, b0: Conn, a: Conn, b: Conn, ms: seq<bytes>, seen: nat, m: bytes, a': Conn)
    requires WellFormed(b0) && OneWay(c, env, a0, b0, a, b, ms, seen)
    requires SentAs(c, a, a', a.party.send, Frame(c, a.party.send, m), 2)
    ensures OneWay(c, env, a0, b0, a', b, ms + [m], seen)
  {
    var k, n := a0.party.send, 2 * |ms|;
    var quiet: Conn :| OneWayLike(c, env, a0, b0, a, b, ms, seen, quiet);
    FramesAppend(c, k, ms, m);
    AfterAfter(c, k, n, 2);
    Longer(|a0.written|, Frames(c, k, ms), Frame(c, Noise.After(c, k, n), m), a.written, a'.written, seen);
    assert OneWayLike(c, env, a0, b0, a', b, ms + [m], seen, quiet);
  }

  lemma Longer(lo: nat, sent: bytes, more: bytes, w: bytes, w': bytes, seen: nat)
    requires lo <= seen <= |w| && w[lo..] == sent && w' == w + more
    ensures w'[lo..] == sent + more && w'[lo..seen] == w[lo..seen]
  {
  }

  // Other traffic does not matter to this direction.
  lemma OtherTraffic(c: Crypto, env: Env, a0: Conn, b0: Conn, a: Conn, b: Conn, a': Conn, b': Conn, ms: seq<bytes>, seen: nat)
    requires WellFormed(b0) && OneWay(c, env, a0, b0, a, b, ms, seen)
    requires SameSend(a', a) && a'.act == ActDone && SameRecv(b', b)
    ensures OneWay(c, env, a0, b0, a', b', ms, seen)
  {
    var quiet: Conn :| OneWayLike(c, env, a0, b0, a, b, ms, seen, quiet);
    assert OneWayLike(c, env, a0, b0, a', b', ms, seen, quiet);
  }

  // No prefix of an honest stream ends the connection.
  lemma PrefixLive(c: Crypto, env: Env, b0: Conn, k: Keys, ms: seq<bytes>, x: bytes, y: bytes)
    requires Lawful(c) && NeverCloses(env) && Ready(b0, k) && SmallMessages(ms) && x + y == Frames(c, k, ms)
    ensures Feed(c, env, b0, x).0.act == ActDone
    ensures Feed(c, env, b0, x).0.delivered <= b0.delivered + ms
  {
    var b := Feed(c, env, b0, x).0;
    FeedApart(c, env, b0, b0, x);
    FeedFrames(c, env, b0, k, ms);
    ChunkExact(c, env, b0, x, y);
    DeliveredGrows(c, env, b, y);
  }

  lemma Prefixes(w: bytes, lo: nat, mid: nat, hi: nat, all: bytes)
    requires lo <= mid <= hi <= |w| && w[lo..] == all
    ensures w[lo..mid] + w[mid..] == all && w[lo..hi] + w[hi..] == all && w[lo..mid] + w[mid..hi] == w[lo..hi]
  {
  }

  // The next chunk of an honest stream: quiet has received x, and b no more.
  lemma HearsChunk(c: Crypto, env: Env, b0: Conn, k: Keys, ms: seq<bytes>, x: bytes, chunk: bytes, y: bytes, rest: bytes, quiet: Conn,
                   b: Conn, b': Conn) returns (quiet': Conn)
    requires Lawful(c) && NeverCloses(env) && Ready(b0, k) && SmallMessages(ms) && y == x + chunk && y + rest == Frames(c, k, ms)
    requires quiet == Feed(c, env, b0, x).0 && WellFormed(b) && b.act == ActDone && SameRecv(b, quiet)
    requires b' == Feed(c, env, b, chunk).0
    ensures quiet' == Feed(c, env, b0, y).0 && SameRecv(b', quiet') && SameSend(b', b) && b'.act == ActDone
  {
    quiet' := Feed(c, env, b0, y).0;
    PrefixLive(c, env, b0, k, ms, y, rest);
    ChunkExact(c, env, b0, x, chunk);
    FeedApart(c, env, b, quiet, chunk);
  }

  // The same for a chunk of what a sender has written since lo.
  lemma HearsSlice(c: Crypto, env: Env, b0: Conn, k: Keys, ms: seq<bytes>, w: bytes, lo: nat, seen: nat, n: nat, chunk: bytes,
                   x: bytes, y: bytes, quiet: Conn, b: Conn, b': Conn) returns (quiet': Conn)
    requires Lawful(c) && NeverCloses(env) && Ready(b0, k) && SmallMessages(ms) && lo <= seen <= |w| && w[lo..] == Frames(c, k, ms)
    requires chunk == Chunk(w, seen, n) && x == w[lo..seen] && seen + |chunk| <= |w| && y == w[lo..seen + |chunk|]
    requires quiet == Feed(c, env, b0, x).0 && WellFormed(b) && b.act == ActDone && SameRecv(b, quiet)
    requires b' == Feed(c, env, b, chunk).0
    ensures quiet' == Feed(c, env, b0, y).0 && SameRecv(b', quiet') && SameSend(b', b) && b'.act == ActDone
  {
    var sent := Frames(c, k, ms);
    var rest := w[seen + |chunk|..];
    assert y == x + chunk && y + rest == sent by { Pieces(lo, sent, w, seen, n, chunk); }
    quiet' := HearsChunk(c, env, b0, k, ms, x, chunk, y, rest, quiet, b, b');
  }

  lemma HearsMore(c: Crypto, env: Env, a0: Conn, b0: Conn, a: Conn, b: Conn, ms: seq<bytes>, seen: nat, n: nat, chunk: bytes, b': Conn)
    requires Lawful(c) && NeverCloses(env) && Ready(b0, a0.party.send) && SmallMessages(ms) && WellFormed(b)
    requires OneWay(c, env, a0, b0, a, b, ms, seen)
    requires chunk == Chunk(a.written, seen, n) && b' == Feed(c, env, b, chunk).0
    ensures OneWay(c, env, a0, b0, a, b', ms, seen + |chunk|) && SameSend(b', b) && b'.act == ActDone
  {
    var w, lo := a.written, |a0.written|;
    var quiet: Conn :| OneWayLike(c, env, a0, b0, a, b, ms, seen, quiet);
    var quiet' := HearsSlice(c, env, b0, a0.party.send, ms, w, lo, seen, n, chunk, w[lo..seen], w[lo..seen + |chunk|], quiet, b, b');
    assert OneWayLike(c, env, a0, b0, a, b', ms, seen + |chunk|, quiet');
  }

  lemma Pieces(lo: nat, sent: bytes, w: bytes, seen: nat, n: nat, chunk: bytes)
    requires lo <= seen <= |w| && w[lo..] == sent && chunk == Chunk(w, seen, n)
    ensures var hi := seen + |chunk|;
      hi <= |w| && w[lo..hi] == w[lo..seen] + chunk && w[lo..hi] + w[hi..] == sent
  {
    assert chunk == w[seen..seen + |chunk|];
    Prefixes(w, lo, seen, seen + |chunk|, sent);
  }

  // What the invariant of a direction says of its messages and ciphers.
  lemma OneWayDelivers(c: Crypto, env: Env, a0: Conn, b0: Conn, a: Conn, b: Conn, ms: seq<bytes>, seen: nat)
    requires Lawful(c) && NeverCloses(env) && Ready(b0, a0.party.send) && SmallMessages(ms) && a0.party.send.nonce < ROTATION_INTERVAL
    requires OneWay(c, env, a0, b0, a, b, ms, seen)
    ensures b.delivered <= b0.delivered + ms && a.party.send.nonce < ROTATION_INTERVAL
    ensures seen == |a.written| ==> b.delivered == b0.delivered + ms && Ready(b, a.party.send)
  {
    var k, lo := a0.party.send, |a0.written|;
    var quiet: Conn :| OneWayLike(c, env, a0, b0, a, b, ms, seen, quiet);
    Prefixes(a.written, lo, seen, seen, Frames(c, k, ms));
    PrefixLive(c, env, b0, k, ms, a.written[lo..seen], a.written[seen..]);
    FeedFrames(c, env, b0, k, ms);
    NonceBound(c, k, 2 * |ms|);
  }

  // ----- Both directions -----

  // The initiator has sent the messages there, the responder those back.
  ghost predicate BothWays(c: Crypto, envI: Env, envR: Env, t0: Talk, t: Talk, there: seq<bytes>, back: seq<bytes>)
    requires Orderly(t0)
  {
    OneWay(c, envR, t0.i, t0.r, t.i, t.r, there, t.seenR) && OneWay(c, envI, t0.r, t0.i, t.r, t.i, back, t.seenI)
  }

  ghost predicate SmallTalk(events: seq<Event>) {
    forall i :: 0 <= i < |events| && events[i].Say? ==> |events[i].message| <= MAX_MESSAGE
  }

  lemma {:induction false} SaidSmall(events: seq<Event>, initiator: bool)
    requires SmallTalk(events)
    ensures SmallMessages(Said(events, initiator))
  {
    if events != [] {
      SaidSmall(events[..|events| - 1], initiator);
    }
  }

  // Each side is ready for what the other sends, and nothing is under way.
  ghost predicate Start(t: Talk) {
    && Ready(t.i, t.r.party.send) && Ready(t.r, t.i.party.send) && t.seenI == |t.r.written| && t.seenR == |t.i.written|
    && t.i.party.send.nonce < ROTATION_INTERVAL && t.r.party.send.nonce < ROTATION_INTERVAL
  }

  lemma SayThere(c: Crypto, envI: Env, envR: Env, t0: Talk, t: Talk, there: seq<bytes>, back: seq<bytes>, m: bytes)
    requires Honest(envI) && Honest(envR) && Orderly(t0) && Orderly(t) && BothWays(c, envI, envR, t0, t, there, back)
    ensures BothWays(c, envI, envR, t0, t.(i := Send(c, envI, t.i, m).0), there + [m], back)
  {
    SendFrame(c, envI, t.i, m);
    SaysMore(c, envR, t0.i, t0.r, t.i, t.r, there, t.seenR, m, Send(c, envI, t.i, m).0);
    SayElsewhere(c, envI, envI, t0.r, t0.i, t.r, t.i, back, t.seenI, m);
  }

  lemma SayBack(c: Crypto, envI: Env, envR: Env, t0: Talk, t: Talk, there: seq<bytes>, back: seq<bytes>, m: bytes)
    requires Honest(envI) && Honest(envR) && Orderly(t0) && Orderly(t) && BothWays(c, envI, envR, t0, t, there, back)
    ensures BothWays(c, envI, envR, t0, t.(r := Send(c, envR, t.r, m).0), there, back + [m])
  {
    SendFrame(c, envR, t.r, m);
    SaysMore(c, envI, t0.r, t0.i, t.r, t.i, back, t.seenI, m, Send(c, envR, t.r, m).0);
    SayElsewhere(c, envR, envR, t0.i, t0.r, t.i, t.r, there, t.seenR, m);
  }

  lemma HearBack(c: Crypto, envI: Env, envR: Env, t0: Talk, t: Talk, there: seq<bytes>, back: seq<bytes>, n: nat)
    requires Lawful(c) && NeverCloses(envI) && Start(t0) && Orderly(t0) && Orderly(t) && SmallMessages(back)
    requires BothWays(c, envI, envR, t0, t, there, back)
    ensures BothWays(c, envI, envR, t0, Step(c, envI, envR, t, Arrive(true, n)), there, back)
  {
    var chunk := Chunk(t.r.written, t.seenI, n);
    var i' := Feed(c, envI, t.i, chunk).0;
    HearsMore(c, envI, t0.r, t0.i, t.r, t.i, back, t.seenI, n, chunk, i');
    OtherTraffic(c, envR, t0.i, t0.r, t.i, t.r, i', t.r, there, t.seenR);
  }

  lemma HearThere(c: Crypto, envI: Env, envR: Env, t0: Talk, t: Talk, there: seq<bytes>, back: seq<bytes>, n: nat)
    requires Lawful(c) && NeverCloses(envR) && Start(t0) && Orderly(t0) && Orderly(t) && SmallMessages(there)
    requires BothWays(c, envI, envR, t0, t, there, back)
    ensures BothWays(c, envI, envR, t0, Step(c, envI, envR, t, Arrive(false, n)), there, back)
  {
    var chunk := Chunk(t.i.written, t.seenR, n);
    var r' := Feed(c, envR, t.r, chunk).0;
    HearsMore(c, envR, t0.i, t0.r, t.i, t.r, there, t.seenR, n, chunk, r');
    OtherTraffic(c, envI, t0.r, t0.i, t.r, t.i, r', t.i, back, t.seenI);
  }

  // The messages of both sides after one more event.
  lemma SayBoth(c: Crypto, envI: Env, envR: Env, t0: Talk, t: Talk, there: seq<bytes>, back: seq<bytes>, e: Event)
    requires Honest(envI) && Honest(envR) && Orderly(t0) && Orderly(t) && e.Say? && BothWays(c, envI, envR, t0, t, there, back)
    ensures BothWays(c, envI, envR, t0, Step(c, envI, envR, t, e), SaidThen(there, e, true), SaidThen(back, e, false))
  {
    if e.initiator {
      SayThere(c, envI, envR, t0, t, there, back, e.message);
    } else {
      SayBack(c, envI, envR, t0, t, there, back, e.message);
    }
  }

  lemma ArriveBoth(c: Crypto, envI: Env, envR: Env, t0: Talk, t: Talk, there: seq<bytes>, back: seq<bytes>, initiator: bool, n: nat)
    requires Lawful(c) && Honest(envI) && Honest(envR) && Start(t0) && Orderly(t0) && Orderly(t)
    requires SmallMessages(there) && SmallMessages(back) && BothWays(c, envI, envR, t0, t, there, back)
    ensures BothWays(c, envI, envR, t0, Step(c, envI, envR, t, Arrive(initiator, n)), there, back)
  {
    if initiator {
      HearBack(c, envI, envR, t0, t, there, back, n);
    } else {
      HearThere(c, envI, envR, t0, t, there, back, n);
    }
  }

  // The receiver of a direction sends something itself.
  lemma SayElsewhere(c: Crypto, envB: Env, env: Env, a0: Conn, b0: Conn, a: Conn, b: Conn, ms: seq<bytes>, seen: nat, m: bytes)
    requires AllWritten(envB) && WellFormed(b0) && OneWay(c, env, a0, b0, a, b, ms, seen)
    ensures OneWay(c, env, a0, b0, a, Send(c, envB, b, m).0, ms, seen)
  {
    SendApart(c, envB, b, m);
    OtherTraffic(c, env, a0, b0, a, b, a, Send(c, envB, b, m).0, ms, seen);
  }

  lemma StartOne(c: Crypto, env: Env, a: Conn, b: Conn)
    requires Ready(b, a.party.send) && a.act == ActDone
    ensures OneWay(c, env, a, b, a, b, [], |a.written|)
  {
    FeedNothing(c, env, b, a.party.send);
    assert b.buf + [] == b.buf && a.written[|a.written|..|a.written|] == [] && a.written[|a.written|..] == [];
    assert OneWayLike(c, env, a, b, a, b, [], |a.written|, b);
  }

  lemma StartBoth(c: Crypto, envI: Env, envR: Env, t: Talk)
    requires Start(t) && Orderly(t)
    ensures BothWays(c, envI, envR, t, t, [], [])
  {
    StartOne(c, envR, t.i, t.r);
    StartOne(c, envI, t.r, t.i);
  }

  lemma {:induction false} RunBoth(c: Crypto, envI: Env, envR: Env, t: Talk, events: seq<Event>)
    requires Lawful(c) && Honest(envI) && Honest(envR) && Start(t) && Orderly(t) && SmallTalk(events)
    ensures BothWays(c, envI, envR, t, After(c, envI, envR, t, events), Said(events, true), Said(events, false))
  {
    if events == [] {
      StartBoth(c, envI, envR, t);
    } else {
      var before, e := events[..|events| - 1], events[|events| - 1];
      RunBoth(c, envI, envR, t, before);
      SaidSmall(before, true);
      SaidSmall(before, false);
      StepBoth(c, envI, envR, t, After(c, envI, envR, t, before), Said(before, true), Said(before, false), e);
    }
  }

  lemma StepBoth(c: Crypto, envI: Env, envR: Env, t0: Talk, t: Talk, there: seq<bytes>, back: seq<bytes>, e: Event)
    requires Lawful(c) && Honest(envI) && Honest(envR) && Start(t0) && Orderly(t0) && Orderly(t)
    requires SmallMessages(there) && SmallMessages(back) && BothWays(c, envI, envR, t0, t, there, back)
    ensures BothWays(c, envI, envR, t0, Step(c, envI, envR, t, e), SaidThen(there, e, true), SaidThen(back, e, false))
  {
    if e.Say? {
      SayBoth(c, envI, envR, t0, t, there, back, e);
    } else {
      ArriveBoth(c, envI, envR, t0, t, there, back, e.initiator, e.n);
    }
  }

  // Through any traffic in both directions each side has been given a prefix of the
  // other's messages; once everything has arrived it is all of them, and the
  // ciphers are in lockstep; no nonce ever reaches the rotation interval.
  lemma Converses(c: Crypto, envI: Env, envR: Env, t: Talk, events: seq<Event>)
    requires Lawful(c) && Honest(envI) && Honest(envR) && Start(t) && SmallTalk(events)
    ensures Orderly(t)
    ensures var t' := After(c, envI, envR, t, events);
      && t'.r.delivered <= t.r.delivered + Said(events, true) && t'.i.delivered <= t.i.delivered + Said(events, false)
      && t'.i.party.send.nonce < ROTATION_INTERVAL && t'.r.party.send.nonce < ROTATION_INTERVAL
      && (t'.seenR == |t'.i.written| ==> t'.r.delivered == t.r.delivered + Said(events, true) && Ready(t'.r, t'.i.party.send))
      && (t'.seenI == |t'.r.written| ==> t'.i.delivered == t.i.delivered + Said(events, false) && Ready(t'.i, t'.r.party.send))
  {
    RunBoth(c, envI, envR, t, events);
    SaidSmall(events, true);
    SaidSmall(events, false);
    var t' := After(c, envI, envR, t, events);
    OneWayDelivers(c, envR, t.i, t.r, t'.i, t'.r, Said(events, true), t'.seenR);
    OneWayDelivers(c, envI, t.r, t.i, t'.r, t'.i, Said(events, false), t'.seenI);
  }

  // Two connections that have exchanged the acts can start talking.
  lemma ConnectedStart(c: Crypto, envI: Env, envR: Env, ours: bytes, theirs: bytes)
    requires Lawful(c) && Honest(envI) && Honest(envR)
    ensures var i0 := OnConnect(c, envI, Opened(Init(c, true, ours, Some(c.pub(theirs))))).0;
      var r0 := OnConnect(c, envR, Opened(Init(c, false, theirs, None))).0;
      && WellFormed(i0) && WellFormed(r0)
      && var r1 := Feed(c, envR, r0, NewBytes(Opened(i0.party), i0)).0;
      var i1 := Feed(c, envI, i0, NewBytes(r0, r1)).0;
      var r2 := Feed(c, envR, r1, NewBytes(i0, i1)).0;
      Start(Talk(i1, r2, |r2.written|, |i1.written|))
  {
    Connects(c, envI, envR, ours, theirs);
  }
}
