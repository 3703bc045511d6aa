// The connection object: cipher and handshake fields updated in place, and
// the reader that reassembles frames.
module Brontide {
  import opened Bytes
  import opened Noise
  import opened Transport

  class Connection {
    const c: Crypto
    const env: Env
    const cs: Cipher
    const sendCipher: Cipher
    const recvCipher: Cipher

    var chainingKey: bytes
    var digest: bytes
    var initiator: bool
    var localStatic: bytes
    var localEphemeral: bytes
    var remoteStatic: bytes
    var remoteEphemeral: bytes

    var state: Act
    var hasSize: bool
    var msg: bytes
    var msgPos: nat
    var msgLen: nat

    // What the callbacks have been given.
    var written: bytes
    var writes: nat
    var delivered: seq<bytes>
    var connects: nat

    ghost function PartyView(): Party
      reads this, cs, sendCipher, recvCipher
    {
      Party(initiator, localStatic, localEphemeral, remoteStatic, remoteEphemeral,
            chainingKey, digest, cs.View(), sendCipher.View(), recvCipher.View())
    }

    ghost function View(): Conn
      reads this, cs, sendCipher, recvCipher
    {
      Conn(PartyView(), state, hasSize, if msgPos <= |msg| then msg[..msgPos] else msg, msgLen, written, writes, delivered, connects)
    }

    // Three separate ciphers, each with its nonce in step.
    ghost predicate Ciphers()
      reads this, cs, sendCipher, recvCipher
    {
      && cs != sendCipher && cs != recvCipher && sendCipher != recvCipher
      && cs.Valid() && sendCipher.Valid() && recvCipher.Valid()
    }

    ghost predicate Buffer()
      reads this
    {
      msgPos <= msgLen == |msg| && (state != NoAct ==> msgPos < msgLen)
    }

    ghost predicate Valid()
      reads this, cs, sendCipher, recvCipher
    {
      Ciphers() && Buffer() && Framed(View())
    }

    constructor (c: Crypto, env: Env)
      ensures Valid() && fresh(cs) && fresh(sendCipher) && fresh(recvCipher)
      ensures this.c == c && this.env == env && View() == Opened(Blank())
    {
      this.c, this.env := c, env;
      var cs1 := new Cipher();
      var cs2 := new Cipher();
      var cs3 := new Cipher();
      cs, sendCipher, recvCipher := cs1, cs2, cs3;
      chainingKey, digest, initiator := seq(32, i => 0), seq(32, i => 0), false;
      localStatic, localEphemeral, remoteStatic, remoteEphemeral := seq(32, i => 0), seq(32, i => 0), seq(33, i => 0), seq(33, i => 0);
      state, hasSize, msg, msgPos, msgLen := NoAct, false, [], 0, 0;
      written, writes, delivered, connects := [], 0, [], 0;
    }

    // ----- Symmetric state -----

    method MixHash(data: bytes)
      modifies this`digest
      ensures PartyView() == Noise.MixHash(c, old(PartyView()), data)
    {
      digest := c.sha(digest + data);
    }

    method MixKey(secret: bytes)
      requires Ciphers()
      modifies this`chainingKey, cs
      ensures Ciphers() && PartyView() == Noise.MixKey(c, old(PartyView()), secret)
    {
      var (h1, h2) := c.hkdf(secret, chainingKey);
      chainingKey := h1;
      cs.InitKey(h2);
    }

    method EncryptSym(m: bytes) returns (out: bytes)
      requires Ciphers()
      modifies this`digest, cs
      ensures Ciphers()
      ensures Sealed(out, cs.tag, PartyView()) == Noise.Encrypt(c, old(PartyView()), m)
    {
      out := cs.Encrypt(c, digest, m);
      digest := c.sha(digest + out + cs.tag);
    }

    method DecryptSym(m: bytes, received: bytes) returns (out: bytes)
      requires Ciphers()
      modifies this`digest, cs
      ensures Ciphers()
      ensures Sealed(out, cs.tag, PartyView()) == Noise.Decrypt(c, old(PartyView()), m, received)
    {
      var h := c.sha(digest + m + received);
      out := cs.Decrypt(c, digest, m);
      digest := h;
    }

    method InitState(init: bool, ours: bytes, theirs: Option<bytes>)
      requires Ciphers() && (init ==> theirs.Some?)
      modifies this`initiator, this`localStatic, this`remoteStatic, this`digest, this`chainingKey, cs
      ensures Ciphers()
      ensures PartyView() == InitFrom(c, old(PartyView()), init, ours, theirs)
    {
      initiator := init;
      localStatic := ours;
      remoteStatic := if theirs.Some? then theirs.value else seq(33, i => 0);
      digest := c.sha(Ascii(PROTOCOL_NAME));
      chainingKey := digest;
      cs.InitKey(seq(32, i => 0));
      MixHash(Ascii(PROLOGUE));
      if init {
        MixHash(theirs.value);
      } else {
        MixHash(c.pub(ours));
      }
    }

    method SplitKeys()
      requires Ciphers()
      modifies sendCipher, recvCipher
      ensures Ciphers() && PartyView() == Split(c, old(PartyView()))
    {
      var (h1, h2) := c.hkdf([], chainingKey);
      if initiator {
        sendCipher.InitSaltKey(chainingKey, h1);
        recvCipher.InitSaltKey(chainingKey, h2);
      } else {
        recvCipher.InitSaltKey(chainingKey, h1);
        sendCipher.InitSaltKey(chainingKey, h2);
      }
    }

    // ----- The acts -----

    // Each secret is computed inside an assertion that its public key can be used.

    method GenOne() returns (act: bytes)
      requires Ciphers() && c.valid(remoteStatic)
      modifies this`localEphemeral, this`digest, this`chainingKey, cs
      ensures Ciphers() && (act, PartyView()) == GenActOne(c, old(PartyView()), env.ephemeral, env.entropy)
    {
      localEphemeral := env.ephemeral;
      var ephemeral := c.pub(localEphemeral);
      var uniform := c.toHash(ephemeral, env.entropy);
      MixHash(ephemeral);
      MixKey(c.ecdh(remoteStatic, localEphemeral));
      var out := EncryptSym([]);
      act := uniform + cs.tag;
    }

    method RecvOne(act: bytes) returns (ok: bool, aborts: bool)
      requires Ciphers() && |act| == ACT_ONE_SIZE
      modifies this`remoteEphemeral, this`digest, this`chainingKey, cs
      ensures Ciphers() && (ok, PartyView()) == RecvActOne(c, old(PartyView()), act) && aborts == ActOneAborts(c, act)
      ensures ok <==> Genuine(c, old(PartyView()), act, old(localStatic))
      ensures ok ==> c.valid(remoteEphemeral)
    {
      AcceptedGenuine(c, PartyView(), act);
      var e := c.fromHash(act[..64]);
      remoteEphemeral := e;
      MixHash(remoteEphemeral);
      aborts := !c.valid(remoteEphemeral);
      if aborts {
        return false, aborts;
      }
      MixKey(c.ecdh(remoteEphemeral, localStatic));
      var out := DecryptSym([], act[64..]);
      ok := cs.tag == act[64..];
    }

    method GenTwo() returns (act: bytes)
      requires Ciphers() && c.valid(remoteEphemeral)
      modifies this`localEphemeral, this`digest, this`chainingKey, cs
      ensures Ciphers() && (act, PartyView()) == GenActTwo(c, old(PartyView()), env.ephemeral, env.entropy)
    {
      localEphemeral := env.ephemeral;
      var ephemeral := c.pub(localEphemeral);
      var uniform := c.toHash(ephemeral, env.entropy);
      MixHash(ephemeral);
      MixKey(c.ecdh(remoteEphemeral, localEphemeral));
      var out := EncryptSym([]);
      act := uniform + cs.tag;
    }

    method RecvTwo(act: bytes) returns (ok: bool)
      requires Ciphers() && |act| == ACT_TWO_SIZE
      modifies this`remoteEphemeral, this`digest, this`chainingKey, cs
      ensures Ciphers() && (ok, PartyView()) == RecvActTwo(c, old(PartyView()), act)
      ensures ok <==> Genuine(c, old(PartyView()), act, old(localEphemeral))
      ensures ok ==> c.valid(remoteEphemeral)
    {
      AcceptedGenuine(c, PartyView(), act);
      var e := c.fromHash(act[..64]);
      if !c.valid(e) {
        return false;
      }
      remoteEphemeral := e;
      MixHash(remoteEphemeral);
      MixKey(c.ecdh(remoteEphemeral, localEphemeral));
      var out := DecryptSym([], act[64..]);
      ok := cs.tag == act[64..];
    }

    method GenThree() returns (act: bytes)
      requires Ciphers() && c.valid(remoteEphemeral)
      modifies this`digest, this`chainingKey, cs, sendCipher, recvCipher
      ensures Ciphers() && (act, PartyView()) == GenActThree(c, old(PartyView()))
    {
      var sealed := EncryptSym(c.pub(localStatic));
      var tag1 := cs.tag;
      MixKey(c.ecdh(remoteEphemeral, localStatic));
      var out := EncryptSym([]);
      act := sealed + tag1 + cs.tag;
      SplitKeys();
    }

    method RecvThree(act: bytes) returns (ok: bool, aborts: bool)
      requires Ciphers() && |act| == ACT_THREE_SIZE
      modifies this`remoteStatic, this`digest, this`chainingKey, cs, sendCipher, recvCipher
      ensures Ciphers() && (ok, PartyView()) == RecvActThree(c, old(PartyView()), act)
      ensures aborts == ActThreeAborts(c, old(PartyView()), act)
      ensures ok <==> GenuineThree(c, old(PartyView()), act)
    {
      AcceptedGenuineThree(c, PartyView(), act);
      var remote := DecryptSym(act[..33], act[33..49]);
      if cs.tag != act[33..49] {
        return false, false;
      }
      remoteStatic := remote;
      if !c.valid(remoteStatic) {
        return false, true;
      }
      MixKey(c.ecdh(remoteStatic, localEphemeral));
      var out := DecryptSym([], act[49..]);
      if cs.tag != act[49..] {
        return false, false;
      }
      SplitKeys();
      return true, false;
    }

    // ----- Writing -----

    method PutChunk(chunk: bytes) returns (r: Status)
      modifies this`written, this`writes
      ensures (View(), r) == PutOut(env, old(View()), chunk)
    {
      r := Code(env.code(writes));
      writes := writes + 1;
      if r == SUCCESS {
        written := written + chunk;
      }
    }

    method WritePart(m: bytes) returns (r: Status)
      requires Ciphers()
      modifies this`written, this`writes, sendCipher
      ensures Ciphers() && (View(), r) == SendPart(c, env, old(View()), m)
    {
      var out := sendCipher.Encrypt(c, NO_DATA, m);
      r := PutChunk(out);
      if r != SUCCESS {
        return;
      }
      r := PutChunk(sendCipher.tag);
    }

    method Destroy()
      modifies this`state
      ensures View() == Closed(old(View()))
    {
      state := NoAct;
    }

    method Write(data: bytes) returns (r: Status)
      requires Ciphers()
      modifies this`written, this`writes, this`state, sendCipher
      ensures Ciphers() && (View(), r) == Send(c, env, old(View()), data)
    {
      r := SUCCESS;
      if state != ActDone {
        return;
      }
      r := WritePart(Size(|data|));
      if r != SUCCESS {
        Destroy();
        return;
      }
      r := WritePart(data);
      if r != SUCCESS {
        Destroy();
      }
    }

    // ----- Connecting -----

    method Accept(ours: bytes) returns (r: Status)
      requires Valid()
      modifies this, cs
      ensures Valid()
      ensures (View(), r) == OnConnect(c, env, old(View()).(party := InitFrom(c, old(PartyView()), false, ours, None)))
    {
      InitState(false, ours, None);
      r := OpenLink();
    }

    method OpenLink() returns (r: Status)
      requires Ciphers() && msgPos <= |msg| && (initiator ==> c.valid(remoteStatic))
      modifies this`localEphemeral, this`digest, this`chainingKey, this`state, this`written, this`writes, this`msg, this`msgPos, this`msgLen, cs
      ensures Ciphers() && (View(), r) == OnConnect(c, env, old(View()))
      ensures old(Buffer()) ==> Valid()
    {
      var size;
      if initiator {
        state := ActTwo;
        var act := GenOne();
        r := PutChunk(act);
        if r != SUCCESS {
          Destroy();
          return;
        }
        size := ACT_TWO_SIZE;
      } else {
        state := ActOne;
        size := ACT_ONE_SIZE;
      }
      Resize(size);
      return SUCCESS;
    }

    // A buffer of the new length, empty again.
    method Resize(n: nat)
      requires n > 0
      modifies this`msg, this`msgPos, this`msgLen
      ensures msgPos == 0 && msgLen == |msg| == n && View() == old(View()).(buf := [], len := n)
    {
      var kept := msg;
      msg := seq(n, i requires 0 <= i < n => if i < |kept| then kept[i] else 0);
      msgPos := 0;
      msgLen := n;
    }

    // ----- Reading -----

    method ReadActTwo(frame: bytes) returns (r: Status, next: nat)
      requires Ciphers() && |frame| == ACT_TWO_SIZE
      modifies this`remoteEphemeral, this`digest, this`chainingKey, this`state, this`written, this`writes, this`connects,
               cs, sendCipher, recvCipher
      ensures Ciphers() && Result(View(), r, next) == ParseActTwo(c, env, old(View()), frame)
    {
      next := 0;
      var ok := RecvTwo(frame);
      if !ok {
        return EACTTWO, 0;
      }
      var act3 := GenThree();
      r := PutChunk(act3);
      if r != SUCCESS {
        return;
      }
      MarkConnected();
      return SUCCESS, HEADER_SIZE;
    }

    method ReadActOne(frame: bytes) returns (r: Status, next: nat)
      requires Ciphers() && |frame| == ACT_ONE_SIZE
      modifies this`localEphemeral, this`remoteEphemeral, this`digest, this`chainingKey, this`state, this`written, this`writes, cs
      ensures Ciphers() && Result(View(), r, next) == ParseActOne(c, env, old(View()), frame)
    {
      next := 0;
      var ok, aborts := RecvOne(frame);
      if !ok {
        return if aborts then Abort else EACTONE, 0;
      }
      r, next := AnswerOne();
    }

    method AnswerOne() returns (r: Status, next: nat)
      requires Ciphers() && c.valid(remoteEphemeral)
      modifies this`localEphemeral, this`digest, this`chainingKey, this`state, this`written, this`writes, cs
      ensures Ciphers() && Result(View(), r, next) == AnswerActOne(c, env, old(View()))
    {
      var act2 := GenTwo();
      r, next := SendTwo(act2);
    }

    method SendTwo(act2: bytes) returns (r: Status, next: nat)
      modifies this`state, this`written, this`writes
      ensures Result(View(), r, next) == SendActTwo(env, old(View()), act2)
    {
      next := 0;
      r := PutChunk(act2);
      if r == SUCCESS {
        state := ActThree;
        next := ACT_THREE_SIZE;
      }
    }

    method ReadActThree(frame: bytes) returns (r: Status, next: nat)
      requires Ciphers() && |frame| == ACT_THREE_SIZE
      modifies this`remoteStatic, this`digest, this`chainingKey, this`state, this`connects, cs, sendCipher, recvCipher
      ensures Ciphers() && Result(View(), r, next) == ParseActThree(c, env, old(View()), frame)
    {
      var ok, aborts := RecvThree(frame);
      if !ok {
        return if aborts then Abort else EACTTHREE, 0;
      }
      MarkConnected();
      return SUCCESS, HEADER_SIZE;
    }

    method MarkConnected()
      modifies this`state, this`connects
      ensures View() == Connected(env, old(View()))
    {
      state := ActDone;
      connects := connects + 1;
      if env.closesOnConnect {
        Destroy();
      }
    }

    method ReadHeader(frame: bytes) returns (r: Status, next: nat)
      requires Ciphers() && |frame| == HEADER_SIZE
      modifies this`hasSize, recvCipher
      ensures Ciphers() && Result(View(), r, next) == ParseHeader(c, old(View()), frame)
    {
      var len := recvCipher.Decrypt(c, NO_DATA, frame[..4]);
      if recvCipher.tag != frame[4..] {
        return EBADTAG, 0;
      }
      var size := SizeOf(len);
      if size < 0 || size > MAX_MESSAGE {
        return EBADSIZE, 0;
      }
      hasSize := true;
      return SUCCESS, size + MAC_SIZE;
    }

    method ReadPayload(frame: bytes) returns (r: Status, next: nat)
      requires Ciphers() && |frame| >= MAC_SIZE
      modifies this`state, this`hasSize, this`delivered, recvCipher
      ensures Ciphers() && Result(View(), r, next) == ParsePayload(c, env, old(View()), frame)
    {
      var n := |frame| - MAC_SIZE;
      var payload := recvCipher.Decrypt(c, NO_DATA, frame[..n]);
      if recvCipher.tag != frame[n..] {
        return EBADTAG, 0;
      }
      hasSize := false;
      var closes := env.closes(|delivered|);
      delivered := delivered + [payload];
      if closes {
        Destroy();
      }
      return SUCCESS, HEADER_SIZE;
    }

    method ParseFrame(frame: bytes) returns (r: Status, next: nat)
      requires Ciphers() && Framed(View()) && state != NoAct && |frame| == msgLen
      modifies this`localEphemeral, this`remoteEphemeral, this`remoteStatic, this`digest, this`chainingKey,
               this`state, this`hasSize, this`written, this`writes, this`delivered, this`connects, cs, sendCipher, recvCipher
      ensures Ciphers() && Result(View(), r, next) == Parse(c, env, old(View()), frame)
    {
      if initiator && state == ActTwo {
        r, next := ReadActTwo(frame);
        return;
      }
      if !initiator && state == ActOne {
        r, next := ReadActOne(frame);
        return;
      }
      if !initiator && state == ActThree {
        r, next := ReadActThree(frame);
        return;
      }
      assert state == ActDone;
      if !hasSize {
        r, next := ReadHeader(frame);
      } else {
        r, next := ReadPayload(frame);
      }
    }

    // Parses a complete frame, then closes or waits for the next one.
    method TakeFrame(frame: bytes) returns (r: Status)
      requires Ciphers() && Framed(View()) && state != NoAct && |frame| == msgLen == |msg| && msgPos < msgLen
      modifies this, cs, sendCipher, recvCipher
      ensures Valid()
      ensures var p := Parse(c, env, old(View()), frame); View() == AfterFrame(p) && r == p.code
    {
      var next;
      r, next := ParseFrame(frame);
      if r != SUCCESS {
        Destroy();
        return;
      }
      if state == NoAct {
        return;
      }
      Resize(next);
    }

    // The bytes that complete a frame, and the frame.
    method TakeChunk(data: bytes) returns (r: Status, rest: bytes)
      requires Valid() && state != NoAct && msgPos + |data| >= msgLen
      modifies this, cs, sendCipher, recvCipher
      ensures Valid() && |rest| < |data|
      ensures Feed(c, env, old(View()), data) == if state != NoAct then Feed(c, env, View(), rest) else (View(), r)
    {
      var need := msgLen - msgPos;
      rest := data[need..];
      msg := msg[..msgPos] + data[..need];
      FeedStep(c, env, View(), data, msg, rest);
      r := TakeFrame(msg);
    }

    // The bytes of a frame that is not complete yet.
    method KeepChunk(data: bytes)
      requires Valid() && state != NoAct && msgPos + |data| < msgLen
      modifies this`msg, this`msgPos
      ensures Valid() && (View(), SUCCESS) == Feed(c, env, old(View()), data)
    {
      msg := msg[..msgPos] + data + msg[msgPos + |data|..];
      msgPos := msgPos + |data|;
    }

    method OnRead(data0: bytes) returns (r: Status)
      requires Valid()
      modifies this, cs, sendCipher, recvCipher
      ensures Valid() && (View(), r) == Feed(c, env, old(View()), data0)
    {
      if state == NoAct {
        return SUCCESS;
      }
      var data := data0;
      while msgPos + |data| >= msgLen
        invariant Valid() && state != NoAct
        invariant Feed(c, env, View(), data) == Feed(c, env, old(View()), data0)
        decreases |data|
      {
        r, data := TakeChunk(data);
        if state == NoAct {
          return;
        }
      }
      KeepChunk(data);
      return SUCCESS;
    }
  }
}
