// Cipher states and the three-act handshake, over symbolic cryptography.
module Noise {
  import opened Bytes

  // The primitives, as functions.  A key is sealed with a nonce and associated
  // data; the tag is computed from the sealed bytes.
  datatype Crypto = Crypto(
    sha: bytes -> bytes,
    hkdf: (bytes, bytes) -> (bytes, bytes),
    pub: bytes -> bytes,
    ecdh: (bytes, bytes) -> bytes,
    toHash: (bytes, bytes) -> bytes,
    fromHash: bytes -> bytes,
    valid: bytes -> bool,
    seal: (bytes, nat, bytes, bytes) -> bytes,
    open: (bytes, nat, bytes, bytes) -> bytes,
    tag: (bytes, nat, bytes, bytes) -> bytes)

  ghost predicate Lawful(c: Crypto) {
    && (forall a, b :: c.ecdh(c.pub(a), b) == c.ecdh(c.pub(b), a))
    && (forall a, r :: c.fromHash(c.toHash(c.pub(a), r)) == c.pub(a))
    && (forall p, r :: |c.toHash(p, r)| == 64)
    && (forall a :: |c.pub(a)| == 33 && c.valid(c.pub(a)))
    && (forall k, n, d, m :: c.open(k, n, d, c.seal(k, n, d, m)) == m)
    && (forall k, n, d, m :: |c.seal(k, n, d, m)| == |m|)
    && (forall k, n, d, m :: |c.tag(k, n, d, m)| == 16)
  }

  // The laws can be met together.
  lemma LawfulMet() returns (c: Crypto)
    ensures Lawful(c)
  {
    var tag: bytes, key: bytes, hash: bytes := seq(16, i => 0), seq(33, i => 0), seq(64, i => 0);
    c := Crypto(s => s, (a, b) => (a, b), a => key, (p, k) => [], (p, r) => hash, h => key, p => true,
                (k, n, d, m) => m, (k, n, d, m) => m, (k, n, d, m) => tag);
  }

  // ----- Cipher state -----

  const ROTATION_INTERVAL: nat := 1000
  const NO_DATA: bytes := []

  datatype Keys = Keys(nonce: nat, key: bytes, salt: bytes)

  function Rotated(c: Crypto, k: Keys): Keys {
    var (h1, h2) := c.hkdf(k.key, k.salt);
    Keys(0, h2, h1)
  }

  // After one sealing or opening.
  function Next(c: Crypto, k: Keys): Keys {
    var n := k.(nonce := k.nonce + 1);
    if n.nonce == ROTATION_INTERVAL then Rotated(c, n) else n
  }

  function After(c: Crypto, k: Keys, n: nat): Keys {
    if n == 0 then k else Next(c, After(c, k, n - 1))
  }

  // A nonce below the interval stays below it, and after n uses it is n more,
  // modulo the interval: no nonce is used twice under one key.
  lemma {:induction false} NonceBound(c: Crypto, k: Keys, n: nat)
    requires k.nonce < ROTATION_INTERVAL
    ensures After(c, k, n).nonce == (k.nonce + n) % ROTATION_INTERVAL
  {
    if n > 0 {
      NonceBound(c, k, n - 1);
    }
  }

  // The key only changes when the nonce passes the interval.
  lemma {:induction false} KeyKept(c: Crypto, k: Keys, n: nat)
    requires k.nonce + n < ROTATION_INTERVAL
    ensures After(c, k, n) == k.(nonce := k.nonce + n)
  {
    if n > 0 {
      KeyKept(c, k, n - 1);
    }
  }

  // There it becomes the second half of what is derived from it and the salt, which
  // becomes the first.
  lemma KeyRotates(c: Crypto, k: Keys, n: nat)
    requires k.nonce + n + 1 == ROTATION_INTERVAL
    ensures var (h1, h2) := c.hkdf(k.key, k.salt); After(c, k, n + 1) == Keys(0, h2, h1)
  {
    KeyKept(c, k, n);
  }

  lemma {:induction false} AfterAfter(c: Crypto, k: Keys, m: nat, n: nat)
    ensures After(c, After(c, k, m), n) == After(c, k, m + n)
  {
    if n > 0 {
      AfterAfter(c, k, m, n - 1);
    }
  }

  // The fields of hsk_cs_t, with the nonce as written into the iv.
  class Cipher {
    var nonce: nat
    var iv: nat
    var key: bytes
    var salt: bytes
    var tag: bytes

    ghost function View(): Keys
      reads this
    {
      Keys(nonce, key, salt)
    }

    ghost predicate Valid()
      reads this
    {
      iv == nonce < ROTATION_INTERVAL
    }

    constructor ()
      ensures Valid() && View() == Keys(0, seq(32, i => 0), seq(32, i => 0))
    {
      nonce, iv := 0, 0;
      key, salt, tag := seq(32, i => 0), seq(32, i => 0), seq(16, i => 0);
    }

    method Update()
      modifies this`iv
      ensures iv == nonce
    {
      iv := nonce;
    }

    method InitKey(k: bytes)
      modifies this`nonce, this`iv, this`key
      ensures Valid() && View() == Keys(0, k, old(salt))
    {
      key := k;
      nonce := 0;
      Update();
    }

    method InitSaltKey(s: bytes, k: bytes)
      modifies this`nonce, this`iv, this`key, this`salt
      ensures Valid() && View() == Keys(0, k, s)
    {
      salt := s;
      InitKey(k);
    }

    method RotateKey(c: Crypto)
      modifies this`nonce, this`iv, this`key, this`salt
      ensures Valid() && View() == Rotated(c, old(View()))
    {
      var (h1, h2) := c.hkdf(key, salt);
      salt := h1;
      InitKey(h2);
    }

    method Encrypt(c: Crypto, ad: bytes, input: bytes) returns (out: bytes)
      requires Valid()
      modifies this
      ensures Valid() && View() == Next(c, old(View()))
      ensures out == c.seal(old(key), old(nonce), ad, input) && tag == c.tag(old(key), old(nonce), ad, out)
    {
      out := c.seal(key, iv, ad, input);
      tag := c.tag(key, iv, ad, out);
      nonce := nonce + 1;
      Update();
      if nonce == ROTATION_INTERVAL {
        RotateKey(c);
      }
    }

    method Decrypt(c: Crypto, ad: bytes, input: bytes) returns (out: bytes)
      requires Valid()
      modifies this
      ensures Valid() && View() == Next(c, old(View()))
      ensures out == c.open(old(key), old(nonce), ad, input) && tag == c.tag(old(key), old(nonce), ad, input)
    {
      out := c.open(key, iv, ad, input);
      tag := c.tag(key, iv, ad, input);
      nonce := nonce + 1;
      Update();
      if nonce == ROTATION_INTERVAL {
        RotateKey(c);
      }
    }
  }

  // ----- Handshake state -----

  datatype Party = Party(
    initiator: bool,
    localStatic: bytes, localEphemeral: bytes, remoteStatic: bytes, remoteEphemeral: bytes,
    chainingKey: bytes, digest: bytes, cs: Keys,
    send: Keys, recv: Keys)

  function MixHash(c: Crypto, p: Party, data: bytes): Party {
    p.(digest := c.sha(p.digest + data))
  }

  function MixKey(c: Crypto, p: Party, secret: bytes): Party {
    var (h1, h2) := c.hkdf(secret, p.chainingKey);
    p.(chainingKey := h1, cs := Keys(0, h2, p.cs.salt))
  }

  datatype Sealed = Sealed(out: bytes, tag: bytes, party: Party)

  function Encrypt(c: Crypto, p: Party, m: bytes): Sealed {
    var out := c.seal(p.cs.key, p.cs.nonce, p.digest, m);
    var t := c.tag(p.cs.key, p.cs.nonce, p.digest, out);
    Sealed(out, t, p.(cs := Next(c, p.cs), digest := c.sha(p.digest + out + t)))
  }

  // The tag is the one computed; the digest takes in the one received.
  function Decrypt(c: Crypto, p: Party, m: bytes, received: bytes): Sealed {
    var out := c.open(p.cs.key, p.cs.nonce, p.digest, m);
    var t := c.tag(p.cs.key, p.cs.nonce, p.digest, m);
    Sealed(out, t, p.(cs := Next(c, p.cs), digest := c.sha(p.digest + m + received)))
  }

  function Ascii(s: string): bytes {
    seq(|s|, i requires 0 <= i < |s| => s[i] as int % 256)
  }

  const PROTOCOL_NAME := "Noise_XK_secp256k1_ChaChaPoly_SHA256+SVDW_Squared"
  const PROLOGUE := "hns"

  // Sets up the handshake; ephemeral keys and old cipher salts are left alone.
  function InitFrom(c: Crypto, p: Party, initiator: bool, ours: bytes, theirs: Option<bytes>): Party {
    var name := c.sha(Ascii(PROTOCOL_NAME));
    var rs: bytes := if theirs.Some? then theirs.value else seq(33, i => 0);
    var q := p.(initiator := initiator, localStatic := ours, remoteStatic := rs,
                chainingKey := name, digest := name, cs := Keys(0, seq(32, i => 0), p.cs.salt));
    MixHash(c, MixHash(c, q, Ascii(PROLOGUE)), if initiator then rs else c.pub(ours))
  }

  function Blank(): Party {
    var zeros: bytes := seq(32, i => 0);
    var none := Keys(0, zeros, zeros);
    Party(false, zeros, zeros, seq(33, i => 0), seq(33, i => 0), zeros, zeros, none, none, none)
  }

  function Init(c: Crypto, initiator: bool, ours: bytes, theirs: Option<bytes>): Party {
    InitFrom(c, Blank(), initiator, ours, theirs)
  }

  function Split(c: Crypto, p: Party): Party {
    var (h1, h2) := c.hkdf([], p.chainingKey);
    if p.initiator then p.(send := Keys(0, h1, p.chainingKey), recv := Keys(0, h2, p.chainingKey))
    else p.(recv := Keys(0, h1, p.chainingKey), send := Keys(0, h2, p.chainingKey))
  }

  // Acts one and two share a form: an ephemeral key and a tag.
  function GenAct(c: Crypto, p: Party, e: bytes, rnd: bytes, theirs: bytes): (bytes, Party) {
    var p1 := MixHash(c, p.(localEphemeral := e), c.pub(e));
    var s := Encrypt(c, MixKey(c, p1, c.ecdh(theirs, e)), []);
    (c.toHash(c.pub(e), rnd) + s.tag, s.party)
  }

  function RecvAct(c: Crypto, p: Party, act: bytes, ours: bytes): (bool, Party)
    requires |act| == 80
  {
    var e := c.fromHash(act[..64]);
    var p1 := MixHash(c, p.(remoteEphemeral := e), e);
    var s := Decrypt(c, MixKey(c, p1, c.ecdh(e, ours)), [], act[64..]);
    (s.tag == act[64..], s.party)
  }

  function GenActOne(c: Crypto, p: Party, e: bytes, rnd: bytes): (bytes, Party) {
    GenAct(c, p, e, rnd, p.remoteStatic)
  }

  // Acts one and three are at an end, with the whole process, when the key they
  // carry cannot be used: the secret is computed inside an assertion.
  predicate ActOneAborts(c: Crypto, act: bytes)
    requires |act| == 80
  {
    !c.valid(c.fromHash(act[..64]))
  }

  function RecvActOne(c: Crypto, p: Party, act: bytes): (bool, Party)
    requires |act| == 80
  {
    if ActOneAborts(c, act) then
      var e := c.fromHash(act[..64]);
      (false, MixHash(c, p.(remoteEphemeral := e), e))
    else RecvAct(c, p, act, p.localStatic)
  }

  function GenActTwo(c: Crypto, p: Party, e: bytes, rnd: bytes): (bytes, Party) {
    GenAct(c, p, e, rnd, p.remoteEphemeral)
  }

  function RecvActTwo(c: Crypto, p: Party, act: bytes): (bool, Party)
    requires |act| == 80
  {
    if !c.valid(c.fromHash(act[..64])) then (false, p) else RecvAct(c, p, act, p.localEphemeral)
  }

  function GenActThree(c: Crypto, p: Party): (bytes, Party) {
    var s1 := Encrypt(c, p, c.pub(p.localStatic));
    var p1 := MixKey(c, s1.party, c.ecdh(p.remoteEphemeral, p.localStatic));
    var s2 := Encrypt(c, p1, []);
    (s1.out + s1.tag + s2.tag, Split(c, s2.party))
  }

  predicate ActThreeAborts(c: Crypto, p: Party, act: bytes)
    requires |act| == 65
  {
    var s1 := Decrypt(c, p, act[..33], act[33..49]);
    s1.tag == act[33..49] && !c.valid(s1.out)
  }

  // The laws leave room for both: keys that cannot be used can be sent, in act three
  // sealed and with the right tag, and they end the process whatever the state.
  lemma AbortsMet() returns (c: Crypto, act1: bytes, act3: bytes)
    ensures Lawful(c) && |act1| == 80 && |act3| == 65
    ensures ActOneAborts(c, act1) && forall p :: ActThreeAborts(c, p, act3)
  {
    var tag: bytes, key: bytes, hash: bytes := seq(16, i => 0), seq(33, i => 0), seq(64, i => 0);
    var bad: bytes := seq(33, i => 1);
    c := Crypto(s => s, (a, b) => (a, b), a => key, (p, k) => [], (p, r) => hash, h => if h == hash then key else bad, p => p == key,
                (k, n, d, m) => m, (k, n, d, m) => m, (k, n, d, m) => tag);
    act1 := seq(80, i => 1);
    act3 := bad + tag + tag;
    assert act1[..64][0] != hash[0] && bad[0] != key[0];
    assert act3[..33] == bad && act3[33..49] == tag;
  }

  function RecvActThree(c: Crypto, p: Party, act: bytes): (bool, Party)
    requires |act| == 65
  {
    var s1 := Decrypt(c, p, act[..33], act[33..49]);
    if s1.tag != act[33..49] then (false, s1.party)
    else if ActThreeAborts(c, p, act) then (false, s1.party.(remoteStatic := s1.out))
    else
      var p1 := s1.party.(remoteStatic := s1.out);
      var s2 := Decrypt(c, MixKey(c, p1, c.ecdh(p1.remoteStatic, p1.localEphemeral)), [], act[49..]);
      if s2.tag != act[49..] then (false, s2.party) else (true, Split(c, s2.party))
  }

  // ----- What is accepted -----

  // Act one or two as party p accepts it with the private key ours: its key can be used,
  // and its last 16 bytes are the tag of the empty text, under the key that the shared
  // secret gives and over the digest that has taken the key in.
  predicate Genuine(c: Crypto, p: Party, act: bytes, ours: bytes)
    requires |act| == 80
  {
    var e := c.fromHash(act[..64]);
    c.valid(e) && act[64..] == c.tag(c.hkdf(c.ecdh(e, ours), p.chainingKey).1, 0, c.sha(p.digest + e), [])
  }

  // The key in act three is sealed, with its tag, under the current key ...
  predicate GenuineKey(c: Crypto, p: Party, act: bytes)
    requires |act| == 65
  {
    act[33..49] == c.tag(p.cs.key, p.cs.nonce, p.digest, act[..33])
  }

  function KeyInside(c: Crypto, p: Party, act: bytes): bytes
    requires |act| == 65
  {
    c.open(p.cs.key, p.cs.nonce, p.digest, act[..33])
  }

  // ... and can be used; and a second tag, over all of that, is made with its secret.
  predicate GenuineThree(c: Crypto, p: Party, act: bytes)
    requires |act| == 65
  {
    var key := KeyInside(c, p, act);
    && GenuineKey(c, p, act) && c.valid(key)
    && act[49..] == c.tag(c.hkdf(c.ecdh(key, p.localEphemeral), p.chainingKey).1, 0, c.sha(p.digest + act[..49]), [])
  }

  // An act is accepted exactly when it is genuine.
  lemma AcceptedGenuine(c: Crypto, p: Party, act: bytes)
    requires |act| == 80
    ensures RecvActOne(c, p, act).0 <==> Genuine(c, p, act, p.localStatic)
    ensures RecvActTwo(c, p, act).0 <==> Genuine(c, p, act, p.localEphemeral)
  {
  }

  lemma AcceptedGenuineThree(c: Crypto, p: Party, act: bytes)
    requires |act| == 65
    ensures RecvActThree(c, p, act).0 <==> GenuineThree(c, p, act)
    ensures RecvActThree(c, p, act).0 ==> RecvActThree(c, p, act).1.remoteStatic == KeyInside(c, p, act)
    ensures ActThreeAborts(c, p, act) <==> GenuineKey(c, p, act) && !c.valid(KeyInside(c, p, act))
  {
    assert p.digest + act[..33] + act[33..49] == p.digest + act[..49];
  }

  // Of acts that differ only in a tag, at most one is accepted.
  lemma OneTag(c: Crypto, p: Party, a: bytes, b: bytes)
    requires |a| == |b| == 80 && a[..64] == b[..64] && a != b
    ensures !(RecvActOne(c, p, a).0 && RecvActOne(c, p, b).0)
    ensures !(RecvActTwo(c, p, a).0 && RecvActTwo(c, p, b).0)
  {
    AcceptedGenuine(c, p, a);
    AcceptedGenuine(c, p, b);
    assert a == a[..64] + a[64..] && b == b[..64] + b[64..];
  }

  lemma OneTagEach(c: Crypto, p: Party, a: bytes, b: bytes)
    requires |a| == |b| == 65 && a[..33] == b[..33] && a != b
    ensures !(RecvActThree(c, p, a).0 && RecvActThree(c, p, b).0)
  {
    AcceptedGenuineThree(c, p, a);
    AcceptedGenuineThree(c, p, b);
    assert a[..49] == a[..33] + a[33..49] && b[..49] == b[..33] + b[33..49];
    assert a == a[..49] + a[49..] && b == b[..49] + b[49..];
  }

  // ----- What an accepted act says of its sender -----

  // The two tags are the same only if they were made of the same things.
  predicate TagsApart(c: Crypto, k: bytes, n: nat, d: bytes, m: bytes, k': bytes, n': nat, d': bytes, m': bytes) {
    c.tag(k, n, d, m) == c.tag(k', n', d', m') ==> k == k' && n == n' && d == d' && m == m'
  }

  predicate HashesApart(c: Crypto, x: bytes, y: bytes) {
    c.sha(x) == c.sha(y) ==> x == y
  }

  // Nobody has forged the tag of g's act, which r is to check against the key e'.
  predicate Unforged(c: Crypto, g: Party, e: bytes, theirs: bytes, r: Party, e': bytes, ours: bytes) {
    && TagsApart(c, c.hkdf(c.ecdh(theirs, e), g.chainingKey).1, 0, c.sha(g.digest + c.pub(e)), [],
                 c.hkdf(c.ecdh(e', ours), r.chainingKey).1, 0, c.sha(r.digest + e'), [])
    && HashesApart(c, g.digest + c.pub(e), r.digest + e')
  }

  lemma SameParts(x: bytes, y: bytes, x': bytes, y': bytes)
    requires x + y == x' + y' && |x| == |x'|
    ensures x == x' && y == y'
  {
    assert (x + y)[..|x|] == x && (x' + y')[..|x|] == x';
    assert (x + y)[|x|..] == y && (x' + y')[|x|..] == y';
  }

  // The tag that g makes for act one or two.
  lemma ActTag(c: Crypto, g: Party, e: bytes, rnd: bytes, theirs: bytes)
    requires Lawful(c)
    ensures var act := GenAct(c, g, e, rnd, theirs).0;
      |act| == 80 && act[64..] == c.tag(c.hkdf(c.ecdh(theirs, e), g.chainingKey).1, 0, c.sha(g.digest + c.pub(e)), [])
  {
    var p1 := MixKey(c, MixHash(c, g.(localEphemeral := e), c.pub(e)), c.ecdh(theirs, e));
    var sealed := c.seal(p1.cs.key, p1.cs.nonce, p1.digest, []);
    assert |sealed| == 0 && sealed == [];
    assert GenAct(c, g, e, rnd, theirs).0[64..] == Encrypt(c, p1, []).tag;
  }

  // When r accepts, under the tag of an act one or two of g's, any bytes at all, they
  // stand for g's ephemeral key, and both sides had the same digest and compute the same
  // key: nobody has put in a key of their own.
  lemma ActBinds(c: Crypto, g: Party, r: Party, e: bytes, rnd: bytes, theirs: bytes, ours: bytes, act: bytes)
    requires Lawful(c) && |act| == 80 && act[64..] == GenAct(c, g, e, rnd, theirs).0[64..]
    requires Genuine(c, r, act, ours) && |g.digest| == |r.digest|
    requires Unforged(c, g, e, theirs, r, c.fromHash(act[..64]), ours)
    ensures var e' := c.fromHash(act[..64]);
      e' == c.pub(e) && g.digest == r.digest
      && c.hkdf(c.ecdh(theirs, e), g.chainingKey).1 == c.hkdf(c.ecdh(e', ours), r.chainingKey).1
  {
    ActTag(c, g, e, rnd, theirs);
    SameParts(g.digest, c.pub(e), r.digest, c.fromHash(act[..64]));
  }

  // When r accepts, under the first tag of an act three of i's, any bytes at all, r learns
  // i's static key.
  lemma ActThreeBinds(c: Crypto, i: Party, r: Party, act: bytes)
    requires Lawful(c) && |act| == 65 && RecvActThree(c, r, act).0
    requires act[33..49] == GenActThree(c, i).0[33..49]
    requires TagsApart(c, i.cs.key, i.cs.nonce, i.digest, c.seal(i.cs.key, i.cs.nonce, i.digest, c.pub(i.localStatic)),
                       r.cs.key, r.cs.nonce, r.digest, act[..33])
    ensures RecvActThree(c, r, act).1.remoteStatic == c.pub(i.localStatic) && i.digest == r.digest
  {
    AcceptedGenuineThree(c, r, act);
    var s1 := Encrypt(c, i, c.pub(i.localStatic));
    assert GenActThree(c, i).0[33..49] == s1.tag;
  }

  // The digest both sides start from.
  function StartDigest(c: Crypto): bytes {
    c.sha(c.sha(Ascii(PROTOCOL_NAME)) + Ascii(PROLOGUE))
  }

  // A responder that accepts act one is the one that the initiator expects.
  lemma ExpectedResponder(c: Crypto, ours: bytes, rs: bytes, theirs: bytes, e: bytes, rnd: bytes)
    requires Lawful(c)
    requires var i, r := Init(c, true, ours, Some(rs)), Init(c, false, theirs, None);
      && RecvActOne(c, r, GenActOne(c, i, e, rnd).0).0 && |i.digest| == |r.digest|
      && HashesApart(c, StartDigest(c) + rs, StartDigest(c) + c.pub(theirs))
      && Unforged(c, i, e, rs, r, c.fromHash(GenActOne(c, i, e, rnd).0[..64]), theirs)
    ensures rs == c.pub(theirs)
  {
    var i, r := Init(c, true, ours, Some(rs)), Init(c, false, theirs, None);
    var act := GenActOne(c, i, e, rnd).0;
    ActTag(c, i, e, rnd, rs);
    AcceptedGenuine(c, r, act);
    ActBinds(c, i, r, e, rnd, rs, theirs, act);
    SameParts(StartDigest(c), rs, StartDigest(c), c.pub(theirs));
  }

  // ----- The two parties agree -----

  // Same symmetric state on both sides.
  predicate InSync(i: Party, r: Party) {
    i.chainingKey == r.chainingKey && i.digest == r.digest && i.cs == r.cs
  }

  // What stays with a party through an act.
  predicate SameStatics(p: Party, q: Party) {
    p.initiator == q.initiator && p.localStatic == q.localStatic && p.remoteStatic == q.remoteStatic
  }

  // An act is accepted, and keeps the parties in sync, when both compute the
  // same secret.
  lemma ActAccepted(c: Crypto, g: Party, r: Party, e: bytes, rnd: bytes, theirs: bytes, ours: bytes)
    requires Lawful(c) && InSync(g, r) && c.ecdh(theirs, e) == c.ecdh(c.pub(e), ours)
    ensures var (act, g') := GenAct(c, g, e, rnd, theirs);
      && |act| == 80 && c.fromHash(act[..64]) == c.pub(e)
      && var (ok, r') := RecvAct(c, r, act, ours);
        && ok && InSync(g', r') && g'.localEphemeral == e && r'.remoteEphemeral == c.pub(e)
        && SameStatics(g, g') && SameStatics(r, r')
        && g'.remoteEphemeral == g.remoteEphemeral && r'.localEphemeral == r.localEphemeral
  {
    var (act, g') := GenAct(c, g, e, rnd, theirs);
    var p1 := MixKey(c, MixHash(c, g.(localEphemeral := e), c.pub(e)), c.ecdh(theirs, e));
    var sealed := c.seal(p1.cs.key, p1.cs.nonce, p1.digest, []);
    assert |sealed| == 0 && sealed == [];
    assert act[..64] == c.toHash(c.pub(e), rnd) && act[64..] == Encrypt(c, p1, []).tag;
  }

  lemma ActThreeAccepted(c: Crypto, i: Party, r: Party)
    requires Lawful(c) && InSync(i, r) && i.initiator && !r.initiator && i.remoteEphemeral == c.pub(r.localEphemeral)
    ensures var (act, i') := GenActThree(c, i);
      && |act| == 65
      && var (ok, r') := RecvActThree(c, r, act);
        ok && r'.remoteStatic == c.pub(i.localStatic) && i'.send == r'.recv && i'.recv == r'.send
        && i'.send.nonce == i'.recv.nonce == 0
  {
    var s1 := Encrypt(c, i, c.pub(i.localStatic));
    var p1 := MixKey(c, s1.party, c.ecdh(i.remoteEphemeral, i.localStatic));
    var s2 := Encrypt(c, p1, []);
    var act := s1.out + s1.tag + s2.tag;
    assert act[..33] == s1.out && act[33..49] == s1.tag && act[49..] == s2.tag;
    var sealed := c.seal(p1.cs.key, p1.cs.nonce, p1.digest, []);
    assert |sealed| == 0 && sealed == [];
  }

  // An honest handshake succeeds at every act: the responder learns the
  // initiator's static key, and each party's send cipher is the other's
  // receive cipher.
  lemma HandshakeAgrees(c: Crypto, ours: bytes, theirs: bytes, ei: bytes, er: bytes, rnd1: bytes, rnd2: bytes)
    requires Lawful(c)
    ensures var i0, r0 := Init(c, true, ours, Some(c.pub(theirs))), Init(c, false, theirs, None);
      var (act1, i1) := GenActOne(c, i0, ei, rnd1);
      && |act1| == 80
      && var (ok1, r1) := RecvActOne(c, r0, act1);
      var (act2, r2) := GenActTwo(c, r1, er, rnd2);
      && |act2| == 80
      && var (ok2, i2) := RecvActTwo(c, i1, act2);
      var (act3, i3) := GenActThree(c, i2);
      && |act3| == 65
      && var (ok3, r3) := RecvActThree(c, r2, act3);
        ok1 && ok2 && ok3 && r3.remoteStatic == c.pub(ours) && i3.send == r3.recv && i3.recv == r3.send
        && i3.send.nonce == i3.recv.nonce == 0
  {
    var i0, r0 := Init(c, true, ours, Some(c.pub(theirs))), Init(c, false, theirs, None);
    ActAccepted(c, i0, r0, ei, rnd1, c.pub(theirs), theirs);
    var (act1, i1) := GenActOne(c, i0, ei, rnd1);
    var (ok1, r1) := RecvActOne(c, r0, act1);
    ActAccepted(c, r1, i1, er, rnd2, c.pub(ei), ei);
    var (act2, r2) := GenActTwo(c, r1, er, rnd2);
    var (ok2, i2) := RecvActTwo(c, i1, act2);
    ActThreeAccepted(c, i2, r2);
  }
}
