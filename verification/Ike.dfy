/** One side of the IKE exchange (ike_engine.c): a context that every message updates. */
module Ike {
  import opened Options
  import opened Words
  import opened Dh

  datatype Role = Initiator | Responder

  datatype State = Idle | SaInit | SaAgreed | KeSent | KeDone | AuthSent | Established | Error

  const NonceLen: nat := 16
  const AesKeyLen: nat := 16
  const HashLen: nat := 20
  const CookieLen: nat := 8
  const HeaderLen: nat := 20

  // ---------- what lies outside: HMAC-SHA1 and the AES-CBC engine ----------

  /** hmac(key, message); encrypt and decrypt take key, IV and whole blocks. */
  datatype Crypto = Crypto(
    hmac: (Bytes, Bytes) -> Bytes,
    encrypt: (Bytes, Bytes, Bytes) -> Bytes,
    decrypt: (Bytes, Bytes, Bytes) -> Bytes)

  /** Digests have 20 bytes; the engine keeps lengths and decryption undoes encryption. */
  ghost predicate Sound(c: Crypto) {
    (forall k, m :: |c.hmac(k, m)| == HashLen)
    && (forall k, iv, d :: |c.encrypt(k, iv, d)| == |d| && |c.decrypt(k, iv, d)| == |d|)
    && forall k, iv, d :: |d| % AesKeyLen == 0 ==> c.decrypt(k, iv, c.encrypt(k, iv, d)) == d
  }

  // ---------- packets ----------

  const SaPropose: Byte := 1
  const SaAccept: Byte := 2
  const KeNonce: Byte := 3
  const Auth: Byte := 5
  const Data: Byte := 10

  function Swap16(v: nat): (r: nat)
    requires v < 65536
    ensures r < 65536
  {
    v % 256 * 256 + v / 256
  }

  /** The two bytes in memory of a 16-bit field, on the little-endian host. */
  function Store16(v: nat): Bytes
    requires v < 65536
  {
    [v % 256, v / 256]
  }

  function Load16(s: Bytes): nat
    requires |s| == 2
  {
    var lo: nat, hi: nat := s[0], s[1];
    lo + 256 * hi
  }

  function Packet(msgType: Byte, ckyI: Bytes, ckyR: Bytes, payload: Bytes): Bytes
    requires |payload| < 65536
  {
    [msgType, 0] + Store16(Swap16(|payload|)) + ckyI + ckyR + payload
  }

  function PayloadLen(pkt: Bytes): nat
    requires |pkt| >= HeaderLen
  {
    Swap16(Load16(pkt[2..4]))
  }

  function HeaderCkyI(pkt: Bytes): Bytes requires |pkt| >= HeaderLen { pkt[4..12] }

  function HeaderCkyR(pkt: Bytes): Bytes requires |pkt| >= HeaderLen { pkt[12..20] }

  /** The header is complete, and what it announces has been received. */
  predicate WellFormed(pkt: Bytes) {
    |pkt| >= HeaderLen && PayloadLen(pkt) <= |pkt| - HeaderLen
  }

  /** What the length field covers; bytes behind it are ignored. */
  function Payload(pkt: Bytes): Bytes
    requires WellFormed(pkt)
  {
    pkt[HeaderLen..HeaderLen + PayloadLen(pkt)]
  }

  /** Reading a packet gives back what it was built from. */
  lemma PacketParses(t: Byte, ckyI: Bytes, ckyR: Bytes, payload: Bytes)
    requires |payload| < 65536 && |ckyI| == |ckyR| == CookieLen
    ensures var pkt := Packet(t, ckyI, ckyR, payload);
            |pkt| >= HeaderLen && pkt[0] == t && PayloadLen(pkt) == |payload| == |pkt| - HeaderLen
            && HeaderCkyI(pkt) == ckyI && HeaderCkyR(pkt) == ckyR && Payload(pkt) == payload
  {
    var pkt := Packet(t, ckyI, ckyR, payload);
    assert pkt[2..4] == Store16(Swap16(|payload|));
  }

  /** The header on the wire: type, a zero byte, the length with its high byte first, and the two
      cookies. */
  lemma PacketBytes(t: Byte, ckyI: Bytes, ckyR: Bytes, payload: Bytes)
    requires |payload| < 65536 && |ckyI| == |ckyR| == CookieLen
    ensures var pkt := Packet(t, ckyI, ckyR, payload);
            |pkt| == 20 + |payload| && pkt[0] == t && pkt[1] == 0
            && 256 * (pkt[2] as int) + (pkt[3] as int) == |payload|
            && pkt[4..12] == ckyI && pkt[12..20] == ckyR && pkt[20..] == payload
  {
    var pkt := Packet(t, ckyI, ckyR, payload);
    assert pkt[2..4] == Store16(Swap16(|payload|));
    assert pkt[2] == pkt[2..4][0] && pkt[3] == pkt[2..4][1];
  }

  // ---------- sealing ----------

  /** Between 1 and 16 bytes, each holding their number. */
  function Pad(m: Bytes): (d: Bytes)
    ensures |d| % AesKeyLen == 0 && |d| == |m| + AesKeyLen - |m| % AesKeyLen
  {
    var n := AesKeyLen - |m| % AesKeyLen;
    m + seq(n, _ => n)
  }

  predicate PaddingOk(d: Bytes, n: nat)
    requires n <= |d|
  {
    forall k :: |d| - n <= k < |d| ==> d[k] == n
  }

  /** Bytes that do not end in a padding are left as they are. */
  function Unpad(d: Bytes): Bytes
  {
    if d == [] then []
    else
      var n := d[|d| - 1];
      if 0 < n <= AesKeyLen && n <= |d| && PaddingOk(d, n) then d[..|d| - n] else d
  }

  lemma UnpadPad(m: Bytes)
    ensures Unpad(Pad(m)) == m
  {}

  datatype Keys = Keys(enc: Bytes, auth: Bytes)

  /** IV, ciphertext and their HMAC. */
  function Seal(c: Crypto, keys: Keys, iv: Bytes, m: Bytes): Bytes {
    var body := iv + c.encrypt(keys.enc, iv, Pad(m));
    body + c.hmac(keys.auth, body)
  }

  function Open(c: Crypto, keys: Keys, s: Bytes): Option<Bytes> {
    if |s| < AesKeyLen + HashLen || (|s| - AesKeyLen - HashLen) % AesKeyLen != 0 then None
    else
      var n := |s| - HashLen;
      if s[n..] != c.hmac(keys.auth, s[..n]) then None
      else Some(Unpad(c.decrypt(keys.enc, s[..AesKeyLen], s[AesKeyLen..n])))
  }

  /** Opening undoes sealing, under the same keys. */
  lemma OpenSeal(c: Crypto, keys: Keys, iv: Bytes, m: Bytes)
    requires Sound(c) && |iv| == AesKeyLen
    ensures Open(c, keys, Seal(c, keys, iv, m)) == Some(m)
    ensures |Seal(c, keys, iv, m)| == AesKeyLen + |Pad(m)| + HashLen
  {
    var e := c.encrypt(keys.enc, iv, Pad(m));
    var body := iv + e;
    var s := Seal(c, keys, iv, m);
    var n := |s| - HashLen;
    assert s[..n] == body && s[n..] == c.hmac(keys.auth, body);
    assert s[..AesKeyLen] == iv && s[AesKeyLen..n] == e;
    UnpadPad(m);
  }

  /** What stands where in a sealed text: the IV, blocks that decrypt to the text and at least one
      byte of padding, and the HMAC of everything before it. */
  lemma SealParts(c: Crypto, keys: Keys, iv: Bytes, m: Bytes)
    requires Sound(c) && |iv| == AesKeyLen
    ensures var s := Seal(c, keys, iv, m);
            var n := |s| - 20;
            n >= 32 && n % 16 == 0 && |m| < n - 16 <= |m| + 16 && s[..16] == iv
            && s[n..] == c.hmac(keys.auth, s[..n])
            && var d := c.decrypt(keys.enc, iv, s[16..n]);
               |d| == n - 16 && d[..|m|] == m && forall k :: |m| <= k < |d| ==> d[k] as int == |d| - |m|
  {
    OpenSeal(c, keys, iv, m);
    var body := iv + c.encrypt(keys.enc, iv, Pad(m));
    var s := Seal(c, keys, iv, m);
    var n := |s| - 20;
    assert s[..n] == body && s[n..] == c.hmac(keys.auth, body);
    assert s[..16] == iv && s[16..n] == c.encrypt(keys.enc, iv, Pad(m));
  }

  /** Whatever is opened carries the HMAC of all bytes before it; so two texts that end in one tag
      are the same unless the HMAC collides. */
  lemma OpenedIsTagged(c: Crypto, keys: Keys, s: Bytes, s': Bytes)
    requires Open(c, keys, s).Some? && Open(c, keys, s').Some? && s[|s| - 20..] == s'[|s'| - 20..]
    ensures s[|s| - 20..] == c.hmac(keys.auth, s[..|s| - 20])
    ensures s == s' || Collides(c, keys.auth)
  {
    var n, n' := |s| - 20, |s'| - 20;
    assert s == s[..n] + s[n..] && s' == s'[..n'] + s'[n'..];
    if s[..n] != s'[..n'] {
      assert c.hmac(keys.auth, s[..n]) == c.hmac(keys.auth, s'[..n']);
    }
  }

  // ---------- the context ----------

  datatype Sa = Sa(keys: Keys, state: State)

  /** The fields of a context at one moment. */
  datatype Ctx = Ctx(
    role: Role, state: State, ckyI: Bytes, ckyR: Bytes,
    dhPrivate: DhBytes, dhPublic: DhBytes, dhPeer: DhBytes, dhShared: DhBytes,
    nonceI: Bytes, nonceR: Bytes, psk: Bytes,
    skeyid: Bytes, skeyidD: Bytes, skeyidA: Bytes, skeyidE: Bytes, sa: Sa)

  predicate Shaped(x: Ctx) {
    |x.ckyI| == |x.ckyR| == CookieLen && |x.nonceI| == |x.nonceR| == NonceLen
  }

  /** The context after ike_init, from the random bytes it draws. */
  function Fresh(role: Role, psk: Bytes, cookie: Bytes, nonce: Bytes, priv: DhBytes): Ctx {
    Ctx(role, Idle,
        if role.Initiator? then cookie else Zeros(CookieLen),
        if role.Responder? then cookie else Zeros(CookieLen),
        priv, DhPower(Dh14G, priv, Dh14P), Zeros(256), Zeros(256),
        if role.Initiator? then nonce else Zeros(NonceLen),
        if role.Responder? then nonce else Zeros(NonceLen),
        psk, Zeros(HashLen), Zeros(HashLen), Zeros(HashLen), Zeros(HashLen),
        Sa(Keys(Zeros(AesKeyLen), Zeros(HashLen)), Idle))
  }

  /** The key schedule of section 5 of RFC 2409, from what the two sides share. */
  datatype Schedule = Schedule(id: Bytes, d: Bytes, a: Bytes, e: Bytes)

  function KeySchedule(c: Crypto, psk: Bytes, nonces: Bytes, shared: Bytes, cookies: Bytes): Schedule {
    var id := c.hmac(psk, nonces);
    var d := c.hmac(id, shared + cookies + [0]);
    var a := c.hmac(id, d + shared + cookies + [1]);
    var e := c.hmac(id, a + shared + cookies + [2]);
    Schedule(id, d, a, e)
  }

  /** K_0, K_1, ...: each from the one before, the material and a counter byte. */
  function Chain(c: Crypto, key: Bytes, material: Bytes, k: nat): Bytes
    requires k <= 256
  {
    if k == 0 then [] else c.hmac(key, Chain(c, key, material, k - 1) + material + [k - 1])
  }

  /** The schedule is the chain up to K_3, over g^xy and the cookies and under
      prf(psk, Ni | Nr). */
  lemma ScheduleIsChain(c: Crypto, psk: Bytes, nonces: Bytes, shared: Bytes, cookies: Bytes)
    ensures var s := KeySchedule(c, psk, nonces, shared, cookies);
            var key := c.hmac(psk, nonces);
            s.id == key && s.d == Chain(c, key, shared + cookies, 1)
            && s.a == Chain(c, key, shared + cookies, 2) && s.e == Chain(c, key, shared + cookies, 3)
  {
    hide Chain;
    var key, m := c.hmac(psk, nonces), shared + cookies;
    ChainStep(c, key, m, 0);
    ChainStep(c, key, m, 1);
    ChainStep(c, key, m, 2);
    var d, a := Chain(c, key, m, 1), Chain(c, key, m, 2);
    assert [] + m + [0] == shared + cookies + [0];
    assert d + m + [1] == d + shared + cookies + [1];
    assert a + m + [2] == a + shared + cookies + [2];
  }

  lemma ChainStep(c: Crypto, key: Bytes, m: Bytes, k: nat)
    requires k < 256
    ensures Chain(c, key, m, 0) == []
    ensures Chain(c, key, m, k + 1) == c.hmac(key, Chain(c, key, m, k) + m + [k])
  {}

  /** Two messages with one digest under a key. */
  ghost predicate Collides(c: Crypto, key: Bytes) {
    exists m, m' :: m != m' && c.hmac(key, m) == c.hmac(key, m')
  }

  /** The keys bind what they are derived from: unless the HMAC collides under SKEYID, two
      runs with the same SKEYID and any one key of the chain in common have the same g^xy and
      the same cookies; and unless it collides under the pre-shared key, equal SKEYIDs come
      from equal nonces. */
  lemma KeysBind(c: Crypto, psk: Bytes, nonces: Bytes, shared: Bytes, cookies: Bytes,
                 nonces': Bytes, shared': Bytes, cookies': Bytes)
    requires |shared| == |shared'| && |cookies| == |cookies'|
    ensures var s := KeySchedule(c, psk, nonces, shared, cookies);
            var s' := KeySchedule(c, psk, nonces', shared', cookies');
            (s.id == s'.id ==> nonces == nonces' || Collides(c, psk))
            && (s.id == s'.id && (s.d == s'.d || s.a == s'.a || s.e == s'.e) ==>
                  (shared == shared' && cookies == cookies') || Collides(c, s.id))
  {
    var s := KeySchedule(c, psk, nonces, shared, cookies);
    var s' := KeySchedule(c, psk, nonces', shared', cookies');
    SamePreimage(c, psk, nonces, nonces');
    SamePreimage(c, s.id, shared + cookies + [0], shared' + cookies' + [0]);
    SamePreimage(c, s.id, s.d + shared + cookies + [1], s'.d + shared' + cookies' + [1]);
    SamePreimage(c, s.id, s.a + shared + cookies + [2], s'.a + shared' + cookies' + [2]);
    assert [] + shared + cookies + [0] == shared + cookies + [0];
    assert [] + shared' + cookies' + [0] == shared' + cookies' + [0];
    SameParts([], shared, cookies, 0, [], shared', cookies', 0);
    SameParts(s.d, shared, cookies, 1, s'.d, shared', cookies', 1);
    SameParts(s.a, shared, cookies, 2, s'.a, shared', cookies', 2);
  }

  lemma SamePreimage(c: Crypto, key: Bytes, m: Bytes, m': Bytes)
    ensures c.hmac(key, m) == c.hmac(key, m') ==> m == m' || Collides(c, key)
  {}

  /** The parts of fixed length can be read off the end. */
  lemma SameParts(k: Bytes, s: Bytes, i: Bytes, n: Byte, k': Bytes, s': Bytes, i': Bytes, n': Byte)
    requires |s| == |s'| && |i| == |i'|
    ensures k + s + i + [n] == k' + s' + i' + [n'] ==> k == k' && s == s' && i == i' && n == n'
  {
    var x, x' := k + s + i + [n], k' + s' + i' + [n'];
    if x == x' {
      var a := |k|;
      assert |k'| == a;
      assert x[..a] == k && x'[..a] == k';
      assert x[a..a + |s|] == s && x'[a..a + |s|] == s';
      assert x[a + |s|..a + |s| + |i|] == i && x'[a + |s|..a + |s| + |i|] == i';
      assert x[|x| - 1] == n && x'[|x| - 1] == n';
    }
  }

  /** The keys that the schedule yields: 16 bytes of SKEYID_e and all of SKEYID_a. */
  function ScheduleKeys(s: Schedule): Keys
    requires |s.e| == HashLen
  {
    Keys(s.e[..AesKeyLen], s.a)
  }

  /** The order in which the buffer is filled does not matter. */
  lemma Regroup(k: Bytes, s: Bytes, i: Bytes, r: Bytes, n: Bytes)
    ensures s + i + r + n == s + (i + r) + n
    ensures k + s + i + r + n == k + s + (i + r) + n
  {}

  function Derive(c: Crypto, x: Ctx): Ctx
    requires Sound(c)
  {
    var s := KeySchedule(c, x.psk, x.nonceI + x.nonceR, x.dhShared, x.ckyI + x.ckyR);
    x.(skeyid := s.id, skeyidD := s.d, skeyidA := s.a, skeyidE := s.e,
       sa := x.sa.(keys := ScheduleKeys(s)))
  }

  /** "INITIATOR_AUTH" and "RESPONDER_AUTH", zero-padded to 16 bytes. */
  const InitiatorAuth: Bytes :=
    [0x49, 0x4E, 0x49, 0x54, 0x49, 0x41, 0x54, 0x4F, 0x52, 0x5F, 0x41, 0x55, 0x54, 0x48, 0, 0]
  const ResponderAuth: Bytes :=
    [0x52, 0x45, 0x53, 0x50, 0x4F, 0x4E, 0x44, 0x45, 0x52, 0x5F, 0x41, 0x55, 0x54, 0x48, 0, 0]

  lemma AuthTexts()
    ensures |InitiatorAuth| == |ResponderAuth| == 16
    ensures forall k :: 0 <= k < 14 ==> InitiatorAuth[k] as int == "INITIATOR_AUTH"[k] as int
    ensures forall k :: 0 <= k < 14 ==> ResponderAuth[k] as int == "RESPONDER_AUTH"[k] as int
    ensures InitiatorAuth[14..] == ResponderAuth[14..] == [0, 0]
  {}

  // ---------- one message ----------

  /** The context after a message, the return code, and the response (empty for none). */
  datatype Outcome = Outcome(ctx: Ctx, ret: int, resp: Bytes)

  /** What is opened fits the plaintext buffers of the handlers, which hold 64 and 1024 bytes.
      Nothing is asked of packets that are refused before they are decrypted. */
  predicate FitsBuffers(c: Crypto, x: Ctx, pkt: Bytes)
    requires WellFormed(pkt)
  {
    Open(c, x.sa.keys, Payload(pkt)).Some? ==>
      (pkt[0] == Auth ==> |Payload(pkt)| <= AesKeyLen + 64 + HashLen)
      && (pkt[0] == Data && x.state == Established ==> |Payload(pkt)| <= AesKeyLen + 1024 + HashLen)
  }

  function OnPropose(x: Ctx, pkt: Bytes): Outcome
    requires WellFormed(pkt)
  {
    if x.role.Responder? then
      var y := x.(ckyI := HeaderCkyI(pkt), state := SaAgreed);
      Outcome(y, 0, Packet(SaAccept, y.ckyI, y.ckyR, Payload(pkt)))
    else Outcome(x, 0, [])
  }

  function OnAccept(x: Ctx, pkt: Bytes): Outcome
    requires WellFormed(pkt) && Shaped(x)
  {
    if x.role.Initiator? && x.state == SaInit then
      var y := x.(ckyR := HeaderCkyR(pkt), state := KeSent);
      Outcome(y, 0, Packet(KeNonce, y.ckyI, y.ckyR, y.dhPublic + y.nonceI))
    else Outcome(x, 0, [])
  }

  /** The context once the peer's public value and nonce are in. */
  function TakeKe(c: Crypto, x: Ctx, payload: Bytes): Ctx
    requires Sound(c) && |payload| >= DhKeyLen + NonceLen
  {
    var peer: DhBytes := payload[..DhKeyLen];
    var nonce := payload[DhKeyLen..DhKeyLen + NonceLen];
    var y := if x.role.Initiator? then x.(nonceR := nonce) else x.(nonceI := nonce);
    Derive(c, y.(dhPeer := peer, dhShared := DhPower(peer, y.dhPrivate, Dh14P)))
  }

  /** The same, with the fields of both roles spelled out. */
  lemma TakeKeIs(c: Crypto, x: Ctx, payload: Bytes)
    requires Sound(c) && |payload| >= DhKeyLen + NonceLen
    ensures var peer: DhBytes, nonce := payload[..DhKeyLen], payload[DhKeyLen..DhKeyLen + NonceLen];
            TakeKe(c, x, payload) == Derive(c, x.(
              dhPeer := peer, dhShared := DhPower(peer, x.dhPrivate, Dh14P),
              nonceI := if x.role.Initiator? then x.nonceI else nonce,
              nonceR := if x.role.Initiator? then nonce else x.nonceR))
  {
    hide DhPower, Dh14P, Derive;
  }

  /** What taking in the peer's values leaves alone. */
  lemma TakeKeShape(c: Crypto, x: Ctx, payload: Bytes)
    requires Sound(c) && |payload| >= DhKeyLen + NonceLen && Shaped(x)
    ensures var y := TakeKe(c, x, payload);
            Shaped(y) && y.role == x.role && y.state == x.state && y.ckyI == x.ckyI && y.ckyR == x.ckyR
            && y.dhPublic == x.dhPublic && y.dhPrivate == x.dhPrivate && y.psk == x.psk
            && y.sa.state == x.sa.state
  {
    hide KeySchedule, DhPower, Dh14P;
  }

  function OnKeNonce(c: Crypto, x: Ctx, pkt: Bytes, iv: Bytes): Outcome
    requires Sound(c) && WellFormed(pkt) && Shaped(x) && |iv| == AesKeyLen
  {
    if |Payload(pkt)| < DhKeyLen + NonceLen then Outcome(x, -1, [])
    else
      var y := TakeKe(c, x, Payload(pkt));
      if x.role.Responder? then
        Outcome(y, 0, Packet(KeNonce, y.ckyI, y.ckyR, y.dhPublic + y.nonceR))
      else
        OpenSeal(c, y.sa.keys, iv, InitiatorAuth);
        Outcome(y.(state := AuthSent), 0,
                Packet(Auth, y.ckyI, y.ckyR, Seal(c, y.sa.keys, iv, InitiatorAuth)))
  }

  function OnAuth(c: Crypto, x: Ctx, pkt: Bytes, iv: Bytes): Outcome
    requires Sound(c) && WellFormed(pkt) && |iv| == AesKeyLen
  {
    if Open(c, x.sa.keys, Payload(pkt)).None? then Outcome(x, -1, [])
    else
      OpenSeal(c, x.sa.keys, iv, ResponderAuth);
      var resp := if x.role.Responder? then
                    Packet(Auth, x.ckyI, x.ckyR, Seal(c, x.sa.keys, iv, ResponderAuth))
                  else [];
      Outcome(x.(state := Established, sa := x.sa.(state := Established)), 0, resp)
  }

  function OnData(c: Crypto, x: Ctx, pkt: Bytes, iv: Bytes): Outcome
    requires Sound(c) && WellFormed(pkt) && FitsBuffers(c, x, pkt) && pkt[0] == Data && |iv| == AesKeyLen
  {
    if x.state != Established then Outcome(x, -1, [])
    else match Open(c, x.sa.keys, Payload(pkt))
      case None => Outcome(x, -1, [])
      case Some(m) =>
        OpenSeal(c, x.sa.keys, iv, m);
        OpenLength(c, x.sa.keys, Payload(pkt));
        Outcome(x, 0, Packet(Data, x.ckyI, x.ckyR, Seal(c, x.sa.keys, iv, m)))
  }

  lemma OpenLength(c: Crypto, keys: Keys, s: Bytes)
    requires Sound(c) && Open(c, keys, s).Some?
    ensures |Open(c, keys, s).value| <= |s| - AesKeyLen - HashLen
  {}

  /** ike_process_message; iv is what the random generator yields if a response is sealed. */
  function Process(c: Crypto, x: Ctx, pkt: Bytes, iv: Bytes): Outcome
    requires Sound(c) && Shaped(x) && |iv| == AesKeyLen
    requires |pkt| >= HeaderLen ==> WellFormed(pkt) && FitsBuffers(c, x, pkt)
  {
    if |pkt| < HeaderLen then Outcome(x, -1, [])
    else if pkt[0] == SaPropose then OnPropose(x, pkt)
    else if pkt[0] == SaAccept then OnAccept(x, pkt)
    else if pkt[0] == KeNonce then OnKeNonce(c, x, pkt, iv)
    else if pkt[0] == Auth then OnAuth(c, x, pkt, iv)
    else if pkt[0] == Data then OnData(c, x, pkt, iv)
    else Outcome(x, -1, [])
  }

  /** ike_initiate, for the initiator. */
  function Initiate(x: Ctx): Outcome {
    if x.role.Responder? then Outcome(x, -1, [])
    else Outcome(x.(state := SaInit), 0, Packet(SaPropose, x.ckyI, x.ckyR, [0, 0, 0, 1]))
  }

  // ---------- the code ----------

  /** The four HMACs of ike_derive_keys. */
  method RunSchedule(c: Crypto, psk: Bytes, nonceI: Bytes, nonceR: Bytes,
                     shared: Bytes, ckyI: Bytes, ckyR: Bytes) returns (s: Schedule)
    requires Sound(c)
    ensures s == KeySchedule(c, psk, nonceI + nonceR, shared, ckyI + ckyR) && |s.e| == HashLen
    ensures var key, material := c.hmac(psk, nonceI + nonceR), shared + (ckyI + ckyR);
            s == Schedule(key, Chain(c, key, material, 1), Chain(c, key, material, 2), Chain(c, key, material, 3))
  {
    hide Chain;
    ScheduleIsChain(c, psk, nonceI + nonceR, shared, ckyI + ckyR);
    var id := c.hmac(psk, nonceI + nonceR);
    Regroup([], shared, ckyI, ckyR, [0]);
    var d := c.hmac(id, shared + ckyI + ckyR + [0]);
    Regroup(d, shared, ckyI, ckyR, [1]);
    var a := c.hmac(id, d + shared + ckyI + ckyR + [1]);
    Regroup(a, shared, ckyI, ckyR, [2]);
    var e := c.hmac(id, a + shared + ckyI + ckyR + [2]);
    s := Schedule(id, d, a, e);
  }

  class IkeContext {
    var role: Role
    var state: State
    var ckyI: Bytes
    var ckyR: Bytes
    var dhPrivate: DhBytes
    var dhPublic: DhBytes
    var dhPeer: DhBytes
    var dhShared: DhBytes
    var nonceI: Bytes
    var nonceR: Bytes
    var psk: Bytes
    var skeyid: Bytes
    var skeyidD: Bytes
    var skeyidA: Bytes
    var skeyidE: Bytes
    var encKey: Bytes
    var authKey: Bytes
    var saState: State

    function Snapshot(): Ctx
      reads this
    {
      Ctx(role, state, ckyI, ckyR, dhPrivate, dhPublic, dhPeer, dhShared, nonceI, nonceR, psk,
          skeyid, skeyidD, skeyidA, skeyidE, Sa(Keys(encKey, authKey), saState))
    }

    /** ike_init; cookie, nonce and priv come from the random generator. */
    constructor (r: Role, key: Bytes, cookie: Bytes, nonce: Bytes, priv: DhBytes)
      requires |cookie| == CookieLen && |nonce| == NonceLen
      ensures Snapshot() == Fresh(r, key, cookie, nonce, priv)
    {
      hide DhPower, Dh14P, Dh14G;
      role := r;
      psk := key;
      ckyI, ckyR, nonceI, nonceR := Zeros(CookieLen), Zeros(CookieLen), Zeros(NonceLen), Zeros(NonceLen);
      skeyid, skeyidD, skeyidA, skeyidE := Zeros(HashLen), Zeros(HashLen), Zeros(HashLen), Zeros(HashLen);
      encKey, authKey, saState := Zeros(AesKeyLen), Zeros(HashLen), Idle;
      dhPeer, dhShared := Zeros(256), Zeros(256);
      if r == Initiator {
        ckyI := cookie;
        nonceI := nonce;
      } else {
        ckyR := cookie;
        nonceR := nonce;
      }
      dhPrivate := priv;
      var pub := DhModExp(Dh14G, priv, Dh14P);
      dhPublic := pub;
      state := Idle;
    }

    method InitiateExchange() returns (ret: int, resp: Bytes)
      modifies this
      ensures Outcome(Snapshot(), ret, resp) == Initiate(old(Snapshot()))
    {
      if role != Initiator { return -1, []; }
      resp := Packet(SaPropose, ckyI, ckyR, [0, 0, 0, 1]);
      state := SaInit;
      ret := 0;
    }

    method DeriveKeys(c: Crypto)
      requires Sound(c)
      modifies this
      ensures Snapshot() == Derive(c, old(Snapshot()))
      ensures var key := c.hmac(old(psk), old(nonceI) + old(nonceR));
        var material := old(dhShared) + (old(ckyI) + old(ckyR));
        skeyid == key && skeyidD == Chain(c, key, material, 1) && skeyidA == Chain(c, key, material, 2)
        && skeyidE == Chain(c, key, material, 3) && |skeyidE| == HashLen
        && encKey == skeyidE[..AesKeyLen] && authKey == skeyidA
    {
      hide KeySchedule, Chain;
      var s := RunSchedule(c, psk, nonceI, nonceR, dhShared, ckyI, ckyR);
      skeyid, skeyidD, skeyidA, skeyidE := s.id, s.d, s.a, s.e;
      encKey := s.e[..AesKeyLen];
      authKey := s.a;
    }

    /** Pad in a fixed buffer of 1040 bytes, encrypt, and authenticate. Refused exactly when
        the padded text does not fit the buffer. */
    method EncryptData(c: Crypto, plaintext: Bytes, iv: Bytes) returns (ret: int, ciphertext: Bytes)
      requires Sound(c) && |iv| == AesKeyLen && |plaintext| + AesKeyLen < 65536
      ensures ret == if |plaintext| <= 1039 then 0 else -1
      ensures ciphertext == if ret == 0 then Seal(c, Keys(encKey, authKey), iv, plaintext) else []
    {
      var buf := new Byte[1024 + 16];
      var padVal: nat := 16 - |plaintext| % 16;
      var paddedLen := |plaintext| + padVal;
      if paddedLen > buf.Length { return -1, []; }
      forall k | 0 <= k < |plaintext| { buf[k] := plaintext[k]; }
      for i := 0 to padVal
        invariant buf[..|plaintext|] == plaintext
        invariant forall k :: |plaintext| <= k < |plaintext| + i ==> buf[k] == padVal
      {
        buf[|plaintext| + i] := padVal;
      }
      assert buf[..paddedLen] == Pad(plaintext);
      var body := iv + c.encrypt(encKey, iv, buf[..paddedLen]);
      return 0, body + c.hmac(authKey, body);
    }

    method DecryptData(c: Crypto, s: Bytes) returns (ret: int, plaintext: Bytes)
      requires Sound(c)
      ensures ret == if Open(c, Keys(encKey, authKey), s).Some? then 0 else -1
      ensures ret == 0 ==> plaintext == Open(c, Keys(encKey, authKey), s).value
    {
      hide Unpad, PaddingOk;
      if |s| < AesKeyLen + HashLen { return -1, []; }
      var encLen := |s| - AesKeyLen - HashLen;
      if encLen % AesKeyLen != 0 { return -1, []; }
      var n := AesKeyLen + encLen;
      var computed := c.hmac(authKey, s[..n]);
      if s[n..] != computed { return -1, []; }
      var d := c.decrypt(encKey, s[..AesKeyLen], s[AesKeyLen..n]);
      ret := 0;
      plaintext := StripPadding(d);
    }

    /** The end of ike_decrypt_data: compare the padding bytes one by one. */
    method StripPadding(d: Bytes) returns (plaintext: Bytes)
      requires |d| % AesKeyLen == 0
      ensures plaintext == Unpad(d)
    {
      if |d| == 0 { return []; }
      var padLen: nat := d[|d| - 1];
      if padLen == 0 || padLen > AesKeyLen { return d; }
      var i: nat, valid := 0, true;
      while i < padLen && valid
        invariant i <= padLen
        invariant forall k :: |d| - i <= k < |d| ==> d[k] == padLen
        invariant !valid ==> i < padLen && d[|d| - 1 - i] != padLen
        decreases padLen - i, valid
      {
        if d[|d| - 1 - i] != padLen { valid := false; } else { i := i + 1; }
      }
      PaddingSeen(d, padLen, i, valid);
      plaintext := if valid then d[..|d| - padLen] else d;
    }

    /** Handle one packet. */
    method ProcessMessage(c: Crypto, data: Bytes, iv: Bytes) returns (ret: int, resp: Bytes)
      requires Sound(c) && Shaped(Snapshot()) && |iv| == AesKeyLen
      requires |data| >= HeaderLen ==> WellFormed(data) && FitsBuffers(c, Snapshot(), data)
      modifies this
      ensures Outcome(Snapshot(), ret, resp) == Process(c, old(Snapshot()), data, iv)
    {
      if |data| < HeaderLen { return -1, []; }
      if data[0] == SaPropose {
        ret, resp := HandlePropose(data);
      } else if data[0] == SaAccept {
        ret, resp := HandleAccept(data);
      } else if data[0] == KeNonce {
        ret, resp := HandleKeNonce(c, data, iv);
      } else if data[0] == Auth {
        ret, resp := HandleAuth(c, data, iv);
      } else if data[0] == Data {
        ret, resp := HandleData(c, data, iv);
      } else {
        return -1, [];
      }
    }

    method HandlePropose(data: Bytes) returns (ret: int, resp: Bytes)
      requires WellFormed(data)
      modifies this
      ensures Outcome(Snapshot(), ret, resp) == OnPropose(old(Snapshot()), data)
    {
      resp := [];
      if role == Responder {
        ckyI := HeaderCkyI(data);
        resp := Packet(SaAccept, ckyI, ckyR, Payload(data));
        state := SaAgreed;
      }
      ret := 0;
    }

    method HandleAccept(data: Bytes) returns (ret: int, resp: Bytes)
      requires WellFormed(data) && Shaped(Snapshot())
      modifies this
      ensures Outcome(Snapshot(), ret, resp) == OnAccept(old(Snapshot()), data)
    {
      resp := [];
      if role == Initiator && state == SaInit {
        ckyR := HeaderCkyR(data);
        resp := Packet(KeNonce, ckyI, ckyR, dhPublic + nonceI);
        state := KeSent;
      }
      ret := 0;
    }

    /** Store the peer's public value and nonce, and derive the keys. */
    method TakePeer(c: Crypto, payload: Bytes)
      requires Sound(c) && |payload| >= DhKeyLen + NonceLen
      modifies this
      ensures Snapshot() == TakeKe(c, old(Snapshot()), payload)
    {
      hide DhPower, Dh14P, Dh14G, Derive, Chain, TakeKe, KeySchedule, ScheduleKeys;
      TakeKeIs(c, Snapshot(), payload);
      dhPeer := payload[..DhKeyLen];
      if role == Initiator {
        nonceR := payload[DhKeyLen..DhKeyLen + NonceLen];
      } else {
        nonceI := payload[DhKeyLen..DhKeyLen + NonceLen];
      }
      dhShared := DhModExp(dhPeer, dhPrivate, Dh14P);
      DeriveKeys(c);
    }

    method HandleKeNonce(c: Crypto, data: Bytes, iv: Bytes) returns (ret: int, resp: Bytes)
      requires Sound(c) && WellFormed(data) && Shaped(Snapshot()) && |iv| == AesKeyLen
      modifies this
      ensures Outcome(Snapshot(), ret, resp) == OnKeNonce(c, old(Snapshot()), data, iv)
    {
      hide DhPower, Dh14P, Dh14G, TakeKe, Seal;
      var payload := Payload(data);
      if |payload| < DhKeyLen + NonceLen { return -1, []; }
      TakeKeShape(c, Snapshot(), payload);
      TakePeer(c, payload);
      ret := 0;
      if role == Responder {
        resp := Packet(KeNonce, ckyI, ckyR, dhPublic + nonceR);
      } else {
        var enc;
        ret, enc := EncryptData(c, InitiatorAuth, iv);
        OpenSeal(c, Keys(encKey, authKey), iv, InitiatorAuth);
        resp := Packet(Auth, ckyI, ckyR, enc);
        state := AuthSent;
      }
    }

    method HandleAuth(c: Crypto, data: Bytes, iv: Bytes) returns (ret: int, resp: Bytes)
      requires Sound(c) && WellFormed(data) && |iv| == AesKeyLen
      modifies this
      ensures Outcome(Snapshot(), ret, resp) == OnAuth(c, old(Snapshot()), data, iv)
    {
      resp := [];
      var dec;
      ret, dec := DecryptData(c, Payload(data));
      if ret != 0 { return -1, []; }
      if role == Responder {
        var enc;
        ret, enc := EncryptData(c, ResponderAuth, iv);
        OpenSeal(c, Keys(encKey, authKey), iv, ResponderAuth);
        resp := Packet(Auth, ckyI, ckyR, enc);
      }
      state := Established;
      saState := Established;
    }

    /** Echo the data, sealed afresh. */
    method HandleData(c: Crypto, data: Bytes, iv: Bytes) returns (ret: int, resp: Bytes)
      requires Sound(c) && WellFormed(data) && FitsBuffers(c, Snapshot(), data) && data[0] == Data && |iv| == AesKeyLen
      modifies this
      ensures Outcome(Snapshot(), ret, resp) == OnData(c, old(Snapshot()), data, iv)
    {
      if state != Established { return -1, []; }
      var dec;
      ret, dec := DecryptData(c, Payload(data));
      if ret != 0 { return -1, []; }
      OpenLength(c, Keys(encKey, authKey), Payload(data));
      var enc;
      ret, enc := EncryptData(c, dec, iv);
      OpenSeal(c, Keys(encKey, authKey), iv, dec);
      resp := Packet(Data, ckyI, ckyR, enc);
    }
  }

  lemma PaddingSeen(d: Bytes, n: nat, i: nat, valid: bool)
    requires 0 < n <= |d| && i <= n && (valid ==> i == n)
    requires forall k :: |d| - i <= k < |d| ==> d[k] == n
    requires !valid ==> i < n && d[|d| - 1 - i] != n
    ensures PaddingOk(d, n) <==> valid
  {}
}
