/** Both sides of the IKE exchange over a network that may lose, repeat and reorder packets,
    but neither forges nor reflects them. */
module IkeRuns {
  import opened Words
  import opened Dh
  import opened Ike

  // ---------- two sides and what is in flight ----------

  /** What the run starts from: the common secret and the random values of both sides. */
  datatype Setup = Setup(c: Crypto, psk: Bytes, ckyI: Bytes, ckyR: Bytes,
                         nonceI: Bytes, nonceR: Bytes, privI: DhBytes, privR: DhBytes)
  {
    ghost predicate Valid() {
      Sound(c) && |ckyI| == |ckyR| == CookieLen && |nonceI| == |nonceR| == NonceLen
    }

    function PubI(): DhBytes { DhPower(Dh14G, privI, Dh14P) }

    function PubR(): DhBytes { DhPower(Dh14G, privR, Dh14P) }

    /** The one pair of keys that the run can lead to. */
    function CommonKeys(): Keys
      requires Valid()
    {
      ScheduleKeys(KeySchedule(c, psk, nonceI + nonceR, DhPower(PubR(), privI, Dh14P), ckyI + ckyR))
    }
  }

  /** Both contexts, and every packet sent to either side so far: a packet may be delivered
      any number of times, in any order, or never. The flags record that a side has derived
      keys, and sent collects the plaintexts given to it for transmission. */
  datatype World = World(i: Ctx, r: Ctx, toI: set<Bytes>, toR: set<Bytes>,
                         derivedI: bool, derivedR: bool, sent: set<Bytes>)

  function Start(s: Setup): World {
    World(Fresh(Initiator, s.psk, s.ckyI, s.nonceI, s.privI),
          Fresh(Responder, s.psk, s.ckyR, s.nonceR, s.privR), {}, {}, false, false, {})
  }

  function Sending(resp: Bytes): set<Bytes> { if resp == [] then {} else {resp} }

  /** Whether handling the packet derives keys. */
  predicate Derives(pkt: Bytes) {
    WellFormed(pkt) && pkt[0] == KeNonce && |Payload(pkt)| >= DhKeyLen + NonceLen
  }

  ghost predicate Deliverable(s: Setup, x: Ctx, pkt: Bytes, iv: Bytes) {
    Sound(s.c) && Shaped(x) && |iv| == AesKeyLen && WellFormed(pkt) && FitsBuffers(s.c, x, pkt)
  }

  ghost function DeliverI(s: Setup, w: World, pkt: Bytes, iv: Bytes): World
    requires Deliverable(s, w.i, pkt, iv)
  {
    var o := Process(s.c, w.i, pkt, iv);
    w.(i := o.ctx, toR := w.toR + Sending(o.resp), derivedI := w.derivedI || Derives(pkt))
  }

  ghost function DeliverR(s: Setup, w: World, pkt: Bytes, iv: Bytes): World
    requires Deliverable(s, w.r, pkt, iv)
  {
    var o := Process(s.c, w.r, pkt, iv);
    w.(r := o.ctx, toI := w.toI + Sending(o.resp), derivedR := w.derivedR || Derives(pkt))
  }

  function StartExchange(w: World): World {
    var o := Initiate(w.i);
    w.(i := o.ctx, toR := w.toR + Sending(o.resp))
  }

  /** A data packet that an established side builds with ike_encrypt_data. */
  function DataPacket(s: Setup, x: Ctx, m: Bytes, iv: Bytes): Bytes
    requires |Seal(s.c, x.sa.keys, iv, m)| < 65536
  {
    Packet(Data, x.ckyI, x.ckyR, Seal(s.c, x.sa.keys, iv, m))
  }

  ghost predicate Sends(s: Setup, x: Ctx, m: Bytes, iv: Bytes) {
    x.state == Established && |m| < 1024 && |iv| == AesKeyLen
    && |Seal(s.c, x.sa.keys, iv, m)| < 65536
  }

  datatype Event =
    | InitiateEvent
    | ToInitiator(pkt: Bytes, iv: Bytes)
    | ToResponder(pkt: Bytes, iv: Bytes)
    | InitiatorSends(m: Bytes, iv: Bytes)
    | ResponderSends(m: Bytes, iv: Bytes)

  ghost predicate Next(s: Setup, w: World, e: Event, w': World) {
    match e
    case InitiateEvent => w' == StartExchange(w)
    case ToInitiator(pkt, iv) =>
      pkt in w.toI && Deliverable(s, w.i, pkt, iv) && w' == DeliverI(s, w, pkt, iv)
    case ToResponder(pkt, iv) =>
      pkt in w.toR && Deliverable(s, w.r, pkt, iv) && w' == DeliverR(s, w, pkt, iv)
    case InitiatorSends(m, iv) =>
      Sends(s, w.i, m, iv)
      && w' == w.(toR := w.toR + {DataPacket(s, w.i, m, iv)}, sent := w.sent + {m})
    case ResponderSends(m, iv) =>
      Sends(s, w.r, m, iv)
      && w' == w.(toI := w.toI + {DataPacket(s, w.r, m, iv)}, sent := w.sent + {m})
  }

  ghost predicate Run(s: Setup, ws: seq<World>, es: seq<Event>) {
    s.Valid() && |ws| == |es| + 1 && ws[0] == Start(s)
    && forall k :: 0 <= k < |es| ==> Next(s, ws[k], es[k], ws[k + 1])
  }

  // ---------- the invariant ----------

  /** What has been achieved: it only grows, although the state of a side may fall back. */
  datatype Facts = Facts(gotI: bool, gotR: bool, derivedI: bool, derivedR: bool, sent: set<Bytes>)

  function FactsOf(s: Setup, w: World): Facts {
    Facts(w.r.ckyI == s.ckyI, w.i.ckyR == s.ckyR, w.derivedI, w.derivedR, w.sent)
  }

  predicate Grows(f: Facts, g: Facts) {
    (f.gotI ==> g.gotI) && (f.gotR ==> g.gotR) && (f.derivedI ==> g.derivedI)
    && (f.derivedR ==> g.derivedR) && f.sent <= g.sent
  }

  /** A sealed packet opens under the common keys. */
  ghost predicate SealedOk(s: Setup, f: Facts, pkt: Bytes)
    requires s.Valid() && WellFormed(pkt)
  {
    f.derivedI && f.derivedR
    && Open(s.c, s.CommonKeys(), Payload(pkt)).Some?
    && (pkt[0] == Data ==>
        Open(s.c, s.CommonKeys(), Payload(pkt)).value in f.sent
        && |Open(s.c, s.CommonKeys(), Payload(pkt)).value| < 1024)
  }

  /** No honest packet exceeds the buffers of its receiver. */
  predicate Short(pkt: Bytes)
    requires WellFormed(pkt)
  {
    (pkt[0] == Auth ==> |Payload(pkt)| <= AesKeyLen + 64 + HashLen)
    && (pkt[0] == Data ==> |Payload(pkt)| <= AesKeyLen + 1024 + HashLen)
  }

  /** Packets on their way to the responder. */
  ghost predicate ToROk(s: Setup, f: Facts, pkt: Bytes)
    requires s.Valid()
  {
    WellFormed(pkt) && Short(pkt)
    && ((pkt[0] == SaPropose && HeaderCkyI(pkt) == s.ckyI)
        || (pkt[0] == KeNonce && Payload(pkt) == s.PubI() + s.nonceI && f.gotI && f.gotR)
        || ((pkt[0] == Auth || pkt[0] == Data) && SealedOk(s, f, pkt)))
  }

  /** Packets on their way to the initiator. */
  ghost predicate ToIOk(s: Setup, f: Facts, pkt: Bytes)
    requires s.Valid()
  {
    WellFormed(pkt) && Short(pkt)
    && ((pkt[0] == SaAccept && HeaderCkyR(pkt) == s.ckyR && f.gotI)
        || (pkt[0] == KeNonce && Payload(pkt) == s.PubR() + s.nonceR && f.gotR && f.derivedR)
        || ((pkt[0] == Auth || pkt[0] == Data) && SealedOk(s, f, pkt)))
  }

  ghost predicate InitiatorOk(s: Setup, f: Facts, x: Ctx)
    requires s.Valid()
  {
    x.role == Initiator && Shaped(x) && x.psk == s.psk && x.dhPrivate == s.privI && x.dhPublic == s.PubI()
    && x.ckyI == s.ckyI && x.nonceI == s.nonceI
    && (f.derivedI ==> f.derivedR && f.gotR && x.sa.keys == s.CommonKeys())
    && (x.state == Established ==> f.derivedI)
  }

  ghost predicate ResponderOk(s: Setup, f: Facts, x: Ctx)
    requires s.Valid()
  {
    x.role == Responder && Shaped(x) && x.psk == s.psk && x.dhPrivate == s.privR && x.dhPublic == s.PubR()
    && x.ckyR == s.ckyR && x.nonceR == s.nonceR
    && (f.derivedR ==> f.gotI && f.gotR && x.sa.keys == s.CommonKeys())
    && (x.state == Established ==> f.derivedI && f.derivedR)
  }

  ghost predicate Inv(s: Setup, w: World)
    requires s.Valid()
  {
    var f := FactsOf(s, w);
    InitiatorOk(s, f, w.i) && ResponderOk(s, f, w.r)
    && (forall pkt :: pkt in w.toR ==> ToROk(s, f, pkt))
    && (forall pkt :: pkt in w.toI ==> ToIOk(s, f, pkt))
  }

  lemma OkGrows(s: Setup, f: Facts, g: Facts, pkt: Bytes)
    requires s.Valid() && Grows(f, g)
    ensures ToROk(s, f, pkt) ==> ToROk(s, g, pkt)
    ensures ToIOk(s, f, pkt) ==> ToIOk(s, g, pkt)
  {
    hide Open;
  }

  // ---------- what each side does ----------

  lemma SealedPacketOk(s: Setup, f: Facts, t: Byte, ckyI: Bytes, ckyR: Bytes, iv: Bytes, m: Bytes)
    requires s.Valid() && (t == Auth || t == Data) && |ckyI| == |ckyR| == CookieLen && |iv| == AesKeyLen
    requires f.derivedI && f.derivedR && (t == Auth ==> |m| == 16) && (t == Data ==> |m| < 1024 && m in f.sent)
    ensures |Seal(s.c, s.CommonKeys(), iv, m)| < 65536
    ensures var pkt := Packet(t, ckyI, ckyR, Seal(s.c, s.CommonKeys(), iv, m));
            ToROk(s, f, pkt) && ToIOk(s, f, pkt)
  {
    hide Open, Seal, KeySchedule;
    OpenSeal(s.c, s.CommonKeys(), iv, m);
    PacketParses(t, ckyI, ckyR, Seal(s.c, s.CommonKeys(), iv, m));
  }

  lemma ResponderKeys(s: Setup, x: Ctx)
    requires s.Valid() && x.psk == s.psk && x.nonceI == s.nonceI && x.nonceR == s.nonceR
    requires x.ckyI == s.ckyI && x.ckyR == s.ckyR
    requires x.dhShared == DhPower(s.PubR(), s.privI, Dh14P) || x.dhShared == DhPower(s.PubI(), s.privR, Dh14P)
    ensures Derive(s.c, x).sa.keys == s.CommonKeys()
  {
    hide KeySchedule, DhPower;
    Dh14Odd();
    Commutes(Dh14G, s.privR, s.privI, Dh14P);
  }

  lemma KePayload(pub: DhBytes, nonce: Bytes, payload: Bytes)
    requires payload == pub + nonce && |nonce| == NonceLen
    ensures payload[..DhKeyLen] == pub && payload[DhKeyLen..DhKeyLen + NonceLen] == nonce
  {}

  /** Processing a packet that a responder may see keeps the responder sound, and whatever it
      answers may be seen by the initiator. */
  lemma ResponderStep(s: Setup, f: Facts, x: Ctx, pkt: Bytes, iv: Bytes)
    requires s.Valid() && ResponderOk(s, f, x) && ToROk(s, f, pkt) && Deliverable(s, x, pkt, iv)
    requires f.gotI == (x.ckyI == s.ckyI) && (f.derivedI ==> f.derivedR)
    ensures var o := Process(s.c, x, pkt, iv);
            var g := f.(gotI := o.ctx.ckyI == s.ckyI, derivedR := f.derivedR || Derives(pkt));
            Grows(f, g) && ResponderOk(s, g, o.ctx) && (o.resp != [] ==> ToIOk(s, g, o.resp))
  {
    if pkt[0] == SaPropose {
      ResponderProposed(s, f, x, pkt, iv);
    } else if pkt[0] == KeNonce {
      ResponderKe(s, f, x, pkt, iv);
    } else {
      ResponderSealed(s, f, x, pkt, iv);
    }
  }

  lemma ResponderProposed(s: Setup, f: Facts, x: Ctx, pkt: Bytes, iv: Bytes)
    requires s.Valid() && ResponderOk(s, f, x) && ToROk(s, f, pkt) && Deliverable(s, x, pkt, iv)
    requires pkt[0] == SaPropose && f.gotI == (x.ckyI == s.ckyI)
    ensures var o := Process(s.c, x, pkt, iv);
            var g := f.(gotI := o.ctx.ckyI == s.ckyI);
            Grows(f, g) && ResponderOk(s, g, o.ctx) && ToIOk(s, g, o.resp) && !Derives(pkt)
  {
    hide KeySchedule, DhPower, Open;
    PacketParses(SaAccept, s.ckyI, x.ckyR, Payload(pkt));
  }

  lemma ResponderKe(s: Setup, f: Facts, x: Ctx, pkt: Bytes, iv: Bytes)
    requires s.Valid() && ResponderOk(s, f, x) && ToROk(s, f, pkt) && Deliverable(s, x, pkt, iv)
    requires pkt[0] == KeNonce && f.gotI == (x.ckyI == s.ckyI)
    ensures var o := Process(s.c, x, pkt, iv);
            var g := f.(derivedR := true);
            Derives(pkt) && o.ctx.ckyI == s.ckyI
            && Grows(f, g) && ResponderOk(s, g, o.ctx) && ToIOk(s, g, o.resp)
  {
    hide KeySchedule, DhPower, Open, Seal;
    KePayload(s.PubI(), s.nonceI, Payload(pkt));
    PacketParses(KeNonce, x.ckyI, x.ckyR, x.dhPublic + x.nonceR);
    ResponderKeys(s, x.(nonceI := s.nonceI, dhPeer := s.PubI(), dhShared := DhPower(s.PubI(), s.privR, Dh14P)));
    TakeKeShape(s.c, x, Payload(pkt));
  }

  lemma ResponderSealed(s: Setup, f: Facts, x: Ctx, pkt: Bytes, iv: Bytes)
    requires s.Valid() && ResponderOk(s, f, x) && ToROk(s, f, pkt) && Deliverable(s, x, pkt, iv)
    requires pkt[0] == Auth || pkt[0] == Data
    ensures var o := Process(s.c, x, pkt, iv);
            !Derives(pkt) && o.ctx.ckyI == x.ckyI
            && ResponderOk(s, f, o.ctx) && (o.resp != [] ==> ToIOk(s, f, o.resp))
  {
    hide KeySchedule, DhPower, Open, Seal;
    if pkt[0] == Auth {
      SealedPacketOk(s, f, Auth, x.ckyI, x.ckyR, iv, ResponderAuth);
    } else if x.state == Established {
      SealedPacketOk(s, f, Data, x.ckyI, x.ckyR, iv, Open(s.c, x.sa.keys, Payload(pkt)).value);
    }
  }

  /** The same for the initiator. */
  lemma InitiatorStep(s: Setup, f: Facts, x: Ctx, pkt: Bytes, iv: Bytes)
    requires s.Valid() && InitiatorOk(s, f, x) && ToIOk(s, f, pkt) && Deliverable(s, x, pkt, iv)
    requires f.gotR == (x.ckyR == s.ckyR)
    ensures var o := Process(s.c, x, pkt, iv);
            var g := f.(gotR := o.ctx.ckyR == s.ckyR, derivedI := f.derivedI || Derives(pkt));
            Grows(f, g) && InitiatorOk(s, g, o.ctx) && (o.resp != [] ==> ToROk(s, g, o.resp))
  {
    if pkt[0] == SaAccept {
      InitiatorAccepted(s, f, x, pkt, iv);
    } else if pkt[0] == KeNonce {
      InitiatorKe(s, f, x, pkt, iv);
    } else {
      InitiatorSealed(s, f, x, pkt, iv);
    }
  }

  lemma InitiatorAccepted(s: Setup, f: Facts, x: Ctx, pkt: Bytes, iv: Bytes)
    requires s.Valid() && InitiatorOk(s, f, x) && ToIOk(s, f, pkt) && Deliverable(s, x, pkt, iv)
    requires pkt[0] == SaAccept && f.gotR == (x.ckyR == s.ckyR)
    ensures var o := Process(s.c, x, pkt, iv);
            var g := f.(gotR := o.ctx.ckyR == s.ckyR);
            Grows(f, g) && InitiatorOk(s, g, o.ctx) && !Derives(pkt)
            && (o.resp != [] ==> ToROk(s, g, o.resp))
  {
    hide KeySchedule, DhPower, Open;
    PacketParses(KeNonce, x.ckyI, s.ckyR, x.dhPublic + x.nonceI);
  }

  lemma InitiatorKe(s: Setup, f: Facts, x: Ctx, pkt: Bytes, iv: Bytes)
    requires s.Valid() && InitiatorOk(s, f, x) && ToIOk(s, f, pkt) && Deliverable(s, x, pkt, iv)
    requires pkt[0] == KeNonce && f.gotR == (x.ckyR == s.ckyR)
    ensures var o := Process(s.c, x, pkt, iv);
            var g := f.(derivedI := true);
            Derives(pkt) && o.ctx.ckyR == s.ckyR
            && Grows(f, g) && InitiatorOk(s, g, o.ctx) && ToROk(s, g, o.resp)
  {
    hide KeySchedule, DhPower, Open, Seal;
    KePayload(s.PubR(), s.nonceR, Payload(pkt));
    ResponderKeys(s, x.(nonceR := s.nonceR, dhPeer := s.PubR(), dhShared := DhPower(s.PubR(), s.privI, Dh14P)));
    TakeKeShape(s.c, x, Payload(pkt));
    SealedPacketOk(s, f.(derivedI := true), Auth, x.ckyI, x.ckyR, iv, InitiatorAuth);
  }

  lemma InitiatorSealed(s: Setup, f: Facts, x: Ctx, pkt: Bytes, iv: Bytes)
    requires s.Valid() && InitiatorOk(s, f, x) && ToIOk(s, f, pkt) && Deliverable(s, x, pkt, iv)
    requires pkt[0] == Auth || pkt[0] == Data
    ensures var o := Process(s.c, x, pkt, iv);
            !Derives(pkt) && o.ctx.ckyR == x.ckyR
            && InitiatorOk(s, f, o.ctx) && (o.resp != [] ==> ToROk(s, f, o.resp))
  {
    hide KeySchedule, DhPower, Open, Seal;
    if pkt[0] == Data && x.state == Established {
      SealedPacketOk(s, f, Data, x.ckyI, x.ckyR, iv, Open(s.c, x.sa.keys, Payload(pkt)).value);
    }
  }

  // ---------- every run ----------

  lemma StartOk(s: Setup)
    requires s.Valid()
    ensures Inv(s, Start(s))
  {
    hide KeySchedule, DhPower;
  }

  /** Facts that grow without touching the responder keep it sound, and conversely. */
  lemma OthersKeep(s: Setup, f: Facts, g: Facts, w: World)
    requires s.Valid() && Grows(f, g)
    ensures ResponderOk(s, f, w.r) && f.derivedR == g.derivedR ==> ResponderOk(s, g, w.r)
    ensures InitiatorOk(s, f, w.i) && f.derivedI == g.derivedI ==> InitiatorOk(s, g, w.i)
    ensures (forall pkt :: pkt in w.toR ==> ToROk(s, f, pkt)) ==> forall pkt :: pkt in w.toR ==> ToROk(s, g, pkt)
    ensures (forall pkt :: pkt in w.toI ==> ToIOk(s, f, pkt)) ==> forall pkt :: pkt in w.toI ==> ToIOk(s, g, pkt)
  {
    hide ToROk, ToIOk, Ike.KeySchedule, DhPower;
    forall pkt
      ensures ToROk(s, f, pkt) ==> ToROk(s, g, pkt)
      ensures ToIOk(s, f, pkt) ==> ToIOk(s, g, pkt)
    {
      OkGrows(s, f, g, pkt);
    }
  }

  lemma StepOk(s: Setup, w: World, e: Event, w': World)
    requires s.Valid() && Inv(s, w) && Next(s, w, e, w')
    ensures Inv(s, w') && Grows(FactsOf(s, w), FactsOf(s, w'))
  {
    hide ToROk, ToIOk, KeySchedule, DhPower, Process;
    var f := FactsOf(s, w);
    match e
    case InitiateEvent =>
      ProposalOk(s, f, w.i);
    case ToInitiator(pkt, iv) =>
      InitiatorStep(s, f, w.i, pkt, iv);
      OthersKeep(s, f, FactsOf(s, w'), w);
    case ToResponder(pkt, iv) =>
      ResponderStep(s, f, w.r, pkt, iv);
      OthersKeep(s, f, FactsOf(s, w'), w);
    case InitiatorSends(m, iv) =>
      OthersKeep(s, f, FactsOf(s, w'), w);
      SealedPacketOk(s, FactsOf(s, w'), Data, w.i.ckyI, w.i.ckyR, iv, m);
    case ResponderSends(m, iv) =>
      OthersKeep(s, f, FactsOf(s, w'), w);
      SealedPacketOk(s, FactsOf(s, w'), Data, w.r.ckyI, w.r.ckyR, iv, m);
  }

  lemma ProposalOk(s: Setup, f: Facts, x: Ctx)
    requires s.Valid() && InitiatorOk(s, f, x)
    ensures InitiatorOk(s, f, Initiate(x).ctx) && ToROk(s, f, Initiate(x).resp)
  {
    hide KeySchedule, DhPower, Open;
    PacketParses(SaPropose, x.ckyI, x.ckyR, [0, 0, 0, 1]);
  }

  lemma {:induction false} RunOk(s: Setup, ws: seq<World>, es: seq<Event>, k: nat)
    requires Run(s, ws, es) && k < |ws|
    ensures Inv(s, ws[k])
  {
    hide Inv, Next;
    if k == 0 {
      StartOk(s);
    } else {
      RunOk(s, ws, es, k - 1);
      StepOk(s, ws[k - 1], es[k - 1], ws[k]);
    }
  }

  // ---------- main results ----------

  /** Key agreement: at every point of every run, sides that have derived keys hold the same
      keys, those of the schedule of RFC 2409 over the values both drew. */
  lemma KeysAgree(s: Setup, ws: seq<World>, es: seq<Event>, k: nat)
    requires Run(s, ws, es) && k < |ws|
    ensures ws[k].derivedI ==> ws[k].i.sa.keys == s.CommonKeys() && ws[k].derivedR
    ensures ws[k].derivedR ==> ws[k].r.sa.keys == s.CommonKeys()
    ensures ws[k].derivedI && ws[k].derivedR ==> ws[k].i.sa.keys == ws[k].r.sa.keys
  {
    hide Run, KeySchedule, DhPower;
    RunOk(s, ws, es, k);
  }

  /** A side is established only if both have derived keys, and then they are the same. */
  lemma EstablishedMeansAgreed(s: Setup, ws: seq<World>, es: seq<Event>, k: nat)
    requires Run(s, ws, es) && k < |ws|
    requires ws[k].i.state == Established || ws[k].r.state == Established
    ensures ws[k].derivedI && ws[k].derivedR
    ensures ws[k].i.sa.keys == ws[k].r.sa.keys == s.CommonKeys()
  {
    hide Run, KeySchedule, DhPower;
    RunOk(s, ws, es, k);
  }

  /** Whatever an established side decrypts from the network was sent by one of the two. */
  lemma DataIsAuthentic(s: Setup, ws: seq<World>, es: seq<Event>, k: nat, x: Ctx, pkt: Bytes)
    requires Run(s, ws, es) && k < |ws|
    requires (x == ws[k].i && pkt in ws[k].toI) || (x == ws[k].r && pkt in ws[k].toR)
    requires x.state == Established && WellFormed(pkt) && pkt[0] == Data
    ensures Open(s.c, x.sa.keys, Payload(pkt)).Some?
    ensures Open(s.c, x.sa.keys, Payload(pkt)).value in ws[k].sent
  {
    hide Run, KeySchedule, DhPower, Open;
    RunOk(s, ws, es, k);
  }

  /** What throws an established initiator back: starting anew, or a complete key exchange
      message. */
  predicate SetsBackI(e: Event) {
    e.InitiateEvent? || (e.ToInitiator? && Derives(e.pkt))
  }

  /** What throws an established responder back: a proposal. */
  predicate SetsBackR(e: Event) {
    e.ToResponder? && |e.pkt| >= HeaderLen && e.pkt[0] == SaPropose
  }

  /** Progress is not monotone: in every run the established sides fall back exactly at those
      events. Starting anew and proposals leave the keys alone. */
  lemma EstablishedIsLost(s: Setup, ws: seq<World>, es: seq<Event>, k: nat)
    requires Run(s, ws, es) && k < |es|
    ensures ws[k].i.state == Established ==> (ws[k + 1].i.state != Established <==> SetsBackI(es[k]))
    ensures ws[k].r.state == Established ==> (ws[k + 1].r.state != Established <==> SetsBackR(es[k]))
    ensures es[k].InitiateEvent? ==> ws[k + 1].i.sa == ws[k].i.sa
    ensures SetsBackR(es[k]) ==> ws[k + 1].r.sa == ws[k].r.sa
  {
    hide Run, Process, Inv;
    RunNext(s, ws, es, k);
    RunOk(s, ws, es, k);
    InvRoles(s, ws[k]);
    match es[k]
    case ToInitiator(pkt, iv) => InitiatorState(s.c, ws[k].i, pkt, iv);
    case ToResponder(pkt, iv) => ResponderState(s.c, ws[k].r, pkt, iv);
    case _ =>
  }

  lemma RunLength(s: Setup, ws: seq<World>, es: seq<Event>)
    requires Run(s, ws, es)
    ensures |ws| == |es| + 1
  {}

  lemma RunNext(s: Setup, ws: seq<World>, es: seq<Event>, k: nat)
    requires Run(s, ws, es) && k < |es|
    ensures s.Valid() && |ws| == |es| + 1 && Next(s, ws[k], es[k], ws[k + 1])
  {}

  lemma InvRoles(s: Setup, w: World)
    requires s.Valid() && Inv(s, w)
    ensures w.i.role == Initiator && w.r.role == Responder
  {
    hide KeySchedule, DhPower;
  }

  lemma InitiatorState(c: Crypto, x: Ctx, pkt: Bytes, iv: Bytes)
    requires Sound(c) && Shaped(x) && |iv| == AesKeyLen && WellFormed(pkt) && FitsBuffers(c, x, pkt)
    requires x.role == Initiator
    ensures x.state == Established ==> (Process(c, x, pkt, iv).ctx.state != Established <==> Derives(pkt))
  {
    hide KeySchedule, DhPower, Open, Seal;
  }

  lemma ResponderState(c: Crypto, x: Ctx, pkt: Bytes, iv: Bytes)
    requires Sound(c) && Shaped(x) && |iv| == AesKeyLen && WellFormed(pkt) && FitsBuffers(c, x, pkt)
    requires x.role == Responder
    ensures x.state == Established ==>
      (Process(c, x, pkt, iv).ctx.state != Established <==> pkt[0] == SaPropose)
    ensures pkt[0] == SaPropose ==>
      Process(c, x, pkt, iv).ctx.state == SaAgreed && Process(c, x, pkt, iv).ctx.sa == x.sa
  {
    hide KeySchedule, DhPower, Open, Seal;
  }

  // ---------- a run that completes ----------

  /** The kind of message that is answered with kind t, by whom and from which state. */
  lemma ResponderAnswers(s: Setup, w: World, pkt: Bytes, iv: Bytes)
    requires s.Valid() && Inv(s, w) && pkt in w.toR && |iv| == AesKeyLen && pkt[0] != Data
    ensures Deliverable(s, w.r, pkt, iv)
    ensures var o := Process(s.c, w.r, pkt, iv);
            o.resp in DeliverR(s, w, pkt, iv).toI && |o.resp| >= HeaderLen
            && o.resp[0] == (if pkt[0] == SaPropose then SaAccept else pkt[0])
            && (pkt[0] == Auth ==> o.ctx.state == Established)
            && DeliverR(s, w, pkt, iv).i == w.i
  {
    hide KeySchedule, DhPower, Open, Seal, Sound;
  }

  lemma InitiatorAnswers(s: Setup, w: World, pkt: Bytes, iv: Bytes)
    requires s.Valid() && Inv(s, w) && pkt in w.toI && |iv| == AesKeyLen && pkt[0] != Data
    requires pkt[0] == SaAccept ==> w.i.state == SaInit
    ensures Deliverable(s, w.i, pkt, iv)
    ensures var o := Process(s.c, w.i, pkt, iv);
            (pkt[0] != Auth ==> o.resp in DeliverI(s, w, pkt, iv).toR && |o.resp| >= HeaderLen
                                && o.resp[0] == (if pkt[0] == SaAccept then KeNonce else Auth))
            && (pkt[0] == Auth ==> o.ctx.state == Established)
            && DeliverI(s, w, pkt, iv).r == w.r
  {
    hide KeySchedule, DhPower, Open, Seal, Sound;
  }

  /** Deliver one packet to the responder at the end of a run. */
  lemma ExtendToResponder(s: Setup, ws: seq<World>, es: seq<Event>, pkt: Bytes, iv: Bytes)
    returns (ws': seq<World>, es': seq<Event>, resp: Bytes)
    requires Run(s, ws, es) && |iv| == AesKeyLen && pkt in ws[|es|].toR && |pkt| > 0 && pkt[0] != Data
    ensures Run(s, ws', es') && |es'| == |es| + 1 && resp in ws'[|es'|].toI && |resp| > 0
    ensures |es| > 0 ==> ws'[1] == ws[1]
    ensures resp[0] == if pkt[0] == SaPropose then SaAccept else pkt[0]
    ensures ws'[|es'|].i == ws[|es|].i && (pkt[0] == Auth ==> ws'[|es'|].r.state == Established)
  {
    hide Inv, Process;
    var w := ws[|es|];
    RunOk(s, ws, es, |es|);
    ResponderAnswers(s, w, pkt, iv);
    ws', es' := ws + [DeliverR(s, w, pkt, iv)], es + [ToResponder(pkt, iv)];
    resp := Process(s.c, w.r, pkt, iv).resp;
    Extended(s, ws, es, ToResponder(pkt, iv), DeliverR(s, w, pkt, iv));
  }

  lemma ExtendToInitiator(s: Setup, ws: seq<World>, es: seq<Event>, pkt: Bytes, iv: Bytes)
    returns (ws': seq<World>, es': seq<Event>, resp: Bytes)
    requires Run(s, ws, es) && |iv| == AesKeyLen && pkt in ws[|es|].toI && |pkt| > 0 && pkt[0] != Data
    requires pkt[0] == SaAccept ==> ws[|es|].i.state == SaInit
    ensures Run(s, ws', es') && |es'| == |es| + 1 && (|es| > 0 ==> ws'[1] == ws[1])
    ensures pkt[0] != Auth ==> resp in ws'[|es'|].toR && |resp| > 0
    ensures pkt[0] != Auth ==> resp[0] == if pkt[0] == SaAccept then KeNonce else Auth
    ensures ws'[|es'|].r == ws[|es|].r && (pkt[0] == Auth ==> ws'[|es'|].i.state == Established)
  {
    hide Inv, Process;
    var w := ws[|es|];
    RunOk(s, ws, es, |es|);
    InitiatorAnswers(s, w, pkt, iv);
    ws', es' := ws + [DeliverI(s, w, pkt, iv)], es + [ToInitiator(pkt, iv)];
    resp := Process(s.c, w.i, pkt, iv).resp;
    Extended(s, ws, es, ToInitiator(pkt, iv), DeliverI(s, w, pkt, iv));
  }

  lemma Extended(s: Setup, ws: seq<World>, es: seq<Event>, e: Event, w: World)
    requires Run(s, ws, es) && Next(s, ws[|es|], e, w)
    ensures Run(s, ws + [w], es + [e])
  {
    hide Next;
    var ws', es' := ws + [w], es + [e];
    forall k | 0 <= k < |es'| ensures Next(s, ws'[k], es'[k], ws'[k + 1]) {
      if k < |es| { assert Next(s, ws[k], es[k], ws[k + 1]); }
    }
  }

  /** With nothing lost, seven events lead from the start to two established sides. */
  lemma HandshakeCompletes(s: Setup, iv: Bytes) returns (ws: seq<World>, es: seq<Event>)
    requires s.Valid() && |iv| == AesKeyLen
    ensures Run(s, ws, es) && |es| == 7
    ensures ws[7].i.state == Established && ws[7].r.state == Established
    ensures ws[1] == StartExchange(Start(s))
  {
    hide Inv, Process, KeySchedule, DhPower, Run;
    var w0 := Start(s);
    assert Run(s, [w0], []) by { NoEvents(s); }
    var propose := Initiate(w0.i).resp;
    Extended(s, [w0], [], InitiateEvent, StartExchange(w0));
    ws, es := [w0] + [StartExchange(w0)], [] + [InitiateEvent];
    var pkt;
    ws, es, pkt := ExtendToResponder(s, ws, es, propose, iv);
    ws, es, pkt := ExtendToInitiator(s, ws, es, pkt, iv);
    ws, es, pkt := ExtendToResponder(s, ws, es, pkt, iv);
    ws, es, pkt := ExtendToInitiator(s, ws, es, pkt, iv);
    ws, es, pkt := ExtendToResponder(s, ws, es, pkt, iv);
    ws, es, pkt := ExtendToInitiator(s, ws, es, pkt, iv);
  }

  lemma NoEvents(s: Setup)
    requires s.Valid()
    ensures Run(s, [Start(s)], [])
  {}

  /** A packet stays on the network. */
  lemma {:induction false} StaysInFlight(s: Setup, ws: seq<World>, es: seq<Event>, j: nat, k: nat, pkt: Bytes)
    requires Run(s, ws, es) && j <= k < |ws| && pkt in ws[j].toR
    ensures pkt in ws[k].toR
    decreases k - j
  {
    hide Process, Run;
    RunLength(s, ws, es);
    if j < k {
      RunNext(s, ws, es, j);
      StaysInFlight(s, ws, es, j + 1, k, pkt);
    }
  }

  /** And then the proposal, delivered once more, parts the two: the responder is back at the start
      of the exchange, the initiator still established. */
  lemma ReplaySetsBack(s: Setup, iv: Bytes) returns (ws: seq<World>, es: seq<Event>)
    requires s.Valid() && |iv| == AesKeyLen
    ensures Run(s, ws, es) && |es| == 8
    ensures ws[7].i.state == Established && ws[7].r.state == Established
    ensures ws[8].i.state == Established && ws[8].r.state == SaAgreed
  {
    hide Inv, Process, KeySchedule, DhPower, Run;
    ws, es := HandshakeCompletes(s, iv);
    var propose := Initiate(Start(s).i).resp;
    RunNext(s, ws, es, 0);
    StaysInFlight(s, ws, es, 1, 7, propose);
    RunOk(s, ws, es, 7);
    InvRoles(s, ws[7]);
    PacketParses(SaPropose, s.ckyI, Start(s).i.ckyR, [0, 0, 0, 1]);
    ResponderAnswers(s, ws[7], propose, iv);
    ResponderState(s.c, ws[7].r, propose, iv);
    var w := DeliverR(s, ws[7], propose, iv);
    Extended(s, ws, es, ToResponder(propose, iv), w);
    ws, es := ws + [w], es + [ToResponder(propose, iv)];
  }
}
