/**
 * One sender's frames on their way to one receiver (`r2n-dataplane`): framing and sealing,
 * a network that may lose, repeat, reorder, relay or make up datagrams, and acceptance.
 */
module Delivery {
  import opened Bytes
  import opened Header
  import opened Common
  import opened Finite
  import R = ReplayWindow
  import F = FloodCache
  import Relay

  const TAG_LEN: nat := 16
  const MAX_PAYLOAD: nat := Relay.FRAME_CAP - HEADER_SIZE - TAG_LEN
  const FLOOD_TTL: u8 := 1

  /** An authenticated cipher under one key: nonce, associated data, and the text. */
  datatype Aead = Aead(
    seal: (u64, seq<u8>, seq<u8>) -> seq<u8>,
    open: (u64, seq<u8>, seq<u8>) -> Option<seq<u8>>)

  /** Opening what was sealed gives the plaintext back; sealing adds a 16-byte tag. */
  ghost predicate Correct(c: Option<Aead>) {
    c.Some? ==>
      forall n: u64, a: seq<u8>, p: seq<u8> ::
        |c.value.seal(n, a, p)| == |p| + TAG_LEN && c.value.open(n, a, c.value.seal(n, a, p)) == Some(p)
  }

  /** Before a key is agreed there is no cipher, and packets go out as they are. */
  function Overhead(c: Option<Aead>): (n: nat) {
    if c.Some? then TAG_LEN else 0
  }

  // ---------- Sending ----------

  /** The sending edge: its node, its room, and the peer it sends to. */
  datatype Sender = Sender(
    local: NodeId, room: Option<RoomId>, peer: NodeId, session: u64, nextNonce: u64, nextPacketId: u64)

  datatype Order = Order(packetType: PacketType, payload: seq<u8>, flood: bool)

  predicate Sendable(s: Sender, o: Order) {
    |o.payload| <= MAX_PAYLOAD && s.room.Some?
  }

  /** The header `send_to_peer` builds; it is both the associated data and the wire header. */
  function HeaderFor(c: Option<Aead>, s: Sender, o: Order): (h: DataHeader)
    requires Sendable(s, o)
  {
    DataHeader(PROTOCOL_VERSION, 0, o.packetType, 0, if o.flood then FLOOD_TTL else 0,
               s.room.value, s.local, s.peer, s.local, s.session, s.nextNonce,
               if o.flood then s.nextPacketId else 0, |o.payload| + Overhead(c))
  }

  function Increment(n: u64): (r: u64) {
    (n + 1) % 0x1_0000_0000_0000_0000
  }

  function AfterSend(s: Sender, o: Order): (r: Sender) {
    s.(nextNonce := Increment(s.nextNonce),
       nextPacketId := if o.flood then Increment(s.nextPacketId) else s.nextPacketId)
  }

  function Sealed(c: Option<Aead>, h: DataHeader, payload: seq<u8>): (ct: seq<u8>) {
    if c.Some? then c.value.seal(h.nonce, Encode(h), payload) else payload
  }

  function Frame(c: Option<Aead>, h: DataHeader, payload: seq<u8>): (f: seq<u8>) {
    Encode(h) + Sealed(c, h, payload)
  }

  // ---------- Receiving ----------

  datatype Receiver = Receiver(local: NodeId, room: Option<RoomId>, peer: NodeId, window: R.Window, cache: seq<F.Entry>)

  predicate IsFlood(h: DataHeader) {
    match h.packetType
    case Broadcast => true
    case Multicast => true
    case Ethernet => h.ttl > 0
    case _ => false
  }

  /** The part of `validate_incoming_header` that needs no cache. */
  predicate Addressed(r: Receiver, h: DataHeader) {
    && r.room == Some(h.roomId) && h.version == PROTOCOL_VERSION
    && h.srcNode != r.local && h.originNode != r.local
    && (if IsFlood(h) then h.ttl != 0 && h.packetId != 0 else h.dstNode == r.local)
  }

  function FloodKey(h: DataHeader): (k: F.Key) {
    (h.originNode, h.packetId)
  }

  /** The receiver with its flood cache consulted, and the verdict on the header. */
  function Validate(r: Receiver, h: DataHeader, now: nat): (v: (Receiver, bool)) {
    if !Addressed(r, h) then (r, false)
    else if IsFlood(h) then
      var (cache, isNew) := F.Insert(r.cache, FloodKey(h), now);
      (r.(cache := cache), isNew)
    else (r, true)
  }

  /** `decrypt_in_place`: replay check, length check, authentication, window update. */
  function Decrypt(aead: Aead, r: Receiver, h: DataHeader, ct: seq<u8>): (v: (Receiver, Option<seq<u8>>)) {
    if !R.Passes(r.window, h.nonce) || |ct| < TAG_LEN then (r, None)
    else
      match aead.open(h.nonce, Encode(h), ct)
      case None => (r, None)
      case Some(p) => (r.(window := R.Advance(r.window, h.nonce)), Some(p))
  }

  /** `handle_incoming_frame`, up to the decrypted packet. */
  function Handle(c: Option<Aead>, r: Receiver, h: DataHeader, ct: seq<u8>, now: nat)
    : (v: (Receiver, Option<seq<u8>>))
  {
    var (r', valid) := Validate(r, h, now);
    if !valid || h.srcNode != r.peer then (r', None)
    else if c.None? then (r', Some(ct))
    else Decrypt(c.value, r', h, ct)
  }

  // ---------- Runs ----------

  datatype Message = Message(header: DataHeader, payload: seq<u8>)

  /** A delivered message, when it came, and how many floods had been accepted by then, itself included. */
  datatype Receipt = Receipt(message: Message, at: nat, seen: nat)

  /**
   * Both directions share the cipher: `back` is the receiver's own sending side. `floods` are the
   * flood headers looked up in the cache, `accepted` those that were found to be new.
   */
  datatype State = State(
    sender: Sender, receiver: Receiver, back: Sender,
    sent: seq<Message>, replied: seq<Message>, delivered: seq<Receipt>,
    floods: seq<F.Call>, accepted: seq<F.Entry>)

  datatype Step = Send(order: Order) | Reply(order: Order) | Arrive(datagram: seq<u8>, now: nat)

  function IncomingData(d: seq<u8>): (m: Option<Message>) {
    match RecvPacket(d)
    case Ok(Data(h, ct)) => Some(Message(h, ct))
    case _ => None
  }

  /** The ciphertext was produced by one of these sends. */
  ghost predicate Produced(aead: Aead, sent: seq<Message>, h: DataHeader, ct: seq<u8>) {
    exists i :: 0 <= i < |sent| && h.nonce == sent[i].header.nonce
                && Encode(h) == Encode(sent[i].header) && ct == Sealed(Some(aead), sent[i].header, sent[i].payload)
  }

  /** The ciphertext opens only if one of the two ends sealed it. */
  ghost predicate Unforged(c: Option<Aead>, s: State, h: DataHeader, ct: seq<u8>) {
    c.Some? && c.value.open(h.nonce, Encode(h), ct).Some? ==> Produced(c.value, s.sent + s.replied, h, ct)
  }

  /** Any datagram may arrive at any time, except one that would open without having been sealed. */
  ghost predicate Enabled(c: Option<Aead>, s: State, step: Step) {
    match step
    case Send(o) => true
    case Reply(o) => true
    case Arrive(d, now) =>
      && F.Latest(s.floods) <= now
      && var m := IncomingData(d);
         m.Some? ==> Unforged(c, s, m.value.header, m.value.payload)
  }

  function ApplySend(c: Option<Aead>, s: State, o: Order): (r: State) {
    if !Sendable(s.sender, o) then s
    else s.(sender := AfterSend(s.sender, o), sent := s.sent + [Message(HeaderFor(c, s.sender, o), o.payload)])
  }

  function ApplyReply(c: Option<Aead>, s: State, o: Order): (r: State) {
    if !Sendable(s.back, o) then s
    else s.(back := AfterSend(s.back, o), replied := s.replied + [Message(HeaderFor(c, s.back, o), o.payload)])
  }

  /** The floods accepted once the header has been validated. */
  function Accepted(s: State, h: DataHeader, now: nat): (log: seq<F.Entry>) {
    if IsFlood(h) && Validate(s.receiver, h, now).1 then s.accepted + [F.Entry(FloodKey(h), now)] else s.accepted
  }

  function ApplyArrive(c: Option<Aead>, s: State, h: DataHeader, ct: seq<u8>, now: nat): (r: State) {
    var (receiver, packet) := Handle(c, s.receiver, h, ct, now);
    var accepted := Accepted(s, h, now);
    s.(receiver := receiver,
       delivered := if packet.None? then s.delivered
                    else s.delivered + [Receipt(Message(h, packet.value), now, |accepted|)],
       floods := if Addressed(s.receiver, h) && IsFlood(h) then s.floods + [F.Call(FloodKey(h), now)] else s.floods,
       accepted := accepted)
  }

  function Apply(c: Option<Aead>, s: State, step: Step): (r: State) {
    match step
    case Send(o) => ApplySend(c, s, o)
    case Reply(o) => ApplyReply(c, s, o)
    case Arrive(d, now) =>
      var m := IncomingData(d);
      if m.None? then s else ApplyArrive(c, s, m.value.header, m.value.payload, now)
  }

  predicate Start(s: State) {
    && s.sent == [] && s.replied == [] && s.delivered == [] && s.floods == [] && s.accepted == []
    && s.receiver.window == R.Fresh() && s.receiver.cache == [] && s.back.local == s.receiver.local
  }

  /** A run from `first` through `steps` that ends in `last`. */
  ghost predicate Leads(c: Option<Aead>, first: State, steps: seq<Step>, last: State)
    decreases |steps|
  {
    if steps == [] then last == first
    else Enabled(c, first, steps[0]) && Leads(c, Apply(c, first, steps[0]), steps[1..], last)
  }

  // ---------- Safety ----------

  function Nonces(rs: seq<Receipt>): (s: seq<u64>)
    ensures |s| == |rs|
  {
    seq(|rs|, i requires 0 <= i < |rs| => rs[i].message.header.nonce)
  }

  /** The header names this receiver's room and peer, and this receiver unless it is a flood. */
  predicate Meant(r: Receiver, h: DataHeader) {
    r.room == Some(h.roomId) && h.srcNode == r.peer && (h.dstNode == r.local || IsFlood(h))
  }

  /** Each delivered message was sent, unchanged and meant for here; no nonce was delivered twice. */
  ghost predicate Authentic(s: State) {
    && (forall i :: 0 <= i < |s.delivered| ==>
          s.delivered[i].message in s.sent && Meant(s.receiver, s.delivered[i].message.header))
    && Distinct(Nonces(s.delivered))
  }

  /** Two deliveries of one flood are more than 30 s or at least 4096 accepted floods apart. */
  ghost predicate SpacedDeliveries(rs: seq<Receipt>) {
    forall i, j :: 0 <= i < j < |rs| && SameFlood(rs[i].message.header, rs[j].message.header) ==>
      rs[j].at > rs[i].at + F.WINDOW || rs[j].seen - rs[i].seen >= F.CAPACITY
  }

  predicate SameFlood(g: DataHeader, h: DataHeader) {
    IsFlood(g) && IsFlood(h) && FloodKey(g) == FloodKey(h)
  }

  /** Each delivered flood is an accepted one of its own, in order. */
  ghost predicate Logged(rs: seq<Receipt>, accepted: seq<F.Entry>) {
    && (forall i :: 0 <= i < |rs| && IsFlood(rs[i].message.header) ==>
          && 1 <= rs[i].seen <= |accepted|
          && accepted[rs[i].seen - 1] == F.Entry(FloodKey(rs[i].message.header), rs[i].at))
    && (forall i, j :: 0 <= i < j < |rs| && IsFlood(rs[i].message.header) && IsFlood(rs[j].message.header) ==>
          rs[i].seen < rs[j].seen)
  }

  /** What either end sent has the protocol's version; the receiver's own frames say so. */
  ghost predicate Labelled(s: State) {
    && (forall i :: 0 <= i < |s.sent| ==> s.sent[i].header.version == PROTOCOL_VERSION)
    && (forall i :: 0 <= i < |s.replied| ==>
          s.replied[i].header.version == PROTOCOL_VERSION && s.replied[i].header.srcNode == s.receiver.local)
    && s.back.local == s.receiver.local
  }

  /** The cache and the log of accepted floods are those that the lookups so far produce. */
  ghost predicate FloodsFollow(s: State) {
    F.Monotone(s.floods) && F.Run(s.floods) == F.State(s.receiver.cache, s.accepted)
  }

  ghost predicate Inv(c: Option<Aead>, s: State) {
    && (c.Some? ==> Authentic(s) && R.Remembers(R.State(s.receiver.window, Nonces(s.delivered))))
    && Labelled(s) && FloodsFollow(s) && Logged(s.delivered, s.accepted)
  }

  lemma EncodeInjective(g: DataHeader, h: DataHeader)
    requires g.version == PROTOCOL_VERSION && h.version == PROTOCOL_VERSION && Encode(g) == Encode(h)
    ensures g == h
  {
    DecodeEncode(g, []);
    DecodeEncode(h, []);
  }

  /** What opens is the plaintext that was sealed under the same header. */
  lemma OpenedWasSent(aead: Aead, sent: seq<Message>, h: DataHeader, ct: seq<u8>)
    requires Correct(Some(aead)) && Produced(aead, sent, h, ct) && h.version == PROTOCOL_VERSION
    requires forall i :: 0 <= i < |sent| ==> sent[i].header.version == PROTOCOL_VERSION
    ensures var p := aead.open(h.nonce, Encode(h), ct); p.Some? && Message(h, p.value) in sent
  {
    var i :| 0 <= i < |sent| && h.nonce == sent[i].header.nonce
             && Encode(h) == Encode(sent[i].header) && ct == Sealed(Some(aead), sent[i].header, sent[i].payload);
    EncodeInjective(h, sent[i].header);
    assert aead.open(h.nonce, Encode(h), ct) == Some(sent[i].payload);
  }

  /** A frame that opens and does not claim to come from the receiver itself is the sender's. */
  lemma OpenedWasSenders(aead: Aead, s: State, h: DataHeader, ct: seq<u8>)
    requires Correct(Some(aead)) && Labelled(s) && Produced(aead, s.sent + s.replied, h, ct)
    requires h.version == PROTOCOL_VERSION && h.srcNode != s.receiver.local
    ensures var p := aead.open(h.nonce, Encode(h), ct); p.Some? && Message(h, p.value) in s.sent
  {
    OpenedWasSent(aead, s.sent + s.replied, h, ct);
  }

  lemma NoncesAppend(rs: seq<Receipt>, r: Receipt)
    ensures Nonces(rs + [r]) == Nonces(rs) + [r.message.header.nonce]
  {
  }

  lemma LookupsAppend(floods: seq<F.Call>, call: F.Call)
    requires F.Monotone(floods) && F.Latest(floods) <= call.now
    ensures F.Monotone(floods + [call])
    ensures F.Run(floods + [call]) == F.Step(F.Run(floods), call)
  {
    assert (floods + [call])[..|floods|] == floods;
  }

  /** The receiver's verdicts on floods are those of the cache over all lookups so far. */
  lemma ArriveFollows(c: Option<Aead>, s: State, h: DataHeader, ct: seq<u8>, now: nat)
    requires FloodsFollow(s) && F.Latest(s.floods) <= now
    ensures FloodsFollow(ApplyArrive(c, s, h, ct, now))
  {
    LookupsAppend(s.floods, F.Call(FloodKey(h), now));
  }

  lemma ArriveLogged(c: Option<Aead>, s: State, h: DataHeader, ct: seq<u8>, now: nat)
    requires Logged(s.delivered, s.accepted)
    ensures var r := ApplyArrive(c, s, h, ct, now); Logged(r.delivered, r.accepted)
  {
    var r, accepted := ApplyArrive(c, s, h, ct, now), Accepted(s, h, now);
    LoggedLater(s.delivered, s.accepted, accepted);
    if r.delivered != s.delivered {
      LoggedAppend(s.delivered, accepted, r.delivered[|s.delivered|]);
    }
  }

  lemma LoggedLater(rs: seq<Receipt>, accepted: seq<F.Entry>, longer: seq<F.Entry>)
    requires Logged(rs, accepted) && accepted <= longer
    ensures Logged(rs, longer)
  {
  }

  /** A receipt numbered after all floods so far, whose flood is the last accepted one. */
  lemma LoggedAppend(rs: seq<Receipt>, accepted: seq<F.Entry>, r: Receipt)
    requires Logged(rs, accepted) && r.seen == |accepted|
    requires IsFlood(r.message.header) ==>
               && accepted != [] && accepted[|accepted| - 1] == F.Entry(FloodKey(r.message.header), r.at)
               && Logged(rs, accepted[..|accepted| - 1])
    ensures Logged(rs + [r], accepted)
  {
  }

  lemma ArriveDelivers(aead: Aead, s: State, h: DataHeader, ct: seq<u8>, now: nat)
    requires Correct(Some(aead)) && Inv(Some(aead), s) && Unforged(Some(aead), s, h, ct)
    ensures var r := ApplyArrive(Some(aead), s, h, ct, now);
            Authentic(r) && R.Remembers(R.State(r.receiver.window, Nonces(r.delivered)))
  {
    var r := ApplyArrive(Some(aead), s, h, ct, now);
    if r.delivered != s.delivered {
      OpenedWasSenders(aead, s, h, ct);
      var m := r.delivered[|s.delivered|];
      NoncesAppend(s.delivered, m);
      R.DecryptKeeps(R.State(s.receiver.window, Nonces(s.delivered)), R.Attempt(h.nonce, true));
    }
  }

  lemma ArriveInv(c: Option<Aead>, s: State, h: DataHeader, ct: seq<u8>, now: nat)
    requires Correct(c) && Inv(c, s) && F.Latest(s.floods) <= now && Unforged(c, s, h, ct)
    ensures Inv(c, ApplyArrive(c, s, h, ct, now))
  {
    ArriveFollows(c, s, h, ct, now);
    ArriveLogged(c, s, h, ct, now);
    ArriveLabelled(c, s, h, ct, now);
    if c.Some? {
      ArriveDelivers(c.value, s, h, ct, now);
    }
  }

  lemma ArriveLabelled(c: Option<Aead>, s: State, h: DataHeader, ct: seq<u8>, now: nat)
    requires Labelled(s)
    ensures Labelled(ApplyArrive(c, s, h, ct, now))
  {
  }

  /** Sending from either end adds to what was sent and leaves the receiver alone. */
  lemma SendInv(c: Option<Aead>, s: State, o: Order)
    requires Inv(c, s)
    ensures Inv(c, ApplySend(c, s, o)) && Inv(c, ApplyReply(c, s, o))
  {
    assert forall m, ms: seq<Message> :: m in s.sent ==> m in s.sent + ms;
  }

  lemma StepInv(c: Option<Aead>, s: State, step: Step)
    requires Correct(c) && Inv(c, s) && Enabled(c, s, step)
    ensures Inv(c, Apply(c, s, step))
  {
    match step
    case Send(o) => SendInv(c, s, o);
    case Reply(o) => SendInv(c, s, o);
    case Arrive(d, now) =>
      var m := IncomingData(d);
      if m.Some? {
        ArriveInv(c, s, m.value.header, m.value.payload, now);
      }
  }

  lemma {:induction false} RunInv(c: Option<Aead>, first: State, steps: seq<Step>, last: State)
    requires Correct(c) && Inv(c, first) && Leads(c, first, steps, last)
    ensures Inv(c, last)
    decreases |steps|
  {
    if steps != [] {
      StepInv(c, first, steps[0]);
      RunInv(c, Apply(c, first, steps[0]), steps[1..], last);
    }
  }

  lemma SpacedLog(rs: seq<Receipt>, accepted: seq<F.Entry>)
    requires Logged(rs, accepted) && F.SpacedOut(accepted)
    ensures SpacedDeliveries(rs)
  {
    forall i, j | 0 <= i < j < |rs| && SameFlood(rs[i].message.header, rs[j].message.header)
      ensures rs[j].at > rs[i].at + F.WINDOW || rs[j].seen - rs[i].seen >= F.CAPACITY
    {
      assert accepted[rs[i].seen - 1].key == accepted[rs[j].seen - 1].key;
    }
  }

  /**
   * End to end: however the network loses, repeats, reorders, reflects or invents datagrams,
   * accepted floods and delivered floods of one key are spaced out; and under a cipher every
   * delivered packet is one the sender sent, with its header and payload unchanged, and no
   * nonce is delivered twice.
   */
  lemma EndToEnd(c: Option<Aead>, first: State, steps: seq<Step>, last: State)
    requires Correct(c) && Start(first) && Leads(c, first, steps, last)
    ensures c.Some? ==> Authentic(last)
    ensures F.SpacedOut(last.accepted) && SpacedDeliveries(last.delivered)
  {
    RunInv(c, first, steps, last);
    F.RunSpacedOut(last.floods);
    SpacedLog(last.delivered, last.accepted);
  }

  /** Without a cipher whatever is addressed here is delivered as it is, sent or not, and each time. */
  lemma PlaintextIsUnchecked(s: State, h: DataHeader, payload: seq<u8>, now: nat)
    requires h.version == PROTOCOL_VERSION && |payload| == h.payloadLen
    requires Addressed(s.receiver, h) && !IsFlood(h) && h.srcNode == s.receiver.peer
    ensures Apply(None, s, Arrive(Encode(h) + payload, now)) ==
            s.(delivered := s.delivered + [Receipt(Message(h, payload), now, |s.accepted|)])
  {
    RecvEncoded(h, payload);
  }

  // ---------- Every frame gets through ----------

  /** The two ends are set up for each other: same room, and each is the other's peer. */
  predicate Paired(s: Sender, r: Receiver) {
    s.room.Some? && r.room == s.room && s.peer == r.local && r.peer == s.local && s.local != r.local
  }

  /** A built frame fits a slot, passes the relay and the receiver's framing checks unchanged. */
  lemma FrameSurvivesTransport(c: Option<Aead>, s: Sender, o: Order)
    requires Correct(c) && Sendable(s, o)
    ensures var h := HeaderFor(c, s, o); var f := Frame(c, h, o.payload);
            && |f| <= Relay.FRAME_CAP
            && RecvPacket(f) == Ok(Data(h, Sealed(c, h, o.payload)))
            && Relay.IsData(f) && Relay.Fits(f)
  {
    var h := HeaderFor(c, s, o);
    assert |Sealed(c, h, o.payload)| == |o.payload| + Overhead(c);
    RecvEncoded(h, Sealed(c, h, o.payload));
  }

  /**
   * Unless the header is a flood duplicate (or a flood without an identifier) or the window of a
   * cipher has ruled its nonce out, the payload is delivered as it was sent.
   */
  lemma FrameIsDelivered(c: Option<Aead>, s: State, o: Order, now: nat)
    requires Correct(c) && Sendable(s.sender, o) && Paired(s.sender, s.receiver)
    ensures var h := HeaderFor(c, s.sender, o);
            var r := Apply(c, s, Arrive(Frame(c, h, o.payload), now));
            var seen := |s.accepted| + if IsFlood(h) then 1 else 0;
            r.delivered == if Welcome(c, s.receiver, h, now)
                           then s.delivered + [Receipt(Message(h, o.payload), now, seen)] else s.delivered
  {
    var h := HeaderFor(c, s.sender, o);
    FrameSurvivesTransport(c, s.sender, o);
    assert IncomingData(Frame(c, h, o.payload)) == Some(Message(h, Sealed(c, h, o.payload)));
    SealedIsDelivered(c, s, h, o.payload, now);
  }

  /** The window of a cipher lets the nonce through, and a flood is identified and new. */
  predicate Welcome(c: Option<Aead>, r: Receiver, h: DataHeader, now: nat) {
    && (c.Some? ==> R.Passes(r.window, h.nonce))
    && (IsFlood(h) ==> h.ttl != 0 && h.packetId != 0 && F.Insert(r.cache, FloodKey(h), now).1)
  }

  /** A header from the peer, of this room and for this node. */
  predicate ForMe(r: Receiver, h: DataHeader) {
    && r.room == Some(h.roomId) && h.version == PROTOCOL_VERSION
    && h.srcNode == h.originNode == r.peer && r.peer != r.local && h.dstNode == r.local
  }

  lemma HandleVerdict(c: Option<Aead>, r: Receiver, h: DataHeader, payload: seq<u8>, now: nat)
    requires Correct(c) && ForMe(r, h)
    ensures Handle(c, r, h, Sealed(c, h, payload), now).1 == if Welcome(c, r, h, now) then Some(payload) else None
    ensures Welcome(c, r, h, now) ==> Validate(r, h, now).1
  {
    if c.Some? {
      var ct := Sealed(c, h, payload);
      assert c.value.open(h.nonce, Encode(h), ct) == Some(payload) && |ct| >= TAG_LEN;
    }
  }

  lemma SealedIsDelivered(c: Option<Aead>, s: State, h: DataHeader, payload: seq<u8>, now: nat)
    requires Correct(c) && ForMe(s.receiver, h)
    ensures var r := ApplyArrive(c, s, h, Sealed(c, h, payload), now);
            var seen := |s.accepted| + if IsFlood(h) then 1 else 0;
            r.delivered == if Welcome(c, s.receiver, h, now)
                           then s.delivered + [Receipt(Message(h, payload), now, seen)] else s.delivered
  {
    HandleVerdict(c, s.receiver, h, payload, now);
  }

  // ---------- Framing in a slot ----------

  /** The payload is copied behind the header's place and, under a cipher, sealed there, tag appended. */
  method SealInSlot(c: Option<Aead>, h: DataHeader, payload: seq<u8>, slot: array<u8>) returns (n: nat)
    requires Correct(c) && |payload| <= MAX_PAYLOAD && slot.Length == Relay.FRAME_CAP
    modifies slot
    ensures n == |payload| + Overhead(c) && slot[HEADER_SIZE..HEADER_SIZE + n] == Sealed(c, h, payload)
    ensures forall i :: HEADER_SIZE + n <= i < slot.Length ==> slot[i] == old(slot[i])
  {
    var end := HEADER_SIZE + |payload|;
    Put(slot, HEADER_SIZE, payload, slot[..HEADER_SIZE]);
    assert slot[HEADER_SIZE..end] == payload;
    if c.None? {
      return |payload|;
    }
    var aad := new u8[HEADER_SIZE](_ => 0);
    var encoded := EncodeInto(h, aad);
    assert aad[..] == Encode(h);
    var ct := c.value.seal(h.nonce, aad[..], slot[HEADER_SIZE..end]);
    assert |ct| == |payload| + TAG_LEN;
    Put(slot, HEADER_SIZE, ct, slot[..HEADER_SIZE]);
    n := |ct|;
  }

  /** `send_to_peer` on the acquired slot: payload and tag, then the header, all in place. */
  method FrameInSlot(c: Option<Aead>, s: Sender, o: Order, slot: array<u8>) returns (len: nat)
    requires Correct(c) && Sendable(s, o) && slot.Length == Relay.FRAME_CAP
    modifies slot
    ensures len <= slot.Length && slot[..len] == Frame(c, HeaderFor(c, s, o), o.payload)
    ensures forall i :: len <= i < slot.Length ==> slot[i] == old(slot[i])
  {
    var h := HeaderFor(c, s, o);
    var n := SealInSlot(c, h, o.payload, slot);
    ghost var body := slot[HEADER_SIZE..];
    var encoded := EncodeInto(h.(payloadLen := n), slot);
    len := HEADER_SIZE + n;
    assert slot[..len] == slot[..HEADER_SIZE] + body[..n];
    assert forall i :: len <= i < slot.Length ==> slot[i] == body[i - HEADER_SIZE];
  }
}
