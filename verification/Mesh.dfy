/** Meshtastic envelopes: the protobuf zero-hop rewrite and the portnum reader. */
module Mesh {
  import opened Bytes
  import opened Wire
  import opened Proto
  import opened ProtoLaws
  import opened ProtoSize
  import Varint
  import opened Cipher
  import opened JsonPacket

  /** The fields of the pinned Meshtastic schema that the code names; every number is a parameter.
      `portNames` maps enum numbers, as 32-bit patterns, to names. */
  datatype Protos = Protos(
    envelope: Schema, packetNum: nat,
    packet: Schema, hopLimit: nat, hopStart: nat, id: nat, sender: nat, dest: nat,
    encrypted: nat, payloadVariant: nat, viaMqtt: nat, relayNode: nat, nextHop: nat,
    data: Schema, portnum: nat, portNames: map<nat, string>)

  ghost predicate WF(p: Protos) {
    && WellFormed(p.envelope, MAX_DEPTH) && WellFormed(p.data, MAX_DEPTH)
    && Find(p.envelope.fields, p.packetNum) == Some(Field(p.packetNum, Nested(p.packet), Explicit))
    && Find(p.packet.fields, p.hopLimit) == Some(Field(p.hopLimit, UInt32, Implicit))
    && Find(p.packet.fields, p.hopStart) == Some(Field(p.hopStart, UInt32, Implicit))
    && Find(p.packet.fields, p.id) == Some(Field(p.id, Fixed32, Implicit))
    && Find(p.packet.fields, p.sender) == Some(Field(p.sender, Fixed32, Implicit))
    && Find(p.packet.fields, p.dest) == Some(Field(p.dest, Fixed32, Implicit))
    && Find(p.packet.fields, p.encrypted) == Some(Field(p.encrypted, Octets, Member(p.payloadVariant)))
    && Find(p.packet.fields, p.viaMqtt) == Some(Field(p.viaMqtt, Proto.Bool, Implicit))
    && Find(p.packet.fields, p.relayNode) == Some(Field(p.relayNode, UInt32, Implicit))
    && Find(p.packet.fields, p.nextHop) == Some(Field(p.nextHop, UInt32, Implicit))
    && p.hopLimit !in {p.hopStart, p.relayNode, p.nextHop}
    && Find(p.data.fields, p.portnum) == Some(Field(p.portnum, Int32, Implicit))
  }

  // ---- Field access ----

  /** A numeric field, 0 when unset. */
  function GetNum(m: Message, num: nat): nat {
    if num in m.fields && m.fields[num].Num? then m.fields[num].n else 0
  }

  function GetBytes(m: Message, num: nat): bytes {
    if num in m.fields && m.fields[num].Raw? then m.fields[num].b else []
  }

  /** Field `num` of `m` is `n`; a numeric field that is not set is 0. */
  ghost predicate Holds(m: Message, num: nat, n: nat) {
    if num in m.fields then m.fields[num] == Num(n) else n == 0
  }

  ghost predicate HoldsBytes(m: Message, num: nat, b: bytes) {
    if num in m.fields then m.fields[num] == Raw(b) else b == []
  }

  /** `HasField("packet")` and the packet itself. */
  function Packet(p: Protos, env: Message): Option<Message> {
    if p.packetNum in env.fields && env.fields[p.packetNum].Sub? then Some(env.fields[p.packetNum].m) else None
  }

  function WithPacket(p: Protos, env: Message, pkt: Message): Message {
    env.(fields := env.fields[p.packetNum := Sub(pkt)])
  }

  /** A packet whose hop limit is 0, which for an implicit field is to be unset. */
  function ClearHop(p: Protos, pkt: Message): Message {
    pkt.(fields := pkt.fields - {p.hopLimit})
  }

  function PacketMeta(p: Protos, pkt: Message): Dict {
    map[
      "packet_id" := Int(GetNum(pkt, p.id)),
      "destination" := Int(GetNum(pkt, p.dest)),
      "hop_start" := Int(GetNum(pkt, p.hopStart)),
      "via_mqtt" := JsonPacket.Bool(GetNum(pkt, p.viaMqtt) != 0),
      "relay_node" := Int(GetNum(pkt, p.relayNode)),
      "next_hop" := Int(GetNum(pkt, p.nextHop)),
      "sender" := Int(GetNum(pkt, p.sender))]
  }

  /** The packet of a payload, when it parses and carries one. */
  function ParsePacket(p: Protos, payload: bytes): Option<Message> {
    match Parse(p.envelope, payload)
    case None => None
    case Some(env) => Packet(p, env)
  }

  function HopLimit(p: Protos, payload: bytes): Option<int> {
    match ParsePacket(p, payload)
    case None => None
    case Some(pkt) => Some(GetNum(pkt, p.hopLimit))
  }

  function ZeroHopSpec(p: Protos, payload: bytes): ZeroHop {
    match Parse(p.envelope, payload)
    case None => UNREADABLE
    case Some(env) =>
      (match Packet(p, env)
       case None => UNREADABLE
       case Some(pkt) =>
         var hop := GetNum(pkt, p.hopLimit);
         if hop == 0 then ZeroHop(None, Some(0), PacketMeta(p, pkt))
         else
           (match Serialize(p.envelope, WithPacket(p, env, ClearHop(p, pkt)))
            case None => UNREADABLE
            case Some(out) => ZeroHop(Some(out), Some(hop), PacketMeta(p, pkt))))
  }

  /** The runtime's mutable message object. */
  class ServiceEnvelope {
    const protos: Protos
    var message: Message

    constructor (protos: Protos)
      ensures this.protos == protos && message == EMPTY
    {
      this.protos := protos;
      message := EMPTY;
    }

    /** On failure the runtime raises; what is left in the object is then never read. */
    method ParseFromString(payload: bytes) returns (ok: bool)
      requires message == EMPTY
      modifies this
      ensures ok <==> Parse(protos.envelope, payload).Some?
      ensures ok ==> message == Parse(protos.envelope, payload).value
    {
      var parsed := Parse(protos.envelope, payload);
      ok := parsed.Some?;
      if ok {
        message := parsed.value;
      }
    }

    /** `envelope.packet.hop_limit = 0`: assigns through the sub-message held in the envelope. */
    method ClearPacketHopLimit()
      requires Packet(protos, message).Some?
      requires Find(protos.packet.fields, protos.hopLimit) == Some(Field(protos.hopLimit, UInt32, Implicit))
      modifies this
      ensures message == WithPacket(protos, old(message), ClearHop(protos, Packet(protos, old(message)).value))
    {
      var pkt := Packet(protos, message).value;
      PutZero(protos.packet, pkt, protos.hopLimit);
      pkt := Put(protos.packet, pkt, Field(protos.hopLimit, UInt32, Implicit), Num(0));
      message := message.(fields := message.fields[protos.packetNum := Sub(pkt)]);
    }
  }

  method ZeroHopProtobuf(p: Protos, payload: bytes) returns (r: ZeroHop)
    requires WF(p)
    ensures r == ZeroHopSpec(p, payload)
  {
    var envelope := new ServiceEnvelope(p);
    var ok := envelope.ParseFromString(payload);
    if !ok {
      return UNREADABLE;
    }
    var packet := Packet(p, envelope.message);
    if packet.None? {
      return UNREADABLE;
    }
    var oldHop := GetNum(packet.value, p.hopLimit);
    var meta := PacketMeta(p, packet.value);
    if oldHop == 0 {
      return ZeroHop(None, Some(0), meta);
    }
    envelope.ClearPacketHopLimit();
    var modified := Serialize(p.envelope, envelope.message);
    if modified.None? {
      return UNREADABLE;
    }
    r := ZeroHop(Some(modified.value), Some(oldHop), meta);
  }

  // ---- Only the hop limit changes ----

  /** The hop limit's number is none of the others the code reads. */
  lemma FieldsDistinct(p: Protos)
    requires WF(p)
    ensures p.hopLimit !in {p.hopStart, p.id, p.sender, p.dest, p.encrypted, p.viaMqtt, p.relayNode, p.nextHop}
  {
    hide WellFormed;
  }

  lemma PutZero(s: Schema, m: Message, num: nat)
    requires Find(s.fields, num) == Some(Field(num, UInt32, Implicit))
    ensures Put(s, m, Field(num, UInt32, Implicit), Num(0)) == m.(fields := m.fields - {num})
  {
    assert Put(s, m, Field(num, UInt32, Implicit), Num(0)).fields == m.fields - {num};
  }

  lemma PutSub(s: Schema, m: Message, f: Field, v: Value)
    requires f.presence.Explicit?
    ensures Put(s, m, f, v) == m.(fields := m.fields[f.num := v])
  {
    assert Put(s, m, f, v).fields == m.fields[f.num := v];
  }

  lemma PacketValid(p: Protos, env: Message)
    requires WF(p) && Valid(p.envelope, env, MAX_DEPTH) && Packet(p, env).Some?
    ensures Valid(p.packet, Packet(p, env).value, MAX_DEPTH - 1)
  {
    hide Valid;
    hide WellFormed;
    NestedValid(p.envelope, env, Field(p.packetNum, Nested(p.packet), Explicit), MAX_DEPTH);
  }

  lemma ClearHopValid(p: Protos, env: Message)
    requires WF(p) && Valid(p.envelope, env, MAX_DEPTH) && Packet(p, env).Some?
    ensures Valid(p.envelope, WithPacket(p, env, ClearHop(p, Packet(p, env).value)), MAX_DEPTH)
  {
    hide Valid;
    hide WellFormed;
    hide Put;
    var pkt := Packet(p, env).value;
    PacketValid(p, env);
    PutZero(p.packet, pkt, p.hopLimit);
    PutValid(p.packet, pkt, Field(p.hopLimit, UInt32, Implicit), Num(0), MAX_DEPTH - 1);
    var outer := Field(p.packetNum, Nested(p.packet), Explicit);
    PutSub(p.envelope, env, outer, Sub(ClearHop(p, pkt)));
    PutValid(p.envelope, env, outer, Sub(ClearHop(p, pkt)), MAX_DEPTH);
  }

  /** The rewritten bytes parse to the original envelope with the packet's hop limit unset: every
      other field of the envelope and of the packet, and every unknown record of both, are kept. */
  lemma OnlyHopLimitChanges(p: Protos, payload: bytes)
    requires WF(p) && ZeroHopSpec(p, payload).modified.Some?
    ensures var out := ZeroHopSpec(p, payload).modified.value;
            && Parse(p.envelope, payload).Some? && Parse(p.envelope, out).Some?
            && var (env, env') := (Parse(p.envelope, payload).value, Parse(p.envelope, out).value);
            && Packet(p, env).Some? && Packet(p, env').Some?
            && var (pkt, pkt') := (Packet(p, env).value, Packet(p, env').value);
            && env'.fields.Keys == env.fields.Keys && env'.unknown == env.unknown
            && (forall k | k in env.fields && k != p.packetNum :: env'.fields[k] == env.fields[k])
            && pkt'.fields == pkt.fields - {p.hopLimit} && pkt'.unknown == pkt.unknown
  {
    hide Valid;
    hide WellFormed;
    hide Write;
    var env := Parse(p.envelope, payload).value;
    var pkt := Packet(p, env).value;
    var env' := WithPacket(p, env, ClearHop(p, pkt));
    ParsedValid(p, payload);
    ClearHopValid(p, env);
    RoundTrip(p.envelope, env', MAX_DEPTH);
  }

  lemma EmptyValid(s: Schema, depth: nat)
    ensures Valid(s, EMPTY, depth)
  {
  }

  /** Two packets that agree on everything the code reads apart from the hop limit. */
  ghost predicate SameReads(p: Protos, a: Message, b: Message) {
    && GetNum(a, p.id) == GetNum(b, p.id)
    && GetNum(a, p.sender) == GetNum(b, p.sender)
    && GetBytes(a, p.encrypted) == GetBytes(b, p.encrypted)
    && (p.encrypted in a.fields <==> p.encrypted in b.fields)
    && PacketMeta(p, a) == PacketMeta(p, b)
  }

  lemma ReadsAfter(pkt: Message, hop: nat, num: nat)
    requires num != hop
    ensures GetNum(pkt.(fields := pkt.fields - {hop}), num) == GetNum(pkt, num)
    ensures GetBytes(pkt.(fields := pkt.fields - {hop}), num) == GetBytes(pkt, num)
    ensures num in pkt.(fields := pkt.fields - {hop}).fields <==> num in pkt.fields
  {
  }

  lemma HopAfter(pkt: Message, hop: nat)
    ensures GetNum(pkt.(fields := pkt.fields - {hop}), hop) == 0
  {
  }

  lemma MetaAfter(p: Protos, pkt: Message)
    requires p.hopLimit !in {p.hopStart, p.id, p.sender, p.dest, p.viaMqtt, p.relayNode, p.nextHop}
    ensures PacketMeta(p, ClearHop(p, pkt)) == PacketMeta(p, pkt)
  {
    hide GetNum;
    hide GetBytes;
    ReadsAfter(pkt, p.hopLimit, p.id);
    ReadsAfter(pkt, p.hopLimit, p.sender);
    ReadsAfter(pkt, p.hopLimit, p.dest);
    ReadsAfter(pkt, p.hopLimit, p.hopStart);
    ReadsAfter(pkt, p.hopLimit, p.viaMqtt);
    ReadsAfter(pkt, p.hopLimit, p.relayNode);
    ReadsAfter(pkt, p.hopLimit, p.nextHop);
  }

  lemma ClearHopReads(p: Protos, pkt: Message)
    requires WF(p)
    ensures SameReads(p, ClearHop(p, pkt), pkt) && GetNum(ClearHop(p, pkt), p.hopLimit) == 0
  {
    FieldsDistinct(p);
    hide WF;
    MetaAfter(p, pkt);
    HopAfter(pkt, p.hopLimit);
    hide PacketMeta;
    hide GetNum;
    hide GetBytes;
    ReadsAfter(pkt, p.hopLimit, p.id);
    ReadsAfter(pkt, p.hopLimit, p.sender);
    ReadsAfter(pkt, p.hopLimit, p.encrypted);
  }

  /** The packet on both sides of the rewrite. */
  lemma PacketAfter(p: Protos, payload: bytes) returns (pkt: Message)
    requires WF(p) && ZeroHopSpec(p, payload).modified.Some?
    ensures ParsePacket(p, payload) == Some(pkt)
    ensures ParsePacket(p, ZeroHopSpec(p, payload).modified.value) == Some(ClearHop(p, pkt))
    ensures SameReads(p, ClearHop(p, pkt), pkt)
    ensures GetNum(ClearHop(p, pkt), p.hopLimit) == 0
    ensures ZeroHopSpec(p, payload).meta == PacketMeta(p, pkt)
    ensures ZeroHopSpec(p, payload).oldHop == Some(GetNum(pkt, p.hopLimit)) && GetNum(pkt, p.hopLimit) != 0
  {
    hide Serialize;
    hide Parse;
    hide PacketMeta;
    hide SameReads;
    hide GetNum;
    OnlyHopLimitChanges(p, payload);
    pkt := ParsePacket(p, payload).value;
    ClearHopReads(p, pkt);
    hide WF;
  }

  /** The rewritten payload has hop limit 0 and the same metadata, so a second pass changes nothing. */
  lemma ZeroHopFixpoint(p: Protos, payload: bytes)
    requires WF(p) && ZeroHopSpec(p, payload).modified.Some?
    ensures var z := ZeroHopSpec(p, payload);
            && z.oldHop.Some? && z.oldHop.value != 0 && HopLimit(p, payload) == z.oldHop
            && HopLimit(p, z.modified.value) == Some(0)
            && ZeroHopSpec(p, z.modified.value) == ZeroHop(None, Some(0), z.meta)
  {
    hide WF;
    hide Serialize;
    hide Parse;
    hide PacketMeta;
    var pkt := PacketAfter(p, payload);
  }

  /** No MQTT packet is longer (MQTT Version 5.0, section 2.1.4). */
  const MAX_MQTT_PACKET: nat := 268_435_455

  lemma UnsetShrinks(s: Schema, m: Message, f: Field, depth: nat)
    requires WellFormed(s, depth) && Find(s.fields, f.num) == Some(f) && f == Field(f.num, UInt32, Implicit)
    requires f.num in m.fields && m.fields[f.num].Num? && m.fields[f.num].n < TWO_32
    ensures |Write(s, m.(fields := m.fields - {f.num}))| <= |Write(s, m)|
  {
    hide WellFormed;
    hide Put;
    hide Varint.Encode;
    PutZero(s, m, f.num);
    PutGrows(s, m, f, Num(0), depth);
    EncodeMonotone(0, m.fields[f.num].n);
    assert WriteField(f, m) == WriteRecord(Record(f.num, Var(m.fields[f.num].n)));
  }

  lemma SubShrinks(s: Schema, m: Message, f: Field, sub: Message, depth: nat)
    requires WellFormed(s, depth) && Find(s.fields, f.num) == Some(f) && f.kind.Nested? && f.presence.Explicit?
    requires f.num in m.fields && m.fields[f.num].Sub?
    requires |Write(f.kind.schema, sub)| <= |Write(f.kind.schema, m.fields[f.num].m)|
    ensures |Write(s, m.(fields := m.fields[f.num := Sub(sub)]))| <= |Write(s, m)|
  {
    hide WellFormed;
    hide Put;
    hide Varint.Encode;
    PutSub(s, m, f, Sub(sub));
    PutGrows(s, m, f, Sub(sub), depth);
    EncodeMonotone(|Write(f.kind.schema, sub)|, |Write(f.kind.schema, m.fields[f.num].m)|);
    assert WriteField(f, m) == WriteRecord(Record(f.num, Len(Write(f.kind.schema, m.fields[f.num].m))));
  }

  lemma ClearHopShrinks(p: Protos, env: Message)
    requires WF(p) && Packet(p, env).Some? && GetNum(Packet(p, env).value, p.hopLimit) != 0
    requires GetNum(Packet(p, env).value, p.hopLimit) < TWO_32
    ensures |Write(p.envelope, WithPacket(p, env, ClearHop(p, Packet(p, env).value)))| <= |Write(p.envelope, env)|
  {
    hide WellFormed;
    hide Write;
    var outer := Field(p.packetNum, Nested(p.packet), Explicit);
    NestedDepth(p.envelope, outer, MAX_DEPTH);
    UnsetShrinks(p.packet, Packet(p, env).value, Field(p.hopLimit, UInt32, Implicit), MAX_DEPTH - 1);
    SubShrinks(p.envelope, env, outer, ClearHop(p, Packet(p, env).value), MAX_DEPTH);
  }

  /** Exactly the payloads that carry a packet with hops left are rewritten, and the hop limit
      reported is the packet's own; no payload MQTT can carry is lost to the runtime's size limit. */
  lemma ZeroHopExact(p: Protos, payload: bytes)
    requires WF(p) && |payload| <= MAX_MQTT_PACKET
    ensures ZeroHopSpec(p, payload).oldHop == HopLimit(p, payload)
    ensures ZeroHopSpec(p, payload).modified.Some?
       <==> HopLimit(p, payload).Some? && HopLimit(p, payload).value != 0
  {
    var parsed := Parse(p.envelope, payload);
    if parsed.Some? && Packet(p, parsed.value).Some? && HopLimit(p, payload).value != 0 {
      hide WellFormed;
      hide Parse;
      hide Write;
      ParsedValid(p, payload);
      HopBounded(p, parsed.value);
      ClearHopShrinks(p, parsed.value);
      Doubling(p.envelope, payload);
    }
  }

  lemma ParsedValid(p: Protos, payload: bytes)
    requires WF(p) && Parse(p.envelope, payload).Some?
    ensures Valid(p.envelope, Parse(p.envelope, payload).value, MAX_DEPTH)
  {
    hide Valid;
    hide WellFormed;
    EmptyValid(p.envelope, MAX_DEPTH);
    ParseValid(p.envelope, payload, EMPTY, MAX_DEPTH);
  }

  lemma HopBounded(p: Protos, env: Message)
    requires WF(p) && Valid(p.envelope, env, MAX_DEPTH) && Packet(p, env).Some?
    ensures GetNum(Packet(p, env).value, p.hopLimit) < TWO_32
  {
    hide Valid;
    hide WellFormed;
    PacketValid(p, env);
    ScalarBounded(p.packet, Packet(p, env).value, p.hopLimit, MAX_DEPTH - 1);
  }

  lemma ScalarBounded(s: Schema, m: Message, num: nat, depth: nat)
    requires Valid(s, m, depth) && Find(s.fields, num) == Some(Field(num, UInt32, Implicit))
    ensures GetNum(m, num) < TWO_32
  {
    hide IsUnknown;
    if num in m.fields {
      assert ValidField(s, m, num, depth);
    }
  }

  /** What a receiver holding `key` decrypts, from the id and sender in the packet itself. */
  function Receive(p: Protos, aes: BlockCipher, key: bytes, payload: bytes): Option<bytes> {
    match ParsePacket(p, payload)
    case None => None
    case Some(pkt) => Some(Decrypt(aes, GetBytes(pkt, p.encrypted), GetNum(pkt, p.id), GetNum(pkt, p.sender), key))
  }

  /** Rewriting commutes with decryption, for every key and ciphertext. */
  lemma ReceiversUnaffected(p: Protos, aes: BlockCipher, key: bytes, payload: bytes)
    requires WF(p) && ZeroHopSpec(p, payload).modified.Some?
    ensures Receive(p, aes, key, payload).Some?
    ensures Receive(p, aes, key, ZeroHopSpec(p, payload).modified.value) == Receive(p, aes, key, payload)
  {
    hide WF;
    hide ZeroHopSpec;
    hide ParsePacket;
    var pkt := PacketAfter(p, payload);
  }

  // ---- Portnum ----

  function PortName(p: Protos, n: nat): Option<string> {
    if n in p.portNames then Some(p.portNames[n]) else None
  }

  function PortnumOfPacket(p: Protos, aes: BlockCipher, pkt: Message): Option<string> {
    if p.encrypted !in pkt.fields then None else
    var plaintext := Decrypt(aes, GetBytes(pkt, p.encrypted), GetNum(pkt, p.id), GetNum(pkt, p.sender), DEFAULT_KEY);
    match Parse(p.data, plaintext)
    case None => None
    case Some(data) => PortName(p, GetNum(data, p.portnum))
  }

  /** The portnum name of an encrypted packet, when the default key reads it. */
  function Portnum(p: Protos, aes: BlockCipher, payload: bytes): Option<string> {
    match ParsePacket(p, payload)
    case None => None
    case Some(pkt) => PortnumOfPacket(p, aes, pkt)
  }

  lemma PortnumUnchanged(p: Protos, aes: BlockCipher, payload: bytes)
    requires WF(p) && ZeroHopSpec(p, payload).modified.Some?
    ensures Portnum(p, aes, ZeroHopSpec(p, payload).modified.value) == Portnum(p, aes, payload)
  {
    hide WF;
    hide ZeroHopSpec;
    hide ParsePacket;
    var pkt := PacketAfter(p, payload);
  }

  // ---- What the readers read, on the parsed fields themselves ----

  /** The payload parses, and this is the packet it carries. */
  ghost predicate HasPacket(p: Protos, payload: bytes, pkt: Message) {
    && Parse(p.envelope, payload).Some?
    && p.packetNum in Parse(p.envelope, payload).value.fields
    && Parse(p.envelope, payload).value.fields[p.packetNum] == Sub(pkt)
  }

  lemma PacketExact(p: Protos, payload: bytes, pkt: Message)
    ensures ParsePacket(p, payload) == Some(pkt) <==> HasPacket(p, payload, pkt)
  {
    hide Parse;
  }

  lemma ParsedPacketValid(p: Protos, payload: bytes)
    requires WF(p) && ParsePacket(p, payload).Some?
    ensures Valid(p.packet, ParsePacket(p, payload).value, MAX_DEPTH - 1)
  {
    hide WF;
    hide Valid;
    hide Parse;
    ParsedValid(p, payload);
    PacketValid(p, Parse(p.envelope, payload).value);
  }

  /** In a valid message a numeric field holds the number the reader returns. */
  lemma NumExact(s: Schema, m: Message, f: Field, depth: nat, n: nat)
    requires Valid(s, m, depth) && Find(s.fields, f.num) == Some(f)
    requires f.kind in {UInt32, Int32, Proto.Bool, Fixed32}
    ensures GetNum(m, f.num) == n <==> Holds(m, f.num, n)
  {
    hide IsUnknown;
    if f.num in m.fields {
      assert ValidField(s, m, f.num, depth);
    }
  }

  lemma BytesExact(s: Schema, m: Message, f: Field, depth: nat, b: bytes)
    requires Valid(s, m, depth) && Find(s.fields, f.num) == Some(f) && f.kind == Octets
    ensures GetBytes(m, f.num) == b <==> HoldsBytes(m, f.num, b)
  {
    hide IsUnknown;
    if f.num in m.fields {
      assert ValidField(s, m, f.num, depth);
    }
  }

  lemma AddressExact(p: Protos, payload: bytes, id: nat, from: nat, cipher: bytes)
    requires WF(p) && ParsePacket(p, payload).Some?
    ensures var pkt := ParsePacket(p, payload).value;
            && (GetNum(pkt, p.id) == id <==> Holds(pkt, p.id, id))
            && (GetNum(pkt, p.sender) == from <==> Holds(pkt, p.sender, from))
            && (GetBytes(pkt, p.encrypted) == cipher <==> HoldsBytes(pkt, p.encrypted, cipher))
  {
    hide WellFormed;
    hide Valid;
    hide ParsePacket;
    hide GetNum;
    hide GetBytes;
    hide Holds;
    hide HoldsBytes;
    ParsedPacketValid(p, payload);
    var pkt := ParsePacket(p, payload).value;
    NumExact(p.packet, pkt, Field(p.id, Fixed32, Implicit), MAX_DEPTH - 1, id);
    NumExact(p.packet, pkt, Field(p.sender, Fixed32, Implicit), MAX_DEPTH - 1, from);
    BytesExact(p.packet, pkt, Field(p.encrypted, Octets, Member(p.payloadVariant)), MAX_DEPTH - 1, cipher);
  }

  /** The hop limit read is the one in the packet's own field, and there is none without a packet. */
  lemma HopLimitExact(p: Protos, payload: bytes, n: int)
    requires WF(p)
    ensures HopLimit(p, payload) == Some(n)
       <==> n >= 0 && exists pkt :: HasPacket(p, payload, pkt) && Holds(pkt, p.hopLimit, n)
  {
    hide WellFormed;
    hide Valid;
    hide ParsePacket;
    hide Holds;
    hide HasPacket;
    hide GetNum;
    forall pkt
      ensures ParsePacket(p, payload) == Some(pkt) <==> HasPacket(p, payload, pkt)
    {
      PacketExact(p, payload, pkt);
    }
    if ParsePacket(p, payload).Some? {
      var pkt := ParsePacket(p, payload).value;
      assert HasPacket(p, payload, pkt);
      ParsedPacketValid(p, payload);
      NumExact(p.packet, pkt, Field(p.hopLimit, UInt32, Implicit), MAX_DEPTH - 1, GetNum(pkt, p.hopLimit));
      if n >= 0 {
        NumExact(p.packet, pkt, Field(p.hopLimit, UInt32, Implicit), MAX_DEPTH - 1, n);
      }
    }
  }

  /** `plain` is what the packet's ciphertext says under `key`, in counter mode with the id and the
      sender of the packet itself. */
  ghost predicate Sealed(p: Protos, aes: BlockCipher, key: bytes, pkt: Message, plain: bytes) {
    exists id: nat, from: nat, cipher: bytes ::
      && Holds(pkt, p.id, id) && Holds(pkt, p.sender, from) && HoldsBytes(pkt, p.encrypted, cipher)
      && Enciphered(aes, key, id, from, plain, cipher)
  }

  lemma SealedExact(p: Protos, aes: BlockCipher, key: bytes, payload: bytes, plain: bytes)
    requires WF(p) && ParsePacket(p, payload).Some?
    ensures var pkt := ParsePacket(p, payload).value;
            Sealed(p, aes, key, pkt, plain) <==>
              plain == Decrypt(aes, GetBytes(pkt, p.encrypted), GetNum(pkt, p.id), GetNum(pkt, p.sender), key)
  {
    hide WF;
    hide ParsePacket;
    hide Decrypt;
    hide Enciphered;
    hide GetNum;
    hide GetBytes;
    hide Holds;
    hide HoldsBytes;
    var pkt := ParsePacket(p, payload).value;
    var id, from, cipher := GetNum(pkt, p.id), GetNum(pkt, p.sender), GetBytes(pkt, p.encrypted);
    AddressExact(p, payload, id, from, cipher);
    DecryptExact(aes, cipher, id, from, key, plain);
    if Sealed(p, aes, key, pkt, plain) {
      var id': nat, from': nat, cipher': bytes :|
        && Holds(pkt, p.id, id') && Holds(pkt, p.sender, from') && HoldsBytes(pkt, p.encrypted, cipher')
        && Enciphered(aes, key, id', from', plain, cipher');
      AddressExact(p, payload, id', from', cipher');
    }
  }

  /** What a receiver decrypts is what the packet's ciphertext says. */
  lemma ReceiveExact(p: Protos, aes: BlockCipher, key: bytes, payload: bytes, plain: bytes)
    requires WF(p)
    ensures Receive(p, aes, key, payload) == Some(plain)
       <==> exists pkt :: HasPacket(p, payload, pkt) && Sealed(p, aes, key, pkt, plain)
  {
    hide WF;
    hide ParsePacket;
    hide Decrypt;
    hide GetNum;
    hide GetBytes;
    hide Sealed;
    hide HasPacket;
    forall pkt
      ensures ParsePacket(p, payload) == Some(pkt) <==> HasPacket(p, payload, pkt)
    {
      PacketExact(p, payload, pkt);
    }
    if ParsePacket(p, payload).Some? {
      SealedExact(p, aes, key, payload, plain);
      assert HasPacket(p, payload, ParsePacket(p, payload).value);
    }
  }

  /** The payload carries an encrypted packet that holds, under the default key, a message with this
      portnum's number. */
  ghost predicate Names(p: Protos, aes: BlockCipher, payload: bytes, name: string) {
    exists pkt: Message, plain: bytes, n: nat ::
      && HasPacket(p, payload, pkt) && p.encrypted in pkt.fields && Sealed(p, aes, DEFAULT_KEY, pkt, plain)
      && HasPortnum(p, plain, n) && n in p.portNames && p.portNames[n] == name
  }

  ghost predicate HasPortnum(p: Protos, plain: bytes, n: nat) {
    Parse(p.data, plain).Some? && Holds(Parse(p.data, plain).value, p.portnum, n)
  }

  lemma DataExact(p: Protos, plain: bytes, n: nat)
    requires WF(p)
    ensures HasPortnum(p, plain, n)
       <==> Parse(p.data, plain).Some? && GetNum(Parse(p.data, plain).value, p.portnum) == n
  {
    hide Valid;
    hide WellFormed;
    if Parse(p.data, plain).Some? {
      EmptyValid(p.data, MAX_DEPTH);
      ParseValid(p.data, plain, EMPTY, MAX_DEPTH);
      NumExact(p.data, Parse(p.data, plain).value, Field(p.portnum, Int32, Implicit), MAX_DEPTH, n);
    }
  }

  lemma NamedData(p: Protos, plain: bytes, name: string)
    requires WF(p)
    ensures (Parse(p.data, plain).Some?
             && PortName(p, GetNum(Parse(p.data, plain).value, p.portnum)) == Some(name))
       <==> exists n: nat :: HasPortnum(p, plain, n) && n in p.portNames && p.portNames[n] == name
  {
    hide WF;
    hide Parse;
    hide GetNum;
    hide HasPortnum;
    if Parse(p.data, plain).Some? {
      DataExact(p, plain, GetNum(Parse(p.data, plain).value, p.portnum));
    }
    forall n: nat | HasPortnum(p, plain, n)
      ensures Parse(p.data, plain).Some? && GetNum(Parse(p.data, plain).value, p.portnum) == n
    {
      DataExact(p, plain, n);
    }
  }

  /** For every payload, the reader returns exactly the name the payload's ciphertext gives, and none
      when the packet is not encrypted, does not decrypt to a message, or has a number outside the enum. */
  lemma PortnumExact(p: Protos, aes: BlockCipher, payload: bytes, name: string)
    requires WF(p)
    ensures Portnum(p, aes, payload) == Some(name) <==> Names(p, aes, payload, name)
  {
    hide WF;
    hide Decrypt;
    hide Parse;
    hide ParsePacket;
    hide PortName;
    hide GetNum;
    hide GetBytes;
    hide Sealed;
    hide HasPacket;
    hide HasPortnum;
    forall pkt
      ensures ParsePacket(p, payload) == Some(pkt) <==> HasPacket(p, payload, pkt)
    {
      PacketExact(p, payload, pkt);
    }
    if ParsePacket(p, payload).Some? {
      var pkt := ParsePacket(p, payload).value;
      assert HasPacket(p, payload, pkt);
      var plain := Decrypt(aes, GetBytes(pkt, p.encrypted), GetNum(pkt, p.id), GetNum(pkt, p.sender), DEFAULT_KEY);
      forall b
        ensures Sealed(p, aes, DEFAULT_KEY, pkt, b) <==> b == plain
      {
        SealedExact(p, aes, DEFAULT_KEY, payload, b);
      }
      NamedData(p, plain, name);
    }
  }

  /** The packet carries `data`, encrypted under the default key with the packet's own id and sender. */
  ghost predicate Encrypts(p: Protos, aes: BlockCipher, pkt: Message, data: Message) {
    && p.encrypted in pkt.fields
    && Serialize(p.data, data).Some? && Sealed(p, aes, DEFAULT_KEY, pkt, Serialize(p.data, data).value)
  }

  /** The name of a message's portnum, None for a number outside the enum. */
  ghost predicate NameOf(p: Protos, data: Message, name: Option<string>) {
    exists n: nat :: Holds(data, p.portnum, n) && name == if n in p.portNames then Some(p.portNames[n]) else None
  }

  lemma NameExact(p: Protos, data: Message, name: Option<string>)
    requires WF(p) && Valid(p.data, data, MAX_DEPTH)
    ensures NameOf(p, data, name) <==> name == PortName(p, GetNum(data, p.portnum))
  {
    hide WellFormed;
    hide Valid;
    hide GetNum;
    hide Holds;
    var f := Field(p.portnum, Int32, Implicit);
    NumExact(p.data, data, f, MAX_DEPTH, GetNum(data, p.portnum));
    forall n: nat | Holds(data, p.portnum, n)
      ensures n == GetNum(data, p.portnum)
    {
      NumExact(p.data, data, f, MAX_DEPTH, n);
    }
  }

  /** End to end: encrypt any inner message, pack it, serialise the envelope, and the reader names
      exactly that message's portnum, or nothing for a number outside the enum. */
  lemma PortnumRecovered(
    p: Protos, aes: BlockCipher, env: Message, data: Message, payload: bytes, name: Option<string>)
    requires WF(p) && Valid(p.envelope, env, MAX_DEPTH) && Valid(p.data, data, MAX_DEPTH)
    requires Packet(p, env).Some? && Encrypts(p, aes, Packet(p, env).value, data)
    requires Serialize(p.envelope, env) == Some(payload)
    ensures Portnum(p, aes, payload) == name <==> NameOf(p, data, name)
  {
    hide Valid;
    hide WellFormed;
    hide Write;
    hide Decrypt;
    hide Sealed;
    hide NameOf;
    hide GetNum;
    hide GetBytes;
    hide PortName;
    RoundTrip(p.envelope, env, MAX_DEPTH);
    SealedExact(p, aes, DEFAULT_KEY, payload, Serialize(p.data, data).value);
    RoundTrip(p.data, data, MAX_DEPTH);
    NameExact(p, data, name);
  }
}
