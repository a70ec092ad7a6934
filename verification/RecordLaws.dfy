/** What a log record contains: each attribute is the message's own. */
module RecordLaws {
  import opened Bytes
  import opened JsonPacket
  import Mesh
  import Proto
  import ProtoLaws
  import Wire
  import Topic
  import Config
  import opened Stats
  import opened NodeId
  import opened Pipeline
  import opened PipelineLaws
  import opened Decisions

  // ---- The packet's own values ----

  /** A JSON object's value under `key`, null when the payload is no object. */
  ghost predicate ObjectHas(rt: Runtime, payload: bytes, key: string, v: Json) {
    match rt.json.loads(payload)
    case Some(Obj(d)) => v == if key in d then d[key] else Null
    case _ => v == Null
  }

  /** A protobuf packet's field `num`, null when the payload carries no packet. */
  ghost predicate FieldHas(rt: Runtime, payload: bytes, num: nat, v: Json) {
    || (exists pkt :: Mesh.HasPacket(rt.protos, payload, pkt) && v.Int? && v.n >= 0 && Mesh.Holds(pkt, num, v.n))
    || (v == Null && forall pkt :: !Mesh.HasPacket(rt.protos, payload, pkt))
  }

  /** `v` is the packet's value: under `key` in JSON, in field `num` in protobuf. */
  ghost predicate Has(rt: Runtime, encoding: string, payload: bytes, key: string, num: nat, v: Json) {
    if encoding == "json" then ObjectHas(rt, payload, key, v) else FieldHas(rt, payload, num, v)
  }

  /** A protobuf flag is shown as a boolean, a JSON one as it is. */
  ghost predicate HasFlag(rt: Runtime, encoding: string, payload: bytes, key: string, num: nat, v: Json) {
    if encoding == "json" then ObjectHas(rt, payload, key, v)
    else exists raw :: FieldHas(rt, payload, num, raw) && v == if raw.Int? then JsonPacket.Bool(raw.n != 0) else Null
  }

  /** `v` names the node under `key`, or in field `num`. */
  ghost predicate HasNode(rt: Runtime, encoding: string, payload: bytes, key: string, num: nat, v: Json) {
    exists raw :: Has(rt, encoding, payload, key, num, raw) && v.Str? && Named(raw, v.s)
  }

  /** The relay is known for protobuf packets only. */
  ghost predicate HasRelay(rt: Runtime, encoding: string, payload: bytes, num: nat, v: Json) {
    if encoding == "json" then v.Null?
    else
      exists raw ::
        FieldHas(rt, payload, num, raw) && if raw.Int? && raw.n >= 0 then NamedRelay(raw.n, v) else v.Null?
  }

  // ---- What a record must contain ----

  const WHERE: set<string> := {"topic", "channel", "encoding"}

  const WHO: set<string> := {"id", "from", "to"}

  const HOPS: set<string> := {"hop_start", "relay", "via_mqtt"}

  ghost predicate ShowsWhere(a: Dict, topic: string, channel: string, encoding: string) {
    && "topic" in a && a["topic"] == Str(topic)
    && "channel" in a && a["channel"] == Str(channel)
    && "encoding" in a && a["encoding"] == Str(encoding)
  }

  ghost predicate ShowsWho(rt: Runtime, encoding: string, payload: bytes, a: Dict) {
    var p := rt.protos;
    && "id" in a && Has(rt, encoding, payload, "id", p.id, a["id"])
    && "from" in a && HasNode(rt, encoding, payload, "from", p.sender, a["from"])
    && "to" in a && HasNode(rt, encoding, payload, "to", p.dest, a["to"])
  }

  ghost predicate ShowsHops(rt: Runtime, encoding: string, payload: bytes, a: Dict) {
    var p := rt.protos;
    && "hop_start" in a && Has(rt, encoding, payload, "hop_start", p.hopStart, a["hop_start"])
    && "relay" in a && HasRelay(rt, encoding, payload, p.relayNode, a["relay"])
    && "via_mqtt" in a && HasFlag(rt, encoding, payload, "via_mqtt", p.viaMqtt, a["via_mqtt"])
  }

  ghost predicate TellsDrop(rt: Runtime, encoding: string, payload: bytes, a: Dict) {
    && a.Keys == WHERE + WHO + {"portnum"} && ShowsWho(rt, encoding, payload, a)
    && a["portnum"].Str? && Names(rt, encoding, payload, a["portnum"].s)
  }

  ghost predicate TellsHop(rt: Runtime, encoding: string, payload: bytes, a: Dict) {
    && a.Keys == WHERE + WHO + HOPS + {"hop_limit"}
    && ShowsWho(rt, encoding, payload, a) && ShowsHops(rt, encoding, payload, a)
    && "hop_limit" in a && a["hop_limit"].Int? && HasHop(rt, encoding, payload, a["hop_limit"].n)
  }

  /** The attributes of each outcome's record: which there are, and what each holds. */
  ghost predicate Content(rt: Runtime, encoding: string, payload: bytes, outcome: Counter, a: Dict) {
    match outcome
    case Errors => a.Keys == WHERE + {"bytes"} && a["bytes"] == Int(|payload|)
    case Dropped => TellsDrop(rt, encoding, payload, a)
    case Passthru =>
      a.Keys == WHERE + WHO + HOPS && ShowsWho(rt, encoding, payload, a) && ShowsHops(rt, encoding, payload, a)
    case Noop => TellsHop(rt, encoding, payload, a) && a["hop_limit"] == Int(0)
    case Zerohop => TellsHop(rt, encoding, payload, a) && a["hop_limit"] != Int(0)
    case Skipped => false
  }

  // ---- The metadata is the packet's ----

  lemma JsonMeta(rt: Runtime, payload: bytes)
    ensures var meta := PeekMeta(rt, "json", payload);
            && ObjectHas(rt, payload, "id", Get(meta, "packet_id"))
            && ObjectHas(rt, payload, "from", Get(meta, "sender"))
            && ObjectHas(rt, payload, "to", Get(meta, "destination"))
            && ObjectHas(rt, payload, "hop_start", Get(meta, "hop_start"))
            && ObjectHas(rt, payload, "via_mqtt", Get(meta, "via_mqtt"))
            && Get(meta, "relay_node") == Null
  {
    var loaded := rt.json.loads(payload);
    if loaded.Some? && loaded.value.Obj? {
      var d := loaded.value.members;
      MetaGet(d, META_KEYS, 0);
      MetaGet(d, META_KEYS, 1);
      MetaGet(d, META_KEYS, 2);
      MetaGet(d, META_KEYS, 3);
      MetaGet(d, META_KEYS, 4);
      MetaAbsent(d, META_KEYS, "relay_node");
      hide MetaFrom;
    }
  }

  lemma ProtoField(rt: Runtime, payload: bytes, f: Proto.Field)
    requires RuntimeOk(rt) && Mesh.ParsePacket(rt.protos, payload).Some?
    requires Proto.Find(rt.protos.packet.fields, f.num) == Some(f)
    requires f.kind in {Proto.UInt32, Proto.Bool, Proto.Fixed32}
    ensures FieldHas(rt, payload, f.num, Int(Mesh.GetNum(Mesh.ParsePacket(rt.protos, payload).value, f.num)))
  {
    hide Mesh.WF;
    hide ProtoLaws.Valid;
    hide Mesh.ParsePacket;
    hide Mesh.HasPacket;
    hide Mesh.Holds;
    hide Mesh.GetNum;
    var pkt := Mesh.ParsePacket(rt.protos, payload).value;
    Mesh.PacketExact(rt.protos, payload, pkt);
    Mesh.ParsedPacketValid(rt.protos, payload);
    Mesh.NumExact(rt.protos.packet, pkt, f, Wire.MAX_DEPTH - 1, Mesh.GetNum(pkt, f.num));
  }

  lemma NoPacket(rt: Runtime, payload: bytes, num: nat)
    requires Mesh.ParsePacket(rt.protos, payload).None?
    ensures FieldHas(rt, payload, num, Null)
  {
    forall pkt
      ensures !Mesh.HasPacket(rt.protos, payload, pkt)
    {
      Mesh.PacketExact(rt.protos, payload, pkt);
    }
    hide Mesh.HasPacket;
    hide Mesh.ParsePacket;
  }

  /** A value of the packet's metadata is in the packet's own field. */
  ghost predicate MetaHas(rt: Runtime, payload: bytes, num: nat, v: Json) {
    FieldHas(rt, payload, num, v) && (v.Int? ==> v.n >= 0) && (v.Int? || v.Null?)
  }

  lemma ProtoAddress(rt: Runtime, encoding: string, payload: bytes)
    requires RuntimeOk(rt) && encoding != "json"
    ensures var (meta, p) := (PeekMeta(rt, encoding, payload), rt.protos);
            && MetaHas(rt, payload, p.id, Get(meta, "packet_id"))
            && MetaHas(rt, payload, p.sender, Get(meta, "sender"))
            && MetaHas(rt, payload, p.dest, Get(meta, "destination"))
  {
    hide FieldHas;
    hide Mesh.ParsePacket;
    hide Mesh.GetNum;
    hide Proto.WellFormed;
    var p := rt.protos;
    if Mesh.ParsePacket(p, payload).Some? {
      ProtoField(rt, payload, Proto.Field(p.id, Proto.Fixed32, Proto.Implicit));
      ProtoField(rt, payload, Proto.Field(p.sender, Proto.Fixed32, Proto.Implicit));
      ProtoField(rt, payload, Proto.Field(p.dest, Proto.Fixed32, Proto.Implicit));
    } else {
      NoPacket(rt, payload, p.id);
      NoPacket(rt, payload, p.sender);
      NoPacket(rt, payload, p.dest);
    }
  }

  lemma ProtoRouting(rt: Runtime, encoding: string, payload: bytes)
    requires RuntimeOk(rt) && encoding != "json"
    ensures var (meta, p) := (PeekMeta(rt, encoding, payload), rt.protos);
            && MetaHas(rt, payload, p.hopStart, Get(meta, "hop_start"))
            && MetaHas(rt, payload, p.relayNode, Get(meta, "relay_node"))
            && HasFlag(rt, encoding, payload, "via_mqtt", p.viaMqtt, Get(meta, "via_mqtt"))
  {
    hide FieldHas;
    hide Mesh.ParsePacket;
    hide Mesh.GetNum;
    hide Proto.WellFormed;
    var p := rt.protos;
    if Mesh.ParsePacket(p, payload).Some? {
      ProtoField(rt, payload, Proto.Field(p.hopStart, Proto.UInt32, Proto.Implicit));
      ProtoField(rt, payload, Proto.Field(p.relayNode, Proto.UInt32, Proto.Implicit));
      ProtoField(rt, payload, Proto.Field(p.viaMqtt, Proto.Bool, Proto.Implicit));
    } else {
      NoPacket(rt, payload, p.hopStart);
      NoPacket(rt, payload, p.relayNode);
      NoPacket(rt, payload, p.viaMqtt);
    }
  }

  /** What the metadata says, whichever the encoding. */
  ghost predicate MetaOf(rt: Runtime, encoding: string, payload: bytes, meta: Dict) {
    var p := rt.protos;
    && Has(rt, encoding, payload, "id", p.id, Get(meta, "packet_id"))
    && Has(rt, encoding, payload, "from", p.sender, Get(meta, "sender"))
    && Has(rt, encoding, payload, "to", p.dest, Get(meta, "destination"))
    && Has(rt, encoding, payload, "hop_start", p.hopStart, Get(meta, "hop_start"))
    && HasRelay(rt, encoding, payload, p.relayNode, Relay(Get(meta, "relay_node")))
    && HasFlag(rt, encoding, payload, "via_mqtt", p.viaMqtt, Get(meta, "via_mqtt"))
  }

  lemma PeekedMeta(rt: Runtime, encoding: string, payload: bytes)
    requires RuntimeOk(rt)
    ensures MetaOf(rt, encoding, payload, PeekMeta(rt, encoding, payload))
  {
    hide RuntimeOk;
    var meta := PeekMeta(rt, encoding, payload);
    hide FieldHas;
    hide ObjectHas;
    if encoding == "json" {
      JsonMeta(rt, payload);
    } else {
      ProtoAddress(rt, encoding, payload);
      ProtoRouting(rt, encoding, payload);
      hide PeekMeta;
      hide NamedRelay;
      var relay := Get(meta, "relay_node");
      if relay.Int? {
        RelayNames(relay.n);
      }
    }
  }

  // ---- Each record ----

  lemma EntryWho(rt: Runtime, encoding: string, payload: bytes, outcome: string, base: Dict, meta: Dict, extra: Dict)
    requires MetaOf(rt, encoding, payload, meta) && NodeEntry(outcome, base, meta, extra).Done?
    requires extra.Keys !! WHO
    ensures var e := NodeEntry(outcome, base, meta, extra).value;
            && e.outcome == outcome && e.attrs.Keys == base.Keys + WHO + extra.Keys
            && (forall k | k in extra :: e.attrs[k] == extra[k])
            && (forall k | k in base && k !in extra && k !in WHO :: e.attrs[k] == base[k])
            && ShowsWho(rt, encoding, payload, e.attrs)
  {
    hide Has;
    hide HasRelay;
    hide HasFlag;
    hide Named;
    FmtNodeNames(Get(meta, "sender"));
    FmtNodeNames(Get(meta, "destination"));
    hide FmtNode;
    var a := NodeEntry(outcome, base, meta, extra).value.attrs;
    assert a["id"] == Get(meta, "packet_id");
    assert HasNode(rt, encoding, payload, "from", rt.protos.sender, a["from"]);
    assert HasNode(rt, encoding, payload, "to", rt.protos.dest, a["to"]);
  }

  lemma HopsShown(rt: Runtime, encoding: string, payload: bytes, meta: Dict, a: Dict)
    requires MetaOf(rt, encoding, payload, meta)
    requires forall k | k in HopAttrs(meta) :: k in a && a[k] == HopAttrs(meta)[k]
    ensures ShowsHops(rt, encoding, payload, a)
  {
    hide Has;
    hide HasRelay;
    hide HasFlag;
    hide Relay;
    var hops := HopAttrs(meta);
    assert "hop_start" in hops && "relay" in hops && "via_mqtt" in hops;
  }

  lemma KeySets()
    ensures WHERE !! WHO && WHERE !! HOPS && WHO !! HOPS
    ensures forall k | k in {"portnum", "hop_limit", "bytes"} :: k !in WHERE && k !in WHO && k !in HOPS
  {
  }

  lemma BaseKeys(topic: string, channel: string, encoding: string)
    ensures BaseAttrs(topic, channel, encoding).Keys == WHERE
  {
  }

  lemma WhereShown(topic: string, channel: string, encoding: string, a: Dict)
    requires forall k | k in WHERE :: k in a && a[k] == BaseAttrs(topic, channel, encoding)[k]
    ensures ShowsWhere(a, topic, channel, encoding)
  {
    var base := BaseAttrs(topic, channel, encoding);
    assert "topic" in WHERE && "channel" in WHERE && "encoding" in WHERE;
  }

  /** A record that names its nodes: what it takes from the message, and its other attributes as given. */
  lemma EntryTells(
    rt: Runtime, topic: string, channel: string, encoding: string, payload: bytes, outcome: string, meta: Dict,
    extra: Dict)
    requires MetaOf(rt, encoding, payload, meta) && extra.Keys !! WHO && extra.Keys !! WHERE
    requires NodeEntry(outcome, BaseAttrs(topic, channel, encoding), meta, extra).Done?
    ensures var e := NodeEntry(outcome, BaseAttrs(topic, channel, encoding), meta, extra).value;
            && e.outcome == outcome && e.attrs.Keys == WHERE + WHO + extra.Keys
            && (forall k | k in extra :: e.attrs[k] == extra[k])
            && ShowsWhere(e.attrs, topic, channel, encoding) && ShowsWho(rt, encoding, payload, e.attrs)
  {
    var base := BaseAttrs(topic, channel, encoding);
    KeySets();
    BaseKeys(topic, channel, encoding);
    EntryWho(rt, encoding, payload, outcome, base, meta, extra);
    hide *;
    WhereShown(topic, channel, encoding, NodeEntry(outcome, base, meta, extra).value.attrs);
  }

  /** The record shows where the message came from and what its outcome calls for. */
  ghost predicate Told(
    rt: Runtime, topic: string, channel: string, encoding: string, payload: bytes, outcome: Counter, e: Entry)
  {
    && e.outcome == OutcomeName(outcome)
    && ShowsWhere(e.attrs, topic, channel, encoding) && Content(rt, encoding, payload, outcome, e.attrs)
  }

  lemma DroppedTold(
    rt: Runtime, topic: string, channel: string, encoding: string, payload: bytes, meta: Dict, name: string)
    requires MetaOf(rt, encoding, payload, meta) && Names(rt, encoding, payload, name)
    ensures var extra := map["portnum" := Str(name)];
            var r := NodeEntry(OutcomeName(Dropped), BaseAttrs(topic, channel, encoding), meta, extra);
            r.Done? ==> Told(rt, topic, channel, encoding, payload, Dropped, r.value)
  {
    KeySets();
    var extra := map["portnum" := Str(name)];
    assert extra.Keys == {"portnum"} && extra["portnum"] == Str(name);
    hide *;
    if NodeEntry(OutcomeName(Dropped), BaseAttrs(topic, channel, encoding), meta, extra).Done? {
      EntryTells(rt, topic, channel, encoding, payload, OutcomeName(Dropped), meta, extra);
      var e := NodeEntry(OutcomeName(Dropped), BaseAttrs(topic, channel, encoding), meta, extra).value;
      DropAssemble(rt, topic, channel, encoding, payload, e, name);
    }
  }

  lemma DropAssemble(
    rt: Runtime, topic: string, channel: string, encoding: string, payload: bytes, e: Entry, name: string)
    requires e.outcome == OutcomeName(Dropped) && e.attrs.Keys == WHERE + WHO + {"portnum"}
    requires ShowsWhere(e.attrs, topic, channel, encoding) && ShowsWho(rt, encoding, payload, e.attrs)
    requires "portnum" in e.attrs && e.attrs["portnum"] == Str(name) && Names(rt, encoding, payload, name)
    ensures Told(rt, topic, channel, encoding, payload, Dropped, e)
  {
    hide WHERE;
    hide WHO;
    hide ShowsWhere;
    hide ShowsWho;
    hide Names;
    hide OutcomeName;
  }


  lemma HopKeys(meta: Dict)
    ensures HopAttrs(meta).Keys == HOPS
  {
  }

  lemma PassthruTold(rt: Runtime, topic: string, channel: string, encoding: string, payload: bytes, meta: Dict)
    requires MetaOf(rt, encoding, payload, meta)
    ensures var r := NodeEntry(OutcomeName(Stats.Passthru), BaseAttrs(topic, channel, encoding), meta, HopAttrs(meta));
            r.Done? ==> Told(rt, topic, channel, encoding, payload, Stats.Passthru, r.value)
  {
    KeySets();
    HopKeys(meta);
    var extra := HopAttrs(meta);
    if NodeEntry(OutcomeName(Stats.Passthru), BaseAttrs(topic, channel, encoding), meta, extra).Done? {
      hide NodeEntry;
      hide BaseAttrs;
      hide MetaOf;
      hide HopAttrs;
      hide ShowsWho;
      hide ShowsWhere;
      hide ShowsHops;
      hide OutcomeName;
      hide WHERE;
      hide WHO;
      hide HOPS;
      EntryTells(rt, topic, channel, encoding, payload, OutcomeName(Stats.Passthru), meta, extra);
      var a := NodeEntry(OutcomeName(Stats.Passthru), BaseAttrs(topic, channel, encoding), meta, extra).value.attrs;
      HopsShown(rt, encoding, payload, meta, a);
    }
  }

  lemma HopTold(
    rt: Runtime, topic: string, channel: string, encoding: string, payload: bytes, meta: Dict, outcome: Counter, n: int)
    requires MetaOf(rt, encoding, payload, meta) && HasHop(rt, encoding, payload, n)
    requires outcome == if n == 0 then Noop else Zerohop
    ensures var extra := map["hop_limit" := Int(n)] + HopAttrs(meta);
            var r := NodeEntry(OutcomeName(outcome), BaseAttrs(topic, channel, encoding), meta, extra);
            r.Done? ==> Told(rt, topic, channel, encoding, payload, outcome, r.value)
  {
    hide *;
    var extra := map["hop_limit" := Int(n)] + HopAttrs(meta);
    HopExtra(n, meta);
    if NodeEntry(OutcomeName(outcome), BaseAttrs(topic, channel, encoding), meta, extra).Done? {
      EntryTells(rt, topic, channel, encoding, payload, OutcomeName(outcome), meta, extra);
      var e := NodeEntry(OutcomeName(outcome), BaseAttrs(topic, channel, encoding), meta, extra).value;
      HopsShown(rt, encoding, payload, meta, e.attrs);
      HopAssemble(rt, topic, channel, encoding, payload, e, outcome, n);
    }
  }

  lemma HopExtra(n: int, meta: Dict)
    ensures var extra := map["hop_limit" := Int(n)] + HopAttrs(meta);
            && extra.Keys == HOPS + {"hop_limit"} && extra["hop_limit"] == Int(n)
            && extra.Keys !! WHO && extra.Keys !! WHERE
            && (forall k | k in HopAttrs(meta) :: extra[k] == HopAttrs(meta)[k])
            && WHERE + WHO + extra.Keys == WHERE + WHO + HOPS + {"hop_limit"}
  {
    KeySets();
    HopKeys(meta);
    hide HopAttrs;
    hide WHERE;
    hide WHO;
    hide HOPS;
    var limit := map["hop_limit" := Int(n)];
    assert limit.Keys == {"hop_limit"} && "hop_limit" in limit;
  }

  lemma HopAssemble(
    rt: Runtime, topic: string, channel: string, encoding: string, payload: bytes, e: Entry, outcome: Counter, n: int)
    requires e.outcome == OutcomeName(outcome) && outcome == (if n == 0 then Noop else Zerohop)
    requires e.attrs.Keys == WHERE + WHO + HOPS + {"hop_limit"}
    requires ShowsWhere(e.attrs, topic, channel, encoding) && ShowsWho(rt, encoding, payload, e.attrs)
    requires ShowsHops(rt, encoding, payload, e.attrs)
    requires "hop_limit" in e.attrs && e.attrs["hop_limit"] == Int(n) && HasHop(rt, encoding, payload, n)
    ensures Told(rt, topic, channel, encoding, payload, outcome, e)
  {
    hide WHERE;
    hide WHO;
    hide HOPS;
    hide ShowsWhere;
    hide ShowsWho;
    hide ShowsHops;
    hide HasHop;
    hide OutcomeName;
  }


  lemma WarnTold(rt: Runtime, topic: string, channel: string, encoding: string, payload: bytes)
    ensures Told(rt, topic, channel, encoding, payload, Errors,
                 Entry("warn", BaseAttrs(topic, channel, encoding)["bytes" := Int(|payload|)]))
  {
    KeySets();
    BaseKeys(topic, channel, encoding);
    hide BaseAttrs;
    hide ShowsWhere;
    hide WHERE;
    WhereShown(topic, channel, encoding, BaseAttrs(topic, channel, encoding)["bytes" := Int(|payload|)]);
  }

  lemma RewriteTold(
    rt: Runtime, topic: string, channel: string, encoding: string, payload: bytes, z: ZeroHop, e: Entry)
    requires RuntimeOk(rt) && Rewrite(rt, encoding, payload) == Done(z)
    requires z.oldHop.Some? ==> HasHop(rt, encoding, payload, z.oldHop.value)
    requires e in DecideRewrite(BaseAttrs(topic, channel, encoding), payload, z).entries
    ensures |DecideRewrite(BaseAttrs(topic, channel, encoding), payload, z).counters| == 1
    ensures var outcome := DecideRewrite(BaseAttrs(topic, channel, encoding), payload, z).counters[0];
            Told(rt, topic, channel, encoding, payload, outcome, e)
  {
    hide *;
    if z.oldHop.Some? {
      RewriteMeta(rt, encoding, payload);
      PeekedMeta(rt, encoding, payload);
      var n := z.oldHop.value;
      HopTold(rt, topic, channel, encoding, payload, z.meta, if n == 0 then Noop else Zerohop, n);
    }
    WarnTold(rt, topic, channel, encoding, payload);
    RewriteEntries(BaseAttrs(topic, channel, encoding), payload, z, e);
  }

  /** The one record of a rewrite, whatever its base attributes. */
  lemma RewriteEntries(base: Dict, payload: bytes, z: ZeroHop, e: Entry)
    requires e in DecideRewrite(base, payload, z).entries
    ensures |DecideRewrite(base, payload, z).counters| == 1
    ensures var outcome := DecideRewrite(base, payload, z).counters[0];
            match z.oldHop
            case None => outcome == Errors && e == Entry("warn", base["bytes" := Int(|payload|)])
            case Some(n) =>
              && outcome == (if n == 0 then Noop else Zerohop)
              && NodeEntry(OutcomeName(outcome), base, z.meta, map["hop_limit" := Int(n)] + HopAttrs(z.meta)) == Done(e)
  {
    hide NodeEntry;
    hide HopAttrs;
  }


  lemma DropTold(
    rt: Runtime, cfg: Config.Policy, topic: string, channel: string, encoding: string, payload: bytes, e: Entry)
    requires RuntimeOk(rt) && Config.ShouldDrop(cfg, channel, ReadPortnum(rt, encoding, payload))
    requires NodeEntry("dropped", BaseAttrs(topic, channel, encoding), PeekMeta(rt, encoding, payload),
                       map["portnum" := Str(ReadPortnum(rt, encoding, payload).value)]) == Done(e)
    ensures Told(rt, topic, channel, encoding, payload, Dropped, e)
  {
    hide RuntimeOk;
    hide ReadPortnum;
    hide PeekMeta;
    hide Names;
    hide NodeEntry;
    hide MetaOf;
    hide Told;
    var name := ReadPortnum(rt, encoding, payload).value;
    ReadsPortnum(rt, encoding, payload, name);
    PeekedMeta(rt, encoding, payload);
    DroppedTold(rt, topic, channel, encoding, payload, PeekMeta(rt, encoding, payload), name);
  }

  /** Every record tells the truth: each attribute of each outcome's record is there, no other is,
      and it holds what the message itself says under that name. */
  lemma RecordContent(
    rt: Runtime, cfg: Config.Policy, topic: string, payload: bytes, channel: string, encoding: string, e: Entry)
    requires RuntimeOk(rt) && |payload| <= Mesh.MAX_MQTT_PACKET
    requires Topic.Parse(topic) == Some((channel, encoding))
    requires e in Decide(rt, cfg, topic, payload).entries
    ensures |Decide(rt, cfg, topic, payload).counters| == 1
    ensures Told(rt, topic, channel, encoding, payload, Decide(rt, cfg, topic, payload).counters[0], e)
  {
    hide RuntimeOk;
    hide Topic.Parse;
    hide ReadPortnum;
    hide Rewrite;
    hide PeekMeta;
    hide Told;
    hide HasHop;
    hide NodeEntry;
    hide HopAttrs;
    hide BaseAttrs;
    hide MetaOf;
    if Config.ShouldDrop(cfg, channel, ReadPortnum(rt, encoding, payload)) {
      DropTold(rt, cfg, topic, channel, encoding, payload, e);
    } else if !Config.ShouldZerohop(cfg, channel) {
      PeekedMeta(rt, encoding, payload);
      PassthruTold(rt, topic, channel, encoding, payload, PeekMeta(rt, encoding, payload));
    } else {
      hide DecideRewrite;
      var z := Rewrite(rt, encoding, payload).value;
      RewriteHop(rt, encoding, payload);
      if z.oldHop.Some? {
        ReadsHop(rt, encoding, payload, z.oldHop.value);
      }
      RewriteTold(rt, topic, channel, encoding, payload, z, e);
    }
  }
}
