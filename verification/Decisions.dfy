/** The decisions of the pipeline, in terms of what the message itself says: the parsed fields and the
    ciphertext of a protobuf packet, the keys of a JSON one. */
module Decisions {
  import opened Bytes
  import opened JsonPacket
  import Mesh
  import Proto
  import ProtoLaws
  import Wire
  import Topic
  import Config
  import opened Stats
  import opened NodeId
  import opened Pipeline
  import opened PipelineLaws

  // ---- What a message says ----

  /** The payload names this portnum. */
  ghost predicate Names(rt: Runtime, encoding: string, payload: bytes, name: string) {
    if encoding == "json" then exists d :: rt.json.loads(payload) == Some(Obj(d)) && SaysPortnum(rt.lower, d, name)
    else Mesh.Names(rt.protos, rt.aes, payload, name)
  }

  /** The payload carries a packet with this hop limit. */
  ghost predicate HasHop(rt: Runtime, encoding: string, payload: bytes, n: int) {
    if encoding == "json" then exists d :: rt.json.loads(payload) == Some(Obj(d)) && SaysHop(d, n)
    else n >= 0 && exists pkt :: Mesh.HasPacket(rt.protos, payload, pkt) && Mesh.Holds(pkt, rt.protos.hopLimit, n)
  }

  /** A node id that can be shown: absent, null, a string, an integer or a boolean. */
  predicate PlainNode(d: Dict, key: string) {
    key in d ==> d[key].Null? || d[key].Str? || d[key].Int? || d[key].Bool?
  }

  ghost predicate NodesShown(rt: Runtime, encoding: string, payload: bytes) {
    encoding == "json" ==>
      forall d | rt.json.loads(payload) == Some(Obj(d)) :: PlainNode(d, "from") && PlainNode(d, "to")
  }

  ghost predicate CanDump(rt: Runtime, encoding: string, payload: bytes) {
    encoding == "json" ==>
      forall d | rt.json.loads(payload) == Some(Obj(d)) :: rt.json.dumps(Obj(d["hop_limit" := Int(0)])).Some?
  }

  /** The readers read exactly what the message says. */
  lemma ReadsPortnum(rt: Runtime, encoding: string, payload: bytes, name: string)
    requires RuntimeOk(rt)
    ensures ReadPortnum(rt, encoding, payload) == Some(name) <==> Names(rt, encoding, payload, name)
  {
    hide Mesh.WF;
    hide Mesh.Names;
    hide Mesh.Portnum;
    hide PortnumOf;
    hide SaysPortnum;
    if encoding == "json" {
      var loaded := rt.json.loads(payload);
      if loaded.Some? && loaded.value.Obj? {
        PortnumExact(rt.lower, loaded.value.members, name);
      }
    } else {
      Mesh.PortnumExact(rt.protos, rt.aes, payload, name);
    }
  }

  lemma ReadsHop(rt: Runtime, encoding: string, payload: bytes, n: int)
    requires RuntimeOk(rt)
    ensures ReadHop(rt, encoding, payload) == Some(n) <==> HasHop(rt, encoding, payload, n)
  {
    hide Mesh.WF;
    hide Mesh.HopLimit;
    hide HopLimit;
    hide SaysHop;
    if encoding == "json" {
      HopLimitExact(rt.json, payload, n);
    } else {
      Mesh.HopLimitExact(rt.protos, payload, n);
    }
  }

  lemma NodesAndDump(rt: Runtime, encoding: string, payload: bytes)
    ensures BadNodes(rt, encoding, payload) <==> !NodesShown(rt, encoding, payload)
    ensures DumpFails(rt, encoding, payload) <==> !CanDump(rt, encoding, payload)
  {
  }

  // ---- Drop ----

  /** The drop filter is on, lists a portnum the payload names, and has the channel in scope. */
  ghost predicate DropApplies(rt: Runtime, cfg: Config.Policy, channel: string, encoding: string, payload: bytes) {
    && cfg.dropEnabled && (cfg.dropChannels.None? || channel in cfg.dropChannels.value)
    && exists name :: name in cfg.dropPortnums && Names(rt, encoding, payload, name)
  }

  lemma DropAppliesExact(rt: Runtime, cfg: Config.Policy, channel: string, encoding: string, payload: bytes)
    requires RuntimeOk(rt)
    ensures Dropping(rt, cfg, channel, encoding, payload) <==> DropApplies(rt, cfg, channel, encoding, payload)
  {
    hide RuntimeOk;
    hide ReadPortnum;
    hide Names;
    forall name
      ensures ReadPortnum(rt, encoding, payload) == Some(name) <==> Names(rt, encoding, payload, name)
    {
      ReadsPortnum(rt, encoding, payload, name);
    }
  }

  /** For every message on a packet topic: it is denied exactly when the drop filter applies to the
      portnum it names and its nodes can be shown. */
  lemma DropDecision(
    rt: Runtime, cfg: Config.Policy, topic: string, payload: bytes, channel: string, encoding: string)
    requires RuntimeOk(rt) && Topic.Parse(topic) == Some((channel, encoding))
    ensures Decide(rt, cfg, topic, payload).action == Drop
       <==> DropApplies(rt, cfg, channel, encoding, payload) && NodesShown(rt, encoding, payload)
  {
    hide RuntimeOk;
    hide Topic.Parse;
    hide Decide;
    hide Dropping;
    hide DropApplies;
    hide BadNodes;
    hide NodesShown;
    DropExact(rt, cfg, topic, payload);
    DropAppliesExact(rt, cfg, channel, encoding, payload);
    NodesAndDump(rt, encoding, payload);
  }

  /** A packet encrypted under the default key is denied exactly when its own inner message's portnum
      has a name, that name is listed, drop is on, and the channel is in scope. */
  lemma EncryptedDrop(
    rt: Runtime, cfg: Config.Policy, topic: string, channel: string, env: Proto.Message, data: Proto.Message,
    payload: bytes)
    requires RuntimeOk(rt) && Topic.Parse(topic) == Some((channel, "e"))
    requires ProtoLaws.Valid(rt.protos.envelope, env, Wire.MAX_DEPTH)
    requires ProtoLaws.Valid(rt.protos.data, data, Wire.MAX_DEPTH)
    requires Mesh.Packet(rt.protos, env).Some?
    requires Mesh.Encrypts(rt.protos, rt.aes, Mesh.Packet(rt.protos, env).value, data)
    requires Proto.Serialize(rt.protos.envelope, env) == Some(payload)
    ensures Decide(rt, cfg, topic, payload).action == Drop
       <==> && cfg.dropEnabled && (cfg.dropChannels.None? || channel in cfg.dropChannels.value)
            && exists name :: name in cfg.dropPortnums && Mesh.NameOf(rt.protos, data, Some(name))
  {
    DropDecision(rt, cfg, topic, payload, channel, "e");
    hide Mesh.WF;
    hide Mesh.Names;
    hide Mesh.NameOf;
    hide Mesh.Encrypts;
    hide Mesh.Packet;
    hide Mesh.Portnum;
    hide Proto.Serialize;
    hide ProtoLaws.Valid;
    hide Topic.Parse;
    hide Decide;
    forall name
      ensures Mesh.Names(rt.protos, rt.aes, payload, name) <==> Mesh.NameOf(rt.protos, data, Some(name))
    {
      Mesh.PortnumExact(rt.protos, rt.aes, payload, name);
      Mesh.PortnumRecovered(rt.protos, rt.aes, env, data, payload, Some(name));
    }
  }

  /** A JSON packet is denied exactly when the name it says is listed, drop is on, the channel is in
      scope, and its two node ids can be shown. */
  lemma JsonDrop(rt: Runtime, cfg: Config.Policy, topic: string, channel: string, payload: bytes, d: Dict)
    requires RuntimeOk(rt) && Topic.Parse(topic) == Some((channel, "json"))
    requires rt.json.loads(payload) == Some(Obj(d))
    ensures Decide(rt, cfg, topic, payload).action == Drop
       <==> && cfg.dropEnabled && (cfg.dropChannels.None? || channel in cfg.dropChannels.value)
            && (exists name :: name in cfg.dropPortnums && SaysPortnum(rt.lower, d, name))
            && PlainNode(d, "from") && PlainNode(d, "to")
  {
    DropDecision(rt, cfg, topic, payload, channel, "json");
    hide RuntimeOk;
    hide SaysPortnum;
    hide PlainNode;
    hide Topic.Parse;
    hide Decide;
    assert forall name :: Names(rt, "json", payload, name) <==> SaysPortnum(rt.lower, d, name);
    hide Names;
  }

  // ---- Zero-hop ----

  /** For every message on a packet topic: it is rewritten exactly when zero-hop is on for the channel,
      it says it has a hop limit other than 0, the drop filter does not apply, its nodes can be shown
      and its new tree can be dumped; and what is written says hop limit 0. */
  lemma ZeroHopDecision(
    rt: Runtime, cfg: Config.Policy, topic: string, payload: bytes, channel: string, encoding: string)
    requires RuntimeOk(rt) && |payload| <= Mesh.MAX_MQTT_PACKET
    requires Topic.Parse(topic) == Some((channel, encoding))
    ensures Decide(rt, cfg, topic, payload).action.Modify?
       <==> && cfg.zerohopEnabled && channel in cfg.zerohopChannels
            && (exists n :: n != 0 && HasHop(rt, encoding, payload, n))
            && !DropApplies(rt, cfg, channel, encoding, payload)
            && NodesShown(rt, encoding, payload) && CanDump(rt, encoding, payload)
    ensures Decide(rt, cfg, topic, payload).action.Modify? ==>
              HasHop(rt, encoding, Decide(rt, cfg, topic, payload).action.payload, 0)
  {
    ActionExact(rt, cfg, topic, payload, channel, encoding);
    if Decide(rt, cfg, topic, payload).action.Modify? {
      Rewritten(rt, cfg, topic, payload, channel, encoding);
      ReadsHop(rt, encoding, Decide(rt, cfg, topic, payload).action.payload, 0);
    }
    hide RuntimeOk;
    hide Topic.Parse;
    hide Decide;
    hide Dropping;
    hide DropApplies;
    hide BadNodes;
    hide DumpFails;
    hide NodesShown;
    hide CanDump;
    hide HasHop;
    hide ReadHop;
    DropAppliesExact(rt, cfg, channel, encoding, payload);
    NodesAndDump(rt, encoding, payload);
    forall n
      ensures ReadHop(rt, encoding, payload) == Some(n) <==> HasHop(rt, encoding, payload, n)
    {
      ReadsHop(rt, encoding, payload, n);
    }
  }
}
