/** What the decision pipeline guarantees, for every message, schema, cipher and configuration. */
module PipelineLaws {
  import opened Bytes
  import opened JsonPacket
  import Mesh
  import Proto
  import Topic
  import Splitting
  import Config
  import opened Stats
  import opened NodeId
  import opened Pipeline

  // ---- One outcome per message, and late failures ----

  /** The drop filter applies: a readable, listed portnum on a channel in scope. */
  predicate Dropping(rt: Runtime, cfg: Config.Policy, channel: string, encoding: string, payload: bytes) {
    var portnum := ReadPortnum(rt, encoding, payload);
    && cfg.dropEnabled
    && portnum.Some? && portnum.value in cfg.dropPortnums
    && (cfg.dropChannels.None? || channel in cfg.dropChannels.value)
  }

  /** The JSON packet names a sender or destination that cannot be formatted as a node id. */
  predicate BadNodes(rt: Runtime, encoding: string, payload: bytes) {
    encoding == "json" && match rt.json.loads(payload)
                          case Some(Obj(d)) => !Formattable(Get(d, "from")) || !Formattable(Get(d, "to"))
                          case _ => false
  }

  /** Re-encoding the rewritten JSON raises. */
  predicate DumpFails(rt: Runtime, encoding: string, payload: bytes) {
    encoding == "json" && match rt.json.loads(payload)
                          case Some(Obj(d)) => rt.json.dumps(Obj(d["hop_limit" := Int(0)])).None?
                          case _ => false
  }

  /** A hop limit can be read, and it is not 0. */
  predicate HopsLeft(rt: Runtime, encoding: string, payload: bytes) {
    ReadHop(rt, encoding, payload).Some? && ReadHop(rt, encoding, payload).value != 0
  }

  /** The outcome of a message, from what it carries and what the configuration says. */
  function Outcome(rt: Runtime, cfg: Config.Policy, topic: string, payload: bytes): Counter {
    match Topic.Parse(topic)
    case None => Skipped
    case Some((channel, encoding)) =>
      if Dropping(rt, cfg, channel, encoding, payload) then Dropped
      else if !(cfg.zerohopEnabled && channel in cfg.zerohopChannels) then Stats.Passthru
      else match ReadHop(rt, encoding, payload)
        case None => Errors
        case Some(hop) => if hop == 0 then Noop else if DumpFails(rt, encoding, payload) then Errors else Zerohop
  }

  /** The outcome was counted, and building its log record then raised. */
  predicate Late(rt: Runtime, cfg: Config.Policy, topic: string, payload: bytes) {
    && Topic.Parse(topic).Some?
    && BadNodes(rt, Topic.Parse(topic).value.1, payload)
    && Outcome(rt, cfg, topic, payload) != Errors
  }

  /** The outcome a log record shows for a counter; skipped messages are not logged. */
  function OutcomeName(c: Counter): string {
    match c
    case Zerohop => "zerohop"
    case Passthru => "passthru"
    case Noop => "noop"
    case Dropped => "dropped"
    case Skipped => ""
    case Errors => "warn"
  }

  lemma MetaReads(d: Dict)
    ensures Get(Meta(d), "sender") == Get(d, "from")
    ensures Get(Meta(d), "destination") == Get(d, "to")
  {
    MetaGet(d, META_KEYS, 1);
    MetaGet(d, META_KEYS, 2);
  }

  /** Node ids of a protobuf packet are integers, so only JSON messages can fail late. */
  lemma NodesReadable(rt: Runtime, encoding: string, payload: bytes)
    ensures BadNodes(rt, encoding, payload)
       <==> || !Formattable(Get(PeekMeta(rt, encoding, payload), "sender"))
            || !Formattable(Get(PeekMeta(rt, encoding, payload), "destination"))
  {
    if encoding == "json" {
      var loaded := rt.json.loads(payload);
      if loaded.Some? && loaded.value.Obj? {
        MetaReads(loaded.value.members);
      }
    }
  }

  /** The rewrite reports the metadata a peek at the payload finds. */
  lemma RewriteMeta(rt: Runtime, encoding: string, payload: bytes)
    requires Rewrite(rt, encoding, payload).Done? && Rewrite(rt, encoding, payload).value.oldHop.Some?
    ensures Rewrite(rt, encoding, payload).value.meta == PeekMeta(rt, encoding, payload)
  {
    hide Mesh.PacketMeta;
    hide Meta;
    hide Proto.Parse;
    hide Proto.Serialize;
  }

  lemma RewriteHop(rt: Runtime, encoding: string, payload: bytes)
    requires RuntimeOk(rt) && |payload| <= Mesh.MAX_MQTT_PACKET
    ensures Rewrite(rt, encoding, payload).Raised?
       <==> DumpFails(rt, encoding, payload) && HopsLeft(rt, encoding, payload)
    ensures Rewrite(rt, encoding, payload).Done? ==>
              Rewrite(rt, encoding, payload).value.oldHop == ReadHop(rt, encoding, payload)
  {
    hide Mesh.WF;
    hide Meta;
    hide Mesh.ZeroHopSpec;
    hide Mesh.HopLimit;
    if encoding != "json" {
      Mesh.ZeroHopExact(rt.protos, payload);
    }
  }

  /** Each message is counted under exactly one outcome, plus one error when logging it fails late;
      the reply is the outcome's own, except that a late failure passes the message on. */
  lemma OneOutcome(rt: Runtime, cfg: Config.Policy, topic: string, payload: bytes)
    requires RuntimeOk(rt) && |payload| <= Mesh.MAX_MQTT_PACKET
    ensures var v := Decide(rt, cfg, topic, payload);
            var outcome := Outcome(rt, cfg, topic, payload);
            var late := Late(rt, cfg, topic, payload);
            && v.counters == (if late then [outcome, Errors] else [outcome])
            && (v.action == Drop <==> outcome == Dropped && !late)
            && (v.action.Modify? <==> outcome == Zerohop && !late)
  {
    hide Mesh.WF;
    hide Topic.Parse;
    hide ReadPortnum;
    hide NodeEntry;
    hide BadNodes;
    hide DumpFails;
    hide HopAttrs;
    hide BaseAttrs;
    hide PeekMeta;
    hide ReadHop;
    var parsed := Topic.Parse(topic);
    if parsed.Some? {
      var (channel, encoding) := parsed.value;
      NodesReadable(rt, encoding, payload);
      RewriteHop(rt, encoding, payload);
      if Rewrite(rt, encoding, payload).Done? {
        RewriteShape(rt, encoding, payload);
        if Rewrite(rt, encoding, payload).value.oldHop.Some? {
          RewriteMeta(rt, encoding, payload);
        }
      }
      hide Rewrite;
    }
  }

  // ---- Drop ----

  /** The drop filter denies the message. */
  predicate Denied(rt: Runtime, cfg: Config.Policy, channel: string, encoding: string, payload: bytes) {
    Dropping(rt, cfg, channel, encoding, payload) && !BadNodes(rt, encoding, payload)
  }

  /** A message is denied exactly when the topic parses, drop is enabled, its portnum could be read
      and is listed, the channel is in scope, and its record could be built; the zero-hop settings
      play no part, and a message whose portnum cannot be read is never denied. */
  lemma DropExact(rt: Runtime, cfg: Config.Policy, topic: string, payload: bytes)
    ensures Decide(rt, cfg, topic, payload).action == Drop
       <==> && Topic.Parse(topic).Some?
            && Denied(rt, cfg, Topic.Parse(topic).value.0, Topic.Parse(topic).value.1, payload)
  {
    hide Topic.Parse;
    hide ReadPortnum;
    hide NodeEntry;
    hide BadNodes;
    hide HopAttrs;
    hide BaseAttrs;
    hide PeekMeta;
    hide Rewrite;
    var parsed := Topic.Parse(topic);
    if parsed.Some? {
      NodesReadable(rt, parsed.value.1, payload);
    }
  }

  /** A dropped message would be dropped under any other zero-hop settings. */
  lemma DropIgnoresZerohop(rt: Runtime, cfg: Config.Policy, other: Config.Policy, topic: string, payload: bytes)
    requires other.dropEnabled == cfg.dropEnabled && other.dropChannels == cfg.dropChannels
    requires other.dropPortnums == cfg.dropPortnums
    ensures Decide(rt, cfg, topic, payload).action == Drop <==> Decide(rt, other, topic, payload).action == Drop
  {
    hide Decide;
    hide Topic.Parse;
    hide ReadPortnum;
    hide BadNodes;
    DropExact(rt, cfg, topic, payload);
    DropExact(rt, other, topic, payload);
  }

  /** A message the drop filter applies to is counted as dropped, and is denied unless its record
      cannot be built. */
  lemma DropBranch(
    rt: Runtime, cfg: Config.Policy, topic: string, payload: bytes, channel: string, encoding: string)
    requires Topic.Parse(topic) == Some((channel, encoding)) && Dropping(rt, cfg, channel, encoding, payload)
    ensures var v := Decide(rt, cfg, topic, payload);
            if BadNodes(rt, encoding, payload) then v == Verdict(PassOn, [Dropped, Errors], [])
            else v.action == Drop && v.counters == [Dropped]
  {
    hide Topic.Parse;
    hide ReadPortnum;
    hide NodeEntry;
    hide BadNodes;
    hide BaseAttrs;
    hide PeekMeta;
    hide Rewrite;
    NodesReadable(rt, encoding, payload);
  }

  lemma BadSender(rt: Runtime, payload: bytes, d: Dict)
    requires rt.json.loads(payload) == Some(Obj(d)) && !Formattable(Get(d, "from"))
    ensures BadNodes(rt, "json", payload)
  {
  }

  const WITNESS_LEVELS: seq<string> := Topic.Levels(["2"], "json", "LongFast", "!a")

  lemma WitnessTopic()
    ensures Topic.Parse(Splitting.Join(WITNESS_LEVELS, Topic.SEP)) == Some(("LongFast", "json"))
  {
    Topic.ParseComplete(Splitting.Join(WITNESS_LEVELS, Topic.SEP), ["2"], "json", "LongFast", "!a");
  }

  /** "A counted drop is a drop" is false: this message is counted as dropped, and delivered. */
  lemma CountedDropDelivered(rt: Runtime, topic: string, payload: bytes)
    requires topic == Splitting.Join(WITNESS_LEVELS, Topic.SEP)
    requires rt.json.loads(payload) == Some(Obj(map["portnum" := Str("RANGE_TEST_APP"), "from" := Float("1.5")]))
    ensures var cfg := Config.Policy(true, {}, true, None, {"RANGE_TEST_APP"});
            Decide(rt, cfg, topic, payload) == Verdict(PassOn, [Dropped, Errors], [])
  {
    var d := map["portnum" := Str("RANGE_TEST_APP"), "from" := Float("1.5")];
    WitnessTopic();
    BadSender(rt, payload, d);
    PortnumExact(rt.lower, d, "RANGE_TEST_APP");
    assert TopLevelSays(d, "RANGE_TEST_APP") && forall n :: !WrapperSays(d, n);
    hide Decide;
    hide BadNodes;
    hide Topic.Parse;
    hide PortnumOf;
    DropBranch(rt, Config.Policy(true, {}, true, None, {"RANGE_TEST_APP"}), topic, payload, "LongFast", "json");
  }

  // ---- Zero-hop ----

  /** The payload subscribers receive, if the message is delivered at all. */
  function Delivered(action: ProcessResult, payload: bytes): Option<bytes> {
    match action
    case PassOn => Some(payload)
    case Modify(p) => Some(p)
    case Drop => None
  }

  lemma RewriteFixpoint(rt: Runtime, encoding: string, payload: bytes)
    requires RuntimeOk(rt)
    requires Rewrite(rt, encoding, payload).Done? && Rewrite(rt, encoding, payload).value.modified.Some?
    ensures var z := Rewrite(rt, encoding, payload).value;
            && ReadHop(rt, encoding, z.modified.value) == Some(0)
            && ReadPortnum(rt, encoding, z.modified.value) == ReadPortnum(rt, encoding, payload)
            && Rewrite(rt, encoding, z.modified.value) == Done(ZeroHop(None, Some(0), z.meta))
  {
    hide Mesh.WF;
    hide Meta;
    hide HopFieldsOk;
    hide ZeroHopSpec;
    hide Mesh.ZeroHopSpec;
    hide Portnum;
    hide Mesh.Portnum;
    if encoding == "json" {
      ZeroHopOnlyHopLimit(rt.json, payload);
      PortnumUnchanged(rt.json, rt.lower, payload);
    } else {
      Mesh.ZeroHopFixpoint(rt.protos, payload);
      Mesh.PortnumUnchanged(rt.protos, rt.aes, payload);
    }
  }

  /** Zero-hopping is a fixpoint of the whole pipeline: a payload floodgate wrote passes through it
      again unchanged, is counted as one no-op, and never turns into a drop. */
  lemma Fixpoint(rt: Runtime, cfg: Config.Policy, topic: string, payload: bytes)
    requires RuntimeOk(rt) && Decide(rt, cfg, topic, payload).action.Modify?
    ensures var again := Decide(rt, cfg, topic, Decide(rt, cfg, topic, payload).action.payload);
            again.action == PassOn && again.counters == [Noop]
  {
    hide Mesh.WF;
    hide Topic.Parse;
    hide ReadPortnum;
    hide Rewrite;
    hide HopAttrs;
    hide BaseAttrs;
    hide PeekMeta;
    var (channel, encoding) := Topic.Parse(topic).value;
    RewriteFixpoint(rt, encoding, payload);
  }

  predicate ArrivesWithHop0(rt: Runtime, encoding: string, delivered: Option<bytes>) {
    delivered.Some? && ReadHop(rt, encoding, delivered.value) == Some(0)
  }

  /** A message with hops left, on a zero-hop channel, that the drop filter does not apply to, whose
      record can be built and whose new tree can be dumped. */
  predicate Zeroed(rt: Runtime, cfg: Config.Policy, channel: string, encoding: string, payload: bytes) {
    && Config.ShouldZerohop(cfg, channel) && HopsLeft(rt, encoding, payload)
    && !Dropping(rt, cfg, channel, encoding, payload)
    && !BadNodes(rt, encoding, payload) && !DumpFails(rt, encoding, payload)
  }

  /** What becomes of every message on a packet topic: denied, rewritten, or passed on as it is. */
  lemma ActionExact(
    rt: Runtime, cfg: Config.Policy, topic: string, payload: bytes, channel: string, encoding: string)
    requires RuntimeOk(rt) && |payload| <= Mesh.MAX_MQTT_PACKET
    requires Topic.Parse(topic) == Some((channel, encoding))
    ensures var action := Decide(rt, cfg, topic, payload).action;
            && (action == Drop <==> Denied(rt, cfg, channel, encoding, payload))
            && (action.Modify? <==> Zeroed(rt, cfg, channel, encoding, payload))
  {
    OneOutcome(rt, cfg, topic, payload);
    OutcomeExact(rt, cfg, topic, payload, channel, encoding);
    hide RuntimeOk;
    hide Decide;
    hide Topic.Parse;
    hide Outcome;
    hide HopsLeft;
    hide Dropping;
    hide BadNodes;
    hide DumpFails;
    hide Config.ShouldZerohop;
  }

  lemma OutcomeExact(
    rt: Runtime, cfg: Config.Policy, topic: string, payload: bytes, channel: string, encoding: string)
    requires Topic.Parse(topic) == Some((channel, encoding))
    ensures Outcome(rt, cfg, topic, payload) == Dropped <==> Dropping(rt, cfg, channel, encoding, payload)
    ensures Outcome(rt, cfg, topic, payload) == Zerohop
       <==> && Config.ShouldZerohop(cfg, channel) && HopsLeft(rt, encoding, payload)
            && !Dropping(rt, cfg, channel, encoding, payload) && !DumpFails(rt, encoding, payload)
  {
    hide Topic.Parse;
    hide ReadHop;
    hide Dropping;
    hide DumpFails;
  }

  lemma Rewritten(
    rt: Runtime, cfg: Config.Policy, topic: string, payload: bytes, channel: string, encoding: string)
    requires RuntimeOk(rt) && Topic.Parse(topic) == Some((channel, encoding))
    requires Decide(rt, cfg, topic, payload).action.Modify?
    ensures ReadHop(rt, encoding, Decide(rt, cfg, topic, payload).action.payload) == Some(0)
  {
    hide Mesh.WF;
    hide Topic.Parse;
    hide ReadPortnum;
    hide Rewrite;
    hide HopAttrs;
    hide BaseAttrs;
    hide PeekMeta;
    hide NodeEntry;
    RewriteFixpoint(rt, encoding, payload);
  }

  /** The end-to-end guarantee, and exactly when it fails: a message on a packet topic reaches its
      subscribers with hop limit 0 if and only if it is not denied and either carried hop limit 0
      already or is on a zero-hop channel with a readable hop limit, its node ids can be formatted,
      and its new tree can be dumped. */
  lemma ZeroHopGuarantee(
    rt: Runtime, cfg: Config.Policy, topic: string, payload: bytes, channel: string, encoding: string)
    requires RuntimeOk(rt) && |payload| <= Mesh.MAX_MQTT_PACKET
    requires Topic.Parse(topic) == Some((channel, encoding))
    ensures ArrivesWithHop0(rt, encoding, Delivered(Decide(rt, cfg, topic, payload).action, payload))
       <==> && !Denied(rt, cfg, channel, encoding, payload)
            && (ReadHop(rt, encoding, payload) == Some(0)
                || (&& Config.ShouldZerohop(cfg, channel) && ReadHop(rt, encoding, payload).Some?
                    && !BadNodes(rt, encoding, payload) && !DumpFails(rt, encoding, payload)))
  {
    ActionExact(rt, cfg, topic, payload, channel, encoding);
    if Decide(rt, cfg, topic, payload).action.Modify? {
      Rewritten(rt, cfg, topic, payload, channel, encoding);
    }
    hide RuntimeOk;
    hide Decide;
    hide Topic.Parse;
    hide ReadHop;
    hide Dropping;
    hide BadNodes;
    hide DumpFails;
  }

  /** "On a zero-hop channel nothing is delivered with hops left" is false: this message is counted as
      zero-hopped, its record cannot be built, and it goes out with three hops left. */
  lemma HopsLeftDelivered(rt: Runtime, topic: string, payload: bytes)
    requires RuntimeOk(rt) && |payload| <= Mesh.MAX_MQTT_PACKET
    requires topic == Splitting.Join(WITNESS_LEVELS, Topic.SEP)
    requires rt.json.loads(payload) == Some(Obj(map["hop_limit" := Int(3), "from" := Float("1.5")]))
    requires rt.json.dumps(Obj(map["hop_limit" := Int(0), "from" := Float("1.5")])).Some?
    ensures var v := Decide(rt, Config.Policy(true, {"LongFast"}, false, None, {}), topic, payload);
            && v.action == PassOn && v.counters == [Zerohop, Errors]
            && ReadHop(rt, "json", payload) == Some(3)
  {
    var d := map["hop_limit" := Int(3), "from" := Float("1.5")];
    var cfg := Config.Policy(true, {"LongFast"}, false, None, {});
    WitnessTopic();
    BadSender(rt, payload, d);
    WitnessHop(rt, payload, d);
    hide RuntimeOk;
    hide Decide;
    hide Topic.Parse;
    hide HopsLeft;
    hide ReadHop;
    hide ReadPortnum;
    hide BadNodes;
    hide DumpFails;
    OneOutcome(rt, cfg, topic, payload);
    OutcomeExact(rt, cfg, topic, payload, "LongFast", "json");
    hide Outcome;
  }

  lemma WitnessHop(rt: Runtime, payload: bytes, d: Dict)
    requires rt.json.loads(payload) == Some(Obj(d)) && d == map["hop_limit" := Int(3), "from" := Float("1.5")]
    requires rt.json.dumps(Obj(map["hop_limit" := Int(0), "from" := Float("1.5")])).Some?
    ensures ReadHop(rt, "json", payload) == Some(3)
    ensures HopsLeft(rt, "json", payload) && !DumpFails(rt, "json", payload)
  {
    assert HopFieldsOk(d);
    assert d["hop_limit" := Int(0)] == map["hop_limit" := Int(0), "from" := Float("1.5")];
  }

  /** Whatever goes wrong, the message is delivered byte for byte as it came. */
  lemma FailsOpen(rt: Runtime, cfg: Config.Policy, topic: string, payload: bytes)
    requires Errors in Decide(rt, cfg, topic, payload).counters
    ensures Delivered(Decide(rt, cfg, topic, payload).action, payload) == Some(payload)
  {
    hide Topic.Parse;
    hide ReadPortnum;
    hide HopAttrs;
    hide BaseAttrs;
    hide PeekMeta;
    hide Rewrite;
    hide NodeEntry;
  }
}
