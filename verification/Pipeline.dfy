/** One message through floodgate: drop filter, zero-hop rewrite, counters and log records. */
module Pipeline {
  import opened Bytes
  import opened JsonPacket
  import Mesh
  import Proto
  import Cipher
  import Topic
  import Config
  import opened NodeId
  import opened Stats

  /** What the pipeline calls but does not define: the protobuf schema, the block cipher, the JSON
      library, and `str.lower`. */
  datatype Runtime = Runtime(protos: Mesh.Protos, aes: Cipher.BlockCipher, json: Codec, lower: string -> string)

  ghost predicate RuntimeOk(rt: Runtime) {
    Mesh.WF(rt.protos) && Faithful(rt.json)
  }

  datatype ProcessResult = PassOn | Modify(payload: bytes) | Drop

  /** A structured log record: its outcome and attributes. */
  datatype Entry = Entry(outcome: string, attrs: Dict)

  /** Everything one message causes: the reply, the counters bumped in order, the records logged. */
  datatype Verdict = Verdict(action: ProcessResult, counters: seq<Counter>, entries: seq<Entry>)

  // ---- Per encoding ----

  function ReadPortnum(rt: Runtime, encoding: string, payload: bytes): Option<string> {
    if encoding == "json" then Portnum(rt.json, rt.lower, payload) else Mesh.Portnum(rt.protos, rt.aes, payload)
  }

  function PeekMeta(rt: Runtime, encoding: string, payload: bytes): Dict {
    if encoding == "json" then
      match rt.json.loads(payload)
      case Some(Obj(d)) => Meta(d)
      case _ => map[]
    else
      match Mesh.ParsePacket(rt.protos, payload)
      case Some(pkt) => Mesh.PacketMeta(rt.protos, pkt)
      case None => map[]
  }

  function Rewrite(rt: Runtime, encoding: string, payload: bytes): Attempt<ZeroHop> {
    if encoding == "json" then ZeroHopSpec(rt.json, payload) else Done(Mesh.ZeroHopSpec(rt.protos, payload))
  }

  /** The hop limit a receiver reads, None when the payload does not parse. */
  function ReadHop(rt: Runtime, encoding: string, payload: bytes): Option<int> {
    if encoding == "json" then HopLimit(rt.json, payload) else Mesh.HopLimit(rt.protos, payload)
  }

  // ---- Log records ----

  function BaseAttrs(topic: string, channel: string, encoding: string): Dict {
    map["topic" := Str(topic), "channel" := Str(channel), "encoding" := Str(encoding)]
  }

  /** Builds the record of an outcome; formatting either node id may raise. */
  function NodeEntry(outcome: string, base: Dict, meta: Dict, extra: Dict): (r: Attempt<Entry>)
    ensures r.Done? <==> Formattable(Get(meta, "sender")) && Formattable(Get(meta, "destination"))
  {
    match (FmtNode(Get(meta, "sender")), FmtNode(Get(meta, "destination")))
    case (Done(from), Done(to)) =>
      Done(Entry(outcome, base + map["id" := Get(meta, "packet_id"), "from" := Str(from), "to" := Str(to)] + extra))
    case _ => Raised
  }

  function HopAttrs(meta: Dict): Dict {
    map["hop_start" := Get(meta, "hop_start"),
        "relay" := Relay(Get(meta, "relay_node")),
        "via_mqtt" := Get(meta, "via_mqtt")]
  }

  // ---- The decision ----

  /** The counter was bumped before the record was built. If building it raises, the message is
      counted as an error too, and passes on unchanged: a late failure. */
  function Report(counter: Counter, action: ProcessResult, entry: Attempt<Entry>): Verdict {
    match entry
    case Done(e) => Verdict(action, [counter], [e])
    case Raised => Verdict(PassOn, [counter, Errors], [])
  }

  function Decide(rt: Runtime, cfg: Config.Policy, topic: string, payload: bytes): Verdict {
    match Topic.Parse(topic)
    case None => Verdict(PassOn, [Skipped], [])
    case Some((channel, encoding)) =>
      var base := BaseAttrs(topic, channel, encoding);
      var portnum := ReadPortnum(rt, encoding, payload);
      if Config.ShouldDrop(cfg, channel, portnum) then
        Report(Dropped, Drop,
               NodeEntry("dropped", base, PeekMeta(rt, encoding, payload), map["portnum" := Str(portnum.value)]))
      else if !Config.ShouldZerohop(cfg, channel) then
        var meta := PeekMeta(rt, encoding, payload);
        Report(Stats.Passthru, PassOn, NodeEntry("passthru", base, meta, HopAttrs(meta)))
      else
        match Rewrite(rt, encoding, payload)
        case Raised => Verdict(PassOn, [Errors], [])
        case Done(z) => DecideRewrite(base, payload, z)
  }

  function DecideRewrite(base: Dict, payload: bytes, z: ZeroHop): Verdict {
    if z.modified.None? && z.oldHop.None? then
      Verdict(PassOn, [Errors], [Entry("warn", base["bytes" := Int(|payload|)])])
    else if z.oldHop == Some(0) then
      Report(Noop, PassOn, NodeEntry("noop", base, z.meta, map["hop_limit" := Int(0)] + HopAttrs(z.meta)))
    else if z.modified.Some? && z.oldHop.Some? then
      Report(Zerohop, Modify(z.modified.value),
             NodeEntry("zerohop", base, z.meta, map["hop_limit" := Int(z.oldHop.value)] + HopAttrs(z.meta)))
    else Verdict(PassOn, [], [])
  }

  /** Where structured records go. */
  class Logger {
    var entries: seq<Entry>

    constructor ()
      ensures entries == []
    {
      entries := [];
    }

    method Log(entry: Entry)
      modifies this
      ensures entries == old(entries) + [entry]
    {
      entries := entries + [entry];
    }
  }

  /** A call that ended with `r` counted and logged what the verdict says, except that the final
      error of a call that raised is still to be counted by its caller. */
  ghost predicate Caused(v: Verdict, r: Attempt<ProcessResult>, before: Counts, after: Counts) {
    match r
    case Done(action) => action == v.action && after == IncAll(before, v.counters)
    case Raised =>
      exists cs :: v.counters == cs + [Errors] && v.action == PassOn && after == IncAll(before, cs)
  }

  /** Bumps the counter, then builds and logs the record, which may raise. */
  method CountAndLog(
    stats: AntifloodStats, log: Logger, counter: Counter, action: ProcessResult,
    outcome: string, base: Dict, meta: Dict, extra: Dict) returns (r: Attempt<ProcessResult>)
    requires stats.Valid()
    modifies stats, log
    ensures stats.Valid()
    ensures var v := Report(counter, action, NodeEntry(outcome, base, meta, extra));
            && Caused(v, r, old(stats.Rolling()), stats.Rolling())
            && Caused(v, r, old(stats.Lifetime()), stats.Lifetime())
            && log.entries == old(log.entries) + v.entries
  {
    stats.Inc(counter);
    IncOne(old(stats.Rolling()), counter);
    IncOne(old(stats.Lifetime()), counter);
    var entry := NodeEntry(outcome, base, meta, extra);
    if entry.Raised? {
      ghost var v := Report(counter, action, entry);
      assert v.counters == [counter] + [Errors];
      return Raised;
    }
    log.Log(entry.value);
    r := Done(action);
  }

  method ReportRewrite(stats: AntifloodStats, log: Logger, base: Dict, payload: bytes, z: ZeroHop)
    returns (r: Attempt<ProcessResult>)
    requires stats.Valid()
    requires z.modified.Some? <==> z.oldHop.Some? && z.oldHop.value != 0
    modifies stats, log
    ensures stats.Valid()
    ensures var v := DecideRewrite(base, payload, z);
            && Caused(v, r, old(stats.Rolling()), stats.Rolling())
            && Caused(v, r, old(stats.Lifetime()), stats.Lifetime())
            && log.entries == old(log.entries) + v.entries
  {
    if z.modified.None? && z.oldHop.None? {
      stats.Inc(Errors);
      log.Log(Entry("warn", base["bytes" := Int(|payload|)]));
      return Done(PassOn);
    }
    if z.oldHop == Some(0) {
      r := CountAndLog(stats, log, Noop, PassOn,
                       "noop", base, z.meta, map["hop_limit" := Int(0)] + HopAttrs(z.meta));
      return;
    }
    r := CountAndLog(stats, log, Zerohop, Modify(z.modified.value),
                     "zerohop", base, z.meta, map["hop_limit" := Int(z.oldHop.value)] + HopAttrs(z.meta));
  }

  /** A rewrite yields a payload exactly when it reports a hop limit other than 0. */
  lemma RewriteShape(rt: Runtime, encoding: string, payload: bytes)
    requires Rewrite(rt, encoding, payload).Done?
    ensures var z := Rewrite(rt, encoding, payload).value;
            z.modified.Some? <==> z.oldHop.Some? && z.oldHop.value != 0
  {
    if encoding == "json" {
      JsonShape(rt.json, payload);
    } else {
      ProtobufShape(rt.protos, payload);
    }
  }

  lemma JsonShape(c: Codec, payload: bytes)
    requires ZeroHopSpec(c, payload).Done?
    ensures var z := ZeroHopSpec(c, payload).value;
            z.modified.Some? <==> z.oldHop.Some? && z.oldHop.value != 0
  {
    hide Meta;
  }

  lemma ProtobufShape(p: Mesh.Protos, payload: bytes)
    ensures var z := Mesh.ZeroHopSpec(p, payload);
            z.modified.Some? <==> z.oldHop.Some? && z.oldHop.value != 0
  {
    hide Mesh.PacketMeta;
    hide Proto.Parse;
    hide Proto.Serialize;
  }

  /** The zero-hop branch, whichever the encoding. */
  method RunRewrite(rt: Runtime, encoding: string, payload: bytes) returns (r: Attempt<ZeroHop>)
    requires RuntimeOk(rt)
    ensures r == Rewrite(rt, encoding, payload)
    ensures r.Done? ==> (r.value.modified.Some? <==> r.value.oldHop.Some? && r.value.oldHop.value != 0)
  {
    hide Mesh.WF;
    if Rewrite(rt, encoding, payload).Done? {
      RewriteShape(rt, encoding, payload);
    }
    hide ZeroHopSpec;
    hide Mesh.ZeroHopSpec;
    if encoding == "json" {
      r := ZeroHopJson(rt.json, payload);
    } else {
      var z := Mesh.ZeroHopProtobuf(rt.protos, payload);
      r := Done(z);
    }
  }

  /** The body of the `try`: what it counted and logged before raising stays counted and logged. */
  method ProcessInner(
    rt: Runtime, cfg: Config.Policy, stats: AntifloodStats, log: Logger, topic: string, payload: bytes)
    returns (r: Attempt<ProcessResult>)
    requires RuntimeOk(rt) && stats.Valid()
    modifies stats, log
    ensures stats.Valid()
    ensures var v := Decide(rt, cfg, topic, payload);
            && Caused(v, r, old(stats.Rolling()), stats.Rolling())
            && Caused(v, r, old(stats.Lifetime()), stats.Lifetime())
            && log.entries == old(log.entries) + v.entries
  {
    hide Report;
    hide DecideRewrite;
    hide Topic.Parse;
    hide Mesh.WF;
    hide Rewrite;
    hide ReadPortnum;
    var parsed := Topic.Parse(topic);
    if parsed.None? {
      stats.Inc(Skipped);
      return Done(PassOn);
    }
    var (channel, encoding) := parsed.value;
    var base := BaseAttrs(topic, channel, encoding);
    if cfg.dropEnabled {
      var portnum := ReadPortnum(rt, encoding, payload);
      if Config.ShouldDrop(cfg, channel, portnum) {
        var meta := PeekMeta(rt, encoding, payload);
        r := CountAndLog(stats, log, Dropped, Drop, "dropped", base, meta, map["portnum" := Str(portnum.value)]);
        return;
      }
    }
    if !Config.ShouldZerohop(cfg, channel) {
      var meta := PeekMeta(rt, encoding, payload);
      r := CountAndLog(stats, log, Stats.Passthru, PassOn, "passthru", base, meta, HopAttrs(meta));
      return;
    }
    var z := RunRewrite(rt, encoding, payload);
    if z.Raised? {
      assert [Errors] == [] + [Errors];
      return Raised;
    }
    r := ReportRewrite(stats, log, base, payload, z.value);
  }

  lemma CaughtError(v: Verdict, before: Counts, after: Counts)
    requires Caused(v, Raised, before, after)
    ensures v.action == PassOn && after.Inc(Errors) == IncAll(before, v.counters)
  {
    var cs :| v.counters == cs + [Errors] && v.action == PassOn && after == IncAll(before, cs);
    IncAllAppend(before, cs, Errors);
  }

  /** Any exception is counted as an error and the message passes on. */
  method ProcessMessage(
    rt: Runtime, cfg: Config.Policy, stats: AntifloodStats, log: Logger, topic: string, payload: bytes)
    returns (r: ProcessResult)
    requires RuntimeOk(rt) && stats.Valid()
    modifies stats, log
    ensures stats.Valid()
    ensures var v := Decide(rt, cfg, topic, payload);
            && r == v.action
            && stats.Rolling() == IncAll(old(stats.Rolling()), v.counters)
            && stats.Lifetime() == IncAll(old(stats.Lifetime()), v.counters)
            && log.entries == old(log.entries) + v.entries
  {
    hide Decide;
    hide Mesh.WF;
    var attempt := ProcessInner(rt, cfg, stats, log, topic, payload);
    if attempt.Done? {
      return attempt.value;
    }
    ghost var v := Decide(rt, cfg, topic, payload);
    CaughtError(v, old(stats.Rolling()), stats.Rolling());
    CaughtError(v, old(stats.Lifetime()), stats.Lifetime());
    stats.Inc(Errors);
    r := PassOn;
  }
}
