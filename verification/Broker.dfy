/** The ExHook servicer: from a decision to the reply EMQX acts on. */
module Broker {
  import opened Bytes
  import opened Stats
  import Config
  import Topic
  import Mesh
  import opened Pipeline
  import opened PipelineLaws

  datatype Publish = Publish(
    node: string, id: string, qos: nat, from: string, topic: string, payload: bytes, timestamp: nat,
    headers: map<string, string>)

  datatype ResponseType = Continue | Ignore | StopAndReturn

  datatype Response = Response(kind: ResponseType, message: Option<Publish>)

  const ALLOW: string := "allow_publish"

  /** The reply for a decision. */
  function Reply(action: ProcessResult, msg: Publish): Response {
    match action
    case PassOn => Response(Ignore, None)
    case Modify(p) => Response(StopAndReturn, Some(msg.(payload := p)))
    case Drop => Response(StopAndReturn, Some(msg.(headers := msg.headers[ALLOW := "false"])))
  }

  class HookProviderServicer {
    const rt: Runtime
    const config: Config.Policy
    const stats: AntifloodStats
    const log: Logger

    constructor (rt: Runtime, config: Config.Policy, stats: AntifloodStats, log: Logger)
      ensures this.rt == rt && this.config == config && this.stats == stats && this.log == log
    {
      this.rt, this.config, this.stats, this.log := rt, config, stats, log;
    }

    method OnMessagePublish(msg: Publish) returns (resp: Response)
      requires RuntimeOk(rt) && stats.Valid()
      modifies stats, log
      ensures stats.Valid()
      ensures var v := Decide(rt, config, msg.topic, msg.payload);
              && resp == Reply(v.action, msg)
              && stats.Rolling() == IncAll(old(stats.Rolling()), v.counters)
              && stats.Lifetime() == IncAll(old(stats.Lifetime()), v.counters)
              && log.entries == old(log.entries) + v.entries
    {
      hide RuntimeOk;
      hide Decide;
      var result := ProcessMessage(rt, config, stats, log, msg.topic, msg.payload);
      resp := Response(Continue, None);
      if result.Modify? {
        resp := resp.(kind := StopAndReturn, message := Some(msg));
        resp := resp.(message := Some(resp.message.value.(payload := result.payload)));
      } else if result == Drop {
        resp := resp.(kind := StopAndReturn, message := Some(msg));
        resp := resp.(message := Some(resp.message.value.(headers := resp.message.value.headers[ALLOW := "false"])));
      } else {
        resp := resp.(kind := Ignore);
      }
    }
  }

  predicate Denies(headers: map<string, string>) {
    ALLOW in headers && headers[ALLOW] == "false"
  }

  /** How EMQX reads a reply: a returned message replaces the published one, and headers that say
      `allow_publish: false` deny it. None is a publish nobody receives. */
  function Deliver(msg: Publish, resp: Response): Option<Publish> {
    var final := if resp.kind == StopAndReturn && resp.message.Some? then resp.message.value else msg;
    if Denies(final.headers) then None else Some(final)
  }

  /** The reply carries out the decision: denied exactly on a drop, and otherwise delivered with
      every field but the payload as published, and the payload too unless it was rewritten. A
      message that arrives already denied stays denied whatever floodgate decides. */
  lemma ReplyRefines(action: ProcessResult, msg: Publish)
    ensures var out := Deliver(msg, Reply(action, msg));
            && (out.None? <==> action == Drop || Denies(msg.headers))
            && (out.Some? ==> Some(out.value.payload) == Delivered(action, msg.payload))
            && (out.Some? ==> out.value == msg.(payload := out.value.payload))
  {
  }

  /** From publish to subscriber, for every message on a packet topic: it is received by nobody exactly
      when it came denied or the drop filter denies it; a message with hops left that is zeroed is
      received with hop limit 0 and every other field as published; any other is received untouched. */
  lemma PublishGuarantee(rt: Runtime, cfg: Config.Policy, msg: Publish, channel: string, encoding: string)
    requires RuntimeOk(rt) && |msg.payload| <= Mesh.MAX_MQTT_PACKET
    requires Topic.Parse(msg.topic) == Some((channel, encoding))
    ensures var out := Deliver(msg, Reply(Decide(rt, cfg, msg.topic, msg.payload).action, msg));
            && (out == None <==> Denies(msg.headers) || Denied(rt, cfg, channel, encoding, msg.payload))
            && (out.Some? && Zeroed(rt, cfg, channel, encoding, msg.payload) ==>
                  && ReadHop(rt, encoding, out.value.payload) == Some(0)
                  && out.value == msg.(payload := out.value.payload))
            && (out.Some? && !Zeroed(rt, cfg, channel, encoding, msg.payload) ==> out.value == msg)
  {
    ActionExact(rt, cfg, msg.topic, msg.payload, channel, encoding);
    var action := Decide(rt, cfg, msg.topic, msg.payload).action;
    if action.Modify? {
      Rewritten(rt, cfg, msg.topic, msg.payload, channel, encoding);
    }
    hide RuntimeOk;
    hide ReadHop;
    hide Topic.Parse;
    hide Decide;
    hide Denied;
    hide Zeroed;
    ReplyRefines(action, msg);
  }
}
