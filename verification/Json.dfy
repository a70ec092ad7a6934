/** JSON packets as value trees: the zero-hop rewrite and the portnum probes. */
module JsonPacket {
  import opened Bytes

  /** A JSON value, or any value a log field can hold. `Int` has any size; a float is known by its text. */
  datatype Json =
    | Null
    | Bool(b: bool)
    | Int(n: int)
    | Float(repr: string)
    | Str(s: string)
    | Arr(items: seq<Json>)
    | Obj(members: Dict)

  type Dict = map<string, Json>

  /** `json.loads` and `json.dumps(...).encode()`. Loading raises on text that is not JSON; dumping
      can raise too, for instance on a tree nested too deeply. */
  datatype Codec = Codec(loads: bytes -> Option<Json>, dumps: Json -> Option<bytes>)

  /** Loading dumped data gives the same tree. */
  ghost predicate Faithful(c: Codec) {
    forall j :: c.dumps(j).Some? ==> c.loads(c.dumps(j).value) == Some(j)
  }

  /** What rewriting a payload yields: the new payload, the old hop limit, the packet's metadata.
      A payload that could not be read is `(None, None, {})`. */
  datatype ZeroHop = ZeroHop(modified: Option<bytes>, oldHop: Option<int>, meta: Dict)

  const UNREADABLE := ZeroHop(None, None, map[])

  /** A call that may raise. */
  datatype Attempt<+T> = Done(value: T) | Raised

  const HOP_FIELDS: seq<string> := ["hop_limit", "hop_start", "hops_away"]

  /** Packet keys worth logging and the metadata keys they are kept under. */
  const META_KEYS: seq<(string, string)> :=
    [("id", "packet_id"), ("from", "sender"), ("to", "destination"),
     ("hop_start", "hop_start"), ("via_mqtt", "via_mqtt")]

  /** Every hop field that is present is an integer; a JSON boolean is not one. */
  predicate HopFieldsOk(d: Dict) {
    forall k | k in HOP_FIELDS :: k in d ==> d[k].Int?
  }

  function Max(a: int, b: int): int {
    if a >= b then a else b
  }

  /** The hop limit a reader of the packet sees. */
  function EffectiveHop(d: Dict): int
    requires HopFieldsOk(d)
  {
    assert "hop_limit" == HOP_FIELDS[0] && "hop_start" == HOP_FIELDS[1] && "hops_away" == HOP_FIELDS[2];
    if "hop_limit" in d then d["hop_limit"].n
    else if "hop_start" in d && "hops_away" in d then Max(0, d["hop_start"].n - d["hops_away"].n)
    else 0
  }

  function MetaFrom(d: Dict, keys: seq<(string, string)>): Dict {
    if keys == [] then map[]
    else
      var before := MetaFrom(d, keys[..|keys| - 1]);
      var (src, dst) := keys[|keys| - 1];
      if src in d then before[dst := d[src]] else before
  }

  function Meta(d: Dict): Dict {
    MetaFrom(d, META_KEYS)
  }

  /** Each metadata key holds what its own packet key holds. */
  lemma {:induction false} MetaGet(d: Dict, keys: seq<(string, string)>, i: nat)
    requires i < |keys| && forall j | 0 <= j < |keys| && j != i :: keys[j].1 != keys[i].1
    ensures Get(MetaFrom(d, keys), keys[i].1) == Get(d, keys[i].0)
  {
    var init := keys[..|keys| - 1];
    if i < |init| {
      MetaGet(d, init, i);
    } else {
      MetaAbsent(d, init, keys[i].1);
    }
  }

  lemma {:induction false} MetaAbsent(d: Dict, keys: seq<(string, string)>, dst: string)
    requires forall j | 0 <= j < |keys| :: keys[j].1 != dst
    ensures dst !in MetaFrom(d, keys)
  {
    if keys != [] {
      MetaAbsent(d, keys[..|keys| - 1], dst);
    }
  }

  /** The members of a payload that is an object. */
  function Members(c: Codec, payload: bytes): Dict {
    match c.loads(payload)
    case Some(Obj(d)) => d
    case _ => map[]
  }

  /** The hop limit of a JSON payload, when it is an object with readable hop fields. */
  function HopLimit(c: Codec, payload: bytes): Option<int> {
    match c.loads(payload)
    case Some(Obj(d)) => if HopFieldsOk(d) then Some(EffectiveHop(d)) else None
    case _ => None
  }

  function ZeroHopSpec(c: Codec, payload: bytes): Attempt<ZeroHop> {
    match c.loads(payload)
    case Some(Obj(d)) =>
      if !HopFieldsOk(d) then Done(UNREADABLE)
      else if EffectiveHop(d) == 0 then Done(ZeroHop(None, Some(0), Meta(d)))
      else
        (match c.dumps(Obj(d["hop_limit" := Int(0)]))
         case None => Raised
         case Some(out) => Done(ZeroHop(Some(out), Some(EffectiveHop(d)), Meta(d))))
    case _ => Done(UNREADABLE)
  }

  method CollectMeta(data: Dict) returns (meta: Dict)
    ensures meta == Meta(data)
  {
    meta := map[];
    for i := 0 to |META_KEYS|
      invariant meta == MetaFrom(data, META_KEYS[..i])
    {
      assert META_KEYS[..i + 1][..i] == META_KEYS[..i];
      var (src, dst) := META_KEYS[i];
      if src in data {
        meta := meta[dst := data[src]];
      }
    }
    assert META_KEYS[..|META_KEYS|] == META_KEYS;
  }

  method ZeroHopJson(c: Codec, payload: bytes) returns (r: Attempt<ZeroHop>)
    ensures r == ZeroHopSpec(c, payload)
  {
    var loaded := c.loads(payload);
    if loaded.None? || !loaded.value.Obj? {
      return Done(UNREADABLE);
    }
    var data := loaded.value.members;
    var bad: seq<string> := [];
    for i := 0 to |HOP_FIELDS|
      invariant bad == [] <==> forall j | 0 <= j < i :: HOP_FIELDS[j] in data ==> data[HOP_FIELDS[j]].Int?
    {
      if HOP_FIELDS[i] in data && !data[HOP_FIELDS[i]].Int? {
        bad := bad + [HOP_FIELDS[i]];
      }
    }
    if bad != [] {
      return Done(UNREADABLE);
    }
    var meta := CollectMeta(data);
    var oldHop := 0;
    assert HopFieldsOk(data);
    assert "hop_limit" == HOP_FIELDS[0] && "hop_start" == HOP_FIELDS[1] && "hops_away" == HOP_FIELDS[2];
    if "hop_limit" in data {
      oldHop := data["hop_limit"].n;
    } else if "hop_start" in data && "hops_away" in data {
      oldHop := Max(0, data["hop_start"].n - data["hops_away"].n);
    }
    if oldHop == 0 {
      return Done(ZeroHop(None, Some(0), meta));
    }
    data := data["hop_limit" := Int(0)];
    var out := c.dumps(Obj(data));
    r := if out.None? then Raised else Done(ZeroHop(Some(out.value), Some(oldHop), meta));
  }

  /** The rewritten packet: hop limit 0, every other key untouched, the same metadata. */
  lemma ZeroHopOnlyHopLimit(c: Codec, payload: bytes)
    requires Faithful(c)
    requires ZeroHopSpec(c, payload).Done? && ZeroHopSpec(c, payload).value.modified.Some?
    ensures var z := ZeroHopSpec(c, payload).value;
            && HopLimit(c, payload) == z.oldHop && z.oldHop.Some? && z.oldHop.value != 0
            && HopLimit(c, z.modified.value) == Some(0)
            && Members(c, z.modified.value) == Members(c, payload)["hop_limit" := Int(0)]
            && ZeroHopSpec(c, z.modified.value) == Done(ZeroHop(None, Some(0), z.meta))
  {
    var d := Members(c, payload);
    var d' := d["hop_limit" := Int(0)];
    assert HopFieldsOk(d');
    MetaAgrees(d, d', META_KEYS);
  }

  /** The hop limit a packet says it has: its own, or else the hops at the start less the hops made,
      no less than 0, or else 0; none when one of the three keys is present and not an integer. */
  ghost predicate SaysHop(d: Dict, n: int) {
    && (forall k | k in {"hop_limit", "hop_start", "hops_away"} && k in d :: d[k].Int?)
    && if "hop_limit" in d then d["hop_limit"] == Int(n)
       else if "hop_start" in d && "hops_away" in d && d["hop_start"].n > d["hops_away"].n
       then n == d["hop_start"].n - d["hops_away"].n
       else n == 0
  }

  lemma HopLimitExact(c: Codec, payload: bytes, n: int)
    ensures HopLimit(c, payload) == Some(n) <==> exists d :: c.loads(payload) == Some(Obj(d)) && SaysHop(d, n)
  {
    assert "hop_limit" == HOP_FIELDS[0] && "hop_start" == HOP_FIELDS[1] && "hops_away" == HOP_FIELDS[2];
  }

  /** The packets that are touched: objects whose hop fields are integers, with a non-zero `hop_limit`
      or, lacking that key, with more hops at the start than hops made. */
  lemma ZeroHopExact(c: Codec, payload: bytes)
    ensures (ZeroHopSpec(c, payload).Raised? || ZeroHopSpec(c, payload).value.modified.Some?)
       <==> && c.loads(payload).Some? && c.loads(payload).value.Obj?
            && HopFieldsOk(Members(c, payload))
            && var d := Members(c, payload);
               if "hop_limit" in d then d["hop_limit"] != Int(0)
               else "hop_start" in d && "hops_away" in d && d["hop_start"].n > d["hops_away"].n
  {
    hide Meta;
    assert "hop_limit" == HOP_FIELDS[0] && "hop_start" == HOP_FIELDS[1] && "hops_away" == HOP_FIELDS[2];
  }

  /** "Zero-hopped means the hop limit was above 0" is false: a negative one is zeroed as well. */
  lemma NegativeHopZeroed(c: Codec, payload: bytes, out: bytes)
    requires c.loads(payload) == Some(Obj(map["hop_limit" := Int(-1)]))
    requires c.dumps(Obj(map["hop_limit" := Int(0)])) == Some(out)
    ensures ZeroHopSpec(c, payload).Done?
    ensures var z := ZeroHopSpec(c, payload).value; z.modified == Some(out) && z.oldHop == Some(-1)
  {
    var d: Dict := map["hop_limit" := Int(-1)];
    assert d["hop_limit" := Int(0)] == map["hop_limit" := Int(0)];
  }

  lemma {:induction false} MetaAgrees(d: Dict, d': Dict, keys: seq<(string, string)>)
    requires forall i | 0 <= i < |keys| :: keys[i].0 in d <==> keys[i].0 in d'
    requires forall i | 0 <= i < |keys| :: keys[i].0 in d ==> d[keys[i].0] == d'[keys[i].0]
    ensures MetaFrom(d, keys) == MetaFrom(d', keys)
  {
    if keys != [] {
      MetaAgrees(d, d', keys[..|keys| - 1]);
    }
  }

  // ---- Portnum ----

  /** Firmware's JSON `type` strings. */
  const TYPE_TO_PORTNUM: map<string, string> := map[
    "text" := "TEXT_MESSAGE_APP",
    "telemetry" := "TELEMETRY_APP",
    "nodeinfo" := "NODEINFO_APP",
    "position" := "POSITION_APP",
    "waypoint" := "WAYPOINT_APP",
    "neighborinfo" := "NEIGHBORINFO_APP",
    "traceroute" := "TRACEROUTE_APP",
    "detection" := "DETECTION_SENSOR_APP",
    "paxcounter" := "PAXCOUNTER_APP",
    "gpios_changed" := "REMOTE_HARDWARE_APP",
    "gpios_read_reply" := "REMOTE_HARDWARE_APP"]

  function Get(d: Dict, k: string): Json {
    if k in d then d[k] else Null
  }

  function Lookup(m: map<string, string>, k: string): Option<string> {
    if k in m then Some(m[k]) else None
  }

  /** Three probes in order: `payload.decoded.portnum`, `portnum`, then the firmware `type`. */
  function Portnum(c: Codec, lower: string -> string, payload: bytes): Option<string> {
    match c.loads(payload)
    case Some(Obj(d)) => PortnumOf(lower, d)
    case _ => None
  }

  function PortnumOf(lower: string -> string, d: Dict): Option<string> {
    var nested := Get(d, "payload");
    var decoded := if nested.Obj? then Get(nested.members, "decoded") else Null;
    var first := if decoded.Obj? then Get(decoded.members, "portnum") else Null;
    if first.Str? then Some(first.s)
    else if Get(d, "portnum").Str? then Some(Get(d, "portnum").s)
    else if Get(d, "type").Str? then Lookup(TYPE_TO_PORTNUM, lower(Get(d, "type").s))
    else None
  }

  /** Zero-hopping never changes what the drop filter reads. */
  lemma PortnumUnchanged(c: Codec, lower: string -> string, payload: bytes)
    requires Faithful(c)
    requires ZeroHopSpec(c, payload).Done? && ZeroHopSpec(c, payload).value.modified.Some?
    ensures Portnum(c, lower, ZeroHopSpec(c, payload).value.modified.value) == Portnum(c, lower, payload)
  {
    var d := c.loads(payload).value.members;
    var d' := d["hop_limit" := Int(0)];
    assert Get(d', "payload") == Get(d, "payload");
    assert Get(d', "portnum") == Get(d, "portnum");
    assert Get(d', "type") == Get(d, "type");
  }

  /** The packet wrapper's `payload.decoded.portnum` is this string. */
  predicate WrapperSays(d: Dict, name: string) {
    && "payload" in d && d["payload"].Obj?
    && "decoded" in d["payload"].members && d["payload"].members["decoded"].Obj?
    && "portnum" in d["payload"].members["decoded"].members
    && d["payload"].members["decoded"].members["portnum"] == Str(name)
  }

  predicate TopLevelSays(d: Dict, name: string) {
    "portnum" in d && d["portnum"] == Str(name)
  }

  predicate TypeSays(lower: string -> string, d: Dict, name: string) {
    && "type" in d && d["type"].Str?
    && lower(d["type"].s) in TYPE_TO_PORTNUM && TYPE_TO_PORTNUM[lower(d["type"].s)] == name
  }

  /** A wrapper's own name wins over a top-level one, and that over the firmware type, whatever the others say. */
  ghost predicate SaysPortnum(lower: string -> string, d: Dict, name: string) {
    || WrapperSays(d, name)
    || ((forall n :: !WrapperSays(d, n)) && TopLevelSays(d, name))
    || ((forall n :: !WrapperSays(d, n) && !TopLevelSays(d, n)) && TypeSays(lower, d, name))
  }

  /** The three probes read exactly the name the packet says. */
  lemma PortnumExact(lower: string -> string, d: Dict, name: string)
    ensures PortnumOf(lower, d) == Some(name) <==> SaysPortnum(lower, d, name)
  {
    hide TYPE_TO_PORTNUM;
    var nested := Get(d, "payload");
    var decoded := if nested.Obj? then Get(nested.members, "decoded") else Null;
    var first := if decoded.Obj? then Get(decoded.members, "portnum") else Null;
    var second := Get(d, "portnum");
    assert forall n :: WrapperSays(d, n) <==> first == Str(n);
    assert forall n :: TopLevelSays(d, n) <==> second == Str(n);
    if first.Str? {
      assert WrapperSays(d, first.s);
    }
    if second.Str? {
      assert TopLevelSays(d, second.s);
    }
  }
}
