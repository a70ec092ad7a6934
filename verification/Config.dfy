/** Configuration: key and value validation, the precomputed sets, and the policy questions. */
module Config {
  import opened Bytes

  datatype Yaml =
    | Null
    | Bool(b: bool)
    | Int(n: int)
    | Float(repr: string)
    | Str(s: string)
    | List(items: seq<Yaml>)
    | Map(entries: map<string, Yaml>, otherKeys: seq<Yaml>)
    | Other(text: string)

  type Values = map<string, Yaml>

  const INHERIT: string := "zerohop_channels"

  const PRESETS: seq<Yaml> :=
    [Str("LongTurbo"), Str("LongFast"), Str("LongModerate"), Str("MediumFast"),
     Str("MediumSlow"), Str("ShortFast"), Str("ShortSlow"), Str("ShortTurbo")]

  const DEFAULTS: Values := map[
    "zerohop_enabled" := Bool(true),
    "zerohop_channels" := List(PRESETS),
    "drop_enabled" := Bool(false),
    "drop_channels" := Str(INHERIT),
    "drop_portnums" := List([]),
    "grpc_port" := Int(9000),
    "grpc_max_workers" := Int(16),
    "health_port" := Int(8080),
    "topic_filter" := Str("msh/#"),
    "stats_interval_s" := Int(60),
    "log_level" := Str("INFO"),
    "log_format" := Str("text"),
    "stats_log" := Bool(true)]

  const KEYS: set<string> := {
    "zerohop_enabled", "zerohop_channels", "drop_enabled", "drop_channels", "drop_portnums", "grpc_port",
    "grpc_max_workers", "health_port", "topic_filter", "stats_interval_s", "log_level", "log_format", "stats_log"}

  const SWITCH_KEYS: set<string> := {"zerohop_enabled", "drop_enabled", "stats_log"}

  const NUMBER_KEYS: set<string> := {"grpc_port", "health_port", "grpc_max_workers", "stats_interval_s"}

  const TEXT_KEYS: set<string> := {"log_level", "log_format", "topic_filter"}

  const REMOVED_KEYS: set<string> := {"channel_policy", "channel_blacklist", "channel_whitelist"}

  const LOG_LEVELS: set<string> := {"DEBUG", "INFO", "WARNING", "ERROR", "CRITICAL"}

  const LOG_FORMATS: set<string> := {"text", "json"}

  /** What lies outside the file: `FLOODGATE_LOG_FORMAT`, Python's `str.upper` and `str.lower`, and
      the portnum names, unknown when the generated stubs are missing. */
  datatype Env = Env(
    logFormat: Option<string>, upper: string -> string, lower: string -> string, portnums: Option<set<string>>)

  datatype Problem = BadValue(key: string) | UnknownPortnum(name: string)

  /** What the packet pipeline asks about. `dropChannels` None means every channel. */
  datatype Policy = Policy(
    zerohopEnabled: bool, zerohopChannels: set<string>,
    dropEnabled: bool, dropChannels: Option<set<string>>, dropPortnums: set<string>)

  datatype LoadError =
    | NotAMapping
    | KeysNotStrings
    | BadKeys(removed: set<string>, unknown: set<string>)
    | BadValues(problems: seq<Problem>)

  // ---- Policy ----

  function ShouldZerohop(c: Policy, channel: string): bool {
    c.zerohopEnabled && channel in c.zerohopChannels
  }

  function ShouldDrop(c: Policy, channel: string, portnum: Option<string>): bool {
    if !c.dropEnabled then false
    else if portnum.None? then false
    else if portnum.value !in c.dropPortnums then false
    else if c.dropChannels.None? then true
    else channel in c.dropChannels.value
  }

  // ---- Lists of strings ----

  function Strings(items: seq<Yaml>): set<string> {
    set i | 0 <= i < |items| && items[i].Str? :: items[i].s
  }

  /** The set of a list of strings, an empty one for null, or None for an error. */
  function StringList(v: Yaml): Option<set<string>> {
    match v
    case Null => Some({})
    case List(items) => if forall x | x in items :: x.Str? then Some(Strings(items)) else None
    case _ => None
  }

  /** The channels of the drop filter: `Some(None)` for all, None for an error. */
  function DropChannels(v: Yaml, zerohop: set<string>): Option<Option<set<string>>> {
    match v
    case Null => Some(None)
    case Str(s) => if s == INHERIT then Some(Some(zerohop)) else None
    case List(items) =>
      if items == [] then Some(None)
      else
        (match StringList(v)
         case None => None
         case Some(names) => Some(Some(names)))
    case _ => None
  }

  // ---- What each key must hold ----

  /** Every key of the schema is there: the defaults are loaded first. */
  predicate Complete(v: Values) {
    && "zerohop_enabled" in v && "zerohop_channels" in v
    && "drop_enabled" in v && "drop_channels" in v && "drop_portnums" in v
    && "grpc_port" in v && "grpc_max_workers" in v && "health_port" in v
    && "topic_filter" in v && "stats_interval_s" in v
    && "log_level" in v && "log_format" in v && "stats_log" in v
  }

  predicate IntIn(v: Yaml, low: int, high: Option<int>) {
    v.Int? && low <= v.n && (high.None? || v.n <= high.value)
  }

  /** The format in effect: a non-empty environment variable overrides the file. */
  function Format(values: Values, env: Env): Yaml
    requires "log_format" in values
  {
    if env.logFormat.Some? && env.logFormat.value != "" then Str(env.logFormat.value) else values["log_format"]
  }

  predicate StringsOrNull(v: Yaml) {
    v.Null? || (v.List? && forall x | x in v.items :: x.Str?)
  }

  /** `name` is listed in a YAML list of strings; null lists nothing. */
  predicate Listed(v: Yaml, name: string) {
    v.List? && Str(name) in v.items
  }

  /** A listed portnum that the schema does not have, when the schema can be asked. */
  predicate UnknownName(values: Values, env: Env, name: string)
    requires Complete(values)
  {
    env.portnums.Some? && Listed(values["drop_portnums"], name) && name !in env.portnums.value
  }

  /** The type and range each key promises. */
  ghost predicate ValueOk(values: Values, env: Env, key: string)
    requires Complete(values) && key in KEYS
  {
    var v := values[key];
    if key in {"zerohop_enabled", "drop_enabled", "stats_log"} then v.Bool?
    else if key in {"grpc_port", "health_port"} then IntIn(v, 1, Some(65535))
    else if key in {"grpc_max_workers", "stats_interval_s"} then IntIn(v, 1, None)
    else if key == "log_level" then v.Str? && env.upper(v.s) in LOG_LEVELS
    else if key == "log_format" then Format(values, env).Str? && env.lower(Format(values, env).s) in LOG_FORMATS
    else if key == "topic_filter" then v.Str? && v.s != ""
    else if key == "zerohop_channels" then StringsOrNull(v)
    else if key == "drop_channels" then StringsOrNull(v) || v == Str(INHERIT)
    else StringsOrNull(v) && forall name :: !UnknownName(values, env, name)
  }

  /** The working state of a load: the merged dictionary, its precomputed sets, the problems so far. */
  class Loader {
    const env: Env
    var values: Values
    var zerohopSet: Option<set<string>>
    var dropSet: Option<Option<set<string>>>
    var portnumSet: Option<set<string>>
    var errors: seq<Problem>

    constructor (env: Env)
      ensures this.env == env && values == DEFAULTS && errors == []
      ensures zerohopSet == None && dropSet == None && portnumSet == None
    {
      this.env := env;
      values := DEFAULTS;
      errors := [];
      zerohopSet, dropSet, portnumSet := None, None, None;
    }

    method CheckBool(key: string)
      requires key in values
      modifies this`errors
      ensures errors == old(errors) + (if values[key].Bool? then [] else [BadValue(key)])
    {
      if !values[key].Bool? {
        errors := errors + [BadValue(key)];
      }
    }

    method CheckInt(key: string, low: int, high: Option<int>)
      requires key in values
      modifies this`errors
      ensures errors == old(errors) + (if IntIn(values[key], low, high) then [] else [BadValue(key)])
    {
      var value := values[key];
      var inRange := value.Int? && value.n >= low && (high.None? || value.n <= high.value);
      if !inRange {
        errors := errors + [BadValue(key)];
      }
    }

    method CheckLogging()
      requires Complete(values)
      modifies this`errors, this`values
      ensures errors == old(errors) + LevelProblem(old(values), env) + FormatProblem(old(values), env)
      ensures values == Normalised(old(values), env)
    {
      var level := values["log_level"];
      if level.Str? && env.upper(level.s) in LOG_LEVELS {
        values := values["log_level" := Str(env.upper(level.s))];
      } else {
        errors := errors + [BadValue("log_level")];
      }
      var format := Format(values, env);
      if format.Str? && env.lower(format.s) in LOG_FORMATS {
        values := values["log_format" := Str(env.lower(format.s))];
      } else {
        errors := errors + [BadValue("log_format")];
      }
    }

    /** The two channel lists fail together: a bad zero-hop list hides the drop list from the check. */
    method ResolveChannels()
      requires Complete(values)
      modifies this`errors, this`zerohopSet, this`dropSet
      ensures errors == old(errors) + ChannelProblem(values, env)
      ensures ChannelProblem(values, env) == [] ==>
                && zerohopSet.Some? && StringList(values["zerohop_channels"]) == zerohopSet
                && dropSet.Some? && DropChannels(values["drop_channels"], zerohopSet.value) == dropSet
    {
      var zerohop := StringList(values["zerohop_channels"]);
      if zerohop.None? {
        errors := errors + [BadValue("zerohop_channels")];
        return;
      }
      zerohopSet := zerohop;
      var drop := DropChannels(values["drop_channels"], zerohop.value);
      if drop.None? {
        errors := errors + [BadValue("drop_channels")];
        return;
      }
      dropSet := drop;
    }

    method ResolvePortnums()
      requires Complete(values)
      modifies this`errors, this`portnumSet
      ensures errors == old(errors) + PortnumProblems(values, env)
      ensures PortnumProblems(values, env) == [] ==>
                portnumSet.Some? && StringList(values["drop_portnums"]) == portnumSet
    {
      var names := StringList(values["drop_portnums"]);
      if names.None? {
        errors := errors + [BadValue("drop_portnums")];
        return;
      }
      portnumSet := names;
      CheckPortnumNames(names.value);
    }

    /** One error for each unknown name, in sorted order; none when the schema is not to be had. */
    method CheckPortnumNames(names: set<string>)
      modifies this`errors
      ensures errors == old(errors) + NameProblems(names, env)
    {
      if env.portnums.None? {
        return;
      }
      var unknown := Sorted(names - env.portnums.value);
      for i := 0 to |unknown|
        invariant errors == old(errors) + seq(i, j requires 0 <= j < |unknown| => UnknownPortnum(unknown[j]))
      {
        errors := errors + [UnknownPortnum(unknown[i])];
      }
    }

    method CheckSwitches()
      requires Complete(values)
      modifies this`errors
      ensures errors == old(errors) + SwitchProblems(values, env)
    {
      CheckBool("zerohop_enabled");
      CheckBool("drop_enabled");
      CheckBool("stats_log");
    }

    method CheckNumbers()
      requires Complete(values)
      modifies this`errors
      ensures errors == old(errors) + NumberProblems(values, env)
    {
      CheckInt("grpc_port", 1, Some(65535));
      CheckInt("health_port", 1, Some(65535));
      CheckInt("grpc_max_workers", 1, None);
      CheckInt("stats_interval_s", 1, None);
    }

    method CheckTopicFilter()
      requires Complete(values)
      modifies this`errors
      ensures errors == old(errors) + FilterProblem(values, env)
    {
      var topicFilter := values["topic_filter"];
      if !topicFilter.Str? || topicFilter.s == "" {
        errors := errors + [BadValue("topic_filter")];
      }
    }

    method ValidateValues()
      requires Complete(values)
      modifies this
      ensures errors == old(errors) + Problems(old(values), env)
      ensures values == Normalised(old(values), env)
      ensures Problems(old(values), env) == [] ==>
                && zerohopSet.Some? && StringList(old(values)["zerohop_channels"]) == zerohopSet
                && dropSet.Some? && DropChannels(old(values)["drop_channels"], zerohopSet.value) == dropSet
                && portnumSet.Some? && StringList(old(values)["drop_portnums"]) == portnumSet
    {
      hide SwitchProblems;
      hide NumberProblems;
      hide LevelProblem;
      hide FormatProblem;
      hide FilterProblem;
      hide ChannelProblem;
      hide PortnumProblems;
      hide Normalised;
      hide StringList;
      hide DropChannels;
      ghost var v := values;
      CheckSwitches();
      CheckNumbers();
      CheckLogging();
      NormalisedKeeps(v, env);
      CheckTopicFilter();
      ResolveChannels();
      ResolvePortnums();
    }
  }

  // ---- Sorted names ----

  /** Python's order on strings: by the first character that differs, and a prefix first. */
  predicate AtMost(a: string, b: string) {
    a == "" || (b != "" && (a[0] < b[0] || (a[0] == b[0] && AtMost(a[1..], b[1..]))))
  }

  /** `a` comes no later than `b`: it is a prefix, or smaller at the first place where they differ. */
  ghost predicate NoLater(a: string, b: string) {
    a <= b || exists i :: 0 <= i < |a| && i < |b| && a[..i] == b[..i] && a[i] < b[i]
  }

  lemma {:induction false} AtMostExact(a: string, b: string)
    ensures AtMost(a, b) <==> NoLater(a, b)
  {
    if a != "" && b != "" && a[0] == b[0] {
      AtMostExact(a[1..], b[1..]);
      assert a <= b <==> a[1..] <= b[1..];
      if i :| 0 <= i < |a| && i < |b| && a[..i] == b[..i] && a[i] < b[i] {
        assert i > 0;
        assert a[1..][..i - 1] == a[..i][1..] == b[..i][1..] == b[1..][..i - 1];
        assert a[1..][i - 1] < b[1..][i - 1];
      }
      if i :| 0 <= i < |a[1..]| && i < |b[1..]| && a[1..][..i] == b[1..][..i] && a[1..][i] < b[1..][i] {
        assert a[..i + 1] == [a[0]] + a[1..][..i] == [b[0]] + b[1..][..i] == b[..i + 1];
        assert a[i + 1] < b[i + 1];
      }
    } else if a != "" && b != "" && a[0] < b[0] {
      assert a[..0] == b[..0];
    }
  }

  lemma {:induction false} Antisymmetric(a: string, b: string)
    requires AtMost(a, b) && AtMost(b, a)
    ensures a == b
  {
    if a != "" {
      Antisymmetric(a[1..], b[1..]);
      assert a == [a[0]] + a[1..] && b == [b[0]] + b[1..];
    }
  }

  lemma {:induction false} Total(a: string, b: string)
    ensures AtMost(a, b) || AtMost(b, a)
  {
    if a != "" && b != "" {
      Total(a[1..], b[1..]);
    }
  }

  lemma {:induction false} Transitive(a: string, b: string, c: string)
    requires AtMost(a, b) && AtMost(b, c)
    ensures AtMost(a, c)
  {
    if a != "" && a[0] == b[0] == c[0] {
      Transitive(a[1..], b[1..], c[1..]);
    }
  }

  predicate IsLeast(names: set<string>, name: string) {
    name in names && forall n | n in names :: AtMost(name, n)
  }

  lemma {:induction false} HasLeast(names: set<string>)
    requires names != {}
    ensures exists name :: IsLeast(names, name)
  {
    var n :| n in names;
    Total(n, n);
    if names == {n} {
      assert IsLeast(names, n);
    } else {
      var rest := names - {n};
      HasLeast(rest);
      var least :| IsLeast(rest, least);
      Total(n, least);
      if AtMost(least, n) {
        assert IsLeast(names, least);
      } else {
        forall x | x in names
          ensures AtMost(n, x)
        {
          if x != n {
            Transitive(n, least, x);
          }
        }
        assert IsLeast(names, n);
      }
    }
  }

  lemma LeastUnique(names: set<string>)
    ensures forall a, b | IsLeast(names, a) && IsLeast(names, b) :: a == b
  {
    forall a, b | IsLeast(names, a) && IsLeast(names, b)
      ensures a == b
    {
      Antisymmetric(a, b);
    }
  }

  /** Python's `sorted(names)`. */
  function Sorted(names: set<string>): seq<string> {
    if names == {} then []
    else
      HasLeast(names);
      LeastUnique(names);
      var least :| least in names && IsLeast(names, least);
      [least] + Sorted(names - {least})
  }

  lemma SortedStep(names: set<string>) returns (least: string)
    requires names != {}
    ensures IsLeast(names, least) && Sorted(names) == [least] + Sorted(names - {least})
  {
    HasLeast(names);
    LeastUnique(names);
    least := Sorted(names)[0];
    hide AtMost;
  }

  lemma {:induction false} SortedMembers(names: set<string>)
    ensures forall n :: n in Sorted(names) <==> n in names
  {
    if names != {} {
      var least := SortedStep(names);
      SortedMembers(names - {least});
      hide Sorted;
      hide AtMost;
    }
  }

  /** Each name once, in ascending order. */
  ghost predicate Ascending(ns: seq<string>) {
    forall i, j | 0 <= i < j < |ns| :: ns[i] != ns[j] && AtMost(ns[i], ns[j])
  }

  /** The sorted sequence holds exactly the names of the set, each once, in ascending order. */
  lemma {:induction false} SortedExact(names: set<string>)
    ensures forall n :: n in Sorted(names) <==> n in names
    ensures Ascending(Sorted(names))
  {
    SortedMembers(names);
    if names != {} {
      var least := SortedStep(names);
      SortedExact(names - {least});
      hide Sorted;
      hide AtMost;
      hide Ascending;
      AscendingCons(least, Sorted(names - {least}));
    }
  }

  lemma AscendingCons(first: string, rest: seq<string>)
    requires Ascending(rest) && forall n | n in rest :: n != first && AtMost(first, n)
    ensures Ascending([first] + rest)
  {
    hide AtMost;
    assert forall i | 0 <= i < |rest| :: rest[i] in rest;
  }

  // ---- What is reported ----

  ghost function One(values: Values, env: Env, key: string): seq<Problem>
    requires Complete(values) && key in KEYS
  {
    if ValueOk(values, env, key) then [] else [BadValue(key)]
  }

  ghost function SwitchProblems(values: Values, env: Env): seq<Problem>
    requires Complete(values)
  {
    One(values, env, "zerohop_enabled") + One(values, env, "drop_enabled") + One(values, env, "stats_log")
  }

  ghost function NumberProblems(values: Values, env: Env): seq<Problem>
    requires Complete(values)
  {
    One(values, env, "grpc_port") + One(values, env, "health_port")
    + One(values, env, "grpc_max_workers") + One(values, env, "stats_interval_s")
  }

  ghost function LevelProblem(values: Values, env: Env): seq<Problem>
    requires Complete(values)
  {
    One(values, env, "log_level")
  }

  ghost function FormatProblem(values: Values, env: Env): seq<Problem>
    requires Complete(values)
  {
    One(values, env, "log_format")
  }

  ghost function FilterProblem(values: Values, env: Env): seq<Problem>
    requires Complete(values)
  {
    One(values, env, "topic_filter")
  }

  ghost function ChannelProblem(values: Values, env: Env): seq<Problem>
    requires Complete(values)
  {
    if ValueOk(values, env, "zerohop_channels") then One(values, env, "drop_channels")
    else [BadValue("zerohop_channels")]
  }

  function NameProblems(names: set<string>, env: Env): seq<Problem> {
    if env.portnums.None? then []
    else
      var unknown := Sorted(names - env.portnums.value);
      seq(|unknown|, j requires 0 <= j < |unknown| => UnknownPortnum(unknown[j]))
  }

  function PortnumProblems(values: Values, env: Env): seq<Problem>
    requires Complete(values)
  {
    match StringList(values["drop_portnums"])
    case None => [BadValue("drop_portnums")]
    case Some(names) => NameProblems(names, env)
  }

  /** All problems of one load, in the order they are reported. */
  ghost function Problems(values: Values, env: Env): seq<Problem>
    requires Complete(values)
  {
    SwitchProblems(values, env) + NumberProblems(values, env) + LevelProblem(values, env) + FormatProblem(values, env)
    + FilterProblem(values, env) + ChannelProblem(values, env) + PortnumProblems(values, env)
  }

  /** Upper-cased level and lower-cased format, where those are valid. */
  ghost function Normalised(values: Values, env: Env): Values
    requires Complete(values)
  {
    var v := if ValueOk(values, env, "log_level")
             then values["log_level" := Str(env.upper(values["log_level"].s))] else values;
    if ValueOk(values, env, "log_format") then v["log_format" := Str(env.lower(Format(values, env).s))] else v
  }

  /** Normalising touches the two logging keys only. */
  lemma NormalisedKeeps(values: Values, env: Env)
    requires Complete(values)
    ensures Complete(Normalised(values, env))
    ensures FilterProblem(Normalised(values, env), env) == FilterProblem(values, env)
    ensures ChannelProblem(Normalised(values, env), env) == ChannelProblem(values, env)
    ensures PortnumProblems(Normalised(values, env), env) == PortnumProblems(values, env)
    ensures forall k | k in {"zerohop_channels", "drop_channels", "drop_portnums"} ::
              Normalised(values, env)[k] == values[k]
  {
    hide Sorted;
  }

  /** The text that decides the log format: the environment's, unless it is unset or empty, and then
      the file's, if that is a string. */
  ghost predicate FormatText(values: Values, env: Env, text: string)
    requires Complete(values)
  {
    if env.logFormat.None? || env.logFormat.value == "" then values["log_format"] == Str(text)
    else env.logFormat.value == text
  }

  /** What validation leaves: a valid level upper-cased and a valid format, the environment's first,
      lower-cased; all else as it was. */
  lemma NormalisedExact(values: Values, env: Env)
    requires Complete(values)
    ensures var after := Normalised(values, env);
            && after.Keys == values.Keys
            && (forall k | k in values && k !in {"log_level", "log_format"} :: after[k] == values[k])
            && after["log_level"] == (if ValueOk(values, env, "log_level") then Str(env.upper(values["log_level"].s))
                                      else values["log_level"])
            && (ValueOk(values, env, "log_format") <==>
                exists text :: FormatText(values, env, text) && env.lower(text) in LOG_FORMATS)
            && (forall text | FormatText(values, env, text) && env.lower(text) in LOG_FORMATS ::
                  after["log_format"] == Str(env.lower(text)))
            && (!ValueOk(values, env, "log_format") ==> after["log_format"] == values["log_format"])
  {
    FormatExact(values, env);
    hide ValueOk;
    hide FormatText;
    hide LOG_FORMATS;
    assert forall k | k in Normalised(values, env) :: k in values;
  }

  lemma FormatExact(values: Values, env: Env)
    requires Complete(values)
    ensures ValueOk(values, env, "log_format") <==>
            exists text :: FormatText(values, env, text) && env.lower(text) in LOG_FORMATS
    ensures forall text :: FormatText(values, env, text) <==> Format(values, env) == Str(text)
  {
    assert forall text :: FormatText(values, env, text) <==> Format(values, env) == Str(text);
    if ValueOk(values, env, "log_format") {
      assert FormatText(values, env, Format(values, env).s);
    }
  }

  // ---- Loading ----

  /** Refuses removed and unknown keys, reporting both. */
  method RejectBadKeys(userKeys: set<string>) returns (e: Option<LoadError>)
    ensures e.None? <==> userKeys <= KEYS
    ensures e.Some? ==> e.value == BadKeys(userKeys * REMOVED_KEYS, userKeys - KEYS - REMOVED_KEYS)
  {
    var removed := userKeys * REMOVED_KEYS;
    var unknown := userKeys - KEYS - REMOVED_KEYS;
    RemovedAreUnknown();
    if removed == {} && unknown == {} {
      assert forall k | k in userKeys :: k !in removed && k !in unknown;
      return None;
    }
    assert exists k :: k in removed || k in unknown;
    e := Some(BadKeys(removed, unknown));
  }

  lemma RemovedAreUnknown()
    ensures forall k | k in REMOVED_KEYS :: k !in KEYS
  {
  }

  /** Overlays the user's mapping on the defaults, refuses keys it does not know, and validates. */
  method LoadConfig(user: Option<Yaml>, env: Env) returns (r: Result<Policy, LoadError>)
    ensures r == Load(user, env)
  {
    var loader := new Loader(env);
    MergeComplete(user);
    hide DEFAULTS;
    hide KEYS;
    if user.Some? {
      var mapping := if user.value.Null? then Map(map[], []) else user.value;
      if !mapping.Map? {
        return Err(NotAMapping);
      }
      if mapping.otherKeys != [] {
        return Err(KeysNotStrings);
      }
      var refused := RejectBadKeys(mapping.entries.Keys);
      if refused.Some? {
        return Err(refused.value);
      }
      loader.values := loader.values + mapping.entries;
      assert user.value.Null? ==> loader.values == DEFAULTS;
    }
    r := Finish(loader);
  }

  method Finish(loader: Loader) returns (r: Result<Policy, LoadError>)
    requires Complete(loader.values) && loader.errors == []
    modifies loader
    ensures r == Judge(old(loader.values), loader.env)
  {
    ghost var merged := loader.values;
    loader.ValidateValues();
    assert loader.errors == Problems(merged, loader.env);
    if loader.errors != [] {
      return Err(BadValues(loader.errors));
    }
    SwitchesAreBools(merged, loader.env);
    NormalisedSwitches(merged, loader.env);
    hide Problems;
    hide Normalised;
    r := Ok(Policy(
      loader.values["zerohop_enabled"].b, loader.zerohopSet.value,
      loader.values["drop_enabled"].b, loader.dropSet.value, loader.portnumSet.value));
  }

  /** The merged values, or why the keys are refused. */
  function Merge(user: Option<Yaml>): Result<Values, LoadError> {
    match user
    case None => Ok(DEFAULTS)
    case Some(Null) => Ok(DEFAULTS)
    case Some(Map(entries, otherKeys)) =>
      if otherKeys != [] then Err(KeysNotStrings)
      else if entries.Keys <= KEYS then Ok(DEFAULTS + entries)
      else Err(BadKeys(entries.Keys * REMOVED_KEYS, entries.Keys - KEYS - REMOVED_KEYS))
    case _ => Err(NotAMapping)
  }

  /** The verdict on merged values. */
  ghost function Judge(values: Values, env: Env): Result<Policy, LoadError>
    requires Complete(values)
  {
    if Problems(values, env) != [] then Err(BadValues(Problems(values, env)))
    else
      SwitchesAreBools(values, env);
      var zerohop := StringList(values["zerohop_channels"]).value;
      Ok(Policy(
        values["zerohop_enabled"].b, zerohop,
        values["drop_enabled"].b, DropChannels(values["drop_channels"], zerohop).value,
        StringList(values["drop_portnums"]).value))
  }

  ghost function Load(user: Option<Yaml>, env: Env): Result<Policy, LoadError> {
    match Merge(user)
    case Err(e) => Err(e)
    case Ok(values) => MergeComplete(user); Judge(values, env)
  }

  lemma DefaultsComplete()
    ensures Complete(DEFAULTS)
  {
  }

  lemma MergeComplete(user: Option<Yaml>)
    ensures Merge(user).Ok? ==> Complete(Merge(user).value)
    ensures Merge(None) == Ok(DEFAULTS) && Merge(Some(Null)) == Ok(DEFAULTS)
  {
    DefaultsComplete();
    hide DEFAULTS;
    hide KEYS;
  }

  lemma SwitchesAreBools(values: Values, env: Env)
    requires Complete(values) && Problems(values, env) == []
    ensures values["zerohop_enabled"].Bool? && values["drop_enabled"].Bool?
    ensures StringList(values["zerohop_channels"]).Some? && StringList(values["drop_portnums"]).Some?
    ensures DropChannels(values["drop_channels"], StringList(values["zerohop_channels"]).value).Some?
  {
  }

  lemma NormalisedSwitches(values: Values, env: Env)
    requires Complete(values)
    ensures Complete(Normalised(values, env))
    ensures Normalised(values, env)["zerohop_enabled"] == values["zerohop_enabled"]
    ensures Normalised(values, env)["drop_enabled"] == values["drop_enabled"]
  {
  }

  // ---- Validation is exact ----

  lemma ListMeans(values: Values, env: Env)
    requires Complete(values)
    ensures StringList(values["drop_portnums"]).Some? <==> StringsOrNull(values["drop_portnums"])
    ensures StringList(values["drop_portnums"]).Some? ==>
              forall n :: UnknownName(values, env, n)
                     <==> env.portnums.Some? && n in StringList(values["drop_portnums"]).value - env.portnums.value
  {
    var v := values["drop_portnums"];
    if StringList(v).Some? {
      forall n
        ensures n in StringList(v).value <==> Listed(v, n)
      {
        StringListMeans(v, n);
      }
    }
  }

  lemma NamesExact(names: set<string>, env: Env)
    ensures forall p | p in NameProblems(names, env) :: p.UnknownPortnum?
    ensures forall n :: UnknownPortnum(n) in NameProblems(names, env)
                   <==> env.portnums.Some? && n in names - env.portnums.value
  {
    if env.portnums.Some? {
      var unknown := Sorted(names - env.portnums.value);
      SortedExact(names - env.portnums.value);
      hide Sorted;
      forall n | n in unknown
        ensures UnknownPortnum(n) in NameProblems(names, env)
      {
        var i :| 0 <= i < |unknown| && unknown[i] == n;
        assert NameProblems(names, env)[i] == UnknownPortnum(n);
      }
    }
  }

  lemma PortnumExact(values: Values, env: Env)
    requires Complete(values)
    ensures forall key :: BadValue(key) in PortnumProblems(values, env)
                     <==> key == "drop_portnums" && !StringsOrNull(values["drop_portnums"])
    ensures forall n :: UnknownPortnum(n) in PortnumProblems(values, env)
                   <==> StringsOrNull(values["drop_portnums"]) && UnknownName(values, env, n)
    ensures PortnumProblems(values, env) == [] <==> ValueOk(values, env, "drop_portnums")
  {
    ListMeans(values, env);
    match StringList(values["drop_portnums"])
    case None =>
    case Some(names) =>
      NamesExact(names, env);
      hide NameProblems;
      hide UnknownName;
      hide StringsOrNull;
      hide StringList;
      if PortnumProblems(values, env) != [] {
        assert PortnumProblems(values, env)[0] in PortnumProblems(values, env);
      }
  }

  lemma StringsMember(items: seq<Yaml>)
    requires forall x | x in items :: x.Str?
    ensures forall x | x in items :: x.s in Strings(items)
    ensures forall s | s in Strings(items) :: Str(s) in items
  {
    forall x | x in items
      ensures x.s in Strings(items)
    {
      var i :| 0 <= i < |items| && items[i] == x;
    }
  }

  lemma OneExact(values: Values, env: Env, keys: set<string>, p: Problem)
    requires Complete(values) && keys <= KEYS
    ensures forall key | key in keys :: p in One(values, env, key) <==> p == BadValue(key) && !ValueOk(values, env, key)
  {
    hide ValueOk;
    hide KEYS;
  }

  ghost predicate BadAmong(values: Values, env: Env, keys: set<string>, p: Problem)
    requires Complete(values)
  {
    p.BadValue? && p.key in keys * KEYS && !ValueOk(values, env, p.key)
  }

  lemma ScalarsExact(values: Values, env: Env, p: Problem)
    requires Complete(values)
    ensures p in SwitchProblems(values, env) <==> BadAmong(values, env, SWITCH_KEYS, p)
    ensures p in NumberProblems(values, env) <==> BadAmong(values, env, NUMBER_KEYS, p)
    ensures p in LevelProblem(values, env) + FormatProblem(values, env) + FilterProblem(values, env)
       <==> BadAmong(values, env, TEXT_KEYS, p)
  {
    OneExact(values, env, SWITCH_KEYS, p);
    OneExact(values, env, NUMBER_KEYS, p);
    OneExact(values, env, TEXT_KEYS, p);
    hide ValueOk;
    hide One;
  }

  lemma ChannelExact(values: Values, env: Env, p: Problem)
    requires Complete(values)
    ensures p in ChannelProblem(values, env)
       <==> && BadAmong(values, env, {"zerohop_channels", "drop_channels"}, p)
            && !(p.key == "drop_channels" && !ValueOk(values, env, "zerohop_channels"))
  {
    OneExact(values, env, {"zerohop_channels", "drop_channels"}, p);
    hide ValueOk;
  }

  /** What is wrong with these values: each key whose value has the wrong type or range, with the one
      exception of a bad drop list, which a bad zero-hop list hides. In a list of strings it is each
      unknown portnum that is wrong, under its own name. */
  ghost predicate Wrong(values: Values, env: Env, p: Problem)
    requires Complete(values)
  {
    match p
    case BadValue(key) =>
      && key in KEYS
      && (if key == "drop_portnums" then !StringsOrNull(values[key]) else !ValueOk(values, env, key))
      && !(key == "drop_channels" && !ValueOk(values, env, "zerohop_channels"))
    case UnknownPortnum(name) => StringsOrNull(values["drop_portnums"]) && UnknownName(values, env, name)
  }

  lemma WrongSplit(values: Values, env: Env, p: Problem)
    requires Complete(values)
    ensures Wrong(values, env, p)
       <==> || BadAmong(values, env, SWITCH_KEYS, p) || BadAmong(values, env, NUMBER_KEYS, p)
            || BadAmong(values, env, TEXT_KEYS, p)
            || (&& BadAmong(values, env, {"zerohop_channels", "drop_channels"}, p)
                && !(p.key == "drop_channels" && !ValueOk(values, env, "zerohop_channels")))
            || (p == BadValue("drop_portnums") && !StringsOrNull(values["drop_portnums"]))
            || (p.UnknownPortnum? && StringsOrNull(values["drop_portnums"]) && UnknownName(values, env, p.name))
  {
    hide ValueOk;
    hide StringsOrNull;
    hide UnknownName;
  }

  /** Exactly what is wrong is reported. */
  lemma ProblemsExact(values: Values, env: Env, p: Problem)
    requires Complete(values)
    ensures p in Problems(values, env) <==> Wrong(values, env, p)
  {
    hide *;
    PortnumExact(values, env);
    ScalarsExact(values, env, p);
    ChannelExact(values, env, p);
    WrongSplit(values, env, p);
    JoinedLists(values, env, p);
  }

  lemma JoinedLists(values: Values, env: Env, p: Problem)
    requires Complete(values)
    ensures p in Problems(values, env)
       <==> || p in SwitchProblems(values, env) || p in NumberProblems(values, env)
            || p in LevelProblem(values, env) + FormatProblem(values, env) + FilterProblem(values, env)
            || p in ChannelProblem(values, env) || p in PortnumProblems(values, env)
  {
    hide SwitchProblems;
    hide NumberProblems;
    hide LevelProblem;
    hide FormatProblem;
    hide FilterProblem;
    hide ChannelProblem;
    hide PortnumProblems;
    hide Complete;
  }

  lemma PortnumsOk(values: Values, env: Env)
    requires Complete(values)
    ensures "drop_portnums" in KEYS && "zerohop_channels" in KEYS
    ensures ValueOk(values, env, "drop_portnums")
       <==> StringsOrNull(values["drop_portnums"]) && forall name :: !UnknownName(values, env, name)
  {
  }

  /** Nothing is reported exactly when every value is right. */
  lemma NoProblems(values: Values, env: Env)
    requires Complete(values)
    ensures Problems(values, env) == [] <==> forall key | key in KEYS :: ValueOk(values, env, key)
  {
    PortnumsOk(values, env);
    hide ValueOk;
    hide Problems;
    hide KEYS;
    hide StringsOrNull;
    hide UnknownName;
    if Problems(values, env) == [] {
      forall key | key in KEYS
        ensures ValueOk(values, env, key)
      {
        ProblemsExact(values, env, BadValue("zerohop_channels"));
        ProblemsExact(values, env, BadValue(key));
        forall name
          ensures !(StringsOrNull(values["drop_portnums"]) && UnknownName(values, env, name))
        {
          ProblemsExact(values, env, UnknownPortnum(name));
        }
      }
    } else {
      ProblemsExact(values, env, Problems(values, env)[0]);
    }
  }

  // ---- Loading is exact, over what the user wrote ----

  /** A file that is empty, or holds a mapping. */
  predicate IsMapping(user: Option<Yaml>) {
    user.None? || user.value.Null? || user.value.Map?
  }

  /** The user gives `key` the value `v`. */
  predicate Gives(user: Option<Yaml>, key: string, v: Yaml) {
    user.Some? && user.value.Map? && key in user.value.entries && user.value.entries[key] == v
  }

  predicate Mentions(user: Option<Yaml>, key: string) {
    user.Some? && user.value.Map? && key in user.value.entries
  }

  predicate OtherKeys(user: Option<Yaml>) {
    user.Some? && user.value.Map? && user.value.otherKeys != []
  }

  /** These are the values in effect: the user's where there is one, and otherwise the default. */
  ghost predicate InEffect(user: Option<Yaml>, values: Values) {
    && values.Keys == KEYS
    && forall key | key in KEYS ::
         if Mentions(user, key) then Gives(user, key, values[key]) else key in DEFAULTS && values[key] == DEFAULTS[key]
  }

  lemma DefaultsKeys()
    ensures DEFAULTS.Keys == KEYS
  {
  }

  lemma KeysComplete(values: Values)
    requires values.Keys == KEYS
    ensures Complete(values)
  {
  }

  lemma MergeExact(user: Option<Yaml>)
    ensures Merge(user) == Err(NotAMapping) <==> !IsMapping(user)
    ensures Merge(user) == Err(KeysNotStrings) <==> IsMapping(user) && OtherKeys(user)
    ensures Merge(user).Err? && Merge(user).error.BadKeys?
       <==> IsMapping(user) && !OtherKeys(user) && exists key :: Mentions(user, key) && key !in KEYS
    ensures Merge(user).Ok?
       <==> IsMapping(user) && !OtherKeys(user) && forall key :: Mentions(user, key) ==> key in KEYS
    ensures Merge(user).Ok? ==> InEffect(user, Merge(user).value)
  {
    DefaultsKeys();
    hide DEFAULTS;
    hide KEYS;
    if user.Some? && user.value.Map? && user.value.otherKeys == [] {
      var entries := user.value.entries;
      assert entries.Keys <= KEYS <==> forall key :: Mentions(user, key) ==> key in KEYS;
      if entries.Keys <= KEYS {
        assert (DEFAULTS + entries).Keys == KEYS;
      }
    }
  }

  lemma BadKeysNamed(user: Option<Yaml>, removed: set<string>, unknown: set<string>)
    requires Merge(user) == Err(BadKeys(removed, unknown))
    ensures forall key :: key in removed <==> Mentions(user, key) && key in REMOVED_KEYS
    ensures forall key :: key in unknown <==> Mentions(user, key) && key !in KEYS && key !in REMOVED_KEYS
  {
    hide DEFAULTS;
    hide KEYS;
    hide REMOVED_KEYS;
  }

  lemma InEffectUnique(user: Option<Yaml>, a: Values, b: Values)
    requires InEffect(user, a) && InEffect(user, b)
    ensures a == b
  {
    hide KEYS;
    hide DEFAULTS;
    assert forall key | key in KEYS :: a[key] == b[key];
  }

  /** For every file: which error it gets, if any, in the order the loader looks; and it loads exactly
      when it is a mapping of known string keys whose every value in effect is right. */
  lemma LoadExact(user: Option<Yaml>, env: Env, values: Values)
    requires InEffect(user, values)
    ensures Complete(values)
    ensures Load(user, env) == Err(NotAMapping) <==> !IsMapping(user)
    ensures Load(user, env) == Err(KeysNotStrings) <==> IsMapping(user) && OtherKeys(user)
    ensures Load(user, env).Err? && Load(user, env).error.BadKeys?
       <==> IsMapping(user) && !OtherKeys(user) && exists key :: Mentions(user, key) && key !in KEYS
    ensures Load(user, env).Ok?
       <==> && IsMapping(user) && !OtherKeys(user) && (forall key :: Mentions(user, key) ==> key in KEYS)
            && forall key | key in KEYS :: ValueOk(values, env, key)
    ensures Load(user, env).Err? && Load(user, env).error.BadValues? ==>
              Load(user, env).error.problems == Problems(values, env)
  {
    KeysComplete(values);
    MergeExact(user);
    MergeComplete(user);
    if Merge(user).Ok? {
      InEffectUnique(user, values, Merge(user).value);
      NoProblems(values, env);
    }
    hide KEYS;
    hide Complete;
    hide Merge;
    hide Problems;
    hide ValueOk;
    hide InEffect;
    hide Mentions;
  }

  /** There always are values in effect. */
  lemma SomeInEffect(user: Option<Yaml>) returns (values: Values)
    ensures InEffect(user, values)
  {
    DefaultsKeys();
    hide DEFAULTS;
    hide KEYS;
    values := map key | key in KEYS :: if Mentions(user, key) then user.value.entries[key] else DEFAULTS[key];
  }

  /** A misspelt key is refused, whatever the rest of the file says. */
  lemma TypoRefused(env: Env)
    ensures var r := Load(Some(Map(map["zerohop_channel" := List([Str("LongFast")])], [])), env);
            r == Err(BadKeys({}, {"zerohop_channel"}))
  {
    var entries := map["zerohop_channel" := List([Str("LongFast")])];
    assert "zerohop_channel" in entries.Keys && "zerohop_channel" !in KEYS;
    assert entries.Keys * REMOVED_KEYS == {};
    assert entries.Keys - KEYS - REMOVED_KEYS == {"zerohop_channel"};
    hide KEYS;
    hide REMOVED_KEYS;
    hide DEFAULTS;
  }

  lemma MergeMapping(entries: map<string, Yaml>)
    requires entries.Keys <= KEYS
    ensures Merge(Some(Map(entries, []))) == Ok(DEFAULTS + entries)
    ensures Complete(DEFAULTS + entries)
  {
    MergeComplete(Some(Map(entries, [])));
    hide DEFAULTS;
    hide KEYS;
  }

  lemma HidesDropList(values: Values, env: Env)
    requires Complete(values) && values["zerohop_channels"] == Int(1) && values["drop_channels"] == Int(1)
    ensures BadValue("zerohop_channels") in Problems(values, env) && BadValue("drop_channels") !in Problems(values, env)
    ensures !ValueOk(values, env, "drop_channels")
  {
    assert !ValueOk(values, env, "zerohop_channels") && !ValueOk(values, env, "drop_channels");
    hide ValueOk;
    hide Problems;
    ProblemsExact(values, env, BadValue("zerohop_channels"));
    ProblemsExact(values, env, BadValue("drop_channels"));
  }

  /** "All problems are reported together" is false: of these two bad lists only one is reported. */
  lemma DropListHidden(env: Env)
    ensures var user := Some(Map(map["zerohop_channels" := Int(1), "drop_channels" := Int(1)], []));
            var r := Load(user, env);
            && r.Err? && r.error.BadValues?
            && BadValue("zerohop_channels") in r.error.problems && BadValue("drop_channels") !in r.error.problems
            && Merge(user).Ok? && Complete(Merge(user).value) && !ValueOk(Merge(user).value, env, "drop_channels")
  {
    var entries := map["zerohop_channels" := Int(1), "drop_channels" := Int(1)];
    MergeMapping(entries);
    var values := DEFAULTS + entries;
    hide DEFAULTS;
    hide Merge;
    hide Complete;
    hide Problems;
    hide ValueOk;
    HidesDropList(values, env);
  }

  // ---- The precomputed sets mean what the file says ----

  /** Zero-hop applies to the listed channels, when enabled. */
  predicate ZerohopMeans(values: Values, channel: string)
    requires Complete(values)
  {
    values["zerohop_enabled"] == Bool(true) && Listed(values["zerohop_channels"], channel)
  }

  /** Drop applies to listed portnums: on every channel for null or an empty list, on the zero-hop
      list (even an empty one) when inherited, on the listed channels otherwise. */
  predicate DropMeans(values: Values, channel: string, portnum: Option<string>)
    requires Complete(values)
  {
    && values["drop_enabled"] == Bool(true)
    && portnum.Some? && Listed(values["drop_portnums"], portnum.value)
    && var scope := values["drop_channels"];
       if scope == Null || scope == List([]) then true
       else if scope == Str(INHERIT) then Listed(values["zerohop_channels"], channel)
       else Listed(scope, channel)
  }

  lemma StringListMeans(v: Yaml, name: string)
    requires StringList(v).Some?
    ensures name in StringList(v).value <==> Listed(v, name)
  {
    if v.List? {
      StringsMember(v.items);
    }
  }

  lemma ZerohopSetMeans(values: Values, env: Env, channel: string)
    requires Complete(values) && Judge(values, env).Ok?
    ensures ShouldZerohop(Judge(values, env).value, channel) <==> ZerohopMeans(values, channel)
  {
    SwitchesAreBools(values, env);
    hide Problems;
    StringListMeans(values["zerohop_channels"], channel);
    hide StringList;
    hide DropChannels;
    hide Listed;
  }

  /** The resolved scope, None for every channel, means what the raw drop list says. */
  lemma ScopeMeans(scope: Yaml, zerohop: Yaml, channel: string)
    requires StringList(zerohop).Some? && DropChannels(scope, StringList(zerohop).value).Some?
    ensures var resolved := DropChannels(scope, StringList(zerohop).value).value;
            (resolved.None? || channel in resolved.value) <==>
            (if scope == Null || scope == List([]) then true
             else if scope == Str(INHERIT) then Listed(zerohop, channel)
             else Listed(scope, channel))
  {
    StringListMeans(zerohop, channel);
    if scope.List? && scope.items != [] {
      StringListMeans(scope, channel);
    }
    hide StringList;
    hide Listed;
  }

  lemma DropSetsMean(values: Values, env: Env, channel: string, portnum: Option<string>)
    requires Complete(values) && Judge(values, env).Ok?
    ensures ShouldDrop(Judge(values, env).value, channel, portnum) <==> DropMeans(values, channel, portnum)
  {
    SwitchesAreBools(values, env);
    hide Problems;
    if portnum.Some? {
      StringListMeans(values["drop_portnums"], portnum.value);
    }
    ScopeMeans(values["drop_channels"], values["zerohop_channels"], channel);
    hide StringList;
    hide DropChannels;
    hide Listed;
  }

  /** Every loaded configuration answers both policy questions as the values in effect say. */
  lemma PolicyMeans(user: Option<Yaml>, env: Env, values: Values, channel: string, portnum: Option<string>)
    requires Load(user, env).Ok? && InEffect(user, values)
    ensures Complete(values)
    ensures ShouldZerohop(Load(user, env).value, channel) <==> ZerohopMeans(values, channel)
    ensures ShouldDrop(Load(user, env).value, channel, portnum) <==> DropMeans(values, channel, portnum)
  {
    MergeExact(user);
    MergeComplete(user);
    InEffectUnique(user, values, Merge(user).value);
    hide InEffect;
    hide IsMapping;
    hide Merge;
    hide Judge;
    hide Complete;
    hide ZerohopMeans;
    hide DropMeans;
    hide ShouldZerohop;
    hide ShouldDrop;
    ZerohopSetMeans(values, env, channel);
    DropSetsMean(values, env, channel, portnum);
  }

  predicate PlainEnv(env: Env) {
    && env.logFormat.None? && env.upper("INFO") == "INFO" && env.lower("text") == "text"
    && (env.portnums.Some? ==> "RANGE_TEST_APP" in env.portnums.value)
  }

  /** A mapping that drops one portnum, its drop list missing or null. */
  predicate DropOnly(entries: map<string, Yaml>) {
    && entries.Keys <= {"zerohop_channels", "drop_enabled", "drop_portnums", "drop_channels"}
    && "zerohop_channels" in entries && entries["zerohop_channels"] == List([Str("LongFast")])
    && "drop_enabled" in entries && entries["drop_enabled"] == Bool(true)
    && "drop_portnums" in entries && entries["drop_portnums"] == List([Str("RANGE_TEST_APP")])
    && ("drop_channels" in entries ==> entries["drop_channels"] == Null)
  }

  /** "A missing `drop_channels` means all channels" is false: where an explicit null drops on every
      channel, the same mapping without the key drops on the zero-hop list only. */
  lemma MissingInherits(entries: map<string, Yaml>, env: Env, channel: string)
    requires DropOnly(entries) && PlainEnv(env)
    ensures var r := Load(Some(Map(entries, [])), env);
            && r.Ok?
            && (ShouldDrop(r.value, channel, Some("RANGE_TEST_APP")) <==>
                "drop_channels" in entries || channel == "LongFast")
  {
    DropOnlyLoads(entries, env);
    DropOnlyMeans(entries, channel);
    hide Load;
    hide Merge;
    hide DropOnly;
    hide Complete;
    hide DropMeans;
    hide ShouldDrop;
    hide DEFAULTS;
    MergeExact(Some(Map(entries, [])));
    hide InEffect;
    PolicyMeans(Some(Map(entries, [])), env, DEFAULTS + entries, channel, Some("RANGE_TEST_APP"));
  }

  lemma DropOnlyMeans(entries: map<string, Yaml>, channel: string)
    requires DropOnly(entries)
    ensures Complete(DEFAULTS + entries)
    ensures DropMeans(DEFAULTS + entries, channel, Some("RANGE_TEST_APP")) <==>
            "drop_channels" in entries || channel == "LongFast"
  {
    DefaultsComplete();
    DefaultsListed();
    hide DEFAULTS;
  }

  lemma DropOnlyLoads(entries: map<string, Yaml>, env: Env)
    requires DropOnly(entries) && PlainEnv(env)
    ensures Load(Some(Map(entries, [])), env).Ok?
    ensures Merge(Some(Map(entries, []))) == Ok(DEFAULTS + entries)
  {
    assert entries.Keys <= KEYS;
    MergeMapping(entries);
    NoProblems(DEFAULTS + entries, env);
    hide Problems;
    hide Merge;
    forall key | key in KEYS
      ensures ValueOk(DEFAULTS + entries, env, key)
    {
      DefaultsOk(env, key);
      DropOnlyOk(DEFAULTS, entries, env, key);
    }
    hide DEFAULTS;
    hide KEYS;
  }

  lemma DefaultsOk(env: Env, key: string)
    requires PlainEnv(env) && key in KEYS
    ensures Complete(DEFAULTS) && ValueOk(DEFAULTS, env, key)
  {
    assert StringsOrNull(List(PRESETS));
    hide PRESETS;
    hide StringsOrNull;
    DefaultsListed();
  }

  lemma DefaultsListed()
    ensures StringsOrNull(List([])) && DEFAULTS["drop_portnums"] == List([])
    ensures DEFAULTS["zerohop_channels"] == List(PRESETS) && DEFAULTS["drop_channels"] == Str(INHERIT)
  {
    hide PRESETS;
  }

  lemma DropOnlyOk(values: Values, entries: map<string, Yaml>, env: Env, key: string)
    requires DropOnly(entries) && PlainEnv(env) && Complete(values) && key in KEYS && ValueOk(values, env, key)
    ensures Complete(values + entries) && ValueOk(values + entries, env, key)
  {
  }
}
