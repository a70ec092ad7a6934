/** The structured text formatter: log records in, one text line each out. */
module Formatter {
  import opened Bytes
  import opened JsonPacket
  import opened LogText
  import opened Splitting

  /** Fields of a message line, in display order. */
  const MESSAGE_FIELDS: seq<string> :=
    ["topic", "channel", "encoding", "portnum", "id", "from", "to",
     "hop_limit", "hop_start", "relay", "via_mqtt", "bytes"]

  const STATS_FIELDS: seq<string> :=
    ["interval_s", "zerohop", "passthru", "noop", "dropped", "skipped", "errors", "total"]

  const OUTCOME_TAGS: map<string, string> := map[
    "zerohop" := "[ZEROHOP]",
    "passthru" := "[PASSTHRU]",
    "noop" := "[NOOP]",
    "dropped" := "[DROPPED]",
    "warn" := "[WARN]"]

  /** Python's `str`, `str.upper` and `str.isprintable`. */
  datatype Python = Python(str: Json -> Text, upper: string -> string, printable: Printable)

  function Tag(py: Python, outcome: string): string {
    if outcome in OUTCOME_TAGS then OUTCOME_TAGS[outcome] else "[" + py.upper(outcome) + "]"
  }

  /** The `(key, str(value))` pairs of the attributes that are present and not None, in key order. */
  function Pairs(py: Python, attrs: Dict, keys: seq<string>): seq<(Text, Text)> {
    if keys == [] then []
    else
      var before := Pairs(py, attrs, keys[..|keys| - 1]);
      var key := keys[|keys| - 1];
      if Get(attrs, key).Null? then before else before + [(Ascii(key), py.str(attrs[key]))]
  }

  function MessageLine(py: Python, outcome: string, attrs: Dict): Line {
    Line(Ascii(Tag(py, outcome)), Pairs(py, attrs, MESSAGE_FIELDS))
  }

  function StatsLine(py: Python, attrs: Dict): Line {
    Line(Ascii("[STATS]"), Pairs(py, attrs, STATS_FIELDS))
  }

  function Raw(f: (Text, Text)): Text {
    f.0 + [EQUALS] + f.1
  }

  function Parts(py: Python, tag: Text, fields: seq<(Text, Text)>, escaped: bool): seq<Text> {
    [tag] + seq(|fields|, i requires 0 <= i < |fields| =>
      if escaped then RenderField(py.printable, fields[i]) else Raw(fields[i]))
  }

  lemma {:induction false} RenderSnoc(p: Printable, fields: seq<(Text, Text)>, f: (Text, Text))
    ensures RenderFields(p, fields + [f]) == RenderFields(p, fields) + ([SPACE] + RenderField(p, f))
  {
    hide RenderField;
    var last := [SPACE] + RenderField(p, f);
    if fields == [] {
      assert fields + [f] == [f];
      assert RenderFields(p, [f]) == last + [];
    } else {
      var head, tail := [SPACE] + RenderField(p, fields[0]), RenderFields(p, fields[1..]);
      RenderSnoc(p, fields[1..], f);
      assert (fields + [f])[1..] == fields[1..] + [f];
      assert head + (tail + last) == (head + tail) + last;
    }
  }

  /** Joining the tag and the rendered fields with spaces is the whole line. */
  lemma {:induction false} JoinIsLine(py: Python, tag: Text, fields: seq<(Text, Text)>)
    ensures Join(Parts(py, tag, fields, true), SPACE) == RenderLine(py.printable, Line(tag, fields))
  {
    hide RenderField;
    if fields == [] {
      assert Parts(py, tag, fields, true) == [tag];
      assert tag + [] == tag;
    } else {
      var n := |fields| - 1;
      var x := RenderField(py.printable, fields[n]);
      JoinIsLine(py, tag, fields[..n]);
      assert Parts(py, tag, fields, true) == Parts(py, tag, fields[..n], true) + [x];
      JoinSnoc(Parts(py, tag, fields[..n], true), x, SPACE);
      assert fields == fields[..n] + [fields[n]];
      RenderSnoc(py.printable, fields[..n], fields[n]);
    }
  }

  class LogRecord {
    var event: Option<string>
    var outcome: string
    var attrs: Dict
    var msg: Text
    var args: Option<Json>

    constructor (event: Option<string>, outcome: string, attrs: Dict, msg: Text, args: Option<Json>)
      ensures this.event == event && this.outcome == outcome && this.attrs == attrs
      ensures this.msg == msg && this.args == args
    {
      this.event, this.outcome, this.attrs, this.msg, this.args := event, outcome, attrs, msg, args;
    }
  }

  class StructuredTextFormatter {
    const py: Python

    constructor (py: Python)
      ensures this.py == py
    {
      this.py := py;
    }

    method FormatMessage(record: LogRecord) returns (line: Text)
      ensures line == RenderLine(py.printable, MessageLine(py, record.outcome, record.attrs))
    {
      var tag := Ascii(Tag(py, record.outcome));
      var parts := [tag];
      for i := 0 to |MESSAGE_FIELDS|
        invariant parts == Parts(py, tag, Pairs(py, record.attrs, MESSAGE_FIELDS[..i]), true)
      {
        var key := MESSAGE_FIELDS[i];
        assert MESSAGE_FIELDS[..i + 1][..i] == MESSAGE_FIELDS[..i];
        var val := Get(record.attrs, key);
        if !val.Null? {
          var text := EscapeValue(py.printable, py.str(val));
          parts := parts + [Ascii(key) + [EQUALS] + text];
        }
      }
      assert MESSAGE_FIELDS[..|MESSAGE_FIELDS|] == MESSAGE_FIELDS;
      JoinIsLine(py, tag, Pairs(py, record.attrs, MESSAGE_FIELDS));
      line := Join(parts, SPACE);
    }

    /** Values are written without escaping here. */
    method FormatStats(record: LogRecord) returns (line: Text)
      ensures line == Join(Parts(py, Ascii("[STATS]"), Pairs(py, record.attrs, STATS_FIELDS), false), SPACE)
    {
      var parts := [Ascii("[STATS]")];
      for i := 0 to |STATS_FIELDS|
        invariant parts == Parts(py, Ascii("[STATS]"), Pairs(py, record.attrs, STATS_FIELDS[..i]), false)
      {
        var key := STATS_FIELDS[i];
        assert STATS_FIELDS[..i + 1][..i] == STATS_FIELDS[..i];
        var val := Get(record.attrs, key);
        if !val.Null? {
          parts := parts + [Ascii(key) + [EQUALS] + py.str(val)];
        }
      }
      assert STATS_FIELDS[..|STATS_FIELDS|] == STATS_FIELDS;
      line := Join(parts, SPACE);
    }

    /** Replaces the message of a structured record, and drops its arguments, before the base
        formatter runs; any other record is left as it is. */
    method Format(record: LogRecord)
      modifies record
      ensures record.event == old(record.event) && record.outcome == old(record.outcome)
      ensures record.attrs == old(record.attrs)
      ensures record.event == Some("message") ==>
                && record.msg == RenderLine(py.printable, MessageLine(py, record.outcome, record.attrs))
                && record.args == None
      ensures record.event == Some("stats") ==>
                && record.msg == Join(Parts(py, Ascii("[STATS]"), Pairs(py, record.attrs, STATS_FIELDS), false), SPACE)
                && record.args == None
      ensures record.event !in {Some("message"), Some("stats")} ==>
                record.msg == old(record.msg) && record.args == old(record.args)
    {
      if record.event == Some("message") {
        var line := FormatMessage(record);
        record.msg := line;
        record.args := None;
      } else if record.event == Some("stats") {
        var line := FormatStats(record);
        record.msg := line;
        record.args := None;
      }
    }
  }

  // ---- No value can forge a field or a line ----

  lemma {:induction false} PairsKeys(py: Python, attrs: Dict, keys: seq<string>)
    ensures forall f | f in Pairs(py, attrs, keys) :: exists k :: k in keys && f.0 == Ascii(k)
  {
    if keys != [] {
      PairsKeys(py, attrs, keys[..|keys| - 1]);
    }
  }

  /** The fields of a line are exactly the attributes that are present and not None. */
  lemma {:induction false} PairsExact(py: Python, attrs: Dict, keys: seq<string>, k: string, v: Text)
    requires k in keys
    requires forall i | 0 <= i < |keys| && Ascii(keys[i]) == Ascii(k) :: keys[i] == k
    ensures (Ascii(k), v) in Pairs(py, attrs, keys) <==> !Get(attrs, k).Null? && v == py.str(attrs[k])
  {
    if |keys| == 1 {
      assert keys[..0] == [];
    } else {
      var init, last := keys[..|keys| - 1], keys[|keys| - 1];
      assert keys == init + [last];
      if k in init {
        PairsExact(py, attrs, init, k, v);
      } else {
        NotPaired(py, attrs, init, k, v);
      }
    }
  }

  /** The fields come in the order of the keys. */
  lemma {:induction false} PairsOrdered(py: Python, attrs: Dict, keys: seq<string>, i: nat, j: nat)
    requires i < j < |Pairs(py, attrs, keys)|
    ensures exists a, b :: 0 <= a < b < |keys|
                        && Pairs(py, attrs, keys)[i].0 == Ascii(keys[a])
                        && Pairs(py, attrs, keys)[j].0 == Ascii(keys[b])
  {
    var init, last := keys[..|keys| - 1], keys[|keys| - 1];
    var before := Pairs(py, attrs, init);
    if j < |before| {
      PairsOrdered(py, attrs, init, i, j);
      var a, b :| 0 <= a < b < |init| && before[i].0 == Ascii(init[a]) && before[j].0 == Ascii(init[b]);
      assert init[a] == keys[a] && init[b] == keys[b];
    } else {
      PairsKeys(py, attrs, init);
      assert before[i] in before;
      var k :| k in init && before[i].0 == Ascii(k);
      var a :| 0 <= a < |init| && init[a] == k;
      assert keys[a] == k && Pairs(py, attrs, keys)[j].0 == Ascii(keys[|keys| - 1]);
    }
  }

  lemma {:induction false} NotPaired(py: Python, attrs: Dict, keys: seq<string>, k: string, v: Text)
    requires forall i | 0 <= i < |keys| :: Ascii(keys[i]) != Ascii(k)
    ensures (Ascii(k), v) !in Pairs(py, attrs, keys)
  {
    if keys != [] {
      NotPaired(py, attrs, keys[..|keys| - 1], k, v);
    }
  }

  /** Lower-case letters and underscores. */
  predicate PlainKey(k: string) {
    forall i | 0 <= i < |k| :: '_' <= k[i] <= 'z'
  }

  lemma PlainKeys(keys: seq<string>)
    requires keys == MESSAGE_FIELDS || keys == STATS_FIELDS
    ensures forall i | 0 <= i < |keys| :: PlainKey(keys[i])
  {
  }

  lemma PlainAscii(k: string)
    requires PlainKey(k)
    ensures forall c | c in Ascii(k) :: 95 <= c < 123
  {
  }

  lemma PlainPairs(py: Python, attrs: Dict, keys: seq<string>)
    requires keys == MESSAGE_FIELDS || keys == STATS_FIELDS
    ensures forall f, c | f in Pairs(py, attrs, keys) && c in f.0 :: 95 <= c < 123
    ensures forall f | f in Pairs(py, attrs, keys) :: EQUALS !in f.0
  {
    PairsKeys(py, attrs, keys);
    PlainKeys(keys);
    hide MESSAGE_FIELDS;
    hide STATS_FIELDS;
    forall f, c | f in Pairs(py, attrs, keys) && c in f.0
      ensures 95 <= c < 123
    {
      var k :| k in keys && f.0 == Ascii(k);
      PlainAscii(k);
    }
  }

  /** The tag of each of the five outcomes is its name in capitals, in brackets. */
  lemma TagExact(py: Python, outcome: string)
    requires outcome in {"zerohop", "passthru", "noop", "dropped", "warn"}
    ensures var tag := Tag(py, outcome);
            && |tag| == |outcome| + 2 && tag[0] == '[' && tag[|tag| - 1] == ']'
            && forall i | 0 <= i < |outcome| :: tag[i + 1] as int == outcome[i] as int - 32
  {
  }

  lemma PlainTag(py: Python, outcome: string)
    requires outcome in OUTCOME_TAGS
    ensures forall c | c in Ascii(Tag(py, outcome)) :: 65 <= c < 94
  {
    var tag := Tag(py, outcome);
    forall c | c in Ascii(tag)
      ensures 65 <= c < 94
    {
      var i :| 0 <= i < |tag| && tag[i] as int == c;
    }
  }

  /** Of a message line, a reader recovers the tag and every field with the text of its value, for
      all attribute values a publisher could cause, as long as the tag itself has no space; the five
      outcomes floodgate logs have such tags. */
  lemma MessageLineReads(py: Python, outcome: string, attrs: Dict)
    ensures var line := MessageLine(py, outcome, attrs);
            ReadLine(RenderLine(py.printable, line)) == Some(line) <==> SPACE !in line.tag
    ensures outcome in OUTCOME_TAGS ==> SPACE !in MessageLine(py, outcome, attrs).tag
  {
    PlainPairs(py, attrs, MESSAGE_FIELDS);
    if outcome in OUTCOME_TAGS {
      PlainTag(py, outcome);
    }
    hide Pairs;
    hide Tag;
    hide ReadLine;
    hide RenderLine;
    LineRoundTrip(py.printable, MessageLine(py, outcome, attrs));
  }

  /** Every character of such a line is printable, so no value starts a second line. */
  lemma MessageLinePrintable(py: Python, outcome: string, attrs: Dict)
    requires AsciiPrintable(py.printable) && outcome in OUTCOME_TAGS
    ensures forall c | c in RenderLine(py.printable, MessageLine(py, outcome, attrs)) :: py.printable(c)
  {
    PlainTag(py, outcome);
    PlainPairs(py, attrs, MESSAGE_FIELDS);
    LinePrintable(py.printable, MessageLine(py, outcome, attrs));
  }

  /** The unescaped stats line reads back as long as its values, integers in practice, need no quoting. */
  lemma StatsLineReads(py: Python, attrs: Dict)
    requires forall k | k in STATS_FIELDS && !Get(attrs, k).Null? :: Bare(py.printable, py.str(attrs[k]))
    ensures var fields := Pairs(py, attrs, STATS_FIELDS);
            ReadLine(Join(Parts(py, Ascii("[STATS]"), fields, false), SPACE)) == Some(StatsLine(py, attrs))
  {
    hide Bare;
    hide Parts;
    hide RenderLine;
    hide ReadLine;
    var fields := Pairs(py, attrs, STATS_FIELDS);
    PairsBare(py, attrs, STATS_FIELDS);
    BareParts(py, Ascii("[STATS]"), fields);
    JoinIsLine(py, Ascii("[STATS]"), fields);
    PlainPairs(py, attrs, STATS_FIELDS);
    hide Pairs;
    LineRoundTrip(py.printable, StatsLine(py, attrs));
  }

  lemma BareParts(py: Python, tag: Text, fields: seq<(Text, Text)>)
    requires forall f | f in fields :: Bare(py.printable, f.1)
    ensures Parts(py, tag, fields, false) == Parts(py, tag, fields, true)
  {
    hide Bare;
    assert forall f | f in fields :: RenderField(py.printable, f) == Raw(f);
  }

  lemma {:induction false} PairsBare(py: Python, attrs: Dict, keys: seq<string>)
    requires forall k | k in keys && !Get(attrs, k).Null? :: Bare(py.printable, py.str(attrs[k]))
    ensures forall f | f in Pairs(py, attrs, keys) :: Bare(py.printable, f.1)
  {
    if keys != [] {
      PairsBare(py, attrs, keys[..|keys| - 1]);
    }
  }
}
