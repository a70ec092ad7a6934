/** The log lines of the pipeline cannot be forged by what a publisher sends. */
module LogLaws {
  import opened Bytes
  import opened JsonPacket
  import opened LogText
  import opened Splitting
  import opened Formatter
  import Config
  import Mesh
  import Topic
  import opened NodeId
  import opened Stats
  import opened Pipeline
  import opened PipelineLaws

  /** No record, or the one record of a message counted once, under the record's own outcome. */
  predicate Recorded(v: Verdict, topic: string) {
    || v.entries == []
    || (&& |v.entries| == 1 && |v.counters| == 1 && v.counters[0] != Skipped
        && v.entries[0].outcome == OutcomeName(v.counters[0])
        && Get(v.entries[0].attrs, "topic") == Str(topic))
  }

  lemma ReportRecorded(counter: Counter, action: ProcessResult, topic: string, base: Dict, meta: Dict, extra: Dict)
    requires Get(base, "topic") == Str(topic) && "topic" !in extra && counter != Skipped
    ensures Recorded(Report(counter, action, NodeEntry(OutcomeName(counter), base, meta, extra)), topic)
  {
    hide FmtNode;
    hide OutcomeName;
  }

  lemma RewriteRecorded(topic: string, base: Dict, payload: bytes, z: ZeroHop)
    requires Get(base, "topic") == Str(topic)
    ensures Recorded(DecideRewrite(base, payload, z), topic)
  {
    hide NodeEntry;
    hide Relay;
    var hops := HopAttrs(z.meta);
    assert "topic" !in hops;
    hide HopAttrs;
    ReportRecorded(Noop, PassOn, topic, base, z.meta, map["hop_limit" := Int(0)] + hops);
    if z.modified.Some? && z.oldHop.Some? {
      ReportRecorded(Zerohop, Modify(z.modified.value), topic, base, z.meta,
                     map["hop_limit" := Int(z.oldHop.value)] + hops);
    }
    hide Report;
  }

  /** Every message leaves at most one record, and only when it is counted once; the record carries
      the message's own topic and the outcome that was counted. */
  lemma EntriesTagged(rt: Runtime, cfg: Config.Policy, topic: string, payload: bytes)
    ensures Recorded(Decide(rt, cfg, topic, payload), topic)
  {
    hide Topic.Parse;
    hide ReadPortnum;
    hide PeekMeta;
    hide Rewrite;
    hide NodeEntry;
    hide Relay;
    if Topic.Parse(topic).Some? {
      var (channel, encoding) := Topic.Parse(topic).value;
      var base := BaseAttrs(topic, channel, encoding);
      var meta := PeekMeta(rt, encoding, payload);
      var portnum := ReadPortnum(rt, encoding, payload);
      if Config.ShouldDrop(cfg, channel, portnum) {
        ReportRecorded(Dropped, Drop, topic, base, meta, map["portnum" := Str(portnum.value)]);
      }
      ReportRecorded(Stats.Passthru, PassOn, topic, base, meta, HopAttrs(meta));
      if Rewrite(rt, encoding, payload).Done? {
        RewriteRecorded(topic, base, payload, Rewrite(rt, encoding, payload).value);
      }
    }
    hide Report;
    hide DecideRewrite;
    hide HopAttrs;
    hide BaseAttrs;
    hide Recorded;
  }

  /** A message goes unrecorded exactly when it is skipped, fails late, or its new tree cannot be
      dumped; any other leaves the record of its declared outcome. */
  lemma RecordExact(rt: Runtime, cfg: Config.Policy, topic: string, payload: bytes)
    requires RuntimeOk(rt) && |payload| <= Mesh.MAX_MQTT_PACKET
    ensures var es := Decide(rt, cfg, topic, payload).entries;
            && (es == [] <==> || Topic.Parse(topic).None?
                              || Late(rt, cfg, topic, payload)
                              || (&& Outcome(rt, cfg, topic, payload) == Errors
                                  && HopsLeft(rt, Topic.Parse(topic).value.1, payload)))
            && (es != [] ==> |es| == 1 && es[0].outcome == OutcomeName(Outcome(rt, cfg, topic, payload)))
  {
    EntriesTagged(rt, cfg, topic, payload);
    OneOutcome(rt, cfg, topic, payload);
    Unrecorded(rt, cfg, topic, payload);
    hide RuntimeOk;
    hide Decide;
    hide Outcome;
    hide Late;
    hide Topic.Parse;
    hide OutcomeName;
    hide HopsLeft;
  }

  lemma Unrecorded(rt: Runtime, cfg: Config.Policy, topic: string, payload: bytes)
    requires RuntimeOk(rt) && |payload| <= Mesh.MAX_MQTT_PACKET
    ensures var v := Decide(rt, cfg, topic, payload);
            v.entries == [] <==> || Topic.Parse(topic).None?
                                 || |v.counters| == 2
                                 || (&& Outcome(rt, cfg, topic, payload) == Errors
                                     && HopsLeft(rt, Topic.Parse(topic).value.1, payload))
  {
    hide Mesh.WF;
    hide Topic.Parse;
    hide ReadPortnum;
    hide NodeEntry;
    hide BadNodes;
    hide DumpFails;
    hide HopAttrs;
    hide BaseAttrs;
    hide PeekMeta;
    hide ReadHop;
    if Topic.Parse(topic).Some? {
      var encoding := Topic.Parse(topic).value.1;
      RewriteHop(rt, encoding, payload);
      if Rewrite(rt, encoding, payload).Done? {
        RewriteShape(rt, encoding, payload);
      }
    }
    hide Rewrite;
  }

  lemma OutcomeTagged(c: Counter)
    requires c != Skipped
    ensures OutcomeName(c) in OUTCOME_TAGS
  {
  }

  /** The record prints as one line of printable characters that reads back to the record's own tag
      and fields. */
  ghost predicate Sound(py: Python, e: Entry) {
    var line := MessageLine(py, e.outcome, e.attrs);
    var text := RenderLine(py.printable, line);
    ReadLine(text) == Some(line) && forall c | c in text :: py.printable(c)
  }

  lemma EntrySound(py: Python, e: Entry)
    requires AsciiPrintable(py.printable) && e.outcome in OUTCOME_TAGS
    ensures Sound(py, e)
  {
    hide AsciiPrintable;
    hide MessageLine;
    hide ReadLine;
    hide RenderLine;
    MessageLineReads(py, e.outcome, e.attrs);
    MessageLinePrintable(py, e.outcome, e.attrs);
    hide OUTCOME_TAGS;
  }

  /** Whatever topic and payload a publisher sends, the text line of the record it causes is sound,
      and shows the message's own topic: the publisher can forge neither a line nor a field. */
  lemma NoForgery(rt: Runtime, cfg: Config.Policy, py: Python, topic: string, payload: bytes, e: Entry)
    requires AsciiPrintable(py.printable)
    requires e in Decide(rt, cfg, topic, payload).entries
    ensures Sound(py, e)
    ensures (Ascii("topic"), py.str(Str(topic))) in MessageLine(py, e.outcome, e.attrs).fields
  {
    EntriesTagged(rt, cfg, topic, payload);
    hide Decide;
    OutcomeTagged(Decide(rt, cfg, topic, payload).counters[0]);
    hide OutcomeName;
    hide OUTCOME_TAGS;
    hide MESSAGE_FIELDS;
    hide AsciiPrintable;
    hide Pairs;
    hide Sound;
    EntrySound(py, e);
    TopicShown(py, e.attrs);
  }

  // ---- A whole log ----

  const NEWLINE: CodePoint := 10

  /** The records of a sequence of messages, in order. */
  function Entries(rt: Runtime, cfg: Config.Policy, ms: seq<(string, bytes)>): seq<Entry> {
    if ms == [] then [] else Decide(rt, cfg, ms[0].0, ms[0].1).entries + Entries(rt, cfg, ms[1..])
  }

  /** The line of each record, ended by a newline. */
  function LogFile(py: Python, es: seq<Entry>): Text {
    if es == [] then []
    else RenderLine(py.printable, MessageLine(py, es[0].outcome, es[0].attrs)) + [NEWLINE] + LogFile(py, es[1..])
  }

  /** The lines of a log file; the piece after the last newline must be empty. */
  function ReadPieces(pieces: seq<Text>): Option<seq<Line>>
    requires pieces != []
  {
    if |pieces| == 1 then if pieces[0] == [] then Some([]) else None
    else
      match (ReadLine(pieces[0]), ReadPieces(pieces[1..]))
      case (Some(line), Some(rest)) => Some([line] + rest)
      case _ => None
  }

  function ReadLog(text: Text): Option<seq<Line>> {
    ReadPieces(Split(text, NEWLINE))
  }

  function Lines(py: Python, es: seq<Entry>): seq<Line> {
    if es == [] then [] else [MessageLine(py, es[0].outcome, es[0].attrs)] + Lines(py, es[1..])
  }

  lemma {:induction false} EntriesSound(rt: Runtime, cfg: Config.Policy, py: Python, ms: seq<(string, bytes)>)
    requires AsciiPrintable(py.printable)
    ensures forall e | e in Entries(rt, cfg, ms) :: Sound(py, e)
  {
    if ms != [] {
      EntriesSound(rt, cfg, py, ms[1..]);
      hide Decide;
      hide RenderLine;
      hide ReadLine;
      hide MessageLine;
      forall e | e in Decide(rt, cfg, ms[0].0, ms[0].1).entries
        ensures Sound(py, e)
      {
        NoForgery(rt, cfg, py, ms[0].0, ms[0].1, e);
      }
      hide Sound;
    }
  }

  lemma {:induction false} LogReads(py: Python, es: seq<Entry>)
    requires !py.printable(NEWLINE) && forall e | e in es :: Sound(py, e)
    ensures ReadLog(LogFile(py, es)) == Some(Lines(py, es))
  {
    hide RenderLine;
    hide ReadLine;
    hide MessageLine;
    if es != [] {
      var text := RenderLine(py.printable, MessageLine(py, es[0].outcome, es[0].attrs));
      var rest := LogFile(py, es[1..]);
      assert Sound(py, es[0]);
      assert NEWLINE !in text;
      LogReads(py, es[1..]);
      SplitPart(text, rest, NEWLINE);
      hide Split;
      assert ([text] + Split(rest, NEWLINE))[1..] == Split(rest, NEWLINE);
    }
  }

  /** A log cannot be forged: whatever any number of publishers send, the file splits at its newlines
      into exactly the records floodgate wrote, in order, each with its own tag and fields. */
  lemma NoForgedLog(rt: Runtime, cfg: Config.Policy, py: Python, ms: seq<(string, bytes)>)
    requires AsciiPrintable(py.printable) && !py.printable(NEWLINE)
    ensures ReadLog(LogFile(py, Entries(rt, cfg, ms))) == Some(Lines(py, Entries(rt, cfg, ms)))
  {
    EntriesSound(rt, cfg, py, ms);
    LogReads(py, Entries(rt, cfg, ms));
  }

  lemma TopicShown(py: Python, attrs: Dict)
    requires !Get(attrs, "topic").Null?
    ensures (Ascii("topic"), py.str(attrs["topic"])) in Pairs(py, attrs, MESSAGE_FIELDS)
  {
    assert MESSAGE_FIELDS[0] == "topic";
    forall i | 0 <= i < |MESSAGE_FIELDS| && Ascii(MESSAGE_FIELDS[i]) == Ascii("topic")
      ensures MESSAGE_FIELDS[i] == "topic"
    {
      AsciiInjective(MESSAGE_FIELDS[i], "topic");
    }
    PairsExact(py, attrs, MESSAGE_FIELDS, "topic", py.str(attrs["topic"]));
  }

  lemma AsciiInjective(a: string, b: string)
    requires Ascii(a) == Ascii(b)
    ensures a == b
  {
    forall i | 0 <= i < |a|
      ensures a[i] == b[i]
    {
      assert a[i] as int == Ascii(a)[i] == Ascii(b)[i] == b[i] as int;
    }
  }
}
