/** The topic grammar `msh/{prefix...}/{encoding}/{channel}/!{node}`, anchored from the right. */
module Topic {
  import opened Bytes
  import opened Splitting

  const SEP: char := '/'

  predicate Level(s: string) {
    SEP !in s
  }

  /** `(channel, encoding)` of a packet topic, or None. */
  function Parse(topic: string): (r: Option<(string, string)>) {
    var parts := Split(topic, SEP);
    var n := |parts|;
    if n < 5 || parts[0] != "msh" then None
    else if !("!" <= parts[n - 1]) then None
    else if parts[n - 3] !in ["e", "json"] then None
    else Some((parts[n - 2], parts[n - 3]))
  }

  function Levels(prefix: seq<string>, encoding: string, channel: string, node: string): seq<string> {
    ["msh"] + prefix + [encoding, channel, node]
  }

  /** `msh`, one or more levels of prefix whatever their number, the encoding, the channel, a `!` level. */
  ghost predicate PacketTopic(
    topic: string, prefix: seq<string>, encoding: string, channel: string, node: string)
  {
    && |prefix| >= 1
    && (forall p | p in Levels(prefix, encoding, channel, node) :: Level(p))
    && encoding in ["e", "json"]
    && "!" <= node
    && topic == Join(Levels(prefix, encoding, channel, node), SEP)
  }

  /** Whatever the prefix depth, a packet topic parses to its own channel and encoding. */
  lemma ParseComplete(topic: string, prefix: seq<string>, encoding: string, channel: string, node: string)
    requires PacketTopic(topic, prefix, encoding, channel, node)
    ensures Parse(topic) == Some((channel, encoding))
  {
    SplitJoin(Levels(prefix, encoding, channel, node), SEP);
  }

  /** Soundness and completeness: exactly the packet topics parse, and to their own parts. */
  lemma ParseExact(topic: string, channel: string, encoding: string)
    ensures Parse(topic) == Some((channel, encoding))
       <==> exists prefix: seq<string>, node: string :: PacketTopic(topic, prefix, encoding, channel, node)
  {
    if Parse(topic) == Some((channel, encoding)) {
      var parts := Split(topic, SEP);
      var n := |parts|;
      JoinSplit(topic, SEP);
      SplitFree(topic, SEP);
      assert parts == Levels(parts[1..n - 3], encoding, channel, parts[n - 1]);
      assert PacketTopic(topic, parts[1..n - 3], encoding, channel, parts[n - 1]);
    }
    forall prefix: seq<string>, node: string | PacketTopic(topic, prefix, encoding, channel, node)
      ensures Parse(topic) == Some((channel, encoding))
    {
      ParseComplete(topic, prefix, encoding, channel, node);
    }
  }
}
