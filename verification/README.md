# floodgate, modelled and verified

A Dafny model of floodgate's per-message logic: the protobuf and JSON zero-hop rewrites, the portnum
reader with its AES-CTR layer, the topic grammar, configuration loading, the decision pipeline with
its counters and log records, the reply to EMQX, the shared counters under any interleaving of
workers and reporter, and the text log printer.

Check the whole project with `dafny verify dfyconfig.toml`.

| file | what it models |
|---|---|
| `Bytes.dfy`, `Hex.dfy`, `Splitting.dfy` | fixed-width integers, hexadecimal digits, splitting and joining at a separator |
| `Varint.dfy`, `Wire.dfy` | base-128 varints, tagged records and groups |
| `Utf8.dfy`, `Proto.dfy` | parsing (merging, last one wins, unknown records kept raw) and serialising, for any schema |
| `ProtoLaws.dfy`, `ProtoReads.dfy`, `ProtoSize.dfy` | round trip, merge laws, what each record means, and the size bound of re-serialising |
| `Cipher.dfy` | the Meshtastic nonce and CTR mode over any block function |
| `Mesh.dfy`, `Sample.dfy` | the protobuf rewrite and portnum reader; a schema that meets its assumptions |
| `Json.dfy` | the JSON rewrite and portnum probes on value trees |
| `Topic.dfy`, `Config.dfy`, `NodeId.dfy` | topic grammar, configuration, node ids in logs |
| `Stats.dfy`, `Pipeline.dfy`, `PipelineLaws.dfy` | counters, the processing of one message, and its guarantees |
| `Decisions.dfy`, `RecordLaws.dfy` | the decisions and the log records in terms of what the message itself says |
| `Reporter.dfy`, `System.dfy`, `Broker.dfy` | reporter, all interleavings of the running service, reply to EMQX |
| `LogText.dfy`, `Formatter.dfy`, `LogLaws.dfy` | log printer, a parser that inverts it, and no forgery by publishers |

How to read the model:

- Parameters stand for what the repository takes from outside: the Meshtastic schema (`Mesh.Protos`,
  every field number and the enum names), the block function, `json.loads` and `json.dumps` (with the
  one law that loading dumped data gives the same tree; either may raise), `str`, `str.lower`,
  `str.upper` and `str.isprintable`. `Mesh.WF` says what the code assumes of the schema.
- The protobuf layer follows the Protocol Buffers Encoding specification, sections "Base 128 Varints",
  "Message Structure" and "Last One Wins", with the runtime's limits: ten-byte varints, 32-bit tags and
  lengths of at most five bytes, 2 GiB messages, nesting up to 100. Known fields are written by ascending number, then the unknown
  records byte for byte.
- A *late failure* is an exception raised while the log record of an already counted outcome is built:
  a JSON `from` or `to` that is a float, a list or an object cannot be formatted as a node id. Such a
  message gets a second count under `errors` and passes on unchanged. With it three promises fail, each at
  an input given by a lemma: "one counter per message" and "a counted drop is a drop"
  (`PipelineLaws.CountedDropDelivered`), and "what a zero-hop channel delivers has no hops left"
  (`PipelineLaws.HopsLeftDelivered`). `OneOutcome`, `DropExact` and `ZeroHopGuarantee` say, in terms of the
  message and the configuration alone, exactly when they hold.
- Statements about the size of a protobuf payload assume no more than the largest MQTT packet,
  268,435,455 bytes.

Where the code and its documentation disagree, the model follows the code:

- README.md lines 49 to 61 give each message one outcome; a late failure adds an error
  count to it, and a dropped outcome may then be delivered (`PipelineLaws.CountedDropDelivered`).
- The same table zero-hops where the hop limit is above 0; a negative one in JSON is zeroed too
  (`JsonPacket.NegativeHopZeroed`; `JsonPacket.ZeroHopExact` has the exact condition).
- The module text of tests/test_roundtrip.py speaks of `hop_limit` and `hop_start` changing; the code
  changes `hop_limit` only (`Mesh.OnlyHopLimitChanges`, for every payload).
- The comment of `_resolve_drop_channels` maps a missing value to "all channels"; a key missing from
  the file takes the default instead, which inherits the zero-hop list (`Config.MissingInherits`;
  `Config.PolicyMeans` has the meaning of every configuration).
- README.md line 182 says all value problems are reported together; a bad `zerohop_channels` hides a bad
  `drop_channels` (`Config.DropListHidden`; `Config.ProblemsExact` has the exact condition).

## Model

| member | source | states |
|---|---|---|
| Varint.Write | tests/test_roundtrip.py:242-253 | the hand-written varint loop emits exactly the base-128 form |
| Varint.EncodeDigit | tests/test_roundtrip.py:246-252 | byte i of a varint is base-128 digit i, with the continuation bit on all but the last |
| Varint.ReadEncode | src/floodgate/zerohop.py:260-283 | any 64-bit number reads back from its varint whatever follows, consuming only it |
| Varint.ReadExact | src/floodgate/zerohop.py:260-261 | reading accepts exactly the varints of up to ten bytes, overlong ones too, and keeps the low 64 bits of the number their digits give |
| Wire.TagExact | src/floodgate/zerohop.py:260-261 | a tag is exactly a varint of up to five bytes holding a field number and a wire type |
| Wire.GroupExact | src/floodgate/zerohop.py:260-261 | a group is any whole records, nested groups included, up to the first end tag, which must carry the group's number |
| Wire.DepthExact | src/floodgate/zerohop.py:260-261 | groups nested up to the depth limit are read, deeper ones make the message unreadable |
| Utf8.ValidExact | src/floodgate/zerohop.py:260-261 | well-formed bytes are exactly the UTF-8 encodings of sequences of Unicode scalar values, each of one sequence only |
| Wire.RecordRoundTrip | src/floodgate/zerohop.py:260-283 | any writable tagged record reads back whatever follows it |
| Wire.RecordLocal | tests/test_roundtrip.py:237-277 | a record's bytes, nested groups included, read as the same record wherever they are placed |
| ProtoLaws.ParseValid | src/floodgate/zerohop.py:260-261 | whatever the bytes, a parsed message is one the runtime can hold: values in range, one member per oneof, no stored defaults, unknown records whole |
| ProtoLaws.RoundTrip | src/floodgate/zerohop.py:260-283 | serialising any valid message and parsing it gives the same message: fields, presence, unknown records in order, at every nesting level |
| ProtoLaws.Canonical | tests/test_roundtrip.py:1-32 | re-serialising any bytes that parsed loses nothing |
| ProtoLaws.ParseConcat | src/floodgate/zerohop.py:260-261 | parsing a concatenation merges the second part into the first |
| ProtoLaws.LastOneWins | src/floodgate/zerohop.py:260-261 | the last record of a scalar decides its value and clears its oneof rivals, whatever came before |
| ProtoReads.ScalarReads | src/floodgate/zerohop.py:260-261 | what any one more record, overlong or not, does to a scalar field: low bits, truth, little-endian bytes, or text |
| ProtoReads.TextReads | src/floodgate/zerohop.py:260-261 | a text field is accepted exactly when its bytes encode some text |
| ProtoReads.NestedMerges | src/floodgate/zerohop.py:260-261 | a sub-message in two records is merged, as if its bytes had come in one |
| ProtoReads.PutExact | src/floodgate/portnum.py:69-70 | setting a field clears exactly the other members of its oneof and keeps all else |
| ProtoLaws.SignedReads | src/floodgate/zerohop.py:260-283 | a negative 32-bit number, written as the 64-bit varint writers emit, is stored as that number and written the same way again |
| ProtoSize.Doubling | src/floodgate/zerohop.py:260-283 | any parsed message re-serialises into at most twice its bytes |
| Mesh.ServiceEnvelope.ParseFromString | src/floodgate/zerohop.py:260-261 | fills the message object exactly when the bytes parse |
| Mesh.ServiceEnvelope.ClearPacketHopLimit | src/floodgate/zerohop.py:282-282 | the in-place assignment unsets the packet's hop limit and touches nothing else |
| Mesh.ZeroHopProtobuf | src/floodgate/zerohop.py:250-295 | the triple returned, on every path: unreadable, no packet, already 0, rewritten |
| Mesh.OnlyHopLimitChanges | src/floodgate/zerohop.py:259-295 | the rewritten bytes parse to the same envelope with hop_limit unset; all other fields and all unknown records are kept at both levels |
| Mesh.ZeroHopExact | src/floodgate/zerohop.py:250-295 | for every payload MQTT can carry, bytes are returned exactly when it holds a packet with hops left, and the hop limit reported is the packet's |
| Mesh.ZeroHopFixpoint | src/floodgate/zerohop.py:272-283 | the rewritten payload has hop limit 0 and the same metadata, and a second pass leaves it alone |
| Mesh.HopLimitExact | src/floodgate/zerohop.py:271-273 | the hop limit read is the number in the packet's own field, for every payload |
| Mesh.ReceiversUnaffected | tests/test_roundtrip.py:103-142 | for every key and ciphertext a receiver decrypts the same plaintext from the rewritten packet, using the id and sender in it |
| Mesh.ReceiveExact | src/floodgate/decrypt.py:31-40 | what a receiver decrypts is the packet's ciphertext in counter mode under the id and sender its own fields hold |
| Mesh.PortnumUnchanged | src/floodgate/portnum.py:52-77 | the rewrite leaves the portnum read from an encrypted packet unchanged |
| Mesh.PortnumExact | src/floodgate/portnum.py:52-77 | for every payload a name is read exactly when the packet is encrypted and decrypts bit by bit to a message with that name's number |
| Mesh.PortnumRecovered | src/floodgate/portnum.py:61-77 | encrypt any inner message under the default key, pack, serialise: exactly its portnum's name is read back, and None outside the enum |
| Cipher.NonceLayout | src/floodgate/decrypt.py:17-28 | which byte of the nonce holds which digit of id and sender, and the four zero bytes |
| Cipher.CounterBytes | src/floodgate/decrypt.py:17-40 | each byte of a counter block: little-endian id and sender, then the block number, most significant byte first |
| Cipher.CounterSteps | src/floodgate/decrypt.py:38-40 | counter blocks start at the nonce, and each is the byte-wise increment, carry included, of the one before |
| Cipher.IncrementAddsOne | src/floodgate/decrypt.py:38-40 | the byte-wise increment adds one to the block read as a big-endian number, back to 0 after the last |
| Cipher.DecryptExact | src/floodgate/decrypt.py:31-40 | each bit of the output is the input's, flipped by the bit of the block function at the nonce advanced once for every sixteen bytes; nothing else meets that |
| Cipher.DecryptTwice | src/floodgate/decrypt.py:31-40 | decrypting what was encrypted with the same id, sender and key gives the plaintext, for any block function |
| Cipher.CounterLayout | src/floodgate/decrypt.py:17-28 | for 2^32 blocks the counter stays inside the nonce's four zero bytes |
| Cipher.CountersCollide | src/floodgate/decrypt.py:17-40 | two messages share a counter block exactly when id modulo 2^64, sender modulo 2^32 and block number agree |
| JsonPacket.CollectMeta | src/floodgate/zerohop.py:334-343 | the loop collects exactly the declarative metadata |
| JsonPacket.MetaGet | src/floodgate/zerohop.py:335-343 | each metadata key holds what its own packet key holds, absent when absent |
| JsonPacket.ZeroHopJson | src/floodgate/zerohop.py:298-359 | the triple returned, or the exception, on every path |
| JsonPacket.ZeroHopExact | src/floodgate/zerohop.py:322-355 | which JSON payloads are rewritten, in terms of the three hop keys |
| JsonPacket.HopLimitExact | src/floodgate/zerohop.py:322-352 | the hop limit read is what the three hop keys say, for every payload |
| JsonPacket.NegativeHopZeroed | src/floodgate/zerohop.py:345-359 | a packet with a negative hop limit is rewritten, where the documentation speaks of positive ones only |
| JsonPacket.ZeroHopOnlyHopLimit | src/floodgate/zerohop.py:345-359 | the rewritten tree is the old one with hop_limit 0; its effective hop limit is 0 and a second pass leaves it alone |
| JsonPacket.PortnumUnchanged | src/floodgate/portnum.py:80-114 | the rewrite leaves the portnum read from JSON unchanged |
| JsonPacket.PortnumExact | src/floodgate/portnum.py:80-114 | the wrapper's name wins over the top-level one and that over the firmware type, whatever the others hold |
| Splitting.JoinSplit | src/floodgate/zerohop.py:156-156 | joining the levels of a split topic gives the topic |
| Splitting.SplitJoin | src/floodgate/zerohop.py:156-156 | splitting joined levels gives the levels |
| Topic.ParseComplete | src/floodgate/zerohop.py:147-166 | whatever the prefix depth, a packet topic parses to its own channel and encoding |
| Topic.ParseExact | src/floodgate/zerohop.py:139-166 | a topic parses to (channel, encoding) exactly when it is a packet topic with those parts |
| Config.Loader.CheckInt | src/floodgate/config.py:185-201 | an error is appended exactly when the value is not an integer in range; booleans are not integers |
| Config.Loader.CheckLogging | src/floodgate/config.py:141-158 | level and format are normalised when valid and reported when not; a non-empty environment variable overrides the file |
| Config.Loader.ResolveChannels | src/floodgate/config.py:164-174 | both channel sets are computed, or exactly one error is appended |
| Config.Loader.ResolvePortnums | src/floodgate/config.py:175-182 | the portnum set is computed, with one error for a bad list or one for each unknown name in sorted order |
| Config.Loader.CheckPortnumNames | src/floodgate/config.py:204-221 | the loop appends one error for each unknown name in sorted order, and none without the schema |
| Config.SortedExact | src/floodgate/config.py:218-218 | the sorted names are exactly those of the set, each once, ascending |
| Config.AtMostExact | src/floodgate/config.py:218-218 | the order of names is the order of their first difference, a prefix first |
| Config.NormalisedExact | src/floodgate/config.py:141-158 | which keys validation rewrites and to what: the level upper-cased, the format lower-cased, from the environment unless that is unset or empty |
| Config.Loader.ValidateValues | src/floodgate/config.py:125-182 | all problems in order, the normalised dictionary, and the sets when there are none |
| Config.RejectBadKeys | src/floodgate/config.py:294-318 | keys are refused exactly when one is not in the schema, naming removed and unknown ones |
| Config.LoadConfig | src/floodgate/config.py:78-122 | the policy loaded from the merged dictionary, or the first kind of error |
| Config.ProblemsExact | src/floodgate/config.py:125-221 | a key is reported exactly when its effective value is wrong, except a drop list hidden by a bad zero-hop list; an unknown portnum name exactly when it is listed in a list of strings |
| Config.NoProblems | src/floodgate/config.py:125-221 | nothing is reported exactly when every effective value is right |
| Config.DropListHidden | src/floodgate/config.py:164-174 | two bad lists of which only one is reported |
| Config.MissingInherits | src/floodgate/config.py:251-265 | a mapping without a drop list that drops on the zero-hop list only, where an explicit null drops everywhere |
| Config.LoadExact | src/floodgate/config.py:88-122 | for every file: not a mapping, keys that are no strings, unknown keys, wrong values, or loaded, each exactly when |
| Config.MergeExact | src/floodgate/config.py:88-112 | which files are refused before validation, and that otherwise the values in effect are the user's, and the default where there is none |
| Config.BadKeysNamed | src/floodgate/config.py:294-318 | the refusal names exactly the removed keys and exactly the unknown ones |
| Config.TypoRefused | src/floodgate/config.py:294-318 | `zerohop_channel` for `zerohop_channels` is refused, naming the key |
| Config.PolicyMeans | src/floodgate/config.py:224-275 | for every loaded configuration both policy questions mean what the raw YAML says, null and [] as all channels, an inherited empty list as none |
| NodeId.FmtNode | src/floodgate/zerohop.py:125-131 | formatting raises exactly on a float, list or object |
| NodeId.NodeNameReads | src/floodgate/zerohop.py:125-131 | a 32-bit node id prints as eight hexadecimal digits that read back as the id |
| NodeId.FmtNodeNames | src/floodgate/zerohop.py:125-131 | how every node id that can be shown is shown: `?`, the string itself, or `!` and the number digit by digit, minus sign and padding included |
| NodeId.RelayNames | src/floodgate/zerohop.py:431-444 | a relay shows as the two digits of its low byte, none for 0 |
| Stats.AntifloodStats.Inc | src/floodgate/zerohop.py:90-93 | one counter goes up by one in both views |
| Stats.AntifloodStats.Snapshot | src/floodgate/zerohop.py:99-104 | the lifetime counters and their total |
| Stats.AntifloodStats.Reset | src/floodgate/zerohop.py:106-113 | returns the rolling window and its total, zeroes it, leaves lifetime alone |
| Stats.IncAllCounts | src/floodgate/zerohop.py:90-97 | a sequence of bumps adds to each counter its occurrences, and its length to the total |
| Pipeline.CountAndLog | src/floodgate/zerohop.py:410-426 | the counter is bumped first, so a record that cannot be built leaves it bumped |
| Pipeline.RunRewrite | src/floodgate/zerohop.py:451-454 | the rewrite of the encoding; a payload is returned exactly with a hop limit other than 0 |
| Pipeline.ProcessInner | src/floodgate/zerohop.py:389-512 | reply, counters and record of every branch, and what is left behind when it raises |
| Pipeline.ProcessMessage | src/floodgate/zerohop.py:367-386 | counters and log end exactly as the decision says; an exception adds an error and passes the message on |
| PipelineLaws.OneOutcome | README.md:49-61 | each message is counted under its one declared outcome, plus one error on a late failure; the reply follows |
| PipelineLaws.DropExact | src/floodgate/zerohop.py:402-426 | denied exactly when topic, switch, readable listed portnum and channel agree and its record can be built |
| PipelineLaws.ActionExact | src/floodgate/zerohop.py:367-512 | which inputs are denied, which rewritten, and so which pass on as they are |
| Decisions.DropDecision | src/floodgate/zerohop.py:402-426 | for either encoding, denied exactly when drop is on for the channel, the payload itself names a listed portnum, and its nodes can be shown |
| Decisions.EncryptedDrop | src/floodgate/portnum.py:61-77 | a packet encrypted under the default key is denied exactly by its inner message's own portnum |
| Decisions.JsonDrop | src/floodgate/portnum.py:80-114 | a JSON packet is denied exactly by the name its keys give, its node ids permitting |
| Decisions.ZeroHopDecision | src/floodgate/zerohop.py:428-512 | rewritten exactly when the channel, the packet's own hop limit and the drop filter call for it and nothing raises; what is written says hop limit 0 |
| PipelineLaws.DropIgnoresZerohop | src/floodgate/zerohop.py:402-429 | the zero-hop settings never change whether a message is denied |
| PipelineLaws.CountedDropDelivered | src/floodgate/zerohop.py:409-426 | a message counted as dropped and nevertheless delivered |
| PipelineLaws.RewriteFixpoint | src/floodgate/zerohop.py:451-491 | on either encoding a rewritten payload keeps its portnum and metadata and needs no second rewrite |
| PipelineLaws.Fixpoint | src/floodgate/zerohop.py:389-512 | the pipeline run on its own output passes it, counts one noop, never drops it |
| PipelineLaws.ZeroHopGuarantee | src/floodgate/zerohop.py:345-512 | a message reaches subscribers with hop limit 0 exactly when it is not denied and had hop limit 0, or is on a zero-hop channel with a readable hop limit, formattable node ids and a tree that can be dumped |
| PipelineLaws.HopsLeftDelivered | src/floodgate/zerohop.py:375-512 | a message on a zero-hop channel, counted as zero-hopped, that is delivered with three hops left |
| PipelineLaws.FailsOpen | src/floodgate/zerohop.py:370-386 | whenever an error is counted the message is delivered byte for byte |
| Reporter.Turn | src/floodgate/exhook_server.py:148-168 | one window reset; logged exactly when logging is on and the window is not empty |
| System.TurnIsTwoSteps | src/floodgate/exhook_server.py:148-168 | one turn of the reporter loop is its two steps in the state machine |
| System.StepKeeps | src/floodgate/zerohop.py:90-113 | every atomic step keeps conservation, accounting, the ledger and the growth of what health shows |
| System.LifetimeConserved | src/floodgate/zerohop.py:90-113 | in every interleaving, lifetime is rolling plus everything resets returned, counter by counter |
| System.LifetimeMonotone | src/floodgate/zerohop.py:87-104 | no run lowers a lifetime counter |
| System.ReporterLedger | src/floodgate/exhook_server.py:146-168 | logged totals, a window in hand and the rolling total make up the lifetime total at every point of every run |
| System.Accounting | src/floodgate/zerohop.py:375-512 | with no worker in flight each counter is its number of outcomes, and all six are messages plus late failures |
| Broker.HookProviderServicer.OnMessagePublish | src/floodgate/exhook_server.py:57-78 | the reply built for each decision, with the message's counters and record |
| Broker.ReplyRefines | src/floodgate/exhook_server.py:64-78 | read as EMQX does: denied exactly on a drop or if it came denied, otherwise identical except a rewritten payload |
| Broker.PublishGuarantee | src/floodgate/exhook_server.py:57-78 | publish to subscriber: which messages nobody receives, which arrive with hop limit 0 and otherwise identical, and that all others arrive untouched |
| LogText.EscapeValue | src/floodgate/log_setup.py:46-67 | the character loop computes the escaped form |
| LogText.ValueRoundTrip | src/floodgate/log_setup.py:46-67 | any value reads back from its printed form, which ends where it ends |
| LogText.EscapeInjective | src/floodgate/log_setup.py:46-67 | different values never print alike |
| LogText.EscapeExact | src/floodgate/log_setup.py:43-67 | which values are printed bare: non-empty, all printable, no space, quote, `=` or backslash |
| LogText.EscapeKeeps | src/floodgate/log_setup.py:53-54 | printable characters, of any script, are kept as they are inside quotes |
| LogText.ReprExact | src/floodgate/log_setup.py:66-66 | how each character that is not printable shows, digit by digit |
| LogText.EscapePrintable | src/floodgate/log_setup.py:46-67 | every character printed is printable |
| LogText.LineRoundTrip | src/floodgate/log_setup.py:89-97 | a line parses back to its tag and fields, for all values, exactly when the tag has no space |
| Formatter.StructuredTextFormatter.FormatMessage | src/floodgate/log_setup.py:89-97 | the loops and the join print exactly the tag and the present fields in declared order |
| Formatter.StructuredTextFormatter.FormatStats | src/floodgate/log_setup.py:99-105 | the same for stats fields, unescaped |
| Formatter.StructuredTextFormatter.Format | src/floodgate/log_setup.py:79-87 | only the message and arguments of structured records are replaced |
| Formatter.PairsExact | src/floodgate/log_setup.py:93-96 | the fields of a line are exactly the attributes present and not None |
| Formatter.PairsOrdered | src/floodgate/log_setup.py:93-96 | the fields come in the declared order |
| Formatter.TagExact | src/floodgate/log_setup.py:33-40 | the tag of each of the five outcomes is its name in capitals in brackets |
| Formatter.MessageLineReads | src/floodgate/log_setup.py:89-97 | the line of every message record reads back; the five outcomes' tags allow it |
| Formatter.MessageLinePrintable | src/floodgate/log_setup.py:46-67 | no value of a message record starts a second line |
| Formatter.StatsLineReads | src/floodgate/log_setup.py:99-105 | a stats line reads back when its values need no quoting |
| LogLaws.EntriesTagged | src/floodgate/zerohop.py:389-512 | every message leaves at most one record, under the one outcome it was counted for and with its own topic |
| LogLaws.RecordExact | src/floodgate/zerohop.py:375-512 | no record exactly when skipped, failed late or impossible to dump; otherwise the record of the declared outcome |
| RecordLaws.RecordContent | src/floodgate/zerohop.py:410-510 | which attributes each outcome's record has, and that each holds what the message's own fields or keys say |
| LogLaws.NoForgery | README.md:395-395 | whatever topic and payload arrive, the record's text is one printable line that reads back to exactly its own fields |
| LogLaws.NoForgedLog | src/floodgate/log_setup.py:50-59 | a log of any number of messages splits at its newlines into exactly their records, in order |

## Left out

- gRPC and HTTP servers, argument parsing, YAML reading and file errors, startup log lines, the other hooks: plumbing without policy.
- The AES block function and JSON text: parameters, as described above.
- Repeated, packed and map fields, proto2 groups as known fields: the schema kinds of `Proto.Kind` are the singular ones the code reads and carries.
- The Meshtastic .proto files are fetched at build time and are not part of this model; only the shape `Mesh.WF` is assumed.
- The attribute-name probing of `_extract_proto_meta` and `_read_from_field`: metadata is a projection of the packet.
- Timestamps and levels in front of each log line, plain log lines, the JSON log formatter and the `difflib` suggestions: library behaviour.
- Lone surrogates in JSON strings and topics; the log printer does cover them.
- JSON key order: objects are maps, so where `hop_limit` stands in the output text is not modelled.
- The chance that a wrong key yields a plausible inner message: probabilistic.
- EMQX's behaviour when floodgate does not answer.
- Several instances of the reporter loop running at once: there is one reporter thread.
