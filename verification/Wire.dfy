/** Tagged records: Protocol Buffers Encoding, section "Message Structure". */
module Wire {
  import opened Bytes
  import Varint

  /** Nested messages and groups deeper than this are refused by the protobuf runtime. */
  const MAX_DEPTH: nat := 100

  /** A length, like a whole serialised message, fits a signed 32-bit integer. */
  const MAX_LENGTH: nat := 0x7FFF_FFFF

  const MAX_FIELD: nat := 0x1FFF_FFFF

  datatype Payload = Var(v: nat) | Fix64(b: bytes) | Len(b: bytes) | Group | Fix32(b: bytes)

  datatype Record = Record(num: nat, payload: Payload)

  /** Field number, wire type, and bytes consumed. Tags are 32-bit and field number 0 is illegal. */
  function ReadTag(b: bytes): (r: Option<(nat, nat, nat)>)
    ensures r.Some? ==> 1 <= r.value.2 <= |b| && 1 <= r.value.0 <= MAX_FIELD && r.value.1 < 8
  {
    match Varint.ReadShort(b)
    case None => None
    case Some((v, n)) => if 8 <= v < TWO_32 then Some((v / 8, v % 8, n)) else None
  }

  /** What follows a tag: the payload and how many bytes it took. */
  function ReadBody(b: bytes, num: nat, wireType: nat, depth: nat): (r: Option<(Payload, nat)>)
    ensures r.Some? ==> r.value.1 <= |b|
    ensures r.Some? && r.value.0.Len? ==> |r.value.0.b| < r.value.1 && |r.value.0.b| <= MAX_LENGTH
    decreases |b|, 2
  {
    if wireType == 0 then
      match Varint.Read(b)
      case None => None
      case Some((v, n)) => Some((Var(v), n))
    else if wireType == 1 then
      if |b| >= 8 then Some((Fix64(b[..8]), 8)) else None
    else if wireType == 2 then
      match Varint.ReadShort(b)
      case None => None
      case Some((v, n)) =>
        if v <= MAX_LENGTH && n + v <= |b| then Some((Len(b[n..n + v]), n + v)) else None
    else if wireType == 3 then
      if depth == 0 then None else
      match SkipGroup(b, num, depth - 1)
      case None => None
      case Some(n) => Some((Group, n))
    else if wireType == 5 then
      if |b| >= 4 then Some((Fix32(b[..4]), 4)) else None
    else
      None
  }

  /** Size of a group's records up to and including the end tag that matches `num`. */
  function SkipGroup(b: bytes, num: nat, depth: nat): (r: Option<nat>)
    ensures r.Some? ==> 1 <= r.value <= |b|
    decreases |b|, 1
  {
    match ReadTag(b)
    case None => None
    case Some((k, wireType, n)) =>
      if wireType == 4 then
        if k == num then Some(n) else None
      else
        match ReadRecord(b, depth)
        case None => None
        case Some((_, size)) =>
          match SkipGroup(b[size..], num, depth)
          case None => None
          case Some(rest) => Some(size + rest)
  }

  /** One whole record and its size. A stray end-group tag is an error. */
  function ReadRecord(b: bytes, depth: nat): (r: Option<(Record, nat)>)
    ensures r.Some? ==> 1 <= r.value.1 <= |b| && 1 <= r.value.0.num <= MAX_FIELD
    ensures r.Some? && r.value.0.payload.Len? ==>
              |r.value.0.payload.b| < r.value.1 && |r.value.0.payload.b| <= MAX_LENGTH
    decreases |b|, 0
  {
    match ReadTag(b)
    case None => None
    case Some((num, wireType, n)) =>
      match ReadBody(b[n..], num, wireType, depth)
      case None => None
      case Some((payload, m)) => Some((Record(num, payload), n + m))
  }

  // ---- Reading is local: it depends on nothing beyond the bytes it consumes ----

  lemma TagLocal(b: bytes, c: bytes)
    requires ReadTag(b).Some? && Agree(b, c, ReadTag(b).value.2)
    ensures ReadTag(c) == ReadTag(b)
  {
    Varint.ScanLocal(b, c, Varint.MAX_SHORT_BYTES);
  }

  lemma LenLocal(b: bytes, c: bytes, num: nat, depth: nat)
    requires var r := ReadBody(b, num, 2, depth); r.Some? && Agree(b, c, r.value.1)
    ensures ReadBody(c, num, 2, depth) == ReadBody(b, num, 2, depth)
  {
    hide SkipGroup;
    hide Varint.Scan;
    var (v, k) := Varint.ReadShort(b).value;
    AgreeSplit(b, c, k, v);
    Varint.ScanLocal(b, c, Varint.MAX_SHORT_BYTES);
    assert b[k..k + v] == c[k..k + v];
  }

  lemma {:induction false} BodyLocal(b: bytes, c: bytes, num: nat, wireType: nat, depth: nat)
    requires var r := ReadBody(b, num, wireType, depth); r.Some? && Agree(b, c, r.value.1)
    ensures ReadBody(c, num, wireType, depth) == ReadBody(b, num, wireType, depth)
    decreases |b|, 2
  {
    if wireType == 0 {
      Varint.ReadLocal(b, c);
    } else if wireType == 1 {
      assert b[..8] == c[..8];
    } else if wireType == 2 {
      LenLocal(b, c, num, depth);
    } else if wireType == 3 {
      GroupLocal(b, c, num, depth - 1);
    } else {
      assert b[..4] == c[..4];
    }
  }

  lemma GroupParts(b: bytes, num: nat, depth: nat) returns (size: nat, rest: nat)
    requires SkipGroup(b, num, depth).Some? && ReadTag(b).value.1 != 4
    ensures ReadRecord(b, depth).Some? && ReadRecord(b, depth).value.1 == size
    ensures ReadTag(b).Some? && ReadTag(b).value.2 <= size
    ensures SkipGroup(b[size..], num, depth) == Some(rest)
    ensures SkipGroup(b, num, depth) == Some(size + rest)
  {
    hide ReadBody;
    hide ReadTag;
    size := ReadRecord(b, depth).value.1;
    rest := SkipGroup(b[size..], num, depth).value;
  }

  lemma GroupAssemble(b: bytes, num: nat, depth: nat, size: nat, rest: nat)
    requires ReadTag(b).Some? && ReadTag(b).value.1 != 4
    requires ReadRecord(b, depth).Some? && ReadRecord(b, depth).value.1 == size
    requires SkipGroup(b[size..], num, depth) == Some(rest)
    ensures SkipGroup(b, num, depth) == Some(size + rest)
  {
    hide ReadRecord;
    hide ReadBody;
    hide ReadTag;
  }

  lemma GroupEndLocal(b: bytes, c: bytes, num: nat, depth: nat)
    requires var r := SkipGroup(b, num, depth); r.Some? && Agree(b, c, r.value)
    requires ReadTag(b).value.1 == 4
    ensures SkipGroup(c, num, depth) == SkipGroup(b, num, depth)
  {
    hide ReadRecord;
    TagLocal(b, c);
  }

  lemma {:induction false} GroupLocal(b: bytes, c: bytes, num: nat, depth: nat)
    requires var r := SkipGroup(b, num, depth); r.Some? && Agree(b, c, r.value)
    ensures SkipGroup(c, num, depth) == SkipGroup(b, num, depth)
    decreases |b|, 1
  {
    if ReadTag(b).Some? && ReadTag(b).value.1 == 4 {
      GroupEndLocal(b, c, num, depth);
    } else {
      hide SkipGroup;
      hide ReadRecord;
      hide ReadTag;
      var size, rest := GroupParts(b, num, depth);
      AgreeSplit(b, c, size, rest);
      AgreeSplit(b, c, ReadTag(b).value.2, 0);
      TagLocal(b, c);
      RecordLocal(b, c, depth);
      GroupLocal(b[size..], c[size..], num, depth);
      GroupAssemble(c, num, depth, size, rest);
    }
  }

  /** A record's raw bytes are the same record wherever they are placed. */
  lemma {:induction false} RecordLocal(b: bytes, c: bytes, depth: nat)
    requires var r := ReadRecord(b, depth); r.Some? && Agree(b, c, r.value.1)
    ensures ReadRecord(c, depth) == ReadRecord(b, depth)
    decreases |b|, 0
  {
    hide ReadBody;
    var (num, wireType, n) := ReadTag(b).value;
    AgreeSplit(b, c, n, ReadRecord(b, depth).value.1 - n);
    TagLocal(b, c);
    BodyLocal(b[n..], c[n..], num, wireType, depth);
  }

  // ---- What is read ----

  /** A tag is any varint of up to five bytes whose number is a field number and a wire type. */
  lemma TagExact(b: bytes, num: nat, wireType: nat, n: nat)
    ensures ReadTag(b) == Some((num, wireType, n))
       <==> && n <= Varint.MAX_SHORT_BYTES && wireType < 8 && 1 <= num <= MAX_FIELD
            && Varint.IsVarint(b, n, 8 * num + wireType)
  {
    Varint.ScanExact(b, Varint.MAX_SHORT_BYTES, 8 * num + wireType, n);
    hide Varint.Scan;
    hide Varint.IsVarint;
  }

  /** Bytes that are one whole record. */
  ghost predicate Whole(raw: bytes, depth: nat) {
    ReadRecord(raw, depth).Some? && ReadRecord(raw, depth).value.1 == |raw|
  }

  function Concat(bs: seq<bytes>): bytes {
    if bs == [] then [] else bs[0] + Concat(bs[1..])
  }

  lemma WholeFront(raw: bytes, t: bytes, depth: nat)
    requires Whole(raw, depth)
    ensures ReadRecord(raw + t, depth) == ReadRecord(raw, depth)
    ensures ReadTag(raw + t).Some? && ReadTag(raw + t).value.1 != 4
  {
    RecordLocal(raw, raw + t, depth);
    hide SkipGroup;
    hide Varint.Read;
    hide Varint.ReadShort;
  }

  /** A group is any whole records up to the first end tag, which must carry the group's own number. */
  lemma {:induction false} GroupExact(raws: seq<bytes>, end: nat, num: nat, t: bytes, depth: nat)
    requires forall raw | raw in raws :: Whole(raw, depth)
    requires 1 <= end <= MAX_FIELD
    ensures SkipGroup(Concat(raws) + WriteTag(end, 4) + t, num, depth)
         == if end == num then Some(|Concat(raws) + WriteTag(end, 4)|) else None
  {
    hide ReadRecord;
    hide ReadTag;
    hide WriteTag;
    var last := WriteTag(end, 4);
    if raws == [] {
      TagRoundTrip(end, 4, t);
      assert Concat(raws) + last + t == last + t;
    } else {
      var raw, rest := raws[0], Concat(raws[1..]) + last + t;
      assert forall r | r in raws[1..] :: r in raws;
      WholeFront(raw, rest, depth);
      GroupExact(raws[1..], end, num, t, depth);
      assert Concat(raws) + last + t == raw + rest && (raw + rest)[|raw|..] == rest;
      hide Concat;
      GroupStep(raw + rest, |raw|, num, depth);
    }
  }

  lemma GroupStep(b: bytes, size: nat, num: nat, depth: nat)
    requires ReadTag(b).Some? && ReadTag(b).value.1 != 4
    requires ReadRecord(b, depth).Some? && ReadRecord(b, depth).value.1 == size
    ensures SkipGroup(b, num, depth) ==
            match SkipGroup(b[size..], num, depth) case None => None case Some(n) => Some(size + n)
  {
    hide ReadRecord;
    hide ReadTag;
  }

  /** `k` empty groups, one inside the other. */
  function NestedGroups(num: nat, k: nat): bytes {
    if k == 0 then [] else WriteTag(num, 3) + NestedGroups(num, k - 1) + WriteTag(num, 4)
  }

  lemma GroupBody(num: nat, inner: bytes, t: bytes, depth: nat)
    requires 1 <= num <= MAX_FIELD
    ensures var b := WriteTag(num, 3) + inner + WriteTag(num, 4) + t;
            ReadRecord(b, depth) ==
              if depth == 0 then None
              else match SkipGroup(inner + WriteTag(num, 4) + t, num, depth - 1)
                   case None => None
                   case Some(n) => Some((Record(num, Group), |WriteTag(num, 3)| + n))
  {
    hide ReadTag;
    hide SkipGroup;
    hide WriteTag;
    var rest := inner + WriteTag(num, 4) + t;
    TagRoundTrip(num, 3, rest);
    assert WriteTag(num, 3) + inner + WriteTag(num, 4) + t == WriteTag(num, 3) + rest;
    assert (WriteTag(num, 3) + rest)[|WriteTag(num, 3)|..] == rest;
  }

  lemma TooDeep(b: bytes, num: nat, depth: nat)
    requires ReadRecord(b, depth).None? && ReadTag(b).Some? && ReadTag(b).value.1 == 3
    ensures SkipGroup(b, num, depth).None?
  {
    hide ReadRecord;
    hide ReadTag;
  }

  /** Groups are read to the depth limit and no deeper. */
  lemma {:induction false} DepthExact(num: nat, k: nat, t: bytes, depth: nat)
    requires 1 <= num <= MAX_FIELD && k > 0
    ensures ReadRecord(NestedGroups(num, k) + t, depth)
         == if k <= depth then Some((Record(num, Group), |NestedGroups(num, k)|)) else None
  {
    hide ReadRecord;
    hide ReadTag;
    hide SkipGroup;
    hide WriteTag;
    var inner := NestedGroups(num, k - 1);
    assert NestedGroups(num, k) + t == WriteTag(num, 3) + inner + WriteTag(num, 4) + t;
    GroupBody(num, inner, t, depth);
    if depth > 0 {
      if k == 1 {
        GroupExact([], num, num, t, depth - 1);
        assert Concat([]) + WriteTag(num, 4) + t == inner + WriteTag(num, 4) + t;
      } else if k <= depth {
        DepthExact(num, k - 1, [], depth - 1);
        assert inner + [] == inner;
        GroupExact([inner], num, num, t, depth - 1);
        assert Concat([inner][1..]) == [] && Concat([inner]) == inner;
      } else {
        DepthExact(num, k - 1, WriteTag(num, 4) + t, depth - 1);
        NestedStarts(num, k - 1, WriteTag(num, 4) + t);
        assert inner + (WriteTag(num, 4) + t) == inner + WriteTag(num, 4) + t;
        TooDeep(inner + WriteTag(num, 4) + t, num, depth - 1);
      }
    }
  }

  lemma NestedStarts(num: nat, k: nat, t: bytes)
    requires 1 <= num <= MAX_FIELD && k > 0
    ensures ReadTag(NestedGroups(num, k) + t).Some? && ReadTag(NestedGroups(num, k) + t).value.1 == 3
  {
    hide ReadTag;
    hide WriteTag;
    var rest := NestedGroups(num, k - 1) + WriteTag(num, 4) + t;
    TagRoundTrip(num, 3, rest);
    assert NestedGroups(num, k) + t == WriteTag(num, 3) + rest;
  }

  // ---- Writing ----

  function WriteTag(num: nat, wireType: nat): (b: bytes) {
    Varint.Encode(8 * num + wireType)
  }

  function WireType(p: Payload): (w: nat)
    ensures w < 6
  {
    match p
    case Var(_) => 0
    case Fix64(_) => 1
    case Len(_) => 2
    case Group => 3
    case Fix32(_) => 5
  }

  function WriteBody(p: Payload): bytes {
    match p
    case Var(v) => Varint.Encode(v)
    case Fix64(b) => b
    case Len(b) => Varint.Encode(|b|) + b
    case Group => []
    case Fix32(b) => b
  }

  function WriteRecord(r: Record): bytes {
    WriteTag(r.num, WireType(r.payload)) + WriteBody(r.payload)
  }

  /** Groups are read but never written. */
  predicate Writable(r: Record) {
    && 1 <= r.num <= MAX_FIELD
    && match r.payload
       case Var(v) => v < TWO_64
       case Fix64(b) => |b| == 8
       case Len(b) => |b| <= MAX_LENGTH
       case Group => false
       case Fix32(b) => |b| == 4
  }

  lemma TagRoundTrip(num: nat, wireType: nat, t: bytes)
    requires 1 <= num <= MAX_FIELD && wireType < 8
    ensures ReadTag(WriteTag(num, wireType) + t) == Some((num, wireType, |WriteTag(num, wireType)|))
  {
    Varint.ReadShortEncode(8 * num + wireType, t);
  }

  lemma BodyRoundTrip(p: Payload, num: nat, t: bytes, depth: nat)
    requires Writable(Record(1, p))
    ensures ReadBody(WriteBody(p) + t, num, WireType(p), depth) == Some((p, |WriteBody(p)|))
  {
    hide Varint.Encode;
    hide Varint.Read;
    hide Varint.ReadShort;
    hide SkipGroup;
    var all := WriteBody(p) + t;
    match p
    case Var(v) => Varint.ReadEncode(v, t);
    case Len(b) =>
      var size := Varint.Encode(|b|);
      assert all == size + (b + t);
      Varint.ReadShortEncode(|b|, b + t);
      assert all[|size|..|size| + |b|] == b;
    case Fix64(b) => assert all[..8] == b;
    case Fix32(b) => assert all[..4] == b;
  }

  lemma RecordAssemble(b: bytes, num: nat, wireType: nat, n: nat, p: Payload, m: nat, depth: nat)
    requires ReadTag(b) == Some((num, wireType, n))
    requires ReadBody(b[n..], num, wireType, depth) == Some((p, m))
    ensures ReadRecord(b, depth) == Some((Record(num, p), n + m))
  {
    hide ReadBody;
  }

  /** A written record reads back whatever follows it. */
  lemma RecordRoundTrip(r: Record, t: bytes, depth: nat)
    requires Writable(r)
    ensures ReadRecord(WriteRecord(r) + t, depth) == Some((r, |WriteRecord(r)|))
  {
    hide ReadRecord;
    hide ReadBody;
    hide ReadTag;
    var wireType := WireType(r.payload);
    var tag := WriteTag(r.num, wireType);
    var body := WriteBody(r.payload);
    var all := WriteRecord(r) + t;
    assert all == tag + (body + t) && all[|tag|..] == body + t;
    TagRoundTrip(r.num, wireType, body + t);
    BodyRoundTrip(r.payload, r.num, t, depth);
    RecordAssemble(all, r.num, wireType, |tag|, r.payload, |body|, depth);
  }
}
