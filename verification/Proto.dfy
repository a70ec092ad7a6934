/** Schema-driven parsing and serialisation of protobuf messages, for any schema. */
module Proto {
  import opened Bytes
  import opened Wire
  import Varint
  import Utf8

  /** Enums are `Int32` (proto3 enums are open); floats are the bits of `Fixed32` or `Fixed64`. */
  datatype Kind =
    | UInt32 | Int32 | UInt64 | Bool | Fixed32 | Fixed64 | Octets | Text
    | Nested(schema: Schema)

  /** `Implicit` fields are absent exactly when they hold their default. */
  datatype Presence = Implicit | Explicit | Member(oneof: nat)

  datatype Field = Field(num: nat, kind: Kind, presence: Presence)

  /** Fields by ascending number. */
  datatype Schema = Schema(fields: seq<Field>)

  datatype Value = Num(n: nat) | Raw(b: bytes) | Sub(m: Message)

  /** Fields that are set, and the raw bytes of every record the schema does not describe, in order. */
  datatype Message = Message(fields: map<nat, Value>, unknown: seq<bytes>)

  const EMPTY := Message(map[], [])

  ghost predicate WellFormed(s: Schema, depth: nat)
    decreases depth, s
  {
    && (forall i | 0 <= i < |s.fields| :: 1 <= s.fields[i].num <= MAX_FIELD)
    && (forall i, j | 0 <= i < j < |s.fields| :: s.fields[i].num < s.fields[j].num)
    && (forall i | 0 <= i < |s.fields| && s.fields[i].kind.Nested? ::
          !s.fields[i].presence.Implicit? && depth > 0 && WellFormed(s.fields[i].kind.schema, depth - 1))
  }

  function Find(fs: seq<Field>, num: nat): (r: Option<Field>)
    ensures r.Some? ==> r.value in fs && r.value.num == num
    ensures r.None? ==> forall f | f in fs :: f.num != num
  {
    if fs == [] then None
    else if fs[0].num == num then Some(fs[0])
    else Find(fs[1..], num)
  }

  function KindWireType(k: Kind): nat {
    match k
    case UInt32 | Int32 | UInt64 | Bool => 0
    case Fixed64 => 1
    case Octets | Text | Nested(_) => 2
    case Fixed32 => 5
  }

  /** A record the schema describes: its number is declared and its wire type is the declared one. */
  predicate Known(s: Schema, r: Record) {
    Find(s.fields, r.num).Some? && KindWireType(Find(s.fields, r.num).value.kind) == WireType(r.payload)
  }

  // ---- Scalars ----

  function DecodeScalar(k: Kind, p: Payload): (r: Option<Value>)
    requires !k.Nested? && KindWireType(k) == WireType(p)
  {
    match k
    case UInt32 | Int32 => Some(Num(p.v % TWO_32))
    case UInt64 => Some(Num(p.v % TWO_64))
    case Bool => Some(Num(if p.v == 0 then 0 else 1))
    case Fixed32 | Fixed64 => Some(Num(LeNat(p.b)))
    case Octets => Some(Raw(p.b))
    case Text => if Utf8.Valid(p.b) then Some(Raw(p.b)) else None
  }

  /** A negative `Int32` is sign-extended to 64 bits. */
  function EncodeScalar(k: Kind, v: Value): (p: Payload)
    requires ValidScalar(k, v)
    ensures WireType(p) == KindWireType(k)
  {
    match k
    case UInt32 | UInt64 | Bool => Var(v.n)
    case Int32 => Var(if v.n < 0x8000_0000 then v.n else v.n + TWO_64 - TWO_32)
    case Fixed32 => Fix32(LeBytes(v.n, 4))
    case Fixed64 => Fix64(LeBytes(v.n, 8))
    case Octets | Text => Len(v.b)
  }

  predicate ValidScalar(k: Kind, v: Value) {
    match k
    case UInt32 | Int32 => v.Num? && v.n < TWO_32
    case UInt64 => v.Num? && v.n < TWO_64
    case Bool => v.Num? && v.n < 2
    case Fixed32 => v.Num? && v.n < Pow256(4)
    case Fixed64 => v.Num? && v.n < Pow256(8)
    case Octets => v.Raw?
    case Text => v.Raw? && Utf8.Valid(v.b)
    case Nested(_) => false
  }

  lemma ScalarRoundTrip(k: Kind, v: Value)
    requires ValidScalar(k, v)
    ensures DecodeScalar(k, EncodeScalar(k, v)) == Some(v)
    ensures var p := EncodeScalar(k, v);
            (p.Var? ==> p.v < TWO_64) && (p.Fix32? ==> |p.b| == 4) && (p.Fix64? ==> |p.b| == 8)
  {
    match k
    case Fixed32 => LeNatOfBytes(v.n, 4);
    case Fixed64 => LeNatOfBytes(v.n, 8);
    case _ =>
  }

  function IsDefault(v: Value): bool {
    v == Num(0) || v == Raw([])
  }

  // ---- Parsing ----

  predicate Rivals(s: Schema, k: nat, f: Field) {
    && k != f.num && f.presence.Member?
    && Find(s.fields, k).Some? && Find(s.fields, k).value.presence == f.presence
  }

  /** Sets one field: other members of its oneof are cleared, and an implicit default is not stored. */
  function Put(s: Schema, m: Message, f: Field, v: Value): Message {
    var kept := map k | k in m.fields && k != f.num && !Rivals(s, k, f) :: m.fields[k];
    m.(fields := if f.presence.Implicit? && IsDefault(v) then kept else kept[f.num := v])
  }

  /** The sub-message a nested record is merged into. */
  function Base(m: Message, num: nat): Message {
    if num in m.fields && m.fields[num].Sub? then m.fields[num].m else EMPTY
  }

  /** Adds one record, `raw` being its bytes, to `m`. */
  function Absorb(s: Schema, m: Message, r: Record, raw: bytes, depth: nat): (res: Option<Message>)
    requires r.payload.Len? ==> |r.payload.b| < |raw|
    decreases |raw|, 0
  {
    if !Known(s, r) then
      Some(m.(unknown := m.unknown + [raw]))
    else
      var f := Find(s.fields, r.num).value;
      if f.kind.Nested? then
        if depth == 0 then None else
        match ParseInto(f.kind.schema, r.payload.b, Base(m, r.num), depth - 1)
        case None => None
        case Some(sub) => Some(Put(s, m, f, Sub(sub)))
      else
        match DecodeScalar(f.kind, r.payload)
        case None => None
        case Some(v) => Some(Put(s, m, f, v))
  }

  /** Merges the records of `b` into `m` one after the other, so the last value of a scalar wins. */
  function ParseInto(s: Schema, b: bytes, m: Message, depth: nat): (res: Option<Message>)
    decreases |b|, 1
  {
    if b == [] then Some(m) else
    match ReadRecord(b, depth)
    case None => None
    case Some((r, n)) =>
      match Absorb(s, m, r, b[..n], depth)
      case None => None
      case Some(m') => ParseInto(s, b[n..], m', depth)
  }

  /** `ParseFromString` on a fresh message. */
  function Parse(s: Schema, b: bytes): Option<Message> {
    ParseInto(s, b, EMPTY, MAX_DEPTH)
  }

  // ---- Serialising ----

  /** Known fields by ascending number, then the unknown records as they came. */
  function Write(s: Schema, m: Message): bytes {
    WriteFields(s.fields, m) + Concat(m.unknown)
  }

  function WriteFields(fs: seq<Field>, m: Message): bytes {
    if fs == [] then [] else WriteField(fs[0], m) + WriteFields(fs[1..], m)
  }

  function WriteField(f: Field, m: Message): bytes {
    if f.num in m.fields then WriteRecord(Record(f.num, Encode(f.kind, m.fields[f.num]))) else []
  }

  function Encode(k: Kind, v: Value): Payload {
    if k.Nested? then Len(if v.Sub? then Write(k.schema, v.m) else [])
    else if ValidScalar(k, v) then EncodeScalar(k, v)
    else Len([])
  }

  /** `SerializeToString`: the runtime refuses to emit more than `MAX_LENGTH` bytes. */
  function Serialize(s: Schema, m: Message): Option<bytes> {
    var b := Write(s, m);
    if |b| <= MAX_LENGTH then Some(b) else None
  }
}
