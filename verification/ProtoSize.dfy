/** Re-serialising at most doubles: a negative 32-bit number may have come in five bytes and leaves in ten. */
module ProtoSize {
  import opened Bytes
  import opened Wire
  import Varint
  import opened Proto
  import opened ProtoLaws

  // ---- Varints ----

  lemma {:induction false} EncodeMonotone(a: nat, b: nat)
    requires a <= b
    ensures |Varint.Encode(a)| <= |Varint.Encode(b)|
    decreases b
  {
    if a >= 128 {
      EncodeMonotone(a / 128, b / 128);
    }
  }

  /** Seven more bits take one more byte. */
  lemma EncodeGrows(a: nat, b: nat)
    requires a <= 128 * b + 127
    ensures |Varint.Encode(a)| <= |Varint.Encode(b)| + 1
  {
    if a >= 128 {
      EncodeMonotone(a / 128, b);
    }
  }

  /** No reading of a number is shorter than writing it. */
  lemma {:induction false} ScanMinimal(b: bytes, limit: nat)
    requires Varint.Scan(b, limit).Some?
    ensures |Varint.Encode(Varint.Scan(b, limit).value.0)| <= Varint.Scan(b, limit).value.1
    decreases limit
  {
    if b[0] >= 128 {
      ScanMinimal(b[1..], limit - 1);
      var v := Varint.Scan(b[1..], limit - 1).value.0;
      EncodeGrows(b[0] - 128 + 128 * v, v);
    }
  }

  lemma ReadMinimal(b: bytes)
    requires Varint.Read(b).Some?
    ensures |Varint.Encode(Varint.Read(b).value.0)| <= Varint.Read(b).value.1
  {
    ScanMinimal(b, Varint.MAX_VARINT_BYTES);
    var v := Varint.Scan(b, Varint.MAX_VARINT_BYTES).value.0;
    EncodeMonotone(v % TWO_64, v);
  }

  lemma ShortMinimal(b: bytes)
    requires Varint.ReadShort(b).Some?
    ensures |Varint.Encode(Varint.ReadShort(b).value.0)| <= Varint.ReadShort(b).value.1
  {
    ScanMinimal(b, Varint.MAX_SHORT_BYTES);
  }

  lemma WideVarint(v: nat)
    requires 0x8000_0000 <= v
    ensures |Varint.Encode(v)| >= 5
  {
    EncodeMonotone(0x8000_0000, v);
    assert |Varint.Encode(8)| == 1;
    assert |Varint.Encode(8 * 128)| == 2;
    assert |Varint.Encode(8 * 128 * 128)| == 3;
    assert |Varint.Encode(8 * 128 * 128 * 128)| == 4;
    assert 0x8000_0000 == 128 * (8 * 128 * 128 * 128);
  }

  lemma Int32Doubles(v: nat)
    requires v < TWO_64
    ensures var low := v % TWO_32;
            var wide := if low < 0x8000_0000 then low else low + TWO_64 - TWO_32;
            |Varint.Encode(wide)| <= 2 * |Varint.Encode(v)|
  {
    hide Varint.Encode;
    var low := v % TWO_32;
    if low < 0x8000_0000 {
      EncodeMonotone(low, v);
    } else {
      WideVarint(v);
      Varint.Pow128Values();
      hide Varint.Pow128;
      Varint.EncodeFits(low + TWO_64 - TWO_32, 10);
    }
  }

  // ---- Records ----

  function BodySize(p: Payload): nat {
    |WriteBody(p)|
  }

  /** How many bytes a payload took when it was read. */
  lemma BodyMinimal(b: bytes, num: nat, wireType: nat, depth: nat)
    requires ReadBody(b, num, wireType, depth).Some?
    ensures var (p, n) := ReadBody(b, num, wireType, depth).value;
            BodySize(p) <= n && (p.Var? ==> p.v < TWO_64)
  {
    hide Varint.Encode;
    hide Varint.Read;
    hide Varint.ReadShort;
    hide SkipGroup;
    if wireType == 0 {
      ReadMinimal(b);
    } else if wireType == 2 {
      ShortMinimal(b);
    }
  }

  lemma RecordMinimal(b: bytes, depth: nat)
    requires ReadRecord(b, depth).Some?
    ensures var (r, n) := ReadRecord(b, depth).value;
            |WriteTag(r.num, WireType(r.payload))| + BodySize(r.payload) <= n
            && (r.payload.Var? ==> r.payload.v < TWO_64)
  {
    hide ReadBody;
    hide Varint.Encode;
    hide Varint.Read;
    hide BodySize;
    var (num, wireType, n) := ReadTag(b).value;
    ShortMinimal(b);
    BodyMinimal(b[n..], num, wireType, depth);
    WireTypeKept(b[n..], num, wireType, depth);
  }

  lemma WireTypeKept(b: bytes, num: nat, wireType: nat, depth: nat)
    requires ReadBody(b, num, wireType, depth).Some?
    ensures WireType(ReadBody(b, num, wireType, depth).value.0) == wireType
  {
    hide SkipGroup;
    hide Varint.Read;
  }

  lemma EncodeMod(v: nat, m: nat)
    requires m > 0
    ensures |Varint.Encode(v % m)| <= |Varint.Encode(v)|
  {
    EncodeMonotone(v % m, v);
  }

  lemma VarDoubles(k: Kind, v: nat)
    requires KindWireType(k) == 0 && v < TWO_64
    ensures |WriteBody(EncodeScalar(k, DecodeScalar(k, Var(v)).value))| <= 2 * |Varint.Encode(v)|
  {
    DecodeScalarValid(k, Var(v));
    hide Varint.Encode;
    match k
    case Int32 => Int32Doubles(v);
    case UInt32 => EncodeMod(v, TWO_32);
    case UInt64 => EncodeMod(v, TWO_64);
    case Bool => EncodeMonotone(if v == 0 then 0 else 1, v);
  }

  /** A scalar leaves in at most twice the bytes it came in. */
  lemma ScalarDoubles(k: Kind, p: Payload)
    requires !k.Nested? && KindWireType(k) == WireType(p)
    requires p.Fix32? ==> |p.b| == 4
    requires p.Fix64? ==> |p.b| == 8
    requires p.Var? ==> p.v < TWO_64
    requires DecodeScalar(k, p).Some?
    ensures ValidScalar(k, DecodeScalar(k, p).value)
    ensures BodySize(EncodeScalar(k, DecodeScalar(k, p).value)) <= 2 * BodySize(p)
  {
    DecodeScalarValid(k, p);
    if p.Var? {
      hide Varint.Encode;
      hide EncodeScalar;
      hide DecodeScalar;
      VarDoubles(k, p.v);
    }
  }

  // ---- Messages ----

  function FieldSize(f: Field, m: Message): nat {
    |WriteField(f, m)|
  }

  function Size(s: Schema, m: Message): nat {
    |Write(s, m)|
  }

  /** When all fields but the `j`-th shrink, the whole grows by no more than the `j`-th does. */
  lemma {:induction false} OneFieldGrows(s: Schema, m: Message, m': Message, j: nat, i: nat)
    requires j < |s.fields| && i <= |s.fields|
    requires forall k | 0 <= k < |s.fields| && k != j :: FieldSize(s.fields[k], m') <= FieldSize(s.fields[k], m)
    ensures |WriteFields(s.fields[i..], m')| + (if i <= j then FieldSize(s.fields[j], m) else 0)
         <= |WriteFields(s.fields[i..], m)| + (if i <= j then FieldSize(s.fields[j], m') else 0)
    decreases |s.fields| - i
  {
    if i < |s.fields| {
      hide WriteField;
      assert s.fields[i..][1..] == s.fields[i + 1..];
      OneFieldGrows(s, m, m', j, i + 1);
    }
  }

  /** Setting field `f` to `v` costs at most its record, less what the field took before. */
  lemma PutGrows(s: Schema, m: Message, f: Field, v: Value, depth: nat)
    requires WellFormed(s, depth) && Find(s.fields, f.num) == Some(f)
    ensures Size(s, Put(s, m, f, v)) + FieldSize(f, m)
         <= Size(s, m) + |WriteRecord(Record(f.num, Encode(f.kind, v)))|
  {
    var m' := Put(s, m, f, v);
    var j :| 0 <= j < |s.fields| && s.fields[j] == f;
    forall k | 0 <= k < |s.fields| && k != j
      ensures FieldSize(s.fields[k], m') <= FieldSize(s.fields[k], m)
    {
      assert s.fields[k].num != f.num;
      hide Encode;
      hide WriteRecord;
    }
    OneFieldGrows(s, m, m', j, 0);
    assert s.fields[0..] == s.fields;
  }

  lemma {:induction false} ConcatAppend(us: seq<bytes>, u: bytes)
    ensures Concat(us + [u]) == Concat(us) + u
  {
    if us == [] {
      assert us + [u] == [u];
      assert Concat([u]) == u + Concat([]);
    } else {
      ConcatAppend(us[1..], u);
      assert (us + [u])[1..] == us[1..] + [u];
    }
  }

  lemma UnknownSize(s: Schema, m: Message, raw: bytes)
    ensures Size(s, m.(unknown := m.unknown + [raw])) == Size(s, m) + |raw|
  {
    ConcatAppend(m.unknown, raw);
    SameFields(s.fields, m, m.(unknown := m.unknown + [raw]));
  }

  lemma {:induction false} SameFields(fs: seq<Field>, m: Message, m': Message)
    requires m.fields == m'.fields
    ensures WriteFields(fs, m) == WriteFields(fs, m')
  {
    if fs != [] {
      hide Encode;
      SameFields(fs[1..], m, m');
    }
  }

  lemma {:induction false} EmptySize(fs: seq<Field>)
    ensures WriteFields(fs, EMPTY) == []
  {
    if fs != [] {
      EmptySize(fs[1..]);
    }
  }

  /** The bound for a merged sub-message: `before` is what its field took, `base` its own size then. */
  lemma NestedBound(tag: nat, base: nat, sub: nat, came: nat, before: nat, raw: nat)
    requires sub <= base + 2 * came && 1 <= tag
    requires base == 0 || before == tag + |Varint.Encode(base)| + base
    requires tag + |Varint.Encode(came)| + came <= raw
    ensures tag + |Varint.Encode(sub)| + sub <= before + 2 * raw
  {
    hide Varint.Encode;
    EncodeMonotone(sub, base + 2 * came);
    if base <= came {
      EncodeGrows(base + 2 * came, came);
    } else {
      EncodeGrows(base + 2 * came, base);
    }
  }

  /** What the field of a sub-message took, in terms of the sub-message that was merged into. */
  lemma BaseSize(m: Message, f: Field)
    requires f.kind.Nested?
    ensures var base := Size(f.kind.schema, Base(m, f.num));
            base == 0 || FieldSize(f, m) == |WriteTag(f.num, 2)| + |Varint.Encode(base)| + base
  {
    if f.num in m.fields && m.fields[f.num].Sub? {
      assert WriteField(f, m) == WriteRecord(Record(f.num, Len(Write(f.kind.schema, m.fields[f.num].m))));
    } else {
      EmptySize(f.kind.schema.fields);
    }
  }

  lemma NestedGrows(s: Schema, m: Message, f: Field, sub: Message, came: bytes, n: nat, depth: nat)
    requires WellFormed(s, depth) && Find(s.fields, f.num) == Some(f) && f.kind.Nested?
    requires |WriteTag(f.num, 2)| + |Varint.Encode(|came|)| + |came| <= n
    requires Size(f.kind.schema, sub) <= Size(f.kind.schema, Base(m, f.num)) + 2 * |came|
    ensures Size(s, Put(s, m, f, Sub(sub))) <= Size(s, m) + 2 * n
  {
    hide WellFormed;
    hide Put;
    hide FieldSize;
    hide Varint.Encode;
    PutGrows(s, m, f, Sub(sub), depth);
    BaseSize(m, f);
    NestedBound(|WriteTag(f.num, 2)|, Size(f.kind.schema, Base(m, f.num)), Size(f.kind.schema, sub), |came|,
                FieldSize(f, m), n);
    assert |WriteRecord(Record(f.num, Encode(f.kind, Sub(sub))))|
        == |WriteTag(f.num, 2)| + |Varint.Encode(Size(f.kind.schema, sub))| + Size(f.kind.schema, sub);
  }

  lemma ScalarGrows(s: Schema, m: Message, f: Field, p: Payload, n: nat, depth: nat)
    requires WellFormed(s, depth) && Find(s.fields, f.num) == Some(f) && !f.kind.Nested?
    requires KindWireType(f.kind) == WireType(p)
    requires p.Fix32? ==> |p.b| == 4
    requires p.Fix64? ==> |p.b| == 8
    requires p.Var? ==> p.v < TWO_64
    requires DecodeScalar(f.kind, p).Some?
    requires |WriteTag(f.num, WireType(p))| + BodySize(p) <= n
    ensures Size(s, Put(s, m, f, DecodeScalar(f.kind, p).value)) <= Size(s, m) + 2 * n
  {
    hide WellFormed;
    hide Put;
    hide FieldSize;
    hide Size;
    hide WriteBody;
    var v := DecodeScalar(f.kind, p).value;
    ScalarDoubles(f.kind, p);
    hide DecodeScalar;
    PutGrows(s, m, f, v, depth);
    assert Encode(f.kind, v) == EncodeScalar(f.kind, v);
    hide EncodeScalar;
  }

  lemma UnknownGrows(s: Schema, m: Message, r: Record, raw: bytes, depth: nat)
    requires (r.payload.Len? ==> |r.payload.b| < |raw|) && !Known(s, r)
    ensures Absorb(s, m, r, raw, depth).Some?
    ensures Size(s, Absorb(s, m, r, raw, depth).value) == Size(s, m) + |raw|
  {
    hide Write;
    hide ParseInto;
    UnknownSize(s, m, raw);
  }

  lemma {:induction false} KnownGrows(s: Schema, m: Message, r: Record, raw: bytes, depth: nat)
    requires WellFormed(s, depth) && Known(s, r)
    requires (r.payload.Var? ==> r.payload.v < TWO_64)
    requires (r.payload.Fix32? ==> |r.payload.b| == 4) && (r.payload.Fix64? ==> |r.payload.b| == 8)
    requires r.payload.Len? ==> |r.payload.b| < |raw|
    requires |WriteTag(r.num, WireType(r.payload))| + BodySize(r.payload) <= |raw|
    requires Absorb(s, m, r, raw, depth).Some?
    ensures Size(s, Absorb(s, m, r, raw, depth).value) <= Size(s, m) + 2 * |raw|
    decreases |raw|, 0
  {
    hide WellFormed;
    hide Write;
    hide Put;
    hide DecodeScalar;
    hide Varint.Encode;
    var f := Find(s.fields, r.num).value;
    if f.kind.Nested? {
      var base := Base(m, r.num);
      NestedWellFormed(s, f, depth);
      ParseGrows(f.kind.schema, r.payload.b, base, depth - 1);
      var sub := ParseInto(f.kind.schema, r.payload.b, base, depth - 1).value;
      hide ParseInto;
      NestedGrows(s, m, f, sub, r.payload.b, |raw|, depth);
    } else {
      ScalarGrows(s, m, f, r.payload, |raw|, depth);
    }
  }

  lemma NestedWellFormed(s: Schema, f: Field, depth: nat)
    requires WellFormed(s, depth) && f in s.fields && f.kind.Nested?
    ensures depth > 0 && WellFormed(f.kind.schema, depth - 1)
  {
  }

  lemma {:induction false} AbsorbGrows(s: Schema, m: Message, b: bytes, depth: nat)
    requires WellFormed(s, depth) && ReadRecord(b, depth).Some?
    requires var (r, n) := ReadRecord(b, depth).value; Absorb(s, m, r, b[..n], depth).Some?
    ensures var (r, n) := ReadRecord(b, depth).value;
            Size(s, Absorb(s, m, r, b[..n], depth).value) <= Size(s, m) + 2 * n
    decreases |b|, 1
  {
    hide WellFormed;
    hide Absorb;
    hide Known;
    hide Size;
    hide WriteTag;
    var (r, n) := ReadRecord(b, depth).value;
    RecordMinimal(b, depth);
    RecordWidths(b, depth);
    hide ReadRecord;
    hide BodySize;
    if Known(s, r) {
      KnownGrows(s, m, r, b[..n], depth);
    } else {
      UnknownGrows(s, m, r, b[..n], depth);
    }
  }

  lemma {:induction false} ParseGrows(s: Schema, b: bytes, m: Message, depth: nat)
    requires WellFormed(s, depth) && ParseInto(s, b, m, depth).Some?
    ensures Size(s, ParseInto(s, b, m, depth).value) <= Size(s, m) + 2 * |b|
    decreases |b|, 2
  {
    if b != [] {
      hide ReadRecord;
      hide Absorb;
      hide Size;
      var (r, n) := ReadRecord(b, depth).value;
      AbsorbGrows(s, m, b, depth);
      ParseGrows(s, b[n..], Absorb(s, m, r, b[..n], depth).value, depth);
    }
  }

  /** Any parsed message re-serialises into at most twice the bytes it came from. */
  lemma Doubling(s: Schema, b: bytes)
    requires WellFormed(s, MAX_DEPTH) && Parse(s, b).Some?
    ensures |Write(s, Parse(s, b).value)| <= 2 * |b|
  {
    EmptySize(s.fields);
    ParseGrows(s, b, EMPTY, MAX_DEPTH);
  }
}
