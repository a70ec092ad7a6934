/** What one more record means to a message that has been parsed so far. */
module ProtoReads {
  import opened Bytes
  import opened Wire
  import Utf8
  import opened Proto
  import opened ProtoLaws

  /** The value a record's payload gives a scalar field, None when it makes the message unreadable:
      integers keep their low bits, a non-zero number is true, fixed-width numbers have their least
      significant byte first, and a text must be the UTF-8 encoding of some text. */
  ghost predicate Means(k: Kind, p: Payload, v: Option<Value>) {
    match k
    case UInt32 | Int32 => p.Var? && v.Some? && v.value.Num? && IsLow(v.value.n, p.v, TWO_32)
    case UInt64 => p.Var? && v.Some? && v.value.Num? && IsLow(v.value.n, p.v, TWO_64)
    case Bool => p.Var? && v == Some(Num(if p.v > 0 then 1 else 0))
    case Fixed32 => p.Fix32? && v.Some? && v.value.Num? && HasBytes(v.value.n, p.b)
    case Fixed64 => p.Fix64? && v.Some? && v.value.Num? && HasBytes(v.value.n, p.b)
    case Octets => p.Len? && v == Some(Raw(p.b))
    case Text => p.Len? && v == if Utf8.IsText(p.b) then Some(Raw(p.b)) else None
    case Nested(_) => false
  }

  /** `n` is `v` without its bits from `size` up. */
  ghost predicate IsLow(n: nat, v: nat, size: nat) {
    n < size && exists high: nat :: v == high * size + n
  }

  ghost predicate HasBytes(n: nat, b: bytes) {
    n < Pow256(|b|) && forall i | 0 <= i < |b| :: b[i] == Digit(n, 256, i)
  }

  lemma LowBits(v: nat, size: nat)
    requires size > 0
    ensures IsLow(v % size, v, size)
  {
    assert v == (v / size) * size + v % size;
  }

  lemma {:induction false} BytesOf(b: bytes)
    ensures HasBytes(LeNat(b), b)
  {
    if b != [] {
      BytesOf(b[1..]);
      var n := LeNat(b);
      assert n == b[0] + 256 * LeNat(b[1..]);
      assert n % 256 == b[0] && n / 256 == LeNat(b[1..]);
      forall i | 0 <= i < |b|
        ensures b[i] == Digit(n, 256, i)
      {
        if i > 0 {
          assert b[i] == b[1..][i - 1];
        }
      }
    }
  }

  /** Decoding gives a payload its meaning, whatever its kind. */
  lemma DecodeMeans(k: Kind, p: Payload)
    requires !k.Nested? && KindWireType(k) == WireType(p)
    ensures Means(k, p, DecodeScalar(k, p))
  {
    match k
    case UInt32 | Int32 => LowBits(p.v, TWO_32);
    case UInt64 => LowBits(p.v, TWO_64);
    case Fixed32 | Fixed64 => BytesOf(p.b);
    case Text =>
      Utf8.ValidExact(p.b);
      hide Utf8.IsText;
    case _ =>
  }

  /** `raw` is one whole record, overlong varints and all. */
  ghost predicate Reads(raw: bytes, r: Record) {
    ReadRecord(raw, MAX_DEPTH) == Some((r, |raw|))
  }

  /** Parsing one more record absorbs it into what was parsed. */
  lemma Appended(s: Schema, a: bytes, raw: bytes, r: Record)
    requires Parse(s, a).Some? && Reads(raw, r)
    ensures r.payload.Len? ==> |r.payload.b| < |raw|
    ensures Parse(s, a + raw) == Absorb(s, Parse(s, a).value, r, raw, MAX_DEPTH)
  {
    hide Absorb;
    hide ReadRecord;
    ParseConcat(s, a, raw, EMPTY, MAX_DEPTH);
    assert raw[..|raw|] == raw && raw[|raw|..] == [];
  }

  /** The field numbered `k` belongs to the oneof of `f`. */
  ghost predicate SameOneof(s: Schema, k: nat, f: Field) {
    f.presence.Member? && exists g :: Find(s.fields, k) == Some(g) && g.presence == f.presence
  }

  /** Setting a field leaves every other as it was, except that the other members of its oneof are
      cleared; the field then holds the value, or is absent if that is the default of a field without
      presence. */
  lemma PutExact(s: Schema, m: Message, f: Field, v: Value, k: nat)
    ensures var after := Put(s, m, f, v);
            && after.unknown == m.unknown
            && (k == f.num ==> (k !in after.fields <==> f.presence.Implicit? && (v == Num(0) || v == Raw([]))))
            && (k != f.num ==> (k in after.fields <==> k in m.fields && !SameOneof(s, k, f)))
            && (k in after.fields ==> after.fields[k] == if k == f.num then v else m.fields[k])
  {
  }

  /** A scalar field takes the meaning of its last record, and clears the others of its oneof. */
  lemma ScalarReads(s: Schema, a: bytes, raw: bytes, r: Record, f: Field)
    requires Parse(s, a).Some? && Reads(raw, r)
    requires Find(s.fields, r.num) == Some(f) && !f.kind.Nested? && KindWireType(f.kind) == WireType(r.payload)
    ensures exists v :: Means(f.kind, r.payload, v)
                 && Parse(s, a + raw) == if v.Some? then Some(Put(s, Parse(s, a).value, f, v.value)) else None
  {
    Appended(s, a, raw, r);
    DecodeMeans(f.kind, r.payload);
    hide Means;
    hide DecodeScalar;
    hide Parse;
    hide Put;
    hide Reads;
    var v := DecodeScalar(f.kind, r.payload);
    assert Means(f.kind, r.payload, v);
  }

  /** A text field is accepted exactly when its bytes are the UTF-8 encoding of some text. */
  lemma TextReads(s: Schema, a: bytes, raw: bytes, num: nat, b: bytes, presence: Presence)
    requires Parse(s, a).Some? && Reads(raw, Record(num, Len(b)))
    requires Find(s.fields, num) == Some(Field(num, Text, presence))
    ensures Parse(s, a + raw).Some? <==> Utf8.IsText(b)
    ensures Utf8.IsText(b) ==> Parse(s, a + raw) == Some(Put(s, Parse(s, a).value, Field(num, Text, presence), Raw(b)))
  {
    hide Utf8.IsText;
    hide Parse;
    hide Put;
    hide Reads;
    ScalarReads(s, a, raw, Record(num, Len(b)), Field(num, Text, presence));
  }

  lemma PutTwice(s: Schema, m: Message, f: Field, v: Value, w: Value)
    requires v.Sub? && w.Sub?
    ensures Put(s, Put(s, m, f, v), f, w) == Put(s, m, f, w)
  {
    assert Put(s, Put(s, m, f, v), f, w).fields == Put(s, m, f, w).fields;
  }

  /** A sub-message that comes in two records is the one whose bytes are those of both: the second
      is merged into the first, it does not replace it. */
  lemma NestedMerges(s: Schema, a: bytes, f: Field, x: bytes, y: bytes, first: bytes, second: bytes, both: bytes)
    requires Find(s.fields, f.num) == Some(f) && f.kind.Nested?
    requires Reads(first, Record(f.num, Len(x))) && Reads(second, Record(f.num, Len(y)))
    requires Reads(both, Record(f.num, Len(x + y)))
    requires Parse(s, a).Some? && Parse(s, a + first).Some?
    ensures Parse(s, a + first + second) == Parse(s, a + both)
  {
    var m, m1 := Parse(s, a).value, Parse(s, a + first).value;
    Appended(s, a, first, Record(f.num, Len(x)));
    Appended(s, a + first, second, Record(f.num, Len(y)));
    Appended(s, a, both, Record(f.num, Len(x + y)));
    hide Parse;
    hide Reads;
    hide ParseInto;
    hide Put;
    var sub := ParseInto(f.kind.schema, x, Base(m, f.num), MAX_DEPTH - 1).value;
    assert m1 == Put(s, m, f, Sub(sub));
    BaseAfter(s, m, f, sub);
    ParseConcat(f.kind.schema, x, y, Base(m, f.num), MAX_DEPTH - 1);
    var merged := ParseInto(f.kind.schema, x + y, Base(m, f.num), MAX_DEPTH - 1);
    if merged.Some? {
      PutTwice(s, m, f, Sub(sub), Sub(merged.value));
    }
  }

  lemma BaseAfter(s: Schema, m: Message, f: Field, sub: Message)
    ensures Base(Put(s, m, f, Sub(sub)), f.num) == sub
  {
  }
}
