/** What parsing produces, and that serialising and parsing undo each other. */
module ProtoLaws {
  import opened Bytes
  import opened Wire
  import Varint
  import opened Proto

  /** The raw bytes of one whole record that the schema does not describe. */
  predicate IsUnknown(s: Schema, u: bytes, depth: nat) {
    var r := ReadRecord(u, depth);
    r.Some? && r.value.1 == |u| && !Known(s, r.value.0)
  }

  ghost predicate ValidValue(k: Kind, v: Value, depth: nat)
    decreases depth, 0, k
  {
    if k.Nested? then v.Sub? && depth > 0 && Valid(k.schema, v.m, depth - 1) else ValidScalar(k, v)
  }

  /** Field `k` of `m` is declared, holds a value of its kind, is not a stored default,
      and is the only one set of its oneof. */
  ghost predicate ValidField(s: Schema, m: Message, k: nat, depth: nat)
    requires k in m.fields
    decreases depth, 1, s
  {
    var f := Find(s.fields, k);
    && f.Some?
    && ValidValue(f.value.kind, m.fields[k], depth)
    && (f.value.presence.Implicit? ==> !IsDefault(m.fields[k]))
    && (forall j | j in m.fields :: !Rivals(s, j, f.value))
  }

  /** The messages the runtime can hold. */
  ghost predicate Valid(s: Schema, m: Message, depth: nat)
    decreases depth, 2, s
  {
    && (forall k | k in m.fields :: ValidField(s, m, k, depth))
    && (forall i | 0 <= i < |m.unknown| :: IsUnknown(s, m.unknown[i], depth))
  }

  // ---- Every parse result is valid ----

  lemma PutValid(s: Schema, m: Message, f: Field, v: Value, depth: nat)
    requires Valid(s, m, depth)
    requires Find(s.fields, f.num) == Some(f)
    requires ValidValue(f.kind, v, depth)
    ensures Valid(s, Put(s, m, f, v), depth)
  {
    var m' := Put(s, m, f, v);
    forall k | k in m'.fields
      ensures ValidField(s, m', k, depth)
    {
      var g := Find(s.fields, k).value;
      if k != f.num {
        assert ValidField(s, m, k, depth);
        assert !Rivals(s, k, f);
        assert !Rivals(s, f.num, g);
      }
    }
  }

  /** A sub-message of a valid message is valid, one level further down. */
  lemma NestedValid(s: Schema, m: Message, f: Field, depth: nat)
    requires Valid(s, m, depth) && f.num in m.fields && Find(s.fields, f.num) == Some(f) && f.kind.Nested?
    ensures m.fields[f.num].Sub? && depth > 0 && Valid(f.kind.schema, m.fields[f.num].m, depth - 1)
  {
    hide IsUnknown;
    assert ValidField(s, m, f.num, depth);
  }

  lemma DecodeScalarValid(k: Kind, p: Payload)
    requires !k.Nested? && KindWireType(k) == WireType(p)
    requires p.Fix32? ==> |p.b| == 4
    requires p.Fix64? ==> |p.b| == 8
    requires DecodeScalar(k, p).Some?
    ensures ValidScalar(k, DecodeScalar(k, p).value)
  {
  }

  lemma BodyWidths(b: bytes, num: nat, wireType: nat, depth: nat)
    requires ReadBody(b, num, wireType, depth).Some?
    ensures var p := ReadBody(b, num, wireType, depth).value.0;
            (p.Fix32? ==> |p.b| == 4) && (p.Fix64? ==> |p.b| == 8)
  {
  }

  lemma RecordWidths(b: bytes, depth: nat)
    requires ReadRecord(b, depth).Some?
    ensures var p := ReadRecord(b, depth).value.0.payload;
            (p.Fix32? ==> |p.b| == 4) && (p.Fix64? ==> |p.b| == 8)
  {
    hide ReadBody;
    var (num, wireType, n) := ReadTag(b).value;
    BodyWidths(b[n..], num, wireType, depth);
  }

  lemma UnknownStays(s: Schema, b: bytes, depth: nat)
    requires ReadRecord(b, depth).Some? && !Known(s, ReadRecord(b, depth).value.0)
    ensures IsUnknown(s, b[..ReadRecord(b, depth).value.1], depth)
  {
    hide ReadRecord;
    hide Known;
    RecordLocal(b, b[..ReadRecord(b, depth).value.1], depth);
  }

  lemma {:induction false} AbsorbValid(s: Schema, m: Message, b: bytes, depth: nat)
    requires Valid(s, m, depth) && WellFormed(s, depth)
    requires ReadRecord(b, depth).Some?
    requires var (r, n) := ReadRecord(b, depth).value; Absorb(s, m, r, b[..n], depth).Some?
    ensures var (r, n) := ReadRecord(b, depth).value; Valid(s, Absorb(s, m, r, b[..n], depth).value, depth)
    decreases |b|, 0
  {
    hide ReadRecord;
    var (r, n) := ReadRecord(b, depth).value;
    if !Known(s, r) {
      UnknownStays(s, b, depth);
      var m' := Absorb(s, m, r, b[..n], depth).value;
      forall k | k in m'.fields ensures ValidField(s, m', k, depth) {
        assert ValidField(s, m, k, depth);
      }
    } else {
      var f := Find(s.fields, r.num).value;
      if f.kind.Nested? {
        assert Valid(f.kind.schema, Base(m, r.num), depth - 1) by {
          if r.num in m.fields { assert ValidField(s, m, r.num, depth); }
        }
        ParseValid(f.kind.schema, r.payload.b, Base(m, r.num), depth - 1);
        PutValid(s, m, f, Sub(ParseInto(f.kind.schema, r.payload.b, Base(m, r.num), depth - 1).value), depth);
      } else {
        RecordWidths(b, depth);
        DecodeScalarValid(f.kind, r.payload);
        PutValid(s, m, f, DecodeScalar(f.kind, r.payload).value, depth);
      }
    }
  }

  /** Parsing keeps the message valid, whatever the bytes. */
  lemma {:induction false} ParseValid(s: Schema, b: bytes, m: Message, depth: nat)
    requires Valid(s, m, depth) && WellFormed(s, depth)
    requires ParseInto(s, b, m, depth).Some?
    ensures Valid(s, ParseInto(s, b, m, depth).value, depth)
    decreases |b|, 1
  {
    if b != [] {
      hide ReadRecord;
      hide Absorb;
      var (r, n) := ReadRecord(b, depth).value;
      AbsorbValid(s, m, b, depth);
      ParseValid(s, b[n..], Absorb(s, m, r, b[..n], depth).value, depth);
    }
  }

  // ---- Serialising, then parsing ----

  lemma FindDeclared(s: Schema, i: nat, depth: nat)
    requires WellFormed(s, depth) && i < |s.fields|
    ensures Find(s.fields, s.fields[i].num) == Some(s.fields[i])
  {
    assert s.fields[i] in s.fields;
    var j :| 0 <= j < |s.fields| && s.fields[j] == Find(s.fields, s.fields[i].num).value;
    assert j < i ==> s.fields[j].num < s.fields[i].num;
    assert i < j ==> s.fields[i].num < s.fields[j].num;
  }

  /** The known fields of `m` numbered below `bound`. */
  function Below(m: Message, bound: nat): Message {
    Message(map k | k in m.fields && k < bound :: m.fields[k], [])
  }

  function Bound(s: Schema, i: nat): nat
    requires i <= |s.fields|
  {
    if i < |s.fields| then s.fields[i].num else MAX_FIELD + 1
  }

  /** No declared number lies strictly between two consecutive ones. */
  lemma NoneBetween(s: Schema, m: Message, i: nat, k: nat, depth: nat)
    requires Valid(s, m, depth) && WellFormed(s, depth) && i < |s.fields|
    requires k in m.fields && k < Bound(s, i + 1) && k != s.fields[i].num
    ensures k < s.fields[i].num
  {
    assert ValidField(s, m, k, depth);
    var j :| 0 <= j < |s.fields| && s.fields[j] == Find(s.fields, k).value;
    assert s.fields[j].num == k && j != i;
    assert j < i ==> s.fields[j].num < s.fields[i].num;
  }

  /** Taking in the next declared number adds that field, if it is set, and nothing else. */
  lemma BelowStep(s: Schema, m: Message, i: nat, depth: nat)
    requires Valid(s, m, depth) && WellFormed(s, depth) && i < |s.fields|
    ensures var f := s.fields[i];
            var kept := Below(m, f.num).fields;
            Below(m, Bound(s, i + 1)).fields == if f.num in m.fields then kept[f.num := m.fields[f.num]] else kept
  {
    var f := s.fields[i];
    assert f.num < Bound(s, i + 1);
    hide Valid;
    forall k | k in m.fields && k < Bound(s, i + 1) && k != f.num
      ensures k < f.num
    {
      NoneBetween(s, m, i, k, depth);
    }
  }

  /** Setting a field of `m` on the lower-numbered part of `m` clears nothing. */
  lemma PutNext(s: Schema, m: Message, f: Field, depth: nat)
    requires Valid(s, m, depth) && f.num in m.fields && Find(s.fields, f.num) == Some(f)
    ensures Put(s, Below(m, f.num), f, m.fields[f.num]).fields
         == Below(m, f.num).fields[f.num := m.fields[f.num]]
  {
    assert ValidField(s, m, f.num, depth);
    var kept := map k | k in Below(m, f.num).fields && k != f.num && !Rivals(s, k, f) :: Below(m, f.num).fields[k];
    assert kept == Below(m, f.num).fields;
  }

  lemma BelowAll(s: Schema, m: Message, depth: nat)
    requires Valid(s, m, depth) && WellFormed(s, depth)
    ensures Below(m, Bound(s, |s.fields|)) == m.(unknown := [])
    ensures Below(m, Bound(s, 0)) == EMPTY
  {
    forall k | k in m.fields
      ensures Bound(s, 0) <= k <= MAX_FIELD
    {
      assert ValidField(s, m, k, depth);
      var j :| 0 <= j < |s.fields| && s.fields[j] == Find(s.fields, k).value;
      assert s.fields[0].num <= s.fields[j].num;
    }
    assert Below(m, Bound(s, |s.fields|)).fields == m.fields;
    assert Below(m, Bound(s, 0)).fields == map[];
  }

  /** Parsing takes a record off the front when that is what the bytes start with. */
  lemma ParseFront(s: Schema, raw: bytes, r: Record, t: bytes, m: Message, depth: nat)
    requires ReadRecord(raw + t, depth) == Some((r, |raw|))
    requires |raw| > 0 && (r.payload.Len? ==> |r.payload.b| < |raw|)
    ensures ParseInto(s, raw + t, m, depth)
         == match Absorb(s, m, r, raw, depth) case None => None case Some(m') => ParseInto(s, t, m', depth)
  {
    hide ReadRecord;
    hide Absorb;
    assert (raw + t)[..|raw|] == raw && (raw + t)[|raw|..] == t;
  }

  /** `r` is writable, longer than its payload, and absorbing it sets field `f` of `m0` to `v`. */
  ghost predicate Carries(s: Schema, f: Field, v: Value, r: Record, m0: Message, depth: nat) {
    var raw := WriteRecord(r);
    && Writable(r) && |raw| > 0 && (r.payload.Len? ==> |r.payload.b| < |raw|)
    && Absorb(s, m0, r, raw, depth) == Some(Put(s, m0, f, v))
  }

  lemma LenLonger(r: Record)
    ensures |WriteRecord(r)| > 0
    ensures r.payload.Len? ==> |r.payload.b| < |WriteRecord(r)|
  {
  }

  lemma ScalarCarried(s: Schema, f: Field, v: Value, m0: Message, depth: nat)
    requires Find(s.fields, f.num) == Some(f) && 1 <= f.num <= MAX_FIELD && ValidScalar(f.kind, v)
    requires |WriteRecord(Record(f.num, EncodeScalar(f.kind, v)))| <= MAX_LENGTH
    ensures Carries(s, f, v, Record(f.num, EncodeScalar(f.kind, v)), m0, depth)
  {
    hide WriteRecord;
    hide Put;
    var r := Record(f.num, EncodeScalar(f.kind, v));
    LenLonger(r);
    ScalarRoundTrip(f.kind, v);
  }

  lemma NestedCarried(s: Schema, f: Field, b: bytes, sub: Message, m0: Message, depth: nat)
    requires Find(s.fields, f.num) == Some(f) && 1 <= f.num <= MAX_FIELD && f.kind.Nested?
    requires f.num !in m0.fields && depth > 0
    requires |WriteRecord(Record(f.num, Len(b)))| <= MAX_LENGTH
    requires ParseInto(f.kind.schema, b, EMPTY, depth - 1) == Some(sub)
    ensures Carries(s, f, Sub(sub), Record(f.num, Len(b)), m0, depth)
  {
    hide WriteRecord;
    hide Put;
    hide ParseInto;
    LenLonger(Record(f.num, Len(b)));
  }

  lemma {:induction false} EncodedField(s: Schema, m: Message, f: Field, m0: Message, depth: nat)
    requires Valid(s, m, depth) && WellFormed(s, depth)
    requires Find(s.fields, f.num) == Some(f) && f.num in m.fields && f.num !in m0.fields
    requires |WriteField(f, m)| <= MAX_LENGTH
    ensures Carries(s, f, m.fields[f.num], Record(f.num, Encode(f.kind, m.fields[f.num])), m0, depth)
    decreases depth, 0
  {
    hide WriteRecord;
    hide Carries;
    hide IsUnknown;
    var v := m.fields[f.num];
    assert ValidField(s, m, f.num, depth);
    assert 1 <= f.num <= MAX_FIELD by {
      var i :| 0 <= i < |s.fields| && s.fields[i] == f;
    }
    if f.kind.Nested? {
      NestedDepth(s, f, depth);
      EncodedNested(s, f, v, m0, depth);
    } else {
      ScalarCarried(s, f, v, m0, depth);
    }
  }

  lemma NestedDepth(s: Schema, f: Field, depth: nat)
    requires WellFormed(s, depth) && f in s.fields && f.kind.Nested?
    ensures depth > 0 && WellFormed(f.kind.schema, depth - 1)
  {
    var i :| 0 <= i < |s.fields| && s.fields[i] == f;
  }

  lemma {:induction false} EncodedNested(s: Schema, f: Field, v: Value, m0: Message, depth: nat)
    requires depth > 0 && f.kind.Nested? && WellFormed(f.kind.schema, depth - 1)
    requires v.Sub? && Valid(f.kind.schema, v.m, depth - 1)
    requires Find(s.fields, f.num) == Some(f) && 1 <= f.num <= MAX_FIELD && f.num !in m0.fields
    requires |WriteRecord(Record(f.num, Encode(f.kind, v)))| <= MAX_LENGTH
    ensures Carries(s, f, v, Record(f.num, Encode(f.kind, v)), m0, depth)
    decreases depth - 1, 4
  {
    hide WriteRecord;
    hide Carries;
    hide Write;
    hide Valid;
    LenLonger(Record(f.num, Encode(f.kind, v)));
    RoundTrip(f.kind.schema, v.m, depth - 1);
    NestedCarried(s, f, Write(f.kind.schema, v.m), v.m, m0, depth);
  }

  /** One declared field: written if set, and parsed back onto the fields before it. */
  lemma {:induction false} FieldRoundTrip(s: Schema, m: Message, i: nat, t: bytes, depth: nat)
    requires Valid(s, m, depth) && WellFormed(s, depth) && i < |s.fields|
    requires |WriteField(s.fields[i], m)| <= MAX_LENGTH
    ensures ParseInto(s, WriteField(s.fields[i], m) + t, Below(m, s.fields[i].num), depth)
         == ParseInto(s, t, Below(m, Bound(s, i + 1)), depth)
    decreases depth, 1
  {
    var f := s.fields[i];
    FindDeclared(s, i, depth);
    BelowStep(s, m, i, depth);
    if f.num in m.fields {
      hide Write;
      hide ParseInto;
      var m0 := Below(m, f.num);
      EncodedField(s, m, f, m0, depth);
      PutNext(s, m, f, depth);
      FieldFront(s, f, m.fields[f.num], Record(f.num, Encode(f.kind, m.fields[f.num])), t, m0, depth);
      assert Put(s, m0, f, m.fields[f.num]) == Below(m, Bound(s, i + 1));
    } else {
      assert WriteField(f, m) + t == t;
    }
  }

  lemma FieldFront(s: Schema, f: Field, v: Value, r: Record, t: bytes, m0: Message, depth: nat)
    requires Carries(s, f, v, r, m0, depth)
    ensures ParseInto(s, WriteRecord(r) + t, m0, depth) == ParseInto(s, t, Put(s, m0, f, v), depth)
  {
    hide ReadRecord;
    hide Absorb;
    hide ParseInto;
    hide WriteRecord;
    RecordRoundTrip(r, t, depth);
    ParseFront(s, WriteRecord(r), r, t, m0, depth);
  }

  lemma {:induction false} FieldsRoundTrip(s: Schema, m: Message, i: nat, t: bytes, depth: nat)
    requires Valid(s, m, depth) && WellFormed(s, depth) && i <= |s.fields|
    requires |WriteFields(s.fields[i..], m)| <= MAX_LENGTH
    ensures ParseInto(s, WriteFields(s.fields[i..], m) + t, Below(m, Bound(s, i)), depth)
         == ParseInto(s, t, Below(m, Bound(s, |s.fields|)), depth)
    decreases depth, 2, |s.fields| - i
  {
    hide ParseInto;
    hide WriteField;
    if i == |s.fields| {
      assert WriteFields(s.fields[i..], m) + t == t;
    } else {
      var f, tail := s.fields[i], WriteFields(s.fields[i + 1..], m);
      assert s.fields[i..][1..] == s.fields[i + 1..];
      assert WriteFields(s.fields[i..], m) == WriteField(f, m) + tail;
      assert WriteFields(s.fields[i..], m) + t == WriteField(f, m) + (tail + t);
      FieldRoundTrip(s, m, i, tail + t, depth);
      FieldsRoundTrip(s, m, i + 1, t, depth);
    }
  }

  lemma UnknownFront(s: Schema, m: Message, u: bytes, t: bytes, depth: nat)
    requires IsUnknown(s, u, depth)
    ensures ParseInto(s, u + t, m, depth) == ParseInto(s, t, WithUnknown(m, [u]), depth)
  {
    hide ReadRecord;
    hide Known;
    RecordLocal(u, u + t, depth);
    ParseFront(s, u, ReadRecord(u, depth).value.0, t, m, depth);
  }

  /** `m` with more unknown records. */
  function WithUnknown(m: Message, us: seq<bytes>): Message {
    Message(m.fields, m.unknown + us)
  }

  lemma WithUnknownTwice(m: Message, us: seq<bytes>)
    requires us != []
    ensures WithUnknown(WithUnknown(m, [us[0]]), us[1..]) == WithUnknown(m, us)
  {
    assert (m.unknown + [us[0]]) + us[1..] == m.unknown + us;
  }

  lemma {:induction false} UnknownRoundTrip(s: Schema, m: Message, us: seq<bytes>, depth: nat)
    requires forall i | 0 <= i < |us| :: IsUnknown(s, us[i], depth)
    ensures ParseInto(s, Concat(us), m, depth) == Some(WithUnknown(m, us))
    decreases |us|
  {
    hide IsUnknown;
    if us == [] {
      assert m == WithUnknown(m, us);
    } else {
      hide ParseInto;
      hide WithUnknown;
      assert forall i | 0 <= i < |us[1..]| :: us[1..][i] == us[i + 1];
      UnknownFront(s, m, us[0], Concat(us[1..]), depth);
      UnknownRoundTrip(s, WithUnknown(m, [us[0]]), us[1..], depth);
      WithUnknownTwice(m, us);
    }
  }

  /** What is written parses back to the very message: known fields, presence, and unknown records. */
  lemma {:induction false} RoundTrip(s: Schema, m: Message, depth: nat)
    requires Valid(s, m, depth) && WellFormed(s, depth)
    requires |Write(s, m)| <= MAX_LENGTH
    ensures ParseInto(s, Write(s, m), EMPTY, depth) == Some(m)
    decreases depth, 3
  {
    assert s.fields[0..] == s.fields;
    BelowAll(s, m, depth);
    FieldsRoundTrip(s, m, 0, Concat(m.unknown), depth);
    UnknownRoundTrip(s, m.(unknown := []), m.unknown, depth);
    assert [] + m.unknown == m.unknown;
  }

  /** Re-serialising any message that parsed loses nothing. */
  lemma Canonical(s: Schema, b: bytes)
    requires WellFormed(s, MAX_DEPTH)
    requires Parse(s, b).Some? && Serialize(s, Parse(s, b).value).Some?
    ensures Parse(s, Serialize(s, Parse(s, b).value).value) == Parse(s, b)
  {
    ParseValid(s, b, EMPTY, MAX_DEPTH);
    RoundTrip(s, Parse(s, b).value, MAX_DEPTH);
  }

  // ---- Merging: section "Last One Wins" ----

  lemma FrontOfConcat(s: Schema, a: bytes, b: bytes, m: Message, depth: nat)
    requires a != [] && ParseInto(s, a, m, depth).Some?
    ensures var (r, n) := ReadRecord(a, depth).value;
            && Absorb(s, m, r, a[..n], depth).Some?
            && ParseInto(s, a, m, depth) == ParseInto(s, a[n..], Absorb(s, m, r, a[..n], depth).value, depth)
            && ParseInto(s, a + b, m, depth) == ParseInto(s, a[n..] + b, Absorb(s, m, r, a[..n], depth).value, depth)
  {
    hide ReadRecord;
    hide Absorb;
    RecordLocal(a, a + b, depth);
    var (r, n) := ReadRecord(a, depth).value;
    assert (a + b)[..n] == a[..n];
    assert (a + b)[n..] == a[n..] + b;
  }

  /** Parsing a concatenation is parsing the first part and merging the second into it. */
  lemma {:induction false} ParseConcat(s: Schema, a: bytes, b: bytes, m: Message, depth: nat)
    requires ParseInto(s, a, m, depth).Some?
    ensures ParseInto(s, a + b, m, depth) == ParseInto(s, b, ParseInto(s, a, m, depth).value, depth)
    decreases |a|
  {
    if a == [] {
      assert a + b == b;
    } else {
      FrontOfConcat(s, a, b, m, depth);
      hide ParseInto;
      hide ReadRecord;
      hide Absorb;
      var (r, n) := ReadRecord(a, depth).value;
      ParseConcat(s, a[n..], b, Absorb(s, m, r, a[..n], depth).value, depth);
    }
  }

  /** Whatever a payload said before, the last record of a scalar field decides its value, and clears
      the other members of its oneof. */
  lemma LastOneWins(s: Schema, a: bytes, f: Field, v: Value)
    requires Parse(s, a).Some? && Find(s.fields, f.num) == Some(f) && 1 <= f.num <= MAX_FIELD
    requires ValidScalar(f.kind, v) && |WriteRecord(Record(f.num, EncodeScalar(f.kind, v)))| <= MAX_LENGTH
    ensures Parse(s, a + WriteRecord(Record(f.num, EncodeScalar(f.kind, v)))) == Some(Put(s, Parse(s, a).value, f, v))
  {
    hide Put;
    hide WriteRecord;
    hide EncodeScalar;
    var m := Parse(s, a).value;
    var r := Record(f.num, EncodeScalar(f.kind, v));
    ScalarCarried(s, f, v, m, MAX_DEPTH);
    FieldFront(s, f, v, r, [], m, MAX_DEPTH);
    assert WriteRecord(r) + [] == WriteRecord(r);
    ParseConcat(s, a, WriteRecord(r), EMPTY, MAX_DEPTH);
    assert ParseInto(s, [], Put(s, m, f, v), MAX_DEPTH) == Some(Put(s, m, f, v));
  }

  /** The number a pattern stands for in two's complement, `half` being the first negative one. */
  function Signed(n: nat, half: nat): int {
    if n < half then n else n - 2 * half
  }

  lemma SignExtended(x: int)
    requires -0x8000_0000 <= x < 0x8000_0000
    ensures Signed(x % TWO_32, 0x8000_0000) == x
    ensures EncodeScalar(Int32, Num(x % TWO_32)) == Var(x % TWO_64)
  {
  }

  lemma TagFits(num: nat, wireType: nat)
    requires num <= MAX_FIELD && wireType < 8
    ensures |WriteTag(num, wireType)| <= Varint.MAX_SHORT_BYTES
  {
    Varint.Pow128Values();
    hide Varint.Pow128;
    Varint.EncodeFits(8 * num + wireType, Varint.MAX_SHORT_BYTES);
  }

  /** A signed 32-bit number, written as the 64-bit two's complement varint every writer emits, is
      stored as a field that stands for that number, and is written that way again. */
  lemma SignedReads(s: Schema, a: bytes, f: Field, x: int)
    requires Parse(s, a).Some? && Find(s.fields, f.num) == Some(f) && 1 <= f.num <= MAX_FIELD
    requires f.kind == Int32 && -0x8000_0000 <= x < 0x8000_0000
    ensures var n := x % TWO_32;
            && Parse(s, a + WriteRecord(Record(f.num, Var(x % TWO_64)))) == Some(Put(s, Parse(s, a).value, f, Num(n)))
            && EncodeScalar(f.kind, Num(n)) == Var(x % TWO_64)
            && Signed(n, 0x8000_0000) == x
  {
    SignExtended(x);
    TagFits(f.num, 0);
    Varint.Pow128Values();
    hide Varint.Pow128;
    Varint.EncodeFits(x % TWO_64, Varint.MAX_VARINT_BYTES);
    hide Parse;
    hide Put;
    hide WriteTag;
    hide Varint.Encode;
    hide Signed;
    LastOneWins(s, a, f, Num(x % TWO_32));
  }
}
