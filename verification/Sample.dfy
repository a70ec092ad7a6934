/** A schema of the shape the pipeline assumes. */
module Sample {
  import opened Bytes
  import opened Wire
  import opened Proto
  import opened Mesh

  /** A small schema of the required shape, to show there is one. */
  const SAMPLE_PACKET: Schema := Schema([
    Field(1, Fixed32, Implicit), Field(2, Fixed32, Implicit), Field(5, Octets, Member(0)), Field(6, Fixed32, Implicit),
    Field(9, UInt32, Implicit), Field(14, Proto.Bool, Implicit), Field(15, UInt32, Implicit),
    Field(18, UInt32, Implicit), Field(19, UInt32, Implicit)])

  const SAMPLE: Protos := Protos(
    Schema([Field(1, Nested(SAMPLE_PACKET), Explicit), Field(2, Text, Implicit), Field(3, Text, Implicit)]), 1,
    SAMPLE_PACKET, 9, 15, 6, 1, 2, 5, 0, 14, 19, 18,
    Schema([Field(1, Int32, Implicit), Field(2, Octets, Implicit)]), 1, map[1 := "TEXT_MESSAGE_APP"])

  lemma FlatWellFormed(s: Schema, depth: nat)
    requires forall i | 0 <= i < |s.fields| :: 1 <= s.fields[i].num <= MAX_FIELD && !s.fields[i].kind.Nested?
    requires forall i, j | 0 <= i < j < |s.fields| :: s.fields[i].num < s.fields[j].num
    ensures WellFormed(s, depth)
  {
  }

  lemma OneNestedWellFormed(s: Schema, depth: nat)
    requires forall i | 0 <= i < |s.fields| :: 1 <= s.fields[i].num <= MAX_FIELD
    requires forall i, j | 0 <= i < j < |s.fields| :: s.fields[i].num < s.fields[j].num
    requires |s.fields| > 0 && s.fields[0].kind.Nested? && !s.fields[0].presence.Implicit?
    requires depth > 0 && WellFormed(s.fields[0].kind.schema, depth - 1)
    requires forall i | 1 <= i < |s.fields| :: !s.fields[i].kind.Nested?
    ensures WellFormed(s, depth)
  {
  }

  lemma {:induction false} FindAt(fs: seq<Field>, i: nat)
    requires i < |fs| && forall j | 0 <= j < i :: fs[j].num != fs[i].num
    ensures Find(fs, fs[i].num) == Some(fs[i])
  {
    if i > 0 {
      FindAt(fs[1..], i - 1);
    }
  }

  lemma SampleFinds(i: nat)
    requires i < |SAMPLE_PACKET.fields|
    ensures Find(SAMPLE_PACKET.fields, SAMPLE_PACKET.fields[i].num) == Some(SAMPLE_PACKET.fields[i])
  {
    hide Find;
    FindAt(SAMPLE_PACKET.fields, i);
  }

  lemma SampleEnvelope()
    ensures WellFormed(SAMPLE.envelope, MAX_DEPTH)
    ensures Find(SAMPLE.envelope.fields, 1) == Some(Field(1, Nested(SAMPLE_PACKET), Explicit))
  {
    hide WellFormed;
    hide Find;
    FlatWellFormed(SAMPLE_PACKET, MAX_DEPTH - 1);
    OneNestedWellFormed(SAMPLE.envelope, MAX_DEPTH);
    FindAt(SAMPLE.envelope.fields, 0);
  }

  lemma SampleData()
    ensures WellFormed(SAMPLE.data, MAX_DEPTH)
    ensures Find(SAMPLE.data.fields, 1) == Some(Field(1, Int32, Implicit))
  {
    hide WellFormed;
    hide Find;
    FlatWellFormed(SAMPLE.data, MAX_DEPTH);
    FindAt(SAMPLE.data.fields, 0);
  }

  lemma SampleAddressing()
    ensures var fs := SAMPLE_PACKET.fields;
            && Find(fs, 1) == Some(Field(1, Fixed32, Implicit)) && Find(fs, 2) == Some(Field(2, Fixed32, Implicit))
            && Find(fs, 5) == Some(Field(5, Octets, Member(0))) && Find(fs, 6) == Some(Field(6, Fixed32, Implicit))
  {
    hide Find;
    SampleFinds(0);
    SampleFinds(1);
    SampleFinds(2);
    SampleFinds(3);
  }

  lemma SampleRouting()
    ensures var fs := SAMPLE_PACKET.fields;
            && Find(fs, 9) == Some(Field(9, UInt32, Implicit)) && Find(fs, 14) == Some(Field(14, Proto.Bool, Implicit))
            && Find(fs, 15) == Some(Field(15, UInt32, Implicit)) && Find(fs, 18) == Some(Field(18, UInt32, Implicit))
            && Find(fs, 19) == Some(Field(19, UInt32, Implicit))
  {
    hide Find;
    SampleFinds(4);
    SampleFinds(5);
    SampleFinds(6);
    SampleFinds(7);
    SampleFinds(8);
  }

  /** The assumptions made about the schema can be met. */
  lemma SampleIsWellFormed()
    ensures WF(SAMPLE)
  {
    hide WellFormed;
    hide Find;
    SampleEnvelope();
    SampleData();
    SampleAddressing();
    SampleRouting();
  }
}
