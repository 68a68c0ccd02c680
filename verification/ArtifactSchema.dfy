/** The schema section: fields without defaults, compiled again when read. src/artifact/artifact_format.cc:65-127 */
module ArtifactSchema {
  import opened Basics
  import opened ByteIO
  import opened Values
  import opened Sorting
  import opened Schema
  import opened FrameReader
  import opened SectionCodec

  function TakeField(s: bytes): (r: Result<Taken<FieldSpec>>)
    ensures r.Err? ==> r.code == InvalidArgument
    ensures r.Ok? ==> r.get.value.defaultValue == Null
  {
    PowersOf256();
    var id :- TakeInt(s, 4);
    if |id.rest| < 4 then Err(InvalidArgument)
    else
      var name :- TakeBytes(id.rest[4..], 4);
      Ok(Taken(FieldSpec(id.value, name.value, TypeOf(id.rest[0]), id.rest[1] != 0, id.rest[2] != 0,
                         EncodingOf(id.rest[3]), Null, false), name.rest))
  }

  function FieldMarks(f: FieldSpec): bytes {
    [TypeCode(f.ftype), if f.isList then 1 else 0, if f.nullable then 1 else 0, EncodingCode(f.encoding)]
  }

  function PrintField(f: FieldSpec): bytes {
    LE(f.fieldId, 4) + FieldMarks(f) + PrintBytes(f.name, 4)
  }

  /** The field as a schema section keeps it. */
  function Plain(f: FieldSpec): FieldSpec {
    f.(defaultValue := Null)
  }

  function Plains(fields: seq<FieldSpec>): (r: seq<FieldSpec>)
    ensures |r| == |fields|
  {
    seq(|fields|, i requires 0 <= i < |fields| => Plain(fields[i]))
  }

  /** A field whose codes are those of its type and encoding, and whose name fits. */
  predicate SpecFits(f: FieldSpec) {
    |f.name| < TWO_32 && TypeOf(TypeCode(f.ftype)) == f.ftype && EncodingOf(EncodingCode(f.encoding)) == f.encoding
  }

  lemma {:induction false} FieldTaken(f: FieldSpec, tail: bytes)
    requires SpecFits(f) && !f.deleted
    ensures TakeField(PrintField(f) + tail) == Ok(Taken(Plain(f), tail))
  {
    hide LE, TakeInt, TakeBytes, PrintBytes, Pow256;
    PowersOf256();
    var t1 := PrintBytes(f.name, 4) + tail;
    assert PrintField(f) + tail == LE(f.fieldId, 4) + (FieldMarks(f) + t1);
    IntTaken(f.fieldId, 4, FieldMarks(f) + t1);
    BytesTaken(f.name, 4, tail);
    assert (FieldMarks(f) + t1)[4..] == t1;
  }

  /** RuntimeSchema::AddField on the active fields so far; nothing is ever retired here. */
  function AddCheck(active: seq<FieldSpec>, f: FieldSpec): Result<()> {
    if HasId(active, f.fieldId) then Err(FailedPrecondition)
    else if !PolicyOk(f) then Err(InvalidArgument)
    else Ok(())
  }

  function TakeFields(s: bytes, n: nat, active: seq<FieldSpec>): Result<Taken<seq<FieldSpec>>>
    decreases n
  {
    if n == 0 then Ok(Taken(active, s))
    else
      var first :- TakeField(s);
      var added :- AddCheck(active, first.value);
      TakeFields(first.rest, n - 1, active + [first.value])
  }

  function PrintFields(fields: seq<FieldSpec>): bytes {
    if fields == [] then [] else PrintField(fields[0]) + PrintFields(fields[1..])
  }

  lemma {:induction false} FieldsTaken(fields: seq<FieldSpec>, k: nat, tail: bytes)
    requires k <= |fields| && ValidFields(fields) && forall i :: 0 <= i < |fields| ==> SpecFits(fields[i])
    ensures TakeFields(PrintFields(fields[k..]) + tail, |fields| - k, Plains(fields[..k]))
      == Ok(Taken(Plains(fields), tail))
    decreases |fields| - k
  {
    hide TakeField, PrintField, SpecFits, DefaultMatches, EncodingMatches;
    if k == |fields| {
      assert fields[..k] == fields && PrintFields(fields[k..]) + tail == tail;
    } else {
      var rest := fields[k..];
      assert rest[0] == fields[k] && rest[1..] == fields[k + 1..];
      FieldTaken(fields[k], PrintFields(rest[1..]) + tail);
      assert PrintFields(rest) + tail == PrintField(fields[k]) + (PrintFields(rest[1..]) + tail);
      assert Plains(fields[..k + 1]) == Plains(fields[..k]) + [Plain(fields[k])];
      PlainAdds(fields, k);
      FieldsTaken(fields, k + 1, tail);
    }
  }

  lemma {:induction false} PlainAdds(fields: seq<FieldSpec>, k: nat)
    requires k < |fields| && ValidFields(fields)
    ensures AddCheck(Plains(fields[..k]), Plain(fields[k])) == Ok(()) && !fields[k].deleted
  {
    assert PolicyOk(fields[k]);
    forall i | 0 <= i < k
      ensures Plains(fields[..k])[i].fieldId != fields[k].fieldId
    {
      assert FieldIdOf(fields[i]) != FieldIdOf(fields[k]);
    }
  }

  function ParseSchema(s: bytes, version: u64, fingerprint: u64): Result<RowLayout> {
    var v :- TakeInt(s, 8);
    if v.value != version then Err(FailedPrecondition)
    else
      var count :- TakeInt(v.rest, 4);
      var fields :- TakeFields(count.rest, count.value, []);
      if fields.rest != [] then Err(InvalidArgument)
      else
        var layout := CompileLayout(version, fields.value);
        if layout.fingerprint != fingerprint then Err(FailedPrecondition) else Ok(layout)
  }

  /** The field that a layout entry was compiled from, but for its default. */
  function SpecOf(f: FieldLayout): FieldSpec {
    FieldSpec(f.fieldId, f.name, f.ftype, f.isList, f.nullable, f.encoding, Null, false)
  }

  function SpecsOf(fields: seq<FieldLayout>): seq<FieldSpec> {
    seq(|fields|, i requires 0 <= i < |fields| => SpecOf(fields[i]))
  }

  function PrintSchema(l: RowLayout): bytes {
    LE(l.schemaVersion, 8) + LE(|l.fields|, 4) + PrintFields(SpecsOf(l.fields))
  }

  lemma {:induction false} CompiledSpecs(version: u64, active: seq<FieldSpec>)
    requires ValidFields(active)
    ensures SpecsOf(CompileLayout(version, active).fields) == Plains(SortBy(FieldIdOf, active))
    ensures ValidFields(SortBy(FieldIdOf, active))
  {
    hide BuildFingerprint, SlotOf, Width, DefaultMatches, EncodingMatches, FixedCursor, RefCursor, PresenceBytes;
    var sorted := SortBy(FieldIdOf, active);
    ValidFieldsPermuted(active, sorted);
    forall i | 0 <= i < |sorted|
      ensures SpecOf(CompileLayout(version, active).fields[i]) == Plain(sorted[i])
    {
      assert PolicyOk(sorted[i]);
    }
  }

  lemma {:induction false} PlainsPrintTheSame(fields: seq<FieldSpec>)
    ensures PrintFields(Plains(fields)) == PrintFields(fields)
  {
    if fields != [] {
      assert Plains(fields)[1..] == Plains(fields[1..]);
      PlainsPrintTheSame(fields[1..]);
    }
  }

  lemma {:induction false} SpecFitsPermuted(active: seq<FieldSpec>)
    requires forall i :: 0 <= i < |active| ==> SpecFits(active[i])
    ensures forall i :: 0 <= i < |SortBy(FieldIdOf, active)| ==> SpecFits(SortBy(FieldIdOf, active)[i])
    ensures |SortBy(FieldIdOf, active)| == |active|
  {
    var sorted := SortBy(FieldIdOf, active);
    assert |multiset(sorted)| == |sorted| && |multiset(active)| == |active|;
    forall i | 0 <= i < |sorted|
      ensures SpecFits(sorted[i])
    {
      assert sorted[i] in multiset(active);
    }
  }

  lemma {:induction false} PrintedFieldsParse(version: u64, fields: seq<FieldSpec>, fingerprint: u64)
    requires ValidFields(fields) && |fields| < TWO_32 && forall i :: 0 <= i < |fields| ==> SpecFits(fields[i])
    ensures var plain := CompileLayout(version, Plains(fields));
      ParseSchema(LE(version, 8) + (LE(|fields|, 4) + PrintFields(fields)), version, fingerprint)
        == if plain.fingerprint == fingerprint then Ok(plain) else Err(FailedPrecondition)
  {
    hide LE, TakeInt, TakeFields, PrintFields, CompileLayout, SpecFits, ValidFields, Pow256, Plains;
    PowersOf256();
    FieldsTaken(fields, 0, []);
    assert fields[0..] == fields && fields[..0] == [] && PrintFields(fields) + [] == PrintFields(fields);
    NoPlains();
    IntTaken(version, 8, LE(|fields|, 4) + PrintFields(fields));
    IntTaken(|fields|, 4, PrintFields(fields));
  }

  /**
   * Exactly what reading a schema section back gives: the layout compiled without the defaults, if its fingerprint is
   * still the written one.
   */
  lemma {:induction false} SchemaSection(version: u64, active: seq<FieldSpec>)
    requires ValidFields(active) && |active| < TWO_32 && forall i :: 0 <= i < |active| ==> SpecFits(active[i])
    ensures var l := CompileLayout(version, active);
      var plain := CompileLayout(version, Plains(SortBy(FieldIdOf, active)));
      ParseSchema(PrintSchema(l), version, l.fingerprint)
        == if plain.fingerprint == l.fingerprint then Ok(plain) else Err(FailedPrecondition)
  {
    hide LE, PrintFields, CompileLayout, SpecFits, ValidFields, SpecsOf, Plains, ParseSchema;
    var l, sorted := CompileLayout(version, active), SortBy(FieldIdOf, active);
    CompiledSpecs(version, active);
    CompiledHeader(version, active);
    SpecFitsPermuted(active);
    PlainsPrintTheSame(sorted);
    PrintedFieldsParse(version, sorted, l.fingerprint);
    assert PrintSchema(l) == LE(version, 8) + (LE(|sorted|, 4) + PrintFields(sorted));
  }

  lemma {:induction false} NoPlains()
    ensures Plains([]) == []
  {
  }

  lemma {:induction false} CompiledHeader(version: u64, active: seq<FieldSpec>)
    ensures CompileLayout(version, active).schemaVersion == version
    ensures |CompileLayout(version, active).fields| == |SortBy(FieldIdOf, active)|
  {
  }

  /** A layout without defaults survives the file, fingerprint and all. */
  lemma {:induction false} SchemaReadsBack(version: u64, active: seq<FieldSpec>)
    requires ValidFields(active) && |active| < TWO_32
    requires forall i :: 0 <= i < |active| ==> SpecFits(active[i]) && active[i].defaultValue == Null
    ensures var l := CompileLayout(version, active);
      ParseSchema(PrintSchema(l), version, l.fingerprint) == Ok(l)
  {
    hide ParseSchema, PrintSchema, CompileLayout, SpecFits, ValidFields;
    SchemaSection(version, active);
    var sorted := SortBy(FieldIdOf, active);
    forall i | 0 <= i < |sorted|
      ensures Plain(sorted[i]) == sorted[i]
    {
      assert sorted[i] in multiset(active);
    }
    assert Plains(sorted) == sorted;
    InsertionOrderIrrelevant(version, active, sorted);
  }

  ghost predicate NoDefaults(active: seq<FieldSpec>) {
    forall i :: 0 <= i < |active| ==> active[i].defaultValue == Null
  }

  /** A layout keeps the defaults of the fields it was compiled from. */
  lemma {:induction false} CompiledDefaults(version: u64, active: seq<FieldSpec>)
    ensures NoDefaults(active) <==>
      forall i :: 0 <= i < |CompileLayout(version, active).fields| ==>
        CompileLayout(version, active).fields[i].defaultValue == Null
  {
    hide BuildFingerprint, SlotOf, FixedCursor, RefCursor, PresenceBytes;
    var sorted, fields := SortBy(FieldIdOf, active), CompileLayout(version, active).fields;
    assert forall i :: 0 <= i < |fields| ==> fields[i].defaultValue == sorted[i].defaultValue;
    if forall i :: 0 <= i < |fields| ==> fields[i].defaultValue == Null {
      forall i | 0 <= i < |active|
        ensures active[i].defaultValue == Null
      {
        assert active[i] in multiset(sorted);
        var k :| 0 <= k < |sorted| && sorted[k] == active[i];
        assert fields[k].defaultValue == Null;
      }
    }
    forall i | 0 <= i < |fields| && NoDefaults(active)
      ensures fields[i].defaultValue == Null
    {
      assert sorted[i] in multiset(active);
    }
  }

  /** A layout survives the file if and only if none of its fields has a default value. */
  lemma {:induction false} SchemaReadsBackExactly(version: u64, active: seq<FieldSpec>)
    requires ValidFields(active) && |active| < TWO_32 && forall i :: 0 <= i < |active| ==> SpecFits(active[i])
    ensures var l := CompileLayout(version, active);
      ParseSchema(PrintSchema(l), version, l.fingerprint) == Ok(l) <==> NoDefaults(active)
  {
    hide ParseSchema, PrintSchema, CompileLayout, SpecFits, ValidFields;
    if NoDefaults(active) {
      SchemaReadsBack(version, active);
    } else {
      var bare := Plains(SortBy(FieldIdOf, active));
      SchemaSection(version, active);
      CompiledDefaults(version, active);
      CompiledDefaults(version, bare);
      assert NoDefaults(bare);
    }
  }

  method ReadField(reader: ByteReader) returns (r: Result<FieldSpec>)
    requires reader.Valid()
    modifies reader
    ensures reader.Valid() && Took(TakeField(old(reader.Rest())), r, reader.Rest())
    ensures r.Ok? ==> r.get.defaultValue == Null
  {
    hide TakeInt, TakeBytes, Pow256;
    PowersOf256();
    var id := ReadInt(reader, 4);
    if id.Err? {
      return Err(id.code);
    }
    ghost var rest := reader.Rest();
    if reader.Remaining() < 4 {
      return Err(InvalidArgument);
    }
    var marks := reader.ReadBytes(4);
    var name := ReadBytes(reader, 4);
    if name.Err? {
      return Err(name.code);
    }
    r := Ok(FieldSpec(id.get, name.get, TypeOf(marks.get[0]), marks.get[1] != 0, marks.get[2] != 0,
                      EncodingOf(marks.get[3]), Null, false));
  }

  method ParseSchemaSection(s: bytes, version: u64, fingerprint: u64) returns (r: Result<RowLayout>)
    ensures r == ParseSchema(s, version, fingerprint)
  {
    hide TakeInt, TakeField, CompileLayout, PolicyOk;
    var reader := new ByteReader(s);
    var v := ReadInt(reader, 8);
    if v.Err? {
      return Err(v.code);
    }
    if v.get != version {
      return Err(FailedPrecondition);
    }
    var count := ReadInt(reader, 4);
    if count.Err? {
      return Err(count.code);
    }
    ghost var all := reader.Rest();
    var schema := new RuntimeSchema(version);
    for i := 0 to count.get
      invariant reader.Valid() && fresh(reader) && schema.Valid() && fresh(schema) && schema.retired == []
      invariant TakeFields(all, count.get, []) == TakeFields(reader.Rest(), count.get - i, schema.active)
    {
      var field := ReadField(reader);
      if field.Err? {
        return Err(field.code);
      }
      var added := schema.AddField(field.get);
      if added.Err? {
        return Err(added.code);
      }
    }
    if reader.Remaining() != 0 {
      return Err(InvalidArgument);
    }
    var layout := Compile(version, schema.active);
    if layout.fingerprint != fingerprint {
      return Err(FailedPrecondition);
    }
    r := Ok(layout);
  }

  method SerializeSchema(l: RowLayout) returns (r: Result<bytes>)
    requires l.schemaVersion < TWO_64
    ensures r.Ok? <==> |l.fields| < TWO_32 && forall i :: 0 <= i < |l.fields| ==> |l.fields[i].name| < TWO_32
    ensures r == if r.Ok? then Ok(PrintSchema(l)) else Err(InvalidArgument)
  {
    hide LE, PrintFields, PrintBytes, SpecsOf, Pow256;
    PowersOf256();
    if |l.fields| >= TWO_32 {
      return Err(InvalidArgument);
    }
    var grown := LE(l.schemaVersion, 8) + LE(|l.fields|, 4);
    NoFieldsPrinted(grown, l.fields);
    for i := 0 to |l.fields|
      invariant grown == LE(l.schemaVersion, 8) + LE(|l.fields|, 4) + PrintFields(SpecsOf(l.fields[..i]))
      invariant forall k :: 0 <= k < i ==> |l.fields[k].name| < TWO_32
    {
      var field := l.fields[i];
      PrintFieldsAppend(l.fields, i);
      ghost var before := grown;
      grown := grown + LE(field.fieldId, 4) + FieldMarks(SpecOf(field));
      var named := AppendBytes(grown, field.name, 4);
      if named.Err? {
        return Err(named.code);
      }
      grown := named.get;
      assert grown == before + PrintField(SpecOf(field));
      assert grown == LE(l.schemaVersion, 8) + LE(|l.fields|, 4)
        + (PrintFields(SpecsOf(l.fields[..i])) + PrintField(SpecOf(field)));
    }
    assert l.fields[..|l.fields|] == l.fields;
    r := Ok(grown);
  }

  lemma {:induction false} NoFieldsPrinted(s: bytes, fields: seq<FieldLayout>)
    ensures s == s + PrintFields(SpecsOf(fields[..0]))
  {
    assert SpecsOf(fields[..0]) == [];
  }

  lemma {:induction false} PrintFieldsAppend(fields: seq<FieldLayout>, i: nat)
    requires i < |fields|
    ensures PrintFields(SpecsOf(fields[..i + 1])) == PrintFields(SpecsOf(fields[..i])) + PrintField(SpecOf(fields[i]))
  {
    hide PrintFields, PrintField;
    assert SpecsOf(fields[..i + 1]) == SpecsOf(fields[..i]) + [SpecOf(fields[i])];
    PrintSpecsAppend(SpecsOf(fields[..i]), SpecOf(fields[i]));
  }

  lemma {:induction false} PrintSpecsAppend(fields: seq<FieldSpec>, f: FieldSpec)
    ensures PrintFields(fields + [f]) == PrintFields(fields) + PrintField(f)
  {
    hide PrintField;
    if fields == [] {
      assert [f][1..] == [] && PrintFields([f]) == PrintField(f) + PrintFields([]);
    } else {
      assert (fields + [f])[1..] == fields[1..] + [f];
      PrintSpecsAppend(fields[1..], f);
      assert PrintField(fields[0]) + (PrintFields(fields[1..]) + PrintField(f))
          == PrintField(fields[0]) + PrintFields(fields[1..]) + PrintField(f);
    }
  }
}
