/** Runtime schemas and their compiled row layouts, src/model/schema.cc. */
module Schema {
  import opened Basics
  import opened ByteIO
  import opened Values
  import opened Sorting
  import Fnv

  datatype FieldEncoding =
    | Fixed | Arena | Dictionary | ListDictionary | ElementDictionary | OtherEncoding(code: byte)

  function EncodingCode(e: FieldEncoding): byte {
    match e
    case Fixed => 1 case Arena => 2 case Dictionary => 3 case ListDictionary => 4 case ElementDictionary => 5
    case OtherEncoding(code) => code
  }

  function EncodingOf(code: byte): FieldEncoding {
    if code == 1 then Fixed else if code == 2 then Arena else if code == 3 then Dictionary
    else if code == 4 then ListDictionary else if code == 5 then ElementDictionary
    else OtherEncoding(code)
  }

  /** defaultValue Null is the empty variant: no default. */
  datatype FieldSpec = FieldSpec(
    fieldId: u32, name: bytes, ftype: FieldType, isList: bool, nullable: bool,
    encoding: FieldEncoding, defaultValue: Value, deleted: bool)

  datatype FieldLayout = FieldLayout(
    fieldId: u32, name: bytes, ftype: FieldType, isList: bool, nullable: bool,
    encoding: FieldEncoding, defaultValue: Value,
    presenceBit: nat, slotOffset: nat, valueWidth: nat, usesRef: bool)

  datatype RowLayout = RowLayout(
    schemaVersion: u64, fingerprint: u64, presenceBytes: nat, fixedOffset: nat, refOffset: nat,
    rowSlotSize: nat, fields: seq<FieldLayout>)
  {
    function FindField(id: u32): Option<FieldLayout> {
      FindLayout(fields, id)
    }
  }

  function FindLayout(fields: seq<FieldLayout>, id: u32): (r: Option<FieldLayout>)
    ensures r.Some? ==> r.value in fields && r.value.fieldId == id
  {
    if fields == [] then None
    else if fields[0].fieldId == id then Some(fields[0])
    else FindLayout(fields[1..], id)
  }

  lemma {:induction false} FindLayoutFinds(fields: seq<FieldLayout>, i: nat)
    requires i < |fields|
    requires forall a, b :: 0 <= a < b < |fields| ==> fields[a].fieldId != fields[b].fieldId
    ensures FindLayout(fields, fields[i].fieldId) == Some(fields[i])
  {
    if i > 0 {
      assert fields[0].fieldId != fields[i].fieldId;
      FindLayoutFinds(fields[1..], i - 1);
    }
  }

  lemma {:induction false} FindLayoutMisses(fields: seq<FieldLayout>, id: u32)
    requires FindLayout(fields, id).None?
    ensures forall f :: f in fields ==> f.fieldId != id
  {
    if fields != [] {
      FindLayoutMisses(fields[1..], id);
    }
  }

  /** The default is of the field's own type and shape, or absent. */
  predicate DefaultMatches(f: FieldSpec) {
    match f.defaultValue
    case Null => true
    case Num(t, _) => !f.isList && Numeric(f.ftype) && t == f.ftype
    case Str(_) => !f.isList && f.ftype.String?
    case NumList(t, _) => f.isList && Numeric(f.ftype) && t == f.ftype
    case StrList(_) => f.isList && f.ftype.String?
  }

  predicate EncodingMatches(ftype: FieldType, isList: bool, encoding: FieldEncoding) {
    if isList then encoding.Arena? || encoding.ListDictionary? || (encoding.ElementDictionary? && ftype.String?)
    else if ftype.String? then encoding.Arena? || encoding.Dictionary?
    else encoding.Fixed?
  }

  /** ValidateEncodingPolicy. */
  predicate PolicyOk(f: FieldSpec) {
    f.name != [] && !f.deleted && DefaultMatches(f) && EncodingMatches(f.ftype, f.isList, f.encoding)
  }

  function FieldIdOf(f: FieldSpec): int {
    f.fieldId
  }

  predicate HasId(fields: seq<FieldSpec>, id: u32) {
    exists i :: 0 <= i < |fields| && fields[i].fieldId == id
  }

  ghost predicate ValidFields(active: seq<FieldSpec>) {
    DistinctBy(FieldIdOf, active)
    && forall i :: 0 <= i < |active| ==> PolicyOk(active[i]) && IsValue(active[i].defaultValue)
  }

  class RuntimeSchema {
    const version: u64
    var active: seq<FieldSpec>
    var retired: seq<FieldSpec>

    /** Field ids are never reused, and every active field passed the encoding policy. */
    ghost predicate Valid()
      reads this
    {
      && ValidFields(active)
      && (forall i, j :: 0 <= i < |active| && 0 <= j < |retired| ==> active[i].fieldId != retired[j].fieldId)
    }

    constructor (version: u64)
      ensures Valid() && this.version == version && active == [] && retired == []
    {
      this.version := version;
      active, retired := [], [];
    }

    method AddField(field: FieldSpec) returns (r: Result<()>)
      requires Valid() && IsValue(field.defaultValue)
      modifies this
      ensures Valid() && retired == old(retired)
      ensures r
        == if HasId(old(active), field.fieldId) || HasId(old(retired), field.fieldId) then Err(FailedPrecondition)
                   else if !PolicyOk(field) then Err(InvalidArgument)
                   else Ok(())
      ensures active == if r.Ok? then old(active) + [field] else old(active)
    {
      if HasId(active, field.fieldId) || HasId(retired, field.fieldId) {
        return Err(FailedPrecondition);
      }
      if !PolicyOk(field) {
        return Err(InvalidArgument);
      }
      active := active + [field];
      r := Ok(());
    }

    method DeleteField(id: u32) returns (r: Result<()>)
      requires Valid()
      modifies this
      ensures Valid()
      ensures r == if HasId(old(active), id) then Ok(()) else Err(NotFound)
      ensures r.Err? ==> active == old(active) && retired == old(retired)
      ensures r.Ok? ==>
        exists i :: 0 <= i < |old(active)| && old(active)[i].fieldId == id &&
                    active == old(active)[..i] + old(active)[i + 1..] &&
                    retired == old(retired) + [old(active)[i].(deleted := true)]
    {
      for i := 0 to |active|
        invariant forall k :: 0 <= k < i ==> active[k].fieldId != id
        invariant active == old(active) && retired == old(retired)
      {
        if active[i].fieldId == id {
          retired := retired + [active[i].(deleted := true)];
          active := active[..i] + active[i + 1..];
          assert forall k :: 0 <= k < |active| ==> active[k] == old(active)[if k < i then k else k + 1];
          return Ok(());
        }
      }
      r := Err(NotFound);
    }
  }

  // ---- Fingerprint -------------------------------------------------------------------------------

  function U64(n: int): bytes {
    LE(n % TWO_64, 8)
  }

  function Flag(b: bool): bytes {
    [if b then 1 else 0]
  }

  function StringPrint(s: bytes): bytes {
    U64(|s|) + s
  }

  function NumPrint(t: FieldType, n: int): bytes {
    if t.Bool? then Flag(n == 1) else U64(n)
  }

  function NumsPrint(t: FieldType, ns: seq<int>): bytes {
    if ns == [] then [] else NumPrint(t, ns[0]) + NumsPrint(t, ns[1..])
  }

  function StringsPrint(ss: seq<bytes>): bytes {
    if ss == [] then [] else StringPrint(ss[0]) + StringsPrint(ss[1..])
  }

  /** The variant's index, then the value's own bytes. */
  function DefaultPrint(v: Value): bytes {
    match v
    case Null => U64(0)
    case Num(t, n) => U64(TypeCode(t)) + NumPrint(t, n)
    case Str(s) => U64(6) + StringPrint(s)
    case NumList(t, ns) => U64(6 + TypeCode(t)) + U64(|ns|) + NumsPrint(t, ns)
    case StrList(ss) => U64(12) + U64(|ss|) + StringsPrint(ss)
  }

  function FieldPrint(f: FieldLayout): bytes {
    U64(f.fieldId) + StringPrint(f.name) + U64(TypeCode(f.ftype)) + Flag(f.isList) + Flag(f.nullable)
    + U64(EncodingCode(f.encoding)) + DefaultPrint(f.defaultValue)
    + U64(f.presenceBit) + U64(f.slotOffset) + U64(f.valueWidth) + Flag(f.usesRef)
  }

  function FieldsPrint(fields: seq<FieldLayout>): bytes {
    if fields == [] then [] else FieldPrint(fields[0]) + FieldsPrint(fields[1..])
  }

  /** "kv_index_row_layout_v1" */
  const LAYOUT_TAG: bytes :=
    [107, 118, 95, 105, 110, 100, 101, 120, 95, 114, 111, 119, 95, 108, 97, 121, 111, 117, 116, 95, 118, 49]

  function BuildFingerprint(l: RowLayout): u64 {
    Fnv.Fnv1a64(StringPrint(LAYOUT_TAG) + U64(l.schemaVersion) + U64(l.presenceBytes) + U64(l.fixedOffset)
                + U64(l.refOffset) + U64(l.rowSlotSize) + U64(|l.fields|) + FieldsPrint(l.fields))
  }

  // ---- Compiled layouts --------------------------------------------------------------------------

  predicate IsRefField(f: FieldSpec) {
    f.isList || f.ftype.String?
  }

  function Width(f: FieldSpec): nat {
    if IsRefField(f) then 16 else FieldTypeSize(f.ftype)
  }

  function PresenceBytes(n: nat): (r: nat)
    ensures n <= 8 * r && r % 8 == 0
  {
    AlignUp((n + 7) / 8, 8)
  }

  /** AlignUp(cursor, FieldTypeAlignment(t)), with the three possible alignments spelled out. */
  function AlignFor(cursor: nat, t: FieldType): (r: nat)
    ensures r >= cursor && Aligned(r, t)
  {
    var a := FieldTypeAlignment(t);
    if a == 8 then AlignUp(cursor, 8) else if a == 4 then AlignUp(cursor, 4) else cursor
  }

  predicate Aligned(offset: nat, t: FieldType) {
    var a := FieldTypeAlignment(t);
    if a == 8 then offset % 8 == 0 else if a == 4 then offset % 4 == 0 else true
  }

  /** The fixed-area cursor after the fields before i; reference fields do not move it. */
  function FixedCursor(fields: seq<FieldSpec>, i: nat): (c: nat)
    requires i <= |fields|
    ensures c >= PresenceBytes(|fields|)
    decreases i
  {
    if i == 0 then PresenceBytes(|fields|)
    else
      var c := FixedCursor(fields, i - 1);
      if IsRefField(fields[i - 1]) then c
      else AlignFor(c, fields[i - 1].ftype) + Width(fields[i - 1])
  }

  function RefOffset(fields: seq<FieldSpec>): (r: nat)
    ensures r % 8 == 0 && r >= FixedCursor(fields, |fields|)
  {
    AlignUp(FixedCursor(fields, |fields|), 8)
  }

  /** The reference-area cursor after the fields before i, in an area starting at `start`. */
  function RefCursorFrom(start: nat, fields: seq<FieldSpec>, i: nat): (c: nat)
    requires i <= |fields|
    ensures c >= start && (start % 8 == 0 ==> c % 8 == 0)
    decreases i
  {
    if i == 0 then start
    else RefCursorFrom(start, fields, i - 1) + (if IsRefField(fields[i - 1]) then 16 else 0)
  }

  function RefCursor(fields: seq<FieldSpec>, i: nat): (c: nat)
    requires i <= |fields|
    ensures c >= RefOffset(fields) && c % 8 == 0
  {
    RefCursorFrom(RefOffset(fields), fields, i)
  }

  function SlotOf(fields: seq<FieldSpec>, i: nat): nat
    requires i < |fields|
  {
    if IsRefField(fields[i]) then RefCursor(fields, i)
    else AlignFor(FixedCursor(fields, i), fields[i].ftype)
  }

  function LayoutOf(f: FieldSpec, presenceBit: nat, slot: nat): FieldLayout {
    FieldLayout(f.fieldId, f.name, f.ftype, f.isList, f.nullable, f.encoding, f.defaultValue,
                presenceBit, slot, Width(f), IsRefField(f))
  }

  function FieldLayouts(fields: seq<FieldSpec>): (r: seq<FieldLayout>)
    ensures |r| == |fields|
  {
    seq(|fields|, i requires 0 <= i < |fields| => LayoutOf(fields[i], i, SlotOf(fields, i)))
  }

  /** The layout of fields already in id order. */
  function LayoutSorted(version: u64, fields: seq<FieldSpec>): RowLayout {
    var l := RowLayout(version, 0, PresenceBytes(|fields|), PresenceBytes(|fields|), RefOffset(fields),
                       AlignUp(RefCursor(fields, |fields|), 8), FieldLayouts(fields));
    l.(fingerprint := BuildFingerprint(l))
  }

  function CompileLayout(version: u64, active: seq<FieldSpec>): RowLayout {
    LayoutSorted(version, SortBy(FieldIdOf, active))
  }

  /** Field k once the fixed fields before i, and the reference fields before j, have their slots. */
  function Staged(sorted: seq<FieldSpec>, k: nat, i: nat, j: nat): FieldLayout
    requires k < |sorted|
  {
    LayoutOf(sorted[k], k, if k < (if IsRefField(sorted[k]) then j else i) then SlotOf(sorted, k) else 0)
  }

  ghost predicate AtStage(sorted: seq<FieldSpec>, fields: seq<FieldLayout>, i: nat, j: nat) {
    |fields| == |sorted| && forall k :: 0 <= k < |sorted| ==> fields[k] == Staged(sorted, k, i, j)
  }

  lemma {:induction false} FixedStep(sorted: seq<FieldSpec>, fields: seq<FieldLayout>, i: nat)
    requires i < |sorted| && AtStage(sorted, fields, i, 0)
    ensures IsRefField(sorted[i]) ==>
      AtStage(sorted, fields, i + 1, 0) && FixedCursor(sorted, i + 1) == FixedCursor(sorted, i)
    ensures !IsRefField(sorted[i]) ==>
      var slot := AlignFor(FixedCursor(sorted, i), sorted[i].ftype);
      AtStage(sorted, fields[i := fields[i].(slotOffset := slot)], i + 1, 0)
      && FixedCursor(sorted, i + 1) == slot + Width(sorted[i])
  {
    assert fields[i] == Staged(sorted, i, i, 0);
  }

  lemma {:induction false} RefStep(sorted: seq<FieldSpec>, fields: seq<FieldLayout>, i: nat)
    requires i < |sorted| && AtStage(sorted, fields, |sorted|, i)
    ensures !IsRefField(sorted[i]) ==>
      AtStage(sorted, fields, |sorted|, i + 1) && RefCursor(sorted, i + 1) == RefCursor(sorted, i)
    ensures IsRefField(sorted[i]) ==>
      AtStage(sorted, fields[i := fields[i].(slotOffset := RefCursor(sorted, i))], |sorted|, i + 1)
      && RefCursor(sorted, i + 1) == RefCursor(sorted, i) + 16
  {
    assert fields[i] == Staged(sorted, i, |sorted|, i);
  }

  /** The second pass of Compile: slots of fixed-width fields, in id order. */
  method PlaceFixed(sorted: seq<FieldSpec>, unplaced: seq<FieldLayout>, start: nat)
    returns (fields: seq<FieldLayout>, cursor: nat)
    requires AtStage(sorted, unplaced, 0, 0) && start == FixedCursor(sorted, 0)
    ensures AtStage(sorted, fields, |sorted|, 0) && cursor == FixedCursor(sorted, |sorted|)
  {
    fields, cursor := unplaced, start;
    for i := 0 to |sorted|
      invariant AtStage(sorted, fields, i, 0) && cursor == FixedCursor(sorted, i)
    {
      FixedStep(sorted, fields, i);
      assert fields[i] == Staged(sorted, i, i, 0);
      if !fields[i].usesRef {
        cursor := AlignFor(cursor, fields[i].ftype);
        fields := fields[i := fields[i].(slotOffset := cursor)];
        cursor := cursor + fields[i].valueWidth;
      }
    }
  }

  /** The third pass: 16-byte reference slots, in id order. */
  method PlaceRefs(sorted: seq<FieldSpec>, placed: seq<FieldLayout>, start: nat)
    returns (fields: seq<FieldLayout>, cursor: nat)
    requires AtStage(sorted, placed, |sorted|, 0) && start == RefCursor(sorted, 0)
    ensures AtStage(sorted, fields, |sorted|, |sorted|) && cursor == RefCursor(sorted, |sorted|)
  {
    fields, cursor := placed, start;
    for i := 0 to |sorted|
      invariant AtStage(sorted, fields, |sorted|, i) && cursor == RefCursor(sorted, i)
    {
      RefStep(sorted, fields, i);
      assert fields[i] == Staged(sorted, i, |sorted|, i);
      if fields[i].usesRef {
        fields := fields[i := fields[i].(slotOffset := cursor)];
        cursor := cursor + 16;
      }
    }
  }

  /** CompiledRowLayout::Compile: number the fields, then place fixed slots, then reference slots. */
  method Compile(version: u64, active: seq<FieldSpec>) returns (layout: RowLayout)
    ensures layout == CompileLayout(version, active)
  {
    var sorted := SortBy(FieldIdOf, active);
    var presenceBytes := PresenceBytes(|sorted|);
    var fields: seq<FieldLayout> := [];
    for i := 0 to |sorted|
      invariant |fields| == i
      invariant forall k :: 0 <= k < i ==> fields[k] == Staged(sorted, k, 0, 0)
    {
      fields := fields + [LayoutOf(sorted[i], i, 0)];
    }
    var fixedCursor, refCursor;
    fields, fixedCursor := PlaceFixed(sorted, fields, presenceBytes);
    var refOffset := AlignUp(fixedCursor, 8);
    fields, refCursor := PlaceRefs(sorted, fields, refOffset);
    assert fields == FieldLayouts(sorted);
    layout := RowLayout(version, 0, presenceBytes, presenceBytes, refOffset, AlignUp(refCursor, 8), fields);
    layout := layout.(fingerprint := BuildFingerprint(layout));
  }

  // ---- What every compiled layout guarantees -----------------------------------------------------

  predicate Disjoint(f: FieldLayout, g: FieldLayout) {
    f.slotOffset + f.valueWidth <= g.slotOffset || g.slotOffset + g.valueWidth <= f.slotOffset
  }

  ghost predicate FieldFits(l: RowLayout, f: FieldLayout) {
    && f.presenceBit < 8 * l.presenceBytes
    && l.presenceBytes <= f.slotOffset && f.slotOffset + f.valueWidth <= l.rowSlotSize
    && (if f.usesRef then f.slotOffset % 8 == 0 else Aligned(f.slotOffset, f.ftype))
    && f.usesRef == (f.isList || f.ftype.String?)
    && f.valueWidth == (if f.usesRef then 16 else FieldTypeSize(f.ftype))
    && EncodingMatches(f.ftype, f.isList, f.encoding)
  }

  /** Presence bits inside the bitmap; slots aligned, in bounds, off the bitmap and pairwise disjoint. */
  ghost predicate WellFormed(l: RowLayout) {
    && (forall i :: 0 <= i < |l.fields| ==> FieldFits(l, l.fields[i]))
    && (forall i, j :: 0 <= i < j < |l.fields| ==>
          && Disjoint(l.fields[i], l.fields[j])
          && l.fields[i].presenceBit != l.fields[j].presenceBit
          && l.fields[i].fieldId != l.fields[j].fieldId)
    && l.fixedOffset == l.presenceBytes <= l.refOffset <= l.rowSlotSize
    && l.presenceBytes % 8 == 0 && l.refOffset % 8 == 0 && l.rowSlotSize % 8 == 0
  }

  lemma {:induction false} CursorsGrow(fields: seq<FieldSpec>, i: nat, j: nat)
    requires i <= j <= |fields|
    ensures FixedCursor(fields, i) <= FixedCursor(fields, j)
    ensures RefCursor(fields, i) <= RefCursor(fields, j)
    decreases j - i
  {
    if i < j {
      CursorsGrow(fields, i, j - 1);
    }
  }

  /** Field i ends where the cursor after it starts, in its own area. */
  lemma {:induction false} SlotBounds(fields: seq<FieldSpec>, i: nat)
    requires i < |fields|
    ensures PresenceBytes(|fields|) <= SlotOf(fields, i)
    ensures !IsRefField(fields[i]) ==>
      && FixedCursor(fields, i) <= SlotOf(fields, i)
      && SlotOf(fields, i) + Width(fields[i]) == FixedCursor(fields, i + 1) <= RefOffset(fields)
    ensures IsRefField(fields[i]) ==>
      && RefOffset(fields) <= RefCursor(fields, i) == SlotOf(fields, i)
      && SlotOf(fields, i) + 16 == RefCursor(fields, i + 1)
    ensures RefCursor(fields, i + 1) <= RefCursor(fields, |fields|)
  {
    CursorsGrow(fields, i + 1, |fields|);
    CursorsGrow(fields, 0, i);
  }

  lemma {:induction false} SlotsDisjoint(fields: seq<FieldSpec>, i: nat, j: nat)
    requires i < j < |fields|
    ensures SlotOf(fields, i) + Width(fields[i]) <= SlotOf(fields, j)
         || SlotOf(fields, j) + Width(fields[j]) <= SlotOf(fields, i)
  {
    SlotBounds(fields, i);
    SlotBounds(fields, j);
    CursorsGrow(fields, i + 1, j);
    var si, sj := SlotOf(fields, i), SlotOf(fields, j);
    if IsRefField(fields[i]) {
      if IsRefField(fields[j]) {
        assert si + 16 <= RefCursor(fields, j) == sj;
      } else {
        assert sj + Width(fields[j]) <= RefOffset(fields) <= si;
      }
    } else {
      if IsRefField(fields[j]) {
        assert si + Width(fields[i]) <= RefOffset(fields) <= sj;
      } else {
        assert si + Width(fields[i]) <= FixedCursor(fields, j) <= sj;
      }
    }
  }

  lemma {:induction false} SortedWellFormed(version: u64, fields: seq<FieldSpec>)
    requires ValidFields(fields)
    ensures WellFormed(LayoutSorted(version, fields))
  {
    var l := LayoutSorted(version, fields);
    forall i | 0 <= i < |fields|
      ensures FieldFits(l, l.fields[i])
    {
      SlotBounds(fields, i);
      assert PolicyOk(fields[i]);
    }
    forall i, j | 0 <= i < j < |fields|
      ensures Disjoint(l.fields[i], l.fields[j]) && l.fields[i].fieldId != l.fields[j].fieldId
    {
      SlotsDisjoint(fields, i, j);
      assert FieldIdOf(fields[i]) != FieldIdOf(fields[j]);
    }
    CursorsGrow(fields, 0, |fields|);
  }

  lemma {:induction false} ValidFieldsPermuted(active: seq<FieldSpec>, fields: seq<FieldSpec>)
    requires ValidFields(active) && multiset(active) == multiset(fields)
    ensures ValidFields(fields)
  {
    DistinctPermuted(FieldIdOf, active, fields);
    forall i | 0 <= i < |fields|
      ensures PolicyOk(fields[i]) && IsValue(fields[i].defaultValue)
    {
      assert fields[i] in multiset(active);
    }
  }

  /** Every schema that AddField and DeleteField can build compiles to a well-formed layout. */
  lemma {:induction false} CompiledIsWellFormed(version: u64, active: seq<FieldSpec>)
    requires ValidFields(active)
    ensures WellFormed(CompileLayout(version, active))
  {
    ValidFieldsPermuted(active, SortBy(FieldIdOf, active));
    SortedWellFormed(version, SortBy(FieldIdOf, active));
  }

  /** A compiled layout has the fields of the schema by ascending id, each with all that its spec says. */
  lemma {:induction false} CompiledKeepsSpecs(version: u64, active: seq<FieldSpec>, i: nat)
    requires ValidFields(active) && i < |active|
    ensures var l, f := CompileLayout(version, active), active[i];
      && l.schemaVersion == version && |l.fields| == |active|
      && (forall j, k :: 0 <= j < k < |l.fields| ==> l.fields[j].fieldId < l.fields[k].fieldId)
      && match l.FindField(f.fieldId)
         case None => false
         case Some(g) =>
           && g.fieldId == f.fieldId && g.name == f.name && g.ftype == f.ftype && g.isList == f.isList
           && g.nullable == f.nullable && g.encoding == f.encoding && g.defaultValue == f.defaultValue
  {
    hide SlotOf, PolicyOk, BuildFingerprint;
    var sorted, l := SortBy(FieldIdOf, active), CompileLayout(version, active);
    SortBySorted(FieldIdOf, active);
    ValidFieldsPermuted(active, sorted);
    assert |sorted| == |multiset(sorted)| == |multiset(active)| == |active|;
    forall j, k | 0 <= j < k < |l.fields|
      ensures l.fields[j].fieldId < l.fields[k].fieldId
    {
      assert FieldIdOf(sorted[j]) <= FieldIdOf(sorted[k]) && FieldIdOf(sorted[j]) != FieldIdOf(sorted[k]);
    }
    assert active[i] in multiset(sorted);
    var j :| 0 <= j < |sorted| && sorted[j] == active[i];
    FindLayoutFinds(l.fields, j);
  }

  // ---- No slot is wasted -------------------------------------------------------------------------

  /** e is where the bitmap ends, or a fixed slot of a field before i. */
  ghost predicate EndsBefore(l: RowLayout, i: nat, e: int)
    requires i <= |l.fields|
  {
    e == l.presenceBytes || exists j :: 0 <= j < i && FixedEnd(l.fields[j], e)
  }

  predicate FixedEnd(f: FieldLayout, e: int) {
    !f.usesRef && e == f.slotOffset + f.valueWidth
  }

  function RefsBefore(fields: seq<FieldLayout>, i: nat): nat
    requires i <= |fields|
    decreases i
  {
    if i == 0 then 0 else RefsBefore(fields, i - 1) + (if fields[i - 1].usesRef then 1 else 0)
  }

  lemma {:induction false} FieldAt(version: u64, fields: seq<FieldSpec>, i: nat)
    requires i < |fields|
    ensures var l := LayoutSorted(version, fields);
      && |l.fields| == |fields| && l.presenceBytes == PresenceBytes(|fields|) && l.refOffset == RefOffset(fields)
      && l.fields[i] == LayoutOf(fields[i], i, SlotOf(fields, i))
  {
    hide BuildFingerprint, SlotOf;
  }

  lemma {:induction false} CursorEnds(version: u64, fields: seq<FieldSpec>, i: nat)
    requires i <= |fields|
    ensures EndsBefore(LayoutSorted(version, fields), i, FixedCursor(fields, i))
    ensures RefCursor(fields, i) == RefOffset(fields) + 16 * RefsBefore(LayoutSorted(version, fields).fields, i)
    decreases i
  {
    hide LayoutSorted, RefOffset;
    if i > 0 {
      var l := LayoutSorted(version, fields);
      FieldAt(version, fields, i - 1);
      CursorEnds(version, fields, i - 1);
      SlotBounds(fields, i - 1);
      var e := FixedCursor(fields, i);
      assert IsRefField(fields[i - 1]) || FixedEnd(l.fields[i - 1], e);
    } else {
      NoFieldYet(version, fields);
    }
  }

  lemma {:induction false} NoFieldYet(version: u64, fields: seq<FieldSpec>)
    ensures |LayoutSorted(version, fields).fields| == |fields|
    ensures LayoutSorted(version, fields).presenceBytes == FixedCursor(fields, 0)
  {
    hide BuildFingerprint;
  }

  /** Field i has the first place that its alignment leaves it behind the fixed slots, or the next reference slot. */
  ghost predicate Placed(l: RowLayout, i: nat)
    requires i < |l.fields|
  {
    var f := l.fields[i];
    if f.usesRef then f.slotOffset == l.refOffset + 16 * RefsBefore(l.fields, i)
    else exists e :: EndsBefore(l, i, e) && e <= f.slotOffset < e + FieldTypeAlignment(f.ftype)
  }

  /** The layout is tight: each area starts, and each slot is placed, as soon as alignment allows. */
  ghost predicate Tight(l: RowLayout) {
    && 8 * l.presenceBytes < |l.fields| + 72
    && (forall i :: 0 <= i < |l.fields| ==> Placed(l, i))
    && (exists e :: EndsBefore(l, |l.fields|, e) && e <= l.refOffset < e + 8)
    && l.rowSlotSize == l.refOffset + 16 * RefsBefore(l.fields, |l.fields|)
  }

  lemma {:induction false} SortedIsTight(version: u64, fields: seq<FieldSpec>)
    ensures Tight(LayoutSorted(version, fields))
  {
    hide BuildFingerprint, EndsBefore, RefsBefore, FixedCursor, RefCursor;
    var l := LayoutSorted(version, fields);
    forall i | 0 <= i < |fields|
      ensures Placed(l, i)
    {
      CursorEnds(version, fields, i);
      assert !IsRefField(fields[i]) ==> EndsBefore(l, i, FixedCursor(fields, i));
    }
    CursorEnds(version, fields, |fields|);
    assert EndsBefore(l, |fields|, FixedCursor(fields, |fields|));
  }

  lemma {:induction false} CompiledIsTight(version: u64, active: seq<FieldSpec>)
    ensures Tight(CompileLayout(version, active))
  {
    SortedIsTight(version, SortBy(FieldIdOf, active));
  }

  /** The layout, fingerprint included, does not depend on the order the fields were added in. */
  lemma {:induction false} InsertionOrderIrrelevant(version: u64, active: seq<FieldSpec>, other: seq<FieldSpec>)
    requires ValidFields(active) && multiset(active) == multiset(other)
    ensures CompileLayout(version, active) == CompileLayout(version, other)
  {
    DistinctPermuted(FieldIdOf, active, SortBy(FieldIdOf, active));
    SortBySorted(FieldIdOf, active);
    SortBySorted(FieldIdOf, other);
    SortedUnique(FieldIdOf, SortBy(FieldIdOf, active), SortBy(FieldIdOf, other));
  }
}
