/** When EncodeForLayout succeeds, src/model/row_encoder.cc: the conditions in terms of the payload and the layout. */
module RowAcceptance {
  import opened Basics
  import opened ByteIO
  import opened Values
  import opened Schema
  import opened RowStorage
  import opened RowCodec

  /** The field takes the value: same type and shape, and the table of an arena string list has a 32-bit size. */
  predicate Storable(f: FieldLayout, v: Value) {
    match v
    case Null => false
    case Num(t, _) => !f.isList && f.ftype == t
    case Str(_) => !f.isList && f.ftype.String?
    case NumList(t, _) => f.isList && f.ftype == t
    case StrList(ss) => f.isList && f.ftype.String? && (f.encoding.Arena? ==> 16 * |ss| < TWO_32)
  }

  /** Arena bytes that the value takes up in the field's encoding. */
  function ArenaBytes(f: FieldLayout, v: Value): nat {
    match v
    case Str(s) => if f.encoding.Arena? then |s| else 0
    case NumList(t, ns) => if f.encoding.Arena? then ListSize(t, |ns|) else 0
    case StrList(ss) =>
      if f.encoding.Arena? then 16 * |ss| + |Concat(ss)| else if f.encoding.ElementDictionary? then 4 * |ss| else 0
    case _ => 0
  }

  function ListSize(t: FieldType, n: nat): nat {
    n * FieldTypeSize(t)
  }

  /** Element dictionary entries that the value takes up. */
  function ElementCount(f: FieldLayout, v: Value): nat {
    if v.StrList? && f.encoding.ElementDictionary? then |v.ss| else 0
  }

  ghost function ArenaNeed(l: RowLayout, fields: seq<Field>): nat {
    if fields == [] then 0
    else
      var f := l.FindField(fields[0].id);
      (if f.Some? then ArenaBytes(f.value, fields[0].value) else 0) + ArenaNeed(l, fields[1..])
  }

  ghost function ElementNeed(l: RowLayout, fields: seq<Field>): nat {
    if fields == [] then 0
    else
      var f := l.FindField(fields[0].id);
      (if f.Some? then ElementCount(f.value, fields[0].value) else 0) + ElementNeed(l, fields[1..])
  }

  /** Every payload value whose id the layout has is one that its field takes. */
  ghost predicate AllStorable(l: RowLayout, fields: seq<Field>) {
    forall i :: 0 <= i < |fields| ==> StorableIn(l, fields[i])
  }

  predicate StorableIn(l: RowLayout, field: Field) {
    match l.FindField(field.id)
    case None => true
    case Some(f) => Storable(f, field.value)
  }

  /** Dictionary ids left for n more values. */
  ghost predicate PoolsFit(row: EncodedRow, n: nat) {
    && |row.arena| < TWO_63 && |row.elements| <= TWO_32
    && |row.strings| + n <= TWO_32 && |row.scalarLists| + n <= TWO_32 && |row.stringLists| + n <= TWO_32
  }

  /** What writing v to f makes of the pools, or that it fails. */
  ghost predicate Outcome(f: FieldLayout, v: Value, row: EncodedRow, n: nat, r: Result<EncodedRow>) {
    && (r.Ok? <==>
          && Storable(f, v)
          && |row.arena| + ArenaBytes(f, v) < TWO_63 && |row.elements| + ElementCount(f, v) <= TWO_32)
    && (r.Ok? ==>
          && |r.get.arena| == |row.arena| + ArenaBytes(f, v)
          && |r.get.elements| == |row.elements| + ElementCount(f, v)
          && PoolsFit(r.get, n))
  }

  lemma {:induction false} RefWrites(l: RowLayout, f: FieldLayout, ref: ValueRef16, row: EncodedRow)
    requires FieldFits(l, f) && f.usesRef && Sized(l, row)
    ensures WriteRef(f, ref, row).Ok?
    ensures var row' := WriteRef(f, ref, row).get;
      && row'.arena == row.arena && row'.strings == row.strings && row'.scalarLists == row.scalarLists
      && row'.stringLists == row.stringLists && row'.elements == row.elements
  {
    RefReadsBack(l, f, ref, row);
  }

  lemma {:induction false} NumberWrites(l: RowLayout, f: FieldLayout, t: FieldType, k: int, row: EncodedRow, n: nat)
    requires FieldFits(l, f) && Sized(l, row) && IsValue(Num(t, k)) && PoolsFit(row, n + 1)
    ensures Outcome(f, Num(t, k), row, n, WriteField(f, Num(t, k), row))
  {
    if !f.isList && f.ftype == t {
      SlotWritten(l, f, NumBytes(t, k), row);
    }
  }

  lemma {:induction false} StringWrites(l: RowLayout, f: FieldLayout, s: bytes, row: EncodedRow, n: nat)
    requires FieldFits(l, f) && Sized(l, row) && |s| < TWO_32 && PoolsFit(row, n + 1)
    ensures Outcome(f, Str(s), row, n, WriteField(f, Str(s), row))
  {
    hide WriteRef;
    if !f.isList && f.ftype.String? {
      if f.encoding.Arena? {
        RefWrites(l, f, ValueRef16(|row.arena|, |s|, 0), row.(arena := row.arena + s));
      } else {
        RefWrites(l, f, ValueRef16(|row.strings|, 0, 0), row.(strings := row.strings + [s]));
      }
    }
  }

  lemma {:induction false} NumbersWrite(
      l: RowLayout, f: FieldLayout, t: FieldType, ns: seq<int>, row: EncodedRow, n: nat)
    requires FieldFits(l, f) && Sized(l, row) && IsValue(NumList(t, ns)) && WireLength(NumList(t, ns)) < TWO_32
    requires PoolsFit(row, n + 1)
    ensures Outcome(f, NumList(t, ns), row, n, WriteField(f, NumList(t, ns), row))
  {
    hide WriteRef, ListBytes;
    CastsKeep(t, ns);
    var payload := ListBytes(t, ns);
    if f.isList && f.ftype == t {
      if f.encoding.Arena? {
        var grown := row.(arena := row.arena + payload);
        RefWrites(l, f, ValueRef16(|row.arena|, Low32(|payload|), Low32(|ns|)), grown);
      } else {
        RefWrites(l, f, ValueRef16(|row.scalarLists|, 0, |ns|), row.(scalarLists := row.scalarLists + [payload]));
      }
    }
  }

  lemma {:induction false} StringsWrite(l: RowLayout, f: FieldLayout, ss: seq<bytes>, row: EncodedRow, n: nat)
    requires FieldFits(l, f) && Sized(l, row) && WireLength(StrList(ss)) < TWO_32 && PoolsFit(row, n + 1)
    ensures Outcome(f, StrList(ss), row, n, WriteField(f, StrList(ss), row))
  {
    hide WriteRef, Concat, StringsLength;
    StringsLengthBounds(ss);
    if f.isList && f.ftype.String? {
      if f.encoding.Arena? {
        RefWrites(l, f, ValueRef16(|row.arena|, Low32(16 * |ss|), |ss|), AddStrings(ss, row));
      } else if f.encoding.ElementDictionary? {
        RefWrites(l, f, ValueRef16(|row.arena|, Low32(4 * |ss|), |ss|), AddElements(ss, row));
      } else {
        RefWrites(l, f, ValueRef16(|row.stringLists|, 0, |ss|), row.(stringLists := row.stringLists + [ss]));
      }
    }
  }

  /** A field is written exactly if it takes the value and the pools have room for it. */
  lemma {:induction false} WritesExactly(l: RowLayout, f: FieldLayout, v: Value, row: EncodedRow, n: nat)
    requires FieldFits(l, f) && Sized(l, row) && IsValue(v) && WireLength(v) < TWO_32 && PoolsFit(row, n + 1)
    ensures Outcome(f, v, row, n, WriteField(f, v, row))
  {
    hide FieldFits, PoolsFit, Outcome, WriteField;
    match v
    case Null => NullRefused(f, row, n);
    case Num(t, k) => NumberWrites(l, f, t, k, row, n);
    case Str(s) => StringWrites(l, f, s, row, n);
    case NumList(t, ns) => NumbersWrite(l, f, t, ns, row, n);
    case StrList(ss) => StringsWrite(l, f, ss, row, n);
  }

  lemma {:induction false} NullRefused(f: FieldLayout, row: EncodedRow, n: nat)
    ensures Outcome(f, Null, row, n, WriteField(f, Null, row))
  {
  }

  lemma {:induction false} FieldsExactly(l: RowLayout, fields: seq<Field>, row: EncodedRow)
    requires WellFormed(l) && AreValues(fields) && Sized(l, row) && PoolsFit(row, |fields|)
    ensures EncodeFields(l, fields, row).Ok? <==>
      && AllStorable(l, fields)
      && |row.arena| + ArenaNeed(l, fields) < TWO_63 && |row.elements| + ElementNeed(l, fields) <= TWO_32
    decreases |fields|
  {
    hide WriteField, FieldFits, WellFormed, ArenaBytes, ElementCount, Storable;
    if fields != [] {
      var rest := fields[1..];
      assert IsValue(fields[0].value);
      assert AllStorable(l, fields) <==> StorableIn(l, fields[0]) && AllStorable(l, rest) by {
        StorableSplit(l, fields);
      }
      match l.FindField(fields[0].id)
      case None => FieldsExactly(l, rest, row);
      case Some(f) =>
        WellFormedFields(l, f, f);
        WritesExactly(l, f, fields[0].value, row, |rest|);
        NullNotStorable(f);
        if WriteField(f, fields[0].value, row).Ok? {
          WrittenReadsBack(l, f, fields[0].value, row);
          FieldsExactly(l, rest, WriteField(f, fields[0].value, row).get);
        }
    }
  }

  lemma {:induction false} StorableSplit(l: RowLayout, fields: seq<Field>)
    requires fields != []
    ensures AllStorable(l, fields) <==> StorableIn(l, fields[0]) && AllStorable(l, fields[1..])
  {
    hide StorableIn;
    if StorableIn(l, fields[0]) && AllStorable(l, fields[1..]) {
      forall i | 0 <= i < |fields|
        ensures StorableIn(l, fields[i])
      {
        assert i > 0 ==> fields[i] == fields[1..][i - 1];
      }
    }
    if AllStorable(l, fields) {
      forall i | 0 <= i < |fields| - 1
        ensures StorableIn(l, fields[1..][i])
      {
        assert fields[1..][i] == fields[i + 1];
      }
    }
  }

  lemma {:induction false} NullNotStorable(f: FieldLayout)
    ensures !Storable(f, Null)
  {
  }

  /**
   * Encodings by the fields they are for, and defaults that the field could store, the size of an arena table aside:
   * what passes ValidateEncodingPolicy.
   */
  lemma {:induction false} PolicyExactly(f: FieldSpec)
    requires IsValue(f.defaultValue)
    ensures PolicyOk(f) <==>
      && f.name != [] && !f.deleted
      && (match f.encoding
          case Fixed => !f.isList && !f.ftype.String?
          case Arena => f.isList || f.ftype.String?
          case Dictionary => !f.isList && f.ftype.String?
          case ListDictionary => f.isList
          case ElementDictionary => f.isList && f.ftype.String?
          case OtherEncoding(_) => false)
      && (f.defaultValue == Null || Storable(LayoutOf(f, 0, 0).(encoding := Fixed), f.defaultValue))
  {
  }

  /** Reads that name no field, or the field by another type or shape, get no value of it. */
  lemma {:induction false} ReadsAreTyped(l: RowLayout, row: EncodedRow, id: u32, t: FieldType, isList: bool)
    requires WellFormed(l) && MaterializeRow(l, row).Ok?
    ensures (forall g :: g in l.fields ==> g.fieldId != id) ==> ReadValue(Row(l, row), id, t, isList) == Err(NotFound)
    ensures forall g :: g in l.fields && g.fieldId == id && (g.ftype != t || g.isList != isList) ==>
      ReadValue(Row(l, row), id, t, isList) == Err(InvalidArgument)
  {
    hide FieldPresent, ReadPresent, RequiredPresent, WellFormed;
    forall g | g in l.fields && g.fieldId == id
      ensures l.FindField(id) == Some(g)
    {
      WellFormedFields(l, g, g);
    }
  }

  /** A row materializes exactly if its header and size are right and no required field without a default is absent. */
  lemma {:induction false} MaterializesExactly(l: RowLayout, row: EncodedRow)
    ensures MaterializeRow(l, row).Ok? <==>
      && row.schemaVersion == l.schemaVersion && row.fingerprint == l.fingerprint && |row.rowSlot| >= l.rowSlotSize
      && forall g :: g in l.fields && !g.nullable && g.defaultValue == Null ==> FieldPresent(g, row)
  {
    hide FieldPresent;
    if MaterializeRow(l, row).Ok? {
      forall g | g in l.fields && !g.nullable && g.defaultValue == Null
        ensures FieldPresent(g, row)
      {
        var i :| 0 <= i < |l.fields| && l.fields[i] == g;
      }
    }
  }

  lemma {:induction false} Blank(l: RowLayout)
    ensures var row := CreateEncodedRow(l);
      Sized(l, row) && row.arena == [] && row.elements == [] && PoolsFit(row, TWO_32)
      && row.schemaVersion == l.schemaVersion && row.fingerprint == l.fingerprint
  {
  }

  /**
   * Exactly when a payload encodes for a layout: every value whose field the layout has fits that field, the pools
   * hold them all, and each field that is neither nullable nor defaulted has a value. A frame counts its fields in 32
   * bits.
   */
  lemma {:induction false} EncodesExactly(l: RowLayout, fields: seq<Field>)
    requires WellFormed(l) && AreValues(fields) && DistinctIds(fields) && |fields| < TWO_32
    ensures EncodeForLayout(l, fields).Ok? <==>
      && AllStorable(l, fields)
      && ArenaNeed(l, fields) < TWO_63 && ElementNeed(l, fields) <= TWO_32
      && forall g :: g in l.fields && !g.nullable && g.defaultValue == Null ==> FindValue(fields, g.fieldId).Some?
  {
    hide WellFormed, AllStorable, ArenaNeed, ElementNeed, MaterializeRow, CreateEncodedRow, FieldPresent, FindValue;
    hide ReadPresent, EncodeFields;
    var row0 := CreateEncodedRow(l);
    Blank(l);
    FieldsExactly(l, fields, row0);
    if EncodeFields(l, fields, row0).Ok? {
      var row := EncodeFields(l, fields, row0).get;
      EncodedHeader(l, fields, row0);
      MaterializesExactly(l, row);
      forall g | g in l.fields
        ensures FieldPresent(g, row) <==> FindValue(fields, g.fieldId).Some?
      {
        NothingPresent(l, g);
        EncodedFieldReads(l, fields, row0, g, None);
      }
    }
  }
}
