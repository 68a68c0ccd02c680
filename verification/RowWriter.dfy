/**
 * The writers of src/model/row_storage.{h,cc} and src/ingest/update_applier.cc in their own form: methods that
 * change a row step by step, and the loops that read lists back. Each is proved against RowStorage's functions.
 */
module RowWriter {
  import opened Basics
  import opened ByteIO
  import opened Values
  import opened Schema
  import opened RowStorage
  import opened RowCodec

  /** The call did what the specification says, or ran into the vector length limit on the way to an error. */
  ghost predicate Agrees(r: Result<()>, row: EncodedRow, spec: Result<EncodedRow>) {
    match r
    case Ok(_) => spec == Ok(row)
    case Err(code) => spec.Err? && (code == spec.code || code == Unknown)
  }

  lemma {:induction false} ConcatAppend(ss: seq<bytes>, s: bytes)
    ensures Concat(ss + [s]) == Concat(ss) + s
  {
    if ss == [] {
      assert ss + [s] == [s];
    } else {
      assert (ss + [s])[1..] == ss[1..] + [s];
      ConcatAppend(ss[1..], s);
    }
  }

  lemma {:induction false} TooLong(ss: seq<bytes>, i: nat)
    requires i < |ss|
    ensures |Concat(ss[..i])| + |ss[i]| <= |Concat(ss)|
  {
    if i == 0 {
      assert ss[..0] == [];
    } else {
      assert ss[..i][1..] == ss[1..][..i - 1];
      TooLong(ss[1..], i - 1);
    }
  }

  lemma {:induction false} RefTableAppend(ss: seq<bytes>, s: bytes, at: nat)
    ensures RefTable(ss + [s], at) == RefTable(ss, at) + RefBytes(at + |Concat(ss)|, |s|, 0)
    decreases |ss|
  {
    hide RefBytes;
    if ss == [] {
      assert ss + [s] == [s];
    } else {
      assert (ss + [s])[1..] == ss[1..] + [s];
      RefTableAppend(ss[1..], s, at + |ss[0]|);
    }
  }

  lemma {:induction false} IdBytesAppend(first: nat, count: nat)
    ensures IdBytes(first, count + 1) == IdBytes(first, count) + LE(first + count, 4)
    decreases count
  {
    hide LE;
    if count == 0 {
      assert IdBytes(first + 1, 0) == [];
    } else {
      IdBytesAppend(first + 1, count - 1);
    }
  }

  /** The arena after i strings: i references, room for the rest, then the strings themselves. */
  ghost predicate Filled(was: bytes, arena: bytes, ss: seq<bytes>, i: nat) {
    && i <= |ss| && (forall s :: s in ss[..i] ==> |s| < TWO_32)
    && |was| + 16 * |ss| + |Concat(ss[..i])| < TWO_63
    && arena == was + RefTable(ss[..i], |was| + 16 * |ss|) + seq(16 * (|ss| - i), _ => 0) + Concat(ss[..i])
  }

  lemma {:induction false} FilledSize(was: bytes, arena: bytes, ss: seq<bytes>, i: nat)
    requires Filled(was, arena, ss, i)
    ensures i <= |ss| && |arena| == |was| + 16 * |ss| + |Concat(ss[..i])|
  {
    hide RefTable;
  }

  lemma {:induction false} NothingFilled(was: bytes, ss: seq<bytes>)
    requires |was| + 16 * |ss| < TWO_63
    ensures Filled(was, was + seq(16 * |ss|, _ => 0), ss, 0)
  {
    assert ss[..0] == [];
    assert was + seq(16 * |ss|, _ => 0) == was + RefTable([], |was| + 16 * |ss|) + seq(16 * |ss|, _ => 0) + Concat([]);
  }

  lemma {:induction false} AllFilled(was: bytes, arena: bytes, ss: seq<bytes>)
    requires Filled(was, arena, ss, |ss|)
    ensures |was| + 16 * |ss| + |Concat(ss)| < TWO_63 && forall s :: s in ss ==> |s| < TWO_32
    ensures arena == was + RefTable(ss, |was| + 16 * |ss|) + Concat(ss)
  {
    assert ss[..|ss|] == ss;
    var table := RefTable(ss, |was| + 16 * |ss|);
    assert was + table + seq(0, _ => 0) == was + table;
  }

  lemma {:induction false} FillStep(was: bytes, arena: bytes, ss: seq<bytes>, i: nat)
    requires i < |ss| && Filled(was, arena, ss, i) && |ss[i]| < TWO_32 && |arena| + |ss[i]| < TWO_63
    ensures |arena| == |was| + 16 * |ss| + |Concat(ss[..i])|
    ensures Filled(was, Put(arena + ss[i], |was| + i * 16, EncodeRef(ValueRef16(|arena|, |ss[i]|, 0))), ss, i + 1)
  {
    hide RefBytes, RefTable;
    var at, done, more := |was| + 16 * |ss|, ss[..i], ss[..i + 1];
    var ref := RefBytes(|arena|, |ss[i]|, 0);
    assert more == done + [ss[i]];
    ConcatAppend(done, ss[i]);
    RefTableAppend(done, ss[i], at);
    var head, room, text := was + RefTable(done, at), 16 * (|ss| - i), Concat(done);
    Patch(head, room, text + ss[i], ref);
    assert arena + ss[i] == head + seq(room, _ => 0) + (text + ss[i]);
    assert head + ref == was + RefTable(more, at);
  }

  class EncodedRowBuffer {
    var row: EncodedRow

    constructor (layout: RowLayout)
      ensures row == CreateEncodedRow(layout)
    {
      row := CreateEncodedRow(layout);
    }

    method SetFieldPresent(f: FieldLayout) returns (r: Result<()>)
      modifies this
      ensures Agrees(r, row, SetPresent(f, old(row)))
    {
      var at := f.presenceBit / 8;
      if at >= |row.rowSlot| {
        return Err(InvalidArgument);
      }
      row := row.(rowSlot := row.rowSlot[at := SetBit(row.rowSlot[at], f.presenceBit % 8)]);
      r := Ok(());
    }

    method WriteValueRefField(f: FieldLayout, ref: ValueRef16) returns (r: Result<()>)
      modifies this
      ensures Agrees(r, row, WriteRef(f, ref, old(row)))
    {
      hide EncodeRef;
      if !f.usesRef || !InSpan(|row.rowSlot|, f.slotOffset, 16) {
        return Err(InvalidArgument);
      }
      row := row.(rowSlot := Put(row.rowSlot, f.slotOffset, EncodeRef(ref)));
      r := SetFieldPresent(f);
    }

    method WriteScalarField(f: FieldLayout, t: FieldType, n: int) returns (r: Result<()>)
      requires IsValue(Num(t, n))
      modifies this
      ensures Agrees(r, row, WriteScalarValue(f, Num(t, n), old(row)))
    {
      if f.usesRef || f.ftype != t {
        return Err(InvalidArgument);
      }
      if !InSpan(|row.rowSlot|, f.slotOffset, f.valueWidth) || !InSpan(|row.rowSlot|, f.slotOffset, FieldTypeSize(t)) {
        return Err(InvalidArgument);
      }
      row := row.(rowSlot := Put(row.rowSlot, f.slotOffset, NumBytes(t, n)));
      r := SetFieldPresent(f);
    }

    /** Strings of a scalar field: into the arena, or as a new dictionary entry. */
    method WriteStringField(f: FieldLayout, s: bytes) returns (r: Result<()>)
      modifies this
      ensures Agrees(r, row, WriteScalarValue(f, Str(s), old(row)))
    {
      if !f.ftype.String? {
        return Err(InvalidArgument);
      }
      if f.encoding.Arena? {
        if |s| >= TWO_32 {
          return Err(InvalidArgument);
        }
        var offset := |row.arena|;
        if offset + |s| >= TWO_63 {
          return Err(Unknown);
        }
        row := row.(arena := row.arena + s);
        r := WriteValueRefField(f, ValueRef16(offset, |s|, 0));
      } else if f.encoding.Dictionary? {
        if |row.strings| >= TWO_32 {
          return Err(InvalidArgument);
        }
        var id := |row.strings|;
        row := row.(strings := row.strings + [s]);
        r := WriteValueRefField(f, ValueRef16(id, 0, 0));
      } else {
        r := Err(InvalidArgument);
      }
    }

    method WriteNumberListField(f: FieldLayout, t: FieldType, ns: seq<int>) returns (r: Result<()>)
      requires IsValue(NumList(t, ns))
      modifies this
      ensures Agrees(r, row, WriteListValue(f, NumList(t, ns), old(row)))
    {
      if f.ftype != t {
        return Err(InvalidArgument);
      }
      if (t.Bool? || f.encoding.ListDictionary?) && |ns| >= TWO_32 {
        return Err(InvalidArgument);
      }
      var payload := EncodeScalarList(t, ns);
      if f.encoding.Arena? {
        var offset := |row.arena|;
        if offset + |payload.get| >= TWO_63 {
          return Err(Unknown);
        }
        row := row.(arena := row.arena + payload.get);
        r := WriteValueRefField(f, ValueRef16(offset, Low32(|payload.get|), Low32(|ns|)));
      } else if f.encoding.ListDictionary? {
        if |row.scalarLists| >= TWO_32 {
          return Err(InvalidArgument);
        }
        var id := |row.scalarLists|;
        row := row.(scalarLists := row.scalarLists + [payload.get]);
        r := WriteValueRefField(f, ValueRef16(id, 0, |ns|));
      } else {
        r := Err(InvalidArgument);
      }
    }

    /** Room for all references first; then each string is appended and its reference patched in place. */
    method WriteArenaStringListField(f: FieldLayout, ss: seq<bytes>) returns (r: Result<()>)
      modifies this
      ensures Agrees(r, row, WriteArenaStringsValue(f, ss, old(row)))
    {
      hide EncodeRef, WriteRef, RefTable, Filled;
      if 16 * |ss| >= TWO_32 {
        return Err(InvalidArgument);
      }
      var refsOffset := |row.arena|;
      var at := refsOffset + 16 * |ss|;
      if at >= TWO_63 {
        return Err(Unknown);
      }
      ghost var was := row;
      row := row.(arena := row.arena + seq(16 * |ss|, _ => 0));
      NothingFilled(was.arena, ss);
      for i := 0 to |ss|
        invariant row == was.(arena := row.arena) && Filled(was.arena, row.arena, ss, i)
      {
        FilledSize(was.arena, row.arena, ss, i);
        if |ss[i]| >= TWO_32 {
          assert ss[i] in ss;
          return Err(InvalidArgument);
        }
        var offset := |row.arena|;
        if offset + |ss[i]| >= TWO_63 {
          TooLong(ss, i);
          return Err(Unknown);
        }
        FillStep(was.arena, row.arena, ss, i);
        row := row.(arena := row.arena + ss[i]);
        row := row.(arena := Put(row.arena, refsOffset + i * 16, EncodeRef(ValueRef16(offset, |ss[i]|, 0))));
      }
      AllFilled(was.arena, row.arena, ss);
      r := WriteValueRefField(f, ValueRef16(refsOffset, 16 * |ss|, |ss|));
    }

    method WriteElementDictionaryField(f: FieldLayout, ss: seq<bytes>) returns (r: Result<()>)
      modifies this
      ensures Agrees(r, row, WriteElementsValue(f, ss, old(row)))
    {
      hide LE, WriteRef;
      ghost var was := row;
      var ids: seq<u32> := [];
      for i := 0 to |ss|
        invariant row == was.(elements := was.elements + ss[..i])
        invariant |ids| == i && (i > 0 ==> |was.elements| + i <= TWO_32)
        invariant forall k :: 0 <= k < i ==> ids[k] == |was.elements| + k
      {
        if |row.elements| >= TWO_32 {
          return Err(InvalidArgument);
        }
        ids := ids + [|row.elements|];
        row := row.(elements := row.elements + [ss[i]]);
        assert was.elements + ss[..i] + [ss[i]] == was.elements + ss[..i + 1];
      }
      assert ss[..|ss|] == ss;
      if |ids| >= TWO_32 {
        return Err(InvalidArgument);
      }
      r := WriteIds(f, ids, |was.elements|);
    }

    method WriteIds(f: FieldLayout, ids: seq<u32>, ghost first: nat) returns (r: Result<()>)
      requires |ids| < TWO_32 && forall k :: 0 <= k < |ids| ==> ids[k] == first + k
      modifies this
      ensures |old(row).arena| + 4 * |ids| >= TWO_63 ==> r == Err(Unknown)
      ensures |old(row).arena| + 4 * |ids| < TWO_63 ==>
        Agrees(r, row, WriteRef(f, ValueRef16(|old(row).arena|, Low32(4 * |ids|), |ids|),
                                old(row).(arena := old(row).arena + IdBytes(first, |ids|))))
    {
      hide LE, WriteRef;
      var offset := |row.arena|;
      if offset + 4 * |ids| >= TWO_63 {
        return Err(Unknown);
      }
      ghost var was := row;
      row := row.(arena := row.arena + seq(4 * |ids|, _ => 0));
      for i := 0 to |ids|
        invariant row == was.(arena := was.arena + IdBytes(first, i) + seq(4 * (|ids| - i), _ => 0))
      {
        IdBytesAppend(first, i);
        Patch(was.arena + IdBytes(first, i), 4 * (|ids| - i), [], LE(ids[i], 4));
        ghost var arena := was.arena + IdBytes(first, i) + seq(4 * (|ids| - i), _ => 0);
        assert arena == arena + [];
        row := row.(arena := Put(row.arena, offset + i * 4, LE(ids[i], 4)));
      }
      assert row.arena == was.arena + IdBytes(first, |ids|);
      r := WriteValueRefField(f, ValueRef16(offset, Low32(4 * |ids|), |ids|));
    }

    method WriteStringListField(f: FieldLayout, ss: seq<bytes>) returns (r: Result<()>)
      modifies this
      ensures Agrees(r, row, WriteListValue(f, StrList(ss), old(row)))
    {
      if !f.ftype.String? {
        return Err(InvalidArgument);
      }
      if f.encoding.Arena? {
        r := WriteArenaStringListField(f, ss);
      } else if f.encoding.ListDictionary? {
        if |ss| >= TWO_32 || |row.stringLists| >= TWO_32 {
          return Err(InvalidArgument);
        }
        var id := |row.stringLists|;
        row := row.(stringLists := row.stringLists + [ss]);
        r := WriteValueRefField(f, ValueRef16(id, 0, |ss|));
      } else if f.encoding.ElementDictionary? {
        r := WriteElementDictionaryField(f, ss);
      } else {
        r := Err(InvalidArgument);
      }
    }

    /** WriteScalarFieldValue and WriteListFieldValue: dispatch on the layout's shape, then on the value held. */
    method WriteFieldValue(f: FieldLayout, v: Value) returns (r: Result<()>)
      requires IsValue(v)
      modifies this
      ensures Agrees(r, row, WriteField(f, v, old(row)))
    {
      if f.isList {
        match v
        case NumList(t, ns) => r := WriteNumberListField(f, t, ns);
        case StrList(ss) => r := WriteStringListField(f, ss);
        case _ => r := Err(InvalidArgument);
      } else {
        match v
        case Num(t, n) => r := WriteScalarField(f, t, n);
        case Str(s) => r := WriteStringField(f, s);
        case _ => r := Err(InvalidArgument);
      }
    }
  }

  lemma {:induction false} Patch(before: bytes, room: nat, after: bytes, content: bytes)
    requires |content| <= room
    ensures Put(before + seq(room, _ => 0) + after, |before|, content)
         == before + content + seq(room - |content|, _ => 0) + after
  {
  }

  /** DecodeArenaStringList after its checks: one reference per iteration. */
  method DecodeArenaStringList(arena: bytes, at: nat, count: nat) returns (r: Result<seq<bytes>>)
    ensures r == ReadStringRefs(arena, at, count)
  {
    hide DecodeRefAt;
    var values: seq<bytes> := [];
    PrependOne([], [], ReadStringRefs(arena, at, count));
    for i := 0 to count
      invariant ReadStringRefs(arena, at, count) == Prepend(values, ReadStringRefs(arena, at + i * 16, count - i))
    {
      var ref := DecodeRefAt(arena, at + i * 16);
      if ref.Err? {
        return Err(ref.code);
      }
      if !RefInBounds(ref.get, |arena|) {
        return Err(InvalidArgument);
      }
      var value := arena[ref.get.offset..ref.get.offset + ref.get.byteLength];
      PrependOne(values, value, ReadStringRefs(arena, at + (i + 1) * 16, count - i - 1));
      values := values + [value];
    }
    assert values + [] == values;
    r := Ok(values);
  }

  /** The element-dictionary loop of ReadListValue. */
  method DecodeElementList(arena: bytes, elements: seq<bytes>, at: nat, count: nat) returns (r: Result<seq<bytes>>)
    ensures r == ReadElements(arena, elements, at, count)
  {
    hide ReadAt;
    var values: seq<bytes> := [];
    PrependOne([], [], ReadElements(arena, elements, at, count));
    for i := 0 to count
      invariant ReadElements(arena, elements, at, count)
             == Prepend(values, ReadElements(arena, elements, at + i * 4, count - i))
    {
      var id := ReadAt(arena, at + i * 4, 4);
      if id.Err? {
        return Err(id.code);
      }
      if id.get >= |elements| {
        return Err(InvalidArgument);
      }
      PrependOne(values, elements[id.get], ReadElements(arena, elements, at + (i + 1) * 4, count - i - 1));
      values := values + [elements[id.get]];
    }
    assert values + [] == values;
    r := Ok(values);
  }

  /** EncodeForLayout: one writer call per payload field, stopping at the first error. */
  method EncodePayload(layout: RowLayout, fields: seq<Field>) returns (r: Result<EncodedRow>)
    requires AreValues(fields)
    ensures r.Ok? ==> EncodeForLayout(layout, fields) == r
    ensures r.Err? ==> EncodeForLayout(layout, fields).Err?
  {
    var buffer := new EncodedRowBuffer(layout);
    ghost var start := CreateEncodedRow(layout);
    assert fields[0..] == fields;
    for i := 0 to |fields|
      invariant fresh(buffer)
      invariant EncodeFields(layout, fields, start) == EncodeFields(layout, fields[i..], buffer.row)
    {
      assert fields[i..][1..] == fields[i + 1..] && fields[i..][0] == fields[i];
      var field := layout.FindField(fields[i].id);
      if field.Some? {
        if fields[i].value == Null {
          return Err(InvalidArgument);
        }
        var written := buffer.WriteFieldValue(field.value, fields[i].value);
        if written.Err? {
          return Err(written.code);
        }
      }
    }
    var materialized := MaterializeRow(layout, buffer.row);
    if materialized.Err? {
      return Err(materialized.code);
    }
    r := Ok(buffer.row);
  }
}
