/** What the row writers and readers guarantee together: the codec of src/model/row_storage and EncodeForLayout. */
module RowCodec {
  import opened Basics
  import opened ByteIO
  import opened Values
  import opened Schema
  import opened RowStorage

  // ---- References and ids read back --------------------------------------------------------------

  /** The string references at refsAt name the strings that lie back to back at `at`. */
  ghost predicate HoldsStrings(arena: bytes, refsAt: nat, at: nat, ss: seq<bytes>) {
    && at + |Concat(ss)| < TWO_63 && (forall s :: s in ss ==> |s| < TWO_32)
    && InSpan(|arena|, refsAt, 16 * |ss|) && arena[refsAt..refsAt + 16 * |ss|] == RefTable(ss, at)
    && InSpan(|arena|, at, |Concat(ss)|) && arena[at..at + |Concat(ss)|] == Concat(ss)
  }

  lemma {:induction false} FirstString(arena: bytes, refsAt: nat, at: nat, ss: seq<bytes>)
    requires ss != [] && HoldsStrings(arena, refsAt, at, ss)
    ensures DecodeRefAt(arena, refsAt) == Ok(ValueRef16(at, |ss[0]|, 0))
    ensures InSpan(|arena|, at, |ss[0]|) && arena[at..at + |ss[0]|] == ss[0]
    ensures HoldsStrings(arena, refsAt + 16, at + |ss[0]|, ss[1..])
  {
    var table, text, n := RefTable(ss, at), Concat(ss), |ss[0]|;
    SubSlice(arena, refsAt, refsAt + |table|, 0, 16);
    SubSlice(arena, refsAt, refsAt + |table|, 16, |table|);
    assert table[0..16] == RefBytes(at, n, 0) == EncodeRef(ValueRef16(at, n, 0));
    assert table[16..|table|] == RefTable(ss[1..], at + n);
    DecodeEncodedRef(arena, refsAt, ValueRef16(at, n, 0));
    SubSlice(arena, at, at + |text|, 0, n);
    SubSlice(arena, at, at + |text|, n, |text|);
    assert text[0..n] == ss[0] && text[n..|text|] == Concat(ss[1..]);
  }

  lemma {:induction false} RefTableReads(arena: bytes, refsAt: nat, at: nat, ss: seq<bytes>)
    requires HoldsStrings(arena, refsAt, at, ss)
    ensures ReadStringRefs(arena, refsAt, |ss|) == Ok(ss)
    decreases |ss|
  {
    hide DecodeRefAt, HoldsStrings;
    if ss != [] {
      FirstString(arena, refsAt, at, ss);
      RefTableReads(arena, refsAt + 16, at + |ss[0]|, ss[1..]);
      assert [ss[0]] + ss[1..] == ss;
    }
  }

  /** The ids at `at` name the elements from `first` on, which are ss. */
  ghost predicate HoldsIds(arena: bytes, elements: seq<bytes>, at: nat, first: nat, ss: seq<bytes>) {
    && InSpan(|arena|, at, 4 * |ss|) && arena[at..at + 4 * |ss|] == IdBytes(first, |ss|)
    && (ss != [] ==> first + |ss| <= TWO_32)
    && first + |ss| <= |elements| && elements[first..first + |ss|] == ss
  }

  lemma {:induction false} FirstId(arena: bytes, elements: seq<bytes>, at: nat, first: nat, ss: seq<bytes>)
    requires ss != [] && HoldsIds(arena, elements, at, first, ss)
    ensures ReadAt(arena, at, 4) == Ok(first) && first < |elements| && elements[first] == ss[0]
    ensures HoldsIds(arena, elements, at + 4, first + 1, ss[1..])
  {
    var ids := IdBytes(first, |ss|);
    PowersOf256();
    SubSlice(arena, at, at + 4 * |ss|, 0, 4);
    SubSlice(arena, at, at + 4 * |ss|, 4, 4 * |ss|);
    assert ids[0..4] == LE(first, 4) && ids[4..4 * |ss|] == IdBytes(first + 1, |ss| - 1);
    FromLEofLE(first, 4);
    assert elements[first] == elements[first..first + |ss|][0];
    SubSlice(elements, first, first + |ss|, 1, |ss|);
  }

  lemma {:induction false} IdsRead(arena: bytes, elements: seq<bytes>, at: nat, first: nat, ss: seq<bytes>)
    requires HoldsIds(arena, elements, at, first, ss)
    ensures ReadElements(arena, elements, at, |ss|) == Ok(ss)
    decreases |ss|
  {
    hide ReadAt, HoldsIds;
    if ss != [] {
      FirstId(arena, elements, at, first, ss);
      IdsRead(arena, elements, at + 4, first + 1, ss[1..]);
      assert [ss[0]] + ss[1..] == ss;
    }
  }

  // ---- Pools only grow ---------------------------------------------------------------------------

  ghost predicate Prefix<T>(xs: seq<T>, ys: seq<T>) {
    |xs| <= |ys| && ys[..|xs|] == xs
  }

  ghost predicate Grown(row: EncodedRow, row': EncodedRow) {
    && Prefix(row.arena, row'.arena) && Prefix(row.strings, row'.strings)
    && Prefix(row.scalarLists, row'.scalarLists) && Prefix(row.stringLists, row'.stringLists)
    && Prefix(row.elements, row'.elements)
    && row'.schemaVersion == row.schemaVersion && row'.fingerprint == row.fingerprint
  }

  lemma {:induction false} PrefixSlice<T>(xs: seq<T>, ys: seq<T>, lo: nat, hi: nat)
    requires Prefix(xs, ys) && lo <= hi <= |xs|
    ensures ys[lo..hi] == xs[lo..hi]
  {
    SubSlice(ys, 0, |xs|, lo, hi);
  }

  lemma {:induction false} PrefixAt<T>(xs: seq<T>, ys: seq<T>, i: nat)
    requires Prefix(xs, ys) && i < |xs|
    ensures ys[i] == xs[i]
  {
    assert ys[..|xs|][i] == ys[i];
  }

  lemma {:induction false} RefKept(arena: bytes, arena': bytes, at: nat)
    requires Prefix(arena, arena') && DecodeRefAt(arena, at).Ok?
    ensures DecodeRefAt(arena', at) == DecodeRefAt(arena, at)
  {
    PrefixSlice(arena, arena', at, at + 8);
    PrefixSlice(arena, arena', at + 8, at + 12);
    PrefixSlice(arena, arena', at + 12, at + 16);
  }

  lemma {:induction false} StringRefsKept(arena: bytes, arena': bytes, at: nat, count: nat)
    requires Prefix(arena, arena') && ReadStringRefs(arena, at, count).Ok?
    ensures ReadStringRefs(arena', at, count) == ReadStringRefs(arena, at, count)
    decreases count
  {
    if count > 0 {
      RefKept(arena, arena', at);
      var ref := DecodeRefAt(arena, at).get;
      PrefixSlice(arena, arena', ref.offset, ref.offset + ref.byteLength);
      StringRefsKept(arena, arena', at + 16, count - 1);
    }
  }

  lemma {:induction false} ElementsKept(
      arena: bytes, arena': bytes, elements: seq<bytes>, elements': seq<bytes>, at: nat, count: nat)
    requires Prefix(arena, arena') && Prefix(elements, elements')
    requires ReadElements(arena, elements, at, count).Ok?
    ensures ReadElements(arena', elements', at, count) == ReadElements(arena, elements, at, count)
    decreases count
  {
    if count > 0 {
      PrefixSlice(arena, arena', at, at + 4);
      PrefixAt(elements, elements', ReadAt(arena, at, 4).get);
      ElementsKept(arena, arena', elements, elements', at + 4, count - 1);
    }
  }

  lemma {:induction false} SlotRefKept(f: FieldLayout, row: EncodedRow, row': EncodedRow)
    requires f.valueWidth == 16 && InSpan(|row.rowSlot|, f.slotOffset, 16) && |row'.rowSlot| == |row.rowSlot|
    requires SlotBytes(f, row') == SlotBytes(f, row)
    ensures ReadRef(f, row') == ReadRef(f, row)
  {
    var s, s', at := row.rowSlot, row'.rowSlot, f.slotOffset;
    SubSlice(s, at, at + 16, 0, 8);
    SubSlice(s', at, at + 16, 0, 8);
    SubSlice(s, at, at + 16, 8, 12);
    SubSlice(s', at, at + 16, 8, 12);
    SubSlice(s, at, at + 16, 12, 16);
    SubSlice(s', at, at + 16, 12, 16);
  }

  /** A field that read well keeps reading the same while its slot is kept and the pools only grow. */
  lemma {:induction false} ReadKept(l: RowLayout, f: FieldLayout, row: EncodedRow, row': EncodedRow)
    requires FieldFits(l, f) && |row.rowSlot| == |row'.rowSlot| == l.rowSlotSize
    requires SlotBytes(f, row') == SlotBytes(f, row) && Grown(row, row') && ReadPresent(f, row).Ok?
    ensures ReadPresent(f, row') == ReadPresent(f, row)
  {
    if f.usesRef {
      SlotRefKept(f, row, row');
      var ref := ReadRef(f, row).get;
      match f.encoding
      case Arena =>
        PrefixSlice(row.arena, row'.arena, ref.offset, ref.offset + ref.byteLength);
        if f.isList && f.ftype.String? {
          StringRefsKept(row.arena, row'.arena, ref.offset, ref.elementCount);
        }
      case Dictionary => PrefixAt(row.strings, row'.strings, ref.offset);
      case ListDictionary =>
        if f.ftype.String? {
          PrefixAt(row.stringLists, row'.stringLists, ref.offset);
        } else {
          PrefixAt(row.scalarLists, row'.scalarLists, ref.offset);
        }
      case ElementDictionary =>
        ElementsKept(row.arena, row'.arena, row.elements, row'.elements, ref.offset, ref.elementCount);
      case _ =>
    }
  }

  // ---- Writing a field ---------------------------------------------------------------------------

  ghost predicate Sized(l: RowLayout, row: EncodedRow) {
    |row.rowSlot| == l.rowSlotSize
  }

  ghost predicate Writable(l: RowLayout, f: FieldLayout, v: Value, row: EncodedRow) {
    FieldFits(l, f) && Sized(l, row) && IsValue(v) && WireLength(v) < TWO_32 && WriteField(f, v, row).Ok?
  }

  /** A written slot: the row before with grown pools, and the 16 or fewer bytes that were put in the slot. */
  ghost predicate Wrote(
      l: RowLayout, f: FieldLayout, content: bytes, pooled: EncodedRow, row: EncodedRow, row': EncodedRow) {
    && |content| == f.valueWidth && Grown(row, pooled) && pooled.rowSlot == row.rowSlot
    && WriteSlot(f, content, pooled) == Ok(row')
  }

  lemma {:induction false} WrittenIsGrown(
      l: RowLayout, f: FieldLayout, v: Value, row: EncodedRow)
    returns (content: bytes, pooled: EncodedRow)
    requires Writable(l, f, v, row)
    ensures Wrote(l, f, content, pooled, row, WriteField(f, v, row).get)
  {
    pooled := WriteField(f, v, row).get.(rowSlot := row.rowSlot);
    match v
    case Num(t, n) => content := NumBytes(t, n);
    case Str(s) =>
      if f.encoding.Arena? {
        content := EncodeRef(ValueRef16(|row.arena|, |s|, 0));
      } else {
        content := EncodeRef(ValueRef16(|row.strings|, 0, 0));
      }
    case NumList(t, ns) =>
      if f.encoding.Arena? {
        content := EncodeRef(ValueRef16(|row.arena|, Low32(|ListBytes(t, ns)|), Low32(|ns|)));
      } else {
        content := EncodeRef(ValueRef16(|row.scalarLists|, 0, |ns|));
      }
    case StrList(ss) =>
      if f.encoding.Arena? {
        content := EncodeRef(ValueRef16(|row.arena|, 16 * |ss|, |ss|));
      } else if f.encoding.ListDictionary? {
        content := EncodeRef(ValueRef16(|row.stringLists|, 0, |ss|));
      } else {
        content := EncodeRef(ValueRef16(|row.arena|, Low32(4 * |ss|), |ss|));
      }
    case Null =>
  }

  /** Writing one field never changes what is read from another. */
  lemma {:induction false} OtherFieldKept(l: RowLayout, f: FieldLayout, g: FieldLayout, v: Value, row: EncodedRow)
    requires Writable(l, f, v, row) && FieldFits(l, g) && Apart(f, g)
    ensures var row' := WriteField(f, v, row).get;
      && Sized(l, row') && Grown(row, row')
      && FieldPresent(g, row') == FieldPresent(g, row)
      && (ReadPresent(g, row).Ok? ==> ReadPresent(g, row') == ReadPresent(g, row))
  {
    var row' := WriteField(f, v, row).get;
    var content, pooled := WrittenIsGrown(l, f, v, row);
    SlotWritten(l, f, content, pooled);
    OtherSlotKept(l, f, g, content, pooled);
    if ReadPresent(g, row).Ok? {
      ReadKept(l, g, row, row');
    }
  }

  lemma {:induction false} NumberReadsBack(l: RowLayout, f: FieldLayout, t: FieldType, n: int, row: EncodedRow)
    requires Writable(l, f, Num(t, n), row) && !f.isList
    ensures ReadPresent(f, WriteField(f, Num(t, n), row).get) == Ok(Num(t, n))
  {
    SlotWritten(l, f, NumBytes(t, n), row);
    ParseNumBytes(t, n);
  }

  /** A reference slot that was written decodes to the reference. */
  lemma {:induction false} RefReadsBack(l: RowLayout, f: FieldLayout, ref: ValueRef16, row: EncodedRow)
    requires FieldFits(l, f) && f.usesRef && Sized(l, row)
    ensures var r := WriteRef(f, ref, row);
      r.Ok? && Sized(l, r.get) && FieldPresent(f, r.get) && ReadRef(f, r.get) == Ok(ref)
      && r.get == row.(rowSlot := r.get.rowSlot)
  {
    SlotWritten(l, f, EncodeRef(ref), row);
    DecodeEncodedRef(WriteRef(f, ref, row).get.rowSlot, f.slotOffset, ref);
  }

  lemma {:induction false} StringReadsBack(l: RowLayout, f: FieldLayout, s: bytes, row: EncodedRow)
    requires Writable(l, f, Str(s), row) && !f.isList
    ensures ReadPresent(f, WriteField(f, Str(s), row).get) == Ok(Str(s))
  {
    if f.encoding.Arena? {
      var grown := row.(arena := row.arena + s);
      RefReadsBack(l, f, ValueRef16(|row.arena|, |s|, 0), grown);
      assert grown.arena[|row.arena|..|row.arena| + |s|] == s;
    } else {
      RefReadsBack(l, f, ValueRef16(|row.strings|, 0, 0), row.(strings := row.strings + [s]));
    }
  }

  /** A length that fits a frame survives the 32-bit casts. */
  lemma {:induction false} CastsKeep(t: FieldType, ns: seq<int>)
    requires Numeric(t) && AllInRange(t, ns) && WireLength(NumList(t, ns)) < TWO_32
    ensures |ListBytes(t, ns)| < TWO_32 && |ns| < TWO_32
  {
    MulMono(1, FieldTypeSize(t), |ns|);
    assert FieldTypeSize(t) * |ns| == |ns| * FieldTypeSize(t);
  }

  lemma {:induction false} ArenaNumbersReadBack(
      l: RowLayout, f: FieldLayout, t: FieldType, ns: seq<int>, row: EncodedRow)
    requires Writable(l, f, NumList(t, ns), row) && f.isList && f.encoding.Arena?
    ensures ReadPresent(f, WriteField(f, NumList(t, ns), row).get) == Ok(NumList(t, ns))
  {
    assert f.usesRef;
    hide WriteRef, ReadRef, ListBytes, ParseList, FieldFits;
    var payload := ListBytes(t, ns);
    CastsKeep(t, ns);
    ParseListBytes(t, ns);
    var grown := row.(arena := row.arena + payload);
    var ref := ValueRef16(|row.arena|, |payload|, |ns|);
    RefReadsBack(l, f, ref, grown);
    assert WriteField(f, NumList(t, ns), row) == WriteRef(f, ref, grown);
    assert grown.arena[|row.arena|..|row.arena| + |payload|] == payload;
  }

  lemma {:induction false} DictionaryNumbersReadBack(
      l: RowLayout, f: FieldLayout, t: FieldType, ns: seq<int>, row: EncodedRow)
    requires Writable(l, f, NumList(t, ns), row) && f.isList && !f.encoding.Arena?
    ensures ReadPresent(f, WriteField(f, NumList(t, ns), row).get) == Ok(NumList(t, ns))
  {
    ParseListBytes(t, ns);
    var grown := row.(scalarLists := row.scalarLists + [ListBytes(t, ns)]);
    RefReadsBack(l, f, ValueRef16(|row.scalarLists|, 0, |ns|), grown);
  }

  lemma {:induction false} ArenaStringsPooled(ss: seq<bytes>, arena: bytes, at: nat, grown: bytes)
    requires |arena| + 16 * |ss| == at && at + |Concat(ss)| < TWO_63 && forall s :: s in ss ==> |s| < TWO_32
    requires grown == arena + RefTable(ss, at) + Concat(ss)
    ensures ReadStringRefs(grown, |arena|, |ss|) == Ok(ss)
  {
    MiddleAndEnd(arena, RefTable(ss, at), Concat(ss), at);
    RefTableReads(grown, |arena|, at, ss);
  }

  lemma {:induction false} MiddleAndEnd(a: bytes, b: bytes, c: bytes, at: nat)
    requires at == |a| + |b|
    ensures (a + b + c)[|a|..at] == b && (a + b + c)[at..at + |c|] == c
  {
  }

  lemma {:induction false} ReadsArenaStrings(f: FieldLayout, row: EncodedRow, ref: ValueRef16, ss: seq<bytes>)
    requires f.isList && f.ftype.String? && f.encoding.Arena? && ReadRef(f, row) == Ok(ref)
    requires RefInBounds(ref, |row.arena|) && ref.byteLength == 16 * ref.elementCount
    requires ReadStringRefs(row.arena, ref.offset, ref.elementCount) == Ok(ss)
    ensures ReadPresent(f, row) == Ok(StrList(ss))
  {
  }

  lemma {:induction false} ArenaStringsReadBack(l: RowLayout, f: FieldLayout, ss: seq<bytes>, row: EncodedRow)
    requires Writable(l, f, StrList(ss), row) && f.isList && f.encoding.Arena?
    ensures ReadPresent(f, WriteField(f, StrList(ss), row).get) == Ok(StrList(ss))
  {
    var ref := ValueRef16(|row.arena|, 16 * |ss|, |ss|);
    ArenaStringsPooled(ss, row.arena, |row.arena| + 16 * |ss|, AddStrings(ss, row).arena);
    ReadBackVia(l, f, ref, AddStrings(ss, row), WriteField(f, StrList(ss), row).get);
    ReadsArenaStrings(f, WriteField(f, StrList(ss), row).get, ref, ss);
  }

  /** What a reader sees of a row whose reference slot was just written. */
  lemma {:induction false} ReadBackVia(
      l: RowLayout, f: FieldLayout, ref: ValueRef16, pooled: EncodedRow, row': EncodedRow)
    requires FieldFits(l, f) && f.usesRef && Sized(l, pooled) && WriteRef(f, ref, pooled) == Ok(row')
    ensures ReadRef(f, row') == Ok(ref) && row'.arena == pooled.arena && row'.elements == pooled.elements
  {
    RefReadsBack(l, f, ref, pooled);
  }

  lemma {:induction false} ElementsPooled(ss: seq<bytes>, arena: bytes, elements: seq<bytes>)
    requires ss != [] ==> |elements| + |ss| <= TWO_32
    ensures ReadElements(arena + IdBytes(|elements|, |ss|), elements + ss, |arena|, |ss|) == Ok(ss)
  {
    AppendedTail(arena, IdBytes(|elements|, |ss|));
    AppendedTail(elements, ss);
    IdsRead(arena + IdBytes(|elements|, |ss|), elements + ss, |arena|, |elements|, ss);
  }

  lemma {:induction false} ReadsElements(f: FieldLayout, row: EncodedRow, ref: ValueRef16, ss: seq<bytes>)
    requires f.isList && f.ftype.String? && f.encoding.ElementDictionary? && ReadRef(f, row) == Ok(ref)
    requires RefInBounds(ref, |row.arena|) && ref.byteLength == Low32(4 * ref.elementCount)
    requires ReadElements(row.arena, row.elements, ref.offset, ref.elementCount) == Ok(ss)
    ensures ReadPresent(f, row) == Ok(StrList(ss))
  {
  }

  lemma {:induction false} ElementStringsReadBack(l: RowLayout, f: FieldLayout, ss: seq<bytes>, row: EncodedRow)
    requires Writable(l, f, StrList(ss), row) && f.isList && f.encoding.ElementDictionary?
    ensures ReadPresent(f, WriteField(f, StrList(ss), row).get) == Ok(StrList(ss))
  {
    hide ReadElements, ReadRef, IdBytes, FieldFits;
    StringsLengthBounds(ss);
    ElementsPooled(ss, row.arena, row.elements);
    var ref := ValueRef16(|row.arena|, 4 * |ss|, |ss|);
    ReadBackVia(l, f, ref, AddElements(ss, row), WriteField(f, StrList(ss), row).get);
    ReadsElements(f, WriteField(f, StrList(ss), row).get, ref, ss);
  }

  /** A field that was written is present and reads back exactly, in every encoding and shape. */
  lemma {:induction false} WrittenReadsBack(l: RowLayout, f: FieldLayout, v: Value, row: EncodedRow)
    requires Writable(l, f, v, row)
    ensures var row' := WriteField(f, v, row).get;
      Sized(l, row') && FieldPresent(f, row') && ReadPresent(f, row') == Ok(v)
  {
    var content, pooled := WrittenIsGrown(l, f, v, row);
    SlotWritten(l, f, content, pooled);
    match v
    case Num(t, n) => NumberReadsBack(l, f, t, n, row);
    case Str(s) => StringReadsBack(l, f, s, row);
    case NumList(t, ns) =>
      if f.encoding.Arena? {
        ArenaNumbersReadBack(l, f, t, ns, row);
      } else {
        DictionaryNumbersReadBack(l, f, t, ns, row);
      }
    case StrList(ss) =>
      if f.encoding.Arena? {
        ArenaStringsReadBack(l, f, ss, row);
      } else if f.encoding.ElementDictionary? {
        ElementStringsReadBack(l, f, ss, row);
      } else {
        RefReadsBack(l, f, ValueRef16(|row.stringLists|, 0, |ss|), row.(stringLists := row.stringLists + [ss]));
      }
    case Null =>
  }

  // ---- Encoding a whole payload ------------------------------------------------------------------

  /** The loop of EncodeForLayout: fields the layout does not have are skipped, an explicit null is an error. */
  function EncodeFields(l: RowLayout, fields: seq<Field>, row: EncodedRow): Result<EncodedRow>
    requires AreValues(fields)
  {
    if fields == [] then Ok(row)
    else
      match l.FindField(fields[0].id)
      case None => EncodeFields(l, fields[1..], row)
      case Some(f) =>
        if fields[0].value == Null then Err(InvalidArgument)
        else
          var written :- WriteField(f, fields[0].value, row);
          EncodeFields(l, fields[1..], written)
  }

  function EncodeForLayout(l: RowLayout, fields: seq<Field>): Result<EncodedRow>
    requires AreValues(fields)
  {
    var encoded :- EncodeFields(l, fields, CreateEncodedRow(l));
    var row :- MaterializeRow(l, encoded);
    Ok(encoded)
  }

  /** What the field g of a row reads as, if it is present. */
  ghost predicate ReadsAs(g: FieldLayout, row: EncodedRow, v: Option<Value>) {
    match v
    case None => !FieldPresent(g, row)
    case Some(x) => FieldPresent(g, row) && ReadPresent(g, row) == Ok(x)
  }

  lemma {:induction false} WellFormedFields(l: RowLayout, f: FieldLayout, g: FieldLayout)
    requires WellFormed(l) && f in l.fields && g in l.fields
    ensures FieldFits(l, f) && FieldFits(l, g) && (f.fieldId != g.fieldId ==> Apart(f, g))
    ensures l.FindField(f.fieldId) == Some(f)
    ensures f.fieldId == g.fieldId ==> f == g
  {
    var i :| 0 <= i < |l.fields| && l.fields[i] == f;
    var j :| 0 <= j < |l.fields| && l.fields[j] == g;
    FindLayoutFinds(l.fields, i);
    if i < j {
      assert Disjoint(l.fields[i], l.fields[j]);
    } else if j < i {
      assert Disjoint(l.fields[j], l.fields[i]);
    }
  }

  /** One field at a time: g reads as the payload's value for it, else as it did before. */
  lemma {:induction false} EncodedFieldReads(
      l: RowLayout, fields: seq<Field>, row: EncodedRow, g: FieldLayout, before: Option<Value>)
    requires WellFormed(l) && g in l.fields && AreValues(fields) && DistinctIds(fields)
    requires Sized(l, row) && ReadsAs(g, row, before) && EncodeFields(l, fields, row).Ok?
    ensures var row' := EncodeFields(l, fields, row).get;
      && Sized(l, row') && row'.schemaVersion == row.schemaVersion && row'.fingerprint == row.fingerprint
      && ReadsAs(g, row', if FindValue(fields, g.fieldId).Some? then FindValue(fields, g.fieldId) else before)
    decreases |fields|, 1
  {
    hide FieldPresent, ReadPresent, WriteField, Grown;
    if fields != [] {
      var id, v := fields[0].id, fields[0].value;
      match l.FindField(id)
      case None => EncodedSkip(l, fields, row, g, before);
      case Some(f) =>
        var written := WriteField(f, v, row).get;
        WellFormedFields(l, f, g);
        assert IsValue(fields[0].value);
        WrittenReadsBack(l, f, v, row);
        if id == g.fieldId {
          SameHeader(l, f, v, row);
          EncodedFieldReads(l, fields[1..], written, g, Some(v));
        } else {
          SameHeader(l, f, v, row);
          OtherFieldKept(l, f, g, v, row);
          EncodedFieldReads(l, fields[1..], written, g, before);
        }
    }
  }

  lemma {:induction false} SameHeader(l: RowLayout, f: FieldLayout, v: Value, row: EncodedRow)
    requires Writable(l, f, v, row)
    ensures var row' := WriteField(f, v, row).get;
      row'.schemaVersion == row.schemaVersion && row'.fingerprint == row.fingerprint
  {
    var content, pooled := WrittenIsGrown(l, f, v, row);
  }

  lemma {:induction false} EncodedSkip(
      l: RowLayout, fields: seq<Field>, row: EncodedRow, g: FieldLayout, before: Option<Value>)
    requires WellFormed(l) && g in l.fields && AreValues(fields) && DistinctIds(fields) && fields != []
    requires Sized(l, row) && ReadsAs(g, row, before) && EncodeFields(l, fields, row).Ok?
    requires l.FindField(fields[0].id).None?
    ensures var row' := EncodeFields(l, fields, row).get;
      && Sized(l, row') && row'.schemaVersion == row.schemaVersion && row'.fingerprint == row.fingerprint
      && ReadsAs(g, row', if FindValue(fields, g.fieldId).Some? then FindValue(fields, g.fieldId) else before)
    decreases |fields|, 0
  {
    FindLayoutMisses(l.fields, fields[0].id);
    EncodedFieldReads(l, fields[1..], row, g, before);
  }

  lemma {:induction false} NothingPresent(l: RowLayout, g: FieldLayout)
    ensures !FieldPresent(g, CreateEncodedRow(l))
  {
    ZeroHasNoBit(g.presenceBit % 8);
  }

  /**
   * If encoding a payload for a layout succeeds, every layout field reads back as the payload's value for it. A field
   * that the payload does not have reads as its default, or as not found if it is nullable and has none; there is
   * no such field that is neither.
   */
  lemma {:induction false} EncodedRowReads(l: RowLayout, fields: seq<Field>, g: FieldLayout)
    requires WellFormed(l) && g in l.fields && AreValues(fields) && DistinctIds(fields)
    requires EncodeForLayout(l, fields).Ok?
    ensures var row := Row(l, EncodeForLayout(l, fields).get);
      && MaterializeRow(l, row.encoded) == Ok(row) && |row.encoded.rowSlot| == l.rowSlotSize
      && match FindValue(fields, g.fieldId)
         case Some(v) => ReadValue(row, g.fieldId, g.ftype, g.isList) == Ok(v)
         case None =>
           if g.defaultValue != Null then ReadValue(row, g.fieldId, g.ftype, g.isList) == Ok(g.defaultValue)
           else g.nullable && ReadValue(row, g.fieldId, g.ftype, g.isList) == Err(NotFound)
  {
    var row0 := CreateEncodedRow(l);
    NothingPresent(l, g);
    EncodedFieldReads(l, fields, row0, g, None);
    WellFormedFields(l, g, g);
  }

  lemma {:induction false} EncodedHeader(l: RowLayout, fields: seq<Field>, row: EncodedRow)
    requires WellFormed(l) && AreValues(fields) && Sized(l, row) && EncodeFields(l, fields, row).Ok?
    ensures var row' := EncodeFields(l, fields, row).get;
      Sized(l, row') && row'.schemaVersion == row.schemaVersion && row'.fingerprint == row.fingerprint
    decreases |fields|
  {
    hide WriteField, Grown;
    if fields != [] {
      match l.FindField(fields[0].id)
      case None => EncodedHeader(l, fields[1..], row);
      case Some(f) =>
        assert IsValue(fields[0].value);
        WellFormedFields(l, f, f);
        WrittenReadsBack(l, f, fields[0].value, row);
        SameHeader(l, f, fields[0].value, row);
        EncodedHeader(l, fields[1..], WriteField(f, fields[0].value, row).get);
    }
  }
}
