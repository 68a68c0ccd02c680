/** Encoded rows: writing fields into them and reading fields back, src/model/row_storage.{h,cc}. */
module RowStorage {
  import opened Basics
  import opened ByteIO
  import opened Values
  import opened Schema

  datatype EncodedRow = EncodedRow(
    schemaVersion: u64, fingerprint: u64, rowSlot: bytes, arena: bytes,
    strings: seq<bytes>, scalarLists: seq<bytes>, stringLists: seq<seq<bytes>>, elements: seq<bytes>)

  datatype Row = Row(layout: RowLayout, encoded: EncodedRow)

  function CreateEncodedRow(l: RowLayout): EncodedRow {
    EncodedRow(l.schemaVersion, l.fingerprint, seq(l.rowSlotSize, _ => 0), [], [], [], [], [])
  }

  // ---- Presence bits -----------------------------------------------------------------------------

  /** (b & (1 << i)) != 0 */
  function BitOf(b: nat, i: nat): bool {
    if i == 0 then b % 2 == 1 else BitOf(b / 2, i - 1)
  }

  /** b | (1 << i) */
  function WithBit(b: nat, i: nat): nat {
    if i == 0 then b + 1 - b % 2 else 2 * WithBit(b / 2, i - 1) + b % 2
  }

  lemma {:induction false} WithBitReads(b: nat, i: nat, j: nat)
    ensures BitOf(WithBit(b, i), j) == (i == j || BitOf(b, j))
  {
    if i > 0 && j > 0 {
      WithBitReads(b / 2, i - 1, j - 1);
    } else if i == 0 && j > 0 {
      assert (b + 1 - b % 2) / 2 == b / 2;
    }
  }

  function Pow2(n: nat): nat {
    if n == 0 then 1 else 2 * Pow2(n - 1)
  }

  lemma {:induction false} WithBitBound(b: nat, i: nat, n: nat)
    requires b < Pow2(n) && i < n
    ensures WithBit(b, i) < Pow2(n)
  {
    var half := Pow2(n - 1);
    assert Pow2(n) == 2 * half;
    if i > 0 {
      WithBitBound(b / 2, i - 1, n - 1);
      var w := WithBit(b / 2, i - 1);
      assert w <= half - 1 && WithBit(b, i) == 2 * w + b % 2;
    }
  }

  function SetBit(b: byte, i: nat): byte
    requires i < 8
  {
    assert Pow2(8) == 256 by {
      assert Pow2(4) == 16;
    }
    WithBitBound(b, i, 8);
    WithBit(b, i)
  }

  lemma {:induction false} ZeroHasNoBit(i: nat)
    ensures !BitOf(0, i)
  {
    if i > 0 {
      ZeroHasNoBit(i - 1);
    }
  }

  predicate FieldPresent(f: FieldLayout, row: EncodedRow) {
    var at := f.presenceBit / 8;
    at < |row.rowSlot| && BitOf(row.rowSlot[at], f.presenceBit % 8)
  }

  // ---- What each writer makes of a row -----------------------------------------------------------

  function SetPresent(f: FieldLayout, row: EncodedRow): Result<EncodedRow> {
    var at := f.presenceBit / 8;
    if at >= |row.rowSlot| then Err(InvalidArgument)
    else Ok(row.(rowSlot := row.rowSlot[at := SetBit(row.rowSlot[at], f.presenceBit % 8)]))
  }

  function WriteSlot(f: FieldLayout, content: bytes, row: EncodedRow): Result<EncodedRow> {
    if !InSpan(|row.rowSlot|, f.slotOffset, |content|) then Err(InvalidArgument)
    else SetPresent(f, row.(rowSlot := Put(row.rowSlot, f.slotOffset, content)))
  }

  function WriteRef(f: FieldLayout, ref: ValueRef16, row: EncodedRow): Result<EncodedRow> {
    if !f.usesRef then Err(InvalidArgument) else WriteSlot(f, EncodeRef(ref), row)
  }

  /** A std::vector of bytes cannot reach 2^63; the exception it throws is a failure of the call. */
  function AppendArena(row: EncodedRow, s: bytes): (r: Result<EncodedRow>)
    ensures r.Ok? ==> |row.arena| + |s| < TWO_63 && r.get == row.(arena := row.arena + s)
  {
    if |row.arena| + |s| >= TWO_63 then Err(Unknown) else Ok(row.(arena := row.arena + s))
  }

  function WriteScalarValue(f: FieldLayout, v: Value, row: EncodedRow): Result<EncodedRow>
    requires IsValue(v)
  {
    match v
    case Num(t, n) =>
      if f.ftype != t || f.usesRef || !InSpan(|row.rowSlot|, f.slotOffset, f.valueWidth) then Err(InvalidArgument)
      else WriteSlot(f, NumBytes(t, n), row)
    case Str(s) =>
      if !f.ftype.String? then Err(InvalidArgument)
      else if f.encoding.Arena? then
        if |s| >= TWO_32 then Err(InvalidArgument)
        else
          var grown :- AppendArena(row, s);
          WriteRef(f, ValueRef16(|row.arena|, |s|, 0), grown)
      else if f.encoding.Dictionary? then
        if |row.strings| >= TWO_32 then Err(InvalidArgument)
        else WriteRef(f, ValueRef16(|row.strings|, 0, 0), row.(strings := row.strings + [s]))
      else Err(InvalidArgument)
    case _ => Err(InvalidArgument)
  }

  /** References to strings that lie back to back from `at` on. */
  function RefTable(ss: seq<bytes>, at: nat): (r: bytes)
    ensures |r| == 16 * |ss|
  {
    if ss == [] then [] else RefBytes(at, |ss[0]|, 0) + RefTable(ss[1..], at + |ss[0]|)
  }

  /** Ids first, first + 1, ... as 4-byte integers. */
  function IdBytes(first: nat, count: nat): (r: bytes)
    ensures |r| == 4 * count
    decreases count
  {
    if count == 0 then [] else LE(first, 4) + IdBytes(first + 1, count - 1)
  }

  function WriteListValue(f: FieldLayout, v: Value, row: EncodedRow): Result<EncodedRow>
    requires IsValue(v)
  {
    match v
    case NumList(t, ns) =>
      if f.ftype != t then Err(InvalidArgument)
      else if f.encoding.Arena? then
        if t.Bool? && |ns| >= TWO_32 then Err(InvalidArgument)
        else
          var payload := ListBytes(t, ns);
          var grown :- AppendArena(row, payload);
          // static_cast<std::uint32_t> of both lengths, unchecked for numbers
          WriteRef(f, ValueRef16(|row.arena|, Low32(|payload|), Low32(|ns|)), grown)
      else if f.encoding.ListDictionary? then
        if |ns| >= TWO_32 || |row.scalarLists| >= TWO_32 then Err(InvalidArgument)
        else WriteRef(f, ValueRef16(|row.scalarLists|, 0, |ns|),
                      row.(scalarLists := row.scalarLists + [ListBytes(t, ns)]))
      else Err(InvalidArgument)
    case StrList(ss) =>
      if !f.ftype.String? then Err(InvalidArgument)
      else if f.encoding.Arena? then WriteArenaStringsValue(f, ss, row)
      else if f.encoding.ListDictionary? then
        if |ss| >= TWO_32 || |row.stringLists| >= TWO_32 then Err(InvalidArgument)
        else WriteRef(f, ValueRef16(|row.stringLists|, 0, |ss|), row.(stringLists := row.stringLists + [ss]))
      else if f.encoding.ElementDictionary? then WriteElementsValue(f, ss, row)
      else Err(InvalidArgument)
    case _ => Err(InvalidArgument)
  }

  function WriteArenaStringsValue(f: FieldLayout, ss: seq<bytes>, row: EncodedRow): Result<EncodedRow> {
    if 16 * |ss| >= TWO_32 || exists s :: s in ss && |s| >= TWO_32 then Err(InvalidArgument)
    else if |row.arena| + 16 * |ss| + |Concat(ss)| >= TWO_63 then Err(Unknown)
    else WriteRef(f, ValueRef16(|row.arena|, 16 * |ss|, |ss|), AddStrings(ss, row))
  }

  function AddStrings(ss: seq<bytes>, row: EncodedRow): EncodedRow {
    row.(arena := row.arena + RefTable(ss, |row.arena| + 16 * |ss|) + Concat(ss))
  }

  function WriteElementsValue(f: FieldLayout, ss: seq<bytes>, row: EncodedRow): Result<EncodedRow> {
    if |ss| >= TWO_32 || (ss != [] && |row.elements| + |ss| > TWO_32) then Err(InvalidArgument)
    else if |row.arena| + 4 * |ss| >= TWO_63 then Err(Unknown)
    // static_cast<std::uint32_t> of the byte length, unchecked
    else WriteRef(f, ValueRef16(|row.arena|, Low32(4 * |ss|), |ss|), AddElements(ss, row))
  }

  function AddElements(ss: seq<bytes>, row: EncodedRow): EncodedRow {
    row.(elements := row.elements + ss, arena := row.arena + IdBytes(|row.elements|, |ss|))
  }

  /** static_cast<std::uint32_t> of a size. */
  function Low32(n: nat): (r: u32)
    ensures n < TWO_32 ==> r == n
  {
    n % TWO_32
  }

  function WriteField(f: FieldLayout, v: Value, row: EncodedRow): Result<EncodedRow>
    requires IsValue(v)
  {
    if f.isList then WriteListValue(f, v, row) else WriteScalarValue(f, v, row)
  }

  // ---- Reading -----------------------------------------------------------------------------------

  function ReadRef(f: FieldLayout, row: EncodedRow): Result<ValueRef16> {
    DecodeRefAt(row.rowSlot, f.slotOffset)
  }

  predicate RefInBounds(ref: ValueRef16, size: nat) {
    InSpan(size, ref.offset, ref.byteLength)
  }

  function ReadScalarPresent(f: FieldLayout, row: EncodedRow): Result<Value> {
    if f.ftype.String? then
      var ref :- ReadRef(f, row);
      if f.encoding.Arena? then
        if RefInBounds(ref, |row.arena|) then Ok(Str(row.arena[ref.offset..ref.offset + ref.byteLength]))
        else Err(InvalidArgument)
      else if f.encoding.Dictionary? then
        if ref.offset < |row.strings| then Ok(Str(row.strings[ref.offset])) else Err(InvalidArgument)
      else Err(InvalidArgument)
    else if !Numeric(f.ftype) || !InSpan(|row.rowSlot|, f.slotOffset, f.valueWidth)
         || !InSpan(|row.rowSlot|, f.slotOffset, FieldTypeSize(f.ftype)) then Err(InvalidArgument)
    else
      var n :- ParseNum(f.ftype, row.rowSlot[f.slotOffset..f.slotOffset + FieldTypeSize(f.ftype)]);
      Ok(Num(f.ftype, n))
  }

  /** The strings named by `count` references at `at`. */
  function ReadStringRefs(arena: bytes, at: nat, count: nat): (r: Result<seq<bytes>>)
    ensures r.Ok? ==> |r.get| == count
    decreases count
  {
    if count == 0 then Ok([])
    else
      var ref :- DecodeRefAt(arena, at);
      if !RefInBounds(ref, |arena|) then Err(InvalidArgument)
      else
        var rest :- ReadStringRefs(arena, at + 16, count - 1);
        Ok([arena[ref.offset..ref.offset + ref.byteLength]] + rest)
  }

  /** The dictionary strings named by `count` ids at `at`. */
  function ReadElements(arena: bytes, elements: seq<bytes>, at: nat, count: nat): (r: Result<seq<bytes>>)
    ensures r.Ok? ==> |r.get| == count
    decreases count
  {
    if count == 0 then Ok([])
    else
      var id :- ReadAt(arena, at, 4);
      if id >= |elements| then Err(InvalidArgument)
      else
        var rest :- ReadElements(arena, elements, at + 4, count - 1);
        Ok([elements[id]] + rest)
  }

  function ReadNumbers(t: FieldType, s: bytes, count: nat): Result<Value> {
    if !Numeric(t) then Err(InvalidArgument)
    else
      var ns :- ParseList(t, s, count);
      Ok(NumList(t, ns))
  }

  function AsStrings(r: Result<seq<bytes>>): Result<Value> {
    match r case Ok(ss) => Ok(StrList(ss)) case Err(code) => Err(code)
  }

  function ReadListPresent(f: FieldLayout, row: EncodedRow): Result<Value> {
    var ref :- ReadRef(f, row);
    match f.encoding
    case Arena =>
      if !RefInBounds(ref, |row.arena|) then Err(InvalidArgument)
      else if f.ftype.String? then
        if ref.byteLength != 16 * ref.elementCount then Err(InvalidArgument)
        else AsStrings(ReadStringRefs(row.arena, ref.offset, ref.elementCount))
      else ReadNumbers(f.ftype, row.arena[ref.offset..ref.offset + ref.byteLength], ref.elementCount)
    case ListDictionary =>
      if f.ftype.String? then
        if ref.offset >= |row.stringLists| then Err(InvalidArgument)
        else if |row.stringLists[ref.offset]| != ref.elementCount then Err(InvalidArgument)
        else Ok(StrList(row.stringLists[ref.offset]))
      else if ref.offset >= |row.scalarLists| then Err(InvalidArgument)
      else ReadNumbers(f.ftype, row.scalarLists[ref.offset], ref.elementCount)
    case ElementDictionary =>
      if !f.ftype.String? || !RefInBounds(ref, |row.arena|) then Err(InvalidArgument)
      else if ref.byteLength != Low32(4 * ref.elementCount) then Err(InvalidArgument)
      else AsStrings(ReadElements(row.arena, row.elements, ref.offset, ref.elementCount))
    case _ => Err(InvalidArgument)
  }

  function ReadPresent(f: FieldLayout, row: EncodedRow): Result<Value> {
    if f.isList then ReadListPresent(f, row) else ReadScalarPresent(f, row)
  }

  function ReadDefault(f: FieldLayout): Result<Value> {
    if f.defaultValue != Null then Ok(f.defaultValue)
    else if !f.nullable then Err(FailedPrecondition)
    else Err(NotFound)
  }

  /** Row::ReadScalarValue and Row::ReadListValue without an accessor. */
  function ReadValue(row: Row, id: u32, expected: FieldType, expectedList: bool): Result<Value> {
    if row.encoded.schemaVersion != row.layout.schemaVersion || row.encoded.fingerprint != row.layout.fingerprint then
      Err(FailedPrecondition)
    else
      match row.layout.FindField(id)
      case None => Err(NotFound)
      case Some(f) =>
        if f.isList != expectedList || f.ftype != expected then Err(InvalidArgument)
        else if FieldPresent(f, row.encoded) then ReadPresent(f, row.encoded)
        else ReadDefault(f)
  }

  predicate RequiredPresent(fields: seq<FieldLayout>, row: EncodedRow) {
    forall i :: 0 <= i < |fields| && !fields[i].nullable && fields[i].defaultValue == Null ==>
      FieldPresent(fields[i], row)
  }

  function MaterializeRow(l: RowLayout, row: EncodedRow): Result<Row> {
    if row.schemaVersion != l.schemaVersion || row.fingerprint != l.fingerprint then Err(FailedPrecondition)
    else if |row.rowSlot| < l.rowSlotSize then Err(InvalidArgument)
    else if !RequiredPresent(l.fields, row) then Err(FailedPrecondition)
    else Ok(Row(l, row))
  }

  /** A row exactly as the layout wants it. */
  predicate RowFits(l: RowLayout, row: EncodedRow) {
    |row.rowSlot| == l.rowSlotSize && MaterializeRow(l, row) == Ok(Row(l, row))
  }

  // ---- Slots -------------------------------------------------------------------------------------

  /** The fields of a well-formed layout, as far as one of them needs to know another. */
  ghost predicate Apart(f: FieldLayout, g: FieldLayout) {
    Disjoint(f, g) && f.presenceBit != g.presenceBit
  }

  function SlotBytes(f: FieldLayout, row: EncodedRow): bytes
    requires InSpan(|row.rowSlot|, f.slotOffset, f.valueWidth)
  {
    row.rowSlot[f.slotOffset..f.slotOffset + f.valueWidth]
  }

  lemma {:induction false} SlotWritten(l: RowLayout, f: FieldLayout, content: bytes, row: EncodedRow)
    requires FieldFits(l, f) && |row.rowSlot| == l.rowSlotSize && |content| == f.valueWidth
    ensures var r := WriteSlot(f, content, row);
      && r.Ok? && |r.get.rowSlot| == l.rowSlotSize && SlotBytes(f, r.get) == content
      && FieldPresent(f, r.get)
      && r.get == row.(rowSlot := r.get.rowSlot)
  {
    var spliced := Put(row.rowSlot, f.slotOffset, content);
    var at, bit := f.presenceBit / 8, f.presenceBit % 8;
    WithBitReads(spliced[at], bit, bit);
    var r := WriteSlot(f, content, row).get;
    assert r.rowSlot[f.slotOffset..f.slotOffset + f.valueWidth] == content;
  }

  lemma {:induction false} OtherSlotKept(l: RowLayout, f: FieldLayout, g: FieldLayout, content: bytes, row: EncodedRow)
    requires FieldFits(l, f) && FieldFits(l, g) && Apart(f, g)
    requires |row.rowSlot| == l.rowSlotSize && |content| == f.valueWidth
    ensures var r := WriteSlot(f, content, row);
      r.Ok? && |r.get.rowSlot| == l.rowSlotSize && SlotBytes(g, r.get) == SlotBytes(g, row)
      && FieldPresent(g, r.get) == FieldPresent(g, row)
  {
    var spliced := Put(row.rowSlot, f.slotOffset, content);
    var at := f.presenceBit / 8;
    WithBitReads(spliced[at], f.presenceBit % 8, g.presenceBit % 8);
    var r := WriteSlot(f, content, row).get;
    forall k | g.slotOffset <= k < g.slotOffset + g.valueWidth
      ensures r.rowSlot[k] == row.rowSlot[k]
    {
      assert spliced[k] == row.rowSlot[k];
    }
    SameSlices(r.rowSlot, row.rowSlot, g.slotOffset, g.slotOffset + g.valueWidth);
  }

  lemma {:induction false} SameSlices(s: bytes, t: bytes, lo: nat, hi: nat)
    requires lo <= hi <= |s| && hi <= |t| && forall k :: lo <= k < hi ==> s[k] == t[k]
    ensures s[lo..hi] == t[lo..hi]
  {
  }
}
