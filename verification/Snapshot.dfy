/** Immutable snapshots: backings, the builder, enumeration and point reads. src/store/snapshot*.cc */
module Snapshot {
  import opened Basics
  import opened ByteIO
  import opened Values
  import opened Schema
  import opened RowStorage
  import FrozenTable
  import FrozenIndex

  datatype RowPayload = RowPayload(
    arena: bytes, strings: seq<bytes>, scalarLists: seq<bytes>, stringLists: seq<seq<bytes>>, elements: seq<bytes>)

  /** SnapshotBacking: `rowAt` is the virtual EncodedRowAt. */
  datatype Backing = Backing(layout: RowLayout, index: bytes, rowAt: u64 -> Result<EncodedRow>)

  datatype OwnedBacking = OwnedBacking(layout: RowLayout, index: bytes, slots: bytes, payloads: seq<RowPayload>) {
    /** OwnedSnapshotBacking::EncodedRowAt. */
    function EncodedRowAt(offset: u64): Result<EncodedRow> {
      var size := layout.rowSlotSize;
      if size == 0 then Err(InvalidArgument)
      else if offset > |slots| then Err(InvalidArgument)
      else if |slots| - offset < size then Err(InvalidArgument)
      else if offset % size != 0 then Err(InvalidArgument)
      else if offset / size >= |payloads| then Err(InvalidArgument)
      else Ok(RowOf(layout, slots[offset..offset + size], payloads[offset / size]))
    }

    function AsBacking(): Backing {
      Backing(layout, index, EncodedRowAt)
    }
  }

  function RowOf(layout: RowLayout, slot: bytes, p: RowPayload): EncodedRow {
    EncodedRow(layout.schemaVersion, layout.fingerprint, slot, p.arena, p.strings, p.scalarLists, p.stringLists,
      p.elements)
  }

  function PayloadOf(e: EncodedRow): RowPayload {
    RowPayload(e.arena, e.strings, e.scalarLists, e.stringLists, e.elements)
  }

  // ---- Reading ---------------------------------------------------------------------------------

  function TableOf(index: bytes): seq<FrozenTable.Cell>
    requires FrozenIndex.ReadMetadata(index).Ok?
      && FrozenIndex.Holds(index, FrozenIndex.ReadMetadata(index).get.capacity)
  {
    FrozenIndex.Cells(index, FrozenIndex.ReadMetadata(index).get.capacity)
  }

  /** Where the validated index says a key's row is. */
  ghost function Locate(h: HashFn, index: bytes, key: u64): Result<Option<u64>> {
    if !FrozenIndex.Accepts(h, index) then Err(InvalidArgument)
    else FrozenTable.Find(FrozenIndex.KeyHashOf(h, FrozenIndex.ReadMetadata(index).get), TableOf(index), key)
  }

  ghost function LookupRow(h: HashFn, b: Backing, key: u64): Result<Option<EncodedRow>> {
    var at :- Locate(h, b.index, key);
    match at
    case None => Ok(None)
    case Some(offset) =>
      var row :- b.rowAt(offset);
      Ok(Some(row))
  }

  /** ImmutableRowSnapshotView::Get. */
  ghost function SnapshotGet(h: HashFn, b: Backing, key: u64): Result<Option<Row>> {
    var found :- LookupRow(h, b, key);
    match found
    case None => Ok(None)
    case Some(encoded) =>
      var row :- MaterializeRow(b.layout, encoded);
      Ok(Some(row))
  }

  /** The backing holds exactly the rows of m. */
  ghost predicate Serves(h: HashFn, b: Backing, m: map<u64, EncodedRow>) {
    forall key: u64 :: LookupRow(h, b, key) == Ok(if key in m then Some(m[key]) else None)
  }

  method Get(h: HashFn, b: Backing, key: u64) returns (r: Result<Option<Row>>)
    ensures r == SnapshotGet(h, b, key)
  {
    hide FrozenIndex.Accepts, FrozenTable.Find, MaterializeRow;
    var view := FrozenIndex.Validate(h, b.index);
    match view
    case Err(code) => r := Err(code);
    case Ok(v) =>
      var at := v.Lookup(h, key);
      match at
      case Err(code) => r := Err(code);
      case Ok(None) => r := Ok(None);
      case Ok(Some(offset)) =>
        var encoded := b.rowAt(offset);
        match encoded
        case Err(code) => r := Err(code);
        case Ok(e) =>
          r := match MaterializeRow(b.layout, e) case Err(code) => Err(code) case Ok(row) => Ok(Some(row));
  }

  datatype SnapshotRow = SnapshotRow(key: u64, encoded: EncodedRow)

  /** The rows of m, each key once. */
  ghost predicate ListsRows(rows: seq<SnapshotRow>, m: map<u64, EncodedRow>) {
    && (forall i :: 0 <= i < |rows| ==> rows[i].key in m && m[rows[i].key] == rows[i].encoded)
    && (forall key :: key in m ==> SnapshotRow(key, m[key]) in rows)
    && (forall i, j :: 0 <= i < j < |rows| ==> rows[i].key != rows[j].key)
  }

  lemma {:induction false} EntryServed(h: HashFn, b: Backing, m: map<u64, EncodedRow>, e: FrozenTable.Entry)
    requires Serves(h, b, m) && FrozenIndex.Accepts(h, b.index) && e in FrozenTable.Entries(TableOf(b.index))
    ensures b.rowAt(e.row).Ok? && e.key in m && b.rowAt(e.row).get == m[e.key]
  {
    hide FrozenIndex.Accepts, FrozenTable.Entries, FrozenTable.Find;
    FrozenIndex.AcceptedLookups(h, b.index, e.key, e.row);
    assert LookupRow(h, b, e.key) == Ok(if e.key in m then Some(m[e.key]) else None);
  }

  lemma {:induction false} KeyListed(
      h: HashFn, b: Backing, m: map<u64, EncodedRow>, key: u64)
    returns (e: FrozenTable.Entry)
    requires Serves(h, b, m) && FrozenIndex.Accepts(h, b.index) && key in m
    ensures e.key == key && e in FrozenTable.Entries(TableOf(b.index))
  {
    hide FrozenIndex.Accepts, FrozenTable.Entries, FrozenTable.Find;
    assert LookupRow(h, b, key) == Ok(Some(m[key]));
    var at := Locate(h, b.index, key).get.value;
    FrozenIndex.AcceptedLookups(h, b.index, key, at);
    e := FrozenTable.Entry(key, at);
  }

  /** The rows of the listed entries, or the first error among them. */
  ghost function RowsOf(b: Backing, entries: seq<FrozenTable.Entry>): Result<seq<SnapshotRow>> {
    if entries == [] then Ok([])
    else
      var encoded :- b.rowAt(entries[0].row);
      Prepend([SnapshotRow(entries[0].key, encoded)], RowsOf(b, entries[1..]))
  }

  ghost function Enumerated(h: HashFn, b: Backing): Result<seq<SnapshotRow>> {
    if FrozenIndex.Accepts(h, b.index) then RowsOf(b, FrozenTable.Entries(TableOf(b.index))) else Err(InvalidArgument)
  }

  method EnumerateSnapshotRows(h: HashFn, b: Backing) returns (r: Result<seq<SnapshotRow>>)
    ensures r == Enumerated(h, b)
  {
    hide FrozenIndex.Accepts, FrozenTable.Entries, FrozenTable.Find, FrozenTable.TableOk, FrozenIndex.Cells;
    var view := FrozenIndex.Validate(h, b.index);
    if view.Err? {
      return Err(view.code);
    }
    var listed := view.get.ListEntries();
    match listed
    case Err(code) => r := Err(code);
    case Ok(entries) =>
      var rows: seq<SnapshotRow> := [];
      PrependOne([], SnapshotRow(0, CreateEncodedRow(b.layout)), RowsOf(b, entries));
      for i := 0 to |entries|
        invariant RowsOf(b, entries) == Prepend(rows, RowsOf(b, entries[i..]))
      {
        var encoded := b.rowAt(entries[i].row);
        assert entries[i..][1..] == entries[i + 1..];
        if encoded.Err? {
          return Err(encoded.code);
        }
        PrependOne(rows, SnapshotRow(entries[i].key, encoded.get), RowsOf(b, entries[i + 1..]));
        rows := rows + [SnapshotRow(entries[i].key, encoded.get)];
      }
      assert rows + [] == rows;
      r := Ok(rows);
  }

  lemma {:induction false} RowsOfServed(h: HashFn, b: Backing, m: map<u64, EncodedRow>, entries: seq<FrozenTable.Entry>)
    requires Serves(h, b, m) && FrozenIndex.Accepts(h, b.index)
    requires forall e :: e in entries ==> e in FrozenTable.Entries(TableOf(b.index))
    ensures RowsOf(b, entries).Ok? && |RowsOf(b, entries).get| == |entries|
    ensures forall i :: 0 <= i < |entries| ==>
      entries[i].key in m && RowsOf(b, entries).get[i] == SnapshotRow(entries[i].key, m[entries[i].key])
  {
    hide FrozenIndex.Accepts, FrozenTable.Entries, FrozenTable.Find, Serves, TableOf;
    if entries != [] {
      EntryServed(h, b, m, entries[0]);
      RowsOfServed(h, b, m, entries[1..]);
    }
  }

  /** A backing that serves a map enumerates it: every key of the map once, with its row, and nothing else. */
  lemma {:induction false} EnumeratedLists(h: HashFn, b: Backing, m: map<u64, EncodedRow>)
    requires Serves(h, b, m)
    ensures Enumerated(h, b).Ok? && ListsRows(Enumerated(h, b).get, m)
  {
    hide FrozenIndex.Accepts, FrozenTable.Entries, FrozenTable.Find, Serves, RowsOf, TableOf;
    ServedIsAccepted(h, b, m);
    var entries := FrozenTable.Entries(TableOf(b.index));
    RowsOfServed(h, b, m, entries);
    DistinctServed(h, b);
    var rows := RowsOf(b, entries).get;
    forall key | key in m
      ensures SnapshotRow(key, m[key]) in rows
    {
      var e := KeyListed(h, b, m, key);
      var i :| 0 <= i < |entries| && entries[i] == e;
      assert rows[i] == SnapshotRow(key, m[key]);
    }
  }

  lemma {:induction false} DistinctServed(h: HashFn, b: Backing)
    requires FrozenIndex.Accepts(h, b.index)
    ensures FrozenIndex.DistinctEntries(FrozenTable.Entries(TableOf(b.index)))
  {
    FrozenIndex.AcceptedEntriesDistinct(h, b.index);
  }

  lemma {:induction false} ServedIsAccepted(h: HashFn, b: Backing, m: map<u64, EncodedRow>)
    requires Serves(h, b, m)
    ensures FrozenIndex.Accepts(h, b.index)
  {
    var lookup := LookupRow(h, b, 0);
  }

  // ---- Building --------------------------------------------------------------------------------

  datatype BuildOptions = BuildOptions(hashSeed: u64, hashVersion: u32)

  function IndexOptions(options: BuildOptions): FrozenIndex.BuildOptions {
    FrozenIndex.BuildOptions(options.hashSeed, options.hashVersion, 16)
  }

  /** A sound index with these hash settings. */
  ghost predicate MadeWith(h: HashFn, index: bytes, options: BuildOptions) {
    && FrozenIndex.Accepts(h, index)
    && var m := FrozenIndex.ReadMetadata(index).get;
       m.hashSeed == options.hashSeed && m.hashVersion == options.hashVersion && m.groupWidth == 16
  }

  /** The row as the builder keeps it: the slot is cut to the layout's size. */
  function Kept(layout: RowLayout, e: EncodedRow): EncodedRow {
    if layout.rowSlotSize <= |e.rowSlot| then RowOf(layout, e.rowSlot[..layout.rowSlotSize], PayloadOf(e)) else e
  }

  /** AddRow's checks of a row, but for its key. */
  predicate Acceptable(l: RowLayout, e: EncodedRow) {
    e.schemaVersion == l.schemaVersion && e.fingerprint == l.fingerprint && |e.rowSlot| >= l.rowSlotSize
  }

  ghost predicate Stored(layout: RowLayout, rows: seq<SnapshotRow>, slots: bytes, payloads: seq<RowPayload>) {
    && |payloads| == |rows| && |slots| == |rows| * layout.rowSlotSize
    && forall i :: 0 <= i < |rows| ==> StoredAt(layout, rows, slots, payloads, i)
  }

  ghost predicate StoredAt(layout: RowLayout, rows: seq<SnapshotRow>, slots: bytes, payloads: seq<RowPayload>, i: nat)
    requires i < |rows| == |payloads| && |slots| == |rows| * layout.rowSlotSize
  {
    SlotRange(i, |rows|, layout.rowSlotSize);
    rows[i].encoded == RowOf(layout, slots[i * layout.rowSlotSize..(i + 1) * layout.rowSlotSize], payloads[i])
  }

  lemma {:induction false} SlotRange(i: nat, n: nat, size: nat)
    requires i < n
    ensures 0 <= i * size <= (i + 1) * size == i * size + size <= n * size
  {
    MulMono(i + 1, n, size);
    MulMono(i, i + 1, size);
  }

  class SnapshotBuilder {
    const layout: RowLayout
    const options: BuildOptions
    var keys: seq<u64>
    var entries: seq<FrozenTable.Entry>
    var slots: bytes
    var payloads: seq<RowPayload>
    ghost var rows: seq<SnapshotRow>

    ghost predicate Valid()
      reads this
    {
      && |slots| < TWO_63
      && |keys| == |entries| == |rows|
      && Stored(layout, rows, slots, payloads)
      && (forall i :: 0 <= i < |rows| ==>
            keys[i] == rows[i].key && entries[i].key == rows[i].key && entries[i].row == i * layout.rowSlotSize)
      && (forall i, j :: 0 <= i < j < |rows| ==> rows[i].key != rows[j].key)
    }

    constructor (layout: RowLayout, options: BuildOptions)
      ensures Valid() && rows == [] && this.layout == layout && this.options == options
    {
      this.layout, this.options := layout, options;
      keys, entries, slots, payloads := [], [], [], [];
      rows := [];
    }

    /** A 2^63-byte vector cannot be allocated; that failure is the code Unknown here. */
    method AddRow(key: u64, encoded: EncodedRow) returns (r: Result<()>)
      requires Valid()
      modifies this
      ensures Valid()
      ensures r == if encoded.schemaVersion != layout.schemaVersion || encoded.fingerprint != layout.fingerprint then
        Err(FailedPrecondition)
                   else if |encoded.rowSlot| < layout.rowSlotSize then Err(InvalidArgument)
                   else if exists i :: 0 <= i < |old(rows)| && old(rows)[i].key == key then Err(InvalidArgument)
                   else if |old(slots)| + layout.rowSlotSize >= TWO_63 then Err(Unknown)
                   else Ok(())
      ensures r.Err? ==> rows == old(rows)
      ensures r.Ok? ==> rows == old(rows) + [SnapshotRow(key, Kept(layout, encoded))]
    {
      if encoded.schemaVersion != layout.schemaVersion || encoded.fingerprint != layout.fingerprint {
        return Err(FailedPrecondition);
      }
      if |encoded.rowSlot| < layout.rowSlotSize {
        return Err(InvalidArgument);
      }
      if key in keys {
        return Err(InvalidArgument);
      }
      if |slots| + layout.rowSlotSize >= TWO_63 {
        return Err(Unknown);
      }
      var offset := |slots|;
      var slot := encoded.rowSlot[..layout.rowSlotSize];
      StoreOne(layout, rows, slots, payloads, SnapshotRow(key, Kept(layout, encoded)), slot, PayloadOf(encoded));
      slots := slots + slot;
      payloads := payloads + [PayloadOf(encoded)];
      keys := keys + [key];
      entries := entries + [FrozenTable.Entry(key, offset)];
      rows := rows + [SnapshotRow(key, Kept(layout, encoded))];
      r := Ok(());
    }

    /** The index over the rows added so far; only the index size limits can stop it. */
    method Seal(h: HashFn) returns (r: Result<OwnedBacking>)
      requires Valid()
      ensures r.Err? ==> r.code == InvalidArgument
      ensures r.Ok? <==> |rows| <= FrozenIndex.MAX_ROWS
      ensures r.Ok? ==> r.get.layout == layout && r.get.slots == slots && r.get.payloads == payloads
      ensures r.Ok? ==> MadeWith(h, r.get.index, options)
      ensures r.Ok? ==>
        var planned := FrozenIndex.PlanMetadata(|rows|, IndexOptions(options));
        planned.Ok? && |r.get.index| == planned.get.totalSize
      // rows of a layout without fields have no slot, and cannot be read back
      ensures r.Ok? ==> (Serves(h, r.get.AsBacking(), RowMap(rows)) <==> layout.rowSlotSize > 0 || rows == [])
    {
      hide FrozenIndex.PlanMetadata, FrozenIndex.Accepts, FrozenTable.Entries, Stored, Serves;
      FrozenIndex.PlanFits(|rows|, IndexOptions(options));
      var index := FrozenIndex.Build(h, entries, IndexOptions(options));
      match index
      case Err(code) => r := Err(code);
      case Ok(s) =>
        PlannedSize(h, s, |rows|, IndexOptions(options));
        var b := OwnedBacking(layout, s, slots, payloads);
        if layout.rowSlotSize > 0 || rows == [] {
          SealedServes(h, b, entries, rows);
        } else {
          SlotlessFails(h, b, entries, rows);
        }
        r := Ok(b);
    }
  }

  lemma {:induction false} PlannedSize(h: HashFn, s: bytes, n: nat, options: FrozenIndex.BuildOptions)
    requires FrozenIndex.Accepts(h, s) && FrozenIndex.ReadMetadata(s) == FrozenIndex.PlanMetadata(n, options)
    ensures |s| == FrozenIndex.PlanMetadata(n, options).get.totalSize
    ensures var m := FrozenIndex.ReadMetadata(s).get;
      m.hashSeed == options.hashSeed && m.hashVersion == options.hashVersion && m.groupWidth == options.groupWidth
  {
    hide FrozenIndex.PlanMetadata, FrozenIndex.Cells, FrozenTable.TableOk, FrozenIndex.ReadMetadata;
    hide FrozenIndex.ValidateMetadata;
    FrozenIndex.PlanIsValid(n, options);
  }

  function RowMap(rows: seq<SnapshotRow>): map<u64, EncodedRow> {
    if rows == [] then map[] else RowMap(rows[..|rows| - 1])[rows[|rows| - 1].key := rows[|rows| - 1].encoded]
  }

  lemma {:induction false} RowMapIs(rows: seq<SnapshotRow>, key: u64)
    requires forall i, j :: 0 <= i < j < |rows| ==> rows[i].key != rows[j].key
    ensures key in RowMap(rows) <==> exists i :: 0 <= i < |rows| && rows[i].key == key
    ensures forall i :: 0 <= i < |rows| && rows[i].key == key ==>
      key in RowMap(rows) && RowMap(rows)[key] == rows[i].encoded
    decreases |rows|
  {
    if rows != [] {
      RowMapIs(rows[..|rows| - 1], key);
    }
  }

  lemma {:induction false} RowMapSize(rows: seq<SnapshotRow>)
    requires forall i, j :: 0 <= i < j < |rows| ==> rows[i].key != rows[j].key
    ensures |RowMap(rows)| == |rows|
    decreases |rows|
  {
    if rows != [] {
      var n := |rows| - 1;
      RowMapSize(rows[..n]);
      RowMapIs(rows[..n], rows[n].key);
    }
  }

  lemma {:induction false} StoreOne(layout: RowLayout, rows: seq<SnapshotRow>, slots: bytes, payloads: seq<RowPayload>,
                 row: SnapshotRow, slot: bytes, payload: RowPayload)
    requires Stored(layout, rows, slots, payloads) && |slot| == layout.rowSlotSize
      && row.encoded == RowOf(layout, slot, payload)
    ensures |slots| == |rows| * layout.rowSlotSize
    ensures Stored(layout, rows + [row], slots + slot, payloads + [payload])
  {
    var size, more := layout.rowSlotSize, slots + slot;
    assert (|rows| + 1) * size == |rows| * size + size;
    forall i | 0 <= i < |rows| + 1
      ensures StoredAt(layout, rows + [row], more, payloads + [payload], i)
    {
      SlotRange(i, |rows| + 1, size);
      if i < |rows| {
        SlotRange(i, |rows|, size);
        assert StoredAt(layout, rows, slots, payloads, i);
        assert more[i * size..(i + 1) * size] == slots[i * size..(i + 1) * size];
      } else {
        assert more[i * size..(i + 1) * size] == slot;
      }
    }
  }

  lemma {:induction false} StoredReads(layout: RowLayout, rows: seq<SnapshotRow>, b: OwnedBacking, i: nat)
    requires Stored(layout, rows, b.slots, b.payloads) && b.layout == layout && layout.rowSlotSize > 0 && i < |rows|
    requires i * layout.rowSlotSize < TWO_64
    ensures b.EncodedRowAt(i * layout.rowSlotSize) == Ok(rows[i].encoded)
  {
    var size := layout.rowSlotSize;
    SlotRange(i, |rows|, size);
    assert StoredAt(layout, rows, b.slots, b.payloads, i);
    ModUnique(i * size, size, i, 0);
  }

  lemma {:induction false} SealedServes(
      h: HashFn, b: OwnedBacking, entries: seq<FrozenTable.Entry>, rows: seq<SnapshotRow>)
    requires FrozenIndex.Accepts(h, b.index) && multiset(FrozenTable.Entries(TableOf(b.index))) == multiset(entries)
    requires |entries| == |rows| && Stored(b.layout, rows, b.slots, b.payloads)
    requires forall i :: 0 <= i < |rows| ==> entries[i].key == rows[i].key && entries[i].row == i * b.layout.rowSlotSize
    requires forall i, j :: 0 <= i < j < |rows| ==> rows[i].key != rows[j].key
    requires b.layout.rowSlotSize > 0 || rows == []
    ensures Serves(h, b.AsBacking(), RowMap(rows))
  {
    forall key: u64
      ensures LookupRow(h, b.AsBacking(), key) == Ok(if key in RowMap(rows) then Some(RowMap(rows)[key]) else None)
    {
      KeyServed(h, b, entries, rows, key);
    }
  }

  lemma {:induction false} SlotlessFails(
      h: HashFn, b: OwnedBacking, entries: seq<FrozenTable.Entry>, rows: seq<SnapshotRow>)
    requires FrozenIndex.Accepts(h, b.index) && multiset(FrozenTable.Entries(TableOf(b.index))) == multiset(entries)
    requires |entries| == |rows| > 0 && b.layout.rowSlotSize == 0
    ensures !Serves(h, b.AsBacking(), RowMap(rows))
  {
    hide FrozenIndex.Accepts, FrozenTable.Entries, FrozenTable.Find, RowMap;
    FrozenIndex.BuiltLookups(h, b.index, entries, entries[0].key, entries[0].row);
    assert entries[0] in entries;
    assert LookupRow(h, b.AsBacking(), entries[0].key) == Err(InvalidArgument);
  }

  lemma {:induction false} KeyServed(
      h: HashFn, b: OwnedBacking, entries: seq<FrozenTable.Entry>, rows: seq<SnapshotRow>, key: u64)
    requires FrozenIndex.Accepts(h, b.index) && multiset(FrozenTable.Entries(TableOf(b.index))) == multiset(entries)
    requires |entries| == |rows| && Stored(b.layout, rows, b.slots, b.payloads)
    requires forall i :: 0 <= i < |rows| ==> entries[i].key == rows[i].key && entries[i].row == i * b.layout.rowSlotSize
    requires forall i, j :: 0 <= i < j < |rows| ==> rows[i].key != rows[j].key
    requires b.layout.rowSlotSize > 0 || rows == []
    ensures LookupRow(h, b.AsBacking(), key) == Ok(if key in RowMap(rows) then Some(RowMap(rows)[key]) else None)
  {
    hide FrozenIndex.Accepts, FrozenTable.Entries, FrozenTable.Find, Stored, RowMap, OwnedBacking.EncodedRowAt;
    RowMapIs(rows, key);
    if i :| 0 <= i < |rows| && rows[i].key == key {
      FrozenIndex.BuiltLookups(h, b.index, entries, key, entries[i].row);
      assert entries[i] in entries;
      StoredReads(b.layout, rows, b, i);
    } else {
      FrozenIndex.BuiltLookups(h, b.index, entries, key, 0);
      forall e | e in entries
        ensures e.key != key
      {
        var i :| 0 <= i < |entries| && entries[i] == e;
        assert rows[i].key == e.key;
      }
    }
  }
}
