/** The frozen primary-key index as bytes: built in place, validated, looked up, listed. */
module FrozenIndex {
  import opened Basics
  import opened ByteIO
  import opened Counting
  import opened FrozenTable

  const MAGIC: u64 := 0x315844494b50564b
  const FORMAT_VERSION: u32 := 1
  const GROUP_WIDTH: u32 := 16
  const HEADER_SIZE: u32 := 80
  const EMPTY_CONTROL: byte := 0x80

  datatype Metadata = Metadata(
    rowCount: u64, capacity: u64, hashSeed: u64, hashVersion: u32, groupWidth: u32,
    controlOffset: u64, keyOffset: u64, rowOffsetOffset: u64, totalSize: u64)

  datatype BuildOptions = BuildOptions(hashSeed: u64, hashVersion: u32, groupWidth: u32)

  function U64At(s: bytes, at: nat): u64
    requires at + 8 <= |s|
  {
    PowersOf256();
    FromLE(s[at..at + 8])
  }

  function U32At(s: bytes, at: nat): u32
    requires at + 4 <= |s|
  {
    PowersOf256();
    FromLE(s[at..at + 4])
  }

  function ReadMetadata(s: bytes): Result<Metadata> {
    if |s| < 80 then Err(InvalidArgument)
    else if U64At(s, 0) != MAGIC then Err(InvalidArgument)
    else if U32At(s, 8) != FORMAT_VERSION then Err(InvalidArgument)
    else if U32At(s, 12) != HEADER_SIZE then Err(InvalidArgument)
    else Ok(Metadata(U64At(s, 16), U64At(s, 24), U64At(s, 32), U32At(s, 40), U32At(s, 44),
                     U64At(s, 48), U64At(s, 56), U64At(s, 64), U64At(s, 72)))
  }

  function HeaderBytes(m: Metadata): (r: bytes)
    ensures |r| == 80
  {
    LE(MAGIC, 8) + LE(FORMAT_VERSION, 4) + LE(HEADER_SIZE, 4) + LE(m.rowCount, 8) + LE(m.capacity, 8)
    + LE(m.hashSeed, 8) + LE(m.hashVersion, 4) + LE(m.groupWidth, 4)
    + LE(m.controlOffset, 8) + LE(m.keyOffset, 8) + LE(m.rowOffsetOffset, 8) + LE(m.totalSize, 8)
  }

  lemma {:induction false} HeaderField(s: bytes, header: bytes, at: nat, w: nat, v: nat)
    requires |header| <= |s| && s[..|header|] == header && at + w <= |header| && header[at..at + w] == LE(v, w)
    requires v < Pow256(w)
    ensures FromLE(s[at..at + w]) == v
  {
    SubSlice(s, 0, |header|, at, at + w);
    FromLEofLE(v, w);
  }

  lemma {:induction false} HeaderReads(s: bytes, m: Metadata)
    requires 80 <= |s| && s[..80] == HeaderBytes(m)
    ensures ReadMetadata(s) == Ok(m)
  {
    hide LE, FromLE, Pow256;
    PowersOf256();
    var h := HeaderBytes(m);
    assert h[0..8] == LE(MAGIC, 8);
    assert h[8..12] == LE(FORMAT_VERSION, 4);
    assert h[12..16] == LE(HEADER_SIZE, 4);
    assert h[16..24] == LE(m.rowCount, 8);
    assert h[24..32] == LE(m.capacity, 8);
    assert h[32..40] == LE(m.hashSeed, 8);
    assert h[40..44] == LE(m.hashVersion, 4);
    assert h[44..48] == LE(m.groupWidth, 4);
    assert h[48..56] == LE(m.controlOffset, 8);
    assert h[56..64] == LE(m.keyOffset, 8);
    assert h[64..72] == LE(m.rowOffsetOffset, 8);
    AppendedTail(h[..72], LE(m.totalSize, 8));
    assert h == h[..72] + LE(m.totalSize, 8);
    HeaderField(s, h, 0, 8, MAGIC);
    HeaderField(s, h, 8, 4, FORMAT_VERSION);
    HeaderField(s, h, 12, 4, HEADER_SIZE);
    HeaderField(s, h, 16, 8, m.rowCount);
    HeaderField(s, h, 24, 8, m.capacity);
    HeaderField(s, h, 32, 8, m.hashSeed);
    HeaderField(s, h, 40, 4, m.hashVersion);
    HeaderField(s, h, 44, 4, m.groupWidth);
    HeaderField(s, h, 48, 8, m.controlOffset);
    HeaderField(s, h, 56, 8, m.keyOffset);
    HeaderField(s, h, 64, 8, m.rowOffsetOffset);
    HeaderField(s, h, 72, 8, m.totalSize);
  }

  // ---- Sizes -----------------------------------------------------------------------------------

  function CheckedAdd(a: u64, b: u64): Result<u64> {
    if a > TWO_64 - 1 - b then Err(InvalidArgument) else Ok(a + b)
  }

  function CheckedMul8(a: u64): (r: Result<u64>)
    ensures r == if a * 8 < TWO_64 then Ok(a * 8) else Err(InvalidArgument)
  {
    TimesEight(a);
    if a != 0 && 8 > (TWO_64 - 1) / a then Err(InvalidArgument) else Ok(a * 8)
  }

  lemma {:induction false} TimesEight(a: u64)
    ensures a == 0 || 8 <= (TWO_64 - 1) / a <==> a * 8 < TWO_64
  {
    if a > 0 {
      var q, top := (TWO_64 - 1) / a, TWO_64 - 1;
      assert top == q * a + top % a;
      if 8 <= q {
        MulMono(8, q, a);
      } else {
        MulMono(q + 1, 8, a);
        assert (q + 1) * a == q * a + a;
      }
    }
  }

  /** ValidateMetadata; every failure is InvalidArgument. */
  function ValidateMetadata(m: Metadata, size: nat): Result<()> {
    if m.groupWidth != GROUP_WIDTH || !IsPowerOfTwo(m.capacity) || m.capacity < m.groupWidth then Err(InvalidArgument)
    else if m.rowCount > m.capacity / 8 * 7 then Err(InvalidArgument)
    else
      var controlBytes :- CheckedAdd(m.capacity, m.groupWidth);
      var keyBytes :- CheckedMul8(m.capacity);
      var rowOffsetBytes := keyBytes;  // the same checked product
      var expectedKey :- CheckedAdd(m.controlOffset, controlBytes);
      var expectedRow :- CheckedAdd(m.keyOffset, keyBytes);
      var expectedTotal :- CheckedAdd(m.rowOffsetOffset, rowOffsetBytes);
      if m.controlOffset != 80 || m.keyOffset != expectedKey || m.rowOffsetOffset != expectedRow
         || m.totalSize != expectedTotal || m.totalSize != size then Err(InvalidArgument)
      else if !InSpan(size, m.controlOffset, controlBytes) || !InSpan(size, m.keyOffset, keyBytes)
           || !InSpan(size, m.rowOffsetOffset, rowOffsetBytes) then Err(InvalidArgument)
      else Ok(())
  }

  /** What acceptance of the metadata amounts to. */
  lemma {:induction false} MetadataMeaning(m: Metadata, size: nat)
    ensures ValidateMetadata(m, size).Ok? <==>
      && m.groupWidth == 16 && IsPowerOfTwo(m.capacity) && 16 <= m.capacity && m.rowCount <= m.capacity / 8 * 7
      && m.controlOffset == 80 && m.keyOffset == 96 + m.capacity && m.rowOffsetOffset == 96 + 9 * m.capacity
      && m.totalSize == size == 96 + 17 * m.capacity
  {
    hide CheckedMul8, IsPowerOfTwo;
  }

  /** The loop of CalculateCapacity: double until large enough, refusing to pass 2^64. */
  function GrowCapacity(capacity: u64, least: nat): (r: Result<u64>)
    requires capacity > 0
    decreases TWO_64 - capacity
  {
    if capacity >= least then Ok(capacity)
    else if capacity > (TWO_64 - 1) / 2 then Err(InvalidArgument)
    else GrowCapacity(capacity * 2, least)
  }

  function CapacityFor(rowCount: nat, groupWidth: u32): Result<u64> {
    if groupWidth == 0 || groupWidth != GROUP_WIDTH then Err(InvalidArgument)
    else if rowCount > (TWO_64 - 1 - 6) / 8 then Err(InvalidArgument)
    else GrowCapacity(GROUP_WIDTH, (rowCount * 8 + 6) / 7)
  }

  lemma {:induction false} GrowthIsPower(capacity: u64, least: nat)
    requires IsPowerOfTwo(capacity) && capacity >= 16 && GrowCapacity(capacity, least).Ok?
    ensures var c := GrowCapacity(capacity, least).get;
      IsPowerOfTwo(c) && c >= 16 && c >= least && (c > capacity ==> c / 2 < least)
    decreases TWO_64 - capacity
  {
    hide IsPowerOfTwo;
    if capacity < least {
      var doubled := Doubles(capacity);
      GrowthIsPower(capacity * 2, least);
    }
  }

  lemma {:induction false} HalfIsPower(c: nat)
    requires IsPowerOfTwo(c) && c > 1
    ensures c % 2 == 0 && IsPowerOfTwo(c / 2)
  {
  }

  lemma {:induction false} PowerOf16Up(c: nat)
    requires IsPowerOfTwo(c) && c >= 16
    ensures c % 8 == 0
  {
    hide IsPowerOfTwo;
    HalfIsPower(c);
    HalfIsPower(c / 2);
    HalfIsPower(c / 2 / 2);
  }

  /** The ceil(8n/7) rule always meets the 7/8 bound that Validate checks, and half the capacity would not hold it. */
  lemma {:induction false} CapacityMeetsBound(rowCount: nat, groupWidth: u32)
    requires CapacityFor(rowCount, groupWidth).Ok?
    ensures var c := CapacityFor(rowCount, groupWidth).get;
      && groupWidth == 16 && IsPowerOfTwo(c) && c >= 16 && rowCount <= c / 8 * 7 < c
      && (c > 16 ==> 7 * (c / 2) < 8 * rowCount)
  {
    assert IsPowerOfTwo(16);
    GrowthIsPower(16, (rowCount * 8 + 6) / 7);
    PowerOf16Up(CapacityFor(rowCount, groupWidth).get);
  }

  /** Growth never runs into the 64-bit limit while the wanted size is at most 2^63. */
  lemma {:induction false} GrowthSucceeds(capacity: u64, least: nat)
    requires capacity > 0 && least <= TWO_63
    ensures GrowCapacity(capacity, least).Ok?
    decreases TWO_64 - capacity
  {
    if capacity < least {
      GrowthSucceeds(capacity * 2, least);
    }
  }

  /** A capacity is found for every row count whose eightfold does not overflow in the rounding. */
  lemma {:induction false} CapacityExists(rowCount: nat)
    ensures CapacityFor(rowCount, 16).Ok? <==> rowCount <= (TWO_64 - 7) / 8
  {
    hide GrowCapacity;
    if rowCount <= (TWO_64 - 7) / 8 {
      GrowthSucceeds(16, (rowCount * 8 + 6) / 7);
    }
  }

  method CalculateCapacity(rowCount: nat, groupWidth: u32) returns (r: Result<u64>)
    ensures r == CapacityFor(rowCount, groupWidth)
    ensures r.Ok? <==> groupWidth == 16 && rowCount <= (TWO_64 - 7) / 8
  {
    CapacityExists(rowCount);
    if groupWidth == 0 || groupWidth != GROUP_WIDTH {
      return Err(InvalidArgument);
    }
    if rowCount > (TWO_64 - 1 - 6) / 8 {
      return Err(InvalidArgument);
    }
    var least := (rowCount * 8 + 6) / 7;
    var capacity: u64 := groupWidth;
    while capacity < least
      invariant capacity > 0 && GrowCapacity(capacity, least) == CapacityFor(rowCount, groupWidth)
      decreases TWO_64 - capacity
    {
      if capacity > (TWO_64 - 1) / 2 {
        return Err(InvalidArgument);
      }
      capacity := capacity * 2;
    }
    r := Ok(capacity);
  }

  // ---- Bytes as cells --------------------------------------------------------------------------

  /** Bytes long enough for a table of n slots behind the header. */
  predicate Holds(s: bytes, n: nat) {
    n > 0 && |s| == 96 + 17 * n
  }

  function CellAt(s: bytes, n: nat, i: nat): Cell
    requires Holds(s, n) && i < n
  {
    if s[80 + i] == EMPTY_CONTROL then Vacant
    else Full(s[80 + i], U64At(s, 96 + n + 8 * i), U64At(s, 96 + 9 * n + 8 * i))
  }

  function Cells(s: bytes, n: nat): (r: seq<Cell>)
    requires Holds(s, n)
    ensures |r| == n
  {
    seq(n, i requires 0 <= i < n => CellAt(s, n, i))
  }

  predicate Mirrored(s: bytes, n: nat)
    requires Holds(s, n)
  {
    s[80 + n..96 + n] == s[80..96]
  }

  function KeyHashOf(h: HashFn, m: Metadata): KeyHash {
    (key: u64) => h(key, m.hashSeed, m.hashVersion)
  }

  /** The bytes Validate is meant to accept: good metadata, mirrored control bytes, a sound table of rowCount keys. */
  ghost predicate Accepts(h: HashFn, s: bytes) {
    var meta := ReadMetadata(s);
    && meta.Ok?
    && ValidateMetadata(meta.get, |s|).Ok?
    && (var m := meta.get;
        && Holds(s, m.capacity)
        && Mirrored(s, m.capacity)
        && TableOk(KeyHashOf(h, m), Cells(s, m.capacity))
        && Count(IsFull, Cells(s, m.capacity)) == m.rowCount)
  }

  /** A view made by Validate. */
  datatype View = View(s: bytes, m: Metadata) {
    predicate Sized() {
      Holds(s, m.capacity) && m.capacity >= 16
      && m.controlOffset == 80 && m.keyOffset == 96 + m.capacity && m.rowOffsetOffset == 96 + 9 * m.capacity
    }

    function Table(): seq<Cell>
      requires Sized()
    {
      Cells(s, m.capacity)
    }

    function ReadKey(slot: nat): Result<u64> {
      PowersOf256();
      if slot >= m.capacity then Err(InvalidArgument) else ReadAt(s, m.keyOffset + slot * 8, 8)
    }

    function ReadRowOffset(slot: nat): Result<u64> {
      PowersOf256();
      if slot >= m.capacity then Err(InvalidArgument) else ReadAt(s, m.rowOffsetOffset + slot * 8, 8)
    }

    lemma {:induction false} CellRead(slot: nat)
      requires Sized() && slot < m.capacity
      ensures s[80 + slot] == EMPTY_CONTROL ==> Table()[slot] == Vacant
      ensures ReadKey(slot).Ok? && ReadRowOffset(slot).Ok?
      ensures s[80 + slot] != EMPTY_CONTROL ==>
        Table()[slot] == Full(s[80 + slot], ReadKey(slot).get, ReadRowOffset(slot).get)
    {
      hide FromLE;
    }

    /** Lookup's own loop. */
    method Lookup(h: HashFn, key: u64) returns (r: Result<Option<u64>>)
      requires Sized()
      ensures r == Find(KeyHashOf(h, m), Table(), key)
    {
      hide FromLE, ReadKey, ReadRowOffset, Cells;
      var hash := h(key, m.hashSeed, m.hashVersion);
      var slot := hash % m.capacity;
      for scanned := 0 to m.capacity
        invariant slot == At(hash, scanned, m.capacity)
        invariant Find(KeyHashOf(h, m), Table(), key) == FindFrom(Table(), hash, key, scanned)
      {
        CellRead(slot);
        var control := s[m.controlOffset + slot];
        if control == EMPTY_CONTROL {
          return Ok(None);
        }
        if control == H2(hash) {
          var k := ReadKey(slot);
          match k
          case Err(code) => return Err(code);
          case Ok(stored) =>
            if stored == key {
              r := ReadSome(slot);
              return;
            }
        }
        AtNext(hash, scanned, m.capacity);
        slot := (slot + 1) % m.capacity;
      }
      r := Err(InvalidArgument);
    }

    method ReadSome(slot: nat) returns (r: Result<Option<u64>>)
      requires Sized() && slot < m.capacity && Table()[slot].Full?
      ensures r == Ok(Some(Table()[slot].row))
    {
      CellRead(slot);
      var row := ReadRowOffset(slot);
      match row
      case Err(code) => r := Err(code);
      case Ok(offset) => r := Ok(Some(offset));
    }

    /** Entries: occupied slots in slot order. */
    method ListEntries() returns (r: Result<seq<Entry>>)
      requires Sized()
      ensures r == Ok(Entries(Table()))
    {
      hide FromLE, ReadKey, ReadRowOffset, Cells;
      var entries: seq<Entry> := [];
      assert Table()[..0] == [];
      for slot := 0 to m.capacity
        invariant entries == Entries(Table()[..slot])
      {
        CellRead(slot);
        assert Table()[..slot + 1] == Table()[..slot] + [Table()[slot]];
        EntriesAppend(Table()[..slot], Table()[slot]);
        if s[m.controlOffset + slot] != EMPTY_CONTROL {
          var key := ReadKey(slot);
          var row := ReadRowOffset(slot);
          if key.Err? || row.Err? {
            return Err(InvalidArgument);
          }
          entries := entries + [Entry(key.get, row.get)];
        }
      }
      assert Table()[..m.capacity] == Table();
      r := Ok(entries);
    }
  }

  // ---- Validate --------------------------------------------------------------------------------

  /** The probe loop of Validate: does the slot's key reach it from its home slot? */
  method Reachable(cells: seq<Cell>, s: bytes, hash: u64, slot: nat) returns (ok: bool)
    requires Holds(s, |cells|) && cells == Cells(s, |cells|) && slot < |cells|
    ensures ok <==> Reach(cells, hash, Distance(hash, slot, |cells|))
  {
    hide Distance, FromLE;
    var n := |cells|;
    var probe := hash % n;
    for scanned := 0 to n
      invariant probe == At(hash, scanned, n)
      invariant Reach(cells, hash, scanned) && scanned <= Distance(hash, slot, n)
    {
      var control := s[80 + probe];
      if probe == slot {
        SameDistance(hash, scanned, Distance(hash, slot, n), n);
        return true;
      }
      if control == EMPTY_CONTROL {
        assert !Busy(cells, hash, scanned);
        return false;
      }
      assert Busy(cells, hash, scanned);
      AtNext(hash, scanned, n);
      probe := (probe + 1) % n;
    }
    ok := true;
  }

  method Validate(h: HashFn, s: bytes) returns (r: Result<View>)
    ensures r.Ok? <==> Accepts(h, s)
    ensures r.Err? ==> r.code == InvalidArgument
    ensures r.Ok? ==> r.get == View(s, ReadMetadata(s).get) && r.get.Sized()
  {
    hide ReadMetadata, ValidateMetadata, TableOk, Cells, FromLE, IsPowerOfTwo;
    var metadata := ReadMetadata(s);
    match metadata
    case Err(_) => r := Err(InvalidArgument);
    case Ok(m) =>
      MetadataMeaning(m, |s|);
      if ValidateMetadata(m, |s|).Err? {
        return Err(InvalidArgument);
      }
      var n := m.capacity;
      for i := 0 to m.groupWidth
        invariant s[80 + n..80 + n + i] == s[80..80 + i]
      {
        if s[m.controlOffset + n + i] != s[m.controlOffset + i] {
          assert s[80 + n..96 + n][i] != s[80..96][i];
          return Err(InvalidArgument);
        }
        assert s[80 + n..80 + n + i + 1] == s[80 + n..80 + n + i] + [s[80 + n + i]];
        assert s[80..80 + i + 1] == s[80..80 + i] + [s[80 + i]];
      }
      r := ValidateSlots(h, View(s, m));
  }

  ghost predicate SoundUpTo(h: KeyHash, cells: seq<Cell>, n: nat)
    requires n <= |cells|
  {
    && (forall i :: 0 <= i < n ==> CellOk(h, cells, i))
    && (forall i, j :: 0 <= i < j < n && cells[i].Full? && cells[j].Full? ==> cells[i].key != cells[j].key)
  }

  method ValidateSlots(h: HashFn, view: View) returns (r: Result<View>)
    requires view.Sized() && view.m.rowCount < view.m.capacity
    ensures r.Ok? <==> TableOk(KeyHashOf(h, view.m), view.Table()) && Count(IsFull, view.Table()) == view.m.rowCount
    ensures r == if r.Ok? then Ok(view) else Err(InvalidArgument)
  {
    hide FromLE, Cells, Reach, Distance, View.ReadKey, View.ReadRowOffset;
    var cells := view.Table();
    var m := view.m;
    ghost var hash := KeyHashOf(h, m);
    var seen: set<u64> := {};
    var occupied := 0;
    assert cells[..0] == [];
    for slot := 0 to m.capacity
      invariant SoundUpTo(hash, cells, slot)
      invariant forall k :: k in seen <==> exists i :: 0 <= i < slot && cells[i].Full? && cells[i].key == k
      invariant occupied == Count(IsFull, cells[..slot])
    {
      view.CellRead(slot);
      assert cells[..slot + 1] == cells[..slot] + [cells[slot]];
      CountAppend(IsFull, cells[..slot], cells[slot]);
      var control := view.s[m.controlOffset + slot];
      if control != EMPTY_CONTROL {
        if control >= 0x80 {
          assert !CellOk(hash, cells, slot);
          return Err(InvalidArgument);
        }
        var key := view.ReadKey(slot);
        if key.Err? {
          return Err(InvalidArgument);
        }
        if key.get in seen {
          return Err(InvalidArgument);
        }
        seen := seen + {key.get};
        var keyHash := h(key.get, m.hashSeed, m.hashVersion);
        if control != H2(keyHash) {
          assert !CellOk(hash, cells, slot);
          return Err(InvalidArgument);
        }
        var reachable := Reachable(cells, view.s, keyHash, slot);
        if !reachable {
          assert !CellOk(hash, cells, slot);
          return Err(InvalidArgument);
        }
        assert CellOk(hash, cells, slot);
        occupied := occupied + 1;
      }
    }
    assert cells[..m.capacity] == cells;
    if occupied != m.rowCount {
      return Err(InvalidArgument);
    }
    r := Ok(view);
  }

  /** For any bytes Validate accepts: no lookup errs, and a lookup finds exactly what Entries lists. */
  lemma {:induction false} AcceptedLookups(h: HashFn, s: bytes, key: u64, row: u64)
    requires Accepts(h, s)
    ensures var m := ReadMetadata(s).get;
      && Find(KeyHashOf(h, m), Cells(s, m.capacity), key).Ok?
      && (Find(KeyHashOf(h, m), Cells(s, m.capacity), key) == Ok(Some(row)) <==>
            Entry(key, row) in Entries(Cells(s, m.capacity)))
      && |Entries(Cells(s, m.capacity))| == m.rowCount
  {
    var m := ReadMetadata(s).get;
    FindIsExact(KeyHashOf(h, m), Cells(s, m.capacity), key);
    FindListsEntries(KeyHashOf(h, m), Cells(s, m.capacity), key, row);
  }

  // ---- Build -----------------------------------------------------------------------------------

  predicate DistinctEntries(entries: seq<Entry>) {
    forall i, j :: 0 <= i < j < |entries| ==> entries[i].key != entries[j].key
  }

  /** Every size and offset of the table for n rows, or the overflow that stops the build. */
  function PlanMetadata(n: nat, options: BuildOptions): Result<Metadata> {
    var capacity :- CapacityFor(n, options.groupWidth);
    var controlBytes :- CheckedAdd(capacity, options.groupWidth);
    var keyBytes :- CheckedMul8(capacity);
    var keyOffset :- CheckedAdd(80, controlBytes);
    var rowOffsetOffset :- CheckedAdd(keyOffset, keyBytes);
    var totalSize :- CheckedAdd(rowOffsetOffset, keyBytes);
    if n >= TWO_64 then Err(InvalidArgument)
    else Ok(Metadata(n, capacity, options.hashSeed, options.hashVersion, options.groupWidth,
                     80, keyOffset, rowOffsetOffset, totalSize))
  }

  lemma {:induction false} PlanIsValid(n: nat, options: BuildOptions)
    requires PlanMetadata(n, options).Ok?
    ensures var m := PlanMetadata(n, options).get;
      && ValidateMetadata(m, m.totalSize).Ok? && m.totalSize == 96 + 17 * m.capacity && m.rowCount == n
      && n < m.capacity && 16 <= m.capacity && m.groupWidth == 16 && m.controlOffset == 80
      && m.hashSeed == options.hashSeed && m.hashVersion == options.hashVersion && options.groupWidth == 16
      && m.keyOffset == 96 + m.capacity && m.rowOffsetOffset == 96 + 9 * m.capacity
  {
    hide CapacityFor, ValidateMetadata, IsPowerOfTwo;
    CapacityMeetsBound(n, options.groupWidth);
    var m := PlanMetadata(n, options).get;
    MetadataMeaning(m, m.totalSize);
  }

  /** The most rows whose index fits 64 bits: 7 * 2^56, at a capacity of 2^59. */
  const MAX_ROWS: nat := 0x700_0000_0000_0000

  /** No overflow is reported for fewer rows, and some is for more. */
  lemma {:induction false} PlanFits(n: nat, options: BuildOptions)
    ensures PlanMetadata(n, options).Ok? <==> options.groupWidth == 16 && n <= MAX_ROWS
  {
    hide CapacityFor, IsPowerOfTwo;
    if options.groupWidth != 16 {
      OtherWidthFails(n, options.groupWidth);
    } else {
      CapacityExists(n);
      if CapacityFor(n, 16).Ok? {
        var c := CapacityFor(n, 16).get;
        CapacityMeetsBound(n, 16);
        PowersBelow(c);
      }
    }
  }

  lemma {:induction false} OtherWidthFails(n: nat, groupWidth: u32)
    requires groupWidth != 16
    ensures CapacityFor(n, groupWidth).Err?
  {
  }

  lemma {:induction false} TwoTo59IsPowerOfTwo()
    ensures IsPowerOfTwo(0x800_0000_0000_0000)
  {
    assert IsPowerOfTwo(8);
    hide IsPowerOfTwo;
    ScaleBy256(8);
    ScaleBy256(0x800);
    ScaleBy256(0x8_0000);
    ScaleBy256(0x800_0000);
    ScaleBy256(0x8_0000_0000);
    ScaleBy256(0x800_0000_0000);
    ScaleBy256(0x8_0000_0000_0000);
  }

  /** A power of two below 2^60 is at most 2^59. */
  lemma {:induction false} PowersBelow(c: nat)
    requires IsPowerOfTwo(c)
    ensures c <= 0x800_0000_0000_0000 || c >= 0x1000_0000_0000_0000
  {
    hide IsPowerOfTwo;
    if c > 0x800_0000_0000_0000 {
      TwoTo59IsPowerOfTwo();
      PowerOfTwoDivides(0x800_0000_0000_0000, c);
      var q :| q > 0 && c == q * 0x800_0000_0000_0000;
    }
  }

  method PutField(span: array<byte>, at: nat, w: nat, v: nat)
    requires at + w <= span.Length
    modifies span
    ensures span[..at + w] == old(span[..at]) + LE(v, w)
    ensures span[at + w..] == old(span[at + w..])
    ensures span[..] == WriteAt(old(span[..]), at, w, v)
  {
    hide LE;
    var written := WriteLittleEndian(v, w, span, at);
  }

  method WriteHeader(span: array<byte>, m: Metadata)
    requires span.Length >= 80
    modifies span
    ensures span[..80] == HeaderBytes(m)
  {
    hide LE, WriteAt;
    PutField(span, 0, 8, MAGIC);
    PutField(span, 8, 4, FORMAT_VERSION);
    PutField(span, 12, 4, HEADER_SIZE);
    PutField(span, 16, 8, m.rowCount);
    PutField(span, 24, 8, m.capacity);
    PutField(span, 32, 8, m.hashSeed);
    PutField(span, 40, 4, m.hashVersion);
    PutField(span, 44, 4, m.groupWidth);
    PutField(span, 48, 8, m.controlOffset);
    PutField(span, 56, 8, m.keyOffset);
    PutField(span, 64, 8, m.rowOffsetOffset);
    PutField(span, 72, 8, m.totalSize);
  }

  /** s with one entry written into slot: its control byte, its key and its row offset. */
  function WithEntry(s: bytes, n: nat, slot: nat, control: byte, e: Entry): (r: bytes)
    requires Holds(s, n) && slot < n
    ensures |r| == |s|
  {
    WriteAt(WriteAt(s[80 + slot := control], 96 + n + 8 * slot, 8, e.key), 96 + 9 * n + 8 * slot, 8, e.row)
  }

  lemma {:induction false} EntryWritten(s: bytes, n: nat, slot: nat, control: byte, e: Entry)
    requires Holds(s, n) && slot < n && control < 0x80
    ensures CellAt(WithEntry(s, n, slot, control, e), n, slot) == Full(control, e.key, e.row)
  {
    hide LE, FromLE;
    PowersOf256();
    var keyAt, rowAt := 96 + n + 8 * slot, 96 + 9 * n + 8 * slot;
    var s1 := s[80 + slot := control];
    var s2 := WriteAt(s1, keyAt, 8, e.key);
    ReadWritten(s1, keyAt, 8, e.key);
    SliceWrittenElsewhere(s2, rowAt, 8, e.row, keyAt, keyAt + 8);
    ReadWritten(s2, rowAt, 8, e.row);
  }

  lemma {:induction false} KeptSlice(s: bytes, n: nat, slot: nat, control: byte, e: Entry, lo: nat, hi: nat)
    requires Holds(s, n) && slot < n && lo <= hi <= |s|
    requires hi <= 80 + slot || 80 + slot < lo
    requires hi <= 96 + n + 8 * slot || 96 + n + 8 * slot + 8 <= lo
    requires hi <= 96 + 9 * n + 8 * slot || 96 + 9 * n + 8 * slot + 8 <= lo
    ensures WithEntry(s, n, slot, control, e)[lo..hi] == s[lo..hi]
  {
    hide WriteAt;
    var s1 := s[80 + slot := control];
    var s2 := WriteAt(s1, 96 + n + 8 * slot, 8, e.key);
    SliceWrittenElsewhere(s1, 96 + n + 8 * slot, 8, e.key, lo, hi);
    SliceWrittenElsewhere(s2, 96 + 9 * n + 8 * slot, 8, e.row, lo, hi);
    assert s1[lo..hi] == s[lo..hi];
  }

  lemma {:induction false} OtherCellKept(s: bytes, n: nat, slot: nat, control: byte, e: Entry, j: nat)
    requires Holds(s, n) && slot < n && j < n && j != slot
    ensures CellAt(WithEntry(s, n, slot, control, e), n, j) == CellAt(s, n, j)
  {
    hide FromLE, WithEntry;
    var t := WithEntry(s, n, slot, control, e);
    KeptSlice(s, n, slot, control, e, 80 + j, 80 + j + 1);
    assert t[80 + j] == t[80 + j..80 + j + 1][0] && s[80 + j] == s[80 + j..80 + j + 1][0];
    KeptSlice(s, n, slot, control, e, 96 + n + 8 * j, 96 + n + 8 * j + 8);
    KeptSlice(s, n, slot, control, e, 96 + 9 * n + 8 * j, 96 + 9 * n + 8 * j + 8);
  }

  lemma {:induction false} CellsWithEntry(s: bytes, n: nat, slot: nat, control: byte, e: Entry)
    requires Holds(s, n) && slot < n && control < 0x80
    ensures Cells(WithEntry(s, n, slot, control, e), n) == Cells(s, n)[slot := Full(control, e.key, e.row)]
    ensures WithEntry(s, n, slot, control, e)[..80] == s[..80]
  {
    hide WithEntry, CellAt;
    var t := WithEntry(s, n, slot, control, e);
    EntryWritten(s, n, slot, control, e);
    forall j | 0 <= j < n
      ensures Cells(t, n)[j] == Cells(s, n)[slot := Full(control, e.key, e.row)][j]
    {
      if j != slot {
        OtherCellKept(s, n, slot, control, e, j);
      }
    }
    KeptSlice(s, n, slot, control, e, 0, 80);
  }

  /** The probing loop of Build: it ends because it comes nearer to a vacant slot with every step. */
  method FindVacant(span: array<byte>, n: nat, hash: u64) returns (slot: nat, ghost d: nat)
    requires Holds(span[..], n) && Count(IsFull, Cells(span[..], n)) < n
    ensures d < n && slot == At(hash, d, n) && slot < n
    ensures Reach(Cells(span[..], n), hash, d) && Cells(span[..], n)[slot].Vacant?
  {
    hide FromLE, At, Cells;
    ghost var cells := Cells(span[..], n);
    slot := HomeSlot(hash, n);
    d := 0;
    ghost var stop := VacantAhead(cells, hash, 0);
    ControlOf(span[..], n, slot);
    while span[80 + slot] != EMPTY_CONTROL
      invariant slot == At(hash, d, n) && d <= stop && Reach(cells, hash, d)
      invariant (span[80 + slot] == EMPTY_CONTROL) == cells[slot].Vacant?
      decreases stop - d
    {
      assert Busy(cells, hash, d);
      AtNext(hash, d, n);
      slot := (slot + 1) % n;
      d := d + 1;
      ControlOf(span[..], n, slot);
    }
  }

  /** One entry: probe, then three writes in place. */
  method InsertEntry(h: HashFn, m: Metadata, span: array<byte>, e: Entry) returns (ghost d: nat)
    requires Holds(span[..], m.capacity) && m.controlOffset == 80
    requires m.keyOffset == 96 + m.capacity && m.rowOffsetOffset == 96 + 9 * m.capacity
    requires Count(IsFull, Cells(span[..], m.capacity)) < m.capacity
    modifies span
    ensures span[..80] == old(span[..80])
    ensures d < m.capacity
    ensures InsertedAt(KeyHashOf(h, m), old(Cells(span[..], m.capacity)), Cells(span[..], m.capacity), e, d)
  {
    hide LE, FromLE, At, Cells, WriteAt, Reach;
    var n := m.capacity;
    ghost var was := span[..];
    var hash := h(e.key, m.hashSeed, m.hashVersion);
    var slot;
    slot, d := FindVacant(span, n, hash);
    span[m.controlOffset + slot] := H2(hash);
    assert span[..] == was[80 + slot := H2(hash)];
    PutField(span, m.keyOffset + slot * 8, 8, e.key);
    PutField(span, m.rowOffsetOffset + slot * 8, 8, e.row);
    CellsWithEntry(was, n, slot, H2(hash), e);
    assert span[..80] == span[..][..80];
  }

  function HomeSlot(hash: u64, n: nat): (i: nat)
    requires n > 0
    ensures i == At(hash, 0, n)
  {
    hash % n
  }

  lemma {:induction false} ControlOf(s: bytes, n: nat, i: nat)
    requires Holds(s, n) && i < n
    ensures (s[80 + i] == EMPTY_CONTROL) == Cells(s, n)[i].Vacant?
  {
  }

  ghost predicate InsertedAt(h: KeyHash, cells: seq<Cell>, more: seq<Cell>, e: Entry, d: nat) {
    && |cells| > 0 && Reach(cells, h(e.key), d) && cells[At(h(e.key), d, |cells|)].Vacant?
    && more == cells[At(h(e.key), d, |cells|) := Full(H2(h(e.key)), e.key, e.row)]
  }

  /** The table holds exactly the entries put in so far. */
  ghost predicate Filled(h: KeyHash, cells: seq<Cell>, entries: seq<Entry>) {
    && |cells| > 0 && (forall i :: 0 <= i < |cells| ==> CellOk(h, cells, i)) && DistinctKeys(cells)
    && multiset(Entries(cells)) == multiset(entries)
    && Count(IsFull, cells) == |entries|
  }

  lemma {:induction false} FillOne(h: KeyHash, cells: seq<Cell>, more: seq<Cell>, entries: seq<Entry>, e: Entry, d: nat)
    requires Filled(h, cells, entries) && d < |cells| && InsertedAt(h, cells, more, e, d)
    requires forall i :: 0 <= i < |entries| ==> entries[i].key != e.key
    ensures Filled(h, more, entries + [e])
  {
    hide Reach, Distance, At;
    forall i | 0 <= i < |cells| && cells[i].Full?
      ensures cells[i].key != e.key
    {
      var x := Entry(cells[i].key, cells[i].row);
      EntriesMembers(cells, x);
      assert x in multiset(entries);
    }
    InsertKeepsTable(h, cells, e, d);
    EntriesInsert(cells, At(h(e.key), d, |cells|), e, H2(h(e.key)));
  }

  method HasDuplicate(entries: seq<Entry>) returns (dup: bool)
    ensures dup <==> !DistinctEntries(entries)
  {
    var seen: set<u64> := {};
    for i := 0 to |entries|
      invariant DistinctEntries(entries[..i])
      invariant forall k :: k in seen <==> exists j :: 0 <= j < i && entries[j].key == k
    {
      if entries[i].key in seen {
        return true;
      }
      seen := seen + {entries[i].key};
    }
    assert entries[..|entries|] == entries;
    dup := false;
  }

  /** Fill the control bytes with kEmptyControl. */
  method ClearControl(span: array<byte>, n: nat)
    requires Holds(span[..], n) && n >= 16
    modifies span
    ensures span[..80] == old(span[..80])
    ensures forall i :: 0 <= i < n ==> Cells(span[..], n)[i] == Vacant
  {
    for i := 0 to n + 16
      invariant span[..80] == old(span[..80])
      invariant forall k :: 80 <= k < 80 + i ==> span[k] == EMPTY_CONTROL
    {
      span[80 + i] := EMPTY_CONTROL;
    }
    forall i | 0 <= i < n
      ensures Cells(span[..], n)[i] == Vacant
    {
      ControlOf(span[..], n, i);
    }
  }

  /** Copy the first control group behind the last one. */
  method Mirror(span: array<byte>, n: nat)
    requires Holds(span[..], n) && n >= 16
    modifies span
    ensures span[..80] == old(span[..80]) && Mirrored(span[..], n)
    ensures Cells(span[..], n) == old(Cells(span[..], n))
  {
    ghost var was := span[..];
    for i := 0 to 16
      invariant span[..80 + n] == was[..80 + n] && span[96 + n..] == was[96 + n..]
      invariant span[80 + n..80 + n + i] == was[80..80 + i]
    {
      span[80 + n + i] := span[80 + i];
    }
    SameCells(was, span[..], n);
    assert span[..80] == span[..80 + n][..80];
    SubSlice(span[..], 0, 80 + n, 80, 96);
    SubSlice(was, 0, 80 + n, 80, 96);
    assert span[..][0..80 + n] == span[..80 + n] && was[0..80 + n] == was[..80 + n];
    assert span[..][80 + n..96 + n] == span[80 + n..96 + n];
  }

  lemma {:induction false} TailSlice(s: bytes, t: bytes, lo: nat, at: nat)
    requires |s| == |t| && lo <= at && at + 8 <= |s| && s[lo..] == t[lo..]
    ensures s[at..at + 8] == t[at..at + 8]
  {
    assert s[lo..][at - lo..at - lo + 8] == s[at..at + 8];
    assert t[lo..][at - lo..at - lo + 8] == t[at..at + 8];
  }

  lemma {:induction false} SameCells(s: bytes, t: bytes, n: nat)
    requires Holds(s, n) && Holds(t, n) && t[..80 + n] == s[..80 + n] && t[96 + n..] == s[96 + n..]
    ensures Cells(t, n) == Cells(s, n)
  {
    hide FromLE;
    forall i | 0 <= i < n
      ensures CellAt(t, n, i) == CellAt(s, n, i)
    {
      assert t[80 + i] == t[..80 + n][80 + i] && s[80 + i] == s[..80 + n][80 + i];
      TailSlice(s, t, 96 + n, 96 + n + 8 * i);
      TailSlice(s, t, 96 + n, 96 + 9 * n + 8 * i);
    }
  }

  /** Build succeeds exactly on distinct keys within the size limits; Validate accepts what it wrote. */
  method Build(h: HashFn, entries: seq<Entry>, options: BuildOptions) returns (r: Result<bytes>)
    ensures r.Ok? <==> options.groupWidth == 16 && |entries| <= MAX_ROWS && DistinctEntries(entries)
    ensures r.Err? ==> r.code == InvalidArgument
    ensures r.Ok? ==>
      && Accepts(h, r.get) && ReadMetadata(r.get) == PlanMetadata(|entries|, options)
      && multiset(Entries(Cells(r.get, ReadMetadata(r.get).get.capacity))) == multiset(entries)
  {
    hide LE, FromLE, ValidateMetadata, CapacityFor;
    hide Cells, CellOk, HeaderBytes, Entries, At;
    PlanFits(|entries|, options);
    var dup := HasDuplicate(entries);
    var plan := PlanMetadata(|entries|, options);
    if plan.Err? || dup {
      return Err(InvalidArgument);
    }
    var m := plan.get;
    PlanIsValid(|entries|, options);
    ghost var hash := KeyHashOf(h, m);
    var span := new byte[m.totalSize](_ => 0);
    WriteHeader(span, m);
    ClearControl(span, m.capacity);
    InsertAll(h, m, span, entries);
    Mirror(span, m.capacity);
    assert span[..][..80] == span[..80];
    HeaderReads(span[..], m);
    r := Ok(span[..]);
  }

  method InsertAll(h: HashFn, m: Metadata, span: array<byte>, entries: seq<Entry>)
    requires Holds(span[..], m.capacity) && m.controlOffset == 80
    requires m.keyOffset == 96 + m.capacity && m.rowOffsetOffset == 96 + 9 * m.capacity
    requires |entries| < m.capacity && DistinctEntries(entries)
    requires forall i :: 0 <= i < m.capacity ==> Cells(span[..], m.capacity)[i] == Vacant
    modifies span
    ensures span[..80] == old(span[..80])
    ensures Filled(KeyHashOf(h, m), Cells(span[..], m.capacity), entries)
  {
    hide Cells, CellOk, Entries, At, InsertedAt, FromLE;
    ghost var hash := KeyHashOf(h, m);
    NothingFilled(hash, Cells(span[..], m.capacity));
    assert entries[..0] == [];
    for i := 0 to |entries|
      invariant span[..80] == old(span[..80])
      invariant Filled(hash, Cells(span[..], m.capacity), entries[..i])
    {
      ghost var cells := Cells(span[..], m.capacity);
      ghost var d := InsertEntry(h, m, span, entries[i]);
      assert entries[..i + 1] == entries[..i] + [entries[i]];
      FillOne(hash, cells, Cells(span[..], m.capacity), entries[..i], entries[i], d);
    }
    assert entries[..|entries|] == entries;
  }

  lemma {:induction false} NothingFilled(h: KeyHash, cells: seq<Cell>)
    requires |cells| > 0 && forall i :: 0 <= i < |cells| ==> cells[i] == Vacant
    ensures Filled(h, cells, [])
  {
    NoEntries(cells);
  }

  /** Lookup on a built table is the entry map, for every key. */
  lemma {:induction false} BuiltLookups(h: HashFn, s: bytes, entries: seq<Entry>, key: u64, row: u64)
    requires Accepts(h, s) && multiset(Entries(Cells(s, ReadMetadata(s).get.capacity))) == multiset(entries)
    ensures var m := ReadMetadata(s).get;
      Find(KeyHashOf(h, m), Cells(s, m.capacity), key) == Ok(Some(row)) <==> Entry(key, row) in entries
    ensures var m := ReadMetadata(s).get;
      Find(KeyHashOf(h, m), Cells(s, m.capacity), key) == Ok(None) <==> forall e :: e in entries ==> e.key != key
  {
    var m := ReadMetadata(s).get;
    var cells := Cells(s, m.capacity);
    AcceptedLookups(h, s, key, row);
    forall e: Entry
      ensures e in entries <==> e in Entries(cells)
    {
      assert e in entries <==> e in multiset(entries);
      assert e in Entries(cells) <==> e in multiset(Entries(cells));
    }
    forall e | e in entries && e.key == key
      ensures Find(KeyHashOf(h, m), cells, key) == Ok(Some(e.row))
    {
      AcceptedLookups(h, s, key, e.row);
    }
    if Find(KeyHashOf(h, m), cells, key).get.Some? {
      AcceptedLookups(h, s, key, Find(KeyHashOf(h, m), cells, key).get.value);
    }
  }

  lemma {:induction false} AcceptedEntriesDistinct(h: HashFn, s: bytes)
    requires Accepts(h, s)
    ensures DistinctEntries(Entries(Cells(s, ReadMetadata(s).get.capacity)))
  {
    EntriesDistinct(Cells(s, ReadMetadata(s).get.capacity));
  }
}
