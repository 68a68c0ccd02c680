/**
 * The realtime table, src/store/realtime_delta.cc: an open-addressing map for readers, an append-only list of
 * rows for scans. Publishers hold a mutex, so here one call runs at a time; ConcurrentMap has the interleavings.
 */
module RealtimeDelta {
  import opened Basics
  import opened Probing
  import opened Schema
  import opened RowStorage
  import opened Sorting
  import opened Counting

  datatype RowRef = RowRef(key: u64, position: SourcePosition, encoded: EncodedRow)

  /** An element of rows_; sealed_visible is set once the map accepted the row. */
  datatype StoredRow = StoredRow(ref: RowRef, sealedVisible: bool)

  datatype SlotState = Empty | Reserved | Occupied

  datatype Slot = Slot(state: SlotState, key: u64, row: Option<RowRef>)

  ghost predicate GoodRef(ref: RowRef) {
    IsValidSourcePosition(ref.position)
  }

  // ---- The map -----------------------------------------------------------------------------------

  /**
   * PublishAndReport: what is told, and what readers then see. The key is shut out if none of its probes meets an
   * empty slot; a table whose capacity divides 2^64 shuts out new keys only when it is full.
   */
  function PublishTo(capacity: nat, m: map<u64, RowRef>, ref: RowRef, shut: bool): (Result<bool>, map<u64, RowRef>) {
    if ref.key in m then
      match ClassifySourcePositionUpdate(m[ref.key].position, ref.position)
      case Err(code) => (Err(code), m)
      case Ok(Newer) => (Ok(true), m[ref.key := ref])
      case Ok(_) => (Ok(false), m)
    else if shut || |m| >= capacity then (Err(FailedPrecondition), m)
    else (Ok(true), m[ref.key := ref])
  }

  lemma {:induction false} PublishToNew(capacity: nat, m: map<u64, RowRef>, ref: RowRef, shut: bool)
    ensures ref.key !in m ==>
      PublishTo(capacity, m, ref, shut)
        == if shut || |m| >= capacity then (Err(FailedPrecondition), m) else (Ok(true), m[ref.key := ref])
  {
  }

  lemma {:induction false} ProbesOfThree()
    ensures ProbeSlot(0, 0, 3) == 0 && ProbeSlot(0, 1, 3) == 1 && ProbeSlot(0, 2, 3) == 2
    ensures ProbeSlot(1, 0, 3) == 1 && ProbeSlot(1, 1, 3) == 2 && ProbeSlot(1, 2, 3) == 0
    ensures ProbeSlot(TWO_64 - 1, 0, 3) == 0 && ProbeSlot(TWO_64 - 1, 1, 3) == 0 && ProbeSlot(TWO_64 - 1, 2, 3) == 1
  {
    WrapsToStart(1, 3);
    WrapsToStart(2, 3);
  }

  class RealtimeAtomicHashMap {
    const capacity: nat
    const hash: u64 -> u64
    const slots: array<Slot>
    var uniqueKeyCount: nat
    ghost var contents: map<u64, RowRef>
    ghost var probeOf: map<u64, nat>

    ghost predicate Passed(key: u64, q: nat)
      requires slots.Length == capacity > 0
      reads this, slots
    {
      var slot := slots[ProbeSlot(hash(key), q, capacity)];
      slot.state.Occupied? && slot.key != key
    }

    /** Key k sits at its probe p, behind occupied slots of other keys. */
    ghost predicate Placed(k: u64)
      requires slots.Length == capacity > 0 && k in contents && k in probeOf
      reads this, slots
    {
      && probeOf[k] < capacity
      && slots[ProbeSlot(hash(k), probeOf[k], capacity)] == Slot(Occupied, k, Some(contents[k]))
      && contents[k].key == k && GoodRef(contents[k])
      && forall q :: 0 <= q < probeOf[k] ==> Passed(k, q)
    }

    ghost predicate Valid()
      reads this, slots
    {
      && slots.Length == capacity
      && contents.Keys == probeOf.Keys
      && uniqueKeyCount == |contents|
      && (capacity == 0 ==> contents == map[])
      && (capacity > 0 ==>
            && (forall k :: k in contents ==> Placed(k))
            && (forall i :: 0 <= i < capacity ==>
                  slots[i].state.Empty?
                  || (slots[i].state.Occupied? && slots[i].key in contents
                      && ProbeSlot(hash(slots[i].key), probeOf[slots[i].key], capacity) == i)))
    }

    constructor (capacity: nat, hash: u64 -> u64)
      ensures Valid() && contents == map[] && this.capacity == capacity && this.hash == hash && fresh(slots)
    {
      this.capacity, this.hash := capacity, hash;
      slots := new Slot[capacity](_ => Slot(Empty, 0, None));
      uniqueKeyCount := 0;
      contents, probeOf := map[], map[];
    }

    /** A probe that meets an empty slot after passing p others, or passed them all, was for an absent key. */
    lemma {:induction false} Absent(key: u64, p: nat)
      requires Valid() && capacity > 0 && p <= capacity && forall q :: 0 <= q < p ==> Passed(key, q)
      requires p < capacity ==> slots[ProbeSlot(hash(key), p, capacity)].state.Empty?
      ensures key !in contents
    {
      if key in contents {
        assert Placed(key);
        var at := probeOf[key];
        var passed := if at < p then Passed(key, at) else if at > p then Passed(key, p) else true;
      }
    }

    ghost function SlotOfKey(): (m: map<u64, nat>)
      requires Valid() && capacity > 0
      reads this, slots
      ensures InjectiveBelow(m, capacity) && m.Keys == contents.Keys
      ensures forall k :: k in m ==> m[k] == ProbeSlot(hash(k), probeOf[k], capacity)
    {
      var m := map k | k in contents :: ProbeSlot(hash(k), probeOf[k], capacity);
      assert forall k :: k in m ==> Placed(k);
      m
    }

    lemma {:induction false} EmptySlotLeft(i: nat)
      requires Valid() && i < capacity && slots[i].state.Empty?
      ensures |contents| < capacity
    {
      var m := SlotOfKey();
      PlacedCount(m, capacity);
      assert |m| == |m.Keys| == |contents|;
      forall k | k in m
        ensures m[k] != i
      {
        assert Placed(k);
      }
      assert !Taken(m, i);
    }

    lemma {:induction false} NoSlotLeft()
      requires Valid() && capacity > 0 && forall i :: 0 <= i < capacity ==> slots[i].state.Occupied?
      ensures |contents| == capacity
    {
      var m := SlotOfKey();
      forall i | 0 <= i < capacity
        ensures Taken(m, i)
      {
        assert m[slots[i].key] == i;
      }
      PlacedCount(m, capacity);
      assert |m| == |m.Keys| == |contents|;
    }

    /** No probe of the key meets an empty slot. */
    ghost predicate ShutOut(key: u64)
      reads this, slots
    {
      slots.Length == capacity > 0 && forall q :: 0 <= q < capacity ==>
        !slots[ProbeSlot(hash(key), q, capacity)].state.Empty?
    }

    /** With a capacity that divides 2^64 that happens to a new key only in a full table. */
    lemma {:induction false} ShutOutMeansFull(key: u64)
      requires Valid() && ShutOut(key) && TWO_64 % capacity == 0
      ensures |contents| == capacity
    {
      forall i | 0 <= i < capacity
        ensures slots[i].state.Occupied?
      {
        var p := ProbesCover(hash(key), capacity, i);
        assert !slots[ProbeSlot(hash(key), p, capacity)].state.Empty?;
      }
      NoSlotLeft();
    }

    /** With any other it happens to a key of hash 2^64 - 1 while the last slot is free. */
    lemma {:induction false} ShutOutWithRoom(key: u64)
      requires Valid() && 0 < capacity <= TWO_64 && TWO_64 % capacity != 0 && hash(key) == TWO_64 - 1
      requires forall i :: 0 <= i < capacity ==> (slots[i].state.Empty? <==> i == capacity - 1)
      ensures ShutOut(key) && |contents| < capacity
    {
      LastSlotLost(capacity);
      EmptySlotLeft(capacity - 1);
      forall q | 0 <= q < capacity
        ensures !slots[ProbeSlot(hash(key), q, capacity)].state.Empty?
      {
        assert ProbeSlot(hash(key), q, capacity) != capacity - 1;
      }
    }

    method Get(key: u64) returns (r: Result<Option<RowRef>>)
      requires Valid()
      ensures r == Ok(if key in contents then Some(contents[key]) else None)
    {
      if capacity == 0 {
        return Ok(None);
      }
      for probe := 0 to capacity
        invariant forall q :: 0 <= q < probe ==> Passed(key, q)
      {
        var slot := slots[ProbeSlot(hash(key), probe, capacity)];
        if slot.state.Reserved? || slot.state.Empty? {
          Absent(key, probe);
          return Ok(None);
        }
        if slot.key == key {
          assert Placed(key);
          if slot.row.None? {
            return Err(Internal);
          }
          return Ok(slot.row);
        }
        assert Passed(key, probe);
      }
      Absent(key, capacity);
      r := Ok(None);
    }

    lemma {:induction false} FirstNotShutOut(key: u64)
      requires Valid() && contents == map[]
      ensures !ShutOut(key)
    {
      var vacant := capacity > 0 ==> slots[ProbeSlot(hash(key), 0, capacity)].state.Empty?;
    }

    lemma {:induction false} SecondNotShutOut(a: u64, b: u64)
      requires Valid() && capacity == 3 && contents.Keys == {a} && hash(b) == 1
      ensures !ShutOut(b)
    {
      ProbesOfThree();
      hide ProbeSlot, Placed;
      var first, second := slots[ProbeSlot(hash(b), 0, 3)].state, slots[ProbeSlot(hash(b), 1, 3)].state;
    }

    /** The smallest such table: two slots of three are filled, and the third key reaches only those. */
    lemma {:induction false} ThirdKeyShutOut(a: u64, b: u64, key: u64)
      requires Valid() && capacity == 3 && contents.Keys == {a, b} && a != b
      requires hash(a) == 0 && hash(b) == 1 && hash(key) == TWO_64 - 1
      ensures ShutOut(key) && |contents| == 2
    {
      ProbesOfThree();
      hide ProbeSlot;
      assert |contents| == |contents.Keys|;
      assert Placed(a) && Placed(b);
      var firstA, firstB, secondB := Passed(a, 0), Passed(b, 0), Passed(b, 1);
      assert probeOf[a] == 0 && probeOf[b] == 0;
      hide Passed, Placed;
      forall q | 0 <= q < 3
        ensures !slots[ProbeSlot(hash(key), q, 3)].state.Empty?
      {
        assert q == 0 || q == 1 || q == 2;
      }
    }

    method PublishAndReport(key: u64, ref: RowRef) returns (r: Result<bool>)
      requires Valid()
      modifies this, slots
      ensures Valid()
      ensures ref.key != key || !GoodRef(ref) ==> r == Err(InvalidArgument) && contents == old(contents)
      ensures ref.key == key && GoodRef(ref) ==>
        (r, contents) == PublishTo(capacity, old(contents), ref, old(ShutOut(key)))
      ensures r.Err? ==> slots[..] == old(slots[..])
    {
      hide PublishTo;
      if ref.key != key || !IsValidSourcePosition(ref.position) {
        return Err(InvalidArgument);
      }
      ghost var shut := ShutOut(key);
      PublishToNew(capacity, contents, ref, shut);
      if capacity == 0 {
        return Err(FailedPrecondition);
      }
      for probe := 0 to capacity
        invariant Valid() && contents == old(contents) && ShutOut(key) == shut && slots[..] == old(slots[..])
        invariant forall q :: 0 <= q < probe ==> Passed(key, q)
      {
        var i := ProbeSlot(hash(key), probe, capacity);
        if slots[i].state.Reserved? {
          return Err(Unavailable);
        }
        if slots[i].state.Occupied? {
          if slots[i].key == key {
            assert Placed(key);
            r := PublishExisting(i, ref, shut);
            return;
          }
          assert Passed(key, probe);
        } else {
          Absent(key, probe);
          EmptySlotLeft(i);
          Occupy(i, probe, ref);
          return Ok(true);
        }
      }
      AllPassed(key);
      r := Err(FailedPrecondition);
    }

    lemma {:induction false} AllPassed(key: u64)
      requires Valid() && capacity > 0 && forall q :: 0 <= q < capacity ==> Passed(key, q)
      ensures ShutOut(key) && key !in contents
    {
      Absent(key, capacity);
      forall q | 0 <= q < capacity
        ensures !slots[ProbeSlot(hash(key), q, capacity)].state.Empty?
      {
        assert Passed(key, q);
      }
    }

    method PublishExisting(i: nat, ref: RowRef, ghost shut: bool) returns (r: Result<bool>)
      requires Valid() && i < capacity && slots[i].state.Occupied? && slots[i].key == ref.key && GoodRef(ref)
      requires ref.key in contents
      modifies this, slots
      ensures Valid() && (r, contents) == PublishTo(capacity, old(contents), ref, shut)
      ensures r.Err? ==> slots[..] == old(slots[..])
    {
      assert Placed(ref.key);
      if slots[i].row.None? {
        return Err(Internal);
      }
      var decision := ClassifySourcePositionUpdate(slots[i].row.value.position, ref.position);
      if decision.Err? {
        return Err(decision.code);
      }
      if decision.get != Newer {
        return Ok(false);
      }
      ghost var was := slots[..];
      slots[i] := slots[i].(row := Some(ref));
      contents := contents[ref.key := ref];
      assert contents.Keys == old(contents).Keys;
      forall k | k in contents
        ensures Placed(k)
      {
        assert old(Placed(k));
        forall q | 0 <= q < probeOf[k]
          ensures Passed(k, q)
        {
          assert old(Passed(k, q));
        }
      }
      r := Ok(true);
    }

    method Occupy(i: nat, probe: nat, ref: RowRef)
      requires Valid() && capacity > 0 && probe < capacity && i == ProbeSlot(hash(ref.key), probe, capacity)
      requires slots[i].state.Empty? && ref.key !in contents && GoodRef(ref)
      requires forall q :: 0 <= q < probe ==> Passed(ref.key, q)
      modifies this, slots
      ensures Valid() && contents == old(contents)[ref.key := ref]
    {
      slots[i] := Slot(Occupied, ref.key, Some(ref));
      uniqueKeyCount := uniqueKeyCount + 1;
      contents, probeOf := contents[ref.key := ref], probeOf[ref.key := probe];
      forall k | k in contents
        ensures Placed(k)
      {
        hide RealtimeAtomicHashMap.Valid, GoodRef;
        assert k != ref.key ==> old(Placed(k));
        forall q | 0 <= q < probeOf[k]
          ensures Passed(k, q)
        {
          assert old(Passed(k, q));
        }
      }
      forall j | 0 <= j < capacity
        ensures slots[j].state.Empty?
          || (slots[j].state.Occupied? && slots[j].key in contents
              && ProbeSlot(hash(slots[j].key), probeOf[slots[j].key], capacity) == j)
      {
        hide Placed, Passed, ProbeSlot, GoodRef;
        assert j != i ==> slots[j] == old(slots[j]);
      }
      hide Placed, Passed, ProbeSlot, GoodRef;
    }
  }

  /** Two publishes fill two slots, and the third is refused with one free. */
  method RefusedWithRoom(
      hash: u64 -> u64, a: RowRef, b: RowRef, c: RowRef)
    returns (r: Result<bool>, table: RealtimeAtomicHashMap)
    requires GoodRef(a) && GoodRef(b) && GoodRef(c) && hash(a.key) == 0 && hash(b.key) == 1 && hash(c.key) == TWO_64 - 1
    ensures r == Err(FailedPrecondition) && table.Valid() && table.capacity == 3 && |table.contents| == 2
  {
    hide RealtimeAtomicHashMap.Valid, RealtimeAtomicHashMap.ShutOut, PublishTo, ClassifySourcePositionUpdate;
    table := new RealtimeAtomicHashMap(3, hash);
    table.FirstNotShutOut(a.key);
    PublishToNew(3, map[], a, false);
    r := table.PublishAndReport(a.key, a);
    assert table.contents == map[a.key := a];
    table.SecondNotShutOut(a.key, b.key);
    PublishToNew(3, table.contents, b, false);
    r := table.PublishAndReport(b.key, b);
    assert table.contents.Keys == {a.key, b.key};
    table.ThirdKeyShutOut(a.key, b.key, c.key);
    PublishToNew(3, table.contents, c, true);
    r := table.PublishAndReport(c.key, c);
  }

  // ---- The row list ------------------------------------------------------------------------------

  /** What readers see after the rows so far: each sealed row replaced the one before it. */
  function Replay(rows: seq<StoredRow>): map<u64, RowRef>
    decreases |rows|
  {
    if rows == [] then map[]
    else
      var m, last := Replay(rows[..|rows| - 1]), rows[|rows| - 1];
      if last.sealedVisible then m[last.ref.key := last.ref] else m
  }

  /** A row was sealed only because it was newer than what its key showed before it. */
  ghost predicate Sealed(rows: seq<StoredRow>) {
    forall i :: 0 <= i < |rows| && rows[i].sealedVisible ==> SealedAt(rows, i)
  }

  ghost predicate SealedAt(rows: seq<StoredRow>, i: nat)
    requires i < |rows|
  {
    var m, ref := Replay(rows[..i]), rows[i].ref;
    GoodRef(ref) && (ref.key in m ==> ClassifySourcePositionUpdate(m[ref.key].position, ref.position) == Ok(Newer))
  }

  /** Publish after its row was built: the row is appended whatever the map says, and sealed if the map took it. */
  function PublishRow(capacity: nat, rows: seq<StoredRow>, ref: RowRef, shut: bool): (Result<()>, seq<StoredRow>) {
    match PublishTo(capacity, Replay(rows), ref, shut).0
    case Err(code) => (Err(code), rows + [StoredRow(ref, false)])
    case Ok(accepted) => (Ok(()), rows + [StoredRow(ref, accepted)])
  }

  lemma {:induction false} ReplayAppend(rows: seq<StoredRow>, row: StoredRow)
    ensures Replay(rows + [row]) == if row.sealedVisible then Replay(rows)[row.ref.key := row.ref] else Replay(rows)
  {
    assert (rows + [row])[..|rows|] == rows;
  }

  lemma {:induction false} SealedAppend(rows: seq<StoredRow>, row: StoredRow)
    requires Sealed(rows)
    requires row.sealedVisible ==> GoodRef(row.ref) && (row.ref.key in Replay(rows) ==>
      ClassifySourcePositionUpdate(Replay(rows)[row.ref.key].position, row.ref.position) == Ok(Newer))
    ensures Sealed(rows + [row])
  {
    var more := rows + [row];
    forall i | 0 <= i < |more| && more[i].sealedVisible
      ensures SealedAt(more, i)
    {
      assert more[..i] == rows[..i];
      if i < |rows| {
        assert SealedAt(rows, i);
      } else {
        assert rows[..i] == rows;
      }
    }
  }

  lemma {:induction false} TakenIsNewer(capacity: nat, m: map<u64, RowRef>, ref: RowRef, shut: bool)
    ensures PublishTo(capacity, m, ref, shut).1
      == if PublishTo(capacity, m, ref, shut).0 == Ok(true) then m[ref.key := ref] else m
    ensures PublishTo(capacity, m, ref, shut).0 == Ok(true) && ref.key in m ==>
      ClassifySourcePositionUpdate(m[ref.key].position, ref.position) == Ok(Newer)
  {
  }

  /** The list and the map agree after every publish, accepted, stale, duplicate, mismatched or out of room. */
  lemma {:induction false} PublishKeepsLog(capacity: nat, rows: seq<StoredRow>, ref: RowRef, shut: bool)
    requires Sealed(rows) && GoodRef(ref)
    ensures var (r, rows') := PublishRow(capacity, rows, ref, shut);
      && Sealed(rows') && rows <= rows'
      && Replay(rows') == PublishTo(capacity, Replay(rows), ref, shut).1
  {
    hide Replay, Sealed, PublishTo, ClassifySourcePositionUpdate;
    var (r, rows') := PublishRow(capacity, rows, ref, shut);
    var row := StoredRow(ref, PublishTo(capacity, Replay(rows), ref, shut).0 == Ok(true));
    assert rows' == rows + [row];
    TakenIsNewer(capacity, Replay(rows), ref, shut);
    ReplayAppend(rows, row);
    SealedAppend(rows, row);
  }

  // ---- Scanning up to a boundary -----------------------------------------------------------------

  /** One iteration of the scan: keep the newer row, pass on a classification error. */
  function ScanStep(latest: map<u64, RowRef>, row: StoredRow): Result<map<u64, RowRef>> {
    if !row.sealedVisible then Ok(latest)
    else if row.ref.key !in latest then Ok(latest[row.ref.key := row.ref])
    else
      match ClassifySourcePositionUpdate(latest[row.ref.key].position, row.ref.position)
      case Err(code) => Err(code)
      case Ok(Newer) => Ok(latest[row.ref.key := row.ref])
      case Ok(_) => Ok(latest)
  }

  function ScanLatest(rows: seq<StoredRow>): Result<map<u64, RowRef>>
    decreases |rows|
  {
    if rows == [] then Ok(map[])
    else
      var latest :- ScanLatest(rows[..|rows| - 1]);
      ScanStep(latest, rows[|rows| - 1])
  }

  /** The scan never errors, and what it collects is what readers saw after those rows. */
  lemma {:induction false} ScanIsReplay(rows: seq<StoredRow>)
    requires Sealed(rows)
    ensures ScanLatest(rows) == Ok(Replay(rows))
    decreases |rows|
  {
    if rows != [] {
      var n := |rows| - 1;
      SealedPrefix(rows, n);
      ScanIsReplay(rows[..n]);
      assert rows[n].sealedVisible ==> SealedAt(rows, n);
    }
  }

  lemma {:induction false} SealedPrefix(rows: seq<StoredRow>, n: nat)
    requires Sealed(rows) && n <= |rows|
    ensures Sealed(rows[..n])
  {
    forall i | 0 <= i < n && rows[i].sealedVisible
      ensures SealedAt(rows[..n], i)
    {
      assert rows[..n][..i] == rows[..i];
      assert SealedAt(rows, i);
    }
  }

  function KeyOf(ref: RowRef): int {
    ref.key
  }

  /** One entry per key, by ascending key. */
  ghost predicate Lists(refs: seq<RowRef>, m: map<u64, RowRef>) {
    && (forall i, j :: 0 <= i < j < |refs| ==> refs[i].key < refs[j].key)
    && (forall i :: 0 <= i < |refs| ==> refs[i].key in m && m[refs[i].key] == refs[i])
    && (forall k :: k in m ==> m[k] in refs)
  }

  /** One publish of a run: a table of some capacities may shut its key out. */
  datatype Update = Update(ref: RowRef, shut: bool)

  /** Publishing any rows after a boundary was captured changes nothing that a scan up to it returns. */
  lemma {:induction false} BoundaryScanIsTimeTravel(capacity: nat, before: seq<StoredRow>, run: seq<Update>)
    requires Sealed(before) && forall i :: 0 <= i < |run| ==> GoodRef(run[i].ref)
    ensures var later := PublishRows(capacity, before, run).1;
      before <= later && ScanLatest(later[..|before|]) == Ok(Replay(before))
  {
    PublishRowsKeepLog(capacity, before, run);
    assert PublishRows(capacity, before, run).1[..|before|] == before;
    ScanIsReplay(before);
  }

  /** A run of publishes; the result lists what each call returned. */
  function PublishRows(capacity: nat, rows: seq<StoredRow>, run: seq<Update>): (r: (seq<Result<()>>, seq<StoredRow>))
    ensures |r.0| == |run|
    decreases |run|
  {
    if run == [] then ([], rows)
    else
      var (told, mid) := PublishRows(capacity, rows, run[..|run| - 1]);
      var last := run[|run| - 1];
      var (r, rows') := PublishRow(capacity, mid, last.ref, last.shut);
      (told + [r], rows')
  }

  lemma {:induction false} PublishRowsKeepLog(capacity: nat, rows: seq<StoredRow>, run: seq<Update>)
    requires Sealed(rows) && forall i :: 0 <= i < |run| ==> GoodRef(run[i].ref)
    ensures Sealed(PublishRows(capacity, rows, run).1) && rows <= PublishRows(capacity, rows, run).1
    decreases |run|
  {
    if run != [] {
      var n := |run| - 1;
      PublishRowsKeepLog(capacity, rows, run[..n]);
      PublishKeepsLog(capacity, PublishRows(capacity, rows, run[..n]).1, run[n].ref, run[n].shut);
    }
  }

  // ---- Replay and reorder ------------------------------------------------------------------------

  /** Each key stays in one partition, and a position of a key fixes its row. */
  ghost predicate Coherent(refs: seq<RowRef>) {
    && (forall i :: 0 <= i < |refs| ==> GoodRef(refs[i]))
    && (forall i, j :: 0 <= i < |refs| && 0 <= j < |refs| && refs[i].key == refs[j].key ==>
          && refs[i].position.partition == refs[j].position.partition
          && (refs[i].position == refs[j].position ==> refs[i] == refs[j]))
  }

  function Keys(refs: seq<RowRef>): set<u64> {
    set ref | ref in refs :: ref.key
  }

  /** m shows, for every key among refs and no other, a row of refs with the highest offset. */
  ghost predicate Newest(m: map<u64, RowRef>, refs: seq<RowRef>) {
    && m.Keys == Keys(refs)
    && (forall k :: k in m ==> m[k].key == k && m[k] in refs)
    && (forall i :: 0 <= i < |refs| ==> refs[i].key in m && refs[i].position.offset <= m[refs[i].key].position.offset)
  }

  lemma {:induction false} CoherentFront(front: seq<RowRef>, last: RowRef)
    requires Coherent(front + [last])
    ensures Coherent(front) && GoodRef(last)
    ensures forall i :: 0 <= i < |front| && front[i].key == last.key ==>
      && front[i].position.partition == last.position.partition
      && (front[i].position == last.position ==> front[i] == last)
  {
    var refs := front + [last];
    assert refs[|front|] == last;
    assert forall i :: 0 <= i < |front| ==> refs[i] == front[i];
  }

  lemma {:induction false} KeysAppend(front: seq<RowRef>, last: RowRef)
    ensures Keys(front + [last]) == Keys(front) + {last.key}
    ensures |Keys(front)| <= |Keys(front + [last])|
  {
    var refs := front + [last];
    assert forall ref :: ref in refs <==> ref in front || ref == last;
    assert Keys(refs) == Keys(front) + {last.key};
    SubsetSize(Keys(front), Keys(refs));
  }

  function RefsOf(run: seq<Update>): (r: seq<RowRef>)
    ensures |r| == |run|
  {
    seq(|run|, i requires 0 <= i < |run| => run[i].ref)
  }

  /** The updates whose publish returned Ok, in order. */
  function Acknowledged(run: seq<Update>, told: seq<Result<()>>): (r: seq<RowRef>)
    requires |told| == |run|
    decreases |run|
  {
    if run == [] then []
    else
      var n := |run| - 1;
      Acknowledged(run[..n], told[..n]) + if told[n].Ok? then [run[n].ref] else []
  }

  /** Keys are shut out of full tables only: what ShutOutMeansFull says when the capacity divides 2^64. */
  ghost predicate ShutsOnlyFull(capacity: nat, run: seq<Update>) {
    forall i :: 0 <= i < |run| && run[i].shut ==> |Replay(PublishRows(capacity, [], run[..i]).1)| >= capacity
  }

  /**
   * Coherent updates, in any order and into any table: the newest acknowledged one of each key is shown. If the keys
   * fit the table, and keys are shut out only when it is full, all are acknowledged.
   */
  lemma {:induction false} RunShowsNewest(capacity: nat, run: seq<Update>)
    requires Coherent(RefsOf(run))
    ensures var (told, rows) := PublishRows(capacity, [], run);
      && Sealed(rows) && Newest(Replay(rows), Acknowledged(run, told)) && Coherent(Acknowledged(run, told))
      && (forall ref :: ref in Acknowledged(run, told) ==> ref in RefsOf(run))
      && (|Keys(RefsOf(run))| <= capacity && ShutsOnlyFull(capacity, run) ==>
            Acknowledged(run, told) == RefsOf(run) && forall i :: 0 <= i < |run| ==> told[i].Ok?)
    decreases |run|
  {
    hide Replay, Sealed, Coherent, Newest, PublishTo, Keys, ClassifySourcePositionUpdate, ShutsOnlyFull;
    if run == [] {
      NothingPublished();
    } else {
      var n := |run| - 1;
      var front, last := run[..n], run[n];
      assert RefsOf(run) == RefsOf(front) + [last.ref];
      KeysAppend(RefsOf(front), last.ref);
      CoherentFront(RefsOf(front), last.ref);
      RunShowsNewest(capacity, front);
      var (told, mid) := PublishRows(capacity, [], front);
      PublishKeepsLog(capacity, mid, last.ref, last.shut);
      var acked := Acknowledged(front, told);
      CoherentSubset(RefsOf(run), acked + [last.ref]);
      NewestStep(capacity, Replay(mid), acked, last.ref, last.shut);
      if ShutsOnlyFull(capacity, run) {
        ShutsFront(capacity, run);
      }
      assert PublishRows(capacity, [], run).0[..n] == told;
      assert acked + [] == acked;
    }
  }

  lemma {:induction false} ShutsFront(capacity: nat, run: seq<Update>)
    requires ShutsOnlyFull(capacity, run) && run != []
    ensures ShutsOnlyFull(capacity, run[..|run| - 1])
    ensures run[|run| - 1].shut ==> |Replay(PublishRows(capacity, [], run[..|run| - 1]).1)| >= capacity
  {
    hide Replay, PublishRows;
    var front := run[..|run| - 1];
    forall i | 0 <= i < |front| && front[i].shut
      ensures |Replay(PublishRows(capacity, [], front[..i]).1)| >= capacity
    {
      assert front[..i] == run[..i];
    }
  }

  lemma {:induction false} CoherentSubset(refs: seq<RowRef>, some: seq<RowRef>)
    requires Coherent(refs) && forall ref :: ref in some ==> ref in refs
    ensures Coherent(some)
  {
    forall i, j | 0 <= i < |some| && 0 <= j < |some|
      ensures GoodRef(some[i])
      ensures some[i].key == some[j].key ==>
        && some[i].position.partition == some[j].position.partition
        && (some[i].position == some[j].position ==> some[i] == some[j])
    {
      assert some[i] in refs && some[j] in refs;
      var a :| 0 <= a < |refs| && refs[a] == some[i];
      var b :| 0 <= b < |refs| && refs[b] == some[j];
    }
  }

  lemma {:induction false} NothingPublished()
    ensures Replay([]) == map[] && Sealed([]) && Newest(map[], [])
  {
    assert Keys([]) == {};
  }

  lemma {:induction false} TakenCases(capacity: nat, m: map<u64, RowRef>, last: RowRef, shut: bool)
    requires GoodRef(last)
    requires last.key in m ==> GoodRef(m[last.key]) && m[last.key].position.partition == last.position.partition
    ensures var (told, m') := PublishTo(capacity, m, last, shut);
      && (told.Ok? <==> last.key in m || (!shut && |m| < capacity))
      && (told.Err? ==> m' == m)
      && (told.Ok? ==> m' == m[last.key := last] || (m' == m && last.key in m))
      && (told.Ok? && last.key in m ==> if m' == m then m[last.key].position.offset >= last.position.offset
                                        else m[last.key].position.offset <= last.position.offset)
  {
  }

  /** Publishing one more row: if it is acknowledged, the row shown for its key is the newer one. */
  lemma {:induction false} NewestStep(capacity: nat, m: map<u64, RowRef>, front: seq<RowRef>, last: RowRef, shut: bool)
    requires Coherent(front + [last]) && Newest(m, front)
    ensures var (told, m') := PublishTo(capacity, m, last, shut);
      && Newest(m', if told.Ok? then front + [last] else front)
      && ((shut ==> |m| >= capacity) && |Keys(front + [last])| <= capacity ==> told.Ok?)
  {
    hide Coherent, Keys, PublishTo;
    CoherentFront(front, last);
    KeysAppend(front, last);
    assert |m| == |m.Keys|;
    if last.key in m {
      var i :| 0 <= i < |front| && front[i] == m[last.key];
      CoherentGood(front, i);
    } else {
      OneMoreKey(m.Keys, last.key);
    }
    TakenCases(capacity, m, last, shut);
    if PublishTo(capacity, m, last, shut).0.Ok? {
      NewestAppend(m, PublishTo(capacity, m, last, shut).1, front, last);
    }
  }

  lemma {:induction false} OneMoreKey(keys: set<u64>, key: u64)
    requires key !in keys
    ensures |keys + {key}| == |keys| + 1
  {
  }

  lemma {:induction false} CoherentGood(refs: seq<RowRef>, i: nat)
    requires Coherent(refs) && i < |refs|
    ensures GoodRef(refs[i])
  {
  }

  lemma {:induction false} NewestAppend(m: map<u64, RowRef>, m': map<u64, RowRef>, front: seq<RowRef>, last: RowRef)
    requires Newest(m, front)
    requires m' == m[last.key := last] || (m' == m && last.key in m)
    requires last.key in m ==> (if m' == m then m[last.key].position.offset >= last.position.offset
                                else m[last.key].position.offset <= last.position.offset)
    ensures Newest(m', front + [last])
  {
    hide Keys;
    var refs := front + [last];
    KeysAppend(front, last);
    assert forall ref :: ref in refs <==> ref in front || ref == last;
    forall i | 0 <= i < |refs|
      ensures refs[i].key in m' && refs[i].position.offset <= m'[refs[i].key].position.offset
    {
      if i < |front| {
        assert refs[i] == front[i];
      } else {
        assert refs[i] == last;
      }
    }
  }

  lemma {:induction false} NewestUnique(
      m: map<u64, RowRef>, n: map<u64, RowRef>, refs: seq<RowRef>, others: seq<RowRef>)
    requires Coherent(refs) && Newest(m, refs) && Newest(n, others)
    requires forall ref :: ref in refs <==> ref in others
    ensures m == n
  {
    assert Keys(refs) == Keys(others);
    forall k | k in m
      ensures m[k] == n[k]
    {
      SameNewest(m, n, refs, others, k);
    }
  }

  lemma {:induction false} SameNewest(
      m: map<u64, RowRef>, n: map<u64, RowRef>, refs: seq<RowRef>, others: seq<RowRef>, k: u64)
    requires Coherent(refs) && Newest(m, refs) && Newest(n, others) && k in m && k in n
    requires forall ref :: ref in refs <==> ref in others
    ensures m[k] == n[k]
  {
    hide Coherent, Keys;
    var x, y := m[k], n[k];
    assert x in others && y in refs;
    var a :| 0 <= a < |refs| && refs[a] == x;
    var b :| 0 <= b < |refs| && refs[b] == y;
    var c :| 0 <= c < |others| && others[c] == x;
    assert refs[b].position.offset <= m[k].position.offset;
    assert others[c].position.offset <= n[k].position.offset;
    CoherentPair(refs, a, b);
  }

  lemma {:induction false} CoherentPair(refs: seq<RowRef>, a: nat, b: nat)
    requires Coherent(refs) && a < |refs| && b < |refs| && refs[a].key == refs[b].key
    requires refs[a].position.offset == refs[b].position.offset
    ensures refs[a] == refs[b]
  {
  }

  /** Two runs that acknowledge the same updates, in any orders and with repeats, show every key the same row. */
  lemma {:induction false} ReplayConverges(capacity: nat, run: seq<Update>, capacity': nat, run': seq<Update>)
    requires Coherent(RefsOf(run)) && Coherent(RefsOf(run'))
    requires var (told, told') := (PublishRows(capacity, [], run).0, PublishRows(capacity', [], run').0);
      forall ref :: ref in Acknowledged(run, told) <==> ref in Acknowledged(run', told')
    ensures Replay(PublishRows(capacity, [], run).1) == Replay(PublishRows(capacity', [], run').1)
  {
    hide Coherent, Newest, Keys, Replay, PublishRows, Acknowledged, RefsOf;
    RunShowsNewest(capacity, run);
    RunShowsNewest(capacity', run');
    var (told, rows) := PublishRows(capacity, [], run);
    var (told', rows') := PublishRows(capacity', [], run');
    NewestUnique(Replay(rows), Replay(rows'), Acknowledged(run, told), Acknowledged(run', told'));
  }

  /**
   * Any two publish orders of the same updates, repeats included, into tables with room for all the keys that shut out
   * keys only when they are full, all succeed and end with the same rows.
   */
  lemma {:induction false} OrdersConverge(capacity: nat, run: seq<Update>, capacity': nat, run': seq<Update>)
    requires Coherent(RefsOf(run)) && forall ref :: ref in RefsOf(run) <==> ref in RefsOf(run')
    requires |Keys(RefsOf(run))| <= capacity && ShutsOnlyFull(capacity, run)
    requires |Keys(RefsOf(run))| <= capacity' && ShutsOnlyFull(capacity', run')
    ensures forall i :: 0 <= i < |run| ==> PublishRows(capacity, [], run).0[i].Ok?
    ensures forall i :: 0 <= i < |run'| ==> PublishRows(capacity', [], run').0[i].Ok?
    ensures Replay(PublishRows(capacity, [], run).1) == Replay(PublishRows(capacity', [], run').1)
  {
    assert Keys(RefsOf(run)) == Keys(RefsOf(run'));
    hide Newest, Keys, Replay, PublishRows, Acknowledged, RefsOf, ShutsOnlyFull, Coherent;
    CoherentSubset(RefsOf(run), RefsOf(run'));
    RunShowsNewest(capacity, run);
    RunShowsNewest(capacity', run');
    ReplayConverges(capacity, run, capacity', run');
  }

  // ---- The table ---------------------------------------------------------------------------------

  ghost predicate BuiltRow(layout: Option<RowLayout>, ref: RowRef) {
    GoodRef(ref) && layout.Some? && RowFits(layout.value, ref.encoded)
  }

  ghost predicate AllBuilt(layout: Option<RowLayout>, rows: seq<StoredRow>) {
    forall i :: 0 <= i < |rows| ==> BuiltRow(layout, rows[i].ref)
  }

  /** What readers see was built for the table's layout. */
  lemma {:induction false} ReplayBuilt(layout: Option<RowLayout>, rows: seq<StoredRow>)
    requires AllBuilt(layout, rows)
    ensures forall k :: k in Replay(rows) ==> Replay(rows)[k].key == k && BuiltRow(layout, Replay(rows)[k])
    decreases |rows|
  {
    hide BuiltRow;
    if rows != [] {
      ReplayBuilt(layout, rows[..|rows| - 1]);
    }
  }

  lemma {:induction false} BuiltAppend(layout: Option<RowLayout>, rows: seq<StoredRow>, ref: RowRef)
    requires AllBuilt(layout, rows) && BuiltRow(layout, ref)
    ensures AllBuilt(layout, rows + [StoredRow(ref, false)]) && AllBuilt(layout, rows + [StoredRow(ref, true)])
    ensures GoodRef(ref)
  {
    hide RowFits;
  }

  function BuildRowRef(
      layout: Option<RowLayout>, key: u64, position: SourcePosition, encoded: EncodedRow): (r: Result<RowRef>)
    ensures r.Ok? ==> r.get == RowRef(key, position, encoded) && BuiltRow(layout, r.get)
    ensures r.Ok? <==> layout.Some? && IsValidSourcePosition(position) && RowFits(layout.value, encoded)
  {
    if layout.None? then Err(FailedPrecondition)
    else if !IsValidSourcePosition(position) then Err(InvalidArgument)
    else if encoded.schemaVersion != layout.value.schemaVersion || encoded.fingerprint != layout.value.fingerprint then
      Err(FailedPrecondition)
    else if |encoded.rowSlot| != layout.value.rowSlotSize then Err(InvalidArgument)
    else
      var row :- MaterializeRow(layout.value, encoded);
      Ok(RowRef(key, position, encoded))
  }

  class RealtimeDeltaAtomicTable {
    const layout: Option<RowLayout>
    const index: RealtimeAtomicHashMap
    var rows: seq<StoredRow>

    ghost predicate Valid()
      reads this, index, index.slots
    {
      index.Valid() && Sealed(rows) && AllBuilt(layout, rows) && Replay(rows) == index.contents
    }

    constructor (layout: Option<RowLayout>, capacity: nat, hash: u64 -> u64)
      ensures Valid() && rows == [] && this.layout == layout && index.capacity == capacity
      ensures fresh(index) && fresh(index.slots)
    {
      this.layout := layout;
      index := new RealtimeAtomicHashMap(capacity, hash);
      rows := [];
    }

    /** The table takes an update of the key: it shows the key in that partition, or has an empty slot for it. */
    ghost predicate Open(key: u64, partition: i32)
      reads this, index, index.slots
    {
      var m := Replay(rows);
      if key in m then m[key].position.partition == partition else |m| < index.capacity && !index.ShutOut(key)
    }

    /** A publish that fits the layout succeeds exactly if the table is open to it. */
    lemma {:induction false} OpenExactly(ref: RowRef)
      requires Valid() && GoodRef(ref)
      ensures PublishRow(index.capacity, rows, ref, index.ShutOut(ref.key)).0.Ok?
        <==> Open(ref.key, ref.position.partition)
    {
      if ref.key in index.contents {
        assert index.Placed(ref.key);
      }
    }

    method Publish(key: u64, position: SourcePosition, encoded: EncodedRow) returns (r: Result<()>)
      requires Valid()
      modifies this, index, index.slots
      ensures Valid()
      ensures BuildRowRef(layout, key, position, encoded).Err? ==>
        r == Err(BuildRowRef(layout, key, position, encoded).code) && rows == old(rows)
      ensures BuildRowRef(layout, key, position, encoded).Ok? ==>
        (r, rows) == PublishRow(index.capacity, old(rows), RowRef(key, position, encoded), old(index.ShutOut(key)))
      ensures r.Err? ==> index.slots[..] == old(index.slots[..])
    {
      hide MaterializeRow, PublishRow;
      var ref := BuildRowRef(layout, key, position, encoded);
      match ref
      case Err(code) => r := Err(code);
      case Ok(built) => r := Append(built);
    }

    /** The critical section of Publish. */
    method Append(ref: RowRef) returns (r: Result<()>)
      requires Valid() && BuiltRow(layout, ref)
      modifies this, index, index.slots
      ensures Valid()
      ensures (r, rows) == PublishRow(index.capacity, old(rows), ref, old(index.ShutOut(ref.key)))
      ensures r.Err? ==> index.slots[..] == old(index.slots[..])
    {
      hide Replay, Sealed, AllBuilt, BuiltRow, PublishTo, ClassifySourcePositionUpdate, RealtimeAtomicHashMap.Valid;
      ghost var was := rows;
      BuiltAppend(layout, was, ref);
      TakenIsNewer(index.capacity, Replay(was), ref, index.ShutOut(ref.key));
      ReplayAppend(was, StoredRow(ref, false));
      SealedAppend(was, StoredRow(ref, false));
      rows := rows + [StoredRow(ref, false)];
      var published := index.PublishAndReport(ref.key, ref);
      match published
      case Err(code) => r := Err(code);
      case Ok(accepted) =>
        if accepted {
          ReplayAppend(was, StoredRow(ref, true));
          SealedAppend(was, StoredRow(ref, true));
          rows := rows[|rows| - 1 := rows[|rows| - 1].(sealedVisible := true)];
          assert rows == was + [StoredRow(ref, true)];
        }
        r := Ok(());
    }

    method Get(key: u64) returns (r: Result<Option<Row>>)
      requires Valid()
      ensures layout.None? ==> r == Err(FailedPrecondition)
      ensures layout.Some? ==>
        r == Ok(if key in Replay(rows) then Some(Row(layout.value, Replay(rows)[key].encoded)) else None)
    {
      if layout.None? {
        return Err(FailedPrecondition);
      }
      var found := index.Get(key);
      match found
      case Err(code) => r := Err(code);
      case Ok(None) => r := Ok(None);
      case Ok(Some(ref)) => r := Ok(Some(Row(layout.value, ref.encoded)));
    }

    method CaptureCompactionBoundary() returns (boundary: nat)
      ensures boundary == |rows|
    {
      boundary := |rows|;
    }

    /** Never an error: the visible rows as of the boundary, one per key, by ascending key. */
    method ScanVisibleRows(boundary: nat) returns (r: Result<seq<RowRef>>)
      requires Valid()
      ensures r.Ok? && Lists(r.get, Replay(rows[..if boundary < |rows| then boundary else |rows|]))
    {
      var limit := if boundary < |rows| then boundary else |rows|;
      var latest: map<u64, RowRef> := map[];
      for i := 0 to limit
        invariant Ok(latest) == ScanLatest(rows[..i])
      {
        assert rows[..i + 1][..i] == rows[..i];
        SealedPrefix(rows, i + 1);
        ScanIsReplay(rows[..i + 1]);
        var row := rows[i];
        if row.sealedVisible {
          if row.ref.key !in latest {
            latest := latest[row.ref.key := row.ref];
          } else {
            var decision := ClassifySourcePositionUpdate(latest[row.ref.key].position, row.ref.position);
            match decision
            case Err(code) => return Err(code);
            case Ok(Newer) => latest := latest[row.ref.key := row.ref];
            case Ok(_) =>
          }
        }
      }
      SealedPrefix(rows, limit);
      ScanIsReplay(rows[..limit]);
      ReplayBuilt(layout, rows[..limit]);
      var visible := ListByKey(latest);
      r := Ok(visible);
    }
  }

  /**
   * A run of publishes into a new table. With a capacity that divides 2^64 and room for the keys, coherent updates are
   * all acknowledged; the table ends with the newest of each key.
   */
  method PublishRun(
      table: RealtimeDeltaAtomicTable, refs: seq<RowRef>)
    returns (told: seq<Result<()>>, ghost run: seq<Update>)
    requires table.Valid() && table.rows == []
    requires forall i :: 0 <= i < |refs| ==>
      BuildRowRef(table.layout, refs[i].key, refs[i].position, refs[i].encoded).Ok?
    modifies table, table.index, table.index.slots
    ensures table.Valid() && RefsOf(run) == refs && |told| == |refs|
    ensures (told, table.rows) == PublishRows(table.index.capacity, [], run)
    ensures DividingCapacity(table.index.capacity) ==> ShutsOnlyFull(table.index.capacity, run)
    ensures DividingCapacity(table.index.capacity) && Coherent(refs) && |Keys(refs)| <= table.index.capacity ==>
      Newest(Replay(table.rows), refs) && forall i :: 0 <= i < |told| ==> told[i].Ok?
  {
    hide RealtimeDeltaAtomicTable.Valid, BuildRowRef, PublishRow, Replay;
    ghost var capacity := table.index.capacity;
    told, run := [], [];
    for i := 0 to |refs|
      invariant table.Valid() && table.index.capacity == capacity && |told| == |run| == i && RefsOf(run) == refs[..i]
      invariant (told, table.rows) == PublishRows(capacity, [], run)
      invariant DividingCapacity(capacity) ==> ShutsOnlyFull(capacity, run)
    {
      ghost var shut := table.index.ShutOut(refs[i].key);
      ShutTableIsFull(table, refs[i].key);
      RunGrows(capacity, run, Update(refs[i], shut));
      var r := table.Publish(refs[i].key, refs[i].position, refs[i].encoded);
      told, run := told + [r], run + [Update(refs[i], shut)];
    }
    assert refs[..|refs|] == refs;
    if Coherent(refs) {
      RunShowsNewest(capacity, run);
    }
  }

  predicate DividingCapacity(capacity: nat) {
    capacity == 0 || TWO_64 % capacity == 0
  }

  lemma {:induction false} ShutTableIsFull(table: RealtimeDeltaAtomicTable, key: u64)
    requires table.Valid()
    ensures DividingCapacity(table.index.capacity) && table.index.ShutOut(key) ==>
      |Replay(table.rows)| >= table.index.capacity
  {
    hide Replay, RealtimeAtomicHashMap.Valid;
    if DividingCapacity(table.index.capacity) && table.index.ShutOut(key) {
      table.index.ShutOutMeansFull(key);
    }
  }

  lemma {:induction false} RunGrows(capacity: nat, run: seq<Update>, last: Update)
    ensures RefsOf(run + [last]) == RefsOf(run) + [last.ref]
    ensures var (told, rows) := PublishRows(capacity, [], run);
      var (r, rows') := PublishRow(capacity, rows, last.ref, last.shut);
      PublishRows(capacity, [], run + [last]) == (told + [r], rows')
    ensures ShutsOnlyFull(capacity, run) && (last.shut ==> |Replay(PublishRows(capacity, [], run).1)| >= capacity) ==>
      ShutsOnlyFull(capacity, run + [last])
  {
    hide PublishRow, Replay;
    var more := run + [last];
    assert more[..|run|] == run;
    if ShutsOnlyFull(capacity, run) && (last.shut ==> |Replay(PublishRows(capacity, [], run).1)| >= capacity) {
      forall i | 0 <= i < |more| && more[i].shut
        ensures |Replay(PublishRows(capacity, [], more[..i]).1)| >= capacity
      {
        if i < |run| {
          assert more[..i] == run[..i];
        }
      }
    }
  }

  /** The entries of the hash map in some order, then sorted by key. */
  method ListByKey(latest: map<u64, RowRef>) returns (visible: seq<RowRef>)
    requires forall k :: k in latest ==> latest[k].key == k
    ensures Lists(visible, latest)
  {
    var unsorted: seq<RowRef> := [];
    var keys := latest.Keys;
    while keys != {}
      invariant keys <= latest.Keys && Collected(unsorted, latest, keys)
      decreases keys
    {
      var k :| k in keys;
      keys := keys - {k};
      CollectOne(unsorted, latest, keys, k);
      unsorted := unsorted + [latest[k]];
    }
    visible := SortBy(KeyOf, unsorted);
    SortedLists(unsorted, visible, latest);
  }

  /** The keys still to come are those not collected. */
  ghost predicate Collected(refs: seq<RowRef>, latest: map<u64, RowRef>, keys: set<u64>) {
    && (forall i :: 0 <= i < |refs| ==>
          refs[i].key in latest && refs[i].key !in keys && latest[refs[i].key] == refs[i])
    && (forall k :: k in latest && k !in keys ==> latest[k] in refs)
    && DistinctBy(KeyOf, refs)
  }

  lemma {:induction false} CollectOne(refs: seq<RowRef>, latest: map<u64, RowRef>, keys: set<u64>, k: u64)
    requires Collected(refs, latest, keys + {k}) && k in latest && k !in keys && latest[k].key == k
    ensures Collected(refs + [latest[k]], latest, keys)
  {
    var more := refs + [latest[k]];
    forall x | x in latest && x !in keys
      ensures latest[x] in more
    {
      if x == k {
        assert more[|refs|] == latest[x];
      } else {
        assert latest[x] in refs;
      }
    }
  }

  lemma {:induction false} SortedLists(unsorted: seq<RowRef>, visible: seq<RowRef>, latest: map<u64, RowRef>)
    requires Collected(unsorted, latest, {}) && visible == SortBy(KeyOf, unsorted)
    ensures Lists(visible, latest)
  {
    SortBySorted(KeyOf, unsorted);
    DistinctPermuted(KeyOf, unsorted, visible);
    forall i, j | 0 <= i < j < |visible|
      ensures visible[i].key < visible[j].key
    {
      assert KeyOf(visible[i]) <= KeyOf(visible[j]) && KeyOf(visible[i]) != KeyOf(visible[j]);
    }
    forall i | 0 <= i < |visible|
      ensures visible[i].key in latest && latest[visible[i].key] == visible[i]
    {
      assert visible[i] in multiset(unsorted);
    }
    forall k | k in latest
      ensures latest[k] in visible
    {
      assert latest[k] in multiset(visible);
    }
  }
}
