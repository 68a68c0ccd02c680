/** Layered reads of one shard, src/runtime/shard_state.cc: realtime over compact over full. */
module Shards {
  import opened Basics
  import opened Schema
  import opened RowStorage
  import opened RealtimeDelta
  import opened Snapshot

  datatype Mode = FullSnapshotOnly | FullSnapshotWithRealtimeDelta | FullSnapshotWithRealtimeDeltaAndCompaction

  predicate UsesCompactDelta(mode: Mode) {
    mode.FullSnapshotWithRealtimeDeltaAndCompaction?
  }

  type Reading = Result<Option<Row>>

  /** RealtimeDeltaAtomicTable::Get as its contract states it. */
  function TableGet(layout: Option<RowLayout>, shown: map<u64, RowRef>, key: u64): Reading {
    match layout
    case None => Err(FailedPrecondition)
    case Some(l) => Ok(if key in shown then Some(Row(l, shown[key].encoded)) else None)
  }

  /** The first layer that does not miss decides, error or row. */
  function FirstHit(readings: seq<Reading>): Reading {
    if readings == [] then Ok(None)
    else if readings[0] == Ok(None) then FirstHit(readings[1..])
    else readings[0]
  }

  /** An error is never masked by a lower layer, and a row is never served past an error above it. */
  lemma {:induction false} FirstHitDecides(readings: seq<Reading>, i: nat)
    requires i <= |readings| && forall j :: 0 <= j < i ==> readings[j] == Ok(None)
    ensures FirstHit(readings)
      == if i < |readings| && readings[i] != Ok(None) then readings[i] else FirstHit(readings[i..])
  {
    if i > 0 {
      FirstHitDecides(readings[1..], i - 1);
      assert readings[1..][i - 1..] == readings[i..];
    } else {
      assert readings[0..] == readings;
    }
  }

  datatype ShardState = ShardState(
    shardId: u32, generation: u64,
    realtime: Option<RealtimeDeltaAtomicTable>, compact: Option<OwnedBacking>, full: Option<Backing>)
  {
    ghost function Tables(): set<object> {
      match realtime
      case None => {}
      case Some(t) => {t, t.index, t.index.slots}
    }

    ghost predicate Sound()
      reads Tables()
    {
      realtime.Some? ==> realtime.value.Valid()
    }

    /** The visible rows of the realtime layer. */
    ghost function Shown(): map<u64, RowRef>
      reads Tables()
    {
      if realtime.Some? then Replay(realtime.value.rows) else map[]
    }

    ghost function Readings(h: HashFn, key: u64): (r: seq<Reading>)
      reads Tables()
      ensures |r| == 3
    {
      [if realtime.Some? then TableGet(realtime.value.layout, Shown(), key) else Ok(None),
       if compact.Some? then SnapshotGet(h, compact.value.AsBacking(), key) else Ok(None),
       if full.Some? then SnapshotGet(h, full.value, key) else Ok(None)]
    }

    ghost function Reads(h: HashFn, key: u64): Reading
      reads Tables()
    {
      FirstHit(Readings(h, key))
    }
  }

  method Get(h: HashFn, s: ShardState, key: u64) returns (r: Reading)
    requires s.Sound()
    ensures r == s.Reads(h, key)
  {
    hide Replay, SnapshotGet, RealtimeDeltaAtomicTable.Valid;
    ghost var readings := s.Readings(h, key);
    if s.realtime.Some? {
      r := s.realtime.value.Get(key);
      FirstHitDecides(readings, 0);
      if r.Err? || r.get.Some? {
        return;
      }
    }
    assert readings[0] == Ok(None);
    FirstHitDecides(readings, 1);
    if s.compact.Some? {
      r := Snapshot.Get(h, s.compact.value.AsBacking(), key);
      if r.Err? || r.get.Some? {
        return;
      }
    }
    FirstHitDecides(readings, 2);
    if s.full.Some? {
      r := Snapshot.Get(h, s.full.value, key);
      if r.Err? || r.get.Some? {
        return;
      }
    }
    FirstHitDecides(readings, 3);
    r := Ok(None);
  }

  /** All rows in key order, or the error of the first key that has one. */
  method MGet(h: HashFn, s: ShardState, keys: seq<u64>) returns (r: Result<seq<Option<Row>>>)
    requires s.Sound()
    ensures r.Ok? ==> |r.get| == |keys| && forall i :: 0 <= i < |keys| ==> s.Reads(h, keys[i]) == Ok(r.get[i])
    ensures r.Err? ==> exists i ::
      0 <= i < |keys| && s.Reads(h, keys[i]) == Err(r.code) && forall j :: 0 <= j < i ==> s.Reads(h, keys[j]).Ok?
  {
    hide Replay, TableGet, SnapshotGet, FirstHit, Sealed, AllBuilt, RealtimeAtomicHashMap.Placed;
    var rows: seq<Option<Row>> := [];
    for i := 0 to |keys|
      invariant |rows| == i && forall j :: 0 <= j < i ==> s.Reads(h, keys[j]) == Ok(rows[j])
    {
      var row := Get(h, s, keys[i]);
      if row.Err? {
        return Err(row.code);
      }
      rows := rows + [row.get];
    }
    r := Ok(rows);
  }

  // ---- Layers of one layout ----------------------------------------------------------------------

  function Encoded(shown: map<u64, RowRef>): map<u64, EncodedRow> {
    map k | k in shown :: shown[k].encoded
  }

  ghost predicate AllFit(l: RowLayout, m: map<u64, EncodedRow>) {
    forall k :: k in m ==> RowFits(l, m[k])
  }

  /** The shard's layers have layout l and hold exactly these rows. */
  ghost predicate Holds(
      h: HashFn, s: ShardState, l: RowLayout, compact: map<u64, EncodedRow>, full: map<u64, EncodedRow>)
    reads s.Tables()
  {
    && s.Sound() && (s.realtime.Some? ==> s.realtime.value.layout == Some(l))
    && (if s.compact.Some?
        then s.compact.value.layout == l && Serves(h, s.compact.value.AsBacking(), compact) else compact == map[])
    && (if s.full.Some? then s.full.value.layout == l && Serves(h, s.full.value, full) else full == map[])
    && AllFit(l, compact) && AllFit(l, full)
  }

  lemma {:induction false} ServedReads(h: HashFn, b: Backing, m: map<u64, EncodedRow>, key: u64)
    requires Serves(h, b, m) && AllFit(b.layout, m)
    ensures SnapshotGet(h, b, key) == Ok(if key in m then Some(Row(b.layout, m[key])) else None)
  {
    hide Locate, MaterializeRow;
    assert LookupRow(h, b, key) == Ok(if key in m then Some(m[key]) else None);
  }

  /** Reads never err, and are the overlay of the three layers: realtime over compact over full. */
  lemma {:induction false} ReadsAreOverlay(
      h: HashFn, s: ShardState, l: RowLayout, compact: map<u64, EncodedRow>, full: map<u64, EncodedRow>, key: u64)
    requires Holds(h, s, l, compact, full)
    ensures var all := full + compact + Encoded(s.Shown());
      s.Reads(h, key) == Ok(if key in all then Some(Row(l, all[key])) else None)
  {
    hide Replay, Serves, AllFit, SnapshotGet, RealtimeDeltaAtomicTable.Valid;
    var readings := s.Readings(h, key);
    FirstHitDecides(readings, 0);
    if readings[0] == Ok(None) {
      FirstHitDecides(readings, 1);
    }
    if s.compact.Some? {
      ServedReads(h, s.compact.value.AsBacking(), compact, key);
    }
    if readings[0] == Ok(None) == readings[1] {
      FirstHitDecides(readings, 2);
    }
    if s.full.Some? {
      ServedReads(h, s.full.value, full, key);
    }
    if readings[0] == Ok(None) == readings[1] == readings[2] {
      FirstHitDecides(readings, 3);
    }
  }
}
