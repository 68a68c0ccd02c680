/** Delta compaction and full rebase, src/rebuild/compaction.cc and src/rebuild/full_rebase.cc. */
module Compaction {
  import opened Basics
  import opened ByteIO
  import opened Schema
  import opened RowStorage
  import opened RealtimeDelta
  import opened Snapshot
  import opened Shards
  import FrozenIndex

  function ResolveLayout(s: ShardState): Result<RowLayout> {
    if s.realtime.Some? && s.realtime.value.layout.Some? then Ok(s.realtime.value.layout.value)
    else if s.compact.Some? then Ok(s.compact.value.layout)
    else if s.full.Some? then Ok(s.full.value.layout)
    else Err(FailedPrecondition)
  }

  /** A shard with any layout resolves to it, whichever layer has it; a table without one is passed over. */
  lemma {:induction false} ResolvesExactly(
      h: HashFn, s: ShardState, l: RowLayout, compact: map<u64, EncodedRow>, full: map<u64, EncodedRow>)
    ensures ResolveLayout(s).Ok? <==>
      s.compact.Some? || s.full.Some? || (s.realtime.Some? && s.realtime.value.layout.Some?)
    ensures Holds(h, s, l, compact, full) && (s.realtime.Some? || s.compact.Some? || s.full.Some?) ==>
      ResolveLayout(s) == Ok(l)
  {
    hide Serves, AllFit, RealtimeDeltaAtomicTable.Valid;
  }

  /** Rows of `below` under those of `above`, as a builder for layout l keeps them. */
  ghost function Merged(
      l: RowLayout, above: map<u64, EncodedRow>, below: map<u64, EncodedRow>): (m: map<u64, EncodedRow>)
    ensures m.Keys == above.Keys + below.Keys
  {
    map k | k in above.Keys + below.Keys :: if k in above then above[k] else Kept(l, below[k])
  }

  ghost predicate AllAcceptable(l: RowLayout, rows: seq<SnapshotRow>) {
    forall i :: 0 <= i < |rows| ==> Acceptable(l, rows[i].encoded)
  }

  /** n row slots fit a vector. */
  predicate Room(l: RowLayout, n: nat) {
    SlotsSize(n, l.rowSlotSize) < TWO_63
  }

  function SlotsSize(n: nat, size: nat): nat {
    n * size
  }

  /** A builder and the keys seen so far. */
  ghost predicate Seen(builder: SnapshotBuilder, seen: set<u64>)
    reads builder
  {
    builder.Valid() && RowMap(builder.rows).Keys == seen
  }

  lemma {:induction false} AddedRow(rows: seq<SnapshotRow>, row: SnapshotRow)
    ensures RowMap(rows + [row]) == RowMap(rows)[row.key := row.encoded]
  {
    assert (rows + [row])[..|rows|] == rows;
  }

  lemma {:induction false} KeyAbsent(builder: SnapshotBuilder, seen: set<u64>, key: u64)
    requires Seen(builder, seen)
    ensures key in seen <==> exists i :: 0 <= i < |builder.rows| && builder.rows[i].key == key
  {
    RowMapIs(builder.rows, key);
  }

  method AddRowIfNew(builder: SnapshotBuilder, seen: set<u64>, key: u64, encoded: EncodedRow)
    returns (r: Result<()>, seen': set<u64>)
    requires Seen(builder, seen)
    modifies builder
    ensures r.Ok? ==> Seen(builder, seen') && seen' == seen + {key}
    ensures r.Ok? && key in seen ==> RowMap(builder.rows) == RowMap(old(builder.rows))
    ensures r.Ok? && key !in seen ==>
      RowMap(builder.rows) == RowMap(old(builder.rows))[key := Kept(builder.layout, encoded)]
    ensures r.Ok? ==> |builder.rows| <= |old(builder.rows)| + 1
    ensures key !in seen && !Acceptable(builder.layout, encoded) ==> r.Err?
    ensures Acceptable(builder.layout, encoded) && Room(builder.layout, |old(builder.rows)| + 1) ==> r.Ok?
  {
    hide RowMap;
    KeyAbsent(builder, seen, key);
    if key in seen {
      assert seen + {key} == seen;
      return Ok(()), seen;
    }
    AddedRow(builder.rows, SnapshotRow(key, Kept(builder.layout, encoded)));
    assert |builder.slots| + builder.layout.rowSlotSize == (|builder.rows| + 1) * builder.layout.rowSlotSize;
    r := builder.AddRow(key, encoded);
    seen' := seen + {key};
  }

  /** What the loop of a build makes of the map so far: a row is added only under a new key. */
  ghost function MergeRows(l: RowLayout, start: map<u64, EncodedRow>, rows: seq<SnapshotRow>): map<u64, EncodedRow>
    decreases |rows|
  {
    if rows == [] then start
    else
      var m, last := MergeRows(l, start, rows[..|rows| - 1]), rows[|rows| - 1];
      if last.key in m then m else m[last.key := Kept(l, last.encoded)]
  }

  lemma {:induction false} MergeRowsIsMerged(
      l: RowLayout, start: map<u64, EncodedRow>, rows: seq<SnapshotRow>, m: map<u64, EncodedRow>)
    requires forall i :: 0 <= i < |rows| ==> rows[i].key in m && m[rows[i].key] == rows[i].encoded
    ensures var now := MergeRows(l, start, rows);
      && (forall k :: k in now <==> k in start || exists i :: 0 <= i < |rows| && rows[i].key == k)
      && (forall k :: k in now ==> k in start || k in m)
      && (forall k :: k in now ==> now[k] == if k in start then start[k] else Kept(l, m[k]))
    decreases |rows|
  {
    hide Kept;
    if rows != [] {
      var n := |rows| - 1;
      MergeRowsIsMerged(l, start, rows[..n], m);
      var before, now := MergeRows(l, start, rows[..n]), MergeRows(l, start, rows);
      assert now == if rows[n].key in before then before else before[rows[n].key := Kept(l, rows[n].encoded)];
    }
  }

  lemma {:induction false} AllMerged(
      l: RowLayout, start: map<u64, EncodedRow>, rows: seq<SnapshotRow>, m: map<u64, EncodedRow>)
    requires ListsRows(rows, m)
    ensures MergeRows(l, start, rows) == Merged(l, start, m)
  {
    hide Kept, MergeRows;
    MergeRowsIsMerged(l, start, rows, m);
    forall k | k in m
      ensures exists i :: 0 <= i < |rows| && rows[i].key == k
    {
      var i :| 0 <= i < |rows| && rows[i] == SnapshotRow(k, m[k]);
    }
  }

  lemma {:induction false} MergeRowsAppend(l: RowLayout, start: map<u64, EncodedRow>, rows: seq<SnapshotRow>, i: nat)
    requires i < |rows|
    ensures MergeRows(l, start, rows[..i + 1])
         == var m := MergeRows(l, start, rows[..i]);
            if rows[i].key in m then m else m[rows[i].key := Kept(l, rows[i].encoded)]
  {
    assert rows[..i + 1][..i] == rows[..i];
  }

  /** The two loops of a build. */
  method AddNewRows(builder: SnapshotBuilder, seen: set<u64>, rows: seq<SnapshotRow>)
    returns (r: Result<()>, seen': set<u64>)
    requires Seen(builder, seen)
    modifies builder
    ensures r.Ok? ==>
      Seen(builder, seen') && RowMap(builder.rows) == MergeRows(builder.layout, RowMap(old(builder.rows)), rows)
    ensures r.Ok? ==> |builder.rows| <= |old(builder.rows)| + |rows|
    ensures AllAcceptable(builder.layout, rows) && Room(builder.layout, |old(builder.rows)| + |rows|) ==> r.Ok?
  {
    hide RowMap, Acceptable, MergeRows, SnapshotBuilder.Valid;
    seen' := seen;
    ghost var start := builder.rows;
    assert rows[..0] == [];
    MergeNothing(builder.layout, RowMap(start));
    for i := 0 to |rows|
      invariant Seen(builder, seen') && |builder.rows| <= |start| + i
      invariant RowMap(builder.rows) == MergeRows(builder.layout, RowMap(start), rows[..i])
    {
      MulMono(|builder.rows| + 1, |start| + |rows|, builder.layout.rowSlotSize);
      MergeRowsAppend(builder.layout, RowMap(start), rows, i);
      r, seen' := AddRowIfNew(builder, seen', rows[i].key, rows[i].encoded);
      if r.Err? {
        return;
      }
    }
    assert rows[..|rows|] == rows;
    r := Ok(());
  }

  lemma {:induction false} MergeNothing(l: RowLayout, start: map<u64, EncodedRow>)
    ensures MergeRows(l, start, []) == start
  {
  }

  /** Scanned refs as the rows a build adds. */
  function SnapshotRows(refs: seq<RowRef>): (rows: seq<SnapshotRow>)
    ensures |rows| == |refs| && forall i :: 0 <= i < |refs| ==> rows[i] == SnapshotRow(refs[i].key, refs[i].encoded)
  {
    seq(|refs|, i requires 0 <= i < |refs| => SnapshotRow(refs[i].key, refs[i].encoded))
  }

  lemma {:induction false} ScanLists(refs: seq<RowRef>, shown: map<u64, RowRef>)
    requires Lists(refs, shown) && forall k :: k in shown ==> shown[k].key == k
    ensures ListsRows(SnapshotRows(refs), Encoded(shown))
  {
    var rows := SnapshotRows(refs);
    forall key | key in shown
      ensures SnapshotRow(key, shown[key].encoded) in rows
    {
      var i :| 0 <= i < |refs| && refs[i] == shown[key];
      assert rows[i] == SnapshotRow(key, shown[key].encoded);
    }
    forall i, j | 0 <= i < j < |rows|
      ensures rows[i].key != rows[j].key
    {
      assert refs[i].key < refs[j].key;
    }
  }

  /** `top` over `bottom`, as a builder for layout l keeps them. */
  ghost function Stacked(l: RowLayout, top: map<u64, EncodedRow>, bottom: map<u64, EncodedRow>): map<u64, EncodedRow> {
    Merged(l, Merged(l, map[], top), bottom)
  }

  /** Rows that fit the layout are kept as they are. */
  lemma {:induction false} StackedIsOverlay(l: RowLayout, top: map<u64, EncodedRow>, bottom: map<u64, EncodedRow>)
    requires AllFit(l, top) && AllFit(l, bottom)
    ensures Stacked(l, top, bottom) == bottom + top
  {
    hide RequiredPresent;
    forall k | k in top
      ensures Kept(l, top[k]) == top[k]
    {
      FittingIsKept(l, top[k]);
    }
    forall k | k in bottom
      ensures Kept(l, bottom[k]) == bottom[k]
    {
      FittingIsKept(l, bottom[k]);
    }
  }

  lemma {:induction false} FittingIsKept(l: RowLayout, e: EncodedRow)
    requires RowFits(l, e)
    ensures Kept(l, e) == e && Acceptable(l, e)
  {
    assert e.rowSlot[..l.rowSlotSize] == e.rowSlot;
  }

  lemma {:induction false} ListedAcceptable(l: RowLayout, rows: seq<SnapshotRow>, m: map<u64, EncodedRow>)
    requires ListsRows(rows, m) && AllFit(l, m)
    ensures AllAcceptable(l, rows)
  {
    forall i | 0 <= i < |rows|
      ensures Acceptable(l, rows[i].encoded)
    {
      FittingIsKept(l, m[rows[i].key]);
    }
  }

  lemma {:induction false} ListedSize(rows: seq<SnapshotRow>, m: map<u64, EncodedRow>)
    requires ListsRows(rows, m)
    ensures |rows| == |m|
  {
    RowMapSize(rows);
    forall k
      ensures k in RowMap(rows) <==> k in m
    {
      RowMapIs(rows, k);
      if k in m {
        var i :| 0 <= i < |rows| && rows[i] == SnapshotRow(k, m[k]);
      }
    }
    assert RowMap(rows).Keys == m.Keys;
    assert |m| == |m.Keys| && |RowMap(rows)| == |RowMap(rows).Keys|;
  }

  /** Rows of the realtime layer that a scan up to the boundary sees. */
  ghost function Scanned(s: ShardState, boundary: nat): map<u64, RowRef>
    reads s.Tables()
  {
    if s.realtime.None? then map[]
    else
      var rows := s.realtime.value.rows;
      Replay(rows[..if boundary < |rows| then boundary else |rows|])
  }

  /** The size limits of a snapshot over these rows are met. */
  ghost predicate Buildable(
      l: RowLayout, top: map<u64, EncodedRow>, bottom: map<u64, EncodedRow>, options: BuildOptions) {
    Room(l, |top| + |bottom|) && |top.Keys + bottom.Keys| <= FrozenIndex.MAX_ROWS
  }

  method ScanAsRows(s: ShardState, boundary: nat) returns (r: Result<seq<SnapshotRow>>)
    requires s.Sound()
    ensures r.Ok? && ListsRows(r.get, Encoded(Scanned(s, boundary)))
  {
    hide Replay;
    if s.realtime.None? {
      return Ok([]);
    }
    var rows := s.realtime.value.rows;
    ReplayBuilt(s.realtime.value.layout, rows[..if boundary < |rows| then boundary else |rows|]);
    var scanned := s.realtime.value.ScanVisibleRows(boundary);
    match scanned
    case Err(code) => r := Err(code);
    case Ok(refs) =>
      ScanLists(refs, Scanned(s, boundary));
      r := Ok(SnapshotRows(refs));
  }

  ghost predicate LayerServes(h: HashFn, layer: Option<Backing>, m: map<u64, EncodedRow>) {
    if layer.Some? then Serves(h, layer.value, m) else m == map[]
  }

  function CompactLayer(s: ShardState): Option<Backing> {
    if s.compact.Some? then Some(s.compact.value.AsBacking()) else None
  }

  /** m names what the layer serves, if it serves a map at all. */
  method EnumerateLayer(
      h: HashFn, layer: Option<Backing>, ghost m: map<u64, EncodedRow>)
    returns (r: Result<seq<SnapshotRow>>)
    ensures LayerServes(h, layer, m) ==> r.Ok? && ListsRows(r.get, m)
    ensures layer.Some? ==> r == Enumerated(h, layer.value)
  {
    hide Enumerated, Serves;
    if layer.None? {
      return Ok([]);
    }
    if LayerServes(h, layer, m) {
      EnumeratedLists(h, layer.value, m);
    }
    r := EnumerateSnapshotRows(h, layer.value);
  }

  /** Rows that a builder with n rows must take. */
  ghost predicate Addable(l: RowLayout, n: nat, rows: seq<SnapshotRow>, m: map<u64, EncodedRow>) {
    ListsRows(rows, m) && AllFit(l, m) && Room(l, n + |rows|)
  }

  method AddListed(builder: SnapshotBuilder, seen: set<u64>, rows: seq<SnapshotRow>, ghost m: map<u64, EncodedRow>)
    returns (r: Result<()>, seen': set<u64>)
    requires Seen(builder, seen)
    modifies builder
    ensures r.Ok? ==> Seen(builder, seen')
    ensures r.Ok? ==> |builder.rows| <= |old(builder.rows)| + |rows|
    ensures r.Ok? && ListsRows(rows, m) ==> RowMap(builder.rows) == Merged(builder.layout, RowMap(old(builder.rows)), m)
    ensures Addable(builder.layout, |old(builder.rows)|, rows, m) ==> r.Ok?
  {
    hide RowMap, AllFit, Seen, MergeRows, Merged, AllAcceptable, ListsRows, SlotsSize;
    if ListsRows(rows, m) {
      AllMerged(builder.layout, RowMap(builder.rows), rows, m);
      if AllFit(builder.layout, m) {
        ListedAcceptable(builder.layout, rows, m);
      }
    }
    r, seen' := AddNewRows(builder, seen, rows);
  }

  /** Sealing: what the builder holds is what the snapshot serves. */
  method SealMap(h: HashFn, builder: SnapshotBuilder, ghost seen: set<u64>, ghost m: map<u64, EncodedRow>)
    returns (r: Result<OwnedBacking>)
    requires Seen(builder, seen)
    ensures r.Ok? ==> r.get.layout == builder.layout
    ensures r.Ok? && builder.layout.rowSlotSize > 0 && RowMap(builder.rows) == m ==> Serves(h, r.get.AsBacking(), m)
    ensures r.Ok? ==> MadeWith(h, r.get.index, builder.options)
    ensures RowMap(builder.rows) == m && |m| <= FrozenIndex.MAX_ROWS ==> r.Ok?
  {
    hide RowMap, Serves, MadeWith, FrozenIndex.PlanMetadata;
    RowMapSize(builder.rows);
    r := builder.Seal(h);
  }

  lemma {:induction false} RoomForSome(l: RowLayout, n: nat, more: nat)
    requires n <= more && Room(l, more)
    ensures Room(l, n)
  {
    MulMono(n, more, l.rowSlotSize);
  }

  lemma {:induction false} StackedSize(l: RowLayout, top: map<u64, EncodedRow>, bottom: map<u64, EncodedRow>)
    ensures |Stacked(l, top, bottom)| == |top.Keys + bottom.Keys|
    ensures Stacked(l, top, bottom) == Merged(l, Merged(l, map[], top), bottom)
  {
    var m := Stacked(l, top, bottom);
    assert m.Keys == top.Keys + bottom.Keys && |m| == |m.Keys|;
  }

  ghost predicate AllOfLayout(
      l: RowLayout, top: map<u64, EncodedRow>, bottom: map<u64, EncodedRow>, options: BuildOptions) {
    AllFit(l, top) && AllFit(l, bottom) && Buildable(l, top, bottom, options)
  }

  /** Both builds: some listed rows, then the rows of a lower layer, each key taken from where it comes first. */
  method BuildOver(
      h: HashFn, l: RowLayout, options: BuildOptions, upper: seq<SnapshotRow>, layer: Option<Backing>,
      ghost top: map<u64, EncodedRow>, ghost bottom: map<u64, EncodedRow>)
    returns (r: Result<OwnedBacking>)
    ensures r.Ok? ==> r.get.layout == l && MadeWith(h, r.get.index, options)
    ensures r.Ok? && l.rowSlotSize > 0 && ListsRows(upper, top) && LayerServes(h, layer, bottom) ==>
      Serves(h, r.get.AsBacking(), Stacked(l, top, bottom))
    ensures ListsRows(upper, top) && LayerServes(h, layer, bottom) && AllOfLayout(l, top, bottom, options) ==> r.Ok?
  {
    hide RowMap, AllFit, Seen, Merged, Serves, ListsRows, MadeWith, SnapshotBuilder.Valid;
    hide LayerServes, Stacked, AllOfLayout, Addable;
    ghost var sound := ListsRows(upper, top) && LayerServes(h, layer, bottom) && AllOfLayout(l, top, bottom, options);
    var builder := new SnapshotBuilder(l, options);
    StartEmpty(builder);
    if sound {
      ListedSize(upper, top);
      AddableWithin(l, top, bottom, options, |builder.rows|, upper, top);
    }
    var added, seen := AddListed(builder, {}, upper, top);
    if added.Err? {
      return Err(added.code);
    }
    var lower := EnumerateLayer(h, layer, bottom);
    if lower.Err? {
      return Err(lower.code);
    }
    if sound {
      ListedSize(lower.get, bottom);
      AddableWithin(l, top, bottom, options, |builder.rows|, lower.get, bottom);
    }
    added, seen := AddListed(builder, seen, lower.get, bottom);
    if added.Err? {
      return Err(added.code);
    }
    StackedSize(l, top, bottom);
    if sound {
      PlanOfLayout(l, top, bottom, options);
    }
    r := SealMap(h, builder, seen, Stacked(l, top, bottom));
  }

  lemma {:induction false} StartEmpty(builder: SnapshotBuilder)
    requires builder.Valid() && builder.rows == []
    ensures Seen(builder, {}) && RowMap(builder.rows) == map[]
  {
  }

  lemma {:induction false} PlanOfLayout(
      l: RowLayout, top: map<u64, EncodedRow>, bottom: map<u64, EncodedRow>, options: BuildOptions)
    requires AllOfLayout(l, top, bottom, options)
    ensures |Stacked(l, top, bottom)| <= FrozenIndex.MAX_ROWS
  {
    hide AllFit, Stacked, SlotsSize;
    StackedSize(l, top, bottom);
  }

  /** A builder with n rows has room for m more. */
  lemma {:induction false} AddableWithin(
      l: RowLayout, top: map<u64, EncodedRow>, bottom: map<u64, EncodedRow>, options: BuildOptions, n: nat,
      rows: seq<SnapshotRow>, m: map<u64, EncodedRow>)
    requires AllOfLayout(l, top, bottom, options) && (m == top || m == bottom) && ListsRows(rows, m)
    requires n + |rows| <= |top| + |bottom|
    ensures Addable(l, n, rows, m)
  {
    hide AllFit, Buildable, SlotsSize, ListsRows;
    BuildableRoom(l, top, bottom, options);
    RoomForSome(l, n + |rows|, |top| + |bottom|);
  }

  lemma {:induction false} BuildableRoom(
      l: RowLayout, top: map<u64, EncodedRow>, bottom: map<u64, EncodedRow>, options: BuildOptions)
    requires Buildable(l, top, bottom, options)
    ensures Room(l, |top| + |bottom|)
  {
  }

  /**
   * The rows visible up to the boundary, over those of the compact layer. `below` names what that layer serves, if
   * it serves a map at all.
   */
  method BuildCompactedDeltaSnapshot(
      h: HashFn, mode: Mode, s: ShardState, boundary: nat, options: BuildOptions, ghost below: map<u64, EncodedRow>)
    returns (r: Result<OwnedBacking>)
    requires s.Sound()
    ensures !mode.FullSnapshotWithRealtimeDeltaAndCompaction? || ResolveLayout(s).Err? ==> r == Err(FailedPrecondition)
    ensures r.Ok? ==> r.get.layout == ResolveLayout(s).get && MadeWith(h, r.get.index, options)
    ensures r.Ok? && r.get.layout.rowSlotSize > 0 && LayerServes(h, CompactLayer(s), below) ==>
      Serves(h, r.get.AsBacking(), Stacked(r.get.layout, Encoded(Scanned(s, boundary)), below))
    ensures (&& mode.FullSnapshotWithRealtimeDeltaAndCompaction? && ResolveLayout(s).Ok?
             && LayerServes(h, CompactLayer(s), below)
             && AllOfLayout(ResolveLayout(s).get, Encoded(Scanned(s, boundary)), below, options)) ==> r.Ok?
  {
    hide Serves, Replay, ListsRows, AllOfLayout, Stacked, LayerServes, MadeWith, RealtimeDeltaAtomicTable.Valid;
    if !UsesCompactDelta(mode) {
      return Err(FailedPrecondition);
    }
    var layout := ResolveLayout(s);
    if layout.Err? {
      return Err(layout.code);
    }
    ghost var top := Encoded(Scanned(s, boundary));
    var visible := ScanAsRows(s, boundary);
    match visible
    case Err(code) => r := Err(code);
    case Ok(rows) =>
      r := BuildOver(h, layout.get, options, rows, CompactLayer(s), top, below);
  }

  datatype FinishRequest = FinishRequest(
    mode: Mode, previous: ShardState, generation: u64, successor: Option<RealtimeDeltaAtomicTable>,
    built: Option<OwnedBacking>)

  /** FinishDeltaCompaction does not look into the tables: routing the updates is the caller's business. */
  function FinishDeltaCompaction(request: FinishRequest): Result<ShardState> {
    if !UsesCompactDelta(request.mode) then Err(FailedPrecondition)
    else if request.built.None? then Err(InvalidArgument)
    else Ok(ShardState(request.previous.shardId, request.generation, request.successor, request.built,
                       request.previous.full))
  }

  /** The new state has the snapshot as its compact layer, over the full layer as it was. */
  lemma {:induction false} FinishExactly(request: FinishRequest)
    ensures FinishDeltaCompaction(request).Ok? <==>
      request.mode.FullSnapshotWithRealtimeDeltaAndCompaction? && request.built.Some?
    ensures FinishDeltaCompaction(request).Ok? ==>
      var s := FinishDeltaCompaction(request).get;
      && s.shardId == request.previous.shardId && s.generation == request.generation
      && s.realtime == request.successor && s.compact == request.built && s.full == request.previous.full
  {
  }

  // ---- Full rebase -------------------------------------------------------------------------------

  function IndexSettings(index: bytes): (u64, u32, u32)
    requires FrozenIndex.ReadMetadata(index).Ok?
  {
    var m := FrozenIndex.ReadMetadata(index).get;
    (m.hashSeed, m.hashVersion, m.groupWidth)
  }

  ghost function LayoutsAgree(h: HashFn, a: Backing, b: Backing): Result<()> {
    if a.layout.schemaVersion != b.layout.schemaVersion || a.layout.fingerprint != b.layout.fingerprint
       || a.layout.rowSlotSize != b.layout.rowSlotSize then Err(FailedPrecondition)
    else if !FrozenIndex.Accepts(h, a.index) || !FrozenIndex.Accepts(h, b.index) then Err(InvalidArgument)
    else if IndexSettings(a.index) != IndexSettings(b.index) then Err(FailedPrecondition)
    else Ok(())
  }

  method CheckSameLayout(h: HashFn, a: Backing, b: Backing) returns (r: Result<()>)
    ensures r == LayoutsAgree(h, a, b)
  {
    hide FrozenIndex.Accepts;
    if a.layout.schemaVersion != b.layout.schemaVersion || a.layout.fingerprint != b.layout.fingerprint
       || a.layout.rowSlotSize != b.layout.rowSlotSize {
      return Err(FailedPrecondition);
    }
    var first := FrozenIndex.Validate(h, a.index);
    if first.Err? {
      return Err(first.code);
    }
    var second := FrozenIndex.Validate(h, b.index);
    if second.Err? {
      return Err(second.code);
    }
    if first.get.m.hashSeed != second.get.m.hashSeed || first.get.m.hashVersion != second.get.m.hashVersion
       || first.get.m.groupWidth != second.get.m.groupWidth {
      return Err(FailedPrecondition);
    }
    r := Ok(());
  }

  /** Snapshots agree exactly if their layouts do and both indexes are sound and made with the same hash settings. */
  lemma {:induction false} AgreeExactly(h: HashFn, a: Backing, b: Backing)
    ensures LayoutsAgree(h, a, b).Ok? <==>
      && a.layout.schemaVersion == b.layout.schemaVersion && a.layout.fingerprint == b.layout.fingerprint
      && a.layout.rowSlotSize == b.layout.rowSlotSize
      && exists options :: MadeWith(h, a.index, options) && MadeWith(h, b.index, options)
  {
    hide FrozenIndex.Cells, FrozenTable.TableOk;
    if LayoutsAgree(h, a, b).Ok? {
      var m := FrozenIndex.ReadMetadata(a.index).get;
      var made := MadeWith(h, a.index, BuildOptions(m.hashSeed, m.hashVersion));
    }
  }

  /** The compact rows over the full ones; the realtime layer is not looked at. */
  method BuildRebasedFullSnapshot(
      h: HashFn, mode: Mode, loadActive: bool, s: ShardState, options: BuildOptions,
      ghost compact: map<u64, EncodedRow>, ghost full: map<u64, EncodedRow>)
    returns (r: Result<OwnedBacking>)
    ensures !mode.FullSnapshotWithRealtimeDeltaAndCompaction? || loadActive || s.full.None? ==>
      r == Err(FailedPrecondition)
    ensures r.Ok? ==> r.get.layout == s.full.value.layout && MadeWith(h, r.get.index, options)
    ensures r.Ok? && s.compact.Some? ==> LayoutsAgree(h, s.compact.value.AsBacking(), s.full.value).Ok?
    ensures (&& r.Ok? && r.get.layout.rowSlotSize > 0
             && LayerServes(h, CompactLayer(s), compact) && LayerServes(h, s.full, full)) ==>
      Serves(h, r.get.AsBacking(), Stacked(r.get.layout, compact, full))
    ensures (&& mode.FullSnapshotWithRealtimeDeltaAndCompaction? && !loadActive && s.full.Some?
             && (s.compact.Some? ==> LayoutsAgree(h, s.compact.value.AsBacking(), s.full.value).Ok?)
             && LayerServes(h, CompactLayer(s), compact) && LayerServes(h, s.full, full)
             && AllOfLayout(s.full.value.layout, compact, full, options)) ==> r.Ok?
  {
    hide Serves, ListsRows, AllOfLayout, Stacked, LayerServes, LayoutsAgree, MadeWith;
    if !UsesCompactDelta(mode) || loadActive || s.full.None? {
      return Err(FailedPrecondition);
    }
    if s.compact.Some? {
      var same := CheckSameLayout(h, s.compact.value.AsBacking(), s.full.value);
      if same.Err? {
        return Err(same.code);
      }
    }
    var compactRows := EnumerateLayer(h, CompactLayer(s), compact);
    if compactRows.Err? {
      return Err(compactRows.code);
    }
    r := BuildOver(h, s.full.value.layout, options, compactRows.get, s.full, compact, full);
  }

  /** EnsurePreviousRealtimeIsEmpty, then the successor state without a compact layer. */
  method FinishFullRebase(request: FinishRequest) returns (r: Result<ShardState>)
    requires request.previous.Sound()
    ensures !request.mode.FullSnapshotWithRealtimeDeltaAndCompaction? ==> r == Err(FailedPrecondition)
    ensures request.mode.FullSnapshotWithRealtimeDeltaAndCompaction? && request.built.None? ==>
      r == Err(InvalidArgument)
    ensures request.mode.FullSnapshotWithRealtimeDeltaAndCompaction? && request.built.Some? ==>
      r == if request.previous.Shown() != map[] then Err(FailedPrecondition)
           else Ok(ShardState(request.previous.shardId, request.generation, request.successor, None,
                              Some(request.built.value.AsBacking())))
  {
    hide Replay;
    if !UsesCompactDelta(request.mode) {
      return Err(FailedPrecondition);
    }
    if request.built.None? {
      return Err(InvalidArgument);
    }
    if request.previous.realtime.Some? {
      var table := request.previous.realtime.value;
      var boundary := table.CaptureCompactionBoundary();
      var visible := table.ScanVisibleRows(boundary);
      assert table.rows[..|table.rows|] == table.rows;
      match visible
      case Err(code) => return Err(code);
      case Ok(refs) =>
        ListedEmpty(refs, Replay(table.rows));
        if refs != [] {
          return Err(FailedPrecondition);
        }
    }
    r := Ok(ShardState(request.previous.shardId, request.generation, request.successor, None,
                       Some(request.built.value.AsBacking())));
  }

  lemma {:induction false} ListedEmpty(refs: seq<RowRef>, shown: map<u64, RowRef>)
    requires Lists(refs, shown)
    ensures refs == [] <==> shown == map[]
  {
    if refs == [] {
      assert forall k :: k !in shown;
    } else {
      assert refs[0].key in shown;
    }
  }

  // ---- Cutover -----------------------------------------------------------------------------------

  lemma {:induction false} ScannedFits(s: ShardState, l: RowLayout, boundary: nat)
    requires s.Sound() && s.realtime.Some? && s.realtime.value.layout == Some(l)
    ensures AllFit(l, Encoded(Scanned(s, boundary)))
  {
    hide Replay, RowFits;
    var rows := s.realtime.value.rows;
    ReplayBuilt(Some(l), rows[..if boundary < |rows| then boundary else |rows|]);
  }

  lemma {:induction false} OverlayFits(l: RowLayout, top: map<u64, EncodedRow>, bottom: map<u64, EncodedRow>)
    requires AllFit(l, top) && AllFit(l, bottom)
    ensures AllFit(l, bottom + top)
  {
  }

  /** After the cutover of a compaction the layers hold what LayerRuns says: the scanned rows have moved down. */
  lemma {:induction false} CompactionCutover(
      h: HashFn, s: ShardState, l: RowLayout, compact: map<u64, EncodedRow>, full: map<u64, EncodedRow>,
      boundary: nat, b: OwnedBacking, generation: u64, successor: Option<RealtimeDeltaAtomicTable>)
    requires Holds(h, s, l, compact, full) && s.realtime.Some? && b.layout == l
    requires Serves(h, b.AsBacking(), Stacked(l, Encoded(Scanned(s, boundary)), compact))
    requires successor.Some? ==> successor.value.Valid() && successor.value.layout == Some(l)
    ensures var f := FinishDeltaCompaction(
        FinishRequest(FullSnapshotWithRealtimeDeltaAndCompaction, s, generation, successor, Some(b)));
      f.Ok? && Holds(h, f.get, l, compact + Encoded(Scanned(s, boundary)), full)
  {
    hide AllFit, Serves, Scanned, Stacked, RealtimeDeltaAtomicTable.Valid;
    ScannedFits(s, l, boundary);
    StackedIsOverlay(l, Encoded(Scanned(s, boundary)), compact);
    OverlayFits(l, Encoded(Scanned(s, boundary)), compact);
  }

  /** After the cutover of a rebase the compact layer is gone and the full layer holds both. */
  lemma {:induction false} RebaseCutover(
      h: HashFn, s: ShardState, l: RowLayout, compact: map<u64, EncodedRow>, full: map<u64, EncodedRow>,
      b: OwnedBacking, generation: u64, successor: Option<RealtimeDeltaAtomicTable>)
    requires Holds(h, s, l, compact, full) && b.layout == l && Serves(h, b.AsBacking(), Stacked(l, compact, full))
    requires successor.Some? ==> successor.value.Valid() && successor.value.layout == Some(l)
    ensures Holds(h, ShardState(s.shardId, generation, successor, None, Some(b.AsBacking())), l, map[], full + compact)
  {
    hide Serves, Stacked, RealtimeDeltaAtomicTable.Valid, RowFits;
    StackedIsOverlay(l, compact, full);
    OverlayFits(l, compact, full);
  }
}
