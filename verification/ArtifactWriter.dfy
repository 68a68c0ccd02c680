/** WriteArtifactWithShards, src/artifact/artifact_writer.cc:257-480, up to the bytes that go to the file. */
module ArtifactWriter {
  import opened Basics
  import opened ByteIO
  import opened Schema
  import opened RowStorage
  import opened Snapshot
  import opened SectionDirectory
  import opened ArtifactFormat
  import opened ArtifactFile
  import ArtifactSchema
  import ArtifactSections
  import RowPayloads
  import FrozenIndex
  import Fnv

  datatype ShardSpec = ShardSpec(shardId: u32, rows: seq<SnapshotRow>)

  datatype BuildSpec = BuildSpec(
    layout: Option<RowLayout>, artifactId: bytes, shardCount: u32, hashSeed: u64, hashVersion: u32,
    includeProgress: bool, progress: seq<ArtifactSections.SourceProgress>)

  /** The seven sections of a shard; the four pools hold a zero byte. */
  function ShardParts(shardId: u32, b: OwnedBacking): (r: seq<Part>)
    ensures |r| == 7
  {
    [Part(INDEX, shardId, b.index), Part(ROW_SLOTS, shardId, b.slots),
     Part(ROW_ARENA, shardId, RowPayloads.PrintPayloadSection(b.payloads)),
     Part(103, shardId, [0]), Part(104, shardId, [0]), Part(105, shardId, [0]), Part(106, shardId, [0])]
  }

  function AllShardParts(shards: seq<ShardSpec>, backings: seq<OwnedBacking>): (r: seq<Part>)
    requires |shards| == |backings|
    ensures |r| == 7 * |shards|
  {
    if shards == [] then []
    else
      AllShardParts(shards[..|shards| - 1], backings[..|shards| - 1])
      + ShardParts(shards[|shards| - 1].shardId, backings[|shards| - 1])
  }

  function GlobalParts(spec: BuildSpec): seq<Part>
    requires spec.layout.Some?
  {
    [Part(SCHEMA, GLOBAL_SHARD, ArtifactSchema.PrintSchema(spec.layout.value))]
    + if spec.includeProgress
      then [Part(PROGRESS, GLOBAL_SHARD, ArtifactSections.PrintProgressSection(spec.progress))] else []
  }

  function PartsOf(spec: BuildSpec, shards: seq<ShardSpec>, backings: seq<OwnedBacking>): (r: seq<Part>)
    requires spec.layout.Some? && |shards| == |backings|
    ensures |r| == SectionCount(spec, |shards|)
  {
    GlobalParts(spec) + AllShardParts(shards, backings)
  }

  function SectionCount(spec: BuildSpec, shards: nat): nat {
    1 + (if spec.includeProgress then 1 else 0) + 7 * shards
  }

  function HeaderOf(spec: BuildSpec, n: u32): Header
    requires spec.layout.Some? && spec.layout.value.schemaVersion < TWO_64
  {
    Header(n, spec.shardCount, spec.hashSeed, spec.hashVersion, spec.layout.value.schemaVersion,
           spec.layout.value.fingerprint, spec.artifactId)
  }

  /** The argument checks. */
  predicate SpecOk(spec: BuildSpec, shards: seq<ShardSpec>) {
    && spec.layout.Some? && |spec.artifactId| <= ID_CAPACITY && spec.shardCount > 0 && shards != []
    && (forall i :: 0 <= i < |shards| ==> shards[i].shardId < spec.shardCount)
    && (forall i, j :: 0 <= i < j < |shards| ==> shards[i].shardId != shards[j].shardId)
  }

  method CheckShards(spec: BuildSpec, shards: seq<ShardSpec>) returns (r: Result<()>)
    ensures r == if SpecOk(spec, shards) then Ok(()) else Err(InvalidArgument)
  {
    if spec.layout.None? || |spec.artifactId| > ID_CAPACITY || spec.shardCount == 0 || shards == [] {
      return Err(InvalidArgument);
    }
    var seen: set<u32> := {};
    for i := 0 to |shards|
      invariant forall j :: 0 <= j < i ==> shards[j].shardId < spec.shardCount
      invariant forall j, k :: 0 <= j < k < i ==> shards[j].shardId != shards[k].shardId
      invariant forall id :: id in seen <==> exists j :: 0 <= j < i && shards[j].shardId == id
    {
      if shards[i].shardId >= spec.shardCount {
        return Err(InvalidArgument);
      }
      if shards[i].shardId in seen {
        var j :| 0 <= j < i && shards[j].shardId == shards[i].shardId;
        return Err(InvalidArgument);
      }
      seen := seen + {shards[i].shardId};
    }
    r := Ok(());
  }

  // ---- One shard ---------------------------------------------------------------------------------

  function IndexPlan(spec: BuildSpec, n: nat): Result<FrozenIndex.Metadata> {
    FrozenIndex.PlanMetadata(n, FrozenIndex.BuildOptions(spec.hashSeed, spec.hashVersion, 16))
  }

  function PayloadsOf(rows: seq<SnapshotRow>): (r: seq<RowPayload>)
    ensures |r| == |rows|
  {
    seq(|rows|, i requires 0 <= i < |rows| => PayloadOf(rows[i].encoded))
  }

  function KeptRow(l: RowLayout, row: SnapshotRow): SnapshotRow {
    SnapshotRow(row.key, Kept(l, row.encoded))
  }

  function KeptRows(l: RowLayout, rows: seq<SnapshotRow>): seq<SnapshotRow> {
    seq(|rows|, i requires 0 <= i < |rows| => KeptRow(l, rows[i]))
  }

  /** Rows of the layout under distinct keys, whose slots fit a vector. */
  ghost predicate RowsFit(l: RowLayout, rows: seq<SnapshotRow>) {
    && (forall i :: 0 <= i < |rows| ==> Acceptable(l, rows[i].encoded))
    && (forall i, j :: 0 <= i < j < |rows| ==> rows[i].key != rows[j].key)
    && |rows| * l.rowSlotSize < TWO_63
  }

  /** The backing holds exactly the rows of the shard's spec. */
  ghost predicate BackingOf(h: HashFn, spec: BuildSpec, shard: ShardSpec, b: OwnedBacking)
    requires spec.layout.Some?
  {
    var l := spec.layout.value;
    && b.layout == l && b.payloads == PayloadsOf(shard.rows) && |b.slots| == |shard.rows| * l.rowSlotSize
    && FrozenIndex.Accepts(h, b.index)
    && |shard.rows| <= FrozenIndex.MAX_ROWS && |b.index| == IndexSize(spec, |shard.rows|)
    && (l.rowSlotSize > 0 || shard.rows == [] ==> Serves(h, b.AsBacking(), RowMap(KeptRows(l, shard.rows))))
  }

  method BuildShardSnapshot(h: HashFn, spec: BuildSpec, shard: ShardSpec) returns (r: Result<OwnedBacking>)
    requires spec.layout.Some?
    ensures r.Ok? <==> RowsFit(spec.layout.value, shard.rows) && |shard.rows| <= FrozenIndex.MAX_ROWS
    ensures r.Ok? ==> BackingOf(h, spec, shard, r.get)
  {
    hide FrozenIndex.PlanMetadata, FrozenIndex.Accepts, Serves, RowMap, Kept, Stored;
    var l := spec.layout.value;
    var builder := new SnapshotBuilder(l, BuildOptions(spec.hashSeed, spec.hashVersion));
    for i := 0 to |shard.rows|
      invariant builder.Valid() && fresh(builder) && |builder.rows| == i
      invariant forall k :: 0 <= k < i ==>
        builder.rows[k] == KeptRow(l, shard.rows[k]) && Acceptable(l, shard.rows[k].encoded)
      invariant i * l.rowSlotSize < TWO_63
    {
      SlotsSize(l, builder.rows, builder.slots, builder.payloads);
      ghost var before := builder.rows;
      var added := builder.AddRow(shard.rows[i].key, shard.rows[i].encoded);
      if added.Err? {
        RefusedRow(l, shard.rows, before, i);
        return Err(added.code);
      }
      assert (i + 1) * l.rowSlotSize == i * l.rowSlotSize + l.rowSlotSize;
    }
    assert builder.rows == KeptRows(l, shard.rows);
    StoredPayloads(l, shard.rows, builder.slots, builder.payloads);
    KeysStay(l, shard.rows, builder.rows);
    r := builder.Seal(h);
  }

  lemma {:induction false} SlotsSize(l: RowLayout, rows: seq<SnapshotRow>, slots: bytes, payloads: seq<RowPayload>)
    requires Stored(l, rows, slots, payloads)
    ensures |slots| == |rows| * l.rowSlotSize && |payloads| == |rows|
  {
  }

  /** AddRow refuses row i only if the shard's rows do not fit. */
  lemma {:induction false} RefusedRow(l: RowLayout, rows: seq<SnapshotRow>, before: seq<SnapshotRow>, i: nat)
    requires i < |rows| && |before| == i && forall k :: 0 <= k < i ==> before[k] == KeptRow(l, rows[k])
    ensures !Acceptable(l, rows[i].encoded) ==> !RowsFit(l, rows)
    ensures (exists k :: 0 <= k < i && before[k].key == rows[i].key) ==> !RowsFit(l, rows)
    ensures i * l.rowSlotSize + l.rowSlotSize >= TWO_63 ==> !RowsFit(l, rows)
  {
    hide Acceptable, Kept;
    assert i * l.rowSlotSize + l.rowSlotSize == (i + 1) * l.rowSlotSize;
    MulMono(i + 1, |rows|, l.rowSlotSize);
    if k :| 0 <= k < i && before[k].key == rows[i].key {
      assert rows[k].key == rows[i].key;
    }
  }

  lemma {:induction false} KeysStay(l: RowLayout, rows: seq<SnapshotRow>, kept: seq<SnapshotRow>)
    requires kept == KeptRows(l, rows)
    requires forall i, j :: 0 <= i < j < |kept| ==> kept[i].key != kept[j].key
    ensures forall i, j :: 0 <= i < j < |rows| ==> rows[i].key != rows[j].key
  {
    hide Kept;
    forall i, j | 0 <= i < j < |rows|
      ensures rows[i].key != rows[j].key
    {
      assert kept[i].key != kept[j].key;
    }
  }

  lemma {:induction false} StoredPayloads(l: RowLayout, rows: seq<SnapshotRow>, slots: bytes, payloads: seq<RowPayload>)
    requires Stored(l, KeptRows(l, rows), slots, payloads)
    requires forall i :: 0 <= i < |rows| ==> Acceptable(l, rows[i].encoded)
    ensures payloads == PayloadsOf(rows) && |slots| == |rows| * l.rowSlotSize
  {
    forall i | 0 <= i < |rows|
      ensures payloads[i] == PayloadOf(rows[i].encoded)
    {
      assert StoredAt(l, KeptRows(l, rows), slots, payloads, i);
      assert Acceptable(l, rows[i].encoded);
    }
  }

  ghost predicate ShardFits(spec: BuildSpec, shard: ShardSpec)
    requires spec.layout.Some?
  {
    && RowsFit(spec.layout.value, shard.rows) && |shard.rows| <= FrozenIndex.MAX_ROWS
    && RowPayloads.AllPrintable(PayloadsOf(shard.rows))
  }

  /** The bytes that a shard adds to the file. */
  function ShardSize(spec: BuildSpec, shard: ShardSpec): (n: nat)
    requires spec.layout.Some?
  {
    SlotBytes(|shard.rows|, spec.layout.value.rowSlotSize);
    IndexSize(spec, |shard.rows|) + |shard.rows| * spec.layout.value.rowSlotSize
    + |RowPayloads.PrintPayloadSection(PayloadsOf(shard.rows))| + 4
  }

  function IndexSize(spec: BuildSpec, n: nat): nat {
    hide FrozenIndex.PlanMetadata;
    var index := IndexPlan(spec, n);
    if index.Ok? then index.get.totalSize else 0
  }

  function ShardsSize(spec: BuildSpec, shards: seq<ShardSpec>): (n: nat)
    requires spec.layout.Some?
  {
    if shards == [] then 0 else ShardsSize(spec, shards[..|shards| - 1]) + ShardSize(spec, shards[|shards| - 1])
  }

  lemma {:induction false} PrefixSize(spec: BuildSpec, shards: seq<ShardSpec>, i: nat)
    requires spec.layout.Some? && i < |shards|
    ensures ShardsSize(spec, shards[..i + 1]) == ShardsSize(spec, shards[..i]) + ShardSize(spec, shards[i])
    ensures ShardsSize(spec, shards[..i + 1]) <= ShardsSize(spec, shards)
    decreases |shards|
  {
    hide ShardSize;
    var n := |shards| - 1;
    assert shards[..i + 1][..i] == shards[..i];
    if i < n {
      assert shards[..n][..i] == shards[..i] && shards[..n][..i + 1] == shards[..i + 1];
      PrefixSize(spec, shards[..n], i);
    } else {
      assert shards[..i + 1] == shards;
    }
  }

  /** Each shard has at least its four pools. */
  lemma {:induction false} ShardsFill(spec: BuildSpec, shards: seq<ShardSpec>)
    requires spec.layout.Some?
    ensures ShardsSize(spec, shards) >= 4 * |shards|
    decreases |shards|
  {
    hide RowPayloads.PrintPayloadSection, IndexPlan;
    if shards != [] {
      ShardsFill(spec, shards[..|shards| - 1]);
      SlotBytes(|shards[|shards| - 1].rows|, spec.layout.value.rowSlotSize);
    }
  }

  lemma {:induction false} SlotBytes(n: nat, size: nat)
    ensures n * size >= 0
  {
  }

  lemma {:induction false} ShardJoined(h: HashFn, spec: BuildSpec, shard: ShardSpec, b: OwnedBacking)
    requires spec.layout.Some? && BackingOf(h, spec, shard, b)
    ensures |Joined(ShardParts(shard.shardId, b))| == ShardSize(spec, shard)
  {
    hide Serves, FrozenIndex.Accepts, RowPayloads.PrintPayloadSection, Joined, RowMap, IndexPlan;
    var id := shard.shardId;
    var arena := RowPayloads.PrintPayloadSection(b.payloads);
    var p0, p1, p2 := Part(INDEX, id, b.index), Part(ROW_SLOTS, id, b.slots), Part(ROW_ARENA, id, arena);
    assert [] + [p0] == [p0] && [p0] + [p1] == [p0, p1] && [p0, p1] + [p2] == [p0, p1, p2];
    JoinedNone();
    JoinedOne([], p0);
    JoinedOne([p0], p1);
    JoinedOne([p0, p1], p2);
    var pools := [p0, p1, p2];
    JoinedOne(pools, Part(103, id, [0]));
    JoinedOne(pools + [Part(103, id, [0])], Part(104, id, [0]));
    JoinedOne(pools + [Part(103, id, [0])] + [Part(104, id, [0])], Part(105, id, [0]));
    JoinedOne(pools + [Part(103, id, [0])] + [Part(104, id, [0])] + [Part(105, id, [0])], Part(106, id, [0]));
    assert ShardParts(id, b)
      == pools + [Part(103, id, [0])] + [Part(104, id, [0])] + [Part(105, id, [0])] + [Part(106, id, [0])];
  }

  // ---- Patching ----------------------------------------------------------------------------------

  /** WriteLittleEndian into the file. */
  method WriteField(file: bytes, at: nat, w: nat, v: nat) returns (r: Result<bytes>)
    ensures r == if InSpan(|file|, at, w) then Ok(Put(file, at, LE(v, w))) else Err(InvalidArgument)
  {
    hide LE;
    if !InSpan(|file|, at, w) {
      return Err(InvalidArgument);
    }
    r := Ok(WriteAt(file, at, w, v));
  }

  /** A field right behind those that are already put over the file at an offset. */
  method WriteNext(file: bytes, ghost base: bytes, ghost from: nat, ghost done: bytes, at: nat, w: nat, v: nat)
    returns (r: Result<bytes>, ghost done': bytes)
    requires from + |done| <= |base| && file == Put(base, from, done) && at == from + |done|
    ensures done' == done + LE(v, w)
    ensures r == if InSpan(|base|, at, w) then Ok(Put(base, from, done')) else Err(InvalidArgument)
  {
    hide LE, Put;
    r := WriteField(file, at, w, v);
    done' := done + LE(v, w);
    if r.Ok? {
      PutOn(base, from, done, LE(v, w));
    }
  }

  lemma {:induction false} PutNothing(base: bytes, from: nat)
    requires from <= |base|
    ensures base == Put(base, from, [])
  {
  }

  /** The header's fields; a file that holds a header has room for all of them. */
  method PatchHeader(file: bytes, h: Header) returns (r: Result<bytes>)
    requires |h.artifactId| <= ID_CAPACITY && HEADER_SIZE <= |file|
    ensures r == Ok(PutHeader(file, h))
  {
    hide LE, Put, HeaderFront, HeaderBack;
    PutNothing(file, 0);
    ghost var d;
    r, d := WriteNext(file, file, 0, [], 0, 8, MAGIC);
    r, d := WriteNext(r.get, file, 0, d, 8, 4, 1);
    r, d := WriteNext(r.get, file, 0, d, 12, 4, HEADER_SIZE);
    r, d := WriteNext(r.get, file, 0, d, 16, 4, ENTRY_SIZE);
    r, d := WriteNext(r.get, file, 0, d, 20, 4, h.sectionCount);
    r, d := WriteNext(r.get, file, 0, d, 24, 4, 1);
    r, d := WriteNext(r.get, file, 0, d, 28, 4, h.shardCount);
    r, d := WriteNext(r.get, file, 0, d, 32, 8, h.hashSeed);
    r, d := WriteNext(r.get, file, 0, d, 40, 4, h.hashVersion);
    FrontDone(h, d);
    ghost var front := r.get;
    PutNothing(front, 48);
    r, d := WriteNext(r.get, front, 48, [], 48, 8, h.schemaVersion);
    r, d := WriteNext(r.get, front, 48, d, 56, 8, h.fingerprint);
    r, d := WriteNext(r.get, front, 48, d, 64, 4, |h.artifactId|);
    BackDone(h, d);
    PutOn(front, 48, d, h.artifactId);
    // std::copy of the artifact id
    r := Ok(Put(r.get, 68, h.artifactId));
  }

  lemma {:induction false} FrontDone(h: Header, d: bytes)
    requires d
      == [] + LE(MAGIC, 8) + LE(1, 4) + LE(HEADER_SIZE, 4) + LE(ENTRY_SIZE, 4) + LE(h.sectionCount, 4) + LE(1, 4)
      + LE(h.shardCount, 4) + LE(h.hashSeed, 8) + LE(h.hashVersion, 4)
    ensures d == HeaderFront(h)
  {
    hide LE;
    assert [] + LE(MAGIC, 8) == LE(MAGIC, 8);
  }

  lemma {:induction false} BackDone(h: Header, d: bytes)
    requires d == [] + LE(h.schemaVersion, 8) + LE(h.fingerprint, 8) + LE(|h.artifactId|, 4)
    ensures |d| == 20 && d + h.artifactId == HeaderBack(h)
  {
    hide LE;
    assert [] + LE(h.schemaVersion, 8) == LE(h.schemaVersion, 8);
  }

  /** WriteSectionDirectoryEntry. */
  method PatchEntry(file: bytes, at: nat, e: Section) returns (r: Result<bytes>)
    ensures r == if at + FIELD_BYTES <= |file| then Ok(Put(file, at, EntryFields(e))) else Err(InvalidArgument)
  {
    hide LE, Put, EntryFields;
    if at > |file| {
      r := WriteField(file, at, 4, e.kind);
      return;
    }
    PutNothing(file, at);
    ghost var d;
    r, d := WriteNext(file, file, at, [], at, 4, e.kind);
    if r.Err? {
      return;
    }
    r, d := WriteNext(r.get, file, at, d, at + 4, 4, e.shardId);
    if r.Err? {
      return;
    }
    r, d := WriteNext(r.get, file, at, d, at + 8, 8, e.offset);
    if r.Err? {
      return;
    }
    r, d := WriteNext(r.get, file, at, d, at + 16, 8, e.length);
    if r.Err? {
      return;
    }
    r, d := WriteNext(r.get, file, at, d, at + 24, 8, e.checksum);
    EntryDone(e, d);
  }

  lemma {:induction false} EntryDone(e: Section, d: bytes)
    requires d == [] + LE(e.kind, 4) + LE(e.shardId, 4) + LE(e.offset, 8) + LE(e.length, 8) + LE(e.checksum, 8)
    ensures d == EntryFields(e)
  {
    hide LE;
    assert [] + LE(e.kind, 4) == LE(e.kind, 4);
  }

  /** The entries at their 64-bit offsets: an error exactly if the last one's fields do not fit. */
  method PatchDirectory(file: bytes, sections: seq<Section>) returns (r: Result<bytes>)
    ensures r == if RoomFor(|sections|, |file|) then Ok(PutEntries(file, sections)) else Err(InvalidArgument)
  {
    hide Put, EntryFields;
    var patched := file;
    assert sections[..0] == [];
    for i := 0 to |sections|
      invariant RoomFor(i, |file|) && patched == PutEntries(file, sections[..i])
    {
      assert sections[..i + 1][..i] == sections[..i];
      r := PatchEntry(patched, HEADER_SIZE + i * ENTRY_SIZE, sections[i]);
      if r.Err? {
        return;
      }
      patched := r.get;
    }
    assert sections[..|sections|] == sections;
    r := Ok(patched);
  }

  // ---- Writing -----------------------------------------------------------------------------------

  /** The file and the section list once these parts have been added. */
  ghost predicate Added(file: bytes, sections: seq<Section>, start: nat, parts: seq<Part>) {
    && start + |Joined(parts)| < TWO_63
    && file == Zeros(start) + Joined(parts) && sections == SectionsOf(parts, start)
  }

  /** A file of 2^63 bytes cannot be held; that failure is the code Unknown here. */
  method AddSection(file: bytes, sections: seq<Section>, part: Part, ghost start: nat, ghost parts: seq<Part>)
    returns (r: Result<()>, file': bytes, sections': seq<Section>)
    requires Added(file, sections, start, parts)
    ensures r == if |file| + |part.payload| < TWO_63 then Ok(()) else Err(Unknown)
    ensures r.Ok? ==> Added(file', sections', start, parts + [part]) && |file'| == |file| + |part.payload|
  {
    hide Fnv.Fnv1a64;
    file', sections' := file, sections;
    if |file| + |part.payload| >= TWO_63 {
      return Err(Unknown), file, sections;
    }
    var section := Section(part.kind, part.shardId, |file|, |part.payload|, Fnv.Fnv1a64(part.payload));
    AddedOne(parts, part, start);
    file', sections' := file + part.payload, sections + [section];
    r := Ok(());
  }

  lemma {:induction false} AddedOne(parts: seq<Part>, part: Part, start: nat)
    requires start + |Joined(parts)| + |part.payload| < TWO_63
    ensures Joined(parts + [part]) == Joined(parts) + part.payload
    ensures SectionsOf(parts + [part], start) == SectionsOf(parts, start)
      + [Section(part.kind, part.shardId, start + |Joined(parts)|, |part.payload|, Fnv.Fnv1a64(part.payload))]
  {
    hide Fnv.Fnv1a64, Joined;
    var more := parts + [part];
    JoinedOne(parts, part);
    forall i | 0 <= i < |parts|
      ensures SectionOf(more, start, i) == SectionOf(parts, start, i)
    {
      assert more[..i] == parts[..i];
    }
    assert more[..|parts|] == parts;
  }

  lemma {:induction false} JoinedOne(parts: seq<Part>, part: Part)
    ensures Joined(parts + [part]) == Joined(parts) + part.payload
  {
    assert (parts + [part])[..|parts|] == parts;
  }

  method AddSections(file: bytes, sections: seq<Section>, more: seq<Part>, ghost start: nat, ghost parts: seq<Part>)
    returns (r: Result<()>, file': bytes, sections': seq<Section>)
    requires Added(file, sections, start, parts)
    ensures r == if |file| + |Joined(more)| < TWO_63 then Ok(()) else Err(Unknown)
    ensures r.Ok? ==> Added(file', sections', start, parts + more) && |file'| == |file| + |Joined(more)|
  {
    hide Added, Joined;
    file', sections' := file, sections;
    assert parts + more[..0] == parts && more[..0] == [];
    JoinedNone();
    AddedSize(file, sections, start, parts);
    for i := 0 to |more|
      invariant Added(file', sections', start, parts + more[..i]) && |file'| == |file| + |Joined(more[..i])| < TWO_63
    {
      PrefixLength(more, i);
      r, file', sections' := AddSection(file', sections', more[i], start, parts + more[..i]);
      if r.Err? {
        return;
      }
      assert parts + more[..i] + [more[i]] == parts + more[..i + 1];
      assert more[..i] + [more[i]] == more[..i + 1];
      JoinedOne(more[..i], more[i]);
    }
    assert more[..|more|] == more;
    r := Ok(());
  }

  lemma {:induction false} JoinedNone()
    ensures Joined([]) == []
  {
  }

  lemma {:induction false} AddedSize(file: bytes, sections: seq<Section>, start: nat, parts: seq<Part>)
    requires Added(file, sections, start, parts)
    ensures |file| == start + |Joined(parts)| < TWO_63 && |sections| == |parts|
  {
  }

  /** The vector's first size, in 32 bits. */
  function FirstSize(n: u32): u32 {
    (HEADER_SIZE + n * ENTRY_SIZE) % TWO_32
  }

  /** What a written file was made from, whether or not its first size has wrapped. */
  ghost predicate WrittenFrom(
      h: HashFn, spec: BuildSpec, shards: seq<ShardSpec>, backings: seq<OwnedBacking>, file: bytes) {
    && SpecOk(spec, shards) && |backings| == |shards|
    && SchemaFits(spec.layout.value) && (spec.includeProgress ==> ProgressFits(spec.progress))
    && (forall i :: 0 <= i < |shards| ==>
          BackingOf(h, spec, shards[i], backings[i]) && RowPayloads.AllPrintable(backings[i].payloads))
    && var parts := PartsOf(spec, shards, backings);
       && |parts| < TWO_32 && FileSize(spec, shards) == FirstSize(|parts|) + |Joined(parts)| < TWO_63
       && HEADER_SIZE <= FileSize(spec, shards) && RoomFor(|parts|, FileSize(spec, shards))
       && file == FileOver(HeaderOf(spec, |parts|), SectionsOf(parts, FirstSize(|parts|)),
                           Zeros(FirstSize(|parts|)) + Joined(parts))
  }

  ghost predicate SchemaFits(l: RowLayout) {
    |l.fields| < TWO_32 && forall i :: 0 <= i < |l.fields| ==> |l.fields[i].name| < TWO_32
  }

  ghost predicate ProgressFits(ps: seq<ArtifactSections.SourceProgress>) {
    |ps| < TWO_32 && forall i :: 0 <= i < |ps| ==> |ps[i].topic| < TWO_32
  }

  function FileSize(spec: BuildSpec, shards: seq<ShardSpec>): (n: nat)
    requires spec.layout.Some?
  {
    FirstSize(SectionCount(spec, |shards|) % TWO_32) + GlobalSize(spec) + ShardsSize(spec, shards)
  }

  function GlobalSize(spec: BuildSpec): (n: nat)
    requires spec.layout.Some?
  {
    |ArtifactSchema.PrintSchema(spec.layout.value)|
    + if spec.includeProgress then |ArtifactSections.PrintProgressSection(spec.progress)| else 0
  }

  /**
   * When writing succeeds: good arguments, sizes that fit their prefixes, rows of the layout under distinct keys, and a
   * file below 2^63 bytes with room for its directory.
   */
  ghost predicate CanWrite(spec: BuildSpec, shards: seq<ShardSpec>) {
    && SpecOk(spec, shards) && SchemaFits(spec.layout.value) && (spec.includeProgress ==> ProgressFits(spec.progress))
    && (forall i :: 0 <= i < |shards| ==> ShardFits(spec, shards[i]))
    && SectionCount(spec, |shards|) < TWO_32 && FileSize(spec, shards) < TWO_63
    && RoomFor(SectionCount(spec, |shards|), FileSize(spec, shards))
  }

  /** One shard's sections. */
  method AddShard(
      h: HashFn, spec: BuildSpec, shard: ShardSpec, file: bytes, sections: seq<Section>, ghost start: nat,
      ghost parts: seq<Part>)
    returns (r: Result<()>, file': bytes, sections': seq<Section>, ghost b: Option<OwnedBacking>)
    requires spec.layout.Some? && Added(file, sections, start, parts)
    ensures r.Ok? <==> ShardFits(spec, shard) && |file| + ShardSize(spec, shard) < TWO_63
    ensures r.Ok? ==> b.Some? && BackingOf(h, spec, shard, b.value) && RowPayloads.AllPrintable(b.value.payloads)
    ensures r.Ok? ==> Added(file', sections', start, parts + ShardParts(shard.shardId, b.value))
    ensures r.Ok? ==> |file'| == |file| + ShardSize(spec, shard)
  {
    hide Added, BackingOf, RowPayloads.AllPrintable, RowPayloads.PrintPayloadSection, Joined, ShardSize, RowsFit;
    hide IndexPlan;
    file', sections', b := file, sections, None;
    var backing := BuildShardSnapshot(h, spec, shard);
    if backing.Err? {
      return Err(backing.code), file, sections, None;
    }
    BackingSizes(h, spec, shard, backing.get);
    var arena := RowPayloads.SerializeRowPayloads(backing.get.payloads);
    if arena.Err? {
      return Err(arena.code), file, sections, None;
    }
    var id := shard.shardId;
    var more := [
      Part(INDEX, id, backing.get.index), Part(ROW_SLOTS, id, backing.get.slots), Part(ROW_ARENA, id, arena.get),
      Part(103, id, [0]), Part(104, id, [0]), Part(105, id, [0]), Part(106, id, [0])];
    ShardJoined(h, spec, shard, backing.get);
    b := Some(backing.get);
    r, file', sections' := AddSections(file, sections, more, start, parts);
  }

  /** The shards' sections, in order. */
  method AddShards(
      h: HashFn, spec: BuildSpec, shards: seq<ShardSpec>, file: bytes, sections: seq<Section>,
      ghost start: nat, ghost parts: seq<Part>)
    returns (r: Result<()>, file': bytes, sections': seq<Section>, ghost backings: seq<OwnedBacking>)
    requires spec.layout.Some? && Added(file, sections, start, parts)
    ensures r.Ok? <==>
      (forall i :: 0 <= i < |shards| ==> ShardFits(spec, shards[i])) && |file| + ShardsSize(spec, shards) < TWO_63
    ensures r.Ok? ==> |backings| == |shards| && Added(file', sections', start, parts + AllShardParts(shards, backings))
    ensures r.Ok? ==> |file'| == |file| + ShardsSize(spec, shards)
    ensures r.Ok? ==> forall i :: 0 <= i < |shards| ==>
      BackingOf(h, spec, shards[i], backings[i]) && RowPayloads.AllPrintable(backings[i].payloads)
  {
    hide Added, BackingOf, RowPayloads.AllPrintable, Joined, ShardSize, ShardFits, ShardParts;
    file', sections', backings := file, sections, [];
    assert shards[..0] == [] && parts + AllShardParts([], []) == parts;
    AddedSize(file, sections, start, parts);
    for i := 0 to |shards|
      invariant |backings| == i && Added(file', sections', start, parts + AllShardParts(shards[..i], backings))
      invariant |file'| == |file| + ShardsSize(spec, shards[..i]) < TWO_63
      invariant forall k :: 0 <= k < i ==> ShardFits(spec, shards[k])
      invariant forall k :: 0 <= k < i ==>
        BackingOf(h, spec, shards[k], backings[k]) && RowPayloads.AllPrintable(backings[k].payloads)
    {
      PrefixSize(spec, shards, i);
      ghost var before, b := parts + AllShardParts(shards[..i], backings), None;
      r, file', sections', b := AddShard(h, spec, shards[i], file', sections', start, before);
      if r.Err? {
        return;
      }
      OneMoreShard(shards, backings, i, b.value);
      assert before + ShardParts(shards[i].shardId, b.value)
          == parts + (AllShardParts(shards[..i], backings) + ShardParts(shards[i].shardId, b.value));
      backings := backings + [b.value];
    }
    assert shards[..|shards|] == shards;
    r := Ok(());
  }

  lemma {:induction false} BackingSizes(h: HashFn, spec: BuildSpec, shard: ShardSpec, b: OwnedBacking)
    requires spec.layout.Some? && BackingOf(h, spec, shard, b)
    ensures b.payloads == PayloadsOf(shard.rows) && |b.slots| == |shard.rows| * spec.layout.value.rowSlotSize
    ensures b.layout == spec.layout.value && |b.index| >= 80
  {
    hide Serves, RowMap, IndexPlan;
  }

  lemma {:induction false} OneMoreShard(shards: seq<ShardSpec>, backings: seq<OwnedBacking>, i: nat, b: OwnedBacking)
    requires i < |shards| && |backings| == i
    ensures AllShardParts(shards[..i + 1], backings + [b])
         == AllShardParts(shards[..i], backings) + ShardParts(shards[i].shardId, b)
  {
    assert shards[..i + 1][..i] == shards[..i] && (backings + [b])[..i] == backings;
  }

  method WriteArtifactWithShards(h: HashFn, spec: BuildSpec, shards: seq<ShardSpec>)
    returns (r: Result<bytes>, ghost backings: seq<OwnedBacking>)
    ensures !SpecOk(spec, shards) ==> r == Err(InvalidArgument)
    ensures r.Ok? <==> CanWrite(spec, shards)
    ensures r.Ok? ==> WrittenFrom(h, spec, shards, backings, r.get)
  {
    hide Added, BackingOf, RowPayloads.AllPrintable, PutHeader, PutEntries, Joined, SectionOf, AllShardParts;
    hide ShardFits, ShardsSize;
    backings := [];
    var checked := CheckShards(spec, shards);
    if checked.Err? {
      r := Err(checked.code);
      return;
    }
    var n := SectionCount(spec, |shards|) % TWO_32;
    var start := FirstSize(n);
    var file, sections := Zeros(start), [];
    NothingAdded(start);
    var schema := ArtifactSchema.SerializeSchema(spec.layout.value);
    if schema.Err? {
      r := Err(schema.code);
      return;
    }
    var globals := [Part(SCHEMA, GLOBAL_SHARD, schema.get)];
    if spec.includeProgress {
      var progress := ArtifactSections.SerializeSourceProgress(spec.progress);
      if progress.Err? {
        r := Err(progress.code);
        return;
      }
      globals := globals + [Part(PROGRESS, GLOBAL_SHARD, progress.get)];
    }
    assert globals == GlobalParts(spec) && [] + globals == globals;
    GlobalsJoined(spec);
    var added;
    added, file, sections := AddSections(file, sections, globals, start, []);
    if added.Err? {
      r := Err(added.code);
      return;
    }
    added, file, sections, backings := AddShards(h, spec, shards, file, sections, start, globals);
    if added.Err? {
      r := Err(added.code);
      return;
    }
    ghost var parts := PartsOf(spec, shards, backings);
    AddedSize(file, sections, start, parts);
    assert |file| == FileSize(spec, shards);
    if |sections| != n {
      r := Err(Internal);
      return;
    }
    FileHoldsHeader(spec, shards);
    AllAdded(file, sections, start, parts);
    r := PatchHeader(file, HeaderOf(spec, n));
    r := PatchDirectory(r.get, sections);
  }

  lemma {:induction false} GlobalsJoined(spec: BuildSpec)
    requires spec.layout.Some?
    ensures |Joined(GlobalParts(spec))| == GlobalSize(spec)
  {
    hide Joined, ArtifactSchema.PrintSchema, ArtifactSections.PrintProgressSection;
    var schema := Part(SCHEMA, GLOBAL_SHARD, ArtifactSchema.PrintSchema(spec.layout.value));
    JoinedNone();
    JoinedOne([], schema);
    assert [] + [schema] == [schema];
    if spec.includeProgress {
      JoinedOne([schema], Part(PROGRESS, GLOBAL_SHARD, ArtifactSections.PrintProgressSection(spec.progress)));
    } else {
      assert GlobalParts(spec) == [schema];
    }
  }

  /** Even a first size that wraps to zero leaves room for the header: by then there are millions of pools. */
  lemma {:induction false} FileHoldsHeader(spec: BuildSpec, shards: seq<ShardSpec>)
    requires spec.layout.Some? && SectionCount(spec, |shards|) < TWO_32
    ensures HEADER_SIZE <= FileSize(spec, shards)
  {
    hide ShardsSize, ArtifactSchema.PrintSchema, ArtifactSections.PrintProgressSection;
    ShardsFill(spec, shards);
  }

  lemma {:induction false} NothingAdded(start: nat)
    requires start < TWO_63
    ensures Added(Zeros(start), [], start, [])
  {
    assert Zeros(start) + [] == Zeros(start);
    assert SectionsOf([], start) == [];
  }

  lemma {:induction false} AllAdded(file: bytes, sections: seq<Section>, start: nat, parts: seq<Part>)
    requires Added(file, sections, start, parts)
    ensures sections == SectionsOf(parts, start) && file == Zeros(start) + Joined(parts)
  {
  }

  // ---- Wrapping ----------------------------------------------------------------------------------

  /** While the first size has not wrapped, the file is header, directory and payloads. */
  lemma {:induction false} WrittenPlainly(
      h: HashFn, spec: BuildSpec, shards: seq<ShardSpec>, backings: seq<OwnedBacking>, file: bytes)
    requires WrittenFrom(h, spec, shards, backings, file) && DirectoryEnd(SectionCount(spec, |shards|)) < TWO_32
    ensures var parts := PartsOf(spec, shards, backings);
      && DirectoryEnd(|parts|) + |Joined(parts)| < TWO_63
      && file == FileOf(HeaderOf(spec, |parts|), parts)
  {
    hide BackingOf, RowPayloads.AllPrintable, Joined, SectionsOf, PartsOf, PrintHeader, PrintDirectory, FileOver;
    hide FileSize;
    hide SchemaFits, ProgressFits;
    var parts := PartsOf(spec, shards, backings);
    OverZeros(HeaderOf(spec, |parts|), SectionsOf(parts, DirectoryEnd(|parts|)), Joined(parts));
  }

  /** The first count at which the size wraps, to zero. */
  const WRAPPING_SHARDS: nat := 9_586_980

  /** A row of empty fields, with a hundred bytes of arena. */
  function WideRow(l: RowLayout): EncodedRow {
    EncodedRow(l.schemaVersion, l.fingerprint, Zeros(l.rowSlotSize), Zeros(100), [], [], [], [])
  }

  function WrappingShards(l: RowLayout): (r: seq<ShardSpec>)
    ensures |r| == WRAPPING_SHARDS
  {
    seq(WRAPPING_SHARDS, i requires 0 <= i < WRAPPING_SHARDS => ShardSpec(i, [SnapshotRow(0, WideRow(l))]))
  }

  function WrappingSpec(l: RowLayout): BuildSpec {
    BuildSpec(Some(l), [], WRAPPING_SHARDS, 0, 0, true, [])
  }

  /** The writer takes them: the payloads leave room to write the directory over. */
  lemma {:induction false} WrappingWriteSucceeds(l: RowLayout)
    requires SchemaFits(l) && l.rowSlotSize < TWO_32 && |ArtifactSchema.PrintSchema(l)| < TWO_32
    ensures DirectoryEnd(SectionCount(WrappingSpec(l), |WrappingShards(l)|)) == TWO_32
    ensures FirstSize(SectionCount(WrappingSpec(l), |WrappingShards(l)|)) == 0
    ensures CanWrite(WrappingSpec(l), WrappingShards(l))
  {
    hide SchemaFits, ArtifactSchema.PrintSchema, ShardFits, ShardsSize, ShardSize, WideRow;
    var spec, shards := WrappingSpec(l), WrappingShards(l);
    WideShard(l);
    UniformSize(spec, shards, ShardSize(spec, ShardSpec(0, [SnapshotRow(0, WideRow(l))])));
    WrappingSize(ShardSize(spec, ShardSpec(0, [SnapshotRow(0, WideRow(l))])));
    NoProgressBytes();
  }

  lemma {:induction false} NoProgressBytes()
    ensures |ArtifactSections.PrintProgressSection([])| == 4
  {
  }

  lemma {:induction false} WrappingSize(size: nat)
    requires 480 <= size < 0x2_0000_0000
    ensures TWO_32 <= WRAPPING_SHARDS * size < 0x1000_0000_0000_0000
  {
  }

  lemma {:induction false} UniformSize(spec: BuildSpec, shards: seq<ShardSpec>, size: nat)
    requires spec.layout.Some? && forall i :: 0 <= i < |shards| ==> ShardSize(spec, shards[i]) == size
    ensures ShardsSize(spec, shards) == |shards| * size
    decreases |shards|
  {
    hide ShardSize;
    if shards != [] {
      UniformSize(spec, shards[..|shards| - 1], size);
      assert |shards| * size == (|shards| - 1) * size + size;
    }
  }

  lemma {:induction false} WideShard(l: RowLayout)
    requires l.rowSlotSize < TWO_32
    ensures forall id: u32 :: ShardFits(WrappingSpec(l), ShardSpec(id, [SnapshotRow(0, WideRow(l))]))
    ensures forall id: u32 :: (ShardSize(WrappingSpec(l), ShardSpec(id, [SnapshotRow(0, WideRow(l))]))
      == ShardSize(WrappingSpec(l), ShardSpec(0, [SnapshotRow(0, WideRow(l))])))
    ensures 480 <= ShardSize(WrappingSpec(l), ShardSpec(0, [SnapshotRow(0, WideRow(l))])) < 0x2_0000_0000
  {
    hide FrozenIndex.PlanMetadata, RowPayloads.AllPrintable, RowPayloads.PrintPayloadSection;
    var rows := [SnapshotRow(0, WideRow(l))];
    assert PayloadsOf(rows) == [PayloadOf(WideRow(l))];
    SmallPlan();
    WidePayload();
  }

  lemma {:induction false} SmallPlan()
    ensures var plan := FrozenIndex.PlanMetadata(1, FrozenIndex.BuildOptions(0, 0, 16));
      plan.Ok? && plan.get.totalSize == 368
  {
    hide FrozenIndex.GrowCapacity;
    SmallCapacity();
  }

  lemma {:induction false} SmallCapacity()
    ensures FrozenIndex.CapacityFor(1, 16) == Ok(16)
  {
  }

  lemma {:induction false} WidePayload()
    ensures RowPayloads.AllPrintable([RowPayload(Zeros(100), [], [], [], [])])
    ensures 108 <= |RowPayloads.PrintPayloadSection([RowPayload(Zeros(100), [], [], [], [])])| < 0x1000
  {
    hide LE;
    PowersOf256();
    var p := RowPayload(Zeros(100), [], [], [], []);
    assert [p][1..] == [];
    assert RowPayloads.PrintPayloads([p]) == RowPayloads.PrintPayload(p) + RowPayloads.PrintPayloads([]);
    assert 100 <= |RowPayloads.PrintPayload(p)| < 0x800;
  }
}
