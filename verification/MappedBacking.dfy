/**
 * MmapSnapshotBacking, src/artifact/mmap_snapshot_backing.cc, on a mapped file's bytes, and the theorem that a written
 * file serves the rows of the snapshot it was written from.
 */
module MappedBacking {
  import opened Basics
  import opened ByteIO
  import opened Schema
  import opened RowStorage
  import opened SectionDirectory
  import opened ArtifactFormat
  import opened ArtifactFile
  import opened ArtifactWriter
  import opened Snapshot
  import FrozenIndex
  import SectionCodec
  import ArtifactSchema
  import ArtifactSections
  import RowPayloads

  datatype Mapped = Mapped(layout: RowLayout, index: bytes, slots: bytes, payloads: bytes) {
    /** MmapSnapshotBacking::EncodedRowAt. */
    function EncodedRowAt(offset: u64): Result<EncodedRow> {
      var size := layout.rowSlotSize;
      if size == 0 then Err(InvalidArgument)
      else if offset > |slots| then Err(InvalidArgument)
      else if |slots| - offset < size then Err(InvalidArgument)
      else if offset % size != 0 then Err(InvalidArgument)
      else
        var payload :- RowPayloads.PayloadAt(payloads, offset / size);
        Ok(RowOf(layout, slots[offset..offset + size], payload))
    }

    function AsBacking(): Backing {
      Backing(layout, index, EncodedRowAt)
    }
  }

  function ShardSection(a: Artifact, kind: u32, shardId: u32): Result<bytes>
    requires forall i :: 0 <= i < |a.sections| ==> End(a.sections[i]) <= |a.file|
  {
    match FindSection(a.sections, kind, shardId)
    case None => Err(InvalidArgument)
    case Some(e) => Ok(SectionBytes(a.file, e))
  }

  predicate HasPools(sections: seq<Section>, shardId: u32) {
    forall kind: u32 :: 103 <= kind <= 106 ==> FindSection(sections, kind, shardId).Some?
  }

  /** LoadShard once the file is mapped and parsed. */
  function ShardOf(a: Artifact, shardId: u32): Result<Mapped>
    requires forall i :: 0 <= i < |a.sections| ==> End(a.sections[i]) <= |a.file|
  {
    if shardId >= a.header.shardCount then Err(InvalidArgument)
    else
      var index :- ShardSection(a, INDEX, shardId);
      var slots :- ShardSection(a, ROW_SLOTS, shardId);
      var arena :- ShardSection(a, ROW_ARENA, shardId);
      var size := a.layout.rowSlotSize;
      if size == 0 || |slots| % size != 0 then Err(InvalidArgument)
      else
        var counted :- RowPayloads.PayloadRowCountOk(arena, |slots| / size);
        if !HasPools(a.sections, shardId) then Err(InvalidArgument)
        else Ok(Mapped(a.layout, index, slots, arena))
  }

  method LoadShard(file: bytes, shardId: u32, x: Expectations) returns (r: Result<Mapped>)
    ensures r.Ok? ==>
      Parses(file, x) && ReadHeader(file, x).Ok? && DirectoryEnd(ReadHeader(file, x).get.sectionCount) <= TWO_32
    ensures Parses(file, x) ==> r == ShardOf(ArtifactOf(file, x), shardId) || r == Err(InvalidArgument)
    ensures AlwaysParses(file, x) ==> r == ShardOf(ArtifactOf(file, x), shardId)
  {
    hide Parses, ArtifactOf, NoEmptyTie, NonOverlapping, ReadHeader, Verdict, SortsFile, DirectoryOk, ParseContents;
    hide Entries, ShardOf;
    var parsed := ParseArtifact(file, x);
    if parsed.Err? {
      return Err(parsed.code);
    }
    ParsedHeader(file, x);
    r := ShardOf(parsed.get, shardId);
  }

  // ---- Rows --------------------------------------------------------------------------------------

  /** At every offset, valid or not, the mapped backing returns what the owned one does. */
  lemma {:induction false} MappedRowIsOwnedRow(m: Mapped, b: OwnedBacking, offset: u64)
    requires m.layout == b.layout && m.slots == b.slots && m.payloads == RowPayloads.PrintPayloadSection(b.payloads)
    requires RowPayloads.AllPrintable(b.payloads)
    ensures m.EncodedRowAt(offset) == b.EncodedRowAt(offset)
  {
    hide RowPayloads.PayloadAt, RowPayloads.PrintPayloadSection, RowPayloads.AllPrintable;
    if b.layout.rowSlotSize > 0 {
      RowPayloads.PayloadReadsBack(b.payloads, offset / b.layout.rowSlotSize);
    }
  }

  /** The same index and rows, so the same reads. */
  lemma {:induction false} SameRowsSameReads(h: HashFn, a: Backing, b: Backing, key: u64)
    requires a.layout == b.layout && a.index == b.index && forall offset: u64 :: a.rowAt(offset) == b.rowAt(offset)
    ensures LookupRow(h, a, key) == LookupRow(h, b, key) && SnapshotGet(h, a, key) == SnapshotGet(h, b, key)
  {
    hide Locate, MaterializeRow;
  }

  // ---- The parts of a written file ---------------------------------------------------------------

  lemma {:induction false} ShardPartAt(shards: seq<ShardSpec>, backings: seq<OwnedBacking>, k: nat, j: nat)
    requires |shards| == |backings| && k < |shards| && j < 7
    ensures AllShardParts(shards, backings)[7 * k + j] == ShardParts(shards[k].shardId, backings[k])[j]
    decreases |shards|
  {
    hide ShardParts;
    var n := |shards| - 1;
    if k < n {
      ShardPartAt(shards[..n], backings[..n], k, j);
    }
  }

  /** Part i is a global one, or the j-th of some shard's seven. */
  lemma {:induction false} PartAt(
      spec: BuildSpec, shards: seq<ShardSpec>, backings: seq<OwnedBacking>, i: nat)
    returns (k: nat, j: nat)
    requires spec.layout.Some? && |shards| == |backings| && i < SectionCount(spec, |shards|)
    ensures i < |GlobalParts(spec)| ==> PartsOf(spec, shards, backings)[i] == GlobalParts(spec)[i]
    ensures i >= |GlobalParts(spec)| ==>
      && k < |shards| && j < 7 && i == |GlobalParts(spec)| + 7 * k + j
      && PartsOf(spec, shards, backings)[i] == ShardParts(shards[k].shardId, backings[k])[j]
  {
    hide ShardParts, AllShardParts, ArtifactSchema.PrintSchema, ArtifactSections.PrintProgressSection;
    k, j := 0, 0;
    var g := |GlobalParts(spec)|;
    if i >= g {
      k, j := (i - g) / 7, (i - g) % 7;
      ShardPartAt(shards, backings, k, j);
    }
  }

  lemma {:induction false} ShardPartKinds(shardId: u32, b: OwnedBacking, j: nat)
    requires j < 7
    ensures ShardParts(shardId, b)[j].kind == INDEX + j && ShardParts(shardId, b)[j].shardId == shardId
  {
  }

  /** Of a layout with a slot, only the slots of a shard without rows are an empty section. */
  lemma {:induction false} ShardPartEmpty(h: HashFn, spec: BuildSpec, shard: ShardSpec, b: OwnedBacking, j: nat)
    requires spec.layout.Some? && BackingOf(h, spec, shard, b) && j < 7
    ensures ShardParts(shard.shardId, b)[j].payload == [] <==>
      j == 1 && (shard.rows == [] || spec.layout.value.rowSlotSize == 0)
  {
    hide Serves, RowMap, RowPayloads.PrintPayloads, FrozenIndex.Accepts;
    BackingSizes(h, spec, shard, b);
    if shard.rows != [] {
      MulMono(1, |shard.rows|, spec.layout.value.rowSlotSize);
    }
    assert |RowPayloads.PrintPayloadSection(b.payloads)| >= 8;
  }

  lemma {:induction false} PartIsKnown(spec: BuildSpec, shards: seq<ShardSpec>, backings: seq<OwnedBacking>, i: nat)
    requires SpecOk(spec, shards) && |shards| == |backings| && i < SectionCount(spec, |shards|)
    ensures var p := PartsOf(spec, shards, backings)[i];
      KnownKind(p.kind) && (p.shardId == GLOBAL_SHARD || p.shardId < spec.shardCount)
  {
    hide ShardParts, AllShardParts, ArtifactSchema.PrintSchema, ArtifactSections.PrintProgressSection;
    var k, j := PartAt(spec, shards, backings, i);
    if i >= |GlobalParts(spec)| {
      ShardPartKinds(shards[k].shardId, backings[k], j);
    }
  }

  lemma {:induction false} PartsDiffer(
      spec: BuildSpec, shards: seq<ShardSpec>, backings: seq<OwnedBacking>, i: nat, j: nat)
    requires SpecOk(spec, shards) && |shards| == |backings| && i < j < SectionCount(spec, |shards|)
    ensures var parts := PartsOf(spec, shards, backings);
      (parts[i].kind, parts[i].shardId) != (parts[j].kind, parts[j].shardId)
  {
    hide ShardParts, AllShardParts, ArtifactSchema.PrintSchema, ArtifactSections.PrintProgressSection;
    var a, x := PartAt(spec, shards, backings, i);
    var b, y := PartAt(spec, shards, backings, j);
    if i >= |GlobalParts(spec)| {
      ShardPartKinds(shards[a].shardId, backings[a], x);
    }
    if j >= |GlobalParts(spec)| {
      ShardPartKinds(shards[b].shardId, backings[b], y);
    }
  }

  lemma {:induction false} PartsAreGood(spec: BuildSpec, shards: seq<ShardSpec>, backings: seq<OwnedBacking>)
    requires SpecOk(spec, shards) && |shards| == |backings|
    ensures GoodParts(PartsOf(spec, shards, backings), spec.shardCount)
  {
    hide PartsOf, KnownKind;
    forall i | 0 <= i < SectionCount(spec, |shards|)
      ensures var p := PartsOf(spec, shards, backings)[i];
        KnownKind(p.kind) && (p.shardId == GLOBAL_SHARD || p.shardId < spec.shardCount)
    {
      PartIsKnown(spec, shards, backings, i);
    }
    forall i, j | 0 <= i < j < SectionCount(spec, |shards|)
      ensures var parts := PartsOf(spec, shards, backings);
        (parts[i].kind, parts[i].shardId) != (parts[j].kind, parts[j].shardId)
    {
      PartsDiffer(spec, shards, backings, i, j);
    }
  }

  predicate AllHaveRows(shards: seq<ShardSpec>) {
    forall i :: 0 <= i < |shards| ==> shards[i].rows != []
  }

  /** Empty and non-empty sections tie exactly if some shard has empty slots. */
  lemma {:induction false} TiesOfShards(
      h: HashFn, spec: BuildSpec, shards: seq<ShardSpec>, backings: seq<OwnedBacking>, start: nat)
    requires SpecOk(spec, shards) && |shards| == |backings|
    requires forall i :: 0 <= i < |shards| ==> BackingOf(h, spec, shards[i], backings[i])
    requires start + |Joined(PartsOf(spec, shards, backings))| < TWO_64
    ensures NoEmptyTie(SectionsOf(PartsOf(spec, shards, backings), start)) <==>
      spec.layout.value.rowSlotSize > 0 && AllHaveRows(shards)
  {
    hide PartsOf, BackingOf, NoEmptyTie, SectionsOf, ShardParts, Joined, GlobalParts;
    var parts := PartsOf(spec, shards, backings);
    TiesOfParts(parts, start);
    if spec.layout.value.rowSlotSize > 0 && AllHaveRows(shards) {
      forall i | 0 <= i < |parts|
        ensures parts[i].payload != []
      {
        var k, j := PartAt(spec, shards, backings, i);
        if i < |GlobalParts(spec)| {
          GlobalPartFull(spec, i);
        } else {
          ShardPartEmpty(h, spec, shards[k], backings[k], j);
        }
      }
    } else {
      var k := if spec.layout.value.rowSlotSize == 0 then 0 else var k :| 0 <= k < |shards| && shards[k].rows == []; k;
      var i := |GlobalParts(spec)| + 7 * k + 1;
      ShardPartHere(spec, shards, backings, k, 1);
      ShardPartHere(spec, shards, backings, k, 2);
      ShardPartEmpty(h, spec, shards[k], backings[k], 1);
      ShardPartEmpty(h, spec, shards[k], backings[k], 2);
      assert parts[i].payload == [] && parts[i + 1].payload != [];
    }
  }

  lemma {:induction false} GlobalPartFull(spec: BuildSpec, i: nat)
    requires spec.layout.Some? && i < |GlobalParts(spec)|
    ensures GlobalParts(spec)[i].payload != []
  {
    assert |ArtifactSchema.PrintSchema(spec.layout.value)| >= 8
      && |ArtifactSections.PrintProgressSection(spec.progress)| >= 4;
  }

  lemma {:induction false} ShardPartHere(
      spec: BuildSpec, shards: seq<ShardSpec>, backings: seq<OwnedBacking>, k: nat, j: nat)
    requires spec.layout.Some? && |shards| == |backings| && k < |shards| && j < 7
    ensures |GlobalParts(spec)| + 7 * k + j < SectionCount(spec, |shards|)
    ensures PartsOf(spec, shards, backings)[|GlobalParts(spec)| + 7 * k + j]
      == ShardParts(shards[k].shardId, backings[k])[j]
  {
    hide ShardParts, AllShardParts, ArtifactSchema.PrintSchema, ArtifactSections.PrintProgressSection;
    ShardPartAt(shards, backings, k, j);
  }

  // ---- The directory of a written file -----------------------------------------------------------

  predicate HeaderExpected(spec: BuildSpec, x: Expectations) {
    && (x.shardCount == 0 || x.shardCount == spec.shardCount)
    && (x.hashVersion == 0 || x.hashVersion == spec.hashVersion)
    && x.hashSeed == spec.hashSeed
  }

  /** Header and directory pass the parser, for some sort and for every sort. */
  ghost predicate DirectoryCanPass(file: bytes, x: Expectations) {
    && ReadHeader(file, x).Ok? && DirectoryOk(file, ReadHeader(file, x).get)
    && CanPass(Entries(file, ReadHeader(file, x).get.sectionCount), DirectoryEnd(ReadHeader(file, x).get.sectionCount))
  }

  ghost predicate DirectoryAlwaysPasses(file: bytes, x: Expectations) {
    && ReadHeader(file, x).Ok? && DirectoryOk(file, ReadHeader(file, x).get)
    && AlwaysPasses(Entries(file, ReadHeader(file, x).get.sectionCount),
                    DirectoryEnd(ReadHeader(file, x).get.sectionCount))
  }

  lemma {:induction false} PlainDirectory(
      h: HashFn, spec: BuildSpec, shards: seq<ShardSpec>, backings: seq<OwnedBacking>, file: bytes, x: Expectations)
    requires WrittenFrom(h, spec, shards, backings, file) && HeaderExpected(spec, x)
    requires DirectoryEnd(SectionCount(spec, |shards|)) < TWO_32
    ensures ReadHeader(file, x) == Ok(HeaderOf(spec, SectionCount(spec, |shards|)))
    ensures DirectoryOk(file, HeaderOf(spec, SectionCount(spec, |shards|)))
    ensures var n := SectionCount(spec, |shards|);
      var sections := Entries(file, n);
      && DistinctSections(sections) && NonOverlapping(sections, DirectoryEnd(n))
      && (NoEmptyTie(sections) <==> spec.layout.value.rowSlotSize > 0 && AllHaveRows(shards))
  {
    hide PartsOf, BackingOf, NoEmptyTie, SectionsOf, Joined, GlobalParts, NonOverlapping, DirectoryOk, FileOf;
    hide FileOver, FileSize;
    hide PrintHeader, StartsWithHeader, DistinctSections, Entries, GoodParts, RowPayloads.AllPrintable, SchemaFits;
    hide ProgressFits;
    var parts := PartsOf(spec, shards, backings);
    var header := HeaderOf(spec, |parts|);
    WrittenPlainly(h, spec, shards, backings, file);
    PartsAreGood(spec, shards, backings);
    WrittenDirectoryOk(header, parts);
    DirectoryReadsBack(header, parts);
    PrintedHeaderStarts(file, header);
    HeaderReadsBack(file, header, x);
    TiesOfShards(h, spec, shards, backings, DirectoryEnd(|parts|));
  }

  lemma {:induction false} WrittenBytes(
      h: HashFn, spec: BuildSpec, shards: seq<ShardSpec>, backings: seq<OwnedBacking>, file: bytes)
    returns (start: nat, parts: seq<Part>)
    requires WrittenFrom(h, spec, shards, backings, file)
    ensures SpecOk(spec, shards) && parts != [] && |parts| == SectionCount(spec, |shards|) < TWO_32
    ensures start == FirstSize(|parts|) && start + |Joined(parts)| < TWO_64
    ensures HEADER_SIZE <= start + |Joined(parts)| && RoomFor(|parts|, start + |Joined(parts)|)
    ensures file == FileOver(HeaderOf(spec, |parts|), SectionsOf(parts, start), Zeros(start) + Joined(parts))
  {
    hide BackingOf, RowPayloads.AllPrintable, SchemaFits, ProgressFits, FileOver, FileSize, PartsOf, Joined, SectionsOf;
    parts := PartsOf(spec, shards, backings);
    start := FirstSize(|parts|);
  }

  lemma {:induction false} WrappedHeader(
      h: HashFn, spec: BuildSpec, shards: seq<ShardSpec>, backings: seq<OwnedBacking>, file: bytes, x: Expectations)
    requires WrittenFrom(h, spec, shards, backings, file) && HeaderExpected(spec, x)
    ensures SectionCount(spec, |shards|) < TWO_32
      && ReadHeader(file, x) == Ok(HeaderOf(spec, SectionCount(spec, |shards|)))
    ensures DirectoryEnd(SectionCount(spec, |shards|)) == TWO_32 <= |file| ==> EntryAt(file, HEADER_SIZE).offset == 0
  {
    hide WrittenFrom, FileOver, StartsWithHeader, ReadHeader, EntryAt, SectionsOf, Joined;
    var start, parts := WrittenBytes(h, spec, shards, backings, file);
    OverReadsBack(HeaderOf(spec, |parts|), SectionsOf(parts, start), Zeros(start) + Joined(parts), 0);
    HeaderReadsBack(file, HeaderOf(spec, |parts|), x);
    FirstOffset(parts, start);
  }

  lemma {:induction false} FirstOffset(parts: seq<Part>, start: nat)
    requires parts != [] && start + |Joined(parts)| < TWO_64
    ensures SectionsOf(parts, start)[0].offset == start
  {
    assert parts[..0] == [];
  }

  /**
   * The writer's first size has 32 bits. A file that it writes passes the parser's checks of header and directory, for
   * some sort, exactly while that size has not wrapped around; for every sort, exactly if also no shard's slots are
   * empty. After a wrap the first section lies before the directory's end, or an entry is read from the wrong place.
   */
  lemma {:induction false} WrittenPassesExactly(
      h: HashFn, spec: BuildSpec, shards: seq<ShardSpec>, backings: seq<OwnedBacking>, file: bytes, x: Expectations)
    requires WrittenFrom(h, spec, shards, backings, file) && HeaderExpected(spec, x)
    ensures DirectoryCanPass(file, x) <==> DirectoryEnd(SectionCount(spec, |shards|)) < TWO_32
    ensures DirectoryAlwaysPasses(file, x) <==>
      DirectoryEnd(SectionCount(spec, |shards|)) < TWO_32 && spec.layout.value.rowSlotSize > 0 && AllHaveRows(shards)
  {
    hide WrittenFrom, ReadHeader, NonOverlapping, NoEmptyTie, CanPass, AlwaysPasses, AllHaveRows, HeaderExpected;
    hide Entries, EntryAt;
    hide ChecksumsMatch, EntriesOk;
    var n := SectionCount(spec, |shards|);
    WrittenSpec(h, spec, shards, backings, file);
    WrappedHeader(h, spec, shards, backings, file, x);
    if DirectoryEnd(n) < TWO_32 {
      PlainDirectory(h, spec, shards, backings, file, x);
      SortDecidesOnlyTies(Entries(file, n), DirectoryEnd(n));
    } else if DirectoryOk(file, HeaderOf(spec, n)) {
      var sections := Entries(file, n);
      NoEntryWraps(file, HeaderOf(spec, n), x);
      EntriesEnd(sections, spec.shardCount, |file|);
      SortDecidesOnlyTies(sections, DirectoryEnd(n));
      assert sections[0] == EntryAt(file, HEADER_SIZE + 0 * ENTRY_SIZE);
      StartsBefore(sections, DirectoryEnd(n));
    }
  }

  /** The first wrap: 9,586,980 shards and a progress section. The file is written, and no sort lets it parse. */
  lemma {:induction false} WrappedFileIsRefused(
      h: HashFn, l: RowLayout, backings: seq<OwnedBacking>, file: bytes, x: Expectations)
    requires SchemaFits(l) && l.rowSlotSize < TWO_32 && |ArtifactSchema.PrintSchema(l)| < TWO_32
    ensures CanWrite(WrappingSpec(l), WrappingShards(l))
    ensures WrittenFrom(h, WrappingSpec(l), WrappingShards(l), backings, file) && HeaderExpected(WrappingSpec(l), x) ==>
      !DirectoryCanPass(file, x) && !Parses(file, x)
  {
    hide WrittenFrom, CanWrite, ReadHeader, SchemaFits, ArtifactSchema.PrintSchema, Entries, NonOverlapping;
    hide ParseContents, CanPass;
    hide DirectoryOk, WrappingShards;
    WrappingWriteSucceeds(l);
    if WrittenFrom(h, WrappingSpec(l), WrappingShards(l), backings, file) && HeaderExpected(WrappingSpec(l), x) {
      WrittenPassesExactly(h, WrappingSpec(l), WrappingShards(l), backings, file, x);
      ParsedHeader(file, x);
      if Parses(file, x) {
        var n := ReadHeader(file, x).get.sectionCount;
        SortDecidesOnlyTies(Entries(file, n), DirectoryEnd(n));
        assert false;
      }
    }
  }

  lemma {:induction false} StartsBefore(sections: seq<Section>, start: nat)
    requires sections != [] && sections[0].offset < start
    ensures !NonOverlapping(sections, start)
  {
  }

  lemma {:induction false} WrittenLayout(
      h: HashFn, spec: BuildSpec, shards: seq<ShardSpec>, backings: seq<OwnedBacking>, file: bytes)
    requires WrittenFrom(h, spec, shards, backings, file)
    ensures spec.layout.Some? && |shards| == |backings|
  {
  }

  lemma {:induction false} WrittenSpec(
      h: HashFn, spec: BuildSpec, shards: seq<ShardSpec>, backings: seq<OwnedBacking>, file: bytes)
    requires WrittenFrom(h, spec, shards, backings, file)
    ensures SpecOk(spec, shards) && |shards| == |backings|
    ensures forall i :: 0 <= i < |shards| ==>
      BackingOf(h, spec, shards[i], backings[i]) && RowPayloads.AllPrintable(backings[i].payloads)
  {
  }

  // ---- The theorem -------------------------------------------------------------------------------

  predicate Expected(spec: BuildSpec, x: Expectations) {
    HeaderExpected(spec, x) && (spec.includeProgress || x.progressOptional)
  }

  /** The layout was compiled from these fields, whose sizes fit. */
  ghost predicate CompiledFrom(l: RowLayout, active: seq<FieldSpec>) {
    && ValidFields(active) && |active| < TWO_32 && l == CompileLayout(l.schemaVersion, active)
    && forall i :: 0 <= i < |active| ==> ArtifactSchema.SpecFits(active[i])
  }

  function ProgressOf(spec: BuildSpec): seq<ArtifactSections.SourceProgress> {
    if spec.includeProgress then spec.progress else []
  }

  /** What the parser should make of a written file. */
  function WrittenArtifact(spec: BuildSpec, n: u32, file: bytes): Artifact
    requires spec.layout.Some? && DirectoryEnd(n) <= |file|
  {
    Artifact(HeaderOf(spec, n), spec.layout.value, ProgressOf(spec), Entries(file, n), file)
  }

  /** The parts of a file whose first size has not wrapped, where the parser looks for them. */
  lemma {:induction false} PlainParts(
      h: HashFn, spec: BuildSpec, shards: seq<ShardSpec>, backings: seq<OwnedBacking>, file: bytes, i: nat)
    requires WrittenFrom(h, spec, shards, backings, file) && DirectoryEnd(SectionCount(spec, |shards|)) < TWO_32
    requires i < SectionCount(spec, |shards|)
    ensures var n := SectionCount(spec, |shards|);
      && DirectoryEnd(n) <= |file|
      && var p := PartsOf(spec, shards, backings)[i];
         var found := FindSection(Entries(file, n), p.kind, p.shardId);
         found.Some? && End(found.value) <= |file| && SectionBytes(file, found.value) == p.payload
    ensures !spec.includeProgress ==>
      FindSection(Entries(file, SectionCount(spec, |shards|)), PROGRESS, GLOBAL_SHARD).None?
  {
    hide PartsOf, BackingOf, Joined, FileOf, FileOver, Entries, GoodParts, FindSection, SectionBytes;
    hide RowPayloads.AllPrintable, SchemaFits, ProgressFits, FileSize;
    var parts := PartsOf(spec, shards, backings);
    WrittenPlainly(h, spec, shards, backings, file);
    PartsAreGood(spec, shards, backings);
    PartIsFound(HeaderOf(spec, |parts|), parts, i);
    if !spec.includeProgress {
      NoProgressPart(spec, shards, backings);
      PartIsMissing(HeaderOf(spec, |parts|), parts, PROGRESS, GLOBAL_SHARD);
    }
  }

  /** The global sections give back the layout and the progress exactly if each of them reads back. */
  lemma {:induction false} ContentsReadBack(
      h: HashFn, spec: BuildSpec, shards: seq<ShardSpec>, backings: seq<OwnedBacking>, file: bytes, x: Expectations)
    requires WrittenFrom(h, spec, shards, backings, file) && Expected(spec, x)
    requires DirectoryEnd(SectionCount(spec, |shards|)) < TWO_32
    ensures var n := SectionCount(spec, |shards|);
      && n < TWO_32 && DirectoryEnd(n) <= |file|
      && var sections := Entries(file, n);
         && (forall i :: 0 <= i < |sections| ==> End(sections[i]) <= |file|)
         && (ParseContents(file, HeaderOf(spec, n), sections, x) == Ok(WrittenArtifact(spec, n, file)) <==>
               var l := spec.layout.value;
               && ArtifactSchema.ParseSchema(ArtifactSchema.PrintSchema(l), l.schemaVersion, l.fingerprint) == Ok(l)
               && (spec.includeProgress ==>
                     ArtifactSections.ParseProgress(ArtifactSections.PrintProgressSection(spec.progress))
                       == Ok(spec.progress)))
  {
    hide WrittenFrom, FindSection, SectionBytes, Entries, DirectoryOk, ReadHeader, AllShardParts, NonOverlapping;
    hide NoEmptyTie;
    hide ArtifactSchema.PrintSchema, ArtifactSchema.ParseSchema, ArtifactSections.ParseProgress;
    hide ArtifactSections.PrintProgressSection;
    var n := SectionCount(spec, |shards|);
    WrittenSpec(h, spec, shards, backings, file);
    WrittenHeader(h, spec, shards, backings, file, x);
    SectionsInBounds(file, HeaderOf(spec, n));
    PlainParts(h, spec, shards, backings, file, 0);
    PlainParts(h, spec, shards, backings, file, 1);
  }

  lemma {:induction false} SectionsInBounds(file: bytes, h: Header)
    requires DirectoryOk(file, h)
    ensures forall i :: 0 <= i < h.sectionCount ==> End(Entries(file, h.sectionCount)[i]) <= |file|
  {
    EntriesEnd(Entries(file, h.sectionCount), h.shardCount, |file|);
  }

  /**
   * When a written file can be read back. Some sort lets it parse with its own layout and progress if and only if the
   * first size has not wrapped, no field has a default value, and the progress is valid; every sort does if and only
   * if, besides, the layout has a slot and every shard a row.
   */
  lemma {:induction false} WrittenReadsBackExactly(
      h: HashFn, spec: BuildSpec, shards: seq<ShardSpec>, backings: seq<OwnedBacking>, file: bytes, x: Expectations,
      active: seq<FieldSpec>)
    requires WrittenFrom(h, spec, shards, backings, file) && Expected(spec, x)
      && CompiledFrom(spec.layout.value, active)
    ensures ReadsBack(file, spec, x) <==> Readable(spec, shards, active)
    ensures ReadsBack(file, spec, x) && AlwaysParses(file, x) <==>
      Readable(spec, shards, active) && spec.layout.value.rowSlotSize > 0 && AllHaveRows(shards)
  {
    hide WrittenFrom, ReadHeader, NonOverlapping, NoEmptyTie, AllHaveRows, HeaderExpected, Entries, CanPass;
    hide AlwaysPasses;
    hide ParseContents, ValidFields, CompileLayout, ArtifactSchema.ParseSchema, ArtifactSchema.PrintSchema;
    hide ArtifactSchema.SpecFits;
    hide ArtifactSections.ParseProgress, ArtifactSections.PrintProgressSection, ArtifactSections.GoodEntries;
    hide ArtifactSchema.NoDefaults;
    hide ChecksumsMatch, EntriesOk;
    var n := SectionCount(spec, |shards|);
    WrittenSpec(h, spec, shards, backings, file);
    WrittenPassesExactly(h, spec, shards, backings, file, x);
    WrittenHeader(h, spec, shards, backings, file, x);
    if DirectoryEnd(n) < TWO_32 {
      PlainDirectory(h, spec, shards, backings, file, x);
      ContentsReadBack(h, spec, shards, backings, file, x);
      ArtifactSchema.SchemaReadsBackExactly(spec.layout.value.schemaVersion, active);
      if spec.includeProgress {
        ArtifactSections.ProgressReadsBackExactly(spec.progress);
      }
    } else if Parses(file, x) {
      ParsedHeader(file, x);
      SortDecidesOnlyTies(Entries(file, n), DirectoryEnd(n));
    }
  }

  ghost predicate ReadsBack(file: bytes, spec: BuildSpec, x: Expectations)
    requires spec.layout.Some?
  {
    Parses(file, x) && ArtifactOf(file, x).layout == spec.layout.value
      && ArtifactOf(file, x).progress == ProgressOf(spec)
  }

  ghost predicate Readable(spec: BuildSpec, shards: seq<ShardSpec>, active: seq<FieldSpec>) {
    && DirectoryEnd(SectionCount(spec, |shards|)) < TWO_32 && ArtifactSchema.NoDefaults(active)
    && (spec.includeProgress ==> ArtifactSections.GoodEntries(spec.progress))
  }

  lemma {:induction false} WrittenHeader(
      h: HashFn, spec: BuildSpec, shards: seq<ShardSpec>, backings: seq<OwnedBacking>, file: bytes, x: Expectations)
    requires WrittenFrom(h, spec, shards, backings, file) && HeaderExpected(spec, x)
    ensures SectionCount(spec, |shards|) < TWO_32
      && ReadHeader(file, x) == Ok(HeaderOf(spec, SectionCount(spec, |shards|)))
    ensures spec.includeProgress ==> ProgressFits(spec.progress)
    ensures DirectoryEnd(SectionCount(spec, |shards|)) < TWO_32 ==>
      DirectoryOk(file, HeaderOf(spec, SectionCount(spec, |shards|)))
  {
    hide BackingOf, RowPayloads.AllPrintable, FileOver, ReadHeader, DirectoryOk, HeaderExpected;
    WrappedHeader(h, spec, shards, backings, file, x);
    if DirectoryEnd(SectionCount(spec, |shards|)) < TWO_32 {
      PlainDirectory(h, spec, shards, backings, file, x);
    }
  }

  lemma {:induction false} NoProgressPart(spec: BuildSpec, shards: seq<ShardSpec>, backings: seq<OwnedBacking>)
    requires SpecOk(spec, shards) && |shards| == |backings| && !spec.includeProgress
    ensures var parts := PartsOf(spec, shards, backings);
      forall i :: 0 <= i < |parts| ==> (parts[i].kind, parts[i].shardId) != (PROGRESS, GLOBAL_SHARD)
  {
    hide ShardParts, AllShardParts, ArtifactSchema.PrintSchema, PartsOf;
    forall i | 0 <= i < SectionCount(spec, |shards|)
      ensures PartsOf(spec, shards, backings)[i].kind != PROGRESS
    {
      var k, j := PartAt(spec, shards, backings, i);
      if i > 0 {
        ShardPartKinds(shards[k].shardId, backings[k], j);
      }
    }
  }

  function MappedOf(b: OwnedBacking): Mapped {
    Mapped(b.layout, b.index, b.slots, RowPayloads.PrintPayloadSection(b.payloads))
  }

  lemma {:induction false} ShardPartFound(
      h: HashFn, spec: BuildSpec, shards: seq<ShardSpec>, backings: seq<OwnedBacking>, file: bytes, k: nat, j: nat)
    requires WrittenFrom(h, spec, shards, backings, file) && DirectoryEnd(SectionCount(spec, |shards|)) < TWO_32
    requires k < |shards| && j < 7
    ensures var n := SectionCount(spec, |shards|);
      && DirectoryEnd(n) <= |file|
      && var found := FindSection(Entries(file, n), INDEX + j, shards[k].shardId);
         && found.Some? && End(found.value) <= |file|
         && SectionBytes(file, found.value) == ShardParts(shards[k].shardId, backings[k])[j].payload
  {
    hide WrittenFrom, PartsOf, Entries, ShardParts, FindSection, SectionBytes, GlobalParts, BackingOf, SpecOk;
    hide RowPayloads.AllPrintable;
    WrittenLayout(h, spec, shards, backings, file);
    WrittenSpec(h, spec, shards, backings, file);
    ShardPartHere(spec, shards, backings, k, j);
    ShardPartKinds(shards[k].shardId, backings[k], j);
    PlainParts(h, spec, shards, backings, file, |GlobalParts(spec)| + 7 * k + j);
  }

  lemma {:induction false} PayloadCountReadsBack(ps: seq<RowPayload>)
    requires RowPayloads.AllPrintable(ps)
    ensures RowPayloads.PayloadRowCountOk(RowPayloads.PrintPayloadSection(ps), |ps|) == Ok(())
  {
    hide RowPayloads.PayloadAt, SectionCodec.TakeInt, LE, RowPayloads.PayloadPrintable, Pow256;
    PowersOf256();
    SectionCodec.IntTaken(|ps|, 8, RowPayloads.PrintPayloads(ps));
    if ps != [] {
      RowPayloads.PayloadReadsBack(ps, |ps| - 1);
    }
  }

  lemma {:induction false} ShardReadsBack(
      h: HashFn, spec: BuildSpec, shards: seq<ShardSpec>, backings: seq<OwnedBacking>, file: bytes, a: Artifact, k: nat)
    requires WrittenFrom(h, spec, shards, backings, file) && DirectoryEnd(SectionCount(spec, |shards|)) < TWO_32
    requires spec.layout.value.rowSlotSize > 0 && k < |shards|
    requires a.file == file && a.layout == spec.layout.value && a.header.shardCount == spec.shardCount
    requires DirectoryEnd(SectionCount(spec, |shards|)) <= |file|
    requires a.sections == Entries(file, SectionCount(spec, |shards|))
    requires forall i :: 0 <= i < |a.sections| ==> End(a.sections[i]) <= |a.file|
    ensures ShardOf(a, shards[k].shardId) == Ok(MappedOf(backings[k]))
  {
    hide WrittenFrom, Entries, FindSection, SectionBytes, Serves, BackingOf;
    hide RowPayloads.AllPrintable, RowPayloads.PayloadRowCountOk, RowPayloads.PrintPayloadSection;
    WrittenSpec(h, spec, shards, backings, file);
    var id, b := shards[k].shardId, backings[k];
    ShardPartFound(h, spec, shards, backings, file, k, 0);
    ShardPartFound(h, spec, shards, backings, file, k, 1);
    ShardPartFound(h, spec, shards, backings, file, k, 2);
    forall kind: u32 | 103 <= kind <= 106
      ensures FindSection(a.sections, kind, id).Some?
    {
      ShardPartFound(h, spec, shards, backings, file, k, kind - 100);
    }
    BackingSizes(h, spec, shards[k], b);
    ModUnique(|b.slots|, spec.layout.value.rowSlotSize, |shards[k].rows|, 0);
    PayloadCountReadsBack(b.payloads);
  }

  /**
   * The file image refines the in-memory snapshot. A file that can be read back, of a layout with a slot, gives the
   * same layout and progress; every shard, with rows or without, loads, its backing returns the owned one's row at
   * every offset, and a read of any key agrees. No sort refuses it if and only if every shard has a row.
   */
  lemma {:induction false} FileRefinesSnapshot(
      h: HashFn, spec: BuildSpec, shards: seq<ShardSpec>, backings: seq<OwnedBacking>, file: bytes, x: Expectations,
      active: seq<FieldSpec>, k: nat, key: u64)
    requires WrittenFrom(h, spec, shards, backings, file) && Expected(spec, x)
      && CompiledFrom(spec.layout.value, active)
    requires Readable(spec, shards, active) && spec.layout.value.rowSlotSize > 0 && k < |shards|
    ensures Parses(file, x) && (AlwaysParses(file, x) <==> AllHaveRows(shards))
    ensures var a := ArtifactOf(file, x);
      && a.layout == spec.layout.value && a.progress == ProgressOf(spec)
      && ShardOf(a, shards[k].shardId) == Ok(MappedOf(backings[k]))
    ensures forall offset: u64 :: MappedOf(backings[k]).EncodedRowAt(offset) == backings[k].EncodedRowAt(offset)
    ensures SnapshotGet(h, MappedOf(backings[k]).AsBacking(), key) == SnapshotGet(h, backings[k].AsBacking(), key)
  {
    hide WrittenFrom, Entries, BackingOf, ReadHeader, Parses, AlwaysParses, ShardOf, CompiledFrom, AllHaveRows;
    hide HeaderExpected;
    hide Mapped.EncodedRowAt, OwnedBacking.EncodedRowAt, RowPayloads.AllPrintable, RowPayloads.PrintPayloadSection;
    hide SnapshotGet, LookupRow;
    hide ArtifactSchema.NoDefaults, ArtifactSections.GoodEntries;
    WrittenReadsBackExactly(h, spec, shards, backings, file, x, active);
    WrittenSpec(h, spec, shards, backings, file);
    WrittenHeader(h, spec, shards, backings, file, x);
    ParsedHeader(file, x);
    ShardReadsBack(h, spec, shards, backings, file, ArtifactOf(file, x), k);
    var m, b := MappedOf(backings[k]), backings[k];
    BackingSizes(h, spec, shards[k], b);
    forall offset: u64
      ensures m.EncodedRowAt(offset) == b.EncodedRowAt(offset)
    {
      MappedRowIsOwnedRow(m, b, offset);
    }
    SameRowsSameReads(h, m.AsBacking(), b.AsBacking(), key);
  }
}
