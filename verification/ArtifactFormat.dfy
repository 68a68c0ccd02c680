/** The artifact file: its header, and ParseArtifact. src/artifact/artifact_format.cc */
module ArtifactFormat {
  import opened Basics
  import opened ByteIO
  import opened Sorting
  import opened Schema
  import opened SectionDirectory
  import ArtifactSchema
  import ArtifactSections

  const MAGIC: u64 := 0x3149_564b_5452_4146
  const ID_CAPACITY: nat := 60

  datatype Header = Header(
    sectionCount: u32, shardCount: u32, hashSeed: u64, hashVersion: u32, schemaVersion: u64, fingerprint: u64,
    artifactId: bytes)

  /** Zero expectations of the shard count and the hash version are not checked. */
  datatype Expectations = Expectations(shardCount: u32, hashSeed: u64, hashVersion: u32, progressOptional: bool)

  datatype Artifact = Artifact(
    header: Header, layout: RowLayout, progress: seq<ArtifactSections.SourceProgress>, sections: seq<Section>,
    file: bytes)

  function ReadHeader(s: bytes, x: Expectations): (r: Result<Header>)
    ensures r.Ok? ==> |s| >= HEADER_SIZE
  {
    if |s| < HEADER_SIZE then Err(InvalidArgument)
    else if UnsignedAt(s, 0, 8) != MAGIC || UnsignedAt(s, 8, 4) != 1 then Err(InvalidArgument)
    else if UnsignedAt(s, 12, 4) != HEADER_SIZE || UnsignedAt(s, 16, 4) != ENTRY_SIZE then Err(InvalidArgument)
    else if UnsignedAt(s, 24, 4) != 1 || UnsignedAt(s, 64, 4) > ID_CAPACITY then Err(InvalidArgument)
    else if x.shardCount != 0 && x.shardCount != UnsignedAt(s, 28, 4) then Err(FailedPrecondition)
    else if x.hashVersion != 0 && x.hashVersion != UnsignedAt(s, 40, 4) then Err(FailedPrecondition)
    else if x.hashSeed != UnsignedAt(s, 32, 8) then Err(FailedPrecondition)
    else
      PowersOf256();
      Ok(Header(UnsignedAt(s, 20, 4), UnsignedAt(s, 28, 4), UnsignedAt(s, 32, 8), UnsignedAt(s, 40, 4),
                UnsignedAt(s, 48, 8), UnsignedAt(s, 56, 8), s[68..68 + UnsignedAt(s, 64, 4)]))
  }

  /** The fields before the four bytes that the writer leaves alone, and those after them. */
  function HeaderFront(h: Header): (r: bytes)
    ensures |r| == 44
  {
    LE(MAGIC, 8) + LE(1, 4) + LE(HEADER_SIZE, 4) + LE(ENTRY_SIZE, 4) + LE(h.sectionCount, 4) + LE(1, 4)
    + LE(h.shardCount, 4) + LE(h.hashSeed, 8) + LE(h.hashVersion, 4)
  }

  function HeaderBack(h: Header): (r: bytes)
    ensures |r| == 20 + |h.artifactId|
  {
    LE(h.schemaVersion, 8) + LE(h.fingerprint, 8) + LE(|h.artifactId|, 4) + h.artifactId
  }

  function PrintHeader(h: Header): (r: bytes)
    requires |h.artifactId| <= ID_CAPACITY
    ensures |r| == HEADER_SIZE
  {
    HeaderFront(h) + Zeros(4) + HeaderBack(h) + Zeros(ID_CAPACITY - |h.artifactId|)
  }

  /** s starts with the fields of h, whatever is in the bytes between and behind them. */
  predicate StartsWithHeader(s: bytes, h: Header) {
    && |h.artifactId| <= ID_CAPACITY && HEADER_SIZE <= |s|
    && s[0..44] == HeaderFront(h) && s[48..68 + |h.artifactId|] == HeaderBack(h)
  }

  /** A field at an offset inside a piece of the header. */
  lemma {:induction false} FieldPrinted(s: bytes, piece: bytes, from: nat, at: nat, w: nat, v: nat)
    requires from + |piece| <= |s| && s[from..from + |piece|] == piece
    requires at + w <= |piece| && piece[at..at + w] == LE(v, w) && v < Pow256(w)
    ensures UnsignedAt(s, from + at, w) == v
  {
    hide LE, FromLE;
    FromLEofLE(v, w);
    SubSlice(s, from, from + |piece|, at, at + w);
  }

  /** Reading a written header gives it back. */
  lemma {:induction false} HeaderReadsBack(s: bytes, h: Header, x: Expectations)
    requires StartsWithHeader(s, h)
    requires x.shardCount == 0 || x.shardCount == h.shardCount
    requires x.hashVersion == 0 || x.hashVersion == h.hashVersion
    requires x.hashSeed == h.hashSeed
    ensures ReadHeader(s, x) == Ok(h)
  {
    hide LE, FromLE, UnsignedAt, Pow256, HeaderFront, HeaderBack;
    PowersOf256();
    var front, back := HeaderFront(h), HeaderBack(h);
    HeaderPieces(h);
    FieldPrinted(s, front, 0, 0, 8, MAGIC);
    FieldPrinted(s, front, 0, 8, 4, 1);
    FieldPrinted(s, front, 0, 12, 4, HEADER_SIZE);
    FieldPrinted(s, front, 0, 16, 4, ENTRY_SIZE);
    FieldPrinted(s, front, 0, 20, 4, h.sectionCount);
    FieldPrinted(s, front, 0, 24, 4, 1);
    FieldPrinted(s, front, 0, 28, 4, h.shardCount);
    FieldPrinted(s, front, 0, 32, 8, h.hashSeed);
    FieldPrinted(s, front, 0, 40, 4, h.hashVersion);
    FieldPrinted(s, back, 48, 0, 8, h.schemaVersion);
    FieldPrinted(s, back, 48, 8, 8, h.fingerprint);
    FieldPrinted(s, back, 48, 16, 4, |h.artifactId|);
    SubSlice(s, 48, 68 + |h.artifactId|, 20, 20 + |h.artifactId|);
  }

  lemma {:induction false} HeaderPieces(h: Header)
    ensures var p := HeaderFront(h);
      && p[0..8] == LE(MAGIC, 8) && p[8..12] == LE(1, 4) && p[12..16] == LE(HEADER_SIZE, 4)
      && p[16..20] == LE(ENTRY_SIZE, 4) && p[20..24] == LE(h.sectionCount, 4) && p[24..28] == LE(1, 4)
      && p[28..32] == LE(h.shardCount, 4) && p[32..40] == LE(h.hashSeed, 8) && p[40..44] == LE(h.hashVersion, 4)
    ensures var p := HeaderBack(h);
      && p[0..8] == LE(h.schemaVersion, 8) && p[8..16] == LE(h.fingerprint, 8)
      && p[16..20] == LE(|h.artifactId|, 4) && p[20..20 + |h.artifactId|] == h.artifactId
  {
    hide LE;
  }

  lemma {:induction false} PrintedHeaderStarts(s: bytes, h: Header)
    requires |h.artifactId| <= ID_CAPACITY && HEADER_SIZE <= |s| && s[..HEADER_SIZE] == PrintHeader(h)
    ensures StartsWithHeader(s, h)
  {
    hide HeaderFront, HeaderBack;
    var p := PrintHeader(h);
    assert p[0..44] == HeaderFront(h) && p[48..68 + |h.artifactId|] == HeaderBack(h);
    SubSlice(s, 0, HEADER_SIZE, 0, 44);
    SubSlice(s, 0, HEADER_SIZE, 48, 68 + |h.artifactId|);
  }

  // ---- ParseArtifact -----------------------------------------------------------------------------

  /** The directory passes the checks that come before the overlap check. */
  ghost predicate DirectoryOk(s: bytes, h: Header) {
    && DirectoryEnd(h.sectionCount) <= |s|
    && EntriesOk(Entries(s, h.sectionCount), h.shardCount, |s|)
    && ChecksumsMatch(s, Entries(s, h.sectionCount))
  }

  lemma {:induction false} EntriesEnd(sections: seq<Section>, shardCount: nat, size: nat)
    requires EntriesOk(sections, shardCount, size)
    ensures DistinctSections(sections) && forall i :: 0 <= i < |sections| ==> End(sections[i]) <= size
  {
  }

  /** The layout and the progress, from the sections that hold them. */
  function ParseContents(s: bytes, h: Header, sections: seq<Section>, x: Expectations): (r: Result<Artifact>)
    requires forall i :: 0 <= i < |sections| ==> End(sections[i]) <= |s|
    ensures r.Ok? ==> r.get.header == h && r.get.sections == sections && r.get.file == s
  {
    var schema := FindSection(sections, SCHEMA, GLOBAL_SHARD);
    var progress := FindSection(sections, PROGRESS, GLOBAL_SHARD);
    if schema.None? then Err(InvalidArgument)
    else
      var layout :- ArtifactSchema.ParseSchema(SectionBytes(s, schema.value), h.schemaVersion, h.fingerprint);
      if progress.None? then
        if x.progressOptional then Ok(Artifact(h, layout, [], sections, s)) else Err(InvalidArgument)
      else
        var entries :- ArtifactSections.ParseProgress(SectionBytes(s, progress.value));
        Ok(Artifact(h, layout, entries, sections, s))
  }

  /**
   * A directory that ends past 2^32 has an entry whose 32-bit offset wraps around to the magic number, which is no
   * section type: such a file is never accepted, and in all others no entry wraps.
   */
  lemma {:induction false} NoEntryWraps(s: bytes, h: Header, x: Expectations)
    requires ReadHeader(s, x).Ok? && DirectoryEnd(h.sectionCount) <= |s|
    ensures EntriesOk(Entries(s, h.sectionCount), h.shardCount, |s|) ==> DirectoryEnd(h.sectionCount) <= TWO_32
    ensures DirectoryEnd(h.sectionCount) <= TWO_32 ==>
      forall i :: 0 <= i < h.sectionCount ==> Entries(s, h.sectionCount)[i] == EntryAt(s, HEADER_SIZE + i * ENTRY_SIZE)
  {
    hide FromLE, EntryAt, Pow256;
    if DirectoryEnd(h.sectionCount) > TWO_32 {
      WrapsToMagic(h.sectionCount);
      MagicIsNoKind(s);
      assert !KnownKind(Entries(s, h.sectionCount)[WRAPPED_ENTRY].kind);
    }
  }

  lemma {:induction false} MagicIsNoKind(s: bytes)
    requires |s| >= HEADER_SIZE && UnsignedAt(s, 0, 8) == MAGIC
    ensures !KnownKind(EntryAt(s, 0).kind)
  {
    hide FromLE;
    PowersOf256();
    assert s[0..4] + s[4..8] == s[0..8];
    FromLEConcat(s[0..4], s[4..8]);
    ModUnique(MAGIC, TWO_32, FromLE(s[4..8]), FromLE(s[0..4]));
  }

  /** sorted is what the sort may have made of the file's sections. */
  ghost predicate SortsFile(s: bytes, x: Expectations, sorted: seq<Section>) {
    ReadHeader(s, x).Ok? && DirectoryEnd(ReadHeader(s, x).get.sectionCount) <= |s| ==>
      IsSortOf(Entries(s, ReadHeader(s, x).get.sectionCount), sorted)
  }

  /** The answer when the sort gives this order. */
  ghost function Verdict(s: bytes, x: Expectations, sorted: seq<Section>): Result<Artifact> {
    var h :- ReadHeader(s, x);
    if DirectoryEnd(h.sectionCount) > |s| then Err(InvalidArgument)
    else
      var sections := Entries(s, h.sectionCount);
      if !EntriesOk(sections, h.shardCount, |s|) || !AdjacentOk(sorted, DirectoryEnd(h.sectionCount)) then
        Err(InvalidArgument)
      else
        EntriesEnd(sections, h.shardCount, |s|);
        if !ChecksumsMatch(s, sections) then Err(FailedPrecondition) else ParseContents(s, h, sections, x)
  }

  /** Some sort of its sections lets the file pass. */
  ghost predicate Parses(s: bytes, x: Expectations) {
    && ReadHeader(s, x).Ok? && DirectoryOk(s, ReadHeader(s, x).get)
    && var h := ReadHeader(s, x).get;
       var sections := Entries(s, h.sectionCount);
       && NonOverlapping(sections, DirectoryEnd(h.sectionCount))
       && (forall i :: 0 <= i < |sections| ==> End(sections[i]) <= |s|)
       && ParseContents(s, h, sections, x).Ok?
  }

  /** Every sort of its sections does. */
  ghost predicate AlwaysParses(s: bytes, x: Expectations) {
    Parses(s, x) && NoEmptyTie(Entries(s, ReadHeader(s, x).get.sectionCount))
  }

  /** What a file holds that parses. */
  ghost function ArtifactOf(s: bytes, x: Expectations): (a: Artifact)
    requires Parses(s, x)
    ensures a.file == s && a.header == ReadHeader(s, x).get && a.sections == Entries(s, a.header.sectionCount)
    ensures forall i :: 0 <= i < |a.sections| ==> End(a.sections[i]) <= |a.file|
  {
    hide ReadHeader, Entries, DirectoryOk, ParseContents, NonOverlapping;
    ParseContents(s, ReadHeader(s, x).get, Entries(s, ReadHeader(s, x).get.sectionCount), x).get
  }

  lemma {:induction false} VerdictOnDirectory(s: bytes, x: Expectations, sorted: seq<Section>)
    requires SortsFile(s, x, sorted)
    ensures Verdict(s, x, sorted).Ok? ==>
      Parses(s, x) && AdjacentOk(sorted, DirectoryEnd(ReadHeader(s, x).get.sectionCount))
        && Verdict(s, x, sorted) == Ok(ArtifactOf(s, x))
    ensures Parses(s, x) && AdjacentOk(sorted, DirectoryEnd(ReadHeader(s, x).get.sectionCount)) ==>
      Verdict(s, x, sorted) == Ok(ArtifactOf(s, x))
  {
    hide ReadHeader, Entries, AdjacentOk, NonOverlapping, ParseContents, ChecksumsMatch, EntriesOk, IsSortOf;
    var header := ReadHeader(s, x);
    if header.Ok? && DirectoryEnd(header.get.sectionCount) <= |s| {
      var sections := Entries(s, header.get.sectionCount);
      if EntriesOk(sections, header.get.shardCount, |s|) {
        EntriesEnd(sections, header.get.shardCount, |s|);
        if AdjacentOk(sorted, DirectoryEnd(header.get.sectionCount)) {
          SortsAreCopies(sections, sorted);
          AdjacentMeansApart(sections, sorted, DirectoryEnd(header.get.sectionCount));
        }
      }
    }
  }

  /** The exact conditions, as predicates of the file alone. */
  lemma {:induction false} ParsesExactly(s: bytes, x: Expectations)
    ensures Parses(s, x) <==> exists sorted :: SortsFile(s, x, sorted) && Verdict(s, x, sorted).Ok?
    ensures AlwaysParses(s, x) <==> forall sorted :: SortsFile(s, x, sorted) ==> Verdict(s, x, sorted).Ok?
  {
    hide ReadHeader, Entries, NonOverlapping, ParseContents, DirectoryOk, Verdict, IsSortOf, NoEmptyTie, Parses;
    hide ArtifactOf;
    var some := SomeSort(s, x);
    VerdictOnDirectory(s, x, some);
    ParsedHeader(s, x);
    forall sorted | SortsFile(s, x, sorted)
      ensures Verdict(s, x, sorted).Ok? ==> Parses(s, x)
      ensures Verdict(s, x, sorted).Ok? <==>
        Parses(s, x) && AdjacentOk(sorted, DirectoryEnd(ReadHeader(s, x).get.sectionCount))
    {
      VerdictOnDirectory(s, x, sorted);
    }
    if Parses(s, x) {
      var h := ReadHeader(s, x).get;
      SortDecidesOnlyTies(Entries(s, h.sectionCount), DirectoryEnd(h.sectionCount));
      forall sorted
        ensures SortsFile(s, x, sorted) <==> IsSortOf(Entries(s, h.sectionCount), sorted)
      {
      }
    }
  }

  lemma {:induction false} SomeSort(s: bytes, x: Expectations) returns (sorted: seq<Section>)
    ensures SortsFile(s, x, sorted)
  {
    hide ReadHeader, Entries;
    sorted := [];
    if ReadHeader(s, x).Ok? && DirectoryEnd(ReadHeader(s, x).get.sectionCount) <= |s| {
      var sections := Entries(s, ReadHeader(s, x).get.sectionCount);
      SortBySorted(OffsetOf, sections);
      sorted := SortBy(OffsetOf, sections);
    }
  }

  lemma {:induction false} ParsedHeader(s: bytes, x: Expectations)
    ensures Parses(s, x) ==>
      && ReadHeader(s, x).Ok? && DirectoryEnd(ReadHeader(s, x).get.sectionCount) <= |s|
      && var sections := Entries(s, ReadHeader(s, x).get.sectionCount);
         DistinctSections(sections) && NonOverlapping(sections, DirectoryEnd(ReadHeader(s, x).get.sectionCount))
  {
    hide ReadHeader, Entries, ChecksumsMatch, NonOverlapping;
    if Parses(s, x) {
      var h := ReadHeader(s, x).get;
      EntriesEnd(Entries(s, h.sectionCount), h.shardCount, |s|);
    }
  }

  /**
   * Accepted files: a directory that ends within 2^32, all sections in bounds after it, one for each type and shard,
   * no two of them sharing a byte, each matching its checksum. Without an empty section tied to a non-empty one that
   * is also enough; with such a tie the sort decides.
   */
  method ParseArtifact(s: bytes, x: Expectations) returns (r: Result<Artifact>)
    ensures exists sorted :: SortsFile(s, x, sorted) && r == Verdict(s, x, sorted)
    ensures r.Ok? ==> Parses(s, x)
    ensures Parses(s, x) ==> r == Ok(ArtifactOf(s, x)) || r == Err(InvalidArgument)
    ensures r.Ok? ==>
      && r.get.header == ReadHeader(s, x).get && r.get.sections == Entries(s, r.get.header.sectionCount)
      && DirectoryEnd(r.get.header.sectionCount) <= TWO_32
      && NonOverlapping(r.get.sections, DirectoryEnd(r.get.header.sectionCount))
      && TotalLength(r.get.sections) <= |s| - DirectoryEnd(r.get.header.sectionCount)
    ensures AlwaysParses(s, x) ==> r.Ok?
    ensures ReadHeader(s, x).Ok? && DirectoryEnd(ReadHeader(s, x).get.sectionCount) > TWO_32 ==>
      r == Err(InvalidArgument)
    ensures ReadHeader(s, x).Ok? && DirectoryOk(s, ReadHeader(s, x).get) ==>
      var h := ReadHeader(s, x).get;
      var sections := Entries(s, h.sectionCount);
      && (!NonOverlapping(sections, DirectoryEnd(h.sectionCount)) ==> r == Err(InvalidArgument))
      && (NonOverlapping(sections, DirectoryEnd(h.sectionCount)) && NoEmptyTie(sections) ==>
            r == ParseContents(s, h, sections, x))
  {
    hide ReadHeader, Entries, AdjacentOk, TotalLength, EntriesOk, NoEmptyTie, NonOverlapping, DistinctSections;
    hide IsSortOf;
    hide ArtifactSchema.ParseSchema, ArtifactSections.ParseProgress, FindSection, ChecksumsMatch, Parses;
    var header := ReadHeader(s, x);
    NotParsed(s, x);
    if header.Err? {
      assert SortsFile(s, x, []);
      return Err(header.code);
    }
    var h := header.get;
    if DirectoryEnd(h.sectionCount) > |s| {
      assert SortsFile(s, x, []);
      return Err(InvalidArgument);
    }
    NoEntryWraps(s, h, x);
    var read := ReadEntries(s, h.sectionCount, h.shardCount);
    if read.Err? {
      ghost var sorted := SomeSort(s, x);
      assert Verdict(s, x, sorted) == Err(InvalidArgument);
      return Err(read.code);
    }
    var sections := read.get;
    EntriesEnd(sections, h.shardCount, |s|);
    var sorted := SortByOffset(sections);
    assert SortsFile(s, x, sorted);
    var adjacent := CheckAdjacent(sorted, DirectoryEnd(h.sectionCount));
    AdjacentMeans(sections, sorted, DirectoryEnd(h.sectionCount), |s|);
    if !adjacent {
      assert Verdict(s, x, sorted) == Err(InvalidArgument);
      return Err(InvalidArgument);
    }
    var intact := CheckChecksums(s, sections);
    if !intact {
      assert Verdict(s, x, sorted) == Err(FailedPrecondition);
      return Err(FailedPrecondition);
    }
    r := FinishParse(s, h, sections, x);
    assert Verdict(s, x, sorted) == r;
    VerdictOnDirectory(s, x, sorted);
  }

  /** What a file that does not parse lacks. */
  lemma {:induction false} NotParsed(s: bytes, x: Expectations)
    ensures Parses(s, x) ==>
      && ReadHeader(s, x).Ok? && DirectoryOk(s, ReadHeader(s, x).get)
      && NonOverlapping(Entries(s, ReadHeader(s, x).get.sectionCount), DirectoryEnd(ReadHeader(s, x).get.sectionCount))
  {
    hide ReadHeader, Entries, DirectoryOk, NonOverlapping;
  }

  lemma {:induction false} AdjacentMeans(sections: seq<Section>, sorted: seq<Section>, start: nat, size: nat)
    requires IsSortOf(sections, sorted) && DistinctSections(sections)
    requires start <= size && forall i :: 0 <= i < |sections| ==> End(sections[i]) <= size
    ensures AdjacentOk(sorted, start) ==> NonOverlapping(sections, start) && TotalLength(sections) <= size - start
    ensures NonOverlapping(sections, start) && NoEmptyTie(sections) ==> AdjacentOk(sorted, start)
  {
    hide AdjacentOk, NonOverlapping, NoEmptyTie, DistinctSections, TotalLength, IsSortOf;
    SortDecidesOnlyTies(sections, start);
    if AdjacentOk(sorted, start) {
      SortsAreCopies(sections, sorted);
      AdjacentMeansApart(sections, sorted, start);
      forall i | 0 <= i < |sorted|
        ensures End(sorted[i]) <= size
      {
        assert sorted[i] in multiset(sections);
      }
      AdjacentFit(sorted, start, size);
      TotalPermuted(sections, sorted);
    }
  }

  /** The part of ParseArtifact that reads the global sections. */
  method FinishParse(s: bytes, h: Header, sections: seq<Section>, x: Expectations) returns (r: Result<Artifact>)
    requires forall i :: 0 <= i < |sections| ==> End(sections[i]) <= |s|
    ensures r == ParseContents(s, h, sections, x)
  {
    hide ArtifactSchema.ParseSchema, ArtifactSections.ParseProgress;
    var schema := FindSection(sections, SCHEMA, GLOBAL_SHARD);
    if schema.None? {
      return Err(InvalidArgument);
    }
    var layout := ArtifactSchema.ParseSchemaSection(SectionBytes(s, schema.value), h.schemaVersion, h.fingerprint);
    if layout.Err? {
      return Err(layout.code);
    }
    var progress := FindSection(sections, PROGRESS, GLOBAL_SHARD);
    if progress.None? {
      if x.progressOptional {
        return Ok(Artifact(h, layout.get, [], sections, s));
      }
      return Err(InvalidArgument);
    }
    var entries := ArtifactSections.ParseSourceProgressSection(SectionBytes(s, progress.value));
    if entries.Err? {
      return Err(entries.code);
    }
    r := Ok(Artifact(h, layout.get, entries.get, sections, s));
  }
}
