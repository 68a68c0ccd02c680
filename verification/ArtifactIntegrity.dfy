/**
 * What the checksums are for, src/artifact/artifact_format.cc:349-355: a file with one altered section byte is not
 * accepted.
 */
module ArtifactIntegrity {
  import opened Basics
  import opened ByteIO
  import opened Schema
  import opened Sorting
  import opened SectionDirectory
  import opened ArtifactFormat
  import ArtifactSchema
  import ArtifactSections
  import SectionCodec
  import Fnv

  ghost predicate SameFront(s: bytes, t: bytes, n: nat) {
    |s| == |t| && n <= |s| && forall i :: 0 <= i < n ==> s[i] == t[i]
  }

  lemma {:induction false} SameField(s: bytes, t: bytes, n: nat, at: nat, w: nat)
    requires SameFront(s, t, n) && at + w <= n
    ensures UnsignedAt(s, at, w) == UnsignedAt(t, at, w)
  {
    assert s[at..at + w] == t[at..at + w];
  }

  lemma {:induction false} SameHeader(s: bytes, t: bytes, x: Expectations)
    requires SameFront(s, t, HEADER_SIZE)
    ensures ReadHeader(s, x) == ReadHeader(t, x)
  {
    hide UnsignedAt, Pow256;
    SameField(s, t, HEADER_SIZE, 0, 8);
    SameField(s, t, HEADER_SIZE, 8, 4);
    SameField(s, t, HEADER_SIZE, 12, 4);
    SameField(s, t, HEADER_SIZE, 16, 4);
    SameField(s, t, HEADER_SIZE, 20, 4);
    SameField(s, t, HEADER_SIZE, 24, 4);
    SameField(s, t, HEADER_SIZE, 28, 4);
    SameField(s, t, HEADER_SIZE, 32, 8);
    SameField(s, t, HEADER_SIZE, 40, 4);
    SameField(s, t, HEADER_SIZE, 48, 8);
    SameField(s, t, HEADER_SIZE, 56, 8);
    SameField(s, t, HEADER_SIZE, 64, 4);
    var n := UnsignedAt(s, 64, 4);
    assert n <= ID_CAPACITY ==> s[68..68 + n] == t[68..68 + n];
  }

  lemma {:induction false} SameEntries(s: bytes, t: bytes, n: nat)
    requires DirectoryEnd(n) <= |s| && SameFront(s, t, DirectoryEnd(n))
    ensures Entries(s, n) == Entries(t, n)
  {
    forall i | 0 <= i < n
      ensures EntryAt(s, EntryOffset(i)) == EntryAt(t, EntryOffset(i))
    {
      var at, end := EntryOffset(i), DirectoryEnd(n);
      SameField(s, t, end, at, 4);
      SameField(s, t, end, at + 4, 4);
      SameField(s, t, end, at + 8, 8);
      SameField(s, t, end, at + 16, 8);
      SameField(s, t, end, at + 24, 8);
    }
  }

  /** A file that parses no longer does once any one byte of any of its sections was changed. */
  lemma {:induction false} AlteredSectionIsRefused(s: bytes, x: Expectations, k: nat, at: nat, b: byte)
    requires Parses(s, x) && k < |ArtifactOf(s, x).sections|
    requires ArtifactOf(s, x).sections[k].offset <= at < End(ArtifactOf(s, x).sections[k]) && s[at] != b
    ensures !Parses(s[at := b], x)
  {
    hide ReadHeader, Entries, EntriesOk, ParseContents, Fnv.Fnv1a64;
    var t := s[at := b];
    var h := ReadHeader(s, x).get;
    var sections := Entries(s, h.sectionCount);
    SameHeader(s, t, x);
    SameEntries(s, t, h.sectionCount);
    var piece, i := SectionBytes(s, sections[k]), at - sections[k].offset;
    assert SectionBytes(t, sections[k]) == piece[i := b];
    Fnv.ChangedByteShows(piece, i, b);
  }

  /**
   * A file that parses is of the expected sharding and hash settings, has progress if it must, and holds the layout
   * that its header names.
   */
  lemma {:induction false} ParsedMeetsExpectations(s: bytes, x: Expectations)
    requires Parses(s, x)
    ensures var a := ArtifactOf(s, x);
      && a.header.hashSeed == x.hashSeed
      && (x.shardCount != 0 ==> a.header.shardCount == x.shardCount)
      && (x.hashVersion != 0 ==> a.header.hashVersion == x.hashVersion)
      && a.layout.schemaVersion == a.header.schemaVersion && a.layout.fingerprint == a.header.fingerprint
      && (!x.progressOptional ==> exists i :: 0 <= i < |a.sections| && a.sections[i].kind == PROGRESS)
  {
    hide FromLE, Entries, EntriesOk, CompileLayout, ArtifactSchema.TakeFields, SectionCodec.TakeInt;
    hide ArtifactSections.ParseProgress, ChecksumsMatch, NonOverlapping;
    var a := ArtifactOf(s, x);
    var schema := FindSection(a.sections, SCHEMA, GLOBAL_SHARD).value;
    CompiledVersion(SectionBytes(s, schema), a.header.schemaVersion, a.header.fingerprint);
    if !x.progressOptional {
      var found := FindSection(a.sections, PROGRESS, GLOBAL_SHARD).value;
      assert found in a.sections;
    }
  }

  lemma {:induction false} CompiledVersion(s: bytes, version: u64, fingerprint: u64)
    ensures var r := ArtifactSchema.ParseSchema(s, version, fingerprint);
      r.Ok? ==> r.get.schemaVersion == version && r.get.fingerprint == fingerprint
  {
    hide SortBy, BuildFingerprint, ArtifactSchema.TakeFields, SectionCodec.TakeInt;
  }
}
