/** The bytes of an artifact file, and that the directory finds every part again. src/artifact/artifact_writer.cc */
module ArtifactFile {
  import opened Basics
  import opened ByteIO
  import opened SectionDirectory
  import opened ArtifactFormat
  import Fnv

  /** What AddSection is given: a type, a shard and the payload. */
  datatype Part = Part(kind: u32, shardId: u32, payload: bytes)

  function Joined(parts: seq<Part>): bytes {
    if parts == [] then [] else Joined(parts[..|parts| - 1]) + parts[|parts| - 1].payload
  }

  /** The section that AddSection records for part i. */
  function SectionOf(parts: seq<Part>, start: nat, i: nat): Section
    requires i < |parts| && start + |Joined(parts)| < TWO_64
  {
    PrefixLength(parts, i);
    Section(parts[i].kind, parts[i].shardId, start + |Joined(parts[..i])|, |parts[i].payload|,
            Fnv.Fnv1a64(parts[i].payload))
  }

  lemma {:induction false} PrefixLength(parts: seq<Part>, i: nat)
    requires i < |parts|
    ensures |Joined(parts[..i])| + |parts[i].payload| <= |Joined(parts)|
    ensures Joined(parts[..i + 1]) == Joined(parts[..i]) + parts[i].payload
    decreases |parts|
  {
    assert parts[..i + 1][..i] == parts[..i];
    if i < |parts| - 1 {
      var front := parts[..|parts| - 1];
      assert front[..i] == parts[..i];
      PrefixLength(front, i);
    } else {
      assert parts[..i] == parts[..|parts| - 1];
    }
  }

  function SectionsOf(parts: seq<Part>, start: nat): (r: seq<Section>)
    requires start + |Joined(parts)| < TWO_64
    ensures |r| == |parts|
  {
    seq(|parts|, i requires 0 <= i < |parts| => SectionOf(parts, start, i))
  }

  /** What the writer writes of an entry; the rest of its 64 bytes is left alone. */
  function EntryFields(e: Section): (r: bytes)
    ensures |r| == FIELD_BYTES
  {
    LE(e.kind, 4) + LE(e.shardId, 4) + LE(e.offset, 8) + LE(e.length, 8) + LE(e.checksum, 8)
  }

  const FIELD_BYTES: nat := 32

  function PrintEntry(e: Section): (r: bytes)
    ensures |r| == ENTRY_SIZE
  {
    EntryFields(e) + Zeros(32)
  }

  function PrintDirectory(sections: seq<Section>): (r: bytes)
    ensures |r| == |sections| * ENTRY_SIZE
  {
    if sections == [] then []
    else PrintDirectory(sections[..|sections| - 1]) + PrintEntry(sections[|sections| - 1])
  }

  /** Header, directory, payloads. */
  function FileOf(h: Header, parts: seq<Part>): bytes
    requires |h.artifactId| <= ID_CAPACITY && DirectoryEnd(|parts|) + |Joined(parts)| < TWO_64
  {
    PrintHeader(h) + PrintDirectory(SectionsOf(parts, DirectoryEnd(|parts|))) + Joined(parts)
  }

  lemma {:induction false} EntryReadsBack(s: bytes, at: nat, e: Section)
    requires at + ENTRY_SIZE <= |s| && s[at..at + FIELD_BYTES] == EntryFields(e)
    ensures EntryAt(s, at) == e
  {
    hide LE, FromLE, Pow256;
    PowersOf256();
    EntryPieces(e);
    FromLEofLE(e.kind, 4);
    FromLEofLE(e.shardId, 4);
    FromLEofLE(e.offset, 8);
    FromLEofLE(e.length, 8);
    FromLEofLE(e.checksum, 8);
    SubSlice(s, at, at + FIELD_BYTES, 0, 4);
    SubSlice(s, at, at + FIELD_BYTES, 4, 8);
    SubSlice(s, at, at + FIELD_BYTES, 8, 16);
    SubSlice(s, at, at + FIELD_BYTES, 16, 24);
    SubSlice(s, at, at + FIELD_BYTES, 24, 32);
  }

  lemma {:induction false} EntryPieces(e: Section)
    ensures var p := EntryFields(e);
      p[0..4] == LE(e.kind, 4) && p[4..8] == LE(e.shardId, 4) && p[8..16] == LE(e.offset, 8)
      && p[16..24] == LE(e.length, 8) && p[24..32] == LE(e.checksum, 8)
  {
    hide LE;
    AppendedTail(LE(e.kind, 4) + LE(e.shardId, 4) + LE(e.offset, 8) + LE(e.length, 8), LE(e.checksum, 8));
  }

  lemma {:induction false} DirectoryEntry(sections: seq<Section>, i: nat)
    requires i < |sections|
    ensures PrintDirectory(sections)[i * ENTRY_SIZE..i * ENTRY_SIZE + ENTRY_SIZE] == PrintEntry(sections[i])
    decreases |sections|
  {
    hide PrintEntry;
    var n := |sections| - 1;
    if i < n {
      DirectoryEntry(sections[..n], i);
      assert PrintDirectory(sections)[i * ENTRY_SIZE..i * ENTRY_SIZE + ENTRY_SIZE]
          == PrintDirectory(sections[..n])[i * ENTRY_SIZE..i * ENTRY_SIZE + ENTRY_SIZE];
    }
  }

  /** The directory of a file reads back as the recorded sections, as long as it ends within 2^32. */
  lemma {:induction false} DirectoryReadsBack(h: Header, parts: seq<Part>)
    requires |h.artifactId| <= ID_CAPACITY && DirectoryEnd(|parts|) + |Joined(parts)| < TWO_64
    requires DirectoryEnd(|parts|) <= TWO_32
    ensures DirectoryEnd(|parts|) <= |FileOf(h, parts)|
    ensures Entries(FileOf(h, parts), |parts|) == SectionsOf(parts, DirectoryEnd(|parts|))
    ensures FileOf(h, parts)[..HEADER_SIZE] == PrintHeader(h)
  {
    hide PrintHeader, PrintDirectory, Joined, EntryAt, SectionOf;
    forall i | 0 <= i < |parts|
      ensures EntryAt(FileOf(h, parts), EntryOffset(i)) == SectionOf(parts, DirectoryEnd(|parts|), i)
    {
      EntryOfFile(h, parts, i);
    }
  }

  lemma {:induction false} EntryOfFile(h: Header, parts: seq<Part>, i: nat)
    requires |h.artifactId| <= ID_CAPACITY && DirectoryEnd(|parts|) + |Joined(parts)| < TWO_64 && i < |parts|
    ensures HEADER_SIZE + i * ENTRY_SIZE + ENTRY_SIZE <= |FileOf(h, parts)|
    ensures EntryAt(FileOf(h, parts), HEADER_SIZE + i * ENTRY_SIZE) == SectionOf(parts, DirectoryEnd(|parts|), i)
  {
    hide PrintHeader, PrintDirectory, Joined, PrintEntry, EntryAt, SectionOf;
    var sections := SectionsOf(parts, DirectoryEnd(|parts|));
    DirectoryEntry(sections, i);
    InMiddle(PrintHeader(h), PrintDirectory(sections), Joined(parts), i * ENTRY_SIZE, i * ENTRY_SIZE + ENTRY_SIZE);
    SubSlice(FileOf(h, parts), HEADER_SIZE + i * ENTRY_SIZE, HEADER_SIZE + i * ENTRY_SIZE + ENTRY_SIZE, 0, FIELD_BYTES);
    EntryStarts(sections[i]);
    EntryReadsBack(FileOf(h, parts), HEADER_SIZE + i * ENTRY_SIZE, sections[i]);
  }

  lemma {:induction false} EntryStarts(e: Section)
    ensures PrintEntry(e)[0..FIELD_BYTES] == EntryFields(e)
  {
    hide EntryFields;
  }

  lemma {:induction false} InMiddle(a: bytes, b: bytes, c: bytes, lo: nat, hi: nat)
    requires lo <= hi <= |b|
    ensures (a + b + c)[|a| + lo..|a| + hi] == b[lo..hi]
  {
  }

  /** Every recorded section is where its payload is. */
  lemma {:induction false} PayloadInFile(h: Header, parts: seq<Part>, i: nat)
    requires |h.artifactId| <= ID_CAPACITY && DirectoryEnd(|parts|) + |Joined(parts)| < TWO_64 && i < |parts|
    ensures var e := SectionOf(parts, DirectoryEnd(|parts|), i);
      End(e) <= |FileOf(h, parts)| && SectionBytes(FileOf(h, parts), e) == parts[i].payload
  {
    hide PrintHeader, PrintDirectory;
    PrefixLength(parts, i);
    JoinedSlice(parts, i);
    var front := PrintHeader(h) + PrintDirectory(SectionsOf(parts, DirectoryEnd(|parts|)));
    var at := |Joined(parts[..i])|;
    InMiddle(front, Joined(parts), [], at, at + |parts[i].payload|);
    assert front + Joined(parts) + [] == FileOf(h, parts);
  }

  lemma {:induction false} JoinedSlice(parts: seq<Part>, i: nat)
    requires i < |parts|
    ensures |Joined(parts[..i])| + |parts[i].payload| <= |Joined(parts)|
    ensures Joined(parts)[|Joined(parts[..i])|..|Joined(parts[..i])| + |parts[i].payload|] == parts[i].payload
    decreases |parts|
  {
    PrefixLength(parts, i);
    var n := |parts| - 1;
    if i < n {
      var front := parts[..n];
      assert front[..i] == parts[..i];
      JoinedSlice(front, i);
      var at := |Joined(parts[..i])|;
      assert Joined(parts)[at..at + |parts[i].payload|] == Joined(front)[at..at + |parts[i].payload|];
    } else {
      assert parts[..i] == parts[..n];
    }
  }

  /** Known types and shards, and one part for each of them. */
  ghost predicate GoodParts(parts: seq<Part>, shardCount: nat) {
    && (forall i :: 0 <= i < |parts| ==>
          KnownKind(parts[i].kind) && (parts[i].shardId == GLOBAL_SHARD || parts[i].shardId < shardCount))
    && (forall i, j :: 0 <= i < j < |parts| ==> (parts[i].kind, parts[i].shardId) != (parts[j].kind, parts[j].shardId))
  }

  lemma {:induction false} SectionsInOrder(parts: seq<Part>, start: nat, i: nat, j: nat)
    requires start + |Joined(parts)| < TWO_64 && i < j < |parts|
    ensures End(SectionOf(parts, start, i)) <= SectionOf(parts, start, j).offset
  {
    PrefixLength(parts, i);
    JoinedGrows(parts, i + 1, j);
  }

  lemma {:induction false} JoinedGrows(parts: seq<Part>, i: nat, j: nat)
    requires i <= j <= |parts|
    ensures |Joined(parts[..i])| <= |Joined(parts[..j])|
    decreases j - i
  {
    if i < j {
      JoinedGrows(parts, i, j - 1);
      assert parts[..j][..j - 1] == parts[..j - 1];
    }
  }

  /** A file of good parts passes every check on its directory under some sort; empty parts included. */
  lemma {:induction false} WrittenDirectoryOk(h: Header, parts: seq<Part>)
    requires |h.artifactId| <= ID_CAPACITY && DirectoryEnd(|parts|) + |Joined(parts)| < TWO_64
    requires GoodParts(parts, h.shardCount) && h.sectionCount == |parts| && DirectoryEnd(|parts|) <= TWO_32
    ensures DirectoryOk(FileOf(h, parts), h)
    ensures var sections := Entries(FileOf(h, parts), |parts|);
      NonOverlapping(sections, DirectoryEnd(|parts|)) && DistinctSections(sections)
  {
    hide PrintHeader, PrintDirectory, Joined, Fnv.Fnv1a64, FileOf, Entries;
    var s, start := FileOf(h, parts), DirectoryEnd(|parts|);
    DirectoryReadsBack(h, parts);
    var sections := SectionsOf(parts, start);
    forall i | 0 <= i < |parts|
      ensures EntryOk(sections[i], h.shardCount, |s|) && start <= sections[i].offset
      ensures Fnv.Fnv1a64(SectionBytes(s, sections[i])) == sections[i].checksum
    {
      PayloadInFile(h, parts, i);
    }
    forall i, j | 0 <= i < j < |parts|
      ensures End(sections[i]) <= sections[j].offset
      ensures SectionKey(sections[i]) != SectionKey(sections[j])
    {
      SectionsInOrder(parts, start, i, j);
    }
  }

  /** Every sort passes if no part is empty; not so if an empty part is followed by one with content. */
  lemma {:induction false} TiesOfParts(parts: seq<Part>, start: nat)
    requires start + |Joined(parts)| < TWO_64
    ensures (forall i :: 0 <= i < |parts| ==> parts[i].payload != []) ==> NoEmptyTie(SectionsOf(parts, start))
    ensures forall i :: 0 <= i < |parts| - 1 && parts[i].payload == [] && parts[i + 1].payload != [] ==>
      !NoEmptyTie(SectionsOf(parts, start))
  {
    hide Joined, Fnv.Fnv1a64;
    var sections := SectionsOf(parts, start);
    forall i | 0 <= i < |parts| - 1 && parts[i].payload == [] && parts[i + 1].payload != []
      ensures !NoEmptyTie(sections)
    {
      PrefixLength(parts, i);
      assert sections[i].offset == sections[i + 1].offset;
    }
  }

  /** The reader finds the payload of every part under its type and shard. */
  lemma {:induction false} PartIsFound(h: Header, parts: seq<Part>, i: nat)
    requires |h.artifactId| <= ID_CAPACITY && DirectoryEnd(|parts|) + |Joined(parts)| < TWO_64
    requires GoodParts(parts, h.shardCount) && h.sectionCount == |parts| && i < |parts|
      && DirectoryEnd(|parts|) <= TWO_32
    ensures var s := FileOf(h, parts);
      DirectoryEnd(|parts|) <= |s|
      && var found := FindSection(Entries(s, |parts|), parts[i].kind, parts[i].shardId);
         found.Some? && End(found.value) <= |s| && SectionBytes(s, found.value) == parts[i].payload
  {
    hide PrintHeader, PrintDirectory, Joined, Fnv.Fnv1a64, FileOf, Entries, FindSection, DirectoryOk, NonOverlapping;
    WrittenDirectoryOk(h, parts);
    DirectoryReadsBack(h, parts);
    PayloadInFile(h, parts, i);
    FindIsUnambiguous(Entries(FileOf(h, parts), |parts|), i);
  }

  /** And it finds nothing under a type and shard that no part has. */
  lemma {:induction false} PartIsMissing(h: Header, parts: seq<Part>, kind: u32, shardId: u32)
    requires |h.artifactId| <= ID_CAPACITY && DirectoryEnd(|parts|) + |Joined(parts)| < TWO_64
    requires DirectoryEnd(|parts|) <= TWO_32
    requires forall i :: 0 <= i < |parts| ==> (parts[i].kind, parts[i].shardId) != (kind, shardId)
    ensures DirectoryEnd(|parts|) <= |FileOf(h, parts)|
    ensures FindSection(Entries(FileOf(h, parts), |parts|), kind, shardId).None?
  {
    hide PrintHeader, PrintDirectory, Joined, Fnv.Fnv1a64, FileOf, Entries, FindSection;
    DirectoryReadsBack(h, parts);
  }

  // ---- Writing in place --------------------------------------------------------------------------

  /** The header's fields over the front of a file. */
  function PutHeader(base: bytes, h: Header): (r: bytes)
    requires |h.artifactId| <= ID_CAPACITY && HEADER_SIZE <= |base|
    ensures |r| == |base|
  {
    Put(Put(base, 0, HeaderFront(h)), 48, HeaderBack(h))
  }

  /** Where n entries can be written: the unwritten part of the last one need not be there. */
  predicate RoomFor(n: nat, size: nat) {
    n > 0 ==> HEADER_SIZE + (n - 1) * ENTRY_SIZE + FIELD_BYTES <= size
  }

  function PutEntries(base: bytes, sections: seq<Section>): (r: bytes)
    requires RoomFor(|sections|, |base|)
    ensures |r| == |base|
  {
    if sections == [] then base
    else
      var n := |sections| - 1;
      Put(PutEntries(base, sections[..n]), HEADER_SIZE + n * ENTRY_SIZE, EntryFields(sections[n]))
  }

  /** Header and directory over the bytes of base, payloads included. */
  function FileOver(h: Header, sections: seq<Section>, base: bytes): (r: bytes)
    requires |h.artifactId| <= ID_CAPACITY && HEADER_SIZE <= |base| && RoomFor(|sections|, |base|)
    ensures |r| == |base|
  {
    PutEntries(PutHeader(base, h), sections)
  }

  lemma {:induction false} EntryPut(base: bytes, sections: seq<Section>, i: nat)
    requires RoomFor(|sections|, |base|) && i < |sections|
    ensures HEADER_SIZE + i * ENTRY_SIZE + FIELD_BYTES <= |base|
    ensures PutEntries(base, sections)[HEADER_SIZE + i * ENTRY_SIZE..HEADER_SIZE + i * ENTRY_SIZE + FIELD_BYTES]
      == EntryFields(sections[i])
    decreases |sections|
  {
    hide EntryFields, Put;
    var n := |sections| - 1;
    var lo, hi := HEADER_SIZE + i * ENTRY_SIZE, HEADER_SIZE + i * ENTRY_SIZE + FIELD_BYTES;
    PutThere(PutEntries(base, sections[..n]), HEADER_SIZE + n * ENTRY_SIZE, EntryFields(sections[n]), lo, hi);
    if i < n {
      EntryPut(base, sections[..n], i);
    }
  }

  lemma {:induction false} OutsideDirectory(base: bytes, sections: seq<Section>, lo: nat, hi: nat)
    requires RoomFor(|sections|, |base|) && lo <= hi <= |base| && (hi <= HEADER_SIZE || DirectoryEnd(|sections|) <= lo)
    ensures PutEntries(base, sections)[lo..hi] == base[lo..hi]
    decreases |sections|
  {
    hide EntryFields, Put;
    if sections != [] {
      var n := |sections| - 1;
      PutThere(PutEntries(base, sections[..n]), HEADER_SIZE + n * ENTRY_SIZE, EntryFields(sections[n]), lo, hi);
      OutsideDirectory(base, sections[..n], lo, hi);
    }
  }

  /** Header and entries read back whatever lies beneath; the bytes behind the directory are those of base. */
  lemma {:induction false} OverReadsBack(h: Header, sections: seq<Section>, base: bytes, i: nat)
    requires |h.artifactId| <= ID_CAPACITY && HEADER_SIZE <= |base| && RoomFor(|sections|, |base|)
    ensures StartsWithHeader(FileOver(h, sections, base), h)
    ensures i < |sections| && HEADER_SIZE + i * ENTRY_SIZE + ENTRY_SIZE <= |base| ==>
      EntryAt(FileOver(h, sections, base), HEADER_SIZE + i * ENTRY_SIZE) == sections[i]
    ensures DirectoryEnd(|sections|) <= |base| ==>
      FileOver(h, sections, base)[DirectoryEnd(|sections|)..] == base[DirectoryEnd(|sections|)..]
  {
    hide HeaderFront, HeaderBack, EntryFields, PutEntries, EntryAt, Put;
    var s, headed := FileOver(h, sections, base), PutHeader(base, h);
    OutsideDirectory(headed, sections, 0, 44);
    OutsideDirectory(headed, sections, 48, 68 + |h.artifactId|);
    PutThere(base, 0, HeaderFront(h), 0, 0);
    PutThere(Put(base, 0, HeaderFront(h)), 48, HeaderBack(h), 0, 44);
    if i < |sections| && HEADER_SIZE + i * ENTRY_SIZE + ENTRY_SIZE <= |base| {
      EntryPut(headed, sections, i);
      EntryReadsBack(s, HEADER_SIZE + i * ENTRY_SIZE, sections[i]);
    }
    if DirectoryEnd(|sections|) <= |base| {
      OutsideDirectory(headed, sections, DirectoryEnd(|sections|), |base|);
      PutThere(base, 0, HeaderFront(h), DirectoryEnd(|sections|), |base|);
      PutThere(Put(base, 0, HeaderFront(h)), 48, HeaderBack(h), DirectoryEnd(|sections|), |base|);
    }
  }

  /** Over zeros the writes give header, directory and payloads. */
  lemma {:induction false} OverZeros(h: Header, sections: seq<Section>, tail: bytes)
    requires |h.artifactId| <= ID_CAPACITY
    ensures FileOver(h, sections, Zeros(DirectoryEnd(|sections|)) + tail)
      == PrintHeader(h) + PrintDirectory(sections) + tail
  {
    hide HeaderFront, HeaderBack, PrintDirectory, PutEntries;
    var n := |sections| * ENTRY_SIZE;
    var base := Zeros(DirectoryEnd(|sections|)) + tail;
    var front := Put(base, 0, HeaderFront(h));
    assert front == HeaderFront(h) + Zeros(4) + (Zeros(80 + n) + tail);
    var headed := Put(front, 48, HeaderBack(h));
    assert headed == HeaderFront(h) + Zeros(4) + HeaderBack(h) + (Zeros(60 - |h.artifactId| + n) + tail);
    assert Zeros(60 - |h.artifactId| + n) == Zeros(60 - |h.artifactId|) + Zeros(n);
    assert headed == PrintHeader(h) + (Zeros(n) + tail);
    EntriesOverZeros(PrintHeader(h), sections, |sections|, tail);
    assert sections[..|sections|] == sections;
    assert headed == PrintHeader(h) + Zeros(n) + tail;
    assert Zeros(0) == [];
    assert PrintHeader(h) + PrintDirectory(sections) + Zeros(0) + tail
      == PrintHeader(h) + PrintDirectory(sections) + tail;
  }

  lemma {:induction false} EntriesOverZeros(head: bytes, sections: seq<Section>, i: nat, tail: bytes)
    requires |head| == HEADER_SIZE && i <= |sections|
    ensures PutEntries(head + Zeros(|sections| * ENTRY_SIZE) + tail, sections[..i])
         == head + PrintDirectory(sections[..i]) + Zeros((|sections| - i) * ENTRY_SIZE) + tail
    decreases i
  {
    hide EntryFields;
    if i == 0 {
      assert sections[..0] == [] && head + [] == head;
    } else {
      EntriesOverZeros(head, sections, i - 1, tail);
      assert sections[..i][..i - 1] == sections[..i - 1];
      OneMoreEntry(head + PrintDirectory(sections[..i - 1]), (|sections| - i + 1) * ENTRY_SIZE, tail, sections[i - 1]);
      assert head + PrintDirectory(sections[..i])
        == head + PrintDirectory(sections[..i - 1]) + PrintEntry(sections[i - 1]);
    }
  }

  lemma {:induction false} OneMoreEntry(done: bytes, n: nat, tail: bytes, e: Section)
    requires ENTRY_SIZE <= n
    ensures Put(done + Zeros(n) + tail, |done|, EntryFields(e)) == done + PrintEntry(e) + Zeros(n - ENTRY_SIZE) + tail
  {
    hide EntryFields;
    assert Zeros(n) == Zeros(FIELD_BYTES) + Zeros(32) + Zeros(n - ENTRY_SIZE);
    assert done + Zeros(n) + tail == done + (Zeros(FIELD_BYTES) + (Zeros(32) + Zeros(n - ENTRY_SIZE) + tail));
    assert Put(done + Zeros(n) + tail, |done|, EntryFields(e))
      == done + (EntryFields(e) + (Zeros(32) + Zeros(n - ENTRY_SIZE) + tail));
  }
}
