/** The section directory of an artifact and its checks, src/artifact/artifact_format.cc:285-355. */
module SectionDirectory {
  import opened Basics
  import opened ByteIO
  import opened Sorting
  import Fnv

  const HEADER_SIZE: nat := 128
  const ENTRY_SIZE: nat := 64
  const GLOBAL_SHARD: u32 := 0xffff_ffff

  datatype Section = Section(kind: u32, shardId: u32, offset: u64, length: u64, checksum: u64)

  const SCHEMA: u32 := 1
  const PROGRESS: u32 := 2
  const INDEX: u32 := 100
  const ROW_SLOTS: u32 := 101
  const ROW_ARENA: u32 := 102

  predicate KnownKind(kind: u32) {
    kind == SCHEMA || kind == PROGRESS || INDEX <= kind <= 106
  }

  function UnsignedAt(s: bytes, at: nat, w: nat): (v: nat)
    requires at + w <= |s|
    ensures v < Pow256(w)
  {
    FromLE(s[at..at + w])
  }

  function EntryAt(s: bytes, at: nat): Section
    requires at + ENTRY_SIZE <= |s|
  {
    PowersOf256();
    Section(UnsignedAt(s, at, 4), UnsignedAt(s, at + 4, 4), UnsignedAt(s, at + 8, 8), UnsignedAt(s, at + 16, 8),
            UnsignedAt(s, at + 24, 8))
  }

  function DirectoryEnd(n: nat): nat {
    HEADER_SIZE + n * ENTRY_SIZE
  }

  /** The parser's offset of entry i: all its operands have 32 bits. */
  function EntryOffset(i: nat): (at: nat)
    ensures at <= HEADER_SIZE + i * ENTRY_SIZE
    ensures DirectoryEnd(i) < TWO_32 ==> at == HEADER_SIZE + i * ENTRY_SIZE
  {
    (HEADER_SIZE + i * ENTRY_SIZE) % TWO_32
  }

  /** The n directory entries, as they are read. */
  function Entries(s: bytes, n: nat): (r: seq<Section>)
    requires DirectoryEnd(n) <= |s|
    ensures |r| == n
  {
    seq(n, i requires 0 <= i < n => EntryAt(s, EntryOffset(i)))
  }

  /** The first entry whose offset wraps around: it is read from the start of the file. */
  const WRAPPED_ENTRY: nat := 67_108_862

  lemma {:induction false} WrapsToMagic(n: nat)
    requires DirectoryEnd(n) > TWO_32
    ensures WRAPPED_ENTRY < n && EntryOffset(WRAPPED_ENTRY) == 0
  {
  }

  function SectionKey(e: Section): (u32, u32) {
    (e.kind, e.shardId)
  }

  predicate EntryOk(e: Section, shardCount: nat, size: nat) {
    KnownKind(e.kind) && (e.shardId == GLOBAL_SHARD || e.shardId < shardCount) && e.offset + e.length <= size
  }

  ghost predicate EntriesOk(sections: seq<Section>, shardCount: nat, size: nat) {
    && (forall i :: 0 <= i < |sections| ==> EntryOk(sections[i], shardCount, size))
    && (forall i, j :: 0 <= i < j < |sections| ==> SectionKey(sections[i]) != SectionKey(sections[j]))
  }

  method ReadEntries(s: bytes, n: nat, shardCount: nat) returns (r: Result<seq<Section>>)
    requires DirectoryEnd(n) <= |s|
    ensures r == if EntriesOk(Entries(s, n), shardCount, |s|) then Ok(Entries(s, n)) else Err(InvalidArgument)
  {
    hide EntryAt, EntryOk;
    var sections: seq<Section> := [];
    var seen: set<(u32, u32)> := {};
    for i := 0 to n
      invariant sections == Entries(s, n)[..i]
      invariant forall j :: 0 <= j < i ==> EntryOk(sections[j], shardCount, |s|)
      invariant forall j, k :: 0 <= j < k < i ==> SectionKey(sections[j]) != SectionKey(sections[k])
      invariant forall key :: key in seen <==> exists j :: 0 <= j < i && SectionKey(sections[j]) == key
    {
      var e := EntryAt(s, EntryOffset(i));
      assert e == Entries(s, n)[i];
      if !EntryOk(e, shardCount, |s|) {
        assert !EntryOk(Entries(s, n)[i], shardCount, |s|);
        return Err(InvalidArgument);
      }
      if SectionKey(e) in seen {
        var j :| 0 <= j < i && SectionKey(sections[j]) == SectionKey(e);
        assert SectionKey(Entries(s, n)[j]) == SectionKey(Entries(s, n)[i]);
        return Err(InvalidArgument);
      }
      seen := seen + {SectionKey(e)};
      sections := sections + [e];
    }
    assert sections == Entries(s, n);
    r := Ok(sections);
  }

  // ---- Overlap -----------------------------------------------------------------------------------

  function OffsetOf(e: Section): int {
    e.offset
  }

  function End(e: Section): nat {
    e.offset + e.length
  }

  predicate Separate(a: Section, b: Section) {
    End(a) <= b.offset || End(b) <= a.offset
  }

  /** std::sort on the offsets: some sorted permutation. Callers know no more than that about ties. */
  method SortByOffset(sections: seq<Section>) returns (sorted: seq<Section>)
    ensures IsSortOf(sections, sorted)
  {
    SortBySorted(OffsetOf, sections);
    sorted := SortBy(OffsetOf, sections);
  }

  /** Each section starts where the one before it has ended. */
  predicate AdjacentOk(sorted: seq<Section>, start: nat) {
    forall i :: 0 <= i < |sorted| ==> StartsAfter(sorted, start, i)
  }

  predicate StartsAfter(sorted: seq<Section>, start: nat, i: nat)
    requires i < |sorted|
  {
    (if i == 0 then start else End(sorted[i - 1])) <= sorted[i].offset
  }

  method CheckAdjacent(sorted: seq<Section>, start: nat) returns (ok: bool)
    ensures ok <==> AdjacentOk(sorted, start)
  {
    var previousEnd := start;
    for i := 0 to |sorted|
      invariant previousEnd == if i == 0 then start else End(sorted[i - 1])
      invariant forall k :: 0 <= k < i ==> StartsAfter(sorted, start, k)
    {
      assert StartsAfter(sorted, start, i) == (previousEnd <= sorted[i].offset);
      if sorted[i].offset < previousEnd {
        return false;
      }
      previousEnd := End(sorted[i]);
    }
    ok := true;
  }

  lemma {:induction false} AdjacentEnds(sorted: seq<Section>, start: nat, i: nat, j: nat)
    requires AdjacentOk(sorted, start) && i < j < |sorted|
    ensures start <= sorted[i].offset && End(sorted[i]) <= sorted[j].offset
    decreases j
  {
    AdjacentStarts(sorted, start, i);
    assert StartsAfter(sorted, start, j);
    if i < j - 1 {
      AdjacentEnds(sorted, start, i, j - 1);
    }
  }

  lemma {:induction false} AdjacentStarts(sorted: seq<Section>, start: nat, i: nat)
    requires AdjacentOk(sorted, start) && i < |sorted|
    ensures start <= sorted[i].offset
  {
    assert StartsAfter(sorted, start, i);
    if i > 0 {
      AdjacentStarts(sorted, start, i - 1);
    }
  }

  /** Sections after the directory, no two of which share a byte. */
  ghost predicate NonOverlapping(sections: seq<Section>, start: nat) {
    && (forall i :: 0 <= i < |sections| ==> start <= sections[i].offset)
    && (forall i, j :: 0 <= i < j < |sections| ==> Separate(sections[i], sections[j]))
  }

  predicate DistinctSections(sections: seq<Section>) {
    forall i, j :: 0 <= i < j < |sections| ==> SectionKey(sections[i]) != SectionKey(sections[j])
  }

  /** The adjacent check on any sorted copy proves the pairwise claim. */
  lemma {:induction false} AdjacentMeansApart(sections: seq<Section>, sorted: seq<Section>, start: nat)
    requires multiset(sorted) == multiset(sections) && AdjacentOk(sorted, start) && DistinctSections(sections)
    ensures NonOverlapping(sections, start)
  {
    hide AdjacentOk;
    forall i | 0 <= i < |sections|
      ensures start <= sections[i].offset
    {
      assert sections[i] in multiset(sorted);
      var a :| 0 <= a < |sorted| && sorted[a] == sections[i];
      AdjacentStarts(sorted, start, a);
    }
    forall i, j | 0 <= i < j < |sections|
      ensures Separate(sections[i], sections[j])
    {
      assert sections[i] in multiset(sorted) && sections[j] in multiset(sorted);
      var a :| 0 <= a < |sorted| && sorted[a] == sections[i];
      var b :| 0 <= b < |sorted| && sorted[b] == sections[j];
      assert SectionKey(sections[i]) != SectionKey(sections[j]);
      if a < b {
        AdjacentEnds(sorted, start, a, b);
      } else {
        AdjacentEnds(sorted, start, b, a);
      }
    }
  }

  /** No empty section shares its offset with a non-empty one. */
  ghost predicate NoEmptyTie(sections: seq<Section>) {
    forall i, j :: 0 <= i < j < |sections| && sections[i].offset == sections[j].offset ==>
      (sections[i].length == 0 <==> sections[j].length == 0)
  }

  /** What std::sort may return. */
  ghost predicate IsSortOf(sections: seq<Section>, sorted: seq<Section>) {
    multiset(sorted) == multiset(sections) && SortedBy(OffsetOf, sorted)
  }

  /** The check passes whatever the sort does with ties. */
  ghost predicate AlwaysPasses(sections: seq<Section>, start: nat) {
    forall sorted :: IsSortOf(sections, sorted) ==> AdjacentOk(sorted, start)
  }

  ghost predicate CanPass(sections: seq<Section>, start: nat) {
    exists sorted :: IsSortOf(sections, sorted) && AdjacentOk(sorted, start)
  }

  /**
   * The exact power of the check on sections of distinct types and shards: it can pass if and only if no two of them
   * share a byte, and then it passes under every sort if and only if no empty one ties with a non-empty one.
   */
  lemma {:induction false} SortDecidesOnlyTies(sections: seq<Section>, start: nat)
    requires DistinctSections(sections)
    ensures CanPass(sections, start) <==> NonOverlapping(sections, start)
    ensures AlwaysPasses(sections, start) <==> NonOverlapping(sections, start) && NoEmptyTie(sections)
  {
    hide AdjacentOk, NonOverlapping, NoEmptyTie, DistinctSections, IsSortOf;
    var emptyFirst, emptyLast := SortBy(EmptyFirst, sections), SortBy(EmptyLast, sections);
    TieSorts(sections, EmptyFirst);
    TieSorts(sections, EmptyLast);
    if NonOverlapping(sections, start) {
      EmptyFirstPasses(sections, emptyFirst, start);
    }
    forall sorted | IsSortOf(sections, sorted) && AdjacentOk(sorted, start)
      ensures NonOverlapping(sections, start)
    {
      SortsAreCopies(sections, sorted);
      AdjacentMeansApart(sections, sorted, start);
    }
    if AlwaysPasses(sections, start) {
      EmptyLastTells(sections, emptyLast, start);
    }
    if NonOverlapping(sections, start) && NoEmptyTie(sections) {
      forall sorted | IsSortOf(sections, sorted)
        ensures AdjacentOk(sorted, start)
      {
        UntiedPasses(sections, sorted, start);
      }
    }
  }

  function EmptyFirst(e: Section): int {
    2 * e.offset + if e.length == 0 then 0 else 1
  }

  function EmptyLast(e: Section): int {
    2 * e.offset + if e.length == 0 then 1 else 0
  }

  lemma {:induction false} SortsAreCopies(sections: seq<Section>, sorted: seq<Section>)
    requires IsSortOf(sections, sorted)
    ensures multiset(sorted) == multiset(sections)
  {
  }

  /** Sorting by offset and then by emptiness is a way of sorting by offset. */
  lemma {:induction false} TieSorts(sections: seq<Section>, key: Section -> int)
    requires key == EmptyFirst || key == EmptyLast
    ensures IsSortOf(sections, SortBy(key, sections)) && SortedBy(key, SortBy(key, sections))
  {
    SortBySorted(key, sections);
    var sorted := SortBy(key, sections);
    forall i, j | 0 <= i < j < |sorted|
      ensures OffsetOf(sorted[i]) <= OffsetOf(sorted[j])
    {
      assert key(sorted[i]) <= key(sorted[j]);
      assert key(sorted[i]) == EmptyFirst(sorted[i]) || key(sorted[i]) == EmptyLast(sorted[i]);
    }
  }

  /** Neighbours in a sorted copy are two sections, in bounds and separate. */
  lemma {:induction false} Neighbours(sections: seq<Section>, sorted: seq<Section>, start: nat, i: nat)
    requires IsSortOf(sections, sorted) && NonOverlapping(sections, start) && DistinctSections(sections) && i < |sorted|
    ensures start <= sorted[i].offset
    ensures i > 0 ==> Separate(sorted[i - 1], sorted[i]) && sorted[i - 1].offset <= sorted[i].offset
    ensures i > 0 && NoEmptyTie(sections) && sorted[i - 1].offset == sorted[i].offset ==>
      (sorted[i - 1].length == 0 <==> sorted[i].length == 0)
  {
    hide NoEmptyTie;
    assert sorted[i] in multiset(sections);
    var a :| 0 <= a < |sections| && sections[a] == sorted[i];
    if i > 0 {
      assert sorted[i - 1] in multiset(sections);
      var b :| 0 <= b < |sections| && sections[b] == sorted[i - 1];
      assert OffsetOf(sorted[i - 1]) <= OffsetOf(sorted[i]);
      SortedStaysDistinct(sections, sorted, i);
      assert a != b;
      assert if a < b then Separate(sections[a], sections[b]) else Separate(sections[b], sections[a]);
      if NoEmptyTie(sections) && sorted[i - 1].offset == sorted[i].offset {
        TiedAlike(sections, a, b);
      }
    }
  }

  lemma {:induction false} TiedAlike(sections: seq<Section>, a: nat, b: nat)
    requires NoEmptyTie(sections) && a < |sections| && b < |sections| && a != b
      && sections[a].offset == sections[b].offset
    ensures sections[a].length == 0 <==> sections[b].length == 0
  {
  }

  function KeyNumber(e: Section): int {
    e.kind * TWO_32 + e.shardId
  }

  lemma {:induction false} SortedStaysDistinct(sections: seq<Section>, sorted: seq<Section>, i: nat)
    requires multiset(sorted) == multiset(sections) && DistinctSections(sections) && 0 < i < |sorted|
    ensures sorted[i - 1] != sorted[i]
  {
    assert DistinctBy(KeyNumber, sections) by {
      forall a, b | 0 <= a < b < |sections|
        ensures KeyNumber(sections[a]) != KeyNumber(sections[b])
      {
        assert SectionKey(sections[a]) != SectionKey(sections[b]);
      }
    }
    DistinctPermuted(KeyNumber, sections, sorted);
    assert KeyNumber(sorted[i - 1]) != KeyNumber(sorted[i]);
  }

  lemma {:induction false} EmptyFirstPasses(sections: seq<Section>, sorted: seq<Section>, start: nat)
    requires IsSortOf(sections, sorted) && SortedBy(EmptyFirst, sorted)
    requires NonOverlapping(sections, start) && DistinctSections(sections)
    ensures AdjacentOk(sorted, start)
  {
    hide IsSortOf, NonOverlapping, DistinctSections, NoEmptyTie;
    forall i | 0 <= i < |sorted|
      ensures StartsAfter(sorted, start, i)
    {
      Neighbours(sections, sorted, start, i);
      if i > 0 {
        assert EmptyFirst(sorted[i - 1]) <= EmptyFirst(sorted[i]);
      }
    }
  }

  lemma {:induction false} UntiedPasses(sections: seq<Section>, sorted: seq<Section>, start: nat)
    requires IsSortOf(sections, sorted) && NonOverlapping(sections, start) && DistinctSections(sections)
    requires NoEmptyTie(sections)
    ensures AdjacentOk(sorted, start)
  {
    hide IsSortOf, NonOverlapping, DistinctSections, NoEmptyTie;
    forall i | 0 <= i < |sorted|
      ensures StartsAfter(sorted, start, i)
    {
      Neighbours(sections, sorted, start, i);
    }
  }

  /** A sort that puts empty sections last passes only if there is no tie with them. */
  lemma {:induction false} EmptyLastTells(sections: seq<Section>, sorted: seq<Section>, start: nat)
    requires IsSortOf(sections, sorted) && SortedBy(EmptyLast, sorted) && AdjacentOk(sorted, start)
    ensures NoEmptyTie(sections)
  {
    hide AdjacentOk;
    forall i, j | 0 <= i < |sections| && 0 <= j < |sections|
      ensures sections[i].offset == sections[j].offset && sections[j].length == 0 ==> sections[i].length == 0
    {
      if sections[i].offset == sections[j].offset && sections[j].length == 0 && sections[i].length != 0 {
        assert sections[i] in multiset(sorted) && sections[j] in multiset(sorted);
        var a :| 0 <= a < |sorted| && sorted[a] == sections[i];
        var b :| 0 <= b < |sorted| && sorted[b] == sections[j];
        assert EmptyLast(sorted[a]) < EmptyLast(sorted[b]);
        assert a < b;
        AdjacentEnds(sorted, start, a, b);
      }
    }
  }

  /** The smallest tie: an empty section at the start of another passes one order of the sort and fails the other. */
  lemma {:induction false} TiesAreAmbiguous(a: Section, b: Section, start: nat)
    requires a.offset == b.offset >= start && a.length == 0 < b.length && SectionKey(a) != SectionKey(b)
    ensures NonOverlapping([a, b], start)
    ensures IsSortOf([a, b], [a, b]) && AdjacentOk([a, b], start)
    ensures IsSortOf([a, b], [b, a]) && !AdjacentOk([b, a], start)
  {
    assert [a, b] == [a] + [b] && [b, a] == [b] + [a];
    assert !StartsAfter([b, a], start, 1);
  }

  // ---- Lengths -----------------------------------------------------------------------------------

  function TotalLength(sections: seq<Section>): nat {
    if sections == [] then 0 else sections[0].length + TotalLength(sections[1..])
  }

  lemma {:induction false} TotalSplit(sections: seq<Section>, i: nat)
    requires i < |sections|
    ensures TotalLength(sections) == sections[i].length + TotalLength(sections[..i] + sections[i + 1..])
  {
    if i == 0 {
      assert sections[..0] + sections[1..] == sections[1..];
    } else {
      TotalSplit(sections[1..], i - 1);
      var fewer := sections[..i] + sections[i + 1..];
      assert fewer[1..] == sections[1..][..i - 1] + sections[1..][i..];
    }
  }

  lemma {:induction false} TotalPermuted(sections: seq<Section>, others: seq<Section>)
    requires multiset(sections) == multiset(others)
    ensures TotalLength(sections) == TotalLength(others)
    decreases |sections|
  {
    if sections == [] {
      assert |multiset(others)| == 0;
    } else {
      assert sections[0] in multiset(others);
      var i :| 0 <= i < |others| && others[i] == sections[0];
      TotalSplit(others, i);
      var fewer := others[..i] + others[i + 1..];
      assert others == others[..i] + [others[i]] + others[i + 1..];
      assert sections == [sections[0]] + sections[1..];
      assert multiset(fewer) == multiset(others) - multiset{sections[0]};
      assert multiset(sections[1..]) == multiset(sections) - multiset{sections[0]};
      TotalPermuted(sections[1..], fewer);
    }
  }

  lemma {:induction false} AdjacentFit(sorted: seq<Section>, start: nat, size: nat)
    requires AdjacentOk(sorted, start) && start <= size && forall i :: 0 <= i < |sorted| ==> End(sorted[i]) <= size
    ensures TotalLength(sorted) <= size - start
    decreases |sorted|
  {
    if sorted != [] {
      assert StartsAfter(sorted, start, 0) && End(sorted[0]) <= size;
      forall i | 0 <= i < |sorted[1..]|
        ensures StartsAfter(sorted[1..], End(sorted[0]), i)
      {
        assert StartsAfter(sorted, start, i + 1);
      }
      AdjacentFit(sorted[1..], End(sorted[0]), size);
    }
  }

  // ---- Finding a section -------------------------------------------------------------------------

  function FindSection(sections: seq<Section>, kind: u32, shardId: u32): (r: Option<Section>)
    ensures r.Some? ==> r.value in sections && SectionKey(r.value) == (kind, shardId)
  {
    if sections == [] then None
    else if sections[0].kind == kind && sections[0].shardId == shardId then Some(sections[0])
    else FindSection(sections[1..], kind, shardId)
  }

  /** A section that is there is the one that is found. */
  lemma {:induction false} FindIsUnambiguous(sections: seq<Section>, i: nat)
    requires DistinctSections(sections) && i < |sections|
    ensures FindSection(sections, sections[i].kind, sections[i].shardId) == Some(sections[i])
  {
    if i > 0 {
      assert SectionKey(sections[0]) != SectionKey(sections[i]);
      FindIsUnambiguous(sections[1..], i - 1);
    }
  }

  lemma {:induction false} NotFound(sections: seq<Section>, kind: u32, shardId: u32)
    requires FindSection(sections, kind, shardId).None?
    ensures forall i :: 0 <= i < |sections| ==> SectionKey(sections[i]) != (kind, shardId)
  {
    if sections != [] {
      NotFound(sections[1..], kind, shardId);
    }
  }

  // ---- Checksums ---------------------------------------------------------------------------------

  function SectionBytes(s: bytes, e: Section): (r: bytes)
    requires End(e) <= |s|
    ensures |r| == e.length
  {
    s[e.offset..e.offset + e.length]
  }

  ghost predicate ChecksumsMatch(s: bytes, sections: seq<Section>)
    requires forall i :: 0 <= i < |sections| ==> End(sections[i]) <= |s|
  {
    forall i :: 0 <= i < |sections| ==> Fnv.Fnv1a64(SectionBytes(s, sections[i])) == sections[i].checksum
  }

  method CheckChecksums(s: bytes, sections: seq<Section>) returns (ok: bool)
    requires forall i :: 0 <= i < |sections| ==> End(sections[i]) <= |s|
    ensures ok <==> ChecksumsMatch(s, sections)
  {
    hide Fnv.Fnv1a64;
    for i := 0 to |sections|
      invariant forall j :: 0 <= j < i ==> Fnv.Fnv1a64(SectionBytes(s, sections[j])) == sections[j].checksum
    {
      if Fnv.Fnv1a64(SectionBytes(s, sections[i])) != sections[i].checksum {
        return false;
      }
    }
    ok := true;
  }
}
