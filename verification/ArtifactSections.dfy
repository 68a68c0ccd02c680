/** The source progress section of an artifact, src/artifact/artifact_{format,writer}.cc. */
module ArtifactSections {
  import opened Basics
  import opened ByteIO
  import opened FrameReader
  import opened SectionCodec

  // ---- Source progress ---------------------------------------------------------------------------

  datatype SourceProgress = SourceProgress(topic: bytes, partition: i32, checkpoint: i64, highWatermark: i64)

  predicate ValidProgress(p: SourceProgress) {
    p.topic != [] && p.partition >= 0 && p.checkpoint >= 0 && p.highWatermark >= p.checkpoint
  }

  function TakeSigned(s: bytes, w: nat): (r: Result<Taken<int>>)
    ensures r.Ok? ==> InSigned(r.get.value, w)
    ensures r.Err? ==> r.code == InvalidArgument
  {
    var raw :- TakeInt(s, w);
    Ok(Taken(ToSigned(raw.value, w), raw.rest))
  }

  function TakeProgress(s: bytes): (r: Result<Taken<SourceProgress>>)
    ensures r.Err? ==> r.code == InvalidArgument
  {
    PowersOf256();
    var topic :- TakeBytes(s, 4);
    var partition :- TakeSigned(topic.rest, 4);
    var checkpoint :- TakeSigned(partition.rest, 8);
    var high :- TakeSigned(checkpoint.rest, 8);
    Ok(Taken(SourceProgress(topic.value, partition.value, checkpoint.value, high.value), high.rest))
  }

  function PrintProgress(p: SourceProgress): bytes {
    PowersOf256();
    PrintBytes(p.topic, 4) + LE(ToUnsigned(p.partition, 4), 4) + LE(ToUnsigned(p.checkpoint, 8), 8)
    + LE(ToUnsigned(p.highWatermark, 8), 8)
  }

  lemma {:induction false} SignedTaken(v: int, w: nat, tail: bytes)
    requires InSigned(v, w)
    ensures TakeSigned(LE(ToUnsigned(v, w), w) + tail, w) == Ok(Taken(v, tail))
  {
    hide LE, TakeInt;
    IntTaken(ToUnsigned(v, w), w, tail);
    SignedRoundTrip(v, 0, w);
  }

  lemma {:induction false} ProgressTaken(p: SourceProgress, tail: bytes)
    requires |p.topic| < TWO_32
    ensures TakeProgress(PrintProgress(p) + tail) == Ok(Taken(p, tail))
  {
    hide LE, TakeSigned, TakeBytes, PrintBytes, ToUnsigned, Pow256;
    PowersOf256();
    var t3 := LE(ToUnsigned(p.highWatermark, 8), 8) + tail;
    var t2 := LE(ToUnsigned(p.checkpoint, 8), 8) + t3;
    var t1 := LE(ToUnsigned(p.partition, 4), 4) + t2;
    assert PrintProgress(p) + tail == PrintBytes(p.topic, 4) + t1;
    BytesTaken(p.topic, 4, t1);
    SignedTaken(p.partition, 4, t2);
    SignedTaken(p.checkpoint, 8, t3);
    SignedTaken(p.highWatermark, 8, tail);
  }

  function PartitionOf(p: SourceProgress): (bytes, int) {
    (p.topic, p.partition)
  }

  /** n entries, valid and of partitions not seen before. */
  function TakeEntries(s: bytes, n: nat, seen: set<(bytes, int)>): (r: Result<Taken<seq<SourceProgress>>>)
    ensures r.Err? ==> r.code == InvalidArgument
    decreases n
  {
    if n == 0 then Ok(Taken([], s))
    else
      var first :- TakeProgress(s);
      if !ValidProgress(first.value) || PartitionOf(first.value) in seen then Err(InvalidArgument)
      else
        var more :- TakeEntries(first.rest, n - 1, seen + {PartitionOf(first.value)});
        Ok(Taken([first.value] + more.value, more.rest))
  }

  function PrintEntries(ps: seq<SourceProgress>): bytes {
    if ps == [] then [] else PrintProgress(ps[0]) + PrintEntries(ps[1..])
  }

  /** What a build has to have for its progress section to be read back. */
  ghost predicate GoodEntries(ps: seq<SourceProgress>) {
    && (forall i :: 0 <= i < |ps| ==> ValidProgress(ps[i]) && |ps[i].topic| < TWO_32)
    && (forall i, j :: 0 <= i < j < |ps| ==> PartitionOf(ps[i]) != PartitionOf(ps[j]))
  }

  lemma {:induction false} EntriesTaken(ps: seq<SourceProgress>, seen: set<(bytes, int)>, tail: bytes)
    requires GoodEntries(ps) && forall i :: 0 <= i < |ps| ==> PartitionOf(ps[i]) !in seen
    ensures TakeEntries(PrintEntries(ps) + tail, |ps|, seen) == Ok(Taken(ps, tail))
  {
    hide TakeProgress, PrintProgress, ValidProgress;
    if ps == [] {
      assert PrintEntries(ps) + tail == tail;
    } else {
      EntriesTaken(ps[1..], seen + {PartitionOf(ps[0])}, tail);
      ProgressTaken(ps[0], PrintEntries(ps[1..]) + tail);
      assert PrintEntries(ps) + tail == PrintProgress(ps[0]) + (PrintEntries(ps[1..]) + tail);
      assert [ps[0]] + ps[1..] == ps;
    }
  }

  function ParseProgress(s: bytes): Result<seq<SourceProgress>> {
    var count :- TakeInt(s, 4);
    var entries :- TakeEntries(count.rest, count.value, {});
    if entries.rest != [] then Err(InvalidArgument) else Ok(entries.value)
  }

  function PrintProgressSection(ps: seq<SourceProgress>): bytes {
    LE(|ps|, 4) + PrintEntries(ps)
  }

  /** Valid source progress survives the file. */
  lemma {:induction false} ProgressReadsBack(ps: seq<SourceProgress>)
    requires |ps| < TWO_32 && GoodEntries(ps)
    ensures ParseProgress(PrintProgressSection(ps)) == Ok(ps)
  {
    hide LE, TakeInt, TakeEntries, PrintEntries, Pow256;
    PowersOf256();
    IntTaken(|ps|, 4, PrintEntries(ps));
    EntriesTaken(ps, {}, []);
    assert PrintEntries(ps) + [] == PrintEntries(ps);
  }

  /** Whatever bytes are accepted, the entries are valid and have a partition each. */
  lemma {:induction false} TakenEntriesAreGood(s: bytes, n: nat, seen: set<(bytes, int)>)
    requires TakeEntries(s, n, seen).Ok?
    ensures var ps := TakeEntries(s, n, seen).get.value;
      && |ps| == n && (forall i :: 0 <= i < n ==> ValidProgress(ps[i]) && PartitionOf(ps[i]) !in seen)
      && (forall i, j :: 0 <= i < j < n ==> PartitionOf(ps[i]) != PartitionOf(ps[j]))
    decreases n
  {
    hide TakeProgress, ValidProgress;
    if n > 0 {
      var first := TakeProgress(s).get;
      TakenEntriesAreGood(first.rest, n - 1, seen + {PartitionOf(first.value)});
    }
  }

  /** Exactly valid progress does. */
  lemma {:induction false} ProgressReadsBackExactly(ps: seq<SourceProgress>)
    requires |ps| < TWO_32 && forall i :: 0 <= i < |ps| ==> |ps[i].topic| < TWO_32
    ensures ParseProgress(PrintProgressSection(ps)) == Ok(ps) <==> GoodEntries(ps)
  {
    hide TakeEntries, ValidProgress, PrintProgressSection, TakeInt;
    if GoodEntries(ps) {
      ProgressReadsBack(ps);
    } else if ParseProgress(PrintProgressSection(ps)) == Ok(ps) {
      var count := TakeInt(PrintProgressSection(ps), 4).get;
      TakenEntriesAreGood(count.rest, count.value, {});
    }
  }

  method ReadProgress(reader: ByteReader) returns (r: Result<SourceProgress>)
    requires reader.Valid()
    modifies reader
    ensures reader.Valid() && Took(TakeProgress(old(reader.Rest())), r, reader.Rest())
  {
    hide TakeInt, TakeBytes, Pow256;
    PowersOf256();
    var topic := ReadBytes(reader, 4);
    if topic.Err? {
      return Err(topic.code);
    }
    var partition := ReadInt(reader, 4);
    if partition.Err? {
      return Err(partition.code);
    }
    var checkpoint := ReadInt(reader, 8);
    if checkpoint.Err? {
      return Err(checkpoint.code);
    }
    var high := ReadInt(reader, 8);
    if high.Err? {
      return Err(high.code);
    }
    r := Ok(SourceProgress(topic.get, ToSigned(partition.get, 4), ToSigned(checkpoint.get, 8), ToSigned(high.get, 8)));
  }

  method ParseSourceProgressSection(s: bytes) returns (r: Result<seq<SourceProgress>>)
    ensures r == ParseProgress(s)
  {
    hide TakeInt, TakeProgress, ValidProgress;
    var reader := new ByteReader(s);
    var count := ReadInt(reader, 4);
    if count.Err? {
      return Err(count.code);
    }
    ghost var entries := reader.Rest();
    var progress: seq<SourceProgress> := [];
    var seen: set<(bytes, int)> := {};
    ContinueOne([], SourceProgress([], 0, 0, 0), TakeEntries(entries, count.get, {}));
    for i := 0 to count.get
      invariant reader.Valid() && fresh(reader)
      invariant TakeEntries(entries, count.get, {})
        == Continue(progress, TakeEntries(reader.Rest(), count.get - i, seen))
    {
      var entry := ReadProgress(reader);
      if entry.Err? {
        return Err(entry.code);
      }
      if !ValidProgress(entry.get) {
        return Err(InvalidArgument);
      }
      if PartitionOf(entry.get) in seen {
        return Err(InvalidArgument);
      }
      seen := seen + {PartitionOf(entry.get)};
      ContinueOne(progress, entry.get, TakeEntries(reader.Rest(), count.get - i - 1, seen));
      progress := progress + [entry.get];
    }
    assert progress + [] == progress;
    if reader.Remaining() != 0 {
      return Err(InvalidArgument);
    }
    r := Ok(progress);
  }

  method SerializeSourceProgress(ps: seq<SourceProgress>) returns (r: Result<bytes>)
    ensures r.Ok? <==> |ps| < TWO_32 && forall i :: 0 <= i < |ps| ==> |ps[i].topic| < TWO_32
    ensures r == if r.Ok? then Ok(PrintProgressSection(ps)) else Err(InvalidArgument)
  {
    hide LE, PrintEntries, ToUnsigned, Pow256;
    PowersOf256();
    if |ps| >= TWO_32 {
      return Err(InvalidArgument);
    }
    var grown := LE(|ps|, 4);
    assert ps[..0] == [];
    PrintEntriesNone(grown);
    for i := 0 to |ps|
      invariant grown == LE(|ps|, 4) + PrintEntries(ps[..i])
      invariant forall k :: 0 <= k < i ==> |ps[k].topic| < TWO_32
    {
      PrintEntriesAppend(ps[..i], ps[i]);
      assert ps[..i] + [ps[i]] == ps[..i + 1];
      var topic := AppendBytes(grown, ps[i].topic, 4);
      if topic.Err? {
        return Err(topic.code);
      }
      ghost var before := grown;
      grown := topic.get + LE(ToUnsigned(ps[i].partition, 4), 4) + LE(ToUnsigned(ps[i].checkpoint, 8), 8)
               + LE(ToUnsigned(ps[i].highWatermark, 8), 8);
      assert grown == before + PrintProgress(ps[i]);
      assert grown == LE(|ps|, 4) + (PrintEntries(ps[..i]) + PrintProgress(ps[i]));
    }
    assert ps[..|ps|] == ps;
    r := Ok(grown);
  }

  lemma {:induction false} PrintEntriesNone(s: bytes)
    ensures s + PrintEntries([]) == s
  {
  }

  lemma {:induction false} PrintEntriesAppend(ps: seq<SourceProgress>, p: SourceProgress)
    ensures PrintEntries(ps + [p]) == PrintEntries(ps) + PrintProgress(p)
  {
    hide PrintProgress;
    if ps == [] {
      assert [p][1..] == [] && PrintEntries([p]) == PrintProgress(p) + PrintEntries([]);
    } else {
      assert (ps + [p])[1..] == ps[1..] + [p];
      PrintEntriesAppend(ps[1..], p);
      assert PrintProgress(ps[0]) + (PrintEntries(ps[1..]) + PrintProgress(p))
          == PrintProgress(ps[0]) + PrintEntries(ps[1..]) + PrintProgress(p);
    }
  }
}
