/** Reads across shards, src/api/forward_index.cc. An exception of the original is an error here. */
module ForwardIndex {
  import opened Basics
  import opened RowStorage
  import opened RealtimeDelta
  import opened Shards
  import opened Snapshot

  datatype Options = Options(mode: Mode, shardCount: u32, hashSeed: u64, hashVersion: u32) {
    /** What the constructor of ForwardIndex insists on, as far as reads need it. */
    predicate Valid() {
      IsPowerOfTwo(shardCount)
    }
  }

  /** hash & (shard_count - 1) for a power of two. */
  function ShardFor(h: HashFn, options: Options, key: u64): (shard: nat)
    requires options.shardCount > 0
    ensures shard < options.shardCount
  {
    h(key, options.hashSeed, options.hashVersion) % options.shardCount
  }

  /** The states that a read finds in the shard directory. */
  datatype Directory = Directory(shards: seq<Option<ShardState>>) {
    ghost function Tables(): set<object> {
      set i, o | 0 <= i < |shards| && shards[i].Some? && o in shards[i].value.Tables() :: o
    }

    ghost predicate Sound()
      reads Tables()
    {
      forall i :: 0 <= i < |shards| && shards[i].Some? ==> shards[i].value.Sound()
    }

    /** The directory's answer for one key. */
    ghost function Answer(h: HashFn, options: Options, key: u64): Reading
      requires options.shardCount == |shards| > 0
      reads Tables()
    {
      var s := shards[ShardFor(h, options, key)];
      if s.None? then Ok(None) else s.value.Reads(h, key)
    }
  }

  method Get(h: HashFn, options: Options, d: Directory, key: u64) returns (r: Reading)
    requires options.shardCount == |d.shards| > 0 && d.Sound()
    ensures r == d.Answer(h, options, key)
  {
    var shard := d.shards[ShardFor(h, options, key)];
    if shard.None? {
      return Ok(None);
    }
    r := Shards.Get(h, shard.value, key);
  }

  /** The positions below n of the keys of a shard, in order. */
  ghost predicate PositionsOf(h: HashFn, options: Options, keys: seq<u64>, n: nat, shard: nat, positions: seq<nat>)
    requires options.shardCount > 0 && n <= |keys|
  {
    && (forall i :: 0 <= i < |positions| ==> positions[i] < n && ShardFor(h, options, keys[positions[i]]) == shard)
    && (forall i, j :: 0 <= i < j < |positions| ==> positions[i] < positions[j])
    && (forall p :: 0 <= p < n && ShardFor(h, options, keys[p]) == shard ==> p in positions)
  }

  /** The first loop of MGet. */
  method Scatter(h: HashFn, options: Options, keys: seq<u64>) returns (positions: seq<seq<nat>>)
    requires options.shardCount > 0
    ensures |positions| == options.shardCount
    ensures forall s :: 0 <= s < |positions| ==> PositionsOf(h, options, keys, |keys|, s, positions[s])
  {
    positions := seq(options.shardCount, _ => []);
    for i := 0 to |keys|
      invariant |positions| == options.shardCount
      invariant forall s :: 0 <= s < |positions| ==> PositionsOf(h, options, keys, i, s, positions[s])
    {
      var shard := ShardFor(h, options, keys[i]);
      ghost var was := positions;
      positions := positions[shard := positions[shard] + [i]];
      forall s | 0 <= s < |positions|
        ensures PositionsOf(h, options, keys, i + 1, s, positions[s])
      {
        assert PositionsOf(h, options, keys, i, s, was[s]);
        forall p | 0 <= p < i + 1 && ShardFor(h, options, keys[p]) == s
          ensures p in positions[s]
        {
          if p < i {
            assert p in was[s];
          } else {
            assert positions[s][|was[s]|] == p;
          }
        }
      }
    }
  }

  /** The rows of the shards before the given one are in place, and no other row is. */
  ghost predicate Gathered(
      h: HashFn, options: Options, keys: seq<u64>, answers: seq<Reading>, shard: nat, rows: seq<Option<Row>>)
    requires options.shardCount > 0
  {
    && |rows| == |keys| == |answers|
    && forall p :: 0 <= p < |keys| ==>
         if ShardFor(h, options, keys[p]) < shard then answers[p] == Ok(rows[p]) else rows[p] == None
  }

  /** The rows at the first n positions of a shard have been stored. */
  ghost predicate Storing(answers: seq<Reading>, before: seq<Option<Row>>, at: seq<nat>, n: nat, rows: seq<Option<Row>>)
    requires n <= |at|
  {
    && |rows| == |before| == |answers|
    && forall p :: 0 <= p < |rows| ==> if p in at[..n] then answers[p] == Ok(rows[p]) else rows[p] == before[p]
  }

  lemma {:induction false} StoreOne(
      answers: seq<Reading>, before: seq<Option<Row>>, at: seq<nat>, n: nat, rows: seq<Option<Row>>, row: Option<Row>)
    requires n < |at| && Storing(answers, before, at, n, rows) && at[n] < |rows| && answers[at[n]] == Ok(row)
    ensures Storing(answers, before, at, n + 1, rows[at[n] := row])
  {
    assert at[..n + 1] == at[..n] + [at[n]];
  }

  lemma {:induction false} StoredAll(
      h: HashFn, options: Options, keys: seq<u64>, answers: seq<Reading>, shard: nat, at: seq<nat>,
      before: seq<Option<Row>>, rows: seq<Option<Row>>)
    requires options.shardCount > 0 && Gathered(h, options, keys, answers, shard, before)
    requires PositionsOf(h, options, keys, |keys|, shard, at) && Storing(answers, before, at, |at|, rows)
    ensures Gathered(h, options, keys, answers, shard + 1, rows)
  {
    assert at[..|at|] == at;
  }

  /** What the directory answers for each key. */
  ghost predicate Answered(h: HashFn, options: Options, d: Directory, keys: seq<u64>, answers: seq<Reading>)
    requires options.shardCount == |d.shards| > 0
    reads d.Tables()
  {
    d.Sound() && |answers| == |keys| && forall i :: 0 <= i < |keys| ==> answers[i] == d.Answer(h, options, keys[i])
  }

  lemma {:induction false} AnsweredMeans(
      h: HashFn, options: Options, d: Directory, keys: seq<u64>, answers: seq<Reading>)
    requires options.shardCount == |d.shards| > 0 && Answered(h, options, d, keys, answers)
    ensures d.Sound() && |answers| == |keys| && forall i :: 0 <= i < |keys| ==>
      answers[i] == d.Answer(h, options, keys[i])
  {
  }

  /** One shard's keys: their answers in order, or the first error among them. */
  method ReadShard(
      h: HashFn, options: Options, d: Directory, keys: seq<u64>, ghost answers: seq<Reading>, shard: nat, at: seq<nat>)
    returns (r: Result<seq<Option<Row>>>)
    requires options.shardCount == |d.shards| > 0 && shard < |d.shards| && d.shards[shard].Some?
    requires Answered(h, options, d, keys, answers) && PositionsOf(h, options, keys, |keys|, shard, at)
    ensures Answered(h, options, d, keys, answers)
    ensures r.Ok? ==> |r.get| == |at| && forall i :: 0 <= i < |at| ==> answers[at[i]] == Ok(r.get[i])
    ensures r.Err? ==> exists i :: 0 <= i < |keys| && answers[i] == Err(r.code)
  {
    hide FirstHit, IsPowerOfTwo, Replay, TableGet, SnapshotGet, Sealed, AllBuilt;
    var shardKeys: seq<u64> := seq(|at|, i requires 0 <= i < |at| => keys[at[i]]);
    r := Shards.MGet(h, d.shards[shard].value, shardKeys);
    if r.Err? {
      ghost var i :| 0 <= i < |shardKeys| && d.shards[shard].value.Reads(h, shardKeys[i]) == Err(r.code);
      assert answers[at[i]] == Err(r.code);
    }
  }

  /**
   * MGet fails only if the read of some key would; otherwise every position, duplicates and misses included, has
   * exactly what Get answers for its key.
   */
  method MGet(h: HashFn, options: Options, d: Directory, keys: seq<u64>) returns (r: Result<seq<Option<Row>>>)
    requires options.shardCount == |d.shards| > 0 && d.Sound()
    ensures r.Ok? ==> |r.get| == |keys| && forall i :: 0 <= i < |keys| ==> d.Answer(h, options, keys[i]) == Ok(r.get[i])
    ensures r.Err? ==> exists i :: 0 <= i < |keys| && d.Answer(h, options, keys[i]) == Err(r.code)
  {
    hide Gathered, Storing, IsPowerOfTwo;
    var rows: seq<Option<Row>> := seq(|keys|, _ => None);
    var positions := Scatter(h, options, keys);
    ghost var answers := seq(|keys|, i requires 0 <= i < |keys| reads d.Tables() => d.Answer(h, options, keys[i]));
    assert Answered(h, options, d, keys, answers);
    hide Answered;
    NothingGathered(h, options, keys, answers, rows);
    for shard := 0 to options.shardCount
      invariant Gathered(h, options, keys, answers, shard, rows)
      invariant Answered(h, options, d, keys, answers)
    {
      var at := positions[shard];
      assert PositionsOf(h, options, keys, |keys|, shard, at);
      if at == [] || d.shards[shard].None? {
        NothingToGather(h, options, d, keys, answers, shard, at, rows);
      } else {
        var found := ReadShard(h, options, d, keys, answers, shard, at);
        if found.Err? {
          AnsweredMeans(h, options, d, keys, answers);
          return Err(found.code);
        }
        ghost var before := rows;
        NothingStored(h, options, keys, answers, shard, at, rows);
        for i := 0 to |at|
          invariant Storing(answers, before, at, i, rows) && |rows| == |keys|
          invariant Answered(h, options, d, keys, answers)
        {
          StoreOne(answers, before, at, i, rows, found.get[i]);
          rows := rows[at[i] := found.get[i]];
        }
        StoredAll(h, options, keys, answers, shard, at, before, rows);
      }
    }
    AllGathered(h, options, keys, answers, rows);
    AnsweredMeans(h, options, d, keys, answers);
    r := Ok(rows);
  }

  lemma {:induction false} NothingStored(
      h: HashFn, options: Options, keys: seq<u64>, answers: seq<Reading>, shard: nat, at: seq<nat>,
      rows: seq<Option<Row>>)
    requires options.shardCount > 0 && Gathered(h, options, keys, answers, shard, rows)
    ensures Storing(answers, rows, at, 0, rows) && |rows| == |keys|
  {
  }

  lemma {:induction false} NothingGathered(
      h: HashFn, options: Options, keys: seq<u64>, answers: seq<Reading>, rows: seq<Option<Row>>)
    requires options.shardCount > 0 && |rows| == |keys| == |answers| && forall p :: 0 <= p < |rows| ==> rows[p] == None
    ensures Gathered(h, options, keys, answers, 0, rows)
  {
  }

  lemma {:induction false} AllGathered(
      h: HashFn, options: Options, keys: seq<u64>, answers: seq<Reading>, rows: seq<Option<Row>>)
    requires options.shardCount > 0 && Gathered(h, options, keys, answers, options.shardCount, rows)
    ensures |rows| == |keys| == |answers| && forall p :: 0 <= p < |keys| ==> answers[p] == Ok(rows[p])
  {
  }

  lemma {:induction false} NothingToGather(
      h: HashFn, options: Options, d: Directory, keys: seq<u64>, answers: seq<Reading>, shard: nat, at: seq<nat>,
      rows: seq<Option<Row>>)
    requires options.shardCount == |d.shards| > 0 && shard < |d.shards| && Answered(h, options, d, keys, answers)
    requires Gathered(h, options, keys, answers, shard, rows) && PositionsOf(h, options, keys, |keys|, shard, at)
    requires at == [] || d.shards[shard].None?
    ensures Gathered(h, options, keys, answers, shard + 1, rows)
  {
    hide FirstHit, ShardState.Reads, ShardState.Sound;
  }
}
