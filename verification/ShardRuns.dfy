/** Runs of LayerRuns are runs of a shard: its cutovers are the Finish steps, and so its reads lose nothing. */
module ShardRuns {
  import opened Basics
  import opened Schema
  import opened RowStorage
  import opened RealtimeDelta
  import opened Snapshot
  import opened Shards
  import opened Compaction
  import R = LayerRuns

  ghost predicate TableIs(t: RealtimeDeltaAtomicTable, l: RowLayout, rows: seq<StoredRow>, capacity: nat)
    reads t, t.index, t.index.slots
  {
    t.Valid() && t.layout == Some(l) && t.rows == rows && t.index.capacity == capacity
  }

  /** The shard's layers are those of the run's state. */
  ghost predicate StandsFor(h: HashFn, shard: ShardState, l: RowLayout, s: R.State)
    reads shard.Tables()
  {
    && Holds(h, shard, l, s.compact, s.full)
    && shard.realtime.Some? && TableIs(shard.realtime.value, l, s.serving, s.capacity)
  }

  /** FinishDeltaCompaction with the snapshot that BuildCompactedDeltaSnapshot makes is the step FinishCompact. */
  lemma {:induction false} CompactionIsFinish(
      h: HashFn, shard: ShardState, l: RowLayout, s: R.State, t: RealtimeDeltaAtomicTable, b: OwnedBacking,
      generation: u64)
    requires R.Inv(s) && StandsFor(h, shard, l, s) && s.job.Compacting? && s.job.built.Some?
    requires TableIs(t, l, s.job.successor, s.capacity) && b.layout == l
    requires Serves(h, b.AsBacking(), Stacked(l, Encoded(Scanned(shard, s.job.boundary)), s.compact))
    ensures var f := FinishDeltaCompaction(
        FinishRequest(FullSnapshotWithRealtimeDeltaAndCompaction, shard, generation, Some(t), Some(b)));
      f.Ok? && StandsFor(h, f.get, l, R.Step(s, R.FinishCompact))
  {
    hide Serves, Stacked, AllFit, Replay, RealtimeDeltaAtomicTable.Valid, R.Current, R.IsNewest, Sealed;
    CompactionCutover(h, shard, l, s.compact, s.full, s.job.boundary, b, generation, Some(t));
    assert s.job.built.value == s.compact + Encoded(Scanned(shard, s.job.boundary));
  }

  /** What FinishFullRebase does with the snapshot that BuildRebasedFullSnapshot makes is the step FinishRebase. */
  lemma {:induction false} RebaseIsFinish(
      h: HashFn, shard: ShardState, l: RowLayout, s: R.State, t: RealtimeDeltaAtomicTable, b: OwnedBacking,
      generation: u64)
    requires R.Inv(s) && StandsFor(h, shard, l, s) && s.job.Rebasing? && s.job.built.Some?
    requires TableIs(t, l, s.job.successor, s.capacity) && b.layout == l
    requires Serves(h, b.AsBacking(), Stacked(l, s.compact, s.full))
    ensures shard.Shown() == map[] ==>
      StandsFor(h, ShardState(shard.shardId, generation, Some(t), None, Some(b.AsBacking())), l,
                R.Step(s, R.FinishRebase))
    ensures shard.Shown() != map[] ==> R.Step(s, R.FinishRebase) == s
  {
    hide Serves, Stacked, AllFit, Replay, RealtimeDeltaAtomicTable.Valid, R.Current, R.IsNewest, Sealed, R.Shows;
    RebaseCutover(h, shard, l, s.compact, s.full, b, generation, Some(t));
  }

  /**
   * A shard that stands for the state after a run of publishes, compactions and rebases with routed updates reads every
   * key without error, as the newest acknowledged update of it, or its base row.
   */
  lemma {:induction false} ReadsLoseNothing(
      h: HashFn, shard: ShardState, l: RowLayout, capacity: nat, compact: R.Rows, full: R.Rows, events: seq<R.Event>,
      key: u64)
    requires R.RoutedRun(R.Initial(capacity, compact, full), events)
    requires StandsFor(h, shard, l, R.Run(R.Initial(capacity, compact, full), events))
    ensures var s := R.Run(R.Initial(capacity, compact, full), events);
      var rows := R.Expected(s);
      (s.job.Idle? || s.job.mirrored ==>
        shard.Reads(h, key) == Ok(if key in rows then Some(Row(l, rows[key])) else None))
  {
    hide Serves, AllFit, Replay, RealtimeDeltaAtomicTable.Valid, R.Run, R.RoutedRun, R.Expected, R.IsNewest, Encoded;
    var s := R.Run(R.Initial(capacity, compact, full), events);
    R.NothingLost(capacity, compact, full, events);
    ReadsAreOverlay(h, shard, l, s.compact, s.full, key);
  }
}
