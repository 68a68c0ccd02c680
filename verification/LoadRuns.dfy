/**
 * The catch-up of a load, src/rebuild/async_load.cc:424-492: its runner seeks to the artifact's checkpoint and consumes
 * from there, so a shard is published only when its tables have taken what the artifact does not have.
 */
module LoadRuns {
  import opened Basics
  import opened Coordinator
  import L = AsyncLoad
  import C = CommitRuns

  function PartitionOf(p: L.PartitionProgress): PartitionKey {
    PartitionKey(p.topic, p.partition)
  }

  /** The runner begins where the artifact ends. */
  predicate BeginsAt(runner: C.State, artifact: seq<L.PartitionProgress>) {
    forall i :: 0 <= i < |artifact| ==>
      PartitionOf(artifact[i]) in runner.start && runner.start[PartitionOf(artifact[i])] == artifact[i].committed
  }

  /** CaptureSafeProgress reports the runner's committed offsets. */
  predicate Reports(observed: seq<L.PartitionProgress>, runner: C.State) {
    forall i :: 0 <= i < |observed| ==>
      PartitionOf(observed[i]) in runner.committed
        && observed[i].committed == runner.committed[PartitionOf(observed[i])]
  }

  /** Every message of the partition from the artifact's checkpoint up to limit has been applied. */
  ghost predicate ReplayedTo(runner: C.State, p: L.PartitionProgress, limit: int) {
    && PartitionOf(p) in runner.log
    && forall o :: o in runner.log[PartitionOf(p)] && p.committed <= o < limit ==>
          C.Delivery(PartitionOf(p), o) in runner.applied
  }

  /**
   * With a realtime layer nothing is published before every message between the artifact's checkpoint and any watermark
   * seen, the artifact's or one that a capture reported, has been applied to the tables that are published. The
   * runner's polls are any that stop at a failed message; its last capture was made after `polls`.
   */
  lemma {:induction false} PublishedIsReplayed(
      shardCount: nat, events: seq<L.Event>, start: C.State, polls: seq<C.Event>, i: nat)
    requires shardCount > 0 && L.Run(L.Initial(shardCount, true), events).published != []
    requires C.Inv(start) && C.AllowedRun(start, polls)
    requires var s := L.Run(L.Initial(shardCount, true), events);
      && BeginsAt(start, s.artifact) && i < |s.artifact|
      && (s.observed != [] ==> Reports(s.observed[|s.observed| - 1], C.Run(start, polls)))
    ensures var s, runner := L.Run(L.Initial(shardCount, true), events), C.Run(start, polls);
      && ReplayedTo(runner, s.artifact[i], s.artifact[i].highWatermark)
      && forall k :: 0 <= k < |s.observed| ==>
           && L.FindProgress(s.observed[k], s.artifact[i]).Ok?
           && ReplayedTo(runner, s.artifact[i], L.FindProgress(s.observed[k], s.artifact[i]).get.highWatermark)
  {
    hide L.Run, L.Initial, L.Counted, L.FindProgress, L.Behind, C.AllowedRun, C.Run, C.Inv, ReplayedTo;
    L.PublishedInOrder(shardCount, true, events);
    C.CommittedIsApplied(start, polls);
    C.InvIsSafe(C.Run(start, polls));
    StartKept(start, polls);
    var s, runner := L.Run(L.Initial(shardCount, true), events), C.Run(start, polls);
    var target := s.local.progress[i];
    TargetIsReplayed(s, runner, i);
    ReplayedBelow(runner, s.artifact[i], target.highWatermark, s.artifact[i].highWatermark);
    forall k | 0 <= k < |s.observed|
      ensures L.FindProgress(s.observed[k], s.artifact[i]).Ok?
      ensures ReplayedTo(runner, s.artifact[i], L.FindProgress(s.observed[k], s.artifact[i]).get.highWatermark)
    {
      assert L.Reported(s.observed[k], target);
      L.SameFound(s.observed[k], target, s.artifact[i]);
      var seen := L.FindProgress(s.observed[k], s.artifact[i]).get.highWatermark;
      ReplayedBelow(runner, s.artifact[i], target.highWatermark, seen);
    }
  }

  lemma {:induction false} StartKept(start: C.State, polls: seq<C.Event>)
    requires C.AllowedRun(start, polls)
    ensures C.Run(start, polls).start == start.start
    decreases |polls|
  {
    hide C.Fetched, C.Advance, C.Committed;
    if polls != [] {
      StartKept(C.Step(start, polls[0]), polls[1..]);
    }
  }

  /** The target is the highest watermark seen, and the committed offset has reached it. */
  lemma {:induction false} TargetIsReplayed(s: L.State, runner: C.State, i: nat)
    requires L.Covered(s) && i < |s.artifact| && !L.Behind(s.local.progress[i])
    requires C.KeysAgree(runner) && C.Safe(runner) && BeginsAt(runner, s.artifact)
    requires Reports(s.observed[|s.observed| - 1], runner)
    ensures ReplayedTo(runner, s.artifact[i], s.local.progress[i].highWatermark)
  {
    hide L.FindProgress, L.Reported;
    var last, target := s.observed[|s.observed| - 1], s.local.progress[i];
    assert L.HasCommitted(last, target);
    var found := L.FindProgress(last, target).get;
    assert found in last && L.SamePartition(found, target) && L.SamePartition(target, s.artifact[i]);
    var j :| 0 <= j < |last| && last[j] == found;
    var p := PartitionOf(s.artifact[i]);
    assert PartitionOf(last[j]) == p && runner.committed[p] == target.committed;
    assert C.AppliedBelow(runner, p, runner.committed[p]);
  }

  lemma {:induction false} ReplayedBelow(runner: C.State, p: L.PartitionProgress, limit: int, lower: int)
    requires ReplayedTo(runner, p, limit) && lower <= limit
    ensures ReplayedTo(runner, p, lower)
  {
  }
}
