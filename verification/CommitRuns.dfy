/**
 * Runs of PollApplyCommitOnce over an in-order log, src/ingest/update_coordinator.cc:91-129. The consumer hands out
 * consecutive messages of each partition and remembers its position; a crash sends it back to the committed offsets.
 */
module CommitRuns {
  import opened Basics
  import opened Applier
  import opened RealtimeDelta
  import opened Coordinator

  datatype Delivery = Delivery(p: PartitionKey, offset: int)

  /** log has the offsets that exist in each partition; applied is everything ever applied. */
  datatype State = State(
    log: map<PartitionKey, set<int>>, start: map<PartitionKey, int>,
    position: map<PartitionKey, int>, committed: map<PartitionKey, int>,
    applied: set<Delivery>, healthy: bool)

  /** A poll whose first `applied` messages were applied, and whose commit, if all were, did or did not succeed. */
  datatype Event = Poll(batch: seq<Delivery>, applied: nat, commitOk: bool) | Reseek

  /** One past the last delivered offset of each partition. */
  function Advance(position: map<PartitionKey, int>, batch: seq<Delivery>): (r: map<PartitionKey, int>)
    ensures r.Keys == position.Keys
    ensures forall p :: p in position ==> position[p] <= r[p]
    decreases |batch|
  {
    if batch == [] then position
    else
      var m, last := Advance(position, batch[..|batch| - 1]), batch[|batch| - 1];
      if last.p in m && m[last.p] <= last.offset then m[last.p := last.offset + 1] else m
  }

  function Delivered(batch: seq<Delivery>): set<Delivery> {
    set d | d in batch
  }

  predicate InBatch(batch: seq<Delivery>, p: PartitionKey) {
    exists i :: 0 <= i < |batch| && batch[i].p == p
  }

  function Committed(s: State, position: map<PartitionKey, int>, batch: seq<Delivery>): map<PartitionKey, int>
    requires s.committed.Keys == position.Keys
  {
    map p | p in s.committed :: if InBatch(batch, p) then position[p] else s.committed[p]
  }

  ghost predicate KeysAgree(s: State) {
    s.log.Keys == s.start.Keys == s.position.Keys == s.committed.Keys
  }

  function Step(s: State, e: Event): State
    requires KeysAgree(s)
  {
    match e
    case Poll(batch, n, commitOk) =>
      var position := Advance(s.position, batch);
      var done := if n < |batch| then batch[..n] else batch;
      var t := s.(position := position, applied := s.applied + Delivered(done), healthy := s.healthy && n >= |batch|);
      if n >= |batch| && commitOk then t.(committed := Committed(s, position, batch)) else t
    case Reseek => s.(position := s.committed, healthy := true)
  }

  /** The batch continues the log where the consumer stands, without leaving out a message. */
  ghost predicate Fetched(s: State, batch: seq<Delivery>)
    requires KeysAgree(s)
  {
    forall i :: 0 <= i < |batch| ==>
      && batch[i].p in s.log && batch[i].offset in s.log[batch[i].p] && s.position[batch[i].p] <= batch[i].offset
      && forall o :: o in s.log[batch[i].p] && s.position[batch[i].p] <= o < batch[i].offset ==>
            Delivery(batch[i].p, o) in batch
  }

  /** No poll goes on after a message failed to apply. */
  ghost predicate Allowed(s: State, e: Event)
    requires KeysAgree(s)
  {
    e.Poll? ==> s.healthy && Fetched(s, e.batch)
  }

  ghost predicate AppliedBelow(s: State, p: PartitionKey, limit: int)
    requires p in s.log && p in s.start
  {
    forall o :: o in s.log[p] && s.start[p] <= o < limit ==> Delivery(p, o) in s.applied
  }

  /** Every message below a committed offset has been applied. */
  ghost predicate Safe(s: State)
    requires KeysAgree(s)
  {
    forall p :: p in s.committed ==> AppliedBelow(s, p, s.committed[p])
  }

  ghost predicate NoGap(s: State)
    requires KeysAgree(s)
  {
    forall p :: p in s.position ==> AppliedBelow(s, p, s.position[p])
  }

  ghost predicate Inv(s: State) {
    KeysAgree(s) && Safe(s) && (s.healthy ==> NoGap(s))
  }

  /** A position moves only past a delivered offset. */
  lemma {:induction false} AdvanceMeans(position: map<PartitionKey, int>, batch: seq<Delivery>, p: PartitionKey)
    requires p in position
    ensures var r := Advance(position, batch);
      r[p] == position[p] || exists i :: 0 <= i < |batch| && batch[i].p == p && r[p] == batch[i].offset + 1
    ensures forall i :: 0 <= i < |batch| && batch[i].p == p ==> batch[i].offset < Advance(position, batch)[p]
    decreases |batch|
  {
    if batch != [] {
      AdvanceMeans(position, batch[..|batch| - 1], p);
    }
  }

  /** Applying a whole batch closes the stretch between the old and the new position. */
  lemma {:induction false} WholeBatchApplied(s: State, batch: seq<Delivery>, n: nat, commitOk: bool, p: PartitionKey)
    requires KeysAgree(s) && Fetched(s, batch) && n >= |batch| && p in s.position
    ensures var t := Step(s, Poll(batch, n, commitOk));
      AppliedBelow(t, p, t.position[p]) <==> AppliedBelow(s, p, s.position[p])
  {
    var t := Step(s, Poll(batch, n, commitOk));
    AdvanceMeans(s.position, batch, p);
    if AppliedBelow(s, p, s.position[p]) {
      forall o | o in s.log[p] && s.start[p] <= o < t.position[p]
        ensures Delivery(p, o) in t.applied
      {
        if o >= s.position[p] {
          var i :| 0 <= i < |batch| && batch[i].p == p && t.position[p] == batch[i].offset + 1;
          assert o == batch[i].offset ==> batch[i] == Delivery(p, o);
        }
      }
    }
    if AppliedBelow(t, p, t.position[p]) {
      forall o | o in s.log[p] && s.start[p] <= o < s.position[p]
        ensures Delivery(p, o) in s.applied
      {
        assert forall i :: 0 <= i < |batch| ==> batch[i] != Delivery(p, o);
      }
    }
  }

  lemma {:induction false} StepKeepsInv(s: State, e: Event)
    requires Inv(s) && Allowed(s, e)
    ensures Inv(Step(s, e))
  {
    var t := Step(s, e);
    assert KeysAgree(t);
    forall p | p in t.committed
      ensures AppliedBelow(t, p, t.committed[p])
      ensures t.healthy ==> AppliedBelow(t, p, t.position[p])
    {
      assert AppliedBelow(s, p, s.committed[p]) && (s.healthy ==> AppliedBelow(s, p, s.position[p]));
      if e.Poll? && e.applied >= |e.batch| {
        WholeBatchApplied(s, e.batch, e.applied, e.commitOk, p);
      }
    }
  }

  // ---- The coordinator takes these steps ---------------------------------------------------------

  function DeliveriesOf(messages: seq<Message>): (r: seq<Delivery>)
    ensures |r| == |messages|
  {
    seq(|messages|, i requires 0 <= i < |messages| => Delivery(KeyOfMessage(messages[i]), messages[i].offset))
  }

  /** The tables show what applied stands for; content has the message of every delivery. */
  ghost predicate AllTaken(
      applier: UpdateApplier, shown: map<RealtimeDeltaAtomicTable, map<u64, RowRef>>, content: map<Delivery, Message>,
      applied: set<Delivery>)
  {
    forall d :: d in applied ==> d in content && applier.HasTaken(shown, content[d])
  }

  /**
   * A call of PollApplyCommitOnce that met its contract is a step of this machine: the checkpoint it commits is the
   * machine's, and the tables have taken all that the machine counts as applied.
   */
  lemma {:induction false} PollIsStep(
      applier: UpdateApplier, before: map<RealtimeDeltaAtomicTable, map<u64, RowRef>>,
      after: map<RealtimeDeltaAtomicTable, map<u64, RowRef>>, content: map<Delivery, Message>, s: State,
      messages: seq<Message>, r: Result<()>, commit: Option<Checkpoint>, applied: nat)
    requires KeysAgree(s) && Fetched(s, DeliveriesOf(messages)) && AllTaken(applier, before, content, s.applied)
    requires forall i :: 0 <= i < |messages| ==>
      DeliveriesOf(messages)[i] in content && content[DeliveriesOf(messages)[i]] == messages[i]
    requires applied <= |messages| && forall i :: 0 <= i < applied ==> applier.HasTaken(after, messages[i])
    requires forall m :: applier.HasTaken(before, m) ==> applier.HasTaken(after, m)
    requires commit.Some? ==> applied == |messages| && PastBatch(commit.value, messages)
    requires messages != [] && r.Ok? ==> commit.Some?
    ensures var t := Step(s, Poll(DeliveriesOf(messages), applied, r.Ok?));
      && AllTaken(applier, after, content, t.applied)
      && t.committed == s.committed + if r.Ok? && commit.Some? then commit.value else map[]
  {
    hide UpdateApplier.HasTaken, PastBatch, Advance, Fetched;
    var batch := DeliveriesOf(messages);
    var t := Step(s, Poll(batch, applied, r.Ok?));
    forall d | d in t.applied
      ensures d in content && applier.HasTaken(after, content[d])
    {
      if d !in s.applied {
        var i :| 0 <= i < applied && batch[i] == d;
      }
    }
    if r.Ok? && commit.Some? {
      CheckpointIsAdvance(s, messages, commit.value);
    }
  }

  /** The checkpoint has exactly the positions that consuming the batch leads to. */
  lemma {:induction false} CheckpointIsAdvance(s: State, messages: seq<Message>, c: Checkpoint)
    requires KeysAgree(s) && Fetched(s, DeliveriesOf(messages)) && PastBatch(c, messages)
    ensures Committed(s, Advance(s.position, DeliveriesOf(messages)), DeliveriesOf(messages)) == s.committed + c
  {
    hide Advance, Fetched, PastBatch, InBatch, DeliveriesOf;
    forall p: PartitionKey
      ensures p in c ==> p in s.committed && Advance(s.position, DeliveriesOf(messages))[p] == c[p]
      ensures InBatch(DeliveriesOf(messages), p) <==> p in c
    {
      CheckpointAt(s, messages, c, p);
    }
  }

  lemma {:induction false} CheckpointAt(s: State, messages: seq<Message>, c: Checkpoint, p: PartitionKey)
    requires KeysAgree(s) && Fetched(s, DeliveriesOf(messages)) && PastBatch(c, messages)
    ensures InBatch(DeliveriesOf(messages), p) <==> p in c
    ensures p in c ==> p in s.committed && Advance(s.position, DeliveriesOf(messages))[p] == c[p]
  {
    hide Advance;
    var batch := DeliveriesOf(messages);
    if i :| 0 <= i < |batch| && batch[i].p == p {
      assert KeyOfMessage(messages[i]) == p;
    }
    if p in c {
      var i :| 0 <= i < |messages| && KeyOfMessage(messages[i]) == p && c[p] == messages[i].offset + 1;
      assert batch[i].p == p && s.position[p] <= batch[i].offset;
      AdvanceMeans(s.position, batch, p);
    }
  }

  ghost predicate AllowedRun(s: State, events: seq<Event>)
    decreases |events|
  {
    KeysAgree(s) && (events == [] || (Allowed(s, events[0]) && AllowedRun(Step(s, events[0]), events[1..])))
  }

  ghost function Run(s: State, events: seq<Event>): State
    requires AllowedRun(s, events)
    decreases |events|
  {
    if events == [] then s else Run(Step(s, events[0]), events[1..])
  }

  /**
   * Over any run in which polling stops at the first message that fails, until the consumer is sent back to the
   * committed offsets, every message between the start and a committed offset has been applied.
   */
  lemma {:induction false} CommittedIsApplied(s: State, events: seq<Event>)
    requires Inv(s) && AllowedRun(s, events)
    ensures Inv(Run(s, events)) && Safe(Run(s, events))
    decreases |events|
  {
    hide Inv;
    if events != [] {
      StepKeepsInv(s, events[0]);
      CommittedIsApplied(Step(s, events[0]), events[1..]);
    } else {
      InvIsSafe(s);
    }
  }

  lemma {:induction false} InvIsSafe(s: State)
    requires Inv(s)
    ensures KeysAgree(s) && Safe(s)
  {
  }

  lemma {:induction false} StartIsOk(log: map<PartitionKey, set<int>>, start: map<PartitionKey, int>)
    requires log.Keys == start.Keys
    ensures Inv(State(log, start, start, start, {}, true))
  {
  }

  /**
   * Going on after a failure is what must not happen: a committed batch is safe if and only if, in each of its
   * partitions, everything before the consumer's position was applied.
   */
  lemma {:induction false} CommitIsSafeExactly(s: State, batch: seq<Delivery>)
    requires KeysAgree(s) && Safe(s) && Fetched(s, batch)
    ensures Safe(Step(s, Poll(batch, |batch|, true))) <==>
      forall p :: p in s.position && InBatch(batch, p) ==> AppliedBelow(s, p, s.position[p])
  {
    var t := Step(s, Poll(batch, |batch|, true));
    forall p | p in s.position
      ensures InBatch(batch, p) ==> (AppliedBelow(t, p, t.committed[p]) <==> AppliedBelow(s, p, s.position[p]))
      ensures !InBatch(batch, p) ==> AppliedBelow(t, p, t.committed[p])
    {
      WholeBatchApplied(s, batch, |batch|, true, p);
      assert AppliedBelow(s, p, s.committed[p]);
    }
  }

  /** The failing case: the first of two messages fails, and the next poll commits past both. */
  lemma {:induction false} PollingOnLosesMessages(p: PartitionKey)
    ensures var s := State(map[p := {0, 1}], map[p := 0], map[p := 0], map[p := 0], {}, true);
      var failed := Step(s, Poll([Delivery(p, 0)], 0, false));
      var after := Step(failed, Poll([Delivery(p, 1)], 1, true));
      && Inv(s) && Fetched(s, [Delivery(p, 0)]) && Fetched(failed, [Delivery(p, 1)])
      && after.committed[p] == 2 && Delivery(p, 0) !in after.applied && !Safe(after)
  {
    var s := State(map[p := {0, 1}], map[p := 0], map[p := 0], map[p := 0], {}, true);
    var first, second := [Delivery(p, 0)], [Delivery(p, 1)];
    assert first[..0] == [] && second[..0] == [];
    assert Advance(s.position, first) == map[p := 1];
    var failed := Step(s, Poll(first, 0, false));
    assert Advance(failed.position, second) == map[p := 2];
    var after := Step(failed, Poll(second, 1, true));
    assert second[0].p == p && InBatch(second, p);
    assert 0 in after.log[p];
  }
}
