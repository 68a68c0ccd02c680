/** UpdateCoordinator, src/ingest/update_coordinator.cc: poll a batch, apply all of it, then commit past it. */
module Coordinator {
  import opened Basics
  import opened Applier

  datatype PartitionKey = PartitionKey(topic: bytes, partition: i32)

  /** The next offset to consume, for each partition of a batch. */
  type Checkpoint = map<PartitionKey, int>

  const I64_MAX: int := TWO_63 - 1

  function KeyOfMessage(m: Message): PartitionKey {
    PartitionKey(m.topic, m.partition)
  }

  function CheckPosition(m: Message, topic: bytes): Result<()> {
    if m.topic == [] then Err(InvalidArgument)
    else if m.topic != topic then Err(FailedPrecondition)
    else if m.partition < 0 || m.offset < 0 then Err(InvalidArgument)
    else Ok(())
  }

  method ValidateBatchTopicAndPositions(messages: seq<Message>, topic: bytes) returns (r: Result<()>)
    ensures r.Ok? <==> forall i :: 0 <= i < |messages| ==> CheckPosition(messages[i], topic).Ok?
    ensures r.Err? ==> exists i :: 0 <= i < |messages| && CheckPosition(messages[i], topic) == r
                                   && forall j :: 0 <= j < i ==> CheckPosition(messages[j], topic).Ok?
  {
    for i := 0 to |messages|
      invariant forall j :: 0 <= j < i ==> CheckPosition(messages[j], topic).Ok?
    {
      var checked := CheckPosition(messages[i], topic);
      if checked.Err? {
        return checked;
      }
    }
    r := Ok(());
  }

  /** p's entry is one past the highest offset that the messages have for p. */
  ghost predicate PastBatch(c: Checkpoint, messages: seq<Message>) {
    && (forall i :: 0 <= i < |messages| ==>
          KeyOfMessage(messages[i]) in c && messages[i].offset < c[KeyOfMessage(messages[i])])
    && (forall p :: p in c ==>
          exists i :: 0 <= i < |messages| && KeyOfMessage(messages[i]) == p && c[p] == messages[i].offset + 1)
  }

  method BuildCommitCheckpoint(messages: seq<Message>) returns (r: Result<Checkpoint>)
    ensures r.Err? <==> exists i :: 0 <= i < |messages| && messages[i].offset == I64_MAX
    ensures r.Err? ==> r.code == InvalidArgument
    ensures r.Ok? ==> PastBatch(r.get, messages) && forall p :: p in r.get ==> r.get[p] <= I64_MAX
  {
    var maxOffsets: map<PartitionKey, int> := map[];
    for i := 0 to |messages|
      invariant forall j :: 0 <= j < i ==> messages[j].offset != I64_MAX
      invariant forall j :: 0 <= j < i ==>
        KeyOfMessage(messages[j]) in maxOffsets && messages[j].offset <= maxOffsets[KeyOfMessage(messages[j])]
      invariant forall p :: p in maxOffsets ==>
        exists j :: 0 <= j < i && KeyOfMessage(messages[j]) == p && maxOffsets[p] == messages[j].offset
    {
      if messages[i].offset == I64_MAX {
        return Err(InvalidArgument);
      }
      var key := KeyOfMessage(messages[i]);
      if key !in maxOffsets || messages[i].offset > maxOffsets[key] {
        maxOffsets := maxOffsets[key := messages[i].offset];
      }
    }
    var checkpoint := map p | p in maxOffsets :: maxOffsets[p] + 1;
    assert forall i :: 0 <= i < |messages| ==> KeyOfMessage(messages[i]) in checkpoint;
    forall p | p in checkpoint
      ensures exists i ::
        0 <= i < |messages| && KeyOfMessage(messages[i]) == p && checkpoint[p] == messages[i].offset + 1
      ensures checkpoint[p] <= I64_MAX
    {
      var i :| 0 <= i < |messages| && KeyOfMessage(messages[i]) == p && maxOffsets[p] == messages[i].offset;
      assert checkpoint[p] == messages[i].offset + 1;
    }
    r := Ok(checkpoint);
  }

  class UpdateCoordinator {
    const applier: UpdateApplier
    const topic: bytes
    const timeoutMs: int
    const maxMessages: nat

    constructor (applier: UpdateApplier, topic: bytes, timeoutMs: int, maxMessages: nat)
      ensures this.applier == applier && this.topic == topic && this.timeoutMs == timeoutMs
        && this.maxMessages == maxMessages
    {
      this.applier, this.topic, this.timeoutMs, this.maxMessages := applier, topic, timeoutMs, maxMessages;
    }

    predicate ValidOptions() {
      topic != [] && timeoutMs >= 0 && maxMessages > 0
    }

    /**
     * `polled` and `committed` are what the consumer returns if it is asked. Some(c) says that Commit(c) was called:
     * then c is past every message of the batch, and every table has taken every message of it. Without a commit the
     * first `applied` messages have been taken.
     */
    method PollApplyCommitOnce(polled: Result<seq<Message>>, committed: Result<()>)
      returns (r: Result<()>, commit: Option<Checkpoint>, ghost applied: nat)
      requires applier.Valid()
      modifies applier.Footprint()
      ensures applier.Valid()
      ensures applied <= if polled.Ok? then |polled.get| else 0
      ensures forall i :: 0 <= i < applied ==> applier.HasTaken(applier.Shown(), polled.get[i])
      ensures commit.Some? ==>
        polled.Ok? && r == committed && PastBatch(commit.value, polled.get) && applied == |polled.get|
      ensures polled.Ok? && polled.get != [] && r.Ok? ==> commit.Some?
      // without messages to apply there is no commit
      ensures topic == [] || timeoutMs < 0 || maxMessages == 0 ==> r == Err(InvalidArgument) && commit.None?
      ensures topic != [] && timeoutMs >= 0 && maxMessages > 0 && (polled.Err? || polled.get == []) ==>
        r == (if polled.Err? then Err(polled.code) else Ok(())) && commit.None?
      // with messages there is one, unless some message is out of place or the applier did not accept one
      ensures topic != [] && timeoutMs >= 0 && maxMessages > 0 && polled.Ok? && polled.get != [] ==>
        commit.Some? || !AllInPlace(polled.get) || NotAccepted(polled.get, applied)
      ensures forall m :: applier.HasTaken(old(applier.Shown()), m) ==> applier.HasTaken(applier.Shown(), m)
    {
      hide UpdateApplier.Valid, UpdateApplier.HasTaken, UpdateApplier.Shown, Prepared, PastBatch, CheckPosition;
      hide AllInPlace, NotAccepted;
      commit, applied := None, 0;
      if !ValidOptions() {
        return Err(InvalidArgument), None, 0;
      }
      if polled.Err? {
        return Err(polled.code), None, 0;
      }
      if polled.get == [] {
        return Ok(()), None, 0;
      }
      r, commit, applied := ApplyThenCommit(polled.get, committed);
    }

    /** Messages of the coordinator's topic, at valid positions that have a successor. */
    ghost predicate AllInPlace(messages: seq<Message>) {
      forall i :: 0 <= i < |messages| ==>
        && messages[i].topic == topic && messages[i].partition >= 0 && 0 <= messages[i].offset < I64_MAX
    }

    lemma {:induction false} InPlaceMeans(messages: seq<Message>)
      requires topic != []
      ensures AllInPlace(messages) ==> forall i :: 0 <= i < |messages| ==>
        CheckPosition(messages[i], topic).Ok? && messages[i].offset != I64_MAX
    {
    }

    /** The first `applied` messages were applied, and the applier does not accept the next one. */
    ghost predicate NotAccepted(messages: seq<Message>, applied: nat)
      reads applier.Footprint()
    {
      applied < |messages| && !applier.Accepts(applier.Openings(messages[applied]), messages[applied])
    }

    /** The part of PollApplyCommitOnce behind a poll that returned messages. */
    method ApplyThenCommit(messages: seq<Message>, committed: Result<()>)
      returns (r: Result<()>, commit: Option<Checkpoint>, ghost applied: nat)
      requires applier.Valid() && topic != []
      modifies applier.Footprint()
      ensures applier.Valid()
      ensures applied <= |messages| && forall i :: 0 <= i < applied ==> applier.HasTaken(applier.Shown(), messages[i])
      ensures commit.Some? ==> r == committed && PastBatch(commit.value, messages) && applied == |messages|
      ensures r.Ok? ==> commit.Some?
      ensures commit.Some? || !AllInPlace(messages) || NotAccepted(messages, applied)
      ensures forall m :: applier.HasTaken(old(applier.Shown()), m) ==> applier.HasTaken(applier.Shown(), m)
    {
      hide UpdateApplier.Valid, UpdateApplier.HasTaken, UpdateApplier.Shown, Prepared, PastBatch, CheckPosition;
      commit, applied := None, 0;
      InPlaceMeans(messages);
      r := ValidateBatchTopicAndPositions(messages, topic);
      if r.Err? {
        return;
      }
      var checkpoint := BuildCommitCheckpoint(messages);
      if checkpoint.Err? {
        return Err(checkpoint.code), None, 0;
      }
      r, applied := applier.ApplyBatch(messages);
      if r.Err? {
        return;
      }
      r, commit := committed, Some(checkpoint.get);
    }
  }
}
