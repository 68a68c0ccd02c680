/**
 * Runs of publishes, compactions and rebases of one shard, on the values that the layers hold: the published rows of
 * the tables, and the maps that the snapshots serve. One rebuild at a time; its caller routes the updates.
 */
module LayerRuns {
  import opened Basics
  import opened RowStorage
  import opened RealtimeDelta
  import opened Shards

  type Rows = map<u64, EncodedRow>

  /** mirrored: every update since the job began also went to the serving table. */
  datatype Job =
    | Idle
    | Compacting(boundary: nat, successor: seq<StoredRow>, built: Option<Rows>, mirrored: bool)
    | Rebasing(successor: seq<StoredRow>, built: Option<Rows>, mirrored: bool)

  /** base is what the snapshots held at first; acked and newest record the acknowledged updates. */
  datatype State = State(
    capacity: nat, serving: seq<StoredRow>, compact: Rows, full: Rows, job: Job,
    base: Rows, acked: seq<RowRef>, newest: map<u64, RowRef>)

  /** shut and shutNext: the key is shut out of the serving table and of the successor, as some capacities allow. */
  datatype Event =
    | Publish(ref: RowRef, mirror: bool, shut: bool, shutNext: bool)
    | Capture | BuildCompact | FinishCompact
    | BeginRebase | BuildRebase | FinishRebase
    | Abandon

  /** What reads of the shard return: Shards.ReadsAreOverlay. */
  function View(s: State): Rows {
    s.full + s.compact + Encoded(Replay(s.serving))
  }

  /** The newest acknowledged update of every key, or else its base row. */
  function Expected(s: State): Rows {
    s.base + Encoded(s.newest)
  }

  function Later(newest: map<u64, RowRef>, ref: RowRef): map<u64, RowRef> {
    if ref.key in newest && ClassifySourcePositionUpdate(newest[ref.key].position, ref.position) != Ok(Newer)
    then newest
    else newest[ref.key := ref]
  }

  function Acknowledge(s: State, ref: RowRef): State {
    s.(acked := s.acked + [ref], newest := Later(s.newest, ref))
  }

  /** Publish to the successor alone, or first to the serving table and then, if that went well, to the successor. */
  function PublishStep(s: State, e: Event): State
    requires e.Publish?
  {
    if s.job.Idle? then
      var (r, rows) := PublishRow(s.capacity, s.serving, e.ref, e.shut);
      if r.Ok? then Acknowledge(s.(serving := rows), e.ref) else s.(serving := rows)
    else if e.mirror then
      var (r, rows) := PublishRow(s.capacity, s.serving, e.ref, e.shut);
      if r.Ok? then ToSuccessor(s.(serving := rows), e.ref, e.shutNext) else s.(serving := rows)
    else ToSuccessor(s.(job := s.job.(mirrored := false)), e.ref, e.shutNext)
  }

  function ToSuccessor(s: State, ref: RowRef, shut: bool): State
    requires !s.job.Idle?
  {
    var (r, rows) := PublishRow(s.capacity, s.job.successor, ref, shut);
    if r.Ok? then Acknowledge(s.(job := s.job.(successor := rows)), ref) else s.(job := s.job.(successor := rows))
  }

  /** The rows visible up to the boundary over the compact layer, whatever was published since. */
  function Compacted(s: State, boundary: nat): Rows {
    s.compact + Encoded(Replay(s.serving[..if boundary < |s.serving| then boundary else |s.serving|]))
  }

  function Step(s: State, e: Event): State {
    match e
    case Publish(_, _, _, _) => PublishStep(s, e)
    case Capture => if s.job.Idle? then s.(job := Compacting(|s.serving|, [], None, true)) else s
    case BuildCompact =>
      (match s.job
       case Compacting(boundary, successor, _, mirrored) =>
         s.(job := Compacting(boundary, successor, Some(Compacted(s, boundary)), mirrored))
       case _ => s)
    case FinishCompact =>
      if s.job.Compacting? && s.job.built.Some? then
        s.(serving := s.job.successor, compact := s.job.built.value, job := Idle)
      else s
    case BeginRebase => if s.job.Idle? then s.(job := Rebasing([], None, true)) else s
    case BuildRebase =>
      (match s.job
       case Rebasing(successor, _, mirrored) => s.(job := Rebasing(successor, Some(s.full + s.compact), mirrored))
       case _ => s)
    case FinishRebase =>
      if s.job.Rebasing? && s.job.built.Some? && Replay(s.serving) == map[] then
        s.(serving := s.job.successor, compact := map[], full := s.job.built.value, job := Idle)
      else s
    case Abandon => s.(job := Idle)
  }

  // ---- What the environment must do --------------------------------------------------------------

  /**
   * Snapshots keep no positions. An update of a key that the table does not show must therefore be no older than
   * what was acknowledged for the key.
   */
  predicate Fresh(rows: seq<StoredRow>, newest: map<u64, RowRef>, ref: RowRef) {
    ref.key in Replay(rows) || ref.key !in newest || ref == newest[ref.key]
    || ClassifySourcePositionUpdate(newest[ref.key].position, ref.position) == Ok(Newer)
  }

  /** Updates after the boundary reach the successor; a job is dropped only if the serving table saw them all. */
  ghost predicate Routed(s: State, e: Event) {
    match e
    case Publish(ref, mirror, shut, shutNext) =>
      && GoodRef(ref)
      && (s.job.Idle? || s.job.mirrored ==> Fresh(s.serving, s.newest, ref))
      && (!s.job.Idle? ==> Fresh(s.job.successor, s.newest, ref))
      && (!s.job.Idle? && mirror && PublishRow(s.capacity, s.serving, ref, shut).0.Ok? ==>
            PublishRow(s.capacity, s.job.successor, ref, shutNext).0.Ok?)
    case Abandon => s.job.Idle? || s.job.mirrored
    case _ => true
  }

  ghost predicate RoutedRun(s: State, events: seq<Event>)
    decreases |events|
  {
    events == [] || (Routed(s, events[0]) && RoutedRun(Step(s, events[0]), events[1..]))
  }

  function Run(s: State, events: seq<Event>): State
    decreases |events|
  {
    if events == [] then s else Run(Step(s, events[0]), events[1..])
  }

  // ---- Invariant ---------------------------------------------------------------------------------

  /** A table over a lower layer shows every key as it should be. */
  ghost predicate Current(shown: map<u64, RowRef>, lower: Rows, newest: map<u64, RowRef>, base: Rows) {
    && Shows(shown, newest)
    && (forall k :: k in shown || k in lower <==> k in newest || k in base)
    && (forall k :: k in newest && k !in shown ==> k in lower && lower[k] == newest[k].encoded)
    && (forall k :: k in base && k !in newest ==> k in lower && lower[k] == base[k])
  }

  ghost predicate Shows(shown: map<u64, RowRef>, newest: map<u64, RowRef>) {
    forall k :: k in shown ==> k in newest && newest[k] == shown[k]
  }

  /** newest has the row with the highest offset among the acknowledged ones, for each of their keys. */
  ghost predicate IsNewest(newest: map<u64, RowRef>, acked: seq<RowRef>) {
    && (forall k :: k in newest ==> newest[k].key == k && newest[k] in acked && GoodRef(newest[k]))
    && (forall i :: 0 <= i < |acked| ==>
          acked[i].key in newest && AtLeast(newest[acked[i].key].position, acked[i].position))
  }

  ghost predicate JobOk(s: State) {
    match s.job
    case Idle => true
    case Compacting(boundary, successor, built, _) =>
      && boundary <= |s.serving| && Sealed(successor)
      && Current(Replay(successor), s.full + Compacted(s, boundary), s.newest, s.base)
      && (built.Some? ==> built.value == Compacted(s, boundary))
    case Rebasing(successor, built, _) =>
      && Sealed(successor) && Shows(Replay(successor), s.newest)
      && (Replay(s.serving) == map[] ==> Current(Replay(successor), s.full + s.compact, s.newest, s.base))
      && (built.Some? ==> built.value == s.full + s.compact)
  }

  ghost predicate Inv(s: State) {
    && Sealed(s.serving) && IsNewest(s.newest, s.acked) && JobOk(s)
    && (s.job.Idle? || s.job.mirrored ==> Current(Replay(s.serving), s.full + s.compact, s.newest, s.base))
  }

  lemma {:induction false} CurrentShows(shown: map<u64, RowRef>, lower: Rows, newest: map<u64, RowRef>, base: Rows)
    requires Current(shown, lower, newest, base)
    ensures lower + Encoded(shown) == base + Encoded(newest)
  {
  }

  lemma {:induction false} PublishedCurrent(
      capacity: nat, shown: map<u64, RowRef>, lower: Rows, newest: map<u64, RowRef>, base: Rows, ref: RowRef,
      shut: bool)
    requires Current(shown, lower, newest, base) && GoodRef(ref)
    requires ref.key in shown || ref.key !in newest || ref == newest[ref.key]
      || ClassifySourcePositionUpdate(newest[ref.key].position, ref.position) == Ok(Newer)
    ensures var (told, shown') := PublishTo(capacity, shown, ref, shut);
      && Current(shown', lower, if told.Ok? then Later(newest, ref) else newest, base)
      && (told.Ok? && ref.key in newest ==> ClassifySourcePositionUpdate(newest[ref.key].position, ref.position).Ok?)
  {
    hide ClassifySourcePositionUpdate, PublishTo, Later;
    CurrentUpdate(shown, lower, newest, base, ref);
    LaterCases(capacity, shown, newest, ref, shut);
    var (told, shown') := PublishTo(capacity, shown, ref, shut);
    if told.Ok? {
      assert Current(shown', lower, Later(newest, ref), base);
    } else {
      assert Current(shown', lower, newest, base);
    }
  }

  lemma {:induction false} CurrentUpdate(
      shown: map<u64, RowRef>, lower: Rows, newest: map<u64, RowRef>, base: Rows, ref: RowRef)
    requires Current(shown, lower, newest, base)
    ensures Current(shown[ref.key := ref], lower, newest[ref.key := ref], base)
  {
  }

  /** The table shows the update exactly when it becomes the newest. */
  lemma {:induction false} LaterCases(
      capacity: nat, shown: map<u64, RowRef>, newest: map<u64, RowRef>, ref: RowRef, shut: bool)
    requires GoodRef(ref) && Shows(shown, newest)
    requires ref.key in shown || ref.key !in newest || ref == newest[ref.key]
      || ClassifySourcePositionUpdate(newest[ref.key].position, ref.position) == Ok(Newer)
    ensures var (told, shown') := PublishTo(capacity, shown, ref, shut);
      && (told.Err? ==> shown' == shown)
      && (told.Ok? ==> (shown' == shown[ref.key := ref] && Later(newest, ref) == newest[ref.key := ref])
                       || (shown' == shown && Later(newest, ref) == newest))
      && (told.Ok? && ref.key in newest ==> ClassifySourcePositionUpdate(newest[ref.key].position, ref.position).Ok?)
      && Shows(shown', if told.Ok? then Later(newest, ref) else newest)
  {
    if ref.key in newest && ref == newest[ref.key] {
      assert newest[ref.key := ref] == newest;
    }
  }

  lemma {:induction false} PublishGrows(capacity: nat, rows: seq<StoredRow>, ref: RowRef, shut: bool)
    requires Sealed(rows) && GoodRef(ref)
    ensures var (r, rows') := PublishRow(capacity, rows, ref, shut);
      && Sealed(rows') && rows <= rows'
      && Replay(rows') == PublishTo(capacity, Replay(rows), ref, shut).1
      && r.Ok? == PublishTo(capacity, Replay(rows), ref, shut).0.Ok?
      && (r.Err? ==> Replay(rows') == Replay(rows))
      && (Replay(rows') == map[] ==> Replay(rows) == map[])
  {
    hide Replay, Sealed, ClassifySourcePositionUpdate;
    PublishKeepsLog(capacity, rows, ref, shut);
  }

  /** A table that takes an update stays current; one that refuses it is as current as before. */
  lemma {:induction false} PublishCurrent(
      capacity: nat, rows: seq<StoredRow>, lower: Rows, newest: map<u64, RowRef>, base: Rows, ref: RowRef, shut: bool)
    requires Sealed(rows) && GoodRef(ref) && Current(Replay(rows), lower, newest, base) && Fresh(rows, newest, ref)
    ensures var (r, rows') := PublishRow(capacity, rows, ref, shut);
      && Current(Replay(rows'), lower, if r.Ok? then Later(newest, ref) else newest, base)
      && (r.Ok? && ref.key in newest ==> ClassifySourcePositionUpdate(newest[ref.key].position, ref.position).Ok?)
  {
    hide Replay, Sealed, ClassifySourcePositionUpdate, PublishRow, PublishTo, Current, Later;
    PublishGrows(capacity, rows, ref, shut);
    PublishedCurrent(capacity, Replay(rows), lower, newest, base, ref, shut);
  }

  lemma {:induction false} PublishShows(
      capacity: nat, rows: seq<StoredRow>, newest: map<u64, RowRef>, ref: RowRef, shut: bool)
    requires Sealed(rows) && GoodRef(ref) && Shows(Replay(rows), newest) && Fresh(rows, newest, ref)
    ensures var (r, rows') := PublishRow(capacity, rows, ref, shut);
      && Shows(Replay(rows'), if r.Ok? then Later(newest, ref) else newest)
      && (r.Ok? && ref.key in newest ==> ClassifySourcePositionUpdate(newest[ref.key].position, ref.position).Ok?)
  {
    hide Replay, Sealed, ClassifySourcePositionUpdate, PublishRow, PublishTo, Shows, Later;
    PublishGrows(capacity, rows, ref, shut);
    LaterCases(capacity, Replay(rows), newest, ref, shut);
  }

  lemma {:induction false} AcknowledgedNewest(newest: map<u64, RowRef>, acked: seq<RowRef>, ref: RowRef)
    requires IsNewest(newest, acked) && GoodRef(ref)
    requires ref.key in newest ==> ClassifySourcePositionUpdate(newest[ref.key].position, ref.position).Ok?
    ensures IsNewest(Later(newest, ref), acked + [ref])
  {
    var newest', acked' := Later(newest, ref), acked + [ref];
    assert acked'[|acked|] == ref;
    forall k | k in newest'
      ensures newest'[k] in acked'
    {
      if newest'[k] != ref {
        assert newest[k] in acked;
      }
    }
    forall i | 0 <= i < |acked'|
      ensures acked'[i].key in newest' && AtLeast(newest'[acked'[i].key].position, acked'[i].position)
    {
      if i < |acked| {
        assert acked'[i] == acked[i];
      }
    }
  }

  // ---- Every step keeps it -----------------------------------------------------------------------

  /** Publishing to the serving table of an idle shard. */
  lemma {:induction false} IdlePublishKeepsInv(s: State, e: Event)
    requires Inv(s) && s.job.Idle? && e.Publish? && Routed(s, e)
    ensures Inv(PublishStep(s, e))
  {
    hide Replay, Sealed, PublishRow, Current, Later, IsNewest, ClassifySourcePositionUpdate, Fresh;
    PublishGrows(s.capacity, s.serving, e.ref, e.shut);
    PublishCurrent(s.capacity, s.serving, s.full + s.compact, s.newest, s.base, e.ref, e.shut);
    if PublishRow(s.capacity, s.serving, e.ref, e.shut).0.Ok? {
      AcknowledgedNewest(s.newest, s.acked, e.ref);
    }
  }

  lemma {:induction false} CompactedKept(s: State, rows: seq<StoredRow>, boundary: nat)
    requires s.serving <= rows && boundary <= |s.serving|
    ensures Compacted(s.(serving := rows), boundary) == Compacted(s, boundary)
  {
    assert rows[..boundary] == s.serving[..boundary];
  }

  /** The layer that the successor of a running job will lie on. */
  function Lower(s: State): Rows
    requires !s.job.Idle?
  {
    if s.job.Compacting? then s.full + Compacted(s, s.job.boundary) else s.full + s.compact
  }

  /** A job whose cutover can still happen: a rebase cannot once the serving table shows a row. */
  predicate Viable(s: State) {
    s.job.Compacting? || (s.job.Rebasing? && Replay(s.serving) == map[])
  }

  /** What publishing to the successor leaves alone. */
  lemma {:induction false} ToSuccessorTouches(s: State, ref: RowRef, shut: bool)
    requires !s.job.Idle? && IsNewest(s.newest, s.acked) && GoodRef(ref)
    requires Shows(Replay(s.job.successor), s.newest) && Sealed(s.job.successor)
    requires Fresh(s.job.successor, s.newest, ref)
    ensures var t := ToSuccessor(s, ref, shut);
      && IsNewest(t.newest, t.acked) && t == s.(job := t.job, newest := t.newest, acked := t.acked)
      && t.job == s.job.(successor := PublishRow(s.capacity, s.job.successor, ref, shut).1)
      && t.newest == if PublishRow(s.capacity, s.job.successor, ref, shut).0.Ok? then Later(s.newest, ref) else s.newest
  {
    hide Replay, Sealed, PublishRow, Later, IsNewest, ClassifySourcePositionUpdate, Fresh, Shows;
    PublishShows(s.capacity, s.job.successor, s.newest, ref, shut);
    if PublishRow(s.capacity, s.job.successor, ref, shut).0.Ok? {
      AcknowledgedNewest(s.newest, s.acked, ref);
    }
  }

  /** Publishing to the successor. */
  lemma {:induction false} ToSuccessorKeepsJob(s: State, ref: RowRef, shut: bool)
    requires !s.job.Idle? && JobOk(s) && IsNewest(s.newest, s.acked) && GoodRef(ref)
    requires Fresh(s.job.successor, s.newest, ref)
    ensures var t := ToSuccessor(s, ref, shut);
      && JobOk(t) && IsNewest(t.newest, t.acked) && t == s.(job := t.job, newest := t.newest, acked := t.acked)
      && t.job.mirrored == s.job.mirrored && !t.job.Idle?
      && t.newest == if PublishRow(s.capacity, s.job.successor, ref, shut).0.Ok? then Later(s.newest, ref) else s.newest
  {
    hide Replay, Sealed, PublishRow, Current, Later, IsNewest, ClassifySourcePositionUpdate, Fresh, Shows, Encoded;
    hide ToSuccessor;
    SuccessorShows(s);
    ToSuccessorTouches(s, ref, shut);
    PublishGrows(s.capacity, s.job.successor, ref, shut);
    PublishShows(s.capacity, s.job.successor, s.newest, ref, shut);
    if Viable(s) {
      PublishCurrent(s.capacity, s.job.successor, Lower(s), s.newest, s.base, ref, shut);
    }
  }

  lemma {:induction false} SuccessorShows(s: State)
    requires !s.job.Idle? && JobOk(s)
    ensures Shows(Replay(s.job.successor), s.newest) && Sealed(s.job.successor)
  {
  }

  /** More rows in the serving table leave a running job as it was. */
  lemma {:induction false} ServingGrows(s: State, rows: seq<StoredRow>)
    requires !s.job.Idle? && JobOk(s) && s.serving <= rows
    requires Replay(rows) == map[] ==> Replay(s.serving) == map[]
    ensures JobOk(s.(serving := rows))
  {
    hide Replay, Sealed, Current, Shows;
    if s.job.Compacting? {
      CompactedKept(s, rows, s.job.boundary);
    }
  }

  lemma {:induction false} MirroredPublishKeepsInv(s: State, e: Event)
    requires Inv(s) && !s.job.Idle? && e.Publish? && e.mirror && Routed(s, e)
    ensures Inv(PublishStep(s, e))
  {
    hide Replay, Sealed, PublishRow, Current, Later, IsNewest, ClassifySourcePositionUpdate, Fresh, Shows, JobOk;
    var (r, rows) := PublishRow(s.capacity, s.serving, e.ref, e.shut);
    PublishGrows(s.capacity, s.serving, e.ref, e.shut);
    ServingGrows(s, rows);
    if s.job.mirrored {
      PublishCurrent(s.capacity, s.serving, s.full + s.compact, s.newest, s.base, e.ref, e.shut);
    }
    if r.Ok? {
      ToSuccessorKeepsJob(s.(serving := rows), e.ref, e.shutNext);
    }
  }

  lemma {:induction false} DirectPublishKeepsInv(s: State, e: Event)
    requires Inv(s) && !s.job.Idle? && e.Publish? && !e.mirror && Routed(s, e)
    ensures Inv(PublishStep(s, e))
  {
    hide Replay, Sealed, PublishRow, Current, Later, IsNewest, ClassifySourcePositionUpdate, Fresh, Shows;
    var t := s.(job := s.job.(mirrored := false));
    assert JobOk(t);
    ToSuccessorKeepsJob(t, e.ref, e.shutNext);
  }

  lemma {:induction false} CaptureKeepsInv(s: State)
    requires Inv(s)
    ensures Inv(Step(s, Capture))
  {
    hide Sealed, IsNewest;
    if s.job.Idle? {
      assert s.serving[..|s.serving|] == s.serving;
      assert Sealed([]) && Replay([]) == map[] by {
        NothingPublished();
      }
      RestIsCurrent(Replay(s.serving), s.full, s.compact, s.newest, s.base);
    }
  }

  /** What a table showed can move into the compact layer. */
  lemma {:induction false} RestIsCurrent(
      shown: map<u64, RowRef>, full: Rows, compact: Rows, newest: map<u64, RowRef>, base: Rows)
    requires Current(shown, full + compact, newest, base)
    ensures Current(map[], full + (compact + Encoded(shown)), newest, base)
  {
  }

  lemma {:induction false} FinishKeepsInv(s: State, e: Event)
    requires Inv(s) && (e.FinishCompact? || e.FinishRebase?)
    ensures Inv(Step(s, e))
  {
    hide Sealed, IsNewest, Current, Replay;
    if s.job.Rebasing? && s.job.built.Some? {
      assert s.job.built.value + map[] == s.full + s.compact;
    }
  }

  lemma {:induction false} JobStepKeepsInv(s: State, e: Event)
    requires Inv(s) && Routed(s, e) && (e.BuildCompact? || e.BeginRebase? || e.BuildRebase? || e.Abandon?)
    ensures Inv(Step(s, e))
  {
    hide Sealed, IsNewest, Current, Replay;
    NothingShown();
  }

  lemma {:induction false} NothingShown()
    ensures Replay([]) == map[] && Sealed([]) && forall newest :: Shows(map[], newest)
  {
  }

  lemma {:induction false} StepKeepsInv(s: State, e: Event)
    requires Inv(s) && Routed(s, e)
    ensures Inv(Step(s, e))
  {
    hide Inv, Routed;
    match e
    case Publish(_, mirror, _, _) =>
      if s.job.Idle? {
        IdlePublishKeepsInv(s, e);
      } else if mirror {
        MirroredPublishKeepsInv(s, e);
      } else {
        DirectPublishKeepsInv(s, e);
      }
    case Capture => CaptureKeepsInv(s);
    case FinishCompact => FinishKeepsInv(s, e);
    case FinishRebase => FinishKeepsInv(s, e);
    case _ => JobStepKeepsInv(s, e);
  }

  lemma {:induction false} RunKeepsInv(s: State, events: seq<Event>)
    requires Inv(s) && RoutedRun(s, events)
    ensures Inv(Run(s, events))
    decreases |events|
  {
    hide Inv, Routed;
    if events != [] {
      StepKeepsInv(s, events[0]);
      RunKeepsInv(Step(s, events[0]), events[1..]);
    }
  }

  function Initial(capacity: nat, compact: Rows, full: Rows): State {
    State(capacity, [], compact, full, Idle, full + compact, [], map[])
  }

  /**
   * Nothing is lost: over any run of publishes, compactions and rebases, whenever no job is running, or all its updates
   * were mirrored, a read gives the newest acknowledged update of its key, and without one the base row.
   */
  lemma {:induction false} NothingLost(capacity: nat, compact: Rows, full: Rows, events: seq<Event>)
    requires RoutedRun(Initial(capacity, compact, full), events)
    ensures var s := Run(Initial(capacity, compact, full), events);
      && IsNewest(s.newest, s.acked)
      && (s.job.Idle? || s.job.mirrored ==> View(s) == Expected(s))
  {
    hide Replay, Current, Run, RoutedRun, Sealed;
    var init := Initial(capacity, compact, full);
    NothingShown();
    assert Current(map[], full + compact, map[], full + compact) by {
      StartIsCurrent(full + compact);
    }
    RunKeepsInv(init, events);
    var s := Run(init, events);
    if s.job.Idle? || s.job.mirrored {
      CurrentShows(Replay(s.serving), s.full + s.compact, s.newest, s.base);
    }
  }

  lemma {:induction false} StartIsCurrent(base: Rows)
    ensures Current(map[], base, map[], base)
  {
  }

  // ---- The environment's condition is exact ------------------------------------------------------

  /** Every table that the update is sent to takes it. */
  predicate Acks(s: State, e: Event)
    requires e.Publish?
  {
    && (s.job.Idle? || e.mirror ==> PublishRow(s.capacity, s.serving, e.ref, e.shut).0.Ok?)
    && (!s.job.Idle? ==> PublishRow(s.capacity, s.job.successor, e.ref, e.shutNext).0.Ok?)
  }

  /**
   * A shard that is idle, or mirrors, and acknowledges an update still shows every key as it should be if and only if
   * the update was fresh, or carried the row that its key showed anyway.
   */
  lemma {:induction false} FreshIsExact(s: State, e: Event)
    requires Inv(s) && e.Publish? && GoodRef(e.ref) && Acks(s, e)
    requires s.job.Idle? || (s.job.mirrored && e.mirror)
    ensures var t := PublishStep(s, e);
      View(t) == Expected(t) <==> Fresh(s.serving, s.newest, e.ref) || e.ref.encoded == s.newest[e.ref.key].encoded
  {
    hide Replay, Sealed, IsNewest, Current, ClassifySourcePositionUpdate, PublishRow, PublishTo, Later;
    PublishExactly(s.capacity, s.serving, s.full + s.compact, s.newest, s.base, e.ref, e.shut);
  }

  /**
   * The same for an update that a running job's successor takes, judged after the cutover: it shows every key as it
   * should be if and only if the update was fresh for the successor, or carried the row that its key showed anyway.
   */
  lemma {:induction false} FreshIsExactAtCutover(s: State, e: Event)
    requires Inv(s) && !s.job.Idle? && e.Publish? && GoodRef(e.ref) && Acks(s, e)
    requires s.job.built.Some? && Viable(s) && Viable(PublishStep(s, e))
    ensures var t := Step(PublishStep(s, e), if s.job.Compacting? then FinishCompact else FinishRebase);
      && t.job.Idle?
      && (View(t) == Expected(t) <==>
            Fresh(s.job.successor, s.newest, e.ref) || e.ref.encoded == s.newest[e.ref.key].encoded)
  {
    hide Replay, Sealed, IsNewest, Current, PublishRow, Later, Fresh, Step, PublishStep, View, Compacted, Shows;
    PublishExactly(s.capacity, s.job.successor, Lower(s), s.newest, s.base, e.ref, e.shutNext);
    CutoverShows(s, e);
  }

  lemma {:induction false} BuiltIsLower(s: State)
    requires JobOk(s) && !s.job.Idle? && s.job.built.Some?
    ensures Lower(s) == if s.job.Compacting? then s.full + s.job.built.value else s.job.built.value
  {
    hide Replay, Sealed, Current, Shows, Compacted;
  }

  lemma {:induction false} SuccessorTakes(s: State, ref: RowRef, shut: bool)
    requires !s.job.Idle? && PublishRow(s.capacity, s.job.successor, ref, shut).0.Ok?
    ensures var rows := PublishRow(s.capacity, s.job.successor, ref, shut).1;
      ToSuccessor(s, ref, shut) == Acknowledge(s.(job := s.job.(successor := rows)), ref)
  {
    hide PublishRow;
  }

  /** A job's publish leaves its job, with one more row in the successor. */
  lemma {:induction false} JobPublishes(s: State, e: Event) returns (serving: seq<StoredRow>, mirrored: bool)
    requires !s.job.Idle? && e.Publish? && Acks(s, e)
    ensures var rows := PublishRow(s.capacity, s.job.successor, e.ref, e.shutNext).1;
      PublishStep(s, e)
        == Acknowledge(s.(serving := serving, job := s.job.(mirrored := mirrored).(successor := rows)), e.ref)
  {
    hide PublishRow, ToSuccessor, Acknowledge;
    serving := if e.mirror then PublishRow(s.capacity, s.serving, e.ref, e.shut).1 else s.serving;
    mirrored := s.job.mirrored && e.mirror;
    SuccessorTakes(s.(serving := serving, job := s.job.(mirrored := mirrored)), e.ref, e.shutNext);
  }

  /** After the cutover the successor lies on the layer that the job built. */
  lemma {:induction false} CutoverShows(s: State, e: Event)
    requires JobOk(s) && !s.job.Idle? && e.Publish? && Acks(s, e)
    requires s.job.built.Some? && Viable(PublishStep(s, e))
    ensures var t := Step(PublishStep(s, e), if s.job.Compacting? then FinishCompact else FinishRebase);
      && t.job.Idle? && t.base == s.base && t.newest == Later(s.newest, e.ref)
      && View(t) == Lower(s) + Encoded(Replay(PublishRow(s.capacity, s.job.successor, e.ref, e.shutNext).1))
  {
    hide Replay, JobOk, PublishRow, Later, Lower, Encoded, PublishStep, Step, View, Acks, Viable;
    BuiltIsLower(s);
    var serving, mirrored := JobPublishes(s, e);
    FinishShows(PublishStep(s, e));
  }

  lemma {:induction false} FinishShows(s: State)
    requires !s.job.Idle? && s.job.built.Some? && Viable(s)
    ensures var t := Step(s, if s.job.Compacting? then FinishCompact else FinishRebase);
      && t.job.Idle? && t.base == s.base && t.newest == s.newest
      && View(t) == (if s.job.Compacting? then s.full + s.job.built.value else s.job.built.value)
                    + Encoded(Replay(s.job.successor))
  {
    hide Replay, Encoded;
    assert s.job.built.value + map[] == s.job.built.value;
  }

  lemma {:induction false} PublishExactly(
      capacity: nat, rows: seq<StoredRow>, lower: Rows, newest: map<u64, RowRef>, base: Rows, ref: RowRef, shut: bool)
    requires Sealed(rows) && Current(Replay(rows), lower, newest, base) && GoodRef(ref)
    requires PublishRow(capacity, rows, ref, shut).0.Ok?
    ensures !Fresh(rows, newest, ref) ==> ref.key in newest
    ensures lower + Encoded(Replay(PublishRow(capacity, rows, ref, shut).1)) == base + Encoded(Later(newest, ref)) <==>
      Fresh(rows, newest, ref) || ref.encoded == newest[ref.key].encoded
  {
    hide Replay, Sealed, Current, ClassifySourcePositionUpdate, PublishRow, PublishTo, Later;
    PublishGrows(capacity, rows, ref, shut);
    if Fresh(rows, newest, ref) {
      PublishCurrent(capacity, rows, lower, newest, base, ref, shut);
      CurrentShows(Replay(PublishRow(capacity, rows, ref, shut).1), lower, Later(newest, ref), base);
    } else {
      StaleIsTaken(capacity, Replay(rows), newest, ref, shut);
      Shadowed(Replay(rows), lower, newest, base, ref);
    }
  }

  /**
   * Such updates are within reach. After a row was compacted, an older update of its key is acknowledged and hides it;
   * so does one that the successor takes while the compaction runs.
   */
  lemma {:induction false} OlderUpdateHidesNewer(a: RowRef, b: RowRef)
    requires GoodRef(a) && GoodRef(b) && a.key == b.key && a.position.partition == b.position.partition
    requires b.position.offset < a.position.offset && a.encoded != b.encoded
    ensures var before := [Publish(a, false, false, false), Capture, BuildCompact];
      var s := Run(Initial(16, map[], map[]), before + [FinishCompact]);
      var t := Run(Initial(16, map[], map[]), before);
      var older := Publish(b, false, false, false);
      && RoutedRun(Initial(16, map[], map[]), before + [FinishCompact])
      && Acks(s, older) && View(Step(s, older)) != Expected(Step(s, older))
      && Acks(t, older) && View(Step(Step(t, older), FinishCompact)) != Expected(Step(Step(t, older), FinishCompact))
  {
    hide Step, Run, RoutedRun, View, Expected;
    var s3, s4 := CompactedOnce(a);
    HiddenAfter(a, b, s4);
    HiddenDuring(a, b, s3);
  }

  lemma {:induction false} HiddenAfter(a: RowRef, b: RowRef, s: State)
    requires GoodRef(a) && GoodRef(b) && a.key == b.key && a.position.partition == b.position.partition
    requires b.position.offset < a.position.offset && a.encoded != b.encoded
    requires s.capacity == 16 && s.serving == [] && s.job.Idle? && s.base == map[] && s.newest == map[a.key := a]
    ensures var older := Publish(b, false, false, false);
      Acks(s, older) && View(Step(s, older)) != Expected(Step(s, older))
  {
    hide Replay, PublishRow, ClassifySourcePositionUpdate;
    var t := Step(s, Publish(b, false, false, false));
    OnlyOlder(b);
    OlderIsStale(a.position, b.position);
    assert View(t)[a.key] == b.encoded && Expected(t)[a.key] == a.encoded;
  }

  lemma {:induction false} HiddenDuring(a: RowRef, b: RowRef, s: State)
    requires GoodRef(a) && GoodRef(b) && a.key == b.key && a.position.partition == b.position.partition
    requires b.position.offset < a.position.offset && a.encoded != b.encoded
    requires s.capacity == 16 && s.job.Compacting? && s.job.successor == [] && s.job.built.Some?
    requires s.base == map[] && s.newest == map[a.key := a]
    ensures var older := Publish(b, false, false, false);
      Acks(s, older) && View(Step(Step(s, older), FinishCompact)) != Expected(Step(Step(s, older), FinishCompact))
  {
    hide Replay, PublishRow, ClassifySourcePositionUpdate;
    var t := Step(Step(s, Publish(b, false, false, false)), FinishCompact);
    OnlyOlder(b);
    OlderIsStale(a.position, b.position);
    assert View(t)[a.key] == b.encoded && Expected(t)[a.key] == a.encoded;
  }

  /** The states of a compaction of one row, before and after its cutover. */
  lemma {:induction false} CompactedOnce(a: RowRef) returns (built: State, done: State)
    requires GoodRef(a)
    ensures var before := [Publish(a, false, false, false), Capture, BuildCompact];
      && built == Run(Initial(16, map[], map[]), before)
      && done == Run(Initial(16, map[], map[]), before + [FinishCompact])
      && RoutedRun(Initial(16, map[], map[]), before + [FinishCompact])
    ensures built.capacity == 16 && built.job.Compacting? && built.job.successor == [] && built.job.built.Some?
    ensures built.base == map[] && built.newest == map[a.key := a]
    ensures done.capacity == 16 && done.serving == [] && done.job.Idle? && done.base == map[]
      && done.newest == map[a.key := a]
  {
    hide Replay, Run, RoutedRun, Compacted;
    var s1 := OnePublished(a);
    var s2 := Step(s1, Capture);
    built := Step(s2, BuildCompact);
    done := Step(built, FinishCompact);
    RunsTo(Initial(16, map[], map[]), a, s1, s2, built, done);
  }

  lemma {:induction false} OlderIsStale(p: SourcePosition, q: SourcePosition)
    requires IsValidSourcePosition(p) && IsValidSourcePosition(q) && p.partition == q.partition && q.offset < p.offset
    ensures ClassifySourcePositionUpdate(p, q) == Ok(Stale)
  {
  }

  lemma {:induction false} OnlyOlder(b: RowRef)
    ensures PublishRow(16, [], b, false) == (Ok(()), [StoredRow(b, true)])
    ensures Replay([StoredRow(b, true)]) == map[b.key := b]
  {
    assert [StoredRow(b, true)][..0] == [];
    assert [] + [StoredRow(b, true)] == [StoredRow(b, true)];
  }

  lemma {:induction false} OnePublished(a: RowRef) returns (s: State)
    ensures s == Step(Initial(16, map[], map[]), Publish(a, false, false, false))
    ensures s.serving == [StoredRow(a, true)] && Replay(s.serving) == map[a.key := a] && s.newest == map[a.key := a]
    ensures s.job.Idle? && s.compact == map[] && s.full == map[] && s.base == map[] && s.capacity == 16
  {
    OnlyOlder(a);
    s := Step(Initial(16, map[], map[]), Publish(a, false, false, false));
  }

  lemma {:induction false} RunsTo(init: State, a: RowRef, s1: State, s2: State, s3: State, s4: State)
    requires init == Initial(16, map[], map[]) && GoodRef(a)
    requires s1 == Step(init, Publish(a, false, false, false)) && s2 == Step(s1, Capture)
    requires s3 == Step(s2, BuildCompact) && s4 == Step(s3, FinishCompact)
    ensures var before := [Publish(a, false, false, false), Capture, BuildCompact];
      && Run(init, before) == s3 && Run(init, before + [FinishCompact]) == s4
      && RoutedRun(init, before + [FinishCompact])
  {
    hide Step;
    var before := [Publish(a, false, false, false), Capture, BuildCompact];
    var all := before + [FinishCompact];
    assert before[1..] == [Capture, BuildCompact] && [Capture, BuildCompact][1..] == [BuildCompact];
    assert all[1..] == [Capture, BuildCompact, FinishCompact];
    assert all[1..][1..] == [BuildCompact, FinishCompact] && all[1..][1..][1..] == [FinishCompact];
    RunOne(init, before[0], before[1..]);
    RunOne(s1, Capture, [BuildCompact]);
    RunOne(s2, BuildCompact, []);
    RunOne(init, all[0], all[1..]);
    RunOne(s1, Capture, [BuildCompact, FinishCompact]);
    RunOne(s2, BuildCompact, [FinishCompact]);
    RunOne(s3, FinishCompact, []);
  }

  lemma {:induction false} RunOne(s: State, e: Event, events: seq<Event>)
    ensures Run(s, [e] + events) == Run(Step(s, e), events)
    ensures RoutedRun(s, [e] + events) <==> Routed(s, e) && RoutedRun(Step(s, e), events)
  {
    hide Step, Routed;
    assert ([e] + events)[1..] == events;
  }

  /** Undisturbed, a compaction moves what the table shows into the compact layer. */
  lemma {:induction false} CompactionMovesDown(s: State)
    requires s.job.Idle?
    ensures Run(s, [Capture, BuildCompact, FinishCompact])
         == s.(serving := [], compact := s.compact + Encoded(Replay(s.serving)))
  {
    hide Replay;
    assert s.serving[..|s.serving|] == s.serving;
    Three(s, Capture, BuildCompact, FinishCompact);
  }

  /** Undisturbed, a rebase of a shard whose table shows nothing moves the compact layer into the full one. */
  lemma {:induction false} RebaseMovesDown(s: State)
    requires s.job.Idle?
    ensures Replay(s.serving) == map[] ==>
      Run(s, [BeginRebase, BuildRebase, FinishRebase])
        == s.(serving := [], compact := map[], full := s.full + s.compact)
    ensures Replay(s.serving) != map[] ==> Run(s, [BeginRebase, BuildRebase, FinishRebase, Abandon]) == s
  {
    hide Replay;
    Three(s, BeginRebase, BuildRebase, FinishRebase);
    var t := Run(s, [BeginRebase, BuildRebase, FinishRebase]);
    assert [BeginRebase] + [BuildRebase, FinishRebase, Abandon] == [BeginRebase, BuildRebase, FinishRebase, Abandon];
    RunOne(s, BeginRebase, [BuildRebase, FinishRebase, Abandon]);
    Three(Step(s, BeginRebase), BuildRebase, FinishRebase, Abandon);
  }

  lemma {:induction false} Three(s: State, a: Event, b: Event, c: Event)
    ensures Run(s, [a, b, c]) == Step(Step(Step(s, a), b), c)
  {
    hide Step;
    assert [a, b, c][1..] == [b, c] && [b, c][1..] == [c] && [c][1..] == [];
    assert Run(s, [a, b, c]) == Run(Step(s, a), [b, c]);
    assert Run(Step(s, a), [b, c]) == Run(Step(Step(s, a), b), [c]);
  }

  lemma {:induction false} StaleIsTaken(
      capacity: nat, shown: map<u64, RowRef>, newest: map<u64, RowRef>, ref: RowRef, shut: bool)
    requires PublishTo(capacity, shown, ref, shut).0.Ok? && ref.key !in shown && ref.key in newest
    requires ClassifySourcePositionUpdate(newest[ref.key].position, ref.position) != Ok(Newer)
    ensures PublishTo(capacity, shown, ref, shut).1 == shown[ref.key := ref] && Later(newest, ref) == newest
  {
  }

  /** A stale row taken by the table hides the newer one below it. */
  lemma {:induction false} Shadowed(
      shown: map<u64, RowRef>, lower: Rows, newest: map<u64, RowRef>, base: Rows, ref: RowRef)
    requires Current(shown, lower, newest, base) && ref.key !in shown && ref.key in newest
    ensures lower + Encoded(shown[ref.key := ref]) == base + Encoded(newest) <==> ref.encoded == newest[ref.key].encoded
  {
    hide Current;
    CurrentShows(shown, lower, newest, base);
    var all := lower + Encoded(shown);
    assert lower + Encoded(shown[ref.key := ref]) == all[ref.key := ref.encoded];
    assert all == base + Encoded(newest);
    assert all[ref.key] == newest[ref.key].encoded;
    if ref.encoded != all[ref.key] {
      assert all[ref.key := ref.encoded][ref.key] != all[ref.key];
    } else {
      assert all[ref.key := ref.encoded] == all;
    }
  }
}
