/**
 * The artifact load, src/rebuild/async_load.cc, as a machine: the worker's accesses to shared state and to its
 * environment are steps, between which CancelLoad and the destructor of ForwardIndex act (src/api/forward_index.cc).
 */
module AsyncLoad {
  import opened Basics

  datatype PartitionProgress = PartitionProgress(topic: bytes, partition: i32, committed: i64, highWatermark: i64)

  // ---- Progress ----------------------------------------------------------------------------------

  predicate Behind(p: PartitionProgress) {
    p.committed < p.highWatermark
  }

  predicate SamePartition(p: PartitionProgress, q: PartitionProgress) {
    p.topic == q.topic && p.partition == q.partition
  }

  method CatchUpRequired(progress: seq<PartitionProgress>) returns (r: bool)
    ensures r <==> AnyBehind(progress)
  {
    for i := 0 to |progress|
      invariant forall j :: 0 <= j < i ==> !Behind(progress[j])
    {
      if progress[i].committed < progress[i].highWatermark {
        return true;
      }
    }
    r := false;
  }

  predicate AnyBehind(progress: seq<PartitionProgress>) {
    exists i :: 0 <= i < |progress| && Behind(progress[i])
  }

  function FindProgress(progress: seq<PartitionProgress>, p: PartitionProgress): (r: Result<PartitionProgress>)
    ensures r.Ok? <==> exists i :: 0 <= i < |progress| && SamePartition(progress[i], p)
    ensures r.Ok? ==> r.get in progress && SamePartition(r.get, p)
    ensures r.Err? ==> r.code == FailedPrecondition
  {
    if progress == [] then Err(FailedPrecondition)
    else if SamePartition(progress[0], p) then Ok(progress[0])
    else
      var rest := FindProgress(progress[1..], p);
      assert rest.Ok? <==> exists i :: 0 < i < |progress| && SamePartition(progress[i], p) by {
        assert forall i :: 0 <= i < |progress| - 1 ==> progress[1..][i] == progress[i + 1];
        if i :| 0 < i < |progress| && SamePartition(progress[i], p) {
          assert SamePartition(progress[1..][i - 1], p);
        }
      }
      rest
  }

  /** A target raised by what was observed for its partition; the committed offset is the observed one. */
  function Raised(target: PartitionProgress, observed: PartitionProgress): PartitionProgress {
    PartitionProgress(target.topic, target.partition, observed.committed,
                      if target.highWatermark < observed.highWatermark
                      then observed.highWatermark else target.highWatermark)
  }

  ghost predicate AllObserved(target: seq<PartitionProgress>, observed: seq<PartitionProgress>) {
    forall i :: 0 <= i < |target| ==> FindProgress(observed, target[i]).Ok?
  }

  ghost function Observe(
      target: seq<PartitionProgress>, observed: seq<PartitionProgress>): (r: Result<seq<PartitionProgress>>)
    ensures r.Ok? ==> |r.get| == |target| > 0
    ensures r.Err? ==> r.code == FailedPrecondition
  {
    if target == [] || !AllObserved(target, observed) then Err(FailedPrecondition)
    else Ok(seq(|target|, i requires 0 <= i < |target| && AllObserved(target, observed) =>
                  Raised(target[i], FindProgress(observed, target[i]).get)))
  }

  method UpdateObservedSafeProgress(target: seq<PartitionProgress>, observed: seq<PartitionProgress>)
    returns (r: Result<seq<PartitionProgress>>)
    ensures r == Observe(target, observed)
  {
    if target == [] {
      return Err(FailedPrecondition);
    }
    var updated: seq<PartitionProgress> := [];
    for i := 0 to |target|
      invariant |updated| == i
      invariant forall j :: 0 <= j < i ==>
        FindProgress(observed, target[j]).Ok? && updated[j] == Raised(target[j], FindProgress(observed, target[j]).get)
    {
      var entry := FindProgress(observed, target[i]);
      if entry.Err? {
        assert !AllObserved(target, observed);
        return Err(entry.code);
      }
      var high := target[i].highWatermark;
      high := if high < entry.get.highWatermark then entry.get.highWatermark else high;
      updated := updated + [PartitionProgress(target[i].topic, target[i].partition, entry.get.committed, high)];
    }
    assert AllObserved(target, observed);
    assert updated == Observe(target, observed).get;
    r := Ok(updated);
  }

  // ---- The machine -------------------------------------------------------------------------------

  datatype LoadCode = Running | Succeeded | Failed | LoadCancelled

  datatype ShardProgress = ShardProgress(loaded: bool, prewarmed: bool, cutover: bool)

  datatype LoadState = LoadState(
    code: LoadCode, terminal: bool, loadedCount: nat, prewarmedCount: nat, cutoverCount: nat,
    shards: seq<ShardProgress>, progress: seq<PartitionProgress>)

  /** Where the worker is. Store(next) is the store_state callback, after which it goes on at next. */
  datatype Pc =
    | Begin | CheckArguments | CheckStart
    | CheckLoad(i: nat) | LoadShard(i: nat)
    | CheckPrewarm(i: nat) | Prewarm(i: nat)
    | PlanCatchUp | StartRunner | CheckStarted | FirstCapture
    | CatchUp | CheckPoll | Poll | Capture | CheckCaughtUp
    | CheckPublish(i: nat) | Publish(i: nat) | Finish
    | Store(next: Pc)
    | Done | Gone

  /**
   * `local` is the worker's state and `stored` the entry in loads_; artifact and observed are the progress of shard 0's
   * file and what the runner reported, in order.
   */
  datatype State = State(
    shardCount: nat, realtime: bool, pc: Pc, local: LoadState, stored: LoadState, cancelFlag: bool,
    published: seq<nat>, artifact: seq<PartitionProgress>, observed: seq<seq<PartitionProgress>>)

  /** What a call of the worker into its environment returns; only some calls report progress. */
  type Input = Result<seq<PartitionProgress>>

  datatype Event = Worker(input: Input) | CancelLoad | Destroy

  function FreshLoad(): LoadState {
    LoadState(Running, false, 0, 0, 0, [], [])
  }

  function Initial(shardCount: nat, realtime: bool): State {
    State(shardCount, realtime, Begin, FreshLoad(), FreshLoad(), false, [], [], [])
  }

  function Ended(s: State, code: LoadCode): State {
    s.(local := s.local.(code := code, terminal := true), pc := Store(Done))
  }

  /** CheckCancelled. */
  function Check(s: State, next: Pc): State {
    if s.cancelFlag then Ended(s, LoadCancelled) else s.(pc := next)
  }

  /** A call that only succeeds or fails. */
  function Call(s: State, input: Input, next: Pc): State {
    if input.Err? then Ended(s, Failed) else s.(pc := next)
  }

  function EnterLoad(s: State): State {
    s.(local := s.local.(shards := seq(s.shardCount, _ => ShardProgress(false, false, false))))
  }

  function Loaded(s: State, i: nat, progress: seq<PartitionProgress>): State
    requires i < |s.local.shards|
  {
    var t := s.(local := s.local.(shards := s.local.shards[i := s.local.shards[i].(loaded := true)],
                                  loadedCount := s.local.loadedCount + 1),
                pc := Store(if i + 1 < s.shardCount then CheckLoad(i + 1) else CheckPrewarm(0)));
    if i == 0 then t.(artifact := progress, local := t.local.(progress := progress)) else t
  }

  function Warmed(s: State, i: nat): State
    requires i < |s.local.shards|
  {
    s.(local := s.local.(shards := s.local.shards[i := s.local.shards[i].(prewarmed := true)],
                         prewarmedCount := s.local.prewarmedCount + 1),
       pc := Store(if i + 1 < s.shardCount then CheckPrewarm(i + 1) else PlanCatchUp))
  }

  function CutOver(s: State, i: nat): State
    requires i < |s.local.shards|
  {
    s.(published := s.published + [i],
       local := s.local.(shards := s.local.shards[i := s.local.shards[i].(cutover := true)],
                         cutoverCount := s.local.cutoverCount + 1),
       pc := Store(if i + 1 < s.shardCount then CheckPublish(i + 1) else Finish))
  }

  /** CaptureSafeProgress and what is made of it. */
  ghost function Captured(s: State, target: seq<PartitionProgress>, input: Input): State {
    if input.Err? then Ended(s, Failed)
    else if Observe(target, input.get).Err? then Ended(s, Failed)
    else s.(local := s.local.(progress := Observe(target, input.get).get), observed := s.observed + [input.get],
            pc := Store(CatchUp))
  }

  function Plan(s: State, input: Input): State {
    if !s.realtime then s.(local := s.local.(progress := []), pc := CheckPublish(0))
    else if s.artifact == [] then Ended(s, Failed)
    else Call(s, input, Store(StartRunner))
  }

  /** The store_state callback: a cancelled load stays cancelled. */
  function StoreState(s: State): State
    requires s.pc.Store?
  {
    var kept := s.stored.code.LoadCancelled? && s.stored.terminal && !s.local.code.LoadCancelled?;
    s.(stored := if kept then s.local.(code := LoadCancelled, terminal := true) else s.local, pc := s.pc.next)
  }

  function StartStep(s: State, input: Input): State {
    match s.pc
    case Begin => s.(local := FreshLoad(), pc := Store(CheckArguments))
    case CheckArguments => Call(s, input, CheckStart)
    case _ => if s.cancelFlag then Ended(s, LoadCancelled) else EnterLoad(s).(pc := CheckLoad(0))
  }

  /** Loading and prewarming. */
  function LoadStep(s: State, input: Input): State {
    match s.pc
    case CheckLoad(i) => Check(s, LoadShard(i))
    case LoadShard(i) =>
      if input.Err? then Ended(s, Failed) else if i < |s.local.shards| then Loaded(s, i, input.get) else s
    case CheckPrewarm(i) => Check(s, Prewarm(i))
    case Prewarm(i) => if input.Err? then Ended(s, Failed) else if i < |s.local.shards| then Warmed(s, i) else s
    case _ => s
  }

  function PlanStep(s: State, input: Input): State {
    match s.pc
    case PlanCatchUp => Plan(s, input)
    case StartRunner => Call(s, input, CheckStarted)
    case _ => Check(s, FirstCapture)
  }

  ghost function CaptureStep(s: State, input: Input): State {
    Captured(s, if s.pc.FirstCapture? then s.artifact else s.local.progress, input)
  }

  /** The catch-up loop, but for its captures. */
  function CatchUpStep(s: State, input: Input): State {
    match s.pc
    case CatchUp => s.(pc := if AnyBehind(s.local.progress) then CheckPoll else CheckCaughtUp)
    case CheckPoll => Check(s, Poll)
    case Poll =>
      if input.Ok? then s.(pc := Capture)
      else if input.code == Cancelled || s.cancelFlag then Ended(s, LoadCancelled)
      else Ended(s, Failed)
    case _ => Check(s, CheckPublish(0))
  }

  function CutOverStep(s: State, input: Input): State {
    match s.pc
    case CheckPublish(i) => Check(s, Publish(i))
    case Publish(i) => if input.Err? then Ended(s, Failed) else if i < |s.local.shards| then CutOver(s, i) else s
    case _ => Ended(s, Succeeded)
  }

  ghost function WorkerStep(s: State, input: Input): State {
    match s.pc
    case Begin | CheckArguments | CheckStart => StartStep(s, input)
    case CheckLoad(_) | LoadShard(_) | CheckPrewarm(_) | Prewarm(_) => LoadStep(s, input)
    case PlanCatchUp | StartRunner | CheckStarted => PlanStep(s, input)
    case FirstCapture | Capture => CaptureStep(s, input)
    case CatchUp | CheckPoll | Poll | CheckCaughtUp => CatchUpStep(s, input)
    case CheckPublish(_) | Publish(_) | Finish => CutOverStep(s, input)
    case Store(_) => StoreState(s)
    case Done => s.(pc := Gone)
    case Gone => s
  }

  /** ForwardIndex::CancelLoad; the flag is found as long as the worker has not removed it. */
  function Cancel(s: State): State {
    if s.stored.terminal then s
    else s.(stored := s.stored.(code := LoadCancelled, terminal := true), cancelFlag := s.cancelFlag || !s.pc.Gone?)
  }

  predicate CancelReturnsTrue(s: State) {
    !s.stored.terminal
  }

  ghost function Step(s: State, e: Event): State {
    match e
    case Worker(input) => WorkerStep(s, input)
    case CancelLoad => Cancel(s)
    case Destroy => s.(cancelFlag := s.cancelFlag || !s.pc.Gone?)
  }

  ghost function Run(s: State, events: seq<Event>): State
    decreases |events|
  {
    if events == [] then s else Run(Step(s, events[0]), events[1..])
  }

  // ---- Invariant ---------------------------------------------------------------------------------

  /** Flags agree with the counters, which are a, b and c. */
  predicate Counted(l: LoadState, n: nat, a: nat, b: nat, c: nat) {
    && l.loadedCount == a && l.prewarmedCount == b && l.cutoverCount == c
    && |l.shards| == n
    && forall i :: 0 <= i < n ==> l.shards[i] == ShardProgress(i < a, i < b, i < c)
  }

  /**
   * The targets: the artifact's partitions, each at least as high as every watermark seen for it, with the committed
   * offset that was reported last.
   */
  ghost predicate Covered(s: State) {
    && |s.local.progress| == |s.artifact| > 0 && s.observed != []
    && forall i :: 0 <= i < |s.artifact| ==>
         && SamePartition(s.local.progress[i], s.artifact[i])
         && HasCommitted(s.observed[|s.observed| - 1], s.local.progress[i])
         && s.artifact[i].highWatermark <= s.local.progress[i].highWatermark
         && forall k :: 0 <= k < |s.observed| ==> Reported(s.observed[k], s.local.progress[i])
  }

  /** An observation has the target's partition, with a watermark no higher than the target's. */
  predicate Reported(observed: seq<PartitionProgress>, target: PartitionProgress) {
    var found := FindProgress(observed, target);
    found.Ok? && found.get.highWatermark <= target.highWatermark
  }

  predicate HasCommitted(observed: seq<PartitionProgress>, target: PartitionProgress) {
    var found := FindProgress(observed, target);
    found.Ok? && found.get.committed == target.committed
  }

  ghost predicate CaughtUp(s: State) {
    s.realtime ==> Covered(s) && !AnyBehind(s.local.progress)
  }

  /** Before anything was reported or published. */
  ghost predicate Early(s: State, n: nat, a: nat, b: nat) {
    Counted(s.local, n, a, b, 0) && s.observed == []
  }

  /** What holds when the worker is about to do pc. */
  ghost predicate Ready(s: State, pc: Pc) {
    var n := s.shardCount;
    match pc
    case Begin => Early(s, 0, 0, 0)
    case CheckArguments => Early(s, 0, 0, 0)
    case CheckStart => Early(s, 0, 0, 0)
    case CheckLoad(i) => i < n && Early(s, n, i, 0)
    case LoadShard(i) => i < n && Early(s, n, i, 0)
    case CheckPrewarm(i) => i < n && Early(s, n, n, i)
    case Prewarm(i) => i < n && Early(s, n, n, i)
    case PlanCatchUp => Early(s, n, n, n)
    case StartRunner => Early(s, n, n, n) && s.artifact != []
    case CheckStarted => Early(s, n, n, n) && s.artifact != []
    case FirstCapture => Early(s, n, n, n) && s.artifact != []
    case CatchUp => Counted(s.local, n, n, n, 0) && Covered(s)
    case CheckPoll => Counted(s.local, n, n, n, 0) && Covered(s)
    case Poll => Counted(s.local, n, n, n, 0) && Covered(s)
    case Capture => Counted(s.local, n, n, n, 0) && Covered(s)
    case CheckCaughtUp => Counted(s.local, n, n, n, 0) && CaughtUp(s)
    case CheckPublish(i) => i < n && Counted(s.local, n, n, n, i) && CaughtUp(s)
    case Publish(i) => i < n && Counted(s.local, n, n, n, i) && CaughtUp(s)
    case Finish => Counted(s.local, n, n, n, n) && CaughtUp(s)
    case Store(_) => false
    case Done => s.local.terminal
    case Gone => s.local.terminal
  }

  function Upto(n: nat): seq<nat> {
    seq(n, i => i)
  }

  /** Shards are published in order, and only after everything was loaded, prewarmed and caught up. */
  ghost predicate Ordered(s: State) {
    && s.published == Upto(s.local.cutoverCount) && s.local.cutoverCount <= s.shardCount
    && (s.published != [] ==>
          Counted(s.local, s.shardCount, s.shardCount, s.shardCount, s.local.cutoverCount) && CaughtUp(s))
    && (s.local.code.Succeeded? ==> s.local.cutoverCount == s.shardCount)
  }

  predicate Over(pc: Pc) {
    pc.Done? || pc.Gone?
  }

  ghost predicate StoredOk(s: State) {
    && (Over(s.pc) ==> s.stored.terminal && (s.stored.code == s.local.code || s.stored.code.LoadCancelled?))
    && (!Over(s.pc) && s.stored.terminal ==> s.stored.code.LoadCancelled?)
    && (s.stored.terminal <==> !s.stored.code.Running?)
    && s.stored.cutoverCount <= s.local.cutoverCount
    && (Over(s.pc) ==> s.stored.cutoverCount == s.local.cutoverCount)
  }

  ghost predicate Inv(s: State) {
    && s.shardCount > 0
    && Ready(s, if s.pc.Store? then s.pc.next else s.pc)
    && Ordered(s) && StoredOk(s) && LocalOk(s)
  }

  lemma {:induction false} UptoNext(n: nat)
    ensures Upto(n + 1) == Upto(n) + [n]
  {
  }

  /** Every target keeps its partition and rises to what was observed. */
  lemma {:induction false} CaptureCovers(s: State, target: seq<PartitionProgress>, input: Input)
    requires input.Ok? && Observe(target, input.get).Ok? && |target| == |s.artifact|
    requires forall i :: 0 <= i < |target| ==>
      && SamePartition(target[i], s.artifact[i]) && s.artifact[i].highWatermark <= target[i].highWatermark
      && forall k :: 0 <= k < |s.observed| ==> Reported(s.observed[k], target[i])
    ensures Covered(Captured(s, target, input))
  {
    var t := Captured(s, target, input);
    forall i | 0 <= i < |s.artifact|
      ensures SamePartition(t.local.progress[i], s.artifact[i])
        && s.artifact[i].highWatermark <= t.local.progress[i].highWatermark
      ensures target[i].highWatermark <= t.local.progress[i].highWatermark
      ensures HasCommitted(input.get, t.local.progress[i])
      ensures forall k :: 0 <= k < |t.observed| ==> Reported(t.observed[k], t.local.progress[i])
    {
      assert FindProgress(input.get, target[i]).Ok?;
      assert t.local.progress[i] == Raised(target[i], FindProgress(input.get, target[i]).get);
      SameFound(input.get, target[i], t.local.progress[i]);
      forall k | 0 <= k < |t.observed|
        ensures Reported(t.observed[k], t.local.progress[i])
      {
        SameFound(t.observed[k], target[i], t.local.progress[i]);
        assert k < |s.observed| ==> Reported(s.observed[k], target[i]);
      }
    }
  }

  lemma {:induction false} SameFound(progress: seq<PartitionProgress>, p: PartitionProgress, q: PartitionProgress)
    requires SamePartition(p, q)
    ensures FindProgress(progress, p) == FindProgress(progress, q)
  {
    if progress != [] {
      SameFound(progress[1..], p, q);
    }
  }

  lemma {:induction false} CountsGrow(s: State, n: nat, a: nat, b: nat, c: nat)
    requires Counted(s.local, n, a, b, c)
    ensures a < n ==> forall progress :: Counted(Loaded(s, a, progress).local, n, a + 1, b, c)
    ensures b < n ==> Counted(Warmed(s, b).local, n, a, b + 1, c)
    ensures c < n ==> Counted(CutOver(s, c).local, n, a, b, c + 1)
    ensures |s.local.shards| == n && s.local.cutoverCount == c
  {
  }

  lemma {:induction false} SameCounts(l: LoadState, m: LoadState, n: nat, a: nat, b: nat, c: nat)
    requires Counted(l, n, a, b, c) && m == l.(code := m.code, terminal := m.terminal, progress := m.progress)
    ensures Counted(m, n, a, b, c) && m.cutoverCount == l.cutoverCount
  {
  }

  lemma {:induction false} NotPublished(s: State, n: nat, a: nat, b: nat)
    requires Counted(s.local, n, a, b, 0) && Ordered(s)
    ensures s.published == [] && s.local.cutoverCount == 0
  {
  }

  lemma {:induction false} StartingKeepsReady(s: State, input: Input)
    requires Inv(s) && (s.pc.Begin? || s.pc.CheckArguments? || s.pc.CheckStart?)
    ensures ReadyNext(StartStep(s, input))
  {
    NotPublished(s, 0, 0, 0);
  }

  lemma {:induction false} LoadingKeepsReady(s: State, input: Input)
    requires Inv(s) && (s.pc.CheckLoad? || s.pc.LoadShard? || s.pc.CheckPrewarm? || s.pc.Prewarm?)
    ensures ReadyNext(LoadStep(s, input))
  {
    hide Counted, CaughtUp;
    var n, i := s.shardCount, s.pc.i;
    if s.pc.CheckLoad? || s.pc.LoadShard? {
      NotPublished(s, n, i, 0);
      CountsGrow(s, n, i, 0, 0);
    } else {
      NotPublished(s, n, n, i);
      CountsGrow(s, n, n, i, 0);
    }
    match s.pc
    case CheckLoad(_) =>
    case LoadShard(_) =>
      if input.Ok? {
        assert Counted(Loaded(s, i, input.get).local, n, i + 1, 0, 0);
      }
    case CheckPrewarm(_) =>
    case Prewarm(_) =>
  }

  ghost predicate ReadyNext(t: State) {
    Ready(t, if t.pc.Store? then t.pc.next else t.pc) && Ordered(t)
  }

  /** A capture either ends the load or leaves it covered. */
  lemma {:induction false} CaptureKeepsReady(s: State, input: Input)
    requires Inv(s) && (s.pc.FirstCapture? || s.pc.Capture?)
    ensures ReadyNext(CaptureStep(s, input))
  {
    hide Observe, FindProgress, Counted, Reported;
    var n, target := s.shardCount, if s.pc.FirstCapture? then s.artifact else s.local.progress;
    NotPublished(s, n, n, n);
    SameCounts(s.local, CaptureStep(s, input).local, n, n, n, 0);
    if input.Ok? && Observe(target, input.get).Ok? {
      CaptureCovers(s, target, input);
    }
  }

  lemma {:induction false} PlanningKeepsReady(s: State, input: Input)
    requires Inv(s) && (s.pc.PlanCatchUp? || s.pc.StartRunner? || s.pc.CheckStarted?)
    ensures ReadyNext(PlanStep(s, input))
  {
    hide Counted, Covered, AnyBehind;
    var n, t := s.shardCount, PlanStep(s, input);
    NotPublished(s, n, n, n);
    SameCounts(s.local, t.local, n, n, n, 0);
  }

  lemma {:induction false} CatchingUpKeepsReady(s: State, input: Input)
    requires Inv(s) && (s.pc.CatchUp? || s.pc.CheckPoll? || s.pc.Poll? || s.pc.CheckCaughtUp?)
    ensures ReadyNext(CatchUpStep(s, input))
  {
    hide Counted, Covered, AnyBehind;
    var n, t := s.shardCount, CatchUpStep(s, input);
    NotPublished(s, n, n, n);
    SameCounts(s.local, t.local, n, n, n, 0);
    StillCovered(s, t);
  }

  lemma {:induction false} StillCovered(s: State, t: State)
    requires t.artifact == s.artifact && t.observed == s.observed && t.local.progress == s.local.progress
    ensures Covered(s) ==> Covered(t)
  {
  }

  lemma {:induction false} PublishingKeepsReady(s: State, input: Input)
    requires Inv(s) && (s.pc.CheckPublish? || s.pc.Publish? || s.pc.Finish?)
    ensures ReadyNext(CutOverStep(s, input))
  {
    hide Counted, Covered;
    match s.pc
    case Publish(i) =>
      UptoNext(i);
      CountsGrow(s, s.shardCount, s.shardCount, s.shardCount, i);
      SameCovered(s, CutOver(s, i));
      SameCovered(s, Ended(s, Failed));
      SameCounts(s.local, Ended(s, Failed).local, s.shardCount, s.shardCount, s.shardCount, i);
    case CheckPublish(i) =>
      SameCovered(s, CutOverStep(s, input));
      SameCounts(s.local, Ended(s, LoadCancelled).local, s.shardCount, s.shardCount, s.shardCount, i);
    case Finish =>
      SameCovered(s, CutOverStep(s, input));
      SameCounts(s.local, CutOverStep(s, input).local, s.shardCount, s.shardCount, s.shardCount, s.shardCount);
  }

  lemma {:induction false} SameCovered(s: State, t: State)
    requires CaughtUp(s) && t.realtime == s.realtime
    requires t.artifact == s.artifact && t.observed == s.observed && t.local.progress == s.local.progress
    ensures CaughtUp(t)
  {
  }

  lemma {:induction false} WorkerKeepsReady(s: State, input: Input)
    requires Inv(s)
    ensures ReadyNext(WorkerStep(s, input))
  {
    hide ReadyNext, StartStep, LoadStep, PlanStep, CaptureStep, CatchUpStep, CutOverStep, Ordered, Ready, StoredOk;
    hide LocalOk;
    if s.pc.Store? || Over(s.pc) {
      RestKeepsReady(s, input);
    } else if s.pc.Begin? || s.pc.CheckArguments? || s.pc.CheckStart? {
      StartingKeepsReady(s, input);
    } else if s.pc.CheckLoad? || s.pc.LoadShard? || s.pc.CheckPrewarm? || s.pc.Prewarm? {
      LoadingKeepsReady(s, input);
    } else if s.pc.PlanCatchUp? || s.pc.StartRunner? || s.pc.CheckStarted? {
      PlanningKeepsReady(s, input);
    } else if s.pc.FirstCapture? || s.pc.Capture? {
      CaptureKeepsReady(s, input);
    } else if s.pc.CheckPublish? || s.pc.Publish? || s.pc.Finish? {
      PublishingKeepsReady(s, input);
    } else {
      CatchingUpKeepsReady(s, input);
    }
  }

  /** Storing the state, and leaving. */
  lemma {:induction false} RestKeepsReady(s: State, input: Input)
    requires Inv(s) && (s.pc.Store? || Over(s.pc))
    ensures ReadyNext(WorkerStep(s, input))
  {
    hide Counted, AnyBehind;
  }

  ghost predicate LocalOk(s: State) {
    && (s.local.terminal <==> !s.local.code.Running?)
    && (s.local.terminal <==> Over(s.pc) || s.pc == Store(Done))
    && (s.pc.Store? ==> !s.pc.next.Store? && !s.pc.next.Gone?)
    && (s.pc.Begin? ==> s.local.cutoverCount == 0)
    && (s.pc.Store? ==> !s.pc.next.Begin?)
  }

  /** Between two stores: only ending makes the worker's own state terminal, and the entry in loads_ is left alone. */
  ghost predicate KeepsLocal(s: State, t: State) {
    && LocalOk(t) && !Over(t.pc) && t.local.cutoverCount >= s.local.cutoverCount
    && t == s.(pc := t.pc, local := t.local, published := t.published, artifact := t.artifact, observed := t.observed)
    && (s.cancelFlag ==> |t.published| + Allowance(t.pc) <= |s.published| + Allowance(s.pc))
  }

  /** How many shards a worker can still publish once its flag is set: the one it already checked for. */
  function Allowance(pc: Pc): nat {
    match pc case Publish(_) => 1 case Store(next) => Allowance(next) case _ => 0
  }

  lemma {:induction false} StartKeepsLocal(s: State, input: Input)
    requires LocalOk(s) && (s.pc.Begin? || s.pc.CheckArguments? || s.pc.CheckStart?)
    ensures KeepsLocal(s, StartStep(s, input))
  {
  }

  lemma {:induction false} LoadKeepsLocal(s: State, input: Input)
    requires LocalOk(s) && (s.pc.CheckLoad? || s.pc.LoadShard? || s.pc.CheckPrewarm? || s.pc.Prewarm?)
    ensures KeepsLocal(s, LoadStep(s, input))
  {
  }

  lemma {:induction false} CaptureKeepsLocal(s: State, input: Input)
    requires LocalOk(s) && (s.pc.FirstCapture? || s.pc.Capture?)
    ensures KeepsLocal(s, CaptureStep(s, input))
  {
    hide Observe;
  }

  lemma {:induction false} CutOverKeepsLocal(s: State, input: Input)
    requires LocalOk(s) && (s.pc.CheckPublish? || s.pc.Publish? || s.pc.Finish?)
    ensures KeepsLocal(s, CutOverStep(s, input))
  {
  }

  lemma {:induction false} CatchUpKeepsLocal(s: State, input: Input)
    requires LocalOk(s)
    ensures s.pc.PlanCatchUp? || s.pc.StartRunner? || s.pc.CheckStarted? ==> KeepsLocal(s, PlanStep(s, input))
    ensures s.pc.CatchUp? || s.pc.CheckPoll? || s.pc.Poll? || s.pc.CheckCaughtUp? ==>
      KeepsLocal(s, CatchUpStep(s, input))
  {
    hide AnyBehind;
  }

  lemma {:induction false} WorkerKeepsLocal(s: State, input: Input)
    requires LocalOk(s) && !s.pc.Store? && !Over(s.pc)
    ensures KeepsLocal(s, WorkerStep(s, input))
  {
    hide StartStep, LoadStep, PlanStep, CaptureStep, CatchUpStep, CutOverStep, LocalOk, KeepsLocal;
    match s.pc
    case Begin | CheckArguments | CheckStart => StartKeepsLocal(s, input);
    case CheckLoad(_) | LoadShard(_) | CheckPrewarm(_) | Prewarm(_) => LoadKeepsLocal(s, input);
    case FirstCapture | Capture => CaptureKeepsLocal(s, input);
    case CheckPublish(_) | Publish(_) | Finish => CutOverKeepsLocal(s, input);
    case _ => CatchUpKeepsLocal(s, input);
  }

  lemma {:induction false} WorkerKeepsCodes(s: State, input: Input)
    requires LocalOk(s) && StoredOk(s)
    ensures var t := WorkerStep(s, input);
      && LocalOk(t) && StoredOk(t)
      && (s.cancelFlag ==> |t.published| + Allowance(t.pc) <= |s.published| + Allowance(s.pc))
      && t.shardCount == s.shardCount && t.realtime == s.realtime && t.cancelFlag == s.cancelFlag
      && (s.stored.terminal ==> t.stored.terminal && t.stored.code == s.stored.code)
  {
    if !s.pc.Store? && !Over(s.pc) {
      hide WorkerStep;
      WorkerKeepsLocal(s, input);
    }
  }

  lemma {:induction false} WorkerKeepsInv(s: State, input: Input)
    requires Inv(s)
    ensures Inv(WorkerStep(s, input))
    ensures s.stored.terminal ==>
      WorkerStep(s, input).stored.terminal && WorkerStep(s, input).stored.code == s.stored.code
  {
    hide WorkerStep, Ordered, StoredOk, Ready, LocalOk;
    WorkerKeepsReady(s, input);
    WorkerKeepsCodes(s, input);
  }

  /** CancelLoad and the destructor touch the entry and the flag alone. */
  lemma {:induction false} OthersKeepInv(s: State, e: Event)
    requires Inv(s) && !e.Worker?
    ensures Inv(Step(s, e))
    ensures s.stored.terminal ==> Step(s, e).stored.terminal && Step(s, e).stored.code == s.stored.code
  {
    hide Counted, AnyBehind, Ready, Ordered;
    var t := Step(s, e);
    SameWorker(s, t);
  }

  lemma {:induction false} SameWorker(s: State, t: State)
    requires t == s.(stored := t.stored, cancelFlag := t.cancelFlag)
    ensures Ordered(t) == Ordered(s)
    ensures forall pc :: Ready(t, pc) == Ready(s, pc)
  {
    hide Counted, AnyBehind, Reported;
    assert Covered(t) == Covered(s) && CaughtUp(t) == CaughtUp(s);
    hide Covered, CaughtUp;
  }

  lemma {:induction false} StepKeepsInv(s: State, e: Event)
    requires Inv(s)
    ensures Inv(Step(s, e))
    ensures s.stored.terminal ==> Step(s, e).stored.terminal && Step(s, e).stored.code == s.stored.code
  {
    hide Inv, WorkerStep;
    match e
    case Worker(input) => WorkerKeepsInv(s, input);
    case _ => OthersKeepInv(s, e);
  }

  lemma {:induction false} RunKeepsInv(s: State, events: seq<Event>)
    requires Inv(s)
    ensures Inv(Run(s, events)) && Run(s, events).shardCount == s.shardCount && Run(s, events).realtime == s.realtime
    ensures s.stored.terminal ==> Run(s, events).stored.terminal && Run(s, events).stored.code == s.stored.code
    decreases |events|
  {
    hide Inv;
    if events != [] {
      StepKeepsInv(s, events[0]);
      StepKeepsOptions(s, events[0]);
      RunKeepsInv(Step(s, events[0]), events[1..]);
    }
  }

  lemma {:induction false} StepKeepsOptions(s: State, e: Event)
    requires Inv(s)
    ensures Step(s, e).shardCount == s.shardCount && Step(s, e).realtime == s.realtime
  {
    hide WorkerStep, Ordered, StoredOk, Ready, LocalOk;
    if e.Worker? {
      WorkerKeepsCodes(s, e.input);
    }
  }

  lemma {:induction false} StartIsOk(shardCount: nat, realtime: bool)
    requires shardCount > 0
    ensures Inv(Initial(shardCount, realtime))
  {
  }

  // ---- Theorems ----------------------------------------------------------------------------------

  /**
   * In every run the published shards are the prefix that cutover_shard_count counts. Nothing is published before every
   * shard is loaded and prewarmed, and with a realtime layer before every artifact partition's committed offset reached
   * every watermark seen for it. A load that succeeded has published all shards.
   */
  lemma {:induction false} PublishedInOrder(shardCount: nat, realtime: bool, events: seq<Event>)
    requires shardCount > 0
    ensures var s := Run(Initial(shardCount, realtime), events);
      && s.published == Upto(s.local.cutoverCount)
      && s.stored.cutoverCount <= |s.published| && (Over(s.pc) ==> s.stored.cutoverCount == |s.published|)
      && (s.published != [] ==>
            && Counted(s.local, shardCount, shardCount, shardCount, |s.published|)
            && (realtime ==> Covered(s) && forall i :: 0 <= i < |s.local.progress| ==> !Behind(s.local.progress[i])))
      && (s.stored.code.Succeeded? ==> s.published == Upto(shardCount))
  {
    hide Run, Initial, Ready, Covered, Counted;
    StartIsOk(shardCount, realtime);
    RunKeepsInv(Initial(shardCount, realtime), events);
    InitialOptions(shardCount, realtime);
    var s := Run(Initial(shardCount, realtime), events);
    assert |s.published| == s.local.cutoverCount;
  }

  lemma {:induction false} InitialOptions(shardCount: nat, realtime: bool)
    ensures Initial(shardCount, realtime).shardCount == shardCount && Initial(shardCount, realtime).realtime == realtime
  {
  }

  /** The progress that the next capture starts from: the artifact's, until something was observed. */
  function Targets(s: State): seq<PartitionProgress> {
    if s.observed == [] then s.artifact else s.local.progress
  }

  /** No step from the first capture on drops or reorders a target, or lowers its watermark. */
  lemma {:induction false} TargetsOnlyRise(s: State, e: Event)
    requires Inv(s) && Step(s, e).observed != []
    ensures var before, after := Targets(s), Step(s, e).local.progress;
      |after| == |before| && forall i :: 0 <= i < |before| ==>
        SamePartition(after[i], before[i]) && before[i].highWatermark <= after[i].highWatermark
  {
    hide FindProgress, Inv, WorkerStep, CaptureStep;
    if e.Worker? && (s.pc.FirstCapture? || s.pc.Capture?) {
      CaptureStarts(s, e.input);
      if e.input.Ok? && Observe(Targets(s), e.input.get).Ok? {
        CaptureRaises(Targets(s), e.input.get);
      }
    } else if e.Worker? {
      ProgressKept(s, e.input);
    }
  }

  lemma {:induction false} CaptureStarts(s: State, input: Input)
    requires Inv(s) && (s.pc.FirstCapture? || s.pc.Capture?)
    ensures WorkerStep(s, input) == Captured(s, Targets(s), input)
    ensures s.pc.FirstCapture? <==> s.observed == []
  {
    hide Observe, Counted, Reported;
  }

  /** Only captures report progress, and nothing else changes it after the first. */
  lemma {:induction false} ProgressKept(s: State, input: Input)
    requires Inv(s) && !s.pc.FirstCapture? && !s.pc.Capture?
    ensures WorkerStep(s, input).observed == s.observed
    ensures s.observed != [] ==> WorkerStep(s, input).local.progress == s.local.progress
  {
    hide Ready, Ordered, StoredOk, LocalOk, StartStep, LoadStep, PlanStep, CatchUpStep, CutOverStep;
    if Preparing(s.pc) {
      NothingSeen(s);
      PreparingIsQuiet(s, input);
    } else {
      LaterIsQuiet(s, input);
    }
  }

  /** Before the first capture. */
  predicate Preparing(pc: Pc) {
    || pc.Begin? || pc.CheckArguments? || pc.CheckStart? || pc.CheckLoad? || pc.LoadShard? || pc.CheckPrewarm?
    || pc.Prewarm? || pc.PlanCatchUp? || pc.StartRunner? || pc.CheckStarted?
  }

  lemma {:induction false} NothingSeen(s: State)
    requires Inv(s) && Preparing(s.pc)
    ensures s.observed == []
  {
    hide Counted, Ordered, StoredOk, LocalOk;
  }

  lemma {:induction false} PreparingIsQuiet(s: State, input: Input)
    ensures StartStep(s, input).observed == s.observed && LoadStep(s, input).observed == s.observed
    ensures PlanStep(s, input).observed == s.observed
  {
  }

  lemma {:induction false} LaterIsQuiet(s: State, input: Input)
    ensures var t := CatchUpStep(s, input); t.observed == s.observed && t.local.progress == s.local.progress
    ensures var t := CutOverStep(s, input); t.observed == s.observed && t.local.progress == s.local.progress
  {
    hide AnyBehind;
  }

  lemma {:induction false} CaptureRaises(target: seq<PartitionProgress>, observed: seq<PartitionProgress>)
    requires Observe(target, observed).Ok?
    ensures var after := Observe(target, observed).get;
      |after| == |target| && forall i :: 0 <= i < |target| ==>
        SamePartition(after[i], target[i]) && target[i].highWatermark <= after[i].highWatermark
  {
    hide FindProgress;
    var after := Observe(target, observed).get;
    forall i | 0 <= i < |after|
      ensures SamePartition(after[i], target[i]) && target[i].highWatermark <= after[i].highWatermark
    {
      assert after[i] == Raised(target[i], FindProgress(observed, target[i]).get);
    }
  }

  /** The code of a terminal load never changes, whoever ended it. */
  lemma {:induction false} TerminalIsForever(shardCount: nat, realtime: bool, before: seq<Event>, after: seq<Event>)
    requires shardCount > 0
    ensures var s := Run(Initial(shardCount, realtime), before);
      s.stored.terminal ==> Run(s, after).stored.terminal && Run(s, after).stored.code == s.stored.code
  {
    hide Run, Initial, Inv;
    StartIsOk(shardCount, realtime);
    RunKeepsInv(Initial(shardCount, realtime), before);
    RunKeepsInv(Run(Initial(shardCount, realtime), before), after);
  }

  lemma {:induction false} FlaggedStep(s: State, e: Event)
    requires Inv(s) && s.cancelFlag
    ensures var t := Step(s, e); t.cancelFlag && |t.published| + Allowance(t.pc) <= |s.published| + Allowance(s.pc)
  {
    hide WorkerStep, Ordered, StoredOk, Ready, LocalOk;
    if e.Worker? {
      WorkerKeepsCodes(s, e.input);
    }
  }

  lemma {:induction false} FlaggedRun(s: State, events: seq<Event>)
    requires Inv(s) && s.cancelFlag
    ensures |Run(s, events).published| <= |s.published| + Allowance(s.pc)
    decreases |events|
  {
    hide Inv, Step;
    if events != [] {
      FlaggedStep(s, events[0]);
      StepKeepsInv(s, events[0]);
      FlaggedRun(Step(s, events[0]), events[1..]);
    }
  }

  lemma {:induction false} OneAllowed(s: State)
    requires Inv(s)
    ensures Allowance(s.pc) <= 1
    ensures !s.stored.terminal ==> !s.pc.Gone?
  {
    hide Counted, Covered, Ordered;
  }

  /** After CancelLoad returned true the load stays cancelled and publishes at most one more shard. */
  lemma {:induction false} CancelStopsPublishing(shardCount: nat, realtime: bool, before: seq<Event>, after: seq<Event>)
    requires shardCount > 0
    ensures var s := Run(Initial(shardCount, realtime), before);
      var t := Run(Cancel(s), after);
      CancelReturnsTrue(s) ==> |t.published| <= |s.published| + 1 && t.stored.terminal && t.stored.code == LoadCancelled
  {
    hide Run, Initial, Inv;
    StartIsOk(shardCount, realtime);
    RunKeepsInv(Initial(shardCount, realtime), before);
    var s := Run(Initial(shardCount, realtime), before);
    StepKeepsInv(s, CancelLoad);
    OneAllowed(s);
    RunKeepsInv(Cancel(s), after);
    if CancelReturnsTrue(s) {
      FlaggedRun(Cancel(s), after);
    }
  }
}
