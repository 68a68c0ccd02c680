/**
 * How a load ends, src/rebuild/async_load.cc:279-528: what it published is what the publish callback accepted, a call
 * that errs ends it, and one whose calls succeed and whose runner catches up publishes every shard and succeeds.
 */
module LoadOutcomes {
  import opened Basics
  import opened AsyncLoad

  // ---- What was published ------------------------------------------------------------------------

  /** The shard that an event publishes: the worker's publish call for it answered Ok. */
  function Accepted(s: State, e: Event): seq<nat> {
    if s.pc.Publish? && e.Worker? && e.input.Ok? then [s.pc.i] else []
  }

  /** The shards whose publish call answered Ok, in order. */
  ghost function AllAccepted(s: State, events: seq<Event>): seq<nat>
    decreases |events|
  {
    if events == [] then [] else Accepted(s, events[0]) + AllAccepted(Step(s, events[0]), events[1..])
  }

  lemma {:induction false} StepPublishes(s: State, e: Event)
    requires Inv(s)
    ensures Step(s, e).published == s.published + Accepted(s, e)
  {
    hide Observe, AnyBehind, Ordered, StoredOk, LocalOk, Covered;
  }

  lemma {:induction false} RunPublishes(s: State, events: seq<Event>)
    requires Inv(s)
    ensures Run(s, events).published == s.published + AllAccepted(s, events)
    decreases |events|
  {
    hide Inv, Step;
    if events != [] {
      StepPublishes(s, events[0]);
      StepKeepsInv(s, events[0]);
      RunPublishes(Step(s, events[0]), events[1..]);
    }
  }

  /** In every run: published is exactly what the publish callback accepted. */
  lemma {:induction false} PublishedIsAccepted(shardCount: nat, realtime: bool, events: seq<Event>)
    requires shardCount > 0
    ensures Run(Initial(shardCount, realtime), events).published == AllAccepted(Initial(shardCount, realtime), events)
  {
    hide Inv, Run;
    StartIsOk(shardCount, realtime);
    RunPublishes(Initial(shardCount, realtime), events);
    assert Initial(shardCount, realtime).published == [];
  }

  // ---- Errors and cancellation -------------------------------------------------------------------

  /** The worker is about to call its environment. */
  predicate Calling(s: State) {
    || s.pc.CheckArguments? || s.pc.LoadShard? || s.pc.Prewarm? || (s.pc.PlanCatchUp? && s.realtime)
    || s.pc.StartRunner? || s.pc.FirstCapture? || s.pc.Capture? || s.pc.Poll? || s.pc.Publish?
  }

  /** The worker is about to ask whether the load was cancelled. */
  predicate Checking(pc: Pc) {
    || pc.CheckStart? || pc.CheckLoad? || pc.CheckPrewarm? || pc.CheckStarted? || pc.CheckPoll? || pc.CheckCaughtUp?
    || pc.CheckPublish?
  }

  /** The code that the worker ends with when a call errs; a poll that was cancelled is no failure. */
  function CodeOf(s: State, code: Code): LoadCode {
    if s.pc.Poll? && (code == Cancelled || s.cancelFlag) then LoadCancelled else Failed
  }

  predicate EndsWith(s: State, t: State, code: LoadCode) {
    t == s.(local := s.local.(code := code, terminal := true), pc := Store(Done))
  }

  lemma {:induction false} ErrorEnds(s: State, code: Code)
    requires Inv(s) && Calling(s)
    ensures EndsWith(s, Step(s, Worker(Err(code))), CodeOf(s, code))
  {
    hide Observe, AnyBehind, Ordered, StoredOk, LocalOk, Covered;
  }

  lemma {:induction false} FlagEnds(s: State, input: Input)
    requires Inv(s) && Checking(s.pc) && s.cancelFlag
    ensures EndsWith(s, Step(s, Worker(input)), LoadCancelled)
  {
    hide Observe, AnyBehind, Ordered, StoredOk, LocalOk, Covered;
  }

  /** A worker that is done, or has only that left to store, publishes nothing and keeps its code. */
  lemma {:induction false} OverIsQuiet(s: State, events: seq<Event>)
    requires Over(s.pc) || s.pc == Store(Done)
    ensures var t := Run(s, events);
      (Over(t.pc) || t.pc == Store(Done)) && t.published == s.published && t.local.code == s.local.code
    decreases |events|
  {
    hide StartStep, LoadStep, PlanStep, CaptureStep, CatchUpStep, CutOverStep;
    if events != [] {
      OverIsQuiet(Step(s, events[0]), events[1..]);
    }
  }

  /**
   * A call that errs ends the load: whatever follows, nothing more is published, and once the worker has stored its
   * state the load is Failed, or cancelled if the poll was, unless CancelLoad came first.
   */
  lemma {:induction false} ErrorEndsLoad(
      shardCount: nat, realtime: bool, before: seq<Event>, code: Code, after: seq<Event>)
    requires shardCount > 0 && Calling(Run(Initial(shardCount, realtime), before))
    ensures var s := Run(Initial(shardCount, realtime), before);
      var t := Run(Step(s, Worker(Err(code))), after);
      && t.published == s.published && t.local.code == CodeOf(s, code)
      && (after != [] && after[0].Worker? ==>
            t.stored.terminal && t.stored.code == if s.stored.terminal then LoadCancelled else CodeOf(s, code))
  {
    hide Run, Initial, Inv;
    StartIsOk(shardCount, realtime);
    RunKeepsInv(Initial(shardCount, realtime), before);
    var s := Run(Initial(shardCount, realtime), before);
    StepKeepsInv(s, Worker(Err(code)));
    ErrorEnds(s, code);
    OverIsQuiet(Step(s, Worker(Err(code))), after);
    if after != [] && after[0].Worker? {
      StoredLast(s, Step(s, Worker(Err(code))), CodeOf(s, code), after);
    }
  }

  lemma {:induction false} StoredLast(s: State, t: State, code: LoadCode, after: seq<Event>)
    requires Inv(s) && !Over(s.pc) && EndsWith(s, t, code) && Inv(t) && after != [] && after[0].Worker?
    requires code.Failed? || code.LoadCancelled?
    ensures Run(t, after).stored.terminal
    ensures Run(t, after).stored.code == if s.stored.terminal then LoadCancelled else code
  {
    hide Ready, Ordered, Counted;
    var u := Step(t, after[0]);
    StepKeepsInv(t, after[0]);
    assert Run(t, after) == Run(u, after[1..]);
    hide Inv;
    RunKeepsInv(u, after[1..]);
  }

  lemma {:induction false} GoneStays(s: State, events: seq<Event>)
    requires s.pc.Gone?
    ensures Run(s, events).published == s.published
    decreases |events|
  {
    if events != [] {
      GoneStays(Step(s, events[0]), events[1..]);
    }
  }

  /** Once the destructor has set the flags at most one more shard is published. */
  lemma {:induction false} DestroyStopsPublishing(
      shardCount: nat, realtime: bool, before: seq<Event>, after: seq<Event>)
    requires shardCount > 0
    ensures var s := Run(Initial(shardCount, realtime), before);
      |Run(Step(s, Destroy), after).published| <= |s.published| + 1
  {
    hide Run, Initial, Inv;
    StartIsOk(shardCount, realtime);
    RunKeepsInv(Initial(shardCount, realtime), before);
    var s := Run(Initial(shardCount, realtime), before);
    StepKeepsInv(s, Destroy);
    OneAllowed(s);
    if s.pc.Gone? {
      GoneStays(Step(s, Destroy), after);
    } else {
      FlaggedRun(Step(s, Destroy), after);
    }
  }

  // ---- Success -----------------------------------------------------------------------------------

  /** The load's state after n steps of the worker, whose calls answer as given, and of nobody else. */
  ghost function After(shardCount: nat, realtime: bool, answers: nat -> Input, n: nat): State {
    Run(Initial(shardCount, realtime), Events(answers, n))
  }

  function Events(answers: nat -> Input, n: nat): seq<Event> {
    seq(n, k requires 0 <= k < n => Worker(answers(k)))
  }

  predicate Capturing(pc: Pc) {
    pc.FirstCapture? || pc.Capture?
  }

  /** The call succeeds; the first shard's file tells where to catch up from, and captures report every partition. */
  ghost predicate Favourable(s: State, input: Input) {
    && input.Ok?
    && (s.realtime && s.pc == LoadShard(0) ==> input.get != [])
    && (Capturing(s.pc) ==> AllObserved(Targets(s), input.get))
  }

  /** The capture reports committed offsets that have reached the targets and the watermarks it reports itself. */
  ghost predicate ReachesTargets(s: State, input: Input) {
    input.Ok? && AllObserved(Targets(s), input.get) && forall i :: 0 <= i < |Targets(s)| ==>
      var found := FindProgress(input.get, Targets(s)[i]).get;
      Targets(s)[i].highWatermark <= found.committed && found.highWatermark <= found.committed
  }

  predicate InCatchUp(pc: Pc) {
    || pc.StartRunner? || pc.CheckStarted? || pc.FirstCapture? || pc.CatchUp? || pc.CheckPoll? || pc.Poll?
    || pc.Capture? || pc.CheckCaughtUp?
  }

  /** Nothing has gone wrong. */
  ghost predicate Fine(s: State) {
    && !s.cancelFlag
    && !s.local.code.Failed? && !s.local.code.LoadCancelled?
    && !s.stored.code.Failed? && !s.stored.code.LoadCancelled?
    && (s.pc == Store(Done) ==> s.local.code.Succeeded?)
    && (Over(s.pc) ==> s.stored == s.local && s.stored.code.Succeeded?)
    && (InCatchUp(if s.pc.Store? then s.pc.next else s.pc) ==> s.realtime)
    && (s.realtime && s.local.loadedCount > 0 ==> s.artifact != [])
  }

  lemma {:induction false} StartingStaysFine(s: State, input: Input)
    requires Inv(s) && Fine(s) && Favourable(s, input)
    requires s.pc.Begin? || s.pc.CheckArguments? || s.pc.CheckStart?
    ensures Fine(StartStep(s, input))
  {
    hide Covered, AnyBehind, Ordered, Targets, AllObserved;
  }

  lemma {:induction false} LoadingStaysFine(s: State, input: Input)
    requires Inv(s) && Fine(s) && Favourable(s, input)
    requires s.pc.CheckLoad? || s.pc.LoadShard? || s.pc.CheckPrewarm? || s.pc.Prewarm?
    ensures Fine(LoadStep(s, input))
  {
    hide Covered, AnyBehind, Ordered, Targets, AllObserved;
  }

  lemma {:induction false} PlanningStaysFine(s: State, input: Input)
    requires Inv(s) && Fine(s) && Favourable(s, input)
    requires s.pc.PlanCatchUp? || s.pc.StartRunner? || s.pc.CheckStarted?
    ensures Fine(PlanStep(s, input))
  {
    hide Covered, AnyBehind, Ordered, Targets, AllObserved;
  }

  lemma {:induction false} CaptureStaysFine(s: State, input: Input)
    requires Inv(s) && Fine(s) && Favourable(s, input) && Capturing(s.pc)
    ensures Observe(Targets(s), input.get).Ok? && Fine(WorkerStep(s, input))
    ensures WorkerStep(s, input).pc == Store(CatchUp)
    ensures WorkerStep(s, input).local.progress == Observe(Targets(s), input.get).get
  {
    CaptureStarts(s, input);
    assert Targets(s) != [] by {
      hide Counted, AnyBehind, Ordered;
    }
    hide Inv, Covered, AnyBehind, WorkerStep, Observe, Targets, AllObserved;
  }

  lemma {:induction false} CatchingUpStaysFine(s: State, input: Input)
    requires Inv(s) && Fine(s) && Favourable(s, input)
    requires s.pc.CatchUp? || s.pc.CheckPoll? || s.pc.Poll? || s.pc.CheckCaughtUp?
    ensures Fine(CatchUpStep(s, input))
  {
    hide Covered, AnyBehind, Ordered, Targets, AllObserved;
  }

  lemma {:induction false} PublishingStaysFine(s: State, input: Input)
    requires Inv(s) && Fine(s) && Favourable(s, input)
    requires s.pc.CheckPublish? || s.pc.Publish? || s.pc.Finish?
    ensures Fine(CutOverStep(s, input))
  {
    hide Covered, AnyBehind, Ordered, Targets, AllObserved;
  }

  lemma {:induction false} RestStaysFine(s: State, input: Input)
    requires Inv(s) && Fine(s) && (s.pc.Store? || Over(s.pc))
    ensures Fine(WorkerStep(s, input))
  {
    hide Covered, AnyBehind, Ordered, Targets, AllObserved, Counted;
  }

  lemma {:induction false} StaysFine(s: State, input: Input)
    requires Inv(s) && Fine(s) && Favourable(s, input)
    ensures Fine(WorkerStep(s, input))
  {
    hide Inv, Fine, Favourable, StartStep, LoadStep, PlanStep, CaptureStep, CatchUpStep, CutOverStep;
    if s.pc.Store? || Over(s.pc) {
      RestStaysFine(s, input);
    } else if s.pc.Begin? || s.pc.CheckArguments? || s.pc.CheckStart? {
      StartingStaysFine(s, input);
    } else if s.pc.CheckLoad? || s.pc.LoadShard? || s.pc.CheckPrewarm? || s.pc.Prewarm? {
      LoadingStaysFine(s, input);
    } else if s.pc.PlanCatchUp? || s.pc.StartRunner? || s.pc.CheckStarted? {
      PlanningStaysFine(s, input);
    } else if Capturing(s.pc) {
      CaptureStaysFine(s, input);
    } else if s.pc.CheckPublish? || s.pc.Publish? || s.pc.Finish? {
      PublishingStaysFine(s, input);
    } else {
      CatchingUpStaysFine(s, input);
    }
  }

  /** Steps that are left at most, once every capture reports the targets reached. */
  function StepsLeft(s: State, pc: Pc): nat
    requires pc.Store? ==> !pc.next.Store?
  {
    var n := 3 * s.shardCount;
    match pc
    case Gone => 0
    case Done => 1
    case Store(next) => 1 + StepsLeft(s, next)
    case Finish => 3
    case Publish(i) => if i < s.shardCount then 3 * (s.shardCount - i) + 3 else 0
    case CheckPublish(i) => if i < s.shardCount then 3 * (s.shardCount - i) + 4 else 0
    case CheckCaughtUp => n + 5
    case CatchUp => if AnyBehind(s.local.progress) then n + 11 else n + 6
    case Capture => n + 8
    case Poll => n + 9
    case CheckPoll => n + 10
    case FirstCapture => n + 8
    case CheckStarted => n + 9
    case StartRunner => n + 10
    case PlanCatchUp => n + 12
    case Prewarm(i) => if i < s.shardCount then n + 11 + 3 * (s.shardCount - i) else 0
    case CheckPrewarm(i) => if i < s.shardCount then n + 12 + 3 * (s.shardCount - i) else 0
    case LoadShard(i) => if i < s.shardCount then 2 * n + 11 + 3 * (s.shardCount - i) else 0
    case CheckLoad(i) => if i < s.shardCount then 2 * n + 12 + 3 * (s.shardCount - i) else 0
    case CheckStart => 3 * n + 13
    case CheckArguments => 3 * n + 14
    case Begin => 3 * n + 16
  }

  /** What is left for the worker, from a state that the invariant holds of. */
  ghost function Left(s: State): nat
    requires Inv(s)
  {
    StepsLeft(s, s.pc)
  }

  lemma {:induction false} NoneBehind(s: State, input: Input)
    requires Inv(s) && Fine(s) && Favourable(s, input) && Capturing(s.pc) && ReachesTargets(s, input)
    ensures WorkerStep(s, input).pc == Store(CatchUp) && !AnyBehind(WorkerStep(s, input).local.progress)
    ensures WorkerStep(s, input).shardCount == s.shardCount
  {
    hide Inv, Targets, FindProgress, Fine, WorkerStep;
    CaptureStaysFine(s, input);
    StepKeepsOptions(s, Worker(input));
  }

  lemma {:induction false} StartingFalls(s: State, input: Input)
    requires Inv(s) && Fine(s) && input.Ok? && (s.pc.Begin? || s.pc.CheckArguments? || s.pc.CheckStart?)
    ensures var t := StartStep(s, input);
      (t.pc.Store? ==> !t.pc.next.Store?) && StepsLeft(t, t.pc) < StepsLeft(s, s.pc)
  {
    hide Covered, Ordered, AnyBehind;
  }

  lemma {:induction false} LoadingFalls(s: State, input: Input)
    requires Inv(s) && Fine(s) && input.Ok?
    requires s.pc.CheckLoad? || s.pc.LoadShard? || s.pc.CheckPrewarm? || s.pc.Prewarm?
    ensures var t := LoadStep(s, input);
      (t.pc.Store? ==> !t.pc.next.Store?) && StepsLeft(t, t.pc) < StepsLeft(s, s.pc)
  {
    hide Covered, Ordered, AnyBehind;
  }

  lemma {:induction false} PlanningFalls(s: State, input: Input)
    requires Inv(s) && Fine(s) && input.Ok? && (s.pc.PlanCatchUp? || s.pc.StartRunner? || s.pc.CheckStarted?)
    ensures var t := PlanStep(s, input);
      (t.pc.Store? ==> !t.pc.next.Store?) && StepsLeft(t, t.pc) < StepsLeft(s, s.pc)
  {
    hide Covered, Ordered, AnyBehind;
  }

  lemma {:induction false} CatchingUpFalls(s: State, input: Input)
    requires Inv(s) && Fine(s) && input.Ok?
    requires s.pc.CatchUp? || s.pc.CheckPoll? || s.pc.Poll? || s.pc.CheckCaughtUp?
    ensures var t := CatchUpStep(s, input);
      (t.pc.Store? ==> !t.pc.next.Store?) && StepsLeft(t, t.pc) < StepsLeft(s, s.pc)
  {
    hide Covered, Ordered, AnyBehind;
  }

  lemma {:induction false} PublishingFalls(s: State, input: Input)
    requires Inv(s) && Fine(s) && input.Ok? && (s.pc.CheckPublish? || s.pc.Publish? || s.pc.Finish?)
    ensures var t := CutOverStep(s, input);
      (t.pc.Store? ==> !t.pc.next.Store?) && StepsLeft(t, t.pc) < StepsLeft(s, s.pc)
  {
    hide Covered, Ordered, AnyBehind;
  }

  lemma {:induction false} RestFalls(s: State, input: Input)
    requires Inv(s) && (s.pc.Store? || s.pc.Done?)
    ensures var t := WorkerStep(s, input);
      (t.pc.Store? ==> !t.pc.next.Store?) && StepsLeft(t, t.pc) < StepsLeft(s, s.pc)
  {
    hide Covered, Ordered, AnyBehind;
  }

  /** Every step brings the worker closer to its end, if captures report the targets reached. */
  lemma {:induction false} StepsFall(s: State, input: Input)
    requires Inv(s) && Fine(s) && Favourable(s, input) && !s.pc.Gone?
    requires Capturing(s.pc) ==> ReachesTargets(s, input)
    ensures Inv(WorkerStep(s, input)) && Left(WorkerStep(s, input)) < Left(s)
  {
    hide Fine, ReachesTargets, StartStep, LoadStep, PlanStep, CaptureStep, CatchUpStep, CutOverStep;
    hide Ready, Ordered, StoredOk;
    WorkerKeepsInv(s, input);
    if s.pc.Store? || Over(s.pc) {
      RestFalls(s, input);
    } else if s.pc.Begin? || s.pc.CheckArguments? || s.pc.CheckStart? {
      StartingFalls(s, input);
    } else if s.pc.CheckLoad? || s.pc.LoadShard? || s.pc.CheckPrewarm? || s.pc.Prewarm? {
      LoadingFalls(s, input);
    } else if s.pc.PlanCatchUp? || s.pc.StartRunner? || s.pc.CheckStarted? {
      PlanningFalls(s, input);
    } else if Capturing(s.pc) {
      NoneBehind(s, input);
    } else if s.pc.CheckPublish? || s.pc.Publish? || s.pc.Finish? {
      PublishingFalls(s, input);
    } else {
      CatchingUpFalls(s, input);
    }
  }

  lemma {:induction false} RunEnd(s: State, events: seq<Event>, e: Event)
    ensures Run(s, events + [e]) == Step(Run(s, events), e)
    decreases |events|
  {
    hide Step;
    if events == [] {
      assert events + [e] == [e] && [e][1..] == [];
      assert Run(s, [e]) == Run(Step(s, e), []);
    } else {
      assert (events + [e])[1..] == events[1..] + [e];
      RunEnd(Step(s, events[0]), events[1..], e);
    }
  }

  lemma {:induction false} OneMore(shardCount: nat, realtime: bool, answers: nat -> Input, n: nat)
    ensures After(shardCount, realtime, answers, n + 1)
         == WorkerStep(After(shardCount, realtime, answers, n), answers(n))
  {
    hide Run, WorkerStep;
    assert Events(answers, n + 1) == Events(answers, n) + [Worker(answers(n))];
    RunEnd(Initial(shardCount, realtime), Events(answers, n), Worker(answers(n)));
  }

  /** Every call of the load succeeds. */
  ghost predicate AllFavourable(shardCount: nat, realtime: bool, answers: nat -> Input) {
    forall n: nat :: Favourable(After(shardCount, realtime, answers, n), answers(n))
  }

  lemma {:induction false} AlwaysFine(shardCount: nat, realtime: bool, answers: nat -> Input, n: nat)
    requires shardCount > 0
    requires forall m: nat :: m < n ==> Favourable(After(shardCount, realtime, answers, m), answers(m))
    ensures Inv(After(shardCount, realtime, answers, n)) && Fine(After(shardCount, realtime, answers, n))
    decreases n
  {
    if n == 0 {
      StartIsOk(shardCount, realtime);
      assert Events(answers, 0) == [];
    } else {
      hide Inv, Fine, After, Favourable, WorkerStep;
      AlwaysFine(shardCount, realtime, answers, n - 1);
      OneMore(shardCount, realtime, answers, n - 1);
      var s := After(shardCount, realtime, answers, n - 1);
      StaysFine(s, answers(n - 1));
      WorkerKeepsInv(s, answers(n - 1));
    }
  }

  /** From the k-th step on every capture reports the targets reached. */
  ghost predicate CatchesUpFrom(shardCount: nat, realtime: bool, answers: nat -> Input, k: nat) {
    forall n: nat :: n >= k && Capturing(After(shardCount, realtime, answers, n).pc) ==>
      ReachesTargets(After(shardCount, realtime, answers, n), answers(n))
  }

  lemma {:induction false} Ends(shardCount: nat, realtime: bool, answers: nat -> Input, k: nat, n: nat)
    returns (end: nat)
    requires shardCount > 0 && AllFavourable(shardCount, realtime, answers)
    requires CatchesUpFrom(shardCount, realtime, answers, k) && n >= k
    requires Inv(After(shardCount, realtime, answers, n))
    ensures After(shardCount, realtime, answers, end).pc.Gone?
    decreases Left(After(shardCount, realtime, answers, n))
  {
    hide Inv, Fine, After, Favourable, WorkerStep, ReachesTargets;
    var s := After(shardCount, realtime, answers, n);
    if s.pc.Gone? {
      end := n;
    } else {
      AlwaysFine(shardCount, realtime, answers, n);
      StepsFall(s, answers(n));
      OneMore(shardCount, realtime, answers, n);
      end := Ends(shardCount, realtime, answers, k, n + 1);
    }
  }

  /**
   * A load whose calls all succeed, that nobody cancels, and whose captures report the targets reached from some point
   * on, ends: it has succeeded, every shard is published, in order, and reported as loaded, prewarmed and cut over.
   * Without a realtime layer it captures nothing.
   */
  lemma {:induction false} LoadSucceeds(shardCount: nat, realtime: bool, answers: nat -> Input, k: nat)
    returns (end: nat)
    requires shardCount > 0 && AllFavourable(shardCount, realtime, answers)
    requires realtime ==> CatchesUpFrom(shardCount, realtime, answers, k)
    ensures var s := After(shardCount, realtime, answers, end);
      && s.pc.Gone? && s.stored.terminal && s.stored.code.Succeeded? && s.published == Upto(shardCount)
      && Counted(s.stored, shardCount, shardCount, shardCount, shardCount)
  {
    hide Inv, After, Run, Initial, Favourable, ReachesTargets, Counted;
    if !realtime {
      forall n: nat
        ensures !Capturing(After(shardCount, realtime, answers, n).pc)
      {
        AlwaysFine(shardCount, realtime, answers, n);
        OptionsKept(shardCount, realtime, answers, n);
      }
    }
    AlwaysFine(shardCount, realtime, answers, k);
    end := Ends(shardCount, realtime, answers, k, k);
    AlwaysFine(shardCount, realtime, answers, end);
    EndIsStored(shardCount, realtime, answers, end);
  }

  /** In full-snapshot mode it is enough that every call answers Ok. */
  lemma {:induction false} SnapshotLoadSucceeds(shardCount: nat, answers: nat -> Input) returns (end: nat)
    requires shardCount > 0 && forall n: nat :: answers(n).Ok?
    ensures var s := After(shardCount, false, answers, end);
      && s.pc.Gone? && s.stored.terminal && s.stored.code.Succeeded? && s.published == Upto(shardCount)
      && Counted(s.stored, shardCount, shardCount, shardCount, shardCount)
  {
    hide Inv, After, Counted;
    forall n: nat
      ensures Favourable(After(shardCount, false, answers, n), answers(n))
    {
      OkIsFavourable(shardCount, answers, n);
    }
    end := LoadSucceeds(shardCount, false, answers, 0);
  }

  lemma {:induction false} OkIsFavourable(shardCount: nat, answers: nat -> Input, n: nat)
    requires shardCount > 0 && forall m: nat :: answers(m).Ok?
    ensures forall m: nat :: m <= n ==> Favourable(After(shardCount, false, answers, m), answers(m))
    decreases n
  {
    hide Inv, After;
    if n > 0 {
      OkIsFavourable(shardCount, answers, n - 1);
    }
    AlwaysFine(shardCount, false, answers, n);
    OptionsKept(shardCount, false, answers, n);
  }

  lemma {:induction false} OptionsKept(shardCount: nat, realtime: bool, answers: nat -> Input, n: nat)
    requires shardCount > 0
    ensures After(shardCount, realtime, answers, n).realtime == realtime
  {
    hide Inv, Run;
    StartIsOk(shardCount, realtime);
    RunKeepsInv(Initial(shardCount, realtime), Events(answers, n));
  }

  lemma {:induction false} EndIsStored(shardCount: nat, realtime: bool, answers: nat -> Input, n: nat)
    requires shardCount > 0
    ensures var s := After(shardCount, realtime, answers, n);
      s.stored.code.Succeeded? ==>
        && s.stored.terminal && s.published == Upto(shardCount)
        && Counted(s.local, shardCount, shardCount, shardCount, shardCount)
  {
    var events := Events(answers, n);
    PublishedInOrder(shardCount, realtime, events);
    hide Run, Initial, Counted, Covered, Ready, Ordered;
    StartIsOk(shardCount, realtime);
    RunKeepsInv(Initial(shardCount, realtime), events);
  }
}
