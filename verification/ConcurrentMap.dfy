/**
 * RealtimeAtomicHashMap under concurrency, src/store/realtime_delta.cc: any number of publisher and
 * reader threads, one atomic access to shared memory per step, sequentially consistent.
 */
module ConcurrentMap {
  import opened Basics
  import opened Counting
  import opened Probing

  /** A published row; `id` is the identity of the pointer that compare_exchange compares. */
  datatype RowRef = RowRef(id: nat, key: u64, position: SourcePosition)

  datatype SlotState = Empty | Reserved | Occupied

  /** Auxiliary record of the CAS that took a slot. No step reads it. */
  datatype Claim = Unclaimed | Claim(key: u64, probe: nat, owner: nat)

  datatype Slot = Slot(state: SlotState, key: u64, row: Option<RowRef>, claim: Claim)

  /** Program counter and locals of a thread. `start` is auxiliary: the row visible when the Get began. */
  datatype Thread =
    | Idle
    | PubProbe(key: u64, row: RowRef, probe: nat)      // about to load slot.state
    | PubReadKey(key: u64, row: RowRef, probe: nat)    // saw Occupied, about to compare slot.primary_key
    | PubReserve(key: u64, row: RowRef, probe: nat)    // saw Empty, about to CAS Empty -> Reserved
    | PubWriteKey(key: u64, row: RowRef, probe: nat)   // owns the slot, about to write primary_key
    | PubWriteRow(key: u64, row: RowRef, probe: nat)   // about to store latest_row
    | PubOccupy(key: u64, row: RowRef, probe: nat)     // about to store Occupied
    | PubCount(key: u64, row: RowRef, probe: nat)      // about to increment unique_key_count
    | PubLoadRow(key: u64, row: RowRef, probe: nat)    // PublishExisting, about to load latest_row
    | PubSwapRow(key: u64, row: RowRef, probe: nat, current: RowRef)  // about to CAS latest_row
    | PubDone(key: u64, published: Option<RowRef>, accepted: Result<bool>)
    | GetProbe(key: u64, probe: nat, start: Option<RowRef>)
    | GetReadKey(key: u64, probe: nat, start: Option<RowRef>)
    | GetReadRow(key: u64, probe: nat, start: Option<RowRef>)
    | GetDone(key: u64, start: Option<RowRef>, result: Result<Option<RowRef>>)

  datatype Config = Config(capacity: nat, hash: u64 -> u64)

  datatype State = State(slots: seq<Slot>, uniqueKeyCount: nat, threads: seq<Thread>)

  /** What the environment decides about a step: a new call, or whether a weak CAS fails for no reason. */
  datatype Input = StartPublish(key: u64, row: Option<RowRef>) | StartGet(key: u64) | Continue(spurious: bool)

  datatype Event = Event(thread: nat, input: Input)

  function ProbeIndex(c: Config, key: u64, probe: nat): (i: nat)
    requires c.capacity > 0
    ensures i < c.capacity
  {
    ProbeSlot(c.hash(key), probe, c.capacity)
  }

  function Init(c: Config, threads: nat): State {
    State(seq(c.capacity, _ => Slot(Empty, 0, None, Unclaimed)), 0, seq(threads, _ => Idle))
  }

  predicate Sized(c: Config, s: State) {
    |s.slots| == c.capacity
  }

  function Goto(s: State, t: nat, th: Thread): State
    requires t < |s.threads|
  {
    s.(threads := s.threads[t := th])
  }

  function Store(s: State, i: nat, slot: Slot): State
    requires i < |s.slots|
  {
    s.(slots := s.slots[i := slot])
  }

  predicate Free(th: Thread) {
    th.Idle? || th.PubDone? || th.GetDone?
  }

  function StartThread(c: Config, s: State, input: Input): Thread
    requires !input.Continue?
    requires Sized(c, s)
  {
    match input
    case StartGet(key) =>
      if c.capacity == 0 then GetDone(key, None, Ok(None)) else GetProbe(key, 0, VisibleScan(s, key, 0))
    case StartPublish(key, row) =>
      if row.None? then PubDone(key, None, Err(InvalidArgument))
      else if row.value.key != key then PubDone(key, None, Err(InvalidArgument))
      else if !IsValidSourcePosition(row.value.position) then PubDone(key, None, Err(InvalidArgument))
      else if c.capacity == 0 then PubDone(key, row, Err(FailedPrecondition))
      else PubProbe(key, row.value, 0)
  }

  /** One atomic step of a publisher. */
  function PublishStep(c: Config, s: State, t: nat, spurious: bool): (s': State)
    requires Sized(c, s) && t < |s.threads| && c.capacity > 0
    ensures Sized(c, s') && |s'.threads| == |s.threads|
  {
    match s.threads[t]
    case PubProbe(key, row, probe) =>
      if probe >= c.capacity then Goto(s, t, PubDone(key, Some(row), Err(FailedPrecondition)))
      else (match s.slots[ProbeIndex(c, key, probe)].state
            case Reserved => Goto(s, t, PubDone(key, Some(row), Err(Unavailable)))
            case Occupied => Goto(s, t, PubReadKey(key, row, probe))
            case Empty => Goto(s, t, PubReserve(key, row, probe)))
    case PubReadKey(key, row, probe) =>
      if s.slots[ProbeIndex(c, key, probe)].key == key then Goto(s, t, PubLoadRow(key, row, probe))
      else Goto(s, t, PubProbe(key, row, probe + 1))
    case PubReserve(key, row, probe) =>
      var i := ProbeIndex(c, key, probe);
      if s.slots[i].state.Empty? then
        Goto(Store(s, i, s.slots[i].(state := Reserved, claim := Claim(key, probe, t))), t,
             PubWriteKey(key, row, probe))
      else Goto(s, t, PubProbe(key, row, probe))
    case PubWriteKey(key, row, probe) =>
      var i := ProbeIndex(c, key, probe);
      Goto(Store(s, i, s.slots[i].(key := key)), t, PubWriteRow(key, row, probe))
    case PubWriteRow(key, row, probe) =>
      var i := ProbeIndex(c, key, probe);
      Goto(Store(s, i, s.slots[i].(row := Some(row))), t, PubOccupy(key, row, probe))
    case PubOccupy(key, row, probe) =>
      var i := ProbeIndex(c, key, probe);
      Goto(Store(s, i, s.slots[i].(state := Occupied)), t, PubCount(key, row, probe))
    case PubCount(key, row, probe) =>
      Goto(s.(uniqueKeyCount := s.uniqueKeyCount + 1), t, PubDone(key, Some(row), Ok(true)))
    case PubLoadRow(key, row, probe) =>
      var current := s.slots[ProbeIndex(c, key, probe)].row;
      if current.None? then Goto(s, t, PubDone(key, Some(row), Err(Internal)))
      else (match ClassifySourcePositionUpdate(current.value.position, row.position)
            case Err(code) => Goto(s, t, PubDone(key, Some(row), Err(code)))
            case Ok(Newer) => Goto(s, t, PubSwapRow(key, row, probe, current.value))
            case Ok(_) => Goto(s, t, PubDone(key, Some(row), Ok(false))))
    case PubSwapRow(key, row, probe, current) =>
      var i := ProbeIndex(c, key, probe);
      if s.slots[i].row == Some(current) && !spurious then
        Goto(Store(s, i, s.slots[i].(row := Some(row))), t, PubDone(key, Some(row), Ok(true)))
      else Goto(s, t, PubLoadRow(key, row, probe))
    case _ => s
  }

  /** One atomic step of a reader. */
  function GetStep(c: Config, s: State, t: nat): (s': State)
    requires Sized(c, s) && t < |s.threads| && c.capacity > 0
    ensures s'.slots == s.slots && s'.uniqueKeyCount == s.uniqueKeyCount && |s'.threads| == |s.threads|
  {
    match s.threads[t]
    case GetProbe(key, probe, start) =>
      if probe >= c.capacity || !s.slots[ProbeIndex(c, key, probe)].state.Occupied? then
        Goto(s, t, GetDone(key, start, Ok(None)))
      else Goto(s, t, GetReadKey(key, probe, start))
    case GetReadKey(key, probe, start) =>
      if s.slots[ProbeIndex(c, key, probe)].key != key then Goto(s, t, GetProbe(key, probe + 1, start))
      else Goto(s, t, GetReadRow(key, probe, start))
    case GetReadRow(key, probe, start) =>
      var row := s.slots[ProbeIndex(c, key, probe)].row;
      Goto(s, t, GetDone(key, start, if row.None? then Err(Internal) else Ok(row)))
    case _ => s
  }

  function Step(c: Config, s: State, e: Event): (s': State)
    requires Sized(c, s)
    ensures Sized(c, s') && |s'.threads| == |s.threads|
  {
    if e.thread >= |s.threads| then s
    else if !e.input.Continue? then
      if Free(s.threads[e.thread]) then Goto(s, e.thread, StartThread(c, s, e.input)) else s
    else if c.capacity == 0 then s
    else
      match s.threads[e.thread]
      case GetProbe(_, _, _) => GetStep(c, s, e.thread)
      case GetReadKey(_, _, _) => GetStep(c, s, e.thread)
      case GetReadRow(_, _, _) => GetStep(c, s, e.thread)
      case _ => PublishStep(c, s, e.thread, e.input.spurious)
  }

  /** The state after the events es, in order, for every interleaving es. */
  function Run(c: Config, s: State, es: seq<Event>): (s': State)
    requires Sized(c, s)
    ensures Sized(c, s') && |s'.threads| == |s.threads|
    decreases |es|
  {
    if es == [] then s else Step(c, Run(c, s, es[..|es| - 1]), es[|es| - 1])
  }

  // ---- What is visible -------------------------------------------------------------------------

  predicate Holds(s: State, i: nat, key: u64) {
    i < |s.slots| && s.slots[i].state.Occupied? && s.slots[i].key == key
  }

  /** The row of the first occupied slot of the key, from slot i on. */
  function VisibleScan(s: State, key: u64, i: nat): Option<RowRef>
    decreases |s.slots| - i
  {
    if i >= |s.slots| then None
    else if Holds(s, i, key) then s.slots[i].row
    else VisibleScan(s, key, i + 1)
  }

  function Visible(s: State, key: u64): Option<RowRef> {
    VisibleScan(s, key, 0)
  }

  /** The key is visible with a position at or after p. */
  predicate Served(s: State, key: u64, p: SourcePosition) {
    Visible(s, key).Some? && AtLeast(Visible(s, key).value.position, p)
  }

  // ---- The invariant ---------------------------------------------------------------------------

  /** The first p probes of the key met occupied slots of other keys. */
  ghost predicate Probed(c: Config, s: State, key: u64, p: nat)
    requires Sized(c, s) && c.capacity > 0
  {
    forall q :: 0 <= q < p ==> Passed(c, s, key, q)
  }

  predicate Passed(c: Config, s: State, key: u64, q: nat)
    requires Sized(c, s) && c.capacity > 0
  {
    var slot := s.slots[ProbeIndex(c, key, q)];
    slot.state.Occupied? && slot.key != key
  }

  ghost predicate SlotOk(c: Config, s: State, i: nat)
    requires Sized(c, s) && i < |s.slots|
  {
    var slot := s.slots[i];
    && (slot.state.Empty? <==> slot.claim.Unclaimed?)
    && (slot.claim.Claim? ==>
          && slot.claim.probe < c.capacity
          && ProbeIndex(c, slot.claim.key, slot.claim.probe) == i
          && Probed(c, s, slot.claim.key, slot.claim.probe))
    && (slot.state.Reserved? ==> slot.claim.owner < |s.threads| && Owns(c, s.threads[slot.claim.owner], i))
    && (slot.state.Occupied? ==>
          && slot.claim.key == slot.key
          && slot.row.Some? && slot.row.value.key == slot.key && IsValidSourcePosition(slot.row.value.position))
  }

  predicate Writing(th: Thread) {
    th.PubWriteKey? || th.PubWriteRow? || th.PubOccupy?
  }

  predicate Owns(c: Config, th: Thread, i: nat)
    requires c.capacity > 0
  {
    Writing(th) && ProbeIndex(c, th.key, th.probe) == i
  }

  /** No two slots are claimed for the same key. */
  ghost predicate Unique(s: State) {
    forall i, j :: 0 <= i < j < |s.slots| && s.slots[i].claim.Claim? && s.slots[j].claim.Claim?
      ==> s.slots[i].claim.key != s.slots[j].claim.key
  }

  ghost predicate AtSlot(c: Config, s: State, key: u64, probe: nat)
    requires Sized(c, s) && c.capacity > 0
  {
    probe < c.capacity && Holds(s, ProbeIndex(c, key, probe), key)
  }

  ghost predicate ThreadOk(c: Config, s: State, t: nat, th: Thread)
    requires Sized(c, s) && c.capacity > 0
  {
    match th
    case Idle => true
    case PubProbe(key, row, probe) => GoodRow(key, row) && Probed(c, s, key, probe)
    case PubReadKey(key, row, probe) =>
      GoodRow(key, row) && Probed(c, s, key, probe) && probe < c.capacity
      && s.slots[ProbeIndex(c, key, probe)].state.Occupied?
    case PubReserve(key, row, probe) => GoodRow(key, row) && Probed(c, s, key, probe) && probe < c.capacity
    case PubWriteKey(key, row, probe) => GoodRow(key, row) && Claimed(c, s, t, key, probe)
    case PubWriteRow(key, row, probe) =>
      GoodRow(key, row) && Claimed(c, s, t, key, probe) && s.slots[ProbeIndex(c, key, probe)].key == key
    case PubOccupy(key, row, probe) =>
      GoodRow(key, row) && Claimed(c, s, t, key, probe)
      && s.slots[ProbeIndex(c, key, probe)].key == key && s.slots[ProbeIndex(c, key, probe)].row == Some(row)
    case PubCount(key, row, probe) => GoodRow(key, row) && Served(s, key, row.position)
    case PubLoadRow(key, row, probe) => GoodRow(key, row) && AtSlot(c, s, key, probe)
    case PubSwapRow(key, row, probe, current) =>
      GoodRow(key, row) && AtSlot(c, s, key, probe)
      && ClassifySourcePositionUpdate(current.position, row.position) == Ok(Newer)
    case PubDone(key, published, accepted) =>
      && (accepted.Ok? ==> published.Some? && Served(s, key, published.value.position))
      && (accepted.Err? ==> accepted.code != Internal)
    case GetProbe(key, probe, start) => Probed(c, s, key, probe) && StartServed(s, key, start)
    case GetReadKey(key, probe, start) =>
      Probed(c, s, key, probe) && StartServed(s, key, start)
      && probe < c.capacity && s.slots[ProbeIndex(c, key, probe)].state.Occupied?
    case GetReadRow(key, probe, start) => StartServed(s, key, start) && AtSlot(c, s, key, probe)
    case GetDone(key, start, result) => GetOk(s, key, start, result)
  }

  ghost predicate GoodRow(key: u64, row: RowRef) {
    row.key == key && IsValidSourcePosition(row.position)
  }

  ghost predicate Claimed(c: Config, s: State, t: nat, key: u64, probe: nat)
    requires Sized(c, s) && c.capacity > 0
  {
    var slot := s.slots[ProbeIndex(c, key, probe)];
    slot.state.Reserved? && slot.claim == Claim(key, probe, t)
  }

  ghost predicate StartServed(s: State, key: u64, start: Option<RowRef>) {
    start.Some? ==> Served(s, key, start.value.position)
  }

  /** A finished Get: no error, no miss of a key visible at its start, nothing older than what was visible then. */
  ghost predicate GetOk(s: State, key: u64, start: Option<RowRef>, result: Result<Option<RowRef>>) {
    && result.Ok?
    && (start.Some? ==> result.get.Some? && AtLeast(result.get.value.position, start.value.position))
    && (result.get.Some? ==> result.get.value.key == key && Served(s, key, result.get.value.position))
  }

  ghost predicate Counted(s: State) {
    Count(IsOccupied, s.slots) == s.uniqueKeyCount + Count(IsCounting, s.threads)
  }

  predicate IsOccupied(slot: Slot) {
    slot.state.Occupied?
  }

  predicate IsCounting(th: Thread) {
    th.PubCount?
  }

  ghost predicate Inv(c: Config, s: State) {
    && Sized(c, s)
    && (c.capacity > 0 ==>
          && (forall i :: 0 <= i < |s.slots| ==> SlotOk(c, s, i))
          && Unique(s)
          && (forall t :: 0 <= t < |s.threads| ==> ThreadOk(c, s, t, s.threads[t])))
    && Counted(s)
  }

  // ---- Scanning for the visible row --------------------------------------------------------------

  /** The only occupied slot of a key is what Visible finds. */
  lemma {:induction false} ScanFinds(s: State, key: u64, i: nat, j: nat)
    requires j <= i && Holds(s, i, key)
    requires forall k :: 0 <= k < |s.slots| && Holds(s, k, key) ==> k == i
    ensures VisibleScan(s, key, j) == s.slots[i].row
    decreases i - j
  {
    if j < i {
      ScanFinds(s, key, i, j + 1);
    }
  }

  lemma {:induction false} ScanSource(s: State, key: u64, j: nat) returns (i: nat)
    requires VisibleScan(s, key, j).Some?
    ensures Holds(s, i, key) && s.slots[i].row == VisibleScan(s, key, j)
    decreases |s.slots| - j
  {
    if Holds(s, j, key) {
      i := j;
    } else {
      i := ScanSource(s, key, j + 1);
    }
  }

  ghost predicate SlotsOk(c: Config, s: State)
    requires c.capacity > 0
  {
    Sized(c, s) && (forall i :: 0 <= i < |s.slots| ==> SlotOk(c, s, i)) && Unique(s)
  }

  lemma {:induction false} VisibleIs(c: Config, s: State, i: nat, key: u64)
    requires c.capacity > 0 && SlotsOk(c, s) && Holds(s, i, key)
    ensures Visible(s, key) == s.slots[i].row
  {
    forall k | 0 <= k < |s.slots| && Holds(s, k, key)
      ensures k == i
    {
      assert SlotOk(c, s, k) && SlotOk(c, s, i);
      assert s.slots[k].claim.key == s.slots[i].claim.key;
    }
    ScanFinds(s, key, i, 0);
  }

  // ---- What one step may do to a slot ------------------------------------------------------------

  function Rank(state: SlotState): nat {
    match state case Empty => 0 case Reserved => 1 case Occupied => 2
  }

  /** States only advance; a claim and an occupied slot's key are fixed; its row only moves forward. */
  ghost predicate SlotLe(a: Slot, b: Slot) {
    && Rank(a.state) <= Rank(b.state)
    && (!a.state.Empty? ==> b.claim == a.claim)
    && (a.state.Occupied? ==>
          && b.key == a.key
          && a.row.Some? && b.row.Some?
          && (b.row == a.row || (AtLeast(b.row.value.position, a.row.value.position)
                                 && b.row.value.position.offset > a.row.value.position.offset)))
  }

  ghost predicate Le(s: State, s': State) {
    && |s.slots| == |s'.slots| && |s.threads| == |s'.threads|
    && forall i :: 0 <= i < |s.slots| ==> SlotLe(s.slots[i], s'.slots[i])
  }

  lemma {:induction false} StepGrows(c: Config, s: State, e: Event)
    requires Inv(c, s)
    ensures Le(s, Step(c, s, e))
  {
    if e.thread < |s.threads| {
      assert c.capacity > 0 ==> ThreadOk(c, s, e.thread, s.threads[e.thread]);
    }
    forall i | 0 <= i < |s.slots|
      ensures SlotLe(s.slots[i], Step(c, s, e).slots[i])
    {
      assert SlotOk(c, s, i);
    }
  }

  // ---- Facts that survive growth -----------------------------------------------------------------

  lemma {:induction false} ProbedGrows(c: Config, s: State, s': State, key: u64, p: nat)
    requires c.capacity > 0 && Sized(c, s) && Le(s, s') && Probed(c, s, key, p)
    ensures Probed(c, s', key, p)
  {
    forall q | 0 <= q < p
      ensures Passed(c, s', key, q)
    {
      assert Passed(c, s, key, q);
      assert SlotLe(s.slots[ProbeIndex(c, key, q)], s'.slots[ProbeIndex(c, key, q)]);
    }
  }

  lemma {:induction false} ServedGrows(c: Config, s: State, s': State, key: u64, p: SourcePosition)
    requires c.capacity > 0 && SlotsOk(c, s) && SlotsOk(c, s') && Le(s, s') && Served(s, key, p)
    ensures Served(s', key, p)
  {
    var i := ScanSource(s, key, 0);
    assert SlotLe(s.slots[i], s'.slots[i]);
    VisibleIs(c, s', i, key);
  }

  // ---- A claim cannot duplicate a key ------------------------------------------------------------

  /** A prober that has passed p slots and meets an unclaimed one cannot be looking for a claimed key. */
  lemma {:induction false} NoOtherClaim(c: Config, s: State, key: u64, p: nat, j: nat)
    requires c.capacity > 0 && SlotsOk(c, s) && Probed(c, s, key, p) && p < c.capacity
    requires s.slots[ProbeIndex(c, key, p)].state.Empty?
    requires j < |s.slots| && s.slots[j].claim.Claim?
    ensures s.slots[j].claim.key != key
  {
    assert SlotOk(c, s, j) && SlotOk(c, s, ProbeIndex(c, key, p));
    var claim := s.slots[j].claim;
    if claim.probe < p {
      assert Passed(c, s, key, claim.probe);
    } else if claim.probe > p {
      assert Passed(c, s, claim.key, p);
    }
  }

  lemma {:induction false} SlotsPreserved(c: Config, s: State, e: Event)
    requires Inv(c, s) && c.capacity > 0
    ensures SlotsOk(c, Step(c, s, e))
  {
    StepGrows(c, s, e);
    UniquePreserved(c, s, e);
    forall i | 0 <= i < |s.slots|
      ensures SlotOk(c, Step(c, s, e), i)
    {
      SlotPreserved(c, s, e, i);
    }
  }

  lemma {:induction false} UniquePreserved(c: Config, s: State, e: Event)
    requires Inv(c, s) && c.capacity > 0 && Le(s, Step(c, s, e))
    ensures Unique(Step(c, s, e))
  {
    var s' := Step(c, s, e);
    if e.thread < |s.threads| {
      var th := s.threads[e.thread];
      assert ThreadOk(c, s, e.thread, th);
      forall i, j | 0 <= i < j < |s'.slots| && s'.slots[i].claim.Claim? && s'.slots[j].claim.Claim?
        ensures s'.slots[i].claim.key != s'.slots[j].claim.key
      {
        assert SlotLe(s.slots[i], s'.slots[i]) && SlotLe(s.slots[j], s'.slots[j]);
        assert SlotOk(c, s, i) && SlotOk(c, s, j);
        if s.slots[i].claim.Unclaimed? {
          NoOtherClaim(c, s, th.key, th.probe, j);
        } else if s.slots[j].claim.Unclaimed? {
          NoOtherClaim(c, s, th.key, th.probe, i);
        }
      }
    }
  }

  lemma {:induction false} SlotPreserved(c: Config, s: State, e: Event, i: nat)
    requires Inv(c, s) && c.capacity > 0 && Le(s, Step(c, s, e)) && i < |s.slots|
    ensures SlotOk(c, Step(c, s, e), i)
  {
    var s' := Step(c, s, e);
    assert SlotOk(c, s, i);
    assert SlotLe(s.slots[i], s'.slots[i]);
    if e.thread < |s.threads| {
      assert ThreadOk(c, s, e.thread, s.threads[e.thread]);
      if s'.slots[i].claim.Claim? {
        ClaimKept(c, s, s', e, i);
      }
      OwnerKept(c, s, s', e, i);
    }
  }

  predicate HasOwner(c: Config, s: State, i: nat)
    requires c.capacity > 0 && i < |s.slots|
  {
    var claim := s.slots[i].claim;
    claim.Claim? && claim.owner < |s.threads| && Owns(c, s.threads[claim.owner], i)
  }

  lemma {:induction false} OwnerKept(c: Config, s: State, s': State, e: Event, i: nat)
    requires Inv(c, s) && c.capacity > 0 && s' == Step(c, s, e) && i < |s.slots|
    ensures s'.slots[i].state.Reserved? ==>
      HasOwner(c, s', i)
  {
    hide Counted, Unique, ThreadOk, SlotOk, Step;
    if s.slots[i].state.Reserved? {
      SameOwner(c, s, e, i);
    } else {
      NewOwner(c, s, e, i);
    }
  }

  lemma {:induction false} SameOwner(c: Config, s: State, e: Event, i: nat)
    requires Inv(c, s) && c.capacity > 0 && i < |s.slots| && s.slots[i].state.Reserved?
    ensures var s' := Step(c, s, e);
      s'.slots[i].state.Reserved? ==>
        HasOwner(c, s', i)
  {
    hide Counted, Unique, ClassifySourcePositionUpdate;
    assert SlotOk(c, s, i);
    var owner := s.slots[i].claim.owner;
    if e.thread == owner {
      assert Writing(s.threads[owner]);
    } else if e.thread < |s.threads| {
      assert ThreadOk(c, s, e.thread, s.threads[e.thread]);
    }
  }

  lemma {:induction false} NewOwner(c: Config, s: State, e: Event, i: nat)
    requires Inv(c, s) && c.capacity > 0 && i < |s.slots| && !s.slots[i].state.Reserved?
    ensures var s' := Step(c, s, e);
      s'.slots[i].state.Reserved? ==>
        HasOwner(c, s', i)
  {
    hide Counted, Unique, ClassifySourcePositionUpdate, SlotOk, ThreadOk;
  }

  lemma {:induction false} ClaimKept(c: Config, s: State, s': State, e: Event, i: nat)
    requires Inv(c, s) && c.capacity > 0 && s' == Step(c, s, e) && Le(s, s')
    requires e.thread < |s.threads| && i < |s'.slots| && s'.slots[i].claim.Claim?
    ensures s'.slots[i].claim.probe < c.capacity
    ensures ProbeIndex(c, s'.slots[i].claim.key, s'.slots[i].claim.probe) == i
    ensures Probed(c, s', s'.slots[i].claim.key, s'.slots[i].claim.probe)
  {
    assert SlotOk(c, s, i);
    assert ThreadOk(c, s, e.thread, s.threads[e.thread]);
    ProbedGrows(c, s, s', s'.slots[i].claim.key, s'.slots[i].claim.probe);
  }

  // ---- Threads -----------------------------------------------------------------------------------

  /** What another thread knows stays true when slots only grow and its own reserved slot is left alone. */
  lemma {:induction false} OtherThreadKept(c: Config, s: State, s': State, t: nat, th: Thread)
    requires c.capacity > 0 && SlotsOk(c, s) && SlotsOk(c, s') && Le(s, s') && ThreadOk(c, s, t, th)
    requires Writing(th) ==> s'.slots[ProbeIndex(c, th.key, th.probe)] == s.slots[ProbeIndex(c, th.key, th.probe)]
    ensures ThreadOk(c, s', t, th)
  {
    match th
    case Idle =>
    case PubProbe(key, row, probe) => ProbedGrows(c, s, s', key, probe);
    case PubReadKey(key, row, probe) => ProbedGrows(c, s, s', key, probe);
    case PubReserve(key, row, probe) => ProbedGrows(c, s, s', key, probe);
    case PubWriteKey(key, row, probe) =>
    case PubWriteRow(key, row, probe) =>
    case PubOccupy(key, row, probe) =>
    case PubCount(key, row, probe) => ServedGrows(c, s, s', key, row.position);
    case PubLoadRow(key, row, probe) =>
      assert SlotLe(s.slots[ProbeIndex(c, key, probe)], s'.slots[ProbeIndex(c, key, probe)]);
    case PubSwapRow(key, row, probe, _) =>
      assert SlotLe(s.slots[ProbeIndex(c, key, probe)], s'.slots[ProbeIndex(c, key, probe)]);
    case PubDone(key, published, accepted) =>
      if accepted.Ok? {
        ServedGrows(c, s, s', key, published.value.position);
      }
    case GetProbe(key, probe, start) =>
      ProbedGrows(c, s, s', key, probe);
      StartGrows(c, s, s', key, start);
    case GetReadKey(key, probe, start) =>
      ProbedGrows(c, s, s', key, probe);
      StartGrows(c, s, s', key, start);
    case GetReadRow(key, probe, start) => StartGrows(c, s, s', key, start);
    case GetDone(key, start, result) =>
      if result.get.Some? {
        ServedGrows(c, s, s', key, result.get.value.position);
      }
  }

  lemma {:induction false} StartGrows(c: Config, s: State, s': State, key: u64, start: Option<RowRef>)
    requires c.capacity > 0 && SlotsOk(c, s) && SlotsOk(c, s') && Le(s, s') && StartServed(s, key, start)
    ensures StartServed(s', key, start)
  {
    if start.Some? {
      ServedGrows(c, s, s', key, start.value.position);
    }
  }

  /** Whoever has passed p slots of a visible key's probe sequence is about to meet an occupied one. */
  lemma {:induction false} VisibleAhead(c: Config, s: State, key: u64, p: nat, i: nat)
    requires c.capacity > 0 && SlotsOk(c, s) && Probed(c, s, key, p) && Holds(s, i, key)
    ensures p < c.capacity && s.slots[ProbeIndex(c, key, p)].state.Occupied?
  {
    assert SlotOk(c, s, i);
    var q := s.slots[i].claim.probe;
    var passed := if q < p then Passed(c, s, key, q) else if q > p then Passed(c, s, key, p) else true;
  }

  /** A reader that passed p slots and meets an unoccupied one, or none, looks for a key that is not visible. */
  lemma {:induction false} MissIsRight(c: Config, s: State, key: u64, p: nat)
    requires c.capacity > 0 && SlotsOk(c, s) && Probed(c, s, key, p)
    requires p < c.capacity ==> !s.slots[ProbeIndex(c, key, p)].state.Occupied?
    ensures Visible(s, key).None?
  {
    if Visible(s, key).Some? {
      var i := ScanSource(s, key, 0);
      VisibleAhead(c, s, key, p, i);
    }
  }

  ghost predicate Advances(c: Config, s: State, s': State) {
    c.capacity > 0 && Inv(c, s) && SlotsOk(c, s') && Le(s, s')
  }

  lemma {:induction false} ProberKept(c: Config, s: State, e: Event)
    requires Sized(c, s) && Advances(c, s, Step(c, s, e)) && e.thread < |s.threads| && e.input.Continue?
    requires s.threads[e.thread].PubProbe? || s.threads[e.thread].PubReadKey? || s.threads[e.thread].PubReserve?
    ensures ThreadOk(c, Step(c, s, e), e.thread, Step(c, s, e).threads[e.thread])
  {
    var s' := Step(c, s, e);
    var th := s.threads[e.thread];
    assert ThreadOk(c, s, e.thread, th);
    ProbedGrows(c, s, s', th.key, th.probe);
    if th.PubReadKey? && s.slots[ProbeIndex(c, th.key, th.probe)].key != th.key {
      assert Passed(c, s', th.key, th.probe);
    }
  }

  lemma {:induction false} WriterKept(c: Config, s: State, e: Event)
    requires Sized(c, s) && Advances(c, s, Step(c, s, e)) && e.thread < |s.threads| && e.input.Continue?
    requires Writing(s.threads[e.thread])
    ensures ThreadOk(c, Step(c, s, e), e.thread, Step(c, s, e).threads[e.thread])
  {
    var s' := Step(c, s, e);
    var th := s.threads[e.thread];
    assert ThreadOk(c, s, e.thread, th);
    if th.PubOccupy? {
      VisibleIs(c, s', ProbeIndex(c, th.key, th.probe), th.key);
    }
  }

  lemma {:induction false} SwapperKept(c: Config, s: State, e: Event)
    requires Sized(c, s) && Advances(c, s, Step(c, s, e)) && e.thread < |s.threads| && e.input.Continue?
    requires s.threads[e.thread].PubLoadRow? || s.threads[e.thread].PubSwapRow?
    ensures ThreadOk(c, Step(c, s, e), e.thread, Step(c, s, e).threads[e.thread])
  {
    var s' := Step(c, s, e);
    var th := s.threads[e.thread];
    assert ThreadOk(c, s, e.thread, th);
    var i := ProbeIndex(c, th.key, th.probe);
    assert SlotOk(c, s, i) && SlotLe(s.slots[i], s'.slots[i]);
    VisibleIs(c, s', i, th.key);
  }

  lemma {:induction false} ReaderKept(c: Config, s: State, e: Event)
    requires Sized(c, s) && Advances(c, s, Step(c, s, e)) && e.thread < |s.threads| && e.input.Continue?
    requires s.threads[e.thread].GetProbe? || s.threads[e.thread].GetReadKey? || s.threads[e.thread].GetReadRow?
    ensures ThreadOk(c, Step(c, s, e), e.thread, Step(c, s, e).threads[e.thread])
  {
    var s' := Step(c, s, e);
    var th := s.threads[e.thread];
    assert ThreadOk(c, s, e.thread, th);
    StartGrows(c, s, s', th.key, th.start);
    match th
    case GetProbe(key, probe, start) =>
      ProbedGrows(c, s, s', key, probe);
      if probe >= c.capacity || !s.slots[ProbeIndex(c, key, probe)].state.Occupied? {
        MissIsRight(c, s, key, if probe < c.capacity then probe else c.capacity);
      }
    case GetReadKey(key, probe, start) =>
      ProbedGrows(c, s, s', key, probe);
      assert s.slots[ProbeIndex(c, key, probe)].key != key ==> Passed(c, s', key, probe);
    case GetReadRow(key, probe, start) =>
      VisibleIs(c, s', ProbeIndex(c, key, probe), key);
      assert SlotOk(c, s, ProbeIndex(c, key, probe));
  }

  lemma {:induction false} StarterKept(c: Config, s: State, e: Event)
    requires Sized(c, s) && Advances(c, s, Step(c, s, e)) && e.thread < |s.threads| && !e.input.Continue?
    ensures ThreadOk(c, Step(c, s, e), e.thread, Step(c, s, e).threads[e.thread])
  {
    var s' := Step(c, s, e);
    assert ThreadOk(c, s, e.thread, s.threads[e.thread]);
    if !Free(s.threads[e.thread]) {
      OtherThreadKept(c, s, s', e.thread, s.threads[e.thread]);
    } else if e.input.StartGet? && Visible(s, e.input.key).Some? {
      var i := ScanSource(s, e.input.key, 0);
      VisibleIs(c, s', i, e.input.key);
    }
  }

  lemma {:induction false} ThreadsPreserved(c: Config, s: State, e: Event, t: nat)
    requires Inv(c, s) && c.capacity > 0 && t < |s.threads|
    ensures ThreadOk(c, Step(c, s, e), t, Step(c, s, e).threads[t])
  {
    StepGrows(c, s, e);
    SlotsPreserved(c, s, e);
    assert ThreadOk(c, s, t, s.threads[t]);
    if e.thread >= |s.threads| {
    } else if t != e.thread {
      assert ThreadOk(c, s, e.thread, s.threads[e.thread]);
      OtherThreadKept(c, s, Step(c, s, e), t, s.threads[t]);
    } else if !e.input.Continue? {
      StarterKept(c, s, e);
    } else if s.threads[t].GetProbe? || s.threads[t].GetReadKey? || s.threads[t].GetReadRow? {
      ReaderKept(c, s, e);
    } else if s.threads[t].PubProbe? || s.threads[t].PubReadKey? || s.threads[t].PubReserve? {
      ProberKept(c, s, e);
    } else if Writing(s.threads[t]) {
      WriterKept(c, s, e);
    } else if s.threads[t].PubLoadRow? || s.threads[t].PubSwapRow? {
      SwapperKept(c, s, e);
    } else if s.threads[t].PubCount? {
      ServedGrows(c, s, Step(c, s, e), s.threads[t].key, s.threads[t].row.position);
    } else {
      OtherThreadKept(c, s, Step(c, s, e), t, s.threads[t]);
    }
  }

  lemma {:induction false} CountedPreserved(c: Config, s: State, e: Event)
    requires Inv(c, s)
    ensures Counted(Step(c, s, e))
  {
    if e.thread < |s.threads| {
      assert c.capacity > 0 ==> ThreadOk(c, s, e.thread, s.threads[e.thread]);
      CountStep(c, s, e);
    }
  }

  /** The count and the occupied slots change together: Occupy adds a slot and a pending increment. */
  lemma {:induction false} CountStep(c: Config, s: State, e: Event)
    requires Sized(c, s) && e.thread < |s.threads| && Counted(s)
    requires c.capacity > 0 && Writing(s.threads[e.thread]) ==>
      s.slots[ProbeIndex(c, s.threads[e.thread].key, s.threads[e.thread].probe)].state.Reserved?
    ensures Counted(Step(c, s, e))
  {
    hide Step;
    var s' := Step(c, s, e);
    var t, th := e.thread, s.threads[e.thread];
    OneThread(c, s, e);
    CountUpdate(IsCounting, s.threads, t, s'.threads[t]);
    if c.capacity > 0 && e.input.Continue? && !Free(th) {
      var i := ProbeIndex(c, th.key, th.probe);
      CountUpdate(IsOccupied, s.slots, i, s'.slots[i]);
      CountDelta(c, s, e, i);
    }
  }

  lemma {:induction false} OneThread(c: Config, s: State, e: Event)
    requires Sized(c, s) && e.thread < |s.threads|
    ensures var s', t := Step(c, s, e), e.thread;
      && s'.threads == s.threads[t := s'.threads[t]]
      && (c.capacity == 0 || !e.input.Continue? || Free(s.threads[t]) ==>
            s'.slots == s.slots && s'.uniqueKeyCount == s.uniqueKeyCount
              && IsCounting(s'.threads[t]) == IsCounting(s.threads[t]))
  {
    hide ClassifySourcePositionUpdate, VisibleScan;
  }

  lemma {:induction false} CountDelta(c: Config, s: State, e: Event, i: nat)
    requires Sized(c, s) && e.thread < |s.threads| && c.capacity > 0 && e.input.Continue? && !Free(s.threads[e.thread])
    requires i == ProbeIndex(c, s.threads[e.thread].key, s.threads[e.thread].probe)
    requires Writing(s.threads[e.thread]) ==> s.slots[i].state.Reserved?
    ensures var s' := Step(c, s, e);
      var delta := if s.threads[e.thread].PubOccupy? then 1 else 0;
      var counted := if s.threads[e.thread].PubCount? then 1 else 0;
      && s'.slots == s.slots[i := s'.slots[i]]
      && (if IsOccupied(s'.slots[i]) then 1 else 0) == (if IsOccupied(s.slots[i]) then 1 else 0) + delta
      && (if IsCounting(s'.threads[e.thread]) then 1 else 0) == delta
      && s'.uniqueKeyCount == s.uniqueKeyCount + counted
  {
  }

  // ---- Main results ------------------------------------------------------------------------------

  lemma {:induction false} InitOk(c: Config, threads: nat)
    ensures Inv(c, Init(c, threads))
  {
    var s := Init(c, threads);
    CountNone(IsOccupied, s.slots);
    CountNone(IsCounting, s.threads);
  }

  /** Every step of every thread keeps the invariant. */
  lemma {:induction false} StepKeepsInv(c: Config, s: State, e: Event)
    requires Inv(c, s)
    ensures Inv(c, Step(c, s, e))
  {
    CountedPreserved(c, s, e);
    if c.capacity > 0 {
      SlotsPreserved(c, s, e);
      forall t | 0 <= t < |s.threads|
        ensures ThreadOk(c, Step(c, s, e), t, Step(c, s, e).threads[t])
      {
        ThreadsPreserved(c, s, e, t);
      }
    }
  }

  lemma {:induction false} RunKeepsInv(c: Config, s: State, es: seq<Event>)
    requires Inv(c, s)
    ensures Inv(c, Run(c, s, es))
    decreases |es|
  {
    if es != [] {
      RunKeepsInv(c, s, es[..|es| - 1]);
      StepKeepsInv(c, Run(c, s, es[..|es| - 1]), es[|es| - 1]);
    }
  }

  /** Over any run slots only move Empty -> Reserved -> Occupied, and an occupied slot keeps its key. */
  lemma {:induction false} SlotsOnlyAdvance(c: Config, s: State, es: seq<Event>)
    requires Inv(c, s)
    ensures Le(s, Run(c, s, es))
    decreases |es|
  {
    if es == [] {
      forall i | 0 <= i < |s.slots|
        ensures SlotLe(s.slots[i], s.slots[i])
      {
        assert SlotOk(c, s, i);
      }
    } else {
      var m := Run(c, s, es[..|es| - 1]);
      SlotsOnlyAdvance(c, s, es[..|es| - 1]);
      RunKeepsInv(c, s, es[..|es| - 1]);
      StepGrows(c, m, es[|es| - 1]);
      forall i | 0 <= i < |s.slots|
        ensures SlotLe(s.slots[i], Run(c, s, es).slots[i])
      {
        assert SlotLe(s.slots[i], m.slots[i]) && SlotLe(m.slots[i], Run(c, s, es).slots[i]);
      }
    }
  }

  /** The key a slot stands for: its own once occupied, the writer's while reserved. */
  function OwnedKey(s: State, i: nat): Option<u64>
    requires i < |s.slots|
  {
    var slot := s.slots[i];
    match slot.state
    case Empty => None
    case Occupied => Some(slot.key)
    case Reserved =>
      if slot.claim.Claim? && slot.claim.owner < |s.threads| && Writing(s.threads[slot.claim.owner])
      then Some(s.threads[slot.claim.owner].key) else None
  }

  /** In every reachable state: no key owns two slots, and a reserved slot never stands before a visible key. */
  lemma {:induction false} SlotSafety(c: Config, threads: nat, es: seq<Event>, i: nat)
    requires i < c.capacity
    ensures var s := Run(c, Init(c, threads), es);
      && (!s.slots[i].state.Empty? ==> OwnedKey(s, i).Some?)
      && (s.slots[i].state.Occupied? ==> s.slots[i].row.Some? && s.slots[i].row.value.key == s.slots[i].key)
      && (forall j :: 0 <= j < |s.slots| && j != i && OwnedKey(s, i).Some? ==> OwnedKey(s, j) != OwnedKey(s, i))
      && (OwnedKey(s, i).Some? ==> exists p :: 0 <= p < c.capacity && ProbeIndex(c, OwnedKey(s, i).value, p) == i
                                               && Probed(c, s, OwnedKey(s, i).value, p))
  {
    InitOk(c, threads);
    RunKeepsInv(c, Init(c, threads), es);
    var s := Run(c, Init(c, threads), es);
    OwnedIsClaimed(c, s, i);
    forall j | 0 <= j < |s.slots| && j != i && OwnedKey(s, i).Some?
      ensures OwnedKey(s, j) != OwnedKey(s, i)
    {
      OwnedIsClaimed(c, s, j);
    }
  }

  lemma {:induction false} OwnedIsClaimed(c: Config, s: State, i: nat)
    requires Inv(c, s) && i < |s.slots|
    ensures OwnedKey(s, i) == if s.slots[i].claim.Claim? then Some(s.slots[i].claim.key) else None
    ensures SlotOk(c, s, i)
  {
    assert SlotOk(c, s, i);
    if s.slots[i].state.Reserved? {
      var t := s.slots[i].claim.owner;
      assert ThreadOk(c, s, t, s.threads[t]);
    }
  }

  /** The visible row of a key keeps its partition and its offset never decreases. */
  lemma {:induction false} VisibleNeverGoesBack(c: Config, s: State, es: seq<Event>, key: u64)
    requires Inv(c, s) && Visible(s, key).Some?
    ensures Served(Run(c, s, es), key, Visible(s, key).value.position)
  {
    RunKeepsInv(c, s, es);
    SlotsOnlyAdvance(c, s, es);
    var i := ScanSource(s, key, 0);
    ServedGrows(c, s, Run(c, s, es), key, Visible(s, key).value.position);
  }

  /** A publisher that was told Ok, whether it won or was already superseded, is served from then on. */
  lemma {:induction false} PublishedIsServed(c: Config, s: State, t: nat, es: seq<Event>)
    requires Inv(c, s) && t < |s.threads| && s.threads[t].PubDone? && s.threads[t].accepted.Ok? && c.capacity > 0
    ensures s.threads[t].published.Some?
    ensures Served(Run(c, s, es), s.threads[t].key, s.threads[t].published.value.position)
  {
    assert ThreadOk(c, s, t, s.threads[t]);
    RunKeepsInv(c, s, es);
    SlotsOnlyAdvance(c, s, es);
    ServedGrows(c, s, Run(c, s, es), s.threads[t].key, s.threads[t].published.value.position);
  }

  predicate NoStart(es: seq<Event>, t: nat) {
    forall e :: e in es ==> e.thread != t || e.input.Continue?
  }

  predicate Getting(th: Thread, key: u64, start: Option<RowRef>) {
    (th.GetProbe? || th.GetReadKey? || th.GetReadRow? || th.GetDone?) && th.key == key && th.start == start
  }

  /** Until it starts another call, a thread stays in its Get. */
  lemma {:induction false} GetStays(c: Config, s: State, es: seq<Event>, t: nat, key: u64, start: Option<RowRef>)
    requires Sized(c, s) && t < |s.threads| && Getting(s.threads[t], key, start) && NoStart(es, t)
    ensures Getting(Run(c, s, es).threads[t], key, start)
    decreases |es|
  {
    if es != [] {
      GetStays(c, s, es[..|es| - 1], t, key, start);
      assert es[|es| - 1] in es;
    }
  }

  /**
   * A Get that starts when its key is visible, interleaved with anything, hits with an offset at least
   * as high as the one visible at its start.
   */
  lemma {:induction false} GetSeesItsStart(c: Config, s: State, es: seq<Event>, t: nat, key: u64)
    requires Inv(c, s) && c.capacity > 0 && t < |s.threads| && Free(s.threads[t]) && NoStart(es, t)
    requires Visible(s, key).Some?
    requires Run(c, Step(c, s, Event(t, StartGet(key))), es).threads[t].GetDone?
    ensures var result := Run(c, Step(c, s, Event(t, StartGet(key))), es).threads[t].result;
      && result.Ok? && result.get.Some? && result.get.value.key == key
      && AtLeast(result.get.value.position, Visible(s, key).value.position)
  {
    var s1 := Step(c, s, Event(t, StartGet(key)));
    StepKeepsInv(c, s, Event(t, StartGet(key)));
    RunKeepsInv(c, s1, es);
    GetStays(c, s1, es, t, key, Visible(s, key));
    var s2 := Run(c, s1, es);
    assert ThreadOk(c, s2, t, s2.threads[t]);
  }

  /** One reader's reads of a key never go back, whatever ran between and during them. */
  lemma {:induction false} ReadsNeverGoBack(
      c: Config, s: State, between: seq<Event>, during: seq<Event>, t: nat, reader: nat, key: u64)
    requires Inv(c, s) && c.capacity > 0 && t < |s.threads| && reader < |s.threads|
    requires s.threads[t].GetDone? && s.threads[t].key == key && s.threads[t].result.Ok?
      && s.threads[t].result.get.Some?
    requires Free(Run(c, s, between).threads[reader]) && NoStart(during, reader)
    requires Run(c, Step(c, Run(c, s, between), Event(reader, StartGet(key))), during).threads[reader].GetDone?
    ensures var first := s.threads[t].result.get.value;
      var second := Run(c, Step(c, Run(c, s, between), Event(reader, StartGet(key))), during).threads[reader].result;
      second.Ok? && second.get.Some? && AtLeast(second.get.value.position, first.position)
  {
    assert ThreadOk(c, s, t, s.threads[t]);
    VisibleNeverGoesBack(c, s, between, key);
    RunKeepsInv(c, s, between);
    GetSeesItsStart(c, Run(c, s, between), during, reader, key);
  }

  /** unique_key_count is the number of occupied slots whenever no publisher is between its last two stores. */
  lemma {:induction false} CountIsExact(c: Config, threads: nat, es: seq<Event>)
    requires forall th :: th in Run(c, Init(c, threads), es).threads ==> !th.PubCount?
    ensures Run(c, Init(c, threads), es).uniqueKeyCount == Count(IsOccupied, Run(c, Init(c, threads), es).slots)
  {
    InitOk(c, threads);
    RunKeepsInv(c, Init(c, threads), es);
    CountNone(IsCounting, Run(c, Init(c, threads), es).threads);
  }

  /** A publisher runs out of probes only when the table is full of other keys, if the capacity divides 2^64. */
  lemma {:induction false} ExhaustedMeansFull(c: Config, s: State, t: nat, i: nat)
    requires Inv(c, s) && c.capacity > 0 && TWO_64 % c.capacity == 0 && t < |s.threads| && i < c.capacity
    requires s.threads[t].PubProbe? && s.threads[t].probe >= c.capacity
    ensures s.slots[i].state.Occupied? && s.slots[i].key != s.threads[t].key
  {
    assert ThreadOk(c, s, t, s.threads[t]);
    var p := ProbesCover(c.hash(s.threads[t].key), c.capacity, i);
    assert Passed(c, s, s.threads[t].key, p);
  }
}
