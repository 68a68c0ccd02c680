/**
 * The two models of the realtime map agree: under any interleaving, what readers see changes only as PublishTo of the
 * sequential map changes it. src/store/realtime_delta.cc:70-149
 */
module Linearization {
  import opened Basics
  import Counting
  import opened RowStorage
  import C = ConcurrentMap
  import R = RealtimeDelta

  /** A row of the machine with the encoded row that its pointer leads to. */
  function RefOf(content: nat -> EncodedRow, row: C.RowRef): R.RowRef {
    R.RowRef(row.key, row.position, content(row.id))
  }

  function ShownKeys(s: C.State): set<u64> {
    set i | 0 <= i < |s.slots| && C.Visible(s, s.slots[i].key).Some? :: s.slots[i].key
  }

  /** The map that readers see. */
  function Shown(content: nat -> EncodedRow, s: C.State): map<u64, R.RowRef> {
    map key | key in ShownKeys(s) :: RefOf(content, C.Visible(s, key).value)
  }

  lemma {:induction false} ShownIs(content: nat -> EncodedRow, s: C.State, key: u64)
    ensures key in Shown(content, s) <==> C.Visible(s, key).Some?
    ensures key in Shown(content, s) ==> Shown(content, s)[key] == RefOf(content, C.Visible(s, key).value)
  {
    if C.Visible(s, key).Some? {
      var i := C.ScanSource(s, key, 0);
      assert key in ShownKeys(s);
    }
  }

  // ---- What one step changes ---------------------------------------------------------------------

  /** The same slots hold the key, with the same rows. */
  ghost predicate SameFor(s: C.State, s': C.State, key: u64) {
    && |s.slots| == |s'.slots|
    && forall i :: 0 <= i < |s.slots| ==>
         C.Holds(s, i, key) == C.Holds(s', i, key) && (C.Holds(s, i, key) ==> s.slots[i].row == s'.slots[i].row)
  }

  lemma {:induction false} SameScan(s: C.State, s': C.State, key: u64, j: nat)
    requires SameFor(s, s', key)
    ensures C.VisibleScan(s, key, j) == C.VisibleScan(s', key, j)
    decreases |s.slots| - j
  {
    if j < |s.slots| {
      SameScan(s, s', key, j + 1);
    }
  }

  /** The step makes the thread's row visible. */
  predicate Shows(c: C.Config, s: C.State, e: C.Event)
    requires C.Sized(c, s)
  {
    && c.capacity > 0 && e.thread < |s.threads| && e.input.Continue?
    && var th := s.threads[e.thread];
       th.PubOccupy?
       || (th.PubSwapRow? && !e.input.spurious && s.slots[C.ProbeIndex(c, th.key, th.probe)].row == Some(th.current))
  }

  lemma {:induction false} OthersKept(c: C.Config, s: C.State, e: C.Event, key: u64)
    requires C.Inv(c, s)
    requires Shows(c, s, e) ==> key != s.threads[e.thread].key
    ensures C.Visible(C.Step(c, s, e), key) == C.Visible(s, key)
  {
    hide C.SlotOk, C.Unique, C.Counted;
    var s' := C.Step(c, s, e);
    assert SameFor(s, s', key) by {
      if c.capacity > 0 && e.thread < |s.threads| {
        assert C.ThreadOk(c, s, e.thread, s.threads[e.thread]);
      }
    }
    SameScan(s, s', key, 0);
  }

  lemma {:induction false} NotVisibleYet(c: C.Config, s: C.State, i: nat, key: u64)
    requires c.capacity > 0 && C.SlotsOk(c, s) && i < |s.slots|
    requires s.slots[i].state.Reserved? && s.slots[i].claim.Claim? && s.slots[i].claim.key == key
    ensures C.Visible(s, key).None?
  {
    if C.Visible(s, key).Some? {
      var j := C.ScanSource(s, key, 0);
      var owned := C.SlotOk(c, s, j);
    }
  }

  /** The thread's row is visible after the step; before it, nothing or an older row of the key was. */
  lemma {:induction false} RowShown(c: C.Config, s: C.State, e: C.Event)
    requires C.Inv(c, s) && Shows(c, s, e)
    ensures var th := s.threads[e.thread];
      && C.GoodRow(th.key, th.row) && C.Visible(C.Step(c, s, e), th.key) == Some(th.row)
      && (th.PubOccupy? ==> C.Visible(s, th.key).None?)
      && (th.PubSwapRow? ==>
            C.Visible(s, th.key) == Some(th.current)
            && ClassifySourcePositionUpdate(th.current.position, th.row.position) == Ok(Newer))
  {
    hide C.Counted, C.SlotOk, ClassifySourcePositionUpdate;
    var th, s' := s.threads[e.thread], C.Step(c, s, e);
    var i := C.ProbeIndex(c, th.key, th.probe);
    assert C.ThreadOk(c, s, e.thread, th);
    C.SlotsPreserved(c, s, e);
    C.VisibleIs(c, s', i, th.key);
    if th.PubOccupy? {
      NotVisibleYet(c, s, i, th.key);
    } else {
      C.VisibleIs(c, s, i, th.key);
    }
  }

  // ---- Room --------------------------------------------------------------------------------------

  function SlotOfKey(s: C.State, key: u64, j: nat): (i: nat)
    requires C.VisibleScan(s, key, j).Some?
    ensures C.Holds(s, i, key)
    decreases |s.slots| - j
  {
    if C.Holds(s, j, key) then j else SlotOfKey(s, key, j + 1)
  }

  /** While a slot is not occupied, fewer keys are visible than there are slots. */
  lemma {:induction false} RoomLeft(content: nat -> EncodedRow, c: C.Config, s: C.State, i: nat)
    requires C.Sized(c, s) && i < c.capacity && !s.slots[i].state.Occupied?
    ensures |Shown(content, s)| < c.capacity
  {
    var shown := Shown(content, s);
    var m: map<u64, nat> := map key | key in ShownKeys(s) :: SlotOfKey(s, key, 0);
    assert shown.Keys == m.Keys && |shown| == |shown.Keys| == |m|;
    assert forall key :: key in m ==> C.Holds(s, m[key], key);
    Counting.PlacedCount(m, c.capacity);
    assert !Counting.Taken(m, i);
  }

  // ---- Every step --------------------------------------------------------------------------------

  /**
   * A step leaves what readers see as it was, or it is one publish that the sequential map takes: the row of the
   * thread, newer than what its key showed or under a new key while there is room.
   */
  lemma {:induction false} StepIsPublish(content: nat -> EncodedRow, c: C.Config, s: C.State, e: C.Event)
    requires C.Inv(c, s)
    ensures !Shows(c, s, e) ==> Shown(content, C.Step(c, s, e)) == Shown(content, s)
    ensures Shows(c, s, e) ==>
      var ref := RefOf(content, s.threads[e.thread].row);
      && R.GoodRef(ref)
      && R.PublishTo(c.capacity, Shown(content, s), ref, false) == (Ok(true), Shown(content, C.Step(c, s, e)))
  {
    assert C.Sized(c, s);
    hide C.Inv, C.Visible, C.Step, ClassifySourcePositionUpdate, Shown;
    if Shows(c, s, e) {
      var th := s.threads[e.thread];
      RowShown(c, s, e);
      ShownIs(content, s, th.key);
      ShownAfter(content, c, s, e);
      if th.PubOccupy? {
        OccupiesFree(c, s, e);
        RoomLeft(content, c, s, C.ProbeIndex(c, th.key, th.probe));
      }
    } else {
      ShownAfter(content, c, s, e);
    }
  }

  lemma {:induction false} ShownAfter(content: nat -> EncodedRow, c: C.Config, s: C.State, e: C.Event)
    requires C.Inv(c, s)
    ensures Shown(content, C.Step(c, s, e)) == if Shows(c, s, e)
      then Shown(content, s)[s.threads[e.thread].key := RefOf(content, s.threads[e.thread].row)] else Shown(content, s)
  {
    assert C.Sized(c, s);
    hide C.Inv, C.Visible, C.Step, Shown;
    var s' := C.Step(c, s, e);
    var expected := if Shows(c, s, e)
      then Shown(content, s)[s.threads[e.thread].key := RefOf(content, s.threads[e.thread].row)] else Shown(content, s);
    forall key: u64
      ensures key in Shown(content, s') <==> key in expected
      ensures key in expected ==> Shown(content, s')[key] == expected[key]
    {
      ShownIs(content, s, key);
      ShownIs(content, s', key);
      if Shows(c, s, e) && key == s.threads[e.thread].key {
        RowShown(c, s, e);
      } else {
        OthersKept(c, s, e, key);
      }
    }
  }

  lemma {:induction false} OccupiesFree(c: C.Config, s: C.State, e: C.Event)
    requires C.Inv(c, s) && Shows(c, s, e) && s.threads[e.thread].PubOccupy?
    ensures !s.slots[C.ProbeIndex(c, s.threads[e.thread].key, s.threads[e.thread].probe)].state.Occupied?
  {
    assert C.ThreadOk(c, s, e.thread, s.threads[e.thread]);
  }

  /** The publishes that took effect, in the order in which they did. */
  ghost function TookEffect(content: nat -> EncodedRow, c: C.Config, threads: nat, es: seq<C.Event>): seq<R.Update>
    decreases |es|
  {
    if es == [] then []
    else
      var before := C.Run(c, C.Init(c, threads), es[..|es| - 1]);
      var e := es[|es| - 1];
      TookEffect(content, c, threads, es[..|es| - 1])
      + if Shows(c, before, e) then [R.Update(RefOf(content, before.threads[e.thread].row), false)] else []
  }

  /**
   * Every interleaving is a sequential run: readers see what the row list shows after its publishes took effect one
   * after the other, and none of those was refused.
   */
  lemma {:induction false} RunIsSequential(content: nat -> EncodedRow, c: C.Config, threads: nat, es: seq<C.Event>)
    ensures var (told, rows) := R.PublishRows(c.capacity, [], TookEffect(content, c, threads, es));
      && R.Replay(rows) == Shown(content, C.Run(c, C.Init(c, threads), es)) && R.Sealed(rows)
      && forall i :: 0 <= i < |told| ==> told[i].Ok?
    decreases |es|
  {
    hide C.Inv, C.Step, Shown, R.Sealed, R.Replay, R.PublishTo;
    if es == [] {
      NothingShown(content, c, threads);
      R.NothingPublished();
    } else {
      var n := |es| - 1;
      var before := C.Run(c, C.Init(c, threads), es[..n]);
      RunIsSequential(content, c, threads, es[..n]);
      C.InitOk(c, threads);
      C.RunKeepsInv(c, C.Init(c, threads), es[..n]);
      StepIsPublish(content, c, before, es[n]);
      var front := TookEffect(content, c, threads, es[..n]);
      if Shows(c, before, es[n]) {
        var ref := RefOf(content, before.threads[es[n].thread].row);
        assert (front + [R.Update(ref, false)])[..|front|] == front;
        R.PublishKeepsLog(c.capacity, R.PublishRows(c.capacity, [], front).1, ref, false);
      } else {
        assert front + [] == front;
      }
    }
  }

  lemma {:induction false} NothingShown(content: nat -> EncodedRow, c: C.Config, threads: nat)
    ensures Shown(content, C.Init(c, threads)) == map[]
  {
    forall key: u64
      ensures key !in Shown(content, C.Init(c, threads))
    {
      ShownIs(content, C.Init(c, threads), key);
      if C.Visible(C.Init(c, threads), key).Some? {
        var i := C.ScanSource(C.Init(c, threads), key, 0);
      }
    }
  }

  /** No probe of the key meets an empty slot. */
  ghost predicate AllTaken(c: C.Config, s: C.State, key: u64)
    requires C.Sized(c, s) && c.capacity > 0
  {
    forall q :: 0 <= q < c.capacity ==> Taken(c, s, key, q)
  }

  predicate Taken(c: C.Config, s: C.State, key: u64, q: nat)
    requires C.Sized(c, s) && c.capacity > 0
  {
    !s.slots[C.ProbeIndex(c, key, q)].state.Empty?
  }

  predicate Publishing(th: C.Thread) {
    !C.Free(th) && !th.GetProbe? && !th.GetReadKey? && !th.GetReadRow?
  }

  /** A publish of another thread is between reserving slot i and occupying it. */
  predicate InFlight(c: C.Config, s: C.State, i: nat, t: nat)
    requires C.Sized(c, s) && c.capacity > 0
  {
    && i < c.capacity && s.slots[i].state.Reserved?
    && exists u :: 0 <= u < |s.threads| && u != t && C.Owns(c, s.threads[u], i)
  }

  /**
   * What the step that ends a publish tells. Unavailable: the probed slot is reserved by another publish in flight.
   * Ok(true): the row became visible with this step or before. Anything else, stale, repeated, of another partition
   * or shut out, is what the sequential map tells of the state at that step.
   */
  lemma {:induction false} AnswerIsSequential(content: nat -> EncodedRow, c: C.Config, s: C.State, e: C.Event)
    requires C.Inv(c, s) && c.capacity > 0 && e.thread < |s.threads| && e.input.Continue?
    requires Publishing(s.threads[e.thread]) && C.Step(c, s, e).threads[e.thread].PubDone?
    ensures var th, done := s.threads[e.thread], C.Step(c, s, e).threads[e.thread];
      && done.key == th.key && done.published == Some(th.row)
      && (done.accepted == Err(Unavailable) ==>
            th.PubProbe? && InFlight(c, s, C.ProbeIndex(c, th.key, th.probe), e.thread))
      && (done.accepted == Ok(true) ==> Shows(c, s, e) || (th.PubCount? && C.Served(s, th.key, th.row.position)))
      && (done.accepted != Ok(true) && done.accepted != Err(Unavailable) ==>
            R.PublishTo(c.capacity, Shown(content, s), RefOf(content, th.row), AllTaken(c, s, th.key))
              == (done.accepted, Shown(content, s)))
  {
    hide C.Counted, Shown, ClassifySourcePositionUpdate;
    var th := s.threads[e.thread];
    assert C.ThreadOk(c, s, e.thread, th);
    ShownIs(content, s, th.key);
    DecisionCodes();
    if th.PubLoadRow? {
      assert C.SlotOk(c, s, C.ProbeIndex(c, th.key, th.probe));
      C.VisibleIs(c, s, C.ProbeIndex(c, th.key, th.probe), th.key);
    } else if th.PubProbe? && th.probe >= c.capacity {
      PassedAll(c, s, th.key, th.probe);
      forall q | 0 <= q < c.capacity
        ensures Taken(c, s, th.key, q)
      {
        assert C.Passed(c, s, th.key, q);
      }
    } else if th.PubProbe? {
      var i := C.ProbeIndex(c, th.key, th.probe);
      assert C.SlotOk(c, s, i);
      assert s.slots[i].state.Reserved? ==> C.Owns(c, s.threads[s.slots[i].claim.owner], i);
    }
  }

  lemma {:induction false} DecisionCodes()
    ensures forall a, b :: ClassifySourcePositionUpdate(a, b).Err? ==>
      ClassifySourcePositionUpdate(a, b).code != Unavailable
  {
  }

  /** A publish that ends at its start. */
  lemma {:induction false} RefusedAtStart(c: C.Config, s: C.State, t: nat, key: u64, row: Option<C.RowRef>)
    requires C.Sized(c, s) && t < |s.threads| && C.Free(s.threads[t])
    ensures var s' := C.Step(c, s, C.Event(t, C.StartPublish(key, row)));
      && s'.slots == s.slots
      && (if row.None? || row.value.key != key || row.value.position.partition < 0 || row.value.position.offset < 0
          then s'.threads[t].PubDone? && s'.threads[t].accepted == Err(InvalidArgument)
          else if c.capacity == 0 then s'.threads[t].PubDone? && s'.threads[t].accepted == Err(FailedPrecondition)
          else s'.threads[t] == C.PubProbe(key, row.value, 0))
  {
  }

  /** A Get ends with the row that is visible at that very step, and it never errs. */
  lemma {:induction false} GetIsARead(c: C.Config, s: C.State, e: C.Event)
    requires C.Inv(c, s) && c.capacity > 0 && e.thread < |s.threads| && !s.threads[e.thread].GetDone?
    requires C.Step(c, s, e).threads[e.thread].GetDone?
    ensures var th := s.threads[e.thread];
      && (th.GetProbe? || th.GetReadRow?)
      && C.Step(c, s, e).threads[e.thread] == C.GetDone(th.key, th.start, Ok(C.Visible(s, th.key)))
  {
    hide C.Counted, ClassifySourcePositionUpdate;
    var th := s.threads[e.thread];
    assert C.ThreadOk(c, s, e.thread, th);
    if th.GetReadRow? {
      C.VisibleIs(c, s, C.ProbeIndex(c, th.key, th.probe), th.key);
      assert C.SlotOk(c, s, C.ProbeIndex(c, th.key, th.probe));
    } else if th.GetProbe? {
      C.MissIsRight(c, s, th.key, if th.probe < c.capacity then th.probe else c.capacity);
    }
  }

  lemma {:induction false} PassedAll(c: C.Config, s: C.State, key: u64, probe: nat)
    requires c.capacity > 0 && C.SlotsOk(c, s) && C.Probed(c, s, key, probe) && probe >= c.capacity
    ensures C.Visible(s, key).None?
  {
    if C.Visible(s, key).Some? {
      var j := C.ScanSource(s, key, 0);
      var owned, passed := C.SlotOk(c, s, j), C.Passed(c, s, key, s.slots[j].claim.probe);
    }
  }
}
