/**
 * Progress of the realtime map, src/store/realtime_delta.cc:76-181: a call whose thread alone is scheduled ends, and
 * then it is a call of the sequential map.
 */
module SoloRuns {
  import opened Basics
  import opened RowStorage
  import opened Linearization
  import C = ConcurrentMap
  import R = RealtimeDelta

  /** n steps of thread t, without spurious failures. */
  function Alone(t: nat, n: nat): (es: seq<C.Event>)
    ensures |es| == n
  {
    seq(n, _ => Next(t))
  }

  function Next(t: nat): C.Event {
    C.Event(t, C.Continue(false))
  }

  lemma {:induction false} RunFront(c: C.Config, s: C.State, e: C.Event, es: seq<C.Event>)
    requires C.Sized(c, s)
    ensures C.Run(c, s, [e] + es) == C.Run(c, C.Step(c, s, e), es)
    decreases |es|
  {
    if es == [] {
      assert [e][..0] == [] && [e] + es == [e];
    } else {
      var n := |es| - 1;
      assert ([e] + es)[..|es|] == [e] + es[..n];
      RunFront(c, s, e, es[..n]);
    }
  }

  lemma {:induction false} AloneFront(c: C.Config, s: C.State, t: nat, n: nat)
    requires C.Sized(c, s)
    ensures C.Run(c, s, Alone(t, n + 1)) == C.Run(c, C.Step(c, s, Next(t)), Alone(t, n))
  {
    assert Alone(t, n + 1) == [Next(t)] + Alone(t, n);
    RunFront(c, s, Next(t), Alone(t, n));
  }

  // ---- Publishing --------------------------------------------------------------------------------

  /** No other thread's publish is in flight. */
  ghost predicate Undisturbed(c: C.Config, s: C.State, t: nat)
    requires C.Sized(c, s) && t < |s.threads| && c.capacity > 0
  {
    forall i :: 0 <= i < |s.slots| && s.slots[i].state.Reserved? ==> C.Owns(c, s.threads[t], i)
  }

  /** What the publish still has to tell, and what readers will then see. */
  ghost function Outcome(
      content: nat -> EncodedRow, c: C.Config, s: C.State, th: C.Thread): (Result<bool>, map<u64, R.RowRef>)
    requires C.Sized(c, s) && c.capacity > 0 && Publishing(th)
  {
    if th.PubCount? then (Ok(true), Shown(content, s))
    else
      R.PublishTo(c.capacity, Shown(content, s), RefOf(content, th.row), !C.Writing(th) && AllTaken(c, s, th.key))
  }

  /** Steps that a publish alone needs at most. */
  function StepsLeft(c: C.Config, s: C.State, th: C.Thread): nat
    requires C.Sized(c, s) && c.capacity > 0 && Publishing(th)
  {
    var i := C.ProbeIndex(c, th.key, th.probe);
    var ahead := if th.probe < c.capacity then (c.capacity - th.probe) * 20 else 0;
    match th
    case PubProbe(_, _, _) => ahead + 10
    case PubReadKey(_, _, _) => ahead + 9
    case PubReserve(_, _, _) => if s.slots[i].state.Empty? then ahead + 9 else ahead + 11
    case PubWriteKey(_, _, _) => 8
    case PubWriteRow(_, _, _) => 7
    case PubOccupy(_, _, _) => 6
    case PubCount(_, _, _) => 5
    case PubLoadRow(_, _, _) => 4
    case PubSwapRow(_, _, _, current) => if s.slots[i].row == Some(current) then 3 else 5
  }

  lemma {:induction false} StepAlone(c: C.Config, s: C.State, t: nat)
    requires C.Inv(c, s) && c.capacity > 0 && t < |s.threads| && Publishing(s.threads[t]) && Undisturbed(c, s, t)
    ensures var s' := C.Step(c, s, Next(t));
      && Undisturbed(c, s', t)
      && (Publishing(s'.threads[t]) ==> StepsLeft(c, s', s'.threads[t]) < StepsLeft(c, s, s.threads[t]))
      && (Publishing(s'.threads[t]) || s'.threads[t].PubDone?)
      && s'.threads[t].key == s.threads[t].key
      && (Publishing(s'.threads[t]) ==> s'.threads[t].row == s.threads[t].row)
      && (s'.threads[t].PubDone? ==> s'.threads[t].published == Some(s.threads[t].row))
  {
    hide C.Counted, C.Unique, ClassifySourcePositionUpdate, C.SlotOk;
    assert C.ThreadOk(c, s, t, s.threads[t]);
  }

  lemma {:induction false} ShutOnlyNew(capacity: nat, m: map<u64, R.RowRef>, ref: R.RowRef, shut: bool)
    requires ref.key in m
    ensures R.PublishTo(capacity, m, ref, shut) == R.PublishTo(capacity, m, ref, false)
  {
  }

  /** Between the steps that make its row visible or end it, a publish leaves its slots taken or not as they were. */
  lemma {:induction false} TakenKept(c: C.Config, s: C.State, t: nat)
    requires C.Inv(c, s) && c.capacity > 0 && t < |s.threads| && Publishing(s.threads[t])
    requires Publishing(C.Step(c, s, Next(t)).threads[t])
    ensures var th, s' := s.threads[t], C.Step(c, s, Next(t));
      C.Writing(s'.threads[t]) || s'.threads[t].PubCount? ==> C.Writing(th) || !AllTaken(c, s, th.key)
    ensures var th, s' := s.threads[t], C.Step(c, s, Next(t));
      !C.Writing(s'.threads[t]) && !s'.threads[t].PubCount? ==> !C.Writing(th) && s'.slots == s.slots
  {
    hide C.Counted, C.Unique, ClassifySourcePositionUpdate, C.SlotOk;
    assert C.ThreadOk(c, s, t, s.threads[t]);
    if s.threads[t].PubReserve? {
      var taken := Taken(c, s, s.threads[t].key, s.threads[t].probe);
    }
  }

  lemma {:induction false} SameTaken(c: C.Config, s: C.State, s': C.State, key: u64)
    requires C.Sized(c, s) && c.capacity > 0 && s'.slots == s.slots
    ensures AllTaken(c, s', key) == AllTaken(c, s, key)
  {
    if AllTaken(c, s, key) {
      forall q | 0 <= q < c.capacity
        ensures Taken(c, s', key, q)
      {
        assert Taken(c, s, key, q);
      }
    }
    if AllTaken(c, s', key) {
      forall q | 0 <= q < c.capacity
        ensures Taken(c, s, key, q)
      {
        assert Taken(c, s', key, q);
      }
    }
  }

  lemma {:induction false} OutcomeKept(content: nat -> EncodedRow, c: C.Config, s: C.State, t: nat)
    requires C.Inv(c, s) && c.capacity > 0 && t < |s.threads| && Publishing(s.threads[t])
    requires Publishing(C.Step(c, s, Next(t)).threads[t])
    ensures var s' := C.Step(c, s, Next(t));
      s'.threads[t].key == s.threads[t].key && s'.threads[t].row == s.threads[t].row
      && Outcome(content, c, s', s'.threads[t]) == Outcome(content, c, s, s.threads[t])
  {
    assert C.Sized(c, s);
    SameCall(c, s, t);
    StepIsPublish(content, c, s, Next(t));
    TakenKept(c, s, t);
    CountFollows(c, s, t);
    hide C.Inv, C.Step, R.PublishTo, Shown, AllTaken, R.GoodRef;
    var th, s' := s.threads[t], C.Step(c, s, Next(t));
    if !C.Writing(s'.threads[t]) && !s'.threads[t].PubCount? {
      SameTaken(c, s, s', th.key);
    }
  }

  lemma {:induction false} SameCall(c: C.Config, s: C.State, t: nat)
    requires C.Sized(c, s) && c.capacity > 0 && t < |s.threads| && Publishing(s.threads[t])
    requires Publishing(C.Step(c, s, Next(t)).threads[t])
    ensures var s' := C.Step(c, s, Next(t));
      s'.threads[t].key == s.threads[t].key && s'.threads[t].row == s.threads[t].row
  {
    hide ClassifySourcePositionUpdate;
  }

  /** The count is incremented right after the row became visible, and by no other step. */
  lemma {:induction false} CountFollows(c: C.Config, s: C.State, t: nat)
    requires C.Sized(c, s) && c.capacity > 0 && t < |s.threads| && Publishing(s.threads[t])
    requires Publishing(C.Step(c, s, Next(t)).threads[t])
    ensures !s.threads[t].PubCount?
    ensures C.Step(c, s, Next(t)).threads[t].PubCount? <==> Shows(c, s, Next(t))
    ensures Shows(c, s, Next(t)) ==> C.Writing(s.threads[t])
  {
    hide ClassifySourcePositionUpdate;
  }

  lemma {:induction false} OutcomeTold(content: nat -> EncodedRow, c: C.Config, s: C.State, t: nat)
    requires C.Inv(c, s) && c.capacity > 0 && t < |s.threads| && Publishing(s.threads[t]) && Undisturbed(c, s, t)
    requires C.Step(c, s, Next(t)).threads[t].PubDone?
    ensures var s' := C.Step(c, s, Next(t));
      (s'.threads[t].accepted, Shown(content, s')) == Outcome(content, c, s, s.threads[t])
  {
    assert C.Sized(c, s);
    var th := s.threads[t];
    AnswerIsSequential(content, c, s, Next(t));
    StepIsPublish(content, c, s, Next(t));
    EndsAt(c, s, t);
    if Shows(c, s, Next(t)) {
      RowShown(c, s, Next(t));
      ShownIs(content, s, th.key);
      ShutOnlyNew(c.capacity, Shown(content, s), RefOf(content, th.row), AllTaken(c, s, th.key));
    }
    hide C.Inv, C.Step, R.PublishTo, Shown, AllTaken, R.GoodRef;
  }

  lemma {:induction false} EndsAt(c: C.Config, s: C.State, t: nat)
    requires C.Sized(c, s) && c.capacity > 0 && t < |s.threads| && Publishing(s.threads[t])
    requires C.Step(c, s, Next(t)).threads[t].PubDone?
    ensures !C.Writing(s.threads[t])
    ensures Shows(c, s, Next(t)) ==> s.threads[t].PubSwapRow? && C.Step(c, s, Next(t)).threads[t].accepted == Ok(true)
    ensures s.threads[t].PubCount? ==> C.Step(c, s, Next(t)).threads[t].accepted == Ok(true)
  {
    hide ClassifySourcePositionUpdate;
  }

  /** From any point of a publish: alone it ends, and as the sequential map would end it. */
  lemma {:induction false} EndsAlone(content: nat -> EncodedRow, c: C.Config, s: C.State, t: nat) returns (n: nat)
    requires C.Inv(c, s) && c.capacity > 0 && t < |s.threads| && Publishing(s.threads[t]) && Undisturbed(c, s, t)
    ensures var end := C.Run(c, s, Alone(t, n));
      && end.threads[t].PubDone? && end.threads[t].key == s.threads[t].key
      && end.threads[t].published == Some(s.threads[t].row)
      && (end.threads[t].accepted, Shown(content, end)) == Outcome(content, c, s, s.threads[t])
    decreases StepsLeft(c, s, s.threads[t])
  {
    assert C.Sized(c, s);
    var s' := C.Step(c, s, Next(t));
    StepAlone(c, s, t);
    C.StepKeepsInv(c, s, Next(t));
    if s'.threads[t].PubDone? {
      OutcomeTold(content, c, s, t);
      n := 1;
      AloneFront(c, s, t, 0);
    } else {
      OutcomeKept(content, c, s, t);
      n := EndsAlone(content, c, s', t);
      AloneFront(c, s, t, n);
      n := n + 1;
    }
  }

  lemma {:induction false} StartsAlone(
      content: nat -> EncodedRow, c: C.Config, s: C.State, t: nat, key: u64, row: C.RowRef)
    requires C.Inv(c, s) && c.capacity > 0 && t < |s.threads| && C.Free(s.threads[t])
    requires forall i :: 0 <= i < |s.slots| ==> !s.slots[i].state.Reserved?
    requires row.key == key && IsValidSourcePosition(row.position)
    ensures var s1 := C.Step(c, s, C.Event(t, C.StartPublish(key, Some(row))));
      && C.Inv(c, s1) && Undisturbed(c, s1, t) && s1.threads[t] == C.PubProbe(key, row, 0)
      && s1.slots == s.slots && Shown(content, s1) == Shown(content, s)
  {
    hide Shown;
    var start := C.Event(t, C.StartPublish(key, Some(row)));
    RefusedAtStart(c, s, t, key, Some(row));
    StepIsPublish(content, c, s, start);
    C.StepKeepsInv(c, s, start);
    hide C.Inv;
  }

  /**
   * A whole publish that runs alone while no slot is reserved ends with the answer of the sequential map, and
   * readers then see what that map shows.
   */
  lemma {:induction false} PublishAlone(
      content: nat -> EncodedRow, c: C.Config, s: C.State, t: nat, key: u64, row: C.RowRef) returns (n: nat)
    requires C.Inv(c, s) && t < |s.threads| && C.Free(s.threads[t])
    requires forall i :: 0 <= i < |s.slots| ==> !s.slots[i].state.Reserved?
    requires row.key == key && IsValidSourcePosition(row.position)
    ensures var end := C.Run(c, s, [C.Event(t, C.StartPublish(key, Some(row)))] + Alone(t, n));
      && end.threads[t].PubDone? && end.threads[t].key == key && end.threads[t].published == Some(row)
      && (end.threads[t].accepted, Shown(content, end))
        == R.PublishTo(c.capacity, Shown(content, s), RefOf(content, row), c.capacity > 0 && AllTaken(c, s, key))
  {
    assert C.Sized(c, s);
    hide C.Inv, C.Step, C.Run, Shown, R.PublishTo, AllTaken, Undisturbed;
    var start := C.Event(t, C.StartPublish(key, Some(row)));
    var s1 := C.Step(c, s, start);
    n := 0;
    if c.capacity > 0 {
      StartsAlone(content, c, s, t, key, row);
      SameTaken(c, s, s1, key);
      n := EndsAlone(content, c, s1, t);
    } else {
      RefusedWithoutSlots(content, c, s, t, key, row);
    }
    RunFront(c, s, start, Alone(t, n));
  }

  lemma {:induction false} RefusedWithoutSlots(
      content: nat -> EncodedRow, c: C.Config, s: C.State, t: nat, key: u64, row: C.RowRef)
    requires C.Inv(c, s) && c.capacity == 0 && t < |s.threads| && C.Free(s.threads[t])
    requires row.key == key && IsValidSourcePosition(row.position)
    ensures var end := C.Run(c, C.Step(c, s, C.Event(t, C.StartPublish(key, Some(row)))), Alone(t, 0));
      && end.threads[t].PubDone? && end.threads[t].key == key && end.threads[t].published == Some(row)
      && (end.threads[t].accepted, Shown(content, end))
        == R.PublishTo(c.capacity, Shown(content, s), RefOf(content, row), false)
  {
    hide Shown;
    var start := C.Event(t, C.StartPublish(key, Some(row)));
    var s1 := C.Step(c, s, start);
    RefusedAtStart(c, s, t, key, Some(row));
    EmptyMap(content, c, s);
    EmptyMap(content, c, s1);
    assert C.Run(c, s1, Alone(t, 0)) == s1;
  }

  lemma {:induction false} EmptyMap(content: nat -> EncodedRow, c: C.Config, s: C.State)
    requires C.Sized(c, s) && c.capacity == 0
    ensures Shown(content, s) == map[]
  {
    assert ShownKeys(s) == {};
  }

  // ---- Reading -----------------------------------------------------------------------------------

  lemma {:induction false} ReadEndsAlone(c: C.Config, s: C.State, t: nat) returns (n: nat)
    requires C.Inv(c, s) && c.capacity > 0 && t < |s.threads|
    requires s.threads[t].GetProbe? || s.threads[t].GetReadKey? || s.threads[t].GetReadRow?
    ensures var end := C.Run(c, s, Alone(t, n));
      && end.slots == s.slots
      && end.threads[t] == C.GetDone(s.threads[t].key, s.threads[t].start, Ok(C.Visible(s, s.threads[t].key)))
    decreases if s.threads[t].GetReadRow? then 0
              else if s.threads[t].GetReadKey? then 2 * c.capacity + 1 - 2 * s.threads[t].probe
              else if s.threads[t].probe < c.capacity then 2 * c.capacity + 2 - 2 * s.threads[t].probe else 1
  {
    var s' := C.Step(c, s, Next(t));
    assert C.ThreadOk(c, s, t, s.threads[t]);
    C.StepKeepsInv(c, s, Next(t));
    if s'.threads[t].GetDone? {
      GetIsARead(c, s, Next(t));
      n := 1;
      AloneFront(c, s, t, 0);
    } else {
      SameVisible(s, s', s.threads[t].key, 0);
      n := ReadEndsAlone(c, s', t);
      AloneFront(c, s, t, n);
      n := n + 1;
    }
  }

  lemma {:induction false} SameVisible(s: C.State, s': C.State, key: u64, j: nat)
    requires s.slots == s'.slots
    ensures C.VisibleScan(s, key, j) == C.VisibleScan(s', key, j)
    decreases |s.slots| - j
  {
    if j < |s.slots| {
      SameVisible(s, s', key, j + 1);
    }
  }

  /** A Get that runs alone ends with what is visible, whatever publishes are in flight, and changes nothing. */
  lemma {:induction false} GetAlone(c: C.Config, s: C.State, t: nat, key: u64) returns (n: nat)
    requires C.Inv(c, s) && t < |s.threads| && C.Free(s.threads[t])
    ensures var end := C.Run(c, s, [C.Event(t, C.StartGet(key))] + Alone(t, n));
      end.slots == s.slots && end.threads[t].GetDone? && end.threads[t].result == Ok(C.Visible(s, key))
  {
    var start := C.Event(t, C.StartGet(key));
    var s1 := C.Step(c, s, start);
    C.StepKeepsInv(c, s, start);
    SameVisible(s, s1, key, 0);
    n := 0;
    if c.capacity > 0 {
      n := ReadEndsAlone(c, s1, t);
    }
    RunFront(c, s, start, Alone(t, n));
  }
}
