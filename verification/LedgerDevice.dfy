/** The ledger as the supervisor mutates it: a fixed table of slots. */
module LedgerDevice {
  import opened Words
  import opened Core
  import opened Ledger

  /** The machine accepts exactly the rows of its table. */
  lemma EdgesExact(from: GoalStatus, event: GoalEvent, to: GoalStatus)
    ensures Transition(from, event) == Ok(to) <==> (from, event, to) in TRANSITIONS
    ensures Transition(from, event).Err? ==> Transition(from, event) == Err(GoalIllegalTransition(from, event))
  {
    assert TRANSITIONS[0] == (Active, Spawn, Running);
    assert TRANSITIONS[1] == (Running, Park, Waiting);
    assert TRANSITIONS[2] == (Waiting, Resume, Running);
    assert TRANSITIONS[3] == (Running, Recur, Active);
    assert TRANSITIONS[4] == (Running, Satisfy, Satisfied);
    assert TRANSITIONS[5] == (Running, Fail, Failed);
    assert TRANSITIONS[6] == (Running, Exhaust, Exhausted);
    assert TRANSITIONS[7] == (Active, Pause, Paused);
    assert TRANSITIONS[8] == (Paused, Unpause, Active);
    assert TRANSITIONS[9] == (Active, Retire, Retired);
    assert TRANSITIONS[10] == (Paused, Retire, Retired);
  }

  /** The machine read off its table, row by row. */
  method TransitionByTable(from: GoalStatus, event: GoalEvent) returns (r: Result<GoalStatus, Error>)
    ensures r == Transition(from, event)
  {
    hide Transition;
    for i := 0 to |TRANSITIONS|
      invariant forall j :: 0 <= j < i ==> !(TRANSITIONS[j].0 == from && TRANSITIONS[j].1 == event)
    {
      var (src, ev, dst) := TRANSITIONS[i];
      if src == from && ev == event {
        assert TRANSITIONS[i] == (from, event, dst);
        EdgesExact(from, event, dst);
        return Ok(dst);
      }
    }
    if Transition(from, event).Ok? {
      EdgesExact(from, event, Transition(from, event).value);
      assert false;
    }
    EdgesExact(from, event, Active);
    return Err(GoalIllegalTransition(from, event));
  }

  class GoalLedger {
    var slots: array<Option<Goal>>
    var nextId: u16
    /** The goals held, in slot order. */
    ghost var held: seq<Goal>

    /** The goals fill the first slots, with no hole. */
    ghost predicate Valid()
      reads this, slots
    {
      && slots.Length == MAX_GOALS
      && |held| <= MAX_GOALS
      && forall k :: 0 <= k < MAX_GOALS ==> slots[k] == if k < |held| then Some(held[k]) else None
    }

    ghost function Contents(): Book
      reads this
    {
      Book(held, nextId)
    }

    /** An empty ledger whose allocator stands at `next`. */
    constructor (next: u16)
      ensures Valid() && fresh(slots) && Contents() == Book([], next)
    {
      slots := new Option<Goal>[MAX_GOALS](_ => None);
      nextId := next;
      held := [];
    }

    /** The slot holding goal `id`. */
    method Locate(id: u16) returns (at: Option<nat>)
      requires Valid()
      ensures at == IndexOf(held, id)
    {
      for k := 0 to MAX_GOALS
        invariant forall j :: 0 <= j < k && j < |held| ==> held[j].id != id
      {
        if slots[k].Some? && slots[k].value.id == id {
          return Some(k);
        }
      }
      return None;
    }

    method FirstFree() returns (at: Option<nat>)
      requires Valid()
      ensures at == if |held| < MAX_GOALS then Some(|held|) else None
    {
      for k := 0 to MAX_GOALS
        invariant k <= |held|
      {
        if slots[k].None? {
          return Some(k);
        }
      }
      return None;
    }

    /** Overwrite the goal in slot `k`. */
    method Put(k: nat, goal: Goal)
      requires Valid() && k < |held|
      modifies this`held, slots
      ensures Valid() && Contents() == old(Contents()).(goals := old(held)[k := goal])
    {
      slots[k] := Some(goal);
      held := held[k := goal];
    }

    method Add(k: nat, goal: Goal)
      requires Valid() && k == |held| < MAX_GOALS
      modifies this`held, slots
      ensures Valid() && Contents() == old(Contents()).(goals := old(held) + [goal])
    {
      slots[k] := Some(goal);
      held := held + [goal];
    }

    method InsertGoal(goal: Goal) returns (r: Result<(), Error>)
      requires Valid()
      modifies this`held, this`nextId, slots
      ensures Valid() && (r, Contents()) == Insert(old(Contents()), goal)
    {
      if goal.id != nextId || goal.status != Active {
        return Err(GoalOutOfOrder);
      }
      r := goal.CheckEnvelope();
      if r.Err? {
        return;
      }
      var slot := FirstFree();
      if slot.None? {
        return Err(GoalLedgerFull);
      }
      Add(slot.value, goal);
      nextId := if nextId + 1 == U16_SPAN then 0 else nextId + 1;
    }

    method ReservationOf(id: goalId) returns (r: Result<Grant, Error>)
      requires Valid()
      ensures r == Reservation(Contents(), id)
    {
      var at := Locate(id);
      if at.None? {
        return Err(GoalUnknown(id));
      }
      var goal := slots[at.value].value;
      var _ :- TransitionByTable(goal.status, Spawn);
      if !goal.remaining.Fundable() {
        return Err(EnvelopeWidened);
      }
      return Ok(Grant(ClampU16(goal.remaining.turns, goal.envelope.perRunTurns), ClampU16(goal.remaining.mutations, goal.envelope.perRunMutations)));
    }

    method SpawnGoalRun(id: goalId, run: u64, grant: Grant) returns (r: Result<(), Error>)
      requires Valid()
      modifies this`held, slots
      ensures Valid() && (r, Contents()) == SpawnRun(old(Contents()), id, run, grant)
    {
      hide Goal.CheckEnvelope;
      var due :- ReservationOf(id);
      if due != grant {
        return Err(GoalOutOfOrder);
      }
      var at := Locate(id);
      var goal := slots[at.value].value;
      var status := TransitionByTable(goal.status, Spawn);
      goal := goal.(status := status.value);
      goal := goal.(remaining := Remaining(
        (goal.remaining.turns - grant.turns) % U32_SPAN,
        (goal.remaining.mutations - grant.mutations) % U32_SPAN,
        (goal.remaining.runs - 1) % U16_SPAN));
      goal := goal.(reserved := grant);
      goal := goal.(runsStarted := Min(goal.runsStarted + 1, U32_SPAN - 1));
      goal := goal.(run := Some(run));
      Put(at.value, goal);
      return goal.CheckEnvelope();
    }

    method ParkGoalRun(id: goalId, beat: u64) returns (r: Result<(), Error>)
      requires Valid()
      modifies this`held, slots
      ensures Valid() && (r, Contents()) == ParkRun(old(Contents()), id, beat)
    {
      hide Goal.CheckEnvelope;
      var at := Locate(id);
      if at.None? {
        return Err(GoalUnknown(id));
      }
      var goal := slots[at.value].value;
      var status := TransitionByTable(goal.status, Park);
      if status.Err? {
        assert held[at.value := held[at.value]] == held;
        return Err(status.error);
      }
      goal := goal.(status := status.value, waitingSince := beat);
      Put(at.value, goal);
      return goal.CheckEnvelope();
    }

    method ResumeGoalRun(id: goalId) returns (r: Result<(), Error>)
      requires Valid()
      modifies this`held, slots
      ensures Valid() && (r, Contents()) == ResumeRun(old(Contents()), id)
    {
      hide Goal.CheckEnvelope;
      var at := Locate(id);
      if at.None? {
        return Err(GoalUnknown(id));
      }
      var goal := slots[at.value].value;
      var status := TransitionByTable(goal.status, Resume);
      if status.Err? {
        assert held[at.value := held[at.value]] == held;
        return Err(status.error);
      }
      goal := goal.(status := status.value, waitingSince := 0);
      Put(at.value, goal);
      return goal.CheckEnvelope();
    }

    /** The refund is in the slot before the decision that may fail. */
    method SettleGoalRun(id: goalId, status: TerminalStatus, refund: Grant, beat: u64, policy: SchedulePolicy) returns (r: Result<GoalEvent, Error>)
      requires Valid()
      modifies this`held, slots
      ensures Valid() && (r, Contents()) == SettleRun(old(Contents()), id, status, refund, beat, policy)
    {
      hide Goal.CheckEnvelope, Settlement;
      var at := Locate(id);
      if at.None? {
        return Err(GoalUnknown(id));
      }
      var goal := slots[at.value].value;
      if goal.status != Running || refund.turns > goal.reserved.turns || refund.mutations > goal.reserved.mutations {
        assert held[at.value := held[at.value]] == held;
        return if goal.status != Running then Err(GoalIllegalTransition(goal.status, Recur)) else Err(RefundExceedsReservation);
      }
      ghost var before := held;
      goal := goal.(remaining := goal.remaining.(
        turns := (goal.remaining.turns + refund.turns) % U32_SPAN,
        mutations := (goal.remaining.mutations + refund.mutations) % U32_SPAN));
      goal := goal.(reserved := ZERO_GRANT);
      Put(at.value, goal);
      var decided :- Settlement(goal, status, beat, policy);
      var (event, due, streak) := decided;
      var next :- TransitionByTable(goal.status, event);
      goal := goal.(status := next, nextDue := due, failures := streak, lastStatus := Some(status), run := None);
      Put(at.value, goal);
      assert held == before[at.value := goal];
      var _ :- goal.CheckEnvelope();
      return Ok(event);
    }

    method ControlGoal(id: goalId, event: GoalEvent, now: u64) returns (r: Result<(), Error>)
      requires Valid()
      modifies this`held, slots
      ensures Valid() && (r, Contents()) == Control(old(Contents()), id, event, now)
    {
      var at := Locate(id);
      if at.None? {
        return Err(GoalUnknown(id));
      }
      var goal := slots[at.value].value;
      assert held[at.value := held[at.value]] == held;
      if goal.status.Busy() {
        return Err(GoalBusy);
      }
      if !event.Operator() {
        return Err(GoalIllegalTransition(goal.status, event));
      }
      var status :- TransitionByTable(goal.status, event);
      goal := goal.(status := status);
      if event == Unpause && goal.nextDue < now {
        goal := goal.(nextDue := now);
      }
      Put(at.value, goal);
      return Ok(());
    }

    /** Move the live goals to the front, in order. */
    method ReapGoals() returns (count: nat)
      requires Valid()
      modifies this`held, this`slots
      ensures Valid() && fresh(slots) && (count, Contents()) == Reap(old(Contents()))
    {
      hide LiveGoals;
      var kept := new Option<Goal>[MAX_GOALS](_ => None);
      ghost var live: seq<Goal> := [];
      var n, before := 0, 0;
      LiveStep(held, 0);
      for k := 0 to MAX_GOALS
        invariant slots == old(slots) && held == old(held) && fresh(kept)
        invariant before == Min(k, |held|) && live == LiveGoals(held[..before])
        invariant n == |live| <= before
        invariant kept.Length == MAX_GOALS && forall j :: 0 <= j < MAX_GOALS ==> kept[j] == if j < n then Some(live[j]) else None
      {
        if slots[k].Some? {
          before := before + 1;
          LiveStep(held, k);
          if !slots[k].value.status.Terminal() {
            kept[n] := slots[k];
            n := n + 1;
            live := live + [held[k]];
          }
        }
      }
      assert held[..before] == held;
      count := before - n;
      slots := kept;
      held := live;
    }

    lemma LiveStep(goals: seq<Goal>, k: nat)
      ensures LiveGoals(goals[..0]) == []
      ensures k < |goals| ==> LiveGoals(goals[..k + 1]) == LiveGoals(goals[..k]) + if goals[k].status.Terminal() then [] else [goals[k]]
    {
      if k < |goals| {
        assert goals[..k + 1][..k] == goals[..k];
      }
    }

    method RestoreOne(goal: Goal) returns (r: Result<(), Error>)
      requires Valid()
      modifies this`held, slots
      ensures Valid() && (r, Contents()) == RestoreGoal(old(Contents()), goal)
    {
      var at := Locate(goal.id);
      if (nextId != 0 && goal.id >= nextId) || goal.status == Running || goal.CheckEnvelope().Err? || at.Some? {
        return Err(SnapshotCorrupt);
      }
      var slot := FirstFree();
      if slot.None? {
        return Err(SnapshotCorrupt);
      }
      Add(slot.value, goal);
      return Ok(());
    }
  }
}
