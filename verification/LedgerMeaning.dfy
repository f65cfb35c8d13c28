/** What each operation of the ledger answers and leaves, in plain terms: the
    envelope's arithmetic without wraps, the settlement table, the scheduler's
    order. */
module LedgerMeaning {
  import opened Words
  import opened Core
  import opened Ledger
  import opened LedgerBudget
  import opened LedgerRuns

  // Admission.

  /** Every counted entry of a set stands among the ceiling's counted entries,
      and both counts are within their storage. */
  ghost predicate Within(s: bytes, count: u8, ceiling: bytes, ceilingCount: u8) {
    && count <= |s| && ceilingCount <= |ceiling|
    && forall k :: 0 <= k < count ==> exists j :: 0 <= j < ceilingCount && ceiling[j] == s[k]
  }

  ghost predicate UnderCeiling(v: Capabilities, ceiling: Capabilities) {
    && Within(v.readPins, v.readCount, ceiling.readPins, ceiling.readCount)
    && Within(v.writePins, v.writeCount, ceiling.writePins, ceiling.writeCount)
    && Within(v.sensors, v.sensorCount, ceiling.sensors, ceiling.sensorCount)
    && (v.allowTimer ==> ceiling.allowTimer)
    && (v.allowStatus ==> ceiling.allowStatus)
  }

  lemma WithinExact(s: bytes, count: u8, ceiling: bytes, ceilingCount: u8)
    ensures SetWidens(s, count, ceiling, ceilingCount) <==> !Within(s, count, ceiling, ceilingCount)
  {
    if count <= |s| && ceilingCount <= |ceiling| {
      var top := ceiling[..ceilingCount];
      if Within(s, count, ceiling, ceilingCount) {
        forall k | 0 <= k < count ensures s[k] in top {
          var j :| 0 <= j < ceilingCount && ceiling[j] == s[k];
          assert top[j] == s[k];
        }
      } else {
        var k :| 0 <= k < count && forall j :: 0 <= j < ceilingCount ==> ceiling[j] != s[k];
        assert s[k] !in top;
      }
    }
  }

  lemma CeilingExact(v: Capabilities, ceiling: Capabilities)
    ensures v.Widens(ceiling) <==> !UnderCeiling(v, ceiling)
  {
    hide SetWidens, Within;
    WithinExact(v.readPins, v.readCount, ceiling.readPins, ceiling.readCount);
    WithinExact(v.writePins, v.writeCount, ceiling.writePins, ceiling.writeCount);
    WithinExact(v.sensors, v.sensorCount, ceiling.sensors, ceiling.sensorCount);
  }

  /** A goal is admitted exactly when its envelope grants at least one of every
      unit, its capabilities stay under the ceiling, its objective is not empty
      and ingests, and an id and a slot are left; it starts active, due now,
      with the whole envelope unspent. */
  lemma AdmitExact(book: Book, spec: GoalSpec, ingested: Result<note, Error>, ceiling: Capabilities, now: u64)
    ensures var v := spec.envelope;
            var funded := v.perRunTurns >= 1 && v.perRunMutations >= 1 && v.turns >= 1 && v.mutations >= 1 && v.runs >= 1;
            match Admit(book, spec, ingested, ceiling, now) {
              case Ok(g) =>
                && funded && UnderCeiling(spec.capabilities, ceiling) && spec.objective != [] && ingested == Ok(g.objective)
                && g.id == book.nextId != 0 && |book.goals| < MAX_GOALS
                && (g.priority, g.cadence, g.envelope, g.capabilities) == (spec.priority, spec.cadence, v, spec.capabilities)
                && g.remaining.turns == v.turns && g.remaining.mutations == v.mutations && g.remaining.runs == v.runs
                && g.reserved.turns == g.reserved.mutations == 0
                && g.status.Active? && g.nextDue == now && g.failures == 0 && g.runsStarted == 0
                && g.lastStatus.None? && g.run.None? && g.waitingSince == 0
              case Err(e) =>
                if !(funded && UnderCeiling(spec.capabilities, ceiling) && spec.objective != []) then e.GoalSpecInvalid?
                else if ingested.Err? then e == ingested.error
                else if book.nextId == 0 then e.GoalIdsExhausted?
                else |book.goals| >= MAX_GOALS && e.GoalLedgerFull?
            }
  {
    hide Capabilities.Widens, UnderCeiling;
    CeilingExact(spec.capabilities, ceiling);
  }

  /** What is left and what is reserved stay within the envelope, one run more
      counted while busy, and only a busy goal holds a reservation. */
  lemma EnvelopeExact(g: Goal)
    ensures g.CheckEnvelope() ==
              if && g.remaining.turns + g.reserved.turns <= g.envelope.turns
                 && g.remaining.mutations + g.reserved.mutations <= g.envelope.mutations
                 && (if g.status.Running? || g.status.Waiting? then g.remaining.runs < g.envelope.runs
                     else g.remaining.runs <= g.envelope.runs && g.reserved.turns == 0 && g.reserved.mutations == 0)
              then Ok(()) else Err(EnvelopeWidened)
  {
  }

  /** Insertion takes the next id, an active goal within its envelope, and a
      free slot; the allocator steps to the next id, and to 0 past the last. */
  lemma InsertExact(book: Book, goal: Goal)
    requires |book.goals| <= MAX_GOALS
    ensures var (r, after) := Insert(book, goal);
            && (r.Ok? <==> goal.id == book.nextId && goal.status.Active? && goal.CheckEnvelope().Ok? && |book.goals| < MAX_GOALS)
            && (r.Ok? ==> after.goals == book.goals + [goal] && after.nextId == if book.nextId == 0xFFFF then 0 else book.nextId + 1)
            && (r.Err? ==> after == book && (goal.id != book.nextId || !goal.status.Active? ==> r.error.GoalOutOfOrder?))
  {
    hide Goal.CheckEnvelope;
    if book.nextId != 0 {
      NextIdGrows(book.nextId);
    }
  }

  // One goal's operations, under the invariant.

  /** The ledger with goal `k` alone changed. */
  function With(book: Book, k: nat, g: Goal): Book
    requires k < |book.goals|
  {
    Book(book.goals[k := g], book.nextId)
  }

  lemma Found(book: Book, k: nat)
    requires Ordered(book) && k < |book.goals|
    ensures IndexOf(book.goals, book.goals[k].id) == Some(k)
  {
  }

  lemma Unchanged(book: Book, k: nat)
    requires k < |book.goals|
    ensures With(book, k, book.goals[k]) == book
  {
    assert book.goals[k := book.goals[k]] == book.goals;
  }

  /** No operation names a goal that is not there. */
  lemma UnknownExact(book: Book, id: goalId, run: u64, grant: Grant, beat: u64, status: TerminalStatus, refund: Grant, policy: SchedulePolicy, event: GoalEvent)
    requires forall k :: 0 <= k < |book.goals| ==> book.goals[k].id != id
    ensures Reservation(book, id) == Err(GoalUnknown(id))
    ensures SpawnRun(book, id, run, grant) == (Err(GoalUnknown(id)), book)
    ensures ParkRun(book, id, beat) == ResumeRun(book, id) == (Err(GoalUnknown(id)), book)
    ensures SettleRun(book, id, status, refund, beat, policy) == (Err(GoalUnknown(id)), book)
    ensures Control(book, id, event, beat) == (Err(GoalUnknown(id)), book)
  {
  }

  /** The reservation of an active goal is the smaller, in each unit, of what is
      left and what one run is granted; no other status has one. */
  lemma ReservationExact(book: Book, tally: Tally, policy: SchedulePolicy, k: nat)
    requires BookInv(book, tally, policy) && k < |book.goals|
    ensures var g := book.goals[k];
            Reservation(book, g.id) ==
              if g.status.Active? then
                Ok(Grant(if g.remaining.turns <= g.envelope.perRunTurns then g.remaining.turns else g.envelope.perRunTurns,
                         if g.remaining.mutations <= g.envelope.perRunMutations then g.remaining.mutations else g.envelope.perRunMutations))
              else Err(GoalIllegalTransition(g.status, Spawn))
  {
    Found(book, k);
    assert GoalInv(book.goals[k], tally[book.goals[k].id], policy);
  }

  /** A spawn with the reservation moves the grant from what is left into the
      reservation, one run from what is left, and starts the run. */
  lemma SpawnExact(book: Book, tally: Tally, policy: SchedulePolicy, k: nat, run: u64, grant: Grant)
    requires BookInv(book, tally, policy) && k < |book.goals|
    ensures var g := book.goals[k];
            var (r, after) := SpawnRun(book, g.id, run, grant);
            if !g.status.Active? then r == Err(GoalIllegalTransition(g.status, Spawn)) && after == book
            else if Reservation(book, g.id) != Ok(grant) then r == Err(GoalOutOfOrder) && after == book
            else
              && r == Ok(()) && g.remaining.turns >= grant.turns && g.remaining.mutations >= grant.mutations && g.remaining.runs >= 1
              && after == With(book, k, g.(status := Running, reserved := grant, run := Some(run), runsStarted := g.runsStarted + 1,
                   remaining := Remaining(g.remaining.turns - grant.turns, g.remaining.mutations - grant.mutations, g.remaining.runs - 1)))
  {
    hide Goal.CheckEnvelope, BookInv;
    var g := book.goals[k];
    assert Ordered(book) && g.id in tally && GoalInv(g, tally[g.id], policy) by { GoalHolds(book, tally, policy, k); }
    Found(book, k);
    ReservationExact(book, tally, policy, k);
    if Reservation(book, g.id) == Ok(grant) {
      SpawnKeeps(g, tally[g.id], policy, run, grant);
      Small(g.remaining.turns - grant.turns, U32_SPAN);
      Small(g.remaining.mutations - grant.mutations, U32_SPAN);
      Small(g.remaining.runs - 1, U16_SPAN);
    }
  }

  lemma GoalHolds(book: Book, tally: Tally, policy: SchedulePolicy, k: nat)
    requires BookInv(book, tally, policy) && k < |book.goals|
    ensures Ordered(book) && book.goals[k].id in tally && GoalInv(book.goals[k], tally[book.goals[k].id], policy)
  {
    hide GoalInv, Ordered;
  }

  /** Parking marks when; resuming clears it; neither touches anything else. */
  lemma ParkExact(book: Book, tally: Tally, policy: SchedulePolicy, k: nat, beat: u64)
    requires BookInv(book, tally, policy) && k < |book.goals|
    ensures var g := book.goals[k];
            ParkRun(book, g.id, beat) ==
              if g.status.Running? then (Ok(()), With(book, k, g.(status := Waiting, waitingSince := beat)))
              else (Err(GoalIllegalTransition(g.status, Park)), book)
    ensures var g := book.goals[k];
            ResumeRun(book, g.id) ==
              if g.status.Waiting? then (Ok(()), With(book, k, g.(status := Running, waitingSince := 0)))
              else (Err(GoalIllegalTransition(g.status, Resume)), book)
  {
    hide Goal.CheckEnvelope, BookInv, GoalInv;
    var g := book.goals[k];
    GoalHolds(book, tally, policy, k);
    Found(book, k);
    Unchanged(book, k);
    ParkKeeps(g, tally[g.id], policy, beat);
    ResumeKeeps(g, tally[g.id], policy);
  }

  /** The operator pauses an active goal, brings a paused one back no earlier
      than now, or retires either; a busy goal is left alone. */
  lemma ControlExact(book: Book, k: nat, event: GoalEvent, now: u64)
    requires Ordered(book) && k < |book.goals|
    ensures var g := book.goals[k];
            Control(book, g.id, event, now) ==
              if g.status.Running? || g.status.Waiting? then (Err(GoalBusy), book)
              else if event.Pause? && g.status.Active? then (Ok(()), With(book, k, g.(status := Paused)))
              else if event.Unpause? && g.status.Paused? then
                (Ok(()), With(book, k, g.(status := Active, nextDue := if g.nextDue < now then now else g.nextDue)))
              else if event.Retire? && (g.status.Active? || g.status.Paused?) then (Ok(()), With(book, k, g.(status := Retired)))
              else (Err(GoalIllegalTransition(g.status, event)), book)
  {
    Found(book, k);
    Unchanged(book, k);
  }

  // Settlement.

  /** Where a running goal whose refund is back goes when its run ends so; none
      when the next beat does not fit. `k` failures in a row, this one included. */
  ghost function Table(g: Goal, funded: bool, k: nat, status: TerminalStatus, beat: u64, policy: SchedulePolicy): Option<(GoalEvent, GoalStatus, int)>
    requires k >= 1
  {
    var failing := status.Denied? || status.Incompatible? || status.StorageFault?;
    if status.Completed? then
      if g.cadence.Once? then Some((Satisfy, Satisfied, beat))
      else if !funded then Some((Exhaust, Exhausted, beat))
      else if beat + g.cadence.every < U64_SPAN then Some((Recur, Active, beat + g.cadence.every))
      else None
    else if failing || k >= policy.maxFailures then Some((Fail, Failed, beat))
    else if !funded then Some((Exhaust, Exhausted, beat))
    else if beat + Min(policy.base * Pow2(k - 1), policy.cap) < U64_SPAN then
      Some((Recur, Active, beat + Min(policy.base * Pow2(k - 1), policy.cap)))
    else None
  }

  lemma TableIs(g: Goal, back: Goal, policy: SchedulePolicy, status: TerminalStatus, beat: u64)
    requires back.failures == g.failures < policy.maxFailures && back.cadence == g.cadence
    ensures Settlement(back, status, beat, policy) ==
              match Table(g, back.remaining.Fundable(), g.failures + 1, status, beat, policy)
              case None => Err(BeatOverflow)
              case Some((event, next, due)) => Ok((event, due as u64, if status.Completed? then 0 else g.failures + 1))
    ensures var t := Table(g, back.remaining.Fundable(), g.failures + 1, status, beat, policy);
            t.Some? ==> Transition(Running, t.value.0) == Ok(t.value.1) && 0 <= t.value.2 < U64_SPAN
  {
    hide SchedulePolicy.Backoff;
    BackoffExact(policy, g.failures + 1);
  }

  /** Settling, whole. Any refund within the reservation goes back first, without
      wrapping, and stays back when the next beat overflows. Then: a completed
      one-shot is satisfied; a completed standing goal recurs at exactly its
      cadence, or is exhausted when unfunded; a refusal or the last failure
      allowed fails it; otherwise it is exhausted when unfunded, or recurs after
      exactly the backoff. A success clears the streak, anything else adds one. */
  lemma SettleExact(book: Book, tally: Tally, policy: SchedulePolicy, k: nat, status: TerminalStatus, refund: Grant, beat: u64)
    requires BookInv(book, tally, policy) && policy.Validate().Ok? && k < |book.goals|
    ensures var g := book.goals[k];
            var (r, after) := SettleRun(book, g.id, status, refund, beat, policy);
            if !g.status.Running? then r == Err(GoalIllegalTransition(g.status, Recur)) && after == book
            else if refund.turns > g.reserved.turns || refund.mutations > g.reserved.mutations then
              r == Err(RefundExceedsReservation) && after == book
            else
              var turns, mutations := g.remaining.turns + refund.turns, g.remaining.mutations + refund.mutations;
              var funded := turns >= 1 && mutations >= 1 && g.remaining.runs >= 1;
              && turns < U32_SPAN && mutations < U32_SPAN && g.failures + 1 <= policy.maxFailures
              && var back := g.(remaining := Remaining(turns, mutations, g.remaining.runs), reserved := Grant(0, 0));
                 match Table(g, funded, g.failures + 1, status, beat, policy)
                 case None => r == Err(BeatOverflow) && after == With(book, k, back)
                 case Some((event, next, due)) =>
                   && r == Ok(event) && 0 <= due < U64_SPAN
                   && after == With(book, k, back.(status := next, nextDue := due, lastStatus := Some(status), run := None,
                        failures := if status.Completed? then 0 else g.failures + 1))
  {
    hide BookInv, Settlement, Table, SettleOne, Goal.CheckEnvelope;
    var g := book.goals[k];
    GoalHolds(book, tally, policy, k);
    Found(book, k);
    Unchanged(book, k);
    SettleRefused(g, status, refund, beat, policy);
    if g.status.Running? && refund.turns <= g.reserved.turns && refund.mutations <= g.reserved.mutations {
      RefundKeeps(g, tally[g.id], policy, refund);
      RefundStatus(g, refund);
      SettleUnfolds(g, tally[g.id], policy, status, refund, beat);
      TableIs(g, Refunded(g, refund), policy, status, beat);
    }
  }

  lemma SettleRefused(g: Goal, status: TerminalStatus, refund: Grant, beat: u64, policy: SchedulePolicy)
    ensures !g.status.Running? ==> SettleOne(g, status, refund, beat, policy) == (Err(GoalIllegalTransition(g.status, Recur)), g)
    ensures g.status.Running? && (refund.turns > g.reserved.turns || refund.mutations > g.reserved.mutations) ==>
              SettleOne(g, status, refund, beat, policy) == (Err(RefundExceedsReservation), g)
  {
    hide Settlement;
  }

  // The scheduler.

  /** `g` stands in the ledger and comes before every other eligible goal:
      higher priority, then, where due counts, earlier, then the lower id. */
  ghost predicate Least(goals: seq<Goal>, eligible: Goal -> bool, byDue: bool, g: Goal) {
    && g in goals && eligible(g)
    && forall i :: 0 <= i < |goals| && eligible(goals[i]) && goals[i] != g ==>
         var o := goals[i];
         || g.priority > o.priority
         || (g.priority == o.priority
             && if byDue && g.nextDue != o.nextDue then g.nextDue < o.nextDue else g.id < o.id)
  }

  ghost predicate NoneEligible(goals: seq<Goal>, eligible: Goal -> bool) {
    forall i :: 0 <= i < |goals| ==> !eligible(goals[i])
  }

  lemma ChosenIsLeast(goals: seq<Goal>, eligible: Goal -> bool, byDue: bool, best: Option<Goal>)
    requires Chosen(goals, eligible, byDue, best)
    ensures best.Some? ==> Least(goals, eligible, byDue, best.value)
    ensures best.None? ==> NoneEligible(goals, eligible)
  {
  }

  /** A parked goal whose input is ready comes first, the best by priority and
      id; else the best due active goal, by priority, due beat and id. */
  lemma PickExact(book: Book, beat: u64, inputReady: goalId -> bool)
    requires Ordered(book)
    ensures var parked := (g: Goal) => g.status == Waiting && inputReady(g.id);
            var due := (g: Goal) => g.status == Active && g.nextDue <= beat;
            match PickOf(book, beat, inputReady) {
              case ResumeGoal(id) => exists g :: Least(book.goals, parked, false, g) && g.id == id
              case SpawnGoal(id) => NoneEligible(book.goals, parked) && exists g :: Least(book.goals, due, true, g) && g.id == id
              case Idle => NoneEligible(book.goals, parked) && NoneEligible(book.goals, due)
            }
  {
    hide Chosen, Best, Least, NoneEligible;
    var waiting := (g: Goal) => g.status == Waiting && inputReady(g.id);
    var due := (g: Goal) => g.status == Active && g.nextDue <= beat;
    BestIsLeast(book.goals, waiting, false);
    BestIsLeast(book.goals, due, true);
    var first, second := Best(book.goals, waiting, false), Best(book.goals, due, true);
    ChosenIsLeast(book.goals, waiting, false, first);
    ChosenIsLeast(book.goals, due, true, second);
    assert PickOf(book, beat, inputReady) == (if first.Some? then ResumeGoal(first.value.id) else if second.Some? then SpawnGoal(second.value.id) else Idle) by {
      SameBest(book.goals, waiting, (g: Goal) => g.status.Waiting? && inputReady(g.id), false);
      SameBest(book.goals, due, (g: Goal) => g.status.Active? && g.nextDue <= beat, true);
    }
  }

  lemma {:induction false} SameBest(goals: seq<Goal>, p: Goal -> bool, q: Goal -> bool, byDue: bool)
    requires forall g: Goal :: p(g) == q(g)
    ensures Best(goals, p, byDue) == Best(goals, q, byDue)
  {
    hide Before;
    if goals != [] {
      SameBest(goals[..|goals| - 1], p, q, byDue);
    }
  }

  /** Reaping leaves exactly the goals not yet at an end, in order, and counts
      the rest. */
  lemma {:induction false} ReapExact(book: Book)
    ensures Reap(book).1.nextId == book.nextId
    ensures Reap(book).0 + |Reap(book).1.goals| == |book.goals|
    ensures forall g :: g in Reap(book).1.goals <==> g in book.goals && (g.status.Active? || g.status.Running? || g.status.Waiting? || g.status.Paused?)
    ensures Ordered(book) ==> Ordered(Reap(book).1)
    decreases |book.goals|
  {
    if Ordered(book) {
      LiveIsSub(book.goals);
    }
    if book.goals != [] {
      var n := |book.goals| - 1;
      ReapExact(book.(goals := book.goals[..n]));
      assert book.goals == book.goals[..n] + [book.goals[n]];
    }
  }
}
