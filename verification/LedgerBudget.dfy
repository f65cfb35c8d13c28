/** Budgets over whole runs of the ledger: nothing is ever spent twice, lost or
    widened, and the scheduler only picks what can run. */
module LedgerBudget {
  import opened Words
  import opened Core
  import opened Ledger

  /** What a goal's settled runs have used up, and its failures in a row. */
  datatype Account = Account(turns: nat, mutations: nat, streak: nat)

  type Tally = map<u16, Account>

  ghost predicate GoalInv(g: Goal, a: Account, policy: SchedulePolicy) {
    && g.remaining.turns + g.reserved.turns + a.turns == g.envelope.turns
    && g.remaining.mutations + g.reserved.mutations + a.mutations == g.envelope.mutations
    && g.remaining.runs + g.runsStarted == g.envelope.runs
    && g.envelope.perRunTurns >= 1 && g.envelope.perRunMutations >= 1
    && (if g.status.Busy() then g.runsStarted >= 1 else g.reserved == ZERO_GRANT)
    && (g.status.Active? || g.status.Paused? ==> g.remaining.Fundable())
    && (!g.status.Terminal() ==> g.failures == a.streak < policy.maxFailures)
  }

  /** Ids grow in slot order and stay below the allocator. */
  ghost predicate Ordered(book: Book) {
    && (forall i, j :: 0 <= i < j < |book.goals| ==> book.goals[i].id < book.goals[j].id)
    && (book.nextId != 0 ==> forall i :: 0 <= i < |book.goals| ==> book.goals[i].id < book.nextId)
  }

  ghost predicate BookInv(book: Book, tally: Tally, policy: SchedulePolicy) {
    && |book.goals| <= MAX_GOALS
    && Ordered(book)
    && forall i :: 0 <= i < |book.goals| ==> book.goals[i].id in tally && GoalInv(book.goals[i], tally[book.goals[i].id], policy)
  }

  // One goal.

  lemma InvChecks(g: Goal, a: Account, policy: SchedulePolicy)
    requires GoalInv(g, a, policy)
    ensures g.CheckEnvelope() == Ok(())
  {
  }

  lemma SpawnKeeps(g: Goal, a: Account, policy: SchedulePolicy, run: u64, grant: Grant)
    requires GoalInv(g, a, policy) && g.status.Active?
    requires grant == Grant(ClampU16(g.remaining.turns, g.envelope.perRunTurns), ClampU16(g.remaining.mutations, g.envelope.perRunMutations))
    ensures SpawnOne(g, run, grant).0 == Ok(()) && GoalInv(SpawnOne(g, run, grant).1, a, policy)
    ensures SpawnOne(g, run, grant).1.remaining.runs == g.remaining.runs - 1
  {
    Small(g.remaining.turns - grant.turns, U32_SPAN);
    Small(g.remaining.mutations - grant.mutations, U32_SPAN);
    Small(g.remaining.runs - 1, U16_SPAN);
  }

  lemma Small(x: int, m: nat)
    requires 0 <= x < m
    ensures x % m == x
  {
  }

  lemma ParkKeeps(g: Goal, a: Account, policy: SchedulePolicy, beat: u64)
    requires GoalInv(g, a, policy)
    ensures GoalInv(ParkOne(g, beat).1, a, policy)
    ensures ParkOne(g, beat).0 == if g.status.Running? then Ok(()) else Err(GoalIllegalTransition(g.status, Park))
  {
  }

  lemma ResumeKeeps(g: Goal, a: Account, policy: SchedulePolicy)
    requires GoalInv(g, a, policy)
    ensures GoalInv(ResumeOne(g).1, a, policy)
    ensures ResumeOne(g).0 == if g.status.Waiting? then Ok(()) else Err(GoalIllegalTransition(g.status, Resume))
  {
  }

  lemma ControlKeeps(g: Goal, a: Account, policy: SchedulePolicy, event: GoalEvent, now: u64)
    requires GoalInv(g, a, policy)
    ensures GoalInv(ControlOne(g, event, now).1, a, policy)
    ensures ControlOne(g, event, now).0 != Err(EnvelopeWidened)
  {
  }

  /** What settling charges a goal: the grant minus the refund once the refund
      is accepted, even when the settlement then errs; the streak only when it
      is recorded. */
  ghost function Charged(a: Account, g: Goal, status: TerminalStatus, refund: Grant, answer: Result<GoalEvent, Error>): Account {
    if g.status != Running || refund.turns > g.reserved.turns || refund.mutations > g.reserved.mutations then a
    else
      Account(a.turns + g.reserved.turns - refund.turns, a.mutations + g.reserved.mutations - refund.mutations,
              if answer.Err? then a.streak else if status.Completed? then 0 else a.streak + 1)
  }

  /** The refund goes back without wrapping. */
  lemma RefundKeeps(g: Goal, a: Account, policy: SchedulePolicy, refund: Grant)
    requires GoalInv(g, a, policy) && g.status == Running
    requires refund.turns <= g.reserved.turns && refund.mutations <= g.reserved.mutations
    ensures var back := Refunded(g, refund);
            && back.remaining.turns == g.remaining.turns + refund.turns
            && back.remaining.mutations == g.remaining.mutations + refund.mutations
            && GoalInv(back, Account(a.turns + g.reserved.turns - refund.turns, a.mutations + g.reserved.mutations - refund.mutations, a.streak), policy)
  {
    Small(g.remaining.turns + refund.turns, U32_SPAN);
    Small(g.remaining.mutations + refund.mutations, U32_SPAN);
  }

  /** What a recorded settlement leaves of a refunded goal. */
  function Recorded(back: Goal, status: TerminalStatus, event: GoalEvent, due: u64, streak: u8): Goal
    requires Transition(back.status, event).Ok?
  {
    back.(status := Transition(back.status, event).value, nextDue := due, failures := streak, lastStatus := Some(status), run := None)
  }

  lemma SettlementKeeps(back: Goal, a: Account, policy: SchedulePolicy, status: TerminalStatus, beat: u64)
    requires GoalInv(back, a, policy) && back.status == Running && back.reserved == ZERO_GRANT && policy.Validate().Ok?
    ensures match Settlement(back, status, beat, policy) {
              case Err(e) => e == BeatOverflow
              case Ok((event, due, streak)) =>
                && event in {Recur, Satisfy, Fail, Exhaust}
                && GoalInv(Recorded(back, status, event, due, streak), a.(streak := if status.Completed? then 0 else a.streak + 1), policy)
            }
  {
    hide SchedulePolicy.Backoff;
  }

  /** Settling, once its refund is accepted, is the refund, then the record. */
  lemma SettleUnfolds(g: Goal, a: Account, policy: SchedulePolicy, status: TerminalStatus, refund: Grant, beat: u64)
    requires GoalInv(g, a, policy) && policy.Validate().Ok? && g.status == Running
    requires refund.turns <= g.reserved.turns && refund.mutations <= g.reserved.mutations
    ensures var back := Refunded(g, refund);
            SettleOne(g, status, refund, beat, policy) ==
              match Settlement(back, status, beat, policy)
              case Err(e) => (Err(e), back)
              case Ok((event, due, streak)) =>
                if Transition(Running, event).Ok? then (Ok(event), Recorded(back, status, event, due, streak))
                else (Err(GoalIllegalTransition(Running, event)), back)
  {
    hide Settlement;
    RefundKeeps(g, a, policy, refund);
    var back := Refunded(g, refund);
    var b := Account(a.turns + g.reserved.turns - refund.turns, a.mutations + g.reserved.mutations - refund.mutations, a.streak);
    SettlementKeeps(back, b, policy, status, beat);
    match Settlement(back, status, beat, policy)
    case Err(_) =>
    case Ok((event, due, streak)) =>
      InvChecks(Recorded(back, status, event, due, streak), b.(streak := if status.Completed? then 0 else b.streak + 1), policy);
  }

  lemma SettleKeeps(g: Goal, a: Account, policy: SchedulePolicy, status: TerminalStatus, refund: Grant, beat: u64)
    requires GoalInv(g, a, policy) && policy.Validate().Ok?
    ensures var (r, after) := SettleOne(g, status, refund, beat, policy);
            && GoalInv(after, Charged(a, g, status, refund, r), policy)
            && r != Err(EnvelopeWidened)
  {
    if g.status == Running && refund.turns <= g.reserved.turns && refund.mutations <= g.reserved.mutations {
      hide SettleOne, Settlement, GoalInv, Refunded;
      RefundKeeps(g, a, policy, refund);
      var b := Account(a.turns + g.reserved.turns - refund.turns, a.mutations + g.reserved.mutations - refund.mutations, a.streak);
      assert Refunded(g, refund).status == Running && Refunded(g, refund).reserved == ZERO_GRANT by { RefundStatus(g, refund); }
      SettlementKeeps(Refunded(g, refund), b, policy, status, beat);
      SettleUnfolds(g, a, policy, status, refund, beat);
    }
  }

  lemma RefundStatus(g: Goal, refund: Grant)
    ensures Refunded(g, refund).status == g.status && Refunded(g, refund).reserved == ZERO_GRANT
    ensures Refunded(g, refund).failures == g.failures
  {
  }

  /** The k-th failure in a row that reschedules a goal does so exactly
      min(base * 2^(k-1), cap) beats later, and k stays below the limit; it
      fails the goal exactly when it is not retryable or k reaches the limit. */
  lemma RetryDiscipline(g: Goal, a: Account, policy: SchedulePolicy, status: TerminalStatus, refund: Grant, beat: u64)
    requires GoalInv(g, a, policy) && policy.Validate().Ok? && !status.Completed? && g.status == Running
    requires refund.turns <= g.reserved.turns && refund.mutations <= g.reserved.mutations
    ensures var (r, after) := SettleOne(g, status, refund, beat, policy);
            var k := a.streak + 1;
            && (r == Ok(Recur) ==>
                  && after.failures == k < policy.maxFailures
                  && after.nextDue == beat + Min(policy.base * Pow2(k - 1), policy.cap) < U64_SPAN)
            && (r == Ok(Fail) <==> status.Denied? || status.Incompatible? || status.StorageFault? || k >= policy.maxFailures)
  {
    hide SettleOne, SchedulePolicy.Backoff, Refunded;
    BackoffExact(policy, a.streak + 1);
    SettleUnfolds(g, a, policy, status, refund, beat);
    RefundStatus(g, refund);
  }

  // The whole ledger.

  lemma ReplaceKeeps(book: Book, tally: Tally, policy: SchedulePolicy, k: nat, g: Goal, a: Account)
    requires BookInv(book, tally, policy) && k < |book.goals| && g.id == book.goals[k].id && GoalInv(g, a, policy)
    ensures BookInv(book.(goals := book.goals[k := g]), tally[g.id := a], policy)
  {
    hide GoalInv;
  }

  datatype Event =
    | AdmitGoal(spec: GoalSpec, ingested: Result<note, Error>, ceiling: Capabilities, now: u64)
    | SpawnEvent(id: goalId, run: u64, grant: Grant)
    | ParkEvent(id: goalId, beat: u64)
    | ResumeEvent(id: goalId)
    | SettleEvent(id: goalId, status: TerminalStatus, refund: Grant, beat: u64)
    | ControlEvent(id: goalId, event: GoalEvent, now: u64)
    | ReapEvent

  datatype Answer = Done(done: Result<(), Error>) | Settled(settled: Result<GoalEvent, Error>) | Reaped(count: nat)

  /** One committed operation. Admission inserts what it computed. */
  function Step(book: Book, policy: SchedulePolicy, e: Event): (Answer, Book) {
    match e
    case AdmitGoal(spec, ingested, ceiling, now) => (
      match Admit(book, spec, ingested, ceiling, now)
      case Err(error) => (Done(Err(error)), book)
      case Ok(goal) => var (r, after) := Insert(book, goal); (Done(r), after))
    case SpawnEvent(id, run, grant) => var (r, after) := SpawnRun(book, id, run, grant); (Done(r), after)
    case ParkEvent(id, beat) => var (r, after) := ParkRun(book, id, beat); (Done(r), after)
    case ResumeEvent(id) => var (r, after) := ResumeRun(book, id); (Done(r), after)
    case SettleEvent(id, status, refund, beat) => var (r, after) := SettleRun(book, id, status, refund, beat, policy); (Settled(r), after)
    case ControlEvent(id, event, now) => var (r, after) := Control(book, id, event, now); (Done(r), after)
    case ReapEvent => var (n, after) := Reap(book); (Reaped(n), after)
  }

  /** The tally after one operation: a fresh account at admission, the charge at
      settlement. */
  ghost function TallyStep(book: Book, tally: Tally, e: Event, answer: Answer): Tally {
    match e
    case AdmitGoal(_, _, _, _) => if answer == Done(Ok(())) then tally[book.nextId := Account(0, 0, 0)] else tally
    case SettleEvent(id, status, refund, beat) =>
      var at := IndexOf(book.goals, id);
      if at.Some? && id in tally && answer.Settled? then tally[id := Charged(tally[id], book.goals[at.value], status, refund, answer.settled)] else tally
    case _ => tally
  }

  /** The operation answered that an envelope had widened. */
  predicate Widened(answer: Answer) {
    answer == Done(Err(EnvelopeWidened)) || answer == Settled(Err(EnvelopeWidened))
  }

  lemma AdmitKeeps(book: Book, tally: Tally, policy: SchedulePolicy, spec: GoalSpec, ingested: Result<note, Error>, ceiling: Capabilities, now: u64)
    requires BookInv(book, tally, policy) && policy.Validate().Ok? && ingested != Err(EnvelopeWidened)
    ensures var e := AdmitGoal(spec, ingested, ceiling, now);
            var (answer, after) := Step(book, policy, e);
            BookInv(after, TallyStep(book, tally, e, answer), policy) && !Widened(answer)
  {
    hide GoalInv;
    AdmitFresh(book, policy, spec, ingested, ceiling, now);
    if Admit(book, spec, ingested, ceiling, now).Ok? {
      var goal := Admit(book, spec, ingested, ceiling, now).value;
      hide Admit;
      NextIdGrows(book.nextId);
      AddKeeps(book, tally, policy, goal);
    }
  }

  lemma AdmitFresh(book: Book, policy: SchedulePolicy, spec: GoalSpec, ingested: Result<note, Error>, ceiling: Capabilities, now: u64)
    requires policy.Validate().Ok? && ingested != Err(EnvelopeWidened)
    ensures match Admit(book, spec, ingested, ceiling, now) {
              case Err(e) => e != EnvelopeWidened
              case Ok(goal) =>
                && goal.id == book.nextId && goal.status == Active && |book.goals| < MAX_GOALS
                && GoalInv(goal, Account(0, 0, 0), policy) && goal.CheckEnvelope() == Ok(())
            }
  {
    hide Capabilities.Widens;
  }

  lemma NextIdGrows(id: u16)
    requires id != 0
    ensures (id + 1) % U16_SPAN == if id == U16_SPAN - 1 then 0 else id + 1
  {
  }

  /** A goal under the next id joins the ledger with a fresh account. */
  lemma AddKeeps(book: Book, tally: Tally, policy: SchedulePolicy, goal: Goal)
    requires BookInv(book, tally, policy) && |book.goals| < MAX_GOALS
    requires goal.id == book.nextId && GoalInv(goal, Account(0, 0, 0), policy)
    ensures BookInv(Book(book.goals + [goal], (book.nextId + 1) % U16_SPAN), tally[book.nextId := Account(0, 0, 0)], policy)
  {
    hide GoalInv;
    NextIdGrows(book.nextId);
  }

  lemma SpawnBookKeeps(book: Book, tally: Tally, policy: SchedulePolicy, id: goalId, run: u64, grant: Grant)
    requires BookInv(book, tally, policy)
    ensures var (r, after) := SpawnRun(book, id, run, grant);
            && BookInv(after, tally, policy) && r != Err(EnvelopeWidened)
            && (Reservation(book, id) == Ok(grant) ==> r == Ok(()))
  {
    hide SpawnOne;
    var at := IndexOf(book.goals, id);
    if Reservation(book, id) == Ok(grant) {
      var g := book.goals[at.value];
      SpawnKeeps(g, tally[id], policy, run, grant);
      SpawnId(g, run, grant);
      ReplaceKeeps(book, tally, policy, at.value, SpawnOne(g, run, grant).1, tally[id]);
      assert tally[id := tally[id]] == tally;
    }
  }

  lemma SpawnId(g: Goal, run: u64, grant: Grant)
    ensures SpawnOne(g, run, grant).1.id == g.id
  {
  }

  lemma ParkBookKeeps(book: Book, tally: Tally, policy: SchedulePolicy, id: goalId, beat: u64)
    requires BookInv(book, tally, policy)
    ensures BookInv(ParkRun(book, id, beat).1, tally, policy) && ParkRun(book, id, beat).0 != Err(EnvelopeWidened)
  {
    hide GoalInv;
    var at := IndexOf(book.goals, id);
    if at.Some? {
      ParkKeeps(book.goals[at.value], tally[id], policy, beat);
      ReplaceKeeps(book, tally, policy, at.value, ParkOne(book.goals[at.value], beat).1, tally[id]);
      assert tally[id := tally[id]] == tally;
    }
  }

  lemma ResumeBookKeeps(book: Book, tally: Tally, policy: SchedulePolicy, id: goalId)
    requires BookInv(book, tally, policy)
    ensures BookInv(ResumeRun(book, id).1, tally, policy) && ResumeRun(book, id).0 != Err(EnvelopeWidened)
  {
    hide GoalInv;
    var at := IndexOf(book.goals, id);
    if at.Some? {
      ResumeKeeps(book.goals[at.value], tally[id], policy);
      ReplaceKeeps(book, tally, policy, at.value, ResumeOne(book.goals[at.value]).1, tally[id]);
      assert tally[id := tally[id]] == tally;
    }
  }

  lemma ControlBookKeeps(book: Book, tally: Tally, policy: SchedulePolicy, id: goalId, event: GoalEvent, now: u64)
    requires BookInv(book, tally, policy)
    ensures BookInv(Control(book, id, event, now).1, tally, policy) && Control(book, id, event, now).0 != Err(EnvelopeWidened)
  {
    hide GoalInv;
    var at := IndexOf(book.goals, id);
    if at.Some? {
      ControlKeeps(book.goals[at.value], tally[id], policy, event, now);
      ReplaceKeeps(book, tally, policy, at.value, ControlOne(book.goals[at.value], event, now).1, tally[id]);
      assert tally[id := tally[id]] == tally;
    }
  }

  lemma SettleBookKeeps(book: Book, tally: Tally, policy: SchedulePolicy, id: goalId, status: TerminalStatus, refund: Grant, beat: u64)
    requires BookInv(book, tally, policy) && policy.Validate().Ok?
    ensures var e := SettleEvent(id, status, refund, beat);
            var (r, after) := SettleRun(book, id, status, refund, beat, policy);
            BookInv(after, TallyStep(book, tally, e, Settled(r)), policy) && r != Err(EnvelopeWidened)
  {
    hide GoalInv, SettleOne, Charged;
    var at := IndexOf(book.goals, id);
    if at.Some? {
      var g := book.goals[at.value];
      var r := SettleOne(g, status, refund, beat, policy).0;
      SettleKeeps(g, tally[id], policy, status, refund, beat);
      SettleId(g, status, refund, beat, policy);
      ReplaceKeeps(book, tally, policy, at.value, SettleOne(g, status, refund, beat, policy).1, Charged(tally[id], g, status, refund, r));
    }
  }

  lemma SettleId(g: Goal, status: TerminalStatus, refund: Grant, beat: u64, policy: SchedulePolicy)
    ensures SettleOne(g, status, refund, beat, policy).1.id == g.id
  {
  }

  lemma {:induction false} LiveMembers(goals: seq<Goal>)
    ensures forall g :: g in LiveGoals(goals) <==> g in goals && !g.status.Terminal()
  {
    if goals != [] {
      var rest := goals[..|goals| - 1];
      LiveMembers(rest);
      assert goals == rest + [goals[|goals| - 1]];
    }
  }

  /** The survivors of a reap are goals of the ledger, in order. */
  lemma {:induction false} LiveIsSub(goals: seq<Goal>)
    requires forall i, j :: 0 <= i < j < |goals| ==> goals[i].id < goals[j].id
    ensures forall i :: 0 <= i < |LiveGoals(goals)| ==> LiveGoals(goals)[i] in goals && !LiveGoals(goals)[i].status.Terminal()
    ensures forall i, j :: 0 <= i < j < |LiveGoals(goals)| ==> LiveGoals(goals)[i].id < LiveGoals(goals)[j].id
    ensures forall g :: g in goals && !g.status.Terminal() ==> g in LiveGoals(goals)
  {
    LiveMembers(goals);
    if goals != [] {
      var rest := goals[..|goals| - 1];
      LiveIsSub(rest);
      var live := LiveGoals(rest);
      forall i | 0 <= i < |live| ensures live[i].id < goals[|goals| - 1].id {
        var k :| 0 <= k < |rest| && rest[k] == live[i];
        assert goals[k] == live[i];
      }
    }
  }

  lemma ReapKeeps(book: Book, tally: Tally, policy: SchedulePolicy)
    requires BookInv(book, tally, policy)
    ensures BookInv(Reap(book).1, tally, policy)
  {
    hide GoalInv;
    LiveIsSub(book.goals);
  }

  lemma StepKeeps(book: Book, tally: Tally, policy: SchedulePolicy, e: Event)
    requires BookInv(book, tally, policy) && policy.Validate().Ok?
    requires e.AdmitGoal? ==> e.ingested != Err(EnvelopeWidened)
    ensures var (answer, after) := Step(book, policy, e);
            BookInv(after, TallyStep(book, tally, e, answer), policy) && !Widened(answer)
  {
    hide BookInv, Admit, Insert, SpawnRun, ParkRun, ResumeRun, SettleRun, Control, Charged;
    match e
    case AdmitGoal(spec, ingested, ceiling, now) => AdmitKeeps(book, tally, policy, spec, ingested, ceiling, now);
    case SpawnEvent(id, run, grant) => SpawnBookKeeps(book, tally, policy, id, run, grant);
    case ParkEvent(id, beat) => ParkBookKeeps(book, tally, policy, id, beat);
    case ResumeEvent(id) => ResumeBookKeeps(book, tally, policy, id);
    case SettleEvent(id, status, refund, beat) => SettleBookKeeps(book, tally, policy, id, status, refund, beat);
    case ControlEvent(id, event, now) => ControlBookKeeps(book, tally, policy, id, event, now);
    case ReapEvent => ReapKeeps(book, tally, policy);
  }
}
