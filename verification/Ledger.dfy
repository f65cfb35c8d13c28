/** Goals and their ledger: the status machine, the reserve/refund budget, the
    scheduler. Values and the functions the in-place ledger is proved against. */
module Ledger {
  import opened Words
  import opened Core

  const MAX_GOALS := 8

  datatype Cadence = Once | Every(every: span)

  const TRANSITIONS: seq<(GoalStatus, GoalEvent, GoalStatus)> := [
    (Active, Spawn, Running),
    (Running, Park, Waiting),
    (Waiting, Resume, Running),
    (Running, Recur, Active),
    (Running, Satisfy, Satisfied),
    (Running, Fail, Failed),
    (Running, Exhaust, Exhausted),
    (Active, Pause, Paused),
    (Paused, Unpause, Active),
    (Active, Retire, Retired),
    (Paused, Retire, Retired)
  ]

  function Transition(from: GoalStatus, event: GoalEvent): Result<GoalStatus, Error> {
    match (from, event)
    case (Active, Spawn) => Ok(Running)
    case (Running, Park) => Ok(Waiting)
    case (Waiting, Resume) => Ok(Running)
    case (Running, Recur) => Ok(Active)
    case (Running, Satisfy) => Ok(Satisfied)
    case (Running, Fail) => Ok(Failed)
    case (Running, Exhaust) => Ok(Exhausted)
    case (Active, Pause) => Ok(Paused)
    case (Paused, Unpause) => Ok(Active)
    case (Active, Retire) => Ok(Retired)
    case (Paused, Retire) => Ok(Retired)
    case _ => Err(GoalIllegalTransition(from, event))
  }

  datatype Envelope = Envelope(perRunTurns: u16, perRunMutations: u16, turns: u32, mutations: u32, runs: u16) {
    function Validate(): Result<(), Error> {
      if perRunTurns == 0 then Err(GoalSpecInvalid("per_run_turns must be at least 1"))
      else if perRunMutations == 0 then Err(GoalSpecInvalid("per_run_mutations must be at least 1"))
      else if turns == 0 || mutations == 0 || runs == 0 then Err(GoalSpecInvalid("the envelope must fund at least one run"))
      else Ok(())
    }
  }

  datatype Remaining = Remaining(turns: u32, mutations: u32, runs: u16) {
    predicate Fundable() {
      turns >= 1 && mutations >= 1 && runs >= 1
    }
  }

  datatype Grant = Grant(turns: u16, mutations: u16)

  const ZERO_GRANT := Grant(0, 0)

  /** Counted sets: only the first `count` entries of each are granted. */
  datatype Capabilities = Capabilities(
    readPins: bytes, readCount: u8, writePins: bytes, writeCount: u8, sensors: bytes, sensorCount: u8,
    allowTimer: bool, allowStatus: bool)
  {
    predicate Widens(ceiling: Capabilities) {
      || SetWidens(readPins, readCount, ceiling.readPins, ceiling.readCount)
      || SetWidens(writePins, writeCount, ceiling.writePins, ceiling.writeCount)
      || SetWidens(sensors, sensorCount, ceiling.sensors, ceiling.sensorCount)
      || (allowTimer && !ceiling.allowTimer)
      || (allowStatus && !ceiling.allowStatus)
    }
  }

  /** A grant outside the ceiling, or a count past its storage on either side. */
  predicate SetWidens(s: bytes, count: u8, ceiling: bytes, ceilingCount: u8) {
    count > |s| || ceilingCount > |ceiling| || exists k :: 0 <= k < count && s[k] !in ceiling[..ceilingCount]
  }

  datatype GoalSpec = GoalSpec(objective: bytes, priority: u8, cadence: Cadence, envelope: Envelope, capabilities: Capabilities)

  datatype Goal = Goal(
    id: goalId,
    objective: note,
    priority: u8,
    cadence: Cadence,
    envelope: Envelope,
    remaining: Remaining,
    reserved: Grant,
    capabilities: Capabilities,
    status: GoalStatus,
    nextDue: u64,
    failures: u8,
    runsStarted: u32,
    lastStatus: Option<TerminalStatus>,
    waitingSince: u64,
    run: Option<u64>)
  {
    /** The envelope has not widened, and only a busy goal holds a reservation. */
    function CheckEnvelope(): Result<(), Error> {
      if remaining.turns + reserved.turns > envelope.turns
         || remaining.mutations + reserved.mutations > envelope.mutations
         || remaining.runs + (if status.Busy() then 1 else 0) > envelope.runs
      then Err(EnvelopeWidened)
      else if !status.Busy() && reserved != ZERO_GRANT then Err(EnvelopeWidened)
      else Ok(())
    }
  }

  predicate Retryable(status: TerminalStatus) {
    !(status.Denied? || status.Incompatible? || status.StorageFault?)
  }

  /** The settlement of a running goal whose refund is already back: the event,
      the next due beat, the new failure streak. */
  function Settlement(goal: Goal, status: TerminalStatus, beat: u64, policy: SchedulePolicy): Result<(GoalEvent, u64, u8), Error> {
    if status.Completed? then
      match goal.cadence
      case Once => Ok((Satisfy, beat, 0))
      case Every(every) =>
        if !goal.remaining.Fundable() then Ok((Exhaust, beat, 0))
        else
          var due :- After(beat, every);
          Ok((Recur, due, 0))
    else
      var streak: u8 := if goal.failures == 0xFF then 0xFF else goal.failures + 1;
      if !Retryable(status) || streak >= policy.maxFailures then Ok((Fail, beat, streak))
      else if !goal.remaining.Fundable() then Ok((Exhaust, beat, streak))
      else
        var due :- After(beat, policy.Backoff(streak));
        Ok((Recur, due, streak))
  }

  datatype Pick = Idle | SpawnGoal(id: goalId) | ResumeGoal(id: goalId)

  /** The goals in slot order, and the id the next one gets (0 once spent). */
  datatype Book = Book(goals: seq<Goal>, nextId: u16)

  function IndexOf(goals: seq<Goal>, id: u16): (r: Option<nat>)
    ensures r.Some? ==> r.value < |goals| && goals[r.value].id == id && forall k :: 0 <= k < r.value ==> goals[k].id != id
    ensures r.None? ==> forall k :: 0 <= k < |goals| ==> goals[k].id != id
  {
    FirstIndex(goals, (g: Goal) => g.id == id)
  }

  /** The goal `spec` would admit; `ingested` is its objective, masked and bounded. */
  function Admit(book: Book, spec: GoalSpec, ingested: Result<note, Error>, ceiling: Capabilities, now: u64): Result<Goal, Error> {
    var _ :- spec.envelope.Validate();
    if spec.capabilities.Widens(ceiling) then Err(GoalSpecInvalid("capabilities widen the agent's ceiling"))
    else if spec.objective == [] then Err(GoalSpecInvalid("objective must not be empty"))
    else
      var objective :- ingested;
      if book.nextId == 0 then Err(GoalIdsExhausted)
      else if |book.goals| >= MAX_GOALS then Err(GoalLedgerFull)
      else
        Ok(Goal(book.nextId, objective, spec.priority, spec.cadence, spec.envelope,
                Remaining(spec.envelope.turns, spec.envelope.mutations, spec.envelope.runs), ZERO_GRANT,
                spec.capabilities, Active, now, 0, 0, None, 0, None))
  }

  function Insert(book: Book, goal: Goal): (Result<(), Error>, Book) {
    if goal.id != book.nextId || goal.status != Active then (Err(GoalOutOfOrder), book)
    else if goal.CheckEnvelope().Err? then (goal.CheckEnvelope(), book)
    else if |book.goals| >= MAX_GOALS then (Err(GoalLedgerFull), book)
    else (Ok(()), Book(book.goals + [goal], (book.nextId + 1) % U16_SPAN))
  }

  /** `a` is served before `b`: higher priority, then earlier due, then lower id. */
  predicate Before(a: Goal, b: Goal, byDue: bool) {
    || a.priority > b.priority
    || (a.priority == b.priority && byDue && a.nextDue < b.nextDue)
    || (a.priority == b.priority && (!byDue || a.nextDue == b.nextDue) && a.id < b.id)
  }

  /** The first least eligible goal. */
  function Best(goals: seq<Goal>, eligible: Goal -> bool, byDue: bool): (r: Option<Goal>) {
    if goals == [] then None
    else
      var last := goals[|goals| - 1];
      var best := Best(goals[..|goals| - 1], eligible, byDue);
      if eligible(last) && (best.None? || Before(last, best.value, byDue)) then Some(last) else best
  }

  function PickOf(book: Book, beat: u64, inputReady: goalId -> bool): Pick {
    match Best(book.goals, (g: Goal) => g.status.Waiting? && inputReady(g.id), false)
    case Some(goal) => ResumeGoal(goal.id)
    case None =>
      match Best(book.goals, (g: Goal) => g.status.Active? && g.nextDue <= beat, true)
      case Some(goal) => SpawnGoal(goal.id)
      case None => Idle
  }

  function ClampU16(value: u32, cap: u16): u16 {
    Min(value, cap)
  }

  function Reservation(book: Book, id: goalId): Result<Grant, Error> {
    match IndexOf(book.goals, id)
    case None => Err(GoalUnknown(id))
    case Some(k) =>
      var goal := book.goals[k];
      var _ :- Transition(goal.status, Spawn);
      if !goal.remaining.Fundable() then Err(EnvelopeWidened)
      else Ok(Grant(ClampU16(goal.remaining.turns, goal.envelope.perRunTurns), ClampU16(goal.remaining.mutations, goal.envelope.perRunMutations)))
  }

  /** The goal `f` changed in place, and what `f` answered. */
  function Apply<T>(book: Book, id: goalId, f: Goal -> (Result<T, Error>, Goal)): (Result<T, Error>, Book) {
    match IndexOf(book.goals, id)
    case None => (Err(GoalUnknown(id)), book)
    case Some(k) =>
      var (r, goal) := f(book.goals[k]);
      (r, book.(goals := book.goals[k := goal]))
  }

  function SpawnOne(goal: Goal, run: u64, grant: Grant): (Result<(), Error>, Goal) {
    match Transition(goal.status, Spawn)
    case Err(e) => (Err(e), goal)
    case Ok(status) =>
      var g := goal.(
        status := status,
        remaining := Remaining(
          (goal.remaining.turns - grant.turns) % U32_SPAN,
          (goal.remaining.mutations - grant.mutations) % U32_SPAN,
          (goal.remaining.runs - 1) % U16_SPAN),
        reserved := grant,
        runsStarted := Min(goal.runsStarted + 1, U32_SPAN - 1),
        run := Some(run));
      (g.CheckEnvelope(), g)
  }

  function SpawnRun(book: Book, id: goalId, run: u64, grant: Grant): (Result<(), Error>, Book) {
    match Reservation(book, id)
    case Err(e) => (Err(e), book)
    case Ok(due) =>
      if due != grant then (Err(GoalOutOfOrder), book) else Apply(book, id, (g: Goal) => SpawnOne(g, run, grant))
  }

  function ParkOne(goal: Goal, beat: u64): (Result<(), Error>, Goal) {
    match Transition(goal.status, Park)
    case Err(e) => (Err(e), goal)
    case Ok(status) =>
      var g := goal.(status := status, waitingSince := beat);
      (g.CheckEnvelope(), g)
  }

  function ParkRun(book: Book, id: goalId, beat: u64): (Result<(), Error>, Book) {
    Apply(book, id, (g: Goal) => ParkOne(g, beat))
  }

  function ResumeOne(goal: Goal): (Result<(), Error>, Goal) {
    match Transition(goal.status, Resume)
    case Err(e) => (Err(e), goal)
    case Ok(status) =>
      var g := goal.(status := status, waitingSince := 0);
      (g.CheckEnvelope(), g)
  }

  function ResumeRun(book: Book, id: goalId): (Result<(), Error>, Book) {
    Apply(book, id, ResumeOne)
  }

  /** Refund first, then decide: a settlement that errs keeps the refund. */
  function Refunded(goal: Goal, refund: Grant): Goal {
    goal.(
      remaining := goal.remaining.(
        turns := (goal.remaining.turns + refund.turns) % U32_SPAN,
        mutations := (goal.remaining.mutations + refund.mutations) % U32_SPAN),
      reserved := ZERO_GRANT)
  }

  function SettleOne(goal: Goal, status: TerminalStatus, refund: Grant, beat: u64, policy: SchedulePolicy): (Result<GoalEvent, Error>, Goal) {
    if goal.status != Running then (Err(GoalIllegalTransition(goal.status, Recur)), goal)
    else if refund.turns > goal.reserved.turns || refund.mutations > goal.reserved.mutations then (Err(RefundExceedsReservation), goal)
    else
      var back := Refunded(goal, refund);
      match Settlement(back, status, beat, policy)
      case Err(e) => (Err(e), back)
      case Ok((event, due, streak)) =>
        match Transition(back.status, event)
        case Err(e) => (Err(e), back)
        case Ok(next) =>
          var g := back.(status := next, nextDue := due, failures := streak, lastStatus := Some(status), run := None);
          match g.CheckEnvelope()
          case Err(e) => (Err(e), g)
          case Ok(_) => (Ok(event), g)
  }

  function SettleRun(book: Book, id: goalId, status: TerminalStatus, refund: Grant, beat: u64, policy: SchedulePolicy): (Result<GoalEvent, Error>, Book) {
    Apply(book, id, (g: Goal) => SettleOne(g, status, refund, beat, policy))
  }

  function ControlOne(goal: Goal, event: GoalEvent, now: u64): (Result<(), Error>, Goal) {
    if goal.status.Busy() then (Err(GoalBusy), goal)
    else if !event.Operator() then (Err(GoalIllegalTransition(goal.status, event)), goal)
    else
      match Transition(goal.status, event)
      case Err(e) => (Err(e), goal)
      case Ok(status) =>
        var g := goal.(status := status);
        (Ok(()), if event.Unpause? && g.nextDue < now then g.(nextDue := now) else g)
  }

  function Control(book: Book, id: goalId, event: GoalEvent, now: u64): (Result<(), Error>, Book) {
    Apply(book, id, (g: Goal) => ControlOne(g, event, now))
  }

  function LiveGoals(goals: seq<Goal>): (r: seq<Goal>)
    ensures |r| <= |goals|
  {
    if goals == [] then []
    else
      var last := goals[|goals| - 1];
      LiveGoals(goals[..|goals| - 1]) + if last.status.Terminal() then [] else [last]
  }

  function Reap(book: Book): (nat, Book) {
    var kept := LiveGoals(book.goals);
    (|book.goals| - |kept|, book.(goals := kept))
  }

  /** Append one restored goal, checked against the allocator and the rest. */
  function RestoreGoal(book: Book, goal: Goal): (Result<(), Error>, Book) {
    if (book.nextId != 0 && goal.id >= book.nextId)
       || goal.status.Running?
       || goal.CheckEnvelope().Err?
       || IndexOf(book.goals, goal.id).Some?
       || |book.goals| >= MAX_GOALS
    then (Err(SnapshotCorrupt), book)
    else (Ok(()), book.(goals := book.goals + [goal]))
  }
}
