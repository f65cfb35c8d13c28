/** Whole runs of the ledger: conservation, bounded spawning, the scheduler's
    choice, and reaping that live goals cannot see. */
module LedgerRuns {
  import opened Words
  import opened Core
  import opened Ledger
  import opened LedgerBudget

  // Runs.

  function BookAt(book: Book, policy: SchedulePolicy, events: seq<Event>, k: nat): Book
    requires k <= |events|
    decreases k
  {
    if k == 0 then book else Step(BookAt(book, policy, events, k - 1), policy, events[k - 1]).1
  }

  function AnswerAt(book: Book, policy: SchedulePolicy, events: seq<Event>, k: nat): Answer
    requires k < |events|
  {
    Step(BookAt(book, policy, events, k), policy, events[k]).0
  }

  ghost function TallyAt(book: Book, tally: Tally, policy: SchedulePolicy, events: seq<Event>, k: nat): Tally
    requires k <= |events|
    decreases k
  {
    if k == 0 then tally
    else TallyStep(BookAt(book, policy, events, k - 1), TallyAt(book, tally, policy, events, k - 1), events[k - 1], AnswerAt(book, policy, events, k - 1))
  }

  /** Ingestion has errors of its own, never a widened envelope. */
  ghost predicate Ingests(events: seq<Event>) {
    forall k :: 0 <= k < |events| && events[k].AdmitGoal? ==> events[k].ingested != Err(EnvelopeWidened)
  }

  lemma FreshLedger(policy: SchedulePolicy)
    ensures BookInv(Book([], 1), map[], policy)
  {
  }

  /** Budget conservation over every run: for every goal, what remains, what is
      reserved and what settled runs used add up to its envelope; runs left and
      started add up to the runs granted; no envelope check ever fails. */
  lemma {:induction false} RunConserves(book: Book, tally: Tally, policy: SchedulePolicy, events: seq<Event>, k: nat)
    requires BookInv(book, tally, policy) && policy.Validate().Ok? && Ingests(events) && k <= |events|
    ensures BookInv(BookAt(book, policy, events, k), TallyAt(book, tally, policy, events, k), policy)
    ensures forall j :: 0 <= j < k ==> !Widened(AnswerAt(book, policy, events, j))
    decreases k
  {
    hide Step, TallyStep, BookInv;
    if k > 0 {
      RunConserves(book, tally, policy, events, k - 1);
      LedgerBudget.StepKeeps(BookAt(book, policy, events, k - 1), TallyAt(book, tally, policy, events, k - 1), policy, events[k - 1]);
    }
  }

  // Spawns are bounded by the runs granted.

  function RunsLeft(goals: seq<Goal>): nat {
    if goals == [] then 0 else goals[|goals| - 1].remaining.runs + RunsLeft(goals[..|goals| - 1])
  }

  predicate Spawned(e: Event, answer: Answer) {
    e.SpawnEvent? && answer == Done(Ok(()))
  }

  function Spawns(book: Book, policy: SchedulePolicy, events: seq<Event>, k: nat): nat
    requires k <= |events|
    decreases k
  {
    if k == 0 then 0
    else Spawns(book, policy, events, k - 1) + if Spawned(events[k - 1], AnswerAt(book, policy, events, k - 1)) then 1 else 0
  }

  lemma {:induction false} RunsLeftUpdate(goals: seq<Goal>, k: nat, g: Goal)
    requires k < |goals|
    ensures RunsLeft(goals[k := g]) == RunsLeft(goals) - goals[k].remaining.runs + g.remaining.runs
  {
    var n := |goals| - 1;
    if k == n {
      assert goals[k := g][..n] == goals[..n];
    } else {
      RunsLeftUpdate(goals[..n], k, g);
      assert goals[k := g][..n] == goals[..n][k := g];
    }
  }

  lemma {:induction false} RunsLeftLive(goals: seq<Goal>)
    ensures RunsLeft(LiveGoals(goals)) <= RunsLeft(goals)
  {
    if goals != [] {
      var rest, last := goals[..|goals| - 1], goals[|goals| - 1];
      RunsLeftLive(rest);
      if !last.status.Terminal() {
        assert LiveGoals(goals)[..|LiveGoals(rest)|] == LiveGoals(rest);
      } else {
        assert LiveGoals(goals) == LiveGoals(rest);
      }
    }
  }

  /** No operation but a spawn changes how many runs a goal has left. */
  lemma OneKeepsRuns(g: Goal, beat: u64, status: TerminalStatus, refund: Grant, policy: SchedulePolicy, event: GoalEvent)
    ensures ParkOne(g, beat).1.remaining.runs == g.remaining.runs
    ensures ResumeOne(g).1.remaining.runs == g.remaining.runs
    ensures ControlOne(g, event, beat).1.remaining.runs == g.remaining.runs
    ensures SettleOne(g, status, refund, beat, policy).1.remaining.runs == g.remaining.runs
  {
    hide Settlement, Goal.CheckEnvelope;
  }

  lemma SpawnUsesRun(book: Book, tally: Tally, policy: SchedulePolicy, id: goalId, run: u64, grant: Grant)
    requires BookInv(book, tally, policy)
    ensures var (r, after) := SpawnRun(book, id, run, grant);
            RunsLeft(after.goals) + (if r.Ok? then 1 else 0) == RunsLeft(book.goals)
  {
    hide SpawnOne;
    var at := IndexOf(book.goals, id);
    if Reservation(book, id) == Ok(grant) {
      var g := book.goals[at.value];
      SpawnKeeps(g, tally[id], policy, run, grant);
      RunsLeftUpdate(book.goals, at.value, SpawnOne(g, run, grant).1);
    }
  }

  lemma StepUsesRuns(book: Book, tally: Tally, policy: SchedulePolicy, e: Event)
    requires BookInv(book, tally, policy) && !e.AdmitGoal?
    ensures var (answer, after) := Step(book, policy, e);
            RunsLeft(after.goals) + (if Spawned(e, answer) then 1 else 0) <= RunsLeft(book.goals)
  {
    hide SpawnRun, SettleOne, ParkOne, ResumeOne, ControlOne, BookInv, RunsLeft, LiveGoals;
    match e
    case SpawnEvent(id, run, grant) => SpawnUsesRun(book, tally, policy, id, run, grant);
    case ReapEvent => RunsLeftLive(book.goals);
    case ParkEvent(id, beat) =>
      if IndexOf(book.goals, id).Some? {
        var k := IndexOf(book.goals, id).value;
        OneKeepsRuns(book.goals[k], beat, Completed, ZERO_GRANT, policy, Pause);
        RunsLeftUpdate(book.goals, k, ParkOne(book.goals[k], beat).1);
      }
    case ResumeEvent(id) =>
      if IndexOf(book.goals, id).Some? {
        var k := IndexOf(book.goals, id).value;
        OneKeepsRuns(book.goals[k], 0, Completed, ZERO_GRANT, policy, Pause);
        RunsLeftUpdate(book.goals, k, ResumeOne(book.goals[k]).1);
      }
    case SettleEvent(id, status, refund, beat) =>
      if IndexOf(book.goals, id).Some? {
        var k := IndexOf(book.goals, id).value;
        OneKeepsRuns(book.goals[k], beat, status, refund, policy, Pause);
        RunsLeftUpdate(book.goals, k, SettleOne(book.goals[k], status, refund, beat, policy).1);
      }
    case ControlEvent(id, event, now) =>
      if IndexOf(book.goals, id).Some? {
        var k := IndexOf(book.goals, id).value;
        OneKeepsRuns(book.goals[k], now, Completed, ZERO_GRANT, policy, event);
        RunsLeftUpdate(book.goals, k, ControlOne(book.goals[k], event, now).1);
      }
  }

  /** Without new admissions a run spawns at most as often as its goals had
      runs left, so at most the runs their envelopes granted. */
  lemma {:induction false} SpawnsBounded(book: Book, tally: Tally, policy: SchedulePolicy, events: seq<Event>, k: nat)
    requires BookInv(book, tally, policy) && policy.Validate().Ok? && k <= |events|
    requires forall j :: 0 <= j < |events| ==> !events[j].AdmitGoal?
    ensures Spawns(book, policy, events, k) + RunsLeft(BookAt(book, policy, events, k).goals) <= RunsLeft(book.goals)
    decreases k
  {
    hide Step, TallyStep, BookInv, RunsLeft;
    if k > 0 {
      SpawnsBounded(book, tally, policy, events, k - 1);
      RunConserves(book, tally, policy, events, k - 1);
      StepUsesRuns(BookAt(book, policy, events, k - 1), TallyAt(book, tally, policy, events, k - 1), policy, events[k - 1]);
    }
  }

  // The scheduler's choice.

  /** `best` is eligible and served before every other eligible goal. */
  ghost predicate Chosen(goals: seq<Goal>, eligible: Goal -> bool, byDue: bool, best: Option<Goal>) {
    match best
    case None => forall i :: 0 <= i < |goals| ==> !eligible(goals[i])
    case Some(goal) =>
      exists k :: 0 <= k < |goals| && goals[k] == goal && eligible(goal)
                  && forall i :: 0 <= i < |goals| && i != k && eligible(goals[i]) ==> Before(goal, goals[i], byDue)
  }

  lemma {:induction false} BestIsLeast(goals: seq<Goal>, eligible: Goal -> bool, byDue: bool)
    requires forall i, j :: 0 <= i < j < |goals| ==> goals[i].id < goals[j].id
    ensures Chosen(goals, eligible, byDue, Best(goals, eligible, byDue))
  {
    if goals != [] {
      var rest, last := goals[..|goals| - 1], goals[|goals| - 1];
      BestIsLeast(rest, eligible, byDue);
      var best := Best(rest, eligible, byDue);
      if best.Some? {
        var k :| 0 <= k < |rest| && rest[k] == best.value && eligible(best.value)
                 && forall i :: 0 <= i < |rest| && i != k && eligible(rest[i]) ==> Before(best.value, rest[i], byDue);
        assert goals[k] == best.value;
        if eligible(last) && Before(last, best.value, byDue) {
          forall i | 0 <= i < |goals| && i != |rest| && eligible(goals[i]) ensures Before(last, goals[i], byDue) {
            assert goals[i] == rest[i];
          }
          assert goals[|rest|] == last;
        } else {
          forall i | 0 <= i < |goals| && i != k && eligible(goals[i]) ensures Before(best.value, goals[i], byDue) {
            if i < |rest| {
              assert goals[i] == rest[i];
            } else {
              BeforeTotal(best.value, last, byDue);
            }
          }
        }
      } else {
        assert forall i :: 0 <= i < |rest| ==> goals[i] == rest[i];
      }
    }
  }

  lemma BeforeTotal(a: Goal, b: Goal, byDue: bool)
    requires a.id != b.id && !Before(b, a, byDue)
    ensures Before(a, b, byDue)
  {
  }

  /** The scheduler's pick is the unique least goal: a waiting one whose input
      is ready by (priority, id), else a due active one by (priority, due, id);
      idle only when there is neither. */
  lemma PickIsLeast(book: Book, beat: u64, inputReady: goalId -> bool)
    requires Ordered(book)
    ensures var waiting := (g: Goal) => g.status.Waiting? && inputReady(g.id);
            var due := (g: Goal) => g.status.Active? && g.nextDue <= beat;
            match PickOf(book, beat, inputReady) {
              case ResumeGoal(id) => exists g :: Chosen(book.goals, waiting, false, Some(g)) && g.id == id
              case SpawnGoal(id) => Chosen(book.goals, waiting, false, None) && exists g :: Chosen(book.goals, due, true, Some(g)) && g.id == id
              case Idle => Chosen(book.goals, waiting, false, None) && Chosen(book.goals, due, true, None)
            }
  {
    hide Chosen, Best;
    var waiting := (g: Goal) => g.status.Waiting? && inputReady(g.id);
    var due := (g: Goal) => g.status.Active? && g.nextDue <= beat;
    BestIsLeast(book.goals, waiting, false);
    BestIsLeast(book.goals, due, true);
  }

  lemma IndexOfUnique(goals: seq<Goal>, k: nat)
    requires k < |goals| && forall i, j :: 0 <= i < j < |goals| ==> goals[i].id < goals[j].id
    ensures IndexOf(goals, goals[k].id) == Some(k)
  {
  }

  lemma WaitingResumes(book: Book, tally: Tally, policy: SchedulePolicy, k: nat)
    requires BookInv(book, tally, policy) && k < |book.goals| && book.goals[k].status.Waiting?
    ensures ResumeRun(book, book.goals[k].id).0 == Ok(())
  {
    hide GoalInv, ResumeOne;
    IndexOfUnique(book.goals, k);
    ResumeKeeps(book.goals[k], tally[book.goals[k].id], policy);
  }

  lemma ActiveSpawns(book: Book, tally: Tally, policy: SchedulePolicy, k: nat, run: u64)
    requires BookInv(book, tally, policy) && k < |book.goals| && book.goals[k].status.Active?
    ensures var id := book.goals[k].id;
            && Reservation(book, id).Ok?
            && Reservation(book, id).value.turns >= 1 && Reservation(book, id).value.mutations >= 1
            && SpawnRun(book, id, run, Reservation(book, id).value).0 == Ok(())
  {
    hide SpawnRun;
    IndexOfUnique(book.goals, k);
    SpawnBookKeeps(book, tally, policy, book.goals[k].id, run, Reservation(book, book.goals[k].id).value);
  }

  /** Whatever the scheduler picks can be carried out: a spawn has its
      reservation, of at least one turn and one mutation, and succeeds with it;
      a resume succeeds. */
  lemma PickIsExecutable(book: Book, tally: Tally, policy: SchedulePolicy, beat: u64, inputReady: goalId -> bool, run: u64)
    requires BookInv(book, tally, policy)
    ensures match PickOf(book, beat, inputReady) {
              case Idle => true
              case SpawnGoal(id) =>
                && Reservation(book, id).Ok?
                && Reservation(book, id).value.turns >= 1 && Reservation(book, id).value.mutations >= 1
                && SpawnRun(book, id, run, Reservation(book, id).value).0 == Ok(())
              case ResumeGoal(id) => ResumeRun(book, id).0 == Ok(())
            }
  {
    hide Best, SpawnRun, ResumeRun, Reservation, GoalInv;
    var waiting := (g: Goal) => g.status.Waiting? && inputReady(g.id);
    var due := (g: Goal) => g.status.Active? && g.nextDue <= beat;
    BestIsLeast(book.goals, waiting, false);
    BestIsLeast(book.goals, due, true);
    var first, second := Best(book.goals, waiting, false), Best(book.goals, due, true);
    if first.Some? {
      var k :| 0 <= k < |book.goals| && book.goals[k] == first.value && waiting(first.value);
      WaitingResumes(book, tally, policy, k);
    } else if second.Some? {
      var k :| 0 <= k < |book.goals| && book.goals[k] == second.value && due(second.value);
      ActiveSpawns(book, tally, policy, k, run);
    }
  }

  // Reaping is invisible to live goals.

  /** The same live goals and allocator: all that later work depends on. */
  ghost predicate SameLive(a: Book, b: Book) {
    a.nextId == b.nextId && LiveGoals(a.goals) == LiveGoals(b.goals)
  }

  /** The operation names a goal still live, or none; an admission finds room. */
  ghost predicate OnLive(book: Book, e: Event) {
    match e
    case AdmitGoal(_, _, _, _) => |book.goals| < MAX_GOALS
    case ReapEvent => true
    case SpawnEvent(id, _, _) => IsLive(book, id)
    case ParkEvent(id, _) => IsLive(book, id)
    case ResumeEvent(id) => IsLive(book, id)
    case SettleEvent(id, _, _, _) => IsLive(book, id)
    case ControlEvent(id, _, _) => IsLive(book, id)
  }

  ghost predicate IsLive(book: Book, id: u16) {
    IndexOf(book.goals, id).Some? && !book.goals[IndexOf(book.goals, id).value].status.Terminal()
  }

  lemma {:induction false} LiveTwice(goals: seq<Goal>)
    ensures LiveGoals(LiveGoals(goals)) == LiveGoals(goals)
  {
    if goals != [] {
      var rest, last := goals[..|goals| - 1], goals[|goals| - 1];
      LiveTwice(rest);
      if !last.status.Terminal() {
        assert LiveGoals(goals)[..|LiveGoals(rest)|] == LiveGoals(rest);
      } else {
        assert LiveGoals(goals) == LiveGoals(rest);
      }
    }
  }

  lemma ReapIsSameLive(book: Book)
    ensures SameLive(book, Reap(book).1)
  {
    LiveTwice(book.goals);
  }

  lemma {:induction false} LiveConcat(a: seq<Goal>, b: seq<Goal>)
    ensures LiveGoals(a + b) == LiveGoals(a) + LiveGoals(b)
  {
    if b == [] {
      assert a + b == a;
      assert LiveGoals(a) + [] == LiveGoals(a);
    } else {
      var rest, last := b[..|b| - 1], b[|b| - 1];
      LiveConcat(a, rest);
      assert (a + b)[..|a + b| - 1] == a + rest;
      var tail := if last.status.Terminal() then [] else [last];
      assert LiveGoals(a) + (LiveGoals(rest) + tail) == LiveGoals(a) + LiveGoals(rest) + tail;
    }
  }

  /** The live goals around the one at `k`. */
  lemma LiveAround(goals: seq<Goal>, k: nat, g: Goal)
    requires k < |goals|
    ensures LiveGoals(goals[k := g]) == LiveGoals(goals[..k]) + (if g.status.Terminal() then [] else [g]) + LiveGoals(goals[k + 1..])
  {
    assert goals[k := g] == goals[..k] + [g] + goals[k + 1..];
    LiveConcat(goals[..k] + [g], goals[k + 1..]);
    LiveConcat(goals[..k], [g]);
    assert [g][..0] == [] && LiveGoals([]) == [];
    assert LiveGoals([g]) == if g.status.Terminal() then [] else [g];
  }

  /** Two ledgers with the same live goals find the same goal under a live id,
      and changing it keeps the live goals the same. */
  lemma SameTarget(a: Book, b: Book, id: goalId)
    requires SameLive(a, b) && Ordered(a) && Ordered(b) && IsLive(a, id)
    ensures IsLive(b, id)
    ensures a.goals[IndexOf(a.goals, id).value] == b.goals[IndexOf(b.goals, id).value]
    ensures forall g: Goal :: g.id == id ==>
              LiveGoals(a.goals[IndexOf(a.goals, id).value := g]) == LiveGoals(b.goals[IndexOf(b.goals, id).value := g])
  {
    hide LiveGoals;
    var k := IndexOf(a.goals, id).value;
    LiveIsSub(a.goals);
    LiveIsSub(b.goals);
    assert a.goals[k] in LiveGoals(b.goals);
    var m :| 0 <= m < |b.goals| && b.goals[m] == a.goals[k];
    IndexOfUnique(b.goals, m);
    assert a.goals[k := a.goals[k]] == a.goals && b.goals[m := b.goals[m]] == b.goals;
    LiveAround(a.goals, k, a.goals[k]);
    LiveAround(b.goals, m, b.goals[m]);
    SamePosition(LiveGoals(a.goals[..k]), LiveGoals(a.goals[k + 1..]), LiveGoals(b.goals[..m]), LiveGoals(b.goals[m + 1..]), a.goals[k]);
    forall g: Goal | g.id == id
      ensures LiveGoals(a.goals[k := g]) == LiveGoals(b.goals[m := g])
    {
      LiveAround(a.goals, k, g);
      LiveAround(b.goals, m, g);
    }
  }

  /** A goal splits a list of distinct ids in one place only. */
  lemma SamePosition(a1: seq<Goal>, a2: seq<Goal>, b1: seq<Goal>, b2: seq<Goal>, g: Goal)
    requires a1 + [g] + a2 == b1 + [g] + b2
    requires forall i, j :: 0 <= i < j < |a1 + [g] + a2| ==> (a1 + [g] + a2)[i].id < (a1 + [g] + a2)[j].id
    ensures a1 == b1 && a2 == b2
  {
    var all := a1 + [g] + a2;
    assert all[|a1|] == g && all[|b1|] == g;
    assert |a1| == |b1|;
    assert a1 == all[..|a1|] == b1;
    assert a2 == all[|a1| + 1..] == b2;
  }

  /** Changing one live goal alike in both ledgers. */
  lemma SameApply<T>(a: Book, b: Book, id: goalId, f: Goal -> (Result<T, Error>, Goal))
    requires SameLive(a, b) && Ordered(a) && Ordered(b) && IsLive(a, id)
    requires forall g: Goal :: f(g).1.id == g.id
    ensures Apply(a, id, f).0 == Apply(b, id, f).0 && SameLive(Apply(a, id, f).1, Apply(b, id, f).1)
  {
    hide LiveGoals;
    SameTarget(a, b, id);
  }

  lemma {:induction false} BestAmongLive(goals: seq<Goal>, eligible: Goal -> bool, byDue: bool)
    requires forall g :: eligible(g) ==> !g.status.Terminal()
    ensures Best(goals, eligible, byDue) == Best(LiveGoals(goals), eligible, byDue)
  {
    if goals != [] {
      var rest, last := goals[..|goals| - 1], goals[|goals| - 1];
      BestAmongLive(rest, eligible, byDue);
      if last.status.Terminal() {
        assert LiveGoals(goals) == LiveGoals(rest);
      } else {
        assert LiveGoals(goals)[..|LiveGoals(rest)|] == LiveGoals(rest);
      }
    }
  }

  lemma SamePick(a: Book, b: Book, beat: u64, inputReady: goalId -> bool)
    requires SameLive(a, b)
    ensures PickOf(a, beat, inputReady) == PickOf(b, beat, inputReady)
  {
    hide LiveGoals, Best;
    var waiting := (g: Goal) => g.status.Waiting? && inputReady(g.id);
    var due := (g: Goal) => g.status.Active? && g.nextDue <= beat;
    BestAmongLive(a.goals, waiting, false);
    BestAmongLive(b.goals, waiting, false);
    BestAmongLive(a.goals, due, true);
    BestAmongLive(b.goals, due, true);
  }

  /** No change of one goal changes its id. */
  lemma OneKeepsId(g: Goal, run: u64, grant: Grant, beat: u64, status: TerminalStatus, policy: SchedulePolicy, event: GoalEvent)
    ensures SpawnOne(g, run, grant).1.id == ParkOne(g, beat).1.id == ResumeOne(g).1.id == g.id
    ensures SettleOne(g, status, grant, beat, policy).1.id == ControlOne(g, event, beat).1.id == g.id
  {
    hide Settlement, Goal.CheckEnvelope;
  }

  lemma SameSpawn(a: Book, b: Book, id: goalId, run: u64, grant: Grant)
    requires SameLive(a, b) && Ordered(a) && Ordered(b) && IsLive(a, id)
    ensures SpawnRun(a, id, run, grant).0 == SpawnRun(b, id, run, grant).0
    ensures SameLive(SpawnRun(a, id, run, grant).1, SpawnRun(b, id, run, grant).1)
  {
    hide LiveGoals, SpawnOne, Ordered;
    SameTarget(a, b, id);
    forall g: Goal ensures SpawnOne(g, run, grant).1.id == g.id {
      OneKeepsId(g, run, grant, 0, Completed, SchedulePolicy(0, 1, 1, 1), Pause);
    }
    SameApply(a, b, id, (g: Goal) => SpawnOne(g, run, grant));
  }

  lemma SameAdmit(a: Book, b: Book, policy: SchedulePolicy, e: Event)
    requires SameLive(a, b) && e.AdmitGoal? && |a.goals| < MAX_GOALS && |b.goals| < MAX_GOALS
    ensures Step(a, policy, e).0 == Step(b, policy, e).0 && SameLive(Step(a, policy, e).1, Step(b, policy, e).1)
  {
    hide LiveGoals, Capabilities.Widens, Goal.CheckEnvelope;
    var admitted := Admit(a, e.spec, e.ingested, e.ceiling, e.now);
    assert admitted == Admit(b, e.spec, e.ingested, e.ceiling, e.now);
    if admitted.Ok? {
      LiveConcat(a.goals, [admitted.value]);
      LiveConcat(b.goals, [admitted.value]);
    }
  }

  /** One operation on a live goal answers the same in both ledgers. */
  lemma SameStep(a: Book, b: Book, policy: SchedulePolicy, e: Event)
    requires SameLive(a, b) && Ordered(a) && Ordered(b) && OnLive(a, e) && |b.goals| <= |a.goals|
    ensures !e.ReapEvent? ==> Step(a, policy, e).0 == Step(b, policy, e).0
    ensures SameLive(Step(a, policy, e).1, Step(b, policy, e).1)
    ensures |Step(b, policy, e).1.goals| <= |Step(a, policy, e).1.goals|
  {
    hide LiveGoals, SpawnOne, ParkOne, ResumeOne, SettleOne, ControlOne, Ordered, Admit, Reservation;
    forall g: Goal ensures e.ParkEvent? ==> ParkOne(g, e.beat).1.id == g.id ensures ResumeOne(g).1.id == g.id
      ensures e.SettleEvent? ==> SettleOne(g, e.status, e.refund, e.beat, policy).1.id == g.id
      ensures e.ControlEvent? ==> ControlOne(g, e.event, e.now).1.id == g.id
    {
      OneKeepsId(g, 0, if e.SettleEvent? then e.refund else ZERO_GRANT,
                 if e.ParkEvent? || e.SettleEvent? then e.beat else if e.ControlEvent? then e.now else 0,
                 if e.SettleEvent? then e.status else Completed, policy, if e.ControlEvent? then e.event else Pause);
    }
    match e
    case AdmitGoal(_, _, _, _) => SameAdmit(a, b, policy, e);
    case SpawnEvent(id, run, grant) => SameSpawn(a, b, id, run, grant);
    case ParkEvent(id, beat) => SameApply(a, b, id, (g: Goal) => ParkOne(g, beat));
    case ResumeEvent(id) => SameApply(a, b, id, ResumeOne);
    case SettleEvent(id, status, refund, beat) => SameApply(a, b, id, (g: Goal) => SettleOne(g, status, refund, beat, policy));
    case ControlEvent(id, event, now) => SameApply(a, b, id, (g: Goal) => ControlOne(g, event, now));
    case ReapEvent =>
      LiveTwice(a.goals);
      LiveTwice(b.goals);
  }

  /** Reaping is invisible to live goals: whatever follows on them answers, and
      the scheduler picks, as it would have without the reap. */
  lemma {:induction false} ReapInvisible(book: Book, tally: Tally, policy: SchedulePolicy, events: seq<Event>, k: nat)
    requires BookInv(book, tally, policy) && policy.Validate().Ok? && Ingests(events) && k <= |events|
    requires forall j :: 0 <= j < |events| ==> OnLive(BookAt(book, policy, events, j), events[j])
    ensures var reaped := Reap(book).1;
            && SameLive(BookAt(book, policy, events, k), BookAt(reaped, policy, events, k))
            && |BookAt(reaped, policy, events, k).goals| <= |BookAt(book, policy, events, k).goals|
            && (forall j :: 0 <= j < k && !events[j].ReapEvent? ==> AnswerAt(book, policy, events, j) == AnswerAt(reaped, policy, events, j))
            && forall beat: u64, inputReady: goalId -> bool ::
                 PickOf(BookAt(book, policy, events, k), beat, inputReady) == PickOf(BookAt(reaped, policy, events, k), beat, inputReady)
    decreases k
  {
    hide Step, TallyStep, LiveGoals, OnLive, Best, GoalInv, PickOf, SameLive;
    var reaped := Reap(book).1;
    if k == 0 {
      ReapIsSameLive(book);
    } else {
      ReapInvisible(book, tally, policy, events, k - 1);
      ReapKeeps(book, tally, policy);
      RunConserves(book, tally, policy, events, k - 1);
      RunConserves(reaped, tally, policy, events, k - 1);
      SameStep(BookAt(book, policy, events, k - 1), BookAt(reaped, policy, events, k - 1), policy, events[k - 1]);
    }
    var a, b := BookAt(book, policy, events, k), BookAt(reaped, policy, events, k);
    forall beat: u64, inputReady: goalId -> bool ensures PickOf(a, beat, inputReady) == PickOf(b, beat, inputReady) {
      SamePick(a, b, beat, inputReady);
    }
  }
}
