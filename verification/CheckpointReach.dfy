/** Which states come back from a checkpoint: every one the supervisor can reach
    with no goal mid-run. */
module CheckpointReach {
  import opened Words
  import opened Core
  import opened CheckpointCodec
  import opened Checkpoint
  import opened CheckpointRestore
  import opened Ledger
  import opened LedgerBudget
  import opened LedgerRuns
  import opened Memory

  ghost predicate AllOk(book: Book) {
    forall i :: 0 <= i < |book.goals| ==> GoalOk(book.goals[i])
  }

  /** Admission under a real ceiling, of specs in the fixed-size form. */
  ghost predicate Admissible(e: LedgerBudget.Event) {
    e.AdmitGoal? ==> FixedSize(e.spec.capabilities) && Shaped(e.ceiling)
  }

  lemma NotWidened(s: bytes, count: u8, ceiling: bytes, ceilingCount: u8, size: nat)
    requires |s| == size && Granted(ceiling, ceilingCount, size) && !SetWidens(s, count, ceiling, ceilingCount)
    ensures Granted(s, count, size)
  {
    forall k | 0 <= k < count ensures s[k] < size {
      assert s[k] in ceiling[..ceilingCount];
    }
  }

  lemma AdmittedShaped(spec: Capabilities, ceiling: Capabilities)
    requires FixedSize(spec) && Shaped(ceiling) && !spec.Widens(ceiling)
    ensures Shaped(spec)
  {
    hide SetWidens, Granted;
    NotWidened(spec.readPins, spec.readCount, ceiling.readPins, ceiling.readCount, PINS);
    NotWidened(spec.writePins, spec.writeCount, ceiling.writePins, ceiling.writeCount, PINS);
    NotWidened(spec.sensors, spec.sensorCount, ceiling.sensors, ceiling.sensorCount, SENSORS);
  }

  lemma AdmitOk(book: Book, policy: SchedulePolicy, e: LedgerBudget.Event)
    requires AllOk(book) && e.AdmitGoal? && Admissible(e)
    ensures AllOk(LedgerBudget.Step(book, policy, e).1)
  {
    hide Shaped, Capabilities.Widens;
    if !e.spec.capabilities.Widens(e.ceiling) {
      AdmittedShaped(e.spec.capabilities, e.ceiling);
    }
  }

  lemma OneOk(g: Goal, run: u64, grant: Grant, beat: u64, event: GoalEvent)
    requires GoalOk(g)
    ensures GoalOk(SpawnOne(g, run, grant).1) && GoalOk(ParkOne(g, beat).1) && GoalOk(ResumeOne(g).1) && GoalOk(ControlOne(g, event, beat).1)
  {
    hide Shaped, Goal.CheckEnvelope;
  }

  lemma SettleOk(g: Goal, status: TerminalStatus, refund: Grant, beat: u64, policy: SchedulePolicy)
    requires GoalOk(g)
    ensures GoalOk(SettleOne(g, status, refund, beat, policy).1)
  {
    hide Shaped, Goal.CheckEnvelope, SchedulePolicy.Backoff;
  }

  lemma {:induction false} LiveOk(goals: seq<Goal>)
    requires forall i :: 0 <= i < |goals| ==> GoalOk(goals[i])
    ensures forall i :: 0 <= i < |LiveGoals(goals)| ==> GoalOk(LiveGoals(goals)[i])
  {
    hide GoalOk;
    if goals != [] {
      LiveOk(goals[..|goals| - 1]);
    }
  }

  /** No operation of the ledger makes a goal a restore would refuse. */
  lemma StepOk(book: Book, policy: SchedulePolicy, e: LedgerBudget.Event)
    requires AllOk(book) && Admissible(e)
    ensures AllOk(LedgerBudget.Step(book, policy, e).1)
  {
    hide GoalOk, SpawnOne, ParkOne, ResumeOne, ControlOne, SettleOne, Reservation, Insert, Admit, Admissible;
    match e {
      case AdmitGoal(_, _, _, _) => AdmitOk(book, policy, e);
      case ReapEvent => LiveOk(book.goals);
      case SpawnEvent(id, run, grant) =>
        if IndexOf(book.goals, id).Some? {
          OneOk(book.goals[IndexOf(book.goals, id).value], run, grant, 0, Pause);
        }
      case ParkEvent(id, beat) =>
        if IndexOf(book.goals, id).Some? {
          OneOk(book.goals[IndexOf(book.goals, id).value], 0, ZERO_GRANT, beat, Pause);
        }
      case ResumeEvent(id) =>
        if IndexOf(book.goals, id).Some? {
          OneOk(book.goals[IndexOf(book.goals, id).value], 0, ZERO_GRANT, 0, Pause);
        }
      case ControlEvent(id, event, now) =>
        if IndexOf(book.goals, id).Some? {
          OneOk(book.goals[IndexOf(book.goals, id).value], 0, ZERO_GRANT, now, event);
        }
      case SettleEvent(id, status, refund, beat) =>
        if IndexOf(book.goals, id).Some? {
          SettleOk(book.goals[IndexOf(book.goals, id).value], status, refund, beat, policy);
        }
    }
  }

  lemma {:induction false} RunOk(book: Book, policy: SchedulePolicy, events: seq<LedgerBudget.Event>, k: nat)
    requires AllOk(book) && k <= |events| && forall j :: 0 <= j < |events| ==> Admissible(events[j])
    ensures AllOk(BookAt(book, policy, events, k))
    decreases k
  {
    hide AllOk, LedgerBudget.Step, Admissible;
    if k > 0 {
      RunOk(book, policy, events, k - 1);
      StepOk(BookAt(book, policy, events, k - 1), policy, events[k - 1]);
    }
  }

  lemma InvBookOk(book: Book, tally: Tally, policy: SchedulePolicy)
    requires BookInv(book, tally, policy) && AllOk(book) && forall i :: 0 <= i < |book.goals| ==> !book.goals[i].status.Running?
    ensures BookOk(book)
  {
    hide GoalOk, GoalInv, Goal.CheckEnvelope;
    forall i | 0 <= i < |book.goals| ensures book.goals[i].CheckEnvelope().Ok? {
      InvChecks(book.goals[i], tally[book.goals[i].id], policy);
    }
  }

  /** The supervisor's state after runs of its ledger and its memory from empty
      stores. */
  function Reached(counters: State, policy: SchedulePolicy, ledger: seq<LedgerBudget.Event>, memory: seq<Memory.Event>): State {
    counters.(book := BookAt(Book([], 1), policy, ledger, |ledger|), store := StoreAt(Store([], 1), memory, |memory|))
  }

  /** However the supervisor got there, a state with no goal mid-run comes back
      from its checkpoint, as a blob and item by item, exactly as it was. */
  lemma ReachedRestores(step: step64, counters: State, policy: SchedulePolicy, ledger: seq<LedgerBudget.Event>, memory: seq<Memory.Event>)
    requires policy.Validate().Ok? && Ingests(ledger) && forall j :: 0 <= j < |ledger| ==> Admissible(ledger[j])
    requires forall g :: g in Reached(counters, policy, ledger, memory).book.goals ==> !g.status.Running?
    ensures var s := Reached(counters, policy, ledger, memory);
            && Restorable(s)
            && Decode(step, Encode(step, s)) == Ok(s)
            && var (r, done) := PushAll(step, Begin(HeaderOf(step, s)), Items(s));
               r == Ok(()) && Finish(done) == Ok(()) && done.target == s
  {
    hide Decode, Encode, PushAll, Begin, HeaderOf, Items, BookInv, AllOk, BookAt, StoreAt, Finish, BookOk;
    var s := Reached(counters, policy, ledger, memory);
    FreshLedger(policy);
    RunConserves(Book([], 1), map[], policy, ledger, |ledger|);
    assert AllOk(Book([], 1)) by { NoGoalsOk(); }
    RunOk(Book([], 1), policy, ledger, |ledger|);
    InvBookOk(s.book, TallyAt(Book([], 1), map[], policy, ledger, |ledger|), policy);
    FreshStore();
    RunKeeps(Store([], 1), memory, |memory|);
    DecodesEncoded(step, s);
    RestoreExact(step, s);
  }

  lemma NoGoalsOk()
    ensures AllOk(Book([], 1))
  {
  }
}
