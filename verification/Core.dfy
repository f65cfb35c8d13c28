/** The vocabulary the supervisor's stores share: errors, statuses, beats. */
module Core {
  import opened Words

  const NOTE_MAX := 64

  /** Bounded text, as its bytes. */
  type note = b: bytes | |b| <= NOTE_MAX

  type goalId = x: u16 | x != 0 witness 1

  datatype TerminalStatus =
    Completed | NeedsInput | Denied | BudgetExhausted | Stuck | ToolUnavailable | ModelInvalid | StorageFault | Incompatible

  datatype GoalStatus = Active | Running | Waiting | Paused | Satisfied | Failed | Exhausted | Retired {
    predicate Terminal() {
      Satisfied? || Failed? || Exhausted? || Retired?
    }

    predicate Busy() {
      Running? || Waiting?
    }
  }

  datatype GoalEvent = Spawn | Park | Resume | Recur | Satisfy | Fail | Exhaust | Pause | Unpause | Retire {
    predicate Operator() {
      Pause? || Unpause? || Retire?
    }
  }

  datatype Error =
    | BeatOverflow
    | GoalSpecInvalid(reason: string)
    | GoalIllegalTransition(from: GoalStatus, event: GoalEvent)
    | GoalUnknown(goal: u16)
    | GoalOutOfOrder
    | GoalLedgerFull
    | GoalIdsExhausted
    | GoalBusy
    | EnvelopeWidened
    | RefundExceedsReservation
    | MemoryInputTooLong
    | MemoryFull
    | MemoryStampsExhausted
    | MaskOutputTooSmall
    | CompactStateFull
    | CompactFieldTooLong
    | SnapshotTruncated
    | SnapshotVersionMismatch(found: u8)
    | SnapshotChecksumMismatch
    | SnapshotCorrupt
    | SnapshotBufferTooSmall

  function Pow2(n: nat): (r: nat)
    ensures r >= 1
  {
    if n == 0 then 1 else 2 * Pow2(n - 1)
  }

  lemma {:induction false} Pow2Grows(a: nat, b: nat)
    requires a <= b
    ensures Pow2(a) <= Pow2(b)
    decreases b
  {
    if a < b {
      Pow2Grows(a, b - 1);
    }
  }

  /** A nonzero distance in beats. */
  type span = x: int | 1 <= x < U32_SPAN witness 1

  /** The beat `distance` after `beat`, or an error instead of a wrap. */
  function After(beat: u64, distance: span): Result<u64, Error> {
    if beat + distance < U64_SPAN then Ok(beat + distance) else Err(BeatOverflow)
  }

  datatype SchedulePolicy = SchedulePolicy(maxFailures: u8, base: span, cap: span, overdueAfter: span) {
    function Validate(): Result<(), Error> {
      if maxFailures == 0 then Err(GoalSpecInvalid("max_consecutive_failures must be at least 1"))
      else if base > cap then Err(GoalSpecInvalid("backoff_base must not exceed backoff_cap"))
      else Ok(())
    }

    /** The backoff after the `streak`-th consecutive failure. */
    function Backoff(streak: u8): (r: span) {
      var shift := if streak == 0 then 0 else streak - 1;
      ShiftFits(base, shift);
      if shift >= 32 then cap else Min(base * Pow2(shift), cap)
    }
  }

  lemma ShiftFits(base: span, shift: nat)
    ensures base * Pow2(shift) >= Pow2(shift) >= 1
  {
  }

  lemma Pow2Of32()
    ensures Pow2(32) == U32_SPAN
  {
    assert Pow2(8) == 0x100;
    assert Pow2(16) == 0x100 * Pow2(8);
    assert Pow2(24) == 0x100 * Pow2(16);
    assert Pow2(32) == 0x100 * Pow2(24);
  }

  /** The backoff is exactly base doubled per failure and capped, however long
      the streak; no shift is lost and nothing wraps. */
  lemma BackoffExact(policy: SchedulePolicy, streak: u8)
    requires streak >= 1
    ensures policy.Backoff(streak) == Min(policy.base * Pow2(streak - 1), policy.cap)
  {
    if streak - 1 >= 32 {
      Pow2Of32();
      Pow2Grows(32, streak - 1);
      ShiftFits(policy.base, streak - 1);
    }
  }

  /** It never shrinks as the streak grows. */
  lemma BackoffGrows(policy: SchedulePolicy, a: u8, b: u8)
    requires a <= b
    ensures policy.Backoff(a) <= policy.Backoff(b)
    ensures policy.Validate().Ok? ==> policy.base <= policy.Backoff(a) <= policy.cap
  {
    var x, y := if a == 0 then 0 else a - 1, if b == 0 then 0 else b - 1;
    Pow2Grows(x, y);
    Monotone(policy.base, Pow2(x), Pow2(y));
    Monotone(policy.base, 1, Pow2(x));
    if y >= 32 && x < 32 {
      Pow2Of32();
    }
  }

  lemma Monotone(k: nat, a: nat, b: nat)
    requires a <= b
    ensures k * a <= k * b
  {
  }
}
