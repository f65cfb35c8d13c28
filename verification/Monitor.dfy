/** The progress monitor: the verdict as a rule over every step ever observed,
    and the five-slot ring that reaches the same verdict. */
module Monitor {
  import opened Words
  import opened Core

  const WINDOW := 5
  const IDENTICAL_LIMIT := 3
  const NO_PROGRESS_LIMIT := 5
  const MAJORITY_LIMIT := 3

  datatype Progress = NewEvidence | StateChanged | SubgoalClosed | InputReceived | NoProgress

  /** A committed step; `failure` is its error class, if it failed. */
  datatype Step = Step(tool: u8, args: u64, failure: Option<u8>, progress: Progress) {
    /** The two steps are the same failure. */
    predicate SameFailure(other: Step) {
      failure.Some? && other.failure.Some? && tool == other.tool && args == other.args && failure == other.failure
    }
  }

  datatype Verdict = Continue | Degrade(status: TerminalStatus, reason: string)

  // The rule, over the whole history.

  /** The last `n` steps all made no progress. */
  ghost predicate Idle(history: seq<Step>, n: nat) {
    n <= |history| && forall k :: |history| - n <= k < |history| ==> history[k].progress == NoProgress
  }

  /** The last `n` steps are all one and the same failure. */
  ghost predicate Repeats(history: seq<Step>, n: nat) {
    n <= |history| && forall k :: |history| - n <= k < |history| ==>
      var last, step := history[|history| - 1], history[k];
      last.failure.Some? && step.failure == last.failure && step.tool == last.tool && step.args == last.args
  }

  lemma RepeatsMeans(history: seq<Step>, n: nat)
    requires history != []
    ensures Repeats(history, n) <==>
              n <= |history| && forall k :: |history| - n <= k < |history| ==> history[|history| - 1].SameFailure(history[k])
  {
  }

  function Failures(steps: seq<Step>): (n: nat)
    ensures n <= |steps|
  {
    if steps == [] then 0 else Failures(steps[..|steps| - 1]) + if steps[|steps| - 1].failure.Some? then 1 else 0
  }

  /** Of the last five steps, of at least five, three or more failed. */
  ghost predicate MostlyFailing(history: seq<Step>) {
    |history| >= WINDOW && Failures(history[|history| - WINDOW..]) >= MAJORITY_LIMIT
  }

  /** The verdict on the last step; `exhausted` names a spent budget unit. */
  ghost function Rule(history: seq<Step>, exhausted: Option<string>): Verdict {
    if exhausted.Some? then Degrade(BudgetExhausted, exhausted.value)
    else if Idle(history, NO_PROGRESS_LIMIT) then Degrade(Stuck, "five consecutive NoProgress deltas")
    else if Repeats(history, IDENTICAL_LIMIT) then Degrade(Stuck, "three identical (tool, args, error) failures")
    else if MostlyFailing(history) then Degrade(Stuck, "error majority in the last five events")
    else Continue
  }

  // What the counters hold.

  /** How many steps at the end made no progress. */
  function IdleRun(history: seq<Step>): (n: nat)
    ensures n <= |history|
  {
    if history == [] || history[|history| - 1].progress != NoProgress then 0 else 1 + IdleRun(history[..|history| - 1])
  }

  lemma {:induction false} IdleRunCounts(history: seq<Step>, n: nat)
    ensures IdleRun(history) >= n <==> Idle(history, n)
  {
    if history != [] && n > 0 {
      var init := history[..|history| - 1];
      IdleRunCounts(init, n - 1);
      assert history[|history| - 1].progress == NoProgress ==>
          (Idle(history, n) <==> Idle(init, n - 1));
    }
  }

  /** How many steps at the end, of the last five, are one and the same failure. */
  function RepeatRun(steps: seq<Step>, last: Step): (n: nat)
    ensures n <= |steps|
  {
    if steps == [] || !last.SameFailure(steps[|steps| - 1]) then 0 else 1 + RepeatRun(steps[..|steps| - 1], last)
  }

  lemma {:induction false} RepeatRunCounts(steps: seq<Step>, last: Step, n: nat)
    ensures RepeatRun(steps, last) >= n <==> n <= |steps| && forall k :: |steps| - n <= k < |steps| ==> last.SameFailure(steps[k])
  {
    hide Step.SameFailure;
    if steps != [] && n > 0 {
      var init := steps[..|steps| - 1];
      RepeatRunCounts(init, last, n - 1);
    }
  }

  /** The newest five steps, or all of them. */
  function Recent(history: seq<Step>): (r: seq<Step>)
    ensures |r| == Min(|history|, WINDOW)
  {
    if |history| <= WINDOW then history else history[|history| - WINDOW..]
  }

  /** Three of the same failure in a row show in the newest five. */
  lemma RepeatsInRecent(history: seq<Step>)
    requires history != []
    ensures RepeatRun(Recent(history), history[|history| - 1]) >= IDENTICAL_LIMIT <==> Repeats(history, IDENTICAL_LIMIT)
  {
    hide Step.SameFailure, RepeatRun, Repeats;
    RepeatsMeans(history, IDENTICAL_LIMIT);
    var r, last := Recent(history), history[|history| - 1];
    RepeatRunCounts(r, last, IDENTICAL_LIMIT);
    assert r == history[|history| - |r|..];
    if |r| >= IDENTICAL_LIMIT {
      SameTail(history, |history| - |r|, last, IDENTICAL_LIMIT);
    }
  }

  /** The last steps of a suffix are the last steps. */
  lemma SameTail(history: seq<Step>, from: nat, last: Step, n: nat)
    requires from + n <= |history|
    ensures (forall k :: |history[from..]| - n <= k < |history[from..]| ==> last.SameFailure(history[from..][k])) <==>
            (forall k :: |history| - n <= k < |history| ==> last.SameFailure(history[k]))
  {
    hide Step.SameFailure;
    var r := history[from..];
    if forall k :: |r| - n <= k < |r| ==> last.SameFailure(r[k]) {
      forall k | |history| - n <= k < |history| ensures last.SameFailure(history[k]) {
        assert r[k - from] == history[k];
      }
    }
  }

  /** Where step number `j` sits in the ring. */
  function Place(j: nat): (p: nat)
    ensures p < WINDOW
  {
    j % WINDOW
  }

  lemma PlaceNext(j: nat)
    ensures Place(j + 1) == if Place(j) + 1 == WINDOW then 0 else Place(j) + 1
    ensures forall i: nat :: i < j + WINDOW && j < i ==> Place(i) != Place(j)
  {
    forall i: nat | i < j + WINDOW && j < i ensures Place(i) != Place(j) {
      Nearby(i, j);
    }
  }

  lemma Nearby(i: nat, j: nat)
    requires j < i < j + WINDOW
    ensures Place(i) != Place(j)
  {
  }

  class Ring {
    var window: array<Option<Step>>
    var next: nat
    var recorded: u8
    var idle: u8
    /** Every step observed. */
    ghost var history: seq<Step>

    ghost predicate Valid()
      reads this, window
    {
      && window.Length == WINDOW
      && next == Place(|history|)
      && recorded == Min(|history|, 0xFF)
      && idle == Min(IdleRun(history), 0xFF)
      && (forall j :: 0 <= j < |history| && |history| - WINDOW <= j ==> window[Place(j)] == Some(history[j]))
      && (forall j :: |history| <= j < WINDOW ==> window[j] == None)
    }

    constructor ()
      ensures Valid() && fresh(window) && history == []
    {
      window := new Option<Step>[WINDOW](_ => None);
      next, recorded, idle := 0, 0, 0;
      history := [];
    }

    /** Record a step over the oldest one. */
    method Push(record: Step)
      requires Valid()
      modifies this`next, this`recorded, this`idle, this`history, window
      ensures Valid() && history == old(history) + [record]
    {
      hide Place, IdleRun;
      ghost var before := history;
      PlaceNext(|before|);
      window[next] := Some(record);
      next := if next + 1 == WINDOW then 0 else next + 1;
      recorded := if recorded == 0xFF then 0xFF else recorded + 1;
      IdleStep(before, record);
      if record.progress == NoProgress {
        idle := if idle == 0xFF then 0xFF else idle + 1;
      } else {
        idle := 0;
      }
      history := before + [record];
      forall j | 0 <= j < |history| && |history| - WINDOW <= j ensures window[Place(j)] == Some(history[j]) {
        if j < |before| {
          Overwritten(|before|, j);
        }
      }
      EmptyPlaces(|before|);
    }

    lemma IdleStep(before: seq<Step>, record: Step)
      ensures IdleRun(before + [record]) == if record.progress == NoProgress then IdleRun(before) + 1 else 0
    {
      assert (before + [record])[..|before|] == before;
    }

    /** The step pushed leaves the four before it in place. */
    lemma Overwritten(n: nat, j: nat)
      requires n - WINDOW < j < n
      ensures Place(j) != Place(n)
    {
    }

    lemma EmptyPlaces(n: nat)
      ensures n < WINDOW ==> Place(n) == n
    {
    }

    /** Steps in the window, oldest first. */
    method Ordered() returns (steps: seq<Step>)
      requires Valid()
      ensures steps == Recent(history)
    {
      hide Place, Recent, IdleRun, Valid;
      steps := [];
      var len := Length();
      ghost var recent := Recent(history);
      assert recent[..0] == [];
      for i := 0 to len
        invariant steps == recent[..i]
      {
        RingIndex(|history|, len, i);
        StepAt(i);
        var at := (next + WINDOW - len + i) % WINDOW;
        steps := steps + [window[at].value];
        assert recent[..i + 1] == recent[..i] + [recent[i]];
      }
      assert recent[..len] == recent;
    }

    /** How many steps the window holds. */
    function Length(): (len: nat)
      requires Valid()
      reads this, window
      ensures len == |Recent(history)| == Min(|history|, WINDOW)
    {
      Min(recorded, WINDOW)
    }

    lemma StepAt(i: nat)
      requires Valid() && i < Length()
      ensures window.Length == WINDOW && next == Place(|history|) && Recent(history)[i] == history[|history| - Length() + i]
      ensures window[Place(|history| - Length() + i)] == Some(Recent(history)[i])
    {
      hide Place, IdleRun;
    }

    lemma RingIndex(n: nat, len: nat, i: nat)
      requires len == Min(n, WINDOW) && i < len
      ensures (Place(n) + WINDOW - len + i) % WINDOW == Place(n - len + i)
    {
      var q := n / WINDOW;
      assert n == WINDOW * q + n % WINDOW;
      assert n - len + i + WINDOW == WINDOW * q + (n % WINDOW + WINDOW - len + i);
      ShiftMod(n - len + i, n % WINDOW + WINDOW - len + i, q);
    }

    lemma ShiftMod(a: nat, b: nat, q: nat)
      requires a + WINDOW == WINDOW * q + b
      ensures b % WINDOW == a % WINDOW
    {
    }

    /** The trailing run of one failure within the window. */
    method ConsecutiveIdentical() returns (run: nat)
      requires Valid()
      ensures run == if history == [] then 0 else RepeatRun(Recent(history), history[|history| - 1])
    {
      hide Step.SameFailure, Valid;
      var steps := Ordered();
      run := 0;
      if steps == [] {
        return;
      }
      assert steps[|steps| - 1] == history[|history| - 1];
      var k := |steps|;
      assert steps[..k] == steps;
      var last := steps[|steps| - 1];
      while k > 0 && last.SameFailure(steps[k - 1])
        invariant 0 <= k <= |steps| && run == |steps| - k && run + RepeatRun(steps[..k], last) == RepeatRun(steps, last)
      {
        assert steps[..k][..k - 1] == steps[..k - 1];
        run := run + 1;
        k := k - 1;
      }
    }

    /** Failures over a full window, in whatever order the ring holds it. */
    method ErrorMajority() returns (most: bool)
      requires Valid()
      ensures most <==> MostlyFailing(history)
    {
      if recorded < WINDOW {
        return false;
      }
      var errors := 0;
      for k := 0 to WINDOW
        invariant errors == SlotFailures(window[..k])
      {
        assert window[..k + 1][..k] == window[..k];
        if window[k].Some? && window[k].value.failure.Some? {
          errors := errors + 1;
        }
      }
      assert window[..WINDOW] == window[..];
      RingFailures(history, window[..]);
      return errors >= MAJORITY_LIMIT;
    }

    /** Record a committed step and judge it. */
    method Observe(record: Step, exhausted: Option<string>) returns (verdict: Verdict)
      requires Valid()
      modifies this`next, this`recorded, this`idle, this`history, window
      ensures Valid() && history == old(history) + [record]
      ensures verdict == Rule(history, exhausted)
    {
      hide RepeatRun, Repeats, MostlyFailing, Idle, IdleRun, Place, Recent;
      Push(record);
      if exhausted.Some? {
        return Degrade(BudgetExhausted, exhausted.value);
      }
      IdleRunCounts(history, NO_PROGRESS_LIMIT);
      if idle >= NO_PROGRESS_LIMIT {
        return Degrade(Stuck, "five consecutive NoProgress deltas");
      }
      RepeatsInRecent(history);
      var run := ConsecutiveIdentical();
      if run >= IDENTICAL_LIMIT {
        return Degrade(Stuck, "three identical (tool, args, error) failures");
      }
      var most := ErrorMajority();
      return if most then Degrade(Stuck, "error majority in the last five events") else Continue;
    }
  }

  function SlotFailures(slots: seq<Option<Step>>): nat {
    if slots == [] then 0
    else
      var last := slots[|slots| - 1];
      SlotFailures(slots[..|slots| - 1]) + if last.Some? && last.value.failure.Some? then 1 else 0
  }

  /** The slot `i` places round the ring from `p`. */
  function Turn(p: nat, i: nat): (q: nat)
    requires p < WINDOW && i < WINDOW
    ensures q < WINDOW
  {
    if p + i < WINDOW then p + i else p + i - WINDOW
  }

  /** The slots, however rotated, hold the newest five steps. */
  lemma RingFailures(history: seq<Step>, slots: seq<Option<Step>>)
    requires |history| >= WINDOW == |slots|
    requires forall j :: |history| - WINDOW <= j < |history| ==> slots[Place(j)] == Some(history[j])
    ensures SlotFailures(slots) == Failures(history[|history| - WINDOW..])
  {
    hide Place, Turn, SlotFailures, Failures;
    var base := |history| - WINDOW;
    var r := history[base..];
    var p := Place(base);
    forall i | 0 <= i < WINDOW ensures slots[Turn(p, i)] == Some(r[i]) {
      PlaceTurn(base, i);
      assert slots[Place(base + i)] == Some(history[base + i]);
    }
    RotatedSum(slots, r, p);
  }

  lemma RotatedSum(slots: seq<Option<Step>>, r: seq<Step>, p: nat)
    requires |slots| == |r| == WINDOW && p < WINDOW && forall i :: 0 <= i < WINDOW ==> slots[Turn(p, i)] == Some(r[i])
    ensures SlotFailures(slots) == Failures(r)
  {
    hide SlotFailures, Failures;
    CountSlots(slots);
    CountSteps(r);
    assert slots[Turn(p, 0)] == Some(r[0]) && slots[Turn(p, 1)] == Some(r[1]) && slots[Turn(p, 2)] == Some(r[2]);
    assert slots[Turn(p, 3)] == Some(r[3]) && slots[Turn(p, 4)] == Some(r[4]);
    assert p == 0 || p == 1 || p == 2 || p == 3 || p == 4;
  }

  lemma PlaceTurn(base: nat, i: nat)
    requires i < WINDOW
    ensures Place(base + i) == Turn(Place(base), i)
  {
    var q := base / WINDOW;
    var p := Place(base);
    assert base == WINDOW * q + p;
    if p + i < WINDOW {
      Wrapped(base + i, p + i, q);
    } else {
      Wrapped(base + i, p + i - WINDOW, q + 1);
    }
  }

  lemma Wrapped(a: nat, b: nat, q: nat)
    requires a == WINDOW * q + b
    ensures a % WINDOW == b % WINDOW
  {
  }

  function Failed(s: Option<Step>): nat {
    if s.Some? && s.value.failure.Some? then 1 else 0
  }

  lemma CountSlots(s: seq<Option<Step>>)
    requires |s| == WINDOW
    ensures SlotFailures(s) == Failed(s[0]) + Failed(s[1]) + Failed(s[2]) + Failed(s[3]) + Failed(s[4])
  {
    assert s[..5] == s && s[..4][..3] == s[..3] && s[..3][..2] == s[..2] && s[..2][..1] == s[..1] && s[..1][..0] == [];
    assert SlotFailures(s) == SlotFailures(s[..4]) + Failed(s[4]);
    assert SlotFailures(s[..4]) == SlotFailures(s[..3]) + Failed(s[3]);
    assert SlotFailures(s[..3]) == SlotFailures(s[..2]) + Failed(s[2]);
    assert SlotFailures(s[..2]) == SlotFailures(s[..1]) + Failed(s[1]);
  }

  lemma CountSteps(r: seq<Step>)
    requires |r| == WINDOW
    ensures Failures(r) == Failed(Some(r[0])) + Failed(Some(r[1])) + Failed(Some(r[2])) + Failed(Some(r[3])) + Failed(Some(r[4]))
  {
    assert r[..5] == r && r[..4][..3] == r[..3] && r[..3][..2] == r[..2] && r[..2][..1] == r[..1] && r[..1][..0] == [];
    assert Failures(r) == Failures(r[..4]) + Failed(Some(r[4]));
    assert Failures(r[..4]) == Failures(r[..3]) + Failed(Some(r[3]));
    assert Failures(r[..3]) == Failures(r[..2]) + Failed(Some(r[2]));
    assert Failures(r[..2]) == Failures(r[..1]) + Failed(Some(r[1]));
  }
}
