/** Goals, memory entries and headers as checkpoint bytes, and back. */
module CheckpointCodec {
  import opened Words
  import opened Core
  import opened Codec
  import opened Ledger
  import opened Memory

  const PINS := 8
  const SENSORS := 4

  // A goal: who it is.

  function CadenceBytes(c: Cadence): bytes {
    match c
    case Once => [0] + Le(0, 4)
    case Every(every) => [1] + Le(every, 4)
  }

  function TakeCadence(b: bytes): Result<(Cadence, bytes), Error> {
    var tag :- TakeU8(b);
    var word :- TakeU32(tag.1);
    if tag.0 == 0 && word.0 == 0 then Ok((Once, word.1))
    else if tag.0 == 1 && word.0 != 0 then Ok((Every(word.0), word.1))
    else Err(SnapshotCorrupt)
  }

  lemma CadenceBack(c: Cadence, rest: bytes)
    ensures TakeCadence(CadenceBytes(c) + rest) == Ok((c, rest))
  {
    hide Le;
    var tag: u8, word: u32 := if c.Once? then 0 else 1, if c.Once? then 0 else c.every;
    Regroup([tag], Le(word, 4), rest);
    U8Back(tag, Le(word, 4) + rest);
    U32Back(word, rest);
  }

  lemma CadenceThere(b: bytes)
    requires TakeCadence(b).Ok?
    ensures var p := TakeCadence(b).value; b == CadenceBytes(p.0) + p.1
  {
    hide Le, TakeU8, TakeU32;
    U8There(b);
    var tag := TakeU8(b).value;
    U32There(tag.1);
    var word := TakeU32(tag.1).value;
    Regroup([tag.0], Le(word.0, 4), word.1);
  }

  datatype Identity = Identity(id: goalId, objective: note, priority: u8, cadence: Cadence)

  function IdentityBytes(v: Identity): bytes {
    Le(v.id, 2) + (NoteBytes(v.objective) + ([v.priority] + CadenceBytes(v.cadence)))
  }

  function TakeIdentity(b: bytes): Result<(Identity, bytes), Error> {
    var id :- TakeU16(b);
    if id.0 == 0 then Err(SnapshotCorrupt)
    else
      var objective :- TakeNote(id.1);
      var priority :- TakeU8(objective.1);
      var cadence :- TakeCadence(priority.1);
      Ok((Identity(id.0, objective.0, priority.0, cadence.0), cadence.1))
  }

  lemma IdentityBack(v: Identity, rest: bytes)
    ensures TakeIdentity(IdentityBytes(v) + rest) == Ok((v, rest))
  {
    hide Le, NoteBytes, CadenceBytes, TakeU16, TakeNote, TakeU8, TakeCadence;
    var c := CadenceBytes(v.cadence);
    Regroup([v.priority], c, rest);
    Regroup(NoteBytes(v.objective), [v.priority] + c, rest);
    Regroup(Le(v.id, 2), NoteBytes(v.objective) + ([v.priority] + c), rest);
    U16Back(v.id, NoteBytes(v.objective) + ([v.priority] + (c + rest)));
    NoteBack(v.objective, [v.priority] + (c + rest));
    U8Back(v.priority, c + rest);
    CadenceBack(v.cadence, rest);
  }

  lemma IdentityThere(b: bytes)
    requires TakeIdentity(b).Ok?
    ensures var p := TakeIdentity(b).value; b == IdentityBytes(p.0) + p.1
  {
    hide Le, NoteBytes, CadenceBytes, TakeU16, TakeNote, TakeU8, TakeCadence;
    var id := TakeU16(b).value;
    U16There(b);
    var objective := TakeNote(id.1).value;
    NoteThere(id.1);
    var priority := TakeU8(objective.1).value;
    U8There(objective.1);
    var cadence := TakeCadence(priority.1).value;
    CadenceThere(priority.1);
    var c := CadenceBytes(cadence.0);
    Regroup([priority.0], c, cadence.1);
    Regroup(NoteBytes(objective.0), [priority.0] + c, cadence.1);
    Regroup(Le(id.0, 2), NoteBytes(objective.0) + ([priority.0] + c), cadence.1);
  }

  // A goal: what it may spend.

  function EnvelopeBytes(v: Envelope): bytes {
    Le(v.perRunTurns, 2) + (Le(v.perRunMutations, 2) + (Le(v.turns, 4) + (Le(v.mutations, 4) + Le(v.runs, 2))))
  }

  function TakeEnvelope(b: bytes): Result<(Envelope, bytes), Error> {
    var perRunTurns :- TakeU16(b);
    var perRunMutations :- TakeU16(perRunTurns.1);
    var turns :- TakeU32(perRunMutations.1);
    var mutations :- TakeU32(turns.1);
    var runs :- TakeU16(mutations.1);
    var v := Envelope(perRunTurns.0, perRunMutations.0, turns.0, mutations.0, runs.0);
    if v.Validate().Err? then Err(SnapshotCorrupt) else Ok((v, runs.1))
  }

  lemma EnvelopeBack(v: Envelope, rest: bytes)
    requires v.Validate().Ok?
    ensures TakeEnvelope(EnvelopeBytes(v) + rest) == Ok((v, rest))
  {
    hide Le, TakeU16, TakeU32;
    var r := Le(v.runs, 2);
    Regroup(Le(v.mutations, 4), r, rest);
    Regroup(Le(v.turns, 4), Le(v.mutations, 4) + r, rest);
    Regroup(Le(v.perRunMutations, 2), Le(v.turns, 4) + (Le(v.mutations, 4) + r), rest);
    Regroup(Le(v.perRunTurns, 2), Le(v.perRunMutations, 2) + (Le(v.turns, 4) + (Le(v.mutations, 4) + r)), rest);
    U16Back(v.perRunTurns, Le(v.perRunMutations, 2) + (Le(v.turns, 4) + (Le(v.mutations, 4) + (r + rest))));
    U16Back(v.perRunMutations, Le(v.turns, 4) + (Le(v.mutations, 4) + (r + rest)));
    U32Back(v.turns, Le(v.mutations, 4) + (r + rest));
    U32Back(v.mutations, r + rest);
    U16Back(v.runs, rest);
  }

  lemma EnvelopeThere(b: bytes)
    requires TakeEnvelope(b).Ok?
    ensures var p := TakeEnvelope(b).value; b == EnvelopeBytes(p.0) + p.1 && p.0.Validate().Ok?
  {
    hide Le, TakeU16, TakeU32;
    var p0 := TakeU16(b).value;
    U16There(b);
    var p1 := TakeU16(p0.1).value;
    U16There(p0.1);
    var p2 := TakeU32(p1.1).value;
    U32There(p1.1);
    var p3 := TakeU32(p2.1).value;
    U32There(p2.1);
    var p4 := TakeU16(p3.1).value;
    U16There(p3.1);
    var r := Le(p4.0, 2);
    Regroup(Le(p3.0, 4), r, p4.1);
    Regroup(Le(p2.0, 4), Le(p3.0, 4) + r, p4.1);
    Regroup(Le(p1.0, 2), Le(p2.0, 4) + (Le(p3.0, 4) + r), p4.1);
    Regroup(Le(p0.0, 2), Le(p1.0, 2) + (Le(p2.0, 4) + (Le(p3.0, 4) + r)), p4.1);
  }

  /** What is left of the envelope, and what a run holds of it. */
  datatype Funds = Funds(remaining: Remaining, reserved: Grant)

  function FundsBytes(v: Funds): bytes {
    Le(v.remaining.turns, 4) + (Le(v.remaining.mutations, 4) + (Le(v.remaining.runs, 2) + (Le(v.reserved.turns, 2) + Le(v.reserved.mutations, 2))))
  }

  function TakeFunds(b: bytes): Result<(Funds, bytes), Error> {
    var turns :- TakeU32(b);
    var mutations :- TakeU32(turns.1);
    var runs :- TakeU16(mutations.1);
    var reservedTurns :- TakeU16(runs.1);
    var reservedMutations :- TakeU16(reservedTurns.1);
    Ok((Funds(Remaining(turns.0, mutations.0, runs.0), Grant(reservedTurns.0, reservedMutations.0)), reservedMutations.1))
  }

  lemma FundsBack(v: Funds, rest: bytes)
    ensures TakeFunds(FundsBytes(v) + rest) == Ok((v, rest))
  {
    hide Le, TakeU16, TakeU32;
    var m := Le(v.reserved.mutations, 2);
    var t := Le(v.reserved.turns, 2);
    var r := Le(v.remaining.runs, 2);
    Regroup(t, m, rest);
    Regroup(r, t + m, rest);
    Regroup(Le(v.remaining.mutations, 4), r + (t + m), rest);
    Regroup(Le(v.remaining.turns, 4), Le(v.remaining.mutations, 4) + (r + (t + m)), rest);
    U32Back(v.remaining.turns, Le(v.remaining.mutations, 4) + (r + (t + (m + rest))));
    U32Back(v.remaining.mutations, r + (t + (m + rest)));
    U16Back(v.remaining.runs, t + (m + rest));
    U16Back(v.reserved.turns, m + rest);
    U16Back(v.reserved.mutations, rest);
  }

  lemma FundsThere(b: bytes)
    requires TakeFunds(b).Ok?
    ensures var p := TakeFunds(b).value; b == FundsBytes(p.0) + p.1
  {
    hide Le, TakeU16, TakeU32;
    var p0 := TakeU32(b).value;
    U32There(b);
    var p1 := TakeU32(p0.1).value;
    U32There(p0.1);
    var p2 := TakeU16(p1.1).value;
    U16There(p1.1);
    var p3 := TakeU16(p2.1).value;
    U16There(p2.1);
    var p4 := TakeU16(p3.1).value;
    U16There(p3.1);
    var m := Le(p4.0, 2);
    var t := Le(p3.0, 2);
    var r := Le(p2.0, 2);
    Regroup(t, m, p4.1);
    Regroup(r, t + m, p4.1);
    Regroup(Le(p1.0, 4), r + (t + m), p4.1);
    Regroup(Le(p0.0, 4), Le(p1.0, 4) + (r + (t + m)), p4.1);
  }

  // A goal: what it may touch.

  predicate Granted(slots: bytes, count: u8, size: nat) {
    |slots| == size && count <= size && forall k :: 0 <= k < count ==> slots[k] < size
  }

  /** Sets of their storage size, whatever they hold. */
  predicate FixedSize(v: Capabilities) {
    |v.readPins| == PINS && |v.writePins| == PINS && |v.sensors| == SENSORS
  }

  /** Sets of their storage size, holding only real pins and sensors. */
  predicate Shaped(v: Capabilities) {
    && Granted(v.readPins, v.readCount, PINS)
    && Granted(v.writePins, v.writeCount, PINS)
    && Granted(v.sensors, v.sensorCount, SENSORS)
  }

  function SetBytes(v: bytes, count: u8): bytes {
    v + [count]
  }

  /** One stored set of `size` slots and its count. */
  function TakeSet(b: bytes, size: nat): Result<(bytes, u8, bytes), Error> {
    var slots :- TakeBytes(b, size);
    var count :- TakeU8(slots.1);
    Ok((slots.0, count.0, count.1))
  }

  lemma SetBack(v: bytes, count: u8, rest: bytes)
    ensures TakeSet(SetBytes(v, count) + rest, |v|) == Ok((v, count, rest))
  {
    Regroup(v, [count], rest);
    BytesBack(v, [count] + rest);
    U8Back(count, rest);
  }

  lemma SetThere(b: bytes, size: nat)
    requires TakeSet(b, size).Ok?
    ensures var p := TakeSet(b, size).value; |p.0| == size && b == SetBytes(p.0, p.1) + p.2
  {
    BytesThere(b, size);
    var p := TakeBytes(b, size).value;
    U8There(p.1);
    var q := TakeU8(p.1).value;
    Regroup(p.0, [q.0], q.1);
  }

  function CapabilitiesBytes(v: Capabilities): bytes {
    SetBytes(v.readPins, v.readCount) + (SetBytes(v.writePins, v.writeCount) + (SetBytes(v.sensors, v.sensorCount) +
      (FlagBytes(v.allowTimer) + FlagBytes(v.allowStatus))))
  }

  function TakeCapabilities(b: bytes): Result<(Capabilities, bytes), Error> {
    var inputs :- TakeSet(b, PINS);
    var outputs :- TakeSet(inputs.2, PINS);
    var sensors :- TakeSet(outputs.2, SENSORS);
    var timer :- TakeFlag(sensors.2);
    var status :- TakeFlag(timer.1);
    var v := Capabilities(inputs.0, inputs.1, outputs.0, outputs.1, sensors.0, sensors.1, timer.0, status.0);
    if Shaped(v) then Ok((v, status.1)) else Err(SnapshotCorrupt)
  }

  lemma CapabilitiesBack(v: Capabilities, rest: bytes)
    requires Shaped(v)
    ensures TakeCapabilities(CapabilitiesBytes(v) + rest) == Ok((v, rest))
  {
    hide TakeSet, SetBytes, TakeFlag, FlagBytes;
    var a, b, c := SetBytes(v.readPins, v.readCount), SetBytes(v.writePins, v.writeCount), SetBytes(v.sensors, v.sensorCount);
    var t, s := FlagBytes(v.allowTimer), FlagBytes(v.allowStatus);
    Regroup(t, s, rest);
    Regroup(c, t + s, rest);
    Regroup(b, c + (t + s), rest);
    Regroup(a, b + (c + (t + s)), rest);
    SetBack(v.readPins, v.readCount, b + (c + (t + (s + rest))));
    SetBack(v.writePins, v.writeCount, c + (t + (s + rest)));
    SetBack(v.sensors, v.sensorCount, t + (s + rest));
    FlagBack(v.allowTimer, s + rest);
    FlagBack(v.allowStatus, rest);
  }

  lemma CapabilitiesThere(b: bytes)
    requires TakeCapabilities(b).Ok?
    ensures var p := TakeCapabilities(b).value; b == CapabilitiesBytes(p.0) + p.1 && Shaped(p.0)
  {
    hide TakeSet, SetBytes, TakeFlag, FlagBytes;
    var p0 := TakeSet(b, PINS).value;
    SetThere(b, PINS);
    var p1 := TakeSet(p0.2, PINS).value;
    SetThere(p0.2, PINS);
    var p2 := TakeSet(p1.2, SENSORS).value;
    SetThere(p1.2, SENSORS);
    var p3 := TakeFlag(p2.2).value;
    FlagThere(p2.2);
    var p4 := TakeFlag(p3.1).value;
    FlagThere(p3.1);
    var t, s := FlagBytes(p3.0), FlagBytes(p4.0);
    Regroup(t, s, p4.1);
    var i, o, n := SetBytes(p0.0, p0.1), SetBytes(p1.0, p1.1), SetBytes(p2.0, p2.1);
    Regroup(n, t + s, p4.1);
    Regroup(o, n + (t + s), p4.1);
    Regroup(i, o + (n + (t + s)), p4.1);
  }

  // A goal: where it stands.

  function StatusCode(s: GoalStatus): u8 {
    match s
    case Active => 0
    case Running => 1
    case Waiting => 2
    case Paused => 3
    case Satisfied => 4
    case Failed => 5
    case Exhausted => 6
    case Retired => 7
  }

  function TakeStatus(b: bytes): Result<(GoalStatus, bytes), Error> {
    var p :- TakeU8(b);
    match p.0
    case 0 => Ok((Active, p.1))
    case 1 => Ok((Running, p.1))
    case 2 => Ok((Waiting, p.1))
    case 3 => Ok((Paused, p.1))
    case 4 => Ok((Satisfied, p.1))
    case 5 => Ok((Failed, p.1))
    case 6 => Ok((Exhausted, p.1))
    case 7 => Ok((Retired, p.1))
    case _ => Err(SnapshotCorrupt)
  }

  const NO_STATUS: u8 := 0xff

  function LastStatusCode(s: Option<TerminalStatus>): u8 {
    match s
    case None => NO_STATUS
    case Some(Completed) => 0
    case Some(NeedsInput) => 1
    case Some(Denied) => 2
    case Some(BudgetExhausted) => 3
    case Some(Stuck) => 4
    case Some(ToolUnavailable) => 5
    case Some(ModelInvalid) => 6
    case Some(StorageFault) => 7
    case Some(Incompatible) => 8
  }

  function TakeLastStatus(b: bytes): Result<(Option<TerminalStatus>, bytes), Error> {
    var p :- TakeU8(b);
    match p.0
    case 0xff => Ok((None, p.1))
    case 0 => Ok((Some(Completed), p.1))
    case 1 => Ok((Some(NeedsInput), p.1))
    case 2 => Ok((Some(Denied), p.1))
    case 3 => Ok((Some(BudgetExhausted), p.1))
    case 4 => Ok((Some(Stuck), p.1))
    case 5 => Ok((Some(ToolUnavailable), p.1))
    case 6 => Ok((Some(ModelInvalid), p.1))
    case 7 => Ok((Some(StorageFault), p.1))
    case 8 => Ok((Some(Incompatible), p.1))
    case _ => Err(SnapshotCorrupt)
  }

  lemma CodesBack(s: GoalStatus, last: Option<TerminalStatus>, rest: bytes)
    ensures TakeStatus([StatusCode(s)] + rest) == Ok((s, rest))
    ensures TakeLastStatus([LastStatusCode(last)] + rest) == Ok((last, rest))
  {
    U8Back(StatusCode(s), rest);
    U8Back(LastStatusCode(last), rest);
  }

  lemma StatusThere(b: bytes)
    requires TakeStatus(b).Ok?
    ensures var p := TakeStatus(b).value; b == [StatusCode(p.0)] + p.1
  {
    U8There(b);
  }

  lemma LastStatusThere(b: bytes)
    requires TakeLastStatus(b).Ok?
    ensures var p := TakeLastStatus(b).value; b == [LastStatusCode(p.0)] + p.1
  {
    U8There(b);
  }

  datatype Standing = Standing(status: GoalStatus, nextDue: u64, failures: u8, runsStarted: u32,
    lastStatus: Option<TerminalStatus>, waitingSince: u64, run: Option<u64>)
  {
    /** A goal holds a run exactly while it is busy. */
    predicate HoldsRun() {
      status.Busy() <==> run.Some?
    }
  }

  function StandingBytes(v: Standing): bytes {
    [StatusCode(v.status)] + (Le(v.nextDue, 8) + ([v.failures] + (Le(v.runsStarted, 4) + RunStandingBytes(v))))
  }

  function RunStandingBytes(v: Standing): bytes {
    [LastStatusCode(v.lastStatus)] + (Le(v.waitingSince, 8) + RunBytes(v.run))
  }

  function TakeStanding(b: bytes): Result<(Standing, bytes), Error> {
    var status :- TakeStatus(b);
    var nextDue :- TakeU64(status.1);
    var failures :- TakeU8(nextDue.1);
    var runsStarted :- TakeU32(failures.1);
    var lastStatus :- TakeLastStatus(runsStarted.1);
    var waitingSince :- TakeU64(lastStatus.1);
    var run :- TakeRun(waitingSince.1);
    var v := Standing(status.0, nextDue.0, failures.0, runsStarted.0, lastStatus.0, waitingSince.0, run.0);
    if v.HoldsRun() then Ok((v, run.1)) else Err(SnapshotCorrupt)
  }

  lemma StandingBack(v: Standing, rest: bytes)
    requires v.HoldsRun()
    ensures TakeStanding(StandingBytes(v) + rest) == Ok((v, rest))
  {
    hide Le, RunBytes, StatusCode, LastStatusCode, TakeStatus, TakeLastStatus, TakeU8, TakeU32, TakeU64, TakeRun;
    var s, l := [StatusCode(v.status)], [LastStatusCode(v.lastStatus)];
    var r := RunBytes(v.run);
    var w := Le(v.waitingSince, 8);
    var n := Le(v.runsStarted, 4);
    var d := Le(v.nextDue, 8);
    Regroup(w, r, rest);
    Regroup(l, w + r, rest);
    Regroup(n, l + (w + r), rest);
    Regroup([v.failures], n + (l + (w + r)), rest);
    Regroup(d, [v.failures] + (n + (l + (w + r))), rest);
    Regroup(s, d + ([v.failures] + (n + (l + (w + r)))), rest);
    CodesBack(v.status, v.lastStatus, d + ([v.failures] + (n + (l + (w + (r + rest))))));
    U64Back(v.nextDue, [v.failures] + (n + (l + (w + (r + rest)))));
    U8Back(v.failures, n + (l + (w + (r + rest))));
    U32Back(v.runsStarted, l + (w + (r + rest)));
    CodesBack(v.status, v.lastStatus, w + (r + rest));
    U64Back(v.waitingSince, r + rest);
    RunBack(v.run, rest);
  }

  lemma StandingThere(b: bytes)
    requires TakeStanding(b).Ok?
    ensures var p := TakeStanding(b).value; b == StandingBytes(p.0) + p.1 && p.0.HoldsRun()
  {
    hide Le, RunBytes, StatusCode, LastStatusCode, TakeStatus, TakeLastStatus, TakeU8, TakeU32, TakeU64, TakeRun;
    var p0 := TakeStatus(b).value;
    StatusThere(b);
    var p1 := TakeU64(p0.1).value;
    U64There(p0.1);
    var p2 := TakeU8(p1.1).value;
    U8There(p1.1);
    var p3 := TakeU32(p2.1).value;
    U32There(p2.1);
    var p4 := TakeLastStatus(p3.1).value;
    LastStatusThere(p3.1);
    var p5 := TakeU64(p4.1).value;
    U64There(p4.1);
    var p6 := TakeRun(p5.1).value;
    RunThere(p5.1);
    var s, l := [StatusCode(p0.0)], [LastStatusCode(p4.0)];
    var r := RunBytes(p6.0);
    var w := Le(p5.0, 8);
    var n := Le(p3.0, 4);
    var d := Le(p1.0, 8);
    Regroup(w, r, p6.1);
    Regroup(l, w + r, p6.1);
    Regroup(n, l + (w + r), p6.1);
    Regroup([p2.0], n + (l + (w + r)), p6.1);
    Regroup(d, [p2.0] + (n + (l + (w + r))), p6.1);
    Regroup(s, d + ([p2.0] + (n + (l + (w + r)))), p6.1);
  }

  // A whole goal.

  function GoalIdentity(g: Goal): Identity {
    Identity(g.id, g.objective, g.priority, g.cadence)
  }

  function GoalFunds(g: Goal): Funds {
    Funds(g.remaining, g.reserved)
  }

  function GoalStanding(g: Goal): Standing {
    Standing(g.status, g.nextDue, g.failures, g.runsStarted, g.lastStatus, g.waitingSince, g.run)
  }

  function Assemble(i: Identity, e: Envelope, f: Funds, c: Capabilities, s: Standing): Goal {
    Goal(i.id, i.objective, i.priority, i.cadence, e, f.remaining, f.reserved, c,
         s.status, s.nextDue, s.failures, s.runsStarted, s.lastStatus, s.waitingSince, s.run)
  }

  /** What a decoded goal has passed: a usable envelope, real capabilities, and
      a run exactly while busy. */
  predicate GoalOk(g: Goal) {
    g.envelope.Validate().Ok? && Shaped(g.capabilities) && GoalStanding(g).HoldsRun()
  }

  function GoalBytes(g: Goal): bytes {
    IdentityBytes(GoalIdentity(g)) + (EnvelopeBytes(g.envelope) + (FundsBytes(GoalFunds(g)) +
      (CapabilitiesBytes(g.capabilities) + StandingBytes(GoalStanding(g)))))
  }

  function TakeGoal(b: bytes): Result<(Goal, bytes), Error> {
    var identity :- TakeIdentity(b);
    var envelope :- TakeEnvelope(identity.1);
    var funds :- TakeFunds(envelope.1);
    var capabilities :- TakeCapabilities(funds.1);
    var standing :- TakeStanding(capabilities.1);
    Ok((Assemble(identity.0, envelope.0, funds.0, capabilities.0, standing.0), standing.1))
  }

  lemma GoalBack(g: Goal, rest: bytes)
    requires GoalOk(g)
    ensures TakeGoal(GoalBytes(g) + rest) == Ok((g, rest))
  {
    hide IdentityBytes, EnvelopeBytes, FundsBytes, CapabilitiesBytes, StandingBytes;
    hide TakeIdentity, TakeEnvelope, TakeFunds, TakeCapabilities, TakeStanding, Shaped;
    var i, f, s := GoalIdentity(g), GoalFunds(g), GoalStanding(g);
    var ib, eb, fb, cb, sb := IdentityBytes(i), EnvelopeBytes(g.envelope), FundsBytes(f), CapabilitiesBytes(g.capabilities), StandingBytes(s);
    Regroup(cb, sb, rest);
    Regroup(fb, cb + sb, rest);
    Regroup(eb, fb + (cb + sb), rest);
    Regroup(ib, eb + (fb + (cb + sb)), rest);
    IdentityBack(i, eb + (fb + (cb + (sb + rest))));
    EnvelopeBack(g.envelope, fb + (cb + (sb + rest)));
    FundsBack(f, cb + (sb + rest));
    CapabilitiesBack(g.capabilities, sb + rest);
    StandingBack(s, rest);
  }

  lemma GoalThere(b: bytes)
    requires TakeGoal(b).Ok?
    ensures var p := TakeGoal(b).value; b == GoalBytes(p.0) + p.1 && GoalOk(p.0)
  {
    hide IdentityBytes, EnvelopeBytes, FundsBytes, CapabilitiesBytes, StandingBytes;
    hide TakeIdentity, TakeEnvelope, TakeFunds, TakeCapabilities, TakeStanding, Shaped;
    var p0 := TakeIdentity(b).value;
    IdentityThere(b);
    var p1 := TakeEnvelope(p0.1).value;
    EnvelopeThere(p0.1);
    var p2 := TakeFunds(p1.1).value;
    FundsThere(p1.1);
    var p3 := TakeCapabilities(p2.1).value;
    CapabilitiesThere(p2.1);
    var p4 := TakeStanding(p3.1).value;
    StandingThere(p3.1);
    var ib, eb, fb, cb, sb := IdentityBytes(p0.0), EnvelopeBytes(p1.0), FundsBytes(p2.0), CapabilitiesBytes(p3.0), StandingBytes(p4.0);
    Regroup(cb, sb, p4.1);
    Regroup(fb, cb + sb, p4.1);
    Regroup(eb, fb + (cb + sb), p4.1);
    Regroup(ib, eb + (fb + (cb + sb)), p4.1);
  }

  // A memory entry.

  function KeyBytes(k: Key): bytes {
    match k
    case Observation(tool, args) => [0] + ([tool] + Le(args, 8))
    case Outcome(goal) => [1] + Le(goal, 2)
    case NoteKey(name) => [2] + Le(name, 8)
  }

  function TakeKey(b: bytes): Result<(Key, bytes), Error> {
    var tag :- TakeU8(b);
    if tag.0 == 0 then
      var tool :- TakeU8(tag.1);
      var args :- TakeU64(tool.1);
      Ok((Observation(tool.0, args.0), args.1))
    else if tag.0 == 1 then
      var goal :- TakeU16(tag.1);
      if goal.0 == 0 then Err(SnapshotCorrupt) else Ok((Outcome(goal.0), goal.1))
    else if tag.0 == 2 then
      var name :- TakeU64(tag.1);
      Ok((NoteKey(name.0), name.1))
    else Err(SnapshotCorrupt)
  }

  lemma KeyBack(k: Key, rest: bytes)
    ensures TakeKey(KeyBytes(k) + rest) == Ok((k, rest))
  {
    hide Le, TakeU8, TakeU16, TakeU64;
    match k {
      case Observation(tool, args) =>
        Regroup([tool], Le(args, 8), rest);
        Regroup([0], [tool] + Le(args, 8), rest);
        U8Back(0, [tool] + (Le(args, 8) + rest));
        U8Back(tool, Le(args, 8) + rest);
        U64Back(args, rest);
      case Outcome(goal) =>
        Regroup([1], Le(goal, 2), rest);
        U8Back(1, Le(goal, 2) + rest);
        U16Back(goal, rest);
      case NoteKey(name) =>
        Regroup([2], Le(name, 8), rest);
        U8Back(2, Le(name, 8) + rest);
        U64Back(name, rest);
    }
  }

  lemma KeyThere(b: bytes)
    requires TakeKey(b).Ok?
    ensures var p := TakeKey(b).value; b == KeyBytes(p.0) + p.1
  {
    hide Le, TakeU8, TakeU16, TakeU64;
    U8There(b);
    var tag := TakeU8(b).value;
    if tag.0 == 0 {
      U8There(tag.1);
      var tool := TakeU8(tag.1).value;
      U64There(tool.1);
      var args := TakeU64(tool.1).value;
      Regroup([tool.0], Le(args.0, 8), args.1);
      Regroup([0], [tool.0] + Le(args.0, 8), args.1);
    } else if tag.0 == 1 {
      U16There(tag.1);
      var goal := TakeU16(tag.1).value;
      Regroup([1], Le(goal.0, 2), goal.1);
    } else {
      U64There(tag.1);
      var name := TakeU64(tag.1).value;
      Regroup([2], Le(name.0, 8), name.1);
    }
  }

  function OwnerWord(goal: Option<goalId>): u16 {
    if goal.Some? then goal.value else 0
  }

  function EntryBytes(e: Entry): bytes {
    KeyBytes(e.key) + (NoteBytes(e.text) + (NoteBytes(e.value) + ProvenanceBytes(e.provenance, e.stamp)))
  }

  function ProvenanceBytes(p: Provenance, stamp: u32): bytes {
    Le(OwnerWord(p.goal), 2) + (RunBytes(p.run) + (Le(p.beat, 8) + Le(stamp, 4)))
  }

  function TakeEntry(b: bytes): Result<(Entry, bytes), Error> {
    var key :- TakeKey(b);
    var text :- TakeNote(key.1);
    var value :- TakeNote(text.1);
    var goal :- TakeU16(value.1);
    var run :- TakeRun(goal.1);
    var beat :- TakeU64(run.1);
    var stamp :- TakeU32(beat.1);
    var owner: Option<goalId> := if goal.0 == 0 then None else Some(goal.0);
    Ok((Entry(key.0, text.0, value.0, Provenance(owner, run.0, beat.0), stamp.0), stamp.1))
  }

  lemma EntryBack(e: Entry, rest: bytes)
    ensures TakeEntry(EntryBytes(e) + rest) == Ok((e, rest))
  {
    hide Le, KeyBytes, NoteBytes, RunBytes, TakeKey, TakeNote, TakeU16, TakeRun, TakeU64, TakeU32;
    var k, t, v := KeyBytes(e.key), NoteBytes(e.text), NoteBytes(e.value);
    var g, r := Le(OwnerWord(e.provenance.goal), 2), RunBytes(e.provenance.run);
    var b := Le(e.provenance.beat, 8);
    var s := Le(e.stamp, 4);
    Regroup(b, s, rest);
    Regroup(r, b + s, rest);
    Regroup(g, r + (b + s), rest);
    Regroup(v, g + (r + (b + s)), rest);
    Regroup(t, v + (g + (r + (b + s))), rest);
    Regroup(k, t + (v + (g + (r + (b + s)))), rest);
    KeyBack(e.key, t + (v + (g + (r + (b + (s + rest))))));
    NoteBack(e.text, v + (g + (r + (b + (s + rest)))));
    NoteBack(e.value, g + (r + (b + (s + rest))));
    U16Back(OwnerWord(e.provenance.goal), r + (b + (s + rest)));
    RunBack(e.provenance.run, b + (s + rest));
    U64Back(e.provenance.beat, s + rest);
    U32Back(e.stamp, rest);
  }

  lemma EntryThere(b: bytes)
    requires TakeEntry(b).Ok?
    ensures var p := TakeEntry(b).value; b == EntryBytes(p.0) + p.1
  {
    hide Le, KeyBytes, NoteBytes, RunBytes, TakeKey, TakeNote, TakeU16, TakeRun, TakeU64, TakeU32;
    var p0 := TakeKey(b).value;
    KeyThere(b);
    var p1 := TakeNote(p0.1).value;
    NoteThere(p0.1);
    var p2 := TakeNote(p1.1).value;
    NoteThere(p1.1);
    var p3 := TakeU16(p2.1).value;
    U16There(p2.1);
    var p4 := TakeRun(p3.1).value;
    RunThere(p3.1);
    var p5 := TakeU64(p4.1).value;
    U64There(p4.1);
    var p6 := TakeU32(p5.1).value;
    U32There(p5.1);
    var k, t, v := KeyBytes(p0.0), NoteBytes(p1.0), NoteBytes(p2.0);
    var g, r := Le(p3.0, 2), RunBytes(p4.0);
    var w := Le(p5.0, 8);
    var s := Le(p6.0, 4);
    Regroup(w, s, p6.1);
    Regroup(r, w + s, p6.1);
    Regroup(g, r + (w + s), p6.1);
    Regroup(v, g + (r + (w + s)), p6.1);
    Regroup(t, v + (g + (r + (w + s))), p6.1);
    Regroup(k, t + (v + (g + (r + (w + s)))), p6.1);
  }

  // How long they are.

  const MAX_GOAL_BYTES := 158
  const MAX_ENTRY_BYTES := 163
  const MAX_ITEM_BYTES := 1 + MAX_ENTRY_BYTES

  lemma GoalLength(g: Goal)
    requires FixedSize(g.capabilities)
    ensures |GoalBytes(g)| == 94 + |g.objective| <= MAX_GOAL_BYTES
  {
    hide Le;
  }

  lemma EntryLength(e: Entry)
    ensures |EntryBytes(e)| <= MAX_ENTRY_BYTES
    ensures |EntryBytes(e)| == 25 + |KeyBytes(e.key)| + |e.text| + |e.value|
  {
    hide Le;
  }

  // The header.

  const VERSION: u8 := 1

  datatype Header = Header(lastBeat: u64, spawnSeq: u32, nextDeadline: u64, nextGoalId: u16, nextStamp: u32,
    goals: u8, entries: u8, digest: u64)
  {
    /** Items the header promises. */
    function Items(): nat {
      goals + entries
    }

    predicate Within() {
      goals <= MAX_GOALS && entries <= MAX_MEMORY
    }
  }

  const HEADER_BYTES := 37

  /** Everything after the version byte. */
  function FieldBytes(h: Header): bytes {
    Le(h.lastBeat, 8) + (Le(h.spawnSeq, 4) + (Le(h.nextDeadline, 8) + (Le(h.nextGoalId, 2) + ItemFieldBytes(h))))
  }

  function ItemFieldBytes(h: Header): bytes {
    Le(h.nextStamp, 4) + ([h.goals] + ([h.entries] + Le(h.digest, 8)))
  }

  function HeaderBytes(h: Header): bytes {
    [VERSION] + FieldBytes(h)
  }

  function TakeFields(b: bytes): Result<(Header, bytes), Error> {
    var lastBeat :- TakeU64(b);
    var spawnSeq :- TakeU32(lastBeat.1);
    var nextDeadline :- TakeU64(spawnSeq.1);
    var nextGoalId :- TakeU16(nextDeadline.1);
    var nextStamp :- TakeU32(nextGoalId.1);
    var goals :- TakeU8(nextStamp.1);
    var entries :- TakeU8(goals.1);
    var digest :- TakeU64(entries.1);
    var h := Header(lastBeat.0, spawnSeq.0, nextDeadline.0, nextGoalId.0, nextStamp.0, goals.0, entries.0, digest.0);
    if h.Within() then Ok((h, digest.1)) else Err(SnapshotCorrupt)
  }

  lemma FieldsBack(h: Header, rest: bytes)
    requires h.Within()
    ensures TakeFields(FieldBytes(h) + rest) == Ok((h, rest))
  {
    hide Le, TakeU8, TakeU16, TakeU32, TakeU64;
    var a := Le(h.lastBeat, 8);
    var b := Le(h.spawnSeq, 4);
    var c := Le(h.nextDeadline, 8);
    var d := Le(h.nextGoalId, 2);
    var e := Le(h.nextStamp, 4);
    var i := Le(h.digest, 8);
    Regroup([h.entries], i, rest);
    Regroup([h.goals], [h.entries] + i, rest);
    Regroup(e, [h.goals] + ([h.entries] + i), rest);
    Regroup(d, e + ([h.goals] + ([h.entries] + i)), rest);
    Regroup(c, d + (e + ([h.goals] + ([h.entries] + i))), rest);
    Regroup(b, c + (d + (e + ([h.goals] + ([h.entries] + i)))), rest);
    Regroup(a, b + (c + (d + (e + ([h.goals] + ([h.entries] + i))))), rest);
    U64Back(h.lastBeat, b + (c + (d + (e + ([h.goals] + ([h.entries] + (i + rest)))))));
    U32Back(h.spawnSeq, c + (d + (e + ([h.goals] + ([h.entries] + (i + rest))))));
    U64Back(h.nextDeadline, d + (e + ([h.goals] + ([h.entries] + (i + rest)))));
    U16Back(h.nextGoalId, e + ([h.goals] + ([h.entries] + (i + rest))));
    U32Back(h.nextStamp, [h.goals] + ([h.entries] + (i + rest)));
    U8Back(h.goals, [h.entries] + (i + rest));
    U8Back(h.entries, i + rest);
    U64Back(h.digest, rest);
  }

  lemma FieldsThere(x: bytes)
    requires TakeFields(x).Ok?
    ensures var p := TakeFields(x).value; x == FieldBytes(p.0) + p.1 && p.0.Within()
  {
    hide Le, TakeU8, TakeU16, TakeU32, TakeU64;
    var p0 := TakeU64(x).value;
    U64There(x);
    var p1 := TakeU32(p0.1).value;
    U32There(p0.1);
    var p2 := TakeU64(p1.1).value;
    U64There(p1.1);
    var p3 := TakeU16(p2.1).value;
    U16There(p2.1);
    var p4 := TakeU32(p3.1).value;
    U32There(p3.1);
    var p5 := TakeU8(p4.1).value;
    U8There(p4.1);
    var p6 := TakeU8(p5.1).value;
    U8There(p5.1);
    var p7 := TakeU64(p6.1).value;
    U64There(p6.1);
    var a := Le(p0.0, 8);
    var b := Le(p1.0, 4);
    var c := Le(p2.0, 8);
    var d := Le(p3.0, 2);
    var e := Le(p4.0, 4);
    var i := Le(p7.0, 8);
    var rest := p7.1;
    Regroup([p6.0], i, rest);
    Regroup([p5.0], [p6.0] + i, rest);
    Regroup(e, [p5.0] + ([p6.0] + i), rest);
    Regroup(d, e + ([p5.0] + ([p6.0] + i)), rest);
    Regroup(c, d + (e + ([p5.0] + ([p6.0] + i))), rest);
    Regroup(b, c + (d + (e + ([p5.0] + ([p6.0] + i)))), rest);
    Regroup(a, b + (c + (d + (e + ([p5.0] + ([p6.0] + i))))), rest);
  }

  /** The version is checked before anything else. */
  function DecodeHeader(b: bytes): Result<Header, Error> {
    if b == [] then Err(SnapshotTruncated)
    else if b[0] != VERSION then Err(SnapshotVersionMismatch(b[0]))
    else
      var p :- TakeFields(b[1..]);
      if p.1 != [] then Err(SnapshotCorrupt) else Ok(p.0)
  }

  lemma HeaderLength(h: Header)
    ensures |HeaderBytes(h)| == HEADER_BYTES
  {
    hide Le;
  }

  /** A header decodes from exactly its own bytes. */
  lemma HeaderExact(b: bytes, h: Header)
    ensures DecodeHeader(b) == Ok(h) <==> h.Within() && b == HeaderBytes(h)
  {
    hide FieldBytes, TakeFields;
    if h.Within() && b == HeaderBytes(h) {
      assert b[1..] == FieldBytes(h) + [];
      FieldsBack(h, []);
    }
    if DecodeHeader(b) == Ok(h) {
      FieldsThere(b[1..]);
      assert b == [b[0]] + b[1..];
    }
  }
}
