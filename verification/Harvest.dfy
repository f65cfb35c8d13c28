/** Harvest: the entries a run's committed events earn, streamed through one
    open effect and a short list, and what that list means. */
module Harvest {
  import opened Words
  import opened Core
  import opened Mask
  import opened MaskProofs
  import opened MaskDevice
  import opened Memory

  const MAX_HARVEST := 6
  const MAX_OBSERVATIONS := 5

  /** The tool catalog (name, and whether it only reads) and the digest of
      arguments. */
  datatype Tools = Tools(catalog: u8 -> Option<(bytes, bool)>, digest: bytes -> u64) {
    function Name(tool: u8): bytes {
      match catalog(tool) case Some((name, _)) => name case None => Ascii("tool")
    }

    /** A tool the catalog does not know needs a verification too. */
    predicate Mutating(tool: u8) {
      match catalog(tool) case Some((_, readOnly)) => !readOnly case None => true
    }
  }

  datatype RunEvent =
    | Requested(id: u32, tool: u8, args: bytes)
    | Observed(id: u32, ok: bool, payload: bytes)
    | Verified(id: u32, passed: bool)

  datatype Open = Open(id: u32, key: Key, text: Option<note>, mutating: bool, value: Option<note>, verified: bool)

  datatype Harvester = Harvester(provenance: Provenance, open: Option<Open>, kept: seq<Entry>)

  ghost function Note(raw: bytes): Option<note> {
    match Ingested(raw) case Ok(n) => Some(n) case Err(_) => None
  }

  function LabelOf(tools: Tools, tool: u8, args: bytes): bytes {
    tools.Name(tool) + [0x20] + args
  }

  /** The effect a request opens. */
  ghost function Opened(tools: Tools, e: RunEvent): Open
    requires e.Requested?
  {
    Open(e.id, Observation(e.tool, tools.digest(e.args)), Note(LabelOf(tools, e.tool, e.args)), tools.Mutating(e.tool), None, false)
  }

  /** The entry an effect earns: read, or verified, with a label and a value. */
  function Earned(p: Provenance, o: Open): Option<Entry> {
    if o.text.Some? && o.value.Some? && (o.mutating ==> o.verified) then Some(Entry(o.key, o.text.value, o.value.value, p, 0)) else None
  }

  /** The entries less the first under `key`. */
  function Superseded(entries: seq<Entry>, key: Key): (r: seq<Entry>)
    ensures |r| <= |entries|
  {
    match KeyIndex(entries, key)
    case None => entries
    case Some(k) => entries[..k] + entries[k + 1..]
  }

  /** Append, superseding the same key, or dropping the oldest for room. */
  function Keep(kept: seq<Entry>, e: Entry): (r: seq<Entry>)
    ensures |kept| <= MAX_OBSERVATIONS ==> |r| <= MAX_OBSERVATIONS
  {
    var others := Superseded(kept, e.key);
    (if |others| >= MAX_OBSERVATIONS then others[1..] else others) + [e]
  }

  function Close(h: Harvester): Harvester {
    match h.open
    case None => h
    case Some(o) =>
      match Earned(h.provenance, o)
      case None => h.(open := None)
      case Some(e) => h.(open := None, kept := Keep(h.kept, e))
  }

  ghost function Step(tools: Tools, h: Harvester, e: RunEvent): Harvester {
    match e
    case Requested(_, _, _) => Close(h).(open := Some(Opened(tools, e)))
    case Observed(n, ok, payload) =>
      if h.open.Some? && h.open.value.id == n && ok then h.(open := Some(h.open.value.(value := Note(payload)))) else h
    case Verified(n, passed) =>
      if h.open.Some? && h.open.value.id == n then h.(open := Some(h.open.value.(verified := passed))) else h
  }

  function Fresh(p: Provenance): Harvester {
    Harvester(p, None, [])
  }

  function Resume(p: Provenance, entries: seq<Entry>): Result<Harvester, Error> {
    if |entries| > MAX_OBSERVATIONS then Err(MemoryFull) else Ok(Harvester(p, None, entries))
  }

  function StatusName(s: TerminalStatus): bytes {
    match s
    case Completed => Ascii("completed")
    case NeedsInput => Ascii("needs_input")
    case Denied => Ascii("denied")
    case BudgetExhausted => Ascii("budget_exhausted")
    case Stuck => Ascii("stuck")
    case ToolUnavailable => Ascii("tool_unavailable")
    case ModelInvalid => Ascii("model_invalid")
    case StorageFault => Ascii("storage_fault")
    case Incompatible => Ascii("incompatible")
  }

  /** What the outcome says: the status, and the summary when it fits. */
  function OutcomeText(s: TerminalStatus, summary: bytes): bytes {
    var name := StatusName(s);
    if summary == [] || |name| + 1 + |summary| > INPUT_MAX then name else name + [0x20] + summary
  }

  function GoalLabel(goal: goalId): bytes {
    Ascii("goal#") + Decimal(goal)
  }

  ghost function OutcomeEntry(p: Provenance, goal: goalId, s: TerminalStatus, summary: bytes): Result<Entry, Error> {
    var text :- Ingested(GoalLabel(goal));
    var value :- Ingested(OutcomeText(s, summary));
    Ok(Entry(Outcome(goal), text, value, p, 0))
  }

  /** The observations kept, then the outcome. */
  ghost function Finish(h: Harvester, goal: goalId, s: TerminalStatus, summary: bytes): Result<seq<Entry>, Error> {
    var kept := Close(h).kept;
    var outcome :- OutcomeEntry(h.provenance, goal, s, summary);
    if |kept| >= MAX_HARVEST then Err(MemoryFull) else Ok(kept + [outcome])
  }

  // Whole runs.

  ghost function Run(tools: Tools, h: Harvester, events: seq<RunEvent>): Harvester
    decreases events
  {
    if events == [] then h else Step(tools, Run(tools, h, events[..|events| - 1]), events[|events| - 1])
  }

  lemma {:induction false} RunKeeps(tools: Tools, h: Harvester, events: seq<RunEvent>)
    requires |h.kept| <= MAX_OBSERVATIONS
    ensures |Run(tools, h, events).kept| <= MAX_OBSERVATIONS && Run(tools, h, events).provenance == h.provenance
  {
    hide Note, Keep, Earned, Opened;
    if events != [] {
      RunKeeps(tools, h, events[..|events| - 1]);
    }
  }

  lemma {:induction false} RunSplits(tools: Tools, h: Harvester, a: seq<RunEvent>, b: seq<RunEvent>)
    ensures Run(tools, h, a + b) == Run(tools, Run(tools, h, a), b)
  {
    hide Step;
    if b == [] {
      assert a + b == a;
    } else {
      var n := |b| - 1;
      RunSplits(tools, h, a, b[..n]);
      assert (a + b)[..|a + b| - 1] == a + b[..n];
    }
  }

  // Segments.

  /** Sealing changes nothing a later request would not have. */
  lemma SealedSteps(tools: Tools, h: Harvester, e: RunEvent)
    requires e.Requested?
    ensures Step(tools, Close(h), e) == Step(tools, h, e)
  {
    hide Earned, Keep, Opened;
  }

  /** A run cut at a request boundary: seal, carry what is kept, resume. */
  ghost function Carried(h: Harvester): Result<Harvester, Error> {
    Resume(h.provenance, Close(h).kept)
  }

  /** Carrying and resuming ends like an unbroken run. */
  lemma {:induction false} ResumedRun(tools: Tools, h: Harvester, events: seq<RunEvent>)
    requires |h.kept| <= MAX_OBSERVATIONS && (events != [] ==> events[0].Requested?)
    ensures Carried(h).Ok?
    ensures Close(Run(tools, Carried(h).value, events)) == Close(Run(tools, h, events))
    ensures events != [] ==> Run(tools, Carried(h).value, events) == Run(tools, h, events)
  {
    hide Earned, Opened, Note, Superseded;
    assert Carried(h) == Ok(Close(h));
    if events != [] {
      var n := |events| - 1;
      if n == 0 {
        SealedSteps(tools, h, events[0]);
        assert Run(tools, h, events[..0]) == h && Run(tools, Close(h), events[..0]) == Close(h);
      } else {
        ResumedRun(tools, h, events[..n]);
      }
    }
  }

  /** However often a run is continued as new, its harvest is that of one
      harvester that saw every event. */
  ghost function Segmented(tools: Tools, h: Harvester, segments: seq<seq<RunEvent>>): Result<Harvester, Error> {
    if segments == [] then Ok(h)
    else
      var n := |segments| - 1;
      var before :- Segmented(tools, h, segments[..n]);
      var carried :- Carried(before);
      Ok(Run(tools, carried, segments[n]))
  }

  function Flat(segments: seq<seq<RunEvent>>): seq<RunEvent> {
    if segments == [] then [] else Flat(segments[..|segments| - 1]) + segments[|segments| - 1]
  }

  lemma {:induction false} SegmentsAgree(tools: Tools, h: Harvester, segments: seq<seq<RunEvent>>)
    requires |h.kept| <= MAX_OBSERVATIONS
    requires forall k :: 0 <= k < |segments| && segments[k] != [] ==> segments[k][0].Requested?
    ensures Segmented(tools, h, segments).Ok?
    ensures var s := Segmented(tools, h, segments).value;
            && s.provenance == h.provenance && |s.kept| <= MAX_OBSERVATIONS
            && Close(s) == Close(Run(tools, h, Flat(segments)))
  {
    hide Close, Run;
    if segments == [] {
      RunNone(tools, h);
    } else {
      var n := |segments| - 1;
      SegmentsAgree(tools, h, segments[..n]);
      var before := Segmented(tools, h, segments[..n]).value;
      ResumedRun(tools, before, segments[n]);
      var whole := Run(tools, h, Flat(segments[..n]));
      RunKeeps(tools, h, Flat(segments[..n]));
      ResumedRun(tools, whole, segments[n]);
      CarryAlike(before, whole);
      RunSplits(tools, h, Flat(segments[..n]), segments[n]);
      RunKeeps(tools, Carried(before).value, segments[n]);
    }
  }

  lemma RunNone(tools: Tools, h: Harvester)
    ensures Run(tools, h, []) == h
  {
  }

  lemma CarryAlike(a: Harvester, b: Harvester)
    requires Close(a) == Close(b) && a.provenance == b.provenance
    ensures Carried(a) == Carried(b)
    ensures Carried(a).Ok? ==> Carried(a).value.provenance == a.provenance && |Carried(a).value.kept| <= MAX_OBSERVATIONS
  {
  }

  /** The finished harvest of a segmented run is that of the unbroken one. */
  lemma SegmentsFinishAlike(tools: Tools, p: Provenance, segments: seq<seq<RunEvent>>, goal: goalId, s: TerminalStatus, summary: bytes)
    requires forall k :: 0 <= k < |segments| && segments[k] != [] ==> segments[k][0].Requested?
    ensures Segmented(tools, Fresh(p), segments).Ok?
    ensures Finish(Segmented(tools, Fresh(p), segments).value, goal, s, summary) == Finish(Run(tools, Fresh(p), Flat(segments)), goal, s, summary)
  {
    hide Close, Run, Segmented, OutcomeEntry;
    SegmentsAgree(tools, Fresh(p), segments);
    RunKeeps(tools, Fresh(p), Flat(segments));
  }

  /** Finishing never fails. */
  lemma FinishNeverFails(tools: Tools, p: Provenance, events: seq<RunEvent>, goal: goalId, s: TerminalStatus, summary: bytes)
    ensures var r := Finish(Run(tools, Fresh(p), events), goal, s, summary); r.Ok? && 1 <= |r.value| <= MAX_HARVEST
  {
    hide Run, Keep, Earned, Ingested;
    RunKeeps(tools, Fresh(p), events);
    var h := Run(tools, Fresh(p), events);
    assert |Close(h).kept| <= MAX_OBSERVATIONS;
    OutcomeFits(p, goal, s, summary);
  }

  lemma OutcomeFits(p: Provenance, goal: goalId, s: TerminalStatus, summary: bytes)
    ensures OutcomeEntry(p, goal, s, summary).Ok?
  {
    hide Decimal, Masked, Ascii;
    TenDigits();
    DecimalDigits(goal, 5, Ten(5));
    assert |Ascii("goal#")| == 5 && |StatusName(s)| <= 20;
  }
}
