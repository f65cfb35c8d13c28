/** What a harvester's short list stands for: the last five of all the entries
    the run earned, each key at its latest. */
module HarvestMeaning {
  import opened Words
  import opened Core
  import opened Memory
  import opened Mask
  import opened MaskShapes
  import opened MaskDevice
  import opened Harvest

  // The run as a whole.

  /** The last request among the first `n` events. */
  function OpenAt(events: seq<RunEvent>, n: nat): (r: Option<nat>)
    requires n <= |events|
    ensures r.Some? ==> r.value < n && events[r.value].Requested? && forall k :: r.value < k < n ==> !events[k].Requested?
  {
    if n == 0 then None else if events[n - 1].Requested? then Some(n - 1) else OpenAt(events, n - 1)
  }

  /** The last successful observation for `id` among events `i` to `j`. */
  ghost function LastValue(events: seq<RunEvent>, i: nat, j: nat, id: u32): Option<note>
    requires i <= j <= |events|
    decreases j
  {
    if i == j then None
    else
      match events[j - 1]
      case Observed(n, ok, payload) => if n == id && ok then Note(payload) else LastValue(events, i, j - 1, id)
      case _ => LastValue(events, i, j - 1, id)
  }

  /** The last verification for `id` among events `i` to `j`. */
  function LastVerdict(events: seq<RunEvent>, i: nat, j: nat, id: u32): bool
    requires i <= j <= |events|
    decreases j
  {
    if i == j then false
    else
      match events[j - 1]
      case Verified(n, passed) => if n == id then passed else LastVerdict(events, i, j - 1, id)
      case _ => LastVerdict(events, i, j - 1, id)
  }

  /** The effect requested at `i`, as it stands after `j` events. */
  ghost function Effect(tools: Tools, events: seq<RunEvent>, i: nat, j: nat): Open
    requires i < j <= |events| && events[i].Requested?
  {
    var id := events[i].id;
    Opened(tools, events[i]).(value := LastValue(events, i + 1, j, id), verified := LastVerdict(events, i + 1, j, id))
  }

  ghost function EffectAt(tools: Tools, events: seq<RunEvent>, n: nat): Option<Open>
    requires n <= |events|
  {
    match OpenAt(events, n) case None => None case Some(i) => Some(Effect(tools, events, i, n))
  }

  function Listed(e: Option<Entry>): seq<Entry> {
    match e case None => [] case Some(x) => [x]
  }

  /** Everything earned by effects that a later request closed. */
  ghost function EarnedBy(tools: Tools, p: Provenance, events: seq<RunEvent>, n: nat): seq<Entry>
    requires n <= |events|
  {
    if n == 0 then []
    else if events[n - 1].Requested? && EffectAt(tools, events, n - 1).Some? then
      EarnedBy(tools, p, events, n - 1) + Listed(Earned(p, EffectAt(tools, events, n - 1).value))
    else EarnedBy(tools, p, events, n - 1)
  }

  /** And by the effect still open at the end. */
  ghost function AllEarned(tools: Tools, p: Provenance, events: seq<RunEvent>): seq<Entry> {
    var last := EffectAt(tools, events, |events|);
    EarnedBy(tools, p, events, |events|) + if last.Some? then Listed(Earned(p, last.value)) else []
  }

  /** Each key's earlier occurrences removed. */
  function Latest(entries: seq<Entry>): seq<Entry> {
    if entries == [] then []
    else
      var last := entries[|entries| - 1];
      Without(Latest(entries[..|entries| - 1]), last.key) + [last]
  }

  function LastFive(entries: seq<Entry>): (r: seq<Entry>)
    ensures |r| <= MAX_OBSERVATIONS
  {
    if |entries| <= MAX_OBSERVATIONS then entries else entries[|entries| - MAX_OBSERVATIONS..]
  }

  // Superseding.

  ghost predicate Distinct(entries: seq<Entry>) {
    forall i, j :: 0 <= i < j < |entries| ==> entries[i].key != entries[j].key
  }

  predicate Holds(entries: seq<Entry>, key: Key) {
    exists i :: 0 <= i < |entries| && entries[i].key == key
  }

  lemma WithoutSnoc(entries: seq<Entry>, last: Entry, key: Key)
    ensures Without(entries + [last], key) == Without(entries, key) + if last.key == key then [] else [last]
  {
    assert (entries + [last])[..|entries|] == entries;
  }

  lemma {:induction false} WithoutJoins(a: seq<Entry>, b: seq<Entry>, key: Key)
    ensures Without(a + b, key) == Without(a, key) + Without(b, key)
  {
    hide Without;
    if b == [] {
      assert a + b == a && Without(a, key) + [] == Without(a, key);
      assert Without(b, key) == [] by { WithoutNone(key); }
    } else {
      var init, last := b[..|b| - 1], b[|b| - 1];
      assert b == init + [last];
      WithoutJoins(a, init, key);
      Regroup(a, init, [last]);
      WithoutSnoc(a + init, last, key);
      WithoutSnoc(init, last, key);
      Regroup(Without(a, key), Without(init, key), if last.key == key then [] else [last]);
    }
  }

  lemma WithoutNone(key: Key)
    ensures Without([], key) == []
  {
  }

  lemma {:induction false} WithoutAbsent(entries: seq<Entry>, key: Key)
    requires !Holds(entries, key)
    ensures Without(entries, key) == entries
  {
    if entries != [] {
      var n := |entries| - 1;
      assert entries[n].key != key;
      WithoutAbsent(entries[..n], key);
    }
  }

  lemma {:induction false} WithoutOne(entries: seq<Entry>, key: Key)
    requires Distinct(entries) && Holds(entries, key)
    ensures |Without(entries, key)| == |entries| - 1
  {
    var n := |entries| - 1;
    if entries[n].key == key {
      WithoutAbsent(entries[..n], key);
    } else {
      assert Holds(entries[..n], key) by {
        var i :| 0 <= i < |entries| && entries[i].key == key;
        assert entries[..n][i].key == key;
      }
      WithoutOne(entries[..n], key);
    }
  }

  /** With distinct keys, superseding removes the one entry under the key. */
  lemma SupersededIs(entries: seq<Entry>, key: Key)
    requires Distinct(entries)
    ensures Superseded(entries, key) == Without(entries, key)
  {
    hide Without, KeyIndex;
    match KeyIndex(entries, key) {
      case None => WithoutAbsent(entries, key);
      case Some(k) =>
        var a, e, c := entries[..k], entries[k], entries[k + 1..];
        assert entries == a + ([e] + c);
        RemovedFrom(a, e, c);
    }
  }

  lemma RemovedFrom(a: seq<Entry>, e: Entry, c: seq<Entry>)
    requires Distinct(a + ([e] + c))
    ensures Without(a + ([e] + c), e.key) == a + c
  {
    hide Without;
    var all := a + ([e] + c);
    assert all[|a|] == e;
    assert !Holds(a, e.key) by { assert forall i :: 0 <= i < |a| ==> all[i] == a[i]; }
    assert !Holds(c, e.key) by { assert forall i :: 0 <= i < |c| ==> all[|a| + 1 + i] == c[i]; }
    WithoutJoins(a, [e] + c, e.key);
    WithoutJoins([e], c, e.key);
    WithoutAbsent(a, e.key);
    WithoutAbsent(c, e.key);
    WithoutFirst(e);
    assert [] + c == c;
  }

  lemma WithoutFirst(e: Entry)
    ensures Without([e], e.key) == []
  {
    assert [e][..0] == [] && Without([], e.key) == [];
  }

  lemma {:induction false} WithoutIn(entries: seq<Entry>, key: Key)
    ensures forall e :: e in Without(entries, key) <==> e in entries && e.key != key
  {
    if entries != [] {
      var n := |entries| - 1;
      WithoutIn(entries[..n], key);
      assert entries == entries[..n] + [entries[n]];
    }
  }

  lemma {:induction false} WithoutDistinct(entries: seq<Entry>, key: Key)
    requires Distinct(entries)
    ensures Distinct(Without(entries, key))
  {
    if entries != [] {
      var n := |entries| - 1;
      var kept := Without(entries[..n], key);
      WithoutDistinct(entries[..n], key);
      WithoutIn(entries[..n], key);
      forall i | 0 <= i < |kept| ensures kept[i].key != entries[n].key {
        assert kept[i] in entries[..n];
      }
    }
  }

  lemma DistinctSnoc(kept: seq<Entry>, e: Entry)
    requires Distinct(kept) && forall i :: 0 <= i < |kept| ==> kept[i].key != e.key
    ensures Distinct(kept + [e])
  {
  }

  lemma {:induction false} LatestDistinct(entries: seq<Entry>)
    ensures Distinct(Latest(entries))
    ensures forall e :: e in Latest(entries) ==> e in entries
  {
    hide Without, Distinct;
    if entries == [] {
      assert Distinct([]) by { NoneDistinct(); }
    } else {
      var init, last := entries[..|entries| - 1], entries[|entries| - 1];
      LatestDistinct(init);
      WithoutDistinct(Latest(init), last.key);
      WithoutIn(Latest(init), last.key);
      var kept := Without(Latest(init), last.key);
      forall i | 0 <= i < |kept| ensures kept[i].key != last.key {
        assert kept[i] in kept;
      }
      DistinctSnoc(kept, last);
    }
  }

  lemma NoneDistinct()
    ensures Distinct([])
  {
  }

  /** Keeping one more in the short list is superseding it in the whole list
      and looking at its last five. */
  lemma KeepIsLatest(entries: seq<Entry>, e: Entry)
    ensures Keep(LastFive(Latest(entries)), e) == LastFive(Latest(entries + [e]))
  {
    hide Without, Latest, Keep, LastFive, Distinct;
    LatestDistinct(entries);
    LatestSnoc(entries, e);
    var all := Latest(entries);
    if |all| <= MAX_OBSERVATIONS {
      KeepInShort(all, e);
    } else {
      KeepInLong(all, e);
    }
  }

  lemma KeepInShort(all: seq<Entry>, e: Entry)
    requires Distinct(all) && |all| <= MAX_OBSERVATIONS
    ensures Keep(LastFive(all), e) == LastFive(Without(all, e.key) + [e])
  {
    hide Without, Superseded, Distinct, LastFive;
    SupersededIs(all, e.key);
    ShortLast(all, Without(all, e.key), e);
  }

  lemma ShortLast(all: seq<Entry>, w: seq<Entry>, e: Entry)
    requires |all| <= MAX_OBSERVATIONS && |w| <= MAX_OBSERVATIONS
    ensures LastFive(all) == all
    ensures LastFive(w + [e]) == (if |w| >= MAX_OBSERVATIONS then w[1..] else w) + [e]
  {
    if |w| == MAX_OBSERVATIONS {
      DropJoined(w, [e]);
    }
  }

  lemma DropJoined(w: seq<Entry>, t: seq<Entry>)
    requires w != []
    ensures (w + t)[1..] == w[1..] + t
  {
  }

  lemma KeepInLong(all: seq<Entry>, e: Entry)
    requires Distinct(all) && |all| > MAX_OBSERVATIONS
    ensures Keep(LastFive(all), e) == LastFive(Without(all, e.key) + [e])
  {
    hide Without, Superseded, Distinct, Holds;
    var cut := |all| - MAX_OBSERVATIONS;
    var a, b := all[..cut], all[cut..];
    assert all == a + b;
    WithoutJoins(a, b, e.key);
    TailDistinct(a, b);
    SupersededIs(b, e.key);
    var wa, wb := Without(a, e.key), Without(b, e.key);
    if Holds(b, e.key) {
      WithoutOne(b, e.key);
      assert !Holds(a, e.key) by { Apart(a, b, e.key); }
      WithoutAbsent(a, e.key);
    } else {
      WithoutAbsent(b, e.key);
    }
    LastOfJoined(wa, wb, e);
  }

  lemma TailDistinct(a: seq<Entry>, b: seq<Entry>)
    requires Distinct(a + b)
    ensures Distinct(b)
  {
    var all := a + b;
    assert forall i :: 0 <= i < |b| ==> b[i] == all[|a| + i];
  }

  lemma Apart(a: seq<Entry>, b: seq<Entry>, key: Key)
    requires Distinct(a + b) && Holds(b, key)
    ensures !Holds(a, key)
  {
    var all := a + b;
    var j :| 0 <= j < |b| && b[j].key == key;
    assert all[|a| + j].key == key;
    assert forall i :: 0 <= i < |a| ==> all[i] == a[i];
  }

  lemma LastOfJoined(wa: seq<Entry>, wb: seq<Entry>, e: Entry)
    requires |wb| == MAX_OBSERVATIONS || (|wb| == MAX_OBSERVATIONS - 1 && wa != [])
    ensures LastFive((wa + wb) + [e]) == (if |wb| >= MAX_OBSERVATIONS then wb[1..] else wb) + [e]
  {
  }

  lemma LatestSnoc(entries: seq<Entry>, e: Entry)
    ensures Latest(entries + [e]) == Without(Latest(entries), e.key) + [e]
  {
    assert (entries + [e])[..|entries|] == entries;
  }

  lemma KeepEarned(entries: seq<Entry>, e: Option<Entry>)
    ensures (match e case None => LastFive(Latest(entries)) case Some(x) => Keep(LastFive(Latest(entries)), x)) == LastFive(Latest(entries + Listed(e)))
  {
    hide Keep, LastFive, Latest;
    match e {
      case None => assert entries + [] == entries;
      case Some(x) => KeepIsLatest(entries, x);
    }
  }

  // The run.

  ghost predicate Stands(tools: Tools, p: Provenance, events: seq<RunEvent>, n: nat, h: Harvester)
    requires n <= |events|
  {
    && h.provenance == p
    && h.open == EffectAt(tools, events, n)
    && h.kept == LastFive(Latest(EarnedBy(tools, p, events, n)))
  }

  lemma StepStands(tools: Tools, p: Provenance, events: seq<RunEvent>, n: nat, h: Harvester)
    requires n < |events| && Stands(tools, p, events, n, h)
    ensures Stands(tools, p, events, n + 1, Harvest.Step(tools, h, events[n]))
  {
    hide Keep, LastFive, Latest, Earned, Note;
    match events[n] {
      case Requested(_, _, _) =>
        if h.open.Some? {
          KeepEarned(EarnedBy(tools, p, events, n), Earned(p, h.open.value));
        }
      case _ =>
    }
  }

  lemma {:induction false} RunStands(tools: Tools, p: Provenance, events: seq<RunEvent>, n: nat)
    requires n <= |events|
    ensures Stands(tools, p, events, n, Run(tools, Fresh(p), events[..n]))
  {
    hide Harvest.Step, EarnedBy, EffectAt, Stands;
    if n == 0 {
      StartStands(tools, p, events);
      assert events[..0] == [];
    } else {
      RunStands(tools, p, events, n - 1);
      StepStands(tools, p, events, n - 1, Run(tools, Fresh(p), events[..n - 1]));
      assert events[..n][..n - 1] == events[..n - 1];
    }
  }

  lemma StartStands(tools: Tools, p: Provenance, events: seq<RunEvent>)
    ensures Stands(tools, p, events, 0, Fresh(p))
  {
  }

  /** What a finished run keeps: the last five entries it earned, after removing
      each key's earlier occurrences. */
  lemma KeptIsLatestFive(tools: Tools, p: Provenance, events: seq<RunEvent>)
    ensures Close(Run(tools, Fresh(p), events)).kept == LastFive(Latest(AllEarned(tools, p, events)))
  {
    hide Run, EarnedBy, EffectAt, Keep, LastFive, Latest, Earned;
    RunStands(tools, p, events, |events|);
    assert events[..|events|] == events;
    var h := Run(tools, Fresh(p), events);
    var before := EarnedBy(tools, p, events, |events|);
    assert before + [] == before;
    if h.open.Some? {
      KeepEarned(before, Earned(p, h.open.value));
    }
  }

  /** Events `i` to `j` are those of one effect: its request, and all until the
      next request or the end. */
  ghost predicate OneEffect(events: seq<RunEvent>, i: nat, j: nat) {
    && i < j <= |events| && events[i].Requested?
    && (forall k :: i < k < j ==> !events[k].Requested?)
    && (j < |events| ==> events[j].Requested?)
  }

  lemma {:induction false} EarnedFrom(tools: Tools, p: Provenance, events: seq<RunEvent>, n: nat, e: Entry) returns (i: nat, j: nat)
    requires n <= |events| && e in EarnedBy(tools, p, events, n)
    ensures j < n && OneEffect(events, i, j) && Earned(p, Effect(tools, events, i, j)) == Some(e)
  {
    hide Earned, Effect;
    if e in EarnedBy(tools, p, events, n - 1) {
      i, j := EarnedFrom(tools, p, events, n - 1, e);
    } else {
      i, j := OpenAt(events, n - 1).value, n - 1;
    }
  }

  lemma EffectOf(tools: Tools, p: Provenance, events: seq<RunEvent>, e: Entry) returns (i: nat, j: nat)
    requires e in AllEarned(tools, p, events)
    ensures OneEffect(events, i, j) && Earned(p, Effect(tools, events, i, j)) == Some(e)
  {
    hide Earned, Effect, EarnedBy;
    var n := |events|;
    if e in EarnedBy(tools, p, events, n) {
      i, j := EarnedFrom(tools, p, events, n, e);
    } else {
      i, j := OpenAt(events, n).value, n;
    }
  }

  /** Event `k`, before event `j`, is the last to verify `id`. */
  ghost predicate VerifiesLast(events: seq<RunEvent>, k: nat, j: nat, id: u32) {
    && k < j <= |events| && events[k].Verified? && events[k].id == id
    && forall m :: k < m < j ==> !(events[m].Verified? && events[m].id == id)
  }

  /** Event `k`, before event `j`, is the last successful observation for `id`. */
  ghost predicate ObservesLast(events: seq<RunEvent>, k: nat, j: nat, id: u32) {
    && k < j <= |events| && events[k].Observed? && events[k].id == id && events[k].ok
    && forall m :: k < m < j ==> !(events[m].Observed? && events[m].id == id && events[m].ok)
  }

  lemma {:induction false} VerdictIs(events: seq<RunEvent>, i: nat, j: nat, id: u32) returns (k: nat)
    requires i <= j <= |events| && LastVerdict(events, i, j, id)
    ensures i <= k && VerifiesLast(events, k, j, id) && events[k].passed
    decreases j
  {
    if events[j - 1].Verified? && events[j - 1].id == id {
      k := j - 1;
    } else {
      k := VerdictIs(events, i, j - 1, id);
    }
  }

  lemma {:induction false} ValueIs(events: seq<RunEvent>, i: nat, j: nat, id: u32) returns (k: nat)
    requires i <= j <= |events| && LastValue(events, i, j, id).Some?
    ensures i <= k && ObservesLast(events, k, j, id) && Note(events[k].payload) == LastValue(events, i, j, id)
    decreases j
  {
    hide Note;
    if events[j - 1].Observed? && events[j - 1].id == id && events[j - 1].ok {
      k := j - 1;
    } else {
      k := ValueIs(events, i, j - 1, id);
    }
  }

  /** Every kept observation is one effect's own: its request's key and label,
      and what the last successful observation before the effect closed said;
      and unless the tool only reads, the last verdict on that effect, before it
      closed, was a pass. */
  lemma KeptIsVerified(tools: Tools, p: Provenance, events: seq<RunEvent>, e: Entry) returns (i: nat, j: nat, seen: nat)
    requires e in Close(Run(tools, Fresh(p), events)).kept
    ensures OneEffect(events, i, j)
    ensures e.key == Observation(events[i].tool, tools.digest(events[i].args))
    ensures Some(e.text) == Note(LabelOf(tools, events[i].tool, events[i].args))
    ensures i < seen && ObservesLast(events, seen, j, events[i].id) && Some(e.value) == Note(events[seen].payload)
    ensures tools.Mutating(events[i].tool) ==>
              exists k :: i < k && VerifiesLast(events, k, j, events[i].id) && events[k].passed
  {
    hide Run, EarnedBy, Latest, Note, Tools.Mutating, LastVerdict, LastValue, OpenAt;
    KeptIsLatestFive(tools, p, events);
    var all := AllEarned(tools, p, events);
    LatestDistinct(all);
    assert e in all;
    i, j := EffectOf(tools, p, events, e);
    var o := Effect(tools, events, i, j);
    assert e.key == o.key && Some(e.text) == o.text && Some(e.value) == o.value;
    seen := ValueIs(events, i + 1, j, events[i].id);
    if tools.Mutating(events[i].tool) {
      var k := VerdictIs(events, i + 1, j, events[i].id);
    }
  }

  lemma {:induction false} VerdictOf(events: seq<RunEvent>, i: nat, j: nat, id: u32, k: nat)
    requires i <= k && VerifiesLast(events, k, j, id)
    ensures LastVerdict(events, i, j, id) == events[k].passed
    decreases j
  {
    if k < j - 1 {
      VerdictOf(events, i, j - 1, id, k);
    }
  }

  lemma {:induction false} ValueOf(events: seq<RunEvent>, i: nat, j: nat, id: u32, k: nat)
    requires i <= k && ObservesLast(events, k, j, id)
    ensures LastValue(events, i, j, id) == Note(events[k].payload)
    decreases j
  {
    hide Note;
    if k < j - 1 {
      ValueOf(events, i, j - 1, id, k);
    }
  }

  /** An effect earns its entry whenever it may: its request's label and the
      last successful observation both ingest, and its tool only reads or the
      last verdict passed. */
  lemma EarnedBack(tools: Tools, p: Provenance, events: seq<RunEvent>, i: nat, j: nat, seen: nat, verdict: nat, text: note, value: note)
    requires OneEffect(events, i, j)
    requires i < seen && ObservesLast(events, seen, j, events[i].id)
    requires Note(LabelOf(tools, events[i].tool, events[i].args)) == Some(text) && Note(events[seen].payload) == Some(value)
    requires tools.Mutating(events[i].tool) ==> i < verdict && VerifiesLast(events, verdict, j, events[i].id) && events[verdict].passed
    ensures Earned(p, Effect(tools, events, i, j)) ==
              Some(Entry(Observation(events[i].tool, tools.digest(events[i].args)), text, value, p, 0))
  {
    hide Note, Tools.Mutating, LabelOf, LastValue, LastVerdict;
    ValueOf(events, i + 1, j, events[i].id, seen);
    if tools.Mutating(events[i].tool) {
      VerdictOf(events, i + 1, j, events[i].id, verdict);
    }
  }

  /** What a request is called: the tool's name, a space, the arguments. A tool
      the catalog does not know is called `tool` and needs a verification. */
  lemma LabelExact(tools: Tools, tool: u8, args: bytes)
    ensures match tools.catalog(tool) {
              case Some((name, readOnly)) => LabelOf(tools, tool, args) == name + [' ' as int] + args && tools.Mutating(tool) == !readOnly
              case None => tools.Mutating(tool) && LabelOf(tools, tool, args) == ['t' as int, 'o' as int, 'o' as int, 'l' as int, ' ' as int] + args
            }
  {
    assert Ascii("tool") == ['t' as int, 'o' as int, 'o' as int, 'l' as int];
  }

  const NAMES: seq<(TerminalStatus, string)> := [
    (Completed, "completed"), (NeedsInput, "needs_input"), (Denied, "denied"), (BudgetExhausted, "budget_exhausted"), (Stuck, "stuck"),
    (ToolUnavailable, "tool_unavailable"), (ModelInvalid, "model_invalid"), (StorageFault, "storage_fault"), (Incompatible, "incompatible")
  ]

  lemma NamesExact(k: nat)
    requires k < |NAMES|
    ensures Reads(StatusName(NAMES[k].0), 0, NAMES[k].1) && |StatusName(NAMES[k].0)| == |NAMES[k].1|
  {
  }

  /** The outcome a finished run adds: under the goal, labelled with its number,
      saying the status and, when both fit 512 bytes, the summary after a space. */
  lemma OutcomeExact(p: Provenance, goal: goalId, s: TerminalStatus, summary: bytes)
    ensures var title := ['g' as int, 'o' as int, 'a' as int, 'l' as int, '#' as int] + Decimal(goal);
            var name := StatusName(s);
            var says := if summary != [] && |name| + 1 + |summary| <= 512 then name + [' ' as int] + summary else name;
            && Note(title).Some? && Note(says).Some?
            && OutcomeEntry(p, goal, s, summary) == Ok(Entry(Outcome(goal), Note(title).value, Note(says).value, p, 0))
  {
    hide Decimal, Ingested, StatusName;
    assert Ascii("goal#") == ['g' as int, 'o' as int, 'a' as int, 'l' as int, '#' as int];
    OutcomeFits(p, goal, s, summary);
  }

  /** Finishing answers what was kept, in order, and the outcome last. */
  lemma FinishExact(tools: Tools, p: Provenance, events: seq<RunEvent>, goal: goalId, s: TerminalStatus, summary: bytes)
    ensures OutcomeEntry(p, goal, s, summary).Ok?
    ensures Finish(Run(tools, Fresh(p), events), goal, s, summary) ==
              Ok(LastFive(Latest(AllEarned(tools, p, events))) + [OutcomeEntry(p, goal, s, summary).value])
  {
    hide Run, Latest, AllEarned, OutcomeEntry, LastFive;
    Harvest.RunKeeps(tools, Fresh(p), events);
    KeptIsLatestFive(tools, p, events);
    OutcomeFits(p, goal, s, summary);
  }
}
