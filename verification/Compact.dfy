/** The compact state: bounded lists folded from frames. Failed paths and open
    obligations are never dropped; the rest keep their newest entries. */
module Compact {
  import opened Words
  import opened Core

  const MAX_COMPLETED := 8
  const MAX_OPEN := 8
  const MAX_ACCEPTED := 8
  const MAX_FACTS := 16
  const MAX_FAILED := 16
  const MAX_PENDING := 8
  const MAX_FINGERPRINTS := 16

  const LAST_CODE := 10

  type errorCode = x: int | 0 <= x <= LAST_CODE

  datatype PendingKind = Approval | Verification

  datatype Fact = Fact(text: note, source: u32)
  datatype FailedPath = FailedPath(tool: u8, args: u64, error: errorCode)
  datatype Pending = Pending(kind: PendingKind, frame: u32, digest: u64) {
    predicate Same(other: Pending) {
      kind == other.kind && frame == other.frame
    }
  }

  datatype Budgets = Budgets(modelTurns: u16, inputTokens: u32, outputTokens: u32, elapsedMs: u64, radioBytes: u32, mutations: u16, consecutiveErrors: u8)
  datatype Versions = Versions(workflow: u32, model: u64, catalog: u64, policy: u64)

  /** The state as its scalars and the meaningful part of each list. */
  datatype View = View(
    objective: u64, budgets: Budgets, versions: Versions,
    completed: seq<note>, open: seq<note>, accepted: seq<u64>, facts: seq<Fact>,
    failed: seq<FailedPath>, pending: seq<Pending>, fingerprints: seq<u64>)

  function Empty(objective: u64, budgets: Budgets, versions: Versions): View {
    View(objective, budgets, versions, [], [], [], [], [], [], [])
  }

  /** Append, dropping the oldest when full. */
  function PushBounded<T>(list: seq<T>, cap: nat, x: T): (r: seq<T>)
    requires cap > 0
    ensures |list| <= cap ==> |r| <= cap
  {
    if |list| < cap then list + [x] else list[1..] + [x]
  }

  function RecordFact(v: View, f: Fact): View {
    if f in v.facts then v else v.(facts := PushBounded(v.facts, MAX_FACTS, f))
  }

  /** Refused, not dropped, when a new path finds the store full. */
  function RecordFailed(v: View, p: FailedPath): Result<View, Error> {
    if p in v.failed then Ok(v)
    else if |v.failed| >= MAX_FAILED then Err(CompactStateFull)
    else Ok(v.(failed := v.failed + [p]))
  }

  predicate Owed(list: seq<Pending>, kind: PendingKind, frame: u32) {
    exists k :: 0 <= k < |list| && list[k].kind == kind && list[k].frame == frame
  }

  function RecordPending(v: View, p: Pending): Result<View, Error> {
    if Owed(v.pending, p.kind, p.frame) then Ok(v)
    else if |v.pending| >= MAX_PENDING then Err(CompactStateFull)
    else Ok(v.(pending := v.pending + [p]))
  }

  function FirstOwed(list: seq<Pending>, kind: PendingKind, frame: u32): (r: Option<nat>)
    ensures r.Some? ==> r.value < |list| && list[r.value].kind == kind && list[r.value].frame == frame
                        && forall k :: 0 <= k < r.value ==> !(list[k].kind == kind && list[k].frame == frame)
    ensures r.None? <==> !Owed(list, kind, frame)
  {
    FirstIndex(list, (p: Pending) => p.kind == kind && p.frame == frame)
  }

  function Resolve(v: View, kind: PendingKind, frame: u32): (bool, View) {
    match FirstOwed(v.pending, kind, frame)
    case None => (false, v)
    case Some(k) => (true, v.(pending := v.pending[..k] + v.pending[k + 1..]))
  }

  datatype Progress = NewEvidence | StateChanged | SubgoalClosed | InputReceived | NoProgress

  const MODEL_DECISION: u8 := 3

  /** One frame as compaction sees it; `failure` is its error class, if any. */
  datatype Frame = Frame(id: u32, kind: u8, tool: u8, args: u64, failure: Option<errorCode>, progress: Progress, payload: bytes,
    awaitsApproval: bool, awaitsVerification: bool)

  function ProgressCode(p: Progress): u8 {
    match p
    case NewEvidence => 0
    case StateChanged => 1
    case SubgoalClosed => 2
    case InputReceived => 3
    case NoProgress => 4
  }

  /** The bytes a frame's fingerprint hashes: never its payload. */
  function FingerprintBytes(f: Frame): (r: bytes)
    ensures |r| == 16
  {
    Le(f.id, 4) + [f.kind, f.tool] + Le(f.args, 8) + [if f.failure.Some? then f.failure.value else 0, ProgressCode(f.progress)]
  }

  function Cut(payload: bytes): note {
    payload[..Min(|payload|, NOTE_MAX)]
  }

  function DigestOf(step: step64, b: bytes): u64 {
    Fold<u64>(step, FNV64_OFFSET, b)
  }

  function NoteFailure(v: View, f: Frame): Result<View, Error> {
    match f.failure case None => Ok(v) case Some(e) => RecordFailed(v, FailedPath(f.tool, f.args, e))
  }

  function NoteOwed(step: step64, v: View, f: Frame, kind: PendingKind, due: bool): Result<View, Error> {
    if due then RecordPending(v, Pending(kind, f.id, DigestOf(step, f.payload))) else Ok(v)
  }

  function NoteProgress(v: View, f: Frame): View {
    match f.progress
    case NewEvidence => if f.failure.None? then RecordFact(v, Fact(Cut(f.payload), f.id)) else v
    case SubgoalClosed => v.(completed := PushBounded(v.completed, MAX_COMPLETED, Cut(f.payload)))
    case _ => v
  }

  function NoteDecision(v: View, f: Frame): View {
    if f.kind == MODEL_DECISION then v.(accepted := PushBounded(v.accepted, MAX_ACCEPTED, f.args)) else v
  }

  function NoteFingerprint(step: step64, v: View, f: Frame): View {
    v.(fingerprints := PushBounded(v.fingerprints, MAX_FINGERPRINTS, DigestOf(step, FingerprintBytes(f))))
  }

  /** One frame folded in; on an error, what it had changed by then stays. */
  function FoldFrame(step: step64, v: View, f: Frame): (Result<(), Error>, View) {
    var a := NoteFingerprint(step, v, f);
    match NoteFailure(a, f)
    case Err(e) => (Err(e), a)
    case Ok(b) =>
      match NoteOwed(step, b, f, Approval, f.awaitsApproval)
      case Err(e) => (Err(e), b)
      case Ok(c) =>
        match NoteOwed(step, c, f, Verification, f.awaitsVerification)
        case Err(e) => (Err(e), c)
        case Ok(d) => (Ok(()), NoteDecision(NoteProgress(d, f), f))
  }

  function FoldFrames(step: step64, v: View, frames: seq<Frame>): (Result<(), Error>, View) {
    if frames == [] then (Ok(()), v)
    else
      var n := |frames| - 1;
      var (r, mid) := FoldFrames(step, v, frames[..n]);
      if r.Err? then (r, mid) else FoldFrame(step, mid, frames[n])
  }

  datatype Report = Report(framesIn: u32, framesCompacted: u32, tailKept: u8, bytesSaved: u64)

  function Bytes(frames: seq<Frame>): nat {
    if frames == [] then 0 else Bytes(frames[..|frames| - 1]) + |frames[|frames| - 1].payload|
  }

  /** Everything but the verbatim tail is compacted away. */
  function Compacted(n: nat, tailKeep: u8): (r: nat)
    ensures r <= n
  {
    n - Min(tailKeep, Min(n, 0xFF))
  }

  function ReportOf(frames: seq<Frame>, tailKeep: u8): Report {
    var n := |frames|;
    var kept := Min(tailKeep, Min(n, 0xFF));
    Report(Min(n, 0xFFFF_FFFF), Min(Compacted(n, tailKeep), 0xFFFF_FFFF), kept, Min(Bytes(frames[..Compacted(n, tailKeep)]), U64_SPAN - 1))
  }

  // What folding keeps.

  /** Two windows folded one after the other are their concatenation folded. */
  lemma {:induction false} FoldsJoin(step: step64, v: View, a: seq<Frame>, b: seq<Frame>)
    ensures var (r, mid) := FoldFrames(step, v, a);
            FoldFrames(step, v, a + b) == if r.Err? then (r, mid) else FoldFrames(step, mid, b)
  {
    hide FoldFrame;
    if b == [] {
      assert a + b == a;
      var r := FoldFrames(step, v, a).0;
      assert r.Ok? ==> r.value == ();
    } else {
      var n := |b| - 1;
      FoldsJoin(step, v, a, b[..n]);
      assert (a + b)[..|a + b| - 1] == a + b[..n];
    }
  }

  /** The lists never outgrow their storage. */
  ghost predicate Sized(v: View) {
    && |v.completed| <= MAX_COMPLETED && |v.open| <= MAX_OPEN && |v.accepted| <= MAX_ACCEPTED && |v.facts| <= MAX_FACTS
    && |v.failed| <= MAX_FAILED && |v.pending| <= MAX_PENDING && |v.fingerprints| <= MAX_FINGERPRINTS
  }

  ghost predicate NoRepeats<T(!new)>(list: seq<T>) {
    forall i, j :: 0 <= i < j < |list| ==> list[i] != list[j]
  }

  ghost predicate Apart(list: seq<Pending>) {
    forall i, j :: 0 <= i < j < |list| ==> !list[i].Same(list[j])
  }

  /** What every state a run of operations reaches is (`RunSound`). */
  ghost predicate Sound(v: View) {
    Sized(v) && NoRepeats(v.facts) && NoRepeats(v.failed) && Apart(v.pending)
  }

  lemma PushKeeps<T(!new)>(list: seq<T>, cap: nat, x: T)
    requires cap > 0 && NoRepeats(list) && x !in list
    ensures NoRepeats(PushBounded(list, cap, x))
  {
  }

  lemma SoundParts(step: step64, v: View, f: Frame, kind: PendingKind)
    requires Sound(v)
    ensures Sound(NoteFingerprint(step, v, f)) && Sound(NoteDecision(v, f))
    ensures NoteFailure(v, f).Ok? ==> Sound(NoteFailure(v, f).value)
    ensures NoteOwed(step, v, f, kind, true).Ok? ==> Sound(NoteOwed(step, v, f, kind, true).value)
  {
    hide Fold, FingerprintBytes;
  }

  lemma SoundProgress(v: View, f: Frame)
    requires Sound(v)
    ensures Sound(NoteProgress(v, f))
  {
    hide Apart;
    if f.progress.NewEvidence? && f.failure.None? && Fact(Cut(f.payload), f.id) !in v.facts {
      PushKeeps(v.facts, MAX_FACTS, Fact(Cut(f.payload), f.id));
    }
  }

  lemma FoldFrameSound(step: step64, v: View, f: Frame)
    requires Sound(v)
    ensures Sound(FoldFrame(step, v, f).1)
  {
    hide Sound, NoteFingerprint, NoteFailure, NoteProgress, NoteDecision, RecordPending;
    SoundParts(step, v, f, Approval);
    var a := NoteFingerprint(step, v, f);
    SoundParts(step, a, f, Approval);
    if NoteFailure(a, f).Ok? {
      var b := NoteFailure(a, f).value;
      SoundParts(step, b, f, Approval);
      var c := NoteOwed(step, b, f, Approval, f.awaitsApproval);
      if c.Ok? {
        SoundParts(step, c.value, f, Verification);
        var d := NoteOwed(step, c.value, f, Verification, f.awaitsVerification);
        if d.Ok? {
          SoundProgress(d.value, f);
          SoundParts(step, NoteProgress(d.value, f), f, Approval);
        }
      }
    }
  }

  lemma {:induction false} FoldSound(step: step64, v: View, frames: seq<Frame>)
    requires Sound(v)
    ensures Sound(FoldFrames(step, v, frames).1)
  {
    hide Sound, FoldFrame;
    if frames != [] {
      var n := |frames| - 1;
      FoldSound(step, v, frames[..n]);
      FoldFrameSound(step, FoldFrames(step, v, frames[..n]).1, frames[n]);
    }
  }

  /** `after` still has every failed path and obligation of `before`, first. */
  ghost predicate Holds(before: View, after: View) {
    before.failed <= after.failed && before.pending <= after.pending
  }

  /** What one frame owes the state: its failure and its obligations. */
  ghost predicate Noted(v: View, f: Frame) {
    && (f.failure.Some? ==> FailedPath(f.tool, f.args, f.failure.value) in v.failed)
    && (f.awaitsApproval ==> Owed(v.pending, Approval, f.id))
    && (f.awaitsVerification ==> Owed(v.pending, Verification, f.id))
  }

  lemma FoldFrameHolds(step: step64, v: View, f: Frame)
    ensures Holds(v, FoldFrame(step, v, f).1)
    ensures FoldFrame(step, v, f).0.Ok? ==> Noted(FoldFrame(step, v, f).1, f)
  {
    hide Fold, FingerprintBytes, RecordFact, Owed;
    var a := NoteFingerprint(step, v, f);
    if NoteFailure(a, f).Ok? {
      var b := NoteFailure(a, f).value;
      OwedNow(step, b, f, Approval, f.awaitsApproval);
      if NoteOwed(step, b, f, Approval, f.awaitsApproval).Ok? {
        var c := NoteOwed(step, b, f, Approval, f.awaitsApproval).value;
        OwedNow(step, c, f, Verification, f.awaitsVerification);
        ProgressKeeps(c, f);
        if NoteOwed(step, c, f, Verification, f.awaitsVerification).Ok? {
          var d := NoteOwed(step, c, f, Verification, f.awaitsVerification).value;
          ProgressKeeps(d, f);
          OwedLater(c.pending, d.pending, Approval, f.id);
        }
      }
    }
  }

  lemma OwedNow(step: step64, v: View, f: Frame, kind: PendingKind, due: bool)
    ensures var r := NoteOwed(step, v, f, kind, due);
            r.Ok? ==> v.pending <= r.value.pending && r.value.failed == v.failed && (due ==> Owed(r.value.pending, kind, f.id))
  {
    hide Fold;
    var p := Pending(kind, f.id, DigestOf(step, f.payload));
    if due && !Owed(v.pending, kind, f.id) && |v.pending| < MAX_PENDING {
      assert (v.pending + [p])[|v.pending|] == p;
    }
  }

  lemma OwedLater(a: seq<Pending>, b: seq<Pending>, kind: PendingKind, frame: u32)
    requires a <= b
    ensures Owed(a, kind, frame) ==> Owed(b, kind, frame)
  {
    assert forall k :: 0 <= k < |a| ==> a[k] == b[k];
  }

  lemma ProgressKeeps(v: View, f: Frame)
    ensures NoteDecision(NoteProgress(v, f), f).failed == v.failed && NoteDecision(NoteProgress(v, f), f).pending == v.pending
  {
    hide PushBounded;
  }

  /** Compaction never drops: whatever it answers, all failed paths and
      obligations before it are still there; and when it succeeds, so are
      those of every frame folded. */
  lemma {:induction false} CompactKeeps(step: step64, v: View, frames: seq<Frame>)
    ensures Holds(v, FoldFrames(step, v, frames).1)
    ensures FoldFrames(step, v, frames).0.Ok? ==> forall k :: 0 <= k < |frames| ==> Noted(FoldFrames(step, v, frames).1, frames[k])
  {
    hide FoldFrame, Noted;
    if frames != [] {
      var n := |frames| - 1;
      CompactKeeps(step, v, frames[..n]);
      var mid := FoldFrames(step, v, frames[..n]).1;
      FoldFrameHolds(step, mid, frames[n]);
      var after := FoldFrame(step, mid, frames[n]).1;
      forall k | 0 <= k < n && Noted(mid, frames[k]) ensures Noted(after, frames[k]) {
        NotedLater(mid, after, frames[k]);
      }
    }
  }

  lemma NotedLater(a: View, b: View, f: Frame)
    requires Holds(a, b) && Noted(a, f)
    ensures Noted(b, f)
  {
    hide Owed;
    OwedLater(a.pending, b.pending, Approval, f.id);
    OwedLater(a.pending, b.pending, Verification, f.id);
  }

  /** A frame already noted adds no failed path and no obligation. */
  lemma FoldNoted(step: step64, v: View, f: Frame)
    requires Noted(v, f)
    ensures var (r, after) := FoldFrame(step, v, f);
            r == Ok(()) && after.failed == v.failed && after.pending == v.pending
  {
    hide Fold, FingerprintBytes, Owed, PushBounded;
  }

  lemma {:induction false} FoldAllNoted(step: step64, v: View, frames: seq<Frame>)
    requires forall k :: 0 <= k < |frames| ==> Noted(v, frames[k])
    ensures var (r, after) := FoldFrames(step, v, frames);
            r == Ok(()) && after.failed == v.failed && after.pending == v.pending
  {
    hide FoldFrame, Noted;
    if frames != [] {
      var n := |frames| - 1;
      FoldAllNoted(step, v, frames[..n]);
      var mid := FoldFrames(step, v, frames[..n]).1;
      NotedLater(v, mid, frames[n]);
      FoldNoted(step, mid, frames[n]);
    }
  }

  /** Feeding a window again is safe: it succeeds, with the same failed paths
      and obligations. */
  lemma Refeeding(step: step64, v: View, frames: seq<Frame>)
    requires FoldFrames(step, v, frames).0.Ok?
    ensures var once := FoldFrames(step, v, frames).1;
            var (r, twice) := FoldFrames(step, once, frames);
            r == Ok(()) && twice.failed == once.failed && twice.pending == once.pending
  {
    hide FoldFrames, Noted;
    CompactKeeps(step, v, frames);
    FoldAllNoted(step, FoldFrames(step, v, frames).1, frames);
  }

  /** Resolving is how an obligation leaves: exactly that one, and no other. */
  lemma ResolveExact(v: View, kind: PendingKind, frame: u32)
    requires Apart(v.pending)
    ensures var (found, after) := Resolve(v, kind, frame);
            && (found <==> Owed(v.pending, kind, frame))
            && !Owed(after.pending, kind, frame)
            && after == v.(pending := after.pending)
            && (forall p :: p in v.pending && !(p.kind == kind && p.frame == frame) ==> p in after.pending)
            && (forall p :: p in after.pending ==> p in v.pending)
  {
    hide FirstOwed;
    var at := FirstOwed(v.pending, kind, frame);
    if at.Some? {
      var k := at.value;
      var after := v.pending[..k] + v.pending[k + 1..];
      forall j | 0 <= j < |after| ensures !(after[j].kind == kind && after[j].frame == frame) {
        assert after[j] == v.pending[if j < k then j else j + 1];
        assert v.pending[k].Same(v.pending[k]);
      }
    }
  }

  // Whole histories of a list that keeps its newest entries.

  function Newest<T>(list: seq<T>, cap: nat): (r: seq<T>)
    ensures |r| <= cap
  {
    if |list| <= cap then list else list[|list| - cap..]
  }

  lemma NewestPushed<T>(list: seq<T>, cap: nat, x: T)
    requires cap > 0
    ensures PushBounded(Newest(list, cap), cap, x) == Newest(list + [x], cap)
  {
  }

  /** A full list already repeating with the period a window adds. */
  ghost predicate Periodic<T(!new)>(list: seq<T>, cap: nat, period: nat) {
    |list| == cap && forall k :: 0 <= k < cap - period ==> list[k] == list[k + period]
  }

  /** A list pushed the same entries twice ends as after the first time exactly
      when there are none, or enough to fill it, or it went round in them. */
  lemma PushedTwice<T(!new)>(before: seq<T>, added: seq<T>, cap: nat)
    requires cap > 0
    ensures var once := Newest(before + added, cap);
            Newest(once + added, cap) == once <==> added == [] || |added| >= cap || Periodic(once, cap, |added|)
  {
    var once := Newest(before + added, cap);
    var twice := Newest(once + added, cap);
    var m := |added|;
    if m >= cap {
      assert twice == added[m - cap..] == once;
    } else if 0 < m {
      if |once| < cap {
        assert |twice| > |once|;
      } else {
        var all := before + added;
        assert once[cap - m..] == added by { assert all[|before|..] == added; }
        assert twice == once[m..] + added;
        if twice == once {
          assert forall k :: 0 <= k < cap - m ==> once[m..][k] == once[k + m];
        }
        if Periodic(once, cap, m) {
          forall k | 0 <= k < cap ensures twice[k] == once[k] {
            if k >= cap - m {
              assert once[cap - m..][k - (cap - m)] == once[k];
            }
          }
        }
      }
    }
  }

  /** What the frames say, list by list. */
  function Fingerprints(step: step64, frames: seq<Frame>): (r: seq<u64>) {
    if frames == [] then [] else Fingerprints(step, frames[..|frames| - 1]) + [DigestOf(step, FingerprintBytes(frames[|frames| - 1]))]
  }

  function ClosedIn(frames: seq<Frame>): seq<note> {
    if frames == [] then []
    else
      var f := frames[|frames| - 1];
      ClosedIn(frames[..|frames| - 1]) + if f.progress.SubgoalClosed? then [Cut(f.payload)] else []
  }

  function DecidedIn(frames: seq<Frame>): seq<u64> {
    if frames == [] then []
    else
      var f := frames[|frames| - 1];
      DecidedIn(frames[..|frames| - 1]) + if f.kind == MODEL_DECISION then [f.args] else []
  }

  function FoundIn(frames: seq<Frame>): seq<Fact> {
    if frames == [] then []
    else
      var f := frames[|frames| - 1];
      FoundIn(frames[..|frames| - 1]) + if f.progress.NewEvidence? && f.failure.None? then [Fact(Cut(f.payload), f.id)] else []
  }

  /** The facts that are new to the list when their turn comes. */
  function Anew(list: seq<Fact>, found: seq<Fact>): seq<Fact> {
    if found == [] then []
    else
      var n := |found| - 1;
      var sofar := Anew(list, found[..n]);
      if found[n] in Newest(list + sofar, MAX_FACTS) then sofar else sofar + [found[n]]
  }

  lemma FrameLists(step: step64, v: View, f: Frame)
    requires FoldFrame(step, v, f).0.Ok?
    ensures var after := FoldFrame(step, v, f).1;
            && after.fingerprints == PushBounded(v.fingerprints, MAX_FINGERPRINTS, DigestOf(step, FingerprintBytes(f)))
            && after.completed == (if f.progress.SubgoalClosed? then PushBounded(v.completed, MAX_COMPLETED, Cut(f.payload)) else v.completed)
            && after.accepted == (if f.kind == MODEL_DECISION then PushBounded(v.accepted, MAX_ACCEPTED, f.args) else v.accepted)
            && after.facts == (if f.progress.NewEvidence? && f.failure.None? then RecordFact(v, Fact(Cut(f.payload), f.id)).facts else v.facts)
            && after.open == v.open && after.objective == v.objective && after.budgets == v.budgets && after.versions == v.versions
  {
    hide NoteFailure, NoteOwed, PushBounded, DigestOf, RecordFact;
    var a := NoteFingerprint(step, v, f);
    var b := NoteFailure(a, f).value;
    NeverDropLists(step, a, f, Approval, f.awaitsApproval);
    NeverDropLists(step, b, f, Approval, f.awaitsApproval);
    var c := NoteOwed(step, b, f, Approval, f.awaitsApproval).value;
    NeverDropLists(step, c, f, Verification, f.awaitsVerification);
    var d := NoteOwed(step, c, f, Verification, f.awaitsVerification).value;
    FactAlone(v, d, Fact(Cut(f.payload), f.id));
  }

  lemma NeverDropLists(step: step64, v: View, f: Frame, kind: PendingKind, due: bool)
    ensures var r := NoteFailure(v, f); r.Ok? ==> r.value == v.(failed := r.value.failed)
    ensures var r := NoteOwed(step, v, f, kind, due); r.Ok? ==> r.value == v.(pending := r.value.pending)
  {
    hide DigestOf, Owed;
  }

  lemma FactAlone(v: View, w: View, f: Fact)
    requires v.facts == w.facts
    ensures RecordFact(w, f) == w.(facts := RecordFact(v, f).facts)
  {
    hide PushBounded;
  }

  lemma PushedOn<T>(before: seq<T>, sofar: seq<T>, cap: nat, x: T)
    requires cap > 0
    ensures PushBounded(Newest(before + sofar, cap), cap, x) == Newest(before + (sofar + [x]), cap)
  {
    NewestPushed(before + sofar, cap, x);
    assert (before + sofar) + [x] == before + (sofar + [x]);
  }

  /** Each bounded list is the newest of all it was ever given. */
  lemma {:induction false} ListsAreNewest(step: step64, v: View, frames: seq<Frame>)
    requires Sized(v) && FoldFrames(step, v, frames).0.Ok?
    ensures var after := FoldFrames(step, v, frames).1;
            && after.fingerprints == Newest(v.fingerprints + Fingerprints(step, frames), MAX_FINGERPRINTS)
            && after.completed == Newest(v.completed + ClosedIn(frames), MAX_COMPLETED)
            && after.accepted == Newest(v.accepted + DecidedIn(frames), MAX_ACCEPTED)
            && after.facts == Newest(v.facts + Anew(v.facts, FoundIn(frames)), MAX_FACTS)
            && after.open == v.open && after.objective == v.objective && after.budgets == v.budgets && after.versions == v.versions
  {
    hide FoldFrame, PushBounded, Newest, FingerprintBytes, Fold, DigestOf, Cut, Sized;
    if frames == [] {
      NothingAdded(v);
    } else {
      var n := |frames| - 1;
      var f := frames[n];
      ListsAreNewest(step, v, frames[..n]);
      var mid := FoldFrames(step, v, frames[..n]).1;
      FrameLists(step, mid, f);
      PushedOn(v.fingerprints, Fingerprints(step, frames[..n]), MAX_FINGERPRINTS, DigestOf(step, FingerprintBytes(f)));
      PushedOn(v.completed, ClosedIn(frames[..n]), MAX_COMPLETED, Cut(f.payload));
      PushedOn(v.accepted, DecidedIn(frames[..n]), MAX_ACCEPTED, f.args);
      assert ClosedIn(frames[..n]) + [] == ClosedIn(frames[..n]) && DecidedIn(frames[..n]) + [] == DecidedIn(frames[..n]);
      FactOn(v.facts, FoundIn(frames[..n]), Fact(Cut(f.payload), f.id));
      assert FoundIn(frames[..n]) + [] == FoundIn(frames[..n]);
    }
  }

  lemma NothingAdded(v: View)
    requires Sized(v)
    ensures Newest(v.fingerprints + [], MAX_FINGERPRINTS) == v.fingerprints
    ensures Newest(v.completed + [], MAX_COMPLETED) == v.completed
    ensures Newest(v.accepted + [], MAX_ACCEPTED) == v.accepted
    ensures Newest(v.facts + [], MAX_FACTS) == v.facts
  {
  }

  lemma FactOn(list: seq<Fact>, found: seq<Fact>, f: Fact)
    ensures var before := Newest(list + Anew(list, found), MAX_FACTS);
            Newest(list + Anew(list, found + [f]), MAX_FACTS) == if f in before then before else PushBounded(before, MAX_FACTS, f)
  {
    hide PushBounded, Newest;
    assert (found + [f])[..|found|] == found;
    PushedOn(list, Anew(list, found), MAX_FACTS, f);
  }

  /** No fact is new exactly when the list held every one from the start. */
  lemma {:induction false} NothingNew(list: seq<Fact>, found: seq<Fact>)
    requires |list| <= MAX_FACTS
    ensures Anew(list, found) == [] <==> forall f :: f in found ==> f in list
  {
    if found != [] {
      var n := |found| - 1;
      NothingNew(list, found[..n]);
      assert found == found[..n] + [found[n]];
      assert list + [] == list;
    }
  }

  /** The facts end the same when none was new, or when at least sixteen were
      and the last sixteen of them are the list again. */
  lemma SameFacts(list: seq<Fact>, added: seq<Fact>)
    requires |list| <= MAX_FACTS && NoRepeats(list)
    ensures Newest(list + added, MAX_FACTS) == list <==> added == [] || (|added| >= MAX_FACTS && Newest(added, MAX_FACTS) == list)
  {
    var m := |added|;
    var after := Newest(list + added, MAX_FACTS);
    if m == 0 {
      assert list + added == list;
    } else if m < MAX_FACTS {
      if |list| == MAX_FACTS {
        assert after[0] == list[m];
      } else {
        assert |after| > |list|;
      }
    } else {
      assert after == Newest(added, MAX_FACTS);
    }
  }

  /** A window folded again changes failed paths and obligations never, and
      each other list exactly in these cases. A fact is recorded again exactly
      when one of the window's has since been evicted. */
  lemma RefeedingExact(step: step64, v: View, frames: seq<Frame>)
    requires Sound(v) && FoldFrames(step, v, frames).0.Ok?
    ensures var once := FoldFrames(step, v, frames).1;
            var (r, twice) := FoldFrames(step, once, frames);
            var again := Anew(once.facts, FoundIn(frames));
            && r == Ok(())
            && twice == once.(fingerprints := twice.fingerprints, completed := twice.completed, accepted := twice.accepted, facts := twice.facts)
            && (twice.fingerprints == once.fingerprints <==>
                frames == [] || |frames| >= MAX_FINGERPRINTS || Periodic(once.fingerprints, MAX_FINGERPRINTS, |frames|))
            && (twice.completed == once.completed <==>
                ClosedIn(frames) == [] || |ClosedIn(frames)| >= MAX_COMPLETED || Periodic(once.completed, MAX_COMPLETED, |ClosedIn(frames)|))
            && (twice.accepted == once.accepted <==>
                DecidedIn(frames) == [] || |DecidedIn(frames)| >= MAX_ACCEPTED || Periodic(once.accepted, MAX_ACCEPTED, |DecidedIn(frames)|))
            && (again == [] <==> forall f :: f in FoundIn(frames) ==> f in once.facts)
            && (twice.facts == once.facts <==> again == [] || (|again| >= MAX_FACTS && Newest(again, MAX_FACTS) == once.facts))
  {
    hide FoldFrames, Fingerprints, ClosedIn, DecidedIn, FoundIn, Anew, Newest, Periodic, Apart, NoRepeats;
    var once := FoldFrames(step, v, frames).1;
    FoldSound(step, v, frames);
    Refeeding(step, v, frames);
    ListsAreNewest(step, v, frames);
    ListsAreNewest(step, once, frames);
    FingerprintEach(step, frames);
    PushedTwice(v.fingerprints, Fingerprints(step, frames), MAX_FINGERPRINTS);
    PushedTwice(v.completed, ClosedIn(frames), MAX_COMPLETED);
    PushedTwice(v.accepted, DecidedIn(frames), MAX_ACCEPTED);
    NothingNew(once.facts, FoundIn(frames));
    SameFacts(once.facts, Anew(once.facts, FoundIn(frames)));
  }

  lemma {:induction false} FingerprintEach(step: step64, frames: seq<Frame>)
    ensures |Fingerprints(step, frames)| == |frames|
  {
    hide Fold, FingerprintBytes;
    if frames != [] {
      FingerprintEach(step, frames[..|frames| - 1]);
    }
  }

  /** Folding is not idempotent: one frame that closes a subgoal, folded twice
      into an empty state, is recorded twice. */
  lemma RefeedingCounts(step: step64, objective: u64, budgets: Budgets, versions: Versions)
    ensures var f := Frame(1, 0, 0, 0, None, SubgoalClosed, [], false, false);
            var once := FoldFrames(step, Empty(objective, budgets, versions), [f]).1;
            once.completed == [[]] && FoldFrames(step, once, [f]).1.completed == [[], []]
  {
    hide Fold, FingerprintBytes, FoldFrame;
    var f := Frame(1, 0, 0, 0, None, SubgoalClosed, [], false, false);
    var v := Empty(objective, budgets, versions);
    OneFrame(step, v, f);
    OneFrame(step, FoldFrame(step, v, f).1, f);
  }

  lemma OneFrame(step: step64, v: View, f: Frame)
    requires f.failure.None? && !f.awaitsApproval && !f.awaitsVerification && f.kind != MODEL_DECISION && f.progress.SubgoalClosed?
    ensures FoldFrames(step, v, [f]) == FoldFrame(step, v, f)
    ensures FoldFrame(step, v, f).0 == Ok(())
    ensures FoldFrame(step, v, f).1.completed == PushBounded(v.completed, MAX_COMPLETED, Cut(f.payload))
  {
    hide Fold, FingerprintBytes, PushBounded;
    assert [f][..0] == [];
    assert FoldFrames(step, v, []) == (Ok(()), v);
  }

  // Runs of a state's operations.

  datatype Operation =
    | Complete(note: note)
    | Open(note: note)
    | Decide(digest: u64)
    | Find(fact: Fact)
    | RuleOut(path: FailedPath)
    | Owe(item: Pending)
    | Settle(kind: PendingKind, frame: u32)
    | See(fingerprint: u64)
    | Compact(frames: seq<Frame>)

  function Settled<T>(v: T, r: Result<T, Error>): (Result<(), Error>, T) {
    match r case Ok(after) => (Ok(()), after) case Err(e) => (Err(e), v)
  }

  function Apply(step: step64, v: View, op: Operation): (Result<(), Error>, View) {
    match op
    case Complete(n) => (Ok(()), v.(completed := PushBounded(v.completed, MAX_COMPLETED, n)))
    case Open(n) => (Ok(()), v.(open := PushBounded(v.open, MAX_OPEN, n)))
    case Decide(d) => (Ok(()), v.(accepted := PushBounded(v.accepted, MAX_ACCEPTED, d)))
    case Find(f) => (Ok(()), RecordFact(v, f))
    case RuleOut(p) => Settled(v, RecordFailed(v, p))
    case Owe(p) => Settled(v, RecordPending(v, p))
    case Settle(kind, frame) => (Ok(()), Resolve(v, kind, frame).1)
    case See(x) => (Ok(()), v.(fingerprints := PushBounded(v.fingerprints, MAX_FINGERPRINTS, x)))
    case Compact(frames) => FoldFrames(step, v, frames)
  }

  /** The state after some operations, whatever they answered. */
  function Reached(step: step64, v: View, ops: seq<Operation>): View {
    if ops == [] then v else Apply(step, Reached(step, v, ops[..|ops| - 1]), ops[|ops| - 1]).1
  }

  lemma ApplySound(step: step64, v: View, op: Operation)
    requires Sound(v)
    ensures Sound(Apply(step, v, op).1)
  {
    hide FoldFrames, FirstOwed, NoRepeats, Apart;
    match op {
      case Find(f) => FactSound(v, f);
      case RuleOut(p) => FailedSound(v, p);
      case Owe(p) => PendingSound(v, p);
      case Settle(kind, frame) => ResolvedSound(v, kind, frame);
      case Compact(frames) => FoldSound(step, v, frames);
      case _ =>
    }
  }

  lemma FactSound(v: View, f: Fact)
    requires Sound(v)
    ensures Sound(RecordFact(v, f))
  {
    hide Apart, NoRepeats;
    if f !in v.facts {
      PushKeeps(v.facts, MAX_FACTS, f);
    }
  }

  lemma FailedSound(v: View, p: FailedPath)
    requires Sound(v)
    ensures RecordFailed(v, p).Ok? ==> Sound(RecordFailed(v, p).value)
  {
    hide Apart;
  }

  lemma PendingSound(v: View, p: Pending)
    requires Sound(v)
    ensures RecordPending(v, p).Ok? ==> Sound(RecordPending(v, p).value)
  {
    hide NoRepeats;
  }

  lemma ResolvedSound(v: View, kind: PendingKind, frame: u32)
    requires Sound(v)
    ensures Sound(Resolve(v, kind, frame).1)
  {
    hide FirstOwed, NoRepeats;
    var at := FirstOwed(v.pending, kind, frame);
    if at.Some? {
      var k := at.value;
      var after := v.pending[..k] + v.pending[k + 1..];
      forall i, j | 0 <= i < j < |after| ensures !after[i].Same(after[j]) {
        assert after[i] == v.pending[if i < k then i else i + 1];
        assert after[j] == v.pending[if j < k then j else j + 1];
      }
    }
  }

  /** Every state a run of operations reaches is sound. */
  lemma {:induction false} RunSound(step: step64, v: View, ops: seq<Operation>)
    requires Sound(v)
    ensures Sound(Reached(step, v, ops))
  {
    hide Sound, Apply;
    if ops != [] {
      var n := |ops| - 1;
      RunSound(step, v, ops[..n]);
      ApplySound(step, Reached(step, v, ops[..n]), ops[n]);
    }
  }

  function FailureOf(f: Frame): Option<FailedPath> {
    match f.failure case None => None case Some(e) => Some(FailedPath(f.tool, f.args, e))
  }

  predicate Awaits(f: Frame, kind: PendingKind, frame: u32) {
    f.id == frame && match kind case Approval => f.awaitsApproval case Verification => f.awaitsVerification
  }

  /** An operation that reports this failed path. */
  ghost predicate Reports(op: Operation, p: FailedPath) {
    op == RuleOut(p) || (op.Compact? && exists k :: 0 <= k < |op.frames| && FailureOf(op.frames[k]) == Some(p))
  }

  /** An operation that opens this obligation. */
  ghost predicate Opens(op: Operation, kind: PendingKind, frame: u32) {
    || (op.Owe? && op.item.kind == kind && op.item.frame == frame)
    || (op.Compact? && exists k :: 0 <= k < |op.frames| && Awaits(op.frames[k], kind, frame))
  }

  /** A failed path in the state was there before, or this operation reported
      it; one there before is there still; one reported and answered Ok is. */
  lemma FailedStep(step: step64, v: View, op: Operation, p: FailedPath)
    ensures var (r, after) := Apply(step, v, op);
            && (p in v.failed ==> p in after.failed)
            && (p in after.failed ==> p in v.failed || Reports(op, p))
            && (r.Ok? && Reports(op, p) ==> p in after.failed)
  {
    hide FoldFrames, FirstOwed, Owed, PushBounded, Noted;
    if op.Compact? {
      CompactKeeps(step, v, op.frames);
      FoldFrom(step, v, op.frames);
      if FoldFrames(step, v, op.frames).0.Ok? && Reports(op, p) {
        var k :| 0 <= k < |op.frames| && FailureOf(op.frames[k]) == Some(p);
        assert Noted(FoldFrames(step, v, op.frames).1, op.frames[k]);
        NotedPath(FoldFrames(step, v, op.frames).1, op.frames[k]);
      }
    }
  }

  lemma NotedPath(v: View, f: Frame)
    requires Noted(v, f) && FailureOf(f).Some?
    ensures FailureOf(f).value in v.failed
  {
  }

  lemma FrameFrom(step: step64, v: View, f: Frame)
    ensures var after := FoldFrame(step, v, f).1;
            && (forall p :: p in after.failed ==> p in v.failed || FailureOf(f) == Some(p))
            && (forall kind, frame :: Owed(after.pending, kind, frame) ==> Owed(v.pending, kind, frame) || Awaits(f, kind, frame))
  {
    hide Fold, FingerprintBytes, Owed, NoteProgress, NoteDecision;
    var a := NoteFingerprint(step, v, f);
    if NoteFailure(a, f).Ok? {
      var b := NoteFailure(a, f).value;
      OwedFrom(step, b, f, Approval, f.awaitsApproval);
      if NoteOwed(step, b, f, Approval, f.awaitsApproval).Ok? {
        var c := NoteOwed(step, b, f, Approval, f.awaitsApproval).value;
        OwedFrom(step, c, f, Verification, f.awaitsVerification);
        if NoteOwed(step, c, f, Verification, f.awaitsVerification).Ok? {
          ProgressKeeps(NoteOwed(step, c, f, Verification, f.awaitsVerification).value, f);
        }
      }
    }
  }

  lemma OwedFrom(step: step64, v: View, f: Frame, kind: PendingKind, due: bool)
    requires due ==> Awaits(f, kind, f.id)
    ensures var r := NoteOwed(step, v, f, kind, due);
            r.Ok? ==> r.value.failed == v.failed
                      && forall k, n :: Owed(r.value.pending, k, n) ==> Owed(v.pending, k, n) || Awaits(f, k, n)
  {
    hide Fold;
    var p := Pending(kind, f.id, DigestOf(step, f.payload));
    OwedOneMore(v.pending, p);
  }

  lemma OwedOneMore(list: seq<Pending>, p: Pending)
    ensures forall k, n :: Owed(list + [p], k, n) <==> Owed(list, k, n) || (p.kind == k && p.frame == n)
  {
    var all := list + [p];
    assert all[|list|] == p && forall i :: 0 <= i < |list| ==> all[i] == list[i];
  }

  /** Whatever folding adds to the never-drop lists, a frame brought. */
  lemma {:induction false} FoldFrom(step: step64, v: View, frames: seq<Frame>)
    ensures var after := FoldFrames(step, v, frames).1;
            && (forall p :: p in after.failed ==> p in v.failed || exists k :: 0 <= k < |frames| && FailureOf(frames[k]) == Some(p))
            && (forall kind, n :: Owed(after.pending, kind, n) ==>
                  Owed(v.pending, kind, n) || exists k :: 0 <= k < |frames| && Awaits(frames[k], kind, n))
  {
    hide FoldFrame, FailureOf, Awaits, Owed;
    if frames != [] {
      var n := |frames| - 1;
      FoldFrom(step, v, frames[..n]);
      FrameFrom(step, FoldFrames(step, v, frames[..n]).1, frames[n]);
    }
  }

  /** An obligation stays until exactly it is settled, is there once opened and
      answered Ok, and comes from nowhere else. */
  lemma OwedStep(step: step64, v: View, op: Operation, kind: PendingKind, frame: u32)
    requires Sound(v)
    ensures var (r, after) := Apply(step, v, op);
            && (Owed(v.pending, kind, frame) && op != Settle(kind, frame) ==> Owed(after.pending, kind, frame))
            && (Owed(after.pending, kind, frame) ==> op != Settle(kind, frame) && (Owed(v.pending, kind, frame) || Opens(op, kind, frame)))
            && (r.Ok? && Opens(op, kind, frame) ==> Owed(after.pending, kind, frame))
  {
    hide FoldFrames, FirstOwed, Owed, PushBounded, Noted, NoRepeats, Apart, Resolve;
    match op {
      case Compact(frames) =>
        CompactKeeps(step, v, frames);
        FoldFrom(step, v, frames);
        var (r, after) := FoldFrames(step, v, frames);
        OwedLater(v.pending, after.pending, kind, frame);
        if r.Ok? && Opens(op, kind, frame) {
          var k :| 0 <= k < |frames| && Awaits(frames[k], kind, frame);
          NotedOwed(after, frames[k], kind);
        }
      case Owe(p) => OwedOneMore(v.pending, p);
      case Settle(k, n) => SettledOthers(v, k, n, kind, frame);
      case _ =>
    }
  }

  lemma NotedOwed(v: View, f: Frame, kind: PendingKind)
    requires Noted(v, f) && Awaits(f, kind, f.id)
    ensures Owed(v.pending, kind, f.id)
  {
    hide Owed;
  }

  lemma SettledOthers(v: View, k: PendingKind, n: u32, kind: PendingKind, frame: u32)
    requires Apart(v.pending)
    ensures var after := Resolve(v, k, n).1;
            && Owed(after.pending, kind, frame) == (Owed(v.pending, kind, frame) && !(k == kind && n == frame))
            && after == v.(pending := after.pending)
  {
    hide Resolve, Apart;
    ResolveExact(v, k, n);
    var after := Resolve(v, k, n).1;
    if Owed(v.pending, kind, frame) && !(k == kind && n == frame) {
      var i :| 0 <= i < |v.pending| && v.pending[i].kind == kind && v.pending[i].frame == frame;
      assert v.pending[i] in after.pending;
    }
  }

  /** Operation `k` of the run answered Ok. */
  ghost predicate Done(step: step64, v: View, ops: seq<Operation>, k: nat)
    requires k < |ops|
  {
    Apply(step, Reached(step, v, ops[..k]), ops[k]).0.Ok?
  }

  /** Over any run, a failed path once reported and answered Ok is there for
      good, as is one there from the start; nothing else ever is. */
  lemma {:induction false} FailedForGood(step: step64, v: View, ops: seq<Operation>, p: FailedPath)
    ensures p in v.failed || (exists k :: 0 <= k < |ops| && Reports(ops[k], p) && Done(step, v, ops, k)) ==> p in Reached(step, v, ops).failed
    ensures p in Reached(step, v, ops).failed ==> p in v.failed || exists k :: 0 <= k < |ops| && Reports(ops[k], p)
  {
    hide Apply, Reports;
    if ops != [] {
      var n := |ops| - 1;
      FailedForGood(step, v, ops[..n], p);
      FailedStep(step, Reached(step, v, ops[..n]), ops[n], p);
      forall k | 0 <= k < n ensures Done(step, v, ops[..n], k) == Done(step, v, ops, k) && ops[..n][k] == ops[k] {
        assert ops[..n][..k] == ops[..k];
      }
    }
  }

  /** No operation from `k` on settles this obligation. */
  ghost predicate Unsettled(ops: seq<Operation>, k: nat, kind: PendingKind, frame: u32) {
    forall m :: k <= m < |ops| ==> ops[m] != Settle(kind, frame)
  }

  /** Over any run, an obligation opened and answered Ok is owed until exactly
      it is settled; and whatever is owed was opened, or owed from the start,
      and has not been settled since. */
  lemma {:induction false} OwedUntilSettled(step: step64, v: View, ops: seq<Operation>, kind: PendingKind, frame: u32)
    requires Sound(v)
    ensures Owed(v.pending, kind, frame) && Unsettled(ops, 0, kind, frame) ==> Owed(Reached(step, v, ops).pending, kind, frame)
    ensures forall k :: 0 <= k < |ops| && Opens(ops[k], kind, frame) && Done(step, v, ops, k) && Unsettled(ops, k + 1, kind, frame) ==>
              Owed(Reached(step, v, ops).pending, kind, frame)
    ensures Owed(Reached(step, v, ops).pending, kind, frame) ==>
              || (Owed(v.pending, kind, frame) && Unsettled(ops, 0, kind, frame))
              || exists k :: 0 <= k < |ops| && Opens(ops[k], kind, frame) && Unsettled(ops, k, kind, frame)
  {
    hide Apply, Opens, Owed, Sound, Reached, Done, Unsettled;
    if ops == [] {
      Nothing(step, v, kind, frame);
    } else {
      var n := |ops| - 1;
      var before := ops[..n];
      var mid := Reached(step, v, before);
      OwedUntilSettled(step, v, before, kind, frame);
      RunSound(step, v, before);
      OwedStep(step, mid, ops[n], kind, frame);
      OneLater(step, v, ops, kind, frame);
      if Owed(Reached(step, v, ops).pending, kind, frame) && Opens(ops[n], kind, frame) {
        assert Opens(ops[n], kind, frame) && Unsettled(ops, n, kind, frame);
      } else if Owed(mid.pending, kind, frame) && ops[n] != Settle(kind, frame) && !(Owed(v.pending, kind, frame) && Unsettled(before, 0, kind, frame)) {
        var k :| 0 <= k < n && Opens(before[k], kind, frame) && Unsettled(before, k, kind, frame);
        assert Opens(ops[k], kind, frame) && Unsettled(ops, k, kind, frame);
      }
    }
  }

  lemma Nothing(step: step64, v: View, kind: PendingKind, frame: u32)
    ensures Reached(step, v, []) == v && Unsettled([], 0, kind, frame)
  {
  }

  /** One operation more: the state after it, and what was done or unsettled
      before. */
  lemma OneLater(step: step64, v: View, ops: seq<Operation>, kind: PendingKind, frame: u32)
    requires ops != []
    ensures var n := |ops| - 1;
            && Reached(step, v, ops) == Apply(step, Reached(step, v, ops[..n]), ops[n]).1
            && (Done(step, v, ops, n) <==> Apply(step, Reached(step, v, ops[..n]), ops[n]).0.Ok?)
            && (forall k :: 0 <= k < n ==> Done(step, v, ops[..n], k) == Done(step, v, ops, k) && ops[..n][k] == ops[k])
            && (forall k :: 0 <= k <= n ==> (Unsettled(ops, k, kind, frame) <==> Unsettled(ops[..n], k, kind, frame) && ops[n] != Settle(kind, frame)))
            && Unsettled(ops[..n], n, kind, frame)
  {
    hide Apply;
    var n := |ops| - 1;
    forall k | 0 <= k < n ensures Done(step, v, ops[..n], k) == Done(step, v, ops, k) {
      assert ops[..n][..k] == ops[..k];
    }
    forall k | 0 <= k <= n ensures Unsettled(ops, k, kind, frame) <==> Unsettled(ops[..n], k, kind, frame) && ops[n] != Settle(kind, frame) {
      assert forall m :: 0 <= m < n ==> ops[..n][m] == ops[m];
    }
  }

  // What one frame leaves, in detail.

  /** Two frames have the same fingerprint bytes exactly when they agree in
      number, kind, tool, arguments, progress and error class; the payload plays
      no part, and no failure reads as class 0. */
  lemma FingerprintExact(f: Frame, g: Frame)
    ensures FingerprintBytes(f) == FingerprintBytes(g) <==>
              && f.id == g.id && f.kind == g.kind && f.tool == g.tool && f.args == g.args && f.progress == g.progress
              && (if f.failure.Some? then f.failure.value else 0) == (if g.failure.Some? then g.failure.value else 0)
  {
    hide Le;
    var a, b := FingerprintBytes(f), FingerprintBytes(g);
    FourByteWord(f.id);
    FourByteWord(g.id);
    EightByteWord(f.args);
    EightByteWord(g.args);
    assert a[..4] == Le(f.id, 4) && b[..4] == Le(g.id, 4) && a[6..14] == Le(f.args, 8) && b[6..14] == Le(g.args, 8);
    assert a[4] == f.kind && a[5] == f.tool && b[4] == g.kind && b[5] == g.tool;
    assert a[14] == (if f.failure.Some? then f.failure.value else 0) && b[14] == (if g.failure.Some? then g.failure.value else 0);
    assert a[15] == ProgressCode(f.progress) && b[15] == ProgressCode(g.progress);
  }

  /** An obligation newly owed carries the digest of its frame's payload. */
  lemma OwedDigest(step: step64, v: View, f: Frame, kind: PendingKind)
    requires !Owed(v.pending, kind, f.id) && |v.pending| < MAX_PENDING
    ensures NoteOwed(step, v, f, kind, true) == Ok(v.(pending := v.pending + [Pending(kind, f.id, Fold<u64>(step, FNV64_OFFSET, f.payload))]))
  {
  }

  /** What a frame adds beside its failure and obligations: a fact or completed
      note cut from its payload, and a decision. */
  lemma NotesExact(v: View, f: Frame)
    ensures var after := NoteDecision(NoteProgress(v, f), f);
            var cut: note := if |f.payload| <= NOTE_MAX then f.payload else f.payload[..NOTE_MAX];
            && after.completed == (if f.progress == SubgoalClosed then PushBounded(v.completed, 8, cut) else v.completed)
            && after.accepted == (if f.kind == 3 then PushBounded(v.accepted, 8, f.args) else v.accepted)
            && after.facts == (if f.progress == NewEvidence && f.failure == None && Fact(cut, f.id) !in v.facts
                               then PushBounded(v.facts, 16, Fact(cut, f.id)) else v.facts)
  {
    hide PushBounded;
    assert |f.payload| <= NOTE_MAX ==> f.payload[..|f.payload|] == f.payload;
  }

  /** The report: every frame is either compacted or kept, as many kept as asked
      for, and what is saved is the compacted payloads. */
  lemma ReportExact(frames: seq<Frame>, tailKeep: u8)
    requires |frames| < U32_SPAN
    ensures var r := ReportOf(frames, tailKeep);
            && r.framesIn == |frames| && r.framesCompacted + r.tailKept == |frames|
            && r.tailKept == (if tailKeep <= |frames| then tailKeep else |frames|)
            && r.bytesSaved == (if Bytes(frames[..r.framesCompacted]) < U64_SPAN then Bytes(frames[..r.framesCompacted]) else U64_SPAN - 1)
  {
    hide Bytes;
  }
}
