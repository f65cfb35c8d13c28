/** The byte layouts of the durable records: every field at its place, low byte
    first, under the codes the records are read with. */
module Formats {
  import opened Words
  import opened Core
  import ItemLog
  import Ledger
  import Memory
  import Checkpoint
  import opened CheckpointCodec
  import Codec
  import Compact
  import Snapshot

  // Fields.

  /** 256 to the `k`: the worth of byte `k`. */
  function Place(k: nat): (p: nat)
    ensures p > 0
  {
    if k == 0 then 1 else Place(k - 1) * 0x100
  }

  /** The `width` bytes of `b` at `at` spell `value`, low byte first. */
  ghost predicate Spells(b: bytes, at: nat, width: nat, value: nat) {
    at + width <= |b| && forall k :: 0 <= k < width ==> b[at + k] as int == value / Place(k) % 0x100
  }

  lemma {:induction false} LeExact(n: nat, width: nat, k: nat)
    requires k < width
    ensures Le(n, width)[k] as int == n / Place(k) % 0x100
  {
    if k > 0 {
      LeExact(n / 0x100, width - 1, k - 1);
      Divided(n, Place(k - 1));
    }
  }

  lemma Divided(n: nat, p: nat)
    requires p > 0
    ensures n / 0x100 / p == n / (p * 0x100)
  {
    var q := n / 0x100 / p;
    var r := n / 0x100 - q * p;
    assert n / 0x100 == q * p + r && 0 <= r < p;
    assert n == q * (p * 0x100) + (r * 0x100 + n % 0x100);
    Quotient(n, p * 0x100, q, r * 0x100 + n % 0x100);
  }

  lemma Quotient(n: nat, d: nat, q: nat, r: nat)
    requires d > 0 && n == q * d + r && r < d
    ensures n / d == q
  {
    var k := n / d;
    if k < q {
      Monotone(d, k + 1, q);
    }
    if k > q {
      Monotone(d, q + 1, k);
    }
  }

  lemma Field(b: bytes, at: nat, width: nat, value: nat)
    requires at + width <= |b| && b[at..at + width] == Le(value, width)
    ensures Spells(b, at, width, value)
  {
    hide Le;
    forall k | 0 <= k < width ensures b[at + k] as int == value / Place(k) % 0x100 {
      LeExact(value, width, k);
      assert b[at..at + width][k] == b[at + k];
    }
  }

  lemma ByteField(b: bytes, at: nat, value: u8)
    requires at < |b| && b[at] == value
    ensures Spells(b, at, 1, value)
  {
    assert b[at..at + 1] == Le(value, 1);
    Field(b, at, 1, value);
  }

  // The item log.

  /** An area's header: magic, generation, digest, and the check over them. */
  lemma AreaHeader(c: ItemLog.Config, generation: u32, digest: u64)
    ensures var h := ItemLog.HeaderOf(c, generation, digest);
            && |h| == 20 && Spells(h, 0, 4, 0x4553_494C) && Spells(h, 4, 4, generation) && Spells(h, 8, 8, digest)
            && Spells(h, 16, 4, Fold(c.step, 0x811c_9dc5, h[..16]))
  {
    hide Le, Fold, Spells;
    var h := ItemLog.HeaderOf(c, generation, digest);
    assert h[..16] == ItemLog.Covered(generation, digest);
    Field(h, 0, 4, 0x4553_494C);
    Field(h, 4, 4, generation);
    Field(h, 8, 8, digest);
    Field(h, 16, 4, Fold(c.step, 0x811c_9dc5, h[..16]));
  }

  /** A slot's head: index, length, check. The check is over the digest, the
      index and the item's bytes. */
  lemma SlotHeader(c: ItemLog.Config, digest: u64, index: u16, item: bytes)
    requires |item| <= 480
    ensures var check := ItemLog.ItemCheck(c, digest, index, item);
            var h := ItemLog.SlotHead(index, |item|, check);
            && |h| == 8 && Spells(h, 0, 2, index) && Spells(h, 2, 2, |item|) && Spells(h, 4, 4, check)
    ensures exists key: bytes :: |key| == 10 && Spells(key, 0, 8, digest) && Spells(key, 8, 2, index)
              && ItemLog.ItemCheck(c, digest, index, item) == Fold(c.step, 0x811c_9dc5, key + item)
  {
    hide Le, Fold, Spells;
    var check := ItemLog.ItemCheck(c, digest, index, item);
    var h := ItemLog.SlotHead(index, |item|, check);
    Field(h, 0, 2, index);
    Field(h, 2, 2, |item|);
    Field(h, 4, 4, check);
    var key := Le(digest, 8) + Le(index, 2);
    Field(key, 0, 8, digest);
    Field(key, 8, 2, index);
    FoldConcat(c.step, 0x811c_9dc5, key, item);
  }

  // Checkpoints.

  /** A header: version, counters, allocators, counts and digest. */
  lemma CheckpointHeader(h: Header)
    ensures var b := HeaderBytes(h);
            && |b| == 37 && Spells(b, 0, 1, 1)
            && Spells(b, 1, 8, h.lastBeat) && Spells(b, 9, 4, h.spawnSeq) && Spells(b, 13, 8, h.nextDeadline)
            && Spells(b, 21, 2, h.nextGoalId) && Spells(b, 23, 4, h.nextStamp)
            && Spells(b, 27, 1, h.goals) && Spells(b, 28, 1, h.entries) && Spells(b, 29, 8, h.digest)
  {
    hide Le, Spells;
    var b := HeaderBytes(h);
    var t := ItemFieldBytes(h);
    assert b[23..] == t;
    ByteField(b, 0, 1);
    Field(b, 1, 8, h.lastBeat);
    Field(b, 9, 4, h.spawnSeq);
    Field(b, 13, 8, h.nextDeadline);
    Field(b, 21, 2, h.nextGoalId);
    Field(b, 23, 4, h.nextStamp);
    ByteField(b, 27, h.goals);
    ByteField(b, 28, h.entries);
    Field(b, 29, 8, h.digest);
  }

  /** A status's code is its place in this order. */
  const STATUSES: seq<GoalStatus> := [Active, Running, Waiting, Paused, Satisfied, Failed, Exhausted, Retired]

  const ENDINGS: seq<TerminalStatus> :=
    [Completed, NeedsInput, Denied, BudgetExhausted, Stuck, ToolUnavailable, ModelInvalid, StorageFault, Incompatible]

  lemma CodesExact(s: GoalStatus, e: Option<TerminalStatus>)
    ensures StatusCode(s) < 8 && STATUSES[StatusCode(s)] == s
    ensures if e.None? then LastStatusCode(e) == 0xFF else LastStatusCode(e) < 9 && ENDINGS[LastStatusCode(e)] == e.value
  {
  }

  /** A goal, part by part: who it is, */
  lemma IdentityLayout(v: Identity)
    ensures var b, n := IdentityBytes(v), |v.objective|;
            && |b| == 9 + n && Spells(b, 0, 2, v.id) && Spells(b, 2, 1, n) && b[3..3 + n] == v.objective
            && Spells(b, 3 + n, 1, v.priority) && Spells(b, 4 + n, 1, if v.cadence.Once? then 0 else 1)
            && Spells(b, 5 + n, 4, if v.cadence.Once? then 0 else v.cadence.every)
  {
    hide Le, Spells;
    var b, n := IdentityBytes(v), |v.objective|;
    Field(b, 0, 2, v.id);
    ByteField(b, 2, n);
    ByteField(b, 3 + n, v.priority);
    ByteField(b, 4 + n, if v.cadence.Once? then 0 else 1);
    Field(b, 5 + n, 4, if v.cadence.Once? then 0 else v.cadence.every);
  }

  /** what it was granted and what is left, */
  lemma BudgetLayout(e: Ledger.Envelope, f: Funds)
    ensures var b := EnvelopeBytes(e);
            && |b| == 14 && Spells(b, 0, 2, e.perRunTurns) && Spells(b, 2, 2, e.perRunMutations)
            && Spells(b, 4, 4, e.turns) && Spells(b, 8, 4, e.mutations) && Spells(b, 12, 2, e.runs)
    ensures var b := FundsBytes(f);
            && |b| == 14 && Spells(b, 0, 4, f.remaining.turns) && Spells(b, 4, 4, f.remaining.mutations)
            && Spells(b, 8, 2, f.remaining.runs) && Spells(b, 10, 2, f.reserved.turns) && Spells(b, 12, 2, f.reserved.mutations)
  {
    hide Le, Spells;
    var b, d := EnvelopeBytes(e), FundsBytes(f);
    Field(b, 0, 2, e.perRunTurns);
    Field(b, 2, 2, e.perRunMutations);
    Field(b, 4, 4, e.turns);
    Field(b, 8, 4, e.mutations);
    Field(b, 12, 2, e.runs);
    Field(d, 0, 4, f.remaining.turns);
    Field(d, 4, 4, f.remaining.mutations);
    Field(d, 8, 2, f.remaining.runs);
    Field(d, 10, 2, f.reserved.turns);
    Field(d, 12, 2, f.reserved.mutations);
  }

  /** what it may touch, */
  lemma CapabilitiesLayout(v: Ledger.Capabilities)
    ensures CapabilitiesBytes(v) ==
              v.readPins + [v.readCount] + v.writePins + [v.writeCount] + v.sensors + [v.sensorCount]
              + [if v.allowTimer then 1 else 0, if v.allowStatus then 1 else 0]
  {
  }

  /** and where it stands; the parts in this order. */
  lemma StandingLayout(v: Standing)
    ensures var b := StandingBytes(v);
            && |b| == 32 && Spells(b, 0, 1, StatusCode(v.status)) && Spells(b, 1, 8, v.nextDue) && Spells(b, 9, 1, v.failures)
            && Spells(b, 10, 4, v.runsStarted) && Spells(b, 14, 1, LastStatusCode(v.lastStatus)) && Spells(b, 15, 8, v.waitingSince)
            && Spells(b, 23, 1, if v.run.Some? then 1 else 0) && Spells(b, 24, 8, if v.run.Some? then v.run.value else 0)
  {
    hide Le, Spells, StatusCode, LastStatusCode;
    var b := StandingBytes(v);
    ByteField(b, 0, StatusCode(v.status));
    Field(b, 1, 8, v.nextDue);
    ByteField(b, 9, v.failures);
    Field(b, 10, 4, v.runsStarted);
    ByteField(b, 14, LastStatusCode(v.lastStatus));
    Field(b, 15, 8, v.waitingSince);
    ByteField(b, 23, if v.run.Some? then 1 else 0);
    Field(b, 24, 8, if v.run.Some? then v.run.value else 0);
  }

  lemma GoalLayout(g: Ledger.Goal)
    ensures GoalBytes(g) ==
              IdentityBytes(Identity(g.id, g.objective, g.priority, g.cadence))
              + EnvelopeBytes(g.envelope) + FundsBytes(Funds(g.remaining, g.reserved)) + CapabilitiesBytes(g.capabilities)
              + StandingBytes(Standing(g.status, g.nextDue, g.failures, g.runsStarted, g.lastStatus, g.waitingSince, g.run))
  {
    hide IdentityBytes, EnvelopeBytes, FundsBytes, CapabilitiesBytes, StandingBytes;
  }

  /** A head, then two texts behind their lengths, then a tail. */
  lemma TwoTexts(a: bytes, t: note, v: note, q: bytes)
    ensures var b, k, n, m := a + (([|t|] + t) + (([|v|] + v) + q)), |a|, |t|, |v|;
            && |b| == k + 2 + n + m + |q| && b[..k] == a && b[k] == n && b[k + 1..k + 1 + n] == t
            && b[k + 1 + n] == m && b[k + 2 + n..k + 2 + n + m] == v && b[k + 2 + n + m..] == q
  {
    var x: bytes, y: bytes := [|t|] + t, [|v|] + v;
    var b := a + (x + (y + q));
    var k := |a|;
    Cut(a, x + (y + q));
    Cut(x, y + q);
    Cut(y, q);
    Twice(b, k, |x|);
    Twice(b, k + |x|, |y|);
    assert x[1..] == t && y[1..] == v;
    Piece(b, k, x);
    Piece(b, k + |x|, y);
  }

  lemma Cut(a: bytes, b: bytes)
    ensures (a + b)[..|a|] == a && (a + b)[|a|..] == b
  {
  }

  lemma Twice(b: bytes, i: nat, j: nat)
    requires i + j <= |b|
    ensures b[i..][j..] == b[i + j..]
  {
  }

  lemma Piece(b: bytes, at: nat, x: bytes)
    requires at <= |b| && x != [] && x <= b[at..]
    ensures b[at] == x[0] && b[at + 1..at + |x|] == x[1..]
  {
    assert x == b[at..][..|x|];
    forall i | 1 <= i < |x| ensures b[at + i] == x[i] {
      assert b[at..][i] == b[at + i];
    }
    assert b[at..][0] == b[at];
  }

  /** A memory entry: its key under a tag, its two texts behind their lengths,
      where it came from, its stamp. */
  lemma EntryLayout(e: Memory.Entry)
    ensures var b, k, n, m := EntryBytes(e), |KeyBytes(e.key)|, |e.text|, |e.value|;
            && |b| == k + n + m + 25 && b[..k] == KeyBytes(e.key)
            && Spells(b, k, 1, n) && b[k + 1..k + 1 + n] == e.text
            && Spells(b, k + 1 + n, 1, m) && b[k + 2 + n..k + 2 + n + m] == e.value
            && var p := k + 2 + n + m;
               && Spells(b, p, 2, if e.provenance.goal.Some? then e.provenance.goal.value else 0)
               && Spells(b, p + 2, 1, if e.provenance.run.Some? then 1 else 0)
               && Spells(b, p + 3, 8, if e.provenance.run.Some? then e.provenance.run.value else 0)
               && Spells(b, p + 11, 8, e.provenance.beat) && Spells(b, p + 19, 4, e.stamp)
    ensures var b := KeyBytes(e.key);
            match e.key {
              case Observation(tool, args) => |b| == 10 && Spells(b, 0, 1, 0) && Spells(b, 1, 1, tool) && Spells(b, 2, 8, args)
              case Outcome(goal) => |b| == 3 && Spells(b, 0, 1, 1) && Spells(b, 1, 2, goal)
              case NoteKey(name) => |b| == 9 && Spells(b, 0, 1, 2) && Spells(b, 1, 8, name)
            }
  {
    hide Le, Spells;
    KeyLayout(e.key);
    hide KeyBytes, ProvenanceBytes;
    var b, k, n, m := EntryBytes(e), |KeyBytes(e.key)|, |e.text|, |e.value|;
    var p := k + 2 + n + m;
    var q := ProvenanceBytes(e.provenance, e.stamp);
    TwoTexts(KeyBytes(e.key), e.text, e.value, q);
    ByteField(b, k, n);
    ByteField(b, k + 1 + n, m);
    ProvenanceLayout(e.provenance, e.stamp);
    Shifted(b, p, q, 0, 2, if e.provenance.goal.Some? then e.provenance.goal.value else 0);
    Shifted(b, p, q, 2, 1, if e.provenance.run.Some? then 1 else 0);
    Shifted(b, p, q, 3, 8, if e.provenance.run.Some? then e.provenance.run.value else 0);
    Shifted(b, p, q, 11, 8, e.provenance.beat);
    Shifted(b, p, q, 19, 4, e.stamp);
  }

  lemma Shifted(b: bytes, p: nat, q: bytes, at: nat, width: nat, value: nat)
    requires p <= |b| && b[p..] == q && Spells(q, at, width, value)
    ensures Spells(b, p + at, width, value)
  {
    forall k | 0 <= k < width ensures b[p + at + k] as int == value / Place(k) % 0x100 {
      assert q[at + k] == b[p + at + k];
    }
  }

  lemma ProvenanceLayout(v: Memory.Provenance, stamp: u32)
    ensures var q := ProvenanceBytes(v, stamp);
            && |q| == 23 && Spells(q, 0, 2, if v.goal.Some? then v.goal.value else 0)
            && Spells(q, 2, 1, if v.run.Some? then 1 else 0) && Spells(q, 3, 8, if v.run.Some? then v.run.value else 0)
            && Spells(q, 11, 8, v.beat) && Spells(q, 19, 4, stamp)
  {
    hide Le, Spells;
    var q := ProvenanceBytes(v, stamp);
    Field(q, 0, 2, if v.goal.Some? then v.goal.value else 0);
    ByteField(q, 2, if v.run.Some? then 1 else 0);
    Field(q, 3, 8, if v.run.Some? then v.run.value else 0);
    Field(q, 11, 8, v.beat);
    Field(q, 19, 4, stamp);
  }

  lemma KeyLayout(key: Memory.Key)
    ensures var b := KeyBytes(key);
            match key {
              case Observation(tool, args) => |b| == 10 && Spells(b, 0, 1, 0) && Spells(b, 1, 1, tool) && Spells(b, 2, 8, args)
              case Outcome(goal) => |b| == 3 && Spells(b, 0, 1, 1) && Spells(b, 1, 2, goal)
              case NoteKey(name) => |b| == 9 && Spells(b, 0, 1, 2) && Spells(b, 1, 8, name)
            }
  {
    hide Le, Spells;
    var b := KeyBytes(key);
    match key {
      case Observation(tool, args) =>
        ByteField(b, 0, 0);
        ByteField(b, 1, tool);
        Field(b, 2, 8, args);
      case Outcome(goal) =>
        ByteField(b, 0, 1);
        Field(b, 1, 2, goal);
      case NoteKey(name) =>
        ByteField(b, 0, 2);
        Field(b, 1, 8, name);
    }
  }

  // Snapshots.

  /** The scalars, in order. */
  lemma ScalarLayout(v: Compact.View)
    ensures var b := Snapshot.ScalarBytes(v);
            && |b| == 61 && Spells(b, 0, 8, v.objective)
            && Spells(b, 8, 2, v.budgets.modelTurns) && Spells(b, 10, 4, v.budgets.inputTokens) && Spells(b, 14, 4, v.budgets.outputTokens)
            && Spells(b, 18, 8, v.budgets.elapsedMs) && Spells(b, 26, 4, v.budgets.radioBytes) && Spells(b, 30, 2, v.budgets.mutations)
            && Spells(b, 32, 1, v.budgets.consecutiveErrors)
            && Spells(b, 33, 4, v.versions.workflow) && Spells(b, 37, 8, v.versions.model)
            && Spells(b, 45, 8, v.versions.catalog) && Spells(b, 53, 8, v.versions.policy)
  {
    hide Le, Spells;
    var b := Snapshot.ScalarBytes(v);
    var x, y := Snapshot.BudgetsBytes(v.budgets), Snapshot.VersionsBytes(v.versions);
    assert |x| == 25 && |y| == 28 && b == Le(v.objective, 8) + (x + y);
    assert b[8..33] == x && b[33..] == y;
    Field(b, 0, 8, v.objective);
    BudgetsLayout(v.budgets);
    VersionsLayout(v.versions);
    Within(b, 8, x, 0, 2, v.budgets.modelTurns);
    Within(b, 8, x, 2, 4, v.budgets.inputTokens);
    Within(b, 8, x, 6, 4, v.budgets.outputTokens);
    Within(b, 8, x, 10, 8, v.budgets.elapsedMs);
    Within(b, 8, x, 18, 4, v.budgets.radioBytes);
    Within(b, 8, x, 22, 2, v.budgets.mutations);
    Within(b, 8, x, 24, 1, v.budgets.consecutiveErrors);
    Within(b, 33, y, 0, 4, v.versions.workflow);
    Within(b, 33, y, 4, 8, v.versions.model);
    Within(b, 33, y, 12, 8, v.versions.catalog);
    Within(b, 33, y, 20, 8, v.versions.policy);
  }

  lemma Within(b: bytes, p: nat, q: bytes, at: nat, width: nat, value: nat)
    requires p + |q| <= |b| && b[p..p + |q|] == q && Spells(q, at, width, value)
    ensures Spells(b, p + at, width, value)
  {
    forall k | 0 <= k < width ensures b[p + at + k] as int == value / Place(k) % 0x100 {
      assert q[at + k] == b[p + at + k];
    }
  }

  lemma BudgetsLayout(v: Compact.Budgets)
    ensures var b := Snapshot.BudgetsBytes(v);
            && |b| == 25 && Spells(b, 0, 2, v.modelTurns) && Spells(b, 2, 4, v.inputTokens) && Spells(b, 6, 4, v.outputTokens)
            && Spells(b, 10, 8, v.elapsedMs) && Spells(b, 18, 4, v.radioBytes) && Spells(b, 22, 2, v.mutations)
            && Spells(b, 24, 1, v.consecutiveErrors)
  {
    hide Le, Spells;
    var b := Snapshot.BudgetsBytes(v);
    Field(b, 0, 2, v.modelTurns);
    Field(b, 2, 4, v.inputTokens);
    Field(b, 6, 4, v.outputTokens);
    Field(b, 10, 8, v.elapsedMs);
    Field(b, 18, 4, v.radioBytes);
    Field(b, 22, 2, v.mutations);
    ByteField(b, 24, v.consecutiveErrors);
  }

  lemma VersionsLayout(v: Compact.Versions)
    ensures var b := Snapshot.VersionsBytes(v);
            && |b| == 28 && Spells(b, 0, 4, v.workflow) && Spells(b, 4, 8, v.model) && Spells(b, 12, 8, v.catalog) && Spells(b, 20, 8, v.policy)
  {
    hide Le, Spells;
    var b := Snapshot.VersionsBytes(v);
    Field(b, 0, 4, v.workflow);
    Field(b, 4, 8, v.model);
    Field(b, 12, 8, v.catalog);
    Field(b, 20, 8, v.policy);
  }

  /** A fact, a failed path, an obligation. */
  lemma RecordLayout(f: Compact.Fact, p: Compact.FailedPath, o: Compact.Pending)
    ensures var b, n := Snapshot.FactBytes(f), |f.text|;
            |b| == n + 5 && Spells(b, 0, 1, n) && b[1..1 + n] == f.text && Spells(b, 1 + n, 4, f.source)
    ensures var b := Snapshot.PathBytes(p); |b| == 10 && Spells(b, 0, 1, p.tool) && Spells(b, 1, 8, p.args) && Spells(b, 9, 1, p.error)
    ensures var b := Snapshot.PendingBytes(o);
            |b| == 13 && Spells(b, 0, 1, if o.kind.Approval? then 0 else 1) && Spells(b, 1, 4, o.frame) && Spells(b, 5, 8, o.digest)
  {
    hide Le, Spells;
    var a, n, b, d := Snapshot.FactBytes(f), |f.text|, Snapshot.PathBytes(p), Snapshot.PendingBytes(o);
    ByteField(a, 0, n);
    Field(a, 1 + n, 4, f.source);
    ByteField(b, 0, p.tool);
    Field(b, 1, 8, p.args);
    ByteField(b, 9, p.error);
    ByteField(d, 0, if o.kind.Approval? then 0 else 1);
    Field(d, 1, 4, o.frame);
    Field(d, 5, 8, o.digest);
  }

  /** The lists follow in this order, each behind its length. */
  lemma PayloadLayout(v: Compact.View)
    requires Compact.Sized(v)
    ensures Snapshot.Payload(v) ==
              Snapshot.ScalarBytes(v)
              + Snapshot.ListBytes(v.completed, Codec.NoteBytes) + Snapshot.ListBytes(v.open, Codec.NoteBytes)
              + Snapshot.ListBytes(v.accepted, Snapshot.WordBytes) + Snapshot.ListBytes(v.facts, Snapshot.FactBytes)
              + Snapshot.ListBytes(v.failed, Snapshot.PathBytes) + Snapshot.ListBytes(v.pending, Snapshot.PendingBytes)
              + Snapshot.ListBytes(v.fingerprints, Snapshot.WordBytes)
  {
    hide Snapshot.ScalarBytes, Snapshot.ListBytes;
  }
}
