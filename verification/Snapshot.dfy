/** Snapshots of the compact state: its payload bytes, the decoder that rebuilds
    it by recording, and how far the two undo each other. */
module Snapshot {
  import opened Words
  import opened Core
  import opened Codec
  import opened Compact
  import Checkpoint
  import CheckpointCodec
  import CheckpointRestore

  // Counted lists.

  function AllBytes<T>(items: seq<T>, put: T -> bytes): bytes {
    if items == [] then [] else put(items[0]) + AllBytes(items[1..], put)
  }

  function ListBytes<T>(items: seq<T>, put: T -> bytes): bytes
    requires |items| <= 0xFF
  {
    [|items|] + AllBytes(items, put)
  }

  function TakeN<T>(b: bytes, n: nat, take: bytes -> Result<(T, bytes), Error>): (p: Result<(seq<T>, bytes), Error>)
    ensures p.Ok? ==> |p.value.0| == n
    decreases n
  {
    if n == 0 then Ok(([], b))
    else
      var x :- take(b);
      var rest :- TakeN(x.1, n - 1, take);
      Ok(([x.0] + rest.0, rest.1))
  }

  /** A count past the list's capacity is refused. */
  function TakeList<T>(b: bytes, cap: nat, take: bytes -> Result<(T, bytes), Error>): (p: Result<(seq<T>, bytes), Error>)
    ensures p.Ok? ==> |p.value.0| <= cap
  {
    var n :- TakeU8(b);
    if n.0 > cap then Err(SnapshotCorrupt) else TakeN(n.1, n.0, take)
  }

  /** `take` reads back what `put` wrote, and nothing else. */
  ghost predicate Inverse<T(!new)>(put: T -> bytes, take: bytes -> Result<(T, bytes), Error>) {
    && (forall x: T, rest: bytes :: take(put(x) + rest) == Ok((x, rest)))
    && (forall b: bytes :: take(b).Ok? ==> b == put(take(b).value.0) + take(b).value.1)
  }

  lemma {:induction false} TakeNBack<T(!new)>(items: seq<T>, rest: bytes, put: T -> bytes, take: bytes -> Result<(T, bytes), Error>)
    requires Inverse(put, take)
    ensures TakeN(AllBytes(items, put) + rest, |items|, take) == Ok((items, rest))
  {
    if items == [] {
      assert [] + rest == rest;
    } else {
      TakeNBack(items[1..], rest, put, take);
      Regroup(put(items[0]), AllBytes(items[1..], put), rest);
      assert items == [items[0]] + items[1..];
    }
  }

  lemma {:induction false} TakeNThere<T(!new)>(b: bytes, n: nat, put: T -> bytes, take: bytes -> Result<(T, bytes), Error>)
    requires Inverse(put, take) && TakeN(b, n, take).Ok?
    ensures var p := TakeN(b, n, take).value; b == AllBytes(p.0, put) + p.1
    decreases n
  {
    if n > 0 {
      var x := take(b).value;
      TakeNThere(x.1, n - 1, put, take);
      var rest := TakeN(x.1, n - 1, take).value;
      assert ([x.0] + rest.0)[1..] == rest.0;
      Regroup(put(x.0), AllBytes(rest.0, put), rest.1);
    } else {
      assert [] + b == b;
    }
  }

  lemma ListBack<T(!new)>(items: seq<T>, rest: bytes, cap: nat, put: T -> bytes, take: bytes -> Result<(T, bytes), Error>)
    requires Inverse(put, take) && |items| <= cap <= 0xFF
    ensures TakeList(ListBytes(items, put) + rest, cap, take) == Ok((items, rest))
  {
    hide AllBytes, TakeN, Inverse;
    TakeNBack(items, rest, put, take);
    Regroup([|items|], AllBytes(items, put), rest);
    U8Back(|items|, AllBytes(items, put) + rest);
  }

  lemma ListThere<T(!new)>(b: bytes, cap: nat, put: T -> bytes, take: bytes -> Result<(T, bytes), Error>)
    requires Inverse(put, take) && cap <= 0xFF && TakeList(b, cap, take).Ok?
    ensures var p := TakeList(b, cap, take).value; b == ListBytes(p.0, put) + p.1
  {
    hide AllBytes, TakeN, Inverse;
    U8There(b);
    var n := TakeU8(b).value;
    TakeNThere(n.1, n.0, put, take);
    var p := TakeN(n.1, n.0, take).value;
    Regroup([n.0], AllBytes(p.0, put), p.1);
  }

  // List entries.

  function WordBytes(x: u64): bytes {
    Le(x, 8)
  }

  function FactBytes(f: Fact): bytes {
    NoteBytes(f.text) + Le(f.source, 4)
  }

  function TakeFact(b: bytes): Result<(Fact, bytes), Error> {
    var text :- TakeNote(b);
    var source :- TakeU32(text.1);
    Ok((Fact(text.0, source.0), source.1))
  }

  function PathBytes(p: FailedPath): bytes {
    [p.tool] + (Le(p.args, 8) + [p.error])
  }

  function TakePath(b: bytes): Result<(FailedPath, bytes), Error> {
    var tool :- TakeU8(b);
    var args :- TakeU64(tool.1);
    var error :- TakeU8(args.1);
    if error.0 > LAST_CODE then Err(SnapshotCorrupt) else Ok((FailedPath(tool.0, args.0, error.0), error.1))
  }

  function KindCode(k: PendingKind): u8 {
    match k case Approval => 0 case Verification => 1
  }

  function PendingBytes(p: Pending): bytes {
    [KindCode(p.kind)] + (Le(p.frame, 4) + Le(p.digest, 8))
  }

  function TakePending(b: bytes): Result<(Pending, bytes), Error> {
    var kind :- TakeU8(b);
    if kind.0 > 1 then Err(SnapshotCorrupt)
    else
      var frame :- TakeU32(kind.1);
      var digest :- TakeU64(frame.1);
      Ok((Pending(if kind.0 == 0 then Approval else Verification, frame.0, digest.0), digest.1))
  }

  lemma NotesInverse()
    ensures Inverse(NoteBytes, TakeNote)
  {
    forall x: note, rest: bytes ensures TakeNote(NoteBytes(x) + rest) == Ok((x, rest)) {
      NoteBack(x, rest);
    }
    forall b: bytes | TakeNote(b).Ok? ensures b == NoteBytes(TakeNote(b).value.0) + TakeNote(b).value.1 {
      NoteThere(b);
    }
  }

  lemma WordsInverse()
    ensures Inverse(WordBytes, TakeU64)
  {
    hide Le;
    forall x: u64, rest: bytes ensures TakeU64(WordBytes(x) + rest) == Ok((x, rest)) {
      U64Back(x, rest);
    }
    forall b: bytes | TakeU64(b).Ok? ensures b == WordBytes(TakeU64(b).value.0) + TakeU64(b).value.1 {
      U64There(b);
    }
  }

  lemma FactBack(f: Fact, rest: bytes)
    ensures TakeFact(FactBytes(f) + rest) == Ok((f, rest))
  {
    hide Le, NoteBytes, TakeNote, TakeU32;
    Regroup(NoteBytes(f.text), Le(f.source, 4), rest);
    NoteBack(f.text, Le(f.source, 4) + rest);
    U32Back(f.source, rest);
  }

  lemma FactThere(b: bytes)
    requires TakeFact(b).Ok?
    ensures b == FactBytes(TakeFact(b).value.0) + TakeFact(b).value.1
  {
    hide Le, NoteBytes, TakeNote, TakeU32;
    NoteThere(b);
    var text := TakeNote(b).value;
    U32There(text.1);
    var source := TakeU32(text.1).value;
    Regroup(NoteBytes(text.0), Le(source.0, 4), source.1);
  }

  lemma FactsInverse()
    ensures Inverse(FactBytes, TakeFact)
  {
    forall x: Fact, rest: bytes ensures TakeFact(FactBytes(x) + rest) == Ok((x, rest)) {
      FactBack(x, rest);
    }
    forall b: bytes | TakeFact(b).Ok? ensures b == FactBytes(TakeFact(b).value.0) + TakeFact(b).value.1 {
      FactThere(b);
    }
  }

  lemma PathBack(p: FailedPath, rest: bytes)
    ensures TakePath(PathBytes(p) + rest) == Ok((p, rest))
  {
    hide Le, TakeU8, TakeU64;
    Regroup(Le(p.args, 8), [p.error], rest);
    Regroup([p.tool], Le(p.args, 8) + [p.error], rest);
    U8Back(p.tool, Le(p.args, 8) + ([p.error] + rest));
    U64Back(p.args, [p.error] + rest);
    U8Back(p.error, rest);
  }

  lemma PathThere(b: bytes)
    requires TakePath(b).Ok?
    ensures b == PathBytes(TakePath(b).value.0) + TakePath(b).value.1
  {
    hide Le, TakeU8, TakeU64;
    U8There(b);
    var tool := TakeU8(b).value;
    U64There(tool.1);
    var args := TakeU64(tool.1).value;
    U8There(args.1);
    var error := TakeU8(args.1).value;
    Regroup(Le(args.0, 8), [error.0], error.1);
    Regroup([tool.0], Le(args.0, 8) + [error.0], error.1);
  }

  lemma PathsInverse()
    ensures Inverse(PathBytes, TakePath)
  {
    forall x: FailedPath, rest: bytes ensures TakePath(PathBytes(x) + rest) == Ok((x, rest)) {
      PathBack(x, rest);
    }
    forall b: bytes | TakePath(b).Ok? ensures b == PathBytes(TakePath(b).value.0) + TakePath(b).value.1 {
      PathThere(b);
    }
  }

  lemma PendingBack(p: Pending, rest: bytes)
    ensures TakePending(PendingBytes(p) + rest) == Ok((p, rest))
  {
    hide Le, TakeU8, TakeU32, TakeU64;
    Regroup(Le(p.frame, 4), Le(p.digest, 8), rest);
    Regroup([KindCode(p.kind)], Le(p.frame, 4) + Le(p.digest, 8), rest);
    U8Back(KindCode(p.kind), Le(p.frame, 4) + (Le(p.digest, 8) + rest));
    U32Back(p.frame, Le(p.digest, 8) + rest);
    U64Back(p.digest, rest);
  }

  lemma PendingThere(b: bytes)
    requires TakePending(b).Ok?
    ensures b == PendingBytes(TakePending(b).value.0) + TakePending(b).value.1
  {
    hide Le, TakeU8, TakeU32, TakeU64;
    U8There(b);
    var kind := TakeU8(b).value;
    U32There(kind.1);
    var frame := TakeU32(kind.1).value;
    U64There(frame.1);
    var digest := TakeU64(frame.1).value;
    Regroup(Le(frame.0, 4), Le(digest.0, 8), digest.1);
    Regroup([kind.0], Le(frame.0, 4) + Le(digest.0, 8), digest.1);
  }

  lemma PendingsInverse()
    ensures Inverse(PendingBytes, TakePending)
  {
    forall x: Pending, rest: bytes ensures TakePending(PendingBytes(x) + rest) == Ok((x, rest)) {
      PendingBack(x, rest);
    }
    forall b: bytes | TakePending(b).Ok? ensures b == PendingBytes(TakePending(b).value.0) + TakePending(b).value.1 {
      PendingThere(b);
    }
  }

  // The scalars.

  function BudgetsBytes(v: Budgets): bytes {
    Le(v.modelTurns, 2) + (Le(v.inputTokens, 4) + (Le(v.outputTokens, 4) + (Le(v.elapsedMs, 8) +
      (Le(v.radioBytes, 4) + (Le(v.mutations, 2) + [v.consecutiveErrors])))))
  }

  function TakeBudgets(b: bytes): Result<(Budgets, bytes), Error> {
    var modelTurns :- TakeU16(b);
    var inputTokens :- TakeU32(modelTurns.1);
    var outputTokens :- TakeU32(inputTokens.1);
    var elapsedMs :- TakeU64(outputTokens.1);
    var radioBytes :- TakeU32(elapsedMs.1);
    var mutations :- TakeU16(radioBytes.1);
    var errors :- TakeU8(mutations.1);
    Ok((Budgets(modelTurns.0, inputTokens.0, outputTokens.0, elapsedMs.0, radioBytes.0, mutations.0, errors.0), errors.1))
  }

  lemma BudgetsBack(v: Budgets, rest: bytes)
    ensures TakeBudgets(BudgetsBytes(v) + rest) == Ok((v, rest))
  {
    hide Le, TakeU8, TakeU16, TakeU32, TakeU64;
    var a := Le(v.modelTurns, 2);
    var b := Le(v.inputTokens, 4);
    var c := Le(v.outputTokens, 4);
    var d := Le(v.elapsedMs, 8);
    var e := Le(v.radioBytes, 4);
    var f := Le(v.mutations, 2);
    var g := [v.consecutiveErrors];
    Regroup(f, g, rest);
    Regroup(e, f + g, rest);
    Regroup(d, e + (f + g), rest);
    Regroup(c, d + (e + (f + g)), rest);
    Regroup(b, c + (d + (e + (f + g))), rest);
    Regroup(a, b + (c + (d + (e + (f + g)))), rest);
    U16Back(v.modelTurns, b + (c + (d + (e + (f + (g + rest))))));
    U32Back(v.inputTokens, c + (d + (e + (f + (g + rest)))));
    U32Back(v.outputTokens, d + (e + (f + (g + rest))));
    U64Back(v.elapsedMs, e + (f + (g + rest)));
    U32Back(v.radioBytes, f + (g + rest));
    U16Back(v.mutations, g + rest);
    U8Back(v.consecutiveErrors, rest);
  }

  lemma BudgetsThere(x: bytes)
    requires TakeBudgets(x).Ok?
    ensures x == BudgetsBytes(TakeBudgets(x).value.0) + TakeBudgets(x).value.1
  {
    hide Le, TakeU8, TakeU16, TakeU32, TakeU64;
    var p0 := TakeU16(x).value;
    U16There(x);
    var p1 := TakeU32(p0.1).value;
    U32There(p0.1);
    var p2 := TakeU32(p1.1).value;
    U32There(p1.1);
    var p3 := TakeU64(p2.1).value;
    U64There(p2.1);
    var p4 := TakeU32(p3.1).value;
    U32There(p3.1);
    var p5 := TakeU16(p4.1).value;
    U16There(p4.1);
    var p6 := TakeU8(p5.1).value;
    U8There(p5.1);
    var a := Le(p0.0, 2);
    var b := Le(p1.0, 4);
    var c := Le(p2.0, 4);
    var d := Le(p3.0, 8);
    var e := Le(p4.0, 4);
    var f := Le(p5.0, 2);
    var g := [p6.0];
    var rest := p6.1;
    Regroup(f, g, rest);
    Regroup(e, f + g, rest);
    Regroup(d, e + (f + g), rest);
    Regroup(c, d + (e + (f + g)), rest);
    Regroup(b, c + (d + (e + (f + g))), rest);
    Regroup(a, b + (c + (d + (e + (f + g)))), rest);
  }

  function VersionsBytes(v: Versions): bytes {
    Le(v.workflow, 4) + (Le(v.model, 8) + (Le(v.catalog, 8) + Le(v.policy, 8)))
  }

  function TakeVersions(b: bytes): Result<(Versions, bytes), Error> {
    var workflow :- TakeU32(b);
    var model :- TakeU64(workflow.1);
    var catalog :- TakeU64(model.1);
    var policy :- TakeU64(catalog.1);
    Ok((Versions(workflow.0, model.0, catalog.0, policy.0), policy.1))
  }

  lemma VersionsBack(v: Versions, rest: bytes)
    ensures TakeVersions(VersionsBytes(v) + rest) == Ok((v, rest))
  {
    hide Le, TakeU32, TakeU64;
    var b := Le(v.model, 8);
    var c := Le(v.catalog, 8);
    var d := Le(v.policy, 8);
    Regroup(c, d, rest);
    Regroup(b, c + d, rest);
    Regroup(Le(v.workflow, 4), b + (c + d), rest);
    U32Back(v.workflow, b + (c + (d + rest)));
    U64Back(v.model, c + (d + rest));
    U64Back(v.catalog, d + rest);
    U64Back(v.policy, rest);
  }

  lemma VersionsThere(x: bytes)
    requires TakeVersions(x).Ok?
    ensures x == VersionsBytes(TakeVersions(x).value.0) + TakeVersions(x).value.1
  {
    hide Le, TakeU32, TakeU64;
    var p0 := TakeU32(x).value;
    U32There(x);
    var p1 := TakeU64(p0.1).value;
    U64There(p0.1);
    var p2 := TakeU64(p1.1).value;
    U64There(p1.1);
    var p3 := TakeU64(p2.1).value;
    U64There(p2.1);
    var b := Le(p1.0, 8);
    var c := Le(p2.0, 8);
    var d := Le(p3.0, 8);
    Regroup(c, d, p3.1);
    Regroup(b, c + d, p3.1);
    Regroup(Le(p0.0, 4), b + (c + d), p3.1);
  }

  // The payload.

  function ScalarBytes(v: View): bytes {
    Le(v.objective, 8) + (BudgetsBytes(v.budgets) + VersionsBytes(v.versions))
  }

  function TakeScalars(b: bytes): Result<(View, bytes), Error> {
    var objective :- TakeU64(b);
    var budgets :- TakeBudgets(objective.1);
    var versions :- TakeVersions(budgets.1);
    Ok((Empty(objective.0, budgets.0, versions.0), versions.1))
  }

  /** The lists that keep their newest. */
  function NewestBytes(v: View): bytes
    requires Sized(v)
  {
    ListBytes(v.completed, NoteBytes) + (ListBytes(v.open, NoteBytes) + ListBytes(v.accepted, WordBytes))
  }

  /** The lists without repeats, and the fingerprints. */
  function KeptBytes(v: View): bytes
    requires Sized(v)
  {
    ListBytes(v.facts, FactBytes) + (ListBytes(v.failed, PathBytes) + (ListBytes(v.pending, PendingBytes) + ListBytes(v.fingerprints, WordBytes)))
  }

  function Payload(v: View): bytes
    requires Sized(v)
  {
    ScalarBytes(v) + (NewestBytes(v) + KeptBytes(v))
  }

  function TakeNewest(v: View, b: bytes): Result<(View, bytes), Error> {
    var completed :- TakeList(b, MAX_COMPLETED, TakeNote);
    var open :- TakeList(completed.1, MAX_OPEN, TakeNote);
    var accepted :- TakeList(open.1, MAX_ACCEPTED, TakeU64);
    Ok((v.(completed := completed.0, open := open.0, accepted := accepted.0), accepted.1))
  }

  function TakeKept(v: View, b: bytes): Result<(View, bytes), Error> {
    var facts :- TakeList(b, MAX_FACTS, TakeFact);
    var failed :- TakeList(facts.1, MAX_FAILED, TakePath);
    var pending :- TakeList(failed.1, MAX_PENDING, TakePending);
    var fingerprints :- TakeList(pending.1, MAX_FINGERPRINTS, TakeU64);
    Ok((v.(facts := facts.0, failed := failed.0, pending := pending.0, fingerprints := fingerprints.0), fingerprints.1))
  }

  /** The lists exactly as written. */
  function TakeWritten(b: bytes): Result<(View, bytes), Error> {
    var scalars :- TakeScalars(b);
    var newest :- TakeNewest(scalars.0, scalars.1);
    TakeKept(newest.0, newest.1)
  }

  lemma ScalarsBack(v: View, rest: bytes)
    ensures TakeScalars(ScalarBytes(v) + rest) == Ok((Empty(v.objective, v.budgets, v.versions), rest))
  {
    hide Le, TakeU64, BudgetsBytes, TakeBudgets, VersionsBytes, TakeVersions;
    Regroup(BudgetsBytes(v.budgets), VersionsBytes(v.versions), rest);
    Regroup(Le(v.objective, 8), BudgetsBytes(v.budgets) + VersionsBytes(v.versions), rest);
    U64Back(v.objective, BudgetsBytes(v.budgets) + (VersionsBytes(v.versions) + rest));
    BudgetsBack(v.budgets, VersionsBytes(v.versions) + rest);
    VersionsBack(v.versions, rest);
  }

  lemma ScalarsThere(b: bytes)
    requires TakeScalars(b).Ok?
    ensures b == ScalarBytes(TakeScalars(b).value.0) + TakeScalars(b).value.1
  {
    hide Le, TakeU64, BudgetsBytes, TakeBudgets, VersionsBytes, TakeVersions;
    U64There(b);
    var objective := TakeU64(b).value;
    BudgetsThere(objective.1);
    var budgets := TakeBudgets(objective.1).value;
    VersionsThere(budgets.1);
    var versions := TakeVersions(budgets.1).value;
    Regroup(BudgetsBytes(budgets.0), VersionsBytes(versions.0), versions.1);
    Regroup(Le(objective.0, 8), BudgetsBytes(budgets.0) + VersionsBytes(versions.0), versions.1);
  }

  lemma NewestBack(v: View, base: View, rest: bytes)
    requires Sized(v)
    ensures TakeNewest(base, NewestBytes(v) + rest) == Ok((base.(completed := v.completed, open := v.open, accepted := v.accepted), rest))
  {
    hide ListBytes, TakeList, Inverse, NoteBytes, TakeNote, WordBytes, TakeU64;
    NotesInverse();
    WordsInverse();
    var a, b, c := ListBytes(v.completed, NoteBytes), ListBytes(v.open, NoteBytes), ListBytes(v.accepted, WordBytes);
    Regroup(b, c, rest);
    Regroup(a, b + c, rest);
    ListBack(v.completed, b + (c + rest), MAX_COMPLETED, NoteBytes, TakeNote);
    ListBack(v.open, c + rest, MAX_OPEN, NoteBytes, TakeNote);
    ListBack(v.accepted, rest, MAX_ACCEPTED, WordBytes, TakeU64);
  }

  lemma NewestThere(base: View, x: bytes)
    requires TakeNewest(base, x).Ok? && Sized(base)
    ensures var p := TakeNewest(base, x).value; Sized(p.0) && x == NewestBytes(p.0) + p.1
  {
    hide ListBytes, TakeList, Inverse, NoteBytes, TakeNote, WordBytes, TakeU64;
    NotesInverse();
    WordsInverse();
    var p0 := TakeList(x, MAX_COMPLETED, TakeNote).value;
    ListThere(x, MAX_COMPLETED, NoteBytes, TakeNote);
    var p1 := TakeList(p0.1, MAX_OPEN, TakeNote).value;
    ListThere(p0.1, MAX_OPEN, NoteBytes, TakeNote);
    var p2 := TakeList(p1.1, MAX_ACCEPTED, TakeU64).value;
    ListThere(p1.1, MAX_ACCEPTED, WordBytes, TakeU64);
    var a, b, c := ListBytes(p0.0, NoteBytes), ListBytes(p1.0, NoteBytes), ListBytes(p2.0, WordBytes);
    Regroup(b, c, p2.1);
    Regroup(a, b + c, p2.1);
  }

  lemma KeptBack(v: View, base: View, rest: bytes)
    requires Sized(v)
    ensures TakeKept(base, KeptBytes(v) + rest) ==
              Ok((base.(facts := v.facts, failed := v.failed, pending := v.pending, fingerprints := v.fingerprints), rest))
  {
    hide ListBytes, TakeList, Inverse, FactBytes, TakeFact, PathBytes, TakePath, PendingBytes, TakePending, WordBytes, TakeU64;
    FactsInverse();
    PathsInverse();
    PendingsInverse();
    WordsInverse();
    var a, b := ListBytes(v.facts, FactBytes), ListBytes(v.failed, PathBytes);
    var c, d := ListBytes(v.pending, PendingBytes), ListBytes(v.fingerprints, WordBytes);
    Regroup(c, d, rest);
    Regroup(b, c + d, rest);
    Regroup(a, b + (c + d), rest);
    ListBack(v.facts, b + (c + (d + rest)), MAX_FACTS, FactBytes, TakeFact);
    ListBack(v.failed, c + (d + rest), MAX_FAILED, PathBytes, TakePath);
    ListBack(v.pending, d + rest, MAX_PENDING, PendingBytes, TakePending);
    ListBack(v.fingerprints, rest, MAX_FINGERPRINTS, WordBytes, TakeU64);
  }

  lemma KeptThere(base: View, x: bytes)
    requires TakeKept(base, x).Ok? && Sized(base)
    ensures var p := TakeKept(base, x).value; Sized(p.0) && x == KeptBytes(p.0) + p.1
  {
    hide ListBytes, TakeList, Inverse, FactBytes, TakeFact, PathBytes, TakePath, PendingBytes, TakePending, WordBytes, TakeU64;
    FactsInverse();
    PathsInverse();
    PendingsInverse();
    WordsInverse();
    var p0 := TakeList(x, MAX_FACTS, TakeFact).value;
    ListThere(x, MAX_FACTS, FactBytes, TakeFact);
    var p1 := TakeList(p0.1, MAX_FAILED, TakePath).value;
    ListThere(p0.1, MAX_FAILED, PathBytes, TakePath);
    var p2 := TakeList(p1.1, MAX_PENDING, TakePending).value;
    ListThere(p1.1, MAX_PENDING, PendingBytes, TakePending);
    var p3 := TakeList(p2.1, MAX_FINGERPRINTS, TakeU64).value;
    ListThere(p2.1, MAX_FINGERPRINTS, WordBytes, TakeU64);
    var a, b := ListBytes(p0.0, FactBytes), ListBytes(p1.0, PathBytes);
    var c, d := ListBytes(p2.0, PendingBytes), ListBytes(p3.0, WordBytes);
    Regroup(c, d, p3.1);
    Regroup(b, c + d, p3.1);
    Regroup(a, b + (c + d), p3.1);
  }

  lemma PayloadBack(v: View)
    requires Sized(v)
    ensures TakeWritten(Payload(v)) == Ok((v, []))
  {
    hide ScalarBytes, NewestBytes, KeptBytes, TakeScalars, TakeNewest, TakeKept, Sized;
    var scalars := Empty(v.objective, v.budgets, v.versions);
    ScalarsBack(v, NewestBytes(v) + KeptBytes(v));
    NewestBack(v, scalars, KeptBytes(v));
    var newest := scalars.(completed := v.completed, open := v.open, accepted := v.accepted);
    KeptBack(v, newest, []);
    assert KeptBytes(v) + [] == KeptBytes(v);
  }

  lemma PayloadThere(b: bytes)
    requires TakeWritten(b).Ok? && TakeWritten(b).value.1 == []
    ensures var v := TakeWritten(b).value.0; Sized(v) && b == Payload(v)
  {
    hide ScalarBytes, NewestBytes, KeptBytes, TakeScalars, TakeNewest, TakeKept, Sized;
    var scalars := TakeScalars(b).value;
    ScalarsThere(b);
    assert Sized(scalars.0) by { ScalarsEmpty(b); }
    NewestThere(scalars.0, scalars.1);
    var newest := TakeNewest(scalars.0, scalars.1).value;
    KeptThere(newest.0, newest.1);
    var v := TakeKept(newest.0, newest.1).value.0;
    SameParts(scalars.0, scalars.1, newest.0, newest.1);
    assert KeptBytes(v) + [] == KeptBytes(v);
  }

  lemma ScalarsEmpty(b: bytes)
    requires TakeScalars(b).Ok?
    ensures Sized(TakeScalars(b).value.0)
  {
    hide TakeU64, TakeBudgets, TakeVersions;
  }

  /** Later sections leave what earlier ones read. */
  lemma SameParts(scalars: View, a: bytes, newest: View, b: bytes)
    requires Sized(scalars) && TakeNewest(scalars, a) == Ok((newest, b)) && TakeKept(newest, b).Ok? && Sized(newest)
    requires Sized(TakeKept(newest, b).value.0)
    ensures var v := TakeKept(newest, b).value.0;
            ScalarBytes(v) == ScalarBytes(scalars) && NewestBytes(v) == NewestBytes(newest)
  {
    hide ListBytes, TakeList, BudgetsBytes, VersionsBytes, Le;
  }

  // Rebuilding by recording.

  /** What recording a list's entries one by one leaves: no repeats. */
  function Recorded<T(==)>(items: seq<T>): (r: seq<T>)
    ensures |r| <= |items|
  {
    if items == [] then []
    else
      var n := |items| - 1;
      var before := Recorded(items[..n]);
      if items[n] in before then before else before + [items[n]]
  }

  function RecordedPending(items: seq<Pending>): (r: seq<Pending>)
    ensures |r| <= |items|
  {
    if items == [] then []
    else
      var n := |items| - 1;
      var before := RecordedPending(items[..n]);
      if Owed(before, items[n].kind, items[n].frame) then before else before + [items[n]]
  }

  function Rebuilt(written: View): View {
    written.(facts := Recorded(written.facts), failed := Recorded(written.failed), pending := RecordedPending(written.pending))
  }

  lemma {:induction false} RecordedExact<T(!new)>(items: seq<T>)
    ensures NoRepeats(Recorded(items)) && (forall x :: x in Recorded(items) <==> x in items)
    ensures Recorded(items) == items <==> NoRepeats(items)
  {
    if items != [] {
      var n := |items| - 1;
      RecordedExact(items[..n]);
      assert items == items[..n] + [items[n]];
      if NoRepeats(items) {
        assert NoRepeats(items[..n]);
        assert items[n] !in items[..n];
      }
    }
  }

  lemma {:induction false} RecordedPendingExact(items: seq<Pending>)
    ensures Apart(RecordedPending(items))
    ensures forall k, f :: Owed(RecordedPending(items), k, f) <==> Owed(items, k, f)
    ensures RecordedPending(items) == items <==> Apart(items)
  {
    if items != [] {
      var n := |items| - 1;
      var before := RecordedPending(items[..n]);
      RecordedPendingExact(items[..n]);
      OwedSnoc(items[..n], items[n]);
      OwedSnoc(before, items[n]);
      assert items == items[..n] + [items[n]];
      ApartSnoc(items[..n], items[n]);
      ApartSnoc(before, items[n]);
    }
  }

  lemma OwedSnoc(list: seq<Pending>, p: Pending)
    ensures forall k, f :: Owed(list + [p], k, f) <==> Owed(list, k, f) || (p.kind == k && p.frame == f)
  {
    var all := list + [p];
    assert all[|list|] == p && forall i :: 0 <= i < |list| ==> all[i] == list[i];
  }

  lemma ApartSnoc(list: seq<Pending>, p: Pending)
    ensures Apart(list + [p]) <==> Apart(list) && !Owed(list, p.kind, p.frame)
  {
    var all := list + [p];
    assert all[|list|] == p && forall i :: 0 <= i < |list| ==> all[i] == list[i];
    if Apart(all) {
      forall i | 0 <= i < |list| ensures !(list[i].kind == p.kind && list[i].frame == p.frame) {
        assert !all[i].Same(all[|list|]);
      }
      forall i, j | 0 <= i < j < |list| ensures !list[i].Same(list[j]) {
        assert !all[i].Same(all[j]);
      }
    }
  }

  // The snapshot.

  /** Version, payload, checksum: the same frame a checkpoint blob has. */
  function Encode(step: step64, v: View): bytes
    requires Sized(v)
  {
    var framed := [CheckpointCodec.VERSION] + Payload(v);
    framed + Le(Fold<u64>(step, FNV64_OFFSET, framed), Checkpoint.CHECKSUM_LEN)
  }

  function Decode(step: step64, b: bytes): Result<View, Error> {
    var _ :- Checkpoint.Verify(step, b);
    DecodePayload(b[1..|b| - Checkpoint.CHECKSUM_LEN])
  }

  function DecodePayload(b: bytes): Result<View, Error> {
    var written :- TakeWritten(b);
    if written.1 != [] then Err(SnapshotCorrupt) else Ok(Rebuilt(written.0))
  }

  lemma Framed(step: step64, v: View)
    requires Sized(v)
    ensures Decode(step, Encode(step, v)) == DecodePayload(Payload(v))
  {
    hide Payload, DecodePayload, Fold, Le, Checkpoint.Verify;
    var framed := [CheckpointCodec.VERSION] + Payload(v);
    CheckpointRestore.Checked(step, framed);
    var b := Encode(step, v);
    assert b[1..|b| - Checkpoint.CHECKSUM_LEN] == Payload(v);
  }

  /** What a snapshot decodes to is the written lists with repeats recorded
      once. */
  lemma DecodesWritten(step: step64, v: View)
    requires Sized(v)
    ensures Decode(step, Encode(step, v)) == Ok(Rebuilt(v))
  {
    hide Payload, Encode, Decode, TakeWritten, Rebuilt;
    Framed(step, v);
    PayloadBack(v);
  }

  /** The round trip: a state comes back exactly when its never-drop lists and
      facts hold no repeats. */
  lemma SnapshotBack(step: step64, v: View)
    requires Sized(v)
    ensures Decode(step, Encode(step, v)) == Ok(v) <==> Sound(v)
  {
    hide Decode, Encode, Recorded, RecordedPending, NoRepeats, Apart;
    DecodesWritten(step, v);
    RecordedExact(v.facts);
    RecordedExact(v.failed);
    RecordedPendingExact(v.pending);
  }

  /** And so every state that a run of operations reaches comes back. */
  lemma ReachedComesBack(step: step64, objective: u64, budgets: Budgets, versions: Versions, ops: seq<Operation>)
    ensures var v := Reached(step, Empty(objective, budgets, versions), ops);
            Sized(v) && Decode(step, Encode(step, v)) == Ok(v)
  {
    hide Reached, Encode, Decode;
    RunSound(step, Empty(objective, budgets, versions), ops);
    SnapshotBack(step, Reached(step, Empty(objective, budgets, versions), ops));
  }

  lemma EncodeInjective(step: step64, v: View, w: View)
    requires Sized(v) && Sized(w) && Encode(step, v) == Encode(step, w)
    ensures v == w
  {
    hide Payload, TakeWritten, Fold, Le;
    PayloadBack(v);
    PayloadBack(w);
    var b := Encode(step, v);
    assert b[1..|b| - Checkpoint.CHECKSUM_LEN] == Payload(v);
    assert b[1..|b| - Checkpoint.CHECKSUM_LEN] == Payload(w);
  }

  /** Every snapshot that decodes was written from some state, and decodes to a
      sound one; it is that state's own snapshot exactly when nothing in it
      repeats. */
  lemma SnapshotThere(step: step64, b: bytes) returns (written: View)
    requires Decode(step, b).Ok?
    ensures Sized(written) && b == Encode(step, written)
    ensures Decode(step, b) == Ok(Rebuilt(written)) && Sound(Rebuilt(written))
    ensures Encode(step, Rebuilt(written)) == b <==> Sound(written)
  {
    hide Payload, TakeWritten, Fold, Le, Checkpoint.Verify, Recorded, RecordedPending, NoRepeats, Apart;
    CheckpointRestore.CheckedThere(step, b);
    var body := b[1..|b| - Checkpoint.CHECKSUM_LEN];
    assert b[..|b| - Checkpoint.CHECKSUM_LEN] == [CheckpointCodec.VERSION] + body;
    PayloadThere(body);
    written := TakeWritten(body).value.0;
    RecordedExact(written.facts);
    RecordedExact(written.failed);
    RecordedPendingExact(written.pending);
    SnapshotBack(step, written);
    if Encode(step, Rebuilt(written)) == b {
      EncodeInjective(step, Rebuilt(written), written);
    }
  }

  /** A snapshot whose obligations repeat decodes, but not to what was written:
      the later copy, whatever its digest, is lost. */
  lemma RepeatedObligation(step: step64, v: View, p: Pending, q: Pending)
    requires Sized(v) && v.pending == [p, q] && p.Same(q) && p != q
    ensures Decode(step, Encode(step, v)).Ok? && Decode(step, Encode(step, v)).value.pending == [p] != v.pending
  {
    hide Decode, Encode, Recorded;
    DecodesWritten(step, v);
    assert v.pending[..1] == [p] && [p][..0] == [];
    assert RecordedPending([]) == [];
    assert RecordedPending([p]) == [p] by { OneRecorded(p); }
    assert Owed([p], q.kind, q.frame) by { assert [p][0].kind == q.kind; }
  }

  lemma OneRecorded(p: Pending)
    ensures RecordedPending([p]) == [p]
  {
    assert [p][..0] == [] && RecordedPending([]) == [];
    assert !Owed([], p.kind, p.frame);
  }

  // Its length.

  function NotesLen(notes: seq<note>): nat {
    if notes == [] then 0 else 1 + |notes[0]| + NotesLen(notes[1..])
  }

  function FactsLen(facts: seq<Fact>): nat {
    if facts == [] then 0 else 1 + |facts[0].text| + 4 + FactsLen(facts[1..])
  }

  function PayloadLen(v: View): nat {
    8 + 25 + 28 + (1 + NotesLen(v.completed)) + (1 + NotesLen(v.open)) + (1 + 8 * |v.accepted|) + (1 + FactsLen(v.facts))
    + (1 + 10 * |v.failed|) + (1 + 13 * |v.pending|) + (1 + 8 * |v.fingerprints|)
  }

  lemma {:induction false} NotesLength(notes: seq<note>)
    ensures |AllBytes(notes, NoteBytes)| == NotesLen(notes)
  {
    if notes != [] {
      NotesLength(notes[1..]);
    }
  }

  lemma {:induction false} FactsLength(facts: seq<Fact>)
    ensures |AllBytes(facts, FactBytes)| == FactsLen(facts)
  {
    hide Le;
    if facts != [] {
      FactsLength(facts[1..]);
    }
  }

  lemma {:induction false} EvenLength<T(!new)>(items: seq<T>, put: T -> bytes, each: nat)
    requires forall x: T :: |put(x)| == each
    ensures |AllBytes(items, put)| == each * |items|
  {
    if items != [] {
      EvenLength(items[1..], put, each);
      assert each * |items| == each + each * |items[1..]|;
    }
  }

  /** The computed length is the payload's. */
  lemma PayloadLength(v: View)
    requires Sized(v)
    ensures |Payload(v)| == PayloadLen(v)
  {
    hide AllBytes, NotesLen, FactsLen, Le, Sized;
    assert |v.completed| <= 0xFF && |v.open| <= 0xFF && |v.accepted| <= 0xFF && |v.facts| <= 0xFF && |v.failed| <= 0xFF
           && |v.pending| <= 0xFF && |v.fingerprints| <= 0xFF by { SizedSmall(v); }
    NotesLength(v.completed);
    NotesLength(v.open);
    FactsLength(v.facts);
    EvenLength(v.accepted, WordBytes, 8);
    EvenLength(v.failed, PathBytes, 10);
    EvenLength(v.pending, PendingBytes, 13);
    EvenLength(v.fingerprints, WordBytes, 8);
  }

  lemma SizedSmall(v: View)
    requires Sized(v)
    ensures |v.completed| <= 0xFF && |v.open| <= 0xFF && |v.accepted| <= 0xFF && |v.facts| <= 0xFF && |v.failed| <= 0xFF
            && |v.pending| <= 0xFF && |v.fingerprints| <= 0xFF
  {
  }
}
