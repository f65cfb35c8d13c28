/** Writing snapshots into a buffer and rebuilding the state from one, entry by
    entry. */
module SnapshotDevice {
  import opened Words
  import opened Core
  import opened Codec
  import opened Compact
  import opened CompactDevice
  import opened CheckpointSink
  import opened Snapshot
  import Checkpoint
  import CheckpointCodec
  import CheckpointDevice
  import CheckpointRestore

  // Writing.

  /** A counted list, one entry at a time. */
  method PutList<T>(sink: Sink, items: seq<T>, put: T -> bytes) returns (r: Result<(), Error>)
    requires sink.Valid() && |items| <= 0xFF
    modifies sink, sink.out
    ensures sink.Valid() && old(sink.written) <= sink.written
    ensures r == if old(sink.Fits(|ListBytes(items, put)|)) then Ok(()) else Err(SnapshotBufferTooSmall)
    ensures r.Ok? ==> sink.written == old(sink.written) + ListBytes(items, put)
  {
    hide AllBytes;
    ghost var w := sink.written;
    AllSplits(items, put, 0);
    var _ :- sink.PutU8(|items|);
    assert AllBytes(items[..0], put) == [] by { AllNone(items, put); }
    assert items[..|items|] == items;
    for k := 0 to |items|
      invariant sink.Valid() && sink.written == (w + [|items|]) + AllBytes(items[..k], put)
      invariant sink.Fits(0) && old(sink.written) <= sink.written
    {
      AllSnoc(items, put, k);
      AllSplits(items, put, k + 1);
      Regroup(w + [|items|], AllBytes(items[..k], put), put(items[k]));
      var _ :- sink.PutBytes(put(items[k]));
    }
    Regroup(w, [|items|], AllBytes(items, put));
    return Ok(());
  }

  lemma AllNone<T>(items: seq<T>, put: T -> bytes)
    ensures AllBytes(items[..0], put) == []
  {
  }

  lemma {:induction false} AllSnoc<T>(items: seq<T>, put: T -> bytes, k: nat)
    requires k < |items|
    ensures AllBytes(items[..k + 1], put) == AllBytes(items[..k], put) + put(items[k])
    decreases k
  {
    if k == 0 {
      assert items[..1][1..] == [] && AllBytes(items[..1][1..], put) == [];
    } else {
      AllSnoc(items[1..], put, k - 1);
      assert items[..k + 1][1..] == items[1..][..k] && items[..k][1..] == items[1..][..k - 1];
      Regroup(put(items[0]), AllBytes(items[1..][..k - 1], put), put(items[k]));
    }
  }

  /** The first entries' bytes are no longer than all of them. */
  lemma {:induction false} AllSplits<T>(items: seq<T>, put: T -> bytes, k: nat)
    requires k <= |items|
    ensures |AllBytes(items[..k], put)| <= |AllBytes(items, put)|
    decreases |items| - k
  {
    hide AllBytes;
    if k < |items| {
      AllSnoc(items, put, k);
      AllSplits(items, put, k + 1);
    } else {
      assert items[..k] == items;
    }
  }

  method PutBudgets(sink: Sink, v: Budgets) returns (r: Result<(), Error>)
    requires sink.Valid()
    modifies sink, sink.out
    ensures sink.Valid() && old(sink.written) <= sink.written
    ensures r == if old(sink.Fits(|BudgetsBytes(v)|)) then Ok(()) else Err(SnapshotBufferTooSmall)
    ensures r.Ok? ==> sink.written == old(sink.written) + BudgetsBytes(v)
  {
    hide Le;
    ghost var w := sink.written;
    ghost var a := Le(v.modelTurns, 2);
    ghost var b := Le(v.inputTokens, 4);
    ghost var c := Le(v.outputTokens, 4);
    ghost var d := Le(v.elapsedMs, 8);
    ghost var e := Le(v.radioBytes, 4);
    ghost var f := Le(v.mutations, 2);
    ghost var g := [v.consecutiveErrors];
    var _ :- sink.PutWord(v.modelTurns, 2);
    var _ :- sink.PutWord(v.inputTokens, 4);
    var _ :- sink.PutWord(v.outputTokens, 4);
    var _ :- sink.PutWord(v.elapsedMs, 8);
    var _ :- sink.PutWord(v.radioBytes, 4);
    var _ :- sink.PutWord(v.mutations, 2);
    var _ :- sink.PutU8(v.consecutiveErrors);
    Regroup(((((w + a) + b) + c) + d) + e, f, g);
    Regroup((((w + a) + b) + c) + d, e, f + g);
    Regroup(((w + a) + b) + c, d, e + (f + g));
    Regroup((w + a) + b, c, d + (e + (f + g)));
    Regroup(w + a, b, c + (d + (e + (f + g))));
    Regroup(w, a, b + (c + (d + (e + (f + g)))));
    return Ok(());
  }

  method PutVersions(sink: Sink, v: Versions) returns (r: Result<(), Error>)
    requires sink.Valid()
    modifies sink, sink.out
    ensures sink.Valid() && old(sink.written) <= sink.written
    ensures r == if old(sink.Fits(|VersionsBytes(v)|)) then Ok(()) else Err(SnapshotBufferTooSmall)
    ensures r.Ok? ==> sink.written == old(sink.written) + VersionsBytes(v)
  {
    hide Le;
    ghost var w := sink.written;
    ghost var a := Le(v.workflow, 4);
    ghost var b := Le(v.model, 8);
    ghost var c := Le(v.catalog, 8);
    ghost var d := Le(v.policy, 8);
    var _ :- sink.PutWord(v.workflow, 4);
    var _ :- sink.PutWord(v.model, 8);
    var _ :- sink.PutWord(v.catalog, 8);
    var _ :- sink.PutWord(v.policy, 8);
    Regroup((w + a) + b, c, d);
    Regroup(w + a, b, c + d);
    Regroup(w, a, b + (c + d));
    return Ok(());
  }

  method PutScalars(sink: Sink, v: View) returns (r: Result<(), Error>)
    requires sink.Valid()
    modifies sink, sink.out
    ensures sink.Valid() && old(sink.written) <= sink.written
    ensures r == if old(sink.Fits(|ScalarBytes(v)|)) then Ok(()) else Err(SnapshotBufferTooSmall)
    ensures r.Ok? ==> sink.written == old(sink.written) + ScalarBytes(v)
  {
    hide Le, BudgetsBytes, VersionsBytes;
    ghost var w := sink.written;
    var _ :- sink.PutWord(v.objective, 8);
    var _ :- PutBudgets(sink, v.budgets);
    var _ :- PutVersions(sink, v.versions);
    ghost var a := Le(v.objective, 8);
    Regroup(w + a, BudgetsBytes(v.budgets), VersionsBytes(v.versions));
    Regroup(w, a, BudgetsBytes(v.budgets) + VersionsBytes(v.versions));
    return Ok(());
  }

  method PutNewest(sink: Sink, v: View) returns (r: Result<(), Error>)
    requires sink.Valid() && Sized(v)
    modifies sink, sink.out
    ensures sink.Valid() && old(sink.written) <= sink.written
    ensures r == if old(sink.Fits(|NewestBytes(v)|)) then Ok(()) else Err(SnapshotBufferTooSmall)
    ensures r.Ok? ==> sink.written == old(sink.written) + NewestBytes(v)
  {
    hide ListBytes;
    ghost var w := sink.written;
    ghost var a, b, c := ListBytes(v.completed, NoteBytes), ListBytes(v.open, NoteBytes), ListBytes(v.accepted, WordBytes);
    var _ :- PutList(sink, v.completed, NoteBytes);
    var _ :- PutList(sink, v.open, NoteBytes);
    var _ :- PutList(sink, v.accepted, WordBytes);
    Regroup(w + a, b, c);
    Regroup(w, a, b + c);
    return Ok(());
  }

  method PutKept(sink: Sink, v: View) returns (r: Result<(), Error>)
    requires sink.Valid() && Sized(v)
    modifies sink, sink.out
    ensures sink.Valid() && old(sink.written) <= sink.written
    ensures r == if old(sink.Fits(|KeptBytes(v)|)) then Ok(()) else Err(SnapshotBufferTooSmall)
    ensures r.Ok? ==> sink.written == old(sink.written) + KeptBytes(v)
  {
    hide ListBytes;
    ghost var w := sink.written;
    ghost var a, b := ListBytes(v.facts, FactBytes), ListBytes(v.failed, PathBytes);
    ghost var c, d := ListBytes(v.pending, PendingBytes), ListBytes(v.fingerprints, WordBytes);
    var _ :- PutList(sink, v.facts, FactBytes);
    var _ :- PutList(sink, v.failed, PathBytes);
    var _ :- PutList(sink, v.pending, PendingBytes);
    var _ :- PutList(sink, v.fingerprints, WordBytes);
    Regroup((w + a) + b, c, d);
    Regroup(w + a, b, c + d);
    Regroup(w, a, b + (c + d));
    return Ok(());
  }

  method PutPayload(sink: Sink, v: View) returns (r: Result<(), Error>)
    requires sink.Valid() && Sized(v)
    modifies sink, sink.out
    ensures sink.Valid() && old(sink.written) <= sink.written
    ensures r == if old(sink.Fits(|Payload(v)|)) then Ok(()) else Err(SnapshotBufferTooSmall)
    ensures r.Ok? ==> sink.written == old(sink.written) + Payload(v)
  {
    hide ScalarBytes, NewestBytes, KeptBytes, Sized;
    ghost var w := sink.written;
    var _ :- PutScalars(sink, v);
    var _ :- PutNewest(sink, v);
    var _ :- PutKept(sink, v);
    Regroup(w + ScalarBytes(v), NewestBytes(v), KeptBytes(v));
    Regroup(w, ScalarBytes(v), NewestBytes(v) + KeptBytes(v));
    return Ok(());
  }

  method CountNotes(notes: seq<note>) returns (n: nat)
    ensures n == NotesLen(notes)
  {
    n := 0;
    assert notes[0..] == notes;
    for k := 0 to |notes|
      invariant n + NotesLen(notes[k..]) == NotesLen(notes)
    {
      assert notes[k..][1..] == notes[k + 1..];
      n := n + 1 + |notes[k]|;
    }
  }

  method CountFacts(facts: seq<Fact>) returns (n: nat)
    ensures n == FactsLen(facts)
  {
    n := 0;
    assert facts[0..] == facts;
    for k := 0 to |facts|
      invariant n + FactsLen(facts[k..]) == FactsLen(facts)
    {
      assert facts[k..][1..] == facts[k + 1..];
      n := n + 1 + |facts[k].text| + 4;
    }
  }

  /** Exactly the bytes the snapshot takes. */
  method EncodedLen(step: step64, v: View) returns (n: nat)
    requires Sized(v)
    ensures n == |Encode(step, v)|
  {
    hide Payload, Fold, Le;
    PayloadLength(v);
    var completed := CountNotes(v.completed);
    var open := CountNotes(v.open);
    var facts := CountFacts(v.facts);
    n := 8 + 25 + 28 + (1 + completed) + (1 + open) + (1 + 8 * |v.accepted|) + (1 + facts)
         + (1 + 10 * |v.failed|) + (1 + 13 * |v.pending|) + (1 + 8 * |v.fingerprints|);
    n := 1 + n + Checkpoint.CHECKSUM_LEN;
  }

  /** The snapshot, when the buffer has room for all of it. */
  method EncodeInto(step: step64, v: View, out: array<u8>) returns (r: Result<nat, Error>)
    requires Sized(v)
    modifies out
    ensures var b := Encode(step, v);
            if |b| <= out.Length then r == Ok(|b|) && out[..|b|] == b else r == Err(SnapshotBufferTooSmall)
  {
    hide Payload, Fold, Le, Sized;
    var need := EncodedLen(step, v);
    if out.Length < need {
      return Err(SnapshotBufferTooSmall);
    }
    var sink := new Sink.Writing(out);
    var _ := sink.PutU8(CheckpointCodec.VERSION);
    assert sink.written == [CheckpointCodec.VERSION];
    var _ := PutPayload(sink, v);
    var end := sink.pos;
    assert out[..end] == [CheckpointCodec.VERSION] + Payload(v);
    var checksum := FoldBytes<u64>(step, FNV64_OFFSET, out[..end]);
    var _ := sink.PutWord(checksum, Checkpoint.CHECKSUM_LEN);
    return Ok(sink.pos);
  }

  // Reading.

  /** What entries already read make of reading the rest. */
  ghost function Prepend<T>(got: seq<T>, rest: Result<(seq<T>, bytes), Error>): Result<(seq<T>, bytes), Error> {
    match rest case Err(e) => Err(e) case Ok(p) => Ok((got + p.0, p.1))
  }

  lemma PrependNone<T>(rest: Result<(seq<T>, bytes), Error>)
    ensures Prepend([], rest) == rest
  {
    if rest.Ok? {
      assert [] + rest.value.0 == rest.value.0;
    }
  }

  lemma PrependNext<T>(got: seq<T>, b: bytes, n: nat, take: bytes -> Result<(T, bytes), Error>)
    requires n > 0
    ensures take(b).Err? ==> Prepend(got, TakeN(b, n, take)) == Err(take(b).error)
    ensures take(b).Ok? ==> Prepend(got, TakeN(b, n, take)) == Prepend(got + [take(b).value.0], TakeN(take(b).value.1, n - 1, take))
  {
    if take(b).Ok? && TakeN(take(b).value.1, n - 1, take).Ok? {
      var x, rest := take(b).value, TakeN(take(b).value.1, n - 1, take).value;
      assert got + ([x.0] + rest.0) == (got + [x.0]) + rest.0;
    }
  }

  lemma PrependAll<T>(got: seq<T>, b: bytes, take: bytes -> Result<(T, bytes), Error>)
    ensures Prepend(got, TakeN(b, 0, take)) == Ok((got, b))
  {
    assert got + [] == got;
  }

  method ReadCount(reader: Reader, cap: nat) returns (r: Result<nat, Error>)
    requires reader.Valid()
    modifies reader
    ensures reader.Valid()
    ensures match TakeU8(old(reader.Rest())) {
              case Err(e) => r == Err(e)
              case Ok(p) => if p.0 > cap then r == Err(SnapshotCorrupt) else r == Ok(p.0) && reader.Rest() == p.1
            }
  {
    hide TakeU8;
    var n :- reader.ReadU8();
    return if n > cap then Err(SnapshotCorrupt) else Ok(n);
  }

  lemma PushShort<T>(list: seq<T>, cap: nat, x: T)
    requires |list| < cap
    ensures PushBounded(list, cap, x) == list + [x]
  {
  }

  method ReadCompleted(reader: Reader, state: State) returns (r: Result<(), Error>)
    requires reader.Valid() && state.Valid() && reader !in state.parts && state.Contents().completed == []
    modifies reader, state.parts
    ensures reader.Valid() && state.Valid()
    ensures match TakeList(old(reader.Rest()), MAX_COMPLETED, TakeNote) {
              case Err(e) => r == Err(e)
              case Ok(p) => r == Ok(()) && reader.Rest() == p.1 && state.Contents() == old(state.Contents()).(completed := p.0)
            }
  {
    hide TakeU8, TakeN, TakeNote, State.Valid, State.Contents, PushBounded, Prepend;
    ghost var before := state.Contents();
    var n :- ReadCount(reader, MAX_COMPLETED);
    ghost var rest, got: seq<note> := reader.Rest(), [];
    PrependNone(TakeN(rest, n, TakeNote));
    for k := 0 to n
      invariant reader.Valid() && state.Valid() && |got| == k
      invariant state.Contents() == before.(completed := got)
      invariant Prepend(got, TakeN(reader.Rest(), n - k, TakeNote)) == TakeN(rest, n, TakeNote)
    {
      PrependNext(got, reader.Rest(), n - k, TakeNote);
      var x :- reader.ReadNote();
      PushShort(got, MAX_COMPLETED, x);
      state.AddCompleted(x);
      got := got + [x];
    }
    PrependAll(got, reader.Rest(), TakeNote);
    return Ok(());
  }

  method ReadOpen(reader: Reader, state: State) returns (r: Result<(), Error>)
    requires reader.Valid() && state.Valid() && reader !in state.parts && state.Contents().open == []
    modifies reader, state.parts
    ensures reader.Valid() && state.Valid()
    ensures match TakeList(old(reader.Rest()), MAX_OPEN, TakeNote) {
              case Err(e) => r == Err(e)
              case Ok(p) => r == Ok(()) && reader.Rest() == p.1 && state.Contents() == old(state.Contents()).(open := p.0)
            }
  {
    hide TakeU8, TakeN, TakeNote, State.Valid, State.Contents, PushBounded, Prepend;
    ghost var before := state.Contents();
    var n :- ReadCount(reader, MAX_OPEN);
    ghost var rest, got: seq<note> := reader.Rest(), [];
    PrependNone(TakeN(rest, n, TakeNote));
    for k := 0 to n
      invariant reader.Valid() && state.Valid() && |got| == k
      invariant state.Contents() == before.(open := got)
      invariant Prepend(got, TakeN(reader.Rest(), n - k, TakeNote)) == TakeN(rest, n, TakeNote)
    {
      PrependNext(got, reader.Rest(), n - k, TakeNote);
      var x :- reader.ReadNote();
      PushShort(got, MAX_OPEN, x);
      state.AddOpen(x);
      got := got + [x];
    }
    PrependAll(got, reader.Rest(), TakeNote);
    return Ok(());
  }

  method ReadDecisions(reader: Reader, state: State) returns (r: Result<(), Error>)
    requires reader.Valid() && state.Valid() && reader !in state.parts && state.Contents().accepted == []
    modifies reader, state.parts
    ensures reader.Valid() && state.Valid()
    ensures match TakeList(old(reader.Rest()), MAX_ACCEPTED, TakeU64) {
              case Err(e) => r == Err(e)
              case Ok(p) => r == Ok(()) && reader.Rest() == p.1 && state.Contents() == old(state.Contents()).(accepted := p.0)
            }
  {
    hide TakeU8, TakeN, TakeU64, State.Valid, State.Contents, PushBounded, Prepend;
    ghost var before := state.Contents();
    var n :- ReadCount(reader, MAX_ACCEPTED);
    ghost var rest, got: seq<u64> := reader.Rest(), [];
    PrependNone(TakeN(rest, n, TakeU64));
    for k := 0 to n
      invariant reader.Valid() && state.Valid() && |got| == k
      invariant state.Contents() == before.(accepted := got)
      invariant Prepend(got, TakeN(reader.Rest(), n - k, TakeU64)) == TakeN(rest, n, TakeU64)
    {
      PrependNext(got, reader.Rest(), n - k, TakeU64);
      var x :- reader.ReadU64();
      PushShort(got, MAX_ACCEPTED, x);
      state.AddDecision(x);
      got := got + [x];
    }
    PrependAll(got, reader.Rest(), TakeU64);
    return Ok(());
  }

  method ReadFingerprints(reader: Reader, state: State) returns (r: Result<(), Error>)
    requires reader.Valid() && state.Valid() && reader !in state.parts && state.Contents().fingerprints == []
    modifies reader, state.parts
    ensures reader.Valid() && state.Valid()
    ensures match TakeList(old(reader.Rest()), MAX_FINGERPRINTS, TakeU64) {
              case Err(e) => r == Err(e)
              case Ok(p) => r == Ok(()) && reader.Rest() == p.1 && state.Contents() == old(state.Contents()).(fingerprints := p.0)
            }
  {
    hide TakeU8, TakeN, TakeU64, State.Valid, State.Contents, PushBounded, Prepend;
    ghost var before := state.Contents();
    var n :- ReadCount(reader, MAX_FINGERPRINTS);
    ghost var rest, got: seq<u64> := reader.Rest(), [];
    PrependNone(TakeN(rest, n, TakeU64));
    for k := 0 to n
      invariant reader.Valid() && state.Valid() && |got| == k
      invariant state.Contents() == before.(fingerprints := got)
      invariant Prepend(got, TakeN(reader.Rest(), n - k, TakeU64)) == TakeN(rest, n, TakeU64)
    {
      PrependNext(got, reader.Rest(), n - k, TakeU64);
      var x :- reader.ReadU64();
      PushShort(got, MAX_FINGERPRINTS, x);
      state.AddFingerprint(x);
      got := got + [x];
    }
    PrependAll(got, reader.Rest(), TakeU64);
    return Ok(());
  }

  method ReadFact(reader: Reader) returns (r: Result<Fact, Error>)
    requires reader.Valid()
    modifies reader
    ensures reader.Valid()
    ensures match TakeFact(old(reader.Rest())) case Ok(p) => r == Ok(p.0) && reader.Rest() == p.1 case Err(e) => r == Err(e)
  {
    hide TakeNote, TakeU32;
    var text :- reader.ReadNote();
    var source :- reader.ReadU32();
    return Ok(Fact(text, source));
  }

  lemma RecordedNone<T>()
    ensures Recorded<T>([]) == []
  {
  }

  lemma RecordedNext(got: seq<Fact>, x: Fact, v: View)
    requires v.facts == Recorded(got) && |got| < MAX_FACTS
    ensures RecordFact(v, x) == v.(facts := Recorded(got + [x]))
  {
    hide PushBounded;
    assert (got + [x])[..|got|] == got;
    assert Recorded(got + [x]) == if x in Recorded(got) then Recorded(got) else Recorded(got) + [x];
    PushShort(v.facts, MAX_FACTS, x);
  }

  method ReadFacts(reader: Reader, state: State) returns (r: Result<(), Error>)
    requires reader.Valid() && state.Valid() && reader !in state.parts && state.Contents().facts == []
    modifies reader, state.parts
    ensures reader.Valid() && state.Valid()
    ensures match TakeList(old(reader.Rest()), MAX_FACTS, TakeFact) {
              case Err(e) => r == Err(e)
              case Ok(p) => r == Ok(()) && reader.Rest() == p.1 && state.Contents() == old(state.Contents()).(facts := Recorded(p.0))
            }
  {
    hide TakeU8, TakeN, TakeFact, State.Valid, State.Contents, RecordFact, Prepend, Recorded;
    assert Recorded<Fact>([]) == [] by { RecordedNone<Fact>(); }
    ghost var before := state.Contents();
    var n :- ReadCount(reader, MAX_FACTS);
    ghost var rest, got: seq<Fact> := reader.Rest(), [];
    PrependNone(TakeN(rest, n, TakeFact));
    for k := 0 to n
      invariant reader.Valid() && state.Valid() && |got| == k
      invariant state.Contents() == before.(facts := Recorded(got))
      invariant Prepend(got, TakeN(reader.Rest(), n - k, TakeFact)) == TakeN(rest, n, TakeFact)
    {
      PrependNext(got, reader.Rest(), n - k, TakeFact);
      var x :- ReadFact(reader);
      RecordedNext(got, x, state.Contents());
      state.AddFact(x);
      got := got + [x];
    }
    PrependAll(got, reader.Rest(), TakeFact);
    return Ok(());
  }

  method ReadPath(reader: Reader) returns (r: Result<FailedPath, Error>)
    requires reader.Valid()
    modifies reader
    ensures reader.Valid()
    ensures match TakePath(old(reader.Rest())) case Ok(p) => r == Ok(p.0) && reader.Rest() == p.1 case Err(e) => r == Err(e)
  {
    hide TakeU8, TakeU64;
    var tool :- reader.ReadU8();
    var args :- reader.ReadU64();
    var error :- reader.ReadU8();
    return if error > LAST_CODE then Err(SnapshotCorrupt) else Ok(FailedPath(tool, args, error));
  }

  lemma PathsNext(got: seq<FailedPath>, x: FailedPath, v: View)
    requires v.failed == Recorded(got) && |got| < MAX_FAILED
    ensures RecordFailed(v, x) == Ok(v.(failed := Recorded(got + [x])))
  {
    assert (got + [x])[..|got|] == got;
    assert Recorded(got + [x]) == if x in Recorded(got) then Recorded(got) else Recorded(got) + [x];
  }

  method NextPath(reader: Reader, state: State, ghost got: seq<FailedPath>) returns (r: Result<FailedPath, Error>)
    requires reader.Valid() && state.Valid() && reader !in state.parts
    requires |got| < MAX_FAILED && state.Contents().failed == Recorded(got)
    modifies reader, state.parts
    ensures reader.Valid() && state.Valid()
    ensures match TakePath(old(reader.Rest())) {
              case Err(e) => r == Err(e)
              case Ok(p) => r == Ok(p.0) && reader.Rest() == p.1 && state.Contents() == old(state.Contents()).(failed := Recorded(got + [p.0]))
            }
  {
    hide TakePath, State.Valid, State.Contents, RecordFailed, Recorded;
    ghost var before := state.Contents();
    var x :- ReadPath(reader);
    PathsNext(got, x, before);
    var _ := state.AddFailed(x);
    return Ok(x);
  }

  method ReadPaths(reader: Reader, state: State) returns (r: Result<(), Error>)
    requires reader.Valid() && state.Valid() && reader !in state.parts && state.Contents().failed == []
    modifies reader, state.parts
    ensures reader.Valid() && state.Valid()
    ensures match TakeList(old(reader.Rest()), MAX_FAILED, TakePath) {
              case Err(e) => r == Err(e)
              case Ok(p) => r == Ok(()) && reader.Rest() == p.1 && state.Contents() == old(state.Contents()).(failed := Recorded(p.0))
            }
  {
    hide TakeU8, TakeN, TakePath, State.Valid, State.Contents, RecordFailed, Prepend, Recorded;
    assert Recorded<FailedPath>([]) == [] by { RecordedNone<FailedPath>(); }
    ghost var before := state.Contents();
    var n :- ReadCount(reader, MAX_FAILED);
    ghost var rest, got: seq<FailedPath> := reader.Rest(), [];
    PrependNone(TakeN(rest, n, TakePath));
    for k := 0 to n
      invariant reader.Valid() && state.Valid() && |got| == k
      invariant state.Contents() == before.(failed := Recorded(got))
      invariant Prepend(got, TakeN(reader.Rest(), n - k, TakePath)) == TakeN(rest, n, TakePath)
    {
      PrependNext(got, reader.Rest(), n - k, TakePath);
      var x :- NextPath(reader, state, got);
      got := got + [x];
    }
    PrependAll(got, reader.Rest(), TakePath);
    return Ok(());
  }

  method ReadPending(reader: Reader) returns (r: Result<Pending, Error>)
    requires reader.Valid()
    modifies reader
    ensures reader.Valid()
    ensures match TakePending(old(reader.Rest())) case Ok(p) => r == Ok(p.0) && reader.Rest() == p.1 case Err(e) => r == Err(e)
  {
    hide TakeU8, TakeU32, TakeU64;
    var kind :- reader.ReadU8();
    if kind > 1 {
      return Err(SnapshotCorrupt);
    }
    var frame :- reader.ReadU32();
    var digest :- reader.ReadU64();
    return Ok(Pending(if kind == 0 then Approval else Verification, frame, digest));
  }

  lemma PendingsNext(got: seq<Pending>, x: Pending, v: View)
    requires v.pending == RecordedPending(got) && |got| < MAX_PENDING
    ensures RecordPending(v, x) == Ok(v.(pending := RecordedPending(got + [x])))
  {
    assert (got + [x])[..|got|] == got;
  }

  method NextPending(reader: Reader, state: State, ghost got: seq<Pending>) returns (r: Result<Pending, Error>)
    requires reader.Valid() && state.Valid() && reader !in state.parts
    requires |got| < MAX_PENDING && state.Contents().pending == RecordedPending(got)
    modifies reader, state.parts
    ensures reader.Valid() && state.Valid()
    ensures match TakePending(old(reader.Rest())) {
              case Err(e) => r == Err(e)
              case Ok(p) => r == Ok(p.0) && reader.Rest() == p.1 && state.Contents() == old(state.Contents()).(pending := RecordedPending(got + [p.0]))
            }
  {
    hide TakePending, State.Valid, State.Contents, RecordPending, RecordedPending;
    ghost var before := state.Contents();
    var x :- ReadPending(reader);
    PendingsNext(got, x, before);
    var _ := state.AddPending(x);
    return Ok(x);
  }

  method ReadPendings(reader: Reader, state: State) returns (r: Result<(), Error>)
    requires reader.Valid() && state.Valid() && reader !in state.parts && state.Contents().pending == []
    modifies reader, state.parts
    ensures reader.Valid() && state.Valid()
    ensures match TakeList(old(reader.Rest()), MAX_PENDING, TakePending) {
              case Err(e) => r == Err(e)
              case Ok(p) => r == Ok(()) && reader.Rest() == p.1 && state.Contents() == old(state.Contents()).(pending := RecordedPending(p.0))
            }
  {
    hide TakeU8, TakeN, TakePending, State.Valid, State.Contents, RecordPending, Prepend;
    ghost var before := state.Contents();
    var n :- ReadCount(reader, MAX_PENDING);
    ghost var rest, got: seq<Pending> := reader.Rest(), [];
    PrependNone(TakeN(rest, n, TakePending));
    for k := 0 to n
      invariant reader.Valid() && state.Valid() && |got| == k
      invariant state.Contents() == before.(pending := RecordedPending(got))
      invariant Prepend(got, TakeN(reader.Rest(), n - k, TakePending)) == TakeN(rest, n, TakePending)
    {
      PrependNext(got, reader.Rest(), n - k, TakePending);
      var x :- NextPending(reader, state, got);
      got := got + [x];
    }
    PrependAll(got, reader.Rest(), TakePending);
    return Ok(());
  }

  method ReadBudgets(reader: Reader) returns (r: Result<Budgets, Error>)
    requires reader.Valid()
    modifies reader
    ensures reader.Valid()
    ensures match TakeBudgets(old(reader.Rest())) case Ok(p) => r == Ok(p.0) && reader.Rest() == p.1 case Err(e) => r == Err(e)
  {
    hide TakeU8, TakeU16, TakeU32, TakeU64;
    var modelTurns :- reader.ReadU16();
    var inputTokens :- reader.ReadU32();
    var outputTokens :- reader.ReadU32();
    var elapsedMs :- reader.ReadU64();
    var radioBytes :- reader.ReadU32();
    var mutations :- reader.ReadU16();
    var errors :- reader.ReadU8();
    return Ok(Budgets(modelTurns, inputTokens, outputTokens, elapsedMs, radioBytes, mutations, errors));
  }

  method ReadVersions(reader: Reader) returns (r: Result<Versions, Error>)
    requires reader.Valid()
    modifies reader
    ensures reader.Valid()
    ensures match TakeVersions(old(reader.Rest())) case Ok(p) => r == Ok(p.0) && reader.Rest() == p.1 case Err(e) => r == Err(e)
  {
    hide TakeU32, TakeU64;
    var workflow :- reader.ReadU32();
    var model :- reader.ReadU64();
    var catalog :- reader.ReadU64();
    var policy :- reader.ReadU64();
    return Ok(Versions(workflow, model, catalog, policy));
  }

  /** The scalars, into a state with empty lists. */
  method ReadScalars(reader: Reader) returns (r: Result<State, Error>)
    requires reader.Valid()
    modifies reader
    ensures reader.Valid()
    ensures match TakeScalars(old(reader.Rest())) {
              case Err(e) => r == Err(e)
              case Ok(p) => r.Ok? && r.value.Valid() && fresh(r.value) && fresh(r.value.parts) && r.value.Contents() == p.0 && reader.Rest() == p.1
            }
  {
    hide TakeU64, TakeBudgets, TakeVersions, State.Valid, State.Contents;
    var objective :- reader.ReadU64();
    var budgets :- ReadBudgets(reader);
    var versions :- ReadVersions(reader);
    var state := new State(objective, budgets, versions);
    return Ok(state);
  }

  method ReadNewest(reader: Reader, state: State) returns (r: Result<(), Error>)
    requires reader.Valid() && state.Valid() && reader !in state.parts
    requires state.Contents().completed == [] && state.Contents().open == [] && state.Contents().accepted == []
    modifies reader, state.parts
    ensures reader.Valid() && state.Valid()
    ensures match TakeNewest(old(state.Contents()), old(reader.Rest())) {
              case Err(e) => r == Err(e)
              case Ok(p) => r == Ok(()) && state.Contents() == p.0 && reader.Rest() == p.1
            }
  {
    hide TakeList, State.Valid, State.Contents;
    var _ :- ReadCompleted(reader, state);
    var _ :- ReadOpen(reader, state);
    var _ :- ReadDecisions(reader, state);
    return Ok(());
  }

  method ReadKept(reader: Reader, state: State) returns (r: Result<(), Error>)
    requires reader.Valid() && state.Valid() && reader !in state.parts
    requires state.Contents().facts == [] && state.Contents().failed == [] && state.Contents().pending == [] && state.Contents().fingerprints == []
    modifies reader, state.parts
    ensures reader.Valid() && state.Valid()
    ensures match TakeKept(old(state.Contents()), old(reader.Rest())) {
              case Err(e) => r == Err(e)
              case Ok(p) => r == Ok(()) && state.Contents() == Rebuilt(p.0) && reader.Rest() == p.1
            }
  {
    hide TakeList, State.Valid, State.Contents, Recorded, RecordedPending;
    var _ :- ReadFacts(reader, state);
    var _ :- ReadPaths(reader, state);
    var _ :- ReadPendings(reader, state);
    var _ :- ReadFingerprints(reader, state);
    return Ok(());
  }

  lemma ScalarsHaveNone(b: bytes)
    ensures TakeScalars(b).Ok? ==> var v := TakeScalars(b).value.0;
              v == Empty(v.objective, v.budgets, v.versions)
  {
    hide TakeU64, TakeBudgets, TakeVersions;
  }

  lemma NewestLeavesKept(v: View, b: bytes)
    ensures TakeNewest(v, b).Ok? ==> var w := TakeNewest(v, b).value.0;
              w.facts == v.facts && w.failed == v.failed && w.pending == v.pending && w.fingerprints == v.fingerprints
  {
    hide TakeList;
  }

  method ReadPayload(reader: Reader) returns (r: Result<State, Error>)
    requires reader.Valid()
    modifies reader
    ensures match DecodePayload(old(reader.Rest())) {
              case Err(e) => r == Err(e)
              case Ok(v) => r.Ok? && r.value.Valid() && r.value.Contents() == v
            }
  {
    hide TakeScalars, TakeNewest, TakeKept, State.Valid, State.Contents, Rebuilt;
    ScalarsHaveNone(reader.Rest());
    var state :- ReadScalars(reader);
    NewestLeavesKept(state.Contents(), reader.Rest());
    var _ :- ReadNewest(reader, state);
    var _ :- ReadKept(reader, state);
    if reader.pos != reader.end {
      return Err(SnapshotCorrupt);
    }
    return Ok(state);
  }

  /** Verify a snapshot, then rebuild its state. */
  method DecodeSnapshot(step: step64, b: bytes) returns (r: Result<State, Error>)
    ensures match Decode(step, b) {
              case Err(e) => r == Err(e)
              case Ok(v) => r.Ok? && r.value.Valid() && r.value.Contents() == v
            }
  {
    hide DecodePayload, Checkpoint.Verify, State.Valid, State.Contents;
    var _ :- CheckpointDevice.VerifyBlob(step, b);
    assert |b| > Checkpoint.CHECKSUM_LEN by { CheckpointRestore.CheckedThere(step, b); }
    var reader := new Reader(b, 1, |b| - Checkpoint.CHECKSUM_LEN);
    r := ReadPayload(reader);
  }
}
