/** The bounded writer and reader checkpoints go through: cursors over a buffer,
    field by field. */
module CheckpointSink {
  import opened Words
  import opened Core
  import opened Codec
  import opened CheckpointCodec
  import opened Ledger
  import opened Memory

  /** A bounded writer; while counting it only moves its cursor. */
  class Sink {
    const out: array<u8>
    const counting: bool
    var pos: nat
    /** The bytes put so far. */
    ghost var written: bytes

    ghost predicate Valid()
      reads this, out
    {
      |written| == pos && (!counting ==> pos <= out.Length && out[..pos] == written)
    }

    predicate Fits(n: nat)
      reads this
    {
      counting || pos + n <= out.Length
    }

    constructor Writing(out: array<u8>)
      ensures Valid() && this.out == out && !counting && written == []
    {
      this.out := out;
      counting := false;
      pos := 0;
      written := [];
    }

    constructor Counting()
      ensures Valid() && counting && written == [] && fresh(out)
    {
      out := new u8[0];
      counting := true;
      pos := 0;
      written := [];
    }

    /** All of `b` after what was put before, or nothing and an error. */
    method PutBytes(b: bytes) returns (r: Result<(), Error>)
      requires Valid()
      modifies this, out
      ensures Valid() && r == if old(Fits(|b|)) then Ok(()) else Err(SnapshotBufferTooSmall)
      ensures written == if r.Ok? then old(written) + b else old(written)
    {
      if !counting {
        if pos + |b| > out.Length {
          return Err(SnapshotBufferTooSmall);
        }
        for k := 0 to |b|
          invariant pos == old(pos) && written == old(written)
          invariant out[..pos] == written
          invariant forall j :: 0 <= j < k ==> out[pos + j] == b[j]
        {
          out[pos + k] := b[k];
        }
        assert out[..pos + |b|] == out[..pos] + b;
      }
      pos := pos + |b|;
      written := written + b;
      return Ok(());
    }

    method PutU8(v: u8) returns (r: Result<(), Error>)
      requires Valid()
      modifies this, out
      ensures Valid() && r == if old(Fits(1)) then Ok(()) else Err(SnapshotBufferTooSmall)
      ensures written == if r.Ok? then old(written) + [v] else old(written)
    {
      r := PutBytes([v]);
    }

    /** `v` in `width` little-endian bytes. */
    method PutWord(v: nat, width: nat) returns (r: Result<(), Error>)
      requires Valid()
      modifies this, out
      ensures Valid() && r == if old(Fits(width)) then Ok(()) else Err(SnapshotBufferTooSmall)
      ensures written == if r.Ok? then old(written) + Le(v, width) else old(written)
    {
      r := PutBytes(Le(v, width));
    }

    method PutNote(v: note) returns (r: Result<(), Error>)
      requires Valid()
      modifies this, out
      ensures Valid() && r == if old(Fits(|NoteBytes(v)|)) then Ok(()) else Err(SnapshotBufferTooSmall)
      ensures old(written) <= written && (r.Ok? ==> written == old(written) + NoteBytes(v))
    {
      ghost var w := written;
      var _ :- PutU8(|v|);
      var _ :- PutBytes(v);
      Regroup(w, [|v|], v);
      return Ok(());
    }

    method PutRun(v: Option<u64>) returns (r: Result<(), Error>)
      requires Valid()
      modifies this, out
      ensures Valid() && r == if old(Fits(|RunBytes(v)|)) then Ok(()) else Err(SnapshotBufferTooSmall)
      ensures old(written) <= written && (r.Ok? ==> written == old(written) + RunBytes(v))
    {
      hide Le;
      ghost var w := written;
      var id: u64 := if v.Some? then v.value else 0;
      var _ :- PutU8(if v.Some? then 1 else 0);
      var _ :- PutWord(id, 8);
      Regroup(w, FlagBytes(v.Some?), Le(id, 8));
      return Ok(());
    }

    method PutCadence(c: Cadence) returns (r: Result<(), Error>)
      requires Valid()
      modifies this, out
      ensures Valid() && r == if old(Fits(|CadenceBytes(c)|)) then Ok(()) else Err(SnapshotBufferTooSmall)
      ensures old(written) <= written && (r.Ok? ==> written == old(written) + CadenceBytes(c))
    {
      hide Le;
      ghost var w := written;
      match c {
        case Once =>
          var _ :- PutU8(0);
          var _ :- PutWord(0, 4);
          Regroup(w, [0], Le(0, 4));
        case Every(every) =>
          var _ :- PutU8(1);
          var _ :- PutWord(every, 4);
          Regroup(w, [1], Le(every, 4));
      }
      return Ok(());
    }

    method PutIdentity(v: Identity) returns (r: Result<(), Error>)
      requires Valid()
      modifies this, out
      ensures Valid() && r == if old(Fits(|IdentityBytes(v)|)) then Ok(()) else Err(SnapshotBufferTooSmall)
      ensures old(written) <= written && (r.Ok? ==> written == old(written) + IdentityBytes(v))
    {
      hide Le, NoteBytes, CadenceBytes;
      ghost var w := written;
      ghost var a := Le(v.id, 2);
      ghost var b := NoteBytes(v.objective);
      ghost var c := CadenceBytes(v.cadence);
      var _ :- PutWord(v.id, 2);
      var _ :- PutNote(v.objective);
      var _ :- PutU8(v.priority);
      var _ :- PutCadence(v.cadence);
      Regroup((w + a) + b, [v.priority], c);
      Regroup(w + a, b, [v.priority] + c);
      Regroup(w, a, b + ([v.priority] + c));
      return Ok(());
    }

    method PutEnvelope(v: Envelope) returns (r: Result<(), Error>)
      requires Valid()
      modifies this, out
      ensures Valid() && r == if old(Fits(|EnvelopeBytes(v)|)) then Ok(()) else Err(SnapshotBufferTooSmall)
      ensures old(written) <= written && (r.Ok? ==> written == old(written) + EnvelopeBytes(v))
    {
      hide Le;
      ghost var w := written;
      ghost var a := Le(v.perRunTurns, 2);
      ghost var b := Le(v.perRunMutations, 2);
      ghost var c := Le(v.turns, 4);
      ghost var d := Le(v.mutations, 4);
      ghost var e := Le(v.runs, 2);
      var _ :- PutWord(v.perRunTurns, 2);
      var _ :- PutWord(v.perRunMutations, 2);
      var _ :- PutWord(v.turns, 4);
      var _ :- PutWord(v.mutations, 4);
      var _ :- PutWord(v.runs, 2);
      Regroup(((w + a) + b) + c, d, e);
      Regroup((w + a) + b, c, d + e);
      Regroup(w + a, b, c + (d + e));
      Regroup(w, a, b + (c + (d + e)));
      return Ok(());
    }

    method PutFunds(v: Funds) returns (r: Result<(), Error>)
      requires Valid()
      modifies this, out
      ensures Valid() && r == if old(Fits(|FundsBytes(v)|)) then Ok(()) else Err(SnapshotBufferTooSmall)
      ensures old(written) <= written && (r.Ok? ==> written == old(written) + FundsBytes(v))
    {
      hide Le;
      ghost var w := written;
      ghost var a := Le(v.remaining.turns, 4);
      ghost var b := Le(v.remaining.mutations, 4);
      ghost var c := Le(v.remaining.runs, 2);
      ghost var d := Le(v.reserved.turns, 2);
      ghost var e := Le(v.reserved.mutations, 2);
      var _ :- PutWord(v.remaining.turns, 4);
      var _ :- PutWord(v.remaining.mutations, 4);
      var _ :- PutWord(v.remaining.runs, 2);
      var _ :- PutWord(v.reserved.turns, 2);
      var _ :- PutWord(v.reserved.mutations, 2);
      Regroup(((w + a) + b) + c, d, e);
      Regroup((w + a) + b, c, d + e);
      Regroup(w + a, b, c + (d + e));
      Regroup(w, a, b + (c + (d + e)));
      return Ok(());
    }

    method PutSet(s: bytes, count: u8) returns (r: Result<(), Error>)
      requires Valid()
      modifies this, out
      ensures Valid() && r == if old(Fits(|SetBytes(s, count)|)) then Ok(()) else Err(SnapshotBufferTooSmall)
      ensures old(written) <= written && (r.Ok? ==> written == old(written) + SetBytes(s, count))
    {
      ghost var w := written;
      var _ :- PutBytes(s);
      var _ :- PutU8(count);
      Regroup(w, s, [count]);
      return Ok(());
    }

    method PutFlag(v: bool) returns (r: Result<(), Error>)
      requires Valid()
      modifies this, out
      ensures Valid() && r == if old(Fits(|FlagBytes(v)|)) then Ok(()) else Err(SnapshotBufferTooSmall)
      ensures old(written) <= written && (r.Ok? ==> written == old(written) + FlagBytes(v))
    {
      r := PutU8(if v then 1 else 0);
    }

    method PutCapabilities(v: Capabilities) returns (r: Result<(), Error>)
      requires Valid()
      modifies this, out
      ensures Valid() && r == if old(Fits(|CapabilitiesBytes(v)|)) then Ok(()) else Err(SnapshotBufferTooSmall)
      ensures old(written) <= written && (r.Ok? ==> written == old(written) + CapabilitiesBytes(v))
    {
      hide FlagBytes, SetBytes;
      ghost var w := written;
      ghost var a, b, c := SetBytes(v.readPins, v.readCount), SetBytes(v.writePins, v.writeCount), SetBytes(v.sensors, v.sensorCount);
      ghost var d, e := FlagBytes(v.allowTimer), FlagBytes(v.allowStatus);
      var _ :- PutSet(v.readPins, v.readCount);
      var _ :- PutSet(v.writePins, v.writeCount);
      var _ :- PutSet(v.sensors, v.sensorCount);
      var _ :- PutFlag(v.allowTimer);
      var _ :- PutFlag(v.allowStatus);
      Regroup(((w + a) + b) + c, d, e);
      Regroup((w + a) + b, c, d + e);
      Regroup(w + a, b, c + (d + e));
      Regroup(w, a, b + (c + (d + e)));
      return Ok(());
    }

    method PutRunStanding(v: Standing) returns (r: Result<(), Error>)
      requires Valid()
      modifies this, out
      ensures Valid() && r == if old(Fits(|RunStandingBytes(v)|)) then Ok(()) else Err(SnapshotBufferTooSmall)
      ensures old(written) <= written && (r.Ok? ==> written == old(written) + RunStandingBytes(v))
    {
      hide Le, RunBytes, LastStatusCode;
      ghost var w := written;
      var _ :- PutU8(LastStatusCode(v.lastStatus));
      var _ :- PutWord(v.waitingSince, 8);
      var _ :- PutRun(v.run);
      ghost var since := Le(v.waitingSince, 8);
      Regroup(w + [LastStatusCode(v.lastStatus)], since, RunBytes(v.run));
      Regroup(w, [LastStatusCode(v.lastStatus)], since + RunBytes(v.run));
      return Ok(());
    }

    method PutStanding(v: Standing) returns (r: Result<(), Error>)
      requires Valid()
      modifies this, out
      ensures Valid() && r == if old(Fits(|StandingBytes(v)|)) then Ok(()) else Err(SnapshotBufferTooSmall)
      ensures old(written) <= written && (r.Ok? ==> written == old(written) + StandingBytes(v))
    {
      hide Le, RunStandingBytes, StatusCode;
      ghost var w := written;
      ghost var a, c := [StatusCode(v.status)], [v.failures];
      ghost var b := Le(v.nextDue, 8);
      ghost var d := Le(v.runsStarted, 4);
      ghost var e := RunStandingBytes(v);
      var _ :- PutU8(StatusCode(v.status));
      var _ :- PutWord(v.nextDue, 8);
      var _ :- PutU8(v.failures);
      var _ :- PutWord(v.runsStarted, 4);
      var _ :- PutRunStanding(v);
      Regroup(((w + a) + b) + c, d, e);
      Regroup((w + a) + b, c, d + e);
      Regroup(w + a, b, c + (d + e));
      Regroup(w, a, b + (c + (d + e)));
      return Ok(());
    }

    method PutGoal(v: Goal) returns (r: Result<(), Error>)
      requires Valid()
      modifies this, out
      ensures Valid() && r == if old(Fits(|GoalBytes(v)|)) then Ok(()) else Err(SnapshotBufferTooSmall)
      ensures old(written) <= written && (r.Ok? ==> written == old(written) + GoalBytes(v))
    {
      hide IdentityBytes, EnvelopeBytes, FundsBytes, CapabilitiesBytes, StandingBytes;
      ghost var w := written;
      ghost var a := IdentityBytes(GoalIdentity(v));
      ghost var b := EnvelopeBytes(v.envelope);
      ghost var c := FundsBytes(GoalFunds(v));
      ghost var d := CapabilitiesBytes(v.capabilities);
      ghost var e := StandingBytes(GoalStanding(v));
      var _ :- PutIdentity(GoalIdentity(v));
      var _ :- PutEnvelope(v.envelope);
      var _ :- PutFunds(GoalFunds(v));
      var _ :- PutCapabilities(v.capabilities);
      var _ :- PutStanding(GoalStanding(v));
      Regroup(((w + a) + b) + c, d, e);
      Regroup((w + a) + b, c, d + e);
      Regroup(w + a, b, c + (d + e));
      Regroup(w, a, b + (c + (d + e)));
      return Ok(());
    }

    method PutKey(k: Key) returns (r: Result<(), Error>)
      requires Valid()
      modifies this, out
      ensures Valid() && r == if old(Fits(|KeyBytes(k)|)) then Ok(()) else Err(SnapshotBufferTooSmall)
      ensures old(written) <= written && (r.Ok? ==> written == old(written) + KeyBytes(k))
    {
      hide Le;
      ghost var w := written;
      match k {
        case Observation(tool, args) =>
          var _ :- PutU8(0);
          var _ :- PutU8(tool);
          var _ :- PutWord(args, 8);
          Regroup(w + [0], [tool], Le(args, 8));
          Regroup(w, [0], [tool] + Le(args, 8));
        case Outcome(goal) =>
          var _ :- PutU8(1);
          var _ :- PutWord(goal, 2);
          Regroup(w, [1], Le(goal, 2));
        case NoteKey(name) =>
          var _ :- PutU8(2);
          var _ :- PutWord(name, 8);
          Regroup(w, [2], Le(name, 8));
      }
      return Ok(());
    }

    method PutProvenance(p: Provenance, stamp: u32) returns (r: Result<(), Error>)
      requires Valid()
      modifies this, out
      ensures Valid() && r == if old(Fits(|ProvenanceBytes(p, stamp)|)) then Ok(()) else Err(SnapshotBufferTooSmall)
      ensures old(written) <= written && (r.Ok? ==> written == old(written) + ProvenanceBytes(p, stamp))
    {
      hide Le, RunBytes;
      ghost var w := written;
      ghost var a := Le(OwnerWord(p.goal), 2);
      ghost var b := RunBytes(p.run);
      ghost var c := Le(p.beat, 8);
      ghost var d := Le(stamp, 4);
      var _ :- PutWord(OwnerWord(p.goal), 2);
      var _ :- PutRun(p.run);
      var _ :- PutWord(p.beat, 8);
      var _ :- PutWord(stamp, 4);
      Regroup((w + a) + b, c, d);
      Regroup(w + a, b, c + d);
      Regroup(w, a, b + (c + d));
      return Ok(());
    }

    method PutEntry(v: Entry) returns (r: Result<(), Error>)
      requires Valid()
      modifies this, out
      ensures Valid() && r == if old(Fits(|EntryBytes(v)|)) then Ok(()) else Err(SnapshotBufferTooSmall)
      ensures old(written) <= written && (r.Ok? ==> written == old(written) + EntryBytes(v))
    {
      hide ProvenanceBytes, NoteBytes, KeyBytes;
      ghost var w := written;
      ghost var a := KeyBytes(v.key);
      ghost var b := NoteBytes(v.text);
      ghost var c := NoteBytes(v.value);
      ghost var d := ProvenanceBytes(v.provenance, v.stamp);
      var _ :- PutKey(v.key);
      var _ :- PutNote(v.text);
      var _ :- PutNote(v.value);
      var _ :- PutProvenance(v.provenance, v.stamp);
      Regroup((w + a) + b, c, d);
      Regroup(w + a, b, c + d);
      Regroup(w, a, b + (c + d));
      return Ok(());
    }

    method PutItemFields(h: Header) returns (r: Result<(), Error>)
      requires Valid()
      modifies this, out
      ensures Valid() && r == if old(Fits(|ItemFieldBytes(h)|)) then Ok(()) else Err(SnapshotBufferTooSmall)
      ensures old(written) <= written && (r.Ok? ==> written == old(written) + ItemFieldBytes(h))
    {
      hide Le;
      ghost var w := written;
      ghost var a := Le(h.nextStamp, 4);
      ghost var d := Le(h.digest, 8);
      var _ :- PutWord(h.nextStamp, 4);
      var _ :- PutU8(h.goals);
      var _ :- PutU8(h.entries);
      var _ :- PutWord(h.digest, 8);
      Regroup((w + a) + [h.goals], [h.entries], d);
      Regroup(w + a, [h.goals], [h.entries] + d);
      Regroup(w, a, [h.goals] + ([h.entries] + d));
      return Ok(());
    }

    method PutFields(h: Header) returns (r: Result<(), Error>)
      requires Valid()
      modifies this, out
      ensures Valid() && r == if old(Fits(|FieldBytes(h)|)) then Ok(()) else Err(SnapshotBufferTooSmall)
      ensures old(written) <= written && (r.Ok? ==> written == old(written) + FieldBytes(h))
    {
      hide Le, ItemFieldBytes;
      ghost var w := written;
      ghost var a := Le(h.lastBeat, 8);
      ghost var b := Le(h.spawnSeq, 4);
      ghost var c := Le(h.nextDeadline, 8);
      ghost var d := Le(h.nextGoalId, 2);
      ghost var e := ItemFieldBytes(h);
      var _ :- PutWord(h.lastBeat, 8);
      var _ :- PutWord(h.spawnSeq, 4);
      var _ :- PutWord(h.nextDeadline, 8);
      var _ :- PutWord(h.nextGoalId, 2);
      var _ :- PutItemFields(h);
      Regroup(((w + a) + b) + c, d, e);
      Regroup((w + a) + b, c, d + e);
      Regroup(w + a, b, c + (d + e));
      Regroup(w, a, b + (c + (d + e)));
      return Ok(());
    }

    method PutHeader(h: Header) returns (r: Result<(), Error>)
      requires Valid()
      modifies this, out
      ensures Valid() && r == if old(Fits(|HeaderBytes(h)|)) then Ok(()) else Err(SnapshotBufferTooSmall)
      ensures old(written) <= written && (r.Ok? ==> written == old(written) + HeaderBytes(h))
    {
      hide FieldBytes;
      ghost var w := written;
      var _ :- PutU8(VERSION);
      var _ :- PutFields(h);
      Regroup(w, [VERSION], FieldBytes(h));
      return Ok(());
    }
  }

  /** A bounded reader: a cursor over what is left of a slice. */
  class Reader {
    const source: bytes
    const end: nat
    var pos: nat

    ghost predicate Valid()
      reads this
    {
      pos <= end <= |source|
    }

    ghost function Rest(): bytes
      requires Valid()
      reads this
    {
      source[pos..end]
    }

    constructor (source: bytes, start: nat, end: nat)
      requires start <= end <= |source|
      ensures Valid() && Rest() == source[start..end] && this.source == source && this.end == end && pos == start
    {
      this.source := source;
      this.end := end;
      pos := start;
    }

    method Take(n: nat) returns (r: Result<bytes, Error>)
      requires Valid()
      modifies this
      ensures Valid() && old(pos) <= pos
      ensures match TakeBytes(old(Rest()), n) case Ok(p) => r == Ok(p.0) && Rest() == p.1 case Err(e) => r == Err(e) && pos == old(pos)
    {
      var next := pos + n;
      if next > end {
        return Err(SnapshotTruncated);
      }
      var slice := source[pos..next];
      assert slice == Rest()[..n] && source[next..end] == Rest()[n..];
      pos := next;
      return Ok(slice);
    }

    method ReadU8() returns (r: Result<u8, Error>)
      requires Valid()
      modifies this
      ensures Valid() && old(pos) <= pos
      ensures match TakeU8(old(Rest())) case Ok(p) => r == Ok(p.0) && Rest() == p.1 case Err(e) => r == Err(e)
    {
      var b :- Take(1);
      return Ok(b[0]);
    }

    method ReadU16() returns (r: Result<u16, Error>)
      requires Valid()
      modifies this
      ensures Valid() && old(pos) <= pos
      ensures match TakeU16(old(Rest())) case Ok(p) => r == Ok(p.0) && Rest() == p.1 case Err(e) => r == Err(e)
    {
      hide FromLe;
      var b :- Take(2);
      return Ok(Word16(b));
    }

    method ReadU32() returns (r: Result<u32, Error>)
      requires Valid()
      modifies this
      ensures Valid() && old(pos) <= pos
      ensures match TakeU32(old(Rest())) case Ok(p) => r == Ok(p.0) && Rest() == p.1 case Err(e) => r == Err(e)
    {
      hide FromLe;
      var b :- Take(4);
      return Ok(Word32(b));
    }

    method ReadU64() returns (r: Result<u64, Error>)
      requires Valid()
      modifies this
      ensures Valid() && old(pos) <= pos
      ensures match TakeU64(old(Rest())) case Ok(p) => r == Ok(p.0) && Rest() == p.1 case Err(e) => r == Err(e)
    {
      hide FromLe;
      var b :- Take(8);
      return Ok(Word64(b));
    }

    method ReadFlag() returns (r: Result<bool, Error>)
      requires Valid()
      modifies this
      ensures Valid() && old(pos) <= pos
      ensures match TakeFlag(old(Rest())) case Ok(p) => r == Ok(p.0) && Rest() == p.1 case Err(e) => r == Err(e)
    {
      hide TakeU8;
      var b :- ReadU8();
      return match b case 0 => Ok(false) case 1 => Ok(true) case _ => Err(SnapshotCorrupt);
    }

    method ReadNote() returns (r: Result<note, Error>)
      requires Valid()
      modifies this
      ensures Valid() && old(pos) <= pos
      ensures match TakeNote(old(Rest())) case Ok(p) => r == Ok(p.0) && Rest() == p.1 case Err(e) => r == Err(e)
    {
      hide TakeU8;
      var len :- ReadU8();
      if len > NOTE_MAX {
        return Err(SnapshotCorrupt);
      }
      var b :- Take(len);
      return Ok(b);
    }

    method ReadRun() returns (r: Result<Option<u64>, Error>)
      requires Valid()
      modifies this
      ensures Valid() && old(pos) <= pos
      ensures match TakeRun(old(Rest())) case Ok(p) => r == Ok(p.0) && Rest() == p.1 case Err(e) => r == Err(e)
    {
      hide TakeFlag, TakeU64;
      var present :- ReadFlag();
      var id :- ReadU64();
      return if present then Ok(Some(id)) else if id == 0 then Ok(None) else Err(SnapshotCorrupt);
    }

    method ReadIdentity() returns (r: Result<Identity, Error>)
      requires Valid()
      modifies this
      ensures Valid() && old(pos) <= pos
      ensures match TakeIdentity(old(Rest())) case Ok(p) => r == Ok(p.0) && Rest() == p.1 case Err(e) => r == Err(e)
    {
      hide TakeU8, TakeU16, TakeU32, TakeNote;
      var id :- ReadU16();
      if id == 0 {
        return Err(SnapshotCorrupt);
      }
      var objective :- ReadNote();
      var priority :- ReadU8();
      var tag :- ReadU8();
      var word :- ReadU32();
      if tag == 0 && word == 0 {
        return Ok(Identity(id, objective, priority, Once));
      } else if tag == 1 && word != 0 {
        return Ok(Identity(id, objective, priority, Every(word)));
      } else {
        return Err(SnapshotCorrupt);
      }
    }

    method ReadEnvelope() returns (r: Result<Envelope, Error>)
      requires Valid()
      modifies this
      ensures Valid() && old(pos) <= pos
      ensures match TakeEnvelope(old(Rest())) case Ok(p) => r == Ok(p.0) && Rest() == p.1 case Err(e) => r == Err(e)
    {
      hide TakeU16, TakeU32;
      var perRunTurns :- ReadU16();
      var perRunMutations :- ReadU16();
      var turns :- ReadU32();
      var mutations :- ReadU32();
      var runs :- ReadU16();
      var v := Envelope(perRunTurns, perRunMutations, turns, mutations, runs);
      return if v.Validate().Err? then Err(SnapshotCorrupt) else Ok(v);
    }

    method ReadFunds() returns (r: Result<Funds, Error>)
      requires Valid()
      modifies this
      ensures Valid() && old(pos) <= pos
      ensures match TakeFunds(old(Rest())) case Ok(p) => r == Ok(p.0) && Rest() == p.1 case Err(e) => r == Err(e)
    {
      hide TakeU16, TakeU32;
      var turns :- ReadU32();
      var mutations :- ReadU32();
      var runs :- ReadU16();
      var reservedTurns :- ReadU16();
      var reservedMutations :- ReadU16();
      return Ok(Funds(Remaining(turns, mutations, runs), Grant(reservedTurns, reservedMutations)));
    }

    method ReadCapabilities() returns (r: Result<Capabilities, Error>)
      requires Valid()
      modifies this
      ensures Valid() && old(pos) <= pos
      ensures match TakeCapabilities(old(Rest())) case Ok(p) => r == Ok(p.0) && Rest() == p.1 case Err(e) => r == Err(e)
    {
      hide TakeBytes, TakeU8, TakeFlag, Shaped;
      var readPins :- Take(PINS);
      var readCount :- ReadU8();
      var writePins :- Take(PINS);
      var writeCount :- ReadU8();
      var sensors :- Take(SENSORS);
      var sensorCount :- ReadU8();
      var allowTimer :- ReadFlag();
      var allowStatus :- ReadFlag();
      var v := Capabilities(readPins, readCount, writePins, writeCount, sensors, sensorCount, allowTimer, allowStatus);
      return if Shaped(v) then Ok(v) else Err(SnapshotCorrupt);
    }

    method ReadStatus() returns (r: Result<GoalStatus, Error>)
      requires Valid()
      modifies this
      ensures Valid() && old(pos) <= pos
      ensures match TakeStatus(old(Rest())) case Ok(p) => r == Ok(p.0) && Rest() == p.1 case Err(e) => r == Err(e)
    {
      hide TakeU8;
      var code :- ReadU8();
      match code {
        case 0 => return Ok(Active);
        case 1 => return Ok(Running);
        case 2 => return Ok(Waiting);
        case 3 => return Ok(Paused);
        case 4 => return Ok(Satisfied);
        case 5 => return Ok(Failed);
        case 6 => return Ok(Exhausted);
        case 7 => return Ok(Retired);
        case _ => return Err(SnapshotCorrupt);
      }
    }

    method ReadLastStatus() returns (r: Result<Option<TerminalStatus>, Error>)
      requires Valid()
      modifies this
      ensures Valid() && old(pos) <= pos
      ensures match TakeLastStatus(old(Rest())) case Ok(p) => r == Ok(p.0) && Rest() == p.1 case Err(e) => r == Err(e)
    {
      hide TakeU8;
      var code :- ReadU8();
      match code {
        case 0xff => return Ok(None);
        case 0 => return Ok(Some(Completed));
        case 1 => return Ok(Some(NeedsInput));
        case 2 => return Ok(Some(Denied));
        case 3 => return Ok(Some(BudgetExhausted));
        case 4 => return Ok(Some(Stuck));
        case 5 => return Ok(Some(ToolUnavailable));
        case 6 => return Ok(Some(ModelInvalid));
        case 7 => return Ok(Some(StorageFault));
        case 8 => return Ok(Some(Incompatible));
        case _ => return Err(SnapshotCorrupt);
      }
    }

    method ReadStanding() returns (r: Result<Standing, Error>)
      requires Valid()
      modifies this
      ensures Valid() && old(pos) <= pos
      ensures match TakeStanding(old(Rest())) case Ok(p) => r == Ok(p.0) && Rest() == p.1 case Err(e) => r == Err(e)
    {
      hide TakeStatus, TakeU64, TakeU8, TakeU32, TakeLastStatus, TakeRun;
      var status :- ReadStatus();
      var nextDue :- ReadU64();
      var failures :- ReadU8();
      var runsStarted :- ReadU32();
      var lastStatus :- ReadLastStatus();
      var waitingSince :- ReadU64();
      var run :- ReadRun();
      if status.Busy() != run.Some? {
        return Err(SnapshotCorrupt);
      }
      return Ok(Standing(status, nextDue, failures, runsStarted, lastStatus, waitingSince, run));
    }

    method ReadGoal() returns (r: Result<Goal, Error>)
      requires Valid()
      modifies this
      ensures Valid() && old(pos) <= pos
      ensures match TakeGoal(old(Rest())) case Ok(p) => r == Ok(p.0) && Rest() == p.1 case Err(e) => r == Err(e)
    {
      hide TakeIdentity, TakeEnvelope, TakeFunds, TakeCapabilities, TakeStanding;
      var identity :- ReadIdentity();
      var envelope :- ReadEnvelope();
      var funds :- ReadFunds();
      var capabilities :- ReadCapabilities();
      var standing :- ReadStanding();
      return Ok(Assemble(identity, envelope, funds, capabilities, standing));
    }

    method ReadKey() returns (r: Result<Key, Error>)
      requires Valid()
      modifies this
      ensures Valid() && old(pos) <= pos
      ensures match TakeKey(old(Rest())) case Ok(p) => r == Ok(p.0) && Rest() == p.1 case Err(e) => r == Err(e)
    {
      hide TakeU8, TakeU16, TakeU64;
      var tag :- ReadU8();
      match tag {
        case 0 =>
          var tool :- ReadU8();
          var args :- ReadU64();
          return Ok(Observation(tool, args));
        case 1 =>
          var goal :- ReadU16();
          return if goal == 0 then Err(SnapshotCorrupt) else Ok(Outcome(goal));
        case 2 =>
          var name :- ReadU64();
          return Ok(NoteKey(name));
        case _ => return Err(SnapshotCorrupt);
      }
    }

    method ReadEntry() returns (r: Result<Entry, Error>)
      requires Valid()
      modifies this
      ensures Valid() && old(pos) <= pos
      ensures match TakeEntry(old(Rest())) case Ok(p) => r == Ok(p.0) && Rest() == p.1 case Err(e) => r == Err(e)
    {
      hide TakeKey, TakeNote, TakeU16, TakeRun, TakeU64, TakeU32;
      var key :- ReadKey();
      var text :- ReadNote();
      var value :- ReadNote();
      var goal :- ReadU16();
      var run :- ReadRun();
      var beat :- ReadU64();
      var stamp :- ReadU32();
      var owner: Option<goalId> := if goal == 0 then None else Some(goal);
      return Ok(Entry(key, text, value, Provenance(owner, run, beat), stamp));
    }

    method ReadFields() returns (r: Result<Header, Error>)
      requires Valid()
      modifies this
      ensures Valid() && old(pos) <= pos
      ensures match TakeFields(old(Rest())) case Ok(p) => r == Ok(p.0) && Rest() == p.1 case Err(e) => r == Err(e)
    {
      hide TakeU8, TakeU16, TakeU32, TakeU64;
      var lastBeat :- ReadU64();
      var spawnSeq :- ReadU32();
      var nextDeadline :- ReadU64();
      var nextGoalId :- ReadU16();
      var nextStamp :- ReadU32();
      var goals :- ReadU8();
      var entries :- ReadU8();
      var digest :- ReadU64();
      var h := Header(lastBeat, spawnSeq, nextDeadline, nextGoalId, nextStamp, goals, entries, digest);
      return if goals > MAX_GOALS || entries > MAX_MEMORY then Err(SnapshotCorrupt) else Ok(h);
    }
  }

  /** Decode exactly one header. */
  method DecodeHeaderBytes(b: bytes) returns (r: Result<Header, Error>)
    ensures r == DecodeHeader(b)
  {
    hide TakeFields;
    if |b| == 0 {
      return Err(SnapshotTruncated);
    }
    if b[0] != VERSION {
      return Err(SnapshotVersionMismatch(b[0]));
    }
    var reader := new Reader(b, 1, |b|);
    assert b[1..|b|] == b[1..];
    var h :- reader.ReadFields();
    if reader.pos != reader.end {
      return Err(SnapshotCorrupt);
    }
    return Ok(h);
  }
}
