/** The compact state in place: fixed arrays with lengths, pushed and shifted,
    and compaction folding frames into them. */
module CompactDevice {
  import opened Words
  import opened Core
  import opened Compact

  /** A fixed array of which the first `len` entries count. */
  class Bounded<T(==,0,!new)> {
    const slots: array<T>
    var len: nat

    ghost predicate Valid()
      reads this, slots
    {
      len <= slots.Length && slots.Length > 0
    }

    ghost function Items(): seq<T>
      requires Valid()
      reads this, slots
    {
      slots[..len]
    }

    constructor (capacity: nat, blank: T)
      requires capacity > 0
      ensures Valid() && fresh(slots) && slots.Length == capacity && len == 0
    {
      slots := new T[capacity](_ => blank);
      len := 0;
    }

    /** Append; when full, shift every entry down and write the last. */
    method Push(x: T)
      requires Valid()
      modifies this`len, slots
      ensures Valid() && Items() == PushBounded(old(Items()), slots.Length, x)
    {
      ghost var before := Items();
      if len < slots.Length {
        slots[len] := x;
        len := len + 1;
      } else {
        for k := 0 to slots.Length - 1
          invariant len == slots.Length
          invariant forall j :: 0 <= j < k ==> slots[j] == before[j + 1]
          invariant forall j :: k <= j < slots.Length ==> slots[j] == before[j]
        {
          slots[k] := slots[k + 1];
        }
        slots[slots.Length - 1] := x;
        assert Items()[..len - 1] == before[1..];
      }
    }

    /** Shift the entries after `at` over it. The last slot keeps a stale copy. */
    method RemoveAt(at: nat)
      requires Valid() && at < len
      modifies this`len, slots
      ensures Valid() && Items() == old(Items())[..at] + old(Items())[at + 1..]
    {
      ghost var before := Items();
      ghost var whole := slots[..];
      for k := at to slots.Length - 1
        invariant len == old(len)
        invariant forall j :: 0 <= j < at ==> slots[j] == whole[j]
        invariant forall j :: at <= j < k ==> slots[j] == whole[j + 1]
        invariant forall j :: k <= j < slots.Length ==> slots[j] == whole[j]
      {
        slots[k] := slots[k + 1];
      }
      len := len - 1;
      assert forall j :: 0 <= j < |before| ==> before[j] == whole[j];
    }

    method Contains(x: T) returns (found: bool)
      requires Valid()
      ensures found <==> x in Items()
    {
      for k := 0 to len
        invariant forall j :: 0 <= j < k ==> slots[j] != x
      {
        if slots[k] == x {
          assert Items()[k] == x;
          return true;
        }
      }
      return false;
    }
  }

  method FindOwed(list: Bounded<Pending>, kind: PendingKind, frame: u32) returns (at: Option<nat>)
    requires list.Valid()
    ensures at == FirstOwed(list.Items(), kind, frame)
  {
    for k := 0 to list.len
      invariant forall j :: 0 <= j < k ==> !(list.slots[j].kind == kind && list.slots[j].frame == frame)
    {
      if list.slots[k].kind == kind && list.slots[k].frame == frame {
        assert list.Items()[k].kind == kind;
        return Some(k);
      }
    }
    return None;
  }

  class State {
    var objective: u64
    var budgets: Budgets
    var versions: Versions
    const completed: Bounded<note>
    const open: Bounded<note>
    const accepted: Bounded<u64>
    const facts: Bounded<Fact>
    const failed: Bounded<FailedPath>
    const pending: Bounded<Pending>
    const fingerprints: Bounded<u64>

    /** Every object the state is made of, but itself. */
    ghost const parts: set<object>

    ghost predicate Valid()
      reads this, parts
    {
      && parts == {completed, completed.slots, open, open.slots, accepted, accepted.slots, facts, facts.slots,
                   failed, failed.slots, pending, pending.slots, fingerprints, fingerprints.slots}
      && completed != open && completed.slots != open.slots
      && accepted != fingerprints && accepted.slots != fingerprints.slots
      && completed.Valid() && completed.slots.Length == MAX_COMPLETED
      && open.Valid() && open.slots.Length == MAX_OPEN
      && accepted.Valid() && accepted.slots.Length == MAX_ACCEPTED
      && facts.Valid() && facts.slots.Length == MAX_FACTS
      && failed.Valid() && failed.slots.Length == MAX_FAILED
      && pending.Valid() && pending.slots.Length == MAX_PENDING
      && fingerprints.Valid() && fingerprints.slots.Length == MAX_FINGERPRINTS
    }

    ghost function Contents(): View
      requires Valid()
      reads this, parts
    {
      View(objective, budgets, versions, completed.Items(), open.Items(), accepted.Items(), facts.Items(),
           failed.Items(), pending.Items(), fingerprints.Items())
    }

    constructor (objective: u64, budgets: Budgets, versions: Versions)
      ensures Valid() && fresh(parts) && Contents() == Empty(objective, budgets, versions)
    {
      hide Contents, Bounded.Items;
      this.objective, this.budgets, this.versions := objective, budgets, versions;
      var a := new Bounded<note>(MAX_COMPLETED, []);
      var b := new Bounded<note>(MAX_OPEN, []);
      var c := new Bounded<u64>(MAX_ACCEPTED, 0);
      var d := new Bounded<Fact>(MAX_FACTS, Fact([], 0));
      var e := new Bounded<FailedPath>(MAX_FAILED, FailedPath(0, 0, 0));
      var f := new Bounded<Pending>(MAX_PENDING, Pending(Approval, 0, 0));
      var g := new Bounded<u64>(MAX_FINGERPRINTS, 0);
      completed, open, accepted, facts, failed, pending, fingerprints := a, b, c, d, e, f, g;
      parts := {a, a.slots, b, b.slots, c, c.slots, d, d.slots, e, e.slots, f, f.slots, g, g.slots};
      new;
      BlankIsEmpty();
      forall o | o in parts ensures fresh(o) {
      }
    }

    lemma BlankIsEmpty()
      requires Valid()
      requires completed.len == open.len == accepted.len == facts.len == failed.len == pending.len == fingerprints.len == 0
      ensures Contents() == Empty(objective, budgets, versions)
    {
    }

    method AddCompleted(n: note)
      requires Valid()
      modifies parts
      ensures Valid() && Contents() == old(Contents()).(completed := PushBounded(old(Contents()).completed, MAX_COMPLETED, n))
    {
      hide PushBounded;
      completed.Push(n);
    }

    method AddOpen(n: note)
      requires Valid()
      modifies parts
      ensures Valid() && Contents() == old(Contents()).(open := PushBounded(old(Contents()).open, MAX_OPEN, n))
    {
      hide PushBounded;
      open.Push(n);
    }

    method AddDecision(digest: u64)
      requires Valid()
      modifies parts
      ensures Valid() && Contents() == old(Contents()).(accepted := PushBounded(old(Contents()).accepted, MAX_ACCEPTED, digest))
    {
      hide PushBounded;
      accepted.Push(digest);
    }

    method AddFingerprint(fingerprint: u64)
      requires Valid()
      modifies parts
      ensures Valid() && Contents() == old(Contents()).(fingerprints := PushBounded(old(Contents()).fingerprints, MAX_FINGERPRINTS, fingerprint))
    {
      hide PushBounded;
      fingerprints.Push(fingerprint);
    }

    method AddFact(f: Fact)
      requires Valid()
      modifies parts
      ensures Valid() && Contents() == RecordFact(old(Contents()), f)
    {
      hide PushBounded;
      var known := facts.Contains(f);
      if !known {
        facts.Push(f);
      }
    }

    method AddFailed(p: FailedPath) returns (r: Result<(), Error>)
      requires Valid()
      modifies parts
      ensures Valid()
      ensures match RecordFailed(old(Contents()), p) case Ok(v) => r == Ok(()) && Contents() == v case Err(e) => r == Err(e) && Contents() == old(Contents())
    {
      var known := failed.Contains(p);
      if known {
        return Ok(());
      }
      if failed.len >= MAX_FAILED {
        return Err(CompactStateFull);
      }
      failed.Push(p);
      return Ok(());
    }

    method AddPending(p: Pending) returns (r: Result<(), Error>)
      requires Valid()
      modifies parts
      ensures Valid()
      ensures match RecordPending(old(Contents()), p) case Ok(v) => r == Ok(()) && Contents() == v case Err(e) => r == Err(e) && Contents() == old(Contents())
    {
      hide Owed;
      var known := FindOwed(pending, p.kind, p.frame);
      if known.Some? {
        return Ok(());
      }
      if pending.len >= MAX_PENDING {
        return Err(CompactStateFull);
      }
      pending.Push(p);
      return Ok(());
    }

    method ResolvePending(kind: PendingKind, frame: u32) returns (found: bool)
      requires Valid()
      modifies parts
      ensures Valid() && (found, Contents()) == Resolve(old(Contents()), kind, frame)
    {
      hide FirstOwed;
      var at := FindOwed(pending, kind, frame);
      if at.None? {
        return false;
      }
      pending.RemoveAt(at.value);
      return true;
    }

    method Owe(step: step64, f: Frame, kind: PendingKind, due: bool) returns (r: Result<(), Error>)
      requires Valid()
      modifies parts
      ensures Valid()
      ensures match NoteOwed(step, old(Contents()), f, kind, due) case Ok(v) => r == Ok(()) && Contents() == v case Err(e) => r == Err(e) && Contents() == old(Contents())
    {
      hide Owed, Fold, Valid, Contents, RecordPending;
      if due {
        r := AddPending(Pending(kind, f.id, DigestOf(step, f.payload)));
      } else {
        r := Ok(());
      }
    }

    method Fail(f: Frame) returns (r: Result<(), Error>)
      requires Valid()
      modifies parts
      ensures Valid()
      ensures match NoteFailure(old(Contents()), f) case Ok(v) => r == Ok(()) && Contents() == v case Err(e) => r == Err(e) && Contents() == old(Contents())
    {
      hide Valid, Contents, RecordFailed;
      match f.failure {
        case Some(e) => r := AddFailed(FailedPath(f.tool, f.args, e));
        case None => r := Ok(());
      }
    }

    method Advance(f: Frame)
      requires Valid()
      modifies parts
      ensures Valid() && Contents() == NoteDecision(NoteProgress(old(Contents()), f), f)
    {
      hide Valid, Contents, RecordFact, PushBounded;
      match f.progress {
        case NewEvidence =>
          if f.failure.None? {
            AddFact(Fact(Cut(f.payload), f.id));
          }
        case SubgoalClosed => AddCompleted(Cut(f.payload));
        case _ =>
      }
      if f.kind == MODEL_DECISION {
        AddDecision(f.args);
      }
    }

    /** Fold one frame in. */
    method FoldOne(step: step64, f: Frame) returns (r: Result<(), Error>)
      requires Valid()
      modifies parts
      ensures Valid() && (r, Contents()) == FoldFrame(step, old(Contents()), f)
    {
      hide Valid, Contents, NoteFailure, NoteOwed, NoteProgress, NoteDecision, PushBounded, FingerprintBytes, Fold;
      AddFingerprint(DigestOf(step, FingerprintBytes(f)));
      var _ :- Fail(f);
      var _ :- Owe(step, f, Approval, f.awaitsApproval);
      var _ :- Owe(step, f, Verification, f.awaitsVerification);
      Advance(f);
      return Ok(());
    }

    /** Fold every frame in, counting the payload bytes outside the tail. */
    method Compact(step: step64, frames: seq<Frame>, tailKeep: u8) returns (r: Result<Report, Error>)
      requires Valid()
      modifies parts
      ensures Valid()
      ensures var (done, after) := FoldFrames(step, old(Contents()), frames);
              && Contents() == after
              && r == (match done case Ok(_) => Ok(ReportOf(frames, tailKeep)) case Err(e) => Err(e))
    {
      hide Valid, Contents, FoldFrame, Bytes;
      var n := |frames|;
      var kept := Min(tailKeep, Min(n, 0xFF));
      var compacted := n - kept;
      var saved: u64 := 0;
      assert Bytes(frames[..0]) == 0 by { NoBytes(frames); }
      assert FoldFrames(step, Contents(), frames[..0]) == (Ok(()), Contents());
      for k := 0 to n
        invariant Valid()
        invariant FoldFrames(step, old(Contents()), frames[..k]) == (Ok(()), Contents())
        invariant saved == Min(Bytes(frames[..Min(k, compacted)]), U64_SPAN - 1)
      {
        assert frames[..k + 1][..k] == frames[..k];
        FoldCut(step, old(Contents()), frames, k);
        var folded := FoldOne(step, frames[k]);
        if folded.Err? {
          return Err(folded.error);
        }
        assert folded.value == ();
        if k < compacted {
          BytesNext(frames, k);
          saved := Min(saved + |frames[k].payload|, U64_SPAN - 1);
        }
      }
      assert frames[..n] == frames;
      return Ok(Report(Min(n, 0xFFFF_FFFF), Min(compacted, 0xFFFF_FFFF), kept, saved));
    }
  }

  lemma NoBytes(frames: seq<Frame>)
    ensures Bytes(frames[..0]) == 0
  {
  }

  lemma BytesNext(frames: seq<Frame>, k: nat)
    requires k < |frames|
    ensures Bytes(frames[..k + 1]) == Bytes(frames[..k]) + |frames[k].payload|
  {
    assert frames[..k + 1][..k] == frames[..k];
  }

  /** An error in the first frames is the answer for all of them. */
  lemma FoldCut(step: step64, v: View, frames: seq<Frame>, k: nat)
    requires k < |frames| && FoldFrames(step, v, frames[..k]).0.Ok?
    ensures FoldFrames(step, v, frames[..k + 1]) == FoldFrame(step, FoldFrames(step, v, frames[..k]).1, frames[k])
    ensures FoldFrames(step, v, frames[..k + 1]).0.Err? ==> FoldFrames(step, v, frames) == FoldFrames(step, v, frames[..k + 1])
  {
    hide FoldFrame;
    assert frames[..k + 1][..k] == frames[..k];
    assert frames == frames[..k + 1] + frames[k + 1..];
    FoldsJoin(step, v, frames[..k + 1], frames[k + 1..]);
  }
}
