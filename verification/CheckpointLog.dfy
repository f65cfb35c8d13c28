/** Checkpoints through the item log: what was stored through power cuts
    restores to exactly the state it was taken from. */
module CheckpointLog {
  import opened Words
  import opened Core
  import opened Flash
  import opened ItemLog
  import opened ItemLogRefinement
  import opened ItemLogRuns
  import opened CheckpointCodec
  import opened Checkpoint
  import opened CheckpointRestore

  datatype Setback = LogSetback(fault: Fault) | RestoreSetback(error: Error)

  /** Load the first `k` items of a header's checkpoint, in order, pushing each
      through the restore. */
  function Recover(c: Config, media: bytes, step: step64, h: Header, k: nat): (Result<(), Setback>, Restore)
    requires c.Fits(media) && k <= U16_SPAN
  {
    if k == 0 then (Ok(()), Begin(h))
    else
      var (r, before) := Recover(c, media, step, h, k - 1);
      if r.Err? then (r, before)
      else
        match Load(c, media, h.digest, k - 1, MAX_ITEM_BYTES)
        case Err(fault) => (Err(LogSetback(fault)), before)
        case Ok(item) =>
          var (pushed, after) := Push(step, before, item);
          if pushed.Err? then (Err(RestoreSetback(pushed.error)), after) else (Ok(()), after)
  }

  /** The whole checkpoint, finished. */
  function Recovered(c: Config, media: bytes, step: step64, h: Header): Result<State, Setback>
    requires c.Fits(media)
  {
    var (r, done) := Recover(c, media, step, h, h.Items());
    if r.Err? then Err(r.error)
    else if Finish(done).Err? then Err(RestoreSetback(Finish(done).error))
    else Ok(done.target)
  }

  lemma {:induction false} RecoverStored(c: Config, media: bytes, step: step64, s: State, k: nat)
    requires c.Fits(media) && Restorable(s) && k <= |Items(s)| <= U16_SPAN
    requires forall i: u16 :: i < k ==> Lookup(c, media, Checkpoint.HeaderOf(step, s).digest, i) == Some(Items(s)[i])
    ensures Recover(c, media, step, Checkpoint.HeaderOf(step, s), k) == (Ok(()), RestoreAt(step, s, k))
  {
    hide Restorable, Items, Checkpoint.HeaderOf, RestoreAt, TakeInto, Begin, Lookup;
    if k == 0 {
      AtEnds(step, s);
    } else {
      RecoverStored(c, media, step, s, k - 1);
      var i: u16 := k - 1;
      assert Lookup(c, media, Checkpoint.HeaderOf(step, s).digest, i) == Some(Items(s)[i]);
      RestorableStored(s);
      ItemsFit(s, k - 1);
      TakeNext(step, s, k - 1, []);
      assert Items(s)[k - 1] + [] == Items(s)[k - 1];
    }
  }

  lemma StoredRecovers(c: Config, media: bytes, step: step64, s: State)
    requires c.Fits(media) && Restorable(s)
    requires forall i: u16 :: i < |Items(s)| ==> Lookup(c, media, Checkpoint.HeaderOf(step, s).digest, i) == Some(Items(s)[i])
    ensures Recovered(c, media, step, Checkpoint.HeaderOf(step, s)) == Ok(s)
  {
    hide Restorable, Items, Checkpoint.HeaderOf, RestoreAt, Recover, Lookup, Finish;
    HeaderCounts(step, s);
    RecoverStored(c, media, step, s, |Items(s)|);
    AtEnds(step, s);
  }

  /** End to end: take an acceptable state's checkpoint, store its items under
      its digest through any cuts and redeliveries, with stores to one other
      digest anywhere between; if each item was once stored Ok, then loading
      them in order and pushing each through a restore gives the state back. */
  lemma CheckpointComesBack(c: Config, chip: Chip, owed: Owed, p: Plain, events: seq<Event>, step: step64, s: State, other: u64)
    requires Inv(c, chip.media, owed) && Refines(c, chip.media, p) && Disciplined(c, chip, owed, events)
    requires Restorable(s)
    requires var digest := Checkpoint.HeaderOf(step, s).digest;
             && !p.Live(digest) && Only(events, digest, other) && Writes(events, digest, Items(s))
             && forall i: u16 :: i < |Items(s)| ==> StoredBy(c, chip, events, |events|, digest, i)
    ensures Recovered(c, ChipAt(c, chip, events, |events|).media, step, Checkpoint.HeaderOf(step, s)) == Ok(s)
  {
    hide Restorable, Items, Checkpoint.HeaderOf, Recovered, Lookup, Inv, ContentsOf, Disciplined, Only, Writes, StoredBy;
    StoredLoads(c, chip, owed, p, events, Checkpoint.HeaderOf(step, s).digest, other, Items(s));
    StoredRecovers(c, ChipAt(c, chip, events, |events|).media, step, s);
  }

  lemma {:induction false} SameLookups(c: Config, a: bytes, b: bytes, step: step64, h: Header, k: nat)
    requires c.Fits(a) && c.Fits(b) && k <= U16_SPAN
    requires forall i: u16 :: Lookup(c, a, h.digest, i) == Lookup(c, b, h.digest, i)
    ensures Recover(c, a, step, h, k) == Recover(c, b, step, h, k)
  {
    hide Lookup, Push, Begin;
    if k > 0 {
      SameLookups(c, a, b, step, h, k - 1);
      var i: u16 := k - 1;
      assert Lookup(c, a, h.digest, i) == Lookup(c, b, h.digest, i);
    }
  }

  /** Until the next checkpoint takes over, the last one can always be gone back
      to: at every cut inside opening and filling another digest, the newest
      checkpoint recovers to what it recovered to before. */
  lemma LastCheckpointHolds(c: Config, chip: Chip, owed: Owed, p: Plain, events: seq<Event>, step: step64, h: Header, next: u64, k: nat)
    requires Inv(c, chip.media, owed) && Refines(c, chip.media, p) && Disciplined(c, chip, owed, events)
    requires p.newest == Some(h.digest) && Only(events, next, next) && next != h.digest && k <= |events|
    ensures Recovered(c, ChipAt(c, chip, events, k).media, step, h) == Recovered(c, chip.media, step, h)
  {
    hide Recover, Lookup, Inv, ContentsOf, Disciplined, Only, Finish;
    NewestSurvives(c, chip, owed, p, events, h.digest, next, k);
    SameLookups(c, ChipAt(c, chip, events, k).media, chip.media, step, h, h.Items());
  }

  lemma {:induction false} RecoverSofar(c: Config, media: bytes, step: step64, h: Header, k: nat) returns (items: seq<bytes>)
    requires c.Fits(media) && k <= U16_SPAN && Recover(c, media, step, h, k).0.Ok?
    ensures Sofar(step, h, Recover(c, media, step, h, k).1, items)
  {
    hide Sofar, Push, Begin, Load;
    if k == 0 {
      BeginSofar(step, h);
      items := [];
    } else {
      items := RecoverSofar(c, media, step, h, k - 1);
      var item := Load(c, media, h.digest, k - 1, MAX_ITEM_BYTES).value;
      PushSound(step, h, Recover(c, media, step, h, k - 1).1, items, item);
      items := items + [item];
    }
  }

  /** Whatever the chip holds, a recovery that finishes has found a state no
      goal of which is mid-run, whose own header is the one asked for. */
  lemma RecoveredMatches(c: Config, media: bytes, step: step64, h: Header)
    requires c.Fits(media) && h.Within() && Recovered(c, media, step, h).Ok?
    ensures var s := Recovered(c, media, step, h).value; Restorable(s) && Checkpoint.HeaderOf(step, s) == h
  {
    hide Sofar, Recover, Restorable, Checkpoint.HeaderOf, Finish;
    var items := RecoverSofar(c, media, step, h, h.Items());
    FinishSound(step, h, Recover(c, media, step, h, h.Items()).1, items);
  }

  /** Left undisturbed, an acceptable state's checkpoint always goes through: a
      digest not yet live, items that fit one area together, and every store
      answers Ok and the state comes back. */
  lemma CheckpointGoesThrough(c: Config, chip: Chip, owed: Owed, p: Plain, step: step64, s: State)
    requires Inv(c, chip.media, owed) && Refines(c, chip.media, p) && OpensSafely(c, chip.media)
    requires !chip.off && chip.cutAt == None && Restorable(s) && Taken(Items(s)) <= c.Size()
    requires !p.Live(Checkpoint.HeaderOf(step, s).digest)
    ensures c.Fits(chip.media) && |Items(s)| <= U16_SPAN
    ensures var events := Stores(Checkpoint.HeaderOf(step, s).digest, Items(s));
            && (forall i :: 0 <= i < |events| ==> AnswerAt(c, chip, events, i) == Answer.Stored(Ok(())))
            && Recovered(c, ChipAt(c, chip, events, |events|).media, step, Checkpoint.HeaderOf(step, s)) == Ok(s)
  {
    hide Restorable, Items, Checkpoint.HeaderOf, Recovered, Inv, Refines, OpensSafely, Disciplined, Taken, Step;
    RestorableStored(s);
    HeaderCounts(step, s);
    var items, digest := Items(s), Checkpoint.HeaderOf(step, s).digest;
    forall i | 0 <= i < |items| ensures |items[i]| <= ITEM_MAX {
      ItemsFit(s, i);
    }
    AllStored(c, chip, owed, p, digest, items);
    var events := Stores(digest, items);
    forall i: u16 | i < |items| ensures StoredBy(c, chip, events, |events|, digest, i) {
      assert events[i].StoreItem? && events[i].digest == digest && events[i].index == i && AnswerAt(c, chip, events, i) == Answer.Stored(Ok(()));
    }
    CheckpointComesBack(c, chip, owed, p, events, step, s, digest);
  }

  /** Items of an acceptable state take at most 172 bytes each of the area. */
  lemma {:induction false} TakenBounded(s: State, k: nat)
    requires CheckpointRestore.Stored(s) && k <= |Items(s)|
    ensures Taken(Items(s)[..k]) <= ItemLog.HEADER_BYTES + 172 * k
  {
    hide Items, CheckpointRestore.Stored;
    if k > 0 {
      TakenBounded(s, k - 1);
      ItemsFit(s, k - 1);
      assert Items(s)[..k][..k - 1] == Items(s)[..k - 1];
    } else {
      assert Items(s)[..0] == [];
    }
  }
}
