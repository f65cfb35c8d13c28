/** Whole runs of the item log: stores, loads, power cuts and restorations in
    any order, and what survives them. */
module ItemLogRuns {
  import opened Words
  import opened Flash
  import opened ItemLog
  import opened ItemLogLayout
  import opened ItemLogRefinement

  /** An append finds the area full exactly when the room left is not enough. */
  lemma FullExact(c: Config, chip: Chip, which: nat, digest: u64, index: u16, item: bytes)
    requires which < 2 && c.Fits(chip.media) && |item| <= ITEM_MAX
    ensures var (slots, stop) := AreaParse(c, chip.media, which);
            && (Append(c, chip, which, digest, index, item).0 == Err(Full) <==> RoomLeft(c, slots, stop) < Cost(item))
            && (RoomLeft(c, slots, stop) >= Cost(item) ==> stop.Some? && stop.value + Cost(item) <= c.End(which))
  {
    hide Parse, Write, ItemCheck, Pad;
    ParseUsed(chip.media, c.First(which), c.End(which));
  }

  lemma PowerLasts(chip: Chip, n: nat)
    ensures PowerOf(chip).off == chip.off
    ensures PowerOf(chip).Lasts(n) <==> !chip.off && !CutWithin(chip, n)
  {
  }

  lemma PowerSplits(chip: Chip, after: Chip)
    requires Counted(chip, after, 2)
    ensures CutWithin(chip, 4) <==> CutWithin(chip, 2) || CutWithin(after, 2)
  {
  }

  /** The room a digest has left: all its area's bytes but the header's and, for
      every slot ever taken, the slot's head and padded length. Only where the
      walk stops at a damaged length, one past the longest item or the area's
      end, is there none. */
  lemma RoomExact(c: Config, media: bytes, p: Plain, digest: u64) returns (which: nat)
    requires Refines(c, media, p) && p.Live(digest)
    ensures which < 2 && Find(c, media, digest) == Some(which)
    ensures var slots := AreaParse(c, media, which).0;
            var next := c.Base(which) + Used(slots);
            && next <= c.End(which)
            && p.Room(digest) == Some(if next + ITEM_HEADER_BYTES <= c.End(which) && !ErasedHead(media, next) then 0 else c.End(which) - next)
            && (next + ITEM_HEADER_BYTES <= c.End(which) && !ErasedHead(media, next) ==>
                  LengthAt(media, next) > 480 || next + 8 + Pad(LengthAt(media, next)) > c.End(which))
  {
    hide Lookup, ReadHeader, Parse, Pad;
    NotLive(c, media, p, digest);
    which := Find(c, media, digest).value;
    ParseUsed(media, c.First(which), c.End(which));
  }

  /** A fresh area has room for any item. */
  lemma FreshHasRoom(c: Config, chip: Chip, which: nat, digest: u64, index: u16, item: bytes)
    requires which < 2 && c.Fits(chip.media) && |item| <= ITEM_MAX
    requires AreaParse(c, chip.media, which) == ([], Some(c.First(which)))
    ensures RoomLeft(c, [], Some(c.First(which))) >= Cost(item)
  {
    hide Parse;
    assert Used([]) == HEADER_BYTES;
    assert c.Size() >= ERASE_BLOCK;
  }

  /** What an append answers, and when, where the area has the room. */
  lemma AppendAnswersExact(c: Config, chip: Chip, p: Plain, q: Plain, which: nat, digest: u64, index: u16, item: bytes)
    requires which < 2 && c.Fits(chip.media) && |item| <= ITEM_MAX
    requires AppendAnswers(p, digest, index, item, Append(c, chip, which, digest, index, item).0, q)
    requires var (slots, stop) := AreaParse(c, chip.media, which); RoomLeft(c, slots, stop) >= Cost(item)
    ensures var (r, after) := Append(c, chip, which, digest, index, item);
            if chip.off || CutWithin(chip, 2) then
              && r == Err(Media(PowerCut)) && (chip.off ==> after == chip)
              && (q == p || q == p.Spent(digest, item) || q == p.Put(digest, index, item))
            else r == Ok(()) && q == p.Put(digest, index, item)
  {
    hide Append, Plain.Put, Plain.Spent, Cost, RoomLeft;
    FullExact(c, chip, which, digest, index, item);
    AppendPower(c, chip, which, digest, index, item);
  }

  lemma OpenedOnce(p: Plain, digest: u64, index: u16, item: bytes)
    ensures p.Opened(digest).Live(digest)
    ensures p.Opened(digest).Spent(digest, item) == p.Spent(digest, item)
    ensures p.Opened(digest).Put(digest, index, item) == p.Put(digest, index, item)
  {
  }

  /** A store under a digest no area holds. */
  lemma OpeningRefines(c: Config, chip: Chip, owed: Owed, p: Plain, digest: u64, index: u16, item: bytes)
    returns (q: Plain)
    requires Inv(c, chip.media, owed) && Refines(c, chip.media, p) && |item| <= ITEM_MAX
    requires Find(c, chip.media, digest) == None && OpensSafely(c, chip.media)
    ensures var (area, opening) := Open(c, chip, digest);
            var (r, after) := if area.Err? then (Err(area.error), opening) else Append(c, opening, area.value, digest, index, item);
            && StoreAnswers(p, digest, index, item, PowerOf(chip), r, q)
            && Refines(c, after.media, q)
            && Inv(c, after.media, OwedAfter(owed, digest, index, item, r))
  {
    hide Inv, Refines, Append, Open, OpensSafely, AreaIs, Parse, Plain.Opened, Plain.Spent, Plain.Put, Plain.Retired, AppendAnswers, Find, RoomLeft, PowerOf;
    InvFits(c, chip.media, owed);
    NotLive(c, chip.media, p, digest);
    q := OpenRefines(c, chip, owed, p, digest);
    OpenPower(c, chip, digest);
    PowerLasts(chip, 4);
    OpenedOnce(p, digest, index, item);
    var (area, opening) := Open(c, chip, digest);
    if area.Ok? {
      PowerSplits(chip, opening);
      q := FilledRefines(c, opening, owed, p, q, area.value, NextArea(c, chip.media).1, digest, index, item);
    } else {
      InvFits(c, opening.media, owed - {digest});
      RetiredLive(p, digest);
      NotLive(c, opening.media, q, digest);
      StaleOwed(c, opening.media, owed, digest, index, item);
      CutSooner(chip);
    }
  }

  lemma RetiredLive(p: Plain, digest: u64)
    ensures p.Retired().Live(digest) ==> p.Live(digest)
  {
  }

  lemma CutSooner(chip: Chip)
    ensures CutWithin(chip, 2) ==> CutWithin(chip, 4)
  {
  }

  /** The append into an area just opened. */
  lemma FilledRefines(c: Config, opening: Chip, owed: Owed, p: Plain, opened': Plain, which: nat, generation: u32, digest: u64, index: u16, item: bytes)
    returns (q: Plain)
    requires which < 2 && Inv(c, opening.media, owed - {digest}) && Refines(c, opening.media, opened') && |item| <= ITEM_MAX
    requires AreaIs(c, opening.media, which, Area(generation, digest), [], []) && AreaParse(c, opening.media, which).1 == Some(c.First(which))
    ensures var (r, after) := Append(c, opening, which, digest, index, item);
            && Refines(c, after.media, q) && Inv(c, after.media, OwedAfter(owed, digest, index, item, r))
            && if opening.off || CutWithin(opening, 2) then
                 r == Err(Media(PowerCut)) && (q == opened' || q == opened'.Spent(digest, item) || q == opened'.Put(digest, index, item))
               else r == Ok(()) && q == opened'.Put(digest, index, item)
  {
    hide Inv, Refines, Append, Parse, Plain.Spent, Plain.Put, AppendAnswers, Residue, ReadHeader, RoomLeft;
    FreshHasRoom(c, opening, which, digest, index, item);
    q := AppendRefines(c, opening, owed - {digest}, opened', which, [], digest, index, item);
    AppendAnswersExact(c, opening, opened', q, which, digest, index, item);
    var r := Append(c, opening, which, digest, index, item).0;
    assert OwedAfter(owed - {digest}, digest, index, item, r) == OwedAfter(owed, digest, index, item, r);
  }

  lemma NotLive(c: Config, media: bytes, p: Plain, digest: u64)
    requires Refines(c, media, p)
    ensures p.Live(digest) <==> Find(c, media, digest).Some?
    ensures p.Live(digest) ==> digest in p.room && p.room[digest] == HeldAt(c, media, Find(c, media, digest).value).value.room
  {
    assert ContentsOf(c, media).Room(digest) == p.Room(digest);
  }

  /** A debt of a digest no area holds binds nothing. */
  lemma StaleOwed(c: Config, media: bytes, owed: Owed, digest: u64, index: u16, item: bytes)
    requires Inv(c, media, owed - {digest}) && Find(c, media, digest) == None
    ensures Inv(c, media, owed[digest := (index, item)])
  {
  }

  /** A store into the area that holds the digest. */
  lemma HeldRefines(c: Config, chip: Chip, owed: Owed, p: Plain, which: nat, digest: u64, index: u16, item: bytes)
    returns (q: Plain)
    requires Inv(c, chip.media, owed) && Refines(c, chip.media, p) && |item| <= ITEM_MAX
    requires Find(c, chip.media, digest) == Some(which) && (digest in owed ==> owed[digest] == (index, item))
    ensures var (r, after) := Append(c, chip, which, digest, index, item);
            && StoreAnswers(p, digest, index, item, PowerOf(chip), r, q)
            && Refines(c, after.media, q)
            && Inv(c, after.media, OwedAfter(owed, digest, index, item, r))
  {
    hide Refines, Append, Parse, Plain.Spent, Plain.Put, Plain.Opened, Plain.Retired, AppendAnswers, Residue, ReadHeader, RoomLeft, PowerOf, Padded, Pad;
    NotLive(c, chip.media, p, digest);
    q := AppendRefines(c, chip, owed, p, which, OwedBody(owed, digest), digest, index, item);
    PowerLasts(chip, 2);
    FullExact(c, chip, which, digest, index, item);
    if p.Refuses(digest, item) {
      FullLeft(p, digest, index, item, q);
    } else {
      AppendAnswersExact(c, chip, p, q, which, digest, index, item);
      if chip.off {
        q := p;
      }
    }
  }

  lemma FullLeft(p: Plain, digest: u64, index: u16, item: bytes, q: Plain)
    requires AppendAnswers(p, digest, index, item, Err(Full), q)
    ensures q == p
  {
  }

  /** One store refines one plain store, at every cut. */
  lemma StoreRefines(c: Config, chip: Chip, owed: Owed, p: Plain, digest: u64, index: u16, item: bytes)
    returns (q: Plain)
    requires Inv(c, chip.media, owed) && Refines(c, chip.media, p) && Admits(c, chip.media, owed, digest, index, item)
    ensures var (r, after) := Store(c, chip, digest, index, item);
            && StoreAnswers(p, digest, index, item, PowerOf(chip), r, q)
            && Refines(c, after.media, q)
            && Inv(c, after.media, OwedAfter(owed, digest, index, item, r))
  {
    hide Inv, Refines, Append, Open, OpensSafely, StoreAnswers, Find, PowerOf;
    InvFits(c, chip.media, owed);
    if |item| > ITEM_MAX {
      q := p;
      TooLong(p, digest, index, item, PowerOf(chip));
    } else if Find(c, chip.media, digest).Some? {
      q := HeldRefines(c, chip, owed, p, Find(c, chip.media, digest).value, digest, index, item);
    } else {
      q := OpeningRefines(c, chip, owed, p, digest, index, item);
    }
  }

  lemma TooLong(p: Plain, digest: u64, index: u16, item: bytes, power: Power)
    requires |item| > ITEM_MAX
    ensures StoreAnswers(p, digest, index, item, power, Err(Full), p)
  {
  }

  // Runs.

  datatype Event =
    | StoreItem(digest: u64, index: u16, item: bytes)
    | LoadItem(digest: u64, index: u16, room: nat)
    | ArmCut(at: nat, cut: Cut)
    | RestorePower

  datatype Answer = Stored(outcome: Result<(), Fault>) | Loaded(read: Result<bytes, Fault>) | Silent

  function Step(c: Config, chip: Chip, e: Event): (r: (Answer, Chip))
    requires c.Fits(chip.media)
    ensures c.Fits(r.1.media)
  {
    match e
    case StoreItem(digest, index, item) =>
      var (r, after) := Store(c, chip, digest, index, item);
      (Stored(r), after)
    case LoadItem(digest, index, room) => (Loaded(Load(c, chip.media, digest, index, room)), chip)
    case ArmCut(at, cut) => (Silent, CutAfter(chip, at, cut))
    case RestorePower => (Silent, PowerOn(chip))
  }

  /** The chip after the first `k` events. */
  function ChipAt(c: Config, chip: Chip, events: seq<Event>, k: nat): (r: Chip)
    requires c.Fits(chip.media) && k <= |events|
    ensures c.Fits(r.media)
    decreases k
  {
    if k == 0 then chip else Step(c, ChipAt(c, chip, events, k - 1), events[k - 1]).1
  }

  function AnswerAt(c: Config, chip: Chip, events: seq<Event>, k: nat): Answer
    requires c.Fits(chip.media) && k < |events|
  {
    Step(c, ChipAt(c, chip, events, k), events[k]).0
  }

  /** The debts before event `k`. */
  function OwedAt(c: Config, chip: Chip, owed: Owed, events: seq<Event>, k: nat): Owed
    requires c.Fits(chip.media) && k <= |events|
    decreases k
  {
    if k == 0 then owed
    else OwedStep(OwedAt(c, chip, owed, events, k - 1), events[k - 1], AnswerAt(c, chip, events, k - 1))
  }

  function OwedStep(owed: Owed, e: Event, a: Answer): Owed {
    match (e, a)
    case (StoreItem(digest, index, item), Stored(r)) => OwedAfter(owed, digest, index, item, r)
    case _ => owed
  }

  /** Every store of the run is admitted when it comes: a cut store is
      redelivered before another under its digest, and opening is safe. */
  ghost predicate Disciplined(c: Config, chip: Chip, owed: Owed, events: seq<Event>)
    requires c.Fits(chip.media)
  {
    forall k :: 0 <= k < |events| && events[k].StoreItem? ==>
      Admits(c, ChipAt(c, chip, events, k).media, OwedAt(c, chip, owed, events, k), events[k].digest, events[k].index, events[k].item)
  }

  /** One event on the plain log: its answer and what it leaves. */
  ghost predicate PlainStep(p: Plain, e: Event, power: Power, a: Answer, q: Plain) {
    match e
    case StoreItem(digest, index, item) => a.Stored? && StoreAnswers(p, digest, index, item, power, a.outcome, q)
    case LoadItem(digest, index, room) =>
      && q == p
      && a == Loaded(match p.Get(digest, index)
        case None => Err(Missing)
        case Some(item) => if |item| > room then Err(Full) else Ok(item))
    case ArmCut(_, _) => q == p && a == Silent
    case RestorePower => q == p && a == Silent
  }

  /** `ps` is a plain log's history that the answers of the run fit. */
  ghost predicate PlainRun(ps: seq<Plain>, c: Config, chip: Chip, events: seq<Event>)
    requires c.Fits(chip.media)
  {
    |ps| == |events| + 1 && forall k :: 0 <= k < |events| ==> PlainStep(ps[k], events[k], PowerOf(ChipAt(c, chip, events, k)), AnswerAt(c, chip, events, k), ps[k + 1])
  }

  lemma StepRefines(c: Config, chip: Chip, owed: Owed, p: Plain, e: Event) returns (q: Plain)
    requires Inv(c, chip.media, owed) && Refines(c, chip.media, p)
    requires e.StoreItem? ==> Admits(c, chip.media, owed, e.digest, e.index, e.item)
    ensures PlainStep(p, e, PowerOf(chip), Step(c, chip, e).0, q)
    ensures Refines(c, Step(c, chip, e).1.media, q)
    ensures Inv(c, Step(c, chip, e).1.media, OwedStep(owed, e, Step(c, chip, e).0))
  {
    hide Store, Lookup;
    if e.StoreItem? {
      q := StoreRefines(c, chip, owed, p, e.digest, e.index, e.item);
    } else {
      q := p;
    }
  }

  lemma RunStarts(c: Config, chip: Chip, owed: Owed, events: seq<Event>)
    requires c.Fits(chip.media)
    ensures ChipAt(c, chip, events, 0) == chip && OwedAt(c, chip, owed, events, 0) == owed
  {
  }

  lemma RunGoesOn(c: Config, chip: Chip, owed: Owed, events: seq<Event>, k: nat)
    requires c.Fits(chip.media) && k < |events|
    ensures (AnswerAt(c, chip, events, k), ChipAt(c, chip, events, k + 1)) == Step(c, ChipAt(c, chip, events, k), events[k])
    ensures OwedAt(c, chip, owed, events, k + 1) == OwedStep(OwedAt(c, chip, owed, events, k), events[k], AnswerAt(c, chip, events, k))
  {
    hide Step, OwedStep;
  }

  /** The crash refinement: from any state that stands for a plain log, every
      disciplined run, wherever power is cut, answers as a plain log would, and
      its media stands for that log after every event. */
  lemma {:induction false} RunRefines(c: Config, chip: Chip, owed: Owed, p: Plain, events: seq<Event>, k: nat) returns (ps: seq<Plain>)
    requires Inv(c, chip.media, owed) && Refines(c, chip.media, p) && Disciplined(c, chip, owed, events) && k <= |events|
    ensures |ps| == k + 1 && ps[0] == p
    ensures forall j :: 0 <= j < k ==> PlainStep(ps[j], events[j], PowerOf(ChipAt(c, chip, events, j)), AnswerAt(c, chip, events, j), ps[j + 1])
    ensures forall j :: 0 <= j <= k ==> Refines(c, ChipAt(c, chip, events, j).media, ps[j])
    ensures Inv(c, ChipAt(c, chip, events, k).media, OwedAt(c, chip, owed, events, k))
    decreases k
  {
    hide Step, Inv, Refines, PlainStep, Admits, OwedStep, ChipAt, OwedAt, AnswerAt;
    InvFits(c, chip.media, owed);
    RunStarts(c, chip, owed, events);
    if k == 0 {
      ps := [p];
    } else {
      var before := RunRefines(c, chip, owed, p, events, k - 1);
      RunGoesOn(c, chip, owed, events, k - 1);
      var q := StepRefines(c, ChipAt(c, chip, events, k - 1), OwedAt(c, chip, owed, events, k - 1), before[k - 1], events[k - 1]);
      ps := before + [q];
      forall j | 0 <= j < k ensures PlainStep(ps[j], events[j], PowerOf(ChipAt(c, chip, events, j)), AnswerAt(c, chip, events, j), ps[j + 1]) {
        if j < k - 1 {
          assert ps[j] == before[j] && ps[j + 1] == before[j + 1];
        }
      }
      forall j | 0 <= j <= k ensures Refines(c, ChipAt(c, chip, events, j).media, ps[j]) {
        if j < k {
          assert ps[j] == before[j];
        }
      }
    }
  }

  /** The same over the whole run. */
  lemma CrashRefinement(c: Config, chip: Chip, owed: Owed, p: Plain, events: seq<Event>) returns (ps: seq<Plain>)
    requires Inv(c, chip.media, owed) && Refines(c, chip.media, p) && Disciplined(c, chip, owed, events)
    ensures PlainRun(ps, c, chip, events) && ps[0] == p
    ensures forall k :: 0 <= k <= |events| ==> Refines(c, ChipAt(c, chip, events, k).media, ps[k])
  {
    hide Step, Inv, Refines, PlainStep, Admits;
    ps := RunRefines(c, chip, owed, p, events, |events|);
  }

  /** An erased chip stands for the empty log and owes nothing. */
  lemma ErasedChip(c: Config, media: bytes)
    requires c.Fits(media) && forall k :: 0 <= k < |media| ==> media[k] == BLANK
    ensures Inv(c, media, map[]) && Refines(c, media, Plain(None, None, map[], c.Size(), map[]))
  {
    hide ReadHeader, Parse;
    BlankHeader(c, media, 0);
    BlankHeader(c, media, 1);
  }

  // What a caller checks once: how often digests are opened, and redelivery.

  /** The store tries to open a digest no area holds. */
  predicate OpensNew(c: Config, media: bytes, e: Event)
    requires c.Fits(media)
  {
    e.StoreItem? && |e.item| <= ITEM_MAX && Find(c, media, e.digest) == None
  }

  /** How many of the first `k` events do. */
  function OpensBefore(c: Config, chip: Chip, events: seq<Event>, k: nat): nat
    requires c.Fits(chip.media) && k <= |events|
    decreases k
  {
    if k == 0 then 0
    else OpensBefore(c, chip, events, k - 1) + if OpensNew(c, ChipAt(c, chip, events, k - 1).media, events[k - 1]) then 1 else 0
  }

  lemma {:induction false} OpensGrow(c: Config, chip: Chip, events: seq<Event>, j: nat, k: nat)
    requires c.Fits(chip.media) && j <= k <= |events|
    ensures OpensBefore(c, chip, events, j) <= OpensBefore(c, chip, events, k)
    decreases k
  {
    hide Step;
    if j < k {
      OpensGrow(c, chip, events, j, k - 1);
    }
  }

  /** A store cut short is delivered again, the same, before any other store
      into an area under its digest. */
  ghost predicate Redelivers(c: Config, chip: Chip, owed: Owed, events: seq<Event>)
    requires c.Fits(chip.media)
  {
    forall k :: 0 <= k < |events| && events[k].StoreItem? && Find(c, ChipAt(c, chip, events, k).media, events[k].digest).Some? ==>
      var debts := OwedAt(c, chip, owed, events, k);
      events[k].digest in debts ==> debts[events[k].digest] == (events[k].index, events[k].item)
  }

  /** Every generation from one past `from` to `to` fits its word, and its
      header torn halfway fails its check. */
  ghost predicate SafeGenerations(c: Config, from: u32, to: nat) {
    to < U32_SPAN && forall g: u32 :: from < g <= to ==> TornHeaderFails(c, g)
  }

  lemma AppendGeneration(c: Config, chip: Chip, which: nat, header: Area, slots: seq<Slot>, body: bytes, digest: u64, index: u16, item: bytes)
    requires AreaIs(c, chip.media, which, header, slots, body) && |item| <= ITEM_MAX
    requires body == [] || body == Padded(item)
    ensures NewestGeneration(c, Append(c, chip, which, digest, index, item).1.media) == NewestGeneration(c, chip.media)
  {
    hide ReadHeader, Parse, Append, Padded, Residue;
    var now, left, stored := AppendCases(c, chip, which, header, slots, body, digest, index, item);
    AreaFrame(c, chip.media, Append(c, chip, which, digest, index, item).1.media, 1 - which);
  }

  lemma OpenGeneration(c: Config, chip: Chip, digest: u64)
    requires c.Fits(chip.media) && OpensSafely(c, chip.media)
    ensures NewestGeneration(c, chip.media) <= NewestGeneration(c, Open(c, chip, digest).1.media) <= NewestGeneration(c, chip.media) + 1
    ensures var (r, after) := Open(c, chip, digest);
            r.Ok? ==> AreaIs(c, after.media, r.value, Area(NextArea(c, chip.media).1, digest), [], [])
  {
    hide ReadHeader, Parse, Open, Residue, TornHeaderFails;
    OpenCases(c, chip, digest);
    AreaFrame(c, chip.media, Open(c, chip, digest).1.media, 1 - NextArea(c, chip.media).0);
  }

  /** A store never lowers the newest generation, and raises it by no more than
      the one it opens. */
  lemma StoreGeneration(c: Config, chip: Chip, owed: Owed, e: Event)
    requires Inv(c, chip.media, owed) && e.StoreItem? && Admits(c, chip.media, owed, e.digest, e.index, e.item)
    ensures var before, after := NewestGeneration(c, chip.media), NewestGeneration(c, Step(c, chip, e).1.media);
            before <= after <= before + if OpensNew(c, chip.media, e) then 1 else 0
  {
    hide ReadHeader, Parse, Append, Open, Padded, Residue, OpensSafely, NewestGeneration, Find;
    if |e.item| <= ITEM_MAX {
      match Find(c, chip.media, e.digest) {
        case Some(which) => HeldGeneration(c, chip, owed, which, e.digest, e.index, e.item);
        case None =>
          OpenGeneration(c, chip, e.digest);
          var (area, opening) := Open(c, chip, e.digest);
          if area.Ok? {
            AppendGeneration(c, opening, area.value, Area(NextArea(c, chip.media).1, e.digest), [], [], e.digest, e.index, e.item);
          }
      }
    }
  }

  lemma HeldGeneration(c: Config, chip: Chip, owed: Owed, which: nat, digest: u64, index: u16, item: bytes)
    requires Inv(c, chip.media, owed) && Find(c, chip.media, digest) == Some(which) && |item| <= ITEM_MAX
    requires digest in owed ==> owed[digest] == (index, item)
    ensures NewestGeneration(c, Append(c, chip, which, digest, index, item).1.media) == NewestGeneration(c, chip.media)
  {
    hide ReadHeader, Parse, Append, Padded, Residue, NewestGeneration;
    var header := ReadHeader(c, chip.media, which).value;
    AppendGeneration(c, chip, which, header, AreaParse(c, chip.media, which).0, OwedBody(owed, digest), digest, index, item);
  }

  /** After `k` events the media stand for `q`, and the newest generation is at
      most as many past the first as digests were opened. */
  ghost predicate StandsAt(c: Config, chip: Chip, owed: Owed, events: seq<Event>, k: nat, q: Plain)
    requires c.Fits(chip.media) && k <= |events|
  {
    var first, now := NewestGeneration(c, chip.media), ChipAt(c, chip, events, k).media;
    && Inv(c, now, OwedAt(c, chip, owed, events, k)) && Refines(c, now, q)
    && first <= NewestGeneration(c, now) <= first + OpensBefore(c, chip, events, k)
  }

  ghost predicate AdmitsAt(c: Config, chip: Chip, owed: Owed, events: seq<Event>, k: nat)
    requires c.Fits(chip.media) && k < |events|
  {
    events[k].StoreItem? ==>
      Admits(c, ChipAt(c, chip, events, k).media, OwedAt(c, chip, owed, events, k), events[k].digest, events[k].index, events[k].item)
  }

  /** Redelivery, and generations that are safe up to as many as the run opens,
      are discipline enough. */
  lemma FewOpens(c: Config, chip: Chip, owed: Owed, p: Plain, events: seq<Event>)
    requires Inv(c, chip.media, owed) && Refines(c, chip.media, p) && Redelivers(c, chip, owed, events)
    requires SafeGenerations(c, NewestGeneration(c, chip.media), NewestGeneration(c, chip.media) + OpensBefore(c, chip, events, |events|))
    ensures Disciplined(c, chip, owed, events)
  {
    hide Step, Inv, Refines, OpensBefore, Redelivers, SafeGenerations, NewestGeneration, Admits, StandsAt;
    InvFits(c, chip.media, owed);
    var q := OpensSofar(c, chip, owed, p, events, |events|);
    forall k | 0 <= k < |events| && events[k].StoreItem?
      ensures Admits(c, ChipAt(c, chip, events, k).media, OwedAt(c, chip, owed, events, k), events[k].digest, events[k].index, events[k].item)
    {
      assert AdmitsAt(c, chip, owed, events, k);
    }
  }

  /** From a blank chip: with cut stores redelivered, fewer than 2^32 openings
      tried, and no torn header of those generations passing its check, every
      run answers as a plain log that starts empty. */
  lemma BlankRun(c: Config, chip: Chip, events: seq<Event>) returns (ps: seq<Plain>)
    requires c.Fits(chip.media) && forall k :: 0 <= k < |chip.media| ==> chip.media[k] == BLANK
    requires Redelivers(c, chip, map[], events) && SafeGenerations(c, 0, OpensBefore(c, chip, events, |events|))
    ensures Disciplined(c, chip, map[], events)
    ensures PlainRun(ps, c, chip, events) && ps[0] == Plain(None, None, map[], c.Size(), map[])
    ensures forall k :: 0 <= k <= |events| ==> Refines(c, ChipAt(c, chip, events, k).media, ps[k])
  {
    hide Step, Inv, Refines, OpensBefore, Redelivers, SafeGenerations, ReadHeader, PlainRun, Disciplined;
    ErasedChip(c, chip.media);
    BlankHeader(c, chip.media, 0);
    BlankHeader(c, chip.media, 1);
    FewOpens(c, chip, map[], Plain(None, None, map[], c.Size(), map[]), events);
    ps := CrashRefinement(c, chip, map[], Plain(None, None, map[], c.Size(), map[]), events);
  }

  lemma {:induction false} OpensSofar(c: Config, chip: Chip, owed: Owed, p: Plain, events: seq<Event>, k: nat) returns (q: Plain)
    requires Inv(c, chip.media, owed) && Refines(c, chip.media, p) && Redelivers(c, chip, owed, events) && k <= |events|
    requires SafeGenerations(c, NewestGeneration(c, chip.media), NewestGeneration(c, chip.media) + OpensBefore(c, chip, events, |events|))
    ensures StandsAt(c, chip, owed, events, k, q)
    ensures forall j :: 0 <= j < k ==> AdmitsAt(c, chip, owed, events, j)
    decreases k
  {
    hide Step, Redelivers, SafeGenerations, AdmitsAt, Inv, Refines, NewestGeneration, OpensBefore, ChipAt, StandsAt;
    InvFits(c, chip.media, owed);
    if k == 0 {
      q := p;
      NoneSofar(c, chip, owed, p, events);
    } else {
      q := OpensSofar(c, chip, owed, p, events, k - 1);
      q := OneMore(c, chip, owed, events, k - 1, q);
    }
  }

  lemma NoneSofar(c: Config, chip: Chip, owed: Owed, p: Plain, events: seq<Event>)
    requires Inv(c, chip.media, owed) && Refines(c, chip.media, p)
    ensures StandsAt(c, chip, owed, events, 0, p)
  {
    hide Step, Inv, Refines, NewestGeneration;
    InvFits(c, chip.media, owed);
  }

  lemma OneMore(c: Config, chip: Chip, owed: Owed, events: seq<Event>, k: nat, q: Plain) returns (after: Plain)
    requires c.Fits(chip.media) && k < |events| && Redelivers(c, chip, owed, events) && StandsAt(c, chip, owed, events, k, q)
    requires SafeGenerations(c, NewestGeneration(c, chip.media), NewestGeneration(c, chip.media) + OpensBefore(c, chip, events, |events|))
    ensures AdmitsAt(c, chip, owed, events, k)
    ensures StandsAt(c, chip, owed, events, k + 1, after)
  {
    hide Step, Inv, Refines, Redelivers, SafeGenerations, NewestGeneration, Admits, OwedStep, OpensNew;
    var now, debts, e := ChipAt(c, chip, events, k), OwedAt(c, chip, owed, events, k), events[k];
    if e.StoreItem? {
      OpensGrow(c, chip, events, k + 1, |events|);
      AdmittedAt(c, chip, owed, events, k);
      StoreGeneration(c, now, debts, e);
    } else {
      SameMedia(c, now, e);
    }
    after := StepRefines(c, now, debts, q, e);
  }

  lemma SameMedia(c: Config, chip: Chip, e: Event)
    requires c.Fits(chip.media) && !e.StoreItem?
    ensures Step(c, chip, e).1.media == chip.media
  {
  }

  lemma AdmittedAt(c: Config, chip: Chip, owed: Owed, events: seq<Event>, k: nat)
    requires c.Fits(chip.media) && Redelivers(c, chip, owed, events) && k < |events| && events[k].StoreItem?
    requires var first, now := NewestGeneration(c, chip.media), ChipAt(c, chip, events, k).media;
             && SafeGenerations(c, first, first + OpensBefore(c, chip, events, |events|))
             && first <= NewestGeneration(c, now) <= first + OpensBefore(c, chip, events, k)
             && OpensBefore(c, chip, events, k + 1) <= OpensBefore(c, chip, events, |events|)
    ensures Admits(c, ChipAt(c, chip, events, k).media, OwedAt(c, chip, owed, events, k), events[k].digest, events[k].index, events[k].item)
  {
    hide Step, NewestGeneration, Find, TornHeaderFails;
    var now := ChipAt(c, chip, events, k).media;
    if OpensNew(c, now, events[k]) {
      assert OpensBefore(c, chip, events, k + 1) == OpensBefore(c, chip, events, k) + 1;
    }
  }

  // What survives a run.

  lemma DistinctLive(c: Config, media: bytes, owed: Owed, p: Plain)
    requires Inv(c, media, owed) && Refines(c, media, p)
    ensures p.previous.Some? ==> p.previous != p.newest
  {
    hide AreaInv, Lookup;
  }

  /** Stores in the run go to `a` or `b` only. */
  ghost predicate Only(events: seq<Event>, a: u64, b: u64) {
    forall k :: 0 <= k < |events| && events[k].StoreItem? ==> events[k].digest == a || events[k].digest == b
  }

  /** Once live, `a` has only `b` after it. */
  ghost predicate Recent(p: Plain, a: u64, b: u64) {
    && (p.previous.Some? ==> p.previous != p.newest)
    && (p.Live(a) ==> p.newest == Some(a) || (p.newest == Some(b) && p.previous == Some(a)))
  }

  /** One plain step under stores to `a` and `b`: `a` stays, and its items
      change only where a store to `a` says. */
  lemma StepKeeps(p: Plain, e: Event, power: Power, x: Answer, q: Plain, a: u64, b: u64)
    requires PlainStep(p, e, power, x, q) && Recent(p, a, b)
    requires e.StoreItem? ==> e.digest == a || e.digest == b
    ensures Recent(q, a, b)
    ensures p.Live(a) ==> q.Live(a)
    ensures forall i: u16 :: p.Live(a) && !(e.StoreItem? && e.digest == a && e.index == i) ==> q.Get(a, i) == p.Get(a, i)
    ensures forall i: u16 :: p.Live(a) && e.StoreItem? && e.digest == a && e.index == i ==> q.Get(a, i) in {p.Get(a, i), Some(e.item)}
    ensures e.StoreItem? && x.outcome.Ok? && e.digest == a ==> q.Live(a) && q.Get(a, e.index) == Some(e.item)
  {
    hide Plain.Refuses, Power.Lasts, Plain.Retired, Plain.Spent, Plain.Put, Plain.Opened, Cost, Pad;
    if e.StoreItem? {
      ChangesKeep(p, e.digest, e.index, e.item, a, b);
    }
  }

  /** Whatever a store may leave: the digests it leaves live, and its items. */
  lemma ChangesKeep(p: Plain, digest: u64, index: u16, item: bytes, a: u64, b: u64)
    requires Recent(p, a, b) && (digest == a || digest == b)
    ensures forall q :: q in {p.Opened(digest), p.Spent(digest, item), p.Put(digest, index, item)} ==>
              Recent(q, a, b) && q.Live(digest) && (p.Live(a) ==> q.Live(a))
    ensures !p.Live(digest) ==> Recent(p.Retired(), a, b) && (p.Live(a) ==> p.Retired().Live(a))
    ensures forall i: u16 :: p.Live(a) ==> p.Opened(digest).Get(a, i) == p.Spent(digest, item).Get(a, i) == p.Get(a, i)
    ensures forall i: u16 :: p.Live(a) && !p.Live(digest) ==> p.Retired().Get(a, i) == p.Get(a, i)
    ensures forall i: u16 :: p.Live(a) && !(digest == a && index == i) ==> p.Put(digest, index, item).Get(a, i) == p.Get(a, i)
    ensures p.Put(digest, index, item).Get(digest, index) == Some(item)
  {
    hide Cost;
  }

  /** The newest checkpoint survives: while another digest is opened and
      filled, wherever power is cut and however often it is retried, every item
      of the newest digest still loads unchanged. */
  lemma {:induction false} NewestSurvives(c: Config, chip: Chip, owed: Owed, p: Plain, events: seq<Event>, newest: u64, next: u64, k: nat)
    requires Inv(c, chip.media, owed) && Refines(c, chip.media, p) && Disciplined(c, chip, owed, events)
    requires p.newest == Some(newest) && Only(events, next, next) && next != newest && k <= |events|
    ensures forall i: u16 :: Lookup(c, ChipAt(c, chip, events, k).media, newest, i) == Lookup(c, chip.media, newest, i)
  {
    hide Step, Inv, PlainStep, Admits, Lookup, ContentsOf;
    var ps := CrashRefinement(c, chip, owed, p, events);
    DistinctLive(c, chip.media, owed, p);
    NewestKept(ps, c, chip, events, newest, next, k);
    assert Refines(c, ChipAt(c, chip, events, k).media, ps[k]);
    forall i: u16 ensures Lookup(c, ChipAt(c, chip, events, k).media, newest, i) == Lookup(c, chip.media, newest, i) {
      assert Lookup(c, ChipAt(c, chip, events, k).media, newest, i) == ps[k].Get(newest, i);
    }
  }

  lemma {:induction false} NewestKept(ps: seq<Plain>, c: Config, chip: Chip, events: seq<Event>, newest: u64, next: u64, k: nat)
    requires c.Fits(chip.media) && PlainRun(ps, c, chip, events) && k <= |events|
    requires ps[0].newest == Some(newest) && ps[0].previous != ps[0].newest && Only(events, next, next) && next != newest
    ensures Recent(ps[k], newest, next) && ps[k].Live(newest)
    ensures forall i: u16 :: ps[k].Get(newest, i) == ps[0].Get(newest, i)
    decreases k
  {
    hide Step, PlainStep;
    if k > 0 {
      NewestKept(ps, c, chip, events, newest, next, k - 1);
      StepKeeps(ps[k - 1], events[k - 1], PowerOf(ChipAt(c, chip, events, k - 1)), AnswerAt(c, chip, events, k - 1), ps[k], newest, next);
    }
  }

  /** Store `i` of `a` answered Ok somewhere in the first `k` events. */
  ghost predicate StoredBy(c: Config, chip: Chip, events: seq<Event>, k: nat, a: u64, i: u16)
    requires c.Fits(chip.media) && k <= |events|
  {
    exists j :: 0 <= j < k && events[j].StoreItem? && events[j].digest == a && events[j].index == i && AnswerAt(c, chip, events, j) == Stored(Ok(()))
  }

  /** Every store to `a` in the run stores the item `want` lists there. */
  ghost predicate Writes(events: seq<Event>, a: u64, want: seq<bytes>) {
    forall k :: 0 <= k < |events| && events[k].StoreItem? && events[k].digest == a ==>
      events[k].index < |want| && events[k].item == want[events[k].index]
  }

  lemma {:induction false} StoredStays(ps: seq<Plain>, c: Config, chip: Chip, events: seq<Event>, a: u64, b: u64, want: seq<bytes>, k: nat)
    requires c.Fits(chip.media) && PlainRun(ps, c, chip, events) && k <= |events|
    requires !ps[0].Live(a) && (ps[0].previous.Some? ==> ps[0].previous != ps[0].newest)
    requires forall key :: key in ps[0].items ==> ps[0].Live(key.0)
    requires Only(events, a, b) && Writes(events, a, want)
    ensures Recent(ps[k], a, b)
    ensures forall i: u16 :: ps[k].Get(a, i).Some? ==> ps[k].Live(a) && i < |want| && ps[k].Get(a, i).value == want[i]
    ensures forall i: u16 :: StoredBy(c, chip, events, k, a, i) ==> ps[k].Get(a, i).Some?
    decreases k
  {
    hide Step, PlainStep, Recent;
    if k == 0 {
      assert Recent(ps[0], a, b) by { assert !ps[0].Live(a); RecentWhenDead(ps[0], a, b); }
    } else {
      StoredStays(ps, c, chip, events, a, b, want, k - 1);
      StepKeeps(ps[k - 1], events[k - 1], PowerOf(ChipAt(c, chip, events, k - 1)), AnswerAt(c, chip, events, k - 1), ps[k], a, b);
      StepAdds(ps[k - 1], events[k - 1], PowerOf(ChipAt(c, chip, events, k - 1)), AnswerAt(c, chip, events, k - 1), ps[k], a);
    }
  }

  lemma RecentWhenDead(p: Plain, a: u64, b: u64)
    requires !p.Live(a) && (p.previous.Some? ==> p.previous != p.newest)
    ensures Recent(p, a, b)
  {
  }

  /** An item of `a` that was not there comes from a store to `a`. */
  lemma StepAdds(p: Plain, e: Event, power: Power, x: Answer, q: Plain, a: u64)
    requires PlainStep(p, e, power, x, q)
    requires forall i: u16 :: p.Get(a, i).Some? ==> p.Live(a)
    ensures forall i: u16 :: q.Get(a, i).Some? ==> q.Get(a, i) == p.Get(a, i) || (e.StoreItem? && e.digest == a && e.index == i && q.Get(a, i) == Some(e.item))
    ensures forall i: u16 :: q.Get(a, i).Some? ==> q.Live(a)
  {
    hide Plain.Refuses, Power.Lasts, Plain.Retired, Plain.Spent, Plain.Put, Plain.Opened, Cost, Pad;
    if e.StoreItem? {
      ChangesAdd(p, e.digest, e.index, e.item, a);
    }
  }

  lemma ChangesAdd(p: Plain, digest: u64, index: u16, item: bytes, a: u64)
    requires forall i: u16 :: p.Get(a, i).Some? ==> p.Live(a)
    ensures forall i: u16 :: p.Opened(digest).Get(a, i).Some? ==> p.Opened(digest).Get(a, i) == p.Get(a, i) && p.Opened(digest).Live(a)
    ensures forall i: u16 :: p.Spent(digest, item).Get(a, i).Some? ==> p.Spent(digest, item).Get(a, i) == p.Get(a, i) && p.Spent(digest, item).Live(a)
    ensures forall i: u16 :: p.Retired().Get(a, i).Some? ==> p.Retired().Get(a, i) == p.Get(a, i) && p.Retired().Live(a)
    ensures forall i: u16 :: p.Put(digest, index, item).Get(a, i).Some? ==>
              && p.Put(digest, index, item).Live(a)
              && (p.Put(digest, index, item).Get(a, i) == p.Get(a, i) || (digest == a && index == i && p.Put(digest, index, item).Get(a, i) == Some(item)))
  {
    hide Cost;
    assert forall i: u16 :: p.Put(digest, index, item).Get(a, i) == (if digest == a && index == i then Some(item) else p.Spent(digest, item).Get(a, i));
    assert p.Put(digest, index, item).Live(a) == p.Spent(digest, item).Live(a);
    assert p.Spent(digest, item).Live(digest);
  }

  /** What was stored under a fresh digest loads, through cuts, redeliveries
      and the opening of at most one other digest. */
  lemma StoredLoads(c: Config, chip: Chip, owed: Owed, p: Plain, events: seq<Event>, a: u64, b: u64, want: seq<bytes>)
    requires Inv(c, chip.media, owed) && Refines(c, chip.media, p) && Disciplined(c, chip, owed, events)
    requires !p.Live(a) && Only(events, a, b) && Writes(events, a, want)
    ensures forall i: u16 :: StoredBy(c, chip, events, |events|, a, i) ==>
              i < |want| && Lookup(c, ChipAt(c, chip, events, |events|).media, a, i) == Some(want[i])
  {
    hide Step, Inv, PlainStep, Admits, Lookup, ContentsOf, Recent;
    var ps := CrashRefinement(c, chip, owed, p, events);
    DistinctLive(c, chip.media, owed, p);
    var n := |events|;
    StoredStays(ps, c, chip, events, a, b, want, n);
    assert Refines(c, ChipAt(c, chip, events, n).media, ps[n]);
    forall i: u16 | StoredBy(c, chip, events, n, a, i)
      ensures i < |want| && Lookup(c, ChipAt(c, chip, events, n).media, a, i) == Some(want[i])
    {
      assert Lookup(c, ChipAt(c, chip, events, n).media, a, i) == ps[n].Get(a, i);
    }
  }

  // Undisturbed runs.

  /** The stores of `items` under one digest, in order. */
  function Stores(digest: u64, items: seq<bytes>): (r: seq<Event>)
    requires |items| <= U16_SPAN
    ensures |r| == |items|
  {
    seq(|items|, i requires 0 <= i < |items| => StoreItem(digest, i, items[i]))
  }

  /** The bytes of an area the items take, its header included. */
  function Taken(items: seq<bytes>): nat {
    if items == [] then HEADER_BYTES else Taken(items[..|items| - 1]) + Cost(items[|items| - 1])
  }

  lemma {:induction false} TakenGrows(items: seq<bytes>, k: nat)
    requires k <= |items|
    ensures Taken(items[..k]) <= Taken(items)
  {
    hide Cost;
    var n := |items|;
    if k < n {
      TakenGrows(items[..n - 1], k);
      assert items[..n - 1][..k] == items[..k];
    } else {
      assert items[..k] == items;
    }
  }

  /** After `k` undisturbed stores: all answered Ok, nothing is owed under the
      digest, and its room is what the items took less. */
  ghost predicate Undisturbed(c: Config, chip: Chip, owed: Owed, digest: u64, items: seq<bytes>, k: nat, q: Plain)
    requires c.Fits(chip.media) && k <= |items| <= U16_SPAN
  {
    var events := Stores(digest, items);
    var now, debts := ChipAt(c, chip, events, k), OwedAt(c, chip, owed, events, k);
    && Inv(c, now.media, debts) && Refines(c, now.media, q)
    && !now.off && now.cutAt == None
    && (k == 0 ==> now == chip && !q.Live(digest))
    && (k > 0 ==> digest !in debts && q.Room(digest) == Some(c.Size() - Taken(items[..k])))
    && AllDone(c, chip, owed, events, k)
  }

  /** The first `k` stores were admitted and answered Ok. */
  ghost predicate AllDone(c: Config, chip: Chip, owed: Owed, events: seq<Event>, k: nat)
    requires c.Fits(chip.media) && k <= |events|
  {
    forall j :: 0 <= j < k ==> AnswerAt(c, chip, events, j) == Stored(Ok(())) && AdmitsAt(c, chip, owed, events, j)
  }

  lemma OneMoreDone(c: Config, chip: Chip, owed: Owed, events: seq<Event>, k: nat)
    requires c.Fits(chip.media) && k < |events| && AllDone(c, chip, owed, events, k)
    requires AnswerAt(c, chip, events, k) == Stored(Ok(())) && AdmitsAt(c, chip, owed, events, k)
    ensures AllDone(c, chip, owed, events, k + 1)
  {
    hide AnswerAt, AdmitsAt;
  }

  lemma StorePower(c: Config, chip: Chip, digest: u64, index: u16, item: bytes)
    requires c.Fits(chip.media) && !chip.off && chip.cutAt == None
    ensures var after := Store(c, chip, digest, index, item).1; !after.off && after.cutAt == None
  {
    hide Parse, Append, Open, Cost;
    if |item| <= ITEM_MAX {
      match Find(c, chip.media, digest) {
        case Some(which) => AppendPlugged(c, chip, which, digest, index, item);
        case None =>
          OpenPower(c, chip, digest);
          var (area, opening) := Open(c, chip, digest);
          if area.Ok? {
            AppendPlugged(c, opening, area.value, digest, index, item);
          }
      }
    }
  }

  lemma AppendPlugged(c: Config, chip: Chip, which: nat, digest: u64, index: u16, item: bytes)
    requires which < 2 && c.Fits(chip.media) && |item| <= ITEM_MAX && !chip.off && chip.cutAt == None
    ensures var after := Append(c, chip, which, digest, index, item).1; !after.off && after.cutAt == None
  {
    hide Parse, Write, SlotHead, Padded, ItemCheck, Pad;
    var stop := AreaParse(c, chip.media, which).1;
    if stop.Some? && stop.value + Cost(item) <= c.End(which) {
      AppendPower(c, chip, which, digest, index, item);
    }
  }

  /** One undisturbed store with room for it. */
  lemma StoreOne(c: Config, chip: Chip, owed: Owed, p: Plain, digest: u64, index: u16, item: bytes) returns (q: Plain)
    requires Inv(c, chip.media, owed) && Refines(c, chip.media, p) && Admits(c, chip.media, owed, digest, index, item)
    requires !chip.off && chip.cutAt == None && |item| <= ITEM_MAX
    requires p.Live(digest) ==> digest in p.room && p.room[digest] >= Cost(item)
    ensures var (r, after) := Store(c, chip, digest, index, item);
            && r == Ok(()) && !after.off && after.cutAt == None
            && Inv(c, after.media, owed - {digest}) && Refines(c, after.media, q)
            && q.Room(digest) == Some((if p.Live(digest) then p.room[digest] else c.Size() - HEADER_BYTES) - Cost(item))
  {
    hide Store, Inv, Refines, Admits, Cost, Pad, Plain.Put;
    InvFits(c, chip.media, owed);
    SizeOf(c, chip.media, p);
    q := StoreRefines(c, chip, owed, p, digest, index, item);
    StorePower(c, chip, digest, index, item);
    CostIs(item);
    PutRoom(p, digest, index, item);
  }

  lemma SizeOf(c: Config, media: bytes, p: Plain)
    requires Refines(c, media, p)
    ensures p.size == c.Size()
  {
  }

  /** One more store, with room for it. */
  lemma UndisturbedStep(c: Config, chip: Chip, owed: Owed, digest: u64, items: seq<bytes>, k: nat, p: Plain) returns (q: Plain)
    requires c.Fits(chip.media) && k < |items| <= U16_SPAN && Undisturbed(c, chip, owed, digest, items, k, p)
    requires |items[k]| <= ITEM_MAX && Taken(items[..k + 1]) <= c.Size() && OpensSafely(c, chip.media)
    ensures Undisturbed(c, chip, owed, digest, items, k + 1, q)
  {
    hide Store, Inv, Refines, OpensSafely, Cost, ChipAt, OwedAt, AnswerAt, AllDone, Find, Parse, Contents.Room, ContentsOf;
    var events := Stores(digest, items);
    var now, debts := ChipAt(c, chip, events, k), OwedAt(c, chip, owed, events, k);
    NotLive(c, now.media, p, digest);
    assert items[..k + 1][..k] == items[..k];
    if k == 0 {
      assert items[..0] == [] && Taken([]) == HEADER_BYTES;
    }
    assert AdmitsAt(c, chip, owed, events, k);
    RunGoesOn(c, chip, owed, events, k);
    q := StoreOne(c, now, debts, p, digest, k, items[k]);
    OneMoreDone(c, chip, owed, events, k);
  }

  lemma CostIs(item: bytes)
    ensures Cost(item) == ITEM_HEADER_BYTES + Pad(|item|)
  {
  }

  lemma PutRoom(p: Plain, digest: u64, index: u16, item: bytes)
    requires p.Live(digest) ==> digest in p.room
    ensures p.Put(digest, index, item).Room(digest) == Some((if p.Live(digest) then p.room[digest] else p.size - HEADER_BYTES) - Cost(item))
  {
    hide Cost;
  }

  lemma UndisturbedStart(c: Config, chip: Chip, owed: Owed, p: Plain, digest: u64, items: seq<bytes>)
    requires c.Fits(chip.media) && Inv(c, chip.media, owed) && Refines(c, chip.media, p)
    requires !p.Live(digest) && !chip.off && chip.cutAt == None && |items| <= U16_SPAN
    ensures Undisturbed(c, chip, owed, digest, items, 0, p)
  {
    hide Inv, Refines, ChipAt, OwedAt;
    RunStarts(c, chip, owed, Stores(digest, items));
  }

  lemma {:induction false} UndisturbedAll(c: Config, chip: Chip, owed: Owed, p: Plain, digest: u64, items: seq<bytes>, k: nat) returns (q: Plain)
    requires Inv(c, chip.media, owed) && Refines(c, chip.media, p) && OpensSafely(c, chip.media)
    requires !p.Live(digest) && !chip.off && chip.cutAt == None && k <= |items| <= U16_SPAN
    requires Taken(items) <= c.Size() && forall i :: 0 <= i < |items| ==> |items[i]| <= ITEM_MAX
    ensures c.Fits(chip.media) && Undisturbed(c, chip, owed, digest, items, k, q)
    decreases k
  {
    hide Inv, Refines, OpensSafely, Step, Taken, Undisturbed;
    InvFits(c, chip.media, owed);
    if k == 0 {
      q := p;
      UndisturbedStart(c, chip, owed, p, digest, items);
    } else {
      var before := UndisturbedAll(c, chip, owed, p, digest, items, k - 1);
      TakenGrows(items, k);
      q := UndisturbedStep(c, chip, owed, digest, items, k - 1, before);
    }
  }

  /** Undisturbed, a fresh digest takes all items that fit one area together:
      every store answers Ok, and the run is disciplined. */
  lemma AllStored(c: Config, chip: Chip, owed: Owed, p: Plain, digest: u64, items: seq<bytes>)
    requires Inv(c, chip.media, owed) && Refines(c, chip.media, p) && OpensSafely(c, chip.media)
    requires !p.Live(digest) && !chip.off && chip.cutAt == None && |items| <= U16_SPAN
    requires Taken(items) <= c.Size() && forall i :: 0 <= i < |items| ==> |items[i]| <= ITEM_MAX
    ensures c.Fits(chip.media) && Disciplined(c, chip, owed, Stores(digest, items))
    ensures forall i :: 0 <= i < |items| ==> AnswerAt(c, chip, Stores(digest, items), i) == Stored(Ok(()))
  {
    hide Inv, Refines, OpensSafely, Step, Taken, Admits;
    var q := UndisturbedAll(c, chip, owed, p, digest, items, |items|);
    var events := Stores(digest, items);
    forall k | 0 <= k < |events| && events[k].StoreItem?
      ensures Admits(c, ChipAt(c, chip, events, k).media, OwedAt(c, chip, owed, events, k), events[k].digest, events[k].index, events[k].item)
    {
      assert AdmitsAt(c, chip, owed, events, k);
    }
  }
}
