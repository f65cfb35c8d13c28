/** The item log refines a plain map of items under at most two live digests,
    at every power cut. */
module ItemLogRefinement {
  import opened Words
  import opened Flash
  import opened ItemLog
  import opened ItemLogLayout

  /** One area with a header that checks out; `room` is the bytes it can still
      take. */
  datatype Held = Held(header: Area, slots: seq<Slot>, room: int)

  /** What the slots leave of an area; nothing when a damaged length ended the
      walk with room for more. */
  function RoomLeft(c: Config, slots: seq<Slot>, stop: Option<nat>): int {
    var left := c.Size() - Used(slots);
    if stop.None? && left >= ITEM_HEADER_BYTES then 0 else left
  }

  /** What the two areas hold. */
  datatype Contents = Contents(a: Option<Held>, b: Option<Held>) {
    function At(which: nat): Option<Held> {
      if which == 0 then a else b
    }

    function With(which: nat, held: Option<Held>): Contents {
      if which == 0 then this.(a := held) else this.(b := held)
    }

    /** No digest is held by both areas. */
    predicate Distinct() {
      a.Some? && b.Some? ==> a.value.header.digest != b.value.header.digest
    }

    /** The digest of the newer generation held. */
    function Newest(): Option<u64> {
      var newer := At(1 - Older());
      if newer.Some? then Some(newer.value.header.digest) else None
    }

    /** The other digest held, when two are. */
    function Previous(): Option<u64> {
      var older := At(Older());
      if older.Some? && At(1 - Older()).Some? then Some(older.value.header.digest) else None
    }

    function Find(digest: u64): Option<nat> {
      if a.Some? && a.value.header.digest == digest then Some(0)
      else if b.Some? && b.value.header.digest == digest then Some(1)
      else None
    }

    function Room(digest: u64): Option<int> {
      match Find(digest) case None => None case Some(which) => Some(At(which).value.room)
    }

    function Lookup(c: Config, digest: u64, index: u16): Option<bytes> {
      match Find(digest)
      case None => None
      case Some(which) =>
        match LastWhole(c, digest, At(which).value.slots, index)
        case None => None
        case Some(slot) => Some(slot.item)
    }

    /** The area the next digest takes: headerless, else the older. */
    function Older(): nat {
      match (a, b)
      case (None, _) => 0
      case (Some(_), None) => 1
      case (Some(x), Some(y)) => if x.header.generation <= y.header.generation then 0 else 1
    }
  }

  ghost function HeldAt(c: Config, media: bytes, which: nat): Option<Held>
    requires which < 2 && c.Fits(media)
  {
    match ReadHeader(c, media, which)
    case None => None
    case Some(header) =>
      var (slots, stop) := AreaParse(c, media, which);
      Some(Held(header, slots, RoomLeft(c, slots, stop)))
  }

  ghost function ContentsOf(c: Config, media: bytes): Contents
    requires c.Fits(media)
  {
    Contents(HeldAt(c, media, 0), HeldAt(c, media, 1))
  }

  /** The log a caller sees: at most two live digests, what each
      (digest, index) holds, and the room left under each digest, of `size`
      bytes in all. */
  datatype Plain = Plain(previous: Option<u64>, newest: Option<u64>, items: map<(u64, u16), bytes>, size: nat, room: map<u64, int>) {
    predicate Live(digest: u64) {
      previous == Some(digest) || newest == Some(digest)
    }

    function Get(digest: u64, index: u16): Option<bytes> {
      if (digest, index) in items then Some(items[(digest, index)]) else None
    }

    function Room(digest: u64): Option<int> {
      if Live(digest) && digest in room then Some(room[digest]) else None
    }

    /** Without the older of two live digests. */
    function Retired(): Plain {
      match previous
      case None => this
      case Some(gone) => this.(previous := None, items := map k | k in items && k.0 != gone :: items[k])
    }

    /** With `digest` live: already so, or the older of two retired for it. */
    function Opened(digest: u64): Plain {
      if Live(digest) then this
      else Retired().(previous := newest, newest := Some(digest), room := room[digest := size - HEADER_BYTES])
    }

    /** With the room an item takes gone from `digest`. */
    function Spent(digest: u64, item: bytes): Plain {
      var p := Opened(digest);
      if digest in p.room then p.(room := p.room[digest := p.room[digest] - Cost(item)]) else p
    }

    function Put(digest: u64, index: u16, item: bytes): Plain {
      var p := Spent(digest, item);
      p.(items := p.items[(digest, index) := item])
    }

    /** No store under `digest` can take the item: it is too long, or the digest
        is live and its area has not the room. */
    predicate Refuses(digest: u64, item: bytes) {
      |item| > ITEM_MAX || (Live(digest) && digest in room && room[digest] < ITEM_HEADER_BYTES + Pad(|item|))
    }
  }

  /** Whether power is off, and how many mutations from now an armed cut fires. */
  datatype Power = Power(off: bool, cut: Option<nat>) {
    predicate Lasts(mutations: nat) {
      !off && (cut.Some? ==> cut.value > mutations)
    }
  }

  function PowerOf(chip: Chip): Power {
    Power(chip.off, match chip.cutAt case Some((at, _)) => (if at > chip.mutations then Some(at - chip.mutations) else None) case None => None)
  }

  /** What a store answers on a plain log, and what it leaves. It is refused
      exactly when the item cannot be taken; otherwise it is done exactly when
      power lasts for its two writes, and an erase and a write more when it
      opens its digest. A store cut short is wholly absent or wholly present,
      or has only used up its room; it may cost the older digest, and only when
      a new one was being opened; and without power it leaves everything. */
  ghost predicate StoreAnswers(p: Plain, digest: u64, index: u16, item: bytes, power: Power, r: Result<(), Fault>, q: Plain) {
    if p.Refuses(digest, item) then r == Err(Full) && q == p
    else if power.Lasts(if p.Live(digest) then 2 else 4) then r == Ok(()) && q == p.Put(digest, index, item)
    else
      && r == Err(Media(PowerCut))
      && (power.off ==> q == p)
      && (|| q == p
          || (!p.Live(digest) && q == p.Retired())
          || q == p.Opened(digest)
          || q == p.Spent(digest, item)
          || q == p.Put(digest, index, item))
  }

  ghost predicate Agrees(c: Config, k: Contents, p: Plain) {
    && p.previous == k.Previous() && p.newest == k.Newest()
    && (forall key :: key in p.items ==> p.Live(key.0))
    && (forall digest: u64, index: u16 :: k.Lookup(c, digest, index) == p.Get(digest, index))
    && p.size == c.Size() && forall digest: u64 :: k.Room(digest) == p.Room(digest)
  }

  /** The media stands for the plain log `p`. */
  ghost predicate Refines(c: Config, media: bytes, p: Plain) {
    && c.Fits(media)
    && p.previous == ContentsOf(c, media).Previous() && p.newest == ContentsOf(c, media).Newest()
    && (forall key :: key in p.items ==> p.Live(key.0))
    && (forall digest: u64, index: u16 :: Lookup(c, media, digest, index) == p.Get(digest, index))
    && p.size == c.Size() && forall digest: u64 :: ContentsOf(c, media).Room(digest) == p.Room(digest)
  }

  lemma RefinesByContents(c: Config, media: bytes, p: Plain)
    requires c.Fits(media)
    ensures Refines(c, media, p) <==> Agrees(c, ContentsOf(c, media), p)
  {
    var k := ContentsOf(c, media);
    assert forall digest: u64, index: u16 :: Lookup(c, media, digest, index) == k.Lookup(c, digest, index);
  }

  /** A change inside one area leaves the other's contents alone. */
  lemma ContentsReplaced(c: Config, before: bytes, after: bytes, which: nat)
    requires which < 2 && c.Fits(before) && SameOutside(before, after, c.Base(which), c.End(which))
    ensures c.Fits(after)
    ensures ContentsOf(c, after) == ContentsOf(c, before).With(which, HeldAt(c, after, which))
  {
    hide Parse, ReadHeader, Residue;
    AreaFrame(c, before, after, 1 - which);
  }

  // Plain consequences of each change of contents.

  lemma AppendLookups(c: Config, k: Contents, p: Plain, which: nat, slot: Slot, room: int)
    requires Agrees(c, k, p) && k.Distinct() && which < 2 && k.At(which).Some?
    ensures var held := k.At(which).value;
            var digest := held.header.digest;
            var l := k.With(which, Some(held.(slots := held.slots + [slot], room := room)));
            var q := if Whole(c, digest, slot) then p.Put(digest, slot.index, slot.item) else p.Spent(digest, slot.item);
            && q.previous == l.Previous() && q.newest == l.Newest() && q.size == p.size && (forall key :: key in q.items ==> q.Live(key.0))
            && forall d: u64, index: u16 :: l.Lookup(c, d, index) == q.Get(d, index)
  {
    var held := k.At(which).value;
    var d := held.header.digest;
    var now := held.(slots := held.slots + [slot], room := room);
    var l := k.With(which, Some(now));
    assert p.Live(d);
    assert now.slots[..|now.slots| - 1] == held.slots;
    var q := if Whole(c, d, slot) then p.Put(d, slot.index, slot.item) else p.Spent(d, slot.item);
    forall digest: u64, index: u16 ensures l.Lookup(c, digest, index) == q.Get(digest, index) {
      assert k.Lookup(c, digest, index) == p.Get(digest, index);
    }
  }

  lemma AppendRooms(c: Config, k: Contents, p: Plain, which: nat, slot: Slot)
    requires Agrees(c, k, p) && k.Distinct() && which < 2 && k.At(which).Some?
    ensures var held := k.At(which).value;
            var digest := held.header.digest;
            var l := k.With(which, Some(held.(slots := held.slots + [slot], room := held.room - Cost(slot.item))));
            var q := if Whole(c, digest, slot) then p.Put(digest, slot.index, slot.item) else p.Spent(digest, slot.item);
            forall d: u64 :: l.Room(d) == q.Room(d)
  {
    hide LastWhole, Whole, Cost;
    var held := k.At(which).value;
    var digest := held.header.digest;
    assert p.Live(digest);
    assert k.Room(digest) == p.Room(digest);
    var l := k.With(which, Some(held.(slots := held.slots + [slot], room := held.room - Cost(slot.item))));
    forall d: u64 ensures l.Room(d) == p.Spent(digest, slot.item).Room(d) {
      assert k.Room(d) == p.Room(d);
    }
  }

  lemma AppendAgrees(c: Config, k: Contents, p: Plain, which: nat, slot: Slot)
    requires Agrees(c, k, p) && k.Distinct() && which < 2 && k.At(which).Some?
    ensures var held := k.At(which).value;
            var digest := held.header.digest;
            Agrees(c, k.With(which, Some(held.(slots := held.slots + [slot], room := held.room - Cost(slot.item)))),
                   if Whole(c, digest, slot) then p.Put(digest, slot.index, slot.item) else p.Spent(digest, slot.item))
  {
    hide LastWhole, Whole, Cost, Contents.Lookup, Contents.Room, Plain.Put, Plain.Spent;
    AppendLookups(c, k, p, which, slot, k.At(which).value.room - Cost(slot.item));
    AppendRooms(c, k, p, which, slot);
  }

  lemma RetireAgrees(c: Config, k: Contents, p: Plain)
    requires Agrees(c, k, p) && k.Distinct()
    ensures Agrees(c, k.With(k.Older(), None), p.Retired())
  {
    var l := k.With(k.Older(), None);
    var q := p.Retired();
    forall digest: u64 ensures l.Room(digest) == q.Room(digest) {
      assert k.Room(digest) == p.Room(digest);
    }
    forall digest: u64, index: u16 ensures l.Lookup(c, digest, index) == q.Get(digest, index) {
      assert k.Lookup(c, digest, index) == p.Get(digest, index);
    }
  }

  /** Opening over the older area, at a generation past the other's. */
  lemma OpenAgrees(c: Config, k: Contents, p: Plain, digest: u64, generation: u32)
    requires Agrees(c, k, p) && k.Distinct() && k.Find(digest) == None
    requires k.At(1 - k.Older()).Some? ==> k.At(1 - k.Older()).value.header.generation < generation
    ensures Agrees(c, k.With(k.Older(), Some(Held(Area(generation, digest), [], c.Size() - HEADER_BYTES))), p.Opened(digest))
  {
    RetireAgrees(c, k, p);
    var l := k.With(k.Older(), Some(Held(Area(generation, digest), [], c.Size() - HEADER_BYTES)));
    var q := p.Opened(digest);
    assert !p.Live(digest);
    forall d: u64 ensures l.Room(d) == q.Room(d) {
      assert k.With(k.Older(), None).Room(d) == p.Retired().Room(d);
    }
    forall d: u64, index: u16 ensures l.Lookup(c, d, index) == q.Get(d, index) {
      assert k.With(k.Older(), None).Lookup(c, d, index) == p.Retired().Get(d, index);
    }
  }

  // The invariant, and one store.

  /** The store each digest is still owed: cut short, not yet redelivered. */
  type Owed = map<u64, (u16, bytes)>

  ghost function OwedBody(owed: Owed, digest: u64): bytes {
    if digest in owed then Padded(owed[digest].1) else []
  }

  ghost predicate AreaInv(c: Config, media: bytes, which: nat, owed: Owed)
    requires which < 2 && c.Fits(media)
  {
    match ReadHeader(c, media, which)
    case None => true
    case Some(header) => AreaIs(c, media, which, header, AreaParse(c, media, which).0, OwedBody(owed, header.digest))
  }

  ghost predicate Inv(c: Config, media: bytes, owed: Owed) {
    c.Fits(media) && AreaInv(c, media, 0, owed) && AreaInv(c, media, 1, owed) && ContentsOf(c, media).Distinct()
  }

  lemma InvFits(c: Config, media: bytes, owed: Owed)
    requires Inv(c, media, owed)
    ensures c.Fits(media)
  {
    hide AreaInv, ContentsOf;
  }

  /** The newest generation on media, zero when there is none. */
  function NewestGeneration(c: Config, media: bytes): u32
    requires c.Fits(media)
  {
    match (ReadHeader(c, media, 0), ReadHeader(c, media, 1))
    case (None, None) => 0
    case (None, Some(y)) => y.generation
    case (Some(x), None) => x.generation
    case (Some(x), Some(y)) => if x.generation <= y.generation then y.generation else x.generation
  }

  /** Opening now is safe: the generation does not wrap, and its header torn
      halfway does not pass for a header. */
  predicate OpensSafely(c: Config, media: bytes)
    requires c.Fits(media)
  {
    NewestGeneration(c, media) + 1 < U32_SPAN && TornHeaderFails(c, NewestGeneration(c, media) + 1)
  }

  /** What a store needs: into a held digest, that any cut store owed to it is
      this very one; into a new digest, that opening is safe. */
  predicate Admits(c: Config, media: bytes, owed: Owed, digest: u64, index: u16, item: bytes)
    requires c.Fits(media)
  {
    if Find(c, media, digest).Some? then digest in owed ==> owed[digest] == (index, item)
    else |item| <= ITEM_MAX ==> OpensSafely(c, media)
  }

  function OwedAfter(owed: Owed, digest: u64, index: u16, item: bytes, r: Result<(), Fault>): Owed {
    match r
    case Ok(_) => owed - {digest}
    case Err(Media(_)) => owed[digest := (index, item)]
    case Err(_) => owed
  }

  lemma ResidueOwed(c: Config, media: bytes, which: nat, header: Area, slots: seq<Slot>, body: bytes, wider: bytes)
    requires AreaIs(c, media, which, header, slots, body) && (body == [] || body == wider)
    ensures AreaIs(c, media, which, header, slots, wider)
  {
    var stop := AreaParse(c, media, which).1;
    if body == [] && stop.Some? {
      ResidueWidens(media, stop.value, c.End(which), wider);
    }
  }

  /** One area rewritten under the same or a fresh header keeps the invariant. */
  lemma AreaRewritten(c: Config, before: bytes, after: bytes, which: nat, header: Area, slots: seq<Slot>, left: bytes, owed: Owed, owed': Owed)
    requires which < 2 && Inv(c, before, owed) && SameOutside(before, after, c.Base(which), c.End(which))
    requires AreaIs(c, after, which, header, slots, left) && (left == [] || left == OwedBody(owed', header.digest))
    requires ReadHeader(c, before, 1 - which).Some? ==>
               var d := ReadHeader(c, before, 1 - which).value.digest;
               d != header.digest && OwedBody(owed, d) == OwedBody(owed', d)
    ensures Inv(c, after, owed')
    ensures ContentsOf(c, after) == ContentsOf(c, before).With(which, Some(Held(header, slots, RoomLeft(c, slots, AreaParse(c, after, which).1))))
  {
    ContentsReplaced(c, before, after, which);
    ResidueOwed(c, after, which, header, slots, left, OwedBody(owed', header.digest));
    OtherAreaInv(c, before, after, 1 - which, which, owed, owed');
  }

  lemma OtherAreaInv(c: Config, before: bytes, after: bytes, other: nat, which: nat, owed: Owed, owed': Owed)
    requires which < 2 && other == 1 - which && c.Fits(before) && AreaInv(c, before, other, owed)
    requires SameOutside(before, after, c.Base(which), c.End(which))
    requires ReadHeader(c, before, other).Some? ==>
               var d := ReadHeader(c, before, other).value.digest; OwedBody(owed, d) == OwedBody(owed', d)
    ensures c.Fits(after) && AreaInv(c, after, other, owed')
  {
    AreaFrame(c, before, after, other);
  }

  /** An area left headerless keeps the invariant. */
  lemma AreaDropped(c: Config, before: bytes, after: bytes, which: nat, owed: Owed, owed': Owed)
    requires which < 2 && Inv(c, before, owed) && SameOutside(before, after, c.Base(which), c.End(which))
    requires ReadHeader(c, after, which) == None
    requires ReadHeader(c, before, 1 - which).Some? ==>
               var d := ReadHeader(c, before, 1 - which).value.digest; OwedBody(owed, d) == OwedBody(owed', d)
    ensures Inv(c, after, owed')
    ensures ContentsOf(c, after) == ContentsOf(c, before).With(which, None)
  {
    ContentsReplaced(c, before, after, which);
    OtherAreaInv(c, before, after, 1 - which, which, owed, owed');
  }

  /** What an append may answer on a plain log. */
  ghost predicate AppendAnswers(p: Plain, digest: u64, index: u16, item: bytes, r: Result<(), Fault>, q: Plain) {
    match r
    case Ok(_) => q == p.Put(digest, index, item)
    case Err(Full) => q == p
    case Err(Missing) => false
    case Err(Media(_)) => q == p || q == p.Spent(digest, item) || q == p.Put(digest, index, item)
  }

  /** The slots grown by one took exactly the item's room. */
  lemma RoomTaken(c: Config, which: nat, slots: seq<Slot>, stop: Option<nat>, now: seq<Slot>, after: Option<nat>, item: bytes)
    requires which < 2 && stop.Some? && stop.value == c.Base(which) + Used(slots) && after == NextFree(c, which, stop.value, item)
    requires |now| == |slots| + 1 && now[..|slots|] == slots && now[|slots|].item == item
    ensures RoomLeft(c, now, after) == RoomLeft(c, slots, stop) - Cost(item)
  {
    hide Pad;
  }

  lemma AppendedPlain(c: Config, k: Contents, p: Plain, which: nat, r: Result<(), Fault>, stop: Option<nat>, now: seq<Slot>, left: bytes, stored: u32, digest: u64, index: u16, item: bytes)
    returns (q: Plain)
    requires Agrees(c, k, p) && k.Distinct() && which < 2 && k.At(which).Some? && k.At(which).value.header.digest == digest
    requires AppendAnswer(r, stop, k.At(which).value.slots, now, left, stored, index, item, ItemCheck(c, digest, index, item))
    ensures AppendAnswers(p, digest, index, item, r, q)
    ensures var room := k.At(which).value.room;
            Agrees(c, k.With(which, Some(k.At(which).value.(slots := now,
              room := if now == k.At(which).value.slots then room else room - Cost(item)))), q)
  {
    var held := k.At(which).value;
    if now == held.slots {
      assert k.With(which, Some(held.(slots := now, room := held.room))) == k;
      q := p;
    } else {
      var slot := Slot(stop.value, index, item, stored);
      AppendAgrees(c, k, p, which, slot);
      q := if Whole(c, digest, slot) then p.Put(digest, index, item) else p.Spent(digest, item);
    }
  }

  /** One area's slots changed as an append may change them. */
  ghost predicate Appended(c: Config, before: bytes, after: bytes, which: nat, r: Result<(), Fault>, now: seq<Slot>, left: bytes, stored: u32, digest: u64, index: u16, item: bytes)
    requires which < 2 && c.Fits(before)
  {
    var held, stop := HeldAt(c, before, which), AreaParse(c, before, which).1;
    && held.Some? && held.value.header.digest == digest
    && SameOutside(before, after, c.Base(which), c.End(which))
    && AreaIs(c, after, which, held.value.header, now, left)
    && AppendAnswer(r, stop, held.value.slots, now, left, stored, index, item, ItemCheck(c, digest, index, item))
    && AreaParse(c, after, which).1 == if stop.None? || now == held.value.slots then stop else NextFree(c, which, stop.value, item)
  }

  /** What the slots of an area leave of it. */
  lemma RoomNow(c: Config, before: bytes, after: bytes, which: nat, r: Result<(), Fault>, now: seq<Slot>, left: bytes, stored: u32, digest: u64, index: u16, item: bytes)
    requires which < 2 && c.Fits(before) && Appended(c, before, after, which, r, now, left, stored, digest, index, item)
    ensures var held := HeldAt(c, before, which).value;
            RoomLeft(c, now, AreaParse(c, after, which).1) == if now == held.slots then held.room else held.room - Cost(item)
  {
    hide Parse, ReadHeader, Residue, ItemCheck, Pad;
    var (slots, stop) := AreaParse(c, before, which);
    ParseUsed(before, c.First(which), c.End(which));
    if now != slots {
      assert now[..|slots|] == slots;
      RoomTaken(c, which, slots, stop, now, AreaParse(c, after, which).1, item);
    }
  }

  lemma AppendedContents(c: Config, before: bytes, after: bytes, owed: Owed, which: nat, r: Result<(), Fault>, now: seq<Slot>, left: bytes, stored: u32, digest: u64, index: u16, item: bytes)
    requires Inv(c, before, owed) && which < 2 && Appended(c, before, after, which, r, now, left, stored, digest, index, item)
    requires r != Err(Full)
    ensures Inv(c, after, OwedAfter(owed, digest, index, item, r))
    ensures var held := HeldAt(c, before, which).value;
            ContentsOf(c, after) == ContentsOf(c, before).With(which, Some(held.(slots := now, room := if now == held.slots then held.room else held.room - Cost(item))))
  {
    hide Parse, ReadHeader, Residue, LastWhole, ItemCheck, Padded, RoomLeft, Pad;
    var held := HeldAt(c, before, which).value;
    RoomNow(c, before, after, which, r, now, left, stored, digest, index, item);
    AreaRewritten(c, before, after, which, held.header, now, left, owed, OwedAfter(owed, digest, index, item, r));
  }

  lemma AppendedRefines(c: Config, before: bytes, after: bytes, owed: Owed, p: Plain, which: nat, r: Result<(), Fault>, now: seq<Slot>, left: bytes, stored: u32, digest: u64, index: u16, item: bytes)
    returns (q: Plain)
    requires Inv(c, before, owed) && Refines(c, before, p) && which < 2
    requires Appended(c, before, after, which, r, now, left, stored, digest, index, item) && r != Err(Full)
    ensures AppendAnswers(p, digest, index, item, r, q)
    ensures Refines(c, after, q)
    ensures Inv(c, after, OwedAfter(owed, digest, index, item, r))
  {
    hide Inv, Refines, Agrees, AppendAnswers, AppendAnswer, AreaIs, Parse, HeldAt, RoomLeft, ItemCheck;
    InvFits(c, before, owed);
    InvDistinct(c, before, owed);
    RefinesByContents(c, before, p);
    AppendedContents(c, before, after, owed, which, r, now, left, stored, digest, index, item);
    q := AppendedPlain(c, ContentsOf(c, before), p, which, r, AreaParse(c, before, which).1, now, left, stored, digest, index, item);
    InvFits(c, after, OwedAfter(owed, digest, index, item, r));
    RefinesByContents(c, after, q);
  }

  lemma InvDistinct(c: Config, media: bytes, owed: Owed)
    requires Inv(c, media, owed)
    ensures ContentsOf(c, media).Distinct()
  {
    hide AreaInv, ContentsOf;
  }

  lemma FullLeaves(p: Plain, digest: u64, index: u16, item: bytes)
    ensures AppendAnswers(p, digest, index, item, Err(Full), p)
  {
  }

  /** An append into the area holding the digest. */
  lemma AppendRefines(c: Config, chip: Chip, owed: Owed, p: Plain, which: nat, body: bytes, digest: u64, index: u16, item: bytes)
    returns (q: Plain)
    requires Inv(c, chip.media, owed) && Refines(c, chip.media, p) && |item| <= ITEM_MAX
    requires which < 2 && HeldAt(c, chip.media, which).Some? && HeldAt(c, chip.media, which).value.header.digest == digest
    requires var held := HeldAt(c, chip.media, which).value; AreaIs(c, chip.media, which, held.header, held.slots, body)
    requires body == [] || body == Padded(item)
    ensures var (r, after) := Append(c, chip, which, digest, index, item);
            && AppendAnswers(p, digest, index, item, r, q)
            && Refines(c, after.media, q)
            && Inv(c, after.media, OwedAfter(owed, digest, index, item, r))
  {
    hide Inv, Refines, AppendAnswers, AppendAnswer, Parse, ReadHeader, Append, Residue, ItemCheck;
    InvFits(c, chip.media, owed);
    var held := HeldAt(c, chip.media, which).value;
    var now, left, stored := AppendCases(c, chip, which, held.header, held.slots, body, digest, index, item);
    var (r, after) := Append(c, chip, which, digest, index, item);
    if r == Err(Full) {
      q := p;
      assert AppendAnswers(p, digest, index, item, r, q) by { FullLeaves(p, digest, index, item); }
    } else {
      q := AppendedRefines(c, chip.media, after.media, owed, p, which, r, now, left, stored, digest, index, item);
    }
  }

  /** The next area freshly opened for the digest. */
  lemma OpenedFresh(c: Config, before: bytes, after: bytes, owed: Owed, p: Plain, digest: u64)
    requires Inv(c, before, owed) && Refines(c, before, p)
    requires Find(c, before, digest) == None && OpensSafely(c, before)
    requires var (which, generation) := NextArea(c, before);
             && SameOutside(before, after, c.Base(which), c.End(which))
             && AreaIs(c, after, which, Area(generation, digest), [], []) && AreaParse(c, after, which).1 == Some(c.First(which))
    ensures Refines(c, after, p.Opened(digest)) && Inv(c, after, owed - {digest})
  {
    hide Refines, Agrees, LastWhole, RoomLeft, Residue, Parse, ReadHeader, Padded, TornHeaderFails;
    var (which, generation) := NextArea(c, before);
    RefinesByContents(c, before, p);
    FreshRoom(c, which);
    AreaRewritten(c, before, after, which, Area(generation, digest), [], [], owed, owed - {digest});
    InvDistinct(c, before, owed);
    OpenAgrees(c, ContentsOf(c, before), p, digest, generation);
    RefinesByContents(c, after, p.Opened(digest));
  }

  lemma FreshRoom(c: Config, which: nat)
    ensures RoomLeft(c, [], Some(c.First(which))) == c.Size() - HEADER_BYTES
  {
  }

  /** The next area left without a header. */
  lemma OpenedDropped(c: Config, before: bytes, after: bytes, owed: Owed, p: Plain, digest: u64)
    requires Inv(c, before, owed) && Refines(c, before, p) && Find(c, before, digest) == None
    requires var which := NextArea(c, before).0;
             SameOutside(before, after, c.Base(which), c.End(which)) && ReadHeader(c, after, which) == None
    ensures Refines(c, after, p.Retired()) && Inv(c, after, owed - {digest})
  {
    hide Parse, LastWhole, ReadHeader, Residue, Padded;
    RefinesByContents(c, before, p);
    AreaDropped(c, before, after, NextArea(c, before).0, owed, owed - {digest});
    RetireAgrees(c, ContentsOf(c, before), p);
    RefinesByContents(c, after, p.Retired());
  }

  /** Nothing changed: a debt of a digest no area holds binds nothing. */
  lemma OpenedNothing(c: Config, media: bytes, owed: Owed, digest: u64)
    requires Inv(c, media, owed) && Find(c, media, digest) == None
    ensures Inv(c, media, owed - {digest})
  {
    hide Parse, ReadHeader, Residue, Padded;
  }

  /** One area changed as opening it may change it. */
  lemma OpenedRefines(c: Config, before: bytes, after: bytes, owed: Owed, p: Plain, done: bool, digest: u64) returns (q: Plain)
    requires Inv(c, before, owed) && Refines(c, before, p)
    requires Find(c, before, digest) == None && OpensSafely(c, before)
    requires var (which, generation) := NextArea(c, before);
             && SameOutside(before, after, c.Base(which), c.End(which))
             && (done ==> AreaIs(c, after, which, Area(generation, digest), [], []) && AreaParse(c, after, which).1 == Some(c.First(which)))
             && (!done ==> after == before || ReadHeader(c, after, which) == None)
    ensures Refines(c, after, q) && Inv(c, after, owed - {digest})
    ensures q == if done then p.Opened(digest) else if after == before then p else p.Retired()
  {
    hide Inv, Refines, Find, NextArea, OpensSafely, AreaIs, ReadHeader;
    if done {
      q := p.Opened(digest);
      OpenedFresh(c, before, after, owed, p, digest);
    } else if after == before {
      q := p;
      OpenedNothing(c, before, owed, digest);
    } else {
      q := p.Retired();
      OpenedDropped(c, before, after, owed, p, digest);
    }
  }

  lemma SafeNext(c: Config, media: bytes)
    requires c.Fits(media) && OpensSafely(c, media)
    ensures TornHeaderFails(c, NextArea(c, media).1)
  {
    hide ReadHeader, TornHeaderFails;
  }

  /** Opening an area for a new digest. */
  lemma OpenRefines(c: Config, chip: Chip, owed: Owed, p: Plain, digest: u64) returns (q: Plain)
    requires Inv(c, chip.media, owed) && Refines(c, chip.media, p)
    requires Find(c, chip.media, digest) == None && OpensSafely(c, chip.media)
    ensures var (r, after) := Open(c, chip, digest);
            && Refines(c, after.media, q)
            && (r.Ok? ==> q == p.Opened(digest) && AreaIs(c, after.media, r.value, Area(NextArea(c, chip.media).1, digest), [], [])
                          && AreaParse(c, after.media, r.value).1 == Some(c.First(r.value)))
            && (r.Err? ==> r.error.Media? && q == if after.media == chip.media then p else p.Retired())
            && Inv(c, after.media, owed - {digest})
  {
    hide Inv, Refines, Find, NextArea, OpensSafely, AreaIs, ReadHeader, Parse, Open, TornHeaderFails;
    InvFits(c, chip.media, owed);
    SafeNext(c, chip.media);
    OpenCases(c, chip, digest);
    var (r, after) := Open(c, chip, digest);
    q := OpenedRefines(c, chip.media, after.media, owed, p, r.Ok?, digest);
  }
}
