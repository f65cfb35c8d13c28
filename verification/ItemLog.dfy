/** The two-area item log: items appended under a digest, the older digest's
    area erased when a new digest opens. Values and the functions the in-place
    log is proved against. */
module ItemLog {
  import opened Words
  import opened Flash

  const ITEM_MAX := 480
  const MAGIC: u32 := 0x4553_494C
  const HEADER_BYTES := 20
  const ITEM_HEADER_BYTES := 8
  const ALL_ONES: u32 := 0xFFFF_FFFF
  const FNV32_OFFSET: u32 := 0x811c_9dc5

  datatype Fault = Missing | Full | Media(error: RamError)

  /** The erase blocks of one area, and the hash step (FNV-1a-32 on the device). */
  datatype Config = Config(blocks: nat, step: (u32, u8) -> u32) {
    predicate Fits(media: bytes) {
      blocks > 0 && 2 * Size() <= |media|
    }

    function Size(): nat {
      blocks * ERASE_BLOCK
    }

    function Base(which: nat): nat {
      if which == 0 then 0 else Size()
    }

    function End(which: nat): nat {
      Base(which) + Size()
    }

    function First(which: nat): nat {
      Base(which) + HEADER_BYTES
    }
  }

  datatype Area = Area(generation: u32, digest: u64)

  /** One slot as read: where, which item, its bytes, its stored check. */
  datatype Slot = Slot(at: nat, index: u16, item: bytes, check: u32)

  function Pad(len: nat): (r: nat)
    ensures len <= r < len + 4 && r % 4 == 0
  {
    (len + 3) / 4 * 4
  }

  function Padded(item: bytes): (r: bytes)
    ensures |r| == Pad(|item|) && r[..|item|] == item
  {
    item + seq(Pad(|item|) - |item|, _ => BLANK)
  }

  function Covered(generation: u32, digest: u64): bytes {
    Le(MAGIC, 4) + Le(generation, 4) + Le(digest, 8)
  }

  function HeaderOf(c: Config, generation: u32, digest: u64): (r: bytes)
    ensures |r| == HEADER_BYTES
  {
    var covered := Covered(generation, digest);
    covered + Le(Fold(c.step, FNV32_OFFSET, covered), 4)
  }

  function ItemCheck(c: Config, digest: u64, index: u16, item: bytes): u32 {
    Fold(c.step, Fold(c.step, FNV32_OFFSET, Le(digest, 8) + Le(index, 2)), item)
  }

  function SlotHead(index: u16, len: u16, check: u32): (r: bytes)
    ensures |r| == ITEM_HEADER_BYTES
  {
    Le(index, 2) + Le(len, 2) + Le(check, 4)
  }

  function ReadHeader(c: Config, media: bytes, which: nat): Option<Area>
    requires which < 2 && c.Fits(media)
  {
    var b := media[c.Base(which)..c.Base(which) + HEADER_BYTES];
    if Word32(b[..4]) != MAGIC || Word32(b[16..]) != Fold(c.step, FNV32_OFFSET, b[..16]) then None
    else Some(Area(Word32(b[4..8]), Word64(b[8..16])))
  }

  function Find(c: Config, media: bytes, digest: u64): (r: Option<nat>)
    requires c.Fits(media)
    ensures r.Some? ==> r.value < 2 && ReadHeader(c, media, r.value).Some? && ReadHeader(c, media, r.value).value.digest == digest
  {
    var a, b := ReadHeader(c, media, 0), ReadHeader(c, media, 1);
    if a.Some? && a.value.digest == digest then Some(0)
    else if b.Some? && b.value.digest == digest then Some(1)
    else None
  }

  predicate ErasedHead(media: bytes, at: nat)
    requires at + ITEM_HEADER_BYTES <= |media|
  {
    Word32(media[at..at + 4]) == ALL_ONES
  }

  function LengthAt(media: bytes, at: nat): u16
    requires at + ITEM_HEADER_BYTES <= |media|
  {
    Word16(media[at + 2..at + 4])
  }

  /** Where the slot after the one at `at` starts, by the length it claims. */
  function NextAt(media: bytes, at: nat): (r: nat)
    requires at + ITEM_HEADER_BYTES <= |media|
    ensures r >= at + ITEM_HEADER_BYTES + LengthAt(media, at)
  {
    at + ITEM_HEADER_BYTES + Pad(LengthAt(media, at))
  }

  predicate Damaged(media: bytes, at: nat, end: nat)
    requires at + ITEM_HEADER_BYTES <= |media|
  {
    LengthAt(media, at) > ITEM_MAX || NextAt(media, at) > end
  }

  function SlotAt(media: bytes, at: nat): Slot
    requires at + ITEM_HEADER_BYTES <= |media| && NextAt(media, at) <= |media|
  {
    Slot(at, Word16(media[at..at + 2]), media[at + ITEM_HEADER_BYTES..][..LengthAt(media, at)], Word32(media[at + 4..at + 8]))
  }

  /** The slots from `at` up to `end`, and where the next one would go: none
      when the area is out of room or a damaged length ends it. */
  function Parse(media: bytes, at: nat, end: nat): (r: (seq<Slot>, Option<nat>))
    requires end <= |media|
    ensures r.1.Some? ==> at <= r.1.value && r.1.value + ITEM_HEADER_BYTES <= end
    decreases end - at
  {
    if at + ITEM_HEADER_BYTES > end then ([], None)
    else if ErasedHead(media, at) then ([], Some(at))
    else if Damaged(media, at, end) then ([], None)
    else
      var (rest, stop) := Parse(media, NextAt(media, at), end);
      ([SlotAt(media, at)] + rest, stop)
  }

  function AreaParse(c: Config, media: bytes, which: nat): (r: (seq<Slot>, Option<nat>))
    requires which < 2 && c.Fits(media)
    ensures r.1.Some? ==> c.First(which) <= r.1.value && r.1.value + ITEM_HEADER_BYTES <= c.End(which)
  {
    Parse(media, c.First(which), c.End(which))
  }

  /** The bytes one item takes: its head and its padded body. */
  function Cost(item: bytes): nat {
    ITEM_HEADER_BYTES + Pad(|item|)
  }

  /** The bytes an area has used: its header and every slot. */
  function Used(slots: seq<Slot>): nat {
    if slots == [] then HEADER_BYTES else Used(slots[..|slots| - 1]) + Cost(slots[|slots| - 1].item)
  }

  predicate Whole(c: Config, digest: u64, slot: Slot) {
    slot.check == ItemCheck(c, digest, slot.index, slot.item)
  }

  /** The last whole copy of `index` among `slots`. */
  function LastWhole(c: Config, digest: u64, slots: seq<Slot>, index: u16): Option<Slot> {
    if slots == [] then None
    else
      var last := slots[|slots| - 1];
      if last.index == index && Whole(c, digest, last) then Some(last)
      else LastWhole(c, digest, slots[..|slots| - 1], index)
  }

  /** What the log holds under (digest, index). */
  function Lookup(c: Config, media: bytes, digest: u64, index: u16): Option<bytes>
    requires c.Fits(media)
  {
    match Find(c, media, digest)
    case None => None
    case Some(which) =>
      match LastWhole(c, digest, AreaParse(c, media, which).0, index)
      case None => None
      case Some(slot) => Some(slot.item)
  }

  function Load(c: Config, media: bytes, digest: u64, index: u16, room: nat): Result<bytes, Fault>
    requires c.Fits(media)
  {
    match Lookup(c, media, digest, index)
    case None => Err(Missing)
    case Some(item) => if |item| > room then Err(Full) else Ok(item)
  }

  /** The area a new digest takes and the generation it gets: the headerless
      one, else the one holding the older generation. */
  function NextArea(c: Config, media: bytes): (r: (nat, u32))
    requires c.Fits(media)
    ensures r.0 < 2
  {
    match (ReadHeader(c, media, 0), ReadHeader(c, media, 1))
    case (None, None) => (0, 1)
    case (None, Some(held)) => (0, (held.generation + 1) % U32_SPAN)
    case (Some(held), None) => (1, (held.generation + 1) % U32_SPAN)
    case (Some(first), Some(second)) =>
      if first.generation <= second.generation then (0, (second.generation + 1) % U32_SPAN)
      else (1, (first.generation + 1) % U32_SPAN)
  }

  function Open(c: Config, chip: Chip, digest: u64): (r: (Result<nat, Fault>, Chip))
    requires c.Fits(chip.media)
    ensures |r.1.media| == |chip.media|
    ensures r.0.Ok? ==> r.0.value == NextArea(c, chip.media).0
  {
    var (which, generation) := NextArea(c, chip.media);
    var (erased, blank) := Erase(chip, c.Base(which), c.End(which));
    if erased.Err? then (Err(Media(erased.error)), blank)
    else
      var (written, headed) := Write(blank, c.Base(which), HeaderOf(c, generation, digest));
      if written.Err? then (Err(Media(written.error)), headed) else (Ok(which), headed)
  }

  /** Body first, then the header that makes it visible. */
  function Append(c: Config, chip: Chip, which: nat, digest: u64, index: u16, item: bytes): (r: (Result<(), Fault>, Chip))
    requires which < 2 && c.Fits(chip.media) && |item| <= ITEM_MAX
    ensures |r.1.media| == |chip.media|
  {
    match AreaParse(c, chip.media, which).1
    case None => (Err(Full), chip)
    case Some(at) =>
      if at + ITEM_HEADER_BYTES + Pad(|item|) > c.End(which) then (Err(Full), chip)
      else
        var (body, filled) := Write(chip, at + ITEM_HEADER_BYTES, Padded(item));
        if body.Err? then (Err(Media(body.error)), filled)
        else
          var (head, done) := Write(filled, at, SlotHead(index, |item|, ItemCheck(c, digest, index, item)));
          if head.Err? then (Err(Media(head.error)), done) else (Ok(()), done)
  }

  function Store(c: Config, chip: Chip, digest: u64, index: u16, item: bytes): (r: (Result<(), Fault>, Chip))
    requires c.Fits(chip.media)
    ensures |r.1.media| == |chip.media|
  {
    if |item| > ITEM_MAX then (Err(Full), chip)
    else
      match Find(c, chip.media, digest)
      case Some(which) => Append(c, chip, which, digest, index, item)
      case None =>
        var (area, after) := Open(c, chip, digest);
        if area.Err? then (Err(area.error), after)
        else Append(c, after, area.value, digest, index, item)
  }
}
