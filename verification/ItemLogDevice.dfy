/** The item log as the program runs it: an object over a chip it mutates. */
module ItemLogDevice {
  import opened Words
  import opened Flash
  import opened ItemLog

  class Log {
    const storage: RamNor
    const config: Config

    ghost predicate Valid()
      reads this, storage, storage.media
    {
      config.Fits(storage.media[..])
    }

    constructor (storage: RamNor, config: Config)
      requires config.Fits(storage.media[..])
      ensures this.storage == storage && this.config == config && Valid()
    {
      this.storage := storage;
      this.config := config;
    }

    /** Read cells known to be in bounds: the chip does not refuse those. */
    method ReadCells(offset: nat, len: nat) returns (b: bytes)
      requires Valid() && offset + len <= storage.media.Length
      ensures b == storage.media[..][offset..offset + len]
    {
      var read := storage.Read(offset, len);
      b := read.value;
    }

    method HeaderOfArea(which: nat) returns (r: Option<Area>)
      requires Valid() && which < 2
      ensures r == ReadHeader(config, storage.media[..], which)
    {
      var b := ReadCells(config.Base(which), HEADER_BYTES);
      var check := FoldBytes(config.step, FNV32_OFFSET, b[..16]);
      if Word32(b[..4]) != MAGIC || Word32(b[16..]) != check {
        return None;
      }
      return Some(Area(Word32(b[4..8]), Word64(b[8..16])));
    }

    method FindArea(digest: u64) returns (r: Option<nat>)
      requires Valid()
      ensures r == Find(config, storage.media[..], digest)
    {
      for which := 0 to 2
        invariant which > 0 ==> HeldElsewhere(0, digest)
        invariant which > 1 ==> HeldElsewhere(1, digest)
      {
        var held := HeaderOfArea(which);
        if held.Some? && held.value.digest == digest {
          return Some(which);
        }
      }
      return None;
    }

    /** Area `which` does not hold `digest`. */
    ghost predicate HeldElsewhere(which: nat, digest: u64)
      requires Valid() && which < 2
      reads this, storage, storage.media
    {
      var held := ReadHeader(config, storage.media[..], which);
      held.None? || held.value.digest != digest
    }

    method CheckOf(digest: u64, index: u16, item: bytes) returns (check: u32)
      ensures check == ItemCheck(config, digest, index, item)
    {
      check := FoldBytes(config.step, FNV32_OFFSET, Le(digest, 8) + Le(index, 2));
      check := FoldBytes(config.step, check, item);
    }

    /** One slot head: whether it is erased, and the index, length and check
        it spells. */
    method SlotHeadAt(at: nat) returns (erased: bool, index: u16, len: u16, check: u32)
      requires Valid() && at + ITEM_HEADER_BYTES <= storage.media.Length
      ensures erased == ErasedHead(storage.media[..], at)
      ensures len == LengthAt(storage.media[..], at)
      ensures index == Word16(storage.media[..][at..at + 2]) && check == Word32(storage.media[..][at + 4..at + 8])
    {
      var head := ReadCells(at, ITEM_HEADER_BYTES);
      HeadSlices(storage.media[..], at);
      erased := Word32(head[..4]) == ALL_ONES;
      index, len, check := Word16(head[..2]), Word16(head[2..4]), Word32(head[4..8]);
    }

    /** Walk the area's slots; answers where the next would go, and the last
        whole copy of `index` met on the way. */
    method Walk(which: nat, digest: u64, index: u16) returns (next: Option<nat>, found: Option<Slot>)
      requires Valid() && which < 2
      ensures next == AreaParse(config, storage.media[..], which).1
      ensures found == LastWhole(config, digest, AreaParse(config, storage.media[..], which).0, index)
    {
      hide Parse, LastWhole, ItemCheck, ErasedHead, LengthAt, Pad;
      ghost var media := storage.media[..];
      var end := config.End(which);
      var at := config.First(which);
      ghost var seen: seq<Slot> := [];
      found := None;
      NothingSeen(config, digest, index, Parse(media, at, end).0);
      while at + ITEM_HEADER_BYTES <= end
        invariant AreaParse(config, media, which).0 == seen + Parse(media, at, end).0
        invariant AreaParse(config, media, which).1 == Parse(media, at, end).1
        invariant found == LastWhole(config, digest, seen, index)
        decreases end - at
      {
        ParseUnfolds(media, at, end, seen);
        var erased, held, len, check := SlotHeadAt(at);
        if erased {
          return Some(at), found;
        }
        if len > ITEM_MAX || at + ITEM_HEADER_BYTES + Pad(len) > end {
          return None, found;
        }
        var body := ReadCells(at + ITEM_HEADER_BYTES, len);
        BodySlice(media, at + ITEM_HEADER_BYTES, len);
        var slot := Slot(at, held, body, check);
        var expected := CheckOf(digest, held, body);
        LastWholeSnoc(config, digest, seen, slot, index);
        if check == expected && held == index {
          found := Some(slot);
        }
        seen := seen + [slot];
        at := at + ITEM_HEADER_BYTES + Pad(len);
      }
      ParseUnfolds(media, at, end, seen);
      next := None;
    }

    lemma HeadSlices(media: bytes, at: nat)
      requires at + ITEM_HEADER_BYTES <= |media|
      ensures var head := media[at..at + ITEM_HEADER_BYTES];
              && head[..4] == media[at..at + 4] && head[..2] == media[at..at + 2]
              && head[2..4] == media[at + 2..at + 4] && head[4..8] == media[at + 4..at + 8]
    {
    }

    lemma BodySlice(media: bytes, from: nat, len: nat)
      requires from + len <= |media|
      ensures media[from..from + len] == media[from..][..len]
    {
    }

    lemma NothingSeen(c: Config, digest: u64, index: u16, rest: seq<Slot>)
      ensures [] + rest == rest
      ensures LastWhole(c, digest, [], index) == None
    {
    }

    lemma LastWholeSnoc(c: Config, digest: u64, seen: seq<Slot>, slot: Slot, index: u16)
      ensures LastWhole(c, digest, seen + [slot], index) ==
              if slot.index == index && slot.check == ItemCheck(c, digest, slot.index, slot.item) then Some(slot)
              else LastWhole(c, digest, seen, index)
    {
      assert (seen + [slot])[..|seen|] == seen;
    }

    /** One step of the parse, seen from the slots already walked. */
    lemma ParseUnfolds(media: bytes, at: nat, end: nat, seen: seq<Slot>)
      requires end <= |media|
      ensures at + ITEM_HEADER_BYTES > end ==> seen + Parse(media, at, end).0 == seen && Parse(media, at, end).1 == None
      ensures at + ITEM_HEADER_BYTES <= end && ErasedHead(media, at) ==>
                seen + Parse(media, at, end).0 == seen && Parse(media, at, end).1 == Some(at)
      ensures at + ITEM_HEADER_BYTES <= end && !ErasedHead(media, at) && Damaged(media, at, end) ==>
                seen + Parse(media, at, end).0 == seen && Parse(media, at, end).1 == None
      ensures at + ITEM_HEADER_BYTES <= end && !ErasedHead(media, at) && !Damaged(media, at, end) ==>
                var next := NextAt(media, at);
                && seen + Parse(media, at, end).0 == seen + [SlotAt(media, at)] + Parse(media, next, end).0
                && Parse(media, at, end).1 == Parse(media, next, end).1
    {
    }

    method ChooseArea() returns (which: nat, generation: u32)
      requires Valid()
      ensures (which, generation) == NextArea(config, storage.media[..])
    {
      hide ReadHeader;
      var a := HeaderOfArea(0);
      var b := HeaderOfArea(1);
      match (a, b) {
        case (None, None) => which, generation := 0, 1;
        case (None, Some(held)) => which, generation := 0, (held.generation + 1) % U32_SPAN;
        case (Some(held), None) => which, generation := 1, (held.generation + 1) % U32_SPAN;
        case (Some(first), Some(second)) =>
          if first.generation <= second.generation {
            which, generation := 0, (second.generation + 1) % U32_SPAN;
          } else {
            which, generation := 1, (first.generation + 1) % U32_SPAN;
          }
      }
    }

    method HeaderBytes(generation: u32, digest: u64) returns (header: bytes)
      ensures header == HeaderOf(config, generation, digest)
    {
      var covered := Covered(generation, digest);
      var check := FoldBytes(config.step, FNV32_OFFSET, covered);
      header := covered + Le(check, 4);
    }

    method OpenArea(digest: u64) returns (r: Result<nat, Fault>)
      requires Valid()
      modifies storage`mutations, storage`off, storage.media
      ensures Valid()
      ensures (r, storage.State()) == Open(config, old(storage.State()), digest)
    {
      hide NextArea, HeaderOf, Erase, Write, ReadHeader;
      var which, generation := ChooseArea();
      var header := HeaderBytes(generation, digest);
      var erased := storage.EraseBlocks(config.Base(which), config.End(which));
      if erased.Err? {
        return Err(Media(erased.error));
      }
      var written := storage.Program(config.Base(which), header);
      return if written.Err? then Err(Media(written.error)) else Ok(which);
    }

    method AppendItem(which: nat, digest: u64, index: u16, item: bytes) returns (r: Result<(), Fault>)
      requires Valid() && which < 2 && |item| <= ITEM_MAX
      modifies storage`mutations, storage`off, storage.media
      ensures Valid()
      ensures (r, storage.State()) == Append(config, old(storage.State()), which, digest, index, item)
    {
      hide Parse, LastWhole, ItemCheck, SlotHead, Padded, Write;
      var next, _ := Walk(which, digest, index);
      if next.None? || next.value + ITEM_HEADER_BYTES + Pad(|item|) > config.End(which) {
        return Err(Full);
      }
      var at := next.value;
      var check := CheckOf(digest, index, item);
      var body := storage.Program(at + ITEM_HEADER_BYTES, Padded(item));
      if body.Err? {
        return Err(Media(body.error));
      }
      var head := storage.Program(at, SlotHead(index, |item|, check));
      return if head.Err? then Err(Media(head.error)) else Ok(());
    }

    method StoreItem(digest: u64, index: u16, item: bytes) returns (r: Result<(), Fault>)
      requires Valid()
      modifies storage`mutations, storage`off, storage.media
      ensures Valid()
      ensures (r, storage.State()) == Store(config, old(storage.State()), digest, index, item)
    {
      hide Find, Open, Append;
      if |item| > ITEM_MAX {
        return Err(Full);
      }
      var found := FindArea(digest);
      var which;
      match found {
        case Some(area) => which := area;
        case None => which :- OpenArea(digest);
      }
      r := AppendItem(which, digest, index, item);
    }

    method LoadItem(digest: u64, index: u16, room: nat) returns (r: Result<bytes, Fault>)
      requires Valid()
      ensures r == Load(config, storage.media[..], digest, index, room)
    {
      hide Find, Parse, LastWhole;
      var found := FindArea(digest);
      if found.None? {
        return Err(Missing);
      }
      var _, slot := Walk(found.value, digest, index);
      if slot.None? {
        return Err(Missing);
      }
      if |slot.value.item| > room {
        return Err(Full);
      }
      return Ok(slot.value.item);
    }
  }
}
