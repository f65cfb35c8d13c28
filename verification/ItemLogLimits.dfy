/** Where the log's guarantees stop, and exactly when. */
module ItemLogLimits {
  import opened Words
  import opened Flash
  import opened ItemLog
  import opened ItemLogLayout
  import opened ItemLogRefinement

  /** Opening a digest no area holds leaves every cell of the area holding the
      newest generation as it was, cut or not. */
  lemma NewestAreaUntouched(c: Config, chip: Chip, digest: u64)
    requires c.Fits(chip.media) && Find(c, chip.media, digest) == None
    ensures var k := ContentsOf(c, chip.media);
            var keep := 1 - k.Older();
            && NextArea(c, chip.media).0 == k.Older()
            && SameCells(chip.media, Open(c, chip, digest).1.media, c.Base(keep), c.End(keep))
  {
    hide Parse, ReadHeader, Open;
    OpenOutside(c, chip, digest);
  }

  /** Generations wrap. The area just opened is the one the next digest spares
      exactly when the generation it got did not wrap. */
  lemma WrapRetiresNewest(k: Contents, digest: u64, newest: u32, room: int)
    requires k.At(1 - k.Older()).Some? && k.At(1 - k.Older()).value.header.generation == newest
    ensures var older := k.Older();
            var after := k.With(older, Some(Held(Area((newest + 1) % U32_SPAN, digest), [], room)));
            after.Older() != older <==> newest + 1 < U32_SPAN
  {
  }

  /** A header program cut halfway: retrying takes the same area again, so the
      newest checkpoint is spared, exactly when the torn header's check fails. */
  lemma TornHeaderDecides(c: Config, chip: Chip, digest: u64)
    requires c.Fits(chip.media) && Find(c, chip.media, digest) == None && NewestGeneration(c, chip.media) + 1 < U32_SPAN
    requires ContentsOf(c, chip.media).At(1 - ContentsOf(c, chip.media).Older()).Some?
    requires !chip.off && chip.cutAt == Some((chip.mutations + 2, Torn))
    ensures Open(c, chip, digest).0 == Err(Media(PowerCut))
    ensures NextArea(c, Open(c, chip, digest).1.media).0 == NextArea(c, chip.media).0
            <==> TornHeaderFails(c, NewestGeneration(c, chip.media) + 1)
  {
    hide Parse, ReadHeader, HeaderOf, TornHeaderFails, Programmed, Erased;
    var (which, generation) := NextArea(c, chip.media);
    Aligned(c, which);
    var blank := Erased(chip.media, c.Base(which), c.Size());
    TakenHeaderless(c, chip.media, which, c.Size());
    TornAlone(c, blank, which, generation, digest, HeaderOf(c, generation, digest)[..8]);
    TornOpen(c, chip, digest, which, generation, blank);
    var after := Open(c, chip, digest).1.media;
    AreaFrame(c, chip.media, blank, 1 - which);
    AreaFrame(c, blank, after, 1 - which);
  }

  /** The media a torn header program leaves over a blank area. */
  lemma TornOpen(c: Config, chip: Chip, digest: u64, which: nat, generation: u32, blank: bytes)
    requires c.Fits(chip.media) && (which, generation) == NextArea(c, chip.media)
    requires !chip.off && chip.cutAt == Some((chip.mutations + 2, Torn))
    requires blank == Erased(chip.media, c.Base(which), c.Size())
    ensures Open(c, chip, digest).0 == Err(Media(PowerCut))
    ensures Open(c, chip, digest).1.media == Programmed(blank, c.Base(which), HeaderOf(c, generation, digest)[..8])
  {
    hide Parse, ReadHeader, HeaderOf, Programmed, Erased, NextArea;
    Aligned(c, which);
    BlockEnd(c, which);
  }

  lemma BlockEnd(c: Config, which: nat)
    requires which < 2
    ensures c.End(which) % ERASE_BLOCK == 0
  {
    BlockTimes(if which == 0 then c.blocks else 2 * c.blocks);
  }

  lemma TornAlone(c: Config, media: bytes, which: nat, generation: u32, digest: u64, taken: bytes)
    requires which < 2 && c.Fits(media) && BlankCells(media, c.Base(which), c.End(which))
    requires taken == HeaderOf(c, generation, digest)[..8]
    ensures var after := Programmed(media, c.Base(which), taken);
            && SameOutside(media, after, c.Base(which), c.End(which))
            && ReadHeader(c, after, which) == if TornHeaderFails(c, generation) then None else Some(Area(generation, NO_DIGEST))
  {
    hide Parse, ReadHeader, TornHeaderFails;
    ProgramOutside(media, c.Base(which), taken, c.Base(which), c.End(which));
    HeaderWritten(c, media, which, taken);
    TornHeaderReads(c, Programmed(media, c.Base(which), taken), which, generation, digest);
  }

  /** The media after an append no cut touches, over whatever the cells held. */
  lemma ReuseWrites(c: Config, chip: Chip, which: nat, at: nat, digest: u64, index: u16, item: bytes, full: bytes, head: bytes)
    requires which < 2 && c.Fits(chip.media) && |item| <= ITEM_MAX && AreaParse(c, chip.media, which).1 == Some(at)
    requires at + ITEM_HEADER_BYTES + Pad(|item|) <= c.End(which)
    requires !chip.off && (chip.cutAt.Some? ==> chip.cutAt.value.0 > chip.mutations + 2 || chip.cutAt.value.0 <= chip.mutations)
    requires full == Padded(item) && head == SlotHead(index, |item|, ItemCheck(c, digest, index, item))
    ensures var (r, after) := Append(c, chip, which, digest, index, item);
            r == Ok(()) && after.media == Programmed(Programmed(chip.media, at + ITEM_HEADER_BYTES, full), at, head)
  {
    hide Parse, Padded, SlotHead, ItemCheck, Programmed, Pad;
    Aligned(c, which);
    ParseAligned(chip.media, c.First(which), c.End(which));
  }

  /** A different item stored where a cut one left its body: the slot appended
      reads back as the item exactly when the bits the item needs set are still
      set in the cells, which a caller could read first. */
  lemma ReuseDecides(c: Config, chip: Chip, which: nat, at: nat, digest: u64, index: u16, item: bytes)
    requires which < 2 && c.Fits(chip.media) && |item| <= ITEM_MAX && AreaParse(c, chip.media, which).1 == Some(at)
    requires at + ITEM_HEADER_BYTES + Pad(|item|) <= c.End(which) && BlankCells(chip.media, at, at + ITEM_HEADER_BYTES)
    requires !chip.off && (chip.cutAt.Some? ==> chip.cutAt.value.0 > chip.mutations + 2 || chip.cutAt.value.0 <= chip.mutations)
    ensures var (r, after) := Append(c, chip, which, digest, index, item);
            var slots, now := AreaParse(c, chip.media, which).0, AreaParse(c, after.media, which).0;
            && r == Ok(())
            && |slots| < |now| && now[..|slots|] == slots
            && now[|slots|].index == index && now[|slots|].check == ItemCheck(c, digest, index, item)
            && (now[|slots|].item == item <==>
                forall k :: 0 <= k < |item| ==> And(chip.media[at + ITEM_HEADER_BYTES + k], item[k]) == item[k])
  {
    hide Parse, Padded, SlotHead, ItemCheck, Programmed, Pad, Append, And;
    var full, head := Padded(item), SlotHead(index, |item|, ItemCheck(c, digest, index, item));
    ReuseWrites(c, chip, which, at, digest, index, item, full, head);
    var filled := Programmed(chip.media, at + ITEM_HEADER_BYTES, full);
    var after := Programmed(filled, at, head);
    ReuseCells(chip.media, at, item, full, head);
    ParseFrame(chip.media, after, c.First(which), c.End(which));
    ReuseSlot(after, at, c.End(which), index, |item|, ItemCheck(c, digest, index, item));
    var got := after[at + ITEM_HEADER_BYTES..][..|item|];
    if got == item {
      forall k | 0 <= k < |item| ensures And(chip.media[at + ITEM_HEADER_BYTES + k], item[k]) == item[k] {
        assert got[k] == after[at + ITEM_HEADER_BYTES + k];
      }
    }
    if forall k :: 0 <= k < |item| ==> And(chip.media[at + ITEM_HEADER_BYTES + k], item[k]) == item[k] {
      forall k | 0 <= k < |item| ensures got[k] == item[k] {
        assert got[k] == after[at + ITEM_HEADER_BYTES + k];
      }
      assert got == item;
    }
  }

  lemma ReuseCells(media: bytes, at: nat, item: bytes, full: bytes, head: bytes)
    requires full == Padded(item) && |head| == ITEM_HEADER_BYTES && at + ITEM_HEADER_BYTES + |full| <= |media|
    requires BlankCells(media, at, at + ITEM_HEADER_BYTES)
    ensures var after := Programmed(Programmed(media, at + ITEM_HEADER_BYTES, full), at, head);
            && SameCells(media, after, 0, at)
            && after[at..at + ITEM_HEADER_BYTES] == head
            && forall k :: 0 <= k < |item| ==> after[at + ITEM_HEADER_BYTES + k] == And(media[at + ITEM_HEADER_BYTES + k], item[k])
  {
    hide And, Programmed, Padded;
    var body := at + ITEM_HEADER_BYTES;
    var filled := Programmed(media, body, full);
    ProgrammedCells(media, body, full);
    ProgrammedCells(filled, at, head);
    HeadLands(filled, at, head);
    forall k | 0 <= k < |item| ensures Programmed(filled, at, head)[body + k] == And(media[body + k], item[k]) {
      assert Programmed(filled, at, head)[body + k] == filled[body + k];
      assert full[k] == item[k] by { PaddedAt(item, k); }
    }
  }

  lemma PaddedAt(item: bytes, k: nat)
    requires k < |item|
    ensures k < |Padded(item)| && Padded(item)[k] == item[k]
  {
    assert Padded(item)[..|item|][k] == item[k];
  }

  lemma HeadLands(filled: bytes, at: nat, head: bytes)
    requires at + |head| <= |filled| && BlankCells(filled, at, at + |head|)
    ensures Programmed(filled, at, head)[at..at + |head|] == head
  {
    hide And, Programmed;
    ProgrammedCells(filled, at, head);
    forall k | 0 <= k < |head| ensures Programmed(filled, at, head)[at + k] == head[k] {
      ProgramLands(filled, at, head, at + k);
    }
  }

  /** A head in place is read as a slot, whatever its body. */
  lemma ReuseSlot(media: bytes, at: nat, end: nat, index: u16, len: u16, check: u32)
    requires end <= |media| && len <= ITEM_MAX && at + ITEM_HEADER_BYTES + Pad(len) <= end
    requires media[at..at + ITEM_HEADER_BYTES] == SlotHead(index, len, check)
    ensures |Parse(media, at, end).0| > 0
    ensures Parse(media, at, end).0[0] == Slot(at, index, media[at + ITEM_HEADER_BYTES..][..len], check)
  {
    HeadWord(index, len, check);
    assert media[at..at + 8][..4] == media[at..at + 4];
    assert media[at..at + 8][..2] == media[at..at + 2];
    assert media[at..at + 8][2..4] == media[at + 2..at + 4];
    assert media[at..at + 8][4..8] == media[at + 4..at + 8];
  }

  /** One such item: a residue byte 0x0F under an item starting 0xF0. The store
      answers Ok, and the slot it wrote is not the item. */
  lemma ResidueSpoils(c: Config, chip: Chip, which: nat, at: nat, digest: u64, index: u16, item: bytes)
    requires which < 2 && c.Fits(chip.media) && 1 <= |item| <= ITEM_MAX && AreaParse(c, chip.media, which).1 == Some(at)
    requires at + ITEM_HEADER_BYTES + Pad(|item|) <= c.End(which) && BlankCells(chip.media, at, at + ITEM_HEADER_BYTES)
    requires !chip.off && chip.cutAt == None
    requires chip.media[at + ITEM_HEADER_BYTES] == 0x0F && item[0] == 0xF0
    ensures var (r, after) := Append(c, chip, which, digest, index, item);
            var slots, now := AreaParse(c, chip.media, which).0, AreaParse(c, after.media, which).0;
            r == Ok(()) && |slots| < |now| && now[|slots|].index == index && now[|slots|].item != item
  {
    hide Parse, Append, ItemCheck, And;
    ReuseDecides(c, chip, which, at, digest, index, item);
    assert And(chip.media[at + ITEM_HEADER_BYTES + 0], item[0]) != item[0] by { NibblesApart(); }
  }

  lemma NibblesApart()
    ensures And(0x0F, 0xF0) != 0xF0
  {
  }
}
