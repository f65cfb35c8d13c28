/** How the bytes of an area change while an item is appended or a header is
    written, cut by cut. */
module ItemLogLayout {
  import opened Words
  import opened Flash
  import opened ItemLog

  lemma FourTimes(n: nat)
    ensures 4 * n % 4 == 0
  {
  }

  lemma BlockTimes(n: nat)
    ensures n * ERASE_BLOCK % ERASE_BLOCK == 0
  {
  }

  /** Areas start and end on erase blocks, so on program units. */
  lemma Aligned(c: Config, which: nat)
    requires which < 2
    ensures c.Base(which) % ERASE_BLOCK == 0 && c.Size() % ERASE_BLOCK == 0
    ensures c.Base(which) % 4 == 0 && c.First(which) % 4 == 0
  {
    var b := if which == 0 then 0 else c.blocks;
    BlockTimes(b);
    BlockTimes(c.blocks);
    FourTimes(1024 * b);
    FourTimes(1024 * b + 5);
  }

  ghost predicate SameCells(a: bytes, b: bytes, from: nat, to: nat) {
    |a| == |b| && forall k :: from <= k < to && k < |a| ==> a[k] == b[k]
  }

  ghost predicate BlankCells(media: bytes, from: nat, to: nat) {
    forall k :: from <= k < to && k < |media| ==> media[k] == BLANK
  }

  /** Nothing outside lo..hi differs. */
  ghost predicate SameOutside(a: bytes, b: bytes, lo: nat, hi: nat) {
    |a| == |b| && forall k :: 0 <= k < |a| && (k < lo || hi <= k) ==> a[k] == b[k]
  }

  lemma ProgramOutside(media: bytes, offset: nat, src: bytes, lo: nat, hi: nat)
    requires lo <= offset && offset + |src| <= hi <= |media|
    ensures SameOutside(media, Programmed(media, offset, src), lo, hi)
  {
  }

  lemma SlicesAgree(a: bytes, b: bytes, from: nat, to: nat, lo: nat, hi: nat)
    requires SameCells(a, b, from, to) && from <= lo <= hi <= to <= |a|
    ensures a[lo..hi] == b[lo..hi]
  {
  }

  lemma HeadFrame(a: bytes, b: bytes, at: nat)
    requires at + ITEM_HEADER_BYTES <= |a| && SameCells(a, b, at, at + ITEM_HEADER_BYTES)
    ensures ErasedHead(a, at) == ErasedHead(b, at)
    ensures LengthAt(a, at) == LengthAt(b, at) && NextAt(a, at) == NextAt(b, at)
  {
    SlicesAgree(a, b, at, at + 8, at, at + 4);
    SlicesAgree(a, b, at, at + 8, at + 2, at + 4);
  }

  lemma SlotFrame(a: bytes, b: bytes, at: nat)
    requires at + ITEM_HEADER_BYTES <= |a| && NextAt(a, at) <= |a| && SameCells(a, b, at, NextAt(a, at))
    ensures NextAt(a, at) == NextAt(b, at) && SlotAt(a, at) == SlotAt(b, at)
  {
    HeadFrame(a, b, at);
    SlicesAgree(a, b, at, at + 8, at, at + 2);
    SlicesAgree(a, b, at, at + 8, at + 4, at + 8);
    assert a[at + 8..][..LengthAt(a, at)] == b[at + 8..][..LengthAt(a, at)];
  }

  lemma {:induction false} ParseSame(a: bytes, b: bytes, at: nat, end: nat)
    requires end <= |a| && SameCells(a, b, at, end)
    ensures Parse(a, at, end) == Parse(b, at, end)
    decreases end - at
  {
    if at + ITEM_HEADER_BYTES <= end {
      HeadFrame(a, b, at);
      if !ErasedHead(a, at) && !Damaged(a, at, end) {
        SlotFrame(a, b, at);
        ParseSame(a, b, NextAt(a, at), end);
      }
    }
  }

  lemma {:induction false} ParseAligned(media: bytes, at: nat, end: nat)
    requires end <= |media| && at % 4 == 0
    ensures Parse(media, at, end).1.Some? ==> Parse(media, at, end).1.value % 4 == 0
    decreases end - at
  {
    if at + ITEM_HEADER_BYTES <= end && !ErasedHead(media, at) && !Damaged(media, at, end) {
      ParseAligned(media, NextAt(media, at), end);
    }
  }

  lemma ConsAppend<T>(x: T, a: seq<T>, b: seq<T>)
    ensures [x] + a + b == [x] + (a + b)
  {
  }

  /** Cells past the stopping point do not change the slots before it. */
  lemma {:induction false} ParseFrame(a: bytes, b: bytes, at: nat, end: nat)
    requires end <= |a| && |a| == |b|
    requires Parse(a, at, end).1.Some?
    requires SameCells(a, b, at, Parse(a, at, end).1.value)
    ensures var t := Parse(a, at, end).1.value;
            Parse(b, at, end) == (Parse(a, at, end).0 + Parse(b, t, end).0, Parse(b, t, end).1)
    decreases end - at
  {
    if ErasedHead(a, at) {
      assert [] + Parse(b, at, end).0 == Parse(b, at, end).0;
    } else {
      var next := NextAt(a, at);
      assert next <= Parse(a, at, end).1.value;
      HeadFrame(a, b, at);
      SlotFrame(a, b, at);
      ParseFrame(a, b, next, end);
      ConsAppend(SlotAt(a, at), Parse(a, next, end).0, Parse(b, Parse(a, next, end).1.value, end).0);
    }
  }

  lemma HeadWord(index: u16, len: u16, check: u32)
    requires len <= ITEM_MAX
    ensures var h := SlotHead(index, len, check);
            Word16(h[..2]) == index && Word16(h[2..4]) == len && Word32(h[4..8]) == check && Word32(h[..4]) != ALL_ONES
  {
    var h := SlotHead(index, len, check);
    assert h[..2] == Le(index, 2) && h[2..4] == Le(len, 2) && h[4..8] == Le(check, 4);
    TwoByteWord(index);
    TwoByteWord(len);
    FourByteWord(check);
    Spans();
    if Word32(h[..4]) == ALL_ONES {
      AllOnes(h[..4]);
      assert h[2..4] == h[..4][2..];
      AllOnes(h[2..4]);
    }
  }

  lemma {:induction false} UsedCons(first: Slot, rest: seq<Slot>)
    ensures Used([first] + rest) == Cost(first.item) + Used(rest)
  {
    hide Pad;
    if rest == [] {
      assert [first] + rest == [first] && [first][..0] == [];
      assert Used([]) == HEADER_BYTES;
    } else {
      var n := |rest| - 1;
      UsedCons(first, rest[..n]);
      assert ([first] + rest)[..n + 1] == [first] + rest[..n];
    }
  }

  /** A walk ends just past the bytes its slots use: at an erased head, where no
      head fits, or at a damaged length. */
  lemma {:induction false} ParseUsed(media: bytes, at: nat, end: nat)
    requires at <= end <= |media|
    ensures var (slots, stop) := Parse(media, at, end);
            var next := at + Used(slots) - HEADER_BYTES;
            && at <= next <= end
            && (if next + ITEM_HEADER_BYTES > end then stop == None
                else if ErasedHead(media, next) then stop == Some(next)
                else stop == None && Damaged(media, next, end))
    decreases end - at
  {
    hide Pad, Used, Damaged, ErasedHead, SlotAt;
    if at + ITEM_HEADER_BYTES <= end && !ErasedHead(media, at) && !Damaged(media, at, end) {
      var next := NextAt(media, at);
      NextFits(media, at, end);
      ParseUsed(media, next, end);
      UsedCons(SlotAt(media, at), Parse(media, next, end).0);
    } else {
      assert Used([]) == HEADER_BYTES by { UsedNone(); }
    }
  }

  lemma UsedNone()
    ensures Used([]) == HEADER_BYTES
  {
  }

  lemma NextFits(media: bytes, at: nat, end: nat)
    requires at + ITEM_HEADER_BYTES <= end <= |media| && !Damaged(media, at, end)
    ensures NextAt(media, at) <= end && NextAt(media, at) == at + Cost(SlotAt(media, at).item)
  {
    hide Pad;
  }

  /** A slot whose head and padded body are in place is the next one read. */
  lemma ParseSlot(media: bytes, at: nat, end: nat, index: u16, item: bytes, check: u32)
    requires end <= |media| && |item| <= ITEM_MAX
    requires at + ITEM_HEADER_BYTES + Pad(|item|) <= end
    requires media[at..at + ITEM_HEADER_BYTES] == SlotHead(index, |item|, check)
    requires media[at + ITEM_HEADER_BYTES..at + ITEM_HEADER_BYTES + Pad(|item|)] == Padded(item)
    ensures var rest := Parse(media, at + ITEM_HEADER_BYTES + Pad(|item|), end);
            Parse(media, at, end) == ([Slot(at, index, item, check)] + rest.0, rest.1)
  {
    var h := SlotHead(index, |item|, check);
    HeadWord(index, |item|, check);
    assert media[at..at + 8][..4] == media[at..at + 4];
    assert media[at..at + 8][..2] == media[at..at + 2];
    assert media[at..at + 8][2..4] == media[at + 2..at + 4];
    assert media[at..at + 8][4..8] == media[at + 4..at + 8];
    assert media[at + 8..][..|item|] == media[at + 8..at + 8 + Pad(|item|)][..|item|];
  }

  lemma ParseBlank(media: bytes, at: nat, end: nat)
    requires end <= |media| && BlankCells(media, at, at + 4)
    ensures Parse(media, at, end) == ([], if at + ITEM_HEADER_BYTES <= end then Some(at) else None)
  {
    if at + ITEM_HEADER_BYTES <= end {
      AllOnes(media[at..at + 4]);
      Spans();
    }
  }

  /** After `at`: an erased head, then cells that are erased or already hold
      the matching byte of `body`; nothing past `body`. */
  ghost predicate Residue(media: bytes, at: nat, end: nat, body: bytes) {
    && end <= |media|
    && BlankCells(media, at, at + ITEM_HEADER_BYTES)
    && forall k :: at + ITEM_HEADER_BYTES <= k < end ==>
         || media[k] == BLANK
         || (k - at - ITEM_HEADER_BYTES < |body| && media[k] == body[k - at - ITEM_HEADER_BYTES])
  }

  lemma ResidueWidens(media: bytes, at: nat, end: nat, body: bytes)
    requires Residue(media, at, end, [])
    ensures Residue(media, at, end, body)
  {
  }

  /** The area's header, slots and the residue after them. */
  ghost predicate AreaIs(c: Config, media: bytes, which: nat, header: Area, slots: seq<Slot>, body: bytes) {
    && which < 2 && c.Fits(media)
    && ReadHeader(c, media, which) == Some(header)
    && AreaParse(c, media, which).0 == slots
    && (AreaParse(c, media, which).1.Some? ==> Residue(media, AreaParse(c, media, which).1.value, c.End(which), body))
  }

  lemma HeaderFrame(c: Config, a: bytes, b: bytes, which: nat)
    requires which < 2 && c.Fits(a) && SameCells(a, b, c.Base(which), c.First(which))
    ensures c.Fits(b) && ReadHeader(c, a, which) == ReadHeader(c, b, which)
  {
    SlicesAgree(a, b, c.Base(which), c.First(which), c.Base(which), c.Base(which) + HEADER_BYTES);
  }

  /** An area untouched cell for cell reads the same. */
  lemma AreaFrame(c: Config, a: bytes, b: bytes, which: nat)
    requires which < 2 && c.Fits(a) && SameCells(a, b, c.Base(which), c.End(which))
    ensures c.Fits(b) && ReadHeader(c, a, which) == ReadHeader(c, b, which)
    ensures AreaParse(c, a, which) == AreaParse(c, b, which)
    ensures forall header, slots, body :: AreaIs(c, a, which, header, slots, body) ==> AreaIs(c, b, which, header, slots, body)
  {
    HeaderFrame(c, a, b, which);
    ParseSame(a, b, c.First(which), c.End(which));
  }

  /** Programming part of the body over its own residue keeps it a residue. */
  lemma BodyResidue(media: bytes, at: nat, end: nat, item: bytes, take: nat, body: bytes)
    requires Residue(media, at, end, body) && (body == [] || body == Padded(item))
    requires take <= Pad(|item|) && at + ITEM_HEADER_BYTES + Pad(|item|) <= end
    ensures var after := Programmed(media, at + ITEM_HEADER_BYTES, Padded(item)[..take]);
            && Residue(after, at, end, Padded(item))
            && after[at + ITEM_HEADER_BYTES..at + ITEM_HEADER_BYTES + take] == Padded(item)[..take]
  {
    var base := at + ITEM_HEADER_BYTES;
    var after := Programmed(media, base, Padded(item)[..take]);
    forall k | base <= k < end
      ensures after[k] == BLANK || (k - base < Pad(|item|) && after[k] == Padded(item)[k - base])
      ensures k < base + take ==> after[k] == Padded(item)[k - base]
    {
      if k < base + take {
        ProgramLands(media, base, Padded(item)[..take], k);
      }
    }
  }

  /** A slot in place with erased cells after it is the last one. */
  lemma ParseLastSlot(media: bytes, at: nat, end: nat, index: u16, item: bytes, check: u32, next: nat)
    requires end <= |media| && |item| <= ITEM_MAX
    requires next == at + ITEM_HEADER_BYTES + Pad(|item|) && next <= end
    requires media[at..at + ITEM_HEADER_BYTES] == SlotHead(index, |item|, check)
    requires media[at + ITEM_HEADER_BYTES..next] == Padded(item)
    requires BlankCells(media, next, end)
    ensures Parse(media, at, end) == ([Slot(at, index, item, check)], if next + ITEM_HEADER_BYTES <= end then Some(next) else None)
  {
    ParseSlot(media, at, end, index, item, check);
    assert Parse(media, next, end) == ([], if next + ITEM_HEADER_BYTES <= end then Some(next) else None) by {
      if next + ITEM_HEADER_BYTES <= end {
        ParseBlank(media, next, end);
      }
    }
    assert [Slot(at, index, item, check)] + [] == [Slot(at, index, item, check)];
  }

  /** If where the area stopped there is now one last slot, the area holds one
      slot more. */
  lemma SlotAdded(a: bytes, b: bytes, first: nat, end: nat, at: nat, slot: Slot, stop: Option<nat>)
    requires end <= |a| == |b|
    requires Parse(a, first, end).1 == Some(at) && SameCells(a, b, first, at)
    requires Parse(b, at, end) == ([slot], stop)
    ensures Parse(b, first, end) == (Parse(a, first, end).0 + [slot], stop)
  {
    ParseFrame(a, b, first, end);
  }

  /** Programming over erased cells leaves the programmed bytes. */
  lemma ProgramBlank(media: bytes, at: nat, len: nat, src: bytes)
    requires at + len <= |media| && |src| <= len && BlankCells(media, at, at + len)
    ensures Programmed(media, at, src)[at..at + len] == src + seq(len - |src|, _ => BLANK)
  {
    forall k | 0 <= k < |src| ensures Programmed(media, at, src)[at + k] == src[k] {
      ProgramLands(media, at, src, at + k);
    }
  }

  lemma HeadOutside(media: bytes, at: nat, head: bytes, base: nat, next: nat, end: nat, body: bytes)
    requires at + |head| <= base && base == at + ITEM_HEADER_BYTES && next == base + |body| && next <= end
    requires Residue(media, at, end, body)
    ensures var after := Programmed(media, at, head);
            && after[base..next] == media[base..next]
            && BlankCells(after, next, end)
            && SameCells(media, after, 0, at)
  {
  }

  /** Any head that names the slot, programmed over erased cells and before
      the complete body, makes it the last slot. */
  lemma HeadParse(media: bytes, at: nat, end: nat, index: u16, item: bytes, head: bytes, check: u32, base: nat, next: nat)
    requires |item| <= ITEM_MAX && base == at + ITEM_HEADER_BYTES && next == base + Pad(|item|) && next <= end
    requires Residue(media, at, end, Padded(item)) && media[base..next] == Padded(item)
    requires |head| <= ITEM_HEADER_BYTES
    requires SlotHead(index, |item|, check) == head + seq(ITEM_HEADER_BYTES - |head|, _ => BLANK)
    ensures var after := Programmed(media, at, head);
            && Parse(after, at, end) == ([Slot(at, index, item, check)], if next + ITEM_HEADER_BYTES <= end then Some(next) else None)
            && BlankCells(after, next, end)
            && SameCells(media, after, 0, at)
  {
    var after := Programmed(media, at, head);
    HeadOutside(media, at, head, base, next, end, Padded(item));
    ProgramBlank(media, at, ITEM_HEADER_BYTES, head);
    ParseLastSlot(after, at, end, index, item, check, next);
  }

  /** Where the slot after one taking `item` at `at` would go. */
  function NextFree(c: Config, which: nat, at: nat, item: bytes): Option<nat> {
    var next := at + ITEM_HEADER_BYTES + Pad(|item|);
    if next + ITEM_HEADER_BYTES <= c.End(which) then Some(next) else None
  }

  lemma HeadVisible(c: Config, media: bytes, which: nat, header: Area, slots: seq<Slot>, at: nat, index: u16, item: bytes, head: bytes, check: u32)
    requires AreaIs(c, media, which, header, slots, Padded(item)) && |item| <= ITEM_MAX
    requires AreaParse(c, media, which).1 == Some(at)
    requires at + ITEM_HEADER_BYTES + Pad(|item|) <= c.End(which)
    requires media[at + ITEM_HEADER_BYTES..at + ITEM_HEADER_BYTES + Pad(|item|)] == Padded(item)
    requires |head| <= ITEM_HEADER_BYTES
    requires SlotHead(index, |item|, check) == head + seq(ITEM_HEADER_BYTES - |head|, _ => BLANK)
    ensures AreaIs(c, Programmed(media, at, head), which, header, slots + [Slot(at, index, item, check)], [])
    ensures AreaParse(c, Programmed(media, at, head), which).1 == NextFree(c, which, at, item)
  {
    hide Parse, ReadHeader, Programmed, Padded, SlotHead, Pad;
    var end, base := c.End(which), at + ITEM_HEADER_BYTES;
    var after := Programmed(media, at, head);
    HeadParse(media, at, end, index, item, head, check, base, base + Pad(|item|));
    HeaderFrame(c, media, after, which);
    SlotAdded(media, after, c.First(which), end, at, Slot(at, index, item, check), Parse(after, at, end).1);
  }

  /** Cells after an erased head that stays erased do not change the parse. */
  lemma ParseKept(a: bytes, b: bytes, first: nat, end: nat, at: nat)
    requires end <= |a| == |b|
    requires Parse(a, first, end).1 == Some(at) && SameCells(a, b, first, at)
    requires BlankCells(b, at, at + ITEM_HEADER_BYTES)
    ensures Parse(b, first, end) == Parse(a, first, end)
  {
    ParseBlank(b, at, end);
    ParseFrame(a, b, first, end);
    assert Parse(a, first, end).0 + [] == Parse(a, first, end).0;
  }

  /** Programming `take` bytes of the body: the same slots, the body's residue. */
  lemma BodyProgrammed(c: Config, media: bytes, which: nat, header: Area, slots: seq<Slot>, body: bytes, at: nat, item: bytes, take: nat)
    requires AreaIs(c, media, which, header, slots, body) && AreaParse(c, media, which).1 == Some(at)
    requires body == [] || body == Padded(item)
    requires take <= Pad(|item|) && at + ITEM_HEADER_BYTES + Pad(|item|) <= c.End(which)
    ensures var after := Programmed(media, at + ITEM_HEADER_BYTES, Padded(item)[..take]);
            && AreaIs(c, after, which, header, slots, Padded(item))
            && AreaParse(c, after, which).1 == Some(at)
            && after[at + ITEM_HEADER_BYTES..at + ITEM_HEADER_BYTES + take] == Padded(item)[..take]
  {
    hide Parse, ReadHeader, Cleared;
    var base := at + ITEM_HEADER_BYTES;
    var after := Programmed(media, base, Padded(item)[..take]);
    BodyResidue(media, at, c.End(which), item, take, body);
    HeaderFrame(c, media, after, which);
    ParseKept(media, after, c.First(which), c.End(which), at);
  }

  /** Writing the body, cut or not. */
  lemma BodyCases(c: Config, chip: Chip, which: nat, header: Area, slots: seq<Slot>, body: bytes, at: nat, item: bytes)
    requires AreaIs(c, chip.media, which, header, slots, body) && |item| <= ITEM_MAX
    requires body == [] || body == Padded(item)
    requires AreaParse(c, chip.media, which).1 == Some(at) && at % 4 == 0
    requires at + ITEM_HEADER_BYTES + Pad(|item|) <= c.End(which)
    ensures var (r, filled) := Write(chip, at + ITEM_HEADER_BYTES, Padded(item));
            && AreaIs(c, filled.media, which, header, slots, Padded(item))
            && AreaParse(c, filled.media, which).1 == Some(at)
            && SameOutside(chip.media, filled.media, c.Base(which), c.End(which))
            && (r.Ok? ==> filled.media[at + ITEM_HEADER_BYTES..at + ITEM_HEADER_BYTES + Pad(|item|)] == Padded(item))
  {
    hide Parse, Write, Residue, ReadHeader, Programmed, Pad, Padded;
    var base, full := at + ITEM_HEADER_BYTES, Padded(item);
    var take := WriteTakes(chip, base, full);
    BodyProgrammed(c, chip.media, which, header, slots, body, at, item, take);
    ProgramOutside(chip.media, base, full[..take], c.Base(which), c.End(which));
    assert take == |full| ==> full[..take] == full;
  }

  /** Writing the head, cut or not: the slot as it was, or visible with some check. */
  lemma HeadCases(c: Config, chip: Chip, which: nat, header: Area, slots: seq<Slot>, at: nat, index: u16, item: bytes, check: u32)
    returns (now: seq<Slot>, body: bytes, stored: u32)
    requires AreaIs(c, chip.media, which, header, slots, Padded(item)) && |item| <= ITEM_MAX
    requires AreaParse(c, chip.media, which).1 == Some(at) && at % 4 == 0
    requires at + ITEM_HEADER_BYTES + Pad(|item|) <= c.End(which)
    requires chip.media[at + ITEM_HEADER_BYTES..at + ITEM_HEADER_BYTES + Pad(|item|)] == Padded(item)
    ensures var (r, after) := Write(chip, at, SlotHead(index, |item|, check));
            && AreaIs(c, after.media, which, header, now, body)
            && SameOutside(chip.media, after.media, c.Base(which), c.End(which))
            && (r.Ok? ==> stored == check && now == slots + [Slot(at, index, item, check)])
    ensures (now == slots && body == Padded(item)) || (now == slots + [Slot(at, index, item, stored)] && body == [])
    ensures AreaParse(c, Write(chip, at, SlotHead(index, |item|, check)).1.media, which).1 ==
              if now == slots then Some(at) else NextFree(c, which, at, item)
  {
    var head := SlotHead(index, |item|, check);
    var take := WriteTakes(chip, at, head);
    ProgramOutside(chip.media, at, head[..take], c.Base(which), c.End(which));
    TornHead(index, |item|, check);
    if take == 0 {
      now, body, stored := slots, Padded(item), check;
      assert Programmed(chip.media, at, head[..0]) == chip.media;
    } else {
      stored := if take == 4 then ALL_ONES else check;
      assert head[..8] == head && head + [] == head;
      now, body := slots + [Slot(at, index, item, stored)], [];
      HeadVisible(c, chip.media, which, header, slots, at, index, item, head[..take], stored);
    }
  }

  /** The two writes of an append. */
  lemma AppendSteps(c: Config, chip: Chip, which: nat, digest: u64, index: u16, item: bytes, at: nat)
    requires which < 2 && c.Fits(chip.media) && |item| <= ITEM_MAX
    requires AreaParse(c, chip.media, which).1 == Some(at)
    requires at + ITEM_HEADER_BYTES + Pad(|item|) <= c.End(which)
    ensures var w := Write(chip, at + ITEM_HEADER_BYTES, Padded(item));
            var h := Write(w.1, at, SlotHead(index, |item|, ItemCheck(c, digest, index, item)));
            Append(c, chip, which, digest, index, item) ==
              if w.0.Err? then (Err(Media(w.0.error)), w.1)
              else if h.0.Err? then (Err(Media(h.0.error)), h.1)
              else (Ok(()), h.1)
  {
  }

  /** Everything an append can leave: the slot absent, or present and whole in
      its bytes; the rest of the media untouched. */
  lemma AppendCases(c: Config, chip: Chip, which: nat, header: Area, slots: seq<Slot>, body: bytes, digest: u64, index: u16, item: bytes)
    returns (now: seq<Slot>, left: bytes, stored: u32)
    requires AreaIs(c, chip.media, which, header, slots, body) && |item| <= ITEM_MAX
    requires body == [] || body == Padded(item)
    ensures var (r, after) := Append(c, chip, which, digest, index, item);
            && AreaIs(c, after.media, which, header, now, left)
            && SameOutside(chip.media, after.media, c.Base(which), c.End(which))
            && AppendAnswer(r, AreaParse(c, chip.media, which).1, slots, now, left, stored, index, item, ItemCheck(c, digest, index, item))
            && (r == Err(Full) ==> after == chip && left == body)
            && var stop := AreaParse(c, chip.media, which).1;
               AreaParse(c, after.media, which).1 == if stop.None? || now == slots then stop else NextFree(c, which, stop.value, item)
  {
    hide Parse, Write, SlotHead, Padded, ItemCheck, Residue, ReadHeader;
    now, left, stored := slots, body, 0;
    var stop := AreaParse(c, chip.media, which).1;
    if stop.Some? && stop.value + ITEM_HEADER_BYTES + Pad(|item|) <= c.End(which) {
      var at := stop.value;
      Aligned(c, which);
      ParseAligned(chip.media, c.First(which), c.End(which));
      AppendSteps(c, chip, which, digest, index, item, at);
      BodyCases(c, chip, which, header, slots, body, at, item);
      var (wrote, filled) := Write(chip, at + ITEM_HEADER_BYTES, Padded(item));
      if wrote.Err? {
        left := Padded(item);
      } else {
        now, left, stored := HeadCases(c, filled, which, header, slots, at, index, item, ItemCheck(c, digest, index, item));
      }
    }
  }

  /** The slots `now` and the residue `left` an append may answer `r` with. */
  ghost predicate AppendAnswer(r: Result<(), Fault>, stop: Option<nat>, slots: seq<Slot>, now: seq<Slot>, left: bytes, stored: u32, index: u16, item: bytes, check: u32) {
    match r
    case Ok(_) => stop.Some? && left == [] && stored == check && now == slots + [Slot(stop.value, index, item, check)]
    case Err(Missing) => false
    case Err(Full) => now == slots
    case Err(Media(_)) =>
      || (now == slots && left == Padded(item))
      || (stop.Some? && left == [] && now == slots + [Slot(stop.value, index, item, stored)])
  }

  /** Half a slot head is a head with an all-ones check. */
  lemma TornHead(index: u16, len: u16, check: u32)
    ensures SlotHead(index, len, ALL_ONES) == SlotHead(index, len, check)[..4] + seq(4, _ => BLANK)
    ensures TornLength(ITEM_HEADER_BYTES) == 4
  {
    var ones := Le(ALL_ONES, 4);
    FourByteWord(ALL_ONES);
    Spans();
    AllOnes(ones);
  }

  /** What a header program cut halfway leaves: the digest and check still
      erased. It must not pass for a header. */
  predicate TornHeaderFails(c: Config, generation: u32) {
    Fold(c.step, FNV32_OFFSET, Le(MAGIC, 4) + Le(generation, 4) + Blank8()) != ALL_ONES
  }

  function Blank8(): bytes {
    seq(8, _ => BLANK)
  }

  const NO_DIGEST: u64 := 0xFFFF_FFFF_FFFF_FFFF

  lemma HeaderFields(magic: bytes, generation: bytes, digest: bytes, check: bytes)
    requires |magic| == 4 && |generation| == 4 && |digest| == 8 && |check| == 4
    ensures var b := magic + generation + digest + check;
            && b[..4] == magic && b[4..8] == generation && b[8..16] == digest && b[16..] == check
            && b[..16] == magic + generation + digest
  {
  }

  lemma HeaderReads(c: Config, media: bytes, which: nat, generation: u32, digest: u64, check: u32)
    requires which < 2 && c.Fits(media)
    requires media[c.Base(which)..c.First(which)] == Covered(generation, digest) + Le(check, 4)
    ensures ReadHeader(c, media, which) ==
            if check == Fold(c.step, FNV32_OFFSET, Covered(generation, digest)) then Some(Area(generation, digest)) else None
  {
    HeaderFields(Le(MAGIC, 4), Le(generation, 4), Le(digest, 8), Le(check, 4));
    FourByteWord(MAGIC);
    FourByteWord(generation);
    EightByteWord(digest);
    FourByteWord(check);
  }

  lemma BlankWord(width: nat)
    ensures Le(Span(width) - 1, width) == seq(width, _ => BLANK)
  {
    FromLeInvertsLe(Span(width) - 1, width);
    AllOnes(Le(Span(width) - 1, width));
  }

  lemma TornFields(magic: bytes, generation: bytes, digest: bytes, check: bytes)
    requires |magic| == 4 && |generation| == 4 && |digest| == 8 && |check| == 4
    ensures (magic + generation + digest + check)[..8] + seq(12, _ => BLANK) == magic + generation + Blank8() + seq(4, _ => BLANK)
  {
  }

  lemma OnesBytes()
    ensures Le(NO_DIGEST, 8) == Blank8()
    ensures Le(ALL_ONES, 4) == seq(4, _ => BLANK)
  {
    Spans();
    BlankWord(8);
    BlankWord(4);
  }

  lemma TornHeader(c: Config, generation: u32, digest: u64)
    ensures HeaderOf(c, generation, digest)[..8] + seq(12, _ => BLANK) == Covered(generation, NO_DIGEST) + Le(ALL_ONES, 4)
    ensures TornHeaderFails(c, generation) <==> Fold(c.step, FNV32_OFFSET, Covered(generation, NO_DIGEST)) != ALL_ONES
  {
    OnesBytes();
    TornFields(Le(MAGIC, 4), Le(generation, 4), Le(digest, 8), Le(Fold(c.step, FNV32_OFFSET, Covered(generation, digest)), 4));
  }

  /** The torn header reads as none exactly when its check fails. */
  lemma TornHeaderReads(c: Config, media: bytes, which: nat, generation: u32, digest: u64)
    requires which < 2 && c.Fits(media)
    requires media[c.Base(which)..c.First(which)] == HeaderOf(c, generation, digest)[..8] + seq(12, _ => BLANK)
    ensures ReadHeader(c, media, which) == if TornHeaderFails(c, generation) then None else Some(Area(generation, NO_DIGEST))
  {
    TornHeader(c, generation, digest);
    HeaderReads(c, media, which, generation, NO_DIGEST, ALL_ONES);
  }

  lemma BlankHeader(c: Config, media: bytes, which: nat)
    requires which < 2 && c.Fits(media) && BlankCells(media, c.Base(which), c.Base(which) + 4)
    ensures ReadHeader(c, media, which) == None
  {
    var b := media[c.Base(which)..c.First(which)];
    AllOnes(b[..4]);
    Spans();
  }

  lemma EraseOutside(media: bytes, from: nat, len: nat, lo: nat, hi: nat)
    requires lo <= from && from + len <= hi <= |media|
    ensures SameOutside(media, Erased(media, from, len), lo, hi)
    ensures BlankCells(Erased(media, from, len), from, from + len)
  {
    ErasedCells(media, from, len);
  }

  lemma TakenHeaderless(c: Config, media: bytes, which: nat, take: nat)
    requires which < 2 && c.Fits(media) && take <= c.Size()
    ensures var after := Erased(media, c.Base(which), take);
            && SameOutside(media, after, c.Base(which), c.End(which))
            && BlankCells(after, c.Base(which), c.Base(which) + take)
            && (take == 0 ==> after == media)
            && (take >= 4 ==> ReadHeader(c, after, which) == None)
  {
    EraseOutside(media, c.Base(which), take, c.Base(which), c.End(which));
    var after := Erased(media, c.Base(which), take);
    if take == 0 {
      assert after == media;
    } else if take >= 4 {
      BlankHeader(c, after, which);
    }
  }

  /** Everything erasing an area can leave: untouched, or headerless. */
  lemma EraseCases(c: Config, chip: Chip, which: nat)
    requires which < 2 && c.Fits(chip.media)
    ensures var (r, after) := Erase(chip, c.Base(which), c.End(which));
            && SameOutside(chip.media, after.media, c.Base(which), c.End(which))
            && (r.Ok? ==> BlankCells(after.media, c.Base(which), c.End(which)))
            && (after.media == chip.media || ReadHeader(c, after.media, which) == None)
  {
    hide ReadHeader;
    Aligned(c, which);
    var take := EraseTakes(chip, c.Base(which), c.Size());
    TakenHeaderless(c, chip.media, which, take);
  }

  lemma HeaderWritten(c: Config, media: bytes, which: nat, header: bytes)
    requires which < 2 && c.Fits(media) && BlankCells(media, c.Base(which), c.End(which)) && |header| <= HEADER_BYTES
    ensures var after := Programmed(media, c.Base(which), header);
            && after[c.Base(which)..c.First(which)] == header + seq(HEADER_BYTES - |header|, _ => BLANK)
            && BlankCells(after, c.First(which), c.End(which))
  {
    ProgramBlank(media, c.Base(which), HEADER_BYTES, header);
  }

  /** A complete header over a blank area opens it, empty. */
  lemma FullHeader(c: Config, media: bytes, which: nat, generation: u32, digest: u64)
    requires which < 2 && c.Fits(media) && BlankCells(media, c.First(which), c.End(which))
    requires media[c.Base(which)..c.First(which)] == HeaderOf(c, generation, digest)
    ensures AreaIs(c, media, which, Area(generation, digest), [], [])
    ensures AreaParse(c, media, which).1 == Some(c.First(which))
  {
    HeaderReads(c, media, which, generation, digest, Fold(c.step, FNV32_OFFSET, Covered(generation, digest)));
    ParseBlank(media, c.First(which), c.End(which));
  }

  lemma TornTaken(c: Config, media: bytes, which: nat, generation: u32, digest: u64, taken: bytes)
    requires which < 2 && c.Fits(media) && BlankCells(media, c.Base(which), c.End(which))
    requires taken == HeaderOf(c, generation, digest)[..8] && TornHeaderFails(c, generation)
    ensures ReadHeader(c, Programmed(media, c.Base(which), taken), which) == None
  {
    HeaderWritten(c, media, which, taken);
    TornHeaderReads(c, Programmed(media, c.Base(which), taken), which, generation, digest);
  }

  lemma FullTaken(c: Config, media: bytes, which: nat, generation: u32, digest: u64, taken: bytes)
    requires which < 2 && c.Fits(media) && BlankCells(media, c.Base(which), c.End(which))
    requires taken == HeaderOf(c, generation, digest)
    ensures AreaIs(c, Programmed(media, c.Base(which), taken), which, Area(generation, digest), [], [])
    ensures AreaParse(c, Programmed(media, c.Base(which), taken), which).1 == Some(c.First(which))
  {
    HeaderWritten(c, media, which, taken);
    assert taken + [] == taken;
    FullHeader(c, Programmed(media, c.Base(which), taken), which, generation, digest);
  }

  /** Everything writing a header over a blank area can leave. */
  lemma HeaderCases(c: Config, chip: Chip, which: nat, generation: u32, digest: u64)
    requires which < 2 && c.Fits(chip.media) && BlankCells(chip.media, c.Base(which), c.End(which))
    ensures var (r, after) := Write(chip, c.Base(which), HeaderOf(c, generation, digest));
            && SameOutside(chip.media, after.media, c.Base(which), c.End(which))
            && (r.Ok? ==> AreaIs(c, after.media, which, Area(generation, digest), [], [])
                          && AreaParse(c, after.media, which).1 == Some(c.First(which)))
            && (r.Err? && TornHeaderFails(c, generation) ==> ReadHeader(c, after.media, which) == None)
  {
    hide Parse, Write, Residue, ReadHeader, Covered, Fold;
    var header := HeaderOf(c, generation, digest);
    Aligned(c, which);
    var take := WriteTakes(chip, c.Base(which), header);
    ProgramOutside(chip.media, c.Base(which), header[..take], c.Base(which), c.End(which));
    if take == 0 {
      assert Programmed(chip.media, c.Base(which), []) == chip.media;
      BlankHeader(c, chip.media, which);
    } else if take == 8 {
      if TornHeaderFails(c, generation) {
        TornTaken(c, chip.media, which, generation, digest, header[..take]);
      }
    } else {
      assert header[..take] == header;
      FullTaken(c, chip.media, which, generation, digest, header);
    }
  }

  /** Opening touches no cell outside the area it takes. */
  lemma OpenOutside(c: Config, chip: Chip, digest: u64)
    requires c.Fits(chip.media)
    ensures var which := NextArea(c, chip.media).0;
            SameOutside(chip.media, Open(c, chip, digest).1.media, c.Base(which), c.End(which))
  {
    hide Parse, Write, Residue, ReadHeader, Covered, Fold;
    var (which, generation) := NextArea(c, chip.media);
    EraseCases(c, chip, which);
    var (erased, blank) := Erase(chip, c.Base(which), c.End(which));
    if erased.Ok? {
      HeaderCases(c, blank, which, generation, digest);
    }
  }

  /** Everything opening an area for a digest can leave. */
  lemma OpenCases(c: Config, chip: Chip, digest: u64)
    requires c.Fits(chip.media) && TornHeaderFails(c, NextArea(c, chip.media).1)
    ensures var (which, generation) := NextArea(c, chip.media);
            var (r, after) := Open(c, chip, digest);
            && SameOutside(chip.media, after.media, c.Base(which), c.End(which))
            && (r.Ok? ==> AreaIs(c, after.media, which, Area(generation, digest), [], [])
                          && AreaParse(c, after.media, which).1 == Some(c.First(which)))
            && (r.Err? ==> r.error.Media? && (after.media == chip.media || ReadHeader(c, after.media, which) == None))
  {
    var (which, generation) := NextArea(c, chip.media);
    EraseCases(c, chip, which);
    var (erased, blank) := Erase(chip, c.Base(which), c.End(which));
    if erased.Ok? {
      HeaderCases(c, blank, which, generation, digest);
    }
  }

  // When power lets an operation finish.

  /** An append with room answers Ok exactly with power on and no cut firing in
      its two writes; without power it changes nothing. */
  lemma AppendPower(c: Config, chip: Chip, which: nat, digest: u64, index: u16, item: bytes)
    requires which < 2 && c.Fits(chip.media) && |item| <= ITEM_MAX
    requires var stop := AreaParse(c, chip.media, which).1;
             stop.Some? && stop.value + Cost(item) <= c.End(which)
    ensures var (r, after) := Append(c, chip, which, digest, index, item);
            && r == (if chip.off || CutWithin(chip, 2) then Err(Media(PowerCut)) else Ok(()))
            && (chip.off ==> after == chip)
            && (r.Ok? ==> Counted(chip, after, 2))
  {
    hide Parse, Write, Erase, SlotHead, Padded, ItemCheck, Pad;
    var at := AreaParse(c, chip.media, which).1.value;
    Aligned(c, which);
    ParseAligned(chip.media, c.First(which), c.End(which));
    AppendSteps(c, chip, which, digest, index, item, at);
    WriteAnswers(chip, at + ITEM_HEADER_BYTES, Padded(item));
    var filled := Write(chip, at + ITEM_HEADER_BYTES, Padded(item)).1;
    WriteAnswers(filled, at, SlotHead(index, |item|, ItemCheck(c, digest, index, item)));
  }

  /** Opening, likewise, in its erase and its write. */
  lemma OpenPower(c: Config, chip: Chip, digest: u64)
    requires c.Fits(chip.media)
    ensures var (r, after) := Open(c, chip, digest);
            && (r.Ok? <==> !chip.off && !CutWithin(chip, 2))
            && (r.Err? ==> r.error == Media(PowerCut))
            && (chip.off ==> after == chip)
            && (r.Ok? ==> Counted(chip, after, 2))
  {
    hide Parse, Write, Erase, HeaderOf, ReadHeader;
    var (which, generation) := NextArea(c, chip.media);
    Aligned(c, which);
    EraseAnswers(chip, c.Base(which), c.Size());
    var blank := Erase(chip, c.Base(which), c.End(which)).1;
    WriteAnswers(blank, c.Base(which), HeaderOf(c, generation, digest));
  }
}
