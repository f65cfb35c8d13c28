/** The NOR chip under the item log: a program only clears bits, an erase sets
    whole blocks, and a power cut lands before or halfway through either. */
module Flash {
  import opened Words

  const ERASE_BLOCK := 4096
  const BLANK: u8 := 0xFF

  datatype Cut = Before | Torn

  datatype RamError = Bounds | PowerCut

  /** Everything a chip holds. `cutAt` is the mutation number an armed cut
      fires at, counted like `mutations`. */
  datatype Chip = Chip(media: bytes, mutations: nat, cutAt: Option<(nat, Cut)>, off: bool)

  /** What programming `b` over `a` leaves: bits are cleared, never set. */
  function And(a: u8, b: u8): u8 {
    ((a as bv8) & (b as bv8)) as int
  }

  lemma ProgramLaws(a: u8)
    ensures And(a, a) == a
    ensures And(BLANK, a) == a
    ensures And(a, BLANK) == a
  {
  }

  /** Bit `k` of a byte, the lowest first. */
  predicate Bit(x: u8, k: nat) {
    if k == 0 then x % 2 == 1 else Bit(x / 2, k - 1)
  }

  function Both(x: bv8, y: bv8): bv8 {
    x & y
  }

  function Half(x: bv8): bv8 {
    x >> 1
  }

  lemma UpperHalf(a: u8, b: u8)
    ensures And(a, b) / 2 == And(a / 2, b / 2)
  {
    hide And, Both, Half;
    var x, y := a as bv8, b as bv8;
    AndIs(a, b);
    AndIs(a / 2, b / 2);
    HalfBack(a);
    HalfBack(b);
    HalfIs(Both(x, y));
    HalfBoth(x, y);
  }

  lemma HalfIs(x: bv8)
    ensures (x as int) / 2 == Half(x) as int
  {
    HalfOf(x);
  }

  lemma HalfBoth(x: bv8, y: bv8)
    ensures Half(Both(x, y)) == Both(Half(x), Half(y))
  {
  }

  lemma AndIs(a: u8, b: u8)
    ensures And(a, b) == Both(a as bv8, b as bv8) as int
  {
  }

  lemma HalfBack(a: u8)
    ensures (a / 2) as bv8 == Half(a as bv8)
  {
    HalfOf(a as bv8);
    ThereAndBack((a as bv8) >> 1);
  }

  lemma LowestBit(a: u8, b: u8)
    ensures And(a, b) % 2 == 1 <==> a % 2 == 1 && b % 2 == 1
  {
    var x, y := a as bv8, b as bv8;
    HalfOf(x);
    HalfOf(y);
    HalfOf(x & y);
    assert (x & y) & 1 == (x & 1) & (y & 1);
    OneBit(x, y);
  }

  lemma OneBit(x: bv8, y: bv8)
    ensures ((x & 1) & (y & 1)) as int == 1 <==> (x & 1) as int == 1 && (y & 1) as int == 1
  {
    assert (x & 1) & (y & 1) == 1 <==> x & 1 == 1 && y & 1 == 1;
    OneIs((x & 1) & (y & 1));
    OneIs(x & 1);
    OneIs(y & 1);
  }

  lemma OneIs(x: bv8)
    ensures x as int == 1 <==> x == 1
  {
    ThereAndBack(x);
  }

  lemma HalfOf(x: bv8)
    ensures (x as int) % 2 == (x & 1) as int
    ensures (x as int) / 2 == (x >> 1) as int
  {
  }

  lemma ThereAndBack(x: bv8)
    ensures (x as int) as bv8 == x
  {
  }

  /** A programmed cell keeps exactly the bits set in both bytes. */
  lemma {:induction false} AndExact(a: u8, b: u8, k: nat)
    ensures Bit(And(a, b), k) <==> Bit(a, k) && Bit(b, k)
    decreases k
  {
    hide And;
    UpperHalf(a, b);
    LowestBit(a, b);
    if k > 0 {
      AndExact(a / 2, b / 2, k - 1);
    }
  }

  /** A torn write takes the first half of its 4-byte units, rounded down. */
  lemma TornHalf(units: nat)
    ensures TornLength(4 * units) == 4 * (units / 2)
  {
  }

  function Erased(media: bytes, from: nat, len: nat): (r: bytes)
    requires from + len <= |media|
    ensures |r| == |media|
  {
    seq(|media|, k requires 0 <= k < |media| => if from <= k < from + len then BLANK else media[k])
  }

  /** `src` programmed over `cells`, cell by cell. */
  function Cleared(cells: bytes, src: bytes): (r: bytes)
    requires |cells| == |src|
    ensures |r| == |src|
  {
    if src == [] then [] else [And(cells[0], src[0])] + Cleared(cells[1..], src[1..])
  }

  function Programmed(media: bytes, offset: nat, src: bytes): (r: bytes)
    requires offset + |src| <= |media|
    ensures |r| == |media|
  {
    var programmed := Cleared(media[offset..offset + |src|], src);
    seq(|media|, k requires 0 <= k < |media| =>
      if offset <= k < offset + |src| then programmed[k - offset] else media[k])
  }

  lemma {:induction false} ClearedAt(cells: bytes, src: bytes, k: nat)
    requires |cells| == |src| && k < |src|
    ensures Cleared(cells, src)[k] == And(cells[k], src[k])
  {
    if k > 0 {
      ClearedAt(cells[1..], src[1..], k - 1);
    }
  }

  lemma ErasedCells(media: bytes, from: nat, len: nat)
    requires from + len <= |media|
    ensures forall k :: 0 <= k < |media| ==> Erased(media, from, len)[k] == if from <= k < from + len then BLANK else media[k]
  {
  }

  lemma ProgrammedCells(media: bytes, offset: nat, src: bytes)
    requires offset + |src| <= |media|
    ensures forall k :: 0 <= k < |media| ==>
              Programmed(media, offset, src)[k] == if offset <= k < offset + |src| then And(media[k], src[k - offset]) else media[k]
  {
    forall k | offset <= k < offset + |src| ensures Programmed(media, offset, src)[k] == And(media[k], src[k - offset]) {
      ClearedAt(media[offset..offset + |src|], src, k - offset);
    }
  }

  /** A cell programmed while erased, or already holding the byte, ends with it. */
  lemma ProgramLands(media: bytes, offset: nat, src: bytes, k: nat)
    requires offset + |src| <= |media| && offset <= k < offset + |src|
    requires media[k] == BLANK || media[k] == src[k - offset]
    ensures Programmed(media, offset, src)[k] == src[k - offset]
  {
    ClearedAt(media[offset..offset + |src|], src, k - offset);
    ProgramLaws(src[k - offset]);
  }

  /** Count one mutation: Ok(true) when an armed cut tears it, an error when
      power is already off or goes off before it starts. */
  function Mutate(chip: Chip): (Result<bool, RamError>, Chip) {
    if chip.off then (Err(PowerCut), chip)
    else
      var counted := chip.(mutations := chip.mutations + 1);
      match chip.cutAt
      case Some((at, cut)) =>
        if at == counted.mutations then
          if cut == Before then (Err(PowerCut), counted.(off := true)) else (Ok(true), counted.(off := true))
        else (Ok(false), counted)
      case None => (Ok(false), counted)
  }

  function Erase(chip: Chip, from: nat, to: nat): (r: (Result<(), RamError>, Chip))
    ensures |r.1.media| == |chip.media|
  {
    if from % ERASE_BLOCK != 0 || to % ERASE_BLOCK != 0 || to < from || to > |chip.media| then (Err(Bounds), chip)
    else
      var (torn, counted) := Mutate(chip);
      match torn
      case Err(e) => (Err(e), counted)
      case Ok(true) => (Err(PowerCut), counted.(media := Erased(chip.media, from, (to - from) / 2)))
      case Ok(false) => (Ok(()), counted.(media := Erased(chip.media, from, to - from)))
  }

  /** A torn write stops on a program-unit boundary: half the 4-byte units. */
  function TornLength(len: nat): nat {
    len / 2 / 4 * 4
  }

  function Write(chip: Chip, offset: nat, src: bytes): (r: (Result<(), RamError>, Chip))
    ensures |r.1.media| == |chip.media|
  {
    if offset % 4 != 0 || |src| % 4 != 0 || offset + |src| > |chip.media| then (Err(Bounds), chip)
    else
      var (torn, counted) := Mutate(chip);
      match torn
      case Err(e) => (Err(e), counted)
      case Ok(true) => (Err(PowerCut), counted.(media := Programmed(chip.media, offset, src[..TornLength(|src|)])))
      case Ok(false) => (Ok(()), counted.(media := Programmed(chip.media, offset, src)))
  }

  function CutAfter(chip: Chip, at: nat, cut: Cut): Chip {
    chip.(cutAt := Some((Min(chip.mutations + at, U32_SPAN - 1), cut)))
  }

  function PowerOn(chip: Chip): Chip {
    chip.(off := false, cutAt := None)
  }

  /** A write programs some leading bytes: all of them exactly when it answers
      Ok, else none or half the units. */
  lemma WriteTakes(chip: Chip, offset: nat, src: bytes) returns (take: nat)
    requires offset % 4 == 0 && |src| % 4 == 0 && offset + |src| <= |chip.media|
    ensures take <= |src|
    ensures Write(chip, offset, src).1.media == Programmed(chip.media, offset, src[..take])
    ensures Write(chip, offset, src).0.Ok? ==> take == |src|
    ensures Write(chip, offset, src).0.Err? ==> take == 0 || take == TornLength(|src|)
  {
    assert src[..|src|] == src;
    var (torn, _) := Mutate(chip);
    if torn.Err? {
      assert Programmed(chip.media, offset, src[..0]) == chip.media;
    }
    take := if torn.Err? then 0 else if torn.value then TornLength(|src|) else |src|;
  }

  /** An erase blanks some leading bytes of its range, likewise. */
  lemma EraseTakes(chip: Chip, from: nat, len: nat) returns (take: nat)
    requires from % ERASE_BLOCK == 0 && len % ERASE_BLOCK == 0 && from + len <= |chip.media|
    ensures take <= len
    ensures Erase(chip, from, from + len).1.media == Erased(chip.media, from, take)
    ensures Erase(chip, from, from + len).0.Ok? ==> take == len
    ensures Erase(chip, from, from + len).0.Err? ==> take == 0 || take == len / 2
  {
    assert (from + len) % ERASE_BLOCK == 0;
    var (torn, _) := Mutate(chip);
    if torn.Err? {
      assert Erased(chip.media, from, 0) == chip.media;
    }
    take := if torn.Err? then 0 else if torn.value then len / 2 else len;
  }

  /** An armed cut fires in one of the next `n` mutations. */
  predicate CutWithin(chip: Chip, n: nat) {
    chip.cutAt.Some? && chip.mutations < chip.cutAt.value.0 <= chip.mutations + n
  }

  /** With power on and no cut firing, `n` mutations were counted. */
  predicate Counted(chip: Chip, after: Chip, n: nat) {
    after.mutations == chip.mutations + n && after.cutAt == chip.cutAt && !after.off
  }

  /** A write within the chip answers Ok exactly with power on and no cut firing
      in it; without power it changes nothing. */
  lemma WriteAnswers(chip: Chip, offset: nat, src: bytes)
    requires offset % 4 == 0 && |src| % 4 == 0 && offset + |src| <= |chip.media|
    ensures var (r, after) := Write(chip, offset, src);
            && r == (if chip.off || CutWithin(chip, 1) then Err(PowerCut) else Ok(()))
            && (chip.off ==> after == chip)
            && (r.Ok? ==> Counted(chip, after, 1))
  {
  }

  lemma EraseAnswers(chip: Chip, from: nat, len: nat)
    requires from % ERASE_BLOCK == 0 && len % ERASE_BLOCK == 0 && from + len <= |chip.media|
    ensures var (r, after) := Erase(chip, from, from + len);
            && r == (if chip.off || CutWithin(chip, 1) then Err(PowerCut) else Ok(()))
            && (chip.off ==> after == chip)
            && (r.Ok? ==> Counted(chip, after, 1))
  {
    assert (from + len) % ERASE_BLOCK == 0;
  }

  /** The chip as the program updates it in place. */
  class RamNor {
    var media: array<u8>
    var mutations: nat
    var cutAt: Option<(nat, Cut)>
    var off: bool

    ghost function State(): (chip: Chip)
      reads this, media
    {
      Chip(media[..], mutations, cutAt, off)
    }

    constructor (size: nat)
      ensures fresh(media) && media.Length == size
      ensures State() == Chip(seq(size, _ => BLANK), 0, None, false)
    {
      media := new u8[size](_ => BLANK);
      mutations, cutAt, off := 0, None, false;
      new;
      assert media[..] == seq(size, _ => BLANK);
    }

    method ArmCut(at: nat, cut: Cut)
      modifies this`cutAt
      ensures State() == CutAfter(old(State()), at, cut)
    {
      cutAt := Some((Min(mutations + at, U32_SPAN - 1), cut));
    }

    method RestorePower()
      modifies this`off, this`cutAt
      ensures State() == PowerOn(old(State()))
    {
      off := false;
      cutAt := None;
    }

    method CountMutation() returns (torn: Result<bool, RamError>)
      modifies this`mutations, this`off
      ensures (torn, State()) == Mutate(old(State()))
    {
      if off {
        return Err(PowerCut);
      }
      mutations := mutations + 1;
      match cutAt
      case Some((at, cut)) =>
        if at == mutations {
          off := true;
          if cut == Before {
            return Err(PowerCut);
          }
          return Ok(true);
        }
        return Ok(false);
      case None =>
        return Ok(false);
    }

    method Read(offset: nat, len: nat) returns (r: Result<bytes, RamError>)
      ensures r == if offset + len > media.Length then Err(Bounds) else Ok(media[offset..offset + len])
    {
      if offset + len > media.Length {
        return Err(Bounds);
      }
      return Ok(media[offset..offset + len]);
    }

    method EraseBlocks(from: nat, to: nat) returns (r: Result<(), RamError>)
      modifies this`mutations, this`off, media
      ensures (r, State()) == Erase(old(State()), from, to)
    {
      if from % ERASE_BLOCK != 0 || to % ERASE_BLOCK != 0 || to < from || to > media.Length {
        return Err(Bounds);
      }
      var torn :- CountMutation();
      var len := if torn then (to - from) / 2 else to - from;
      forall k | from <= k < from + len {
        media[k] := BLANK;
      }
      ErasedCells(old(media[..]), from, len);
      assert media[..] == Erased(old(media[..]), from, len);
      return if torn then Err(PowerCut) else Ok(());
    }

    method ClearBits(offset: nat, src: bytes)
      requires offset + |src| <= media.Length
      modifies media
      ensures media[..] == Programmed(old(media[..]), offset, src)
    {
      for k := 0 to |src|
        invariant forall j :: 0 <= j < media.Length && !(offset <= j < offset + k) ==> media[j] == old(media[j])
        invariant forall j :: offset <= j < offset + k ==> media[j] == And(old(media[j]), src[j - offset])
      {
        media[offset + k] := And(media[offset + k], src[k]);
      }
      ProgrammedCells(old(media[..]), offset, src);
    }

    method Program(offset: nat, src: bytes) returns (r: Result<(), RamError>)
      modifies this`mutations, this`off, media
      ensures (r, State()) == Write(old(State()), offset, src)
    {
      if offset % 4 != 0 || |src| % 4 != 0 || offset + |src| > media.Length {
        return Err(Bounds);
      }
      var torn :- CountMutation();
      assert src[..|src|] == src;
      ClearBits(offset, src[..if torn then TornLength(|src|) else |src|]);
      return if torn then Err(PowerCut) else Ok(());
    }
  }
}
