/** Encoding checkpoints into buffers and restoring them into the supervisor's
    own stores, in place. */
module CheckpointDevice {
  import opened Words
  import opened Core
  import opened Codec
  import opened CheckpointCodec
  import opened CheckpointSink
  import opened Checkpoint
  import opened CheckpointRestore
  import opened Ledger
  import opened LedgerDevice
  import opened Memory
  import opened MemoryDevice

  method PutItem(sink: Sink, s: State, index: nat) returns (r: Result<(), Error>)
    requires sink.Valid()
    modifies sink, sink.out
    ensures sink.Valid() && old(sink.written) <= sink.written
    ensures match EncodeItem(s, index)
            case Err(e) => r == Err(e) && sink.written == old(sink.written)
            case Ok(item) =>
              && r == (if old(sink.Fits(|item|)) then Ok(()) else Err(SnapshotBufferTooSmall))
              && (r.Ok? ==> sink.written == old(sink.written) + item)
  {
    hide GoalBytes, EntryBytes;
    ghost var w := sink.written;
    if index < |s.book.goals| {
      var _ :- sink.PutU8(0);
      var _ :- sink.PutGoal(s.book.goals[index]);
      Regroup(w, [0], GoalBytes(s.book.goals[index]));
      return Ok(());
    }
    var k := index - |s.book.goals|;
    if k >= |s.store.entries| {
      return Err(SnapshotCorrupt);
    }
    var _ :- sink.PutU8(1);
    var _ :- sink.PutEntry(s.store.entries[k]);
    Regroup(w, [1], EntryBytes(s.store.entries[k]));
    return Ok(());
  }

  /** Item `index` at the front of `out`. */
  method EncodeItemInto(s: State, index: nat, out: array<u8>) returns (r: Result<nat, Error>)
    modifies out
    ensures match EncodeItem(s, index)
            case Err(e) => r == Err(e)
            case Ok(item) =>
              if |item| <= out.Length then r == Ok(|item|) && out[..|item|] == item else r == Err(SnapshotBufferTooSmall)
  {
    hide EncodeItem;
    var sink := new Sink.Writing(out);
    var _ :- PutItem(sink, s, index);
    assert [] + EncodeItem(s, index).value == EncodeItem(s, index).value;
    return Ok(sink.pos);
  }

  lemma StoredItemFits(s: State, k: nat)
    requires Stored(s) && k < |Items(s)|
    ensures |Items(s)[k]| <= MAX_ITEM_BYTES && EncodeItem(s, k) == Ok(Items(s)[k])
  {
    hide Items, EncodeItem, Stored;
    ItemsAreEncoded(s, k);
    ItemsFit(s, k);
  }

  /** The digest over every item, one item buffer at a time. */
  method ItemsDigest(step: step64, s: State) returns (digest: u64)
    requires Stored(s)
    ensures digest == Digest(step, Items(s))
  {
    hide Items, EncodeItem, Digest, Stored;
    digest := FNV64_OFFSET;
    DigestStreams(step, [], []);
    var item := new u8[MAX_ITEM_BYTES](_ => 0);
    var n := |s.book.goals| + |s.store.entries|;
    assert n == |Items(s)|;
    for index := 0 to n
      invariant digest == Digest(step, Items(s)[..index])
    {
      StoredItemFits(s, index);
      var len := EncodeItemInto(s, index, item);
      if len.Ok? {
        digest := FoldBytes<u64>(step, digest, item[..len.value]);
      }
      DigestStreams(step, Items(s)[..index], Items(s)[index]);
      assert Items(s)[..index] + [Items(s)[index]] == Items(s)[..index + 1];
    }
    assert Items(s)[..n] == Items(s);
  }

  method MakeHeader(step: step64, s: State) returns (h: Header)
    requires Stored(s)
    ensures h == HeaderOf(step, s)
  {
    hide Items, Digest, Stored;
    var digest := ItemsDigest(step, s);
    h := Header(s.lastBeat, s.spawnSeq, s.nextDeadline, s.book.nextId, s.store.nextStamp,
                CountByte(|s.book.goals|), CountByte(|s.store.entries|), digest);
  }

  method PutBlob(step: step64, sink: Sink, s: State) returns (r: Result<(), Error>)
    requires sink.Valid() && Stored(s) && sink.written == []
    modifies sink, sink.out
    ensures sink.Valid() && r == if old(sink.Fits(|Payload(step, s)|)) then Ok(()) else Err(SnapshotBufferTooSmall)
    ensures r.Ok? ==> sink.written == Payload(step, s)
  {
    hide Items, Join, EncodeItem, HeaderOf, HeaderBytes, Stored;
    var h := MakeHeader(step, s);
    JoinGrows(Items(s), 0);
    var _ :- sink.PutHeader(h);
    var n := |s.book.goals| + |s.store.entries|;
    assert n == |Items(s)|;
    assert Items(s)[..0] == [] && Join([]) == [] by { EmptyJoin(Items(s)); }
    assert sink.written == HeaderBytes(h) + Join(Items(s)[..0]);
    for index := 0 to n
      invariant sink.Valid()
      invariant sink.written == HeaderBytes(h) + Join(Items(s)[..index])
      invariant sink.Fits(0)
    {
      StoredItemFits(s, index);
      JoinGrows(Items(s), index + 1);
      JoinNext(Items(s), index);
      Regroup(HeaderBytes(h), Join(Items(s)[..index]), Items(s)[index]);
      var _ :- PutItem(sink, s, index);
    }
    assert Items(s)[..n] == Items(s);
    return Ok(());
  }

  lemma EmptyJoin(items: seq<bytes>)
    ensures items[..0] == [] && Join([]) == []
  {
  }

  lemma JoinNext(items: seq<bytes>, k: nat)
    requires k < |items|
    ensures Join(items[..k + 1]) == Join(items[..k]) + items[k]
  {
    hide Join;
    assert items[..k] + [items[k]] == items[..k + 1];
    JoinSnoc(items[..k], items[k]);
  }

  lemma {:induction false} JoinGrows(items: seq<bytes>, k: nat)
    requires k <= |items|
    ensures |Join(items[..k])| <= |Join(items)|
  {
    var n := |items| - 1;
    if k <= n {
      JoinGrows(items[..n], k);
      assert items[..n][..k] == items[..k];
    } else {
      assert items[..k] == items;
    }
  }

  /** The blob, when it fits. */
  method EncodeInto(step: step64, s: State, out: array<u8>) returns (r: Result<nat, Error>)
    requires Stored(s)
    modifies out
    ensures var blob := Encode(step, s);
            if |blob| <= out.Length then r == Ok(|blob|) && out[..|blob|] == blob else r == Err(SnapshotBufferTooSmall)
  {
    hide Payload, Stored, Le, Fold;
    var sink := new Sink.Writing(out);
    var _ :- PutBlob(step, sink, s);
    var end := sink.pos;
    assert out[..end] == Payload(step, s);
    var integrity := FoldBytes<u64>(step, FNV64_OFFSET, out[..end]);
    var _ :- sink.PutWord(integrity, CHECKSUM_LEN);
    return Ok(sink.pos);
  }

  /** Exactly the bytes the blob takes. */
  method EncodedLen(step: step64, s: State) returns (n: nat)
    requires Stored(s)
    ensures n == |Encode(step, s)|
  {
    hide Payload, Stored, Le, Fold;
    var sink := new Sink.Counting();
    var _ := PutBlob(step, sink, s);
    n := sink.pos + CHECKSUM_LEN;
  }

  /** The supervisor's stores, as a restore fills them. */
  class Target {
    var lastBeat: u64
    var spawnSeq: u32
    var nextDeadline: u64
    var ledger: GoalLedger
    var memory: MemoryStore

    ghost predicate Valid()
      reads this, ledger, ledger.slots, memory, memory.slots
    {
      ledger.Valid() && memory.Valid()
    }

    ghost function Contents(): State
      reads this, ledger, memory
    {
      State(lastBeat, spawnSeq, nextDeadline, ledger.Contents(), memory.Contents())
    }

    /** A fresh agent. */
    constructor ()
      ensures Valid() && fresh(ledger) && fresh(ledger.slots) && fresh(memory) && fresh(memory.slots)
      ensures Contents() == State(0, 0, 0, Book([], 1), Store([], 1))
    {
      lastBeat, spawnSeq, nextDeadline := 0, 0, 0;
      ledger := new GoalLedger(1);
      memory := new MemoryStore(1);
    }

    /** Reset to a header's counters and empty, allocator-positioned stores. */
    method Reset(h: Header)
      modifies this
      ensures Valid() && fresh(ledger) && fresh(ledger.slots) && fresh(memory) && fresh(memory.slots)
      ensures Contents() == Begin(h).target
    {
      lastBeat, spawnSeq, nextDeadline := h.lastBeat, h.spawnSeq, h.nextDeadline;
      ledger := new GoalLedger(h.nextGoalId);
      memory := new MemoryStore(h.nextStamp);
    }

    /** Revalidate one decoded piece into its store. */
    method Admit(p: Piece) returns (r: Result<(), Error>)
      requires Valid()
      modifies ledger, ledger.slots, memory, memory.slots
      ensures Valid() && (r, Contents()) == Add(old(Contents()), p)
      ensures ledger.slots == old(ledger.slots) && memory.slots == old(memory.slots)
    {
      hide RestoreGoal, RestoreEntry;
      match p {
        case GoalPiece(goal) => r := ledger.RestoreOne(goal);
        case EntryPiece(entry) => r := memory.RestoreOne(entry);
      }
    }
  }

  /** An item-by-item restore: only the header, a running digest and a count;
      the state itself is the target's. */
  class Restorer {
    const step: step64
    const header: Header
    var digest: u64
    var received: nat

    ghost function Progress(target: Target): Restore
      reads this, target, target.ledger, target.memory
    {
      Restore(header, digest, received, target.Contents())
    }

    constructor Begin(step: step64, header: Header, target: Target)
      modifies target
      ensures this.step == step && this.header == header
      ensures target.Valid() && fresh(target.ledger) && fresh(target.ledger.slots) && fresh(target.memory) && fresh(target.memory.slots)
      ensures Progress(target) == Checkpoint.Begin(header)
    {
      this.step := step;
      this.header := header;
      digest := FNV64_OFFSET;
      received := 0;
      new;
      target.Reset(header);
    }

    function Remaining(): (n: nat)
      reads this
    {
      if header.goals + header.entries >= received then header.goals + header.entries - received else 0
    }

    method ReadPiece(reader: Reader, wantGoal: bool) returns (r: Result<Piece, Error>)
      requires reader.Valid()
      modifies reader
      ensures reader.Valid() && old(reader.pos) <= reader.pos
      ensures match TakePiece(old(reader.Rest()), wantGoal) case Ok(p) => r == Ok(p.0) && reader.Rest() == p.1 case Err(e) => r == Err(e)
    {
      hide TakeU8, TakeGoal, TakeEntry;
      var tag :- reader.ReadU8();
      if tag == 0 && wantGoal {
        var goal :- reader.ReadGoal();
        return Ok(GoalPiece(goal));
      } else if tag == 1 && !wantGoal {
        var entry :- reader.ReadEntry();
        return Ok(EntryPiece(entry));
      } else {
        return Err(SnapshotCorrupt);
      }
    }

    /** One item from the reader into the target, folded into the digest. */
    method ReadInto(target: Target, reader: Reader) returns (r: Result<(), Error>)
      requires target.Valid() && reader.Valid()
      modifies this, reader, target.ledger, target.ledger.slots, target.memory, target.memory.slots
      ensures target.Valid() && reader.Valid()
      ensures target.ledger == old(target.ledger) && target.ledger.slots == old(target.ledger.slots)
      ensures target.memory == old(target.memory) && target.memory.slots == old(target.memory.slots)
      ensures var (left, after) := TakeInto(step, old(Progress(target)), old(reader.Rest()));
              && Progress(target) == after
              && match left { case Ok(rest) => r == Ok(()) && reader.Rest() == rest case Err(e) => r == Err(e) }
    {
      hide TakePiece, Add, Fold;
      if Remaining() == 0 {
        return Err(SnapshotCorrupt);
      }
      var start := reader.pos;
      ghost var before := reader.Rest();
      var wantGoal := received < header.goals;
      var piece :- ReadPiece(reader, wantGoal);
      var _ :- target.Admit(piece);
      var taken := reader.source[start..reader.pos];
      assert taken == Consumed(before, reader.Rest());
      digest := FoldBytes<u64>(step, digest, taken);
      received := received + 1;
      return Ok(());
    }

    method PushItem(target: Target, item: bytes) returns (r: Result<(), Error>)
      requires target.Valid()
      modifies this, target.ledger, target.ledger.slots, target.memory, target.memory.slots
      ensures target.Valid() && (r, Progress(target)) == Push(step, old(Progress(target)), item)
      ensures target.ledger == old(target.ledger) && target.ledger.slots == old(target.ledger.slots)
      ensures target.memory == old(target.memory) && target.memory.slots == old(target.memory.slots)
    {
      hide TakeInto;
      var reader := new Reader(item, 0, |item|);
      assert item[0..|item|] == item;
      var _ :- ReadInto(target, reader);
      if reader.pos != reader.end {
        return Err(SnapshotCorrupt);
      }
      return Ok(());
    }

    method Close(ghost target: Target) returns (r: Result<(), Error>)
      ensures r == Finish(Progress(target))
    {
      return if Remaining() != 0 then Err(SnapshotTruncated)
             else if digest != header.digest then Err(SnapshotChecksumMismatch)
             else Ok(());
    }
  }

  method VerifyBlob(step: step64, b: bytes) returns (r: Result<(), Error>)
    ensures r == Verify(step, b)
  {
    hide Fold, FromLe;
    if |b| < 1 + CHECKSUM_LEN {
      return Err(SnapshotTruncated);
    }
    if b[0] != VERSION {
      return Err(SnapshotVersionMismatch(b[0]));
    }
    var end := |b| - CHECKSUM_LEN;
    var sum := FoldBytes<u64>(step, FNV64_OFFSET, b[..end]);
    return if Word64(b[end..]) != sum then Err(SnapshotChecksumMismatch) else Ok(());
  }

  /** Restore every item the reader holds, until none is owed. */
  method ReadAll(restorer: Restorer, target: Target, reader: Reader) returns (r: Result<(), Error>)
    requires target.Valid() && reader.Valid()
    modifies restorer, reader, target.ledger, target.ledger.slots, target.memory, target.memory.slots
    ensures target.Valid() && reader.Valid()
    ensures var (left, after) := TakeAll(restorer.step, old(restorer.Progress(target)), old(reader.Rest()));
            && restorer.Progress(target) == after
            && match left { case Ok(rest) => r == Ok(()) && reader.Rest() == rest case Err(e) => r == Err(e) }
  {
    hide TakeInto;
    var owed := restorer.Remaining();
    while owed > 0
      invariant target.Valid() && reader.Valid()
      invariant target.ledger == old(target.ledger) && target.ledger.slots == old(target.ledger.slots)
      invariant target.memory == old(target.memory) && target.memory.slots == old(target.memory.slots)
      invariant owed == restorer.Progress(target).Remaining()
      invariant TakeAll(restorer.step, restorer.Progress(target), reader.Rest()) ==
                TakeAll(restorer.step, old(restorer.Progress(target)), old(reader.Rest()))
      decreases owed
    {
      TakeCounts(restorer.step, restorer.Progress(target), reader.Rest());
      var _ :- restorer.ReadInto(target, reader);
      owed := restorer.Remaining();
    }
    return Ok(());
  }

  lemma TakeCounts(step: step64, r: Restore, b: bytes)
    requires r.Remaining() > 0
    ensures var (left, after) := TakeInto(step, r, b);
            left.Ok? ==> after.Remaining() == r.Remaining() - 1
  {
    hide TakePiece, Add, Fold;
  }

  method ReadPayload(step: step64, reader: Reader) returns (r: Result<Target, Error>)
    requires reader.Valid()
    modifies reader
    ensures match DecodePayload(step, old(reader.Rest()))
            case Ok(s) => r.Ok? && r.value.Valid() && r.value.Contents() == s
            case Err(e) => r == Err(e)
  {
    hide TakeAll, TakeFields, Begin, Finish;
    var header :- reader.ReadFields();
    var target := new Target();
    var restorer := new Restorer.Begin(step, header, target);
    assert TakeFields(old(reader.Rest())) == Ok((header, reader.Rest()));
    ghost var rest := reader.Rest();
    var read := ReadAll(restorer, target, reader);
    ghost var run := TakeAll(step, Checkpoint.Begin(header), rest);
    assert restorer.Progress(target) == run.1 && (read.Err? ==> run.0 == Err(read.error));
    if read.Err? {
      return Err(read.error);
    }
    if reader.pos != reader.end {
      return Err(SnapshotCorrupt);
    }
    var finished := restorer.Close(target);
    return if finished.Err? then Err(SnapshotCorrupt) else Ok(target);
  }

  method DecodeBlob(step: step64, b: bytes) returns (r: Result<Target, Error>)
    ensures match Decode(step, b)
            case Ok(s) => r.Ok? && r.value.Valid() && r.value.Contents() == s
            case Err(e) => r == Err(e)
  {
    hide Verify, DecodePayload;
    var _ :- VerifyBlob(step, b);
    assert |b| > CHECKSUM_LEN by { CheckedThere(step, b); }
    var reader := new Reader(b, 1, |b| - CHECKSUM_LEN);
    r := ReadPayload(step, reader);
  }
}
