/** Checkpoints: the supervisor's state as a header and a list of items, the
    restore that rebuilds and revalidates it item by item, and the blob form. */
module Checkpoint {
  import opened Words
  import opened Core
  import opened Codec
  import opened CheckpointCodec
  import opened Ledger
  import opened Memory

  const CHECKSUM_LEN := 8

  datatype State = State(lastBeat: u64, spawnSeq: u32, nextDeadline: u64, book: Book, store: Store)

  // Items and headers.

  function GoalItems(goals: seq<Goal>): (r: seq<bytes>)
    ensures |r| == |goals|
  {
    seq(|goals|, i requires 0 <= i < |goals| => [0] + GoalBytes(goals[i]))
  }

  function EntryItems(entries: seq<Entry>): (r: seq<bytes>)
    ensures |r| == |entries|
  {
    seq(|entries|, i requires 0 <= i < |entries| => [1] + EntryBytes(entries[i]))
  }

  /** One item per goal, then one per entry, in storage order. */
  function Items(s: State): (r: seq<bytes>)
    ensures |r| == |s.book.goals| + |s.store.entries|
  {
    GoalItems(s.book.goals) + EntryItems(s.store.entries)
  }

  function EncodeItem(s: State, index: nat): Result<bytes, Error> {
    if index < |s.book.goals| then Ok([0] + GoalBytes(s.book.goals[index]))
    else if index - |s.book.goals| < |s.store.entries| then Ok([1] + EntryBytes(s.store.entries[index - |s.book.goals|]))
    else Err(SnapshotCorrupt)
  }

  lemma ItemsAreEncoded(s: State, index: nat)
    ensures EncodeItem(s, index) == if index < |Items(s)| then Ok(Items(s)[index]) else Err(SnapshotCorrupt)
  {
    hide GoalBytes, EntryBytes;
  }

  function Digest(step: step64, items: seq<bytes>): u64 {
    Fold(step, FNV64_OFFSET, Join(items))
  }

  function CountByte(n: nat): u8 {
    Min(n, 0xFF)
  }

  function HeaderOf(step: step64, s: State): Header {
    Header(s.lastBeat, s.spawnSeq, s.nextDeadline, s.book.nextId, s.store.nextStamp,
           CountByte(|s.book.goals|), CountByte(|s.store.entries|), Digest(step, Items(s)))
  }

  /** Folding item after item is folding them all laid end to end. */
  lemma DigestStreams(step: step64, items: seq<bytes>, item: bytes)
    ensures Digest(step, items + [item]) == Fold(step, Digest(step, items), item)
    ensures Digest(step, []) == FNV64_OFFSET
  {
    hide Fold, Join;
    JoinSnoc(items, item);
    FoldConcat(step, FNV64_OFFSET, Join(items), item);
    assert Join([]) == [] && Fold(step, FNV64_OFFSET, []) == FNV64_OFFSET by {
      EmptyDigest(step);
    }
  }

  lemma EmptyDigest(step: step64)
    ensures Join([]) == [] && Fold(step, FNV64_OFFSET, []) == FNV64_OFFSET
  {
  }

  // Restore.

  /** A restore under way: the header, the digest and count so far, the target. */
  datatype Restore = Restore(header: Header, digest: u64, received: nat, target: State) {
    function Remaining(): nat {
      if header.Items() >= received then header.Items() - received else 0
    }
  }

  function Begin(h: Header): Restore {
    Restore(h, FNV64_OFFSET, 0, State(h.lastBeat, h.spawnSeq, h.nextDeadline, Book([], h.nextGoalId), Store([], h.nextStamp)))
  }

  /** The goal or entry an item names, and what follows it. */
  datatype Piece = GoalPiece(goal: Goal) | EntryPiece(entry: Entry) {
    function Item(): bytes {
      match this
      case GoalPiece(goal) => [0] + GoalBytes(goal)
      case EntryPiece(entry) => [1] + EntryBytes(entry)
    }
  }

  function TakePiece(b: bytes, wantGoal: bool): Result<(Piece, bytes), Error> {
    var tag :- TakeU8(b);
    if tag.0 == 0 && wantGoal then
      var p :- TakeGoal(tag.1);
      Ok((GoalPiece(p.0), p.1))
    else if tag.0 == 1 && !wantGoal then
      var p :- TakeEntry(tag.1);
      Ok((EntryPiece(p.0), p.1))
    else Err(SnapshotCorrupt)
  }

  lemma PieceBack(p: Piece, rest: bytes)
    requires p.GoalPiece? ==> GoalOk(p.goal)
    ensures TakePiece(p.Item() + rest, p.GoalPiece?) == Ok((p, rest))
  {
    hide GoalBytes, EntryBytes, TakeGoal, TakeEntry, TakeU8, GoalOk;
    match p {
      case GoalPiece(goal) =>
        Regroup([0], GoalBytes(goal), rest);
        U8Back(0, GoalBytes(goal) + rest);
        GoalBack(goal, rest);
      case EntryPiece(entry) =>
        Regroup([1], EntryBytes(entry), rest);
        U8Back(1, EntryBytes(entry) + rest);
        EntryBack(entry, rest);
    }
  }

  lemma PieceThere(b: bytes, wantGoal: bool)
    requires TakePiece(b, wantGoal).Ok?
    ensures var p := TakePiece(b, wantGoal).value;
            b == p.0.Item() + p.1 && p.0.GoalPiece? == wantGoal && (p.0.GoalPiece? ==> GoalOk(p.0.goal))
  {
    hide GoalBytes, EntryBytes, TakeGoal, TakeEntry, TakeU8, GoalOk;
    U8There(b);
    var tag := TakeU8(b).value;
    if wantGoal {
      GoalThere(tag.1);
      var p := TakeGoal(tag.1).value;
      Regroup([0], GoalBytes(p.0), p.1);
    } else {
      EntryThere(tag.1);
      var p := TakeEntry(tag.1).value;
      Regroup([1], EntryBytes(p.0), p.1);
    }
  }

  function Add(s: State, p: Piece): (Result<(), Error>, State) {
    match p
    case GoalPiece(goal) => var (r, book) := RestoreGoal(s.book, goal); (r, s.(book := book))
    case EntryPiece(entry) => var (r, store) := RestoreEntry(s.store, entry); (r, s.(store := store))
  }

  /** The front of `b` before `rest`. */
  function Consumed(b: bytes, rest: bytes): bytes {
    if |rest| <= |b| then b[..|b| - |rest|] else []
  }

  /** One item off the front of `b` into the target: what is left of `b`. */
  function TakeInto(step: step64, r: Restore, b: bytes): (Result<bytes, Error>, Restore) {
    if r.Remaining() == 0 then (Err(SnapshotCorrupt), r)
    else
      match TakePiece(b, r.received < r.header.goals)
      case Err(e) => (Err(e), r)
      case Ok((p, rest)) =>
        var (added, target) := Add(r.target, p);
        if added.Err? then (Err(added.error), r.(target := target))
        else (Ok(rest), Restore(r.header, Fold(step, r.digest, Consumed(b, rest)), r.received + 1, target))
  }

  /** Apply one item. Trailing bytes are refused, though by then it is applied. */
  function Push(step: step64, r: Restore, item: bytes): (Result<(), Error>, Restore) {
    var (left, after) := TakeInto(step, r, item);
    match left
    case Err(e) => (Err(e), after)
    case Ok(rest) => (if rest != [] then Err(SnapshotCorrupt) else Ok(()), after)
  }

  function Finish(r: Restore): Result<(), Error> {
    if r.Remaining() != 0 then Err(SnapshotTruncated)
    else if r.digest != r.header.digest then Err(SnapshotChecksumMismatch)
    else Ok(())
  }

  /** The items one after the other, stopping at the first error. */
  function PushAll(step: step64, r: Restore, items: seq<bytes>): (Result<(), Error>, Restore) {
    if items == [] then (Ok(()), r)
    else
      var n := |items| - 1;
      var (before, mid) := PushAll(step, r, items[..n]);
      if before.Err? then (before, mid) else Push(step, mid, items[n])
  }

  // The blob.

  function Payload(step: step64, s: State): bytes {
    HeaderBytes(HeaderOf(step, s)) + Join(Items(s))
  }

  function Encode(step: step64, s: State): bytes {
    var payload := Payload(step, s);
    payload + Le(Fold(step, FNV64_OFFSET, payload), CHECKSUM_LEN)
  }

  function Verify(step: step64, b: bytes): Result<(), Error> {
    if |b| < 1 + CHECKSUM_LEN then Err(SnapshotTruncated)
    else if b[0] != VERSION then Err(SnapshotVersionMismatch(b[0]))
    else
      var end := |b| - CHECKSUM_LEN;
      if Word64(b[end..]) != Fold(step, FNV64_OFFSET, b[..end]) then Err(SnapshotChecksumMismatch) else Ok(())
  }

  /** Items off the front of `b` until none is owed. */
  function TakeAll(step: step64, r: Restore, b: bytes): (Result<bytes, Error>, Restore)
    decreases r.Remaining()
  {
    if r.Remaining() == 0 then (Ok(b), r)
    else
      var (left, after) := TakeInto(step, r, b);
      match left
      case Err(e) => (Err(e), after)
      case Ok(rest) => TakeAll(step, after, rest)
  }

  function Decode(step: step64, b: bytes): Result<State, Error> {
    var _ :- Verify(step, b);
    DecodePayload(step, b[1..|b| - CHECKSUM_LEN])
  }

  /** What follows the version byte: the header's fields, then its items. */
  function DecodePayload(step: step64, b: bytes): Result<State, Error> {
    var fields :- TakeFields(b);
    var (left, r) := TakeAll(step, Begin(fields.0), fields.1);
    var rest :- left;
    if rest != [] || Finish(r).Err? then Err(SnapshotCorrupt) else Ok(r.target)
  }

  // States a restore accepts.

  ghost predicate BookOk(book: Book) {
    && |book.goals| <= MAX_GOALS
    && (forall i :: 0 <= i < |book.goals| ==>
          var g := book.goals[i];
          GoalOk(g) && !g.status.Running? && g.CheckEnvelope().Ok? && (book.nextId != 0 ==> g.id < book.nextId))
    && (forall i, j :: 0 <= i < j < |book.goals| ==> book.goals[i].id != book.goals[j].id)
  }

  ghost predicate StoreOk(store: Store) {
    && |store.entries| <= MAX_MEMORY
    && PinnedCount(store.entries) <= MAX_PINNED
    && (forall i :: 0 <= i < |store.entries| ==> 1 <= store.entries[i].stamp < store.nextStamp)
    && (forall i, j :: 0 <= i < j < |store.entries| ==>
          store.entries[i].key != store.entries[j].key && store.entries[i].stamp != store.entries[j].stamp)
  }

  /** A state with no running goal whose goals and entries pass revalidation. */
  ghost predicate Restorable(s: State) {
    BookOk(s.book) && StoreOk(s.store)
  }

  lemma RestoreGoalOk(book: Book, goal: Goal)
    requires BookOk(book)
    ensures RestoreGoal(book, goal).0.Ok? && GoalOk(goal) <==> BookOk(book.(goals := book.goals + [goal]))
    ensures RestoreGoal(book, goal).0.Ok? ==> RestoreGoal(book, goal).1 == book.(goals := book.goals + [goal])
  {
    hide GoalOk, Goal.CheckEnvelope;
    var after := book.(goals := book.goals + [goal]);
    if BookOk(after) {
      assert after.goals[|book.goals|] == goal;
      forall i | 0 <= i < |book.goals| ensures book.goals[i].id != goal.id {
        assert after.goals[i].id != after.goals[|book.goals|].id;
      }
    }
  }

  lemma RestoreEntryOk(store: Store, entry: Entry)
    requires StoreOk(store)
    ensures RestoreEntry(store, entry).0.Ok? <==> StoreOk(store.(entries := store.entries + [entry]))
    ensures RestoreEntry(store, entry).0.Ok? ==> RestoreEntry(store, entry).1 == store.(entries := store.entries + [entry])
  {
    hide PinnedCount;
    PinnedSnoc(store.entries, entry);
    var after := store.(entries := store.entries + [entry]);
    if StoreOk(after) {
      assert after.entries[|store.entries|] == entry;
      forall j | 0 <= j < |store.entries| ensures store.entries[j].key != entry.key && store.entries[j].stamp != entry.stamp {
        assert after.entries[j].key != after.entries[|store.entries|].key && after.entries[j].stamp != after.entries[|store.entries|].stamp;
      }
    }
  }
}
