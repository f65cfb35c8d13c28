/** Checkpoints and restores undo each other, item by item and as one blob. */
module CheckpointRestore {
  import opened Words
  import opened Core
  import opened Codec
  import opened CheckpointCodec
  import opened Checkpoint
  import opened Ledger
  import opened Memory

  // What a restore has built after accepting `items`.

  ghost predicate Sofar(step: step64, h: Header, r: Restore, items: seq<bytes>) {
    && r.header == h
    && r.received == |items| <= h.Items()
    && r.digest == Digest(step, items)
    && r.target.(book := Book([], h.nextGoalId), store := Store([], h.nextStamp)) == Begin(h).target
    && r.target.book.nextId == h.nextGoalId
    && r.target.store.nextStamp == h.nextStamp
    && Restorable(r.target)
    && Items(r.target) == items
    && |r.target.book.goals| == Min(|items|, h.goals)
  }

  lemma BeginSofar(step: step64, h: Header)
    ensures Sofar(step, h, Begin(h), [])
  {
    hide Fold;
    DigestStreams(step, [], []);
  }

  lemma AddItem(s: State, p: Piece)
    requires Restorable(s)
    requires p.GoalPiece? ==> GoalOk(p.goal) && s.store.entries == []
    requires Add(s, p).0.Ok?
    ensures Restorable(Add(s, p).1)
    ensures Items(Add(s, p).1) == Items(s) + [p.Item()]
    ensures match p {
              case GoalPiece(goal) => Add(s, p).1 == s.(book := s.book.(goals := s.book.goals + [goal]))
              case EntryPiece(entry) => Add(s, p).1 == s.(store := s.store.(entries := s.store.entries + [entry]))
            }
  {
    hide BookOk, StoreOk, RestoreGoal, RestoreEntry, GoalBytes, EntryBytes, GoalOk;
    match p {
      case GoalPiece(goal) => RestoreGoalOk(s.book, goal);
      case EntryPiece(entry) => RestoreEntryOk(s.store, entry);
    }
  }

  /** Whatever a restore accepts, it has taken exactly one whole item: the state
      so far still encodes to the items so far. */
  lemma TakeSound(step: step64, h: Header, r: Restore, items: seq<bytes>, b: bytes)
    requires Sofar(step, h, r, items) && TakeInto(step, r, b).0.Ok?
    ensures var (left, after) := TakeInto(step, r, b);
            var item := Consumed(b, left.value);
            b == item + left.value && item != [] && Sofar(step, h, after, items + [item])
  {
    hide TakePiece, Add, Restorable, Items, Fold, Join;
    var wantGoal := r.received < h.goals;
    PieceThere(b, wantGoal);
    var (p, rest) := TakePiece(b, wantGoal).value;
    assert Consumed(b, rest) == p.Item();
    assert wantGoal ==> r.target.store.entries == [] by { Counts(r.target); }
    AddItem(r.target, p);
    DigestStreams(step, items, p.Item());
  }

  lemma Counts(s: State)
    ensures |Items(s)| == |s.book.goals| + |s.store.entries|
  {
  }

  /** And the next item of an acceptable state is accepted. */
  lemma TakeComplete(step: step64, r: Restore, p: Piece, rest: bytes)
    requires r.Remaining() > 0 && p.GoalPiece? == (r.received < r.header.goals) && (p.GoalPiece? ==> GoalOk(p.goal))
    requires Add(r.target, p).0.Ok?
    ensures TakeInto(step, r, p.Item() + rest) ==
              (Ok(rest), Restore(r.header, Fold(step, r.digest, p.Item()), r.received + 1, Add(r.target, p).1))
  {
    hide TakePiece, Add, Fold, GoalOk;
    PieceBack(p, rest);
    assert Consumed(p.Item() + rest, rest) == p.Item();
  }

  // Restoring the items of an acceptable state.

  /** The first `k` items of a state, and the state they make. */
  function Prefix(s: State, k: nat): State
    requires k <= |s.book.goals| + |s.store.entries|
  {
    if k <= |s.book.goals| then s.(book := s.book.(goals := s.book.goals[..k]), store := s.store.(entries := []))
    else s.(store := s.store.(entries := s.store.entries[..k - |s.book.goals|]))
  }

  lemma {:induction false} PinnedPrefix(entries: seq<Entry>, k: nat)
    requires k <= |entries|
    ensures PinnedCount(entries[..k]) <= PinnedCount(entries)
  {
    var n := |entries| - 1;
    if k <= n {
      PinnedPrefix(entries[..n], k);
      assert entries[..n][..k] == entries[..k];
    } else {
      assert entries[..k] == entries;
    }
  }

  lemma PrefixRestorable(s: State, k: nat)
    requires Restorable(s) && k <= |s.book.goals| + |s.store.entries|
    ensures Restorable(Prefix(s, k))
  {
    hide PinnedCount, GoalOk, Goal.CheckEnvelope;
    if k <= |s.book.goals| {
      PinnedPrefix(s.store.entries, 0);
      assert s.store.entries[..0] == [];
    } else {
      PinnedPrefix(s.store.entries, k - |s.book.goals|);
    }
  }

  function PieceAt(s: State, k: nat): Piece
    requires k < |s.book.goals| + |s.store.entries|
  {
    if k < |s.book.goals| then GoalPiece(s.book.goals[k]) else EntryPiece(s.store.entries[k - |s.book.goals|])
  }

  lemma PieceIsItem(s: State, k: nat)
    requires k < |Items(s)|
    ensures Items(s)[k] == PieceAt(s, k).Item()
  {
    hide GoalBytes, EntryBytes;
  }

  /** Once the goals are in, a prefix is the whole book and some entries. */
  lemma BoundaryPrefix(s: State, k: nat)
    requires |s.book.goals| <= k <= |s.book.goals| + |s.store.entries|
    ensures Prefix(s, k) == s.(store := s.store.(entries := s.store.entries[..k - |s.book.goals|]))
  {
    assert s.book.goals[..|s.book.goals|] == s.book.goals;
  }

  lemma NextPiece(s: State, k: nat)
    requires Restorable(s) && k < |s.book.goals| + |s.store.entries|
    ensures Add(Prefix(s, k), PieceAt(s, k)).0.Ok? && Add(Prefix(s, k), PieceAt(s, k)).1 == Prefix(s, k + 1)
    ensures PieceAt(s, k).GoalPiece? ==> GoalOk(PieceAt(s, k).goal)
  {
    hide PinnedCount, GoalOk, Goal.CheckEnvelope, RestoreGoal, RestoreEntry, BookOk, StoreOk;
    PrefixRestorable(s, k);
    PrefixRestorable(s, k + 1);
    var before := Prefix(s, k);
    if k < |s.book.goals| {
      assert s.book.goals[..k] + [s.book.goals[k]] == s.book.goals[..k + 1];
      RestoreGoalOk(before.book, s.book.goals[k]);
      assert Prefix(s, k + 1).book == before.book.(goals := before.book.goals + [s.book.goals[k]]);
    } else {
      var j := k - |s.book.goals|;
      assert s.store.entries[..j] + [s.store.entries[j]] == s.store.entries[..j + 1];
      BoundaryPrefix(s, k);
      BoundaryPrefix(s, k + 1);
      RestoreEntryOk(before.store, s.store.entries[j]);
    }
  }

  /** The restore of `s` after `k` of its items. */
  function RestoreAt(step: step64, s: State, k: nat): Restore
    requires k <= |s.book.goals| + |s.store.entries|
  {
    Restore(HeaderOf(step, s), Digest(step, Items(s)[..k]), k, Prefix(s, k))
  }

  lemma HeaderCounts(step: step64, s: State)
    requires Restorable(s)
    ensures HeaderOf(step, s).Within()
    ensures HeaderOf(step, s).goals == |s.book.goals| && HeaderOf(step, s).entries == |s.store.entries|
    ensures HeaderOf(step, s).Items() == |s.book.goals| + |s.store.entries| == |Items(s)|
  {
    hide Fold, Join, GoalOk, PinnedCount, GoalItems, EntryItems;
  }

  lemma TakeNext(step: step64, s: State, k: nat, rest: bytes)
    requires Restorable(s) && k < |Items(s)|
    ensures TakeInto(step, RestoreAt(step, s, k), Items(s)[k] + rest) == (Ok(rest), RestoreAt(step, s, k + 1))
  {
    hide Items, HeaderOf, Prefix, Add, Restorable, TakeInto, Digest, Piece.Item, GoalOk;
    HeaderCounts(step, s);
    PieceIsItem(s, k);
    NextPiece(s, k);
    TakeComplete(step, RestoreAt(step, s, k), PieceAt(s, k), rest);
    DigestStreams(step, Items(s)[..k], Items(s)[k]);
    assert Items(s)[..k] + [Items(s)[k]] == Items(s)[..k + 1];
  }

  lemma AtEnds(step: step64, s: State)
    requires Restorable(s)
    ensures RestoreAt(step, s, 0) == Begin(HeaderOf(step, s))
    ensures RestoreAt(step, s, |Items(s)|).target == s
    ensures Finish(RestoreAt(step, s, |Items(s)|)) == Ok(())
  {
    hide Restorable, Join, Fold, GoalItems, EntryItems;
    HeaderCounts(step, s);
    DigestStreams(step, [], []);
    assert Items(s)[..0] == [] && Items(s)[..|Items(s)|] == Items(s);
    assert s.book.goals[..0] == [] && s.book.goals[..|s.book.goals|] == s.book.goals;
    assert s.store.entries[..|s.store.entries|] == s.store.entries;
  }

  lemma {:induction false} RestoreItems(step: step64, s: State, k: nat)
    requires Restorable(s) && k <= |Items(s)|
    ensures PushAll(step, Begin(HeaderOf(step, s)), Items(s)[..k]) == (Ok(()), RestoreAt(step, s, k))
  {
    hide Restorable, Items, HeaderOf, RestoreAt, TakeInto, Begin;
    if k == 0 {
      AtEnds(step, s);
    } else {
      RestoreItems(step, s, k - 1);
      assert Items(s)[..k][..k - 1] == Items(s)[..k - 1];
      TakeNext(step, s, k - 1, []);
      assert Items(s)[k - 1] + [] == Items(s)[k - 1];
    }
  }

  /** Every acceptable state comes back, item by item, exactly as it was. */
  lemma RestoreExact(step: step64, s: State)
    requires Restorable(s)
    ensures var (r, done) := PushAll(step, Begin(HeaderOf(step, s)), Items(s));
            r == Ok(()) && Finish(done) == Ok(()) && done.target == s
  {
    hide Restorable, Items, HeaderOf, RestoreAt, PushAll, Finish, Begin;
    RestoreItems(step, s, |Items(s)|);
    AtEnds(step, s);
    assert Items(s)[..|Items(s)|] == Items(s);
  }

  lemma PushSound(step: step64, h: Header, r: Restore, items: seq<bytes>, item: bytes)
    requires Sofar(step, h, r, items) && Push(step, r, item).0.Ok?
    ensures Sofar(step, h, Push(step, r, item).1, items + [item])
  {
    hide Sofar, TakeInto;
    TakeSound(step, h, r, items, item);
    assert Consumed(item, []) == item;
  }

  lemma {:induction false} PushAllSound(step: step64, h: Header, items: seq<bytes>)
    requires PushAll(step, Begin(h), items).0.Ok?
    ensures Sofar(step, h, PushAll(step, Begin(h), items).1, items)
  {
    hide Sofar, Push, Begin;
    if items == [] {
      BeginSofar(step, h);
    } else {
      var n := |items| - 1;
      PushAllSound(step, h, items[..n]);
      PushSound(step, h, PushAll(step, Begin(h), items[..n]).1, items[..n], items[n]);
      assert items[..n] + [items[n]] == items;
    }
  }

  lemma FinishSound(step: step64, h: Header, r: Restore, items: seq<bytes>)
    requires h.Within() && Sofar(step, h, r, items) && Finish(r).Ok?
    ensures Restorable(r.target) && Items(r.target) == items && HeaderOf(step, r.target) == h
  {
    hide Fold, Join, Items, GoalItems, EntryItems;
    Counts(r.target);
    assert HeaderOf(step, r.target) == h;
  }

  /** Nothing else is accepted: a finished restore holds a state whose header
      and items are exactly the ones it was given. */
  lemma RestoreSound(step: step64, h: Header, items: seq<bytes>)
    requires h.Within()
    requires var (r, done) := PushAll(step, Begin(h), items); r.Ok? && Finish(done).Ok?
    ensures var s := PushAll(step, Begin(h), items).1.target;
            Restorable(s) && HeaderOf(step, s) == h && Items(s) == items
  {
    hide Sofar, PushAll, Finish, Begin, Items, HeaderOf, Restorable;
    PushAllSound(step, h, items);
    FinishSound(step, h, PushAll(step, Begin(h), items).1, items);
  }

  // The blob.

  lemma {:induction false} JoinCons(item: bytes, items: seq<bytes>)
    ensures Join([item] + items) == item + Join(items)
  {
    var all := [item] + items;
    var n := |items|;
    assert all[..n] == if n == 0 then [] else [item] + items[..n - 1];
    if n > 0 {
      JoinCons(item, items[..n - 1]);
      Regroup(item, Join(items[..n - 1]), items[n - 1]);
    } else {
      assert Join(all[..0]) == [];
    }
  }

  lemma {:induction false} TakeAllComplete(step: step64, s: State, k: nat)
    requires Restorable(s) && k <= |Items(s)|
    ensures TakeAll(step, RestoreAt(step, s, k), Join(Items(s)[k..])) == (Ok([]), RestoreAt(step, s, |Items(s)|))
    decreases |Items(s)| - k
  {
    hide Restorable, Items, HeaderOf, TakeInto, Prefix, Digest, Join;
    HeaderCounts(step, s);
    var items := Items(s);
    if k < |items| {
      assert items[k..] == [items[k]] + items[k + 1..];
      JoinCons(items[k], items[k + 1..]);
      TakeNext(step, s, k, Join(items[k + 1..]));
      TakeAllComplete(step, s, k + 1);
    } else {
      assert items[k..] == [];
      EmptyDigest(step);
    }
  }

  lemma {:induction false} TakeAllSound(step: step64, h: Header, r: Restore, done: seq<bytes>, b: bytes) returns (more: seq<bytes>)
    requires Sofar(step, h, r, done) && TakeAll(step, r, b).0.Ok?
    ensures var (left, after) := TakeAll(step, r, b);
            Sofar(step, h, after, done + more) && b == Join(more) + left.value && after.Remaining() == 0
    decreases r.Remaining()
  {
    hide Sofar, TakeInto, Join;
    if r.Remaining() == 0 {
      more := [];
      assert done + [] == done;
      EmptyDigest(step);
    } else {
      TakeSound(step, h, r, done, b);
      assert r.header == h && TakeInto(step, r, b).1.Remaining() < r.Remaining() by { Fewer(step, h, r, done, b); }
      var (left, after) := TakeInto(step, r, b);
      var item := Consumed(b, left.value);
      var rest := TakeAllSound(step, h, after, done + [item], left.value);
      more := [item] + rest;
      assert (done + [item]) + rest == done + more;
      JoinCons(item, rest);
      Regroup(item, Join(rest), TakeAll(step, r, b).0.value);
    }
  }

  lemma Fewer(step: step64, h: Header, r: Restore, done: seq<bytes>, b: bytes)
    requires Sofar(step, h, r, done) && TakeInto(step, r, b).0.Ok?
    ensures r.header == h && TakeInto(step, r, b).1.Remaining() < r.Remaining()
  {
    hide Restorable, Items, Digest, TakePiece, Add, Fold;
  }

  /** A payload and its checksum pass verification. */
  lemma Checked(step: step64, payload: bytes)
    requires payload != [] && payload[0] == VERSION
    ensures Verify(step, payload + Le(Fold(step, FNV64_OFFSET, payload), CHECKSUM_LEN)) == Ok(())
  {
    hide Fold, Le, FromLe;
    var sum := Fold(step, FNV64_OFFSET, payload);
    var b := payload + Le(sum, CHECKSUM_LEN);
    EightByteWord(sum);
    assert b[|b| - CHECKSUM_LEN..] == Le(sum, CHECKSUM_LEN) && b[..|b| - CHECKSUM_LEN] == payload;
  }

  lemma CheckedThere(step: step64, b: bytes)
    requires Verify(step, b).Ok?
    ensures |b| > CHECKSUM_LEN && b[0] == VERSION
    ensures var payload := b[..|b| - CHECKSUM_LEN];
            b == payload + Le(Fold(step, FNV64_OFFSET, payload), CHECKSUM_LEN)
  {
    hide Fold, Le, FromLe;
    LeInvertsFromLe(b[|b| - CHECKSUM_LEN..]);
  }

  lemma DecodesEncoded(step: step64, s: State)
    requires Restorable(s)
    ensures Decode(step, Encode(step, s)) == Ok(s)
  {
    hide Restorable, Items, HeaderOf, TakeAll, RestoreAt, Verify, Join, Fold, Le, FieldBytes, TakeFields, Finish, Begin;
    var h := HeaderOf(step, s);
    var payload := Payload(step, s);
    var b := Encode(step, s);
    Regroup([VERSION], FieldBytes(h), Join(Items(s)));
    assert payload == [VERSION] + (FieldBytes(h) + Join(Items(s)));
    Checked(step, payload);
    assert b[1..|b| - CHECKSUM_LEN] == FieldBytes(h) + Join(Items(s));
    HeaderCounts(step, s);
    FieldsBack(h, Join(Items(s)));
    AtEnds(step, s);
    TakeAllComplete(step, s, 0);
    assert Items(s)[0..] == Items(s);
  }

  lemma EncodesDecoded(step: step64, b: bytes)
    requires Decode(step, b).Ok?
    ensures Restorable(Decode(step, b).value) && Encode(step, Decode(step, b).value) == b
  {
    hide Restorable, Items, HeaderOf, TakeAll, Sofar, Verify, Join, Fold, Le, FieldBytes, TakeFields, Finish, Begin;
    CheckedThere(step, b);
    var payload := b[..|b| - CHECKSUM_LEN];
    var body := b[1..|b| - CHECKSUM_LEN];
    assert payload == [VERSION] + body;
    FieldsThere(body);
    var (h, rest) := TakeFields(body).value;
    BeginSofar(step, h);
    var items := TakeAllSound(step, h, Begin(h), [], rest);
    assert [] + items == items;
    var done := TakeAll(step, Begin(h), rest).1;
    FinishSound(step, h, done, items);
    assert Join(items) + [] == Join(items);
    Regroup([VERSION], FieldBytes(h), Join(items));
  }

  /** The codec is a bijection between the acceptable states and the blobs
      that decode: a blob decodes to a state exactly when the state is
      acceptable and the blob is its encoding. */
  lemma BlobExact(step: step64, b: bytes, s: State)
    ensures Decode(step, b) == Ok(s) <==> Restorable(s) && b == Encode(step, s)
  {
    hide Restorable, Decode, Encode;
    if Restorable(s) && b == Encode(step, s) {
      DecodesEncoded(step, s);
    }
    if Decode(step, b) == Ok(s) {
      EncodesDecoded(step, b);
    }
  }

  // Sizes.

  /** Capability sets of the size the state keeps them in, whatever they hold. */
  ghost predicate Stored(s: State) {
    forall k :: 0 <= k < |s.book.goals| ==> FixedSize(s.book.goals[k].capabilities)
  }

  lemma RestorableStored(s: State)
    requires Restorable(s)
    ensures Stored(s)
  {
    hide Goal.CheckEnvelope, StoreOk, Granted;
    forall k | 0 <= k < |s.book.goals| ensures FixedSize(s.book.goals[k].capabilities) {
      ShapedFixed(s.book.goals[k].capabilities);
    }
  }

  lemma ShapedFixed(v: Capabilities)
    requires Shaped(v)
    ensures FixedSize(v)
  {
  }

  lemma ItemsFit(s: State, k: nat)
    requires Stored(s) && k < |Items(s)|
    ensures 1 <= |Items(s)[k]| <= MAX_ITEM_BYTES
  {
    hide GoalBytes, EntryBytes, Items;
    PieceIsItem(s, k);
    match PieceAt(s, k) {
      case GoalPiece(goal) => GoalLength(goal);
      case EntryPiece(entry) => EntryLength(entry);
    }
  }
}
