/** The bounded memory store: superseding writes, eviction of the oldest
    unpinned entry, recall by tier and recency. */
module Memory {
  import opened Words
  import opened Core

  const MAX_MEMORY := 32
  const MAX_PINNED := 8
  const RECALL_K := 4
  const LAST_STAMP: u32 := 0xFFFF_FFFF

  datatype Key = Observation(tool: u8, args: u64) | Outcome(goal: goalId) | NoteKey(name: u64) {
    predicate Pinned() {
      NoteKey?
    }
  }

  datatype Provenance = Provenance(goal: Option<goalId>, run: Option<u64>, beat: u64)

  datatype Entry = Entry(key: Key, text: note, value: note, provenance: Provenance, stamp: u32) {
    predicate Pinned() {
      key.Pinned()
    }
  }

  /** The entries in slot order, and the stamp the next write gets. */
  datatype Store = Store(entries: seq<Entry>, nextStamp: u32)

  function KeyIndex(entries: seq<Entry>, key: Key): (r: Option<nat>)
    ensures r.Some? ==> r.value < |entries| && entries[r.value].key == key && forall j :: 0 <= j < r.value ==> entries[j].key != key
    ensures r.None? ==> forall j :: 0 <= j < |entries| ==> entries[j].key != key
  {
    FirstIndex(entries, (e: Entry) => e.key == key)
  }

  function PinnedCount(entries: seq<Entry>): (n: nat)
    ensures n <= |entries|
  {
    if entries == [] then 0
    else PinnedCount(entries[..|entries| - 1]) + if entries[|entries| - 1].Pinned() then 1 else 0
  }

  /** The first unpinned entry of the least stamp. */
  function OldestUnpinned(entries: seq<Entry>): (r: Option<nat>)
    ensures r.Some? ==> r.value < |entries|
  {
    if entries == [] then None
    else
      var n := |entries| - 1;
      var best := OldestUnpinned(entries[..n]);
      if !entries[n].Pinned() && (best.None? || entries[n].stamp < entries[best.value].stamp) then Some(n) else best
  }

  function Write(store: Store, entry: Entry): (Result<(), Error>, Store) {
    if store.nextStamp == LAST_STAMP then (Err(MemoryStampsExhausted), store)
    else
      var stamped := entry.(stamp := store.nextStamp);
      match KeyIndex(store.entries, entry.key)
      case Some(k) => (Ok(()), Store(store.entries[k := stamped], store.nextStamp + 1))
      case None =>
        if entry.Pinned() && PinnedCount(store.entries) >= MAX_PINNED then (Err(MemoryFull), store)
        else if |store.entries| < MAX_MEMORY then (Ok(()), Store(store.entries + [stamped], store.nextStamp + 1))
        else
          match OldestUnpinned(store.entries)
          case None => (Err(MemoryFull), store)
          case Some(k) => (Ok(()), Store(store.entries[k := stamped], store.nextStamp + 1))
  }

  function Without(entries: seq<Entry>, key: Key): (r: seq<Entry>)
    ensures |r| <= |entries|
  {
    if entries == [] then []
    else
      var last := entries[|entries| - 1];
      Without(entries[..|entries| - 1], key) + if last.key == key then [] else [last]
  }

  function Forget(store: Store, key: Key): (bool, Store) {
    if KeyIndex(store.entries, key).None? then (false, store) else (true, store.(entries := Without(store.entries, key)))
  }

  function RestoreEntry(store: Store, entry: Entry): (Result<(), Error>, Store) {
    if entry.stamp == 0 || entry.stamp >= store.nextStamp
       || (exists j :: 0 <= j < |store.entries| && (store.entries[j].key == entry.key || store.entries[j].stamp == entry.stamp))
       || (entry.Pinned() && PinnedCount(store.entries) >= MAX_PINNED)
       || |store.entries| >= MAX_MEMORY
    then (Err(SnapshotCorrupt), store)
    else (Ok(()), store.(entries := store.entries + [entry]))
  }

  // The invariant.

  ghost predicate Inv(store: Store) {
    && |store.entries| <= MAX_MEMORY
    && PinnedCount(store.entries) <= MAX_PINNED
    && store.nextStamp >= 1
    && (forall i :: 0 <= i < |store.entries| ==> 1 <= store.entries[i].stamp < store.nextStamp)
    && (forall i, j :: 0 <= i < j < |store.entries| ==>
          store.entries[i].key != store.entries[j].key && store.entries[i].stamp != store.entries[j].stamp)
  }

  lemma {:induction false} PinnedUpdate(entries: seq<Entry>, k: nat, e: Entry)
    requires k < |entries|
    ensures PinnedCount(entries[k := e]) == PinnedCount(entries) - (if entries[k].Pinned() then 1 else 0) + (if e.Pinned() then 1 else 0)
  {
    var n := |entries| - 1;
    if k == n {
      assert entries[k := e][..n] == entries[..n];
    } else {
      PinnedUpdate(entries[..n], k, e);
      assert entries[k := e][..n] == entries[..n][k := e];
    }
  }

  lemma PinnedSnoc(entries: seq<Entry>, e: Entry)
    ensures PinnedCount(entries + [e]) == PinnedCount(entries) + if e.Pinned() then 1 else 0
  {
    assert (entries + [e])[..|entries|] == entries;
  }

  /** The eviction victim is unpinned and of the least stamp among the unpinned;
      there is none only when every entry is pinned. */
  lemma {:induction false} OldestIsOldest(entries: seq<Entry>)
    ensures match OldestUnpinned(entries) {
              case None => forall j :: 0 <= j < |entries| ==> entries[j].Pinned()
              case Some(k) =>
                && !entries[k].Pinned()
                && forall j :: 0 <= j < |entries| && !entries[j].Pinned() ==> entries[k].stamp <= entries[j].stamp
            }
  {
    if entries != [] {
      var rest := entries[..|entries| - 1];
      OldestIsOldest(rest);
      assert forall j :: 0 <= j < |rest| ==> rest[j] == entries[j];
    }
  }

  lemma {:induction false} AllPinned(entries: seq<Entry>)
    requires forall j :: 0 <= j < |entries| ==> entries[j].Pinned()
    ensures PinnedCount(entries) == |entries|
  {
    if entries != [] {
      AllPinned(entries[..|entries| - 1]);
    }
  }

  /** The survivors of a forget, in order. */
  lemma {:induction false} WithoutKeeps(entries: seq<Entry>, key: Key)
    requires forall i, j :: 0 <= i < j < |entries| ==> entries[i].key != entries[j].key && entries[i].stamp != entries[j].stamp
    ensures forall e :: e in Without(entries, key) <==> e in entries && e.key != key
    ensures forall i, j :: 0 <= i < j < |Without(entries, key)| ==>
              Without(entries, key)[i].key != Without(entries, key)[j].key && Without(entries, key)[i].stamp != Without(entries, key)[j].stamp
  {
    if entries != [] {
      var rest, last := entries[..|entries| - 1], entries[|entries| - 1];
      WithoutKeeps(rest, key);
      assert entries == rest + [last];
      var kept := Without(rest, key);
      forall i | 0 <= i < |kept| ensures kept[i].key != last.key && kept[i].stamp != last.stamp {
        assert kept[i] in rest;
      }
    }
  }

  lemma {:induction false} WithoutPinned(entries: seq<Entry>, key: Key)
    ensures PinnedCount(Without(entries, key)) <= PinnedCount(entries)
  {
    if entries != [] {
      var rest, last := entries[..|entries| - 1], entries[|entries| - 1];
      WithoutPinned(rest, key);
      if last.key != key {
        PinnedSnoc(Without(rest, key), last);
      } else {
        assert Without(rest, key) + [] == Without(rest, key);
      }
    }
  }

  /** Replacing entry `k` by one under a new stamp and a key no other has. */
  lemma ReplaceInv(store: Store, k: nat, e: Entry)
    requires Inv(store) && k < |store.entries| && store.nextStamp < LAST_STAMP && e.stamp == store.nextStamp
    requires e.key == store.entries[k].key || (KeyIndex(store.entries, e.key).None? && !store.entries[k].Pinned())
    requires e.Pinned() && e.key != store.entries[k].key ==> PinnedCount(store.entries) < MAX_PINNED
    ensures Inv(Store(store.entries[k := e], store.nextStamp + 1))
  {
    hide PinnedCount;
    PinnedUpdate(store.entries, k, e);
  }

  lemma AppendInv(store: Store, e: Entry)
    requires Inv(store) && store.nextStamp < LAST_STAMP && e.stamp == store.nextStamp
    requires KeyIndex(store.entries, e.key).None? && |store.entries| < MAX_MEMORY
    requires e.Pinned() ==> PinnedCount(store.entries) < MAX_PINNED
    ensures Inv(Store(store.entries + [e], store.nextStamp + 1))
  {
    hide PinnedCount;
    PinnedSnoc(store.entries, e);
  }

  /** A write keeps the invariant; an unpinned one is never refused for room;
      and it answers MemoryFull exactly for a new pinned key when the pinned
      share is taken. */
  lemma WriteKeeps(store: Store, entry: Entry)
    requires Inv(store)
    ensures Inv(Write(store, entry).1)
    ensures Write(store, entry).0 == Err(MemoryFull) <==>
            store.nextStamp != LAST_STAMP && KeyIndex(store.entries, entry.key).None? && entry.Pinned() && PinnedCount(store.entries) >= MAX_PINNED
  {
    hide PinnedCount, Inv;
    var stamped := entry.(stamp := store.nextStamp);
    assert |store.entries| <= MAX_MEMORY && PinnedCount(store.entries) <= MAX_PINNED by { InvCounts(store); }
    OldestIsOldest(store.entries);
    if store.nextStamp != LAST_STAMP {
      var at := KeyIndex(store.entries, entry.key);
      if at.Some? {
        ReplaceInv(store, at.value, stamped);
      } else if !(entry.Pinned() && PinnedCount(store.entries) >= MAX_PINNED) {
        if |store.entries| < MAX_MEMORY {
          AppendInv(store, stamped);
        } else {
          if OldestUnpinned(store.entries).None? {
            AllPinned(store.entries);
          }
          ReplaceInv(store, OldestUnpinned(store.entries).value, stamped);
        }
      }
    }
  }

  lemma InvCounts(store: Store)
    requires Inv(store)
    ensures |store.entries| <= MAX_MEMORY && PinnedCount(store.entries) <= MAX_PINNED
  {
  }

  /** What a successful write leaves: the entry under the next stamp, in place
      of its own key's, else in a new last slot, else in place of exactly the
      oldest unpinned entry; everything else where it was. */
  lemma WriteMeaning(store: Store, entry: Entry)
    requires Inv(store) && Write(store, entry).0.Ok?
    ensures var after := Write(store, entry).1;
            var stamped := entry.(stamp := store.nextStamp);
            && after.nextStamp == store.nextStamp + 1
            && (if exists k :: 0 <= k < |store.entries| && store.entries[k].key == entry.key then
                  exists k :: 0 <= k < |store.entries| && store.entries[k].key == entry.key && after.entries == store.entries[k := stamped]
                else if |store.entries| < MAX_MEMORY then after.entries == store.entries + [stamped]
                else
                  exists k :: 0 <= k < |store.entries| && !store.entries[k].Pinned() && after.entries == store.entries[k := stamped]
                              && forall j :: 0 <= j < |store.entries| && j != k && !store.entries[j].Pinned() ==>
                                   store.entries[k].stamp < store.entries[j].stamp)
  {
    hide PinnedCount;
    OldestIsOldest(store.entries);
  }

  /** A pinned key leaves only by being forgotten. */
  lemma WriteKeepsPinned(store: Store, entry: Entry, key: Key)
    requires Inv(store) && key.Pinned() && KeyIndex(store.entries, key).Some?
    ensures KeyIndex(Write(store, entry).1.entries, key).Some?
  {
    hide PinnedCount;
    OldestIsOldest(store.entries);
    var k := KeyIndex(store.entries, key).value;
    var after := Write(store, entry).1.entries;
    assert after[k].key == key;
  }

  lemma ForgetKeeps(store: Store, key: Key)
    requires Inv(store)
    ensures Inv(Forget(store, key).1)
    ensures KeyIndex(Forget(store, key).1.entries, key).None?
    ensures forall e: Entry :: e.key != key ==> (e in store.entries <==> e in Forget(store, key).1.entries)
  {
    hide PinnedCount;
    WithoutKeeps(store.entries, key);
    WithoutPinned(store.entries, key);
  }

  datatype Event = WriteEvent(entry: Entry) | ForgetEvent(key: Key)

  function Step(store: Store, e: Event): Store {
    match e
    case WriteEvent(entry) => Write(store, entry).1
    case ForgetEvent(key) => Forget(store, key).1
  }

  function StoreAt(store: Store, events: seq<Event>, k: nat): Store
    requires k <= |events|
    decreases k
  {
    if k == 0 then store else Step(StoreAt(store, events, k - 1), events[k - 1])
  }

  /** Over every run: the invariant holds, no unpinned write is refused for
      room, stamps never go back, and a pinned key stays until it is forgotten. */
  lemma {:induction false} RunKeeps(store: Store, events: seq<Event>, k: nat)
    requires Inv(store) && k <= |events|
    ensures Inv(StoreAt(store, events, k))
    ensures store.nextStamp <= StoreAt(store, events, k).nextStamp
    ensures forall j :: 0 <= j < k && events[j].WriteEvent? && !events[j].entry.Pinned() ==>
              Write(StoreAt(store, events, j), events[j].entry).0 != Err(MemoryFull)
    ensures forall key: Key :: key.Pinned() && KeyIndex(store.entries, key).Some? && (forall j :: 0 <= j < k ==> events[j] != ForgetEvent(key)) ==>
              KeyIndex(StoreAt(store, events, k).entries, key).Some?
    decreases k
  {
    hide Inv, Write, Forget;
    if k > 0 {
      RunKeeps(store, events, k - 1);
      var before := StoreAt(store, events, k - 1);
      match events[k - 1] {
        case WriteEvent(entry) =>
          WriteKeeps(before, entry);
          StampGrows(before, entry);
          forall key: Key | key.Pinned() && KeyIndex(before.entries, key).Some?
            ensures KeyIndex(Write(before, entry).1.entries, key).Some?
          {
            WriteKeepsPinned(before, entry, key);
          }
        case ForgetEvent(gone) =>
          ForgetKeeps(before, gone);
          ForgetStamp(before, gone);
          forall key: Key | key != gone && KeyIndex(before.entries, key).Some?
            ensures KeyIndex(Forget(before, gone).1.entries, key).Some?
          {
            assert before.entries[KeyIndex(before.entries, key).value] in Forget(before, gone).1.entries;
          }
      }
    }
  }

  lemma StampGrows(store: Store, entry: Entry)
    ensures store.nextStamp <= Write(store, entry).1.nextStamp
  {
  }

  lemma ForgetStamp(store: Store, key: Key)
    ensures store.nextStamp == Forget(store, key).1.nextStamp
  {
  }

  lemma FreshStore()
    ensures Inv(Store([], 1))
  {
  }

  // Recall.

  /** The tier an entry is recalled in for `goal`; none for another goal's outcome. */
  function Tier(e: Entry, goal: goalId): Option<nat> {
    match e.key
    case Outcome(g) => if g == goal then Some(0) else None
    case NoteKey(_) => Some(1)
    case Observation(_, _) => if e.provenance.goal == Some(goal) then Some(2) else Some(3)
  }

  predicate Ahead(a: Entry, b: Entry, goal: goalId)
    requires Tier(a, goal).Some? && Tier(b, goal).Some?
  {
    Tier(a, goal).value < Tier(b, goal).value || (Tier(a, goal) == Tier(b, goal) && a.stamp > b.stamp)
  }

  ghost predicate Eligible(entries: seq<Entry>, goal: goalId) {
    forall i :: 0 <= i < |entries| ==> Tier(entries[i], goal).Some?
  }

  function Placed(sorted: seq<Entry>, e: Entry, goal: goalId): (r: seq<Entry>)
    requires Eligible(sorted, goal) && Tier(e, goal).Some?
    ensures Eligible(r, goal)
  {
    if sorted == [] then [e]
    else if Ahead(e, sorted[0], goal) then [e] + sorted
    else [sorted[0]] + Placed(sorted[1..], e, goal)
  }

  /** The eligible entries, by tier, newest first: what recall is measured against. */
  function Ranked(entries: seq<Entry>, goal: goalId): (r: seq<Entry>)
    ensures Eligible(r, goal)
  {
    if entries == [] then []
    else
      var rest := Ranked(entries[1..], goal);
      if Tier(entries[0], goal).Some? then Placed(rest, entries[0], goal) else rest
  }

  ghost predicate Sorted(r: seq<Entry>, goal: goalId)
    requires Eligible(r, goal)
  {
    forall i, j :: 0 <= i < j < |r| ==> Ahead(r[i], r[j], goal)
  }

  lemma {:induction false} PlacedSorted(sorted: seq<Entry>, e: Entry, goal: goalId)
    requires Eligible(sorted, goal) && Tier(e, goal).Some? && Sorted(sorted, goal)
    requires forall i :: 0 <= i < |sorted| ==> sorted[i].stamp != e.stamp
    ensures Sorted(Placed(sorted, e, goal), goal)
    ensures forall x :: x in Placed(sorted, e, goal) <==> x == e || x in sorted
  {
    if sorted != [] && !Ahead(e, sorted[0], goal) {
      PlacedSorted(sorted[1..], e, goal);
      var tail := Placed(sorted[1..], e, goal);
      assert sorted == [sorted[0]] + sorted[1..];
      assert forall i :: 0 <= i < |tail| ==> tail[i] in tail;
    }
  }

  /** The ranked list is sorted and holds exactly the eligible entries. */
  lemma {:induction false} RankedSorted(entries: seq<Entry>, goal: goalId)
    requires forall i, j :: 0 <= i < j < |entries| ==> entries[i].stamp != entries[j].stamp
    ensures Sorted(Ranked(entries, goal), goal)
    ensures forall x :: x in Ranked(entries, goal) <==> x in entries && Tier(x, goal).Some?
  {
    if entries != [] {
      RankedSorted(entries[1..], goal);
      assert entries == [entries[0]] + entries[1..];
      var rest := Ranked(entries[1..], goal);
      if Tier(entries[0], goal).Some? {
        assert forall i :: 0 <= i < |rest| ==> rest[i] in rest;
        PlacedSorted(rest, entries[0], goal);
      }
    }
  }
}
