/** The memory store as the supervisor mutates it, and recall over it. */
module MemoryDevice {
  import opened Words
  import opened Core
  import opened Memory
  import opened MemoryMeaning

  class MemoryStore {
    var slots: array<Option<Entry>>
    var nextStamp: u32
    /** The entries held, in slot order. */
    ghost var held: seq<Entry>

    /** The entries fill the first slots, with no hole. */
    ghost predicate Valid()
      reads this, slots
    {
      && slots.Length == MAX_MEMORY
      && |held| <= MAX_MEMORY
      && forall k :: 0 <= k < MAX_MEMORY ==> slots[k] == if k < |held| then Some(held[k]) else None
    }

    ghost function Contents(): Store
      reads this
    {
      Store(held, nextStamp)
    }

    /** An empty store whose stamp allocator stands at `next`. */
    constructor (next: u32)
      ensures Valid() && fresh(slots) && Contents() == Store([], next)
    {
      slots := new Option<Entry>[MAX_MEMORY](_ => None);
      nextStamp := next;
      held := [];
    }

    method Locate(key: Key) returns (at: Option<nat>)
      requires Valid()
      ensures at == KeyIndex(held, key)
    {
      for k := 0 to MAX_MEMORY
        invariant forall j :: 0 <= j < k && j < |held| ==> held[j].key != key
      {
        if slots[k].Some? && slots[k].value.key == key {
          return Some(k);
        }
      }
      return None;
    }

    method FirstFree() returns (at: Option<nat>)
      requires Valid()
      ensures at == if |held| < MAX_MEMORY then Some(|held|) else None
    {
      for k := 0 to MAX_MEMORY
        invariant k <= |held|
      {
        if slots[k].None? {
          return Some(k);
        }
      }
      return None;
    }

    lemma CountStep(entries: seq<Entry>, k: nat)
      ensures PinnedCount(entries[..0]) == 0
      ensures k < |entries| ==> PinnedCount(entries[..k + 1]) == PinnedCount(entries[..k]) + if entries[k].Pinned() then 1 else 0
    {
      if k < |entries| {
        assert entries[..k + 1][..k] == entries[..k];
      }
    }

    method CountPinned() returns (n: nat)
      requires Valid()
      ensures n == PinnedCount(held)
    {
      hide PinnedCount;
      n := 0;
      CountStep(held, 0);
      for k := 0 to MAX_MEMORY
        invariant n == PinnedCount(held[..Min(k, |held|)])
      {
        CountStep(held, k);
        if slots[k].Some? && slots[k].value.Pinned() {
          n := n + 1;
        }
      }
      assert held[..|held|] == held;
    }

    lemma OldestStep(entries: seq<Entry>, k: nat)
      ensures OldestUnpinned(entries[..0]) == None
      ensures k < |entries| ==>
                var best := OldestUnpinned(entries[..k]);
                OldestUnpinned(entries[..k + 1]) ==
                  if !entries[k].Pinned() && (best.None? || entries[k].stamp < entries[best.value].stamp) then Some(k) else best
    {
      if k < |entries| {
        assert entries[..k + 1][..k] == entries[..k];
      }
    }

    method Victim() returns (at: Option<nat>)
      requires Valid()
      ensures at == OldestUnpinned(held)
    {
      hide OldestUnpinned;
      at := None;
      OldestStep(held, 0);
      for k := 0 to MAX_MEMORY
        invariant at == OldestUnpinned(held[..Min(k, |held|)])
      {
        OldestStep(held, k);
        if slots[k].Some? && !slots[k].value.Pinned() && (at.None? || slots[k].value.stamp < slots[at.value].value.stamp) {
          at := Some(k);
        }
      }
      assert held[..|held|] == held;
    }

    method WriteEntry(entry: Entry) returns (r: Result<(), Error>)
      requires Valid()
      modifies this`held, this`nextStamp, slots
      ensures Valid() && (r, Contents()) == Write(old(Contents()), entry)
    {
      hide PinnedCount, OldestUnpinned, KeyIndex;
      if nextStamp == LAST_STAMP {
        return Err(MemoryStampsExhausted);
      }
      var stamped := entry.(stamp := nextStamp);
      var existing := Locate(entry.key);
      if existing.Some? {
        slots[existing.value] := Some(stamped);
        held := held[existing.value := stamped];
        nextStamp := nextStamp + 1;
        return Ok(());
      }
      if entry.Pinned() {
        var pinned := CountPinned();
        if pinned >= MAX_PINNED {
          return Err(MemoryFull);
        }
      }
      var index := FirstFree();
      if index.None? {
        index := Victim();
        if index.None? {
          return Err(MemoryFull);
        }
      }
      slots[index.value] := Some(stamped);
      held := if index.value == |held| then held + [stamped] else held[index.value := stamped];
      nextStamp := nextStamp + 1;
      return Ok(());
    }

    lemma WithoutStep(entries: seq<Entry>, key: Key, k: nat)
      ensures Without(entries[..0], key) == []
      ensures k < |entries| ==> Without(entries[..k + 1], key) == Without(entries[..k], key) + if entries[k].key == key then [] else [entries[k]]
    {
      if k < |entries| {
        assert entries[..k + 1][..k] == entries[..k];
      }
    }

    /** Move the survivors to the front, in order. */
    method ForgetKey(key: Key) returns (gone: bool)
      requires Valid()
      modifies this`held, this`slots
      ensures Valid() && (gone, Contents()) == Forget(old(Contents()), key)
    {
      hide Without, KeyIndex;
      var at := Locate(key);
      if at.None? {
        return false;
      }
      var kept := new Option<Entry>[MAX_MEMORY](_ => None);
      ghost var left: seq<Entry> := [];
      var n := 0;
      WithoutStep(held, key, 0);
      for k := 0 to MAX_MEMORY
        invariant slots == old(slots) && held == old(held) && fresh(kept)
        invariant left == Without(held[..Min(k, |held|)], key) && n == |left| <= Min(k, |held|)
        invariant kept.Length == MAX_MEMORY && forall j :: 0 <= j < MAX_MEMORY ==> kept[j] == if j < n then Some(left[j]) else None
      {
        WithoutStep(held, key, k);
        if slots[k].Some? && slots[k].value.key != key {
          kept[n] := slots[k];
          n := n + 1;
          left := left + [held[k]];
        }
      }
      assert held[..|held|] == held;
      slots := kept;
      held := left;
      return true;
    }

    method RestoreOne(entry: Entry) returns (r: Result<(), Error>)
      requires Valid()
      modifies this`held, slots
      ensures Valid() && (r, Contents()) == RestoreEntry(old(Contents()), entry)
    {
      hide PinnedCount;
      if entry.stamp == 0 || entry.stamp >= nextStamp {
        return Err(SnapshotCorrupt);
      }
      for k := 0 to MAX_MEMORY
        invariant forall j :: 0 <= j < k && j < |held| ==> held[j].key != entry.key && held[j].stamp != entry.stamp
      {
        if slots[k].Some? && (slots[k].value.key == entry.key || slots[k].value.stamp == entry.stamp) {
          assert held[k].key == entry.key || held[k].stamp == entry.stamp;
          return Err(SnapshotCorrupt);
        }
      }
      if entry.Pinned() {
        var pinned := CountPinned();
        if pinned >= MAX_PINNED {
          return Err(SnapshotCorrupt);
        }
      }
      var index := FirstFree();
      if index.None? {
        return Err(SnapshotCorrupt);
      }
      slots[index.value] := Some(entry);
      held := held + [entry];
      return Ok(());
    }

    /** The newest entry of tier `tier` below stamp `below`. */
    method NewestBelow(goal: goalId, tier: nat, below: u32) returns (best: Option<Entry>)
      requires Valid()
      ensures match best {
                case None => forall i :: 0 <= i < |held| ==> !(Tier(held[i], goal) == Some(tier) && held[i].stamp < below)
                case Some(e) =>
                  && e in held && Tier(e, goal) == Some(tier) && e.stamp < below
                  && forall i :: 0 <= i < |held| && Tier(held[i], goal) == Some(tier) && held[i].stamp < below ==> held[i].stamp <= e.stamp
              }
    {
      hide Tier;
      best := None;
      for k := 0 to MAX_MEMORY
        invariant best.None? ==> forall i :: 0 <= i < k && i < |held| ==> !(Tier(held[i], goal) == Some(tier) && held[i].stamp < below)
        invariant best.Some? ==>
                    && best.value in held && Tier(best.value, goal) == Some(tier) && best.value.stamp < below
                    && forall i :: 0 <= i < k && i < |held| && Tier(held[i], goal) == Some(tier) && held[i].stamp < below ==>
                         held[i].stamp <= best.value.stamp
      {
        if slots[k].Some? {
          var e := slots[k].value;
          assert e == held[k];
          if Tier(e, goal) == Some(tier) && e.stamp < below && (best.None? || e.stamp >= best.value.stamp) {
            best := Some(e);
          }
        }
      }
    }

    /** The first `n` ranked entries are exactly those in a tier before `tier`,
        or in it with a stamp of at least `below`. */
    ghost predicate Passed(ranked: seq<Entry>, goal: goalId, tier: nat, below: u32, n: nat)
      requires Eligible(ranked, goal)
    {
      n <= |ranked| && forall i :: 0 <= i < |ranked| ==>
        (i < n <==> Tier(ranked[i], goal).value < tier || (Tier(ranked[i], goal).value == tier && ranked[i].stamp >= below))
    }

    lemma SortedApart(ranked: seq<Entry>, goal: goalId, i: nat, j: nat)
      requires Eligible(ranked, goal) && Sorted(ranked, goal) && i <= j < |ranked|
      ensures i == j || Ahead(ranked[i], ranked[j], goal)
    {
    }

    /** The newest entry not yet passed in its tier is the next ranked one. */
    lemma NextRanked(entries: seq<Entry>, ranked: seq<Entry>, goal: goalId, tier: nat, below: u32, n: nat, e: Entry)
      requires Eligible(ranked, goal) && Sorted(ranked, goal) && Passed(ranked, goal, tier, below, n)
      requires forall x :: x in ranked <==> x in entries && Tier(x, goal).Some?
      requires e in entries && Tier(e, goal) == Some(tier) && e.stamp < below
      requires forall i :: 0 <= i < |entries| && Tier(entries[i], goal) == Some(tier) && entries[i].stamp < below ==> entries[i].stamp <= e.stamp
      ensures n < |ranked| && ranked[n] == e && Passed(ranked, goal, tier, e.stamp, n + 1)
    {
      hide Tier;
      assert e in ranked;
      var m :| 0 <= m < |ranked| && ranked[m] == e;
      assert n <= m;
      assert ranked[n] in ranked;
      SortedApart(ranked, goal, n, m);
      forall i | 0 <= i < |ranked|
        ensures i < n + 1 <==> Tier(ranked[i], goal).value < tier || (Tier(ranked[i], goal).value == tier && ranked[i].stamp >= e.stamp)
      {
        if i > n {
          assert Ahead(ranked[n], ranked[i], goal);
        }
      }
    }

    lemma TierDone(entries: seq<Entry>, ranked: seq<Entry>, goal: goalId, tier: nat, below: u32, n: nat)
      requires Eligible(ranked, goal) && Passed(ranked, goal, tier, below, n)
      requires forall x :: x in ranked <==> x in entries && Tier(x, goal).Some?
      requires forall i :: 0 <= i < |entries| ==> !(Tier(entries[i], goal) == Some(tier) && entries[i].stamp < below)
      requires forall i :: 0 <= i < |entries| ==> entries[i].stamp < LAST_STAMP
      ensures Passed(ranked, goal, tier + 1, LAST_STAMP, n)
    {
      hide Tier;
      forall i | 0 <= i < |ranked|
        ensures i < n <==> Tier(ranked[i], goal).value < tier + 1 || (Tier(ranked[i], goal).value == tier + 1 && ranked[i].stamp >= LAST_STAMP)
      {
        assert ranked[i] in ranked;
      }
    }

    lemma NonePassed(ranked: seq<Entry>, entries: seq<Entry>, goal: goalId)
      requires Eligible(ranked, goal) && forall i :: 0 <= i < |entries| ==> entries[i].stamp < LAST_STAMP
      requires forall x :: x in ranked <==> x in entries && Tier(x, goal).Some?
      ensures Passed(ranked, goal, 0, LAST_STAMP, 0)
    {
      forall i | 0 <= i < |ranked|
        ensures !(Tier(ranked[i], goal).value == 0 && ranked[i].stamp >= LAST_STAMP)
      {
        assert ranked[i] in ranked;
      }
    }

    lemma AllPassed(ranked: seq<Entry>, goal: goalId, n: nat)
      requires Eligible(ranked, goal) && Passed(ranked, goal, 4, LAST_STAMP, n)
      ensures n == |ranked|
    {
      if |ranked| > 0 {
        assert Tier(ranked[|ranked| - 1], goal).value < 4;
      }
    }

    /** The first `len` ranked entries, and nothing else, have been taken. */
    ghost predicate Taken(items: seq<Option<Entry>>, ranked: seq<Entry>, len: nat) {
      len <= |ranked| && forall k :: 0 <= k < |items| ==> items[k] == if k < len then Some(ranked[k]) else None
    }

    /** Take from one tier, newest first, until it or the room runs out. */
    method TakeTier(goal: goalId, tier: nat, items: array<Option<Entry>>, taken: nat, ghost ranked: seq<Entry>) returns (len: nat)
      requires Valid() && items != slots && items.Length == RECALL_K && taken < RECALL_K
      requires Eligible(ranked, goal) && Sorted(ranked, goal)
      requires forall x :: x in ranked <==> x in held && Tier(x, goal).Some?
      requires forall i :: 0 <= i < |held| ==> held[i].stamp < LAST_STAMP
      requires Passed(ranked, goal, tier, LAST_STAMP, taken) && Taken(items[..], ranked, taken)
      modifies items
      ensures taken <= len <= RECALL_K && (len < RECALL_K ==> Passed(ranked, goal, tier + 1, LAST_STAMP, len))
      ensures Taken(items[..], ranked, len)
    {
      hide Tier, Passed, Sorted, Eligible;
      len := taken;
      var below: u32 := LAST_STAMP;
      while len < RECALL_K
        invariant Valid() && taken <= len <= RECALL_K
        invariant len < RECALL_K ==> Passed(ranked, goal, tier, below, len)
        invariant Taken(items[..], ranked, len)
      {
        var next := NewestBelow(goal, tier, below);
        if next.None? {
          TierDone(held, ranked, goal, tier, below, len);
          return;
        }
        NextRanked(held, ranked, goal, tier, below, len, next.value);
        items[len] := next;
        len := len + 1;
        below := next.value.stamp;
      }
    }

    /** Recall: tier by tier, the newest entry below the last one taken, until
        four are found. It answers the first four of the ranked list. */
    method Recall(goal: goalId) returns (items: array<Option<Entry>>)
      requires Valid() && Inv(Contents())
      ensures fresh(items) && items.Length == RECALL_K
      ensures var ranked := Ranked(held, goal);
              forall k :: 0 <= k < RECALL_K ==> items[k] == if k < |ranked| then Some(ranked[k]) else None
      ensures RecallOf(items[..], held, goal)
    {
      hide RecallOf, Ranked, Tier, Passed, Sorted, PinnedCount;
      ghost var ranked := Ranked(held, goal);
      assert (forall i :: 0 <= i < |held| ==> held[i].stamp < LAST_STAMP)
             && (forall i, j :: 0 <= i < j < |held| ==> held[i].stamp != held[j].stamp);
      RankedSorted(held, goal);
      NonePassed(ranked, held, goal);
      items := new Option<Entry>[RECALL_K](_ => None);
      var len := 0;
      for tier := 0 to 4
        invariant fresh(items) && items.Length == RECALL_K
        invariant len <= RECALL_K && (len < RECALL_K ==> Passed(ranked, goal, tier, LAST_STAMP, len))
        invariant Taken(items[..], ranked, len)
      {
        if len < RECALL_K {
          len := TakeTier(goal, tier, items, len, ranked);
        }
      }
      if len < RECALL_K {
        AllPassed(ranked, goal, len);
      }
      FirstRanked(items[..], held, goal);
    }
  }
}
