/** What the memory store's operations mean in plain terms: which entries are
    pinned, what a forget takes out, and whom recall puts before whom. */
module MemoryMeaning {
  import opened Words
  import opened Core
  import opened Memory

  // Writes and forgets.

  /** The operator's notes are what is pinned, and they are counted one by one. */
  lemma {:induction false} PinnedExact(entries: seq<Entry>)
    ensures forall i :: 0 <= i < |entries| ==> entries[i].Pinned() == entries[i].key.NoteKey?
    ensures PinnedCount(entries) == |set i | 0 <= i < |entries| && entries[i].key.NoteKey?|
  {
    if entries != [] {
      var n := |entries| - 1;
      PinnedExact(entries[..n]);
      var before := set i | 0 <= i < n && entries[..n][i].key.NoteKey?;
      var now := set i | 0 <= i < |entries| && entries[i].key.NoteKey?;
      assert now == if entries[n].key.NoteKey? then before + {n} else before;
    }
  }

  /** A write is refused when stamps have run out, or for a ninth note under a
      new key; it then changes nothing. Every other write is done. */
  lemma WriteExact(store: Store, entry: Entry)
    requires Inv(store)
    ensures var (r, after) := Write(store, entry);
            && r == (if store.nextStamp == LAST_STAMP then Err(MemoryStampsExhausted)
                     else if && entry.key.NoteKey? && (forall i :: 0 <= i < |store.entries| ==> store.entries[i].key != entry.key)
                             && |set i | 0 <= i < |store.entries| && store.entries[i].key.NoteKey?| == MAX_PINNED
                     then Err(MemoryFull) else Ok(()))
            && (r.Err? ==> after == store)
  {
    hide PinnedCount;
    WriteKeeps(store, entry);
    PinnedExact(store.entries);
  }

  lemma {:induction false} WithoutOthers(entries: seq<Entry>, key: Key)
    requires forall i :: 0 <= i < |entries| ==> entries[i].key != key
    ensures Without(entries, key) == entries
  {
    if entries != [] {
      WithoutOthers(entries[..|entries| - 1], key);
    }
  }

  lemma {:induction false} WithoutAt(entries: seq<Entry>, k: nat)
    requires k < |entries| && forall i :: 0 <= i < |entries| && i != k ==> entries[i].key != entries[k].key
    ensures Without(entries, entries[k].key) == entries[..k] + entries[k + 1..]
  {
    var n := |entries| - 1;
    if k == n {
      WithoutOthers(entries[..n], entries[k].key);
      assert entries[n + 1..] == [];
    } else {
      WithoutAt(entries[..n], k);
      assert entries[..n][..k] == entries[..k];
      assert entries[..n][k + 1..] + [entries[n]] == entries[k + 1..];
      Regroup(entries[..k], entries[..n][k + 1..], [entries[n]]);
    }
  }

  /** Forgetting takes out exactly the entry under the key, the rest in order,
      and answers whether there was one; the allocator stays. */
  lemma ForgetExact(store: Store, key: Key)
    requires Inv(store)
    ensures forall k :: 0 <= k < |store.entries| && store.entries[k].key == key ==>
              Forget(store, key) == (true, Store(store.entries[..k] + store.entries[k + 1..], store.nextStamp))
    ensures (forall k :: 0 <= k < |store.entries| ==> store.entries[k].key != key) ==> Forget(store, key) == (false, store)
  {
    hide Without, PinnedCount;
    forall k | 0 <= k < |store.entries| && store.entries[k].key == key
      ensures Forget(store, key) == (true, Store(store.entries[..k] + store.entries[k + 1..], store.nextStamp))
    {
      WithoutAt(store.entries, k);
    }
  }

  // Recall.

  /** What may be recalled for a goal: its own outcome, any note, any observation. */
  ghost predicate Recallable(e: Entry, goal: goalId) {
    e.key == Outcome(goal) || e.key.NoteKey? || e.key.Observation?
  }

  /** `a` is recalled before `b`: the goal's own outcome before all else, notes
      before observations, observations of the goal's own runs before others,
      and within each of these the newer stamp first. */
  ghost predicate Outranks(a: Entry, b: Entry, goal: goalId) {
    if a.key == Outcome(goal) || b.key == Outcome(goal) then
      a.key == Outcome(goal) && (b.key == Outcome(goal) ==> a.stamp > b.stamp)
    else if a.key.NoteKey? || b.key.NoteKey? then
      a.key.NoteKey? && (b.key.NoteKey? ==> a.stamp > b.stamp)
    else
      var ours, theirs := a.provenance.goal == Some(goal), b.provenance.goal == Some(goal);
      (ours && !theirs) || (ours == theirs && a.stamp > b.stamp)
  }

  lemma TierMeaning(e: Entry, goal: goalId)
    ensures Tier(e, goal).Some? <==> Recallable(e, goal)
  {
  }

  lemma AheadMeaning(a: Entry, b: Entry, goal: goalId)
    requires Tier(a, goal).Some? && Tier(b, goal).Some?
    ensures Ahead(a, b, goal) <==> Outranks(a, b, goal)
  {
  }

  /** The entries of a list are recallable, each before the next. */
  ghost predicate InOrder(list: seq<Entry>, goal: goalId) {
    && (forall i :: 0 <= i < |list| ==> Recallable(list[i], goal))
    && forall i, j :: 0 <= i < j < |list| ==> Outranks(list[i], list[j], goal)
  }

  /** The ranked list is everything recallable, and nothing else, in order. */
  lemma RankedExact(entries: seq<Entry>, goal: goalId)
    requires forall i, j :: 0 <= i < j < |entries| ==> entries[i].stamp != entries[j].stamp
    ensures InOrder(Ranked(entries, goal), goal)
    ensures forall e :: e in Ranked(entries, goal) <==> e in entries && Recallable(e, goal)
  {
    hide Ranked, Tier, Ahead, Recallable, Outranks;
    RankedSorted(entries, goal);
    var r := Ranked(entries, goal);
    forall e ensures Tier(e, goal).Some? <==> Recallable(e, goal) {
      TierMeaning(e, goal);
    }
    forall i, j | 0 <= i < j < |r| ensures Outranks(r[i], r[j], goal) {
      AheadMeaning(r[i], r[j], goal);
    }
  }

  /** What recall answers: recallable entries of the store, best first, at most
      four and none twice; any other recallable entry has four before it. */
  ghost predicate RecallOf(items: seq<Option<Entry>>, entries: seq<Entry>, goal: goalId) {
    && |items| == RECALL_K
    && (forall k :: 0 <= k < |items| && items[k].Some? ==> items[k].value in entries && Recallable(items[k].value, goal))
    && (forall i, j :: 0 <= i < j < |items| && items[j].Some? ==> items[i].Some? && Outranks(items[i].value, items[j].value, goal))
    && (forall e :: e in entries && Recallable(e, goal) && Some(e) !in items ==>
          forall k :: 0 <= k < |items| ==> items[k].Some? && Outranks(items[k].value, e, goal))
  }

  lemma FirstRanked(items: seq<Option<Entry>>, entries: seq<Entry>, goal: goalId)
    requires forall i, j :: 0 <= i < j < |entries| ==> entries[i].stamp != entries[j].stamp
    requires |items| == RECALL_K
    requires var ranked := Ranked(entries, goal); forall k :: 0 <= k < RECALL_K ==> items[k] == if k < |ranked| then Some(ranked[k]) else None
    ensures RecallOf(items, entries, goal)
  {
    hide Ranked, Recallable, Outranks;
    RankedExact(entries, goal);
    var ranked := Ranked(entries, goal);
    forall k | 0 <= k < |items| && items[k].Some? ensures items[k].value in entries && Recallable(items[k].value, goal) {
      assert ranked[k] in ranked;
    }
    forall e | e in entries && Recallable(e, goal) && Some(e) !in items
      ensures forall k :: 0 <= k < |items| ==> items[k].Some? && Outranks(items[k].value, e, goal)
    {
      assert e in ranked;
      var m :| 0 <= m < |ranked| && ranked[m] == e;
      assert forall k :: 0 <= k < RECALL_K ==> items[k] != Some(e);
      assert m >= RECALL_K;
    }
  }

  /** There is only one such answer. */
  lemma RecallUnique(a: seq<Option<Entry>>, b: seq<Option<Entry>>, entries: seq<Entry>, goal: goalId, k: nat)
    requires RecallOf(a, entries, goal) && RecallOf(b, entries, goal) && k <= RECALL_K
    requires forall i, j :: 0 <= i < j < |entries| ==> entries[i].stamp != entries[j].stamp
    ensures a[..k] == b[..k]
  {
    if k > 0 {
      RecallUnique(a, b, entries, goal, k - 1);
      if a[k - 1].Some? {
        SameNext(a, b, entries, goal, k - 1);
      }
      if b[k - 1].Some? {
        SameNext(b, a, entries, goal, k - 1);
      }
      assert a[..k] == a[..k - 1] + [a[k - 1]] && b[..k] == b[..k - 1] + [b[k - 1]];
    }
  }

  lemma SameNext(a: seq<Option<Entry>>, b: seq<Option<Entry>>, entries: seq<Entry>, goal: goalId, k: nat)
    requires RecallOf(a, entries, goal) && RecallOf(b, entries, goal) && k < RECALL_K && a[..k] == b[..k] && a[k].Some?
    requires forall i, j :: 0 <= i < j < |entries| ==> entries[i].stamp != entries[j].stamp
    ensures b[k].Some? && (b[k] == a[k] || Outranks(b[k].value, a[k].value, goal))
  {
    hide Recallable, Outranks;
    var e := a[k].value;
    if Some(e) in b {
      var m :| 0 <= m < |b| && b[m] == Some(e);
      Irreflexive(e, goal);
      assert forall j :: 0 <= j < k ==> a[..k][j] == b[..k][j] && a[j] != Some(e);
      assert m >= k;
    }
  }

  lemma Irreflexive(e: Entry, goal: goalId)
    ensures !Outranks(e, e, goal)
  {
  }
}
