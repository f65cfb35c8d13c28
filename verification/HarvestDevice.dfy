/** The harvester in place: one open effect, and a fixed list shifted left as
    entries leave it. */
module HarvestDevice {
  import opened Words
  import opened Core
  import opened Mask
  import opened MaskProofs
  import opened MaskDevice
  import opened Memory
  import Harvest

  class Harvester {
    const tools: Harvest.Tools
    const step: step64
    const provenance: Provenance
    var open: Option<Harvest.Open>
    var kept: array<Option<Entry>>
    ghost var held: seq<Entry>

    ghost predicate Valid()
      reads this, kept
    {
      && kept.Length == Harvest.MAX_OBSERVATIONS
      && |held| <= kept.Length
      && forall k :: 0 <= k < kept.Length ==> kept[k] == if k < |held| then Some(held[k]) else None
    }

    ghost function Contents(): Harvest.Harvester
      reads this
    {
      Harvest.Harvester(provenance, open, held)
    }

    constructor New(tools: Harvest.Tools, step: step64, provenance: Provenance)
      ensures Valid() && fresh(kept) && Contents() == Harvest.Fresh(provenance) && this.tools == tools
    {
      this.tools := tools;
      this.step := step;
      this.provenance := provenance;
      open := None;
      kept := new Option<Entry>[Harvest.MAX_OBSERVATIONS](_ => None);
      held := [];
    }

    /** Fill an empty list with carried entries, unless they are too many. */
    method Carry(entries: seq<Entry>) returns (r: Result<(), Error>)
      requires Valid() && held == []
      modifies this`held, kept
      ensures match Harvest.Resume(provenance, entries) {
                case Err(e) => r == Err(e)
                case Ok(h) => r == Ok(()) && Valid() && held == h.kept
              }
    {
      if |entries| > kept.Length {
        return Err(MemoryFull);
      }
      for k := 0 to |entries|
        invariant held == [] && kept == old(kept)
        invariant forall j :: 0 <= j < kept.Length ==> kept[j] == if j < k then Some(entries[j]) else None
      {
        kept[k] := Some(entries[k]);
      }
      held := entries;
      return Ok(());
    }

    /** Remove slot `index`, shifting later entries left. */
    method Remove(index: nat)
      requires Valid() && index < |held|
      modifies this`held, kept
      ensures Valid() && held == old(held)[..index] + old(held)[index + 1..]
    {
      ghost var before := held;
      for k := index to kept.Length - 1
        invariant held == before && kept.Length == Harvest.MAX_OBSERVATIONS
        invariant forall j :: 0 <= j < index ==> kept[j] == Some(before[j])
        invariant forall j :: index <= j < k ==> kept[j] == if j + 1 < |before| then Some(before[j + 1]) else None
        invariant forall j :: k <= j < kept.Length ==> kept[j] == if j < |before| then Some(before[j]) else None
      {
        kept[k] := kept[k + 1];
      }
      kept[kept.Length - 1] := None;
      held := before[..index] + before[index + 1..];
    }

    method Locate(key: Key) returns (at: Option<nat>)
      requires Valid()
      ensures at == KeyIndex(held, key)
    {
      for k := 0 to kept.Length
        invariant forall j :: 0 <= j < k && j < |held| ==> held[j].key != key
      {
        if kept[k].Some? && kept[k].value.key == key {
          return Some(k);
        }
      }
      return None;
    }

    /** Remove the entry under the same key, if there is one. */
    method Supersede(key: Key)
      requires Valid()
      modifies this`held, kept
      ensures Valid() && held == Harvest.Superseded(old(held), key)
    {
      hide KeyIndex;
      var at := Locate(key);
      if at.Some? {
        Remove(at.value);
      }
    }

    /** Drop the oldest entry of a full list. */
    method MakeRoom()
      requires Valid()
      modifies this`held, kept
      ensures Valid() && |held| < kept.Length
      ensures held == if |old(held)| >= Harvest.MAX_OBSERVATIONS then old(held)[1..] else old(held)
    {
      if kept[kept.Length - 1].Some? {
        Remove(0);
      }
    }

    /** Supersede the same key, make room, append. */
    method KeepEntry(entry: Entry)
      requires Valid()
      modifies this`held, kept
      ensures Valid() && held == Harvest.Keep(old(held), entry)
    {
      hide Harvest.Superseded, Valid;
      Supersede(entry.key);
      MakeRoom();
      Append(entry);
    }

    /** Fill the first empty slot. */
    method Append(entry: Entry)
      requires Valid() && |held| < kept.Length
      modifies this`held, kept
      ensures Valid() && held == old(held) + [entry]
    {
      var k := 0;
      while kept[k].Some?
        invariant k <= |held| < kept.Length
        decreases kept.Length - k
      {
        k := k + 1;
      }
      kept[k] := Some(entry);
      held := held + [entry];
    }

    /** Keep the open effect if it earned an entry. */
    method Seal()
      requires Valid()
      modifies this`open, this`held, kept
      ensures Valid() && Contents() == Harvest.Close(old(Contents()))
    {
      hide Harvest.Keep;
      if open.None? {
        return;
      }
      var o := open.value;
      open := None;
      if o.text.None? || o.value.None? {
        return;
      }
      if o.mutating && !o.verified {
        return;
      }
      KeepEntry(Entry(o.key, o.text.value, o.value.value, provenance, 0));
    }

    method IngestNote(raw: bytes) returns (n: Option<note>)
      ensures n == Harvest.Note(raw)
    {
      hide Ingested;
      var r := Ingest(step, raw);
      return match r case Ok(x) => Some(x) case Err(_) => None;
    }

    method Request(id: u32, tool: u8, args: bytes)
      requires Valid()
      modifies this`open, this`held, kept
      ensures Valid() && Contents() == Harvest.Step(tools, old(Contents()), Harvest.Requested(id, tool, args))
    {
      hide Harvest.Close, Harvest.Note;
      Seal();
      var text := IngestNote(Harvest.LabelOf(tools, tool, args));
      open := Some(Harvest.Open(id, Observation(tool, tools.digest(args)), text, tools.Mutating(tool), None, false));
    }

    method Observe(id: u32, ok: bool, payload: bytes)
      requires Valid()
      modifies this`open
      ensures Valid() && Contents() == Harvest.Step(tools, old(Contents()), Harvest.Observed(id, ok, payload))
    {
      hide Harvest.Note;
      if open.Some? && open.value.id == id && ok {
        var value := IngestNote(payload);
        open := Some(open.value.(value := value));
      }
    }

    method Verify(id: u32, passed: bool)
      requires Valid()
      modifies this`open
      ensures Valid() && Contents() == Harvest.Step(tools, old(Contents()), Harvest.Verified(id, passed))
    {
      if open.Some? && open.value.id == id {
        open := Some(open.value.(verified := passed));
      }
    }

    /** The run ended: the observations kept, then the goal's outcome. */
    method Complete(goal: goalId, status: TerminalStatus, summary: bytes) returns (r: Result<seq<Entry>, Error>)
      requires Valid()
      modifies this`open, this`held, kept
      ensures r == Harvest.Finish(old(Contents()), goal, status, summary)
    {
      hide Harvest.Close, Ingested, Decimal, Harvest.OutcomeText;
      Seal();
      var entries: seq<Entry> := [];
      var k := 0;
      while k < kept.Length && kept[k].Some?
        invariant k <= |held| && entries == held[..k]
      {
        entries := entries + [kept[k].value];
        k := k + 1;
      }
      assert entries == held;
      var text :- Ingest(step, Harvest.GoalLabel(goal));
      var value :- Ingest(step, Harvest.OutcomeText(status, summary));
      if |entries| >= Harvest.MAX_HARVEST {
        return Err(MemoryFull);
      }
      return Ok(entries + [Entry(Outcome(goal), text, value, provenance, 0)]);
    }
  }
}
