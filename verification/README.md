# Esper's durable state, modelled

A Dafny model of the layer of Esper that has to survive power cuts, replay
exactly and never overspend, with proofs of what that layer promises. It covers
four groups of the repository.

- **The crash-safe item log** (`Flash`, `ItemLog*`): a NOR chip on which a write
  only clears bits and a power cut lands before, or halfway through, any erase
  or program; and the two-area append log over it. The log refines a plain map
  at every cut.
- **The supervisor's state and its checkpoint** (`Ledger*`, `Memory*`, `Codec`,
  `Checkpoint*`): the goal status machine and its reserve/refund budget, the
  scheduler, the evicting memory store, and the streaming codec whose restore
  revalidates everything. Composed with the log, a checkpoint stored through
  cuts restores to the identical state.
- **Parsers and scanners** (`Mask*`, `Json`, `Validation*`, `EvalJson*`): the
  masking scanner and its room, the strict argument validator and its exact
  language, and the fixture parser and printer that undo each other.
- **Bounded summaries** (`Harvest*`, `Monitor`, `Compact*`, `Snapshot*`): each
  agrees with a rule over the whole history it summarises.

Each component has a module of values and functions, modules of lemmas about
them, and a `...Device` module holding the program's own form: classes over
arrays, cursors and loops, proved equal to the functions. What the functions
compute is stated again in plain terms, without them, in `LedgerMeaning`,
`MemoryMeaning`, `HarvestMeaning`, `MaskShapes`, `EvalJsonText`,
`EvalJsonNumbers`, `EvalJsonLanguage` and `Formats`. Bytes are integers
below 256, words are integers below their span with every wrap and saturation
written out, and the FNV hashes are an arbitrary step function: nothing here
depends on which hash it is.

Two hypotheses of the log's theorems are stated where they are used. A store
that was cut short is redelivered, the same digest, index and bytes, before
another store into that digest's area (`ItemLogRefinement.Admits`); and a new
digest is opened only while generations do not wrap and a half-programmed area
header fails its check (`ItemLogRefinement.OpensSafely`). `ItemLogRuns.FewOpens`
derives the second from a bound on how many digests a run opens, and
`ItemLogRuns.BlankRun` starts the first from a blank chip. `ItemLogLimits` shows
exactly when each is needed.

Where the code and its comments disagree the model follows the code:

- `items.rs:232-234` says a slot is reused only after an erase, but the walk at
  `items.rs:158-160` reuses any slot whose header is erased, whatever its body
  holds; `ItemLogLimits.ReuseDecides` says what that costs.
- `goal.rs:678-684` describes `insert` as taking a freshly admitted goal; the
  code checks the id, an active status, the envelope and room, and so does the
  model.
- `goal.rs:815-818` gives the refund back before the settlement can fail with
  a beat overflow; the model charges what was not refunded on that path too.
- `mask.rs:334-337` says bare runs of more than 11 digits are left alone; the
  scan goes on inside such a run and redacts exactly its last 11 digits
  (`MaskProofs.BareRun`).
- `compact.rs:510-512` calls folding idempotent. `Compact.RefeedingCounts` is a
  window for which it is not, and `Compact.RefeedingExact` says for each list
  exactly when it is.
- `snapshot.rs` rebuilds its lists by recording, so a snapshot with repeats
  decodes to fewer entries than it holds.

Running `dafny verify dfyconfig.toml` checks the whole project.

## Model

| member | source | states |
|---|---|---|
| Flash.ProgramLaws | crates/esper-board/src/ram.rs:160-180 | Programming only clears bits: over an erased cell it stores the byte, and programming a byte over itself or over what it already became changes nothing. |
| Flash.AndExact | crates/esper-board/src/ram.rs:160-180 | A programmed cell keeps exactly the bits set both in it and in the byte programmed, bit by bit. |
| Flash.WriteTakes | crates/esper-board/src/ram.rs:160-180 | A write leaves the media with some prefix of the source programmed: all of it on Ok, none when the cut lands before it, the torn half when the cut lands in it. |
| Flash.EraseTakes | crates/esper-board/src/ram.rs:142-158 | An erase leaves some leading part of its range erased and nothing else touched, whatever cut is armed. |
| Flash.RamNor.CountMutation | crates/esper-board/src/ram.rs:96-111 | Counts one mutation and answers whether it runs, is torn by the armed cut, or is refused because power is or goes off; agrees with the functional step. |
| Flash.RamNor.EraseBlocks | crates/esper-board/src/ram.rs:142-158 | Erases in place exactly as the functional erase does, error cases and a torn erase included. |
| Flash.RamNor.Program | crates/esper-board/src/ram.rs:160-180 | Programs in place exactly as the functional write does, error cases and a torn write included. |
| Flash.RamNor.ArmCut | crates/esper-board/src/ram.rs:63-65 | Arms a cut at the n-th mutation from now and changes nothing else. |
| Flash.RamNor.RestorePower | crates/esper-board/src/ram.rs:68-71 | Power comes back with no cut armed and the media as it was. |
| Flash.RamNor.Read | crates/esper-board/src/ram.rs:127-131 | Reads the cells asked for, also while power is off, and refuses a range past the end. |
| ItemLogRefinement.AppendRefines | crates/esper-board/src/items.rs:200-248 | Appending to a digest's area refines the plain map: Ok puts the item, Full changes nothing, a power cut leaves it wholly absent or wholly present; the invariant, with the store now owed, is kept. |
| ItemLogRefinement.OpenRefines | crates/esper-board/src/items.rs:252-289 | Opening an area for a new digest refines the plain map: the older digest may be gone, the newest never; the invariant is kept at every cut. |
| ItemLogLayout.AppendCases | crates/esper-board/src/items.rs:146-248 | Everything an append can leave on media, cut before or halfway through either write: the slot absent over a residue of its own body, or present with its bytes; every other cell untouched. |
| ItemLogLayout.OpenCases | crates/esper-board/src/items.rs:252-289 | Everything opening can leave on media, cut anywhere in the erase or the header: the area as it was, headerless, or open and empty; every other cell untouched. |
| ItemLogLayout.TornHeaderReads | crates/esper-board/src/items.rs:97-131 | An area header programmed only halfway reads as no header exactly when the fold of its magic, generation and erased digest is not the erased word. |
| ItemLogLayout.ParseFrame | crates/esper-board/src/items.rs:146-180 | Cells past where a walk stops do not change the slots it found. |
| ItemLogRuns.StoreRefines | crates/esper-board/src/items.rs:200-289 | What every store answers, whatever cut is armed: Full exactly when the item is over 480 bytes, or its digest is live and its area has not the room for the item's head and padded bytes; otherwise Ok exactly when power is on and no armed cut fires in its two mutations, four when it opens its digest; otherwise PowerCut. It refines the plain map, room included: a store cut short is wholly absent, wholly present, or has only used up its room; without power nothing changes. |
| ItemLogRuns.RoomExact | crates/esper-board/src/items.rs:146-231 | The room of a live digest is its area's bytes less the 20-byte header and, for every slot taken, 8 and the padded length; it is none exactly when the walk stops, with room for a head left, at a damaged length: over 480, or past the area's end. |
| ItemLogLayout.AppendPower | crates/esper-board/src/items.rs:200-248 | An append with room answers Ok exactly with power on and no cut firing in its two writes, and changes nothing without power. |
| ItemLogLayout.OpenPower | crates/esper-board/src/items.rs:252-289 | Opening answers Ok exactly with power on and no cut firing in its erase and its write, and changes nothing without power. |
| ItemLogRuns.RunRefines | crates/esper-board/src/items.rs:146-316 | By induction over a run: every prefix of the events refines a plain map whose steps allow exactly those answers. |
| ItemLogRuns.CrashRefinement | crates/esper-board/src/items.rs:146-316 | Over every run of stores, loads, power cuts and power-ons in which cut stores are redelivered, the media stands for a plain map from (digest, index) to bytes after every event: loads answer from the map, an Ok store is in it, a failed store is wholly absent or wholly present. |
| ItemLogRuns.FewOpens | crates/esper-board/src/items.rs:252-289 | The hypotheses of the run theorems from ones a caller can check beforehand: redelivery, and as many generations past the newest on media as digests are opened that fit their word and whose torn headers fail their check. |
| ItemLogRuns.BlankRun | crates/esper-board/src/items.rs:146-316 | From a blank chip, with cut stores redelivered, fewer than 2^32 openings tried and no torn header of those generations passing its check, every run answers as a plain map that starts empty, and the media stands for it after every event. |
| ItemLogRuns.ErasedChip | crates/esper-board/src/items.rs:134-180 | A blank chip stands for the empty map and owes nothing, so the run theorems start somewhere. |
| ItemLogRuns.DistinctLive | crates/esper-board/src/items.rs:134-141 | Under the invariant no digest is held by both areas. |
| ItemLogRuns.NewestSurvives | crates/esper-board/src/items.rs:200-289 | While another digest is opened and filled, at every event of every run, cuts and retries included, each item of the newest digest still looks up as before. |
| ItemLogRuns.StoredLoads | crates/esper-board/src/items.rs:200-316 | Items of a fresh digest that were once stored Ok all load at the end of the run, with at most one other digest stored in between. |
| ItemLogRuns.AllStored | crates/esper-board/src/items.rs:200-289 | Undisturbed, a digest not yet live takes every list of items that fit one area together: each store answers Ok, and the run satisfies the hypotheses of the run theorems. |
| ItemLogLimits.NewestAreaUntouched | crates/esper-board/src/items.rs:252-289 | Opening a digest no area holds changes no cell of the area with the newest generation. |
| ItemLogLimits.WrapRetiresNewest | crates/esper-board/src/items.rs:256-262 | The area just opened is the one the next digest spares exactly when its generation did not wrap past 32 bits. |
| ItemLogLimits.TornHeaderDecides | crates/esper-board/src/items.rs:97-131 | A cut halfway through a header program leaves the retry taking the same area, and so sparing the newest checkpoint, exactly when the torn header fails its check. |
| ItemLogLimits.ReuseDecides | crates/esper-board/src/items.rs:158-160 | A different item stored over a cut store's residue reads back as that item exactly when every bit it needs set is still set in the cells it is programmed over. |
| ItemLogLimits.ResidueSpoils | crates/esper-board/src/items.rs:158-160 | A concrete failing family: residue byte 0x0F under an item starting 0xF0 is stored Ok and reads back as something else. |
| ItemLogDevice.Log.HeaderOfArea | crates/esper-board/src/items.rs:97-131 | Reads an area's header in place as the functional read does: magic, generation and digest under a matching check, or none. |
| ItemLogDevice.Log.FindArea | crates/esper-board/src/items.rs:134-141 | The area holding a digest, first area first, or none. |
| ItemLogDevice.Log.CheckOf | crates/esper-board/src/items.rs:335-349 | The item check folds digest, index and bytes in that order. |
| ItemLogDevice.Log.Walk | crates/esper-board/src/items.rs:146-180 | Walks an area slot by slot to where the next item would go and the last whole copy of one index, as the functional parse says. |
| ItemLogDevice.Log.OpenArea | crates/esper-board/src/items.rs:252-289 | Erases the older or headerless area and programs a fresh header, leaving the chip as the functional open does. |
| ItemLogDevice.Log.AppendItem | crates/esper-board/src/items.rs:200-248 | Programs body first and header second, leaving the chip as the functional append does. |
| ItemLogDevice.Log.StoreItem | crates/esper-board/src/items.rs:200-248 | Stores an item, opening an area for a new digest, leaving the chip and answering as the functional store does. |
| ItemLogDevice.Log.LoadItem | crates/esper-board/src/items.rs:297-316 | Loads the last whole copy of an item: Missing when there is none, Full when the caller's room is short. |
| Core.BackoffExact | crates/esper-core/src/beat.rs:161-177 | For every streak from 1 to 255 the backoff is exactly min(base * 2^(streak-1), cap); no shift is lost and nothing wraps. |
| Core.BackoffGrows | crates/esper-core/src/beat.rs:143-177 | The backoff never shrinks as the streak grows, and under a valid policy lies between base and cap. |
| LedgerDevice.EdgesExact | crates/esper-core/src/goal.rs:308-318 | The status machine accepts exactly the rows of its table and refuses everything else as an illegal transition. |
| LedgerDevice.TransitionByTable | crates/esper-core/src/goal.rs:308-318 | Scanning the table row by row computes the status machine. |
| LedgerBudget.SpawnKeeps | crates/esper-core/src/goal.rs:749-762 | Spawning an active goal succeeds with its reservation, takes exactly the grant and one run out of what remains, and keeps the budget equations. |
| LedgerBudget.ParkKeeps | crates/esper-core/src/goal.rs:770-775 | Parking keeps the budget equations and succeeds exactly for a running goal. |
| LedgerBudget.ResumeKeeps | crates/esper-core/src/goal.rs:782-787 | Resuming keeps the budget equations and succeeds exactly for a waiting goal. |
| LedgerBudget.ControlKeeps | crates/esper-core/src/goal.rs:835-851 | Operator control keeps the budget equations and never widens an envelope. |
| LedgerBudget.RefundKeeps | crates/esper-core/src/goal.rs:797-826 | An accepted refund goes back without wrapping, and what was not refunded is charged. |
| LedgerBudget.SettlementKeeps | crates/esper-core/src/goal.rs:504-535 | The settlement decision errs only on beat overflow; otherwise it records a legal event that keeps the budget equations. |
| LedgerBudget.SettleKeeps | crates/esper-core/src/goal.rs:797-826 | Settling keeps the budget equations on every path, charging the spend even when the settlement then errs with a beat overflow after the refund. |
| LedgerBudget.RetryDiscipline | crates/esper-core/src/goal.rs:504-535 | The k-th failure in a row that reschedules does so at exactly beat + min(base * 2^(k-1), cap), with k below the limit; it fails the goal exactly when not retryable or k reaches the limit. |
| LedgerMeaning.SettleExact | crates/esper-core/src/goal.rs:489-535 | The whole settlement table, for every goal under the invariant: a goal not running or a refund past the reservation is refused and nothing changes; else the refund goes back without wrapping and stays back on overflow; a completed one-shot is satisfied; a completed standing goal recurs at exactly its cadence, is exhausted when unfunded, and errs exactly when the beat does not fit; Denied, Incompatible, StorageFault or the last failure allowed fails it; else it is exhausted when unfunded, or recurs after exactly min(base * 2^(k-1), cap), or errs. Status, due beat, streak, last status and run after each; every other goal untouched. |
| LedgerMeaning.AdmitExact | crates/esper-core/src/goal.rs:635-676 | A goal is admitted exactly when its envelope grants one of every unit, each counted pin and sensor stands in the ceiling's counted ones and its permissions are the ceiling's, its objective is nonempty and ingests, and an id and a slot are left; which error otherwise; and what it starts with. |
| LedgerMeaning.InsertExact | crates/esper-core/src/goal.rs:685-700 | Insertion takes exactly an active goal under the next id, within its envelope, with a slot free; the allocator steps on, and to 0 past the last id. |
| LedgerMeaning.EnvelopeExact | crates/esper-core/src/goal.rs:460-480 | The envelope check passes exactly when remaining plus reserved is within the grant in turns and mutations, a busy goal's runs leave one, and an idle goal reserves nothing. |
| LedgerMeaning.ReservationExact | crates/esper-core/src/goal.rs:728-739 | An active goal's reservation is, in each unit, the smaller of what is left and what one run is granted; no other status has one. |
| LedgerMeaning.SpawnExact | crates/esper-core/src/goal.rs:749-762 | A spawn succeeds exactly for an active goal and its reservation; it moves the grant from remaining to reserved, takes one run, sets the run and the status, without wrapping, and touches no other goal. |
| LedgerMeaning.ParkExact | crates/esper-core/src/goal.rs:770-787 | Parking and resuming, exactly: which status each needs, and the one field each changes beside it. |
| LedgerMeaning.ControlExact | crates/esper-core/src/goal.rs:835-851 | Operator control, exactly: busy goals are left alone; pause, unpause (due no earlier than now) and retire only from their own statuses; anything else is an illegal transition. |
| LedgerBudget.StepKeeps | crates/esper-core/src/goal.rs:685-871 | Every operation of the ledger keeps the invariant, and none answers a widened envelope. |
| LedgerRuns.RunConserves | crates/esper-core/src/goal.rs:460-475 | Over every run, for every goal: remaining + reserved + spent equals the envelope in turns and mutations, remaining runs + runs started equals the runs granted, ids grow in slot order, and no envelope check ever fails. |
| LedgerRuns.SpawnsBounded | crates/esper-core/src/goal.rs:749-762 | Without new admissions, spawns so far plus runs left never exceed the runs left at the start. |
| LedgerRuns.PickIsLeast | crates/esper-core/src/goal.rs:705-718 | The pick is the unique least eligible goal: waiting with input by (priority, id), else active and due by (priority, due, id); idle exactly when there is none. |
| LedgerMeaning.PickExact | crates/esper-core/src/goal.rs:705-718 | The pick spelled out field by field: a waiting goal with input before which no other comes by higher priority, then lower id; else a due active one by higher priority, then earlier due beat, then lower id; else idle. |
| LedgerMeaning.ReapExact | crates/esper-core/src/goal.rs:860-871 | Reaping leaves exactly the goals that are active, running, waiting or paused, in order, and counts the rest. |
| LedgerRuns.PickIsExecutable | crates/esper-core/src/goal.rs:705-787 | Whatever is picked can be done: a spawn has a reservation of at least one turn and one mutation and succeeds with it, a resume succeeds. |
| LedgerRuns.ReapInvisible | crates/esper-core/src/goal.rs:860-871 | After a reap, every later answer on live goals and every later pick is what it would have been without it. |
| LedgerDevice.GoalLedger.InsertGoal | crates/esper-core/src/goal.rs:685-700 | Takes a freshly numbered active goal into the first free slot as the functional insert does, allocator advanced. |
| LedgerDevice.GoalLedger.ReservationOf | crates/esper-core/src/goal.rs:728-739 | The reservation a spawn would take, or why there is none. |
| LedgerDevice.GoalLedger.SpawnGoalRun | crates/esper-core/src/goal.rs:749-762 | Spawns in place as the functional spawn does; a grant other than the reservation is refused. |
| LedgerDevice.GoalLedger.ParkGoalRun | crates/esper-core/src/goal.rs:770-775 | Parks in place as the functional park does. |
| LedgerDevice.GoalLedger.ResumeGoalRun | crates/esper-core/src/goal.rs:782-787 | Resumes in place as the functional resume does. |
| LedgerDevice.GoalLedger.SettleGoalRun | crates/esper-core/src/goal.rs:797-826 | Settles in place as the functional settle does, refund first. |
| LedgerDevice.GoalLedger.ControlGoal | crates/esper-core/src/goal.rs:835-851 | Applies operator control in place: busy first, then operator events, then the machine. |
| LedgerDevice.GoalLedger.ReapGoals | crates/esper-core/src/goal.rs:860-871 | Drops terminal goals in place, survivors moved to the front in order, and counts them. |
| LedgerDevice.GoalLedger.RestoreOne | crates/esper-core/src/goal.rs:935-951 | Appends one restored goal only if it passes the allocator, status, envelope, uniqueness and capacity checks. |
| Memory.WriteKeeps | crates/esper-core/src/memory.rs:245-278 | A write keeps the store invariant, and answers MemoryFull exactly for a new pinned key when the pinned share is taken; an unpinned write never does. |
| Memory.WriteMeaning | crates/esper-core/src/memory.rs:245-278 | A successful write puts the entry under the next stamp in place of its own key, else in a new last slot, else in place of exactly the oldest unpinned entry, and moves nothing else. |
| Memory.WriteKeepsPinned | crates/esper-core/src/memory.rs:245-278 | No write removes a pinned key. |
| Memory.ForgetKeeps | crates/esper-core/src/memory.rs:286-299 | Forgetting keeps the invariant and removes exactly the entry under the key. |
| Memory.RunKeeps | crates/esper-core/src/memory.rs:245-299 | Over every run of writes and forgets: keys and stamps stay unique and below the allocator, at most 8 entries are pinned, stamps never go back, no unpinned write is refused for room, and a pinned key stays until it is forgotten. |
| Memory.RankedSorted | crates/esper-core/src/memory.rs:388-416 | The ranked list recall is measured against is sorted by tier and then newest first, and holds exactly the eligible entries: another goal's outcomes are not among them. |
| MemoryMeaning.WriteExact | crates/esper-core/src/memory.rs:226-278 | A write is refused exactly when stamps have run out, or for a note under a new key when eight notes are held; it then changes nothing. |
| MemoryMeaning.ForgetExact | crates/esper-core/src/memory.rs:286-299 | Forgetting takes out exactly the entry under the key, the rest in order, and answers whether there was one. |
| MemoryMeaning.RankedExact | crates/esper-core/src/memory.rs:380-416 | The ranked list holds exactly the goal's own outcome, the notes and the observations, in that order, observations of the goal's own runs first, newest stamp first within each: no other goal's outcome is in it. |
| MemoryMeaning.FirstRanked | crates/esper-core/src/memory.rs:388-416 | The first four ranked entries are what recall promises: each recallable, best first, and any other recallable entry has four before it. |
| MemoryMeaning.RecallUnique | crates/esper-core/src/memory.rs:388-416 | No other answer keeps that promise. |
| MemoryDevice.MemoryStore.WriteEntry | crates/esper-core/src/memory.rs:245-278 | Writes in place as the functional write does. |
| MemoryDevice.MemoryStore.ForgetKey | crates/esper-core/src/memory.rs:286-299 | Forgets in place, survivors moved to the front in order, as the functional forget does. |
| MemoryDevice.MemoryStore.RestoreOne | crates/esper-core/src/memory.rs:337-354 | Appends one restored entry only if its stamp, key, pinned share and capacity pass. |
| MemoryDevice.MemoryStore.NewestBelow | crates/esper-core/src/memory.rs:388-416 | The newest entry of one tier below a stamp, or none. |
| MemoryDevice.MemoryStore.Recall | crates/esper-core/src/memory.rs:388-416 | The repeated take-the-newest-below loop answers the goal's own outcome, notes, its own observations, then others, newest first, at most four, none twice, no other goal's outcome, and leaves a recallable entry out only when four come before it. |
| CheckpointCodec.GoalBack | crates/esper-core/src/checkpoint.rs:755-813 | A goal's bytes decode to the goal and leave what follows them. |
| CheckpointCodec.GoalThere | crates/esper-core/src/checkpoint.rs:596-636 | Bytes that decode to a goal are that goal's encoding, and the goal has a valid envelope, real capabilities and a run exactly while busy. |
| CheckpointCodec.EntryBack | crates/esper-core/src/checkpoint.rs:815-845 | A memory entry's bytes decode to the entry and leave what follows them. |
| CheckpointCodec.EntryThere | crates/esper-core/src/checkpoint.rs:638-654 | Bytes that decode to an entry are that entry's encoding. |
| CheckpointCodec.CapabilitiesThere | crates/esper-core/src/checkpoint.rs:727-753 | Capabilities decode only when every counted pin and sensor is real, and only from their own encoding. |
| CheckpointCodec.StandingThere | crates/esper-core/src/checkpoint.rs:755-813 | Status, schedule and run decode only when a run is present exactly for a busy goal, and only from their own encoding. |
| CheckpointCodec.GoalLength | crates/esper-core/src/checkpoint.rs:72-73 | A goal, whatever its sets hold, takes 94 bytes and its objective, at most the stated maximum. |
| CheckpointCodec.EntryLength | crates/esper-core/src/checkpoint.rs:75 | An entry never exceeds the stated maximum. |
| CheckpointCodec.HeaderLength | crates/esper-core/src/checkpoint.rs:69 | A header takes exactly 37 bytes. |
| CheckpointCodec.HeaderExact | crates/esper-core/src/checkpoint.rs:248-301 | A header decodes from exactly its own bytes, and only with counts within the ledger's and store's capacity. |
| Checkpoint.ItemsAreEncoded | crates/esper-core/src/checkpoint.rs:156-175 | Encoding item i gives entry i of the item list, goals first, and fails exactly past the end. |
| Checkpoint.DigestStreams | crates/esper-core/src/checkpoint.rs:106-112 | Folding item after item is the digest of all of them laid end to end. |
| Checkpoint.RestoreGoalOk | crates/esper-core/src/goal.rs:935-951 | Revalidation accepts a decoded goal exactly when the book with it is acceptable. |
| Checkpoint.RestoreEntryOk | crates/esper-core/src/memory.rs:337-354 | Revalidation accepts an entry exactly when the store with it is acceptable. |
| CheckpointRestore.TakeSound | crates/esper-core/src/checkpoint.rs:370-385 | Whatever one restore step accepts was exactly one whole item: the state so far still encodes to the items so far, with their count and digest. |
| CheckpointRestore.RestoreExact | crates/esper-core/src/checkpoint.rs:319-402 | Pushing every item of an acceptable state through a restore of its header succeeds, finishes Ok and leaves exactly that state. |
| CheckpointRestore.RestoreSound | crates/esper-core/src/checkpoint.rs:319-402 | A restore that finishes holds a state whose header and items are exactly the ones it was given. |
| CheckpointRestore.DecodesEncoded | crates/esper-core/src/checkpoint.rs:456-502 | decode(encode(s)) = s for every acceptable state. |
| CheckpointRestore.EncodesDecoded | crates/esper-core/src/checkpoint.rs:456-502 | A blob that decodes is the encoding of what it decodes to, and that state is acceptable. |
| CheckpointRestore.BlobExact | crates/esper-core/src/checkpoint.rs:456-527 | A blob decodes to a state exactly when the state is acceptable and the blob is its encoding. |
| CheckpointRestore.Checked | crates/esper-core/src/checkpoint.rs:510-527 | A payload followed by its checksum passes verification. |
| CheckpointRestore.CheckedThere | crates/esper-core/src/checkpoint.rs:510-527 | What passes verification has the version byte first and is a payload followed by its checksum. |
| CheckpointRestore.ItemsFit | crates/esper-core/src/checkpoint.rs:81-85 | Every item of a state whose sets have their storage size is nonempty and fits the item buffer. |
| CheckpointReach.AdmittedShaped | crates/esper-core/src/goal.rs:635-676 | Capabilities that do not widen a real ceiling are real: every counted pin and sensor exists. |
| CheckpointReach.StepOk | crates/esper-core/src/goal.rs:685-871 | No operation of the ledger makes a goal that a restore would refuse to decode. |
| CheckpointReach.ReachedRestores | crates/esper-core/src/checkpoint.rs:319-502 | Every state the supervisor can reach, by any run of its ledger and memory, with no goal mid-run, comes back from its checkpoint exactly, as a blob and item by item. |
| CheckpointLog.CheckpointComesBack | crates/esper-core/src/checkpoint.rs:156-402 | End to end: items of an acceptable state stored under its digest through cuts and redeliveries, each once Ok, with stores to one other digest between, load in order and restore to exactly that state. |
| CheckpointLog.CheckpointGoesThrough | crates/esper-board/src/items.rs:200-316 | Undisturbed, an acceptable state's checkpoint whose items fit one area always goes through: every store answers Ok, and loading and restoring gives the state back. |
| CheckpointLog.TakenBounded | crates/esper-core/src/checkpoint.rs:81-85 | The items of a checkpoint take at most 172 bytes each of the area, and 20 for its header. |
| CheckpointLog.LastCheckpointHolds | crates/esper-core/src/checkpoint.rs:319-402 | At every cut inside opening and filling another digest, the newest checkpoint recovers to what it recovered to before. |
| CheckpointLog.RecoveredMatches | crates/esper-core/src/checkpoint.rs:370-402 | Whatever the media holds, a recovery that finishes yields an acceptable state whose own header is the one asked for. |
| CheckpointSink.Sink.PutBytes | crates/esper-core/src/checkpoint.rs:556-566 | Puts all the bytes after what was put before, or nothing and an error; a counting sink only moves its cursor. |
| CheckpointSink.Sink.PutCapabilities | crates/esper-core/src/checkpoint.rs:617-625 | Appends the capabilities' encoding field by field, or fails for room. |
| CheckpointSink.Sink.PutGoal | crates/esper-core/src/checkpoint.rs:596-636 | Appends a goal's encoding field by field, or fails for room. |
| CheckpointSink.Sink.PutEntry | crates/esper-core/src/checkpoint.rs:638-654 | Appends an entry's encoding field by field, or fails for room. |
| CheckpointSink.Sink.PutHeader | crates/esper-core/src/checkpoint.rs:248-258 | Appends a header's encoding field by field, or fails for room. |
| CheckpointSink.Reader.Take | crates/esper-core/src/checkpoint.rs:667-678 | Takes n bytes off what is left, or fails as truncated and moves nothing. |
| CheckpointSink.Reader.ReadFlag | crates/esper-core/src/checkpoint.rs:700-706 | Reads a flag: 0 or 1, anything else is corrupt. |
| CheckpointSink.Reader.ReadNote | crates/esper-core/src/checkpoint.rs:708-714 | Reads a note: overlong is corrupt, short is truncated. |
| CheckpointSink.Reader.ReadRun | crates/esper-core/src/checkpoint.rs:716-724 | Reads an optional run id: an absent one must be zero. |
| CheckpointSink.Reader.ReadGoal | crates/esper-core/src/checkpoint.rs:755-813 | Reads a goal with the errors, in the order, of the functional decoder. |
| CheckpointSink.Reader.ReadEntry | crates/esper-core/src/checkpoint.rs:815-845 | Reads an entry with the errors, in the order, of the functional decoder. |
| CheckpointSink.Reader.ReadFields | crates/esper-core/src/checkpoint.rs:286-301 | Reads a header's fields, refusing counts past capacity. |
| CheckpointSink.DecodeHeaderBytes | crates/esper-core/src/checkpoint.rs:269-284 | Decodes exactly one header: version before anything else, trailing bytes corrupt. |
| CheckpointDevice.EncodeItemInto | crates/esper-core/src/checkpoint.rs:156-175 | Writes item i at the front of a buffer and answers its length, or why not. |
| CheckpointDevice.ItemsDigest | crates/esper-core/src/checkpoint.rs:180-199 | Digesting items through one item-sized buffer gives the digest of the whole list. |
| CheckpointDevice.MakeHeader | crates/esper-core/src/checkpoint.rs:180-199 | The header carries the counters, allocators, counts and the digest over every item. |
| CheckpointDevice.EncodeInto | crates/esper-core/src/checkpoint.rs:456-471 | Writes the blob and answers its length exactly when it fits. |
| CheckpointDevice.EncodedLen | crates/esper-core/src/checkpoint.rs:442-447 | The counted length is exactly the blob's. |
| CheckpointDevice.Target.Reset | crates/esper-core/src/checkpoint.rs:319-327 | The target becomes the header's counters and empty, allocator-positioned stores. |
| CheckpointDevice.Restorer.ReadInto | crates/esper-core/src/checkpoint.rs:370-385 | One item off the reader into the caller's stores in place, folded into the digest, as the functional step does, error cases included. |
| CheckpointDevice.Restorer.PushItem | crates/esper-core/src/checkpoint.rs:355-366 | Applies one item; trailing bytes are refused though the item is then applied. |
| CheckpointDevice.Restorer.Close | crates/esper-core/src/checkpoint.rs:394-402 | Finishing answers truncated while items are owed, then a digest mismatch, then Ok. |
| CheckpointDevice.VerifyBlob | crates/esper-core/src/checkpoint.rs:510-527 | Length, then version, then checksum, in that order. |
| CheckpointDevice.DecodeBlob | crates/esper-core/src/checkpoint.rs:482-502 | Decoding a blob into fresh stores answers and leaves what the functional decode says. |
| MaskProofs.ScanExact | crates/esper-core/src/mask.rs:105-159 | The scan's spans are in order, apart and at least 6 bytes; each is a shape spelled out byte by byte: a secret or a phone number where it begins, or the address around an @ no byte of whose local part begins either; a byte in none begins no secret and no phone number, and is the @ of an address only when a span reaches into its local part. |
| MaskProofs.ScanUnique | crates/esper-core/src/mask.rs:105-159 | Only one list of spans is so: what is redacted is determined by the shapes alone. |
| MaskShapes.SecretExact | crates/esper-core/src/mask.rs:227-302 | A secret of n bytes stands at a place exactly when: an opening PEM line and everything through the end of the first closing line within 2048 bytes; sk_live_, sk_test_, github_pat_, sk-, Bearer or bearer and the longest run of token bytes, cut at 128, of at least 16; or AKIA and sixteen letters or digits. Over literal bytes. |
| MaskShapes.PhoneExact | crates/esper-core/src/mask.rs:338-370 | A phone number stands exactly where a digit, or a + before one, begins a run of digits and separators that, trimmed, has 7 to 15 digits, and no more than 11 when no separator is among them. Over literal bytes. |
| MaskShapes.EmailExact | crates/esper-core/src/mask.rs:310-332 | An address stands around an @ exactly with at least one local byte to its left, all of them taken, and to its right all domain bytes, trailing dots off, at least four with a dot among them. Over literal bytes. |
| MaskShapes.MarkerText | crates/esper-core/src/mask.rs:205-220 | A marker reads [redacted:secret# or [redacted:pii#, the span's number in decimal, and ]. |
| MaskProofs.MaskPartitions | crates/esper-core/src/mask.rs:105-159 | Putting the redacted bytes back where their markers stand gives the input, so every byte survives once, in order, or lies in exactly one span; and the masked text fits the bound. |
| MaskProofs.TailIsLiteral | crates/esper-core/src/mask.rs:128-136 | The output ends in an email's local part exactly when that part was all copied since the last marker: markers end in a byte no local part has. |
| MaskProofs.BareRun | crates/esper-core/src/mask.rs:338-370 | A bare run of at least 7 digits, followed by neither a digit nor a separator and not reached into by an earlier span, loses exactly its last 11 digits, or all of them when it has no more: the comment that runs of more than 11 are left alone holds for none. |
| MaskProofs.AllDigits | crates/esper-core/src/mask.rs:338-370 | A text of digits alone has no span below 7 digits, and otherwise one, over its last 11. |
| MaskProofs.RoomUsed | crates/esper-core/src/mask.rs:60-75 | The text so far is at most the bytes scanned plus 22 per span, and the spans are at least 6 bytes each. |
| MaskProofs.MarkerFits | crates/esper-core/src/mask.rs:205-220 | Every marker is at most 28 bytes and ends in a closing bracket. |
| MaskDevice.TokenAt | crates/esper-core/src/mask.rs:255-265 | The token loop finds the prefixed token shape, 16 to 128 tail characters. |
| MaskDevice.AkiaAt | crates/esper-core/src/mask.rs:268-275 | The access-key shape: AKIA and exactly 16 alphanumerics. |
| MaskDevice.PemAt | crates/esper-core/src/mask.rs:280-298 | The PEM scan finds the first closing line inside the window and takes its whole line. |
| MaskDevice.SecretAt | crates/esper-core/src/mask.rs:227-250 | The secret shapes are tried in the fixed order. |
| MaskDevice.FindEmail | crates/esper-core/src/mask.rs:310-332 | The email scan: local part to the left, domain to the right without trailing dots, at least 4 bytes with a dot. |
| MaskDevice.FindPhone | crates/esper-core/src/mask.rs:338-370 | The phone scan: 7 to 15 digits, trailing separators trimmed, at most 11 when nothing separates them. |
| MaskDevice.PutDecimal | crates/esper-core/src/mask.rs:181-202 | The span number is written in decimal, or fails for room. |
| MaskDevice.EmitMarker | crates/esper-core/src/mask.rs:205-220 | A marker is written whole, or fails for room. |
| MaskDevice.EndsLiterally | crates/esper-core/src/mask.rs:128-136 | The tail-equals-head test decides exactly whether the email's local part is still unmasked, and says what the rewound text is. |
| MaskDevice.MaskReport | crates/esper-core/src/mask.rs:105-159 | Refused exactly when the output is smaller than the bound, never out of room after that; the output is the masked text, the count saturates, and the secret digest hashes exactly the secret spans in order. |
| MaskDevice.Ingested | crates/esper-core/src/memory.rs:54-71 | Ingestion succeeds exactly up to 512 bytes and yields at most 64 bytes with no control byte. |
| MaskDevice.Ingest | crates/esper-core/src/memory.rs:54-71 | Mask, cut and sanitize through the scratch buffer, which is always large enough. |
| ValidationProofs.DocAccepted | crates/esper-protocol/src/validate.rs:113-172 | Every document of a contract, its members in any order with spaces before and between tokens, is accepted and binds what it says. |
| ValidationProofs.AcceptedIsDoc | crates/esper-protocol/src/validate.rs:113-172 | Whatever is accepted is the text of a document of the contract: distinct contract names covering the required ones, canonical in-range decimals or literal options, nothing after the object. |
| ValidationProofs.ValidateExact | crates/esper-protocol/src/validate.rs:113-172 | The exact language: bytes are accepted precisely when they are the text of a document, and what is bound is what any such document says. |
| ValidationProofs.OrderFree | crates/esper-protocol/src/validate.rs:147-171 | Documents that say the same bind the same, whatever their member order and spacing. |
| ValidationProofs.BoundInOrder | crates/esper-protocol/src/validate.rs:147-171 | The bound fields are exactly the seen arguments, in contract order, each under the contract's name with its value. |
| ValidationProofs.NumberThere | crates/esper-protocol/src/json.rs:243-288 | A number made of digits alone is a plain decimal without leading zeros. |
| ValidationProofs.RawExact | crates/esper-protocol/src/json.rs:190-242 | A string's raw content is exactly bytes from a space up that are no quote or backslash, the eight short escapes, and \u with four hex digits, end to end. |
| ValidationProofs.CheckExact | crates/esper-protocol/src/validate.rs:175-212 | What each value is taken for, literally: a number by at most 3 or 5 plain digits, within its type and its range; an option by the first of 256 that spells it; and which error otherwise. |
| ValidationProofs.BindExact | crates/esper-protocol/src/validate.rs:113-170 | Binding fails exactly at the first required argument nobody gave. |
| ValidationProofs.TakeStringThere | crates/esper-protocol/src/json.rs:207-241 | A string read is raw content with only legal escapes between quotes. |
| ValidationDevice.Parser.ParseString | crates/esper-protocol/src/json.rs:207-225 | The string loop takes the raw content through its closing quote, or fails as the functional reader does. |
| ValidationDevice.Parser.ParseNumber | crates/esper-protocol/src/json.rs:243-288 | The number loop takes the longest strict number, or fails as the functional reader does. |
| ValidationDevice.Parser.ParseValue | crates/esper-protocol/src/json.rs:112-142 | One value after spaces: scalars by their bytes, composites entered one level deeper, at most 3. |
| ValidationDevice.ObjectCursor.NextEntry | crates/esper-protocol/src/json.rs:325-377 | The next entry or the end: separators, duplicate keys against the fixed table, at most 8 keys, then the value. |
| ValidationDevice.ParseDecimal | crates/esper-protocol/src/json.rs:448-492 | Digit strings parse within a width and a top, stopping at the first byte that spoils them. |
| ValidationDevice.CheckValue | crates/esper-protocol/src/validate.rs:175-212 | One value against one argument: type, then number, then range, or the first option spelled. |
| ValidationDevice.ReadMembers | crates/esper-protocol/src/validate.rs:127-144 | The member loop fills the table in JSON order and never runs out of slots. |
| ValidationDevice.BindAll | crates/esper-protocol/src/validate.rs:147-171 | The table is bound in contract order, failing at the first required argument that is missing. |
| ValidationDevice.BoundArgs.Get | crates/esper-protocol/src/validate.rs:59-67 | Looking a name up gives a field bound under it, or none when no field is. |
| ValidationDevice.ValidateArgs | crates/esper-protocol/src/validate.rs:113-172 | The validator answers and binds what the functional validator says, for every contract and input. |
| EvalJsonProofs.ParseUndoesRender | crates/esper-eval/src/json.rs:138-232 | For every float-free value with unique keys, parsing its rendering succeeds exactly when it nests within the limit, and gives the value back in canonical form, canonically equal to it. |
| EvalJsonLanguage.ParseExact | crates/esper-eval/src/json.rs:218-507 | The exact language of the fixture parser: bytes parse to a value precisely when they are that value as written: any spaces between tokens and round the whole, literals, numbers by sign, digits, fraction and exponent (an integer in 64-bit range, else a float as its text), strings by their pieces, lists and objects comma by comma with no key twice, nested no deeper than the limit. |
| EvalJsonLanguage.FormBack | crates/esper-eval/src/json.rs:291-507 | Every value as written parses to what it means, wherever a value may end. |
| EvalJsonLanguage.FormThere | crates/esper-eval/src/json.rs:291-507 | Whatever parses was some value as written, with the spaces before it. |
| EvalJsonText.StringExact | crates/esper-eval/src/json.rs:432-507 | A string is decoded to given bytes exactly when it spells, up to its quote, raw bytes, short escapes and scalars by four hex digits in either case or a surrogate pair, which stand for those bytes. |
| EvalJsonText.PieceBack | crates/esper-eval/src/json.rs:456-507 | Every escape's spelling is read as what it stands for: the eight short ones by their literal bytes, a scalar by its UTF-8 sequence. |
| EvalJsonText.EncodeExact | crates/esper-eval/src/json.rs:441-446 | The bytes emitted for a scalar are the one UTF-8 sequence whose payload bits, read back, are that scalar. |
| EvalJsonText.TextExact | crates/esper-eval/src/json.rs:452-453 | Text passes as valid exactly when it is some scalars' sequences end to end. |
| EvalJsonNumbers.NumberBack | crates/esper-eval/src/json.rs:382-430 | A number by its parts is read as the integer or float it stands for. |
| EvalJsonNumbers.NumberThere | crates/esper-eval/src/json.rs:382-430 | Whatever is read as a number is such parts. |
| EvalJsonText.EscapeExact | crates/esper-eval/src/json.rs:189-211 | What the renderer writes for each byte: itself, a short escape, or two lower-case hex digits. |
| EvalJsonText.LessExact | crates/esper-eval/src/json.rs:170-174 | Keys are ordered byte by byte, a prefix first. |
| EvalJsonProofs.ParseRender | crates/esper-eval/src/json.rs:218-379 | The same for any depth limit, with the error a deeper value gets. |
| EvalJsonProofs.RenderExact | crates/esper-eval/src/json.rs:111-186 | Two values render alike exactly when they are canonically equal. |
| EvalJsonProofs.CanonAreEqual | crates/esper-eval/src/json.rs:111-131 | Values with the same canonical form are canonically equal. |
| EvalJsonProofs.EqualHaveCanon | crates/esper-eval/src/json.rs:111-131 | Canonically equal values have the same canonical form. |
| EvalJsonProofs.OrderedKeys | crates/esper-eval/src/json.rs:169-171 | Sorting a set of unique keys gives them all, in strictly increasing order. |
| EvalJsonProofs.DecodeBack | crates/esper-eval/src/json.rs:189-206 | A rendered string decodes to itself, every escape undone. |
| EvalJsonProofs.IntBack | crates/esper-eval/src/json.rs:382-413 | A rendered integer parses to itself. |
| EvalJsonDevice.FixtureParser.ParseHex4 | crates/esper-eval/src/json.rs:492-507 | Exactly four hex digits and their value. |
| EvalJsonDevice.FixtureParser.ParseUnicode | crates/esper-eval/src/json.rs:472-489 | One unit or a surrogate pair; lone surrogates are refused. |
| EvalJsonDevice.FixtureParser.ParseText | crates/esper-eval/src/json.rs:432-453 | The decoded text up to the closing quote, valid UTF-8 or refused. |
| EvalJsonDevice.FixtureParser.ParseNumeral | crates/esper-eval/src/json.rs:382-413 | An integer in range, or the text of a float. |
| EvalJsonDevice.FixtureParser.ParseArray | crates/esper-eval/src/json.rs:360-379 | A list item by item. |
| EvalJsonDevice.FixtureParser.ParseObject | crates/esper-eval/src/json.rs:327-357 | An object pair by pair, a repeated key refused after its value. |
| EvalJsonDevice.FixtureParser.ParseValue | crates/esper-eval/src/json.rs:291-307 | One value within the depth, as the functional parser says. |
| EvalJsonDevice.ParseDocument | crates/esper-eval/src/json.rs:218-232 | One document, nothing but spaces after it. |
| EvalJsonDevice.Output.RenderString | crates/esper-eval/src/json.rs:189-206 | Appends the quoted, minimally escaped string. |
| EvalJsonDevice.Output.RenderInto | crates/esper-eval/src/json.rs:147-186 | Appends the canonical rendering, objects in key order; a float as the host prints it. |
| Harvest.SegmentsFinishAlike | crates/esper-core/src/harvest.rs:81-97 | A run continued as new any number of times at request boundaries, each time sealed, carried and resumed, finishes like one harvester that saw every event. |
| Harvest.ResumedRun | crates/esper-core/src/harvest.rs:81-97 | Sealing and resuming before a request changes nothing after it. |
| Harvest.FinishNeverFails | crates/esper-core/src/harvest.rs:204-250 | Finishing always succeeds, with one to six entries. |
| HarvestMeaning.KeptIsLatestFive | crates/esper-core/src/harvest.rs:107-195 | What is kept is the last five of all entries the run earned, after removing each key's earlier occurrences. |
| HarvestMeaning.KeptIsVerified | crates/esper-core/src/harvest.rs:107-195 | No unverified mutation is kept: every kept observation is one effect's own, from its request to the next: its key and label are the request's, its value is the last successful observation for that id before the effect closed, and unless the tool only reads, the last verdict on that id before the effect closed was a pass. |
| HarvestMeaning.EarnedBack | crates/esper-core/src/harvest.rs:107-195 | And nothing earned is lost: an effect whose label and last successful observation ingest, and whose tool only reads or whose last verdict passed, earns exactly that entry. |
| HarvestMeaning.LabelExact | crates/esper-core/src/harvest.rs:107-136 | A request is labelled with its tool's name, a space and its arguments; a tool the catalog does not know is called tool and needs a verification. |
| HarvestMeaning.OutcomeExact | crates/esper-core/src/harvest.rs:204-250 | The outcome is labelled goal# and the number, and says the status name and, when both fit 512 bytes, the summary after a space. |
| HarvestMeaning.NamesExact | crates/esper-core/src/state.rs:387-399 | Each terminal status's name. |
| HarvestMeaning.FinishExact | crates/esper-core/src/harvest.rs:204-250 | Finishing a run answers the last five entries earned, each key at its latest, and then the outcome. |
| HarvestMeaning.KeepIsLatest | crates/esper-core/src/harvest.rs:171-185 | Superseding in the short list is superseding in the whole list and looking at its last five. |
| HarvestDevice.Harvester.Carry | crates/esper-core/src/harvest.rs:81-90 | Carried entries fill the list in order, unless they are too many. |
| HarvestDevice.Harvester.Remove | crates/esper-core/src/harvest.rs:188-195 | One entry leaves and later ones shift left. |
| HarvestDevice.Harvester.Seal | crates/esper-core/src/harvest.rs:153-185 | The open effect closes and is kept exactly if it earned an entry. |
| HarvestDevice.Harvester.Request | crates/esper-core/src/harvest.rs:107-135 | A request closes the open effect and opens its own. |
| HarvestDevice.Harvester.Observe | crates/esper-core/src/harvest.rs:139-143 | A successful observation of the open effect replaces its value. |
| HarvestDevice.Harvester.Verify | crates/esper-core/src/harvest.rs:146-150 | A verification of the open effect replaces its verdict. |
| HarvestDevice.Harvester.Complete | crates/esper-core/src/harvest.rs:204-250 | The kept observations in order, then the outcome. |
| Monitor.Ring.Observe | crates/esper-core/src/monitor.rs:171-199 | The ring's verdict is the rule over every step ever observed: a spent budget, five idle steps in a row, three of one failure in a row, or three failures in the last five; counters saturate without changing it. |
| Monitor.Ring.Push | crates/esper-core/src/monitor.rs:211-222 | The newest step takes the oldest one's slot; the counters follow the history. |
| Monitor.Ring.Ordered | crates/esper-core/src/monitor.rs:225-233 | The window, oldest first, is the newest five steps. |
| Monitor.Ring.ConsecutiveIdentical | crates/esper-core/src/monitor.rs:243-263 | The trailing run of one failure within the window, none when nothing has been observed. |
| Monitor.Ring.ErrorMajority | crates/esper-core/src/monitor.rs:267-285 | Counting the slots in ring order is counting failures in the last five steps of at least five. |
| Monitor.IdleRunCounts | crates/esper-core/src/monitor.rs:216-221 | The idle counter reaches n exactly when the last n steps made no progress. |
| Monitor.RepeatsInRecent | crates/esper-core/src/monitor.rs:243-263 | Three of one failure in a row show in the window exactly when they end the history. |
| Compact.FoldsJoin | crates/esper-core/src/compact.rs:519-576 | Compacting a window and then another is compacting both at once, errors included. |
| Compact.CompactKeeps | crates/esper-core/src/compact.rs:381-415 | Whatever compaction answers, every failed path and obligation held before is still there; when it succeeds, so are those of every frame folded. |
| Compact.Refeeding | crates/esper-core/src/compact.rs:519-576 | Feeding the same frames again succeeds and leaves the same failed paths and obligations. |
| Compact.RefeedingExact | crates/esper-core/src/compact.rs:507-576 | When folding the same window twice is idempotent, list by list, as conditions on the state after the first fold: never a change to failed paths, obligations, open subgoals or scalars; fingerprints, completed subgoals and decisions are unchanged exactly when the window brings none, or enough to fill the list, or the full list already repeats with that period; no fact is recorded again exactly when every fact of the window is still in the list, and the facts end the same exactly then or when at least sixteen are recorded again and the last sixteen are the list. |
| Compact.RefeedingCounts | crates/esper-core/src/compact.rs:507-576 | The failing input: one frame closing a subgoal, folded twice into an empty state, is recorded twice. |
| Compact.FoldSound | crates/esper-core/src/compact.rs:366-415 | Folding keeps the lists within their storage and free of repeats. |
| Compact.ResolveExact | crates/esper-core/src/compact.rs:419-433 | Resolving removes exactly the one obligation named, and nothing else of the state. |
| Compact.FingerprintExact | crates/esper-core/src/compact.rs:580-598 | Two frames have the same fingerprint bytes exactly when number, kind, tool, arguments, progress and error class agree; the payload plays no part. |
| Compact.NotesExact | crates/esper-core/src/compact.rs:519-576 | What a frame adds: a fact only for new evidence without failure and new to the list, a completed note for a closed subgoal, both cut to 64 payload bytes, a decision only for a decision frame. |
| Compact.OwedDigest | crates/esper-core/src/compact.rs:534-549 | A new obligation carries its frame's number and the digest of its payload. |
| Compact.ReportExact | crates/esper-core/src/compact.rs:519-576 | Every frame is compacted or kept, as many kept as asked for, and the bytes saved are the compacted payloads', saturating. |
| Compact.ListsAreNewest | crates/esper-core/src/compact.rs:350-376 | After a fold the fingerprints, completed subgoals, decisions and facts are each the newest, up to their storage, of what was there and what the frames brought, facts counted only when new to the list. |
| Compact.RunSound | crates/esper-core/src/compact.rs:350-457 | Over every run of the state's operations, whatever they answer, the lists stay within their storage and the facts, failed paths and obligations free of repeats. |
| Compact.FailedForGood | crates/esper-core/src/compact.rs:381-395 | Over every run, a failed path once reported and answered Ok is there for good, and nothing else is ever a failed path. |
| Compact.OwedUntilSettled | crates/esper-core/src/compact.rs:400-433 | Over every run, an obligation once opened and answered Ok is owed until exactly it is resolved, and whatever is owed was opened and has not been resolved since. |
| CompactDevice.Bounded.Push | crates/esper-core/src/compact.rs:446-457 | Pushing onto a full fixed list shifts out the oldest. |
| CompactDevice.Bounded.RemoveAt | crates/esper-core/src/compact.rs:427-428 | Removing shifts the later entries down; the list view loses exactly that entry, whatever stale copy the last slot keeps. |
| CompactDevice.State.AddFailed | crates/esper-core/src/compact.rs:381-391 | A new failed path is recorded, or refused when the store is full and nothing changes. |
| CompactDevice.State.AddPending | crates/esper-core/src/compact.rs:400-415 | A new obligation is recorded, or refused when the store is full and nothing changes. |
| CompactDevice.State.ResolvePending | crates/esper-core/src/compact.rs:419-433 | Resolves in place as the functional resolve does. |
| CompactDevice.State.Compact | crates/esper-core/src/compact.rs:519-576 | Folds every frame in place and reports frames, tail and bytes saved, stopping at the first full never-drop store. |
| Snapshot.SnapshotBack | crates/esper-core/src/snapshot.rs:65-201 | A state's snapshot decodes to every scalar and list view of the state exactly when its facts, failed paths and obligations hold no repeats. |
| Snapshot.ReachedComesBack | crates/esper-core/src/snapshot.rs:65-201 | Every state reached from an empty one by any run of operations comes back from its snapshot exactly. |
| Snapshot.SnapshotThere | crates/esper-core/src/snapshot.rs:129-201 | Every snapshot that decodes was written from some state and decodes to a sound one; it is that state's own snapshot exactly when nothing in it repeats. |
| Snapshot.RepeatedObligation | crates/esper-core/src/snapshot.rs:183-193 | A snapshot whose obligations repeat decodes, but loses the later copy. |
| Snapshot.EncodeInjective | crates/esper-core/src/snapshot.rs:65-118 | Different states have different snapshots. |
| Snapshot.PayloadLength | crates/esper-core/src/snapshot.rs:232-256 | The computed payload length is the payload's. |
| SnapshotDevice.PutList | crates/esper-core/src/snapshot.rs:300-312 | A counted list is written entry by entry, or fails for room. |
| SnapshotDevice.EncodeInto | crates/esper-core/src/snapshot.rs:65-118 | The snapshot is written exactly when the buffer has room for all of it. |
| SnapshotDevice.EncodedLen | crates/esper-core/src/snapshot.rs:55-57 | The length is exactly what encoding writes. |
| SnapshotDevice.ReadPendings | crates/esper-core/src/snapshot.rs:183-193 | Obligations are read and recorded one by one, repeats recorded once. |
| SnapshotDevice.DecodeSnapshot | crates/esper-core/src/snapshot.rs:129-201 | Verifies, then rebuilds the state by recording each entry, as the functional decode says. |
| Formats.AreaHeader | crates/esper-board/src/items.rs:97-131 | An area's header is 20 bytes: magic, generation, digest and the check over the first 16, each low byte first at its place. |
| Formats.SlotHeader | crates/esper-board/src/items.rs:200-248 | A slot's head is 8 bytes: index, length, check; the check folds the digest, the index and then the item. |
| Formats.CheckpointHeader | crates/esper-core/src/checkpoint.rs:248-301 | A checkpoint header is 37 bytes: version 1, counters, allocators, counts, digest, each at its place. |
| Formats.CodesExact | crates/esper-core/src/goal.rs:108-118 | A goal status's code is its place among the eight; a terminal status's among the nine, none being 255. |
| Formats.IdentityLayout | crates/esper-core/src/checkpoint.rs:596-636 | A goal's id, objective behind its length, priority and cadence, each at its place. |
| Formats.BudgetLayout | crates/esper-core/src/checkpoint.rs:596-636 | Its envelope and what is left and reserved, each unit at its place. |
| Formats.CapabilitiesLayout | crates/esper-core/src/checkpoint.rs:727-753 | Its three sets, each before its count, and two flags. |
| Formats.StandingLayout | crates/esper-core/src/checkpoint.rs:596-636 | Its status, due beat, streak, runs started, last status, waiting beat and run, each at its place. |
| Formats.GoalLayout | crates/esper-core/src/checkpoint.rs:596-636 | A goal is those parts in that order. |
| Formats.EntryLayout | crates/esper-core/src/checkpoint.rs:638-654 | A memory entry: key under its tag, two texts behind their lengths, goal, run, beat and stamp, each at its place. |
| Formats.ScalarLayout | crates/esper-core/src/snapshot.rs:65-118 | A snapshot's scalars, each at its place in 61 bytes. |
| Formats.RecordLayout | crates/esper-core/src/snapshot.rs:65-118 | A fact, a failed path and an obligation, field by field. |
| Formats.PayloadLayout | crates/esper-core/src/snapshot.rs:65-118 | The seven lists follow the scalars in order, each behind its length. |

## Left out

- Partition, geometry and the operator's plan: window arithmetic around the chip.
- Overflow of 32-bit flash addresses and the width of the chip's mutation counter.
- Barriers, media read errors and the asynchronous device traits: the chip model reads reliably.
- The concrete FNV constants and collisions: the hash is a parameter, so checks catch what the hash distinguishes.
- The run and supervisor workflows, wire codecs, slots, run registry and agent loop: their engine is not part of this model.
- `has_running`, `counts` and `is_overdue` of the ledger, `from_parts` of ledger and memory: views and rebuilds with no rule of their own.
- Admission takes the ingested objective as a parameter; `MaskDevice.Ingest` models ingestion itself.
- `ArrayCursor` of the argument parser: no contract has an array argument, so validation never reads one.
- Error line and column numbers of the fixture parser, and the wording of its messages.
- Floats: a float is kept as its text and how the host prints it is a parameter, so the round-trip and equality theorems are about float-free values.
- Checkpoint item encoders of a lone memory entry: the same bytes as an item without its tag.
- `should_compact`, the resource budget's own arithmetic, registry tables and stable names: fixed tables and one comparison.
- Notes and checkpoints hold bytes; display formatting is not modelled.
- The tool catalog and the digest of arguments are parameters of the harvester.
- The exhausted budget unit is a parameter of the monitor.
