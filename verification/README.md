# Ramshield: a verified model of its hard core

Ramshield is a traffic-protection engine. This project models the parts of it whose correctness is not
visible from reading one function, and proves what they promise:

- **The shared rule table** (`RuleSlots`, `SeqlockMachine`, `SeqlockInvariant`, `SeqlockSafety`,
  `SeqlockLookup`, `SeqlockContention`, `SeqlockWriters`, `RuleTable`, `RuleMap`, `SharedTable`, `SlotKey`, `Words`). Enforcement
  rules are published into shared memory, 262,144 slots each guarded by a sequence word that is odd while a writer holds the slot. The *machine* takes every
  atomic load, store and compare-and-swap as one step and lets any number of publishers, clearers and readers
  interleave; the class `SharedRules` is the same table in non-overlapping use. Memory is sequentially consistent.
- **Crash recovery** (`BlockLog`, `Checkpoint`, `RecoveryExact`, `CheckpointMachine`, `CrashRecovery`, `CrashExact`,
  `CrashHistory`, `CrashExamples`, `Restart`). Block decisions go to a write-ahead log, a checkpoint loop captures the store under a
  barrier and writes snapshots outside it, the log is pruned behind finished checkpoints, and a crash may strike before
  any step. The machine has the store's index of blocked addresses, the times to live of restored records, the
  scheduler's deadlines and the mirror of them that checkpoints read, each changed as the code changes it.
- **The HTTP framing gate** (`HttpBytes`, `HttpChunked`, `HttpRequest`, `HttpFraming`, `HttpPrint`, `HttpHeaders`, `HttpText`,
  `HttpRoundTrip`). One HTTP/1.x request per buffer, delimited by Content-Length, by the chunked coding, or empty.
- **Packet capture** (`CaptureRing`, `CaptureBlocks`, `OverlayParser`, `OverlayPackets`, `OverlayTunnels`). The walk over packet descriptors in a
  ring whose contents are arbitrary, and the parser that looks through VLAN tags, IPv6 extension headers and
  IP-in-IP, GRE, VXLAN and Geneve tunnels.
- **The decaying sketch** (`Sketch`), **sessions and lock-out** (`Sessions`), **the reply reader** (`LineReader`).

Code that updates things step by step is modelled by classes and methods with loops, each proved against a
function; what the code promises is then proved about that function. Clocks, the wall time, the UTF-8 check, the
buffer fills of a stream and the contents of the ring are parameters. `dafny verify dfyconfig.toml` covers the
whole project.

## What is proved, in short

1. In every interleaving a reported rule is, field for field, one completed publish of the requested key, live at
   the reader's clock; it stood in one stable slot at the step that validated the read. A miss means that each of the
   four slots was read coherently at a step at which it was stable and held no live rule for the key. A rule that is
   live at every stable point of a lookup is never missed, and is found if nobody touches its slot. CONTENDED is earned: one
   of the four slots was held or moved on during each of 64 attempts to read it, so a lookup whose slots nobody touches is
   FOUND or MISS by what they hold. A writer reports success exactly if it released a slot it had written, and failure only
   for a full window, a slot held through 64 attempts, or one lost under the lock. A sequence word is
   odd exactly while one writer owns the slot. Over any list of non-overlapping operations the table answers as a map
   with expiry does, and the class keeps that map beside its slots.
2. After a crash at any point of any run the snapshot named by the manifest exists and nothing behind it is pruned.
   Key by key, snapshot plus tail put in force what the whole log puts in force, up to the drift of deadlines, if before
   every capture the last step about the key, a decision applied or a recovery, had been a steady one (`CrashAfterSettled`). This does
   not hold of every run. Without drift it is known *exactly* when it does, for every run and told from its steps
   (`CrashHistory.CrashExactIff`): when the tail decides about the key, or the last step about the key before the capture of the snapshot
   that counts left it right, or both blocks are over. `RightBy` says when a step leaves a key right, at every later point of the
   run: a release always; a block if it is over, or a prefix's, or an indexed address's whose record the store keeps; a recovery
   by phantom, stale timer, the refreshes since and, where the tail is silent, the snapshot's block (`RightByIff`), which leads back to the
   step that captured that snapshot (`RightThroughSnapshot`). Between such steps only time passing and a refresh can put
   the key wrong (`TickInStepIff`, `RefreshInStepIff`). Runs on which recovery fails are given for every address (`LostExample`, `LeftoverExample`,
   `ForgottenExample`) and every prefix (`LimitedExample`). The recovery methods take the machine's step on the files
   (`Restart.Boot`), the store they leave is the log's under the exact condition of `BootIsExactIff`, and one recovery is exact against
   its own replay under those of `StoreIsExactIff` and `ScheduleIsExactIff`.
3. The gate accepts a buffer if and only if it reads as a request and is well framed (a definition that mentions
   neither the scan nor its state); accepted buffers are prefix-free; printed requests read back; chunked decoding
   inverts encoding, accepts only encodings, and depends only on the bytes it consumes. Of a request written as text, names
   letter by letter in any case and numbers by division, it is known exactly when it is accepted (`TextAcceptedIff`); its target,
   header lines and body come back (`LengthRoundTrip`, `ChunkedRoundTrip`); and one with conflicting framing fields is rejected as
   smuggling (`SmugglingIsRejected`). The header bytes handed on are
   the header section exactly when the request line does not end in a bare LF (`HeadersExactIff`).
4. Whatever the ring holds, every packet range handed on lies inside the declared block; of a block written field by field
   the walk hands on exactly the frames (`WalkWritten`). Of every IPv4 packet, and of every
   IPv6 packet behind up to eight extension headers, the parser reports its own fields, or nothing, or what it reports of
   the packet inside, decided by the payload alone (`Ipv4IsReported`, `Ipv6IsReported`); a packet inside any stack of tunnels is reported
   like the packet itself, but for the overlay flag.

## Notes on the code

- The comment on the probe length speaks of eight slots; the constant is four, and four is modelled
  (crates/ramshield-cgnat/src/shm.rs:242).
- A request line may end in a bare LF; header lines before the last may not (src/engine/waf.rs:104-155). The header
  bytes handed on are counted as if the request line ended in CR LF (src/engine/waf.rs:133), so after a bare LF they lack
  their first byte. `BareLineLosesByte` gives the family, `BareExampleLosesByte` an input.
- For Geneve the code takes version and option length from the first byte of the UDP header and expects the inner
  frame 8 bytes plus the options behind it (src/engine/native.rs:1027-1036); the model does the same, and Geneve is not
  among the tunnels of `ParseStack`.
- A seeded address whose block has lapsed by the time of the replay keeps its record from the snapshot in the store
  (`Phantom`): either the last record of the tail about it is a block whose deadline has passed, or the tail does not
  mention it and its own deadline fell between the restore and the replay. `PhantomExample` and `LapsedExample` give
  inputs. A restored temporary record keeps the store's own time to live in that case.
- A block that the snapshot held with a deadline and that the last record of the tail about it made permanent keeps the
  snapshot's deadline in the scheduler, if it is still to come when it is handed over (`StaleTimer`; the clock is read again for
  that, src/engine/boot.rs:557-580). `StaleTimerExample` gives an input. For a prefix the mirror loses the deadline at once
  (crates/ramshield-enforcement/src/service/cidr.rs:53-55) and gets it back with the next refresh: `LimitedExample` gives a run.
- A block decision of the running service changes the record of an address but not the store's index of blocked addresses
  (crates/ramshield-storage/src/store/write.rs:468-590), and snapshots are built from that index
  (src/engine/checkpoint.rs:117-119), so a snapshot lacks such an address until a restart has written its record anew. `LostExample`
  gives a run. The decision also leaves a restored record its time to live, after which the store gives the record up:
  `ForgottenExample`. The comments on the index (crates/ramshield-storage/src/store/access.rs:109-112) and on recovery
  (src/engine/boot.rs:508-512) promise otherwise; the model follows the code.

## Model

| member | source | states |
|---|---|---|
| RuleSlots.ProbesDistinct | crates/ramshield-cgnat/src/shm.rs:278-300 | the four probes of one key never meet, also across the end of the table |
| RuleSlots.PublishedLives | crates/ramshield-cgnat/src/shm.rs:342-354 | a published rule is live for its key alone and for exactly its time to live, saturating instead of wrapping, and has each of the publisher's arguments in its own field |
| SeqlockInvariant.WordInjective | crates/ramshield-cgnat/include/ramshield_shm.h:175-215 | in a read window of fewer than 2^32 increments, equal sequence words mean that no writer intervened |
| SeqlockInvariant.OwnStepOk | crates/ramshield-cgnat/include/ramshield_shm.h:145-233 | every atomic step of a thread keeps what its program counter claims about its slot |
| SeqlockInvariant.OtherThreadOk | crates/ramshield-cgnat/src/shm.rs:305-360 | no step of one thread falsifies what another thread's program counter claims |
| SeqlockSafety.NextKeepsInv | crates/ramshield-cgnat/src/shm.rs:257-361 | every step of every thread keeps the invariant |
| SeqlockSafety.RunKeepsInv | crates/ramshield-cgnat/src/shm.rs:257-361 | the invariant holds in every state of every run |
| SeqlockSafety.FoundIsOnePublish | crates/ramshield-cgnat/include/ramshield_shm.h:145-233 | a reported rule is the payload of one single completed publish of that key in that key's window, live at the reader's clock, with the arguments of that publish field by field |
| SeqlockSafety.SlotDiscipline | crates/ramshield-cgnat/src/shm.rs:305-360 | a sequence word is odd iff exactly one writer owns the slot; stable nonzero keys lie in their own window |
| SeqlockSafety.ReplacementDiscipline | crates/ramshield-cgnat/src/shm.rs:278-360 | cells change only under ownership, and a live rule gives way only to a publish of its key or a clear |
| SeqlockLookup.PassedWasAbsent | crates/ramshield-cgnat/include/ramshield_shm.h:166-232 | every probe left behind without contention was validated at a step of the lookup: a coherent read of a stable slot without a live rule for the key |
| SeqlockLookup.MissIsJustified | crates/ramshield-cgnat/include/ramshield_shm.h:160-232 | MISS: for each of the four slots there is a step at which the reader validated a coherent read of it, stable and without a live rule for the key |
| SeqlockLookup.LiveRuleIsNeverMissed | crates/ramshield-cgnat/include/ramshield_shm.h:160-232 | a key whose slot holds a live rule at every stable point of the lookup is FOUND or CONTENDED, also if a writer holds the slot at the start |
| SeqlockLookup.UntouchedRuleIsFound | crates/ramshield-cgnat/include/ramshield_shm.h:160-232 | a live rule in a slot that nobody touches is FOUND |
| SeqlockLookup.FoundWasCommitted | crates/ramshield-cgnat/include/ramshield_shm.h:175-225 | FOUND takes effect at one step: the rule is what one stable slot of the window, coherently read, holds then |
| SeqlockLookup.NotInvalid | crates/ramshield-cgnat/include/ramshield_shm.h:151-162 | a lookup of a nonzero key is never INVALID |
| SeqlockContention.ContendedIsEarned | crates/ramshield-cgnat/include/ramshield_shm.h:160-232 | CONTENDED: one of the four slots was held by a writer, or its sequence word moved on, during each of 64 attempts of this lookup to read it |
| SeqlockContention.UndisturbedIsDecided | crates/ramshield-cgnat/include/ramshield_shm.h:160-232 | a lookup whose four slots nobody holds or changes is FOUND iff one of them holds a live rule for the key, and MISS iff none does |
| SeqlockWriters.SucceedsIff | crates/ramshield-cgnat/src/shm.rs:257-361 | a publish or clear reports success iff a step of its own released a slot that it had written, which puts its record into the log |
| SeqlockWriters.RefusalIsEarned | crates/ramshield-cgnat/src/shm.rs:257-361 | it reports failure only if its window was full of live foreign rules, or its slot stayed held through 64 attempts, or the slot was taken by another key when the lock was won |
| SharedTable.SharedRules.Lock | crates/ramshield-cgnat/src/shm.rs:305-330 | acquired iff the word was even, and only that word changes |
| SharedTable.SharedRules.Publish | crates/ramshield-cgnat/src/shm.rs:257-361 | the result, the whole new table by the selected slot, and the map with the rule put in, which carries the arguments |
| SharedTable.SharedRules.ClearSlot | crates/ramshield-cgnat/include/ramshield_shm.h:315-342 | the result, the whole new table, and the map without the key the slot stored |
| SharedTable.SharedRules.FlushAll | crates/ramshield-cgnat/include/ramshield_shm.h:347-353 | every slot cleared in turn; the map is empty but for keys in locked slots |
| SharedTable.SharedRules.Read | crates/ramshield-cgnat/include/ramshield_shm.h:145-233 | the loops compute the lookup function; FOUND and MISS are the map's answers, and every answer is without locked slots |
| SharedTable.PublishThenRead | crates/ramshield-cgnat/src/shm.rs:342-354 | a rule just published is found until its time to live is over, with the arguments of the publish, and missed from then on |
| RuleTable.KeyProbeMeaning | crates/ramshield-cgnat/src/shm.rs:278-300 | the search for the key finds its first slot in the window, or there is none |
| RuleTable.FreeProbeMeaning | crates/ramshield-cgnat/src/shm.rs:278-300 | the search for room finds the first empty or expired slot, or there is none |
| RuleTable.SelectedIsUnique | crates/ramshield-cgnat/src/shm.rs:278-300 | if any slot of the table stores the key, publish selects that slot |
| RuleTable.PublishKeepsTidy | crates/ramshield-cgnat/src/shm.rs:278-360 | after a publish every key is in its window and in one slot only |
| RuleTable.PublishUpdatesOneKey | crates/ramshield-cgnat/src/shm.rs:257-361 | a publish changes its own key's lookup to the new rule, and no other key's, at all later clocks |
| RuleTable.PublishFailsIff | crates/ramshield-cgnat/src/shm.rs:257-330 | publish fails iff the key is zero, or its four slots hold live foreign rules, or the selected slot stays locked |
| RuleTable.ClearRemovesOneKey | crates/ramshield-cgnat/include/ramshield_shm.h:315-342 | clearing removes the slot's rule and changes no other lookup, also behind it in the probe |
| RuleTable.FlushLeavesLocked | crates/ramshield-cgnat/include/ramshield_shm.h:347-353 | exactly the rules of locked slots survive a flush, and the table stays tidy |
| RuleTable.ReadIsMapLookup | crates/ramshield-cgnat/include/ramshield_shm.h:160-232 | without locked slots FOUND and MISS are exactly the map's answers |
| RuleTable.ReadIsNeverWrong | crates/ramshield-cgnat/include/ramshield_shm.h:160-232 | with locked slots FOUND and MISS are still right |
| RuleMap.PublishRefines | crates/ramshield-cgnat/src/shm.rs:257-361 | a publish puts its rule into the map that the table refines |
| RuleMap.ClearRefines | crates/ramshield-cgnat/include/ramshield_shm.h:315-342 | a clear takes the slot's key out of the map |
| RuleMap.FlushRefines | crates/ramshield-cgnat/include/ramshield_shm.h:347-353 | a flush empties the map but for locked slots |
| RuleMap.ParityStays | crates/ramshield-cgnat/src/shm.rs:305-360 | no operation leaves a slot locked or unlocks one |
| RuleMap.TableIsMap | crates/ramshield-cgnat/include/ramshield_shm.h:145-233 | after any list of publishes, clears and flushes, at any clocks, every lookup from the latest clock on is the answer of the map folded over the same list; at earlier clocks FOUND still is |
| RuleMap.RefusedIff | crates/ramshield-cgnat/src/shm.rs:257-303 | after any such list a publish is refused iff the key is zero or its window is full of live foreign rules |
| SlotKey.MixBijective | crates/ramshield-cgnat/src/shm.rs:18-26 | the mixer is a bijection on 32-bit words and maps only zero to zero |
| SlotKey.SubnetKeyInjective | crates/ramshield-cgnat/include/ramshield_shm.h:14-24 | for one prefix length distinct networks have distinct keys; the key is zero iff network and prefix length are equal |
| SlotKey.ReadIpv4InvalidIff | crates/ramshield-cgnat/include/ramshield_shm.h:274-298 | INVALID iff the prefix is outside 1..32 or the masked network equals it |
| SlotKey.SameKeyIffSameNetwork | crates/ramshield-cgnat/include/ramshield_shm.h:25-40 | two addresses share a key iff they share the network |
| SlotKey.KeyCovers | crates/ramshield-cgnat/include/ramshield_shm.h:25-40 | the key of the m-th network of a prefix length is the key of exactly the 2^(32 - prefix) addresses from its first on |
| SlotKey.RuleCoversNetwork | crates/ramshield-cgnat/include/ramshield_shm.h:274-298 | a live rule stored for that network is what the lookup finds for exactly those addresses |
| BlockLog.ReasonSurvives | crates/ramshield-types/src/error.rs:41-73 | a reason survives being written as text and read back |
| BlockLog.FoldSplit | crates/ramshield-enforcement/src/replay.rs:100-125 | folding a log in two parts is folding it at once |
| BlockLog.FoldByKey | crates/ramshield-enforcement/src/replay.rs:100-125 | a key the tail names comes out the same from any seed, any other keeps its seed |
| BlockLog.FoldAt | crates/ramshield-enforcement/src/replay.rs:100-125 | the last record naming a key decides its block, and the seed if there is none |
| BlockLog.ReplayedBlock | crates/ramshield-enforcement/src/replay.rs:100-125 | after a replay a key is blocked exactly until the last record naming it, a block, runs out: its start plus its time to live in seconds, or the end of the clock; reason and start are the record's |
| BlockLog.FoldKindIs | crates/ramshield-enforcement/src/replay.rs:408-426 | addresses and prefixes fold independently |
| Checkpoint.Classify | src/engine/checkpoint.rs:181-189 | expired iff the deadline is not ahead; live with exactly the remaining time |
| Checkpoint.Store.UpdateBlockState | crates/ramshield-storage/src/store/write.rs:468-590 | a decision changes the record alone, neither its time to live nor the index; an expired record is made anew without either |
| Checkpoint.Store.Write | crates/ramshield-storage/src/store/write.rs:8-147 | an insert keeps a complete index complete |
| Checkpoint.Store.Remove | crates/ramshield-storage/src/store/access.rs:39-73 | record, time to live and index entry go together |
| Checkpoint.Store.BuildSnapshot | src/engine/checkpoint.rs:115-156 | the snapshot lists every prefix and every indexed address once, with its scheduled deadline |
| Checkpoint.Store.RestoreFromSnapshot | src/engine/checkpoint.rs:202-289 | the seed, the deadlines handed back, the records and their times to live; the index stays complete |
| Checkpoint.RestoreInvertsBuild | src/engine/checkpoint.rs:202-289 | restoring yields exactly the blocks whose deadline is absent or ahead, with reason, start and deadline unchanged |
| Checkpoint.RoundedTtl | src/engine/checkpoint.rs:253-262 | the rounded time to live ends at or after the deadline, less than a second late |
| Checkpoint.LaterRestoresFewer | src/engine/checkpoint.rs:202-289 | a later clock restores a subset |
| Checkpoint.RestoreIsIdempotent | src/engine/checkpoint.rs:115-156 | restore, build, restore changes nothing |
| Checkpoint.FilterFirst | crates/ramshield-enforcement/src/replay.rs:396-404 | dropping expired prefixes before the tail is folded changes nothing that is in force after it |
| Checkpoint.Store.ReplayIps | crates/ramshield-enforcement/src/replay.rs:67-208 | the address fold, the store brought in line with it, and the times to live of rewritten and released records dropped |
| Checkpoint.Store.ReplayNets | crates/ramshield-enforcement/src/replay.rs:391-445 | the prefix fold, and the store brought in line with it |
| Checkpoint.Store.Recover | src/engine/boot.rs:364-587 | restore and both replays leave the recovered store with a complete index, its remaining times to live, the schedule handed over and its mirror; what the tail decides is kept until it runs out |
| Checkpoint.RecoveredIsKept | src/engine/boot.rs:445-548 | a block that the tail decides and that has not run out at the replay is in the recovered store with the record's reason and start; a release is not |
| Checkpoint.ReplaysRecover | src/engine/boot.rs:445-548 | the two replays over the restored seed compose to one fold over the tail |
| RecoveryExact.StoreIsExactIff | crates/ramshield-enforcement/src/replay.rs:137-155 | the recovered store is exactly what is in force iff no seeded address has lapsed by the replay, told from the last tail record naming it or else its own deadline |
| RecoveryExact.PhantomExample | crates/ramshield-enforcement/src/replay.rs:147-165 | an input on which the store is not exact because of a record in the tail |
| RecoveryExact.LapsedExample | crates/ramshield-enforcement/src/replay.rs:147-165 | an input on which it is not exact because of the time between two clock reads |
| RecoveryExact.ScheduleIsExactIff | src/engine/boot.rs:557-587 | every block in force is scheduled for its own deadline iff no seeded temporary block, its deadline still to come at the hand-over, was made permanent by the last tail record naming it |
| RecoveryExact.StaleTimerExample | src/engine/boot.rs:557-587 | an input on which the schedule is not exact, and a later hand-over on which it is |
| RecoveryExact.ResumedIs | src/engine/boot.rs:445-587 | what store, scheduler and mirror hold about one key after recovery, from what the seed and the replay have about it |
| RecoveryExact.ResumedIsReplayed | src/engine/boot.rs:445-587 | without phantom and stale timer that is the replay's block if it is in force, else nothing |
| CheckpointMachine.AlwaysRecoverable | src/engine/boot.rs:364-440 | in every state of every run the named snapshot exists and the tail behind it is retained |
| CheckpointMachine.SnapshotsAfter | src/engine/boot.rs:732-798 | a step leaves the snapshots alone, passes the one in the making on, or captures |
| CheckpointMachine.CaptureOfCounting | src/engine/boot.rs:732-798 | in every run the snapshot that counts was captured by a step of it at the log position it is named after |
| CheckpointMachine.PrefixHasNoTtl | src/engine/checkpoint.rs:253-289 | only addresses are restored with a time to live |
| CrashRecovery.ReplayFollows | src/engine/boot.rs:445-464 | folding the tail over a live image of the log's beginning follows the whole log, key by key |
| CrashRecovery.BarrierIsNeeded | src/engine/boot.rs:732-740 | an image captured between append and application would not follow the log |
| CrashRecovery.NextKeepsDisk | src/engine/boot.rs:732-798 | every step, crash included, keeps the snapshots following the log if what it captures does |
| CrashRecovery.ApplyKeepsInStep | crates/ramshield-enforcement/src/service/enforce.rs:207-284 | applying a decision keeps the service in step with the log, and brings it in step if it is about the key |
| CrashRecovery.RecoverBringsInStep | src/engine/boot.rs:364-587 | a recovery without phantom and stale timer brings store, scheduler and mirror in step, within the drift |
| CrashRecovery.NextKeepsInStep | crates/ramshield-enforcement/src/service/run.rs:136-164 | every steady step, refresh and crash included, keeps them in step |
| CrashRecovery.RunKeepsDisk | src/engine/boot.rs:732-798 | so the snapshots follow the log in every state of every run whose captures do |
| CrashRecovery.SettledIsInStep | src/engine/boot.rs:364-798 | if they do so far, a steady last step about a key has left store, scheduler and mirror in step, whatever came before it |
| CrashRecovery.SettledCapturesFollow | src/engine/boot.rs:364-798 | captures follow the log in every run in which the last step about the key before each of them was steady |
| CrashRecovery.CrashAnywhere | src/engine/boot.rs:364-548 | a crash after any step: what is in force for a key is what the whole log says up to the drift, exactly so without drift |
| CrashRecovery.CrashAfterSettled | src/engine/boot.rs:364-798 | the same with the condition told from the steps of the run |
| CrashExact.ResumedKnown | src/engine/boot.rs:445-587 | recovery never invents a block: none, the log's, one left over after the log's is over, or the log's permanent one with a deadline |
| CrashExact.NextKeepsKnown | crates/ramshield-enforcement/src/service/enforce.rs:207-284 | nor does any other step |
| CrashExact.RunKeepsKnown | src/engine/boot.rs:364-798 | so in every state of every run without drift, for service and snapshots |
| CrashExact.RecoverExactIff | src/engine/boot.rs:364-548 | recovery from given files puts in force what the whole log does about a key iff the tail decides about it, the snapshot follows the log, or both blocks are over |
| CrashExact.ApplyInStepIff | crates/ramshield-storage/src/store/write.rs:468-590 | after a block decision a checkpoint finds the log's block iff it is a prefix's, or an indexed address's with its record still there, or over at once |
| CrashExact.TickInStepIff | crates/ramshield-storage/src/record.rs:231-240 | time passing leaves a checkpoint in step iff the store does not give up the record of a block that is not over |
| CrashExact.RefreshInStepIff | crates/ramshield-enforcement/src/service/run.rs:136-164 | a refresh leaves a checkpoint in step iff the scheduler has the mirror's deadline for the block |
| CrashExact.RecoverFollowingIff | src/engine/boot.rs:445-587 | right after a recovery from a snapshot that follows the log a checkpoint finds the log's block iff there is no phantom that the store still holds and no stale timer of an address |
| CrashHistory.HeldSince | crates/ramshield-enforcement/src/service/run.rs:136-164 | since the last decision about a key or recovery nothing about it has changed but the mirror, by a refresh |
| CrashHistory.ResumedRightIff | src/engine/boot.rs:445-587 | a recovery's view of a key follows the log at any later clock iff: decided by the tail, no phantom still held and no stale timer in the mirror; else the snapshot's block, as far as taken up and still there, is the log's |
| CrashHistory.RightByIff | src/engine/boot.rs:364-798 | after any step of any run without drift a checkpoint finds the log's block of a key iff the last step about the key tells so |
| CrashHistory.RightThroughSnapshot | src/engine/boot.rs:364-798 | through a recovery that the tail is silent about that condition goes back to the step that captured the snapshot |
| CrashHistory.RecoverInStepIff | src/engine/boot.rs:445-587 | the condition right after a recovery, from any sound files |
| CrashHistory.CrashExactIff | src/engine/boot.rs:364-798 | after any step of any run without drift recovery puts in force what the whole log does about a key iff the tail decides about it, the last step about it before the capture left it right, or both blocks are over |
| CrashHistory.CrashIsExactIff | src/engine/boot.rs:364-798 | the same for all keys at once |
| CrashExamples.LostExample | crates/ramshield-storage/src/store/write.rs:468-590 | for every address a run of five steps after which a restart does not block it though the log does for good |
| CrashExamples.LeftoverExample | crates/ramshield-enforcement/src/replay.rs:137-155 | a run after which a restart blocks an address for good though the log has its block expired |
| CrashExamples.ForgottenExample | crates/ramshield-storage/src/store/write.rs:468-490 | a run in which the store forgets a permanent block because of an old time to live, and a restart does not block it |
| CrashExamples.LimitedExample | crates/ramshield-enforcement/src/service/cidr.rs:37-64 | for every prefix a run after which a restart does not block it though the log does for good, because a refresh brought an old deadline back |
| Restart.Boot | src/engine/boot.rs:364-587 | the recovery methods on the files of any state take the machine's recovery step: store, index, times to live, deadlines and mirror; exact iff no phantom |
| Restart.CaptureImage | src/engine/boot.rs:732-780 | the image built under the barrier is the machine's |
| Restart.Decide | crates/ramshield-enforcement/src/service/enforce.rs:207-284 | the store after a decision is the machine's |
| Restart.RestartAtIff | src/engine/boot.rs:364-587 | after a crash at any point of any run without drift a restart leaves the right record for a key iff: decided by the tail, no phantom; else the snapshot's block is taken up exactly when the log's is in force |
| Restart.BootIsExactIff | src/engine/boot.rs:364-587 | so that store is what the whole log puts in force iff this is so of every key |
| HttpBytes.ParseDecimal | src/engine/waf.rs:378-390 | digit by digit with overflow checks: succeeds iff the digits denote a machine word |
| HttpBytes.TrimmedMeaning | src/engine/waf.rs:396-412 | trimming removes whitespace at both ends and nothing else |
| HttpBytes.PercentDecode | src/engine/waf.rs:421-447 | the loop computes the decoded text |
| HttpBytes.UnescapeInvertsEscape | src/engine/waf.rs:421-447 | decoding undoes every percent-encoding |
| HttpChunked.ParseChunkTrailers | src/engine/waf.rs:325-376 | the loop computes the end of the trailer section or the first fault |
| HttpChunked.ReadRound | src/engine/waf.rs:277-318 | one round: a fault, the end, or a piece of data |
| HttpChunked.DecodeChunked | src/engine/waf.rs:274-320 | the loop computes the decoder function |
| HttpChunked.ChunkLineIff | src/engine/waf.rs:283-292 | a size line is one or more hex digits that fit the machine word, then nothing or a semicolon |
| HttpChunked.TrailersInvert | src/engine/waf.rs:325-376 | every encoded trailer section is consumed exactly |
| HttpChunked.DecodeInvertsEncode | src/engine/waf.rs:274-320 | decoding any buffer that starts with an encoded body yields its data and consumes exactly the encoding |
| HttpChunked.DecodedIsEncoded | src/engine/waf.rs:274-376 | whatever is accepted is the encoding of a valid body with that data, at most the size cap |
| HttpChunked.DecodeIsLocal | src/engine/waf.rs:274-320 | the answer depends only on the bytes consumed |
| HttpRequest.CheckCodings | src/engine/waf.rs:212-233 | true iff the list has exactly one non-empty element and it is `chunked` |
| HttpRequest.ApplyHeaderLine | src/engine/waf.rs:158-235 | one header line's effect on the framing, or its fault |
| HttpRequest.ScanHeaders | src/engine/waf.rs:139-236 | the loop over header lines computes the scan function |
| HttpRequest.TakeBody | src/engine/waf.rs:237-260 | the body, only if it fills the buffer |
| HttpRequest.ParseRequest | src/engine/waf.rs:90-266 | the whole parser computes the parse function |
| HttpFraming.ScanIsFold | src/engine/waf.rs:143-157 | the scan succeeds iff line ends are right and the fold over the stripped lines succeeds |
| HttpFraming.FoldFieldsIff | src/engine/waf.rs:183-235 | the fold succeeds iff all length values agree and there is at most one coding, `chunked`, not in HTTP/1.0 |
| HttpFraming.FramingIff | src/engine/waf.rs:236-260 | a body is delimited iff the fields frame it |
| HttpFraming.AcceptedIffWellFramed | src/engine/waf.rs:90-266 | accepted iff within the cap, grammatical and well framed; target and body are those the framing denotes |
| HttpFraming.OneRequestPerBuffer | src/engine/waf.rs:236-260 | an accepted buffer followed by anything is rejected, in all framing modes |
| HttpFraming.AcceptedIsPrefixFree | src/engine/waf.rs:90-266 | of two accepted buffers neither is a proper prefix of the other |
| HttpPrint.DissectInvertsPrint | src/engine/waf.rs:94-182 | every printed request is read back part by part |
| HttpPrint.PrintedIsAcceptedIff | src/engine/waf.rs:90-266 | a printed request is accepted iff it fits and its fields frame its body; target and body come back |
| HttpPrint.ChunkedRequestRoundTrip | src/engine/waf.rs:239-249 | a request with a chunked body is accepted and its data come back |
| HttpHeaders.HeadersExactIff | src/engine/waf.rs:103-138 | the header bytes of an accepted request are its header section iff the request line does not end in a bare LF before one; else they lack its first byte |
| HttpHeaders.BareLineLosesByte | src/engine/waf.rs:103-138 | every request with one header line behind a bare LF is accepted and loses a byte |
| HttpHeaders.BareExampleLosesByte | src/engine/waf.rs:103-138 | an input on which a byte is lost |
| HttpHeaders.PrintedHeaders | src/engine/waf.rs:133-138 | a printed request's header bytes come back as printed |
| HttpText.LengthNameIff | src/engine/waf.rs:180-180 | a field states a length iff its name is `content-length`, each letter in either case |
| HttpText.CodingNameIff | src/engine/waf.rs:190-190 | a field states a coding iff its name is `transfer-encoding`, each letter in either case |
| HttpText.DecimalFieldIff | src/engine/waf.rs:378-390 | a length is read as n iff the field is n printed in decimal by division, after any zeros, and n fits the machine word |
| HttpText.SizeLineIff | src/engine/waf.rs:283-292 | a size line is read as n iff it is n printed in hexadecimal by division, in either case and after any zeros, up to its end or a semicolon, and n fits the machine word |
| HttpText.PercentRoundTrip | src/engine/waf.rs:421-447 | decoding undoes every percent-encoding whose escapes are two hexadecimal digits got by division, in either case |
| HttpText.GrammarIff | src/engine/waf.rs:115-181 | methods and names are tokens of section 5.6.2 of RFC 9110 of at most 16 and 128 bytes, targets have no byte up to the space, values no control character but tab |
| HttpText.FieldLineIff | src/engine/waf.rs:158-182 | a header line is read as a field iff it is a token, a colon and a value after one optional space |
| HttpRoundTrip.StartLineIff | src/engine/waf.rs:103-132 | a request line is read iff it is a method, a target and `HTTP/1.0` or `HTTP/1.1` with one space between them |
| HttpText.TrailerLineIff | src/engine/waf.rs:345-375 | a trailer line passes iff it is a field other than a length or a coding |
| HttpText.FramingTrailerIsSmuggling | src/engine/waf.rs:356-358 | a trailer that names a length or a coding is smuggling, whatever its value |
| HttpText.ChunkedCodingIff | src/engine/waf.rs:212-233 | a coding list passes iff it is `chunked`, in any case, with nothing around it but spaces, tabs and commas |
| HttpRoundTrip.TextAcceptedIff | src/engine/waf.rs:90-266 | a request written as text is accepted iff its length fields state the number of bytes that follow, or it is HTTP/1.1, states `chunked` once and no length, and a chunked body follows |
| HttpRoundTrip.DecodedIffCarried | src/engine/waf.rs:274-376 | the decoder accepts exactly the chunked bodies written as text, and yields what the chunks carry |
| HttpRoundTrip.LengthRoundTrip | src/engine/waf.rs:180-189 | every body within the cap, sent under length fields that state its size, comes back with target and header lines |
| HttpRoundTrip.ChunkedRoundTrip | src/engine/waf.rs:236-249 | every chunked body sent under `chunked` comes back as what its chunks carry |
| HttpRoundTrip.PrintedNumbers | src/engine/waf.rs:283-292 | numbers printed by division are such lengths and sizes |
| HttpRoundTrip.SmugglingIsRejected | src/engine/waf.rs:180-238 | a request with two different lengths, a length and a coding, two codings, or a coding that is not `chunked` or not in HTTP/1.1 is rejected as smuggling |
| CaptureRing.HeaderInBlock | src/engine/native.rs:738-760 | a header offset is accepted iff the header is aligned, behind the descriptor and inside the declared block, and the block inside the ring |
| CaptureRing.PacketInBlock | src/engine/native.rs:762-782 | a packet range is accepted iff it lies in the declared block |
| CaptureRing.NextAdvances | src/engine/native.rs:784-813 | a successor is aligned, at least 48 bytes on, and its header fits |
| CaptureRing.WalkBlock | src/engine/native.rs:597-711 | one pass over a block computes the walk |
| CaptureRing.WalkChain | src/engine/native.rs:622-711 | the loop over descriptors computes the walk |
| CaptureRing.WalkStaysInBlock | src/engine/native.rs:597-711 | for any ring contents all packets lie in the declared block, headers aligned and 48 bytes apart |
| CaptureRing.WalkIsShort | src/engine/native.rs:622-711 | at most (len - 48) / 48 packets, whatever count is announced |
| CaptureRing.WalkFollowsChain | src/engine/native.rs:622-711 | every chain of accepted descriptors within the announced count is processed in order |
| CaptureRing.WalkIsChain | src/engine/native.rs:622-711 | nothing but such a chain is processed |
| CaptureBlocks.HeaderRead | src/engine/native.rs:60-95 | the walk reads length, position and successor of a frame where its header has them, least significant byte first |
| CaptureBlocks.DescriptorRead | src/engine/native.rs:597-640 | and the count, first offset and length of a block where its descriptor has them |
| CaptureBlocks.WalkWritten | src/engine/native.rs:597-711 | of a block written field by field the walk hands on exactly the frames, each whole and in order |
| OverlayParser.WalkExtensions | src/engine/native.rs:1061-1109 | the loop over extension headers computes the chain function |
| OverlayParser.ParseIpv4 | src/engine/native.rs:958-1055 | total on every byte string, and computes the parse function |
| OverlayParser.ParseIpv6 | src/engine/native.rs:1057-1180 | likewise |
| OverlayParser.ParseL3 | src/engine/native.rs:934-956 | the tag loop and the dispatch compute the frame function |
| OverlayPackets.Ipv4IsReported | src/engine/native.rs:958-1055 | every IPv4 packet written field by field is reported with its own source, protocol, fragment and connection-opening state, or rejected, or reported as the packet its payload holds |
| OverlayPackets.ExtensionsAreSkipped | src/engine/native.rs:1061-1109 | a chain of up to eight extension headers is skipped exactly, and a fragment header in it is noticed |
| OverlayPackets.EncryptedEnds | src/engine/native.rs:1098-1106 | encrypted content behind extension headers ends the chain |
| OverlayPackets.Ipv6IsReported | src/engine/native.rs:1057-1180 | the same for every IPv6 packet behind any such chain |
| OverlayTunnels.ParseMoves | src/engine/native.rs:958-1180 | parsing at an offset is parsing the suffix |
| OverlayTunnels.ParseWrapped | src/engine/native.rs:958-1180 | one tunnel changes nothing but the overlay flag |
| OverlayTunnels.ParseStack | src/engine/native.rs:958-1180 | nor does any stack of tunnels |
| OverlayTunnels.DepthBounded | src/engine/native.rs:958-1180 | nesting is at most the remaining length over 20 |
| OverlayTunnels.ParseTagged | src/engine/native.rs:934-956 | up to four VLAN tags are transparent |
| OverlayTunnels.OtherTypesIgnored | src/engine/native.rs:934-956 | a frame with at most four tags that carries another type than IPv4 or IPv6 is not reported |
| OverlayTunnels.FifthTagIgnored | src/engine/native.rs:934-956 | nor is a frame with a fifth tag |
| Sketch.SameColumnIffCongruent | crates/ramshield-analytics/src/cms.rs:35-39 | in every row two keys share a column iff they agree modulo 65,536 |
| Sketch.GoldenInvertible | crates/ramshield-analytics/src/cms.rs:35-39 | the multiplier is invertible on 16-bit residues |
| Sketch.DecayingSketch.Increment | crates/ramshield-analytics/src/cms.rs:40-49 | the counters follow the history of increments and decays |
| Sketch.DecayingSketch.Estimate | crates/ramshield-analytics/src/cms.rs:50-63 | the estimate is exactly the decayed count of all congruent keys, and with paced decays at least the key's own |
| Sketch.DecayingSketch.DecayAll | crates/ramshield-analytics/src/cms.rs:65-72 | every counter is halved |
| Sketch.ColumnCoversKey | crates/ramshield-analytics/src/cms.rs:40-72 | a column's decayed count covers the key's own |
| Sketch.NeverUndercounts | crates/ramshield-analytics/src/cms.rs:50-63 | with at most t increments between decays, 2t below the wrap-around, the estimate is never below the key's own decayed count |
| Sketch.TallyIsBounded | crates/ramshield-analytics/src/cms.rs:40-72 | with at most t increments between decays counters stay at most 2t and never wrap |
| Sessions.Auth.Validate | src/dashboard/auth.rs:273-293 | valid iff it has 64 characters and was registered less than the time to live ago: no sweep is observable |
| Sessions.Auth.RegisterSession | src/dashboard/auth.rs:269-271 | the token counts from now |
| Sessions.Auth.IsLocked | src/dashboard/auth.rs:187-201 | locked only after enough failures of the address's own in an open window; until an eviction, exactly while the allowed number has been reached since a failure that opened a window less than fifteen minutes ago |
| Sessions.Auth.NoteFailure | src/dashboard/auth.rs:203-237 | the window advances, at most 10,000 addresses are tracked, and below capacity no other address changes |
| Sessions.LockedIff | src/dashboard/auth.rs:187-237 | the reference window locks an address iff it has had that many failures since one that opened a window less than fifteen minutes ago, told from the failures alone |
| Sessions.NotedIsExact | src/dashboard/auth.rs:203-237 | tracking follows the reference window of every address |
| Sessions.AdvanceIsEarned | src/dashboard/auth.rs:212-219 | a window never counts more than the address's own failures since it opened |
| LineReader.ReadResponseLine | src/cli.rs:30-60 | the reply depends on the bytes alone, and exactly the first line is consumed, whether or not it is UTF-8 |
| LineReader.OutcomeMeaning | src/cli.rs:30-60 | a line iff its newline is among the first MiB, too long iff that many bytes hold none, closed otherwise |

## Left out

- CrashRecovery.CrashAnywhere: for deadlines and starts it allows the drift that clock reads and rounding to whole seconds cause, and it assumes that what was captured followed the log; `CrashAfterSettled` derives that from the steps, one way, and without drift `RightByIff` both ways.
- CrashHistory.CrashExactIff: assumes that no deadline drifts, which the code achieves only where clock reads fall on whole seconds.
- Every run assumes that the wall clock does not go back, also not across a restart (`Ordered`).
- Sketch.NeverUndercounts: assumes paced decays, since the counters wrap around.
- A scheduled release whose log append fails, and which is scheduled again one second later.
- SeqlockSafety.FoundIsOnePublish: assumes fewer than 2^32 sequence increments of one slot within one read window, since the sequence word has 32 bits.
- Sessions.Auth.IsLocked: after an eviction an address may have more failures than are counted, because the victim of an eviction is arbitrary.
- Weak memory, the mapping of the file, its ownership and symlink checks, and the layout assertions of the slot structure.
- A store mutation that fails for lack of capacity after its log record is written, and failing log appends.
- The mesh blocklist (replicated blocks, their fold at recovery and their snapshots), and the kernel projection of blocks.
- Torn or corrupt files: writing a snapshot, the manifest and a log record are single steps.
- Reasons in the log are modelled after their text has been interpreted; traffic records carry nothing.
- The signature lists of the request inspector, its percent-decoded search and its reasons.
- Per-second admission in the packet path: its bound holds for a single worker only.
- Detection arithmetic in floating point, the Bloom filter and the cardinality registers.
- Password hashing, cookies, routes, sockets, configuration and process start-up.
- Errors of the underlying stream while a reply is read.
