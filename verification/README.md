# Verified models of the capture log, the persona pool, the frame graph and the codecs

A Dafny model of the stateful and byte-level code of this repository, with proofs of what
that code promises. `dafny verify dfyconfig.toml` checks all of it.

## What is modelled

| files | the code behind them |
|---|---|
| `NetworkSpec`, `NetworkHistory`, `NetworkFreshness`, `NetworkContents`, `NetworkLedger`, `NetworkAccounting`, `NetworkWaiter`, `NetworkDrops`, `NetworkInner` | the network capture log: entries, hash index, outcomes that arrive before their request, caps, counters, and the callers that wait on it |
| `SeedExpansion`, `SeedVectors` | the expansion of a 64-bit counter into a 32-byte seed, and labelled sub-seeds |
| `PersonaPoolSpec`, `PersonaPoolSafety`, `PersonaPoolIdentities`, `PersonaPoolSeeds`, `PersonaPoolRotation`, `PersonaPoolEffects`, `PersonaPoolReuse`, `PersonaPoolExamples`, `PersonaPool` | the session pool: wrapping ids, sticky bindings, quarantine, rotation, snapshots |
| `FrameForest`, `FrameTraversal`, `FrameViewport`, `FrameProbes` | frames flattened to pre-order, rebuilt as a graph, traversed |
| `DialogSpec`, `DialogLog` | the bounded dialog and download log |
| `Bytes`, `WebSocketFrames`, `WebSocketWire`, `H2Capture`, `H2Wire`, `BufferedStream` | the readiness probe's WebSocket frames, the echo service's HTTP/2 capture and its replayed connection |
| `JsEscape`, `JsTables` | escaping for JavaScript string literals, with a lexer for them |
| `Backoff` | saturating power-of-two backoff |
| `SortedLists`, `CaptureDiff`, `CaptureDiffLaws`, `CaptureThreeWay`, `CaptureReports` | the offline comparison of captured browser surfaces |
| `Common` | optional values, results, powers of two, a few sequence operations |

Code that updates objects in place is a class or a method with loops (`Inner`, `Manager`,
`ConnectionInfo`, `Buffered`, `Output`), proved to perform exactly one step of a state
machine over values; the promises are then proved of that machine, over all its runs.
Where the source takes whatever a hash table's iteration offers first (the pending outcome
given up, the session reused under `Never`), the machine allows every choice. Each action
under a lock guard is one atomic step, and the waiter's actions interleave with log steps
in every order.

## Where the code promises less than is said of it

The model follows the code; each point names the lemma that says exactly what holds instead,
and one that shows a failing input.

- Request log: under an entry cap, an evicted id that is asked again comes back at the end
  (`NetworkHistory.WindowExactly`, `EvictedIdReturns`). An outcome that waits and is
  overwritten by a later one of the same id is in no counter, so the counters add up exactly
  when that never happens (`NetworkAccounting.CountersAddUpExactly`, `OverwrittenIsUncounted`).
- The comment on `subscribe` (`foxdriver/src/network.rs:665-667`) says what a slow subscriber
  misses is counted in `broadcast_drops`; the code counts only entries opened while nobody
  listens (`NetworkAccounting.DropsAreUnheardEntries`), so while a subscriber listens, what it
  misses is counted exactly when it misses nothing (`NetworkDrops.MissedIsCountedExactly`,
  `SlowSubscriberIsUncounted`).
- Session cap: it is passed exactly by an acquisition for a bound domain under a rotating
  policy and by a restore, from a full pool (`PersonaPoolSafety.CapHoldsExactly`,
  `PersonaPoolExamples.CapIsPassed`).
- `Never` is documented as one persona for the lifetime of the process
  (`guise/src/rotation.rs:19`); two sessions come to serve exactly when, while one is
  unburned, a session is restored or a burned one rotated
  (`PersonaPoolReuse.OnePersonaExactly`, `PersonaPoolExamples.TwoMayServe`).
- One persona per session: a creation whose 65 candidates clash, a rotation onto another
  session's identity (which does not look, so one clash is enough) and a restore of an
  active identity repeat one, and nothing else does
  (`PersonaPoolIdentities.RunKeepsIdentitiesExactly`, `PersonaPoolExamples.RotationRepeatsIdentity`).
  Seeds are shared exactly by a restore of a live seed or by drawing a seed another session
  carries (`PersonaPoolSeeds.RunKeepsDistinctSeedsExactly`, `RestoringALiveSessionDuplicates`),
  and a burned seed comes back exactly by drawing it again or by burning one of two sharers
  (`PersonaPoolSeeds.RunKeepsQuarantineExactly`, `PersonaPoolExamples.BurnedSeedIsBack`).
- `bfs` on a node list that is no tree: its queue runs empty exactly when the root is not its
  own ancestor (`FrameTraversal.QueueEndsExactly`, `RootInItsOwnSubtree`).
- `assemble` says pre-order resolves every parent (`foxdriver/src/frame_graph.rs:144-162`): a
  frame listed after one of its parent's id inside the same parent hangs below that one, and
  the depths are the walk's exactly when there is no such frame
  (`FrameProbes.DepthsMatchExactly`, `StrayIsTakenForDeepest`).
- The parent loop of `frame_viewport_offset` has no guard: it ends from every target exactly
  when no frames lead only to each other (`FrameViewport.LoopEndsExactly`), which a frame
  nested inside one of its own id can bring about and sibling repeats cannot
  (`FrameViewport.RepeatedIdLoops`, `EndsWithoutSelfNesting`).
- The comment on `read_text_frame` (`foxdriver/src/ready.rs:157-160`) says close frames are
  read past; the code ends with an error on one (`WebSocketFrames.ReaderStopsAtText`).
- `\0` before a digit is not a NUL to a JavaScript lexer (`JsEscape.RoundTripExactly`,
  `NulBeforeDigitIsLost`).
- `everyone_loses` is documented as "all three differ" (`guise-oracle/src/types.rs:650`); it
  also takes engine and disguise agreeing against stock (`CaptureThreeWay.EveryoneLosesExactly`,
  `AgreementAgainstStockIsListed`).
- `diff` depends on capture order exactly when a name is captured twice with entries a
  report tells apart (`CaptureDiffLaws.OrderMattersExactly`, `OrderMattersWithDuplicates`).

Standards: RFC 6455 sections 5.2 and 5.3 (WebSocket framing), RFC 9113 sections 3.4, 4.1,
6.3, 6.5 and 6.9 (HTTP/2 frames), ECMA-262 2023 section 12.9.4 (string literals).

## Model

| member | source | states |
|---|---|---|
| NetworkSpec.StepKeepsInv | foxdriver/src/network.rs:1230-1308 | every event and caller operation keeps: ids unique, outcomes pending only for ids not in the log, each outcome under its own id, both caps |
| NetworkSpec.ReachableInv | foxdriver/src/network.rs:604-637 | that invariant in every reachable state, for any caps and any run |
| NetworkSpec.StashFits | foxdriver/src/network.rs:1262-1270 | giving up one victim before a stash keeps the pending table within its cap |
| NetworkSpec.RemoveIsRetain | foxdriver/src/network.rs:862-878 | removing an id is retaining every other entry, untouched and in order |
| NetworkHistory.KeptRequests | foxdriver/src/network.rs:604-637 | the captured requests are the window of the latest first-requests, as long as no evicted id is asked again |
| NetworkHistory.WindowExactly | foxdriver/src/network.rs:604-626 | they are that window after every step of a run if and only if no evicted id is asked again |
| NetworkHistory.EvictedIdReturns | foxdriver/src/network.rs:604-626 | with room for one entry, requests a, b, a leave a alone: the latest first request is b |
| NetworkHistory.OutcomesReconciled | foxdriver/src/network.rs:1246-1308 | without a pending cap or returning ids, every entry carries the last response and error of its id, and the outcomes of ids never requested all wait, in any interleaving |
| NetworkHistory.LogIsFunctionOfHistory | foxdriver/src/network.rs:1230-1308 | without a pending cap or returning ids, the log equals a function of the history: one entry per id in order of first request with the last outcomes received |
| NetworkHistory.PendingIsFunctionOfHistory | foxdriver/src/network.rs:1253-1308 | without caps the pending tables hold exactly the last outcomes of the ids never requested |
| NetworkHistory.ReorderingChangesNothing | foxdriver/src/network.rs:1230-1308 | without caps, equal first requests and equal last outcomes per id leave equal entries and pending tables, whatever the order |
| NetworkFreshness.HeldExactly | foxdriver/src/network.rs:845-982 | on every legal run, any caps, removals, clears and drains included: for each id and kind the log has an outcome if and only if one came in since the last step that took one out by eviction, departure, victim or drain, and it is the last of those |
| NetworkFreshness.HeldStep | foxdriver/src/network.rs:1230-1308 | one event brings an outcome, takes one out, or leaves what the log has of an id alone |
| NetworkFreshness.NothingIsStale | foxdriver/src/network.rs:1230-1308 | so what an entry shows and what waits is the latest outcome received for its id |
| NetworkContents.StepMovesRequests | foxdriver/src/network.rs:604-982 | one event keeps, in order, the requests of the entries it does not evict, remove, refuse or clear, and appends the one it opens |
| NetworkContents.LiveRequests | foxdriver/src/network.rs:604-982 | after every legal run the captured requests are those of the steps that opened an entry and after which no step made it leave, in order |
| NetworkContents.ContentsExactly | foxdriver/src/network.rs:845-982 | after every legal run, any caps and caller operations included, the log equals a function of the history: those requests, each with the last outcomes since its own were last taken out |
| NetworkContents.WaitingExactly | foxdriver/src/network.rs:845-982 | what waits is, for every id without an entry, the last outcome since one was last taken out, and nothing for the others |
| NetworkHistory.WhenNoneReturns | foxdriver/src/network.rs:604-626 | distinct ids meet the window's condition, and without a cap every history does |
| NetworkLedger.StepBalances | foxdriver/src/network.rs:1230-1308 | one event moves outcomes between entry, pending table and ledger without creating or losing any |
| NetworkLedger.NothingIsLost | foxdriver/src/network.rs:845-982 | over every run each response and error is, exactly once, held, waiting, departed with its entry, replaced, dropped, overwritten while waiting, or drained; the counters agree; entries pushed = present + evicted + removed |
| NetworkLedger.RequestSplits | foxdriver/src/network.rs:1230-1244 | a request moves what waited for it onto its entry; a duplicate request takes nothing that waits |
| NetworkLedger.StepKeepsCounters | foxdriver/src/network.rs:1250-1307 | duplicate and dropped counters grow exactly with what is replaced and given up |
| NetworkLedger.StepKeepsEntryCount | foxdriver/src/network.rs:604-626 | entries pushed always equal those present, evicted and removed |
| NetworkAccounting.CountersAddUpExactly | foxdriver/src/network.rs:1246-1308 | on every legal run received = held + waiting + departed + drained + the two counters if and only if no step overwrites a waiting outcome; for responses and for errors |
| NetworkAccounting.GivesUpExactly | foxdriver/src/network.rs:1262-1270 | a waiting outcome is given up, and counted, if and only if one arrives for an id without an entry while a positive cap's worth of its kind is waiting |
| NetworkAccounting.OverwrittenExactly | foxdriver/src/network.rs:1262-1270 | the ledger's overwritten outcomes are none exactly when no outcome arrives for an absent id whose earlier one still waits and is not given up |
| NetworkAccounting.OverwrittenIsUncounted | foxdriver/src/network.rs:1269-1269 | two responses for one id and no request: two received, one waits, no counter knows of the other |
| NetworkAccounting.DropsAreUnheardEntries | foxdriver/src/network.rs:633-636 | the broadcast-drop counter is the number of entries opened while nobody listened |
| NetworkDrops.DropsStandStill | foxdriver/src/network.rs:633-636 | while somebody listens in every state the drop counter does not move, whatever happens |
| NetworkDrops.WaiterIsCounted | foxdriver/src/network.rs:668-670 | in every interleaving the waiter holds one receiver exactly while it listens |
| NetworkDrops.MissedIsCountedExactly | foxdriver/src/network.rs:665-670 | while a subscriber listens, what it has missed is in the drop counter if and only if it has missed nothing |
| NetworkDrops.LagsExactly | foxdriver/src/network.rs:1033-1040 | a waiting receiver is told that it lags if and only if more than 1024 messages were unread; otherwise it gets the next one |
| NetworkDrops.SlowSubscriberIsUncounted | foxdriver/src/network.rs:665-670 | a subscriber that receives nothing during 1025 requests loses its oldest message and gives up; the drop counter stands at zero |
| NetworkWaiter.SendsWhatItAnnounces | foxdriver/src/network.rs:629-637 | a step broadcasts at most one message, and one the waiter wants exactly when it updates or opens a matching entry |
| NetworkWaiter.FoundIsAnyMatch | foxdriver/src/network.rs:985-1028 | the check of the existing entries succeeds exactly when some entry matches |
| NetworkWaiter.ContainsExactly | foxdriver/src/network.rs:1002-1002 | a URL contains the needle if and only if it is something, the needle, and something |
| NetworkWaiter.AppearanceIsAnnounced | foxdriver/src/network.rs:1230-1308 | a matching entry cannot appear without being broadcast |
| NetworkWaiter.OwedExactlyWhenWoken | foxdriver/src/network.rs:985-1041 | from subscription on, in every interleaving, the waiter has or is owed its entry exactly when a check or a later step met its goal |
| NetworkWaiter.OwedEntryIsReturned | foxdriver/src/network.rs:1030-1041 | a waiter owed an entry returns one by the time it has read that far, even if the entry was evicted meanwhile |
| NetworkWaiter.NoLostWakeup | foxdriver/src/network.rs:1012-1041 | once woken, a waiter that neither times out nor lags returns a matching entry after reading what is unread |
| NetworkInner.IndexIsLookup | foxdriver/src/network.rs:562-566 | an index that inverts position to id answers every lookup as a search of the entries would |
| NetworkInner.Inner.constructor | foxdriver/src/network.rs:578-602 | an empty, valid log with the given caps |
| NetworkInner.Inner.SetReceivers | foxdriver/src/network.rs:668-670 | subscribers come and go and nothing else changes |
| NetworkInner.Inner.EvictOldest | foxdriver/src/network.rs:610-627 | drops just enough of the oldest entries for one more, counts them and rebuilds the index |
| NetworkInner.Inner.PushEntry | foxdriver/src/network.rs:604-637 | in place: duplicates ignored, oldest evicted, index rebuilt, entry broadcast; the new state is the specified one |
| NetworkInner.Inner.IngestBeforeRequestSent | foxdriver/src/network.rs:1230-1244 | in place: one request step, index kept the inverse of the entries |
| NetworkInner.Inner.IngestResponseCompleted | foxdriver/src/network.rs:1246-1271 | in place: one response step for some victim the table's order may give up |
| NetworkInner.Inner.IngestFetchError | foxdriver/src/network.rs:1273-1308 | in place: one failure step for some victim |
| NetworkInner.Inner.RemoveById | foxdriver/src/network.rs:862-878 | takes out the entry with the id and shifts the index, or does nothing; returns what it removed |
| NetworkInner.Inner.Retain | foxdriver/src/network.rs:966-982 | keeps the entries the predicate accepts, in order, with the index rebuilt |
| NetworkInner.Inner.Clear | foxdriver/src/network.rs:845-849 | empties entries and index only |
| NetworkInner.Inner.DrainPending | foxdriver/src/network.rs:956-963 | returns exactly what waited, with multiplicity, and empties both tables |
| NetworkInner.MakeRoom | foxdriver/src/network.rs:1262-1268 | gives up exactly one pending outcome when the table is full, none otherwise |
| NetworkInner.ShiftDown | foxdriver/src/network.rs:866-876 | positions after the removed entry move down by one |
| SeedExpansion.MixIsAPermutation | guise-choice/src/lib.rs:59-65 | each xor-shift and odd multiplication of the mixer is inverted: a permutation of the 64-bit words |
| SeedExpansion.SeedFromU64 | guise-choice/src/lib.rs:37-45 | fills the 32-byte buffer in place with four chained mixed words, little-endian |
| SeedExpansion.ChainExtends | guise-choice/src/lib.rs:37-45 | the buffer grows by the mix of the last word |
| SeedExpansion.ExpandIsInjective | guise-choice/src/lib.rs:37-45 | two words expand alike, in their first eight bytes already, exactly when they are equal |
| SeedExpansion.SeedOfIsInjective | guise/src/sampling.rs:21-25 | distinct 64-bit counters never share a seed |
| SeedExpansion.LeBytesRoundTrip | guise-choice/src/lib.rs:40-43 | a word is read back from its little-endian bytes |
| SeedExpansion.FromLeBytesRoundTrip | guise/src/sampling.rs:39-60 | eight bytes are read back from the word they make |
| SeedExpansion.DeriveRemembersFirstWord | guise/src/sampling.rs:39-60 | a labelled sub-seed is the same for two parents exactly when their first eight bytes are |
| SeedExpansion.SubSeedsOfCountersAreDistinct | guise/src/sampling.rs:39-60 | sub-seeds of distinct counters stay distinct under every label |
| SeedVectors.SplitMix64Outputs | guise-choice/src/lib.rs:59-65 | the first three published outputs of SplitMix64 from state 0 |
| SeedVectors.FirstSeeds | guise-choice/src/lib.rs:37-45 | the 32 bytes of the seeds of 0 and 1 |
| SeedVectors.ByteOrder | guise-choice/src/lib.rs:43-43 | least significant byte first |
| SeedVectors.OneMoreByte | guise/src/sampling.rs:51-53 | a label's bytes are mixed in one after another |
| SeedVectors.LastByteTells | guise/src/sampling.rs:39-60 | labels that differ in their last byte give different sub-seeds of every seed |
| PersonaPoolSpec.FirstFreeIsUnique | guise/src/persona_pool.rs:483-494 | the id the wrapping search finds is determined by the live ids and the counter |
| PersonaPoolSpec.FirstFreeIsLeast | guise/src/persona_pool.rs:483-494 | it is the least free id from the counter up, or past the largest 64-bit id the least free of all |
| PersonaPoolSpec.NoEarlyWrap | guise/src/persona_pool.rs:483-494 | fewer than 2^64 consecutive ids never repeat |
| PersonaPoolSpec.StepKeepsInv | guise/src/persona_pool.rs:284-450 | every operation, restores included, keeps sessions under their own ids and every binding on a live, unburned session |
| PersonaPoolSpec.RunKeepsInv | guise/src/persona_pool.rs:284-450 | that invariant in every reachable state |
| PersonaPoolSafety.StepKeepsPersonas | guise/src/persona_pool.rs:284-450 | no step removes a session, and only rotating an idle one replaces its persona |
| PersonaPoolSafety.BusySessionKeepsPersona | guise/src/persona_pool.rs:357-374 | a session in use throughout a run keeps its seed and identity |
| PersonaPoolSafety.AcquiredIsUnburned | guise/src/persona_pool.rs:284-335 | an acquisition hands out a live, unburned session and counts the request on it |
| PersonaPoolSafety.ReleaseUndoesAcquire | guise/src/persona_pool.rs:342-349 | a release gives back the in-flight count an acquisition took, if and only if the 32-bit count did not wrap, and touches nothing else |
| PersonaPoolEffects.OneRequestCounted | guise/src/persona_pool.rs:324-333 | a granted acquisition counts one request on its session as a 64-bit word and leaves every other session and the quarantine alone |
| PersonaPoolEffects.ReleaseLeaves | guise/src/persona_pool.rs:342-349 | a release takes one from the in-flight count, or leaves an idle session idle, and nothing else changes |
| PersonaPoolEffects.RotationLeaves | guise/src/persona_pool.rs:366-373 | a rotation gives the session the next seed, unburned and unused, binds the domain to it, and sets the policy's count to 0; nothing else changes |
| PersonaPoolEffects.RotationRefusedExactly | guise/src/persona_pool.rs:357-364 | a rotation is refused if and only if the session is unknown or busy, with its id and how busy it is |
| PersonaPoolEffects.RotationStartsCountAgain | guise/src/persona_pool.rs:372-372 | under PerRequests of a positive n the first request granted after a rotation opens a session |
| PersonaPoolEffects.BurnLeaves | guise/src/persona_pool.rs:384-393 | a burn unbinds exactly the session's domains and quarantines exactly its seed |
| PersonaPoolEffects.BurnedIsNeverServed | guise/src/persona_pool.rs:376-416 | over any run in which it is not rotated while idle a burned session is granted to no acquisition and its snapshot is refused |
| PersonaPoolEffects.UnknownIsRefused | guise/src/persona_pool.rs:342-393 | releasing, rotating or burning an unknown session is refused by its id and changes nothing |
| PersonaPoolEffects.StaysAheadExactly | guise/src/persona_pool.rs:423-427 | a step keeps the id counter above every id in the pool if and only if no session then has the largest 64-bit id |
| PersonaPoolEffects.RunStaysAheadExactly | guise/src/persona_pool.rs:423-427 | over any run from an empty pool likewise |
| PersonaPoolEffects.NewIdsRise | guise/src/persona_pool.rs:483-494 | so until then a new session's id is the counter, above every id there is |
| PersonaPoolEffects.RestoreMovesCounter | guise/src/persona_pool.rs:418-427 | a restore moves the counter past the id it gives where it was not already, never beyond the largest |
| PersonaPoolSafety.StepKeepsBinding | guise/src/persona_pool.rs:284-393 | under PerSession, in a pool that has served a request, a step moves a domain's binding exactly by burning its session or rotating another onto the domain |
| PersonaPoolSafety.BoundDomainIsReused | guise/src/rotation.rs:50-69 | under PerSession a bound domain gets its session back exactly when the pool has served a request |
| PersonaPoolSafety.DomainSticks | guise/src/persona_pool.rs:284-335 | until such a burn or rotation every acquisition of the domain returns the same id |
| PersonaPoolSafety.BindingSticks | guise/src/persona_pool.rs:259-335 | the binding itself stays over the whole run |
| PersonaPoolRotation.RefusedExactly | guise/src/persona_pool.rs:285-290 | an acquisition is refused if and only if the cap is positive and reached and the domain has no session |
| PersonaPoolRotation.GrantedExactly | guise/src/rotation.rs:50-69 | for each policy, which granted acquisitions open a session, by the domain's binding, the last target and the request count; the others return the domain's session |
| PersonaPoolRotation.GrantLeaves | guise/src/rotation.rs:73-76 | a granted acquisition leaves its domain the last target, counts one request and binds the domain to the session |
| PersonaPoolRotation.SameTargetSameSession | guise/src/rotation.rs:56-60 | under PerTarget a domain keeps the session it was granted over any run that neither burns it, rotates another onto the domain, nor serves another domain |
| PersonaPoolRotation.OtherTargetOpens | guise/src/rotation.rs:56-60 | under PerTarget a granted acquisition of a domain other than the last one served opens a session, whether or not the domain had one |
| PersonaPoolRotation.RequestsAreCounted | guise/src/rotation.rs:73-76 | after any requests and releases from an empty pool the counter is the number of granted requests modulo 2^64, and the bound domains are those served |
| PersonaPoolRotation.EveryNthOpens | guise/src/rotation.rs:61-67 | under PerRequests(n), after any requests and releases from an empty pool, a granted request opens a session if and only if its domain is new or the number granted so far is a multiple of a positive n |
| PersonaPoolRotation.NewDomainOpens | guise/src/rotation.rs:54-55 | under PerSession, likewise, if and only if its domain is new |
| PersonaPoolReuse.StepKeepsOneExactly | guise/src/persona_pool.rs:284-433 | under Never, a step keeps at most one session unburned if and only if it is not a restore, or the rotation of a burned session, while one is unburned |
| PersonaPoolReuse.OnePersonaExactly | guise/src/persona_pool.rs:284-433 | under Never, over any run, at most one session is unburned in every state if and only if no such step happens |
| PersonaPoolReuse.OnePersonaServesAll | guise/src/persona_pool.rs:299-301 | under Never, as long as none happens, every acquisition for any domain returns the unburned session with its persona unchanged, until it is burned or rotated, or is refused by the cap |
| PersonaPoolReuse.ServedIsDeterminedExactly | guise/src/persona_pool.rs:259-264 | under Never, below the cap, which session an acquisition gets is determined if and only if at most one is unburned |
| PersonaPoolExamples.TwoMayServe | guise/src/persona_pool.rs:299-374 | under Never, from an empty pool and without a restore: acquire, burn, acquire, rotate the burned session; either of two may now be handed out |
| PersonaPoolSafety.CapIsExceededExactly | guise/src/persona_pool.rs:285-322 | at the cap an acquisition adds a session if and only if its domain is bound and the policy rotates |
| PersonaPoolSafety.RestoreIgnoresCap | guise/src/persona_pool.rs:412-433 | a restore adds a session exactly when its seed is not quarantined, whatever the cap |
| PersonaPoolSafety.StepKeepsLimitExactly | guise/src/persona_pool.rs:284-433 | over all operations, a step passes the cap if and only if the pool is full and it is an acquisition of a bound domain under a rotating policy, or a restore |
| PersonaPoolSafety.CapHoldsExactly | guise/src/persona_pool.rs:284-433 | over any run the cap holds in every state if and only if no such step happens |
| PersonaPoolExamples.CapIsPassed | guise/src/persona_pool.rs:285-316 | room for one session and a rotation at every request: two acquisitions of one domain from an empty pool leave two sessions |
| PersonaPoolSafety.CapHolds | guise/src/persona_pool.rs:285-322 | without restores, under Never, PerSession or PerRequests(0), the session count never exceeds a positive cap |
| PersonaPoolIdentities.NewPersonaIsDistinct | guise/src/persona_pool.rs:435-458 | a new session's identity clashes with an active one if and only if all 65 candidate seeds do |
| PersonaPoolRotation.ThreeFieldsTell | guise/src/persona_pool.rs:450-458 | an identity repeats a session's if and only if profile, hardware and time zone all agree |
| PersonaPoolIdentities.RotationKeepsIdentities | guise/src/persona_pool.rs:357-374 | a rotation keeps identities distinct if and only if no other session has the identity of the one seed it draws |
| PersonaPoolIdentities.RotationTakesWhatCreationSkips | guise/src/persona_pool.rs:357-374 | wherever the next seed clashes and the one after does not, a creation draws past it and a rotation takes it |
| PersonaPoolExamples.RotationRepeatsIdentity | guise/src/persona_pool.rs:357-374 | a run from an empty pool that meets that: two domains, two identities, and rotating the idle second session gives it the first one's |
| PersonaPoolIdentities.StepKeepsIdentitiesExactly | guise/src/persona_pool.rs:284-458 | over all operations, identities stay distinct except exactly at a creation whose 65 candidates clash, a rotation onto another's identity, a restore of an active identity |
| PersonaPoolIdentities.RunKeepsIdentitiesExactly | guise/src/persona_pool.rs:284-458 | over any run identities are distinct in every state if and only if no such step happens |
| PersonaPoolSeeds.SeedsStayDistinct | guise/src/persona_pool.rs:357-393 | without restores, until the seed counter runs out, sessions carry pairwise distinct seeds and a quarantined seed is carried by burned sessions only |
| PersonaPoolSeeds.SeedsLast | guise/src/persona_pool.rs:435-500 | the counter lasts for at least 2^64 / 65 operations |
| PersonaPoolSeeds.StepKeepsDistinctSeedsExactly | guise/src/persona_pool.rs:357-450 | over all operations, seeds stay distinct except exactly at a creation or rotation whose drawn seed another session carries, or a restore of a live seed |
| PersonaPoolSeeds.RunKeepsDistinctSeedsExactly | guise/src/persona_pool.rs:357-450 | over any run, restores included, seeds are distinct in every state if and only if no such step happens |
| PersonaPoolSeeds.CreationSharesOnlyClashes | guise/src/persona_pool.rs:435-450 | a creation shares a seed only when all its 65 candidates clash |
| PersonaPoolSeeds.StepKeepsQuarantineExactly | guise/src/persona_pool.rs:384-450 | a quarantined seed stays off unburned sessions except exactly when a step draws it or burns one of two sharing it |
| PersonaPoolSeeds.RunKeepsQuarantineExactly | guise/src/persona_pool.rs:384-450 | over any run the quarantine holds in every state if and only if no such step happens |
| PersonaPoolExamples.BurnedSeedIsBack | guise/src/persona_pool.rs:357-433 | from an empty pool a restored session with the first seed is burned; a second restored session, rotated, carries that seed unburned |
| PersonaPoolSeeds.RestoreSharesExactly | guise/src/persona_pool.rs:412-433 | a restore keeps seeds distinct if and only if the restored seed is not live |
| PersonaPoolSeeds.NewDrawIsNew | guise/src/persona_pool.rs:496-500 | a counter not drawn yet gives a seed no earlier counter gave |
| PersonaPoolSeeds.SnapshotRestores | guise/src/persona_pool.rs:400-433 | restoring a snapshot gives a session with its seed, identity and request count in a free slot, and is refused exactly when the seed is quarantined |
| PersonaPoolSeeds.RestoringALiveSessionDuplicates | guise/src/persona_pool.rs:412-433 | restoring the snapshot of a live session always duplicates its persona |
| PersonaPool.SearchEnds | guise/src/persona_pool.rs:483-494 | fewer than 2^64 live ids cannot fill the circle of ids, so the search for a free one ends |
| PersonaPool.Manager.constructor | guise/src/persona_pool.rs:235-245 | an empty pool whose counters start at 1, satisfying the invariant |
| PersonaPool.Manager.FreshId | guise/src/persona_pool.rs:483-494 | terminates, wraps, and returns the first id no live session has |
| PersonaPool.Manager.FreshSeed | guise/src/persona_pool.rs:496-500 | the seed of the counter, which advances by one modulo 2^64 |
| PersonaPool.Manager.SettleSession | guise/src/persona_pool.rs:435-450 | redraws until the identity is not active, at most 65 draws in all |
| PersonaPool.Manager.CreateSession | guise/src/persona_pool.rs:435-450 | a session under a free id, with the chosen seed |
| PersonaPool.Manager.Acquire | guise/src/persona_pool.rs:284-335 | in place: one acquisition step, its id or its capacity error |
| PersonaPool.Manager.Release | guise/src/persona_pool.rs:342-349 | in place: one release step; the count saturates at zero |
| PersonaPool.Manager.Rotate | guise/src/persona_pool.rs:357-374 | in place: one rotation step under the same id, or its error for an unknown or busy session |
| PersonaPool.Manager.MarkBurned | guise/src/persona_pool.rs:384-393 | in place: burns, quarantines the seed and unbinds every domain of the session |
| PersonaPool.Manager.TakeSnapshot | guise/src/persona_pool.rs:400-407 | id, seed and request count of a live session |
| PersonaPool.Manager.RestoreSnapshot | guise/src/persona_pool.rs:412-433 | in place: one restore step, under the snapshot's id if free |
| PersonaPool.Manager.UseSession | guise/src/rotation.rs:73-76 | counts the request on the session and in the rotation state |
| FrameForest.Walk | foxdriver/src/browser.rs:877-898 | pushes the pre-order list of a forest onto the shared vector, recursing into child lists |
| FrameForest.Assemble | foxdriver/src/frame_graph.rs:144-193 | builds the node list with the last-seen parent index, attaching unknown parents to the root |
| FrameForest.GraphIsATree | foxdriver/src/frame_graph.rs:144-193 | whatever the entries, even repeated or out-of-order ids, parents come before children and depth counts the steps to the root |
| FrameForest.Children | foxdriver/src/frame_graph.rs:206-218 | exactly the nodes with that parent, ascending |
| FrameForest.GraphRebuildsForest | foxdriver/src/frame_graph.rs:144-193 | on the walk of a forest with distinct ids, reading the graph back from the root gives the forest exactly |
| FrameForest.EveryFrameIsPlaced | foxdriver/src/frame_graph.rs:144-193 | node i+1 is the i-th frame, one deeper than the walk says, under its true parent; the fallback is never taken |
| FrameForest.FlattenIsLaid | foxdriver/src/browser.rs:877-898 | every part of the pre-order list is a sub-forest hanging below the node of its parent |
| FrameTraversal.Bfs | foxdriver/src/frame_graph.rs:224-238 | on every node list on which the queue runs empty, the loop ends with each node below the root once, after its parent; on a tree with a breadth-first order of every node |
| FrameTraversal.QueueEndsExactly | foxdriver/src/frame_graph.rs:224-238 | on any node list, tree or not, the queue loop ends if and only if the root is not its own ancestor |
| FrameTraversal.TreesEnd | foxdriver/src/frame_graph.rs:224-238 | on every tree it ends |
| FrameTraversal.RootInItsOwnSubtree | foxdriver/src/frame_graph.rs:224-238 | two nodes that are each other's parent: the queue never runs empty |
| FrameTraversal.BreadthFirstEnd | foxdriver/src/frame_graph.rs:224-238 | such an order is a permutation of all nodes, parents before children, depth non-decreasing |
| FrameTraversal.BreadthFirstIsUnique | foxdriver/src/frame_graph.rs:224-238 | a tree has one breadth-first order only |
| FrameTraversal.AncestorsInclusive | foxdriver/src/frame_graph.rs:261-277 | ends on any node list, cyclic ones included, visiting no node twice; on a tree it is the path to the root |
| FrameTraversal.PathUpDescends | foxdriver/src/frame_graph.rs:261-277 | that path has depth + 1 nodes, ends at 0 and never trips the cycle guard |
| FrameTraversal.DeepestCaptcha | foxdriver/src/frame_graph.rs:246-253 | the marked node of greatest depth, the last of those |
| FrameProbes.NodesCarry | foxdriver/src/frame_graph.rs:181-190 | node i+1 carries the i-th entry's id, URL, title and marker |
| FrameProbes.ProbesArrive | foxdriver/src/frame_graph.rs:103-193 | so the node of each listed frame carries what its own probe found |
| FrameProbes.CaptchaIsMarked | foxdriver/src/frame_graph.rs:240-253 | on any list and probes a captcha is found if and only if some frame is marked, and then at a marked frame |
| FrameProbes.ParentIs | foxdriver/src/frame_graph.rs:164-180 | a frame's node hangs below its parent's if and only if no frame of the parent's id is listed between the two; else below the last of those |
| FrameProbes.DepthsMatchExactly | foxdriver/src/frame_graph.rs:164-180 | on the walk of any forest every node is one deeper than the walk says if and only if no frame has such a one between |
| FrameProbes.CaptchaIsDeepest | foxdriver/src/frame_graph.rs:240-253 | then the captcha found is the marked frame of greatest walk depth, the last of those |
| FrameProbes.UnnestedNeverStrays | foxdriver/src/frame_graph.rs:164-180 | which holds where no frame is nested inside one of its own id |
| FrameProbes.StrayIsTakenForDeepest | foxdriver/src/frame_graph.rs:164-253 | five frames, one under the wrong parent: it is taken for the deepest though a marked frame as deep comes later |
| FrameViewport.ViewportChain | foxdriver/src/frame.rs:246-259 | the unguarded parent loop, wherever it ends at all, returns the frames it stood at, turn by turn |
| FrameViewport.LoopEndsExactly | foxdriver/src/frame.rs:250-259 | for any listed frames the loop ends from every target if and only if no nonempty set of frames leads only into itself |
| FrameViewport.EndsWithinLength | foxdriver/src/frame.rs:250-259 | from one target it ends if and only if it has ended after as many turns as there are frames |
| FrameViewport.EndsWithoutSelfNesting | foxdriver/src/frame.rs:250-259 | on the walk of a forest in which no frame is nested inside one of its own id it ends from every target, whatever ids repeat elsewhere |
| FrameViewport.WalkPlaces | foxdriver/src/browser.rs:877-898 | each walked frame names the given parent or one that was listed before it and encloses it |
| FrameViewport.WalkClimbsPath | foxdriver/src/frame.rs:250-259 | on the walk of a forest with distinct ids the loop climbs the graph's path to the root, turn by turn, and ends there |
| FrameViewport.RepeatedIdLoops | foxdriver/src/frame.rs:250-259 | for the forest a in b in a the loop from a alternates between two frames after any number of turns |
| FrameViewport.SelfNestingMayEnd | foxdriver/src/frame.rs:250-259 | that forest with one more frame b: an id is still nested in itself, and the loop ends from every target |
| FrameViewport.AboveIsParent | foxdriver/src/frame.rs:253-258 | one turn of the loop is one parent link of the graph |
| DialogSpec.ListRefinesStacks | foxdriver/src/dialog.rs:84-99 | after any history the open records of each key in the flat list are its open/close stack without what the bound dropped |
| DialogSpec.RunIsBounded | foxdriver/src/dialog.rs:84-99 | no history leaves more than 1000 records |
| DialogSpec.PushKeepsLatest | foxdriver/src/dialog.rs:84-99 | a record goes to the end, and only a list of 1000 or more gives up its oldest for it |
| DialogSpec.OpenRecordsAreTheStack | foxdriver/src/dialog.rs:145-154 | what a caller sees as open for a key is that part of its stack, in order |
| DialogSpec.StepKeepsRecords | foxdriver/src/dialog.rs:191-214 | a retained record keeps its key and data, and once closed never changes |
| DialogSpec.ClosedRecordIsFinal | foxdriver/src/dialog.rs:191-214 | over any further history without a clear, a closed record still retained is as it was closed |
| DialogLog.FindLastOpen | foxdriver/src/dialog.rs:196-204 | the reverse search finds the newest open record of the key |
| DialogLog.Inner.PushDialog | foxdriver/src/dialog.rs:84-90 | appends and drops the oldest beyond 1000 |
| DialogLog.Inner.PushDownload | foxdriver/src/dialog.rs:92-98 | appends and drops the oldest beyond 1000 |
| DialogLog.Inner.IngestOpened | foxdriver/src/dialog.rs:174-186 | one open on the dialog list, downloads untouched |
| DialogLog.Inner.IngestClosed | foxdriver/src/dialog.rs:191-214 | closes the newest open dialog of the context in place, or records the close alone |
| DialogLog.Inner.IngestDownloadBegin | foxdriver/src/dialog.rs:217-226 | one open on the download list, keyed by context and URL |
| DialogLog.Inner.IngestDownloadEnd | foxdriver/src/dialog.rs:230-274 | closes the newest download in flight of that context and URL in place, or records it alone |
| DialogLog.Inner.Clear | foxdriver/src/dialog.rs:167-171 | empties both lists |
| DialogLog.Inner.OpenDialogs | foxdriver/src/dialog.rs:145-154 | the dialogs without an outcome, in order |
| WebSocketFrames.TextFrame | foxdriver/src/ready.rs:138-155 | writes the masked text frame in the shortest length form |
| WebSocketFrames.MaskedTwice | foxdriver/src/ready.rs:153-153 | masking is its own inverse |
| WebSocketFrames.FrameRoundTrip | foxdriver/src/ready.rs:161-191 | a well-formed frame of any length form, masked or not, reads back exactly unless longer than the limit |
| WebSocketFrames.ReaderStopsAtText | foxdriver/src/ready.rs:161-198 | after any run of other frames the reader stops at the first text, close or oversized frame, and consumes exactly up to its end |
| WebSocketFrames.ClientFrameRoundTrip | foxdriver/src/ready.rs:138-198 | what the client writes reads back if and only if it is at most 65536 bytes |
| WebSocketFrames.ReadTextFrame | foxdriver/src/ready.rs:161-198 | the loop over stream reads computes the specified result and leaves exactly the rest |
| WebSocketFrames.UnmaskInPlace | foxdriver/src/ready.rs:187-191 | unmasks the payload where it was read |
| WebSocketFrames.TakeLength | foxdriver/src/ready.rs:167-177 | seven bits, two bytes or eight bytes of length |
| WebSocketWire.XorIsExclusive | foxdriver/src/ready.rs:153-153 | each bit of a masked byte is set exactly where the payload's and the mask's bits differ |
| WebSocketWire.ClientBytes | foxdriver/src/ready.rs:138-155 | what the client sends byte by byte: 0x81, the mask bit and the length in 7 bits, 2 or 8 bytes, the mask, and each payload bit inverted exactly where the mask's bit is 1 |
| WebSocketWire.HeadBytes | foxdriver/src/ready.rs:161-186 | any frame's two first bytes, its length digits and its mask, by position |
| WebSocketWire.BodyIsMasked | foxdriver/src/ready.rs:187-191 | the rest is the payload, as it is or masked bit by bit |
| WebSocketWire.CutStream | foxdriver/src/ready.rs:161-198 | after any run of other frames, any proper beginning of a frame ends in the end-of-stream error |
| WebSocketWire.EveryFrameIsWellFormed | foxdriver/src/ready.rs:161-191 | whatever bytes the reader takes for a frame are the serialisation of a well-formed one with the opcode and payload it reports |
| H2Capture.CaptureProjects | echo/src/lib.rs:348-428 | for at most 32 well-formed frames after the preface the capture is the in-order projection of their settings, increments and priorities |
| H2Capture.FrameProjects | echo/src/lib.rs:367-425 | one well-formed frame, any reserved bits, is read whole and costs one of the budget |
| H2Capture.CaptureIgnoresUnread | echo/src/lib.rs:348-428 | unless the capture ended for want of bytes, any other bytes may follow what was read |
| H2Capture.CaptureIsSound | echo/src/lib.rs:449-494 | on any input, even one refused half way, captured increments are in 1..2^31-1, no priority is for stream 0 or on itself, at most 32 of both |
| H2Capture.PairsRoundTrip | echo/src/lib.rs:430-447 | serialised settings with distinct ids are read back whole |
| H2Capture.PairsAreSound | echo/src/lib.rs:430-447 | what a SETTINGS frame adds never repeats an id, even when the frame is refused |
| H2Capture.ConnectionInfo.ReadPrefaceAndFrames | echo/src/lib.rs:348-428 | the loop over stream reads fills the capture in place as specified and stops at the specified byte |
| H2Capture.ConnectionInfo.ParseSettings | echo/src/lib.rs:430-447 | pushes the pairs up to the first repeated id, and reports it |
| H2Capture.ConnectionInfo.ParseWindowUpdate | echo/src/lib.rs:449-470 | pushes the increment without its reserved bit, or refuses |
| H2Capture.ConnectionInfo.ParsePriority | echo/src/lib.rs:472-494 | pushes the priority with its exclusive bit split off, or refuses |
| H2Wire.StopsByBytes | echo/src/lib.rs:377-406 | after the preface and fewer than 32 well-formed frames, a nine-byte header of type 0, 1 or 9, or an empty SETTINGS acknowledgement, of any flags and stream, stops the capture there with the projection of the frames |
| H2Wire.RefusedByBytes | echo/src/lib.rs:383-401 | which headers are refused, by their bytes, with which error |
| H2Wire.HeadersAreJudged | echo/src/lib.rs:377-406 | a header is read on if and only if it neither stops nor is refused |
| H2Wire.PayloadRefused | echo/src/lib.rs:430-494 | which payloads are refused, by their bytes, with which error and nothing added |
| H2Wire.RepeatRefused | echo/src/lib.rs:437-447 | a SETTINGS frame that repeats an id is refused, the settings before it kept |
| H2Wire.EndsBetweenFrames | echo/src/lib.rs:369-375 | fewer than nine bytes where a header is due end the capture without error |
| H2Wire.EndsWithBudget | echo/src/lib.rs:369-427 | after 32 frames nothing more is read |
| H2Wire.CutPayload | echo/src/lib.rs:408-417 | a payload cut short is an error that keeps the frames before it |
| H2Wire.NoPreface | echo/src/lib.rs:359-367 | a preface cut short or not that of RFC 9113 is an error, and nothing is captured |
| H2Wire.PrefaceText | echo/src/lib.rs:355-355 | the preface character by character |
| H2Wire.FrameBytes | echo/src/lib.rs:377-381 | a well-formed frame's length, type, flags, reserved bit and stream, by position |
| H2Wire.PayloadBytes | echo/src/lib.rs:449-494 | the bytes of window updates and priorities |
| H2Wire.PairBytes | echo/src/lib.rs:438-441 | the bytes of each setting |
| H2Wire.EveryFrameIsWellFormed | echo/src/lib.rs:377-424 | whatever is read without error is the serialisation of a well-formed frame, and adds its projection |
| BufferedStream.Buffered.PollRead | echo/src/lib.rs:545-559 | a read takes some of the bytes ahead, the replayed ones first |
| BufferedStream.Buffered.ReadExact | echo/src/lib.rs:528-560 | however reads are split, the replayed connection is the connection from its start |
| JsEscape.EscapeJsString | foxdriver/src/frame.rs:51-68 | the loop builds the escaped string |
| JsEscape.LexEscaped | foxdriver/src/frame.rs:51-68 | a lexer for the literal stops at that very quote, decoding the string, or a shorter one when a NUL stands before an octal digit; strict code refuses exactly a NUL before a digit |
| JsEscape.RoundTripExactly | foxdriver/src/frame.rs:51-68 | escaping round-trips if and only if no NUL stands directly before a digit the lexer joins to it |
| JsEscape.ReadsBack | foxdriver/src/frame.rs:51-68 | every character but NUL is read back from its escape, whatever follows |
| JsEscape.NulBeforeDigitIsLost | foxdriver/src/frame.rs:61-61 | a concrete string that does not survive |
| JsTables.EscapesAre | foxdriver/src/frame.rs:51-68 | the nine escapes one by one; any other character stands for itself |
| JsTables.EscapeConcat | foxdriver/src/frame.rs:51-68 | a string is escaped piece by piece |
| JsTables.NothingIsRaw | foxdriver/src/frame.rs:51-68 | an escaped string holds no line terminator of any kind, no tab and no NUL |
| JsEscape.Utf16IsInjective | foxdriver/src/frame.rs:51-68 | the decoded code units determine the string |
| JsTables.EncodeIsUtf16 | foxdriver/src/frame.rs:51-68 | a code point below 2^16 is its own unit; above, a high and a low surrogate that give it back |
| Backoff.FromNanosClamped | guise-pacing/src/lib.rs:72-82 | exactly the smaller of the nanoseconds and the clamp, despite the truncating cast |
| Backoff.CappedPow2IsExact | guise-pacing/src/lib.rs:407-424 | min(base * 2^attempt, min(max, 60 s)) in unbounded integers, for all inputs |
| Backoff.CappedPow2IsMonotone | guise-pacing/src/lib.rs:407-424 | a later attempt, a longer base or a larger cap never waits less |
| Backoff.DelayIsExact | guise-pacing/src/lib.rs:348-354 | min(base * 2^attempt, 60 s) in unbounded integers |
| Backoff.BackoffsAgreeExactly | guise-pacing/src/lib.rs:431-437 | the two backoffs agree if and only if the maximum is at least 60 s or the undamped delay is within it |
| Backoff.SaturationIsInvisible | guise-pacing/src/lib.rs:592-599 | neither saturation nor the cut-off shift shows under a cap the word can hold |
| Backoff.JitteredBackoff | guise-pacing/src/lib.rs:472-486 | min(base * m / 1000, 60 s) for the nonce's m, between 80% and 120% of the base |
| Backoff.JitterWordIsInjective | guise-pacing/src/lib.rs:477-480 | scrambling a nonce loses nothing: distinct nonces have distinct words |
| Backoff.PerMilleExactly | guise-pacing/src/lib.rs:482-482 | a word asks for m thousandths if and only if it is m - 800 modulo 401 |
| Backoff.EveryFactorIsReached | guise-pacing/src/lib.rs:472-486 | every factor from 800 to 1200 thousandths is some nonce's |
| Backoff.FirstJitterWords | guise-pacing/src/lib.rs:477-480 | the words of nonces 0, 1 and 2 |
| Backoff.SomeDelays | guise-pacing/src/lib.rs:407-424 | four delays in numbers |
| CaptureDiff.Diff | guise-oracle/src/types.rs:540-620 | the loop and sort produce the report specified of the two name indexes |
| CaptureDiffLaws.ByNameIsLast | guise-oracle/src/types.rs:525-530 | a repeated name is indexed under its last surface |
| CaptureDiffLaws.ByNameIgnoresOrderExactly | guise-oracle/src/types.rs:525-530 | the index is the same in every order of capture if and only if surfaces of one name all have the same entry |
| CaptureDiffLaws.DiffIsDetermined | guise-oracle/src/types.rs:540-620 | two captures have one report: the sort has one result |
| CaptureDiffLaws.DiffIgnoresOrder | guise-oracle/src/types.rs:540-620 | permuting either surface list changes nothing in the report as long as surfaces of one name are all equal or all errors |
| CaptureDiffLaws.OrderMattersExactly | guise-oracle/src/types.rs:540-620 | a capture has the same report in every order, against every other capture, if and only if that holds |
| CaptureDiffLaws.OrderMattersWithDuplicates | guise-oracle/src/types.rs:540-620 | two surfaces of one name that a report tells apart, captured in either order, have different reports |
| CaptureDiffLaws.DiffFlips | guise-oracle/src/types.rs:540-620 | exchanging the captures keeps counts and order and exchanges the values |
| CaptureDiffLaws.CountsAddUp | guise-oracle/src/types.rs:347-353 | every report is consistent: the counts add up to the union of names and every divergence is listed |
| CaptureDiffLaws.AllAgreeExactly | guise-oracle/src/types.rs:297-299 | a report is identical if and only if both captures index the same names to the same error-free values |
| CaptureDiffLaws.WorstIsFirst | guise-oracle/src/types.rs:303-308 | the worst severity is the first divergence's |
| CaptureReports.DifferentValuesShown | guise-oracle/src/types.rs:556-576 | where both captures have a value of a name and the two differ, exactly one divergence names it, with A's value first, B's second, and High if either is High, else Medium if either is |
| CaptureReports.MissingValuesShown | guise-oracle/src/types.rs:577-598 | where one capture alone has a value, exactly one divergence names it, with that value on its side, <missing> on the other, and its severity |
| CaptureReports.NothingElseShown | guise-oracle/src/types.rs:556-602 | a name with an error on either side, or with one value on both, is named by no divergence |
| CaptureReports.CountsAre | guise-oracle/src/types.rs:544-619 | agreed counts the names with one good value on both sides, errors those with an error on either; the titles are the captures' |
| CaptureReports.OrderShown | guise-oracle/src/types.rs:605-609 | High before Medium before Low, and by name within one severity |
| CaptureReports.WorstIsHighest | guise-oracle/src/types.rs:303-308 | of any list, in any order, the worst severity is some divergence's and none is above it |
| CaptureReports.ChangesAreNoticed | guise-oracle/src/types.rs:347-353 | with one count changed, or a divergence left out, a report is no longer consistent |
| CaptureReports.LessAtDifference | guise-oracle/src/types.rs:608-608 | names are compared at their first difference, a name before its extensions |
| CaptureThreeWay.FromCaptures | guise-oracle/src/types.rs:689-754 | the loop produces the report specified of the three name indexes |
| CaptureThreeWay.ThreeWayIsDetermined | guise-oracle/src/types.rs:689-754 | three captures have one report |
| CaptureThreeWay.ClassesPartition | guise-oracle/src/types.rs:664-679 | each surface is in one class; the agreed count is exactly the surfaces showing one value three times |
| CaptureThreeWay.EngineBetterExactly | guise-oracle/src/types.rs:658-660 | the engine is better if and only if it shows stock's value on more surfaces than the disguise |
| CaptureThreeWay.ThreeWayAgreesWithDiff | guise-oracle/src/types.rs:540-754 | on any captures, errors and gaps included: the engine is better if and only if its two-way agreement with stock plus the surfaces the two merely show alike exceeds the disguise's; on complete captures there are none of the latter |
| CaptureThreeWay.MatchingSplits | guise-oracle/src/types.rs:689-754 | what is shown as stock shows it is what the two-way report finds agreeing, and what only looks alike |
| CaptureThreeWay.GapsCoincide | guise-oracle/src/types.rs:699-745 | a surface the disguise alone captured: the engine is better though neither two-way report agrees on anything |
| CaptureThreeWay.EveryoneLosesExactly | guise-oracle/src/types.rs:739-746 | every row of everyone_loses has three values if and only if engine and disguise never agree against stock |
| CaptureThreeWay.AgreementAgainstStockIsListed | guise-oracle/src/types.rs:743-745 | a concrete surface in everyone_loses with two equal values |
| CaptureThreeWay.ExchangeSwapsWins | guise-oracle/src/types.rs:689-754 | exchanging engine and disguise swaps their wins and keeps the losses |
| CaptureReports.RowsAreShown | guise-oracle/src/types.rs:700-746 | each listed row shows what stock, engine and disguise show of its surface, in that order, with the most severe of their severities, and stands where those values put it |
| CaptureReports.SurfacesAreListed | guise-oracle/src/types.rs:700-746 | each surface any capture has is listed under the heading its three texts determine |
| CaptureReports.AgreedIsTheRest | guise-oracle/src/types.rs:664-679 | of any report the agreed count is what the three lists leave of the surfaces, or 0, and it is consistent if and only if they leave no less |

## Left out

- Everything that talks to Firefox, sockets, TLS, the clock or the file system: launch, close, screenshots, input, cookies, HAR and JSON export.
- The scripts that run in the page, challenge and vendor tables, profile data, JA3, JA4 and TCP stack constants.
- Identity generation and session pacing: an identity is an uninterpreted function of the seed, and generation never fails.
- Captured headers, bodies, cookies and timings: requests, responses and errors carry a few representative fields; the log never inspects the others.
- `Filter`, URL parsing and the log's read-only queries, simple getters and enum names.
- The log's u64 counters are unbounded here, and its one-time eviction warning is not kept.
- The waiter's deadline is an `Expire` action that may happen at any moment while it waits; the channel's lag rule is its 1024-message capacity.
- The pool's counters wrap as in an optimised build; an unoptimised build panics there instead. `SeedsStayDistinct` is for a seed counter that has not run out of its 64 bits.
- Session caps under `PerTarget` and `PerRequests(n)` with n of at least 1: the code does not keep them (`CapIsExceededExactly` says when).
- The probing of each frame's realm (title and captcha marker) is a parameter; offsets in `frame_viewport_offset` are not summed; `frames_by_host` needs URL parsing.
- The closing prompt's kind and the finished file's base name are parameters of the dialog log; statuses are a closed set.
- The WebSocket handshake, the random mask (a parameter) and the 32-bit platform's length error.
- `parse_client_hello`, which rests on a TLS parser that is not part of this model; writes through `BufferedStream` go straight to the connection.
- Read errors other than the end of the stream.
- Floating-point sampling: `capped_exponential_backoff`, `BoundedNormalDelay`, `weighted_index`, `chance`.
- `Retry-After` parsing, which needs an HTTP-date parser.
- In the diff, the `surface_id` of a divergence is its name and the kind a constant, so neither is kept; the library's sorts are insertions with the one result any sort must have here.
- Live probing and drift reports (`guise-oracle/src/types.rs:373-455`).
- NetworkHistory.LogIsFunctionOfHistory: for browser traffic, a log without a pending cap and no evicted id asked again, where no departures need be named; `NetworkContents.ContentsExactly` says what the log holds after every other legal run.
