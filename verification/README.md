# The Ember rendezvous server's state, modelled and proved

The rendezvous server keeps everything it knows in memory: bounded stores with several
redundant indexes each, updated under locks by requests that may be replayed, reordered
or refused for want of room, on clocks that may step. This project models those stores in
Dafny and proves what their design promises, over every run and every interleaving.

Each store appears twice. A specification module gives its meaning on values, without
indexes or counters, and carries the theorems. A class keeps the indexes, counters and
queues the way the server does, and each of its methods is proved to take exactly the
specification's step. Protocols that release one lock before taking the next are state
machines over their lock steps.

The theorems come in two kinds. Some say what no run does: accept a replay, lose a slot, pass a
cap, resurrect a name. The others say what every run grants: which request is answered how,
what it then finds in place, and that it is refused for no other reason.

| part | modules |
|---|---|
| replay guard | `ReplaySpec`, `ReplaySafety`, `ReplayRefinement`, `ReplayService`, `ReplayGuardStore` |
| register and unregister | `Presence` |
| relay admission | `RelaySlots`, `RelayService` |
| relay tickets and mailbox polls | `RelayTicketSpec`, `RelayAgreement`, `MailboxPaging`, `RelayTicketStore` |
| channel registry | `RegistrySpec`, `RegistrySafety`, `RegistryOwnership`, `RegistryClaims`, `RegistryService`, `ChannelRegistryStore` |
| directory | `Directory` |
| durable acknowledgement | `Persistence` |
| chat mailbox | `ChatMailboxSpec`, `ChatMailboxStore` |
| rate limits | `RateWindows`, `RateBucketStore` |
| capability registration | `Capabilities` |
| signed messages | `SignedMessages` |
| shared | `Options`, `Int64`, `MapSum`, `Seqs`, `Text` |

Keys, ids, digests and signatures are opaque values; signatures count as already verified.
Clock readings are integers passed in. The confusable skeleton of a name (section 4 of
UTS #39) and the hash from a key to its room are arbitrary functions.

## What turned out not to hold as documented

Each of these has a lemma with a failing run and one with the exact condition.

- An accepted `raise_floor` at the last representable second saturates and does not refuse
  its own resend: `ReplaySafety.FloorAcceptedTwice`, `ReplaySafety.FloorRefusesResend`. So a
  register of that second can undo an unregister of the same one:
  `Presence.LastSecondResurrects`, `Presence.NeverResurrected`.
- A key full of marks of that second cannot give one up, so one more passes its limit:
  `ReplayRefinement.LastSecondOverflows`, `ReplayRefinement.LimitsHoldIff`.
- A ticket id offered again while a socket under it is still open strands a relay slot:
  `RelaySlots.ReusedIdStrandsASlot`, `RelaySlots.ConservedIff`.
- The clock is read before the ticket lock is taken, so two offers can enter the expiry
  queue out of order, and the later one can then be accepted after it has expired:
  `RelayTicketSpec.SwappedReadingsAcceptExpired`, `RelayTicketSpec.OfferOutlivesIff`.
- A rename with the server's clock at 1970 leaves the room two current names:
  `RegistryClaims.RenameAt1970`, `RegistryClaims.OneUpToIff`.
- A handover leaves the old room's retired names behind, so lookalikes can end up in two
  rooms: `RegistryClaims.HandoverSplitsLookalikes`, `RegistryOwnership.ApartUpToIff`.
- With a limit of zero a rate window's pruning would show:
  `RateWindows.ZeroLimitShowsPruning`, `RateWindows.PruningIsUnseen`.

## Model

| member | source | states |
|---|---|---|
| ReplaySafety.RunInv | rendezvous-server/src/main.rs:2101-2314 | After any run, under any wall and monotonic clocks, every request ever accepted is still ruled out by the watermark, its key's floor or a newer or equal mark; a key's horizon bounds its floor and all its marks, and a scope's latest mark is the last request it accepted |
| ReplaySafety.AcceptedOnceInOrder | rendezvous-server/src/main.rs:2202-2294 | Of two admissions accepted in one key's scope anywhere in a run the later has no earlier timestamp, and is not the same request, whatever was evicted or pruned between them |
| ReplaySafety.FloorHolds | rendezvous-server/src/main.rs:2297-2313 | Once a floor is accepted at a timestamp, nothing of that key at or below it is accepted later in the run by `admit` or `raise_floor`, unless both are at the last representable second |
| ReplaySafety.FloorRefusesResend | rendezvous-server/src/main.rs:2194-2200 | Resending an accepted floor at once is refused if and only if its timestamp is below the last representable second |
| ReplaySafety.FloorAcceptedTwice | rendezvous-server/src/main.rs:2297-2313 | One floor at the last representable second, sent twice to an empty guard, is accepted twice |
| ReplaySafety.RepeatIsLastAccepted | rendezvous-server/src/main.rs:2202-2294 | `Repeat` is only ever the answer to the request its scope accepted last |
| ReplaySafety.AcceptedIsNew | rendezvous-server/src/main.rs:2202-2313 | A guard that covers a log of accepted events accepts nothing any of them rules out: no floor passed by, no older timestamp in the scope, no equal one with the same digest |
| ReplayRefinement.AcceptsNoMoreThanLog | rendezvous-server/src/main.rs:2202-2313 | Whatever the bounded guard accepts in a run, a server that forgets nothing would accept too |
| ReplayRefinement.WatermarkNeverBinds | rendezvous-server/src/main.rs:2114-2116 | With a wall clock that does not go back, `Stale` means exactly that the timestamp is more than five minutes off: the dropped-protection watermark never refuses a fresh request |
| ReplayRefinement.SameAnswersAsLog | rendezvous-server/src/main.rs:2130-2313 | With such a clock, while no request lacks a place for its key once lapsed keys are gone, or for its mark once lapsed and superseded ones are, every answer of the run (accepted, repeat, replay, stale) equals that of the unbounded log |
| ReplayRefinement.FirstDifference | rendezvous-server/src/main.rs:2202-2313 | In such a run the next request, whatever limits it meets, is answered as the log would if and only if its key finds a place and no mark limit meets it without an older mark of its own to give up |
| ReplayRefinement.LimitsHold | rendezvous-server/src/main.rs:2162-2200 | The key, mark and per-key limits hold after any run of admissions below the last representable second |
| ReplayRefinement.LimitsHoldIff | rendezvous-server/src/main.rs:2162-2284 | All three limits hold throughout a run if and only if no request is taken into a key that is at a limit with every mark left in it, like the request itself, at the last representable second |
| ReplayRefinement.KeyLimitHolds | rendezvous-server/src/main.rs:2162-2176 | The limit on keys holds after every run, whatever its timestamps |
| ReplayRefinement.LastSecondOverflows | rendezvous-server/src/main.rs:2268-2283 | Two requests of that second leave a key limited to one mark with two |
| ReplayRefinement.PlaceWithinLimit | rendezvous-server/src/main.rs:2268-2283 | Exactly when placing a mark keeps a key within its limit, and exactly when it keeps a full pool from growing: unless the key holds, and is given, only marks of the last second |
| ReplayRefinement.OnlyOwnKeyChanges | rendezvous-server/src/main.rs:2130-2200 | An operation for one key leaves every other key inside its window untouched, and no horizon or floor goes back |
| ReplayService.FullIff | rendezvous-server/src/main.rs:2161-2176 | A fresh request is answered `Full` if and only if its key is not live and the live keys or their marks have reached a limit, or it is live, without a mark to give up, and the pool is full |
| ReplayService.NewKeyServed | rendezvous-server/src/main.rs:2161-2176 | In every run the first fresh request of a key the guard does not hold is accepted if the live keys leave room, and `Full` only if not |
| ReplayService.PaysWithOldest | rendezvous-server/src/main.rs:2267-2283 | A key at its limit that takes a new mark then refuses what it refused before, what the new mark rules out and everything up to the second it gave up, and nothing more |
| ReplayService.IdleKeysMakeRoom | rendezvous-server/src/main.rs:2130-2142 | A key is held only while something accepted from it is within five minutes, so while fewer keys than the limit are that recent no one is turned away for want of a key |
| ReplayGuardStore.ReplayGuard.constructor | rendezvous-server/src/main.rs:2102-2112 | The guard starts empty with every limit at least one |
| ReplayGuardStore.ReplayGuard.Prune | rendezvous-server/src/main.rs:2130-2142 | Walking the horizon index from the front evicts exactly the keys whose horizon has lapsed and raises the watermark to the newest of them; the index and the mark count stay exact |
| ReplayGuardStore.ReplayGuard.MakeRoomForKey | rendezvous-server/src/main.rs:2162-2165 | Says whether one more key fits after evicting only lapsed keys |
| ReplayGuardStore.ReplayGuard.PutBack | rendezvous-server/src/main.rs:2178-2192 | The index holds the key at its new horizon once and the mark count equals the sum over keys |
| ReplayGuardStore.ReplayGuard.Prepare | rendezvous-server/src/main.rs:2167-2176 | A key has a state, or room for one after evicting only lapsed keys |
| ReplayGuardStore.ReplayGuard.RefuseOn | rendezvous-server/src/main.rs:2233-2266 | Whether floor and marks refuse the request, and whether it supersedes its scope's marks |
| ReplayGuardStore.ReplayGuard.PlaceOn | rendezvous-server/src/main.rs:2267-2283 | At a limit the key pays with its own oldest mark, whose second and older it then refuses, or the request is turned away |
| ReplayGuardStore.ReplayGuard.DecideOn | rendezvous-server/src/main.rs:2220-2284 | One request's answer and its key's new state, with released and added marks balancing exactly |
| ReplayGuardStore.ReplayGuard.Admit | rendezvous-server/src/main.rs:2202-2294 | The indexed guard takes exactly the index-free admission step |
| ReplayGuardStore.ReplayGuard.RaiseFloor | rendezvous-server/src/main.rs:2297-2313 | The indexed guard takes exactly the index-free floor step |
| Presence.NeverResurrected | rendezvous-server/src/main.rs:3667-3704 | In every interleaving of register and unregister lock steps, once an unregister signed at a second has removed the id, no register that key signed at or before it is ever stored, even after the key's replay state is gone, the last representable second apart |
| Presence.LastSecondResurrects | rendezvous-server/src/main.rs:4902-4932 | A concrete run at the last representable second: raise, remove, check, insert, and the id is back |
| Presence.CheckFloorRefuses | rendezvous-server/src/main.rs:4902-4932 | A raised floor, or the freshness window that has passed it once the key is evicted, stops every register signed at or below it |
| Presence.NewestRegisterLands | rendezvous-server/src/main.rs:3667-3703 | In every interleaving a fresh register newer than everything accepted from its key is stored, if its id is free and there is room or it already is this key's |
| Presence.NewestUnregisterIsTaken | rendezvous-server/src/main.rs:4904-4921 | In every interleaving a fresh unregister newer than everything accepted from its key raises the floor and goes on to the removal, unless the guard is full |
| Presence.RemovedIsGone | rendezvous-server/src/main.rs:4922-4928 | The removal takes the key's own entry, however recent, and no other |
| RelaySlots.SlotsAccounted | rendezvous-server/src/main.rs:3411-3539 | In every interleaving of reserve, commit, rollback, cleanup and release steps, reused ids included, each network's count is its outstanding reservations, admissions and slots between two locks, plus exactly the slots whose records later commits wrote over; the per-network and global caps hold |
| RelaySlots.ConservedIff | rendezvous-server/src/main.rs:3512-3515 | At any point of any run counts equal slots in use if and only if no commit so far landed on a ticket and role already admitted |
| RelaySlots.ReleaseNeverBites | rendezvous-server/src/main.rs:6192-6206 | In every run a pending release finds a slot to take off, so its saturating subtraction never bites |
| RelaySlots.SlotsConserved | rendezvous-server/src/main.rs:3411-3539 | While no id is offered again under an open socket, each network's count equals its outstanding reservations, admissions and slots between two locks |
| RelaySlots.CommitLandConserves | rendezvous-server/src/main.rs:3487-3517 | Landing a commit conserves the slots if and only if no admission is already recorded for its ticket and role |
| RelaySlots.ResolvedOnce | rendezvous-server/src/main.rs:3506-3537 | In every run a reservation is resolved by its commit or its watchdog's rollback once, never by both |
| RelaySlots.JoinsOnce | rendezvous-server/src/main.rs:3461-3511 | In every run a role of a ticket joins at most once until its id is offered anew |
| RelaySlots.NextCaps | rendezvous-server/src/main.rs:3469-3477 | No step takes a network or the whole relay past its session cap |
| RelaySlots.ReusedIdStrandsASlot | rendezvous-server/src/main.rs:3512-3515 | A concrete run with a reused id after which a slot is counted and nothing holds it |
| RelayService.GrantedIff | rendezvous-server/src/main.rs:3411-3485 | In every run a reserve is granted if and only if the ticket is there, accepted and unexpired, the seat is free, and neither the relay nor the caller's network is at its cap; a refused one changes nothing |
| RelayService.GrantedStands | rendezvous-server/src/main.rs:3411-3539 | Until its own commit or rollback a granted reservation keeps its seat, whatever prunes, offers, reserves, commits and rollbacks come between |
| RelayService.FirstResolves | rendezvous-server/src/main.rs:3487-3539 | Whichever of the two comes first has its effect: the seat is joined and the commit under way, or the seat is free again and the slot to be released |
| RelayService.CommitLands | rendezvous-server/src/main.rs:3511-3516 | A commit under way can be finished at any later point, and then the socket's address is on record for its ticket and role |
| RelayService.CleanupLeaves | rendezvous-server/src/main.rs:6178-6190 | The end of a session takes its record and leaves exactly its slot to be released |
| RelayTicketSpec.RunInv | rendezvous-server/src/main.rs:1640-1766 | After any run at any clock readings each ticket has exactly one queue entry, never before its expiry, no pair has two tickets, only accepted tickets are reserved, and the ticket, envelope, per-initiator and per-responder limits hold |
| RelayTicketSpec.PopHeadDue | rendezvous-server/src/main.rs:1712-1743 | Each turn of the prune loop leaves one due entry fewer, although a reserved ticket goes back in the queue |
| RelayTicketSpec.PruneExact | rendezvous-server/src/main.rs:1712-1743 | A prune removes exactly the unreserved tickets that its run of due entries reaches, all of them expired, and changes no other |
| RelayTicketSpec.OfferOutlivesIff | rendezvous-server/src/main.rs:1712-1743 | An expired unaccepted offer outlives a prune if and only if an entry ahead of its own is not yet due |
| RelayTicketSpec.NoExpiredOffer | rendezvous-server/src/main.rs:1712-1743 | With clock readings that do not go back, no expired unaccepted offer outlives a prune, though the queue is not sorted |
| RelayTicketSpec.ExpiredNeverAccepted | rendezvous-server/src/main.rs:5633-5652 | With such readings an accept succeeds only for the offer's responder, before its expiry and for the first time |
| RelayTicketSpec.SwappedReadingsAcceptExpired | rendezvous-server/src/main.rs:5489-5506 | Two offers locked in the opposite order of their clock readings: the second is accepted at the moment it expires |
| RelayTicketSpec.OfferTakenIff | rendezvous-server/src/main.rs:5505-5523 | An offer is taken if and only if its id is free and the book with it added keeps every limit and one ticket to a pair; the ticket has the terms offered and no other changes |
| RelayTicketSpec.AcceptTakenIff | rendezvous-server/src/main.rs:5633-5652 | An accept succeeds if and only if the ticket is there, unaccepted and this responder's, and the limits stand with it accepted; nothing else changes |
| RelayTicketSpec.OfferedThenAccepted | rendezvous-server/src/main.rs:5505-5652 | An offer taken can be accepted by its responder at any time before it expires, below the responder's limit |
| RelayAgreement.OpIsSteps | rendezvous-server/src/main.rs:5505-5523 | Every offer, accept and prune of the ticket book is a run of the slot machine: a drop it allows, then at most one offer or accept, ending with the same tickets |
| RelayAgreement.PruneIsDrop | rendezvous-server/src/main.rs:1712-1743 | What a prune removes has no reservation outstanding, so the slot machine allows the drop, and the tickets left agree |
| RelayAgreement.StepIsSeat | rendezvous-server/src/main.rs:3451-3537 | Every reserve, commit and rollback, granted or not, changes at most one seat of the book, and only as the book allows; no other step changes a ticket |
| RelayTicketStore.TicketStore.constructor | rendezvous-server/src/main.rs:1566-1582 | The store starts empty with agreeing indexes |
| RelayTicketStore.TicketStore.Insert | rendezvous-server/src/main.rs:1640-1667 | A new offer keeps the pair index, the pending index, both counts and the byte total exact |
| RelayTicketStore.TicketStore.Remove | rendezvous-server/src/main.rs:1669-1710 | A removal keeps them exact, and of the poll cursors drops exactly that of a responder left without tickets |
| RelayTicketStore.TicketStore.PruneExpired | rendezvous-server/src/main.rs:1712-1743 | The loop ends and leaves exactly the pruned tickets and queue; a poll cursor is kept exactly for each responder that still has a ticket |
| RelayTicketStore.TicketStore.MarkAccepted | rendezvous-server/src/main.rs:1745-1766 | An accepted ticket leaves the pending index and joins its responder's count, nothing else moves |
| RelayTicketStore.TicketStore.Offer | rendezvous-server/src/main.rs:5505-5523 | The indexed store answers and changes as the specification's offer, and moves no poll cursor but those its prune drops |
| RelayTicketStore.TicketStore.Accept | rendezvous-server/src/main.rs:5633-5652 | The indexed store answers and changes as the specification's accept, and moves no poll cursor but those its prune drops |
| RelayTicketStore.TicketStore.ChangeSeat | rendezvous-server/src/main.rs:3451-3478 | Setting or clearing a reservation leaves every index as it was |
| RelayTicketStore.TicketStore.Page | rendezvous-server/src/main.rs:1841-1917 | A poll serves the page the round-robin walk gives and leaves the cursor on the last initiator read, forgets it when nothing is pending, and moves no other responder's |
| RelayTicketStore.TicketStore.PollMailbox | rendezvous-server/src/main.rs:5558-5576 | Prune, then page: serves exactly the live offers in the next stretch of the responder's order from where its cursor stood before, leaves the order turned past just that stretch, and keeps every other responder's place |
| RelayTicketStore.TicketStore.ReadStretch | rendezvous-server/src/main.rs:1860-1874 | Reading one range of initiators is the walk over that range |
| RelayTicketStore.TicketStore.Peek | rendezvous-server/src/main.rs:1774-1839 | Returns the page the next poll would be served, over two ranges as one walk, without moving the cursor |
| MailboxPaging.PollReads | rendezvous-server/src/main.rs:1607-1637 | A poll reads a first stretch of its order, at least one entry if any, serves exactly the live offers in it and stops only at a limit |
| MailboxPaging.WalkAppend | rendezvous-server/src/main.rs:1858-1892 | Reading past the cursor and then, if the page may go on, up to it is one walk over both ranges |
| MailboxPaging.PollContinues | rendezvous-server/src/main.rs:1841-1917 | While the pending offers stay, each poll's order is the previous one turned past exactly what it read: nothing skipped |
| MailboxPaging.OrderDistinct | rendezvous-server/src/main.rs:1858-1908 | No initiator comes twice in a poll's order, so none is repeated within a page |
| MailboxPaging.ServedInTime | rendezvous-server/src/main.rs:1841-1917 | Every offer that stays live is served within as many polls as there are pending offers, wherever the cursor started |
| MailboxPaging.PageNotEmpty | rendezvous-server/src/main.rs:1623-1633 | A page over live offers is empty only if there are none |
| MailboxPaging.PageFits | rendezvous-server/src/main.rs:1149-1155 | The rendered JSON of any page fits the 8 KiB clients read |
| MailboxPaging.ItemLengthExact | rendezvous-server/src/main.rs:1593-1600 | The counted length of an item is the length of its JSON and one comma |
| RegistrySafety.RunInv | rendezvous-server/src/registry.rs:598-1185 | After every run of claims, renames, nominations, handovers, deletions, sweeps and handle claims, at any clock readings but a rename's at 1970, a room has at most one current and three retired names, records and tombstones agree, handles and keys are one to one, and the caps hold |
| RegistrySafety.SurplusInv | rendezvous-server/src/registry.rs:970-987 | Releasing the surplus leaves the room within its limit and touches nothing but that room's retired names |
| RegistrySafety.SurplusExact | rendezvous-server/src/registry.rs:970-987 | What stays is exactly as many retired names as the room may have, the latest retired of them |
| RegistrySafety.HolderNeverLoses | rendezvous-server/src/registry.rs:598-650 | A key that holds a handle is refused another only because it is taken, never for lack of room, and keeps its own |
| RegistryOwnership.OnlyItsHolder | rendezvous-server/src/registry.rs:689-1138 | A current name stays bound to its room and key unless a handover its key signed, or its nominee after the full published silence, moves it to the room and key named, its own key renames or deletes it, or it was abandoned |
| RegistryOwnership.HeldUntilReleased | rendezvous-server/src/registry.rs:155-189 | With readings that do not go back, no run in which the holder does not act, nor the nominee after the full published silence, takes a name before the silence its release needs |
| RegistryOwnership.NomineeHasItsGrace | rendezvous-server/src/registry.rs:182-188 | A nominated name stays with its room through the nominee's eligibility and the thirty-day grace |
| RegistryOwnership.RetiredIsHeld | rendezvous-server/src/registry.rs:933-966 | Through any run within the thirty-day hold in which its room neither renames nor deletes, a name the room has left stays that room's, unchanged but for a missing refresh time a sweep may fill in |
| RegistryOwnership.DeletedForGood | rendezvous-server/src/registry.rs:1140-1185 | A deleted name's record never changes in any later run, and at no step of it is a name with its skeleton put on record |
| RegistryOwnership.NoCrossRoomLookalikes | rendezvous-server/src/registry.rs:753-773 | In runs without handover no two rooms ever have confusable names on record |
| RegistryOwnership.HandoverApartIff | rendezvous-server/src/registry.rs:1120-1135 | A handover keeps rooms free of each other's lookalikes if and only if the moved name had none on record |
| RegistryOwnership.ApartUpToIff | rendezvous-server/src/registry.rs:1041-1138 | Throughout a run no two rooms have confusable names on record if and only if no handover in it moves a name that has a lookalike on record |
| RegistryClaims.ClaimAsIfAllFreed | rendezvous-server/src/registry.rs:712-725 | Freeing only the quiet names it consults, a claim answers as if the whole registry had been reaped first, and leaves the same records but for quiet ones and refresh times a sweep fills in |
| RegistryClaims.ClaimOkMeans | rendezvous-server/src/registry.rs:774-827 | A successful claim leaves the room holding the name refreshed now, with an earlier holding's seniority and nominee kept and any other begun anew |
| RegistryClaims.RenameOkMeans | rendezvous-server/src/registry.rs:885-966 | A successful rename took the room's key and a day since the last; seniority, nominee and history travel, and the old name is retired now |
| RegistryClaims.RenameKeepsOneIff | rendezvous-server/src/registry.rs:851-966 | A successful rename leaves every room at most one current name if and only if the clock is past 1970 |
| RegistryClaims.OneUpToIff | rendezvous-server/src/registry.rs:851-966 | Throughout a run every room has at most one current name if and only if no rename in it moves a name at second zero, and then all the registry's invariants hold |
| RegistryClaims.RenameAt1970 | rendezvous-server/src/registry.rs:939-966 | A name claimed at second five and renamed with the clock back at zero: the room has two current names |
| RegistryClaims.HandoverSplitsLookalikes | rendezvous-server/src/registry.rs:1120-1135 | A claim, a rename to a lookalike and a handover, after which two rooms have confusable names |
| RegistryService.ClaimAnswers | rendezvous-server/src/registry.rs:689-828 | Every answer to a claim from the names that stand: taken for a deleted room, one named otherwise, a name or lookalike of another; full at as many standing names as there may be; otherwise granted |
| RegistryService.ReclaimRefreshes | rendezvous-server/src/registry.rs:774-800 | A room asking again for the name it holds is told Ok and the name is refreshed, seniority and nominee kept |
| RegistryService.AskingForAnotherName | rendezvous-server/src/registry.rs:739-752 | A holder asking for another name is refused and its own refreshed; a stranger's asking refreshes nothing |
| RegistryService.SilentNameIsFree | rendezvous-server/src/registry.rs:155-189 | After a year of silence a name without a nominee can be claimed by any room without one |
| RegistryService.RetiredNameIsFree | rendezvous-server/src/registry.rs:155-189 | So can a name thirty days after its room left it |
| RegistryService.RenameAnswers | rendezvous-server/src/registry.rs:851-931 | Every answer to a rename from the names that stand: the wrong key, within a day of the last, taken, full, otherwise granted |
| RegistryService.RenamedForADay | rendezvous-server/src/registry.rs:889-900 | After a rename the next is refused as too soon for exactly a day |
| RegistryService.HandoverGrantedIff | rendezvous-server/src/registry.rs:1041-1138 | A handover to a room without a name goes through if and only if the name's key signed, or its nominee after the published days of silence; then the record is the old one under the new room and key, its nomination spent |
| RegistryService.NominationHonoured | rendezvous-server/src/registry.rs:991-1031 | After a nomination that key can take the name over if and only if the days asked for have passed in silence |
| RegistryService.WithdrawnNominee | rendezvous-server/src/registry.rs:991-1031 | After a nomination is withdrawn only the holder's key can hand the name over |
| RegistryService.ForeignNomination | rendezvous-server/src/registry.rs:991-1031 | A nomination under another key is forbidden and changes nothing |
| RegistryService.BadNomination | rendezvous-server/src/registry.rs:991-1010 | A nomination without a valid key, or for fewer than seven or more than 365 days, changes nothing |
| RegistryService.HandoverSpendsNomination | rendezvous-server/src/registry.rs:1120-1135 | After a handover no one but the new key can hand the name on |
| RegistryService.HandoverResent | rendezvous-server/src/registry.rs:1070-1100 | A handover sent again is told Ok and leaves the name where it went; it refreshes it only for who speaks for the new room |
| RegistryService.DeleteAnswers | rendezvous-server/src/registry.rs:1140-1185 | A deletion is forbidden exactly when a record of the room has another key, full exactly when it has none and no tombstone fits; otherwise the room is deleted with all its records and no other room's |
| RegistryService.DeletedRoomIsRefused | rendezvous-server/src/registry.rs:1140-1185 | After it no claim, rename or handover gives the room a name or takes one from it |
| RegistryService.HandleAnswers | rendezvous-server/src/registry.rs:598-650 | A handle claim is taken only by another key active within the year, full only to a key without one asking for a free one at as many active handles as there may be; otherwise granted |
| RegistryService.HandleGranted | rendezvous-server/src/registry.rs:598-650 | A claim told Ok leaves the key with that handle, active now, and no other |
| ChannelRegistryStore.ChannelRegistry.InsertName | rendezvous-server/src/registry.rs:436-446 | Both indexes list the new name exactly once |
| ChannelRegistryStore.ChannelRegistry.constructor | rendezvous-server/src/registry.rs:420-422 | The registry starts empty and open with agreeing indexes |
| ChannelRegistryStore.ChannelRegistry.RemoveName | rendezvous-server/src/registry.rs:448-453 | Both indexes lose exactly that name, and no empty row stays |
| ChannelRegistryStore.ChannelRegistry.LiveNameOf | rendezvous-server/src/registry.rs:463-468 | Finds the room's current name if and only if it has one |
| ChannelRegistryStore.ChannelRegistry.ReapAbandoned | rendezvous-server/src/registry.rs:471-480 | Exactly the abandoned candidates go |
| ChannelRegistryStore.ChannelRegistry.ClearFor | rendezvous-server/src/registry.rs:718-725 | Of all names exactly the abandoned among the name asked for, the room's own and the lookalikes go |
| ChannelRegistryStore.ChannelRegistry.AnyLookalikeElsewhere | rendezvous-server/src/registry.rs:763-770 | The skeleton index finds a lookalike of another room exactly when there is one |
| ChannelRegistryStore.ChannelRegistry.ReapStale | rendezvous-server/src/registry.rs:1308-1333 | Exactly the abandoned names and idle handles go, from the records and every index |
| ChannelRegistryStore.ChannelRegistry.Claim | rendezvous-server/src/registry.rs:689-828 | The indexed registry answers and changes as the specification's claim |
| ChannelRegistryStore.ChannelRegistry.ClaimCleared | rendezvous-server/src/registry.rs:739-827 | The rest of a claim, after clearing, as the specification has it |
| ChannelRegistryStore.ChannelRegistry.Rename | rendezvous-server/src/registry.rs:851-931 | The indexed registry answers and changes as the specification's rename |
| ChannelRegistryStore.ChannelRegistry.RenameFrom | rendezvous-server/src/registry.rs:889-930 | The rest of a rename, from the name the room holds, as the specification has it |
| ChannelRegistryStore.ChannelRegistry.ApplyRename | rendezvous-server/src/registry.rs:939-966 | The old record retired, the new one in place or filed, both indexes exact |
| ChannelRegistryStore.ChannelRegistry.ReleaseSurplus | rendezvous-server/src/registry.rs:970-987 | The oldest retired names go until three are left |
| ChannelRegistryStore.ChannelRegistry.Nominate | rendezvous-server/src/registry.rs:991-1031 | The indexed registry answers and changes as the specification's nomination |
| ChannelRegistryStore.ChannelRegistry.Handover | rendezvous-server/src/registry.rs:1041-1138 | As the specification's handover, with the name listed under its new room only |
| ChannelRegistryStore.ChannelRegistry.Delete | rendezvous-server/src/registry.rs:1140-1185 | As the specification's deletion, marking the room's records one by one |
| ChannelRegistryStore.ChannelRegistry.ReleaseUsername | rendezvous-server/src/registry.rs:487-494 | Handle, key index and activity lose exactly that holder |
| ChannelRegistryStore.ChannelRegistry.ClaimUsername | rendezvous-server/src/registry.rs:598-650 | The indexed registry answers and changes as the specification's handle claim |
| ChannelRegistryStore.ChannelRegistry.CloseForShutdown | rendezvous-server/src/registry.rs:585-587 | Nothing changes but that later writes are refused |
| ChannelRegistryStore.ChannelRegistry.Serve | rendezvous-server/src/registry.rs:502-508 | Any request, refused untouched once closed, is answered and applied as the specification's step, with all indexes exact |
| Directory.CursorRoundTrip | rendezvous-server/src/registry.rs:208-228 | Parsing an encoded cursor gives it back |
| Directory.ParsedIsValid | rendezvous-server/src/registry.rs:209-223 | Whatever parses is a cursor the server could send, and encoding it parses to the same |
| Directory.RankedDirectory | rendezvous-server/src/registry.rs:1209-1243 | Cut by any partial sort and then sorted, the listings are the most senior eligible ones in strictly rising order, and every listing left off ranks behind them all |
| Directory.Collect | rendezvous-server/src/registry.rs:1210-1236 | Each eligible listing once, in whatever order the records come |
| Directory.SelectSmallest | rendezvous-server/src/registry.rs:1237-1240 | The same listings with the smallest in front |
| Directory.RankingIsFront | rendezvous-server/src/registry.rs:1237-1242 | A ranking is the front of the full sorted listing |
| Directory.RankedIff | rendezvous-server/src/registry.rs:1209-1243 | Everyone ranked is a current, public, undeleted room refreshed within the week, and everyone who is is ranked unless more senior ones fill the ranking |
| Directory.SeniorFirst | rendezvous-server/src/registry.rs:1237-1242 | The earlier claimed comes first, and of two claimed in one second the lower room |
| Directory.PageServes | rendezvous-server/src/registry.rs:1254-1273 | A page serves exactly the keys past its cursor up to its last, and names that one as the next cursor while any are left |
| Directory.NeverServedTwice | rendezvous-server/src/registry.rs:1254-1295 | A walk from the start, each page cut from a ranking of the registry of the moment, serves strictly rising keys, none twice, however the registry changes between pages |
| Directory.FinishedWalkIsComplete | rendezvous-server/src/registry.rs:1254-1295 | Such a walk that came to its end has served every key that stayed ranked throughout |
| Directory.ListedThroughoutIsServed | rendezvous-server/src/registry.rs:1209-1295 | And every room that stayed listed throughout, while no more are listed than are ranked |
| Persistence.RunInv | rendezvous-server/src/registry.rs:550-581 | In every interleaving of mutations, snapshots and writes the published generation never passes the disk's, and whenever the disk lags memory `dirty` is set or something under way covers the lag |
| Persistence.DiskNeverGoesBack | rendezvous-server/src/registry.rs:1569-1589 | Whatever order writes finish in and whichever fail, the disk only ever moves forward |
| Persistence.AcknowledgedIsDurable | rendezvous-server/src/main.rs:6364-6392 | A 200 means every durable mutation up to the generation its handler sampled is on disk then and ever after, a retry's included |
| Persistence.PublishedIsAnswerable | rendezvous-server/src/main.rs:6296-6307 | Once a snapshot drawn after a request was handled has been published the request can be answered from then on |
| Persistence.AlwaysAnswerable | rendezvous-server/src/main.rs:6296-6392 | From wherever a run has got to, whatever failed before, some steps of flushers and writers let a waiting request be answered |
| ChatMailboxSpec.EvictsShortestPrefix | rendezvous-server/src/chat_mailbox.rs:176-181 | Making room drops exactly the shortest oldest-first run of the victim's live deposits that suffices |
| ChatMailboxSpec.VictimKeepsMore | rendezvous-server/src/chat_mailbox.rs:161-182 | Making room takes from the victim alone and leaves it holding strictly more than the depositor will |
| ChatMailboxSpec.PutKeepsCaps | rendezvous-server/src/chat_mailbox.rs:117-154 | After any deposit every box, network and total cap holds, and a refusal changes nothing |
| ChatMailboxSpec.AnswerMeans | rendezvous-server/src/chat_mailbox.rs:117-182 | Each refusal names the cap the deposit itself would break, and `StoreFull` means the largest holder, less what is over and one largest blob, would not keep more than the depositor; otherwise it is stored |
| ChatMailboxSpec.WithinCapsIsStored | rendezvous-server/src/chat_mailbox.rs:117-154 | A deposit that breaks no cap is stored behind everything live, and nothing else changes |
| ChatMailboxStore.ChatMailbox.constructor | rendezvous-server/src/chat_mailbox.rs:105-114 | The store starts empty with agreeing counters |
| ChatMailboxStore.ChatMailbox.Take | rendezvous-server/src/chat_mailbox.rs:193-222 | Taking one item out keeps boxes, byte counters and queues equal to what the live deposits say, and no counter goes below what it counts |
| ChatMailboxStore.ChatMailbox.EvictOldest | rendezvous-server/src/chat_mailbox.rs:184-208 | The network's oldest live deposit goes, past any number of entries already collected; it fails only if the network has none |
| ChatMailboxStore.ChatMailbox.Largest | rendezvous-server/src/chat_mailbox.rs:167-170 | Picks a network no other holds more than |
| ChatMailboxStore.ChatMailbox.MakeRoom | rendezvous-server/src/chat_mailbox.rs:161-182 | Decided up front: refused with nothing changed, or room made from the largest holder without the loop ever failing |
| ChatMailboxStore.ChatMailbox.Put | rendezvous-server/src/chat_mailbox.rs:117-154 | The indexed store answers and changes as the specification's deposit |
| ChatMailboxStore.ChatMailbox.Append | rendezvous-server/src/chat_mailbox.rs:141-153 | One more live deposit, with boxes, counters and queue in step |
| ChatMailboxStore.ChatMailbox.Fetch | rendezvous-server/src/chat_mailbox.rs:226-245 | Returns the first `limit` of everything fetchable, and says there is more exactly when there is |
| ChatMailboxStore.ChatMailbox.FetchBox | rendezvous-server/src/chat_mailbox.rs:233-242 | One more box's unexpired items after those of the boxes before it, stopping with the first `limit` of everything asked for exactly when one would not fit |
| ChatMailboxStore.FetchableIff | rendezvous-server/src/chat_mailbox.rs:226-245 | What is fetchable is exactly the unexpired live deposits of the boxes asked for |
| ChatMailboxStore.ChatMailbox.Delete | rendezvous-server/src/chat_mailbox.rs:248-270 | Exactly the named deposits of that box go, and the count says how many |
| ChatMailboxStore.ChatMailbox.RetainIn | rendezvous-server/src/chat_mailbox.rs:256-269 | Exactly the items of one box that fail the test go, and what they were charged with them |
| ChatMailboxStore.ChatMailbox.SweepQueues | rendezvous-server/src/chat_mailbox.rs:291-299 | Queues are left with exactly the live deposits, and none empty |
| ChatMailboxStore.ChatMailbox.PruneExpired | rendezvous-server/src/chat_mailbox.rs:272-301 | Exactly the expired deposits go, and each network's queue is left as its live deposits in order |
| RateWindows.AtMostTwiceTheLimit | rendezvous-server/src/main.rs:1343-1381 | A key that is never evicted takes at least a whole window to have more than twice its limit admitted |
| RateWindows.PruningIsUnseen | rendezvous-server/src/main.rs:1390-1398 | Pruning that keeps windows at least their length changes no later answer |
| RateWindows.ZeroLimitShowsPruning | rendezvous-server/src/main.rs:1352-1378 | With a limit of zero pruning would change an answer |
| RateWindows.ExhaustedForetells | rendezvous-server/src/main.rs:1383-1387 | A key is reported exhausted exactly when charging it would refuse |
| RateWindows.FewRecentIsAdmitted | rendezvous-server/src/main.rs:1343-1381 | With a clock that does not go back, a request is admitted whenever fewer than the limit came within the length of a window before it |
| RateWindows.ForgottenIff | rendezvous-server/src/main.rs:1390-1398 | A prune forgets exactly the windows that started at least that long ago |
| RateBucketStore.RateBucket.Charge | rendezvous-server/src/main.rs:1343-1381 | The key's own window is charged; others go only to make room for a new key, oldest first and no more than needed; the age index stays exactly one entry per window |
| RateBucketStore.RateBucket.EvictFor | rendezvous-server/src/main.rs:1364-1369 | Every window evicted is older than every window kept |
| RateBucketStore.RateBucket.PruneOld | rendezvous-server/src/main.rs:1390-1398 | Stopping at the first young window still drops every window old enough, and no other |
| RateBucketStore.AdmitBoth | rendezvous-server/src/main.rs:3070-3103 | A request is admitted and charged once in both tiers exactly when both would admit it, and otherwise charged in neither |
| Capabilities.GreatestTimestampStands | rendezvous-server/src/main.rs:4698-4740 | In whatever order registrations arrive, the stored address, port, peer, intro flag and epoch are those of the accepted one with the greatest timestamp since the entry went live under its owner |
| Capabilities.NewestProofNeverFalls | rendezvous-server/src/main.rs:4745-4759 | What a live entry's owner has proven is never forgotten while it stays the owner |
| Capabilities.OwnerIsPinned | rendezvous-server/src/main.rs:1241-1247 | A live entry changes owner only by a claim proven to own the capability |
| Capabilities.NewestTakesEffect | rendezvous-server/src/main.rs:4698-4760 | In every run a registration signed after all accepted before it takes effect, if its owner may register and there is room, and lives for exactly five minutes |
| Capabilities.HeartbeatExtends | rendezvous-server/src/main.rs:4713-4744 | A registration that repeats what is stored is always accepted and starts the time to live anew |
| Capabilities.RefusedMeans | rendezvous-server/src/main.rs:4658-4740 | A registration is forbidden exactly to a stranger of a live capability without proof of owning it, full exactly for want of room, and conflicts only with one accepted before and signed no earlier |
| Capabilities.StaysLive | rendezvous-server/src/main.rs:4698-4760 | Through any sweeps and arrivals a capability is live for the whole five minutes after an accepted registration |
| Capabilities.CapabilityStore.RegisterUnder | rendezvous-server/src/main.rs:4658-4760 | The store answers and changes its entry as the specification's registration, and drops others only if expired and only to make room |
| SignedMessages.EncodeInjective | rendezvous-server/src/main.rs:225-281 | Two signed messages are byte-equal only if they are the same protocol version and operation with equal fields, over all twenty-four layouts, unprefixed names and tagged addresses included |
| SignedMessages.RequestLayout | rendezvous-server/src/main.rs:461-725 | Every version 1 message byte for byte: domain, operation code, fields in order |
| SignedMessages.PeerLayout | rendezvous-server/src/main.rs:530-755 | Every presence message of version 4 byte for byte |
| SignedMessages.ChannelLayout | rendezvous-server/src/main.rs:757-896 | Every channel message of version 4 byte for byte |
| SignedMessages.FlatReadBack | rendezvous-server/src/main.rs:757-783 | Fields of one layout can be read back from their concatenation, an unprefixed name included |
| SignedMessages.PrefixedReadBack | rendezvous-server/src/main.rs:814-817 | A length-prefixed field ends where its prefix says |
| SignedMessages.AddressReadBack | rendezvous-server/src/main.rs:266-281 | A tagged address tells its family and where it ends |
| SignedMessages.Build | rendezvous-server/src/main.rs:461-896 | Appending field after field to one buffer gives the message the injectivity is about |

## Left out

- ReplaySafety.FloorHolds: excepts two floors or requests both at the last representable second, where it fails; `FloorRefusesResend` gives the exact condition.
- ReplayRefinement.LimitsHold: leaves out admissions at the last representable second, where it can fail; `LimitsHoldIff` gives the exact condition for all runs.
- Presence.NeverResurrected: assumes a wall clock that does not go back and is past 1970, because `check_floor` deliberately ignores the watermark, and excepts a register and an unregister both at the last representable second, where `LastSecondResurrects` shows it failing.
- RelaySlots.SlotsConserved: leaves out runs that offer an id again while a socket under it is open, where it fails; `ConservedIff` gives the exact condition and `SlotsAccounted` the count in those runs too.
- RelayTicketSpec.NoExpiredOffer: assumes readings that do not go back; without that `OfferOutlivesIff` gives the exact condition.
- RelayTicketStore.TicketStore.ChangeSeat: stands for the ticket half of reserve, commit and rollback; the whole protocol with its counts is `RelaySlots`, and `RelayAgreement.StepIsSeat` joins the two.
- RegistrySafety.RunInv: leaves out renames read at 1970, where it fails; `RegistryClaims.OneUpToIff` gives the exact condition.
- ChannelRegistryStore.ChannelRegistry.Serve: leaves out the same renames, and so do the theorems over runs of the registry.
- RegistryOwnership.HeldUntilReleased: assumes readings that do not go back, since a refresh read earlier would shorten the hold.
- RegistryOwnership.NoCrossRoomLookalikes: leaves out runs with handover, where it can fail; `ApartUpToIff` gives the exact condition for all runs.
- Persistence.AlwaysAnswerable: shows steps that lead to the answer, not that the scheduler takes them or that a write ever succeeds.
- RateWindows.PruningIsUnseen: leaves out a limit of zero, where it fails; no limit in the server is zero.
- RateBucketStore.AdmitBoth: takes both limits as at least one, as every limit in the server is.
- ChatMailboxStore.ChatMailbox.Put: assumes the sixteen random bytes of a new item id have not been drawn before.
- Directory.SelectSmallest: the library's partial sort is foreign code; only what it promises is used.
- HTTP routing, request parsing and status codes, WebSocket loops and timers.
- Ed25519, SHA-256, BLAKE3, hex decoding of requests, name normalisation and the confusable tables.
- Reading the registry file, backups and quarantine: a write either lands whole or fails; counters of generations and tickets do not wrap.
- Loading a registry that lacks timestamps: runs start empty, though the steps and the holding theorems start from any registry that keeps the invariants, records without a refresh time included.
- The cached directory ranking: the walk theorems hold for whatever ranking each page is served from.
- The cache of served mailbox pages for retried polls, the punch store, the read-nonce caches and the connection limiter: stores of the same shape with easier properties.
- The throttle on purging capabilities enters as a yes or no; presence entries' expiry sweep is a step with no further claim.
- The desktop client under `src-tauri` and `src`.
