# Verified models of the MelonDMA driver

MelonDMA is a DriverKit driver for mlx5 RDMA adapters. This project models the parts of it that
carry hard invariants and proves them in Dafny. Firmware and hardware are an arbitrary
environment: a command succeeds, is rejected in its outbox, is not delivered, or is never
answered, and replies and ring entries hold any values the documented formats allow. What the
environment says is arbitrary, or a parameter where a run has to choose it. Regions under a lock
are single steps, and what other threads do between them is a parameter where it matters; reads
that take no lock are a step each. DMA mappings are ghost resources that are live, completed or
retained.

`dafny verify dfyconfig.toml` checks everything.

| module | source component | main result |
|---|---|---|
| `PageLedger`, `FwPages`, `FwPageRuns` | MlxFwPages | over any run of page operations the memory behind a page counted as given, pending or quarantined is never completed, the redundant counters equal a scan, and pages are conserved across requests serviced inside commands |
| `FwPageThreads` | MlxFwPages | under any interleaving of the locked regions of any threads the same holds for as long as, and only as long as, no region is dropped and no page stamped where a stated condition on the tables says it must not |
| `CommandSlots` | MlxCmd slots | under any interleaving no slot is shared or reused after a timeout |
| `Mailbox` | MlxCmd mailboxes | after any history the device reads exactly the next command, sealed and zero-padded |
| `DmaLifetime` | MlxCmd, MlxCQ, MlxEQ, MlxMR, MlxDMA, MlxPCIDriver | a mapping is completed only when the device provably cannot reach it |
| `QuarantineRegistry` | MlxPCIDriver | a reset frees exactly what belongs to its device, each thing once |
| `DmaSegments`, `MttPages` | MlxSafety, MlxP0Encoding, MlxMR | the page list of a region preserves every byte's address, and exists exactly when one can |
| `RingPages` | MlxP0Encoding, MlxEQ, MlxCQ | the page list of a driver ring is right exactly when every segment follows the one before it, and whole exactly when all pages fit |
| `KeyIndex`, `KeyIndexReaders`, `MrRegistry` | MlxKeyIndex, MlxMR | the tombstone hash refines a finite map, also for a search without the lock while words are being written, and the table of regions and windows uses it; reference counts keep the region behind a bound window alive |
| `Rings` | MlxEQ, MlxCQ | consumers deliver exactly a prefix of what hardware wrote, in order and once each |
| `IfcBits`, `Encoders` | MlxIfcHelpers, MlxP0Encoding, MlxP1Encoding | every field of CREATE_MKEY and MANAGE_PAGES reads back in the finished command |
| `Tokens`, `ClientQuota`, `DataPath`, `DbSlots` | MlxUserClient, MlxUAR | stale tokens stay dead, quotas equal ownership, teardown waits for the data path but not for a call that is about to lock, doorbell slots are disjoint |

`Words` holds machine words and the arithmetic lemmas the other modules share.

## Where the code falls short of its documentation

The model follows the code. Each of these is proved of it; where the condition is exact, the
members named say "if and only if". Some hold only for calls that no caller in the repository
makes, and say so.

- Tokens: the comment promises that a stale token never aliases within a generation epoch. The
  epoch counts from the mint of the token, not from its drop, so the first mint after the drop
  can revive it (`Tokens.DroppedTokenComesBack`); until the counter has moved 4096 beyond the
  birth it cannot (`Tokens.Registry.DroppedIsDead`).
- The shared-path bound of UpdateCqConsumer is one entry too generous: a claim of a whole ring
  with nothing pending is accepted and the next PollCQ returns an old completion
  (`Rings.WholeLapIsReplayed`).
- MlxEQ uses EQ number 0 for "not created": Free completes a ring the device can reach if and
  only if firmware numbered the EQ 0 and the device is not quarantined
  (`DmaLifetime.Driver.FreeEq`, `DmaLifetime.Driver.CreateAndFreeEq`,
  `DmaLifetime.RingCompletedUnderDevice`).
- ReclaimAll as StableInitCycle calls it, with page requests still serviced, returns what it
  requested if and only if those requests gave as much as they took
  (`FwPages.Manager.ReclaimAll`, `FwPageRuns.ReclaimComesUpShort`), and need not end
  (`FwPageRuns.ReclaimGoesOn`).
- A GIVE whose delivery failed after the doorbell is reported like one firmware refused, and its
  pages are then released: the buffer is completed within the device's reach if and only if the
  command was not delivered (`FwPageRuns.GiveOnTheDevice`). What then stands between the device
  and the memory is the bus-master fence, which is not part of this model.
- A GIVE tests its pages without the lock that marks them. A buffer behind a page it names is live
  when the command goes out if and only if the slot or region that had it still has it, and that
  is so when nobody in between discards one of the slots, drops a region or stamps a page
  (`FwPageThreads.TestAmong`, `FwPageRuns.GiveRacesRelease`).
- ReleaseHostMappings releases pages and regions in separate locked regions. A region goes too
  early if and only if an allocated page relies on it or a thread is mapping memory for it
  (`FwPages.Manager.DropUnneeded`, `FwPageThreads.Do`), which cannot be when no other thread
  installs a region meanwhile (`FwPageThreads.ReleaseAmong`); otherwise firmware can be given a
  page without memory behind it (`FwPageRuns.DroppedUnderAGive`).
- The 32-bit doorbell has no bit for the MANAGE_PAGES slot of a 64-descriptor queue, a geometry
  that Init accepts (`CommandSlots.PagesDoorbellExists`).
- mlxKeyIndexCap does not end for more than 2^30 entries (`KeyIndex.CapDiverges`; no caller asks
  for more, the table of regions has at most 4096). Searches end for certain only for the first
  capacity-1 insertions, and the bound is exact for every capacity
  (`KeyIndex.SearchesEndBeforeCapacityInserts`, `KeyIndex.CapacityInsertsMaySpendTheTable`). In
  the table of regions every registration and every bind is an insertion
  (`MrRegistry.Registry.Run`).
- AllocMW's second search keeps the slot of the first when it finds none: it overwrites somebody
  else's entry if and only if the table is full when its command returns
  (`MrRegistry.Registry.AllocMw`, `MrRegistry.WindowOverwritesRegion`).
- DeregMR tests for dependents and removes the region in two locked regions: what refers to the
  region by then is left dangling, unless the calls in between do not name the region
  (`MrRegistry.Registry.DeregMr`, `MrRegistry.BindUnderDereg`).
- DeallocMW reads the parent of the window before its command and charges it afterwards: if the
  window has been bound elsewhere meanwhile the wrong region is charged, and its count is then
  too low if and only if every dependent of it was somebody's
  (`MrRegistry.Registry.DeallocMw`, `MrRegistry.RebindUnderDealloc`).
- RegMRIndirect looks its children up before its command and counts them afterwards: the table is
  consistent if and only if every child is a region by then, and the range does not wrap
  (`MrRegistry.Registry.RegMrIndirect`). For these three gaps: the method lock of a user client
  (MlxUserClient.cpp:917) keeps its own calls apart and it names only its own handles; nothing in
  MlxMR does.
- BindMW leaves the old key working if and only if the variant all clients share has come round
  to it (`MrRegistry.Registry.BindMw`, `MrRegistry.RebindKeepsTheKey`).
- The page lists of EQs and CQs are built without the congruence test of the MR path: they are
  right if and only if every segment follows the one before it (`RingPages.JoinAllIsRight`,
  `RingPages.AcceptsAWrongList`). A ring larger than its list is accepted when a segment ends
  where the list is full (`RingPages.RingPagesOf`, `RingPages.HalfARingIsAccepted`); both are
  what the loop does, and no caller asks for an event queue above 256 entries.
- InvalidateKey and DeregMR on a window drop a reference and leave its count, so that a region
  counts dependents it does not have, but never too few (`MrRegistry.Registry.InvalidateKey`,
  `MrRegistry.Registry.DropUnaccounted`). The user client calls both on regions only
  (MlxUserClient.cpp:1808-1811, 2217-2219).
- The data-path guard looks at the pointer to its lock before it takes the lock. Once Cleanup has
  freed the lock, a call can take it if and only if it has looked already or the pointer is not
  yet null (`DataPath.WildIsExact`, `DataPath.LocksAFreedLock`).

## Model

| member | source | states |
|---|---|---|
| FwPages.Manager.Run | src/dext/Sources/core/MlxFwPages.cpp:107-999 | in any run of page operations under any firmware the invariant holds at the end, so the memory behind every page counted as given, pending or quarantined is live; without a verified reset a page stops being counted only by being named in a reply |
| PageLedger.HeldMemoryIsLive | src/dext/Sources/core/MlxFwPages.cpp:839-929 | the backing of a GIVEN, GIVE_PENDING or QUARANTINE page (own buffer, boot or init chunk, or covering extent) is never completed |
| FwPages.Manager.ValidateAccounting | src/dext/Sources/core/MlxFwPages.cpp:1141-1167 | the four redundant counters always equal a scan of the page states; the check never fails in a valid state |
| FwPages.Manager.GetFirmwareOwned | src/dext/Sources/core/MlxFwPages.cpp:1044-1054 | the counter equals the number of pages scanned as firmware-owned |
| FwPages.Manager.GetAmbiguousOwned | src/dext/Sources/core/MlxFwPages.cpp:1056-1067 | the counter equals the number of pending and quarantined pages scanned |
| PageLedger.ScanUpdate | src/dext/Sources/core/MlxFwPages.cpp:847-869 | a change of one slot moves each counter by exactly what left it and what entered it |
| FwPages.Manager.AllocPage | src/dext/Sources/core/MlxFwPages.cpp:125-168 | a new host page goes to the first free slot, with a mapping nobody else has; failures complete what was mapped |
| FwPages.Manager.ReleasePage | src/dext/Sources/core/MlxFwPages.cpp:170-195 | refused for pages firmware has or may have and in quarantine; otherwise the slot is emptied and exactly its own buffer completed |
| FwPages.Manager.Give | src/dext/Sources/core/MlxFwPages.cpp:197-282 | GIVE: success moves every page of the batch to firmware, a timeout leaves them quarantined and the device suspect, any other error makes them the host's again |
| FwPages.Manager.MarkPending | src/dext/Sources/core/MlxFwPages.cpp:229-239 | under the lock, exactly the pages of the batch that are still allocated become ambiguous |
| FwPageThreads.Interleave | src/dext/Sources/core/MlxFwPages.cpp:107-999 | any sequence of locked regions of any threads, up to the first that is wrong where it stands: the invariant holds at the end if and only if there is no such act, and there is none when no page is stamped and no region dropped; then the memory behind every held page is live, no buffer has changed hands, and without a reset firmware has lost only pages it named |
| FwPageThreads.Do | src/dext/Sources/core/MlxFwPages.cpp:107-999 | one locked region keeps the invariant and the reservations of other threads if and only if it drops no region that an allocated page relies on or a thread is filling, and stamps no page out of its backing |
| FwPageThreads.TestAmong | src/dext/Sources/core/MlxFwPages.cpp:197-239 | with any acts of other threads between the unlocked test of a GIVE and its marking, a buffer the command names is live if and only if its slot or region still has it; so are all of them when the acts in between spare the slots, drop no region and stamp no page |
| FwPageThreads.GiveAmong | src/dext/Sources/core/MlxFwPages.cpp:197-282 | the whole GIVE with that gap; with nobody in the gap it is the atomic one |
| FwPageThreads.LiveWhereItWas | src/dext/Sources/core/MlxFwPages.cpp:839-929 | under the invariant a buffer has not been completed if and only if the slot or region that owned it at any earlier time still points to it |
| FwPageThreads.ReleaseAmong | src/dext/Sources/core/MlxFwPages.cpp:839-929 | ReleaseHostMappings with any acts of other threads between its stages; right when those install nothing and no region was being filled |
| PageLedger.DropIsSound | src/dext/Sources/core/MlxFwPages.cpp:872-929 | completing the buffer of a region keeps the invariant if and only if no page but returned ones lies in it |
| FwPages.Manager.DropUnneeded | src/dext/Sources/core/MlxFwPages.cpp:872-929 | one turn of stage 2: the region goes exactly when no held page needs it, which is right if and only if no allocated page relies on it |
| FwPages.Manager.ClearNext | src/dext/Sources/core/MlxFwPages.cpp:846-869 | one turn of stage 1: some page that is not held is cleared, none only when all are held |
| FwPageRuns.DroppedUnderAGive | src/dext/Sources/core/MlxFwPages.cpp:585-929 | a run in which a region filled between the stages is dropped, its page passes the test of a GIVE, and firmware gets a page without memory |
| FwPageRuns.GiveOnTheDevice | src/dext/Sources/core/MlxCmd.cpp:666-674 | a page given and then released has its buffer completed within the reach of the device if and only if the delivery of the GIVE failed after the doorbell |
| FwPageRuns.GiveThenRelease | src/dext/Sources/core/MlxFwPages.cpp:240-282 | a page given and then released has its buffer completed exactly when the command is reported as failed without a timeout, which is when MlxFwPages takes the page back |
| FwPageRuns.GiveRacesRelease | src/dext/Sources/core/MlxFwPages.cpp:209-239 | for every batch: if another thread releases between test and marking, the command names pages whose buffers are completed |
| FwPages.GiveCounts | src/dext/Sources/core/MlxFwPages.cpp:229-282 | a settled batch of distinct pages adds its size to the firmware count on success and nothing otherwise |
| FwPages.Manager.AcceptReply | src/dext/Sources/core/MlxFwPages.cpp:523-583 | a TAKE reply moves every page it names from firmware to the host, or nothing: an unknown, misaligned or repeated address moves none |
| FwPages.TakeBackIs | src/dext/Sources/core/MlxFwPages.cpp:548-564 | exactly the named slots change, each from GIVEN to RETURNED |
| FwPages.Manager.MatchReply | src/dext/Sources/core/MlxFwPages.cpp:523-547 | the reply is accepted exactly when its addresses are aligned, known as GIVEN pages of the function, and distinct |
| FwPages.Manager.DebitExtent | src/dext/Sources/core/MlxFwPages.cpp:548-564 | exactly the first runtime extent that contains a returned address is debited, by one page and not below zero |
| FwPages.Manager.TakePages | src/dext/Sources/core/MlxFwPages.cpp:468-583 | on success firmware has the taken pages fewer, up to what serviced requests gave and took; refused while anything is ambiguous; a timeout or a rejected reply quarantines the function's pages and the device |
| FwPages.Manager.TakeBatch | src/dext/Sources/core/MlxFwPages.cpp:478-583 | one command of TAKE: succeeds exactly on a good reply within the request, and any other reply isolates exactly the pages of the function |
| FwPages.Manager.FinishTake | src/dext/Sources/core/MlxFwPages.cpp:500-583 | a reply that is too long, or names an unknown, misaligned or repeated address, moves nothing and leaves every page of the function that was given or pending in quarantine |
| FwPages.Manager.Exec | src/dext/Sources/MlxPCIDriver.cpp:2835-2853 | requests serviced inside a command move the firmware count by exactly what they gave and took, and keep the invariant |
| FwPages.Manager.ProvidePages | src/dext/Sources/core/MlxFwPages.cpp:317-378 | on success firmware holds all the pages asked for; a failed GIVE is undone or isolated, and the invariant holds on every path |
| FwPages.Manager.ProvidePagesContig | src/dext/Sources/core/MlxFwPages.cpp:585-769 | the same for pages cut from one large buffer; the region is installed only with every page backed by it, and a request that finds an extent, slots and a usable mapping is met |
| FwPages.Manager.MapRegion | src/dext/Sources/core/MlxFwPages.cpp:609-684 | a region is installed with its buffer exactly when the mapping is usable and slots suffice; otherwise everything mapped is completed |
| FwPages.Manager.FillRegion | src/dext/Sources/core/MlxFwPages.cpp:688-722 | page i of the region takes a free slot at its base plus i pages, and nothing else changes; the capacity test makes the no-slot exit unreachable |
| FwPages.Manager.GiveRegion | src/dext/Sources/core/MlxFwPages.cpp:724-769 | success gives firmware all the pages of the region, failure leaves it what it had or quarantines |
| FwPages.Manager.Undo | src/dext/Sources/core/MlxFwPages.cpp:358-372 | the shared failure path takes back what this call gave, or isolates it |
| FwPages.Manager.NotifyAllocationFailure | src/dext/Sources/core/MlxFwPages.cpp:454-466 | the notification changes no ownership whatever firmware answers |
| FwPages.Manager.HandleRuntimePageRequest | src/dext/Sources/core/MlxFwPages.cpp:380-452 | a request for more pages than firmware holds quarantines whatever firmware would answer; otherwise a successful request moves exactly the pages asked for |
| FwPages.Manager.ReclaimAll | src/dext/Sources/core/MlxFwPages.cpp:771-837 | with the request queue freed it ends against any firmware and on success returned equals requested; with requests still serviced the two are equal if and only if the requests gave as much as they took, and it runs for at most 101 turns per page requested or given; on success every slot and region is empty and every buffer completed |
| FwPages.Manager.ReclaimTurn | src/dext/Sources/core/MlxFwPages.cpp:801-829 | a turn takes pages, or uses 50 ms of the 5 s without progress, or quarantines |
| FwPageRuns.ReclaimComesUpShort | src/dext/Sources/MlxPCIDriver.cpp:3305-3318 | a run as in StableInitCycle that succeeds with two pages requested, one returned and nothing left |
| FwPageRuns.ReclaimGoesOn | src/dext/Sources/MlxPCIDriver.cpp:3305-3318 | for every number of turns a run in which each turn takes a page, none is missing progress, and a page is still given out |
| FwPageRuns.LoneToPair | src/dext/Sources/core/MlxFwPages.cpp:380-452 | a request for two pages followed by one for one of them back leaves the page firmware had and one new page, in two extents |
| FwPages.Manager.FirstOwner | src/dext/Sources/core/MlxFwPages.cpp:785-800 | finds the function of the first page given out, and how many that function holds; none exactly when nothing is given out |
| FwPages.NothingIsOwned | src/dext/Sources/core/MlxFwPages.cpp:822-837 | with every slot and region empty, no mapping is left live |
| FwPages.Manager.ReleaseHostMappings | src/dext/Sources/core/MlxFwPages.cpp:839-929 | releases every page that is not held and every region no held page needs; held pages and their backing stay |
| FwPages.FirmwareSurvives | src/dext/Sources/core/MlxFwPages.cpp:839-929 | releasing pages firmware does not hold leaves its count alone |
| FwPages.Manager.RegionNeeded | src/dext/Sources/core/MlxFwPages.cpp:872-929 | a region is needed exactly when some held page is backed by it |
| FwPages.Manager.EnterQuarantine | src/dext/Sources/core/MlxFwPages.cpp:931-957 | every page firmware has or may have becomes QUARANTINE, every other page is untouched |
| FwPages.Manager.QuarantineFunction | src/dext/Sources/core/MlxFwPages.cpp:959-977 | the same for the pages of one function |
| FwPages.Manager.ReleaseQuarantineAfterReset | src/dext/Sources/core/MlxFwPages.cpp:979-999 | the one step after which quarantined pages may be released |
| FwPages.Manager.Free | src/dext/Sources/core/MlxFwPages.cpp:107-123 | refuses to free anything across an unestablished DMA boundary |
| CommandSlots.SlotKindsDisjoint | src/dext/Sources/core/MlxCmd.cpp:237-248 | MANAGE_PAGES and regular slots are disjoint if and only if the queue has more than one descriptor |
| CommandSlots.DescriptorsFit | src/dext/Sources/core/MlxCmd.cpp:169-179 | every 64-byte descriptor lies inside the 4096-byte queue page and no two overlap |
| CommandSlots.PagesDoorbellExists | src/dext/Sources/core/MlxCmd.cpp:603-606 | the MANAGE_PAGES slot has a bit in the 32-bit doorbell if and only if the queue has at most 32 descriptors, although 64 are accepted |
| CommandSlots.ReachableInv | src/dext/Sources/core/MlxCmd.cpp:459-522 | the busy mask covers every slot in flight or timed out in every reachable state of any interleaving |
| CommandSlots.SlotsAreExclusive | src/dext/Sources/core/MlxCmd.cpp:459-522 | two commands in flight are on different slots, and a slot whose command timed out is never handed out again |
| CommandSlots.BusyUntilFinished | src/dext/Sources/core/MlxCmd.cpp:499-522 | a slot comes free only through its own holder finishing in time |
| CommandSlots.DeadForever | src/dext/Sources/core/MlxCmd.cpp:507-522 | a timed-out slot stays out of use for the rest of the run |
| CommandSlots.Arbiter.TryAcquire | src/dext/Sources/core/MlxCmd.cpp:459-497 | the locked region takes the first eligible slot nobody holds, with its state; it reports busy exactly when all eligible slots are, and a failed allocation changes nothing |
| CommandSlots.Arbiter.Retire | src/dext/Sources/core/MlxCmd.cpp:499-522 | the slot is released unless the command timed out |
| Mailbox.Xor8 | src/dext/Sources/core/MlxCmd.cpp:43-50 | the accumulating loop is the exclusive or of the byte range |
| Mailbox.SetMailboxSignature | src/dext/Sources/core/MlxCmd.cpp:432-439 | writes only the two signature bytes; afterwards control part and whole block are sealed |
| Mailbox.SignatureCloses | src/dext/Sources/core/MlxCmd.cpp:593-596 | computed over the descriptor with its signature byte cleared, the signature makes all 64 bytes XOR to 0xff |
| Mailbox.SignLayout | src/dext/Sources/core/MlxCmd.cpp:593-596 | all 64 bytes of the descriptor XOR to 0xff |
| Mailbox.GatherIsInput | src/dext/Sources/core/MlxCmd.cpp:554-572 | blocks that carry the chunks in order carry the input, padded with zeros only |
| Mailbox.WalkVisitsInOrder | src/dext/Sources/core/MlxCmd.cpp:556-586 | following next pointers from the first block visits every block in order and ends |
| Mailbox.ChainLeads | src/dext/Sources/core/MlxCmd.cpp:556-586 | the pointer in the descriptor and the next pointers lead a reader through exactly the chain |
| Mailbox.Chain.AllocMailbox | src/dext/Sources/core/MlxCmd.cpp:316-430 | a cached chain is reused when it suffices; otherwise new blocks at addresses of their own, or a failure with no chain |
| Mailbox.Chain.WriteInput | src/dext/Sources/core/MlxCmd.cpp:554-572 | every block carries its chunk of the input, zero-filled, linked, numbered, stamped with the token and sealed |
| Mailbox.Chain.ClearOutput | src/dext/Sources/core/MlxCmd.cpp:574-586 | every reply block is cleared, linked, stamped and sealed |
| Mailbox.Slot.Build | src/dext/Sources/core/MlxCmd.cpp:543-596 | the device that follows the descriptor reads this command padded with zeros, and nothing the slot held before |
| Mailbox.Slot.AfterHistory | src/dext/Sources/core/MlxCmd.cpp:543-596 | the same after any sequence of commands and any replies on the slot |
| Mailbox.CopyReply | src/dext/Sources/core/MlxCmd.cpp:678-686 | the copy-out gathers header and blocks up to the size asked for |
| Mailbox.CopyInvertsSplit | src/dext/Sources/core/MlxCmd.cpp:678-686 | copying out inverts the split into descriptor bytes and blocks |
| DmaLifetime.Driver.Run | src/dext/Sources/core/MlxCmd.cpp:603-722 | in any run of CQ, EQ, MR and mailbox operations, with quarantines and resets between any two steps and any firmware that numbers no EQ 0, a mapping is completed only when the device cannot reach it |
| DmaLifetime.Driver.Exec | src/dext/Sources/core/MlxCmd.cpp:507-722 | the key fact: a failure that leaves the device unquarantined has given the device nothing |
| DmaLifetime.Driver.AfterDoorbell | src/dext/Sources/core/MlxCmd.cpp:603-722 | after the doorbell the device is quarantined if and only if it was or firmware did not answer; an answered failure leaves the device nothing it did not have |
| DmaLifetime.OnlyZeroSucceeds | src/dext/Sources/core/MlxCmd.cpp:703-721 | only outbox status 0 is reported as success |
| DmaLifetime.Driver.CompleteDma | src/dext/Sources/core/MlxDMA.cpp:140-163 | completing a mapping demands that the device cannot reach it |
| DmaLifetime.Driver.Unpin | src/dext/Sources/core/MlxDMA.cpp:140-163 | an unpinned mapping is completed outside quarantine and handed to the registry inside it |
| DmaLifetime.Driver.Retain | src/dext/Sources/MlxPCIDriver.cpp:2957-2969 | a mapping handed to the registry quarantines the device and stays mapped |
| DmaLifetime.Driver.VerifiedReset | src/dext/Sources/MlxPCIDriver.cpp:3126-3136 | only after a verified reset are retained mappings completed and the quarantine lifted |
| DmaLifetime.Driver.CreateCq | src/dext/Sources/ib/MlxCQ.cpp:224-333 | a CQ mapping ends in the table, or completed, or retained, and never completed while the device may reach it |
| DmaLifetime.Driver.DestroyCq | src/dext/Sources/ib/MlxCQ.cpp:335-373 | the mapping is completed only after firmware confirmed the destroy |
| DmaLifetime.Driver.FreeCqs | src/dext/Sources/ib/MlxCQ.cpp:96-132 | teardown of the table completes or retains every CQ mapping |
| DmaLifetime.Driver.CreateEq | src/dext/Sources/core/MlxEQ.cpp:197-246 | a successful CREATE_EQ records the number firmware chose, 0 included; a failed one leaves the number 0 and keeps the ring in the table |
| DmaLifetime.Driver.DestroyEq | src/dext/Sources/core/MlxEQ.cpp:249-264 | the number is forgotten only when firmware confirmed the destroy |
| DmaLifetime.Driver.MarkDestroyedByTeardown | src/dext/Sources/core/MlxEQ.cpp:266-274 | legitimate after TEARDOWN_HCA or in quarantine, and then Free is safe |
| DmaLifetime.Driver.FreeEq | src/dext/Sources/core/MlxEQ.cpp:181-194 | the ring is completed if and only if the number is 0 and the device is not quarantined, otherwise retained |
| DmaLifetime.Driver.CreateAndFreeEq | src/dext/Sources/core/MlxEQ.cpp:181-246 | a ring the device can reach is completed by Free if and only if firmware created the EQ under the number 0 and the device is not quarantined |
| DmaLifetime.RingCompletedUnderDevice | src/dext/Sources/core/MlxEQ.cpp:181-246 | a run that completes a ring under the device: firmware creates the EQ as number 0 |
| DmaLifetime.Driver.RegMr | src/dext/Sources/ib/MlxMR.cpp:128-245 | a pin ends in the table, or is released when the device cannot reach it, or is retained |
| DmaLifetime.Driver.DestroyUnplaced | src/dext/Sources/ib/MlxMR.cpp:229-244 | a key without a table slot is destroyed again; its pin is completed only out of the device's reach and retained only in quarantine |
| DmaLifetime.Driver.DeregMr | src/dext/Sources/ib/MlxMR.cpp:364-420 | the pin goes only after firmware confirmed the destroy |
| DmaLifetime.Driver.FreeMrs | src/dext/Sources/ib/MlxMR.cpp:90-126 | teardown of the table releases or retains every pin |
| DmaLifetime.Driver.ReleaseChain | src/dext/Sources/core/MlxCmd.cpp:282-311 | blocks of an idle slot are completed, or retained in quarantine |
| DmaLifetime.Driver.CommandOnSlot | src/dext/Sources/core/MlxCmd.cpp:524-664 | a command that times out leaves the device quarantined and its mailboxes reachable; while the device is not quarantined the mailboxes are out of its reach afterwards |
| QuarantineRegistry.Registry.RetainPages | src/dext/Sources/MlxPCIDriver.cpp:90-111 | an object is entered in the first free slot, or kept alive for good when the table is full |
| QuarantineRegistry.RetainKeepsOnce | src/dext/Sources/MlxPCIDriver.cpp:95-106 | retaining keeps objects unique if and only if the object is not already registered behind the slot the search stops at |
| QuarantineRegistry.Registry.ReleaseAfterReset | src/dext/Sources/MlxPCIDriver.cpp:113-147 | after the reset of one device exactly its entries are freed, each once; entries of other devices stay in place and in order, and nothing is lost |
| QuarantineRegistry.Registry.FreePages | src/dext/Sources/MlxPCIDriver.cpp:116-131 | the table loop frees exactly the entries of the device, no object twice |
| QuarantineRegistry.Registry.Unlink | src/dext/Sources/MlxPCIDriver.cpp:132-147 | the in-place splice leaves the other nodes in order and collects the device's nodes last first |
| QuarantineRegistry.SplitConserves | src/dext/Sources/MlxPCIDriver.cpp:132-140 | splitting the list by device loses and duplicates nothing |
| QuarantineRegistry.Registry.RetainMapping | src/dext/Sources/MlxPCIDriver.cpp:149-162 | a mapping is put at the head of the list |
| DmaSegments.BytesCanReserve | src/dext/Sources/core/MlxSafety.hpp:12-14 | accepts exactly a positive amount that fits under the limit, with no wrap |
| DmaSegments.PinnedChargeIsWorstCase | src/dext/Sources/core/MlxSafety.hpp:16-23 | the charge is the largest page footprint over every alignment, and the last byte of a page attains it |
| DmaSegments.SegmentsCover | src/dext/Sources/core/MlxSafety.hpp:25-37 | accepts exactly 1 to 32 non-empty, non-wrapping segments that add up to the length |
| DmaSegments.BuildSegmentPas | src/dext/Sources/core/MlxSafety.hpp:39-65 | succeeds if and only if some page list within the capacity sends every byte of the region to its segment address, and then produces it, of exactly the page count of the region |
| DmaSegments.RepresentsIsUnique | src/dext/Sources/core/MlxSafety.hpp:39-65 | the page list of a region is unique |
| DmaSegments.CongruenceIsNecessary | src/dext/Sources/core/MlxSafety.hpp:51-51 | a segment that is not congruent to its place cannot be described by any page list |
| DmaSegments.ContinuationIsNecessary | src/dext/Sources/core/MlxSafety.hpp:57-57 | a segment that starts inside a page must continue the page before it |
| DmaSegments.TranslationIsModular | src/dext/Sources/core/MlxDMA.cpp:116-131 | translation depends on the address only modulo 4096, so the list built for the IOVA serves the congruent start address |
| DmaSegments.ByteInSegment | src/dext/Sources/core/MlxSafety.hpp:41-65 | byte k of a segment lives at the address of the segment plus k |
| MttPages.PageCountIsLeast | src/dext/Sources/hw/MlxP0Encoding.hpp:263-275 | the count is the least number of pages that hold the region, and 0 exactly for a bad shift, an empty region or one past 2^64 |
| MttPages.PickShift | src/dext/Sources/hw/MlxP0Encoding.hpp:289-305 | the largest allowed shift at which start and IOVA agree, 0 only if they disagree at 4 KiB |
| MttPages.CongruenceDescends | src/dext/Sources/hw/MlxP0Encoding.hpp:289-305 | agreement at a coarse page size implies it at every finer one |
| MttPages.BuildContiguousPas | src/dext/Sources/hw/MlxP0Encoding.hpp:307-322 | fills the list with consecutive pages in 64-bit arithmetic, exactly when count and capacity allow |
| MttPages.ContiguousIsRight | src/dext/Sources/hw/MlxP0Encoding.hpp:307-322 | for a congruent range no entry wraps and byte j goes to the IOVA plus j, whatever the page size |
| MttPages.CoarseRefinesFine | src/dext/Sources/ib/MlxMR.cpp:159-194 | the coarse list sends every byte where the 4 KiB list sends it |
| MttPages.MapForRegistration | src/dext/Sources/ib/MlxMR.cpp:135-206 | whatever list a registration ends up with, every byte of the region translates to its segment address, and the command fits the mailbox |
| MttPages.MapSmall | src/dext/Sources/core/MlxDMA.cpp:116-131 | the list Pin builds from the IOVA is right for the congruent start address of the client |
| MttPages.MapLarge | src/dext/Sources/ib/MlxMR.cpp:159-194 | the same for regions above 480 pages, contiguous or fragmented |
| RingPages.AppendMttPages | src/dext/Sources/hw/MlxP0Encoding.hpp:238-261 | succeeds exactly for a non-empty, non-wrapping segment whose pages fit, and appends each page it touches, the first only if it is not the last of the list |
| RingPages.PageIsNext | src/dext/Sources/hw/MlxP0Encoding.hpp:245-259 | every turn of the loop looks at the next page of the segment, ending with the last |
| RingPages.RingPagesOf | src/dext/Sources/core/MlxEQ.cpp:113-124 | accepted if and only if the pages of all segments fit the list or a segment boundary falls where the list is full, and the list is then that of the whole ring if and only if they fit |
| RingPages.JoinAllIsRight | src/dext/Sources/ib/MlxCQ.cpp:273-281 | the list sends every byte of the ring to its segment address if and only if every segment starts congruent to its place, continues the page it starts within, and does not begin on the page just finished |
| RingPages.AcceptsAWrongList | src/dext/Sources/ib/MlxCQ.cpp:273-281 | the loop accepts a completion queue of 64 entries in two half pages with a list that is wrong for its second half |
| RingPages.WholeIfItFits | src/dext/Sources/core/MlxEQ.cpp:115-124 | a list built from the first segments is that of the whole ring if and only if all pages fit the capacity |
| RingPages.HalfARingIsAccepted | src/dext/Sources/core/MlxEQ.cpp:113-124 | a ring of 1024 entries in two halves of eight pages is accepted with a list of the first half |
| KeyIndexReaders.FindAmong | src/dext/Sources/core/MlxKeyIndex.hpp:55-67 | a search without the lock, with any number of word writes of one inserting and removing thread between any two of its reads, ends and returns the slot of a key that stays stored, and nothing for one that stays out while a never-used bucket is left |
| KeyIndexReaders.KeepsInv | src/dext/Sources/core/MlxKeyIndex.hpp:45-79 | at every single store the chains hold; the map changes with the second store of an insertion and with the tombstone, as Insert and Remove change it |
| KeyIndexReaders.MatchIsRight | src/dext/Sources/core/MlxKeyIndex.hpp:62-63 | a bucket seen live and later with the key is the bucket of the key if the key stays stored, and not live if it stays out |
| KeyIndexReaders.NoGapBefore | src/dext/Sources/core/MlxKeyIndex.hpp:62-65 | no probe on the way to a key that stays stored ever meets a never-used bucket |
| KeyIndexReaders.KeyStays | src/dext/Sources/core/MlxKeyIndex.hpp:45-79 | a key that stays stored keeps its bucket and its slot, whatever else is inserted and removed |
| KeyIndex.Cap | src/dext/Sources/core/MlxKeyIndex.hpp:18-28 | ends with the least power of two of at least twice the entries, for up to 2^30 entries |
| KeyIndex.CapDiverges | src/dext/Sources/core/MlxKeyIndex.hpp:18-28 | beyond 2^30 entries the loop test never fails |
| KeyIndex.ShiftOfPower | src/dext/Sources/core/MlxKeyIndex.hpp:30-36 | the shift leaves exactly the bits of the capacity |
| KeyIndex.HashInTable | src/dext/Sources/core/MlxKeyIndex.hpp:37-43 | the hash of any key is a bucket of the table |
| KeyIndex.Find | src/dext/Sources/core/MlxKeyIndex.hpp:55-67 | returns the slot the finite map has for the key, or -1 exactly when the key is absent |
| KeyIndex.NotFoundIsAbsent | src/dext/Sources/core/MlxKeyIndex.hpp:55-67 | reaching a never-used bucket proves the key absent |
| KeyIndex.FindDiverges | src/dext/Sources/core/MlxKeyIndex.hpp:55-79 | without a never-used bucket a search for an absent key never ends |
| KeyIndex.Insert | src/dext/Sources/core/MlxKeyIndex.hpp:45-53 | for an absent key and one bucket that is not live: ends, puts the key in the first such bucket from its home, keeps the probe chains and extends the map by the key |
| KeyIndex.InsertIsSound | src/dext/Sources/core/MlxKeyIndex.hpp:45-53 | filling the first bucket that is not live on the probe path keeps every chain |
| KeyIndex.Remove | src/dext/Sources/core/MlxKeyIndex.hpp:69-79 | leaves a tombstone, keeps the chains and takes exactly the key out of the map |
| KeyIndex.RemoveIsSound | src/dext/Sources/core/MlxKeyIndex.hpp:69-79 | a tombstone breaks no chain |
| KeyIndex.EmptiesPerStep | src/dext/Sources/core/MlxKeyIndex.hpp:45-79 | never-used buckets never come back and one insertion uses up at most one |
| KeyIndex.SearchesEndBeforeCapacityInserts | src/dext/Sources/core/MlxKeyIndex.hpp:45-79 | with fewer insertions than buckets since the table was zeroed, every Find and Remove ends |
| KeyIndex.CapacityInsertsMaySpendTheTable | src/dext/Sources/core/MlxKeyIndex.hpp:45-79 | the bound is exact for every capacity: a history of exactly that many insertions, never with more than one key stored, after which no search for any key ends |
| KeyIndex.KeyFor | src/dext/Sources/core/MlxKeyIndex.hpp:37-43 | every bucket is the home of some key whose variant is not 0 |
| KeyIndex.RoomToInsert | src/dext/Sources/core/MlxKeyIndex.hpp:18-28 | while fewer keys are stored than there are buckets, Insert ends |
| KeyIndex.Index.Put | src/dext/Sources/ib/MlxMR.cpp:261-262 | an index of the driver: the map gains the key, and one more insertion is on the books |
| KeyIndex.Index.Take | src/dext/Sources/ib/MlxMR.cpp:404-411 | the map loses exactly the key |
| KeyIndex.Index.SearchEnds | src/dext/Sources/core/MlxKeyIndex.hpp:55-79 | a search ends for every stored key, and for every key before as many insertions as buckets |
| MrRegistry.Compose | src/dext/Sources/hw/MlxP0Encoding.hpp:401-411 | a key gives back its index and variant |
| MrRegistry.Registry.LookupByRkey | src/dext/Sources/ib/MlxMR.cpp:430-437 | when the search in the hash ends, it agrees with a linear scan of the used slots |
| MrRegistry.Registry.LookupByLkey | src/dext/Sources/ib/MlxMR.cpp:439-446 | when the search in the hash ends, it agrees with a linear scan of the used slots; windows have no lkey |
| MrRegistry.Registry.ValidateRange | src/dext/Sources/ib/MlxMR.cpp:571-583 | true exactly when a valid region of the domain with that lkey contains the whole range, with local write where the device writes |
| MrRegistry.Registry.Run | src/dext/Sources/ib/MlxMR.cpp:128-569 | any calls of any clients, those that run inside the unlocked gap of any other included, keep table, counts and both hash indexes consistent until one loses an entry or a count still in use, which each call states exactly; no search fails to end before as many keys have been inserted as the index has buckets |
| MrRegistry.Registry.Lookup | src/dext/Sources/ib/MlxMR.cpp:422-428 | the first used slot with the handle, or none |
| MrRegistry.Registry.RegMr | src/dext/Sources/ib/MlxMR.cpp:128-272 | whatever other threads do while the command runs: succeeds exactly when the range is good, firmware accepts and a slot is free by then; the region takes the first free slot, with the variant drawn before, and its key in both indexes |
| MrRegistry.Registry.RegMrIndirect | src/dext/Sources/ib/MlxMR.cpp:275-361 | a missing child refuses the call; otherwise every child gains a dependent per occurrence and the parent records them; consistent afterwards if and only if every child is still a region and the range does not wrap |
| MrRegistry.Added | src/dext/Sources/ib/MlxMR.cpp:331-352 | counting the children and adding the parent keeps table, counts and indexes if and only if all children are regions and the range does not wrap |
| MrRegistry.Registry.DeregMr | src/dext/Sources/ib/MlxMR.cpp:364-420 | refused while anything depends on the region; it is gone afterwards and its children lose exactly its references. The test and the removal are separate locked regions: the table stays consistent if and only if nobody refers to the region when the command returns, which holds whenever the calls in between do not name it |
| MrRegistry.BindUnderDereg | src/dext/Sources/ib/MlxMR.cpp:379-416 | a run in which DeregMR sees no dependent, a window is bound to the region, and the region goes: the window is left bound to nothing |
| MrRegistry.RemovalDangles | src/dext/Sources/ib/MlxMR.cpp:392-416 | whoever refers to a region that is removed is left with a reference to nothing |
| MrRegistry.Registry.DropDependent | src/dext/Sources/ib/MlxMR.cpp:395-399 | while a reference exists the count is positive, so the guarded decrement is never skipped |
| MrRegistry.Registry.DropUnaccounted | src/dext/Sources/ib/MlxMR.cpp:370-378 | a window that leaves through DeregMR leaves its parent's count too high, the only inexactness besides InvalidateKey |
| MrRegistry.Registry.AllocMw | src/dext/Sources/ib/MlxMR.cpp:448-484 | the window takes a slot with a key in the rkey index only; whatever other clients do between its two searches, somebody else's entry is overwritten if and only if no slot is free when its command returns |
| MrRegistry.Registry.FinishAllocMw | src/dext/Sources/ib/MlxMR.cpp:468-484 | succeeds exactly when firmware gave an index other than 0; with a full table the slot of the first search is overwritten and its entry can never be found again |
| MrRegistry.WindowOverwritesRegion | src/dext/Sources/ib/MlxMR.cpp:448-484 | a run for every table size: other clients fill the table while the command runs, and the window takes the slot of the first region |
| MrRegistry.Registry.DeallocMw | src/dext/Sources/ib/MlxMR.cpp:487-517 | whatever other threads do while the command runs: the window disappears and the parent read before loses one dependent if it has one, no other count changes; the counts stay right if and only if that is still the parent or has a dependent to spare |
| MrRegistry.Registry.FinishDeallocMw | src/dext/Sources/ib/MlxMR.cpp:503-516 | the part after the command, for any parent read before: succeeds exactly when the window is there, with the exact condition under which the table stays consistent |
| MrRegistry.ChargedBooks | src/dext/Sources/ib/MlxMR.cpp:507-510 | charging a region for a window that leaves keeps every count at least the references if and only if it is the window's region or has a dependent to spare |
| MrRegistry.RebindUnderDealloc | src/dext/Sources/ib/MlxMR.cpp:487-517 | a run in which a window is bound elsewhere under DeallocMW: its first region ends with no dependents and a child reference to it |
| MrRegistry.Registry.BindMw | src/dext/Sources/ib/MlxMR.cpp:520-555 | succeeds exactly when the window has the key named and the new range lies in a valid region of the same domain that allows binding; the old parent loses the dependent the new one gains; the old key is gone if and only if the shared variant is not the one in it |
| MrRegistry.VariantComesRound | src/dext/Sources/ib/MlxMR.cpp:548-549 | the shared variant comes back exactly after every 255 keys |
| MrRegistry.RebindKeepsTheKey | src/dext/Sources/ib/MlxMR.cpp:520-555 | a run in which a bind succeeds and the old key still leads to the window |
| MrRegistry.Registry.MoveCounts | src/dext/Sources/ib/MlxMR.cpp:539-545 | one dependent moves from the old parent to the new, none when they are the same |
| MrRegistry.Registry.InvalidateKey | src/dext/Sources/ib/MlxMR.cpp:557-569 | exactly the entry with the key is invalidated and unbound; its parent's count is not lowered |
| MrRegistry.Registry.WindowsAreBacked | src/dext/Sources/ib/MlxMR.cpp:520-555 | behind every bound window there is a live region of the same domain that contains its range and cannot be deregistered |
| MrRegistry.IndexFits | src/dext/Sources/ib/MlxMR.cpp:60-71 | an index never holds more keys than the table has slots, which is what leaves Insert a bucket |
| Rings.NewIffWritten | src/dext/Sources/core/MlxEQ.cpp:318-325 | the owner-bit test finds an entry new if and only if hardware has written that index, and then reads that entry |
| Rings.WrapKeepsPlace | src/dext/Sources/core/MlxEQ.cpp:318-323 | a wrapped counter, of 24, 32 or 64 bits, names the same slot and expects the same owner |
| Rings.WidenInverts | src/dext/Sources/core/MlxEQ.cpp:354-365 | 24 bits of index are enough for hardware to know the index meant |
| Rings.WriteKeepsRing | src/dext/Sources/core/MlxEQ.cpp:137-140 | an entry written in its slot with the owner of its lap keeps the ring readable |
| Rings.EventQueue.constructor | src/dext/Sources/core/MlxEQ.cpp:74-141 | a fresh ring holds nothing new |
| Rings.EventQueue.Take | src/dext/Sources/core/MlxEQ.cpp:318-331 | an entry is taken exactly when hardware has written it, and copied before the head moves on, while hardware keeps writing |
| Rings.EventQueue.Poll | src/dext/Sources/core/MlxEQ.cpp:297-352 | delivers the next entries hardware wrote, in order, once each, at most 64, stopping short only at a drained ring; a nested or concurrent Poll does nothing; completions counts the completion events |
| Rings.EventQueue.UpdateCi | src/dext/Sources/core/MlxEQ.cpp:354-365 | publishes the head in 24 bits under the EQ number, and nothing when the number is 0 |
| Rings.EventQueue.Arm | src/dext/Sources/core/MlxEQ.cpp:367-375 | arming publishes the current index |
| Rings.CompletionQueue.constructor | src/dext/Sources/ib/MlxCQ.cpp:286-292 | a fresh CQ, filled with 0xf1, holds nothing new |
| Rings.CompletionQueue.PollCQ | src/dext/Sources/ib/MlxCQ.cpp:511-612 | returns the next completions hardware wrote, in order and once each, fewer than asked only when none is left, and releases them to hardware on the shared path |
| Rings.CompletionQueue.GetCompletions | src/dext/Sources/ib/MlxCQ.cpp:419-441 | counts every entry pending when the call began and none hardware had not written when it ended |
| Rings.CompletionQueue.UpdateCqConsumer | src/dext/Sources/ib/MlxCQ.cpp:481-508 | moves the consumer forward by the 24-bit difference; a ring in step stays so if and only if that difference is at most the number of pending entries |
| Rings.NewAhead | src/dext/Sources/ib/MlxCQ.cpp:524-531 | at an index ahead of hardware nothing looks new, except exactly one lap ahead, where the oldest entry of a full ring does |
| Rings.WholeLapIsReplayed | src/dext/Sources/ib/MlxCQ.cpp:488-499 | the shared-path bound accepts a claim of a whole ring with nothing pending, and precisely then an old completion is returned again |
| IfcBits.SetBits | src/dext/Sources/hw/MlxIfcHelpers.hpp:9-23 | the field holds the value and no bit outside it changes |
| IfcBits.GetBits | src/dext/Sources/hw/MlxIfcHelpers.hpp:25-36 | the value of the field, modulo 2^64 |
| IfcBits.ReadWritten | src/dext/Sources/hw/MlxIfcHelpers.hpp:9-36 | reading back gives the value modulo 2^width |
| IfcBits.HoldsMore | src/dext/Sources/hw/MlxIfcHelpers.hpp:9-23 | a later write clear of earlier fields keeps all of them readable |
| Encoders.EncodeCreateMkey | src/dext/Sources/hw/MlxP0Encoding.hpp:336-399 | succeeds exactly on encodable requests, otherwise leaves the buffer alone; every field is set and no other bit |
| Encoders.BuildCreateMkey | src/dext/Sources/ib/MlxMR.cpp:199-220 | in the finished command PAS entries, start, length, domain, access bits, variant, octword counts and page shift all read back, after every later write |
| Encoders.FieldsFitInput | src/dext/Sources/hw/MlxP0Encoding.hpp:324-334 | no field reaches past the size announced to firmware |
| Encoders.EncodeManagePages | src/dext/Sources/hw/MlxP1Encoding.hpp:262-288 | opcode, operation, function, count and the GIVE page list read back; the rest of the command is zero and bytes beyond it untouched |
| Encoders.DecodeManagePagesTake | src/dext/Sources/hw/MlxP1Encoding.hpp:290-308 | the pages named by the reply, refused when the count exceeds the request, the list or the reply |
| Encoders.TakeRoundTrip | src/dext/Sources/hw/MlxP1Encoding.hpp:290-308 | a reply laid out in firmware's format decodes to the pages it was made of |
| Encoders.TakeRefusesExcess | src/dext/Sources/hw/MlxP1Encoding.hpp:303-304 | a claimed count beyond the request is refused whatever else the reply says |
| Tokens.TokenDecodes | src/dext/Sources/MlxUserClient.cpp:255-260 | a token fits 24 bits and decodes to its type, generation and slot |
| Tokens.TokensAreUnique | src/dext/Sources/MlxUserClient.cpp:255-260 | tokens are equal only if all three parts are |
| Tokens.GenerationsCycle | src/dext/Sources/MlxUserClient.cpp:262-270 | generations of undisturbed mints repeat exactly every 4095 mints |
| Tokens.Registry.Create | src/dext/Sources/MlxUserClient.cpp:262-285 | the token names the first free slot of its kind with the next generation; nothing is minted only when none is free |
| Tokens.Registry.Drop | src/dext/Sources/MlxUserClient.cpp:300-318 | drops exactly a token that resolves, which then resolves to nothing |
| Tokens.Registry.ForRaw | src/dext/Sources/MlxUserClient.cpp:320-334 | a token found for a handle resolves back to it; 0 means the client holds none, unless its place (0,0) has generation 0 |
| Tokens.Registry.LiveResolves | src/dext/Sources/MlxUserClient.cpp:287-298 | a live token resolves to its handle |
| Tokens.Registry.ResolvesExactly | src/dext/Sources/MlxUserClient.cpp:287-298 | a token, live or not, resolves in a client if and only if the slot there is held by a token born a multiple of 4096 increments away |
| Tokens.Registry.DroppedIsDead | src/dext/Sources/MlxUserClient.cpp:287-318 | a dropped token resolves to nothing until the shared counter is 4096 past its birth, whatever slots are reused and however clients interleave |
| Tokens.Registry.ForeignTokenFails | src/dext/Sources/MlxUserClient.cpp:287-298 | a token does not resolve for another client unless that client holds one born at least 4096 increments away |
| Tokens.DroppedTokenComesBack | src/dext/Sources/MlxUserClient.cpp:262-318 | the distance counts from the mint, not from the drop: a run in which the first mint after the drop revives the token for another handle |
| ClientQuota.Client.Reserve | src/dext/Sources/MlxUserClient.cpp:383-488 | both counters of a kind rise together or not at all, and a refusal means a ceiling has been reached |
| ClientQuota.Client.Release | src/dext/Sources/MlxUserClient.cpp:393-487 | an open reservation is released completely; no guarded decrement is skipped |
| ClientQuota.Client.RemoveOwned | src/dext/Sources/MlxUserClient.cpp:652-668 | removes one record of a handle, exactly when it is owned |
| ClientQuota.Client.Create | src/dext/Sources/MlxUserClient.cpp:1500-1791 | QP, CQ and MW creation: one handle more or nothing changed, counters equal to the ownership tables on every path |
| ClientQuota.Client.AllocPd | src/dext/Sources/MlxUserClient.cpp:1417-1454 | one domain more or the same holdings, on every rollback path |
| ClientQuota.Client.CreateUnnamed | src/dext/Sources/MlxUserClient.cpp:1828-1865 | the same for address handles and GID indexes |
| ClientQuota.Client.Destroy | src/dext/Sources/MlxUserClient.cpp:1555-1899 | exactly one handle less, or the same holdings and counters |
| ClientQuota.Client.DeallocPd | src/dext/Sources/MlxUserClient.cpp:1455-1499 | exactly one domain less, or the same holdings; refused while in use |
| ClientQuota.Client.SetGid | src/dext/Sources/MlxUserClient.cpp:1866-1890 | a failed readback gives up exactly the index |
| ClientQuota.Client.RegMr | src/dext/Sources/MlxUserClient.cpp:1654-1708 | pinned bytes rise by the worst-case charge exactly on success, and are kept after a failure only when the device is quarantined |
| ClientQuota.Client.RegMrIndirect | src/dext/Sources/MlxUserClient.cpp:1709-1747 | an indirect region is counted and charged nothing |
| ClientQuota.Client.DeregMr | src/dext/Sources/MlxUserClient.cpp:1808-1827 | gives back exactly what the region was charged and never goes below zero |
| ClientQuota.PinnedWithout | src/dext/Sources/MlxUserClient.cpp:362-381 | pinned bytes cover the charges of the owned regions before and after one leaves or comes back |
| ClientQuota.DevicePins.Charge | src/dext/Sources/core/MlxDMA.cpp:77-87 | the device-wide charge is taken exactly when it fits under the limit; the peak is the largest total seen |
| ClientQuota.DevicePins.Discharge | src/dext/Sources/core/MlxDMA.cpp:140-163 | the charge comes off unless quarantine keeps the mapping, and the books never fall below what is still pinned |
| DataPath.ReachableInv | src/dext/Sources/MlxUserClient.cpp:237-253 | in every reachable state of any interleaving the in-flight counter equals the number of calls inside |
| DataPath.NobodyInsideAfterDrain | src/dext/Sources/MlxUserClient.cpp:583-602 | once the drain loop has passed, no data-path call is inside and none ever is again |
| DataPath.BodiesFindTables | src/dext/Sources/MlxUserClient.cpp:583-635 | no data-path body runs after the ownership tables are freed, and no call that was counted in finds its lock gone on the way out |
| DataPath.WildIsExact | src/dext/Sources/MlxUserClient.cpp:240-244 | once the lock is freed, some continuation makes a call take it if and only if the call has looked at the pointer already or the pointer is not yet null |
| DataPath.LocksAFreedLock | src/dext/Sources/MlxUserClient.cpp:240-629 | a run in which a call looks at the pointer, Cleanup ends, and the call takes the freed lock |
| DataPath.DrainIsExact | src/dext/Sources/MlxUserClient.cpp:595-600 | the drain test passes if and only if nobody is inside |
| DataPath.Guarded.SeeLock | src/dext/Sources/MlxUserClient.cpp:240-241 | the look at the pointer is a step of the protocol; without a lock the call is refused |
| DataPath.Guarded.TakeLock | src/dext/Sources/MlxUserClient.cpp:242-245 | the locked region of the guard is a step of the protocol and lets a call in exactly when teardown has not begun |
| DataPath.Guarded.LeaveCall | src/dext/Sources/MlxUserClient.cpp:247-252 | the guard counts out exactly the calls it counted in |
| DataPath.Guarded.Cleanup | src/dext/Sources/MlxUserClient.cpp:583-635 | teardown ends, with nobody inside and the tables gone; a call can still take the freed lock exactly if it had looked at the pointer |
| DbSlots.OffsetInverts | src/dext/Sources/core/MlxUAR.cpp:437-484 | the flat offset leads back to the page and slot that produced it |
| DbSlots.OffsetCovers | src/dext/Sources/core/MlxUAR.cpp:469-495 | every aligned offset is produced by one page and slot |
| DbSlots.LiveSlotsAreDisjoint | src/dext/Sources/core/MlxUAR.cpp:437-467 | live records share no byte, in the client's offsets or in DMA addresses |
| DbSlots.Bundle.GrowByPage | src/dext/Sources/core/MlxUAR.cpp:286-316 | a new page is empty, zeroed and apart from all others, or nothing changes and the error is returned |
| DbSlots.Bundle.Search | src/dext/Sources/core/MlxUAR.cpp:443-458 | the first free slot of the first page that has one |
| DbSlots.Bundle.AllocClientDbSlot | src/dext/Sources/core/MlxUAR.cpp:437-467 | ends; a slot nobody held, wiped, all other records untouched; an error only when every slot of the client's pages is taken |
| DbSlots.Bundle.FreeClientDbSlot | src/dext/Sources/core/MlxUAR.cpp:469-484 | frees exactly the slot, and nothing during quarantine |
| DbSlots.Bundle.GetClientDbRecord | src/dext/Sources/core/MlxUAR.cpp:486-495 | the record of an aligned offset lies within an existing page |
| DbSlots.Bundle.FreeClientBundle | src/dext/Sources/core/MlxUAR.cpp:401-435 | every page is completed, or every page is retained in quarantine |

## Left out

- FwPages.Manager.Run: the operations of this run are atomic with respect to each other, except that the outermost command services queued page requests, one level deep. FwPageThreads takes them apart into their locked regions, but does not string a thread's regions together again beyond GIVE and ReleaseHostMappings.
- FwPageThreads.Do: the boot and init chunks, which one locked region drops together, are dropped one by one; the laying out of a command between the test and the marking reads nothing that is modelled.
- FwPages.Manager.Give: an undelivered command counts as "not given", as in the source, although firmware might have acted on it; ownership values other than 1, 2 and 3 and function ids above 65535 are excluded.
- FwPageRuns.ReclaimGoesOn: firmware's answers are drawn inside ReclaimAll, so this run and ReclaimComesUpShort make the calls of its loop one after the other instead of calling it.
- FwPageRuns.GiveOnTheDevice: the bus-master fence that EnterDmaQuarantine attempts is left out, as everywhere: the device keeps what it could reach until a reset.
- DmaLifetime.Driver.Run: no EQ is numbered 0 by firmware, and between steps only quarantine and reset interfere; tables of CQs, MRs and EQs are maps; SRQ and QP rings are not among the mappings, nor is the command queue page, and MlxCmd::Free with commands in flight is not modelled.
- DmaLifetime.Driver.VerifiedReset: stands for the tail of PerformFlr; the kernel's own reset at Start, which checks the firmware revision only, counts as verified.
- QuarantineRegistry.Registry.Unlink: the linked list is the sequence of its nodes; a mapping whose list node cannot be allocated is leaked by the source and not modelled.
- FwPages.Manager.ReclaimAll: with requests serviced only a given number of turns of its loop is watched, since it need not end; what a request takes that then quarantines counts as taken.
- MrRegistry.Registry.Run: once an entry or a count still in use has been lost, the run is over: later calls on the inconsistent table are not modelled.
- MrRegistry.Registry.RegMr: dependentCount does not wrap at 2^32; firmware does not give the index of a key that is still in the table; the pin and the encoding are in DmaLifetime, MttPages and Encoders.
- MrRegistry.Registry.AllocMw: RoCE readiness and the failure of the encoder, which cannot happen for its arguments, are left out.
- Rings.EventQueue.Poll: hardware is assumed never to write past the published index plus the depth; the notifier may be missing, in which case the entry is counted as unknown by the source.
- Rings.CompletionQueue.PollCQ: the translation of a CQE into a work completion through QP and SRQ state is not part of this model; a missing doorbell page is not modelled; for a client with its own doorbell record the guarantee needs the driver's index to be in step, and how such a client publishes is left out.
- Rings.CompletionQueue.GetCompletions: the same holds for the index of a client with its own doorbell record.
- Encoders.EncodeCreateMkey: the indirect and window variants of the encoder and mlxP1SetEvent are left out as easy members.
- Tokens.Registry.Create: SRQ tokens behave like the others here, though their selectors never drop them; a token minted for a handle that then cannot be recorded stays in the table in the source.
- ClientQuota.Client.Destroy: putting a handle back after a failed destroy is assumed to succeed; SRQ handles have no quota; the firmware-command window is left out.
- ClientQuota.Client.RegMr: the memory descriptor is assumed to have the length the client asked for, and firmware not to give the index of a key that is still registered.
- DataPath.Guarded.TakeLock: what a call does in a lock that was freed is not modelled beyond that it happens; whether DriverKit lets a call and the teardown of its client overlap is not part of this model.
- DataPath.Guarded.Cleanup: DataPath.Guarded.WhileAsleep assumes that while teardown sleeps some call inside comes out.
- KeyIndexReaders.FindAmong: memory is sequentially consistent; what a search returns for a key that is inserted or removed while it runs is not stated.
- MrRegistry.Registry.LookupByLkey: the look at the entry after the search, and the search of LookupByRkey, are single steps here; the search itself is KeyIndexReaders.FindAmong.
- DbSlots.Bundle.AllocClientDbSlot: two threads of one client do not grow its pool at once, which the method lock excludes; the device-wide single page of AllocDbSlot is the same search without growth and is left out.
- Configuration space, MMIO, MSI-X, interrupts, timers, bring-up sequences, health, port registers, congestion control, GID readback, QPC encoders, WQE layouts and tools.
