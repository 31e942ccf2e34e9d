# Verified models of the NFP driver's control plane

The Netronome Flow Processor driver keeps several state machines between the kernel and the firmware.
This project models the intricate ones in Dafny 4.11 and proves what they keep in every run. Firmware,
device registers, clocks, memory allocation and user requests are abstract: what they do is a parameter
or an event, so that a theorem covers every behaviour they can show.

| module | component |
|---|---|
| `MailboxProtocol`, `MailboxTheorems` | the queue protocol of the CCM mailbox: who may run the next batch, in every interleaving of callers, timeouts, posted messages and work items |
| `MailboxResults`, `MailboxFit` | what callers of the mailbox get back, and how long batches are, in every interleaving |
| `MailboxBatch` | the bytes of a mailbox batch: selecting, writing, and parsing replies |
| `MailboxTags` | when the tags that match replies to the requests of a batch are distinct |
| `CcmTags` | the cyclic 16-bit tag window of control messages |
| `BpfCache` | the cache over firmware BPF maps |
| `AbmGraph`, `AbmEvents` | the reference-counted qdisc hierarchy of an ABM link under all tc notifications |
| `AbmCompile`, `AbmOffload` | compiling that hierarchy into firmware levels and actions, in place |
| `AbmFirmware` | whether the firmware has the thresholds that the hierarchy asks for, over all runs |
| `AbmParams` | what tc configures and what of it reaches the firmware, over all runs |
| `AbmStats` | statistics deltas that have to add up |
| `DscpClassifier` | a filter list compiled into a packed priority table, and the firmware's copy of it |
| `Reconfig` | the firmware reconfig machine with its posted updates |
| `RingReconfig`, `RxRing` | transactional ring reconfiguration, and the life of RX buffers |
| `DebugDump`, `DebugDumpFill` | sizing a debug dump, and filling it: two traversals with their own dispatch, tests and size arithmetic |
| `DebugDumpTheorems`, `DebugDumpReadBack`, `DebugDumpContents` | that the two agree, when filling ends, when every write stays in the buffer, and that the dump can be read back |
| `DebugDumpSpec` | which TLVs of a specification the traversals visit, and what a dump of a level holds |
| `UstoreEcc` | the error correcting code of the microstore |
| `PlatBars`, `CppAreas`, `CppWindows` | shared BARs, area placement, window eviction, and closing the device file |

State that the driver updates in place is a class whose methods are proved against functions on values;
the theorems are about those functions and about sequences of events. A lock region of the driver is one
atomic step. Runs are sequences of events from an initial state; `Reachable`, `Legal`, `Leads` and `Exec`
define them per module.

Where the code does not do what one would expect, the model follows the code, and a lemma says exactly
when it does:

- `MailboxBatch.SelectedContainment`: a message that reserves room for a longer reply takes 4 bytes more
  than batch selection counts.
- `MailboxBatch.Mailbox.ParseReplies`: the window in which replies are accepted starts behind the command header and
  is as long as the whole mailbox, so it ends 8 bytes past the mailbox.
- `MailboxTheorems.GivingUpNeverHandsOver`: the hand-over in `nfp_ccm_mbox_unlink_unlock()` is never taken.
- `MailboxTags.DistinctExactly` and `TagsCanCollide`: two requests of a batch can carry the same tag, after 65536
  requests were enqueued behind one that stays in the queue.
- `UstoreEcc.ValidityCheckTooWide` and `CollideExactly`: the validity check of an instruction lets one bit too many
  through, so that an accepted word can encode inconsistently, or like another one; `WideInstructionInconsistent` and
  `CollidingPair` are instructions that show it.
- `DebugDumpTheorems.NeverEndsExactly`: the cursor of a register dump has 32 bits. If the registers that a range
  touches end at the end of the address space, the cursor goes on at 0, below the end of the range, and the dump
  never ends unless it meets a register that cannot be read; `LastRegisterNeverEnds` is such a specification.
- `DebugDumpTheorems.DumpStaysExactly`: no write leaves the dump buffer iff no cursor wraps like that, and what an
  indirect CSR range that is not a whole number of registers writes too much is covered by the TLVs behind it;
  `TwoBytesOverrun` is a specification that is not covered.
- `DebugDumpTheorems.CalculatedSizeSuffices`: a dump of 2^32 bytes or more does not fit the size calculated for it.
- `AbmFirmware.StepMatchesExactly`: two notifications can leave the firmware behind the hierarchy until the next
  update. Destroying a qdisc that is not the root leaves its thresholds in the firmware (`DestroyLeavesThreshold`).
  Destroying a qdisc, or giving a RED a limit, drops its children; a child at a queue of the root that was held back by
  this second use alone is eligible from there on and its threshold is not programmed (`DropExposesThreshold`).
- `AbmStats.StartKeepsExactly`: a statistics start that fails late loses the reported backlog, and by `GapStays`
  nothing but another such start can make up for it.
- `AbmEvents.DestroyClosedExactly`: the rule tc has to keep to when it destroys a qdisc;
  `ForbiddenDestroyReached` is a hierarchy in which it matters.
- `Reconfig.StrandedExactly`: `nfp_net_reconfig_wait_posted()` can leave posted bits without anybody to write them.
- `DscpClassifier.KeyExactV4` and `KeyExactV6`: key bits below the TOS field are not checked.
- `DscpClassifier.DeleteInSyncExactly` and `RefusedInSyncExactly`: deleting a filter ignores that the firmware may refuse
  the new table, and then goes on with the old one.
- `PlatBars.AllBarsRefused`: an area that needs all BARs of a kind never gets them, even if nobody uses them.
- `CppWindows.ReleaseDanglesExactly`: an area can be released while a mapping that is not attached refers to it.
- `CppWindows.CloseSafeExactly` and `BugExactly`: any opener may map an area, and closing the file that it was requested
  with frees it, or runs into a `BUG_ON()`, while another opener has it mapped; `ClosedUnderMapping` and
  `BugReached` are runs that end so.

## Model

| member | source | states |
|---|---|---|
| `MailboxProtocol.StepKeeps` | src/ccm_mbox.c:132-691 | Every step of communicate, timeout, post, run and wait work keeps the whole invariant: stages along the queue, who runs the batch, what is pending, and that Done messages are the completed ones in order |
| `MailboxProtocol.StartKeeps` | src/ccm_mbox.c:378-413 | Selecting a batch of any admissible size from a queue whose head may run makes the rest of the prefix Busy and restores the invariant |
| `MailboxProtocol.CompleteKeeps` | src/ccm_mbox.c:333-376 | Completing the whole prefix, with or without an error, hands the queue on in order and keeps the invariant |
| `MailboxProtocol.MarkNextKeeps` | src/ccm_mbox.c:132-145 | Marking the head of a queue without runner restores the invariant, by a waiter or by scheduled work |
| `MailboxProtocol.UnlinkKeeps` | src/ccm_mbox.c:437-465 | A waiter that gives up leaves the queue without disturbing anyone's place |
| `MailboxProtocol.PostKeeps` | src/ccm_mbox.c:652-691 | Posting keeps the invariant whether the mailbox is free, locked or busy |
| `MailboxProtocol.RelockKeeps` | src/ccm_mbox.c:562-597 | A waiter that takes the lock again runs, drains or gives up, and each keeps the invariant |
| `MailboxProtocol.BatchIsLongestFit` | src/ccm_mbox.c:378-402 | A batch is the longest prefix, up to the limit, whose messages fit the space, and the head always goes |
| `MailboxTheorems.ExactlyOneOwner` | src/ccm_mbox.c:132-145 | In every run a non-empty queue has exactly one owner of its head, and an empty one none |
| `MailboxTheorems.WarningsUnreachable` | src/ccm_mbox.c:580-645 | None of the three WARN_ONs can fire |
| `MailboxTheorems.BatchOwnsInProgress` | src/ccm_mbox.c:378-402 | Messages in progress are exactly those of the active batch's prefix |
| `MailboxTheorems.BusyNeverUnlinked` | src/ccm_mbox.c:437-465 | A message in progress leaves the queue only by the completion that makes it Done |
| `MailboxTheorems.GivingUpNeverHandsOver` | src/ccm_mbox.c:437-465 | A waiter that gives up is never the next runner, so the branch that hands on is never taken |
| `MailboxTheorems.CompletesInOrder` | src/ccm_mbox.c:333-356 | Messages complete at most once and in the order in which they were enqueued |
| `MailboxTheorems.RefusedExactly` | src/ccm_mbox.c:521-691 | A request is refused iff 1024 messages are queued and it is posted or not critical; otherwise it joins the end of the queue |
| `MailboxTheorems.PostExactly` | src/ccm_mbox.c:652-691 | A message posted to an empty queue is handed to the firmware at once if the mailbox is free and scheduled otherwise |
| `MailboxResults.ResultExactly` | src/ccm_mbox.c:248-356 | In every run, from the end of its batch on a message is done with -EIO if the batch failed, else -ENOENT without a good reply, -EIO with a good and a bad one, and 0 with good ones only; a caller that has returned got that |
| `MailboxResults.EveryResult` | src/ccm_mbox.c:543-599 | In every run a caller that returned got that result, or -ETIMEDOUT if its message is not done |
| `MailboxResults.SuccessExactly` | src/ccm_mbox.c:543-599 | A caller gets 0 iff its batch did not fail and a good reply, and no bad one, was found for it before |
| `MailboxResults.CanReturn` | src/ccm_mbox.c:543-599 | The caller of a message that is done can always return by steps of its own, with the error of the message |
| `MailboxFit.ActiveBatchFits` | src/ccm_mbox.c:378-402 | In every run an active batch has at most 64 messages, and more than one only if headers and reserved lengths fit the mailbox |
| `MailboxFit.SelectedIsLongest` | src/ccm_mbox.c:378-402 | In every run a batch that is selected takes all messages, 64, or as many that the next would not fit |
| `MailboxFit.EnqueuedLength` | src/ccm_mbox.c:521-541 | A message keeps the length it was enqueued with |
| `MailboxTheorems.CanDrain` | src/ccm_mbox.c:378-691 | From every state of the protocol some sequence of steps without new requests and without timeouts empties the queue: no deadlock, no lost hand-over |
| `MailboxTags.DistinctExactly` | src/ccm_mbox.c:521-541 | The tags of requests are distinct iff no two of them are a multiple of 65536 requests apart |
| `MailboxTags.RecentTagsDistinct` | src/ccm_mbox.c:521-541 | In every run all tags in the queue are distinct while at most 65536 requests were enqueued since its oldest |
| `MailboxTags.BatchTagsDistinct` | src/ccm_mbox.c:202-217 | In every such run the messages of the active batch meet what delivery by tag asks of them |
| `MailboxTags.TagsCanCollide` | src/ccm_mbox.c:484-597 | Otherwise, in every mailbox with room for two of the shortest prepared messages, a run leads to a batch that holds two requests with the same tag |
| `MailboxBatch.PreparedFits` | src/ccm_mbox.c:467-518 | A message is accepted iff request and reply fit, and an accepted one always fits a batch of its own |
| `MailboxBatch.SelectBatch` | src/ccm_mbox.c:378-402 | The selection loop computes the specified batch length |
| `MailboxBatch.UnpackPack` | src/ccm_mbox.c:155-200 | Big-endian packing into words loses nothing, whatever the length |
| `MailboxBatch.FootprintExact` | src/ccm_mbox.c:155-200 | The exact number of bytes copy_in() writes or skips |
| `MailboxBatch.ReservationOverruns` | src/ccm_mbox.c:184-192 | One message with the longest reply exceeds the mailbox by exactly the reservation header |
| `MailboxBatch.SelectedContainment` | src/ccm_mbox.c:378-402 | A selected batch stays inside the mailbox iff its reservation headers fit the space that is left |
| `MailboxBatch.WriteMessage` | src/ccm_mbox.c:163-196 | One message is laid out as its TLV, padded, with a reservation behind it, and no other word changes |
| `MailboxBatch.CopyIn` | src/ccm_mbox.c:155-200 | The whole batch is laid out in queue order with an End TLV, and no word outside changes |
| `MailboxBatch.ReadsBack` | src/ccm_mbox.c:155-200 | Parsing what copy_in() wrote yields exactly the queued requests in order |
| `MailboxBatch.FindReq` | src/ccm_mbox.c:202-216 | Finds the first message of the batch with the tag, or none |
| `MailboxBatch.TurnSound` | src/ccm_mbox.c:218-331 | The turns of the reply loop add up to parsing all TLVs and delivering them in order |
| `MailboxBatch.Mailbox.ParseReply` | src/ccm_mbox.c:232-330 | One turn of the reply loop, for any memory contents |
| `MailboxBatch.Mailbox.ParseReplies` | src/ccm_mbox.c:218-331 | The reply loop terminates on any memory contents and delivers exactly the parsed replies to the batch |
| `MailboxBatch.Mailbox.TakeOff` | src/ccm_mbox.c:333-356 | The prefix leaves the queue in order, each message once, and one without a reply fails with -ENOENT |
| `MailboxBatch.Mailbox.CopyOut` | src/ccm_mbox.c:218-356 | Replies are delivered and the batch completes in FIFO order |
| `MailboxBatch.DeliverIndependent` | src/ccm_mbox.c:248-331 | With distinct tags the order of the replies does not matter: a message sees only the replies that carry its tag |
| `MailboxBatch.OwnReplyDelivered` | src/ccm_mbox.c:248-331 | A message with exactly one, good, reply completes without error and holds that reply |
| `MailboxBatch.ResultExactly` | src/ccm_mbox.c:248-356 | The result of a message by the bytes of the replies with its tag: -ENOENT if it accepts none, -EIO if it accepts some and not others, 0 if it accepts all; accepting means tag, type with the reply bit, expected length and reserved length |
| `MailboxBatch.SuccessMeansGoodReply` | src/ccm_mbox.c:248-356 | For any memory contents, success implies a parsed reply with the tag, the reply type, the expected length and a length that fits |
| `CcmTags.TagAllocator.AllocTag` | src/ccm.c:23-36 | Allocation as specified, in place |
| `CcmTags.TagAllocator.FreeTag` | src/ccm.c:38-45 | Freeing clears the tag and advances the window to the first tag in use, in a loop |
| `CcmTags.StepKeeps` | src/ccm.c:12-204 | Starting, answering, polling and dropping keep the window invariant |
| `CcmTags.TagWindow` | src/ccm.c:12-45 | In every run all tags in use lie in the cyclic window from last to next, which is at most U16_MAX/4 + 1 long and starts at a tag in use; tags and requests in flight correspond one to one |
| `CcmTags.NoDoubleUse` | src/ccm.c:23-45 | A tag handed out was free, so the allocation WARN never fires, and a tag freed was in use |
| `CcmTags.FreedOnce` | src/ccm.c:38-173 | Every tag is freed exactly once per request, and never while the request is in flight |
| `CcmTags.TagPeriod` | src/ccm.c:12-36 | A tag value recurs only after exactly 65535 other allocations |
| `CcmTags.AllocExactly` | src/ccm.c:12-36 | In every run a request gets a tag iff all requests in flight are among the last 16383, and it is the request's number modulo 2^16 |
| `CcmTags.PollExactly` | src/ccm.c:47-62 | A request takes the first reply with its tag out of the queue and is over; without one nothing changes |
| `CcmTags.DeliveryOff` | src/ccm.c:47-62 | A request is only given a reply to itself or to a request 65536 or more numbers away |
| `CcmTags.TimelyFirmware` | src/ccm.c:175-217 | If the firmware answers once and in time, every request gets its own reply and the reply queue is empty when nothing is in flight |
| `CcmTags.TimelyDelivery` | src/ccm.c:47-217 | With such a firmware a request that looks for its reply finds it, and its own, iff it was answered; looking a last time ends it in any case |
| `CcmTags.DuplicateReplyStays` | src/ccm.c:175-204 | Without that, a second answer stays queued after its request is over |
| `BpfCache.BpfMap.CacheGet` | src/bpf/cmsg.c:199-261 | cache_get() as specified, in place, with its search loop |
| `BpfCache.BpfMap.CachePut` | src/bpf/cmsg.c:263-291 | cache_put() as specified, in place |
| `BpfCache.StepKeeps` | src/bpf/cmsg.c:181-383 | Calls interleaved in any way keep the invariant, and the blocker count never underflows |
| `BpfCache.NoWriterSinceFill` | src/bpf/cmsg.c:199-291 | While the cache holds entries no update or delete has been in flight since the request that filled it started |
| `BpfCache.HitAgreesWithFirmware` | src/bpf/cmsg.c:199-261 | A LOOKUP or GETNEXT hit returns what the firmware map would return at that moment |
| `BpfCache.HitExactly` | src/bpf/cmsg.c:199-261 | In every run a request hits iff it is a LOOKUP or GETNEXT, the cache was filled at most 250 microseconds ago and not dropped, and holds the key, and for GETNEXT an entry behind it |
| `BpfCache.GetEffect` | src/bpf/cmsg.c:199-261 | What a request does to the cache, and how many entries one that misses asks for |
| `BpfCache.FillThenHit` | src/bpf/cmsg.c:263-383 | A fill that no writer overlapped makes lookups of its entries hit for 250 microseconds; a reply with an error is kept iff it holds entries of a batch |
| `BpfCache.WriterBlocksHits` | src/bpf/cmsg.c:181-261 | The blocker count is the number of writers in flight, and any of them makes a hit and a batched fill impossible |
| `BpfCache.InstallExactly` | src/bpf/cmsg.c:263-291 | A filler replaces the cache iff no writer is in flight and none finished meanwhile, modulo the wrap of the generation counter |
| `AbmGraph.UsersAfter` | src/abm/qdisc.c:105-116 | Storing into a child slot moves exactly one use from the old occupant to the new one |
| `AbmGraph.UnlinkFromKeeps` | src/abm/qdisc.c:105-116 | Unlinking all children keeps every use count equal to the number of its users |
| `AbmGraph.ForgetCounted` | src/abm/qdisc.c:284-336 | Clearing the MQ slots of a qdisc and forgetting it keeps all other counts right |
| `AbmEvents.RefreshedInv` | src/abm/qdisc.c:190-282 | A refresh of the offload leaves every offloaded RED or GRED with one use, at a queue of the root MQ |
| `AbmEvents.CreateMqKeeps` | src/abm/qdisc.c:756-773 | Creating or replacing an MQ keeps the invariant |
| `AbmEvents.ReplaceRedKeeps` | src/abm/qdisc.c:697-733 | Replacing a RED, with or without a child reset, keeps the invariant even when the offload is not refreshed |
| `AbmEvents.ReplaceGredKeeps` | src/abm/qdisc.c:575-601 | Replacing a GRED keeps the invariant |
| `AbmEvents.GraftedKeeps` | src/abm/qdisc.c:429-456 | Grafting keeps the invariant, for tracked and untracked children |
| `AbmEvents.RootSetKeeps` | src/abm/qdisc.c:836-850 | Moving the root keeps the invariant |
| `AbmEvents.DestroyedKeeps` | src/abm/qdisc.c:403-427 | Destroying a qdisc keeps the invariant, also when the offload is not refreshed |
| `AbmEvents.DestroyClosedExactly` | src/abm/qdisc.c:284-336 | A destroyed qdisc leaves no slot behind that points to it iff no RED refers to it, and nothing does when the early return for a device that goes away applies |
| `AbmEvents.ForbiddenDestroyReached` | src/abm/qdisc.c:403-428 | A reachable hierarchy in which destroying a qdisc would leave a slot behind that points to it |
| `AbmEvents.UseCountsExact` | src/abm/qdisc.c:105-456 | In every run a use count is the number of slots that point to the qdisc, plus one for the root |
| `AbmEvents.OffloadedAtOneQueue` | src/abm/qdisc.c:190-282 | In every run an offloaded RED or GRED sits at exactly one queue, and it is the root MQ's |
| `AbmEvents.NoUseLeftOver` | src/abm/qdisc.c:284-318 | In every run, when a qdisc is forgotten its count is the number of MQ slots that still point to it, so the WARN in clear_mq() never fires |
| `AbmCompile.LevelsOn` | src/abm/qdisc.c:190-243 | Compiling one more queue is programming its ring if the queue is eligible, and nothing otherwise |
| `AbmOffload.Abm.SetLevel` | src/abm/ctrl.c:75-96 | The write-through cache of levels agrees with the device, also when a write fails, and the subqueue is no longer undefined |
| `AbmOffload.Abm.SetAction` | src/abm/ctrl.c:108-129 | The write-through cache of actions agrees with the device |
| `AbmOffload.Abm.ProgramRing` | src/abm/qdisc.c:215-223 | All bands of one ring get level and action of the qdisc, and nothing else changes |
| `AbmOffload.Abm.ResetUndefined` | src/abm/qdisc.c:276-279 | Every subqueue left undefined gets an infinite level, and nothing is undefined any more |
| `AbmOffload.AbmLink.CompileRed` | src/abm/qdisc.c:190-224 | A queue is programmed iff its qdisc is eligible and its statistics can be initialised |
| `AbmOffload.AbmLink.CompileMq` | src/abm/qdisc.c:226-243 | The queues of the root MQ are compiled in order; any other root compiles nothing |
| `AbmOffload.AbmLink.OffloadUpdate` | src/abm/qdisc.c:245-282 | Every subqueue of the link has the level of its eligible qdisc or infinity, other links keep theirs, nothing is undefined, the caches agree with the device, and exactly the marked qdiscs are offloaded, with failing accesses spelled out |
| `AbmOffload.ProgrammedAt` | src/abm/ctrl.c:98-106 | The same, by band and ring: the index computation keeps bands and links apart |
| `AbmOffload.AbmLink.UnlinkChildren` | src/abm/qdisc.c:105-116 | The loop over the children, in place |
| `AbmOffload.AbmLink.ClearMqSlots` | src/abm/qdisc.c:284-318 | Clears exactly the MQ slots that point to the qdisc, and warns iff they do not account for its use count |
| `AbmOffload.ClearChildren` | src/abm/qdisc.c:309-313 | Clears and counts the slots of one MQ that hold the qdisc |
| `AbmOffload.AbmLink.DoDestroy` | src/abm/qdisc.c:403-427 | Destroy in place; never warns about a use count; the offload is refreshed iff the root went |
| `AbmOffload.AbmLink.DoGraft` | src/abm/qdisc.c:429-456 | Graft in place, with its error case, and what the firmware has afterwards |
| `AbmOffload.AbmLink.DoSetRoot` | src/abm/qdisc.c:836-850 | Moving the root in place, and what the firmware has afterwards |
| `AbmOffload.AbmLink.DoMqCreate` | src/abm/qdisc.c:756-773 | MQ creation in place, with its errors |
| `AbmOffload.AbmLink.DoRedReplace` | src/abm/qdisc.c:697-733 | RED replacement in place, with its errors |
| `AbmOffload.AbmLink.DoGredReplace` | src/abm/qdisc.c:575-601 | GRED replacement in place, with its errors |
| `AbmOffload.AbmLink.DoPrioChange` | src/abm/cls.c:119-152 | Starting or stopping to use priorities refreshes the offload |
| `AbmOffload.CheckGred` | src/abm/qdisc.c:515-573 | GRED parameters are accepted iff every condition of the check holds for every band |
| `AbmFirmware.UpdateMatches` | src/abm/qdisc.c:245-283 | An update without faults programs what the link asks for after it |
| `AbmFirmware.StepMatchesExactly` | src/abm/qdisc.c:403-849 | The levels match the hierarchy after a notification that updates the offload; after any other, if they matched before, they match iff it leaves no level stale |
| `AbmFirmware.RunMatches` | src/abm/qdisc.c:403-849 | Over all runs without faults the levels match if every notification that left a level stale was followed by an update |
| `AbmFirmware.StartMatches` | src/abm/main.c:427-440 | The levels the driver starts with match the empty hierarchy |
| `AbmFirmware.DestroyMatchesExactly` | src/abm/qdisc.c:403-428 | After the destruction of any qdisc that is not the root the levels still match iff it had no real threshold of its own and no qdisc at a queue of the root, eligible but for its uses by the destroyed one, has one |
| `AbmFirmware.DropMatchesExactly` | src/abm/qdisc.c:105-116 | Whenever a qdisc gives up its children, and possibly itself, the levels match afterwards iff none of them is stale |
| `AbmFirmware.DestroyLeavesThreshold` | src/abm/qdisc.c:403-428 | A reachable hierarchy for which they stop matching |
| `AbmFirmware.RedMatchesExactly` | src/abm/qdisc.c:697-733 | After replacing a RED without an update of the offload the levels still match iff it was not given a limit, or its child is not held back at a queue of the root by this RED alone, or has no real threshold |
| `AbmFirmware.DropExposesThreshold` | src/abm/qdisc.c:403-733 | A reachable hierarchy, with a RED at the root that an unused RED has as its child too, for which giving the unused one a limit, or destroying it, makes the levels stop matching |
| `AbmParams.AcceptedExactly` | src/abm/qdisc.c:515-695 | RED and GRED parameters are accepted iff the firmware can do what they ask for: one threshold of 31 bits, the action that goes with it, and for GRED its own bands and default |
| `AbmParams.FoundExactly` | src/abm/qdisc.c:337-400 | Configuring a qdisc adds an unused and unconfigured one, finds one of its kind, or fails with -EINVAL or -ENOMEM |
| `AbmParams.RedStored` | src/abm/qdisc.c:697-733 | A RED that is configured holds its threshold and ECN setting, and counts as configured iff they are accepted |
| `AbmParams.GredStored` | src/abm/qdisc.c:575-601 | The same for a GRED, band by band |
| `AbmParams.StepConfig` | src/abm/qdisc.c:403-850 | Nothing but configuring or destroying it changes the parameters of a qdisc |
| `AbmParams.RunConfig` | src/abm/qdisc.c:403-850 | The same over all runs |
| `AbmParams.ActionExactly` | src/abm/qdisc.c:215-223 | After an update a subqueue of an eligible qdisc marks iff its band asks for ECN and drops otherwise; all other subqueues, and those whose write fails, keep their action |
| `AbmParams.ReachedExactly` | src/abm/qdisc.c:190-282 | Level and action of a subqueue that an update reaches are those of its band |
| `AbmParams.RedReachesFirmware` | src/abm/qdisc.c:190-733 | Over all runs, when an update reaches the queue of a RED, threshold and action are those it was last configured with, and were accepted |
| `AbmParams.GredReachesFirmware` | src/abm/qdisc.c:190-601 | The same for every band of a GRED |
| `AbmParams.UpdateOffloadsExactly` | src/abm/qdisc.c:190-282 | An update offloads the root MQ and exactly those qdiscs at its queues that are configured, used once, and for a RED without child and priorities, if their statistics can be initialised |
| `AbmParams.OffloadedQualifies` | src/abm/qdisc.c:190-850 | In every run an offloaded RED or GRED meets those conditions, also between updates |
| `AbmParams.DestroyedSlots` | src/abm/qdisc.c:284-336 | Slots of other qdiscs that pointed to a destroyed one are empty afterwards, and all others are as before |
| `AbmStats.InitSettledExactly` | src/abm/qdisc.c:137-170 | For one band, the reported backlog survives a start iff the start succeeds or fails before it read a different backlog |
| `AbmStats.StartKeepsExactly` | src/abm/qdisc.c:137-188 | The same for a whole qdisc, whose first failing band ends the start |
| `AbmStats.StepKeeps` | src/abm/qdisc.c:44-188 | Starts, refreshes, stops and statistics calls keep the reported backlog settled |
| `AbmStats.BacklogConserved` | src/abm/qdisc.c:458-513 | After any run all the backlog deltas tc has been told sum up to the backlog last reported |
| `AbmStats.BacklogReturned` | src/abm/qdisc.c:118-135 | After a stop the next statistics call returns the reported backlog to exactly zero |
| `AbmStats.LateFailureLosesBacklog` | src/abm/qdisc.c:137-170 | After a start that fails once it read the backlog, tc and the driver disagree in every later state, until another start that is not harmless |
| `AbmStats.GapStays` | src/abm/qdisc.c:137-170 | No step but a start that is not harmless changes how far apart tc and the driver are about the backlog, so nothing else repairs it |
| `AbmStats.ToldSince` | src/abm/qdisc.c:458-513 | Between starts, for every counter, nothing is reported twice and nothing is lost |
| `AbmStats.AskExactly` | src/abm/qdisc.c:458-513 | A statistics call tells tc what each counter of the bands it asks about moved since it was last reported, and leaves other bands alone |
| `AbmStats.TrafficSinceStart` | src/abm/qdisc.c:137-513 | After a successful start, whatever refreshes and statistics calls follow, tc has been told exactly what the device counted since |
| `AbmStats.RedQdisc.StatsInit` | src/abm/qdisc.c:137-188 | Statistics initialisation in place, up to the first failing band |
| `AbmStats.RedQdisc.StatsUpdate` | src/abm/qdisc.c:44-68 | Reading the counters of all bands in place |
| `AbmStats.RedQdisc.OffloadStop` | src/abm/qdisc.c:118-135 | Zeroing the backlog of all bands in place |
| `AbmStats.RedQdisc.GetStats` | src/abm/qdisc.c:481-513 | Reporting the deltas of the bands asked about in place |
| `AbmStats.MqStats` | src/abm/qdisc.c:775-814 | The MQ reports the sum of what its children have not reported yet |
| `AbmStats.MqReportsTheRest` | src/abm/qdisc.c:775-814 | Counter by counter that is the sum over the children |
| `AbmStats.MqShowsCurrentBacklog` | src/abm/qdisc.c:775-814 | Added to what tc was told about the children this shows exactly the current backlog |
| `DscpClassifier.PrioOfIndex` | src/abm/cls.c:119-152 | Table index and TOS byte correspond: the index of a byte is its upper bits, and scaling back gives the byte the table stands for |
| `DscpClassifier.ClassifyTruncated` | src/abm/cls.c:107-117 | A byte is classified like the byte the table holds for it |
| `DscpClassifier.OverlapExact` | src/abm/cls.c:169-225 | Two filters overlap by the check iff some byte matches both |
| `DscpClassifier.AnyMatchDecides` | src/abm/cls.c:107-117 | Without conflicts any matching filter gives the band, not only the first |
| `DscpClassifier.OrderIrrelevant` | src/abm/cls.c:107-117 | Without conflicts classification does not depend on the order of the list |
| `DscpClassifier.FieldsApart` | src/abm/cls.c:119-152 | Fields of different priorities never share a bit |
| `DscpClassifier.WordInMap` | src/abm/ctrl.c:315-324 | Every field lies inside the map whose length is computed |
| `DscpClassifier.LayoutExactly` | src/abm/cls.c:119-152 | Fields follow each other without gaps in as few words as hold them, and a field is the smallest power of two of bits that holds a band |
| `DscpClassifier.BandFits` | src/abm/ctrl.c:391-402 | A band always fits its field |
| `DscpClassifier.InstalledOk` | src/abm/cls.c:169-225 | Installing an accepted filter keeps the list free of conflicts |
| `DscpClassifier.RemovedOk` | src/abm/cls.c:154-167 | Deleting a filter keeps the list free of conflicts |
| `DscpClassifier.InstalledMember` | src/abm/cls.c:186-214 | After installing, the filters are the new one and those with other handles |
| `DscpClassifier.RemovedMember` | src/abm/cls.c:154-167 | After deleting, the filters are those with other handles |
| `DscpClassifier.ClassifyExactly` | src/abm/cls.c:107-117 | The band of a byte is that of any filter that matches it, and the default if none does |
| `DscpClassifier.InstalledClassifies` | src/abm/cls.c:169-225 | An installed filter decides about every byte it matches; all others are classified as if no filter had its handle |
| `DscpClassifier.ConflictsExactly` | src/abm/cls.c:186-203 | A filter conflicts iff some byte matches it and a filter with another handle, and they disagree |
| `DscpClassifier.AcceptedExactly` | src/abm/cls.c:20-101 | A knode is accepted iff it is plain, its class is a band, its key can match, and looks only at bits of the TOS field that the table keeps |
| `DscpClassifier.KeyDecidesV4` | src/abm/cls.c:169-225 | A header word that an accepted key without bits below the TOS field matches goes to the class of the knode |
| `DscpClassifier.KeyDecidesV6` | src/abm/cls.c:169-225 | The same for IPv6 |
| `DscpClassifier.CheckedFilterOk` | src/abm/cls.c:20-101 | A filter that passes the check has a value inside its mask, a mask inside the DSCP mask and a band in range |
| `DscpClassifier.KeyExactV4` | src/abm/cls.c:20-101 | For IPv4 the table decides like the u32 key iff the key has no bits below the TOS field |
| `DscpClassifier.KeyExactV6` | src/abm/cls.c:20-101 | For IPv6 likewise for the traffic class |
| `DscpClassifier.AbmLink.FindBandForPrio` | src/abm/cls.c:107-117 | The walk over the list finds the band of the first match or the default |
| `DscpClassifier.AbmLink.UpdateBandMap` | src/abm/cls.c:119-152 | Every field of the packed table holds the band of its priority, and the firmware has the table of these filters iff it took the update, and keeps the one it had otherwise |
| `DscpClassifier.AbmLink.KnodeDelete` | src/abm/cls.c:154-167 | Deletes the filter with the handle, if any, and keeps table and list in step, whether the firmware takes the table or not |
| `DscpClassifier.AbmLink.Scan` | src/abm/cls.c:186-203 | Looks for the same filter and for a conflict in one walk |
| `DscpClassifier.AbmLink.KnodeReplace` | src/abm/cls.c:169-225 | Replaces or installs a filter, after which every byte its key matches goes to the class of the knode and every other one where it went without it; a rejected one takes the filter with its handle, if there is one, out of the list; table and list stay in step, the error of each case is returned, and which filters the firmware's table is made from |
| `DscpClassifier.TableMatchesWalk` | src/abm/cls.c:119-152 | For every TOS byte the table entry equals walking the list, whenever the table is in step with the list |
| `DscpClassifier.FirmwareAgreesExactly` | src/abm/ctrl.c:262-286 | The firmware's table and the driver's hold the same band for every priority iff the filters they were made from give every priority the same band |
| `DscpClassifier.DeleteInSyncExactly` | src/abm/cls.c:154-167 | After a delete the firmware is still in step iff it took the update or the deleted filter made no difference |
| `DscpClassifier.RefusedInSyncExactly` | src/abm/cls.c:216-224 | After a filter the firmware refused was deleted again it is still in step iff it took the second update or a filter that had the handle before made no difference; with none before it always is |
| `Reconfig.NfpNet.ReconfigStartAsync` | src/nfp_net_common.c:111-120 | Starting the posted commands in place |
| `Reconfig.NfpNet.ReconfigTimer` | src/nfp_net_common.c:179-210 | The timer handler in place |
| `Reconfig.NfpNet.ReconfigPost` | src/nfp_net_common.c:212-230 | Posting in place |
| `Reconfig.NfpNet.SyncEnter` | src/nfp_net_common.c:232-261 | Entering a synchronous command in place |
| `Reconfig.NfpNet.Leave` | src/nfp_net_common.c:263-302 | Leaving a synchronous command in place |
| `Reconfig.StepKeeps` | src/nfp_net_common.c:101-302 | Every step keeps the invariant |
| `Reconfig.PostedBitsConserved` | src/nfp_net_common.c:101-302 | In every run every bit ever posted is still posted, held by a synchronous caller about to write it, or written since |
| `Reconfig.WritesExplained` | src/nfp_net_common.c:101-302 | In every run every write of the register has exactly the bits it is for: all that was posted and not taken, what was posted when a synchronous call came, or the command of that call |
| `Reconfig.CallWritesExactly` | src/nfp_net_common.c:232-302 | In every run a synchronous call that is about to return has written what was posted before it, if anything, and then its command, once each |
| `Reconfig.CommandInRegister` | src/nfp_net_common.c:284-302 | What a synchronous caller came to run is in the register when it starts to wait |
| `Reconfig.StartsExactly` | src/nfp_net_common.c:179-302 | In every run a post is started at once iff no synchronous caller is present and no command is running; when the timer, a synchronous call and its end start commands |
| `Reconfig.NoOverlap` | src/nfp_net_common.c:101-302 | No command is started while another is neither acknowledged, errored nor timed out |
| `Reconfig.StrandedExactly` | src/nfp_net_common.c:263-281 | Posted bits lose everyone who would write them in exactly one way: at the exit of wait_posted() after a post during it |
| `Reconfig.StrandedRecovers` | src/nfp_net_common.c:212-261 | The next post or synchronous command picks them up |
| `Reconfig.StrandingRun` | src/nfp_net_common.c:263-281 | A run in which it happens |
| `RingReconfig.NfpNet.Reconfig` | src/nfp_net_common.c:1749-1824 | Whichever step fails, the data path is the new one iff the result is 0 and the old one otherwise, exactly its vectors stay requested on a running device, and the losing ring set is the one freed |
| `RingReconfig.CompletedExactly` | src/nfp_net_common.c:1749-1772 | Every TX ring belongs to the stack or, with XDP, to an RX ring, and there are exactly as many vectors as the larger of RX rings and stack TX rings |
| `RingReconfig.OutcomeExactly` | src/nfp_net_common.c:1749-1824 | The result is the error of the first step that fails, never that of going back |
| `RingReconfig.NfpNet.PrepareVectors` | src/nfp_net_common.c:1773-1779 | Additional vectors are requested once each, up to the first failure |
| `RingReconfig.NfpNet.CleanupVectors` | src/nfp_net_common.c:1805-1820 | Exactly the vectors beyond the configured ones are given up, once each |
| `RingReconfig.RingSet.Prepare` | src/nfp_net_dp.c:356-385 | Ring preparation completes all rings or unwinds to nothing, freeing only what was allocated |
| `RingReconfig.RingSet.Free` | src/nfp_net_dp.c:387-397 | Freeing releases every ring and its buffers once |
| `RxRing.GatheredKeeps` | src/nfp_net_dp.c:95-120 | A reset moves the last buffer into the hole and keeps every other buffer |
| `RxRing.ResetGathers` | src/nfp_net_dp.c:95-120 | After a reset the same buffers fill all slots but the last, the pointers are zero, and a second reset changes nothing |
| `RxRing.StepKeeps` | src/nfp_net_dp.c:95-181 | Filling, feeding, receiving, recycling, resetting and freeing keep every buffer accounted for |
| `RxRing.EveryBufferReleasedOnce` | src/nfp_net_dp.c:122-153 | After any run that ends with reset and free every buffer was handed on or freed exactly as often as it was allocated |
| `RxRing.Buffers.ResetRing` | src/nfp_net_dp.c:95-120 | The reset in place |
| `RxRing.Buffers.BufsFree` | src/nfp_net_dp.c:131-153 | Frees every buffer before the last slot, in place |
| `RxRing.Buffers.BufsAlloc` | src/nfp_net_dp.c:160-181 | Fills the ring, or on the first failure frees what it allocated |
| `RxRing.Buffers.FillFreelist` | src/nfd3/dp.c:657-668 | Gives the buffers of a filled ring to the firmware without moving any |
| `DebugDump.Be32Inverse` | src/nfp_net_debugdump.c:363-380 | Big-endian numbers read back |
| `DebugDump.SizeAligned` | src/nfp_net_debugdump.c:218-330 | Every TLV of a dump takes whole blocks of 8 bytes, also when its size is truncated |
| `DebugDump.AddLevelSize` | src/nfp_net_debugdump.c:285-344 | The sizing traversal of one level adds up the sizes of the TLVs visited, modulo 2^32, and fails iff a TLV is malformed |
| `DebugDump.CountedTotal` | src/nfp_net_debugdump.c:285-361 | The 32-bit counter of the sizing pass holds the total size, truncated |
| `DebugDump.CalculateSize` | src/nfp_net_debugdump.c:332-361 | The truncated size of the whole dump, or failure |
| `DebugDumpFill.Dump.AddTlv` | src/nfp_net_debugdump.c:363-380 | Adds a TLV header iff the TLV fits the rest of the buffer |
| `DebugDumpFill.Dump.DumpErrorTlv` | src/nfp_net_debugdump.c:382-401 | Computes the size of an error TLV, announces it and copies reason and specification, in place |
| `DebugDumpFill.Dump.DumpFwname` | src/nfp_net_debugdump.c:403-421 | The firmware name in place |
| `DebugDumpFill.Dump.DumpHwinfo` | src/nfp_net_debugdump.c:423-443 | The hwinfo strings in place |
| `DebugDumpFill.Dump.DumpHwinfoField` | src/nfp_net_debugdump.c:445-474 | The key and lookup tests of a hwinfo field, its own size, and its two strings, in place |
| `DebugDumpFill.Dump.DumpRegisters` | src/nfp_net_debugdump.c:526-541 | The register loop with its 32-bit cursor, up to the first register that cannot be read, in place; whether it never ends |
| `DebugDumpFill.Dump.DumpCsrRange` | src/nfp_net_debugdump.c:482-544 | The test, size and copies of a CSR range in place, for any address and length |
| `DebugDumpFill.Dump.ReadIndirectCsr` | src/nfp_net_debugdump.c:549-576 | Selects a context, reads the pointer back and then the register, storing both at the same place |
| `DebugDumpFill.Dump.ReadAllContexts` | src/nfp_net_debugdump.c:578-594 | All contexts of one indirect register, up to the first error |
| `DebugDumpFill.Dump.DumpIndirectRegisters` | src/nfp_net_debugdump.c:637-649 | The loop over indirect registers with its 32-bit cursor in place; whether it never ends |
| `DebugDumpFill.Dump.DumpIndirectCsrRange` | src/nfp_net_debugdump.c:596-652 | The test, size and copies of an indirect CSR range in place, for any address and length |
| `DebugDumpFill.Dump.DumpSingleRtsym` | src/nfp_net_debugdump.c:654-729 | The key and lookup tests of a symbol, its size truncated to 32 bits, header and data, in place |
| `DebugDumpFill.Dump.DumpForTlv` | src/nfp_net_debugdump.c:731-782 | The filling pass dispatches every TLV to its filler |
| `DebugDumpFill.Dump.DumpLevel` | src/nfp_net_debugdump.c:784-796 | The filling traversal of one level, up to the first error |
| `DebugDumpFill.Dump.PopulateBuffer` | src/nfp_net_debugdump.c:798-841 | The filling pass over the whole specification, for every specification and every buffer |
| `DebugDumpTheorems.PassesAgree` | src/nfp_net_debugdump.c:218-782 | For every TLV the filler announces the size the sizing pass added, and both passes refuse the same TLVs |
| `DebugDumpTheorems.DumpExact` | src/nfp_net_debugdump.c:346-841 | For every specification filling succeeds iff sizing succeeds, the buffer is large enough and no range runs on forever, and is then exactly as long as the TLVs together; it never ends iff a TLV that fits runs on |
| `DebugDumpTheorems.CalculatedSizeSuffices` | src/nfp_net_debugdump.c:346-841 | A buffer of the calculated size suffices iff that size was not truncated and no range runs on forever; it is then filled exactly |
| `DebugDumpTheorems.OthersInside` | src/nfp_net_debugdump.c:382-729 | Every filler but the one for indirect registers stays inside the TLV it announced, unless the cursor of a register range wraps |
| `DebugDumpTheorems.RangeHangsExactly` | src/nfp_net_debugdump.c:526-541 | A register loop never ends iff its cursor wraps before it reaches the end and all registers a whole number of registers away can be read; it then writes more than the address space holds |
| `DebugDumpTheorems.HangsExactly` | src/nfp_net_debugdump.c:482-652 | A filler never ends iff it dumps registers, direct or indirect, and its loop is of that kind |
| `DebugDumpTheorems.NeverEndsExactly` | src/nfp_net_debugdump.c:798-841 | Filling a buffer of the calculated size never ends iff some visited TLV is of that kind, and every such dump leaves its buffer |
| `DebugDumpTheorems.LastRegisterNeverEnds` | src/nfp_net_debugdump.c:526-541 | Four bytes of the 64-bit registers at 0xFFFFFFF8 of a readable device: a dump that never ends and leaves its buffer |
| `DebugDumpTheorems.InsideExactly` | src/nfp_net_debugdump.c:482-652 | A register range that can be read stays inside its TLV iff its cursor does not wrap and, for indirect registers, it asks for whole ones |
| `DebugDumpTheorems.CoveredStays` | src/nfp_net_debugdump.c:482-841 | Whatever the device answers, filling ends and no write leaves the buffer if no cursor wraps and what sticks out of each indirect range is covered by the TLVs behind it |
| `DebugDumpTheorems.DumpStaysExactly` | src/nfp_net_debugdump.c:482-841 | If the ranges that stick out or wrap can be read, no write leaves the buffer iff none wraps and all are covered |
| `DebugDumpTheorems.WholeRegistersCovered` | src/nfp_net_debugdump.c:482-652 | Specifications that ask for whole registers are covered, and no cursor of theirs wraps |
| `DebugDumpTheorems.TwoBytesOverrun` | src/nfp_net_debugdump.c:596-652 | A specification and a device for which a successful dump writes past its buffer |
| `DebugDumpReadBack.PieceLands` | src/nfp_net_debugdump.c:382-729 | What a filler copies and does not overwrite is found in the buffer |
| `DebugDumpReadBack.FillHolds` | src/nfp_net_debugdump.c:363-729 | What is filled in stays, whatever earlier TLVs copied beyond their end |
| `DebugDumpReadBack.HeldWalks` | src/nfp_net_debugdump.c:149-181 | A traversal of TLVs one behind the other visits exactly those |
| `DebugDumpReadBack.DumpWalksBack` | src/nfp_net_debugdump.c:798-841 | For every specification, aligned or not, a finished dump walks back as the prolog and one TLV per visited TLV, in order, with its type, size and content |
| `DebugDumpSpec.WalkEncoded` | src/nfp_net_debugdump.c:149-181 | Traversing TLVs written one behind the other visits exactly those |
| `DebugDumpSpec.WalkDecodes` | src/nfp_net_debugdump.c:149-181 | For any bytes a traversal visits TLVs written one behind the other, and succeeds iff they end at the end mark or with too little left for a TLV, and not in a malformed one |
| `DebugDumpSpec.VisitsExactly` | src/nfp_net_debugdump.c:332-361 | For every specification the traversals succeed iff it and its TLVs of the level are well formed, and visit exactly the TLVs inside those of the level, in order |
| `DebugDumpSpec.SpecVisits` | src/nfp_net_debugdump.c:332-841 | Both passes over a specification visit what its levels of the number ask for, and nothing else |
| `DebugDumpSpec.SpecDumpSucceeds` | src/nfp_net_debugdump.c:346-841 | Whether a dump of a level succeeds depends on what that level asks for alone: its size is not truncated and no register range runs on |
| `DebugDumpSpec.SpecDumpWalksBack` | src/nfp_net_debugdump.c:798-841 | A finished dump of a level walks back as the prolog and one TLV for each one the level asks for, in order |
| `DebugDumpContents.PrologHoldsLevel` | src/nfp_net_debugdump.c:798-813 | The prolog holds the level asked for |
| `DebugDumpContents.SizeExactly` | src/nfp_net_debugdump.c:218-330 | Every TLV of a dump takes the fewest blocks of 8 bytes that hold what it has to |
| `DebugDumpContents.FwnameHoldsName` | src/nfp_net_debugdump.c:403-421 | The firmware name is dumped whole, with room for a zero |
| `DebugDumpContents.HwinfoHoldsAll` | src/nfp_net_debugdump.c:423-443 | The hwinfo strings are dumped whole |
| `DebugDumpContents.ErrorEmbedsSpec` | src/nfp_net_debugdump.c:382-401 | A refused TLV is found, byte for byte and readable, in the error TLV that stands for it, behind the reason |
| `DebugDumpContents.FieldHoldsKeyAndValue` | src/nfp_net_debugdump.c:445-474 | A hwinfo field is dumped as two strings, the name asked for and its value |
| `DebugDumpContents.SymbolHoldsData` | src/nfp_net_debugdump.c:654-729 | Name, size and data of a readable symbol are found where its header says |
| `DebugDumpContents.SymbolHoldsPlace` | src/nfp_net_debugdump.c:710-717 | Target, action, token, island and the lower half of the address of a symbol that is not absolute are in its header |
| `DebugDumpContents.SymbolNotesError` | src/nfp_net_debugdump.c:719-724 | A symbol that cannot be read whole has the reason in its header |
| `DebugDumpContents.CsrHoldsRegister` | src/nfp_net_debugdump.c:482-544 | Register k of a range, as far as it can be read, is found at its place if those before it can be read |
| `DebugDumpContents.ReadRegExactly` | src/nfp_net_debugdump.c:526-541 | A register is read with the width asked for, or 32 bits for XPB; a failed or short read is -EIO, and for XPB its own error |
| `DebugDumpContents.CsrHoldsValue` | src/nfp_net_debugdump.c:482-544 | Register k of a range, if it and those before it can be read, is found at its place with what the device gave |
| `DebugDumpContents.CsrNotesError` | src/nfp_net_debugdump.c:526-541 | The error and the address of the first register that cannot be read are in the header of the range |
| `DebugDumpContents.IndirectHoldsRegister` | src/nfp_net_debugdump.c:549-652 | Context c of register k of an indirect range likewise |
| `DebugDumpContents.ReadContextExactly` | src/nfp_net_debugdump.c:549-576 | The error of reading a context is that of the first access that fails |
| `DebugDumpContents.IndirectNotesError` | src/nfp_net_debugdump.c:578-652 | That error and the address of the register are in the header of the range |
| `UstoreEcc.CalcEccInsn` | src/nfp_asm.c:311-320 | The loop computes the encoding |
| `UstoreEcc.ParityLinear` | src/nfp_asm.c:298-301 | Parity is linear |
| `UstoreEcc.EncodeLinear` | src/nfp_asm.c:311-320 | Encoding is linear |
| `UstoreEcc.ColumnsDistinct` | src/nfp_asm.c:288-296 | Instruction bits have pairwise distinct sets of polynomials |
| `UstoreEcc.ColumnWeight` | src/nfp_asm.c:288-296 | Every instruction bit is in three or five polynomials |
| `UstoreEcc.CodewordWeight` | src/nfp_asm.c:311-320 | A non-zero codeword has at least four one bits |
| `UstoreEcc.MinimumDistance` | src/nfp_asm.c:285-320 | Two different instructions encode to words at least four bits apart |
| `UstoreEcc.SingleErrorCorrectable` | src/nfp_asm.c:285-320 | A word with one flipped bit belongs to only one instruction |
| `UstoreEcc.DoubleErrorDetectable` | src/nfp_asm.c:285-320 | A word with two flipped bits is never within one bit of a codeword |
| `UstoreEcc.ValidityCheckTooWide` | src/nfp_asm.c:303-309 | A word accepted by the validity check encodes to a consistent word iff bit 45 is clear or agrees with the parity bit it collides with |
| `UstoreEcc.WideInstructionInconsistent` | src/nfp_asm.c:303-320 | The instruction with only bit 45 passes the check and fails its own parity checks when encoded |
| `UstoreEcc.CollideExactly` | src/nfp_asm.c:303-320 | Two different accepted words have the same encoding iff they differ in bit 45 alone and the first parity bit is set |
| `UstoreEcc.CollidingPair` | src/nfp_asm.c:303-320 | Two instructions that are valid, different, and encoded alike |
| `PlatBars.BarTable.FindMatch` | src/nfp_plat.c:185-199 | The first run of BARs that points where the area needs it |
| `PlatBars.BarTable.FindUnused` | src/nfp_plat.c:206-214 | The first run of unused BARs |
| `PlatBars.BarTable.BarFind` | src/nfp_plat.c:148-239 | Takes a matching run, else an unused one if allowed, with the error of each case |
| `PlatBars.BarTable.ReleaseArea` | src/nfp_plat.c:420-440 | Gives up every BAR of the area; the last user unlocks it |
| `PlatBars.StepKeeps` | src/nfp_plat.c:134-239 | Reserving, acquiring and releasing keep the invariant |
| `PlatBars.SharedStays` | src/nfp_plat.c:140-146 | A BAR shared by two areas outlives the release of one |
| `PlatBars.UsageExact` | src/nfp_plat.c:134-146 | After any run a BAR is locked iff it is used, and its usage is its reservations plus the live areas that cover it |
| `PlatBars.AreasKeepTheirCsr` | src/nfp_plat.c:221-227 | After any run the j-th BAR of a live area has the area's CSR value plus j |
| `PlatBars.FoundExactly` | src/nfp_plat.c:148-239 | A search succeeds iff a run can be shared or, if allowed, allocated, and it shares if it can |
| `PlatBars.ChosenExactly` | src/nfp_plat.c:343-418 | An area gets expansion BARs iff it can share some, or can allocate some and share no bulk BARs; otherwise bulk BARs iff it can share or allocate some |
| `PlatBars.AllBarsRefused` | src/nfp_plat.c:343-391 | An area that needs all BARs of a kind, or more, is refused by that kind; one that needs fewer is not |
| `PlatBars.PlatAcquire` | src/nfp_plat.c:343-418 | Sharing a run of either kind goes before allocating one, expansion BARs before bulk BARs, and a failure changes nothing |
| `CppAreas.RangeCheck` | src/nfp_dev_cpp.c:484-498 | Reports a collision iff some area collides |
| `CppAreas.PlaceFound` | src/nfp_dev_cpp.c:772-788 | Automatic placement always finds a place |
| `CppAreas.NoSharedByte` | src/nfp_dev_cpp.c:484-498 | Areas that pass the check share no byte |
| `CppAreas.Areas.Request` | src/nfp_dev_cpp.c:759-800 | Keeps areas disjoint, places at the first candidate that is free, and returns the error of each case |
| `CppAreas.Areas.Release` | src/nfp_dev_cpp.c:802-825 | Removes the first area at the offset unless it has attached mappings, keeps areas disjoint, and returns the error of each case |
| `CppAreas.ReleaseUndoesRequest` | src/nfp_dev_cpp.c:759-825 | Among areas that are not empty a release undoes the request that returned the offset |
| `CppWindows.EvictSparesMine` | src/nfp_dev_cpp.c:247-283 | Eviction never touches the area of the faulting mapping, frees exactly one window, and fails only if no other area holds one |
| `CppWindows.StepKeeps` | src/nfp_dev_cpp.c:194-363 | Mapping, copying a mapping, faulting, unmapping, purging, requesting, releasing and closing keep the invariant |
| `CppWindows.FaultKeeps` | src/nfp_dev_cpp.c:962-976 | A fault leaves the mapping attached iff it reports success |
| `CppWindows.FaultSucceedsExactly` | src/nfp_dev_cpp.c:962-976 | A fault succeeds iff the mapping is attached, its area has a window, one can be acquired, or one can be acquired after another area was evicted |
| `CppWindows.PurgeFrees` | src/nfp_dev_cpp.c:247-283 | Evicting for no mapping in particular frees all windows and detaches all mappings, and nothing else |
| `CppWindows.WindowIffAttached` | src/nfp_dev_cpp.c:194-245 | In every run an area holds a window iff a mapping is attached to it iff it is on the active list |
| `CppWindows.ReleaseDanglesExactly` | src/nfp_dev_cpp.c:802-825 | A release leaves a mapping of a freed area behind iff the area has mappings and none of them is attached |
| `CppWindows.DanglesExactly` | src/nfp_dev_cpp.c:340-825 | Over all runs a mapping refers to a freed area, which its next fault would reach, iff a release or a close freed the area while it was mapped, or it was copied from such a mapping |
| `CppWindows.DanglingReached` | src/nfp_dev_cpp.c:802-825 | A run in which that happens |
| `CppWindows.BugExactly` | src/nfp_dev_cpp.c:357-363 | Closing runs into its BUG_ON iff a mapping made by another opener is attached to an area requested with the file |
| `CppWindows.CloseSafeExactly` | src/nfp_dev_cpp.c:340-372 | Closing comes to an end and leaves no mapping of a freed area behind iff no mapping made by another opener refers to an area requested with the file |
| `CppWindows.OwnRunsCloseSafely` | src/nfp_dev_cpp.c:340-1084 | Over all runs in which openers only map areas they requested, every close is of that kind |
| `CppWindows.ClosedUnderMapping` | src/nfp_dev_cpp.c:357-363 | A run in which a close leaves a mapping of a freed area behind |
| `CppWindows.BugReached` | src/nfp_dev_cpp.c:357-363 | A run after which a close runs into its BUG_ON |
| `CppWindows.Device.VmaAcquire` | src/nfp_dev_cpp.c:194-215 | Attaching in place |
| `CppWindows.Device.VmaRelease` | src/nfp_dev_cpp.c:224-245 | Detaching in place; the last mapping gives the window up |
| `CppWindows.Device.DetachAll` | src/nfp_dev_cpp.c:261-275 | The loop that detaches every mapping of the victim |
| `CppWindows.Device.VmaEvict` | src/nfp_dev_cpp.c:250-283 | Evicts the first active area other than the faulting mapping's |
| `CppWindows.Device.VmaEvictAll` | src/nfp_dev_cpp.c:250-283 | Evicting for no mapping in particular: the loop that empties the active list |
| `CppWindows.Device.ReleaseArea` | src/nfp_dev_cpp.c:811-821 | Frees an area without attached mappings in place |
| `CppWindows.Device.CloseFile` | src/nfp_dev_cpp.c:357-363 | Frees every area requested with the file in place, or stops iff the BUG_ON is reached |
| `CppWindows.Device.MmapFault` | src/nfp_dev_cpp.c:962-976 | The fault path in place: attach, else evict and attach |

## Left out

- DebugDumpReadBack.DumpWalksBack: for dumps that come to an end and TLVs whose own size is below 2^32; a TLV whose size is truncated is written beyond what it announces.
- What writes beyond the end of the dump buffer overwrite: the model drops those bytes and remembers that there were some.
- The computation of CSR values and of the number of BARs an area needs in `bar_find_any()`: parameters of `PlatBars.PlatAcquire`.
- The other links that share a firmware: each update is proved to leave their subqueues alone, but the runs of `AbmEvents` are those of one link and one network device.
- AbmFirmware.RunMatches: for runs without device faults; `AbmOffload.AbmLink.OffloadUpdate` says what each fault leaves behind. After a stale level another notification without an update may happen to make the levels match again.
- A table update that the firmware reports as failed is taken to leave its table as it was, and the firmware to start with the all-zero table the driver writes when it initialises the vNIC.
- DscpClassifier.TableMatchesWalk: for 2 to 256 bands and 2 to 256 priorities, which are the numbers whose bands and priorities fit a byte; u32 filters without an action are not modelled.
- What a BPF map call that misses the cache returns: the entry the firmware gave, or its error. The result of a reconfig command: `Reconfig` says what is written and when, not whether the firmware reports an error.
- Kernel memory of messages on error paths: message states and results are modelled, not who frees which buffer.
- Memory barriers, lock internals and time: lock regions are atomic steps and timeouts are events that may happen at any time. In `Reconfig` the expiry of the timer and its handler are one step and synchronous callers are serialised, as the driver's locks have it.
- AF_XDP buffer pools in the RX ring, and the 32-bit wrap of its pointers.
- CppAreas.Areas.Request: offset + size is assumed not to wrap around at the width of the offset, where the driver does not look either.
- What a fault or an unmapping of a mapping whose area was freed does: it reads freed memory. `CppWindows` says exactly when that is possible, and such steps are not part of its runs; nor is what happens after a BUG_ON.
- Branch and immediate field editing in `src/nfp_asm.c`, the flow steering list in `src/nfp_net_ethtool.c`, TLV capabilities, interrupt distribution, SR-IOV and speed tables: they compute one value from another in a few independent branches and keep no state between calls.
- PCI probing, devlink, hwmon, firmware loading and NSP access: plumbing over code outside this repository.
