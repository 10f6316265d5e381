# MeshCadet firmware-core, modelled in Dafny

MeshCadet's `firmware-core` crate holds the hardware-free logic of a LoRa mesh device: bounded rings, queues and
tables that run for as long as the device does, calendar arithmetic, a sentence scanner, and versioned blobs that
must outlive firmware upgrades. This project models that logic and proves what it keeps over whole runs. Each bounded
structure is related to the unbounded history it stands for; each codec is proved against the writer whose blobs it
reads; each closed formula is compared with a naive definition.

Run `dafny verify dfyconfig.toml` in this directory.

## How the model is built

- Structures that the firmware updates in place are classes over arrays (`AirtimeBudget`, `DuplicateFilter`,
  `TxQueue`, `OutstandingSends`, `ProvisionedConfig`, `InboundReplayState`, `Histogram`, `PhaseStats`, `BlinkLoop`,
  `PeakWindowSampler`, `RuntimeSettings.Store`). Their contracts are stated with functions and predicates on values,
  and the run theorems are about those same functions.
- A ghost field holds the unbounded history where there is one: the ledger, the keys seen, the accepted frames, the
  samples.
- Unsigned words are subset types (`Words`); saturating, truncating and wrapping operations are written out.
- Opaque inputs are parameters: the packet dedup key, the room frame decoders and encoder, and the answers of the
  sweep's `retry_if` callback (one per slot, so the callback may answer differently each time).
- Runs are sequences of events with the clock in them; where a result needs a clock that does not run back, or sweeps
  no more than `g` ms apart, it says so.

## Where the code and its promises differ

- **Duty cycle.** The airtime budget promises at most 6 s of airtime in any 60 s. Its ring remembers 32
  transmissions. `MinimumFrameLength` proves that the promise holds on every granted run of frames of at least `n`
  bytes exactly when `n` is 44 or more, whether airtime is counted by the starts of transmissions or by the time they
  are on the air; `ShortFramesBreakDutyCycle` gives the runs that break it for every shorter airtime, and
  `RingDecisionExact` the condition under which a single decision is the unbounded ledger's. This counts recorded
  transmissions. A frame whose end the radio did not see is not recorded, so it assumes that none times out:
  `TimedOutFramesBreakDutyCycle`.
- **Percentiles.** The histogram is documented never to under-report. `PercentileNeverUnderReportsIff` proves this
  exactly for order statistics below 2^31; the top bucket reports 2^31 - 1 for anything larger
  (`TopBucketUnderReports`).
- **Rooms are contacts.** The room list has no capacity check because every room is a contact. That holds in every
  configuration reached by the operations of `config_store.rs`. `FRAME_DEL_CONTACT` (`firmware/src/admin_server.rs`,
  lines 646-656) removes a contact without looking at the rooms. `DelContactKeepsInvIff` proves that this leaves the
  invariant intact exactly when it held and no room has the pubkey. `DelContactReloadsIff`: when the length bytes are
  within their caps, the configuration saved after such a deletion is refused at the next boot exactly when there had
  been as many rooms as contacts (or more), orphans counted; otherwise it is loaded with the orphans inside
  (`OrphanLoadsBesideContact`, `SecondOrphanRefused`). Repeated use leaves more and more rooms, and the seventeenth is
  written outside the array (`SeventeenthRoomLeavesArray`). All operations are therefore modelled on any lists,
  orphaned rooms included.
- **Deleting a room.** `FRAME_DEL_ROOM` is documented to report "not found" when no room has the pubkey. The code
  reports it when no *contact* has it. `DelRoomAnswersAsDocumentedIff` proves, for any lists, that the two agree
  exactly when the pubkey is both a contact and a room or neither. `PlainContactLostToDelRoom` gives a contact that is
  removed as a room, `OrphanAnsweredNotFound` a room that is removed and reported as not found.
- **Memory and flash.** Every edit is saved, or taken back; that is what the firmware says of its lists. But a failed
  save is taken back by lowering a count, which can orphan a room without any deletion (`FailedSaveOrphansInFlash`),
  and the removal of an orphaned room is answered "not found" and not saved, so that the room is back after a reboot
  (`OrphanRemovalNotSaved`, `DeletedOrphanReturns`). `OrphanedIff` says, over any run of edits, failing saves and
  reboots, exactly which rooms are orphaned in memory and which in flash, each event told from the device before it.
- **Listing rooms.** The reply's branch for a room without a contact is documented as not to happen short of corrupted
  flash. It happens for every orphaned room, and for no other (`HandleQueryRooms`, `NameOfRoom`).
- **Rolling back a failed save.** Lowering the count by one is documented to restore the lists. It does so exactly when
  the edit appended to every list it edits and, for a channel, demoted no other (`ContactRollbackRestoresIff`,
  `RoomRollbackRestoresIff`, `ChannelRollbackRestoresIff`); after a deletion it never does
  (`DeletionRollbackNeverRestores`). For each edit a lemma says, from the lists before it, when the rooms still have
  their contacts afterwards; `ReAddRollbackOrphansRoom` gives an input where one does not.
- **First provisioning.** The session before the first boot appends contacts without an upsert
  (`firmware/src/provisioning_server.rs`, lines 425-437), so one may be listed twice: `AppendContactKeepsInvIff`.
- **Given up, still queued.** A frame evicted from the transmit queue is taken for the end of its send.
  `EvictionEndsSend` proves this over joint runs of queue and table in which no event queues a frame of the send while
  another one of it is queued: then an eviction leaves none queued, and clears a slot that waits for it.
  `EvictedAndStillQueuedIff` gives the exact condition for one event, `EvictionsSafeIff` the one for whatever other
  frames are still to come: at most one is queued. The firmware does not guard its retries so; in
  `RetryEvictsItselfOnRun` a retry evicts the copy before it, and the send is reported undelivered while the retry is
  still queued.
- **Hysteresis margin.** A boundary is documented to be passed by more than 30 mV. `RisesAsDocumentedIff`: rising, the
  code is content with exactly 30.
- **Dates.** The RMC parser bounds the day by 31 whatever the month, and lets the leap second through. `CivilRoundTrip`
  proves that of all it lets through, exactly the dates that exist, with seconds up to 59, come back as they were;
  `ComesBackAsTaken` says what every one of them comes back as.
- **Sentence length.** Accepted sentences are documented to lie within 82 bytes. The scan bounds the distance to the
  star, so bodies of up to 78 bytes keep the documented ceiling, and where there is no second dollar, which the scan
  would take for a body byte, no others do (`FramedSentenceWithinCeilingIff`, `SentenceBeyondCeilingAccepted`,
  `InnerSentenceWithinCeiling`).
- **Starting over from the empty replay state.** A corrupt replay blob falls back to the empty state, documented never
  to mean "accept everything". The first frame after it is always accepted; `FallbackIsHarmlessIff` proves when the
  guard decides again as if it had not forgotten, `FallbackAtOnceIsHarmlessIff` that this is so from the start exactly
  when nothing had been accepted, and `FallbackForgottenAfterRing` that after 16 acceptances the mark alone decides.

## Model

| member | source | states |
|---|---|---|
| Ring.PushKeepsHolds | firmware-core/src/dispatcher.rs:88-95 | one overwrite at the head keeps the ring equal to the newest part of an unbounded history |
| Ring.ScanSeesRecent | firmware-core/src/dispatcher.rs:76-85 | a scan over the counted slots sees exactly the newest entries, whatever the rotation |
| Ring.LifetimeIff | firmware-core/src/dispatcher.rs:34-41 | an entry is remembered through exactly capacity - 1 later pushes of other entries |
| Dedup.DuplicateFilter.IsDuplicate | firmware-core/src/dispatcher.rs:76-85 | true exactly when the frame's key is among the last 128 keys ever inserted |
| Dedup.DuplicateFilter.Insert | firmware-core/src/dispatcher.rs:88-95 | the key joins the history and the ring still stands for it |
| Airtime.AirtimeBudget.UsedInWindow | firmware-core/src/dispatcher.rs:155-166 | the loop over rotated slots sums the newest 32 transmissions that start in the window |
| Airtime.AirtimeBudget.CanTransmit | firmware-core/src/dispatcher.rs:137-140 | the decision, stated on the ledger instead of the slots |
| Airtime.AirtimeBudget.RecordTx | firmware-core/src/dispatcher.rs:143-152 | the transmission joins the ledger and the ring still stands for it |
| Airtime.RingSumExact | firmware-core/src/dispatcher.rs:155-166 | the ring's sum never exceeds the ledger's, and equals it exactly when the newest overwritten transmission has left the window |
| Airtime.RingDecisionExact | firmware-core/src/dispatcher.rs:137-140 | exactly when every request is decided as an unbounded ledger would decide it |
| Airtime.LongFramesKeepDutyCycle | firmware-core/src/dispatcher.rs:43-50 | over every granted run of frames of at least 182 ms, no closed 60 s window has transmissions of more than 6 s starting in it |
| Airtime.OnAirWithinDutyCycle | firmware-core/src/dispatcher.rs:43-50 | one frame at a time, that also bounds by 6 s what is on the air in any 60 s, transmissions under way at either end included |
| Airtime.ShortFramesBreakDutyCycle | firmware-core/src/dispatcher.rs:43-50 | every constant airtime from 1 to 181 ms has a granted run of non-overlapping frames that breaks the duty cycle, by starts and by time on the air |
| Airtime.AirtimeThreshold | firmware-core/src/dispatcher.rs:613-635 | airtime reaches 182 ms exactly at 44 bytes, and lies between 52 and 800 ms for every frame |
| Airtime.AirtimeIsFormula | firmware-core/src/dispatcher.rs:608-635 | the whole-number airtime is the data-sheet formula in real arithmetic, rounded up, for every length |
| Airtime.AirtimeBrackets | firmware-core/src/dispatcher.rs:613-635 | r ms for n bytes exactly when some k blocks have 28 (k - 1) < 8 n + 16 <= 28 k and r is the least number of ms for 41 472 + 10 240 k us |
| Airtime.SevenMoreBytes | firmware-core/src/dispatcher.rs:613-635 | seven more bytes add 20 480 us before rounding; 255 bytes take 800 ms |
| Airtime.AirtimeMonotone | firmware-core/src/dispatcher.rs:613-635 | longer frames take at least as long |
| Airtime.MinimumFrameLength | firmware-core/src/dispatcher.rs:108-167 | the duty cycle, by starts or by time on the air, holds on all granted runs of frames of at least n bytes if and only if n is at least 44 |
| Airtime.TryTransmit | firmware/src/main.rs:2795-2850 | the dispatcher's check-then-record step, radio failures included, with airtime by the formula above: stays a granted run, and keeps the duty cycle of the recorded transmissions while frames have 44 bytes or more |
| Airtime.TimedOutFramesBreakDutyCycle | firmware/src/radio.rs:596-606 | frames that time out are not recorded: granted attempts of more than 300 ms, one every 3 s, break the duty cycle on the air |
| Tx.TxQueue.Enqueue | firmware-core/src/dispatcher.rs:250-275 | the frame itself, or its first 255 bytes, goes last with its tag, the older ones stay in order, and only a fifth is lost: the oldest, reported with its own length and tag |
| Tx.TxQueue.Peek | firmware-core/src/dispatcher.rs:284-292 | copies the oldest frame as far as the buffer reaches and changes nothing else |
| Tx.TxQueue.PopFront | firmware-core/src/dispatcher.rs:296-302 | removes exactly the oldest frame |
| Tx.EveryFrameAccounted | firmware-core/src/dispatcher.rs:197-206 | over any run every enqueued frame was popped, or evicted and reported, in enqueue order, or is among the at most four newest, still pending in order |
| Tx.EnqueuedAreTheFrames | firmware-core/src/dispatcher.rs:250-275 | over any run the enqueued entries are, one by one, the frames offered (a frame over 255 bytes cut to 255) with their tags |
| Tx.Conservation | firmware-core/src/dispatcher.rs:197-206 | every frame is among the enqueued ones as often as among the popped, the reported and the pending ones together |
| Outstanding.RetryBackoff | firmware-core/src/dispatcher.rs:381-385 | the backoff's exact range per attempt: at least a full deadline plus the step, and less than 5 s of jitter |
| Outstanding.JitterOfHash | firmware-core/src/dispatcher.rs:381-385 | the jitter is the remainder of the weighted first three hash bytes after whole multiples of 5 s |
| Outstanding.BackoffsDiffer | firmware-core/src/dispatcher.rs:375-385 | two hashes that differ in just one of their first three bytes never get the same backoff |
| Outstanding.FreshSend | firmware-core/src/dispatcher.rs:425-445 | a new send keeps hash, kind, time and up to 255 bytes of the frame, is due after 30 s and has not been retried |
| Outstanding.OutstandingSends.Insert | firmware-core/src/dispatcher.rs:486-509 | first free slot, or the earliest-sent entry (first on ties) is evicted and returned |
| Outstanding.InsertedWhere | firmware-core/src/dispatcher.rs:486-509 | the first free slot takes the send; with none free the first of those with the least send time makes room, and is the one returned |
| Outstanding.OutstandingSends.Resolve | firmware-core/src/dispatcher.rs:515-522 | the first entry with the hash is removed and returned, else nothing changes |
| Outstanding.ResolvedWhich | firmware-core/src/dispatcher.rs:515-522 | something is returned exactly when a slot has all four bytes of the hash, and it is the first such slot that is emptied |
| Outstanding.OutstandingSends.ResolveEvicted | firmware-core/src/dispatcher.rs:530-532 | an untagged eviction resolves nothing, a tagged one resolves its hash |
| Outstanding.OutstandingSends.SweepExpired | firmware-core/src/dispatcher.rs:553-575 | every slot is swept independently; retried and undelivered sends are handed out in slot order |
| Outstanding.SweptSlotWaits | firmware-core/src/dispatcher.rs:553-575 | a due send with a retry left that is granted gets a deadline 30 s + 20 s per attempt + less than 5 s from now; a due one without is gone; one that is not due is left alone |
| Outstanding.SweepLeavesNoneDue | firmware-core/src/dispatcher.rs:553-575 | no survivor of a sweep is due, so a second sweep at the same time does nothing |
| Outstanding.EverySendLeavesOnce | firmware-core/src/dispatcher.rs:447-466 | over any run each single inserted send waits in one slot or was resolved, undelivered or evicted, exactly one of these and once, for good, with hash, kind, time and bytes unchanged, and was handed out for a retry at most twice |
| Outstanding.NoSendWaitsLonger | firmware-core/src/dispatcher.rs:334-385 | with sweeps at most g ms apart, no send is still waiting 159 996 + 3g ms after it was sent |
| Outstanding.NoSendIsDueEarly | firmware-core/src/dispatcher.rs:334-385 | over any run every deadline is at least 30, 80 or 150 s after the send, for 0, 1 or 2 retries |
| Outstanding.InsertedAreTheSends | firmware-core/src/dispatcher.rs:425-509 | over any run the inserted sends are, one by one, those of the send events, with their hashes, kinds, times and bytes |
| Delivery.CopiesLeft | firmware/src/main.rs:2126-2178 | over any joint run of queue and table, the copies of a send still queued are those sent and retried less those transmitted and evicted |
| Delivery.StepQueue | firmware-core/src/dispatcher.rs:250-275 | any event, sweeps with many retries included, evicts exactly the frames at the front that four slots cannot hold |
| Delivery.EvictedAndStillQueuedIff | firmware/src/main.rs:3778-3813 | for any state and event, a frame of a send is evicted while another one stays queued if and only if, of those queued and added, one is among those that do not fit and another is not |
| Delivery.AtMostOneCopy | firmware/src/main.rs:2126-2178 | as long as no event queues a frame of a send while another one is queued, at most one is |
| Delivery.EvictionEndsSend | firmware/src/main.rs:3778-3813 | on such runs an eviction that names a send leaves no frame of it queued and clears a slot that waits for it, if there is one |
| Delivery.ResolveAllTracked | firmware-core/src/dispatcher.rs:524-532 | each eviction that names a hash clears one of its slots, while there is one, and no other |
| Delivery.StepTracked | firmware/src/main.rs:2126-2178 | for each event of a joint run, how many slots wait for a hash afterwards: an acknowledgement and each of its evictions clear one, a sweep those it gives up, a new message takes one |
| Delivery.OtherFrameOnQueue | firmware-core/src/dispatcher.rs:250-275 | what one more frame that is no send does to the queue, and when it evicts one of a given send |
| Delivery.EvictionsSafeIff | firmware/src/main.rs:3778-3813 | whatever other frames are still to come, an eviction leaves no frame of the send queued if and only if at most one is queued now |
| Delivery.ResolvesToResolvedBy | firmware-core/src/dispatcher.rs:515-522 | what resolving a hash leaves of the table, as used in those runs |
| Delivery.RetryEvictsItself | firmware/src/main.rs:2126-2178 | a retry that evicts its own first copy is given up while it is queued |
| Delivery.RetryEvictsItselfOnRun | firmware/src/main.rs:2126-2178 | a joint run that leads there |
| Calendar.NextDayCounts | firmware-core/src/gps.rs:391-400 | the closed form advances by one on every step of a naive Gregorian calendar, in every year |
| Calendar.DateRoundTrip | firmware-core/src/gps.rs:407-426 | every valid date, of any year, is recovered from its day number |
| Calendar.DaysRoundTrip | firmware-core/src/gps.rs:407-426 | every day number gives a valid date that has that number |
| Calendar.UnixRoundTrip | firmware-core/src/gps.rs:407-426 | every second gives a valid civil time whose timestamp is that second |
| Calendar.CivilRoundTrip | firmware-core/src/gps.rs:391-400 | of everything the RMC parser lets through, a civil time is recovered from its timestamp if and only if its month has that day and its second is not the leap second |
| Calendar.MissingDayRollsOver | firmware-core/src/gps.rs:561-563 | a day that its month does not have, which the parser lets through, comes back as a day of the next month |
| Calendar.ThirtyFirstOfFebruary | firmware-core/src/gps.rs:561-563 | 31 February 2025 passes the parser's guard and comes back as 3 March |
| Calendar.LeapSecondRollsOver | firmware-core/src/gps.rs:561-563 | the leap second comes back as second 0 of the next minute, hour or day |
| Calendar.ComesBackAsTaken | firmware-core/src/gps.rs:561-563 | what each input that the parser lets through comes back as, missing days and leap seconds at once |
| Calendar.CivilCountsFromEpoch | firmware-core/src/gps.rs:407-426 | day n is where n steps of the naive calendar lead from 1 January 1970 |
| Calendar.CivilFollowsCalendar | firmware-core/src/gps.rs:407-426 | the inverse conversion walks the naive calendar day by day |
| Calendar.TimestampsOrdered | firmware-core/src/gps.rs:391-400 | timestamps order valid civil times exactly as the calendar does |
| Nmea.FindStar | firmware-core/src/gps.rs:91-103 | finds the star of the span after a dollar, if there is one within 82 bytes |
| Nmea.ContainsChecksumValidNmea | firmware-core/src/gps.rs:83-119 | true if and only if some span of 5 to 81 body bytes is followed by its checksum in hex |
| Nmea.SentenceIff | firmware-core/src/gps.rs:83-119 | what counts as a sentence, byte by byte: dollar, 5 to 81 printable bytes but no star, star, and the two nibbles of the XOR as hex digits, high one first |
| Nmea.HexDigitValueIff | firmware-core/src/gps.rs:55-62 | hex digits of either case stand for their values, and no other byte for any |
| Nmea.FramedSentenceFound | firmware-core/src/gps.rs:63-82 | a correctly framed sentence is found under any prefix and suffix |
| Nmea.FramedSentenceWithinCeilingIff | firmware-core/src/gps.rs:64-70 | under any noise a framed sentence is accepted, lies within the documented 82 bytes if its body has at most 78, and, without a second dollar, only then |
| Nmea.InnerSentenceWithinCeiling | firmware-core/src/gps.rs:83-119 | with a second dollar a longer one may hold a shorter sentence within the ceiling |
| Nmea.SentenceBeyondCeilingAccepted | firmware-core/src/gps.rs:83-119 | a sentence of 83 bytes, accepted |
| Nmea.ChecksumOfChange | firmware-core/src/gps.rs:50-52 | changing one body byte moves the checksum by exactly the changed bits |
| Nmea.OneWrongByteIsDetected | firmware-core/src/gps.rs:72-80 | a sentence with exactly one body byte changed is no longer a sentence |
| KeyedList.UpsertIsMapUpdate | firmware-core/src/config_store.rs:549-573 | an upsert is a map update that keeps the order of known keys and puts a new key last |
| KeyedList.RemoveIsMapRemoval | firmware-core/src/config_store.rs:613-639 | a compaction shift is a map removal that keeps the order of the rest |
| Config.UpsertContactKeepsInv | firmware-core/src/config_store.rs:549-573 | keeps every invariant; refused exactly when the contact is new and 16 are there, and then nothing changes; updated exactly when it is known |
| Config.UpsertChannelKeepsInv | firmware-core/src/config_store.rs:492-530 | keeps every invariant, at most one primary channel among them; refused exactly when new and 8 are there, updated exactly when known |
| Config.UpsertRoomKeepsInv | firmware-core/src/config_store.rs:583-607 | keeps every invariant; refused exactly when the contact is new and 16 are there, updated exactly when it is known; a room is only ever appended where there is space |
| Config.RoomAlwaysFits | firmware-core/src/config_store.rs:583-607 | from a configuration that keeps the invariants, the unguarded write of a room is within the array |
| Config.DeletionsRemove | firmware/src/admin_server.rs:646-745 | deleting a contact or a channel on its own takes that key from the ordered map of its list and leaves the other lists alone |
| Config.RemoveRoomKeepsInv | firmware-core/src/config_store.rs:613-639 | keeps every invariant; found if and only if a contact has the pubkey, room or not, else nothing changes |
| Config.RoomsWithinContacts | firmware-core/src/config_store.rs:577-582 | there are never more rooms than contacts, by injection of pubkeys |
| Config.ReachableKeepsInv | firmware-core/src/config_store.rs:381-398 | every configuration reachable from the empty one keeps all the invariants |
| Config.DelRoomAnswersAsDocumentedIff | firmware-core/src/room_admin.rs:111-135 | for any lists the documented answer, "not found" when no room has the pubkey, is given if and only if the pubkey is both a contact and a room or neither |
| Config.PlainContactLostToDelRoom | firmware-core/src/config_store.rs:613-639 | a contact that never was a room is removed, and reported as a removed room |
| Config.OperationsRefineMaps | firmware-core/src/config_store.rs:492-639 | each of the four operations is its counterpart on insertion-ordered maps, demotions, refusals and orphaned rooms included |
| Config.RunsRefineMaps | firmware-core/src/config_store.rs:492-639 | every run of the lists from the empty configuration is the run of the maps |
| ConfigEdits.DelContactKeepsInvIff | firmware/src/admin_server.rs:646-656 | deleting a contact leaves the invariants intact if and only if they held and no room has its pubkey |
| ConfigEdits.OrphanAnsweredNotFound | firmware-core/src/config_store.rs:613-639 | deleting that orphan as a room removes it and answers that there was none |
| ConfigEdits.ChurnOutgrowsRooms | firmware/src/admin_server.rs:646-656 | rooms whose contacts are deleted one by one pile up while no contact is left |
| ConfigEdits.SeventeenthRoomLeavesArray | firmware-core/src/config_store.rs:583-607 | each of them is granted and written to the next slot, within the array if and only if it is one of the first 16 |
| ConfigEdits.RoomFitsIff | firmware-core/src/config_store.rs:583-607 | for any lists the write of a room is within the array if and only if it is refused, the room is known, or there are fewer than 16 |
| ConfigEdits.AppendContactKeepsInvIff | firmware/src/provisioning_server.rs:425-437 | the first session's append leaves the invariants if and only if the pubkey was no contact yet and no room but its own was orphaned |
| ConfigDevice.OrphanedIff | firmware/src/admin_server.rs:1380-1412 | over any run of edits, failing saves, unsaved removals and reboots, a room is orphaned in memory, or in flash, if and only if it was at first or some event orphaned it there, and none settled it there since |
| ConfigDevice.RamStep | firmware/src/admin_server.rs:1380-1412 | for each event, from the device before it, which rooms it orphans and which it settles in memory, the costs of a failed save included |
| ConfigDevice.FlashStep | firmware/src/config_store.rs:112-140 | the same in flash, by what each event writes |
| ConfigDevice.HaltedUntilReboot | firmware/src/config_store.rs:59-102 | a room written outside its array halts the device, nothing is served until a reboot, and the reboot starts from flash exactly when that loads |
| ConfigDevice.UnservedChangesNothing | firmware/src/admin_server.rs:646-668 | an edit without room for its entry, or with nothing to delete, leaves memory and flash as they were |
| ConfigDevice.ServedInFlash | firmware/src/config_store.rs:112-140 | what every other edit leaves in flash, by where its save fails, and that memory agrees after a save |
| ConfigDevice.ServedInMemory | firmware/src/admin_server.rs:1380-1412 | after a failed save memory holds the edited lists without the last entry of each list that the edit is counted in |
| ConfigDevice.DeviceStaysTidy | firmware-core/src/config_store.rs:381-398 | over any such run each list by itself keeps distinct keys, one primary channel and its capacity, in memory and in flash |
| ConfigDevice.LoadsIff | firmware/src/config_store.rs:59-102 | what a reboot makes of flash is what the blob reader makes of the saved lists |
| ConfigDevice.OrphanRemovalNotSaved | firmware/src/admin_server.rs:946-964 | deleting an orphaned room takes it from memory and leaves flash as it was |
| ConfigDevice.DeletedOrphanReturns | firmware/src/admin_server.rs:946-964 | a run in which a deleted orphan is back after a reboot |
| ConfigDevice.FailedSaveOrphansInFlash | firmware/src/admin_server.rs:1380-1412 | a run without deletions in which a failed save orphans a room and the next save writes it to flash |
| ConfigDevice.AfterOrphaning | firmware/src/admin_server.rs:646-656 | three edits that lead to an orphaned room beside a contact, in memory and in flash |
| ConfigRollback.ContactRollbackRestoresIff | firmware/src/admin_server.rs:1380-1412 | after adding a contact, the rollback restores the lists if and only if the contact was new |
| ConfigRollback.RoomRollbackRestoresIff | firmware/src/admin_server.rs:1380-1412 | after adding a room, for any lists, if and only if neither a contact nor a room had its pubkey |
| ConfigRollback.ChannelRollbackRestoresIff | firmware/src/admin_server.rs:1380-1412 | after adding a channel, if and only if it was new and took the primary flag from no other |
| ConfigRollback.DeletionRollbackNeverRestores | firmware/src/admin_server.rs:1380-1412 | after a deletion the rollback drops one more entry and restores nothing |
| ConfigRollback.ContactRollbackKeepsInvIff | firmware/src/admin_server.rs:1380-1412 | adding a contact and rolling back leaves every room its contact if and only if every room had one, not counting the last contact if the added one was known |
| ConfigRollback.RoomRollbackKeepsInvIff | firmware/src/admin_server.rs:1380-1412 | the same of adding a room, not counting the last contact and the last room, each if the pubkey was known in its list |
| ConfigRollback.ChannelRollbackKeepsInvIff | firmware/src/admin_server.rs:1380-1412 | adding a channel and rolling back leaves the invariants as they were |
| ConfigRollback.DelContactRollbackKeepsInvIff | firmware/src/admin_server.rs:646-657 | deleting a contact that is there and rolling back costs it and the last other one: the invariants hold if and only if no room has the pubkey of either and every room had its contact |
| ConfigRollback.DelRoomRollbackKeepsInvIff | firmware/src/admin_server.rs:1380-1412 | deleting a room whose contact is there and rolling back costs the last other entry of both lists: exactly when every room that remains still has its contact |
| ConfigRollback.ReAddRollbackOrphansRoom | firmware/src/admin_server.rs:1380-1412 | a contact added again before a room, the save failing, orphans the room |
| ConfigRollback.ReAddedOrphanIsLostByRollback | firmware/src/admin_server.rs:1380-1412 | an orphan added again, the save failing, is lost altogether |
| ConfigStore.ProvisionedConfig.UpsertChannel | firmware-core/src/config_store.rs:492-530 | the array update with its demotion loop is the upsert on the live prefix |
| ConfigStore.ProvisionedConfig.UpsertContact | firmware-core/src/config_store.rs:549-573 | the array update is the upsert on the live prefix |
| ConfigStore.ProvisionedConfig.UpsertRoom | firmware-core/src/config_store.rs:583-607 | both lists are updated together, wherever the room fits the array |
| ConfigStore.ProvisionedConfig.RemoveRoom | firmware-core/src/config_store.rs:613-639 | the two shifting loops remove the room and its contact from the live prefixes |
| ConfigCodec.EncodeLength | firmware-core/src/config_store.rs:152-157 | the exact length of a blob, never above 3544 |
| ConfigCodec.ChunksRoundTrip | firmware-core/src/config_store.rs:691-718 | entries written one after the other at running offsets are read back from those offsets |
| ConfigCodec.RoundTrip | firmware-core/src/config_store.rs:672-720 | a written blob with anything behind it is read back with unused slots nulled if it is well formed, and refused if not |
| BlobLayout.AcceptedIff | firmware-core/src/config_store.rs:727-983 | which blobs are accepted, by version, counts, length and the two length bytes of each room |
| BlobLayout.HeaderFields | firmware-core/src/config_store.rs:29-42 | of every accepted blob, which byte becomes which setting or count, as documented |
| BlobLayout.ContactFields | firmware-core/src/config_store.rs:43-48 | of every accepted version 3 blob, where the bytes of each contact lie |
| BlobLayout.ContactFieldsV2 | firmware-core/src/config_store.rs:909-983 | the same for version 2, whose contacts are chat contacts |
| BlobLayout.ChannelFields | firmware-core/src/config_store.rs:49-54 | where the bytes of each channel lie, for both versions |
| BlobLayout.RoomFields | firmware-core/src/config_store.rs:55-64 | where the bytes of each room lie, its sync mark little-endian |
| BlobLayout.BlankBehindLive | firmware-core/src/config_store.rs:735-753 | the slots behind the live entries are blank |
| ConfigCodec.MigrationIsLossless | firmware-core/src/config_store.rs:909-983 | a version 2 blob is read as the configuration it was written from, without rooms |
| AcceptedBlobs.AcceptedV2Migrates | firmware-core/src/config_store.rs:909-983 | every accepted version 2 blob, whoever wrote it, yields chat contacts and no rooms; the old writer makes of the result the blob's own bytes with each flag byte spelled 0 or 1, a prefix of the blob if and only if it spells them so |
| AcceptedBlobs.RespelledByte | firmware-core/src/config_store.rs:909-983 | of those bytes, each flag is normalised and every other one is the blob's |
| AcceptedBlobs.AcceptedV3IsRewritten | firmware-core/src/config_store.rs:791-903 | saving what was accepted writes the blob again, its flags spelled 0 and 1 |
| ConfigCodec.AcceptedIsStable | firmware-core/src/config_store.rs:727-733 | whatever blob of either version was accepted, saving and loading the result changes nothing |
| ConfigCodec.InvariantSurvivesReload | firmware-core/src/config_store.rs:791-807 | a configuration that keeps the list invariant survives a reload if and only if its length bytes are within their caps |
| ConfigCodec.DelContactReloadsIff | firmware-core/src/config_store.rs:791-807 | after a contact was deleted on its own from any lists, the saved configuration is refused if and only if there had been as many rooms as contacts or more (or a length byte exceeds its cap), else loaded as it is |
| ConfigCodec.OrphanLoadsBesideContact | firmware-core/src/config_store.rs:801-805 | a room orphaned beside a chat contact is loaded with the saved configuration |
| ConfigCodec.SecondOrphanRefused | firmware-core/src/config_store.rs:801-805 | two rooms orphaned beside a chat contact: loaded after the first deletion, refused after the second |
| ConfigCodec.ChurnedRoomsAreRefused | firmware-core/src/config_store.rs:801-805 | rooms orphaned one after the other until no contact is left are refused |
| ConfigBlob.SerializeConfig | firmware-core/src/config_store.rs:672-720 | the in-place writer produces exactly that encoding and touches nothing behind it |
| ConfigBlob.DeserializeV3 | firmware-core/src/config_store.rs:791-903 | the checks and the three reading loops compute the version 3 reader |
| ConfigBlob.DeserializeV2Migrate | firmware-core/src/config_store.rs:909-983 | the checks and the two reading loops compute the migrating reader |
| ConfigBlob.DeserializeConfig | firmware-core/src/config_store.rs:727-733 | dispatches on the version byte, refusing empty blobs and other versions |
| RoomAdmin.HandleAddRoom | firmware-core/src/room_admin.rs:84-109 | a failed decode changes nothing; otherwise refused exactly when new and 16 contacts are there, updated exactly when known, and stored with the given name and password and fresh session state unless refused |
| RoomAdmin.AddStores | firmware-core/src/room_admin.rs:68-109 | for any lists, which outcome answers which case, and what the contact and the room hold afterwards |
| RoomAdmin.HandleDelRoom | firmware-core/src/room_admin.rs:126-135 | a failed decode changes nothing; otherwise room and contact are removed, and "not found" is answered if and only if no contact had the pubkey |
| RoomAdmin.HandleQueryRooms | firmware-core/src/room_admin.rs:150-183 | for any lists, one entry per room in order, each with the name of the first contact that has its pubkey or an empty one if there is none, then the end frame |
| RoomAdmin.EntryTells | firmware-core/src/room_admin.rs:150-183 | an entry carries its room's index, key, sync mark, permissions and known path, also of a room whose session has learned them |
| RoomAdmin.NameOfRoom | firmware-core/src/room_admin.rs:137-149 | an orphaned room is listed without a name, any other with its own contact's, and under the invariants none is orphaned |
| RoomAdmin.QueryTellsTheBook | firmware-core/src/room_admin.rs:137-183 | after any add and delete frames the reply is exactly what a host that keeps its own book expects |
| BatteryLevel.HysteresisBucketIndexMv | firmware-core/src/battery.rs:766-781 | the two loops clamp the previous bucket between the surely-reached and the not-surely-left one |
| BatteryLevel.OneStep | firmware-core/src/battery.rs:724-781 | a step is idempotent, monotone in reading and previous bucket, and independent of the latter exactly outside both bands |
| BatteryLevel.LevelSteps | firmware-core/src/battery.rs:711-781 | the level after any reading from any level, in millivolts: 3 700 and 4 000 plain, 30 either way when a level was known |
| BatteryLevel.RisesAsDocumentedIff | firmware-core/src/battery.rs:561-568 | a step is the documented one, more than 30 mV either way, unless it rises at exactly 30 |
| BatteryLevel.RisesAtMargin | firmware-core/src/battery.rs:766-781 | 3730 mV raises Low to Partial, which the documented rule does not |
| BatteryLevel.LevelRunIsIndexRun | firmware-core/src/battery.rs:724-746 | reported levels run through those bucket indices |
| BatteryLevel.LevelCannotFlap | firmware-core/src/battery.rs:561-568 | on any run off external power, 61 mV times (crossings - 1) of a boundary never exceeds the readings' total variation |
| BatteryLevel.PercentFromMillivolts | firmware-core/src/battery.rs:870-892 | the value lies on the curve's segment of the reading, and the loop always returns before the fallback |
| BatteryLevel.PercentBetween | firmware-core/src/battery.rs:870-892 | between two breakpoints the value is the straight line, rounded down |
| BatteryLevel.PercentTable | firmware-core/src/battery.rs:513-527 | the documented value at each breakpoint and beyond both ends |
| BatteryLevel.PercentMonotone | firmware-core/src/battery.rs:870-892 | more millivolts never mean less charge, always within 0 to 100 |
| BatteryLevel.PercentAtBreakpoints | firmware-core/src/battery.rs:513-527 | every breakpoint of the curve is hit exactly |
| BatteryPipeline.PeakWindowSampler.Sample | firmware-core/src/battery.rs:965-975 | emits the maximum of all samples since and including the one that closed the window before, exactly when 30 s have passed since |
| BatteryPipeline.PeakIsMaximum | firmware-core/src/battery.rs:927-945 | what is emitted is one of the samples and no sample exceeds it |
| BatteryPipeline.NothingContaminatedIsTrusted | firmware-core/src/battery.rs:984-1039 | across any boots, polls and failing writes no voltage above 4300 mV is confirmed or written, an unconfirmed state is charging, and n writes in a boot take (n - 1) times 5 min |
| BatteryPipeline.WritesIff | firmware-core/src/battery.rs:1005-1039 | a poll writes exactly when its window has lasted 30 s, the voltage is confirmed, and nothing is in flash or it is 50 mV off and 300 s have passed |
| BatteryPipeline.FlashKeepsUp | firmware-core/src/battery.rs:1005-1039 | over any polls of a boot, once a window has closed with the voltage confirmed there is a persisted value, and after each closing poll the voltage is within 50 mV of it or less than 300 s have passed since the last write, or the boot |
| BatteryPipeline.BootSeeds | firmware-core/src/battery.rs:988-1009 | what a boot starts from: the persisted value, or the first sample, as external power decides |
| BatteryPipeline.FlashIsAsBelieved | firmware-core/src/battery.rs:1011-1039 | as long as no write fails, flash holds what the driver takes it to hold, over any boots and polls |
| BatteryPipeline.WindowSettles | firmware-core/src/battery.rs:1071-1081 | what a closing window settles on: its maximum on battery, the old value on external power |
| BatteryPipeline.LatchesHold | firmware-core/src/battery.rs:815-821 | over any polls of a boot the voltage is confirmed, or the settled display shown, if and only if it was or a window has closed since, on a battery voltage for the former |
| BatteryPipeline.LatchesSinceBoot | firmware-core/src/battery.rs:984-1039 | from a boot on, exactly when a level is displayed and exactly when the voltage is trusted |
| BatteryPipeline.RecoversAfterTwoWindows | firmware-core/src/battery.rs:1071-1081 | from any state, steady battery readings are settled, confirmed and at a level fixpoint after two windows, and after one exactly when the left-over peak allows it |
| InboundReplay.InboundReplayState.CheckAndRecordInbound | firmware-core/src/inbound_replay.rs:139-154 | accepts exactly frames above the highest accepted timestamp or with a fingerprint not among the last 16 accepted |
| InboundReplay.AcceptsIff | firmware-core/src/inbound_replay.rs:53-77 | accepted exactly when newer than every accepted frame or unlike each of the last 16 |
| InboundReplay.Reboot | firmware-core/src/inbound_replay.rs:158-200 | writing the state out and reading it back is not noticed by any later decision |
| InboundReplay.DecodeState | firmware-core/src/inbound_replay.rs:178-200 | accepts exactly blobs of full length with head and count in range, and reads every field from its place |
| InboundReplay.BlobHoldsState | firmware-core/src/inbound_replay.rs:158-170 | every field a reader looks at is the one that was written, whatever follows, each fingerprint byte in its place |
| InboundReplay.ReplayRefusedExactly | firmware-core/src/inbound_replay.rs:66-77 | an accepted frame presented again is accepted if and only if 16 or more others were accepted since |
| InboundReplay.FreshContentAccepted | firmware-core/src/inbound_replay.rs:53-64 | content never accepted before is never refused, whatever its timestamp |
| InboundReplay.ImmediateReplayRefused | firmware-core/src/inbound_replay.rs:139-154 | over any run, presenting the last frame again changes nothing |
| InboundReplay.FallbackAcceptsAnything | firmware-core/src/inbound_replay.rs:170-177 | the first frame after falling back to the empty state is accepted, whatever it is |
| InboundReplay.ForgettingAcceptsMore | firmware-core/src/inbound_replay.rs:139-154 | whatever is accepted with a history is accepted without it |
| InboundReplay.FallbackIsHarmlessIff | firmware-core/src/inbound_replay.rs:170-177 | a guard that fell back to the empty state decides every frame as before if and only if its mark and all remembered content have been accepted again |
| InboundReplay.FallbackForgottenAfterRing | firmware-core/src/inbound_replay.rs:170-177 | once 16 frames have been accepted since, if and only if the mark has been reached again |
| InboundReplay.FallbackAtOnceIsHarmlessIff | firmware-core/src/inbound_replay.rs:170-177 | from the start, if and only if nothing had been accepted |
| InboundReplay.HighWaterIsMaximum | firmware-core/src/inbound_replay.rs:41-51 | the mark is the maximum accepted timestamp |
| Perf.RepresentativeBounds | firmware-core/src/perf.rs:75-92 | a bucket's representative is at least the sample exactly below 2^31, and then less than twice the sample |
| Perf.Histogram.Record | firmware-core/src/perf.rs:94-97 | every bucket keeps the saturated count of its samples |
| Perf.Histogram.Percentile | firmware-core/src/perf.rs:101-121 | from the samples alone: the least 2^i - 1 that the share of samples reaches, while it is reached below 2^31, else 2^31 - 1; the representative of the bucket of the order statistic of rank max(1, ceil(p n)) |
| Perf.RankIff | firmware-core/src/perf.rs:101-121 | a count of samples has the rank exactly when it is at least one and at least the share p of them |
| Perf.PercentileNeverUnderReportsIff | firmware-core/src/perf.rs:27-37 | the true order statistic is not under-reported if and only if it is below 2^31, and overshot by less than a factor of two |
| Perf.TopBucketUnderReports | firmware-core/src/perf.rs:75-92 | the sample 2^31 is reported as 2^31 - 1 |
| Perf.PhaseStats.Record | firmware-core/src/perf.rs:171-181 | count, sum, minimum and maximum stay those of all recorded samples |
| Perf.PhaseStats.Snapshot | firmware-core/src/perf.rs:183-194 | reports a true minimum and maximum with the mean between them, and a p95 that at least 95 % of the samples reach, below 2^31, and its half does not |
| Blink.BlinkLoop.Notify | firmware-core/src/notification.rs:357-362 | activates an inactive loop now and leaves a running one alone |
| Blink.BlinkLoop.Poll | firmware-core/src/notification.rs:378-394 | shows what a clock started at activation shows, and rolls the burst start to within one period of now |
| Blink.RollForward | firmware-core/src/notification.rs:382-387 | skipping whole periods keeps the phase since activation |
| Blink.ClockOnIff | firmware-core/src/notification.rs:378-394 | the clock is on in the first 150 ms of each 300 ms, three times from the start of each 5 s |
| Blink.ActivationIff | firmware-core/src/notification.rs:357-446 | the loop counts from the first incoming, visible message on a sleeping screen since the last wake |
| Blink.PollIsClock | firmware-core/src/notification.rs:352-446 | over any events in time order, polls skipped or not, a poll is on exactly when the stateless clock since the activation is |
| RuntimeSettings.Store.ApplyMenuAction | firmware-core/src/pin_menu.rs:224-261 | the in-place update is the action on the settings value, all other fields kept |
| RuntimeSettings.ActionSets | firmware-core/src/pin_menu.rs:224-261 | which field each action sets, to what, in range, and that it sets no other |
| RuntimeSettings.ActionsIndependent | firmware-core/src/pin_menu.rs:224-261 | actions on different places commute, on the same place the last wins, and the lock switch moves bit 0 alone |
| RuntimeSettings.MenuKeepsInRange | firmware-core/src/pin_menu.rs:224-261 | any sequence of actions from the defaults keeps timeouts, brightness and flag bits in range |
| RuntimeSettings.Store.Serialize | firmware-core/src/runtime_settings_store.rs:131-151 | writes the current layout, clamped, and nothing behind it |
| RuntimeSettings.ParseCommonFields | firmware-core/src/runtime_settings_store.rs:157-167 | reads the shared fields from their places and leaves the others at their defaults |
| RuntimeSettings.Deserialize | firmware-core/src/runtime_settings_store.rs:169-223 | accepts exactly the four layouts and reads each |
| RuntimeSettings.FieldsRead | firmware-core/src/runtime_settings_store.rs:41-51 | which byte of an accepted blob becomes which field, kept in range, and which defaults stand for bytes an older layout lacks |
| RuntimeSettings.Defaults | firmware-core/src/pin_menu.rs:107-120 | the settings out of the box |
| RuntimeSettings.SaveLoad | firmware-core/src/runtime_settings_store.rs:131-223 | loading a saved blob yields the clamped settings, and saving those again yields the same blob |
| RuntimeSettings.LegacyV2LosesBrightnessOnly | firmware-core/src/runtime_settings_store.rs:54-72 | a blob cut to the older version 2 length loses the brightness, to its default, and nothing else |
| RuntimeSettings.V1KeepsWhatItStores | firmware-core/src/runtime_settings_store.rs:38-52 | both version 1 layouts keep every field they store |
| RuntimeSettings.MenuSettingsSurvive | firmware-core/src/runtime_settings_store.rs:131-223 | whatever the menu did since the defaults, a save and a load restore it exactly |
| RuntimeSettings.VerifyPin | firmware-core/src/pin_menu.rs:192-213 | zero difference exactly when a PIN is set, the lengths agree, every entered byte is the stored one and the stored rest is zero |

## Left out

- Floating point: `lora_airtime_ms` is modelled in whole microseconds (41 472 + 10 240 k), which are never a whole
  number of milliseconds, so rounding cannot move the ceiling; `percentile` takes its quantile as a fraction, 19/20
  for p95, so the rounding of `p * total` in `f64` is not captured.
- Overflow of counters that cannot overflow in a device's life: `u64` uptimes plus a deadline, the budget's sum, and
  the `u32` sample count of `PhaseStats`.
- SHA-256 and the frame codecs of the `protocol` crate: the dedup key, the room decoders and the room entry encoder
  are parameters of which only functionality is assumed.
- Padding of outstanding frames: modelled as its meaningful prefix; the padding behind `frame_len` is not kept.
- Nested buffers of the transmit queue: each slot's 255 bytes are one sequence value that is replaced as a whole.
- Corrupt blobs that break the list invariants: only what the readers themselves check is modelled.
- Runs from lists with a contact listed twice: distinct keys are a premise of the map, rollback and device results.
- Provisioning anew after a refused blob: it begins another run, from the lists it commits.
- The flash store around the replay state, and other reasons than a refused blob for starting from the empty state.
- `primary_channel`, `resolve_channel_secret`, `room_extra` and `room_extra_mut`: first-match lookups.
- `parse_rmc_datetime`, `parse_gga` and `nmea_coord_to_e7`: field splitting with no invariant across calls.
- `tx_guard_allows`, CAD back-off and the radio itself: its answer, sent or failed, is a parameter of the transmit step.
- Tones, per-event notification preferences, wire status fields, task-table parsing and log output.
- All of `firmware/src` that is I/O: flash is a variable, ADC samples and clock readings are parameters.
