# A model of the Windows layer of the Betaflight simulator

The repository wraps a pinned Betaflight firmware so that it flies inside a Windows
simulator. The firmware itself is opaque here; what is modelled is the C code around it that
has to get state, time and bytes right: the blackbox folder, the two virtual clocks, the
switch between aircraft, the burst recorder, the serial and WebSocket links, the captured OSD
font, and a few small state machines. Everything is in Dafny 4.11 and `dafny verify
dfyconfig.toml` checks the whole project.

The pattern is the same throughout. A class holds the variables the C code changes, its
methods follow the C functions statement by statement, and each method is proved equal to a
specification function on values. The theorems are about those functions: invariants of every
step, statements over whole runs and over every interleaving, refinements of simple
structures, round trips.

| file | what it is about |
|---|---|
| `Common.dfy` | shared types and a few facts about products and sequences |
| `BlackboxNames.dfy` | log names and the numbers read back out of them |
| `BlackboxNumbers.dfy` | the housekeeping on log numbers: window by rank, free rename targets |
| `BlackboxFolder.dfy` | the code: scan, in-place insertion sort, prune, renumber |
| `BlackboxWindow.dfy` | the code leaves the rolling window on a folder of files; nothing is overwritten in any folder |
| `BlackboxRace.dfy` | the flight thread names and creates logs while the MSP thread and the host prune and renumber |
| `Circular.dfy` | index arithmetic of rings that keep one slot free |
| `BurstRing.dfy` | the lock-free burst ring, one atomic access at a time |
| `SerialRing.dfy` | the receive and transmit rings of a TCP port |
| `VirtualClock.dfy`, `HostClock.dfy` | the clock the host steps: snap, quantum, remainder, deadlines |
| `FdmClock.dfy` | the clock driven by packet timestamps, two threads |
| `EepromSwitch.dfy` | one EEPROM file per aircraft, requests applied between steps |
| `EepromInterleaving.dfy` | the switch stage by stage, with edits and persists of the MSP thread in between |
| `WsFrame.dfy`, `WsSocket.dfy`, `WsBridge.dfy` | WebSocket frames (RFC 6455), the socket routines, the forwarding loop |
| `ClientSlots.dfy`, `ClientSessions.dfy` | the client slots of a port, and their interleavings |
| `OsdGlyphs.dfy`, `OsdFont.dfy`, `OsdFontCache.dfy` | the font buffer and bitmap, the state machine, the code |
| `OsdPersistence.dfy`, `OsdUploads.dfy` | one font per aircraft: guarded runs, and uploads in any run |
| `RcCadence.dfy`, `CrashFlip.dfy` | the receiver's frame cadence, the crash-flip latch |
| `DirChain.dfy` | creating a chain of directories on the caller's own buffer |

## Where code, comments and expectations part

The model follows the code. Where a promise fails, a lemma says exactly when it holds.

- The step quantum is not the largest power of two that divides the gyro period but the first
  divisor among 100, 50, 25, 12, 6, 3, 1 (`QuantumIsFirstDivisor`); the two
  agree exactly for periods divisible by none of 2, 3 and 25 (`QuantumIsLargestPowerOfTwoIff`).
- The name guard of the blackbox housekeeping compares bare names with a full path and never
  skips anything; the open log is protected by the file system's refusal to remove or rename
  an open file (`FullPathGuardHasNoEffect`).
- Changing the number of logs to keep sets the counter to the number of logs kept. That covers
  the folder exactly when it is not below the number of the log still open
  (`KeptCountCoversFolder`); otherwise a later log can overwrite the one being recorded
  (`CapOverwritesNewestLog`, a run from start-up; `OnlyOpenLogIsAboveCount`).
- After log 99999 the number wraps and an existing log can be overwritten (`WrapOverwrites`, a
  run from start-up). Nothing is lost exactly as long as every wrapped number is free
  (`NothingIsLostIff`).
- Only a reboot waits for disarming (`ArmedStepsAreAsIfNotTaken`). A reload or a path switch is
  applied while armed, although the comment above the gates says otherwise: the switch
  theorems hold armed or not.
- An explicit reload without a path change writes RAM to the file first, so it never picks up
  an edit made from outside (`NoPathChangeKeepsConfig`).
- A requested path that does not exist is a new aircraft with factory defaults, unless it is
  empty: then the default file inherits the aircraft being left
  (`SwitchToMissingDefaultInherits`).
- Nothing keeps the MSP thread from persisting in the middle of an aircraft switch. RAM is
  then stored in the selected file and stays, exactly when the persist comes between the
  change of the environment (for a new file, the erasing of the mirror) and the load
  (`ExistingFileSurvivesIff`, `RamArrivesIff`, `NewFileGetsDefaultsIff`). An edit made after
  the flush and not persisted is in neither file and not in the RAM loaded (`EditIsLost`).
- The microseconds of a packet whose update returns early wait in one variable, and the next
  packet in range overwrites them instead of adding to them: the clock never gets that time
  (`SkippedUpdateLosesTime`; `NothingIsMissingIff` says exactly when nothing is missing).
- "exit noreboot" is meant for the last client that leaves. The counter is read again after
  the lock is released, so it can be fed for a client that was not the last
  (`LateCheckInjectsForAnother`); `FedAgreesWithLastIff` says exactly when it is right. It is
  never fed for a client lost to a failed send (`LostClientNeverFeeds`, `NoInjectionAfterDrop`).
- Control-frame payloads are forwarded to TCP like data (`TcpGetsDataIffControlsEmpty`,
  `PingPayloadReachesTcp`), a close frame is not echoed, and the length form need not be the
  shortest.
- A font is saved under the path the getters last saw, not under the one the environment
  names. An upload completed after the aircraft changed and before the next getter overwrites
  the previous aircraft's font (`UploadBeforeSyncOverwritesOther`). With no path seen yet it
  is dropped (`FontFlashedBeforeFirstSyncIsDropped`).
- A switch moves the cached path first and loads the stored font later. Glyphs that come in
  between are replaced by the stored ones, a complete upload included
  (`LoadReplacesCompletedUpload`), or mixed with them (`GlyphAfterLoadCompletesMixture`).
- An upload therefore reaches its own aircraft's file exactly when the cached path had followed
  at its last glyph and every glyph was sent and survived the loads since
  (`UploadReachesItsAircraftIff`).
- A save the disk refuses is not tried again (`RefusedSaveIsNotRepeated`).
- A font upload that starts before the previous one is saved puts a mixture on disk, unless
  it repeats the same glyphs (`SavedImageIsTheFontIff`).
- A directory path with a trailing separator gets none of its parents created
  (`TrailingSeparatorMakesNoParents`).

## Model

| member | source | states |
|---|---|---|
| `BlackboxNames.LogNameRoundTrip` | src/wincompat.c:1808-1834 | a name written with %05d is recognised as a log name and atoi() reads its number back, for every number of five digits |
| `BlackboxNames.LogNamesDistinct` | src/wincompat.c:1918 | different numbers give different file names |
| `BlackboxNames.LogNamesAre` | src/wincompat.c:1808-1814 | a name is taken for a log exactly when it is LOG, five characters of any kind, and .BFL |
| `BlackboxNames.AtoiReads` | src/wincompat.c:1834 | the number read from a name is the value of its leading digits, behind blanks and a sign, up to the first other character |
| `BlackboxFolder.BlackboxDirectory.ReadEntries` | src/wincompat.c:1831-1838 | the scan buffer holds the listing's log names in order, cut at the buffer size |
| `BlackboxFolder.BlackboxDirectory.InsertKey` | src/wincompat.c:1842-1848 | one round of the in-place sort inserts the key behind the last entry that is not larger and leaves everything above untouched |
| `BlackboxFolder.BlackboxDirectory.SortEntries` | src/wincompat.c:1841-1849 | the in-place sort turns the buffer's prefix into Sorted of it |
| `BlackboxWindow.SortedIsOrderedPermutation` | src/wincompat.c:1841-1849 | the sort orders by number and neither loses nor invents an entry |
| `BlackboxFolder.BlackboxDirectory.Collect` | src/wincompat.c:1823-1851 | the buffer holds the sorted scan of the listing |
| `BlackboxWindow.ScanFindsAll` | src/wincompat.c:1831-1838 | with room for all of them, an entry is scanned if and only if it is a log name of the listing with its own number |
| `BlackboxWindow.ScanIsCut` | src/wincompat.c:1831-1838 | without room for all of them the scan finds the first ones of the listing, as many as fit |
| `BlackboxWindow.CollectedEnumerates` | src/wincompat.c:1823-1851 | in a folder of well-formed names the collected numbers are exactly the numbers of the folder, strictly ascending |
| `BlackboxFolder.BlackboxDirectory.Remove` | src/wincompat.c:1898-1899 | removes the file, unless it is missing or open; then nothing changes |
| `BlackboxFolder.BlackboxDirectory.Rename` | src/wincompat.c:1917-1919 | moves the content to the new name, unless the source is missing or open or the target exists; then nothing changes |
| `BlackboxFolder.BlackboxDirectory.RemoveOldest` | src/wincompat.c:1891-1904 | the first loop removes the entries beyond the cap, oldest first, skipping the guarded name |
| `BlackboxFolder.BlackboxDirectory.RenumberSurvivors` | src/wincompat.c:1906-1923 | the second loop gives the survivors 1, 2, ... in ascending order, skipping the guarded name and those already right |
| `BlackboxFolder.BlackboxDirectory.Enforce` | src/wincompat.c:1884-1926 | the folder afterwards is Enforced of the collected logs, which the lemmas below are about, and the count returned is all of them for a negative cap and otherwise the smaller of their number and the cap |
| `BlackboxWindow.HousekeepingIsRollingWindow` | src/wincompat.c:1853-1863 | with a log open or not: the oldest logs are dropped until no more are left than the cap says, none for a negative cap; every other closed log has number rank - first + 1 with its content, the open log is untouched, there is no other log, and no other file changed |
| `BlackboxWindow.NewestLogsSurvive` | src/wincompat.c:1853-1855 | with none open: a log survives if and only if fewer than `keep` logs are younger, the numbers are exactly 1 to the smaller of `keep` and the number of logs, the newest highest; a negative cap keeps every log |
| `BlackboxNumbers.NumberExceedsIndex` | src/wincompat.c:1859-1861 | the i-th of sorted distinct positive numbers is at least i + 1 |
| `BlackboxNumbers.TargetIsFree` | src/wincompat.c:1859-1863 | at every rename of the loop the target number is free and the source is there |
| `BlackboxNumbers.RollingWindow` | src/wincompat.c:1853-1863 | pruning and renumbering a folder leaves exactly the window of the newest logs, stated by rank and without the sort |
| `BlackboxNumbers.RankIsMonotone` | src/wincompat.c:1853-1855 | numbers given by rank keep the age order |
| `BlackboxNumbers.ClosedWindowIsExact` | src/wincompat.c:1853-1855 | with no log open the numbers left are exactly 1 to the number of logs kept |
| `BlackboxNumbers.TidyFolderIsKept` | src/wincompat.c:1911-1914 | a folder already numbered 1 to k within the cap is left as it is |
| `BlackboxNumbers.OnlyOpenLogIsAboveCount` | src/wincompat.c:2175-2177 | above the returned count the folder has the open log's number and no other: of the names that follow a counter set to it, only that one is taken |
| `BlackboxNumbers.KeptCountCoversFolder` | src/wincompat.c:2175-2177 | the returned count is at least every number left if and only if the open log's number is; a counter set to it would otherwise fall below an open log |
| `BlackboxFolder.BlackboxDirectory.SeedFromDisk` | src/wincompat.c:1942-1958 | the counter becomes the largest number collected, or 0 |
| `BlackboxWindow.SeedIsHighest` | src/wincompat.c:1928-1931 | on a folder of well-formed names that is the largest number in the folder, or 0 exactly for a folder without logs |
| `BlackboxFolder.BlackboxDirectory.NextNumber` | src/wincompat.c:1960-1966 | the next log's number is one more than the counter, seeded from disk first if it is not positive |
| `BlackboxFolder.BlackboxDirectory.VirtualOpen` | src/wincompat.c:2125-2142 | boot housekeeping with the configured cap; the counter becomes the smaller of that cap and the number of logs, or for a cap of 0 that number |
| `BlackboxWindow.BootLeavesOneToCounter` | src/wincompat.c:2132-2139 | after boot, with nothing open, the newest logs are there, as many as the counter says, numbered exactly 1 to the counter; a cap of 0 keeps all |
| `BlackboxWindow.HousekeepingOverwritesNothing` | src/wincompat.c:1884-1926 | in any folder, whatever the names and however many: every file afterwards has the content of one earlier file, no two of the same, and only pruned files have no successor |
| `BlackboxWindow.FullPathGuardHasNoEffect` | src/wincompat.c:2061-2062 | the guard stored by the open is a full path, equals no log name, and so never skips an entry: the result is that of no guard |
| `BlackboxRace.StepKeepsInv` | src/wincompat.c:1928-1985 | each single check, seeding, increment, create, close, remove, rename, scan end and store of the kept count, by any thread, keeps: numbers at or below the counter, age order, nothing overwritten, the plan still ahead; a stored count must cover the folder and a number given away |
| `BlackboxRace.NewNumberIsFresh` | src/wincompat.c:1960-1966 | the number a new log gets is above every number in the folder at the moment it is created, even in the middle of a prune |
| `BlackboxRace.RemovesOldest` | src/wincompat.c:1893-1903 | whenever the prune removes, the log it removes is the oldest one there, also when logs were created since the scan |
| `BlackboxRace.RenamesDown` | src/wincompat.c:1906-1919 | whenever the prune renames, the target is free, not above the source, and no log lies between |
| `BlackboxRace.PassLeavesAllowed` | src/wincompat.c:1891-1893 | a pass sets aside the oldest of the logs it listed so that the cap is left, and none for a negative cap |
| `BlackboxRace.RequestIsNotLost` | src/wincompat.c:2065-2067 | the prune requested for a new log stays requested until the MSP thread takes it |
| `BlackboxRace.PrunesFollowRequests` | src/wincompat.c:1981-1984 | and is taken once: the MSP thread prunes no more often than logs were created |
| `BlackboxRace.SeededNumberIsNext` | src/wincompat.c:1942-1966 | seeding makes the next number one more than the highest in the folder |
| `BlackboxRace.RunsAreSafe` | src/wincompat.c:2036-2067 | over every interleaving, changes of the cap included as long as each stored count covers: no log is overwritten, number order is creation order, every log ever created is there or was pruned and never both, pruned logs are older than all remaining ones, and the counter covers the folder |
| `BlackboxRace.RunIsAccounted` | src/wincompat.c:2036-2067 | over any run from start-up, however long, every log ever created is in exactly one place: there, pruned or overwritten |
| `BlackboxRace.NothingIsLostIff` | src/wincompat.c:2058-2059 | over any run, whatever counts are stored, every log ever created is there or was pruned if and only if the wrapped number of every log created was free |
| `BlackboxRace.CapOverwritesNewestLog` | src/wincompat.c:2167-2180 | a run from start-up in which the cap is changed while log 3 is recorded and the next log overwrites it |
| `BlackboxRace.WrapOverwrites` | src/wincompat.c:2058 | a run from start-up in which log 100001 overwrites log 1 |
| `Circular.PushExtends` | src/sitl_local.c:314-320 | storing at the head and advancing it appends to the queue, when a slot is free |
| `Circular.PopTakesOldest` | src/sitl_local.c:355-376 | the slot at the tail is the oldest element; advancing the tail removes it |
| `Circular.PushOntoFullForgets` | src/serial_tcp_win.c:406-411 | advancing the head onto the tail turns a full ring into an empty one |
| `Circular.QueueInChunks` | src/serial_tcp_win.c:444-454 | the queue is one stretch of the buffer, or two when it goes round the end |
| `BurstRing.Ring.Push` | src/sitl_local.c:311-321 | appends unless 4095 records are queued; then only the drop counter changes |
| `BurstRing.Ring.Drain` | src/sitl_local.c:354-376 | writes the queued records in order and empties the ring |
| `BurstRing.FullTest` | src/sitl_local.c:314-316 | the index comparison detects exactly the ring with 4095 records |
| `BurstRing.StepKeepsInv` | src/sitl_local.c:311-321 | every separate read or write of head, tail and slot, half-copied slots included, keeps the ring invariant |
| `BurstRing.StepRefinesFifo` | src/sitl_local.c:303-321 | each such step is one step of a FIFO of capacity 4095: publishing enqueues, advancing the tail dequeues, a push is refused if and only if the FIFO is full, other steps change nothing |
| `BurstRing.SlotBeingReadIsStable` | src/sitl_local.c:354-376 | while the drain reads a slot no step of the flight thread changes it |
| `BurstRing.RunsDeliverInOrder` | src/sitl_local.c:303-376 | over every interleaving the records written are the first accepted ones, in order and undamaged, the rest is queued, and the drop counter is the number of refused pushes |
| `HostClock.StepQuantum` | src/sitl_local.c:1100-1107 | the halving loop ends, for every grid, with the quantum the lemmas below are about |
| `HostClock.QuantumIsFirstDivisor` | src/sitl_local.c:1100-1107 | the quantum is the first of 100, 50, 25, 12, 6, 3, 1 that divides the grid, and 100 without a grid |
| `HostClock.QuantumDividesGrid` | src/sitl_local.c:2030-2038 | the quantum divides the gyro period, for every period |
| `HostClock.QuantumIsLargestPowerOfTwoIff` | src/sitl_local.c:1097-1107 | the code computes the largest power of two promised by the comment if and only if the grid is divisible by none of 2, 3 and 25 |
| `HostClock.LocalClock.SnapStep` | src/sitl_local.c:1806-1834 | the snapped step, with the 32-bit arithmetic of the code |
| `HostClock.NearStepIsSnapped` | src/sitl_local.c:1802-1804 | a step within three tenths of the grid of a positive multiple becomes that multiple |
| `HostClock.OtherStepIsUntouched` | src/sitl_local.c:1802-1804 | a step near no positive multiple is passed through |
| `HostClock.WrappedStepIsUntouched` | src/sitl_local.c:1806-1834 | a step for which the 32-bit sum wraps round is passed through |
| `HostClock.SnapNeedsGrid` | src/sitl_local.c:1806-1834 | without a gyro grid or with snapping switched off every step is passed through |
| `HostClock.SnapIsIdempotent` | src/sitl_local.c:1806-1834 | a snapped step is not moved by snapping again |
| `HostClock.LocalClock.Consume` | src/sitl_local.c:2050-2054 | the loop advances the clock by the whole quanta and runs the scheduler once after each |
| `HostClock.LocalClock.Step` | src/sitl_local.c:2046-2054 | one host step moves clock, remainder and pass times by the snapped step, whatever came before |
| `HostClock.StepConservesIffNoWrap` | src/sitl_local.c:2048-2049 | clock plus remainder grows by exactly the step if and only if the 32-bit sum does not wrap; if it does, 2^32 us are lost |
| `HostClock.RunConservesTime` | src/sitl_local.c:2041-2054 | over any steps, even with a changing grid, clock plus remainder is the start plus the snapped steps |
| `HostClock.RunClosedForm` | src/sitl_local.c:2041-2054 | with a fixed grid: clock = start + q * floor((remainder + steps) / q), the rest is the remainder, and the scheduler ran exactly once per quantum |
| `HostClock.DeadlinesAreHitIff` | src/sitl_local.c:2030-2038 | a deadline passed is met by a scheduler pass at exactly that time if and only if clock and deadline agree modulo the quantum |
| `HostClock.DeadlinesStayOnQuantum` | src/sitl_local.c:2030-2038 | deadlines one gyro period apart stay on the quantum |
| `VirtualClock.TicksHitExactlyTheGrid` | src/sitl_local.c:2050-2054 | the scheduler's pass times are exactly the quantum multiples the clock passes |
| `FdmClock.UdpClock.UdpRecv` | src/udplink_windows.c:387-409 | the three branches on a timestamp are Receive, which the three lemmas below are about |
| `FdmClock.ShortGapIsAccepted` | src/udplink_windows.c:390-397 | a difference of up to 5 000 000 us, the carried fraction included, is accepted in full: whole microseconds to commit and a fraction below one |
| `FdmClock.OtherGapIsDropped` | src/udplink_windows.c:398-407 | a longer difference, or time that goes back, is dropped together with the fraction and the uncommitted time |
| `FdmClock.FirstOrSameTimeAddsNothing` | src/udplink_windows.c:390-408 | the first timestamp and a repeated one add nothing and drop nothing |
| `FdmClock.UdpClock.CommitPending` | src/udplink_windows.c:179-188 | moves the microseconds of the packet to the published ones |
| `FdmClock.UdpClock.TakePending` | src/udplink_windows.c:171-174 | moves everything published to the run loop |
| `FdmClock.UdpClock.ConsumeQuanta` | src/main_windows.c:416-420 | consumes all whole 100 us quanta with one scheduler pass each |
| `FdmClock.DrainedIsTicks` | src/main_windows.c:413-424 | the loop is as many single quanta as fit |
| `FdmClock.StepConserves` | src/udplink_windows.c:149-188 | every atomic access of either thread conserves time and keeps the clock on its quanta |
| `FdmClock.RunConserves` | src/main_windows.c:390-424 | over every interleaving and any packets: clock advance + taken + published + in flight + uncommitted + fraction = accepted differences less what was discarded |
| `FdmClock.ClockNeverPassesAccepted` | src/wincompat.c:2303-2309 | over every interleaving and any packets, early returns and resyncs included, the clock has advanced by no more than the time accepted up to the last packet whose sensors are written |
| `FdmClock.ClockNeverPassesSensors` | src/wincompat.c:2303-2309 | when timestamps do not go back, the clock never passes the time of the last packet whose sensors are written, whichever updates return early and whichever gaps are discarded |
| `FdmClock.QuietClockTelescopes` | src/udplink_windows.c:387-410 | for every stream whose gaps are at most 4.999999 s, updates that return early included: when nothing is in flight the clock has advanced by exactly the whole 100 us quanta between the first and the last timestamp, less the time overwritten and the time not committed yet |
| `FdmClock.NothingIsMissingIff` | src/udplink_windows.c:397 | nothing is missing if and only if no later packet ever arrived over uncommitted time and none is uncommitted now |
| `FdmClock.CompletedUpdatesLoseNothing` | src/udplink_windows.c:149-188 | with no update returning early no packet ever arrives over uncommitted time |
| `FdmClock.SkippedUpdateLosesTime` | src/udplink_windows.c:397 | three packets 50 us apart, the second update returns early: the clock never sees 50 of the 100 us |
| `EepromSwitch.LocalLink.SetEepromPath` | src/sitl_local.c:751-780 | notes the path, or for an empty one the default under LOCALAPPDATA; fails with -1 and no change from 1024 characters on |
| `EepromSwitch.LocalLink.FlushEepromWrite` | src/sitl_local.c:742-749 | clears the pending persist, stores RAM in the file of the aircraft still selected and closes it |
| `EepromSwitch.FlushSavesSelected` | src/sitl_local.c:736-749 | the selected aircraft's file and the mirror hold RAM, and no file is open |
| `EepromSwitch.LocalLink.SwitchPath` | src/sitl_local.c:836-852 | points the environment at the requested file and erases the mirror if that file is new |
| `EepromSwitch.LocalLink.LoadSelectedFile` | src/sitl_local.c:869-918 | opens, compares hashes, then applies defaults, values and pins |
| `EepromSwitch.LocalLink.EnsureStructureIsValid` | src/sitl_local.c:885-889 | an erased mirror becomes the factory defaults, in RAM and in the file; any other is left alone |
| `EepromSwitch.LocalLink.RunPendingReload` | src/sitl_local.c:827-928 | flush, then switch, then load: the old file is written before the path moves and the new one is read after |
| `EepromSwitch.ReloadInClosedForm` | src/sitl_local.c:827-928 | the whole sequence in closed form: the file being left holds the RAM being left; RAM becomes factory defaults, the stored values, or stays |
| `EepromSwitch.LocalLink.Step` | src/sitl_local.c:1873-1897 | the gates at the start of a step: a reboot waits for disarming, a reload or path switch does not |
| `EepromSwitch.LocalLink.PollMspThread` | src/sitl_local.c:1064-1072 | the deferred reset and the deferred persist of the MSP thread |
| `EepromSwitch.NoPathChangeKeepsConfig` | src/sitl_local.c:869-884 | without a path change reload and reboot end at the identical-image check, for any hash: RAM unchanged, and stored in its file; an edit of the file from outside is overwritten, not read |
| `EepromSwitch.SwitchKeepsTheOldAircraft` | src/sitl_local.c:829-834 | the file left holds the RAM it was left with, an existing selected file keeps its content, and no third file is touched |
| `EepromSwitch.SwitchLoadsTheNewAircraft` | src/sitl_local.c:869-918 | when the hashes differ RAM gets the stored values (factory defaults for an erased file) with the PWM backend, the build's telemetry flag, the UDP receiver and both ADC meters; when they agree RAM stays |
| `EepromSwitch.SwitchToNewAircraft` | src/sitl_local.c:840-849 | a path that did not exist gets factory defaults in its file and in RAM, there with the pinned settings |
| `EepromSwitch.SwitchToMissingDefaultInherits` | src/sitl_local.c:845-846 | the empty path is the exception: a missing default file inherits the aircraft being left |
| `EepromSwitch.OpTouchesOnlySelected` | src/sitl_local.c:736-741 | every operation writes at most to the files selected before and after it, and deletes none |
| `EepromSwitch.UnselectedFileIsKept` | src/sitl_local.c:736-741 | over any run, a file keeps its content while another aircraft is selected |
| `EepromSwitch.ReturningRestoresTheAircraft` | src/sitl_local.c:742-928 | A to B and back to A, with anything in between, restores A's values, with A's own pins or those the link sets, unless the hash confuses two different images |
| `EepromSwitch.RepinSetsPins` | src/sitl_local.c:586-628 | re-pinning sets PWM, telemetry, the UDP receiver and both ADC meters, whatever was configured, and nothing else |
| `EepromSwitch.StepServesRequests` | src/sitl_local.c:1873-1897 | a step that may act leaves nothing pending, has moved to the requested path and stored the running configuration; without a request it changes nothing |
| `EepromSwitch.PollStoresPending` | src/sitl_local.c:1064-1072 | a poll stores RAM in the selected file if a reset or a persist was pending, leaves neither pending, and otherwise changes nothing |
| `EepromSwitch.RebootRequestIsServed` | src/wincompat.c:171-207 | a requested reboot disarms, so the next step applies it |
| `EepromSwitch.ReloadRequestIsServed` | src/sitl_local.c:782-795 | a requested reload is applied by the next step unless a reboot waits for disarming |
| `EepromSwitch.PersistRequestIsServed` | src/sitl_local.c:1064-1072 | a requested reset or persist is written by the next poll |
| `EepromSwitch.ArmedStepsAreAsIfNotTaken` | src/sitl_local.c:1873-1883 | a pending reboot waits while armed and holds back everything else: over any run whose steps are all taken armed, the result is that of the run without the steps, the reboot is still pending and no aircraft is switched |
| `EepromSwitch.RebootIsNeverLost` | src/sitl_local.c:949-959 | a pending reboot disappears only in a step taken unarmed that applies it |
| `EepromInterleaving.StagesAreOneStep` | src/sitl_local.c:827-928 | the stages of the reload, one after the other with nothing in between, are the step of the sequential model |
| `EepromInterleaving.PersistKeeps` | src/sitl_local.c:1069-1072 | what a persist of the MSP thread does between any two stages: RAM goes to the old file, to the new one, or changes nothing, by the stage |
| `EepromInterleaving.SwitchOutcome` | src/sitl_local.c:827-928 | for every run that interleaves edits and persists with the stages: the old file holds what was last saved there, no third file is touched, the selected file stands for the predicted image, and RAM, unless the images compared hash alike, has that image's values with the link's five pinned settings |
| `EepromInterleaving.OldFileHoldsLastWrite` | src/sitl_local.c:742-749 | the old file ends with the RAM of the flush or of the last persist before the new file is selected |
| `EepromInterleaving.HitIsLastPersist` | src/sitl_local.c:850-900 | what hits the new file is the RAM of the last persist between its selection and its load |
| `EepromInterleaving.ExistingFileSurvivesIff` | src/sitl_local.c:850-900 | an existing selected file keeps its configuration if and only if no persist comes between the change of the environment and the load, or the last one stored that very configuration |
| `EepromInterleaving.RamArrivesIff` | src/sitl_local.c:874-900 | RAM is left alone if the images compared hash alike; otherwise it gets that file's values if and only if no such persist came, or the last one stored these values |
| `EepromInterleaving.NewFileGetsDefaultsIff` | src/sitl_local.c:845-889 | a new file and RAM get factory defaults if and only if no persist comes between the erasing of the mirror and the load, or the last one stored them |
| `EepromInterleaving.EditIsLost` | src/sitl_local.c:827-900 | an edit made after the flush and not persisted before the switch is done goes nowhere: both files and the loaded RAM are those decided by the steps before it; only a reload that finds equal images leaves it in RAM |
| `EepromInterleaving.UneditedSwitchIff` | src/sitl_local.c:850-900 | without edits: the old file holds the aircraft being left; an existing file survives if and only if no persist hits it, or it was that aircraft anyway, and RAM gets its values if and only if, besides, the images do not hash alike |
| `EepromInterleaving.UneditedNewFileIff` | src/sitl_local.c:845-889 | without edits a new file and RAM get factory defaults if and only if no persist comes between the erasing of the mirror and the setting of the defaults, or the aircraft being left had them too |
| `WsFrame.MaskedTwice` | src/ws_proxy_win.c:361-365 | masking twice with one key gives the payload back |
| `WsFrame.XorIsExclusiveOr` | src/ws_proxy_win.c:361-365 | each of the eight bits of the result is set exactly where the two bytes differ |
| `WsFrame.ParseReadsEncoded` | src/ws_proxy_win.c:317-379 | reading any encoded frame, in any of the three length forms, masked or not, whatever follows, gives the frame and consumes exactly its bytes |
| `WsFrame.ParseIsInverseOfEncode` | src/ws_proxy_win.c:317-379 | the reader yields a frame after n bytes if and only if the frame fits the 65536-byte buffer and the stream starts with its n-byte encoding |
| `WsFrame.EncodingsArePrefixFree` | src/ws_proxy_win.c:317-355 | a stream starts with the encoding of one frame only |
| `WsFrame.ReadsTheWire` | src/ws_proxy_win.c:317-379 | byte by byte: a frame is read exactly when header, extended length (codes 126 and 127), key and payload are all there and the payload has at most 65536 bytes; opcode from the low four bits; each payload byte as it is, or exclusive-ored with its key byte |
| `WsFrame.SentOnTheWire` | src/ws_proxy_win.c:294-315 | byte by byte: what is sent is final and unmasked, with the shortest of the three lengths and the payload behind it |
| `WsSocket.Socket.SendAll` | src/ws_proxy_win.c:135-145 | all the data is sent, whatever pieces send() takes |
| `WsSocket.Socket.ReadFull` | src/ws_proxy_win.c:147-158 | the buffer gets exactly the next len bytes, whatever pieces recv() returns, or the stream ended first |
| `WsSocket.Socket.SendFrame` | src/ws_proxy_win.c:294-315 | header and payload sent are the encoding of the outgoing frame |
| `WsSocket.PutLength64` | src/ws_proxy_win.c:307-311 | the loop writes the length's eight bytes, most significant first |
| `WsSocket.ValueOfArray` | src/ws_proxy_win.c:340-345 | the loop accumulates the eight bytes to their big-endian value |
| `WsSocket.Unmask` | src/ws_proxy_win.c:361-365 | every payload byte in the buffer becomes its exclusive or with its key byte, bit by bit |
| `WsSocket.Socket.ReceiveFrame` | src/ws_proxy_win.c:317-367 | succeeds if and only if Parse does, with the payload in the buffer that the stream's bytes stand for, and the stream just behind the frame |
| `WsSocket.Socket.ReadFrame` | src/ws_proxy_win.c:317-379 | as ReceiveFrame; a ping is answered with a pong of the same payload, opcode 8 sets the close flag, 1 and 2 clear it |
| `WsBridge.Bridge.TcpReady` | src/ws_proxy_win.c:455-461 | the bytes received go out in one binary frame; nothing received ends the session |
| `WsBridge.Bridge.WsReady` | src/ws_proxy_win.c:463-471 | a frame's payload goes to TCP; a close frame or a failed read ends the session |
| `WsBridge.Bridge.Forward` | src/ws_proxy_win.c:441-472 | for every sequence of select() results both sockets end with the bytes of Run, the function the theorems below are about |
| `WsBridge.RunCarries` | src/ws_proxy_win.c:441-472 | over any run the link has carried exactly the frames read and sent |
| `WsBridge.TcpStreamSurvives` | src/ws_proxy_win.c:455-461 | for every way the TCP stream is cut, a reader of the WebSocket side finds binary payloads that concatenate to exactly the bytes taken from TCP |
| `WsBridge.FramingIsUnique` | src/ws_proxy_win.c:317-379 | a byte stream can be cut into frames in one way only |
| `WsBridge.FramesReachTcp` | src/ws_proxy_win.c:463-471 | for every framing of the client's stream TCP has got the payloads of the first frames, in order, up to a close |
| `WsBridge.WholeStreamReachesTcp` | src/ws_proxy_win.c:463-471 | when the client was ready once per frame and the session lasts, TCP has got all payloads |
| `WsBridge.SessionLastsIff` | src/ws_proxy_win.c:441-472 | the session ends exactly with the first round that finds TCP closed, no whole frame, or a close frame |
| `WsBridge.WholeTcpStreamReachesClient` | src/ws_proxy_win.c:455-461 | while it lasts and recv() may return enough, at most 4096 bytes a time, the client gets the whole TCP stream |
| `WsBridge.PingsAreAnswered` | src/ws_proxy_win.c:371-372 | pings read and pongs a reader finds match one to one, payload by payload |
| `WsBridge.TcpGetsDataIffControlsEmpty` | src/ws_proxy_win.c:374-378 | control payloads are forwarded too: over any run and any framing of the client's stream, TCP got exactly the data frames' payloads if and only if every control frame read was empty |
| `WsBridge.PingPayloadReachesTcp` | src/ws_proxy_win.c:371-378 | any ping that is not empty shows it: its payload goes back in the pong and to TCP as well |
| `SerialRing.TcpPort.RxWaiting` | src/serial_tcp_win.c:356-365 | the number of bytes waiting |
| `SerialRing.TcpPort.TxFree` | src/serial_tcp_win.c:367-377 | the number of bytes that still fit |
| `SerialRing.TcpPort.DataIn` | src/serial_tcp_win.c:500-522 | appends exactly the longest prefix that fits and drops the rest |
| `SerialRing.TcpPort.Read` | src/serial_tcp_win.c:388-400 | takes the oldest byte; on an empty ring the ring afterwards looks full of stale bytes |
| `SerialRing.TcpPort.DataOut` | src/serial_tcp_win.c:437-459 | takes exactly the pending bytes, in order, in at most two chunks, and empties the ring |
| `SerialRing.TcpPort.Write` | src/serial_tcp_win.c:402-414 | the pending bytes and the new one go out; on a full ring nothing does |
| `SerialRing.TcpPort.WriteBuf` | src/serial_tcp_win.c:420-435 | the batch is put byte by byte behind the pending bytes, without a room check, and all of it is taken out to send |
| `SerialRing.PutAllKeepsTheEnd` | src/serial_tcp_win.c:425-432 | without a room check the ring keeps the end of the stream, losing whole rings |
| `SerialRing.WriteBufSendsAllIffItFits` | src/serial_tcp_win.c:416-419 | on an empty ring a batch is sent complete if and only if it is smaller than the ring: the caller's check is necessary and sufficient |
| `SerialRing.TcpPort.RunRx` | src/serial_tcp_win.c:356-400 | any sequence of arrivals and guarded reads leaves in the ring, and returns, exactly what the trace below says |
| `SerialRing.RxRunIsFifo` | src/serial_tcp_win.c:388-400 | over any such run the bytes read are the bytes accepted, in order, and the difference is what is in the ring |
| `ClientSlots.ClientTable.Accept` | src/serial_tcp_win.c:174-187 | registers in the lowest free slot, or turns the client away when all eight are taken |
| `ClientSlots.ClientTable.Disconnect` | src/serial_tcp_win.c:85-96 | takes the client out if and only if the slot still holds its socket |
| `ClientSlots.ClientTable.SendToAll` | src/serial_tcp_win.c:461-497 | the broadcast takes out exactly the clients whose send failed |
| `ClientSlots.ClientTable.DropAll` | src/serial_tcp_win.c:296-305 | no client is left, count 0, not connected |
| `ClientSlots.AcceptedIsConsistent` | src/serial_tcp_win.c:175-186 | an accept keeps counter and flag right, and changes nothing if and only if eight are connected |
| `ClientSlots.RemovedIsConsistent` | src/serial_tcp_win.c:86-95 | taking out an occupied slot keeps counter and flag right; the guard against a zero counter is never needed |
| `ClientSlots.BroadcastIsConsistent` | src/serial_tcp_win.c:462-496 | a broadcast keeps counter and flag right and empties exactly the failing slots |
| `ClientSessions.StepKeepsInv` | src/serial_tcp_win.c:81-112 | every locked section and every later check keeps the invariant |
| `ClientSessions.HeldCount` | src/serial_tcp_win.c:85-95 | when no client is in two slots, the number of occupied slots is the number of different clients in them |
| `ClientSessions.EveryClientIsAccountedFor` | src/serial_tcp_win.c:81-187 | over every interleaving: the counter is the number of different clients in the slots, the flag is set if and only if there is one, and every client ever accepted is in exactly one of four disjoint sets: in a slot, left, failed, dropped |
| `ClientSessions.HeldLater` | src/serial_tcp_win.c:81-187 | who is connected later: those connected now and those accepted since, less those gone by then |
| `ClientSessions.LeaveRemovesItsOwnClient` | src/serial_tcp_win.c:85-96 | a leaving thread empties the slot with its own socket and no other |
| `ClientSessions.StaleLeaveChangesNothing` | src/serial_tcp_win.c:85-96 | table and counters stay as they are if and only if the client had been taken out before |
| `ClientSessions.PromptCheckIsRight` | src/serial_tcp_win.c:98-111 | with nothing between departure and check, exit noreboot is fed if and only if the client was the last |
| `ClientSessions.CheckFeedsIffEmpty` | src/serial_tcp_win.c:107-110 | whatever happens in between, it is fed if and only if nobody is connected at the check |
| `ClientSessions.FedAgreesWithLastIff` | src/serial_tcp_win.c:98-111 | for a client's departure and its later check in any run: feeding the port agrees with having been the last if and only if, for the last, all accepted since have gone again and, for another, somebody connected then or since still is |
| `ClientSessions.LostClientNeverFeeds` | src/serial_tcp_win.c:486-495 | a client lost to a failed send or a drop never feeds the port, whatever happens later |
| `ClientSessions.LateCheckInjectsForAnother` | src/serial_tcp_win.c:101-110 | a run from the empty table in which a client that was not the last one feeds the port and the one that was never does |
| `ClientSessions.NoInjectionAfterDrop` | src/serial_tcp_win.c:290-307 | when failed sends or a drop emptied the table, nothing is fed until another client is accepted |
| `ClientSessions.LateThreadHitsIffHandleReused` | src/serial_tcp_win.c:86 | a late thread takes out the client that took over its slot if and only if that client has the same handle |
| `OsdGlyphs.FontIsPerDirectory` | src/sitl_osd.c:200-222 | two EEPROM paths share a font file if and only if they are in the same directory |
| `OsdGlyphs.FontPathIs` | src/sitl_osd.c:200-222 | the font is osd_font.bin in the EEPROM file's directory; there is none without a directory or from 248 characters on |
| `OsdGlyphs.MarkAddsOne` | src/sitl_osd.c:495-499 | setting a glyph's bit raises the number of bits set by one if it was clear and by none otherwise |
| `OsdGlyphs.PatchedGlyph` | src/sitl_osd.c:494 | storing a glyph changes that character's 54 bytes and no others |
| `OsdFontCache.FontCache.WriteFontCharacter` | src/sitl_osd.c:479-515 | a glyph goes to its place, its bit and the counter follow, address 0 starts over, and a font waits for its save when none is missing, as WaitsSinceFull says; an address beyond 255 changes nothing |
| `OsdFontCache.FontCache.SyncLocked` | src/sitl_osd.c:271-300 | the locked part of a synchronisation and what it leaves to do |
| `OsdFontCache.FontCache.LoadFile` | src/sitl_osd.c:245-265 | a stored font of the right size becomes the live one; a missing or other file is ignored |
| `OsdFontCache.FontCache.SyncWithPath` | src/sitl_osd.c:271-312 | a synchronisation without interruption is AfterSync: saved under the old path, then loaded from the new one |
| `OsdFontCache.FontCache.GetFont` | src/sitl_osd.c:707-724 | after synchronising, the font if it is complete; a buffer that is too small gets nothing and does not synchronise |
| `OsdFontCache.FontCache.GetFontRevision` | src/sitl_osd.c:694-702 | after synchronising, the revision, or 0 while the font is incomplete |
| `OsdFont.SyncIsItsSteps` | src/sitl_osd.c:271-312 | without interruption the synchronisation is its locked part, then the save if one is due, then the load if the path moved to one |
| `OsdFont.StepKeepsValid` | src/sitl_osd.c:162-165 | every glyph, path change, save and load keeps the counter equal to the number of bits set |
| `OsdFont.StepRefinesTable` | src/sitl_osd.c:479-512 | each step on buffer and bitmap is one step on a plain table from addresses to glyphs |
| `OsdFont.GetterReturnsExactlyTheGlyphs` | src/sitl_osd.c:711-723 | over any run the getter returns a font if and only if all 256 glyphs were written since the last address 0 or loaded, and every glyph is the last one written to its address |
| `OsdFont.WaitsSinceFull` | src/sitl_osd.c:500-509 | a font waits for its save exactly from a glyph after which the table holds all 256 addresses to the next synchronisation |
| `OsdFont.OnlyFullTablesAreSaved` | src/sitl_osd.c:500-509 | over any run from start-up no file changes as long as no glyph has left the table with all 256 addresses |
| `OsdFont.FullTableIsSaved` | src/sitl_osd.c:282-306 | a glyph that leaves the table full makes the next synchronisation save all 256 glyphs under the cached path, and no other file |
| `OsdFont.SameRevisionMeansSameFont` | src/sitl_osd.c:691-693 | an unchanged revision other than 0 means the same font of the same aircraft, as long as fewer than 2^32 glyphs and loads lie between |
| `OsdFont.RevisionIsNumberOfChanges` | src/sitl_osd.c:694-702 | over any run from start-up the revision reported is the number of glyphs and loads so far, modulo 2^32, while all 256 characters are there, and otherwise 0 |
| `OsdPersistence.StepKeepsFonts` | src/sitl_osd.c:267-312 | one guarded step, a refused save included, keeps every aircraft's font, the last that filled all 256 addresses while the EEPROM path named it, in its own file, on its way there, or on the list of refused ones |
| `OsdPersistence.FontsStayWithTheirAircraft` | src/sitl_osd.c:267-312 | over any guarded run a font the host can read belongs to the cached aircraft, and once nothing waits the disk holds exactly the last font flashed while each aircraft was named; only an aircraft whose last save was refused is excepted |
| `OsdPersistence.SwitchGivesTheNewAircraftsFont` | src/sitl_osd.c:287-311 | after a switch, whether the old font's save succeeds or not, the getter returns exactly the 13824 bytes last flashed while the new aircraft was named, or nothing if it has no font |
| `OsdPersistence.SyncInClosedForm` | src/sitl_osd.c:271-312 | after a synchronisation nothing waits and the path followed is the named one; a waiting font is saved under the path followed before; if the path moved the table is the new aircraft's stored font or empty |
| `OsdPersistence.RefusedSaveIsNotRepeated` | src/sitl_osd.c:224-243 | a refused save is not tried again: the host goes on seeing the font and no file has it |
| `OsdUploads.UploadHasOnePath` | src/sitl_osd.c:287-294 | while no stored font replaces it, the cached path does not move between an upload's address 0 and its completion |
| `OsdUploads.GlyphArrivesIff` | src/sitl_osd.c:254-259 | in any run the buffer ends with the glyph sent to an address if and only if no font loaded after it has another glyph there |
| `OsdUploads.UploadReachesItsAircraftIff` | src/sitl_osd.c:282-306 | in any run, switches and loads during the upload included: the font that waits is saved in the file of the aircraft it was flashed for with the glyphs sent if and only if the cached path followed the EEPROM path at the last glyph, every address was sent, and every address a stored font was loaded over since has the same glyph there |
| `OsdUploads.LoadReplacesCompletedUpload` | src/sitl_osd.c:254-259 | a complete upload between the lock and the load of a switch is replaced by the stored font; it is neither saved nor shown |
| `OsdUploads.GlyphAfterLoadCompletesMixture` | src/sitl_osd.c:479-512 | with only address 0 sent before that load, the next glyph completes and saves a mixture with the stored font |
| `OsdUploads.UploadBeforeSyncOverwritesOther` | src/sitl_osd.c:479-512 | an upload completed after the path moved and before the next synchronisation goes over the other aircraft's file, and its own gets neither file nor font |
| `OsdPersistence.SyncSavesUnderCachedPath` | src/sitl_osd.c:282-306 | a completed font is saved under the cached path, if there is one, whatever path is named by then |
| `OsdPersistence.FontFlashedBeforeFirstSyncIsDropped` | src/sitl_osd.c:287-306 | a font flashed before the first synchronisation is neither saved nor shown |
| `OsdUploads.SavedImageIsTheFontIff` | src/sitl_osd.c:282-286 | what is saved after further glyphs is the completed font if and only if each address written since ended with the glyph it had: otherwise a mixture |
| `RcCadence.Receiver.FrameStatus` | src/sitl_local.c:453-464 | a frame is announced if and only if data is valid and 8000 us have passed |
| `RcCadence.FramesKeepTheirDistance` | src/sitl_local.c:2014-2016 | frames are at least 8000 us apart and, with polls at most p apart, less than 8000 + p |
| `RcCadence.NoFrameBeforeData` | src/sitl_local.c:453-464 | before the host has sent stick data no frame is announced |
| `RcCadence.CountFollowsTime` | src/sitl_local.c:453-464 | the frame count is bounded above and below by the time elapsed |
| `RcCadence.GridCadenceIsExact` | src/sitl_local.c:1204-1207 | with polls on a period dividing 8000 from the anchor, frame k comes at anchor + 8000 k and the count is exactly floor(elapsed / 8000) |
| `CrashFlip.CrashFlipLatch.Update` | src/sitl_local.c:1664-1681 | the next latch from the previous one, the arming flag and the box |
| `CrashFlip.LatchedIffHeldSinceArming` | src/sitl_local.c:1646-1655 | the latch is on if and only if the craft is armed and the box was on at the arm edge and at every step since |
| `DirChain.FindLast` | src/main_windows.c:127-128 | the last position of a character before the NUL |
| `DirChain.FileSystem.CreateDirectoryChain` | src/main_windows.c:118-142 | ends, leaves the caller's buffer as it was on every outcome, and changes the tree as Chain does |
| `DirChain.ChainOnlyAdds` | src/wincompat.c:1782-1806 | nothing is removed or changed, and everything new is a directory that is a prefix of the path |
| `DirChain.RootIs` | src/main_windows.c:118-120 | nothing is created for exactly the empty path and a drive |
| `DirChain.SuccessMeansWholeChain` | src/wincompat.c:1780-1806 | on success in a parent-closed tree the path and all its ancestors are directories |
| `DirChain.SucceedsIffNothingBlocks` | src/main_windows.c:117-142 | without stray separators it succeeds if and only if no component is a file or a missing directory that may not be created |
| `DirChain.TrailingSeparatorMakesNoParents` | src/main_windows.c:132 | with a trailing separator no parent is created: success if and only if the parent is there already |

## Left out

- The Betaflight internals: scheduler, filters, PID, mixer, MSP and CLI parsers, parameter
  groups. `EepromSwitch` represents the firmware's storage by what it is known to do:
  writeEEPROM stores RAM in the mirror and in the selected file, configUnlock reads or creates
  the file named by the environment, loadEEPROM copies the mirror to RAM.
- EepromSwitch.Poll: in the runs of `EepromSwitch` a step and a poll of the MSP thread are each
  one atomic operation. `EepromInterleaving` takes the switch apart and puts edits and persists
  between its stages; a single writeEEPROM is one atomic operation there too.
- EepromInterleaving.SwitchOutcome: no edit between the load and the re-application of the
  pins; it is one of the aircraft just loaded.
- The hash of the EEPROM image is an arbitrary function and collisions are an explicit
  condition; that FNV-1a is what the code computes plays no role.
- What a reload re-initialises besides the values (filters, mixer, profiles) and the rebuild
  gates: they are firmware state.
- A path request is one atomic operation; the path text and its flag are two writes in the
  code. An environment or path longer than its buffer is not modelled beyond the rejection of
  paths of 1024 characters.
- BlackboxWindow.HousekeepingIsRollingWindow: assumes well-formed log names, positive numbers,
  at most 1024 logs and an open log that is the newest, as the code does;
  `HousekeepingOverwritesNothing` assumes none of this.
- BlackboxRace.StepKeepsInv: a directory listing may miss logs created while it is taken and may
  be cut off at 1024, but shows no log without the older ones; a listing in another order that
  is cut off, or that misses the older of two logs created meanwhile, is not modelled.
- BlackboxRace.RunsAreSafe: for counters of five digits and stored counts that cover the folder;
  otherwise `NothingIsLostIff`. Changing the directory during a run is not modelled.
- The legacy open that scans and prunes on the flight thread, the throttled flush and the
  crash-line printer are not modelled.
- BurstRing: sequential consistency is assumed; opening and closing the burst file and the
  reset of the drop counter are not modelled, nor is the formatting of a record.
- FdmClock.UdpClock.UdpRecv: timestamps are reals, so floating-point rounding is not
  modelled. sitlUdpFdmReset has no caller and is not modelled. Neither is the fast-forward to
  the first gyro deadline.
- HostClock: the 64-bit clock does not wrap in the model; the 32-bit step sum does.
- HostClock.NearStepIsSnapped: for gyro grids below 2^32 / 10 us, where the 32-bit products of the
  comparison do not wrap; so does `OtherStepIsUntouched`.
- RcCadence.FramesKeepTheirDistance: starts once stick data is valid; the anchor is the init
  time. The 64-bit microsecond clock does not wrap.
- The WebSocket handshake (SHA-1 and base64 come from a library) and the session table.
- WsSocket.Socket.SendAll: sending does not fail; a failed send drops the rest in the code and
  the session ends with the next read.
- WsSocket.Socket.ReadFull: a receive time-out is an end of the stream.
- SerialRing.TcpPort.DataOut: what each client's non-blocking send takes of the bytes is not
  modelled; `ClientSlots` models which sends fail.
- ClientSessions.EveryClientIsAccountedFor: accepted socket handles are assumed to be new; what happens
  otherwise is `LateThreadHitsIffHandleReused`. Turning a client away, the listener and its
  restart are not modelled further.
- OsdPersistence.FontsStayWithTheirAircraft: assumes that no glyph arrives while the EEPROM path
  names another aircraft than the cached one, while a completed font waits for its save, or
  while a switch is between lock and load. For the first and the last of these
  `UploadReachesItsAircraftIff` says what happens, for the second `SavedImageIsTheFontIff`. An
  aircraft whose last save was refused is excepted (`RefusedSaveIsNotRepeated`). Short writes,
  two host threads sharing the save buffer, and files changed by others are not modelled.
- The OSD cell grid, diagnostics, audit log, environment parsing, port selection and simple
  getters and setters.
- DirChain: paths are compared as strings, so different spellings of one path are different
  paths, and the two separators are not identified; another process changing the tree between
  the attribute query and the creation is not modelled.
- Floating-point sensor maths, RPM and notch diagnostics, the tools, the launch scripts and
  the build files.
