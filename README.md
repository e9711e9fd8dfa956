# Paged memory and process life cycle of os_process_simulator, in Dafny

This project models the simulation services of os_process_simulator, an
educational operating-system simulator:

- the physical frame table with its Clock pointer (`memory.js`);
- per-process page tables (`pageTable.js`);
- the swap device with its operation log (`disk.js`);
- the page-fault handler with second-chance (Clock) replacement (`pageFaultHandler.js`);
- the MMU, which keeps the pid → page-table registry, translates addresses,
  dispatches page faults and allocates and frees a process's frames in bulk (`mmu.js`);
- the process state machine (`fsm.js`);
- the simulation engine's automatic step and its mode, speed and timer flag (`engine.js`);
- the PID generator (`pidGenerator.js`).

The layout follows the source, one module per file.

- **Module state becomes classes.** Each service whose module state the
  source mutates is a class: `Frames.Memory`, `Swap.Disk`,
  `FaultHandler.PageFaultHandler`, `Mmu.Mmu`, `Fsm.Process`, `Engine.Engine`
  and `PidGenerator.Generator`.
  - The frame table is an `array<Frame>`.
  - The swap store and the registry are maps.
  - The logs are sequences.
- **Methods are proved against functions.** Each method's `ensures` ties the
  new state to a function of the old state. The properties the source
  promises are then proved about those functions.
- **Page tables.** The in-place page-table mutators are methods on
  `array<PageEntry>`, specified by pure functions on the table's value. The
  MMU holds each page table as a value and stores the changed table back
  under its pid.
- **Bulk loops.** The two bulk loops of the MMU (allocate and free) are
  proved equal to the recursive functions of module `BulkFrames`.
- **The memory invariant.** Module `Consistency` states the agreement
  between frames and page tables:
  - every present frame owned by a registered process is named by a present
    entry of that process's table, at the page the frame records;
  - every present entry names a frame in range that is present and owned by
    that (pid, page).

  Every state-changing MMU operation keeps this agreement. For `registerProcess`
  and `allocateFramesForProcess` this holds under the conditions the source
  leaves to its callers.

Clock readings (`Date.now()` and ISO strings) are the parameter `now`, and
only where they are stored in process records. The engine's random choice is
the parameter `coin`. The engine's timer handle is the flag `running`.

## Model

| member | source | states |
|---|---|---|
| Frames.FirstFree | src/services/memory.js:42-48 | the index returned is free and every lower index is taken; None exactly when no frame is free |
| Frames.UsedPlusFree | src/services/memory.js:170-179 | present and non-present frames add up to the total |
| Frames.FramesOf | src/services/memory.js:197-201 | the list holds exactly the frames that are present and owned by the pid |
| Frames.CountOfIsLength | src/services/memory.js:186-201 | the per-process frame count equals the length of the per-process frame list |
| Frames.FramesOfDisjoint | src/services/memory.js:197-201 | the frame lists of two different pids share no frame number |
| Frames.Memory.constructor | src/services/memory.js:7-12 | no frames, page size 0, pointer 0, and the frame invariant holds |
| Frames.Memory.Initialize | src/services/memory.js:20-36 | n frames, frame i empty with number i, pointer 0, and the frame invariant holds |
| Frames.Memory.Reset | src/services/memory.js:206-213 | back to no frames, pointer 0 |
| Frames.Memory.GetFreeFrame | src/services/memory.js:42-48 | the lowest free frame; None exactly when no frame is free |
| Frames.Memory.AllocateFrame | src/services/memory.js:57-77 | succeeds exactly for an in-range free frame; then only that frame changes, to owned, present and used, unmodified; the frame invariant is kept |
| Frames.Memory.FreeFrame | src/services/memory.js:84-99 | fails only out of range; otherwise only that frame changes, to empty, so freeing twice equals freeing once |
| Frames.Memory.GetClockPointer | src/services/memory.js:105-107 | with at least one frame, the pointer is within the frame table |
| Frames.Memory.SetClockPointer | src/services/memory.js:113-117 | an out-of-range value is ignored; the frames are untouched |
| Frames.Memory.AdvanceClockPointer | src/services/memory.js:123-127 | the pointer moves one step around the ring, modulo the frame count |
| Frames.Memory.UpdateFrameBits | src/services/memory.js:135-151 | fails only out of range; otherwise only the supplied use and modified bits of that frame change, and the frame invariant is kept |
| Frames.Memory.GetFrame | src/services/memory.js:158-164 | a frame exactly for an in-range number; it carries that number and keeps the frame invariant |
| Frames.Memory.GetMemorySnapshot | src/services/memory.js:170-179 | used plus free equals total, and the snapshot holds the frames and the pointer |
| Frames.Memory.GetFrameCountByProcess | src/services/memory.js:186-190 | the count equals the length of getFramesByProcess |
| PageTables.CreatePageTable | src/services/pageTable.js:12-20 | n entries (none for negative n); entry i is page i, with no frame and every bit 0 |
| PageTables.CreatedIsShaped | src/services/pageTable.js:12-20 | a fresh table is well shaped and has no present page |
| PageTables.PresentCountZero | src/services/pageTable.js:178-180 | a table with no present entry counts zero present pages |
| PageTables.Updated | src/services/pageTable.js:29-53 | out of range the table is unchanged; otherwise only the supplied fields of that one entry change |
| PageTables.MarkedPresent | src/services/pageTable.js:101-107 | sets frame, present and use; keeps modified; no other entry changes |
| PageTables.MarkedAbsent | src/services/pageTable.js:115-121 | clears frame, present and use; keeps modified; no other entry changes |
| PageTables.MarkedModified | src/services/pageTable.js:129-133 | sets only that entry's modified bit |
| PageTables.MarkedUsed | src/services/pageTable.js:141-145 | sets only that entry's use bit |
| PageTables.UseBitCleared | src/services/pageTable.js:153-157 | clears only that entry's use bit |
| PageTables.PresentThenAbsent | src/services/pageTable.js:101-121 | marking an absent page present and then absent restores the entry, except for the use bit |
| PageTables.GetPageEntry | src/services/pageTable.js:61-67 | the entry exactly for an in-range page |
| PageTables.IsPagePresent | src/services/pageTable.js:75-81 | true exactly for an in-range page whose entry is present |
| PageTables.GetFrameNumber | src/services/pageTable.js:89-92 | None unless the page is present; otherwise the entry's frame |
| PageTables.PresentPagesExact | src/services/pageTable.js:187-191 | an entry is listed by GetPresentPages exactly when it is a present entry of the table |
| PageTables.PresentPagesAtOwnPage | src/services/pageTable.js:187-191 | each listed entry is the table's entry at its own page number |
| PageTables.PresentPagesBounded | src/services/pageTable.js:187-191 | each listed page lies within the table |
| PageTables.PresentPagesInOrder | src/services/pageTable.js:187-191 | the present pages are listed in strictly increasing page order |
| PageTables.CountIsPresentLength | src/services/pageTable.js:178-191 | countPresentPages equals the length of getPresentPages and is at most the table length |
| PageTables.FindPageByFrame | src/services/pageTable.js:208-213 | None exactly when no present entry holds the frame; otherwise the returned page is that of the first present entry holding it |
| PageTables.FindAfterMarkPresent | src/services/pageTable.js:101-107 | after a page is marked present in a frame no other present entry uses, findPageByFrame returns that page |
| PageTables.UpdatePageEntry | src/services/pageTable.js:29-53 | succeeds exactly in range; the array afterwards equals Updated of its old contents |
| PageTables.MarkPagePresent | src/services/pageTable.js:101-107 | succeeds exactly in range; the array afterwards equals MarkedPresent of its old contents |
| PageTables.MarkPageAbsent | src/services/pageTable.js:115-121 | succeeds exactly in range; the array afterwards equals MarkedAbsent of its old contents |
| PageTables.MarkPageModified | src/services/pageTable.js:129-133 | succeeds exactly in range; the array afterwards equals MarkedModified of its old contents |
| PageTables.MarkPageUsed | src/services/pageTable.js:141-145 | succeeds exactly in range; the array afterwards equals MarkedUsed of its old contents |
| PageTables.ClearPageUseBit | src/services/pageTable.js:153-157 | succeeds exactly in range; the array afterwards equals UseBitCleared of its old contents |
| PageTables.ResetPageTable | src/services/pageTable.js:163-171 | every entry is restored to what createPageTable makes |
| Swap.WritesSplit | src/services/disk.js:293-331 | dirty and clean writes add up to all writes |
| Swap.KindsPartition | src/services/disk.js:293-331 | reads, writes, allocations and frees add up to the log length |
| Swap.CountsAppend | src/services/disk.js:293-331 | appending one operation raises exactly the counter of its kind by one |
| Swap.WithoutPid | src/services/disk.js:212-241 | a key remains exactly when it was there and belongs to another pid; kept entries are unchanged |
| Swap.WithoutPidSize | src/services/disk.js:212-241 | the entries removed are exactly as many as the pid had |
| Swap.PagesByProcess | src/services/disk.js:337-355 | one count per pid with entries, equal to that pid's number of entries |
| Swap.NothingLeftAfterFree | src/services/disk.js:212-252 | after freePagesByPID no page of the pid exists in swap |
| Swap.Disk.constructor | src/services/disk.js:10-19 | empty store and log, 1500 ms delay, delays enabled |
| Swap.Disk.Initialize | src/services/disk.js:26-31 | store and log emptied, configuration set |
| Swap.Disk.ReadPage | src/services/disk.js:62-104 | succeeds exactly when the page is stored and returns its dirty flag; always logs one read that records whether it succeeded; the store is unchanged |
| Swap.Disk.WritePage | src/services/disk.js:116-154 | always succeeds; the page is stored with the given dirty flag; exactly one write is logged |
| Swap.Disk.AllocatePage | src/services/disk.js:164-203 | fails, changing neither store nor log, when the page exists; otherwise stores a clean entry without data and logs one allocation |
| Swap.Disk.FreePagesByPid | src/services/disk.js:212-241 | removes exactly the pid's entries and keeps all others; the count returned is the number removed; one free is logged |
| Swap.Disk.GetPageInfo | src/services/disk.js:262-277 | metadata exactly when the page is stored, carrying its dirty flag |
| Swap.Disk.GetDiskStats | src/services/disk.js:293-331 | counts by kind add up to the total; dirty plus clean equals writes; the page count equals the store's size |
| Swap.Disk.GetSwapSnapshot | src/services/disk.js:337-355 | one metadata record per stored page, and the total equals the store's size |
| Swap.Disk.ClearDiskOperations | src/services/disk.js:361-363 | empties the log and keeps the store |
| Swap.Disk.ClearSwapSpace | src/services/disk.js:369-371 | empties the store and keeps the log |
| Swap.Disk.ResetDisk | src/services/disk.js:377-380 | empties both store and log |
| Swap.Disk.SetIODelay | src/services/disk.js:386-390 | negative delays are ignored |
| Swap.Disk.SetIODelayEnabled | src/services/disk.js:397-399 | sets only the enabled flag |
| Swap.Disk.GetDiskConfig | src/services/disk.js:405-407 | reports the current delay and flag |
| FaultHandler.RingOffset | src/services/pageFaultHandler.js:258-286 | stepping around the ring from the pointer and measuring the distance from it are inverse to each other |
| FaultHandler.RingNext | src/services/pageFaultHandler.js:283-285 | advancing the pointer by one, modulo n, is one more step around the ring |
| FaultHandler.ClearedArc | src/services/pageFaultHandler.js:258-286 | exactly the use bits of the first k frames from the pointer are cleared |
| FaultHandler.ScanFrom | src/services/pageFaultHandler.js:258-286 | every frame passed over is present and used; the frame stopped at within one turn is evictable |
| FaultHandler.ClockAttempts | src/services/pageFaultHandler.js:258-286 | the number of second chances is at most the frame count |
| FaultHandler.ClockVictim | src/services/pageFaultHandler.js:258-286 | the victim is a frame of the table |
| FaultHandler.ScanIsFirst | src/services/pageFaultHandler.js:258-286 | the victim is the first evictable frame from the pointer |
| FaultHandler.ClearedArcStep | src/services/pageFaultHandler.js:277-285 | clearing the next frame's use bit extends the cleared arc by one |
| FaultHandler.VictimIsEvictable | src/services/pageFaultHandler.js:258-286 | the victim is not present or has use 0 |
| FaultHandler.ScanClearsExactlyPassed | src/services/pageFaultHandler.js:258-286 | the scan changes only use bits, exactly those of the frames passed over, each of which was present and used; so attempts equals the number of bits cleared |
| FaultHandler.ScanStopsAtEvictable | src/services/pageFaultHandler.js:258-286 | the scan never passes an evictable frame |
| FaultHandler.FullTurnWhenAllUsed | src/services/pageFaultHandler.js:258-286 | when every use bit is 1, attempts equals the frame count and the victim is the starting frame |
| FaultHandler.NoSecondChanceAtEvictablePointer | src/services/pageFaultHandler.js:258-286 | an evictable frame under the pointer is the victim, with no bit cleared |
| FaultHandler.ScanKeepsShape | src/services/pageFaultHandler.js:277-281 | clearing use bits keeps the frame invariant |
| FaultHandler.LoadLeavesSwapEntry | src/services/pageFaultHandler.js:153-186 | after a load the page has a swap entry and earlier entries are kept; the load reads exactly when the entry existed |
| FaultHandler.DirtyPlusClean | src/services/pageFaultHandler.js:431-469 | dirty and clean replacements add up to all replacements |
| FaultHandler.LoadsPlusReplacements | src/services/pageFaultHandler.js:431-469 | in a history of successful faults, loads plus replacements equals the number of events |
| FaultHandler.EventCountedForItsPid | src/services/pageFaultHandler.js:431-469 | every event is counted for its pid, and every replacement for its victim's pid |
| FaultHandler.UpdateVictimPageTable | src/services/pageFaultHandler.js:411-417 | fails without a table; otherwise the evicted page is marked absent and succeeds exactly in range |
| FaultHandler.NoneFreeIffNoneAbsent | src/services/pageFaultHandler.js:500-503 | with well-formed frames, no frame is free exactly when no frame is absent |
| FaultHandler.VictimOwned | src/services/pageFaultHandler.js:297-301 | when no frame is free the victim has an owner |
| FaultHandler.PageFaultHandler.constructor | src/services/pageFaultHandler.js:13-16 | empty history over the given memory and disk |
| FaultHandler.PageFaultHandler.LoadPageIntoFrame | src/services/pageFaultHandler.js:129-223 | fails with no change for a frame out of range or not free; otherwise reads from swap when the page is there and allocates in swap when not (origin DISK exactly in the first case), then gives the frame to (pid, page) and marks the entry present at it; if the page is outside the table the frame is freed again and the load fails |
| FaultHandler.PageFaultHandler.SecondChanceScan | src/services/pageFaultHandler.js:243-295 | the victim, the attempts and the frames afterwards are those of the Clock scan from the pointer; no victim with no frames |
| FaultHandler.PageFaultHandler.EvictAndLoad | src/services/pageFaultHandler.js:297-400 | a modified victim is written back dirty before the frame is freed, a clean one causes no write; on success the frame holds the new page, the pointer is victim+1 mod n and one PAGE_REPLACEMENT event is appended |
| FaultHandler.PageFaultHandler.ClockReplacement | src/services/pageFaultHandler.js:243-401 | the Clock scan followed by the eviction and load at its victim; nothing changes when there are no frames |
| FaultHandler.PageFaultHandler.HandlePageFault | src/services/pageFaultHandler.js:42-117 | fails with no change without a table, for a page out of range, or for a present page; loads into the lowest free frame, reading the page from swap (origin DISK, with disk I/O) or allocating it (origin RAM, no I/O), with that operation in the result and one PAGE_LOAD event when there is one; otherwise replaces an owned victim chosen by the Clock, writing it back dirty when modified, reading or allocating the new page, moving the pointer past the victim and appending one PAGE_REPLACEMENT event; with no frames nothing changes |
| FaultHandler.PageFaultHandler.GetReplacementStats | src/services/pageFaultHandler.js:431-469 | each total equals the count of its kind of event in the history (replacements, loads, dirty, clean); loads plus replacements equals events, dirty plus clean equals replacements; the average is 0 without replacements and otherwise the summed Clock attempts divided by the number of replacements; every pid is in the per-process counts |
| FaultHandler.StatsOfTotals | src/services/pageFaultHandler.js:432-447 | the totals of the statistics of any history count their kinds of event and add up (loads plus replacements is all events when none failed, dirty plus clean is all replacements); the average is the summed attempts over the replacements, 0 without any |
| FaultHandler.StatsOfKeys | src/services/pageFaultHandler.js:450-457 | every process that loaded a page, and every victim's process, has an entry in the per-process counts |
| FaultHandler.PageFaultHandler.ClearReplacementHistory | src/services/pageFaultHandler.js:474-476 | the history is empty |
| FaultHandler.PageFaultHandler.Reset | src/services/pageFaultHandler.js:481-483 | the history is empty; memory and disk are not touched |
| FaultHandler.PageFaultHandler.GetLastReplacement | src/services/pageFaultHandler.js:489-494 | the last event, and None exactly for an empty history |
| FaultHandler.PageFaultHandler.IsMemoryFull | src/services/pageFaultHandler.js:500-503 | full exactly when getFreeFrame finds no frame |
| FaultHandler.PageFaultHandler.GetClockState | src/services/pageFaultHandler.js:509-528 | the pointer and frame count; used plus free equals total; the current frame exactly when there are frames; full exactly when no frame is free |
| Consistency.RegisterPreserves | src/services/mmu.js:37-46 | registering a pid that holds no frame keeps the frame/page-table agreement |
| Consistency.UnregisterPreserves | src/services/mmu.js:54-64 | dropping a table keeps the agreement, even with its frames still held |
| Consistency.OwnershipPreserved | src/services/mmu.js:121-148 | changing only use and modified bits keeps the agreement |
| Consistency.EntryResident | src/services/mmu.js:121-148 | a present entry names an in-range frame owned by that (pid, page) |
| Consistency.AbsentFrameUnreferenced | src/services/pageFaultHandler.js:73-107 | no present entry names a frame that is not present |
| Consistency.LoadPreserves | src/services/pageFaultHandler.js:189-210 | loading an absent page into a free frame keeps the agreement |
| Consistency.VictimUpdated | src/services/mmu.js:188-201 | only the victim pid's table changes, with the victim page marked absent when that pid is registered |
| Consistency.EvictPreserves | src/services/pageFaultHandler.js:331-332 | freeing a present frame and marking its owner's entry absent keeps the agreement |
| Consistency.MarksCommute | src/services/mmu.js:188-201 | marking two different pages, one present and one absent, commutes |
| Consistency.ReplacePreserves | src/services/mmu.js:188-201 | an eviction, a load into the victim frame, and the victim-table update together keep the agreement |
| Consistency.FreeOnePreserves | src/services/mmu.js:277-286 | freeing one present entry's frame and marking it absent keeps the agreement, and that frame was owned by (pid, page) |
| Consistency.NoEntriesNoFrames | src/services/mmu.js:264-300 | a registered pid with no present entry owns no frame |
| BulkFrames.PageOutcome | src/services/mmu.js:223-248 | a present page is reported as present; any other page takes a free frame, or fails only when no frame is free |
| BulkFrames.AllocCounts | src/services/mmu.js:223-248 | each of the first k pages is reported once, allocated or failed |
| BulkFrames.AllocKeeps | src/services/mmu.js:223-248 | pages not yet handled and pages already present are left as they were; each frame is unchanged or was free and now belongs to the pid |
| BulkFrames.AllocFailed | src/services/mmu.js:223-248 | the failed pages are exactly the handled pages left absent, and any failure means no free frame remains |
| BulkFrames.AllocReported | src/services/mmu.js:223-248 | every reported pair names a handled page present at the reported frame |
| BulkFrames.AllocConsistent | src/services/mmu.js:210-256 | allocating pages within the table keeps the frame/page-table agreement |
| BulkFrames.AllocatedResident | src/services/mmu.js:210-256 | every reported frame is owned by the pid at the reported page |
| BulkFrames.AbsentAfterFree | src/services/mmu.js:277-286 | the freed entry is absent with no frame, keeping its page and modified bit |
| BulkFrames.FramesWithout | src/services/mmu.js:264-300 | exactly the pid's present frames are emptied |
| BulkFrames.AllAbsent | src/services/mmu.js:264-300 | every entry becomes absent |
| BulkFrames.PresentPagesResident | src/services/mmu.js:277-286 | the present entries listed are in page order, each its own page's entry, each resident |
| BulkFrames.FreeProgress | src/services/mmu.js:277-286 | after k entries, the handled ones are absent and their frames empty, and the rest are untouched |
| BulkFrames.ReleasePreserves | src/services/mmu.js:264-300 | emptying a pid's frames and its whole table keeps the agreement |
| BulkFrames.ReleaseAll | src/services/mmu.js:264-300 | the release loop empties exactly the pid's frames, marks every entry absent, frees one frame per present page, and keeps the agreement |
| Mmu.JsRem | src/services/mmu.js:94 | JavaScript's remainder has the sign of the dividend and is smaller than the divisor |
| Mmu.AddressSplit | src/services/mmu.js:93-94 | an address with a non-negative page number is non-negative and equals page·pageSize + offset |
| Mmu.CountModified | src/services/mmu.js:332-354 | at most the table length |
| Mmu.ProcessStats | src/services/mmu.js:332-354 | present plus absent equals total; present equals the number of present entries; modified pages are at most the present ones |
| Mmu.FaultKeepsConsistent | src/services/mmu.js:158-202 | the MMU's fault path keeps the agreement and leaves the faulting page present in a frame owned by it |
| Mmu.Mmu.constructor | src/services/mmu.js:13-19 | no process, the default page size, agreement holds |
| Mmu.Mmu.Initialize | src/services/mmu.js:26-29 | sets the page size and keeps the registry and the agreement |
| Mmu.Mmu.RegisterProcess | src/services/mmu.js:37-46 | fails with no change for a registered pid; otherwise installs an all-absent table of numPages entries; agreement kept when the pid holds no frame |
| Mmu.Mmu.UnregisterProcess | src/services/mmu.js:54-64 | fails for an unknown pid; otherwise removes the table and exactly the pid's swap entries, leaves frames as they are, and keeps the agreement |
| Mmu.Mmu.GetProcessPageTable | src/services/mmu.js:71-73 | the pid's table exactly when registered |
| Mmu.Mmu.TranslateAddress | src/services/mmu.js:82-149 | unknown pid, out-of-range page and absent page are reported with nothing changed; on a hit the physical address is frame·pageSize + offset and lies in that frame, the entry's and the frame's use bits are set, the frame is owned by (pid, page), and the agreement is kept |
| Mmu.Mmu.HandlePageFault | src/services/mmu.js:158-202 | unknown pid and out-of-range page fail with no change; otherwise frames and tables change as FaultStep says (nothing for a present page, a load into the lowest free frame, or the Clock eviction and load with the victim's own entry marked absent) and pointer, swap, disk log and history as FaultEffects says, which also fixes the whole handler result (origin, disk operations and I/O flag) of a load or a replacement; on success the page is present in a frame owned by it; the agreement is kept |
| Mmu.Mmu.Dispatch | src/services/mmu.js:186-201 | the handler call and the victim-table update change frames and tables as FaultStep says, and pointer, swap, disk log and history as FaultEffects says, which also fixes the whole handler result (origin, disk operations and I/O flag) of a load or a replacement |
| Mmu.Mmu.RunHandler | src/services/mmu.js:187 | the handler call alone: frames and tables change as HandlerStep says (FaultStep before the victim's entry is touched), and pointer, swap, disk log, history and result as FaultEffects says |
| Mmu.Mmu.UpdateVictimTable | src/services/mmu.js:188-201 | the victim's entry is marked absent when its pid is registered; when the victim has no pid or no page number no table changes; nothing else changes |
| Mmu.Mmu.AllocateFramesForProcess | src/services/mmu.js:210-256 | fails for an unknown pid; otherwise frames, table and result are those of AllocUpTo over numPages pages, success exactly when nothing failed; the agreement is kept for numPages within the table |
| Mmu.Mmu.AllocatePage | src/services/mmu.js:224-247 | one loop iteration: the outcome is PageOutcome; a placed page takes that frame and is marked present at it |
| Mmu.Mmu.RecordPage | src/services/mmu.js:224-247 | one loop iteration with its report: frames, table and both lists become AllocStep of the state before, and only the pid's table changes |
| Mmu.Mmu.FreeFramesOfProcess | src/services/mmu.js:264-300 | fails for an unknown pid; otherwise frees exactly the pid's present frames, marks every entry absent, counts one per present page, removes exactly the pid's swap entries, and keeps the agreement |
| Mmu.Mmu.FreePresentPages | src/services/mmu.js:277-286 | the loop's effect equals FreeUpTo over the present pages |
| Mmu.Mmu.FreeEntry | src/services/mmu.js:278-285 | one loop iteration equals FreeStep |
| Mmu.Mmu.MarkPageAsModified | src/services/mmu.js:308-325 | fails for an unknown pid; otherwise sets the entry's modified bit, and the frame's only when the page is present; the agreement is kept |
| Mmu.Mmu.GetProcessMemoryStats | src/services/mmu.js:332-354 | statistics exactly for a registered pid; present plus absent equals total; present equals countPresentPages |
| Mmu.Mmu.GetMmuSnapshot | src/services/mmu.js:360-373 | one statistics record and table per registered pid, and the process count |
| Mmu.Mmu.Reset | src/services/mmu.js:378-384 | no process and the default page size; the agreement holds |
| Mmu.Mmu.GetPageSize | src/services/mmu.js:390-392 | the page size, always positive |
| Mmu.Mmu.IsProcessRegistered | src/services/mmu.js:399-401 | true exactly when a table is registered |
| Fsm.LegalByTarget | src/services/fsm.js:36-42 | only New→Ready, Ready→Running, Running→Ready/Waiting/Terminated and Waiting→Ready are legal; New is never entered; Terminated has no exit |
| Fsm.Created | src/services/fsm.js:51-64 | state New, pc 0, empty registers, syscalls and history |
| Fsm.Apply | src/services/fsm.js:79-126 | state set to the target; pid, priority and creation time kept; pc grows by one exactly on entering Running; syscalls only grow, by at most one; exactly one history record with the old and new state and the cause |
| Fsm.CountRunning | src/services/fsm.js:92-96 | at most the history length |
| Fsm.CountSyscalls | src/services/fsm.js:97-108 | at most the history length |
| Fsm.CreatedCoherent | src/services/fsm.js:51-64 | a new process is coherent: its history is a legal walk from New to its state, pc counts the entries into Running, AX is 10·pc |
| Fsm.ApplyKeepsCoherent | src/services/fsm.js:79-126 | a legal transition keeps the process coherent |
| Fsm.TerminatedIsLast | src/services/fsm.js:36-42 | only the last history record of a coherent process can enter Terminated |
| Fsm.RunningBeforeWaitOrEnd | src/services/fsm.js:92-96 | a waiting or terminated coherent process has pc of at least 1 |
| Fsm.LastEntryFromRunning | src/services/fsm.js:36-42 | a legal walk whose last edge leaves Running has entered Running |
| Fsm.Process.constructor | src/services/fsm.js:51-64 | the record is that of createProcess |
| Fsm.Process.Transition | src/services/fsm.js:79-126 | succeeds exactly on a legal edge; an illegal edge is an error that leaves the process unchanged; otherwise the record becomes Apply of the old one, and coherence is kept |
| Fsm.Process.SideEffects | src/services/fsm.js:92-108 | pc, registers and syscalls change as the edge demands; nothing else changes |
| Fsm.Process.Admit | src/services/fsm.js:137-139 | a transition to Ready: succeeds exactly from New, Running or Waiting; otherwise the error names the old state and the target and nothing changes; a legal move applies it and keeps the record coherent |
| Fsm.Process.AssignCpu | src/services/fsm.js:150-152 | a transition to Running: succeeds exactly from Ready; otherwise the error names the old state and the target and nothing changes; a legal move applies it and keeps the record coherent |
| Fsm.Process.Preempt | src/services/fsm.js:163-165 | a transition to Ready: succeeds exactly from New, Running or Waiting; otherwise the error names the old state and the target and nothing changes; a legal move applies it and keeps the record coherent |
| Fsm.Process.RequestIo | src/services/fsm.js:176-178 | a transition to Waiting: succeeds exactly from Running; otherwise the error names the old state and the target and nothing changes; a legal move applies it and keeps the record coherent |
| Fsm.Process.IoComplete | src/services/fsm.js:189-191 | a transition to Ready: succeeds exactly from New, Running or Waiting; otherwise the error names the old state and the target and nothing changes; a legal move applies it and keeps the record coherent |
| Fsm.Process.Terminate | src/services/fsm.js:202-204 | a transition to Terminated: succeeds exactly from Running; otherwise the error names the old state and the target and nothing changes; a legal move applies it and keeps the record coherent |
| Engine.AutoTarget | src/services/engine.js:101-107 | an automatic edge exists exactly for a non-terminated state, is always legal, and never takes a running process to Ready |
| Engine.AutoStep | src/services/engine.js:101-115 | a terminated process is skipped; any other makes exactly one legal move, never Running→Ready, recorded with cause "auto" |
| Engine.StepAll | src/services/engine.js:97-115 | each process is moved by its own automatic step, independently |
| Engine.AutoStepKeepsCoherent | src/services/engine.js:101-115 | an automatic move keeps a process coherent |
| Engine.StepAllKeepsCoherent | src/services/engine.js:97-115 | a step keeps every process of the list coherent |
| Engine.Engine.constructor | src/services/engine.js:17-21 | manual mode, speed 3000, not running, no processes |
| Engine.Engine.GetEngineState | src/services/engine.js:179-181 | a running engine is never in manual mode or at speed 0 |
| Engine.Engine.Stop | src/services/engine.js:84-89 | not running afterwards; nothing else changes |
| Engine.Engine.Pause | src/services/engine.js:77-79 | not running afterwards; nothing else changes |
| Engine.Engine.Start | src/services/engine.js:65-72 | takes the given list; running afterwards exactly when speed is not 0 and mode is not manual |
| Engine.Engine.SetMode | src/services/engine.js:38-47 | running afterwards exactly when the new mode is auto and speed is positive |
| Engine.Engine.SetSpeed | src/services/engine.js:53-59 | running afterwards exactly when it was running, the new speed is positive and mode is auto |
| Engine.Engine.SetProcesses | src/services/engine.js:157-163 | replaces the list; mode, speed and running are kept |
| Engine.Engine.Step | src/services/engine.js:95-121 | in auto mode the list becomes StepAll of the old one, otherwise it is unchanged; something moved exactly when in auto mode with a non-terminated process |
| Engine.Engine.ResetEngine | src/services/engine.js:168-176 | manual mode, speed 1000, not running, no processes |
| PidGenerator.DigitChar | src/services/pidGenerator.js:13 | a digit character denoting the given digit |
| PidGenerator.Decimal | src/services/pidGenerator.js:13 | a non-empty digit string with no leading zero for a positive number |
| PidGenerator.PadStart | src/services/pidGenerator.js:13 | the string is right-aligned in the width, filled with the fill character |
| PidGenerator.DecimalRoundTrip | src/services/pidGenerator.js:13 | reading the decimal rendering back gives the number |
| PidGenerator.LeadingZeros | src/services/pidGenerator.js:13 | leading zeros do not change the value |
| PidGenerator.ZerosValue | src/services/pidGenerator.js:13 | a string of zeros denotes 0 |
| PidGenerator.FormatRoundTrip | src/services/pidGenerator.js:11-14 | a PID read back gives its counter value |
| PidGenerator.FormatInjective | src/services/pidGenerator.js:11-14 | distinct counter values give distinct PIDs |
| PidGenerator.DecimalShort | src/services/pidGenerator.js:13 | a number below 1000 has at most three digits |
| PidGenerator.FormatLength | src/services/pidGenerator.js:13 | below 1000 a PID has exactly three characters; it always has at least three and ends with the decimal rendering |
| PidGenerator.FirstPid | src/services/pidGenerator.js:19-21 | the first PID after a reset is "001" |
| PidGenerator.PidsSinceReset | src/services/pidGenerator.js:11-21 | the k-th call after a reset yields the PID of k |
| PidGenerator.SinceResetDistinct | src/services/pidGenerator.js:11-21 | the PIDs since a reset are pairwise distinct and numerically increasing |
| PidGenerator.Generator.constructor | src/services/pidGenerator.js:1 | the counter starts at 0 |
| PidGenerator.Generator.GeneratePid | src/services/pidGenerator.js:11-14 | the counter grows by exactly 1 and the PID is its zero-padded rendering, whose value is the counter |
| PidGenerator.Generator.ResetPid | src/services/pidGenerator.js:19-21 | the counter is 0 |

## Left out

- Asynchrony: `async`/`await` and the I/O delay timer (disk.js:37-42) are left out; disk operations are immediate state changes, and the delay value only labels the logged reads and writes.
- Timestamps are not kept in the disk log, the replacement history or the clock trace; in process records they are the parameter `now`.
- The `clockSteps` trace with `getClockSteps`/`clearClockSteps` (pageFaultHandler.js:16-31) and the pass-through accessors of mmu.js (mmu.js:403-472) only observe; they are not modelled.
- `getPageTableSnapshot` (pageTable.js:198-200) is a copy of the table and is not modelled.
- The user-supplied `onPageFault` callback of the MMU (mmu.js:177-185) and the engine's `onUpdate` callback with `setUpdateCallback` (engine.js:20, 30-32) are foreign calls; the model behaves as if none is set.
- The engine's interval timer and the inactivity timers of `setProcessActivity` (engine.js:124-149) are left out; the timer handle is the flag `running`, and `Math.random` is the parameter `coin`.
- Engine.Engine.Step: one clock reading `now` serves the whole step.
- Swap keys are (pid, page) pairs, not the string `${pid}-${pageNumber}`, so keys that would collide as strings are kept apart. Page payloads are opaque, and the order of map iteration is not modelled.
- Mmu.Mmu.GetMmuSnapshot: the registered processes are a map from pid to view, so the registration order in which the source lists them (mmu.js:360, the insertion order of its Map) is not modelled.
- FaultHandler.PageFaultHandler.EvictAndLoad: a victim that is modified but has no owner is not written back. The source would write it under the key "null-null". The scan reaches such a frame only after `updateFrameBits` has marked a free frame modified.
- Page tables in the MMU and the handler, and the engine's process list, are held by value. Aliasing between a table handed out by `getProcessPageTable` and the registry's copy is not modelled.
- The branch of `allocateFramesForProcess` for a failed `allocateFrame` (mmu.js:243-245) is not modelled. It follows a frame that `getFreeFrame` has just returned, and the model proves that allocation always succeeds.
- Mmu.Mmu.Initialize: requires a positive page size; the source does not check it, and a zero page size would make every translation divide by zero.
- Mmu.Mmu.Initialize: the page size has the default 4096 in Dafny too, but the failure callback argument of `initializeMMU` (mmu.js:26) is dropped, as the callback is left out.
- Mmu.Mmu.TranslateAddress: takes integer logical addresses only; the source also accepts fractional numbers, which `Math.floor` (mmu.js:93) maps to a page while `%` keeps the fraction in the offset.
- Frames.Memory.AdvanceClockPointer: requires at least one frame; with none the source stores NaN.
- Mmu.Mmu.AllocateFramesForProcess: the frame/page-table agreement is stated only for numPages within the table. Beyond it the source allocates a frame whose page it cannot mark present, and the agreement breaks.
- Mmu.Mmu.RegisterProcess: the agreement is stated only when the pid owns no frame. After `unregisterProcess`, which keeps frames, re-registering the pid breaks it.
- Process priority is an integer and register values are integers. History records hold copies of pc, registers and syscalls as values.
- `getReplacementHistory`, `getDiskOperations`, `pageExistsInSwap` and `getFramesByProcess` are plain accessors with no property of their own. `getFramesByProcess` is stated through `Frames.FramesOf`.
- `averageClockAttempts` is an exact rational. The source rounds it to two decimals with `toFixed`.
- The React UI, report export, audio, `utils/time.js` and `src/models/processModel.js` are not part of this model.
- The 4-argument `createProcess` and `fsm.accessMemory` used by some integration tests are defined in no source file and are not part of this model.
