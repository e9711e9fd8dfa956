/**
 * The memory management unit (mmu.js): the registry from pid to page
 * table, address translation, page-fault dispatch with the victim-table
 * update, bulk allocation and release of a process's frames, and the
 * per-process statistics.
 *
 * The registry holds each table as a value; an operation that changes a
 * table in place in the source stores the changed table back under its pid.
 * Every state-changing operation keeps the frame/page-table agreement of
 * module Consistency, under the conditions the source needs for it.
 */
module Mmu {
  import opened Common
  import opened Frames
  import opened PageTables
  import opened Swap
  import opened FaultHandler
  import opened Consistency
  import opened BulkFrames

  const DefaultPageSize: int := 4096

  /** The outcome of translateAddress. */
  datatype Translation =
    | ProcessNotFound
    | InvalidPage(pageNumber: int, offset: int)
    | PageFault(pageNumber: int, offset: int, logicalAddress: int)
    | FrameMissing(pageNumber: int, offset: int)
    | Translated(physicalAddress: int, pageNumber: int, frameNumber: int, offset: int, logicalAddress: int)

  /** The outcome of the MMU's handlePageFault: its own two checks, or the handler's result. */
  datatype FaultOutcome =
    | FaultProcessNotFound
    | FaultInvalidPage
    | Handled(result: FaultResult)

  /** The outcome of allocateFramesForProcess. */
  datatype Allocation =
    | AllocProcessNotFound
    | Allocation(success: bool, allocatedFrames: seq<PageFrame>, failedPages: seq<int>, pid: Pid)

  /** The outcome of freeFramesOfProcess. */
  datatype Release =
    | ReleaseProcessNotFound
    | Released(freedFrames: seq<int>, count: nat, diskPagesFreed: nat, pid: Pid)

  datatype MemoryStats = MemoryStats(
    pid: Pid,
    totalPages: nat,
    presentPages: nat,
    absentPages: int,
    modifiedPages: nat,
    pageTableSize: nat)

  datatype ProcessView = ProcessView(stats: MemoryStats, pageTable: seq<PageEntry>)

  datatype MmuSnapshot = MmuSnapshot(pageSize: int, callbackDefined: bool, totalProcesses: nat, processes: map<Pid, ProcessView>)

  /** JavaScript's `%`: the remainder takes the sign of the dividend. */
  function JsRem(a: int, b: int): (r: int)
    requires b > 0
    ensures a >= 0 ==> 0 <= r < b
    ensures a < 0 ==> -b < r <= 0
  {
    if a >= 0 then a % b else -((-a) % b)
  }

  /** A logical address whose page number is not negative splits into page and offset. */
  lemma AddressSplit(addr: int, ps: int)
    requires ps > 0 && addr / ps >= 0
    ensures addr >= 0
    ensures (addr / ps) * ps + JsRem(addr, ps) == addr
  {
  }

  /** The number of entries with the modified bit set. */
  function CountModified(es: seq<PageEntry>): (n: nat)
    ensures n <= |es|
  {
    if |es| == 0 then 0 else (if es[0].modified == 1 then 1 else 0) + CountModified(es[1..])
  }

  /** getProcessMemoryStats for one table. */
  function ProcessStats(pid: Pid, t: seq<PageEntry>): (st: MemoryStats)
    ensures st.pid == pid && st.totalPages == st.pageTableSize == |t|
    ensures st.presentPages == |GetPresentPages(t)|
    ensures st.presentPages + st.absentPages == st.totalPages && st.absentPages >= 0
    ensures st.modifiedPages <= st.presentPages
  {
    CountIsPresentLength(t);
    var present := CountPresentPages(t);
    MemoryStats(pid, |t|, present, |t| - present, CountModified(GetPresentPages(t)), |t|)
  }

  /** The registry of page tables, the page size, and the memory, disk and handler it drives. */
  class Mmu {
    var tables: Tables
    var pageSize: int
    const mem: Memory
    const disk: Disk
    const handler: PageFaultHandler

    /** The handler works on this memory and disk, the page size is positive, and every table is well shaped. */
    ghost predicate Valid()
      reads this, handler, mem, mem.frames
    {
      && handler.mem == mem && handler.disk == disk
      && handler.Valid()
      && pageSize > 0
      && (forall p :: p in tables ==> Shaped(tables[p]))
    }

    /** The frames and the registered tables agree. */
    ghost predicate MemoryConsistent()
      reads this, mem, mem.frames
    {
      Consistency.Consistent(mem.frames[..], tables)
    }

    /** The module state as loaded: no process, the default page size. */
    constructor (handler: PageFaultHandler)
      requires handler.Valid()
      ensures this.handler == handler && mem == handler.mem && disk == handler.disk
      ensures tables == map[] && pageSize == DefaultPageSize
      ensures Valid() && MemoryConsistent()
    {
      this.handler := handler;
      mem := handler.mem;
      disk := handler.disk;
      tables := map[];
      pageSize := DefaultPageSize;
    }

    /** initializeMMU: sets the page size; registered tables are kept. */
    method Initialize(pageSize: int := DefaultPageSize)
      requires Valid() && pageSize > 0
      modifies this
      ensures Valid() && this.pageSize == pageSize && tables == old(tables)
      ensures old(MemoryConsistent()) ==> MemoryConsistent()
    {
      this.pageSize := pageSize;
    }

    /** registerProcess: installs an all-absent table unless the pid is already registered. */
    method RegisterProcess(pid: Pid, numPages: int) returns (ok: bool)
      requires Valid()
      modifies this
      ensures Valid() && pageSize == old(pageSize)
      ensures ok <==> pid !in old(tables)
      ensures ok ==> tables == old(tables)[pid := CreatePageTable(numPages)]
      ensures !ok ==> tables == old(tables)
      ensures old(MemoryConsistent()) && (forall i :: 0 <= i < mem.frames.Length ==> !OwnedBy(mem.frames[i], pid)) ==>
        MemoryConsistent()
    {
      if pid in tables {
        return false;
      }
      CreatedIsShaped(numPages);
      if MemoryConsistent() && forall i :: 0 <= i < mem.frames.Length ==> !OwnedBy(mem.frames[i], pid) {
        RegisterPreserves(mem.frames[..], tables, pid, numPages);
      }
      tables := tables[pid := CreatePageTable(numPages)];
      return true;
    }

    /** unregisterProcess: drops the table and the pid's swap entries; frames are left as they are. */
    method UnregisterProcess(pid: Pid) returns (ok: bool)
      requires Valid()
      modifies this, disk
      ensures Valid() && pageSize == old(pageSize)
      ensures disk.ioDelayMs == old(disk.ioDelayMs) && disk.enabled == old(disk.enabled)
      ensures ok <==> pid in old(tables)
      ensures ok ==>
        && tables == old(tables) - {pid}
        && disk.swap == WithoutPid(old(disk.swap), pid)
        && disk.ops == old(disk.ops) + [DiskFreeProcess(pid, |KeysOf(old(disk.swap), pid)|)]
      ensures !ok ==> tables == old(tables) && disk.swap == old(disk.swap) && disk.ops == old(disk.ops)
      ensures old(MemoryConsistent()) ==> MemoryConsistent()
    {
      if pid !in tables {
        return false;
      }
      var _ := disk.FreePagesByPid(pid);
      if MemoryConsistent() {
        UnregisterPreserves(mem.frames[..], tables, pid);
      }
      tables := tables - {pid};
      return true;
    }

    /** getProcessPageTable: the pid's table, or None. */
    function GetProcessPageTable(pid: Pid): (r: Option<seq<PageEntry>>)
      reads this
      ensures r.Some? <==> pid in tables
      ensures r.Some? ==> r.value == tables[pid]
    {
      if pid in tables then Some(tables[pid]) else None
    }

    /**
     * translateAddress: splits the address into page and offset; on a hit
     * sets the use bit of the entry and of the frame and returns the
     * physical address, which keeps the offset within the frame.
     */
    method TranslateAddress(pid: Pid, logicalAddress: int) returns (r: Translation)
      requires Valid()
      modifies this, mem.frames
      ensures Valid() && pageSize == old(pageSize) && tables.Keys == old(tables).Keys
      ensures pid !in old(tables) ==> r == ProcessNotFound
      ensures pid in old(tables) ==>
        var page, offset := logicalAddress / pageSize, JsRem(logicalAddress, pageSize);
        var t := old(tables[pid]);
        && (!InRange(t, page) ==> r == InvalidPage(page, offset))
        && (InRange(t, page) && t[page].present == 0 ==> r == PageFault(page, offset, logicalAddress))
        && (InRange(t, page) && t[page].present == 1 ==>
              && r.Translated? && r.pageNumber == page && r.offset == offset
              && r.logicalAddress == logicalAddress && t[page].frameNumber == Some(r.frameNumber)
              && r.physicalAddress == r.frameNumber * pageSize + offset)
      ensures !r.Translated? ==> tables == old(tables) && mem.frames[..] == old(mem.frames[..])
      ensures r.Translated? ==>
        && 0 <= r.offset < pageSize
        && r.frameNumber * pageSize <= r.physicalAddress < (r.frameNumber + 1) * pageSize
        && r.physicalAddress - r.frameNumber * pageSize == logicalAddress - r.pageNumber * pageSize
        && tables == old(tables)[pid := MarkedUsed(old(tables[pid]), r.pageNumber)]
        && mem.frames[..] == (if 0 <= r.frameNumber < mem.frames.Length
                              then old(mem.frames[..])[r.frameNumber := old(mem.frames[r.frameNumber]).(use := 1)]
                              else old(mem.frames[..]))
      ensures r.Translated? && old(MemoryConsistent()) ==>
        && 0 <= r.frameNumber < mem.frames.Length
        && OwnedBy(mem.frames[r.frameNumber], pid) && mem.frames[r.frameNumber].pageNumber == Some(r.pageNumber)
      ensures old(MemoryConsistent()) ==> MemoryConsistent()
    {
      if pid !in tables {
        return ProcessNotFound;
      }
      var t := tables[pid];
      var page := logicalAddress / pageSize;
      var offset := JsRem(logicalAddress, pageSize);
      if page < 0 || page >= |t| {
        return InvalidPage(page, offset);
      }
      if !IsPagePresent(t, page) {
        return PageFault(page, offset, logicalAddress);
      }
      AddressSplit(logicalAddress, pageSize);
      ghost var fs, tables0 := mem.frames[..], tables;
      ghost var wasConsistent := MemoryConsistent();
      var frameNumber := GetFrameNumber(t, page);
      match frameNumber {
        case None =>
          r := FrameMissing(page, offset);
        case Some(f) =>
          r := Translated(f * pageSize + offset, page, f, offset, logicalAddress);
          tables := tables[pid := MarkedUsed(t, page)];
          var _ := mem.UpdateFrameBits(f, Some(1), None);
          assert (f + 1) * pageSize == f * pageSize + pageSize;
          if wasConsistent {
            EntryResident(fs, tables0, pid, page);
            forall p | p in tables0 ensures SameMapping(tables0[p], tables[p]) {
            }
            OwnershipPreserved(fs, mem.frames[..], tables0, tables);
          }
      }
    }

    /**
     * handlePageFault: checks the pid and the page, runs the handler on the
     * pid's table, stores the table back and, after a replacement, marks
     * the victim's own entry absent when the victim's process is registered.
     */
    method HandlePageFault(pid: Pid, pageNumber: int) returns (r: FaultOutcome)
      requires Valid()
      modifies this, handler, mem, mem.frames, disk
      ensures Valid() && pageSize == old(pageSize) && tables.Keys == old(tables).Keys
      ensures r == FaultProcessNotFound <==> pid !in old(tables)
      ensures r == FaultInvalidPage <==> pid in old(tables) && !InRange(old(tables[pid]), pageNumber)
      ensures disk.ioDelayMs == old(disk.ioDelayMs) && disk.enabled == old(disk.enabled)
      ensures r.FaultProcessNotFound? || r.FaultInvalidPage? ==>
        && tables == old(tables) && mem.frames[..] == old(mem.frames[..]) && mem.clockPointer == old(mem.clockPointer)
        && handler.history == old(handler.history) && disk.swap == old(disk.swap) && disk.ops == old(disk.ops)
      ensures r.Handled? ==>
        && pid in old(tables) && InRange(old(tables[pid]), pageNumber)
        && FaultStep(old(mem.frames[..]), old(mem.clockPointer), old(tables), pid, pageNumber,
                     old(mem.GetFreeFrame()), r.result, mem.frames[..], tables)
        && FaultEffects(old(mem.frames[..]), old(mem.clockPointer), old(IsPagePresent(tables[pid], pageNumber)),
                        old(mem.GetFreeFrame()), pid, pageNumber, r.result,
                        old(disk.swap), old(disk.ops), old(handler.history), disk.ioDelayMs,
                        mem.clockPointer, disk.swap, disk.ops, handler.history)
      ensures r.Handled? && r.result.Failed? ==> tables == old(tables)
      ensures r.Handled? && r.result.Loaded? ==>
        tables == old(tables)[pid := MarkedPresent(old(tables[pid]), pageNumber, r.result.frameNumber)]
      ensures r.Handled? && r.result.Replaced? ==>
        var v := r.result.victim;
        && v.pid.Some? && v.pageNumber.Some?
        && tables == VictimUpdated(old(tables)[pid := MarkedPresent(old(tables[pid]), pageNumber, r.result.frameNumber)],
                                   v.pid.value, v.pageNumber.value)
      ensures old(MemoryConsistent()) && r.Handled? && !r.result.Failed? ==>
        var f := r.result.frameNumber;
        && 0 <= f < mem.frames.Length && mem.frames[f] == LoadedFrame(f, pid, pageNumber)
        && tables[pid][pageNumber].present == 1 && tables[pid][pageNumber].frameNumber == Some(f)
      ensures old(MemoryConsistent()) ==> MemoryConsistent()
    {
      if pid !in tables {
        return FaultProcessNotFound;
      }
      var t := tables[pid];
      if pageNumber < 0 || pageNumber >= |t| {
        return FaultInvalidPage;
      }
      ghost var fs, s, tables0 := mem.frames[..], mem.clockPointer, tables;
      ghost var freeBefore := mem.GetFreeFrame();
      var res := Dispatch(pid, pageNumber);
      r := Handled(res);
      if Consistency.Consistent(fs, tables0) && !IsPagePresent(t, pageNumber) {
        FaultKeepsConsistent(fs, s, tables0, pid, pageNumber, freeBefore, res, mem.frames[..], tables);
      }
    }

    /** The handler call of handlePageFault on a registered pid and an in-range page, with the table updates after it. */
    method Dispatch(pid: Pid, pageNumber: int) returns (res: FaultResult)
      requires Valid() && pid in tables && InRange(tables[pid], pageNumber)
      modifies this, handler, mem, mem.frames, disk
      ensures Valid() && pageSize == old(pageSize) && tables.Keys == old(tables).Keys
      ensures disk.ioDelayMs == old(disk.ioDelayMs) && disk.enabled == old(disk.enabled)
      ensures FaultStep(old(mem.frames[..]), old(mem.clockPointer), old(tables), pid, pageNumber,
                        old(mem.GetFreeFrame()), res, mem.frames[..], tables)
      ensures FaultEffects(old(mem.frames[..]), old(mem.clockPointer), old(IsPagePresent(tables[pid], pageNumber)),
                           old(mem.GetFreeFrame()), pid, pageNumber, res,
                           old(disk.swap), old(disk.ops), old(handler.history), disk.ioDelayMs,
                           mem.clockPointer, disk.swap, disk.ops, handler.history)
    {
      ghost var fs, s, tables0 := mem.frames[..], mem.clockPointer, tables;
      ghost var freeBefore := mem.GetFreeFrame();
      res := RunHandler(pid, pageNumber);
      ghost var tables1 := tables;
      if res.Replaced? {
        UpdateVictimTable(res.victim);
      }
      assert HandlerStep(fs, s, tables0, pid, pageNumber, freeBefore, res, mem.frames[..], tables1);
    }

    /** The handler call itself, with the faulting pid's table replaced by the one the handler returns. */
    method RunHandler(pid: Pid, pageNumber: int) returns (res: FaultResult)
      requires Valid() && pid in tables && InRange(tables[pid], pageNumber)
      modifies this, handler, mem, mem.frames, disk
      ensures Valid() && pageSize == old(pageSize) && tables.Keys == old(tables).Keys
      ensures disk.ioDelayMs == old(disk.ioDelayMs) && disk.enabled == old(disk.enabled)
      ensures HandlerStep(old(mem.frames[..]), old(mem.clockPointer), old(tables), pid, pageNumber,
                          old(mem.GetFreeFrame()), res, mem.frames[..], tables)
      ensures FaultEffects(old(mem.frames[..]), old(mem.clockPointer), old(IsPagePresent(tables[pid], pageNumber)),
                           old(mem.GetFreeFrame()), pid, pageNumber, res,
                           old(disk.swap), old(disk.ops), old(handler.history), disk.ioDelayMs,
                           mem.clockPointer, disk.swap, disk.ops, handler.history)
    {
      forall f: int ensures Shaped(MarkedPresent(tables[pid], pageNumber, f)) {
        PresentKeepsShape(tables[pid], pageNumber, f);
      }
      var res0, newTable := handler.HandlePageFault(pid, pageNumber, Some(tables[pid]));
      res := res0;
      tables := tables[pid := newTable.value];
    }

    /** The victim-table step of handlePageFault: the victim's entry is marked absent if its process is registered. */
    method UpdateVictimTable(victim: Victim)
      requires Valid() && forall p :: p in tables ==> Shaped(tables[p])
      modifies this
      ensures Valid() && pageSize == old(pageSize)
      ensures victim.pid.Some? && victim.pageNumber.Some? ==>
        tables == VictimUpdated(old(tables), victim.pid.value, victim.pageNumber.value)
      ensures victim.pid.None? || victim.pageNumber.None? ==> tables == old(tables)
    {
      match (victim.pid, victim.pageNumber) {
        case (Some(q), Some(k)) =>
          var (_, updated) := UpdateVictimPageTable(if q in tables then Some(tables[q]) else None, k);
          if updated.Some? {
            tables := tables[q := updated.value];
          }
        case _ =>
      }
    }

    /**
     * allocateFramesForProcess: for each page below numPages, an already
     * present page is reported with its frame, any other page takes the
     * lowest free frame, and a page finding none is reported as failed.
     */
    method AllocateFramesForProcess(pid: Pid, numPages: int) returns (r: Allocation)
      requires Valid()
      modifies this, mem.frames
      ensures Valid() && pageSize == old(pageSize)
      ensures r == AllocProcessNotFound <==> pid !in old(tables)
      ensures r.AllocProcessNotFound? ==> tables == old(tables) && mem.frames[..] == old(mem.frames[..])
      ensures r.Allocation? ==>
        var st := AllocUpTo(old(mem.frames[..]), old(tables[pid]), pid, if numPages < 0 then 0 else numPages);
        && r == Allocation(|st.failedPages| == 0, st.allocatedFrames, st.failedPages, pid)
        && mem.frames[..] == st.fs && tables == old(tables)[pid := st.t]
      ensures r.Allocation? && old(MemoryConsistent()) && numPages <= |old(tables[pid])| ==> MemoryConsistent()
    {
      if pid !in tables {
        return AllocProcessNotFound;
      }
      ghost var t0, fs0, tables0 := tables[pid], mem.frames[..], tables;
      ghost var wasConsistent := MemoryConsistent();
      var allocatedFrames: seq<PageFrame> := [];
      var failedPages: seq<int> := [];
      var page := 0;
      while page < numPages
        invariant 0 <= page <= (if numPages < 0 then 0 else numPages)
        invariant Valid() && pageSize == old(pageSize) && pid in tables
        invariant tables == tables0[pid := tables[pid]]
        invariant AllocState(mem.frames[..], tables[pid], allocatedFrames, failedPages) == AllocUpTo(fs0, t0, pid, page)
      {
        allocatedFrames, failedPages := RecordPage(pid, page, allocatedFrames, failedPages);
        page := page + 1;
      }
      assert page == (if numPages < 0 then 0 else numPages);
      ghost var st := AllocUpTo(fs0, t0, pid, page);
      assert mem.frames[..] == st.fs && tables[pid] == st.t;
      assert allocatedFrames == st.allocatedFrames && failedPages == st.failedPages;
      r := Allocation(|failedPages| == 0, allocatedFrames, failedPages, pid);
      if wasConsistent && numPages <= |t0| {
        AllocConsistent(fs0, tables0, pid, page);
      }
    }

    /** One iteration of allocateFramesForProcess with its report: the page's outcome appended to the matching list. */
    method RecordPage(pid: Pid, page: int, placedSoFar: seq<PageFrame>, failedSoFar: seq<int>)
      returns (allocatedAfter: seq<PageFrame>, failedAfter: seq<int>)
      requires Valid() && pid in tables
      modifies this, mem.frames
      ensures Valid() && pageSize == old(pageSize)
      ensures pid in tables && tables == old(tables)[pid := tables[pid]]
      ensures AllocState(mem.frames[..], tables[pid], allocatedAfter, failedAfter)
              == AllocStep(AllocState(old(mem.frames[..]), old(tables[pid]), placedSoFar, failedSoFar), pid, page)
    {
      allocatedAfter, failedAfter := placedSoFar, failedSoFar;
      var step := AllocatePage(pid, page);
      match step {
        case AlreadyPresent(f) =>
          allocatedAfter := placedSoFar + [PageFrame(page, f)];
        case NoFreeFrame =>
          failedAfter := failedSoFar + [page];
        case Placed(f) =>
          allocatedAfter := placedSoFar + [PageFrame(page, Some(f))];
      }
    }

    /** One iteration of allocateFramesForProcess, for page `page` of a registered pid. */
    method AllocatePage(pid: Pid, page: int) returns (step: PageStep)
      requires Valid() && pid in tables
      modifies this, mem.frames
      ensures Valid() && pageSize == old(pageSize)
      ensures step == PageOutcome(old(mem.frames[..]), old(tables[pid]), page)
      ensures !step.Placed? ==> tables == old(tables) && mem.frames[..] == old(mem.frames[..])
      ensures step.Placed? ==>
        var f := step.placedFrame;
        && mem.frames[..] == old(mem.frames[..])[f := LoadedFrame(f, pid, page)]
        && tables == old(tables)[pid := MarkedPresent(old(tables[pid]), page, f)]
    {
      var t := tables[pid];
      if IsPagePresent(t, page) {
        return AlreadyPresent(GetFrameNumber(t, page));
      }
      var freeFrame := mem.GetFreeFrame();
      if freeFrame.None? {
        return NoFreeFrame;
      }
      var f := freeFrame.value;
      var frameTaken := mem.AllocateFrame(f, pid, page);
      assert frameTaken;
      tables := tables[pid := MarkedPresent(t, page, f)];
      step := Placed(f);
    }

    /**
     * freeFramesOfProcess: frees the frame of every present page of the pid,
     * marks each such entry absent, and removes the pid's swap entries.
     */
    method FreeFramesOfProcess(pid: Pid) returns (r: Release)
      requires Valid()
      modifies this, mem.frames, disk
      ensures Valid() && pageSize == old(pageSize)
      ensures disk.ioDelayMs == old(disk.ioDelayMs) && disk.enabled == old(disk.enabled)
      ensures r == ReleaseProcessNotFound <==> pid !in old(tables)
      ensures r.ReleaseProcessNotFound? ==>
        tables == old(tables) && mem.frames[..] == old(mem.frames[..]) && disk.swap == old(disk.swap) && disk.ops == old(disk.ops)
      ensures r.Released? ==>
        var pp := GetPresentPages(old(tables[pid]));
        var st := FreeUpTo(old(mem.frames[..]), old(tables[pid]), pp, |pp|);
        && r.pid == pid && r.freedFrames == st.freedFrames && r.count == |r.freedFrames|
        && mem.frames[..] == st.fs && tables == old(tables)[pid := st.t]
        && disk.swap == WithoutPid(old(disk.swap), pid) && r.diskPagesFreed == |KeysOf(old(disk.swap), pid)|
        && disk.ops == old(disk.ops) + [DiskFreeProcess(pid, r.diskPagesFreed)]
      ensures r.Released? && old(MemoryConsistent()) ==>
        && MemoryConsistent()
        && r.count == CountPresentPages(old(tables[pid]))
        && tables[pid] == AllAbsent(old(tables[pid]))
        && mem.frames[..] == FramesWithout(old(mem.frames[..]), pid)
    {
      if pid !in tables {
        return ReleaseProcessNotFound;
      }
      ghost var fs0, tables0 := mem.frames[..], tables;
      var freedFrames := FreePresentPages(pid);
      var diskPagesFreed := disk.FreePagesByPid(pid);
      r := Released(freedFrames, |freedFrames|, diskPagesFreed, pid);
      if Consistent(fs0, tables0) {
        ReleaseAll(fs0, tables0, pid);
      }
    }

    /** The loop of freeFramesOfProcess over the pid's present pages. */
    method FreePresentPages(pid: Pid) returns (freedFrames: seq<int>)
      requires Valid() && pid in tables
      modifies this, mem.frames
      ensures Valid() && pageSize == old(pageSize)
      ensures var pp := GetPresentPages(old(tables[pid]));
        var st := FreeUpTo(old(mem.frames[..]), old(tables[pid]), pp, |pp|);
        mem.frames[..] == st.fs && tables == old(tables)[pid := st.t] && freedFrames == st.freedFrames
    {
      ghost var fs0, t0, tables0 := mem.frames[..], tables[pid], tables;
      var presentPages := GetPresentPages(tables[pid]);
      freedFrames := [];
      var k := 0;
      while k < |presentPages|
        invariant 0 <= k <= |presentPages|
        invariant Valid() && pageSize == old(pageSize) && pid in tables
        invariant tables == tables0[pid := tables[pid]]
        invariant FreeState(mem.frames[..], tables[pid], freedFrames) == FreeUpTo(fs0, t0, presentPages, k)
      {
        assert FreeUpTo(fs0, t0, presentPages, k + 1) == FreeStep(FreeUpTo(fs0, t0, presentPages, k), presentPages[k]);
        freedFrames := FreeEntry(pid, presentPages[k], freedFrames);
        k := k + 1;
      }
    }

    /**
     * One iteration of freeFramesOfProcess: frees the entry's frame and, if
     * that succeeded, marks its page absent and appends the frame to `freed`.
     */
    method FreeEntry(pid: Pid, entry: PageEntry, freed: seq<int>) returns (freedAfter: seq<int>)
      requires Valid() && pid in tables
      modifies this, mem.frames
      ensures Valid() && pageSize == old(pageSize)
      ensures pid in tables && tables == old(tables)[pid := tables[pid]]
      ensures FreeState(mem.frames[..], tables[pid], freedAfter)
              == FreeStep(FreeState(old(mem.frames[..]), old(tables[pid]), freed), entry)
    {
      freedAfter := freed;
      if entry.frameNumber.None? {
        return;
      }
      var ok := mem.FreeFrame(entry.frameNumber.value);
      if !ok {
        return;
      }
      tables := tables[pid := MarkedAbsent(tables[pid], entry.pageNumber)];
      freedAfter := freed + [entry.frameNumber.value];
    }

    /** markPageAsModified: sets the entry's modified bit, and the frame's when the page is present. */
    method MarkPageAsModified(pid: Pid, pageNumber: int) returns (ok: bool)
      requires Valid()
      modifies this, mem.frames
      ensures Valid() && pageSize == old(pageSize)
      ensures ok <==> pid in old(tables)
      ensures !ok ==> tables == old(tables) && mem.frames[..] == old(mem.frames[..])
      ensures ok ==> tables == old(tables)[pid := MarkedModified(old(tables[pid]), pageNumber)]
      ensures ok && !IsPagePresent(old(tables[pid]), pageNumber) ==> mem.frames[..] == old(mem.frames[..])
      ensures ok && IsPagePresent(old(tables[pid]), pageNumber) ==>
        var f := old(tables[pid][pageNumber]).frameNumber.value;
        mem.frames[..] == if 0 <= f < mem.frames.Length
                          then old(mem.frames[..])[f := old(mem.frames[f]).(modified := 1)]
                          else old(mem.frames[..])
      ensures ok && IsPagePresent(old(tables[pid]), pageNumber) && old(MemoryConsistent()) ==>
        var f := old(tables[pid][pageNumber]).frameNumber.value;
        0 <= f < mem.frames.Length && NeedsWriteBack(mem.frames[f]) && mem.frames[f].pid == Some(pid)
        && mem.frames[f].pageNumber == Some(pageNumber)
      ensures old(MemoryConsistent()) ==> MemoryConsistent()
    {
      if pid !in tables {
        return false;
      }
      ghost var fs, tables0 := mem.frames[..], tables;
      ghost var wasConsistent := MemoryConsistent();
      var t := tables[pid];
      tables := tables[pid := MarkedModified(t, pageNumber)];
      var frameNumber := GetFrameNumber(tables[pid], pageNumber);
      if frameNumber.Some? {
        var _ := mem.UpdateFrameBits(frameNumber.value, None, Some(1));
      }
      if wasConsistent {
        if IsPagePresent(t, pageNumber) {
          EntryResident(fs, tables0, pid, pageNumber);
        }
        forall p | p in tables0 ensures SameMapping(tables0[p], tables[p]) {
        }
        OwnershipPreserved(fs, mem.frames[..], tables0, tables);
      }
      return true;
    }

    /** getProcessMemoryStats: the counts of one registered table, or None. */
    function GetProcessMemoryStats(pid: Pid): (st: Option<MemoryStats>)
      reads this
      ensures st.Some? <==> pid in tables
      ensures st.Some? ==>
        && st.value.totalPages == |tables[pid]|
        && st.value.presentPages == CountPresentPages(tables[pid])
        && st.value.presentPages + st.value.absentPages == st.value.totalPages
        && st.value.modifiedPages <= st.value.presentPages
    {
      if pid in tables then CountIsPresentLength(tables[pid]); Some(ProcessStats(pid, tables[pid])) else None
    }

    /** getMMUSnapshot: the configuration and, per registered pid, its statistics and table. */
    function GetMmuSnapshot(): (s: MmuSnapshot)
      reads this
      ensures s.pageSize == pageSize && !s.callbackDefined
      ensures s.totalProcesses == |tables| && s.processes.Keys == tables.Keys
      ensures forall p :: p in s.processes ==>
        s.processes[p].pageTable == tables[p] && Some(s.processes[p].stats) == GetProcessMemoryStats(p)
    {
      MmuSnapshot(pageSize, false, |tables|, map p | p in tables :: ProcessView(ProcessStats(p, tables[p]), tables[p]))
    }

    /** resetMMU: no process and the default page size; memory is left as it is. */
    method Reset()
      requires Valid()
      modifies this
      ensures Valid() && tables == map[] && pageSize == DefaultPageSize
      ensures MemoryConsistent()
    {
      tables := map[];
      pageSize := DefaultPageSize;
    }

    /** getPageSize. */
    function GetPageSize(): (ps: int)
      reads this, handler, mem, mem.frames
      requires Valid()
      ensures ps > 0 && ps == pageSize
    {
      pageSize
    }

    /** isProcessRegistered: whether the pid has a table. */
    function IsProcessRegistered(pid: Pid): (b: bool)
      reads this
      ensures b <==> GetProcessPageTable(pid).Some?
    {
      pid in tables
    }
  }

  /**
   * The effect of the handler call alone on frames and tables: FaultStep
   * before the victim's own entry is marked absent.
   */
  ghost predicate HandlerStep(fs: seq<Frame>, s: nat, tables0: Tables, pid: Pid, page: int,
                              freeBefore: Option<int>, res: FaultResult, fs2: seq<Frame>, tables1: Tables)
    requires pid in tables0 && InRange(tables0[pid], page)
  {
    && (tables0[pid][page].present == 1 ==> res == Failed(PageAlreadyPresent) && fs2 == fs && tables1 == tables0)
    && (tables0[pid][page].present == 0 && freeBefore.Some? ==>
          var f := freeBefore.value;
          && 0 <= f < |fs| && IsFree(fs[f])
          && res.Loaded? && res.frameNumber == f
          && fs2 == fs[f := LoadedFrame(f, pid, page)]
          && tables1 == tables0[pid := MarkedPresent(tables0[pid], page, f)])
    && (tables0[pid][page].present == 0 && freeBefore.None? && |fs| > 0 ==>
          s < |fs| &&
          var v := ClockVictim(fs, s);
          && res.Replaced? && res.frameNumber == v
          && res.victim == VictimRecord(Scanned(fs, s)[v], v)
          && res.victim.pid.Some? && res.victim.pageNumber.Some?
          && fs2 == Scanned(fs, s)[v := LoadedFrame(v, pid, page)]
          && tables1 == tables0[pid := MarkedPresent(tables0[pid], page, v)])
    && (tables0[pid][page].present == 0 && |fs| == 0 ==> res.Failed? && fs2 == fs && tables1 == tables0)
  }

  /**
   * The effect of the handler call and the victim-table update on frames
   * and tables: no change for a present page; for an absent one, a load
   * into the lowest free frame, or the Clock eviction and load with the
   * victim's entry marked absent, or nothing when there are no frames.
   */
  ghost predicate FaultStep(fs: seq<Frame>, s: nat, tables0: Tables, pid: Pid, page: int,
                            freeBefore: Option<int>, res: FaultResult, fs2: seq<Frame>, tables2: Tables)
    requires pid in tables0 && InRange(tables0[pid], page)
  {
    && (tables0[pid][page].present == 1 ==> res == Failed(PageAlreadyPresent) && fs2 == fs && tables2 == tables0)
    && (tables0[pid][page].present == 0 && freeBefore.Some? ==>
          var f := freeBefore.value;
          && 0 <= f < |fs| && IsFree(fs[f])
          && res.Loaded? && res.frameNumber == f
          && fs2 == fs[f := LoadedFrame(f, pid, page)]
          && tables2 == tables0[pid := MarkedPresent(tables0[pid], page, f)])
    && (tables0[pid][page].present == 0 && freeBefore.None? && |fs| > 0 ==>
          s < |fs| &&
          var v := ClockVictim(fs, s);
          && res.Replaced? && res.frameNumber == v
          && res.victim == VictimRecord(Scanned(fs, s)[v], v)
          && res.victim.pid.Some? && res.victim.pageNumber.Some?
          && fs2 == Scanned(fs, s)[v := LoadedFrame(v, pid, page)]
          && tables2 == VictimUpdated(tables0[pid := MarkedPresent(tables0[pid], page, v)],
                                      res.victim.pid.value, res.victim.pageNumber.value))
    && (tables0[pid][page].present == 0 && |fs| == 0 ==> res.Failed? && fs2 == fs && tables2 == tables0)
  }

  /**
   * The effect of the handler call on the Clock pointer, the swap store,
   * the disk log and the replacement history: nothing for a present page or
   * when there are no frames; for a load into a free frame, the read or
   * allocation of the page, the LoadedResult it reports and one PAGE_LOAD event; for a replacement, the
   * write-back of a dirty victim, then the read or allocation of the page,
   * the pointer just past the victim and one PAGE_REPLACEMENT event.
   */
  ghost predicate FaultEffects(fs: seq<Frame>, s: nat, present: bool, freeBefore: Option<int>,
                               pid: Pid, page: int, res: FaultResult,
                               swap: map<SwapKey, SwapEntry>, ops: seq<DiskOp>, history: seq<ReplacementEvent>, delay: int,
                               s2: nat, swap2: map<SwapKey, SwapEntry>, ops2: seq<DiskOp>, history2: seq<ReplacementEvent>)
  {
    && (present || |fs| == 0 ==> s2 == s && swap2 == swap && ops2 == ops && history2 == history)
    && (!present && freeBefore.Some? ==>
          && res == LoadedResult(freeBefore.value, swap, pid, page, delay)
          && s2 == s
          && swap2 == SwapAfterLoad(swap, pid, page)
          && ops2 == ops + [LoadOp(swap, pid, page, delay)]
          && history2 == history + [ReplacementEvent(pid, page, res)])
    && (!present && freeBefore.None? && |fs| > 0 ==>
          s < |fs| &&
          var v := ClockVictim(fs, s);
          var vd := Scanned(fs, s)[v];
          var swapMid := SwapAfterWriteBack(swap, vd);
          && res == ReplacedResult(vd, v, |fs|, ClockAttempts(fs, s), swapMid, pid, page, delay)
          && s2 == (v + 1) % |fs|
          && swap2 == SwapAfterLoad(swapMid, pid, page)
          && ops2 == ops + WriteBackOps(vd, delay) + [LoadOp(swapMid, pid, page, delay)]
          && history2 == history + [ReplacementEvent(pid, page, res)])
  }

  /**
   * The MMU's page-fault path keeps the frame/page-table agreement: the
   * handler's effect on frames and on the faulting table, followed by the
   * victim-table update, is a load into a free frame or an eviction plus load.
   */
  lemma FaultKeepsConsistent(fs: seq<Frame>, s: nat, tables0: Tables, pid: Pid, page: int,
                             freeBefore: Option<int>, res: FaultResult, fs2: seq<Frame>, tables2: Tables)
    requires Consistent(fs, tables0)
    requires pid in tables0 && InRange(tables0[pid], page) && tables0[pid][page].present == 0
    requires FaultStep(fs, s, tables0, pid, page, freeBefore, res, fs2, tables2)
    ensures Consistent(fs2, tables2)
    ensures !res.Failed? ==>
      var f := res.frameNumber;
      && 0 <= f < |fs2| && fs2[f] == LoadedFrame(f, pid, page)
      && pid in tables2 && InRange(tables2[pid], page)
      && tables2[pid][page].present == 1 && tables2[pid][page].frameNumber == Some(f)
  {
    if freeBefore.Some? {
      LoadPreserves(fs, tables0, pid, page, freeBefore.value);
      EntryResident(fs2, tables2, pid, page);
    } else if |fs| > 0 {
      var sc := Scanned(fs, s);
      var v := ClockVictim(fs, s);
      ScanClearsExactlyPassed(fs, s);
      ScanKeepsShape(fs, s, ClockAttempts(fs, s));
      forall p | p in tables0 ensures SameMapping(tables0[p], tables0[p]) {
      }
      OwnershipPreserved(fs, sc, tables0, tables0);
      assert sc[v].present == 1;
      ReplacePreserves(sc, tables0, pid, page, v);
      assert Consistent(fs2, tables2);
      assert tables2[pid][page] == MarkedPresent(tables0[pid], page, v)[page] by {
        if sc[v].pid.value == pid {
          assert FrameBacked(sc[v], v, tables0);
        }
      }
    }
  }
}
