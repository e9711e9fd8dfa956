/**
 * The page-fault handler: loads a missing page into the lowest free frame,
 * or, when memory is full, picks a victim with the Clock (second-chance)
 * algorithm, writes it back if dirty, and loads the page into its frame.
 * Every successful fault is appended to a history of events.
 *
 * Page tables are passed in and handed back as values; the caller stores
 * the returned table.
 */
module FaultHandler {
  import opened Common
  import opened Frames
  import opened PageTables
  import opened Swap

  /** Where a loaded page came from: a fresh page ("RAM") or the swap store ("DISK"). */
  datatype Origin = FromRam | FromDisk

  datatype FaultError =
    | NoPageTable
    | InvalidPageNumber
    | PageAlreadyPresent
    | InvalidFrameNumber(frameNumber: int)
    | FrameNotFree(frameNumber: int, currentOwner: Option<Pid>)
    | PageTableUpdateFailed(pageNumber: int)
    | NoVictimFound(attempts: nat)
    | LoadAfterEvictionFailed(evictedFrame: int, loadError: FaultError)

  /** The result of loadPageIntoFrame. */
  datatype LoadResult =
    | LoadOk(frameNumber: int, origin: Origin, diskOp: Option<DiskOp>, hadDiskIO: bool)
    | LoadFailed(error: FaultError)

  /** What is recorded about an evicted frame, as it was when chosen. */
  datatype Victim = Victim(pid: Option<Pid>, pageNumber: Option<int>, frameNumber: int, wasDirty: bool, use: Bit)

  /** The result of handlePageFault and clockReplacement. */
  datatype FaultResult =
    | Loaded(frameNumber: int, origin: Origin, diskOp: Option<DiskOp>, hadDiskIO: bool)
    | Replaced(frameNumber: int, victim: Victim, origin: Origin, clockPointerAfter: int, attempts: nat,
               writeOp: Option<DiskOp>, readOp: Option<DiskOp>, hadDiskIO: bool)
    | Failed(error: FaultError)

  /** One history entry: the faulting page and what was done about it (PAGE_LOAD or PAGE_REPLACEMENT). */
  datatype ReplacementEvent = ReplacementEvent(pid: Pid, pageNumber: int, result: FaultResult)

  /** The result of getReplacementStats. */
  datatype ReplacementStats = ReplacementStats(
    totalEvents: nat,
    totalReplacements: nat,
    totalLoads: nat,
    dirtyReplacements: nat,
    cleanReplacements: int,
    totalClockAttempts: nat,
    averageClockAttempts: real,
    victimsByProcess: map<Option<Pid>, nat>,
    loadsByProcess: map<Pid, nat>)

  /** The result of getClockState. */
  datatype ClockState = ClockState(
    clockPointer: nat,
    totalFrames: nat,
    usedFrames: nat,
    freeFrames: nat,
    currentFrame: Option<Frame>,
    memoryFull: bool)

  // ---------------------------------------------------------------------
  // The Clock scan, as a function of the frame table and the pointer
  // ---------------------------------------------------------------------

  /** A frame the scan stops at: not present, or present with use bit 0. */
  predicate Evictable(fr: Frame) {
    fr.present == 0 || fr.use == 0
  }

  /** The frame index `j` steps after `s` on a ring of `n` frames (for `s < n` and `j <= n`). */
  function Ring(s: int, j: int, n: int): int {
    if s + j < n then s + j else s + j - n
  }

  /** How many steps after `s` frame `i` lies on a ring of `n` frames. */
  function Offset(s: int, i: int, n: int): int {
    if i >= s then i - s else i - s + n
  }

  lemma RingOffset(s: int, n: int)
    requires 0 <= s < n
    ensures forall j :: 0 <= j < n ==> 0 <= Ring(s, j, n) < n && Offset(s, Ring(s, j, n), n) == j
    ensures forall i :: 0 <= i < n ==> 0 <= Offset(s, i, n) < n && Ring(s, Offset(s, i, n), n) == i
  {
  }

  /** One step on from `j` steps after `s` is `j + 1` steps after `s`. */
  lemma RingNext(s: int, j: int, n: int)
    requires 0 <= s < n && 0 <= j < n
    ensures (Ring(s, j, n) + 1) % n == Ring(s, j + 1, n)
  {
    if Ring(s, j, n) + 1 == n {
      assert n % n == 0;
    }
  }

  /** The frames `fs` after the use bits of the first `k` frames from `s` have been cleared. */
  function ClearedArc(fs: seq<Frame>, s: int, k: int): (r: seq<Frame>)
    ensures |r| == |fs|
    ensures forall i :: 0 <= i < |fs| ==> r[i] == if Offset(s, i, |fs|) < k then fs[i].(use := 0) else fs[i]
  {
    seq(|fs|, i requires 0 <= i < |fs| => if Offset(s, i, |fs|) < k then fs[i].(use := 0) else fs[i])
  }

  /**
   * The number of frames the scan passes over when it starts at `j` steps
   * from `s`: every frame passed over is present with use 1, and the frame
   * reached, if it is within one turn, is evictable.
   */
  function ScanFrom(fs: seq<Frame>, s: nat, j: nat): (k: nat)
    requires s < |fs| && j <= |fs|
    ensures j <= k <= |fs|
    ensures forall i :: j <= i < k ==> !Evictable(fs[Ring(s, i, |fs|)])
    ensures k < |fs| ==> Evictable(fs[Ring(s, k, |fs|)])
    decreases |fs| - j
  {
    if j == |fs| then j
    else if Evictable(fs[Ring(s, j, |fs|)]) then j
    else ScanFrom(fs, s, j + 1)
  }

  /** The number of second chances the Clock gives starting from pointer `s` (the `attempts` it reports). */
  function ClockAttempts(fs: seq<Frame>, s: nat): (k: nat)
    requires s < |fs|
    ensures k <= |fs|
  {
    ScanFrom(fs, s, 0)
  }

  /** The frame the Clock evicts starting from pointer `s`. */
  function ClockVictim(fs: seq<Frame>, s: nat): (v: nat)
    requires s < |fs|
    ensures v < |fs|
  {
    Ring(s, ClockAttempts(fs, s), |fs|)
  }

  /** The frame table after the scan, before the victim is freed. */
  function Scanned(fs: seq<Frame>, s: nat): seq<Frame>
    requires s < |fs|
  {
    ClearedArc(fs, s, ClockAttempts(fs, s))
  }

  /** Any count with the scan's two defining properties is the scan's count. */
  lemma ScanIsFirst(fs: seq<Frame>, s: nat, k: nat)
    requires s < |fs| && k <= |fs|
    requires forall i :: 0 <= i < k ==> !Evictable(fs[Ring(s, i, |fs|)])
    requires k < |fs| ==> Evictable(fs[Ring(s, k, |fs|)])
    ensures ClockAttempts(fs, s) == k
  {
    var a := ClockAttempts(fs, s);
    var atA, atK := fs[Ring(s, a, |fs|)], fs[Ring(s, k, |fs|)];
  }

  /** Clearing one more use bit, at the next frame on the ring, extends the cleared arc by one. */
  lemma {:induction false} ClearedArcStep(fs: seq<Frame>, s: nat, a: nat)
    requires s < |fs| && a < |fs|
    ensures var p := Ring(s, a, |fs|);
      ClearedArc(fs, s, a)[p := ClearedArc(fs, s, a)[p].(use := 0)] == ClearedArc(fs, s, a + 1)
  {
    var n := |fs|;
    var p := Ring(s, a, n);
    RingOffset(s, n);
    var lhs := ClearedArc(fs, s, a)[p := ClearedArc(fs, s, a)[p].(use := 0)];
    var rhs := ClearedArc(fs, s, a + 1);
    forall i | 0 <= i < n
      ensures lhs[i] == rhs[i]
    {
      if i == p {
        assert Offset(s, i, n) == a;
      } else {
        assert Offset(s, i, n) != a;
      }
    }
  }

  /** The Clock's victim is evictable once the scan has cleared the bits it passed over. */
  lemma VictimIsEvictable(fs: seq<Frame>, s: nat)
    requires s < |fs|
    ensures Evictable(Scanned(fs, s)[ClockVictim(fs, s)])
  {
    var n := |fs|;
    var k := ClockAttempts(fs, s);
    RingOffset(s, n);
    if k == n {
      assert ClockVictim(fs, s) == s;
      assert Offset(s, s, n) == 0;
    } else {
      assert Offset(s, ClockVictim(fs, s), n) == k;
    }
  }

  /**
   * Second chance: the scan changes only use bits, and exactly at the frames
   * it passed over, each of which was present with use 1 and now has use 0;
   * so `attempts` is the number of bits cleared.
   */
  lemma ScanClearsExactlyPassed(fs: seq<Frame>, s: nat)
    requires s < |fs|
    ensures forall i :: 0 <= i < |fs| ==> Scanned(fs, s)[i] == fs[i].(use := Scanned(fs, s)[i].use)
    ensures forall i :: 0 <= i < |fs| ==>
      (Scanned(fs, s)[i] != fs[i] <==> Offset(s, i, |fs|) < ClockAttempts(fs, s))
    ensures forall i :: 0 <= i < |fs| && Offset(s, i, |fs|) < ClockAttempts(fs, s) ==>
      fs[i].present == 1 && fs[i].use == 1 && Scanned(fs, s)[i].use == 0
  {
    var n := |fs|;
    var k := ClockAttempts(fs, s);
    RingOffset(s, n);
    forall i | 0 <= i < n && Offset(s, i, n) < k
      ensures fs[i].present == 1 && fs[i].use == 1
    {
      assert Ring(s, Offset(s, i, n), n) == i;
    }
  }

  /** The scan never passes an evictable frame: it stops at or before it. */
  lemma ScanStopsAtEvictable(fs: seq<Frame>, s: nat, i: nat)
    requires s < |fs| && i < |fs|
    requires Evictable(fs[i])
    ensures ClockAttempts(fs, s) <= Offset(s, i, |fs|)
  {
    RingOffset(s, |fs|);
    assert Ring(s, Offset(s, i, |fs|), |fs|) == i;
  }

  /** When every frame is present with use 1, the scan goes once round and evicts the starting frame. */
  lemma FullTurnWhenAllUsed(fs: seq<Frame>, s: nat)
    requires s < |fs|
    requires forall i :: 0 <= i < |fs| ==> fs[i].present == 1 && fs[i].use == 1
    ensures ClockAttempts(fs, s) == |fs|
    ensures ClockVictim(fs, s) == s
  {
    var k := ClockAttempts(fs, s);
    RingOffset(s, |fs|);
    var atK := fs[Ring(s, k, |fs|)];
  }

  /** When the frame at the pointer is evictable, it is the victim and no bit is cleared. */
  lemma NoSecondChanceAtEvictablePointer(fs: seq<Frame>, s: nat)
    requires s < |fs|
    requires Evictable(fs[s])
    ensures ClockAttempts(fs, s) == 0 && ClockVictim(fs, s) == s
    ensures Scanned(fs, s) == fs
  {
    ScanIsFirst(fs, s, 0);
    assert Scanned(fs, s) == fs;
  }

  /** The scan keeps the frame table's shape. */
  lemma ScanKeepsShape(fs: seq<Frame>, s: nat, k: nat)
    requires s < |fs| && TableShape(fs)
    ensures TableShape(ClearedArc(fs, s, k))
  {
  }

  // ---------------------------------------------------------------------
  // The swap-store side of a load and of a write-back
  // ---------------------------------------------------------------------

  /** The disk operation a load performs: a read when the page is in swap, an allocation otherwise. */
  function LoadOp(swap: map<SwapKey, SwapEntry>, pid: Pid, pageNumber: int, delay: int): DiskOp {
    if SwapKey(pid, pageNumber) in swap then DiskRead(pid, pageNumber, delay, true)
    else DiskAllocate(pid, pageNumber)
  }

  /** The swap store after a load: unchanged by a read, one clean entry more after an allocation. */
  function SwapAfterLoad(swap: map<SwapKey, SwapEntry>, pid: Pid, pageNumber: int): map<SwapKey, SwapEntry> {
    if SwapKey(pid, pageNumber) in swap then swap
    else swap[SwapKey(pid, pageNumber) := SwapEntry(None, false)]
  }

  /** After a load the page has a swap entry, and every entry there before is kept as it was. */
  lemma LoadLeavesSwapEntry(swap: map<SwapKey, SwapEntry>, pid: Pid, pageNumber: int)
    ensures SwapKey(pid, pageNumber) in SwapAfterLoad(swap, pid, pageNumber)
    ensures forall k :: k in swap ==>
      k in SwapAfterLoad(swap, pid, pageNumber) && SwapAfterLoad(swap, pid, pageNumber)[k] == swap[k]
    ensures LoadOp(swap, pid, pageNumber, 0).DiskRead? <==> SwapKey(pid, pageNumber) in swap
  {
  }

  /** A victim needs writing back when it is modified and has an owner. */
  predicate NeedsWriteBack(v: Frame) {
    v.modified == 1 && v.pid.Some? && v.pageNumber.Some?
  }

  /** The write-back of a victim: one dirty write when needed, nothing otherwise. */
  function WriteBackOps(v: Frame, delay: int): seq<DiskOp> {
    if NeedsWriteBack(v) then [DiskWrite(v.pid.value, v.pageNumber.value, delay, true)] else []
  }

  /** The swap store after the write-back of a victim. */
  function SwapAfterWriteBack(swap: map<SwapKey, SwapEntry>, v: Frame): map<SwapKey, SwapEntry> {
    if NeedsWriteBack(v) then
      swap[SwapKey(v.pid.value, v.pageNumber.value) := SwapEntry(Some(Placeholder(v.pid.value, v.pageNumber.value)), true)]
    else swap
  }

  /**
   * The result of a load into free frame `f`: a read when the page is in
   * swap, an allocation otherwise, with disk I/O exactly in the first case.
   */
  function LoadedResult(f: int, swap: map<SwapKey, SwapEntry>, pid: Pid, pageNumber: int, delay: int): FaultResult {
    Loaded(f, if SwapKey(pid, pageNumber) in swap then FromDisk else FromRam,
      Some(LoadOp(swap, pid, pageNumber, delay)), SwapKey(pid, pageNumber) in swap)
  }

  /**
   * The result of a replacement that evicted `vd` from frame `v` of `n`
   * after `attempts` second chances, given the swap store after the write-back.
   */
  function ReplacedResult(vd: Frame, v: int, n: int, attempts: nat, swapMid: map<SwapKey, SwapEntry>,
                          pid: Pid, pageNumber: int, delay: int): FaultResult
    requires n > 0
  {
    var loadOp := LoadOp(swapMid, pid, pageNumber, delay);
    Replaced(v, VictimRecord(vd, v), if loadOp.DiskRead? then FromDisk else FromRam, (v + 1) % n, attempts,
      if NeedsWriteBack(vd) then Some(DiskWrite(vd.pid.value, vd.pageNumber.value, delay, true)) else None,
      Some(loadOp), vd.modified == 1 || loadOp.DiskRead?)
  }

  /** The victim record kept for an evicted frame. */
  function VictimRecord(v: Frame, frameNumber: int): Victim {
    Victim(v.pid, v.pageNumber, frameNumber, v.modified == 1, v.use)
  }

  // ---------------------------------------------------------------------
  // Statistics over the history
  // ---------------------------------------------------------------------

  /** The history holds only successful faults (the only ones ever appended). */
  predicate Successful(h: seq<ReplacementEvent>) {
    forall i :: 0 <= i < |h| ==> !h[i].result.Failed?
  }

  function CountReplacements(h: seq<ReplacementEvent>): nat {
    if |h| == 0 then 0 else (if h[0].result.Replaced? then 1 else 0) + CountReplacements(h[1..])
  }

  function CountLoads(h: seq<ReplacementEvent>): nat {
    if |h| == 0 then 0 else (if h[0].result.Loaded? then 1 else 0) + CountLoads(h[1..])
  }

  function CountDirty(h: seq<ReplacementEvent>): nat {
    if |h| == 0 then 0
    else (if h[0].result.Replaced? && h[0].result.victim.wasDirty then 1 else 0) + CountDirty(h[1..])
  }

  function CountClean(h: seq<ReplacementEvent>): nat {
    if |h| == 0 then 0
    else (if h[0].result.Replaced? && !h[0].result.victim.wasDirty then 1 else 0) + CountClean(h[1..])
  }

  function SumAttempts(h: seq<ReplacementEvent>): nat {
    if |h| == 0 then 0
    else (if h[0].result.Replaced? then h[0].result.attempts else 0) + SumAttempts(h[1..])
  }

  /** How many replacements evicted a frame of `victimPid`. */
  function CountVictimsOf(h: seq<ReplacementEvent>, victimPid: Option<Pid>): nat {
    if |h| == 0 then 0
    else (if h[0].result.Replaced? && h[0].result.victim.pid == victimPid then 1 else 0) + CountVictimsOf(h[1..], victimPid)
  }

  /** How many events loaded a page of `pid`. */
  function CountLoadsOf(h: seq<ReplacementEvent>, pid: Pid): nat {
    if |h| == 0 then 0 else (if h[0].pid == pid then 1 else 0) + CountLoadsOf(h[1..], pid)
  }

  /** Every replacement evicted either a dirty or a clean victim. */
  lemma {:induction false} DirtyPlusClean(h: seq<ReplacementEvent>)
    ensures CountDirty(h) + CountClean(h) == CountReplacements(h)
  {
    if |h| > 0 {
      DirtyPlusClean(h[1..]);
    }
  }

  /** In a history of successful faults every event is a load or a replacement. */
  lemma {:induction false} LoadsPlusReplacements(h: seq<ReplacementEvent>)
    requires Successful(h)
    ensures CountReplacements(h) + CountLoads(h) == |h|
  {
    if |h| > 0 {
      assert Successful(h[1..]) by {
        forall i | 0 <= i < |h[1..]| ensures !h[1..][i].result.Failed? {
          assert h[1..][i] == h[i + 1];
        }
      }
      LoadsPlusReplacements(h[1..]);
    }
  }

  /** An event is counted for the pid it names. */
  lemma {:induction false} EventCountedForItsPid(h: seq<ReplacementEvent>, i: nat)
    requires i < |h|
    ensures CountLoadsOf(h, h[i].pid) > 0
    ensures h[i].result.Replaced? ==> CountVictimsOf(h, h[i].result.victim.pid) > 0
  {
    if i > 0 {
      EventCountedForItsPid(h[1..], i - 1);
      assert h[1..][i - 1] == h[i];
    }
  }

  /** updateVictimPageTable: fails without a table; otherwise marks the evicted page absent. */
  function UpdateVictimPageTable(victimTable: Option<seq<PageEntry>>, victimPageNumber: int): (r: (bool, Option<seq<PageEntry>>))
    ensures r.0 <==> victimTable.Some? && InRange(victimTable.value, victimPageNumber)
    ensures victimTable.None? ==> r.1.None?
    ensures victimTable.Some? ==> r.1 == Some(MarkedAbsent(victimTable.value, victimPageNumber))
  {
    match victimTable
    case None => (false, None)
    case Some(t) => (InRange(t, victimPageNumber), Some(MarkedAbsent(t, victimPageNumber)))
  }

  /** The page-fault handler (the module state of pageFaultHandler.js) over the memory and disk it drives. */
  class PageFaultHandler {
    var history: seq<ReplacementEvent>
    const mem: Memory
    const disk: Disk

    /** The memory is valid and only successful faults are in the history. */
    ghost predicate Valid()
      reads this, mem, mem.frames
    {
      mem.Valid() && Successful(history)
    }

    constructor (mem: Memory, disk: Disk)
      requires mem.Valid()
      ensures this.mem == mem && this.disk == disk && history == []
      ensures Valid()
    {
      this.mem := mem;
      this.disk := disk;
      history := [];
    }

    /**
     * loadPageIntoFrame: fails with no change for a frame out of range or
     * not free. Otherwise the page is read from swap when it is there and
     * allocated in swap when it is not, and the frame is given to (pid, page);
     * if the page is outside the table the frame is freed again and the load fails.
     */
    method LoadPageIntoFrame(pid: Pid, pageNumber: int, frameNumber: int, table: seq<PageEntry>)
      returns (r: LoadResult, newTable: seq<PageEntry>)
      requires Valid()
      modifies mem.frames, disk
      ensures Valid() && unchanged(this) && unchanged(mem)
      ensures disk.ioDelayMs == old(disk.ioDelayMs) && disk.enabled == old(disk.enabled)
      ensures r == LoadFailed(InvalidFrameNumber(frameNumber)) <==> !(0 <= frameNumber < mem.frames.Length)
      ensures r.LoadFailed? && r.error.FrameNotFree? <==>
        0 <= frameNumber < mem.frames.Length && !IsFree(old(mem.frames[frameNumber]))
      ensures r.LoadFailed? && r.error.FrameNotFree? ==> r.error == FrameNotFree(frameNumber, old(mem.frames[frameNumber]).pid)
      ensures r.LoadFailed? && (r.error.InvalidFrameNumber? || r.error.FrameNotFree?) ==>
        && mem.frames[..] == old(mem.frames[..]) && newTable == table
        && disk.swap == old(disk.swap) && disk.ops == old(disk.ops)
      ensures 0 <= frameNumber < mem.frames.Length && IsFree(old(mem.frames[frameNumber])) ==>
        && disk.swap == SwapAfterLoad(old(disk.swap), pid, pageNumber)
        && disk.ops == old(disk.ops) + [LoadOp(old(disk.swap), pid, pageNumber, disk.ioDelayMs)]
        && (InRange(table, pageNumber) ==>
              && r == LoadOk(frameNumber, if SwapKey(pid, pageNumber) in old(disk.swap) then FromDisk else FromRam,
                             Some(LoadOp(old(disk.swap), pid, pageNumber, disk.ioDelayMs)),
                             SwapKey(pid, pageNumber) in old(disk.swap))
              && mem.frames[..] == old(mem.frames[..])[frameNumber := LoadedFrame(frameNumber, pid, pageNumber)]
              && newTable == MarkedPresent(table, pageNumber, frameNumber))
        && (!InRange(table, pageNumber) ==>
              && r == LoadFailed(PageTableUpdateFailed(pageNumber))
              && mem.frames[..] == old(mem.frames[..])[frameNumber := EmptyFrame(frameNumber)]
              && newTable == table)
    {
      var frame := mem.GetFrame(frameNumber);
      if frame.None? {
        return LoadFailed(InvalidFrameNumber(frameNumber)), table;
      }
      if frame.value.present == 1 || frame.value.pid.Some? {
        return LoadFailed(FrameNotFree(frameNumber, frame.value.pid)), table;
      }
      var origin := FromRam;
      var diskOp: Option<DiskOp> := None;
      var hadDiskIO := false;
      if disk.PageExistsInSwap(pid, pageNumber) {
        origin := FromDisk;
        hadDiskIO := true;
        // The entry was just found, so the read succeeds.
        var readResult := disk.ReadPage(pid, pageNumber);
        diskOp := Some(readResult.op);
      } else {
        var allocResult := disk.AllocatePage(pid, pageNumber);
        if allocResult.Allocated? {
          diskOp := Some(allocResult.op);
        }
      }
      // The frame is in range and free, so the allocation succeeds.
      var frameTaken := mem.AllocateFrame(frameNumber, pid, pageNumber);
      if !InRange(table, pageNumber) {
        var freed := mem.FreeFrame(frameNumber);
        return LoadFailed(PageTableUpdateFailed(pageNumber)), table;
      }
      newTable := MarkedPresent(table, pageNumber, frameNumber);
      r := LoadOk(frameNumber, origin, diskOp, hadDiskIO);
    }

    /**
     * The search loop of clockReplacement: from the Clock pointer, for at
     * most 2·totalFrames steps, stop at a frame that is not present or has
     * use 0, and otherwise clear the use bit and move one frame on.
     */
    method SecondChanceScan() returns (victimFrame: Option<nat>, attempts: nat)
      requires Valid()
      modifies mem.frames
      ensures Valid() && unchanged(this) && unchanged(mem)
      ensures mem.frames.Length == 0 ==> victimFrame.None? && attempts == 0
      ensures mem.frames.Length > 0 ==>
        && victimFrame == Some(ClockVictim(old(mem.frames[..]), old(mem.clockPointer)))
        && attempts == ClockAttempts(old(mem.frames[..]), old(mem.clockPointer))
        && mem.frames[..] == Scanned(old(mem.frames[..]), old(mem.clockPointer))
    {
      var n := mem.frames.Length;
      attempts := 0;
      var maxAttempts := n * 2;
      victimFrame := None;
      var clockPointer := mem.GetClockPointer();
      ghost var fs := mem.frames[..];
      ghost var s := clockPointer;
      if n > 0 {
        RingOffset(s, n);
      }
      while attempts < maxAttempts
        invariant mem.Valid() && unchanged(this) && unchanged(mem)
        invariant attempts <= n
        invariant clockPointer == Ring(s, attempts, n)
        invariant n > 0 ==> clockPointer < n
        invariant mem.frames[..] == ClearedArc(fs, s, attempts)
        invariant forall j :: 0 <= j < attempts ==> !Evictable(fs[Ring(s, j, n)])
        invariant victimFrame.None?
      {
        var frame := mem.frames[clockPointer];
        if frame.present == 0 {
          victimFrame := Some(clockPointer);
          break;
        }
        if frame.use == 0 {
          victimFrame := Some(clockPointer);
          break;
        } else {
          // Second chance: clear the use bit and move on.
          var cleared := mem.UpdateFrameBits(clockPointer, Some(0), None);
          ClearedArcStep(fs, s, attempts);
        }
        RingNext(s, attempts, n);
        clockPointer := (clockPointer + 1) % n;
        attempts := attempts + 1;
      }
      if victimFrame.Some? {
        ScanIsFirst(fs, s, attempts);
      }
    }

    /**
     * The eviction half of clockReplacement: a modified victim with an owner
     * is written back dirty, the frame is freed, the page is loaded into it,
     * and on success the pointer moves just past the victim and a
     * PAGE_REPLACEMENT event is recorded.
     */
    method EvictAndLoad(pid: Pid, pageNumber: int, table: seq<PageEntry>, victim: nat, attempts: nat)
      returns (r: FaultResult, newTable: seq<PageEntry>)
      requires Valid() && victim < mem.frames.Length
      modifies this, mem, mem.frames, disk
      ensures Valid() && mem.frames == old(mem.frames) && mem.pageSize == old(mem.pageSize)
      ensures disk.ioDelayMs == old(disk.ioDelayMs) && disk.enabled == old(disk.enabled)
      ensures var vd := old(mem.frames[victim]);
        var swapMid := SwapAfterWriteBack(old(disk.swap), vd);
        && disk.swap == SwapAfterLoad(swapMid, pid, pageNumber)
        && disk.ops == old(disk.ops) + WriteBackOps(vd, disk.ioDelayMs) + [LoadOp(swapMid, pid, pageNumber, disk.ioDelayMs)]
        && (InRange(table, pageNumber) ==>
              && r == ReplacedResult(vd, victim, mem.frames.Length, attempts, swapMid, pid, pageNumber, disk.ioDelayMs)
              && mem.frames[..] == old(mem.frames[..])[victim := LoadedFrame(victim, pid, pageNumber)]
              && mem.clockPointer == (victim + 1) % mem.frames.Length
              && newTable == MarkedPresent(table, pageNumber, victim)
              && history == old(history) + [ReplacementEvent(pid, pageNumber, r)])
        && (!InRange(table, pageNumber) ==>
              && r == Failed(LoadAfterEvictionFailed(victim, PageTableUpdateFailed(pageNumber)))
              && mem.frames[..] == old(mem.frames[..])[victim := EmptyFrame(victim)]
              && mem.clockPointer == old(mem.clockPointer)
              && newTable == table && history == old(history))
    {
      var n := mem.frames.Length;
      var victimData := mem.frames[victim];
      var wasDirty := victimData.modified == 1;
      var writeOp: Option<DiskOp> := None;
      if wasDirty && victimData.pid.Some? {
        var op := disk.WritePage(victimData.pid.value, victimData.pageNumber.value, None, true);
        writeOp := Some(op);
      }
      var freed := mem.FreeFrame(victim);
      var loadResult, loadedTable := LoadPageIntoFrame(pid, pageNumber, victim, table);
      match loadResult {
        case LoadFailed(e) =>
          r, newTable := Failed(LoadAfterEvictionFailed(victim, e)), table;
        case LoadOk(f, origin, readOp, hadDiskIO) =>
          var newPointer := (victim + 1) % n;
          mem.SetClockPointer(newPointer);
          r := Replaced(victim, VictimRecord(victimData, victim), origin, newPointer, attempts,
                        writeOp, readOp, wasDirty || hadDiskIO);
          newTable := loadedTable;
          history := history + [ReplacementEvent(pid, pageNumber, r)];
      }
    }

    /**
     * clockReplacement: the Clock scan followed by the eviction of the frame
     * it stops at; with no frames there is no victim and nothing changes.
     */
    method ClockReplacement(pid: Pid, pageNumber: int, table: seq<PageEntry>)
      returns (r: FaultResult, newTable: seq<PageEntry>)
      requires Valid()
      modifies this, mem, mem.frames, disk
      ensures Valid() && mem.frames == old(mem.frames) && mem.pageSize == old(mem.pageSize)
      ensures disk.ioDelayMs == old(disk.ioDelayMs) && disk.enabled == old(disk.enabled)
      ensures mem.frames.Length == 0 ==>
        && r == Failed(NoVictimFound(0)) && newTable == table && history == old(history)
        && mem.clockPointer == old(mem.clockPointer)
        && disk.swap == old(disk.swap) && disk.ops == old(disk.ops)
      ensures mem.frames.Length > 0 ==>
        var fs := old(mem.frames[..]);
        var s := old(mem.clockPointer);
        var v := ClockVictim(fs, s);
        var vd := Scanned(fs, s)[v];
        var swapMid := SwapAfterWriteBack(old(disk.swap), vd);
        && disk.swap == SwapAfterLoad(swapMid, pid, pageNumber)
        && disk.ops == old(disk.ops) + WriteBackOps(vd, disk.ioDelayMs) + [LoadOp(swapMid, pid, pageNumber, disk.ioDelayMs)]
        && (InRange(table, pageNumber) ==>
              && r == ReplacedResult(vd, v, mem.frames.Length, ClockAttempts(fs, s), swapMid, pid, pageNumber, disk.ioDelayMs)
              && mem.frames[..] == Scanned(fs, s)[v := LoadedFrame(v, pid, pageNumber)]
              && mem.clockPointer == (v + 1) % mem.frames.Length
              && newTable == MarkedPresent(table, pageNumber, v)
              && history == old(history) + [ReplacementEvent(pid, pageNumber, r)])
        && (!InRange(table, pageNumber) ==>
              && r == Failed(LoadAfterEvictionFailed(v, PageTableUpdateFailed(pageNumber)))
              && mem.frames[..] == Scanned(fs, s)[v := EmptyFrame(v)]
              && mem.clockPointer == s
              && newTable == table && history == old(history))
    {
      var victimFrame, attempts := SecondChanceScan();
      if victimFrame.None? {
        return Failed(NoVictimFound(attempts)), table;
      }
      r, newTable := EvictAndLoad(pid, pageNumber, table, victimFrame.value, attempts);
    }

    /**
     * handlePageFault: fails with no change without a table, for a page
     * outside it, or for a page already present; loads into the lowest
     * free frame when there is one (recording a PAGE_LOAD); otherwise runs
     * the Clock replacement.
     */
    method HandlePageFault(pid: Pid, pageNumber: int, table: Option<seq<PageEntry>>)
      returns (r: FaultResult, newTable: Option<seq<PageEntry>>)
      requires Valid()
      modifies this, mem, mem.frames, disk
      ensures Valid() && mem.frames == old(mem.frames) && mem.pageSize == old(mem.pageSize)
      ensures disk.ioDelayMs == old(disk.ioDelayMs) && disk.enabled == old(disk.enabled)
      ensures newTable.Some? <==> table.Some?
      ensures r == Failed(NoPageTable) <==> table.None?
      ensures table.Some? && !InRange(table.value, pageNumber) ==> r == Failed(InvalidPageNumber)
      ensures table.Some? && IsPagePresent(table.value, pageNumber) ==> r == Failed(PageAlreadyPresent)
      ensures r.Failed? && r.error in {NoPageTable, InvalidPageNumber, PageAlreadyPresent} ==>
        && newTable == table && history == old(history)
        && mem.frames[..] == old(mem.frames[..]) && mem.clockPointer == old(mem.clockPointer)
        && disk.swap == old(disk.swap) && disk.ops == old(disk.ops)
      ensures table.Some? && InRange(table.value, pageNumber) && !IsPagePresent(table.value, pageNumber)
              && old(mem.GetFreeFrame()).Some? ==>
        var f := old(mem.GetFreeFrame()).value;
        && r == LoadedResult(f, old(disk.swap), pid, pageNumber, disk.ioDelayMs)
        && mem.frames[..] == old(mem.frames[..])[f := LoadedFrame(f, pid, pageNumber)]
        && mem.clockPointer == old(mem.clockPointer)
        && newTable == Some(MarkedPresent(table.value, pageNumber, f))
        && history == old(history) + [ReplacementEvent(pid, pageNumber, r)]
        && disk.swap == SwapAfterLoad(old(disk.swap), pid, pageNumber)
        && disk.ops == old(disk.ops) + [LoadOp(old(disk.swap), pid, pageNumber, disk.ioDelayMs)]
      ensures table.Some? && InRange(table.value, pageNumber) && !IsPagePresent(table.value, pageNumber)
              && old(mem.GetFreeFrame()).None? && mem.frames.Length > 0 ==>
        var n := mem.frames.Length;
        var fs := old(mem.frames[..]);
        var s := old(mem.clockPointer);
        var v := ClockVictim(fs, s);
        var vd := Scanned(fs, s)[v];
        var swapMid := SwapAfterWriteBack(old(disk.swap), vd);
        && r.Replaced? && r.frameNumber == v && r.attempts == ClockAttempts(fs, s)
        && r.victim == VictimRecord(vd, v)
        && r.victim.pid.Some?
        && r == ReplacedResult(vd, v, n, ClockAttempts(fs, s), swapMid, pid, pageNumber, disk.ioDelayMs)
        && mem.frames[..] == Scanned(fs, s)[v := LoadedFrame(v, pid, pageNumber)]
        && mem.clockPointer == (v + 1) % n
        && newTable == Some(MarkedPresent(table.value, pageNumber, v))
        && history == old(history) + [ReplacementEvent(pid, pageNumber, r)]
        && disk.swap == SwapAfterLoad(swapMid, pid, pageNumber)
        && disk.ops == old(disk.ops) + WriteBackOps(vd, disk.ioDelayMs) + [LoadOp(swapMid, pid, pageNumber, disk.ioDelayMs)]
      ensures table.Some? && InRange(table.value, pageNumber) && !IsPagePresent(table.value, pageNumber)
              && mem.frames.Length == 0 ==>
        && r == Failed(NoVictimFound(0)) && newTable == table && history == old(history)
        && mem.frames[..] == old(mem.frames[..]) && mem.clockPointer == old(mem.clockPointer)
        && disk.swap == old(disk.swap) && disk.ops == old(disk.ops)
    {
      if table.None? {
        return Failed(NoPageTable), table;
      }
      var t := table.value;
      if pageNumber < 0 || pageNumber >= |t| {
        return Failed(InvalidPageNumber), table;
      }
      if IsPagePresent(t, pageNumber) {
        return Failed(PageAlreadyPresent), table;
      }
      var freeFrame := mem.GetFreeFrame();
      if freeFrame.Some? {
        var loadResult, loadedTable := LoadPageIntoFrame(pid, pageNumber, freeFrame.value, t);
        match loadResult {
          case LoadOk(f, origin, diskOp, hadDiskIO) =>
            r := Loaded(f, origin, diskOp, hadDiskIO);
            history := history + [ReplacementEvent(pid, pageNumber, r)];
            newTable := Some(loadedTable);
          case LoadFailed(e) =>
            r, newTable := Failed(e), Some(loadedTable);
        }
        return;
      }
      ghost var fs := mem.frames[..];
      ghost var s := mem.clockPointer;
      var replaced, replacedTable := ClockReplacement(pid, pageNumber, t);
      r, newTable := replaced, Some(replacedTable);
      if mem.frames.Length > 0 {
        VictimOwned(fs, s);
      }
    }

    /** getReplacementHistory: a copy of the history. */
    function GetReplacementHistory(): seq<ReplacementEvent>
      reads this
    {
      history
    }

    /**
     * getReplacementStats: loads and replacements add up to all events,
     * dirty and clean replacements add up to all replacements, and the
     * average is the mean number of Clock attempts per replacement.
     */
    function GetReplacementStats(): (st: ReplacementStats)
      reads this
      ensures st.totalEvents == |history|
      ensures Successful(history) ==> st.totalReplacements + st.totalLoads == st.totalEvents
      ensures st.dirtyReplacements + st.cleanReplacements == st.totalReplacements
      ensures st.totalReplacements == CountReplacements(history)
      ensures st.totalLoads == CountLoads(history)
      ensures st.dirtyReplacements == CountDirty(history)
      ensures st.cleanReplacements == CountClean(history)
      ensures st.totalClockAttempts == SumAttempts(history)
      ensures st.totalReplacements == 0 ==> st.averageClockAttempts == 0.0
      ensures st.totalReplacements > 0 ==>
        st.averageClockAttempts == st.totalClockAttempts as real / st.totalReplacements as real
      ensures forall i :: 0 <= i < |history| ==> history[i].pid in st.loadsByProcess
      ensures forall i :: 0 <= i < |history| && history[i].result.Replaced? ==>
        history[i].result.victim.pid in st.victimsByProcess
    {
      StatsOfTotals(history);
      StatsOfKeys(history);
      StatsOf(history)
    }

    /** clearReplacementHistory. */
    method ClearReplacementHistory()
      modifies this
      ensures history == []
    {
      history := [];
    }

    /** resetPageFaultHandler: only the history is reset. */
    method Reset()
      modifies this
      ensures history == []
    {
      history := [];
    }

    /** getLastReplacement: the last event, or None with an empty history. */
    function GetLastReplacement(): (e: Option<ReplacementEvent>)
      reads this
      ensures e.None? <==> |history| == 0
      ensures e.Some? ==> e.value == history[|history| - 1]
    {
      if |history| == 0 then None else Some(history[|history| - 1])
    }

    /** isMemoryFull: no frame is free, so getFreeFrame finds none. */
    function IsMemoryFull(): (full: bool)
      reads this, mem, mem.frames
      requires Valid()
      ensures full <==> mem.GetFreeFrame().None?
    {
      var snapshot := mem.GetMemorySnapshot();
      NoneFreeIffNoneAbsent(mem.frames[..]);
      snapshot.freeFrames == 0
    }

    /** getClockState: the pointer, the frame under it, and the frame counts. */
    function GetClockState(): (c: ClockState)
      reads this, mem, mem.frames
      requires Valid()
      ensures c.clockPointer == mem.clockPointer && c.totalFrames == mem.frames.Length
      ensures c.usedFrames + c.freeFrames == c.totalFrames
      ensures c.currentFrame.Some? <==> mem.frames.Length > 0
      ensures c.currentFrame.Some? ==> c.currentFrame.value == mem.frames[mem.clockPointer]
      ensures c.memoryFull <==> mem.GetFreeFrame().None?
    {
      var snapshot := mem.GetMemorySnapshot();
      ClockState(mem.clockPointer, snapshot.totalFrames, snapshot.usedFrames, snapshot.freeFrames,
        mem.GetFrame(mem.clockPointer), IsMemoryFull())
    }
  }

  /** The statistics of a history. */
  function StatsOf(h: seq<ReplacementEvent>): ReplacementStats {
    var replacements := CountReplacements(h);
    var dirty := CountDirty(h);
    ReplacementStats(
      |h|, replacements, CountLoads(h), dirty, replacements - dirty, SumAttempts(h),
      if replacements > 0 then SumAttempts(h) as real / replacements as real else 0.0,
      map e | e in VictimPids(h) :: CountVictimsOf(h, e),
      map p | p in LoadPids(h) :: CountLoadsOf(h, p))
  }

  /** The totals of StatsOf count their kinds of event and add up. */
  lemma {:induction false} StatsOfTotals(h: seq<ReplacementEvent>)
    ensures var st := StatsOf(h);
      && st.totalEvents == |h|
      && st.totalReplacements == CountReplacements(h)
      && st.totalLoads == CountLoads(h)
      && st.dirtyReplacements == CountDirty(h)
      && st.cleanReplacements == CountClean(h)
      && st.totalClockAttempts == SumAttempts(h)
      && (Successful(h) ==> st.totalReplacements + st.totalLoads == st.totalEvents)
      && (st.totalReplacements == 0 ==> st.averageClockAttempts == 0.0)
      && (st.totalReplacements > 0 ==>
            st.averageClockAttempts == st.totalClockAttempts as real / st.totalReplacements as real)
  {
    DirtyPlusClean(h);
    if Successful(h) {
      LoadsPlusReplacements(h);
    }
  }

  /** Every process of the history has an entry in the per-process counts of StatsOf. */
  lemma StatsOfKeys(h: seq<ReplacementEvent>)
    ensures forall i :: 0 <= i < |h| ==> h[i].pid in StatsOf(h).loadsByProcess
    ensures forall i :: 0 <= i < |h| && h[i].result.Replaced? ==>
      h[i].result.victim.pid in StatsOf(h).victimsByProcess
  {
    forall i | 0 <= i < |h| ensures h[i].pid in StatsOf(h).loadsByProcess {
      assert h[i].pid in LoadPids(h);
    }
    forall i | 0 <= i < |h| && h[i].result.Replaced? ensures h[i].result.victim.pid in StatsOf(h).victimsByProcess {
      assert h[i].result.victim.pid in VictimPids(h);
    }
  }

  function VictimPids(h: seq<ReplacementEvent>): set<Option<Pid>> {
    set i | 0 <= i < |h| && h[i].result.Replaced? :: h[i].result.victim.pid
  }

  function LoadPids(h: seq<ReplacementEvent>): set<Pid> {
    set i | 0 <= i < |h| :: h[i].pid
  }

  /** With the frame table well formed, no frame is free exactly when every frame is present. */
  lemma {:induction false} NoneFreeIffNoneAbsent(fs: seq<Frame>)
    requires forall j :: 0 <= j < |fs| ==> WellFormed(fs[j])
    ensures CountPresent(fs, 0) == 0 <==> forall j :: 0 <= j < |fs| ==> !IsFree(fs[j])
  {
    if |fs| > 0 {
      NoneFreeIffNoneAbsent(fs[1..]);
      assert forall j :: 1 <= j < |fs| ==> fs[j] == fs[1..][j - 1];
    }
  }

  /** When no frame is free, the Clock evicts a frame owned by some process. */
  lemma VictimOwned(fs: seq<Frame>, s: nat)
    requires TableShape(fs) && s < |fs|
    requires forall j :: 0 <= j < |fs| ==> !IsFree(fs[j])
    ensures Scanned(fs, s)[ClockVictim(fs, s)].pid.Some?
  {
  }
}
