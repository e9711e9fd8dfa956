/**
 * The simulated swap device: a store of pages keyed by (pid, page number),
 * each with its data and a dirty flag, and an append-only log of disk
 * operations from which the disk statistics are computed.
 */
module Swap {
  import opened Common

  /** The key of a swapped page. */
  datatype SwapKey = SwapKey(pid: Pid, pageNumber: int)

  /** Page contents, opaque to the simulator: caller data, or the placeholder writePage makes up. */
  datatype PageData = Placeholder(pid: Pid, pageNumber: int) | Payload(content: string)

  /** A stored page: its data (None for a page only allocated) and whether it was written dirty. */
  datatype SwapEntry = SwapEntry(data: Option<PageData>, isDirty: bool)

  /** One record of the operation log. Reads and writes carry the I/O delay in force as their duration. */
  datatype DiskOp =
    | DiskRead(pid: Pid, pageNumber: int, duration: int, success: bool)
    | DiskWrite(pid: Pid, pageNumber: int, duration: int, isDirty: bool)
    | DiskAllocate(pid: Pid, pageNumber: int)
    | DiskFreeProcess(pid: Pid, pagesFreed: nat)

  /** The result of readPage. */
  datatype ReadResult =
    | ReadOk(data: Option<PageData>, isDirty: bool, op: DiskOp)
    | ReadMissing(op: DiskOp)

  /** The result of allocatePage. */
  datatype AllocateResult = Allocated(op: DiskOp) | AlreadyAllocated

  /** The metadata getPageInfo reports. */
  datatype PageInfo = PageInfo(pid: Pid, pageNumber: int, isDirty: bool)

  /** The result of getDiskStats. */
  datatype DiskStats = DiskStats(
    totalOperations: nat,
    readOperations: nat,
    writeOperations: nat,
    dirtyWrites: nat,
    cleanWrites: int,
    allocateOperations: nat,
    freeOperations: nat,
    totalIOTimeMs: int,
    currentSwapPages: nat,
    pagesByProcess: map<Pid, nat>,
    ioDelayMs: int)

  /** The result of getSwapSnapshot: how many pages, and the metadata of each. */
  datatype SwapSnapshot = SwapSnapshot(totalPages: nat, pages: map<SwapKey, PageInfo>)

  /** The disk configuration. */
  datatype DiskConfig = DiskConfig(ioDelayMs: int, enabled: bool)

  predicate IsReadOp(op: DiskOp) { op.DiskRead? }
  predicate IsWriteOp(op: DiskOp) { op.DiskWrite? }
  predicate IsAllocateOp(op: DiskOp) { op.DiskAllocate? }
  predicate IsFreeOp(op: DiskOp) { op.DiskFreeProcess? }

  function CountReads(ops: seq<DiskOp>): nat {
    if |ops| == 0 then 0 else (if IsReadOp(ops[0]) then 1 else 0) + CountReads(ops[1..])
  }

  function CountWrites(ops: seq<DiskOp>): nat {
    if |ops| == 0 then 0 else (if IsWriteOp(ops[0]) then 1 else 0) + CountWrites(ops[1..])
  }

  function CountAllocates(ops: seq<DiskOp>): nat {
    if |ops| == 0 then 0 else (if IsAllocateOp(ops[0]) then 1 else 0) + CountAllocates(ops[1..])
  }

  function CountFrees(ops: seq<DiskOp>): nat {
    if |ops| == 0 then 0 else (if IsFreeOp(ops[0]) then 1 else 0) + CountFrees(ops[1..])
  }

  function CountDirtyWrites(ops: seq<DiskOp>): nat {
    if |ops| == 0 then 0
    else (if ops[0].DiskWrite? && ops[0].isDirty then 1 else 0) + CountDirtyWrites(ops[1..])
  }

  function CountCleanWrites(ops: seq<DiskOp>): nat {
    if |ops| == 0 then 0
    else (if ops[0].DiskWrite? && !ops[0].isDirty then 1 else 0) + CountCleanWrites(ops[1..])
  }

  /** The sum of the durations of the logged reads and writes (the only records with a duration). */
  function TotalIOTime(ops: seq<DiskOp>): int {
    if |ops| == 0 then 0
    else (if ops[0].DiskRead? || ops[0].DiskWrite? then ops[0].duration else 0) + TotalIOTime(ops[1..])
  }

  /** Every write is either dirty or clean. */
  lemma {:induction false} WritesSplit(ops: seq<DiskOp>)
    ensures CountDirtyWrites(ops) + CountCleanWrites(ops) == CountWrites(ops)
  {
    if |ops| > 0 {
      WritesSplit(ops[1..]);
    }
  }

  /** Every logged operation is of exactly one of the four kinds. */
  lemma {:induction false} KindsPartition(ops: seq<DiskOp>)
    ensures CountReads(ops) + CountWrites(ops) + CountAllocates(ops) + CountFrees(ops) == |ops|
  {
    if |ops| > 0 {
      KindsPartition(ops[1..]);
    }
  }

  /** Counting distributes over appending to the log. */
  lemma {:induction false} CountsAppend(ops: seq<DiskOp>, op: DiskOp)
    ensures CountReads(ops + [op]) == CountReads(ops) + (if IsReadOp(op) then 1 else 0)
    ensures CountWrites(ops + [op]) == CountWrites(ops) + (if IsWriteOp(op) then 1 else 0)
    ensures CountDirtyWrites(ops + [op]) == CountDirtyWrites(ops) + (if op.DiskWrite? && op.isDirty then 1 else 0)
  {
    if |ops| > 0 {
      assert (ops + [op])[1..] == ops[1..] + [op];
      CountsAppend(ops[1..], op);
    } else {
      assert (ops + [op])[1..] == [];
    }
  }

  /** The swap store with every entry of `pid` removed and every other entry kept. */
  function WithoutPid(swap: map<SwapKey, SwapEntry>, pid: Pid): (r: map<SwapKey, SwapEntry>)
    ensures forall k :: k in r <==> k in swap && k.pid != pid
    ensures forall k :: k in r ==> r[k] == swap[k]
  {
    map k | k in swap && k.pid != pid :: swap[k]
  }

  /** The keys of `pid` in the swap store. */
  function KeysOf(swap: map<SwapKey, SwapEntry>, pid: Pid): set<SwapKey> {
    set k | k in swap && k.pid == pid
  }

  /** Removing a process's entries removes exactly as many entries as it had. */
  lemma WithoutPidSize(swap: map<SwapKey, SwapEntry>, pid: Pid)
    ensures |WithoutPid(swap, pid)| + |KeysOf(swap, pid)| == |swap|
  {
    var r := WithoutPid(swap, pid);
    assert r.Keys == swap.Keys - KeysOf(swap, pid);
    assert KeysOf(swap, pid) <= swap.Keys;
  }

  /** The number of swap entries of each process that has any (pagesByProcess). */
  function PagesByProcess(swap: map<SwapKey, SwapEntry>): (r: map<Pid, nat>)
    ensures forall p :: p in r <==> exists k :: k in swap && k.pid == p
    ensures forall p :: p in r ==> r[p] == |KeysOf(swap, p)| > 0
  {
    var pids := set k | k in swap :: k.pid;
    var r := map p | p in pids :: |KeysOf(swap, p)|;
    assert forall p :: p in r ==> r[p] > 0 by {
      forall p | p in r ensures r[p] > 0 {
        var k :| k in swap && k.pid == p;
        assert k in KeysOf(swap, p);
      }
    }
    r
  }

  /** The swap device (the module state of disk.js). */
  class Disk {
    var swap: map<SwapKey, SwapEntry>
    var ops: seq<DiskOp>
    var ioDelayMs: int
    var enabled: bool

    /** The module's initial state: empty store and log, a 1500 ms delay, delays enabled. */
    constructor ()
      ensures swap == map[] && ops == [] && ioDelayMs == 1500 && enabled
    {
      swap := map[];
      ops := [];
      ioDelayMs := 1500;
      enabled := true;
    }

    /** initializeDisk: sets the configuration and empties both the store and the log. */
    method Initialize(ioDelayMs: int := 1500, enabled: bool := true)
      modifies this
      ensures swap == map[] && ops == []
      ensures this.ioDelayMs == ioDelayMs && this.enabled == enabled
    {
      this.ioDelayMs := ioDelayMs;
      this.enabled := enabled;
      swap := map[];
      ops := [];
    }

    /**
     * readPage: succeeds exactly when the page is stored and returns its data
     * and dirty flag; either way logs one read whose success says so.
     */
    method ReadPage(pid: Pid, pageNumber: int) returns (r: ReadResult)
      modifies this
      ensures swap == old(swap) && ioDelayMs == old(ioDelayMs) && enabled == old(enabled)
      ensures r.ReadOk? <==> SwapKey(pid, pageNumber) in old(swap)
      ensures r.ReadOk? ==>
        r.data == swap[SwapKey(pid, pageNumber)].data && r.isDirty == swap[SwapKey(pid, pageNumber)].isDirty
      ensures r.op == DiskRead(pid, pageNumber, ioDelayMs, r.ReadOk?)
      ensures ops == old(ops) + [r.op]
    {
      var key := SwapKey(pid, pageNumber);
      var op := DiskRead(pid, pageNumber, ioDelayMs, key in swap);
      ops := ops + [op];
      if key !in swap {
        return ReadMissing(op);
      }
      r := ReadOk(swap[key].data, swap[key].isDirty, op);
    }

    /**
     * writePage: always succeeds; stores the page (the placeholder when no
     * data is given) with the given dirty flag and logs exactly one write.
     */
    method WritePage(pid: Pid, pageNumber: int, data: Option<PageData> := None, isDirty: bool := false)
      returns (op: DiskOp)
      modifies this
      ensures ioDelayMs == old(ioDelayMs) && enabled == old(enabled)
      ensures swap == old(swap)[SwapKey(pid, pageNumber) :=
        SwapEntry(Some(if data.Some? then data.value else Placeholder(pid, pageNumber)), isDirty)]
      ensures op == DiskWrite(pid, pageNumber, ioDelayMs, isDirty)
      ensures ops == old(ops) + [op]
    {
      var stored := if data.Some? then data.value else Placeholder(pid, pageNumber);
      swap := swap[SwapKey(pid, pageNumber) := SwapEntry(Some(stored), isDirty)];
      op := DiskWrite(pid, pageNumber, ioDelayMs, isDirty);
      ops := ops + [op];
    }

    /**
     * allocatePage: fails, changing nothing, when the page is already stored;
     * otherwise stores a clean page without data and logs the allocation.
     */
    method AllocatePage(pid: Pid, pageNumber: int) returns (r: AllocateResult)
      modifies this
      ensures ioDelayMs == old(ioDelayMs) && enabled == old(enabled)
      ensures r.AlreadyAllocated? <==> SwapKey(pid, pageNumber) in old(swap)
      ensures r.AlreadyAllocated? ==> swap == old(swap) && ops == old(ops)
      ensures r.Allocated? ==> swap == old(swap)[SwapKey(pid, pageNumber) := SwapEntry(None, false)]
      ensures r.Allocated? ==> r.op == DiskAllocate(pid, pageNumber) && ops == old(ops) + [r.op]
    {
      var key := SwapKey(pid, pageNumber);
      if key in swap {
        return AlreadyAllocated;
      }
      swap := swap[key := SwapEntry(None, false)];
      var op := DiskAllocate(pid, pageNumber);
      ops := ops + [op];
      r := Allocated(op);
    }

    /**
     * freePagesByPID: collects the keys of `pid`, deletes them, and logs how
     * many were freed; every other entry is kept.
     */
    method FreePagesByPid(pid: Pid) returns (pagesFreed: nat)
      modifies this
      ensures ioDelayMs == old(ioDelayMs) && enabled == old(enabled)
      ensures swap == WithoutPid(old(swap), pid)
      ensures pagesFreed == |KeysOf(old(swap), pid)| == |old(swap)| - |swap|
      ensures ops == old(ops) + [DiskFreeProcess(pid, pagesFreed)]
    {
      var keysToDelete: set<SwapKey> := {};
      var unvisited := swap.Keys;
      while unvisited != {}
        invariant unvisited <= swap.Keys
        invariant keysToDelete == set k | k in swap.Keys - unvisited && k.pid == pid
        decreases unvisited
      {
        var key :| key in unvisited;
        if key.pid == pid {
          keysToDelete := keysToDelete + {key};
        }
        unvisited := unvisited - {key};
      }
      assert keysToDelete == KeysOf(old(swap), pid);
      var pending := keysToDelete;
      while pending != {}
        invariant pending <= keysToDelete
        invariant swap == old(swap) - (keysToDelete - pending)
        invariant ops == old(ops) && ioDelayMs == old(ioDelayMs) && enabled == old(enabled)
        decreases pending
      {
        var key :| key in pending;
        swap := swap - {key};
        pending := pending - {key};
      }
      assert swap == WithoutPid(old(swap), pid);
      WithoutPidSize(old(swap), pid);
      pagesFreed := |keysToDelete|;
      ops := ops + [DiskFreeProcess(pid, pagesFreed)];
    }

    /** pageExistsInSwap. */
    function PageExistsInSwap(pid: Pid, pageNumber: int): bool
      reads this
    {
      SwapKey(pid, pageNumber) in swap
    }

    /** getPageInfo: the page's metadata, or None when it is not stored. */
    function GetPageInfo(pid: Pid, pageNumber: int): (r: Option<PageInfo>)
      reads this
      ensures r.Some? <==> PageExistsInSwap(pid, pageNumber)
      ensures r.Some? ==> r.value == PageInfo(pid, pageNumber, swap[SwapKey(pid, pageNumber)].isDirty)
    {
      var key := SwapKey(pid, pageNumber);
      if key in swap then Some(PageInfo(pid, pageNumber, swap[key].isDirty)) else None
    }

    /** getDiskOperations: a copy of the log. */
    function GetDiskOperations(): seq<DiskOp>
      reads this
    {
      ops
    }

    /**
     * getDiskStats: counts by kind add up to the log length, dirty and clean
     * writes add up to the writes, and the page count is the store's size.
     */
    function GetDiskStats(): (s: DiskStats)
      reads this
      ensures s.totalOperations == s.readOperations + s.writeOperations + s.allocateOperations + s.freeOperations
      ensures s.dirtyWrites + s.cleanWrites == s.writeOperations
      ensures s.cleanWrites == CountCleanWrites(ops)
      ensures s.currentSwapPages == |swap|
    {
      KindsPartition(ops);
      WritesSplit(ops);
      var writeOps := CountWrites(ops);
      var dirtyWrites := CountDirtyWrites(ops);
      DiskStats(|ops|, CountReads(ops), writeOps, dirtyWrites, writeOps - dirtyWrites,
        CountAllocates(ops), CountFrees(ops), TotalIOTime(ops), |swap|, PagesByProcess(swap), ioDelayMs)
    }

    /** getSwapSnapshot: the metadata of every stored page. */
    function GetSwapSnapshot(): (s: SwapSnapshot)
      reads this
      ensures s.totalPages == |swap| && s.pages.Keys == swap.Keys
      ensures forall k :: k in s.pages ==> s.pages[k] == PageInfo(k.pid, k.pageNumber, swap[k].isDirty)
    {
      SwapSnapshot(|swap|, map k | k in swap :: PageInfo(k.pid, k.pageNumber, swap[k].isDirty))
    }

    /** clearDiskOperations: empties the log and leaves the store. */
    method ClearDiskOperations()
      modifies this
      ensures ops == [] && swap == old(swap)
      ensures ioDelayMs == old(ioDelayMs) && enabled == old(enabled)
    {
      ops := [];
    }

    /** clearSwapSpace: empties the store and leaves the log. */
    method ClearSwapSpace()
      modifies this
      ensures swap == map[] && ops == old(ops)
      ensures ioDelayMs == old(ioDelayMs) && enabled == old(enabled)
    {
      swap := map[];
    }

    /** resetDisk: empties both the store and the log; the configuration stays. */
    method ResetDisk()
      modifies this
      ensures swap == map[] && ops == []
      ensures ioDelayMs == old(ioDelayMs) && enabled == old(enabled)
    {
      swap := map[];
      ops := [];
    }

    /** setIODelay: negative delays are ignored. */
    method SetIODelay(delayMs: int)
      modifies this
      ensures ioDelayMs == if delayMs >= 0 then delayMs else old(ioDelayMs)
      ensures swap == old(swap) && ops == old(ops) && enabled == old(enabled)
    {
      if delayMs >= 0 {
        ioDelayMs := delayMs;
      }
    }

    /** setIODelayEnabled. */
    method SetIODelayEnabled(enabled: bool)
      modifies this
      ensures this.enabled == enabled
      ensures swap == old(swap) && ops == old(ops) && ioDelayMs == old(ioDelayMs)
    {
      this.enabled := enabled;
    }

    /** getDiskConfig. */
    function GetDiskConfig(): (c: DiskConfig)
      reads this
      ensures c.ioDelayMs == ioDelayMs && c.enabled == enabled
    {
      DiskConfig(ioDelayMs, enabled)
    }
  }

  /** After freeing a process's pages, no page of that process is found in the swap store. */
  lemma NothingLeftAfterFree(swap: map<SwapKey, SwapEntry>, pid: Pid, pageNumber: int)
    ensures SwapKey(pid, pageNumber) !in WithoutPid(swap, pid)
  {
  }
}
