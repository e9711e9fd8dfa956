/**
 * The two bulk operations of the MMU on one process, as functions of the
 * frame table and the process's page table: allocateFramesForProcess
 * (one page after another, each taking the lowest free frame) and the
 * release loop of freeFramesOfProcess (one present entry after another).
 * The MMU's loops are proved equal to these functions; what the source
 * promises about the two operations is proved here about the functions.
 */
module BulkFrames {
  import opened Common
  import opened Frames
  import opened PageTables
  import opened Consistency

  /** A (page, frame) pair reported by allocateFramesForProcess. */
  datatype PageFrame = PageFrame(pageNumber: int, frameNumber: Option<int>)

  /** What allocateFramesForProcess does with one page. */
  datatype PageStep = AlreadyPresent(frameNumber: Option<int>) | NoFreeFrame | Placed(placedFrame: int)

  /** The frames, the table and the two result lists part-way through allocateFramesForProcess. */
  datatype AllocState = AllocState(fs: seq<Frame>, t: seq<PageEntry>, allocatedFrames: seq<PageFrame>, failedPages: seq<int>)

  /** The frames, the table and the freed frame numbers part-way through freeFramesOfProcess. */
  datatype FreeState = FreeState(fs: seq<Frame>, t: seq<PageEntry>, freedFrames: seq<int>)

  // ---------------------------------------------------------------------
  // allocateFramesForProcess
  // ---------------------------------------------------------------------

  /** The outcome for page `page`: already present, no free frame, or the lowest free frame. */
  function PageOutcome(fs: seq<Frame>, t: seq<PageEntry>, page: int): (o: PageStep)
    ensures o.AlreadyPresent? <==> IsPagePresent(t, page)
    ensures o.Placed? ==> 0 <= o.placedFrame < |fs| && IsFree(fs[o.placedFrame])
    ensures o.NoFreeFrame? ==> forall i :: 0 <= i < |fs| ==> !IsFree(fs[i])
  {
    if IsPagePresent(t, page) then AlreadyPresent(GetFrameNumber(t, page))
    else match FirstFree(fs)
      case None => NoFreeFrame
      case Some(f) => Placed(f)
  }

  /** One iteration of the allocation loop, for page `page` of process `pid`. */
  function AllocStep(st: AllocState, pid: Pid, page: int): AllocState {
    match PageOutcome(st.fs, st.t, page)
    case AlreadyPresent(f) => st.(allocatedFrames := st.allocatedFrames + [PageFrame(page, f)])
    case NoFreeFrame => st.(failedPages := st.failedPages + [page])
    case Placed(f) =>
      AllocState(st.fs[f := LoadedFrame(f, pid, page)], MarkedPresent(st.t, page, f),
                 st.allocatedFrames + [PageFrame(page, Some(f))], st.failedPages)
  }

  /** The state after the first `k` pages (0 .. k-1) have been handled. */
  function AllocUpTo(fs: seq<Frame>, t: seq<PageEntry>, pid: Pid, k: nat): AllocState
    decreases k
  {
    if k == 0 then AllocState(fs, t, [], []) else AllocStep(AllocUpTo(fs, t, pid, k - 1), pid, k - 1)
  }

  /** A reported pair names a page below `bound` and, when the table covers it, the entry is present at that frame. */
  ghost predicate Reported(t: seq<PageEntry>, pf: PageFrame, bound: int) {
    0 <= pf.pageNumber < bound &&
    (InRange(t, pf.pageNumber) ==> IsPagePresent(t, pf.pageNumber) && t[pf.pageNumber].frameNumber == pf.frameNumber)
  }

  /** Every page below `k` is reported exactly once: |allocatedFrames| + |failedPages| == k. */
  lemma {:induction false} AllocCounts(fs: seq<Frame>, t: seq<PageEntry>, pid: Pid, k: nat)
    ensures var st := AllocUpTo(fs, t, pid, k);
      |st.fs| == |fs| && |st.t| == |t| && |st.allocatedFrames| + |st.failedPages| == k
  {
    if k > 0 {
      AllocCounts(fs, t, pid, k - 1);
    }
  }

  /**
   * The table entries the loop leaves alone: every page at or beyond `k`,
   * and every page that was present already; frames change only from free
   * to owned by the process.
   */
  lemma {:induction false} AllocKeeps(fs: seq<Frame>, t: seq<PageEntry>, pid: Pid, k: nat)
    ensures var st := AllocUpTo(fs, t, pid, k);
      && |st.t| == |t| && |st.fs| == |fs|
      && (forall j :: 0 <= j < |t| && (j >= k || t[j].present == 1) ==> st.t[j] == t[j])
      && (forall i :: 0 <= i < |fs| ==> st.fs[i] == fs[i] || (IsFree(fs[i]) && OwnedBy(st.fs[i], pid)))
  {
    if k > 0 {
      AllocKeeps(fs, t, pid, k - 1);
      AllocCounts(fs, t, pid, k - 1);
      var prev := AllocUpTo(fs, t, pid, k - 1);
      assert AllocUpTo(fs, t, pid, k) == AllocStep(prev, pid, k - 1);
      AllocKeepsStep(prev, fs, t, pid, k);
    }
  }

  /** One step of AllocKeeps: the allocation of page `k - 1` keeps the two facts, moving the bound from `k - 1` to `k`. */
  lemma AllocKeepsStep(prev: AllocState, fs: seq<Frame>, t: seq<PageEntry>, pid: Pid, k: nat)
    requires k > 0 && |prev.t| == |t| && |prev.fs| == |fs|
    requires forall j :: 0 <= j < |t| && (j >= k - 1 || t[j].present == 1) ==> prev.t[j] == t[j]
    requires forall i :: 0 <= i < |fs| ==> prev.fs[i] == fs[i] || (IsFree(fs[i]) && OwnedBy(prev.fs[i], pid))
    ensures var st := AllocStep(prev, pid, k - 1);
      && |st.t| == |t| && |st.fs| == |fs|
      && (forall j :: 0 <= j < |t| && (j >= k || t[j].present == 1) ==> st.t[j] == t[j])
      && (forall i :: 0 <= i < |fs| ==> st.fs[i] == fs[i] || (IsFree(fs[i]) && OwnedBy(st.fs[i], pid)))
  {
    match PageOutcome(prev.fs, prev.t, k - 1)
    case AlreadyPresent(_) =>
    case NoFreeFrame =>
    case Placed(f) =>
      assert IsFree(prev.fs[f]);
  }

  /**
   * The failed pages: each is below `k` and still absent, a page below `k`
   * in the table is present exactly when it did not fail, and once a page
   * fails no frame is free.
   */
  lemma {:induction false} AllocFailed(fs: seq<Frame>, t: seq<PageEntry>, pid: Pid, k: nat)
    ensures var st := AllocUpTo(fs, t, pid, k);
      && (forall p :: p in st.failedPages ==> 0 <= p < k && !IsPagePresent(st.t, p))
      && (forall p :: 0 <= p < k && InRange(t, p) ==> (IsPagePresent(st.t, p) <==> p !in st.failedPages))
      && (|st.failedPages| > 0 ==> forall i :: 0 <= i < |st.fs| ==> !IsFree(st.fs[i]))
  {
    if k > 0 {
      AllocFailed(fs, t, pid, k - 1);
      AllocCounts(fs, t, pid, k - 1);
      var prev := AllocUpTo(fs, t, pid, k - 1);
      assert AllocUpTo(fs, t, pid, k) == AllocStep(prev, pid, k - 1);
      AllocFailedStep(prev, t, pid, k);
    }
  }

  /** One step of AllocFailed: the allocation of page `k - 1` keeps the three facts, moving the bound from `k - 1` to `k`. */
  lemma AllocFailedStep(prev: AllocState, t: seq<PageEntry>, pid: Pid, k: nat)
    requires k > 0 && |prev.t| == |t|
    requires forall p :: p in prev.failedPages ==> 0 <= p < k - 1 && !IsPagePresent(prev.t, p)
    requires forall p :: 0 <= p < k - 1 && InRange(t, p) ==> (IsPagePresent(prev.t, p) <==> p !in prev.failedPages)
    requires |prev.failedPages| > 0 ==> forall i :: 0 <= i < |prev.fs| ==> !IsFree(prev.fs[i])
    ensures var st := AllocStep(prev, pid, k - 1);
      && (forall p :: p in st.failedPages ==> 0 <= p < k && !IsPagePresent(st.t, p))
      && (forall p :: 0 <= p < k && InRange(t, p) ==> (IsPagePresent(st.t, p) <==> p !in st.failedPages))
      && (|st.failedPages| > 0 ==> forall i :: 0 <= i < |st.fs| ==> !IsFree(st.fs[i]))
  {
    var page := k - 1;
    var st := AllocStep(prev, pid, page);
    match PageOutcome(prev.fs, prev.t, page)
    case AlreadyPresent(_) =>
      assert st.t == prev.t && st.fs == prev.fs && st.failedPages == prev.failedPages;
    case NoFreeFrame =>
      assert st.t == prev.t && st.fs == prev.fs && st.failedPages == prev.failedPages + [page];
    case Placed(f) =>
      assert st.failedPages == prev.failedPages && st.t == MarkedPresent(prev.t, page, f);
      assert IsFree(prev.fs[f]);
  }

  /** Every reported pair is a page below `k` whose entry, when in the table, is present at the reported frame. */
  lemma {:induction false} AllocReported(fs: seq<Frame>, t: seq<PageEntry>, pid: Pid, k: nat)
    ensures var st := AllocUpTo(fs, t, pid, k);
      forall a :: 0 <= a < |st.allocatedFrames| ==> Reported(st.t, st.allocatedFrames[a], k)
  {
    if k > 0 {
      AllocReported(fs, t, pid, k - 1);
      AllocCounts(fs, t, pid, k - 1);
      var prev := AllocUpTo(fs, t, pid, k - 1);
      var st := AllocUpTo(fs, t, pid, k);
      forall a | 0 <= a < |st.allocatedFrames| ensures Reported(st.t, st.allocatedFrames[a], k) {
        if a < |prev.allocatedFrames| {
          assert st.allocatedFrames[a] == prev.allocatedFrames[a];
          assert Reported(prev.t, prev.allocatedFrames[a], k - 1);
        }
      }
    }
  }

  /**
   * With a consistent start and `k` within the table, the allocation keeps
   * the frame/page-table agreement, and every reported frame is owned by
   * the process at the reported page.
   */
  lemma {:induction false} AllocConsistent(fs: seq<Frame>, tables: Tables, pid: Pid, k: nat)
    requires Consistent(fs, tables) && pid in tables && k <= |tables[pid]|
    ensures var st := AllocUpTo(fs, tables[pid], pid, k);
      Consistent(st.fs, tables[pid := st.t])
  {
    if k > 0 {
      AllocConsistent(fs, tables, pid, k - 1);
      AllocCounts(fs, tables[pid], pid, k - 1);
      var prev := AllocUpTo(fs, tables[pid], pid, k - 1);
      match PageOutcome(prev.fs, prev.t, k - 1)
      case AlreadyPresent(_) =>
        assert AllocUpTo(fs, tables[pid], pid, k).fs == prev.fs && AllocUpTo(fs, tables[pid], pid, k).t == prev.t;
      case NoFreeFrame =>
        assert AllocUpTo(fs, tables[pid], pid, k).fs == prev.fs && AllocUpTo(fs, tables[pid], pid, k).t == prev.t;
      case Placed(f) =>
        var mid := tables[pid := prev.t];
        assert mid[pid] == prev.t;
        LoadPreserves(prev.fs, mid, pid, k - 1, f);
        var st := AllocUpTo(fs, tables[pid], pid, k);
        assert st.fs == prev.fs[f := LoadedFrame(f, pid, k - 1)] && st.t == MarkedPresent(prev.t, k - 1, f);
        assert mid[pid := st.t] == tables[pid := st.t];
    } else {
      assert tables[pid := tables[pid]] == tables;
    }
  }

  /** Under a consistent final state, every reported frame with a page inside the table is resident for (pid, page). */
  lemma AllocatedResident(fs: seq<Frame>, tables: Tables, pid: Pid, allocatedFrames: seq<PageFrame>)
    requires Consistent(fs, tables) && pid in tables
    requires forall a :: 0 <= a < |allocatedFrames| ==> Reported(tables[pid], allocatedFrames[a], |tables[pid]|)
    ensures forall a :: 0 <= a < |allocatedFrames| ==>
      var pf := allocatedFrames[a];
      && pf.frameNumber.Some? && 0 <= pf.frameNumber.value < |fs|
      && OwnedBy(fs[pf.frameNumber.value], pid) && fs[pf.frameNumber.value].pageNumber == Some(pf.pageNumber)
  {
    forall a | 0 <= a < |allocatedFrames|
      ensures var pf := allocatedFrames[a];
        && pf.frameNumber.Some? && 0 <= pf.frameNumber.value < |fs|
        && OwnedBy(fs[pf.frameNumber.value], pid) && fs[pf.frameNumber.value].pageNumber == Some(pf.pageNumber)
    {
      assert Reported(tables[pid], allocatedFrames[a], |tables[pid]|);
      EntryResident(fs, tables, pid, allocatedFrames[a].pageNumber);
    }
  }

  // ---------------------------------------------------------------------
  // freeFramesOfProcess
  // ---------------------------------------------------------------------

  /** One iteration of the release loop: an entry whose frame frees successfully is marked absent. */
  function FreeStep(st: FreeState, e: PageEntry): FreeState {
    if e.frameNumber.Some? && 0 <= e.frameNumber.value < |st.fs| then
      FreeState(st.fs[e.frameNumber.value := EmptyFrame(e.frameNumber.value)],
                MarkedAbsent(st.t, e.pageNumber), st.freedFrames + [e.frameNumber.value])
    else st
  }

  /** The state after the first `k` listed entries have been handled. */
  function FreeUpTo(fs: seq<Frame>, t: seq<PageEntry>, pp: seq<PageEntry>, k: nat): FreeState
    requires k <= |pp|
    decreases k
  {
    if k == 0 then FreeState(fs, t, []) else FreeStep(FreeUpTo(fs, t, pp, k - 1), pp[k - 1])
  }

  /** An entry after markPageAbsent when it was present; an absent entry is left as it is. */
  function AbsentAfterFree(e: PageEntry): (r: PageEntry)
    ensures r.present == 0 && r.pageNumber == e.pageNumber && r.modified == e.modified
    ensures e.present == 1 ==> r.frameNumber.None? && r.use == 0
    ensures e.present == 0 ==> r == e
  {
    if e.present == 1 then e.(frameNumber := None, present := 0, use := 0) else e
  }

  /** The frames after freeFramesOfProcess: exactly the process's present frames are emptied. */
  function FramesWithout(fs: seq<Frame>, pid: Pid): (r: seq<Frame>)
    ensures |r| == |fs|
    ensures forall i :: 0 <= i < |fs| ==> r[i] == if OwnedBy(fs[i], pid) then EmptyFrame(i) else fs[i]
  {
    seq(|fs|, i requires 0 <= i < |fs| => if OwnedBy(fs[i], pid) then EmptyFrame(i) else fs[i])
  }

  /** The table after freeFramesOfProcess: every entry absent, modified bits kept. */
  function AllAbsent(t: seq<PageEntry>): (r: seq<PageEntry>)
    ensures |r| == |t|
    ensures forall j :: 0 <= j < |t| ==> r[j] == AbsentAfterFree(t[j])
  {
    seq(|t|, j requires 0 <= j < |t| => AbsentAfterFree(t[j]))
  }

  /** The listed present entries of a consistent table: in page order, each its own page's entry, each resident. */
  ghost predicate ListedResident(fs: seq<Frame>, t: seq<PageEntry>, pid: Pid, pp: seq<PageEntry>) {
    && (forall a, b :: 0 <= a < b < |pp| ==> pp[a].pageNumber < pp[b].pageNumber)
    && (forall a :: 0 <= a < |pp| ==>
          && 0 <= pp[a].pageNumber < |t| && t[pp[a].pageNumber] == pp[a] && pp[a].present == 1
          && pp[a].frameNumber.Some? && 0 <= pp[a].frameNumber.value < |fs|
          && OwnedBy(fs[pp[a].frameNumber.value], pid))
  }

  /** The present entries of a registered table in a consistent state are listed in order and resident. */
  lemma PresentPagesResident(fs: seq<Frame>, tables: Tables, pid: Pid)
    requires Consistent(fs, tables) && pid in tables
    ensures ListedResident(fs, tables[pid], pid, GetPresentPages(tables[pid]))
  {
    var t := tables[pid];
    var pp := GetPresentPages(t);
    PresentPagesInOrder(t, 0);
    PresentPagesBounded(t, 0);
    PresentPagesAtOwnPage(t, 0);
    PresentPagesExact(t);
    forall a | 0 <= a < |pp|
      ensures && 0 <= pp[a].pageNumber < |t| && t[pp[a].pageNumber] == pp[a] && pp[a].present == 1
              && pp[a].frameNumber.Some? && 0 <= pp[a].frameNumber.value < |fs|
              && OwnedBy(fs[pp[a].frameNumber.value], pid)
    {
      assert pp[a] in pp;
      EntryResident(fs, tables, pid, pp[a].pageNumber);
    }
  }

  /**
   * Part-way through the release loop over resident listed entries: the
   * first `k` entries are absent and their frames empty, the rest are
   * untouched, one frame is freed per entry, and only the process's frames
   * have changed.
   */
  lemma {:induction false} FreeProgress(fs: seq<Frame>, t: seq<PageEntry>, pid: Pid, pp: seq<PageEntry>, k: nat)
    requires ListedResident(fs, t, pid, pp) && k <= |pp|
    ensures var st := FreeUpTo(fs, t, pp, k);
      && |st.fs| == |fs| && |st.t| == |t| && |st.freedFrames| == k
      && (forall a :: 0 <= a < k ==> st.t[pp[a].pageNumber] == AbsentAfterFree(pp[a]))
      && (forall a :: 0 <= a < k ==> st.fs[pp[a].frameNumber.value] == EmptyFrame(pp[a].frameNumber.value))
      && (forall a :: k <= a < |pp| ==> st.t[pp[a].pageNumber] == pp[a])
      && (forall j :: 0 <= j < |t| ==> st.t[j] == t[j] || st.t[j] == AbsentAfterFree(t[j]))
      && (forall i :: 0 <= i < |fs| ==> st.fs[i] == fs[i] || (st.fs[i] == EmptyFrame(i) && OwnedBy(fs[i], pid)))
  {
    if k > 0 {
      FreeProgress(fs, t, pid, pp, k - 1);
      var prev := FreeUpTo(fs, t, pp, k - 1);
      var st := FreeUpTo(fs, t, pp, k);
      var e := pp[k - 1];
      var f := e.frameNumber.value;
      assert st == FreeState(prev.fs[f := EmptyFrame(f)], MarkedAbsent(prev.t, e.pageNumber), prev.freedFrames + [f]);
      assert prev.t[e.pageNumber] == e;
      forall a | 0 <= a < k ensures st.t[pp[a].pageNumber] == AbsentAfterFree(pp[a]) {
        if a < k - 1 {
          assert pp[a].pageNumber < e.pageNumber;
        }
      }
      forall a | k <= a < |pp| ensures st.t[pp[a].pageNumber] == pp[a] {
        assert e.pageNumber < pp[a].pageNumber;
      }
      forall j | 0 <= j < |t| ensures st.t[j] == t[j] || st.t[j] == AbsentAfterFree(t[j]) {
        if j == e.pageNumber {
          assert t[j] == e;
        }
      }
    }
  }

  /** Emptying all frames of a registered process and marking its whole table absent keeps the invariant. */
  lemma ReleasePreserves(fs: seq<Frame>, tables: Tables, pid: Pid)
    requires Consistent(fs, tables) && pid in tables
    ensures Consistent(FramesWithout(fs, pid), tables[pid := AllAbsent(tables[pid])])
  {
    var fs2 := FramesWithout(fs, pid);
    var tables2 := tables[pid := AllAbsent(tables[pid])];
    forall i | 0 <= i < |fs2| ensures FrameBacked(fs2[i], i, tables2) {
      assert FrameBacked(fs[i], i, tables);
    }
    forall p | p in tables2 ensures TableBacked(fs2, p, tables2[p]) {
      assert TableBacked(fs, p, tables[p]);
      forall j | 0 <= j < |tables2[p]| ensures EntryBacked(fs2, p, j, tables2[p][j]) {
        assert EntryBacked(fs, p, j, tables[p][j]);
      }
    }
  }

  /**
   * freeFramesOfProcess on a consistent state: the loop over the present
   * entries empties exactly the process's frames, leaves every entry of its
   * table absent, frees one frame per present page, and keeps the invariant.
   */
  lemma {:induction false} ReleaseAll(fs: seq<Frame>, tables: Tables, pid: Pid)
    requires Consistent(fs, tables) && pid in tables
    ensures var t := tables[pid];
      var pp := GetPresentPages(t);
      var st := FreeUpTo(fs, t, pp, |pp|);
      && st.fs == FramesWithout(fs, pid)
      && st.t == AllAbsent(t)
      && |st.freedFrames| == CountPresentPages(t)
      && Consistent(st.fs, tables[pid := st.t])
  {
    var t := tables[pid];
    var pp := GetPresentPages(t);
    PresentPagesResident(fs, tables, pid);
    FreeProgress(fs, t, pid, pp, |pp|);
    CountIsPresentLength(t);
    PresentPagesExact(t);
    var st := FreeUpTo(fs, t, pp, |pp|);
    forall j | 0 <= j < |t| ensures st.t[j] == AbsentAfterFree(t[j]) {
      if t[j].present == 1 {
        assert t[j] in pp;
        var a :| 0 <= a < |pp| && pp[a] == t[j];
        assert pp[a].pageNumber == j;
      }
    }
    assert st.t == AllAbsent(t);
    forall i | 0 <= i < |fs| ensures st.fs[i] == FramesWithout(fs, pid)[i] {
      if OwnedBy(fs[i], pid) {
        assert FrameBacked(fs[i], i, tables);
        var j := fs[i].pageNumber.value;
        assert t[j] in pp;
        var a :| 0 <= a < |pp| && pp[a] == t[j];
      }
    }
    assert st.fs == FramesWithout(fs, pid);
    ReleasePreserves(fs, tables, pid);
  }
}
