/**
 * The physical memory: a fixed table of frames, each with an owner (pid and
 * page), present/use/modified bits, and the global pointer of the Clock
 * replacement algorithm.
 */
module Frames {
  import opened Common

  /** One physical frame. `frameNumber` is its index and never changes. */
  datatype Frame = Frame(
    frameNumber: int,
    pid: Option<Pid>,
    pageNumber: Option<int>,
    use: Bit,
    present: Bit,
    modified: Bit)

  /** The frame `i` as the table is created and as freeing leaves it: no owner, every bit 0. */
  function EmptyFrame(i: int): Frame {
    Frame(i, None, None, 0, 0, 0)
  }

  /** The frame `i` just handed to page `page` of process `pid`: present and used, not modified. */
  function LoadedFrame(i: int, pid: Pid, page: int): Frame {
    Frame(i, Some(pid), Some(page), 1, 1, 0)
  }

  /** The frame invariant: present=1 exactly when there is an owner pid, exactly when there is a page. */
  predicate WellFormed(fr: Frame) {
    && (fr.present == 1 <==> fr.pid.Some?)
    && (fr.pid.Some? <==> fr.pageNumber.Some?)
  }

  /** The condition under which a frame may be allocated. */
  predicate IsFree(fr: Frame) {
    fr.pid.None? && fr.present == 0
  }

  /** Frame `fr` is a present frame owned by `pid`. */
  predicate OwnedBy(fr: Frame, pid: Pid) {
    fr.pid == Some(pid) && fr.present == 1
  }

  /** Every frame of `fs` is well formed and stands at the index equal to its frame number. */
  ghost predicate TableShape(fs: seq<Frame>) {
    forall i :: 0 <= i < |fs| ==> fs[i].frameNumber == i && WellFormed(fs[i])
  }

  /** The index of the first free frame, scanning from frame 0. */
  function FirstFree(fs: seq<Frame>): (r: Option<nat>)
    ensures r.Some? ==> r.value < |fs| && IsFree(fs[r.value])
    ensures r.Some? ==> forall j :: 0 <= j < r.value ==> !IsFree(fs[j])
    ensures r.None? <==> forall j :: 0 <= j < |fs| ==> !IsFree(fs[j])
  {
    if |fs| == 0 then None
    else if IsFree(fs[0]) then Some(0)
    else match FirstFree(fs[1..])
      case None => None
      case Some(k) => Some(k + 1)
  }

  /** The number of frames whose present bit equals `b`. */
  function CountPresent(fs: seq<Frame>, b: Bit): nat {
    if |fs| == 0 then 0
    else (if fs[0].present == b then 1 else 0) + CountPresent(fs[1..], b)
  }

  /** Every frame is either used or free, so the two counts add up to the table size. */
  lemma {:induction false} UsedPlusFree(fs: seq<Frame>)
    ensures CountPresent(fs, 1) + CountPresent(fs, 0) == |fs|
  {
    if |fs| > 0 {
      UsedPlusFree(fs[1..]);
    }
  }

  /** The present frames owned by `pid`, in table order (getFramesByProcess). */
  function FramesOf(fs: seq<Frame>, pid: Pid): (r: seq<Frame>)
    ensures |r| <= |fs|
    ensures forall x :: x in r ==> x in fs && OwnedBy(x, pid)
    ensures forall x :: x in fs && OwnedBy(x, pid) ==> x in r
  {
    if |fs| == 0 then []
    else if OwnedBy(fs[0], pid) then [fs[0]] + FramesOf(fs[1..], pid)
    else FramesOf(fs[1..], pid)
  }

  /** The number of present frames owned by `pid` (getFrameCountByProcess). */
  function CountOf(fs: seq<Frame>, pid: Pid): nat {
    if |fs| == 0 then 0
    else (if OwnedBy(fs[0], pid) then 1 else 0) + CountOf(fs[1..], pid)
  }

  /** The count of a process's frames is the length of the list of its frames. */
  lemma {:induction false} CountOfIsLength(fs: seq<Frame>, pid: Pid)
    ensures CountOf(fs, pid) == |FramesOf(fs, pid)|
  {
    if |fs| > 0 {
      CountOfIsLength(fs[1..], pid);
    }
  }

  /** Two different processes never hold a frame with the same frame number. */
  lemma FramesOfDisjoint(fs: seq<Frame>, p: Pid, q: Pid)
    requires TableShape(fs)
    requires p != q
    ensures forall x, y :: x in FramesOf(fs, p) && y in FramesOf(fs, q) ==> x.frameNumber != y.frameNumber
  {
    forall x, y | x in FramesOf(fs, p) && y in FramesOf(fs, q)
      ensures x.frameNumber != y.frameNumber
    {
      var i :| 0 <= i < |fs| && fs[i] == x;
      var j :| 0 <= j < |fs| && fs[j] == y;
      assert x.pid != y.pid;
    }
  }

  /** The result of getMemorySnapshot. */
  datatype MemorySnapshot = MemorySnapshot(
    totalFrames: nat,
    pageSize: int,
    clockPointer: nat,
    frames: seq<Frame>,
    usedFrames: nat,
    freeFrames: nat)

  /** The frame table together with the Clock pointer (the module state of memory.js). */
  class Memory {
    var pageSize: int
    var frames: array<Frame>
    var clockPointer: nat

    /** Frame numbers match indices, every frame keeps the frame invariant, and the pointer is in range. */
    ghost predicate Valid()
      reads this, frames
    {
      && TableShape(frames[..])
      && (if frames.Length == 0 then clockPointer == 0 else clockPointer < frames.Length)
    }

    /** The state before any initialisation: no frames. */
    constructor ()
      ensures Valid() && fresh(frames)
      ensures frames.Length == 0 && pageSize == 0 && clockPointer == 0
    {
      pageSize := 0;
      frames := new Frame[0];
      clockPointer := 0;
    }

    /** initializeMemory: `totalFrames` empty frames numbered from 0, pointer at 0. */
    method Initialize(totalFrames: nat, pageSize: int)
      modifies this
      ensures Valid() && fresh(frames)
      ensures frames.Length == totalFrames && this.pageSize == pageSize && clockPointer == 0
      ensures forall i :: 0 <= i < totalFrames ==> frames[i] == EmptyFrame(i)
    {
      this.pageSize := pageSize;
      frames := new Frame[totalFrames](i => EmptyFrame(i));
      clockPointer := 0;
    }

    /** resetMemory: back to the state before initialisation. */
    method Reset()
      modifies this
      ensures Valid() && fresh(frames)
      ensures frames.Length == 0 && pageSize == 0 && clockPointer == 0
    {
      pageSize := 0;
      frames := new Frame[0];
      clockPointer := 0;
    }

    /** getFreeFrame: the lowest-numbered free frame, or None when every frame is taken. */
    function GetFreeFrame(): (r: Option<int>)
      reads this, frames
      requires Valid()
      ensures r.Some? ==> 0 <= r.value < frames.Length && IsFree(frames[r.value])
      ensures r.Some? ==> forall j :: 0 <= j < r.value ==> !IsFree(frames[j])
      ensures r.None? <==> forall j :: 0 <= j < frames.Length ==> !IsFree(frames[j])
    {
      match FirstFree(frames[..])
      case None => None
      case Some(k) => Some(frames[k].frameNumber)
    }

    /**
     * allocateFrame: fails without change for an index out of range or an
     * occupied frame; otherwise gives the frame to (pid, page) and touches no other frame.
     */
    method AllocateFrame(frameNumber: int, pid: Pid, page: int) returns (ok: bool)
      requires Valid()
      modifies frames
      ensures Valid()
      ensures ok <==> 0 <= frameNumber < frames.Length && IsFree(old(frames[frameNumber]))
      ensures ok ==> frames[..] == old(frames[..])[frameNumber := LoadedFrame(frameNumber, pid, page)]
      ensures !ok ==> frames[..] == old(frames[..])
    {
      if frameNumber < 0 || frameNumber >= frames.Length {
        return false;
      }
      var frame := frames[frameNumber];
      if frame.pid.Some? || frame.present == 1 {
        return false;
      }
      frames[frameNumber] := frame.(pid := Some(pid), pageNumber := Some(page), present := 1, use := 1, modified := 0);
      return true;
    }

    /** freeFrame: fails only out of range; otherwise the frame is emptied, so doing it twice is doing it once. */
    method FreeFrame(frameNumber: int) returns (ok: bool)
      requires Valid()
      modifies frames
      ensures Valid()
      ensures ok <==> 0 <= frameNumber < frames.Length
      ensures ok ==> frames[..] == old(frames[..])[frameNumber := EmptyFrame(frameNumber)]
      ensures !ok ==> frames[..] == old(frames[..])
    {
      if frameNumber < 0 || frameNumber >= frames.Length {
        return false;
      }
      var frame := frames[frameNumber];
      frames[frameNumber] := frame.(pid := None, pageNumber := None, present := 0, use := 0, modified := 0);
      return true;
    }

    /** getClockPointer. */
    function GetClockPointer(): (p: nat)
      reads this, frames
      requires Valid()
      ensures frames.Length > 0 ==> p < frames.Length
    {
      clockPointer
    }

    /** setClockPointer: values outside [0, totalFrames) are ignored. */
    method SetClockPointer(newPointer: int)
      requires Valid()
      modifies this
      ensures Valid() && frames == old(frames)
      ensures pageSize == old(pageSize)
      ensures clockPointer == if 0 <= newPointer < frames.Length then newPointer else old(clockPointer)
    {
      if 0 <= newPointer < frames.Length {
        clockPointer := newPointer;
      }
    }

    /** advanceClockPointer: one step around the ring of frames. */
    method AdvanceClockPointer() returns (p: nat)
      requires Valid() && frames.Length > 0
      modifies this
      ensures Valid() && frames == old(frames) && pageSize == old(pageSize)
      ensures p == clockPointer == (old(clockPointer) + 1) % frames.Length
    {
      clockPointer := (clockPointer + 1) % frames.Length;
      p := clockPointer;
    }

    /** updateFrameBits: sets only the supplied use and modified bits of one frame. */
    method UpdateFrameBits(frameNumber: int, use: Option<Bit>, modified: Option<Bit>) returns (ok: bool)
      requires Valid()
      modifies frames
      ensures Valid()
      ensures ok <==> 0 <= frameNumber < frames.Length
      ensures ok ==> frames[..] == old(frames[..])[frameNumber :=
        old(frames[frameNumber]).(
          use := if use.Some? then use.value else old(frames[frameNumber]).use,
          modified := if modified.Some? then modified.value else old(frames[frameNumber]).modified)]
      ensures !ok ==> frames[..] == old(frames[..])
    {
      if frameNumber < 0 || frameNumber >= frames.Length {
        return false;
      }
      var frame := frames[frameNumber];
      if use.Some? {
        frame := frame.(use := use.value);
      }
      if modified.Some? {
        frame := frame.(modified := modified.value);
      }
      frames[frameNumber] := frame;
      return true;
    }

    /** getFrame: a copy of the frame, or None out of range. */
    function GetFrame(frameNumber: int): (r: Option<Frame>)
      reads this, frames
      requires Valid()
      ensures r.Some? <==> 0 <= frameNumber < frames.Length
      ensures r.Some? ==> r.value.frameNumber == frameNumber && WellFormed(r.value)
    {
      if frameNumber < 0 || frameNumber >= frames.Length then None else Some(frames[frameNumber])
    }

    /** getMemorySnapshot: used and free frames always add up to the total. */
    function GetMemorySnapshot(): (s: MemorySnapshot)
      reads this, frames
      requires Valid()
      ensures s.totalFrames == frames.Length == |s.frames|
      ensures s.usedFrames + s.freeFrames == s.totalFrames
      ensures s.frames == frames[..] && s.clockPointer == clockPointer
    {
      UsedPlusFree(frames[..]);
      MemorySnapshot(frames.Length, pageSize, clockPointer, frames[..],
        CountPresent(frames[..], 1), CountPresent(frames[..], 0))
    }

    /** getFrameCountByProcess: equal to the length of getFramesByProcess. */
    function GetFrameCountByProcess(pid: Pid): (n: nat)
      reads this, frames
      ensures n == |GetFramesByProcess(pid)|
    {
      CountOfIsLength(frames[..], pid);
      CountOf(frames[..], pid)
    }

    /** getFramesByProcess: the present frames owned by `pid`, in frame order. */
    function GetFramesByProcess(pid: Pid): (r: seq<Frame>)
      reads this, frames
    {
      FramesOf(frames[..], pid)
    }
  }
}
