/**
 * The simulation engine (engine.js): a mode, a speed in milliseconds, a
 * flag for whether the interval timer is set, and the process list. In
 * "auto" mode a step moves every process that is not Terminated along one
 * automatic edge of the process life cycle.
 *
 * The timer itself is the `running` flag; the random draw that decides
 * between terminating and waiting is the `coin` parameter (coin(i) for the
 * i-th process), and the clock reading is `now`. The process list is held
 * by value.
 */
module Engine {
  import opened Common
  import opened Fsm

  /** The speed the engine starts with, and the one resetEngine restores. */
  const InitialSpeed: int := 3000
  const ResetSpeed: int := 1000

  /** getEngineState. */
  datatype EngineState = EngineState(mode: string, speed: int, running: bool)

  /**
   * AUTO_TRANSITIONS: the automatic edge out of a state, `terminate` being
   * the coin's choice for a running process. Every such edge is legal, and
   * none of them takes a running process back to Ready.
   */
  function AutoTarget(s: State, terminate: bool): (r: Option<State>)
    ensures r.None? <==> s == Terminated
    ensures r.Some? ==> Legal(s, r.value)
    ensures s == Running ==> r.Some? && r.value != Ready
  {
    match s
    case New => Some(Ready)
    case Ready => Some(Running)
    case Running => if terminate then Some(Terminated) else Some(Waiting)
    case Waiting => Some(Ready)
    case Terminated => None
  }

  /** What an auto-mode step does to one process: one automatic edge, or nothing for a Terminated one. */
  function AutoStep(p: ProcessRecord, terminate: bool, now: int): (r: ProcessRecord)
    ensures p.state == Terminated ==> r == p
    ensures p.state != Terminated ==>
      && Legal(p.state, r.state)
      && !(p.state == Running && r.state == Ready)
      && |r.history| == |p.history| + 1 && r.history[..|p.history|] == p.history
      && r.history[|p.history|].cause == "auto"
  {
    match AutoTarget(p.state, terminate)
    case None => p
    case Some(t) => Apply(p, t, "auto", now)
  }

  /** The process list after an auto-mode step. */
  function StepAll(ps: seq<ProcessRecord>, coin: nat -> bool, now: int): (r: seq<ProcessRecord>)
    ensures |r| == |ps|
    ensures forall i :: 0 <= i < |ps| ==> r[i] == AutoStep(ps[i], coin(i), now)
  {
    seq(|ps|, i requires 0 <= i < |ps| => AutoStep(ps[i], coin(i), now))
  }

  /** An automatic move keeps a process coherent. */
  lemma AutoStepKeepsCoherent(p: ProcessRecord, terminate: bool, now: int)
    requires Coherent(p)
    ensures Coherent(AutoStep(p, terminate, now))
  {
    match AutoTarget(p.state, terminate)
    case None =>
    case Some(t) => ApplyKeepsCoherent(p, t, "auto", now);
  }

  /** A step of the engine keeps every process of a coherent list coherent. */
  lemma StepAllKeepsCoherent(ps: seq<ProcessRecord>, coin: nat -> bool, now: int)
    requires forall i :: 0 <= i < |ps| ==> Coherent(ps[i])
    ensures forall i :: 0 <= i < |ps| ==> Coherent(StepAll(ps, coin, now)[i])
  {
    forall i | 0 <= i < |ps| ensures Coherent(StepAll(ps, coin, now)[i]) {
      AutoStepKeepsCoherent(ps[i], coin(i), now);
    }
  }

  class Engine {
    var mode: string
    var speed: int
    var running: bool
    var processes: seq<ProcessRecord>

    /** The timer is set only in a mode other than "manual" and at a speed other than 0. */
    ghost predicate Valid()
      reads this
    {
      running ==> mode != "manual" && speed != 0
    }

    /** The engine's initial module state. */
    constructor ()
      ensures Valid()
      ensures mode == "manual" && speed == InitialSpeed && !running && processes == []
    {
      mode := "manual";
      speed := InitialSpeed;
      running := false;
      processes := [];
    }

    /** getEngineState: a running engine is never in manual mode or at speed 0. */
    function GetEngineState(): (r: EngineState)
      requires Valid()
      reads this
      ensures r.running ==> r.mode != "manual" && r.speed != 0
    {
      EngineState(mode, speed, running)
    }

    /** stop: clears the timer. */
    method Stop()
      modifies this
      ensures Valid() && !running
      ensures mode == old(mode) && speed == old(speed) && processes == old(processes)
    {
      if running {
        running := false;
      }
    }

    /** pause: the same as stop. */
    method Pause()
      modifies this
      ensures Valid() && !running
      ensures mode == old(mode) && speed == old(speed) && processes == old(processes)
    {
      Stop();
    }

    /** start: takes the given list (or keeps the current one) and sets the timer unless speed is 0 or mode is "manual". */
    method Start(procList: Option<seq<ProcessRecord>>)
      requires Valid()
      modifies this
      ensures Valid()
      ensures processes == (match procList case Some(l) => l case None => old(processes))
      ensures mode == old(mode) && speed == old(speed)
      ensures running <==> speed != 0 && mode != "manual"
    {
      if procList.Some? {
        processes := procList.value;
      }
      if running {
        Stop();
      }
      if speed == 0 || mode == "manual" {
        return;
      }
      running := true;
    }

    /** setMode: the engine is running afterwards exactly when the new mode is "auto" and speed is positive. */
    method SetMode(newMode: string)
      requires Valid()
      modifies this
      ensures Valid()
      ensures mode == newMode && speed == old(speed) && processes == old(processes)
      ensures running <==> newMode == "auto" && speed > 0
    {
      mode := newMode;
      if running {
        Stop();
      }
      if mode == "auto" && speed > 0 {
        Start(None);
      }
    }

    /** setSpeed: restarts only a running engine, which then runs exactly when the speed is positive in "auto" mode. */
    method SetSpeed(newSpeed: int)
      requires Valid()
      modifies this
      ensures Valid()
      ensures speed == newSpeed && mode == old(mode) && processes == old(processes)
      ensures running <==> old(running) && newSpeed > 0 && mode == "auto"
    {
      speed := newSpeed;
      if running {
        Stop();
        if speed > 0 && mode == "auto" {
          Start(None);
        }
      }
    }

    /** setProcesses: replaces the process list. */
    method SetProcesses(procList: seq<ProcessRecord>)
      requires Valid()
      modifies this
      ensures Valid()
      ensures processes == procList && mode == old(mode) && speed == old(speed) && running == old(running)
    {
      processes := procList;
    }

    /**
     * step: in "auto" mode every process that is not Terminated moves along
     * its automatic edge, once; in any other mode, or with no processes,
     * nothing changes. `updated` says whether any process moved.
     */
    method Step(coin: nat -> bool, now: int) returns (updated: bool)
      requires Valid()
      modifies this
      ensures Valid()
      ensures mode == old(mode) && speed == old(speed) && running == old(running)
      ensures processes == if mode == "auto" then StepAll(old(processes), coin, now) else old(processes)
      ensures updated <==> mode == "auto" && exists j :: 0 <= j < |old(processes)| && old(processes)[j].state != Terminated
    {
      if |processes| == 0 {
        return false;
      }
      updated := false;
      var i := 0;
      while i < |processes|
        invariant 0 <= i <= |processes| == |old(processes)|
        invariant mode == old(mode) && speed == old(speed) && running == old(running)
        invariant forall j :: 0 <= j < i ==>
          processes[j] == if mode == "auto" then AutoStep(old(processes)[j], coin(j), now) else old(processes)[j]
        invariant forall j :: i <= j < |processes| ==> processes[j] == old(processes)[j]
        invariant updated <==> mode == "auto" && exists j :: 0 <= j < i && old(processes)[j].state != Terminated
      {
        var proc := processes[i];
        if mode == "auto" && proc.state != Terminated {
          var target := AutoTarget(proc.state, coin(i));
          processes := processes[i := Apply(proc, target.value, "auto", now)];
          updated := true;
        }
        i := i + 1;
      }
    }

    /** resetEngine: manual mode, speed 1000, no timer, no processes. */
    method ResetEngine()
      requires Valid()
      modifies this
      ensures Valid()
      ensures mode == "manual" && speed == ResetSpeed && !running && processes == []
    {
      Stop();
      processes := [];
      mode := "manual";
      speed := ResetSpeed;
    }
  }
}
