/**
 * The process life cycle (fsm.js): five states, a fixed table of legal
 * edges, and `transition`, which refuses an edge outside the table and
 * otherwise updates the process record in place: program counter,
 * registers, system-call log, history, state.
 *
 * Timestamps come from the caller as `now`; the source's `throw` on an
 * illegal edge is the InvalidTransition result, with the record untouched.
 */
module Fsm {
  import opened Common

  datatype State = New | Ready | Running | Waiting | Terminated

  /** VALID_TRANSITIONS: the targets each state may move to. */
  function Allowed(from: State): seq<State> {
    match from
    case New => [Ready]
    case Ready => [Running]
    case Running => [Ready, Waiting, Terminated]
    case Waiting => [Ready]
    case Terminated => []
  }

  predicate Legal(from: State, to: State) {
    to in Allowed(from)
  }

  /**
   * The table read by target, which is all a wrapper names: only Ready
   * enters Running, only Running enters Waiting or Terminated, New is never
   * entered, and Terminated is never left.
   */
  lemma LegalByTarget(from: State, to: State)
    ensures to == New ==> !Legal(from, to)
    ensures to == Ready ==> (Legal(from, to) <==> from == New || from == Running || from == Waiting)
    ensures to == Running ==> (Legal(from, to) <==> from == Ready)
    ensures to == Waiting || to == Terminated ==> (Legal(from, to) <==> from == Running)
    ensures from == Terminated ==> !Legal(from, to)
  {
  }

  datatype SyscallKind = CpuAssign | IoRequest | IoComplete | Terminate

  datatype Syscall = Syscall(kind: SyscallKind, at: int)

  /** A history record: the edge, its time and cause, and a copy of pc, registers and syscalls after it. */
  datatype HistoryRecord = HistoryRecord(
    from: State,
    to: State,
    timestamp: int,
    cause: string,
    pc: int,
    registers: map<string, int>,
    syscalls: seq<Syscall>,
    priority: int)

  /** The fields of a process record. */
  datatype ProcessRecord = ProcessRecord(
    pid: Pid,
    state: State,
    createdAt: int,
    stateEnteredAt: int,
    priority: int,
    pc: int,
    registers: map<string, int>,
    syscalls: seq<Syscall>,
    history: seq<HistoryRecord>)

  /** The outcome of transition: done, or the error the source throws. */
  datatype TransitionResult = Transitioned | InvalidTransition(from: State, to: State, pid: Pid)

  /** createProcess, for the given clock reading. */
  function Created(pid: Pid, priority: int, now: int): (p: ProcessRecord)
    ensures p.state == New && p.pc == 0 && p.registers == map[] && p.syscalls == [] && p.history == []
    ensures p.pid == pid && p.priority == priority && p.createdAt == p.stateEnteredAt == now
  {
    ProcessRecord(pid, New, now, now, priority, 0, map[], [], [])
  }

  /** The cause recorded when a wrapper passes none. */
  function CauseOf(cause: Option<string>): string {
    match cause
    case Some(c) => c
    case None => "manual"
  }

  /** The system call logged for an edge, if any. */
  function SyscallOf(from: State, to: State): Option<SyscallKind> {
    if to == Running then Some(CpuAssign)
    else if to == Waiting then Some(IoRequest)
    else if to == Ready && from == Waiting then Some(IoComplete)
    else if to == Terminated then Some(Terminate)
    else None
  }

  /** The registers after an edge: AX grows by 10 on entering Running; the others record the time. */
  function RegistersAfter(regs: map<string, int>, from: State, to: State, now: int): map<string, int> {
    if to == Running then regs["AX" := (if "AX" in regs then regs["AX"] else 0) + 10]
    else if to == Waiting then regs["IO_WAIT" := now]
    else if to == Ready && from == Waiting then regs["IO_DONE" := now]
    else if to == Terminated then regs["END" := now]
    else regs
  }

  /** The record after a legal transition to `to`. */
  function Apply(p: ProcessRecord, to: State, cause: string, now: int): (r: ProcessRecord)
    requires Legal(p.state, to)
    ensures r.state == to && r.stateEnteredAt == now
    ensures r.pid == p.pid && r.priority == p.priority && r.createdAt == p.createdAt
    ensures r.pc == p.pc + (if to == Running then 1 else 0)
    ensures p.syscalls <= r.syscalls && |r.syscalls| <= |p.syscalls| + 1
    ensures |r.history| == |p.history| + 1 && r.history[..|p.history|] == p.history
    ensures var last := r.history[|p.history|];
      last.from == p.state && last.to == to && last.cause == cause && last.timestamp == now
      && last.pc == r.pc && last.registers == r.registers && last.syscalls == r.syscalls && last.priority == p.priority
  {
    var pc := if to == Running then p.pc + 1 else p.pc;
    var regs := RegistersAfter(p.registers, p.state, to, now);
    var calls := match SyscallOf(p.state, to)
      case Some(k) => p.syscalls + [Syscall(k, now)]
      case None => p.syscalls;
    p.(state := to, stateEnteredAt := now, pc := pc, registers := regs, syscalls := calls,
       history := p.history + [HistoryRecord(p.state, to, now, cause, pc, regs, calls, p.priority)])
  }

  /** The number of records in `h` that enter Running. */
  function CountRunning(h: seq<HistoryRecord>): (n: nat)
    ensures n <= |h|
  {
    if |h| == 0 then 0 else CountRunning(h[..|h| - 1]) + (if h[|h| - 1].to == Running then 1 else 0)
  }

  /** The number of records in `h` whose edge logs a system call. */
  function CountSyscalls(h: seq<HistoryRecord>): (n: nat)
    ensures n <= |h|
  {
    if |h| == 0 then 0 else CountSyscalls(h[..|h| - 1]) + (if SyscallOf(h[|h| - 1].from, h[|h| - 1].to).Some? then 1 else 0)
  }

  /**
   * What every record built by createProcess and transition satisfies: the
   * history is a walk of legal edges from New ending in the current state,
   * pc counts the entries into Running, AX is ten times pc, and one system
   * call is logged per edge that logs one.
   */
  ghost predicate Coherent(p: ProcessRecord) {
    var h := p.history;
    && (|h| == 0 ==> p.state == New)
    && (|h| > 0 ==> h[0].from == New && h[|h| - 1].to == p.state)
    && (forall i :: 0 <= i < |h| ==> Legal(h[i].from, h[i].to))
    && (forall i :: 0 <= i < |h| - 1 ==> h[i].to == h[i + 1].from)
    && p.pc == CountRunning(h)
    && ("AX" in p.registers <==> p.pc > 0)
    && (p.pc > 0 ==> p.registers["AX"] == 10 * p.pc)
    && |p.syscalls| == CountSyscalls(h)
  }

  /** A new process is coherent. */
  lemma CreatedCoherent(pid: Pid, priority: int, now: int)
    ensures Coherent(Created(pid, priority, now))
  {
  }

  /** A legal transition keeps a record coherent. */
  lemma {:induction false} ApplyKeepsCoherent(p: ProcessRecord, to: State, cause: string, now: int)
    requires Coherent(p) && Legal(p.state, to)
    ensures Coherent(Apply(p, to, cause, now))
  {
    var r := Apply(p, to, cause, now);
    assert r.history[..|r.history| - 1] == p.history;
  }

  /** In a coherent history, only the last record can enter Terminated: it is never left. */
  lemma TerminatedIsLast(p: ProcessRecord)
    requires Coherent(p)
    ensures forall j :: 0 <= j < |p.history| - 1 ==> p.history[j].to != Terminated
  {
    forall j | 0 <= j < |p.history| - 1 ensures p.history[j].to != Terminated {
      assert Legal(p.history[j + 1].from, p.history[j + 1].to);
    }
  }

  /** A coherent record has entered Running exactly pc times, and at least once before it can wait or end. */
  lemma {:induction false} RunningBeforeWaitOrEnd(p: ProcessRecord)
    requires Coherent(p) && (p.state == Waiting || p.state == Terminated)
    ensures p.pc >= 1
  {
    var h := p.history;
    var last := h[|h| - 1];
    assert Legal(last.from, last.to);
    LastEntryFromRunning(h);
  }

  /** A walk whose last edge leaves Running has entered Running at least once. */
  lemma {:induction false} LastEntryFromRunning(h: seq<HistoryRecord>)
    requires |h| > 0 && h[0].from == New && h[|h| - 1].from == Running
    requires forall i :: 0 <= i < |h| - 1 ==> h[i].to == h[i + 1].from
    ensures CountRunning(h) >= 1
  {
    if h[|h| - 1].to != Running && |h| >= 2 {
      var g := h[..|h| - 1];
      assert g[|g| - 1].to == Running;
    }
  }

  /** A process (fsm.js works on the record in place). */
  class Process {
    var pid: Pid
    var state: State
    var createdAt: int
    var stateEnteredAt: int
    var priority: int
    var pc: int
    var registers: map<string, int>
    var syscalls: seq<Syscall>
    var history: seq<HistoryRecord>

    function Record(): ProcessRecord
      reads this
    {
      ProcessRecord(pid, state, createdAt, stateEnteredAt, priority, pc, registers, syscalls, history)
    }

    /** createProcess. */
    constructor (pid: Pid, priority: int, now: int)
      ensures Record() == Created(pid, priority, now)
    {
      this.pid := pid;
      state := New;
      createdAt := now;
      stateEnteredAt := now;
      this.priority := priority;
      pc := 0;
      registers := map[];
      syscalls := [];
      history := [];
    }

    /** transition: refuses an edge outside the table, otherwise applies it and its side effects. */
    method Transition(to: State, cause: Option<string>, now: int) returns (r: TransitionResult)
      modifies this
      ensures r.Transitioned? <==> Legal(old(state), to)
      ensures r.InvalidTransition? ==> r == InvalidTransition(old(state), to, pid) && Record() == old(Record())
      ensures r.Transitioned? ==> Record() == Apply(old(Record()), to, CauseOf(cause), now)
      ensures r.Transitioned? && old(Coherent(Record())) ==> Coherent(Record())
    {
      var from := state;
      if to !in Allowed(from) {
        return InvalidTransition(from, to, pid);
      }
      ghost var before := Record();
      SideEffects(from, to, now);
      history := history + [HistoryRecord(from, to, now, CauseOf(cause), pc, registers, syscalls, priority)];
      state := to;
      stateEnteredAt := now;
      r := Transitioned;
      if Coherent(before) {
        ApplyKeepsCoherent(before, to, CauseOf(cause), now);
      }
    }

    /** The register and system-call effects of an edge, in the order transition applies them. */
    method SideEffects(from: State, to: State, now: int)
      modifies this
      ensures pc == old(pc) + (if to == Running then 1 else 0)
      ensures registers == RegistersAfter(old(registers), from, to, now)
      ensures syscalls == match SyscallOf(from, to)
        case Some(k) => old(syscalls) + [Syscall(k, now)]
        case None => old(syscalls)
      ensures pid == old(pid) && state == old(state) && createdAt == old(createdAt)
      ensures stateEnteredAt == old(stateEnteredAt) && priority == old(priority) && history == old(history)
    {
      if to == Running {
        pc := pc + 1;
        registers := registers["AX" := (if "AX" in registers then registers["AX"] else 0) + 10];
        syscalls := syscalls + [Syscall(CpuAssign, now)];
      }
      if to == Waiting {
        registers := registers["IO_WAIT" := now];
        syscalls := syscalls + [Syscall(IoRequest, now)];
      }
      if to == Ready && from == Waiting {
        registers := registers["IO_DONE" := now];
        syscalls := syscalls + [Syscall(SyscallKind.IoComplete, now)];
      }
      if to == Terminated {
        registers := registers["END" := now];
        syscalls := syscalls + [Syscall(SyscallKind.Terminate, now)];
      }
    }

    /** admit: a transition to Ready (accepted from New, Running and Waiting alike). */
    method Admit(cause: Option<string>, now: int) returns (r: TransitionResult)
      modifies this
      ensures r.Transitioned? <==> old(state) in {New, Running, Waiting}
      ensures r.InvalidTransition? ==> r == InvalidTransition(old(state), Ready, pid) && Record() == old(Record())
      ensures r.Transitioned? ==> Record() == Apply(old(Record()), Ready, CauseOf(cause), now)
      ensures r.Transitioned? && old(Coherent(Record())) ==> Coherent(Record())
    {
      r := Transition(Ready, cause, now);
    }

    /** assignCPU: a transition to Running. */
    method AssignCpu(cause: Option<string>, now: int) returns (r: TransitionResult)
      modifies this
      ensures r.Transitioned? <==> old(state) == Ready
      ensures r.InvalidTransition? ==> r == InvalidTransition(old(state), Running, pid) && Record() == old(Record())
      ensures r.Transitioned? ==> Record() == Apply(old(Record()), Running, CauseOf(cause), now)
      ensures r.Transitioned? && old(Coherent(Record())) ==> Coherent(Record())
    {
      r := Transition(Running, cause, now);
    }

    /** preempt: a transition to Ready, the same call as admit. */
    method Preempt(cause: Option<string>, now: int) returns (r: TransitionResult)
      modifies this
      ensures r.Transitioned? <==> old(state) in {New, Running, Waiting}
      ensures r.InvalidTransition? ==> r == InvalidTransition(old(state), Ready, pid) && Record() == old(Record())
      ensures r.Transitioned? ==> Record() == Apply(old(Record()), Ready, CauseOf(cause), now)
      ensures r.Transitioned? && old(Coherent(Record())) ==> Coherent(Record())
    {
      r := Transition(Ready, cause, now);
    }

    /** requestIO: a transition to Waiting. */
    method RequestIo(cause: Option<string>, now: int) returns (r: TransitionResult)
      modifies this
      ensures r.Transitioned? <==> old(state) == Running
      ensures r.InvalidTransition? ==> r == InvalidTransition(old(state), Waiting, pid) && Record() == old(Record())
      ensures r.Transitioned? ==> Record() == Apply(old(Record()), Waiting, CauseOf(cause), now)
      ensures r.Transitioned? && old(Coherent(Record())) ==> Coherent(Record())
    {
      r := Transition(Waiting, cause, now);
    }

    /** ioComplete: a transition to Ready, the same call as admit. */
    method IoComplete(cause: Option<string>, now: int) returns (r: TransitionResult)
      modifies this
      ensures r.Transitioned? <==> old(state) in {New, Running, Waiting}
      ensures r.InvalidTransition? ==> r == InvalidTransition(old(state), Ready, pid) && Record() == old(Record())
      ensures r.Transitioned? ==> Record() == Apply(old(Record()), Ready, CauseOf(cause), now)
      ensures r.Transitioned? && old(Coherent(Record())) ==> Coherent(Record())
    {
      r := Transition(Ready, cause, now);
    }

    /** terminate: a transition to Terminated. */
    method Terminate(cause: Option<string>, now: int) returns (r: TransitionResult)
      modifies this
      ensures r.Transitioned? <==> old(state) == Running
      ensures r.InvalidTransition? ==> r == InvalidTransition(old(state), Terminated, pid) && Record() == old(Record())
      ensures r.Transitioned? ==> Record() == Apply(old(Record()), Terminated, CauseOf(cause), now)
      ensures r.Transitioned? && old(Coherent(Record())) ==> Coherent(Record())
    {
      r := Transition(Terminated, cause, now);
    }
  }
}
