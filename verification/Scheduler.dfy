/** Round-robin scheduling as a state machine: spawns, timer ticks, and system calls of the running process. */
module SchedulerModel {

  datatype Registers = Registers(rip: nat, cs: nat, rflags: nat, rsp: nat, ss: nat, others: seq<nat>)

  datatype RunState = Ready | Running

  datatype Proc = Proc(ctx: Registers, state: RunState, timeslice: nat, pagemap: nat, inSyscall: bool)

  /** Processes by pid, the current pid and the active pagemap. */
  datatype Sched = Sched(procs: seq<Proc>, current: nat, active: nat)

  datatype Event =
    | Spawn(ctx: Registers, pagemap: nat)
    | Tick(regs: Registers)
    | Syscall(inside: bool)

  const START: Sched := Sched([], 0, 0)

  // ---------- Steps ----------

  function AfterSpawn(s: Sched, ctx: Registers, pagemap: nat, slice: nat): Sched
  {
    s.(procs := s.procs + [Proc(ctx, Ready, slice, pagemap, false)])
  }

  predicate CurrentRuns(s: Sched)
  {
    s.current < |s.procs| && s.procs[s.current].state == Running
  }

  /** The current process runs outside a system call: this tick is taken from its slice. */
  predicate Charged(s: Sched)
  {
    CurrentRuns(s) && !s.procs[s.current].inSyscall
  }

  /** First half of a tick: save the running process, and pass on the turn when its slice is used up. */
  function Charge(s: Sched, regs: Registers, slice: nat): Sched
    requires s.current < |s.procs|
  {
    if !Charged(s) then s
    else
      var p := s.procs[s.current].(ctx := regs);
      if p.timeslice <= 1 then
        Sched(s.procs[s.current := p.(state := Ready, timeslice := slice)], (s.current + 1) % |s.procs|, s.active)
      else s.(procs := s.procs[s.current := p.(timeslice := p.timeslice - 1)])
  }

  /** Second half: the process whose turn it is starts running if it is ready. */
  function Dispatch(s: Sched, regs: Registers): (Sched, Registers)
    requires s.current < |s.procs|
  {
    var p := s.procs[s.current];
    if p.state == Ready then
      (Sched(s.procs[s.current := p.(state := Running)], s.current, p.pagemap), p.ctx)
    else (s, regs)
  }

  /** A timer tick: the next state and the registers the interrupted code returns to. */
  function AfterTick(s: Sched, regs: Registers, slice: nat): (Sched, Registers)
  {
    if s.current < |s.procs| then
      var c := Charge(s, regs, slice);
      Dispatch(c, regs)
    else (s, regs)
  }

  /** Entering or leaving a system call marks the current process. */
  function AfterSyscall(s: Sched, inside: bool): Sched
  {
    if s.current < |s.procs| then s.(procs := s.procs[s.current := s.procs[s.current].(inSyscall := inside)]) else s
  }

  function Step(s: Sched, e: Event, slice: nat): Sched
  {
    match e
    case Spawn(ctx, pagemap) => AfterSpawn(s, ctx, pagemap, slice)
    case Tick(regs) => AfterTick(s, regs, slice).0
    case Syscall(inside) => AfterSyscall(s, inside)
  }

  function Run(events: seq<Event>, slice: nat): Sched
  {
    if events == [] then START else Step(Run(events[..|events| - 1], slice), events[|events| - 1], slice)
  }

  // ---------- Safety ----------

  /** At most one process runs; it is the current one and its pagemap is active.  Waiting processes have full slices. */
  ghost predicate Safe(s: Sched, slice: nat)
  {
    && (if s.procs == [] then s.current == 0 else s.current < |s.procs|)
    && (forall i {:trigger s.procs[i].state} :: 0 <= i < |s.procs| && s.procs[i].state == Running ==> i == s.current && s.procs[i].pagemap == s.active)
    && (forall i {:trigger s.procs[i].timeslice} :: 0 <= i < |s.procs| ==> 1 <= s.procs[i].timeslice <= slice)
    && (forall i {:trigger s.procs[i].timeslice} :: 0 <= i < |s.procs| && s.procs[i].state == Ready ==> s.procs[i].timeslice == slice)
  }

  lemma ChargeIsSafe(s: Sched, regs: Registers, slice: nat)
    requires Safe(s, slice) && s.current < |s.procs| && 1 <= slice
    ensures var c := Charge(s, regs, slice); Safe(c, slice) && |c.procs| == |s.procs| && c.current < |c.procs|
  {
  }

  /** A charged tick, spelled out. */
  lemma ChargeAs(s: Sched, regs: Registers, slice: nat, q: Proc, expired: bool)
    requires Charged(s) && 1 <= s.procs[s.current].timeslice && (expired <==> s.procs[s.current].timeslice == 1)
    requires q == s.procs[s.current].(ctx := regs, state := if expired then Ready else Running,
                                      timeslice := if expired then slice else s.procs[s.current].timeslice - 1)
    ensures Charge(s, regs, slice) ==
            Sched(s.procs[s.current := q], if !expired then s.current else if s.current + 1 == |s.procs| then 0 else s.current + 1, s.active)
  {
    NextTurn(s.current, |s.procs|);
  }

  lemma StepIsSafe(s: Sched, e: Event, slice: nat)
    requires Safe(s, slice) && 1 <= slice
    ensures Safe(Step(s, e, slice), slice)
  {
    match e
    case Spawn(_, _) =>
    case Tick(regs) =>
      if s.current < |s.procs| {
        ChargeIsSafe(s, regs, slice);
      }
    case Syscall(_) =>
  }

  /** Over every run. */
  lemma {:induction false} RunIsSafe(events: seq<Event>, slice: nat)
    requires 1 <= slice
    ensures Safe(Run(events, slice), slice)
  {
    if events != [] {
      RunIsSafe(events[..|events| - 1], slice);
      StepIsSafe(Run(events[..|events| - 1], slice), events[|events| - 1], slice);
    }
  }

  // ---------- Saved registers ----------

  /** Pids in order of the spawns in a run. */
  function Spawned(events: seq<Event>): nat
  {
    if events == [] then 0 else Spawned(events[..|events| - 1]) + if events[|events| - 1].Spawn? then 1 else 0
  }

  /**
    The registers process `pid` should continue with: those at the last tick that caught
    it running outside a system call, or those it was spawned with.
   */
  function LastSaved(events: seq<Event>, pid: nat, slice: nat): Registers
    requires pid < Spawned(events)
  {
    var front, e := events[..|events| - 1], events[|events| - 1];
    if e.Spawn? && pid == Spawned(front) then e.ctx
    else if e.Tick? && Run(front, slice).current == pid && Charged(Run(front, slice)) then e.regs
    else LastSaved(front, pid, slice)
  }

  lemma {:induction false} OnePerSpawn(events: seq<Event>, slice: nat)
    requires 1 <= slice
    ensures |Run(events, slice).procs| == Spawned(events)
  {
    if events != [] {
      OnePerSpawn(events[..|events| - 1], slice);
    }
  }

  /** In every run, what is stored for a process is what was last saved for it. */
  lemma {:induction false} StoredIsLastSaved(events: seq<Event>, pid: nat, slice: nat)
    requires 1 <= slice && pid < Spawned(events)
    ensures pid < |Run(events, slice).procs| && Run(events, slice).procs[pid].ctx == LastSaved(events, pid, slice)
  {
    var front, e := events[..|events| - 1], events[|events| - 1];
    OnePerSpawn(events, slice);
    OnePerSpawn(front, slice);
    RunIsSafe(front, slice);
    if !(e.Spawn? && pid == Spawned(front)) {
      StoredIsLastSaved(front, pid, slice);
      if e.Tick? {
        TickStores(Run(front, slice), e.regs, pid, slice);
      }
    }
  }

  /** What a tick leaves stored for each process. */
  lemma TickStores(s: Sched, regs: Registers, pid: nat, slice: nat)
    requires Safe(s, slice) && pid < |s.procs| && 1 <= slice
    ensures var t := AfterTick(s, regs, slice).0;
      && |t.procs| == |s.procs|
      && t.procs[pid].ctx == if s.current == pid && Charged(s) then regs else s.procs[pid].ctx
  {
    ChargeIsSafe(s, regs, slice);
  }

  /** The tick that starts a process hands it exactly the registers last saved for it, and its pagemap. */
  lemma ResumesLastSaved(events: seq<Event>, regs: Registers, slice: nat)
    requires 1 <= slice && Spawned(events) > 0
    ensures var s := Run(events, slice);
      var (t, out) := AfterTick(s, regs, slice);
      && CurrentRuns(t)
      && t.active == t.procs[t.current].pagemap
      && (!CurrentRuns(s) || t.current != s.current || (Charged(s) && s.procs[s.current].timeslice == 1)
          ==> Spawned(events + [Tick(regs)]) > t.current && out == LastSaved(events + [Tick(regs)], t.current, slice))
  {
    var s := Run(events, slice);
    RunIsSafe(events, slice);
    OnePerSpawn(events, slice);
    var more := events + [Tick(regs)];
    assert more[..|more| - 1] == events;
    ChargeIsSafe(s, regs, slice);
    StepIsSafe(s, Tick(regs), slice);
    var t := AfterTick(s, regs, slice).0;
    assert Run(more, slice) == t;
    StoredIsLastSaved(more, t.current, slice);
  }

  // ---------- System calls ----------

  /** While the running process is in a system call, ticks change nothing. */
  lemma {:induction false} TicksInSyscall(s: Sched, ticks: seq<Event>, k: nat, slice: nat)
    requires CurrentRuns(s) && s.procs[s.current].inSyscall && k <= |ticks| && forall e :: e in ticks ==> e.Tick?
    ensures Along(s, ticks, k, slice) == s
  {
    if k > 0 {
      TicksInSyscall(s, ticks, k - 1, slice);
      assert ticks[k - 1] in ticks;
    }
  }

  /**
    A system call during which the timer ticks any number of times leaves the processes,
    their registers and the turn as they were; each tick returns to the code it interrupted.
   */
  lemma SyscallIsUndisturbed(s: Sched, ticks: seq<Event>, regs: Registers, slice: nat)
    requires CurrentRuns(s) && !s.procs[s.current].inSyscall && forall e :: e in ticks ==> e.Tick?
    ensures var inside := AfterSyscall(s, true);
      && Along(inside, ticks, |ticks|, slice) == inside
      && AfterTick(inside, regs, slice).1 == regs
      && AfterSyscall(Along(inside, ticks, |ticks|, slice), false) == s
  {
    TicksInSyscall(AfterSyscall(s, true), ticks, |ticks|, slice);
  }

  // ---------- Fairness ----------

  /** How many places `pid` is behind the current process. */
  function Distance(s: Sched, pid: nat): nat
    requires s.current < |s.procs| && pid < |s.procs|
  {
    if s.current <= pid then pid - s.current else pid + |s.procs| - s.current
  }

  /** `d` whole slices. */
  function Slices(d: nat, slice: nat): nat
  {
    if d == 0 then 0 else Slices(d - 1, slice) + slice
  }

  lemma {:induction false} SlicesIsProduct(d: nat, slice: nat)
    ensures Slices(d, slice) == d * slice
  {
    if d > 0 {
      SlicesIsProduct(d - 1, slice);
    }
  }

  lemma {:induction false} SlicesGrow(c: nat, d: nat, slice: nat)
    requires c <= d
    ensures Slices(c, slice) <= Slices(d, slice)
  {
    if c < d {
      SlicesGrow(c, d - 1, slice);
    }
  }

  /** Charged ticks and starting ticks until `pid` runs. */
  function Wait(s: Sched, pid: nat, slice: nat): nat
    requires s.current < |s.procs| && pid < |s.procs|
  {
    var d := Distance(s, pid);
    if CurrentRuns(s) then (if d == 0 then 0 else s.procs[s.current].timeslice + Slices(d - 1, slice))
    else 1 + Slices(d, slice)
  }

  lemma WaitIsBounded(s: Sched, pid: nat, slice: nat)
    requires Safe(s, slice) && 1 <= slice && pid < |s.procs|
    ensures Wait(s, pid, slice) <= |s.procs| * slice
  {
    var d, n := Distance(s, pid), |s.procs|;
    SlicesGrow(d, n - 1, slice);
    SlicesIsProduct(n, slice);
  }

  /** The tick counts: the current process is charged for it, or nobody was running yet. */
  predicate Counts(s: Sched)
  {
    s.current < |s.procs| && !(CurrentRuns(s) && s.procs[s.current].inSyscall)
  }

  lemma NextTurn(current: nat, n: nat)
    requires current < n
    ensures (current + 1) % n == if current + 1 == n then 0 else current + 1
  {
  }

  /** A tick that uses up the current slice starts the next process in line. */
  lemma PassingOn(s: Sched, regs: Registers, pid: nat, slice: nat)
    requires Safe(s, slice) && 1 <= slice && pid < |s.procs|
    requires Charged(s) && s.procs[s.current].timeslice == 1 && Distance(s, pid) > 0
    ensures var t := AfterTick(s, regs, slice).0;
      && |t.procs| == |s.procs| && t.current == (if s.current + 1 == |s.procs| then 0 else s.current + 1)
      && CurrentRuns(t) && t.procs[t.current].timeslice == slice
      && Distance(t, pid) == Distance(s, pid) - 1
  {
    NextTurn(s.current, |s.procs|);
  }

  lemma StayingOn(s: Sched, regs: Registers, slice: nat)
    requires Safe(s, slice) && 1 <= slice && Charged(s) && s.procs[s.current].timeslice > 1
    ensures var t := AfterTick(s, regs, slice).0;
      && |t.procs| == |s.procs| && t.current == s.current
      && CurrentRuns(t) && t.procs[t.current].timeslice == s.procs[s.current].timeslice - 1
  {
  }

  lemma Starting(s: Sched, regs: Registers, slice: nat)
    requires Safe(s, slice) && 1 <= slice && s.current < |s.procs| && !CurrentRuns(s)
    ensures var t := AfterTick(s, regs, slice).0;
      |t.procs| == |s.procs| && t.current == s.current && CurrentRuns(t) && t.procs[t.current].timeslice == slice
  {
  }

  /** A counting tick brings `pid` nearer by one; any other tick changes nothing. */
  lemma TickBringsNearer(s: Sched, regs: Registers, pid: nat, slice: nat)
    requires Safe(s, slice) && 1 <= slice && pid < |s.procs| && Wait(s, pid, slice) > 0
    ensures var t := AfterTick(s, regs, slice).0;
      && t.current < |t.procs| == |s.procs|
      && Wait(t, pid, slice) == (if Counts(s) then Wait(s, pid, slice) - 1 else Wait(s, pid, slice))
  {
    if !CurrentRuns(s) {
      Starting(s, regs, slice);
    } else if Charged(s) {
      if s.procs[s.current].timeslice == 1 {
        PassingOn(s, regs, pid, slice);
      } else {
        StayingOn(s, regs, slice);
      }
    }
  }

  lemma SyscallKeepsWait(s: Sched, inside: bool, pid: nat, slice: nat)
    requires s.current < |s.procs| && pid < |s.procs|
    ensures var t := AfterSyscall(s, inside);
      |t.procs| == |s.procs| && t.current == s.current && Wait(t, pid, slice) == Wait(s, pid, slice)
  {
  }

  /** States along a stretch of events. */
  function Along(s: Sched, events: seq<Event>, k: nat, slice: nat): Sched
    requires k <= |events|
  {
    if k == 0 then s else Step(Along(s, events, k - 1, slice), events[k - 1], slice)
  }

  function CountingTicks(s: Sched, events: seq<Event>, k: nat, slice: nat): nat
    requires k <= |events|
  {
    if k == 0 then 0
    else CountingTicks(s, events, k - 1, slice) + if events[k - 1].Tick? && Counts(Along(s, events, k - 1, slice)) then 1 else 0
  }

  ghost predicate RunsAt(s: Sched, events: seq<Event>, k: nat, pid: nat, slice: nat)
    requires k <= |events|
  {
    var t := Along(s, events, k, slice);
    pid < |t.procs| && t.procs[pid].state == Running
  }

  lemma NotRunningWaits(s: Sched, pid: nat, slice: nat)
    requires Safe(s, slice) && 1 <= slice && pid < |s.procs| && s.procs[pid].state != Running
    ensures Wait(s, pid, slice) > 0
  {
  }

  lemma {:induction false} StretchKeeps(s: Sched, events: seq<Event>, k: nat, pid: nat, slice: nat)
    requires Safe(s, slice) && 1 <= slice && pid < |s.procs| && k <= |events|
    requires forall e :: e in events ==> !e.Spawn?
    requires forall l :: 0 <= l <= k ==> !RunsAt(s, events, l, pid, slice)
    ensures var t := Along(s, events, k, slice);
      && Safe(t, slice) && |t.procs| == |s.procs|
      && Wait(t, pid, slice) + CountingTicks(s, events, k, slice) == Wait(s, pid, slice)
      && Wait(t, pid, slice) > 0
  {
    assert !RunsAt(s, events, k, pid, slice);
    if k > 0 {
      StretchKeeps(s, events, k - 1, pid, slice);
      var t, e := Along(s, events, k - 1, slice), events[k - 1];
      assert e in events;
      StepIsSafe(t, e, slice);
      if e.Tick? {
        TickBringsNearer(t, e.regs, pid, slice);
      } else {
        SyscallKeepsWait(t, e.inside, pid, slice);
      }
      NotRunningWaits(Along(s, events, k, slice), pid, slice);
    } else {
      NotRunningWaits(s, pid, slice);
    }
  }

  /**
    Between spawns, every process runs within `count * slice` ticks taken outside
    system calls, whatever the processes do.
   */
  lemma Fair(s: Sched, events: seq<Event>, pid: nat, slice: nat)
    requires Safe(s, slice) && 1 <= slice && pid < |s.procs|
    requires forall e :: e in events ==> !e.Spawn?
    requires CountingTicks(s, events, |events|, slice) >= |s.procs| * slice
    ensures exists k :: 0 <= k <= |events| && RunsAt(s, events, k, pid, slice)
  {
    if forall k :: 0 <= k <= |events| ==> !RunsAt(s, events, k, pid, slice) {
      StretchKeeps(s, events, |events|, pid, slice);
      WaitIsBounded(s, pid, slice);
    }
  }
}

/** The scheduler's process table and its operations, step by step as the kernel performs them. */
module Scheduler {
  import opened Machine
  import opened SchedulerModel

  const PROC_DEFAULT_TIME: nat := 1
  const PROC_MAX_PROCS: nat := 2048
  const PROC_MAX_FDS: nat := 1024

  /** Process control block.  A file descriptor slot of 0 is empty. */
  class Pcb {
    var ctx: Registers
    var pid: nat
    var state: RunState
    var timeslice: nat
    var pagemap: nat
    var inSyscall: bool
    const fdTable: array<nat>
    var fdCount: nat

    constructor (uninitialised: Registers)
      ensures fresh(fdTable) && FdsValid() && ctx == uninitialised && fdCount == 0
    {
      ctx, pid, state, timeslice, pagemap, inSyscall := uninitialised, 0, Ready, 0, 0, false;
      fdTable := new nat[PROC_MAX_FDS](_ => 0);
      fdCount := 0;
      new;
      assert forall i :: 0 <= i < PROC_MAX_FDS ==> fdTable[i] == 0;
    }

    ghost function View(): Proc
      reads this
    {
      Proc(ctx, state, timeslice, pagemap, inSyscall)
    }

    /** Fills in a new block: ready to enter at `entry` on the given stack pages, with a full slice. */
    method Setup(newPid: nat, user: bool, entry: nat, map_: nat, stack: nat)
      modifies `ctx, `pid, `state, `timeslice, `pagemap, `inSyscall
      ensures pid == newPid
      ensures View() == Proc(FirstRegisters(old(ctx), user, entry, stack), Ready, PROC_DEFAULT_TIME, map_, false)
    {
      pid := newPid;
      state := Ready;
      ctx := ctx.(rip := entry);
      pagemap := map_;
      if user {
        ctx := ctx.(cs := 0x1B, ss := 0x23);
      } else {
        ctx := ctx.(cs := 0x08, ss := 0x10);
      }
      ctx := ctx.(rsp := stack + (PAGE_SIZE * 4 - 1), rflags := 0x202);
      timeslice := PROC_DEFAULT_TIME;
      inSyscall := false;
    }

    /** A tick caught this process running: save its registers and take the tick from its slice. */
    method ChargeTick(regs: Registers) returns (expired: bool)
      requires timeslice >= 1
      modifies `ctx, `state, `timeslice
      ensures expired <==> old(timeslice) == 1
      ensures View() == old(View()).(ctx := regs, state := if expired then Ready else old(state),
                                     timeslice := if expired then PROC_DEFAULT_TIME else old(timeslice) - 1)
    {
      ctx := regs;
      timeslice := timeslice - 1;
      expired := timeslice == 0;
      if expired {
        state := Ready;
        timeslice := PROC_DEFAULT_TIME;
      }
    }

    /** Descriptors are dense: the first `fdCount` slots are used and the others empty. */
    ghost predicate FdsValid()
      reads this, fdTable
    {
      && fdTable.Length == PROC_MAX_FDS && fdCount <= PROC_MAX_FDS
      && (forall i :: 0 <= i < fdCount ==> fdTable[i] != 0)
      && (forall i :: fdCount <= i < PROC_MAX_FDS ==> fdTable[i] == 0)
    }

    ghost function Fds(): seq<nat>
      requires FdsValid()
      reads this, fdTable
    {
      fdTable[..fdCount]
    }

    /** The new descriptor, or -1 when the table is full. */
    method AddVnode(node: nat) returns (fd: int)
      requires FdsValid() && node != 0
      modifies `fdCount, fdTable
      ensures FdsValid()
      ensures old(fdCount) < 1024 ==> fd == old(fdCount) && Fds() == old(Fds()) + [node]
      ensures old(fdCount) == 1024 ==> fd == -1 && Fds() == old(Fds())
    {
      if fdCount < PROC_MAX_FDS {
        fdTable[fdCount] := node;
        fdCount := fdCount + 1;
      } else {
        return -1;
      }
      fd := fdCount - 1;
    }

    /** Closes a descriptor; those behind it move down by one. */
    method RemoveVnode(fd: int) returns (status: int)
      requires FdsValid()
      modifies `fdCount, fdTable
      ensures FdsValid()
      ensures 0 <= fd < old(fdCount) ==> status == 0 && Fds() == old(Fds())[..fd] + old(Fds())[fd + 1..]
      ensures !(0 <= fd < old(fdCount)) ==> status == -1 && Fds() == old(Fds())
    {
      if fd < 0 || fd >= PROC_MAX_FDS || fdTable[fd] == 0 {
        return -1;
      }
      ghost var before := fdTable[..];
      var i := fd;
      while i < fdCount - 1
        invariant fd <= i <= fdCount - 1 && fdCount == old(fdCount)
        invariant forall k :: 0 <= k < fd ==> fdTable[k] == before[k]
        invariant forall k :: fd <= k < i ==> fdTable[k] == before[k + 1]
        invariant forall k :: i <= k < PROC_MAX_FDS ==> fdTable[k] == before[k]
      {
        fdTable[i] := fdTable[i + 1];
        i := i + 1;
      }
      fdCount := fdCount - 1;
      fdTable[fdCount] := 0;
      status := 0;
    }
  }

  /** The registers a process starts with: what the block held before, with the five that spawn sets. */
  function FirstRegisters(before: Registers, user: bool, entry: nat, stack: nat): Registers
  {
    before.(rip := entry, cs := if user then 0x1B else 0x08, ss := if user then 0x23 else 0x10,
            rsp := stack + (PAGE_SIZE * 4 - 1), rflags := 0x202)
  }

  /** The access bytes of the segment descriptors, by index. */
  const GDT: seq<nat> := [0x00, PRESENT + CODE + WRITABLE, PRESENT + DATA + WRITABLE, PRESENT + RING3 + CODE + WRITABLE, PRESENT + RING3 + DATA + WRITABLE]

  const PRESENT: nat := 0x80
  const RING3: nat := 0x60
  const CODE: nat := 0x18
  const DATA: nat := 0x10
  const WRITABLE: nat := 0x02

  /**
    Both selectors of a new process name descriptors that are there, of the privilege the
    selector asks for: an executable one for code and a writable one for the stack.
   */
  lemma SelectorsFitDescriptors(before: Registers, user: bool, entry: nat, stack: nat)
    ensures GDT == [0x00, 0x9A, 0x92, 0xFA, 0xF2]
    ensures var c := FirstRegisters(before, user, entry, stack);
      && c.cs / 8 < |GDT| && c.ss / 8 < |GDT|
      && var code, data := GDT[c.cs / 8], GDT[c.ss / 8];
      && code / 0x80 == 1 && data / 0x80 == 1
      && code / 0x20 % 4 == c.cs % 4 && data / 0x20 % 4 == c.ss % 4
      && code / 0x10 % 2 == 1 && data / 0x10 % 2 == 1
      && code / 0x08 % 2 == 1 && data / 0x08 % 2 == 0 && data / 0x02 % 2 == 1
      && c.cs % 4 == c.ss % 4 == (if user then 3 else 0)
  {
  }

  class Table {
    const procs: array<Pcb?>
    var count: nat
    var currentPid: nat
    var activePagemap: nat

    // The processes by pid, and the state they spell out.
    ghost var live: seq<Pcb>
    ghost var view: Sched

    ghost predicate Valid()
      reads this, procs, live
    {
      && procs.Length == PROC_MAX_PROCS && count == |live| == |view.procs| <= PROC_MAX_PROCS
      && (forall i :: 0 <= i < count ==> procs[i] == live[i] && live[i].pid == i)
      && (forall i, j :: 0 <= i < j < count ==> live[i] != live[j])
      && (forall i :: 0 <= i < count ==> live[i].View() == view.procs[i])
      && currentPid == view.current && activePagemap == view.active
      && Safe(view, PROC_DEFAULT_TIME)
    }

    constructor ()
      ensures Valid() && view == START && fresh(procs) && procs.Length == 2048
    {
      procs := new Pcb?[PROC_MAX_PROCS](_ => null);
      count, currentPid, activePagemap, live, view := 0, 0, 0, [], START;
    }

    /** The current process is saved and charged for the tick. */
    method ChargeCurrent(regs: Registers)
      requires Valid() && count > 0
      modifies `currentPid, `view, live
      ensures Valid()
      ensures view == Charge(old(view), regs, PROC_DEFAULT_TIME)
    {
      ChargeIsSafe(view, regs, PROC_DEFAULT_TIME);
      NextTurn(currentPid, count);
      var proc := procs[currentPid];
      if proc != null && proc.state == Running {
        if !proc.inSyscall {
          var expired := proc.ChargeTick(regs);
          ChargeAs(view, regs, PROC_DEFAULT_TIME, proc.View(), expired);
          if expired {
            currentPid := (currentPid + 1) % count;
          }
        }
      }
      view := Charge(view, regs, PROC_DEFAULT_TIME);
    }

    /** The process whose turn it is starts if it is ready. */
    method DispatchCurrent(regs: Registers) returns (out: Registers)
      requires Valid() && count > 0
      requires Safe(Dispatch(view, regs).0, PROC_DEFAULT_TIME)
      modifies `activePagemap, `view, live
      ensures Valid()
      ensures (view, out) == Dispatch(old(view), regs)
    {
      out := regs;
      var next := procs[currentPid];
      if next != null {
        if next.state == Ready {
          next.state := Running;
          out := next.ctx;
          activePagemap := next.pagemap;
        }
      }
      view := Dispatch(view, regs).0;
    }

    /** A timer tick; `out` is what the interrupt returns to. */
    method Tick(regs: Registers) returns (out: Registers)
      requires Valid()
      modifies `currentPid, `activePagemap, `view, live
      ensures Valid()
      ensures (view, out) == AfterTick(old(view), regs, PROC_DEFAULT_TIME)
    {
      out := regs;
      if count == 0 {
        return;
      }
      StepIsSafe(view, SchedulerModel.Tick(regs), PROC_DEFAULT_TIME);
      ChargeCurrent(regs);
      out := DispatchCurrent(regs);
    }

    /** The system call handler marks the current process on entry and on return. */
    method MarkSyscall(inside: bool)
      requires Valid()
      modifies `view, live
      ensures Valid()
      ensures view == AfterSyscall(old(view), inside)
    {
      StepIsSafe(view, Syscall(inside), PROC_DEFAULT_TIME);
      if count != 0 {
        var proc := procs[currentPid];
        if proc != null {
          proc.inSyscall := inside;
        }
      }
      view := AfterSyscall(view, inside);
    }

    /**
      A new process with the next pid.  `stack` is the base of its four stack pages,
      `uninitialised` what its register block holds before it is filled in, and
      `memory` whether there was memory for the control block.
     */
    method Spawn(user: bool, entry: nat, pagemap: nat, stack: nat, uninitialised: Registers, stdout: nat, memory: bool)
      returns (pid: int)
      requires Valid() && count < 2048 && stdout != 0
      modifies this, procs
      ensures Valid()
      ensures !memory ==> pid == -1 && view == old(view)
      ensures memory ==>
        && pid == old(count)
        && view == AfterSpawn(old(view), FirstRegisters(uninitialised, user, entry, stack), pagemap, PROC_DEFAULT_TIME)
        && live == old(live) + [live[pid]] && fresh(live[pid])
        && live[pid].FdsValid() && live[pid].Fds() == [stdout]
        && live[pid].state == Ready && live[pid].timeslice == 1 && live[pid].pagemap == pagemap && !live[pid].inSyscall
      // It enters at the entry point on its own stack, at its privilege, with interrupts on.
      ensures memory ==> var c := live[pid].ctx;
        && c.rip == entry && c.others == uninitialised.others
        && c.rsp == stack + 0x3FFF && c.rflags == 0x202 && c.rflags / 0x200 % 2 == 1
        && c.cs % 4 == c.ss % 4 == (if user then 3 else 0)
        && c.cs / 8 == (if user then 3 else 1) && c.ss / 8 == (if user then 4 else 2)
    {
      if !memory {
        return -1;
      }
      ghost var ctx := FirstRegisters(uninitialised, user, entry, stack);
      StepIsSafe(view, SchedulerModel.Spawn(ctx, pagemap), PROC_DEFAULT_TIME);
      var proc := NewProcess(count, user, entry, pagemap, stack, uninitialised, stdout);
      count := count + 1;
      procs[proc.pid] := proc;
      pid := proc.pid;
      live := live + [proc];
      view := AfterSpawn(view, ctx, pagemap, PROC_DEFAULT_TIME);
    }
  }

  method NewProcess(pid: nat, user: bool, entry: nat, pagemap: nat, stack: nat, uninitialised: Registers, stdout: nat)
    returns (proc: Pcb)
    requires stdout != 0
    ensures fresh(proc) && proc.pid == pid && proc.FdsValid() && proc.Fds() == [stdout]
    ensures proc.View() == Proc(FirstRegisters(uninitialised, user, entry, stack), Ready, PROC_DEFAULT_TIME, pagemap, false)
  {
    proc := new Pcb(uninitialised);
    proc.Setup(pid, user, entry, pagemap, stack);
    var fd := proc.AddVnode(stdout);
  }
}
