/** The process table of process.c and the state changes of fork, exit, wait (syscall.c)
    and the timer (interrupt.c). Interrupts are off in all four, so each is one step. */
module Processes {

  const PCB_MAX: nat := 20
  const PID_MAX: nat := 60

  datatype RunState = FREE | BORN | RUNNABLE | RUNNING | ZOMBIE | ABORT

  datatype Pcb = Pcb(pid: nat, father: nat, state: RunState)

  /** The table, the slot of the current process and the pid counter. */
  datatype Sched = Sched(ps: seq<Pcb>, cur: nat, nextpid: nat)

  // ----- searching the table

  /** The first slot in state st, or |ps|: the scan in allocProcess, exit and the timer. */
  function FirstIn(ps: seq<Pcb>, st: RunState): (i: nat)
    ensures i <= |ps| && (i < |ps| ==> ps[i].state == st)
    ensures forall k :: 0 <= k < i ==> ps[k].state != st
  {
    if ps == [] || ps[0].state == st then 0
    else
      var i := FirstIn(ps[1..], st);
      assert forall k :: 1 <= k < i + 1 ==> ps[k] == ps[1..][k - 1];
      i + 1
  }

  predicate Used(ps: seq<Pcb>, pid: nat) { exists i :: 0 <= i < |ps| && ps[i].pid == pid }

  /** The least pid in lo..PID_MAX that no slot carries, or PID_MAX + 1. */
  function FirstUnused(ps: seq<Pcb>, lo: nat): (p: nat)
    requires lo <= PID_MAX + 1
    ensures lo <= p <= PID_MAX + 1
    ensures p <= PID_MAX ==> !Used(ps, p)
    ensures forall q: nat :: lo <= q < p ==> Used(ps, q)
    decreases PID_MAX + 1 - lo
  {
    if lo > PID_MAX || !Used(ps, lo) then lo else FirstUnused(ps, lo + 1)
  }

  function PidsOf(ps: seq<Pcb>): set<nat> { set i | 0 <= i < |ps| :: ps[i].pid }

  lemma {:induction false} FewPids(ps: seq<Pcb>)
    ensures |PidsOf(ps)| <= |ps|
    decreases |ps|
  {
    if ps != [] {
      var r, x := ps[..|ps| - 1], ps[|ps| - 1].pid;
      FewPids(r);
      assert PidsOf(ps) == PidsOf(r) + {x};
    }
  }

  function UpTo(n: nat): (s: set<nat>)
    ensures forall x :: x in s <==> 1 <= x <= n
    ensures |s| == n
  {
    if n == 0 then {} else UpTo(n - 1) + {n}
  }

  lemma SubsetSize(a: set<nat>, b: set<nat>)
    requires a <= b
    ensures |a| <= |b|
  {
    if a != {} {
      var x :| x in a;
      SubsetSize(a - {x}, b - {x});
    }
  }

  /** With 20 slots one of the pids 1..21 is always unused. */
  lemma PidLeft(ps: seq<Pcb>)
    requires |ps| <= PCB_MAX
    ensures FirstUnused(ps, 1) <= |ps| + 1
  {
    if FirstUnused(ps, 1) > |ps| + 1 {
      forall x | x in UpTo(|ps| + 1)
        ensures x in PidsOf(ps)
      {
        assert Used(ps, x);
      }
      SubsetSize(UpTo(|ps| + 1), PidsOf(ps));
      FewPids(ps);
      assert false;
    }
  }

  // ----- what each operation does to the table

  /** The pid getPid comes up with (-1 for none) and the counter it leaves. */
  function PidChoice(ps: seq<Pcb>, next: nat): (int, nat)
    requires next <= PID_MAX + 1
  {
    var c := FirstUnused(ps, next);
    if c < PID_MAX then (c, c + 1)
    else if c == PID_MAX then (-1, c + 1)
    else
      var c' := FirstUnused(ps, 1);
      (c', if c' == 1 then 1 else c' + 1)
  }

  predicate WellFormed(s: Sched) {
    |s.ps| == PCB_MAX && s.cur < PCB_MAX && 1 <= s.nextpid <= PID_MAX + 1
  }

  /** A fork that gets a pid also needs a slot: allocProcess does not look whether it found one. */
  predicate CanFork(s: Sched) {
    WellFormed(s) && (PidChoice(s.ps, s.nextpid).0 != -1 ==> FirstIn(s.ps, FREE) < PCB_MAX)
  }

  function ForkStep(s: Sched): Sched
    requires CanFork(s)
  {
    var (pid, next) := PidChoice(s.ps, s.nextpid);
    if pid < 0 then s.(nextpid := next)
    else s.(ps := s.ps[FirstIn(s.ps, FREE) := Pcb(pid, s.ps[s.cur].pid, RUNNABLE)], nextpid := next)
  }

  function TickStep(s: Sched): Sched
    requires WellFormed(s)
  {
    var p := FirstIn(s.ps, RUNNABLE);
    if p == PCB_MAX then s
    else
      var ps := s.ps[s.cur := s.ps[s.cur].(state := RUNNABLE)];
      s.(ps := ps[p := ps[p].(state := RUNNING)], cur := p)
  }

  /** getPCB: the last slot that carries pid. */
  function LastWith(ps: seq<Pcb>, pid: nat): (i: nat)
    requires Used(ps, pid)
    ensures i < |ps| && ps[i].pid == pid
    ensures forall k :: i < k < |ps| ==> ps[k].pid != pid
    decreases |ps|
  {
    if ps[|ps| - 1].pid == pid then |ps| - 1
    else
      assert Used(ps[..|ps| - 1], pid) by {
        var i :| 0 <= i < |ps| && ps[i].pid == pid;
        assert ps[..|ps| - 1][i].pid == pid;
      }
      LastWith(ps[..|ps| - 1], pid)
  }

  /** The table after sys_exit has made the slot it found a zombie. */
  function Exited(s: Sched): (ps: seq<Pcb>)
    requires WellFormed(s)
    ensures |ps| == PCB_MAX
  {
    var pid := s.ps[s.cur].pid;
    assert Used(s.ps, pid);
    var p := LastWith(s.ps, pid);
    s.ps[p := s.ps[p].(state := ZOMBIE)]
  }

  /** sys_exit uses the successor it looks for without asking whether there is one. */
  predicate CanExit(s: Sched) {
    WellFormed(s) && FirstIn(Exited(s), RUNNABLE) < PCB_MAX
  }

  function ExitStep(s: Sched): Sched
    requires CanExit(s)
  {
    s.(ps := Exited(s), cur := FirstIn(Exited(s), RUNNABLE))
  }

  function CountChildren(ps: seq<Pcb>, pid: nat): nat {
    if ps == [] then 0
    else CountChildren(ps[..|ps| - 1], pid) + if ps[|ps| - 1].father == pid then 1 else 0
  }

  function ChildSlots(ps: seq<Pcb>, pid: nat): set<nat> { set i: nat | i < |ps| && ps[i].father == pid }

  /** The count is the number of slots with that father. */
  lemma {:induction false} CountIsSize(ps: seq<Pcb>, pid: nat)
    ensures CountChildren(ps, pid) == |ChildSlots(ps, pid)|
    decreases |ps|
  {
    if ps != [] {
      var n := |ps| - 1;
      CountIsSize(ps[..n], pid);
      assert ChildSlots(ps, pid) == ChildSlots(ps[..n], pid) + if ps[n].father == pid then {n} else {};
    }
  }

  /** The first zombie whose father is pid, or |ps|. */
  function FirstZombie(ps: seq<Pcb>, pid: nat): (i: nat)
    ensures i <= |ps| && (i < |ps| ==> ps[i].father == pid && ps[i].state == ZOMBIE)
    ensures forall k :: 0 <= k < i ==> !(ps[k].father == pid && ps[k].state == ZOMBIE)
  {
    if ps == [] || (ps[0].father == pid && ps[0].state == ZOMBIE) then 0
    else
      var i := FirstZombie(ps[1..], pid);
      assert forall k :: 1 <= k < i + 1 ==> ps[k] == ps[1..][k - 1];
      i + 1
  }

  /** sys_wait returns -1, returns a child's pid, or loops with interrupts off for ever. */
  datatype WaitResult = NoChild | Reaped(pid: nat) | Hangs

  function WaitOutcome(s: Sched): WaitResult
    requires WellFormed(s)
  {
    var pid := s.ps[s.cur].pid;
    if CountChildren(s.ps, pid) == 1 then NoChild
    else if FirstZombie(s.ps, pid) < PCB_MAX then Reaped(s.ps[FirstZombie(s.ps, pid)].pid)
    else Hangs
  }

  function WaitStep(s: Sched): Sched
    requires WellFormed(s)
  {
    if WaitOutcome(s).Reaped? then
      s.(ps := s.ps[FirstZombie(s.ps, s.ps[s.cur].pid) := Pcb(0, 0, FREE)])
    else s
  }

  /** The table init_pcb sets up: process 0 runs, every other slot is free. */
  function Boot(): (s: Sched)
    ensures WellFormed(s)
  {
    Sched(seq(PCB_MAX, i => if i == 0 then Pcb(0, 0, RUNNING) else Pcb(0, 0, FREE)), 0, 1)
  }

  // ----- the process table

  class ProcessTable {
    const pcblist: array<Pcb>
    var current: nat
    var nextpid: nat

    predicate Shape()
      reads this
    {
      pcblist.Length == PCB_MAX && current < PCB_MAX && 1 <= nextpid <= PID_MAX + 1
    }

    constructor (pcblist: array<Pcb>)
      requires pcblist.Length == PCB_MAX
      ensures this.pcblist == pcblist
    {
      this.pcblist := pcblist;
      this.current := 0;
      this.nextpid := 1;
    }

    /** The scan over pcblist inside getPid. */
    method PidTaken(pid: nat) returns (taken: bool)
      requires Shape()
      ensures taken == Used(pcblist[..], pid)
    {
      for i := 0 to PCB_MAX
        invariant forall k :: 0 <= k < i ==> pcblist[k].pid != pid
      {
        if pcblist[i].pid == pid {
          assert pcblist[..][i].pid == pid;
          return true;
        }
      }
      return false;
    }

    /** getPid: candidates run upward from nextpid and start over from 1 behind PID_MAX
        (where 1 is tried twice). The result is the first candidate no slot carries, or
        -1 when that candidate is PID_MAX itself. */
    method GetPid() returns (r: int)
      requires Shape()
      modifies this`nextpid
      ensures Shape()
      ensures (r, nextpid) == PidChoice(pcblist[..], old(nextpid))
    {
      ghost var ps, start := pcblist[..], nextpid;
      PidLeft(ps);
      ghost var wrapped := false;
      while true
        invariant Shape()
        invariant !wrapped ==> start <= nextpid && forall q: nat :: start <= q < nextpid ==> Used(ps, q)
        invariant wrapped ==> FirstUnused(ps, start) == PID_MAX + 1 && Used(ps, 1) && nextpid <= FirstUnused(ps, 1)
        decreases if wrapped then 0 else 1, PID_MAX + 1 - nextpid
      {
        var pid := nextpid;
        nextpid := nextpid + 1;
        if pid > PID_MAX {
          pid := 1;
          nextpid := 1;
          wrapped := true;
        }
        var taken := PidTaken(pid);
        if !taken {
          return if pid < PID_MAX then pid else -1;
        }
      }
    }
 
    function Now(): (s: Sched)
      requires Shape()
      reads this, pcblist
      ensures WellFormed(s)
    {
      Sched(pcblist[..], current, nextpid)
    }

    /** init_pcb. The pid and father fields are globals and start out as zero. */
    method InitPcb()
      requires pcblist.Length == PCB_MAX
      requires forall i :: 0 <= i < PCB_MAX ==> pcblist[i].pid == 0 && pcblist[i].father == 0
      modifies this, pcblist
      ensures Shape() && Now() == Boot()
    {
      for i := 0 to PCB_MAX
        invariant forall k :: 0 <= k < PCB_MAX ==> pcblist[k].pid == 0 && pcblist[k].father == 0
        invariant forall k :: 0 <= k < i ==> pcblist[k].state == FREE
      {
        pcblist[i] := pcblist[i].(state := FREE);
      }
      pcblist[0] := pcblist[0].(pid := 0, state := RUNNING);
      current := 0;
      nextpid := 1;
    }

    /** The scan for the first slot in a given state. */
    method Scan(st: RunState) returns (i: nat)
      requires Shape()
      ensures i == FirstIn(pcblist[..], st)
    {
      i := 0;
      while i < PCB_MAX
        invariant i <= PCB_MAX && FirstIn(pcblist[..], st) >= i
      {
        if pcblist[i].state == st {
          return;
        }
        i := i + 1;
      }
    }

    /** The table's part of sys_fork. */
    method Fork() returns (r: int)
      requires Shape() && CanFork(Now())
      modifies this`nextpid, pcblist
      ensures Shape() && Now() == ForkStep(old(Now()))
      ensures r == PidChoice(old(pcblist[..]), old(nextpid)).0
    {
      r := GetPid();
      if r == -1 {
        return;
      }
      var p := Scan(FREE);
      pcblist[p] := Pcb(r, pcblist[current].pid, RUNNABLE);
    }

    /** do_timer_handler */
    method Tick()
      requires Shape()
      modifies this, pcblist
      ensures Shape() && Now() == TickStep(old(Now()))
    {
      var p := Scan(RUNNABLE);
      if p == PCB_MAX {
        return;
      }
      var last := current;
      current := p;
      pcblist[last] := pcblist[last].(state := RUNNABLE);
      pcblist[p] := pcblist[p].(state := RUNNING);
    }

    /** getPCB */
    method GetPcb(pid: nat) returns (p: nat)
      requires Shape() && Used(pcblist[..], pid)
      ensures p == LastWith(pcblist[..], pid)
    {
      p := PCB_MAX;
      for i := 0 to PCB_MAX
        invariant p == PCB_MAX ==> forall k :: 0 <= k < i ==> pcblist[k].pid != pid
        invariant p != PCB_MAX ==> p < i && pcblist[p].pid == pid && forall k :: p < k < i ==> pcblist[k].pid != pid
      {
        if pcblist[i].pid == pid {
          p := i;
        }
      }
    }

    /** The table's part of sys_exit. The successor becomes current but is not marked RUNNING. */
    method Exit()
      requires Shape() && CanExit(Now())
      modifies this`current, pcblist
      ensures Shape() && Now() == ExitStep(old(Now()))
    {
      ghost var s := Now();
      assert Used(pcblist[..], pcblist[current].pid) by {
        assert pcblist[..][current].pid == pcblist[current].pid;
      }
      var p := GetPcb(pcblist[current].pid);
      pcblist[p] := pcblist[p].(state := ZOMBIE);
      assert pcblist[..] == Exited(s);
      current := Scan(RUNNABLE);
    }

    /** haveChildren: one less than the number of slots whose father is pid. */
    method HaveChildren(pid: nat) returns (n: int)
      requires Shape()
      ensures n == CountChildren(pcblist[..], pid) - 1
    {
      n := -1;
      for i := 0 to PCB_MAX
        invariant n == CountChildren(pcblist[..i], pid) - 1
      {
        assert pcblist[..i + 1][..i] == pcblist[..i];
        if pcblist[i].father == pid {
          n := n + 1;
        }
      }
      assert pcblist[..PCB_MAX] == pcblist[..];
    }

    /** sys_wait. A scan that finds no zombie is repeated for ever; nothing can change
        meanwhile, so the method stops there and says so. */
    method Wait() returns (r: WaitResult)
      requires Shape()
      modifies pcblist
      ensures Shape() && Now() == WaitStep(old(Now()))
      ensures r == WaitOutcome(old(Now()))
      ensures r.Reaped? ==> exists i ::
        && 0 <= i < PCB_MAX && old(pcblist[..])[i] == Pcb(r.pid, old(pcblist[current].pid), ZOMBIE)
        && pcblist[..] == old(pcblist[..])[i := Pcb(0, 0, FREE)]
    {
      var pid := pcblist[current].pid;
      var n := HaveChildren(pid);
      if n == 0 {
        return NoChild;
      }
      ghost var ps := pcblist[..];
      for i := 0 to PCB_MAX
        invariant pcblist[..] == ps && FirstZombie(ps, pid) >= i
      {
        if pcblist[i].father == pid && pcblist[i].state == ZOMBIE {
          var child := pcblist[i].pid;
          assert ps[i] == Pcb(child, pid, ZOMBIE);
          pcblist[i] := Pcb(0, 0, FREE);
          return Reaped(child);
        }
      }
      return Hangs;
    }
  }
}
