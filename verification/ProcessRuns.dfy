/** What every run of fork, tick, exit and wait keeps. */
module ProcessRuns {
  import opened Processes

  /** The slots in use. */
  function InUse(ps: seq<Pcb>): nat {
    if ps == [] then 0 else InUse(ps[..|ps| - 1]) + if ps[|ps| - 1].state != FREE then 1 else 0
  }

  lemma {:induction false} InUseUpdate(ps: seq<Pcb>, i: nat, p: Pcb)
    requires i < |ps|
    ensures InUse(ps[i := p]) == InUse(ps) - (if ps[i].state != FREE then 1 else 0) + if p.state != FREE then 1 else 0
    decreases |ps|
  {
    var n := |ps| - 1;
    if i < n {
      assert ps[i := p][..n] == ps[..n][i := p];
      InUseUpdate(ps[..n], i, p);
    } else {
      assert ps[i := p][..n] == ps[..n];
    }
  }

  predicate SlotOk(p: Pcb, i: nat) {
    && p.state in {FREE, RUNNABLE, RUNNING, ZOMBIE}
    && (i == 0 ==> p.pid == 0 && (p.state == RUNNABLE || p.state == RUNNING))
    && (p.state == FREE ==> p == Pcb(0, 0, FREE))
    && (i != 0 && p.state != FREE ==> 1 <= p.pid < PID_MAX)
  }

  function LiveSlots(ps: seq<Pcb>): set<nat> { set i: nat | i < |ps| && ps[i].state != FREE }

  lemma {:induction false} InUseIsSize(ps: seq<Pcb>)
    ensures InUse(ps) == |LiveSlots(ps)|
    decreases |ps|
  {
    if ps != [] {
      var n := |ps| - 1;
      InUseIsSize(ps[..n]);
      assert LiveSlots(ps) == LiveSlots(ps[..n]) + if ps[n].state != FREE then {n} else {};
    }
  }

  /** The process-table invariant. */
  ghost predicate Inv(s: Sched) {
    && WellFormed(s)
    && (forall i :: 0 <= i < PCB_MAX ==> SlotOk(s.ps[i], i))
    && (forall i, j :: 0 <= i < j < PCB_MAX && s.ps[i].pid != 0 ==> s.ps[i].pid != s.ps[j].pid)
    && (forall i :: 0 <= i < PCB_MAX && s.ps[i].state == RUNNING ==> i == s.cur)
    && (s.ps[s.cur].state == RUNNABLE || s.ps[s.cur].state == RUNNING)
  }

  lemma BootInv()
    ensures Inv(Boot()) && InUse(Boot().ps) == 1
  {
    OnlyFirst(Boot().ps);
  }

  lemma {:induction false} OnlyFirst(ps: seq<Pcb>)
    requires ps != [] && ps[0].state != FREE && forall i :: 1 <= i < |ps| ==> ps[i].state == FREE
    ensures InUse(ps) == 1
    decreases |ps|
  {
    if |ps| > 1 {
      OnlyFirst(ps[..|ps| - 1]);
    } else {
      assert ps[..0] == [];
    }
  }

  /** A pid handed out lies in 1..59 and is carried by no slot; there is none exactly
      when the first unused candidate at or above the counter is 60. It is the next unused
      one: all from the counter to it are in use, or, if it lies below the counter, all from
      the counter on and all below it. The counter moves on behind it, but not behind 1
      after the last pid. */
  lemma PidFresh(ps: seq<Pcb>, next: nat)
    requires |ps| == PCB_MAX && 1 <= next <= PID_MAX + 1
    ensures var (r, next') := PidChoice(ps, next);
      && 1 <= next' <= PID_MAX + 1
      && (r == -1 <==> FirstUnused(ps, next) == PID_MAX)
      && (r != -1 ==> 1 <= r < PID_MAX && !Used(ps, r))
      && (r >= next ==> next' == r + 1 && forall q: nat :: next <= q < r ==> Used(ps, q))
      && (0 <= r < next ==>
            && next' == (if r == 1 then 1 else r + 1)
            && (forall q: nat :: next <= q <= PID_MAX ==> Used(ps, q)) && forall q: nat :: 1 <= q < r ==> Used(ps, q))
      && (r == -1 ==> next' == PID_MAX + 1 && forall q: nat :: next <= q < PID_MAX ==> Used(ps, q))
  {
    PidLeft(ps);
  }

  lemma ForkInv(s: Sched)
    requires Inv(s) && CanFork(s)
    ensures Inv(ForkStep(s))
    ensures InUse(ForkStep(s).ps) == InUse(s.ps) + if PidChoice(s.ps, s.nextpid).0 != -1 then 1 else 0
  {
    PidFresh(s.ps, s.nextpid);
    var (pid, next) := PidChoice(s.ps, s.nextpid);
    if pid != -1 {
      InUseUpdate(s.ps, FirstIn(s.ps, FREE), Pcb(pid, s.ps[s.cur].pid, RUNNABLE));
    }
  }

  /** Slot i is the first one in state st. */
  predicate FirstSlot(ps: seq<Pcb>, st: RunState, i: nat) {
    i < |ps| && ps[i].state == st && forall k :: 0 <= k < i ==> ps[k].state != st
  }

  /** Fork puts the child, which is runnable and knows its father, into the first free slot;
      without a pid nothing but the counter changes. */
  lemma ForkMakes(s: Sched)
    requires Inv(s) && CanFork(s)
    ensures var (pid, next) := PidChoice(s.ps, s.nextpid);
      var s' := ForkStep(s);
      && s'.cur == s.cur && s'.nextpid == next
      && if pid < 0 then s'.ps == s.ps
      else !Used(s.ps, pid) && exists i: nat :: FirstSlot(s.ps, FREE, i) && s'.ps == s.ps[i := Pcb(pid, s.ps[s.cur].pid, RUNNABLE)]
  {
    PidFresh(s.ps, s.nextpid);
    if PidChoice(s.ps, s.nextpid).0 != -1 {
      assert FirstSlot(s.ps, FREE, FirstIn(s.ps, FREE));
    }
  }

  /** A tick hands the processor to the first runnable slot, which may be the one that had
      it; without a runnable slot nothing changes. */
  lemma TickPicks(s: Sched)
    requires Inv(s)
    ensures var s' := TickStep(s);
      || (s' == s && forall i :: 0 <= i < PCB_MAX ==> s.ps[i].state != RUNNABLE)
      || (FirstSlot(s.ps, RUNNABLE, s'.cur) && s'.nextpid == s.nextpid && |s'.ps| == PCB_MAX
          && forall i :: 0 <= i < PCB_MAX ==>
               s'.ps[i] == if i == s'.cur then s.ps[i].(state := RUNNING) else if i == s.cur then s.ps[i].(state := RUNNABLE) else s.ps[i])
  {
  }

  /** A fork can go through if and only if it draws no pid or a slot is left. */
  lemma ForkPossibleIff(s: Sched)
    requires Inv(s)
    ensures CanFork(s) <==> PidChoice(s.ps, s.nextpid).0 == -1 || InUse(s.ps) < PCB_MAX
  {
    AllInUse(s.ps);
  }

  lemma {:induction false} AllInUse(ps: seq<Pcb>)
    ensures InUse(ps) <= |ps|
    ensures InUse(ps) == |ps| <==> forall i :: 0 <= i < |ps| ==> ps[i].state != FREE
    decreases |ps|
  {
    if ps != [] {
      AllInUse(ps[..|ps| - 1]);
    }
  }

  /** The timer's unconditional RUNNABLE never revives a free slot or a zombie. */
  lemma TickInv(s: Sched)
    requires Inv(s)
    ensures Inv(TickStep(s))
    ensures InUse(TickStep(s).ps) == InUse(s.ps)
    ensures forall i :: 0 <= i < PCB_MAX && s.ps[i].state in {FREE, ZOMBIE} ==> TickStep(s).ps[i] == s.ps[i]
  {
    TickInUse(s);
  }

  lemma TickInUse(s: Sched)
    requires WellFormed(s) && s.ps[s.cur].state != FREE
    ensures InUse(TickStep(s).ps) == InUse(s.ps)
  {
    var p := FirstIn(s.ps, RUNNABLE);
    if p < PCB_MAX {
      var ps := s.ps[s.cur := s.ps[s.cur].(state := RUNNABLE)];
      InUseUpdate(s.ps, s.cur, s.ps[s.cur].(state := RUNNABLE));
      InUseUpdate(ps, p, ps[p].(state := RUNNING));
    }
  }

  /** Exit by any process but 0 retires exactly the current slot and finds a successor. */
  lemma ExitFinds(s: Sched)
    requires Inv(s) && s.ps[s.cur].pid != 0
    ensures Exited(s) == s.ps[s.cur := s.ps[s.cur].(state := ZOMBIE)]
    ensures CanExit(s) && FirstSlot(Exited(s), RUNNABLE, ExitStep(s).cur)
    ensures ExitStep(s).ps == Exited(s) && ExitStep(s).nextpid == s.nextpid
  {
    assert Used(s.ps, s.ps[s.cur].pid);
    var p := LastWith(s.ps, s.ps[s.cur].pid);
    assert p == s.cur;
    assert s.ps[0].state == RUNNABLE;
    assert Exited(s)[0] == s.ps[0];
  }

  lemma ExitInv(s: Sched)
    requires Inv(s) && s.ps[s.cur].pid != 0
    ensures CanExit(s) && Inv(ExitStep(s)) && InUse(ExitStep(s).ps) == InUse(s.ps)
  {
    ExitFinds(s);
    InUseUpdate(s.ps, s.cur, s.ps[s.cur].(state := ZOMBIE));
  }

  /** getPCB(0) finds process 0 itself only when no slot is free; otherwise an exit of
      process 0 would turn a free slot into a zombie and leave process 0 as it is. */
  lemma ExitOfProcessZero(s: Sched)
    requires Inv(s) && s.cur == 0
    ensures Exited(s)[0].state == ZOMBIE <==> FirstIn(s.ps, FREE) == PCB_MAX
    ensures FirstIn(s.ps, FREE) < PCB_MAX ==>
      exists i :: 0 < i < PCB_MAX && s.ps[i].state == FREE && Exited(s) == s.ps[i := s.ps[i].(state := ZOMBIE)]
  {
    assert Used(s.ps, 0) by { assert s.ps[0].pid == 0; }
    var p := LastWith(s.ps, 0);
    assert SlotOk(s.ps[p], p);
    if FirstIn(s.ps, FREE) < PCB_MAX {
      var f := FirstIn(s.ps, FREE);
      assert SlotOk(s.ps[f], f);
      assert p >= f > 0;
    }
  }

  /** An exit finds a successor if and only if the process is not process 0, or some process
      is RUNNABLE besides the slot that becomes the zombie. */
  lemma ExitPossibleIff(s: Sched)
    requires Inv(s)
    ensures CanExit(s) <==>
            s.ps[s.cur].pid != 0 ||
            exists i :: 0 <= i < PCB_MAX && s.ps[i].state == RUNNABLE && (i != 0 || FirstIn(s.ps, FREE) < PCB_MAX)
  {
    if s.ps[s.cur].pid != 0 {
      ExitFinds(s);
    } else {
      assert SlotOk(s.ps[s.cur], s.cur);
      ExitOfProcessZero(s);
      ZeroSuccessor(s);
    }
  }

  lemma ZeroSuccessor(s: Sched)
    requires Inv(s) && s.cur == 0
    ensures FirstIn(Exited(s), RUNNABLE) < PCB_MAX <==>
            exists i :: 0 <= i < PCB_MAX && s.ps[i].state == RUNNABLE && (i != 0 || FirstIn(s.ps, FREE) < PCB_MAX)
  {
    var ps := Exited(s);
    assert Used(s.ps, 0) by { assert s.ps[0].pid == 0; }
    var z := LastWith(s.ps, 0);
    assert SlotOk(s.ps[z], z) && ps == s.ps[z := s.ps[z].(state := ZOMBIE)];
    assert z == 0 <==> FirstIn(s.ps, FREE) == PCB_MAX by {
      if FirstIn(s.ps, FREE) < PCB_MAX {
        assert SlotOk(s.ps[FirstIn(s.ps, FREE)], FirstIn(s.ps, FREE));
      }
    }
    if i :| 0 <= i < PCB_MAX && s.ps[i].state == RUNNABLE && (i != 0 || FirstIn(s.ps, FREE) < PCB_MAX) {
      assert ps[i].state == RUNNABLE;
    }
  }

  lemma WaitInv(s: Sched)
    requires Inv(s)
    ensures Inv(WaitStep(s))
    ensures InUse(WaitStep(s).ps) == InUse(s.ps) - if WaitOutcome(s).Reaped? then 1 else 0
  {
    if WaitOutcome(s).Reaped? {
      InUseUpdate(s.ps, FirstZombie(s.ps, s.ps[s.cur].pid), Pcb(0, 0, FREE));
    }
  }

  /** What a successful wait reaps: the first slot that holds a zombie child of the caller
      is freed, no other slot changes, and the result is the child's pid, which is in 1..59
      and which no slot carries any more. */
  lemma WaitReaps(s: Sched)
    requires Inv(s) && WaitOutcome(s).Reaped?
    ensures var p, s' := WaitOutcome(s).pid, WaitStep(s);
      && 1 <= p < PID_MAX && !Used(s'.ps, p) && s'.cur == s.cur && s'.nextpid == s.nextpid
      && exists i :: 0 <= i < PCB_MAX && ReapsSlot(s, s', i, p)
  {
    var z := FirstZombie(s.ps, s.ps[s.cur].pid);
    assert SlotOk(s.ps[z], z);
    assert ReapsSlot(s, WaitStep(s), z, s.ps[z].pid);
  }

  predicate ReapsSlot(s: Sched, s': Sched, i: nat, p: nat)
    requires WellFormed(s) && i < PCB_MAX
  {
    && s.ps[i] == Pcb(p, s.ps[s.cur].pid, ZOMBIE) && s'.ps == s.ps[i := Pcb(0, 0, FREE)]
    && forall k :: 0 <= k < i ==> !(s.ps[k].father == s.ps[s.cur].pid && s.ps[k].state == ZOMBIE)
  }

  // ----- every run

  datatype Op = Fork | Tick | Exit | Wait

  /** The steps the kernel can take: fork while a slot is left for the pid it draws, exit
      by a process other than 0. */
  predicate Enabled(s: Sched, op: Op) {
    match op
    case Fork => CanFork(s)
    case Tick => WellFormed(s)
    case Exit => CanExit(s) && s.ps[s.cur].pid != 0
    case Wait => WellFormed(s)
  }

  function Step(s: Sched, op: Op): Sched
    requires Enabled(s, op)
  {
    match op
    case Fork => ForkStep(s)
    case Tick => TickStep(s)
    case Exit => ExitStep(s)
    case Wait => WaitStep(s)
  }

  /** states is a run of the steps ops from boot. */
  ghost predicate IsRun(states: seq<Sched>, ops: seq<Op>) {
    && |states| == |ops| + 1 && states[0] == Boot()
    && forall i {:trigger ops[i]} :: 0 <= i < |ops| ==> Enabled(states[i], ops[i]) && states[i + 1] == Step(states[i], ops[i])
  }

  predicate MadeProcess(s: Sched, op: Op) {
    op == Fork && CanFork(s) && PidChoice(s.ps, s.nextpid).0 != -1
  }

  predicate ReapedProcess(s: Sched, op: Op) {
    op == Wait && WellFormed(s) && WaitOutcome(s).Reaped?
  }

  /** The forks that made a process and the waits that reaped one. */
  ghost function Forks(states: seq<Sched>, ops: seq<Op>): nat
    requires |states| == |ops| + 1
  {
    if ops == [] then 0
    else
      var n := |ops| - 1;
      Forks(states[..n + 1], ops[..n]) + if MadeProcess(states[n], ops[n]) then 1 else 0
  }

  ghost function Reaps(states: seq<Sched>, ops: seq<Op>): nat
    requires |states| == |ops| + 1
  {
    if ops == [] then 0
    else
      var n := |ops| - 1;
      Reaps(states[..n + 1], ops[..n]) + if ReapedProcess(states[n], ops[n]) then 1 else 0
  }

  lemma StepInv(s: Sched, op: Op)
    requires Inv(s) && Enabled(s, op)
    ensures Inv(Step(s, op))
    ensures InUse(Step(s, op).ps) + (if ReapedProcess(s, op) then 1 else 0) == InUse(s.ps) + if MadeProcess(s, op) then 1 else 0
  {
    match op {
      case Fork => ForkInv(s);
      case Tick => TickInv(s);
      case Exit => ExitInv(s);
      case Wait => WaitInv(s);
    }
  }

  lemma RunPrefix(states: seq<Sched>, ops: seq<Op>)
    requires IsRun(states, ops) && ops != []
    ensures var n := |ops| - 1;
      && IsRun(states[..n + 1], ops[..n]) && states[..n + 1][n] == states[n]
      && Enabled(states[n], ops[n]) && states[n + 1] == Step(states[n], ops[n])
  {
  }

  /** On every run the invariant holds in the last state (so, by prefixes, in all), the
      slots in use are process 0 plus the forks minus the reaped children, and a process
      other than 0 that exits finds a runnable successor. */
  lemma {:induction false} EveryRun(states: seq<Sched>, ops: seq<Op>)
    requires IsRun(states, ops)
    ensures Inv(states[|ops|])
    ensures InUse(states[|ops|].ps) + Reaps(states, ops) == 1 + Forks(states, ops)
    ensures var s := states[|ops|]; s.ps[s.cur].pid != 0 ==> Enabled(s, Exit)
    decreases |ops|
  {
    if ops == [] {
      BootInv();
    } else {
      var n := |ops| - 1;
      RunPrefix(states, ops);
      EveryRun(states[..n + 1], ops[..n]);
      StepInv(states[n], ops[n]);
    }
    var s := states[|ops|];
    if s.ps[s.cur].pid != 0 {
      ExitFinds(s);
    }
  }

  // ----- waiting

  /** haveChildren starts from -1, so what sys_wait tests is the number of children minus
      one. A process other than 0 that has exactly one child gets the error return meant
      for a process without children, even if the child is a zombie; it reaps a child if
      and only if it has another one besides and one of them is a zombie; and without
      any child it waits for ever. */
  lemma WaitOfOthers(s: Sched)
    requires Inv(s) && s.ps[s.cur].pid != 0
    ensures var n := CountChildren(s.ps, s.ps[s.cur].pid);
      && (WaitOutcome(s).NoChild? <==> n == 1)
      && (WaitOutcome(s).Reaped? <==> n > 1 && exists i :: 0 <= i < PCB_MAX && s.ps[i].father == s.ps[s.cur].pid && s.ps[i].state == ZOMBIE)
      && (n == 0 ==> WaitOutcome(s).Hangs?)
  {
    var pid := s.ps[s.cur].pid;
    var z := FirstZombie(s.ps, pid);
    if z < PCB_MAX {
      ChildCounts(s.ps, pid, z);
    }
  }

  /** The three outcomes of wait for any process, process 0 included. Free slots have father
      0, so they count as children of process 0. */
  lemma WaitIff(s: Sched)
    requires Inv(s)
    ensures var pid := s.ps[s.cur].pid;
      var n := |ChildSlots(s.ps, pid)|;
      var zombie := exists i :: 0 <= i < PCB_MAX && s.ps[i].father == pid && s.ps[i].state == ZOMBIE;
      && (WaitOutcome(s).NoChild? <==> n == 1)
      && (WaitOutcome(s).Reaped? <==> n != 1 && zombie)
      && (WaitOutcome(s).Hangs? <==> n != 1 && !zombie)
  {
    CountIsSize(s.ps, s.ps[s.cur].pid);
  }

  lemma {:induction false} ChildCounts(ps: seq<Pcb>, pid: nat, i: nat)
    requires i < |ps| && ps[i].father == pid
    ensures CountChildren(ps, pid) >= 1
    decreases |ps|
  {
    if i < |ps| - 1 {
      assert ps[..|ps| - 1][i] == ps[i];
      ChildCounts(ps[..|ps| - 1], pid, i);
    }
  }

  /** s is the last state of some run. */
  ghost predicate Reachable(s: Sched) {
    exists states, ops :: IsRun(states, ops) && states[|ops|] == s
  }

  lemma BootReachable()
    ensures Reachable(Boot())
  {
    assert IsRun([Boot()], []);
  }

  lemma ReachStep(s: Sched, op: Op)
    requires Reachable(s) && Enabled(s, op)
    ensures Reachable(Step(s, op))
  {
    var states, ops :| IsRun(states, ops) && states[|ops|] == s;
    RunMore(states, ops, op);
    assert (states + [Step(s, op)])[|ops + [op]|] == Step(s, op);
  }

  lemma RunMore(states: seq<Sched>, ops: seq<Op>, op: Op)
    requires IsRun(states, ops) && Enabled(states[|ops|], op)
    ensures IsRun(states + [Step(states[|ops|], op)], ops + [op])
  {
  }

  // ----- a full table

  /** Process 0 runs and has forked processes 1 to n. */
  function Filled(n: nat): (s: Sched)
    requires n < PCB_MAX
    ensures WellFormed(s)
  {
    Sched(seq(PCB_MAX, (i: nat) => if i == 0 then Pcb(0, 0, RUNNING) else if i <= n then Pcb(i, 0, RUNNABLE) else Pcb(0, 0, FREE)), 0, n + 1)
  }

  lemma FilledFork(n: nat)
    requires n + 1 < PCB_MAX
    ensures CanFork(Filled(n)) && ForkStep(Filled(n)) == Filled(n + 1)
  {
    var s := Filled(n);
    Picks(s.ps, FREE, n + 1);
    assert !Used(s.ps, n + 1);
    assert ForkStep(s).ps == Filled(n + 1).ps;
  }

  lemma {:induction false} FilledReachable(n: nat)
    requires n < PCB_MAX
    ensures Reachable(Filled(n))
  {
    BootReachable();
    assert Boot().ps == Filled(0).ps;
    if n > 0 {
      FilledReachable(n - 1);
      FilledFork(n - 1);
      ReachStep(Filled(n - 1), Fork);
    }
  }

  lemma FilledUp()
    ensures var s := Filled(19);
      Inv(s) && FirstIn(s.ps, FREE) == PCB_MAX && PidChoice(s.ps, s.nextpid).0 == 20 && !CanFork(s)
  {
    var s := Filled(19);
    assert !Used(s.ps, 20);
  }

  /** Nineteen forks from boot on, process 0 is in the state where another fork writes
      behind the table, and where its exit makes a zombie of process 0. */
  lemma FullTable()
    ensures exists s ::
      && Reachable(s) && Inv(s) && s.cur == 0 && s.ps[0].state == RUNNING && FirstIn(s.ps, FREE) == PCB_MAX
      && PidChoice(s.ps, s.nextpid).0 == 20 && !CanFork(s) && Exited(s)[0].state == ZOMBIE
  {
    var s := Filled(19);
    FilledReachable(19);
    FilledUp();
    ExitOfProcessZero(s);
  }

  /** A table of which only the first three slots may be in use. */
  function Three(a: Pcb, b: Pcb, c: Pcb, cur: nat, next: nat): (s: Sched)
    requires cur < 3 && 1 <= next <= PID_MAX + 1
    ensures WellFormed(s)
  {
    Sched(seq(PCB_MAX, i => if i == 0 then a else if i == 1 then b else if i == 2 then c else Pcb(0, 0, FREE)), cur, next)
  }

  /** The slot the kernel picks when it looks for state st. */
  lemma Picks(ps: seq<Pcb>, st: RunState, i: nat)
    requires i < |ps| && ps[i].state == st && forall k :: 0 <= k < i ==> ps[k].state != st
    ensures FirstIn(ps, st) == i
  {
  }

  lemma TickThree(a: Pcb, b: Pcb, c: Pcb, cur: nat, next: nat, p: nat)
    requires cur < 3 && 1 <= next <= PID_MAX + 1 && p < 3
    requires var ps := Three(a, b, c, cur, next).ps;
      ps[p].state == RUNNABLE && forall k :: 0 <= k < p ==> ps[k].state != RUNNABLE
    ensures var s := Three(a, b, c, cur, next);
      var ps := s.ps[cur := s.ps[cur].(state := RUNNABLE)][p := s.ps[p].(state := RUNNING)];
      p != cur ==> TickStep(s) == Three(ps[0], ps[1], ps[2], p, next)
    ensures var s := Three(a, b, c, cur, next);
      var ps := s.ps[p := s.ps[p].(state := RUNNING)];
      p == cur ==> TickStep(s) == Three(ps[0], ps[1], ps[2], p, next)
  {
    var s := Three(a, b, c, cur, next);
    Picks(s.ps, RUNNABLE, p);
    var t := TickStep(s);
    assert t.ps == Three(t.ps[0], t.ps[1], t.ps[2], p, next).ps;
  }

  lemma ForkThree(a: Pcb, b: Pcb, c: Pcb, cur: nat, next: nat, p: nat)
    requires cur < 3 && 1 <= next < PID_MAX && p < 3
    requires a.pid != next && b.pid != next && c.pid != next
    requires var ps := Three(a, b, c, cur, next).ps;
      ps[p].state == FREE && forall k :: 0 <= k < p ==> ps[k].state != FREE
    ensures var s := Three(a, b, c, cur, next);
      var ps := s.ps[p := Pcb(next, s.ps[cur].pid, RUNNABLE)];
      CanFork(s) && ForkStep(s) == Three(ps[0], ps[1], ps[2], cur, next + 1)
  {
    var s := Three(a, b, c, cur, next);
    Picks(s.ps, FREE, p);
    assert !Used(s.ps, next);
    var t := ForkStep(s);
    assert t.ps == Three(t.ps[0], t.ps[1], t.ps[2], cur, next + 1).ps;
  }

  /** The exit of the process in slot 1 while process 0 is runnable. */
  lemma ExitThree(a: Pcb, b: Pcb, c: Pcb, next: nat)
    requires 1 <= next <= PID_MAX + 1
    requires a.state == RUNNABLE && b.pid != 0 && c.pid != b.pid
    ensures var s := Three(a, b, c, 1, next);
      CanExit(s) && s.ps[s.cur].pid != 0 && ExitStep(s) == Three(a, b.(state := ZOMBIE), c, 0, next)
  {
    var s := Three(a, b, c, 1, next);
    assert Used(s.ps, b.pid) by { assert s.ps[1].pid == b.pid; }
    assert LastWith(s.ps, b.pid) == 1;
    assert Exited(s) == Three(a, b.(state := ZOMBIE), c, 0, next).ps;
    Picks(Exited(s), RUNNABLE, 0);
  }

  /** Process 0 reaps the zombie in slot 1. */
  lemma WaitThree(a: Pcb, b: Pcb, c: Pcb, next: nat)
    requires 1 <= next <= PID_MAX + 1
    requires a.pid == 0 && a.father == 0 && a.state != ZOMBIE && b.father == 0 && b.state == ZOMBIE
    ensures var s := Three(a, b, c, 0, next);
      WaitStep(s) == Three(a, Pcb(0, 0, FREE), c, 0, next)
  {
    var s := Three(a, b, c, 0, next);
    assert FirstZombie(s.ps, 0) == 1;
    CountTwo(s.ps, 0);
    assert WaitStep(s).ps == Three(a, Pcb(0, 0, FREE), c, 0, next).ps;
  }

  lemma CountTwo(ps: seq<Pcb>, pid: nat)
    requires |ps| == PCB_MAX && ps[18].father == pid && ps[19].father == pid
    ensures CountChildren(ps, pid) >= 2
  {
    assert ps[..19][18] == ps[18];
  }

  /** It happens: fork, exit and ticks in this order lead to process 2 running, its only
      child a zombie. */
  lemma ZombieRun()
    ensures Reachable(Three(Pcb(0, 0, RUNNABLE), Pcb(3, 2, ZOMBIE), Pcb(2, 1, RUNNING), 2, 4))
  {
    var free, zero, zeroRuns := Pcb(0, 0, FREE), Pcb(0, 0, RUNNABLE), Pcb(0, 0, RUNNING);
    BootReachable();
    assert Boot() == Three(zeroRuns, free, free, 0, 1);
    ForkThree(zeroRuns, free, free, 0, 1, 1);
    ReachStep(Three(zeroRuns, free, free, 0, 1), Fork);
    TickThree(zeroRuns, Pcb(1, 0, RUNNABLE), free, 0, 2, 1);
    ReachStep(Three(zeroRuns, Pcb(1, 0, RUNNABLE), free, 0, 2), Tick);
    ForkThree(zero, Pcb(1, 0, RUNNING), free, 1, 2, 2);
    ReachStep(Three(zero, Pcb(1, 0, RUNNING), free, 1, 2), Fork);
    ExitThree(zero, Pcb(1, 0, RUNNING), Pcb(2, 1, RUNNABLE), 3);
    ReachStep(Three(zero, Pcb(1, 0, RUNNING), Pcb(2, 1, RUNNABLE), 1, 3), Exit);
    WaitThree(zero, Pcb(1, 0, ZOMBIE), Pcb(2, 1, RUNNABLE), 3);
    ReachStep(Three(zero, Pcb(1, 0, ZOMBIE), Pcb(2, 1, RUNNABLE), 0, 3), Wait);
    ZombieRunSecond();
    ZombieRunEnd();
  }

  lemma ZombieRunSecond()
    requires Reachable(Three(Pcb(0, 0, RUNNABLE), Pcb(0, 0, FREE), Pcb(2, 1, RUNNABLE), 0, 3))
    ensures Reachable(Three(Pcb(0, 0, RUNNABLE), Pcb(3, 2, RUNNABLE), Pcb(2, 1, RUNNING), 2, 4))
  {
    var free, zero, zeroRuns := Pcb(0, 0, FREE), Pcb(0, 0, RUNNABLE), Pcb(0, 0, RUNNING);
    TickThree(zero, free, Pcb(2, 1, RUNNABLE), 0, 3, 0);
    ReachStep(Three(zero, free, Pcb(2, 1, RUNNABLE), 0, 3), Tick);
    TickThree(zeroRuns, free, Pcb(2, 1, RUNNABLE), 0, 3, 2);
    ReachStep(Three(zeroRuns, free, Pcb(2, 1, RUNNABLE), 0, 3), Tick);
    ForkThree(zero, free, Pcb(2, 1, RUNNING), 2, 3, 1);
    ReachStep(Three(zero, free, Pcb(2, 1, RUNNING), 2, 3), Fork);
  }

  lemma ZombieRunEnd()
    requires Reachable(Three(Pcb(0, 0, RUNNABLE), Pcb(3, 2, RUNNABLE), Pcb(2, 1, RUNNING), 2, 4))
    ensures Reachable(Three(Pcb(0, 0, RUNNABLE), Pcb(3, 2, ZOMBIE), Pcb(2, 1, RUNNING), 2, 4))
  {
    var zero, zeroRuns := Pcb(0, 0, RUNNABLE), Pcb(0, 0, RUNNING);
    TickThree(zero, Pcb(3, 2, RUNNABLE), Pcb(2, 1, RUNNING), 2, 4, 0);
    ReachStep(Three(zero, Pcb(3, 2, RUNNABLE), Pcb(2, 1, RUNNING), 2, 4), Tick);
    TickThree(zeroRuns, Pcb(3, 2, RUNNABLE), Pcb(2, 1, RUNNABLE), 0, 4, 1);
    ReachStep(Three(zeroRuns, Pcb(3, 2, RUNNABLE), Pcb(2, 1, RUNNABLE), 0, 4), Tick);
    ZombieRunExit();
  }

  lemma ZombieRunExit()
    requires Reachable(Three(Pcb(0, 0, RUNNABLE), Pcb(3, 2, RUNNING), Pcb(2, 1, RUNNABLE), 1, 4))
    ensures Reachable(Three(Pcb(0, 0, RUNNABLE), Pcb(3, 2, ZOMBIE), Pcb(2, 1, RUNNING), 2, 4))
  {
    var zero, zeroRuns := Pcb(0, 0, RUNNABLE), Pcb(0, 0, RUNNING);
    ExitThree(zero, Pcb(3, 2, RUNNING), Pcb(2, 1, RUNNABLE), 4);
    ReachStep(Three(zero, Pcb(3, 2, RUNNING), Pcb(2, 1, RUNNABLE), 1, 4), Exit);
    TickThree(zero, Pcb(3, 2, ZOMBIE), Pcb(2, 1, RUNNABLE), 0, 4, 0);
    ReachStep(Three(zero, Pcb(3, 2, ZOMBIE), Pcb(2, 1, RUNNABLE), 0, 4), Tick);
    TickThree(zeroRuns, Pcb(3, 2, ZOMBIE), Pcb(2, 1, RUNNABLE), 0, 4, 2);
    ReachStep(Three(zeroRuns, Pcb(3, 2, ZOMBIE), Pcb(2, 1, RUNNABLE), 0, 4), Tick);
  }

  /** So on some run a process waits while its only child is a zombie, and is told that
      there is no child. */
  lemma OnlyChildNotReaped()
    ensures exists s ::
      && Reachable(s) && WellFormed(s) && s.ps[s.cur].pid == 2 && s.ps[s.cur].state == RUNNING
      && CountChildren(s.ps, 2) == 1 && s.ps[1] == Pcb(3, 2, ZOMBIE) && WaitOutcome(s) == NoChild
  {
    ZombieRun();
    var s := Three(Pcb(0, 0, RUNNABLE), Pcb(3, 2, ZOMBIE), Pcb(2, 1, RUNNING), 2, 4);
    CountOnly(s.ps, 2, 1);
    assert CountChildren(s.ps, 2) == 1;
  }

  lemma {:induction false} CountOnly(ps: seq<Pcb>, pid: nat, i: nat)
    requires forall k :: 0 <= k < |ps| ==> (ps[k].father == pid <==> k == i)
    ensures CountChildren(ps, pid) == if i < |ps| then 1 else 0
    decreases |ps|
  {
    if ps != [] {
      CountOnly(ps[..|ps| - 1], pid, i);
    }
  }

  // ----- ticks only

  predicate Live(p: Pcb) { p.state == RUNNABLE || p.state == RUNNING }

  function Ticks(s: Sched, n: nat): (r: Sched)
    requires WellFormed(s)
    ensures WellFormed(r)
  {
    if n == 0 then s else TickStep(Ticks(s, n - 1))
  }

  /** a and b are the two live slots with the lowest indices. */
  ghost predicate LowestLive(ps: seq<Pcb>, a: nat, b: nat) {
    && a < b < |ps| && Live(ps[a]) && Live(ps[b])
    && forall i :: 0 <= i < b && i != a ==> !Live(ps[i])
  }

  lemma TickLive(s: Sched, a: nat, b: nat)
    requires Inv(s) && LowestLive(s.ps, a, b)
    ensures Inv(TickStep(s)) && LowestLive(TickStep(s).ps, a, b)
    ensures var t := TickStep(s);
      && t.ps[t.cur].state == RUNNING && (t.cur == a || t.cur == b)
      && (s.ps[s.cur].state == RUNNING && s.cur == a ==> t.cur == b)
      && (s.ps[s.cur].state == RUNNING && s.cur != a ==> t.cur == a)
  {
    TickInv(s);
    var p := FirstIn(s.ps, RUNNABLE);
    assert p <= b by {
      if s.ps[b].state != RUNNABLE {
        assert s.cur == b && s.ps[a].state == RUNNABLE;
      }
    }
  }

  /** With at least two live processes and nothing but ticks, the current process
      alternates, from the first tick on, between the two live slots with the lowest
      indices; no other process ever runs. */
  lemma {:induction false} TicksAlternate(s: Sched, a: nat, b: nat, n: nat)
    requires Inv(s) && LowestLive(s.ps, a, b) && n > 0
    ensures var t := Ticks(s, n);
      && Inv(t) && LowestLive(t.ps, a, b) && t.ps[t.cur].state == RUNNING
      && (t.cur == a || t.cur == b)
      && Ticks(s, n + 1).cur == (if t.cur == a then b else a)
  {
    if n == 1 {
      assert Ticks(s, 0) == s;
    } else {
      TicksAlternate(s, a, b, n - 1);
    }
    NextTick(s, a, b, n - 1);
    NextTick(s, a, b, n);
  }

  lemma NextTick(s: Sched, a: nat, b: nat, n: nat)
    requires WellFormed(s) && Inv(Ticks(s, n)) && LowestLive(Ticks(s, n).ps, a, b)
    ensures var r, t := Ticks(s, n), Ticks(s, n + 1);
      && Inv(t) && LowestLive(t.ps, a, b)
      && t.ps[t.cur].state == RUNNING && (t.cur == a || t.cur == b)
      && (r.ps[r.cur].state == RUNNING && r.cur == a ==> t.cur == b)
      && (r.ps[r.cur].state == RUNNING && r.cur != a ==> t.cur == a)
  {
    TickLive(Ticks(s, n), a, b);
  }
}
