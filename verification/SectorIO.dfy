/** k_readsector and k_writesector (diskload.c) under the spinlock of lock.c and the
    atomic exchange of x86.c: any number of threads, interleaved one step at a time. */
module SectorIO {

  const SECTOR_WORDS: nat := 256

  type Sector = s: seq<nat> | |s| == SECTOR_WORDS witness seq(SECTOR_WORDS, _ => 0)
  type Disk = map<nat, Sector>

  function At(d: Disk, n: nat): Sector {
    if n in d then d[n] else seq(SECTOR_WORDS, _ => 0)
  }

  ghost predicate SameDisk(d: Disk, e: Disk) { forall n: nat :: At(d, n) == At(e, n) }

  datatype Request = Read(sector: nat) | Write(sector: nat, data: Sector)

  // ----- the device

  /** The IDE registers, how far the running transfer has come, and the medium. */
  datatype Device = Device(count: nat, low: nat, mid: nat, high: nat, dev: nat, command: nat, pos: nat, disk: Disk)
  {
    /** The 28-bit sector address in the registers. */
    function Lba(): nat { low + mid * 0x100 + high * 0x1_0000 + dev % 16 * 0x100_0000 }

    /** inw on the data port */
    function In(): nat { if pos < SECTOR_WORDS then At(disk, Lba())[pos] else 0 }

    function AfterIn(): Device { this.(pos := pos + 1) }

    /** outw on the data port */
    function Out(w: nat): Device {
      if pos < SECTOR_WORDS then this.(disk := disk[Lba() := At(disk, Lba())[pos := w]], pos := pos + 1) else this
    }
  }

  /** The k-th port write of k_operatesector. */
  function PortWrite(d: Device, r: Request, k: nat): Device {
    var s := r.sector;
    match k
    case 0 => d.(count := 1)
    case 1 => d.(low := s % 0x100)
    case 2 => d.(mid := s / 0x100 % 0x100)
    case 3 => d.(high := s / 0x1_0000 % 0x100)
    // (sector & 0x0f0000) >> 24 | 0xe0
    case 4 => d.(dev := s / 0x1_0000 % 16 * 0x1_0000 / 0x100_0000 + 0xE0)
    case _ => d.(command := if r.Read? then 0x20 else 0x30, pos := 0)
  }

  const PORTS: nat := 6

  /** The sector the registers end up naming. */
  function Addressed(sector: nat): nat { sector % 0x100_0000 }

  // ----- the threads

  /** Where a thread is inside k_operatesector. */
  datatype Phase = Idle | Acquiring | Ports(k: nat) | Polling | Transfer(i: nat)

  /** The requests still to make, the first being the one under way, and the words read so far. */
  datatype Thread = Thread(todo: seq<Request>, phase: Phase, buffer: seq<nat>)

  predicate Holds(t: Thread) { t.phase.Ports? || t.phase.Polling? || t.phase.Transfer? }

  /** A finished request and, for a read, the words it delivered. */
  datatype Done = Done(thread: nat, request: Request, words: seq<nat>)

  datatype State = State(threads: seq<Thread>, lock: int, device: Device, log: seq<Done>)

  function Become(s: State, t: nat, phase: Phase): State
    requires t < |s.threads|
  {
    s.(threads := s.threads[t := s.threads[t].(phase := phase)])
  }

  /** One step of thread t. While it polls, ready is the bit the device shows. */
  function Step(s: State, t: nat, ready: bool): State
    requires t < |s.threads| && s.threads[t].todo != []
  {
    var th := s.threads[t];
    var r := th.todo[0];
    match th.phase
    case Idle => Become(s, t, Acquiring)
    case Acquiring =>
      // xchg(&lock, 1) hands back the old value and stores 1 in one step
      var old_ := s.lock;
      var s' := s.(lock := 1);
      if old_ != 0 then s' else Become(s', t, Ports(0))
    case Ports(k) =>
      var s' := s.(device := PortWrite(s.device, r, k));
      Become(s', t, if k + 1 < PORTS then Ports(k + 1) else Polling)
    case Polling => if ready then s.(threads := s.threads[t := th.(phase := Transfer(0), buffer := [])]) else s
    case Transfer(i) =>
      if i < SECTOR_WORDS then
        if r.Read? then
          s.(threads := s.threads[t := th.(phase := Transfer(i + 1), buffer := th.buffer + [s.device.In()])], device := s.device.AfterIn())
        else
          Become(s.(device := s.device.Out(r.data[i])), t, Transfer(i + 1))
      else
        // release
        s.(lock := 0, threads := s.threads[t := Thread(th.todo[1..], Idle, [])], log := s.log + [Done(t, r, th.buffer)])
  }

  // ----- whole requests, one after the other

  function Apply(d: Disk, r: Request): Disk {
    match r
    case Read(_) => d
    case Write(n, data) => d[Addressed(n) := data]
  }

  function Replay(d: Disk, log: seq<Done>): Disk {
    if log == [] then d else Apply(Replay(d, log[..|log| - 1]), log[|log| - 1].request)
  }

  /** Every read in the log delivered the sector as the writes before it left it. */
  ghost predicate Sequential(d: Disk, log: seq<Done>) {
    forall i :: 0 <= i < |log| && log[i].request.Read? ==>
      log[i].words == At(Replay(d, log[..i]), Addressed(log[i].request.sector))
  }

  /** The requests thread t has finished, in order. */
  function FinishedBy(log: seq<Done>, t: nat): seq<Request> {
    if log == [] then []
    else
      var last := log[|log| - 1];
      FinishedBy(log[..|log| - 1], t) + if last.thread == t then [last.request] else []
  }

  // ----- the invariant

  /** The medium while thread th is in the middle of its request, a being the disk before it. */
  function Midway(a: Disk, th: Thread): Disk {
    if th.phase.Transfer? && th.todo != [] && th.todo[0].Write? && th.phase.i <= SECTOR_WORDS then
      var n := Addressed(th.todo[0].sector);
      a[n := th.todo[0].data[..th.phase.i] + At(a, n)[th.phase.i..]]
    else a
  }

  /** The registers after the first k port writes of request r. */
  predicate Programmed(d: Device, r: Request, k: nat) {
    && (k > 0 ==> d.count == 1)
    && (k > 1 ==> d.low == r.sector % 0x100)
    && (k > 2 ==> d.mid == r.sector / 0x100 % 0x100)
    && (k > 3 ==> d.high == r.sector / 0x1_0000 % 0x100)
    && (k > 4 ==> d.dev == 0xE0)
    && (k > 5 ==> d.pos <= SECTOR_WORDS && d.command == if r.Read? then 0x20 else 0x30)
  }

  ghost predicate HolderOk(th: Thread, d: Device, a: Disk) {
    && th.todo != []
    && SameDisk(d.disk, Midway(a, th))
    && (th.phase.Ports? ==> th.phase.k < PORTS && Programmed(d, th.todo[0], th.phase.k))
    && (th.phase.Polling? ==> Programmed(d, th.todo[0], PORTS) && d.pos == 0)
    && (th.phase.Transfer? ==>
          && th.phase.i <= SECTOR_WORDS && Programmed(d, th.todo[0], PORTS) && d.pos == th.phase.i
          && th.buffer == if th.todo[0].Read? then At(a, Addressed(th.todo[0].sector))[..th.phase.i] else [])
  }

  ghost predicate Inv(s: State, programs: seq<seq<Request>>, disk0: Disk) {
    var a := Replay(disk0, s.log);
    && |s.threads| == |programs|
    && (s.lock == 0 || s.lock == 1)
    && (s.lock == 1 <==> exists t :: 0 <= t < |s.threads| && Holds(s.threads[t]))
    && (forall t, u :: 0 <= t < u < |s.threads| ==> !(Holds(s.threads[t]) && Holds(s.threads[u])))
    && (forall t :: 0 <= t < |s.threads| && Holds(s.threads[t]) ==> HolderOk(s.threads[t], s.device, a))
    && (s.lock == 0 ==> SameDisk(s.device.disk, a))
    && Sequential(disk0, s.log)
    && (forall t: nat {:trigger FinishedBy(s.log, t)} :: t < |s.threads| ==> FinishedBy(s.log, t) + s.threads[t].todo == programs[t])
  }

  /** Nothing but the device's registers and medium and thread t's own progress changes
      while t holds the lock and does not release it. */
  lemma Replace(s: State, s': State, programs: seq<seq<Request>>, disk0: Disk, t: nat)
    requires Inv(s, programs, disk0) && t < |s.threads| && Holds(s.threads[t])
    requires |s'.threads| == |s.threads| && s'.lock == s.lock && s'.log == s.log
    requires s'.threads == s.threads[t := s'.threads[t]] && Holds(s'.threads[t]) && s'.threads[t].todo == s.threads[t].todo
    requires HolderOk(s'.threads[t], s'.device, Replay(disk0, s.log))
    ensures Inv(s', programs, disk0)
  {
    assert s.lock == 1;
    assert Holds(s'.threads[t]);
  }

  lemma LowDigits(s: nat)
    ensures s % 0x100_0000 == s % 0x100 + s / 0x100 % 0x100 * 0x100 + s / 0x1_0000 % 0x100 * 0x1_0000
  {
    var a := s / 0x100;
    var b := a / 0x100;
    var c := b / 0x100;
    assert s == a * 0x100 + s % 0x100 && a == b * 0x100 + a % 0x100 && b == c * 0x100 + b % 0x100;
    assert s / 0x1_0000 == b && s / 0x100_0000 == c;
  }

  lemma RegistersName(d: Device, r: Request)
    requires Programmed(d, r, PORTS)
    ensures d.Lba() == Addressed(r.sector)
  {
    LowDigits(r.sector);
  }

  lemma RegistersExact(d: Device, r: Request)
    requires Programmed(d, r, PORTS)
    ensures d.Lba() == r.sector <==> r.sector < 0x100_0000
  {
    RegistersName(d, r);
    BelowModulus(r.sector, 0x100_0000);
  }

  /** What the four registers can name: all 28 bits, if the device register had them. */
  lemma FullAddress(d: Device, n: nat)
    requires n < 0x1000_0000
    requires d.low == n % 0x100 && d.mid == n / 0x100 % 0x100 && d.high == n / 0x1_0000 % 0x100 && d.dev == 0xE0 + n / 0x100_0000
    ensures d.Lba() == n
  {
    LowDigits(n);
    assert n == n / 0x100_0000 * 0x100_0000 + n % 0x100_0000;
  }

  lemma BelowModulus(n: nat, m: nat)
    requires m > 0
    ensures n % m == n <==> n < m
  {
  }

  lemma PortStep(s: State, programs: seq<seq<Request>>, disk0: Disk, t: nat, ready: bool)
    requires Inv(s, programs, disk0) && t < |s.threads| && s.threads[t].todo != []
    requires s.threads[t].phase.Ports?
    ensures Inv(Step(s, t, ready), programs, disk0)
  {
    Replace(s, Step(s, t, ready), programs, disk0, t);
  }

  lemma PollStep(s: State, programs: seq<seq<Request>>, disk0: Disk, t: nat, ready: bool)
    requires Inv(s, programs, disk0) && t < |s.threads| && s.threads[t].todo != []
    requires s.threads[t].phase.Polling?
    ensures Inv(Step(s, t, ready), programs, disk0)
  {
    if ready {
      var th, s', a := s.threads[t], Step(s, t, ready), Replay(disk0, s.log);
      if th.todo[0].Write? {
        var n := Addressed(th.todo[0].sector);
        assert th.todo[0].data[..0] + At(a, n)[0..] == At(a, n);
      }
      assert SameDisk(s'.device.disk, Midway(a, s'.threads[t]));
      Replace(s, s', programs, disk0, t);
    }
  }

  lemma ReadStep(s: State, programs: seq<seq<Request>>, disk0: Disk, t: nat, ready: bool)
    requires Inv(s, programs, disk0) && t < |s.threads| && s.threads[t].todo != []
    requires s.threads[t].phase.Transfer? && s.threads[t].phase.i < SECTOR_WORDS && s.threads[t].todo[0].Read?
    ensures Inv(Step(s, t, ready), programs, disk0)
  {
    var th, s', a := s.threads[t], Step(s, t, ready), Replay(disk0, s.log);
    assert HolderOk(th, s.device, a);
    RegistersName(s.device, th.todo[0]);
    var i, sec := th.phase.i, At(a, Addressed(th.todo[0].sector));
    assert sec[..i + 1] == sec[..i] + [sec[i]];
    Replace(s, s', programs, disk0, t);
  }

  /** One word further, the medium is one word further. */
  lemma MidwayNext(a: Disk, d: Disk, d': Disk, n: nat, data: Sector, i: nat)
    requires i < SECTOR_WORDS
    requires SameDisk(d, a[n := data[..i] + At(a, n)[i..]])
    requires d' == d[n := At(d, n)[i := data[i]]]
    ensures SameDisk(d', a[n := data[..i + 1] + At(a, n)[i + 1..]])
  {
    assert At(d, n) == data[..i] + At(a, n)[i..];
    assert At(d', n) == data[..i + 1] + At(a, n)[i + 1..];
    forall m: nat | m != n
      ensures At(d', m) == At(a, m)
    {
      assert At(d, m) == At(a[n := data[..i] + At(a, n)[i..]], m);
    }
  }

  lemma WriteStep(s: State, programs: seq<seq<Request>>, disk0: Disk, t: nat, ready: bool)
    requires Inv(s, programs, disk0) && t < |s.threads| && s.threads[t].todo != []
    requires s.threads[t].phase.Transfer? && s.threads[t].phase.i < SECTOR_WORDS && s.threads[t].todo[0].Write?
    ensures Inv(Step(s, t, ready), programs, disk0)
  {
    var th, s', a := s.threads[t], Step(s, t, ready), Replay(disk0, s.log);
    assert HolderOk(th, s.device, a);
    RegistersName(s.device, th.todo[0]);
    MidwayNext(a, s.device.disk, s'.device.disk, Addressed(th.todo[0].sector), th.todo[0].data, th.phase.i);
    Replace(s, s', programs, disk0, t);
  }

  /** Another record at the end of the log. */
  lemma LogMore(d: Disk, log: seq<Done>, e: Done)
    requires Sequential(d, log)
    requires e.request.Read? ==> e.words == At(Replay(d, log), Addressed(e.request.sector))
    ensures Sequential(d, log + [e])
    ensures Replay(d, log + [e]) == Apply(Replay(d, log), e.request)
  {
    var l := log + [e];
    assert l[..|log|] == log;
    forall i | 0 <= i < |l| && l[i].request.Read?
      ensures l[i].words == At(Replay(d, l[..i]), Addressed(l[i].request.sector))
    {
      if i < |log| {
        assert l[..i] == log[..i];
      }
    }
  }

  /** The medium the holder leaves is the disk after its request. */
  lemma ReleasedDisk(d: Disk, a: Disk, th: Thread)
    requires th.todo != [] && th.phase == Transfer(SECTOR_WORDS) && SameDisk(d, Midway(a, th))
    ensures SameDisk(d, Apply(a, th.todo[0]))
  {
    var r := th.todo[0];
    if r.Write? {
      assert r.data[..SECTOR_WORDS] + At(a, Addressed(r.sector))[SECTOR_WORDS..] == r.data;
    }
  }

  lemma ReleasedLog(s: State, programs: seq<seq<Request>>, disk0: Disk, t: nat, e: Done)
    requires Inv(s, programs, disk0) && t < |s.threads| && s.threads[t].todo != []
    requires e.thread == t && e.request == s.threads[t].todo[0]
    ensures forall u: nat {:trigger FinishedBy(s.log + [e], u)} :: u < |s.threads| ==>
              FinishedBy(s.log + [e], u) + (if u == t then s.threads[t].todo[1..] else s.threads[u].todo) == programs[u]
  {
    forall u: nat {:trigger FinishedBy(s.log + [e], u)} | u < |s.threads|
      ensures FinishedBy(s.log + [e], u) + (if u == t then s.threads[t].todo[1..] else s.threads[u].todo) == programs[u]
    {
      FinishedMore(s.log, e, u);
      assert FinishedBy(s.log, u) + s.threads[u].todo == programs[u];
      MoveHead(FinishedBy(s.log, t), s.threads[t].todo);
    }
  }

  lemma MoveHead<T>(a: seq<T>, b: seq<T>)
    requires b != []
    ensures a + [b[0]] + b[1..] == a + b
  {
  }

  lemma FinishedMore(log: seq<Done>, e: Done, t: nat)
    ensures FinishedBy(log + [e], t) == FinishedBy(log, t) + if e.thread == t then [e.request] else []
  {
    assert (log + [e])[..|log|] == log;
  }

  /** What the holder has when its transfer is complete. */
  lemma HolderDone(th: Thread, d: Device, a: Disk)
    requires HolderOk(th, d, a) && th.phase.Transfer? && th.phase.i >= SECTOR_WORDS
    ensures th.phase == Transfer(SECTOR_WORDS) && SameDisk(d.disk, Apply(a, th.todo[0]))
    ensures th.todo[0].Read? ==> th.buffer == At(a, Addressed(th.todo[0].sector))
  {
    ReleasedDisk(d.disk, a, th);
  }

  lemma ReleaseStep(s: State, programs: seq<seq<Request>>, disk0: Disk, t: nat, ready: bool)
    requires Inv(s, programs, disk0) && t < |s.threads| && s.threads[t].todo != []
    requires s.threads[t].phase.Transfer? && s.threads[t].phase.i >= SECTOR_WORDS
    ensures Inv(Step(s, t, ready), programs, disk0)
  {
    var th := s.threads[t];
    var e := Done(t, th.todo[0], th.buffer);
    HolderDone(th, s.device, Replay(disk0, s.log));
    LogMore(disk0, s.log, e);
    ReleasedLog(s, programs, disk0, t, e);
    Released(s, programs, disk0, t, e);
  }

  lemma Released(s: State, programs: seq<seq<Request>>, disk0: Disk, t: nat, e: Done)
    requires Inv(s, programs, disk0) && t < |s.threads| && s.threads[t].todo != [] && Holds(s.threads[t])
    requires Sequential(disk0, s.log + [e]) && SameDisk(s.device.disk, Replay(disk0, s.log + [e]))
    requires forall u: nat {:trigger FinishedBy(s.log + [e], u)} :: u < |s.threads| ==>
               FinishedBy(s.log + [e], u) + (if u == t then s.threads[t].todo[1..] else s.threads[u].todo) == programs[u]
    ensures Inv(s.(lock := 0, threads := s.threads[t := Thread(s.threads[t].todo[1..], Idle, [])], log := s.log + [e]), programs, disk0)
  {
  }

  lemma AcquireStep(s: State, programs: seq<seq<Request>>, disk0: Disk, t: nat, ready: bool)
    requires Inv(s, programs, disk0) && t < |s.threads| && s.threads[t].todo != []
    requires s.threads[t].phase.Acquiring? || s.threads[t].phase.Idle?
    ensures Inv(Step(s, t, ready), programs, disk0)
  {
    var s' := Step(s, t, ready);
    if s.lock == 1 {
      var w :| 0 <= w < |s.threads| && Holds(s.threads[w]);
      assert w != t && Holds(s'.threads[w]);
    } else if s.threads[t].phase.Acquiring? {
      assert Holds(s'.threads[t]);
    }
  }

  /** Every step of every thread keeps the invariant. */
  lemma StepKeeps(s: State, programs: seq<seq<Request>>, disk0: Disk, t: nat, ready: bool)
    requires Inv(s, programs, disk0) && t < |s.threads| && s.threads[t].todo != []
    ensures Inv(Step(s, t, ready), programs, disk0)
  {
    match s.threads[t].phase
    case Idle => AcquireStep(s, programs, disk0, t, ready);
    case Acquiring => AcquireStep(s, programs, disk0, t, ready);
    case Ports(_) => PortStep(s, programs, disk0, t, ready);
    case Polling => PollStep(s, programs, disk0, t, ready);
    case Transfer(i) =>
      if i >= SECTOR_WORDS {
        ReleaseStep(s, programs, disk0, t, ready);
      } else if s.threads[t].todo[0].Read? {
        ReadStep(s, programs, disk0, t, ready);
      } else {
        WriteStep(s, programs, disk0, t, ready);
      }
  }

  // ----- every schedule

  /** Which thread moves, and what the device answers if it polls. */
  datatype Turn = Turn(thread: nat, ready: bool)

  /** A turn of a thread that has nothing to do passes. */
  function Take(s: State, turn: Turn): State {
    if turn.thread < |s.threads| && s.threads[turn.thread].todo != [] then Step(s, turn.thread, turn.ready) else s
  }

  function Exec(s: State, turns: seq<Turn>): State {
    if turns == [] then s else Take(Exec(s, turns[..|turns| - 1]), turns[|turns| - 1])
  }

  /** Before the first step: lock free, nobody in the driver. */
  function Start(programs: seq<seq<Request>>, device: Device): State {
    State(seq(|programs|, t requires 0 <= t < |programs| => Thread(programs[t], Idle, [])), 0, device, [])
  }

  lemma {:induction false} ExecKeeps(programs: seq<seq<Request>>, device: Device, turns: seq<Turn>)
    ensures Inv(Exec(Start(programs, device), turns), programs, device.disk)
  {
    if turns != [] {
      var n := |turns| - 1;
      ExecKeeps(programs, device, turns[..n]);
      var s := Exec(Start(programs, device), turns[..n]);
      if turns[n].thread < |s.threads| && s.threads[turns[n].thread].todo != [] {
        StepKeeps(s, programs, device.disk, turns[n].thread, turns[n].ready);
      }
    }
  }

  /** Under every schedule the lock word is 1 exactly while some thread is between acquire
      and release, and then only one is. */
  lemma MutualExclusion(programs: seq<seq<Request>>, device: Device, turns: seq<Turn>)
    ensures
      var s := Exec(Start(programs, device), turns);
      && s.lock in {0, 1}
      && (s.lock == 1 <==> exists t :: 0 <= t < |s.threads| && Holds(s.threads[t]))
      && forall t, u :: 0 <= t < |s.threads| && 0 <= u < |s.threads| && Holds(s.threads[t]) && Holds(s.threads[u]) ==> t == u
  {
    ExecKeeps(programs, device, turns);
  }

  /** Under every schedule, a thread that writes a port, polls or transfers is the only one
      that does, and the lock is its; and a turn that changes the device is a turn of such
      a thread. */
  lemma OnlyHolderTouchesDevice(programs: seq<seq<Request>>, device: Device, turns: seq<Turn>, turn: Turn)
    ensures
      var s := Exec(Start(programs, device), turns);
      && (forall t: nat :: t < |s.threads| && Holds(s.threads[t]) ==>
            s.lock == 1 && forall u: nat :: u < |s.threads| && u != t ==> s.threads[u].phase.Idle? || s.threads[u].phase.Acquiring?)
      && (Take(s, turn).device != s.device ==> turn.thread < |s.threads| && Holds(s.threads[turn.thread]))
  {
    ExecKeeps(programs, device, turns);
  }

  /** Under every schedule, while a thread transfers data the registers name one sector of
      the first drive in LBA mode: the one it asked for if and only if that is below 2^24
      (bits 24 to 27 never reach the device), with the command of its own request. */
  lemma SectorReached(programs: seq<seq<Request>>, device: Device, turns: seq<Turn>, t: nat)
    requires var s := Exec(Start(programs, device), turns);
      t < |s.threads| && s.threads[t].phase.Transfer?
    ensures
      var s := Exec(Start(programs, device), turns);
      && s.threads[t].todo != []
      && var r := s.threads[t].todo[0];
      && (s.device.Lba() == r.sector <==> r.sector < 0x100_0000)
      && s.device.count == 1 && s.device.dev == 0xE0
      && s.device.command == if r.Read? then 0x20 else 0x30
  {
    ExecKeeps(programs, device, turns);
    var s := Exec(Start(programs, device), turns);
    assert HolderOk(s.threads[t], s.device, Replay(device.disk, s.log));
    RegistersExact(s.device, s.threads[t].todo[0]);
  }

  // ----- waiting and progress

  /** Under every schedule a turn changes nothing if and only if the thread has nothing to
      do, polls a device that is not ready, or finds the lock taken. */
  lemma WaitsIff(programs: seq<seq<Request>>, device: Device, turns: seq<Turn>, turn: Turn)
    ensures
      var s := Exec(Start(programs, device), turns);
      Take(s, turn) == s <==>
        || turn.thread >= |s.threads| || s.threads[turn.thread].todo == []
        || (s.threads[turn.thread].phase.Polling? && !turn.ready)
        || (s.threads[turn.thread].phase.Acquiring? && s.lock == 1)
  {
    ExecKeeps(programs, device, turns);
    var s := Exec(Start(programs, device), turns);
    if turn.thread < |s.threads| && s.threads[turn.thread].todo != [] {
      var th, th' := s.threads[turn.thread], Take(s, turn).threads[turn.thread];
      assert |th.todo[1..]| < |th.todo|;
    }
  }

  /** How many turns the request under way still takes if nothing makes it wait: one to
      enter, one for the lock, six ports, one poll, 256 words, one to release. */
  function TurnsLeft(p: Phase): nat {
    match p
    case Idle => 266
    case Acquiring => 265
    case Ports(k) => if k < PORTS then 264 - k else 0
    case Polling => 258
    case Transfer(i) => if i <= SECTOR_WORDS then 257 - i else 0
  }

  function Work(th: Thread): nat {
    if th.todo == [] then 0 else TurnsLeft(th.phase) + 266 * (|th.todo| - 1)
  }

  function TotalWork(threads: seq<Thread>): nat {
    if threads == [] then 0 else TotalWork(threads[..|threads| - 1]) + Work(threads[|threads| - 1])
  }

  lemma {:induction false} TotalUpdate(threads: seq<Thread>, t: nat, th: Thread)
    requires t < |threads|
    ensures TotalWork(threads[t := th]) == TotalWork(threads) - Work(threads[t]) + Work(th)
    decreases |threads|
  {
    var n := |threads| - 1;
    if t < n {
      assert threads[t := th][..n] == threads[..n][t := th];
      TotalUpdate(threads[..n], t, th);
    } else {
      assert threads[t := th][..n] == threads[..n];
    }
  }

  lemma {:induction false} NoWork(threads: seq<Thread>)
    requires TotalWork(threads) == 0 && forall t :: 0 <= t < |threads| && threads[t].todo != [] ==> TurnsLeft(threads[t].phase) > 0
    ensures forall t :: 0 <= t < |threads| ==> threads[t].todo == []
    decreases |threads|
  {
    if threads != [] {
      NoWork(threads[..|threads| - 1]);
    }
  }

  lemma OneTurn(s: State, programs: seq<seq<Request>>, disk0: Disk, t: nat, ready: bool)
    requires Inv(s, programs, disk0) && t < |s.threads| && s.threads[t].todo != [] && Step(s, t, ready) != s
    ensures Work(Step(s, t, ready).threads[t]) == Work(s.threads[t]) - 1
    ensures Step(s, t, ready).threads == s.threads[t := Step(s, t, ready).threads[t]]
  {
  }

  /** Whatever the schedule, a turn that changes anything at all brings the whole nearer to
      its end by exactly one: no step is lost and none is repeated. */
  lemma TurnsCount(programs: seq<seq<Request>>, device: Device, turns: seq<Turn>, turn: Turn)
    ensures
      var s := Exec(Start(programs, device), turns);
      Take(s, turn) != s ==> TotalWork(Take(s, turn).threads) == TotalWork(s.threads) - 1
  {
    ExecKeeps(programs, device, turns);
    var s := Exec(Start(programs, device), turns);
    if Take(s, turn) != s {
      OneTurn(s, programs, device.disk, turn.thread, turn.ready);
      TotalUpdate(s.threads, turn.thread, Take(s, turn).threads[turn.thread]);
    }
  }

  lemma NobodyLeft(s: State, programs: seq<seq<Request>>, disk0: Disk)
    requires Inv(s, programs, disk0)
    ensures TotalWork(s.threads) == 0 ==> forall t :: 0 <= t < |s.threads| ==> s.threads[t].todo == []
    ensures s.lock == 1 ==> exists t :: 0 <= t < |s.threads| && Holds(s.threads[t]) && s.threads[t].todo != []
  {
    if TotalWork(s.threads) == 0 {
      NoWork(s.threads);
    }
  }

  lemma {:induction false} AllIdle(threads: seq<Thread>)
    requires forall t :: 0 <= t < |threads| ==> threads[t].todo == []
    ensures TotalWork(threads) == 0
    decreases |threads|
  {
    if threads != [] {
      AllIdle(threads[..|threads| - 1]);
    }
  }

  /** A turn that changes something is always to be had while there is work. */
  lemma SomeTurn(s: State, programs: seq<seq<Request>>, disk0: Disk) returns (turn: Turn)
    requires Inv(s, programs, disk0) && TotalWork(s.threads) > 0
    ensures turn.thread < |s.threads| && s.threads[turn.thread].todo != [] && Take(s, turn) != s
  {
    NobodyLeft(s, programs, disk0);
    if s.lock == 1 {
      var t: nat :| t < |s.threads| && Holds(s.threads[t]) && s.threads[t].todo != [];
      turn := Turn(t, true);
    } else {
      if forall t :: 0 <= t < |s.threads| ==> s.threads[t].todo == [] {
        AllIdle(s.threads);
        assert false;
      }
      var t: nat :| t < |s.threads| && s.threads[t].todo != [];
      turn := Turn(t, true);
    }
    TurnChanges(s, programs, disk0, turn.thread);
  }

  lemma TurnChanges(s: State, programs: seq<seq<Request>>, disk0: Disk, t: nat)
    requires Inv(s, programs, disk0) && t < |s.threads| && s.threads[t].todo != [] && (s.lock == 0 || Holds(s.threads[t]))
    ensures Step(s, t, true) != s
  {
    var th, th' := s.threads[t], Step(s, t, true).threads[t];
    assert |th.todo[1..]| < |th.todo|;
  }

  lemma {:induction false} ExecFront(s: State, turn: Turn, rest: seq<Turn>)
    ensures Exec(s, [turn] + rest) == Exec(Take(s, turn), rest)
    decreases |rest|
  {
    var all, n := [turn] + rest, |rest|;
    if n == 0 {
      assert all[..0] == [];
    } else {
      assert all[..n] == [turn] + rest[..n - 1] && all[n] == rest[n - 1];
      ExecFront(s, turn, rest[..n - 1]);
    }
  }

  lemma {:induction false} Finish(s: State, programs: seq<seq<Request>>, disk0: Disk) returns (rest: seq<Turn>)
    requires Inv(s, programs, disk0)
    ensures |rest| == TotalWork(s.threads)
    ensures var e := Exec(s, rest);
      |e.threads| == |s.threads| && forall t :: 0 <= t < |e.threads| ==> e.threads[t].todo == []
    decreases TotalWork(s.threads)
  {
    if TotalWork(s.threads) == 0 {
      NobodyLeft(s, programs, disk0);
      rest := [];
    } else {
      var turn := SomeTurn(s, programs, disk0);
      OneTurn(s, programs, disk0, turn.thread, turn.ready);
      TotalUpdate(s.threads, turn.thread, Take(s, turn).threads[turn.thread]);
      StepKeeps(s, programs, disk0, turn.thread, turn.ready);
      rest := Finish(Take(s, turn), programs, disk0);
      ExecFront(s, turn, rest);
      rest := [turn] + rest;
    }
  }

  lemma {:induction false} ExecConcat(s: State, a: seq<Turn>, b: seq<Turn>)
    ensures Exec(s, a + b) == Exec(Exec(s, a), b)
    decreases |b|
  {
    if b == [] {
      assert a + b == a;
    } else {
      var n := |b| - 1;
      assert (a + b)[..|a + b| - 1] == a + b[..n];
      ExecConcat(s, a, b[..n]);
    }
  }

  /** No deadlock: however the schedule began, it can go on so that every thread finishes
      all its requests, with exactly as many turns as there is work left. */
  lemma NoDeadlock(programs: seq<seq<Request>>, device: Device, turns: seq<Turn>) returns (rest: seq<Turn>)
    ensures |rest| == TotalWork(Exec(Start(programs, device), turns).threads)
    ensures var e := Exec(Start(programs, device), turns + rest);
      |e.threads| == |programs| && forall t :: 0 <= t < |e.threads| ==> e.threads[t].todo == []
  {
    ExecKeeps(programs, device, turns);
    rest := Finish(Exec(Start(programs, device), turns), programs, device.disk);
    ExecConcat(Start(programs, device), turns, rest);
  }

  /** Under every schedule: each thread has finished a prefix of its requests, in order;
      the finished requests of all threads, taken in the order of their releases, form a
      sequential run of whole-sector reads and writes in which every read delivers what
      the writes before it left; and while the lock is free the medium is what that
      sequential run leaves. */
  lemma EveryScheduleIsSequential(programs: seq<seq<Request>>, device: Device, turns: seq<Turn>)
    ensures
      var s := Exec(Start(programs, device), turns);
      && |s.threads| == |programs|
      && (forall t: nat {:trigger FinishedBy(s.log, t)} :: t < |programs| ==> FinishedBy(s.log, t) + s.threads[t].todo == programs[t])
      && Sequential(device.disk, s.log)
      && (s.lock == 0 ==> SameDisk(s.device.disk, Replay(device.disk, s.log)))
  {
    ExecKeeps(programs, device, turns);
  }

  /** A completed run: every thread has made all its requests. */
  lemma CompletedRun(programs: seq<seq<Request>>, device: Device, turns: seq<Turn>)
    requires var s := Exec(Start(programs, device), turns);
      |s.threads| == |programs| && forall t :: 0 <= t < |s.threads| ==> s.threads[t].todo == []
    ensures
      var s := Exec(Start(programs, device), turns);
      && (forall t: nat :: t < |programs| ==> FinishedBy(s.log, t) == programs[t])
      && Sequential(device.disk, s.log)
      && SameDisk(s.device.disk, Replay(device.disk, s.log))
  {
    ExecKeeps(programs, device, turns);
    var s := Exec(Start(programs, device), turns);
    assert s.lock == 0;
    forall t: nat | t < |programs|
      ensures FinishedBy(s.log, t) == programs[t]
    {
      assert FinishedBy(s.log, t) + s.threads[t].todo == programs[t];
    }
  }

  // ----- real time

  lemma {:induction false} LogGrows(s: State, turns: seq<Turn>, n: nat)
    requires n <= |turns|
    ensures Exec(s, turns[..n]).log <= Exec(s, turns).log
    decreases |turns|
  {
    if n == |turns| {
      assert turns[..n] == turns;
    } else {
      var r := turns[..|turns| - 1];
      assert r[..n] == turns[..n];
      LogGrows(s, r, n);
    }
  }

  lemma {:induction false} LogThreads(programs: seq<seq<Request>>, device: Device, turns: seq<Turn>)
    ensures var s := Exec(Start(programs, device), turns);
      |s.threads| == |programs| && forall j :: 0 <= j < |s.log| ==> s.log[j].thread < |programs|
  {
    if turns != [] {
      LogThreads(programs, device, turns[..|turns| - 1]);
    }
  }

  lemma {:induction false} FinishedPrefix(first: seq<Done>, log: seq<Done>, t: nat)
    requires first <= log
    ensures FinishedBy(first, t) <= FinishedBy(log, t)
    decreases |log|
  {
    if |first| == |log| {
      assert first == log;
    } else {
      FinishedPrefix(first, log[..|log| - 1], t);
    }
  }

  /** Each record of the log is the next request of its thread. */
  lemma FinishedNext(first: seq<Done>, e: Done, log: seq<Done>)
    requires first + [e] <= log
    ensures FinishedBy(first, e.thread) + [e.request] <= FinishedBy(log, e.thread)
  {
    FinishedMore(first, e, e.thread);
    FinishedPrefix(first + [e], log, e.thread);
  }

  /** Request number k of thread t is finished in state s. */
  predicate Finished(s: State, t: nat, k: nat) { k < |FinishedBy(s.log, t)| }

  /** Which request of its thread record j of the log is. */
  function NumberOf(log: seq<Done>, j: nat): nat
    requires j < |log|
  {
    |FinishedBy(log[..j], log[j].thread)|
  }

  /** The sequential order respects real time: stop any schedule after n turns; whatever
      was finished then stands, in the same places, before everything that was not, and in
      particular before every request that was not even begun. */
  lemma RealTimeOrder(programs: seq<seq<Request>>, device: Device, turns: seq<Turn>, n: nat)
    requires n <= |turns|
    ensures
      var early, late := Exec(Start(programs, device), turns[..n]), Exec(Start(programs, device), turns);
      && early.log <= late.log
      && forall j: nat {:trigger late.log[j]} :: j < |late.log| ==>
           var t, k := late.log[j].thread, NumberOf(late.log, j);
           && t < |programs| && k < |programs[t]| && late.log[j].request == programs[t][k]
           && (Finished(early, t, k) <==> j < |early.log|)
  {
    var early, late := Exec(Start(programs, device), turns[..n]), Exec(Start(programs, device), turns);
    LogGrows(Start(programs, device), turns, n);
    ExecKeeps(programs, device, turns);
    LogThreads(programs, device, turns);
    forall j: nat {:trigger late.log[j]} | j < |late.log|
      ensures var t, k := late.log[j].thread, NumberOf(late.log, j);
        && t < |programs| && k < |programs[t]| && late.log[j].request == programs[t][k]
        && (Finished(early, t, k) <==> j < |early.log|)
    {
      RecordPlace(late.log, early.log, j);
      assert FinishedBy(late.log, late.log[j].thread) + late.threads[late.log[j].thread].todo == programs[late.log[j].thread];
      PrefixAt(FinishedBy(late.log[..j], late.log[j].thread), late.log[j].request, FinishedBy(late.log, late.log[j].thread),
               late.threads[late.log[j].thread].todo);
    }
  }

  lemma RecordPlace(log: seq<Done>, first: seq<Done>, j: nat)
    requires first <= log && j < |log|
    ensures var t := log[j].thread;
      && FinishedBy(log[..j], t) + [log[j].request] <= FinishedBy(log, t)
      && (NumberOf(log, j) < |FinishedBy(first, t)| <==> j < |first|)
  {
    var t := log[j].thread;
    assert log[..j] + [log[j]] == log[..j + 1];
    FinishedNext(log[..j], log[j], log);
    if j < |first| {
      assert log[..j] + [log[j]] <= first;
      FinishedNext(log[..j], log[j], first);
    } else {
      assert first <= log[..j];
      FinishedPrefix(first, log[..j], t);
    }
  }

  lemma PrefixAt<T>(a: seq<T>, x: T, b: seq<T>, c: seq<T>)
    requires a + [x] <= b
    ensures |a| < |b + c| && (b + c)[|a|] == x
  {
    assert (a + [x])[|a|] == x;
  }
}
