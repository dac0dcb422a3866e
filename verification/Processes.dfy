/**
  Processes under round robin. The front of the list runs; only its pages are mapped. Switching
  unmaps them and maps those of the next process; forking copies every page to a new frame. Seen
  from outside, every process has a memory of its own.
 */
module Processes {
  import opened AddressSpace
  import opened PageTables
  import opened Ledger
  import opened KernelPages
  import opened Supply
  import opened Outcomes
  import Booting
  import Extents

  /** What a frame holds. */
  type Content = c: seq<byte> | |c| == PAGE witness ZeroPage()

  function ZeroPage(): seq<byte> {
    seq(PAGE, i => 0)
  }

  const EB_INT_ENABLE: nat := 0x200

  /** Code and data segments: those of the kernel or those of user programs. */
  datatype Segment = KernelCode | KernelData | UserCode | UserData
  {
    /** The privilege ring a segment belongs to. */
    function Ring(): nat {
      if KernelCode? || KernelData? then 0 else 3
    }
  }

  /** What is saved of a process that is interrupted, and loaded when it goes on. */
  datatype Context = Context(ip: nat, sp: nat, flags: nat, cs: Segment, ss: Segment, registers: seq<nat>)

  /** A process's record. `data` stands for the four data segment registers, `descriptors` for its
      open files; a null pointer and the root directory are 0. */
  datatype Process = Process(id: nat, exited: bool, exitCode: nat, context: Context, data: Segment,
                             interruptStack: nat, esp0: nat, heapStart: nat, heapEnd: nat,
                             descriptors: map<int, nat>, lastFd: int, directory: nat, errnoLocation: nat,
                             previousErrno: int, childs: seq<nat>, allocations: map<nat, nat>)

  /** A record as create_process fills it in, but for the interrupt stack. */
  function NewProcess(id: nat, ip: nat, sp: nat, privileged: bool): Process {
    var cs, ds := if privileged then KernelCode else UserCode, if privileged then KernelData else UserData;
    Process(id, false, 0, Context(ip, sp, EB_INT_ENABLE, cs, ds, []), ds, 0, 0, 0, 0, map[], 0, 0, 0, 0, [], map[])
  }

  // ---------------------------------------------------------------- as seen from outside

  datatype Private = Private(id: nat, memory: map<nat, Content>)

  datatype System = System(next: nat, processes: seq<Private>)

  datatype Event =
    | Tick
    | Create
    | Fork
    | Write(page: nat, content: Content)
    | Gain(gained: map<nat, Content>)
    | Release

  /** Round robin over processes with private memories. */
  function Step(s: System, e: Event): System
    requires s.processes != []
  {
    var front := s.processes[0];
    match e
    case Tick => s.(processes := s.processes[1..] + [front])
    case Create => System(s.next + 1, s.processes + [Private(s.next, map[])])
    case Fork => System(s.next + 1, s.processes + [Private(s.next, front.memory)])
    case Write(page, content) => s.(processes := s.processes[0 := front.(memory := front.memory[page := content])])
    case Gain(gained) => s.(processes := s.processes[0 := front.(memory := front.memory + gained)])
    case Release => s.(processes := s.processes[0 := front.(memory := map[])])
  }

  function Run(s: System, es: seq<Event>): (s': System)
    requires s.processes != []
    ensures s'.processes != []
    decreases es
  {
    if es == [] then s else Run(Step(s, es[0]), es[1..])
  }

  function Ticks(es: seq<Event>): nat {
    if es == [] then 0 else (if es[0].Tick? then 1 else 0) + Ticks(es[1..])
  }

  /** Whatever the running processes do, one at position i moves up by one with each tick, and
      nothing of it changes before its turn: with the i-th tick it becomes current as it was. */
  lemma {:induction false} Turn(s: System, es: seq<Event>, i: nat)
    requires i < |s.processes|
    requires Ticks(es) < i || (Ticks(es) == i && es != [] && es[|es| - 1].Tick?)
    ensures i - Ticks(es) < |Run(s, es).processes|
    ensures Run(s, es).processes[i - Ticks(es)] == s.processes[i]
    decreases es
  {
    if es != [] {
      LastTick(es);
      var s' := Step(s, es[0]);
      var i' := if es[0].Tick? then i - 1 else i;
      assert s'.processes[i'] == s.processes[i];
      if es[1..] != [] {
        LastTick(es[1..]);
        Turn(s', es[1..], i');
      }
    }
  }

  /** A process stopped and resumed once is as it was, whatever ran between. */
  lemma AroundOnce(s: System, es: seq<Event>)
    requires s.processes != [] && Ticks(es) == |s.processes| - 1
    requires if |s.processes| == 1 then es == [] else es != [] && es[|es| - 1].Tick?
    ensures Run(s, [Tick] + es).processes[0] == s.processes[0]
  {
    assert ([Tick] + es)[1..] == es;
    if es != [] {
      Turn(Step(s, Tick), es, |s.processes| - 1);
    }
  }

  /** What the current process has done to its memory is what it finds at its next turn: the page
      written, the pages gained, or nothing at all, and all else as it was. */
  lemma NextTurn(s: System, e: Event, es: seq<Event>)
    requires s.processes != [] && (e.Write? || e.Gain? || e.Release?) && Ticks(es) == |s.processes| - 1
    requires if |s.processes| == 1 then es == [] else es != [] && es[|es| - 1].Tick?
    ensures var was, now := s.processes[0], Run(s, [e, Tick] + es).processes[0];
      && now.id == was.id
      && (forall p {:trigger p in now.memory} :: p in now.memory <==>
            match e
            case Write(page, _) => p in was.memory || p == page
            case Gain(gained) => p in was.memory || p in gained
            case _ => false)
      && (forall p {:trigger now.memory[p]} :: p in now.memory ==>
            match e
            case Write(page, content) => now.memory[p] == if p == page then content else was.memory[p]
            case Gain(gained) => now.memory[p] == if p in gained then gained[p] else was.memory[p]
            case _ => false)
  {
    hide Run;
    RunOne(s, [e, Tick] + es);
    assert ([e, Tick] + es)[1..] == [Tick] + es;
    AroundOnce(Step(s, e), es);
  }

  lemma RunOne(s: System, es: seq<Event>)
    requires s.processes != [] && es != []
    ensures Run(s, es) == Run(Step(s, es[0]), es[1..])
  {
  }

  /** A process just made is last in the round: with as many ticks as there were processes before it is
      current, a forked one with the memory its parent had, a created one with none. */
  lemma FirstTurn(s: System, e: Event, es: seq<Event>)
    requires s.processes != [] && (e.Fork? || e.Create?)
    requires Ticks(es) == |s.processes| && es != [] && es[|es| - 1].Tick?
    ensures Run(s, [e] + es).processes[0].id == s.next
    ensures Run(s, [e] + es).processes[0].memory == if e.Fork? then s.processes[0].memory else map[]
  {
    hide Run;
    RunOne(s, [e] + es);
    assert ([e] + es)[1..] == es;
    Turn(Step(s, e), es, |s.processes|);
  }

  lemma {:induction false} LastTick(es: seq<Event>)
    requires es != []
    ensures es[|es| - 1].Tick? ==> Ticks(es) > 0
    ensures |es| > 1 ==> es[|es| - 1] == es[1..][|es| - 2]
  {
    if |es| > 1 {
      LastTick(es[1..]);
    }
  }

  ghost predicate IdsOk(s: System) {
    && (forall i {:trigger s.processes[i]} :: 0 <= i < |s.processes| ==> s.processes[i].id < s.next)
    && (forall i, j {:trigger s.processes[i], s.processes[j]} :: 0 <= i < j < |s.processes| ==>
        s.processes[i].id != s.processes[j].id)
  }

  ghost predicate HasId(s: System, id: nat) {
    exists i {:trigger s.processes[i]} :: 0 <= i < |s.processes| && s.processes[i].id == id
  }

  /** Ids stay unique over every run, and whatever is made during a run gets an id above all those
      there were before it: ids increase in the order of creation. */
  lemma {:induction false} IdsStayUnique(s: System, es: seq<Event>)
    requires s.processes != [] && IdsOk(s)
    ensures IdsOk(Run(s, es)) && s.next <= Run(s, es).next
    ensures forall id: nat {:trigger HasId(Run(s, es), id)} :: HasId(Run(s, es), id) ==> HasId(s, id) || s.next <= id
    ensures forall id: nat {:trigger HasId(s, id)} :: HasId(s, id) ==> HasId(Run(s, es), id) && id < s.next
    decreases es
  {
    hide HasId, Step;
    if es != [] {
      IdsStep(s, es[0]);
      IdsStayUnique(Step(s, es[0]), es[1..]);
    }
    IdsBelow(s);
  }

  lemma IdsBelow(s: System)
    requires IdsOk(s)
    ensures forall id: nat {:trigger HasId(s, id)} :: HasId(s, id) ==> id < s.next
  {
  }

  lemma TickIds(s: System)
    requires s.processes != [] && IdsOk(s)
    ensures IdsOk(Step(s, Tick)) && Step(s, Tick).next == s.next
    ensures forall id: nat {:trigger HasId(s, id)} {:trigger HasId(Step(s, Tick), id)} ::
      HasId(Step(s, Tick), id) <==> HasId(s, id)
  {
    var s', n := Step(s, Tick), |s.processes|;
    assert forall i {:trigger s'.processes[i]} ::
      0 <= i < n ==> s'.processes[i] == s.processes[if i == n - 1 then 0 else i + 1];
    forall id: nat | HasId(s, id) ensures HasId(s', id) {
      var i :| 0 <= i < n && s.processes[i].id == id;
      assert s'.processes[if i == 0 then n - 1 else i - 1].id == id;
    }
  }

  /** A single event makes at most one process, which gets the next id. */
  lemma IdsStep(s: System, e: Event)
    requires s.processes != [] && IdsOk(s)
    ensures IdsOk(Step(s, e)) && Step(s, e).processes != []
    ensures Step(s, e).next == s.next + (if e.Create? || e.Fork? then 1 else 0)
    ensures forall id: nat {:trigger HasId(Step(s, e), id)} {:trigger HasId(s, id)} ::
              HasId(Step(s, e), id) <==> HasId(s, id) || (id == s.next && (e.Create? || e.Fork?))
  {
    if e.Tick? {
      TickIds(s);
    } else {
      var s', n := Step(s, e), |s.processes|;
      assert forall i {:trigger s'.processes[i]} :: 0 <= i < n ==> s'.processes[i].id == s.processes[i].id;
      forall id: nat | HasId(s, id) ensures HasId(s', id) {
        var i :| 0 <= i < n && s.processes[i].id == id;
        assert s'.processes[i].id == id;
      }
      assert e.Create? || e.Fork? ==> s'.processes[n].id == s.next;
    }
  }

  /** So a process waits exactly as many ticks as there are processes before it: with fewer, another
      one is current. */
  lemma NotBefore(s: System, es: seq<Event>, i: nat)
    requires i < |s.processes| && IdsOk(s) && Ticks(es) < i
    ensures Run(s, es).processes[0].id != s.processes[i].id
  {
    IdsStayUnique(s, es);
    Turn(s, es, i);
    var s' := Run(s, es);
    assert s'.processes[0].id != s'.processes[i - Ticks(es)].id;
  }

  // ---------------------------------------------------------------- frames of waiting processes

  /** A process not mapped: its frames are kept for it, each of its pages has its own, and their
      tables exist. */
  ghost predicate Kept(m: map<nat, nat>, b: Books) {
    && (forall p {:trigger p in m} {:trigger m[p]} :: p in m ==> p < KERNEL && m[p] in b.loose && HasTable(b.dir, p))
    && (forall p, q {:trigger m[p], m[q]} :: p in m && q in m && p != q ==> m[p] != m[q])
  }

  ghost predicate HeldBySome(list: seq<Process>, from: nat, f: nat) {
    exists i {:trigger list[i]} :: from <= i < |list| && f in FramesOf(list[i].allocations)
  }

  /** The processes from a position on are kept, no two on one frame; no frame is kept for nobody. */
  ghost predicate Waiting(list: seq<Process>, from: nat, b: Books) {
    && (forall i {:trigger list[i]} :: from <= i < |list| ==> Kept(list[i].allocations, b))
    && (forall i, j {:trigger list[i], list[j]} :: from <= i < j < |list| ==>
          FramesOf(list[i].allocations) !! FramesOf(list[j].allocations))
    && (forall f {:trigger f in b.loose} :: f in b.loose ==> HeldBySome(list, from, f))
  }

  lemma KeptOn(m: map<nat, nat>, a: Books, b: Books)
    requires Kept(m, a) && a.loose <= b.loose && forall p :: HasTable(a.dir, p) ==> HasTable(b.dir, p)
    ensures Kept(m, b)
  {
  }

  /** Nothing that leaves frames and tables of waiting processes alone disturbs them. */
  lemma WaitingOn(list: seq<Process>, list': seq<Process>, a: Books, b: Books)
    requires Waiting(list, 1, a) && a.loose == b.loose && (forall p :: HasTable(a.dir, p) ==> HasTable(b.dir, p))
    requires |list'| == |list| && forall i {:trigger list'[i]} :: 1 <= i < |list| ==>
      list'[i].allocations == list[i].allocations
    ensures Waiting(list', 1, b)
  {
    hide FramesOf, HasTable;
    forall i | 1 <= i < |list'| ensures Kept(list'[i].allocations, b) {
      KeptOn(list[i].allocations, a, b);
    }
    forall f | f in b.loose ensures HeldBySome(list', 1, f) {
      assert HeldBySome(list, 1, f);
      var i :| 1 <= i < |list| && f in FramesOf(list[i].allocations);
      assert f in FramesOf(list'[i].allocations);
    }
  }

  /** A new process at the end, with no pages yet. */
  lemma WaitingMore(list: seq<Process>, b: Books, q: Process)
    requires Waiting(list, 1, b) && q.allocations == map[] && list != []
    ensures Waiting(list + [q], 1, b)
  {
    var list' := list + [q];
    assert FramesOf(q.allocations) == {};
    forall f | f in b.loose ensures HeldBySome(list', 1, f) {
      assert HeldBySome(list, 1, f);
      var i :| 1 <= i < |list| && f in FramesOf(list[i].allocations);
      assert list'[i] == list[i];
    }
  }

  lemma FramesGain(m: map<nat, nat>, p: nat, f: nat)
    requires p !in m
    ensures FramesOf(m[p := f]) == FramesOf(m) + {f}
  {
    var m' := m[p := f];
    assert m'[p] == f;
    assert forall q :: q in m ==> m'[q] == m[q];
  }

  lemma KeptGains(m: map<nat, nat>, a: Books, b: Books, p: nat, f: nat)
    requires Kept(m, a) && a.loose <= b.loose && f in b.loose && f !in a.loose && p < KERNEL && HasTable(b.dir, p)
    requires forall q :: HasTable(a.dir, q) ==> HasTable(b.dir, q)
    ensures Kept(m[p := f], b)
  {
    hide HasTable;
  }

  /** The last process gets a page on a frame nobody had. */
  lemma WaitingGains(list: seq<Process>, a: Books, b: Books, p: nat, f: nat)
    requires Waiting(list, 1, a) && |list| > 1 && b.loose == a.loose + {f} && f !in a.loose
    requires (forall q :: HasTable(a.dir, q) ==> HasTable(b.dir, q)) && p < KERNEL && HasTable(b.dir, p)
    requires p !in list[|list| - 1].allocations
    ensures var n := |list| - 1; Waiting(list[n := list[n].(allocations := list[n].allocations[p := f])], 1, b)
  {
    hide HasTable, FramesOf, Kept;
    var n := |list| - 1;
    var m, m' := list[n].allocations, list[n].allocations[p := f];
    var list' := list[n := list[n].(allocations := m')];
    KeptGains(m, a, b, p, f);
    FramesGain(m, p, f);
    forall i | 1 <= i < n ensures Kept(list[i].allocations, b) && f !in FramesOf(list[i].allocations) {
      KeptOn(list[i].allocations, a, b);
      WaitingFrames(list, 1, a, i, f);
    }
    forall g | g in b.loose ensures HeldBySome(list', 1, g) {
      if g == f {
        assert f in FramesOf(list'[n].allocations);
      } else {
        assert HeldBySome(list, 1, g);
        var i :| 1 <= i < |list| && g in FramesOf(list[i].allocations);
        assert g in FramesOf(list'[i].allocations);
      }
    }
  }

  /** The current process stops being mapped: now all are waiting. */
  lemma FrontJoins(list: seq<Process>, a: Books, b: Books)
    requires Waiting(list, 1, a) && list != [] && a.Ok() && UserOk(a.owner, list[0].allocations)
    requires SwitchedOff(a, b, list[0].allocations)
    ensures Waiting(list, 0, b) && a.frames == b.frames
  {
    hide TablesOk, TableFramesOk, MapsOk, HomesOk, RecordsOk, SpaceOk, HasTable;
    var m := list[0].allocations;
    forall p | p in m ensures p < KERNEL && m[p] in b.loose && HasTable(b.dir, p) && m[p] !in a.loose {
      assert p in a.owner && a.owner[p] == m[p];
      UserTable(a, p);
    }
    forall i | 1 <= i < |list| ensures Kept(list[i].allocations, b) && FramesOf(m) !! FramesOf(list[i].allocations) {
      KeptOn(list[i].allocations, a, b);
    }
    forall f | f in b.loose ensures HeldBySome(list, 0, f) {
      if f in FramesOf(m) {
        assert list[0].allocations == m;
      } else {
        assert HeldBySome(list, 1, f);
        var i :| 1 <= i < |list| && f in FramesOf(list[i].allocations);
      }
    }
  }

  lemma UserTable(b: Books, p: nat)
    requires b.Ok() && p in b.owner && p < KERNEL
    ensures HasTable(b.dir, p)
  {
    Looked(b, p);
  }

  function Rotate<T>(s: seq<T>): seq<T>
    requires s != []
  {
    s[1..] + [s[0]]
  }

  lemma WaitingRotated(list: seq<Process>, list': seq<Process>, b: Books)
    requires Waiting(list, 0, b) && list != [] && |list'| == |list|
    requires forall i {:trigger list'[i]} :: 0 <= i < |list| ==> list'[i].allocations == Rotate(list)[i].allocations
    ensures Waiting(list', 0, b)
  {
    hide Kept, FramesOf;
    var n := |list|;
    forall i | 0 <= i < n ensures list'[i].allocations == list[if i == n - 1 then 0 else i + 1].allocations {
    }
    forall f | f in b.loose ensures HeldBySome(list', 0, f) {
      assert HeldBySome(list, 0, f);
      var i :| 0 <= i < n && f in FramesOf(list[i].allocations);
      assert list'[if i == 0 then n - 1 else i - 1].allocations == list[i].allocations;
    }
  }

  lemma KeptLeaves(m: map<nat, nat>, front: map<nat, nat>, b: Books, c: Books)
    requires Kept(m, b) && FramesOf(front) !! FramesOf(m) && SwitchedOn(b, c, front)
    ensures Kept(m, c)
  {
    hide HasTable;
    assert forall p :: p in m ==> m[p] in FramesOf(m);
  }

  /** The new front is mapped; the others go on waiting. */
  lemma FrontLeaves(list: seq<Process>, b: Books, c: Books)
    requires Waiting(list, 0, b) && list != [] && SwitchedOn(b, c, list[0].allocations)
    ensures Waiting(list, 1, c) && b.frames == c.frames
  {
    hide HasTable, FramesOf, Kept;
    forall i | 1 <= i < |list| ensures Kept(list[i].allocations, c) {
      KeptLeaves(list[i].allocations, list[0].allocations, b, c);
    }
    forall f | f in c.loose ensures HeldBySome(list, 1, f) {
      assert f in b.loose && HeldBySome(list, 0, f);
      var i :| 0 <= i < |list| && f in FramesOf(list[i].allocations);
      assert i != 0;
    }
  }

  lemma FrontDormant(list: seq<Process>, a: Books, b: Books, user: map<nat, nat>)
    requires Waiting(list, 0, b) && list != [] && SwitchedOff(a, b, user)
    ensures Dormant(b, list[0].allocations)
    ensures forall p :: p in list[0].allocations ==> HasTable(b.dir, p)
  {
    hide HasTable, FramesOf;
    assert Kept(list[0].allocations, b);
  }

  ghost predicate Separated(list: seq<Process>, b: Books) {
    && (forall i, j {:trigger list[i], list[j]} :: 0 <= i < j < |list| ==>
          FramesOf(list[i].allocations) !! FramesOf(list[j].allocations))
    && (forall i, p {:trigger list[i].allocations[p]} :: 0 <= i < |list| && p in list[i].allocations ==>
          list[i].allocations[p] < |b.frames| && b.frames[list[i].allocations[p]])
    && |b.dir| == ENTRIES && TablesOk(b.dir, b.tables) && list != []
    && (forall p {:trigger Translate(b.dir, b.tables, p)} :: 0 <= p < KERNEL ==>
          Translate(b.dir, b.tables, p) == if p in list[0].allocations then Some(list[0].allocations[p]) else None)
    && (forall p, write {:trigger Reach(b.dir, b.tables, p, true, write)} :: 0 <= p < PAGES ==>
          Reach(b.dir, b.tables, p, true, write) ==
            if p in list[0].allocations then Some(list[0].allocations[p]) else None)
    && (forall f {:trigger b.frames[f]} :: 0 <= f < |b.frames| && b.frames[f] ==>
          OwnedBySome(b.owner, f) || HeldBySome(list, 1, f))
  }

  /** No frame is in two processes' maps, all of them are marked used, the pages present below the
      kernel are exactly the current process's on their recorded frames, unprivileged code reaches these
      and no others, and no frame is lost. */
  lemma Separation(list: seq<Process>, b: Books)
    requires list != [] && b.Ok() && UserOk(b.owner, list[0].allocations) && Waiting(list, 1, b)
    ensures Separated(list, b)
  {
    hide TableFramesOk, MapsOk, HomesOk, RecordsOk, SpaceOk, Translate, Reach, HasTable, FramesOf, OwnedBySome,
        HeldBySome;
    forall p | 0 <= p < KERNEL
      ensures Translate(b.dir, b.tables, p) == if p in list[0].allocations then Some(list[0].allocations[p]) else None
    {
      Walk(b, p);
    }
    forall p, write | 0 <= p < PAGES
      ensures Reach(b.dir, b.tables, p, true, write) ==
              if p in list[0].allocations then Some(list[0].allocations[p]) else None
    {
      UserWalk(b, p, write);
      UserMap(b, list[0].allocations, p);
    }
    forall j | 1 <= j < |list| ensures FramesOf(list[0].allocations) !! FramesOf(list[j].allocations) {
      FrontApart(list, b, j);
    }
    forall i, p | 0 <= i < |list| && p in list[i].allocations
      ensures list[i].allocations[p] < |b.frames| && b.frames[list[i].allocations[p]]
    {
      assert i == 0 || Kept(list[i].allocations, b);
    }
  }

  lemma FrontApart(list: seq<Process>, b: Books, j: nat)
    requires list != [] && b.Ok() && UserOk(b.owner, list[0].allocations) && Waiting(list, 1, b) && 1 <= j < |list|
    ensures FramesOf(list[0].allocations) !! FramesOf(list[j].allocations)
  {
    hide TablesOk, TableFramesOk, MapsOk, HomesOk, RecordsOk, SpaceOk, HasTable;
    assert Kept(list[j].allocations, b);
  }

  // ---------------------------------------------------------------- interrupt stacks

  /** A page of the kernel's own, recorded and mapped. */
  ghost predicate IsStack(a: nat, b: Books) {
    a % PAGE == 0 && a / PAGE in b.ledger && a / PAGE !in b.stale
  }

  /** Every process has an interrupt stack of its own, and enters the kernel at its end. */
  ghost predicate StacksOk(list: seq<Process>, b: Books) {
    && (forall i {:trigger list[i]} :: 0 <= i < |list| ==>
          IsStack(list[i].interruptStack, b) && list[i].esp0 == list[i].interruptStack + PAGE)
    && (forall i, j {:trigger list[i], list[j]} :: 0 <= i < j < |list| ==>
          list[i].interruptStack != list[j].interruptStack)
  }

  ghost predicate SameStack(p: Process, q: Process) {
    p.interruptStack == q.interruptStack && p.esp0 == q.esp0
  }

  lemma StackIs(list: seq<Process>, b: Books, i: nat)
    requires StacksOk(list, b) && i < |list|
    ensures list[i].interruptStack % PAGE == 0 && list[i].interruptStack / PAGE in b.ledger
  {
    assert IsStack(list[i].interruptStack, b);
  }

  /** Records of stacks stay while nothing but other records goes. */
  lemma StacksStay(list: seq<Process>, list': seq<Process>, a: Books, b: Books)
    requires StacksOk(list, a) && |list'| == |list|
    requires forall i {:trigger list'[i]} :: 0 <= i < |list| ==> SameStack(list[i], list'[i])
    requires forall p :: p in a.ledger && p !in a.stale ==> p in b.ledger && p !in b.stale
    ensures StacksOk(list', b)
  {
    forall i | 0 <= i < |list'|
      ensures IsStack(list'[i].interruptStack, b) && list'[i].esp0 == list'[i].interruptStack + PAGE
    {
      assert SameStack(list[i], list'[i]) && IsStack(list[i].interruptStack, a);
    }
    forall i, j | 0 <= i < j < |list'| ensures list'[i].interruptStack != list'[j].interruptStack {
      assert SameStack(list[i], list'[i]) && SameStack(list[j], list'[j]);
    }
  }

  lemma StacksGrow(list: seq<Process>, list': seq<Process>, a: Books, b: Books, x: set<nat>)
    requires StacksOk(list, a) && |list'| == |list| && Grew(a, b, x)
    requires forall i {:trigger list'[i]} :: 0 <= i < |list| ==> SameStack(list[i], list'[i])
    ensures StacksOk(list', b)
  {
    StacksStay(list, list', a, b);
  }

  lemma StacksRotate(list: seq<Process>, list': seq<Process>, a: Books, b: Books)
    requires StacksOk(list, a) && list != [] && |list'| == |list| && b.ledger == a.ledger && b.stale == a.stale
    requires forall i {:trigger list'[i]} :: 0 <= i < |list| ==> SameStack(Rotate(list)[i], list'[i])
    ensures StacksOk(list', b)
  {
    var n := |list|;
    forall i | 0 <= i < n ensures SameStack(list[if i == n - 1 then 0 else i + 1], list'[i]) {
      assert SameStack(Rotate(list)[i], list'[i]);
    }
    forall i | 0 <= i < n
      ensures IsStack(list'[i].interruptStack, b) && list'[i].esp0 == list'[i].interruptStack + PAGE
    {
      assert IsStack(list[if i == n - 1 then 0 else i + 1].interruptStack, a);
    }
  }

  lemma SwitchedStacks(list: seq<Process>, list': seq<Process>, a: Books, b: Books, c: Books, m: map<nat, nat>,
                       m': map<nat, nat>)
    requires StacksOk(list, a) && list != [] && |list'| == |list| && SwitchedOff(a, b, m) && SwitchedOn(b, c, m')
    requires forall i {:trigger list'[i]} :: 0 <= i < |list| ==> SameStack(Rotate(list)[i], list'[i])
    ensures StacksOk(list', c)
  {
    hide FramesOf;
    StacksRotate(list, list', a, c);
  }

  /** A page that was free is nobody's stack yet. */
  lemma StacksMore(list: seq<Process>, list': seq<Process>, a: Books, b: Books, page: nat)
    requires a.Ok() && StacksOk(list, a) && Grew(a, b, {}) && page in a.free && page in b.ledger
    requires |list'| == |list| + 1 && list'[|list|].interruptStack == page * PAGE
    requires list'[|list|].esp0 == list'[|list|].interruptStack + PAGE
    requires forall i {:trigger list'[i]} :: 0 <= i < |list| ==> SameStack(list[i], list'[i])
    ensures StacksOk(list', b) && list'[|list|].interruptStack / PAGE == page
  {
    hide Agree, HomesOk;
    var n := |list|;
    assert page !in a.ledger && page !in a.stale && page * PAGE / PAGE == page;
    StacksGrow(list, list'[..n], a, b, {});
    forall i | 0 <= i < n ensures list'[i].interruptStack != list'[n].interruptStack && list'[i] == list'[..n][i] {
      assert IsStack(list[i].interruptStack, a) && SameStack(list[i], list'[i]);
    }
  }

  /** Unmapping a page that was free before leaves the stacks alone. */
  lemma StacksUnmade(list: seq<Process>, list': seq<Process>, a: Books, b: Books, c: Books, page: nat)
    requires a.Ok() && StacksOk(list, a) && |list'| == |list| && Grew(a, b, {}) && page in a.free && Unmade(b, c, page)
    requires forall i {:trigger list'[i]} :: 0 <= i < |list| ==> SameStack(list[i], list'[i])
    ensures StacksOk(list', c)
  {
    hide Agree, HomesOk;
    StacksStay(list, list', a, c);
  }

  lemma StacksCopied(list: seq<Process>, list': seq<Process>, a: Books, b: Books, c: Books, page: nat, frame: nat)
    requires a.Ok() && StacksOk(list, a) && |list'| == |list| && Temporary(a, b, page, frame) && Unmade(b, c, page)
    requires forall i {:trigger list'[i]} :: 0 <= i < |list| ==> SameStack(list[i], list'[i])
    ensures StacksOk(list', c)
  {
    hide Books.Ok;
    StacksUnmade(list, list', a, b, c, page);
  }

  /** Nor does giving back a page of the process. */
  lemma StacksGiven(list: seq<Process>, list': seq<Process>, a: Books, b: Books, page: nat)
    requires a.Ok() && StacksOk(list, a) && |list'| == |list| && GaveBack(a, b, page) && page < KERNEL
    requires forall i {:trigger list'[i]} :: 0 <= i < |list| ==> SameStack(list[i], list'[i])
    ensures StacksOk(list', b)
  {
    hide Agree, HomesOk;
    StacksStay(list, list', a, b);
  }

  // ---------------------------------------------------------------- private memories

  ghost function MemoryOf(m: map<nat, nat>, memory: seq<Content>): map<nat, Content> {
    map p | p in m && m[p] < |memory| :: memory[m[p]]
  }

  ghost function Outside(p: Process, memory: seq<Content>): Private {
    Private(p.id, MemoryOf(p.allocations, memory))
  }

  ghost function SystemOf(list: seq<Process>, memory: seq<Content>, next: nat): (s: System)
    ensures |s.processes| == |list| && s.next == next
    ensures forall i {:trigger s.processes[i]} :: 0 <= i < |list| ==> s.processes[i] == Outside(list[i], memory)
  {
    System(next, seq(|list|, i requires 0 <= i < |list| => Outside(list[i], memory)))
  }

  /** Writing a frame shows in the one process that has it. */
  lemma MemoryWritten(m: map<nat, nat>, memory: seq<Content>, f: nat, c: Content)
    requires f < |memory| && f !in FramesOf(m)
    ensures MemoryOf(m, memory[f := c]) == MemoryOf(m, memory)
  {
    assert forall p :: p in m ==> m[p] in FramesOf(m);
  }

  lemma MemoryWrittenAt(m: map<nat, nat>, memory: seq<Content>, p: nat, c: Content)
    requires p in m && m[p] < |memory| && forall q :: q in m && q != p ==> m[q] != m[p]
    ensures MemoryOf(m, memory[m[p] := c]) == MemoryOf(m, memory)[p := c]
  {
  }

  // ---------------------------------------------------------------- the scheduler

  class Scheduler {
    const pages: PageAllocator
    var list: seq<Process>            // process_list
    var current: nat                  // id of the current process
    var lastProcessId: nat
    var memory: seq<Content>          // of each frame

    ghost function Seen(): System
      reads this
    {
      SystemOf(list, memory, lastProcessId)
    }

    ghost predicate Sane()
      reads this, pages, pages.space
    {
      && pages.Valid() && pages.UserMapped() && !pages.lock && pages.Now().InFlight() == {}
      && list != [] && list[0].id == current && list[0].allocations == pages.user
      && Waiting(list, 1, pages.Now()) && IdsOk(Seen()) && |memory| == |pages.frames|
      && StacksOk(list, pages.Now())
    }

    /** The root task, which has no pages and has been given an interrupt stack. */
    constructor (pages: PageAllocator, memory: seq<Content>, interruptStack: nat)
      requires pages.Valid() && pages.UserMapped() && !pages.lock && pages.Now().InFlight() == {}
      requires pages.user == map[] && pages.loose == {} && |memory| == |pages.frames|
      requires IsStack(interruptStack, pages.Now())
      ensures Sane() && this.pages == pages && Seen() == System(1, [Private(0, map[])])
      ensures list == [NewProcess(0, 0, 0, true).(interruptStack := interruptStack, esp0 := interruptStack + PAGE)]
    {
      hide Books.Ok, Flight, UserOk, Extents.FreeOf, Extents.Valid;
      this.pages, this.memory, lastProcessId, current := pages, memory, 1, 0;
      list := [NewProcess(0, 0, 0, true).(interruptStack := interruptStack, esp0 := interruptStack + PAGE)];
    }

    /** Switch to the next process in the list, and go on where it was. No panic is possible. */
    method Schedule(context: Context) returns (resumed: Context, r: Fault)
      requires Sane()
      modifies this, pages, pages.space
      ensures r.Fine? && Sane() && Seen() == Step(old(Seen()), Tick)
      ensures list == Rotate(old(list)[0 := old(list)[0].(context := context)]) && resumed == list[0].context
    {
      hide Books.Ok, Flight, StacksOk, UserOk, Kept, FramesOf, HeldBySome, Waiting, SwitchedOff, SwitchedOn, Dormant,
          Grew, HasTable, SystemOf, Extents.FreeOf, Extents.Valid, IdsOk;
      ghost var b0, list0 := pages.Now(), list;
      resumed := context;
      if current != list[0].id {
        return resumed, OrderFault;
      }
      list := list[0 := list[0].(context := context)];
      r := pages.UserspaceDisable();
      if r != Fine {
        return;
      }
      ghost var b1 := pages.Now();
      FrontJoins(list0, b0, b1);
      list := Rotate(list);
      WaitingRotated(list0, list, b1);
      current := list[0].id;
      FrontDormant(list, b0, b1, list0[0].allocations);
      pages.user := list[0].allocations;
      r := pages.UserspaceEnable();
      if r != Fine {
        return;
      }
      FrontLeaves(list, b1, pages.Now());
      Rotated(list0, list, memory, lastProcessId);
      SwitchedStacks(list0, list, b0, b1, pages.Now(), list0[0].allocations, list[0].allocations);
      resumed := list[0].context;
    }

    /** A new process at the end of the list, with no pages. */
    method CreateProcess(ip: nat, sp: nat, privileged: bool) returns (r: Fault)
      requires Sane()
      modifies this, pages, pages.space
      ensures r.Fine? || Scarce(r)
      ensures r.Fine? ==> Sane() && Seen() == Step(old(Seen()), Create) && current == old(current)
      ensures r.Fine? ==> |list| == |old(list)| + 1 && list[..|old(list)|] == old(list)
      ensures r.Fine? ==> var q := list[|old(list)|];
        && q == NewProcess(old(lastProcessId), ip, sp, privileged).(interruptStack := q.interruptStack, esp0 := q.esp0)
        && q.interruptStack % PAGE == 0 && q.interruptStack / PAGE in pages.ledger
        && q.interruptStack / PAGE in old(pages.Now().free)
        && q.context.cs == (if privileged then KernelCode else UserCode)
        && q.context.ss == q.data == (if privileged then KernelData else UserData)
        && q.context.cs.Ring() == q.data.Ring() == (if privileged then 0 else 3)
        && q.context.ip == ip && q.context.sp == sp && q.context.flags == EB_INT_ENABLE && !q.exited
        && q.id == old(lastProcessId) && q.allocations == map[] && q.descriptors == map[] && q.childs == []
        && q.heapStart == q.heapEnd == q.directory == q.errnoLocation == 0 && q.lastFd == q.previousErrno == 0
      ensures Did(Take(old(pages.Supply()), 1, pages.capacity), r, pages.Supply())
      ensures var s := StockOf(old(pages.Supply()));
        && (Covered(old(pages.Supply())) ==> (r.Fine? <==> Suffices(s, 1, 1, 1, pages.capacity)))
        && (Suffices(s, 3, 1, 2, pages.capacity) ==> r.Fine? || r.FailedToSave?)
      ensures r.FailedToSave? ==> !Ready(old(pages.Now()))
    {
      hide Books.Ok, Flight, StacksOk, UserOk, Kept, FramesOf, HeldBySome, Waiting, Grew, HasTable, Ready,
          Extents.FreeOf, Extents.Valid, IdsOk, MemoryOf, Take, Covered, StockOf, Suffices, NextPage, AllUsed, PoolOf;
      ghost var b0, list0 := pages.Now(), list;
      OneIsSingle(pages.Supply(), pages.capacity);
      SinglesMean(pages.Supply(), 1, pages.capacity);
      var n := |list|;
      list := list + [NewProcess(lastProcessId, ip, sp, privileged)];
      lastProcessId := lastProcessId + 1;
      var stack;
      stack, r := pages.AllocatePages(1);
      if r != Fine {
        return;
      }
      list := list[n := list[n].(interruptStack := stack * PAGE, esp0 := stack * PAGE + PAGE)];
      Added(list0, list, b0, pages.Now(), pages.user, memory, lastProcessId);
      StacksMore(list0, list, b0, pages.Now(), stack);
      StackIs(list, pages.Now(), n);
    }

    /** A kernel page on a fresh frame, to write the copy through; and where reading the page copied and
        writing to that page lead. */
    method MapCopy(page: nat) returns (newPage: nat, newFrame: nat, from: nat, to: nat, r: Fault)
      requires Sane() && page in pages.user
      modifies pages, pages.space
      ensures r.Fine? || Scarce(r)
      ensures r.Fine? ==> pages.Valid() && pages.UserMapped() && !pages.lock && pages.user == old(pages.user)
      ensures r.Fine? ==> Temporary(old(pages.Now()), pages.Now(), newPage, newFrame) && pages.Now().InFlight() == {}
      ensures r.Fine? ==> from == pages.user[page] && to == newFrame
      ensures r.Fine? ==>
        KERNEL <= newPage < PAGES && !IsWindow(newPage) && newPage !in pages.image && newPage in pages.owner
      ensures r.Fine? ==> (pages.saveFlag ==> newPage != pages.saved.page) && newFrame < |memory| && from < |memory|
      ensures Did(Take(old(pages.Supply()), 1, pages.capacity), r, pages.Supply())
      ensures r.FailedToSave? ==> !Ready(old(pages.Now()))
    {
      hide Books.Ok, Flight, StacksOk, UserOk, Kept, FramesOf, HeldBySome, Waiting, Grew, HasTable, Ready,
          Extents.FreeOf, Extents.Valid, IdsOk, MemoryOf, SystemOf, Temporary, Take, NextPage, AllUsed, PoolOf,
          Reach;
      ghost var b0 := pages.Now();
      newFrame, from, to := 0, 0, 0;
      newPage, r := pages.AllocatePages(1);
      if r != Fine {
        return;
      }
      ghost var b1 := pages.Now();
      FreshPage(b0, b1, pages.user, newPage);
      newFrame, r := pages.KernelPageToFrame(newPage);
      if r != Fine {
        return;
      }
      TemporaryIntro(b0, b1, newPage, newFrame);
      UserBounds(b1, pages.user, memory);
      UserMap(b1, pages.user, page);
      KernelWalk(b1, page, false);
      KernelWalk(b1, newPage, true);
      from := Reach(pages.dir, pages.tables, page, false, false).value;
      to := Reach(pages.dir, pages.tables, newPage, false, true).value;
    }

    /** Copy a page to a fresh frame: a page of the kernel is mapped to it, written, and unmapped again. */
    method CopyOut(page: nat) returns (newPage: nat, newFrame: nat, r: Fault, ghost mid: Books)
      requires Sane() && page in pages.user
      modifies `memory, pages, pages.space
      ensures r.Fine? || Scarce(r)
      ensures r.Fine? ==> pages.Valid() && !pages.lock && pages.user == old(pages.user) && pages.Now().InFlight() == {}
      ensures r.Fine? ==> mid.Ok() && Temporary(old(pages.Now()), mid, newPage, newFrame)
      ensures r.Fine? ==> Unmade(mid, pages.Now(), newPage)
      ensures r.Fine? ==> newFrame < |old(memory)| && old(pages.user)[page] < |old(memory)|
      ensures r.Fine? ==> memory == old(memory)[newFrame := old(memory)[old(pages.user)[page]]]
      ensures Did(Take(old(pages.Supply()), 1, pages.capacity), r, pages.Supply())
      ensures r.FailedToSave? ==> !Ready(old(pages.Now()))
    {
      hide Books.Ok, Flight, StacksOk, UserOk, Kept, FramesOf, HeldBySome, Waiting, Grew, HasTable, Ready,
          Extents.FreeOf, Extents.Valid, IdsOk, MemoryOf, SystemOf, Unmade, Temporary, Take, PoolOf, RoomOk;
      var from, to;
      newPage, newFrame, from, to, r := MapCopy(page);
      mid := pages.Now();
      if r != Fine {
        return;
      }
      memory := memory[to := memory[from]];
      r := pages.MemoryUnmap(newPage);
      UnmadeSupply(mid, pages.Now(), newPage, pages.slots, pages.space.extents);
    }

    /** Copy one page of the current process for the last process in the list, which gets the frame. */
    method CopyPage(page: nat) returns (r: Fault)
      requires Sane() && |list| > 1 && page in pages.user && page !in list[|list| - 1].allocations
      modifies `list, `memory, pages, pages.space
      ensures r.Fine? || Scarce(r)
      ensures r.Fine? ==> Sane() && pages.user == old(pages.user) && Copied(old(list), old(memory), list, memory, page)
      ensures Did(Take(old(pages.Supply()), 1, pages.capacity), r, pages.Supply())
      ensures r.FailedToSave? ==> !Ready(old(pages.Now()))
      ensures r.Fine? && Ready(old(pages.Now())) ==> Ready(pages.Now())
    {
      hide Books.Ok, Flight, StacksOk, UserOk, Kept, FramesOf, HeldBySome, Waiting, Grew, HasTable, Ready,
          Extents.FreeOf, Extents.Valid, IdsOk, MemoryOf, SystemOf, Unmade, Copied, Temporary, Take, PoolOf,
          RoomOk;
      ghost var b0, list0, memory0 := pages.Now(), list, memory;
      var newPage, newFrame;
      ghost var mid;
      newPage, newFrame, r, mid := CopyOut(page);
      if r != Fine {
        return;
      }
      var n := |list| - 1;
      list := list[n := list[n].(allocations := list[n].allocations[page := newFrame])];
      PageCopied(list0, memory0, b0, mid, pages.Now(), pages.user, page, newPage, newFrame, lastProcessId);
      StacksCopied(list0, list, b0, mid, pages.Now(), newPage, newFrame);
    }

    /** Duplicate all pages of the current process for the last one in the list. */
    method CopyPages() returns (r: Fault)
      requires Sane() && |list| > 1 && list[|list| - 1].allocations == map[]
      modifies `list, `memory, pages, pages.space
      ensures r.Fine? || Scarce(r)
      ensures r.Fine? ==> var n := |old(list)| - 1;
        && Sane() && |list| == n + 1 && list[..n] == old(list)[..n]
        && list[n] == old(list)[n].(allocations := list[n].allocations)
        && CopiedSome(old(list)[..n], old(memory), list, memory, {})
      ensures Did(Singles(old(pages.Supply()), |old(pages.user)|, pages.capacity), r, pages.Supply())
      ensures r.FailedToSave? ==> !Ready(old(pages.Now()))
    {
      hide Books.Ok, Flight, StacksOk, UserOk, Kept, FramesOf, HeldBySome, Waiting, Grew, HasTable, Ready,
          Extents.FreeOf, Extents.Valid, IdsOk, MemoryOf, Copied, SystemOf, CopiedSome, Take, PoolOf,
          RoomOk, Singles;
      NoSingles(pages.Supply(), pages.capacity);
      ghost var b0, list1, memory0, p0, m := pages.Now(), list, memory, pages.Supply(), |pages.user|;
      ghost var n := |list| - 1;
      CopyStart(list[..n], list, memory);
      var todo := pages.user.Keys;
      while todo != {}
        invariant todo <= pages.user.Keys && Sane()
        invariant |list| == n + 1 && list[..n] == list1[..n] && list[n] == list1[n].(allocations := list[n].allocations)
        invariant pages.user == list1[..n][0].allocations
        invariant CopiedSome(list1[..n], memory0, list, memory, todo)
        invariant Ready(b0) ==> Ready(pages.Now())
        invariant |todo| <= m && Singles(p0, m - |todo|, pages.capacity) == Outcome(Fine, pages.Supply())
        decreases |todo|
      {
        var page :| page in todo;
        ghost var list2, memory2 := list, memory;
        CopyNext(list1[..n], memory0, list, memory, todo, page);
        SinglesNext(p0, m - |todo|, pages.capacity);
        r := CopyPage(page);
        if r != Fine {
          SinglesStop(p0, m - |todo| + 1, m, pages.capacity);
          return;
        }
        CopyMore(list1[..n], memory0, list2, memory2, list, memory, todo, page);
        todo := todo - {page};
      }
      r := Fine;
    }

    /** The child's record, an interrupt stack for it, and its entry in the parent's list. */
    method StartChild(context: Context, ring0: bool) returns (r: Fault)
      requires Sane()
      modifies this, pages, pages.space
      ensures r.Fine? || r.RingZero? || Scarce(r)
      ensures r.RingZero? <==> ring0
      ensures r.Fine? ==>
        Sane() && current == old(current) && lastProcessId == old(lastProcessId) + 1 && memory == old(memory)
      ensures r.Fine? ==> var n := |old(list)|;
        && |list| == n + 1 && list[1..n] == old(list)[1..]
        && list[n] ==
           old(list)[0].(id := old(lastProcessId), context := context, errnoLocation := 0, previousErrno := 0,
                                    interruptStack := list[n].interruptStack, esp0 := list[n].esp0,
                                    allocations := map[])
        && list[n].interruptStack % PAGE == 0 && list[n].interruptStack / PAGE in pages.ledger
        && list[n].interruptStack / PAGE in old(pages.Now().free)
        && list[0] == old(list)[0].(childs := old(list)[0].childs + [list[n].id])
      ensures r.Fine? ==> pages.user == old(pages.user)
      ensures !ring0 ==> Did(Take(old(pages.Supply()), 1, pages.capacity), r, pages.Supply())
      ensures r.FailedToSave? ==> !Ready(old(pages.Now()))
      ensures r.Fine? && Ready(old(pages.Now())) ==> Ready(pages.Now())
    {
      hide Books.Ok, Flight, StacksOk, UserOk, Kept, FramesOf, HeldBySome, Waiting, Grew, HasTable, Ready,
          Extents.FreeOf, Extents.Valid, IdsOk, MemoryOf, Copied, SystemOf, CopiedSome, Take, NextPage,
          AllUsed, PoolOf;
      ghost var b0, list0 := pages.Now(), list;
      var n := |list|;
      list := list + [list[0]];
      list := list[0 := list[0].(childs := list[0].childs + [lastProcessId])];
      list := list[n := list[n].(id := lastProcessId, context := context, errnoLocation := 0, previousErrno := 0)];
      lastProcessId := lastProcessId + 1;
      if ring0 {
        return RingZero;
      }
      var stack;
      stack, r := pages.AllocatePages(1);
      if r != Fine {
        return;
      }
      list := list[n := list[n].(interruptStack := stack * PAGE, esp0 := stack * PAGE + PAGE, allocations := map[])];
      Added(list0, list, b0, pages.Now(), pages.user, memory, lastProcessId);
      StacksMore(list0, list, b0, pages.Now(), stack);
      StackIs(list, pages.Now(), n);
    }

    /** Fork: a child with a copy of every page. */
    method CopyCurrentProcess(context: Context, ring0: bool) returns (r: Fault)
      requires Sane()
      modifies this, pages, pages.space
      ensures r.Fine? || r.RingZero? || Scarce(r)
      ensures r.RingZero? <==> ring0
      ensures r.Fine? ==> Sane() && Seen() == Step(old(Seen()), Fork) && current == old(current)
      ensures r.Fine? ==> var n := |old(list)|;
        && |list| == n + 1 && list[1..n] == old(list)[1..]
        && list[n] ==
           old(list)[0].(id := old(lastProcessId), context := context, errnoLocation := 0, previousErrno := 0,
                                    interruptStack := list[n].interruptStack, esp0 := list[n].esp0,
                                    allocations := list[n].allocations)
        && list[n].interruptStack % PAGE == 0 && list[n].interruptStack / PAGE in pages.ledger
        && list[n].interruptStack / PAGE in old(pages.Now().free)
        && list[0] == old(list)[0].(childs := old(list)[0].childs + [list[n].id])
      ensures !ring0 ==> var m, s := 1 + |old(list)[0].allocations|, StockOf(old(pages.Supply()));
        && Did(Singles(old(pages.Supply()), m, pages.capacity), r, pages.Supply())
        && (Covered(old(pages.Supply())) ==> (r.Fine? <==> Suffices(s, m, m, m, pages.capacity)))
        && (Suffices(s, 2 * m + 1, m, 2 * m, pages.capacity) ==> r.Fine? || r.FailedToSave?)
      ensures r.FailedToSave? ==> !Ready(old(pages.Now()))
    {
      hide Books.Ok, Flight, StacksOk, UserOk, Kept, FramesOf, HeldBySome, Waiting, Grew, HasTable, Ready,
          Extents.FreeOf, Extents.Valid, IdsOk, MemoryOf, Copied, SystemOf, CopiedSome, Singles, Take, Covered,
          StockOf, Suffices, PoolOf, RoomOk;
      ghost var list0, memory0, next0 := list, memory, lastProcessId;
      ghost var p0, m := pages.Supply(), |pages.user|;
      OneIsSingle(p0, pages.capacity);
      SinglesMean(p0, 1 + m, pages.capacity);
      r := StartChild(context, ring0);
      if r != Fine {
        if !ring0 {
          SinglesStop(p0, 1, 1 + m, pages.capacity);
        }
        return;
      }
      SinglesThen(p0, 1, m, pages.capacity);
      ghost var n, list1 := |list0|, list;
      r := CopyPages();
      if r == Fine {
        CopyEnd(list1[..n], memory0, list, memory, next0);
        SameOutside(list0, list1[..n], memory0, next0);
        StackIs(list, pages.Now(), n);
      }
    }

    /** The current process writes a byte of a page, through the processor's own walk of the tables. A
        page that is not its own is not there to be written, nor is any page of the kernel. */
    method UserWrite(page: nat, at: nat, x: byte) returns (r: Fault)
      requires Sane() && page < PAGES && at < PAGE
      modifies `memory
      ensures r == if page in old(Seen()).processes[0].memory then Fine else NotPresent
      ensures Sane()
      ensures Seen() ==
        if r.Fine? then Step(old(Seen()), Write(page, old(Seen()).processes[0].memory[page][at := x])) else old(Seen())
    {
      hide Books.Ok, Flight, StacksOk, UserOk, Kept, FramesOf, HeldBySome, Waiting, Grew, HasTable, Ready,
          Extents.FreeOf, Extents.Valid, IdsOk, MemoryOf, SystemOf, Reach;
      ghost var b, memory0 := pages.Now(), memory;
      UserWalk(b, page, true);
      UserHas(b, list, memory, lastProcessId, page);
      var frame := Reach(pages.dir, pages.tables, page, true, true);
      if frame.None? {
        return NotPresent;
      }
      memory := memory[frame.value := memory[frame.value][at := x]];
      Written(b, list, memory0, lastProcessId, page, memory[frame.value]);
      r := Fine;
    }

    /** And reads one. */
    method UserRead(page: nat, at: nat) returns (x: byte, r: Fault)
      requires Sane() && page < PAGES && at < PAGE
      ensures r == if page in Seen().processes[0].memory then Fine else NotPresent
      ensures r.Fine? ==> x == Seen().processes[0].memory[page][at]
    {
      hide Books.Ok, Flight, StacksOk, UserOk, Kept, FramesOf, HeldBySome, Waiting, Grew, HasTable, Ready,
          Extents.FreeOf, Extents.Valid, IdsOk, MemoryOf, SystemOf, Reach;
      UserWalk(pages.Now(), page, false);
      UserHas(pages.Now(), list, memory, lastProcessId, page);
      var frame := Reach(pages.dir, pages.tables, page, true, false);
      if frame.None? {
        return 0, NotPresent;
      }
      return memory[frame.value][at], Fine;
    }

    /** The current process gets n pages from start on, with whatever their frames held. */
    method AllocateUser(start: nat, n: nat) returns (r: Fault, ghost gained: map<nat, Content>)
      requires Sane() && start + n <= KERNEL
      modifies `list, pages, pages.space
      ensures r.Fine? || r.AlreadyMapped? || Scarce(r)
      ensures r.AlreadyMapped? ==> exists p :: start <= p < start + n && p in old(pages.user)
      ensures r.Fine? ==> Sane() && Seen() == Step(old(Seen()), Gain(gained)) && gained.Keys == Range(start, n)
      ensures r.Fine? ==> old(Seen()).processes[0].memory.Keys !! gained.Keys
      ensures (forall p :: start <= p < start + n ==> p !in old(pages.user)) ==>
        var s, t := StockOf(old(pages.Supply())), NewTables(old(pages.Supply()).tables, start, n);
        && Did(Pages(old(pages.Supply()), start, n, true, pages.capacity), r, pages.Supply())
        && (Covered(old(pages.Supply())) ==> (r.Fine? <==> Suffices(s, n + t, 0, t, pages.capacity)))
        && (Suffices(s, n + t + 1, 0, t, pages.capacity) ==> r.Fine? || r.FailedToSave?)
      ensures r.FailedToSave? ==> !Ready(old(pages.Now()))
    {
      hide Books.Ok, Flight, StacksOk, UserOk, Kept, FramesOf, HeldBySome, Waiting, Grew, HasTable, Ready,
          Extents.FreeOf, Extents.Valid, IdsOk, MemoryOf, AddedPages, SystemOf, Range, Pages,
          Covered, StockOf, Suffices, NextPage, AllUsed, NewTables, PoolOf;
      ghost var b0, list0 := pages.Now(), list;
      PagesMean(pages.Supply(), start, n, pages.capacity);
      gained := map[];
      r := pages.AllocateAt(start, n);
      if r != Fine {
        return;
      }
      list := list[0 := list[0].(allocations := pages.user)];
      GrewTables(b0, pages.Now(), Range(start, n));
      WaitingOn(list0, list, b0, pages.Now());
      StacksGrow(list0, list, b0, pages.Now(), Range(start, n));
      UserBounds(pages.Now(), pages.user, memory);
      gained := Gained(list0, memory, lastProcessId, pages.user, start, n);
    }

    /** Before another program is loaded, all pages of the process are given back. */
    method ReleaseAll() returns (r: Fault)
      requires Sane()
      modifies `list, pages
      ensures r.Fine? && Sane() && Seen() == Step(old(Seen()), Release) && pages.user == map[]
    {
      hide Books.Ok, Flight, StacksOk, UserOk, Kept, FramesOf, HeldBySome, Waiting, Grew, HasTable, Ready,
          Extents.FreeOf, Extents.Valid, IdsOk, MemoryOf, GaveBack, SystemOf, FewerPages;
      ghost var b0, list0 := pages.Now(), list;
      AllPages(list);
      var todo := pages.user.Keys;
      while todo != {}
        invariant Sane() && todo == pages.user.Keys && FewerPages(list0, list)
        decreases |todo|
      {
        var page :| page in todo;
        ghost var b1, list1 := pages.Now(), list;
        UserHere(b1, pages.user, page);
        r := pages.DeallocateSinglePage(page);
        if r != Fine {
          return;
        }
        list := list[0 := list[0].(allocations := pages.user)];
        Fewer(list0, list1, list, memory, lastProcessId, b1, pages.Now(), page);
        StacksGiven(list1, list, b1, pages.Now(), page);
        todo := todo - {page};
      }
      if pages.user != map[] {
        return NotEmptied;
      }
      Released(list0, list, memory, lastProcessId);
      r := Fine;
    }
  }

  lemma Rotated(list: seq<Process>, list': seq<Process>, memory: seq<Content>, next: nat)
    requires list != [] && |list'| == |list| && IdsOk(SystemOf(list, memory, next))
    requires forall i {:trigger list'[i]} :: 0 <= i < |list| ==>
               list'[i].allocations == Rotate(list)[i].allocations && list'[i].id == Rotate(list)[i].id
    ensures SystemOf(list', memory, next) == Step(SystemOf(list, memory, next), Tick)
    ensures IdsOk(SystemOf(list', memory, next))
  {
    hide MemoryOf;
    var s, s' := SystemOf(list, memory, next), SystemOf(list', memory, next);
    assert s'.processes == s.processes[1..] + [s.processes[0]];
    IdsStep(s, Tick);
  }

  /** Unmapping the page again gives nothing back. */
  lemma UnmadeSupply(a: Books, b: Books, page: nat, s: nat, es: seq<Extents.Extent>)
    requires Unmade(a, b, page)
    ensures PoolOf(a, s, es) == PoolOf(b, s, es)
  {
    SameSupply(a, b, s, es);
  }

  lemma GrewTables(a: Books, b: Books, x: set<nat>)
    requires Grew(a, b, x)
    ensures forall p :: HasTable(a.dir, p) ==> HasTable(b.dir, p)
    ensures |a.frames| == |b.frames|
  {
  }

  lemma UserKept(a: Books, b: Books, user: map<nat, nat>)
    requires a.Ok() && Grew(a, b, {}) && UserOk(a.owner, user)
    ensures UserOk(b.owner, user)
  {
    hide Agree, HomesOk, RecordsOk;
  }

  /** A process without pages joins while the kernel's pages only grow. */
  lemma Added(list: seq<Process>, list': seq<Process>, a: Books, b: Books, user: map<nat, nat>, memory: seq<Content>,
              next: nat)
    requires a.Ok() && Grew(a, b, {}) && a.loose == b.loose && UserOk(a.owner, user)
    requires list != [] && Waiting(list, 1, a) && next > 0 && IdsOk(SystemOf(list, memory, next - 1))
    requires |list'| == |list| + 1 && list'[|list|].allocations == map[] && list'[|list|].id == next - 1
    requires forall i {:trigger list'[i]} :: 0 <= i < |list| ==>
              list'[i].allocations == list[i].allocations && list'[i].id == list[i].id
    ensures UserOk(b.owner, user) && Waiting(list', 1, b) && |a.frames| == |b.frames| && (Ready(a) ==> Ready(b))
    ensures SystemOf(list', memory, next) == Step(SystemOf(list, memory, next - 1), Create)
      && IdsOk(SystemOf(list', memory, next))
  {
    hide Books.Ok, UserOk, Grew, HasTable, MemoryOf, Waiting;
    UserKept(a, b, user);
    GrewReady(a, b, {});
    GrewTables(a, b, {});
    WaitingMore(list, a, list'[|list|]);
    WaitingOn(list + [list'[|list|]], list', a, b);
    var s, s' := SystemOf(list, memory, next - 1), SystemOf(list', memory, next);
    assert MemoryOf(map[], memory) == map[] by { NoMemory(memory); }
    assert s'.processes == s.processes + [Private(next - 1, map[])];
    IdsStep(s, Create);
  }

  lemma NoMemory(memory: seq<Content>)
    ensures MemoryOf(map[], memory) == map[]
  {
  }

  /** The last process has one page more, with the bytes of the first process's page. */
  ghost predicate Copied(list: seq<Process>, memory: seq<Content>, list': seq<Process>, memory': seq<Content>,
                         page: nat) {
    && |list'| == |list| > 1 && |memory'| == |memory|
    && (forall i {:trigger list'[i]} :: 0 <= i < |list| - 1 ==>
          list'[i] == list[i] && MemoryOf(list[i].allocations, memory') == MemoryOf(list[i].allocations, memory))
    && var n := |list| - 1;
       && list'[n] == list[n].(allocations := list'[n].allocations)
       && list'[n].allocations.Keys == list[n].allocations.Keys + {page}
       && page in MemoryOf(list[0].allocations, memory)
       && MemoryOf(list'[n].allocations, memory') == MemoryOf(list[n].allocations,
           memory)[page := MemoryOf(list[0].allocations, memory)[page]]
  }

  /** All but the pages in todo have been copied. */
  ghost predicate CopiedSome(list: seq<Process>, memory: seq<Content>, list': seq<Process>, memory': seq<Content>,
                             todo: set<nat>) {
    && list != [] && |list'| == |list| + 1 && |memory'| == |memory|
    && (forall i {:trigger list'[i]} :: 0 <= i < |list| ==>
          list'[i].id == list[i].id && list'[i].allocations == list[i].allocations
          && MemoryOf(list[i].allocations, memory') == MemoryOf(list[i].allocations, memory))
    && (forall p {:trigger p in list'[|list|].allocations} ::
          p in list'[|list|].allocations <==> p in list[0].allocations && p !in todo)
    && (forall p {:trigger p in MemoryOf(list'[|list|].allocations, memory')} ::
          p in MemoryOf(list'[|list|].allocations, memory') <==>
            p in MemoryOf(list[0].allocations, memory) && p !in todo)
    && (forall p {:trigger MemoryOf(list'[|list|].allocations, memory')[p]} ::
          p in MemoryOf(list'[|list|].allocations, memory') ==>
            p in MemoryOf(list[0].allocations, memory)
            && MemoryOf(list'[|list|].allocations, memory')[p] == MemoryOf(list[0].allocations, memory)[p])
  }

  lemma CopyStart(list: seq<Process>, list': seq<Process>, memory: seq<Content>)
    requires list != [] && |list'| == |list| + 1 && list'[|list|].allocations == map[]
    requires forall i {:trigger list'[i]} :: 0 <= i < |list| ==>
              list'[i].id == list[i].id && list'[i].allocations == list[i].allocations
    ensures CopiedSome(list, memory, list', memory, list[0].allocations.Keys)
  {
  }

  lemma SameOutside(list: seq<Process>, list': seq<Process>, memory: seq<Content>, next: nat)
    requires |list| == |list'|
    requires forall i {:trigger list'[i]} :: 0 <= i < |list| ==>
              list'[i].id == list[i].id && list'[i].allocations == list[i].allocations
    ensures SystemOf(list, memory, next) == SystemOf(list', memory, next)
  {
    assert SystemOf(list, memory, next).processes == SystemOf(list', memory, next).processes;
  }

  lemma CopyNext(list: seq<Process>, memory: seq<Content>, list': seq<Process>, memory': seq<Content>, todo: set<nat>,
                 page: nat)
    requires CopiedSome(list, memory, list', memory', todo) && page in todo && todo <= list[0].allocations.Keys
    ensures page !in list'[|list|].allocations && page in list[0].allocations
  {
  }

  lemma CopyMore(list: seq<Process>, memory: seq<Content>, list2: seq<Process>, memory2: seq<Content>,
                 list': seq<Process>, memory': seq<Content>, todo: set<nat>, page: nat)
    requires CopiedSome(list, memory, list2, memory2, todo) && Copied(list2, memory2, list', memory', page)
      && page in todo
    requires page in list[0].allocations
    ensures CopiedSome(list, memory, list', memory', todo - {page})
    ensures |list'| == |list2| == |list| + 1 && list'[..|list|] == list2[..|list|]
    ensures list'[|list|] == list2[|list|].(allocations := list'[|list|].allocations)
  {
    hide MemoryOf;
    forall i | 0 <= i < |list| ensures list'[i] == list2[i] {
    }
    var n := |list|;
    assert list'[..n] == list2[..n];
    var old0, old1, now := MemoryOf(list[0].allocations, memory), MemoryOf(list2[n].allocations, memory2),
        MemoryOf(list'[n].allocations, memory');
    assert list2[0].allocations == list[0].allocations;
    assert now == old1[page := old0[page]];
    forall p ensures p in list'[n].allocations <==> p in list[0].allocations && p !in todo - {page} {
      assert p in list'[n].allocations.Keys <==> p in list2[n].allocations.Keys || p == page;
    }
    forall p ensures p in now <==> p in old0 && p !in todo - {page} {
    }
    forall i | 0 <= i < n ensures MemoryOf(list[i].allocations, memory') == MemoryOf(list[i].allocations, memory) {
      assert MemoryOf(list2[i].allocations, memory') == MemoryOf(list2[i].allocations, memory2);
    }
  }

  lemma CopyEnd(list: seq<Process>, memory: seq<Content>, list': seq<Process>, memory': seq<Content>, next: nat)
    requires CopiedSome(list, memory, list', memory', {}) && list'[|list|].id == next
    ensures SystemOf(list', memory', next + 1) == Step(SystemOf(list, memory, next), Fork)
  {
    hide MemoryOf;
    var s, s' := SystemOf(list, memory, next), SystemOf(list', memory', next + 1);
    assert MemoryOf(list'[|list|].allocations, memory') == MemoryOf(list[0].allocations, memory);
    assert s'.processes == s.processes + [Private(next, s.processes[0].memory)];
  }

  lemma FreshPage(a: Books, b: Books, user: map<nat, nat>, p: nat)
    requires a.Ok() && b.Ok() && Grew(a, b, {}) && a.loose == b.loose && UserOk(a.owner, user) && b.InFlight() == {}
    requires p in a.free && p in b.owner && p in b.ledger
    ensures KERNEL <= p < PAGES && !IsWindow(p) && p !in b.image && (b.saveFlag ==> p != b.saved.page) && p !in b.stale
    ensures b.owner[p] !in b.loose && b.owner[p] < |a.frames| && b.owner[p] !in FramesOf(user)
    ensures UserOk(b.owner, user) && b.ledger[p] == b.owner[p] && |a.frames| == |b.frames| && (Ready(a) ==> Ready(b))
  {
    hide TablesOk, TableFramesOk, MapsOk, HomesOk;
    UserKept(a, b, user);
    GrewReady(a, b, {});
    FreshFrame(a, b, {}, p);
    forall q | q in user ensures user[q] != b.owner[p] {
      assert b.owner[q] == user[q];
    }
  }

  /** The processor finds a process's page at its frame. */
  lemma Walk(b: Books, page: nat)
    requires b.Ok() && page < KERNEL
    ensures |b.dir| == ENTRIES
    ensures b.dir[page / ENTRIES].present ==>
              b.dir[page / ENTRIES].frame in b.tables && |b.tables[b.dir[page / ENTRIES].frame]| == ENTRIES
    ensures Translate(b.dir, b.tables, page) == if page in b.owner then Some(b.owner[page]) else None
  {
    hide BitsOk, TableFramesOk, HomesOk, RecordsOk, Translate;
    Looked(b, page);
    assert Translate(b.dir, b.tables, page).Some? ==> page in b.owner;
  }

  /** What unprivileged code reaches are the process's pages, and nothing of the kernel. */
  lemma UserWalk(b: Books, page: nat, write: bool)
    requires b.Ok() && page < PAGES
    ensures |b.dir| == ENTRIES
    ensures b.dir[page / ENTRIES].present ==>
              b.dir[page / ENTRIES].frame in b.tables && |b.tables[b.dir[page / ENTRIES].frame]| == ENTRIES
    ensures Reach(b.dir, b.tables, page, true, write) ==
            if page < KERNEL && page in b.owner then Some(b.owner[page]) else None
  {
    hide BitsOk, TableFramesOk, MapsOk, HomesOk, RecordsOk, Translate, Reach;
    Privilege(b.dir, b.tables, b.owner, b.alias, page, write);
    if page < KERNEL {
      Walk(b, page);
    }
  }

  /** The kernel reaches every page at its frame, unless that is an alias. */
  lemma KernelWalk(b: Books, page: nat, write: bool)
    requires b.Ok() && page < PAGES && !IsWindow(page) && page !in b.image
    ensures |b.dir| == ENTRIES
    ensures b.dir[page / ENTRIES].present ==>
              b.dir[page / ENTRIES].frame in b.tables && |b.tables[b.dir[page / ENTRIES].frame]| == ENTRIES
    ensures Reach(b.dir, b.tables, page, false, write) == if page in b.owner then Some(b.owner[page]) else None
  {
    hide TablesOk, BitsOk, TableFramesOk, HomesOk, RecordsOk, SpaceOk, Translate, Reach, Rights;
    Looked(b, page);
    Privilege(b.dir, b.tables, b.owner, b.alias, page, write);
    assert Translate(b.dir, b.tables, page).Some? ==> page in b.owner;
  }

  lemma UserMap(b: Books, user: map<nat, nat>, page: nat)
    requires b.Ok() && UserOk(b.owner, user)
    ensures page in user <==> page < KERNEL && page in b.owner
    ensures page in user ==> user[page] == b.owner[page] && page !in b.image
  {
    hide Agree, HomesOk, RecordsOk;
  }

  lemma UserBounds(b: Books, user: map<nat, nat>, memory: seq<Content>)
    requires b.Ok() && UserOk(b.owner, user) && |memory| == |b.frames|
    ensures forall p {:trigger user[p]} {:trigger p in user} :: p in user ==>
              user[p] < |memory| && user[p] !in b.loose && p < KERNEL && p in b.owner && b.owner[p] == user[p]
    ensures forall p, q {:trigger user[p], user[q]} :: p in user && q in user && p != q ==> user[p] != user[q]
  {
    hide TablesOk, TableFramesOk, MapsOk, HomesOk, RecordsOk, SpaceOk;
    forall p, q | p in user && q in user && p != q ensures user[p] != user[q] {
      assert b.owner[p] == user[p] && b.owner[q] == user[q];
    }
  }

  lemma WaitingFrames(list: seq<Process>, from: nat, b: Books, i: nat, f: nat)
    requires Waiting(list, from, b) && from <= i < |list| && f !in b.loose
    ensures f !in FramesOf(list[i].allocations)
  {
    assert Kept(list[i].allocations, b);
  }

  /** Between a and b a page was mapped to a fresh frame, and recorded. */
  ghost predicate Temporary(a: Books, b: Books, page: nat, frame: nat) {
    && Grew(a, b, {}) && a.loose == b.loose && b.InFlight() == {}
    && page in a.free && page in b.owner && page in b.ledger && frame == b.owner[page]
  }

  lemma TemporaryIntro(a: Books, b: Books, page: nat, frame: nat)
    requires Grew(a, b, {}) && a.loose == b.loose && b.InFlight() == {}
    requires page in a.free && page in b.owner && page in b.ledger && frame == b.owner[page]
    ensures Temporary(a, b, page, frame)
  {
  }

  lemma PageCopied(list: seq<Process>, memory: seq<Content>, a: Books, b: Books, c: Books, user: map<nat, nat>,
                   page: nat, newPage: nat, f: nat, next: nat)
    requires |list| > 1 && list[0].allocations == user && page in user && page !in list[|list| - 1].allocations
    requires a.Ok() && b.Ok() && UserOk(a.owner, user) && Temporary(a, b, newPage, f) && Unmade(b, c, newPage)
    requires Waiting(list, 1, a) && IdsOk(SystemOf(list, memory, next)) && |memory| == |a.frames|
    ensures f < |memory| && user[page] < |memory| && (Ready(a) ==> Ready(c))
    ensures var n := |list| - 1;
      var list' := list[n := list[n].(allocations := list[n].allocations[page := f])];
      var memory' := memory[f := memory[user[page]]];
      && UserOk(c.owner, user) && Waiting(list', 1, c) && |c.frames| == |memory|
      && IdsOk(SystemOf(list', memory', next)) && Copied(list, memory, list', memory', page)
  {
    hide Books.Ok, Grew, Waiting, FramesOf, HasTable, Flight;
    FreshPage(a, b, user, newPage);
    GrewTables(a, b, {});
    UserBounds(a, user, memory);
    UserTable(a, page);
    WaitingGains(list, a, c, page, f);
    CopiedFrame(list, memory, a, page, f);
    var n := |list| - 1;
    var list' := list[n := list[n].(allocations := list[n].allocations[page := f])];
    var memory' := memory[f := memory[user[page]]];
    assert UserOk(c.owner, user);
    SameIds(list, memory, list', memory', next);
  }

  lemma SameIds(list: seq<Process>, memory: seq<Content>, list': seq<Process>, memory': seq<Content>, next: nat)
    requires IdsOk(SystemOf(list, memory, next)) && |list'| == |list|
    requires forall i {:trigger list'[i]} :: 0 <= i < |list| ==> list'[i].id == list[i].id
    ensures IdsOk(SystemOf(list', memory', next))
  {
    hide MemoryOf;
    var s, s' := SystemOf(list, memory, next), SystemOf(list', memory', next);
    assert forall i {:trigger s'.processes[i]} :: 0 <= i < |list| ==> s'.processes[i].id == s.processes[i].id;
  }

  lemma CopiedFrame(list: seq<Process>, memory: seq<Content>, a: Books, page: nat, f: nat)
    requires |list| > 1 && Waiting(list, 1, a) && f !in a.loose && f !in FramesOf(list[0].allocations) && f < |memory|
    requires page in list[0].allocations && list[0].allocations[page] < |memory|
      && page !in list[|list| - 1].allocations
    ensures var n := |list| - 1;
      var list', memory' := list[n := list[n].(allocations := list[n].allocations[page := f])],
          memory[f := memory[list[0].allocations[page]]];
      Copied(list, memory, list', memory', page)
  {
    hide Waiting, FramesOf;
    var n := |list| - 1;
    var c := memory[list[0].allocations[page]];
    var memory' := memory[f := c];
    forall i | 0 <= i < |list| ensures MemoryOf(list[i].allocations, memory') == MemoryOf(list[i].allocations, memory) {
      if i > 0 {
        WaitingFrames(list, 1, a, i, f);
      }
      MemoryWritten(list[i].allocations, memory, f, c);
    }
    var m, m' := list[n].allocations, list[n].allocations[page := f];
    assert MemoryOf(m', memory') == MemoryOf(m, memory')[page := c];
  }

  lemma UserHas(b: Books, list: seq<Process>, memory: seq<Content>, next: nat, page: nat)
    requires list != [] && b.Ok() && UserOk(b.owner, list[0].allocations) && |memory| == |b.frames|
    ensures page in SystemOf(list, memory, next).processes[0].memory <==> page < KERNEL && page in b.owner
    ensures page < KERNEL && page in b.owner ==>
              b.owner[page] < |memory|
              && SystemOf(list, memory, next).processes[0].memory[page] == memory[b.owner[page]]
  {
    hide Books.Ok;
    UserBounds(b, list[0].allocations, memory);
    UserMap(b, list[0].allocations, page);
  }

  lemma Written(b: Books, list: seq<Process>, memory: seq<Content>, next: nat, page: nat, content: Content)
    requires list != [] && b.Ok() && UserOk(b.owner, list[0].allocations) && |memory| == |b.frames|
      && Waiting(list, 1, b)
    requires page in b.owner && page < KERNEL && b.owner[page] < |memory| && IdsOk(SystemOf(list, memory, next))
    ensures var memory' := memory[b.owner[page] := content];
      && SystemOf(list, memory', next) == Step(SystemOf(list, memory, next), Write(page, content))
      && IdsOk(SystemOf(list, memory', next))
  {
    hide Books.Ok, Waiting, MemoryOf, FramesOf;
    var f := b.owner[page];
    var m, memory' := list[0].allocations, memory[f := content];
    UserBounds(b, m, memory);
    MemoryWrittenAt(m, memory, page, content);
    forall i | 1 <= i < |list| ensures MemoryOf(list[i].allocations, memory') == MemoryOf(list[i].allocations, memory) {
      WaitingFrames(list, 1, b, i, f);
      MemoryWritten(list[i].allocations, memory, f, content);
    }
    var s, s' := SystemOf(list, memory, next), SystemOf(list, memory', next);
    assert s'.processes == s.processes[0 := s.processes[0].(memory := s.processes[0].memory[page := content])];
    SameIds(list, memory, list, memory', next);
  }

  lemma Gained(list: seq<Process>, memory: seq<Content>, next: nat, user: map<nat, nat>, start: nat,
               n: nat) returns (gained: map<nat, Content>)
    requires list != [] && AddedPages(list[0].allocations, user, start, n) && IdsOk(SystemOf(list, memory, next))
    requires forall p {:trigger user[p]} {:trigger p in user} :: p in user ==> user[p] < |memory|
    ensures gained.Keys == Range(start, n) && MemoryOf(list[0].allocations, memory).Keys !! gained.Keys
    ensures var list' := list[0 := list[0].(allocations := user)];
      && SystemOf(list', memory, next) == Step(SystemOf(list, memory, next), Gain(gained))
      && IdsOk(SystemOf(list', memory, next))
  {
    gained := map p | p in user && p !in list[0].allocations :: memory[user[p]];
    var list' := list[0 := list[0].(allocations := user)];
    assert MemoryOf(user, memory) == MemoryOf(list[0].allocations, memory) + gained;
    var s, s' := SystemOf(list, memory, next), SystemOf(list', memory, next);
    assert s'.processes == s.processes[0 := s.processes[0].(memory := s.processes[0].memory + gained)];
    SameIds(list, memory, list', memory, next);
  }

  /** Only the first process's pages differ. */
  ghost predicate FewerPages(list: seq<Process>, list': seq<Process>) {
    && |list'| == |list| > 0 && list'[0] == list[0].(allocations := list'[0].allocations)
    && list'[1..] == list[1..]
  }

  lemma AllPages(list: seq<Process>)
    requires list != []
    ensures FewerPages(list, list)
  {
  }

  lemma UserHere(b: Books, user: map<nat, nat>, page: nat)
    requires b.Ok() && UserOk(b.owner, user) && page in user
    ensures page < KERNEL && page !in b.image && page !in b.stale
  {
    hide Agree, HomesOk;
  }

  lemma Fewer(list: seq<Process>, list1: seq<Process>, list': seq<Process>, memory: seq<Content>, next: nat, a: Books,
              b: Books, page: nat)
    requires FewerPages(list, list1) && |list'| == |list1|
      && list' == list1[0 := list1[0].(allocations := list'[0].allocations)]
    requires Waiting(list1, 1, a) && GaveBack(a, b, page) && IdsOk(SystemOf(list1, memory, next))
    ensures FewerPages(list, list') && Waiting(list', 1, b) && IdsOk(SystemOf(list', memory, next))
      && |a.frames| == |b.frames|
  {
    hide MemoryOf;
    WaitingOn(list1, list', a, b);
    SameIds(list1, memory, list', memory, next);
  }

  lemma Released(list: seq<Process>, list': seq<Process>, memory: seq<Content>, next: nat)
    requires FewerPages(list, list') && list'[0].allocations == map[]
    ensures SystemOf(list', memory, next) == Step(SystemOf(list, memory, next), Release)
  {
    NoMemory(memory);
    var s, s' := SystemOf(list, memory, next), SystemOf(list', memory, next);
    forall i | 1 <= i < |list| ensures list'[i] == list[i] {
      assert list'[i] == list'[1..][i - 1] && list[i] == list[1..][i - 1];
    }
    assert s'.processes == s.processes[0 := s.processes[0].(memory := map[])];
  }

  /** Every boot leads to such a system: a root task over a kernel of its own layout. */
  method RootAlone(l: Booting.Layout, frames: nat, capacity: nat, slots: nat) returns (s: Scheduler)
    requires l.Fits() && l.lower + 2 <= frames && 2 <= capacity && l.lower + 2 <= slots
    ensures fresh(s) && s.Sane() && s.Seen() == System(1, [Private(0, map[])])
  {
    hide Books.Ok, Flight, Extents.Valid, Extents.FreeOf, UserOk, Grew, Singles, Take, Ready, PoolOf, NextPage, AllUsed;
    var pages := Booting.Start(l, frames, capacity, slots);
    ghost var b := pages.Now();
    Booting.FirstPage(l, frames, slots, pages.space.extents, b, capacity);
    var stack, r := pages.AllocatePages(1);
    FirstStack(b, pages.Now(), stack);
    s := new Scheduler(pages, seq(frames, i => ZeroPage()), stack * PAGE);
  }

  lemma FirstStack(a: Books, b: Books, page: nat)
    requires a.Ok() && Grew(a, b, {}) && UserOk(a.owner, map[]) && page in a.free && page in b.ledger
    ensures IsStack(page * PAGE, b) && |a.frames| == |b.frames| && UserOk(b.owner, map[])
  {
    hide Agree, HomesOk;
    assert page * PAGE / PAGE == page;
    UserKept(a, b, map[]);
  }
}
