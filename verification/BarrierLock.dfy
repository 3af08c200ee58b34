/** The read/write lock built on VPP's barrier: a plain reader count and a plain writer flag,
    both touched by the main thread only, with the barrier keeping the workers away. */
module BarrierLock {
  import opened Optional

  const U32_MAX: nat := 0xFFFF_FFFF

  /** The lock's two cells. */
  datatype Cells = Cells(readers: nat, writer: bool)

  /** The cells after taking a read guard; `None` is the panic on a main-thread conflict. */
  function TakeRead(c: Cells, mainThread: bool): Option<Cells> {
    if mainThread && c.writer then None
    else if mainThread then Some(c.(readers := c.readers + 1))
    else Some(c)
  }

  function DropRead(c: Cells, mainThread: bool): Cells
    requires mainThread ==> c.readers >= 1
  {
    if mainThread then c.(readers := c.readers - 1) else c
  }

  function TakeWrite(c: Cells): Option<Cells> {
    if c.readers != 0 || c.writer then None else Some(c.(writer := true))
  }

  function DropWrite(c: Cells): Cells {
    c.(writer := false)
  }

  class BarrierRwLock<T> {
    var readers: nat
    var writer: bool
    var data: T

    function State(): Cells
      reads this
    {
      Cells(readers, writer)
    }

    constructor (t: T)
      ensures State() == Cells(0, false) && data == t
    {
      data, readers, writer := t, 0, false;
    }

    /** `BarrierRwLockReadGuard::new`. */
    method NewReadGuard(mainThread: bool) returns (taken: bool)
      requires readers < U32_MAX
      modifies this`readers
      ensures taken <==> TakeRead(old(State()), mainThread).Some?
      ensures State() == if taken then TakeRead(old(State()), mainThread).value else old(State())
    {
      if mainThread && writer {
        return false;
      }
      if mainThread {
        readers := readers + 1;
      }
      taken := true;
    }

    method DropReadGuard(mainThread: bool)
      requires mainThread ==> readers >= 1
      modifies this`readers
      ensures State() == DropRead(old(State()), mainThread)
    {
      if mainThread {
        readers := readers - 1;
      }
    }

    /** `BarrierRwLockWriteGuard::new`. */
    method NewWriteGuard() returns (taken: bool)
      modifies this`writer
      ensures taken <==> TakeWrite(old(State())).Some?
      ensures State() == if taken then TakeWrite(old(State())).value else old(State())
    {
      if readers != 0 {
        return false;
      }
      if writer {
        return false;
      }
      writer := true;
      taken := true;
    }

    method DropWriteGuard()
      modifies this`writer
      ensures State() == DropWrite(old(State()))
    {
      writer := false;
    }
  }

  // ---- the protocol, over every interleaving of the main thread and the workers -----------------

  /** Thread 0 is the main thread. Guards are named; `readGuards` maps each live read guard to
      its thread. */
  datatype Machine<T> = Machine(
    cells: Cells,
    data: T,
    readGuards: map<nat, nat>,
    writeGuards: set<nat>,
    workers: set<nat>,
    parked: set<nat>,
    barrier: bool)

  datatype Action<T> =
    | Read(guard: nat, thread: nat)
    | ReleaseRead(guard: nat)
    | Write(guard: nat)
    | ReleaseWrite(guard: nat)
    | Store(guard: nat, value: T)
    | Park(thread: nat)
    | Unpark(thread: nat)
    | TakeBarrier
    | ReleaseBarrier

  predicate Running<T>(m: Machine<T>, t: nat) {
    t == 0 || (t in m.workers && t !in m.parked)
  }

  /** What callers and the barrier promise: a guard belongs to a running thread, a worker parks
      only with no live read guard, and the barrier is released only with no live write guard. */
  predicate Enabled<T>(m: Machine<T>, a: Action<T>) {
    match a
    case Read(x, t) => Running(m, t) && x !in m.readGuards && m.cells.readers < U32_MAX
    case ReleaseRead(x) => x in m.readGuards && Running(m, m.readGuards[x])
    case Write(x) => m.barrier && x !in m.writeGuards
    case ReleaseWrite(x) => x in m.writeGuards
    case Store(x, _) => x in m.writeGuards
    case Park(t) => t in m.workers && t !in m.parked && t !in m.readGuards.Values
    case Unpark(t) => t in m.parked && !m.barrier
    case TakeBarrier => m.parked == m.workers && !m.barrier
    case ReleaseBarrier => m.barrier && m.writeGuards == {}
  }

  datatype Outcome<T> = Done(machine: Machine<T>) | Panic

  function Step<T>(m: Machine<T>, a: Action<T>): Outcome<T>
    requires Enabled(m, a)
    requires a.ReleaseRead? && m.readGuards[a.guard] == 0 ==> m.cells.readers >= 1
  {
    match a
    case Read(x, t) =>
      var c := TakeRead(m.cells, t == 0);
      if c.None? then Panic else Done(m.(cells := c.value, readGuards := m.readGuards[x := t]))
    case ReleaseRead(x) =>
      Done(m.(cells := DropRead(m.cells, m.readGuards[x] == 0), readGuards := m.readGuards - {x}))
    case Write(x) =>
      var c := TakeWrite(m.cells);
      if c.None? then Panic else Done(m.(cells := c.value, writeGuards := m.writeGuards + {x}))
    case ReleaseWrite(x) => Done(m.(cells := DropWrite(m.cells), writeGuards := m.writeGuards - {x}))
    case Store(x, v) => Done(m.(data := v))
    case Park(t) => Done(m.(parked := m.parked + {t}))
    case Unpark(t) => Done(m.(parked := m.parked - {t}))
    case TakeBarrier => Done(m.(barrier := true))
    case ReleaseBarrier => Done(m.(barrier := false))
  }

  function MainGuards<T>(m: Machine<T>): set<nat> {
    set x | x in m.readGuards && m.readGuards[x] == 0
  }

  /** A write guard is alone: no other guard lives on any thread. */
  predicate Exclusive<T>(m: Machine<T>) {
    m.writeGuards != {} ==> m.readGuards == map[] && |m.writeGuards| == 1
  }

  ghost predicate Inv<T>(m: Machine<T>) {
    && 0 !in m.workers
    && m.parked <= m.workers
    && m.cells.readers == |MainGuards(m)|
    && (m.cells.writer <==> m.writeGuards != {})
    && (m.barrier ==> m.parked == m.workers)
    && (m.writeGuards != {} ==> m.barrier)
    && (forall x :: x in m.readGuards ==> m.readGuards[x] == 0 || (m.readGuards[x] in m.workers && m.readGuards[x] !in m.parked))
    && Exclusive(m)
  }

  function Start<T>(workers: set<nat>, data: T): Machine<T> {
    Machine(Cells(0, false), data, map[], {}, workers, {}, false)
  }

  lemma StartInv<T>(workers: set<nat>, data: T)
    requires 0 !in workers
    ensures Inv(Start(workers, data))
  {
    assert MainGuards(Start(workers, data)) == {};
  }

  /** The reader count never underflows. */
  lemma NoUnderflow<T>(m: Machine<T>, x: nat)
    requires Inv(m) && x in m.readGuards && m.readGuards[x] == 0
    ensures m.cells.readers >= 1
  {
    assert x in MainGuards(m);
  }

  lemma GuardCount<T>(m: Machine<T>, x: nat, t: nat)
    ensures x !in m.readGuards ==>
      |MainGuards(m.(readGuards := m.readGuards[x := t]))| == |MainGuards(m)| + if t == 0 then 1 else 0
    ensures x in m.readGuards ==>
      |MainGuards(m.(readGuards := m.readGuards - {x}))| == |MainGuards(m)| - if m.readGuards[x] == 0 then 1 else 0
  {
    var more := m.(readGuards := m.readGuards[x := t]);
    var less := m.(readGuards := m.readGuards - {x});
    if x !in m.readGuards {
      assert MainGuards(more) == if t == 0 then MainGuards(m) + {x} else MainGuards(m);
    } else {
      assert MainGuards(less) == if m.readGuards[x] == 0 then MainGuards(m) - {x} else MainGuards(m);
    }
  }

  lemma WriteLaw<T>(m: Machine<T>, x: nat)
    requires Inv(m) && Enabled(m, Write(x))
    ensures Step(m, Write(x)).Done? ==> Inv(Step(m, Write(x)).machine)
    ensures Step(m, Write(x)).Panic? <==>
      m.writeGuards != {} || exists y :: y in m.readGuards && m.readGuards[y] == 0
  {
    if y :| y in m.readGuards && m.readGuards[y] == 0 {
      NoUnderflow(m, y);
    } else {
      assert MainGuards(m) == {};
    }
  }

  lemma LastWriter<T>(m: Machine<T>, x: nat)
    requires Inv(m) && x in m.writeGuards
    ensures m.writeGuards == {x}
  {
    assert |m.writeGuards - {x}| == 0;
    assert m.writeGuards == (m.writeGuards - {x}) + {x};
  }

  /** Every action keeps the invariant, and panics exactly on a main-thread conflict: a read
      against a live write guard, a write against any live main-thread guard. */
  lemma StepLaw<T>(m: Machine<T>, a: Action<T>)
    requires Inv(m) && Enabled(m, a)
    ensures a.ReleaseRead? && m.readGuards[a.guard] == 0 ==> m.cells.readers >= 1
    ensures Step(m, a).Done? ==> Inv(Step(m, a).machine)
    ensures Step(m, a).Done? ==> Step(m, a).machine.data == if a.Store? then a.value else m.data
    ensures Step(m, a).Panic? <==>
      || (a.Read? && a.thread == 0 && m.writeGuards != {})
      || (a.Write? && (m.writeGuards != {} || exists x :: x in m.readGuards && m.readGuards[x] == 0))
  {
    match a
    case Read(x, t) => GuardCount(m, x, t);
    case ReleaseRead(x) =>
      if m.readGuards[x] == 0 { NoUnderflow(m, x); }
      GuardCount(m, x, 0);
    case Write(x) => WriteLaw(m, x);
    case ReleaseWrite(x) => LastWriter(m, x);
    case _ =>
  }

  // ---- whole runs ---------------------------------------------------------------------------------

  /** `acts` can happen one after the other from `m`, none of them panics, and they lead to `end`. */
  ghost predicate RunsTo<T>(m: Machine<T>, acts: seq<Action<T>>, end: Machine<T>)
    decreases |acts|
  {
    if acts == [] then end == m
    else
      && Enabled(m, acts[0])
      && (acts[0].ReleaseRead? && m.readGuards[acts[0].guard] == 0 ==> m.cells.readers >= 1)
      && Step(m, acts[0]).Done?
      && RunsTo(Step(m, acts[0]).machine, acts[1..], end)
  }

  lemma {:induction false} RunKeepsInv<T>(m: Machine<T>, acts: seq<Action<T>>, end: Machine<T>)
    requires Inv(m) && RunsTo(m, acts, end)
    ensures Inv(end)
    decreases |acts|
  {
    if acts != [] {
      StepLaw(m, acts[0]);
      RunKeepsInv(Step(m, acts[0]).machine, acts[1..], end);
    }
  }

  /** Safety over all interleavings: a write guard never coexists with any other guard on any
      thread, the count is that of the live main-thread read guards, and the flag is set
      exactly while a write guard lives. */
  lemma Safety<T>(workers: set<nat>, data: T, acts: seq<Action<T>>, end: Machine<T>)
    requires 0 !in workers && RunsTo(Start(workers, data), acts, end)
    ensures Exclusive(end)
    ensures end.cells.readers == |MainGuards(end)|
    ensures end.cells.writer <==> end.writeGuards != {}
  {
    StartInv(workers, data);
    RunKeepsInv(Start(workers, data), acts, end);
  }

  /** As long as a read guard lives, the data it gives access to does not change. */
  lemma {:induction false} ReadersSeeStableData<T>(m: Machine<T>, acts: seq<Action<T>>, end: Machine<T>, x: nat)
    requires Inv(m) && RunsTo(m, acts, end) && x in m.readGuards && ReleaseRead(x) !in acts
    ensures x in end.readGuards && end.data == m.data
    decreases |acts|
  {
    if acts != [] {
      StepLaw(m, acts[0]);
      ReadersSeeStableData(Step(m, acts[0]).machine, acts[1..], end, x);
    }
  }

  /** The promise about parking is needed: were a worker to park with a live read guard, the
      main thread could take a write guard beside it. */
  lemma ParkingWithGuardIsUnsafe<T>(data: T)
    ensures var m := Start({1}, data).(readGuards := map[7 := 1], parked := {1});
            && m.cells == Start({1}, data).cells
            && RunsTo(m, [TakeBarrier, Write(8)], m.(barrier := true, cells := Cells(0, true), writeGuards := {8}))
            && !Exclusive(m.(barrier := true, cells := Cells(0, true), writeGuards := {8}))
  {
    var m := Start({1}, data).(readGuards := map[7 := 1], parked := {1});
    var acts := [TakeBarrier, Write(8)];
    var m1 := m.(barrier := true);
    var m2 := m1.(cells := Cells(0, true), writeGuards := {8});
    assert acts[1..] == [Write(8)] && acts[1..][1..] == [];
    assert m1.writeGuards + {8} == {8};
    assert Step(m, acts[0]) == Done(m1);
    assert Step(m1, Write(8)) == Done(m2);
    assert 7 in m2.readGuards;
  }
}
