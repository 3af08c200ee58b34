/** Per-thread counters: each thread adds to its own cell, and a reader sums the cells of all
    threads while they keep counting. */
module Counters {
  import opened MachineArithmetic

  function Add64(a: nat, b: nat): nat {
    (a + b) % (U64_MAX + 1)
  }

  function Sum(s: seq<nat>): nat {
    if s == [] then 0 else Sum(s[..|s| - 1]) + s[|s| - 1]
  }

  lemma {:induction false} SumMonotone(a: seq<nat>, b: seq<nat>)
    requires |a| == |b| && forall i :: 0 <= i < |a| ==> a[i] <= b[i]
    ensures Sum(a) <= Sum(b)
  {
    if a != [] { SumMonotone(a[..|a| - 1], b[..|b| - 1]); }
  }

  lemma {:induction false} PrefixBelow(s: seq<nat>, n: nat)
    requires n <= |s|
    ensures Sum(s[..n]) <= Sum(s)
    decreases |s|
  {
    if n < |s| {
      assert s[..|s| - 1][..n] == s[..n];
      PrefixBelow(s[..|s| - 1], n);
    } else {
      assert s[..n] == s;
    }
  }

  lemma {:induction false} CellBelow(s: seq<nat>, i: nat)
    requires i < |s|
    ensures s[i] <= Sum(s)
    decreases |s|
  {
    if i < |s| - 1 { CellBelow(s[..|s| - 1], i); }
  }

  lemma {:induction false} SumUpdate(s: seq<nat>, i: nat, v: nat)
    requires i < |s|
    ensures Sum(s[i := v]) == Sum(s) - s[i] + v
    decreases |s|
  {
    var u := s[i := v];
    if i < |s| - 1 {
      assert u[..|u| - 1] == s[..|s| - 1][i := v];
      SumUpdate(s[..|s| - 1], i, v);
    } else {
      assert u[..|u| - 1] == s[..|s| - 1];
    }
  }

  /** The values counter `index` has on each thread. */
  function Column(counters: seq<seq<nat>>, index: nat): (c: seq<nat>)
    requires forall t :: 0 <= t < |counters| ==> index < |counters[t]|
    ensures |c| == |counters| && forall t :: 0 <= t < |c| ==> c[t] == counters[t][index]
  {
    seq(|counters|, t requires 0 <= t < |counters| => counters[t][index])
  }

  lemma ModSum(a: nat, b: nat)
    ensures (a % (U64_MAX + 1) + b) % (U64_MAX + 1) == (a + b) % (U64_MAX + 1)
  {}

  /** One vector of cells per thread, indexed by counter. */
  class SimpleCounter {
    var counters: seq<seq<nat>>

    ghost predicate Has(index: nat)
      reads this
    {
      forall t :: 0 <= t < |counters| ==> index < |counters[t]|
    }

    /** Adds to the calling thread's cell, and touches no other thread and no other counter. */
    method Increment(thread: nat, index: nat, count: nat)
      requires Has(index) && thread < |counters|
      modifies this
      ensures Has(index) && |counters| == |old(counters)|
      ensures Column(counters, index) ==
              old(Column(counters, index))[thread := (old(counters[thread][index]) + count) % 0x1_0000_0000_0000_0000]
      ensures forall t, i :: 0 <= t < |counters| && 0 <= i < |old(counters)[t]| && i != index ==>
        i < |counters[t]| && counters[t][i] == old(counters)[t][i]
    {
      var newCount := Add64(counters[thread][index], count);
      counters := counters[thread := counters[thread][index := newCount]];
    }

    /** The sum over all threads, in 64 bits. */
    method Get(index: nat) returns (total: nat)
      requires Has(index)
      ensures total == Sum(Column(counters, index)) % 0x1_0000_0000_0000_0000
    {
      total := 0;
      var t := 0;
      while t < |counters|
        invariant 0 <= t <= |counters|
        invariant total == Sum(Column(counters, index)[..t]) % (U64_MAX + 1)
      {
        ghost var c := Column(counters, index);
        assert c[..t + 1][..t] == c[..t];
        ModSum(Sum(c[..t]), c[t]);
        total := Add64(total, counters[t][index]);
        t := t + 1;
      }
      assert Column(counters, index)[..t] == Column(counters, index);
    }
  }

  // ---- the interleaving of increments with one reader ---------------------------------------------

  /** `cells` is what is in memory; `counted` the exact sum each thread has finished adding.
      `loaded` holds the value a thread is about to store, and the amount it adds. The reader
      has read `next` cells and summed them to `sum`. */
  datatype Machine = Machine(
    cells: seq<nat>,
    counted: seq<nat>,
    loaded: map<nat, (nat, nat)>,
    next: nat,
    sum: nat)

  datatype Event =
    | Load(thread: nat, count: nat)
    | Store(thread: nat)
    | ReadCell

  predicate Enabled(m: Machine, e: Event) {
    match e
    case Load(t, _) => t < |m.cells| && t !in m.loaded
    case Store(t) => t in m.loaded && t < |m.cells| && t < |m.counted|
    case ReadCell => m.next < |m.cells|
  }

  function Step(m: Machine, e: Event): Machine
    requires Enabled(m, e)
  {
    match e
    case Load(t, count) => m.(loaded := m.loaded[t := (Add64(m.cells[t], count), count)])
    case Store(t) =>
      m.(cells := m.cells[t := m.loaded[t].0],
         counted := m.counted[t := m.counted[t] + m.loaded[t].1],
         loaded := m.loaded - {t})
    case ReadCell => m.(next := m.next + 1, sum := Add64(m.sum, m.cells[m.next]))
  }

  predicate Runnable(m: Machine, es: seq<Event>)
    decreases |es|
  {
    es == [] || (Enabled(m, es[0]) && Runnable(Step(m, es[0]), es[1..]))
  }

  function Run(m: Machine, es: seq<Event>): Machine
    requires Runnable(m, es)
    decreases |es|
  {
    if es == [] then m else Run(Step(m, es[0]), es[1..])
  }

  /** Memory agrees with what was counted, as long as the count fits; so does every pending store. */
  ghost predicate Faithful(m: Machine) {
    && |m.cells| == |m.counted|
    && (forall t :: 0 <= t < |m.cells| ==> m.cells[t] == m.counted[t] % (U64_MAX + 1))
    && (forall t :: t in m.loaded ==> t < |m.cells| && m.loaded[t].0 == Add64(m.cells[t], m.loaded[t].1))
  }

  lemma StepFaithful(m: Machine, e: Event)
    requires Faithful(m) && Enabled(m, e)
    ensures Faithful(Step(m, e))
    ensures forall t :: 0 <= t < |m.counted| ==> m.counted[t] <= Step(m, e).counted[t]
  {
    if e.Store? {
      ModSum(m.counted[e.thread], m.loaded[e.thread].1);
    }
  }

  lemma {:induction false} RunGrows(m: Machine, es: seq<Event>)
    requires Faithful(m) && Runnable(m, es)
    ensures Faithful(Run(m, es)) && |Run(m, es).counted| == |m.counted|
    ensures forall t :: 0 <= t < |m.counted| ==> m.counted[t] <= Run(m, es).counted[t]
    decreases |es|
  {
    if es != [] {
      StepFaithful(m, es[0]);
      RunGrows(Step(m, es[0]), es[1..]);
    }
  }

  /** What the reader has so far lies between what the cells it read had counted at the start
      of the read and what they have counted now. */
  ghost predicate Bracketed(start: seq<nat>, m: Machine) {
    && m.next <= |m.counted| == |start|
    && Sum(start[..m.next]) <= m.sum <= Sum(m.counted[..m.next])
    && (forall t :: 0 <= t < |start| ==> start[t] <= m.counted[t])
  }

  lemma SumLast(s: seq<nat>, n: nat)
    requires n < |s|
    ensures Sum(s[..n + 1]) == Sum(s[..n]) + s[n]
  {
    assert s[..n + 1][..n] == s[..n];
  }

  lemma AddFits(a: nat, x: nat)
    requires a + x <= U64_MAX
    ensures Add64(a, x % (U64_MAX + 1)) == a + x
  {}

  /** While the totals fit in 64 bits, reading a cell adds what its thread has counted. */
  lemma ReadAdds(m: Machine)
    requires Faithful(m) && m.next < |m.cells| && m.sum <= Sum(m.counted[..m.next]) && Sum(m.counted) <= U64_MAX
    ensures Add64(m.sum, m.cells[m.next]) == m.sum + m.counted[m.next]
  {
    hide Sum, Add64;
    CellBelow(m.counted, m.next);
    PrefixBelow(m.counted, m.next + 1);
    SumLast(m.counted, m.next);
    AddFits(m.sum, m.counted[m.next]);
  }

  lemma StepBracketed(start: seq<nat>, m: Machine, e: Event)
    requires Faithful(m) && Enabled(m, e) && Bracketed(start, m) && Sum(Step(m, e).counted) <= U64_MAX
    ensures Bracketed(start, Step(m, e))
  {
    StepFaithful(m, e);
    match e
    case Load(_, _) =>
    case Store(t) =>
      SumMonotone(m.counted[..m.next], Step(m, e).counted[..m.next]);
    case ReadCell =>
      ReadAdds(m);
      SumLast(start, m.next);
      SumLast(m.counted, m.next);
  }

  lemma {:induction false} RunBracketed(start: seq<nat>, m: Machine, es: seq<Event>)
    requires Faithful(m) && Runnable(m, es) && Bracketed(start, m) && Sum(Run(m, es).counted) <= U64_MAX
    ensures Bracketed(start, Run(m, es))
    decreases |es|
  {
    if es != [] {
      var s := Step(m, es[0]);
      StepFaithful(m, es[0]);
      RunGrows(s, es[1..]);
      SumMonotone(s.counted, Run(s, es[1..]).counted);
      StepBracketed(start, m, es[0]);
      RunBracketed(start, s, es[1..]);
    }
  }

  lemma {:induction false} QuietRun(m: Machine, es: seq<Event>)
    requires Runnable(m, es) && forall t :: Store(t) !in es
    ensures Run(m, es).counted == m.counted
    decreases |es|
  {
    if es != [] {
      assert es[0] in es;
      QuietRun(Step(m, es[0]), es[1..]);
    }
  }

  /** The amounts that increments have loaded but not stored. */
  function Pending(m: Machine): map<nat, nat> {
    map t | t in m.loaded :: m.loaded[t].1
  }

  /** The amounts of the increments that are finished in `es`, those in `pending` having been loaded. */
  function Finished(es: seq<Event>, pending: map<nat, nat>): nat {
    if es == [] then 0
    else
      match es[0]
      case Load(t, count) => Finished(es[1..], pending[t := count])
      case Store(t) => (if t in pending then pending[t] else 0) + Finished(es[1..], pending - {t})
      case ReadCell => Finished(es[1..], pending)
  }

  lemma StepCounts(m: Machine, e: Event)
    requires Enabled(m, e)
    ensures e.Store? ==> e.thread in Pending(m)
    ensures Sum(Step(m, e).counted) == Sum(m.counted) + if e.Store? then Pending(m)[e.thread] else 0
    ensures Pending(Step(m, e)) ==
      match e
      case Load(t, count) => Pending(m)[t := count]
      case Store(t) => Pending(m) - {t}
      case ReadCell => Pending(m)
  {
    if e.Store? {
      SumUpdate(m.counted, e.thread, m.counted[e.thread] + m.loaded[e.thread].1);
    }
  }

  /** The true total after a run is the true total before it and the amounts of the increments that
      finished. */
  lemma {:induction false} TotalCountsFinished(m: Machine, es: seq<Event>)
    requires Runnable(m, es)
    ensures Sum(Run(m, es).counted) == Sum(m.counted) + Finished(es, Pending(m))
    decreases |es|
  {
    hide Step, Pending, Enabled;
    if es != [] {
      StepCounts(m, es[0]);
      TotalCountsFinished(Step(m, es[0]), es[1..]);
    }
  }

  /** A read interleaved arbitrarily with increments returns a value between the true total when
      it began and the true total when it ended; with no increment finished meanwhile, it is
      exactly the total. */
  lemma GetIsBracketed(m: Machine, es: seq<Event>)
    requires Faithful(m) && m.next == 0 && m.sum == 0
    requires Runnable(m, es) && Run(m, es).next == |m.cells| && Sum(Run(m, es).counted) <= U64_MAX
    ensures Sum(m.counted) <= Run(m, es).sum <= Sum(Run(m, es).counted)
    ensures Run(m, es).sum <= Sum(m.counted) + Finished(es, Pending(m))
    ensures (forall t :: Store(t) !in es) ==> Run(m, es).sum == Sum(m.counted)
  {
    var r := Run(m, es);
    assert Bracketed(m.counted, m);
    RunBracketed(m.counted, m, es);
    RunGrows(m, es);
    TotalCountsFinished(m, es);
    assert m.counted[..r.next] == m.counted && r.counted[..r.next] == r.counted;
    if forall t :: Store(t) !in es { QuietRun(m, es); }
  }

  // ---- packets and bytes ---------------------------------------------------------------------------

  /** A combined counter is two cells per thread, loaded and stored separately. */
  datatype Combined = Combined(packets: Machine, bytes: Machine)

  datatype CombinedEvent = OnPackets(e: Event) | OnBytes(e: Event)

  predicate CombinedRunnable(c: Combined, es: seq<CombinedEvent>)
    decreases |es|
  {
    es == [] ||
    match es[0]
    case OnPackets(e) => Enabled(c.packets, e) && CombinedRunnable(c.(packets := Step(c.packets, e)), es[1..])
    case OnBytes(e) => Enabled(c.bytes, e) && CombinedRunnable(c.(bytes := Step(c.bytes, e)), es[1..])
  }

  function CombinedRun(c: Combined, es: seq<CombinedEvent>): Combined
    requires CombinedRunnable(c, es)
    decreases |es|
  {
    if es == [] then c
    else
      match es[0]
      case OnPackets(e) => CombinedRun(c.(packets := Step(c.packets, e)), es[1..])
      case OnBytes(e) => CombinedRun(c.(bytes := Step(c.bytes, e)), es[1..])
  }

  function PacketEvents(es: seq<CombinedEvent>): seq<Event> {
    if es == [] then []
    else (if es[0].OnPackets? then [es[0].e] else []) + PacketEvents(es[1..])
  }

  function ByteEvents(es: seq<CombinedEvent>): seq<Event> {
    if es == [] then []
    else (if es[0].OnBytes? then [es[0].e] else []) + ByteEvents(es[1..])
  }

  lemma {:induction false} Projects(c: Combined, es: seq<CombinedEvent>)
    requires CombinedRunnable(c, es)
    ensures Runnable(c.packets, PacketEvents(es)) && Runnable(c.bytes, ByteEvents(es))
    ensures CombinedRun(c, es) == Combined(Run(c.packets, PacketEvents(es)), Run(c.bytes, ByteEvents(es)))
    decreases |es|
  {
    if es != [] {
      match es[0]
      case OnPackets(e) =>
        Projects(c.(packets := Step(c.packets, e)), es[1..]);
        assert ([e] + PacketEvents(es[1..]))[1..] == PacketEvents(es[1..]);
        assert ByteEvents(es) == ByteEvents(es[1..]);
      case OnBytes(e) =>
        Projects(c.(bytes := Step(c.bytes, e)), es[1..]);
        assert ([e] + ByteEvents(es[1..]))[1..] == ByteEvents(es[1..]);
        assert PacketEvents(es) == PacketEvents(es[1..]);
    }
  }

  lemma {:induction false} EventsOfComponents(es: seq<CombinedEvent>, e: Event)
    ensures e in PacketEvents(es) <==> OnPackets(e) in es
    ensures e in ByteEvents(es) <==> OnBytes(e) in es
  {
    if es != [] {
      EventsOfComponents(es[1..], e);
      assert es == [es[0]] + es[1..];
    }
  }

  /** For a combined counter the bracket holds for packets and for bytes, each on its own; and each is
      the exact total when no increment of that component finishes meanwhile. */
  lemma CombinedGetIsBracketed(c: Combined, es: seq<CombinedEvent>)
    requires Faithful(c.packets) && c.packets.next == 0 && c.packets.sum == 0
    requires Faithful(c.bytes) && c.bytes.next == 0 && c.bytes.sum == 0
    requires CombinedRunnable(c, es)
    requires var r := CombinedRun(c, es);
             && r.packets.next == |c.packets.cells| && Sum(r.packets.counted) <= U64_MAX
             && r.bytes.next == |c.bytes.cells| && Sum(r.bytes.counted) <= U64_MAX
    ensures var r := CombinedRun(c, es);
            && Sum(c.packets.counted) <= r.packets.sum <= Sum(r.packets.counted)
            && Sum(c.bytes.counted) <= r.bytes.sum <= Sum(r.bytes.counted)
            && ((forall t :: OnPackets(Store(t)) !in es) ==> r.packets.sum == Sum(c.packets.counted))
            && ((forall t :: OnBytes(Store(t)) !in es) ==> r.bytes.sum == Sum(c.bytes.counted))
  {
    Projects(c, es);
    forall t ensures Store(t) in PacketEvents(es) <==> OnPackets(Store(t)) in es {
      EventsOfComponents(es, Store(t));
    }
    forall t ensures Store(t) in ByteEvents(es) <==> OnBytes(Store(t)) in es {
      EventsOfComponents(es, Store(t));
    }
    GetIsBracketed(c.packets, PacketEvents(es));
    GetIsBracketed(c.bytes, ByteEvents(es));
  }
}
