/** Whole runs of the timer wheel: any sequence of starts, stops and ticks. */
module WheelRuns {
  import MachineArithmetic
  import opened TimerArithmetic
  import TimerLaw
  import opened WheelModel
  import opened WheelCalendar

  /** One call. `key` is the vacant key the slab picks for a new timer. */
  datatype Op<T> =
    | StartTimer(key: nat, interval: nat, context: T)
    | StartAbsolute(key: nat, expire: nat, context: T)
    | StopTimer(key: nat)
    | OneTick

  /** What a call takes from its caller or hands back. */
  datatype Event<T> =
    | Started(key: nat, context: T)
    | Rejected(context: T)
    | Stopped(key: nat, context: T)
    | Returned(at: nat, key: nat, context: T)

  ghost predicate Live<T>(g: Geometry, w: Wheel<T>) {
    Idle(g, w) && w.now <= MachineArithmetic.U64_MAX
  }

  /** The slab gives out vacant keys only, and the clock does not overflow. */
  predicate Allowed<T>(w: Wheel<T>, op: Op<T>) {
    match op
    case StartTimer(k, _, _) => k !in w.timers
    case StartAbsolute(k, _, _) => k !in w.timers
    case StopTimer(_) => true
    case OneTick => w.now < MachineArithmetic.U64_MAX
  }

  function Returns<T>(fired: seq<Expired<T>>, at: nat): (r: seq<Event<T>>)
    ensures |r| == |fired|
    ensures forall i :: 0 <= i < |r| ==> r[i] == Returned(at, fired[i].key, fired[i].context)
  {
    seq(|fired|, i requires 0 <= i < |fired| => Returned(at, fired[i].key, fired[i].context))
  }

  function Unstamped<T>(events: seq<Event<T>>): (fired: seq<Expired<T>>)
    requires forall i :: 0 <= i < |events| ==> events[i].Returned?
    ensures |fired| == |events|
    ensures forall i :: 0 <= i < |events| ==> fired[i] == Expired(events[i].key, events[i].context)
  {
    seq(|events|, i requires 0 <= i < |events| => Expired(events[i].key, events[i].context))
  }

  /** `events` return every appointment of `m` once, at tick `at`, and nothing else. */
  ghost predicate ReturnsAll<T>(events: seq<Event<T>>, at: nat, m: map<nat, Appointment<T>>) {
    && (forall i :: 0 <= i < |events| ==> events[i].Returned? && events[i].at == at)
    && Delivers(Unstamped(events), m)
  }

  lemma TickReturnsAll<T>(fired: seq<Expired<T>>, at: nat, m: map<nat, Appointment<T>>)
    requires Delivers(fired, m)
    ensures ReturnsAll(Returns(fired, at), at, m)
  {
    assert Unstamped(Returns(fired, at)) == fired;
  }

  function Step<T>(g: Geometry, w: Wheel<T>, op: Op<T>): (Wheel<T>, seq<Event<T>>)
    requires Live(g, w) && Allowed(w, op)
  {
    match op
    case StartTimer(k, interval, context) =>
      (Start(g, w, k, SaturatingAdd(w.now, interval), context), [Started(k, context)])
    case StartAbsolute(k, expire, context) =>
      if expire <= w.now then (w, [Rejected(context)])
      else (Start(g, w, k, expire, context), [Started(k, context)])
    case StopTimer(k) =>
      if k in w.timers then (Stop(w, k), [Stopped(k, w.timers[k].context)]) else (w, [])
    case OneTick =>
      var t := Tick(g, w);
      (t.0, Returns(t.1, w.now + 1))
  }

  /** What a call does to the calendar: the simple form that the wheel refines. */
  ghost predicate Books<T>(g: Geometry, now: nat, b: map<nat, Appointment<T>>, op: Op<T>,
                           b': map<nat, Appointment<T>>, events: seq<Event<T>>)
  {
    match op
    case StartTimer(k, interval, context) =>
      var expire := SaturatingAdd(now, interval);
      now <= expire && b' == b[k := Appointment(expire, Promised(g, now, expire), context)] && events == [Started(k, context)]
    case StartAbsolute(k, expire, context) =>
      if expire <= now then b' == b && events == [Rejected(context)]
      else b' == b[k := Appointment(expire, Promised(g, now, expire), context)] && events == [Started(k, context)]
    case StopTimer(k) =>
      if k in b then b' == b - {k} && events == [Stopped(k, b[k].context)] else b' == b && events == []
    case OneTick =>
      b' == Later(b, now + 1) && ReturnsAll(events, now + 1, DueNow(b, now + 1))
  }

  function NowAfter<T>(now: nat, op: Op<T>): nat {
    if op.OneTick? then now + 1 else now
  }

  lemma TickRefines<T>(g: Geometry, w: Wheel<T>)
    requires Live(g, w) && w.now < MachineArithmetic.U64_MAX
    ensures var t := Tick(g, w);
            && Live(g, t.0)
            && Calendar(g, t.0) == Later(Calendar(g, w), w.now + 1)
            && ReturnsAll(Returns(t.1, w.now + 1), w.now + 1, DueNow(Calendar(g, w), w.now + 1))
  {
    hide Sound, Threaded, Shaped, TimerLaw.Positions, Tick, Book, Delivers, Returns;
    TickLaw(g, w);
    TickReturnsAll(Tick(g, w).1, w.now + 1, DueNow(Calendar(g, w), w.now + 1));
  }

  /** Every call of the wheel does to the calendar what `Books` says. */
  lemma StepRefines<T>(g: Geometry, w: Wheel<T>, op: Op<T>)
    requires Live(g, w) && Allowed(w, op)
    ensures var s := Step(g, w, op);
            && Live(g, s.0)
            && s.0.now == NowAfter(w.now, op)
            && Books(g, w.now, Calendar(g, w), op, Calendar(g, s.0), s.1)
  {
    hide Sound, Shaped, Threaded, Promised, Book, Tick, DueNow, Later, ReturnsAll, TimerLaw.Positions;
    match op
    case StartTimer(k, interval, context) => StartLaw(g, w, k, SaturatingAdd(w.now, interval), context);
    case StartAbsolute(k, expire, context) =>
      if expire > w.now { StartLaw(g, w, k, expire, context); }
    case StopTimer(k) =>
      if k in w.timers { StopLaw(g, w, k); }
    case OneTick => TickRefines(g, w);
  }

  ghost predicate Legal<T>(g: Geometry, w: Wheel<T>, ops: seq<Op<T>>)
    requires Live(g, w)
    decreases |ops|
  {
    ops == [] ||
    (Allowed(w, ops[0]) && (StepRefines(g, w, ops[0]); Legal(g, Step(g, w, ops[0]).0, ops[1..])))
  }

  function Run<T>(g: Geometry, w: Wheel<T>, ops: seq<Op<T>>): (r: (Wheel<T>, seq<Event<T>>))
    requires Live(g, w) && Legal(g, w, ops)
    decreases |ops|
  {
    if ops == [] then (w, [])
    else
      StepRefines(g, w, ops[0]);
      var s := Step(g, w, ops[0]);
      var r := Run(g, s.0, ops[1..]);
      (r.0, s.1 + r.1)
  }

  // ---- an unstopped timer fires when promised, whatever else is called ----------------------------

  /** The first time timer `k` is returned by the wheel, as a list of at most one event. */
  function FirstReturn<T>(log: seq<Event<T>>, k: nat): (r: seq<Event<T>>)
  {
    if log == [] then []
    else if log[0].Returned? && log[0].key == k then [log[0]]
    else FirstReturn(log[1..], k)
  }

  lemma {:induction false} FirstReturnJoin<T>(a: seq<Event<T>>, b: seq<Event<T>>, k: nat)
    ensures FirstReturn(a + b, k) == if FirstReturn(a, k) != [] then FirstReturn(a, k) else FirstReturn(b, k)
  {
    if a == [] {
      assert a + b == b;
    } else {
      assert (a + b)[1..] == a[1..] + b;
      FirstReturnJoin(a[1..], b, k);
    }
  }

  lemma {:induction false} FirstReturnOf<T>(log: seq<Event<T>>, k: nat, i: nat)
    requires i < |log| && log[i].Returned? && log[i].key == k
    requires forall j :: 0 <= j < i ==> !(log[j].Returned? && log[j].key == k)
    ensures FirstReturn(log, k) == [log[i]]
  {
    if i > 0 { FirstReturnOf(log[1..], k, i - 1); }
  }

  lemma {:induction false} NoReturnOf<T>(log: seq<Event<T>>, k: nat)
    requires forall j :: 0 <= j < |log| ==> !(log[j].Returned? && log[j].key == k)
    ensures FirstReturn(log, k) == []
  {
    if log != [] { NoReturnOf(log[1..], k); }
  }

  lemma TickReturns<T>(events: seq<Event<T>>, at: nat, m: map<nat, Appointment<T>>, k: nat)
    requires ReturnsAll(events, at, m)
    ensures FirstReturn(events, k) == if k in m then [Returned(at, k, m[k].context)] else []
  {
    var fired := Unstamped(events);
    if k in m {
      assert k in Keys(fired);
      var i :| 0 <= i < |fired| && fired[i].key == k;
      FirstReturnOf(events, k, i);
    } else {
      forall i | 0 <= i < |events| ensures events[i].key != k {
        assert fired[i].key in m;
      }
      NoReturnOf(events, k);
    }
  }

  /** One call keeps the appointment of every timer it does not stop or return, and returns a
      timer exactly at its appointment. */
  lemma StepLaw<T>(g: Geometry, now: nat, b: map<nat, Appointment<T>>, op: Op<T>,
                   b': map<nat, Appointment<T>>, events: seq<Event<T>>, k: nat)
    requires Books(g, now, b, op, b', events) && k in b && b[k].fireAt > now
    requires op != StopTimer(k) && (op.StartTimer? || op.StartAbsolute? ==> op.key != k)
    ensures var t := NowAfter(now, op);
            if b[k].fireAt == t then FirstReturn(events, k) == [Returned(t, k, b[k].context)]
            else b[k].fireAt > t && FirstReturn(events, k) == [] && k in b' && b'[k] == b[k]
  {
    if op.OneTick? {
      TickReturns(events, now + 1, DueNow(b, now + 1), k);
    }
  }

  /** `k` is returned when the clock reaches appointment `p`, and is still booked before that. */
  ghost predicate Honoured<T>(b': map<nat, Appointment<T>>, now': nat, log: seq<Event<T>>, k: nat, p: Appointment<T>) {
    if now' < p.fireAt then FirstReturn(log, k) == [] && k in b' && b'[k] == p
    else FirstReturn(log, k) == [Returned(p.fireAt, k, p.context)]
  }

  lemma {:induction false} RunForward<T>(g: Geometry, w: Wheel<T>, ops: seq<Op<T>>)
    requires Live(g, w) && Legal(g, w, ops)
    ensures Run(g, w, ops).0.now >= w.now && Live(g, Run(g, w, ops).0)
    decreases |ops|
  {
    hide Idle, Step, Books;
    if ops != [] {
      StepRefines(g, w, ops[0]);
      RunForward(g, Step(g, w, ops[0]).0, ops[1..]);
    }
  }

  /** Over any run in which it is not stopped, a live timer is returned exactly when the clock
      reaches its appointment, with its own context, and not before. */
  lemma {:induction false} RunLaw<T>(g: Geometry, w: Wheel<T>, ops: seq<Op<T>>, k: nat)
    requires Live(g, w) && Legal(g, w, ops) && k in w.timers && StopTimer(k) !in ops
    ensures var r := Run(g, w, ops);
            Honoured(Calendar(g, r.0), r.0.now, r.1, k, Calendar(g, w)[k])
    decreases |ops|
  {
    hide Idle, Book, Step, Books;
    AppointmentsAhead(g, w, k);
    if ops != [] {
      var s := Step(g, w, ops[0]);
      var b := Calendar(g, w);
      StepRefines(g, w, ops[0]);
      StepLaw(g, w.now, b, ops[0], Calendar(g, s.0), s.1, k);
      FirstReturnJoin(s.1, Run(g, s.0, ops[1..]).1, k);
      if b[k].fireAt != s.0.now {
        RunLaw(g, s.0, ops[1..], k);
      } else {
        RunForward(g, s.0, ops[1..]);
      }
    }
  }

  predicate Starts<T>(now: nat, op: Op<T>) {
    op.StartTimer? || (op.StartAbsolute? && op.expire > now)
  }

  function ExpiryOf<T>(now: nat, op: Op<T>): nat
    requires Starts(now, op)
  {
    if op.StartTimer? then SaturatingAdd(now, op.interval) else op.expire
  }

  lemma StartedAppointment<T>(g: Geometry, w: Wheel<T>, op: Op<T>)
    requires Live(g, w) && Starts(w.now, op) && op.key !in w.timers
    ensures w.now <= ExpiryOf(w.now, op)
    ensures var s := Step(g, w, op);
            var e := ExpiryOf(w.now, op);
            && Idle(g, s.0) && op.key in s.0.timers
            && Calendar(g, s.0)[op.key] == Appointment(e, Promised(g, w.now, e), op.context)
            && FirstReturn(s.1, op.key) == []
  {
    hide Sound, Shaped, Threaded, Book, TimerLaw.FireTick, TimerLaw.Positions, Start, Promised;
    StartLaw(g, w, op.key, ExpiryOf(w.now, op), op.context);
    NoReturnOf(Step(g, w, op).1, op.key);
  }

  lemma RunStep<T>(g: Geometry, w: Wheel<T>, op: Op<T>, ops: seq<Op<T>>)
    requires Live(g, w) && Legal(g, w, [op] + ops)
    ensures Allowed(w, op) && Live(g, Step(g, w, op).0) && Legal(g, Step(g, w, op).0, ops)
    ensures var s := Step(g, w, op);
            var r := Run(g, s.0, ops);
            Run(g, w, [op] + ops) == (r.0, s.1 + r.1)
  {
    hide Idle, Step, Books;
    assert ([op] + ops)[1..] == ops;
    StepRefines(g, w, op);
  }

  /** A started timer is returned first when the calendar says, with its own context. */
  lemma PromiseKept<T>(g: Geometry, w: Wheel<T>, op: Op<T>, ops: seq<Op<T>>)
    requires Live(g, w) && Starts(w.now, op) && op.key !in w.timers && StopTimer(op.key) !in ops
    requires Legal(g, w, [op] + ops)
    ensures w.now <= ExpiryOf(w.now, op)
    ensures var r := Run(g, w, [op] + ops);
            var at := Promised(g, w.now, ExpiryOf(w.now, op));
            FirstReturn(r.1, op.key) == if r.0.now < at then [] else [Returned(at, op.key, op.context)]
  {
    hide Idle, Promised, Step, Books, Run, Legal, ExpiryOf;
    assert ([op] + ops)[1..] == ops;
    StepRefines(g, w, op);
    StartedAppointment(g, w, op);
    RunStep(g, w, op, ops);
    var s := Step(g, w, op);
    RunLaw(g, s.0, ops, op.key);
    FirstReturnJoin(s.1, Run(g, s.0, ops).1, op.key);
  }

  /** The firing-time law: a timer that is started, by interval or by time, and not stopped is returned
      first at one tick, whatever other timers are started, stopped or returned. Its expiry is the given
      time, or the present time plus the interval as far as the clock goes. When the expiry is ahead, the
      tick is `FireTick`: no earlier than the expiry, and at most one range less one top-level slot after
      it. When it is the present time, the tick is the next one or a whole turn away. */
  lemma FiringTimeLaw<T>(g: Geometry, w: Wheel<T>, op: Op<T>, ops: seq<Op<T>>)
    requires Live(g, w) && Starts(w.now, op) && op.key !in w.timers && StopTimer(op.key) !in ops
    requires Legal(g, w, [op] + ops)
    ensures var r := Run(g, w, [op] + ops);
            var e := if op.StartAbsolute? then op.expire
                     else if w.now + op.interval <= 0xFFFF_FFFF_FFFF_FFFF then w.now + op.interval
                     else 0xFFFF_FFFF_FFFF_FFFF;
            && w.now <= e
            && var at := if w.now < e then TimerLaw.FireTick(g, w.now, e)
                         else if w.now % g.slots == 0 then w.now + 1
                         else w.now + g.slots;
               && FirstReturn(r.1, op.key) == (if r.0.now < at then [] else [Returned(at, op.key, op.context)])
               && (w.now < e ==> e <= at <= e + g.Span(g.levels) - g.Span(g.levels - 1))
  {
    hide Live, TimerLaw.FireTick, Run, Legal, FirstReturn;
    PromiseKept(g, w, op, ops);
    if w.now < ExpiryOf(w.now, op) {
      TimerLaw.FireTickBounds(g, w.now, ExpiryOf(w.now, op));
    }
  }

  /** For intervals: unless the clock overflows, an interval of at least one tick is over at
      `now + interval`, and the timer is returned first in the window that starts there. */
  lemma IntervalLaw<T>(g: Geometry, w: Wheel<T>, k: nat, interval: nat, context: T, ops: seq<Op<T>>)
    requires Live(g, w) && k !in w.timers && StopTimer(k) !in ops
    requires interval >= 1 && w.now + interval <= 0xFFFF_FFFF_FFFF_FFFF
    requires Legal(g, w, [StartTimer(k, interval, context)] + ops)
    ensures var r := Run(g, w, [StartTimer(k, interval, context)] + ops);
            var slack := g.Span(g.levels) - g.Span(g.levels - 1);
            && (r.0.now < w.now + interval ==> FirstReturn(r.1, k) == [])
            && (r.0.now >= w.now + interval + slack ==> FirstReturn(r.1, k) != [])
            && (FirstReturn(r.1, k) != [] ==>
                  exists at :: w.now + interval <= at <= w.now + interval + slack
                               && FirstReturn(r.1, k) == [Returned(at, k, context)])
  {
    hide Idle, TimerLaw.FireTick, Step, Books, Run, Legal, FirstReturn;
    FiringTimeLaw(g, w, StartTimer(k, interval, context), ops);
  }

  // ---- no timer is handed back twice ------------------------------------------------------------------

  /** How often timer `k` was handed back, by return or by stop, and how often it was started. */
  function HandedBackOf<T>(log: seq<Event<T>>, k: nat): nat {
    if log == [] then 0
    else (if (log[0].Stopped? || log[0].Returned?) && log[0].key == k then 1 else 0) + HandedBackOf(log[1..], k)
  }

  function StartedOf<T>(log: seq<Event<T>>, k: nat): nat {
    if log == [] then 0
    else (if log[0].Started? && log[0].key == k then 1 else 0) + StartedOf(log[1..], k)
  }

  lemma {:induction false} CountsJoin<T>(a: seq<Event<T>>, b: seq<Event<T>>, k: nat)
    ensures HandedBackOf(a + b, k) == HandedBackOf(a, k) + HandedBackOf(b, k)
    ensures StartedOf(a + b, k) == StartedOf(a, k) + StartedOf(b, k)
  {
    if a == [] {
      assert a + b == b;
    } else {
      assert (a + b)[1..] == a[1..] + b;
      CountsJoin(a[1..], b, k);
    }
  }

  lemma {:induction false} ReturnsOnce<T>(events: seq<Event<T>>, k: nat)
    requires forall i :: 0 <= i < |events| ==> events[i].Returned?
    requires forall i, j :: 0 <= i < j < |events| ==> events[i].key != events[j].key
    ensures StartedOf(events, k) == 0
    ensures HandedBackOf(events, k) == if exists i :: 0 <= i < |events| && events[i].key == k then 1 else 0
  {
    if events != [] {
      ReturnsOnce(events[1..], k);
      if events[0].key == k {
        assert forall i :: 0 <= i < |events[1..]| ==> events[1..][i].key != events[0].key;
      } else {
        assert forall i :: 0 < i < |events| ==> events[1..][i - 1] == events[i];
      }
    }
  }

  lemma TickCounts<T>(events: seq<Event<T>>, at: nat, m: map<nat, Appointment<T>>, k: nat)
    requires ReturnsAll(events, at, m)
    ensures StartedOf(events, k) == 0 && HandedBackOf(events, k) == if k in m then 1 else 0
  {
    var fired := Unstamped(events);
    assert forall i :: 0 <= i < |events| ==> fired[i].key == events[i].key;
    ReturnsOnce(events, k);
    if k in m {
      assert k in Keys(fired);
    }
  }

  function Booked<T>(b: map<nat, Appointment<T>>, k: nat): nat {
    if k in b then 1 else 0
  }

  lemma StepCounts<T>(g: Geometry, now: nat, b: map<nat, Appointment<T>>, op: Op<T>,
                      b': map<nat, Appointment<T>>, events: seq<Event<T>>, k: nat)
    requires Books(g, now, b, op, b', events)
    requires op.StartTimer? || op.StartAbsolute? ==> op.key !in b
    ensures HandedBackOf(events, k) + Booked(b', k) == StartedOf(events, k) + Booked(b, k)
  {
    hide ReturnsAll, Promised;
    if op.OneTick? {
      TickCounts(events, now + 1, DueNow(b, now + 1), k);
    } else {
      assert |events| <= 1 && (events != [] ==> events[1..] == []);
    }
  }

  lemma NoCounts<T>(k: nat)
    ensures HandedBackOf<T>([], k) == 0 && StartedOf<T>([], k) == 0
  {}

  /** Over any run and for every key: what was handed back, and what is live at the end, is what was
      live at the beginning and what was started. So nothing is delivered twice. */
  lemma {:induction false} KeyBalance<T>(g: Geometry, w: Wheel<T>, ops: seq<Op<T>>, k: nat)
    requires Live(g, w) && Legal(g, w, ops)
    ensures var r := Run(g, w, ops);
      HandedBackOf(r.1, k) + Booked(Calendar(g, r.0), k) == StartedOf(r.1, k) + Booked(Calendar(g, w), k)
    decreases |ops|
  {
    hide Idle, Step, Books, HandedBackOf, StartedOf, Booked;
    if ops == [] {
      NoCounts<T>(k);
    } else {
      StepRefines(g, w, ops[0]);
      var s := Step(g, w, ops[0]);
      StepCounts(g, w.now, Calendar(g, w), ops[0], Calendar(g, s.0), s.1, k);
      KeyBalance(g, s.0, ops[1..], k);
      CountsJoin(s.1, Run(g, s.0, ops[1..]).1, k);
    }
  }
}
