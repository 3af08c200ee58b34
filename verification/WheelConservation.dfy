/** Conservation: over any run, the contexts handed to the wheel are those still in it plus
    those handed back, with multiplicity. */
module WheelConservation {
  import TimerArithmetic
  import WheelModel
  import opened WheelCalendar
  import opened WheelRuns

  ghost function Contexts<T>(b: map<nat, Appointment<T>>): multiset<T>
    decreases |b|
  {
    if b == map[] then multiset{}
    else
      var k :| k in b;
      assert (b - {k}).Keys == b.Keys - {k};
      multiset{b[k].context} + Contexts(b - {k})
  }

  lemma Picked<T>(b: map<nat, Appointment<T>>) returns (k: nat)
    requires b != map[]
    ensures k in b && Contexts(b) == multiset{b[k].context} + Contexts(b - {k})
  {
    k :| k in b && Contexts(b) == multiset{b[k].context} + Contexts(b - {k});
  }

  lemma {:induction false} ContextsRemove<T>(b: map<nat, Appointment<T>>, k: nat)
    requires k in b
    ensures Contexts(b) == multiset{b[k].context} + Contexts(b - {k})
    decreases |b|
  {
    hide Contexts;
    var x := Picked(b);
    if x != k {
      assert (b - {x}).Keys == b.Keys - {x} && (b - {k}).Keys == b.Keys - {k};
      ContextsRemove(b - {x}, k);
      ContextsRemove(b - {k}, x);
      assert b - {x} - {k} == b - {k} - {x};
    }
  }

  lemma NoContexts<T>()
    ensures Contexts<T>(map[]) == multiset{}
  {}

  lemma Regroup<T>(x: multiset<T>, a: multiset<T>, b: multiset<T>, xa: multiset<T>, xab: multiset<T>)
    requires xa == x + a && xab == x + (a + b)
    ensures xab == xa + b
  {}

  lemma SplitOff<T>(m1: map<nat, Appointment<T>>, m2: map<nat, Appointment<T>>, k: nat)
    requires m1.Keys !! m2.Keys && k in m1
    ensures (m1 - {k}).Keys == m1.Keys - {k}
    ensures k in m1 + m2 && (m1 + m2)[k] == m1[k]
    ensures m1 + m2 - {k} == (m1 - {k}) + m2
  {}

  lemma {:induction false} ContextsSplit<T>(m1: map<nat, Appointment<T>>, m2: map<nat, Appointment<T>>)
    requires m1.Keys !! m2.Keys
    ensures Contexts(m1 + m2) == Contexts(m1) + Contexts(m2)
    decreases |m1|
  {
    hide Contexts;
    if m1 == map[] {
      assert m1 + m2 == m2;
      NoContexts<T>();
    } else {
      var k :| k in m1;
      SplitOff(m1, m2, k);
      ContextsRemove(m1 + m2, k);
      ContextsRemove(m1, k);
      ContextsSplit(m1 - {k}, m2);
      Regroup(multiset{m1[k].context}, Contexts(m1 - {k}), Contexts(m2), Contexts(m1), Contexts(m1 + m2));
    }
  }

  // ---- accounts of a log ------------------------------------------------------------------

  /** The contexts taken in by started timers. */
  ghost function TakenIn<T>(log: seq<Event<T>>): multiset<T> {
    if log == [] then multiset{}
    else (if log[0].Started? then multiset{log[0].context} else multiset{}) + TakenIn(log[1..])
  }

  /** The contexts handed back by stopped and returned timers. */
  ghost function HandedBack<T>(log: seq<Event<T>>): multiset<T> {
    if log == [] then multiset{}
    else (if log[0].Stopped? || log[0].Returned? then multiset{log[0].context} else multiset{}) + HandedBack(log[1..])
  }

  lemma {:induction false} AccountsJoin<T>(a: seq<Event<T>>, b: seq<Event<T>>)
    ensures TakenIn(a + b) == TakenIn(a) + TakenIn(b)
    ensures HandedBack(a + b) == HandedBack(a) + HandedBack(b)
  {
    if a == [] {
      assert a + b == b;
    } else {
      assert (a + b)[1..] == a[1..] + b;
      AccountsJoin(a[1..], b);
    }
  }

  lemma DeliversRest<T>(fired: seq<WheelModel.Expired<T>>, m: map<nat, Appointment<T>>)
    requires Delivers(fired, m) && fired != []
    ensures fired[0].key in m && m[fired[0].key].context == fired[0].context
    ensures Delivers(fired[1..], m - {fired[0].key})
  {
    var rest := fired[1..];
    forall k | k in m && k != fired[0].key ensures k in Keys(rest) {
      assert k in Keys(fired);
      var i :| 0 <= i < |fired| && fired[i].key == k;
      assert rest[i - 1].key == k;
    }
    assert Keys(rest) == (m - {fired[0].key}).Keys;
  }

  lemma {:induction false} ReturnedAccounts<T>(events: seq<Event<T>>, at: nat, m: map<nat, Appointment<T>>)
    requires ReturnsAll(events, at, m)
    ensures TakenIn(events) == multiset{} && HandedBack(events) == Contexts(m)
    decreases |events|
  {
    var fired := Unstamped(events);
    if events == [] {
      assert Keys(fired) == {};
      assert m == map[];
    } else {
      var k := fired[0].key;
      DeliversRest(fired, m);
      assert Unstamped(events[1..]) == fired[1..];
      ReturnedAccounts(events[1..], at, m - {k});
      ContextsRemove(m, k);
    }
  }

  lemma DueOrLater<T>(b: map<nat, Appointment<T>>, t: nat)
    ensures Later(b, t).Keys !! DueNow(b, t).Keys
    ensures b == Later(b, t) + DueNow(b, t)
  {}

  lemma AccountOf<T>(e: Event<T>)
    ensures TakenIn([e]) == (if e.Started? then multiset{e.context} else multiset{})
    ensures HandedBack([e]) == (if e.Stopped? || e.Returned? then multiset{e.context} else multiset{})
  {}

  lemma Entered<T>(b: map<nat, Appointment<T>>, b': map<nat, Appointment<T>>, k: nat)
    requires k !in b && k in b' && b' == b[k := b'[k]]
    ensures Contexts(b') == multiset{b'[k].context} + Contexts(b)
  {
    ContextsRemove(b', k);
    assert b' - {k} == b;
  }

  lemma EmptyAccounts<T>()
    ensures TakenIn<T>([]) == multiset{} && HandedBack<T>([]) == multiset{}
  {}

  lemma StartAccount<T>(b: map<nat, Appointment<T>>, b': map<nat, Appointment<T>>, k: nat)
    requires k !in b && k in b' && b' == b[k := b'[k]]
    ensures var log := [Started(k, b'[k].context)];
      TakenIn(log) + Contexts(b) == Contexts(b') + HandedBack(log)
  {
    hide Contexts, TakenIn, HandedBack;
    Entered(b, b', k);
    AccountOf(Started(k, b'[k].context));
  }

  lemma StopAccount<T>(b: map<nat, Appointment<T>>, k: nat)
    requires k in b
    ensures var log := [Stopped(k, b[k].context)];
      TakenIn(log) + Contexts(b) == Contexts(b - {k}) + HandedBack(log)
  {
    hide Contexts, TakenIn, HandedBack;
    ContextsRemove(b, k);
    AccountOf(Stopped(k, b[k].context));
  }

  lemma TickAccount<T>(b: map<nat, Appointment<T>>, t: nat, events: seq<Event<T>>)
    requires ReturnsAll(events, t, DueNow(b, t))
    ensures TakenIn(events) + Contexts(b) == Contexts(Later(b, t)) + HandedBack(events)
  {
    hide Contexts, TakenIn, HandedBack, ReturnsAll, DueNow, Later;
    DueOrLater(b, t);
    ReturnedAccounts(events, t, DueNow(b, t));
    ContextsSplit(Later(b, t), DueNow(b, t));
  }

  /** The account of one call. */
  lemma StepConserves<T>(g: TimerArithmetic.Geometry, now: nat, b: map<nat, Appointment<T>>, op: Op<T>,
                         b': map<nat, Appointment<T>>, events: seq<Event<T>>)
    requires Books(g, now, b, op, b', events)
    requires op.StartTimer? || op.StartAbsolute? ==> op.key !in b
    ensures TakenIn(events) + Contexts(b) == Contexts(b') + HandedBack(events)
  {
    hide Contexts, TakenIn, HandedBack, DueNow, Later, ReturnsAll, Promised;
    match op
    case StartTimer(k, _, _) => StartAccount(b, b', k);
    case StartAbsolute(k, expire, c) => if expire > now { StartAccount(b, b', k); } else { AccountOf(Rejected(c)); }
    case StopTimer(k) => if k in b { StopAccount(b, k); } else { EmptyAccounts<T>(); }
    case OneTick => TickAccount(b, now + 1, events);
  }

  lemma Chain<T>(a: multiset<T>, in1: multiset<T>, out1: multiset<T>, b: multiset<T>,
                 in2: multiset<T>, out2: multiset<T>, c: multiset<T>)
    requires in1 + a == b + out1 && b + in2 == c + out2
    ensures a + (in1 + in2) == c + (out1 + out2)
  {
    assert a + (in1 + in2) == (in1 + a) + in2;
    assert (b + out1) + in2 == (b + in2) + out1;
    assert (c + out2) + out1 == c + (out1 + out2);
  }

  /** Over any run: what was in the wheel plus what was started is what is still in the wheel
      plus what was stopped or returned. */
  lemma {:induction false} RunConserves<T>(g: TimerArithmetic.Geometry, w: WheelModel.Wheel<T>, ops: seq<Op<T>>)
    requires Live(g, w) && Legal(g, w, ops)
    ensures var r := Run(g, w, ops);
            Contexts(Calendar(g, w)) + TakenIn(r.1) == Contexts(Calendar(g, r.0)) + HandedBack(r.1)
    decreases |ops|
  {
    hide Idle, Step, Books, Contexts, TakenIn, HandedBack;
    if ops != [] {
      StepRefines(g, w, ops[0]);
      var s := Step(g, w, ops[0]);
      var r := Run(g, s.0, ops[1..]);
      StepConserves(g, w.now, Calendar(g, w), ops[0], Calendar(g, s.0), s.1);
      RunConserves(g, s.0, ops[1..]);
      AccountsJoin(s.1, r.1);
      Chain(Contexts(Calendar(g, w)), TakenIn(s.1), HandedBack(s.1), Contexts(Calendar(g, s.0)),
            TakenIn(r.1), HandedBack(r.1), Contexts(Calendar(g, r.0)));
    } else {
      EmptyAccounts<T>();
    }
  }
}
