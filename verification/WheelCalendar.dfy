/** The wheel refines a calendar: a map from slab key to the tick at which the timer will be
    returned. Every public operation acts on the calendar as its documentation promises. */
module WheelCalendar {
  import MachineArithmetic
  import opened TimerArithmetic
  import opened TimerLaw
  import opened WheelModel

  datatype Appointment<T> = Appointment(expire: nat, fireAt: nat, context: T)

  // ---- fates ------------------------------------------------------------------------------

  ghost predicate SoundKey<T>(g: Geometry, w: Wheel<T>, stage: nat, pending: set<nat>, k: nat)
    requires k in w.timers
  {
    var t := w.timers[k];
    if k in pending then
      stage >= 1 && Settled(g, stage - 1, w.now, t.expire) && Prompt(g, stage - 1, w.now, t.expire, w.now)
    else
      var due := Due(g, w.now, stage, t.home);
      && Settled(g, t.home.level, due, t.expire)
      && Prompt(g, t.home.level, due, t.expire, w.now)
      && (due > w.now || (due == w.now && t.home.level >= stage))
  }

  /** Every filed timer sits where its expiry allows and is not overdue; every pending timer
      was taken from the slot of level `stage - 1` that is drained at `w.now`. */
  ghost predicate Sound<T>(g: Geometry, w: Wheel<T>, stage: nat, pending: set<nat>)
  {
    forall k :: k in w.timers ==> SoundKey(g, w, stage, pending, k)
  }

  /** The tick that returns timer `k` (of no meaning for a timer that is not sound). */
  ghost function Fate<T>(g: Geometry, w: Wheel<T>, stage: nat, pending: set<nat>, k: nat): (f: nat)
    requires k in w.timers
    ensures f >= w.now
  {
    var t := w.timers[k];
    if !SoundKey(g, w, stage, pending, k) then w.now
    else if k in pending then FireAt(g, stage - 1, w.now, t.expire)
    else FireAt(g, t.home.level, Due(g, w.now, stage, t.home), t.expire)
  }

  ghost function Book<T>(g: Geometry, w: Wheel<T>, stage: nat, pending: set<nat>): (b: map<nat, Appointment<T>>)
    ensures b.Keys == w.timers.Keys
    ensures forall k :: k in b ==>
      b[k] == Appointment(w.timers[k].expire, Fate(g, w, stage, pending, k), w.timers[k].context)
  {
    map k | k in w.timers ::
      Appointment(w.timers[k].expire, Fate(g, w, stage, pending, k), w.timers[k].context)
  }

  /** The appointments kept at tick `t`, and those still to come. */
  function DueNow<T>(b: map<nat, Appointment<T>>, t: nat): map<nat, Appointment<T>> {
    map k | k in b && b[k].fireAt == t :: b[k]
  }

  function Later<T>(b: map<nat, Appointment<T>>, t: nat): map<nat, Appointment<T>> {
    map k | k in b && b[k].fireAt != t :: b[k]
  }

  ghost function Keys<T>(fired: seq<Expired<T>>): (r: set<nat>)
    ensures forall i :: 0 <= i < |fired| ==> fired[i].key in r
  {
    set i | 0 <= i < |fired| :: fired[i].key
  }

  /** `fired` lists each appointment of `m` exactly once, with its context. */
  ghost predicate Delivers<T>(fired: seq<Expired<T>>, m: map<nat, Appointment<T>>) {
    && (forall i, j :: 0 <= i < j < |fired| ==> fired[i].key != fired[j].key)
    && (forall i :: 0 <= i < |fired| ==> fired[i].key in m && m[fired[i].key].context == fired[i].context)
    && Keys(fired) == m.Keys
  }

  lemma DeliversBoth<T>(f1: seq<Expired<T>>, m1: map<nat, Appointment<T>>,
                        f2: seq<Expired<T>>, m2: map<nat, Appointment<T>>)
    requires Delivers(f1, m1) && Delivers(f2, m2) && m1.Keys !! m2.Keys
    ensures Delivers(f1 + f2, m1 + m2)
  {
    var f := f1 + f2;
    forall k | k in m1.Keys + m2.Keys ensures k in Keys(f) {
      if k in Keys(f1) {
        var i :| 0 <= i < |f1| && f1[i].key == k;
        assert f[i].key == k;
      } else {
        var i :| 0 <= i < |f2| && f2[i].key == k;
        assert f[|f1| + i].key == k;
      }
    }
    assert Keys(f) == m1.Keys + m2.Keys;
  }

  /** A timer that is neither filed nor pending anew keeps its fate. */
  lemma KeptKey<T>(g: Geometry, w: Wheel<T>, v: Wheel<T>, stage: nat, pending: set<nat>, pending': set<nat>, k: nat)
    requires k in w.timers && k in v.timers && v.timers[k] == w.timers[k] && v.now == w.now
    requires SoundKey(g, w, stage, pending, k) && (k in pending' <==> k in pending)
    ensures SoundKey(g, v, stage, pending', k) && Fate(g, v, stage, pending', k) == Fate(g, w, stage, pending, k)
  {
    hide Due, Settled, Prompt, FireAt;
  }

  // ---- one timer ----------------------------------------------------------------------------

  lemma RefileKey<T>(g: Geometry, w: Wheel<T>, j: nat, pending: set<nat>, k: nat)
    requires Shaped(g, w) && j < g.levels && w.position == Positions(g, w.now, j)
    requires k in pending && k in w.timers && w.timers[k].expire > w.now && SoundKey(g, w, j + 1, pending, k)
    ensures SoundKey(g, File(g, w, k), j + 1, pending - {k}, k)
    ensures Fate(g, File(g, w, k), j + 1, pending - {k}, k) == Fate(g, w, j + 1, pending, k) > w.now
  {
    hide Due, Positions, PlaceSlot;
    AgainSettled(g, w.now, j, w.timers[k].expire);
    AgainPrompt(g, w.now, j, w.timers[k].expire);
  }

  lemma RefileKeepsFates<T>(g: Geometry, w: Wheel<T>, j: nat, pending: set<nat>, k: nat)
    requires Shaped(g, w) && j < g.levels && w.position == Positions(g, w.now, j)
    requires Sound(g, w, j + 1, pending) && k in pending && k in w.timers && w.timers[k].expire > w.now
    ensures Sound(g, File(g, w, k), j + 1, pending - {k})
    ensures Fate(g, w, j + 1, pending, k) > w.now
    ensures Book(g, File(g, w, k), j + 1, pending - {k}) == Book(g, w, j + 1, pending)
  {
    hide SoundKey, Fate, Book, PlaceSlot;
    var r := File(g, w, k);
    RefileKey(g, w, j, pending, k);
    forall x | x in r.timers
      ensures SoundKey(g, r, j + 1, pending - {k}, x)
      ensures Fate(g, r, j + 1, pending - {k}, x) == Fate(g, w, j + 1, pending, x)
    {
      if x != k { KeptKey(g, w, r, j + 1, pending, pending - {k}, x); }
    }
  }

  lemma DropKeepsFates<T>(g: Geometry, w: Wheel<T>, j: nat, pending: set<nat>, k: nat)
    requires j < g.levels
    requires Sound(g, w, j + 1, pending) && k in pending && k in w.timers && w.timers[k].expire <= w.now
    ensures var r := w.(timers := w.timers - {k});
            && Sound(g, r, j + 1, pending - {k})
            && Fate(g, w, j + 1, pending, k) == w.now
            && Book(g, r, j + 1, pending - {k}) == Book(g, w, j + 1, pending) - {k}
  {
    var r := w.(timers := w.timers - {k});
    assert SoundKey(g, w, j + 1, pending, k);
    assert Fate(g, w, j + 1, pending, k) == w.now;
    hide SoundKey, Fate, Book;
    forall x | x in r.timers
      ensures SoundKey(g, r, j + 1, pending - {k}, x)
      ensures Fate(g, r, j + 1, pending - {k}, x) == Fate(g, w, j + 1, pending, x)
    {
      KeptKey(g, w, r, j + 1, pending, pending - {k}, x);
    }
  }

  /** Handling one pending timer while level `j` is drained: it is delivered now if its fate is
      now, and otherwise keeps its fate in its new slot. No other timer is affected. */
  lemma HandleKeepsFates<T>(g: Geometry, w: Wheel<T>, j: nat, pending: set<nat>, k: nat)
    requires Shaped(g, w) && j < g.levels && w.position == Positions(g, w.now, j)
    requires Sound(g, w, j + 1, pending) && k in pending && k in w.timers
    ensures Sound(g, Handle(g, w, k), j + 1, pending - {k})
    ensures var b := Book(g, w, j + 1, pending);
            && (b[k].fireAt == w.now <==> w.timers[k].expire <= w.now)
            && Book(g, Handle(g, w, k), j + 1, pending - {k})
               == if b[k].fireAt == w.now then b - {k} else b
  {
    if w.timers[k].expire <= w.now {
      DropKeepsFates(g, w, j, pending, k);
    } else {
      RefileKeepsFates(g, w, j, pending, k);
    }
  }

  // ---- one slot -----------------------------------------------------------------------------

  /** The appointments of `b` kept at `t` by keys of `s`. */
  ghost function DueAmong<T>(b: map<nat, Appointment<T>>, s: seq<nat>, t: nat): (m: map<nat, Appointment<T>>)
  {
    map k | k in b && k in s && b[k].fireAt == t :: b[k]
  }

  lemma DueAmongHead<T>(b: map<nat, Appointment<T>>, s: seq<nat>, t: nat)
    requires s != [] && Distinct(s) && s[0] in b
    ensures var rest := if b[s[0]].fireAt == t then b - {s[0]} else b;
            && b - DueAmong(b, s, t).Keys == rest - DueAmong(rest, s[1..], t).Keys
            && DueAmong(b, s, t) == DueAmong(b, [s[0]], t) + DueAmong(rest, s[1..], t)
            && s[0] !in DueAmong(rest, s[1..], t)
  {
    assert s == [s[0]] + s[1..];
  }

  lemma DrainCombines<T>(b: map<nat, Appointment<T>>, s: seq<nat>, t: nat,
                         f0: seq<Expired<T>>, f1: seq<Expired<T>>, final: map<nat, Appointment<T>>)
    requires s != [] && Distinct(s) && s[0] in b
    requires var rest := if b[s[0]].fireAt == t then b - {s[0]} else b;
             && final == rest - DueAmong(rest, s[1..], t).Keys
             && Delivers(f0, DueAmong(b, [s[0]], t))
             && Delivers(f1, DueAmong(rest, s[1..], t))
    ensures final == b - DueAmong(b, s, t).Keys
    ensures Delivers(f0 + f1, DueAmong(b, s, t))
  {
    var rest := if b[s[0]].fireAt == t then b - {s[0]} else b;
    DueAmongHead(b, s, t);
    DeliversBoth(f0, DueAmong(b, [s[0]], t), f1, DueAmong(rest, s[1..], t));
  }

  /** Draining a detached list delivers exactly its timers whose fate is now, and every other
      timer keeps its fate. */
  ghost predicate DrainsTo<T>(d: (Wheel<T>, seq<Expired<T>>), g: Geometry, j: nat,
                              b: map<nat, Appointment<T>>, rest: seq<nat>, t: nat)
  {
    && Sound(g, d.0, j + 1, {})
    && Book(g, d.0, j + 1, {}) == b - DueAmong(b, rest, t).Keys
    && Delivers(d.1, DueAmong(b, rest, t))
  }

  lemma DeliversOne<T>(w: Wheel<T>, k: nat, b: map<nat, Appointment<T>>)
    requires k in w.timers && k in b && b[k].context == w.timers[k].context
    requires b[k].fireAt == w.now <==> w.timers[k].expire <= w.now
    ensures Delivers(Delivered(w, k), DueAmong(b, [k], w.now))
  {
    var f := Delivered(w, k);
    if f != [] { assert f[0].key in Keys(f); }
    assert DueAmong(b, [k], w.now).Keys == Keys(f);
  }

  lemma DrainStep<T>(g: Geometry, w: Wheel<T>, j: nat, rest: seq<nat>)
    requires Shaped(g, w) && j < g.levels && w.position == Positions(g, w.now, j)
    requires rest != [] && Distinct(rest) && (forall k :: k in rest ==> k in w.timers)
    requires Sound(g, w, j + 1, KeysOf(rest))
    ensures var v := Handle(g, w, rest[0]);
            var b := Book(g, w, j + 1, KeysOf(rest));
            && (forall k :: k in rest[1..] ==> k in v.timers)
            && Sound(g, v, j + 1, KeysOf(rest[1..]))
            && Book(g, v, j + 1, KeysOf(rest[1..])) == (if b[rest[0]].fireAt == w.now then b - {rest[0]} else b)
            && Delivers(Delivered(w, rest[0]), DueAmong(b, [rest[0]], w.now))
  {
    var k := rest[0];
    assert KeysOf(rest) - {k} == KeysOf(rest[1..]);
    assert forall x :: x in rest[1..] ==> x in w.timers.Keys - {k};
    HandleKeepsFates(g, w, j, KeysOf(rest), k);
    DeliversOne(w, k, Book(g, w, j + 1, KeysOf(rest)));
  }

  lemma {:induction false} DrainKeepsFates<T>(g: Geometry, w: Wheel<T>, j: nat, rest: seq<nat>)
    requires Shaped(g, w) && j < g.levels && w.position == Positions(g, w.now, j)
    requires Distinct(rest) && (forall k :: k in rest ==> k in w.timers)
    requires Sound(g, w, j + 1, KeysOf(rest))
    ensures DrainsTo(Drain(g, w, rest), g, j, Book(g, w, j + 1, KeysOf(rest)), rest, w.now)
    decreases |rest|
  {
    var b := Book(g, w, j + 1, KeysOf(rest));
    if rest == [] {
      assert KeysOf(rest) == {};
      assert DueAmong(b, rest, w.now) == map[];
    } else {
      DrainStep(g, w, j, rest);
      DrainKeepsFates(g, Handle(g, w, rest[0]), j, rest[1..]);
      var d := Drain(g, Handle(g, w, rest[0]), rest[1..]);
      DrainCombines(b, rest, w.now, Delivered(w, rest[0]), d.1, Book(g, d.0, j + 1, {}));
    }
  }

  // ---- the level clocks -----------------------------------------------------------------------

  lemma VisitAcrossStage(slots: nat, u: nat, now: nat, s: nat)
    requires slots >= 1 && u >= 1 && now >= 1 && now % u == 0 && s < slots
    ensures var m := NextVisit(slots, (now - 1) / u, s);
            if s == ((now - 1) / u) % slots then m * u == now
            else m == NextVisit(slots, now / u, s) && m * u > now
  {
    var q := now / u;
    LagsByOne(now, u);
    if s == (q - 1) % slots {
      NextVisitAhead(slots, q - 1, 0);
    } else {
      NextVisitStep(slots, q, s);
      BeyondQuotient(now, u, NextVisit(slots, q, s));
    }
  }

  lemma DueAcrossStage(g: Geometry, now: nat, j: nat, a: Slot)
    requires g.Has(a) && j < g.levels && now >= 1 && now % g.Span(j) == 0
    ensures if a == Slot(j, Positions(g, now, j)[j]) then Due(g, now, j, a) == now
            else Due(g, now, j + 1, a) == Due(g, now, j, a) && (a.level == j ==> Due(g, now, j, a) > now)
  {
    if a.level == j {
      VisitAcrossStage(g.slots, g.Span(j), now, a.index);
    }
  }

  /** Detaching the slot that level `j` stands at: its timers are those due now, and every
      other slot is drained when it was going to be. */
  lemma DetachKeepsFates<T>(g: Geometry, w: Wheel<T>, j: nat)
    requires Ready(g, w) && j < g.levels && w.position == Positions(g, w.now, j)
    requires w.now >= 1 && w.now % g.Span(j) == 0 && Sound(g, w, j, {})
    ensures var a := Current(g, w, j);
            var v := Detach(w, a);
            && Sound(g, v, j + 1, KeysOf(w.chains[a]))
            && Book(g, v, j + 1, KeysOf(w.chains[a])) == Book(g, w, j, {})
  {
    var a := Current(g, w, j);
    var v := Detach(w, a);
    var p := KeysOf(w.chains[a]);
    hide Due, Prompt;
    forall k | k in w.timers
      ensures SoundKey(g, v, j + 1, p, k) && Fate(g, v, j + 1, p, k) == Fate(g, w, j, {}, k)
    {
      assert SoundKey(g, w, j, {}, k);
      DueAcrossStage(g, w.now, j, w.timers[k].home);
    }
  }

  lemma AdvanceKeepsStep(g: Geometry, now: nat, j: nat)
    requires j < g.levels && now >= 1 && now % g.Span(j) == 0
    ensures var p := Positions(g, now, j);
            p[j := (p[j] + 1) % g.slots] == Positions(g, now, j + 1)
  {
    var q := now / g.Span(j);
    LagsByOne(now, g.Span(j));
    MachineArithmetic.ModOfSum(q - 1, 1, g.slots);
  }

  lemma NoCarry(now: nat, u: nat)
    requires u >= 1 && now >= 1 && now % u != 0
    ensures (now - 1) / u == now / u
  {
    MachineArithmetic.DivModUnique(now - 1, u, now / u, now % u - 1);
  }

  lemma QuotientOfMultiple(now: nat, u: nat, slots: nat)
    requires u >= 1 && slots >= 1 && now % (slots * u) == 0
    ensures (now / u) % slots == 0
  {
    var q := now / (slots * u);
    assert now == (q * slots) * u;
    MachineArithmetic.DivModUnique(now, u, q * slots, 0);
    MultipleOf(q, slots);
  }

  /** When level `j` does not wrap, no coarser level has anything to do at this tick. */
  lemma StopsHere(g: Geometry, now: nat, j: nat, i: nat)
    requires j < g.levels && now >= 1 && now % g.Span(j) == 0 && (now / g.Span(j)) % g.slots != 0
    requires j < i
    ensures now % g.Span(i) != 0 && (now - 1) / g.Span(i) == now / g.Span(i)
  {
    if now % g.Span(i) == 0 {
      CoarseMultiple(g, now, j + 1, i);
      QuotientOfMultiple(now, g.Span(j), g.slots);
    } else {
      NoCarry(now, g.Span(i));
    }
  }

  lemma MultipleOfQuotient(now: nat, u: nat, slots: nat)
    requires u >= 1 && slots >= 1 && now % u == 0 && (now / u) % slots == 0
    ensures now % (slots * u) == 0
  {
    var q := (now / u) / slots;
    assert now == (q * slots) * u == q * (slots * u);
    MultipleOf(q, slots * u);
  }

  /** Settling the clocks after the last level that wrapped. */
  lemma SettleClocks<T>(g: Geometry, w: Wheel<T>, j: nat)
    requires j < g.levels && w.now >= 1 && w.now % g.Span(j) == 0 && (w.now / g.Span(j)) % g.slots != 0
    requires Sound(g, w, j + 1, {})
    ensures Positions(g, w.now, j + 1) == Positions(g, w.now, g.levels)
    ensures Sound(g, w, g.levels, {}) && Book(g, w, g.levels, {}) == Book(g, w, j + 1, {})
  {
    forall i | j < i < g.levels
      ensures Clock(g, w.now, j + 1, i) == Clock(g, w.now, g.levels, i)
    {
      StopsHere(g, w.now, j, i);
    }
    forall k | k in w.timers
      ensures SoundKey(g, w, g.levels, {}, k) && Fate(g, w, g.levels, {}, k) == Fate(g, w, j + 1, {}, k)
    {
      assert SoundKey(g, w, j + 1, {}, k);
      var a := w.timers[k].home;
      if a.level > j { StopsHere(g, w.now, j, a.level); }
    }
  }

  // ---- one tick ---------------------------------------------------------------------------------

  lemma TurnPosition<T>(g: Geometry, w: Wheel<T>, j: nat)
    requires Ready(g, w) && j < g.levels && w.position == Positions(g, w.now, j)
    requires w.now >= 1 && w.now % g.Span(j) == 0
    ensures TurnLevel(g, w, j).0.position == Positions(g, w.now, j + 1)
  {
    DetachThreads(w, Current(g, w, j));
    AdvanceKeepsStep(g, w.now, j);
  }

  lemma AdvanceKeepsDrain<T>(g: Geometry, d: (Wheel<T>, seq<Expired<T>>), j: nat,
                             b: map<nat, Appointment<T>>, rest: seq<nat>, t: nat)
    requires Shaped(g, d.0) && j < g.levels && DrainsTo(d, g, j, b, rest, t)
    ensures DrainsTo((Advance(g, d.0, j), d.1), g, j, b, rest, t)
  {
    var v := Advance(g, d.0, j);
    forall k | k in d.0.timers
      ensures SoundKey(g, v, j + 1, {}, k) && Fate(g, v, j + 1, {}, k) == Fate(g, d.0, j + 1, {}, k)
    {
      assert SoundKey(g, d.0, j + 1, {}, k);
    }
  }

  /** Draining one level's slot delivers exactly that level's timers whose fate is now, and
      leaves every other fate alone. */
  lemma TurnKeepsFates<T>(g: Geometry, w: Wheel<T>, j: nat)
    requires Ready(g, w) && j < g.levels && w.position == Positions(g, w.now, j)
    requires w.now >= 1 && w.now % g.Span(j) == 0 && Sound(g, w, j, {})
    ensures DrainsTo(TurnLevel(g, w, j), g, j, Book(g, w, j, {}), w.chains[Current(g, w, j)], w.now)
  {
    var rest := w.chains[Current(g, w, j)];
    var v := Detach(w, Current(g, w, j));
    DetachThreads(w, Current(g, w, j));
    DetachKeepsFates(g, w, j);
    DrainKeepsFates(g, v, j, rest);
    AdvanceKeepsDrain(g, Drain(g, v, rest), j, Book(g, w, j, {}), rest, w.now);
  }

  /** From level `j` on, a tick delivers exactly the timers whose fate is now and keeps all
      other fates; then the clocks of all levels agree with the time. */
  ghost predicate Ticks<T>(g: Geometry, b: map<nat, Appointment<T>>, r: (Wheel<T>, seq<Expired<T>>), now: nat) {
    && r.0.position == Positions(g, now, g.levels)
    && Sound(g, r.0, g.levels, {})
    && Book(g, r.0, g.levels, {}) == Later(b, now)
    && Delivers(r.1, DueNow(b, now))
  }

  lemma AheadKey<T>(g: Geometry, w: Wheel<T>, k: nat)
    requires k in w.timers && SoundKey(g, w, g.levels, {}, k)
    ensures Fate(g, w, g.levels, {}, k) > w.now
  {
    hide Due, Prompt;
  }

  /** Once every clock agrees with the time, nothing is due at the present tick any more. */
  lemma NothingDue<T>(g: Geometry, w: Wheel<T>)
    requires w.position == Positions(g, w.now, g.levels) && Sound(g, w, g.levels, {})
    ensures Ticks(g, Book(g, w, g.levels, {}), (w, []), w.now)
  {
    hide SoundKey, Fate, Book;
    var b := Book(g, w, g.levels, {});
    forall k | k in w.timers ensures b[k].fireAt > w.now {
      AheadKey(g, w, k);
    }
    assert DueNow(b, w.now) == map[];
  }

  lemma WrapAligned(g: Geometry, now: nat, j: nat)
    requires j < g.levels && now % g.Span(j) == 0
    ensures Positions(g, now, j + 1)[j] == 0 <==> (now / g.Span(j)) % g.slots == 0
    ensures Positions(g, now, j + 1)[j] == 0 ==> now % g.Span(j + 1) == 0
  {
    if (now / g.Span(j)) % g.slots == 0 {
      MultipleOfQuotient(now, g.Span(j), g.slots);
    }
  }

  lemma JoinBooks<T>(b: map<nat, Appointment<T>>, rest: seq<nat>, t: nat)
    ensures var gone := DueAmong(b, rest, t);
            && Later(b - gone.Keys, t) == Later(b, t)
            && DueNow(b, t) == gone + DueNow(b - gone.Keys, t)
            && gone.Keys !! DueNow(b - gone.Keys, t).Keys
  {}

  lemma JoinTurns<T>(g: Geometry, b: map<nat, Appointment<T>>, rest: seq<nat>,
                     d: (Wheel<T>, seq<Expired<T>>), c: (Wheel<T>, seq<Expired<T>>), j: nat, now: nat)
    requires DrainsTo(d, g, j, b, rest, now) && Ticks(g, Book(g, d.0, j + 1, {}), c, now)
    ensures Ticks(g, b, (c.0, d.1 + c.1), now)
  {
    var gone := DueAmong(b, rest, now);
    JoinBooks(b, rest, now);
    DeliversBoth(d.1, gone, c.1, DueNow(b - gone.Keys, now));
  }

  lemma LastTurn<T>(g: Geometry, b: map<nat, Appointment<T>>, rest: seq<nat>,
                    d: (Wheel<T>, seq<Expired<T>>), j: nat, now: nat)
    requires DrainsTo(d, g, j, b, rest, now) && Ticks(g, Book(g, d.0, j + 1, {}), (d.0, []), now)
    ensures Ticks(g, b, d, now)
  {
    JoinTurns(g, b, rest, d, (d.0, []), j, now);
    assert d.1 + [] == d.1;
  }

  /** A tick in progress: the levels below `j` are done and level `j` is to be drained. */
  ghost predicate InTick<T>(g: Geometry, w: Wheel<T>, j: nat) {
    && Ready(g, w)
    && j <= g.levels
    && w.position == Positions(g, w.now, j)
    && w.now >= 1
    && (j < g.levels ==> w.now % g.Span(j) == 0)
    && Sound(g, w, j, {})
  }

  /** At a multiple of the span above, the positions up to level `j` are 0 and the next level is one
      slot behind the time. */
  lemma WrapDigits(g: Geometry, now: nat, j: nat)
    requires j < g.levels && now >= 1 && now % g.Span(j + 1) == 0
    ensures var p := Positions(g, now, j + 1);
      && (forall i :: 0 <= i <= j ==> p[i] == 0)
      && (j + 1 < g.levels ==> p[j + 1] == Digit(g, now / g.Span(j + 1) - 1))
  {
    var p := Positions(g, now, j + 1);
    forall i | 0 <= i <= j ensures p[i] == 0 {
      CoarseMultiple(g, now, i + 1, j + 1);
      QuotientOfMultiple(now, g.Span(i), g.slots);
    }
    LagsByOne(now, g.Span(j + 1));
  }

  /** After one level's slot is drained, either the tick goes on with the next level, which is one slot
      behind the time while all lower positions are 0, or it is over. */
  lemma TurnGoesOn<T>(g: Geometry, w: Wheel<T>, j: nat)
    requires InTick(g, w, j) && j < g.levels
    ensures var d := TurnLevel(g, w, j).0;
            if d.position[j] == 0 then InTick(g, d, j + 1)
            else Ticks(g, Book(g, d, j + 1, {}), (d, []), w.now)
    ensures var d := TurnLevel(g, w, j).0;
            d.position[j] == 0 ==>
              && (forall i :: 0 <= i <= j ==> d.position[i] == 0)
              && (j + 1 < g.levels ==> d.position[j + 1] == Digit(g, w.now / g.Span(j + 1) - 1))
  {
    var d := TurnLevel(g, w, j).0;
    TurnKeepsFates(g, w, j);
    TurnPosition(g, w, j);
    WrapAligned(g, w.now, j);
    if d.position[j] != 0 {
      SettleClocks(g, d, j);
      NothingDue(g, d);
    } else {
      WrapDigits(g, w.now, j);
    }
  }

  lemma {:induction false} ProcessKeepsFates<T>(g: Geometry, w: Wheel<T>, j: nat)
    requires InTick(g, w, j)
    ensures Ticks(g, Book(g, w, j, {}), ProcessLevel(g, w, j), w.now)
    decreases g.levels - j
  {
    hide Ticks, DrainsTo, Book, Sound, TurnLevel, Positions;
    if j == g.levels {
      NothingDue(g, w);
    } else {
      var d := TurnLevel(g, w, j);
      TurnKeepsFates(g, w, j);
      TurnGoesOn(g, w, j);
      if d.0.position[j] == 0 {
        ProcessKeepsFates(g, d.0, j + 1);
        JoinTurns(g, Book(g, w, j, {}), w.chains[Current(g, w, j)], d, ProcessLevel(g, d.0, j + 1), j, w.now);
      } else {
        LastTurn(g, Book(g, w, j, {}), w.chains[Current(g, w, j)], d, j, w.now);
      }
    }
  }

  // ---- the public operations ------------------------------------------------------------------------

  /** What holds between calls. */
  ghost predicate Idle<T>(g: Geometry, w: Wheel<T>) {
    && Ready(g, w)
    && w.position == Positions(g, w.now, g.levels)
    && Sound(g, w, g.levels, {})
  }

  ghost function Calendar<T>(g: Geometry, w: Wheel<T>): map<nat, Appointment<T>> {
    Book(g, w, g.levels, {})
  }

  lemma EmptyIdle<T>(g: Geometry)
    ensures Idle(g, Empty<T>(g)) && Calendar(g, Empty<T>(g)) == map[]
  {
    forall i | 0 <= i < g.levels ensures Positions(g, 0, g.levels)[i] == 0 {
      MachineArithmetic.DivModUnique(0, g.Span(i), 0, 0);
      MachineArithmetic.DivModUnique(0, g.slots, 0, 0);
    }
  }

  lemma DueBegins(g: Geometry, now: nat, a: Slot)
    requires a.level < g.levels
    ensures Due(g, now + 1, 0, a) == Due(g, now, g.levels, a)
  {}

  lemma BeginKey<T>(g: Geometry, w: Wheel<T>, k: nat)
    requires k in w.timers && SoundKey(g, w, g.levels, {}, k)
    ensures var v := w.(now := w.now + 1);
            SoundKey(g, v, 0, {}, k) && Fate(g, v, 0, {}, k) == Fate(g, w, g.levels, {}, k)
  {
    hide Due, FireAt;
    DueBegins(g, w.now, w.timers[k].home);
  }

  lemma BeginFates<T>(g: Geometry, w: Wheel<T>)
    requires Sound(g, w, g.levels, {})
    ensures var v := w.(now := w.now + 1);
            Sound(g, v, 0, {}) && Book(g, v, 0, {}) == Book(g, w, g.levels, {})
  {
    var v := w.(now := w.now + 1);
    hide SoundKey, Fate, Book;
    forall k | k in w.timers
      ensures SoundKey(g, v, 0, {}, k) && Fate(g, v, 0, {}, k) == Fate(g, w, g.levels, {}, k)
    {
      BeginKey(g, w, k);
    }
  }

  lemma BeginTick<T>(g: Geometry, w: Wheel<T>)
    requires Idle(g, w)
    ensures var v := w.(now := w.now + 1);
            InTick(g, v, 0) && Book(g, v, 0, {}) == Calendar(g, w)
  {
    hide Sound, Book;
    assert Positions(g, w.now + 1, 0) == Positions(g, w.now, g.levels);
    assert g.Span(0) == 1;
    BeginFates(g, w);
  }

  /** A tick returns exactly the timers whose appointment is at the new time, once each with
      their own context, and leaves every other appointment as it was. */
  lemma TickLaw<T>(g: Geometry, w: Wheel<T>)
    requires Idle(g, w)
    ensures var r := Tick(g, w);
            && Idle(g, r.0)
            && Calendar(g, r.0) == Later(Calendar(g, w), w.now + 1)
            && Delivers(r.1, DueNow(Calendar(g, w), w.now + 1))
  {
    BeginTick(g, w);
    ProcessKeepsFates(g, w.(now := w.now + 1), 0);
  }

  /** The tick promised to a timer started at `now`. */
  function Promised(g: Geometry, now: nat, expire: nat): nat
    requires now <= expire
  {
    if now < expire then FireTick(g, now, expire)
    else if now % g.slots == 0 then now + 1
    else now + g.slots
  }

  lemma StartedFate<T>(g: Geometry, w: Wheel<T>, k: nat, expire: nat, context: T)
    requires Shaped(g, w) && w.position == Positions(g, w.now, g.levels) && expire >= w.now
    ensures var r := Start(g, w, k, expire, context);
            && SoundKey(g, r, g.levels, {}, k)
            && Promised(g, w.now, expire) > w.now
            && Fate(g, r, g.levels, {}, k) == Promised(g, w.now, expire)
  {
    if expire > w.now {
      FiringLaw(g, w.now, expire);
      FiledPrompt(g, w.now, expire);
    } else {
      ZeroInterval(g, w.now);
    }
  }

  lemma StartKeepsFates<T>(g: Geometry, w: Wheel<T>, k: nat, expire: nat, context: T)
    requires Idle(g, w) && k !in w.timers && expire >= w.now
    ensures var r := Start(g, w, k, expire, context);
            forall x :: x in r.timers ==>
              && SoundKey(g, r, g.levels, {}, x)
              && (x != k ==> Fate(g, r, g.levels, {}, x) == Fate(g, w, g.levels, {}, x))
  {
    hide SoundKey, Fate, PlaceSlot, Positions, Threaded;
    var r := Start(g, w, k, expire, context);
    forall x | x in r.timers
      ensures SoundKey(g, r, g.levels, {}, x)
      ensures x != k ==> Fate(g, r, g.levels, {}, x) == Fate(g, w, g.levels, {}, x)
    {
      if x == k {
        StartedFate(g, w, k, expire, context);
      } else {
        KeptKey(g, w, r, g.levels, {}, {}, x);
      }
    }
  }

  /** Starting a timer enters one appointment, at the promised tick, and touches no other. */
  lemma StartLaw<T>(g: Geometry, w: Wheel<T>, k: nat, expire: nat, context: T)
    requires Idle(g, w) && k !in w.timers && expire >= w.now
    ensures var r := Start(g, w, k, expire, context);
            && Idle(g, r)
            && Promised(g, w.now, expire) > w.now
            && Calendar(g, r) == Calendar(g, w)[k := Appointment(expire, Promised(g, w.now, expire), context)]
  {
    StartThreads(g, w, k, expire, context);
    StartKeepsFates(g, w, k, expire, context);
    StartedFate(g, w, k, expire, context);
    hide SoundKey, Fate, Promised, PlaceSlot, Book, Threaded, Positions;
  }

  lemma StopKeepsFates<T>(g: Geometry, w: Wheel<T>, k: nat)
    requires Sound(g, w, g.levels, {}) && k in w.timers && w.timers[k].home in w.chains
    ensures Sound(g, Stop(w, k), g.levels, {})
    ensures Book(g, Stop(w, k), g.levels, {}) == Book(g, w, g.levels, {}) - {k}
  {
    var r := Stop(w, k);
    hide SoundKey, Fate, Book;
    forall x | x in r.timers
      ensures SoundKey(g, r, g.levels, {}, x) && Fate(g, r, g.levels, {}, x) == Fate(g, w, g.levels, {}, x)
    {
      KeptKey(g, w, r, g.levels, {}, {}, x);
    }
  }

  /** Stopping a timer cancels its appointment and touches no other. */
  lemma StopLaw<T>(g: Geometry, w: Wheel<T>, k: nat)
    requires Idle(g, w) && k in w.timers
    ensures Idle(g, Stop(w, k)) && Calendar(g, Stop(w, k)) == Calendar(g, w) - {k}
  {
    hide Sound, Book, Positions;
    StopThreads(g, w, k);
    StopKeepsFates(g, w, k);
  }

  lemma {:induction false} NeverEarly(g: Geometry, l: nat, due: int, expire: nat)
    requires Settled(g, l, due, expire)
    ensures FireAt(g, l, due, expire) >= expire
    decreases if expire > due then expire - due else 0
  {
    if expire > due {
      AgainSettled(g, due, l, expire);
      var a := Again(g, due, l, expire);
      NeverEarly(g, a.level, Due(g, due, l + 1, a), expire);
    }
  }

  /** No appointment of an idle wheel is in the past, and none is before its expiry. */
  lemma AppointmentsAhead<T>(g: Geometry, w: Wheel<T>, k: nat)
    requires Idle(g, w) && k in w.timers
    ensures Calendar(g, w)[k].fireAt > w.now
    ensures Calendar(g, w)[k].fireAt >= Calendar(g, w)[k].expire
  {
    assert SoundKey(g, w, g.levels, {}, k);
    var t := w.timers[k];
    NeverEarly(g, t.home.level, Due(g, w.now, g.levels, t.home), t.expire);
  }

  // ---- several ticks ---------------------------------------------------------------------------------

  function Until<T>(b: map<nat, Appointment<T>>, t: nat): map<nat, Appointment<T>> {
    map k | k in b && b[k].fireAt <= t :: b[k]
  }

  function After<T>(b: map<nat, Appointment<T>>, t: nat): map<nat, Appointment<T>> {
    map k | k in b && b[k].fireAt > t :: b[k]
  }

  ghost predicate InOrder<T>(fired: seq<Expired<T>>, b: map<nat, Appointment<T>>)
    requires forall i :: 0 <= i < |fired| ==> fired[i].key in b
  {
    forall i, j :: 0 <= i < j < |fired| ==> b[fired[i].key].fireAt <= b[fired[j].key].fireAt
  }

  ghost predicate Expires<T>(g: Geometry, b: map<nat, Appointment<T>>, r: (Wheel<T>, seq<Expired<T>>), t: nat) {
    && Idle(g, r.0)
    && r.0.now == t
    && Calendar(g, r.0) == After(b, t)
    && Delivers(r.1, Until(b, t))
    && InOrder(r.1, b)
  }

  lemma NoneOverdue<T>(g: Geometry, w: Wheel<T>)
    requires Idle(g, w)
    ensures Expires(g, Calendar(g, w), (w, []), w.now)
  {
    hide Idle, Book;
    var b := Calendar(g, w);
    forall k | k in b ensures b[k].fireAt > w.now {
      AppointmentsAhead(g, w, k);
    }
    assert Until(b, w.now) == map[];
  }

  lemma OneMoreTick<T>(b: map<nat, Appointment<T>>, t: nat, f: seq<Expired<T>>, last: seq<Expired<T>>)
    requires Delivers(f, Until(b, t)) && InOrder(f, b) && Delivers(last, DueNow(After(b, t), t + 1))
    ensures Later(After(b, t), t + 1) == After(b, t + 1)
    ensures Delivers(f + last, Until(b, t + 1)) && InOrder(f + last, b)
  {
    assert Until(b, t + 1) == Until(b, t) + DueNow(After(b, t), t + 1);
    DeliversBoth(f, Until(b, t), last, DueNow(After(b, t), t + 1));
    assert forall i :: 0 <= i < |f| ==> f[i].key in Until(b, t);
    assert forall i :: 0 <= i < |last| ==> last[i].key in DueNow(After(b, t), t + 1);
  }

  lemma TickExpires<T>(g: Geometry, b: map<nat, Appointment<T>>, p: (Wheel<T>, seq<Expired<T>>), t: nat, t': nat)
    requires Expires(g, b, p, t) && t' == t + 1
    ensures Expires(g, b, (Tick(g, p.0).0, p.1 + Tick(g, p.0).1), t')
  {
    TickLaw(g, p.0);
    OneMoreTick(b, t, p.1, Tick(g, p.0).1);
  }

  /** `expire_timers(n)` returns exactly the timers appointed within the next `n` ticks, once
      each, in the order of their appointments. */
  lemma {:induction false} ExpireTimersLaw<T>(g: Geometry, w: Wheel<T>, n: nat)
    requires Idle(g, w)
    ensures Expires(g, Calendar(g, w), ExpireTimers(g, w, n), w.now + n)
  {
    hide Tick, Delivers, InOrder, Sound, Shaped, Threaded, Positions, Calendar;
    if n == 0 {
      NoneOverdue(g, w);
    } else {
      ExpireTimersLaw(g, w, n - 1);
      TickExpires(g, Calendar(g, w), ExpireTimers(g, w, n - 1), w.now + (n - 1), w.now + n);
    }
  }
}
