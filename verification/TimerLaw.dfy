/** When does a timer fire? `FireAt` follows a timer from slot to slot exactly as the wheel
    re-inserts it; `FireTick` is the closed form. This module proves them equal. */
module TimerLaw {
  import opened MachineArithmetic
  import opened TimerArithmetic

  /** The slot index a level stands at after `c` advances. */
  function Digit(g: Geometry, c: int): (d: nat)
    ensures d < g.slots
  {
    c % g.slots
  }

  /** Level positions while the clock reads `now` and levels below `stage` have been processed. */
  function Positions(g: Geometry, now: nat, stage: nat): (p: seq<nat>)
    ensures |p| == g.levels
    ensures forall i :: 0 <= i < g.levels ==> p[i] == Digit(g, Clock(g, now, stage, i))
  {
    seq(g.levels, i requires 0 <= i < g.levels => Digit(g, Clock(g, now, stage, i)))
  }

  /** A timer of expiry `expire` may sit in a level-`l` slot drained at tick `due`. */
  predicate Settled(g: Geometry, l: nat, due: int, expire: nat)
  {
    && l < g.levels
    && due >= 1
    && due % g.Span(l) == 0
    && (l < g.levels - 1 ==> expire < due + g.Span(l + 1))
  }

  /** Where a timer that is drained early at level `stage` goes. */
  function Again(g: Geometry, now: nat, stage: nat, expire: nat): Slot
    requires expire > now
  {
    PlaceSlot(g, Positions(g, now, stage), expire - now)
  }

  // ---- residences ---------------------------------------------------------------------

  lemma DivLess(n: nat, u: nat, k: nat)
    requires u >= 1 && n < k * u
    ensures n / u < k
  {
    var d := n / u - k;
    assert d * u + n % u < 0;
    assert d >= 0 ==> d * u >= 0;
  }

  lemma DivAtLeast(n: nat, u: nat, k: nat)
    requires u >= 1 && n >= k * u
    ensures n / u >= k
  {
    var d := n / u - k;
    assert d * u + n % u >= 0;
    assert d <= -1 ==> d * u + u <= 0;
  }

  function Min(a: nat, b: nat): nat {
    if a <= b then a else b
  }

  /** Filing between calls: the slot is drained `delta / span` slots from now. */
  lemma PlacedIdle(g: Geometry, now: nat, delta: nat)
    requires delta >= 1
    ensures var a := PlaceSlot(g, Positions(g, now, g.levels), delta);
            var l := LevelFor(g, delta);
            var u := g.Span(l);
            && a.level == l
            && Due(g, now, g.levels, a) == (now / u + Min(delta / u, g.slots)) * u
            && delta / u >= 1
            && (delta / u >= g.slots ==> l == g.levels - 1)
  {
    var f := FindLevel(g, delta, 0);
    var l := LevelFor(g, delta);
    var u := g.Span(l);
    var q := now / u;
    var d := delta / u;
    assert u * g.slots == g.Span(l + 1);
    if f == g.levels {
      DivAtLeast(delta, u, g.slots);
      ModOfSum(q, g.slots - 1, g.slots);
      NextVisitAhead(g.slots, q, g.slots - 1);
    } else {
      DivLess(delta, u, g.slots);
      DivAtLeast(delta, u, 1);
      ModOfSum(q, d - 1, g.slots);
      NextVisitAhead(g.slots, q, d - 1);
    }
  }

  // ---- slot indices, in units of one level ----------------------------------------------

  lemma IndexAhead(slots: nat, c: int, d: nat)
    requires slots >= 1 && d >= 1
    ensures SaturatingPred(c % slots + d) % slots == (c + (d - 1)) % slots
  {
    ModOfSum(c, d - 1, slots);
  }

  /** Next visit of the slot picked while the level lags by one, once it has caught up. */
  lemma VisitWhenLagging(slots: nat, q: int, d: nat)
    requires slots >= 1 && 1 <= d < slots
    ensures NextVisit(slots, q, SaturatingPred((q - 1) % slots + d) % slots)
         == if d == 1 then q + slots else q + d - 1
  {
    IndexAhead(slots, q - 1, d);
    if d == 1 {
      ModCongruent(q - 1, 1, slots);
      NextVisitAhead(slots, q, slots - 1);
    } else {
      NextVisitAhead(slots, q, d - 2);
    }
  }

  /** The same for the last slot of the top level, which takes timers beyond the range. */
  lemma VisitWhenParked(slots: nat, q: int)
    requires slots >= 1
    ensures NextVisit(slots, q, ((q - 1) % slots + slots - 1) % slots)
         == if slots == 1 then q + 1 else q + slots - 1
  {
    ModOfSum(q - 1, slots - 1, slots);
    if slots >= 2 {
      NextVisitAhead(slots, q, slots - 2);
    }
  }

  lemma MultipleOf(m: int, u: nat)
    requires u >= 1
    ensures (m * u) % u == 0
  {
    DivModUnique(m * u, u, m, 0);
  }

  /** At a multiple of its span a level that has not advanced yet lags by exactly one. */
  lemma LagsByOne(now: nat, u: nat)
    requires u >= 1 && now >= 1 && now % u == 0
    ensures (now - 1) / u == now / u - 1
  {
    assert now == (now / u) * u;
    assert now - 1 == (now / u - 1) * u + (u - 1);
    DivModUnique(now - 1, u, now / u - 1, u - 1);
  }

  // ---- re-filing while a level is being drained ---------------------------------------------

  lemma VisitBelow(slots: nat, u: nat, now: nat, rem: nat)
    requires slots >= 1 && u >= 1 && now % u == 0 && u <= rem < slots * u
    ensures var due := NextVisit(slots, now / u, SaturatingPred((now / u) % slots + rem / u) % slots) * u;
            now < due <= now + rem < due + u && due % u == 0
  {
    var q, d := now / u, rem / u;
    DivLess(rem, u, slots);
    DivAtLeast(rem, u, 1);
    IndexAhead(slots, q, d);
    NextVisitAhead(slots, q, d - 1);
    MultipleOf(q + d, u);
    assert (q + d) * u == now + d * u;
  }

  /** How many slots ahead a timer re-filed on the drained level lands. */
  function Hop(slots: nat, rem: nat, u: nat): (h: nat)
    requires slots >= 1 && u >= 1
    ensures h >= 1
  {
    if rem >= slots * u then (if slots == 1 then 1 else slots - 1)
    else if rem / u <= 1 then slots
    else rem / u - 1
  }

  lemma VisitHere(slots: nat, u: nat, now: nat, rem: nat)
    requires slots >= 1 && u >= 1 && now >= 1 && now % u == 0 && u <= rem < slots * u
    ensures NextVisit(slots, now / u, SaturatingPred(((now - 1) / u) % slots + rem / u) % slots)
         == now / u + Hop(slots, rem, u)
  {
    LagsByOne(now, u);
    DivLess(rem, u, slots);
    DivAtLeast(rem, u, 1);
    VisitWhenLagging(slots, now / u, rem / u);
  }

  lemma SpanAbove(g: Geometry, l: nat)
    ensures g.Span(l + 1) == g.slots * g.Span(l)
  {}

  lemma FindBelow(g: Geometry, rem: nat, l: nat) returns (k: nat)
    requires 1 <= rem < g.Span(l) && l < g.levels
    ensures k == FindLevel(g, rem, 0) < l
    ensures g.Span(k) <= rem < g.slots * g.Span(k)
  {
    k := FindLevel(g, rem, 0);
    if k >= l { PowMonotone(g.slots, l, k); assert k > 0; }
    SpanAbove(g, k);
  }

  /** What is left is finer than the drained level: the slot is below it and not late. */
  lemma AgainBelow(g: Geometry, now: nat, l: nat, expire: nat)
    requires Settled(g, l, now, expire) && now < expire < now + g.Span(l)
    ensures var a := Again(g, now, l, expire);
            var due := Due(g, now, l + 1, a);
            && a.level < l
            && now < due <= expire < due + g.Span(a.level)
            && due % g.Span(a.level) == 0
  {
    var k := FindBelow(g, expire - now, l);
    CoarseMultiple(g, now, k, l);
    VisitBelow(g.slots, g.Span(k), now, expire - now);
  }

  lemma VisitParked(slots: nat, u: nat, now: nat, rem: nat)
    requires slots >= 1 && u >= 1 && now >= 1 && now % u == 0 && rem >= slots * u
    ensures NextVisit(slots, now / u, (((now - 1) / u) % slots + slots - 1) % slots)
         == now / u + Hop(slots, rem, u)
  {
    LagsByOne(now, u);
    VisitWhenParked(slots, now / u);
  }

  lemma FindHere(g: Geometry, rem: nat, l: nat)
    requires l < g.levels && g.Span(l) <= rem < g.Span(l + 1)
    ensures FindLevel(g, rem, 0) == l
  {
    var k := FindLevel(g, rem, 0);
    if k < l { PowMonotone(g.slots, k + 1, l); }
    if k > l { PowMonotone(g.slots, l + 1, k); }
  }

  lemma FindNone(g: Geometry, rem: nat)
    requires rem >= g.Span(g.levels)
    ensures FindLevel(g, rem, 0) == g.levels
  {
    var k := FindLevel(g, rem, 0);
    if k < g.levels { PowMonotone(g.slots, k + 1, g.levels); }
  }

  /** What is left reaches the span of the drained level: the timer stays on that level. */
  lemma AgainHere(g: Geometry, now: nat, l: nat, expire: nat)
    requires Settled(g, l, now, expire) && expire >= now + g.Span(l)
    ensures Again(g, now, l, expire).level == l
    ensures NextVisit(g.slots, now / g.Span(l), Again(g, now, l, expire).index)
         == now / g.Span(l) + Hop(g.slots, expire - now, g.Span(l))
  {
    var rem := expire - now;
    if rem < g.Span(l + 1) {
      FindHere(g, rem, l);
      assert Again(g, now, l, expire) ==
        Slot(l, SaturatingPred(((now - 1) / g.Span(l)) % g.slots + rem / g.Span(l)) % g.slots);
      SpanAbove(g, l);
      VisitHere(g.slots, g.Span(l), now, rem);
    } else {
      FindNone(g, rem);
      assert Again(g, now, l, expire) ==
        Slot(l, (((now - 1) / g.Span(l)) % g.slots + g.slots - 1) % g.slots);
      SpanAbove(g, l);
      VisitParked(g.slots, g.Span(l), now, rem);
    }
  }

  lemma MulBelow(q: nat, m: nat, u: nat)
    requires q < m
    ensures q * u + u <= m * u
  {
    assert m * u == q * u + (m - q) * u;
    assert (m - q - 1) * u >= 0;
  }

  lemma AheadOfNow(now: nat, u: nat, m: nat)
    requires u >= 1 && now % u == 0 && m > now / u
    ensures m * u > now && (m * u) % u == 0
  {
    MultipleOf(m, u);
    var q := now / u;
    assert now == q * u;
    MulBelow(q, m, u);
  }

  /** A timer re-filed while level `l` is drained is settled in its new slot, strictly later,
      and never above level `l`. */
  lemma AgainSettled(g: Geometry, now: nat, l: nat, expire: nat)
    requires Settled(g, l, now, expire) && expire > now
    ensures var a := Again(g, now, l, expire);
            var due := Due(g, now, l + 1, a);
            a.level <= l && due > now && Settled(g, a.level, due, expire)
  {
    var a := Again(g, now, l, expire);
    if expire < now + g.Span(l) {
      AgainBelow(g, now, l, expire);
      PowMonotone(g.slots, a.level, a.level + 1);
    } else {
      AgainHere(g, now, l, expire);
      AheadOfNow(now, g.Span(l), now / g.Span(l) + Hop(g.slots, expire - now, g.Span(l)));
    }
  }

  // ---- the tick a timer fires at ---------------------------------------------------------------

  /** The tick that returns a timer now filed on level `l` in a slot drained at `due`:
      followed through every re-filing. */
  function FireAt(g: Geometry, l: nat, due: int, expire: nat): (t: nat)
    requires Settled(g, l, due, expire)
    ensures t >= due
    decreases if expire > due then expire - due else 0
  {
    if expire <= due then due
    else
      var a := Again(g, due, l, expire);
      AgainSettled(g, due, l, expire);
      FireAt(g, a.level, Due(g, due, l + 1, a), expire)
  }

  /** The last multiple of `u` that is a full turn of the level behind the span of `expire`. */
  function TurnLater(slots: nat, u: nat, expire: nat): nat
    requires slots >= 1 && u >= 1
  {
    var m: nat := expire / u + slots - 1;
    m * u
  }

  predicate OnTime(g: Geometry, start: nat, expire: nat)
    requires start < expire
  {
    var u := g.Span(LevelFor(g, expire - start));
    expire / u <= start / u + Min((expire - start) / u, g.slots)
  }

  /** The closed form. `u` is the span of the level the timer is filed on. It is on time when
      its expiry lies in the span it was filed under; otherwise it waits for the last multiple
      of `u` that is a full turn of that level behind. */
  function FireTick(g: Geometry, start: nat, expire: nat): nat
    requires start < expire
  {
    if OnTime(g, start, expire) then expire
    else TurnLater(g.slots, g.Span(LevelFor(g, expire - start)), expire)
  }

  /** A timer drained less than one span early cascades down to its exact expiry. */
  lemma {:induction false} CascadeIsExact(g: Geometry, l: nat, due: nat, expire: nat)
    requires Settled(g, l, due, expire) && due <= expire < due + g.Span(l)
    ensures FireAt(g, l, due, expire) == expire
    decreases expire - due
  {
    if expire > due {
      AgainSettled(g, due, l, expire);
      AgainBelow(g, due, l, expire);
      var a := Again(g, due, l, expire);
      CascadeIsExact(g, a.level, Due(g, due, l + 1, a), expire);
    }
  }

  lemma PowOfOne(e: nat)
    ensures Pow(1, e) == 1
  {}

  lemma QuotientShift(base: nat, rem: nat, u: nat)
    requires u >= 1 && base % u == 0
    ensures (base + rem) / u == base / u + rem / u
  {
    assert base + rem == (base / u + rem / u) * u + rem % u;
    DivModUnique(base + rem, u, base / u + rem / u, rem % u);
  }

  lemma HopIsTurn(slots: nat, u: nat, rem: nat)
    requires slots >= 1 && u >= 1 && rem >= u && rem / u <= Hop(slots, rem, u)
    ensures rem / u == 1 && Hop(slots, rem, u) == slots
  {
    DivAtLeast(rem, u, 1);
    if rem >= slots * u { DivAtLeast(rem, u, slots); }
  }

  lemma HopBound(u: nat, m: nat, e: nat, expire: nat)
    requires u >= 1 && expire / u == e && expire < m * u + u
    ensures e <= m
    ensures e < m || u == 1 ==> expire <= m * u
  {
    DivLess(expire, u, m + 1);
    assert expire < (e + 1) * u;
    assert e < m ==> (e + 1) * u <= m * u;
  }

  /** The hop that leaves less than a span to go is the full turn. */
  lemma LastHop(slots: nat, u: nat, due: nat, expire: nat)
    requires slots >= 1 && u >= 1 && due % u == 0 && expire >= due + u
    requires slots == 1 ==> u == 1
    requires expire < (due / u + Hop(slots, expire - due, u)) * u + u
    ensures expire <= (due / u + Hop(slots, expire - due, u)) * u == TurnLater(slots, u, expire)
  {
    var q, rem := due / u, expire - due;
    QuotientShift(due, rem, u);
    HopBound(u, q + Hop(slots, rem, u), q + rem / u, expire);
    HopIsTurn(slots, u, rem);
  }

  /** A timer drained at least one span early stays on its level and fires a turn late. */
  lemma {:induction false} LateByATurn(g: Geometry, l: nat, due: nat, expire: nat)
    requires Settled(g, l, due, expire) && expire >= due + g.Span(l)
    ensures FireAt(g, l, due, expire) == TurnLater(g.slots, g.Span(l), expire)
    decreases expire - due
  {
    var u := g.Span(l);
    var h := Hop(g.slots, expire - due, u);
    AgainSettled(g, due, l, expire);
    AgainHere(g, due, l, expire);
    var next := (due / u + h) * u;
    assert FireAt(g, l, due, expire) == FireAt(g, l, next, expire);
    if expire >= next + u {
      LateByATurn(g, l, next, expire);
    } else {
      if g.slots == 1 { PowOfOne(l); }
      LastHop(g.slots, u, due, expire);
    }
  }

  // ---- the law ----------------------------------------------------------------------------------

  /** Whether the expiry lies in the span a timer is filed under, as a comparison of quotients. */
  lemma FiledExpiry(u: nat, start: nat, expire: nat, slots: nat)
    requires u >= 1 && start < expire
    ensures var m := start / u + Min((expire - start) / u, slots);
            m * u <= expire && (expire < m * u + u <==> expire / u <= m)
  {
    var m := start / u + Min((expire - start) / u, slots);
    var d := (expire - start) / u;
    assert expire == (start / u + d) * u + start % u + (expire - start) % u;
    if m < start / u + d { MulBelow(m, start / u + d, u); }
    if expire < m * u + u {
      DivLess(expire, u, m + 1);
    } else {
      DivAtLeast(expire, u, m + 1);
    }
  }

  lemma FiledFires(g: Geometry, start: nat, expire: nat, l: nat, due: nat)
    requires start < expire && l == LevelFor(g, expire - start)
    requires due == (start / g.Span(l) + Min((expire - start) / g.Span(l), g.slots)) * g.Span(l)
    requires Settled(g, l, due, expire)
    ensures FireAt(g, l, due, expire) == FireTick(g, start, expire)
  {
    FiledExpiry(g.Span(l), start, expire, g.slots);
    if expire < due + g.Span(l) {
      CascadeIsExact(g, l, due, expire);
    } else {
      LateByATurn(g, l, due, expire);
    }
  }

  lemma BeyondQuotient(start: nat, u: nat, m: nat)
    requires u >= 1 && m > start / u
    ensures m * u > start
  {
    MulBelow(start / u, m, u);
  }

  lemma FiledAhead(u: nat, start: nat, expire: nat, slots: nat)
    requires slots >= 1 && u >= 1 && start < expire && (expire - start) / u >= 1
    ensures var due := (start / u + Min((expire - start) / u, slots)) * u;
            start < due <= expire && due % u == 0
  {
    var m := start / u + Min((expire - start) / u, slots);
    FiledExpiry(u, start, expire, slots);
    BeyondQuotient(start, u, m);
    MultipleOf(m, u);
  }

  lemma FiledQuotient(g: Geometry, delta: nat)
    requires delta >= 1
    ensures delta / g.Span(LevelFor(g, delta)) >= 1
  {
    PlacedIdle(g, 0, delta);
  }

  lemma FiledClose(u: nat, start: nat, expire: nat, slots: nat)
    requires u >= 1 && start < expire && u <= expire - start < slots * u
    ensures expire < (start / u + Min((expire - start) / u, slots)) * u + slots * u
  {
    var d := (expire - start) / u;
    assert expire == (start / u + d) * u + start % u + (expire - start) % u;
    DivLess(expire - start, u, slots);
    DivAtLeast(expire - start, u, 1);
    MulBelow(1, slots, u);
  }

  lemma FiledSettled(g: Geometry, start: nat, expire: nat)
    requires start < expire
    ensures var l := LevelFor(g, expire - start);
            var u := g.Span(l);
            var due := (start / u + Min((expire - start) / u, g.slots)) * u;
            start < due <= expire && Settled(g, l, due, expire)
  {
    var l := LevelFor(g, expire - start);
    FiledQuotient(g, expire - start);
    FiledAhead(g.Span(l), start, expire, g.slots);
    if l < g.levels - 1 {
      SpanAbove(g, l);
      FiledClose(g.Span(l), start, expire, g.slots);
    }
  }

  /** Filing between calls settles the timer, and it then fires at `FireTick` exactly. */
  lemma FiringLaw(g: Geometry, start: nat, expire: nat)
    requires start < expire
    ensures var a := PlaceSlot(g, Positions(g, start, g.levels), expire - start);
            var due := Due(g, start, g.levels, a);
            && due > start
            && Settled(g, a.level, due, expire)
            && FireAt(g, a.level, due, expire) == FireTick(g, start, expire)
  {
    PlacedIdle(g, start, expire - start);
    FiledSettled(g, start, expire);
    var l := LevelFor(g, expire - start);
    FiledFires(g, start, expire, l, (start / g.Span(l) + Min((expire - start) / g.Span(l), g.slots)) * g.Span(l));
  }

  lemma LatenessOfTurn(slots: nat, u: nat, top: nat, expire: nat)
    requires slots >= 1 && 1 <= u <= top
    ensures var t := TurnLater(slots, u, expire);
            && t <= expire + slots * top - top
            && (slots >= 2 ==> t > expire)
            && (slots == 1 && u == 1 ==> t == expire)
    ensures slots * top >= top
  {
    var e := expire / u;
    assert (e + slots - 1) * u == e * u + (slots - 1) * u;
    assert (slots - 1) * u <= (slots - 1) * top;
    assert slots >= 2 ==> (slots - 1) * u >= u;
  }

  /** Never early, and late by at most a full range less one top-level slot; on time exactly
      when the expiry lies in the span the timer is filed under. */
  lemma FireTickBounds(g: Geometry, start: nat, expire: nat)
    requires start < expire
    ensures expire <= FireTick(g, start, expire) <= expire + g.Span(g.levels) - g.Span(g.levels - 1)
    ensures g.slots >= 2 ==> (FireTick(g, start, expire) == expire <==> OnTime(g, start, expire))
  {
    var l := LevelFor(g, expire - start);
    var u := g.Span(l);
    SpanAbove(g, g.levels - 1);
    PowMonotone(g.slots, l, g.levels - 1);
    LatenessOfTurn(g.slots, u, g.Span(g.levels - 1), expire);
    if g.slots == 1 { PowOfOne(l); }
  }

  lemma ZeroVisit(slots: nat, now: nat)
    requires slots >= 1
    ensures NextVisit(slots, now, SaturatingPred(now % slots) % slots)
         == if now % slots == 0 then now + 1 else now + slots
  {
    if now % slots == 0 {
      NextVisitAhead(slots, now, 0);
    } else {
      IndexAhead(slots, now - 1, 1);
      ModOfSum(now, -1, slots);
      DivModUnique(now % slots - 1, slots, 0, now % slots - 1);
      ModCongruent(now - 1, 1, slots);
      NextVisitAhead(slots, now, slots - 1);
    }
  }

  /** A timer of interval 0 is not "already expired": it waits one tick or a whole turn. */
  lemma ZeroInterval(g: Geometry, now: nat)
    ensures var a := PlaceSlot(g, Positions(g, now, g.levels), 0);
            var due := Due(g, now, g.levels, a);
            && Settled(g, a.level, due, now)
            && FireAt(g, a.level, due, now) == due
            && due == if now % g.slots == 0 then now + 1 else now + g.slots
  {
    assert FindLevel(g, 0, 0) == 0 && g.Span(0) == 1;
    ZeroVisit(g.slots, now);
  }

  // ---- the finest level ---------------------------------------------------------------------------

  /** With a coarser level above it, level 0 holds timers due at their very expiry, besides
      those of interval 0, whose expiry has passed. */
  predicate Prompt(g: Geometry, l: nat, due: int, expire: nat, now: nat) {
    l == 0 && g.levels >= 2 ==> expire == due || expire <= now
  }

  lemma AgainPrompt(g: Geometry, now: nat, l: nat, expire: nat)
    requires Settled(g, l, now, expire) && expire > now && (g.levels >= 2 ==> l >= 1)
    ensures var a := Again(g, now, l, expire);
            Prompt(g, a.level, Due(g, now, l + 1, a), expire, now)
  {
    assert g.Span(0) == 1;
    if expire < now + g.Span(l) {
      AgainBelow(g, now, l, expire);
    } else {
      AgainHere(g, now, l, expire);
    }
  }

  lemma FiledPrompt(g: Geometry, start: nat, expire: nat)
    requires start < expire
    ensures var a := PlaceSlot(g, Positions(g, start, g.levels), expire - start);
            Prompt(g, a.level, Due(g, start, g.levels, a), expire, start)
  {
    PlacedIdle(g, start, expire - start);
    assert g.Span(0) == 1;
  }

  /** Not every timer is on time: with 2 levels of 4 slots, one started at tick 3 with interval
      7 fires at tick 20. */
  lemma LateExample()
    ensures var g: Geometry := Dimensions(2, 4);
            !OnTime(g, 3, 10) && FireTick(g, 3, 10) == 20
  {
    var g: Geometry := Dimensions(2, 4);
    assert g.Span(1) == 4 && g.Span(2) == 16;
    assert LevelFor(g, 7) == 1;
  }
}
