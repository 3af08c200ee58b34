/** Where a timer is kept: its level, and the tick at which its slot is drained next, follow from
    its start, its expiry and the time alone. */
module WheelHomes {
  import MachineArithmetic
  import opened TimerArithmetic
  import opened TimerLaw
  import opened WheelModel
  import opened WheelCalendar

  /** A level, and the tick at which a slot of it is drained. */
  datatype Stay = Stay(level: nat, due: int)

  /** The stay of a timer that is drained early at `now` from level `l`. */
  function NextStay(g: Geometry, now: nat, l: nat, expire: nat): Stay
    requires expire > now
  {
    var a := Again(g, now, l, expire);
    Stay(a.level, Due(g, now, l + 1, a))
  }

  /** The stay at time `now` of a timer that began on level `l` in a slot drained at `due`. */
  function StayAt(g: Geometry, l: nat, due: int, expire: nat, now: nat): (s: Stay)
    requires Settled(g, l, due, expire)
    ensures Settled(g, s.level, s.due, expire)
    ensures s.due > now || expire <= s.due
    decreases if expire > due then expire - due else 0
  {
    if due > now || expire <= due then Stay(l, due)
    else
      AgainSettled(g, due, l, expire);
      var s := NextStay(g, due, l, expire);
      StayAt(g, s.level, s.due, expire, now)
  }

  /** The stay at time `now` of a timer started at `start`. */
  function StayOf(g: Geometry, start: nat, expire: nat, now: nat): (s: Stay)
    requires start < expire
    ensures Settled(g, s.level, s.due, expire)
  {
    FiringLaw(g, start, expire);
    var a := PlaceSlot(g, Positions(g, start, g.levels), expire - start);
    StayAt(g, a.level, Due(g, start, g.levels, a), expire, now)
  }

  /** One tick later a timer has moved on exactly if its slot is drained at that tick. */
  lemma {:induction false} StayStep(g: Geometry, l: nat, due: int, expire: nat, now: nat)
    requires Settled(g, l, due, expire) && FireAt(g, l, due, expire) > now + 1
    ensures var s := StayAt(g, l, due, expire, now);
      && s.due > now
      && StayAt(g, l, due, expire, now + 1) ==
         if s.due == now + 1 && expire > now + 1 then NextStay(g, now + 1, s.level, expire) else s
    decreases if expire > due then expire - due else 0
  {
    if due > now || expire <= due {
      if due == now + 1 && expire > due {
        AgainSettled(g, due, l, expire);
      }
    } else {
      AgainSettled(g, due, l, expire);
      var s := NextStay(g, due, l, expire);
      StayStep(g, s.level, s.due, expire, now);
    }
  }

  // ---- the finest level -----------------------------------------------------------------------------

  lemma OnMultiple(due: nat, expire: nat, slots: nat)
    requires slots >= 1 && due % slots == 0
    ensures due <= expire ==> due <= expire / slots * slots
    ensures due <= expire < due + slots ==> expire / slots * slots == due
  {
    var m := due / slots;
    assert due == m * slots;
    if due <= expire {
      DivAtLeast(expire, slots, m);
      if m < expire / slots { MulBelow(m, expire / slots, slots); }
    }
    if due <= expire < due + slots {
      MachineArithmetic.DivModUnique(expire, slots, m, expire - due);
    }
  }

  lemma LevelZeroRange(g: Geometry, position: seq<nat>, delta: nat)
    requires g.levels >= 2 && |position| == g.levels
    ensures PlaceSlot(g, position, delta).level == 0 <==> delta < g.slots
  {
    assert g.Span(1) == g.slots * g.Span(0) && g.Span(0) == 1;
  }

  /** A timer that began on a coarser level reaches level 0 if it is on time, at the last multiple
      of the slot count not after its expiry. */
  lemma {:induction false} StayOnLevelZero(g: Geometry, l: nat, due: int, expire: nat, now: nat)
    requires g.levels >= 2 && Settled(g, l, due, expire) && FireAt(g, l, due, expire) > now
    requires l == 0 ==> due == expire
    ensures var s := StayAt(g, l, due, expire, now);
      && (s.level == 0 ==> s.due == expire)
      && (l >= 1 ==> (s.level == 0 <==> FireAt(g, l, due, expire) == expire && now >= expire / g.slots * g.slots))
    decreases if expire > due then expire - due else 0
  {
    if l >= 1 {
      CoarseDue(g, l, due);
      OnMultiple(due, expire, g.slots);
      if due <= now && expire > due {
        AgainSettled(g, due, l, expire);
        AgainPrompt(g, due, l, expire);
        LevelZeroRange(g, Positions(g, due, l), expire - due);
        var s := NextStay(g, due, l, expire);
        if s.level == 0 {
          CascadeIsExact(g, l, due, expire);
        }
        StayOnLevelZero(g, s.level, s.due, expire, now);
      }
    }
  }

  /** A timer is on level 0 when its interval is below the slot count, and otherwise once it has
      come within the last multiple of the slot count before its expiry, if it is on time. */
  predicate Near(g: Geometry, start: nat, expire: nat, now: nat)
    requires start < expire
  {
    expire - start < g.slots || (OnTime(g, start, expire) && now >= expire / g.slots * g.slots)
  }

  lemma OneSlot(g: Geometry, expire: nat)
    ensures g.slots == 1 ==> expire / g.slots * g.slots == expire && g.Span(g.levels) == g.Span(g.levels - 1)
  {
    if g.slots == 1 {
      PowOfOne(g.levels);
      PowOfOne(g.levels - 1);
    }
  }

  lemma NearIffLevelZero(g: Geometry, start: nat, expire: nat, now: nat)
    requires g.levels >= 2 && start < expire && FireTick(g, start, expire) > now
    ensures StayOf(g, start, expire, now).level == 0 <==> Near(g, start, expire, now)
    ensures StayOf(g, start, expire, now).level == 0 ==> StayOf(g, start, expire, now).due == expire
  {
    FiringLaw(g, start, expire);
    FiledPrompt(g, start, expire);
    FireTickBounds(g, start, expire);
    LevelZeroRange(g, Positions(g, start, g.levels), expire - start);
    var a := PlaceSlot(g, Positions(g, start, g.levels), expire - start);
    StayOnLevelZero(g, a.level, Due(g, start, g.levels, a), expire, now);
    OneSlot(g, expire);
  }

  // ---- where the wheel keeps its timers ---------------------------------------------------------------

  /** The stay of timer `k` while the levels below `stage` have been processed. */
  function Spot<T>(g: Geometry, w: Wheel<T>, stage: nat, pending: set<nat>, k: nat): Stay
    requires k in w.timers && (k in pending ==> stage >= 1)
  {
    if k in pending then Stay(stage - 1, w.now)
    else Stay(w.timers[k].home.level, Due(g, w.now, stage, w.timers[k].home))
  }

  /** Between `w` and `v` the timers of `rest` were drained from level `j`: those left have moved on,
      and no other timer has. */
  ghost predicate Drained<T>(g: Geometry, j: nat, w: Wheel<T>, v: Wheel<T>, rest: seq<nat>) {
    && v.now == w.now
    && v.timers.Keys <= w.timers.Keys
    && forall k :: k in v.timers ==>
         && v.timers[k].expire == w.timers[k].expire
         && (k in rest ==>
               && w.timers[k].expire > w.now
               && Spot(g, v, j + 1, {}, k) == NextStay(g, w.now, j, w.timers[k].expire))
         && (k !in rest ==> v.timers[k] == w.timers[k])
  }

  lemma HandleMoves<T>(g: Geometry, w: Wheel<T>, j: nat, k: nat)
    requires Shaped(g, w) && w.position == Positions(g, w.now, j) && k in w.timers
    ensures var v := Handle(g, w, k);
      && v.now == w.now && v.position == w.position && v.timers.Keys <= w.timers.Keys
      && w.timers.Keys - {k} <= v.timers.Keys
      && (forall x :: x in v.timers && x != k ==> v.timers[x] == w.timers[x])
      && (k in v.timers ==>
            && v.timers[k].expire == w.timers[k].expire > w.now
            && Spot(g, v, j + 1, {}, k) == NextStay(g, w.now, j, w.timers[k].expire))
  {
    hide PlaceSlot, Positions, Due;
  }

  lemma {:induction false} DrainMoves<T>(g: Geometry, w: Wheel<T>, j: nat, rest: seq<nat>)
    requires Shaped(g, w) && w.position == Positions(g, w.now, j)
    requires Distinct(rest) && (forall k :: k in rest ==> k in w.timers)
    ensures Drained(g, j, w, Drain(g, w, rest).0, rest)
    decreases |rest|
  {
    hide PlaceSlot, Positions, Due, NextStay, Handle, Shaped;
    if rest != [] {
      var v := Handle(g, w, rest[0]);
      HandleMoves(g, w, j, rest[0]);
      assert forall k :: k in rest <==> k == rest[0] || k in rest[1..];
      assert forall k :: k in rest[1..] ==> k in w.timers.Keys - {rest[0]};
      DrainMoves(g, v, j, rest[1..]);
    }
  }

  /** A timer whose slot is drained has moved on to its next stay, any other has stayed. */
  ghost predicate MovesFrom(g: Geometry, s: Stay, s': Stay, drained: bool, now: nat, expire: nat) {
    if drained then expire > now && s' == NextStay(g, now, s.level, expire) else s' == s
  }

  ghost predicate TurnMoves<T>(g: Geometry, w: Wheel<T>, j: nat, v: Wheel<T>, k: nat)
    requires k in v.timers
  {
    && k in w.timers
    && v.timers[k].expire == w.timers[k].expire
    && var s := Spot(g, w, j, {}, k);
       MovesFrom(g, s, Spot(g, v, j + 1, {}, k), s == Stay(j, w.now), w.now, w.timers[k].expire)
  }

  lemma ListOfSlot<T>(g: Geometry, w: Wheel<T>, a: Slot)
    requires Ready(g, w) && g.Has(a)
    ensures a in w.chains && Distinct(w.chains[a])
    ensures forall k :: k in w.chains[a] <==> k in w.timers && w.timers[k].home == a
    ensures forall k :: k in w.timers ==> g.Has(w.timers[k].home)
  {}

  lemma TurnMovesOn<T>(g: Geometry, w: Wheel<T>, j: nat, k: nat)
    requires InTick(g, w, j) && j < g.levels && k in TurnLevel(g, w, j).0.timers
    ensures TurnMoves(g, w, j, TurnLevel(g, w, j).0, k)
  {
    hide Due, PlaceSlot, Sound, Threaded, Positions, Drain, NextStay, Distinct;
    var a := Current(g, w, j);
    var rest, v := w.chains[a], Detach(w, a);
    ListOfSlot(g, w, a);
    DrainMoves(g, v, j, rest);
    DueAcrossStage(g, w.now, j, w.timers[k].home);
  }

  /** What one tick does to stays. */
  ghost predicate Moves<T>(g: Geometry, w: Wheel<T>, stage: nat, v: Wheel<T>) {
    forall k :: k in v.timers ==>
      && k in w.timers
      && v.timers[k].expire == w.timers[k].expire
      && var s := Spot(g, w, stage, {}, k);
         MovesFrom(g, s, Spot(g, v, g.levels, {}, k), s.due == w.now, w.now, w.timers[k].expire)
  }

  lemma SettledSpot<T>(g: Geometry, w: Wheel<T>, j: nat, k: nat)
    requires j < g.levels && w.now >= 1 && w.now % g.Span(j) == 0 && (w.now / g.Span(j)) % g.slots != 0
    requires k in w.timers
    ensures Spot(g, w, j + 1, {}, k) == Spot(g, w, g.levels, {}, k)
  {
    var a := w.timers[k].home;
    if a.level > j {
      StopsHere(g, w.now, j, a.level);
    }
  }

  lemma NextStayAhead(g: Geometry, now: nat, l: nat, expire: nat)
    requires Settled(g, l, now, expire) && expire > now
    ensures NextStay(g, now, l, expire).due > now
  {
    AgainSettled(g, now, l, expire);
  }

  lemma SpotAhead<T>(g: Geometry, w: Wheel<T>, k: nat)
    requires Sound(g, w, g.levels, {}) && k in w.timers && g.Has(w.timers[k].home)
    ensures Spot(g, w, g.levels, {}, k).due > w.now
  {
    assert SoundKey(g, w, g.levels, {}, k);
  }

  lemma LastLevel<T>(g: Geometry, w: Wheel<T>, j: nat, k: nat)
    requires InTick(g, w, j) && j < g.levels && TurnLevel(g, w, j).0.position[j] != 0
    requires k in TurnLevel(g, w, j).0.timers
    ensures var d := TurnLevel(g, w, j).0;
      Spot(g, d, j + 1, {}, k) == Spot(g, d, g.levels, {}, k) && Spot(g, d, g.levels, {}, k).due > w.now
  {
    hide TurnLevel, Due, Positions;
    TurnPosition(g, w, j);
    WrapAligned(g, w.now, j);
    TurnGoesOn(g, w, j);
    SettledSpot(g, TurnLevel(g, w, j).0, j, k);
    SpotAhead(g, TurnLevel(g, w, j).0, k);
  }

  /** After level `j` has turned: either the tick goes on with the next level, or it is over and
      nothing else was due. */
  lemma LastMove<T>(g: Geometry, w: Wheel<T>, j: nat, r: Wheel<T>, k: nat)
    requires InTick(g, w, j) && j < g.levels
    requires var d := TurnLevel(g, w, j).0;
      && k in r.timers && k in d.timers && r.timers[k].expire == d.timers[k].expire && d.now == w.now
      && TurnMoves(g, w, j, d, k)
      && if d.position[j] == 0 then Moves(g, d, j + 1, r) else r == d
    ensures var s := Spot(g, w, j, {}, k);
      MovesFrom(g, s, Spot(g, r, g.levels, {}, k), s.due == w.now, w.now, w.timers[k].expire)
  {
    hide TurnLevel, Due, NextStay, Settled, Prompt;
    var d := TurnLevel(g, w, j).0;
    var s := Spot(g, w, j, {}, k);
    assert SoundKey(g, w, j, {}, k);
    if s == Stay(j, w.now) {
      NextStayAhead(g, w.now, j, w.timers[k].expire);
    }
    if d.position[j] != 0 {
      LastLevel(g, w, j, k);
    }
  }

  lemma {:induction false} ProcessMoves<T>(g: Geometry, w: Wheel<T>, j: nat)
    requires InTick(g, w, j)
    ensures Moves(g, w, j, ProcessLevel(g, w, j).0)
    decreases g.levels - j
  {
    hide TurnLevel, Due, Positions, Ready, NextStay;
    var r := ProcessLevel(g, w, j).0;
    if j == g.levels {
      forall k | k in w.timers ensures Spot(g, w, j, {}, k).due != w.now {
        assert SoundKey(g, w, j, {}, k);
      }
    } else {
      var d := TurnLevel(g, w, j).0;
      TurnGoesOn(g, w, j);
      TurnPosition(g, w, j);
      WrapAligned(g, w.now, j);
      if d.position[j] == 0 {
        ProcessMoves(g, d, j + 1);
      }
      forall k | k in r.timers
        ensures k in w.timers && r.timers[k].expire == w.timers[k].expire
        ensures var s := Spot(g, w, j, {}, k);
          MovesFrom(g, s, Spot(g, r, g.levels, {}, k), s.due == w.now, w.now, w.timers[k].expire)
      {
        TurnMovesOn(g, w, j, k);
        LastMove(g, w, j, r, k);
      }
    }
  }

  /** One tick moves on exactly the timers whose slot is drained at the new time. */
  lemma TickMoves<T>(g: Geometry, w: Wheel<T>, k: nat)
    requires Idle(g, w) && k in Tick(g, w).0.timers
    ensures k in w.timers && Tick(g, w).0.timers[k].expire == w.timers[k].expire
    ensures var s := Spot(g, w, g.levels, {}, k);
      MovesFrom(g, s, Spot(g, Tick(g, w).0, g.levels, {}, k), s.due == w.now + 1, w.now + 1, w.timers[k].expire)
  {
    hide ProcessLevel, NextStay;
    var v := w.(now := w.now + 1);
    BeginTick(g, w);
    ProcessMoves(g, v, 0);
    assert Spot(g, v, 0, {}, k) == Spot(g, w, g.levels, {}, k);
  }
}
