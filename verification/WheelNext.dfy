/** What `next_expiration` reports: the least expiry in the first occupied slot of its scan. */
module WheelNext {
  import MachineArithmetic
  import opened TimerArithmetic
  import TimerLaw
  import opened WheelModel
  import opened WheelCalendar
  import opened Optional

  /** The `i`-th slot of level `l` in scan order. */
  function ScanSlot<T>(g: Geometry, w: Wheel<T>, l: nat, i: nat): (a: Slot)
    requires Shaped(g, w) && l < g.levels
    ensures g.Has(a)
  {
    Slot(l, (w.position[l] + i) % g.slots)
  }

  /** The first occupied slot from position `i` of level `l` on. */
  function Scan<T>(g: Geometry, w: Wheel<T>, l: nat, i: nat): (r: Option<Slot>)
    requires Shaped(g, w) && l <= g.levels && i <= g.slots
    ensures r.Some? ==> g.Has(r.value) && w.chains[r.value] != []
    decreases g.levels - l, g.slots - i
  {
    if l == g.levels then None
    else if i == g.slots then Scan(g, w, l + 1, 0)
    else if w.chains[ScanSlot(g, w, l, i)] != [] then Some(ScanSlot(g, w, l, i))
    else Scan(g, w, l, i + 1)
  }

  ghost predicate AllLive<T>(w: Wheel<T>, c: seq<nat>) {
    forall k :: k in c ==> k in w.timers
  }

  ghost predicate LeastOf<T>(w: Wheel<T>, c: seq<nat>, m: nat) {
    && AllLive(w, c)
    && (forall k :: k in c ==> m <= w.timers[k].expire)
    && (exists k :: k in c && w.timers[k].expire == m)
  }

  ghost predicate IsNext<T>(g: Geometry, w: Wheel<T>, r: Option<nat>)
    requires Ready(g, w)
  {
    match Scan(g, w, 0, 0)
    case None => r == None
    case Some(a) => r.Some? && LeastOf(w, w.chains[a], r.value)
  }

  // ---- the scan reaches every slot -----------------------------------------------------------

  /** The place of slot `s` in a scan that starts at `position`. */
  function Offset(slots: nat, position: nat, s: nat): (x: nat)
    requires slots >= 1 && s < slots
    ensures x < slots && (position + x) % slots == s
  {
    MachineArithmetic.ModOfSum(s - position, position, slots);
    MachineArithmetic.DivModUnique(s, slots, 0, s);
    (s - position) % slots
  }

  lemma {:induction false} ScanFinds<T>(g: Geometry, w: Wheel<T>, l: nat, i: nat, m: nat, x: nat)
    requires Shaped(g, w) && l < g.levels && i <= g.slots && m < g.levels && x < g.slots
    requires l < m || (l == m && i <= x)
    requires w.chains[ScanSlot(g, w, m, x)] != []
    ensures var r := Scan(g, w, l, i);
            && r.Some? && r.value.level <= m
            && (r.value.level == m ==> exists y :: 0 <= y <= x && r.value == ScanSlot(g, w, m, y))
    decreases g.levels - l, g.slots - i
  {
    if i == g.slots {
      ScanFinds(g, w, l + 1, 0, m, x);
    } else if w.chains[ScanSlot(g, w, l, i)] == [] {
      ScanFinds(g, w, l, i + 1, m, x);
    }
  }

  lemma FindsTimer<T>(g: Geometry, w: Wheel<T>, k: nat)
    requires Ready(g, w) && k in w.timers
    ensures var r := Scan(g, w, 0, 0);
            var a := w.timers[k].home;
            && g.Has(a) && r.Some? && r.value.level <= a.level
            && (r.value.level == a.level ==>
                  exists y :: 0 <= y <= Offset(g.slots, w.position[a.level], a.index) && r.value == ScanSlot(g, w, a.level, y))
  {
    var a := w.timers[k].home;
    var x := Offset(g.slots, w.position[a.level], a.index);
    assert ScanSlot(g, w, a.level, x) == a;
    ScanFinds(g, w, 0, 0, a.level, x);
  }

  /** `None` means no live timer; otherwise some live timer has the reported expiry. */
  lemma NextIsLive<T>(g: Geometry, w: Wheel<T>, r: Option<nat>)
    requires Ready(g, w) && IsNext(g, w, r)
    ensures r.None? <==> w.timers == map[]
    ensures r.Some? ==> exists k :: k in w.timers && w.timers[k].expire == r.value
  {
    if w.timers != map[] {
      var k :| k in w.timers;
      FindsTimer(g, w, k);
    }
  }

  // ---- the finest level -------------------------------------------------------------------------

  lemma DueOfOffset<T>(g: Geometry, w: Wheel<T>, y: nat)
    requires Idle(g, w) && y < g.slots
    ensures Due(g, w.now, g.levels, ScanSlot(g, w, 0, y)) == w.now + 1 + y
  {
    assert g.Span(0) == 1;
    assert w.position[0] == w.now % g.slots;
    MachineArithmetic.ModOfSum(w.now, y, g.slots);
    NextVisitAhead(g.slots, w.now, y);
  }

  lemma LevelZeroExpiry<T>(g: Geometry, w: Wheel<T>, k: nat, y: nat)
    requires Idle(g, w) && g.levels >= 2 && k in w.timers && w.timers[k].expire > w.now
    requires y < g.slots && w.timers[k].home == ScanSlot(g, w, 0, y)
    ensures w.timers[k].expire == w.now + 1 + y
  {
    assert SoundKey(g, w, g.levels, {}, k);
    DueOfOffset(g, w, y);
  }

  /** With at least two levels and no timer of interval 0 pending on level 0, the report is the
      least expiry on level 0 whenever that level holds a timer. */
  lemma NextIsLeastOfLevelZero<T>(g: Geometry, w: Wheel<T>, r: Option<nat>, k0: nat)
    requires Idle(g, w) && IsNext(g, w, r) && g.levels >= 2
    requires k0 in w.timers && w.timers[k0].home.level == 0
    requires forall k :: k in w.timers && w.timers[k].home.level == 0 ==> w.timers[k].expire > w.now
    ensures r.Some?
    ensures exists k :: k in w.timers && w.timers[k].home.level == 0 && w.timers[k].expire == r.value
    ensures forall k :: k in w.timers && w.timers[k].home.level == 0 ==> r.value <= w.timers[k].expire
  {
    hide Sound, TimerLaw.Positions, Scan;
    FindsTimer(g, w, k0);
    var a := Scan(g, w, 0, 0).value;
    var m :| m in w.chains[a] && w.timers[m].expire == r.value;
    forall k | k in w.timers && w.timers[k].home.level == 0
      ensures r.value <= w.timers[k].expire
    {
      var x := Offset(g.slots, w.position[0], w.timers[k].home.index);
      FindsTimer(g, w, k);
      var y :| 0 <= y <= x && a == ScanSlot(g, w, 0, y);
      LevelZeroExpiry(g, w, k, x);
      LevelZeroExpiry(g, w, m, y);
    }
  }

  lemma NextMultiple(now: nat, due: nat, s: nat)
    requires s >= 1 && due % s == 0 && due > now
    ensures due >= (now / s + 1) * s
  {
    var m, n := due / s, now / s + 1;
    assert due == m * s && now < n * s;
    assert m < n ==> m * s + s <= n * s by { if m < n { TimerLaw.MulBelow(m, n, s); } }
    assert m > n ==> m * s >= n * s + s by { if m > n { TimerLaw.MulBelow(n, m, s); } }
  }

  lemma CoarseFate<T>(g: Geometry, w: Wheel<T>, k: nat)
    requires k in w.timers && SoundKey(g, w, g.levels, {}, k) && w.timers[k].home.level >= 1
    ensures Fate(g, w, g.levels, {}, k) >= (w.now / g.slots + 1) * g.slots
  {
    var a := w.timers[k].home;
    var due := Due(g, w.now, g.levels, a);
    CoarseDue(g, a.level, due);
    hide Due, TimerLaw.Prompt, TimerLaw.FireAt;
    NextMultiple(w.now, due, g.slots);
  }

  /** Coarser slots are drained at cascades only. */
  lemma CoarseIsLater<T>(g: Geometry, w: Wheel<T>, k: nat)
    requires Idle(g, w) && k in w.timers && w.timers[k].home.level >= 1
    ensures Calendar(g, w)[k].fireAt >= (w.now / g.slots + 1) * g.slots
  {
    hide SoundKey, Fate, Book, TimerLaw.Positions;
    CoarseFate(g, w, k);
  }

  /** Before the next cascade the report is the least expiry of all, if no live timer is late. */
  lemma NextIsLeastBeforeCascade<T>(g: Geometry, w: Wheel<T>, r: Option<nat>, k0: nat)
    requires Idle(g, w) && IsNext(g, w, r) && g.levels >= 2
    requires k0 in w.timers && w.timers[k0].home.level == 0
    requires forall k :: k in w.timers ==> Calendar(g, w)[k].fireAt == w.timers[k].expire
    requires w.timers[k0].expire <= (w.now / g.slots + 1) * g.slots
    ensures r.Some?
    ensures forall k :: k in w.timers ==> r.value <= w.timers[k].expire
  {
    forall k | k in w.timers ensures w.timers[k].expire > w.now {
      AppointmentsAhead(g, w, k);
    }
    NextIsLeastOfLevelZero(g, w, r, k0);
    forall k | k in w.timers && w.timers[k].home.level >= 1
      ensures r.value <= w.timers[k].expire
    {
      CoarseIsLater(g, w, k);
    }
  }

  function Small(): Dimensions {
    Dimensions(2, 4)
  }

  lemma SmallPlaces()
    ensures var g: Geometry := Small();
            && PlaceSlot(g, [0, 0], 5) == Slot(1, 0) && PlaceSlot(g, [3, 0], 3) == Slot(0, 1)
            && Empty<int>(g).position == [0, 0]
            && forall a: Slot :: a.level < 2 && a.index < 4 ==> a in Empty<int>(g).chains && Empty<int>(g).chains[a] == []
  {
    var g: Geometry := Small();
    assert g.Span(0) == 1 && g.Span(1) == 4 && g.Span(2) == 16;
  }

  lemma StartedIn<T>(g: Geometry, w: Wheel<T>, k: nat, expire: nat, context: T, a: Slot)
    requires Shaped(g, w) && expire >= w.now && a == PlaceSlot(g, w.position, expire - w.now)
    ensures var r := Start(g, w, k, expire, context);
            && r.now == w.now && r.position == w.position && a in w.chains
            && r.timers == w.timers[k := Timer(expire, context, a)]
            && r.chains == w.chains[a := [k] + w.chains[a]]
  {}

  /** A tick that finds an empty slot and does not wrap only moves the clock. */
  lemma QuietTick<T>(g: Geometry, w: Wheel<T>)
    requires Ready(g, w) && w.chains[Current(g, w, 0)] == [] && (w.position[0] + 1) % g.slots != 0
    ensures Tick(g, w).0 == w.(now := w.now + 1, position := w.position[0 := (w.position[0] + 1) % g.slots])
  {
    var v := w.(now := w.now + 1);
    assert Detach(v, Current(g, v, 0)) == v;
  }

  lemma {:induction false} QuietTicks<T>(g: Geometry, w: Wheel<T>, n: nat)
    requires Ready(g, w) && n < g.slots && w.position[0] == 0
    requires forall s :: 0 <= s < n ==> w.chains[Slot(0, s)] == []
    ensures ExpireTimers(g, w, n).0 == w.(now := w.now + n, position := w.position[0 := n])
  {
    hide Tick, Threaded;
    if n == 0 {
      assert w.position[0 := 0] == w.position;
    } else {
      QuietTicks(g, w, n - 1);
      MachineArithmetic.DivModUnique(n, g.slots, 0, n);
      QuietTick(g, ExpireTimers(g, w, n - 1).0);
      assert w.position[0 := n - 1][0 := n] == w.position[0 := n];
    }
  }

  lemma OnlyTimer<T>(g: Geometry, w: Wheel<T>, a: Slot)
    requires Ready(g, w) && g.Has(a) && |w.chains[a]| == 1
    ensures w.chains[a][0] in w.timers && LeastOf(w, w.chains[a], w.timers[w.chains[a][0]].expire)
  {
    assert w.chains[a][0] in w.chains[a];
  }

  lemma ScansToThird<T>(g: Geometry, w: Wheel<T>)
    requires Ready(g, w) && g == Small() && w.position[0] == 3
    requires w.chains[Slot(0, 3)] == [] && w.chains[Slot(0, 0)] == []
    requires |w.chains[Slot(0, 1)]| == 1
    ensures IsNext(g, w, Some(w.timers[w.chains[Slot(0, 1)][0]].expire))
  {
    hide Threaded;
    var c := w.chains[Slot(0, 1)];
    OnlyTimer(g, w, Slot(0, 1));
    assert ScanSlot(g, w, 0, 0) == Slot(0, 3) && ScanSlot(g, w, 0, 1) == Slot(0, 0) && ScanSlot(g, w, 0, 2) == Slot(0, 1);
    assert Scan(g, w, 0, 1) == Scan(g, w, 0, 2) == Some(Slot(0, 1));
  }

  /** The report need not be the least expiry of all: with 2 levels of 4 slots, a timer of
      interval 5 followed three ticks later by one of interval 3 makes it 6, not 5. */
  lemma NextMayMissCoarser(w0: Wheel<int>)
    requires var g: Geometry := Small(); w0 == Start(g, Empty<int>(g), 100, 5, 0)
    ensures var g: Geometry := Small();
            && Ready(g, w0)
            && var w3 := ExpireTimers(g, w0, 3).0;
               && Ready(g, w3) && w3.now == 3 && 101 !in w3.timers
               && var w := Start(g, w3, 101, 6, 1);
                  Ready(g, w) && IsNext(g, w, Some(6)) && 100 in w.timers && w.timers[100].expire == 5
  {
    hide Tick, ExpireTimers, Shaped, Threaded, PlaceSlot, Scan;
    var g: Geometry := Small();
    SmallPlaces();
    StartThreads(g, Empty<int>(g), 100, 5, 0);
    StartedIn(g, Empty<int>(g), 100, 5, 0, Slot(1, 0));
    QuietTicks(g, w0, 3);
    var w3 := ExpireTimers(g, w0, 3).0;
    assert w3.position == [3, 0];
    StartThreads(g, w3, 101, 6, 1);
    StartedIn(g, w3, 101, 6, 1, Slot(0, 1));
    ScansToThird(g, Start(g, w3, 101, 6, 1));
  }
}
