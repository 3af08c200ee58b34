/** When the report of `next_expiration` is the least expiry of all, told from the starts and
    expiries of the live timers. */
module WheelReports {
  import MachineArithmetic
  import opened Optional
  import opened TimerArithmetic
  import opened TimerLaw
  import opened WheelModel
  import opened WheelCalendar
  import opened WheelHomes
  import opened WheelNext
  import opened WheelRuns

  // ---- the scan in terms of stays -----------------------------------------------------------------------

  /** A finer level comes first, and on one level the slot that is drained earlier. */
  predicate NotAfter(s: Stay, t: Stay) {
    s.level < t.level || (s.level == t.level && s.due <= t.due)
  }

  function SlotStay<T>(g: Geometry, w: Wheel<T>, a: Slot): Stay {
    Stay(a.level, Due(g, w.now, g.levels, a))
  }

  lemma ScanSlotDue<T>(g: Geometry, w: Wheel<T>, l: nat, y: nat)
    requires Idle(g, w) && l < g.levels && y < g.slots
    ensures Due(g, w.now, g.levels, ScanSlot(g, w, l, y)) == (w.now / g.Span(l) + 1 + y) * g.Span(l)
  {
    hide Sound, Ready;
    var q := w.now / g.Span(l);
    assert w.position[l] == q % g.slots;
    MachineArithmetic.ModOfSum(q, y, g.slots);
    NextVisitAhead(g.slots, q, y);
  }

  lemma ProductOrder(q: nat, x: nat, y: nat, u: nat)
    requires u >= 1
    ensures (q + 1 + x) * u <= (q + 1 + y) * u <==> x <= y
  {
    if x < y { MulBelow(q + 1 + x, q + 1 + y, u); }
    if y < x { MulBelow(q + 1 + y, q + 1 + x, u); }
  }

  /** The slot the scan stops at is not after that of any timer. */
  lemma ScanIsFirst<T>(g: Geometry, w: Wheel<T>, k: nat)
    requires Idle(g, w) && k in w.timers
    ensures var r := Scan(g, w, 0, 0);
      && r.Some?
      && NotAfter(SlotStay(g, w, r.value), Spot(g, w, g.levels, {}, k))
      && (SlotStay(g, w, r.value) == Spot(g, w, g.levels, {}, k) ==> r.value == w.timers[k].home)
  {
    hide Sound, Positions, Scan, Due;
    FindsTimer(g, w, k);
    var a, r := w.timers[k].home, Scan(g, w, 0, 0).value;
    if r.level == a.level {
      var x := Offset(g.slots, w.position[a.level], a.index);
      var y :| 0 <= y <= x && r == ScanSlot(g, w, a.level, y);
      assert a == ScanSlot(g, w, a.level, x);
      ScanSlotDue(g, w, a.level, x);
      ScanSlotDue(g, w, a.level, y);
      ProductOrder(w.now / g.Span(a.level), x, y, g.Span(a.level));
      ProductOrder(w.now / g.Span(a.level), y, x, g.Span(a.level));
    }
  }

  ghost predicate LeastOfAll<T>(w: Wheel<T>, e: nat) {
    forall x :: x in w.timers ==> e <= w.timers[x].expire
  }

  lemma NotAfterBoth(s: Stay, t: Stay)
    ensures NotAfter(s, t) && NotAfter(t, s) ==> s == t
  {
  }

  /** The report is the least expiry of all exactly when some timer of least expiry is also kept on
      the finest occupied level in the slot drained first. */
  lemma NextIsLeastIff<T>(g: Geometry, w: Wheel<T>, r: Option<nat>)
    requires Idle(g, w) && IsNext(g, w, r) && w.timers != map[]
    ensures r.Some?
    ensures LeastOfAll(w, r.value) <==>
      exists k :: k in w.timers && LeastOfAll(w, w.timers[k].expire)
        && forall x :: x in w.timers ==> NotAfter(Spot(g, w, g.levels, {}, k), Spot(g, w, g.levels, {}, x))
  {
    hide Sound, Positions, Due, Scan, NotAfter;
    var some :| some in w.timers;
    ScanIsFirst(g, w, some);
    var a := Scan(g, w, 0, 0).value;
    forall x | x in w.timers
      ensures NotAfter(SlotStay(g, w, a), Spot(g, w, g.levels, {}, x))
      ensures SlotStay(g, w, a) == Spot(g, w, g.levels, {}, x) ==> a == w.timers[x].home
    {
      ScanIsFirst(g, w, x);
    }
    var m :| m in w.chains[a] && w.timers[m].expire == r.value;
    assert Spot(g, w, g.levels, {}, m) == SlotStay(g, w, a);
    forall k | k in w.timers && LeastOfAll(w, w.timers[k].expire)
      && forall x :: x in w.timers ==> NotAfter(Spot(g, w, g.levels, {}, k), Spot(g, w, g.levels, {}, x))
      ensures LeastOfAll(w, r.value)
    {
      assert NotAfter(Spot(g, w, g.levels, {}, k), Spot(g, w, g.levels, {}, m));
      NotAfterBoth(SlotStay(g, w, a), Spot(g, w, g.levels, {}, k));
      assert k in w.chains[a];
    }
  }

  // ---- starts recorded beside the run ---------------------------------------------------------------------

  /** When each live timer was started, after one more call. */
  function StartsAfter<T>(starts: map<nat, nat>, w: Wheel<T>, op: Op<T>, v: Wheel<T>): map<nat, nat> {
    match op
    case StartTimer(k, _, _) => starts[k := w.now]
    case StartAbsolute(k, expire, _) => if expire <= w.now then starts else starts[k := w.now]
    case StopTimer(k) => starts - {k}
    case OneTick => map k | k in starts && k in v.timers :: starts[k]
  }

  ghost function StartsOf<T>(g: Geometry, w: Wheel<T>, ops: seq<Op<T>>, starts: map<nat, nat>): map<nat, nat>
    requires Live(g, w) && Legal(g, w, ops)
    decreases |ops|
  {
    if ops == [] then starts
    else
      StepRefines(g, w, ops[0]);
      var v := Step(g, w, ops[0]).0;
      StartsOf(g, v, ops[1..], StartsAfter(starts, w, ops[0], v))
  }

  /** Every interval is 1 or more, and the clock has not reached its end, where intervals saturate to 0. */
  ghost predicate Positive<T>(g: Geometry, w: Wheel<T>, ops: seq<Op<T>>)
    requires Live(g, w) && Legal(g, w, ops)
    decreases |ops|
  {
    ops == [] ||
    (&& (ops[0].StartTimer? ==> ops[0].interval >= 1 && w.now < MachineArithmetic.U64_MAX)
     && (StepRefines(g, w, ops[0]); Positive(g, Step(g, w, ops[0]).0, ops[1..])))
  }

  /** Everything about timer `k` follows from its start, its expiry and the time. */
  ghost predicate TrackedKey<T>(g: Geometry, w: Wheel<T>, start: nat, k: nat)
    requires k in w.timers
  {
    var e := w.timers[k].expire;
    && start < e
    && Calendar(g, w)[k].fireAt == FireTick(g, start, e)
    && Spot(g, w, g.levels, {}, k) == StayOf(g, start, e, w.now)
  }

  ghost predicate Tracked<T>(g: Geometry, w: Wheel<T>, starts: map<nat, nat>) {
    starts.Keys == w.timers.Keys && forall k :: k in starts ==> TrackedKey(g, w, starts[k], k)
  }

  lemma KeptTracked<T>(g: Geometry, w: Wheel<T>, v: Wheel<T>, start: nat, k: nat)
    requires k in w.timers && TrackedKey(g, w, start, k) && v.now == w.now
    requires k in v.timers && v.timers[k] == w.timers[k] && Calendar(g, v)[k] == Calendar(g, w)[k]
    ensures TrackedKey(g, v, start, k)
  {
    hide FireTick, StayOf, Due, Calendar;
  }

  lemma StartedStay<T>(g: Geometry, w: Wheel<T>, k: nat, expire: nat, context: T)
    requires Idle(g, w) && expire > w.now
    ensures Spot(g, Start(g, w, k, expire, context), g.levels, {}, k) == StayOf(g, w.now, expire, w.now)
  {
    hide Sound, Ready, Due, PlaceSlot;
    FiringLaw(g, w.now, expire);
  }

  lemma StartedTracked<T>(g: Geometry, w: Wheel<T>, k: nat, expire: nat, context: T)
    requires Idle(g, w) && k !in w.timers && expire > w.now
    ensures TrackedKey(g, Start(g, w, k, expire, context), w.now, k)
  {
    hide Sound, Threaded, Positions, Book, PlaceSlot, FireTick, Spot, StayOf;
    StartLaw(g, w, k, expire, context);
    StartedStay(g, w, k, expire, context);
  }

  lemma StartTracked<T>(g: Geometry, w: Wheel<T>, starts: map<nat, nat>, k: nat, expire: nat, context: T)
    requires Idle(g, w) && k !in w.timers && expire > w.now && Tracked(g, w, starts)
    ensures Tracked(g, Start(g, w, k, expire, context), starts[k := w.now])
  {
    hide Sound, Threaded, Positions, TrackedKey, Book, PlaceSlot;
    var v := Start(g, w, k, expire, context);
    assert v.timers.Keys == w.timers.Keys + {k} == starts[k := w.now].Keys;
    forall x | x in v.timers ensures TrackedKey(g, v, starts[k := w.now][x], x) {
      StartLaw(g, w, k, expire, context);
      if x == k {
        StartedTracked(g, w, k, expire, context);
      } else {
        KeptTracked(g, w, v, starts[x], x);
      }
    }
  }

  lemma StopTracked<T>(g: Geometry, w: Wheel<T>, starts: map<nat, nat>, k: nat)
    requires Idle(g, w) && k in w.timers && Tracked(g, w, starts)
    ensures Tracked(g, Stop(w, k), starts - {k})
  {
    hide Sound, Shaped, Positions, TrackedKey, Book;
    var v := Stop(w, k);
    forall x | x in v.timers ensures TrackedKey(g, v, starts[x], x) {
      StopLaw(g, w, k);
      KeptTracked(g, w, v, starts[x], x);
    }
  }

  lemma KeptAppointment<T>(g: Geometry, w: Wheel<T>, v: Wheel<T>, k: nat)
    requires Calendar(g, v) == Later(Calendar(g, w), w.now + 1) && k in v.timers && k in w.timers
    ensures Calendar(g, v)[k] == Calendar(g, w)[k]
  {
    assert k in Calendar(g, v);
  }

  lemma StayOfStep(g: Geometry, start: nat, expire: nat, now: nat)
    requires start < expire && FireTick(g, start, expire) > now + 1
    ensures var s := StayOf(g, start, expire, now);
      StayOf(g, start, expire, now + 1) ==
      if s.due == now + 1 && expire > now + 1 then NextStay(g, now + 1, s.level, expire) else s
  {
    hide FireTick, FireAt, StayAt, Due, PlaceSlot;
    FiringLaw(g, start, expire);
    var a := PlaceSlot(g, Positions(g, start, g.levels), expire - start);
    StayStep(g, a.level, Due(g, start, g.levels, a), expire, now);
  }

  lemma TickTracked<T>(g: Geometry, w: Wheel<T>, starts: map<nat, nat>)
    requires Idle(g, w) && Tracked(g, w, starts)
    ensures var v := Tick(g, w).0;
      Tracked(g, v, map k | k in starts && k in v.timers :: starts[k])
  {
    hide Sound, Ready, Positions, Due, FireTick, StayOf, Book, Tick, Calendar;
    var v := Tick(g, w).0;
    TickLaw(g, w);
    forall k | k in v.timers ensures k in starts && TrackedKey(g, v, starts[k], k) {
      TickMoves(g, w, k);
      assert TrackedKey(g, w, starts[k], k);
      AppointmentsAhead(g, v, k);
      KeptAppointment(g, w, v, k);
      StayOfStep(g, starts[k], w.timers[k].expire, w.now);
    }
  }

  lemma StepTracked<T>(g: Geometry, w: Wheel<T>, op: Op<T>, starts: map<nat, nat>)
    requires Live(g, w) && Allowed(w, op) && Tracked(g, w, starts)
    requires op.StartTimer? ==> op.interval >= 1 && w.now < MachineArithmetic.U64_MAX
    ensures var v := Step(g, w, op).0;
      Tracked(g, v, StartsAfter(starts, w, op, v))
  {
    hide Idle, TrackedKey;
    match op
    case StartTimer(k, interval, context) =>
      StartTracked(g, w, starts, k, SaturatingAdd(w.now, interval), context);
    case StartAbsolute(k, expire, context) =>
      if expire > w.now { StartTracked(g, w, starts, k, expire, context); }
    case StopTimer(k) =>
      if k in w.timers { StopTracked(g, w, starts, k); } else { assert starts - {k} == starts; }
    case OneTick => TickTracked(g, w, starts);
  }

  lemma {:induction false} RunTracked<T>(g: Geometry, w: Wheel<T>, ops: seq<Op<T>>, starts: map<nat, nat>)
    requires Live(g, w) && Legal(g, w, ops) && Positive(g, w, ops) && Tracked(g, w, starts)
    ensures Live(g, Run(g, w, ops).0)
    ensures Tracked(g, Run(g, w, ops).0, StartsOf(g, w, ops, starts))
    decreases |ops|
  {
    hide Idle, Tracked, Step, Books, StartsAfter;
    if ops != [] {
      StepRefines(g, w, ops[0]);
      StepTracked(g, w, ops[0], starts);
      var v := Step(g, w, ops[0]).0;
      RunTracked(g, v, ops[1..], StartsAfter(starts, w, ops[0], v));
    }
  }

  // ---- what the caller can tell -------------------------------------------------------------------------------

  /** The wheel and the starts of its timers after a run from the empty wheel. */
  ghost predicate Reached<T>(g: Geometry, ops: seq<Op<T>>, w: Wheel<T>, starts: map<nat, nat>) {
    EmptyIdle<T>(g);
    && Legal(g, Empty<T>(g), ops)
    && Positive(g, Empty<T>(g), ops)
    && w == Run(g, Empty<T>(g), ops).0
    && starts == StartsOf(g, Empty<T>(g), ops, map[])
  }

  ghost predicate Reports<T>(g: Geometry, w: Wheel<T>, r: Option<nat>) {
    Idle(g, w) && IsNext(g, w, r)
  }

  /** Timer `k` is live, was started before it expires, and is near its expiry. */
  predicate NearTimer<T>(g: Geometry, w: Wheel<T>, starts: map<nat, nat>, k: nat) {
    && k in w.timers && k in starts && starts[k] < w.timers[k].expire
    && Near(g, starts[k], w.timers[k].expire, w.now)
  }

  /** No live timer has an earlier stay than timer `k`. */
  ghost predicate StaysFirst<T>(g: Geometry, w: Wheel<T>, starts: map<nat, nat>, k: nat) {
    && k in w.timers && k in starts && starts[k] < w.timers[k].expire
    && forall x :: x in w.timers && x in starts && starts[x] < w.timers[x].expire ==>
         NotAfter(StayOf(g, starts[k], w.timers[k].expire, w.now), StayOf(g, starts[x], w.timers[x].expire, w.now))
  }

  lemma ReachedTracked<T>(g: Geometry, ops: seq<Op<T>>, w: Wheel<T>, starts: map<nat, nat>)
    requires Reached(g, ops, w, starts)
    ensures Idle(g, w) && Tracked(g, w, starts)
  {
    hide Idle, Run, StartsOf;
    EmptyIdle<T>(g);
    RunTracked(g, Empty<T>(g), ops, map[]);
  }

  lemma IdleSpotAhead<T>(g: Geometry, w: Wheel<T>, k: nat)
    requires Idle(g, w) && k in w.timers
    ensures Spot(g, w, g.levels, {}, k).due > w.now
  {
    SpotAhead(g, w, k);
  }

  /** A live timer is on level 0 exactly when its interval is below the slot count, or it is on time
      and the last multiple of the slot count not after its expiry has come. */
  lemma OnLevelZeroIff<T>(g: Geometry, ops: seq<Op<T>>, w: Wheel<T>, starts: map<nat, nat>, k: nat)
    requires Reached(g, ops, w, starts) && g.levels >= 2 && k in w.timers
    ensures k in starts && starts[k] < w.timers[k].expire
    ensures w.timers[k].home.level == 0 <==> Near(g, starts[k], w.timers[k].expire, w.now)
    ensures w.timers[k].home.level == 0 ==> w.timers[k].expire > w.now
  {
    hide Reached, Idle, Near, StayOf, FireTick, Calendar;
    ReachedTracked(g, ops, w, starts);
    assert TrackedKey(g, w, starts[k], k);
    AppointmentsAhead(g, w, k);
    NearIffLevelZero(g, starts[k], w.timers[k].expire, w.now);
    IdleSpotAhead(g, w, k);
  }

  /** When some timer is near, the report is the least expiry of those that are; and it is the least
      expiry of all exactly when a timer of least expiry is near. */
  lemma NearReport<T>(g: Geometry, ops: seq<Op<T>>, w: Wheel<T>, starts: map<nat, nat>, r: Option<nat>, k0: nat)
    requires Reached(g, ops, w, starts) && g.levels >= 2 && Reports(g, w, r) && NearTimer(g, w, starts, k0)
    ensures r.Some?
    ensures exists k :: NearTimer(g, w, starts, k) && w.timers[k].expire == r.value
    ensures forall k :: NearTimer(g, w, starts, k) ==> r.value <= w.timers[k].expire
    ensures LeastOfAll(w, r.value) <==> exists k :: NearTimer(g, w, starts, k) && LeastOfAll(w, w.timers[k].expire)
  {
    hide Reached, Idle, Near, IsNext;
    forall k | k in w.timers
      ensures w.timers[k].home.level == 0 <==> NearTimer(g, w, starts, k)
      ensures w.timers[k].home.level == 0 ==> w.timers[k].expire > w.now
    {
      OnLevelZeroIff(g, ops, w, starts, k);
    }
    NextIsLeastOfLevelZero(g, w, r, k0);
  }

  /** Whatever is live, the report is the least expiry of all exactly when some timer of least expiry
      has the first stay of all, and stays follow from start, expiry and time alone. */
  lemma ReportLaw<T>(g: Geometry, ops: seq<Op<T>>, w: Wheel<T>, starts: map<nat, nat>, r: Option<nat>)
    requires Reached(g, ops, w, starts) && Reports(g, w, r) && w.timers != map[]
    ensures r.Some?
    ensures LeastOfAll(w, r.value) <==>
      exists k :: StaysFirst(g, w, starts, k) && LeastOfAll(w, w.timers[k].expire)
  {
    hide Reached, Idle, IsNext, NotAfter, StayOf, Spot;
    ReachedTracked(g, ops, w, starts);
    NextIsLeastIff(g, w, r);
    forall k | k in w.timers
      ensures k in starts && starts[k] < w.timers[k].expire
      ensures Spot(g, w, g.levels, {}, k) == StayOf(g, starts[k], w.timers[k].expire, w.now)
    {
      assert TrackedKey(g, w, starts[k], k);
    }
    forall k | k in w.timers
      ensures StaysFirst(g, w, starts, k) <==>
        forall x :: x in w.timers ==> NotAfter(Spot(g, w, g.levels, {}, k), Spot(g, w, g.levels, {}, x))
    {
    }
  }
}
