/** The timer wheel as a value: what `tw_timer.rs` computes, with each slot's linked list
    read as a sequence of slab keys. The class in `TimerWheels.dfy` is proved equal to this. */
module WheelModel {
  import opened TimerArithmetic

  /** A live timer and the slot whose list holds it. */
  datatype Timer<T> = Timer(expire: nat, context: T, home: Slot)

  /** A timer handed back by `expire_timers`: its slab key and its context. */
  datatype Expired<T> = Expired(key: nat, context: T)

  datatype Wheel<T> = Wheel(
    now: nat,
    position: seq<nat>,
    timers: map<nat, Timer<T>>,
    chains: map<Slot, seq<nat>>)

  ghost predicate Shaped<T>(g: Geometry, w: Wheel<T>) {
    && |w.position| == g.levels
    && (forall i :: 0 <= i < g.levels ==> w.position[i] < g.slots)
    && (forall a: Slot :: a in w.chains <==> g.Has(a))
  }

  ghost predicate Distinct(s: seq<nat>) {
    forall i, j :: 0 <= i < j < |s| ==> s[i] != s[j]
  }

  /** The lists are duplicate-free and disjoint, and hold exactly the timers that are not
      `pending` (unlinked, waiting for the draining loop to reach them). */
  ghost predicate Threaded<T>(w: Wheel<T>, pending: set<nat>) {
    && (forall a :: a in w.chains ==> Distinct(w.chains[a]))
    && (forall a, k :: a in w.chains && k in w.chains[a] ==>
          k in w.timers && k !in pending && w.timers[k].home == a)
    && (forall k :: k in w.timers && k !in pending ==>
          w.timers[k].home in w.chains && k in w.chains[w.timers[k].home])
    && pending <= w.timers.Keys
  }

  function AllSlots(g: Geometry): (all: set<Slot>)
    ensures forall a: Slot :: a in all <==> g.Has(a)
  {
    set l, s | 0 <= l < g.levels && 0 <= s < g.slots :: Slot(l, s)
  }

  function Empty<T>(g: Geometry): (w: Wheel<T>)
    ensures Shaped(g, w) && Threaded(w, {})
  {
    Wheel(0, seq(g.levels, i => 0), map[], map a | a in AllSlots(g) :: [])
  }

  /** Puts timer `k` at the front of the list of the slot chosen for it. */
  function File<T>(g: Geometry, w: Wheel<T>, k: nat): (r: Wheel<T>)
    requires Shaped(g, w) && k in w.timers && w.timers[k].expire >= w.now
    ensures Shaped(g, r) && r.now == w.now && r.position == w.position
    ensures r.timers.Keys == w.timers.Keys
  {
    var a := PlaceSlot(g, w.position, w.timers[k].expire - w.now);
    w.(timers := w.timers[k := w.timers[k].(home := a)],
       chains := w.chains[a := [k] + w.chains[a]])
  }

  function Start<T>(g: Geometry, w: Wheel<T>, k: nat, expire: nat, context: T): (r: Wheel<T>)
    requires Shaped(g, w) && expire >= w.now
    ensures Shaped(g, r)
  {
    File(g, w.(timers := w.timers[k := Timer(expire, context, Slot(0, 0))]), k)
  }

  function Without(s: seq<nat>, k: nat): (r: seq<nat>)
    ensures forall x :: x in r <==> x in s && x != k
    ensures k !in s ==> r == s
  {
    if s == [] then []
    else if s[0] == k then Without(s[1..], k)
    else [s[0]] + Without(s[1..], k)
  }

  function Stop<T>(w: Wheel<T>, k: nat): Wheel<T>
    requires k in w.timers && w.timers[k].home in w.chains
  {
    var a := w.timers[k].home;
    w.(timers := w.timers - {k}, chains := w.chains[a := Without(w.chains[a], k)])
  }

  /** One turn of the draining loop: an expired timer leaves the slab, any other is re-filed. */
  function Handle<T>(g: Geometry, w: Wheel<T>, k: nat): (r: Wheel<T>)
    requires Shaped(g, w) && k in w.timers
    ensures Shaped(g, r) && r.now == w.now && r.position == w.position
    ensures r.timers.Keys - {k} == w.timers.Keys - {k}
  {
    if w.timers[k].expire <= w.now then w.(timers := w.timers - {k}) else File(g, w, k)
  }

  function Delivered<T>(w: Wheel<T>, k: nat): seq<Expired<T>>
    requires k in w.timers
  {
    if w.timers[k].expire <= w.now then [Expired(k, w.timers[k].context)] else []
  }

  ghost function KeysOf(s: seq<nat>): (r: set<nat>)
    ensures forall k :: k in r <==> k in s
  {
    set k | k in s
  }

  /** The loop of `process_level` over a detached list. */
  function Drain<T>(g: Geometry, w: Wheel<T>, rest: seq<nat>): (r: (Wheel<T>, seq<Expired<T>>))
    requires Shaped(g, w) && Distinct(rest)
    requires forall k :: k in rest ==> k in w.timers
    ensures Shaped(g, r.0) && r.0.now == w.now && r.0.position == w.position
    decreases |rest|
  {
    if rest == [] then (w, [])
    else
      assert forall k :: k in rest[1..] ==> k in w.timers.Keys - {rest[0]};
      var r := Drain(g, Handle(g, w, rest[0]), rest[1..]);
      (r.0, Delivered(w, rest[0]) + r.1)
  }

  function Detach<T>(w: Wheel<T>, a: Slot): Wheel<T>
    requires a in w.chains
  {
    w.(chains := w.chains[a := []])
  }

  function Advance<T>(g: Geometry, w: Wheel<T>, level: nat): (r: Wheel<T>)
    requires Shaped(g, w) && level < g.levels
    ensures Shaped(g, r) && r.now == w.now && r.timers == w.timers && r.chains == w.chains
  {
    w.(position := w.position[level := (w.position[level] + 1) % g.slots])
  }

  /** The list of the slot that level `level` stands at. */
  function Current<T>(g: Geometry, w: Wheel<T>, level: nat): Slot
    requires Shaped(g, w) && level < g.levels
  {
    Slot(level, w.position[level])
  }

  ghost predicate Ready<T>(g: Geometry, w: Wheel<T>) {
    Shaped(g, w) && Threaded(w, {})
  }

  lemma FileThreads<T>(g: Geometry, w: Wheel<T>, k: nat, pending: set<nat>)
    requires Shaped(g, w) && Threaded(w, pending) && k in pending && w.timers[k].expire >= w.now
    ensures Threaded(File(g, w, k), pending - {k})
  {
  }

  lemma DropThreads<T>(w: Wheel<T>, k: nat, pending: set<nat>)
    requires Threaded(w, pending) && k in pending
    ensures Threaded(w.(timers := w.timers - {k}), pending - {k})
  {
  }

  lemma HandleThreads<T>(g: Geometry, w: Wheel<T>, rest: seq<nat>)
    requires Shaped(g, w) && Distinct(rest) && rest != [] && Threaded(w, KeysOf(rest))
    ensures Threaded(Handle(g, w, rest[0]), KeysOf(rest[1..]))
  {
    var k := rest[0];
    assert KeysOf(rest) - {k} == KeysOf(rest[1..]);
    if w.timers[k].expire <= w.now {
      DropThreads(w, k, KeysOf(rest));
    } else {
      FileThreads(g, w, k, KeysOf(rest));
    }
  }

  /** What a detached list has to hand back: its expired timers in the order of the list. */
  function ExpiredOf<T>(w: Wheel<T>, rest: seq<nat>): seq<Expired<T>>
    requires forall k :: k in rest ==> k in w.timers
  {
    if rest == [] then [] else Delivered(w, rest[0]) + ExpiredOf(w, rest[1..])
  }

  lemma {:induction false} ExpiredOfSame<T>(w: Wheel<T>, v: Wheel<T>, rest: seq<nat>)
    requires v.now == w.now
    requires forall k :: k in rest ==> k in w.timers && k in v.timers
    requires forall k :: k in rest ==> v.timers[k].expire == w.timers[k].expire && v.timers[k].context == w.timers[k].context
    ensures ExpiredOf(v, rest) == ExpiredOf(w, rest)
  {
    if rest != [] {
      ExpiredOfSame(w, v, rest[1..]);
    }
  }

  /** Draining a detached list hands back each of its expired timers once, in order, and removes those
      alone; every other timer of the list is on one list again. */
  lemma {:induction false} DrainThreads<T>(g: Geometry, w: Wheel<T>, rest: seq<nat>)
    requires Shaped(g, w) && Distinct(rest) && Threaded(w, KeysOf(rest))
    ensures Threaded(Drain(g, w, rest).0, {})
    ensures Drain(g, w, rest).1 == ExpiredOf(w, rest)
    ensures forall k :: k in Drain(g, w, rest).0.timers <==> k in w.timers && !(k in rest && w.timers[k].expire <= w.now)
    decreases |rest|
  {
    hide PlaceSlot;
    if rest == [] {
      assert KeysOf(rest) == {};
    } else {
      var v := Handle(g, w, rest[0]);
      HandleThreads(g, w, rest);
      DrainThreads(g, v, rest[1..]);
      assert rest[0] !in rest[1..];
      assert forall k :: k in rest[1..] ==> k in w.timers && k in v.timers;
      ExpiredOfSame(w, v, rest[1..]);
    }
  }

  lemma DetachThreads<T>(w: Wheel<T>, a: Slot)
    requires Threaded(w, {}) && a in w.chains
    ensures Threaded(Detach(w, a), KeysOf(w.chains[a]))
  {}

  lemma AdvanceThreads<T>(g: Geometry, w: Wheel<T>, level: nat)
    requires Shaped(g, w) && Threaded(w, {}) && level < g.levels
    ensures Ready(g, Advance(g, w, level))
  {}

  /** Drains the slot that level `level` stands at and moves the level on by one slot. */
  function TurnLevel<T>(g: Geometry, w: Wheel<T>, level: nat): (r: (Wheel<T>, seq<Expired<T>>))
    requires Ready(g, w) && level < g.levels
    ensures Ready(g, r.0) && r.0.now == w.now
  {
    var a := Current(g, w, level);
    DetachThreads(w, a);
    DrainThreads(g, Detach(w, a), w.chains[a]);
    var d := Drain(g, Detach(w, a), w.chains[a]);
    AdvanceThreads(g, d.0, level);
    (Advance(g, d.0, level), d.1)
  }

  function ProcessLevel<T>(g: Geometry, w: Wheel<T>, level: nat): (r: (Wheel<T>, seq<Expired<T>>))
    requires Ready(g, w) && level <= g.levels
    ensures Ready(g, r.0) && r.0.now == w.now
    decreases g.levels - level
  {
    if level == g.levels then (w, [])
    else
      var d := TurnLevel(g, w, level);
      if d.0.position[level] == 0 then
        var c := ProcessLevel(g, d.0, level + 1);
        (c.0, d.1 + c.1)
      else
        d
  }

  function Tick<T>(g: Geometry, w: Wheel<T>): (r: (Wheel<T>, seq<Expired<T>>))
    requires Ready(g, w)
    ensures Ready(g, r.0) && r.0.now == w.now + 1
  {
    ProcessLevel(g, w.(now := w.now + 1), 0)
  }

  function ExpireTimers<T>(g: Geometry, w: Wheel<T>, ticks: nat): (r: (Wheel<T>, seq<Expired<T>>))
    requires Ready(g, w)
    ensures Ready(g, r.0) && r.0.now == w.now + ticks
    decreases ticks
  {
    if ticks == 0 then (w, [])
    else
      var p := ExpireTimers(g, w, ticks - 1);
      var t := Tick(g, p.0);
      (t.0, p.1 + t.1)
  }

  lemma InsertThreads<T>(g: Geometry, w: Wheel<T>, k: nat, expire: nat, context: T)
    requires Ready(g, w) && k !in w.timers
    ensures var v := w.(timers := w.timers[k := Timer(expire, context, Slot(0, 0))]);
            Shaped(g, v) && Threaded(v, {k})
  {}

  lemma StartThreads<T>(g: Geometry, w: Wheel<T>, k: nat, expire: nat, context: T)
    requires Ready(g, w) && k !in w.timers && expire >= w.now
    ensures Ready(g, Start(g, w, k, expire, context))
  {
    var v := w.(timers := w.timers[k := Timer(expire, context, Slot(0, 0))]);
    InsertThreads(g, w, k, expire, context);
    FileThreads(g, v, k, {k});
    assert {k} - {k} == {};
  }

  lemma {:induction false} WithoutDistinct(s: seq<nat>, k: nat)
    requires Distinct(s)
    ensures Distinct(Without(s, k))
  {
    if s != [] {
      assert s[0] !in s[1..];
      WithoutDistinct(s[1..], k);
    }
  }

  lemma StopThreads<T>(g: Geometry, w: Wheel<T>, k: nat)
    requires Ready(g, w) && k in w.timers
    ensures Ready(g, Stop(w, k))
  {
    var a := w.timers[k].home;
    var r := Stop(w, k);
    WithoutDistinct(w.chains[a], k);
    forall b, x | b in r.chains && x in r.chains[b]
      ensures x in r.timers && r.timers[x].home == b
    {
      assert x in w.chains[b];
    }
  }
}
