/** The timer wheel itself: linked lists of entries in a slab, updated in place. Each method is
    proved equal to its counterpart on `Wheel` values, and what it promises its caller is
    stated on the calendar. */
module TimerWheels {
  import MachineArithmetic
  import opened TimerArithmetic
  import TimerLaw
  import opened WheelModel
  import opened WheelCalendar
  import opened WheelNext
  import opened SlabLists
  import opened Optional

  function ContextsOf<T>(fired: seq<Expired<T>>): (c: seq<T>)
    ensures |c| == |fired|
    ensures forall i :: 0 <= i < |c| ==> c[i] == fired[i].context
  {
    seq(|fired|, i requires 0 <= i < |fired| => fired[i].context)
  }

  lemma ContextsJoin<T>(a: seq<Expired<T>>, b: seq<Expired<T>>)
    ensures ContextsOf(a + b) == ContextsOf(a) + ContextsOf(b)
  {}

  lemma LeastExtends<T>(w: Wheel<T>, c: seq<nat>, i: nat, m: Option<nat>, e: nat)
    requires i < |c| && AllLive(w, c) && e == w.timers[c[i]].expire
    requires m.None? <==> i == 0
    requires m.Some? ==> LeastOf(w, c[..i], m.value)
    ensures LeastOf(w, c[..i + 1], if m.Some? && m.value <= e then m.value else e)
  {
    var d := c[..i + 1];
    assert forall k :: k in d <==> k in c[..i] || k == c[i];
    if m.Some? {
      var k :| k in c[..i] && w.timers[k].expire == m.value;
      assert k in d;
    }
    assert c[i] in d;
  }

  lemma DrainFrom<T>(goal: (Wheel<T>, seq<Expired<T>>))
    ensures goal == (goal.0, [] + goal.1) && ContextsOf<T>([]) == []
  {
    assert [] + goal.1 == goal.1;
  }

  lemma DeliveredOne<T>(w: Wheel<T>, k: nat, done: seq<Expired<T>>)
    requires k in w.timers
    ensures ContextsOf(done + Delivered(w, k))
         == ContextsOf(done) + if w.timers[k].expire <= w.now then [w.timers[k].context] else []
  {
    ContextsJoin(done, Delivered(w, k));
    assert ContextsOf(Delivered(w, k)) == if w.timers[k].expire <= w.now then [w.timers[k].context] else [];
  }

  class TimerWheel<T> {
    const g: Geometry
    var timers: map<nat, Entry<T>>
    var levels: seq<Level>
    var currentTime: nat

    /** The value this wheel represents. */
    ghost var model: Wheel<T>

    ghost predicate Matches()
      reads this
    {
      && Shaped(g, model)
      && model.now == currentTime
      && Represents(g, timers, levels, model)
    }

    ghost predicate Valid()
      reads this
    {
      Matches() && Idle(g, model) && currentTime <= MachineArithmetic.U64_MAX
    }

    /** Which timer is returned when: the caller's view of the wheel. */
    ghost function Appointments(): map<nat, Appointment<T>>
      reads this
    {
      Calendar(g, model)
    }

    /** An empty wheel: every slot gets a head entry, so that a timer can later be unlinked
        without knowing its slot. */
    constructor (g: Geometry)
      requires g.levels * g.slots < EMPTY_INDEX
      ensures Valid() && this.g == g && currentTime == 0
      ensures model == Empty<T>(g) && Appointments() == map[]
    {
      hide *;
      this.g := g;
      timers := map[];
      levels := seq(g.levels, i => Level(seq(g.slots, j => EMPTY_INDEX), 0));
      currentTime := 0;
      model := Empty<T>(g);
      new;
      PrepareNone<T>(g);
      var level := 0;
      while level < g.levels
        invariant 0 <= level <= g.levels
        invariant Prepared(g, timers, levels, level, 0)
        invariant this.g == g && currentTime == 0 && model == Empty<T>(g)
      {
        var slot := 0;
        while slot < g.slots
          invariant 0 <= slot <= g.slots
          invariant Prepared(g, timers, levels, level, slot)
          invariant this.g == g && currentTime == 0 && model == Empty<T>(g)
        {
          PreparedRoom(g, timers, levels, level, slot);
          ghost var before := timers;
          var head := Insert(Entry(EMPTY_INDEX, EMPTY_INDEX, Head));
          PrepareSlot(g, before, levels, level, slot, head);
          levels := levels[level := levels[level].(slots := levels[level].slots[slot := head])];
          slot := slot + 1;
        }
        PrepareLevel(g, timers, levels, level);
        level := level + 1;
      }
      PreparedRepresents(g, timers, levels);
      EmptyIdle<T>(g);
      EmptyValid();
    }

    lemma EmptyValid()
      requires Represents(g, timers, levels, Empty<T>(g)) && Idle(g, Empty<T>(g))
      requires currentTime == 0 && model == Empty<T>(g) && Calendar(g, Empty<T>(g)) == map[]
      ensures Valid() && Appointments() == map[]
    {}

    /** `Slab::insert`: any vacant key may be handed out. */
    method Insert(entry: Entry<T>) returns (key: nat)
      requires |timers| < EMPTY_INDEX
      modifies this`timers
      ensures key < EMPTY_INDEX && key !in old(timers) && timers == old(timers)[key := entry]
    {
      VacantKey(timers);
      key :| key < EMPTY_INDEX && key !in timers;
      timers := timers[key := entry];
    }

    /** The slot for a timer `delta` ticks away; beyond the range, the top level's last slot. */
    method FindSlot(delta: nat) returns (level: nat, slot: nat)
      requires LevelsMatch(g, levels, model)
      ensures Slot(level, slot) == PlaceSlot(g, model.position, delta)
    {
      hide LastIndex, IndexAt;
      level := g.levels - 1;
      slot := LastIndex(g, levels[level].position);
      var l := 0;
      while l < g.levels
        invariant 0 <= l <= g.levels
        invariant FindLevel(g, delta, 0) == FindLevel(g, delta, l)
        invariant level == g.levels - 1 && slot == LastIndex(g, levels[level].position)
      {
        if delta < Pow(g.slots, l + 1) {
          level := l;
          slot := IndexAt(g, l, levels[l].position, delta);
          break;
        }
        l := l + 1;
      }
    }

    /** Files the pending timer `index` under the slot its remaining time calls for. */
    method StartTimerUnchecked(index: nat, ghost pending: set<nat>)
      requires Matches() && Threaded(model, pending) && index in pending && index in model.timers
      requires model.timers[index].expire >= currentTime
      modifies this`timers, this`model
      ensures Matches() && Threaded(model, pending - {index})
      ensures model == File(g, old(model), index)
      ensures forall x :: x in pending && x != index && x in old(timers) ==> x in timers && timers[x] == old(timers[x])
    {
      hide PlaceSlot, Threaded, HeadsMatch, EntriesMatch, ListsMatch;
      FileReads(g, timers, levels, model, pending, index);
      FileRepresents(g, timers, levels, model, pending, index);
      FileThreads(g, model, index, pending);
      var delta := timers[index].data.expireTime - currentTime;
      var level, slot := FindSlot(delta);

      var head := levels[level].slots[slot];
      ghost var before := timers;
      var oldHeadNext := timers[head].next;
      timers := timers[head := timers[head].(next := index)];
      timers := timers[index := timers[index].(next := oldHeadNext)];
      timers := timers[index := timers[index].(previous := head)];
      if oldHeadNext != EMPTY_INDEX {
        timers := timers[oldHeadNext := timers[oldHeadNext].(previous := index)];
      }
      assert timers == LinkFront(before, head, index);
      model := File(g, model, index);
    }

    /** Starts a timer that expires `interval` ticks from now (saturating). */
    method StartTimer(interval: nat, context: T) returns (handle: nat)
      requires Valid() && |timers| < EMPTY_INDEX
      modifies this`timers, this`model
      ensures Valid()
      ensures handle !in old(model.timers)
      ensures model == Start(g, old(model), handle, SaturatingAdd(currentTime, interval), context)
      ensures var expire := if currentTime + interval <= 0xFFFF_FFFF_FFFF_FFFF then currentTime + interval else 0xFFFF_FFFF_FFFF_FFFF;
              Appointments() == old(Appointments())[handle := Appointment(expire, Promised(g, currentTime, expire), context)]
    {
      var expireTime := SaturatingAdd(currentTime, interval);
      handle := Arm(expireTime, context);
    }

    /** Starts a timer that expires at an absolute time, which must be in the future. */
    method StartTimerAbsolute(expireTime: nat, context: T) returns (handle: Option<nat>)
      requires Valid() && |timers| < EMPTY_INDEX
      modifies this`timers, this`model
      ensures Valid()
      ensures handle.None? <==> expireTime <= currentTime
      ensures handle.None? ==> model == old(model) && timers == old(timers)
      ensures handle.Some? ==> handle.value !in old(model.timers)
      ensures handle.Some? ==> model == Start(g, old(model), handle.value, expireTime, context)
      ensures handle.Some? ==>
        Appointments() == old(Appointments())[handle.value := Appointment(expireTime, TimerLaw.FireTick(g, currentTime, expireTime), context)]
    {
      if expireTime <= currentTime {
        return None;
      }
      var key := Arm(expireTime, context);
      handle := Some(key);
    }

    /** The part common to both ways of starting a timer. */
    method Arm(expireTime: nat, context: T) returns (key: nat)
      requires Valid() && |timers| < EMPTY_INDEX && expireTime >= currentTime
      modifies this`timers, this`model
      ensures Valid()
      ensures key !in old(model.timers)
      ensures model == Start(g, old(model), key, expireTime, context)
      ensures Appointments() == old(Appointments())[key := Appointment(expireTime, Promised(g, currentTime, expireTime), context)]
    {
      hide Sound, Promised, Book, TimerLaw.Positions, HeadsMatch, ListsMatch, EntriesMatch, LevelsMatch;
      ghost var was, before := model, timers;
      key := Insert(Entry(EMPTY_INDEX, EMPTY_INDEX, Armed(expireTime, context)));
      InsertRepresents(g, before, levels, was, key, expireTime, context);
      StartLaw(g, was, key, expireTime, context);
      model := was.(timers := was.timers[key := Timer(expireTime, context, Slot(0, 0))]);
      StartTimerUnchecked(key, {key});
    }

    /** Stops a running timer and hands back its context; a handle whose timer is gone is refused. */
    method StopTimer(handle: nat) returns (r: Option<T>)
      requires Valid()
      modifies this`timers, this`model
      ensures Valid()
      ensures r == if handle in old(model.timers) then Some(old(model).timers[handle].context) else None
      ensures model == if handle in old(model.timers) then Stop(old(model), handle) else old(model)
      ensures Appointments() == old(Appointments()) - {handle}
    {
      hide Sound, Book, TimerLaw.Positions, HeadsMatch, ListsMatch, LevelsMatch, Shaped, Threaded;
      if handle !in timers || timers[handle].data.Head? {
        assert handle !in model.timers;
        return None;
      }
      StopRepresents(g, timers, levels, model, handle);
      StopLaw(g, model, handle);
      ghost var before := timers;
      var timerNext := timers[handle].next;
      var timerPrevious := timers[handle].previous;
      timers := timers[timerPrevious := timers[timerPrevious].(next := timerNext)];
      if timerNext != EMPTY_INDEX {
        timers := timers[timerNext := timers[timerNext].(previous := timerPrevious)];
      }
      assert timers == Unlink(before, handle);
      var timer := timers[handle];
      timers := timers - {handle};
      model := Stop(model, handle);
      r := Some(timer.data.context);
    }

    /** The loop over a detached list: `first` is its first entry, `all` its entries in order.
        An expired timer leaves the slab; any other is filed again, possibly in the same slot. */
    method DrainList(first: nat, ghost all: seq<nat>) returns (expired: seq<T>)
      requires Matches() && Threaded(model, KeysOf(all)) && Distinct(all)
      requires Forward(timers, all) && first == First(all)
      modifies this`timers, this`model
      ensures Matches() && Threaded(model, {})
      ensures forall k :: k in all ==> k in old(model.timers)
      ensures model == Drain(g, old(model), all).0
      ensures expired == ContextsOf(Drain(g, old(model), all).1)
    {
      hide Shaped, Represents, Threaded, Forward, Handle, Distinct, Drain, Delivered, KeysOf, ContextsOf, File;
      expired := [];
      var timerIndex := first;
      ghost var rest, done := all, [];
      ghost var was := model;
      PendingLive(was, all);
      ghost var goal := Drain(g, was, all);
      DrainFrom(goal);
      while timerIndex != EMPTY_INDEX
        invariant Matches() && Threaded(model, KeysOf(rest)) && Distinct(rest)
        invariant Forward(timers, rest) && timerIndex == First(rest)
        invariant forall k :: k in rest ==> k in model.timers
        invariant goal == (Drain(g, model, rest).0, done + Drain(g, model, rest).1)
        invariant expired == ContextsOf(done)
        decreases |rest|
      {
        DrainEntry(g, timers, levels, model, rest);
        DrainTurn(g, model, rest);
        DeliveredOne(model, rest[0], done);
        ghost var w, before := model, timers;
        ghost var after := Drain(g, Handle(g, w, rest[0]), rest[1..]).1;
        var nextTimerIndex := timers[timerIndex].next;
        if timers[timerIndex].data.expireTime <= currentTime {
          DropTurn(g, timers, levels, model, rest);
          var timer := timers[timerIndex];
          timers := timers - {timerIndex};
          model := model.(timers := model.timers - {timerIndex});
          expired := expired + [timer.data.context];
        } else {
          FileTurn(g, model, rest);
          StartTimerUnchecked(timerIndex, KeysOf(rest));
          UntouchedForward(before, timers, rest[1..]);
        }
        assert done + (Delivered(w, rest[0]) + after) == (done + Delivered(w, rest[0])) + after;
        done := done + Delivered(w, rest[0]);
        timerIndex := nextTimerIndex;
        rest := rest[1..];
      }
      DrainDone(g, timers, levels, model, rest);
      assert done + [] == done;
    }

    /** Drains the slot `level` stands at, moves the level on, and cascades when it wraps. */
    method ProcessLevel(level: nat) returns (expired: seq<T>)
      requires Matches() && Ready(g, model) && level <= g.levels
      modifies this`timers, this`levels, this`model
      ensures Matches() && Ready(g, model)
      ensures model == WheelModel.ProcessLevel(g, old(model), level).0
      ensures expired == ContextsOf(WheelModel.ProcessLevel(g, old(model), level).1)
      decreases g.levels - level
    {
      if level >= g.levels {
        return [];
      }
      ghost var was := model;
      expired := TurnSlot(level);
      if levels[level].position == 0 {
        ghost var turned := TurnLevel(g, was, level);
        var cascaded := ProcessLevel(level + 1);
        ContextsJoin(turned.1, WheelModel.ProcessLevel(g, turned.0, level + 1).1);
        expired := expired + cascaded;
      }
    }

    method TurnSlot(level: nat) returns (expired: seq<T>)
      requires Matches() && Ready(g, model) && level < g.levels
      modifies this`timers, this`levels, this`model
      ensures Matches() && Ready(g, model) && levels[level].position == model.position[level]
      ensures model == TurnLevel(g, old(model), level).0
      ensures expired == ContextsOf(TurnLevel(g, old(model), level).1)
    {
      hide Threaded, Represents, Drain, ContextsOf, Forward;
      ghost var a, c := Current(g, model, level), model.chains[Current(g, model, level)];
      CurrentHead(g, timers, levels, model, level);
      DetachRepresents(g, timers, levels, model, a);
      DetachThreads(model, a);
      ChainDistinct(g, model, a);
      var slot := levels[level].position;
      var head := levels[level].slots[slot];
      var timerIndex := timers[head].next;
      timers := timers[head := timers[head].(next := EMPTY_INDEX)];
      model := Detach(model, a);
      expired := DrainList(timerIndex, c);

      AdvanceRepresents(g, timers, levels, model, level);
      AdvanceThreads(g, model, level);
      levels := levels[level := levels[level].(position := (levels[level].position + 1) % g.slots)];
      model := Advance(g, model, level);
    }

    /** Advances time by one tick. */
    method Tick() returns (expired: seq<T>)
      requires Valid() && currentTime < MachineArithmetic.U64_MAX
      modifies this
      ensures Valid() && currentTime == old(currentTime) + 1
      ensures model == WheelModel.Tick(g, old(model)).0
      ensures expired == ContextsOf(WheelModel.Tick(g, old(model)).1)
    {
      hide Sound, Threaded, Shaped, TimerLaw.Positions, Represents, ContextsOf, Book, WheelModel.ProcessLevel;
      ghost var was := model;
      TickLaw(g, was);
      TickRepresents(g, timers, levels, model);
      currentTime := currentTime + 1;
      model := model.(now := model.now + 1);
      expired := ProcessLevel(0);
    }

    /** Advances time by `ticks`: returns the contexts of exactly the timers appointed within
        that time, once each and in the order of their appointments. */
    method ExpireTimers(ticks: nat) returns (expired: seq<T>)
      requires Valid() && currentTime + ticks <= MachineArithmetic.U64_MAX
      modifies this
      ensures Valid() && currentTime == old(currentTime) + ticks
      ensures model == WheelModel.ExpireTimers(g, old(model), ticks).0
      ensures expired == ContextsOf(WheelModel.ExpireTimers(g, old(model), ticks).1)
      ensures Appointments() == After(old(Appointments()), currentTime)
      ensures Delivers(WheelModel.ExpireTimers(g, old(model), ticks).1, Until(old(Appointments()), currentTime))
      ensures InOrder(WheelModel.ExpireTimers(g, old(model), ticks).1, old(Appointments()))
    {
      hide Ready, Sound, TimerLaw.Positions, Represents, Delivers, InOrder, Book, WheelModel.Tick, ContextsOf;
      expired := [];
      ghost var was := model;
      var t := 0;
      while t < ticks
        invariant 0 <= t <= ticks
        invariant Valid() && currentTime == was.now + t
        invariant Idle(g, was)
        invariant model == WheelModel.ExpireTimers(g, was, t).0
        invariant expired == ContextsOf(WheelModel.ExpireTimers(g, was, t).1)
      {
        var tickExpired := Tick();
        ghost var p := WheelModel.ExpireTimers(g, was, t);
        ContextsJoin(p.1, WheelModel.Tick(g, p.0).1);
        expired := expired + tickExpired;
        t := t + 1;
      }
      ExpireTimersLaw(g, was, ticks);
    }

    /** The least expiry in the first occupied slot of the scan, or `None` if no timer is live. */
    method NextExpiration() returns (r: Option<nat>)
      requires Valid()
      ensures IsNext(g, model, r)
      ensures r.None? <==> model.timers == map[]
      ensures r.Some? ==> exists k :: k in model.timers && model.timers[k].expire == r.value
    {
      hide Sound, Threaded, TimerLaw.Positions, Represents;
      var level := 0;
      while level < g.levels
        invariant 0 <= level <= g.levels
        invariant Scan(g, model, 0, 0) == Scan(g, model, level, 0)
      {
        ScanEntry(g, timers, levels, model, level);
        var startSlot := levels[level].position;
        var i := 0;
        while i < g.slots
          invariant 0 <= i <= g.slots
          invariant Scan(g, model, 0, 0) == Scan(g, model, level, i)
        {
          var slot := (startSlot + i) % g.slots;
          ghost var a := ScanSlot(g, model, level, i);
          ScanHead(g, timers, levels, model, a);
          var head := levels[level].slots[slot];
          if timers[head].next != EMPTY_INDEX {
            var least := LeastExpireTime(timers[head].next, model.chains[a]);
            NextIsLive(g, model, Some(least));
            return Some(least);
          }
          i := i + 1;
        }
        level := level + 1;
      }
      NextIsLive(g, model, None);
      r := None;
    }

    /** The least expiry along the list whose first entry is `first`. */
    method LeastExpireTime(first: nat, ghost c: seq<nat>) returns (least: nat)
      requires c != [] && first == c[0] && Forward(timers, c) && EntriesMatch(timers, model)
      requires AllLive(model, c)
      ensures LeastOf(model, c, least)
    {
      var timerIndex := first;
      var minExpireTime: Option<nat> := None;
      ghost var i := 0;
      while timerIndex != EMPTY_INDEX
        invariant 0 <= i <= |c|
        invariant timerIndex == if i < |c| then c[i] else EMPTY_INDEX
        invariant minExpireTime.None? <==> i == 0
        invariant i > 0 ==> LeastOf(model, c[..i], minExpireTime.value)
        decreases |c| - i
      {
        assert timers[c[i]].next == NextIn(c, i) && c[i] in c;
        var expireTime := timers[timerIndex].data.expireTime;
        LeastExtends(model, c, i, minExpireTime, expireTime);
        timerIndex := timers[timerIndex].next;
        if minExpireTime.Some? {
          minExpireTime := Some(if expireTime < minExpireTime.value then expireTime else minExpireTime.value);
        } else {
          minExpireTime := Some(expireTime);
        }
        i := i + 1;
      }
      assert forall j :: 0 <= j < |c| ==> c[j] < EMPTY_INDEX;
      assert c[..i] == c;
      least := minExpireTime.value;
    }
  }
}
