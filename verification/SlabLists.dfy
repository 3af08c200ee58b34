/** The slab of linked entries behind the timer wheel, and what it means for it to represent a
    `Wheel`: every slot's list starts at its head entry, `next` runs along the list and
    `previous` runs back. */
module SlabLists {
  import opened TimerArithmetic
  import opened WheelModel

  datatype EntryData<T> = Head | Armed(expireTime: nat, context: T)

  datatype Entry<T> = Entry(next: nat, previous: nat, data: EntryData<T>)

  /** `slots[s]` is the slab key of the head entry of slot `s`. */
  datatype Level = Level(slots: seq<nat>, position: nat)

  function NextIn(list: seq<nat>, i: nat): nat
    requires i < |list|
  {
    if i + 1 < |list| then list[i + 1] else EMPTY_INDEX
  }

  /** Forward links only: the state of a detached list. */
  ghost predicate Forward<T>(timers: map<nat, Entry<T>>, list: seq<nat>) {
    && (forall i :: 0 <= i < |list| ==> list[i] in timers)
    && (forall i {:trigger NextIn(list, i)} :: 0 <= i < |list| ==> timers[list[i]].next == NextIn(list, i))
  }

  function PrevIn(h: nat, c: seq<nat>, i: nat): nat
    requires i < |c|
  {
    if i == 0 then h else c[i - 1]
  }

  function First(list: seq<nat>): nat {
    if list == [] then EMPTY_INDEX else list[0]
  }

  /** The list of head entry `h` is `c`, linked in both directions. */
  ghost predicate Linked<T>(timers: map<nat, Entry<T>>, h: nat, c: seq<nat>) {
    && h in timers && timers[h].next == First(c)
    && Forward(timers, c)
    && (forall i {:trigger PrevIn(h, c, i)} :: 0 <= i < |c| ==> timers[c[i]].previous == PrevIn(h, c, i))
  }

  ghost predicate LevelsMatch<T>(g: Geometry, levels: seq<Level>, w: Wheel<T>) {
    && |levels| == |w.position| == g.levels
    && (forall l :: 0 <= l < g.levels ==> |levels[l].slots| == g.slots && levels[l].position == w.position[l])
  }

  function HeadOf(g: Geometry, levels: seq<Level>, a: Slot): nat
    requires |levels| == g.levels && g.Has(a) && |levels[a.level].slots| == g.slots
  {
    levels[a.level].slots[a.index]
  }

  ghost predicate HeadsOnly<T>(g: Geometry, timers: map<nat, Entry<T>>, levels: seq<Level>)
    requires |levels| == g.levels && forall l :: 0 <= l < g.levels ==> |levels[l].slots| == g.slots
  {
    forall k :: k in timers && timers[k].data.Head? ==> exists a: Slot :: g.Has(a) && HeadOf(g, levels, a) == k
  }

  /** The head entries are distinct, and they are the only entries that hold no timer. */
  ghost predicate HeadsMatch<T>(g: Geometry, timers: map<nat, Entry<T>>, levels: seq<Level>, w: Wheel<T>)
    requires LevelsMatch(g, levels, w)
  {
    && (forall a: Slot :: g.Has(a) ==> HeadOf(g, levels, a) in timers && timers[HeadOf(g, levels, a)].data.Head?)
    && (forall a: Slot, b: Slot :: g.Has(a) && g.Has(b) && HeadOf(g, levels, a) == HeadOf(g, levels, b) ==> a == b)
    && HeadsOnly(g, timers, levels)
  }

  ghost predicate EntriesMatch<T>(timers: map<nat, Entry<T>>, w: Wheel<T>) {
    && (forall k :: k in timers ==> k < EMPTY_INDEX && (timers[k].data.Armed? ==> k in w.timers))
    && (forall k :: k in w.timers ==> k in timers && timers[k].data == Armed(w.timers[k].expire, w.timers[k].context))
  }

  ghost predicate ListsMatch<T>(g: Geometry, timers: map<nat, Entry<T>>, levels: seq<Level>, w: Wheel<T>)
    requires LevelsMatch(g, levels, w)
  {
    forall a: Slot :: a in w.chains && g.Has(a) ==> Linked(timers, HeadOf(g, levels, a), w.chains[a])
  }

  ghost predicate Represents<T>(g: Geometry, timers: map<nat, Entry<T>>, levels: seq<Level>, w: Wheel<T>) {
    && LevelsMatch(g, levels, w)
    && HeadsMatch(g, timers, levels, w)
    && EntriesMatch(timers, w)
    && ListsMatch(g, timers, levels, w)
  }

  // ---- inserting behind a head entry -------------------------------------------------------

  /** The four link updates of `start_timer_unchecked`. */
  function LinkFront<T>(timers: map<nat, Entry<T>>, h: nat, k: nat): (r: map<nat, Entry<T>>)
    requires h in timers && k in timers
    requires timers[h].next == EMPTY_INDEX || timers[h].next in timers
    ensures r.Keys == timers.Keys
    ensures forall x :: x in timers ==> r[x].data == timers[x].data
    ensures forall x :: x in timers && x != h && x != k && x != timers[h].next ==> r[x] == timers[x]
  {
    var first := timers[h].next;
    var t1 := timers[h := timers[h].(next := k)];
    var t2 := t1[k := t1[k].(next := first)];
    var t3 := t2[k := t2[k].(previous := h)];
    if first != EMPTY_INDEX then t3[first := t3[first].(previous := k)] else t3
  }

  lemma LinkFrontLinks<T>(timers: map<nat, Entry<T>>, h: nat, c: seq<nat>, k: nat)
    requires Linked(timers, h, c) && Distinct(c) && h !in c && k in timers && k != h && k !in c
    requires forall x :: x in timers ==> x < EMPTY_INDEX
    ensures Linked(LinkFront(timers, h, k), h, [k] + c)
  {
    var r := LinkFront(timers, h, k);
    var n := [k] + c;
    forall i | 0 <= i < |n|
      ensures n[i] in r && r[n[i]].next == NextIn(n, i)
      ensures r[n[i]].previous == PrevIn(h, n, i)
    {
      if i >= 1 {
        assert n[i] == c[i - 1] && c[i - 1] in c;
        assert NextIn(n, i) == NextIn(c, i - 1) && PrevIn(h, c, i - 1) == if i == 1 then h else n[i - 1];
      }
    }
  }

  /** A list none of whose entries is touched stays linked. */
  lemma UntouchedLinks<T>(timers: map<nat, Entry<T>>, r: map<nat, Entry<T>>, h: nat, c: seq<nat>)
    requires Linked(timers, h, c) && h in r && r[h] == timers[h]
    requires forall x :: x in c ==> x in timers && x in r && r[x] == timers[x]
    ensures Linked(r, h, c)
  {
    assert forall i :: 0 <= i < |c| ==> c[i] in c;
  }

  lemma UntouchedForward<T>(timers: map<nat, Entry<T>>, r: map<nat, Entry<T>>, c: seq<nat>)
    requires Forward(timers, c)
    requires forall x :: x in c ==> x in timers && x in r && r[x] == timers[x]
    ensures Forward(r, c)
  {
    assert forall i :: 0 <= i < |c| ==> c[i] in c;
  }

  lemma HeadApart<T>(g: Geometry, timers: map<nat, Entry<T>>, levels: seq<Level>, w: Wheel<T>, a: Slot, k: nat)
    requires Represents(g, timers, levels, w) && g.Has(a) && k in w.timers
    ensures HeadOf(g, levels, a) != k
  {}

  /** Entries of one list, with its head, are apart from those of any other. */
  lemma ListsApart<T>(g: Geometry, timers: map<nat, Entry<T>>, levels: seq<Level>, w: Wheel<T>,
                      pending: set<nat>, a: Slot, b: Slot, x: nat)
    requires Shaped(g, w) && Threaded(w, pending) && Represents(g, timers, levels, w)
    requires g.Has(a) && g.Has(b) && a != b
    requires x == HeadOf(g, levels, b) || x in w.chains[b]
    ensures x in timers && x != HeadOf(g, levels, a) && x !in w.chains[a] && x !in pending
  {
    hide HeadsOnly, ListsMatch, Linked;
    if x == HeadOf(g, levels, b) {
      assert x !in w.timers;
    } else {
      HeadApart(g, timers, levels, w, a, x);
    }
  }

  lemma SameEntries<T>(timers: map<nat, Entry<T>>, r: map<nat, Entry<T>>, w: Wheel<T>, v: Wheel<T>)
    requires EntriesMatch(timers, w) && v.timers.Keys == w.timers.Keys && r.Keys == timers.Keys
    requires forall x :: x in timers ==> r[x].data == timers[x].data
    requires forall x :: x in w.timers ==> v.timers[x].expire == w.timers[x].expire && v.timers[x].context == w.timers[x].context
    ensures EntriesMatch(r, v)
  {}

  lemma FirstOfList<T>(g: Geometry, timers: map<nat, Entry<T>>, levels: seq<Level>, w: Wheel<T>,
                       pending: set<nat>, a: Slot)
    requires Shaped(g, w) && Threaded(w, pending) && Represents(g, timers, levels, w) && g.Has(a)
    ensures var h := HeadOf(g, levels, a);
            && h in timers && timers[h].next == First(w.chains[a])
            && (timers[h].next == EMPTY_INDEX || timers[h].next in timers)
  {}

  lemma SameHeads<T>(g: Geometry, timers: map<nat, Entry<T>>, r: map<nat, Entry<T>>, levels: seq<Level>, w: Wheel<T>, v: Wheel<T>)
    requires LevelsMatch(g, levels, w) && HeadsMatch(g, timers, levels, w) && v.position == w.position
    requires forall x :: x in timers && timers[x].data.Head? ==> x in r && r[x].data.Head?
    requires forall x :: x in r && r[x].data.Head? ==> x in timers && timers[x].data.Head?
    ensures LevelsMatch(g, levels, v) && HeadsMatch(g, r, levels, v)
  {}

  ghost predicate LinkedIn<T>(g: Geometry, timers: map<nat, Entry<T>>, levels: seq<Level>, w: Wheel<T>, k: nat, a: Slot)
    requires LevelsMatch(g, levels, w) && g.Has(a) && Shaped(g, w)
  {
    var h := HeadOf(g, levels, a);
    && h in timers && k in timers && (timers[h].next == EMPTY_INDEX || timers[h].next in timers)
    && forall b: Slot :: g.Has(b) ==>
         Linked(LinkFront(timers, h, k), HeadOf(g, levels, b), if b == a then [k] + w.chains[a] else w.chains[b])
  }

  lemma OthersLinked<T>(g: Geometry, timers: map<nat, Entry<T>>, levels: seq<Level>, w: Wheel<T>,
                        pending: set<nat>, a: Slot, b: Slot, k: nat)
    requires Shaped(g, w) && Threaded(w, pending) && Represents(g, timers, levels, w)
    requires g.Has(a) && g.Has(b) && a != b && k in pending && k in w.timers
    ensures Linked(LinkFront(timers, HeadOf(g, levels, a), k), HeadOf(g, levels, b), w.chains[b])
  {
    var hb := HeadOf(g, levels, b);
    var r := LinkFront(timers, HeadOf(g, levels, a), k);
    forall x | x == hb || x in w.chains[b] ensures x in timers && r[x] == timers[x] {
      ListsApart(g, timers, levels, w, pending, a, b, x);
      HeadApart(g, timers, levels, w, b, k);
    }
    UntouchedLinks(timers, r, hb, w.chains[b]);
  }

  lemma ListsAfterFront<T>(g: Geometry, timers: map<nat, Entry<T>>, levels: seq<Level>, w: Wheel<T>,
                           pending: set<nat>, k: nat, a: Slot)
    requires Shaped(g, w) && Threaded(w, pending) && Represents(g, timers, levels, w)
    requires k in pending && k in w.timers && g.Has(a)
    ensures LinkedIn(g, timers, levels, w, k, a)
  {
    hide HeadsOnly;
    var h := HeadOf(g, levels, a);
    HeadApart(g, timers, levels, w, a, k);
    assert h !in w.timers;
    LinkFrontLinks(timers, h, w.chains[a], k);
    forall b: Slot | g.Has(b) && b != a
      ensures Linked(LinkFront(timers, h, k), HeadOf(g, levels, b), w.chains[b])
    {
      OthersLinked(g, timers, levels, w, pending, a, b, k);
    }
  }

  lemma FileLists<T>(g: Geometry, timers: map<nat, Entry<T>>, levels: seq<Level>, w: Wheel<T>,
                     pending: set<nat>, k: nat)
    requires Shaped(g, w) && Threaded(w, pending) && Represents(g, timers, levels, w)
    requires k in pending && k in w.timers && w.timers[k].expire >= w.now
    requires HeadOf(g, levels, PlaceSlot(g, w.position, w.timers[k].expire - w.now)) in timers && k in timers
    ensures var a := PlaceSlot(g, w.position, w.timers[k].expire - w.now);
            LinkedIn(g, timers, levels, w, k, a)
            && ListsMatch(g, LinkFront(timers, HeadOf(g, levels, a), k), levels, File(g, w, k))
  {
    hide HeadsOnly, PlaceSlot, Linked, HeadsMatch, EntriesMatch, LinkFront, Threaded;
    ListsAfterFront(g, timers, levels, w, pending, k, PlaceSlot(g, w.position, w.timers[k].expire - w.now));
  }

  /** Filing timer `k` in the model is linking its entry behind the head of the chosen slot. */
  lemma FileRepresents<T>(g: Geometry, timers: map<nat, Entry<T>>, levels: seq<Level>, w: Wheel<T>,
                          pending: set<nat>, k: nat)
    requires Shaped(g, w) && Threaded(w, pending) && Represents(g, timers, levels, w)
    requires k in pending && k in w.timers && w.timers[k].expire >= w.now
    ensures var a := PlaceSlot(g, w.position, w.timers[k].expire - w.now);
            var h := HeadOf(g, levels, a);
            && h in timers && k in timers && h != k
            && timers[h].next == First(w.chains[a])
            && (timers[h].next == EMPTY_INDEX || timers[h].next in timers)
            && Represents(g, LinkFront(timers, h, k), levels, File(g, w, k))
  {
    hide HeadsOnly, PlaceSlot, Linked, HeadsMatch, ListsMatch, Threaded, LinkFront;
    var a := PlaceSlot(g, w.position, w.timers[k].expire - w.now);
    HeadApart(g, timers, levels, w, a, k);
    FirstOfList(g, timers, levels, w, pending, a);
    var r := LinkFront(timers, HeadOf(g, levels, a), k);
    FileLists(g, timers, levels, w, pending, k);
    SameHeads(g, timers, r, levels, w, File(g, w, k));
    SameEntries(timers, r, w, File(g, w, k));
  }

  /** What filing reads from the slab: the timer's entry and the head of the chosen slot. */
  lemma FileReads<T>(g: Geometry, timers: map<nat, Entry<T>>, levels: seq<Level>, w: Wheel<T>,
                     pending: set<nat>, k: nat)
    requires Shaped(g, w) && Threaded(w, pending) && Represents(g, timers, levels, w)
    requires k in pending && k in w.timers && w.timers[k].expire >= w.now
    ensures k in timers && timers[k].data == Armed(w.timers[k].expire, w.timers[k].context)
    ensures forall i :: 0 <= i < g.levels ==> levels[i].position == w.position[i]
    ensures var h := HeadOf(g, levels, PlaceSlot(g, w.position, w.timers[k].expire - w.now));
            && h in timers && h != k
            && (timers[h].next == EMPTY_INDEX || timers[h].next in timers)
            && timers[h].next !in pending
            && h !in pending
  {
    hide PlaceSlot, HeadsOnly;
    var a := PlaceSlot(g, w.position, w.timers[k].expire - w.now);
    HeadApart(g, timers, levels, w, a, k);
    FirstOfList(g, timers, levels, w, pending, a);
    if w.chains[a] != [] { assert w.chains[a][0] in w.chains[a]; }
    assert HeadOf(g, levels, a) !in w.timers;
  }

  // ---- removing, detaching, unlinking ------------------------------------------------------

  lemma HeadsStay<T>(g: Geometry, timers: map<nat, Entry<T>>, levels: seq<Level>, w: Wheel<T>, k: nat)
    requires LevelsMatch(g, levels, w) && HeadsMatch(g, timers, levels, w)
    requires k in timers && timers[k].data.Armed?
    ensures HeadsMatch(g, timers - {k}, levels, w)
  {}

  /** A pending timer that leaves the slab leaves every list as it is. */
  lemma DropRepresents<T>(g: Geometry, timers: map<nat, Entry<T>>, levels: seq<Level>, w: Wheel<T>,
                          pending: set<nat>, k: nat)
    requires Shaped(g, w) && Threaded(w, pending) && Represents(g, timers, levels, w)
    requires k in pending && k in w.timers
    ensures Represents(g, timers - {k}, levels, w.(timers := w.timers - {k}))
  {
    hide HeadsOnly;
    var r := timers - {k};
    var v := w.(timers := w.timers - {k});
    HeadsStay(g, timers, levels, w, k);
    forall a: Slot | a in w.chains && g.Has(a)
      ensures Linked(r, HeadOf(g, levels, a), w.chains[a])
    {
      HeadApart(g, timers, levels, w, a, k);
      UntouchedLinks(timers, r, HeadOf(g, levels, a), w.chains[a]);
    }
  }

  lemma ListFromSlab<T>(g: Geometry, timers: map<nat, Entry<T>>, levels: seq<Level>, w: Wheel<T>, pending: set<nat>, b: Slot)
    requires Shaped(g, w) && Threaded(w, pending) && Represents(g, timers, levels, w) && g.Has(b)
    ensures Linked(timers, HeadOf(g, levels, b), w.chains[b])
  {}

  lemma EmptiedList<T>(g: Geometry, timers: map<nat, Entry<T>>, levels: seq<Level>, w: Wheel<T>, a: Slot)
    requires Ready(g, w) && Represents(g, timers, levels, w) && g.Has(a)
    ensures var h := HeadOf(g, levels, a);
            && h in timers && timers[h].next == First(w.chains[a])
            && var r := timers[h := timers[h].(next := EMPTY_INDEX)];
               Linked(r, h, []) && Forward(r, w.chains[a])
  {
    hide HeadsOnly;
    var h := HeadOf(g, levels, a);
    assert h !in w.timers;
    UntouchedForward(timers, timers[h := timers[h].(next := EMPTY_INDEX)], w.chains[a]);
  }

  /** Emptying the list of slot `a`: its timers stay linked forwards. */
  lemma DetachRepresents<T>(g: Geometry, timers: map<nat, Entry<T>>, levels: seq<Level>, w: Wheel<T>, a: Slot)
    requires Ready(g, w) && Represents(g, timers, levels, w) && g.Has(a)
    ensures var h := HeadOf(g, levels, a);
            && h in timers && timers[h].next == First(w.chains[a])
            && var r := timers[h := timers[h].(next := EMPTY_INDEX)];
               Represents(g, r, levels, Detach(w, a)) && Forward(r, w.chains[a])
  {
    hide HeadsOnly, Linked, Forward, Threaded;
    var h := HeadOf(g, levels, a);
    EmptiedList(g, timers, levels, w, a);
    var r := timers[h := timers[h].(next := EMPTY_INDEX)];
    SameHeads(g, timers, r, levels, w, Detach(w, a));
    forall b: Slot | g.Has(b) && b != a
      ensures Linked(r, HeadOf(g, levels, b), w.chains[b])
    {
      ListFromSlab(g, timers, levels, w, {}, b);
      forall x | x == HeadOf(g, levels, b) || x in w.chains[b] ensures x in timers && x != h {
        ListsApart(g, timers, levels, w, {}, a, b, x);
      }
      UntouchedLinks(timers, r, HeadOf(g, levels, b), w.chains[b]);
    }
  }

  /** The link updates of `stop_timer`, before the entry leaves the slab. */
  function Unlink<T>(timers: map<nat, Entry<T>>, k: nat): (r: map<nat, Entry<T>>)
    requires k in timers && timers[k].previous in timers
    requires timers[k].next == EMPTY_INDEX || timers[k].next in timers
    ensures r.Keys == timers.Keys
    ensures forall x :: x in timers ==> r[x].data == timers[x].data
    ensures forall x :: x in timers ==>
      r[x].next == if x == timers[k].previous then timers[k].next else timers[x].next
    ensures forall x :: x in timers ==>
      r[x].previous == if x == timers[k].next && x != EMPTY_INDEX then timers[k].previous else timers[x].previous
  {
    var n, p := timers[k].next, timers[k].previous;
    var t1 := timers[p := timers[p].(next := n)];
    if n != EMPTY_INDEX then t1[n := t1[n].(previous := p)] else t1
  }

  function DropAt(c: seq<nat>, i: nat): (n: seq<nat>)
    requires i < |c|
    ensures |n| == |c| - 1
    ensures forall j {:trigger n[j]} :: 0 <= j < |n| ==> n[j] == c[if j < i then j else j + 1]
  {
    c[..i] + c[i + 1..]
  }

  lemma DropFirst(c: seq<nat>)
    requires c != []
    ensures DropAt(c, 0) == c[1..]
  {}

  lemma DropLater(c: seq<nat>, i: nat)
    requires 1 <= i < |c|
    ensures DropAt(c, i) == [c[0]] + DropAt(c[1..], i - 1)
  {}

  lemma {:induction false} WithoutAt(c: seq<nat>, i: nat)
    requires i < |c| && Distinct(c)
    ensures Without(c, c[i]) == DropAt(c, i)
  {
    hide DropAt;
    if i == 0 {
      assert c[0] !in c[1..];
      DropFirst(c);
    } else {
      assert c[1..][i - 1] == c[i];
      WithoutAt(c[1..], i - 1);
      DropLater(c, i);
    }
  }

  lemma UnlinkNeighbours<T>(timers: map<nat, Entry<T>>, h: nat, c: seq<nat>, i: nat)
    requires Linked(timers, h, c) && i < |c|
    requires forall x :: x in timers ==> x < EMPTY_INDEX
    ensures c[i] in timers && timers[c[i]].previous in timers
    ensures timers[c[i]].previous == PrevIn(h, c, i)
    ensures timers[c[i]].next == NextIn(c, i) && (NextIn(c, i) != EMPTY_INDEX ==> NextIn(c, i) in timers && i + 1 < |c|)
  {
    assert NextIn(c, i) == timers[c[i]].next && PrevIn(h, c, i) == timers[c[i]].previous;
  }

  /** Entry `j` of the list without its `i`-th entry is linked as it should be. */
  ghost predicate UnlinkedEntry<T>(timers: map<nat, Entry<T>>, h: nat, c: seq<nat>, i: nat, j: nat)
    requires i < |c| && j < |c| - 1
    requires c[i] in timers && timers[c[i]].previous in timers
    requires timers[c[i]].next == EMPTY_INDEX || timers[c[i]].next in timers
  {
    var r := Unlink(timers, c[i]) - {c[i]};
    var n := DropAt(c, i);
    && n[j] in r
    && r[n[j]].next == NextIn(n, j)
    && r[n[j]].previous == PrevIn(h, n, j)
  }

  lemma UnlinkEntry<T>(timers: map<nat, Entry<T>>, h: nat, c: seq<nat>, i: nat, j: nat)
    requires Linked(timers, h, c) && Distinct(c) && h !in c && i < |c| && j < |c| - 1
    requires forall x :: x in timers ==> x < EMPTY_INDEX
    requires c[i] in timers && timers[c[i]].previous == PrevIn(h, c, i) && PrevIn(h, c, i) in timers
    requires timers[c[i]].next == NextIn(c, i) && (NextIn(c, i) == EMPTY_INDEX || NextIn(c, i) in timers)
    ensures UnlinkedEntry(timers, h, c, i, j)
  {
    hide Unlink, DropAt;
    var o := if j < i then j else j + 1;
    assert c[o] in timers && c[o] in c;
    assert timers[c[o]].next == NextIn(c, o) && timers[c[o]].previous == PrevIn(h, c, o);
    assert c[o] == timers[c[i]].previous <==> o + 1 == i;
    assert c[o] == timers[c[i]].next <==> o == i + 1;
    var n := DropAt(c, i);
    var r := Unlink(timers, c[i]) - {c[i]};
    assert n[j] == c[o] && c[o] != c[i];
    if j + 1 < |n| { assert n[j + 1] == c[if j + 1 < i then j + 1 else j + 2]; }
    assert NextIn(n, j) == if o + 1 == i then NextIn(c, i) else NextIn(c, o);
    assert PrevIn(h, n, j) == if o == i + 1 then PrevIn(h, c, i) else PrevIn(h, c, o);
    assert r[c[o]].next == NextIn(n, j);
    assert r[c[o]].previous == PrevIn(h, n, j);
  }

  lemma UnlinkLinks<T>(timers: map<nat, Entry<T>>, h: nat, c: seq<nat>, i: nat)
    requires Linked(timers, h, c) && Distinct(c) && h !in c && i < |c|
    requires forall x :: x in timers ==> x < EMPTY_INDEX
    ensures c[i] in timers && timers[c[i]].previous in timers
    ensures timers[c[i]].next == EMPTY_INDEX || timers[c[i]].next in timers
    ensures Linked(Unlink(timers, c[i]) - {c[i]}, h, DropAt(c, i))
  {
    hide Unlink, DropAt;
    UnlinkNeighbours(timers, h, c, i);
    forall j | 0 <= j < |c| - 1
      ensures UnlinkedEntry(timers, h, c, i, j)
    {
      UnlinkEntry(timers, h, c, i, j);
    }
    var r := Unlink(timers, c[i]) - {c[i]};
    var n := DropAt(c, i);
    forall j | 0 <= j < |n|
      ensures n[j] in r && r[n[j]].next == NextIn(n, j) && r[n[j]].previous == PrevIn(h, n, j)
    {
      assert UnlinkedEntry(timers, h, c, i, j);
    }
    assert h != c[i];
    if n != [] { assert n[0] == if i == 0 then c[1] else c[0]; }
    assert NextIn(c, 0) == First(c[1..]);
    assert r[h].next == First(n);
  }

  lemma StopIndex<T>(g: Geometry, timers: map<nat, Entry<T>>, levels: seq<Level>, w: Wheel<T>, k: nat) returns (i: nat)
    requires Ready(g, w) && Represents(g, timers, levels, w) && k in w.timers
    ensures g.Has(w.timers[k].home)
    ensures var c := w.chains[w.timers[k].home];
            i < |c| && c[i] == k && Without(c, k) == DropAt(c, i)
    ensures k in timers && timers[k].previous in timers
    ensures timers[k].next == EMPTY_INDEX || timers[k].next in timers
  {
    var a := w.timers[k].home;
    var c := w.chains[a];
    i :| 0 <= i < |c| && c[i] == k;
    WithoutAt(c, i);
    UnlinkNeighbours(timers, HeadOf(g, levels, a), c, i);
  }

  lemma UnlinkHome<T>(g: Geometry, timers: map<nat, Entry<T>>, levels: seq<Level>, w: Wheel<T>, k: nat, i: nat)
    requires Ready(g, w) && Represents(g, timers, levels, w) && k in w.timers && g.Has(w.timers[k].home)
    requires var c := w.chains[w.timers[k].home]; i < |c| && c[i] == k
    requires k in timers && timers[k].previous in timers
    requires timers[k].next == EMPTY_INDEX || timers[k].next in timers
    ensures Linked(Unlink(timers, k) - {k}, HeadOf(g, levels, w.timers[k].home), DropAt(w.chains[w.timers[k].home], i))
  {
    hide HeadsOnly, Unlink;
    var a := w.timers[k].home;
    HeadApart(g, timers, levels, w, a, k);
    assert HeadOf(g, levels, a) !in w.timers;
    UnlinkLinks(timers, HeadOf(g, levels, a), w.chains[a], i);
  }

  lemma UnlinkOthers<T>(g: Geometry, timers: map<nat, Entry<T>>, levels: seq<Level>, w: Wheel<T>, k: nat, i: nat)
    requires Ready(g, w) && Represents(g, timers, levels, w) && k in w.timers
    requires var c := w.chains[w.timers[k].home]; i < |c| && c[i] == k
    requires k in timers && timers[k].previous in timers
    requires timers[k].next == EMPTY_INDEX || timers[k].next in timers
    ensures forall b: Slot :: g.Has(b) && b != w.timers[k].home ==>
      Linked(Unlink(timers, k) - {k}, HeadOf(g, levels, b), w.chains[b])
  {
    hide HeadsOnly, Unlink;
    var a := w.timers[k].home;
    UnlinkNeighbours(timers, HeadOf(g, levels, a), w.chains[a], i);
    forall b: Slot | g.Has(b) && b != a
      ensures Linked(Unlink(timers, k) - {k}, HeadOf(g, levels, b), w.chains[b])
    {
      forall x | x == HeadOf(g, levels, b) || x in w.chains[b]
        ensures x in timers && x != k && x != timers[k].previous && x != timers[k].next
      {
        ListsApart(g, timers, levels, w, {}, a, b, x);
      }
      UntouchedLinks(timers, Unlink(timers, k) - {k}, HeadOf(g, levels, b), w.chains[b]);
    }
  }

  /** Stopping timer `k` in the model is unlinking its entry and freeing it. */
  lemma StopRepresents<T>(g: Geometry, timers: map<nat, Entry<T>>, levels: seq<Level>, w: Wheel<T>, k: nat)
    requires Ready(g, w) && Represents(g, timers, levels, w) && k in w.timers
    ensures k in timers && timers[k].previous in timers
    ensures timers[k].next == EMPTY_INDEX || timers[k].next in timers
    ensures w.timers[k].home in w.chains
    ensures Represents(g, Unlink(timers, k) - {k}, levels, Stop(w, k))
  {
    hide HeadsOnly, Linked, Threaded, Unlink;
    var i := StopIndex(g, timers, levels, w, k);
    UnlinkHome(g, timers, levels, w, k, i);
    UnlinkOthers(g, timers, levels, w, k, i);
    SameHeads(g, timers, Unlink(timers, k) - {k}, levels, w, Stop(w, k));
  }

  // ---- the slab --------------------------------------------------------------------------------

  lemma {:induction false} BoundedKeys(n: nat, keys: set<nat>)
    requires forall k :: 0 <= k < n ==> k in keys
    ensures |keys| >= n
  {
    if n > 0 {
      BoundedKeys(n - 1, keys - {n - 1});
    }
  }

  /** A slab with fewer entries than keys has a vacant key. */
  lemma VacantKey<T>(timers: map<nat, Entry<T>>)
    requires |timers| < EMPTY_INDEX
    ensures exists k: nat :: k < EMPTY_INDEX && k !in timers
  {
    if forall k: nat :: k < EMPTY_INDEX ==> k in timers {
      BoundedKeys(EMPTY_INDEX, timers.Keys);
    }
  }

  lemma InsertKeepsList<T>(g: Geometry, timers: map<nat, Entry<T>>, levels: seq<Level>, w: Wheel<T>,
                           k: nat, expire: nat, context: T, a: Slot)
    requires Ready(g, w) && Represents(g, timers, levels, w) && k !in timers && g.Has(a)
    ensures Linked(timers[k := Entry(EMPTY_INDEX, EMPTY_INDEX, Armed(expire, context))], HeadOf(g, levels, a), w.chains[a])
  {
    hide HeadsOnly, Linked;
    ListFromSlab(g, timers, levels, w, {}, a);
    assert forall x :: x in w.chains[a] ==> x in w.timers;
    UntouchedLinks(timers, timers[k := Entry(EMPTY_INDEX, EMPTY_INDEX, Armed(expire, context))],
                   HeadOf(g, levels, a), w.chains[a]);
  }

  lemma InsertEntries<T>(timers: map<nat, Entry<T>>, w: Wheel<T>, k: nat, expire: nat, context: T)
    requires EntriesMatch(timers, w) && k !in timers && k < EMPTY_INDEX
    ensures k !in w.timers
    ensures EntriesMatch(timers[k := Entry(EMPTY_INDEX, EMPTY_INDEX, Armed(expire, context))],
                         w.(timers := w.timers[k := Timer(expire, context, Slot(0, 0))]))
  {}

  /** A new entry under a vacant key: the timer is in the slab and on no list yet. */
  lemma InsertRepresents<T>(g: Geometry, timers: map<nat, Entry<T>>, levels: seq<Level>, w: Wheel<T>,
                            k: nat, expire: nat, context: T)
    requires Ready(g, w) && Represents(g, timers, levels, w) && k !in timers && k < EMPTY_INDEX
    ensures k !in w.timers
    ensures var v := w.(timers := w.timers[k := Timer(expire, context, Slot(0, 0))]);
            && Shaped(g, v) && Threaded(v, {k})
            && Represents(g, timers[k := Entry(EMPTY_INDEX, EMPTY_INDEX, Armed(expire, context))], levels, v)
  {
    hide EntriesMatch, HeadsMatch, Linked, LevelsMatch, Threaded;
    var v := w.(timers := w.timers[k := Timer(expire, context, Slot(0, 0))]);
    var r := timers[k := Entry(EMPTY_INDEX, EMPTY_INDEX, Armed(expire, context))];
    InsertEntries(timers, w, k, expire, context);
    InsertThreads(g, w, k, expire, context);
    SameHeads(g, timers, r, levels, w, v);
    forall a: Slot | g.Has(a)
      ensures Linked(r, HeadOf(g, levels, a), v.chains[a])
    {
      InsertKeepsList(g, timers, levels, w, k, expire, context, a);
    }
  }

  // ---- one turn of the draining loop -------------------------------------------------------------

  lemma PendingLive<T>(w: Wheel<T>, all: seq<nat>)
    requires Threaded(w, KeysOf(all))
    ensures forall k :: k in all ==> k in w.timers
  {}

  lemma ForwardRest<T>(timers: map<nat, Entry<T>>, rest: seq<nat>)
    requires Forward(timers, rest) && rest != []
    ensures rest[0] in timers && timers[rest[0]].next == First(rest[1..])
    ensures Forward(timers, rest[1..])
  {
    assert timers[rest[0]].next == NextIn(rest, 0);
    forall i | 0 <= i < |rest[1..]|
      ensures rest[1..][i] in timers && timers[rest[1..][i]].next == NextIn(rest[1..], i)
    {
      assert NextIn(rest[1..], i) == NextIn(rest, i + 1);
    }
  }

  lemma DistinctRest(rest: seq<nat>)
    requires Distinct(rest) && rest != []
    ensures Distinct(rest[1..]) && rest[0] !in rest[1..] && KeysOf(rest[1..]) == KeysOf(rest) - {rest[0]}
  {
    assert KeysOf(rest[1..]) == KeysOf(rest) - {rest[0]};
  }

  /** What the loop reads of the first detached entry. */
  lemma DrainEntry<T>(g: Geometry, timers: map<nat, Entry<T>>, levels: seq<Level>, w: Wheel<T>, rest: seq<nat>)
    requires Shaped(g, w) && Threaded(w, KeysOf(rest)) && Represents(g, timers, levels, w) && Distinct(rest)
    requires Forward(timers, rest) && First(rest) != EMPTY_INDEX
    ensures rest != [] && rest[0] in timers && rest[0] in w.timers
    ensures timers[rest[0]].data == Armed(w.timers[rest[0]].expire, w.timers[rest[0]].context)
    ensures timers[rest[0]].next == First(rest[1..])
    ensures Distinct(rest[1..]) && Forward(timers, rest[1..])
    ensures rest[0] !in rest[1..] && KeysOf(rest[1..]) == KeysOf(rest) - {rest[0]}
    ensures forall k :: k in rest[1..] ==> k in w.timers && k in timers
  {
    hide Shaped, HeadsMatch, ListsMatch, LevelsMatch, Distinct, Forward;
    ForwardRest(timers, rest);
    DistinctRest(rest);
    PendingLive(w, rest);
  }

  lemma DrainTurn<T>(g: Geometry, w: Wheel<T>, rest: seq<nat>)
    requires Shaped(g, w) && Distinct(rest) && rest != [] && Threaded(w, KeysOf(rest))
    requires forall k :: k in rest ==> k in w.timers
    ensures Distinct(rest[1..]) && Threaded(Handle(g, w, rest[0]), KeysOf(rest[1..]))
    ensures forall k :: k in rest[1..] ==> k in Handle(g, w, rest[0]).timers
    ensures var r := Drain(g, Handle(g, w, rest[0]), rest[1..]);
            Drain(g, w, rest) == (r.0, Delivered(w, rest[0]) + r.1)
  {
    HandleThreads(g, w, rest);
  }

  lemma DropTurn<T>(g: Geometry, timers: map<nat, Entry<T>>, levels: seq<Level>, w: Wheel<T>, rest: seq<nat>)
    requires Shaped(g, w) && Distinct(rest) && rest != [] && Threaded(w, KeysOf(rest)) && Represents(g, timers, levels, w)
    requires rest[0] in w.timers && w.timers[rest[0]].expire <= w.now
    requires Forward(timers, rest[1..])
    ensures Handle(g, w, rest[0]) == w.(timers := w.timers - {rest[0]})
    ensures Represents(g, timers - {rest[0]}, levels, Handle(g, w, rest[0]))
    ensures Forward(timers - {rest[0]}, rest[1..])
  {
    DropRepresents(g, timers, levels, w, KeysOf(rest), rest[0]);
    UntouchedForward(timers, timers - {rest[0]}, rest[1..]);
  }

  lemma EndOfList<T>(timers: map<nat, Entry<T>>, rest: seq<nat>)
    requires Forward(timers, rest) && forall k :: k in timers ==> k < EMPTY_INDEX
    ensures First(rest) == EMPTY_INDEX <==> rest == []
  {
    if rest != [] {
      assert rest[0] in timers;
    }
  }

  lemma DrainDone<T>(g: Geometry, timers: map<nat, Entry<T>>, levels: seq<Level>, w: Wheel<T>, rest: seq<nat>)
    requires Shaped(g, w) && Represents(g, timers, levels, w) && First(rest) == EMPTY_INDEX
    requires Forward(timers, rest)
    ensures rest == [] && KeysOf(rest) == {} && Distinct(rest) && Drain(g, w, []) == (w, [])
  {
    EndOfList(timers, rest);
    assert KeysOf([]) == {};
  }

  lemma FileTurn<T>(g: Geometry, w: Wheel<T>, rest: seq<nat>)
    requires Shaped(g, w) && Distinct(rest) && rest != []
    requires rest[0] in w.timers && w.timers[rest[0]].expire > w.now
    ensures Handle(g, w, rest[0]) == File(g, w, rest[0])
    ensures rest[0] !in rest[1..]
  {}

  // ---- the level positions --------------------------------------------------------------------------

  lemma CurrentHead<T>(g: Geometry, timers: map<nat, Entry<T>>, levels: seq<Level>, w: Wheel<T>, level: nat)
    requires Shaped(g, w) && Represents(g, timers, levels, w) && level < g.levels
    ensures |levels| == g.levels && |levels[level].slots| == g.slots
    ensures levels[level].position == w.position[level]
    ensures g.Has(Current(g, w, level)) && Current(g, w, level) in w.chains
    ensures HeadOf(g, levels, Current(g, w, level)) == levels[level].slots[levels[level].position]
  {}

  lemma ChainDistinct<T>(g: Geometry, w: Wheel<T>, a: Slot)
    requires Ready(g, w) && a in w.chains
    ensures Distinct(w.chains[a])
  {}

  lemma MovedHeads<T>(g: Geometry, timers: map<nat, Entry<T>>, levels: seq<Level>, moved: seq<Level>, w: Wheel<T>, v: Wheel<T>)
    requires LevelsMatch(g, levels, w) && LevelsMatch(g, moved, v) && HeadsMatch(g, timers, levels, w)
    requires forall a: Slot :: g.Has(a) ==> HeadOf(g, moved, a) == HeadOf(g, levels, a)
    ensures HeadsMatch(g, timers, moved, v)
  {
    forall k | k in timers && timers[k].data.Head? ensures exists a: Slot :: g.Has(a) && HeadOf(g, moved, a) == k {
      var a: Slot :| g.Has(a) && HeadOf(g, levels, a) == k;
      assert HeadOf(g, moved, a) == k;
    }
  }

  lemma AdvanceRepresents<T>(g: Geometry, timers: map<nat, Entry<T>>, levels: seq<Level>, w: Wheel<T>, level: nat)
    requires Shaped(g, w) && Represents(g, timers, levels, w) && level < g.levels
    ensures |levels| == g.levels && levels[level].position == w.position[level]
    ensures var moved := levels[level := levels[level].(position := (levels[level].position + 1) % g.slots)];
            && Represents(g, timers, moved, Advance(g, w, level))
            && moved[level].position == Advance(g, w, level).position[level]
  {
    hide Linked, HeadsMatch;
    var moved := levels[level := levels[level].(position := (levels[level].position + 1) % g.slots)];
    forall a: Slot | g.Has(a) ensures HeadOf(g, moved, a) == HeadOf(g, levels, a) {}
    MovedHeads(g, timers, levels, moved, w, Advance(g, w, level));
  }

  lemma TickRepresents<T>(g: Geometry, timers: map<nat, Entry<T>>, levels: seq<Level>, w: Wheel<T>)
    requires Ready(g, w) && Represents(g, timers, levels, w)
    ensures var v := w.(now := w.now + 1);
            Ready(g, v) && Represents(g, timers, levels, v)
  {
    hide HeadsOnly, Linked;
  }

  /** What a scan reads of level `level` and of slot `a`. */
  lemma ScanEntry<T>(g: Geometry, timers: map<nat, Entry<T>>, levels: seq<Level>, w: Wheel<T>, level: nat)
    requires Shaped(g, w) && Represents(g, timers, levels, w) && level < g.levels
    ensures |levels| == g.levels && |levels[level].slots| == g.slots && levels[level].position == w.position[level]
  {}

  lemma ScanHead<T>(g: Geometry, timers: map<nat, Entry<T>>, levels: seq<Level>, w: Wheel<T>, a: Slot)
    requires Ready(g, w) && Represents(g, timers, levels, w) && g.Has(a)
    ensures |levels| == g.levels && |levels[a.level].slots| == g.slots
    ensures var h := levels[a.level].slots[a.index];
            && h in timers && timers[h].next == First(w.chains[a])
            && (timers[h].next != EMPTY_INDEX <==> w.chains[a] != [])
    ensures Forward(timers, w.chains[a]) && EntriesMatch(timers, w)
    ensures forall k :: k in w.chains[a] ==> k in w.timers
  {
    hide HeadsOnly, HeadsMatch, ListsMatch;
    ListFromSlab(g, timers, levels, w, {}, a);
    if w.chains[a] != [] { assert w.chains[a][0] in timers; }
  }

  // ---- initialisation ---------------------------------------------------------------------------------

  predicate Before(a: Slot, l: nat, s: nat) {
    a.level < l || (a.level == l && a.index < s)
  }

  ghost predicate Blank(g: Geometry, levels: seq<Level>) {
    && |levels| == g.levels
    && forall i :: 0 <= i < g.levels ==> |levels[i].slots| == g.slots && levels[i].position == 0
  }

  ghost predicate HeadsIn<T>(g: Geometry, timers: map<nat, Entry<T>>, levels: seq<Level>, l: nat, s: nat)
    requires Blank(g, levels)
  {
    forall a: Slot :: g.Has(a) && Before(a, l, s) ==> HeadOf(g, levels, a) in timers
  }

  ghost predicate HeadsDiffer(g: Geometry, levels: seq<Level>, l: nat, s: nat)
    requires Blank(g, levels)
  {
    forall a: Slot, b: Slot | g.Has(a) && g.Has(b) && Before(a, l, s) && Before(b, l, s) ::
      HeadOf(g, levels, a) == HeadOf(g, levels, b) ==> a == b
  }

  ghost predicate OnlyHeads<T>(g: Geometry, timers: map<nat, Entry<T>>, levels: seq<Level>, l: nat, s: nat)
    requires Blank(g, levels)
  {
    forall k | k in timers ::
      && k < EMPTY_INDEX && timers[k] == Entry(EMPTY_INDEX, EMPTY_INDEX, Head)
      && exists a: Slot :: g.Has(a) && Before(a, l, s) && HeadOf(g, levels, a) == k
  }

  /** The slots before slot `s` of level `l` have their head entries, and nothing else is there. */
  ghost predicate Prepared<T>(g: Geometry, timers: map<nat, Entry<T>>, levels: seq<Level>, l: nat, s: nat) {
    && Blank(g, levels)
    && HeadsIn(g, timers, levels, l, s)
    && HeadsDiffer(g, levels, l, s)
    && OnlyHeads(g, timers, levels, l, s)
    && |timers| == l * g.slots + s
  }

  /** `v` has one head more than `levels`, that of slot `s` of level `l`. */
  ghost predicate Puts(g: Geometry, levels: seq<Level>, v: seq<Level>, l: nat, s: nat, head: nat)
    requires Blank(g, levels) && Blank(g, v)
  {
    forall a: Slot :: g.Has(a) ==>
      && (Before(a, l, s + 1) <==> Before(a, l, s) || a == Slot(l, s))
      && HeadOf(g, v, a) == if a == Slot(l, s) then head else HeadOf(g, levels, a)
  }

  lemma NewHead(g: Geometry, levels: seq<Level>, l: nat, s: nat, head: nat)
    requires Blank(g, levels) && l < g.levels && s < g.slots
    ensures var v := levels[l := levels[l].(slots := levels[l].slots[s := head])];
            Blank(g, v) && Puts(g, levels, v, l, s, head)
  {}

  lemma PutOnly<T>(g: Geometry, timers: map<nat, Entry<T>>, levels: seq<Level>, v: seq<Level>, l: nat, s: nat, head: nat)
    requires Blank(g, levels) && Blank(g, v) && Puts(g, levels, v, l, s, head) && l < g.levels && s < g.slots
    requires OnlyHeads(g, timers, levels, l, s) && !Before(Slot(l, s), l, s) && head < EMPTY_INDEX
    ensures OnlyHeads(g, timers[head := Entry(EMPTY_INDEX, EMPTY_INDEX, Head)], v, l, s + 1)
  {
    hide HeadOf, Before;
    var t := timers[head := Entry(EMPTY_INDEX, EMPTY_INDEX, Head)];
    forall k | k in t ensures exists a: Slot :: g.Has(a) && Before(a, l, s + 1) && HeadOf(g, v, a) == k {
      if k == head {
        assert g.Has(Slot(l, s)) && HeadOf(g, v, Slot(l, s)) == k;
      } else {
        var a: Slot :| g.Has(a) && Before(a, l, s) && HeadOf(g, levels, a) == k;
        assert HeadOf(g, v, a) == k;
      }
    }
  }

  lemma PutDiffer<T>(g: Geometry, timers: map<nat, Entry<T>>, levels: seq<Level>, v: seq<Level>, l: nat, s: nat, head: nat)
    requires Blank(g, levels) && Blank(g, v) && Puts(g, levels, v, l, s, head) && l < g.levels && s < g.slots
    requires HeadsIn(g, timers, levels, l, s) && HeadsDiffer(g, levels, l, s) && head !in timers
    ensures HeadsIn(g, timers[head := Entry(EMPTY_INDEX, EMPTY_INDEX, Head)], v, l, s + 1)
    ensures HeadsDiffer(g, v, l, s + 1)
  {
    hide HeadOf, Before;
  }

  lemma PrepareSlot<T>(g: Geometry, timers: map<nat, Entry<T>>, levels: seq<Level>, l: nat, s: nat, head: nat)
    requires Prepared(g, timers, levels, l, s) && l < g.levels && s < g.slots
    requires head !in timers && head < EMPTY_INDEX
    ensures Prepared(g, timers[head := Entry(EMPTY_INDEX, EMPTY_INDEX, Head)],
                     levels[l := levels[l].(slots := levels[l].slots[s := head])], l, s + 1)
  {
    hide HeadsIn, HeadsDiffer, OnlyHeads, Puts;
    var v := levels[l := levels[l].(slots := levels[l].slots[s := head])];
    NewHead(g, levels, l, s, head);
    PutDiffer(g, timers, levels, v, l, s, head);
    PutOnly(g, timers, levels, v, l, s, head);
  }

  lemma Product(l: nat, rest: nat, slots: nat)
    ensures (l + 1 + rest) * slots == l * slots + slots + rest * slots && rest * slots >= 0
  {}

  lemma PrepareLevel<T>(g: Geometry, timers: map<nat, Entry<T>>, levels: seq<Level>, l: nat)
    requires Prepared(g, timers, levels, l, g.slots) && l < g.levels
    ensures Prepared(g, timers, levels, l + 1, 0)
  {
    Product(l, 0, g.slots);
    forall a: Slot | g.Has(a) ensures Before(a, l + 1, 0) <==> Before(a, l, g.slots) {}
  }

  lemma RoomForHeads(levels: nat, slots: nat, l: nat, s: nat)
    requires l < levels && s < slots
    ensures l * slots + s < levels * slots
  {
    Product(l, levels - l - 1, slots);
  }

  lemma PreparedHeads<T>(g: Geometry, timers: map<nat, Entry<T>>, levels: seq<Level>)
    requires Prepared(g, timers, levels, g.levels, 0)
    ensures LevelsMatch(g, levels, Empty<T>(g)) && HeadsMatch(g, timers, levels, Empty<T>(g))
    ensures forall k :: k in timers ==> k < EMPTY_INDEX && timers[k] == Entry(EMPTY_INDEX, EMPTY_INDEX, Head)
  {
    forall a: Slot | g.Has(a) ensures Before(a, g.levels, 0) {}
    forall k | k in timers ensures exists a: Slot :: g.Has(a) && HeadOf(g, levels, a) == k {
      var a: Slot :| g.Has(a) && Before(a, g.levels, 0) && HeadOf(g, levels, a) == k;
    }
  }

  lemma PreparedRepresents<T>(g: Geometry, timers: map<nat, Entry<T>>, levels: seq<Level>)
    requires Prepared(g, timers, levels, g.levels, 0)
    ensures Represents(g, timers, levels, Empty<T>(g))
  {
    hide Prepared;
    var w := Empty<T>(g);
    PreparedHeads(g, timers, levels);
    forall a: Slot | g.Has(a) ensures Linked(timers, HeadOf(g, levels, a), w.chains[a]) {
      assert HeadOf(g, levels, a) in timers;
    }
  }

  lemma PrepareNone<T>(g: Geometry)
    ensures Prepared<T>(g, map[], seq(g.levels, i => Level(seq(g.slots, j => EMPTY_INDEX), 0)), 0, 0)
  {}

  lemma PreparedRoom<T>(g: Geometry, timers: map<nat, Entry<T>>, levels: seq<Level>, l: nat, s: nat)
    requires Prepared(g, timers, levels, l, s) && l < g.levels && s < g.slots
    requires g.levels * g.slots < EMPTY_INDEX
    ensures |timers| < EMPTY_INDEX && l < |levels| && s < |levels[l].slots|
  {
    RoomForHeads(g.levels, g.slots, l, s);
  }

  // ---- the lists in the slab ---------------------------------------------------------------------------

  /** `next` runs along `c` from the head entry to the end, and `previous` inverts it. */
  ghost predicate ListRuns<T>(timers: map<nat, Entry<T>>, h: nat, c: seq<nat>) {
    && h in timers && timers[h].next == First(c)
    && forall i {:trigger c[i]} :: 0 <= i < |c| ==>
         && c[i] in timers
         && timers[c[i]].next == (if i + 1 < |c| then c[i + 1] else EMPTY_INDEX)
         && timers[c[i]].previous == (if i == 0 then h else c[i - 1])
  }

  lemma LinkedRuns<T>(timers: map<nat, Entry<T>>, h: nat, c: seq<nat>)
    requires Linked(timers, h, c)
    ensures ListRuns(timers, h, c)
  {
    forall i | 0 <= i < |c|
      ensures c[i] in timers
      ensures timers[c[i]].next == (if i + 1 < |c| then c[i + 1] else EMPTY_INDEX)
      ensures timers[c[i]].previous == (if i == 0 then h else c[i - 1])
    {
      assert timers[c[i]].next == NextIn(c, i);
      assert timers[c[i]].previous == PrevIn(h, c, i);
    }
  }

  lemma EntriesOnLists<T>(g: Geometry, timers: map<nat, Entry<T>>, w: Wheel<T>)
    requires Ready(g, w) && EntriesMatch(timers, w)
    ensures forall a: Slot, b: Slot, k :: g.Has(a) && g.Has(b) && k in w.chains[a] && k in w.chains[b] ==> a == b
    ensures forall k :: k in timers && !timers[k].data.Head? <==> exists a: Slot :: g.Has(a) && k in w.chains[a]
  {
    forall a: Slot, b: Slot, k | g.Has(a) && g.Has(b) && k in w.chains[a] && k in w.chains[b] ensures a == b {
      assert a in w.chains && w.timers[k].home == a;
      assert b in w.chains && w.timers[k].home == b;
    }
    forall k | k in timers && !timers[k].data.Head? ensures exists a: Slot :: g.Has(a) && k in w.chains[a] {
      assert k in w.timers && g.Has(w.timers[k].home);
    }
  }

  /** In the slab of a wheel between calls, the list of every slot runs without repetition from its
      head entry, no entry is on two lists, and the entries on some list are exactly those that
      hold a timer. */
  lemma ListsInSlab<T>(g: Geometry, timers: map<nat, Entry<T>>, levels: seq<Level>, w: Wheel<T>)
    requires Ready(g, w) && Represents(g, timers, levels, w)
    ensures forall a: Slot :: g.Has(a) ==>
      Distinct(w.chains[a]) && ListRuns(timers, HeadOf(g, levels, a), w.chains[a])
    ensures forall a: Slot, b: Slot, k :: g.Has(a) && g.Has(b) && k in w.chains[a] && k in w.chains[b] ==> a == b
    ensures forall k :: k in timers && !timers[k].data.Head? <==> exists a: Slot :: g.Has(a) && k in w.chains[a]
  {
    EntriesOnLists(g, timers, w);
    hide EntriesMatch, HeadsMatch, Linked, ListRuns, Distinct;
    forall a: Slot | g.Has(a)
      ensures Distinct(w.chains[a]) && ListRuns(timers, HeadOf(g, levels, a), w.chains[a])
    {
      LinkedRuns(timers, HeadOf(g, levels, a), w.chains[a]);
    }
  }
}
