/** Arithmetic of a hierarchical timer wheel: base-`slots` digits of time, the slot a
    delay is filed under, and the tick at which a slot is visited next. */
module TimerArithmetic {
  import opened MachineArithmetic

  /** The index that means "no entry" (`u32::MAX` in the source). */
  const EMPTY_INDEX: nat := 0xFFFF_FFFF

  function Pow(b: nat, e: nat): (p: nat)
    ensures b >= 1 ==> p >= 1
  {
    if e == 0 then 1 else b * Pow(b, e - 1)
  }

  datatype Slot = Slot(level: nat, index: nat)

  datatype Dimensions = Dimensions(levels: nat, slots: nat) {

    /** Ticks covered by one slot of level `l`. */
    function Span(l: nat): (u: nat)
      requires slots >= 1
      ensures u >= 1
    {
      Pow(slots, l)
    }

    predicate Has(a: Slot) {
      a.level < levels && a.index < slots
    }
  }

  /** The two const parameters of the wheel. The range of the wheel must fit the clock. */
  type Geometry = d: Dimensions | d.levels >= 1 && d.slots >= 1 && Pow(d.slots, d.levels) <= U64_MAX
    witness Dimensions(1, 1)

  function SaturatingAdd(a: nat, b: nat): nat {
    if a + b <= U64_MAX then a + b else U64_MAX
  }

  function SaturatingPred(n: nat): nat {
    if n == 0 then 0 else n - 1
  }

  /** The first level at or above `l` whose range holds `delta`; `g.levels` when none does. */
  function FindLevel(g: Geometry, delta: nat, l: nat): (r: nat)
    requires l <= g.levels
    ensures l <= r <= g.levels
    ensures r < g.levels ==> delta < g.Span(r + 1)
    ensures r > l ==> delta >= g.Span(r)
    decreases g.levels - l
  {
    if l == g.levels then l
    else if delta < g.Span(l + 1) then l
    else FindLevel(g, delta, l + 1)
  }

  /** The slot of a level drained last from its present position. */
  function LastIndex(g: Geometry, position: nat): (s: nat)
    ensures s < g.slots
  {
    (position + g.slots - 1) % g.slots
  }

  function IndexAt(g: Geometry, l: nat, position: nat, delta: nat): (s: nat)
    ensures s < g.slots
  {
    SaturatingPred(position + delta / g.Span(l)) % g.slots
  }

  /** The slot chosen for a timer `delta` ticks away, given the level positions. */
  function PlaceSlot(g: Geometry, position: seq<nat>, delta: nat): (a: Slot)
    requires |position| == g.levels
    ensures g.Has(a)
  {
    var l := FindLevel(g, delta, 0);
    if l == g.levels then
      Slot(g.levels - 1, LastIndex(g, position[g.levels - 1]))
    else
      Slot(l, IndexAt(g, l, position[l], delta))
  }

  /** The level whose resolution decides when a timer `delta` ticks away is filed. */
  function LevelFor(g: Geometry, delta: nat): (l: nat)
    ensures l < g.levels
  {
    var l := FindLevel(g, delta, 0);
    if l == g.levels then g.levels - 1 else l
  }

  /** After `q` advances of a level, the number of advances at which slot `s` is next drained. */
  function NextVisit(slots: nat, q: int, s: int): (m: int)
    requires slots >= 1
    ensures q < m <= q + slots
  {
    q + 1 + (s - q) % slots
  }

  /** How often level `i` has advanced when the clock reads `now` and the levels
      below `stage` have been processed for this tick. Between calls, `stage == g.levels`. */
  function Clock(g: Geometry, now: nat, stage: nat, i: nat): int
  {
    if i < stage then now / g.Span(i) else (now - 1) / g.Span(i)
  }

  /** The tick at which slot `a` is drained next. */
  function Due(g: Geometry, now: nat, stage: nat, a: Slot): int
  {
    NextVisit(g.slots, Clock(g, now, stage, a.level), a.index) * g.Span(a.level)
  }

  // ---- elementary facts -------------------------------------------------------------

  /** A slot named by its distance ahead is next drained at that distance. */
  lemma NextVisitAhead(slots: nat, q: int, x: nat)
    requires slots >= 1 && x < slots
    ensures NextVisit(slots, q, (q + x) % slots) == q + 1 + x
  {
    ModOfSum(q + x, -q, slots);
    DivModUnique(x, slots, 0, x);
  }

  lemma NotLast(slots: nat, q: int, s: nat)
    requires slots >= 1 && s < slots && s != (q - 1) % slots
    ensures (s - q) % slots < slots - 1
  {
    var x := (s - q) % slots;
    ModOfSum(s - q, q, slots);
    DivModUnique(s, slots, 0, s);
    assert (x + q) % slots == s;
    ModCongruent(q - 1, 1, slots);
    assert q + (slots - 1) == (q - 1) + 1 * slots;
  }

  /** Draining one slot moves no other slot's next visit. */
  lemma NextVisitStep(slots: nat, q: int, s: nat)
    requires slots >= 1 && s < slots && s != (q - 1) % slots
    ensures NextVisit(slots, q - 1, s) == NextVisit(slots, q, s)
  {
    NotLast(slots, q, s);
    ModSuccessor(s - q, slots);
    assert s - (q - 1) == (s - q) + 1;
  }

  lemma ProductAtLeast(b: nat, p: nat)
    requires b >= 1
    ensures b * p >= p
  {}

  lemma PowMonotone(b: nat, i: nat, j: nat)
    requires b >= 1 && i <= j
    ensures Pow(b, i) <= Pow(b, j)
    decreases j
  {
    if i < j {
      PowMonotone(b, i, j - 1);
      ProductAtLeast(b, Pow(b, j - 1));
    }
  }

  /** A multiple of a coarse span is a multiple of every finer one. */
  lemma CoarseMultiple(g: Geometry, n: int, i: nat, j: nat)
    requires i <= j && n % g.Span(j) == 0
    ensures n % g.Span(i) == 0
    decreases j
  {
    if i < j {
      var u, v := g.Span(j - 1), g.Span(j);
      var q := n / v;
      assert v == g.slots * u;
      assert n == q * v;
      assert q * (g.slots * u) == (q * g.slots) * u;
      DivModUnique(n, u, q * g.slots, 0);
      CoarseMultiple(g, n, i, j - 1);
    }
  }

  /** Coarser slots are drained at multiples of the slot count. */
  lemma CoarseDue(g: Geometry, l: nat, due: int)
    requires l >= 1 && due % g.Span(l) == 0
    ensures due % g.slots == 0 && g.slots <= g.Span(l)
  {
    assert g.Span(1) == g.slots * g.Span(0) && g.Span(0) == 1;
    CoarseMultiple(g, due, 1, l);
    PowMonotone(g.slots, 1, l);
  }
}
