/** Feature-arc dispatch one buffer at a time and four at a time. */
module FeatureNode {
  const FRAME_SIZE: nat := 256

  /** What dispatch reads and writes of a packet buffer: its arc, its place in the arc's
      configuration heap, and the rest. */
  datatype Buffer<D> = Buffer(arc: nat, config: nat, payload: D)

  datatype FeatureNext = DefinedNode(next: nat) | NextFeature

  /** `words` is the least number of 32-bit words that hold `bytes` bytes. */
  predicate Holds(bytes: nat, words: nat) {
    4 * words >= bytes && 4 * (words - 1) < bytes
  }

  /** One heap of 32-bit words per feature arc; `featureDataSize` is the size in bytes of the
      feature data stored at each place. */
  datatype Arcs = Arcs(heaps: seq<seq<nat>>, featureDataSize: nat) {
    function Words(): (w: nat)
      ensures Holds(featureDataSize, w)
    {
      (featureDataSize + 3) / 4
    }
  }

  datatype Quad<X> = Quad(a: X, b: X, c: X, d: X) {
    function At(i: nat): X
      requires i < 4
    {
      if i == 0 then a else if i == 1 then b else if i == 2 then c else d
    }
  }

  /** A plugin's node: what it does to one buffer, and to four. */
  datatype Node<!D> = Node(
    map1: Buffer<D> -> (FeatureNext, Buffer<D>),
    map4: Quad<Buffer<D>> -> Quad<(FeatureNext, Buffer<D>)>)

  // ---- the configuration heap ------------------------------------------------------------------

  predicate OnArc<D>(arcs: Arcs, b: Buffer<D>) {
    b.arc < |arcs.heaps| && b.config + arcs.Words() < |arcs.heaps[b.arc]|
  }

  /** `vnet_get_config_data`: the feature data at `index`, the next-node word behind it, and the
      index of the word after that. */
  function GetConfigData(heap: seq<nat>, words: nat, index: nat): (r: (nat, seq<nat>, nat))
    requires index + words < |heap|
    ensures r.2 == index + words + 1 <= |heap| && heap[index..r.2] == r.1 + [r.0]
  {
    (heap[index + words], heap[index..index + words], index + words + 1)
  }

  /** `vnet_feature_next(..).0 as u16`. */
  function FeatureWord<D>(arcs: Arcs, b: Buffer<D>): nat
    requires OnArc(arcs, b)
  {
    GetConfigData(arcs.heaps[b.arc], arcs.Words(), b.config).0 % 0x1_0000
  }

  function Advanced<D>(arcs: Arcs, b: Buffer<D>): Buffer<D>
    requires OnArc(arcs, b)
  {
    b.(config := GetConfigData(arcs.heaps[b.arc], arcs.Words(), b.config).2)
  }

  // ---- what dispatch promises, read off the heap ---------------------------------------------------

  predicate OnHeap<D>(arcs: Arcs, words: nat, b: Buffer<D>) {
    b.arc < |arcs.heaps| && b.config + words < |arcs.heaps[b.arc]|
  }

  predicate OnHeaps<D>(arcs: Arcs, words: nat, bs: seq<Buffer<D>>) {
    forall x :: 0 <= x < |bs| ==> OnHeap(arcs, words, bs[x])
  }

  /** One at a time: a buffer for a defined node gets that node's number. A buffer that is passed on
      gets the low half of the word behind its `words` words of feature data, and its place moves past
      that word. */
  ghost predicate DispatchedAlone<D>(arcs: Arcs, words: nat, node: Node<D>, b: Buffer<D>, next: nat, after: Buffer<D>) {
    var (n, m) := node.map1(b);
    if n.DefinedNode? then next == n.next && after == m
    else
      && OnHeap(arcs, words, m)
      && next == arcs.heaps[m.arc][m.config + words] % 65536
      && after == Buffer(m.arc, m.config + words + 1, m.payload)
  }

  ghost function Past<D>(b: Buffer<D>, words: nat): Buffer<D> {
    Buffer(b.arc, b.config + words + 1, b.payload)
  }

  /** Four at a time: buffers move on before they are mapped. In a stride of one arc only the first one
      does, and its word serves all four. */
  ghost predicate DispatchedInStride<D>(arcs: Arcs, words: nat, node: Node<D>, q: Quad<Buffer<D>>, lane: nat,
                                        next: nat, after: Buffer<D>)
    requires OnHeap(arcs, words, q.a) && OnHeap(arcs, words, q.b) && OnHeap(arcs, words, q.c) && OnHeap(arcs, words, q.d)
    requires lane < 4
  {
    var one := q.a.arc == q.b.arc && q.a.arc == q.c.arc && q.a.arc == q.d.arc;
    var moved := if one then Quad(Past(q.a, words), q.b, q.c, q.d)
                 else Quad(Past(q.a, words), Past(q.b, words), Past(q.c, words), Past(q.d, words));
    var mapped := node.map4(moved);
    var (n, m) := [mapped.a, mapped.b, mapped.c, mapped.d][lane];
    var source := if one then q.a else [q.a, q.b, q.c, q.d][lane];
    && after == m
    && next == if n.DefinedNode? then n.next else arcs.heaps[source.arc][source.config + words] % 65536
  }

  /** Buffers after the last stride are dispatched singly, and move on before they are mapped too. */
  ghost predicate DispatchedInFour<D>(arcs: Arcs, words: nat, node: Node<D>, bs: seq<Buffer<D>>, k: nat,
                                      next: nat, after: Buffer<D>)
    requires k < |bs| && OnHeaps(arcs, words, bs)
  {
    var s := k - k % 4;
    if s + 4 <= |bs| then
      DispatchedInStride(arcs, words, node, Quad(bs[s], bs[s + 1], bs[s + 2], bs[s + 3]), k % 4, next, after)
    else
      var (n, m) := node.map1(Past(bs[k], words));
      && after == m
      && next == if n.DefinedNode? then n.next else arcs.heaps[bs[k].arc][bs[k].config + words] % 65536
  }

  lemma OneSize(bytes: nat, v: nat, w: nat)
    requires Holds(bytes, v) && Holds(bytes, w)
    ensures v == w
  {
  }

  // ---- one at a time -----------------------------------------------------------------------------

  /** A buffer the node passes on along the arc is still on it. */
  predicate CanFollow<D>(arcs: Arcs, node: Node<D>, b: Buffer<D>) {
    node.map1(b).0.NextFeature? ==> OnArc(arcs, node.map1(b).1)
  }

  function Slow<D>(arcs: Arcs, node: Node<D>, b: Buffer<D>): (nat, Buffer<D>)
    requires CanFollow(arcs, node, b)
  {
    var (next, after) := node.map1(b);
    match next
    case NextFeature => (FeatureWord(arcs, after), Advanced(arcs, after))
    case DefinedNode(n) => (n, after)
  }

  lemma SlowReads<D>(arcs: Arcs, node: Node<D>, b: Buffer<D>)
    requires CanFollow(arcs, node, b)
    ensures DispatchedAlone(arcs, arcs.Words(), node, b, Slow(arcs, node, b).0, Slow(arcs, node, b).1)
  {
  }

  method GenericFeatureNodeX1<D>(arcs: Arcs, node: Node<D>, b: array<Buffer<D>>, nexts: array<nat>)
    requires b.Length <= nexts.Length == FRAME_SIZE
    requires forall i :: 0 <= i < b.Length ==> CanFollow(arcs, node, b[i])
    modifies b, nexts
    ensures forall i :: 0 <= i < b.Length ==>
      CanFollow(arcs, node, old(b[..])[i]) && (nexts[i], b[i]) == Slow(arcs, node, old(b[..])[i])
    ensures exists words :: Holds(arcs.featureDataSize, words) && forall i :: 0 <= i < b.Length ==>
      DispatchedAlone(arcs, words, node, old(b[..])[i], nexts[i], b[i])
    ensures forall i :: b.Length <= i < nexts.Length ==> nexts[i] == old(nexts[i])
  {
    ghost var was := b[..];
    var i := 0;
    while i < b.Length
      invariant 0 <= i <= b.Length
      invariant forall k :: i <= k < b.Length ==> b[k] == was[k]
      invariant forall k :: 0 <= k < i ==>
        CanFollow(arcs, node, was[k]) && (nexts[k], b[k]) == Slow(arcs, node, was[k])
      invariant forall k :: b.Length <= k < nexts.Length ==> nexts[k] == old(nexts[k])
    {
      assert b[i] == was[i] && CanFollow(arcs, node, was[i]);
      var (next, b0) := node.map1(b[i]);
      b[i] := b0;
      if next.NextFeature? {
        nexts[i] := FeatureWord(arcs, b[i]);
        b[i] := Advanced(arcs, b[i]);
      } else {
        nexts[i] := next.next;
      }
      i := i + 1;
    }
    forall i | 0 <= i < b.Length ensures DispatchedAlone(arcs, arcs.Words(), node, was[i], nexts[i], b[i]) {
      SlowReads(arcs, node, was[i]);
    }
    assert Holds(arcs.featureDataSize, arcs.Words());
  }

  // ---- four at a time --------------------------------------------------------------------------------

  predicate Uniform<D>(q: Quad<Buffer<D>>) {
    q.a.arc == q.b.arc && q.a.arc == q.c.arc && q.a.arc == q.d.arc
  }

  predicate QuadOnArc<D>(arcs: Arcs, q: Quad<Buffer<D>>) {
    OnArc(arcs, q.a) && OnArc(arcs, q.b) && OnArc(arcs, q.c) && OnArc(arcs, q.d)
  }

  /** The next words written before mapping, and the buffers then: in a stride of one arc, the
      first buffer's word serves all four and only its place advances. */
  function Guess<D>(arcs: Arcs, q: Quad<Buffer<D>>): (Quad<nat>, Quad<Buffer<D>>)
    requires QuadOnArc(arcs, q)
  {
    if Uniform(q) then
      var w := FeatureWord(arcs, q.a);
      (Quad(w, w, w, w), q.(a := Advanced(arcs, q.a)))
    else
      (Quad(FeatureWord(arcs, q.a), FeatureWord(arcs, q.b), FeatureWord(arcs, q.c), FeatureWord(arcs, q.d)),
       Quad(Advanced(arcs, q.a), Advanced(arcs, q.b), Advanced(arcs, q.c), Advanced(arcs, q.d)))
  }

  function Chosen(guess: nat, next: FeatureNext): nat {
    if next.NextFeature? then guess else next.next
  }

  function FastLane<D>(arcs: Arcs, node: Node<D>, q: Quad<Buffer<D>>, i: nat): (nat, Buffer<D>)
    requires QuadOnArc(arcs, q) && i < 4
  {
    var g := Guess(arcs, q);
    var m := node.map4(g.1);
    (Chosen(g.0.At(i), m.At(i).0), m.At(i).1)
  }

  /** The tail: guess first, then map one buffer. */
  function Tail<D>(arcs: Arcs, node: Node<D>, b: Buffer<D>): (nat, Buffer<D>)
    requires OnArc(arcs, b)
  {
    var (next, after) := node.map1(Advanced(arcs, b));
    (Chosen(FeatureWord(arcs, b), next), after)
  }

  function Stride<D>(bs: seq<Buffer<D>>, i: nat): (q: Quad<Buffer<D>>)
    requires i / 4 * 4 + 4 <= |bs|
    ensures q.At(i % 4) == bs[i]
  {
    var s := i / 4 * 4;
    Quad(bs[s], bs[s + 1], bs[s + 2], bs[s + 3])
  }

  /** What four-at-a-time dispatch makes of buffer `i` of a frame. */
  function Fast<D>(arcs: Arcs, node: Node<D>, bs: seq<Buffer<D>>, i: nat): (nat, Buffer<D>)
    requires i < |bs| && forall k :: 0 <= k < |bs| ==> OnArc(arcs, bs[k])
  {
    if i < |bs| / 4 * 4 then FastLane(arcs, node, Stride(bs, i), i % 4) else Tail(arcs, node, bs[i])
  }

  /** Writes the next words of a stride before it is mapped. */
  method WriteGuess<D>(arcs: Arcs, b: array<Buffer<D>>, nexts: array<nat>, i: nat)
    requires i + 4 <= b.Length <= nexts.Length
    requires QuadOnArc(arcs, Quad(b[i], b[i + 1], b[i + 2], b[i + 3]))
    modifies b, nexts
    ensures var g := Guess(arcs, old(Quad(b[i], b[i + 1], b[i + 2], b[i + 3])));
            && Quad(nexts[i], nexts[i + 1], nexts[i + 2], nexts[i + 3]) == g.0
            && Quad(b[i], b[i + 1], b[i + 2], b[i + 3]) == g.1
    ensures forall k :: 0 <= k < b.Length && !(i <= k < i + 4) ==> b[k] == old(b[k])
    ensures forall k :: 0 <= k < nexts.Length && !(i <= k < i + 4) ==> nexts[k] == old(nexts[k])
  {
    hide FeatureWord, Advanced;
    if b[i].arc == b[i + 1].arc && b[i].arc == b[i + 2].arc && b[i].arc == b[i + 3].arc {
      var featureNext := FeatureWord(arcs, b[i]);
      b[i] := Advanced(arcs, b[i]);
      nexts[i] := featureNext;
      nexts[i + 1] := featureNext;
      nexts[i + 2] := featureNext;
      nexts[i + 3] := featureNext;
    } else {
      nexts[i], b[i] := FeatureWord(arcs, b[i]), Advanced(arcs, b[i]);
      nexts[i + 1], b[i + 1] := FeatureWord(arcs, b[i + 1]), Advanced(arcs, b[i + 1]);
      nexts[i + 2], b[i + 2] := FeatureWord(arcs, b[i + 2]), Advanced(arcs, b[i + 2]);
      nexts[i + 3], b[i + 3] := FeatureWord(arcs, b[i + 3]), Advanced(arcs, b[i + 3]);
    }
  }

  lemma FastInStride<D>(arcs: Arcs, node: Node<D>, bs: seq<Buffer<D>>, s: nat, k: nat)
    requires s < |bs| / 4 && s * 4 <= k < s * 4 + 4
    requires forall x :: 0 <= x < |bs| ==> OnArc(arcs, bs[x])
    ensures s * 4 + 4 <= |bs|
    ensures var q := Quad(bs[s * 4], bs[s * 4 + 1], bs[s * 4 + 2], bs[s * 4 + 3]);
            Fast(arcs, node, bs, k) == FastLane(arcs, node, q, k - s * 4)
  {
    hide FastLane;
    assert k / 4 == s && k % 4 == k - s * 4;
  }

  lemma FastInTail<D>(arcs: Arcs, node: Node<D>, bs: seq<Buffer<D>>, k: nat)
    requires |bs| / 4 * 4 <= k < |bs| && forall x :: 0 <= x < |bs| ==> OnArc(arcs, bs[x])
    ensures Fast(arcs, node, bs, k) == Tail(arcs, node, bs[k])
  {}

  method ProcessStride<D>(arcs: Arcs, node: Node<D>, b: array<Buffer<D>>, nexts: array<nat>, i: nat)
    requires i + 4 <= b.Length <= nexts.Length
    requires QuadOnArc(arcs, Quad(b[i], b[i + 1], b[i + 2], b[i + 3]))
    modifies b, nexts
    ensures forall k :: i <= k < i + 4 ==>
      (nexts[k], b[k]) == FastLane(arcs, node, old(Quad(b[i], b[i + 1], b[i + 2], b[i + 3])), k - i)
    ensures forall k :: 0 <= k < b.Length && !(i <= k < i + 4) ==> b[k] == old(b[k])
    ensures forall k :: 0 <= k < nexts.Length && !(i <= k < i + 4) ==> nexts[k] == old(nexts[k])
  {
    hide Guess;
    WriteGuess(arcs, b, nexts, i);
    var m := node.map4(Quad(b[i], b[i + 1], b[i + 2], b[i + 3]));
    b[i], b[i + 1], b[i + 2], b[i + 3] := m.a.1, m.b.1, m.c.1, m.d.1;
    if m.a.0.DefinedNode? { nexts[i] := m.a.0.next; }
    if m.b.0.DefinedNode? { nexts[i + 1] := m.b.0.next; }
    if m.c.0.DefinedNode? { nexts[i + 2] := m.c.0.next; }
    if m.d.0.DefinedNode? { nexts[i + 3] := m.d.0.next; }
  }

  lemma LaneReads<D>(arcs: Arcs, node: Node<D>, q: Quad<Buffer<D>>, lane: nat)
    requires QuadOnArc(arcs, q) && lane < 4
    ensures DispatchedInStride(arcs, arcs.Words(), node, q, lane, FastLane(arcs, node, q, lane).0, FastLane(arcs, node, q, lane).1)
  {
  }

  lemma BehindLastStride(k: nat, length: nat)
    requires length / 4 * 4 <= k < length
    ensures k - k % 4 + 4 > length
  {
  }

  lemma TailReads<D>(arcs: Arcs, node: Node<D>, b: Buffer<D>)
    requires OnArc(arcs, b)
    ensures var (n, m) := node.map1(Past(b, arcs.Words()));
      && Tail(arcs, node, b).1 == m
      && Tail(arcs, node, b).0 == if n.DefinedNode? then n.next else arcs.heaps[b.arc][b.config + arcs.Words()] % 65536
  {
    assert Advanced(arcs, b) == Past(b, arcs.Words());
  }

  lemma FastReads<D>(arcs: Arcs, node: Node<D>, bs: seq<Buffer<D>>, k: nat)
    requires k < |bs| && forall x :: 0 <= x < |bs| ==> OnArc(arcs, bs[x])
    ensures DispatchedInFour(arcs, arcs.Words(), node, bs, k, Fast(arcs, node, bs, k).0, Fast(arcs, node, bs, k).1)
  {
    hide Fast, FastLane, DispatchedInStride, Tail, Past;
    if k < |bs| / 4 * 4 {
      FastInStride(arcs, node, bs, k / 4, k);
      var s := k / 4 * 4;
      LaneReads(arcs, node, Quad(bs[s], bs[s + 1], bs[s + 2], bs[s + 3]), k % 4);
    } else {
      BehindLastStride(k, |bs|);
      FastInTail(arcs, node, bs, k);
      TailReads(arcs, node, bs[k]);
    }
  }

  lemma FrameReads<D>(arcs: Arcs, node: Node<D>, bs: seq<Buffer<D>>, nexts: seq<nat>, after: seq<Buffer<D>>)
    requires forall x :: 0 <= x < |bs| ==> OnArc(arcs, bs[x])
    requires |bs| == |after| <= |nexts| && forall k :: 0 <= k < |bs| ==> (nexts[k], after[k]) == Fast(arcs, node, bs, k)
    ensures OnHeaps(arcs, arcs.Words(), bs) && Holds(arcs.featureDataSize, arcs.Words())
    ensures forall k :: 0 <= k < |bs| ==> DispatchedInFour(arcs, arcs.Words(), node, bs, k, nexts[k], after[k])
  {
    hide Fast, DispatchedInFour;
    forall k | 0 <= k < |bs| ensures DispatchedInFour(arcs, arcs.Words(), node, bs, k, nexts[k], after[k]) {
      FastReads(arcs, node, bs, k);
    }
  }

  /** Strides and tail together write every next of the frame. */
  method GenericFeatureNodeX4<D>(arcs: Arcs, node: Node<D>, b: array<Buffer<D>>, nexts: array<nat>)
    requires b.Length <= nexts.Length == FRAME_SIZE
    requires forall k :: 0 <= k < b.Length ==> OnArc(arcs, b[k])
    modifies b, nexts
    ensures forall k :: 0 <= k < |old(b[..])| ==> OnArc(arcs, old(b[..])[k])
    ensures forall k :: 0 <= k < b.Length ==> (nexts[k], b[k]) == Fast(arcs, node, old(b[..]), k)
    ensures exists words :: Holds(arcs.featureDataSize, words) && OnHeaps(arcs, words, old(b[..])) && forall k :: 0 <= k < b.Length ==>
      DispatchedInFour(arcs, words, node, old(b[..]), k, nexts[k], b[k])
    ensures forall k :: b.Length <= k < nexts.Length ==> nexts[k] == old(nexts[k])
  {
    hide Fast, FastLane, Stride, FeatureWord, Advanced, Past, DispatchedInFour;
    ghost var was := b[..];
    var len := b.Length;
    var stride := 0;
    while stride < len / 4
      invariant 0 <= stride <= len / 4
      invariant forall k :: 0 <= k < stride * 4 ==> (nexts[k], b[k]) == Fast(arcs, node, was, k)
      invariant forall k :: stride * 4 <= k < len ==> b[k] == was[k]
      invariant forall k :: len <= k < nexts.Length ==> nexts[k] == old(nexts[k])
    {
      var i := stride * 4;
      ProcessStride(arcs, node, b, nexts, i);
      forall k | i <= k < i + 4 ensures (nexts[k], b[k]) == Fast(arcs, node, was, k) {
        FastInStride(arcs, node, was, stride, k);
      }
      stride := stride + 1;
    }
    var i := len / 4 * 4;
    while i < len
      invariant len / 4 * 4 <= i <= len
      invariant forall k :: 0 <= k < i ==> (nexts[k], b[k]) == Fast(arcs, node, was, k)
      invariant forall k :: i <= k < len ==> b[k] == was[k]
      invariant forall k :: len <= k < nexts.Length ==> nexts[k] == old(nexts[k])
    {
      FastInTail(arcs, node, was, i);
      var nextVal := FeatureWord(arcs, b[i]);
      b[i] := Advanced(arcs, b[i]);
      var (next, b0) := node.map1(b[i]);
      b[i] := b0;
      if next.DefinedNode? {
        nextVal := next.next;
      }
      nexts[i] := nextVal;
      i := i + 1;
    }
    FrameReads(arcs, node, was, nexts[..], b[..]);
  }

  // ---- four at a time against one at a time -----------------------------------------------------------

  /** Mapping four buffers is mapping each of them. */
  ghost predicate Pointwise<D(!new)>(node: Node<D>) {
    forall q: Quad<Buffer<D>> :: node.map4(q) == Quad(node.map1(q.a), node.map1(q.b), node.map1(q.c), node.map1(q.d))
  }

  predicate MovesAlong<D(==)>(node: Node<D>, b: Buffer<D>, c: nat) {
    var (next, after) := node.map1(b);
    after.arc == b.arc && node.map1(b.(config := c)) == (next, after.(config := c))
  }

  /** Mapping neither looks at nor changes a buffer's place on its arc. */
  ghost predicate IgnoresPlace<D(!new)>(node: Node<D>) {
    forall b: Buffer<D>, c: nat :: MovesAlong(node, b, c)
  }

  /** Whether buffer `i` takes its next word from the first buffer of its stride. */
  predicate Shares<D>(bs: seq<Buffer<D>>, i: nat)
    requires i < |bs|
  {
    i < |bs| / 4 * 4 && Uniform(Stride(bs, i))
  }

  lemma LaneOfPointwise<D(!new)>(arcs: Arcs, node: Node<D>, q: Quad<Buffer<D>>, i: nat)
    requires QuadOnArc(arcs, q) && i < 4 && Pointwise(node)
    ensures FastLane(arcs, node, q, i) ==
      (Chosen(Guess(arcs, q).0.At(i), node.map1(Guess(arcs, q).1.At(i)).0), node.map1(Guess(arcs, q).1.At(i)).1)
  {}

  lemma SamePlace<D(!new)>(node: Node<D>, b: Buffer<D>)
    requires IgnoresPlace(node)
    ensures node.map1(b).1.config == b.config && node.map1(b).1.arc == b.arc
  {
    assert MovesAlong(node, b, b.config);
    assert b.(config := b.config) == b;
  }

  lemma MapAdvanced<D(!new)>(arcs: Arcs, node: Node<D>, b: Buffer<D>)
    requires IgnoresPlace(node) && OnArc(arcs, b)
    ensures node.map1(Advanced(arcs, b)) == (node.map1(b).0, Advanced(arcs, node.map1(b).1.(config := b.config, arc := b.arc)))
    ensures OnArc(arcs, node.map1(b).1) && FeatureWord(arcs, node.map1(b).1) == FeatureWord(arcs, b)
  {
    SamePlace(node, b);
    assert MovesAlong(node, b, Advanced(arcs, b).config);
  }

  /** The exact condition: four-at-a-time picks the same next for buffer `i` as one-at-a-time if
      and only if the buffer does not share, or goes to a node of its own, or finds at its own
      place the word the first buffer of the stride finds. Payloads always agree. */
  lemma FastAgrees<D(!new)>(arcs: Arcs, node: Node<D>, bs: seq<Buffer<D>>, i: nat)
    requires Pointwise(node) && IgnoresPlace(node)
    requires i < |bs| && forall k :: 0 <= k < |bs| ==> OnArc(arcs, bs[k])
    ensures CanFollow(arcs, node, bs[i])
    ensures Fast(arcs, node, bs, i).0 == Slow(arcs, node, bs[i]).0 <==>
      || !Shares(bs, i)
      || node.map1(bs[i]).0.DefinedNode?
      || FeatureWord(arcs, bs[i]) == FeatureWord(arcs, Stride(bs, i).a)
    ensures Fast(arcs, node, bs, i).1.payload == Slow(arcs, node, bs[i]).1.payload
  {
    hide FeatureWord, IgnoresPlace, Pointwise;
    SamePlace(node, bs[i]);
    MapAdvanced(arcs, node, bs[i]);
    if i < |bs| / 4 * 4 {
      LaneOfPointwise(arcs, node, Stride(bs, i), i % 4);
    }
  }

  lemma SharedWord<D>(arcs: Arcs, bs: seq<Buffer<D>>, k: nat)
    requires k < |bs| && Shares(bs, k) && bs[k].config == Stride(bs, k).a.config && OnArc(arcs, bs[k])
    ensures OnArc(arcs, Stride(bs, k).a) && FeatureWord(arcs, bs[k]) == FeatureWord(arcs, Stride(bs, k).a)
  {
    assert bs[k].arc == Stride(bs, k).a.arc;
  }

  /** Refinement: when buffers that share also share their place, the next vectors are equal. */
  lemma FastRefinesSlow<D(!new)>(arcs: Arcs, node: Node<D>, bs: seq<Buffer<D>>)
    requires Pointwise(node) && IgnoresPlace(node)
    requires forall k :: 0 <= k < |bs| ==> OnArc(arcs, bs[k])
    requires forall k :: 0 <= k < |bs| && Shares(bs, k) ==> bs[k].config == Stride(bs, k).a.config
    ensures forall k :: 0 <= k < |bs| ==>
      CanFollow(arcs, node, bs[k]) && Fast(arcs, node, bs, k).0 == Slow(arcs, node, bs[k]).0
  {
    hide *;
    forall k | 0 <= k < |bs|
      ensures CanFollow(arcs, node, bs[k]) && Fast(arcs, node, bs, k).0 == Slow(arcs, node, bs[k]).0
    {
      FastAgrees(arcs, node, bs, k);
      if Shares(bs, k) { SharedWord(arcs, bs, k); }
    }
  }

  /** Where the buffers stand afterwards: one-at-a-time advances exactly those that follow the
      arc; four-at-a-time advances all but the last three of a sharing stride. */
  lemma PlacesAfter<D(!new)>(arcs: Arcs, node: Node<D>, bs: seq<Buffer<D>>, i: nat)
    requires Pointwise(node) && IgnoresPlace(node)
    requires i < |bs| && forall k :: 0 <= k < |bs| ==> OnArc(arcs, bs[k])
    ensures CanFollow(arcs, node, bs[i])
    ensures Slow(arcs, node, bs[i]).1.config ==
      if node.map1(bs[i]).0.NextFeature? then bs[i].config + arcs.Words() + 1 else bs[i].config
    ensures Fast(arcs, node, bs, i).1.config ==
      if Shares(bs, i) && i % 4 != 0 then bs[i].config else bs[i].config + arcs.Words() + 1
    ensures Fast(arcs, node, bs, i).1.config == Slow(arcs, node, bs[i]).1.config <==>
      (node.map1(bs[i]).0.NextFeature? <==> !Shares(bs, i) || i % 4 == 0)
  {
    hide IgnoresPlace, Pointwise;
    SamePlace(node, bs[i]);
    SamePlace(node, Advanced(arcs, bs[i]));
    MapAdvanced(arcs, node, bs[i]);
    if i < |bs| / 4 * 4 {
      LaneOfPointwise(arcs, node, Stride(bs, i), i % 4);
    }
  }
}
