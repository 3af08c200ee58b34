/** Translation of buffer indices to buffer pointers: a loop unrolled 64, 32, 16 and 8 wide
    against the map it computes, and against the one-at-a-time fallback. */
module GetBuffers {
  import opened MachineArithmetic
  /** Indices count cache lines: the source shifts them left by 6. */
  const CACHE_LINE_BYTES: nat := 64

  function Pow2(k: nat): (p: nat)
    ensures p >= 1
  {
    if k == 0 then 1 else 2 * Pow2(k - 1)
  }

  // ---- rounding up with a mask ------------------------------------------------------------------

  /** Bitwise and of two `w`-bit words. */
  function And(x: nat, y: nat, w: nat): nat {
    if w == 0 then 0 else 2 * And(x / 2, y / 2, w - 1) + (x % 2) * (y % 2)
  }

  /** Bitwise complement of a `w`-bit word. */
  function Not(x: nat, w: nat): nat
    requires x < Pow2(w)
  {
    Pow2(w) - 1 - x
  }

  lemma {:induction false} AndOnes(x: nat, w: nat)
    requires x < Pow2(w)
    ensures And(x, Pow2(w) - 1, w) == x
  {
    if w > 0 { AndOnes(x / 2, w - 1); }
  }

  lemma {:induction false} Pow2Monotone(k: nat, w: nat)
    requires k <= w
    ensures Pow2(k) <= Pow2(w)
  {
    if k < w { Pow2Monotone(k, w - 1); }
  }

  lemma AndEven(x: nat, half: nat, w: nat)
    requires w > 0
    ensures And(x, 2 * half, w) == 2 * And(x / 2, half, w - 1)
  {
    assert 2 * half / 2 == half && 2 * half % 2 == 0;
  }

  lemma HalfWord(x: nat, k: nat, w: nat)
    requires 1 <= k <= w && x < Pow2(w)
    ensures Pow2(k) == 2 * Pow2(k - 1) && x / 2 < Pow2(w - 1)
    ensures Pow2(k - 1) - 1 < Pow2(w - 1) && Pow2(k) - 1 < Pow2(w)
    ensures Not(Pow2(k) - 1, w) == 2 * Not(Pow2(k - 1) - 1, w - 1)
  {
    Pow2Monotone(k - 1, w - 1);
  }

  lemma MaskNothing(x: nat, w: nat)
    requires x < Pow2(w)
    ensures Pow2(0) == 1 && And(x, Not(0, w), w) == x
  {
    AndOnes(x, w);
  }

  lemma HalveQuotient(x: nat, p: nat)
    requires p >= 1
    ensures 2 * (((x / 2) / p) * p) == (x / (2 * p)) * (2 * p)
  {
    var q := (x / 2) / p;
    assert x == q * (2 * p) + 2 * ((x / 2) % p) + x % 2;
    DivModUnique(x, 2 * p, q, 2 * ((x / 2) % p) + x % 2);
    assert 2 * (q * p) == q * (2 * p);
  }

  /** Masking off the low `k` bits rounds down to a multiple of `2^k`. */
  lemma {:induction false} MaskRoundsDown(x: nat, k: nat, w: nat)
    requires k <= w && x < Pow2(w)
    ensures Pow2(k) - 1 < Pow2(w)
    ensures And(x, Not(Pow2(k) - 1, w), w) == (x / Pow2(k)) * Pow2(k)
    decreases w
  {
    hide *;
    if k == 0 {
      MaskNothing(x, w);
    } else {
      HalfWord(x, k, w);
      MaskRoundsDown(x / 2, k - 1, w - 1);
      AndEven(x, Not(Pow2(k - 1) - 1, w - 1), w);
      HalveQuotient(x, Pow2(k - 1));
    }
  }

  /** `(val + pow2 - 1) & !(pow2 - 1)` in 64 bits. */
  function NextMultipleOfPow2(val: nat, k: nat): nat
    requires k <= 64 && val + Pow2(k) - 1 < Pow2(64)
  {
    Pow2Monotone(k, 64);
    And(val + Pow2(k) - 1, Not(Pow2(k) - 1, 64), 64)
  }

  lemma RoundedUp(val: nat, p: nat)
    requires p >= 1
    ensures var m := ((val + p - 1) / p) * p;
            m % p == 0 && val <= m < val + p
  {
    var q := (val + p - 1) / p;
    assert val + p - 1 == q * p + (val + p - 1) % p;
    DivModUnique(q * p, p, q, 0);
  }

  lemma LeastRoundedUp(val: nat, p: nat, n: nat)
    requires p >= 1 && n >= val && n % p == 0
    ensures ((val + p - 1) / p) * p <= n
  {
    RoundedUp(val, p);
    var m := ((val + p - 1) / p) * p;
    var d := m / p - n / p;
    assert d * p == m - n;
    assert d >= 1 ==> d * p >= p;
    assert d <= 0 ==> d * p <= 0;
  }

  /** It is the least multiple of `2^k` that is at least `val`. */
  lemma NextMultipleIsLeast(val: nat, k: nat)
    requires k <= 64 && val + Pow2(k) - 1 < Pow2(64)
    ensures var m := NextMultipleOfPow2(val, k);
            m % Pow2(k) == 0 && val <= m < val + Pow2(k)
    ensures forall n: nat :: n >= val && n % Pow2(k) == 0 ==> NextMultipleOfPow2(val, k) <= n
  {
    hide Pow2, And, Not;
    var p := Pow2(k);
    MaskRoundsDown(val + p - 1, k, 64);
    RoundedUp(val, p);
    forall n: nat | n >= val && n % p == 0 ensures NextMultipleOfPow2(val, k) <= n {
      LeastRoundedUp(val, p, n);
    }
  }

  lemma {:induction false} Pow2Add(a: nat, b: nat)
    ensures Pow2(a + b) == Pow2(a) * Pow2(b)
  {
    if a > 0 {
      Pow2Add(a - 1, b);
      assert 2 * (Pow2(a - 1) * Pow2(b)) == (2 * Pow2(a - 1)) * Pow2(b);
    }
  }

  lemma Pow2Constants()
    ensures Pow2(3) == 8 && Pow2(64) == U64
  {
    assert Pow2(8) == 256;
    Pow2Add(8, 8);
    Pow2Add(16, 16);
    Pow2Add(32, 32);
  }

  // ---- one pointer ---------------------------------------------------------------------------------

  /** The wide path shifts in 64 bits. */
  function WidePointer(memStart: nat, index: nat): nat {
    (index * CACHE_LINE_BYTES % U64 + memStart) % U64
  }

  /** The scalar path shifts in 32 bits. */
  function ScalarPointer(memStart: nat, index: nat): nat {
    (index * CACHE_LINE_BYTES % U32 + memStart) % U64
  }

  lemma SumsApart(a: nat, b: nat, c: nat)
    requires 0 < a - b < U64
    ensures (a + c) % U64 != (b + c) % U64
  {
    var d := (a + c) / U64 - (b + c) / U64;
    assert (a + c) % U64 - (b + c) % U64 == a - b - d * U64;
  }

  /** The two agree exactly on indices below `2^26`. */
  lemma PathsAgree(memStart: nat, index: nat)
    requires index < U32
    ensures WidePointer(memStart, index) == ScalarPointer(memStart, index) <==> index < 0x400_0000
  {
    var a, b := index * CACHE_LINE_BYTES, index * CACHE_LINE_BYTES % U32;
    assert a < U64 && a % U64 == a;
    if index < 0x400_0000 {
      assert a < U32;
    } else {
      assert a >= U32 && 0 < a - b < U64;
      SumsApart(a, b, memStart);
    }
  }

  /** The wide path gives the address `64 * index` bytes behind the start, in 64 bits; the scalar path
      cuts the offset to 32 bits first. Below the end of the address space the wide pointer is the plain
      offset. */
  lemma PointerIsOffset(memStart: nat, index: nat)
    ensures WidePointer(memStart, index) == (memStart + 64 * index) % 0x1_0000_0000_0000_0000
    ensures ScalarPointer(memStart, index) == (memStart + 64 * index % 0x1_0000_0000) % 0x1_0000_0000_0000_0000
    ensures memStart + 64 * index < 0x1_0000_0000_0000_0000 ==> WidePointer(memStart, index) == memStart + 64 * index
  {
    ModOfSum(64 * index, memStart, U64);
  }

  // ---- eight at a time ----------------------------------------------------------------------------

  function Loaded(from: seq<nat>, off: nat): (v: seq<nat>)
    requires off + 8 <= |from|
    ensures |v| == 8
  {
    from[off..off + 8]
  }

  function Shifted(v: seq<nat>): (r: seq<nat>)
    requires |v| == 8
    ensures |r| == 8 && forall j :: 0 <= j < 8 ==> r[j] == v[j] * CACHE_LINE_BYTES % U64
  {
    seq(8, j requires 0 <= j < 8 => v[j] * CACHE_LINE_BYTES % U64)
  }

  function Added(v: seq<nat>, value: nat): (r: seq<nat>)
    requires |v| == 8
    ensures |r| == 8 && forall j :: 0 <= j < 8 ==> r[j] == (v[j] + value) % U64
  {
    seq(8, j requires 0 <= j < 8 => (v[j] + value) % U64)
  }

  ghost predicate SameOutside(was: seq<nat>, now: seq<nat>, lo: nat, hi: nat) {
    |was| == |now| && forall i :: 0 <= i < |was| && !(lo <= i < hi) ==> now[i] == was[i]
  }

  method StoreX8(v: seq<nat>, to: array<nat>, off: nat)
    requires |v| == 8 && off + 8 <= to.Length
    modifies to
    ensures forall i :: off <= i < off + 8 ==> to[i] == v[i - off]
    ensures SameOutside(old(to[..]), to[..], off, off + 8)
  {
    to[off + 0] := v[0];
    to[off + 1] := v[1];
    to[off + 2] := v[2];
    to[off + 3] := v[3];
    to[off + 4] := v[4];
    to[off + 5] := v[5];
    to[off + 6] := v[6];
    to[off + 7] := v[7];
  }

  ghost predicate Translated(memStart: nat, from: seq<nat>, to: seq<nat>, lo: nat, hi: nat) {
    hi <= |from| && hi <= |to| && forall i :: lo <= i < hi ==> to[i] == WidePointer(memStart, from[i])
  }

  method TranslateX8(memStart: nat, from: seq<nat>, to: array<nat>, off: nat)
    requires off + 8 <= |from| && off + 8 <= to.Length
    modifies to
    ensures Translated(memStart, from, to[..], off, off + 8)
    ensures SameOutside(old(to[..]), to[..], off, off + 8)
  {
    var v := Added(Shifted(Loaded(from, off)), memStart);
    ghost var was := to[..];
    StoreX8(v, to, off);
    forall i | off <= i < off + 8 ensures to[..][i] == WidePointer(memStart, from[i]) {
      assert to[..][i] == v[i - off];
    }
  }

  method TranslateX16(memStart: nat, from: seq<nat>, to: array<nat>, off: nat)
    requires off + 16 <= |from| && off + 16 <= to.Length
    modifies to
    ensures Translated(memStart, from, to[..], off, off + 16)
    ensures SameOutside(old(to[..]), to[..], off, off + 16)
  {
    TranslateX8(memStart, from, to, off);
    TranslateX8(memStart, from, to, off + 8);
  }

  method TranslateX32(memStart: nat, from: seq<nat>, to: array<nat>, off: nat)
    requires off + 32 <= |from| && off + 32 <= to.Length
    modifies to
    ensures Translated(memStart, from, to[..], off, off + 32)
    ensures SameOutside(old(to[..]), to[..], off, off + 32)
  {
    TranslateX16(memStart, from, to, off);
    TranslateX16(memStart, from, to, off + 16);
  }

  method TranslateX64(memStart: nat, from: seq<nat>, to: array<nat>, off: nat)
    requires off + 64 <= |from| && off + 64 <= to.Length
    modifies to
    ensures Translated(memStart, from, to[..], off, off + 64)
    ensures SameOutside(old(to[..]), to[..], off, off + 64)
  {
    TranslateX32(memStart, from, to, off);
    TranslateX32(memStart, from, to, off + 32);
  }

  /** One index at a time, for capacities that are no multiple of 8. */
  method TranslateScalar(memStart: nat, from: seq<nat>, len: nat, to: array<nat>)
    requires len <= to.Length && len <= |from|
    modifies to
    ensures forall i :: 0 <= i < len ==> to[i] == ScalarPointer(memStart, from[i])
    ensures SameOutside(old(to[..]), to[..], 0, len)
  {
    hide ScalarPointer;
    var n := 0;
    while n < len
      invariant 0 <= n <= len
      invariant forall i :: 0 <= i < n ==> to[i] == ScalarPointer(memStart, from[i])
      invariant forall i :: n <= i < to.Length ==> to[i] == old(to[i])
    {
      to[n] := ScalarPointer(memStart, from[n]);
      n := n + 1;
    }
  }

  lemma NothingYet(memStart: nat, from: seq<nat>, to: seq<nat>)
    ensures Translated(memStart, from, to, 0, 0) && SameOutside(to, to, 0, 0)
  {}

  lemma Extended(memStart: nat, from: seq<nat>, was: seq<nat>, mid: seq<nat>, now: seq<nat>, off: nat, hi: nat)
    requires off <= hi && Translated(memStart, from, mid, 0, off) && SameOutside(was, mid, 0, off)
    requires Translated(memStart, from, now, off, hi) && SameOutside(mid, now, off, hi)
    ensures Translated(memStart, from, now, 0, hi) && SameOutside(was, now, 0, hi)
  {
    hide WidePointer;
  }

  /** The ladder of 64, 32, 16 and 8 leaves nothing of a multiple of 8. */
  method TranslateWide(memStart: nat, from: seq<nat>, all: nat, to: array<nat>)
    requires all % 8 == 0 && all <= |from| && all <= to.Length
    modifies to
    ensures Translated(memStart, from, to[..], 0, all)
    ensures SameOutside(old(to[..]), to[..], 0, all)
  {
    hide *;
    ghost var was := to[..];
    NothingYet(memStart, from, was);
    var off, rest := 0, all;
    while rest >= 64
      invariant 0 <= rest && off + rest == all && rest % 8 == 0
      invariant Translated(memStart, from, to[..], 0, off) && SameOutside(was, to[..], 0, off)
    {
      ghost var mid := to[..];
      TranslateX64(memStart, from, to, off);
      Extended(memStart, from, was, mid, to[..], off, off + 64);
      off, rest := off + 64, rest - 64;
    }
    if rest >= 32 {
      ghost var mid := to[..];
      TranslateX32(memStart, from, to, off);
      Extended(memStart, from, was, mid, to[..], off, off + 32);
      off, rest := off + 32, rest - 32;
    }
    if rest >= 16 {
      ghost var mid := to[..];
      TranslateX16(memStart, from, to, off);
      Extended(memStart, from, was, mid, to[..], off, off + 16);
      off, rest := off + 16, rest - 16;
    }
    if rest > 0 {
      ghost var mid := to[..];
      TranslateX8(memStart, from, to, off);
      Extended(memStart, from, was, mid, to[..], off, off + 8);
    }
  }

  lemma Shortened(memStart: nat, from: seq<nat>, to: seq<nat>, len: nat, hi: nat)
    requires Translated(memStart, from, to, 0, hi) && len <= hi
    ensures Translated(memStart, from, to, 0, len)
  {}

  /** The rounded length stays within both buffers, so nothing is read or written past them. */
  lemma WideBounds(len: nat, fromLen: nat, toLen: nat)
    requires len <= fromLen && len <= toLen && fromLen % 8 == 0 && toLen % 8 == 0 && toLen + 8 < U64
    ensures Pow2(3) == 8 && len + 7 < Pow2(64)
    ensures NextMultipleOfPow2(len, 3) % 8 == 0 && len <= NextMultipleOfPow2(len, 3)
    ensures NextMultipleOfPow2(len, 3) <= fromLen && NextMultipleOfPow2(len, 3) <= toLen
  {
    hide Pow2, NextMultipleOfPow2;
    Pow2Constants();
    NextMultipleIsLeast(len, 3);
  }

  /** `get_buffers`. `from` is the memory behind the index slice, readable up to a multiple of 8;
      `len` indices are wanted; `to` is the storage of an `ArrayVec` of capacity `to.Length`. */
  method Translate(memStart: nat, from: seq<nat>, len: nat, to: array<nat>) returns (toLen: nat)
    requires len <= to.Length && to.Length + 8 < U64 && len <= |from|
    requires |from| % 8 == 0
    modifies to
    ensures toLen == len
    ensures to.Length % 8 == 0 ==> Translated(memStart, from, to[..], 0, len)
    ensures to.Length % 8 != 0 ==> forall i :: 0 <= i < len ==> to[i] == ScalarPointer(memStart, from[i])
    ensures to.Length % 8 != 0 ==> SameOutside(old(to[..]), to[..], 0, len)
    ensures to.Length % 8 == 0 ==>
      Pow2(3) == 8 && len + 7 < Pow2(64) && NextMultipleOfPow2(len, 3) <= to.Length
      && SameOutside(old(to[..]), to[..], 0, NextMultipleOfPow2(len, 3))
  {
    hide *;
    toLen := len;
    if to.Length % 8 != 0 {
      TranslateScalar(memStart, from, len, to);
      return;
    }
    WideBounds(len, |from|, to.Length);
    var all := NextMultipleOfPow2(len, 3);
    TranslateWide(memStart, from, all, to);
    Shortened(memStart, from, to[..], len, all);
  }
}
