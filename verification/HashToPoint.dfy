/** Falcon's hash-to-point (src/common.cpp): the plain rejection loop and the branch-free
    sampler that squeezes the rejected values out with a logarithmic number of masked swaps. */
module HashToPoint {
  import opened Bits

  type u8 = x: int | 0 <= x < 0x100
  type u16 = x: int | 0 <= x < 0x1_0000
  type u32 = x: int | 0 <= x < 0x1_0000_0000

  /** A rejected value. */
  const REJECT: u16 := 0xFFFF
  const Q: nat := 12289
  const LIMIT: nat := 61445

  // ---------- the specification: section 3.7 of the Falcon specification ----------

  type Stream = nat -> u8

  /** The i-th 16-bit big-endian sample of the stream from position pos. */
  function Sample(out: Stream, pos: nat, i: nat): u16 {
    out(pos + 2 * i) * 256 + out(pos + 2 * i + 1)
  }

  /** Samples are ordered as their bytes are, the first one deciding. */
  lemma SampleOrder(out: Stream, pos: nat, i: nat, j: nat)
    ensures Sample(out, pos, i) < Sample(out, pos, j) <==>
      || out(pos + 2 * i) < out(pos + 2 * j)
      || (out(pos + 2 * i) == out(pos + 2 * j) && out(pos + 2 * i + 1) < out(pos + 2 * j + 1))
  {
  }

  /** Every coordinate comes from exactly five samples, so that the coordinates are as evenly distributed as
      the samples are. */
  lemma FiveSamples(r: nat, w: u16)
    requires r < Q
    ensures w < LIMIT && w % Q == r <==> w in {r, r + Q, r + 2 * Q, r + 3 * Q, r + 4 * Q}
    ensures |{r, r + Q, r + 2 * Q, r + 3 * Q, r + 4 * Q}| == 5 && r + 4 * Q < LIMIT
  {
    var s := {r, r + Q, r + 2 * Q, r + 3 * Q};
    assert s == {r, r + Q, r + 2 * Q} + {r + 3 * Q} && |{r, r + Q, r + 2 * Q}| == 3;
    assert {r, r + Q, r + 2 * Q, r + 3 * Q, r + 4 * Q} == s + {r + 4 * Q};
  }

  /** The values kept among the first k samples, reduced modulo q, in order. */
  function Accepted(out: Stream, pos: nat, k: nat): seq<u16> {
    if k == 0 then [] else
      var w := Sample(out, pos, k - 1);
      if w < LIMIT then Accepted(out, pos, k - 1) + [w % Q] else Accepted(out, pos, k - 1)
  }

  /** xs is the point of n coordinates that rejection sampling reads from the stream. */
  ghost predicate IsPoint(out: Stream, pos: nat, n: nat, xs: seq<u16>) {
    exists k: nat :: Accepted(out, pos, k) == xs && |xs| == n
  }

  lemma {:induction false} AcceptedPrefix(out: Stream, pos: nat, k: nat, k': nat)
    requires k <= k'
    ensures Accepted(out, pos, k) <= Accepted(out, pos, k')
  {
    if k >= k' {
    } else {
      AcceptedPrefix(out, pos, k, k' - 1);
    }
  }

  /** The point does not depend on how far the stream is read. */
  lemma PointUnique(out: Stream, pos: nat, n: nat, xs: seq<u16>, k: nat)
    requires IsPoint(out, pos, n, xs)
    requires |Accepted(out, pos, k)| >= n
    ensures xs == Accepted(out, pos, k)[..n]
  {
    var k0: nat :| Accepted(out, pos, k0) == xs;
    if k0 <= k { AcceptedPrefix(out, pos, k0, k); } else { AcceptedPrefix(out, pos, k, k0); }
  }

  lemma {:induction false} PrefixIsPoint(out: Stream, pos: nat, n: nat, k: nat)
    requires |Accepted(out, pos, k)| >= n
    ensures IsPoint(out, pos, n, Accepted(out, pos, k)[..n])
  {
    if |Accepted(out, pos, k)| == n {
      assert Accepted(out, pos, k)[..n] == Accepted(out, pos, k);
    } else {
      PrefixIsPoint(out, pos, n, k - 1);
      AcceptedPrefix(out, pos, k - 1, k);
    }
  }

  // ---------- the extendable-output context ----------

  /** A flipped SHAKE256 context: the stream it squeezes and the position reached. */
  class ShakeContext {
    const out: Stream
    var pos: nat

    constructor (out: Stream)
      ensures this.out == out && pos == 0
    {
      this.out := out;
      pos := 0;
    }

    method ExtractTwo() returns (b0: u8, b1: u8)
      modifies this
      ensures pos == old(pos) + 2
      ensures b0 == out(old(pos)) && b1 == out(old(pos) + 1)
    {
      b0, b1 := out(pos), out(pos + 1);
      pos := pos + 2;
    }
  }

  // ---------- the variable-time sampler ----------

  lemma NotYetEnough(out: Stream, pos: nat, read: nat, bound: nat, n: nat)
    requires |Accepted(out, pos, bound)| >= n
    ensures |Accepted(out, pos, read)| < n ==> read < bound
  {
    if bound <= read { AcceptedPrefix(out, pos, bound, read); }
  }

  /** The inner loop: repeated subtraction is the remainder. */
  method SubtractQ(w0: nat) returns (w: nat)
    ensures w == w0 % Q
  {
    w := w0;
    ghost var times := 0;
    while w >= Q
      invariant w0 == times * Q + w
    {
      w := w - Q;
      times := times + 1;
    }
    DivUnique(w0, Q, times, w);
  }

  /** The rejection loop.  It ends exactly because the stream still holds enough acceptable
      samples, and it leaves the context right after the last one used. */
  method VarTime(sc: ShakeContext, x: array<u16>, logn: nat)
    requires x.Length == Pow2(logn)
    requires exists k: nat :: |Accepted(sc.out, sc.pos, k)| >= x.Length
    modifies sc, x
    ensures IsPoint(sc.out, old(sc.pos), x.Length, x[..])
    ensures exists k: nat :: sc.pos == old(sc.pos) + 2 * k && Accepted(sc.out, old(sc.pos), k) == x[..]
    ensures forall i :: 0 <= i < x.Length ==> x[i] < Q
  {
    ghost var base := sc.pos;
    ghost var bound: nat :| |Accepted(sc.out, base, bound)| >= x.Length;
    ghost var read: nat := 0;
    var n := x.Length;
    var at := 0;
    while n > 0
      invariant 0 <= n && at == x.Length - n
      invariant sc.pos == base + 2 * read
      invariant Accepted(sc.out, base, read) == x[..at]
      invariant forall i :: 0 <= i < at ==> x[i] < Q
      invariant n > 0 ==> read < bound
      decreases bound - read
    {
      var b0, b1 := sc.ExtractTwo();
      var w: nat := b0 as int * 256 + b1;
      read := read + 1;
      if w < LIMIT {
        var r := SubtractQ(w);
        x[at] := r;
        at := at + 1;
        n := n - 1;
      }
      NotYetEnough(sc.out, base, read, bound, x.Length);
    }
    assert x[..] == x[..at];
    assert Accepted(sc.out, base, read) == x[..];
  }

  // ---------- branch-free word arithmetic ----------

  function Sub32(a: u32, b: u32): u32 {
    if a >= b then a - b else a - b + 0x1_0000_0000
  }

  function Neg32(a: u32): u32 {
    Sub32(0, a)
  }

  function And32(a: u32, b: u32): (r: u32)
  {
    AndSmall(a, b);
    And(a, b)
  }

  function Or32(a: u32, b: u32): (r: u32) {
    Pow2Values();
    OrTop(a, b, 31);
    Or(a, b)
  }

  function Xor32(a: u32, b: u32): (r: u32) {
    Pow2Values();
    XorBound(a, b, 32);
    Xor(a, b)
  }

  lemma MaskAnd(a: u32)
    ensures And32(a, 0) == 0 && And32(0, a) == 0
    ensures And32(a, 0xFFFF_FFFF) == a && And32(0xFFFF_FFFF, a) == a
  {
    Pow2Values();
    AndOnes(a, 32);
    AndCommutes(a, 0xFFFF_FFFF);
  }

  /** w less t if that is not negative, and w otherwise, without a branch. */
  function StepDown(w: u32, t: u32): u32 {
    Sub32(w, And32(t, Sub32(Sub32(w, t) / 0x8000_0000, 1)))
  }

  lemma StepDownIs(w: u32, t: u32)
    requires w < 0x8000_0000 && t < 0x8000_0000
    ensures StepDown(w, t) == if w >= t then w - t else w
  {
    MaskAnd(t);
    if w >= t {
      assert Sub32(w, t) / 0x8000_0000 == 0;
    } else {
      assert Sub32(w, t) / 0x8000_0000 == 1;
    }
  }

  /** The reduced sample, or all ones for a rejected one: the four masked steps of the source. */
  function ReduceSample(w: u16): u16 {
    var wr := StepDown(w, 24578);
    var wr := StepDown(wr, 24578);
    var wr := StepDown(wr, 12289);
    Or32(wr, Sub32(Sub32(w, 61445) / 0x8000_0000, 1)) % 0x1_0000
  }

  lemma ReduceSampleIs(w: u16)
    ensures ReduceSample(w) == if w < LIMIT then w % Q else REJECT
  {
    var w1 := StepDown(w, 24578);
    var w2 := StepDown(w1, 24578);
    var w3 := StepDown(w2, 12289);
    StepDownIs(w, 24578);
    StepDownIs(w1, 24578);
    StepDownIs(w2, 12289);
    StepsReduce(w, w1, w2, w3);
    RejectMask(w, w3);
  }

  lemma StepsReduce(w: u16, w1: nat, w2: nat, w3: nat)
    requires w1 == if w >= 24578 then w - 24578 else w
    requires w2 == if w1 >= 24578 then w1 - 24578 else w1
    requires w3 == if w2 >= 12289 then w2 - 12289 else w2
    ensures w3 < 0x1_0000 && (w < LIMIT ==> w3 == w % Q)
  {
    if w < LIMIT {
      var c := (if w >= 24578 then 2 else 0) + (if w1 >= 24578 then 2 else 0) + (if w2 >= 12289 then 1 else 0);
      DivUnique(w, Q, c, w3);
    }
  }

  lemma RejectMask(w: u16, wr: u16)
    ensures Or32(wr, Sub32(Sub32(w, 61445) / 0x8000_0000, 1)) % 0x1_0000 == if w < LIMIT then wr else REJECT
  {
    if w < LIMIT {
      assert Sub32(Sub32(w, 61445) / 0x8000_0000, 1) == 0;
      assert Or(wr, 0) == wr;
    } else {
      assert Sub32(Sub32(w, 61445) / 0x8000_0000, 1) == 0xFFFF_FFFF;
      Pow2Values();
      OrOnes(wr, 32);
    }
  }

  // ---------- where the values sit while they are squeezed together ----------

  /** The values among the first k of b that are not rejected, in order. */
  function Kept(b: seq<int>, k: nat): (r: seq<int>)
    requires k <= |b|
    ensures |r| <= k
  {
    if k == 0 then [] else
      if b[k - 1] != REJECT then Kept(b, k - 1) + [b[k - 1]] else Kept(b, k - 1)
  }

  /** Value number i is d[i] slots above place i, and every other of the m slots is rejected;
      own[q] names the value in slot q. */
  ghost predicate Layout(b: seq<int>, m: nat, vals: seq<int>, d: seq<int>, own: seq<int>) {
    && m <= |b| && |d| == |vals| && |own| == m
    && (forall i :: 0 <= i < |d| ==> 0 <= d[i] && i + d[i] < m && own[i + d[i]] == i)
    && (forall q :: 0 <= q < m ==>
        if own[q] == -1 then b[q] == REJECT
        else 0 <= own[q] < |d| && q == own[q] + d[own[q]] && b[q] == vals[own[q]])
  }

  ghost predicate Ascending(d: seq<int>) {
    forall i, i' :: 0 <= i <= i' < |d| ==> d[i] <= d[i']
  }

  ghost predicate AtMost(d: seq<int>, g: int) {
    forall i :: 0 <= i < |d| ==> d[i] <= g
  }

  ghost predicate Small(vals: seq<int>) {
    forall i :: 0 <= i < |vals| ==> vals[i] < Q
  }

  ghost predicate Settled(b: seq<int>, k: nat, vals: seq<int>, d: seq<int>, own: seq<int>) {
    Layout(b, k, vals, d, own) && Ascending(d) && AtMost(d, k - |vals|)
  }

  /** Before the first pass every kept value is as far up as there are rejected ones before it. */
  lemma {:induction false} InitialLayout(b: seq<int>, k: nat) returns (d: seq<int>, own: seq<int>)
    requires k <= |b|
    ensures Settled(b, k, Kept(b, k), d, own)
  {
    if k == 0 {
      d, own := [], [];
    } else {
      d, own := InitialLayout(b, k - 1);
      var vals := Kept(b, k - 1);
      if b[k - 1] == REJECT {
        SkipSlot(b, k - 1, vals, d, own);
        own := own + [-1];
      } else {
        TakeSlot(b, k - 1, vals, d, own);
        d, own := d + [k - 1 - |vals|], own + [|vals|];
      }
    }
  }

  lemma SkipSlot(b: seq<int>, k: nat, vals: seq<int>, d: seq<int>, own: seq<int>)
    requires k < |b| && Settled(b, k, vals, d, own) && b[k] == REJECT
    ensures Settled(b, k + 1, vals, d, own + [-1])
  {
  }

  lemma TakeSlot(b: seq<int>, k: nat, vals: seq<int>, d: seq<int>, own: seq<int>)
    requires k < |b| && |vals| <= k && Settled(b, k, vals, d, own) && b[k] != REJECT
    ensures Settled(b, k + 1, vals + [b[k]], d + [k - |vals|], own + [|vals|])
  {
    hide Layout, Ascending, AtMost;
    TakeLayout(b, k, vals, d, own);
    TakeOrder(d, k - |vals|);
  }

  lemma TakeOrder(d: seq<int>, g: int)
    requires Ascending(d) && AtMost(d, g)
    ensures Ascending(d + [g]) && AtMost(d + [g], g)
  {
  }

  lemma TakeLayout(b: seq<int>, k: nat, vals: seq<int>, d: seq<int>, own: seq<int>)
    requires k < |b| && |vals| <= k && Layout(b, k, vals, d, own) && b[k] != REJECT
    ensures |d| == |vals| && Layout(b, k + 1, vals + [b[k]], d + [k - |vals|], own + [|vals|])
  {
    var vals', d', own' := vals + [b[k]], d + [k - |vals|], own + [|vals|];
    forall i | 0 <= i < |d'| ensures 0 <= d'[i] && i + d'[i] < k + 1 && own'[i + d'[i]] == i {
      if i < |d| { assert d'[i] == d[i] && own[i + d[i]] == i; }
    }
    forall q | 0 <= q < k + 1
      ensures if own'[q] == -1 then b[q] == REJECT
        else 0 <= own'[q] < |d'| && q == own'[q] + d'[own'[q]] && b[q] == vals'[own'[q]]
    {
      if q < k { assert own'[q] == own[q]; }
    }
  }

  /** d with its k lowest bits cleared, one at a time. */
  function Cleared(d: nat, k: nat): (r: nat)
    ensures r <= d
  {
    if k == 0 then d else
      var e := Cleared(d, k - 1);
      if Bit(e, k - 1) && Pow2(k - 1) <= e then e - Pow2(k - 1) else e
  }

  lemma {:induction false} ClearedIs(d: nat, k: nat)
    ensures Cleared(d, k) == d / Pow2(k) * Pow2(k)
  {
    if k == 0 {
    } else {
      ClearedIs(d, k - 1);
      var p := Pow2(k - 1);
      DivUnique(Cleared(d, k - 1), p, d / p, 0);
      ClearOneBit(d, p);
    }
  }

  lemma ClearOneBit(d: nat, p: nat)
    requires p > 0
    ensures (d / p) % 2 == 1 ==> d / p * p >= p
    ensures d / (2 * p) * (2 * p) == d / p * p - (if (d / p) % 2 == 1 then p else 0)
  {
    var c := d / p;
    var e := c / 2;
    DivModEq(d, p);
    if c % 2 == 1 {
      OddTimes(c, e, p);
      DivUnique(d, 2 * p, e, p + d % p);
    } else {
      EvenTimes(c, e, p);
      DivUnique(d, 2 * p, e, d % p);
    }
  }

  lemma OddTimes(c: nat, e: nat, p: nat)
    requires c == 2 * e + 1
    ensures c * p == e * (2 * p) + p
  {
  }

  lemma EvenTimes(c: nat, e: nat, p: nat)
    requires c == 2 * e
    ensures c * p == e * (2 * p)
  {
  }

  lemma DivMono(a: nat, b: nat, p: nat)
    requires a <= b && p > 0
    ensures a / p <= b / p
  {
    DivModEq(a, p);
    DivModEq(b, p);
    if a / p > b / p {
      MulMono(b / p + 1, a / p, p);
      assert false;
    }
  }

  lemma ClearedMono(a: nat, b: nat, k: nat)
    requires a <= b
    ensures Cleared(a, k) <= Cleared(b, k)
  {
    ClearedIs(a, k);
    ClearedIs(b, k);
    DivMono(a, b, Pow2(k));
    MulMono(a / Pow2(k), b / Pow2(k), Pow2(k));
  }

  lemma ClearedZero(d: nat, k: nat)
    requires d < Pow2(k)
    ensures Cleared(d, k) == 0
  {
    ClearedIs(d, k);
    DivUnique(d, Pow2(k), 0, d);
  }

  /** Cleared(d, k) has no bit below k, so testing bit k decides the whole next step. */
  lemma ClearedStep(d: nat, k: nat)
    ensures Bit(Cleared(d, k), k) ==> Pow2(k) <= Cleared(d, k)
    ensures Cleared(d, k + 1) == Cleared(d, k) - (if Bit(Cleared(d, k), k) then Pow2(k) else 0)
  {
    var e := Cleared(d, k);
    if e < Pow2(k) {
      DivUnique(e, Pow2(k), 0, e);
    }
  }

  function ClearAll(d: seq<int>, k: nat): (r: seq<int>)
    requires forall i :: 0 <= i < |d| ==> d[i] >= 0
    ensures |r| == |d| && forall i :: 0 <= i < |d| ==> r[i] == Cleared(d[i], k)
  {
    seq(|d|, i requires 0 <= i < |d| => Cleared(d[i], k))
  }

  // ---------- one pass ----------

  /** From gaps d, one pass takes away p where the p bit is set and nothing elsewhere. */
  ghost predicate PassGaps(d: seq<int>, d': seq<int>, p: nat) {
    && |d| == |d'| && p > 0
    && Ascending(d) && Ascending(d')
    && forall i :: 0 <= i < |d| ==> 0 <= d'[i] && (d'[i] == d[i] || d'[i] == d[i] - p)
  }

  /** What holds in the middle of a pass, with dm the gaps at that moment: the first v values
      have already made their jump, the others wait at u or above. */
  ghost predicate Midway(d: seq<int>, d': seq<int>, u: nat, v: nat, dm: seq<int>) {
    && |d| == |d'| == |dm| && v <= |dm| && v <= u
    && (forall i :: 0 <= i < v ==> dm[i] == d'[i] && i + d[i] < u)
    && (forall i :: v <= i < |dm| ==> dm[i] == d[i] && i + d[i] >= u)
  }

  /** A value met at slot u is value number v, and u - v is the rest of its way. */
  lemma SourceIsNext(b: seq<int>, m: nat, vals: seq<int>, d: seq<int>, d': seq<int>, p: nat, u: nat, v: nat,
                     dm: seq<int>, own: seq<int>)
    requires PassGaps(d, d', p) && Layout(b, m, vals, dm, own) && Midway(d, d', u, v, dm)
    requires u < m && b[u] != REJECT
    ensures v < |vals| && u == v + d[v] && own[u] == v
  {
    var i := own[u];
    assert i >= v;
    assert d[v] <= d[i];
  }

  /** The key step: whenever a value has to jump by p, the slot it jumps to is free. */
  lemma DestinationIsFree(b: seq<int>, m: nat, vals: seq<int>, d: seq<int>, d': seq<int>, p: nat, u: nat, v: nat,
                          dm: seq<int>, own: seq<int>)
    requires PassGaps(d, d', p) && Layout(b, m, vals, dm, own) && Midway(d, d', u, v, dm)
    requires u < m && v < |vals| && u == v + d[v] && d'[v] == d[v] - p
    ensures u >= p && own[u - p] == -1
  {
    assert forall i :: 0 <= i < v ==> d'[i] <= d'[v];
  }

  lemma StayMidway(b: seq<int>, m: nat, vals: seq<int>, d: seq<int>, d': seq<int>, p: nat, u: nat, v: nat,
                   dm: seq<int>, own: seq<int>)
    requires Small(vals) && PassGaps(d, d', p) && Layout(b, m, vals, dm, own) && Midway(d, d', u, v, dm)
    requires u < m && (b[u] != REJECT ==> v < |vals| && u == v + d[v] && d'[v] == d[v])
    ensures Midway(d, d', u + 1, if b[u] == REJECT then v else v + 1, dm)
  {
    if b[u] == REJECT {
      forall i | v <= i < |vals| ensures i + d[i] >= u + 1 {
        assert dm[i] == d[i];
        assert vals[i] < Q;
      }
    }
  }

  lemma JumpMidway(b: seq<int>, m: nat, vals: seq<int>, d: seq<int>, d': seq<int>, p: nat, u: nat, v: nat,
                   dm: seq<int>, own: seq<int>, b': seq<int>)
    requires PassGaps(d, d', p) && Layout(b, m, vals, dm, own) && Midway(d, d', u, v, dm)
    requires u < m && v < |vals| && u == v + d[v] && d'[v] == d[v] - p
    requires u >= p && b' == b[u := b[u - p]][u - p := b[u]]
    ensures Layout(b', m, vals, dm[v := d'[v]], own[u := -1][u - p := v])
    ensures Midway(d, d', u + 1, v + 1, dm[v := d'[v]])
  {
    DestinationIsFree(b, m, vals, d, d', p, u, v, dm, own);
    JumpLayout(b, m, vals, dm, u, v, p, own, b');
  }

  lemma JumpLayout(b: seq<int>, m: nat, vals: seq<int>, dm: seq<int>, u: nat, v: nat, p: nat, own: seq<int>,
                   b': seq<int>)
    requires Layout(b, m, vals, dm, own) && v < |vals| && 0 < p <= dm[v] && u == v + dm[v] && own[u - p] == -1
    requires b' == b[u := b[u - p]][u - p := b[u]]
    ensures Layout(b', m, vals, dm[v := dm[v] - p], own[u := -1][u - p := v])
  {
  }

  /** The gaps before pass k and after it. */
  lemma PassGapsFor(d: seq<int>, k: nat)
    requires Ascending(d) && forall i :: 0 <= i < |d| ==> d[i] >= 0
    ensures PassGaps(ClearAll(d, k), ClearAll(d, k + 1), Pow2(k))
    ensures forall i :: 0 <= i < |d| ==>
      ClearAll(d, k + 1)[i] == ClearAll(d, k)[i] - (if Bit(ClearAll(d, k)[i], k) then Pow2(k) else 0)
  {
    forall i | 0 <= i < |d|
      ensures ClearAll(d, k + 1)[i] == ClearAll(d, k)[i] - (if Bit(ClearAll(d, k)[i], k) then Pow2(k) else 0)
    {
      ClearedStep(d[i], k);
    }
    ClearAllAscends(d, k);
    ClearAllAscends(d, k + 1);
  }

  lemma ClearAllAscends(d: seq<int>, k: nat)
    requires Ascending(d) && forall i :: 0 <= i < |d| ==> d[i] >= 0
    ensures Ascending(ClearAll(d, k))
  {
    forall i, i' | 0 <= i <= i' < |d| ensures ClearAll(d, k)[i] <= ClearAll(d, k)[i'] {
      ClearedMono(d[i], d[i'], k);
    }
  }

  // ---------- the branch-free sampler ----------

  /** How many samples beyond n are drawn, by logn. */
  function Over(logn: nat): nat
    requires 1 <= logn <= 10
  {
    [65, 67, 71, 77, 86, 100, 122, 154, 205, 287][logn - 1]
  }

  /** The three buffers seen as one: x, then tt1, then tt2. */
  ghost function Whole(x: array<u16>, tt1: array<u16>, tt2: array<u16>): seq<int>
    reads x, tt1, tt2
  {
    x[..] + tt1[..] + tt2[..]
  }

  lemma WholeStart(x: array<u16>, tt1: array<u16>, tt2: array<u16>)
    ensures Whole(x, tt1, tt2)[..x.Length] == x[..]
  {
  }

  ghost predicate Buffers(x: array<u16>, tt1: array<u16>, tt2: array<u16>, logn: nat) {
    && x != tt1 && x != tt2 && tt1 != tt2
    && 1 <= logn <= 10
    && x.Length == tt1.Length == Pow2(logn) && tt2.Length == 63
  }

  method Load(x: array<u16>, tt1: array<u16>, tt2: array<u16>, n: nat, u: nat) returns (w: u16)
    requires x.Length == tt1.Length == n && u < 2 * n + tt2.Length
    ensures w == Whole(x, tt1, tt2)[u]
  {
    if u < n {
      w := x[u];
    } else if u < 2 * n {
      w := tt1[u - n];
    } else {
      w := tt2[u - 2 * n];
    }
  }

  method Store(x: array<u16>, tt1: array<u16>, tt2: array<u16>, n: nat, u: nat, w: u16)
    requires x != tt1 && x != tt2 && tt1 != tt2
    requires x.Length == tt1.Length == n && u < 2 * n + tt2.Length
    modifies x, tt1, tt2
    ensures Whole(x, tt1, tt2) == old(Whole(x, tt1, tt2))[u := w]
  {
    if u < n {
      x[u] := w;
    } else if u < 2 * n {
      tt1[u - n] := w;
    } else {
      tt2[u - 2 * n] := w;
    }
  }

  /** Draws the m samples into the three buffers, reduced, the rejected ones marked. */
  method Draw(sc: ShakeContext, x: array<u16>, tt1: array<u16>, tt2: array<u16>, logn: nat)
    requires Buffers(x, tt1, tt2, logn)
    modifies sc, x, tt1, tt2
    ensures sc.pos == old(sc.pos) + 2 * (x.Length + Over(logn))
    ensures x.Length + Over(logn) <= |Whole(x, tt1, tt2)|
    ensures Kept(Whole(x, tt1, tt2), x.Length + Over(logn)) == Accepted(sc.out, old(sc.pos), x.Length + Over(logn))
  {
    var n := x.Length;
    var m := n + Over(logn);
    FitsBuffers(logn);
    ghost var base := sc.pos;
    for u := 0 to m
      invariant sc.pos == base + 2 * u
      invariant forall i :: 0 <= i < u ==> Whole(x, tt1, tt2)[i] == ReduceSample(Sample(sc.out, base, i))
    {
      var b0, b1 := sc.ExtractTwo();
      var w: u16 := b0 as int * 256 + b1;
      assert w == Sample(sc.out, base, u);
      Store(x, tt1, tt2, n, u, ReduceSample(w));
    }
    KeptIsAccepted(sc.out, base, Whole(x, tt1, tt2), m);
  }

  lemma FitsBuffers(logn: nat)
    requires 1 <= logn <= 10
    ensures Over(logn) <= Pow2(logn) + 63 && Over(logn) < 512 && Pow2(logn) <= 1024
  {
    Pow2Values();
    Pow2Mono(logn, 10);
  }

  /** The mask of the source, 'swap only a valid value whose jump has the p bit set'. */
  function SwapMask(sv: u16, j: u32, p: u32): u32
    requires p < 0x8000_0000
  {
    And32(Sub32(sv / 0x8000, 1), Neg32((AndBoth(j, p) + 0x1FF) / 0x200))
  }

  function AndBoth(j: u32, p: u32): (r: u32)
    ensures r <= p
  {
    AndCommutes(j, p);
    AndSmall(p, j);
    And(j, p)
  }

  lemma SwapMaskIs(sv: u16, j: u32, k: nat)
    requires sv < 0x8000 || sv == REJECT
    requires Pow2(k) <= 0x100
    ensures SwapMask(sv, j, Pow2(k)) == if sv != REJECT && Bit(j, k) then 0xFFFF_FFFF else 0
  {
    AndPow2(j, k);
    MaskAnd(0);
    MaskAnd(0xFFFF_FFFF);
  }

  lemma MaskedXor(a: u16, b: u16)
    ensures Xor32(a, And32(0, Xor32(a, b))) % 0x1_0000 == a
    ensures Xor32(a, And32(0xFFFF_FFFF, Xor32(a, b))) % 0x1_0000 == b
    ensures Xor32(b, And32(0, Xor32(a, b))) % 0x1_0000 == b
    ensures Xor32(b, And32(0xFFFF_FFFF, Xor32(a, b))) % 0x1_0000 == a
  {
    hide And, Xor;
    MaskAnd(Xor32(a, b));
    XorCancel(a, b);
    XorCancel(b, a);
    XorCommutes(a, b);
    XorNothing(a);
    XorNothing(b);
  }

  lemma XorNothing(x: nat)
    ensures Xor(x, 0) == x
  {
    hide Xor;
    XorSelf(x);
    XorCancel(x, x);
  }

  /** The swap of slots u and u - p under the mask. */
  method MaskedSwap(x: array<u16>, tt1: array<u16>, tt2: array<u16>, n: nat, u: nat, p: nat, sv: u16, mk: u32)
    requires x != tt1 && x != tt2 && tt1 != tt2
    requires x.Length == tt1.Length == n && 0 < p <= u < 2 * n + tt2.Length
    requires sv == Whole(x, tt1, tt2)[u] && (mk == 0 || mk == 0xFFFF_FFFF)
    modifies x, tt1, tt2
    ensures var b := old(Whole(x, tt1, tt2));
      Whole(x, tt1, tt2) == if mk == 0 then b else b[u := b[u - p]][u - p := b[u]]
  {
    ghost var b := Whole(x, tt1, tt2);
    var dv := Load(x, tt1, tt2, n, u - p);
    MaskedXor(sv, dv);
    var s' := Xor32(sv, And32(mk, Xor32(sv, dv))) % 0x1_0000;
    var d' := Xor32(dv, And32(mk, Xor32(sv, dv))) % 0x1_0000;
    Store(x, tt1, tt2, n, u, s');
    Store(x, tt1, tt2, n, u - p, d');
    assert mk == 0 ==> b[u := s'][u - p := d'] == b;
  }

  /** The state of pass k when slot u comes up and v values have been seen. */
  ghost predicate InPass(b: seq<int>, m: nat, vals: seq<int>, d: seq<int>, d': seq<int>, k: nat,
                         u: nat, v: nat, dm: seq<int>, own: seq<int>) {
    && Small(vals) && PassGaps(d, d', Pow2(k))
    && (forall i :: 0 <= i < |d| ==> d[i] >= 0 && d'[i] == d[i] - (if Bit(d[i], k) then Pow2(k) else 0))
    && Layout(b, m, vals, dm, own) && Midway(d, d', u, v, dm)
  }

  ghost function Jumped(b: seq<int>, u: nat, v: nat, k: nat): seq<int>
    requires v <= u < |b|
  {
    if b[u] != REJECT && Bit(u - v, k) && u >= Pow2(k)
    then b[u := b[u - Pow2(k)]][u - Pow2(k) := b[u]] else b
  }

  lemma Advance(b: seq<int>, m: nat, vals: seq<int>, d: seq<int>, d': seq<int>, k: nat,
                u: nat, v: nat, dm: seq<int>, own: seq<int>)
    returns (dm': seq<int>, own': seq<int>)
    requires InPass(b, m, vals, d, d', k, u, v, dm, own) && u < m
    ensures InPass(Jumped(b, u, v, k), m, vals, d, d', k, u + 1, if b[u] == REJECT then v else v + 1, dm', own')
  {
    var p := Pow2(k);
    dm', own' := dm, own;
    if b[u] == REJECT {
      StayMidway(b, m, vals, d, d', p, u, v, dm, own);
    } else {
      SourceIsNext(b, m, vals, d, d', p, u, v, dm, own);
      if Bit(u - v, k) {
        JumpMidway(b, m, vals, d, d', p, u, v, dm, own, Jumped(b, u, v, k));
        dm', own' := dm[v := d'[v]], own[u := -1][u - p := v];
      } else {
        StayMidway(b, m, vals, d, d', p, u, v, dm, own);
      }
    }
  }

  /** A slot holds a value below q or the reject mark. */
  lemma SlotValue(b: seq<int>, m: nat, vals: seq<int>, dm: seq<int>, own: seq<int>, u: nat)
    requires Layout(b, m, vals, dm, own) && Small(vals) && u < m
    ensures b[u] == REJECT || b[u] < Q
  {
  }

  /** The body of a pass for slot u. */
  method PassSlot(x: array<u16>, tt1: array<u16>, tt2: array<u16>, n: nat, p: nat, u: u32, v: u32, ghost k: nat)
    returns (v': u32)
    requires x != tt1 && x != tt2 && tt1 != tt2
    requires x.Length == tt1.Length == n && u < 2 * n + tt2.Length
    requires p == Pow2(k) && p <= 0x100 && v <= u < 0x8000
    requires Whole(x, tt1, tt2)[u] == REJECT || Whole(x, tt1, tt2)[u] < Q
    modifies x, tt1, tt2
    ensures Whole(x, tt1, tt2) == Jumped(old(Whole(x, tt1, tt2)), u, v, k)
    ensures v' == if old(Whole(x, tt1, tt2))[u] == REJECT then v else v + 1
  {
    var sv := Load(x, tt1, tt2, n, u);
    var j := Sub32(u, v);
    v' := Sub32(v, Sub32(sv / 0x8000, 1));
    if u < p {
      return;
    }
    SwapMaskIs(sv, j, k);
    MaskedSwap(x, tt1, tt2, n, u, p, sv, SwapMask(sv, j, p));
  }

  /** One pass: every value whose gap has the p bit set jumps down by p, the others stay. */
  method Pass(x: array<u16>, tt1: array<u16>, tt2: array<u16>, logn: nat, m: nat, p: nat,
              ghost k: nat, ghost vals: seq<int>, ghost d: seq<int>, ghost own0: seq<int>)
    returns (ghost own: seq<int>)
    requires Buffers(x, tt1, tt2, logn) && p == Pow2(k) && p <= 0x100 && m < 0x8000
    requires Small(vals) && Ascending(d) && forall i :: 0 <= i < |d| ==> d[i] >= 0
    requires Layout(Whole(x, tt1, tt2), m, vals, ClearAll(d, k), own0)
    modifies x, tt1, tt2
    ensures Layout(Whole(x, tt1, tt2), m, vals, ClearAll(d, k + 1), own)
  {
    PassGapsFor(d, k);
    ghost var before, after := ClearAll(d, k), ClearAll(d, k + 1);
    ghost var dm := before;
    own := own0;
    var v: u32 := 0;
    for u := 0 to m
      invariant InPass(Whole(x, tt1, tt2), m, vals, before, after, k, u, v, dm, own)
    {
      ghost var b := Whole(x, tt1, tt2);
      SlotValue(b, m, vals, dm, own, u);
      ghost var dm', own' := Advance(b, m, vals, before, after, k, u, v, dm, own);
      v := PassSlot(x, tt1, tt2, x.Length, p, u, v, k);
      dm, own := dm', own';
    }
    assert dm == after;
  }

  lemma {:induction false} AcceptedSmall(out: Stream, pos: nat, k: nat)
    ensures Small(Accepted(out, pos, k))
  {
    if k == 0 {
    } else {
      AcceptedSmall(out, pos, k - 1);
    }
  }

  /** What survives the marking is what the rejection loop accepts. */
  lemma {:induction false} KeptIsAccepted(out: Stream, pos: nat, b: seq<int>, k: nat)
    requires k <= |b|
    requires forall i :: 0 <= i < k ==> b[i] == ReduceSample(Sample(out, pos, i))
    ensures Kept(b, k) == Accepted(out, pos, k)
  {
    if k == 0 {
    } else {
      KeptIsAccepted(out, pos, b, k - 1);
      var w := Sample(out, pos, k - 1);
      ReduceSampleIs(w);
      RemainderSmall(w);
    }
  }

  lemma RemainderSmall(w: nat)
    ensures w % Q < Q
  {
  }

  /** Fewer than n values cannot fill n slots. */
  lemma {:induction false} TooFewValues(b: seq<int>, m: nat, vals: seq<int>, d: seq<int>, own: seq<int>, n: nat)
    requires Layout(b, m, vals, d, own) && Ascending(d)
    requires 0 < n <= m && forall q :: 0 <= q < n ==> own[q] != -1
    ensures own[n - 1] >= n - 1
  {
    if n <= 1 {
    } else {
      TooFewValues(b, m, vals, d, own, n - 1);
      var i, i' := own[n - 2], own[n - 1];
      assert forall a :: 0 <= a <= i ==> d[a] <= d[i];
    }
  }

  lemma SomeRejected(b: seq<int>, m: nat, vals: seq<int>, d: seq<int>, own: seq<int>, n: nat)
    requires Layout(b, m, vals, d, own) && Ascending(d) && |vals| < n <= m
    ensures exists q :: 0 <= q < n && b[q] == REJECT
  {
    if forall q :: 0 <= q < n ==> own[q] != -1 {
      TooFewValues(b, m, vals, d, own, n);
      assert false;
    }
  }

  lemma ZeroGaps(b: seq<int>, m: nat, vals: seq<int>, d: seq<int>, own: seq<int>)
    requires Layout(b, m, vals, d, own) && forall i :: 0 <= i < |d| ==> d[i] == 0
    ensures |vals| <= m && b[..|vals|] == vals
  {
    assert forall i :: 0 <= i < |d| ==> i + d[i] == i;
    if |d| > 0 { assert |d| - 1 + d[|d| - 1] < m; }
    forall i | 0 <= i < |vals| ensures b[i] == vals[i] {
      assert own[i + d[i]] == i;
    }
  }

  lemma AllCleared(d: seq<int>, k: nat)
    requires forall i :: 0 <= i < |d| ==> 0 <= d[i] < Pow2(k)
    ensures forall i :: 0 <= i < |d| ==> ClearAll(d, k)[i] == 0
  {
    forall i | 0 <= i < |d| ensures ClearAll(d, k)[i] == 0 { ClearedZero(d[i], k); }
  }

  /** xs is the first n of the values, or shows a mark when they are too few. */
  ghost predicate SqueezedOut(vals: seq<int>, n: nat, xs: seq<int>) {
    if |vals| >= n then xs == vals[..n] else REJECT in xs
  }

  /** What the final layout, with gaps d still uncleared above bit k, says of its first n slots. */
  lemma FirstSlots(b: seq<int>, m: nat, vals: seq<int>, d: seq<int>, k: nat, own: seq<int>, n: nat)
    requires Ascending(d) && AtMost(d, m - |vals|) && forall i :: 0 <= i < |d| ==> d[i] >= 0
    requires Layout(b, m, vals, ClearAll(d, k), own)
    requires n <= m < n + Pow2(k)
    ensures SqueezedOut(vals, n, b[..n])
  {
    if |vals| >= n {
      AllCleared(d, k);
      ZeroGaps(b, m, vals, ClearAll(d, k), own);
      assert b[..n] == b[..|vals|][..n];
    } else {
      ClearAllAscends(d, k);
      SomeRejected(b, m, vals, ClearAll(d, k), own, n);
      var q :| 0 <= q < n && b[q] == REJECT;
      assert b[..n][q] == REJECT;
    }
  }

  lemma PointIffEnough(out: Stream, pos: nat, m: nat, n: nat, xs: seq<u16>)
    requires SqueezedOut(Accepted(out, pos, m), n, xs)
    ensures IsPoint(out, pos, n, xs) <==> |Accepted(out, pos, m)| >= n
  {
    if |Accepted(out, pos, m)| >= n {
      PrefixIsPoint(out, pos, n, m);
    } else if IsPoint(out, pos, n, xs) {
      NoRejectInPoint(out, pos, n, xs);
    }
  }

  lemma NoRejectInPoint(out: Stream, pos: nat, n: nat, xs: seq<u16>)
    requires IsPoint(out, pos, n, xs)
    ensures REJECT !in xs
  {
    var k: nat :| Accepted(out, pos, k) == xs;
    AcceptedSmall(out, pos, k);
  }

  /** The branch-free sampler.  x ends as the point of the specification exactly when the m
      samples drawn hold at least n acceptable ones; otherwise x shows a rejected mark. */
  method ConstantTime(sc: ShakeContext, x: array<u16>, logn: nat, tmp: array<u16>)
    requires 1 <= logn <= 10
    requires x != tmp && x.Length == tmp.Length == Pow2(logn)
    modifies sc, x, tmp
    ensures sc.pos == old(sc.pos) + 2 * (x.Length + Over(logn))
    ensures IsPoint(sc.out, old(sc.pos), x.Length, x[..])
      <==> |Accepted(sc.out, old(sc.pos), x.Length + Over(logn))| >= x.Length
    ensures SqueezedOut(Accepted(sc.out, old(sc.pos), x.Length + Over(logn)), x.Length, x[..])
  {
    var tt2 := new u16[63];
    ghost var base := sc.pos;
    Draw(sc, x, tmp, tt2, logn);
    FitsBuffers(logn);
    var m := x.Length + Over(logn);
    AcceptedSmall(sc.out, base, m);
    Squeeze(x, tmp, tt2, logn, m, Over(logn), Accepted(sc.out, base, m));
    PointIffEnough(sc.out, base, m, x.Length, x[..]);
  }

  /** Squeezes out the rejected samples: the kept ones end up in x, in order. */
  method Squeeze(x: array<u16>, tt1: array<u16>, tt2: array<u16>, logn: nat, m: nat, over: nat, ghost vals: seq<int>)
    requires Buffers(x, tt1, tt2, logn) && m == x.Length + over < 0x8000 && over < 512
    requires m <= |Whole(x, tt1, tt2)| && Kept(Whole(x, tt1, tt2), m) == vals && Small(vals)
    modifies x, tt1, tt2
    ensures SqueezedOut(vals, x.Length, x[..])
  {
    ghost var d, own := InitialLayout(Whole(x, tt1, tt2), m);
    ghost var k;
    k, own := Passes(x, tt1, tt2, logn, m, over, vals, d, own);
    WholeStart(x, tt1, tt2);
    FirstSlots(Whole(x, tt1, tt2), m, vals, d, k, own, x.Length);
  }

  /** The passes, for p = 1, 2, 4, ... up to the oversampling. */
  method Passes(x: array<u16>, tt1: array<u16>, tt2: array<u16>, logn: nat, m: nat, over: nat,
                ghost vals: seq<int>, ghost d: seq<int>, ghost own0: seq<int>)
    returns (ghost k: nat, ghost own: seq<int>)
    requires Buffers(x, tt1, tt2, logn) && over < 512 && m < 0x8000
    requires Small(vals) && Ascending(d) && Layout(Whole(x, tt1, tt2), m, vals, d, own0)
    modifies x, tt1, tt2
    ensures over < Pow2(k)
    ensures forall i :: 0 <= i < |d| ==> d[i] >= 0
    ensures Layout(Whole(x, tt1, tt2), m, vals, ClearAll(d, k), own)
  {
    k, own := 0, own0;
    var p := 1;
    assert ClearAll(d, 0) == d;
    while p <= over
      invariant p == Pow2(k)
      invariant Layout(Whole(x, tt1, tt2), m, vals, ClearAll(d, k), own)
      decreases over - p
    {
      PassIsSmall(k, over);
      own := Pass(x, tt1, tt2, logn, m, p, k, vals, d, own);
      p := 2 * p;
      k := k + 1;
    }
  }

  /** No pass jumps by more than 256 slots. */
  lemma PassIsSmall(k: nat, over: nat)
    requires Pow2(k) <= over < 512
    ensures Pow2(k) <= 0x100
  {
    Pow2Values();
    if k >= 9 { Pow2Mono(9, k); }
    else { Pow2Mono(k, 8); }
  }
}
