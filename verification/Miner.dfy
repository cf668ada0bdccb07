/** The mempool as the block assembler of src/miner.cpp sees it: entries are numbers, and every
    entry knows all its ancestors. */
module Mempool {

  datatype Pool = Pool(n: nat, anc: seq<set<nat>>, size: seq<int>, weight: seq<int>, sigops: seq<int>,
                       fee: seq<int>, modFee: seq<int>, hash: seq<int>)

  ghost predicate Within(s: set<nat>, n: nat) {
    forall i :: i in s ==> i < n
  }

  ghost predicate NonNegative(v: seq<int>) {
    forall i :: 0 <= i < |v| ==> v[i] >= 0
  }

  /** Ancestors are a strict order, and a transaction has a virtual size and weighs at most four times
      that. */
  ghost predicate PoolOk(p: Pool) {
    && |p.anc| == |p.size| == |p.weight| == |p.sigops| == |p.fee| == |p.modFee| == |p.hash| == p.n
    && (forall i :: 0 <= i < p.n ==> Within(p.anc[i], p.n) && i !in p.anc[i])
    && (forall i, j :: 0 <= i < p.n && 0 <= j < p.n && j in p.anc[i] ==> p.anc[j] <= p.anc[i])
    && NonNegative(p.size) && NonNegative(p.weight) && NonNegative(p.sigops)
    && (forall i :: 0 <= i < p.n ==> p.size[i] > 0 && p.weight[i] <= 4 * p.size[i])
  }

  // ---------- sums over sets of entries ----------

  function Total(v: seq<int>, s: set<nat>, k: nat): int
    requires k <= |v|
  {
    if k == 0 then 0 else Total(v, s, k - 1) + if k - 1 in s then v[k - 1] else 0
  }

  lemma {:induction false} TotalAdd(v: seq<int>, s: set<nat>, x: nat, k: nat)
    requires k <= |v| && x !in s
    ensures Total(v, s + {x}, k) == Total(v, s, k) + if x < k then v[x] else 0
  {
    if k == 0 {
    } else {
      TotalAdd(v, s, x, k - 1);
    }
  }

  lemma {:induction false} TotalMono(v: seq<int>, s: set<nat>, t: set<nat>, k: nat)
    requires k <= |v| && NonNegative(v) && forall x: nat :: x < k && x in s ==> x in t
    ensures 0 <= Total(v, s, k) <= Total(v, t, k)
  {
    if k == 0 {
    } else {
      TotalMono(v, s, t, k - 1);
    }
  }

  lemma {:induction false} TotalScaled(v: seq<int>, w: seq<int>, s: set<nat>, k: nat)
    requires k <= |v| && k <= |w| && forall i :: 0 <= i < k ==> v[i] <= 4 * w[i]
    ensures Total(v, s, k) <= 4 * Total(w, s, k)
  {
    if k == 0 {
    } else {
      TotalScaled(v, w, s, k - 1);
    }
  }

  lemma {:induction false} TotalEmpty(v: seq<int>, k: nat)
    requires k <= |v|
    ensures Total(v, {}, k) == 0
  {
    if k == 0 {
    } else {
      TotalEmpty(v, k - 1);
    }
  }

  // ---------- packages ----------

  /** An entry with its ancestors, less what is in the block already. */
  function Package(p: Pool, i: nat, blocked: set<nat>): set<nat>
    requires i < |p.anc|
  {
    (p.anc[i] + {i}) - blocked
  }

  function Left(p: Pool, v: seq<int>, i: nat, blocked: set<nat>): int
    requires i < |p.anc| && p.n <= |v|
  {
    Total(v, Package(p, i, blocked), p.n)
  }

  lemma LeftMono(p: Pool, v: seq<int>, i: nat, blocked: set<nat>, more: set<nat>)
    requires i < |p.anc| && p.n <= |v| && NonNegative(v) && blocked <= more
    ensures 0 <= Left(p, v, i, more) <= Left(p, v, i, blocked)
  {
    TotalMono(v, Package(p, i, more), Package(p, i, blocked), p.n);
  }

  /** One more transaction in the block takes its share from the packages it is part of. */
  lemma LeftAdd(p: Pool, v: seq<int>, i: nat, blocked: set<nat>, x: nat)
    requires i < |p.anc| && p.n <= |v| && x < p.n && x !in blocked
    ensures Left(p, v, i, blocked + {x}) == Left(p, v, i, blocked) - if x in p.anc[i] || x == i then v[x] else 0
  {
    var after := Package(p, i, blocked + {x});
    if x in p.anc[i] || x == i {
      assert Package(p, i, blocked) == after + {x};
      TotalAdd(v, after, x, p.n);
    } else {
      assert Package(p, i, blocked) == after;
    }
  }

  function Descendants(p: Pool, x: nat): set<nat> {
    set d | 0 <= d < |p.anc| && (x in p.anc[d] || d == x)
  }

  /** The number of a transaction's ancestors, itself included. */
  function Count(p: Pool, i: nat): nat
    requires i < |p.anc|
  {
    |p.anc[i]| + 1
  }

  lemma AncestorCount(p: Pool, i: nat, j: nat)
    requires PoolOk(p) && i < p.n && j in p.anc[i]
    ensures j < p.n && Count(p, j) < Count(p, i)
  {
    assert Within(p.anc[i], p.n);
    Smaller(p.anc[j], p.anc[i], j);
  }

  lemma {:induction false} SubsetSize(s: set<nat>, t: set<nat>)
    requires s <= t
    ensures |s| <= |t|
  {
    if s == {} {
    } else {
      var x :| x in s;
      SubsetSize(s - {x}, t - {x});
    }
  }

  lemma Smaller(s: set<nat>, t: set<nat>, x: nat)
    requires s <= t && x in t && x !in s
    ensures |s| < |t|
  {
    SubsetSize(s, t - {x});
  }
}

/** Package selection, src/miner.cpp. */
module Miner {
  import opened Mempool

  const WITNESS_SCALE_FACTOR: int := 4
  const MAX_BLOCK_SIGOPS_COST: int := 80000

  /** Totals of an entry whose ancestors are partly in the block. */
  datatype Mod = Mod(size: int, fees: int, sigops: int)

  /** The totals are at least those of what is left of the package, and at most those of the whole. */
  ghost predicate Covers(p: Pool, m: Mod, d: nat, blocked: set<nat>)
    requires PoolOk(p) && d < p.n
  {
    && Left(p, p.size, d, blocked) <= m.size <= Left(p, p.size, d, {})
    && Left(p, p.sigops, d, blocked) <= m.sigops <= Left(p, p.sigops, d, {})
  }

  /** For an entry erased from the modified ones: the block at that time. */
  type Erased = map<nat, set<nat>>

  /** The ancestors of an entry that went into the block since it was last erased. */
  function Since(p: Pool, d: nat, blocked: set<nat>, erased: Erased): set<nat>
    requires d < |p.anc|
  {
    p.anc[d] * (blocked - if d in erased then erased[d] else {})
  }

  ghost predicate Below(erased: Erased, block: set<nat>) {
    forall d :: d in erased ==> erased[d] <= block
  }

  /** The full fees, less the modified fee of f, the first of these ancestors, and the plain fees of the
      others. */
  ghost predicate FeesAre(p: Pool, fees: int, d: nat, since: set<nat>, f: nat)
    requires PoolLengths(p) && d < p.n
  {
    && f in since && f < p.n
    && fees == Left(p, p.modFee, d, {}) - p.modFee[f] - Total(p.fee, since - {f}, p.n)
  }

  /** The totals are the full ones, less those of the ancestors that went in since. */
  ghost predicate Counts(p: Pool, m: Mod, d: nat, since: set<nat>)
    requires PoolLengths(p) && d < p.n
  {
    && m.size == Left(p, p.size, d, {}) - Total(p.size, since, p.n)
    && m.sigops == Left(p, p.sigops, d, {}) - Total(p.sigops, since, p.n)
    && exists f :: FeesAre(p, m.fees, d, since, f)
  }

  /** So it is for every modified entry, and there are such ancestors; for those in `todo` with the
      smaller block. */
  ghost predicate AllTrack(p: Pool, modified: map<nat, Mod>, low: set<nat>, high: set<nat>, todo: set<nat>,
                           erased: Erased)
    requires PoolLengths(p)
  {
    forall d :: d in modified ==>
      d < p.n && Counts(p, modified[d], d, Since(p, d, if d in todo then low else high, erased))
  }

  /** An entry that is neither modified nor in the block has no such ancestors. */
  ghost predicate Untouched(p: Pool, modified: map<nat, Mod>, block: set<nat>, erased: Erased, low: set<nat>) {
    forall d: nat :: d < |p.anc| && d !in modified && d !in block ==> Since(p, d, low, erased) == {}
  }

  /** Taking x off an entry that had it, at its plain fee. */
  lemma TrackTaken(p: Pool, m: Mod, d: nat, since: set<nat>, x: nat)
    requires PoolLengths(p) && d < p.n && x < p.n && x !in since && Counts(p, m, d, since)
    ensures Counts(p, Mod(m.size - p.size[x], m.fees - p.fee[x], m.sigops - p.sigops[x]), d, since + {x})
  {
    TotalAdd(p.size, since, x, p.n);
    TotalAdd(p.sigops, since, x, p.n);
    var f :| FeesAre(p, m.fees, d, since, f);
    TotalAdd(p.fee, since - {f}, x, p.n);
    hide Total, Left;
    assert since + {x} - {f} == since - {f} + {x};
    assert FeesAre(p, m.fees - p.fee[x], d, since + {x}, f);
  }

  /** An entry modified for the first time starts from its full totals, less x at its modified fee. */
  lemma TrackFirst(p: Pool, d: nat, x: nat)
    requires PoolLengths(p) && d < p.n && x < p.n
    ensures var m := FullMod(p, d);
      Counts(p, Mod(m.size - p.size[x], m.fees - p.modFee[x], m.sigops - p.sigops[x]), d, {x})
  {
    TotalAdd(p.size, {}, x, p.n);
    TotalAdd(p.sigops, {}, x, p.n);
    TotalEmpty(p.size, p.n);
    TotalEmpty(p.sigops, p.n);
    TotalEmpty(p.fee, p.n);
    hide Total;
    assert {} + {x} == {x} && {x} - {x} == {};
    assert FeesAre(p, Left(p, p.modFee, d, {}) - p.modFee[x], d, {x}, x);
  }

  /** The totals an entry starts with when it is first modified, or again after it was erased. */
  function FullMod(p: Pool, d: nat): Mod
    requires d < |p.anc| && p.n <= |p.size| && p.n <= |p.modFee| && p.n <= |p.sigops|
  {
    Mod(Left(p, p.size, d, {}), Left(p, p.modFee, d, {}), Left(p, p.sigops, d, {}))
  }

  /** The full totals are those of what is left and of the ancestors in the block. */
  lemma LeftSplit(p: Pool, v: seq<int>, d: nat, blocked: set<nat>)
    requires d < |p.anc| && p.n <= |v| && d !in blocked
    ensures Left(p, v, d, {}) == Left(p, v, d, blocked) + Total(v, p.anc[d] * blocked, p.n)
  {
    assert Package(p, d, {}) == Package(p, d, blocked) + p.anc[d] * blocked;
    TotalDisjoint(v, Package(p, d, blocked), p.anc[d] * blocked, p.n);
  }

  lemma CountsCover(p: Pool, m: Mod, d: nat, blocked: set<nat>, since: set<nat>)
    requires PoolOk(p) && PoolLengths(p) && d < p.n && d !in blocked && since <= p.anc[d] * blocked
    requires Counts(p, m, d, since)
    ensures Covers(p, m, d, blocked)
  {
    hide Total, Left;
    LeftSplit(p, p.size, d, blocked);
    LeftSplit(p, p.sigops, d, blocked);
    TotalMono(p.size, since, p.anc[d] * blocked, p.n);
    TotalMono(p.sigops, since, p.anc[d] * blocked, p.n);
  }

  /** By how much the modified fees exceed the plain ones. */
  function Drift(p: Pool): (v: seq<int>)
    requires PoolLengths(p)
    ensures |v| == p.n
  {
    seq(p.n, x requires 0 <= x < p.n => p.modFee[x] - p.fee[x])
  }

  /** How far the totals are from those of what is left of the package: by what its ancestors in the block
      had that were there when it was last erased, and for the fees by the drift of the later ones but the
      first.  So the size is right if and only if there are none of the former. */
  lemma TotalsOff(p: Pool, m: Mod, d: nat, blocked: set<nat>, since: set<nat>, f: nat)
    requires PoolOk(p) && PoolLengths(p) && d < p.n && d !in blocked && since <= p.anc[d] * blocked
    requires Counts(p, m, d, since) && FeesAre(p, m.fees, d, since, f)
    ensures m.size - Left(p, p.size, d, blocked) == Total(p.size, p.anc[d] * blocked - since, p.n)
    ensures m.size == Left(p, p.size, d, blocked) <==> since == p.anc[d] * blocked
    ensures m.fees - Left(p, p.modFee, d, blocked) ==
      Total(p.modFee, p.anc[d] * blocked - since, p.n) + Total(Drift(p), since - {f}, p.n)
  {
    hide Total, Left;
    var all := p.anc[d] * blocked;
    assert Within(p.anc[d], p.n);
    LeftSplit(p, p.size, d, blocked);
    LeftSplit(p, p.modFee, d, blocked);
    assert all == (all - since) + since && since == (since - {f}) + {f};
    TotalDisjoint(p.size, all - since, since, p.n);
    TotalDisjoint(p.modFee, all - since, since, p.n);
    TotalAdd(p.modFee, since - {f}, f, p.n);
    TotalDrift(p, since - {f}, p.n);
    TotalSized(p, all - since);
  }

  lemma {:induction false} TotalDrift(p: Pool, s: set<nat>, k: nat)
    requires PoolLengths(p) && k <= p.n
    ensures Total(Drift(p), s, k) == Total(p.modFee, s, k) - Total(p.fee, s, k)
  {
    if k == 0 {
    } else {
      TotalDrift(p, s, k - 1);
    }
  }

  /** The fees of an entry that was not erased are those of what is left of its package if and only if
      the drift of its ancestors in the block but the first adds up to nothing; so they are without
      prioritised ancestors. */
  lemma FeesExact(p: Pool, m: Mod, d: nat, blocked: set<nat>, f: nat)
    requires PoolOk(p) && PoolLengths(p) && d < p.n && d !in blocked
    requires Counts(p, m, d, p.anc[d] * blocked) && FeesAre(p, m.fees, d, p.anc[d] * blocked, f)
    ensures m.fees == Left(p, p.modFee, d, blocked) <==> Total(Drift(p), p.anc[d] * blocked - {f}, p.n) == 0
    ensures (forall x :: x in p.anc[d] * blocked && x < p.n ==> p.fee[x] == p.modFee[x]) ==>
      m.fees == Left(p, p.modFee, d, blocked)
  {
    var since := p.anc[d] * blocked;
    TotalsOff(p, m, d, blocked, since, f);
    TotalNothing(p.modFee, since - since, p.n);
    if forall x :: x in since && x < p.n ==> p.fee[x] == p.modFee[x] {
      TotalNothing(Drift(p), since - {f}, p.n);
    }
  }

  lemma {:induction false} TotalNothing(v: seq<int>, s: set<nat>, k: nat)
    requires k <= |v| && forall x :: x in s && x < k ==> v[x] == 0
    ensures Total(v, s, k) == 0
  {
    if k == 0 {
    } else {
      TotalNothing(v, s, k - 1);
    }
  }

  lemma TrackStart(p: Pool, modified: map<nat, Mod>, low: set<nat>, x: nat, todo: set<nat>, erased: Erased)
    requires PoolLengths(p) && AllTrack(p, modified, low, low, {}, erased)
    requires forall d :: d in modified && x in p.anc[d] ==> d in todo
    ensures AllTrack(p, modified, low, low + {x}, todo, erased)
  {
    hide Counts;
    forall d | d in modified
      ensures d < p.n && Counts(p, modified[d], d, Since(p, d, if d in todo then low else low + {x}, erased))
    {
      if d !in todo { assert Since(p, d, low + {x}, erased) == Since(p, d, low, erased); }
    }
  }

  /** x goes into the block before its descendant d. */
  method Take(p: Pool, modified0: map<nat, Mod>, d: nat, x: nat, ghost low: set<nat>, ghost todo: set<nat>,
              ghost erased: Erased)
    returns (modified: map<nat, Mod>)
    requires PoolLengths(p) && d < p.n && x < p.n && x !in low && x in p.anc[d] && d in todo && Below(erased, low)
    requires AllTrack(p, modified0, low, low + {x}, todo, erased)
    requires d !in modified0 ==> Since(p, d, low, erased) == {}
    ensures AllTrack(p, modified, low, low + {x}, todo - {d}, erased) && modified.Keys == modified0.Keys + {d}
  {
    hide Left, Counts;
    assert Since(p, d, low + {x}, erased) == Since(p, d, low, erased) + {x};
    if d !in modified0 {
      var m := FullMod(p, d);
      TrackFirst(p, d, x);
      assert {} + {x} == {x};
      modified := modified0[d := Mod(m.size - p.size[x], m.fees - p.modFee[x], m.sigops - p.sigops[x])];
    } else {
      var m := modified0[d];
      TrackTaken(p, m, d, Since(p, d, low, erased), x);
      modified := modified0[d := Mod(m.size - p.size[x], m.fees - p.fee[x], m.sigops - p.sigops[x])];
    }
  }

  ghost predicate PoolLengths(p: Pool) {
    |p.anc| == |p.size| == |p.weight| == |p.sigops| == |p.fee| == |p.modFee| == |p.hash| == p.n
  }

  lemma Lengths(p: Pool)
    requires PoolOk(p)
    ensures PoolLengths(p)
  {
  }

  /** After x went into the block, all its descendants outside `added` are modified. */
  method TakeFromDescendants(p: Pool, modified0: map<nat, Mod>, x: nat, added: set<nat>, ghost low: set<nat>,
                             ghost before: set<nat>, ghost erased: Erased)
    returns (modified: map<nat, Mod>)
    requires PoolOk(p) && PoolLengths(p) && x < p.n && x !in low && x in added && Below(erased, low)
    requires AllTrack(p, modified0, low, low, {}, erased) && modified0.Keys !! added
    requires Untouched(p, modified0, before + added, erased, low) && Descendants(p, x) - added !! before
    ensures AllTrack(p, modified, low + {x}, low + {x}, {}, erased)
    ensures Untouched(p, modified, before + added, erased, low + {x})
    ensures modified.Keys == modified0.Keys + (Descendants(p, x) - added)
  {
    hide Left, Counts, Since, PoolOk;
    modified := modified0;
    var todo := Descendants(p, x) - added;
    TrackStart(p, modified, low, x, todo, erased);
    while todo != {}
      invariant todo <= Descendants(p, x) - added
      invariant AllTrack(p, modified, low, low + {x}, todo, erased)
      invariant modified.Keys == modified0.Keys + (Descendants(p, x) - added - todo)
      decreases todo
    {
      var d :| d in todo;
      modified := Take(p, modified, d, x, low, todo, erased);
      todo := todo - {d};
    }
    TrackEnd(p, modified, low, low + {x}, erased);
    UntouchedMore(p, modified0, modified, before + added, erased, low, x);
  }

  lemma UntouchedMore(p: Pool, modified: map<nat, Mod>, modified': map<nat, Mod>, block: set<nat>, erased: Erased,
                      low: set<nat>, x: nat)
    requires Untouched(p, modified, block, erased, low) && modified.Keys <= modified'.Keys
    requires forall d: nat :: d < |p.anc| && x in p.anc[d] && d !in block ==> d in modified'
    ensures Untouched(p, modified', block, erased, low + {x})
  {
    forall d: nat | d < |p.anc| && d !in modified' && d !in block ensures Since(p, d, low + {x}, erased) == {} {
      assert Since(p, d, low, erased) == {};
    }
  }

  lemma TrackEnd(p: Pool, modified: map<nat, Mod>, low: set<nat>, high: set<nat>, erased: Erased)
    requires PoolLengths(p) && AllTrack(p, modified, low, high, {}, erased)
    ensures AllTrack(p, modified, high, high, {}, erased)
  {
    hide Counts;
  }

  /** The entries of `added` went into the block: every modified entry counts what is left of its
      package, every descendant that is not in the block is modified, and nothing else is. */
  method UpdatePackagesForAdded(p: Pool, added: set<nat>, modified0: map<nat, Mod>, ghost before: set<nat>,
                                ghost erased: Erased)
    returns (modified: map<nat, Mod>)
    requires PoolOk(p) && PoolLengths(p) && Within(added, p.n) && added !! before && Below(erased, before)
    requires AllTrack(p, modified0, before, before, {}, erased) && modified0.Keys !! added
    requires Untouched(p, modified0, before + added, erased, before)
    requires forall x :: x in added ==> Descendants(p, x) - added !! before
    ensures AllTrack(p, modified, before + added, before + added, {}, erased)
    ensures Untouched(p, modified, before + added, erased, before + added)
    ensures modified.Keys == modified0.Keys + (set x, d | x in added && d in Descendants(p, x) - added :: d)
  {
    hide PoolOk, AllTrack, Untouched;
    modified := modified0;
    var rest := added;
    assert before + (added - rest) == before;
    while rest != {}
      invariant rest <= added && modified.Keys !! added
      invariant AllTrack(p, modified, before + (added - rest), before + (added - rest), {}, erased)
      invariant Untouched(p, modified, before + added, erased, before + (added - rest))
      invariant modified.Keys == modified0.Keys + (set x, d | x in added - rest && d in Descendants(p, x) - added :: d)
      decreases rest
    {
      var x :| x in rest;
      modified := TakeFromDescendants(p, modified, x, added, before + (added - rest), before, erased);
      assert before + (added - rest) + {x} == before + (added - (rest - {x}));
      rest := rest - {x};
    }
    assert before + (added - rest) == before + added;
    assert added - rest == added;
  }

  // ---------- which package is better ----------

  /** A fee for a size. */
  datatype Rate = Rate(fee: int, size: int)

  /** The source compares products of doubles; here they are exact. */
  predicate Less(a: Rate, b: Rate) {
    a.fee * b.size < b.fee * a.size
  }

  function PerByte(r: Rate): real
    requires r.size > 0
  {
    r.fee as real / r.size as real
  }

  /** The products compare the rates. */
  lemma LessIs(a: Rate, b: Rate)
    requires a.size > 0 && b.size > 0
    ensures Less(a, b) <==> PerByte(a) < PerByte(b)
  {
    var x, y, s, t := PerByte(a), PerByte(b), a.size as real, b.size as real;
    assert (a.fee * b.size) as real == a.fee as real * t && (b.fee * a.size) as real == b.fee as real * s;
    assert x * s == a.fee as real && y * t == b.fee as real;
    assert a.fee as real * t == x * (s * t) && b.fee as real * s == y * (s * t);
    if x < y { Stretch(x, y, s * t); } else { Stretch(y, x, s * t); }
  }

  lemma Stretch(x: real, y: real, f: real)
    requires x <= y && f > 0.0
    ensures x * f <= y * f && (x < y ==> x * f < y * f)
  {
  }

  /** The smaller of an entry's own fee rate and that of its package. */
  function Score(p: Pool, i: nat, m: Mod): Rate
    requires i < |p.modFee| && i < |p.size|
  {
    var own, package := Rate(p.modFee[i], p.size[i]), Rate(m.fees, m.size);
    if Less(package, own) then package else own
  }

  predicate Better(p: Pool, i: nat, m: Mod, j: nat, n: Mod)
    requires PoolLengths(p) && i < p.n && j < p.n
  {
    var a, b := Score(p, i, m), Score(p, j, n);
    Less(b, a) || (!Less(a, b) && p.hash[i] < p.hash[j])
  }

  /** Better means a higher fee rate per byte, by the smaller of the two, or the same and a smaller hash. */
  lemma BetterIff(p: Pool, i: nat, m: Mod, j: nat, n: Mod)
    requires Sized(p, i, m) && Sized(p, j, n) && PoolLengths(p)
    ensures var a := Lower(PerByte(Rate(p.modFee[i], p.size[i])), PerByte(Rate(m.fees, m.size)));
      var b := Lower(PerByte(Rate(p.modFee[j], p.size[j])), PerByte(Rate(n.fees, n.size)));
      Better(p, i, m, j, n) <==> a > b || (a == b && p.hash[i] < p.hash[j])
  {
    hide PerByte, Less;
    ScoreIs(p, i, m);
    ScoreIs(p, j, n);
    LessIs(Score(p, i, m), Score(p, j, n));
    LessIs(Score(p, j, n), Score(p, i, m));
  }

  function Lower(x: real, y: real): real {
    if y < x then y else x
  }

  lemma ScoreIs(p: Pool, i: nat, m: Mod)
    requires Sized(p, i, m) && PoolLengths(p)
    ensures Score(p, i, m).size > 0
    ensures PerByte(Score(p, i, m)) == Lower(PerByte(Rate(p.modFee[i], p.size[i])), PerByte(Rate(m.fees, m.size)))
  {
    hide PerByte, Less;
    LessIs(Rate(m.fees, m.size), Rate(p.modFee[i], p.size[i]));
  }

  lemma LessTrans(a: Rate, b: Rate, c: Rate)
    requires a.size > 0 && b.size > 0 && c.size > 0 && !Less(b, a) && !Less(c, b)
    ensures !Less(c, a)
    ensures Less(a, b) || Less(b, c) ==> Less(a, c)
  {
    var x, y := a.fee * c.size, c.fee * a.size;
    Scale(a.fee * b.size, b.fee * a.size, c.size);
    Scale(b.fee * c.size, c.fee * b.size, a.size);
    Reorder(a.fee, b.size, c.size);
    Reorder(b.fee, a.size, c.size);
    Reorder(c.fee, b.size, a.size);
    if x > y { Scale(y, x, b.size); }
    if x == y { assert x * b.size == y * b.size; }
  }

  lemma Scale(x: int, y: int, k: int)
    requires k > 0
    ensures x <= y ==> x * k <= y * k
    ensures x < y ==> x * k < y * k
  {
  }

  lemma Reorder(f: int, s: int, t: int)
    ensures (f * s) * t == (f * t) * s
  {
  }

  ghost predicate Sized(p: Pool, i: nat, m: Mod) {
    PoolOk(p) && i < p.n && m.size > 0
  }

  lemma ScoreSized(p: Pool, i: nat, m: Mod)
    requires Sized(p, i, m)
    ensures PoolLengths(p) && Score(p, i, m).size > 0
    ensures !Less(Rate(m.fees, m.size), Score(p, i, m))
  {
    hide Less;
    assert !Less(Rate(m.fees, m.size), Rate(m.fees, m.size)) by { Irreflexive(m.fees, m.size); }
  }

  lemma Irreflexive(f: int, s: int)
    ensures !Less(Rate(f, s), Rate(f, s))
  {
  }

  /** What is not better than something that is not better than a third is not better than that. */
  lemma NotBetterTrans(p: Pool, i: nat, m: Mod, j: nat, n: Mod, k: nat, o: Mod)
    requires Sized(p, i, m) && Sized(p, j, n) && Sized(p, k, o) && PoolLengths(p)
    requires !Better(p, i, m, j, n) && !Better(p, j, n, k, o)
    ensures !Better(p, i, m, k, o)
  {
    ScoreSized(p, i, m);
    ScoreSized(p, j, n);
    ScoreSized(p, k, o);
    hide Less, Score, PoolOk;
    LessTrans(Score(p, i, m), Score(p, j, n), Score(p, k, o));
  }

  lemma BetterOneWay(p: Pool, i: nat, m: Mod, j: nat, n: Mod)
    requires PoolLengths(p) && i < p.n && j < p.n && Better(p, i, m, j, n)
    ensures !Better(p, j, n, i, m)
  {
    hide Score;
  }

  /** What is left of a package has at least the size of its own transaction. */
  lemma CoverSized(p: Pool, i: nat, m: Mod, blocked: set<nat>)
    requires PoolOk(p) && i < p.n && i !in blocked && Covers(p, m, i, blocked)
    ensures Sized(p, i, m)
  {
    hide Total;
    TotalAdd(p.size, {}, i, p.n);
    TotalEmpty(p.size, p.n);
    assert {} + {i} == {i} && {i} <= Package(p, i, blocked);
    TotalMono(p.size, {i}, Package(p, i, blocked), p.n);
  }

  ghost predicate AllSized(p: Pool, modified: map<nat, Mod>) {
    forall j :: j in modified ==> Sized(p, j, modified[j])
  }

  ghost predicate NoneBetter(p: Pool, modified: map<nat, Mod>, i: nat, m: Mod)
    requires PoolLengths(p) && i < p.n
  {
    forall j :: j in modified ==> j < p.n && !Better(p, j, modified[j], i, m)
  }

  /** The first modified entry in the order of scores. */
  method BestModified(p: Pool, modified: map<nat, Mod>) returns (i: nat)
    requires PoolLengths(p) && modified != map[] && AllSized(p, modified)
    ensures i in modified && i < p.n && NoneBetter(p, modified, i, modified[i])
  {
    hide Better, PoolOk;
    i :| i in modified;
    var rest := modified.Keys - {i};
    while rest != {}
      invariant i in modified && rest <= modified.Keys
      invariant forall j :: j in modified.Keys - rest && j != i ==> !Better(p, j, modified[j], i, modified[i])
      decreases rest
    {
      var x :| x in rest;
      if Better(p, x, modified[x], i, modified[i]) {
        BetterOneWay(p, x, modified[x], i, modified[i]);
        forall j | j in modified.Keys - rest ensures !Better(p, j, modified[j], x, modified[x]) {
          if j != i { NotBetterTrans(p, j, modified[j], i, modified[i], x, modified[x]); }
        }
        i := x;
      }
      rest := rest - {x};
    }
    NotBetterSelf(p, i, modified[i]);
  }

  lemma NotBetterSelf(p: Pool, i: nat, m: Mod)
    requires PoolLengths(p) && i < p.n
    ensures !Better(p, i, m, i, m)
  {
    hide Score;
  }

  /** An entry with its full totals is not better. */
  ghost predicate NotBetterThan(p: Pool, next: nat, i: nat, m: Mod)
    requires PoolLengths(p) && i < p.n
  {
    next < p.n && !Better(p, next, FullMod(p, next), i, m)
  }

  lemma NoneOfNone(p: Pool, i: nat, m: Mod)
    requires PoolLengths(p) && i < p.n
    ensures NoneBetter(p, map[], i, m)
  {
  }

  lemma FullModCovers(p: Pool, i: nat, blocked: set<nat>)
    requires PoolOk(p) && i < p.n
    ensures PoolLengths(p) && Covers(p, FullMod(p, i), i, blocked)
  {
    hide Total;
    LeftMono(p, p.size, i, {}, blocked);
    LeftMono(p, p.sigops, i, {}, blocked);
  }

  lemma ModifiedSized(p: Pool, modified: map<nat, Mod>, blocked: set<nat>, erased: Erased)
    requires PoolOk(p) && PoolLengths(p) && AllTrack(p, modified, blocked, blocked, {}, erased)
    requires modified.Keys !! blocked
    ensures AllSized(p, modified)
  {
    hide Covers, Counts;
    forall j | j in modified ensures Sized(p, j, modified[j]) {
      TrackAt(p, modified, blocked, j, erased);
      CoverSized(p, j, modified[j], blocked);
    }
  }

  lemma NoneBetterThan(p: Pool, modified: map<nat, Mod>, i: nat, m: Mod, j: nat, n: Mod)
    requires PoolLengths(p) && AllSized(p, modified) && Sized(p, i, m) && Sized(p, j, n)
    requires NoneBetter(p, modified, i, m) && !Better(p, i, m, j, n)
    ensures NoneBetter(p, modified, j, n)
  {
    hide Better, PoolOk;
    forall k | k in modified ensures k < p.n && !Better(p, k, modified[k], j, n) {
      NotBetterTrans(p, k, modified[k], i, m, j, n);
    }
  }

  // ---------- the order inside a block ----------

  /** By number of ancestors, then by hash. */
  predicate Before(p: Pool, a: nat, b: nat)
    requires a < |p.anc| && b < |p.anc| && |p.anc| == |p.hash|
  {
    if Count(p, a) != Count(p, b) then Count(p, a) < Count(p, b) else p.hash[a] < p.hash[b]
  }

  ghost predicate Sorted(p: Pool, s: seq<nat>)
    requires PoolLengths(p)
  {
    && (forall i :: 0 <= i < |s| ==> s[i] < p.n)
    && forall i, j :: 0 <= i < j < |s| ==> s[i] != s[j] && !Before(p, s[j], s[i])
  }

  method Least(p: Pool, s: set<nat>) returns (m: nat)
    requires PoolLengths(p) && Within(s, p.n) && s != {}
    ensures m in s && forall x :: x in s ==> !Before(p, x, m)
  {
    m :| m in s;
    var rest := s - {m};
    while rest != {}
      invariant m in s && rest <= s && forall x :: x in s - rest ==> !Before(p, x, m)
      decreases rest
    {
      var x :| x in rest;
      if Before(p, x, m) {
        forall y | y in s - rest ensures !Before(p, y, x) { NotBefore(p, y, m, x); }
        m := x;
      }
      rest := rest - {x};
    }
  }

  lemma NotBefore(p: Pool, y: nat, m: nat, x: nat)
    requires PoolLengths(p) && y < p.n && m < p.n && x < p.n && !Before(p, y, m) && Before(p, x, m)
    ensures !Before(p, y, x)
  {
  }

  lemma SortedMore(p: Pool, s: seq<nat>, m: nat)
    requires PoolLengths(p) && Sorted(p, s) && m < p.n && m !in s && forall i :: 0 <= i < |s| ==> !Before(p, m, s[i])
    ensures Sorted(p, s + [m])
  {
  }

  method SortForBlock(p: Pool, package: set<nat>) returns (sorted: seq<nat>)
    requires PoolLengths(p) && Within(package, p.n)
    ensures Sorted(p, sorted) && (forall x :: x in sorted <==> x in package)
  {
    sorted := [];
    var rest := package;
    while rest != {}
      invariant rest <= package && Sorted(p, sorted) && (forall x :: x in sorted <==> x in package - rest)
      invariant forall i, x :: 0 <= i < |sorted| && x in rest ==> !Before(p, x, sorted[i])
      decreases rest
    {
      hide Before;
      var m := Least(p, rest);
      SortedMore(p, sorted, m);
      sorted := sorted + [m];
      rest := rest - {m};
    }
  }

  /** Sorted like this, ancestors come first. */
  lemma AncestorsFirst(p: Pool, s: seq<nat>, k: nat, a: nat)
    requires PoolOk(p) && Sorted(p, s) && k < |s| && a in p.anc[s[k]] && a in s
    ensures a in s[..k]
  {
    AncestorCount(p, s[k], a);
    var j :| 0 <= j < |s| && s[j] == a;
    if j >= k {
      assert j != k;
      assert Before(p, s[j], s[k]);
      assert false;
    }
    assert s[..k][j] == a;
  }

  // ---------- the block ----------

  /** What the selection goes by: the weight limit, the fee floor, finality, and the index. */
  datatype Rules = Rules(maxWeight: int, minFee: int -> int, isFinal: nat -> bool, order: seq<nat>)

  datatype Outcome = Taken | TurnedDown | Floor

  /** One round: the block before it, the entries erased from the modified ones so far, all candidates
      with their totals, the one that is chosen, and what becomes of it. */
  datatype Round = Round(block: set<nat>, erased: Erased, waiting: map<nat, Mod>, entry: nat, totals: Mod,
                         outcome: Outcome)

  /** Why the selection stopped. */
  datatype Stop = Exhausted | BelowFloor | NearlyFull

  ghost predicate Fits(p: Pool, maxWeight: int, block: set<nat>, m: Mod)
    requires PoolLengths(p)
  {
    && 4000 + Total(p.weight, block, p.n) + WITNESS_SCALE_FACTOR * m.size < maxWeight
    && 400 + Total(p.sigops, block, p.n) + m.sigops < MAX_BLOCK_SIGOPS_COST
  }

  ghost predicate AllFinal(p: Pool, i: nat, block: set<nat>, isFinal: nat -> bool)
    requires i < |p.anc|
  {
    forall x :: x in Package(p, i, block) ==> isFinal(x)
  }

  ghost function OutcomeOf(p: Pool, rules: Rules, block: set<nat>, i: nat, m: Mod): Outcome
    requires PoolLengths(p) && i < p.n
  {
    if m.fees < rules.minFee(m.size) then Floor
    else if Fits(p, rules.maxWeight, block, m) && AllFinal(p, i, block, rules.isFinal) then Taken
    else TurnedDown
  }

  /** The ancestor-score index lists its entries in the order of their full packages' scores. */
  ghost predicate IndexSorted(p: Pool, order: seq<nat>)
    requires PoolLengths(p)
  {
    && (forall k :: 0 <= k < |order| ==> order[k] < p.n)
    && forall k, l :: 0 <= k < l < |order| ==>
      !Better(p, order[l], FullMod(p, order[l]), order[k], FullMod(p, order[k]))
  }

  /** A candidate is outside the block; it has the full totals, or what the ancestors leave of them that
      went into the block since it was last erased. */
  ghost predicate Candidate(p: Pool, j: nat, m: Mod, block: set<nat>, erased: Erased)
    requires PoolOk(p) && PoolLengths(p)
  {
    && j < p.n && j !in block
    && var since := Since(p, j, block, erased);
       if since == {} then m == FullMod(p, j) else Counts(p, m, j, since)
  }

  /** No candidate is better than the one chosen, and what becomes of it follows from its totals. */
  ghost predicate RoundOk(p: Pool, rules: Rules, r: Round)
    requires PoolOk(p) && PoolLengths(p)
  {
    && Below(r.erased, r.block)
    && (forall j :: j in r.waiting ==> Candidate(p, j, r.waiting[j], r.block, r.erased))
    && r.entry in r.waiting && r.waiting[r.entry] == r.totals && r.entry < p.n
    && (IndexSorted(p, rules.order) ==> NoneBetter(p, r.waiting, r.entry, r.totals))
    && r.outcome == OutcomeOf(p, rules, r.block, r.entry, r.totals)
  }

  /** The block after a round: a candidate that is taken brings what is left of its package. */
  ghost function After(p: Pool, r: Round): set<nat> {
    if r.outcome.Taken? && r.entry < |p.anc| then r.block + Package(p, r.entry, r.block) else r.block
  }

  ghost function BlockAt(p: Pool, start: set<nat>, history: seq<Round>, k: nat): set<nat>
    requires k <= |history|
  {
    if k == 0 then start else After(p, history[k - 1])
  }

  /** The entries that were turned down. */
  ghost function TurnedIn(history: seq<Round>): set<nat> {
    set k | 0 <= k < |history| && history[k].outcome.TurnedDown? :: history[k].entry
  }

  /** A modified entry that is turned down is erased. */
  ghost function ErasedAfter(p: Pool, r: Round): Erased {
    if r.outcome.TurnedDown? && r.entry < |p.anc| && Since(p, r.entry, r.block, r.erased) != {}
    then r.erased[r.entry := r.block]
    else r.erased
  }

  ghost function ErasedAt(p: Pool, history: seq<Round>, k: nat): Erased
    requires k <= |history|
  {
    if k == 0 then map[] else ErasedAfter(p, history[k - 1])
  }

  ghost predicate TurnedAt(history: seq<Round>, l: nat, j: nat) {
    l < |history| && history[l].outcome.TurnedDown? && history[l].entry == j
  }

  /** An entry is open when it is not in the block, and one of its ancestors went in since it was last
      turned down, if it ever was. */
  ghost predicate Open(p: Pool, history: seq<Round>, block: set<nat>, j: nat)
    requires j < |p.anc|
  {
    && j !in block
    && forall l: nat :: TurnedAt(history, l, j) ==> p.anc[j] * (block - history[l].block) != {}
  }

  predicate NoRepeats(order: seq<nat>) {
    forall k, l :: 0 <= k < l < |order| ==> order[k] != order[l]
  }

  /** Every open entry of the index is a candidate, and every candidate is open. */
  ghost predicate AllOpen(p: Pool, order: seq<nat>, history: seq<Round>, block: set<nat>, waiting: map<nat, Mod>) {
    && (forall n :: 0 <= n < |order| && order[n] < |p.anc| && Open(p, history, block, order[n]) ==> order[n] in waiting)
    && (NoRepeats(order) ==> forall j :: j in waiting && j < |p.anc| ==> Open(p, history, block, j))
  }

  ghost predicate StepOk(p: Pool, rules: Rules, start: set<nat>, history: seq<Round>, k: nat)
    requires PoolOk(p) && PoolLengths(p) && k < |history|
  {
    var r := history[k];
    && RoundOk(p, rules, r) && r.block == BlockAt(p, start, history, k) && r.erased == ErasedAt(p, history, k)
    && AllOpen(p, rules.order, history[..k], r.block, r.waiting)
  }

  /** A whole selection, from one block to another: every round chooses the best of all candidates. */
  ghost predicate RunOk(p: Pool, rules: Rules, start: set<nat>, history: seq<Round>, end: set<nat>)
    requires PoolOk(p) && PoolLengths(p)
  {
    && (forall k :: 0 <= k < |history| ==> StepOk(p, rules, start, history, k))
    && end == BlockAt(p, start, history, |history|)
  }

  /** No round ended at the fee floor. */
  ghost predicate NoFloor(history: seq<Round>) {
    forall k :: 0 <= k < |history| ==> !history[k].outcome.Floor?
  }

  /** How many packages have not fitted since one was last taken. */
  ghost function Failures(p: Pool, maxWeight: int, history: seq<Round>): nat
    requires PoolLengths(p)
  {
    if history == [] then 0 else
      var r := history[|history| - 1];
      if !r.outcome.TurnedDown? then 0
      else Failures(p, maxWeight, history[..|history| - 1]) + if Fits(p, maxWeight, r.block, r.totals) then 0 else 1
  }

  /** The last package did not fit, like a thousand others since one was taken, and the block is nearly full. */
  ghost predicate Hopeless(p: Pool, maxWeight: int, history: seq<Round>)
    requires PoolLengths(p)
  {
    && history != []
    && var r := history[|history| - 1];
    && r.outcome.TurnedDown? && !Fits(p, maxWeight, r.block, r.totals)
    && 4000 + Total(p.weight, r.block, p.n) > maxWeight - 4000 && Failures(p, maxWeight, history) > 1000
  }

  /** It has never come to that. */
  ghost predicate StillHope(p: Pool, maxWeight: int, history: seq<Round>)
    requires PoolLengths(p)
  {
    forall k :: 0 <= k <= |history| ==> !Hopeless(p, maxWeight, history[..k])
  }

  lemma HopeAll(p: Pool, maxWeight: int, history: seq<Round>)
    requires PoolLengths(p) && StillHope(p, maxWeight, history)
    ensures forall k :: 0 <= k < |history| ==> !Hopeless(p, maxWeight, history[..k])
    ensures !Hopeless(p, maxWeight, history)
  {
    assert history[..|history|] == history;
  }

  lemma HopeMore(p: Pool, maxWeight: int, history: seq<Round>, r: Round)
    requires PoolLengths(p) && StillHope(p, maxWeight, history)
    ensures !Hopeless(p, maxWeight, history + [r]) ==> StillHope(p, maxWeight, history + [r])
    ensures forall k :: 0 <= k <= |history| ==> !Hopeless(p, maxWeight, (history + [r])[..k])
    ensures Hopeless(p, maxWeight, history + [r]) <==>
      && r.outcome.TurnedDown? && !Fits(p, maxWeight, r.block, r.totals)
      && 4000 + Total(p.weight, r.block, p.n) > maxWeight - 4000 && Failures(p, maxWeight, history + [r]) > 1000
  {
    hide Failures, Fits;
    forall k | 0 <= k <= |history| ensures !Hopeless(p, maxWeight, (history + [r])[..k]) {
      assert (history + [r])[..k] == history[..k];
    }
    assert (history + [r])[..|history| + 1] == history + [r];
  }

  lemma RunMore(p: Pool, rules: Rules, start: set<nat>, history: seq<Round>, end: set<nat>, r: Round)
    requires PoolOk(p) && PoolLengths(p) && RunOk(p, rules, start, history, end)
    requires RoundOk(p, rules, r) && r.block == end && r.erased == ErasedAt(p, history, |history|)
    requires AllOpen(p, rules.order, history, r.block, r.waiting)
    ensures RunOk(p, rules, start, history + [r], After(p, r))
    ensures TurnedIn(history + [r]) == TurnedIn(history) + if r.outcome.TurnedDown? then {r.entry} else {}
    ensures ErasedAt(p, history + [r], |history + [r]|) == ErasedAfter(p, r)
  {
    hide RoundOk, AllOpen, PoolOk, After, ErasedAfter;
    var h := history + [r];
    forall k | 0 <= k < |h| ensures StepOk(p, rules, start, h, k) {
      if k < |history| {
        assert StepOk(p, rules, start, history, k);
        assert h[..k] == history[..k];
      } else {
        assert h[..k] == history;
      }
    }
    TurnedMore(history, r);
  }

  lemma TurnedMore(history: seq<Round>, r: Round)
    ensures TurnedIn(history + [r]) == TurnedIn(history) + if r.outcome.TurnedDown? then {r.entry} else {}
  {
    var h := history + [r];
    forall i ensures i in TurnedIn(h) <==> i in TurnedIn(history) || (r.outcome.TurnedDown? && i == r.entry) {
      if i in TurnedIn(history) {
        var k :| 0 <= k < |history| && history[k].outcome.TurnedDown? && history[k].entry == i;
        assert h[k] == history[k];
      }
      if r.outcome.TurnedDown? && i == r.entry { assert h[|history|] == r; }
    }
  }

  lemma FailuresMore(p: Pool, maxWeight: int, history: seq<Round>, r: Round)
    requires PoolLengths(p)
    ensures Failures(p, maxWeight, history + [r]) ==
      if !r.outcome.TurnedDown? then 0
      else Failures(p, maxWeight, history) + if Fits(p, maxWeight, r.block, r.totals) then 0 else 1
  {
    assert (history + [r])[..|history|] == history;
  }

  /** The block only grows. */
  lemma {:induction false} BlockGrows(p: Pool, rules: Rules, start: set<nat>, history: seq<Round>, end: set<nat>,
                                      k: nat)
    requires PoolOk(p) && PoolLengths(p) && RunOk(p, rules, start, history, end) && k <= |history|
    ensures BlockAt(p, start, history, k) <= end
    decreases |history| - k
  {
    if k == |history| {
    } else {
      assert StepOk(p, rules, start, history, k);
      BlockGrows(p, rules, start, history, end, k + 1);
    }
  }

  /** What was turned down was so for a reason: at that time, with its totals, it did not fit, or a
      transaction of the package was not final. */
  lemma TurnedReason(p: Pool, rules: Rules, start: set<nat>, history: seq<Round>, end: set<nat>, k: nat)
    requires PoolOk(p) && PoolLengths(p) && RunOk(p, rules, start, history, end)
    requires k < |history| && history[k].outcome.TurnedDown?
    ensures var r := history[k];
      && r.entry < p.n && r.block <= end && Candidate(p, r.entry, r.totals, r.block, r.erased)
      && Covers(p, r.totals, r.entry, r.block)
      && (!Fits(p, rules.maxWeight, r.block, r.totals) || !AllFinal(p, r.entry, r.block, rules.isFinal))
  {
    hide Candidate, Fits, AllFinal, After, PoolOk, Covers, AllOpen, ErasedAt, NoneBetter;
    assert StepOk(p, rules, start, history, k);
    BlockGrows(p, rules, start, history, end, k);
    CandidateCovers(p, history[k].entry, history[k].totals, history[k].block, history[k].erased);
  }

  /** An entry that was turned down fails again with its full totals, however the block has grown. */
  lemma FailsAgain(p: Pool, rules: Rules, block: set<nat>, later: set<nat>, i: nat, m: Mod)
    requires PoolOk(p) && PoolLengths(p) && i < p.n && Covers(p, m, i, block) && block <= later
    requires !Fits(p, rules.maxWeight, block, m) || !AllFinal(p, i, block, rules.isFinal)
    requires forall x :: x in later ==> rules.isFinal(x)
    ensures !OutcomeOf(p, rules, later, i, FullMod(p, i)).Taken?
  {
    TotalMono(p.weight, block, later, p.n);
    TotalMono(p.sigops, block, later, p.n);
    hide Total, Left;
    if !AllFinal(p, i, block, rules.isFinal) {
      var x :| x in Package(p, i, block) && !rules.isFinal(x);
      assert x in Package(p, i, later);
    }
  }

  /** When no entry is open any more, none that is left could be taken with its full totals. */
  lemma NothingLeft(p: Pool, rules: Rules, start: set<nat>, history: seq<Round>, end: set<nat>, n: nat)
    requires PoolOk(p) && PoolLengths(p) && RunOk(p, rules, start, history, end) && n < |rules.order|
    requires rules.order[n] < p.n && rules.order[n] !in end && !Open(p, history, end, rules.order[n])
    requires forall x :: x in end ==> rules.isFinal(x)
    ensures !OutcomeOf(p, rules, end, rules.order[n], FullMod(p, rules.order[n])).Taken?
  {
    hide RunOk, Candidate, Covers, Fits, AllFinal, OutcomeOf, FullMod, PoolOk;
    var i := rules.order[n];
    var l: nat :| TurnedAt(history, l, i) && p.anc[i] * (end - history[l].block) == {};
    TurnedReason(p, rules, start, history, end, l);
    FailsAgain(p, rules, history[l].block, end, i, history[l].totals);
  }

  ghost function Everyone(n: nat): (s: set<nat>)
    ensures forall x: nat :: x in s <==> x < n
  {
    if n == 0 then {} else Everyone(n - 1) + {n - 1}
  }

  /** There is room for the whole mempool. */
  ghost predicate Roomy(p: Pool, rules: Rules)
    requires PoolLengths(p)
  {
    var all := Everyone(p.n);
    && (forall x :: x in all ==> rules.isFinal(x))
    && 4000 + WITNESS_SCALE_FACTOR * Total(p.size, all, p.n) < rules.maxWeight
    && 400 + Total(p.sigops, all, p.n) < MAX_BLOCK_SIGOPS_COST
  }

  /** If there is room for all, no entry is ever turned down. */
  lemma {:induction false} RoomForAll(p: Pool, rules: Rules, start: set<nat>, history: seq<Round>, end: set<nat>,
                                      k: nat)
    requires PoolOk(p) && PoolLengths(p) && RunOk(p, rules, start, history, end) && Roomy(p, rules)
    requires k < |history|
    ensures !history[k].outcome.TurnedDown? && history[k].erased == map[]
  {
    hide RoundOk, AllOpen, PoolOk, Roomy, After, Since;
    if k == 0 {
    } else {
      RoomForAll(p, rules, start, history, end, k - 1);
    }
    assert StepOk(p, rules, start, history, k);
    RoomForOne(p, rules, history[k]);
  }

  lemma RoomForOne(p: Pool, rules: Rules, r: Round)
    requires PoolOk(p) && PoolLengths(p) && RoundOk(p, rules, r) && Roomy(p, rules) && r.erased == map[]
    ensures !r.outcome.TurnedDown?
  {
    hide Total, FullMod, Counts, NoneBetter;
    var i, m, block := r.entry, r.totals, r.block;
    assert Candidate(p, i, m, block, map[]);
    LeftIs(p, i, m, block);
    var all := Everyone(p.n);
    TotalScaled(p.weight, p.size, block, p.n);
    TotalDisjoint(p.size, block, Package(p, i, block), p.n);
    TotalDisjoint(p.sigops, block, Package(p, i, block), p.n);
    TotalMono(p.size, block + Package(p, i, block), all, p.n);
    TotalMono(p.sigops, block + Package(p, i, block), all, p.n);
    assert AllFinal(p, i, block, rules.isFinal) by { assert Within(p.anc[i], p.n); }
  }

  /** The totals of a candidate, while nothing was erased, are those of what is left of its package. */
  lemma LeftIs(p: Pool, i: nat, m: Mod, block: set<nat>)
    requires PoolOk(p) && PoolLengths(p) && Candidate(p, i, m, block, map[])
    ensures m.size == Left(p, p.size, i, block) && m.sigops == Left(p, p.sigops, i, block)
  {
    hide Total, Left;
    assert block - {} == block;
    LeftSplit(p, p.size, i, block);
    LeftSplit(p, p.sigops, i, block);
    TotalEmpty(p.size, p.n);
    TotalEmpty(p.sigops, p.n);
  }

  /** The candidates, with their totals: the modified entries, and those still to come that are neither
      modified, nor erased, nor in the block. */
  ghost function Waiting(p: Pool, order: seq<nat>, mi: nat, block: set<nat>, modified: map<nat, Mod>,
                         erased: Erased): map<nat, Mod>
    requires PoolLengths(p) && mi <= |order|
  {
    modified + (map j | j in order[mi..] && j < p.n && j !in block && j !in modified && j !in erased :: FullMod(p, j))
  }

  lemma WaitingCandidates(p: Pool, order: seq<nat>, mi: nat, block: set<nat>, modified: map<nat, Mod>,
                          erased: Erased)
    requires PoolOk(p) && PoolLengths(p) && mi <= |order| && modified.Keys !! block
    requires AllTrack(p, modified, block, block, {}, erased) && Untouched(p, modified, block, erased, block)
    ensures var waiting := Waiting(p, order, mi, block, modified, erased);
      forall j :: j in waiting ==> Candidate(p, j, waiting[j], block, erased)
  {
    hide PoolOk, FullMod, Since, FeesAre;
    var waiting := Waiting(p, order, mi, block, modified, erased);
    forall j | j in waiting ensures Candidate(p, j, waiting[j], block, erased) {
      if j in modified { TrackSome(p, modified, block, j, erased); }
    }
  }

  lemma TrackSome(p: Pool, modified: map<nat, Mod>, block: set<nat>, j: nat, erased: Erased)
    requires PoolLengths(p) && AllTrack(p, modified, block, block, {}, erased) && j in modified
    ensures j < p.n && Counts(p, modified[j], j, Since(p, j, block, erased)) && Since(p, j, block, erased) != {}
  {
    var f :| FeesAre(p, modified[j].fees, j, Since(p, j, block, erased), f);
  }

  /** How the rounds so far are tied to the state: an entry was erased at one of them, and turned down for
      the last time then; one that never was had no ancestors in the block when it was turned down, and
      the index is past it. */
  ghost predicate Linked(p: Pool, order: seq<nat>, mi: nat, block: set<nat>, modified: map<nat, Mod>, erased: Erased,
                         history: seq<Round>)
  {
    && (forall j :: j in erased ==> exists l: nat :: TurnedAt(history, l, j) && history[l].block == erased[j])
    && (forall l: nat, j: nat :: TurnedAt(history, l, j) ==> TurnedOk(p, block, erased, history[l].block, j))
    && (NoRepeats(order) && mi <= |order| ==>
        forall l: nat, j: nat :: TurnedAt(history, l, j) ==> Passed(order[mi..], block, modified, erased, j))
  }

  ghost predicate TurnedOk(p: Pool, block: set<nat>, erased: Erased, at: set<nat>, j: nat) {
    && j < |p.anc| && at <= block
    && if j in erased then at <= erased[j] else p.anc[j] * at == {}
  }

  ghost predicate Passed(rest: seq<nat>, block: set<nat>, modified: map<nat, Mod>, erased: Erased, j: nat) {
    j in modified || j in block || j in erased || j !in rest
  }

  /** The candidates are the open entries. */
  lemma WaitingOpen(p: Pool, order: seq<nat>, mi: nat, block: set<nat>, modified: map<nat, Mod>, erased: Erased,
                    history: seq<Round>)
    requires PoolLengths(p) && mi <= |order| && modified.Keys !! block
    requires AllTrack(p, modified, block, block, {}, erased) && Untouched(p, modified, block, erased, block)
    requires Considered(order, mi, block, modified, TurnedIn(history))
    requires Linked(p, order, mi, block, modified, erased, history)
    ensures AllOpen(p, order, history, block, Waiting(p, order, mi, block, modified, erased))
  {
    hide FullMod, Counts, AllTrack, Untouched, Considered, Linked, TurnedIn, Since;
    var waiting := Waiting(p, order, mi, block, modified, erased);
    forall n | 0 <= n < |order| && order[n] < |p.anc| && Open(p, history, block, order[n])
      ensures order[n] in waiting
    {
      if order[n] !in modified {
        OpenNotErased(p, order, mi, block, modified, erased, history, n);
        assert order[n] == order[mi..][n - mi];
      }
    }
    if NoRepeats(order) {
      forall j | j in waiting && j < |p.anc| ensures Open(p, history, block, j) {
        forall l: nat | TurnedAt(history, l, j) ensures p.anc[j] * (block - history[l].block) != {} {
          TurnedCandidate(p, order, mi, block, modified, erased, history, j, l);
        }
      }
    }
  }

  lemma OpenNotErased(p: Pool, order: seq<nat>, mi: nat, block: set<nat>, modified: map<nat, Mod>, erased: Erased,
                      history: seq<Round>, n: nat)
    requires n < |order| && order[n] < |p.anc| && mi <= |order| && order[n] !in modified
    requires Untouched(p, modified, block, erased, block) && Open(p, history, block, order[n])
    requires Considered(order, mi, block, modified, TurnedIn(history))
    requires Linked(p, order, mi, block, modified, erased, history)
    ensures n >= mi && order[n] !in erased
  {
    var j := order[n];
    assert Since(p, j, block, erased) == {};
    if j in erased {
      assert false;
    }
    if n < mi {
      assert j in TurnedIn(history);
      var l :| 0 <= l < |history| && history[l].outcome.TurnedDown? && history[l].entry == j;
      assert TurnedAt(history, l, j);
      assert false;
    }
  }

  lemma TurnedCandidate(p: Pool, order: seq<nat>, mi: nat, block: set<nat>, modified: map<nat, Mod>, erased: Erased,
                        history: seq<Round>, j: nat, l: nat)
    requires PoolLengths(p) && mi <= |order| && NoRepeats(order) && AllTrack(p, modified, block, block, {}, erased)
    requires Linked(p, order, mi, block, modified, erased, history) && TurnedAt(history, l, j)
    requires j in Waiting(p, order, mi, block, modified, erased)
    ensures j < |p.anc| && p.anc[j] * (block - history[l].block) != {}
  {
    hide FullMod, Counts;
    if j in modified {
      TrackSome(p, modified, block, j, erased);
      var x :| x in Since(p, j, block, erased);
      assert x in p.anc[j] * (block - history[l].block);
    } else {
      assert false;
    }
  }

  lemma LinkedTaken(p: Pool, order: seq<nat>, mi: nat, mi': nat, block: set<nat>, block': set<nat>,
                    modified: map<nat, Mod>, modified': map<nat, Mod>, erased: Erased, history: seq<Round>, r: Round)
    requires Linked(p, order, mi, block, modified, erased, history) && !r.outcome.TurnedDown? && block <= block'
    requires mi <= mi' <= |order| && forall d :: d in modified ==> d in modified' || d in block'
    ensures Linked(p, order, mi', block', modified', erased, history + [r])
  {
    SameTurned(history, r);
    assert order[mi'..] == order[mi..][mi' - mi..];
    forall j | j in erased
      ensures exists l: nat :: TurnedAt(history + [r], l, j) && (history + [r])[l].block == erased[j]
    {
      var l: nat :| TurnedAt(history, l, j) && history[l].block == erased[j];
      assert TurnedAt(history + [r], l, j) && (history + [r])[l] == history[l];
    }
  }

  lemma SameTurned(history: seq<Round>, r: Round)
    ensures forall l: nat, j :: TurnedAt(history + [r], l, j) <==>
      TurnedAt(history, l, j) || (l == |history| && r.outcome.TurnedDown? && r.entry == j)
    ensures forall l: nat, j :: TurnedAt(history, l, j) ==> (history + [r])[l] == history[l]
  {
  }

  lemma LinkedErased(p: Pool, order: seq<nat>, mi: nat, block: set<nat>, modified: map<nat, Mod>, erased: Erased,
                     history: seq<Round>, r: Round)
    requires Linked(p, order, mi, block, modified, erased, history) && r.outcome.TurnedDown? && r.block == block
    requires r.entry < |p.anc|
    ensures Linked(p, order, mi, block, modified - {r.entry}, erased[r.entry := block], history + [r])
  {
    var h := history + [r];
    SameTurned(history, r);
    var erased' := erased[r.entry := block];
    forall j | j in erased' ensures exists l: nat :: TurnedAt(h, l, j) && h[l].block == erased'[j] {
      if j == r.entry {
        assert TurnedAt(h, |history|, j) && h[|history|].block == erased'[j];
      } else {
        var l: nat :| TurnedAt(history, l, j) && history[l].block == erased[j];
        assert TurnedAt(h, l, j) && h[l] == history[l];
      }
    }
  }

  lemma LinkedPassed(p: Pool, order: seq<nat>, mi: nat, block: set<nat>, modified: map<nat, Mod>, erased: Erased,
                     history: seq<Round>, r: Round)
    requires Linked(p, order, mi, block, modified, erased, history) && r.outcome.TurnedDown? && r.block == block
    requires mi < |order| && order[mi] == r.entry < |p.anc| && r.entry !in erased && p.anc[r.entry] * block == {}
    ensures Linked(p, order, mi + 1, block, modified, erased, history + [r])
  {
    var h := history + [r];
    SameTurned(history, r);
    assert order[mi + 1..] == order[mi..][1..];
    forall j | j in erased ensures exists l: nat :: TurnedAt(h, l, j) && h[l].block == erased[j] {
      var l: nat :| TurnedAt(history, l, j) && history[l].block == erased[j];
      assert TurnedAt(h, l, j) && h[l] == history[l];
    }
    if NoRepeats(order) { assert r.entry !in order[mi + 1..]; }
  }

  lemma LinkedSkip(p: Pool, order: seq<nat>, mi: nat, block: set<nat>, modified: map<nat, Mod>, erased: Erased,
                   history: seq<Round>)
    requires Linked(p, order, mi, block, modified, erased, history) && mi < |order|
    ensures Linked(p, order, mi + 1, block, modified, erased, history)
  {
    assert order[mi + 1..] == order[mi..][1..];
  }

  lemma WaitingNotBetter(p: Pool, order: seq<nat>, mi: nat, block: set<nat>, modified: map<nat, Mod>,
                         erased: Erased, i: nat, m: Mod)
    requires PoolOk(p) && PoolLengths(p) && mi <= |order| && IndexSorted(p, order)
    requires Sized(p, i, m) && NoneBetter(p, modified, i, m)
    requires mi < |order| ==> NotBetterThan(p, order[mi], i, m)
    ensures NoneBetter(p, Waiting(p, order, mi, block, modified, erased), i, m)
  {
    hide Better, FullMod, PoolOk, IndexSorted;
    var waiting := Waiting(p, order, mi, block, modified, erased);
    forall j | j in waiting ensures j < p.n && !Better(p, j, waiting[j], i, m) {
      if j !in modified {
        var k :| 0 <= k < |order[mi..]| && order[mi..][k] == j;
        LaterNotBetter(p, order, mi, mi + k, i, m);
      }
    }
  }

  lemma LaterNotBetter(p: Pool, order: seq<nat>, mi: nat, k: nat, i: nat, m: Mod)
    requires PoolOk(p) && PoolLengths(p) && IndexSorted(p, order) && mi <= k < |order| && Sized(p, i, m)
    requires order[mi] < p.n && !Better(p, order[mi], FullMod(p, order[mi]), i, m)
    ensures order[k] < p.n && !Better(p, order[k], FullMod(p, order[k]), i, m)
  {
    hide Better, FullMod;
    FullSized(p, order[mi]);
    FullSized(p, order[k]);
    if k > mi { NotBetterTrans(p, order[k], FullMod(p, order[k]), order[mi], FullMod(p, order[mi]), i, m); }
  }

  lemma FullSized(p: Pool, i: nat)
    requires PoolOk(p) && i < p.n
    ensures PoolLengths(p) && Sized(p, i, FullMod(p, i))
  {
    hide FullMod, Covers;
    FullModCovers(p, i, {});
    CoverSized(p, i, FullMod(p, i), {});
  }

  lemma CandidateCovers(p: Pool, j: nat, m: Mod, block: set<nat>, erased: Erased)
    requires PoolOk(p) && PoolLengths(p) && Candidate(p, j, m, block, erased)
    ensures Covers(p, m, j, block) && Sized(p, j, m)
  {
    hide FullMod, Covers, Counts;
    FullModCovers(p, j, block);
    if Since(p, j, block, erased) != {} { CountsCover(p, m, j, block, Since(p, j, block, erased)); }
    CoverSized(p, j, m, block);
  }

  // ---------- the fee floor ----------

  /** Nothing among the candidates scores above a fee rate. */
  ghost predicate RestBelow(p: Pool, waiting: map<nat, Mod>, top: Rate)
    requires PoolLengths(p)
  {
    top.size > 0 && forall j :: j in waiting ==> Sized(p, j, waiting[j]) && !Less(top, Score(p, j, waiting[j]))
  }

  /** When the best candidate is below the floor, nothing left scores above its package's fee rate. */
  lemma FloorStop(p: Pool, rules: Rules, r: Round)
    requires PoolOk(p) && PoolLengths(p) && RoundOk(p, rules, r) && r.outcome.Floor? && IndexSorted(p, rules.order)
    ensures r.totals.fees < rules.minFee(r.totals.size)
    ensures RestBelow(p, r.waiting, Rate(r.totals.fees, r.totals.size))
  {
    hide Candidate, Better, PoolOk, Score, Less, IndexSorted, Fits, AllFinal, Sized;
    assert OutcomeOf(p, rules, r.block, r.entry, r.totals).Floor?;
    CandidateCovers(p, r.entry, r.totals, r.block, r.erased);
    SizedIs(p, r.entry, r.totals);
    forall j | j in r.waiting
      ensures Sized(p, j, r.waiting[j])
      ensures !Less(Rate(r.totals.fees, r.totals.size), Score(p, j, r.waiting[j]))
    {
      CandidateCovers(p, j, r.waiting[j], r.block, r.erased);
      NotAbove(p, j, r.waiting[j], r.entry, r.totals);
    }
  }

  lemma SizedIs(p: Pool, i: nat, m: Mod)
    requires Sized(p, i, m)
    ensures i < p.n && m.size > 0
  {
  }

  lemma NotAbove(p: Pool, j: nat, n: Mod, i: nat, m: Mod)
    requires Sized(p, j, n) && Sized(p, i, m) && PoolLengths(p) && j < p.n && i < p.n && !Better(p, j, n, i, m)
    ensures !Less(Rate(m.fees, m.size), Score(p, j, n))
  {
    ScoreSized(p, j, n);
    ScoreSized(p, i, m);
    hide Less, Score, PoolOk;
    LessTrans(Score(p, j, n), Score(p, i, m), Rate(m.fees, m.size));
  }

  /** That nothing scores above a rate says as much of a package's own rate if and only if the
      transaction itself pays at least that rate: otherwise its ancestors raise it. */
  lemma PackageAbove(p: Pool, j: nat, m: Mod)
    requires Sized(p, j, m) && PoolLengths(p)
    ensures var own, package := Rate(p.modFee[j], p.size[j]), Rate(m.fees, m.size);
      (forall top: Rate :: top.size > 0 && !Less(top, Score(p, j, m)) ==> !Less(top, package)) <==> !Less(own, package)
  {
    var own, package := Rate(p.modFee[j], p.size[j]), Rate(m.fees, m.size);
    ScoreSized(p, j, m);
    if Less(own, package) {
      assert Score(p, j, m) == own && !Less(own, own) by { Irreflexive(p.modFee[j], p.size[j]); }
    } else {
      forall top: Rate | top.size > 0 && !Less(top, Score(p, j, m)) ensures !Less(top, package) {
        if Less(top, package) && !Less(package, own) {
          assert !Less(package, top);
          LessTrans(top, package, own);
        }
      }
    }
  }

  /** And that happens.  Three children pay for one parent that pays nothing: two of them 3 per byte,
      and one, a child also of the other two, 1.4.  A child of the first kind scores 1.5, the most of
      all; with a floor of 1.6 the selection stops there, leaving the package of the last one, which
      pays 1.85. */
  lemma FloorMisses()
    ensures var p := Misses();
      var rules := Rules(4000000, size => 16 * size / 10, _ => true, [1, 2, 3, 0]);
      && PoolOk(p) && PoolLengths(p) && IndexSorted(p, rules.order)
      && var r := Round({}, map[], Waiting(p, rules.order, 0, {}, map[], map[]), 1, Mod(200, 300, 0), Floor);
      && RunOk(p, rules, {}, [r], {})
      && 3 in r.waiting && r.waiting[3] == Mod(400, 740, 0)
      && r.waiting[3].fees >= rules.minFee(r.waiting[3].size) && Less(Rate(300, 200), Rate(740, 400))
  {
    var p := Misses();
    var rules := Rules(4000000, size => 16 * size / 10, _ => true, [1, 2, 3, 0]);
    MissesOk();
    MissesSorted();
    MissesTotals();
    hide Misses, IndexSorted, FullMod, Better, PoolOk;
    var waiting := Waiting(p, rules.order, 0, {}, map[], map[]);
    assert rules.order[0..] == rules.order;
    assert rules.order[0] == 1 && rules.order[2] == 3 && rules.order[3] == 0;
    var r := Round({}, map[], waiting, 1, Mod(200, 300, 0), Floor);
    assert [] + [r] == [r];
    FirstRound(p, rules, r);
  }

  ghost function First(p: Pool, rules: Rules): Round
    requires PoolLengths(p) && |rules.order| > 0 && rules.order[0] < p.n
  {
    var i := rules.order[0];
    var waiting := Waiting(p, rules.order, 0, {}, map[], map[]);
    Round({}, map[], waiting, i, FullMod(p, i), OutcomeOf(p, rules, {}, i, FullMod(p, i)))
  }

  /** Before anything is in the block, all entries of the index are candidates, the first the best. */
  lemma FirstRound(p: Pool, rules: Rules, r: Round)
    requires PoolOk(p) && PoolLengths(p) && IndexSorted(p, rules.order) && |rules.order| > 0
    requires forall k :: 0 <= k < |rules.order| ==> rules.order[k] < p.n
    requires r == First(p, rules)
    ensures RunOk(p, rules, {}, [] + [r], After(p, r))
  {
    hide IndexSorted, FullMod, Better, PoolOk, RoundOk, Candidate, OutcomeOf, RunOk, After;
    var i := rules.order[0];
    FullSized(p, i);
    NoneOfNone(p, i, FullMod(p, i));
    NotBetterSelf(p, i, FullMod(p, i));
    WaitingNotBetter(p, rules.order, 0, {}, map[], map[], i, FullMod(p, i));
    NothingModified(p, {});
    WaitingCandidates(p, rules.order, 0, {}, map[], map[]);
    NoRounds(p, rules);
    WaitingOpen(p, rules.order, 0, {}, map[], map[], []);
    FirstOk(p, rules, r);
    RunMore(p, rules, {}, [], {}, r);
  }

  lemma FirstOk(p: Pool, rules: Rules, r: Round)
    requires PoolOk(p) && PoolLengths(p) && |rules.order| > 0 && rules.order[0] < p.n
    requires r == First(p, rules)
    requires forall j :: j in r.waiting ==> Candidate(p, j, r.waiting[j], {}, map[])
    requires NoneBetter(p, r.waiting, r.entry, r.totals)
    ensures RoundOk(p, rules, r)
  {
    hide IndexSorted, FullMod, Better, PoolOk, Candidate, OutcomeOf, NoneBetter;
    assert rules.order[0..][0] == rules.order[0];
  }

  lemma NoRounds(p: Pool, rules: Rules)
    requires PoolOk(p) && PoolLengths(p)
    ensures RunOk(p, rules, {}, [], {}) && TurnedIn([]) == {}
    ensures Linked(p, rules.order, 0, {}, map[], map[], []) && Considered(rules.order, 0, {}, map[], {})
  {
  }

  lemma MissesSorted()
    ensures PoolLengths(Misses()) && IndexSorted(Misses(), [1, 2, 3, 0])
  {
    MissesOk();
    hide Misses;
    MissesTotals();
  }

  function Misses(): Pool {
    Pool(4, [{}, {0}, {0}, {0, 1, 2}], [100, 100, 100, 100], [400, 400, 400, 400], [0, 0, 0, 0],
         [0, 300, 300, 140], [0, 300, 300, 140], [0, 1, 2, 3])
  }

  lemma MissesOk()
    ensures PoolOk(Misses())
    ensures var p := Misses();
      p.n == 4 && p.size == [100, 100, 100, 100] && p.modFee == [0, 300, 300, 140] && p.hash == [0, 1, 2, 3]
  {
  }

  lemma MissesTotals()
    ensures PoolLengths(Misses())
    ensures FullMod(Misses(), 0) == Mod(100, 0, 0) && FullMod(Misses(), 1) == Mod(200, 300, 0)
    ensures FullMod(Misses(), 2) == Mod(200, 300, 0) && FullMod(Misses(), 3) == Mod(400, 740, 0)
  {
    var p := Misses();
    forall i, v: seq<int> | 0 <= i < 4 && |v| == 4
      ensures Left(p, v, i, {}) == TotalOf(v, Package(p, i, {}))
    {
      TotalFour(v, Package(p, i, {}));
    }
  }

  function TotalOf(v: seq<int>, s: set<nat>): int
    requires |v| == 4
  {
    (if 0 in s then v[0] else 0) + (if 1 in s then v[1] else 0)
    + (if 2 in s then v[2] else 0) + (if 3 in s then v[3] else 0)
  }

  lemma TotalFour(v: seq<int>, s: set<nat>)
    requires |v| == 4
    ensures Total(v, s, 4) == TotalOf(v, s)
  {
    assert Total(v, s, 0) == 0;
    assert Total(v, s, 1) == if 0 in s then v[0] else 0;
    assert Total(v, s, 2) == Total(v, s, 1) + if 1 in s then v[1] else 0;
    assert Total(v, s, 3) == Total(v, s, 2) + if 2 in s then v[2] else 0;
  }

  /** Every one of the first mi entries is in the block, still modified, or was turned down. */
  ghost predicate Considered(order: seq<nat>, mi: nat, block: set<nat>, modified: map<nat, Mod>, turned: set<nat>) {
    forall k :: 0 <= k < mi && k < |order| ==> order[k] in block || order[k] in modified || order[k] in turned
  }

  /** All that is kept of the modified and erased entries while the selection is at entry mi of the index. */
  ghost predicate Books(p: Pool, order: seq<nat>, mi: nat, block: set<nat>, modified: map<nat, Mod>, erased: Erased,
                        history: seq<Round>)
    requires PoolLengths(p)
  {
    && AllTrack(p, modified, block, block, {}, erased) && modified.Keys !! block
    && Below(erased, block) && Untouched(p, modified, block, erased, block)
    && Considered(order, mi, block, modified, TurnedIn(history))
    && Linked(p, order, mi, block, modified, erased, history)
    && erased == ErasedAt(p, history, |history|)
  }

  lemma BooksParts(p: Pool, order: seq<nat>, mi: nat, block: set<nat>, modified: map<nat, Mod>, erased: Erased,
                   history: seq<Round>)
    requires PoolLengths(p) && Books(p, order, mi, block, modified, erased, history)
    ensures AllTrack(p, modified, block, block, {}, erased) && modified.Keys !! block
    ensures Below(erased, block) && Untouched(p, modified, block, erased, block)
  {
  }

  lemma BooksTaken(p: Pool, order: seq<nat>, mi: nat, mi': nat, block: set<nat>, block': set<nat>,
                   modified: map<nat, Mod>, modified': map<nat, Mod>, erased: Erased, history: seq<Round>, r: Round)
    requires PoolLengths(p) && Books(p, order, mi, block, modified, erased, history)
    requires r.outcome.Taken? && r.erased == erased && block <= block' && r.entry in block'
    requires mi' <= |order| && (mi' == mi || (mi < |order| && mi' == mi + 1 && order[mi] == r.entry))
    requires forall d :: d in modified ==> d in modified' || d in block'
    requires AllTrack(p, modified', block', block', {}, erased) && modified'.Keys !! block'
    requires Untouched(p, modified', block', erased, block')
    ensures Books(p, order, mi', block', modified', erased, history + [r])
  {
    hide AllTrack, Untouched, Considered, Linked, TurnedIn, Below;
    TurnedMore(history, r);
    assert TurnedIn(history) + {} == TurnedIn(history);
    TakenConsidered(order, mi, mi', r.entry, block, block', modified, modified', TurnedIn(history));
    LinkedTaken(p, order, mi, mi', block, block', modified, modified', erased, history, r);
    BelowMore(erased, block, block');
  }

  lemma BooksErased(p: Pool, order: seq<nat>, mi: nat, block: set<nat>, modified: map<nat, Mod>, erased: Erased,
                    history: seq<Round>, r: Round)
    requires PoolLengths(p) && Books(p, order, mi, block, modified, erased, history) && mi <= |order|
    requires r.outcome.TurnedDown? && r.block == block && r.erased == erased && r.entry in modified
    ensures Books(p, order, mi, block, modified - {r.entry}, erased[r.entry := block], history + [r])
  {
    var i := r.entry;
    hide AllTrack, Untouched, Considered, Linked, TurnedIn, Below, Since;
    TurnedMore(history, r);
    TrackSome(p, modified, block, i, erased);
    TurnedConsidered(order, mi, mi, i, true, block, modified, TurnedIn(history));
    LinkedErased(p, order, mi, block, modified, erased, history, r);
    TrackErased(p, modified, block, i, erased);
    ErasedUntouched(p, modified, block, i, erased);
    BelowErased(erased, block, i);
  }

  lemma BooksPassed(p: Pool, order: seq<nat>, mi: nat, block: set<nat>, modified: map<nat, Mod>, erased: Erased,
                    history: seq<Round>, r: Round)
    requires PoolLengths(p) && Books(p, order, mi, block, modified, erased, history)
    requires r.outcome.TurnedDown? && r.block == block && r.erased == erased && mi < |order| && order[mi] == r.entry
    requires r.entry < p.n && r.entry !in modified && r.entry !in block && r.entry !in erased
    ensures Books(p, order, mi + 1, block, modified, erased, history + [r])
  {
    hide AllTrack, Untouched, Considered, Linked, TurnedIn, Below, Since;
    TurnedMore(history, r);
    TurnedConsidered(order, mi, mi + 1, r.entry, false, block, modified, TurnedIn(history));
    NoneSince(p, modified, block, erased, r.entry);
    LinkedPassed(p, order, mi, block, modified, erased, history, r);
  }

  lemma BooksSkip(p: Pool, order: seq<nat>, mi: nat, block: set<nat>, modified: map<nat, Mod>, erased: Erased,
                  history: seq<Round>)
    requires PoolLengths(p) && Books(p, order, mi, block, modified, erased, history) && mi < |order|
    requires order[mi] in modified || order[mi] in block || order[mi] in erased
    ensures Books(p, order, mi + 1, block, modified, erased, history)
  {
    hide AllTrack, Untouched, Linked, TurnedIn, Below;
    LinkedSkip(p, order, mi, block, modified, erased, history);
    ErasedTurned(p, order, mi, block, modified, erased, history);
  }

  /** Each transaction once, and after its ancestors. */
  ghost predicate Ordered(p: Pool, vtx: seq<nat>)
    requires PoolOk(p)
  {
    && (forall k :: 0 <= k < |vtx| ==> vtx[k] < p.n)
    && (forall k, a :: 0 <= k < |vtx| && a in p.anc[vtx[k]] ==> a in vtx[..k])
    && (forall i, j :: 0 <= i < j < |vtx| ==> vtx[i] != vtx[j])
  }

  class BlockAssembler {
    const p: Pool
    const nBlockMaxWeight: int
    var vtx: seq<nat>
    var vTxFees: seq<int>
    var vTxSigOpsCost: seq<int>
    var inBlock: set<nat>
    var nBlockWeight: int
    var nBlockSigOpsCost: int
    var nBlockTx: nat
    var nFees: int

    /** The block is closed under ancestors, in order, without duplicates, and its totals are exact. */
    ghost predicate Valid()
      reads this
    {
      && PoolOk(p)
      && Within(inBlock, p.n)
      && (forall i :: i in inBlock <==> i in vtx)
      && Ordered(p, vtx)
      && nBlockWeight == 4000 + Total(p.weight, inBlock, p.n)
      && nBlockSigOpsCost == 400 + Total(p.sigops, inBlock, p.n)
      && nFees == Total(p.fee, inBlock, p.n)
      && nBlockTx == |vtx| == |vTxFees| == |vTxSigOpsCost|
      && (forall k :: 0 <= k < |vtx| ==> vTxFees[k] == p.fee[vtx[k]] && vTxSigOpsCost[k] == p.sigops[vtx[k]])
    }

    /** The weight limit asked for, or the nearer end of the range from 4000 to the consensus limit less
        4000. */
    constructor (pool: Pool, maxWeight: nat)
      requires PoolOk(pool)
      ensures Valid() && Limits() && p == pool && inBlock == {} && vtx == []
      ensures 4000 <= maxWeight <= 63996000 ==> nBlockMaxWeight == maxWeight
      ensures maxWeight < 4000 ==> nBlockMaxWeight == 4000
      ensures maxWeight > 63996000 ==> nBlockMaxWeight == 63996000
    {
      p := pool;
      var capped := if maxWeight < 64000000 - 4000 then maxWeight else 64000000 - 4000;
      nBlockMaxWeight := if capped > 4000 then capped else 4000;
      vtx, vTxFees, vTxSigOpsCost, inBlock := [], [], [], {};
      nBlockWeight, nBlockSigOpsCost, nBlockTx, nFees := 4000, 400, 0, 0;
      TotalEmpty(pool.weight, pool.n);
      TotalEmpty(pool.sigops, pool.n);
      TotalEmpty(pool.fee, pool.n);
    }

    method AddToBlock(i: nat)
      requires Valid() && i < p.n && i !in inBlock && p.anc[i] <= inBlock
      modifies this
      ensures Valid() && inBlock == old(inBlock) + {i} && vtx == old(vtx) + [i]
      ensures nBlockWeight == old(nBlockWeight) + p.weight[i] && nBlockSigOpsCost == old(nBlockSigOpsCost) + p.sigops[i]
    {
      TotalAdd(p.weight, inBlock, i, p.n);
      TotalAdd(p.sigops, inBlock, i, p.n);
      TotalAdd(p.fee, inBlock, i, p.n);
      OrderedMore(p, vtx, i);
      vtx := vtx + [i];
      vTxFees := vTxFees + [p.fee[i]];
      vTxSigOpsCost := vTxSigOpsCost + [p.sigops[i]];
      nBlockWeight := nBlockWeight + p.weight[i];
      nBlockTx := nBlockTx + 1;
      nBlockSigOpsCost := nBlockSigOpsCost + p.sigops[i];
      nFees := nFees + p.fee[i];
      inBlock := inBlock + {i};
    }

    predicate TestPackage(packageSize: int, packageSigOpsCost: int)
      reads this
    {
      && nBlockWeight + WITNESS_SCALE_FACTOR * packageSize < nBlockMaxWeight
      && nBlockSigOpsCost + packageSigOpsCost < MAX_BLOCK_SIGOPS_COST
    }

    /** The package goes into the block one by one, and out of the modified entries. */
    method AddPackage(i: nat, sorted: seq<nat>, modified0: map<nat, Mod>) returns (modified: map<nat, Mod>)
      requires Valid() && i < p.n && i !in inBlock
      requires Sorted(p, sorted) && forall x :: x in sorted <==> x in Package(p, i, inBlock)
      modifies this
      ensures Valid() && inBlock == old(inBlock) + Package(p, i, old(inBlock))
      ensures modified == modified0 - Package(p, i, old(inBlock))
    {
      hide PoolOk, Sorted, Total, Ordered;
      modified := modified0;
      Lengths(p);
      ghost var package := Package(p, i, inBlock);
      SortedIn(p, sorted);
      var k := 0;
      while k < |sorted|
        invariant 0 <= k <= |sorted| && Valid()
        invariant inBlock == old(inBlock) + (set x | x in sorted[..k])
        invariant modified == modified0 - (set x | x in sorted[..k])
      {
        AncestorsIn(p, i, sorted, k, old(inBlock));
        NotYet(p, sorted, k);
        AddToBlock(sorted[k]);
        modified := modified - {sorted[k]};
        assert sorted[..k + 1] == sorted[..k] + [sorted[k]];
        k := k + 1;
      }
      assert sorted[..k] == sorted;
      assert (set x | x in sorted) == package;
    }

    ghost predicate Limits()
      reads this
    {
      nBlockWeight <= nBlockMaxWeight && nBlockSigOpsCost < MAX_BLOCK_SIGOPS_COST
    }

    /** One attempt: the entry's package is added exactly if it fits and all of it is final.  What was
        tested covers what is added, so the limits hold although the totals may count too much. */
    method Attempt(i: nat, m: Mod, isFinal: nat -> bool, modified0: map<nat, Mod>, ghost erased: Erased)
      returns (added: bool, tooBig: bool, modified: map<nat, Mod>)
      requires Valid() && Limits() && i < p.n && i !in inBlock && Covers(p, m, i, inBlock)
      requires PoolLengths(p) && AllTrack(p, modified0, inBlock, inBlock, {}, erased) && modified0.Keys !! inBlock
      requires Below(erased, inBlock)
      requires Untouched(p, modified0, inBlock, erased, inBlock)
      requires forall x :: x in inBlock ==> isFinal(x)
      modifies this
      ensures Valid() && Limits() && (forall x :: x in inBlock ==> isFinal(x))
      ensures AllTrack(p, modified, inBlock, inBlock, {}, erased) && modified.Keys !! inBlock
      ensures Untouched(p, modified, inBlock, erased, inBlock)
      ensures tooBig <==> !Fits(p, nBlockMaxWeight, old(inBlock), m)
      ensures added <==> Fits(p, nBlockMaxWeight, old(inBlock), m) && AllFinal(p, i, old(inBlock), isFinal)
      ensures !added ==> inBlock == old(inBlock) && modified == modified0
      ensures added ==> inBlock == old(inBlock) + Package(p, i, old(inBlock)) && i in inBlock
      ensures added ==> forall d :: d in modified0 ==> d in modified || d in inBlock
    {
      hide Total, AllTrack, Ordered, PoolOk, Sorted, Untouched, Covers;
      modified := modified0;
      if !TestPackage(m.size, m.sigops) {
        return false, true, modified;
      }
      var ancestors := p.anc[i];
      ancestors := ancestors - inBlock;
      ancestors := ancestors + {i};
      assert ancestors == Package(p, i, inBlock);
      if exists x :: x in ancestors && !isFinal(x) {
        return false, false, modified;
      }
      PackageFits(p, i, inBlock, m);
      var sorted := SortForBlock(p, ancestors);
      ghost var before := inBlock;
      Closed(p, vtx, inBlock);
      DescendantsOutside(p, before, ancestors);
      modified := AddPackage(i, sorted, modified);
      TrackErase(p, modified0, before, ancestors, erased);
      UntouchedErase(p, modified0, before, ancestors, erased);
      modified := UpdatePackagesForAdded(p, ancestors, modified, before, erased);
      added, tooBig := true, false;
    }

    /** What the selection keeps while it is at entry mi of the index. */
    ghost predicate Selecting(rules: Rules, mi: nat, modified: map<nat, Mod>, erased: Erased, history: seq<Round>)
      reads this
    {
      && Valid() && Limits() && PoolLengths(p) && rules.maxWeight == nBlockMaxWeight && mi <= |rules.order|
      && (forall k :: 0 <= k < |rules.order| ==> rules.order[k] < p.n)
      && (forall x :: x in inBlock ==> rules.isFinal(x))
      && Books(p, rules.order, mi, inBlock, modified, erased, history)
    }

    /** The next entry of the index, or the best modified one if that is better: no candidate is
        better than the one chosen. */
    method Choose(rules: Rules, mi0: nat, modified: map<nat, Mod>, ghost erased: Erased, ghost history: seq<Round>)
      returns (usingModified: bool, i: nat, m: Mod, mi: nat)
      requires Selecting(rules, mi0, modified, erased, history)
      requires mi0 < |rules.order| || modified != map[]
      requires mi0 < |rules.order| ==> rules.order[mi0] !in inBlock
      ensures i < p.n && i !in inBlock && PoolOk(p) && Covers(p, m, i, inBlock)
      ensures if usingModified then mi == mi0 && i in modified && m == modified[i]
        else mi0 < |rules.order| && mi == mi0 + 1 && i == rules.order[mi0] && m == FullMod(p, i)
      ensures PoolLengths(p) && NoneBetter(p, modified, i, m)
      ensures mi0 < |rules.order| ==> NotBetterThan(p, rules.order[mi0], i, m)
    {
      hide Total, AllTrack, Ordered, PoolOk, Considered, Better, NoneBetter, FullMod, Covers, Sized, AllSized;
      hide Within, Limits, Untouched, Linked, Below, ErasedAt, TurnedIn;
      mi := mi0;
      ModifiedSized(p, modified, inBlock, erased);
      if mi < |rules.order| {
        i := rules.order[mi];
        m := FullMod(p, i);
        FullModCovers(p, i, inBlock);
        CoverSized(p, i, m, inBlock);
        NotBetterSelf(p, i, m);
        NoneOfNone(p, i, m);
      }
      usingModified := mi == |rules.order|;
      if modified != map[] {
        var best := BestModified(p, modified);
        TrackAt(p, modified, inBlock, best, erased);
        CoverSized(p, best, modified[best], inBlock);
        if mi < |rules.order| {
          usingModified := Better(p, best, modified[best], i, m);
          if usingModified {
            BetterOneWay(p, best, modified[best], i, m);
          } else {
            NoneBetterThan(p, modified, best, modified[best], i, m);
          }
        }
        if usingModified {
          i, m := best, modified[best];
        }
      }
      if !usingModified {
        mi := mi + 1;
      }
    }

    /** The round that a choice begins. */
    lemma Chosen(rules: Rules, mi: nat, modified: map<nat, Mod>, erased: Erased, history: seq<Round>, i: nat, m: Mod)
      returns (r: Round)
      requires Selecting(rules, mi, modified, erased, history) && PoolOk(p)
      requires i < p.n && Covers(p, m, i, inBlock) && i !in inBlock && NoneBetter(p, modified, i, m)
      requires mi < |rules.order| ==> NotBetterThan(p, rules.order[mi], i, m)
      requires if i in modified then m == modified[i]
        else mi < |rules.order| && i == rules.order[mi] && m == FullMod(p, i)
      requires i !in modified ==> i !in erased
      ensures RoundOk(p, rules, r) && r.block == inBlock && r.erased == erased && r.entry == i && r.totals == m
      ensures r.outcome == OutcomeOf(p, rules, inBlock, i, m) && erased == ErasedAt(p, history, |history|)
      ensures rules.maxWeight == nBlockMaxWeight && AllOpen(p, rules.order, history, inBlock, r.waiting)
    {
      hide Total, AllTrack, Ordered, PoolOk, Better, FullMod, NoneBetter, IndexSorted, Sized, Covers, Candidate;
      hide Untouched, AllOpen, Fits, AllFinal, Within, Linked, Considered, TurnedIn, ErasedAt;
      var waiting := Waiting(p, rules.order, mi, inBlock, modified, erased);
      r := Round(inBlock, erased, waiting, i, m, OutcomeOf(p, rules, inBlock, i, m));
      WaitingCandidates(p, rules.order, mi, inBlock, modified, erased);
      WaitingOpen(p, rules.order, mi, inBlock, modified, erased, history);
      CoverSized(p, i, m, inBlock);
      if i !in modified { assert i == rules.order[mi..][0]; }
      assert i in waiting && waiting[i] == m;
      if IndexSorted(p, rules.order) {
        WaitingNotBetter(p, rules.order, mi, inBlock, modified, erased, i, m);
      }
    }

    /** An attempt at the entry chosen; one from the modified entries that is turned down leaves them.
        What becomes of it is what the round says. */
    method TryPackage(rules: Rules, ghost mi0: nat, ghost mi: nat, i: nat, m: Mod, usingModified: bool,
                      modified0: map<nat, Mod>, failed0: set<nat>, ghost erased0: Erased, ghost history: seq<Round>,
                      ghost r: Round)
      returns (added: bool, tooBig: bool, modified: map<nat, Mod>, failed: set<nat>, ghost erased: Erased)
      requires Selecting(rules, mi0, modified0, erased0, history) && failed0 == erased0.Keys
      requires i < p.n && i !in inBlock && PoolOk(p) && Covers(p, m, i, inBlock)
      requires if usingModified then mi == mi0 && i in modified0
        else mi0 < |rules.order| && mi == mi0 + 1 && i == rules.order[mi0] && i !in modified0 && i !in erased0
      requires r.block == inBlock && r.erased == erased0 && r.entry == i && r.totals == m
      requires m.fees >= rules.minFee(m.size) && r.outcome == OutcomeOf(p, rules, inBlock, i, m)
      modifies this
      ensures Selecting(rules, mi, modified, erased, history + [r]) && failed == erased.Keys
      ensures old(inBlock) <= inBlock == After(p, r)
      ensures r.outcome == if added then Taken else TurnedDown
      ensures tooBig <==> !Fits(p, nBlockMaxWeight, r.block, m)
      ensures added ==> Outside(p.n, inBlock) < old(Outside(p.n, inBlock))
      ensures !added ==>
        inBlock == old(inBlock) && if usingModified then |modified| < |modified0| else modified == modified0
    {
      hide Total, AllTrack, Ordered, PoolOk, Covers, Untouched, Fits, AllFinal, Within, Below, Books, Package;
      failed, erased := failed0, erased0;
      BooksParts(p, rules.order, mi0, inBlock, modified0, erased0, history);
      added, tooBig, modified := Attempt(i, m, rules.isFinal, modified0, erased0);
      if added {
        BooksTaken(p, rules.order, mi0, mi, old(inBlock), inBlock, modified0, modified, erased, history, r);
        OutsideShrinks(p.n, old(inBlock), inBlock, i);
        return;
      }
      if usingModified {
        BooksErased(p, rules.order, mi, inBlock, modified, erased, history, r);
        SizeDrops(modified, i);
        modified := modified - {i};
        failed := failed + {i};
        erased := erased[i := inBlock];
      } else {
        BooksPassed(p, rules.order, mi0, inBlock, modified, erased, history, r);
      }
    }

    lemma SkipEntry(rules: Rules, mi: nat, modified: map<nat, Mod>, erased: Erased, history: seq<Round>)
      requires Selecting(rules, mi, modified, erased, history) && mi < |rules.order|
      requires rules.order[mi] in modified || rules.order[mi] in inBlock || rules.order[mi] in erased
      ensures Selecting(rules, mi + 1, modified, erased, history)
    {
      hide Total, Ordered, PoolOk, Books;
      BooksSkip(p, rules.order, mi, inBlock, modified, erased, history);
    }

    /** Why it stopped: no entry of the index is open any more; or the best candidate is below the fee
        floor; or the block is nearly full and more than a thousand packages in a row did not fit.  None of
        the last two came about before. */
    ghost predicate Ends(rules: Rules, history: seq<Round>, stop: Stop)
      requires PoolLengths(p)
      reads this
    {
      && (forall k :: 0 <= k < |history| ==> !Hopeless(p, nBlockMaxWeight, history[..k]))
      && (Hopeless(p, nBlockMaxWeight, history) <==> stop.NearlyFull?)
      && match stop
         case Exhausted => NoFloor(history) && AllOpen(p, rules.order, history, inBlock, map[])
         case BelowFloor =>
           |history| > 0 && history[|history| - 1].outcome.Floor? && NoFloor(history[..|history| - 1])
         case NearlyFull => NoFloor(history) && nBlockWeight > nBlockMaxWeight - 4000
    }

    /** When there is room for the whole mempool, all of the index goes in, unless the fee floor ends it. */
    lemma EverythingGoesIn(rules: Rules, start: set<nat>, history: seq<Round>, stop: Stop)
      requires Valid() && PoolLengths(p) && RunOk(p, rules, start, history, inBlock) && Roomy(p, rules)
      requires Ends(rules, history, stop) && !stop.BelowFloor?
      ensures stop.Exhausted?
      ensures forall n :: 0 <= n < |rules.order| && rules.order[n] < p.n ==> rules.order[n] in inBlock
    {
      hide RunOk, Roomy, PoolOk, Total, Ordered, Failures, Fits;
      forall k | 0 <= k < |history| ensures !history[k].outcome.TurnedDown? {
        RoomForAll(p, rules, start, history, inBlock, k);
      }
      assert forall l: nat, j: nat :: !TurnedAt(history, l, j);
    }

    /** Selection over the whole mempool.  The block is what a run of rounds makes of it, each of which
        takes the best candidate there is, or turns it down if it does not fit or is not final. */
    method AddPackageTxs(order: seq<nat>, minFee: int -> int, isFinal: nat -> bool)
      returns (stop: Stop, ghost history: seq<Round>)
      requires Valid() && Limits() && forall x :: x in inBlock ==> isFinal(x)
      requires forall k :: 0 <= k < |order| ==> order[k] < p.n
      modifies this
      ensures Valid() && Limits() && old(inBlock) <= inBlock && forall x :: x in inBlock ==> isFinal(x)
      ensures PoolLengths(p) && RunOk(p, Rules(nBlockMaxWeight, minFee, isFinal, order), old(inBlock), history, inBlock)
      ensures Ends(Rules(nBlockMaxWeight, minFee, isFinal, order), history, stop)
    {
      hide Total, AllTrack, Ordered, PoolOk, Untouched, RunOk, Ends;
      Lengths(p);
      NothingModified(p, inBlock);
      var modified := UpdatePackagesForAdded(p, inBlock, map[], {}, map[]);
      assert {} + inBlock == inBlock;
      stop, history := Select(Rules(nBlockMaxWeight, minFee, isFinal, order), modified);
    }

    method Select(rules: Rules, modified0: map<nat, Mod>) returns (stop: Stop, ghost history: seq<Round>)
      requires Selecting(rules, 0, modified0, map[], [])
      modifies this
      ensures Valid() && Limits() && old(inBlock) <= inBlock && forall x :: x in inBlock ==> rules.isFinal(x)
      ensures PoolLengths(p) && RunOk(p, rules, old(inBlock), history, inBlock)
      ensures Ends(rules, history, stop)
    {
      hide Selecting, Covers, Outside, PoolOk, Better, NoneBetter, FullMod, RunOk, RoundOk, AllOpen, Failures;
      hide TurnedIn, Fits, AllFinal, NoFloor, After, PoolLengths, OutcomeOf, ErasedAt, ErasedAfter, Hopeless, StillHope;
      var modified := modified0;
      var failed: set<nat> := {};
      ghost var erased: Erased := map[];
      history := [];
      Begin(rules, modified);
      var mi := 0;
      var nConsecutiveFailed := 0;
      while mi < |rules.order| || modified != map[]
        invariant 0 <= mi <= |rules.order| && old(inBlock) <= inBlock && PoolOk(p) && PoolLengths(p)
        invariant Selecting(rules, mi, modified, erased, history) && failed == erased.Keys
        invariant RunOk(p, rules, old(inBlock), history, inBlock) && NoFloor(history)
        invariant nConsecutiveFailed == Failures(p, rules.maxWeight, history)
        invariant StillHope(p, rules.maxWeight, history)
        decreases Outside(p.n, inBlock), |rules.order| - mi, |modified|
      {
        if mi < |rules.order|
          && (rules.order[mi] in modified || rules.order[mi] in inBlock || rules.order[mi] in failed)
        {
          SkipEntry(rules, mi, modified, erased, history);
          mi := mi + 1;
          continue;
        }
        ghost var mi0 := mi;
        var usingModified, i, m, added, tooBig;
        usingModified, i, m, mi := Choose(rules, mi, modified, erased, history);
        ghost var r := Chosen(rules, mi0, modified, erased, history, i, m);
        RunMore(p, rules, old(inBlock), history, inBlock, r);
        FailuresMore(p, rules.maxWeight, history, r);
        HopeMore(p, rules.maxWeight, history, r);
        if m.fees < rules.minFee(m.size) {
          AtFloor(rules, mi0, modified, erased, history, r);
          return BelowFloor, history + [r];
        }
        FloorLess(history, r, p, rules);
        added, tooBig, modified, failed, erased :=
          TryPackage(rules, mi0, mi, i, m, usingModified, modified, failed, erased, history, r);
        history := history + [r];
        WeightIs(rules, mi, modified, erased, history);
        if added {
          nConsecutiveFailed := 0;
        } else if tooBig {
          nConsecutiveFailed := nConsecutiveFailed + 1;
          if nConsecutiveFailed > 1000 && nBlockWeight > nBlockMaxWeight - 4000 {
            Finished(rules, mi, modified, erased, history);
            return NearlyFull, history;
          }
        }
      }
      Finished(rules, mi, modified, erased, history);
      HopeAll(p, rules.maxWeight, history);
      stop := Exhausted;
    }

    lemma Begin(rules: Rules, modified: map<nat, Mod>)
      requires Selecting(rules, 0, modified, map[], [])
      ensures PoolOk(p) && PoolLengths(p) && RunOk(p, rules, inBlock, [], inBlock)
      ensures NoFloor([]) && Failures(p, rules.maxWeight, []) == 0 && StillHope(p, rules.maxWeight, [])
    {
      hide Total, AllTrack, Ordered, PoolOk, Untouched, Linked;
    }

    lemma AtFloor(rules: Rules, mi: nat, modified: map<nat, Mod>, erased: Erased, history: seq<Round>, r: Round)
      requires Selecting(rules, mi, modified, erased, history) && NoFloor(history) && r.entry < p.n
      requires StillHope(p, rules.maxWeight, history)
      requires PoolLengths(p) && r.totals.fees < rules.minFee(r.totals.size)
      requires r.outcome == OutcomeOf(p, rules, inBlock, r.entry, r.totals)
      ensures Valid() && Limits() && (forall x :: x in inBlock ==> rules.isFinal(x))
      ensures Ends(rules, history + [r], BelowFloor) && After(p, r) == r.block
    {
      hide Total, AllTrack, Ordered, PoolOk, Untouched, NoFloor, Considered, Fits, AllFinal, Linked, Hopeless;
      assert (history + [r])[..|history|] == history;
      HopeMore(p, rules.maxWeight, history, r);
    }

    lemma WeightIs(rules: Rules, mi: nat, modified: map<nat, Mod>, erased: Erased, history: seq<Round>)
      requires Selecting(rules, mi, modified, erased, history)
      ensures PoolLengths(p) && rules.maxWeight == nBlockMaxWeight
      ensures nBlockWeight == 4000 + Total(p.weight, inBlock, p.n)
    {
      hide Total, AllTrack, Ordered, PoolOk, Untouched, Linked, Considered;
    }

    lemma Finished(rules: Rules, mi: nat, modified: map<nat, Mod>, erased: Erased, history: seq<Round>)
      requires Selecting(rules, mi, modified, erased, history)
      ensures Valid() && Limits() && PoolLengths(p) && rules.maxWeight == nBlockMaxWeight
      ensures forall x :: x in inBlock ==> rules.isFinal(x)
      ensures mi == |rules.order| && modified == map[] ==> AllOpen(p, rules.order, history, inBlock, map[])
    {
      hide Total, AllTrack, Ordered, PoolOk, Untouched, Linked, Considered, AllOpen;
      if mi == |rules.order| && modified == map[] {
        WaitingOpen(p, rules.order, mi, inBlock, modified, erased, history);
        assert Waiting(p, rules.order, mi, inBlock, modified, erased) == map[];
      }
    }
  }

  lemma BelowMore(erased: Erased, block: set<nat>, more: set<nat>)
    requires Below(erased, block) && block <= more
    ensures Below(erased, more)
  {
  }

  lemma BelowErased(erased: Erased, block: set<nat>, i: nat)
    requires Below(erased, block)
    ensures Below(erased[i := block], block)
  {
  }

  lemma NoneSince(p: Pool, modified: map<nat, Mod>, block: set<nat>, erased: Erased, i: nat)
    requires Untouched(p, modified, block, erased, block)
    requires i < |p.anc| && i !in modified && i !in block && i !in erased
    ensures Since(p, i, block, erased) == {} && p.anc[i] * block == {}
  {
    assert Since(p, i, block, erased) == {};
    assert block - {} == block;
  }

  lemma ErasedTurned(p: Pool, order: seq<nat>, mi: nat, block: set<nat>, modified: map<nat, Mod>, erased: Erased,
                     history: seq<Round>)
    requires Linked(p, order, mi, block, modified, erased, history)
    ensures erased.Keys <= TurnedIn(history)
  {
    forall j | j in erased ensures j in TurnedIn(history) {
      var l: nat :| TurnedAt(history, l, j) && history[l].block == erased[j];
    }
  }

  lemma FloorLess(history: seq<Round>, r: Round, p: Pool, rules: Rules)
    requires NoFloor(history) && PoolLengths(p) && r.entry < p.n && r.totals.fees >= rules.minFee(r.totals.size)
    requires r.outcome == OutcomeOf(p, rules, r.block, r.entry, r.totals)
    ensures NoFloor(history + [r])
  {
    hide Fits, AllFinal;
  }

  lemma TakenConsidered(order: seq<nat>, mi: nat, mi': nat, i: nat, block: set<nat>, block': set<nat>,
                        modified: map<nat, Mod>, modified': map<nat, Mod>, turned: set<nat>)
    requires mi <= |order| && Considered(order, mi, block, modified, turned)
    requires mi' == mi || (mi < |order| && mi' == mi + 1 && order[mi] == i)
    requires block <= block' && i in block' && forall d :: d in modified ==> d in modified' || d in block'
    ensures Considered(order, mi', block', modified', turned)
  {
  }

  lemma TurnedConsidered(order: seq<nat>, mi: nat, mi': nat, i: nat, usingModified: bool, block: set<nat>,
                         modified: map<nat, Mod>, turned: set<nat>)
    requires mi <= |order| && Considered(order, mi, block, modified, turned)
    requires mi' == mi || (mi < |order| && mi' == mi + 1 && order[mi] == i)
    ensures Considered(order, mi', block, if usingModified then modified - {i} else modified, turned + {i})
  {
  }

  lemma OrderedMore(p: Pool, vtx: seq<nat>, i: nat)
    requires PoolOk(p) && Ordered(p, vtx) && i < p.n && i !in vtx && (forall a :: a in p.anc[i] ==> a in vtx)
    ensures Ordered(p, vtx + [i])
  {
    var next := vtx + [i];
    forall k, a | 0 <= k < |next| && a in p.anc[next[k]] ensures a in next[..k] {
      if k < |vtx| { assert next[..k] == vtx[..k]; } else { assert next[..k] == vtx; }
    }
  }

  lemma SortedIn(p: Pool, s: seq<nat>)
    requires PoolLengths(p) && Sorted(p, s)
    ensures forall k :: 0 <= k < |s| ==> s[k] < p.n
  {
  }

  lemma AncestorsIn(p: Pool, i: nat, sorted: seq<nat>, k: nat, before: set<nat>)
    requires PoolOk(p) && i < p.n && Sorted(p, sorted) && k < |sorted|
    requires forall x :: x in sorted <==> x in Package(p, i, before)
    ensures sorted[k] < p.n && p.anc[sorted[k]] <= before + (set x | x in sorted[..k])
  {
    var x := sorted[k];
    assert x in sorted;
    forall a | a in p.anc[x] ensures a in before || a in sorted[..k] {
      assert a in p.anc[i];
      if a !in before { AncestorsFirst(p, sorted, k, a); }
    }
  }

  lemma NotYet(p: Pool, sorted: seq<nat>, k: nat)
    requires PoolLengths(p) && Sorted(p, sorted) && k < |sorted|
    ensures sorted[k] !in sorted[..k] && sorted[k] in sorted
  {
  }

  lemma {:induction false} TotalDisjoint(v: seq<int>, s: set<nat>, t: set<nat>, k: nat)
    requires k <= |v| && s !! t
    ensures Total(v, s + t, k) == Total(v, s, k) + Total(v, t, k)
  {
    if k == 0 {
    } else {
      TotalDisjoint(v, s, t, k - 1);
    }
  }

  /** The package weighs at most four times its size, which is at most what was tested. */
  lemma PackageFits(p: Pool, i: nat, blocked: set<nat>, m: Mod)
    requires PoolOk(p) && i < p.n && Covers(p, m, i, blocked)
    ensures Within(Package(p, i, blocked), p.n) && PoolLengths(p)
    ensures Total(p.weight, blocked + Package(p, i, blocked), p.n) <= Total(p.weight, blocked, p.n) + 4 * m.size
    ensures Total(p.sigops, blocked + Package(p, i, blocked), p.n) <= Total(p.sigops, blocked, p.n) + m.sigops
  {
    hide Total;
    var package := Package(p, i, blocked);
    assert Within(p.anc[i], p.n);
    TotalDisjoint(p.weight, blocked, package, p.n);
    TotalDisjoint(p.sigops, blocked, package, p.n);
    TotalScaled(p.weight, p.size, package, p.n);
  }

  lemma TrackErase(p: Pool, modified: map<nat, Mod>, blocked: set<nat>, gone: set<nat>, erased: Erased)
    requires PoolLengths(p) && AllTrack(p, modified, blocked, blocked, {}, erased)
    ensures AllTrack(p, modified - gone, blocked, blocked, {}, erased)
  {
    hide Counts;
  }

  lemma TrackErased(p: Pool, modified: map<nat, Mod>, block: set<nat>, i: nat, erased: Erased)
    requires PoolLengths(p) && AllTrack(p, modified, block, block, {}, erased)
    ensures AllTrack(p, modified - {i}, block, block, {}, erased[i := block])
  {
    hide Counts;
    forall d | d in modified - {i}
      ensures d < p.n && Counts(p, modified[d], d, Since(p, d, block, erased[i := block]))
    {
      assert Since(p, d, block, erased[i := block]) == Since(p, d, block, erased);
    }
  }

  /** A package on its way into the block. */
  lemma UntouchedErase(p: Pool, modified: map<nat, Mod>, block: set<nat>, added: set<nat>, erased: Erased)
    requires Untouched(p, modified, block, erased, block)
    ensures Untouched(p, modified - added, block + added, erased, block)
  {
  }

  lemma ErasedUntouched(p: Pool, modified: map<nat, Mod>, block: set<nat>, i: nat, erased: Erased)
    requires Untouched(p, modified, block, erased, block)
    ensures Untouched(p, modified - {i}, block, erased[i := block], block)
  {
    forall d: nat | d < |p.anc| && d !in modified - {i} && d !in block
      ensures Since(p, d, block, erased[i := block]) == {}
    {
      if d != i { assert Since(p, d, block, erased) == {}; }
    }
  }

  ghost predicate IsClosed(p: Pool, block: set<nat>) {
    forall x :: x in block ==> x < |p.anc| && p.anc[x] <= block
  }

  lemma Closed(p: Pool, vtx: seq<nat>, block: set<nat>)
    requires PoolOk(p) && Ordered(p, vtx) && forall i :: i in block <==> i in vtx
    ensures IsClosed(p, block)
  {
    forall x, a | x in block && a in p.anc[x] ensures a in block {
      var k :| 0 <= k < |vtx| && vtx[k] == x;
      assert a in vtx[..k];
    }
  }

  /** No descendant of what is added can have been in the block before. */
  lemma DescendantsOutside(p: Pool, before: set<nat>, added: set<nat>)
    requires IsClosed(p, before) && added !! before
    ensures forall x, d :: x in added && d in Descendants(p, x) - added ==> d !in before
  {
  }

  lemma NothingModified(p: Pool, added: set<nat>)
    requires PoolLengths(p)
    ensures AllTrack(p, map[], {}, {}, {}, map[]) && Untouched(p, map[], {} + added, map[], {})
  {
  }

  lemma TrackAt(p: Pool, modified: map<nat, Mod>, blocked: set<nat>, i: nat, erased: Erased)
    requires PoolOk(p) && PoolLengths(p) && AllTrack(p, modified, blocked, blocked, {}, erased) && i in modified
    requires i !in blocked
    ensures i < p.n && Covers(p, modified[i], i, blocked)
  {
    hide Counts, Covers;
    CountsCover(p, modified[i], i, blocked, Since(p, i, blocked, erased));
  }

  ghost function Outside(n: nat, block: set<nat>): set<int> {
    set x | 0 <= x < n && x !in block
  }

  lemma OutsideShrinks(n: nat, before: set<nat>, after: set<nat>, i: nat)
    requires i < n && i !in before && i in after && before <= after
    ensures Outside(n, after) < Outside(n, before)
  {
    assert i in Outside(n, before) && i !in Outside(n, after);
  }

  lemma SizeDrops(m: map<nat, Mod>, i: nat)
    requires i in m
    ensures |m - {i}| < |m|
  {
    assert (m - {i}).Keys == m.Keys - {i};
  }

  /** An entry that was erased and comes back with the full totals less x counts exactly what is left
      of its package if and only if no other ancestor of it is in the block; and its fees are right if
      and only if the modified fees of those that are add up to nothing. */
  lemma ComesBackExact(p: Pool, d: nat, x: nat, low: set<nat>)
    requires PoolOk(p) && d < p.n && x in p.anc[d] && x !in low && d !in low
    ensures x < p.n && Left(p, p.size, d, {}) - p.size[x] >= Left(p, p.size, d, low + {x})
    ensures Left(p, p.size, d, {}) - p.size[x] == Left(p, p.size, d, low + {x}) <==> p.anc[d] * low == {}
    ensures Left(p, p.modFee, d, {}) - p.modFee[x] == Left(p, p.modFee, d, low + {x}) <==>
      Total(p.modFee, p.anc[d] * low, p.n) == 0
  {
    hide Total;
    assert Within(p.anc[d], p.n);
    LeftAdd(p, p.size, d, low, x);
    LeftAdd(p, p.modFee, d, low, x);
    assert Package(p, d, {}) == Package(p, d, low) + (p.anc[d] * low);
    TotalDisjoint(p.size, Package(p, d, low), p.anc[d] * low, p.n);
    TotalDisjoint(p.modFee, Package(p, d, low), p.anc[d] * low, p.n);
    TotalSized(p, p.anc[d] * low);
  }

  lemma TotalSized(p: Pool, s: set<nat>)
    requires PoolOk(p) && Within(s, p.n)
    ensures Total(p.size, s, p.n) >= 0 && (Total(p.size, s, p.n) == 0 <==> s == {})
  {
    hide Total;
    TotalEmpty(p.size, p.n);
    TotalMono(p.size, {}, s, p.n);
    if s != {} {
      var y :| y in s;
      TotalAdd(p.size, {}, y, p.n);
      assert {} + {y} == {y};
      TotalMono(p.size, {y}, s, p.n);
    }
  }
}
