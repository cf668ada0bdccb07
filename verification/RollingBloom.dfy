/** The rolling Bloom filter of src/bloom.cpp.  A position holds two bits, in two words: nothing,
    or the generation (1, 2 or 3) of the last key that was put there. */
module RollingBloom {
  import opened Bits

  type Key = seq<int>
  type u32 = x: int | 0 <= x < 0x1_0000_0000
  type Murmur = (u32, Key) -> u32

  const WORD: int := 0x1_0000_0000_0000_0000

  /** What decides where a key goes: the hash, its tweak, how many positions a key has, and the
      number of words. */
  datatype Params = Params(murmur: Murmur, tweak: u32, hashes: nat, size: nat)

  ghost predicate ParamsOk(p: Params) {
    p.size > 0 && p.size % 2 == 0
  }

  function Seed(tweak: u32, n: nat): u32 {
    (n * 0xFBA4C795 + tweak) % 0x1_0000_0000
  }

  function RollingBloomHash(p: Params, n: nat, key: Key): u32 {
    p.murmur(Seed(p.tweak, n), key)
  }

  /** The hash functions of a filter all have different seeds. */
  lemma SeedsDiffer(tweak: u32, n: nat, m: nat)
    requires m < n < m + 0x1_0000_0000
    ensures Seed(tweak, n) != Seed(tweak, m)
  {
    Pow2Values();
    if Seed(tweak, n) == Seed(tweak, m) {
      var q := (n * 0xFBA4C795 + tweak) / 0x1_0000_0000 - (m * 0xFBA4C795 + tweak) / 0x1_0000_0000;
      assert (n - m) * 0xFBA4C795 == q * 0x1_0000_0000;
      OddFactor(n - m, 0xFBA4C795, q, 32);
    }
  }

  /** A power of two that divides a product with an odd factor divides the other one. */
  lemma {:induction false} OddFactor(d: int, c: int, q: int, k: nat)
    requires d * c == q * Pow2(k) && c % 2 == 1
    ensures exists r :: d == r * Pow2(k)
    decreases k
  {
    if k == 0 {
      assert d == d * Pow2(0);
    } else {
      Pow2Half(k);
      assert d * c == 2 * (q * Pow2(k - 1));
      OddTimes(d, c);
      assert d / 2 * c == q * Pow2(k - 1);
      OddFactor(d / 2, c, q, k - 1);
      var r :| d / 2 == r * Pow2(k - 1);
      assert d == r * Pow2(k);
    }
  }

  lemma OddTimes(d: int, c: int)
    requires (d * c) % 2 == 0 && c % 2 == 1
    ensures d % 2 == 0 && 2 * (d / 2 * c) == d * c
  {
    var h, e := d / 2, d % 2;
    SumTimes(h, e, c);
  }

  lemma SumTimes(h: int, e: int, c: int)
    ensures (2 * h + e) * c == 2 * (h * c) + e * c
  {
  }

  /** The position of a hash: bit h & 63 of the word pair that h >> 6 falls in. */
  function PositionOf(size: nat, h: nat): (r: nat)
    requires size > 0
  {
    (h / 64) % size / 2 * 64 + h % 64
  }

  function Position(p: Params, n: nat, key: Key): (r: nat)
    requires p.size > 0
  {
    PositionOf(p.size, RollingBloomHash(p, n, key))
  }

  /** Every position is that of as many hashes: of two in each round of 64 for every word. */
  lemma PositionIff(size: nat, h: nat, pos: nat)
    requires size > 0 && size % 2 == 0 && pos < 32 * size
    ensures PositionOf(size, h) == pos <==>
      || h % (64 * size) == pos / 64 * 128 + pos % 64
      || h % (64 * size) == pos / 64 * 128 + 64 + pos % 64
  {
    ModOfProduct(h, size);
  }

  lemma ModOfProduct(h: nat, size: nat)
    requires size > 0
    ensures h % (64 * size) == (h / 64) % size * 64 + h % 64
  {
    DivModEq(h / 64, size);
    DivUnique(h, 64 * size, h / 64 / size, (h / 64) % size * 64 + h % 64);
  }

  ghost predicate Touches(p: Params, key: Key, pos: nat)
    requires p.size > 0
  {
    exists n :: 0 <= n < p.hashes && Position(p, n, key) == pos
  }

  // ---------- two bits in two words ----------

  function GenBits(w1: nat, w2: nat, k: nat): (g: int)
    ensures 0 <= g <= 3
  {
    (if Bit(w1, k) then 1 else 0) + (if Bit(w2, k) then 2 else 0)
  }

  /** The generation at a position. */
  ghost function GenAt(data: seq<nat>, pos: nat): (g: int)
    requires pos / 64 * 2 + 1 < |data|
  {
    GenBits(data[pos / 64 * 2], data[pos / 64 * 2 + 1], pos % 64)
  }

  ghost predicate Words(data: seq<nat>) {
    forall i :: 0 <= i < |data| ==> data[i] < WORD
  }

  lemma WordIsPow2()
    ensures WORD == Pow2(64) == 2 * Pow2(63)
  {
    Pow2Values();
    Pow2Add(32, 32);
  }

  /** Writing bit b into place k of a word. */
  function WriteBit(w: nat, k: nat, b: nat): nat
    requires k < 64
  {
    WordIsPow2();
    Pow2Mono(k, 63);
    Or(And(w, WORD - 1 - Pow2(k)), b * Pow2(k))
  }

  lemma WriteBitAt(w: nat, k: nat, b: nat, j: nat)
    requires w < WORD && k < 64 && b < 2 && j < 64
    ensures WriteBit(w, k, b) < WORD
    ensures Bit(WriteBit(w, k, b), j) <==> if j == k then b == 1 else Bit(w, j)
  {
    hide And, Or, Bit;
    WordIsPow2();
    Pow2Mono(k, 63);
    var cleared := And(w, WORD - 1 - Pow2(k));
    AndSmall(w, WORD - 1 - Pow2(k));
    OrTop(cleared, b * Pow2(k), 63);
    BitOr(cleared, b * Pow2(k), j);
    BitAnd(w, WORD - 1 - Pow2(k), j);
    BitComplement(Pow2(k), 64, j);
    BitPow2(k, j);
    BitZero(j);
  }

  /** All ones when the flag is 1, else zero: the C expression 0 - flag. */
  function Spread(flag: nat): nat {
    if flag == 1 then WORD - 1 else 0
  }

  /** The mask that keeps the bits of every generation but g. */
  function WipeMask(w1: nat, w2: nat, g: nat): nat {
    Or(Xor(w1, Spread(g % 2)), Xor(w2, Spread(g / 2)))
  }

  lemma SpreadBit(flag: nat, k: nat)
    requires flag < 2 && k < 64
    ensures Bit(Spread(flag), k) <==> flag == 1
  {
    WordIsPow2();
    BitZero(k);
    BitComplement(0, 64, k);
  }

  lemma WipeBits(w1: nat, w2: nat, g: nat, k: nat)
    requires w1 < WORD && w2 < WORD && 1 <= g <= 3 && k < 64
    ensures var mask := WipeMask(w1, w2, g);
      GenBits(And(w1, mask), And(w2, mask), k) == if GenBits(w1, w2, k) == g then 0 else GenBits(w1, w2, k)
  {
    hide And, Or, Xor, Bit, Spread;
    var mask := WipeMask(w1, w2, g);
    SpreadBit(g % 2, k);
    SpreadBit(g / 2, k);
    BitXor(w1, Spread(g % 2), k);
    BitXor(w2, Spread(g / 2), k);
    BitOr(Xor(w1, Spread(g % 2)), Xor(w2, Spread(g / 2)), k);
    BitAnd(w1, mask, k);
    BitAnd(w2, mask, k);
  }

  /** Word j after the wipe. */
  function Kept(was: seq<nat>, j: nat, g: nat): nat
    requires |was| % 2 == 0 && j < |was|
  {
    And(was[j], WipeMask(was[j - j % 2], was[j - j % 2 + 1], g))
  }

  /** The words below p are wiped, the others as they were. */
  ghost predicate Wiped(data: seq<nat>, was: seq<nat>, p: nat, g: nat) {
    && |data| == |was| && |was| % 2 == 0 && Words(data) && Words(was)
    && (forall j :: 0 <= j < p && j < |was| ==> data[j] == Kept(was, j, g))
    && (forall j :: p <= j < |was| ==> data[j] == was[j])
  }

  lemma WipedNone(was: seq<nat>, g: nat)
    requires |was| % 2 == 0 && Words(was)
    ensures Wiped(was, was, 0, g)
  {
  }

  lemma WipedPair(data: seq<nat>, was: seq<nat>, p: nat, g: nat)
    requires Wiped(data, was, p, g) && p % 2 == 0 && p < |was|
    ensures p + 1 < |data| == |was|
    ensures var mask := WipeMask(data[p], data[p + 1], g);
      Wiped(data[p := And(data[p], mask)][p + 1 := And(data[p + 1], mask)], was, p + 2, g)
  {
    hide And, WipeMask;
    var mask := WipeMask(data[p], data[p + 1], g);
    AndSmall(data[p], mask);
    AndSmall(data[p + 1], mask);
  }

  lemma WipedAll(data: seq<nat>, was: seq<nat>, g: nat)
    requires Wiped(data, was, |was|, g) && 1 <= g <= 3
    ensures Words(data) && |data| == |was|
    ensures forall pos: nat :: pos < 32 * |was| ==>
      GenAt(data, pos) == if GenAt(was, pos) == g then 0 else GenAt(was, pos)
  {
    hide GenAt, Wiped, Words;
    WipedShape(data, was, |was|, g);
    forall pos: nat | pos < 32 * |was| ensures GenAt(data, pos) == if GenAt(was, pos) == g then 0 else GenAt(was, pos) {
      KeptGen(was, data, g, pos);
    }
  }

  lemma WipedShape(data: seq<nat>, was: seq<nat>, p: nat, g: nat)
    requires Wiped(data, was, p, g)
    ensures Words(data) && |data| == |was| && |was| % 2 == 0
  {
  }

  lemma KeptGen(was: seq<nat>, data: seq<nat>, g: nat, pos: nat)
    requires Wiped(data, was, |was|, g) && 1 <= g <= 3 && pos < 32 * |was|
    ensures GenAt(data, pos) == if GenAt(was, pos) == g then 0 else GenAt(was, pos)
  {
    hide And, WipeMask, GenBits;
    var j := pos / 64 * 2;
    assert j + 1 < |was| && j % 2 == 0 && (j + 1) % 2 == 1;
    assert data[j] == Kept(was, j, g) && data[j + 1] == Kept(was, j + 1, g);
    WipeBits(was[j], was[j + 1], g, pos % 64);
  }

  /** Writing the two bits of a generation stamps one position and leaves the others. */
  lemma Stamped(data: seq<nat>, low: nat, bit: nat, g: nat, at: nat)
    requires Words(data) && |data| % 2 == 0 && low % 2 == 0 && low + 1 < |data| && bit < 64 && 1 <= g <= 3
    requires at / 64 * 2 == low && at % 64 == bit
    ensures var next := data[low := WriteBit(data[low], bit, g % 2)][low + 1 := WriteBit(data[low + 1], bit, g / 2)];
      && Words(next)
      && forall pos: nat :: pos < 32 * |data| ==> GenAt(next, pos) == if pos == at then g else GenAt(data, pos)
  {
    hide WriteBit, Bit;
    var next := data[low := WriteBit(data[low], bit, g % 2)][low + 1 := WriteBit(data[low + 1], bit, g / 2)];
    WriteBitAt(data[low], bit, g % 2, 0);
    WriteBitAt(data[low + 1], bit, g / 2, 0);
    forall pos: nat | pos < 32 * |data| ensures GenAt(next, pos) == if pos == at then g else GenAt(data, pos) {
      if pos / 64 * 2 == low {
        WriteBitAt(data[low], bit, g % 2, pos % 64);
        WriteBitAt(data[low + 1], bit, g / 2, pos % 64);
      }
    }
  }

  // ---------- the history of inserts ----------

  /** The generation count, from zero, of insert number i: a new one every `per` inserts. */
  function Epoch(per: nat, i: nat): nat {
    if per == 0 then 1 else i / per
  }

  /** The generation count after n inserts. */
  function Now(per: nat, n: nat): nat {
    if n == 0 then 0 else Epoch(per, n - 1)
  }

  /** The first insert that is still remembered after n of them: the current generation and the
      two before it are. */
  function WindowStart(per: nat, n: nat): nat {
    if Now(per, n) < 2 then 0 else (Now(per, n) - 2) * per
  }

  ghost function LastTouch(p: Params, history: seq<Key>, pos: nat): (l: int)
    requires p.size > 0
    ensures -1 <= l < |history|
    ensures l >= 0 ==> Touches(p, history[l], pos)
    ensures forall i :: l < i < |history| ==> !Touches(p, history[i], pos)
  {
    if |history| == 0 then -1
    else if Touches(p, history[|history| - 1], pos) then |history| - 1
    else LastTouch(p, history[..|history| - 1], pos)
  }

  /** What a position should hold: the generation of the last key put there, unless that is three
      or more generations old. */
  ghost function Expected(p: Params, per: nat, history: seq<Key>, pos: nat): int
    requires p.size > 0
  {
    Stamp(per, LastTouch(p, history, pos), Now(per, |history|))
  }

  function Stamp(per: nat, touched: int, now: nat): int {
    if touched >= 0 && Epoch(per, touched) + 2 >= now then Epoch(per, touched) % 3 + 1 else 0
  }

  ghost predicate Refines(p: Params, per: nat, history: seq<Key>, data: seq<nat>) {
    && ParamsOk(p)
    && |data| == p.size
    && Words(data)
    && forall pos: nat :: pos < 32 * p.size ==> GenAt(data, pos) == Expected(p, per, history, pos)
  }

  lemma EpochSteps(per: nat, n: nat)
    ensures n - Now(per, n) * per >= 0
    ensures Epoch(per, n) == if n - Now(per, n) * per == per then Now(per, n) + 1 else Now(per, n)
  {
    if per > 0 {
      var m := if n == 0 then 0 else n - 1;
      DivModEq(m, per);
      if n > 0 {
        if m % per == per - 1 {
          DivUnique(n, per, m / per + 1, 0);
        } else {
          DivUnique(n, per, m / per, m % per + 1);
        }
      } else {
        DivUnique(0, per, 0, 0);
      }
    }
  }

  lemma NextEpoch(per: nat, n: nat)
    requires n - Now(per, n) * per == per
    ensures n - Epoch(per, n) * per == 0
    ensures Epoch(per, n) % 3 + 1 == if Now(per, n) % 3 + 1 == 3 then 1 else Now(per, n) % 3 + 2
  {
    EpochSteps(per, n);
    assert (Now(per, n) + 1) * per == Now(per, n) * per + per;
  }

  lemma EpochMono(per: nat, i: nat, j: nat)
    requires i <= j
    ensures Epoch(per, i) <= Epoch(per, j)
  {
    if per > 0 && i / per > j / per {
      DivModEq(i, per);
      DivModEq(j, per);
      MulMono(j / per + 1, i / per, per);
      assert false;
    }
  }

  /** Starting a generation wipes exactly the stamps of the one three generations back, which had
      the same number. */
  lemma WipeStamp(per: nat, touched: int, n: nat)
    requires -1 <= touched < n
    ensures var g := (Now(per, n) + 1) % 3 + 1;
      Stamp(per, touched, Now(per, n) + 1) ==
        if Stamp(per, touched, Now(per, n)) == g then 0 else Stamp(per, touched, Now(per, n))
  {
    if touched >= 0 { EpochMono(per, touched, n - 1); }
  }

  /** One insert, seen at one position. */
  lemma InsertStep(p: Params, per: nat, history: seq<Key>, key: Key, pos: nat)
    requires p.size > 0
    ensures var n := |history|;
      var g := Epoch(per, n) % 3 + 1;
      var was := Expected(p, per, history, pos);
      Expected(p, per, history + [key], pos) ==
      if Touches(p, key, pos) then g
      else if n - Now(per, n) * per == per && was == g then 0
      else was
  {
    var n := |history|;
    EpochSteps(per, n);
    assert (history + [key])[..n] == history;
    if !Touches(p, key, pos) {
      WipeStamp(per, LastTouch(p, history, pos), n);
    }
  }

  /** The inserts of the current generation and the two before it are the ones from the window's
      start on. */
  lemma InWindow(per: nat, i: nat, n: nat)
    requires i < n
    ensures Epoch(per, i) + 2 >= Now(per, n) <==> i >= WindowStart(per, n)
  {
    var e := Now(per, n);
    if per > 0 && e >= 2 {
      DivModEq(i, per);
      if i / per >= e - 2 {
        MulMono(e - 2, i / per, per);
      } else {
        MulMono(i / per + 1, e - 2, per);
      }
    }
  }

  /** A plain Bloom filter that was given these keys and nothing else. */
  ghost predicate PlainContains(p: Params, keys: seq<Key>, key: Key)
    requires p.size > 0
  {
    forall n :: 0 <= n < p.hashes ==> SomeTouch(p, keys, Position(p, n, key))
  }

  ghost predicate SomeTouch(p: Params, keys: seq<Key>, pos: nat)
    requires p.size > 0
  {
    exists i :: 0 <= i < |keys| && Touches(p, keys[i], pos)
  }

  lemma ExpectedIsWindow(p: Params, per: nat, history: seq<Key>, pos: nat)
    requires p.size > 0
    ensures WindowStart(per, |history|) <= |history|
    ensures Expected(p, per, history, pos) != 0 <==> SomeTouch(p, history[WindowStart(per, |history|)..], pos)
  {
    var n, l := |history|, LastTouch(p, history, pos);
    var start := WindowStart(per, n);
    StartInside(per, n);
    if l >= start {
      InWindow(per, l, n);
      assert history[start..][l - start] == history[l];
    } else {
      if l >= 0 { InWindow(per, l, n); }
      forall i | 0 <= i < n - start ensures !Touches(p, history[start..][i], pos) {
        assert history[start..][i] == history[start + i];
      }
    }
  }

  lemma StartInside(per: nat, n: nat)
    ensures WindowStart(per, n) <= n
  {
    if per > 0 && n > 0 {
      DivModEq(n - 1, per);
      if Now(per, n) >= 2 { MulMono(Now(per, n) - 2, Now(per, n), per); }
    }
  }

  /** The generation size the constructor computes, in 32-bit arithmetic. */
  function PerGeneration(nElements: u32): nat {
    (nElements + 1) % 0x1_0000_0000 / 2
  }

  /** The window always reaches back over the last nElements inserts, and over no more than one
      and a half times the number of elements rounded up to even. */
  lemma WindowHolds(nElements: u32, n: nat)
    ensures var start := WindowStart(PerGeneration(nElements), n);
      && start <= n
      && (start == 0 || n - start >= nElements)
      && (nElements + 1 < 0x1_0000_0000 && nElements > 0 ==> n - start <= 3 * ((nElements + 1) / 2))
  {
    var per := PerGeneration(nElements);
    StartInside(per, n);
    WindowSize(per, n);
  }

  /** Two generations at least, once that many keys came, and never more than three. */
  lemma WindowSize(per: nat, n: nat)
    ensures WindowStart(per, n) == 0 || n - WindowStart(per, n) > 2 * per
    ensures per > 0 ==> n - WindowStart(per, n) <= 3 * per
  {
    var e := Now(per, n);
    if per > 0 && n > 0 {
      DivModEq(n - 1, per);
      if e >= 2 {
        assert (e - 2) * per == e * per - 2 * per;
      } else {
        assert e == 0 || e == 1;
      }
    }
  }

  /** A key put in after the window's start is contained in the plain filter. */
  lemma InsertedIsContained(p: Params, keys: seq<Key>, i: nat)
    requires p.size > 0 && i < |keys|
    ensures PlainContains(p, keys, keys[i])
  {
    forall n | 0 <= n < p.hashes ensures SomeTouch(p, keys, Position(p, n, keys[i])) {
      assert Touches(p, keys[i], Position(p, n, keys[i]));
    }
  }

  /** What the filter is for: each of the last nElements keys is contained. */
  lemma RecentIsContained(p: Params, nElements: u32, history: seq<Key>, i: nat)
    requires p.size > 0 && |history| - nElements <= i < |history|
    ensures WindowStart(PerGeneration(nElements), |history|) <= i
    ensures PlainContains(p, history[WindowStart(PerGeneration(nElements), |history|)..], history[i])
  {
    WindowHolds(nElements, |history|);
    var start := WindowStart(PerGeneration(nElements), |history|);
    assert history[start..][i - start] == history[i];
    InsertedIsContained(p, history[start..], i - start);
  }

  lemma PositionInRange(p: Params, n: nat, key: Key)
    requires ParamsOk(p)
    ensures var h := RollingBloomHash(p, n, key);
      var w := (h / 64) % p.size;
      var pos := Position(p, n, key);
      && pos < 32 * p.size
      && pos / 64 * 2 == w - w % 2
      && pos / 64 * 2 + 1 == w - w % 2 + 1 < p.size
      && pos % 64 == h % 64
  {
    var h := RollingBloomHash(p, n, key);
    var w := (h / 64) % p.size;
    DivUnique(Position(p, n, key), 64, w / 2, h % 64);
  }

  class RollingBloomFilter {
    const murmur: Murmur
    const nHashFuncs: nat
    const nEntriesPerGeneration: nat
    var nEntriesThisGeneration: nat
    var nGeneration: nat
    const data: array<nat>
    var nTweak: u32
    /** Every key since the last reset, in order. */
    ghost var history: seq<Key>

    function Hashing(): Params
      reads this
    {
      Params(murmur, nTweak, nHashFuncs, data.Length)
    }

    ghost predicate Valid()
      reads this, data
    {
      && Refines(Hashing(), nEntriesPerGeneration, history, data[..])
      && nEntriesThisGeneration == |history| - Now(nEntriesPerGeneration, |history|) * nEntriesPerGeneration
      && nGeneration == Now(nEntriesPerGeneration, |history|) % 3 + 1
    }

    /** The sizing formula, in floating point, is not modelled: any number of hashes and any
        positive number of filter bits will do. */
    constructor (nElements: u32, hash: Murmur, hashes: nat, filterBits: nat, tweak: u32)
      requires filterBits > 0
      ensures Valid() && history == [] && fresh(data)
      ensures nEntriesPerGeneration == PerGeneration(nElements)
      ensures murmur == hash && nHashFuncs == hashes && nTweak == tweak && data.Length == (filterBits + 63) / 64 * 2
    {
      murmur, nHashFuncs := hash, hashes;
      nEntriesPerGeneration := (nElements + 1) % 0x1_0000_0000 / 2;
      data := new nat[(filterBits + 63) / 64 * 2];
      new;
      Reset(tweak);
    }

    method Reset(tweak: u32)
      requires data.Length > 0 && data.Length % 2 == 0
      modifies this, data
      ensures Valid() && history == [] && nTweak == tweak
    {
      nTweak := tweak;
      nEntriesThisGeneration := 0;
      nGeneration := 1;
      history := [];
      var i := 0;
      while i < data.Length
        invariant 0 <= i <= data.Length
        invariant forall j :: 0 <= j < i ==> data[j] == 0
        invariant nTweak == tweak && nEntriesThisGeneration == 0 && nGeneration == 1 && history == []
      {
        data[i] := 0;
        i := i + 1;
      }
      forall pos: nat | pos < 32 * data.Length ensures GenAt(data[..], pos) == 0 {
        BitZero(pos % 64);
      }
    }

    /** Wiping leaves every position that is not of generation g as it was, and empties the rest. */
    method Wipe(g: nat)
      requires ParamsOk(Hashing()) && Words(data[..]) && 1 <= g <= 3
      modifies data
      ensures Words(data[..])
      ensures forall pos: nat :: pos < 32 * data.Length ==>
        GenAt(data[..], pos) == if old(GenAt(data[..], pos)) == g then 0 else old(GenAt(data[..], pos))
    {
      hide And, WipeMask, Wiped, GenAt, Words;
      ghost var was := data[..];
      WipedNone(was, g);
      var p := 0;
      while p < data.Length
        invariant 0 <= p <= data.Length && p % 2 == 0
        invariant Wiped(data[..], was, p, g)
      {
        WipedPair(data[..], was, p, g);
        var p1, p2 := data[p], data[p + 1];
        var mask := WipeMask(p1, p2, g);
        data[p] := And(p1, mask);
        data[p + 1] := And(p2, mask);
        p := p + 2;
      }
      WipedAll(data[..], was, g);
    }

    /** Stamps one position with generation g. */
    method Mark(n: nat, key: Key, g: nat)
      requires ParamsOk(Hashing()) && Words(data[..]) && 1 <= g <= 3
      modifies data
      ensures Words(data[..])
      ensures forall pos: nat :: pos < 32 * data.Length ==>
        GenAt(data[..], pos) == if pos == Position(Hashing(), n, key) then g else old(GenAt(data[..], pos))
    {
      hide WriteBit, GenAt, Words, Position;
      PositionInRange(Hashing(), n, key);
      var h := RollingBloomHash(Hashing(), n, key);
      var bit := h % 64;
      var word := (h / 64) % data.Length;
      var low := word - word % 2;
      Stamped(data[..], low, bit, g, Position(Hashing(), n, key));
      data[low] := WriteBit(data[low], bit, g % 2);
      data[low + 1] := WriteBit(data[low + 1], bit, g / 2);
    }

    /** Stamps every position of a key. */
    method MarkAll(key: Key, g: nat)
      requires ParamsOk(Hashing()) && Words(data[..]) && 1 <= g <= 3
      modifies data
      ensures Words(data[..])
      ensures forall pos: nat :: pos < 32 * data.Length ==>
        GenAt(data[..], pos) == if Touches(Hashing(), key, pos) then g else old(GenAt(data[..], pos))
    {
      hide GenAt, Position;
      var n := 0;
      while n < nHashFuncs
        invariant 0 <= n <= nHashFuncs
        invariant Words(data[..])
        invariant forall pos: nat :: pos < 32 * data.Length ==>
          GenAt(data[..], pos) ==
          if exists m :: 0 <= m < n && Position(Hashing(), m, key) == pos then g else old(GenAt(data[..], pos))
      {
        Mark(n, key, g);
        n := n + 1;
      }
    }

    /** When the generation is full, turns to the next and wipes what is left of its number. */
    method NextGeneration()
      requires Valid()
      modifies this`nEntriesThisGeneration, this`nGeneration, data
      ensures Words(data[..])
      ensures nGeneration == Epoch(nEntriesPerGeneration, |history|) % 3 + 1
      ensures nEntriesThisGeneration == |history| - Epoch(nEntriesPerGeneration, |history|) * nEntriesPerGeneration
      ensures forall pos: nat :: pos < 32 * data.Length ==>
        var was := Expected(Hashing(), nEntriesPerGeneration, history, pos);
        GenAt(data[..], pos) ==
          if old(nEntriesThisGeneration) == nEntriesPerGeneration && was == nGeneration then 0 else was
    {
      hide GenAt, Expected, Epoch, Now;
      EpochSteps(nEntriesPerGeneration, |history|);
      if nEntriesThisGeneration == nEntriesPerGeneration {
        NextEpoch(nEntriesPerGeneration, |history|);
        nEntriesThisGeneration := 0;
        nGeneration := nGeneration + 1;
        if nGeneration == 4 {
          nGeneration := 1;
        }
        Wipe(nGeneration);
      }
    }

    method Insert(key: Key)
      requires Valid()
      modifies this, data
      ensures Valid() && history == old(history) + [key] && nTweak == old(nTweak)
    {
      hide GenAt, Expected, Epoch, Touches;
      NextGeneration();
      nEntriesThisGeneration := nEntriesThisGeneration + 1;
      MarkAll(key, nGeneration);
      forall pos: nat | pos < 32 * data.Length
        ensures GenAt(data[..], pos) == Expected(Hashing(), nEntriesPerGeneration, history + [key], pos)
      {
        InsertStep(Hashing(), nEntriesPerGeneration, history, key, pos);
      }
      history := history + [key];
    }

    /** The answer is exactly that of a plain Bloom filter holding the keys of the window: the
        current generation and the two before it. */
    method Contains(key: Key) returns (found: bool)
      requires Valid()
      ensures found <==> PlainContains(Hashing(), history[WindowStart(nEntriesPerGeneration, |history|)..], key)
    {
      var n := 0;
      while n < nHashFuncs
        invariant 0 <= n <= nHashFuncs
        invariant forall m :: 0 <= m < n ==>
          SomeTouch(Hashing(), history[WindowStart(nEntriesPerGeneration, |history|)..], Position(Hashing(), m, key))
      {
        var h := RollingBloomHash(Hashing(), n, key);
        var bit := h % 64;
        var word := (h / 64) % data.Length;
        var low := word - word % 2;
        PositionInRange(Hashing(), n, key);
        ExpectedIsWindow(Hashing(), nEntriesPerGeneration, history, Position(Hashing(), n, key));
        BitOr(data[low], data[low + 1], bit);
        if !Bit(Or(data[low], data[low + 1]), bit) {
          return false;
        }
        n := n + 1;
      }
      return true;
    }
  }
}
