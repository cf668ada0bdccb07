/** The garbage-collection flags of src/cuckoocache.h, eight to a byte. */
module PackedFlags {
  import opened Bits

  type Byte = x: int | 0 <= x < 0x100

  function BitIsSet(mem: seq<Byte>, s: nat): bool
    requires s / 8 < |mem|
  {
    And(Pow2(s % 8), mem[s / 8]) != 0
  }

  function BitSet(mem: seq<Byte>, s: nat): seq<Byte>
    requires s / 8 < |mem|
  {
    OrByte(mem[s / 8], s % 8);
    mem[s / 8 := Or(mem[s / 8], Pow2(s % 8))]
  }

  function BitUnset(mem: seq<Byte>, s: nat): seq<Byte>
    requires s / 8 < |mem|
  {
    AndByte(mem[s / 8], s % 8);
    mem[s / 8 := And(mem[s / 8], 0xFF - Pow2(s % 8))]
  }

  lemma SmallPow2(k: nat)
    requires k < 8
    ensures Pow2(k) <= 0x80 && Pow2(8) == 0x100
  {
    Pow2Values();
    Pow2Mono(k, 7);
  }

  lemma OrByte(b: Byte, k: nat)
    requires k < 8
    ensures 0 <= Or(b, Pow2(k)) < 0x100
  {
    SmallPow2(k);
    Pow2Values();
    OrTop(b, Pow2(k), 7);
  }

  lemma AndByte(b: Byte, k: nat)
    requires k < 8
    ensures Pow2(k) <= 0x80
    ensures 0 <= And(b, 0xFF - Pow2(k)) < 0x100
  {
    SmallPow2(k);
    AndSmall(b, 0xFF - Pow2(k));
  }

  lemma IsSetIsBit(b: Byte, k: nat)
    ensures And(Pow2(k), b) != 0 <==> Bit(b, k)
  {
    AndCommutes(Pow2(k), b);
    AndPow2(b, k);
  }

  /** Setting one flag sets it and leaves every other as it was. */
  lemma SetThenTest(mem: seq<Byte>, s: nat, t: nat)
    requires s / 8 < |mem| && t / 8 < |mem|
    ensures BitIsSet(BitSet(mem, s), t) <==> s == t || BitIsSet(mem, t)
  {
    if s / 8 == t / 8 {
      OrByte(mem[s / 8], s % 8);
      IsSetIsBit(mem[t / 8], t % 8);
      IsSetIsBit(Or(mem[s / 8], Pow2(s % 8)), t % 8);
      BitOr(mem[s / 8], Pow2(s % 8), t % 8);
      BitPow2(s % 8, t % 8);
    }
  }

  /** Clearing one flag clears it and leaves every other as it was. */
  lemma UnsetThenTest(mem: seq<Byte>, s: nat, t: nat)
    requires s / 8 < |mem| && t / 8 < |mem|
    ensures BitIsSet(BitUnset(mem, s), t) <==> s != t && BitIsSet(mem, t)
  {
    if s / 8 == t / 8 {
      AndByte(mem[s / 8], s % 8);
      SmallPow2(s % 8);
      IsSetIsBit(mem[t / 8], t % 8);
      IsSetIsBit(And(mem[s / 8], 0xFF - Pow2(s % 8)), t % 8);
      BitAnd(mem[s / 8], 0xFF - Pow2(s % 8), t % 8);
      BitComplement(Pow2(s % 8), 8, t % 8);
      BitPow2(s % 8, t % 8);
    }
  }

  /** After setup every flag is set. */
  lemma AllSet(n: nat, t: nat)
    requires t < n
    ensures t / 8 < (n + 7) / 8
    ensures BitIsSet(seq((n + 7) / 8, _ => 0xFF), t)
  {
    SmallPow2(t % 8);
    IsSetIsBit(0xFF, t % 8);
    BitComplement(0, 8, t % 8);
    BitZero(t % 8);
  }

  /** The flags of the first n entries. */
  ghost function Flags(mem: seq<Byte>, n: nat): (f: seq<bool>)
    requires n <= 8 * |mem|
    ensures |f| == n
    ensures forall i: nat :: i < n ==> f[i] == BitIsSet(mem, i)
  {
    seq(n, i requires 0 <= i < n => BitIsSet(mem, i))
  }

  lemma FlagsSet(mem: seq<Byte>, n: nat, s: nat)
    requires s < n <= 8 * |mem|
    ensures Flags(BitSet(mem, s), n) == Flags(mem, n)[s := true]
  {
    forall t: nat | t < n ensures Flags(BitSet(mem, s), n)[t] == Flags(mem, n)[s := true][t] { SetThenTest(mem, s, t); }
  }

  lemma FlagsUnset(mem: seq<Byte>, n: nat, s: nat)
    requires s < n <= 8 * |mem|
    ensures Flags(BitUnset(mem, s), n) == Flags(mem, n)[s := false]
  {
    forall t: nat | t < n ensures Flags(BitUnset(mem, s), n)[t] == Flags(mem, n)[s := false][t] {
      UnsetThenTest(mem, s, t);
    }
  }
}

/** The cuckoo-set cache of src/cuckoocache.h. */
module CuckooCache {
  import opened Bits
  import PackedFlags

  type Element = nat
  type u32 = x: int | 0 <= x < 0x1_0000_0000
  type Hash = (Element, nat) -> u32

  const INVALID: int := 0xFFFF_FFFF

  /** The slot a 32-bit hash falls in: the high word of hash * size. */
  function Slot(hash: u32, size: nat): (s: nat)
    requires size > 0
    ensures s < size
  {
    HighWordSmall(hash, size);
    hash * size / 0x1_0000_0000
  }

  lemma HighWordSmall(hash: u32, size: nat)
    requires size > 0
    ensures 0 <= hash * size / 0x1_0000_0000 < size
  {
    MulMono(hash, 0xFFFF_FFFF, size);
    DivModEq(hash * size, 0x1_0000_0000);
  }

  /** The least hash that falls in slot s or above. */
  function Edge(s: nat, size: nat): nat
    requires size > 0
  {
    (s * 0x1_0000_0000 + size - 1) / size
  }

  /** The slots divide the hashes evenly: each has a range of its own, of 2^32 / size hashes, rounded down or
      up. */
  lemma SlotShare(hash: u32, size: nat, s: nat)
    requires 0 < size && s < size
    ensures Slot(hash, size) == s <==> Edge(s, size) <= hash < Edge(s + 1, size)
    ensures 0x1_0000_0000 / size <= Edge(s + 1, size) - Edge(s, size) <= 0x1_0000_0000 / size + 1
  {
    DivModEq(hash * size, 0x1_0000_0000);
    EdgeIs(hash, size, s);
    EdgeIs(hash, size, s + 1);
    EdgeStep(size, s);
  }

  lemma EdgeIs(hash: nat, size: nat, s: nat)
    requires size > 0
    ensures Edge(s, size) <= hash <==> s * 0x1_0000_0000 <= hash * size
  {
    var x := s * 0x1_0000_0000 + size - 1;
    DivModEq(x, size);
    var e := Edge(s, size);
    if e <= hash { MulMono(e, hash, size); } else { MulMono(hash + 1, e, size); }
  }

  lemma EdgeStep(size: nat, s: nat)
    requires size > 0
    ensures 0x1_0000_0000 / size <= Edge(s + 1, size) - Edge(s, size) <= 0x1_0000_0000 / size + 1
  {
    var q := 0x1_0000_0000 / size;
    var e := Edge(s, size);
    DivModEq(0x1_0000_0000, size);
    DivModEq(s * 0x1_0000_0000 + size - 1, size);
    DivModEq((s + 1) * 0x1_0000_0000 + size - 1, size);
    var f := Edge(s + 1, size);
    if f - e < q { MulMono(f, e + q - 1, size); }
    if f - e > q + 1 { MulMono(e + q + 2, f, size); }
  }

  /** The eight slots of an element. */
  function Locs(h: Hash, size: nat, e: Element): (locs: seq<int>)
    requires size > 0
    ensures |locs| == 8 && forall k :: 0 <= k < 8 ==> 0 <= locs[k] < size
  {
    [Slot(h(e, 0), size), Slot(h(e, 1), size), Slot(h(e, 2), size), Slot(h(e, 3), size),
     Slot(h(e, 4), size), Slot(h(e, 5), size), Slot(h(e, 6), size), Slot(h(e, 7), size)]
  }

  /** An element is in slot i or may be put there exactly if that is the slot of one of its eight hashes. */
  lemma SlotsOf(h: Hash, size: nat, e: Element, i: nat)
    requires size > 0
    ensures i in Locs(h, size, e) <==> exists k :: 0 <= k < 8 && Slot(h(e, k), size) == i
  {
    hide Slot;
    var locs := Locs(h, size, e);
    assert forall k :: 0 <= k < 8 ==> locs[k] == Slot(h(e, k), size);
  }

  // ---------- the live entries ----------

  /** The elements in slots that are not marked for erasure. */
  ghost function Live(table: seq<Element>, dead: seq<bool>): set<Element> {
    set i | 0 <= i < |table| && i < |dead| && !dead[i] :: table[i]
  }

  /** The live slots of the current epoch, or of the one before it. */
  ghost function InEpoch(dead: seq<bool>, epoch: seq<bool>, now: bool): set<int> {
    set i | 0 <= i < |dead| && i < |epoch| && !dead[i] && epoch[i] == now
  }

  /** Every live entry is in one of its own slots; so is every entry but the default element that
      fills the table at first, and no other element is in the table twice. */
  ghost predicate Placed(h: Hash, blank: Element, table: seq<Element>, dead: seq<bool>) {
    && |table| == |dead| > 0
    && (forall i :: 0 <= i < |table| && (!dead[i] || table[i] != blank) ==> i in Locs(h, |table|, table[i]))
    && (forall i, j :: 0 <= i < j < |table| && table[i] == table[j] ==> table[i] == blank)
  }

  /** An element in hand: not in the table, or the default one. */
  ghost predicate InHand(blank: Element, table: seq<Element>, e: Element) {
    e == blank || e !in table
  }

  /** A live element is found by looking at its eight slots. */
  lemma LiveIsFound(h: Hash, blank: Element, table: seq<Element>, dead: seq<bool>, e: Element)
    requires Placed(h, blank, table, dead) && e in Live(table, dead)
    ensures exists k :: 0 <= k < 8 && table[Locs(h, |table|, e)[k]] == e
  {
    var i :| 0 <= i < |table| && !dead[i] && table[i] == e;
    assert i in Locs(h, |table|, e);
    var k :| 0 <= k < 8 && Locs(h, |table|, e)[k] == i;
  }

  // ---------- the two ways an insertion touches a slot ----------

  /** Putting the element in hand into a slot marked for erasure. */
  lemma FillSlot(h: Hash, blank: Element, table: seq<Element>, dead: seq<bool>, loc: nat, e: Element)
    requires Placed(h, blank, table, dead) && loc < |table| && dead[loc] && InHand(blank, table, e)
    requires loc in Locs(h, |table|, e)
    ensures Placed(h, blank, table[loc := e], dead[loc := false])
    ensures Live(table[loc := e], dead[loc := false]) == Live(table, dead) + {e}
  {
    var t', d' := table[loc := e], dead[loc := false];
    forall x ensures x in Live(t', d') <==> x in Live(table, dead) || x == e {
      if x in Live(table, dead) {
        var i :| 0 <= i < |table| && !dead[i] && table[i] == x;
        assert t'[i] == x && !d'[i];
      }
      if x == e { assert t'[loc] == x && !d'[loc]; }
    }
  }

  /** Exchanging the element in hand with the one in a live slot. */
  lemma SwapSlot(h: Hash, blank: Element, table: seq<Element>, dead: seq<bool>, loc: nat, e: Element)
    requires Placed(h, blank, table, dead) && loc < |table| && !dead[loc] && InHand(blank, table, e)
    requires loc in Locs(h, |table|, e)
    ensures Placed(h, blank, table[loc := e], dead) && InHand(blank, table[loc := e], table[loc])
    ensures Live(table[loc := e], dead) + {table[loc]} == Live(table, dead) + {e}
  {
    var t' := table[loc := e];
    forall x ensures x in Live(t', dead) || x == table[loc] <==> x in Live(table, dead) || x == e {
      if x in Live(table, dead) && x != table[loc] {
        var i :| 0 <= i < |table| && !dead[i] && table[i] == x;
        assert t'[i] == x;
      }
      if x == e { assert t'[loc] == x; }
      if x in Live(t', dead) {
        var i :| 0 <= i < |table| && !dead[i] && t'[i] == x;
        assert i != loc ==> table[i] in Live(table, dead);
      }
      if x == table[loc] { assert !dead[loc]; }
    }
  }

  /** The counts by epoch when one slot changes. */
  lemma EpochChange(dead: seq<bool>, epoch: seq<bool>, loc: nat, d: bool, flag: bool, now: bool)
    requires |dead| == |epoch| && loc < |dead|
    ensures |InEpoch(dead[loc := d], epoch[loc := flag], now)| ==
      |InEpoch(dead, epoch, now)| - (if !dead[loc] && epoch[loc] == now then 1 else 0)
      + (if !d && flag == now then 1 else 0)
  {
    var d', e' := dead[loc := d], epoch[loc := flag];
    var a, b := InEpoch(dead, epoch, now), InEpoch(d', e', now);
    forall i | i != loc ensures i in a <==> i in b {
      if 0 <= i < |dead| { assert d'[i] == dead[i] && e'[i] == epoch[i]; }
    }
    SameBut(a, b, loc);
  }

  lemma SameBut(a: set<int>, b: set<int>, x: int)
    requires forall i :: i != x ==> (i in a <==> i in b)
    ensures |b| == |a| - (if x in a then 1 else 0) + (if x in b then 1 else 0)
  {
    forall i ensures i in a - {x} <==> i in b - {x} {}
    assert a - {x} == b - {x};
    assert a == if x in a then (a - {x}) + {x} else a - {x};
    assert b == if x in b then (b - {x}) + {x} else b - {x};
  }

  lemma MultisetUpdate(t: seq<Element>, loc: nat, e: Element)
    requires loc < |t|
    ensures multiset(t[loc := e]) + multiset{t[loc]} == multiset(t) + multiset{e}
  {
  }

  // ---------- the walk of an insertion ----------

  /** The table with its epochs while an element is in hand, and the slot that was last used. */
  datatype Hand = Hand(table: seq<Element>, epoch: seq<bool>, e: Element, flag: bool, last: int)

  predicate HandOk(s: Hand) {
    |s.table| == |s.epoch| > 0
  }

  /** Where x is first among the slots from k on; eight if it is not. */
  function PlaceOf(locs: seq<int>, x: int, k: nat): (r: nat)
    requires k <= |locs|
    ensures k <= r <= |locs| && x !in locs[k..r] && (r < |locs| ==> locs[r] == x)
    decreases |locs| - k
  {
    if k == |locs| || locs[k] == x then k else
      assert locs[k..PlaceOf(locs, x, k + 1)] == [locs[k]] + locs[k + 1..PlaceOf(locs, x, k + 1)];
      PlaceOf(locs, x, k + 1)
  }

  /** The slot after the last one used, among the element's own; the second slot at first. */
  function NextOf(locs: seq<int>, last: int): int
    requires |locs| == 8
  {
    locs[(1 + PlaceOf(locs, last, 0)) % 8]
  }

  /** An element with eight different slots goes round them one after the other, and so never straight back
      to where it came from. */
  lemma NextAround(locs: seq<int>, k: nat)
    requires |locs| == 8 && k < 8 && forall i, j :: 0 <= i < j < 8 ==> locs[i] != locs[j]
    ensures NextOf(locs, locs[k]) == (if k == 7 then locs[0] else locs[k + 1]) != locs[k]
  {
    var r := PlaceOf(locs, locs[k], 0);
    assert forall i :: 0 <= i < r ==> locs[0..r][i] == locs[i];
  }

  /** One of the element's slots may be overwritten. */
  predicate HasFree(h: Hash, dead: seq<bool>, e: Element)
    requires |dead| > 0
  {
    exists k :: 0 <= k < 8 && dead[Locs(h, |dead|, e)[k]]
  }

  /** `at` is the first of them. */
  ghost predicate IsFirstFree(h: Hash, dead: seq<bool>, e: Element, at: int)
    requires |dead| > 0
  {
    exists k :: 0 <= k < 8 && FreeFrom(h, dead, e, k) && Locs(h, |dead|, e)[k] == at
  }

  predicate FreeFrom(h: Hash, dead: seq<bool>, e: Element, k: nat)
    requires |dead| > 0 && k < 8
  {
    var locs := Locs(h, |dead|, e);
    dead[locs[k]] && forall j :: 0 <= j < k ==> !dead[locs[j]]
  }

  /** The element in hand goes into the next of its slots, and what was there comes into hand. */
  function Moved(h: Hash, s: Hand): (r: Hand)
    requires HandOk(s)
    ensures HandOk(r) && |r.table| == |s.table|
  {
    var loc := NextOf(Locs(h, |s.table|, s.e), s.last);
    Hand(s.table[loc := s.e], s.epoch[loc := s.flag], s.table[loc], s.epoch[loc], loc)
  }

  function Walk(h: Hash, s: Hand, n: nat): (r: Hand)
    requires HandOk(s)
    ensures HandOk(r) && |r.table| == |s.table|
  {
    if n == 0 then s else Moved(h, Walk(h, s, n - 1))
  }

  /** After n moves, and not before, the element in hand has a slot that may be overwritten; or n is
      the limit and there was none. */
  ghost predicate WalkEnds(h: Hash, dead: seq<bool>, s: Hand, limit: nat, n: nat)
    requires HandOk(s) && |dead| > 0
  {
    n <= limit && AllFull(h, dead, s, n) && (n < limit ==> HasFree(h, dead, Walk(h, s, n).e))
  }

  ghost predicate AllFull(h: Hash, dead: seq<bool>, s: Hand, n: nat)
    requires HandOk(s) && |dead| > 0
  {
    forall i :: 0 <= i < n ==> !HasFree(h, dead, Walk(h, s, i).e)
  }

  lemma WalkNone(h: Hash, dead: seq<bool>, s: Hand)
    requires HandOk(s) && |dead| > 0
    ensures Walk(h, s, 0) == s && AllFull(h, dead, s, 0)
  {
  }

  lemma WalkMore(h: Hash, dead: seq<bool>, s: Hand, n: nat, now: Hand, loc: int)
    requires HandOk(s) && |dead| > 0 && Walk(h, s, n) == now && AllFull(h, dead, s, n) && !HasFree(h, dead, now.e)
    requires loc == NextOf(Locs(h, |now.table|, now.e), now.last) && 0 <= loc < |now.table|
    ensures HandOk(now) && AllFull(h, dead, s, n + 1)
    ensures Walk(h, s, n + 1) ==
      Hand(now.table[loc := now.e], now.epoch[loc := now.flag], now.table[loc], now.epoch[loc], loc)
  {
    hide HasFree, NextOf, Locs;
  }

  /** What an insertion leaves when it makes n moves: at the limit the element in hand is lost, else it
      takes the place of what is in the first of its slots that may be overwritten. */
  ghost predicate Inserted(h: Hash, dead: seq<bool>, s: Hand, limit: nat, n: nat, table: seq<Element>,
                           epoch: seq<bool>, dead': seq<bool>, gone: Element)
    requires HandOk(s) && |dead| == |s.table|
  {
    var end := Walk(h, s, n);
    && WalkEnds(h, dead, s, limit, n)
    && if n == limit then table == end.table && epoch == end.epoch && dead' == dead && gone == end.e
       else exists at :: IsFirstFree(h, dead, end.e, at) && PutAt(dead, end, at, table, epoch, dead', gone)
  }

  predicate PutAt(dead: seq<bool>, s: Hand, at: int, table: seq<Element>, epoch: seq<bool>, dead': seq<bool>,
                  gone: Element)
    requires HandOk(s) && |dead| == |s.table|
  {
    && 0 <= at < |dead| && table == s.table[at := s.e] && epoch == s.epoch[at := s.flag]
    && dead' == dead[at := false] && gone == s.table[at]
  }

  lemma EndsInSlot(h: Hash, dead: seq<bool>, s: Hand, limit: nat, n: nat, at: int, table: seq<Element>,
                   epoch: seq<bool>, dead': seq<bool>, gone: Element)
    requires HandOk(s) && |dead| == |s.table| && n < limit && AllFull(h, dead, s, n)
    requires HasFree(h, dead, Walk(h, s, n).e) && IsFirstFree(h, dead, Walk(h, s, n).e, at)
    requires PutAt(dead, Walk(h, s, n), at, table, epoch, dead', gone)
    ensures Inserted(h, dead, s, limit, n, table, epoch, dead', gone)
  {
    hide HasFree, IsFirstFree, PutAt, AllFull;
  }

  lemma EndsLost(h: Hash, dead: seq<bool>, s: Hand, limit: nat)
    requires HandOk(s) && |dead| == |s.table| && AllFull(h, dead, s, limit)
    ensures var end := Walk(h, s, limit); Inserted(h, dead, s, limit, limit, end.table, end.epoch, dead, end.e)
  {
  }

  function AtLeast(low: int, x: int): int {
    if x < low then low else x
  }

  /** The epoch size is a hundredth of x, at least one. */
  predicate EpochOf(x: int, epochSize: int) {
    && 0 <= x < 0x1_0000_0000 && epochSize >= 1
    && (x < 200 ==> epochSize == 1) && (x >= 100 ==> 100 * epochSize <= x < 100 * (epochSize + 1))
  }

  lemma Wrapped(x: nat, epochSize: int)
    requires epochSize == if x % 0x1_0000_0000 / 100 > 1 then x % 0x1_0000_0000 / 100 else 1
    ensures EpochOf(x - x / 0x1_0000_0000 * 0x1_0000_0000, epochSize)
    ensures x < 0x1_0000_0000 ==> x / 0x1_0000_0000 == 0
  {
  }

  class Cache {
    const h: Hash
    const blank: Element
    const size: nat
    const epochSize: nat
    const depthLimit: nat
    var table: seq<Element>
    var flags: seq<PackedFlags.Byte>
    var epoch: seq<bool>
    var counter: int

    ghost function Dead(): (d: seq<bool>)
      reads this
      requires size <= 8 * |flags|
    {
      PackedFlags.Flags(flags, size)
    }

    /** The most live entries one epoch may reach. */
    ghost function Most(): int {
      epochSize + if epochSize / 16 > 1 then epochSize / 16 else 1
    }

    ghost predicate Shape()
      reads this
    {
      && 2 <= size == |table| == |epoch| <= 8 * |flags| && size < INVALID
      && depthLimit >= 1 && epochSize >= 1
    }

    /** Between calls: entries are where they are looked for, and the epochs are bounded. */
    ghost predicate Valid()
      reads this
    {
      && Shape() && Placed(h, blank, table, Dead())
      && counter >= 0 && |InEpoch(Dead(), epoch, true)| + counter <= Most()
      && |InEpoch(Dead(), epoch, false)| <= Most()
    }

    /** After epoch_check and before the insertion: room for one more entry of the epoch. */
    ghost predicate Ready()
      reads this
    {
      && Shape() && Placed(h, blank, table, Dead())
      && counter >= 0 && |InEpoch(Dead(), epoch, true)| + 1 + counter <= Most()
      && |InEpoch(Dead(), epoch, false)| <= Most()
    }

    /** setup: every slot starts marked for erasure.  45 * size wraps at 32 bits in the source; the
        depth limit is the integer part of the binary logarithm, at least 1. */
    constructor Setup(h: Hash, newSize: u32, blank: Element, depthLimit: nat)
      requires newSize < INVALID && depthLimit >= 1
      ensures Valid() && size == (if newSize > 2 then newSize else 2) && Live(table, Dead()) == {}
      ensures this.h == h && this.blank == blank && this.depthLimit == depthLimit && counter == epochSize
      ensures 3 <= size && 45 * size < 0x1_0000_0000 ==> 100 * epochSize <= 45 * size < 100 * (epochSize + 1)
      ensures 20 <= size && 45 * size < 0x1_0000_0000 ==> 2 * Most() <= size
      ensures size == 2 ==> epochSize == 1
      ensures 45 * size >= 0x1_0000_0000 ==>
        exists wraps: nat :: 0 < wraps && EpochOf(45 * size - wraps * 0x1_0000_0000, epochSize)
    {
      this.h, this.blank := h, blank;
      var n: nat := if newSize > 2 then newSize else 2;
      var es := (45 * n) % 0x1_0000_0000 / 100;
      size := n;
      epochSize := if es > 1 then es else 1;
      this.depthLimit := depthLimit;
      table := seq(n, _ => blank);
      flags := seq((n + 7) / 8, _ => 0xFF);
      epoch := seq(n, _ => false);
      counter := if es > 1 then es else 1;
      new;
      Wrapped(45 * n, epochSize);
      forall i: nat | i < n ensures Dead()[i] { PackedFlags.AllSet(n, i); }
      assert InEpoch(Dead(), epoch, true) == {} && InEpoch(Dead(), epoch, false) == {};
    }

    method AllowErase(n: nat)
      requires Shape() && n < size
      modifies this`flags
      ensures Shape() && Dead() == old(Dead())[n := true]
    {
      PackedFlags.FlagsSet(flags, size, n);
      flags := PackedFlags.BitSet(flags, n);
    }

    method PleaseKeep(n: nat)
      requires Shape() && n < size
      modifies this`flags
      ensures Shape() && Dead() == old(Dead())[n := false]
    {
      PackedFlags.FlagsUnset(flags, size, n);
      flags := PackedFlags.BitUnset(flags, n);
    }

    /** Whether one of its eight slots holds the element; with `erase`, marks the first such slot.
        A live element is always found. */
    method Contains(e: Element, erase: bool) returns (found: bool, ghost loc: nat)
      requires Valid()
      modifies this`flags
      ensures Valid()
      ensures found <==> exists k :: 0 <= k < 8 && table[Locs(h, size, e)[k]] == e
      ensures e in old(Live(table, Dead())) ==> found
      ensures found ==> loc < size && table[loc] == e && loc in Locs(h, size, e)
      ensures Dead() == if found && erase then old(Dead())[loc := true] else old(Dead())
      ensures erase && found ==> old(Live(table, Dead())) - {e} <= Live(table, Dead()) <= old(Live(table, Dead()))
      ensures erase && found && e != blank ==> e !in Live(table, Dead())
    {
      var at := FindSlot(e);
      found, loc := at != -1, if at != -1 then at else 0;
      if found && erase {
        EraseSlot(h, blank, table, Dead(), epoch, at);
        AllowErase(at);
      }
    }

    /** The first of the eight slots that holds the element, or -1. */
    method FindSlot(e: Element) returns (at: int)
      requires Shape() && Placed(h, blank, table, Dead())
      ensures at == -1 || (0 <= at < size && table[at] == e && at in Locs(h, size, e))
      ensures at == -1 <==> !exists k :: 0 <= k < 8 && table[Locs(h, size, e)[k]] == e
      ensures at == -1 ==> e !in Live(table, Dead()) && InHand(blank, table, e)
      ensures at != -1 && e != blank && e in Live(table, Dead()) ==> !Dead()[at]
    {
      hide Slot;
      var locs := Locs(h, size, e);
      for k := 0 to 8
        invariant forall j :: 0 <= j < k ==> table[locs[j]] != e
      {
        if table[locs[k]] == e {
          return locs[k];
        }
      }
      if e in Live(table, Dead()) { LiveIsFound(h, blank, table, Dead(), e); }
      return -1;
    }

    /** The scan of epoch_check: the live entries of the current epoch. */
    method CountEpoch() returns (count: nat)
      requires Shape()
      ensures count == |InEpoch(Dead(), epoch, true)|
    {
      hide PackedFlags.BitIsSet;
      count := 0;
      assert InEpoch(Dead()[..0], epoch[..0], true) == {};
      for i := 0 to size
        invariant count == |InEpoch(Dead()[..i], epoch[..i], true)|
      {
        CountStep(Dead(), epoch, i);
        if epoch[i] && !PackedFlags.BitIsSet(flags, i) {
          count := count + 1;
        }
      }
      assert Dead()[..size] == Dead() && epoch[..size] == epoch;
    }

    /** The ageing of epoch_check: entries of the old epoch may be erased, those of the current one
        become old. */
    method Age()
      requires Shape()
      modifies this`flags, this`epoch
      ensures Shape() && epoch == seq(size, _ => false)
      ensures forall i :: 0 <= i < size ==> Dead()[i] == (old(Dead())[i] || !old(epoch)[i])
    {
      hide PackedFlags.BitIsSet, PackedFlags.BitSet;
      ghost var d0, e0 := Dead(), epoch;
      for i := 0 to size
        invariant Shape()
        invariant forall j :: 0 <= j < size ==> epoch[j] == (j >= i && e0[j])
        invariant forall j :: 0 <= j < size ==> Dead()[j] == (d0[j] || (j < i && !e0[j]))
      {
        if epoch[i] {
          epoch := epoch[i := false];
        } else {
          AllowErase(i);
        }
      }
    }

    /** Run before every insertion.  Nothing becomes live, and whatever the insertion then adds, the
        bounds on the epochs hold again after it. */
    method EpochCheck()
      requires Valid()
      modifies this`flags, this`epoch, this`counter
      ensures Ready() && Live(table, Dead()) <= old(Live(table, Dead()))
      ensures old(counter) != 0 || old(|InEpoch(Dead(), epoch, true)|) < epochSize ==>
        flags == old(flags) && epoch == old(epoch)
      ensures old(counter) == 0 && old(|InEpoch(Dead(), epoch, true)|) >= epochSize ==>
        && epoch == seq(size, _ => false) && counter == epochSize
        && forall i :: 0 <= i < size ==> Dead()[i] == (old(Dead())[i] || !old(epoch)[i])
      ensures old(counter) != 0 ==> counter == old(counter) - 1
      ensures old(counter) == 0 && old(|InEpoch(Dead(), epoch, true)|) < epochSize ==>
        counter == AtLeast(1, AtLeast(epochSize / 16, epochSize - old(|InEpoch(Dead(), epoch, true)|)))
    {
      if counter != 0 {
        counter := counter - 1;
        return;
      }
      var unused := CountEpoch();
      if unused >= epochSize {
        ghost var d0, e0 := Dead(), epoch;
        Age();
        AgedEpochs(h, blank, table, d0, e0, Dead(), epoch);
        counter := epochSize;
      } else {
        var step := if epochSize / 16 > epochSize - unused then epochSize / 16 else epochSize - unused;
        counter := if step > 1 then step else 1;
      }
    }

    /** Puts the element in hand into a slot marked for erasure. */
    method Occupy(at: nat, e: Element, flag: bool)
      requires Shape() && Placed(h, blank, table, Dead()) && at < size && Dead()[at]
      requires InHand(blank, table, e) && at in Locs(h, size, e)
      modifies this`table, this`flags, this`epoch
      ensures Shape() && Placed(h, blank, table, Dead())
      ensures Live(table, Dead()) == old(Live(table, Dead())) + {e}
      ensures multiset(table) + multiset{old(table)[at]} == multiset(old(table)) + multiset{e}
      ensures |InEpoch(Dead(), epoch, true)| == old(|InEpoch(Dead(), epoch, true)|) + (if flag then 1 else 0)
      ensures |InEpoch(Dead(), epoch, false)| == old(|InEpoch(Dead(), epoch, false)|) + (if flag then 0 else 1)
      ensures table == old(table)[at := e] && epoch == old(epoch)[at := flag] && Dead() == old(Dead())[at := false]
    {
      hide Placed, Live, InEpoch, Locs, PackedFlags.BitIsSet;
      FillSlot(h, blank, table, Dead(), at, e);
      MultisetUpdate(table, at, e);
      EpochChange(Dead(), epoch, at, false, flag, true);
      EpochChange(Dead(), epoch, at, false, flag, false);
      table := table[at := e];
      PleaseKeep(at);
      epoch := epoch[at := flag];
    }

    /** Exchanges the element in hand with the one in a live slot, together with their epochs. */
    method Displace(at: nat, e: Element, flag: bool) returns (e': Element, flag': bool)
      requires Shape() && Placed(h, blank, table, Dead()) && at < size && !Dead()[at]
      requires InHand(blank, table, e) && at in Locs(h, size, e)
      modifies this`table, this`epoch
      ensures Shape() && Placed(h, blank, table, Dead()) && table == old(table)[at := e]
      ensures epoch == old(epoch)[at := flag] && e' == old(table)[at] && flag' == old(epoch)[at]
      ensures InHand(blank, table, e') && Live(table, Dead()) + {e'} == old(Live(table, Dead())) + {e}
      ensures multiset(table) + multiset{e'} == multiset(old(table)) + multiset{e}
      ensures |InEpoch(Dead(), epoch, true)| + (if flag' then 1 else 0)
        == old(|InEpoch(Dead(), epoch, true)|) + (if flag then 1 else 0)
      ensures |InEpoch(Dead(), epoch, false)| + (if flag' then 0 else 1)
        == old(|InEpoch(Dead(), epoch, false)|) + (if flag then 0 else 1)
    {
      hide Placed, Live, InEpoch, Locs, PackedFlags.BitIsSet;
      SwapSlot(h, blank, table, Dead(), at, e);
      MultisetUpdate(table, at, e);
      EpochChange(Dead(), epoch, at, false, flag, true);
      EpochChange(Dead(), epoch, at, false, flag, false);
      assert Dead()[at := false] == Dead();
      e', flag' := table[at], epoch[at];
      table := table[at := e];
      epoch := epoch[at := flag];
    }

    /** The first of an element's slots that is marked for erasure, or -1. */
    method FindFree(e: Element) returns (at: int)
      requires Shape()
      ensures at == -1 || (0 <= at < size && at in Locs(h, size, e) && Dead()[at] && IsFirstFree(h, Dead(), e, at))
      ensures at == -1 <==> !HasFree(h, Dead(), e)
      ensures at == -1 ==> forall k :: 0 <= k < 8 ==> !Dead()[Locs(h, size, e)[k]]
    {
      hide PackedFlags.BitIsSet;
      var locs := Locs(h, size, e);
      hide Locs;
      for k := 0 to 8
        invariant forall j :: 0 <= j < k ==> !Dead()[locs[j]]
      {
        if PackedFlags.BitIsSet(flags, locs[k]) {
          assert FreeFrom(h, Dead(), e, k);
          return locs[k];
        }
      }
      return -1;
    }

    /** The slot after the last one used, among the element's own; the second slot at first. */
    method NextLoc(e: Element, lastLoc: int) returns (at: nat)
      requires Shape()
      ensures at < size && at in Locs(h, size, e) && at == NextOf(Locs(h, size, e), lastLoc)
      ensures lastLoc !in Locs(h, size, e) ==> at == Locs(h, size, e)[1]
      ensures forall k :: 0 <= k < 8 && Locs(h, size, e)[k] == lastLoc && lastLoc !in Locs(h, size, e)[..k] ==>
        at == Locs(h, size, e)[(k + 1) % 8]
    {
      var locs := Locs(h, size, e);
      hide Locs;
      var k := 0;
      while k < 8 && locs[k] != lastLoc
        invariant 0 <= k <= 8 && lastLoc !in locs[..k] && PlaceOf(locs, lastLoc, 0) == PlaceOf(locs, lastLoc, k)
      {
        k := k + 1;
      }
      at := locs[(1 + k) % 8];
    }

    /** Re-inserting an element that one of its slots still holds keeps it, as an entry of the
        current epoch. */
    method Keep(at: nat, e: Element)
      requires Ready() && at < size && table[at] == e && at in Locs(h, size, e)
      modifies this`flags, this`epoch
      ensures Valid() && Live(table, Dead()) == old(Live(table, Dead())) + {e}
      ensures Dead() == old(Dead())[at := false] && epoch == old(epoch)[at := true]
    {
      hide InEpoch, Locs, PackedFlags.BitIsSet;
      KeepSlot(h, blank, table, Dead(), at);
      EpochChange(Dead(), epoch, at, false, true, true);
      EpochChange(Dead(), epoch, at, false, true, false);
      PleaseKeep(at);
      epoch := epoch[at := true];
    }

    /** Inserts an element.  First, when the epoch is full, what is left of the one before it becomes
        erasable: `dead` are the slots that may then be overwritten, and `kept` the other entries.  Of
        `kept` and the new element all stay live, or all but one, `gone`, if the element in hand found no
        slot to overwrite in as many moves as the depth limit allows.  Apart from re-inserting what is
        already there, the table gains the element and loses exactly one entry. */
    method Insert(e: Element)
      returns (ghost kept: set<Element>, ghost dead: seq<bool>, ghost aged: seq<bool>, ghost gone: Element,
               ghost moves: nat)
      requires Valid()
      modifies this
      ensures Valid() && |dead| == |aged| == size && kept == Live(old(table), dead)
      ensures old(counter != 0 || |InEpoch(Dead(), epoch, true)| < epochSize) ==>
        dead == old(Dead()) && aged == old(epoch)
      ensures old(counter == 0 && |InEpoch(Dead(), epoch, true)| >= epochSize) ==>
        forall i :: 0 <= i < size ==> !aged[i] && dead[i] == (old(Dead())[i] || !old(epoch)[i])
      ensures kept + {e} - {gone} <= Live(table, Dead()) <= kept + {e}
      ensures moves < depthLimit ==> Live(table, Dead()) == kept + {e}
      ensures (exists k :: 0 <= k < 8 && old(table)[Locs(h, size, e)[k]] == e) ==>
        && table == old(table) && moves == 0
        && exists at :: 0 <= at < size && table[at] == e && Dead() == dead[at := false] && epoch == aged[at := true]
      ensures !(exists k :: 0 <= k < 8 && old(table)[Locs(h, size, e)[k]] == e) ==>
        && Inserted(h, dead, Hand(old(table), aged, e, true, INVALID), depthLimit, moves, table, epoch, Dead(), gone)
        && multiset(table) + multiset{gone} == multiset(old(table)) + multiset{e}
        && (moves < depthLimit ==> exists i :: 0 <= i < size && dead[i] && gone == old(table)[i])
    {
      hide InEpoch, Locs, Live, Placed, PackedFlags.BitIsSet, Inserted;
      EpochCheck();
      kept, dead, aged := Live(table, Dead()), Dead(), epoch;
      var at := FindSlot(e);
      if at != -1 {
        Keep(at, e);
        gone, moves := e, 0;
        return;
      }
      gone, moves := Cuckoo(e);
    }

    /** The displacement loop of insert. */
    method Cuckoo(e0: Element) returns (ghost gone: Element, ghost moves: nat)
      requires Ready() && InHand(blank, table, e0)
      modifies this`table, this`flags, this`epoch
      ensures Valid()
      ensures old(Live(table, Dead())) + {e0} - {gone} <= Live(table, Dead()) <= old(Live(table, Dead())) + {e0}
      ensures moves < depthLimit ==> Live(table, Dead()) == old(Live(table, Dead())) + {e0}
      ensures multiset(table) + multiset{gone} == multiset(old(table)) + multiset{e0}
      ensures moves < depthLimit ==> exists i :: 0 <= i < size && old(Dead())[i] && gone == old(table)[i]
      ensures Inserted(h, old(Dead()), Hand(old(table), old(epoch), e0, true, INVALID), depthLimit, moves,
                       table, epoch, Dead(), gone)
    {
      hide InEpoch, Locs, Live, Placed, InHand, PackedFlags.BitIsSet, NextOf, HasFree, IsFirstFree;
      hide Walk, AllFull, Inserted;
      ghost var live0, dead := Live(table, Dead()), Dead();
      ghost var new0, old0 := |InEpoch(Dead(), epoch, true)|, |InEpoch(Dead(), epoch, false)|;
      var e, flag, lastLoc := e0, true, INVALID;
      ghost var start := Hand(table, epoch, e, flag, lastLoc);
      WalkNone(h, dead, start);
      for depth := 0 to depthLimit
        invariant Shape() && Placed(h, blank, table, Dead()) && flags == old(flags)
        invariant InHand(blank, table, e) && Live(table, Dead()) + {e} == live0 + {e0}
        invariant multiset(table) + multiset{e} == multiset(old(table)) + multiset{e0}
        invariant |InEpoch(Dead(), epoch, true)| + (if flag then 1 else 0) == new0 + 1
        invariant |InEpoch(Dead(), epoch, false)| + (if flag then 0 else 1) == old0
        invariant forall i :: 0 <= i < size && Dead()[i] ==> table[i] == old(table)[i]
        invariant Walk(h, start, depth) == Hand(table, epoch, e, flag, lastLoc)
        invariant AllFull(h, dead, start, depth)
      {
        var at := FindFree(e);
        if at != -1 {
          gone, moves := table[at], depth;
          assert gone == old(table)[at] && old(Dead())[at];
          Occupy(at, e, flag);
          EndsInSlot(h, dead, start, depthLimit, depth, at, table, epoch, Dead(), gone);
          return;
        }
        ghost var now := Hand(table, epoch, e, flag, lastLoc);
        lastLoc := NextLoc(e, lastLoc);
        WalkMore(h, dead, start, depth, now, lastLoc);
        e, flag := Displace(lastLoc, e, flag);
      }
      EndsLost(h, dead, start, depthLimit);
      gone, moves := e, depthLimit;
    }
  }

  /** In a valid cache the live entries of both epochs together are at most twice the bound. */
  lemma LiveBound(c: Cache)
    requires c.Valid()
    ensures |InEpoch(c.Dead(), c.epoch, true)| <= c.Most()
    ensures |Live(c.table, c.Dead())| <= 2 * c.Most()
  {
    var a, b := InEpoch(c.Dead(), c.epoch, true), InEpoch(c.Dead(), c.epoch, false);
    ImageSmall(c.table, c.Dead(), a + b);
  }

  lemma {:induction false} ImageSmall(table: seq<Element>, dead: seq<bool>, slots: set<int>)
    requires forall i :: 0 <= i < |table| && i < |dead| && !dead[i] ==> i in slots
    ensures |Live(table, dead)| <= |slots|
    decreases |table|
  {
    if table == [] {
      assert Live(table, dead) == {};
    } else {
      var n := |table| - 1;
      ghost var rest := table[..n];
      if n < |dead| && !dead[n] {
        ImageSmall(rest, dead, slots - {n});
        assert Live(table, dead) == Live(rest, dead) + {table[n]};
      } else {
        ImageSmall(rest, dead, slots);
        assert Live(table, dead) == Live(rest, dead);
      }
    }
  }

  lemma KeepSlot(h: Hash, blank: Element, table: seq<Element>, dead: seq<bool>, at: nat)
    requires Placed(h, blank, table, dead) && at < |table| && at in Locs(h, |table|, table[at])
    ensures Placed(h, blank, table, dead[at := false])
    ensures Live(table, dead[at := false]) == Live(table, dead) + {table[at]}
  {
    var d' := dead[at := false];
    forall x ensures x in Live(table, d') <==> x in Live(table, dead) || x == table[at] {
      if x in Live(table, dead) {
        var i :| 0 <= i < |table| && !dead[i] && table[i] == x;
        assert !d'[i];
      }
      if x == table[at] { assert !d'[at]; }
    }
  }

  lemma CountStep(dead: seq<bool>, epoch: seq<bool>, i: nat)
    requires i < |dead| == |epoch|
    ensures |InEpoch(dead[..i + 1], epoch[..i + 1], true)| ==
      |InEpoch(dead[..i], epoch[..i], true)| + (if !dead[i] && epoch[i] then 1 else 0)
  {
    var a, b := InEpoch(dead[..i], epoch[..i], true), InEpoch(dead[..i + 1], epoch[..i + 1], true);
    forall j | j != i ensures j in a <==> j in b {}
    SameBut(a, b, i);
  }

  lemma AgedEpochs(h: Hash, blank: Element, table: seq<Element>, dead: seq<bool>, epoch: seq<bool>, dead': seq<bool>,
                   epoch': seq<bool>)
    requires Placed(h, blank, table, dead) && |table| == |dead| == |epoch| == |dead'| == |epoch'|
    requires forall i :: 0 <= i < |dead| ==> !epoch'[i] && dead'[i] == (dead[i] || !epoch[i])
    ensures Placed(h, blank, table, dead') && Live(table, dead') <= Live(table, dead)
    ensures |InEpoch(dead', epoch', true)| == 0
    ensures |InEpoch(dead', epoch', false)| == |InEpoch(dead, epoch, true)|
  {
    assert InEpoch(dead', epoch', true) == {};
    forall i ensures i in InEpoch(dead', epoch', false) <==> i in InEpoch(dead, epoch, true) {}
    assert InEpoch(dead', epoch', false) == InEpoch(dead, epoch, true);
  }

  lemma EraseSlot(h: Hash, blank: Element, table: seq<Element>, dead: seq<bool>, epoch: seq<bool>, loc: nat)
    requires Placed(h, blank, table, dead) && |epoch| == |dead| && loc < |table|
    ensures Placed(h, blank, table, dead[loc := true])
    ensures Live(table, dead) - {table[loc]} <= Live(table, dead[loc := true]) <= Live(table, dead)
    ensures table[loc] != blank ==> table[loc] !in Live(table, dead[loc := true])
    ensures |InEpoch(dead[loc := true], epoch, true)| <= |InEpoch(dead, epoch, true)|
    ensures |InEpoch(dead[loc := true], epoch, false)| <= |InEpoch(dead, epoch, false)|
  {
    EpochChange(dead, epoch, loc, true, epoch[loc], true);
    EpochChange(dead, epoch, loc, true, epoch[loc], false);
    assert epoch[loc := epoch[loc]] == epoch;
    EraseLive(table, dead, loc);
  }

  lemma EraseLive(table: seq<Element>, dead: seq<bool>, loc: nat)
    requires |table| == |dead| && loc < |table|
    ensures Live(table, dead) - {table[loc]} <= Live(table, dead[loc := true]) <= Live(table, dead)
  {
    var d' := dead[loc := true];
    forall x | x in Live(table, dead) && x != table[loc] ensures x in Live(table, d') {
      var i :| 0 <= i < |table| && !dead[i] && table[i] == x;
      assert !d'[i];
    }
  }
}
