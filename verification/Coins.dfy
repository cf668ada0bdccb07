/** The cache entries of src/coins.h as values: what a cache over a view shows, what its DIRTY
    and FRESH flags promise, and how a child's entries merge into its parent. */
module CoinEntries {

  type Byte = x: int | 0 <= x < 0x100

  datatype OutPoint = OutPoint(hash: nat, n: nat)

  /** A UTXO; an output of value -1 is the null output, and marks a spent coin. */
  datatype Coin = Coin(value: int, script: seq<Byte>, height: nat, coinBase: bool) {
    predicate IsSpent() {
      value == -1
    }

    predicate IsUnspendable() {
      (|script| > 0 && script[0] == 0x6a) || |script| > 10000
    }

    /** Heap bytes of the script: none up to 28 bytes, else the allocation rounded as malloc does. */
    function DynamicMemoryUsage(): nat {
      if |script| <= 28 then 0 else (|script| + 31) / 16 * 16
    }
  }

  /** A script of more than 28 bytes takes the multiple of 16 that has room for it and 16 bytes more. */
  lemma UsageIs(c: Coin, usage: nat)
    ensures usage == c.DynamicMemoryUsage() <==>
      if |c.script| <= 28 then usage == 0
      else usage % 16 == 0 && |c.script| + 16 <= usage < |c.script| + 32
  {
  }

  /** What Coin::Clear leaves, and what the default constructor makes. */
  const EMPTY_COIN := Coin(-1, [], 0, false)

  datatype Entry = Entry(coin: Coin, isDirty: bool, isFresh: bool)

  type CoinsMap = map<OutPoint, Entry>
  type FlatView = map<OutPoint, Coin>

  /** The unspent coins seen through a cache laid over a view. */
  ghost function Overlay(cache: CoinsMap, below: FlatView): FlatView {
    map o | o in cache.Keys + below.Keys && (o in cache ==> !cache[o].coin.IsSpent()) ::
      if o in cache then cache[o].coin else below[o]
  }

  /** What the flags of one entry mean: a clean entry repeats the parent view, and FRESH says
      that the parent view has no unspent coin there. */
  ghost predicate EntryOk(o: OutPoint, e: Entry, below: FlatView) {
    && (e.isFresh ==> o !in below)
    && (!e.isDirty ==> if o in below then e.coin == below[o] else e.coin.IsSpent())
  }

  ghost predicate LayerOk(cache: CoinsMap, below: FlatView) {
    forall o :: o in cache ==> EntryOk(o, cache[o], below)
  }

  ghost predicate AllUnspent(view: FlatView) {
    forall o :: o in view ==> !view[o].IsSpent()
  }

  lemma EmptyOverlay(below: FlatView)
    ensures Overlay(map[], below) == below
  {
  }

  lemma OverlayUnspent(cache: CoinsMap, below: FlatView)
    requires AllUnspent(below)
    ensures AllUnspent(Overlay(cache, below))
  {
  }

  // ---------- merging a child's entries ----------

  datatype Slot = Absent | Present(entry: Entry)

  function At(cache: CoinsMap, o: OutPoint): Slot {
    if o in cache then Present(cache[o]) else Absent
  }

  /** What BatchWrite makes of the parent's entry `us` given the child's entry. */
  function MergeSlot(us: Slot, child: Slot): Slot {
    match child
    case Absent => us
    case Present(c) =>
      if !c.isDirty then us
      else if us.Absent? then
        (if c.isFresh && c.coin.IsSpent() then Absent else Present(Entry(c.coin, true, c.isFresh)))
      else if us.entry.isFresh && c.coin.IsSpent() then Absent
      else Present(Entry(c.coin, true, us.entry.isFresh))
  }

  ghost function Merged(us: CoinsMap, child: CoinsMap): CoinsMap {
    map o | o in us.Keys + child.Keys && MergeSlot(At(us, o), At(child, o)).Present? ::
      MergeSlot(At(us, o), At(child, o)).entry
  }

  /** Part of the way through BatchWrite, with `rest` still to come. */
  ghost predicate MergeProgress(cache: CoinsMap, us: CoinsMap, child: CoinsMap, rest: CoinsMap) {
    && (forall o :: o in rest ==> o in child && rest[o] == child[o])
    && (forall o :: At(cache, o) == if o in rest then At(us, o) else MergeSlot(At(us, o), At(child, o)))
    && (forall o :: o in rest || !Misapplied(At(us, o), At(child, o)))
  }

  lemma MergeNext(cache: CoinsMap, us: CoinsMap, child: CoinsMap, rest: CoinsMap, o: OutPoint)
    requires MergeProgress(cache, us, child, rest) && o in rest
    ensures At(cache, o) == At(us, o) && At(child, o) == Present(rest[o])
    ensures |rest - {o}| < |rest|
  {
    assert rest == (rest - {o})[o := rest[o]];
  }

  lemma MergeStep(cache: CoinsMap, cache': CoinsMap, us: CoinsMap, child: CoinsMap, rest: CoinsMap, o: OutPoint)
    requires MergeProgress(cache, us, child, rest) && o in rest
    requires !Misapplied(At(us, o), At(child, o))
    requires At(cache', o) == MergeSlot(At(cache, o), Present(rest[o]))
    requires forall x :: x != o ==> At(cache', x) == At(cache, x)
    ensures MergeProgress(cache', us, child, rest - {o})
  {
  }

  lemma MergedIs(cache: CoinsMap, us: CoinsMap, child: CoinsMap)
    requires MergeProgress(cache, us, child, map[])
    ensures cache == Merged(us, child) && NoneMisapplied(us, child)
  {
    var merged := Merged(us, child);
    forall o ensures At(cache, o) == At(merged, o) {
      assert o in merged <==> MergeSlot(At(us, o), At(child, o)).Present?;
    }
    assert forall o :: o in cache <==> At(cache, o).Present?;
    assert forall o :: o in merged <==> At(merged, o).Present?;
  }

  /** The condition under which BatchWrite throws for an entry. */
  predicate Misapplied(us: Slot, child: Slot) {
    child.Present? && us.Present? && child.entry.isDirty && child.entry.isFresh && !us.entry.coin.IsSpent()
  }

  ghost predicate NoneMisapplied(us: CoinsMap, child: CoinsMap) {
    forall o :: !Misapplied(At(us, o), At(child, o))
  }

  /** One outpoint of the merge: no throw, the flags stay true, and the view agrees. */
  lemma MergeSlotOk(us: CoinsMap, child: CoinsMap, below: FlatView, o: OutPoint)
    requires AllUnspent(below) && LayerOk(us, below) && LayerOk(child, Overlay(us, below))
    ensures !Misapplied(At(us, o), At(child, o))
    ensures var m := MergeSlot(At(us, o), At(child, o));
      && (m.Present? ==> EntryOk(o, m.entry, below))
      && (o in Overlay(child, Overlay(us, below)) <==>
          if m.Present? then !m.entry.coin.IsSpent() else o in below)
      && (o in Overlay(child, Overlay(us, below)) ==>
          Overlay(child, Overlay(us, below))[o] == if m.Present? then m.entry.coin else below[o])
  {
    if o in us { assert EntryOk(o, us[o], below); }
    if o in child { assert EntryOk(o, child[o], Overlay(us, below)); }
  }

  /** BatchWrite is right: from a parent and a child whose flags are true, no entry is
      misapplied, the merged flags are true, and the merged cache shows the child's view. */
  lemma MergePreservesView(us: CoinsMap, child: CoinsMap, below: FlatView)
    requires AllUnspent(below) && LayerOk(us, below) && LayerOk(child, Overlay(us, below))
    ensures NoneMisapplied(us, child)
    ensures LayerOk(Merged(us, child), below)
    ensures Overlay(Merged(us, child), below) == Overlay(child, Overlay(us, below))
  {
    var merged := Merged(us, child);
    forall o ensures !Misapplied(At(us, o), At(child, o)) { MergeSlotOk(us, child, below, o); }
    forall o | o in merged ensures EntryOk(o, merged[o], below) { MergeSlotOk(us, child, below, o); }
    var target, got := Overlay(child, Overlay(us, below)), Overlay(merged, below);
    forall o ensures (o in got <==> o in target) && (o in got ==> got[o] == target[o]) {
      MergeSlotOk(us, child, below, o);
      assert o in merged <==> MergeSlot(At(us, o), At(child, o)).Present?;
    }
  }

  // ---------- memory accounting ----------

  ghost function SumUsage(m: CoinsMap): nat {
    if m == map[] then 0 else
      var o :| o in m;
      m[o].coin.DynamicMemoryUsage() + SumUsage(m - {o})
  }

  lemma {:induction false} SumRemove(m: CoinsMap, k: OutPoint)
    requires k in m
    ensures SumUsage(m) == m[k].coin.DynamicMemoryUsage() + SumUsage(m - {k})
    decreases |m|
  {
    var o :| o in m && SumUsage(m) == m[o].coin.DynamicMemoryUsage() + SumUsage(m - {o});
    if o == k {
    } else {
      SumRemove(m - {o}, k);
      SumRemove(m - {k}, o);
      assert m - {o} - {k} == m - {k} - {o};
    }
  }

  lemma SumUpdate(m: CoinsMap, k: OutPoint, e: Entry)
    ensures SumUsage(m[k := e]) == e.coin.DynamicMemoryUsage()
      + SumUsage(m) - (if k in m then m[k].coin.DynamicMemoryUsage() else 0)
    ensures k in m ==> SumUsage(m) >= m[k].coin.DynamicMemoryUsage()
  {
    SumRemove(m[k := e], k);
    assert m[k := e] - {k} == m - {k};
    if k in m { SumRemove(m, k); } else { assert m - {k} == m; }
  }
}

/** The stack of write-back caches of src/coins.cpp over a coin database. */
module CoinsView {
  import opened CoinEntries

  datatype Option<T> = None | Some(value: T)

  /** The bottom of the stack: a plain map, and the block it stands for. */
  class CoinsDB {
    var coins: FlatView
    var bestBlock: nat

    constructor ()
      ensures coins == map[] && bestBlock == 0
    {
      coins, bestBlock := map[], 0;
    }

    /** Writes the modified entries: a spent one is erased, any other stored. */
    method BatchWrite(child: CoinsMap, hashBlock: nat)
      requires hashBlock != 0
      modifies this
      ensures bestBlock == hashBlock
      ensures forall o :: o in coins <==>
        if o in child && child[o].isDirty then !child[o].coin.IsSpent() else o in old(coins)
      ensures forall o :: o in coins ==>
        coins[o] == if o in child && child[o].isDirty then child[o].coin else old(coins)[o]
    {
      var rest := child;
      while rest != map[]
        invariant forall o :: o in rest ==> o in child && rest[o] == child[o]
        invariant forall o :: o in coins <==>
          if o in child && o !in rest && child[o].isDirty then !child[o].coin.IsSpent() else o in old(coins)
        invariant forall o :: o in coins ==>
          coins[o] == if o in child && o !in rest && child[o].isDirty then child[o].coin else old(coins)[o]
        decreases |rest|
      {
        var o :| o in rest;
        if rest[o].isDirty {
          if rest[o].coin.IsSpent() {
            coins := coins - {o};
          } else {
            coins := coins[o := rest[o].coin];
          }
        }
        rest := rest - {o};
      }
      bestBlock := hashBlock;
    }
  }

  lemma DBWriteIsOverlay(child: CoinsMap, before: FlatView, after: FlatView)
    requires AllUnspent(before) && LayerOk(child, before)
    requires forall o :: o in after <==>
      if o in child && child[o].isDirty then !child[o].coin.IsSpent() else o in before
    requires forall o :: o in after ==>
      after[o] == if o in child && child[o].isDirty then child[o].coin else before[o]
    ensures after == Overlay(child, before)
  {
    var target := Overlay(child, before);
    forall o ensures (o in after <==> o in target) && (o in after ==> after[o] == target[o]) {
      if o in child { assert EntryOk(o, child[o], before); }
    }
  }

  /** Filling the cache with the parent's own coin changes nothing that is seen. */
  lemma FetchKeepsView(cache: CoinsMap, below: FlatView, o: OutPoint, e: Entry)
    requires AllUnspent(below) && LayerOk(cache, below)
    requires o !in cache && o in below && e == Entry(below[o], false, false)
    ensures LayerOk(cache[o := e], below)
    ensures Overlay(cache[o := e], below) == Overlay(cache, below)
  {
    var a, b := Overlay(cache[o := e], below), Overlay(cache, below);
    assert forall x :: x in a <==> x in b;
  }

  /** The entry AddCoin leaves: emplaced empty if missing, then overwritten and flagged. */
  function AddedEntry(cache: CoinsMap, o: OutPoint, coin: Coin, possibleOverwrite: bool): Entry {
    var e := if o in cache then cache[o] else Entry(EMPTY_COIN, false, false);
    Entry(coin, true, e.isFresh || (!possibleOverwrite && !e.isDirty))
  }

  /** When AddCoin does not throw, the view gains the coin; and its FRESH flag is true exactly
      when the caller's promise was. */
  lemma AddEffect(cache: CoinsMap, below: FlatView, o: OutPoint, coin: Coin, possibleOverwrite: bool)
    requires AllUnspent(below) && LayerOk(cache, below) && !coin.IsSpent()
    requires possibleOverwrite || o !in cache || cache[o].coin.IsSpent()
    ensures var cache' := cache[o := AddedEntry(cache, o, coin, possibleOverwrite)];
      && Overlay(cache', below) == Overlay(cache, below)[o := coin]
      && (LayerOk(cache', below) <==> possibleOverwrite || o !in Overlay(cache, below))
      && SumUsage(cache') == coin.DynamicMemoryUsage() + SumUsage(cache)
         - (if o in cache then cache[o].coin.DynamicMemoryUsage() else 0)
  {
    SumUpdate(cache, o, AddedEntry(cache, o, coin, possibleOverwrite));
    var cache' := cache[o := AddedEntry(cache, o, coin, possibleOverwrite)];
    var a, b := Overlay(cache', below), Overlay(cache, below)[o := coin];
    assert forall x :: x in a <==> x in b;
    if o in cache { assert EntryOk(o, cache[o], below); }
    assert LayerOk(cache', below) <==> EntryOk(o, cache'[o], below);
  }

  /** What SpendCoin makes of a cached entry: gone if FRESH, else an empty modified one. */
  function SpentCache(cache: CoinsMap, o: OutPoint): CoinsMap
    requires o in cache
  {
    if cache[o].isFresh then cache - {o} else cache[o := Entry(EMPTY_COIN, true, false)]
  }

  lemma SpendEffect(cache: CoinsMap, below: FlatView, o: OutPoint)
    requires AllUnspent(below) && LayerOk(cache, below) && o in cache
    ensures Overlay(SpentCache(cache, o), below) == Overlay(cache, below) - {o}
    ensures LayerOk(SpentCache(cache, o), below)
    ensures SumUsage(SpentCache(cache, o)) == SumUsage(cache) - cache[o].coin.DynamicMemoryUsage()
  {
    assert EntryOk(o, cache[o], below);
    var a, b := Overlay(SpentCache(cache, o), below), Overlay(cache, below) - {o};
    assert forall x :: x in a <==> x in b;
    if cache[o].isFresh { SumRemove(cache, o); } else { SumUpdate(cache, o, Entry(EMPTY_COIN, true, false)); }
  }

  lemma UncacheKeepsView(cache: CoinsMap, below: FlatView, o: OutPoint)
    requires AllUnspent(below) && LayerOk(cache, below) && o in cache
    requires !cache[o].isDirty && !cache[o].isFresh
    ensures Overlay(cache - {o}, below) == Overlay(cache, below)
    ensures LayerOk(cache - {o}, below)
  {
    assert EntryOk(o, cache[o], below);
    var a, b := Overlay(cache - {o}, below), Overlay(cache, below);
    assert forall x :: x in a <==> x in b;
  }

  /** A cache over another cache, or over the database when base is null. */
  class CoinsViewCache {
    const base: CoinsViewCache?
    const db: CoinsDB
    var cacheCoins: CoinsMap
    var cachedCoinsUsage: int
    var hashBlock: nat
    ghost const Repr: set<object>

    /** This layer and everything below it, without sharing. */
    ghost predicate Stacked()
      decreases Repr
    {
      && this in Repr && db in Repr
      && (base == null ==> Repr == {this, db})
      && (base != null ==>
          base.Repr < Repr && Repr == {this} + base.Repr && this !in base.Repr && base.db == db && base.Stacked())
    }

    /** The objects below this layer. */
    ghost function Lower(): set<object> {
      if base == null then {db} else base.Repr
    }

    /** What the view below this cache shows. */
    ghost function Below(): FlatView
      requires Stacked()
      reads Lower()
      decreases Repr, 0
    {
      if base == null then db.coins else base.View()
    }

    /** What this cache shows: the flat map the whole stack stands for. */
    ghost function View(): FlatView
      requires Stacked()
      reads Repr
      decreases Repr, 1
    {
      Overlay(cacheCoins, Below())
    }

    /** The layers below are in order. */
    ghost predicate ValidBelow()
      requires Stacked()
      reads Lower()
      decreases Repr, 0
    {
      (base != null ==> base.Valid()) && AllUnspent(Below())
    }

    /** All flags in this layer and below are true, and the byte counts are exact. */
    ghost predicate Valid()
      reads Repr
      decreases Repr, 1
    {
      && Stacked() && ValidBelow()
      && LayerOk(cacheCoins, Below())
      && cachedCoinsUsage == SumUsage(cacheCoins)
    }

    constructor OverDatabase(db: CoinsDB)
      requires AllUnspent(db.coins)
      ensures Valid() && this.db == db && base == null && fresh(this) && Repr == {this, db}
      ensures cacheCoins == map[] && hashBlock == 0
      ensures View() == db.coins
    {
      this.base, this.db := null, db;
      cacheCoins, cachedCoinsUsage, hashBlock := map[], 0, 0;
      Repr := {this, db};
    }

    constructor Over(base: CoinsViewCache)
      requires base.Valid()
      ensures Valid() && this.base == base && fresh(this) && Repr == {this} + base.Repr
      ensures cacheCoins == map[] && hashBlock == 0
      ensures View() == base.View()
    {
      this.base, this.db := base, base.db;
      cacheCoins, cachedCoinsUsage, hashBlock := map[], 0, 0;
      Repr := {this} + base.Repr;
      new;
      OverlayUnspent(base.cacheCoins, base.Below());
      assert Below() == base.View();
      EmptyOverlay(Below());
    }

    /** base->GetCoin: the view below may fill its own caches, but shows the same. */
    method GetFromBase(o: OutPoint) returns (got: Option<Coin>)
      requires Valid()
      modifies Lower()
      ensures Valid() && Below() == old(Below())
      ensures got == if o in Below() then Some(Below()[o]) else None
      decreases Repr, 0
    {
      if base == null {
        got := if o in db.coins then Some(db.coins[o]) else None;
      } else {
        got := base.GetCoin(o);
      }
    }

    /** The cached entry, pulled in from below when missing; no view changes on the way. */
    method FetchCoin(o: OutPoint) returns (found: bool)
      requires Valid()
      modifies Repr
      ensures Valid() && View() == old(View()) && Below() == old(Below())
      ensures found <==> o in cacheCoins
      ensures found <==> o in old(cacheCoins) || o in old(View())
      ensures cacheCoins == if o !in old(cacheCoins) && o in old(View())
        then old(cacheCoins)[o := Entry(old(View())[o], false, false)] else old(cacheCoins)
      ensures !found ==> o !in View()
      decreases Repr, 1
    {
      if o in cacheCoins {
        return true;
      }
      var got := GetFromBase(o);
      if got.None? {
        return false;
      }
      var e := Entry(got.value, false, got.value.IsSpent());
      FetchKeepsView(cacheCoins, Below(), o, e);
      SumUpdate(cacheCoins, o, e);
      cacheCoins := cacheCoins[o := e];
      cachedCoinsUsage := cachedCoinsUsage + e.coin.DynamicMemoryUsage();
      return true;
    }

    /** Exactly the coin of the flat view, if it has one. */
    method GetCoin(o: OutPoint) returns (r: Option<Coin>)
      requires Valid()
      modifies Repr
      ensures Valid() && View() == old(View())
      ensures r == if o in View() then Some(View()[o]) else None
      decreases Repr, 2
    {
      var found := FetchCoin(o);
      if found && !cacheCoins[o].coin.IsSpent() {
        return Some(cacheCoins[o].coin);
      }
      return None;
    }

    /** Adds a coin; throws when it would replace a cached unspent one that was promised absent.
        The throw happens after the byte count was lowered, so it leaves the count wrong. */
    method AddCoin(o: OutPoint, coin: Coin, possibleOverwrite: bool) returns (threw: bool)
      requires Valid() && !coin.IsSpent()
      modifies this`cacheCoins, this`cachedCoinsUsage
      ensures coin.IsUnspendable() ==> cacheCoins == old(cacheCoins) && Valid()
      ensures threw <==> (!coin.IsUnspendable() && !possibleOverwrite
                          && o in old(cacheCoins) && !old(cacheCoins)[o].coin.IsSpent())
      ensures threw ==> cacheCoins == old(cacheCoins)
      ensures threw ==> cachedCoinsUsage == old(cachedCoinsUsage) - old(cacheCoins)[o].coin.DynamicMemoryUsage()
      ensures !threw && !coin.IsUnspendable() ==>
        cacheCoins == old(cacheCoins)[o := AddedEntry(old(cacheCoins), o, coin, possibleOverwrite)]
      ensures !threw && !coin.IsUnspendable() ==> View() == old(View())[o := coin]
      ensures !threw && !coin.IsUnspendable() ==> (Valid() <==> possibleOverwrite || o !in old(View()))
    {
      if coin.IsUnspendable() {
        return false;
      }
      var e := if o in cacheCoins then cacheCoins[o] else Entry(EMPTY_COIN, false, false);
      var usage := if o in cacheCoins then cachedCoinsUsage - e.coin.DynamicMemoryUsage() else cachedCoinsUsage;
      if !possibleOverwrite && !e.coin.IsSpent() {
        cachedCoinsUsage := usage;
        return true;
      }
      var markFresh := !possibleOverwrite && !e.isDirty;
      AddEffect(cacheCoins, Below(), o, coin, possibleOverwrite);
      cacheCoins := cacheCoins[o := Entry(coin, true, e.isFresh || markFresh)];
      cachedCoinsUsage := usage + coin.DynamicMemoryUsage();
      return false;
    }

    /** Spends a coin: the view loses it, whatever the cache held; `moved` is the coin it had.  The
        answer is true also for a coin that the cache itself holds as spent. */
    method SpendCoin(o: OutPoint) returns (found: bool, moved: Coin)
      requires Valid()
      modifies Repr
      ensures Valid() && View() == old(View()) - {o} && Below() == old(Below())
      ensures found <==> o in old(cacheCoins) || o in old(View())
      ensures if o in old(View()) then moved == old(View())[o] else moved.IsSpent()
      ensures cacheCoins == if !found then old(cacheCoins)
        else if o in old(cacheCoins) && old(cacheCoins)[o].isFresh then old(cacheCoins) - {o}
        else old(cacheCoins)[o := Entry(EMPTY_COIN, true, false)]
    {
      found := FetchCoin(o);
      if !found {
        moved := EMPTY_COIN;
        return;
      }
      moved := SpendCached(o);
    }

    /** The coin of an entry is moved out: a FRESH entry is erased, another stays as a spent one to write. */
    method SpendCached(o: OutPoint) returns (moved: Coin)
      requires Valid() && o in cacheCoins
      modifies this`cacheCoins, this`cachedCoinsUsage
      ensures Valid() && View() == old(View()) - {o} && Below() == old(Below())
      ensures moved == old(cacheCoins)[o].coin
      ensures cacheCoins == if old(cacheCoins)[o].isFresh then old(cacheCoins) - {o}
        else old(cacheCoins)[o := Entry(EMPTY_COIN, true, false)]
    {
      moved := cacheCoins[o].coin;
      SpendEffect(cacheCoins, Below(), o);
      cachedCoinsUsage := cachedCoinsUsage - moved.DynamicMemoryUsage();
      if cacheCoins[o].isFresh {
        cacheCoins := cacheCoins - {o};
      } else {
        cacheCoins := cacheCoins[o := Entry(EMPTY_COIN, true, cacheCoins[o].isFresh)];
      }
    }

    /** Drops an unmodified entry; nothing that is seen changes. */
    method Uncache(o: OutPoint)
      requires Valid()
      modifies this`cacheCoins, this`cachedCoinsUsage
      ensures Valid() && View() == old(View()) && Below() == old(Below())
      ensures cacheCoins == if o in old(cacheCoins) && !old(cacheCoins)[o].isDirty && !old(cacheCoins)[o].isFresh
        then old(cacheCoins) - {o} else old(cacheCoins)
    {
      if o in cacheCoins && !cacheCoins[o].isDirty && !cacheCoins[o].isFresh {
        UncacheKeepsView(cacheCoins, Below(), o);
        SumRemove(cacheCoins, o);
        cachedCoinsUsage := cachedCoinsUsage - cacheCoins[o].coin.DynamicMemoryUsage();
        cacheCoins := cacheCoins - {o};
      }
    }

    /** Writes a child's entries into this cache.  It throws exactly on a misapplied FRESH flag;
        from a child whose flags are true of this view it never does, and this layer then shows
        the child's view over unchanged layers. */
    method BatchWrite(child: CoinsMap, hashBlockIn: nat) returns (threw: bool)
      requires Valid()
      modifies this
      ensures threw <==> !NoneMisapplied(old(cacheCoins), child)
      ensures !threw ==> cacheCoins == Merged(old(cacheCoins), child) && hashBlock == hashBlockIn
      ensures LayerOk(child, old(View())) ==>
        !threw && Valid() && View() == Overlay(child, old(View())) && Below() == old(Below())
    {
      ghost var cache0, below := cacheCoins, Below();
      if LayerOk(child, View()) {
        MergePreservesView(cache0, child, below);
      }
      threw := MergeAll(child, hashBlockIn);
      assert Below() == below;
    }

    /** The loop of BatchWrite: takes over the child's entries one by one, in any order. */
    method MergeAll(child: CoinsMap, hashBlockIn: nat) returns (threw: bool)
      requires cachedCoinsUsage == SumUsage(cacheCoins)
      modifies this
      ensures threw <==> !NoneMisapplied(old(cacheCoins), child)
      ensures !threw ==> cacheCoins == Merged(old(cacheCoins), child)
      ensures !threw ==> hashBlock == hashBlockIn && cachedCoinsUsage == SumUsage(cacheCoins)
    {
      ghost var us := cacheCoins;
      var rest := child;
      while rest != map[]
        invariant MergeProgress(cacheCoins, us, child, rest)
        invariant cachedCoinsUsage == SumUsage(cacheCoins)
        decreases |rest|
      {
        var o :| o in rest;
        MergeNext(cacheCoins, us, child, rest, o);
        if rest[o].isDirty && o in cacheCoins && rest[o].isFresh && !cacheCoins[o].coin.IsSpent() {
          assert Misapplied(At(us, o), At(child, o));
          return true;
        }
        ghost var before := cacheCoins;
        TakeOver(o, rest[o]);
        MergeStep(before, cacheCoins, us, child, rest, o);
        rest := rest - {o};
      }
      MergedIs(cacheCoins, us, child);
      hashBlock := hashBlockIn;
      return false;
    }

    /** The body of the BatchWrite loop for one entry that is not misapplied. */
    method TakeOver(o: OutPoint, c: Entry)
      requires cachedCoinsUsage == SumUsage(cacheCoins)
      modifies this`cacheCoins, this`cachedCoinsUsage
      ensures cachedCoinsUsage == SumUsage(cacheCoins)
      ensures At(cacheCoins, o) == MergeSlot(old(At(cacheCoins, o)), Present(c))
      ensures forall x :: x != o ==> At(cacheCoins, x) == old(At(cacheCoins, x))
    {
      if !c.isDirty {
        return;
      }
      if o !in cacheCoins {
        if !(c.isFresh && c.coin.IsSpent()) {
          SumUpdate(cacheCoins, o, Entry(c.coin, true, c.isFresh));
          cacheCoins := cacheCoins[o := Entry(c.coin, true, c.isFresh)];
          cachedCoinsUsage := cachedCoinsUsage + c.coin.DynamicMemoryUsage();
        }
      } else if cacheCoins[o].isFresh && c.coin.IsSpent() {
        SumRemove(cacheCoins, o);
        cachedCoinsUsage := cachedCoinsUsage - cacheCoins[o].coin.DynamicMemoryUsage();
        cacheCoins := cacheCoins - {o};
      } else {
        var e := Entry(c.coin, true, cacheCoins[o].isFresh);
        SumUpdate(cacheCoins, o, e);
        cachedCoinsUsage := cachedCoinsUsage - cacheCoins[o].coin.DynamicMemoryUsage() + c.coin.DynamicMemoryUsage();
        cacheCoins := cacheCoins[o := e];
      }
    }

    /** base->BatchWrite: the view below takes this layer's view, the layers under it stay. */
    method WriteToBase()
      requires Valid() && (base == null ==> hashBlock != 0)
      modifies if base == null then {db} else {base}
      ensures ValidBelow() && Below() == old(View())
      ensures base != null ==> base.Below() == old(base.Below()) && base.hashBlock == hashBlock
      ensures base == null ==> db.bestBlock == hashBlock
    {
      OverlayUnspent(cacheCoins, Below());
      if base == null {
        db.BatchWrite(cacheCoins, hashBlock);
        DBWriteIsOverlay(cacheCoins, old(db.coins), db.coins);
      } else {
        var threw := base.BatchWrite(cacheCoins, hashBlock);
        assert !threw;
      }
    }

    /** Pushes the modifications down.  No entry is ever misapplied; the view of this layer stays,
        the layer below now shows it too, and the layers under that are untouched. */
    method Flush()
      requires Valid() && (base == null ==> hashBlock != 0)
      modifies this, if base == null then {db} else {base}
      ensures Valid() && View() == old(View()) && Below() == old(View())
      ensures cacheCoins == map[] && cachedCoinsUsage == 0 && hashBlock == old(hashBlock)
      ensures base != null ==> base.Below() == old(base.Below()) && base.hashBlock == old(hashBlock)
      ensures base == null ==> db.bestBlock == old(hashBlock)
    {
      WriteToBase();
      EmptyOverlay(Below());
      cacheCoins := map[];
      cachedCoinsUsage := 0;
    }

    /** HaveCoin: whether the view has an unspent coin there. */
    method HaveCoin(o: OutPoint) returns (have: bool)
      requires Valid()
      modifies Repr
      ensures Valid() && View() == old(View())
      ensures have <==> o in View()
    {
      var found := FetchCoin(o);
      have := found && !cacheCoins[o].coin.IsSpent();
    }

    /** Adds all outputs of a transaction.  With `check` the view is asked about each, so no
        promise is needed; without it, only a coinbase may overwrite. */
    method AddCoins(txid: nat, vout: seq<Coin>, coinBase: bool, check: bool)
      requires Valid()
      requires forall i :: 0 <= i < |vout| ==> !vout[i].IsSpent()
      requires check || coinBase || forall i :: 0 <= i < |vout| ==> OutPoint(txid, i) !in View()
      modifies Repr
      ensures Valid() && View() == WithOutputs(old(View()), txid, vout, |vout|)
    {
      for i := 0 to |vout|
        invariant Valid() && View() == WithOutputs(old(View()), txid, vout, i)
      {
        var o := OutPoint(txid, i);
        OutputsBelow(old(View()), txid, vout, i, i);
        var overwrite := coinBase;
        if check {
          overwrite := HaveCoin(o);
        }
        if o !in View() { AbsentNotCached(cacheCoins, Below(), o); }
        var threw := AddCoin(o, vout[i], overwrite);
        assert !threw;
      }
    }

    /** The upkeep was done at that depth, or at the lowest layer: what was read is cached, what was
        dropped is not unless it was modified, and what was written has left the cache under its block. */
    ghost predicate Tended(level: nat, op: Upkeep)
      requires Stacked()
      reads Repr
      decreases Repr
    {
      if level > 0 && base != null then base.Tended(level - 1, op) else
        match op
        case Read(o) => o in View() ==> o in cacheCoins
        case Drop(o) => o in cacheCoins ==> cacheCoins[o].isDirty || cacheCoins[o].isFresh
        case Write(block) =>
          && cacheCoins == map[] && hashBlock == block
          && if base == null then db.bestBlock == block else base.Stacked() && base.hashBlock == block
    }

    /** Fetching, uncaching or flushing at any depth of the stack: the top view never changes. */
    method Maintain(level: nat, op: Upkeep)
      requires Valid() && (op.Write? ==> op.block != 0)
      modifies Repr
      ensures Valid() && View() == old(View()) && Tended(level, op)
      decreases Repr
    {
      if level > 0 && base != null {
        base.Maintain(level - 1, op);
      } else {
        match op
        case Read(o) =>
          var _ := FetchCoin(o);
        case Drop(o) =>
          Uncache(o);
        case Write(block) =>
          hashBlock := block;
          assert base != null ==> base.Stacked() && base in Repr;
          Flush();
      }
    }

    /** Runs a sequence of operations on the top of the stack, with upkeep at any depth between
        them: the view is the flat map under the same additions and removals. */
    method Run(ops: seq<Op>)
      requires Valid() && Honest(ops, View())
      modifies Repr
      ensures Valid() && View() == FlatRun(ops, old(View()))
      ensures |ops| > 0 && ops[|ops| - 1].Keep? ==> Tended(ops[|ops| - 1].level, ops[|ops| - 1].op)
    {
      for i := 0 to |ops|
        invariant Valid() && Honest(ops[i..], View())
        invariant FlatRun(ops[i..], View()) == FlatRun(ops, old(View()))
        invariant i > 0 && ops[i - 1].Keep? ==> Tended(ops[i - 1].level, ops[i - 1].op)
      {
        assert ops[i..][0] == ops[i] && ops[i..][1..] == ops[i + 1..];
        match ops[i]
        case Add(o, coin, possibleOverwrite) =>
          if o !in View() { AbsentNotCached(cacheCoins, Below(), o); }
          var threw := AddCoin(o, coin, possibleOverwrite);
          assert !threw;
        case Spend(o) =>
          var _, _ := SpendCoin(o);
        case Keep(level, op) =>
          Maintain(level, op);
      }
    }
  }

  /** A view with the first k outputs of a transaction added, the unspendable ones left out. */
  ghost function WithOutputs(view: FlatView, txid: nat, vout: seq<Coin>, k: nat): FlatView
    requires k <= |vout|
  {
    if k == 0 then view
    else if vout[k - 1].IsUnspendable() then WithOutputs(view, txid, vout, k - 1)
    else WithOutputs(view, txid, vout, k - 1)[OutPoint(txid, k - 1) := vout[k - 1]]
  }

  lemma {:induction false} OutputsBelow(view: FlatView, txid: nat, vout: seq<Coin>, k: nat, i: nat)
    requires k <= i < |vout|
    ensures OutPoint(txid, i) in WithOutputs(view, txid, vout, k) <==> OutPoint(txid, i) in view
  {
    if k == 0 {
    } else {
      OutputsBelow(view, txid, vout, k - 1, i);
    }
  }

  datatype Upkeep = Read(o: OutPoint) | Drop(o: OutPoint) | Write(block: nat)
  datatype Op =
    | Add(o: OutPoint, coin: Coin, possibleOverwrite: bool)
    | Spend(o: OutPoint)
    | Keep(level: nat, op: Upkeep)

  /** The operations on a plain map of unspent coins. */
  ghost function FlatStep(op: Op, view: FlatView): FlatView {
    match op
    case Add(o, coin, _) => if coin.IsUnspendable() then view else view[o := coin]
    case Spend(o) => view - {o}
    case Keep(_, _) => view
  }

  ghost function FlatRun(ops: seq<Op>, view: FlatView): FlatView {
    if ops == [] then view else FlatRun(ops[1..], FlatStep(ops[0], view))
  }

  /** What the callers promise: only unspent coins are added, and without the overwrite flag only
      where the view has none; a flush names its block. */
  ghost predicate Honest(ops: seq<Op>, view: FlatView) {
    if ops == [] then true else
      && (match ops[0]
          case Add(o, coin, possibleOverwrite) => !coin.IsSpent() && (possibleOverwrite || o !in view)
          case Spend(_) => true
          case Keep(_, op) => op.Write? ==> op.block != 0)
      && Honest(ops[1..], FlatStep(ops[0], view))
  }

  lemma AbsentNotCached(cache: CoinsMap, below: FlatView, o: OutPoint)
    requires o !in Overlay(cache, below)
    ensures o in cache ==> cache[o].coin.IsSpent()
  {
  }

  /** Why the promise matters: a coin added as new over one the cache had not loaded is marked
      FRESH, and spending it brings the old coin back into view. */
  lemma BrokenPromise(o: OutPoint, hidden: Coin, added: Coin)
    requires !hidden.IsSpent() && !added.IsSpent()
    ensures var below := map[o := hidden];
      var cache := map[o := AddedEntry(map[], o, added, false)];
      && !LayerOk(cache, below)
      && Overlay(cache, below)[o] == added
      && o in Overlay(SpentCache(cache, o), below) && Overlay(SpentCache(cache, o), below)[o] == hidden
  {
    var below := map[o := hidden];
    var cache := map[o := AddedEntry(map[], o, added, false)];
    assert !EntryOk(o, cache[o], below);
    assert o !in SpentCache(cache, o);
  }
}
