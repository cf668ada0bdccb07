/** Compact block relay (BIP 152), as in src/blockencodings.cpp: slots, short ids and what they are
    matched with. */
module CompactSlots {

  datatype Option<T> = None | Some(value: T)

  /** A transaction: its two hashes, and whether it is the empty one. */
  datatype Tx = Tx(txid: nat, wtxid: nat, isNull: bool)

  datatype Prefilled = Prefilled(index: nat, tx: Tx)

  /** A list of transactions with the hash each is known by. */
  datatype Entry = Entry(hash: nat, tx: Tx)

  // ---------- prefilled slots ----------

  /** The slot of prefilled transaction n - 1; -1 before the first.  Indexes are differences. */
  function LastIndex(pre: seq<Prefilled>, n: nat): int
    requires n <= |pre|
  {
    if n == 0 then -1 else LastIndex(pre, n - 1) + pre[n - 1].index + 1
  }

  lemma {:induction false} LastIndexGrows(pre: seq<Prefilled>, m: nat, n: nat)
    requires m < n <= |pre|
    ensures LastIndex(pre, m) < LastIndex(pre, n)
  {
    if m == n - 1 {
    } else {
      LastIndexGrows(pre, m, n - 1);
    }
  }

  /** Whether transaction i may be put where it says. */
  ghost predicate EntryOk(pre: seq<Prefilled>, short: nat, i: nat)
    requires i < |pre|
  {
    !pre[i].tx.isNull && LastIndex(pre, i + 1) <= 0xFFFF && LastIndex(pre, i + 1) <= short + i
  }

  ghost predicate InSlot(avail: seq<Option<Tx>>, pre: seq<Prefilled>, i: nat)
    requires i < |pre|
  {
    var s := LastIndex(pre, i + 1);
    0 <= s < |avail| && avail[s] == Some(pre[i].tx)
  }

  /** The first n are in their slots, and nothing else is anywhere. */
  ghost predicate Placed(avail: seq<Option<Tx>>, pre: seq<Prefilled>, n: nat)
    requires n <= |pre|
  {
    && (forall i :: 0 <= i < n ==> InSlot(avail, pre, i))
    && (forall s :: 0 <= s < |avail| && LastIndex(pre, n) < s ==> avail[s].None?)
    && |FreeUpTo(avail, |avail|)| == |avail| - n
  }

  /** The empty slots below k, in order. */
  function FreeUpTo(avail: seq<Option<Tx>>, k: nat): (f: seq<nat>)
    requires k <= |avail|
    ensures forall i :: 0 <= i < |f| ==> f[i] < k && avail[f[i]].None?
    ensures forall i, j :: 0 <= i < j < |f| ==> f[i] < f[j]
  {
    if k == 0 then []
    else FreeUpTo(avail, k - 1) + if avail[k - 1].None? then [k - 1] else []
  }

  function FreeSlots(avail: seq<Option<Tx>>): seq<nat> {
    FreeUpTo(avail, |avail|)
  }

  lemma {:induction false} FreeComplete(avail: seq<Option<Tx>>, k: nat, s: nat)
    requires s < k <= |avail| && avail[s].None?
    ensures s in FreeUpTo(avail, k)
  {
    if s == k - 1 {
    } else {
      FreeComplete(avail, k - 1, s);
    }
  }

  lemma {:induction false} FreeAll(avail: seq<Option<Tx>>, k: nat)
    requires k <= |avail| && forall s :: 0 <= s < k ==> avail[s].None?
    ensures |FreeUpTo(avail, k)| == k
  {
    if k == 0 {
    } else {
      FreeAll(avail, k - 1);
    }
  }

  /** Filling one empty slot takes one from the count. */
  lemma {:induction false} FreeFilled(avail: seq<Option<Tx>>, s: nat, tx: Tx, k: nat)
    requires s < |avail| && k <= |avail| && avail[s].None?
    ensures |FreeUpTo(avail[s := Some(tx)], k)| == |FreeUpTo(avail, k)| - if s < k then 1 else 0
  {
    if k == 0 {
    } else {
      FreeFilled(avail, s, tx, k - 1);
    }
  }

  lemma PlacedNone(avail: seq<Option<Tx>>, pre: seq<Prefilled>)
    requires forall s :: 0 <= s < |avail| ==> avail[s].None?
    ensures Placed(avail, pre, 0)
  {
    FreeAll(avail, |avail|);
  }

  lemma PlaceNext(avail: seq<Option<Tx>>, pre: seq<Prefilled>, n: nat)
    requires n < |pre| && Placed(avail, pre, n) && 0 <= LastIndex(pre, n + 1) < |avail|
    requires LastIndex(pre, n) < LastIndex(pre, n + 1)
    ensures Placed(avail[LastIndex(pre, n + 1) := Some(pre[n].tx)], pre, n + 1)
  {
    var s := LastIndex(pre, n + 1);
    var next := avail[s := Some(pre[n].tx)];
    FreeFilled(avail, s, pre[n].tx, |avail|);
    forall i | 0 <= i < n + 1 ensures InSlot(next, pre, i) {
      if i < n {
        assert InSlot(avail, pre, i);
        LastIndexGrows(pre, i + 1, n + 1);
      }
    }
  }

  lemma {:induction false} LastIndexLow(pre: seq<Prefilled>, n: nat)
    requires n <= |pre| && forall i :: 0 <= i < |pre| ==> pre[i].index >= 0
    ensures LastIndex(pre, n) >= n - 1
  {
    if n == 0 {
    } else {
      LastIndexLow(pre, n - 1);
    }
  }

  // ---------- matching short ids ----------

  type ShortId = nat -> nat

  /** What is known of a short id: no transaction had it, one had, or several did. */
  datatype Match = Unseen | One(tx: Tx) | Many

  function SeePool(m: Match, tx: Tx): Match {
    if m.Unseen? then One(tx) else Many
  }

  /** The same transaction again does not count against it. */
  function SeeExtra(m: Match, tx: Tx): Match {
    match m
    case Unseen => One(tx)
    case One(t) => if t.wtxid == tx.wtxid then m else Many
    case Many => Many
  }

  /** What the first n entries say of the transaction whose short id is one of these. */
  function PoolMatch(S: ShortId, pool: seq<Entry>, n: nat, ids: set<nat>): Match
    requires n <= |pool|
  {
    if n == 0 then Unseen
    else
      var m := PoolMatch(S, pool, n - 1, ids);
      if S(pool[n - 1].hash) in ids then SeePool(m, pool[n - 1].tx) else m
  }

  function ExtraMatch(S: ShortId, start: Match, extra: seq<Entry>, n: nat, ids: set<nat>): Match
    requires n <= |extra|
  {
    if n == 0 then start
    else
      var m := ExtraMatch(S, start, extra, n - 1, ids);
      if S(extra[n - 1].hash) in ids then SeeExtra(m, extra[n - 1].tx) else m
  }

  /** No entry has such a short id; entry i does, and is the first; it does, and is the only one. */
  ghost predicate NoHit(S: ShortId, list: seq<Entry>, n: nat, ids: set<nat>)
    requires n <= |list|
  {
    forall i :: 0 <= i < n ==> S(list[i].hash) !in ids
  }

  ghost predicate FirstHit(S: ShortId, list: seq<Entry>, n: nat, ids: set<nat>, i: nat)
    requires n <= |list|
  {
    i < n && S(list[i].hash) in ids && NoHit(S, list, i, ids)
  }

  ghost predicate OnlyHit(S: ShortId, list: seq<Entry>, n: nat, ids: set<nat>, i: nat)
    requires n <= |list|
  {
    i < n && S(list[i].hash) in ids && forall j :: 0 <= j < n && S(list[j].hash) in ids ==> j == i
  }

  /** All entries that have such a short id are the transaction with this hash. */
  ghost predicate HitsAre(S: ShortId, list: seq<Entry>, n: nat, ids: set<nat>, wtxid: nat)
    requires n <= |list|
  {
    forall i :: 0 <= i < n && S(list[i].hash) in ids ==> list[i].tx.wtxid == wtxid
  }

  /** In the mempool nothing is found if and only if no entry matches, one transaction if and only if
      exactly one entry does; two entries that match are of no use, whatever they are. */
  lemma {:induction false} PoolMatchIs(S: ShortId, pool: seq<Entry>, n: nat, ids: set<nat>)
    requires n <= |pool|
    ensures PoolMatch(S, pool, n, ids).Unseen? <==> NoHit(S, pool, n, ids)
    ensures PoolMatch(S, pool, n, ids).One? <==> exists i: nat :: OnlyHit(S, pool, n, ids, i)
    ensures forall i: nat :: OnlyHit(S, pool, n, ids, i) ==> PoolMatch(S, pool, n, ids) == One(pool[i].tx)
  {
    if n == 0 {
    } else {
      PoolMatchIs(S, pool, n - 1, ids);
      if S(pool[n - 1].hash) !in ids {
        assert forall i: nat :: OnlyHit(S, pool, n, ids, i) <==> OnlyHit(S, pool, n - 1, ids, i);
        if PoolMatch(S, pool, n, ids).One? {
          var i: nat :| OnlyHit(S, pool, n - 1, ids, i);
          assert OnlyHit(S, pool, n, ids, i);
        }
      } else if NoHit(S, pool, n - 1, ids) {
        assert OnlyHit(S, pool, n, ids, n - 1);
      } else {
        var k :| 0 <= k < n - 1 && S(pool[k].hash) in ids;
        assert forall i: nat :: !OnlyHit(S, pool, n, ids, i);
      }
    }
  }

  /** An extra list keeps what is known while all that matches is that transaction; of nothing known it
      makes the first match, if all that matches is that; two that differ are of no use. */
  lemma ExtraMatchIs(S: ShortId, start: Match, extra: seq<Entry>, n: nat, ids: set<nat>)
    requires n <= |extra|
    ensures NoHit(S, extra, n, ids) ==> ExtraMatch(S, start, extra, n, ids) == start
    ensures start.Many? ==> ExtraMatch(S, start, extra, n, ids) == Many
    ensures start.One? ==>
      ExtraMatch(S, start, extra, n, ids) == if HitsAre(S, extra, n, ids, start.tx.wtxid) then start else Many
    ensures start.Unseen? ==> forall i: nat :: FirstHit(S, extra, n, ids, i) ==>
      ExtraMatch(S, start, extra, n, ids) ==
      if HitsAre(S, extra, n, ids, extra[i].tx.wtxid) then One(extra[i].tx) else Many
    ensures NoHit(S, extra, n, ids) || exists i: nat :: FirstHit(S, extra, n, ids, i)
  {
    ExtraKeeps(S, start, extra, n, ids);
    HasFirst(S, extra, n, ids);
    if start.Unseen? {
      forall i: nat | FirstHit(S, extra, n, ids, i)
        ensures ExtraMatch(S, start, extra, n, ids) ==
          if HitsAre(S, extra, n, ids, extra[i].tx.wtxid) then One(extra[i].tx) else Many
      {
        ExtraStarts(S, start, extra, n, ids, i);
      }
    }
  }

  lemma {:induction false} ExtraKeeps(S: ShortId, start: Match, extra: seq<Entry>, n: nat, ids: set<nat>)
    requires n <= |extra|
    ensures NoHit(S, extra, n, ids) ==> ExtraMatch(S, start, extra, n, ids) == start
    ensures start.Many? ==> ExtraMatch(S, start, extra, n, ids) == Many
    ensures start.One? ==>
      ExtraMatch(S, start, extra, n, ids) == if HitsAre(S, extra, n, ids, start.tx.wtxid) then start else Many
  {
    if n == 0 {
    } else {
      ExtraKeeps(S, start, extra, n - 1, ids);
    }
  }

  lemma {:induction false} ExtraStarts(S: ShortId, start: Match, extra: seq<Entry>, n: nat, ids: set<nat>, i: nat)
    requires n <= |extra| && start.Unseen? && FirstHit(S, extra, n, ids, i)
    ensures ExtraMatch(S, start, extra, n, ids) ==
      if HitsAre(S, extra, n, ids, extra[i].tx.wtxid) then One(extra[i].tx) else Many
  {
    if n == i + 1 {
      ExtraKeeps(S, start, extra, i, ids);
    } else {
      ExtraStarts(S, start, extra, n - 1, ids, i);
    }
  }

  lemma {:induction false} HasFirst(S: ShortId, list: seq<Entry>, n: nat, ids: set<nat>)
    requires n <= |list|
    ensures NoHit(S, list, n, ids) || exists i: nat :: FirstHit(S, list, n, ids, i)
  {
    if n == 0 {
    } else {
      HasFirst(S, list, n - 1, ids);
      if NoHit(S, list, n - 1, ids) {
        assert S(list[n - 1].hash) in ids ==> FirstHit(S, list, n, ids, n - 1);
      } else {
        var i: nat :| FirstHit(S, list, n - 1, ids, i);
        assert FirstHit(S, list, n, ids, i);
      }
    }
  }
}

module CompactBlocks {
  import opened CompactSlots

  const MAX_BLOCK_WEIGHT: nat := 64000000
  const MIN_SERIALIZABLE_TRANSACTION_WEIGHT: nat := 40

  datatype Status = Ok | Invalid | Failed | CheckBlockFailed

  datatype Compact = Compact(headerNull: bool, short: seq<nat>, pre: seq<Prefilled>)

  ghost predicate Increasing(slots: seq<nat>) {
    forall i, j :: 0 <= i < j < |slots| ==> slots[i] < slots[j]
  }

  ghost predicate Distinct(ids: seq<nat>) {
    forall i, j :: 0 <= i < j < |ids| ==> ids[i] != ids[j]
  }

  /** The table from short ids to slots. */
  ghost predicate Table(m: map<nat, nat>, ids: seq<nat>, slots: seq<nat>) {
    && |ids| == |slots|
    && (forall i :: 0 <= i < |ids| ==> ids[i] in m && m[ids[i]] == slots[i])
    && (forall id :: id in m ==> id in ids)
    && Distinct(ids)
  }

  // ---------- the state of a scan ----------

  function Shown(a: Option<Tx>, have: bool): Match {
    if !have then Unseen else match a case Some(tx) => One(tx) case None => Many
  }

  /** What the slots and flags say is ms; a slot that nothing was matched with is as in base. */
  ghost predicate Held(base: seq<Option<Tx>>, avail: seq<Option<Tx>>, have: seq<bool>, ms: seq<Match>) {
    && |avail| == |have| == |base| == |ms|
    && forall s :: 0 <= s < |ms| ==> Shown(avail[s], have[s]) == ms[s] && (ms[s].Unseen? ==> avail[s] == base[s])
  }

  function Ones(ms: seq<Match>): nat {
    if ms == [] then 0 else Ones(ms[..|ms| - 1]) + if ms[|ms| - 1].One? then 1 else 0
  }

  lemma {:induction false} OnesUpdate(ms: seq<Match>, i: nat, m: Match)
    requires i < |ms|
    ensures Ones(ms[i := m]) == Ones(ms) - (if ms[i].One? then 1 else 0) + (if m.One? then 1 else 0)
  {
    if i < |ms| - 1 {
      assert ms[i := m][..|ms| - 1] == ms[..|ms| - 1][i := m];
      OnesUpdate(ms[..|ms| - 1], i, m);
    } else {
      assert ms[i := m][..i] == ms[..i];
    }
  }

  lemma {:induction false} OnesNone(ms: seq<Match>)
    requires forall i :: 0 <= i < |ms| ==> ms[i].Unseen?
    ensures Ones(ms) == 0
  {
    if ms == [] {
    } else {
      OnesNone(ms[..|ms| - 1]);
    }
  }

  lemma HeldSet(base: seq<Option<Tx>>, avail: seq<Option<Tx>>, have: seq<bool>, ms: seq<Match>, s: nat, a: Option<Tx>)
    requires Held(base, avail, have, ms) && s < |ms|
    ensures s < |avail| == |have| && Held(base, avail[s := a], have[s := true], ms[s := Shown(a, true)])
  {
  }

  /** The short ids of slot s: one, none or, with slot numbers cut to 16 bits, several. */
  function IdsOf(table: map<nat, nat>, s: nat): set<nat> {
    set id | id in table && table[id] == s
  }

  /** What every slot is found to stand for after n entries of the mempool. */
  ghost function PoolMatches(S: ShortId, pool: seq<Entry>, n: nat, table: map<nat, nat>, size: nat): (ms: seq<Match>)
    requires n <= |pool|
    ensures |ms| == size
  {
    seq(size, s requires 0 <= s < size => PoolMatch(S, pool, n, IdsOf(table, s)))
  }

  ghost function ExtraMatches(S: ShortId, start: seq<Match>, extra: seq<Entry>, n: nat,
                              table: map<nat, nat>): (ms: seq<Match>)
    requires n <= |extra|
    ensures |ms| == |start|
  {
    seq(|start|, s requires 0 <= s < |start| => ExtraMatch(S, start[s], extra, n, IdsOf(table, s)))
  }

  /** One more entry changes the slot of its own short id, if that is in the block, and no other. */
  lemma PoolStep(S: ShortId, pool: seq<Entry>, n: nat, table: map<nat, nat>, size: nat)
    requires n < |pool|
    ensures var id := S(pool[n].hash);
      var ms, next := PoolMatches(S, pool, n, table, size), PoolMatches(S, pool, n + 1, table, size);
      && (id !in table ==> next == ms)
      && (id in table && table[id] < size ==> next == ms[table[id] := SeePool(ms[table[id]], pool[n].tx)])
  {
  }

  lemma ExtraStep(S: ShortId, start: seq<Match>, extra: seq<Entry>, n: nat, table: map<nat, nat>)
    requires n < |extra|
    ensures var id := S(extra[n].hash);
      var ms, next := ExtraMatches(S, start, extra, n, table), ExtraMatches(S, start, extra, n + 1, table);
      && (id !in table ==> next == ms)
      && (id in table && table[id] < |start| ==> next == ms[table[id] := SeeExtra(ms[table[id]], extra[n].tx)])
  {
  }

  ghost predicate InRange(table: map<nat, nat>, size: nat) {
    forall id :: id in table ==> table[id] < size
  }

  /** A 64-bit counter has changed by d. */
  predicate Follows(count: int, was: int, d: int) {
    (count - was - d) % 0x1_0000_0000_0000_0000 == 0
  }

  /** Some short id falls into an overfull bucket, given the ids before it. */
  ghost predicate Crowds(ids: seq<nat>, crowded: (seq<nat>, nat) -> bool) {
    exists i :: 0 <= i < |ids| && crowded(ids[..i], ids[i])
  }

  class PartiallyDownloadedBlock {
    var headerNull: bool
    var avail: seq<Option<Tx>>
    var prefilledCount: nat
    var mempoolCount: int
    var extraCount: int

    constructor ()
      ensures headerNull && avail == [] && prefilledCount == 0 && mempoolCount == 0 && extraCount == 0
    {
      headerNull, avail, prefilledCount, mempoolCount, extraCount := true, [], 0, 0, 0;
    }

    /** One entry of the mempool. */
    method MatchPool(e: Entry, S: ShortId, table: map<nat, nat>, have0: seq<bool>,
                     ghost base: seq<Option<Tx>>, ghost pool: seq<Entry>, ghost n: nat) returns (have: seq<bool>)
      requires InRange(table, |base|) && n < |pool| && pool[n] == e
      requires Held(base, avail, have0, PoolMatches(S, pool, n, table, |base|))
      requires mempoolCount == Ones(PoolMatches(S, pool, n, table, |base|))
      modifies this`avail, this`mempoolCount
      ensures Held(base, avail, have, PoolMatches(S, pool, n + 1, table, |base|))
      ensures mempoolCount == Ones(PoolMatches(S, pool, n + 1, table, |base|))
    {
      hide Held, PoolMatches, Ones, Shown;
      have := have0;
      var id := S(e.hash);
      PoolStep(S, pool, n, table, |base|);
      if id in table {
        ghost var ms := PoolMatches(S, pool, n, table, |base|);
        var slot := table[id];
        AtSlot(base, avail, have, ms, slot);
        if !have[slot] {
          HeldSet(base, avail, have, ms, slot, Some(e.tx));
          OnesUpdate(ms, slot, One(e.tx));
          ShownSome(e.tx);
          avail := avail[slot := Some(e.tx)];
          have := have[slot := true];
          mempoolCount := mempoolCount + 1;
        } else {
          HeldSet(base, avail, have, ms, slot, None);
          OnesUpdate(ms, slot, Many);
          ShownSome(e.tx);
          SameFlag(have, slot);
          if avail[slot].Some? {
            avail := avail[slot := None];
            mempoolCount := mempoolCount - 1;
          } else {
            SameSlot(avail, slot);
          }
        }
      }
    }

    /** One entry of the extra transactions. */
    method MatchExtra(e: Entry, S: ShortId, table: map<nat, nat>, have0: seq<bool>,
                      ghost base: seq<Option<Tx>>, ghost start: seq<Match>, ghost extra: seq<Entry>, ghost n: nat)
      returns (have: seq<bool>)
      requires InRange(table, |base|) && n < |extra| && extra[n] == e && |start| == |base|
      requires Held(base, avail, have0, ExtraMatches(S, start, extra, n, table))
      requires mempoolCount == Ones(ExtraMatches(S, start, extra, n, table))
      modifies this`avail, this`mempoolCount, this`extraCount
      ensures Held(base, avail, have, ExtraMatches(S, start, extra, n + 1, table))
      ensures mempoolCount == Ones(ExtraMatches(S, start, extra, n + 1, table))
      ensures Follows(extraCount, old(extraCount), mempoolCount - old(mempoolCount))
    {
      hide Held, ExtraMatches, Ones, Shown;
      have := have0;
      var id := S(e.hash);
      ExtraStep(S, start, extra, n, table);
      if id in table {
        ghost var ms := ExtraMatches(S, start, extra, n, table);
        var slot := table[id];
        AtSlot(base, avail, have, ms, slot);
        ShownSome(e.tx);
        if !have[slot] {
          HeldSet(base, avail, have, ms, slot, Some(e.tx));
          OnesUpdate(ms, slot, One(e.tx));
          avail := avail[slot := Some(e.tx)];
          have := have[slot := true];
          mempoolCount := mempoolCount + 1;
          extraCount := (extraCount + 1) % 0x1_0000_0000_0000_0000;
        } else {
          SameFlag(have, slot);
          if avail[slot].Some? && avail[slot].value.wtxid != e.tx.wtxid {
            HeldSet(base, avail, have, ms, slot, None);
            OnesUpdate(ms, slot, Many);
            avail := avail[slot := None];
            mempoolCount := mempoolCount - 1;
            extraCount := (extraCount - 1) % 0x1_0000_0000_0000_0000;
          } else {
            SameMatch(ms, slot, ms[slot]);
          }
        }
      }
    }

    /** The mempool in order, until every short id has its transaction. */
    method ScanPool(pool: seq<Entry>, S: ShortId, table: map<nat, nat>, have0: seq<bool>, ghost base: seq<Option<Tx>>)
      returns (have: seq<bool>, ghost seen: nat)
      requires InRange(table, |base|)
      requires Held(base, avail, have0, PoolMatches(S, pool, 0, table, |base|))
      requires mempoolCount == Ones(PoolMatches(S, pool, 0, table, |base|))
      modifies this`avail, this`mempoolCount
      ensures seen <= |pool| && Held(base, avail, have, PoolMatches(S, pool, seen, table, |base|))
      ensures mempoolCount == Ones(PoolMatches(S, pool, seen, table, |base|))
      ensures seen < |pool| ==> mempoolCount == |table|
      ensures forall n :: 0 < n < seen ==> Ones(PoolMatches(S, pool, n, table, |base|)) != |table|
    {
      hide Held, PoolMatches, Ones, InRange;
      have := have0;
      var i := 0;
      while i < |pool|
        invariant 0 <= i <= |pool| && Held(base, avail, have, PoolMatches(S, pool, i, table, |base|))
        invariant mempoolCount == Ones(PoolMatches(S, pool, i, table, |base|))
        invariant forall n :: 0 < n <= i ==> Ones(PoolMatches(S, pool, n, table, |base|)) != |table|
      {
        have := MatchPool(pool[i], S, table, have, base, pool, i);
        i := i + 1;
        if mempoolCount == |table| {
          break;
        }
      }
      seen := i;
    }

    method ScanExtra(extra: seq<Entry>, S: ShortId, table: map<nat, nat>, have0: seq<bool>,
                     ghost base: seq<Option<Tx>>, ghost start: seq<Match>)
      returns (ghost seen: nat)
      requires InRange(table, |base|) && |start| == |base|
      requires Held(base, avail, have0, start) && mempoolCount == Ones(start)
      modifies this`avail, this`mempoolCount, this`extraCount
      ensures seen <= |extra| && mempoolCount == Ones(ExtraMatches(S, start, extra, seen, table))
      ensures exists have :: Held(base, avail, have, ExtraMatches(S, start, extra, seen, table))
      ensures seen < |extra| ==> mempoolCount == |table|
      ensures forall n :: 0 < n < seen ==> Ones(ExtraMatches(S, start, extra, n, table)) != |table|
      ensures Follows(extraCount, old(extraCount), mempoolCount - old(mempoolCount))
    {
      hide Held, Ones, ExtraMatch, InRange;
      var have := have0;
      NoExtra(S, start, extra, table);
      var i := 0;
      while i < |extra|
        invariant 0 <= i <= |extra| && Held(base, avail, have, ExtraMatches(S, start, extra, i, table))
        invariant mempoolCount == Ones(ExtraMatches(S, start, extra, i, table))
        invariant forall n :: 0 < n <= i ==> Ones(ExtraMatches(S, start, extra, n, table)) != |table|
        invariant Follows(extraCount, old(extraCount), mempoolCount - old(mempoolCount))
      {
        have := MatchExtra(extra[i], S, table, have, base, start, extra, i);
        i := i + 1;
        if mempoolCount == |table| {
          break;
        }
      }
      seen := i;
    }

    /** The prefilled transactions go where their differential indexes say. */
    method Prefill(c: Compact) returns (ok: bool)
      requires forall s :: 0 <= s < |avail| ==> avail[s].None?
      requires |avail| == |c.short| + |c.pre| && forall i :: 0 <= i < |c.pre| ==> 0 <= c.pre[i].index <= 0xFFFF
      modifies this`avail
      ensures |avail| == old(|avail|)
      ensures ok <==> forall i :: 0 <= i < |c.pre| ==> EntryOk(c.pre, |c.short|, i)
      ensures ok ==> Placed(avail, c.pre, |c.pre|)
    {
      hide Placed, EntryOk;
      var last := -1;
      var i := 0;
      PlacedNone(avail, c.pre);
      while i < |c.pre|
        invariant 0 <= i <= |c.pre| && |avail| == |c.short| + |c.pre| && last == LastIndex(c.pre, i)
        invariant forall j :: 0 <= j < i ==> EntryOk(c.pre, |c.short|, j)
        invariant Placed(avail, c.pre, i)
      {
        EntryOkIs(c.pre, |c.short|, i);
        if c.pre[i].tx.isNull {
          return false;
        }
        last := last + c.pre[i].index + 1;
        LastIndexLow(c.pre, i + 1);
        if last > 0xFFFF {
          return false;
        }
        if last > |c.short| + i {
          return false;
        }
        PlaceNext(avail, c.pre, i);
        avail := avail[last := Some(c.pre[i].tx)];
        i := i + 1;
      }
      ok := true;
    }

    /** Each short id gets the number of the next empty slot, in 16 bits; too many in one bucket of the
        table, or two that are equal, give up. */
    method BuildTable(ids: seq<nat>, crowded: (seq<nat>, nat) -> bool) returns (ok: bool, table: map<nat, nat>)
      requires |FreeSlots(avail)| == |ids| && (ids == [] || |avail| - |ids| < 0x1_0000)
      ensures ok ==> Table(table, ids, Narrowed(FreeSlots(avail))) && |table| == |ids|
      ensures ok <==> Distinct(ids) && !Crowds(ids, crowded)
    {
      hide FreeUpTo, Distinct, PartTable, FreeSlots, Table;
      table := map[];
      var offset := 0;
      var i := 0;
      FreeStart(avail);
      TableNone();
      ghost var slots := FreeSlots(avail);
      while i < |ids|
        invariant 0 <= i <= |ids| && 0 <= offset && i + offset <= |avail|
        invariant FreeUpTo(avail, i + offset) == slots[..i]
        invariant PartTable(table, ids[..i], Narrowed(slots)[..i])
        invariant forall j :: 0 <= j < i ==> !crowded(ids[..j], ids[j])
      {
        offset := SkipFilled(i, offset, ids);
        PartTableMore(table, ids, Narrowed(slots), i);
        table := table[ids[i] := (i + offset) % 0x1_0000];
        if crowded(ids[..i], ids[i]) {
          return false, table;
        }
        i := i + 1;
      }
      assert ids[..i] == ids && Narrowed(slots)[..i] == Narrowed(slots);
      ok := |table| == |ids|;
      TableWhole(table, ids, Narrowed(slots));
    }

    /** Skips the slots that are taken; there is an empty one for every short id, and with less than
        65536 taken ones the 16-bit offset reaches it. */
    method SkipFilled(i: nat, offset0: nat, ghost ids: seq<nat>) returns (offset: nat)
      requires |FreeSlots(avail)| == |ids| && i < |ids| && |avail| - |ids| < 0x1_0000 && i + offset0 <= |avail|
      requires FreeUpTo(avail, i + offset0) == FreeSlots(avail)[..i]
      ensures i + offset < |avail| && FreeSlots(avail)[i] == i + offset
      ensures FreeUpTo(avail, i + 1 + offset) == FreeSlots(avail)[..i + 1]
    {
      hide FreeUpTo;
      offset := offset0;
      FreeRoom(avail, i, i + offset);
      while avail[i + offset].Some?
        invariant i + offset < |avail| && FreeUpTo(avail, i + offset) == FreeSlots(avail)[..i]
        decreases |avail| - offset
      {
        FreeNext(avail, i, i + offset);
        TakenBelow(avail, i + offset + 1);
        offset := (offset + 1) % 0x1_0000;
        FreeRoom(avail, i, i + offset);
      }
      FreeNext(avail, i, i + offset);
    }

    /** A compact block is put into slots and matched.  Invalid exactly for a malformed message;
        otherwise, unless short ids collide or crowd, every slot is described.  With 65536 prefilled
        transactions and a short id the search for an empty slot does not end. */
    method InitData(c: Compact, pool: seq<Entry>, extra: seq<Entry>, S: ShortId, crowded: (seq<nat>, nat) -> bool)
      returns (status: Status, ghost base: seq<Option<Tx>>, ghost table: map<nat, nat>, ghost np: nat, ghost ne: nat)
      requires headerNull && avail == [] && mempoolCount == 0
      requires forall i :: 0 <= i < |c.pre| ==> 0 <= c.pre[i].index <= 0xFFFF
      requires WellFormed(c) ==> |c.pre| < 0x1_0000 || c.short == []
      modifies this
      ensures status == Invalid <==> !WellFormed(c)
      ensures status == Ok || status == Invalid || status == Failed
      ensures status == Failed <==> WellFormed(c) && (!Distinct(c.short) || Crowds(c.short, crowded))
      ensures status == Ok ==> !headerNull && Matched(c, pool, extra, S, avail, mempoolCount, base, table, np, ne)
      ensures status == Ok ==> prefilledCount == |c.pre|
      ensures status == Ok ==> var found := Ones(PoolMatches(S, pool, np, table, |base|));
        Follows(extraCount, old(extraCount), mempoolCount - found)
      ensures status == Ok && |c.short| + |c.pre| <= 0x1_0000 ==>
        Initialised(c, pool, extra, S, avail, mempoolCount, base, np, ne)
    {
      hide WellFormed, Held, Table, Placed, PoolMatches, ExtraMatches, Ones, EntryOk, Distinct, FreeUpTo, InRange;
      hide Initialised;
      base, table, np, ne := [], map[], 0, 0;
      WellFormedIs(c);
      if c.headerNull || (|c.short| == 0 && |c.pre| == 0) {
        return Invalid, base, table, np, ne;
      }
      if |c.short| + |c.pre| > MAX_BLOCK_WEIGHT / MIN_SERIALIZABLE_TRANSACTION_WEIGHT {
        return Invalid, base, table, np, ne;
      }
      headerNull := false;
      avail := seq(|c.short| + |c.pre|, _ => None);
      var ok := Prefill(c);
      if !ok {
        return Invalid, base, table, np, ne;
      }
      prefilledCount := |c.pre|;
      base := avail;
      FreeForShort(c, avail);
      var shorttxids;
      ok, shorttxids := BuildTable(c.short, crowded);
      if !ok {
        return Failed, base, table, np, ne;
      }
      table := shorttxids;
      TableInRange(table, c.short, avail);
      var have := seq(|avail|, _ => false);
      NothingSeen(avail, have, S, pool, table);
      have, np := ScanPool(pool, S, shorttxids, have, base);
      ghost var start := PoolMatches(S, pool, np, table, |base|);
      ne := ScanExtra(extra, S, shorttxids, have, base, start);
      HeldShows(base, avail, ExtraMatches(S, start, extra, ne, table));
      if |c.short| + |c.pre| <= 0x1_0000 {
        Describe(c, pool, extra, S, avail, mempoolCount, base, table, np, ne);
      }
      status := Ok;
    }

    predicate IsTxAvailable(index: nat)
      requires index < |avail|
      reads this
    {
      avail[index].Some?
    }

    /** The indexes that are still missing. */
    method Request() returns (indexes: seq<nat>)
      requires |avail| <= 0x1_0000
      ensures indexes == FreeSlots(avail) && Increasing(indexes)
      ensures forall i :: 0 <= i < |indexes| ==> indexes[i] <= 0xFFFF && indexes[i] < |avail|
    {
      indexes := [];
      var i := 0;
      while i < |avail|
        invariant 0 <= i <= |avail| && indexes == FreeUpTo(avail, i)
      {
        if !IsTxAvailable(i) {
          indexes := indexes + [i];
        }
        i := i + 1;
      }
    }

    /** The missing transactions go into the empty slots in order; too few or too many is invalid. */
    method FillBlock(missing: seq<Tx>, check: seq<Tx> -> bool, corrupt: bool) returns (status: Status, vtx: seq<Tx>)
      requires !headerNull
      modifies this
      ensures status == Invalid <==> |missing| != |FreeSlots(old(avail))|
      ensures status != Invalid ==> headerNull && avail == [] && IsFilled(vtx, old(avail), missing)
      ensures |missing| > |FreeSlots(old(avail))| ==> headerNull && avail == []
      ensures |missing| < |FreeSlots(old(avail))| ==>
        !headerNull && EmptiedUpTo(old(avail), avail, FreeSlots(old(avail))[|missing|])
      ensures status != Invalid ==> status == if check(vtx) then Ok else if corrupt then Failed else CheckBlockFailed
    {
      hide FreeUpTo;
      ghost var was := avail;
      vtx := [];
      var offset := 0;
      var i := 0;
      FreeStart(was);
      while i < |avail|
        invariant 0 <= i <= |avail| == |was| && |vtx| == i && !headerNull
        invariant EmptiedUpTo(was, avail, i)
        invariant offset == |FreeUpTo(was, i)| <= |missing|
        invariant forall s :: 0 <= s < i ==> vtx[s] == FilledAt(was, missing, s)
      {
        FreeCount(was, i);
        if avail[i].None? {
          if |missing| <= offset {
            FreePrefix(was, i + 1, |was|);
            FreeLast(was, i);
            return Invalid, vtx;
          }
          vtx := vtx + [missing[offset]];
          offset := offset + 1;
        } else {
          // The transaction is moved out of its slot.
          vtx := vtx + [avail[i].value];
          avail := avail[i := None];
        }
        i := i + 1;
      }
      headerNull := true;
      avail := [];
      if |missing| != offset {
        return Invalid, vtx;
      }
      if !check(vtx) {
        if corrupt {
          return Failed, vtx;
        }
        return CheckBlockFailed, vtx;
      }
      status := Ok;
    }
  }

  lemma DistinctIds(m: map<nat, nat>, ids: seq<nat>, slots: seq<nat>)
    requires Table(m, ids, slots)
    ensures Distinct(ids) && |ids| == |slots|
  {
  }

  lemma AtSlot(base: seq<Option<Tx>>, avail: seq<Option<Tx>>, have: seq<bool>, ms: seq<Match>, s: nat)
    requires Held(base, avail, have, ms) && s < |ms|
    ensures |ms| == |avail| == |have|
    ensures ms[s].Unseen? <==> !have[s]
    ensures ms[s].One? <==> have[s] && avail[s].Some?
    ensures ms[s].One? ==> ms[s].tx == avail[s].value
  {
  }

  lemma HeldShows(base: seq<Option<Tx>>, avail: seq<Option<Tx>>, ms: seq<Match>)
    requires exists have :: Held(base, avail, have, ms)
    ensures |avail| == |base| == |ms|
    ensures forall s :: 0 <= s < |ms| ==> avail[s] == if ms[s].Unseen? then base[s] else Shows(ms[s])
  {
    var have :| Held(base, avail, have, ms);
  }

  lemma ShownSome(tx: Tx)
    ensures Shown(Some(tx), true) == One(tx) && Shown(None, true) == Many
  {
  }

  lemma SameFlag(have: seq<bool>, s: nat)
    requires s < |have| && have[s]
    ensures have[s := true] == have
  {
  }

  lemma SameSlot(avail: seq<Option<Tx>>, s: nat)
    requires s < |avail| && avail[s].None?
    ensures avail[s := None] == avail
  {
  }

  lemma NoExtra(S: ShortId, start: seq<Match>, extra: seq<Entry>, table: map<nat, nat>)
    ensures ExtraMatches(S, start, extra, 0, table) == start
  {
  }

  lemma SameMatch(ms: seq<Match>, i: nat, m: Match)
    requires i < |ms| && ms[i] == m
    ensures ms[i := m] == ms
  {
  }

  lemma EntryOkIs(pre: seq<Prefilled>, short: nat, i: nat)
    requires i < |pre|
    ensures EntryOk(pre, short, i) <==>
      var last := LastIndex(pre, i) + pre[i].index + 1;
      !pre[i].tx.isNull && last <= 0xFFFF && last <= short + i
    ensures LastIndex(pre, i + 1) == LastIndex(pre, i) + pre[i].index + 1
  {
  }

  // ---------- free slots in order ----------

  lemma FreeStart(avail: seq<Option<Tx>>)
    ensures FreeUpTo(avail, 0) == FreeSlots(avail)[..0]
  {
  }

  lemma {:induction false} FreePrefix(avail: seq<Option<Tx>>, j: nat, k: nat)
    requires j <= k <= |avail|
    ensures |FreeUpTo(avail, j)| <= |FreeUpTo(avail, k)|
    ensures FreeUpTo(avail, k)[..|FreeUpTo(avail, j)|] == FreeUpTo(avail, j)
    decreases k
  {
    if j == k {
    } else {
      FreePrefix(avail, j, k - 1);
    }
  }

  lemma FreeRoom(avail: seq<Option<Tx>>, i: nat, pos: nat)
    requires pos <= |avail| && i < |FreeSlots(avail)| && FreeUpTo(avail, pos) == FreeSlots(avail)[..i]
    ensures pos < |avail|
  {
  }

  /** A taken slot adds nothing; an empty one is the next. */
  lemma FreeNext(avail: seq<Option<Tx>>, i: nat, pos: nat)
    requires pos < |avail| && i < |FreeSlots(avail)| && FreeUpTo(avail, pos) == FreeSlots(avail)[..i]
    ensures avail[pos].Some? ==> FreeUpTo(avail, pos + 1) == FreeSlots(avail)[..i]
    ensures avail[pos].None? ==> FreeSlots(avail)[i] == pos && FreeUpTo(avail, pos + 1) == FreeSlots(avail)[..i + 1]
  {
    FreePrefix(avail, pos + 1, |avail|);
    if avail[pos].None? {
      assert FreeUpTo(avail, pos + 1) == FreeUpTo(avail, pos) + [pos];
      assert FreeSlots(avail)[i] == FreeUpTo(avail, pos + 1)[i];
    }
  }

  /** The slots taken below one are no more than all that are taken. */
  lemma {:induction false} TakenBelow(avail: seq<Option<Tx>>, pos: nat)
    requires pos <= |avail|
    ensures pos - |FreeUpTo(avail, pos)| <= |avail| - |FreeSlots(avail)|
    decreases |avail| - pos
  {
    if pos == |avail| {
    } else {
      TakenBelow(avail, pos + 1);
    }
  }

  // ---------- the table ----------

  function Narrow(slot: nat): nat { slot % 0x1_0000 }

  function Narrowed(slots: seq<nat>): (r: seq<nat>)
    ensures |r| == |slots|
  {
    seq<nat>(|slots|, i requires 0 <= i < |slots| => Narrow(slots[i]))
  }

  lemma TableInRange(m: map<nat, nat>, ids: seq<nat>, avail: seq<Option<Tx>>)
    requires Table(m, ids, Narrowed(FreeSlots(avail)))
    ensures InRange(m, |avail|)
  {
    hide FreeUpTo;
    var slots := FreeSlots(avail);
    forall id | id in m ensures m[id] < |avail| {
      var i :| 0 <= i < |ids| && ids[i] == id;
      assert slots[i] < |avail| && Narrowed(slots)[i] <= slots[i];
    }
  }

  /** While ids are put in: no more entries than ids, and as many exactly while all are different. */
  ghost predicate PartTable(m: map<nat, nat>, ids: seq<nat>, slots: seq<nat>) {
    && |ids| == |slots|
    && |m| <= |ids|
    && (forall id :: id in m <==> id in ids)
    && (|m| == |ids| <==> Distinct(ids))
    && (Distinct(ids) ==> forall i :: 0 <= i < |ids| ==> m[ids[i]] == slots[i])
  }

  lemma TableNone()
    ensures PartTable(map[], [], [])
  {
  }

  lemma PartTableMore(m: map<nat, nat>, ids: seq<nat>, slots: seq<nat>, i: nat)
    requires i < |ids| == |slots| && PartTable(m, ids[..i], slots[..i])
    ensures PartTable(m[ids[i] := slots[i]], ids[..i + 1], slots[..i + 1])
  {
    var id := ids[i];
    var next := m[id := slots[i]];
    assert ids[..i + 1] == ids[..i] + [id] && slots[..i + 1] == slots[..i] + [slots[i]];
    assert next.Keys == m.Keys + {id};
    if id in m {
      assert m.Keys + {id} == m.Keys;
      var j :| 0 <= j < i && ids[..i][j] == id;
      assert ids[..i + 1][j] == ids[..i + 1][i];
    } else if Distinct(ids[..i]) {
      assert Distinct(ids[..i + 1]);
    } else {
      var a, b :| 0 <= a < b < i && ids[..i][a] == ids[..i][b];
      assert ids[..i + 1][a] == ids[..i + 1][b];
    }
  }

  lemma TableWhole(m: map<nat, nat>, ids: seq<nat>, slots: seq<nat>)
    requires PartTable(m, ids, slots)
    ensures |m| == |ids| ==> Table(m, ids, slots)
    ensures |m| != |ids| ==> !Distinct(ids)
  {
  }

  // ---------- what the two operations mean ----------

  /** The message has something in it, not too much, and its prefilled transactions fit. */
  ghost predicate WellFormed(c: Compact) {
    && !c.headerNull
    && |c.short| + |c.pre| > 0
    && |c.short| + |c.pre| <= 1600000
    && forall i :: 0 <= i < |c.pre| ==> EntryOk(c.pre, |c.short|, i)
  }

  /** A block as a message describes it: some transactions are sent, of the others the short id. */
  datatype Place = Sent(tx: Tx) | Named(id: nat)

  function NameOf(x: Place): seq<nat> {
    if x.Named? then [x.id] else []
  }

  function Names(l: seq<Place>): seq<nat> {
    if l == [] then [] else Names(l[..|l| - 1]) + NameOf(l[|l| - 1])
  }

  /** The place of the last transaction that is sent, or -1. */
  function LastSent(l: seq<Place>): (k: int)
    ensures -1 <= k < |l|
  {
    if l == [] then -1 else if l[|l| - 1].Sent? then |l| - 1 else LastSent(l[..|l| - 1])
  }

  /** They are sent with the number of places between them. */
  function Sents(l: seq<Place>): seq<Prefilled> {
    if l == [] then []
    else
      var rest := l[..|l| - 1];
      Sents(rest) + SentOf(l[|l| - 1], |rest| - LastSent(rest) - 1)
  }

  function SentOf(x: Place, gap: nat): seq<Prefilled> {
    if x.Sent? then [Prefilled(gap, x.tx)] else []
  }

  /** None that is sent is empty, or at a place beyond 16 bits. */
  ghost predicate Sendable(l: seq<Place>) {
    forall k :: 0 <= k < |l| && l[k].Sent? ==> !l[k].tx.isNull && k <= 0xFFFF
  }

  ghost predicate Describes(c: Compact, l: seq<Place>) {
    Names(l) == c.short && Sents(l) == c.pre && Sendable(l)
  }

  /** The well-formed messages are those that describe a block: not empty, and with no more than 1600000
      transactions. */
  lemma WellFormedIff(c: Compact)
    ensures WellFormed(c) <==> !c.headerNull && exists l :: Describes(c, l) && 0 < |l| <= 1600000
  {
    hide Names, Sents, LastIndex, EntryOk;
    if WellFormed(c) {
      var l := Arranged(c.short, c.pre);
      assert Describes(c, l);
    }
    if !c.headerNull && exists l :: Describes(c, l) && 0 < |l| <= 1600000 {
      var l :| Describes(c, l) && 0 < |l| <= 1600000;
      SentsFit(l);
    }
  }

  ghost predicate AllFit(pre: seq<Prefilled>, short: nat) {
    forall i :: 0 <= i < |pre| ==> EntryOk(pre, short, i)
  }

  lemma {:induction false} SentsFit(l: seq<Place>)
    requires Sendable(l)
    ensures |l| == |Names(l)| + |Sents(l)| && LastIndex(Sents(l), |Sents(l)|) == LastSent(l)
    ensures AllFit(Sents(l), |Names(l)|)
  {
    if l == [] {
    } else {
      hide Names, Sents, LastSent, LastIndex, EntryOk, AllFit, Sendable;
      var rest, x := l[..|l| - 1], l[|l| - 1];
      SendableLess(l);
      SentsFit(rest);
      assert l == rest + [x];
      OneMore(rest, x);
      if x.Sent? {
        SentFits(Sents(rest), |Names(rest)|, |rest| - LastSent(rest) - 1, x.tx);
      } else {
        NamedFits(Sents(rest), |Names(rest)|);
        assert Sents(l) == Sents(rest);
      }
    }
  }

  lemma SendableLess(l: seq<Place>)
    requires Sendable(l) && l != []
    ensures Sendable(l[..|l| - 1]) && (l[|l| - 1].Sent? ==> !l[|l| - 1].tx.isNull && |l| - 1 <= 0xFFFF)
  {
  }

  lemma SentFits(pre: seq<Prefilled>, short: nat, gap: nat, tx: Tx)
    requires AllFit(pre, short)
    requires LastIndex(pre, |pre|) + gap + 1 == short + |pre| <= 0xFFFF && !tx.isNull
    ensures AllFit(pre + [Prefilled(gap, tx)], short)
    ensures LastIndex(pre + [Prefilled(gap, tx)], |pre| + 1) == short + |pre|
  {
    var more := pre + [Prefilled(gap, tx)];
    LastIndexSame(pre, more, |pre|);
    forall i | 0 <= i < |pre| ensures EntryOk(more, short, i) {
      assert EntryOk(pre, short, i);
      LastIndexSame(pre, more, i + 1);
    }
  }

  lemma NamedFits(pre: seq<Prefilled>, short: nat)
    requires AllFit(pre, short)
    ensures AllFit(pre, short + 1)
  {
    hide LastIndex;
    var more := short + 1;
    forall i | 0 <= i < |pre| ensures EntryOk(pre, more, i) { assert EntryOk(pre, short, i); }
  }

  lemma {:induction false} LastIndexSame(a: seq<Prefilled>, b: seq<Prefilled>, k: nat)
    requires k <= |a| && k <= |b| && a[..k] == b[..k]
    ensures LastIndex(a, k) == LastIndex(b, k)
  {
    if k == 0 {
    } else {
      assert a[..k][k - 1] == b[..k][k - 1];
      assert a[..k - 1] == a[..k][..k - 1] == b[..k - 1];
      LastIndexSame(a, b, k - 1);
    }
  }

  /** The block that a message describes. */
  lemma {:induction false} Arranged(short: seq<nat>, pre: seq<Prefilled>) returns (l: seq<Place>)
    requires forall i :: 0 <= i < |pre| ==> EntryOk(pre, |short|, i)
    ensures IsArranged(l, short, pre)
    decreases |pre|, |short|
  {
    hide EntryOk, IsArranged, LastIndex;
    if |pre| > 0 { EntryRest(pre, |short|, |pre| - 1); }
    if |pre| > 0 && LastIndex(pre, |pre|) == |short| + |pre| - 1 {
      var rest := pre[..|pre| - 1];
      forall i | 0 <= i < |rest| ensures EntryOk(rest, |short|, i) { EntryRest(pre, |short|, i); }
      l := Arranged(short, rest);
      SentAtEnd(l, short, pre);
      l := l + [Sent(pre[|pre| - 1].tx)];
    } else if |short| > 0 {
      var n := |short| - 1;
      forall i | 0 <= i < |pre| ensures EntryOk(pre, n, i) { EntryFewer(pre, |short|, i); }
      l := Arranged(short[..n], pre);
      NamedAtEnd(l, short, pre);
      l := l + [Named(short[n])];
    } else {
      l := [];
      LastIndexLow(pre, |pre|);
      NothingArranged();
    }
  }

  ghost predicate IsArranged(l: seq<Place>, short: seq<nat>, pre: seq<Prefilled>) {
    && Names(l) == short && Sents(l) == pre && Sendable(l) && |l| == |short| + |pre|
    && LastSent(l) == LastIndex(pre, |pre|)
  }

  lemma NothingArranged()
    ensures IsArranged([], [], [])
  {
  }

  lemma OneMore(l: seq<Place>, x: Place)
    ensures Names(l + [x]) == Names(l) + NameOf(x)
    ensures Sents(l + [x]) == Sents(l) + SentOf(x, |l| - LastSent(l) - 1)
    ensures LastSent(l + [x]) == if x.Sent? then |l| else LastSent(l)
  {
    hide *;
    NamesMore(l + [x], l, x);
    SentsMore(l + [x], l, x);
    LastSentMore(l + [x], l, x);
  }

  lemma NamesMore(m: seq<Place>, l: seq<Place>, x: Place)
    requires m == l + [x]
    ensures Names(m) == Names(l) + NameOf(x)
  {
    hide NameOf;
    assert m[..|m| - 1] == l && m[|m| - 1] == x;
  }

  lemma SentsMore(m: seq<Place>, l: seq<Place>, x: Place)
    requires m == l + [x]
    ensures Sents(m) == Sents(l) + SentOf(x, |l| - LastSent(l) - 1)
  {
    hide SentOf, LastSent;
    assert m[..|m| - 1] == l && m[|m| - 1] == x;
  }

  lemma LastSentMore(m: seq<Place>, l: seq<Place>, x: Place)
    requires m == l + [x]
    ensures LastSent(m) == if x.Sent? then |l| else LastSent(l)
  {
    assert m[..|m| - 1] == l && m[|m| - 1] == x;
  }

  lemma SentAtEnd(l: seq<Place>, short: seq<nat>, pre: seq<Prefilled>)
    requires |pre| > 0 && IsArranged(l, short, pre[..|pre| - 1]) && EntryOk(pre, |short|, |pre| - 1)
    requires LastIndex(pre, |pre|) == |short| + |pre| - 1
    ensures IsArranged(l + [Sent(pre[|pre| - 1].tx)], short, pre)
  {
    hide Names, Sents, LastSent, LastIndex, Sendable, EntryOk;
    var rest, last := pre[..|pre| - 1], pre[|pre| - 1];
    LastIndexSame(pre, rest, |rest|);
    LastGap(pre);
    OneMore(l, Sent(last.tx));
    assert SentOf(Sent(last.tx), |l| - LastSent(l) - 1) == [last];
    assert NameOf(Sent(last.tx)) == [];
    assert pre == rest + [last];
    EntryRest(pre, |short|, |pre| - 1);
    SendableMore(l, Sent(last.tx));
  }

  lemma SendableMore(l: seq<Place>, x: Place)
    requires Sendable(l) && (x.Sent? ==> !x.tx.isNull && |l| <= 0xFFFF)
    ensures Sendable(l + [x])
  {
  }

  lemma LastGap(pre: seq<Prefilled>)
    requires |pre| > 0
    ensures pre[|pre| - 1].index == LastIndex(pre, |pre|) - LastIndex(pre, |pre| - 1) - 1
  {
  }

  lemma NamedAtEnd(l: seq<Place>, short: seq<nat>, pre: seq<Prefilled>)
    requires |short| > 0 && IsArranged(l, short[..|short| - 1], pre)
    ensures IsArranged(l + [Named(short[|short| - 1])], short, pre)
  {
    hide Names, Sents, LastSent, LastIndex, Sendable;
    OneMore(l, Named(short[|short| - 1]));
    SendableMore(l, Named(short[|short| - 1]));
    assert short == short[..|short| - 1] + [short[|short| - 1]];
  }

  lemma EntryRest(pre: seq<Prefilled>, short: nat, i: nat)
    requires i < |pre| && EntryOk(pre, short, i)
    ensures i < |pre| - 1 ==> EntryOk(pre[..|pre| - 1], short, i)
    ensures !pre[i].tx.isNull && LastIndex(pre, i + 1) <= 0xFFFF && LastIndex(pre, i + 1) <= short + i
  {
    if i < |pre| - 1 { LastIndexSame(pre, pre[..|pre| - 1], i + 1); }
  }

  /** If the last one is not at the end, each would fit with one short id less. */
  lemma {:induction false} EntryFewer(pre: seq<Prefilled>, short: nat, i: nat)
    requires i < |pre| && short > 0 && (forall j :: 0 <= j < |pre| ==> EntryOk(pre, short, j))
    requires LastIndex(pre, |pre|) < short + |pre| - 1
    ensures EntryOk(pre, short - 1, i)
    decreases |pre| - i
  {
    assert EntryOk(pre, short, i);
    if i == |pre| - 1 {
    } else {
      EntryFewer(pre, short, i + 1);
    }
  }

  lemma WellFormedIs(c: Compact)
    ensures WellFormed(c) <==>
      && !c.headerNull
      && (|c.short| > 0 || |c.pre| > 0)
      && |c.short| + |c.pre| <= MAX_BLOCK_WEIGHT / MIN_SERIALIZABLE_TRANSACTION_WEIGHT
      && forall i :: 0 <= i < |c.pre| ==> EntryOk(c.pre, |c.short|, i)
  {
  }

  /** What short id i was found to stand for, after np entries of the mempool and ne extra ones. */
  ghost function Found(c: Compact, pool: seq<Entry>, extra: seq<Entry>, S: ShortId, np: nat, ne: nat, i: nat): Match
    requires np <= |pool| && ne <= |extra| && i < |c.short|
  {
    ExtraMatch(S, PoolMatch(S, pool, np, {c.short[i]}), extra, ne, {c.short[i]})
  }

  ghost function AllFound(c: Compact, pool: seq<Entry>, extra: seq<Entry>, S: ShortId, np: nat,
                          ne: nat): (ms: seq<Match>)
    requires np <= |pool| && ne <= |extra|
    ensures |ms| == |c.short|
  {
    seq(|c.short|, i requires 0 <= i < |c.short| => Found(c, pool, extra, S, np, ne, i))
  }

  function Shows(m: Match): Option<Tx> {
    if m.One? then Some(m.tx) else None
  }

  /** The prefilled transactions are in their slots; the i-th empty one among the others holds what
      short id i was found to stand for, if that is one transaction; the count is that of the short
      ids with a transaction; and a list was left early only when all had one. */
  ghost predicate Initialised(c: Compact, pool: seq<Entry>, extra: seq<Entry>, S: ShortId, avail: seq<Option<Tx>>,
                              count: int, base: seq<Option<Tx>>, np: nat, ne: nat)
  {
    && np <= |pool| && ne <= |extra|
    && Placed(base, c.pre, |c.pre|)
    && |avail| == |base| == |c.short| + |c.pre|
    && |FreeSlots(base)| == |c.short|
    && (forall s :: 0 <= s < |base| && base[s].Some? ==> avail[s] == base[s])
    && (forall i :: 0 <= i < |c.short| ==> avail[FreeSlots(base)[i]] == Shows(Found(c, pool, extra, S, np, ne, i)))
    && count == Ones(AllFound(c, pool, extra, S, np, ne))
    && (ne < |extra| ==> count == |c.short|)
    && (np < |pool| ==> forall i :: 0 <= i < |c.short| ==> PoolMatch(S, pool, np, {c.short[i]}).One?)
  }

  /** For any message: the table sends the i-th short id to the number of the i-th empty slot, in 16 bits;
      every slot holds what its short ids were found to stand for, or what was prefilled if none was
      found; the count is that of the slots with such a transaction; and a list was left as soon as there
      were as many as short ids, and only then. */
  ghost predicate Matched(c: Compact, pool: seq<Entry>, extra: seq<Entry>, S: ShortId, avail: seq<Option<Tx>>,
                          count: int, base: seq<Option<Tx>>, table: map<nat, nat>, np: nat, ne: nat)
  {
    && np <= |pool| && ne <= |extra|
    && Placed(base, c.pre, |c.pre|) && |avail| == |base| == |c.short| + |c.pre|
    && Table(table, c.short, Narrowed(FreeSlots(base))) && |table| == |c.short|
    && var start := PoolMatches(S, pool, np, table, |base|);
       var ms := ExtraMatches(S, start, extra, ne, table);
    && (forall s :: 0 <= s < |base| ==> avail[s] == if ms[s].Unseen? then base[s] else Shows(ms[s]))
    && count == Ones(ms)
    && (np < |pool| ==> Ones(start) == |table|) && (ne < |extra| ==> count == |table|)
    && (forall n :: 0 < n < np ==> Ones(PoolMatches(S, pool, n, table, |base|)) != |table|)
    && (forall n :: 0 < n < ne ==> Ones(ExtraMatches(S, start, extra, n, table)) != |table|)
  }

  lemma FreeForShort(c: Compact, avail: seq<Option<Tx>>)
    requires Placed(avail, c.pre, |c.pre|) && |avail| == |c.short| + |c.pre|
    ensures |FreeSlots(avail)| == |c.short|
  {
  }

  /** The 16-bit slot numbers kept for the short ids name the empty slots if and only if the message
      has no more than 65536 transactions. */
  lemma SlotsFit(c: Compact, avail: seq<Option<Tx>>)
    requires WellFormed(c) && |avail| == |c.short| + |c.pre| && Placed(avail, c.pre, |c.pre|)
    ensures |avail| <= 0x1_0000 <==> Narrowed(FreeSlots(avail)) == FreeSlots(avail)
  {
    hide FreeUpTo;
    var slots := FreeSlots(avail);
    if |avail| > 0x1_0000 {
      var last := |avail| - 1;
      if c.pre != [] { assert EntryOk(c.pre, |c.short|, |c.pre| - 1); }
      FreeComplete(avail, |avail|, last);
      var i :| 0 <= i < |slots| && slots[i] == last;
      assert Narrowed(slots)[i] != slots[i];
    } else {
      assert forall i :: 0 <= i < |slots| ==> Narrowed(slots)[i] == slots[i];
    }
  }

  /** The search for an empty slot for short id i, from a 16-bit offset on, comes to one. */
  ghost predicate Ends(avail: seq<Option<Tx>>, i: nat, offset: nat) {
    exists k: nat :: Meets(avail, i, offset, k)
  }

  /** After k steps it stands at an empty slot. */
  ghost predicate Meets(avail: seq<Option<Tx>>, i: nat, offset: nat, k: nat) {
    var pos := i + Narrow(offset + k);
    pos < |avail| && avail[pos].None?
  }

  /** The offset that the search for short id i starts from. */
  function OffsetFor(avail: seq<Option<Tx>>, i: nat): int
    requires i <= |FreeSlots(avail)|
  {
    if i == 0 then 0 else FreeSlots(avail)[i - 1] - (i - 1)
  }

  /** Every search ends if and only if there is none, or less than 65536 slots are prefilled. */
  lemma SearchEnds(c: Compact, avail: seq<Option<Tx>>)
    requires WellFormed(c) && |avail| == |c.short| + |c.pre| && Placed(avail, c.pre, |c.pre|)
    ensures |FreeSlots(avail)| == |c.short|
    ensures (forall i :: 0 <= i < |c.short| ==> OffsetFor(avail, i) >= 0 && Ends(avail, i, OffsetFor(avail, i))) <==>
      c.short == [] || |c.pre| < 0x1_0000
  {
    hide FreeUpTo, Placed, WellFormed, Ends;
    FreeForShort(c, avail);
    if |c.pre| < 0x1_0000 {
      forall i | 0 <= i < |c.short| ensures OffsetFor(avail, i) >= 0 && Ends(avail, i, OffsetFor(avail, i)) {
        SearchMeets(avail, i);
      }
    } else if c.short != [] {
      AllTaken(c, avail);
      NeverEnds(avail);
      assert OffsetFor(avail, 0) == 0;
    }
  }

  lemma SearchMeets(avail: seq<Option<Tx>>, i: nat)
    requires i < |FreeSlots(avail)| && |avail| - |FreeSlots(avail)| < 0x1_0000
    ensures OffsetFor(avail, i) >= 0 && Ends(avail, i, OffsetFor(avail, i))
  {
    hide FreeUpTo;
    var slots := FreeSlots(avail);
    SlotsAbove(avail, i);
    if i > 0 {
      SlotsAbove(avail, i - 1);
      assert slots[i - 1] < slots[i];
    }
    var k := slots[i] - i - OffsetFor(avail, i);
    assert Narrow(OffsetFor(avail, i) + k) == slots[i] - i;
    assert Meets(avail, i, OffsetFor(avail, i), k);
  }

  /** The i-th empty slot has i empty ones below it, and the taken ones. */
  lemma SlotsAbove(avail: seq<Option<Tx>>, i: nat)
    requires i < |FreeSlots(avail)|
    ensures 0 <= FreeSlots(avail)[i] - i <= |avail| - |FreeSlots(avail)|
  {
    hide FreeUpTo;
    var slots := FreeSlots(avail);
    var pos := slots[i];
    TakenBelow(avail, pos);
    FreePrefix(avail, pos, |avail|);
    FreePrefix(avail, pos + 1, |avail|);
    FreeCount(avail, pos);
    FreeLast(avail, pos);
    var k := |FreeUpTo(avail, pos)|;
    assert slots[k] == FreeUpTo(avail, pos + 1)[k] == pos;
    FreeFew(avail, pos);
  }

  lemma {:induction false} FreeFew(avail: seq<Option<Tx>>, k: nat)
    requires k <= |avail|
    ensures |FreeUpTo(avail, k)| <= k
  {
    if k == 0 {
    } else {
      FreeFew(avail, k - 1);
    }
  }

  /** 65536 prefilled transactions fill the first 65536 slots. */
  lemma AllTaken(c: Compact, avail: seq<Option<Tx>>)
    requires WellFormed(c) && Placed(avail, c.pre, |c.pre|) && |c.pre| >= 0x1_0000
    ensures |avail| >= 0x1_0000 && forall s :: 0 <= s < 0x1_0000 ==> avail[s].Some?
  {
    hide FreeUpTo;
    assert EntryOk(c.pre, |c.short|, |c.pre| - 1);
    forall s | 0 <= s < 0x1_0000 ensures s < |avail| && avail[s].Some? {
      LastIndexLow(c.pre, s + 1);
      LastIndexSpread(c.pre, s + 1, |c.pre|);
      assert InSlot(avail, c.pre, s) && LastIndex(c.pre, s + 1) == s;
    }
  }

  lemma {:induction false} LastIndexSpread(pre: seq<Prefilled>, m: nat, n: nat)
    requires m <= n <= |pre|
    ensures LastIndex(pre, n) >= LastIndex(pre, m) + (n - m)
  {
    if m == n {
    } else {
      LastIndexSpread(pre, m, n - 1);
    }
  }

  lemma NeverEnds(avail: seq<Option<Tx>>)
    requires |avail| >= 0x1_0000 && forall s :: 0 <= s < 0x1_0000 ==> avail[s].Some?
    ensures !Ends(avail, 0, 0)
  {
  }

  /** Such a message: it passes every test of the source, and the only empty slot is never found. */
  lemma EndlessMessage(tx: Tx, id: nat)
    requires !tx.isNull
    ensures var c := Compact(false, [id], seq(0x1_0000, _ => Prefilled(0, tx)));
      var avail := seq(0x1_0000, _ => Some(tx)) + [None];
      WellFormed(c) && Placed(avail, c.pre, |c.pre|) && |avail| == |c.short| + |c.pre| && !Ends(avail, 0, 0)
  {
    var c := Compact(false, [id], seq(0x1_0000, _ => Prefilled(0, tx)));
    var avail := seq(0x1_0000, _ => Some(tx)) + [None];
    hide Placed, EntryOk, Ends;
    forall i | 0 <= i < |c.pre| ensures EntryOk(c.pre, |c.short|, i) { EvenEntry(c.pre, |c.short|, i); }
    EvenPlaced(c.pre, avail, tx);
    NeverEnds(avail);
  }

  lemma EvenEntry(pre: seq<Prefilled>, short: nat, i: nat)
    requires i < |pre| == 0x1_0000 && forall k :: 0 <= k < |pre| ==> pre[k].index == 0 && !pre[k].tx.isNull
    ensures EntryOk(pre, short, i)
  {
    EvenIndexes(pre, i + 1);
  }

  lemma EvenPlaced(pre: seq<Prefilled>, avail: seq<Option<Tx>>, tx: Tx)
    requires |pre| == 0x1_0000 && forall k :: 0 <= k < |pre| ==> pre[k] == Prefilled(0, tx)
    requires |avail| == 0x1_0001 && avail[0x1_0000].None? && forall k :: 0 <= k < 0x1_0000 ==> avail[k] == Some(tx)
    ensures Placed(avail, pre, |pre|)
  {
    hide FreeUpTo;
    forall i | 0 <= i < |pre| ensures InSlot(avail, pre, i) { EvenIndexes(pre, i + 1); }
    EvenIndexes(pre, |pre|);
    NoneFreeBelow(avail, 0x1_0000);
    FreeCount(avail, 0x1_0000);
  }

  lemma {:induction false} NoneFreeBelow(avail: seq<Option<Tx>>, k: nat)
    requires k <= |avail| && forall s :: 0 <= s < k ==> avail[s].Some?
    ensures FreeUpTo(avail, k) == []
  {
    if k == 0 {
    } else {
      NoneFreeBelow(avail, k - 1);
    }
  }

  lemma {:induction false} EvenIndexes(pre: seq<Prefilled>, n: nat)
    requires n <= |pre| && forall i :: 0 <= i < |pre| ==> pre[i].index == 0
    ensures LastIndex(pre, n) == n - 1
  {
    if n == 0 {
    } else {
      EvenIndexes(pre, n - 1);
    }
  }

  lemma NothingSeen(avail: seq<Option<Tx>>, have: seq<bool>, S: ShortId, pool: seq<Entry>, table: map<nat, nat>)
    requires |have| == |avail| && (forall s :: 0 <= s < |have| ==> !have[s])
    ensures Held(avail, avail, have, PoolMatches(S, pool, 0, table, |avail|))
    ensures Ones(PoolMatches(S, pool, 0, table, |avail|)) == 0
  {
    OnesNone(PoolMatches(S, pool, 0, table, |avail|));
  }

  // ---------- one short id to a slot ----------

  lemma FreeIsHit(m: map<nat, nat>, ids: seq<nat>, base: seq<Option<Tx>>, i: nat)
    requires Table(m, ids, FreeSlots(base)) && i < |ids|
    ensures IdsOf(m, FreeSlots(base)[i]) == {ids[i]}
  {
    hide FreeUpTo;
    var slots := FreeSlots(base);
    forall x | x in IdsOf(m, slots[i]) ensures x == ids[i] {
      var j :| 0 <= j < |ids| && ids[j] == x;
      assert slots[j] == slots[i];
    }
  }

  lemma TakenIsNotHit(m: map<nat, nat>, ids: seq<nat>, base: seq<Option<Tx>>, s: nat)
    requires Table(m, ids, FreeSlots(base)) && s < |base| && base[s].Some?
    ensures IdsOf(m, s) == {}
  {
    hide FreeUpTo;
    forall x | x in m ensures m[x] != s {
      var j :| 0 <= j < |ids| && ids[j] == x;
    }
  }

  /** Every slot, when each empty one has its own short id. */
  ghost predicate OneEach(base: seq<Option<Tx>>, ms: seq<Match>, found: seq<Match>) {
    && |ms| == |base| && |found| == |FreeSlots(base)|
    && (forall s :: 0 <= s < |base| && base[s].Some? ==> ms[s].Unseen?)
    && forall i :: 0 <= i < |found| ==> ms[FreeSlots(base)[i]] == found[i]
  }

  lemma {:induction false} OnesAgree(base: seq<Option<Tx>>, ms: seq<Match>, found: seq<Match>, k: nat)
    requires OneEach(base, ms, found) && k <= |base|
    ensures |FreeUpTo(base, k)| <= |found| && Ones(ms[..k]) == Ones(found[..|FreeUpTo(base, k)|])
  {
    hide FreeUpTo, Ones, OneEach;
    if k == 0 {
      NoneFreeBelow(base, 0);
    } else {
      OnesAgree(base, ms, found, k - 1);
      SlotAgrees(base, ms, found, k);
      OnesMore(ms, k);
      if base[k - 1].None? { OnesMore(found, |FreeUpTo(base, k)|); }
    }
  }

  lemma OnesMore(ms: seq<Match>, k: nat)
    requires 0 < k <= |ms|
    ensures Ones(ms[..k]) == Ones(ms[..k - 1]) + if ms[k - 1].One? then 1 else 0
  {
    assert ms[..k][..k - 1] == ms[..k - 1];
  }

  lemma SlotAgrees(base: seq<Option<Tx>>, ms: seq<Match>, found: seq<Match>, k: nat)
    requires OneEach(base, ms, found) && 0 < k <= |base|
    ensures |ms| == |base|
    ensures var n := |FreeUpTo(base, k)|;
      if base[k - 1].None? then 0 < n <= |found| && |FreeUpTo(base, k - 1)| == n - 1 && ms[k - 1] == found[n - 1]
      else |FreeUpTo(base, k - 1)| == n <= |found| && ms[k - 1].Unseen?
  {
    hide FreeUpTo;
    FreePrefix(base, k, |base|);
    FreeCount(base, k - 1);
    if base[k - 1].None? {
      var n := |FreeUpTo(base, k)|;
      FreeLast(base, k - 1);
      assert FreeSlots(base)[n - 1] == FreeUpTo(base, k)[n - 1] == k - 1;
    }
  }

  lemma {:induction false} AllOnes(ms: seq<Match>)
    ensures Ones(ms) <= |ms|
    ensures Ones(ms) == |ms| ==> forall i :: 0 <= i < |ms| ==> ms[i].One?
  {
    if ms == [] {
    } else {
      AllOnes(ms[..|ms| - 1]);
    }
  }

  ghost function PoolFound(c: Compact, pool: seq<Entry>, S: ShortId, np: nat): (ms: seq<Match>)
    requires np <= |pool|
    ensures |ms| == |c.short|
  {
    seq(|c.short|, i requires 0 <= i < |c.short| => PoolMatch(S, pool, np, {c.short[i]}))
  }

  lemma PoolOneEach(c: Compact, pool: seq<Entry>, S: ShortId, base: seq<Option<Tx>>, table: map<nat, nat>, np: nat)
    requires np <= |pool| && Table(table, c.short, FreeSlots(base))
    ensures OneEach(base, PoolMatches(S, pool, np, table, |base|), PoolFound(c, pool, S, np))
  {
    hide FreeUpTo, PoolMatch, Table, IdsOf;
    var slots := FreeSlots(base);
    DistinctIds(table, c.short, slots);
    forall s | 0 <= s < |base| && base[s].Some? ensures PoolMatch(S, pool, np, IdsOf(table, s)).Unseen? {
      TakenIsNotHit(table, c.short, base, s);
      PoolMatchIs(S, pool, np, {});
    }
    forall i | 0 <= i < |c.short|
      ensures PoolMatch(S, pool, np, IdsOf(table, slots[i])) == PoolMatch(S, pool, np, {c.short[i]})
    {
      FreeIsHit(table, c.short, base, i);
    }
  }

  lemma ExtraOneEach(c: Compact, pool: seq<Entry>, extra: seq<Entry>, S: ShortId, base: seq<Option<Tx>>,
                     table: map<nat, nat>, np: nat, ne: nat)
    requires np <= |pool| && ne <= |extra| && Table(table, c.short, FreeSlots(base))
    ensures var start := PoolMatches(S, pool, np, table, |base|);
      OneEach(base, ExtraMatches(S, start, extra, ne, table), AllFound(c, pool, extra, S, np, ne))
  {
    hide FreeUpTo, PoolMatch, ExtraMatch, Table, IdsOf;
    var slots := FreeSlots(base);
    var start := PoolMatches(S, pool, np, table, |base|);
    PoolOneEach(c, pool, S, base, table, np);
    forall s | 0 <= s < |base| && base[s].Some?
      ensures ExtraMatch(S, start[s], extra, ne, IdsOf(table, s)).Unseen?
    {
      TakenIsNotHit(table, c.short, base, s);
      ExtraMatchIs(S, start[s], extra, ne, {});
    }
    forall i | 0 <= i < |c.short|
      ensures ExtraMatch(S, start[slots[i]], extra, ne, IdsOf(table, slots[i])) == Found(c, pool, extra, S, np, ne, i)
    {
      FreeIsHit(table, c.short, base, i);
      assert start[slots[i]] == PoolFound(c, pool, S, np)[i];
    }
  }

  lemma Describe(c: Compact, pool: seq<Entry>, extra: seq<Entry>, S: ShortId, avail: seq<Option<Tx>>, count: int,
                 base: seq<Option<Tx>>, table: map<nat, nat>, np: nat, ne: nat)
    requires WellFormed(c) && |c.short| + |c.pre| <= 0x1_0000
    requires Matched(c, pool, extra, S, avail, count, base, table, np, ne)
    ensures Initialised(c, pool, extra, S, avail, count, base, np, ne)
  {
    hide FreeUpTo, PoolMatch, ExtraMatch, Placed, Table, Ones, PoolMatches, ExtraMatches, WellFormed, Found;
    var start := PoolMatches(S, pool, np, table, |base|);
    var ms := ExtraMatches(S, start, extra, ne, table);
    var slots := FreeSlots(base);
    FreeForShort(c, base);
    SlotsFit(c, base);
    PoolOneEach(c, pool, S, base, table, np);
    ExtraOneEach(c, pool, extra, S, base, table, np, ne);
    WholeOnes(base, start, PoolFound(c, pool, S, np));
    WholeOnes(base, ms, AllFound(c, pool, extra, S, np, ne));
    AllOnes(PoolFound(c, pool, S, np));
    forall i | 0 <= i < |c.short| ensures avail[slots[i]] == Shows(Found(c, pool, extra, S, np, ne, i)) {
      assert ms[slots[i]] == AllFound(c, pool, extra, S, np, ne)[i];
    }
    if np < |pool| {
      forall i | 0 <= i < |c.short| ensures PoolMatch(S, pool, np, {c.short[i]}).One? {
        assert PoolFound(c, pool, S, np)[i].One?;
      }
    }
  }

  lemma WholeOnes(base: seq<Option<Tx>>, ms: seq<Match>, found: seq<Match>)
    requires OneEach(base, ms, found)
    ensures Ones(ms) == Ones(found)
  {
    hide FreeUpTo, Ones;
    OnesAgree(base, ms, found, |base|);
    assert ms[..|base|] == ms && found[..|found|] == found;
  }

  /** Slot s of the finished block: what was there, or the next of the missing. */
  ghost function FilledAt(avail: seq<Option<Tx>>, missing: seq<Tx>, s: nat): Tx
    requires s < |avail|
  {
    var k := |FreeUpTo(avail, s)|;
    if avail[s].Some? then avail[s].value
    else if k < |missing| then missing[k]
    else Tx(0, 0, true)
  }

  ghost predicate IsFilled(vtx: seq<Tx>, avail: seq<Option<Tx>>, missing: seq<Tx>) {
    |vtx| == |avail| && forall s :: 0 <= s < |avail| ==> vtx[s] == FilledAt(avail, missing, s)
  }

  /** The transactions below slot k have been moved out. */
  ghost predicate EmptiedUpTo(was: seq<Option<Tx>>, now: seq<Option<Tx>>, k: nat) {
    |now| == |was| && forall s :: 0 <= s < |was| ==> now[s] == if s < k then None else was[s]
  }

  lemma FreeLast(avail: seq<Option<Tx>>, i: nat)
    requires i < |avail| && avail[i].None?
    ensures |FreeUpTo(avail, i + 1)| > |FreeUpTo(avail, i)| && FreeUpTo(avail, i + 1)[|FreeUpTo(avail, i)|] == i
  {
  }

  lemma FreeCount(avail: seq<Option<Tx>>, i: nat)
    requires i < |avail|
    ensures |FreeUpTo(avail, i + 1)| == |FreeUpTo(avail, i)| + if avail[i].None? then 1 else 0
  {
  }

  // ---------- from block to block ----------

  /** The hash a short id is made from. */
  function IdHash(tx: Tx, useWtxid: bool): nat {
    if useWtxid then tx.wtxid else tx.txid
  }

  function ShortIds(vtx: seq<Tx>, S: ShortId, useWtxid: bool): (ids: seq<nat>)
    requires |vtx| > 0
    ensures |ids| == |vtx| - 1
  {
    seq<nat>(|vtx| - 1, i requires 0 <= i < |vtx| - 1 => S(IdHash(vtx[i + 1], useWtxid)))
  }

  /** The short ids are those of the witness hashes in the one version of the protocol, and of the other
      hashes in the other: blocks that differ elsewhere, or in the first transaction, have the same. */
  lemma SameShortIds(vtx: seq<Tx>, vtx': seq<Tx>, S: ShortId, useWtxid: bool)
    requires 0 < |vtx| == |vtx'|
    requires useWtxid ==> forall i :: 0 < i < |vtx| ==> vtx[i].wtxid == vtx'[i].wtxid
    requires !useWtxid ==> forall i :: 0 < i < |vtx| ==> vtx[i].txid == vtx'[i].txid
    ensures ShortIds(vtx, S, useWtxid) == ShortIds(vtx', S, useWtxid)
  {
    forall i | 0 <= i < |vtx| - 1 ensures ShortIds(vtx, S, useWtxid)[i] == ShortIds(vtx', S, useWtxid)[i] {
      assert IdHash(vtx[i + 1], useWtxid) == IdHash(vtx'[i + 1], useWtxid);
    }
  }

  /** The first transaction is sent whole, the others as short ids. */
  method MakeCompact(vtx: seq<Tx>, S: ShortId, useWtxid: bool) returns (c: Compact)
    requires |vtx| > 0
    ensures !c.headerNull && c.pre == [Prefilled(0, vtx[0])] && c.short == ShortIds(vtx, S, useWtxid)
  {
    var short: seq<nat> := [];
    var i := 1;
    while i < |vtx|
      invariant 1 <= i <= |vtx| && |short| == i - 1
      invariant forall j :: 0 <= j < i - 1 ==> short[j] == S(IdHash(vtx[j + 1], useWtxid))
    {
      short := short + [S(IdHash(vtx[i], useWtxid))];
      i := i + 1;
    }
    c := Compact(false, short, [Prefilled(0, vtx[0])]);
  }

  /** No two transactions of the block share a short id, and one known to the receiver shares it
      with a transaction of the block only if it is that transaction. */
  ghost predicate NoCollision(vtx: seq<Tx>, S: ShortId, useWtxid: bool, known: seq<Entry>)
    requires |vtx| > 0
  {
    && Distinct(ShortIds(vtx, S, useWtxid))
    && forall e, j :: e in known && 0 < j < |vtx| && S(e.hash) == S(IdHash(vtx[j], useWtxid)) ==> e.tx == vtx[j]
  }

  /** Every slot is empty or holds the block's own transaction. */
  ghost predicate Agrees(avail: seq<Option<Tx>>, vtx: seq<Tx>) {
    |avail| == |vtx| && forall s :: 0 <= s < |vtx| ==> avail[s].None? || avail[s] == Some(vtx[s])
  }

  lemma {:induction false} FreeAfterFirst(base: seq<Option<Tx>>, k: nat)
    requires 1 <= k <= |base| && base[0].Some? && forall s :: 0 < s < |base| ==> base[s].None?
    ensures |FreeUpTo(base, k)| == k - 1 && forall i :: 0 <= i < k - 1 ==> FreeUpTo(base, k)[i] == i + 1
  {
    if k > 1 {
      FreeAfterFirst(base, k - 1);
    } else {
      assert FreeUpTo(base, 0) == [];
    }
  }

  /** A transaction of the mempool that alone has the short id is found, however early the scan ends,
      unless an extra transaction that differs has it too. */
  lemma KnownIsFound(c: Compact, pool: seq<Entry>, extra: seq<Entry>, S: ShortId, avail: seq<Option<Tx>>, count: int,
                     base: seq<Option<Tx>>, np: nat, ne: nat, i: nat, k: nat)
    requires Initialised(c, pool, extra, S, avail, count, base, np, ne) && i < |c.short|
    requires OnlyHit(S, pool, |pool|, {c.short[i]}, k)
    requires HitsAre(S, extra, |extra|, {c.short[i]}, pool[k].tx.wtxid)
    ensures avail[FreeSlots(base)[i]] == Some(pool[k].tx)
  {
    hide FreeUpTo, PoolMatch, ExtraMatch, Ones, AllFound, Placed;
    var ids := {c.short[i]};
    PoolMatchIs(S, pool, np, ids);
    if np < |pool| {
      var j: nat :| OnlyHit(S, pool, np, ids, j);
      assert j == k;
    }
    ExtraMatchIs(S, One(pool[k].tx), extra, ne, ids);
    assert Found(c, pool, extra, S, np, ne, i) == One(pool[k].tx);
  }

  lemma FoundIsKnown(c: Compact, pool: seq<Entry>, extra: seq<Entry>, S: ShortId, np: nat, ne: nat, i: nat)
    requires np <= |pool| && ne <= |extra| && i < |c.short| && Found(c, pool, extra, S, np, ne, i).One?
    ensures exists e :: e in pool + extra && S(e.hash) == c.short[i] && e.tx == Found(c, pool, extra, S, np, ne, i).tx
  {
    var ids := {c.short[i]};
    var start := PoolMatch(S, pool, np, ids);
    PoolMatchIs(S, pool, np, ids);
    ExtraMatchIs(S, start, extra, ne, ids);
    if start.One? {
      var k: nat :| OnlyHit(S, pool, np, ids, k);
      assert pool[k] in pool + extra;
    } else {
      var k: nat :| FirstHit(S, extra, ne, ids, k);
      assert extra[k] in pool + extra;
    }
  }

  lemma SlotsAgree(vtx: seq<Tx>, c: Compact, pool: seq<Entry>, extra: seq<Entry>, S: ShortId, useWtxid: bool,
                   avail: seq<Option<Tx>>, count: int, base: seq<Option<Tx>>, np: nat, ne: nat)
    requires |vtx| > 0 && c.pre == [Prefilled(0, vtx[0])] && c.short == ShortIds(vtx, S, useWtxid)
    requires NoCollision(vtx, S, useWtxid, pool + extra)
    requires Initialised(c, pool, extra, S, avail, count, base, np, ne)
    ensures Agrees(avail, vtx)
  {
    hide FreeUpTo, Found, Ones, AllFound, PoolMatch;
    assert LastIndex(c.pre, 1) == LastIndex(c.pre, 0) + 0 + 1 == 0;
    assert InSlot(base, c.pre, 0);
    FreeAfterFirst(base, |base|);
    forall s | 0 <= s < |vtx| ensures avail[s].None? || avail[s] == Some(vtx[s]) {
      if s > 0 && avail[s].Some? {
        assert FreeSlots(base)[s - 1] == s;
        FoundIsKnown(c, pool, extra, S, np, ne, s - 1);
      }
    }
  }

  /** The transactions of a block at the empty slots, in order. */
  ghost function Missing(vtx: seq<Tx>, slots: seq<nat>): (m: seq<Tx>)
    requires forall i :: 0 <= i < |slots| ==> slots[i] < |vtx|
    ensures |m| == |slots|
  {
    seq(|slots|, i requires 0 <= i < |slots| => vtx[slots[i]])
  }

  lemma Rebuilt(vtx: seq<Tx>, avail: seq<Option<Tx>>, got: seq<Tx>)
    requires Agrees(avail, vtx) && IsFilled(got, avail, Missing(vtx, FreeSlots(avail)))
    ensures got == vtx
  {
    hide FreeUpTo;
    var slots := FreeSlots(avail);
    forall s | 0 <= s < |vtx| ensures got[s] == vtx[s] {
      if avail[s].None? {
        var k := |FreeUpTo(avail, s)|;
        FreePrefix(avail, s, |avail|);
        FreePrefix(avail, s + 1, |avail|);
        FreeCount(avail, s);
        assert FreeUpTo(avail, s) == slots[..k];
        FreeNext(avail, k, s);
      }
    }
  }

  // ---------- asking for what is missing ----------

  /** Differences as they are sent: each less the index before it and one, in 64 bits. */
  ghost predicate IsCoded(indexes: seq<nat>, diffs: seq<nat>) {
    && |diffs| == |indexes|
    && forall i :: 0 <= i < |indexes| ==>
      diffs[i] == (indexes[i] as int - if i == 0 then 0 else indexes[i - 1] + 1) % 0x1_0000_0000_0000_0000
  }

  /** Indexes as they are read back: each plus a 16-bit offset, one above the index before it. */
  ghost predicate IsRead(diffs: seq<nat>, indexes: seq<nat>) {
    && |diffs| == |indexes|
    && forall i :: 0 <= i < |indexes| ==>
      indexes[i] == diffs[i] + (if i == 0 then 0 else (indexes[i - 1] + 1) % 0x1_0000) && indexes[i] <= 0xFFFF
  }

  method CodeIndexes(indexes: seq<nat>) returns (diffs: seq<nat>)
    requires forall i :: 0 <= i < |indexes| ==> indexes[i] <= 0xFFFF
    ensures IsCoded(indexes, diffs)
  {
    diffs := [];
    var i := 0;
    while i < |indexes|
      invariant 0 <= i <= |indexes| && IsCoded(indexes[..i], diffs)
    {
      var index := indexes[i] as int - if i == 0 then 0 else indexes[i - 1] + 1;
      ghost var was := diffs;
      diffs := diffs + [index % 0x1_0000_0000_0000_0000];
      CodeMore(indexes, was, diffs, i);
      i := i + 1;
    }
    assert indexes[..i] == indexes;
  }

  lemma CodeMore(indexes: seq<nat>, was: seq<nat>, diffs: seq<nat>, i: nat)
    requires i < |indexes| && IsCoded(indexes[..i], was) && |diffs| == i + 1 && diffs[..i] == was
    requires diffs[i] == (indexes[i] as int - if i == 0 then 0 else indexes[i - 1] + 1) % 0x1_0000_0000_0000_0000
    ensures IsCoded(indexes[..i + 1], diffs)
  {
    forall j | 0 <= j < i
      ensures diffs[j] == (indexes[j] as int - if j == 0 then 0 else indexes[j - 1] + 1) % 0x1_0000_0000_0000_0000
    {
      assert was[j] == diffs[..i][j] && indexes[..i][j] == indexes[j];
      if j > 0 { assert indexes[..i][j - 1] == indexes[j - 1]; }
    }
  }

  /** Nothing is read exactly when an index would not fit in 16 bits. */
  method ReadIndexes(diffs: seq<nat>) returns (r: Option<seq<nat>>)
    ensures r.Some? ==> IsRead(diffs, r.value)
    ensures r.None? ==> forall indexes :: !IsRead(diffs, indexes)
  {
    hide IsRead;
    var indexes: seq<nat> := [];
    var i := 0;
    while i < |diffs|
      invariant 0 <= i <= |diffs| && indexes == diffs[..i]
    {
      if diffs[i] > 0xFFFF {
        TooLarge(diffs, i);
        return None;
      }
      indexes := indexes + [diffs[i]];
      i := i + 1;
    }
    assert diffs[..i] == diffs;
    r := AddOffsets(indexes);
  }

  method AddOffsets(diffs: seq<nat>) returns (r: Option<seq<nat>>)
    ensures r.Some? ==> IsRead(diffs, r.value)
    ensures r.None? ==> forall indexes :: !IsRead(diffs, indexes)
  {
    hide IsRead;
    var indexes := diffs;
    var offset := 0;
    var j := 0;
    ReadNothing();
    while j < |indexes|
      invariant 0 <= j <= |indexes| == |diffs|
      invariant forall k :: j <= k < |diffs| ==> indexes[k] == diffs[k]
      invariant IsRead(diffs[..j], indexes[..j])
      invariant offset == if j == 0 then 0 else (indexes[j - 1] + 1) % 0x1_0000
    {
      if indexes[j] + offset > 0xFFFF {
        NotReadable(diffs, indexes[..j], offset);
        return None;
      }
      ReadMore(diffs, indexes[..j], j, offset);
      indexes := indexes[j := indexes[j] + offset];
      assert indexes[..j + 1] == indexes[..j] + [diffs[j] + offset];
      offset := (indexes[j] + 1) % 0x1_0000;
      j := j + 1;
    }
    assert diffs[..j] == diffs && indexes[..j] == indexes;
    r := Some(indexes);
  }

  lemma ReadNothing()
    ensures IsRead([], [])
  {
  }

  lemma ReadMore(diffs: seq<nat>, part: seq<nat>, j: nat, offset: nat)
    requires j < |diffs| && IsRead(diffs[..j], part) && diffs[j] + offset <= 0xFFFF
    requires offset == if |part| == 0 then 0 else (part[|part| - 1] + 1) % 0x1_0000
    ensures |part| == j && IsRead(diffs[..j + 1], part + [diffs[j] + offset])
  {
    var next := part + [diffs[j] + offset];
    forall i | 0 <= i < j + 1
      ensures next[i] == diffs[..j + 1][i] + (if i == 0 then 0 else (next[i - 1] + 1) % 0x1_0000) && next[i] <= 0xFFFF
    {
      if i < j {
        assert part[i] == diffs[..j][i] + (if i == 0 then 0 else (part[i - 1] + 1) % 0x1_0000) && part[i] <= 0xFFFF;
      }
    }
  }

  lemma ReadAt(diffs: seq<nat>, indexes: seq<nat>, i: nat)
    requires IsRead(diffs, indexes) && i < |diffs|
    ensures diffs[i] + (if i == 0 then 0 else (indexes[i - 1] + 1) % 0x1_0000) <= 0xFFFF && diffs[i] <= 0xFFFF
  {
    assert indexes[i] <= 0xFFFF;
  }

  lemma TooLarge(diffs: seq<nat>, i: nat)
    requires i < |diffs| && diffs[i] > 0xFFFF
    ensures forall indexes :: !IsRead(diffs, indexes)
  {
    forall indexes ensures !IsRead(diffs, indexes) {
      if IsRead(diffs, indexes) {
        ReadAt(diffs, indexes, i);
        assert false;
      }
    }
  }

  lemma {:induction false} ReadUnique(diffs: seq<nat>, a: seq<nat>, b: seq<nat>, k: nat)
    requires k <= |a| <= |diffs| && IsRead(diffs[..|a|], a) && IsRead(diffs, b)
    ensures a[..k] == b[..k]
  {
    if k == 0 {
    } else {
      ReadUnique(diffs, a, b, k - 1);
      assert k - 1 > 0 ==> a[k - 2] == a[..k - 1][k - 2] == b[..k - 1][k - 2] == b[k - 2];
      assert a[k - 1] == diffs[..|a|][k - 1] + (if k == 1 then 0 else (a[k - 2] + 1) % 0x1_0000);
      assert b[k - 1] == diffs[k - 1] + (if k == 1 then 0 else (b[k - 2] + 1) % 0x1_0000);
      assert a[..k] == a[..k - 1] + [a[k - 1]] && b[..k] == b[..k - 1] + [b[k - 1]];
    }
  }

  lemma NotReadable(diffs: seq<nat>, part: seq<nat>, offset: nat)
    requires |part| < |diffs| && IsRead(diffs[..|part|], part) && diffs[|part|] + offset > 0xFFFF
    requires offset == if |part| == 0 then 0 else (part[|part| - 1] + 1) % 0x1_0000
    ensures forall indexes :: !IsRead(diffs, indexes)
  {
    forall indexes ensures !IsRead(diffs, indexes) {
      if IsRead(diffs, indexes) {
        ReadUnique(diffs, part, indexes, |part|);
        LastSame(part, indexes);
        ReadAt(diffs, indexes, |part|);
        assert false;
      }
    }
  }

  lemma LastSame(part: seq<nat>, all: seq<nat>)
    requires |part| <= |all| && part[..|part|] == all[..|part|]
    ensures |part| > 0 ==> part[|part| - 1] == all[|part| - 1]
  {
    if |part| > 0 { assert part[..|part|][|part| - 1] == all[..|part|][|part| - 1]; }
  }

  /** Increasing 16-bit indexes are read back as they were sent. */
  lemma CodedIsRead(indexes: seq<nat>, diffs: seq<nat>)
    requires IsCoded(indexes, diffs) && Increasing(indexes) && forall i :: 0 <= i < |indexes| ==> indexes[i] <= 0xFFFF
    ensures IsRead(diffs, indexes)
  {
    forall i | 0 <= i < |indexes|
      ensures indexes[i] == diffs[i] + if i == 0 then 0 else (indexes[i - 1] + 1) % 0x1_0000
    {
      if i > 0 { assert indexes[i - 1] < indexes[i]; }
    }
  }

  function Sum(diffs: seq<nat>): nat {
    if diffs == [] then 0 else Sum(diffs[..|diffs| - 1]) + diffs[|diffs| - 1]
  }

  /** What is read is increasing, and would be sent as it came, if and only if the differences sent add
      up to no more than a 16-bit index can hold: past that the 16-bit offset starts again from zero. */
  lemma ReadIsIncreasing(diffs: seq<nat>, indexes: seq<nat>)
    requires IsRead(diffs, indexes) && |diffs| > 0
    ensures Increasing(indexes) <==> Sum(diffs) + |diffs| - 1 <= 0xFFFF
    ensures Increasing(indexes) ==> IsCoded(indexes, diffs)
  {
    IncreasingUnlessWrapped(diffs, indexes);
    assert diffs[..|diffs|] == diffs;
    if Increasing(indexes) {
      ReadIsSum(diffs, indexes, |diffs|);
      DifferencesReturn(diffs, indexes);
    } else {
      var i := FirstWrap(indexes);
      ReadIsSum(diffs, indexes, i + 1);
      SumGrows(diffs, i + 1);
    }
  }

  /** Up to the first wrap-around an index is the sum of the differences before it and their number. */
  lemma {:induction false} ReadIsSum(diffs: seq<nat>, indexes: seq<nat>, k: nat)
    requires IsRead(diffs, indexes) && 0 < k <= |diffs|
    requires forall i :: 0 <= i < k - 1 ==> indexes[i] != 0xFFFF
    ensures indexes[k - 1] == Sum(diffs[..k]) + k - 1
  {
    assert diffs[..k][..k - 1] == diffs[..k - 1];
    assert diffs[..k][k - 1] == diffs[k - 1];
    ReadAt(diffs, indexes, k - 1);
    if k == 1 {
      assert diffs[..0] == [];
    } else {
      ReadIsSum(diffs, indexes, k - 1);
      assert indexes[k - 2] != 0xFFFF && indexes[k - 2] <= 0xFFFF;
    }
  }

  lemma {:induction false} SumGrows(diffs: seq<nat>, k: nat)
    requires k <= |diffs|
    ensures Sum(diffs[..k]) <= Sum(diffs)
    decreases |diffs| - k
  {
    if k == |diffs| {
      assert diffs[..k] == diffs;
    } else {
      assert diffs[..k + 1][..k] == diffs[..k];
      SumGrows(diffs, k + 1);
    }
  }

  /** The first index that is 65535 with another after it. */
  lemma FirstWrap(indexes: seq<nat>) returns (i: nat)
    requires exists j :: 0 <= j < |indexes| - 1 && indexes[j] == 0xFFFF
    ensures i < |indexes| - 1 && indexes[i] == 0xFFFF
    ensures forall j :: 0 <= j < i ==> indexes[j] != 0xFFFF
  {
    i := 0;
    while indexes[i] != 0xFFFF
      invariant i < |indexes| - 1
      invariant forall j :: 0 <= j < i ==> indexes[j] != 0xFFFF
      decreases |indexes| - i
    {
      i := i + 1;
    }
  }

  lemma IncreasingUnlessWrapped(diffs: seq<nat>, indexes: seq<nat>)
    requires IsRead(diffs, indexes)
    ensures Increasing(indexes) <==> forall i :: 0 <= i < |indexes| - 1 ==> indexes[i] != 0xFFFF
  {
    if forall i :: 0 <= i < |indexes| - 1 ==> indexes[i] != 0xFFFF {
      forall i, j | 0 <= i < j < |indexes| ensures indexes[i] < indexes[j] { ReadGrows(diffs, indexes, i, j); }
    } else {
      var i :| 0 <= i < |indexes| - 1 && indexes[i] == 0xFFFF;
      assert indexes[i + 1] <= 0xFFFF;
    }
  }

  lemma DifferencesReturn(diffs: seq<nat>, indexes: seq<nat>)
    requires IsRead(diffs, indexes) && Increasing(indexes)
    ensures IsCoded(indexes, diffs)
  {
    forall i | 0 <= i < |indexes|
      ensures diffs[i] == (indexes[i] as int - if i == 0 then 0 else indexes[i - 1] + 1) % 0x1_0000_0000_0000_0000
    {
      if i > 0 { assert indexes[i - 1] < indexes[i] <= 0xFFFF; }
    }
  }

  lemma {:induction false} ReadGrows(diffs: seq<nat>, indexes: seq<nat>, i: nat, j: nat)
    requires IsRead(diffs, indexes) && i < j < |indexes|
    requires forall k :: 0 <= k < |indexes| - 1 ==> indexes[k] != 0xFFFF
    ensures indexes[i] < indexes[j]
  {
    assert indexes[j - 1] != 0xFFFF && indexes[j - 1] <= 0xFFFF;
    if i == j - 1 {
    } else {
      ReadGrows(diffs, indexes, i, j - 1);
    }
  }

  lemma WrappedRead()
    ensures IsRead([0xFFFF, 0], [0xFFFF, 0]) && !Increasing([0xFFFF, 0])
  {
    assert [0xFFFF, 0][0] > [0xFFFF, 0][1];
  }

  // ---------- the whole exchange ----------

  /** A block of up to 65536 transactions is sent compactly, the missing transactions are asked for
      and filled in.  Without short-id collisions and crowding the receiver ends with the block. */
  method Relay(vtx: seq<Tx>, pool: seq<Entry>, extra: seq<Entry>, S: ShortId, useWtxid: bool,
               crowded: (seq<nat>, nat) -> bool, check: seq<Tx> -> bool) returns (status: Status, got: seq<Tx>)
    requires 0 < |vtx| <= 0x1_0000 && !vtx[0].isNull && check(vtx)
    requires NoCollision(vtx, S, useWtxid, pool + extra)
    requires !Crowds(ShortIds(vtx, S, useWtxid), crowded)
    ensures status == Ok && got == vtx
  {
    hide FreeUpTo, Found, Ones, AllFound, PoolMatch, NoCollision, Initialised, Matched;
    var c := MakeCompact(vtx, S, useWtxid);
    WellFormedBlock(c, vtx);
    var receiver := new PartiallyDownloadedBlock();
    ghost var base, table, np, ne;
    assert Distinct(c.short) by { CollisionFree(vtx, S, useWtxid, pool + extra); }
    status, base, table, np, ne := receiver.InitData(c, pool, extra, S, crowded);
    SlotsAgree(vtx, c, pool, extra, S, useWtxid, receiver.avail, receiver.mempoolCount, base, np, ne);
    var request := receiver.Request();
    var diffs := CodeIndexes(request);
    CodedIsRead(request, diffs);
    var read := ReadIndexes(diffs);
    assert read.Some?;
    CodedUnique(diffs, request, read.value);
    var missing := Answer(vtx, read.value);
    ghost var avail := receiver.avail;
    status, got := receiver.FillBlock(missing, check, false);
    Rebuilt(vtx, avail, got);
  }

  lemma CollisionFree(vtx: seq<Tx>, S: ShortId, useWtxid: bool, known: seq<Entry>)
    requires |vtx| > 0 && NoCollision(vtx, S, useWtxid, known)
    ensures Distinct(ShortIds(vtx, S, useWtxid))
  {
  }

  lemma WellFormedBlock(c: Compact, vtx: seq<Tx>)
    requires 0 < |vtx| <= 0x1_0000 && !vtx[0].isNull && !c.headerNull
    requires c.pre == [Prefilled(0, vtx[0])] && |c.short| == |vtx| - 1
    ensures WellFormed(c)
  {
    assert LastIndex(c.pre, 1) == LastIndex(c.pre, 0) + 0 + 1 == 0;
  }

  lemma CodedUnique(diffs: seq<nat>, a: seq<nat>, b: seq<nat>)
    requires IsRead(diffs, a) && IsRead(diffs, b)
    ensures a == b
  {
    assert diffs[..|a|] == diffs;
    ReadUnique(diffs, a, b, |a|);
    assert a[..|a|] == a && b[..|a|] == b;
  }

  /** The sender looks up the transactions that were asked for. */
  method Answer(vtx: seq<Tx>, indexes: seq<nat>) returns (missing: seq<Tx>)
    requires forall i :: 0 <= i < |indexes| ==> indexes[i] < |vtx|
    ensures missing == Missing(vtx, indexes)
  {
    missing := [];
    var i := 0;
    while i < |indexes|
      invariant 0 <= i <= |indexes| && |missing| == i && forall j :: 0 <= j < i ==> missing[j] == vtx[indexes[j]]
    {
      missing := missing + [vtx[indexes[i]]];
      i := i + 1;
    }
  }
}
