/** The tables of the address manager (src/addrman.h) as values, and the parts of the consistency
    check that the code itself states in CAddrMan::Check_. */
module AddrTables {

  datatype NetAddr = NetAddr(ip: nat)
  datatype Service = Service(net: NetAddr, port: nat)

  datatype Stats = Stats(time: int, services: nat, lastTry: int, lastCountAttempt: int, lastSuccess: int, attempts: nat)

  datatype AddrInfo = AddrInfo(addr: Service, source: NetAddr, stats: Stats, refCount: int, inTried: bool,
                               randomPos: int)

  const NEW_BUCKETS := 1024
  const TRIED_BUCKETS := 256
  const BUCKET_SIZE := 64
  const MAX_REFS := 8

  const TRIED_PER_GROUP := 8
  const NEW_PER_SOURCE := 64

  /** The group an address belongs to, and the keyed hashes that place it: of an address, of a number within a
      group, of two groups, and of an address within a bucket.  They are left uninterpreted. */
  datatype Hashes = Hashes(group: NetAddr -> nat, key: Service -> nat, share: (nat, nat) -> nat,
                           groups: (nat, nat) -> nat, from: (nat, nat) -> nat, pos: (Service, bool, nat) -> nat) {
    function TriedBucket(a: Service): (b: nat)
      ensures b < TRIED_BUCKETS
    {
      share(group(a.net), key(a) % TRIED_PER_GROUP) % TRIED_BUCKETS
    }

    function NewBucket(a: Service, source: NetAddr): (b: nat)
      ensures b < NEW_BUCKETS
    {
      from(group(source), groups(group(a.net), group(source)) % NEW_PER_SOURCE) % NEW_BUCKETS
    }

    function Pos(a: Service, fNew: bool, bucket: nat): (p: nat)
      ensures p < BUCKET_SIZE
    {
      pos(a, fNew, bucket) % BUCKET_SIZE
    }
  }

  type Table = seq<seq<int>>
  type Infos = map<int, AddrInfo>

  predicate Shape(t: Table, n: nat) {
    |t| == n && forall b :: 0 <= b < n ==> |t[b]| == BUCKET_SIZE
  }

  function At(t: Table, b: nat, p: nat): int {
    if b < |t| && p < |t[b]| then t[b][p] else -1
  }

  function Put(t: Table, b: nat, p: nat, x: int): (r: Table)
    requires b < |t| && p < |t[b]|
    ensures |r| == |t| && At(r, b, p) == x
    ensures forall b', p' :: (b' != b || p' != p) ==> At(r, b', p') == At(t, b', p')
    ensures forall n: nat :: Shape(t, n) ==> Shape(r, n)
  {
    t[b := t[b][p := x]]
  }

  // ---------- the invariant, part by part ----------

  /** vRandom and nRandomPos are inverse to each other. */
  ghost predicate RandomOk(m: Infos, v: seq<int>) {
    && (forall id :: id in m ==> 0 <= m[id].randomPos < |v| && v[m[id].randomPos] == id)
    && (forall i :: 0 <= i < |v| ==> v[i] in m && m[v[i]].randomPos == i)
  }

  /** mapAddr and mapInfo are inverse to each other. */
  ghost predicate AddrOk(m: Infos, ma: map<NetAddr, int>) {
    && (forall id :: id in m ==> m[id].addr.net in ma && ma[m[id].addr.net] == id)
    && (forall a :: a in ma ==> ma[a] in m && m[ma[a]].addr.net == a)
  }

  /** Every occupied slot of vvNew holds a known untried address, in the position it hashes to. */
  ghost predicate NewOk(h: Hashes, m: Infos, t: Table) {
    forall b: nat, p: nat :: At(t, b, p) != -1 ==>
      var id := At(t, b, p); id in m && !m[id].inTried && h.Pos(m[id].addr, true, b) == p
  }

  /** Every occupied slot of vvTried is the own slot of the tried address in it, and every tried
      address is in its slot. */
  ghost predicate TriedOk(h: Hashes, m: Infos, t: Table) {
    && (forall b: nat, p: nat :: At(t, b, p) != -1 ==> OwnSlot(h, m, At(t, b, p), b, p))
    && (forall id :: id in m && m[id].inTried ==>
        At(t, h.TriedBucket(m[id].addr), h.Pos(m[id].addr, false, h.TriedBucket(m[id].addr))) == id)
  }

  ghost predicate OwnSlot(h: Hashes, m: Infos, id: int, b: nat, p: nat) {
    id in m && m[id].inTried && h.TriedBucket(m[id].addr) == b && h.Pos(m[id].addr, false, b) == p
  }

  /** The new buckets an address sits in. */
  ghost function Buckets(h: Hashes, t: Table, a: Service, id: int): set<nat> {
    set b: nat | b < NEW_BUCKETS && At(t, b, h.Pos(a, true, b)) == id
  }

  /** nRefCount is the number of new buckets that hold the address. */
  ghost predicate RefOk(h: Hashes, m: Infos, t: Table) {
    forall id :: id in m ==> m[id].refCount == |Buckets(h, t, m[id].addr, id)|
  }

  /** Tried entries have no references; the others have 1 to 8, except those in transit. */
  ghost predicate RangeOk(m: Infos, transit: set<int>) {
    forall id :: id in m ==>
      if m[id].inTried then m[id].refCount == 0
      else 0 <= m[id].refCount <= MAX_REFS && (m[id].refCount == 0 ==> id in transit)
  }

  ghost predicate StatsOk(m: Infos) {
    forall id :: id in m ==>
      m[id].stats.lastTry >= 0 && m[id].stats.lastSuccess >= 0 && (m[id].inTried ==> m[id].stats.lastSuccess != 0)
  }

  ghost predicate IdsOk(m: Infos, idCount: int) {
    forall id :: id in m ==> 0 <= id < idCount
  }

  /** Sequence and map are in one-to-one correspondence. */
  lemma RandomSize(m: Infos, v: seq<int>)
    requires RandomOk(m, v)
    ensures |v| == |m.Keys|
  {
    assert forall i :: 0 <= i < |v| ==> m[v[i]].randomPos == i;
    DistinctSize(v);
    forall x ensures x in v <==> x in m {
      if x in m { assert v[m[x].randomPos] == x; }
    }
    assert (set x | x in v) == m.Keys;
  }

  lemma {:induction false} DistinctSize(v: seq<int>)
    requires forall i, j :: 0 <= i < j < |v| ==> v[i] != v[j]
    ensures |set x | x in v| == |v|
  {
    if v == [] {
    } else {
      var init, last := v[..|v| - 1], v[|v| - 1];
      DistinctSize(init);
      assert last !in init;
      assert (set x | x in v) == (set x | x in init) + {last};
    }
  }

  lemma BothTables(m: Infos)
    ensures |m.Keys| == |TriedIds(m)| + |NewIds(m)|
  {
    assert m.Keys == TriedIds(m) + NewIds(m) && TriedIds(m) !! NewIds(m);
  }

  ghost function NewIds(m: Infos): set<int> {
    set id | id in m && !m[id].inTried
  }

  ghost function TriedIds(m: Infos): set<int> {
    set id | id in m && m[id].inTried
  }

  // ---------- how a change of one entry touches the parts ----------

  /** Only the reference count, the tried flag or the statistics of one entry changed. */
  ghost predicate Retouched(m: Infos, m': Infos, id: int) {
    && id in m && m'.Keys == m.Keys
    && (forall x :: x in m && x != id ==> m'[x] == m[x])
    && m'[id].addr == m[id].addr && m'[id].randomPos == m[id].randomPos
  }

  lemma RetouchedRandom(m: Infos, m': Infos, id: int, v: seq<int>)
    requires Retouched(m, m', id) && RandomOk(m, v)
    ensures RandomOk(m', v)
  {
    forall x | x in m' ensures 0 <= m'[x].randomPos < |v| && v[m'[x].randomPos] == x {
      assert m'[x].randomPos == m[x].randomPos;
    }
    forall i | 0 <= i < |v| ensures v[i] in m' && m'[v[i]].randomPos == i {
      assert m'[v[i]].randomPos == m[v[i]].randomPos;
    }
  }

  lemma RetouchedAddr(m: Infos, m': Infos, id: int, ma: map<NetAddr, int>)
    requires Retouched(m, m', id) && AddrOk(m, ma)
    ensures AddrOk(m', ma)
  {
    assert forall x :: x in m ==> m'[x].addr == m[x].addr;
  }

  lemma RetouchedIds(m: Infos, m': Infos, id: int, n: int)
    requires Retouched(m, m', id) && IdsOk(m, n)
    ensures IdsOk(m', n)
  {
  }

  lemma RetouchedNew(h: Hashes, m: Infos, m': Infos, id: int, t: Table)
    requires Retouched(m, m', id) && NewOk(h, m, t)
    requires m'[id].inTried ==> forall b: nat, p: nat :: At(t, b, p) != id
    ensures NewOk(h, m', t)
  {
    assert forall x :: x in m ==> m'[x].addr == m[x].addr;
  }

  lemma RetouchedTried(h: Hashes, m: Infos, m': Infos, id: int, t: Table)
    requires Retouched(m, m', id) && TriedOk(h, m, t) && m'[id].inTried == m[id].inTried
    ensures TriedOk(h, m', t)
  {
    assert forall x :: x in m ==> m'[x].addr == m[x].addr && m'[x].inTried == m[x].inTried;
    forall b: nat, p: nat | At(t, b, p) != -1 ensures OwnSlot(h, m', At(t, b, p), b, p) {
      assert OwnSlot(h, m, At(t, b, p), b, p);
    }
  }

  lemma RetouchedRefs(h: Hashes, m: Infos, m': Infos, id: int, t: Table)
    requires Retouched(m, m', id) && RefOk(h, m, t) && m'[id].refCount == m[id].refCount
    ensures RefOk(h, m', t)
  {
    assert forall x :: x in m ==> m'[x].addr == m[x].addr && m'[x].refCount == m[x].refCount;
  }

  lemma RetouchedSets(m: Infos, m': Infos, id: int)
    requires Retouched(m, m', id)
    ensures m'[id].inTried == m[id].inTried ==> NewIds(m') == NewIds(m) && TriedIds(m') == TriedIds(m)
    ensures m'[id].inTried && !m[id].inTried ==> NewIds(m') == NewIds(m) - {id} && TriedIds(m') == TriedIds(m) + {id}
    ensures !m'[id].inTried && m[id].inTried ==> NewIds(m') == NewIds(m) + {id} && TriedIds(m') == TriedIds(m) - {id}
  {
    forall x ensures x in NewIds(m') <==> x in m && (if x == id then !m'[id].inTried else x in NewIds(m)) {
      assert x in m' <==> x in m;
    }
    forall x ensures x in TriedIds(m') <==> x in m && (if x == id then m'[id].inTried else x in TriedIds(m)) {
      assert x in m' <==> x in m;
    }
  }

  /** The cardinalities that go with RetouchedSets. */
  lemma RetouchedCounts(m: Infos, m': Infos, id: int)
    requires Retouched(m, m', id)
    ensures |TriedIds(m')| == |TriedIds(m)| + (if m'[id].inTried then 1 else 0) - (if m[id].inTried then 1 else 0)
    ensures |NewIds(m')| == |NewIds(m)| + (if m[id].inTried then 1 else 0) - (if m'[id].inTried then 1 else 0)
  {
    RetouchedSets(m, m', id);
  }

  // ---------- the reference count of one slot ----------

  /** Emptying a slot takes one bucket from the address in it, and none from any other. */
  lemma UnlinkBuckets(h: Hashes, t: Table, b: nat, p: nat, a: Service, id: int, x: int)
    requires Shape(t, NEW_BUCKETS) && b < NEW_BUCKETS && p < BUCKET_SIZE
    requires At(t, b, p) == id && id != -1 && x != -1
    requires x == id ==> h.Pos(a, true, b) == p
    ensures Buckets(h, Put(t, b, p, -1), a, x) == Buckets(h, t, a, x) - (if x == id then {b} else {})
    ensures x == id ==> b in Buckets(h, t, a, x)
  {
  }

  /** Filling an empty slot gives one bucket to the address put there, and none to any other. */
  lemma LinkBuckets(h: Hashes, t: Table, b: nat, p: nat, a: Service, id: int, x: int)
    requires Shape(t, NEW_BUCKETS) && b < NEW_BUCKETS && p < BUCKET_SIZE
    requires At(t, b, p) == -1 && id != -1 && x != -1
    requires x == id ==> h.Pos(a, true, b) == p
    ensures Buckets(h, Put(t, b, p, id), a, x) == Buckets(h, t, a, x) + (if x == id then {b} else {})
    ensures x == id ==> b !in Buckets(h, t, a, x)
  {
  }

  lemma UnlinkRefs(h: Hashes, m: Infos, m': Infos, t: Table, b: nat, p: nat, id: int, n: int)
    requires Shape(t, NEW_BUCKETS) && b < NEW_BUCKETS && p < BUCKET_SIZE
    requires NewOk(h, m, t) && RefOk(h, m, t) && IdsOk(m, n) && At(t, b, p) == id && id != -1
    requires Retouched(m, m', id) && m'[id].refCount == m[id].refCount - 1
    ensures RefOk(h, m', Put(t, b, p, -1)) && m[id].refCount > 0
  {
    forall x | x in m' ensures m'[x].refCount == |Buckets(h, Put(t, b, p, -1), m'[x].addr, x)| {
      assert m'[x].addr == m[x].addr && x != -1;
      assert x == id ==> h.Pos(m[x].addr, true, b) == p;
      UnlinkBuckets(h, t, b, p, m[x].addr, id, x);
    }
    UnlinkBuckets(h, t, b, p, m[id].addr, id, id);
    assert b in Buckets(h, t, m[id].addr, id);
  }

  lemma LinkRefs(h: Hashes, m: Infos, m': Infos, t: Table, b: nat, p: nat, id: int, n: int)
    requires Shape(t, NEW_BUCKETS) && b < NEW_BUCKETS && p < BUCKET_SIZE
    requires RefOk(h, m, t) && IdsOk(m, n) && At(t, b, p) == -1
    requires Retouched(m, m', id) && m'[id].refCount == m[id].refCount + 1
    requires h.Pos(m[id].addr, true, b) == p
    ensures RefOk(h, m', Put(t, b, p, id))
  {
    forall x | x in m' ensures m'[x].refCount == |Buckets(h, Put(t, b, p, id), m'[x].addr, x)| {
      assert m'[x].addr == m[x].addr && x != -1;
      LinkBuckets(h, t, b, p, m[x].addr, id, x);
    }
  }

  lemma UnlinkNew(h: Hashes, m: Infos, t: Table, b: nat, p: nat)
    requires b < |t| && p < |t[b]| && NewOk(h, m, t)
    ensures NewOk(h, m, Put(t, b, p, -1))
  {
  }

  lemma LinkNew(h: Hashes, m: Infos, t: Table, b: nat, p: nat, id: int)
    requires b < |t| && p < |t[b]| && NewOk(h, m, t)
    requires id in m && !m[id].inTried && h.Pos(m[id].addr, true, b) == p
    ensures NewOk(h, m, Put(t, b, p, id))
  {
  }

  /** An address without references is in no slot. */
  lemma NoRefsNoSlot(h: Hashes, m: Infos, t: Table, id: int)
    requires Shape(t, NEW_BUCKETS) && NewOk(h, m, t) && RefOk(h, m, t) && id in m && m[id].refCount == 0 && id != -1
    ensures forall b: nat, p: nat :: At(t, b, p) != id
  {
    var none := Buckets(h, t, m[id].addr, id);
    forall b: nat, p: nat ensures At(t, b, p) != id {
      assert At(t, b, p) == id ==> b in none;
    }
  }

  // ---------- adding and removing an entry ----------

  lemma AddedRandom(m: Infos, v: seq<int>, id: int, info: AddrInfo)
    requires RandomOk(m, v) && id !in m && info.randomPos == |v|
    ensures RandomOk(m[id := info], v + [id])
  {
  }

  lemma AddedAddr(m: Infos, ma: map<NetAddr, int>, id: int, info: AddrInfo)
    requires AddrOk(m, ma) && id !in m && info.addr.net !in ma
    ensures AddrOk(m[id := info], ma[info.addr.net := id])
  {
  }

  lemma AddedTables(h: Hashes, m: Infos, tn: Table, tt: Table, id: int, info: AddrInfo)
    requires NewOk(h, m, tn) && TriedOk(h, m, tt) && id !in m && !info.inTried
    ensures NewOk(h, m[id := info], tn) && TriedOk(h, m[id := info], tt)
  {
    forall b: nat, p: nat | At(tt, b, p) != -1 ensures OwnSlot(h, m[id := info], At(tt, b, p), b, p) {
      assert OwnSlot(h, m, At(tt, b, p), b, p);
    }
  }

  lemma AddedRefs(h: Hashes, m: Infos, t: Table, id: int, info: AddrInfo)
    requires NewOk(h, m, t) && RefOk(h, m, t) && id !in m && id != -1 && info.refCount == 0
    ensures RefOk(h, m[id := info], t)
  {
    assert Buckets(h, t, info.addr, id) == {};
  }

  lemma AddedSets(m: Infos, id: int, info: AddrInfo)
    requires id !in m && !info.inTried
    ensures NewIds(m[id := info]) == NewIds(m) + {id} && TriedIds(m[id := info]) == TriedIds(m)
    ensures id !in NewIds(m)
  {
  }

  /** The same address, with the same statistics and tried flag. */
  predicate Same(a: AddrInfo, b: AddrInfo) {
    a.addr == b.addr && a.source == b.source && a.stats == b.stats && a.inTried == b.inTried
  }

  /** Only positions in vRandom changed. */
  ghost predicate Shuffled(m: Infos, m': Infos) {
    m'.Keys == m.Keys && forall x :: x in m ==> m'[x] == m[x].(randomPos := m'[x].randomPos)
  }

  lemma ShuffledParts(h: Hashes, m: Infos, m': Infos, ma: map<NetAddr, int>, tn: Table, tt: Table, transit: set<int>,
                      n: int)
    requires Shuffled(m, m') && AddrOk(m, ma) && NewOk(h, m, tn) && TriedOk(h, m, tt) && RefOk(h, m, tn)
    requires RangeOk(m, transit) && StatsOk(m) && IdsOk(m, n)
    ensures AddrOk(m', ma) && NewOk(h, m', tn) && TriedOk(h, m', tt) && RefOk(h, m', tn)
    ensures RangeOk(m', transit) && StatsOk(m') && IdsOk(m', n)
    ensures NewIds(m') == NewIds(m) && TriedIds(m') == TriedIds(m)
  {
    assert forall x :: x in m <==> x in m';
    forall x ensures (x in NewIds(m') <==> x in NewIds(m)) && (x in TriedIds(m') <==> x in TriedIds(m)) {
      if x in m { assert m'[x].inTried == m[x].inTried; }
    }
    forall b: nat, p: nat | At(tt, b, p) != -1 ensures OwnSlot(h, m', At(tt, b, p), b, p) {
      assert OwnSlot(h, m, At(tt, b, p), b, p);
    }
  }

  lemma RandomFacts(m: Infos, v: seq<int>, id: int, i: nat)
    requires RandomOk(m, v)
    ensures id in m ==> 0 <= m[id].randomPos < |v| && v[m[id].randomPos] == id
    ensures i < |v| ==> v[i] in m && m[v[i]].randomPos == i
  {
  }

  lemma ShuffledMinus(m: Infos, m': Infos, id: int)
    requires Shuffled(m, m')
    ensures m'.Keys == m.Keys && Shuffled(m - {id}, m' - {id})
    ensures id in m ==> m'[id] == m[id].(randomPos := m'[id].randomPos)
  {
  }

  /** Dropping the last entry of vRandom, when it is untried and without references. */
  lemma RemovedParts(h: Hashes, m: Infos, v: seq<int>, ma: map<NetAddr, int>, tn: Table, tt: Table, id: int,
                     transit: set<int>, n: int)
    requires id in m && !m[id].inTried && m[id].refCount == 0 && |v| > 0 && m[id].randomPos == |v| - 1
    requires Shape(tn, NEW_BUCKETS) && RandomOk(m, v) && AddrOk(m, ma) && NewOk(h, m, tn)
    requires TriedOk(h, m, tt) && RefOk(h, m, tn)
    requires RangeOk(m, transit) && StatsOk(m) && IdsOk(m, n)
    ensures RandomOk(m - {id}, v[..|v| - 1]) && AddrOk(m - {id}, ma - {m[id].addr.net})
    ensures NewOk(h, m - {id}, tn) && TriedOk(h, m - {id}, tt) && RefOk(h, m - {id}, tn)
    ensures RangeOk(m - {id}, transit - {id}) && StatsOk(m - {id}) && IdsOk(m - {id}, n)
    ensures NewIds(m - {id}) == NewIds(m) - {id} && TriedIds(m - {id}) == TriedIds(m) && id in NewIds(m)
  {
    NoRefsNoSlot(h, m, tn, id);
    forall b: nat, p: nat | At(tt, b, p) != -1 ensures OwnSlot(h, m - {id}, At(tt, b, p), b, p) {
      assert OwnSlot(h, m, At(tt, b, p), b, p);
    }
  }

  // ---------- the whole invariant, apart from the counters ----------

  ghost predicate Parts(h: Hashes, m: Infos, v: seq<int>, ma: map<NetAddr, int>, tn: Table, tt: Table,
                        transit: set<int>, n: int) {
    && Shape(tn, NEW_BUCKETS) && Shape(tt, TRIED_BUCKETS)
    && RandomOk(m, v) && AddrOk(m, ma)
    && NewOk(h, m, tn) && TriedOk(h, m, tt) && RefOk(h, m, tn)
    && RangeOk(m, transit) && StatsOk(m) && IdsOk(m, n)
  }

  lemma StatsParts(h: Hashes, m: Infos, m': Infos, v: seq<int>, ma: map<NetAddr, int>, tn: Table, tt: Table,
                   transit: set<int>, n: int, id: int)
    requires Parts(h, m, v, ma, tn, tt, transit, n) && Retouched(m, m', id)
    requires m'[id].inTried == m[id].inTried && m'[id].refCount == m[id].refCount
    requires m'[id].stats.lastTry >= 0 && m'[id].stats.lastSuccess >= 0
    requires (m[id].inTried ==> m'[id].stats.lastSuccess != 0)
    ensures Parts(h, m', v, ma, tn, tt, transit, n)
  {
    hide RandomOk, AddrOk, NewOk, TriedOk, RefOk;
    RetouchedRandom(m, m', id, v);
    RetouchedAddr(m, m', id, ma);
    assert m'[id].inTried ==> forall b: nat, p: nat :: At(tn, b, p) != id by { TriedNotNew(h, m, tn, id); }
    RetouchedNew(h, m, m', id, tn);
    RetouchedTried(h, m, m', id, tt);
    RetouchedRefs(h, m, m', id, tn);
    RetouchedIds(m, m', id, n);
  }

  lemma TriedNotNew(h: Hashes, m: Infos, t: Table, id: int)
    requires NewOk(h, m, t) && id in m
    ensures m[id].inTried && id != -1 ==> forall b: nat, p: nat :: At(t, b, p) != id
  {
  }

  /** Taking an address out of a new slot leaves it in transit. */
  lemma UnlinkParts(h: Hashes, m: Infos, m': Infos, v: seq<int>, ma: map<NetAddr, int>, tn: Table, tt: Table,
                    transit: set<int>, n: int,
                    id: int, b: nat, p: nat)
    requires Parts(h, m, v, ma, tn, tt, transit, n) && b < NEW_BUCKETS && p < BUCKET_SIZE && At(tn, b, p) == id != -1
    requires id in m && m' == m[id := m[id].(refCount := m[id].refCount - 1)]
    ensures Parts(h, m', v, ma, Put(tn, b, p, -1), tt, transit + {id}, n)
    ensures m[id].refCount > 0 && !m[id].inTried
  {
    hide RandomOk, AddrOk, TriedOk, RefOk, StatsOk;
    RetouchedRandom(m, m', id, v);
    RetouchedAddr(m, m', id, ma);
    RetouchedNew(h, m, m', id, tn);
    UnlinkNew(h, m', tn, b, p);
    RetouchedTried(h, m, m', id, tt);
    UnlinkRefs(h, m, m', tn, b, p, id, n);
    RetouchedIds(m, m', id, n);
    assert StatsOk(m') by { RetouchedStats(m, m', id); }
  }

  lemma RetouchedStats(m: Infos, m': Infos, id: int)
    requires StatsOk(m) && Retouched(m, m', id) && m'[id].stats == m[id].stats
    requires m'[id].inTried ==> m[id].inTried || m[id].stats.lastSuccess != 0
    ensures StatsOk(m')
  {
  }

  /** Putting an address into an empty new slot ends its transit. */
  lemma LinkParts(h: Hashes, m: Infos, m': Infos, v: seq<int>, ma: map<NetAddr, int>, tn: Table, tt: Table,
                  transit: set<int>, n: int,
                  id: int, b: nat, p: nat)
    requires Parts(h, m, v, ma, tn, tt, transit, n) && b < NEW_BUCKETS && p < BUCKET_SIZE && At(tn, b, p) == -1
    requires id in m && m' == m[id := m[id].(refCount := m[id].refCount + 1)]
    requires !m[id].inTried && m[id].refCount < MAX_REFS && h.Pos(m[id].addr, true, b) == p
    ensures Parts(h, m', v, ma, Put(tn, b, p, id), tt, transit - {id}, n)
  {
    hide RandomOk, AddrOk, TriedOk, RefOk, StatsOk, NewOk;
    RetouchedRandom(m, m', id, v);
    RetouchedAddr(m, m', id, ma);
    RetouchedNew(h, m, m', id, tn);
    LinkNew(h, m', tn, b, p, id);
    RetouchedTried(h, m, m', id, tt);
    LinkRefs(h, m, m', tn, b, p, id, n);
    RetouchedIds(m, m', id, n);
    assert StatsOk(m') by { RetouchedStats(m, m', id); }
  }

  lemma EvictTried(h: Hashes, m: Infos, m': Infos, t: Table, id: int, b: nat, p: nat)
    requires Shape(t, TRIED_BUCKETS) && b < TRIED_BUCKETS && p < BUCKET_SIZE
    requires TriedOk(h, m, t) && id in m && m[id].inTried && At(t, b, p) == id != -1
    requires Retouched(m, m', id) && !m'[id].inTried
    ensures TriedOk(h, m', Put(t, b, p, -1))
  {
    var t' := Put(t, b, p, -1);
    assert OwnSlot(h, m, id, b, p);
    forall b': nat, p': nat | At(t', b', p') != -1 ensures OwnSlot(h, m', At(t', b', p'), b', p') {
      assert OwnSlot(h, m, At(t, b', p'), b', p');
    }
    forall x | x in m' && m'[x].inTried
      ensures At(t', h.TriedBucket(m'[x].addr), h.Pos(m'[x].addr, false, h.TriedBucket(m'[x].addr))) == x
    {
      assert x in m && m[x].inTried && x != id;
    }
  }

  lemma EnterTried(h: Hashes, m: Infos, m': Infos, t: Table, id: int, b: nat, p: nat)
    requires Shape(t, TRIED_BUCKETS) && b < TRIED_BUCKETS && p < BUCKET_SIZE
    requires TriedOk(h, m, t) && id in m && !m[id].inTried && At(t, b, p) == -1 && id != -1
    requires Retouched(m, m', id) && m'[id].inTried
    requires h.TriedBucket(m[id].addr) == b && h.Pos(m[id].addr, false, b) == p
    requires forall x :: x in m ==> x != -1
    ensures TriedOk(h, m', Put(t, b, p, id))
  {
    var t' := Put(t, b, p, id);
    forall b': nat, p': nat | At(t', b', p') != -1 ensures OwnSlot(h, m', At(t', b', p'), b', p') {
      if b' != b || p' != p { assert OwnSlot(h, m, At(t, b', p'), b', p'); }
    }
    forall x | x in m' && m'[x].inTried
      ensures At(t', h.TriedBucket(m'[x].addr), h.Pos(m'[x].addr, false, h.TriedBucket(m'[x].addr))) == x
    {
      if x != id { assert x in m && m[x].inTried && x != -1; }
    }
  }

  /** Taking an address out of the tried table leaves it in transit. */
  lemma EvictParts(h: Hashes, m: Infos, m': Infos, v: seq<int>, ma: map<NetAddr, int>, tn: Table, tt: Table,
                   transit: set<int>, n: int,
                   id: int, b: nat, p: nat)
    requires Parts(h, m, v, ma, tn, tt, transit, n) && b < TRIED_BUCKETS && p < BUCKET_SIZE && At(tt, b, p) == id != -1
    requires id in m && m[id].inTried && m' == m[id := m[id].(inTried := false)]
    ensures Parts(h, m', v, ma, tn, Put(tt, b, p, -1), transit + {id}, n)
    ensures m[id].refCount == 0
  {
    hide RandomOk, AddrOk, RefOk, StatsOk, NewOk, TriedOk;
    RetouchedRandom(m, m', id, v);
    RetouchedAddr(m, m', id, ma);
    RetouchedNew(h, m, m', id, tn);
    EvictTried(h, m, m', tt, id, b, p);
    RetouchedRefs(h, m, m', id, tn);
    RetouchedIds(m, m', id, n);
    assert StatsOk(m') by { RetouchedStats(m, m', id); }
  }

  /** Moving an address without references into its empty tried slot. */
  lemma EnterParts(h: Hashes, m: Infos, m': Infos, v: seq<int>, ma: map<NetAddr, int>, tn: Table, tt: Table,
                   transit: set<int>, n: int,
                   id: int, b: nat, p: nat)
    requires Parts(h, m, v, ma, tn, tt, transit, n) && b < TRIED_BUCKETS && p < BUCKET_SIZE && At(tt, b, p) == -1
    requires id in m && !m[id].inTried && m[id].refCount == 0 && m[id].stats.lastSuccess != 0
    requires m' == m[id := m[id].(inTried := true)]
    requires h.TriedBucket(m[id].addr) == b && h.Pos(m[id].addr, false, b) == p
    ensures Parts(h, m', v, ma, tn, Put(tt, b, p, id), transit - {id}, n)
  {
    hide RandomOk, AddrOk, RefOk, StatsOk, NewOk, TriedOk;
    RetouchedRandom(m, m', id, v);
    RetouchedAddr(m, m', id, ma);
    assert id != -1;
    NoRefsNoSlot(h, m, tn, id);
    RetouchedNew(h, m, m', id, tn);
    EnterTried(h, m, m', tt, id, b, p);
    RetouchedRefs(h, m, m', id, tn);
    RetouchedIds(m, m', id, n);
    assert StatsOk(m') by { RetouchedStats(m, m', id); }
  }

  /** A new address starts in transit, in no slot. */
  lemma AddedParts(h: Hashes, m: Infos, v: seq<int>, ma: map<NetAddr, int>, tn: Table, tt: Table, transit: set<int>,
                   n: int,
                   id: int, info: AddrInfo)
    requires Parts(h, m, v, ma, tn, tt, transit, n) && id == n >= 0 && info.addr.net !in ma
    requires info.refCount == 0 && !info.inTried && info.randomPos == |v|
    requires info.stats.lastTry == 0 && info.stats.lastSuccess == 0
    ensures Parts(h, m[id := info], v + [id], ma[info.addr.net := id], tn, tt, transit + {id}, n + 1)
    ensures id !in m
  {
    hide RandomOk, AddrOk, RefOk, NewOk, TriedOk;
    AddedRandom(m, v, id, info);
    AddedAddr(m, ma, id, info);
    AddedTables(h, m, tn, tt, id, info);
    AddedRefs(h, m, tn, id, info);
  }

  lemma DeletedParts(h: Hashes, m: Infos, v: seq<int>, ma: map<NetAddr, int>, tn: Table, tt: Table, transit: set<int>,
                     n: int, id: int)
    requires id in m && !m[id].inTried && m[id].refCount == 0 && |v| > 0 && m[id].randomPos == |v| - 1
    requires Parts(h, m, v, ma, tn, tt, transit, n)
    ensures Parts(h, m - {id}, v[..|v| - 1], ma - {m[id].addr.net}, tn, tt, transit - {id}, n)
    ensures NewIds(m - {id}) == NewIds(m) - {id} && TriedIds(m - {id}) == TriedIds(m) && id in NewIds(m)
  {
    hide RandomOk, AddrOk, RefOk, NewOk, TriedOk, RangeOk, StatsOk, IdsOk;
    RemovedParts(h, m, v, ma, tn, tt, id, transit, n);
  }

  lemma ShuffledAll(h: Hashes, m: Infos, m': Infos, v: seq<int>, v': seq<int>, ma: map<NetAddr, int>, tn: Table,
                    tt: Table, transit: set<int>, n: int)
    requires Shuffled(m, m') && Parts(h, m, v, ma, tn, tt, transit, n) && RandomOk(m', v')
    ensures Parts(h, m', v', ma, tn, tt, transit, n)
    ensures NewIds(m') == NewIds(m) && TriedIds(m') == TriedIds(m)
  {
    hide RandomOk, AddrOk, RefOk, NewOk, TriedOk, RangeOk, StatsOk, IdsOk;
    ShuffledParts(h, m, m', ma, tn, tt, transit, n);
  }
}

/** The address manager of src/addrman.cpp. */
module AddrMan {
  import Bits
  import opened AddrTables

  datatype Address = Address(service: Service, time: nat, services: nat)

  /** Whether the statistics of an entry are bad enough that it can be deleted. */
  predicate IsTerrible(s: Stats, now: int) {
    if s.lastTry != 0 && s.lastTry >= now - 60 then false
    else if s.time > now + 10 * 60 then true
    else if s.time == 0 || now - s.time > 30 * 24 * 60 * 60 then true
    else if s.lastSuccess == 0 && s.attempts >= 3 then true
    else now - s.lastSuccess > 7 * 24 * 60 * 60 && s.attempts >= 10
  }

  predicate TriedLately(s: Stats, now: int) { s.lastTry != 0 && s.lastTry >= now - 60 }

  predicate FromTheFuture(s: Stats, now: int) { s.time > now + 600 }

  predicate NotSeen(s: Stats, now: int) { s.time == 0 || s.time < now - 2592000 }

  predicate Failing(s: Stats, now: int) {
    (s.lastSuccess == 0 && s.attempts >= 3) || (s.lastSuccess < now - 604800 && s.attempts >= 10)
  }

  /** What was tried in the last minute is kept.  Anything else is terrible if its time is unknown, more than
      ten minutes ahead or thirty days past, or if it fails: three times without ever a success, or ten times
      with the last success more than a week ago. */
  lemma TerribleIff(s: Stats, now: int)
    ensures IsTerrible(s, now) <==>
      && !TriedLately(s, now) && (FromTheFuture(s, now) || NotSeen(s, now) || Failing(s, now))
  {
  }

  /** An address that was marked good is not terrible within a minute; nor later, while its time is within
      thirty days, before ten failures or a week. */
  lemma GoodIsFine(s: Stats, time: int, now: int, failures: nat, lastTry: int)
    requires 0 < time <= now && lastTry >= time
    requires now <= time + 60 || (0 < s.time <= now && now <= s.time + 2592000 &&
      (failures < 10 || now <= time + 604800))
    ensures !IsTerrible(s.(lastSuccess := time, lastTry := lastTry, attempts := failures), now)
  {
  }

  /** An entry after an attempt to connect to addr; a failure counts once per good connection to
      anyone. */
  function AfterAttempt(info: AddrInfo, addr: Service, countFailure: bool, time: int, lastGood: int): AddrInfo {
    var s := info.stats;
    if info.addr != addr then info
    else if countFailure && s.lastCountAttempt < lastGood
    then info.(stats := s.(lastTry := time, lastCountAttempt := time, attempts := s.attempts + 1))
    else info.(stats := s.(lastTry := time))
  }

  /** Between two addresses marked good, only the first failure counts; each sets the last try. */
  lemma FailureCountsOnce(info: AddrInfo, addr: Service, time: int, again: int, lastGood: int)
    requires info.addr == addr && lastGood <= time
    ensures var first := AfterAttempt(info, addr, true, time, lastGood);
      var second := AfterAttempt(first, addr, true, again, lastGood);
      && first.stats.attempts == info.stats.attempts + (if info.stats.lastCountAttempt < lastGood then 1 else 0)
      && second.stats.attempts == first.stats.attempts && second.stats.lastTry == again
      && first.stats.lastTry == time
  {
  }

  /** An entry after a connection to addr: its time is moved up in steps of twenty minutes. */
  function AfterConnect(info: AddrInfo, addr: Service, time: int): AddrInfo {
    if info.addr == addr && time - info.stats.time > 20 * 60 then info.(stats := info.stats.(time := time)) else info
  }

  /** So its time goes up by more than twenty minutes, or stays and is that close. */
  lemma ConnectSteps(info: AddrInfo, time: int)
    ensures var t := AfterConnect(info, info.addr, time).stats.time;
      if t == info.stats.time then time <= t + 1200 else t == time > info.stats.time + 1200
  {
  }

  /** The statistics after hearing of a known address again: its services are added, and its time is
      moved up only in large steps. */
  function Refreshed(s: Stats, addr: Address, penalty: int, now: int): Stats {
    var interval := if now - addr.time < 24 * 60 * 60 then 60 * 60 else 24 * 60 * 60;
    var time :=
      if addr.time != 0 && (s.time == 0 || s.time < addr.time - interval - penalty)
      then AtLeastZero(addr.time - penalty)
      else s.time;
    s.(time := time, services := Bits.Or(s.services, addr.services))
  }

  /** A known time goes up by more than an hour, or stays; it then is at most a day, and of an address
      that is online at most an hour, behind what was heard less the penalty. */
  lemma RefreshSteps(s: Stats, addr: Address, penalty: int, now: int)
    requires s.time > 0
    ensures var t := Refreshed(s, addr, penalty, now).time;
      && (t == s.time || t == addr.time - penalty > s.time + 3600)
      && (addr.time > 0 ==> t >= addr.time - penalty - 86400)
      && (addr.time > 0 && addr.time > now - 86400 ==> t >= addr.time - penalty - 3600)
    ensures forall k: nat :: Bits.Bit(Refreshed(s, addr, penalty, now).services, k) <==>
      Bits.Bit(s.services, k) || Bits.Bit(addr.services, k)
  {
    forall k: nat ensures Bits.Bit(Bits.Or(s.services, addr.services), k) <==>
        Bits.Bit(s.services, k) || Bits.Bit(addr.services, k)
    {
      Bits.BitOr(s.services, addr.services, k);
    }
  }

  /** Whether a refreshed entry may take another slot: there is news of it, it is untried, and it has
      room for a reference; with n references already, only if a draw among 2^n numbers is zero. */
  predicate Proceeds(info: AddrInfo, addr: Address, random: nat -> nat) {
    && addr.time != 0 && (info.stats.time == 0 || addr.time > info.stats.time)
    && !info.inTried && 0 <= info.refCount < MAX_REFS
    && (info.refCount == 0 || random(Bits.Pow2(info.refCount)) == 0)
  }

  /** An entry after its services were learnt from addr itself. */
  function AfterServices(info: AddrInfo, addr: Service, services: nat): AddrInfo {
    if info.addr == addr then info.(stats := info.stats.(services := services)) else info
  }

  function AtLeastZero(x: int): int {
    if x > 0 then x else 0
  }

  /** Whether what is in a slot gives way to an entry: nothing is there, or something terrible, or
      something with other references to an entry with none. */
  predicate Yields(m: Infos, there: int, id: int, now: int)
    requires id in m
  {
    there == -1 || (there in m && (IsTerrible(m[there].stats, now) || (m[there].refCount > 1 && m[id].refCount == 0)))
  }

  predicate TakesSlot(m: Infos, there: int, id: int, now: int)
    requires id in m
  {
    there == id || Yields(m, there, id, now)
  }

  /** That does not depend on the statistics of the entry itself. */
  lemma RefreshedYields(m: Infos, id: int, stats: Stats, there: int, now: int)
    requires id in m
    ensures var m' := m[id := m[id].(stats := stats)];
      && (TakesSlot(m', there, id, now) <==> TakesSlot(m, there, id, now))
      && forall x :: x != id ==> (GivesUp(m', x, there, now) <==> GivesUp(m, x, there, now))
  {
  }

  /** What is in the slot that a source sends an address to. */
  function SlotFor(h: Hashes, t: Table, addr: Service, source: NetAddr): int {
    var b := h.NewBucket(addr, source);
    At(t, b, h.Pos(addr, true, b))
  }

  /** A source sends an address to a slot, which now holds the entry; no other slot changed. */
  ghost predicate Filled(h: Hashes, t: Table, t': Table, addr: Service, source: NetAddr, id: int) {
    var b := h.NewBucket(addr, source);
    var p := h.Pos(addr, true, b);
    At(t', b, p) == id && forall b', p' :: (b' != b || p' != p) ==> At(t', b', p') == At(t, b', p')
  }

  /** Whether it gives way to an entry without references. */
  predicate GivesWay(m: Infos, there: int, now: int) {
    there == -1 || (there in m && (IsTerrible(m[there].stats, now) || m[there].refCount > 1))
  }

  /** An entry that loses its only slot. */
  predicate GivesUp(m: Infos, x: int, there: int, now: int) {
    x == there && x in m && m[x].refCount == 1 && IsTerrible(m[x].stats, now)
  }

  /** The address by which a service is known, with the port that was first heard of. */
  function KnownAs(m: Infos, ma: map<NetAddr, int>, addr: Service): Service {
    if addr.net in ma && ma[addr.net] in m then m[ma[addr.net]].addr else addr
  }

  /** The entry that disappears when a new slot with this content is cleared, or -1. */
  function GoneFor(m: Infos, there: int): int {
    if there in m && m[there].refCount == 1 then there else -1
  }

  /** The bucket and the position of the new slot that an entry's own source sends it to. */
  function HomeBucket(h: Hashes, info: AddrInfo): (b: nat)
    ensures b < NEW_BUCKETS
  {
    h.NewBucket(info.addr, info.source)
  }

  function HomePos(h: Hashes, info: AddrInfo): (p: nat)
    ensures p < BUCKET_SIZE
  {
    h.Pos(info.addr, true, HomeBucket(h, info))
  }

  /** No penalty on what a source says of itself. */
  function Penalty(addr: Address, source: NetAddr, timePenalty: int): int {
    if addr.service.net == source then 0 else timePenalty
  }

  // ---------- what each operation does ----------

  datatype State = State(infos: Infos, addrs: map<NetAddr, int>, random: seq<int>, unseen: Table, tried: Table,
                         idCount: int, nNew: int, nTried: int, lastGood: int)

  /** What CAddrMan::Check_ tests. */
  ghost predicate Consistent(h: Hashes, s: State) {
    && Parts(h, s.infos, s.random, s.addrs, s.unseen, s.tried, {}, s.idCount)
    && s.nTried == |TriedIds(s.infos)| && s.nNew == |NewIds(s.infos)| && s.idCount >= 0
  }

  /** Adding: nothing of what is tried changes, and only a terrible entry that loses its only slot
      disappears. */
  ghost predicate AddStep(h: Hashes, s: State, s': State, addr: Address, routable: bool, source: NetAddr,
                          timePenalty: int, now: int, random: nat -> nat)
  {
    && s'.tried == s.tried && TriedIds(s'.infos) == TriedIds(s.infos) && s'.lastGood == s.lastGood
    && (!routable ==> s'.infos == s.infos && s'.unseen == s.unseen)
    && (forall x :: x in s'.infos && x in s.infos && s'.infos[x].addr.net != addr.service.net ==>
        Same(s'.infos[x], s.infos[x]))
    && (var there := SlotFor(h, s.unseen, KnownAs(s.infos, s.addrs, addr.service), source);
        forall x :: x in s.infos && x !in s'.infos ==> routable && GivesUp(s.infos, x, there, now))
    && (routable && addr.service.net !in s.addrs ==> AddedNew(h, s, s', addr, source, timePenalty, now))
    && (!routable || addr.service.net in s.addrs ==> forall x :: x in s'.infos ==> x in s.infos)
    && (routable && addr.service.net in s.addrs ==> AddedKnown(h, s, s', addr, source, timePenalty, now, random))
  }

  /** An unknown address is stored if and only if what is in the slot of its source gives way. */
  ghost predicate AddedNew(h: Hashes, s: State, s': State, addr: Address, source: NetAddr, timePenalty: int,
                           now: int)
  {
    var stored := GivesWay(s.infos, SlotFor(h, s.unseen, addr.service, source), now);
    && ((exists x :: x in s'.infos && x !in s.infos) <==> stored)
    && (!stored ==> s'.unseen == s.unseen)
    && forall x :: x in s'.infos && x !in s.infos ==>
        && s'.infos[x].addr == addr.service && s'.infos[x].source == source
        && s'.infos[x].stats ==
          Stats(AtLeastZero(addr.time - Penalty(addr, source, timePenalty)), addr.services, 0, 0, 0, 0)
        && Filled(h, s.unseen, s'.unseen, addr.service, source, x)
  }

  /** What a source says of itself is taken at its word; of anything else the time is put back. */
  lemma SelfAnnounced(h: Hashes, s: State, s': State, addr: Address, source: NetAddr, timePenalty: int, now: int,
                      x: int)
    requires AddedNew(h, s, s', addr, source, timePenalty, now) && x in s'.infos && x !in s.infos
    ensures addr.service.net == source ==> s'.infos[x].stats.time == addr.time
    ensures addr.service.net != source ==>
      s'.infos[x].stats.time == if addr.time <= timePenalty then 0 else addr.time - timePenalty
  {
    hide Filled, GivesWay, SlotFor;
  }

  /** A known address is refreshed, and takes the slot of its source if and only if it may go on to
      another one and what is there yields. */
  ghost predicate AddedKnown(h: Hashes, s: State, s': State, addr: Address, source: NetAddr, timePenalty: int,
                             now: int, random: nat -> nat)
  {
    && addr.service.net in s.addrs && s.addrs[addr.service.net] in s.infos
    && var id := s.addrs[addr.service.net];
    && id in s'.infos
    && var was := s.infos[id];
    && Same(s'.infos[id], was.(stats := Refreshed(was.stats, addr, Penalty(addr, source, timePenalty), now)))
    && if Proceeds(was.(stats := s'.infos[id].stats), addr, random)
          && TakesSlot(s.infos, SlotFor(h, s.unseen, was.addr, source), id, now)
       then Filled(h, s.unseen, s'.unseen, was.addr, source, id) else s'.unseen == s.unseen
  }

  /** Marking good: exactly a known service with that port becomes tried. */
  ghost predicate GoodStep(h: Hashes, s: State, s': State, addr: Service, time: int) {
    && s'.lastGood == time
    && if addr.net in s.addrs && s.addrs[addr.net] in s.infos && s.infos[s.addrs[addr.net]].addr == addr
       then MarkedGood(h, s, s', s.addrs[addr.net], time)
       else s'.infos == s.infos && s'.unseen == s.unseen && s'.tried == s.tried
  }

  ghost predicate MarkedGood(h: Hashes, s: State, s': State, id: int, time: int)
    requires id in s.infos
  {
    var stats := s.infos[id].stats.(lastSuccess := time, lastTry := time, attempts := 0);
    && id in s'.infos && Same(s'.infos[id], s.infos[id].(stats := stats, inTried := true))
    && if s.infos[id].inTried
       then s'.infos == s.infos[id := s.infos[id].(stats := stats)] && s'.unseen == s.unseen && s'.tried == s.tried
       else exists evicted, gone ::
         MadeTried(h, s.infos, s'.infos, id, s.unseen, s'.unseen, s.tried, s'.tried, evicted, gone)
  }

  /** Nothing but the entries changes, and none appears or disappears. */
  ghost predicate SameTables(s: State, s': State) {
    s' == s.(infos := s'.infos) && s'.infos.Keys == s.infos.Keys
  }

  ghost predicate Step(h: Hashes, op: Op, s: State, s': State) {
    match op
    case AddOp(addr, routable, source, penalty, now, random) =>
      AddStep(h, s, s', addr, routable, source, penalty, now, random)
    case GoodOp(service, time) => GoodStep(h, s, s', service, time)
    case AttemptOp(service, countFailure, time) =>
      && SameTables(s, s')
      && forall x :: x in s.infos ==> s'.infos[x] == AfterAttempt(s.infos[x], service, countFailure, time, s.lastGood)
    case ConnectedOp(service, time) =>
      SameTables(s, s') && forall x :: x in s.infos ==> s'.infos[x] == AfterConnect(s.infos[x], service, time)
    case SetServicesOp(service, services) =>
      SameTables(s, s') && forall x :: x in s.infos ==> s'.infos[x] == AfterServices(s.infos[x], service, services)
    case GetAddrOp(_) => s' == s.(infos := s'.infos, random := s'.random) && Shuffled(s.infos, s'.infos)
  }

  /** The states that a sequence of calls goes through. */
  ghost predicate IsRun(h: Hashes, ops: seq<Op>, trace: seq<State>) {
    && |trace| == |ops| + 1 && (forall i :: 0 <= i < |trace| ==> Consistent(h, trace[i]))
    && forall i :: 0 <= i < |ops| ==> Step(h, ops[i], trace[i], trace[i + 1])
  }

  /** Nothing but marking an address good changes what is tried. */
  lemma OnlyGoodTries(h: Hashes, op: Op, s: State, s': State)
    requires Step(h, op, s, s') && Consistent(h, s) && !op.GoodOp?
    ensures s'.tried == s.tried && TriedIds(s'.infos) == TriedIds(s.infos)
  {
    hide Parts, AddedNew, AddedKnown, GivesUp;
    if !op.AddOp? { KeptTried(s.infos, s'.infos); }
  }

  /** Nor does it make them fewer: what is displaced makes room for one. */
  lemma GoodKeepsCount(h: Hashes, s: State, s': State, addr: Service, time: int)
    requires GoodStep(h, s, s', addr, time)
    ensures |TriedIds(s'.infos)| >= |TriedIds(s.infos)|
  {
    hide TriedMove, NewMove;
    if addr.net in s.addrs && s.addrs[addr.net] in s.infos && s.infos[s.addrs[addr.net]].addr == addr {
      var id := s.addrs[addr.net];
      if s.infos[id].inTried {
        KeptTried(s.infos, s'.infos);
      } else {
        var evicted, gone :|
          MadeTried(h, s.infos, s'.infos, id, s.unseen, s'.unseen, s.tried, s'.tried, evicted, gone);
        assert id !in TriedIds(s.infos);
      }
    }
  }

  /** Over any run the tried entries never become fewer, and while no address is marked good they stay the
      same, in the same slots. */
  lemma {:induction false} TriedOverRun(h: Hashes, ops: seq<Op>, trace: seq<State>, i: nat, j: nat)
    requires IsRun(h, ops, trace) && i <= j <= |ops|
    ensures |TriedIds(trace[i].infos)| <= |TriedIds(trace[j].infos)|
    ensures (forall k :: i <= k < j ==> !ops[k].GoodOp?) ==>
      trace[j].tried == trace[i].tried && TriedIds(trace[j].infos) == TriedIds(trace[i].infos)
  {
    hide Consistent, Step, TriedIds;
    if i == j {
    } else {
      TriedOverRun(h, ops, trace, i, j - 1);
      var op, s, s' := ops[j - 1], trace[j - 1], trace[j];
      assert Step(h, op, s, s') && Consistent(h, s);
      if op.GoodOp? {
        assert GoodStep(h, s, s', op.service, op.time) by { StepIsGood(h, op, s, s'); }
        GoodKeepsCount(h, s, s', op.service, op.time);
      } else {
        OnlyGoodTries(h, op, s, s');
      }
    }
  }

  lemma StepIsGood(h: Hashes, op: Op, s: State, s': State)
    requires Step(h, op, s, s') && op.GoodOp?
    ensures GoodStep(h, s, s', op.service, op.time)
  {
  }

  /** Where a group's share of the tried table has an address: one of 8 buckets, and a place there. */
  function Share(h: Hashes, a: Service): (k: nat)
    ensures k < 512
  {
    h.key(a) % TRIED_PER_GROUP * BUCKET_SIZE + h.Pos(a, false, h.TriedBucket(a))
  }

  /** However many addresses of one group are marked good, no more than 512 are tried at a time. */
  lemma TriedShare(h: Hashes, s: State, g: nat)
    requires Consistent(h, s)
    ensures |set id | id in TriedIds(s.infos) && h.group(s.infos[id].addr.net) == g| <= 512
  {
    hide RandomOk, AddrOk, NewOk, RefOk, RangeOk, StatsOk, IdsOk, NewIds;
    var ids := set id | id in TriedIds(s.infos) && h.group(s.infos[id].addr.net) == g;
    var m := map id | id in ids :: Share(h, s.infos[id].addr);
    forall x, y | x in m && y in m && m[x] == m[y] ensures x == y {
      SameShare(h, s.infos[x].addr, s.infos[y].addr);
    }
    Injected(m, 512);
    assert m.Keys == ids;
  }

  lemma SameShare(h: Hashes, a: Service, b: Service)
    requires h.group(a.net) == h.group(b.net) && Share(h, a) == Share(h, b)
    ensures h.TriedBucket(a) == h.TriedBucket(b)
    ensures h.Pos(a, false, h.TriedBucket(a)) == h.Pos(b, false, h.TriedBucket(b))
  {
    assert Share(h, a) / BUCKET_SIZE == h.key(a) % TRIED_PER_GROUP;
    assert Share(h, b) / BUCKET_SIZE == h.key(b) % TRIED_PER_GROUP;
  }

  lemma {:induction false} Injected<T>(m: map<T, nat>, n: nat)
    requires forall x :: x in m ==> m[x] < n
    requires forall x, y :: x in m && y in m && m[x] == m[y] ==> x == y
    ensures |m.Keys| <= n
  {
    if m.Keys == {} {
    } else {
      var y :| y in m.Keys;
      assert 0 <= m[y] < n;
      if x :| x in m && m[x] == n - 1 {
        Injected(m - {x}, n - 1);
        assert (m - {x}).Keys == m.Keys - {x};
      } else {
        Injected(m, n - 1);
      }
    }
  }

  /** What one group of sources says lands in at most 64 new buckets. */
  lemma NewShare(h: Hashes, g: nat) returns (buckets: seq<nat>)
    ensures |buckets| == 64
    ensures forall a: Service, source: NetAddr :: h.group(source) == g ==> h.NewBucket(a, source) in buckets
  {
    buckets := seq(64, k requires 0 <= k < 64 => h.from(g, k) % NEW_BUCKETS);
    forall a: Service, source: NetAddr | h.group(source) == g ensures h.NewBucket(a, source) in buckets {
      var k := h.groups(h.group(a.net), g) % NEW_PER_SOURCE;
      assert buckets[k] == h.from(g, k) % NEW_BUCKETS;
    }
  }

  class Manager {
    const h: Hashes
    var idCount: int
    var mapInfo: Infos
    var mapAddr: map<NetAddr, int>
    var vRandom: seq<int>
    var nTried: int
    var vvTried: Table
    var nNew: int
    var vvNew: Table
    var lastGood: int

    /** The invariant with some entries in transit between the tables, and nNew off by `skew`. */
    ghost predicate Core(transit: set<int>, skew: int)
      reads this
    {
      && Parts(h, mapInfo, vRandom, mapAddr, vvNew, vvTried, transit, idCount)
      && nTried == |TriedIds(mapInfo)| && nNew + skew == |NewIds(mapInfo)| && idCount >= 0
    }

    /** What CAddrMan::Check_ tests. */
    ghost predicate Valid()
      reads this
    {
      Core({}, 0)
    }

    ghost function Now(): State
      reads this
    {
      State(mapInfo, mapAddr, vRandom, vvNew, vvTried, idCount, nNew, nTried, lastGood)
    }

    /** Every known address is in vRandom once, so that its length is that of both tables together. */
    lemma RandomIsAll()
      requires Valid()
      ensures |vRandom| == nTried + nNew
    {
      hide AddrOk, NewOk, TriedOk, RefOk, RangeOk, StatsOk, IdsOk;
      RandomSize(mapInfo, vRandom);
      BothTables(mapInfo);
    }

    constructor (h: Hashes)
      ensures Valid() && mapInfo == map[] && this.h == h && lastGood == 1
    {
      this.h := h;
      idCount, nTried, nNew, lastGood := 0, 0, 0, 1;
      mapInfo, mapAddr, vRandom := map[], map[], [];
      vvNew := seq(NEW_BUCKETS, _ => seq(BUCKET_SIZE, _ => -1));
      vvTried := seq(TRIED_BUCKETS, _ => seq(BUCKET_SIZE, _ => -1));
    }

    /** Exchanges two places of vRandom. */
    method SwapRandom(i: nat, j: nat)
      requires RandomOk(mapInfo, vRandom) && i < |vRandom| && j < |vRandom|
      modifies this`mapInfo, this`vRandom
      ensures RandomOk(mapInfo, vRandom) && Shuffled(old(mapInfo), mapInfo)
      ensures vRandom == old(vRandom)[i := old(vRandom)[j]][j := old(vRandom)[i]]
    {
      if i == j {
        return;
      }
      var id1, id2 := vRandom[i], vRandom[j];
      mapInfo := mapInfo[id1 := mapInfo[id1].(randomPos := j)];
      mapInfo := mapInfo[id2 := mapInfo[id2].(randomPos := i)];
      vRandom := vRandom[i := id2][j := id1];
    }

    /** Removes an entry that is untried and without references. */
    method Delete(id: int, ghost transit: set<int>, ghost skew: int)
      requires Core(transit, skew) && id in mapInfo && !mapInfo[id].inTried && mapInfo[id].refCount == 0
      modifies this`mapInfo, this`vRandom, this`mapAddr, this`nNew
      ensures Core(transit - {id}, skew)
      ensures Shuffled(old(mapInfo) - {id}, mapInfo)
    {
      hide RandomOk, AddrOk, NewOk, TriedOk, RefOk, RangeOk, StatsOk, IdsOk, Shape, NewIds, TriedIds, Shuffled;
      RandomFacts(mapInfo, vRandom, id, 0);
      var last := |vRandom| - 1;
      SwapRandom(mapInfo[id].randomPos, last);
      ShuffledAll(h, old(mapInfo), mapInfo, old(vRandom), vRandom, mapAddr, vvNew, vvTried, transit, idCount);
      ShuffledMinus(old(mapInfo), mapInfo, id);
      RandomFacts(mapInfo, vRandom, id, last);
      DeletedParts(h, mapInfo, vRandom, mapAddr, vvNew, vvTried, transit, idCount, id);
      vRandom := vRandom[..last];
      mapAddr := mapAddr - {mapInfo[id].addr.net};
      mapInfo := mapInfo - {id};
      nNew := nNew - 1;
    }

    /** Takes the entry of a new slot out of it. */
    method Unlink(b: nat, p: nat, ghost transit: set<int>, ghost skew: int)
      requires Core(transit, skew) && b < NEW_BUCKETS && p < BUCKET_SIZE && At(vvNew, b, p) != -1
      modifies this`mapInfo, this`vvNew
      ensures Core(transit + {At(old(vvNew), b, p)}, skew)
      ensures vvNew == Put(old(vvNew), b, p, -1)
      ensures var id := At(old(vvNew), b, p);
        && id in old(mapInfo) && !old(mapInfo)[id].inTried && old(mapInfo)[id].refCount > 0
        && mapInfo == old(mapInfo)[id := old(mapInfo)[id].(refCount := old(mapInfo)[id].refCount - 1)]
    {
      hide RandomOk, AddrOk, TriedOk, RefOk, RangeOk, StatsOk, IdsOk, NewIds, TriedIds;
      var id := At(vvNew, b, p);
      ghost var m' := mapInfo[id := mapInfo[id].(refCount := mapInfo[id].refCount - 1)];
      UnlinkParts(h, mapInfo, m', vRandom, mapAddr, vvNew, vvTried, transit, idCount, id, b, p);
      RetouchedSets(mapInfo, m', id);
      mapInfo := mapInfo[id := mapInfo[id].(refCount := mapInfo[id].refCount - 1)];
      vvNew := Put(vvNew, b, p, -1);
    }

    /** Empties a new slot; an entry that loses its last reference is deleted. */
    method ClearNew(b: nat, p: nat, ghost transit: set<int>, ghost skew: int)
      requires Core(transit, skew) && b < NEW_BUCKETS && p < BUCKET_SIZE
      requires At(vvNew, b, p) !in transit
      modifies this`mapInfo, this`vRandom, this`mapAddr, this`nNew, this`vvNew
      ensures Core(transit, skew)
      ensures At(vvNew, b, p) == -1
      ensures forall b', p' :: (b' != b || p' != p) ==> At(vvNew, b', p') == At(old(vvNew), b', p')
      ensures mapInfo.Keys == old(mapInfo).Keys - {GoneFor(old(mapInfo), At(old(vvNew), b, p))}
      ensures forall id :: id in old(mapInfo) && id != At(old(vvNew), b, p) ==>
        id in mapInfo && mapInfo[id] == old(mapInfo)[id].(randomPos := mapInfo[id].randomPos)
      ensures forall id :: id in mapInfo ==> Same(mapInfo[id], old(mapInfo)[id])
    {
      hide RandomOk, AddrOk, NewOk, TriedOk, RefOk, StatsOk, IdsOk, NewIds, TriedIds;
      NoMinusOne(transit, skew);
      if At(vvNew, b, p) != -1 {
        var id := At(vvNew, b, p);
        Unlink(b, p, transit, skew);
        if mapInfo[id].refCount == 0 {
          Delete(id, transit + {id}, skew);
          assert transit + {id} - {id} == transit;
        }
      }
    }

    /** Puts an untried entry into an empty new slot. */
    method Link(b: nat, p: nat, id: int, ghost transit: set<int>, ghost skew: int)
      requires Core(transit, skew) && b < NEW_BUCKETS && p < BUCKET_SIZE && At(vvNew, b, p) == -1
      requires id in mapInfo && !mapInfo[id].inTried && mapInfo[id].refCount < MAX_REFS
      requires h.Pos(mapInfo[id].addr, true, b) == p
      modifies this`mapInfo, this`vvNew
      ensures Core(transit - {id}, skew) && vvNew == Put(old(vvNew), b, p, id)
      ensures mapInfo == old(mapInfo)[id := old(mapInfo)[id].(refCount := old(mapInfo)[id].refCount + 1)]
    {
      hide RandomOk, AddrOk, NewOk, TriedOk, RefOk, RangeOk, StatsOk, IdsOk, NewIds, TriedIds;
      ghost var m' := mapInfo[id := mapInfo[id].(refCount := mapInfo[id].refCount + 1)];
      LinkParts(h, mapInfo, m', vRandom, mapAddr, vvNew, vvTried, transit, idCount, id, b, p);
      RetouchedSets(mapInfo, m', id);
      mapInfo := mapInfo[id := mapInfo[id].(refCount := mapInfo[id].refCount + 1)];
      vvNew := Put(vvNew, b, p, id);
    }

    /** Takes the entry of a tried slot out of the tried set. */
    method Evict(b: nat, p: nat, ghost transit: set<int>, ghost skew: int) returns (id: int)
      requires Core(transit, skew) && b < TRIED_BUCKETS && p < BUCKET_SIZE && At(vvTried, b, p) != -1
      modifies this`mapInfo, this`vvTried, this`nTried
      ensures id == At(old(vvTried), b, p) && vvTried == Put(old(vvTried), b, p, -1)
      ensures Core(transit + {id}, skew + 1)
      ensures id in old(mapInfo) && old(mapInfo)[id].inTried && old(mapInfo)[id].refCount == 0
      ensures mapInfo == old(mapInfo)[id := old(mapInfo)[id].(inTried := false)]
    {
      hide RandomOk, AddrOk, NewOk, RefOk, RangeOk, StatsOk, IdsOk, NewIds, TriedIds;
      id := At(vvTried, b, p);
      assert OwnSlot(h, mapInfo, id, b, p);
      ghost var m' := mapInfo[id := mapInfo[id].(inTried := false)];
      EvictParts(h, mapInfo, m', vRandom, mapAddr, vvNew, vvTried, transit, idCount, id, b, p);
      RetouchedCounts(mapInfo, m', id);
      mapInfo := mapInfo[id := mapInfo[id].(inTried := false)];
      vvTried := Put(vvTried, b, p, -1);
      nTried := nTried - 1;
    }

    /** Moves an entry in transit into its empty tried slot. */
    method EnterSlot(b: nat, p: nat, id: int, ghost transit: set<int>, ghost skew: int)
      requires Core(transit, skew) && b < TRIED_BUCKETS && p < BUCKET_SIZE && At(vvTried, b, p) == -1
      requires id in mapInfo && !mapInfo[id].inTried && mapInfo[id].refCount == 0 && mapInfo[id].stats.lastSuccess != 0
      requires h.TriedBucket(mapInfo[id].addr) == b && h.Pos(mapInfo[id].addr, false, b) == p
      modifies this`mapInfo, this`vvTried, this`nTried
      ensures Core(transit - {id}, skew - 1)
      ensures mapInfo == old(mapInfo)[id := old(mapInfo)[id].(inTried := true)]
      ensures vvTried == Put(old(vvTried), b, p, id)
    {
      hide RandomOk, AddrOk, NewOk, TriedOk, RefOk, RangeOk, StatsOk, IdsOk, NewIds, TriedIds;
      ghost var m' := mapInfo[id := mapInfo[id].(inTried := true)];
      EnterParts(h, mapInfo, m', vRandom, mapAddr, vvNew, vvTried, transit, idCount, id, b, p);
      RetouchedCounts(mapInfo, m', id);
      vvTried := Put(vvTried, b, p, id);
      nTried := nTried + 1;
      mapInfo := mapInfo[id := mapInfo[id].(inTried := true)];
    }

    /** The first loop of MakeTried: the entry leaves all new buckets. */
    method LeaveNewBuckets(id: int)
      requires Valid() && id in mapInfo && !mapInfo[id].inTried
      modifies this`mapInfo, this`vvNew
      ensures Core({id}, 0)
      ensures mapInfo == old(mapInfo)[id := old(mapInfo)[id].(refCount := 0)]
      ensures forall b: nat, p: nat :: At(vvNew, b, p) == Without(old(vvNew), id, b, p)
    {
      hide RandomOk, AddrOk, NewOk, TriedOk, RefOk, StatsOk, NewIds, TriedIds;
      var addr := mapInfo[id].addr;
      for bucket := 0 to NEW_BUCKETS
        invariant Core({id}, 0)
        invariant id in mapInfo && mapInfo == old(mapInfo)[id := old(mapInfo)[id].(refCount := mapInfo[id].refCount)]
        invariant forall b: nat :: b < bucket ==> At(vvNew, b, h.Pos(addr, true, b)) != id
        invariant forall b: nat, p: nat ::
          At(vvNew, b, p) == At(old(vvNew), b, p) || LeftBy(id, old(vvNew), vvNew, b, p)
      {
        var pos := h.Pos(addr, true, bucket);
        if At(vvNew, bucket, pos) == id {
          Unlink(bucket, pos, {id}, 0);
          assert {id} + {id} == {id};
        }
      }
      NoBuckets(h, mapInfo, vvNew, id);
      forall b: nat, p: nat ensures At(vvNew, b, p) != id { UnreferencedElsewhere(id, b, p, {id}, 0); }
    }

    /** An entry without references holds no new slot. */
    lemma UnreferencedElsewhere(id: int, b: nat, p: nat, transit: set<int>, skew: int)
      requires Core(transit, skew) && id in mapInfo && mapInfo[id].refCount == 0
      ensures At(vvNew, b, p) != id
    {
      hide RandomOk, AddrOk, NewOk, TriedOk, RefOk, RangeOk, StatsOk, NewIds, TriedIds;
      NoRefsNoSlot(h, mapInfo, vvNew, id);
    }

    /** Makes room in a tried slot: its entry goes back to a new slot, deleting what is there. */
    method Demote(b: nat, p: nat, id: int) returns (evicted: int, ghost gone: int)
      requires Core({id}, 1) && b < TRIED_BUCKETS && p < BUCKET_SIZE && At(vvTried, b, p) != -1
      requires id in mapInfo && !mapInfo[id].inTried && mapInfo[id].refCount == 0
      modifies this
      ensures Core({id}, 1) && At(vvTried, b, p) == -1 && lastGood == old(lastGood)
      ensures evicted == At(old(vvTried), b, p) && evicted in TriedIds(old(mapInfo))
      ensures gone != id && gone != evicted && gone !in TriedIds(old(mapInfo))
      ensures mapInfo.Keys == old(mapInfo).Keys - {gone}
      ensures forall x :: x in mapInfo && x != evicted ==> Same(mapInfo[x], old(mapInfo)[x])
      ensures id in mapInfo && mapInfo[id].refCount == 0
      ensures evicted in mapInfo && Same(mapInfo[evicted], old(mapInfo)[evicted].(inTried := false))
      ensures vvTried == Put(old(vvTried), b, p, -1)
      ensures Rehomed(h, old(mapInfo), old(vvNew), vvNew, evicted, gone)
    {
      hide RandomOk, AddrOk, NewOk, TriedOk, RefOk, RangeOk, StatsOk, IdsOk, NewIds;
      NoMinusOne({id}, 1);
      evicted := Evict(b, p, {id}, 1);
      var info := mapInfo[evicted];
      var ub := h.NewBucket(info.addr, info.source);
      var up := h.Pos(info.addr, true, ub);
      gone := ClearFor(ub, up, id, evicted);
      Link(ub, up, evicted, {id, evicted}, 2);
      assert {id, evicted} - {evicted} == {id};
      nNew := nNew + 1;
    }

    /** ClearNew while two entries are in transit: neither of them is in the slot. */
    method ClearFor(b: nat, p: nat, id1: int, id2: int) returns (ghost gone: int)
      requires Core({id1} + {id2}, 2) && b < NEW_BUCKETS && p < BUCKET_SIZE
      requires id1 in mapInfo && mapInfo[id1].refCount == 0
      requires id2 in mapInfo && mapInfo[id2].refCount == 0
      modifies this`mapInfo, this`vRandom, this`mapAddr, this`nNew, this`vvNew
      ensures Core({id1, id2}, 2) && At(vvNew, b, p) == -1
      ensures gone != id1 && gone != id2 && (gone in old(mapInfo) ==> !old(mapInfo)[gone].inTried)
      ensures mapInfo.Keys == old(mapInfo).Keys - {gone}
      ensures forall x :: x in mapInfo ==> Same(mapInfo[x], old(mapInfo)[x])
      ensures mapInfo[id1].refCount == 0 && mapInfo[id2].refCount == 0
      ensures gone == GoneFor(old(mapInfo), At(old(vvNew), b, p))
      ensures Shape(vvNew, NEW_BUCKETS) && vvTried == old(vvTried)
      ensures forall b', p' :: (b' != b || p' != p) ==> At(vvNew, b', p') == At(old(vvNew), b', p')
    {
      hide RandomOk, AddrOk, NewOk, TriedOk, RefOk, RangeOk, StatsOk, IdsOk, NewIds, TriedIds;
      UnreferencedElsewhere(id1, b, p, {id1} + {id2}, 2);
      UnreferencedElsewhere(id2, b, p, {id1} + {id2}, 2);
      NoMinusOne({id1} + {id2}, 2);
      SlotOwnerUntried(b, p, {id1} + {id2}, 2);
      assert {id1} + {id2} == {id1, id2};
      ClearNew(b, p, {id1, id2}, 2);
      gone := GoneFor(old(mapInfo), At(old(vvNew), b, p));
    }

    lemma NoMinusOne(transit: set<int>, skew: int)
      requires Core(transit, skew)
      ensures -1 !in mapInfo
    {
    }

    lemma TriedShape(transit: set<int>, skew: int)
      requires Core(transit, skew)
      ensures Shape(vvTried, TRIED_BUCKETS)
    {
    }

    lemma SlotOwnerUntried(b: nat, p: nat, transit: set<int>, skew: int)
      requires Core(transit, skew)
      ensures At(vvNew, b, p) != -1 ==> At(vvNew, b, p) in mapInfo && !mapInfo[At(vvNew, b, p)].inTried
    {
    }

    /** Demote, if the tried slot is occupied at all. */
    method MakeRoom(b: nat, p: nat, id: int) returns (ghost evicted: int, ghost gone: int)
      requires Core({id}, 1) && b < TRIED_BUCKETS && p < BUCKET_SIZE
      requires id in mapInfo && !mapInfo[id].inTried && mapInfo[id].refCount == 0
      modifies this
      ensures Core({id}, 1) && At(vvTried, b, p) == -1 && lastGood == old(lastGood)
      ensures evicted == At(old(vvTried), b, p) && evicted != id
      ensures gone != id && gone !in TriedIds(old(mapInfo)) && mapInfo.Keys == old(mapInfo).Keys - {gone}
      ensures forall x :: x in mapInfo && x != evicted ==> Same(mapInfo[x], old(mapInfo)[x])
      ensures id in mapInfo && mapInfo[id].refCount == 0
      ensures evicted in old(mapInfo) ==>
        evicted in mapInfo && Same(mapInfo[evicted], old(mapInfo)[evicted].(inTried := false))
      ensures vvTried == Put(old(vvTried), b, p, -1)
      ensures if evicted == -1 then gone == -1 && vvNew == old(vvNew)
        else evicted in old(mapInfo) && Rehomed(h, old(mapInfo), old(vvNew), vvNew, evicted, gone)
    {
      hide RandomOk, AddrOk, NewOk, TriedOk, RefOk, RangeOk, StatsOk, IdsOk, NewIds, Parts;
      NoMinusOne({id}, 1);
      if At(vvTried, b, p) != -1 {
        evicted, gone := Demote(b, p, id);
      } else {
        evicted, gone := -1, -1;
        TriedShape({id}, 1);
        PutSame(vvTried, b, p);
      }
    }

    /** Moves an entry from the new tables to its tried slot.  No tried entry is ever lost: the one
        it displaces goes back to new, and only an untried entry may be deleted for that. */
    method MakeTried(id: int) returns (ghost evicted: int, ghost gone: int)
      requires Valid() && id in mapInfo && !mapInfo[id].inTried && mapInfo[id].stats.lastSuccess != 0
      modifies this
      ensures Valid() && lastGood == old(lastGood)
      ensures mapInfo.Keys == old(mapInfo).Keys - {gone} && gone != id && gone !in TriedIds(old(mapInfo))
      ensures TriedIds(mapInfo) == TriedIds(old(mapInfo)) - {evicted} + {id} && evicted != id
      ensures forall x :: x in mapInfo ==> Same(mapInfo[x], old(mapInfo)[x].(inTried := mapInfo[x].inTried))
      ensures TriedMove(h, old(mapInfo)[id].addr, id, old(vvTried), vvTried, evicted)
      ensures NewMove(h, old(mapInfo), id, old(vvNew), vvNew, evicted, gone)
    {
      hide RandomOk, AddrOk, NewOk, TriedOk, RefOk, RangeOk, StatsOk, IdsOk, NewIds, Parts, TriedIds;
      NoMinusOne({}, 0);
      LeaveNewBuckets(id);
      ghost var left := vvNew;
      nNew := nNew - 1;
      var kb := h.TriedBucket(mapInfo[id].addr);
      var kp := h.Pos(mapInfo[id].addr, false, kb);
      ghost var m1 := mapInfo;
      evicted, gone := MakeRoom(kb, kp, id);
      ghost var m2 := mapInfo;
      EnterSlot(kb, kp, id, {id}, 1);
      assert {id} - {id} == {};
      Moved(old(mapInfo), m1, m2, mapInfo, id, evicted, gone);
      NewMoved(h, old(mapInfo), m1, id, old(vvNew), left, vvNew, evicted, gone);
    }

    /** The id of an address, or -1. */
    method Find(net: NetAddr) returns (id: int)
      requires Valid()
      ensures net in mapAddr ==> id == mapAddr[net] >= 0 && id in mapInfo && mapInfo[id].addr.net == net
      ensures net !in mapAddr ==> id == -1
    {
      return if net in mapAddr then mapAddr[net] else -1;
    }

    /** Replaces the statistics of an entry. */
    method SetStats(id: int, stats: Stats)
      requires Valid() && id in mapInfo && stats.lastTry >= 0 && stats.lastSuccess >= 0
      requires mapInfo[id].inTried ==> stats.lastSuccess != 0
      modifies this`mapInfo
      ensures Valid() && mapInfo == old(mapInfo)[id := old(mapInfo)[id].(stats := stats)]
    {
      hide RandomOk, AddrOk, NewOk, TriedOk, RefOk, RangeOk, StatsOk, IdsOk, NewIds, TriedIds;
      ghost var m' := mapInfo[id := mapInfo[id].(stats := stats)];
      StatsParts(h, mapInfo, m', vRandom, mapAddr, vvNew, vvTried, {}, idCount, id);
      RetouchedSets(mapInfo, m', id);
      mapInfo := mapInfo[id := mapInfo[id].(stats := stats)];
    }

    /** Looks for a new bucket that holds the entry, from a random one on. */
    method FindNewBucket(id: int) returns (bucket: int)
      requires Valid() && id in mapInfo && !mapInfo[id].inTried
      ensures 0 <= bucket < NEW_BUCKETS && At(vvNew, bucket, h.Pos(mapInfo[id].addr, true, bucket)) == id
    {
      var start: nat :| start < NEW_BUCKETS;
      var n := 0;
      while n < NEW_BUCKETS
        invariant 0 <= n <= NEW_BUCKETS
        invariant forall k :: 0 <= k < n ==> Misses(h, vvNew, mapInfo[id].addr, id, start, k)
      {
        var b := (n + start) % NEW_BUCKETS;
        if At(vvNew, b, h.Pos(mapInfo[id].addr, true, b)) == id {
          return b;
        }
        assert Misses(h, vvNew, mapInfo[id].addr, id, start, n);
        n := n + 1;
      }
      AllMissed(h, mapInfo, vvNew, id, start);
      assert false;
    }

    /** Marks an address good: a known service, with that port, ends up tried. */
    method Good(addr: Service, time: int)
      requires Valid() && time > 0
      modifies this
      ensures Valid() && GoodStep(h, old(Now()), Now(), addr, time)
    {
      lastGood := time;
      var id := Find(addr.net);
      if id == -1 {
        return;
      }
      if mapInfo[id].addr != addr {
        return;
      }
      SetStats(id, mapInfo[id].stats.(lastSuccess := time, lastTry := time, attempts := 0));
      if mapInfo[id].inTried {
        return;
      }
      var bucket := FindNewBucket(id);
      assert bucket != -1;
      ghost var m1 := mapInfo;
      ghost var evicted, gone := MakeTried(id);
      GoodMoved(h, old(mapInfo), m1[id].stats, m1, mapInfo, id, old(vvNew), vvNew, old(vvTried), vvTried, evicted,
                gone);
    }

    /** Records an attempt to connect. */
    method Attempt(addr: Service, countFailure: bool, time: int)
      requires Valid() && time >= 0
      modifies this`mapInfo
      ensures Valid() && mapInfo.Keys == old(mapInfo).Keys
      ensures forall x :: x in mapInfo ==>
        mapInfo[x] == AfterAttempt(old(mapInfo)[x], addr, countFailure, time, lastGood)
    {
      hide RandomOk, NewOk, TriedOk, RefOk, RangeOk, StatsOk, IdsOk, NewIds, TriedIds;
      var id := Find(addr.net);
      if id == -1 {
        return;
      }
      if mapInfo[id].addr != addr {
        return;
      }
      var stats := mapInfo[id].stats.(lastTry := time);
      if countFailure && stats.lastCountAttempt < lastGood {
        stats := stats.(lastCountAttempt := time, attempts := stats.attempts + 1);
      }
      StatsFacts(mapInfo, id);
      SetStats(id, stats);
    }

    /** Records that an address is connected. */
    method Connected(addr: Service, time: int)
      requires Valid()
      modifies this`mapInfo
      ensures Valid() && mapInfo.Keys == old(mapInfo).Keys
      ensures forall x :: x in mapInfo ==> mapInfo[x] == AfterConnect(old(mapInfo)[x], addr, time)
    {
      hide RandomOk, NewOk, TriedOk, RefOk, RangeOk, StatsOk, IdsOk, NewIds, TriedIds;
      var id := Find(addr.net);
      if id == -1 {
        return;
      }
      if mapInfo[id].addr != addr {
        return;
      }
      if time - mapInfo[id].stats.time > 20 * 60 {
        StatsFacts(mapInfo, id);
        SetStats(id, mapInfo[id].stats.(time := time));
      }
    }

    /** Records the services of an address. */
    method SetServices(addr: Service, services: nat)
      requires Valid()
      modifies this`mapInfo
      ensures Valid() && mapInfo.Keys == old(mapInfo).Keys
      ensures forall x :: x in mapInfo ==> mapInfo[x] == AfterServices(old(mapInfo)[x], addr, services)
    {
      hide RandomOk, NewOk, TriedOk, RefOk, RangeOk, StatsOk, IdsOk, NewIds, TriedIds;
      var id := Find(addr.net);
      if id == -1 {
        return;
      }
      if mapInfo[id].addr != addr {
        return;
      }
      StatsFacts(mapInfo, id);
      SetStats(id, mapInfo[id].stats.(services := services));
    }

    /** Makes an entry for a new address, in no table yet. */
    method Create(addr: Address, source: NetAddr) returns (id: int)
      requires Valid() && addr.service.net !in mapAddr
      modifies this`idCount, this`mapInfo, this`mapAddr, this`vRandom
      ensures Core({id}, 1) && id !in old(mapInfo)
      ensures mapInfo == old(mapInfo)[id := AddrInfo(addr.service, source,
                Stats(addr.time, addr.services, 0, 0, 0, 0), 0, false, |old(vRandom)|)]
    {
      hide RandomOk, AddrOk, NewOk, TriedOk, RefOk, RangeOk, StatsOk, IdsOk, NewIds, TriedIds;
      id := idCount;
      var info := AddrInfo(addr.service, source, Stats(addr.time, addr.services, 0, 0, 0, 0), 0, false, |vRandom|);
      AddedParts(h, mapInfo, vRandom, mapAddr, vvNew, vvTried, {}, idCount, id, info);
      AddedSets(mapInfo, id, info);
      assert {} + {id} == {id};
      idCount := idCount + 1;
      mapInfo := mapInfo[id := info];
      mapAddr := mapAddr[addr.service.net := id];
      vRandom := vRandom + [id];
    }

    /** The last part of Add_: tries to give an untried entry a slot in the bucket of its source. */
    method Place(id: int, source: NetAddr, now: int)
      requires Core({id}, 0) && id in mapInfo && !mapInfo[id].inTried && mapInfo[id].refCount < MAX_REFS
      modifies this`mapInfo, this`vRandom, this`mapAddr, this`nNew, this`vvNew
      ensures Valid()
      ensures forall x :: x in mapInfo ==> x in old(mapInfo) && Same(mapInfo[x], old(mapInfo)[x])
      ensures TriedIds(old(mapInfo)) <= mapInfo.Keys
      ensures var there := SlotFor(h, old(vvNew), old(mapInfo)[id].addr, source);
        forall x :: x in old(mapInfo) && x !in mapInfo && x != id ==> GivesUp(old(mapInfo), x, there, now)
      ensures var addr := old(mapInfo)[id].addr;
        if TakesSlot(old(mapInfo), SlotFor(h, old(vvNew), addr, source), id, now)
        then Filled(h, old(vvNew), vvNew, addr, source, id) && id in mapInfo
        else vvNew == old(vvNew) && (id in mapInfo <==> old(mapInfo)[id].refCount > 0)
    {
      hide RandomOk, AddrOk, NewOk, TriedOk, RefOk, StatsOk, IdsOk, NewIds;
      var ub := h.NewBucket(mapInfo[id].addr, source);
      var up := h.Pos(mapInfo[id].addr, true, ub);
      var there := At(vvNew, ub, up);
      SlotOwnerUntried(ub, up, {id}, 0);
      NoMinusOne({id}, 0);
      if there == id {
        HasReference(ub, up, id);
        return;
      }
      RangeLow(mapInfo, {id}, id);
      var insert := there == -1;
      if !insert {
        insert := IsTerrible(mapInfo[there].stats, now) || (mapInfo[there].refCount > 1 && mapInfo[id].refCount == 0);
      }
      if insert {
        ClearNew(ub, up, {id}, 0);
        Link(ub, up, id, {id}, 0);
        assert {id} - {id} == {};
      } else if mapInfo[id].refCount == 0 {
        Delete(id, {id}, 0);
        assert {id} - {id} == {};
      }
    }

    lemma HasReference(b: nat, p: nat, id: int)
      requires Core({id}, 0) && At(vvNew, b, p) == id && id in mapInfo && id != -1
      ensures mapInfo[id].refCount != 0
    {
      hide RandomOk, AddrOk, NewOk, TriedOk, RefOk, StatsOk, IdsOk, NewIds, RangeOk, TriedIds;
      if mapInfo[id].refCount == 0 { NoRefsNoSlot(h, mapInfo, vvNew, id); }
    }

    /** Adds an address heard from a source.  Tried entries are never touched beyond their
        statistics, and the answer is whether the address was unknown. */
    method Add(addr: Address, routable: bool, source: NetAddr, timePenalty: int, now: int, random: nat -> nat)
      returns (isNew: bool)
      requires Valid()
      modifies this
      ensures Valid() && AddStep(h, old(Now()), Now(), addr, routable, source, timePenalty, now, random)
      ensures isNew <==> routable && addr.service.net !in old(mapAddr)
    {
      if !routable {
        return false;
      }
      var penalty := if addr.service.net == source then 0 else timePenalty;
      var id := Find(addr.service.net);
      if id != -1 {
        AddKnown(id, addr, source, timePenalty, penalty, now, random);
        return false;
      }
      AddUnknown(addr, source, timePenalty, penalty, now, random);
      return true;
    }

    method AddKnown(id: int, addr: Address, source: NetAddr, ghost timePenalty: int, penalty: int, now: int,
                    random: nat -> nat)
      requires Valid() && addr.service.net in mapAddr && mapAddr[addr.service.net] == id && id in mapInfo
      requires penalty == Penalty(addr, source, timePenalty)
      modifies this`mapInfo, this`vRandom, this`mapAddr, this`nNew, this`vvNew
      ensures Valid() && AddStep(h, old(Now()), Now(), addr, true, source, timePenalty, now, random)
    {
      hide RandomOk, NewOk, TriedOk, RefOk, RangeOk, StatsOk, IdsOk, NewIds, TakesSlot, GivesUp, SlotFor, Filled;
      hide IsTerrible, Refreshed;
      var proceed := Refresh(id, addr, penalty, now, random);
      assert mapInfo.Keys == old(mapInfo).Keys;
      KeptTried(old(mapInfo), mapInfo);
      if !proceed {
        return;
      }
      RangeLow(mapInfo, {}, id);
      Loosen(id);
      RefreshedYields(old(mapInfo), id, mapInfo[id].stats, SlotFor(h, vvNew, mapInfo[id].addr, source), now);
      Place(id, source, now);
      KeptTried(old(mapInfo), mapInfo);
    }

    method AddUnknown(addr: Address, source: NetAddr, ghost timePenalty: int, penalty: int, now: int,
                      ghost random: nat -> nat)
      requires Valid() && addr.service.net !in mapAddr && penalty == Penalty(addr, source, timePenalty)
      modifies this
      ensures Valid() && AddStep(h, old(Now()), Now(), addr, true, source, timePenalty, now, random)
    {
      hide RandomOk, AddrOk, NewOk, TriedOk, RefOk, RangeOk, StatsOk, IdsOk, NewIds;
      ghost var b := h.NewBucket(addr.service, source);
      SlotOwnerUntried(b, h.Pos(addr.service, true, b), {}, 0);
      NoMinusOne({}, 0);
      var id := AddNew(addr, source, penalty);
      NoMinusOne({id}, 0);
      KeptTried(old(mapInfo), mapInfo);
      Place(id, source, now);
      KeptTried(old(mapInfo), mapInfo);
    }

    lemma Loosen(id: int)
      requires Valid()
      ensures Core({id}, 0)
    {
    }

    /** Add_ for a known address: refreshes its statistics and decides, partly at random, whether it
        may take another slot.  random(n) is what RandomInt(n) would answer. */
    method Refresh(id: int, addr: Address, penalty: int, now: int, random: nat -> nat) returns (proceed: bool)
      requires Valid() && id in mapInfo
      modifies this`mapInfo
      ensures Valid()
      ensures mapInfo ==
        old(mapInfo)[id := old(mapInfo)[id].(stats := Refreshed(old(mapInfo)[id].stats, addr, penalty, now))]
      ensures proceed <==> Proceeds(mapInfo[id], addr, random)
    {
      hide RandomOk, AddrOk, NewOk, TriedOk, RefOk, RangeOk, StatsOk, IdsOk, NewIds, TriedIds;
      var stats := mapInfo[id].stats;
      var currentlyOnline := now - addr.time < 24 * 60 * 60;
      var interval := if currentlyOnline then 60 * 60 else 24 * 60 * 60;
      if addr.time != 0 && (stats.time == 0 || stats.time < addr.time - interval - penalty) {
        stats := stats.(time := if addr.time - penalty > 0 then addr.time - penalty else 0);
      }
      stats := stats.(services := Bits.Or(stats.services, addr.services));
      StatsFacts(mapInfo, id);
      SetStats(id, stats);
      if addr.time == 0 || (stats.time != 0 && addr.time <= stats.time) {
        return false;
      }
      if mapInfo[id].inTried || mapInfo[id].refCount == MAX_REFS {
        return false;
      }
      RangeFacts(mapInfo, id);
      var factor := 1;
      for n := 0 to mapInfo[id].refCount
        invariant factor == Bits.Pow2(n)
      {
        factor := factor * 2;
      }
      Bits.Pow2Mono(if mapInfo[id].refCount > 0 then 1 else 0, mapInfo[id].refCount);
      if factor > 1 && random(factor) != 0 {
        return false;
      }
      return true;
    }

    /** Add_ for an unknown address. */
    method AddNew(addr: Address, source: NetAddr, penalty: int) returns (id: int)
      requires Valid() && addr.service.net !in mapAddr
      modifies this
      ensures Core({id}, 0) && id in mapInfo && id !in old(mapInfo) && !mapInfo[id].inTried && mapInfo[id].refCount == 0
      ensures lastGood == old(lastGood) && vvTried == old(vvTried) && mapInfo.Keys == old(mapInfo).Keys + {id}
      ensures vvNew == old(vvNew)
      ensures forall x :: x in old(mapInfo) ==> mapInfo[x] == old(mapInfo)[x]
      ensures mapInfo[id].addr == addr.service && mapInfo[id].source == source
      ensures mapInfo[id].stats == Stats(AtLeastZero(addr.time - penalty), addr.services, 0, 0, 0, 0)
    {
      hide RandomOk, AddrOk, NewOk, TriedOk, RefOk, RangeOk, StatsOk, IdsOk, NewIds, TriedIds;
      var time := if addr.time - penalty > 0 then addr.time - penalty else 0;
      id := Create(addr.(time := time), source);
      nNew := nNew + 1;
    }

    /** A random selection of good addresses: at most 23 percent of all, and at most 2500; each is
        known, not terrible, and taken only once. */
    method GetAddr(now: int) returns (selection: seq<AddrInfo>, ghost ids: seq<int>)
      requires Valid()
      modifies this`mapInfo, this`vRandom
      ensures Valid() && Shuffled(old(mapInfo), mapInfo)
      ensures |selection| == |ids| <= GetAddrLimit(|old(vRandom)|)
      ensures |ids| < GetAddrLimit(|old(vRandom)|) ==>
        forall x :: x in mapInfo && !IsTerrible(mapInfo[x].stats, now) ==> x in ids
      ensures forall i :: 0 <= i < |ids| ==> Chosen(mapInfo, ids[i], selection[i], now)
      ensures forall i, j :: 0 <= i < j < |ids| ==> ids[i] != ids[j]
    {
      hide RandomOk, AddrOk, NewOk, TriedOk, RefOk, RangeOk, StatsOk, IdsOk, NewIds, TriedIds, Shuffled;
      var nodes: nat := 23 * |vRandom| / 100;
      if nodes > 2500 {
        nodes := 2500;
      }
      selection, ids := [], [];
      NotShuffled(mapInfo);
      var n := 0;
      while n < |vRandom| && |selection| < nodes
        invariant 0 <= n <= |vRandom| == |old(vRandom)|
        invariant Valid() && Shuffled(old(mapInfo), mapInfo)
        invariant |selection| == |ids| <= nodes == GetAddrLimit(|vRandom|)
        invariant forall x :: x in vRandom[..n] ==> Gathered(mapInfo, x, ids, now)
        invariant forall i :: 0 <= i < |ids| ==> ids[i] in vRandom[..n]
        invariant forall i :: 0 <= i < |ids| ==> Chosen(mapInfo, ids[i], selection[i], now)
        invariant forall i, j :: 0 <= i < j < |ids| ==> ids[i] != ids[j]
        decreases |vRandom| - n
      {
        var k: nat :| n <= k < |vRandom|;
        ghost var before := mapInfo;
        Shuffle(n, k);
        ShuffledTwice(old(mapInfo), before, mapInfo);
        assert vRandom[n] !in vRandom[..n];
        assert vRandom[..n + 1] == vRandom[..n] + [vRandom[n]];
        RandomFacts(mapInfo, vRandom, vRandom[n], n);
        var info := mapInfo[vRandom[n]];
        if !IsTerrible(info.stats, now) {
          selection, ids := selection + [info], ids + [vRandom[n]];
        }
        n := n + 1;
      }
      if |ids| < nodes { AllGathered(mapInfo, vRandom, ids, now); }
    }

    /** SwapRandom in a consistent manager. */
    method Shuffle(i: nat, j: nat)
      requires Valid() && i < |vRandom| && j < |vRandom|
      modifies this`mapInfo, this`vRandom
      ensures Valid() && Shuffled(old(mapInfo), mapInfo) && |vRandom| == |old(vRandom)|
      ensures vRandom == old(vRandom)[i := old(vRandom)[j]][j := old(vRandom)[i]]
      ensures i <= j ==> vRandom[..i] == old(vRandom)[..i]
      ensures forall k, l :: 0 <= k < l < |vRandom| ==> vRandom[k] != vRandom[l]
    {
      hide AddrOk, NewOk, TriedOk, RefOk, RangeOk, StatsOk, IdsOk, NewIds, TriedIds;
      SwapRandom(i, j);
      ShuffledAll(h, old(mapInfo), mapInfo, old(vRandom), vRandom, mapAddr, vvNew, vvTried, {}, idCount);
    }

    /** Any sequence of calls, at any times and with any random choices, goes through consistent states
        only, from one to the next by what the call does. */
    method Run(ops: seq<Op>) returns (ghost trace: seq<State>)
      requires Valid() && forall i :: 0 <= i < |ops| ==> (ops[i].GoodOp? || ops[i].AttemptOp? ==> ops[i].time > 0)
      modifies this
      ensures Valid() && IsRun(h, ops, trace) && trace[0] == old(Now()) && trace[|ops|] == Now()
    {
      hide AddStep, GoodStep, Parts, TriedIds, NewIds, AfterAttempt, AfterConnect, AfterServices;
      trace := [Now()];
      for i := 0 to |ops|
        invariant Valid() && IsRun(h, ops[..i], trace) && trace[0] == old(Now()) && trace[i] == Now()
      {
        match ops[i] {
          case AddOp(addr, routable, source, penalty, now, random) =>
            var _ := Add(addr, routable, source, penalty, now, random);
          case GoodOp(addr, time) =>
            Good(addr, time);
          case AttemptOp(addr, countFailure, time) =>
            Attempt(addr, countFailure, time);
          case ConnectedOp(addr, time) =>
            Connected(addr, time);
          case SetServicesOp(addr, services) =>
            SetServices(addr, services);
          case GetAddrOp(now) =>
            var _, _ := GetAddr(now);
        }
        assert Step(h, ops[i], trace[i], Now());
        RunGrows(h, ops, trace, i, Now());
        trace := trace + [Now()];
      }
      assert ops[..|ops|] == ops;
    }
  }

  lemma RunGrows(h: Hashes, ops: seq<Op>, trace: seq<State>, i: nat, s: State)
    requires i < |ops| && IsRun(h, ops[..i], trace) && Step(h, ops[i], trace[i], s) && Consistent(h, s)
    ensures IsRun(h, ops[..i + 1], trace + [s])
  {
    hide Step, Consistent;
    var more := trace + [s];
    forall k | 0 <= k < i + 1 ensures Step(h, ops[..i + 1][k], more[k], more[k + 1]) {
      if k < i { assert Step(h, ops[..i][k], trace[k], trace[k + 1]); }
    }
  }

  datatype Op =
    | AddOp(addr: Address, routable: bool, from: NetAddr, penalty: int, now: int, random: nat -> nat)
    | GoodOp(service: Service, time: int)
    | AttemptOp(service: Service, countFailure: bool, time: int)
    | ConnectedOp(service: Service, time: int)
    | SetServicesOp(service: Service, services: nat)
    | GetAddrOp(now: int)

  function GetAddrLimit(known: nat): nat {
    if 23 * known / 100 > 2500 then 2500 else 23 * known / 100
  }

  /** It was chosen, or is too bad for that. */
  predicate Gathered(m: Infos, x: int, ids: seq<int>, now: int) {
    x in ids || (x in m && IsTerrible(m[x].stats, now))
  }

  lemma AllGathered(m: Infos, v: seq<int>, ids: seq<int>, now: int)
    requires RandomOk(m, v) && forall x :: x in v[..|v|] ==> Gathered(m, x, ids, now)
    ensures forall x :: x in m && !IsTerrible(m[x].stats, now) ==> x in ids
  {
    forall x | x in m ensures Gathered(m, x, ids, now) { assert v[..|v|][m[x].randomPos] == x; }
  }

  predicate Chosen(m: Infos, id: int, info: AddrInfo, now: int) {
    id in m && Same(info, m[id]) && !IsTerrible(info.stats, now)
  }

  lemma NotShuffled(m: Infos)
    ensures Shuffled(m, m)
  {
  }

  lemma ShuffledTwice(m: Infos, m': Infos, m'': Infos)
    requires Shuffled(m, m') && Shuffled(m', m'')
    ensures Shuffled(m, m'') && m''.Keys == m'.Keys
    ensures forall x :: x in m' ==> Same(m''[x], m'[x])
  {
  }

  lemma StatsFacts(m: Infos, id: int)
    requires StatsOk(m) && id in m
    ensures m[id].stats.lastTry >= 0 && m[id].stats.lastSuccess >= 0
    ensures m[id].inTried ==> m[id].stats.lastSuccess != 0
  {
  }

  lemma RangeLow(m: Infos, transit: set<int>, id: int)
    requires RangeOk(m, transit) && id in m
    ensures m[id].refCount >= 0
    ensures !m[id].inTried && id !in transit ==> m[id].refCount > 0
  {
  }

  lemma RangeFacts(m: Infos, id: int)
    requires RangeOk(m, {}) && id in m
    ensures 0 <= m[id].refCount <= MAX_REFS
  {
  }

  lemma KeptTried(m: Infos, m': Infos)
    requires TriedIds(m) <= m'.Keys
    requires forall x :: x in m' && x in m ==> m'[x].inTried == m[x].inTried
    requires forall x :: x in m' && x !in m ==> !m'[x].inTried
    ensures TriedIds(m') == TriedIds(m)
  {
    forall x ensures x in TriedIds(m') <==> x in TriedIds(m) {}
  }

  /** An entry that is back in the new table is in the slot of its own source; what was there loses a
      reference, and disappears with its last one. */
  ghost predicate Rehomed(h: Hashes, m: Infos, t: Table, t': Table, evicted: int, gone: int)
    requires evicted in m
  {
    var b, p := HomeBucket(h, m[evicted]), HomePos(h, m[evicted]);
    && gone == GoneFor(m, At(t, b, p)) && At(t', b, p) == evicted
    && forall b': nat, p': nat :: (b' != b || p' != p) ==> At(t', b', p') == At(t, b', p')
  }

  lemma PutSame(t: Table, b: nat, p: nat)
    requires b < |t| && p < |t[b]| && At(t, b, p) == -1
    ensures Put(t, b, p, -1) == t
  {
    assert t[b][p := -1] == t[b];
  }

  /** The entry is in its tried slot, and `evicted` was there before. */
  ghost predicate TriedMove(h: Hashes, addr: Service, id: int, t: Table, t': Table, evicted: int) {
    var b := h.TriedBucket(addr);
    var p := h.Pos(addr, false, b);
    && evicted == At(t, b, p) && At(t', b, p) == id
    && forall b': nat, p': nat :: (b' != b || p' != p) ==> At(t', b', p') == At(t, b', p')
  }

  /** A new slot after an entry left the new table. */
  function Without(t: Table, id: int, b: nat, p: nat): int {
    if At(t, b, p) == id then -1 else At(t, b, p)
  }

  /** The entry has left its new slots, and the evicted one, if any, took the slot of its own source. */
  ghost predicate NewMove(h: Hashes, m: Infos, id: int, t: Table, t': Table, evicted: int, gone: int) {
    if evicted == -1 then gone == -1 && forall b: nat, p: nat :: At(t', b, p) == Without(t, id, b, p)
    else evicted in m && var b, p := HomeBucket(h, m[evicted]), HomePos(h, m[evicted]);
      && gone == GoneFor(m, Without(t, id, b, p)) && At(t', b, p) == evicted
      && forall b': nat, p': nat :: (b' != b || p' != p) ==> At(t', b', p') == Without(t, id, b', p')
  }

  lemma NewMoved(h: Hashes, m: Infos, m1: Infos, id: int, t: Table, t1: Table, t2: Table, evicted: int, gone: int)
    requires id in m && m1 == m[id := m[id].(refCount := 0)] && evicted != id && -1 !in m
    requires forall b: nat, p: nat :: At(t1, b, p) == Without(t, id, b, p)
    requires if evicted == -1 then gone == -1 && t2 == t1 else evicted in m1 && Rehomed(h, m1, t1, t2, evicted, gone)
    ensures NewMove(h, m, id, t, t2, evicted, gone)
  {
  }

  /** All that changes when an entry becomes tried: `evicted` becomes untried and `gone` disappears. */
  ghost predicate MadeTried(h: Hashes, m: Infos, m': Infos, id: int, tn: Table, tn': Table, tt: Table, tt': Table,
                            evicted: int, gone: int)
    requires id in m
  {
    && m'.Keys == m.Keys - {gone} && gone != id && gone !in TriedIds(m)
    && TriedIds(m') == TriedIds(m) - {evicted} + {id}
    && (forall x :: x in m' && x != id ==> Same(m'[x], m[x].(inTried := m'[x].inTried)))
    && TriedMove(h, m[id].addr, id, tt, tt', evicted) && NewMove(h, m, id, tn, tn', evicted, gone)
  }

  lemma GoodMoved(h: Hashes, m: Infos, stats: Stats, m1: Infos, m2: Infos, id: int, tn: Table, tn': Table, tt: Table,
                  tt': Table, evicted: int, gone: int)
    requires id in m && !m[id].inTried && m1 == m[id := m[id].(stats := stats)] && evicted != id
    requires m2.Keys == m1.Keys - {gone} && gone != id && gone !in TriedIds(m1)
    requires TriedIds(m2) == TriedIds(m1) - {evicted} + {id}
    requires forall x :: x in m2 ==> Same(m2[x], m1[x].(inTried := m2[x].inTried))
    requires TriedMove(h, m1[id].addr, id, tt, tt', evicted) && NewMove(h, m1, id, tn, tn', evicted, gone)
    ensures MadeTried(h, m, m2, id, tn, tn', tt, tt', evicted, gone)
  {
    assert TriedIds(m1) == TriedIds(m);
  }

  predicate LeftBy(id: int, t: Table, t': Table, b: nat, p: nat) {
    At(t, b, p) == id && At(t', b, p) == -1
  }

  /** The three steps of MakeTried together: references dropped, room made, slot entered. */
  lemma Moved(m0: Infos, m1: Infos, m2: Infos, m3: Infos, id: int, evicted: int, gone: int)
    requires id in m0 && !m0[id].inTried && m1 == m0[id := m0[id].(refCount := 0)]
    requires gone != id && gone !in TriedIds(m1) && m2.Keys == m1.Keys - {gone} && id in m2 && evicted != id
    requires forall x :: x in m2 && x != evicted ==> Same(m2[x], m1[x])
    requires evicted in m1 ==> evicted in m2 && Same(m2[evicted], m1[evicted].(inTried := false))
    requires m3 == m2[id := m2[id].(inTried := true)]
    ensures m3.Keys == m0.Keys - {gone} && gone !in TriedIds(m0)
    ensures TriedIds(m3) == TriedIds(m0) - {evicted} + {id}
    ensures forall x :: x in m3 ==> Same(m3[x], m0[x].(inTried := m3[x].inTried))
  {
    assert TriedIds(m1) == TriedIds(m0) by { RetouchedSets(m0, m1, id); }
    MovedTried(m1, m3, id, evicted, gone);
  }

  lemma MovedTried(m: Infos, m': Infos, id: int, evicted: int, gone: int)
    requires m'.Keys == m.Keys - {gone} && id in m' && gone !in TriedIds(m) && evicted != id
    requires m'[id].inTried && (evicted in m' ==> !m'[evicted].inTried) && (evicted in m ==> evicted in m')
    requires forall x :: x in m' && x != id && x != evicted ==> m'[x].inTried == m[x].inTried
    ensures TriedIds(m') == TriedIds(m) - {evicted} + {id}
  {
    forall x ensures x in TriedIds(m') <==> (x in TriedIds(m) && x != evicted) || x == id {
      assert x in m' <==> x in m && x != gone;
    }
  }

  predicate Misses(h: Hashes, t: Table, a: Service, id: int, start: nat, n: int)
    requires n >= 0
  {
    var b := (n + start) % NEW_BUCKETS;
    At(t, b, h.Pos(a, true, b)) != id
  }

  /** The wrapped walk visits every bucket. */
  lemma AllMissed(h: Hashes, m: Infos, t: Table, id: int, start: nat)
    requires RefOk(h, m, t) && id in m && start < NEW_BUCKETS
    requires forall k :: 0 <= k < NEW_BUCKETS ==> Misses(h, t, m[id].addr, id, start, k)
    ensures m[id].refCount == 0
  {
    forall b: nat | b < NEW_BUCKETS ensures At(t, b, h.Pos(m[id].addr, true, b)) != id {
      var n := if b >= start then b - start else b - start + NEW_BUCKETS;
      assert Misses(h, t, m[id].addr, id, start, n);
      assert (n + start) % NEW_BUCKETS == b;
    }
    NoBuckets(h, m, t, id);
  }

  lemma NoBuckets(h: Hashes, m: Infos, t: Table, id: int)
    requires RefOk(h, m, t) && id in m
    requires forall b: nat :: b < NEW_BUCKETS ==> At(t, b, h.Pos(m[id].addr, true, b)) != id
    ensures m[id].refCount == 0
  {
    assert Buckets(h, t, m[id].addr, id) == {};
  }
}
