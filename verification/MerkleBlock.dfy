/** Partial Merkle trees (src/merkleblock.h, src/merkleblock.cpp): what is built from a block's
    transaction ids and a match mask, and what a traversal of arbitrary data yields. */
module MerkleTree {
  import opened Bits

  type Hash = nat

  /** The combining hash; only its collision-freedom on pairs is ever used. */
  type Combine = (Hash, Hash) -> Hash

  ghost predicate PairInjective(H: Combine) {
    forall a, b, c, d :: H(a, b) == H(c, d) ==> a == c && b == d
  }

  /** The number of nodes at a height. */
  function Width(n: nat, height: nat): nat {
    (n + Pow2(height) - 1) / Pow2(height)
  }

  /** The first leaf under a node. */
  function First(height: nat, pos: nat): nat {
    pos * Pow2(height)
  }

  /** A node exists when its first leaf does. */
  predicate InTree(n: nat, height: nat, pos: nat) {
    First(height, pos) < n
  }

  lemma InTreeIffWidth(n: nat, height: nat, pos: nat)
    ensures InTree(n, height, pos) <==> pos < Width(n, height)
  {
    var p := Pow2(height);
    var w := Width(n, height);
    DivModEq(n + p - 1, p);
    if pos < w { MulMono(pos + 1, w, p); } else { MulMono(w, pos, p); }
  }

  lemma ChildFirst(height: nat, pos: nat)
    requires height > 0
    ensures First(height - 1, 2 * pos) == First(height, pos)
    ensures First(height - 1, 2 * pos + 1) == First(height, pos) + Pow2(height - 1)
    ensures First(height - 1, 2 * pos + 2) == First(height, pos + 1)
  {
    var p := Pow2(height - 1);
    assert pos * (2 * p) == (2 * pos) * p;
    assert (2 * pos + 1) * p == (2 * pos) * p + p;
    assert (pos + 1) * (2 * p) == (2 * pos + 2) * p;
  }

  lemma FirstNext(height: nat, pos: nat)
    ensures First(height, pos + 1) == First(height, pos) + Pow2(height)
  {
  }

  /** The hash of a node; a missing right child repeats the left one. */
  function CalcHash(H: Combine, txids: seq<Hash>, height: nat, pos: nat): Hash
    requires InTree(|txids|, height, pos)
    decreases height
  {
    if height == 0 then txids[pos] else
      ChildFirst(height, pos);
      var left := CalcHash(H, txids, height - 1, 2 * pos);
      var right :=
        if InTree(|txids|, height - 1, 2 * pos + 1) then CalcHash(H, txids, height - 1, 2 * pos + 1) else left;
      H(left, right)
  }

  /** The row above a row of hashes: neighbours are combined, and a last one without a neighbour with
      itself. */
  function RowAbove(H: Combine, row: seq<Hash>): (above: seq<Hash>)
    ensures |above| == (|row| + 1) / 2
  {
    if row == [] then []
    else if |row| == 1 then [H(row[0], row[0])]
    else [H(row[0], row[1])] + RowAbove(H, row[2..])
  }

  function RowAt(H: Combine, txids: seq<Hash>, height: nat): seq<Hash> {
    if height == 0 then txids else RowAbove(H, RowAt(H, txids, height - 1))
  }

  lemma {:induction false} RowAboveAt(H: Combine, row: seq<Hash>, pos: nat)
    requires 2 * pos < |row|
    ensures RowAbove(H, row)[pos] == H(row[2 * pos], if 2 * pos + 1 < |row| then row[2 * pos + 1] else row[2 * pos])
  {
    if pos == 0 {
    } else {
      RowAboveAt(H, row[2..], pos - 1);
    }
  }

  /** The hash of a node is the one at its place when the tree is built row by row. */
  lemma {:induction false} HashIsInRow(H: Combine, txids: seq<Hash>, height: nat, pos: nat)
    requires InTree(|txids|, height, pos)
    ensures |RowAt(H, txids, height)| == Width(|txids|, height)
    ensures pos < Width(|txids|, height) && RowAt(H, txids, height)[pos] == CalcHash(H, txids, height, pos)
    decreases height
  {
    InTreeIffWidth(|txids|, height, pos);
    if height == 0 {
    } else {
      hide Width;
      ChildFirst(height, pos);
      var row := RowAt(H, txids, height - 1);
      HashIsInRow(H, txids, height - 1, 2 * pos);
      WidthHalves(|txids|, height);
      RowAboveAt(H, row, pos);
      InTreeIffWidth(|txids|, height - 1, 2 * pos + 1);
      if InTree(|txids|, height - 1, 2 * pos + 1) { HashIsInRow(H, txids, height - 1, 2 * pos + 1); }
    }
  }

  lemma WidthHalves(n: nat, height: nat)
    requires height > 0
    ensures Width(n, height) == (Width(n, height - 1) + 1) / 2
  {
    var w := Width(n, height - 1);
    var v := (w + 1) / 2;
    hide Width;
    Pow2Half(height);
    InTreeIffWidth(n, height, v);
    InTreeIffWidth(n, height - 1, 2 * v);
    ChildFirst(height, v);
    if v > 0 {
      InTreeIffWidth(n, height, v - 1);
      InTreeIffWidth(n, height - 1, 2 * (v - 1));
      ChildFirst(height, v - 1);
    }
  }

  // ---------- what a traversal finds ----------

  datatype Match = Match(hash: Hash, index: nat)
  datatype Walked = Walked(hash: Hash, bitsUsed: nat, hashUsed: nat, matches: seq<Match>, bad: bool)

  /** TraverseAndExtract: like the source it goes on after an error, with the zero hash. */
  function Walk(H: Combine, n: nat, bits: seq<bool>, hashes: seq<Hash>, height: nat, pos: nat, bu: nat, hu: nat): Walked
    decreases height
  {
    if bu >= |bits| then Walked(0, bu, hu, [], true)
    else if height == 0 || !bits[bu] then
      if hu >= |hashes| then Walked(0, bu + 1, hu, [], true)
      else Walked(hashes[hu], bu + 1, hu + 1, if height == 0 && bits[bu] then [Match(hashes[hu], pos)] else [], false)
    else
      var l := Walk(H, n, bits, hashes, height - 1, 2 * pos, bu + 1, hu);
      if InTree(n, height - 1, 2 * pos + 1)
      then Join(H, l, Walk(H, n, bits, hashes, height - 1, 2 * pos + 1, l.bitsUsed, l.hashUsed))
      else l.(hash := H(l.hash, l.hash))
  }

  /** Two traversed children; identical branches are an error. */
  function Join(H: Combine, l: Walked, r: Walked): Walked {
    Walked(H(l.hash, r.hash), r.bitsUsed, r.hashUsed, l.matches + r.matches, l.bad || r.bad || r.hash == l.hash)
  }

  ghost predicate Sound(txids: seq<Hash>, matches: seq<Match>) {
    forall i :: 0 <= i < |matches| ==> matches[i].index < |txids| && matches[i].hash == txids[matches[i].index]
  }

  /** Soundness: from arbitrary bits and hashes, if the traversal ends without error at the true
      hash of a node, every match it reports is a transaction of the block, at its own place. */
  lemma {:induction false} WalkSound(H: Combine, txids: seq<Hash>, bits: seq<bool>, hashes: seq<Hash>, height: nat,
                                     pos: nat, bu: nat, hu: nat)
    requires PairInjective(H) && InTree(|txids|, height, pos)
    requires var w := Walk(H, |txids|, bits, hashes, height, pos, bu, hu);
      !w.bad && w.hash == CalcHash(H, txids, height, pos)
    ensures Sound(txids, Walk(H, |txids|, bits, hashes, height, pos, bu, hu).matches)
    decreases height
  {
    if height == 0 || !bits[bu] {
    } else {
      ChildFirst(height, pos);
      var l := Walk(H, |txids|, bits, hashes, height - 1, 2 * pos, bu + 1, hu);
      WalkSound(H, txids, bits, hashes, height - 1, 2 * pos, bu + 1, hu);
      if InTree(|txids|, height - 1, 2 * pos + 1) {
        WalkSound(H, txids, bits, hashes, height - 1, 2 * pos + 1, l.bitsUsed, l.hashUsed);
      }
    }
  }

  /** In increasing order of index, all from lo up to hi. */
  ghost predicate Ordered(m: seq<Match>, lo: nat, hi: nat) {
    && (forall i :: 0 <= i < |m| ==> lo <= m[i].index < hi)
    && (forall i, j :: 0 <= i < j < |m| ==> m[i].index < m[j].index)
  }

  lemma OrderedConcat(a: seq<Match>, b: seq<Match>, lo: nat, mid: nat, hi: nat)
    requires lo <= mid <= hi && Ordered(a, lo, mid) && Ordered(b, mid, hi)
    ensures Ordered(a + b, lo, hi) && Ordered(a, lo, hi)
  {
  }

  /** The matches of any traversal come in block order, without repetition. */
  lemma {:induction false} WalkOrdered(H: Combine, n: nat, bits: seq<bool>, hashes: seq<Hash>, height: nat, pos: nat,
                                       bu: nat, hu: nat)
    ensures Ordered(Walk(H, n, bits, hashes, height, pos, bu, hu).matches, First(height, pos), First(height, pos + 1))
    decreases height
  {
    if height == 0 || bu >= |bits| || !bits[bu] {
    } else {
      hide First, Ordered;
      ChildFirst(height, pos);
      FirstNext(height, pos);
      var l := Walk(H, n, bits, hashes, height - 1, 2 * pos, bu + 1, hu);
      var r := Walk(H, n, bits, hashes, height - 1, 2 * pos + 1, l.bitsUsed, l.hashUsed);
      WalkOrdered(H, n, bits, hashes, height - 1, 2 * pos, bu + 1, hu);
      WalkOrdered(H, n, bits, hashes, height - 1, 2 * pos + 1, l.bitsUsed, l.hashUsed);
      OrderedConcat(l.matches, r.matches, First(height, pos), First(height - 1, 2 * pos + 1), First(height, pos + 1));
    }
  }

  // ---------- what is built ----------

  predicate AnyIn(mask: seq<bool>, lo: nat, hi: nat) {
    exists p :: lo <= p < hi && p < |mask| && mask[p]
  }

  /** Whether a node is the parent of a matched transaction. */
  predicate Marked(mask: seq<bool>, height: nat, pos: nat) {
    AnyIn(mask, First(height, pos), First(height, pos + 1))
  }

  /** The flag bits that TraverseAndBuild stores for a node, in depth-first order. */
  function TreeBits(mask: seq<bool>, height: nat, pos: nat): seq<bool>
    decreases height
  {
    [Marked(mask, height, pos)] +
    if height == 0 || !Marked(mask, height, pos) then []
    else TreeBits(mask, height - 1, 2 * pos) +
         if InTree(|mask|, height - 1, 2 * pos + 1) then TreeBits(mask, height - 1, 2 * pos + 1) else []
  }

  /** The hashes it stores. */
  function TreeHashes(H: Combine, txids: seq<Hash>, mask: seq<bool>, height: nat, pos: nat): seq<Hash>
    requires |txids| == |mask| && InTree(|txids|, height, pos)
    decreases height
  {
    if height == 0 || !Marked(mask, height, pos) then [CalcHash(H, txids, height, pos)]
    else
      ChildFirst(height, pos);
      TreeHashes(H, txids, mask, height - 1, 2 * pos) +
      if InTree(|mask|, height - 1, 2 * pos + 1) then TreeHashes(H, txids, mask, height - 1, 2 * pos + 1) else []
  }

  /** The matched transactions from lo to hi, in order. */
  function Selected(txids: seq<Hash>, mask: seq<bool>, lo: nat, hi: nat): seq<Match>
    requires |txids| == |mask|
    decreases hi - lo
  {
    if lo >= hi || lo >= |txids| then []
    else (if mask[lo] then [Match(txids[lo], lo)] else []) + Selected(txids, mask, lo + 1, hi)
  }

  lemma {:induction false} SelectedSplit(txids: seq<Hash>, mask: seq<bool>, lo: nat, mid: nat, hi: nat)
    requires |txids| == |mask| && lo <= mid <= hi
    ensures Selected(txids, mask, lo, hi) == Selected(txids, mask, lo, mid) + Selected(txids, mask, mid, hi)
    decreases mid - lo
  {
    if lo >= mid || lo >= |txids| {
    } else {
      SelectedSplit(txids, mask, lo + 1, mid, hi);
    }
  }

  lemma {:induction false} SelectedNone(txids: seq<Hash>, mask: seq<bool>, lo: nat, hi: nat)
    requires |txids| == |mask| && !AnyIn(mask, lo, hi)
    ensures Selected(txids, mask, lo, hi) == []
    decreases hi - lo
  {
    if lo >= hi || lo >= |txids| {
    } else {
      SelectedNone(txids, mask, lo + 1, hi);
    }
  }

  // ---------- completeness ----------

  ghost predicate Distinct(txids: seq<Hash>) {
    forall i, j :: 0 <= i < j < |txids| ==> txids[i] != txids[j]
  }

  /** Equal nodes at one height start with equal leaves. */
  lemma {:induction false} EqualNodes(H: Combine, txids: seq<Hash>, height: nat, p1: nat, p2: nat)
    requires PairInjective(H) && InTree(|txids|, height, p1) && InTree(|txids|, height, p2)
    requires CalcHash(H, txids, height, p1) == CalcHash(H, txids, height, p2)
    ensures txids[First(height, p1)] == txids[First(height, p2)]
    decreases height
  {
    if height == 0 {
    } else {
      ChildFirst(height, p1);
      ChildFirst(height, p2);
      EqualNodes(H, txids, height - 1, 2 * p1, 2 * p2);
    }
  }

  /** The check against identical branches never fires on a real tree. */
  lemma SiblingsDiffer(H: Combine, txids: seq<Hash>, height: nat, pos: nat)
    requires PairInjective(H) && Distinct(txids)
    requires InTree(|txids|, height, 2 * pos) && InTree(|txids|, height, 2 * pos + 1)
    ensures CalcHash(H, txids, height, 2 * pos) != CalcHash(H, txids, height, 2 * pos + 1)
  {
    FirstNext(height, 2 * pos);
    if CalcHash(H, txids, height, 2 * pos) == CalcHash(H, txids, height, 2 * pos + 1) {
      EqualNodes(H, txids, height, 2 * pos, 2 * pos + 1);
    }
  }

  /** b occurs in s from position i on. */
  ghost predicate Holds<T>(s: seq<T>, i: nat, b: seq<T>) {
    i + |b| <= |s| && s[i..i + |b|] == b
  }

  lemma HoldsConcat<T>(s: seq<T>, i: nat, a: seq<T>, b: seq<T>)
    requires Holds(s, i, a + b)
    ensures Holds(s, i, a) && Holds(s, i + |a|, b)
  {
    assert s[i..i + |a|] == (a + b)[..|a|];
    assert s[i + |a|..i + |a| + |b|] == (a + b)[|a|..];
  }

  lemma HoldsOne<T>(s: seq<T>, i: nat, x: T)
    requires Holds(s, i, [x])
    ensures i < |s| && s[i] == x
  {
    assert s[i..i + 1][0] == x;
  }

  /** What the traversal of a built node must give. */
  ghost function Expected(H: Combine, txids: seq<Hash>, mask: seq<bool>, height: nat, pos: nat, bu: nat,
                          hu: nat): Walked
    requires |txids| == |mask| && InTree(|txids|, height, pos)
  {
    Walked(CalcHash(H, txids, height, pos), bu + |TreeBits(mask, height, pos)|,
           hu + |TreeHashes(H, txids, mask, height, pos)|,
           Selected(txids, mask, First(height, pos), First(height, pos + 1)), false)
  }

  /** Completeness of the traversal, wherever the node's data sits in the two vectors. */
  lemma {:induction false} WalkComplete(H: Combine, txids: seq<Hash>, mask: seq<bool>, bits: seq<bool>,
                                        hashes: seq<Hash>,
                                        height: nat, pos: nat, bu: nat, hu: nat)
    requires PairInjective(H) && Distinct(txids) && |txids| == |mask| && InTree(|txids|, height, pos)
    requires Holds(bits, bu, TreeBits(mask, height, pos)) && Holds(hashes, hu, TreeHashes(H, txids, mask, height, pos))
    ensures Walk(H, |txids|, bits, hashes, height, pos, bu, hu) == Expected(H, txids, mask, height, pos, bu, hu)
    decreases height
  {
    hide *;
    if height == 0 || !Marked(mask, height, pos) {
      WalkStops(H, txids, mask, bits, hashes, height, pos, bu, hu);
    } else {
      var left, right, lh, rh := BuiltNode(H, txids, mask, height, pos);
      HoldsConcat(bits, bu, [true], left + right);
      HoldsOne(bits, bu, true);
      HoldsConcat(bits, bu + 1, left, right);
      HoldsConcat(hashes, hu, lh, rh);
      WalkComplete(H, txids, mask, bits, hashes, height - 1, 2 * pos, bu + 1, hu);
      if InTree(|txids|, height - 1, 2 * pos + 1) {
        ExpectedEnd(H, txids, mask, height - 1, 2 * pos, bu + 1, hu);
        WalkComplete(H, txids, mask, bits, hashes, height - 1, 2 * pos + 1, bu + 1 + |left|, hu + |lh|);
        SiblingsDiffer(H, txids, height - 1, pos);
      }
      WalkNode(H, |txids|, bits, hashes, height, pos, bu, hu);
      ExpectedNode(H, txids, mask, height, pos, bu, hu);
    }
  }

  lemma ExpectedEnd(H: Combine, txids: seq<Hash>, mask: seq<bool>, height: nat, pos: nat, bu: nat, hu: nat)
    requires |txids| == |mask| && InTree(|txids|, height, pos)
    ensures var e := Expected(H, txids, mask, height, pos, bu, hu);
      e.bitsUsed == bu + |TreeBits(mask, height, pos)| && e.hashUsed == hu + |TreeHashes(H, txids, mask, height, pos)|
  {
  }

  /** The data of a node that is descended into: a set bit, then the children's data. */
  lemma BuiltNode(H: Combine, txids: seq<Hash>, mask: seq<bool>, height: nat, pos: nat)
    returns (left: seq<bool>, right: seq<bool>, lh: seq<Hash>, rh: seq<Hash>)
    requires |txids| == |mask| && InTree(|txids|, height, pos) && height > 0 && Marked(mask, height, pos)
    ensures TreeBits(mask, height, pos) == [true] + (left + right)
    ensures TreeHashes(H, txids, mask, height, pos) == lh + rh
    ensures InTree(|txids|, height - 1, 2 * pos)
    ensures left == TreeBits(mask, height - 1, 2 * pos) && lh == TreeHashes(H, txids, mask, height - 1, 2 * pos)
    ensures InTree(|txids|, height - 1, 2 * pos + 1) ==>
      right == TreeBits(mask, height - 1, 2 * pos + 1) && rh == TreeHashes(H, txids, mask, height - 1, 2 * pos + 1)
    ensures !InTree(|txids|, height - 1, 2 * pos + 1) ==> right == [] && rh == []
  {
    ChildFirst(height, pos);
    left, lh := TreeBits(mask, height - 1, 2 * pos), TreeHashes(H, txids, mask, height - 1, 2 * pos);
    if InTree(|txids|, height - 1, 2 * pos + 1) {
      right, rh := TreeBits(mask, height - 1, 2 * pos + 1), TreeHashes(H, txids, mask, height - 1, 2 * pos + 1);
    } else {
      right, rh := [], [];
    }
  }

  lemma WalkNode(H: Combine, n: nat, bits: seq<bool>, hashes: seq<Hash>, height: nat, pos: nat, bu: nat, hu: nat)
    requires height > 0 && bu < |bits| && bits[bu]
    ensures var l := Walk(H, n, bits, hashes, height - 1, 2 * pos, bu + 1, hu);
      Walk(H, n, bits, hashes, height, pos, bu, hu) ==
      if InTree(n, height - 1, 2 * pos + 1)
      then Join(H, l, Walk(H, n, bits, hashes, height - 1, 2 * pos + 1, l.bitsUsed, l.hashUsed))
      else l.(hash := H(l.hash, l.hash))
  {
  }

  /** What a node must give, from what its children must give. */
  lemma ExpectedNode(H: Combine, txids: seq<Hash>, mask: seq<bool>, height: nat, pos: nat, bu: nat, hu: nat)
    requires |txids| == |mask| && InTree(|txids|, height, pos) && height > 0 && Marked(mask, height, pos)
    requires InTree(|txids|, height - 1, 2 * pos)
    requires InTree(|txids|, height - 1, 2 * pos + 1) ==>
      CalcHash(H, txids, height - 1, 2 * pos) != CalcHash(H, txids, height - 1, 2 * pos + 1)
    ensures var l := Expected(H, txids, mask, height - 1, 2 * pos, bu + 1, hu);
      Expected(H, txids, mask, height, pos, bu, hu) ==
      if InTree(|txids|, height - 1, 2 * pos + 1)
      then Join(H, l, Expected(H, txids, mask, height - 1, 2 * pos + 1, l.bitsUsed, l.hashUsed))
      else l.(hash := H(l.hash, l.hash))
  {
    hide First, Marked, Selected, AnyIn;
    ChildFirst(height, pos);
    SelectedHalves(txids, mask, height, pos);
  }

  lemma WalkStops(H: Combine, txids: seq<Hash>, mask: seq<bool>, bits: seq<bool>, hashes: seq<Hash>, height: nat,
                  pos: nat, bu: nat, hu: nat)
    requires |txids| == |mask| && InTree(|txids|, height, pos) && (height == 0 || !Marked(mask, height, pos))
    requires Holds(bits, bu, TreeBits(mask, height, pos)) && Holds(hashes, hu, TreeHashes(H, txids, mask, height, pos))
    ensures Walk(H, |txids|, bits, hashes, height, pos, bu, hu) == Expected(H, txids, mask, height, pos, bu, hu)
  {
    var b := TreeBits(mask, height, pos);
    assert b == [Marked(mask, height, pos)];
    assert bits[bu] == b[0];
    assert hashes[hu] == TreeHashes(H, txids, mask, height, pos)[0];
    if !Marked(mask, height, pos) {
      SelectedNone(txids, mask, First(height, pos), First(height, pos + 1));
    } else {
      SelectedLeaf(txids, mask, pos);
    }
  }

  lemma SelectedLeaf(txids: seq<Hash>, mask: seq<bool>, pos: nat)
    requires |txids| == |mask| && pos < |txids| && Marked(mask, 0, pos)
    ensures Selected(txids, mask, First(0, pos), First(0, pos + 1)) == [Match(txids[pos], pos)]
  {
    assert First(0, pos) == pos && First(0, pos + 1) == pos + 1;
    assert Selected(txids, mask, pos + 1, pos + 1) == [];
  }

  lemma SelectedHalves(txids: seq<Hash>, mask: seq<bool>, height: nat, pos: nat)
    requires |txids| == |mask| && height > 0
    ensures Selected(txids, mask, First(height, pos), First(height, pos + 1))
      == Selected(txids, mask, First(height - 1, 2 * pos), First(height - 1, 2 * pos + 1))
       + (if InTree(|txids|, height - 1, 2 * pos + 1)
          then Selected(txids, mask, First(height - 1, 2 * pos + 1), First(height - 1, 2 * pos + 2)) else [])
  {
    ChildFirst(height, pos);
    FirstNext(height, pos);
    SelectedSplit(txids, mask, First(height, pos), First(height - 1, 2 * pos + 1), First(height, pos + 1));
  }

  // ---------- proofs as trees ----------

  /** A proof: a node whose hash is given, one whose only child is proved, or one with two such children. */
  datatype Proof = Given(hash: Hash, flag: bool) | Only(child: Proof) | Fork(left: Proof, right: Proof)

  function ProvedHash(H: Combine, t: Proof): Hash {
    match t
    case Given(hash, _) => hash
    case Only(c) => H(ProvedHash(H, c), ProvedHash(H, c))
    case Fork(l, r) => H(ProvedHash(H, l), ProvedHash(H, r))
  }

  /** The proof has the form of the tree of n transactions under a node, only a leaf is given as matched,
      and no two siblings are equal. */
  predicate Shaped(H: Combine, n: nat, height: nat, pos: nat, t: Proof) {
    match t
    case Given(_, flag) => height == 0 || !flag
    case Only(c) => height > 0 && !InTree(n, height - 1, 2 * pos + 1) && Shaped(H, n, height - 1, 2 * pos, c)
    case Fork(l, r) =>
      && height > 0 && InTree(n, height - 1, 2 * pos + 1) && ProvedHash(H, l) != ProvedHash(H, r)
      && Shaped(H, n, height - 1, 2 * pos, l) && Shaped(H, n, height - 1, 2 * pos + 1, r)
  }

  /** Its flags and its hashes, depth first, and the transactions it shows as matched. */
  function ProofBits(t: Proof): (bits: seq<bool>)
    ensures |bits| > 0
  {
    match t
    case Given(_, flag) => [flag]
    case Only(c) => [true] + ProofBits(c)
    case Fork(l, r) => [true] + (ProofBits(l) + ProofBits(r))
  }

  function ProofHashes(t: Proof): seq<Hash> {
    match t
    case Given(hash, _) => [hash]
    case Only(c) => ProofHashes(c)
    case Fork(l, r) => ProofHashes(l) + ProofHashes(r)
  }

  function ProofMatches(t: Proof, pos: nat): seq<Match> {
    match t
    case Given(hash, flag) => if flag then [Match(hash, pos)] else []
    case Only(c) => ProofMatches(c, 2 * pos)
    case Fork(l, r) => ProofMatches(l, 2 * pos) + ProofMatches(r, 2 * pos + 1)
  }

  ghost function Proved(H: Combine, t: Proof, pos: nat, bu: nat, hu: nat): Walked {
    Walked(ProvedHash(H, t), bu + |ProofBits(t)|, hu + |ProofHashes(t)|, ProofMatches(t, pos), false)
  }

  /** The traversal of a proof, wherever its data is, gives what it proves; what follows is not looked at. */
  lemma {:induction false} ProofIsWalked(H: Combine, n: nat, bits: seq<bool>, hashes: seq<Hash>, height: nat, pos: nat,
                                         bu: nat, hu: nat, t: Proof)
    requires Shaped(H, n, height, pos, t) && Holds(bits, bu, ProofBits(t)) && Holds(hashes, hu, ProofHashes(t))
    ensures Walk(H, n, bits, hashes, height, pos, bu, hu) == Proved(H, t, pos, bu, hu)
    decreases t
  {
    hide InTree, Holds, Walk;
    match t
    case Given(hash, flag) =>
      HoldsOne(bits, bu, flag);
      HoldsOne(hashes, hu, hash);
      WalkLeaf(H, n, bits, hashes, height, pos, bu, hu);
    case Only(c) =>
      HoldsConcat(bits, bu, [true], ProofBits(c));
      HoldsOne(bits, bu, true);
      WalkNode(H, n, bits, hashes, height, pos, bu, hu);
      ProofIsWalked(H, n, bits, hashes, height - 1, 2 * pos, bu + 1, hu, c);
    case Fork(l, r) =>
      HoldsConcat(bits, bu, [true], ProofBits(l) + ProofBits(r));
      HoldsOne(bits, bu, true);
      HoldsConcat(bits, bu + 1, ProofBits(l), ProofBits(r));
      HoldsConcat(hashes, hu, ProofHashes(l), ProofHashes(r));
      WalkNode(H, n, bits, hashes, height, pos, bu, hu);
      ProofIsWalked(H, n, bits, hashes, height - 1, 2 * pos, bu + 1, hu, l);
      ProofIsWalked(H, n, bits, hashes, height - 1, 2 * pos + 1, bu + 1 + |ProofBits(l)|, hu + |ProofHashes(l)|, r);
  }

  lemma WalkLeaf(H: Combine, n: nat, bits: seq<bool>, hashes: seq<Hash>, height: nat, pos: nat, bu: nat, hu: nat)
    ensures bu >= |bits| ==> Walk(H, n, bits, hashes, height, pos, bu, hu) == Walked(0, bu, hu, [], true)
    ensures bu < |bits| && (height == 0 || !bits[bu]) ==>
      Walk(H, n, bits, hashes, height, pos, bu, hu) ==
      if hu >= |hashes| then Walked(0, bu + 1, hu, [], true)
      else Walked(hashes[hu], bu + 1, hu + 1, if height == 0 && bits[bu] then [Match(hashes[hu], pos)] else [], false)
  {
  }

  /** A traversal without error has read a proof. */
  lemma {:induction false} WalkedIsProof(H: Combine, n: nat, bits: seq<bool>, hashes: seq<Hash>, height: nat, pos: nat,
                                         bu: nat, hu: nat) returns (t: Proof)
    requires !Walk(H, n, bits, hashes, height, pos, bu, hu).bad
    ensures Shaped(H, n, height, pos, t) && Holds(bits, bu, ProofBits(t)) && Holds(hashes, hu, ProofHashes(t))
    ensures Walk(H, n, bits, hashes, height, pos, bu, hu) == Proved(H, t, pos, bu, hu)
    decreases height
  {
    hide InTree, Walk;
    WalkLeaf(H, n, bits, hashes, height, pos, bu, hu);
    if height == 0 || !bits[bu] {
      t := Given(hashes[hu], bits[bu]);
    } else {
      WalkNode(H, n, bits, hashes, height, pos, bu, hu);
      var l := WalkedIsProof(H, n, bits, hashes, height - 1, 2 * pos, bu + 1, hu);
      if InTree(n, height - 1, 2 * pos + 1) {
        var bl, hl := bu + 1 + |ProofBits(l)|, hu + |ProofHashes(l)|;
        var r := WalkedIsProof(H, n, bits, hashes, height - 1, 2 * pos + 1, bl, hl);
        t := Fork(l, r);
        HoldsMore(bits, bu + 1, ProofBits(l), ProofBits(r));
        HoldsMore(hashes, hu, ProofHashes(l), ProofHashes(r));
        HoldsMore(bits, bu, [true], ProofBits(l) + ProofBits(r));
      } else {
        t := Only(l);
        HoldsMore(bits, bu, [true], ProofBits(l));
      }
    }
  }

  lemma HoldsMore<T>(s: seq<T>, i: nat, a: seq<T>, b: seq<T>)
    requires Holds(s, i, a) && Holds(s, i + |a|, b)
    ensures Holds(s, i, a + b)
  {
  }

  // ---------- sizes ----------

  function Min(a: int, b: int): int { if a < b then a else b }

  /** The transactions under a node. */
  function Leaves(n: nat, height: nat, pos: nat): int {
    Min(First(height, pos + 1), n) - First(height, pos)
  }

  /** A proof has no more hashes than the node has transactions, nor than it has flags. */
  lemma {:induction false} ProofHashesFew(H: Combine, n: nat, height: nat, pos: nat, t: Proof)
    requires Shaped(H, n, height, pos, t) && InTree(n, height, pos)
    ensures 1 <= |ProofHashes(t)| <= Leaves(n, height, pos) && |ProofHashes(t)| <= |ProofBits(t)|
    decreases t
  {
    hide First;
    FirstNext(height, pos);
    match t
    case Given(_, _) =>
    case Only(c) =>
      ChildFirst(height, pos);
      ProofHashesFew(H, n, height - 1, 2 * pos, c);
    case Fork(l, r) =>
      ChildFirst(height, pos);
      ProofHashesFew(H, n, height - 1, 2 * pos, l);
      ProofHashesFew(H, n, height - 1, 2 * pos + 1, r);
  }

  /** No more hashes are stored for a node than it has transactions. */
  lemma {:induction false} HashesAtMostLeaves(H: Combine, txids: seq<Hash>, mask: seq<bool>, height: nat, pos: nat)
    requires |txids| == |mask| && InTree(|txids|, height, pos)
    ensures 1 <= |TreeHashes(H, txids, mask, height, pos)| <= Leaves(|txids|, height, pos)
    decreases height
  {
    hide First;
    FirstNext(height, pos);
    if height == 0 || !Marked(mask, height, pos) {
    } else {
      ChildFirst(height, pos);
      HashesAtMostLeaves(H, txids, mask, height - 1, 2 * pos);
      if InTree(|txids|, height - 1, 2 * pos + 1) {
        HashesAtMostLeaves(H, txids, mask, height - 1, 2 * pos + 1);
      }
    }
  }

  /** Nor more than one, plus the height for every match. */
  lemma {:induction false} HashesAtMostPaths(H: Combine, txids: seq<Hash>, mask: seq<bool>, height: nat, pos: nat)
    requires |txids| == |mask| && InTree(|txids|, height, pos)
    ensures |TreeHashes(H, txids, mask, height, pos)|
      <= 1 + |Selected(txids, mask, First(height, pos), First(height, pos + 1))| * height
    decreases height
  {
    hide First, Selected, Marked, AnyIn;
    if height == 0 || !Marked(mask, height, pos) {
    } else {
      ChildFirst(height, pos);
      SelectedHalves(txids, mask, height, pos);
      MarkedSelects(txids, mask, height, pos);
      var l := |Selected(txids, mask, First(height - 1, 2 * pos), First(height - 1, 2 * pos + 1))|;
      HashesAtMostPaths(H, txids, mask, height - 1, 2 * pos);
      if InTree(|txids|, height - 1, 2 * pos + 1) {
        var r := |Selected(txids, mask, First(height - 1, 2 * pos + 1), First(height - 1, 2 * pos + 2))|;
        HashesAtMostPaths(H, txids, mask, height - 1, 2 * pos + 1);
        PathsAdd(l, r, height);
      } else {
        PathsAdd(l, 0, height);
      }
    }
  }

  lemma PathsAdd(l: nat, r: nat, height: nat)
    requires height > 0 && l + r >= 1
    ensures 2 + l * (height - 1) + r * (height - 1) <= 1 + (l + r) * height
  {
    assert (l + r) * height == l * (height - 1) + r * (height - 1) + l + r;
  }

  lemma MarkedSelects(txids: seq<Hash>, mask: seq<bool>, height: nat, pos: nat)
    requires |txids| == |mask| && Marked(mask, height, pos)
    ensures |Selected(txids, mask, First(height, pos), First(height, pos + 1))| >= 1
  {
    var p :| First(height, pos) <= p < First(height, pos + 1) && p < |mask| && mask[p];
    SelectedSplit(txids, mask, First(height, pos), p, First(height, pos + 1));
  }

  /** The nodes descended into that have no right child. */
  function OnlyChildren(mask: seq<bool>, height: nat, pos: nat): nat
    decreases height
  {
    if height == 0 || !Marked(mask, height, pos) then 0
    else if InTree(|mask|, height - 1, 2 * pos + 1)
    then OnlyChildren(mask, height - 1, 2 * pos) + OnlyChildren(mask, height - 1, 2 * pos + 1)
    else 1 + OnlyChildren(mask, height - 1, 2 * pos)
  }

  /** The number of flag bits: 2N - 1 for N hashes, plus one for every only child.  So the bound
      '<= 2N - 1' of the header holds exactly when no node on the way to a match lacks its sibling. */
  lemma {:induction false} BitCount(H: Combine, txids: seq<Hash>, mask: seq<bool>, height: nat, pos: nat)
    requires |txids| == |mask| && InTree(|txids|, height, pos)
    ensures |TreeBits(mask, height, pos)| ==
      2 * |TreeHashes(H, txids, mask, height, pos)| - 1 + OnlyChildren(mask, height, pos)
    ensures |TreeBits(mask, height, pos)| <= 2 * |TreeHashes(H, txids, mask, height, pos)| - 1 <==>
      OnlyChildren(mask, height, pos) == 0
    decreases height
  {
    hide First, Marked;
    if height == 0 || !Marked(mask, height, pos) {
    } else {
      ChildFirst(height, pos);
      BitCount(H, txids, mask, height - 1, 2 * pos);
      if InTree(|txids|, height - 1, 2 * pos + 1) { BitCount(H, txids, mask, height - 1, 2 * pos + 1); }
    }
  }

  /** Only the last node of a level can lack its sibling, so there is at most one per level, and none
      below a node with all its transactions. */
  lemma {:induction false} OnlyChildrenFew(mask: seq<bool>, height: nat, pos: nat)
    ensures OnlyChildren(mask, height, pos) <= height
    ensures First(height, pos + 1) <= |mask| ==> OnlyChildren(mask, height, pos) == 0
    decreases height
  {
    hide First, Marked, Pow2;
    if height == 0 {
    } else {
      ChildFirst(height, pos);
      FirstNext(height, pos);
      Pow2Half(height);
      OnlyChildrenFew(mask, height - 1, 2 * pos);
      OnlyChildrenFew(mask, height - 1, 2 * pos + 1);
      assert First(height - 1, 2 * pos + 1 + 1) == First(height, pos + 1);
      if First(height, pos + 1) <= |mask| { assert InTree(|mask|, height - 1, 2 * pos + 1); }
    }
  }

  /** With every transaction matched, every transaction is stored. */
  lemma {:induction false} AllStored(H: Combine, txids: seq<Hash>, mask: seq<bool>, height: nat, pos: nat)
    requires |txids| == |mask| && InTree(|txids|, height, pos) && forall i :: 0 <= i < |mask| ==> mask[i]
    ensures |TreeHashes(H, txids, mask, height, pos)| == Leaves(|txids|, height, pos)
    decreases height
  {
    hide First, Pow2;
    FirstNext(height, pos);
    if height == 0 {
      Pow2Zero();
    } else {
      assert mask[First(height, pos)] && Marked(mask, height, pos);
      ChildFirst(height, pos);
      Pow2Half(height);
      assert First(height - 1, 2 * pos + 1 + 1) == First(height, pos + 1);
      AllStored(H, txids, mask, height - 1, 2 * pos);
      if InTree(|txids|, height - 1, 2 * pos + 1) { AllStored(H, txids, mask, height - 1, 2 * pos + 1); }
    }
  }

  /** Three transactions with the last one matched: 4 bits for 2 hashes. */
  lemma BitBoundFails(H: Combine, a: Hash, b: Hash, c: Hash)
    ensures InTree(3, 2, 0)
    ensures |TreeBits([false, false, true], 2, 0)| == 4
    ensures |TreeHashes(H, [a, b, c], [false, false, true], 2, 0)| == 2
  {
    var mask := [false, false, true];
    assert Pow2(1) == 2 && Pow2(2) == 4;
    assert Marked(mask, 2, 0) by { assert mask[2]; }
    assert Marked(mask, 1, 1) by { assert mask[2]; }
    assert !Marked(mask, 1, 0);
    assert !InTree(3, 0, 3) && InTree(3, 1, 1);
    assert TreeBits(mask, 1, 0) == [false];
    assert |TreeBits(mask, 0, 2)| == 1;
    assert |TreeBits(mask, 1, 1)| == 2;
    assert |TreeHashes(H, [a, b, c], mask, 1, 1)| == 1;
    assert |TreeHashes(H, [a, b, c], mask, 1, 0)| == 1;
  }
}

/** The partial Merkle tree object, its serialised flag bits, and extraction. */
module MerkleBlock {
  import opened Bits
  import opened MerkleTree

  type Byte = x: int | 0 <= x < 0x100

  /** MAX_BLOCK_WEIGHT / MIN_TRANSACTION_WEIGHT. */
  const MAX_TRANSACTIONS := 64000000 / 240

  /** The height of the root: the least one with a single node. */
  ghost predicate IsRootHeight(n: nat, height: nat) {
    Width(n, height) <= 1 && forall k: nat :: k < height ==> Width(n, k) > 1
  }

  method RootHeight(n: nat) returns (height: nat)
    ensures IsRootHeight(n, height)
  {
    height := 0;
    while Width(n, height) > 1
      invariant forall k: nat :: k < height ==> Width(n, k) > 1
      decreases n - Pow2(height)
    {
      InTreeIffWidth(n, height, 1);
      height := height + 1;
    }
  }

  lemma RootHeightUnique(n: nat, a: nat, b: nat)
    requires IsRootHeight(n, a) && IsRootHeight(n, b)
    ensures a == b
  {
    assert (a < b ==> Width(n, a) > 1) && (b < a ==> Width(n, b) > 1);
  }

  /** The root covers all transactions. */
  lemma RootCovers(n: nat, height: nat)
    requires n > 0 && IsRootHeight(n, height)
    ensures InTree(n, height, 0) && First(height, 0) == 0 && First(height, 1) >= n
  {
    InTreeIffWidth(n, height, 1);
  }

  // ---------- the serialized size ----------

  /** The bytes of a count. */
  function CompactSize(n: nat): nat {
    if n < 253 then 1 else if n <= 0xFFFF then 3 else if n <= 0xFFFF_FFFF then 5 else 9
  }

  /** The number of transactions, the hashes, and the flag bytes, both with their count. */
  function SerializedSize(hashes: nat, bytes: nat): nat {
    4 + CompactSize(hashes) + 32 * hashes + CompactSize(bytes) + bytes
  }

  /** 10 + ceil(32.25 * N). */
  function SizeBound(hashes: nat): nat {
    10 + 32 * hashes + (hashes + 3) / 4
  }

  /** How many flag bytes the only children add. */
  function Excess(hashes: nat, only: nat): int {
    (2 * hashes + 6 + only) / 8 - (2 * hashes + 6) / 8
  }

  /** The promised bound on the size holds if and only if there are less than 253 hashes, or at most
      65535 of them and the only children add no byte, or up to two while the flag bytes can be counted
      in one. */
  lemma SizeGuarantee(H: Combine, txids: seq<Hash>, mask: seq<bool>, height: nat)
    requires |txids| == |mask| <= 0x1_0000_0000 && InTree(|txids|, height, 0) && IsRootHeight(|txids|, height)
    ensures var hashes := |TreeHashes(H, txids, mask, height, 0)|;
      var only, bytes := OnlyChildren(mask, height, 0), (|TreeBits(mask, height, 0)| + 7) / 8;
      SerializedSize(hashes, bytes) <= SizeBound(hashes) <==>
        || hashes < 253
        || (hashes <= 0xFFFF && Excess(hashes, only) <= if bytes < 253 then 2 else 0)
  {
    hide Pow2, First, IsRootHeight, SerializedSize, SizeBound, Excess, TreeHashes, TreeBits, OnlyChildren, InTree;
    BitCount(H, txids, mask, height, 0);
    HashesAtMostLeaves(H, txids, mask, height, 0);
    OnlyChildrenFew(mask, height, 0);
    RootNotHigh(|txids|, height);
    SizeCases(|TreeHashes(H, txids, mask, height, 0)|, OnlyChildren(mask, height, 0));
  }

  lemma RootNotHigh(n: nat, height: nat)
    requires n <= 0x1_0000_0000 && IsRootHeight(n, height)
    ensures height <= 32
  {
    Pow2Values();
    InTreeIffWidth(n, 32, 1);
  }

  lemma SizeCases(hashes: nat, only: nat)
    requires only <= 32
    ensures var bytes := (2 * hashes - 1 + only + 7) / 8;
      SerializedSize(hashes, bytes) <= SizeBound(hashes) <==>
        || hashes < 253
        || (hashes <= 0xFFFF && Excess(hashes, only) <= if bytes < 253 then 2 else 0)
  {
    assert (2 * hashes + 6) / 8 == (hashes + 3) / 4;
  }

  /** A block of 65536 transactions, all matched, takes two bytes more than promised. */
  lemma SizeBoundFails(H: Combine, txids: seq<Hash>)
    requires |txids| == 0x1_0000
    ensures var mask := seq(0x1_0000, _ => true);
      && InTree(|txids|, 16, 0) && IsRootHeight(|txids|, 16)
      && var hashes := |TreeHashes(H, txids, mask, 16, 0)|;
      SerializedSize(hashes, (|TreeBits(mask, 16, 0)| + 7) / 8) == SizeBound(hashes) + 2
  {
    var mask := seq(0x1_0000, _ => true);
    Pow2Values();
    SixteenLevels();
    hide Pow2, IsRootHeight;
    assert First(16, 0) == 0 && First(16, 1) == 0x1_0000;
    AllStored(H, txids, mask, 16, 0);
    BitCount(H, txids, mask, 16, 0);
    OnlyChildrenFew(mask, 16, 0);
  }

  lemma SixteenLevels()
    ensures IsRootHeight(0x1_0000, 16)
  {
    Pow2Values();
    hide Pow2;
    InTreeIffWidth(0x1_0000, 16, 1);
    forall k: nat | k < 16 ensures Width(0x1_0000, k) > 1 {
      Pow2Mono(k, 15);
      Pow2Half(16);
      InTreeIffWidth(0x1_0000, k, 1);
    }
  }

  // ---------- flag bits, packed eight to a byte ----------

  /** The bytes hold the bits, least significant first, and zeros after them. */
  ghost predicate Packed(bits: seq<bool>, bytes: seq<Byte>) {
    && |bytes| == (|bits| + 7) / 8
    && forall p: nat :: p < 8 * |bytes| ==> (Bit(bytes[p / 8], p % 8) <==> p < |bits| && bits[p])
  }

  method PackBits(bits: seq<bool>) returns (bytes: seq<Byte>)
    ensures Packed(bits, bytes)
  {
    bytes := seq((|bits| + 7) / 8, _ => 0);
    forall q: nat ensures !Bit(0, q % 8) { BitZero(q % 8); }
    for p := 0 to |bits|
      invariant |bytes| == (|bits| + 7) / 8
      invariant forall q: nat :: q < 8 * |bytes| ==> (Bit(bytes[q / 8], q % 8) <==> q < p && bits[q])
    {
      hide Bit;
      if bits[p] {
        var b := bytes;
        SetBit(b[p / 8], p % 8);
        bytes := b[p / 8 := Or(b[p / 8], Pow2(p % 8))];
        forall q: nat | q < 8 * |bytes| ensures Bit(bytes[q / 8], q % 8) <==> q < p + 1 && bits[q] {
          if q / 8 == p / 8 {
            BitOr(b[p / 8], Pow2(p % 8), q % 8);
            BitPow2(p % 8, q % 8);
          }
        }
      }
    }
  }

  lemma SetBit(b: Byte, k: nat)
    requires k < 8
    ensures 0 <= Or(b, Pow2(k)) < 0x100
  {
    Pow2Values();
    Pow2Mono(k, 7);
    OrTop(b, Pow2(k), 7);
  }

  method UnpackBits(bytes: seq<Byte>) returns (bits: seq<bool>)
    ensures |bits| == 8 * |bytes|
    ensures forall p: nat :: p < |bits| ==> bits[p] == Bit(bytes[p / 8], p % 8)
  {
    bits := [];
    for p := 0 to 8 * |bytes|
      invariant |bits| == p
      invariant forall q: nat :: q < p ==> bits[q] == Bit(bytes[q / 8], q % 8)
    {
      hide Bit;
      AndPow2(bytes[p / 8], p % 8);
      bits := bits + [And(bytes[p / 8], Pow2(p % 8)) != 0];
    }
  }

  /** Unpacking gives the bits back, padded with zeros to a whole byte. */
  lemma PackRoundTrip(bits: seq<bool>, bytes: seq<Byte>, bits': seq<bool>)
    requires Packed(bits, bytes) && |bits'| == 8 * |bytes|
    requires forall p: nat :: p < |bits'| ==> bits'[p] == Bit(bytes[p / 8], p % 8)
    ensures bits <= bits' && (|bits'| + 7) / 8 == (|bits| + 7) / 8
    ensures forall p :: |bits| <= p < |bits'| ==> !bits'[p]
  {
    hide Bit;
  }

  // ---------- extraction ----------

  datatype Extraction = Extraction(root: Hash, matches: seq<Match>, ok: bool)

  /** ExtractMatches on a tree of the given root height; `ok` is false where the source returns the
      zero hash after a failed test. */
  function Extract(H: Combine, n: nat, bits: seq<bool>, hashes: seq<Hash>, height: nat): Extraction {
    if n == 0 || n > MAX_TRANSACTIONS || |hashes| > n || |bits| < |hashes| then Extraction(0, [], false)
    else
      var w := Walk(H, n, bits, hashes, height, 0, 0, 0);
      if w.bad || (w.bitsUsed + 7) / 8 != (|bits| + 7) / 8 || w.hashUsed != |hashes|
      then Extraction(0, w.matches, false)
      else Extraction(w.hash, w.matches, true)
  }

  /** The data is a proof for n transactions: all hashes are used, and all flags but for the padding of
      the last byte. */
  ghost predicate IsProof(H: Combine, n: nat, bits: seq<bool>, hashes: seq<Hash>, height: nat, t: Proof) {
    && Shaped(H, n, height, 0, t) && ProofHashes(t) == hashes
    && ProofBits(t) <= bits && (|ProofBits(t)| + 7) / 8 == (|bits| + 7) / 8
  }

  /** What is accepted: up to the greatest number of transactions, exactly the proofs; and what comes out
      is the hash they prove and the transactions they show. */
  lemma AcceptsProofs(H: Combine, n: nat, bits: seq<bool>, hashes: seq<Hash>, height: nat)
    requires n > 0 ==> IsRootHeight(n, height)
    ensures Extract(H, n, bits, hashes, height).ok <==>
      0 < n <= MAX_TRANSACTIONS && exists t :: IsProof(H, n, bits, hashes, height, t)
    ensures forall t :: 0 < n <= MAX_TRANSACTIONS && IsProof(H, n, bits, hashes, height, t) ==>
      Extract(H, n, bits, hashes, height) == Extraction(ProvedHash(H, t), ProofMatches(t, 0), true)
    ensures !Extract(H, n, bits, hashes, height).ok ==> Extract(H, n, bits, hashes, height).root == 0
  {
    hide Walk, Shaped, InTree, IsRootHeight;
    if 0 < n <= MAX_TRANSACTIONS {
      RootCovers(n, height);
      forall t | IsProof(H, n, bits, hashes, height, t)
        ensures Extract(H, n, bits, hashes, height) == Extraction(ProvedHash(H, t), ProofMatches(t, 0), true)
      {
        ProofHashesFew(H, n, height, 0, t);
        ProofIsWalked(H, n, bits, hashes, height, 0, 0, 0, t);
      }
      if Extract(H, n, bits, hashes, height).ok {
        var t := WalkedIsProof(H, n, bits, hashes, height, 0, 0, 0);
        assert IsProof(H, n, bits, hashes, height, t);
      }
    }
  }

  /** An accepted proof cannot be padded: neither with hashes, nor with flags beyond the last byte. */
  lemma NoPadding(H: Combine, n: nat, bits: seq<bool>, hashes: seq<Hash>, height: nat, more: seq<bool>,
                  extra: seq<Hash>)
    requires n > 0 && IsRootHeight(n, height) && Extract(H, n, bits, hashes, height).ok
    ensures Extract(H, n, bits + more, hashes + extra, height).ok <==>
      extra == [] && (|bits| + |more| + 7) / 8 == (|bits| + 7) / 8
  {
    hide Walk, Shaped, IsRootHeight;
    AcceptsProofs(H, n, bits, hashes, height);
    var t :| IsProof(H, n, bits, hashes, height, t);
    RootCovers(n, height);
    ProofHashesFew(H, n, height, 0, t);
    ProofIsWalked(H, n, bits + more, hashes + extra, height, 0, 0, 0, t);
  }

  /** Soundness of a proof: whatever the bits and hashes are, a successful extraction whose root is
      the block's reports only transactions of the block, each at its own index, in order. */
  lemma ExtractSound(H: Combine, txids: seq<Hash>, bits: seq<bool>, hashes: seq<Hash>, height: nat)
    requires PairInjective(H) && |txids| > 0 && IsRootHeight(|txids|, height)
    requires InTree(|txids|, height, 0)
    requires var x := Extract(H, |txids|, bits, hashes, height); x.ok && x.root == CalcHash(H, txids, height, 0)
    ensures var m := Extract(H, |txids|, bits, hashes, height).matches;
      Sound(txids, m) && forall i, j :: 0 <= i < j < |m| ==> m[i].index < m[j].index
  {
    WalkSound(H, txids, bits, hashes, height, 0, 0, 0);
    WalkOrdered(H, |txids|, bits, hashes, height, 0, 0, 0);
  }

  /** Completeness: from the data built for a block and a mask, with padded bits, extraction gives the
      true root and exactly the matched transactions. */
  lemma ExtractComplete(H: Combine, txids: seq<Hash>, mask: seq<bool>, bits: seq<bool>, height: nat)
    requires PairInjective(H) && Distinct(txids) && 0 < |txids| == |mask| <= MAX_TRANSACTIONS
    requires IsRootHeight(|txids|, height) && InTree(|txids|, height, 0)
    requires TreeBits(mask, height, 0) <= bits && (|bits| + 7) / 8 == (|TreeBits(mask, height, 0)| + 7) / 8
    ensures Extract(H, |txids|, bits, TreeHashes(H, txids, mask, height, 0), height)
      == Extraction(CalcHash(H, txids, height, 0), Selected(txids, mask, 0, |txids|), true)
  {
    hide Walk, CalcHash, TreeBits, TreeHashes, Selected, IsRootHeight;
    var hashes := TreeHashes(H, txids, mask, height, 0);
    RootCovers(|txids|, height);
    HashesAtMostLeaves(H, txids, mask, height, 0);
    BitCount(H, txids, mask, height, 0);
    assert Holds(bits, 0, TreeBits(mask, height, 0));
    assert Holds(hashes, 0, hashes);
    WalkComplete(H, txids, mask, bits, hashes, height, 0, 0, 0);
    SelectedSplit(txids, mask, 0, |txids|, First(height, 1));
    SelectedEmpty(txids, mask, |txids|, First(height, 1));
  }

  lemma SelectedEmpty(txids: seq<Hash>, mask: seq<bool>, lo: nat, hi: nat)
    requires |txids| == |mask| && lo >= |txids|
    ensures Selected(txids, mask, lo, hi) == []
  {
  }

  /** vBits and vHash are what the constructor stores for a block and a mask. */
  ghost predicate IsBuilt(H: Combine, txids: seq<Hash>, mask: seq<bool>, height: nat, bits: seq<bool>,
                          hashes: seq<Hash>) {
    && |txids| == |mask| && IsRootHeight(|txids|, height) && InTree(|txids|, height, 0)
    && bits == TreeBits(mask, height, 0) && hashes == TreeHashes(H, txids, mask, height, 0)
  }

  lemma BuiltFromEmpty(H: Combine, txids: seq<Hash>, mask: seq<bool>, height: nat, bits: seq<bool>, hashes: seq<Hash>)
    requires |txids| == |mask| && IsRootHeight(|txids|, height) && InTree(|txids|, height, 0)
    requires bits == [] + TreeBits(mask, height, 0) && hashes == [] + TreeHashes(H, txids, mask, height, 0)
    ensures IsBuilt(H, txids, mask, height, bits, hashes)
  {
    hide TreeBits, TreeHashes, IsRootHeight, InTree;
  }

  lemma BuiltLeaf(H: Combine, txids: seq<Hash>, mask: seq<bool>, height: nat, pos: nat)
    requires |txids| == |mask| && InTree(|txids|, height, pos) && (height == 0 || !Marked(mask, height, pos))
    ensures TreeBits(mask, height, pos) == [Marked(mask, height, pos)]
    ensures TreeHashes(H, txids, mask, height, pos) == [CalcHash(H, txids, height, pos)]
  {
  }

  lemma Assemble<T>(s: seq<T>, a: seq<T>, b: seq<T>, c: seq<T>)
    ensures s + a + b + c == s + (a + (b + c)) && s + a + b == s + (a + (b + [])) && [] + (b + c) == b + c
    ensures s + b + c == s + (b + c) && s + b == s + (b + [])
  {
  }

  class PartialMerkleTree {
    const H: Combine
    var nTransactions: nat
    var vBits: seq<bool>
    var vHash: seq<Hash>
    var fBad: bool

    constructor (H: Combine, txids: seq<Hash>, mask: seq<bool>)
      requires 0 < |txids| == |mask|
      ensures this.H == H && nTransactions == |txids| && !fBad
      ensures exists height: nat :: IsBuilt(H, txids, mask, height, vBits, vHash)
    {
      this.H := H;
      nTransactions := |txids|;
      vBits, vHash, fBad := [], [], false;
      new;
      hide *;
      var height := RootHeight(nTransactions);
      RootCovers(nTransactions, height);
      TraverseAndBuild(height, 0, txids, mask);
      BuiltFromEmpty(H, txids, mask, height, vBits, vHash);
    }

    /** A tree read from the wire. */
    constructor Received(H: Combine, n: nat, hashes: seq<Hash>, bytes: seq<Byte>)
      ensures this.H == H && nTransactions == n && vHash == hashes && !fBad && |vBits| == 8 * |bytes|
      ensures forall p: nat :: p < |vBits| ==> vBits[p] == Bit(bytes[p / 8], p % 8)
    {
      this.H := H;
      nTransactions, vHash, fBad := n, hashes, false;
      vBits := [];
      new;
      vBits := UnpackBits(bytes);
    }

    /** The loop over the leaves of a node. */
    method ParentOfMatch(height: nat, pos: nat, mask: seq<bool>) returns (any: bool)
      ensures any == Marked(mask, height, pos)
    {
      hide First;
      FirstNext(height, pos);
      any := false;
      var p := First(height, pos);
      while p < First(height, pos + 1) && p < |mask|
        invariant First(height, pos) <= p <= First(height, pos + 1)
        invariant any == AnyIn(mask, First(height, pos), p)
        decreases |mask| - p
      {
        any := any || mask[p];
        p := p + 1;
      }
    }

    method TraverseAndBuild(height: nat, pos: nat, txids: seq<Hash>, mask: seq<bool>)
      requires |txids| == |mask| == nTransactions && InTree(|txids|, height, pos)
      modifies this`vBits, this`vHash
      ensures vBits == old(vBits) + TreeBits(mask, height, pos)
      ensures vHash == old(vHash) + TreeHashes(H, txids, mask, height, pos)
      decreases height
    {
      hide Marked, First, InTree, Width, TreeBits, TreeHashes, CalcHash;
      ghost var bits, hashes := vBits, vHash;
      var any := ParentOfMatch(height, pos, mask);
      vBits := vBits + [any];
      if height == 0 || !any {
        BuiltLeaf(H, txids, mask, height, pos);
        vHash := vHash + [CalcHash(H, txids, height, pos)];
      } else {
        ghost var left, right, lh, rh := BuiltNode(H, txids, mask, height, pos);
        TraverseAndBuild(height - 1, 2 * pos, txids, mask);
        InTreeIffWidth(nTransactions, height - 1, 2 * pos + 1);
        if 2 * pos + 1 < Width(nTransactions, height - 1) {
          TraverseAndBuild(height - 1, 2 * pos + 1, txids, mask);
        }
        Assemble(bits, [any], left, right);
        Assemble(hashes, [], lh, rh);
      }
    }

    method TraverseAndExtract(height: nat, pos: nat, bu0: nat, hu0: nat, matches0: seq<Match>)
      returns (hash: Hash, bu: nat, hu: nat, matches: seq<Match>)
      modifies this`fBad
      ensures var w := Walk(H, nTransactions, vBits, vHash, height, pos, bu0, hu0);
        && hash == w.hash && bu == w.bitsUsed && hu == w.hashUsed
        && matches == matches0 + w.matches && fBad == (old(fBad) || w.bad)
      decreases height
    {
      hide First, InTree, Width, Walk;
      bu, hu, matches := bu0, hu0, matches0;
      WalkLeaf(H, nTransactions, vBits, vHash, height, pos, bu, hu);
      if bu >= |vBits| {
        fBad := true;
        return 0, bu, hu, matches;
      }
      var parent := vBits[bu];
      bu := bu + 1;
      if height == 0 || !parent {
        if hu >= |vHash| {
          fBad := true;
          return 0, bu, hu, matches;
        }
        hash := vHash[hu];
        hu := hu + 1;
        if height == 0 && parent {
          matches := matches + [Match(hash, pos)];
        }
      } else {
        var left, right;
        WalkNode(H, nTransactions, vBits, vHash, height, pos, bu0, hu0);
        left, bu, hu, matches := TraverseAndExtract(height - 1, 2 * pos, bu, hu, matches);
        InTreeIffWidth(nTransactions, height - 1, 2 * pos + 1);
        if 2 * pos + 1 < Width(nTransactions, height - 1) {
          right, bu, hu, matches := TraverseAndExtract(height - 1, 2 * pos + 1, bu, hu, matches);
          if right == left {
            fBad := true;
          }
        } else {
          right := left;
        }
        hash := H(left, right);
      }
    }

    /** Returns the root, or the zero hash after any failure; the matches are those met on the way. */
    method ExtractMatches() returns (root: Hash, matches: seq<Match>)
      modifies this`fBad
      ensures forall height: nat :: IsRootHeight(nTransactions, height) ==>
        var x := Extract(H, nTransactions, vBits, vHash, height);
        matches == x.matches && root == (if old(fBad) then 0 else x.root)
      ensures old(fBad) ==> fBad
    {
      root, matches := 0, [];
      if nTransactions == 0 || nTransactions > MAX_TRANSACTIONS || |vHash| > nTransactions || |vBits| < |vHash| {
        return;
      }
      hide Walk, IsRootHeight;
      var top := RootHeight(nTransactions);
      forall height: nat | IsRootHeight(nTransactions, height) ensures height == top {
        RootHeightUnique(nTransactions, height, top);
      }
      var bu, hu;
      root, bu, hu, matches := TraverseAndExtract(top, 0, 0, 0, []);
      if fBad || (bu + 7) / 8 != (|vBits| + 7) / 8 || hu != |vHash| {
        root := 0;
      }
    }
  }

  /** A filtered block sent to a peer: built, its bits packed, received, and extracted again, it
      yields the block's root and exactly the selected transactions. */
  method Relay(H: Combine, txids: seq<Hash>, mask: seq<bool>)
    returns (root: Hash, matches: seq<Match>, ghost height: nat)
    requires PairInjective(H) && Distinct(txids) && 0 < |txids| == |mask| <= MAX_TRANSACTIONS
    ensures IsRootHeight(|txids|, height) && InTree(|txids|, height, 0)
    ensures root == CalcHash(H, txids, height, 0) && matches == Selected(txids, mask, 0, |txids|)
  {
    hide Bit, TreeBits, TreeHashes, IsRootHeight, InTree, CalcHash, Selected, Extract, PairInjective, Packed, Distinct;
    var sent := new PartialMerkleTree(H, txids, mask);
    height :| IsBuilt(H, txids, mask, height, sent.vBits, sent.vHash);
    var bytes := PackBits(sent.vBits);
    var received := new PartialMerkleTree.Received(H, sent.nTransactions, sent.vHash, bytes);
    PackRoundTrip(sent.vBits, bytes, received.vBits);
    ExtractComplete(H, txids, mask, received.vBits, height);
    ghost var x := Extract(H, received.nTransactions, received.vBits, received.vHash, height);
    assert x == Extraction(CalcHash(H, txids, height, 0), Selected(txids, mask, 0, |txids|), true);
    root, matches := received.ExtractMatches();
    assert x == Extract(received.H, received.nTransactions, received.vBits, received.vHash, height);
  }
}
