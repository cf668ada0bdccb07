/** The block tree and the active chain of src/chain.cpp and src/chain.h. */
module BlockTree {
  import opened Bits

  /** One header.  Its parent and height never change; the skip pointer is filled in later. */
  class BlockIndex {
    const pprev: BlockIndex?
    const nHeight: nat
    const hash: nat
    var pskip: BlockIndex?

    constructor (parent: BlockIndex?, id: nat)
      ensures pprev == parent && hash == id && pskip == null
      ensures nHeight == if parent == null then 0 else parent.nHeight + 1
    {
      pprev, hash, pskip := parent, id, null;
      nHeight := if parent == null then 0 else parent.nHeight + 1;
    }
  }

  /** From b, h steps to the parent reach a block without one. */
  ghost predicate Rooted(b: BlockIndex, h: nat) {
    && b.nHeight == h
    && if h == 0 then b.pprev == null else b.pprev != null && b.pprev.nHeight == h - 1 && Rooted(b.pprev, h - 1)
  }

  /** The plain walk over the parents. */
  ghost function Ancestor(b: BlockIndex, height: nat): (r: BlockIndex)
    requires Rooted(b, b.nHeight) && height <= b.nHeight
    ensures Rooted(r, height)
    decreases b.nHeight
  {
    if height == b.nHeight then b else Ancestor(b.pprev, height)
  }

  lemma {:induction false} AncestorAncestor(b: BlockIndex, mid: nat, low: nat)
    requires Rooted(b, b.nHeight) && low <= mid <= b.nHeight
    ensures Ancestor(Ancestor(b, mid), low) == Ancestor(b, low)
    decreases b.nHeight
  {
    if mid == b.nHeight {
    } else {
      AncestorAncestor(b.pprev, mid, low);
    }
  }

  // ---------- the heights that are skipped to ----------

  /** n & (n - 1). */
  function InvertLowestOne(n: nat): nat {
    if n == 0 then 0 else And(n, n - 1)
  }

  function TrailingZeros(n: nat): nat
    requires n > 0
  {
    if n % 2 == 1 then 0 else 1 + TrailingZeros(n / 2)
  }

  lemma {:induction false} AndSelf(n: nat)
    ensures And(n, n) == n
  {
    hide And;
    AndHalf(n, n);
    if n > 0 { AndSelf(n / 2); } else { AndNothing(0); }
  }

  /** It takes the lowest one away, and nothing else. */
  lemma {:induction false} LowestOne(n: nat)
    requires n > 0
    ensures InvertLowestOne(n) == n - Pow2(TrailingZeros(n))
    ensures InvertLowestOne(n) < n
  {
    if n % 2 == 1 {
      AndSelf(n / 2);
      assert (n - 1) / 2 == n / 2;
    } else {
      LowestOne(n / 2);
      assert (n - 1) / 2 == n / 2 - 1;
    }
  }

  function SkipHeight(height: nat): nat {
    if height < 2 then 0
    else if height % 2 == 1 then InvertLowestOne(InvertLowestOne(height - 1)) + 1
    else InvertLowestOne(height)
  }

  /** A skip always goes down, which is all that the search needs of it. */
  lemma SkipGoesDown(height: nat)
    requires height > 0
    ensures SkipHeight(height) < height
  {
    if height >= 2 {
      if height % 2 == 1 {
        LowestOne(height - 1);
        if InvertLowestOne(height - 1) > 0 { LowestOne(InvertLowestOne(height - 1)); }
      } else {
        LowestOne(height);
      }
    }
  }

  // ---------- how many turns the search takes ----------

  /** Whether the search follows a skip pointer: it leads to the target or not so far, and the one of
      the parent would not be better. */
  predicate TakesSkip(walk: nat, target: int)
    requires walk > 0
  {
    var skip, skipPrev := SkipHeight(walk), SkipHeight(walk - 1);
    skip == target || (skip > target && !(skipPrev < skip - 2 && skipPrev >= target))
  }

  /** Where one turn of the search goes, with the skip pointer in place. */
  function NextHeight(walk: nat, target: nat): (h: nat)
    requires target < walk
    ensures target <= h < walk
  {
    SkipGoesDown(walk);
    if TakesSkip(walk, target) then SkipHeight(walk) else walk - 1
  }

  function Turns(walk: nat, target: nat): nat
    requires target <= walk
    decreases walk
  {
    if walk == target then 0 else 1 + Turns(NextHeight(walk, target), target)
  }

  /** The ones in the binary form of a number. */
  function Ones(x: nat): nat {
    if x == 0 then 0 else x % 2 + Ones(x / 2)
  }

  lemma {:induction false} OnesBound(x: nat, d: nat)
    requires x < Pow2(d)
    ensures Ones(x) <= d
    decreases d
  {
    if x == 0 {
    } else {
      OnesBound(x / 2, d - 1);
    }
  }

  lemma InvertDouble(n: nat)
    ensures InvertLowestOne(2 * n) == 2 * InvertLowestOne(n)
    ensures InvertLowestOne(2 * n + 1) == 2 * n
  {
    LowestOne(2 * n + 1);
    if n > 0 {
      LowestOne(n);
      LowestOne(2 * n);
      assert 2 * n / 2 == n;
    }
  }

  lemma {:induction false} OnesInvert(x: nat)
    requires x > 0
    ensures Ones(InvertLowestOne(x)) == Ones(x) - 1
  {
    hide InvertLowestOne;
    InvertDouble(x / 2);
    if x % 2 == 1 {
      assert x == 2 * (x / 2) + 1;
    } else {
      assert x == 2 * (x / 2);
      OnesInvert(x / 2);
    }
  }

  /** Above d bits, other bits do not change what becomes of the lowest one. */
  lemma {:induction false} InvertAbove(a: nat, d: nat, x: nat)
    requires 0 < x < Pow2(d)
    ensures InvertLowestOne(a * Pow2(d) + x) == a * Pow2(d) + InvertLowestOne(x)
    decreases d
  {
    hide InvertLowestOne;
    var half := a * Pow2(d - 1);
    assert a * Pow2(d) == 2 * half;
    InvertDouble(half + x / 2);
    InvertDouble(x / 2);
    if x % 2 == 1 {
      assert a * Pow2(d) + x == 2 * (half + x / 2) + 1 && x == 2 * (x / 2) + 1;
    } else {
      assert a * Pow2(d) + x == 2 * (half + x / 2) && x == 2 * (x / 2);
      InvertAbove(a, d - 1, x / 2);
    }
  }

  /** The middle of a block of 2^(d+1) heights. */
  function Mid(a: nat, d: nat): nat { (2 * a + 1) * Pow2(d) }

  function Start(a: nat, d: nat): nat { 2 * a * Pow2(d) }

  lemma {:induction false} InvertMid(a: nat, d: nat)
    ensures InvertLowestOne(Mid(a, d)) == Start(a, d) && Mid(a, d) == Start(a, d) + Pow2(d)
    ensures d > 0 ==> Mid(a, d) % 2 == 0 && Start(a, d) + 2 <= Mid(a, d)
    decreases d
  {
    hide InvertLowestOne, Mid, Start, Pow2;
    MidIs(a, d);
    Pow2Zero();
    if d == 0 {
      InvertDouble(a);
    } else {
      InvertMid(a, d - 1);
      MidIs(a, d - 1);
      Pow2Half(d);
      InvertDouble(Mid(a, d - 1));
    }
  }

  lemma MidIs(a: nat, d: nat)
    ensures Mid(a, d) == Start(a, d) + Pow2(d)
    ensures d == 0 ==> Start(a, d) == 2 * a
    ensures d > 0 ==> Start(a, d) == 2 * Start(a, d - 1)
  {
    if d > 0 {
      assert Pow2(d) == 2 * Pow2(d - 1);
      MidTimes(a, Pow2(d - 1));
    }
    hide Pow2;
    MidTimes(a, Pow2(d));
  }

  lemma MidTimes(a: nat, p: nat)
    ensures (2 * a + 1) * p == 2 * a * p + p && 2 * a * (2 * p) == 2 * (2 * a * p)
  {
  }

  lemma InvertUpper(a: nat, d: nat, x: nat)
    requires 0 < x < Pow2(d)
    ensures InvertLowestOne(Mid(a, d) + x) == Mid(a, d) + InvertLowestOne(x)
  {
    InvertAbove(2 * a + 1, d, x);
  }

  /** From an odd height in the upper half the skip leaves that half, or loses two ones. */
  lemma OddSkip(a: nat, d: nat, x: nat)
    requires x < Pow2(d) && x % 2 == 1
    ensures var s := SkipHeight(Mid(a, d) + x);
      || s < Mid(a, d)
      || (x >= 3 && var y := InvertLowestOne(InvertLowestOne(x - 1)) + 1;
          y < x && s == Mid(a, d) + y && Ones(y) == Ones(x) - 2)
  {
    hide InvertLowestOne, Mid, Start, Pow2, Ones;
    Pow2Zero();
    InvertMid(a, d);
    var v, mid := x - 1, Mid(a, d);
    OddSkipFrom(mid, v);
    if v == 0 {
      InvertSmaller(Start(a, d));
    } else {
      InvertUpper(a, d, v);
      EvenInverts(v);
      var u := InvertLowestOne(v);
      if u > 0 {
        InvertUpper(a, d, u);
        EvenInverts(u);
        OnesEven(InvertLowestOne(u));
        OnesEven(v);
      }
    }
  }

  lemma OddSkipFrom(mid: nat, v: nat)
    requires mid >= 2 && mid % 2 == 0 && v % 2 == 0
    ensures SkipHeight(mid + (v + 1)) == InvertLowestOne(InvertLowestOne(mid + v)) + 1
  {
    hide InvertLowestOne;
  }

  lemma InvertSmaller(n: nat)
    ensures InvertLowestOne(n) <= n && (n > 0 ==> InvertLowestOne(n) < n)
  {
    if n > 0 { LowestOne(n); }
  }

  lemma EvenInverts(v: nat)
    requires v > 0 && v % 2 == 0
    ensures InvertLowestOne(v) % 2 == 0 && InvertLowestOne(v) <= v - 2 && Ones(InvertLowestOne(v)) == Ones(v) - 1
  {
    hide InvertLowestOne;
    InvertDouble(v / 2);
    InvertSmaller(v / 2);
    OnesInvert(v);
    assert v == 2 * (v / 2);
  }

  lemma OnesEven(v: nat)
    requires v % 2 == 0
    ensures Ones(v + 1) == Ones(v) + 1
  {
    assert (v + 1) / 2 == v / 2;
  }

  /** At an odd height the skip is taken whenever it does not go below the target. */
  lemma OddTurn(walk: nat, target: nat)
    requires target < walk && walk >= 3 && walk % 2 == 1
    ensures NextHeight(walk, target) == if SkipHeight(walk) >= target then SkipHeight(walk) else walk - 1
  {
    hide InvertLowestOne;
    InvertSmaller(InvertLowestOne(walk - 1));
  }

  lemma OnesDouble(h: nat)
    ensures Ones(2 * h) == Ones(h) && Ones(2 * h + 1) == Ones(h) + 1
  {
    assert 2 * h / 2 == h && (2 * h + 1) / 2 == h;
  }

  /** Two below an even number has no more ones, unless the skip from there goes less far. */
  lemma TwoBelow(x: nat)
    requires x >= 4 && x % 2 == 0
    ensures Ones(x - 2) <= Ones(x) || InvertLowestOne(InvertLowestOne(x - 2)) + 1 >= InvertLowestOne(x)
  {
    hide InvertLowestOne, Ones;
    var h := x / 2;
    OnesDouble(h);
    OnesDouble(h - 1);
    assert x == 2 * h && x - 2 == 2 * (h - 1);
    if h % 2 == 1 {
      OnesEven(h - 1);
    } else if h % 4 == 2 {
      var j := h / 4;
      OnesDouble(2 * j);
      OnesDouble(2 * j + 1);
      OnesDouble(j);
      assert h == 2 * (2 * j + 1) && h - 1 == 2 * (2 * j) + 1 && 2 * j + 1 == 2 * j + 1;
    } else {
      assert x == 8 * (h / 4);
      InvertThree(h / 4);
    }
  }

  lemma InvertThree(j: nat)
    requires j > 0
    ensures InvertLowestOne(InvertLowestOne(8 * j - 2)) == 8 * j - 8
    ensures InvertLowestOne(8 * j) <= 8 * j - 8
  {
    hide InvertLowestOne;
    InvertDouble(4 * j - 1);
    InvertDouble(2 * j - 1);
    InvertDouble(j - 1);
    InvertDouble(4 * j - 2);
    InvertDouble(2 * j - 2);
    InvertDouble(4 * j);
    InvertDouble(2 * j);
    InvertDouble(j);
    InvertSmaller(j);
    assert 8 * j - 2 == 2 * (4 * j - 1) && 4 * j - 1 == 2 * (2 * j - 1) + 1;
    assert 8 * j - 4 == 2 * (4 * j - 2) && 4 * j - 2 == 2 * (2 * j - 1) && 2 * j - 1 == 2 * (j - 1) + 1;
  }

  /** From x above the middle, the search for a target below it crosses the middle in two turns for
      each one of x and one more. */
  lemma {:induction false} CrossMid(a: nat, d: nat, x: nat, target: nat)
    requires x < Pow2(d) && Start(a, d) <= target < Mid(a, d)
    ensures Turns(Mid(a, d) + x, target) <= 2 * Ones(x) + 1 + d * d
    decreases 2 * d + 1, Ones(x)
  {
    hide InvertLowestOne, Mid, Start, Pow2, Ones, SkipHeight, NextHeight;
    var walk := Mid(a, d) + x;
    InvertMid(a, d);
    if x == 0 {
      NoOnes();
      LowerHalf(a, d, NextHeight(walk, target), target);
    } else if x % 2 == 1 {
      OddCross(a, d, x, target);
      if NextHeight(walk, target) < Mid(a, d) {
        LowerHalf(a, d, NextHeight(walk, target), target);
      } else {
        CrossMid(a, d, NextHeight(walk, target) - Mid(a, d), target);
      }
    } else {
      EvenCross(a, d, x, target);
      var next := NextHeight(walk, target);
      if next == Mid(a, d) + InvertLowestOne(x) {
        CrossMid(a, d, InvertLowestOne(x), target);
      } else {
        var after := NextHeight(next, target);
        if after < Mid(a, d) {
          LowerHalf(a, d, after, target);
        } else {
          CrossMid(a, d, after - Mid(a, d), target);
        }
      }
    }
  }

  lemma NoOnes()
    ensures Ones(0) == 0
  {
  }

  lemma {:induction false} LowerHalf(a: nat, d: nat, walk: nat, target: nat)
    requires Start(a, d) <= target <= walk < Mid(a, d)
    ensures Turns(walk, target) <= d * d
    decreases 2 * d, 1
  {
    assert Start(a, d) == (2 * a) * Pow2(d) && Mid(a, d) == (2 * a + 1) * Pow2(d);
    BlockTurns(2 * a, d, walk, target);
  }

  /** Inside a block of 2^d heights the search takes at most d * d turns. */
  lemma {:induction false} BlockTurns(a: nat, d: nat, walk: nat, target: nat)
    requires a * Pow2(d) <= target <= walk < (a + 1) * Pow2(d)
    ensures Turns(walk, target) <= d * d
    decreases 2 * d, 0
  {
    hide Turns, Ones;
    if d == 0 {
      SameHeight(walk);
    } else {
      Halves(a, d);
      if walk < Mid(a, d - 1) {
        BlockTurns(2 * a, d - 1, walk, target);
      } else if target >= Mid(a, d - 1) {
        BlockTurns(2 * a + 1, d - 1, walk, target);
      } else {
        CrossMid(a, d - 1, walk - Mid(a, d - 1), target);
        OnesBound(walk - Mid(a, d - 1), d - 1);
      }
      Square(d);
    }
  }

  lemma SameHeight(walk: nat)
    ensures Turns(walk, walk) == 0
  {
  }

  lemma Halves(a: nat, d: nat)
    requires d > 0
    ensures a * Pow2(d) == Start(a, d - 1) == (2 * a) * Pow2(d - 1)
    ensures Mid(a, d - 1) == (2 * a + 1) * Pow2(d - 1) == Start(a, d - 1) + Pow2(d - 1)
    ensures (a + 1) * Pow2(d) == (2 * a + 1 + 1) * Pow2(d - 1) == Mid(a, d - 1) + Pow2(d - 1)
  {
  }

  lemma Square(d: nat)
    requires d > 0
    ensures d * d == (d - 1) * (d - 1) + 2 * (d - 1) + 1
  {
  }

  lemma OddCross(a: nat, d: nat, x: nat, target: nat)
    requires x < Pow2(d) && x % 2 == 1 && Start(a, d) <= target < Mid(a, d)
    ensures var next := NextHeight(Mid(a, d) + x, target);
      next < Mid(a, d) || (next - Mid(a, d) < x && Ones(next - Mid(a, d)) < Ones(x))
  {
    hide InvertLowestOne, Mid, Start, Pow2, Ones, SkipHeight, NextHeight;
    Pow2Zero();
    InvertMid(a, d);
    OddTurn(Mid(a, d) + x, target);
    OddSkip(a, d, x);
    OnesEven(x - 1);
  }

  /** From an even height the skip loses a one; or after a step to the parent the next skip does. */
  lemma EvenCross(a: nat, d: nat, x: nat, target: nat)
    requires 0 < x < Pow2(d) && x % 2 == 0 && Start(a, d) <= target < Mid(a, d)
    ensures var walk := Mid(a, d) + x;
      var next := NextHeight(walk, target);
      InvertLowestOne(x) < x && Ones(InvertLowestOne(x)) == Ones(x) - 1 >= 0
      && (next == Mid(a, d) + InvertLowestOne(x)
          || (next == walk - 1 && var after := NextHeight(next, target);
              after < Mid(a, d) || (after - Mid(a, d) < x && Ones(after - Mid(a, d)) < Ones(x))))
  {
    hide InvertLowestOne, Mid, Start, Pow2, Ones, SkipHeight;
    Pow2Zero();
    Pow2Half(1);
    InvertMid(a, d);
    InvertUpper(a, d, x);
    EvenInverts(x);
    var walk := Mid(a, d) + x;
    EvenSkip(walk);
    if NextHeight(walk, target) != SkipHeight(walk) {
      OddTurn(walk - 1, target);
      OddSkip(a, d, x - 1);
      OnesEven(x - 2);
      if x >= 4 { TwoBelow(x); }
    }
  }

  lemma EvenSkip(walk: nat)
    requires walk % 2 == 0 && walk > 0
    ensures SkipHeight(walk) == InvertLowestOne(walk)
  {
  }

  /** The search takes no more than the square of the number of binary digits of its start. */
  lemma TurnsBound(m: nat, walk: nat, target: nat)
    requires target <= walk < Pow2(m)
    ensures Turns(walk, target) <= m * m
  {
    BlockTurns(0, m, walk, target);
  }

  // ---------- the tree ----------

  ghost predicate SkipOk(b: BlockIndex)
    requires Rooted(b, b.nHeight)
    reads b
  {
    b.pskip == null || (SkipHeight(b.nHeight) <= b.nHeight && b.pskip == Ancestor(b, SkipHeight(b.nHeight)))
  }

  /** Every parent is in the index, and every skip pointer leads to the ancestor it should. */
  ghost predicate TreeOk(blocks: set<BlockIndex>)
    reads blocks
  {
    forall b :: b in blocks ==>
      Rooted(b, b.nHeight) && (b.pprev != null ==> b.pprev in blocks) && SkipOk(b)
  }

  lemma {:induction false} AncestorInTree(blocks: set<BlockIndex>, b: BlockIndex, height: nat)
    requires TreeOk(blocks) && b in blocks && height <= b.nHeight
    ensures Ancestor(b, height) in blocks
    decreases b.nHeight
  {
    if height == b.nHeight {
    } else {
      AncestorInTree(blocks, b.pprev, height);
    }
  }

  /** Every block with a parent has its skip pointer. */
  ghost predicate SkipsBuilt(blocks: set<BlockIndex>)
    reads blocks
  {
    forall b :: b in blocks && b.pprev != null ==> b.pskip != null
  }

  /** Following skip pointers and parents as the source does ends where the plain walk ends; null
      exactly for heights below zero or above the block.  With all skip pointers in place the loop
      turns no more often than the square of the number of binary digits of the height. */
  method GetAncestor(b: BlockIndex, height: int, ghost blocks: set<BlockIndex>)
    returns (r: BlockIndex?, ghost turns: nat)
    requires TreeOk(blocks) && b in blocks
    ensures r == null <==> height > b.nHeight || height < 0
    ensures r != null ==> r == Ancestor(b, height) && r in blocks
    ensures SkipsBuilt(blocks) && r != null ==> turns == Turns(b.nHeight, height)
    ensures SkipsBuilt(blocks) ==> forall m: nat :: b.nHeight < Pow2(m) ==> turns <= m * m
  {
    hide Ancestor, Rooted, SkipHeight, Turns, Pow2;
    turns := 0;
    if height > b.nHeight || height < 0 {
      return null, turns;
    }
    var walk := b;
    var heightWalk := b.nHeight;
    AtOwnHeight(b);
    while heightWalk > height
      invariant height <= heightWalk <= b.nHeight && walk in blocks
      invariant walk == Ancestor(b, heightWalk)
      invariant SkipsBuilt(blocks) ==> turns + Turns(heightWalk, height) == Turns(b.nHeight, height)
      decreases heightWalk
    {
      SkipGoesDown(heightWalk);
      Parent(b, heightWalk);
      OneTurn(heightWalk, height);
      if walk.pskip != null && TakesSkip(heightWalk, height) {
        AncestorAncestor(b, heightWalk, SkipHeight(heightWalk));
        AncestorInTree(blocks, walk, SkipHeight(heightWalk));
        walk := walk.pskip;
        heightWalk := SkipHeight(heightWalk);
      } else {
        walk := walk.pprev;
        heightWalk := heightWalk - 1;
      }
      turns := turns + 1;
    }
    SameHeight(height);
    TurnsBounds(b.nHeight, height);
    return walk, turns;
  }

  lemma AtOwnHeight(b: BlockIndex)
    requires Rooted(b, b.nHeight)
    ensures Ancestor(b, b.nHeight) == b
  {
  }

  lemma OneTurn(walk: nat, target: nat)
    requires target < walk && SkipHeight(walk) < walk
    ensures TakesSkip(walk, target) ==>
      target <= SkipHeight(walk) && Turns(walk, target) == 1 + Turns(SkipHeight(walk), target)
    ensures !TakesSkip(walk, target) ==> Turns(walk, target) == 1 + Turns(walk - 1, target)
  {
    hide SkipHeight;
  }

  lemma TurnsBounds(walk: nat, target: nat)
    requires target <= walk
    ensures forall m: nat :: walk < Pow2(m) ==> Turns(walk, target) <= m * m
  {
    forall m: nat | walk < Pow2(m) ensures Turns(walk, target) <= m * m { TurnsBound(m, walk, target); }
  }

  lemma Parent(b: BlockIndex, height: nat)
    requires Rooted(b, b.nHeight) && 0 < height <= b.nHeight
    ensures Ancestor(b, height).nHeight == height
    ensures Ancestor(b, height).pprev != null && Ancestor(b, height).pprev == Ancestor(b, height - 1)
  {
    AncestorAncestor(b, height, height - 1);
  }

  /** Filling in a skip pointer keeps the tree. */
  method BuildSkip(b: BlockIndex, ghost blocks: set<BlockIndex>)
    requires TreeOk(blocks) && b in blocks
    modifies b`pskip
    ensures TreeOk(blocks)
    ensures b.pprev == null ==> b.pskip == old(b.pskip)
    ensures b.pprev != null ==> SkipHeight(b.nHeight) < b.nHeight && b.pskip == Ancestor(b, SkipHeight(b.nHeight))
  {
    if b.pprev != null {
      SkipGoesDown(b.nHeight);
      var target, turns := GetAncestor(b.pprev, SkipHeight(b.nHeight), blocks);
      b.pskip := target;
    }
  }

  /** A new block under a known parent, or a first one, joins the tree. */
  method AddToIndex(parent: BlockIndex?, id: nat, ghost blocks: set<BlockIndex>) returns (b: BlockIndex)
    requires TreeOk(blocks) && (parent != null ==> parent in blocks)
    ensures fresh(b) && TreeOk(blocks + {b}) && b.pprev == parent && b.hash == id
    ensures SkipsBuilt(blocks) ==> SkipsBuilt(blocks + {b})
  {
    b := new BlockIndex(parent, id);
    BuildSkip(b, blocks + {b});
  }
}

/** The chain of src/chain.cpp: the path from the first block to a tip, indexed by height. */
module Chain {
  import opened Bits
  import opened BlockTree

  /** All ancestors of a block and the block itself, by height. */
  ghost function PathTo(b: BlockIndex): (path: seq<BlockIndex?>)
    requires Rooted(b, b.nHeight)
    ensures |path| == b.nHeight + 1
    ensures forall h: nat :: h <= b.nHeight ==> path[h] == Ancestor(b, h)
  {
    seq(b.nHeight + 1, h requires 0 <= h <= b.nHeight => Ancestor(b, h))
  }

  ghost predicate IsPath(chain: seq<BlockIndex?>, blocks: set<BlockIndex>)
    reads blocks
  {
    chain == [] || (chain[|chain| - 1] != null && chain[|chain| - 1] in blocks && TreeOk(blocks)
                    && chain == PathTo(chain[|chain| - 1]))
  }

  /** A block on two paths has the same ancestors on both. */
  lemma SamePath(a: BlockIndex, b: BlockIndex, top: nat, h: nat)
    requires Rooted(a, a.nHeight) && Rooted(b, b.nHeight) && h <= top <= a.nHeight && top <= b.nHeight
    requires Ancestor(a, top) == Ancestor(b, top)
    ensures Ancestor(a, h) == Ancestor(b, h)
  {
    AncestorAncestor(a, top, h);
    AncestorAncestor(b, top, h);
  }

  /** vector::resize. */
  function Resized<T>(s: seq<T>, n: nat, fill: T): (r: seq<T>)
    ensures |r| == n
  {
    if n <= |s| then s[..n] else s + seq(n - |s|, _ => fill)
  }

  class CChain {
    var vChain: seq<BlockIndex?>
    /** The index of all known blocks. */
    ghost var blocks: set<BlockIndex>

    ghost predicate Valid()
      reads this, blocks
    {
      TreeOk(blocks) && IsPath(vChain, blocks)
    }

    function At(height: int): BlockIndex?
      reads this
    {
      if height < 0 || height >= |vChain| then null else vChain[height]
    }

    predicate Contains(b: BlockIndex)
      reads this
    {
      At(b.nHeight) == b
    }

    function Height(): int
      reads this
    {
      |vChain| - 1
    }

    function Tip(): BlockIndex?
      reads this
    {
      if |vChain| > 0 then vChain[|vChain| - 1] else null
    }

    /** The height of the chain is that of its tip; every block is at its own height, and so in the chain
        exactly if it is found there. */
    lemma Heights(b: BlockIndex)
      requires Valid() && b in blocks
      ensures Height() == if Tip() == null then -1 else Tip().nHeight
      ensures Contains(b) <==> b in vChain
    {
      hide TreeOk, Rooted, Ancestor, PathTo;
      if vChain != [] {
        var tip: BlockIndex := vChain[|vChain| - 1];
        assert Rooted(tip, tip.nHeight) by { InTreeRooted(tip, blocks); }
        forall h: nat | h <= tip.nHeight ensures vChain[h] != null && vChain[h].nHeight == h { Up(tip, h); }
      }
    }

    /** Two chains are the same if and only if they are as long and have the same tip. */
    lemma SameChain(other: CChain)
      requires Valid() && other.Valid()
      ensures vChain == other.vChain <==> |vChain| == |other.vChain| && Tip() == other.Tip()
    {
      hide TreeOk, Rooted, Ancestor;
    }

    /** The loop stops at the first block that is already in place; below it everything is. */
    method SetTip(tip: BlockIndex?)
      requires Valid() && (tip != null ==> tip in blocks)
      modifies this`vChain
      ensures Valid()
      ensures tip == null ==> vChain == []
      ensures tip != null ==> vChain == PathTo(tip)
    {
      if tip == null {
        vChain := [];
        return;
      }
      Fill(tip);
    }

    /** The highest block of the chain among b and its ancestors; null exactly if there is none. */
    method FindFork(b0: BlockIndex?) returns (r: BlockIndex?)
      requires Valid() && (b0 != null ==> b0 in blocks)
      ensures b0 == null ==> r == null
      ensures b0 != null ==> ForkPoint(b0, r, vChain)
    {
      hide Ancestor, Rooted, PathTo, TreeOk, IsPath, NoneAbove, SkipOk, AnyPath;
      if b0 == null {
        return null;
      }
      OldPath(vChain, b0, blocks);
      var b: BlockIndex? := b0;
      if b.nHeight > Height() {
        ghost var turns;
        b, turns := GetAncestor(b, Height(), blocks);
        if b != null { Up(b0, Height()); }
      }
      ghost var left := if b == null then 0 else b.nHeight + 1;
      NoneBeyond(b0, left, vChain);
      while b != null && !Contains(b)
        invariant 0 <= left <= b0.nHeight + 1
        invariant if left == 0 then b == null else b == Ancestor(b0, left - 1) && b.nHeight == left - 1
        invariant NoneAbove(b0, left, vChain)
        decreases left
      {
        NoneStep(b0, left, vChain);
        Up(b0, left - 1);
        b := b.pprev;
        left := left - 1;
      }
      if b != null { OnPath(vChain, b); }
      return b;
    }

    /** The hashes of the start (the tip by default) and of ancestors in ever longer steps, down to
        the first block. */
    method GetLocator(from: BlockIndex?) returns (vHave: seq<nat>)
      requires Valid() && (from != null ==> from in blocks)
      ensures from == null && Tip() == null ==> vHave == []
      ensures from != null ==> IsLocator(from, vHave)
      ensures from == null && Tip() != null ==> IsLocator(Tip(), vHave)
    {
      hide Ancestor, Rooted, PathTo, TreeOk, IsPath, SkipOk, AnyPath, Offset, Listed;
      vHave := [];
      if from == null && Tip() == null {
        return;
      }
      var start: BlockIndex := if from == null then Tip() else from;
      TipInTree(vChain, blocks);
      OldPath(vChain, start, blocks);
      vHave := LocatorFrom(start);
    }

    method LocatorFrom(start: BlockIndex) returns (vHave: seq<nat>)
      requires Valid() && start in blocks
      ensures IsLocator(start, vHave)
    {
      hide Ancestor, Rooted, PathTo, TreeOk, IsPath, SkipOk, AnyPath, Offset, Listed;
      OldPath(vChain, start, blocks);
      var nStep := 1;
      vHave := [];
      var b := start;
      ListedNone(start);
      while true
        invariant b in blocks && b == Ancestor(start, Back(start.nHeight, |vHave|))
        invariant b.nHeight == Back(start.nHeight, |vHave|)
        invariant nStep == Stride(|vHave| + 1)
        invariant Listed(start, vHave)
        invariant |vHave| > 0 ==> Back(start.nHeight, |vHave| - 1) > 0
        decreases Back(start.nHeight, |vHave|)
      {
        ListedMore(start, vHave);
        vHave := vHave + [b.hash];
        if b.nHeight == 0 {
          break;
        }
        var nHeight := if b.nHeight - nStep > 0 then b.nHeight - nStep else 0;
        OffsetStep(|vHave|);
        AncestorAncestor(start, b.nHeight, nHeight);
        Up(start, nHeight);
        if Contains(b) {
          InPath(vChain, b, nHeight);
          AncestorInTree(blocks, b, nHeight);
          b := At(nHeight);
        } else {
          ghost var turns;
          b, turns := GetAncestor(b, nHeight, blocks);
        }
        if |vHave| > 10 {
          nStep := nStep * 2;
        }
      }
    }

    method Fill(tip: BlockIndex)
      requires Valid() && tip in blocks
      modifies this`vChain
      ensures vChain == PathTo(tip)
    {
      hide Ancestor, Rooted, Filled, SkipOk, PathTo, TreeOk, IsPath;
      ghost var was := vChain;
      OldPath(was, tip, blocks);
      vChain := Resized(vChain, tip.nHeight + 1, null);
      FillStart(was, tip);
      var b: BlockIndex? := tip;
      ghost var left := tip.nHeight + 1;
      while b != null && vChain[b.nHeight] != b
        invariant 0 <= left <= tip.nHeight + 1 == |vChain|
        invariant if left == 0 then b == null else b == Ancestor(tip, left - 1) && b.nHeight == left - 1
        invariant Filled(vChain, was, tip, left)
        decreases left
      {
        FillStep(vChain, was, tip, left);
        vChain := vChain[b.nHeight := b];
        Up(tip, left - 1);
        b := b.pprev;
        left := left - 1;
      }
      FillDone(vChain, was, tip, left);
    }
  }

  /** r is the highest block of the chain among b and its ancestors; null if none is on it. */
  ghost predicate ForkPoint(b: BlockIndex, r: BlockIndex?, chain: seq<BlockIndex?>)
    requires Rooted(b, b.nHeight)
  {
    && (r != null ==> r.nHeight <= b.nHeight && r == Ancestor(b, r.nHeight) && r in chain)
    && NoneAbove(b, if r == null then 0 else r.nHeight + 1, chain)
  }

  /** No ancestor of b from height `left` up is on the chain. */
  ghost predicate NoneAbove(b: BlockIndex, left: nat, chain: seq<BlockIndex?>)
    requires Rooted(b, b.nHeight)
  {
    forall h :: left <= h <= b.nHeight ==> Ancestor(b, h) !in chain
  }

  /** A block of a path is found at its own height. */
  lemma OnPath(chain: seq<BlockIndex?>, b: BlockIndex)
    requires AnyPath(chain)
    ensures b in chain <==> b.nHeight < |chain| && chain[b.nHeight] == b
  {
    if b in chain {
      var h :| 0 <= h < |chain| && chain[h] == b;
      assert chain[h] == Ancestor(chain[|chain| - 1], h);
    }
  }

  lemma NoneBeyond(b: BlockIndex, left: nat, chain: seq<BlockIndex?>)
    requires Rooted(b, b.nHeight) && AnyPath(chain) && (left >= |chain| || left == b.nHeight + 1)
    ensures NoneAbove(b, left, chain)
  {
    forall h | left <= h <= b.nHeight ensures Ancestor(b, h) !in chain { OnPath(chain, Ancestor(b, h)); }
  }

  lemma NoneStep(b: BlockIndex, left: nat, chain: seq<BlockIndex?>)
    requires Rooted(b, b.nHeight) && AnyPath(chain) && 0 < left <= b.nHeight + 1 && NoneAbove(b, left, chain)
    requires left <= |chain| ==> chain[left - 1] != Ancestor(b, left - 1)
    ensures NoneAbove(b, left - 1, chain)
  {
    OnPath(chain, Ancestor(b, left - 1));
  }

  ghost predicate AnyPath(was: seq<BlockIndex?>) {
    was == [] || (var tip := was[|was| - 1]; tip != null && Rooted(tip, tip.nHeight) && was == PathTo(tip))
  }

  lemma OldPath(was: seq<BlockIndex?>, tip: BlockIndex, blocks: set<BlockIndex>)
    requires TreeOk(blocks) && IsPath(was, blocks) && tip in blocks
    ensures Rooted(tip, tip.nHeight) && Ancestor(tip, tip.nHeight) == tip && AnyPath(was)
  {
  }

  /** While a tip is being set: new entries from height `left` on, old ones below. */
  ghost predicate Filled(chain: seq<BlockIndex?>, was: seq<BlockIndex?>, tip: BlockIndex, left: nat)
    requires Rooted(tip, tip.nHeight)
  {
    && |chain| == tip.nHeight + 1
    && (forall h :: left <= h <= tip.nHeight ==> chain[h] == Ancestor(tip, h))
    && (forall h :: 0 <= h < left && h < |chain| ==> chain[h] == if h < |was| then was[h] else null)
  }

  lemma FillStart(was: seq<BlockIndex?>, tip: BlockIndex)
    requires Rooted(tip, tip.nHeight)
    ensures Filled(Resized(was, tip.nHeight + 1, null), was, tip, tip.nHeight + 1)
  {
  }

  lemma FillStep(chain: seq<BlockIndex?>, was: seq<BlockIndex?>, tip: BlockIndex, left: nat)
    requires Rooted(tip, tip.nHeight) && 0 < left <= tip.nHeight + 1 && Filled(chain, was, tip, left)
    ensures |chain| == tip.nHeight + 1
    ensures Filled(chain[left - 1 := Ancestor(tip, left - 1)], was, tip, left - 1)
  {
  }

  lemma FillDone(chain: seq<BlockIndex?>, was: seq<BlockIndex?>, tip: BlockIndex, left: nat)
    requires Rooted(tip, tip.nHeight) && left <= tip.nHeight + 1 && Filled(chain, was, tip, left)
    requires left > 0 ==> left <= |chain| && chain[left - 1] == Ancestor(tip, left - 1)
    requires AnyPath(was)
    ensures chain == PathTo(tip)
  {
    InPlace(was, tip, left);
  }

  lemma Up(b: BlockIndex, height: nat)
    requires Rooted(b, b.nHeight) && height <= b.nHeight
    ensures Ancestor(b, height).nHeight == height
    ensures if height == 0 then Ancestor(b, height).pprev == null
      else Ancestor(b, height).pprev == Ancestor(b, height - 1) && Ancestor(b, height - 1).nHeight == height - 1
  {
    if height > 0 { Parent(b, height); }
  }

  /** If an old path holds an ancestor of b at its own height, it holds the lower ones as well. */
  lemma InPlace(was: seq<BlockIndex?>, b: BlockIndex, left: nat)
    requires Rooted(b, b.nHeight) && left <= b.nHeight + 1
    requires AnyPath(was)
    requires left > 0 ==> left <= |was| && was[left - 1] == Ancestor(b, left - 1)
    ensures forall h :: 0 <= h < left ==> was[h] == Ancestor(b, h)
  {
    forall h | 0 <= h < left ensures was[h] == Ancestor(b, h) {
      SamePath(was[|was| - 1], b, left - 1, h);
    }
  }

  // ---------- locators ----------

  /** How far below the start entry i of a locator is. */
  function Offset(i: nat): nat {
    if i <= 10 then i else 9 + Pow2(i - 10)
  }

  /** The step from entry i - 1 to entry i. */
  function Stride(i: nat): nat {
    if i <= 11 then 1 else Pow2(i - 11)
  }

  function Back(height: nat, i: nat): (h: nat)
    ensures h <= height
  {
    if Offset(i) >= height then 0 else height - Offset(i)
  }

  lemma OffsetStep(i: nat)
    requires i > 0
    ensures Offset(i) == Offset(i - 1) + Stride(i) && Stride(i) > 0
    ensures Stride(i + 1) == if i > 10 then 2 * Stride(i) else Stride(i)
  {
  }

  ghost predicate Listed(start: BlockIndex, vHave: seq<nat>)
    requires Rooted(start, start.nHeight)
  {
    forall j :: 0 <= j < |vHave| ==> vHave[j] == Ancestor(start, Back(start.nHeight, j)).hash
  }

  /** The entries are the ancestors at those offsets, and the first block comes last and once. */
  ghost predicate IsLocator(start: BlockIndex, vHave: seq<nat>)
    requires Rooted(start, start.nHeight)
  {
    && |vHave| > 0
    && Listed(start, vHave)
    && Back(start.nHeight, |vHave| - 1) == 0
    && (|vHave| > 1 ==> Back(start.nHeight, |vHave| - 2) > 0)
  }

  lemma ListedNone(start: BlockIndex)
    requires Rooted(start, start.nHeight)
    ensures Listed(start, []) && Back(start.nHeight, 0) == start.nHeight && Ancestor(start, start.nHeight) == start
  {
  }

  lemma ListedMore(start: BlockIndex, vHave: seq<nat>)
    requires Rooted(start, start.nHeight) && Listed(start, vHave)
    ensures Listed(start, vHave + [Ancestor(start, Back(start.nHeight, |vHave|)).hash])
  {
  }

  lemma TipInTree(chain: seq<BlockIndex?>, blocks: set<BlockIndex>)
    requires IsPath(chain, blocks)
    ensures chain != [] ==> chain[|chain| - 1] != null && chain[|chain| - 1] in blocks
  {
  }

  lemma InPath(chain: seq<BlockIndex?>, b: BlockIndex, h: nat)
    requires AnyPath(chain) && Rooted(b, b.nHeight) && h <= b.nHeight < |chain| && chain[b.nHeight] == b
    ensures chain[h] == Ancestor(b, h)
  {
    AncestorAncestor(chain[|chain| - 1], b.nHeight, h);
  }

  /** The heights in a locator strictly decrease. */
  lemma {:induction false} LocatorDecreases(height: nat, i: nat, j: nat)
    requires i < j && Back(height, i) > 0
    ensures Back(height, j) < Back(height, i)
    decreases j
  {
    OffsetStep(j);
    if i == j - 1 {
    } else {
      LocatorDecreases(height, i, j - 1);
    }
  }

  /** A block at any depth below the start has an entry at or below it, at no more than twice that depth;
      down to a depth of ten every block is an entry. */
  lemma LocatorReaches(height: nat, h: nat) returns (i: nat)
    requires h <= height
    ensures Back(height, i) <= h && height - Back(height, i) <= 2 * (height - h)
    ensures height <= h + 10 ==> Back(height, i) == h
  {
    i := OffsetFor(height - h);
  }

  lemma {:induction false} OffsetFor(d: nat) returns (i: nat)
    ensures d <= Offset(i) <= 2 * d && (d <= 10 ==> Offset(i) == d)
  {
    if d <= 10 {
      i := d;
    } else {
      i := OffsetFor(d - 1);
      if Offset(i) < d {
        OffsetStep(i + 1);
        i := i + 1;
      }
    }
  }

  /** A locator from height h has at most m + 11 entries when h <= 2^m + 9. */
  lemma LocatorLength(start: BlockIndex, vHave: seq<nat>, m: nat)
    requires Rooted(start, start.nHeight) && IsLocator(start, vHave) && start.nHeight <= 9 + Pow2(m)
    ensures |vHave| <= m + 11
  {
    if |vHave| > m + 11 {
      Pow2Mono(m, |vHave| - 12);
      assert false;
    }
  }

  // ---------- two blocks ----------

  /** r is the highest block on both paths; null if there is none. */
  ghost predicate LastCommon(a: BlockIndex, b: BlockIndex, r: BlockIndex?)
    requires Rooted(a, a.nHeight) && Rooted(b, b.nHeight)
  {
    && (r != null ==> r.nHeight <= a.nHeight && r.nHeight <= b.nHeight
                      && r == Ancestor(a, r.nHeight) && r == Ancestor(b, r.nHeight))
    && DifferAbove(a, b, if r == null then 0 else r.nHeight + 1)
  }

  ghost predicate DifferAbove(a: BlockIndex, b: BlockIndex, left: nat)
    requires Rooted(a, a.nHeight) && Rooted(b, b.nHeight)
  {
    forall h :: left <= h <= a.nHeight && h <= b.nHeight ==> Ancestor(a, h) != Ancestor(b, h)
  }

  /** Both walks reach the same block, or run out together. */
  method LastCommonAncestor(a: BlockIndex, b: BlockIndex, ghost blocks: set<BlockIndex>) returns (r: BlockIndex?)
    requires TreeOk(blocks) && a in blocks && b in blocks
    ensures LastCommon(a, b, r)
  {
    hide Ancestor, Rooted, TreeOk, SkipOk, DifferAbove;
    InTreeRooted(a, blocks);
    InTreeRooted(b, blocks);
    var pa: BlockIndex?, pb: BlockIndex? := a, b;
    ghost var turns;
    if a.nHeight > b.nHeight {
      pa, turns := GetAncestor(a, b.nHeight, blocks);
      Up(a, b.nHeight);
    } else if b.nHeight > a.nHeight {
      pb, turns := GetAncestor(b, a.nHeight, blocks);
      Up(b, a.nHeight);
    }
    ghost var left := pa.nHeight + 1;
    DifferNone(a, b);
    while pa != pb && pa != null && pb != null
      invariant 0 <= left <= a.nHeight + 1 && left <= b.nHeight + 1
      invariant if left == 0 then pa == null else pa == Ancestor(a, left - 1) && pa.nHeight == left - 1
      invariant if left == 0 then pb == null else pb == Ancestor(b, left - 1) && pb.nHeight == left - 1
      invariant DifferAbove(a, b, left)
      decreases left
    {
      DifferStep(a, b, left);
      Up(a, left - 1);
      Up(b, left - 1);
      pa := pa.pprev;
      pb := pb.pprev;
      left := left - 1;
    }
    assert pa == pb;
    return pa;
  }

  lemma InTreeRooted(b: BlockIndex, blocks: set<BlockIndex>)
    requires TreeOk(blocks) && b in blocks
    ensures Rooted(b, b.nHeight) && Ancestor(b, b.nHeight) == b
  {
  }

  lemma DifferNone(a: BlockIndex, b: BlockIndex)
    requires Rooted(a, a.nHeight) && Rooted(b, b.nHeight)
    ensures DifferAbove(a, b, (if a.nHeight < b.nHeight then a.nHeight else b.nHeight) + 1)
  {
  }

  lemma DifferStep(a: BlockIndex, b: BlockIndex, left: nat)
    requires Rooted(a, a.nHeight) && Rooted(b, b.nHeight) && 0 < left <= a.nHeight + 1 && left <= b.nHeight + 1
    requires DifferAbove(a, b, left) && Ancestor(a, left - 1) != Ancestor(b, left - 1)
    ensures DifferAbove(a, b, left - 1)
  {
  }
}
