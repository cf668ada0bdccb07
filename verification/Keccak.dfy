/** Bytes inside 64-bit words, as src/fips202.cpp reads and writes them. */
module WordBytes {
  import opened Bits

  /** u >> k */
  function Shr(u: nat, k: nat): (r: nat) {
    DivNat(u, Pow2(k));
    u / Pow2(k)
  }

  /** The k low bits. */
  function Low(u: nat, k: nat): (r: nat) {
    u % Pow2(k)
  }

  function ByteOf(w: nat, j: nat): nat {
    Low(Shr(w, 8 * j), 8)
  }

  /** The little-endian value of up to eight bytes. */
  ghost function Little(bs: seq<int>): (w: int)
    requires forall i :: 0 <= i < |bs| ==> 0 <= bs[i] < 256
    ensures w >= 0
  {
    if bs == [] then 0 else bs[0] + 256 * Little(bs[1..])
  }

  lemma ShrHalf(x: nat, k: nat)
    requires k > 0
    ensures Shr(x, k) == Shr(x / 2, k - 1)
  {
    DivHalf(x, k);
  }

  lemma ShrZero(x: nat)
    ensures Shr(x, 0) == x && Low(x, 0) == 0
  {
  }

  lemma LowHalf(x: nat, k: nat)
    requires k > 0
    ensures Low(x, k) == 2 * Low(x / 2, k - 1) + x % 2
  {
    var p := Pow2(k - 1);
    DivModEq(x / 2, p);
    assert x == (x / 2 / p) * (2 * p) + (2 * ((x / 2) % p) + x % 2);
    DivUnique(x, 2 * p, x / 2 / p, 2 * ((x / 2) % p) + x % 2);
  }

  lemma {:induction false} XorShift(x: nat, y: nat, k: nat)
    ensures Shr(Xor(x, y), k) == Xor(Shr(x, k), Shr(y, k))
    decreases k
  {
    hide Xor, Shr;
    if k == 0 {
      ShrZero(x);
      ShrZero(y);
      ShrZero(Xor(x, y));
    } else {
      ShrHalf(x, k);
      ShrHalf(y, k);
      ShrHalf(Xor(x, y), k);
      XorHalf(x, y);
      XorShift(x / 2, y / 2, k - 1);
    }
  }

  lemma {:induction false} XorLow(x: nat, y: nat, k: nat)
    ensures Low(Xor(x, y), k) == Xor(Low(x, k), Low(y, k))
    decreases k
  {
    hide Xor, Low;
    if k == 0 {
      XorSelf(0);
      ShrZero(x);
      ShrZero(y);
      ShrZero(Xor(x, y));
    } else {
      LowHalf(x, k);
      LowHalf(y, k);
      LowHalf(Xor(x, y), k);
      XorHalf(x, y);
      XorLow(x / 2, y / 2, k - 1);
      XorHalf(Low(x, k), Low(y, k));
    }
  }

  /** Each byte of an exclusive or is that of the operands' bytes. */
  lemma ByteXor(x: nat, y: nat, j: nat)
    ensures ByteOf(Xor(x, y), j) == Xor(ByteOf(x, j), ByteOf(y, j))
  {
    hide Xor, Shr, Low;
    XorShift(x, y, 8 * j);
    XorLow(Shr(x, 8 * j), Shr(y, 8 * j), 8);
  }

  lemma ByteSmall(w: nat, j: nat)
    ensures ByteOf(w, j) < 256
  {
    Pow2Values();
  }

  lemma ShrOver(m: nat, r: nat, k: nat)
    requires r < Pow2(k)
    ensures Shr(m * Pow2(k) + r, k) == m && Low(m * Pow2(k) + r, k) == r
  {
    DivUnique(m * Pow2(k) + r, Pow2(k), m, r);
  }

  lemma ShiftUp(b: nat, i: nat, d: nat)
    ensures b * Pow2(i + d) == (b * Pow2(d)) * Pow2(i)
  {
    Pow2Add(i, d);
  }

  /** A shifted byte has that byte in place j and zeros elsewhere. */
  lemma ByteShifted(b: nat, j: nat, i: nat)
    requires b < 256
    ensures ByteOf(b * Pow2(8 * j), i) == if i == j then b else 0
  {
    hide Pow2, Shr, Low;
    Pow2Values();
    if i < j {
      var d := 8 * (j - i);
      ShiftUp(b, 8 * i, d);
      ShrOver(b * Pow2(d), 0, 8 * i);
      ShiftUp(b, 8, d - 8);
      ShrOver(b * Pow2(d - 8), 0, 8);
    } else if i == j {
      ShrOver(b, 0, 8 * i);
      ShrOver(0, b, 8);
    } else {
      SmallShift(b, j, i);
      ShrOver(0, b * Pow2(8 * j), 8 * i);
      ShrOver(0, 0, 8);
    }
  }

  lemma SmallShift(b: nat, j: nat, i: nat)
    requires b < 256 && j < i
    ensures b * Pow2(8 * j) < Pow2(8 * i)
  {
    Pow2Add(8 * j, 8);
    Pow2Values();
    MulMono(b, 255, Pow2(8 * j));
    Pow2Mono(8 * j + 8, 8 * i);
  }

  lemma XorZero(x: nat)
    ensures Xor(x, 0) == x && Xor(0, x) == x
  {
  }

  /** Exclusive or with a shifted byte changes that one byte. */
  lemma XorByteAt(w: nat, b: nat, j: nat, i: nat)
    requires b < 256
    ensures ByteOf(Xor(w, b * Pow2(8 * j)), i) == if i == j then Xor(ByteOf(w, j), b) else ByteOf(w, i)
  {
    hide Xor, ByteOf;
    ByteXor(w, b * Pow2(8 * j), i);
    ByteShifted(b, j, i);
    XorZero(ByteOf(w, i));
  }

  lemma ShrByte(b: nat, rest: nat, k: nat)
    requires b < 256
    ensures Shr(b + 256 * rest, k + 8) == Shr(rest, k) && Low(b + 256 * rest, 8) == b
  {
    Pow2Values();
    ShrOver(rest, b, 8);
    Pow2Add(k, 8);
    var q := Pow2(k);
    DivModEq(rest, q);
    var a, m := rest / q, rest % q;
    assert 256 * rest == a * (q * 256) + 256 * m;
    DivUnique(b + 256 * rest, q * 256, a, 256 * m + b);
  }

  lemma {:induction false} LittleByte(bs: seq<int>, j: nat)
    requires (forall i :: 0 <= i < |bs| ==> 0 <= bs[i] < 256) && j < |bs|
    ensures ByteOf(Little(bs), j) == bs[j]
  {
    hide Shr, Low;
    if j == 0 {
      ShrZero(Little(bs));
      ShrByte(bs[0], Little(bs[1..]), 0);
    } else {
      LittleByte(bs[1..], j - 1);
      ShrByte(bs[0], Little(bs[1..]), 8 * (j - 1));
    }
  }

  lemma {:induction false} LittleSmall(bs: seq<int>)
    requires forall i :: 0 <= i < |bs| ==> 0 <= bs[i] < 256
    ensures Little(bs) < Pow2(8 * |bs|)
  {
    if bs == [] {
    } else {
      LittleSmall(bs[1..]);
      Pow2Add(8, 8 * (|bs| - 1));
      Pow2Values();
    }
  }

  lemma {:induction false} LittleSnoc(bs: seq<int>, b: int)
    requires (forall i :: 0 <= i < |bs| ==> 0 <= bs[i] < 256) && 0 <= b < 256
    ensures Little(bs + [b]) == Little(bs) + b * Pow2(8 * |bs|)
  {
    if bs == [] {
      assert [] + [b] == [b];
      assert Little([b][1..]) == 0;
    } else {
      LittleSnoc(bs[1..], b);
      assert (bs + [b])[1..] == bs[1..] + [b];
      Pow2Add(8, 8 * (|bs| - 1));
      Pow2Values();
      assert 256 * (b * Pow2(8 * (|bs| - 1))) == b * Pow2(8 * |bs|);
    }
  }

  method Load64(x: seq<int>) returns (r: nat)
    requires |x| == 8 && forall i :: 0 <= i < 8 ==> 0 <= x[i] < 256
    ensures r == Little(x) && r < Pow2(64)
  {
    r := 0;
    for i := 0 to 8
      invariant r == Little(x[..i])
    {
      hide Or, Little, Pow2;
      LittleSmall(x[..i]);
      OrDisjoint(r, x[i], 8 * i);
      LittleSnoc(x[..i], x[i]);
      assert x[..i + 1] == x[..i] + [x[i]];
      r := Or(r, x[i] * Pow2(8 * i));
    }
    LittleSmall(x);
    assert x[..8] == x;
  }

  lemma LowMore(u: nat, i: nat)
    ensures Low(u, 8 * (i + 1)) == Low(u, 8 * i) + ByteOf(u, i) * Pow2(8 * i)
  {
    Pow2Add(8 * i, 8);
    DivTwice(u, Pow2(8 * i), Pow2(8));
  }

  /** The inverse of Load64: the eight bytes whose little-endian value is the word. */
  method Store64(u: nat) returns (x: seq<int>)
    requires u < Pow2(64)
    ensures |x| == 8 && (forall i :: 0 <= i < 8 ==> 0 <= x[i] < 256) && Little(x) == u
  {
    x := [];
    ShrZero(u);
    for i := 0 to 8
      invariant |x| == i && (forall j :: 0 <= j < i ==> 0 <= x[j] < 256) && Little(x) == Low(u, 8 * i)
    {
      hide Low, Shr, Little, Pow2;
      ByteSmall(u, i);
      LowMore(u, i);
      LittleSnoc(x, ByteOf(u, i));
      x := x + [ByteOf(u, i)];
    }
    DivUnique(u, Pow2(64), 0, u);
  }
}

/** The sponge construction, section 4 of NIST FIPS 202, on states of 200 bytes. */
module Sponge {
  import opened Bits

  /** Any function in the place of the Keccak permutation. */
  type Perm = seq<int> -> seq<int>

  function Zero(): seq<int> {
    seq(200, _ => 0)
  }

  ghost predicate AllBytes(m: seq<int>) {
    forall i :: 0 <= i < |m| ==> 0 <= m[i] < 256
  }

  ghost predicate StateOk(b: seq<int>) {
    |b| == 200 && AllBytes(b)
  }

  ghost predicate PermOk(P: Perm) {
    forall b :: StateOk(b) ==> StateOk(P(b))
  }

  function XorOf(a: int, b: int): int {
    if a >= 0 && b >= 0 then Xor(a, b) else 0
  }

  /** The state with m exclusive-ored over it from byte `off` on. */
  ghost function XorAt(b: seq<int>, off: nat, m: seq<int>): (r: seq<int>)
    ensures |r| == |b|
  {
    seq(|b|, i requires 0 <= i < |b| => if off <= i < off + |m| then XorOf(b[i], m[i - off]) else b[i])
  }

  /** Every whole block of n is put over the state, and the state permuted after each. */
  ghost function AbsorbBlocks(P: Perm, r: nat, b: seq<int>, n: seq<int>): seq<int>
    requires r > 0
    decreases |n|
  {
    if |n| < r then b else AbsorbBlocks(P, r, P(XorAt(b, 0, n[..r])), n[r..])
  }

  /** The padding: the suffix byte p after the message, zeros, and 0x80 over the last byte. */
  function Padded(r: nat, m: seq<int>, p: int): seq<int>
    requires r > 0
  {
    var q := r - |m| % r;
    if q == 1 then m + [XorOf(p, 0x80)] else m + [p] + seq(q - 2, _ => 0) + [0x80]
  }

  ghost function Iter(P: Perm, b: seq<int>, j: nat): seq<int> {
    if j == 0 then b else P(Iter(P, b, j - 1))
  }

  /** Byte i of the endless output that starts with the state b. */
  ghost function StreamAt(P: Perm, r: nat, b: seq<int>, i: nat): int
    requires r > 0
  {
    var block := Iter(P, b, i / r);
    if i % r < |block| then block[i % r] else 0
  }

  ghost function Stream(P: Perm, r: nat, b: seq<int>, n: nat): seq<int>
    requires r > 0
  {
    seq(n, i requires 0 <= i < n => StreamAt(P, r, b, i))
  }

  /** n bytes of output for message m. */
  ghost function Output(P: Perm, r: nat, p: int, m: seq<int>, n: nat): seq<int>
    requires r > 0
  {
    Stream(P, r, AbsorbBlocks(P, r, Zero(), Padded(r, m, p)), n)
  }

  // ---------- laws ----------

  lemma XorBytes(a: int, b: int)
    requires 0 <= a < 256 && 0 <= b < 256
    ensures 0 <= XorOf(a, b) < 256
  {
    Pow2Values();
    XorBound(a, b, 8);
  }

  lemma XorAtOk(b: seq<int>, off: nat, m: seq<int>)
    requires StateOk(b) && AllBytes(m)
    ensures StateOk(XorAt(b, off, m))
  {
    hide XorOf;
    forall i | 0 <= i < 200 ensures 0 <= XorAt(b, off, m)[i] < 256 {
      if off <= i < off + |m| { XorBytes(b[i], m[i - off]); }
    }
  }

  lemma XorAtNone(b: seq<int>, off: nat)
    ensures XorAt(b, off, []) == b
  {
  }

  lemma XorAtJoin(b: seq<int>, off: nat, x: seq<int>, y: seq<int>)
    ensures XorAt(XorAt(b, off, x), off + |x|, y) == XorAt(b, off, x + y)
  {
    hide XorOf;
  }

  lemma {:induction false} AbsorbAppend(P: Perm, r: nat, b: seq<int>, x: seq<int>, y: seq<int>)
    requires r > 0 && |x| % r == 0
    ensures AbsorbBlocks(P, r, b, x + y) == AbsorbBlocks(P, r, AbsorbBlocks(P, r, b, x), y)
    decreases |x|
  {
    if |x| < r {
      DivUnique(|x|, r, 0, |x|);
      assert x + y == y;
    } else {
      assert (x + y)[..r] == x[..r] && (x + y)[r..] == x[r..] + y;
      DropBlock(|x|, r);
      AbsorbAppend(P, r, P(XorAt(b, 0, x[..r])), x[r..], y);
    }
  }

  lemma DropBlock(n: nat, r: nat)
    requires n >= r > 0
    ensures (n - r) % r == n % r
  {
    DivModEq(n, r);
    assert n - r == (n / r - 1) * r + n % r;
    DivUnique(n - r, r, n / r - 1, n % r);
  }

  /** What the state holds after message m, before any padding: the whole blocks absorbed, and the
      rest put over the state. */
  ghost function Partial(P: Perm, r: nat, m: seq<int>): seq<int>
    requires r > 0
  {
    XorAt(Whole(P, r, m), 0, Rest(r, m))
  }

  ghost function Whole(P: Perm, r: nat, m: seq<int>): seq<int>
    requires r > 0
  {
    ModSmall(|m|, r);
    AbsorbBlocks(P, r, Zero(), m[..|m| - |m| % r])
  }

  function Rest(r: nat, m: seq<int>): (rest: seq<int>)
    requires r > 0
    ensures |rest| == |m| % r
  {
    ModSmall(|m|, r);
    m[|m| - |m| % r..]
  }

  lemma ModSmall(n: nat, r: nat)
    requires r > 0
    ensures 0 <= n % r <= n && n % r < r && (n - n % r) % r == 0
  {
    DivModEq(n, r);
    if n < r { DivUnique(n, r, 0, n); }
    DivUnique(n - n % r, r, n / r, 0);
  }

  /** A block's worth of bytes, from a message that ends `have` bytes into a block. */
  lemma ModAdd(n: nat, k: nat, r: nat)
    requires r > 0 && n % r + k <= r
    ensures (n + k) % r == if n % r + k == r then 0 else n % r + k
    ensures n + k - (n + k) % r == if n % r + k == r then n + k else n - n % r
  {
    DivModEq(n, r);
    if n % r + k == r {
      DivUnique(n + k, r, n / r + 1, 0);
    } else {
      DivUnique(n + k, r, n / r, n % r + k);
    }
  }

  lemma PartialMore(P: Perm, r: nat, m: seq<int>, c: seq<int>)
    requires r > 0 && |m| % r + |c| < r
    ensures |m + c| % r == |m| % r + |c|
    ensures Partial(P, r, m + c) == XorAt(Partial(P, r, m), |m| % r, c)
  {
    hide XorAt, AbsorbBlocks;
    ModSmall(|m|, r);
    ModAdd(|m|, |c|, r);
    var full := |m| - |m| % r;
    assert (m + c)[..full] == m[..full] && (m + c)[full..] == m[full..] + c;
    XorAtJoin(Whole(P, r, m), 0, Rest(r, m), c);
  }

  lemma PartialFill(P: Perm, r: nat, m: seq<int>, c: seq<int>)
    requires r > 0 && |m| % r + |c| == r
    ensures |m + c| % r == 0
    ensures Partial(P, r, m + c) == P(XorAt(Partial(P, r, m), |m| % r, c))
  {
    hide XorAt, AbsorbBlocks;
    ModSmall(|m|, r);
    ModAdd(|m|, |c|, r);
    var full := |m| - |m| % r;
    assert m + c == m[..full] + (m[full..] + c);
    assert (m + c)[..|m + c|] == m + c && (m + c)[|m + c|..] == [];
    AbsorbAppend(P, r, Zero(), m[..full], m[full..] + c);
    OneBlock(P, r, Whole(P, r, m), m[full..] + c);
    XorAtJoin(Whole(P, r, m), 0, Rest(r, m), c);
    XorAtNone(AbsorbBlocks(P, r, Zero(), m + c), 0);
  }

  lemma OneBlock(P: Perm, r: nat, b: seq<int>, block: seq<int>)
    requires |block| == r > 0
    ensures AbsorbBlocks(P, r, b, block) == P(XorAt(b, 0, block))
  {
    assert block[..r] == block;
  }

  /** The state that is handed to the squeezing side: its permutation is the one the padded
      message leads to. */
  ghost function Final(P: Perm, r: nat, m: seq<int>, p: int): seq<int>
    requires r > 0
  {
    XorAt(XorAt(Partial(P, r, m), |m| % r, [p]), r - 1, [0x80])
  }

  lemma FinalIsPadded(P: Perm, r: nat, m: seq<int>, p: int)
    requires 0 < r <= 200 && PermOk(P) && AllBytes(m) && 0 <= p < 256
    ensures AbsorbBlocks(P, r, Zero(), Padded(r, m, p)) == P(Final(P, r, m, p))
  {
    hide AbsorbBlocks, XorOf, PermOk;
    ModSmall(|m|, r);
    var full := |m| - |m| % r;
    var block := Padded(r, m, p)[full..];
    assert Padded(r, m, p) == m[..full] + block;
    AbsorbAppend(P, r, Zero(), m[..full], block);
    OneBlock(P, r, Whole(P, r, m), block);
    WholeOk(P, r, m);
    LastBlock(Whole(P, r, m), r, m[full..], p, block);
  }

  /** Putting the padded last block over the state at once, or the rest of the message, the suffix
      and the last bit one after the other, is the same. */
  lemma LastBlock(b: seq<int>, r: nat, rest: seq<int>, p: int, block: seq<int>)
    requires 0 < r <= 200 && |rest| < r && StateOk(b) && AllBytes(rest) && 0 <= p < 256
    requires block ==
      if |rest| == r - 1 then rest + [XorOf(p, 0x80)] else rest + [p] + seq(r - |rest| - 2, _ => 0) + [0x80]
    ensures XorAt(b, 0, block) == XorAt(XorAt(XorAt(b, 0, rest), |rest|, [p]), r - 1, [0x80])
  {
    hide XorOf;
    forall i | 0 <= i < 200
      ensures XorAt(b, 0, block)[i] == XorAt(XorAt(XorAt(b, 0, rest), |rest|, [p]), r - 1, [0x80])[i]
    {
      if |rest| < i < r - 1 { XorOfZero(b[i]); }
      if i == r - 1 == |rest| { XorOfAssoc(b[i], p, 0x80); }
    }
  }

  lemma XorOfZero(a: int)
    requires a >= 0
    ensures XorOf(a, 0) == a
  {
  }

  lemma XorOfAssoc(a: int, b: int, c: int)
    requires a >= 0 && b >= 0 && c >= 0
    ensures XorOf(a, XorOf(b, c)) == XorOf(XorOf(a, b), c)
  {
    XorAssoc(a, b, c);
  }

  lemma {:induction false} XorAssoc(a: nat, b: nat, c: nat)
    ensures Xor(a, Xor(b, c)) == Xor(Xor(a, b), c)
    decreases a + b + c
  {
    hide Xor;
    if a + b + c > 0 {
      XorAssoc(a / 2, b / 2, c / 2);
      XorHalf(b, c);
      XorHalf(a, b);
      XorHalf(a, Xor(b, c));
      XorHalf(Xor(a, b), c);
    } else {
      XorSelf(0);
    }
  }

  lemma {:induction false} BlocksOk(P: Perm, r: nat, b: seq<int>, n: seq<int>)
    requires r > 0 && PermOk(P) && StateOk(b) && AllBytes(n)
    ensures StateOk(AbsorbBlocks(P, r, b, n))
    decreases |n|
  {
    if |n| < r {
    } else {
      XorAtOk(b, 0, n[..r]);
      BlocksOk(P, r, P(XorAt(b, 0, n[..r])), n[r..]);
    }
  }

  lemma WholeOk(P: Perm, r: nat, m: seq<int>)
    requires r > 0 && PermOk(P) && AllBytes(m)
    ensures StateOk(Whole(P, r, m))
  {
    ModSmall(|m|, r);
    BlocksOk(P, r, Zero(), m[..|m| - |m| % r]);
  }

  lemma {:induction false} IterShift(P: Perm, b: seq<int>, j: nat)
    ensures Iter(P, b, j + 1) == Iter(P, P(b), j)
  {
    if j == 0 {
    } else {
      IterShift(P, b, j - 1);
    }
  }

  lemma {:induction false} IterOk(P: Perm, b: seq<int>, j: nat)
    requires PermOk(P) && StateOk(b)
    ensures StateOk(Iter(P, b, j))
  {
    if j == 0 {
    } else {
      IterOk(P, b, j - 1);
    }
  }
}

/** The absorbing and squeezing loops of src/fips202.cpp, over a state of 25 words.  The
    permutation itself is a parameter. */
module Keccak {
  import opened Bits
  import opened WordBytes
  import opened Sponge

  ghost predicate Words(s: seq<nat>) {
    |s| >= 25 && forall i :: 0 <= i < 25 ==> s[i] < Pow2(64)
  }

  /** The 200 bytes of the state, in little-endian order. */
  function View(s: seq<nat>): (b: seq<int>)
    requires |s| >= 25
    ensures |b| == 200
  {
    seq(200, k requires 0 <= k < 200 => ByteOf(s[k / 8], k % 8))
  }

  lemma ViewOk(s: seq<nat>)
    requires |s| >= 25
    ensures StateOk(View(s))
  {
    hide ByteOf;
    forall k | 0 <= k < 200 ensures 0 <= View(s)[k] < 256 { ByteSmall(s[k / 8], k % 8); }
  }

  lemma WordOfState(b: seq<int>, i: nat, k: nat)
    requires StateOk(b) && i < 25 && k < 8
    ensures AllBytes(b[8 * i..8 * i + 8])
    ensures ByteOf(Little(b[8 * i..8 * i + 8]), k) == b[8 * i + k]
  {
    hide ByteOf, Little;
    var bs := b[8 * i..8 * i + 8];
    LittleByte(bs, k);
  }

  /** In the place of KeccakF1600_StatePermute: any permutation of the 200 bytes. */
  method StatePermute(P: Perm, s: array<nat>)
    requires s.Length >= 25 && PermOk(P)
    modifies s
    ensures View(s[..]) == P(old(View(s[..]))) && Words(s[..])
    ensures s[25..] == old(s[25..])
  {
    hide ByteOf, Little, PermOk;
    ghost var was := s[25..];
    var b := P(View(s[..]));
    Permuted(P, View(s[..]), s[..]);
    var i := 0;
    while i < 25
      invariant 0 <= i <= 25
      invariant forall j :: 0 <= j < i ==> s[j] == Little(b[8 * j..8 * j + 8]) && s[j] < Pow2(64)
      invariant s[25..] == was
    {
      WordOfState(b, i, 0);
      var w := Load64(b[8 * i..8 * i + 8]);
      s[i] := w;
      assert s[25..] == was;
      i := i + 1;
    }
    ViewOfWords(s[..], b);
  }

  lemma Permuted(P: Perm, b: seq<int>, s: seq<nat>)
    requires PermOk(P) && |s| >= 25 && b == View(s)
    ensures StateOk(P(b))
    ensures forall i :: 0 <= i < 25 ==> AllBytes(P(b)[8 * i..8 * i + 8])
  {
    ViewOk(s);
  }

  lemma ViewOfWords(s: seq<nat>, b: seq<int>)
    requires |s| >= 25 && StateOk(b)
    requires forall i :: 0 <= i < 25 ==> AllBytes(b[8 * i..8 * i + 8])
    requires forall i :: 0 <= i < 25 ==> s[i] == Little(b[8 * i..8 * i + 8])
    ensures View(s) == b
  {
    hide ByteOf, Little;
    forall k | 0 <= k < 200 ensures View(s)[k] == b[k] {
      WordOfState(b, k / 8, k % 8);
      assert b[8 * (k / 8) + k % 8] == b[k];
    }
  }

  /** One byte of message over byte k of the state. */
  method XorByte(s: array<nat>, k: nat, b: int)
    requires Words(s[..]) && k < 200 && 0 <= b < 256
    modifies s
    ensures Words(s[..]) && View(s[..]) == XorAt(old(View(s[..])), k, [b])
    ensures s[25..] == old(s[25..])
  {
    hide ByteOf, Xor, View, Pow2, XorAt;
    ghost var was := s[..];
    XorByteWord(s[k / 8], b, k % 8);
    s[k / 8] := Xor(s[k / 8], b * Pow2(8 * (k % 8)));
    XorByteView(was, s[..], k, b);
  }

  lemma XorByteWord(w: nat, b: nat, j: nat)
    requires w < Pow2(64) && b < 256 && j < 8
    ensures Xor(w, b * Pow2(8 * j)) < Pow2(64)
  {
    SmallShift(b, j, 8);
    XorBound(w, b * Pow2(8 * j), 64);
  }

  lemma XorByteView(was: seq<nat>, s: seq<nat>, k: nat, b: nat)
    requires |was| == |s| >= 25 && k < 200 && b < 256
    requires s == was[k / 8 := Xor(was[k / 8], b * Pow2(8 * (k % 8)))]
    ensures View(s) == XorAt(View(was), k, [b])
  {
    hide ByteOf, Xor;
    forall i | 0 <= i < 200 ensures View(s)[i] == XorAt(View(was), k, [b])[i] {
      if i / 8 == k / 8 {
        XorByteAt(was[k / 8], b, k % 8, i % 8);
        ByteSmall(was[k / 8], k % 8);
      }
    }
  }

  /** Bytes of message over the state from byte `off` on. */
  method XorInto(s: array<nat>, off: nat, m: seq<int>)
    requires Words(s[..]) && off + |m| <= 200 && AllBytes(m)
    modifies s
    ensures Words(s[..]) && View(s[..]) == XorAt(old(View(s[..])), off, m)
    ensures s[25..] == old(s[25..])
  {
    hide View, XorAt;
    XorAtNone(View(s[..]), off);
    var i := 0;
    while i < |m|
      invariant 0 <= i <= |m|
      invariant Words(s[..]) && View(s[..]) == XorAt(old(View(s[..])), off, m[..i])
      invariant s[25..] == old(s[25..])
    {
      XorAtJoin(old(View(s[..])), off, m[..i], [m[i]]);
      assert m[..i] + [m[i]] == m[..i + 1];
      XorByte(s, off + i, m[i]);
      i := i + 1;
    }
    assert m[..|m|] == m;
  }

  ghost predicate RateOk(r: nat) {
    0 < r <= 200
  }

  /** Byte i of the output that follows a finalized state, which is permuted before every block. */
  ghost function OutAt(P: Perm, r: nat, b: seq<int>, i: nat): int
    requires r > 0
  {
    var block := Iter(P, b, i / r + 1);
    if i % r < |block| then block[i % r] else 0
  }

  lemma OutIsStream(P: Perm, r: nat, m: seq<int>, p: int, i: nat)
    requires RateOk(r) && PermOk(P) && AllBytes(m) && 0 <= p < 256
    ensures OutAt(P, r, Final(P, r, m, p), i) == StreamAt(P, r, AbsorbBlocks(P, r, Zero(), Padded(r, m, p)), i)
  {
    hide Iter, Final, AbsorbBlocks, Padded;
    FinalIsPadded(P, r, m, p);
    DivNat(i, r);
    IterShift(P, Final(P, r, m, p), i / r);
  }

  /** Copies the first n bytes of the state out. */
  method Extract(s: array<nat>, from: nat, n: nat) returns (h: seq<int>)
    requires s.Length >= 25 && from + n <= 200
    ensures h == View(s[..])[from..from + n]
  {
    hide ByteOf;
    h := [];
    for i := 0 to n
      invariant h == View(s[..])[from..from + i]
    {
      h := h + [ByteOf(s[(from + i) / 8], (from + i) % 8)];
    }
  }

  /** The incremental interface: 25 words of state, and a 26th that counts the bytes over the state
      that are not yet permuted, or those that are not yet given out. */
  class IncContext {
    const P: Perm
    const r: nat
    const ctx: array<nat>
    ghost var message: seq<int>
    ghost var suffix: int
    /** How many bytes have been given out, and how many blocks were begun for them. */
    ghost var produced: nat
    ghost var blocks: nat

    ghost predicate Ready()
      reads this, ctx
    {
      ctx.Length == 26 && RateOk(r) && PermOk(P) && Words(ctx[..]) && AllBytes(message)
    }

    /** Between init and finalize: `message` has been absorbed so far. */
    ghost predicate Absorbing()
      reads this, ctx
    {
      && Ready()
      && ctx[25] == |message| % r
      && View(ctx[..]) == Partial(P, r, message)
    }

    /** After finalize: `produced` bytes have been given out. */
    ghost predicate Squeezing()
      reads this, ctx
    {
      && Ready()
      && 0 <= suffix < 256
      && ctx[25] == blocks * r - produced
      && ctx[25] < r
      && View(ctx[..]) == Iter(P, Final(P, r, message, suffix), blocks)
    }

    constructor (perm: Perm, rate: nat)
      requires RateOk(rate) && PermOk(perm)
      ensures Absorbing() && message == [] && P == perm && r == rate && fresh(ctx)
    {
      P, r := perm, rate;
      ctx := new nat[26](_ => 0);
      message, suffix, produced, blocks := [], 0, 0, 0;
      new;
      hide View, PermOk, Partial, Words, Zero;
      ZeroView(ctx[..]);
      NothingYet(P, r);
      ModSmall(0, r);
    }

    /** The 26th word is not part of the state. */
    method SetCount(n: nat)
      requires ctx.Length == 26 && Words(ctx[..])
      modifies ctx
      ensures Words(ctx[..]) && View(ctx[..]) == old(View(ctx[..])) && ctx[25] == n
    {
      ctx[25] := n;
    }

    /** Completes the block that is being filled, and permutes. */
    method FillBlock(m: seq<int>, i0: nat) returns (i: nat)
      requires Absorbing() && AllBytes(m) && i0 <= |m| && |m| - i0 + ctx[25] >= r
      modifies this`message, ctx
      ensures i == i0 + r - old(ctx[25]) <= |m|
      ensures Absorbing() && message == old(message) + m[i0..i] && ctx[25] == 0
    {
      hide View, Partial, Words, PermOk, XorAt;
      ModSmall(|message|, r);
      i := i0 + r - ctx[25];
      ghost var c := m[i0..i];
      PartialFill(P, r, message, c);
      XorInto(ctx, ctx[25], m[i0..i]);
      SetCount(0);
      StatePermute(P, ctx);
      assert ctx[25] == ctx[25..][0];
      message := message + c;
    }

    /** The absorbed bytes are the message, however they are cut into calls. */
    method Absorb(m: seq<int>)
      requires Absorbing() && AllBytes(m)
      modifies this`message, ctx
      ensures Absorbing() && message == old(message) + m
    {
      hide View, Partial, Words, PermOk;
      ModSmall(|message|, r);
      var i := 0;
      while |m| - i + ctx[25] >= r
        invariant 0 <= i <= |m|
        invariant Absorbing() && message == old(message) + m[..i]
        decreases |m| - i + ctx[25]
      {
        i := FillBlock(m, i);
        assert old(message) + m[..i] == message;
      }
      assert m == m[..i] + m[i..];
      AbsorbRest(m[i..]);
    }

    /** Bytes that do not fill the block. */
    method AbsorbRest(m: seq<int>)
      requires Absorbing() && AllBytes(m) && |m| + ctx[25] < r
      modifies this`message, ctx
      ensures Absorbing() && message == old(message) + m
    {
      hide View, Partial, Words, PermOk, XorAt;
      PartialMore(P, r, message, m);
      var have := ctx[25];
      XorInto(ctx, have, m);
      SetCount(have + |m|);
      message := message + m;
    }

    /** Suffix byte and last bit: the state is then the one that the padded message leads to, but
        for its permutation. */
    method Finalize(p: int)
      requires Absorbing() && 0 <= p < 256
      modifies this, ctx
      ensures Squeezing() && produced == 0 && message == old(message) && suffix == p
    {
      hide View, Partial, Words, PermOk, XorAt, Zero;
      ModSmall(|message|, r);
      XorInto(ctx, ctx[25], [p]);
      XorInto(ctx, r - 1, [0x80]);
      SetCount(0);
      suffix, produced, blocks := p, 0, 0;
    }

    /** The bytes still left of the current block. */
    method TakeLeft(outlen: nat) returns (h: seq<int>)
      requires Squeezing()
      modifies this`produced, ctx
      ensures Squeezing() && produced == old(produced) + |h|
      ensures |h| == if outlen < old(ctx[25]) then outlen else old(ctx[25])
      ensures |h| < outlen ==> produced == blocks * r
      ensures forall i :: 0 <= i < |h| ==> h[i] == OutAt(P, r, Final(P, r, message, suffix), old(produced) + i)
    {
      hide View, Final, Words, PermOk, Iter, OutAt;
      var left := ctx[25];
      var n := if outlen < left then outlen else left;
      h := Extract(ctx, r - left, n);
      TakenAt(P, r, Final(P, r, message, suffix), blocks, produced, r - left, h);
      SetCount(left - n);
      produced := produced + n;
    }

    /** The next block, permuted into being, or the first bytes of it. */
    method TakeBlock(outlen: nat) returns (h: seq<int>)
      requires Squeezing() && produced == blocks * r && outlen > 0
      modifies this`produced, this`blocks, ctx
      ensures Squeezing() && produced == old(produced) + |h|
      ensures |h| == if outlen < r then outlen else r
      ensures |h| < outlen ==> produced == blocks * r
      ensures forall i :: 0 <= i < |h| ==> h[i] == OutAt(P, r, Final(P, r, message, suffix), old(produced) + i)
    {
      hide View, Final, Words, PermOk, OutAt;
      StatePermute(P, ctx);
      blocks := blocks + 1;
      var n := if outlen < r then outlen else r;
      h := Extract(ctx, 0, n);
      TakenAt(P, r, Final(P, r, message, suffix), blocks, produced, 0, h);
      SetCount(r - n);
      produced := produced + n;
    }

    /** The output is the sponge's, however it is cut into calls. */
    method Squeeze(outlen: nat) returns (h: seq<int>)
      requires Squeezing()
      modifies this`produced, this`blocks, ctx
      ensures Squeezing() && produced == old(produced) + outlen
      ensures h == Output(P, r, suffix, message, produced)[old(produced)..]
    {
      hide View, Final, Words, PermOk, Iter, OutAt;
      h := TakeLeft(outlen);
      while |h| < outlen
        invariant |h| <= outlen && (|h| < outlen ==> produced == blocks * r)
        invariant Squeezing() && produced == old(produced) + |h|
        invariant forall i :: 0 <= i < |h| ==> h[i] == OutAt(P, r, Final(P, r, message, suffix), old(produced) + i)
      {
        var more := TakeBlock(outlen - |h|);
        h := h + more;
      }
      OutputFrom(P, r, suffix, message, produced, old(produced), h);
    }
  }

  lemma InBlock(blocks: nat, r: nat, i: nat, k: nat)
    requires k < r && i == blocks * r - r + k
    ensures i / r + 1 == blocks && i % r == k
  {
    assert blocks * r - r == (blocks - 1) * r;
    DivUnique(i, r, blocks - 1, k);
  }

  /** Bytes k, k + 1, ... of block number `blocks` are bytes from, from + 1, ... of the output. */
  lemma TakenAt(P: Perm, r: nat, b: seq<int>, blocks: nat, from: nat, k: nat, h: seq<int>)
    requires r > 0 && k + |h| <= r && from == blocks * r - r + k && k + |h| <= |Iter(P, b, blocks)|
    requires h == Iter(P, b, blocks)[k..k + |h|]
    ensures forall i :: 0 <= i < |h| ==> h[i] == OutAt(P, r, b, from + i)
  {
    hide Iter;
    forall i | 0 <= i < |h| ensures h[i] == OutAt(P, r, b, from + i) { InBlock(blocks, r, from + i, k + i); }
  }

  lemma OutputFrom(P: Perm, r: nat, p: int, m: seq<int>, n: nat, from: nat, h: seq<int>)
    requires RateOk(r) && PermOk(P) && AllBytes(m) && 0 <= p < 256 && n == from + |h|
    requires forall i :: 0 <= i < |h| ==> h[i] == OutAt(P, r, Final(P, r, m, p), from + i)
    ensures h == Output(P, r, p, m, n)[from..]
  {
    hide OutAt, StreamAt, Final, AbsorbBlocks, Padded;
    forall i | 0 <= i < |h| ensures h[i] == Output(P, r, p, m, n)[from + i] {
      OutIsStream(P, r, m, p, from + i);
    }
  }

  lemma ZeroView(s: seq<nat>)
    requires |s| >= 25 && forall i :: 0 <= i < 25 ==> s[i] == 0
    ensures View(s) == Zero() && Words(s)
  {
    forall k | 0 <= k < 200 ensures View(s)[k] == 0 { ByteShifted(0, 0, k % 8); }
  }

  // ---------- the one-shot interface ----------

  lemma XorWordView(was: seq<nat>, s: seq<nat>, i: nat, bs: seq<int>)
    requires |was| == |s| >= 25 && i < 25 && |bs| == 8 && AllBytes(bs)
    requires s == was[i := Xor(was[i], Little(bs))]
    ensures View(s) == XorAt(View(was), 8 * i, bs)
  {
    hide ByteOf, Xor, Little;
    forall k | 0 <= k < 200 ensures View(s)[k] == XorAt(View(was), 8 * i, bs)[k] {
      if k / 8 == i {
        ByteXor(was[i], Little(bs), k % 8);
        LittleByte(bs, k % 8);
        ByteSmall(was[i], k % 8);
      }
    }
  }

  /** One word of a block over the state. */
  method XorWord(s: array<nat>, i: nat, bs: seq<int>)
    requires Words(s[..]) && i < 25 && |bs| == 8 && AllBytes(bs)
    modifies s
    ensures Words(s[..]) && View(s[..]) == XorAt(old(View(s[..])), 8 * i, bs)
  {
    hide ByteOf, Xor, Little, View;
    ghost var was := s[..];
    var w := Load64(bs);
    XorBound(s[i], w, 64);
    s[i] := Xor(s[i], w);
    XorWordView(was, s[..], i, bs);
  }

  /** A block, eight bytes at a time. */
  method XorBlock(s: array<nat>, r: nat, t: seq<int>)
    requires Words(s[..]) && RateOk(r) && r % 8 == 0 && |t| == r && AllBytes(t)
    modifies s
    ensures Words(s[..]) && View(s[..]) == XorAt(old(View(s[..])), 0, t)
  {
    hide View, XorAt;
    XorAtNone(View(s[..]), 0);
    assert t[..0] == [];
    var i := 0;
    while i < r / 8
      invariant 0 <= i <= r / 8
      invariant Words(s[..]) && View(s[..]) == XorAt(old(View(s[..])), 0, t[..8 * i])
    {
      XorAtJoin(old(View(s[..])), 0, t[..8 * i], t[8 * i..8 * i + 8]);
      assert t[..8 * i] + t[8 * i..8 * i + 8] == t[..8 * (i + 1)];
      XorWord(s, i, t[8 * i..8 * i + 8]);
      i := i + 1;
    }
    assert t[..8 * i] == t;
  }

  lemma {:induction false} TopBit(x: nat, k: nat)
    requires x < 2 * Pow2(k)
    ensures Or(x, Pow2(k)) == if x < Pow2(k) then x + Pow2(k) else x
    ensures Xor(x, Pow2(k)) == if x < Pow2(k) then x + Pow2(k) else x - Pow2(k)
    decreases k
  {
    hide Or, Xor, Pow2;
    OrHalf(x, Pow2(k));
    XorHalf(x, Pow2(k));
    if k > 0 {
      Pow2Half(k);
      TopBit(x / 2, k - 1);
    } else {
      Pow2Zero();
      OrXorBit();
    }
  }

  lemma OrXorBit()
    ensures Or(0, 1) == 1 && Or(1, 1) == 1 && Xor(0, 1) == 1 && Xor(1, 1) == 0
    ensures Or(0, 0) == 0 && Xor(0, 0) == 0
  {
  }

  /** The last block: the rest of the message, the suffix, zeros, and the last bit or-ed in. */
  method LastBlockOf(rest: seq<int>, r: nat, p: int) returns (t: seq<int>)
    requires RateOk(r) && |rest| < r && AllBytes(rest) && 0 <= p < 256
    ensures |t| == r && AllBytes(t)
    ensures forall i :: 0 <= i < r - 1 ==> t[i] == if i < |rest| then rest[i] else if i == |rest| then p else 0
    ensures t[r - 1] == if |rest| == r - 1 then Or(p, 0x80) else 0x80
  {
    t := seq(r, i => 0);
    var i := 0;
    while i < |rest|
      invariant 0 <= i <= |rest| && |t| == r
      invariant forall j :: 0 <= j < r ==> t[j] == if j < i then rest[j] else 0
    {
      t := t[i := rest[i]];
      i := i + 1;
    }
    t := t[i := p];
    Pow2Values();
    TopBit(t[r - 1], 7);
    TopBit(p, 7);
    t := t[r - 1 := Or(t[r - 1], 0x80)];
  }

  /** The last bit is or-ed in here and exclusive-ored in by the incremental interface: the two
      agree unless the suffix has that bit set and falls on the last byte of a block. */
  lemma OrOrXor(b: seq<int>, r: nat, rest: seq<int>, p: int, t: seq<int>)
    requires RateOk(r) && |rest| < r && StateOk(b) && AllBytes(rest) && 0 <= p < 256 && |t| == r && AllBytes(t)
    requires forall i :: 0 <= i < r - 1 ==> t[i] == if i < |rest| then rest[i] else if i == |rest| then p else 0
    requires t[r - 1] == if |rest| == r - 1 then Or(p, 0x80) else 0x80
    ensures XorAt(b, 0, t) == XorAt(XorAt(XorAt(b, 0, rest), |rest|, [p]), r - 1, [0x80]) <==>
      p < 0x80 || |rest| != r - 1
  {
    hide XorOf, Or;
    Pow2Values();
    TopBit(p, 7);
    var block := if |rest| == r - 1 then rest + [XorOf(p, 0x80)] else rest + [p] + seq(r - |rest| - 2, _ => 0) + [0x80];
    LastBlock(b, r, rest, p, block);
    if p < 0x80 || |rest| != r - 1 {
      assert t == block by { XorOfIs(p); }
    } else {
      XorOfIs(p);
      assert t[r - 1] != block[r - 1];
      XorOfInjective(b[r - 1], t[r - 1], block[r - 1]);
      assert XorAt(b, 0, t)[r - 1] != XorAt(b, 0, block)[r - 1];
    }
  }

  lemma XorOfIs(p: int)
    requires 0 <= p < 256
    ensures XorOf(p, 0x80) == if p < 0x80 then p + 0x80 else p - 0x80
  {
    Pow2Values();
    TopBit(p, 7);
  }

  lemma XorOfInjective(x: int, a: int, b: int)
    requires x >= 0 && a >= 0 && b >= 0
    ensures XorOf(x, a) == XorOf(x, b) <==> a == b
  {
    XorCancel(x, a);
    XorCancel(x, b);
  }

  /** Absorbing a whole message leads to the same state as init, absorb and finalize do, but for
      the one case where or and exclusive or differ. */
  method Absorb(P: Perm, s: array<nat>, r: nat, m: seq<int>, p: int)
    requires s.Length == 25 && RateOk(r) && r % 8 == 0 && PermOk(P) && AllBytes(m) && 0 <= p < 256
    modifies s
    ensures Words(s[..])
    ensures View(s[..]) == Final(P, r, m, p) <==> p < 0x80 || |m| % r != r - 1
  {
    hide View, Words, PermOk, XorAt, Partial, Or;
    var i := 0;
    while i < 25
      invariant 0 <= i <= 25 && forall j :: 0 <= j < i ==> s[j] == 0
    {
      s[i] := 0;
      i := i + 1;
    }
    ZeroView(s[..]);
    NothingYet(P, r);
    var at := AbsorbWhole(P, s, r, m);
    var t := LastBlockOf(m[at..], r, p);
    assert m == m[..at] + m[at..];
    PartialMore(P, r, m[..at], m[at..]);
    ViewOk(s[..]);
    OrOrXor(View(s[..]), r, m[at..], p, t);
    XorBlock(s, r, t);
  }

  lemma NothingYet(P: Perm, r: nat)
    requires r > 0
    ensures Partial(P, r, []) == Zero()
  {
    ModSmall(0, r);
    assert Rest(r, []) == [];
    XorAtNone(Zero(), 0);
  }

  method AbsorbWhole(P: Perm, s: array<nat>, r: nat, m: seq<int>) returns (at: nat)
    requires s.Length == 25 && RateOk(r) && r % 8 == 0 && PermOk(P) && AllBytes(m)
    requires Words(s[..]) && View(s[..]) == Partial(P, r, [])
    modifies s
    ensures at <= |m| && |m| - at < r && at % r == 0
    ensures Words(s[..]) && View(s[..]) == Partial(P, r, m[..at])
  {
    hide View, Words, PermOk, XorAt, Partial;
    at := 0;
    ModSmall(0, r);
    assert m[..0] == [];
    while |m| - at >= r
      invariant 0 <= at <= |m| && at % r == 0
      invariant Words(s[..]) && View(s[..]) == Partial(P, r, m[..at])
    {
      PartialFill(P, r, m[..at], m[at..at + r]);
      assert m[..at] + m[at..at + r] == m[..at + r];
      XorBlock(s, r, m[at..at + r]);
      StatePermute(P, s);
      at := at + r;
    }
  }

  /** The first r bytes of the state, a word at a time. */
  method StoreWords(s: array<nat>, r: nat) returns (h: seq<int>)
    requires Words(s[..]) && RateOk(r) && r % 8 == 0
    ensures h == View(s[..])[0..r]
  {
    hide View;
    h := [];
    var i := 0;
    while i < r / 8
      invariant 0 <= i <= r / 8 && h == View(s[..])[..8 * i]
    {
      var x := Store64(s[i]);
      WordView(s[..], i, x);
      h := h + x;
      i := i + 1;
    }
  }

  lemma WordView(s: seq<nat>, i: nat, x: seq<int>)
    requires Words(s) && i < 25 && |x| == 8 && (forall j :: 0 <= j < 8 ==> 0 <= x[j] < 256) && Little(x) == s[i]
    ensures View(s)[..8 * (i + 1)] == View(s)[..8 * i] + x
  {
    hide ByteOf, Little;
    forall j | 0 <= j < 8 ensures View(s)[8 * i + j] == x[j] {
      LittleByte(x, j);
      assert (8 * i + j) / 8 == i && (8 * i + j) % 8 == j;
    }
    assert View(s)[8 * i..8 * (i + 1)] == x;
  }

  /** Whole blocks of output. */
  method SqueezeBlocks(P: Perm, s: array<nat>, r: nat, nblocks: nat, ghost b: seq<int>, ghost done: nat)
    returns (h: seq<int>)
    requires s.Length == 25 && RateOk(r) && r % 8 == 0 && PermOk(P) && View(s[..]) == Iter(P, b, done)
    modifies s
    ensures View(s[..]) == Iter(P, b, done + nblocks)
    ensures |h| == nblocks * r
    ensures forall i :: 0 <= i < |h| ==> h[i] == OutAt(P, r, b, done * r + i)
  {
    hide View, PermOk, OutAt;
    h := [];
    var n := 0;
    while n < nblocks
      invariant 0 <= n <= nblocks && |h| == n * r
      invariant View(s[..]) == Iter(P, b, done + n)
      invariant forall i :: 0 <= i < |h| ==> h[i] == OutAt(P, r, b, done * r + i)
    {
      StatePermute(P, s);
      var block := StoreWords(s, r);
      BlockStart(done, n, r);
      TakenAt(P, r, b, done + n + 1, done * r + n * r, 0, block);
      h := h + block;
      n := n + 1;
    }
  }

  lemma BlockStart(done: nat, n: nat, r: nat)
    ensures done * r + n * r == (done + n + 1) * r - r && (n + 1) * r == n * r + r
  {
  }

  const SHAKE256_RATE: nat := 136

  /** SHAKE256 in one call: the sponge with rate 136 and suffix 0x1F. */
  method Shake256(P: Perm, input: seq<int>, outlen: nat) returns (output: seq<int>)
    requires PermOk(P) && AllBytes(input)
    ensures output == Output(P, SHAKE256_RATE, 0x1F, input, outlen)
  {
    hide View, PermOk, OutAt, Iter, Final;
    var nblocks := outlen / SHAKE256_RATE;
    var s := new nat[25];
    Absorb(P, s, SHAKE256_RATE, input, 0x1F);
    ghost var b := Final(P, SHAKE256_RATE, input, 0x1F);
    IterZero(P, b);
    output := SqueezeBlocks(P, s, SHAKE256_RATE, nblocks, b, 0);
    var left := outlen - nblocks * SHAKE256_RATE;
    if left > 0 {
      var t := SqueezeBlocks(P, s, SHAKE256_RATE, 1, b, nblocks);
      output := output + t[..left];
    }
    OutputFrom(P, SHAKE256_RATE, 0x1F, input, outlen, 0, output);
  }

  lemma IterZero(P: Perm, b: seq<int>)
    ensures Iter(P, b, 0) == b
  {
  }

  function Concat(chunks: seq<seq<int>>): seq<int> {
    if chunks == [] then [] else Concat(chunks[..|chunks| - 1]) + chunks[|chunks| - 1]
  }

  function Sum(lens: seq<nat>): nat {
    if lens == [] then 0 else Sum(lens[..|lens| - 1]) + lens[|lens| - 1]
  }

  /** Any cut of the message and of the output into calls gives the bytes of the one-shot call. */
  method Shake256Incremental(P: Perm, chunks: seq<seq<int>>, lens: seq<nat>) returns (output: seq<int>)
    requires PermOk(P) && forall i :: 0 <= i < |chunks| ==> AllBytes(chunks[i])
    ensures output == Output(P, SHAKE256_RATE, 0x1F, Concat(chunks), Sum(lens))
  {
    hide View, PermOk, AllBytes, Final, Partial, Padded, AbsorbBlocks, StreamAt, Iter, Words;
    var c := new IncContext(P, SHAKE256_RATE);
    var i := 0;
    while i < |chunks|
      invariant 0 <= i <= |chunks| && fresh(c) && fresh(c.ctx)
      invariant c.Absorbing() && c.message == Concat(chunks[..i])
    {
      assert chunks[..i + 1][..i] == chunks[..i];
      c.Absorb(chunks[i]);
      i := i + 1;
    }
    assert chunks[..i] == chunks;
    c.Finalize(0x1F);
    output := [];
    i := 0;
    while i < |lens|
      invariant 0 <= i <= |lens| && fresh(c) && fresh(c.ctx)
      invariant c.Squeezing() && c.message == Concat(chunks) && c.suffix == 0x1F && c.produced == Sum(lens[..i])
      invariant output == Output(P, SHAKE256_RATE, 0x1F, Concat(chunks), c.produced)
    {
      assert lens[..i + 1][..i] == lens[..i];
      var h := c.Squeeze(lens[i]);
      output := output + h;
      i := i + 1;
    }
    assert lens[..i] == lens;
  }
}
