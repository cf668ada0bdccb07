/** Falcon's norm test (src/common.cpp): squared norms are summed in 32 bits, and a sticky word
    records whether the running sum ever reached bit 31. */
module ShortVector {
  import opened Bits

  type i16 = x: int | -0x8000 <= x < 0x8000
  type u32 = x: int | 0 <= x < 0x1_0000_0000

  /** The exact squared norm of the first k coordinates. */
  function NormSq(v: seq<i16>, k: nat): nat
    requires k <= |v|
  {
    if k == 0 then 0 else
      NormSq(v, k - 1) + Square(v[k - 1])
  }

  function Square(z: int): nat {
    if z >= 0 then z * z else (-z) * (-z)
  }

  /** The acceptance bound, scaled down with the degree. */
  function Bound(logn: nat): nat
    requires 1 <= logn <= 10
  {
    (7085 * 12289) / Pow2(10 - logn)
  }

  function Add32(a: u32, b: u32): u32 {
    (a + b) % 0x1_0000_0000
  }

  function Or32(a: u32, b: u32): u32 {
    Pow2Values();
    OrTop(a, b, 31);
    Or(a, b)
  }

  /** s is the exact total, or the sticky word has its top bit set and the total passed 2^31. */
  ghost predicate Tracks(s: u32, ng: u32, total: nat) {
    if ng < 0x8000_0000 then s == total < 0x8000_0000 else total >= 0x8000_0000
  }

  lemma SquareSmall(z: i16)
    ensures Square(z) <= 0x4000_0000
  {
    var w: int := z;
    var a := if w >= 0 then w else -w;
    MulMono(a, 0x8000, a);
  }

  lemma TracksStep(s: u32, ng: u32, total: nat, z: i16)
    requires Tracks(s, ng, total)
    ensures Square(z) <= 0x4000_0000
    ensures var s': u32 := Add32(s, Square(z)); Tracks(s', Or32(ng, s'), total + Square(z))
  {
    SquareSmall(z);
    Pow2Values();
    OrTop(ng, Add32(s, Square(z)), 31);
  }

  /** The last step: an overflowed sum becomes all ones, which no bound admits. */
  lemma SaturatedCompare(s: u32, ng: u32, total: nat, logn: nat)
    requires Tracks(s, ng, total) && 1 <= logn <= 10
    ensures var mask := if ng / 0x8000_0000 == 0 then 0 else 0xFFFF_FFFF;
      Or32(s, mask) < Bound(logn) <==> total < Bound(logn)
  {
    BoundSmall(logn);
    if ng >= 0x8000_0000 {
      assert ng / 0x8000_0000 == 1;
      Pow2Values();
      OrOnes(s, 32);
    }
  }

  lemma BoundSmall(logn: nat)
    requires 1 <= logn <= 10
    ensures Bound(logn) < 0x8000_0000
  {
    DivModEq(7085 * 12289, Pow2(10 - logn));
    MulMono(1, Pow2(10 - logn), Bound(logn));
  }

  /** Both vectors together: true exactly when the exact squared norm is under the bound. */
  method IsShort(s1: seq<i16>, s2: seq<i16>, logn: nat) returns (short: bool)
    requires 1 <= logn <= 10
    requires |s1| == |s2| == Pow2(logn)
    ensures short <==> NormSq(s1, |s1|) + NormSq(s2, |s2|) < Bound(logn)
  {
    var n := Pow2(logn);
    var s: u32, ng: u32 := 0, 0;
    for u := 0 to n
      invariant Tracks(s, ng, NormSq(s1, u) + NormSq(s2, u))
    {
      TracksStep(s, ng, NormSq(s1, u) + NormSq(s2, u), s1[u]);
      s := Add32(s, Square(s1[u]));
      ng := Or32(ng, s);
      TracksStep(s, ng, NormSq(s1, u + 1) + NormSq(s2, u), s2[u]);
      s := Add32(s, Square(s2[u]));
      ng := Or32(ng, s);
    }
    SaturatedCompare(s, ng, NormSq(s1, n) + NormSq(s2, n), logn);
    s := Or32(s, if ng / 0x8000_0000 == 0 then 0 else 0xFFFF_FFFF);
    short := s < Bound(logn);
  }

  /** The half-finished form: sqn is the squared norm of the first vector, saturated. */
  method IsShortHalf(sqn0: u32, s2: seq<i16>, logn: nat, ghost first: nat) returns (short: bool)
    requires 1 <= logn <= 10
    requires |s2| == Pow2(logn)
    requires if sqn0 < 0x8000_0000 then first == sqn0 else first >= 0x8000_0000
    ensures short <==> first + NormSq(s2, |s2|) < Bound(logn)
  {
    var n := Pow2(logn);
    var sqn: u32 := sqn0;
    var ng: u32 := if sqn / 0x8000_0000 == 0 then 0 else 0xFFFF_FFFF;
    for u := 0 to n
      invariant Tracks(sqn, ng, first + NormSq(s2, u))
    {
      TracksStep(sqn, ng, first + NormSq(s2, u), s2[u]);
      sqn := Add32(sqn, Square(s2[u]));
      ng := Or32(ng, sqn);
    }
    SaturatedCompare(sqn, ng, first + NormSq(s2, n), logn);
    sqn := Or32(sqn, if ng / 0x8000_0000 == 0 then 0 else 0xFFFF_FFFF);
    short := sqn < Bound(logn);
  }
}
