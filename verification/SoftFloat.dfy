/** binary64 numbers as real values, and the roundTiesToEven result of section 4.3.1 of
    IEEE 754-2008, stated without reference to how it is computed. */
module FloatSpec {
  import opened Bits

  type u64 = x: int | 0 <= x < 0x1_0000_0000_0000_0000

  const TWO52: int := 0x10_0000_0000_0000
  const TWO53: int := 0x20_0000_0000_0000
  const TWO63: int := 0x8000_0000_0000_0000

  /** 2^e for any integer e. */
  function P2(e: int): (r: real)
    ensures r > 0.0
    decreases if e < 0 then -e else e
  {
    if e == 0 then 1.0 else if e > 0 then 2.0 * P2(e - 1) else P2(e + 1) / 2.0
  }

  /** A product, named so that its arguments can be compared as wholes. */
  function Times(a: real, b: real): real { a * b }

  lemma P2Next(e: int)
    ensures P2(e + 1) == 2.0 * P2(e)
  {
  }

  lemma {:induction false} P2Add(a: int, b: int)
    ensures P2(a + b) == Times(P2(a), P2(b))
    decreases if b < 0 then -b else b
  {
    hide P2, Times;
    if b > 0 {
      P2Step(a, b - 1);
      P2Add(a, b - 1);
    } else if b < 0 {
      P2Step(a, b);
      P2Add(a, b + 1);
    } else {
      TimesOne(a);
    }
  }

  lemma TimesOne(a: int)
    ensures P2(a) == Times(P2(a), P2(0))
  {
  }

  lemma P2Step(a: int, b: int)
    ensures P2(a + b) == Times(P2(a), P2(b)) <==> P2(a + b + 1) == Times(P2(a), P2(b + 1))
  {
    P2Next(b);
    P2Next(a + b);
    hide P2;
    Twice(P2(a), P2(b));
  }

  lemma Twice(x: real, y: real)
    ensures Times(x, 2.0 * y) == 2.0 * Times(x, y)
  {
  }

  lemma {:induction false} P2Mono(a: int, b: int)
    requires a <= b
    ensures P2(a) <= P2(b)
    decreases b - a
  {
    if a == b {
    } else {
      P2Mono(a, b - 1);
      P2Next(b - 1);
    }
  }

  lemma {:induction false} P2Nat(n: nat)
    ensures P2(n) == Pow2(n) as real
  {
    if n == 0 {
    } else {
      P2Nat(n - 1);
    }
  }

  // ---------- the fields of a number ----------

  function Sign(x: u64): int { x / TWO63 }
  function Expo(x: u64): int { x / TWO52 % 0x800 }
  function Frac(x: u64): int { x % TWO52 }

  predicate Normal(x: u64) { 1 <= Expo(x) <= 2046 }
  predicate Zero(x: u64) { Expo(x) == 0 && Frac(x) == 0 }

  /** The integer mantissa of a normal number. */
  function Mant(x: u64): int { TWO52 + Frac(x) }

  /** The absolute value. */
  function Magnitude(x: u64): real {
    if Expo(x) == 0 then 0.0 else Times(Mant(x) as real, P2(Expo(x) - 1075))
  }

  function Value(x: u64): real {
    if Sign(x) == 1 then -Magnitude(x) else Magnitude(x)
  }

  // ---------- correct rounding ----------

  /** M units u, with M of 53 bits or the next power of two, are nearest to v > 0 in the binade of
      v; in case of a tie M is even. */
  ghost predicate RoundsTo(v: real, M: int, u: real) {
    && TWO52 as real * u <= v < TWO53 as real * u
    && TWO52 <= M <= TWO53
    && var d := v - Times(M as real, u);
       -u <= 2.0 * d <= u && (2.0 * d == u || 2.0 * d == -u ==> M % 2 == 0)
  }

  function Abs(v: real): real { if v < 0.0 then -v else v }

  /** r is the binary64 number that v rounds to, under roundTiesToEven. */
  ghost predicate IsNearestEven(v: real, r: u64) {
    && Normal(r)
    && (exists M, E :: RoundsTo(Abs(v), M, P2(E)) && Magnitude(r) == Times(M as real, P2(E)))
    && Sign(r) == if v < 0.0 then 1 else 0
  }

  /** The results that are in the normal range and do not round up to 2^1024. */
  ghost predicate InRange(v: real) {
    P2(-1022) <= Abs(v) && 2.0 * Abs(v) < (2 * TWO53 - 1) as real * P2(971)
  }

  /** What the operations deliver for a nonzero exact result v: the nearest number if v is in range, and
      a zero of the same sign if it lies below the normal range. */
  ghost predicate Delivers(v: real, r: u64) {
    && (InRange(v) ==> IsNearestEven(v, r))
    && (Abs(v) < P2(-1022) ==> Zero(r) && Sign(r) == if v < 0.0 then 1 else 0)
  }

  lemma TimesMono(a: real, b: real, p: real)
    requires p > 0.0
    ensures a <= b ==> Times(a, p) <= Times(b, p)
    ensures a < b ==> Times(a, p) < Times(b, p)
  {
  }

  lemma TimesSum(a: real, b: real, p: real)
    ensures Times(a + b, p) == Times(a, p) + Times(b, p)
    ensures Times(a - b, p) == Times(a, p) - Times(b, p)
  {
  }

  /** No integer multiple of the unit is nearer than the rounded one. */
  lemma NearestMultiple(v: real, M: int, u: real, m: int)
    requires u > 0.0 && RoundsTo(v, M, u)
    ensures Abs(v - Times(M as real, u)) <= Abs(v - Times(m as real, u))
  {
    if m > M {
      TimesMono((M + 1) as real, m as real, u);
      TimesSum(M as real, 1.0, u);
      assert Times(1.0, u) == u;
    } else if m < M {
      TimesMono(m as real, (M - 1) as real, u);
      TimesSum((M - 1) as real, 1.0, u);
      assert Times(1.0, u) == u;
    }
  }

  /** A correctly rounded result is at least as near as any other normal number. */
  lemma NearestOfAll(v: real, M: int, E: int, z: u64)
    requires RoundsTo(v, M, P2(E)) && Normal(z)
    ensures Abs(v - Times(M as real, P2(E))) <= Abs(v - Magnitude(z))
  {
    hide P2, Times, RoundsTo;
    var F := Expo(z) - 1075;
    NearestMultiple(v, M, P2(E), Mant(z));
    NearestMultiple(v, M, P2(E), TWO53);
    NearestMultiple(v, M, P2(E), TWO52);
    Binade(v, M, P2(E));
    if F > E {
      P2Next(E);
      P2Mono(E + 1, F);
      AboveBinade(Mant(z), P2(F), P2(E));
    } else if F < E {
      P2Next(E - 1);
      P2Mono(F, E - 1);
      BelowBinade(Mant(z), P2(F), P2(E));
    }
  }

  lemma Binade(v: real, M: int, u: real)
    requires RoundsTo(v, M, u)
    ensures Times(TWO52 as real, u) <= v < Times(TWO53 as real, u)
  {
  }

  lemma AboveBinade(m: int, p: real, u: real)
    requires m >= TWO52 && u > 0.0 && p >= 2.0 * u
    ensures Times(m as real, p) >= Times(TWO53 as real, u)
  {
    TimesMono(TWO52 as real, m as real, p);
  }

  lemma BelowBinade(m: int, p: real, u: real)
    requires m < TWO53 && p > 0.0 && 2.0 * p <= u
    ensures Times(m as real, p) <= Times(TWO52 as real, u)
  {
    TimesMono(m as real, TWO53 as real, p);
  }

  /** The rounded mantissa and its unit are determined by the value. */
  lemma RoundsToUnique(v: real, M: int, E: int, M': int, E': int)
    requires RoundsTo(v, M, P2(E)) && RoundsTo(v, M', P2(E'))
    ensures M == M' && E == E'
  {
    hide P2, Times, RoundsTo;
    Binade(v, M, P2(E));
    Binade(v, M', P2(E'));
    if E < E' {
      P2Next(E);
      P2Mono(E + 1, E');
      AboveBinade(TWO52, P2(E'), P2(E));
      assert false;
    }
    if E' < E {
      P2Next(E');
      P2Mono(E' + 1, E);
      AboveBinade(TWO52, P2(E), P2(E'));
      assert false;
    }
    UnitUnique(v, M, M', P2(E));
  }

  lemma UnitUnique(v: real, M: int, M': int, u: real)
    requires u > 0.0 && RoundsTo(v, M, u) && RoundsTo(v, M', u)
    ensures M == M'
  {
    if M < M' {
      Apart(v, M, M', u);
      assert false;
    }
    if M' < M {
      Apart(v, M', M, u);
      assert false;
    }
  }

  lemma Apart(v: real, M: int, M': int, u: real)
    requires u > 0.0 && RoundsTo(v, M, u) && M < M' && TWO52 <= M' <= TWO53
    ensures !RoundsTo(v, M', u)
  {
    TimesSum(M as real, (M' - M) as real, u);
    TimesMono(1.0, (M' - M) as real, u);
    TimesMono(2.0, (M' - M) as real, u);
    assert Times(1.0, u) == u && Times(2.0, u) == 2.0 * u;
  }

  /** The magnitude determines exponent and fraction. */
  lemma MagnitudeInjective(r: u64, r': u64)
    requires Normal(r) && Normal(r') && Magnitude(r) == Magnitude(r') && Sign(r) == Sign(r')
    ensures r == r'
  {
    var E, E' := Expo(r) - 1075, Expo(r') - 1075;
    SelfRounds(Mant(r), P2(E));
    SelfRounds(Mant(r'), P2(E'));
    RoundsToUnique(Magnitude(r), Mant(r), E, Mant(r'), E');
    FromFields(r);
    FromFields(r');
  }

  lemma SelfRounds(M: int, u: real)
    requires TWO52 <= M < TWO53 && u > 0.0
    ensures RoundsTo(Times(M as real, u), M, u)
  {
    TimesMono(TWO52 as real, M as real, u);
    TimesMono(M as real, TWO53 as real, u);
  }

  lemma FromFields(x: u64)
    ensures x == Sign(x) * TWO63 + Expo(x) * TWO52 + Frac(x)
  {
  }

  /** The specification admits one result only. */
  lemma NearestEvenUnique(v: real, r: u64, r': u64)
    requires IsNearestEven(v, r) && IsNearestEven(v, r')
    ensures r == r'
  {
    hide P2, Times, RoundsTo, Magnitude, Expo, Sign;
    var M, E :| RoundsTo(Abs(v), M, P2(E)) && Magnitude(r) == Times(M as real, P2(E));
    var M', E' :| RoundsTo(Abs(v), M', P2(E')) && Magnitude(r') == Times(M' as real, P2(E'));
    RoundsToUnique(Abs(v), M, E, M', E');
    MagnitudeInjective(r, r');
  }
}

/** Mantissas with a sticky lowest bit, and packing with rounding (src/fpr.h). */
module FloatWords {
  import opened Bits
  import opened FloatSpec

  const TWO54: int := 0x40_0000_0000_0000
  const TWO55: int := 0x80_0000_0000_0000

  /** m stands for the real w: equal to it, or odd and less than 1 away. */
  ghost predicate Sticky(m: int, w: real) {
    w == m as real || (m % 2 == 1 && (m - 1) as real < w < (m + 1) as real)
  }

  /** A sticky mantissa compares with every even integer as the real does. */
  lemma StickyCompare(m: int, w: real, k: int)
    requires Sticky(m, w) && k % 2 == 0
    ensures m < k <==> w < k as real
    ensures m == k <==> w == k as real
  {
    if m < k && m % 2 == 1 { assert m + 1 <= k; }
    if m > k && m % 2 == 1 { assert m - 1 >= k; }
  }

  /** The increment of FPR: set for the low bits 011, 110 and 111. */
  function RoundUp(m: int): int {
    var f := m % 8;
    if f == 3 || f == 6 || f == 7 then 1 else 0
  }

  /** The rounding table of FPR is the bit pattern 0xC8. */
  lemma RoundUpIsTable(m: nat)
    ensures RoundUp(m) == (0xC8 / Pow2(m % 8)) % 2
  {
    assert Pow2(3) == 8 && Pow2(5) == 32 && Pow2(7) == 128;
  }

  function Rounded(m: int): int {
    m / 4 + RoundUp(m)
  }

  /** Dropping two bits of a sticky mantissa with that table rounds to nearest, ties to even. */
  lemma RoundSticky(m: int, w: real)
    requires Sticky(m, w)
    ensures -2.0 <= w - 4.0 * (Rounded(m) as real) <= 2.0
    ensures w - 4.0 * (Rounded(m) as real) == 2.0 || w - 4.0 * (Rounded(m) as real) == -2.0 ==> Rounded(m) % 2 == 0
  {
    var q, f := m / 8, m % 8;
    assert m == 8 * q + f;
    assert m / 4 == 2 * q + f / 4;
    RoundCases(q, f, w);
  }

  lemma RoundCases(q: int, f: int, w: real)
    requires 0 <= f < 8 && Sticky(8 * q + f, w)
    ensures var M := 2 * q + f / 4 + (if f == 3 || f == 6 || f == 7 then 1 else 0);
      && -2.0 <= w - 4.0 * (M as real) <= 2.0
      && (w - 4.0 * (M as real) == 2.0 || w - 4.0 * (M as real) == -2.0 ==> M % 2 == 0)
  {
    var Q := q as real;
    StickySplit(q, f, w);
    match f
    case 0 => assert w == 8.0 * Q;
    case 1 => assert 8.0 * Q < w < 8.0 * Q + 2.0;
    case 2 => assert w == 8.0 * Q + 2.0;
    case 3 => assert 8.0 * Q + 2.0 < w < 8.0 * Q + 4.0;
    case 4 => assert w == 8.0 * Q + 4.0;
    case 5 => assert 8.0 * Q + 4.0 < w < 8.0 * Q + 6.0;
    case 6 => assert w == 8.0 * Q + 6.0;
    case _ => assert 8.0 * Q + 6.0 < w < 8.0 * Q + 8.0;
  }

  lemma StickySplit(q: int, f: int, w: real)
    requires 0 <= f < 8 && Sticky(8 * q + f, w)
    ensures f % 2 == 0 ==> w == 8.0 * (q as real) + f as real
    ensures f % 2 == 1 ==> 8.0 * (q as real) + (f - 1) as real < w < 8.0 * (q as real) + (f + 1) as real
  {
    assert (8 * q + f) % 2 == f % 2;
  }

  /** Dropping r low bits, and or-ing into the lowest kept one whether any of them was set. */
  function Drop(m: nat, r: nat): nat {
    var q := m / Pow2(r);
    if m % Pow2(r) == 0 || q % 2 == 1 then q else q + 1
  }

  lemma DropSticky(m: nat, w: real, r: nat)
    requires Sticky(m, w)
    ensures Sticky(Drop(m, r), w / Pow2(r) as real)
  {
    if r == 0 {
      assert Pow2(0) == 1;
    } else {
      assert Pow2(r) % 2 == 0 by { assert Pow2(r) == 2 * Pow2(r - 1); }
      hide Pow2;
      DropStickyBy(m, w, Pow2(r));
    }
  }

  lemma DropStickyBy(m: nat, w: real, p: nat)
    requires Sticky(m, w) && p > 0 && p % 2 == 0
    ensures Sticky(if m % p == 0 || (m / p) % 2 == 1 then m / p else m / p + 1, w / p as real)
  {
    hide Sticky;
    DivModEq(m, p);
    var q, rem := m / p, m % p;
    if rem == 0 {
      DropExact(m, w, p, q);
    } else {
      Between(m, w, p, q);
      StickyOdd(q, w / p as real);
    }
  }

  lemma DropExact(m: nat, w: real, p: nat, q: int)
    requires Sticky(m, w) && p > 0 && p % 2 == 0 && m == q * p
    ensures Sticky(q, w / p as real)
  {
    EvenProduct(q, p);
    assert w == (q * p) as real;
    ScaleEqual(q, p, w);
  }

  lemma StickyOdd(q: int, x: real)
    requires q as real < x < (q + 1) as real
    ensures Sticky(if q % 2 == 1 then q else q + 1, x)
  {
  }

  lemma Between(m: nat, w: real, p: nat, q: int)
    requires Sticky(m, w) && p > 0 && p % 2 == 0 && q * p < m < q * p + p
    ensures q as real < w / p as real < (q + 1) as real
  {
    EvenProduct(q, p);
    EvenProduct(q + 1, p);
    assert (q + 1) * p == q * p + p;
    StickyCompare(m, w, q * p);
    StickyCompare(m, w, (q + 1) * p);
    ScaleBetween(q, p, w);
  }

  lemma EvenProduct(q: int, p: int)
    requires p % 2 == 0
    ensures (q * p) % 2 == 0
  {
    assert q * p == 2 * (q * (p / 2));
  }

  lemma ScaleEqual(q: int, p: nat, w: real)
    requires p > 0 && w == (q * p) as real
    ensures w / p as real == q as real
  {
  }

  lemma ScaleBetween(q: int, p: nat, w: real)
    requires p > 0 && (q * p) as real < w < ((q + 1) * p) as real
    ensures q as real < w / p as real < (q + 1) as real
  {
    var x := w / p as real;
    assert w == x * p as real;
  }

  // ---------- packing ----------

  /** FPR: sign, exponent and a sticky mantissa of 55 bits become a rounded number.  The leading bit
      of the mantissa adds one to the exponent field, and so does the carry of rounding up. */
  function Pack(s: int, e: int, m: int): u64
    requires 0 <= s <= 1 && 0 <= m < TWO55
  {
    var e1 := e + 1076;
    var m1 := if e1 < 0 then 0 else m;
    var e2 := if m1 / TWO54 == 1 then e1 else 0;
    (s * TWO63 + m1 / 4 + e2 * TWO52 + RoundUp(m1)) % 0x1_0000_0000_0000_0000
  }

  lemma RoundedRange(m: int)
    requires TWO54 <= m < TWO55
    ensures TWO52 <= Rounded(m) <= TWO53
  {
  }

  /** The fields of a word put together from them. */
  lemma Fields(s: int, ex: int, f: int)
    requires 0 <= s <= 1 && 0 <= ex < 0x800 && 0 <= f < TWO52
    ensures 0 <= s * TWO63 + ex * TWO52 + f < 0x1_0000_0000_0000_0000
    ensures var x := s * TWO63 + ex * TWO52 + f; Sign(x) == s && Expo(x) == ex && Frac(x) == f
  {
    var x := s * TWO63 + ex * TWO52 + f;
    assert x / TWO52 == s * 0x800 + ex;
  }

  /** The packed number is the rounded mantissa, two places up. */
  lemma PackValue(s: int, e: int, m: int)
    requires 0 <= s <= 1 && TWO54 <= m < TWO55 && -1076 <= e
    requires e + 1077 <= 2045 || (e + 1077 == 2046 && Rounded(m) < TWO53)
    ensures var x := Pack(s, e, m);
      Normal(x) && Sign(x) == s && Magnitude(x) == Times(Rounded(m) as real, P2(e + 2))
  {
    hide Pack, Rounded, Magnitude, P2, Mant, Expo, Sign;
    PackFields(s, e, m);
    RoundedRange(m);
    if Rounded(m) < TWO53 {
      MagnitudeIs(Pack(s, e, m), Rounded(m), e + 2);
    } else {
      MagnitudeIs(Pack(s, e, m), TWO52, e + 3);
      P2Next(e + 2);
      Carry(P2(e + 2), P2(e + 3));
    }
  }

  lemma Carry(p: real, p': real)
    requires p' == 2.0 * p
    ensures Times(TWO53 as real, p) == Times(TWO52 as real, p')
  {
  }

  lemma MagnitudeIs(x: u64, M: int, E: int)
    requires Normal(x) && Mant(x) == M && Expo(x) - 1075 == E
    ensures Magnitude(x) == Times(M as real, P2(E))
  {
    hide P2;
  }

  lemma PackFields(s: int, e: int, m: int)
    requires 0 <= s <= 1 && TWO54 <= m < TWO55 && -1076 <= e
    requires e + 1077 <= 2045 || (e + 1077 == 2046 && Rounded(m) < TWO53)
    ensures var x := Pack(s, e, m);
      && Normal(x) && Sign(x) == s
      && (if Rounded(m) < TWO53 then Expo(x) == e + 1077 && Mant(x) == Rounded(m)
          else Expo(x) == e + 1078 && Mant(x) == TWO52 && Rounded(m) == TWO53)
  {
    var M := Rounded(m);
    RoundedRange(m);
    hide Rounded, Pack, Sign, Expo, Frac;
    if M < TWO53 {
      Fields(s, e + 1077, M - TWO52);
      PackIs(s, e, m, s * TWO63 + (e + 1077) * TWO52 + (M - TWO52));
    } else {
      Fields(s, e + 1078, 0);
      PackIs(s, e, m, s * TWO63 + (e + 1078) * TWO52);
    }
  }

  lemma PackIs(s: int, e: int, m: int, x: int)
    requires 0 <= s <= 1 && TWO54 <= m < TWO55 && -1076 <= e
    requires x == s * TWO63 + (e + 1076) * TWO52 + Rounded(m) && 0 <= x < 0x1_0000_0000_0000_0000
    ensures Pack(s, e, m) == x
  {
    hide RoundUp;
    assert m / TWO54 == 1;
  }

  /** The exponents that a result in range can have. */
  lemma RangeOfExponent(w: real, e: int, v: real)
    requires TWO54 as real <= w < TWO55 as real && v == Times(w, P2(e)) && InRange(v)
    ensures -1076 <= e <= 969
    ensures e == 969 ==> w < (TWO55 - 2) as real
  {
    hide Times, InRange;
    ExponentLow(w, e, v);
    ExponentHigh(w, e, v);
    if e == 969 { ExponentTop(w, v); }
  }

  lemma ExponentLow(w: real, e: int, v: real)
    requires TWO54 as real <= w < TWO55 as real && v == Times(w, P2(e)) && InRange(v)
    ensures -1076 <= e
  {
    hide Times, P2;
    if e < -1076 {
      TimesMono(0.0, w, P2(e));
      TimesMono(w, TWO55 as real, P2(e));
      P2Add(55, e);
      TwoTo55();
      P2Mono(55 + e, -1022);
      TooSmall(v, P2(e), P2(55 + e), P2(-1022));
      assert false;
    }
  }

  lemma ExponentHigh(w: real, e: int, v: real)
    requires TWO54 as real <= w < TWO55 as real && v == Times(w, P2(e)) && InRange(v)
    ensures e <= 969
  {
    hide Times, P2;
    if e >= 970 {
      TimesMono(TWO54 as real, w, P2(e));
      P2Mono(970, e);
      P2Next(970);
      TopBinade(v, P2(e), P2(970), P2(971));
      assert false;
    }
  }

  lemma ExponentTop(w: real, v: real)
    requires TWO54 as real <= w < TWO55 as real && v == Times(w, P2(969)) && InRange(v)
    ensures w < (TWO55 - 2) as real
  {
    hide Times, P2;
    TimesMono(0.0, w, P2(969));
    P2Next(969);
    P2Next(970);
    BelowTop(w, P2(969), P2(971), v);
  }

  lemma TwoTo55()
    ensures P2(55) == TWO55 as real && P2(54) == TWO54 as real
  {
    P2Nat(55);
    P2Nat(54);
    Pow2Values();
    Pow2Add(31, 24);
    Pow2Add(16, 8);
    Pow2Add(31, 23);
    assert Pow2(24) == 0x100_0000 && Pow2(24) == 2 * Pow2(23);
  }

  lemma TooSmall(v: real, p: real, p55: real, least: real)
    requires p > 0.0 && Times(0.0, p) < v < Times(TWO55 as real, p) && p55 == Times(TWO55 as real, p) && p55 <= least
    ensures Abs(v) < least
  {
  }

  lemma TopBinade(v: real, p: real, p970: real, p971: real)
    requires Times(TWO54 as real, p) <= v && p970 <= p && p971 == 2.0 * p970 && p970 > 0.0
    ensures 2.0 * Abs(v) >= (2 * TWO53 - 1) as real * p971
  {
  }

  lemma BelowTop(w: real, p: real, p4: real, v: real)
    requires p > 0.0 && p4 == 4.0 * p && v == Times(w, p) && Times(0.0, p) < v
    requires 2.0 * Abs(v) < (2 * TWO53 - 1) as real * p4
    ensures w < (TWO55 - 2) as real
  {
    TimesMono((TWO55 - 2) as real, w, p);
  }

  /** Rounding commutes with scaling by a power of two. */
  lemma ScaleRounds(w: real, M: int, p: real, p4: real)
    requires p > 0.0 && p4 == 4.0 * p && TWO54 as real <= w < TWO55 as real && TWO52 <= M <= TWO53
    requires -2.0 <= w - 4.0 * (M as real) <= 2.0
    requires w - 4.0 * (M as real) == 2.0 || w - 4.0 * (M as real) == -2.0 ==> M % 2 == 0
    ensures Times(w, p) > 0.0 && RoundsTo(Times(w, p), M, p4)
  {
    var k := w - 4.0 * (M as real);
    TimesMono(TWO54 as real, w, p);
    TimesMono(w, TWO55 as real, p);
    assert Times(w, p) - Times(M as real, p4) == Times(k, p);
    TimesMono(-2.0, k, p);
    TimesMono(k, 2.0, p);
  }

  /** Below the exponents of normal numbers a zero is packed. */
  lemma PackLow(s: int, e: int, m: int)
    requires 0 <= s <= 1 && 0 <= m < TWO55 && e < -1076
    ensures Zero(Pack(s, e, m)) && Sign(Pack(s, e, m)) == s
  {
  }

  lemma LowExponent(w: real, e: int, v: real)
    requires TWO54 as real <= w && v == Times(w, P2(e)) && v < P2(-1022)
    ensures e < -1076
  {
    hide Times, P2;
    if e >= -1076 {
      TimesMono(TWO54 as real, w, P2(e));
      P2Add(54, e);
      TwoTo55();
      P2Mono(-1022, 54 + e);
      assert false;
    }
  }

  /** Packing a sticky mantissa delivers its exact value. */
  lemma PackDelivers(s: int, e: int, m: int, w: real, v: real)
    requires 0 <= s <= 1 && TWO54 <= m < TWO55 && Sticky(m, w) && v == Times(w, P2(e))
    ensures v > 0.0 && Delivers(if s == 1 then -v else v, Pack(s, e, m))
  {
    hide Sticky, Pack, Sign, InRange, IsNearestEven, Zero, Times, P2;
    StickyCompare(m, w, TWO54);
    PositiveTimes(w, P2(e));
    var x := if s == 1 then -v else v;
    if InRange(x) {
      InRangeAbs(x, v);
      PackRounds(s, e, m, w, v);
    }
    if v < P2(-1022) {
      LowExponent(w, e, v);
      PackLow(s, e, m);
    }
  }

  lemma PositiveTimes(Z: real, p: real)
    requires Z > 0.0 && p > 0.0
    ensures Times(Z, p) > 0.0
  {
  }

  lemma InRangeAbs(a: real, v: real)
    requires InRange(a) && (a == v || a == -v)
    ensures InRange(v)
  {
  }

  /** Packing a sticky mantissa gives the correctly rounded result. */
  lemma PackRounds(s: int, e: int, m: int, w: real, v: real)
    requires 0 <= s <= 1 && TWO54 <= m < TWO55 && Sticky(m, w)
    requires v == Times(w, P2(e)) && InRange(v)
    ensures v > 0.0 && IsNearestEven(if s == 1 then -v else v, Pack(s, e, m))
  {
    hide Rounded, Sticky, RoundsTo, Pack, Magnitude, Sign, InRange, IsNearestEven, Normal, Times;
    StickyCompare(m, w, TWO54);
    StickyCompare(m, w, TWO55);
    StickyCompare(m, w, TWO55 - 2);
    RangeOfExponent(w, e, v);
    RoundedRange(m);
    if m < TWO55 - 2 { TopRounded(m); }
    PackValue(s, e, m);
    RoundsScaled(m, w, e);
    Conclude(s, v, Rounded(m), e + 2, Pack(s, e, m));
  }

  lemma RoundsScaled(m: int, w: real, e: int)
    requires TWO54 <= m < TWO55 && Sticky(m, w)
    ensures Times(w, P2(e)) > 0.0 && RoundsTo(Times(w, P2(e)), Rounded(m), P2(e + 2))
  {
    hide Rounded, Times, RoundsTo;
    StickyCompare(m, w, TWO54);
    StickyCompare(m, w, TWO55);
    RoundSticky(m, w);
    RoundedRange(m);
    P2Next(e);
    P2Next(e + 1);
    ScaleRounds(w, Rounded(m), P2(e), P2(e + 2));
  }

  lemma TopRounded(m: int)
    requires TWO54 <= m < TWO55 - 2
    ensures Rounded(m) < TWO53
  {
  }

  lemma Conclude(s: int, v: real, M: int, E: int, r: u64)
    requires v > 0.0 && 0 <= s <= 1 && RoundsTo(v, M, P2(E))
    requires Normal(r) && Sign(r) == s && Magnitude(r) == Times(M as real, P2(E))
    ensures IsNearestEven(if s == 1 then -v else v, r)
  {
    hide RoundsTo, Magnitude, Normal, Sign, Times;
    assert Abs(if s == 1 then -v else v) == v;
  }
}

/** The emulated operations of src/fpr.cpp.  Word operations of the source appear by their meaning:
    masking with -(uint64_t)c keeps or clears, or-ing a bit into a word sets its lowest bit. */
module SoftFloat {
  import opened Bits
  import opened FloatSpec
  import opened FloatWords

  const TWO25: int := 0x200_0000
  const TWO50: int := 0x4_0000_0000_0000
  const TWO56: int := 0x100_0000_0000_0000

  /** x | b for a single bit b. */
  function OrBit(x: int, b: int): int {
    if b == 1 && x % 2 == 0 then x + 1 else x
  }

  lemma OrBitIsOr(x: nat, b: nat)
    requires b <= 1
    ensures Or(x, b) == OrBit(x, b)
  {
    if x > 0 && b > 0 { assert Or(x / 2, 0) == x / 2; }
  }

  /** x & -(uint64_t)b for a single bit b. */
  function Keep(x: int, b: int): int {
    if b == 1 then x else 0
  }

  predicate Operand(x: u64) { Normal(x) || Zero(x) }

  /** The halving at the end of fpr_mul and fpr_div: a mantissa of 55 or 56 bits comes down to 55. */
  function Settle(z: int): int {
    if z / TWO55 == 1 then OrBit(z / 2, z % 2) else z
  }

  lemma SettleSticky(z: int, w: real)
    requires TWO54 <= z < TWO56 && Sticky(z, w)
    ensures TWO54 <= Settle(z) < TWO55
    ensures Sticky(Settle(z), if z / TWO55 == 1 then w / 2.0 else w)
  {
    if z / TWO55 == 1 {
      DropSticky(z, w, 1);
      assert Pow2(1) == 2;
    }
  }

  /** A result built from a sticky 55- or 56-bit mantissa is delivered. */
  lemma SettleDelivers(s: int, e: int, z: int, w: real, v: real)
    requires 0 <= s <= 1 && TWO54 <= z < TWO56 && Sticky(z, w) && v == Times(w, P2(e))
    ensures TWO54 <= Settle(z) < TWO55
    ensures v > 0.0 && Delivers(if s == 1 then -v else v, Pack(s, e + z / TWO55, Settle(z)))
  {
    hide Sticky, Delivers, Pack, Settle, Times;
    SettleSticky(z, w);
    if z / TWO55 == 1 {
      P2Next(e);
      HalfTwice(w, P2(e), P2(e + 1));
      PackDelivers(s, e + 1, Settle(z), w / 2.0, v);
    } else {
      assert z / TWO55 == 0;
      PackDelivers(s, e, Settle(z), w, v);
    }
  }

  lemma HalfTwice(w: real, p: real, p': real)
    requires p' == 2.0 * p
    ensures Times(w / 2.0, p') == Times(w, p)
  {
  }

  // ---------- multiplication ----------

  /** The 106-bit product in 25-bit limbs: the high part zu and the two low limbs. */
  method MulLimbs(xu: int, yu: int) returns (zu: int, z1: int, z0: int)
    requires TWO52 <= xu < TWO53 && TWO52 <= yu < TWO53
    ensures xu * yu == zu * TWO50 + z1 * TWO25 + z0 && 0 <= z1 < TWO25 && 0 <= z0 < TWO25
  {
    var x0, x1 := xu % TWO25, xu / TWO25;
    var y0, y1 := yu % TWO25, yu / TWO25;
    var a, b, c, d := x0 * y0, x0 * y1, x1 * y0, x1 * y1;
    LimbProduct(xu, x0, x1, yu, y0, y1);
    zu, z1, z0 := AddLimbs(a, b, c, d);
  }

  /** The additions of the four partial products, with their carries. */
  method AddLimbs(a: int, b: int, c: int, d: int) returns (zu: int, z1: int, z0: int)
    ensures zu * TWO50 + z1 * TWO25 + z0 == d * TWO50 + (b + c) * TWO25 + a && 0 <= z1 < TWO25 && 0 <= z0 < TWO25
  {
    z0 := a % TWO25;
    z1 := a / TWO25;
    z1 := z1 + b % TWO25;
    var z2 := b / TWO25;
    z1 := z1 + c % TWO25;
    z2 := z2 + c / TWO25;
    zu := d;
    z2 := z2 + z1 / TWO25;
    z1 := z1 % TWO25;
    zu := zu + z2;
  }

  lemma LimbProduct(xu: int, x0: int, x1: int, yu: int, y0: int, y1: int)
    requires xu == x1 * TWO25 + x0 && yu == y1 * TWO25 + y0
    ensures xu * yu == (x1 * y1) * TWO50 + (x0 * y1 + x1 * y0) * TWO25 + x0 * y0
  {
    assert xu * yu == x1 * TWO25 * yu + x0 * yu;
    assert x1 * TWO25 * yu == (x1 * y1) * TWO50 + (x1 * y0) * TWO25;
    assert x0 * yu == (x0 * y1) * TWO25 + x0 * y0;
  }

  lemma ProductRange(a: int, b: int)
    requires TWO52 <= a < TWO53 && TWO52 <= b < TWO53
    ensures TWO52 * TWO52 <= a * b < TWO53 * TWO53
  {
    MulMono(TWO52, a, b);
    MulMono(TWO52, b, TWO52);
    MulMono(a, TWO53, b);
  }

  /** zu with the low limbs folded into its lowest bit is the product without its 50 low bits. */
  lemma FoldLimbs(p: nat, zu: int, z1: int, z0: int)
    requires p == zu * TWO50 + z1 * TWO25 + z0 && 0 <= z1 < TWO25 && 0 <= z0 < TWO25
    requires TWO52 * TWO52 <= p < TWO53 * TWO53
    ensures OrBit(zu, if z0 == 0 && z1 == 0 then 0 else 1) == Drop(p, 50)
    ensures TWO54 <= Drop(p, 50) < TWO56
  {
    PowFifty();
    DivUnique(p, TWO50, zu, z1 * TWO25 + z0);
  }

  lemma PowFifty()
    ensures Pow2(50) == TWO50 && P2(50) == TWO50 as real
  {
    P2Nat(50);
    Pow2Values();
    Pow2Add(32, 18);
    assert Pow2(18) == 4 * Pow2(16);
  }

  /** (z0 | z1) + 0x01FFFFFF carries out of 25 bits exactly when a limb is not zero. */
  lemma StickyLimbs(z0: nat, z1: nat)
    requires z0 < TWO25 && z1 < TWO25
    ensures (Or(z0, z1) + 0x1FF_FFFF) / TWO25 == if z0 == 0 && z1 == 0 then 0 else 1
  {
    assert Pow2(24) == 0x100_0000 by { Pow2Values(); Pow2Add(16, 8); }
    OrTop(z0, z1, 24);
    OrPositive(z0, z1);
  }

  lemma OrPositive(a: nat, b: nat)
    ensures Or(a, b) == 0 <==> a == 0 && b == 0
  {
    if a > 0 && b > 0 { OrPositive(a / 2, b / 2); }
  }

  /** fpr_mul: the correctly rounded product, or zero if it is too small. */
  method Mul(x: u64, y: u64) returns (r: u64)
    requires Operand(x) && Operand(y)
    ensures Normal(x) && Normal(y) ==> Delivers(Times(Value(x), Value(y)), r)
    ensures Zero(x) || Zero(y) ==> Zero(r) && Sign(r) == (Sign(x) + Sign(y)) % 2
  {
    hide Delivers, Pack, Settle, Drop, Times;
    var xu, yu := Frac(x) + TWO52, Frac(y) + TWO52;
    ghost var p := xu * yu;
    ProductRange(xu, yu);
    var zu, z1, z0 := MulLimbs(xu, yu);
    FoldLimbs(p, zu, z1, z0);
    StickyLimbs(z0, z1);
    var z := OrBit(zu, (Or(z0, z1) + 0x1FF_FFFF) / TWO25);
    var ex, ey := Expo(x), Expo(y);
    var e := ex + ey - 2100 + z / TWO55;
    var s := (Sign(x) + Sign(y)) % 2;
    SettleRange(z);
    var d := if ex == 0 || ey == 0 then 0 else 1;
    r := Pack(s, e, Keep(Settle(z), d));
    if d == 1 {
      MulDelivers(x, y, p, s);
    } else {
      PackZero(s, e);
    }
  }

  lemma SettleRange(z: int)
    requires TWO54 <= z < TWO56
    ensures TWO54 <= Settle(z) < TWO55
  {
  }

  lemma PackZero(s: int, e: int)
    requires 0 <= s <= 1
    ensures Zero(Pack(s, e, 0)) && Sign(Pack(s, e, 0)) == s
  {
  }

  lemma MulDelivers(x: u64, y: u64, p: nat, s: int)
    requires Normal(x) && Normal(y)
    requires p == Mant(x) * Mant(y) && TWO54 <= Drop(p, 50) < TWO56 && s == (Sign(x) + Sign(y)) % 2
    ensures var z := Drop(p, 50);
      TWO54 <= Settle(z) < TWO55
      && Delivers(Times(Value(x), Value(y)), Pack(s, Expo(x) + Expo(y) - 2100 + z / TWO55, Settle(z)))
  {
    hide Delivers, Pack, Settle, Drop, Times, Sticky, Value, Magnitude, Sign, Expo, Mant, P2, Pow2;
    Meaning(x);
    Meaning(y);
    var v := Times(Magnitude(x), Magnitude(y));
    SignedProduct(Magnitude(x), Magnitude(y), Sign(x), Sign(y), s);
    var w := p as real / Pow2(50) as real;
    assert Sticky(p, p as real) by { StickyExact(p); }
    DropSticky(p, p as real, 50);
    ProductValue(Mant(x), Mant(y), p, Expo(x) - 1075, Expo(y) - 1075, w);
    SettleDelivers(s, Expo(x) + Expo(y) - 2100, Drop(p, 50), w, v);
  }

  lemma Meaning(x: u64)
    requires Normal(x)
    ensures Value(x) == if Sign(x) == 1 then -Magnitude(x) else Magnitude(x)
    ensures Magnitude(x) == Times(Mant(x) as real, P2(Expo(x) - 1075))
    ensures 0 <= Sign(x) <= 1 && TWO52 <= Mant(x) < TWO53
  {
    hide Times;
  }

  lemma StickyExact(m: int)
    ensures Sticky(m, m as real)
  {
  }

  /** The sign of a product, and its magnitude. */
  lemma SignedProduct(a: real, b: real, sa: int, sb: int, s: int)
    requires 0 <= sa <= 1 && 0 <= sb <= 1 && s == (sa + sb) % 2
    ensures Times(if sa == 1 then -a else a, if sb == 1 then -b else b) == if s == 1 then -Times(a, b) else Times(a, b)
  {
  }

  lemma ProductValue(a: int, b: int, p: int, ea: int, eb: int, w: real)
    requires p == a * b && w == p as real / Pow2(50) as real
    ensures Times(Times(a as real, P2(ea)), Times(b as real, P2(eb))) == Times(w, P2(ea + eb + 50))
  {
    hide Times;
    PowFifty();
    P2Add(ea, eb);
    P2Add(ea + eb, 50);
    RealProduct(a, b);
    Regroup(a as real, b as real, P2(ea), P2(eb), P2(ea + eb), P2(50), P2(ea + eb + 50), w, p as real);
  }

  lemma RealProduct(a: int, b: int)
    ensures (a * b) as real == Times(a as real, b as real)
  {
  }

  lemma Regroup(a: real, b: real, pa: real, pb: real, pab: real, p50: real, pab50: real, w: real, p: real)
    requires pab == Times(pa, pb) && p50 == TWO50 as real && pab50 == Times(pab, p50)
    requires p == Times(a, b) && w == p / TWO50 as real
    ensures Times(Times(a, pa), Times(b, pb)) == Times(w, pab50)
  {
    assert w * TWO50 as real == p;
    assert (a * pa) * (b * pb) == (a * b) * (pa * pb);
    assert w * (pab * TWO50 as real) == (w * TWO50 as real) * pab;
  }

  // ---------- division ----------

  /** The bit-by-bit division: 55 quotient bits, a zero, and the remainder. */
  method DivideBits(xm: int, ym: int) returns (q: int, rem: int)
    requires TWO52 <= xm < TWO53 && TWO52 <= ym < TWO53
    ensures xm * Pow2(55) == q * ym + rem && 0 <= rem < 2 * ym && q % 2 == 0 && q >= 0
  {
    q, rem := 0, xm;
    for i := 0 to 55
      invariant xm * Pow2(i) == q * ym + rem && 0 <= rem < 2 * ym && q % 2 == 0 && q >= 0
    {
      DivideStep(xm, ym, q, rem, i);
      var b := if rem >= ym then 1 else 0;
      rem := rem - Keep(ym, b);
      q := OrBit(q, b);
      rem := 2 * rem;
      q := 2 * q;
    }
  }

  lemma DivideStep(xm: int, ym: int, q: int, rem: int, i: nat)
    requires xm * Pow2(i) == q * ym + rem
    ensures xm * Pow2(i + 1) == (2 * q) * ym + 2 * rem == (2 * (q + 1)) * ym + 2 * (rem - ym)
  {
    assert xm * Pow2(i + 1) == 2 * (xm * Pow2(i));
    assert (2 * q) * ym == 2 * (q * ym) && (2 * (q + 1)) * ym == 2 * (q * ym) + 2 * ym;
  }

  /** The quotient with its sticky bit stands for the exact quotient, scaled by 2^55. */
  lemma QuotientSticky(xm: int, ym: int, q: int, rem: int, w: real)
    requires TWO52 <= xm < TWO53 && TWO52 <= ym < TWO53
    requires xm * TWO55 == q * ym + rem && 0 <= rem < 2 * ym && q % 2 == 0
    requires w == xm as real * TWO55 as real / ym as real
    ensures var z := OrBit(q, if rem == 0 then 0 else 1); Sticky(z, w) && TWO54 <= z < TWO56
  {
    var z := OrBit(q, if rem == 0 then 0 else 1);
    assert Sticky(z, w) by { QuotientBetween(xm, ym, q, rem, w); }
    QuotientRange(xm, ym, w);
    StickyCompare(z, w, TWO54);
    StickyCompare(z, w, TWO56);
  }

  lemma QuotientBetween(xm: int, ym: int, q: int, rem: int, w: real)
    requires ym > 0 && xm * TWO55 == q * ym + rem && 0 <= rem < 2 * ym
    requires w == xm as real * TWO55 as real / ym as real
    ensures rem == 0 ==> w == q as real
    ensures rem > 0 ==> q as real < w < (q + 2) as real
  {
    var y := ym as real;
    RealProduct(q, ym);
    assert w * y == (q * ym + rem) as real;
    assert w * y == q as real * y + rem as real;
    var t := w - q as real;
    assert t * y == rem as real;
    if rem == 0 { assert t == 0.0; }
  }

  lemma QuotientRange(xm: int, ym: int, w: real)
    requires TWO52 <= xm < TWO53 && TWO52 <= ym < TWO53
    requires w == xm as real * TWO55 as real / ym as real
    ensures TWO54 as real <= w < TWO56 as real
  {
    var y := ym as real;
    assert Times(w, y) == (xm * TWO55) as real;
    assert Times(TWO54 as real, y) == (TWO54 * ym) as real;
    assert Times(TWO56 as real, y) == (TWO56 * ym) as real;
    TimesMono(w, TWO54 as real, y);
    TimesMono(TWO56 as real, w, y);
  }

  /** fpr_div: the correctly rounded quotient, or zero if it is too small; the divisor is not zero. */
  method Div(x: u64, y: u64) returns (r: u64)
    requires Operand(x) && Normal(y)
    ensures Value(y) != 0.0
    ensures Normal(x) ==> Delivers(Value(x) / Value(y), r)
    ensures Zero(x) ==> Zero(r) && Sign(r) == 0
  {
    hide Delivers, Pack, Settle, Times, Sticky, P2;
    var xu, yu := Frac(x) + TWO52, Frac(y) + TWO52;
    var q, rem := DivideBits(xu, yu);
    TwoTo55();
    P2Nat(55);
    QuotientSticky(xu, yu, q, rem, xu as real * TWO55 as real / yu as real);
    q := OrBit(q, if rem == 0 then 0 else 1);
    var ex, ey := Expo(x), Expo(y);
    var d := if ex == 0 then 0 else 1;
    var e := ex - ey - 55 + q / TWO55;
    var s := (Sign(x) + Sign(y)) % 2;
    SettleRange(q);
    NonZero(y);
    r := Pack(Keep(s, d), Keep(e, d), Keep(Settle(q), d));
    if d == 1 {
      DivDelivers(x, y, q, s, xu as real * TWO55 as real / yu as real);
    } else {
      PackZero(0, 0);
    }
  }

  lemma NonZero(y: u64)
    requires Normal(y)
    ensures Magnitude(y) > 0.0 && Value(y) != 0.0
  {
    TimesMono(0.0, Mant(y) as real, P2(Expo(y) - 1075));
  }

  lemma DivDelivers(x: u64, y: u64, q: int, s: int, w: real)
    requires Normal(x) && Normal(y) && Value(y) != 0.0
    requires w == Mant(x) as real * TWO55 as real / Mant(y) as real
    requires Sticky(q, w) && TWO54 <= q < TWO56 && s == (Sign(x) + Sign(y)) % 2
    ensures TWO54 <= Settle(q) < TWO55
      && Delivers(Value(x) / Value(y), Pack(s, Expo(x) - Expo(y) - 55 + q / TWO55, Settle(q)))
  {
    hide Delivers, Pack, Settle, Times, Sticky, Value, Magnitude, Sign, Expo, Mant, P2;
    Meaning(x);
    Meaning(y);
    NonZero(y);
    var v := Magnitude(x) / Magnitude(y);
    SignedQuotient(Magnitude(x), Magnitude(y), Sign(x), Sign(y), s);
    QuotientValue(Mant(x), Mant(y), Expo(x) - 1075, Expo(y) - 1075, w, Magnitude(x), Magnitude(y));
    SettleDelivers(s, Expo(x) - Expo(y) - 55, q, w, v);
  }

  lemma SignedQuotient(a: real, b: real, sa: int, sb: int, s: int)
    requires 0 <= sa <= 1 && 0 <= sb <= 1 && s == (sa + sb) % 2 && b > 0.0
    ensures (if sa == 1 then -a else a) / (if sb == 1 then -b else b) == if s == 1 then -(a / b) else a / b
  {
    var q := a / b;
    assert q * b == a;
  }

  lemma QuotientValue(a: int, b: int, ea: int, eb: int, w: real, va: real, vb: real)
    requires a >= TWO52 && b >= TWO52 && w == a as real * TWO55 as real / b as real
    requires va == Times(a as real, P2(ea)) && vb == Times(b as real, P2(eb)) && vb > 0.0
    ensures va / vb == Times(w, P2(ea - eb - 55))
  {
    hide Times;
    TwoTo55();
    P2Add(ea - eb - 55, eb);
    P2Add(ea - 55, 55);
    var u := P2(ea - eb - 55);
    QuotientRegroup(a as real, b as real, P2(ea), P2(eb), P2(ea - 55), u, w, va, vb);
  }

  lemma QuotientRegroup(a: real, b: real, pa: real, pb: real, pc: real, u: real, w: real, va: real, vb: real)
    requires b > 0.0 && vb > 0.0 && w == a * TWO55 as real / b && va == Times(a, pa) && vb == Times(b, pb)
    requires pc == Times(u, pb) && pa == Times(pc, TWO55 as real)
    ensures va / vb == Times(w, u)
  {
    assert w * b == a * TWO55 as real;
    assert (w * u) * (b * pb) == (w * b) * (u * pb);
    assert (w * b) * (u * pb) == a * (pc * TWO55 as real);
    assert Times(w, u) * vb == va;
    Divide(Times(w, u), vb, va);
  }

  lemma Divide(q: real, b: real, a: real)
    requires b > 0.0 && q * b == a
    ensures a / b == q
  {
  }

  // ---------- square root ----------

  /** The bit-by-bit square root of X * 2^53: its integer part, and twice what is left over.  The
      words stay far below 64 bits. */
  method RootBits(X: int) returns (q: int, rem: int)
    requires TWO53 <= X < TWO55
    ensures IsRoot(X, q, rem)
  {
    hide IsRoot, RootState, Pow2;
    q, rem := 0, X;
    var s, r := 0, TWO53;
    ghost var h := TWO54;
    RootStart(X);
    PowFiftyFour();
    for i := 0 to 54
      invariant RootState(X, q, rem, s, r, h) && h == Pow2(54 - i)
    {
      PowDown(54 - i);
      q, rem, s, r := RootBit(X, q, rem, s, r, h);
      h := h / 2;
    }
    PowDown(1);
    RootEnd(X, q, rem, s, r);
  }

  /** One step of the loop. */
  method RootBit(X: int, q: int, rem: int, s: int, r: int, ghost h: int) returns (q': int, rem': int, s': int, r': int)
    requires RootState(X, q, rem, s, r, h) && h % 2 == 0
    ensures RootState(X, q', rem', s', r', h / 2)
  {
    hide RootState;
    RootStep(X, q, rem, s, r, h);
    var t := s + r;
    var b := if rem >= t then 1 else 0;
    s' := s + Keep(2 * r, b);
    rem' := rem - Keep(t, b);
    q' := q + Keep(r, b);
    rem' := 2 * rem';
    r' := r / 2;
  }

  lemma PowDown(n: nat)
    requires n > 0
    ensures Pow2(n) == 2 * Pow2(n - 1) && Pow2(0) == 1
  {
  }

  lemma RootStart(X: int)
    requires TWO53 <= X < TWO55
    ensures RootState(X, 0, X, 0, TWO53, TWO54)
  {
  }

  lemma RootEnd(X: int, q: int, rem: int, s: int, r: int)
    requires RootState(X, q, rem, s, r, 1)
    ensures IsRoot(X, q, rem)
  {
  }

  /** q is the integer part of the root of X * 2^53, and rem twice the rest. */
  ghost predicate IsRoot(X: int, q: int, rem: int) {
    q >= 0 && q * q <= X * TWO53 < (q + 1) * (q + 1) && rem == 2 * (X * TWO53 - q * q)
  }

  /** h is twice the bit under test; what is left over, scaled, and the next candidate are known. */
  ghost predicate RootState(X: int, q: int, rem: int, s: int, r: int, h: int) {
    && q >= 0 && h >= 1 && r == h / 2 && s == 2 * q && rem >= 0 && rem < 4 * q + 2 * h
    && rem * h == 2 * (X * TWO53 - q * q)
    && X * TWO53 < (q + h) * (q + h)
  }

  lemma PowFiftyFour()
    ensures Pow2(54) == TWO54
  {
    TwoTo55();
    P2Nat(54);
  }

  lemma RootStep(X: int, q: int, rem: int, s: int, r: int, h: int)
    requires RootState(X, q, rem, s, r, h) && h % 2 == 0
    ensures rem >= s + r ==> RootState(X, q + r, 2 * (rem - (s + r)), s + 2 * r, r / 2, h / 2)
    ensures rem < s + r ==> RootState(X, q, 2 * rem, s, r / 2, h / 2)
  {
    hide RootState;
    if rem >= s + r { RootTake(X, q, rem, s, r, h); } else { RootSkip(X, q, rem, s, r, h); }
  }

  lemma Expand(q: int, r: int)
    ensures (q + r) * (q + r) == q * q + (2 * q + r) * r
  {
    assert (q + r) * (q + r) == q * q + q * r + r * q + r * r;
    assert (2 * q + r) * r == 2 * (q * r) + r * r;
  }

  lemma HalfProduct(rem: int, r: int, R2: int)
    requires rem * (2 * r) == 2 * R2
    ensures rem * r == R2 && (2 * rem) * r == 2 * R2
  {
  }

  lemma RootTake(X: int, q: int, rem: int, s: int, r: int, h: int)
    requires RootState(X, q, rem, s, r, h) && h % 2 == 0 && rem >= s + r
    ensures RootState(X, q + r, 2 * (rem - (s + r)), s + 2 * r, r / 2, h / 2)
  {
    var d := rem - (2 * q + r);
    assert h == 2 * r;
    HalfProduct(rem, r, X * TWO53 - q * q);
    Expand(q, r);
    Distribute(d, 2 * q + r, r);
    assert (q + r) + r == q + h;
  }

  lemma Distribute(d: int, t: int, r: int)
    ensures (d + t) * r == d * r + t * r && (2 * d) * r == 2 * (d * r)
  {
  }

  lemma RootSkip(X: int, q: int, rem: int, s: int, r: int, h: int)
    requires RootState(X, q, rem, s, r, h) && h % 2 == 0 && rem < s + r
    ensures RootState(X, q, 2 * rem, s, r / 2, h / 2)
  {
    assert h == 2 * r;
    HalfProduct(rem, r, X * TWO53 - q * q);
    Expand(q, r);
    MulMono(rem + 1, 2 * q + r, r);
    Distribute(rem, 1, r);
  }

  /** The root with its sticky bit stands for the exact root, doubled. */
  lemma RootSticky(X: int, q: int, rem: int, w: real)
    requires TWO53 <= X < TWO55 && q >= 0
    requires q * q <= X * TWO53 < (q + 1) * (q + 1) && rem == 2 * (X * TWO53 - q * q)
    requires w >= 0.0 && Times(w, w) == (X * TWO55) as real
    ensures var z := OrBit(2 * q, if rem == 0 then 0 else 1); Sticky(z, w) && TWO54 <= z < TWO55
    ensures TWO54 as real <= w < TWO55 as real
  {
    var z := OrBit(2 * q, if rem == 0 then 0 else 1);
    RootBetween(X, q, w);
    assert Sticky(z, w);
    SquareOrder(w, TWO54 as real);
    SquareOrder(TWO55 as real, w);
    StickyCompare(z, w, TWO54);
    StickyCompare(z, w, TWO55);
  }

  lemma SquareOrder(a: real, b: real)
    requires a >= 0.0 && b >= 0.0
    ensures a < b ==> Times(a, a) < Times(b, b)
    ensures a <= b ==> Times(a, a) <= Times(b, b)
  {
    assert b * b - a * a == (b - a) * (b + a);
    if a < b {
      TimesMono(0.0, b - a, b + a);
    }
  }

  lemma RootBetween(X: int, q: int, w: real)
    requires q >= 0 && q * q <= X * TWO53 < (q + 1) * (q + 1) && w >= 0.0 && Times(w, w) == (X * TWO55) as real
    ensures (2 * q) as real <= w < (2 * q + 2) as real
    ensures q * q == X * TWO53 <==> w == (2 * q) as real
  {
    SquareOfTwice(q);
    SquareOfTwice(q + 1);
    hide Times;
    OrderFromSquares((2 * q) as real, (2 * q + 2) as real, w, q * q, (q + 1) * (q + 1), X * TWO53);
  }

  lemma SquareOfTwice(q: int)
    ensures Times((2 * q) as real, (2 * q) as real) == (4 * (q * q)) as real
  {
    RealProduct(2 * q, 2 * q);
    assert (2 * q) * (2 * q) == 4 * (q * q);
  }

  lemma OrderFromSquares(a: real, b: real, w: real, A: int, B: int, W: int)
    requires 0.0 <= a <= b && w >= 0.0 && A <= W < B
    requires Times(a, a) == (4 * A) as real && Times(b, b) == (4 * B) as real && Times(w, w) == (4 * W) as real
    ensures a <= w < b
    ensures A == W <==> w == a
  {
    hide Times;
    SquareOrder(w, a);
    SquareOrder(a, w);
    SquareOrder(b, w);
  }

  /** fpr_sqrt: the correctly rounded square root of a number that is not negative. */
  method Sqrt(x: u64) returns (r: u64)
    requires Operand(x) && (Normal(x) ==> Sign(x) == 0)
    ensures Normal(x) ==> forall v: real :: v >= 0.0 && Times(v, v) == Value(x) ==> IsNearestEven(v, r)
    ensures Zero(x) ==> r == 0
  {
    hide IsNearestEven, InRange, Pack, Settle, Times, Sticky, P2, Value, Magnitude;
    var xu := Frac(x) + TWO52;
    var ex := Expo(x);
    var e := ex - 1023;
    xu := xu + Keep(xu, e % 2);
    e := e / 2;
    xu := 2 * xu;
    var q, rem := RootBits(xu);
    var z := OrBit(2 * q, if rem == 0 then 0 else 1);
    RootRange(xu, q);
    var d := if ex == 0 then 0 else 1;
    r := Pack(0, e - 54, Keep(z, d));
    if d == 1 {
      forall v: real | v >= 0.0 && Times(v, v) == Value(x) ensures IsNearestEven(v, r) {
        SqrtRounds(x, xu, e, q, rem, v);
      }
    } else {
      assert Zero(x);
      assert r == 0 by { PackZeroPlus(e - 54); }
    }
  }

  lemma PackZeroPlus(e: int)
    ensures Pack(0, e, 0) == 0
  {
  }

  lemma RootRange(X: int, q: int)
    requires TWO53 <= X < TWO55 && q >= 0 && q * q <= X * TWO53 < (q + 1) * (q + 1)
    ensures TWO53 <= q < TWO54
  {
    if q < TWO53 {
      MulMono(q + 1, TWO53, q + 1);
      MulMono(q + 1, TWO53, TWO53);
      assert false;
    }
    if q >= TWO54 {
      MulMono(TWO54, q, q);
      MulMono(TWO54, q, TWO54);
      assert false;
    }
  }

  lemma SqrtRounds(x: u64, X: int, e: int, q: int, rem: int, v: real)
    requires Normal(x) && Sign(x) == 0 && v >= 0.0 && Times(v, v) == Value(x)
    requires X == 2 * Mant(x) * (1 + (Expo(x) - 1023) % 2) && e == (Expo(x) - 1023) / 2
    requires q >= 0 && q * q <= X * TWO53 < (q + 1) * (q + 1) && rem == 2 * (X * TWO53 - q * q)
    ensures var z := OrBit(2 * q, if rem == 0 then 0 else 1);
      TWO54 <= z < TWO55 && IsNearestEven(v, Pack(0, e - 54, z))
  {
    hide IsNearestEven, InRange, Pack, Times, Sticky, P2, Value, Magnitude, Expo, Mant, Sign;
    Meaning(x);
    var w := Times(v, P2(54 - e));
    var z := OrBit(2 * q, if rem == 0 then 0 else 1);
    RootScaled(Mant(x), Expo(x), e, X, v, w);
    RootSticky(X, q, rem, w);
    RootUnscaled(v, e, w);
    RootInRange(w, e, v);
    PackRounds(0, e - 54, z, w, v);
  }

  /** Scaled up, the root squares to X * 2^55. */
  lemma RootScaled(mant: int, ex: int, e: int, X: int, v: real, w: real)
    requires v >= 0.0 && Times(v, v) == Times(mant as real, P2(ex - 1075)) && w == Times(v, P2(54 - e))
    requires X == 2 * mant * (1 + (ex - 1023) % 2) && e == (ex - 1023) / 2
    ensures w >= 0.0 && Times(w, w) == (X * TWO55) as real
  {
    hide Times;
    var o := (ex - 1023) % 2;
    assert ex - 1075 + (108 - 2 * e) == 56 + o;
    P2Add(54 - e, 54 - e);
    assert (54 - e) + (54 - e) == 108 - 2 * e;
    P2Add(ex - 1075, 108 - 2 * e);
    TwoTo55();
    P2Next(55);
    P2Next(56);
    SquareRegroup(v, P2(54 - e), mant as real, P2(ex - 1075), P2(108 - 2 * e), P2(56 + o), w);
    TopPower(mant, o, X, P2(56 + o));
  }

  lemma SquareRegroup(v: real, p: real, m: real, u: real, pp: real, t: real, w: real)
    requires v >= 0.0 && p > 0.0 && w == Times(v, p) && Times(v, v) == Times(m, u)
    requires pp == Times(p, p) && t == Times(u, pp)
    ensures w >= 0.0 && Times(w, w) == Times(m, t)
  {
    assert (v * p) * (v * p) == (v * v) * (p * p);
    assert (m * u) * pp == m * (u * pp);
  }

  lemma TopPower(mant: int, o: int, X: int, t: real)
    requires 0 <= o <= 1 && X == 2 * mant * (1 + o)
    requires t == if o == 0 then 2.0 * TWO55 as real else 4.0 * TWO55 as real
    ensures Times(mant as real, t) == (X * TWO55) as real
  {
  }

  lemma RootUnscaled(v: real, e: int, w: real)
    requires w == Times(v, P2(54 - e))
    ensures v == Times(w, P2(e - 54))
  {
    P2Add(54 - e, e - 54);
    Undo(v, P2(54 - e), P2(e - 54), w);
  }

  lemma Undo(v: real, p: real, p': real, w: real)
    requires w == Times(v, p) && Times(p, p') == 1.0
    ensures v == Times(w, p')
  {
    assert (v * p) * p' == v * (p * p');
  }

  lemma RootInRange(w: real, e: int, v: real)
    requires TWO54 as real <= w < TWO55 as real && -511 <= e <= 511 && v == Times(w, P2(e - 54))
    ensures InRange(v)
  {
    hide Times, P2;
    TwoTo55();
    P2Add(54, e - 54);
    P2Add(55, e - 54);
    TimesMono(TWO54 as real, w, P2(e - 54));
    TimesMono(w, TWO55 as real, P2(e - 54));
    P2Mono(-1022, e);
    P2Mono(e + 1, 971);
    assert P2(-1022) <= v < P2(971);
  }

  // ---------- normalisation ----------

  const TWO64: int := 0x1_0000_0000_0000_0000

  /** One step of FPR_NORM64: shifts left by n if the n top bits are clear, else credits e with n. */
  method NormStep(m: int, e: int, n: nat, ghost k: nat, ghost m0: int) returns (m': int, e': int, ghost k': nat)
    requires 0 <= n <= 32 && 0 <= m < TWO64 && m == m0 * Pow2(k)
    requires m > 0 ==> m * Pow2(2 * n) >= TWO64
    ensures 0 <= m' < TWO64 && m' == m0 * Pow2(k') && (m > 0 ==> m' > 0 && m' * Pow2(n) >= TWO64)
    ensures e' - e == n - (k' - k) && k <= k' <= k + n
  {
    SixtyFour(n);
    if m / Pow2(64 - n) == 0 {
      ShiftFits(m, n);
      Pow2Add(k, n);
      MulAssoc(m0, Pow2(k), Pow2(n));
      Pow2Add(n, n);
      MulAssoc(m, Pow2(n), Pow2(n));
      m', e', k' := m * Pow2(n), e, k + n;
    } else {
      TopSet(m, n);
      m', e', k' := m, e + n, k;
    }
  }

  lemma SixtyFour(n: nat)
    requires n <= 64
    ensures Pow2(64 - n) * Pow2(n) == TWO64
  {
    Pow2Add(64 - n, n);
    Pow2Values();
    Pow2Add(32, 32);
  }

  lemma MulAssoc(a: int, b: int, c: int)
    ensures (a * b) * c == a * (b * c)
  {
  }

  lemma ShiftFits(m: int, n: nat)
    requires n <= 64 && m >= 0 && m / Pow2(64 - n) == 0
    ensures m * Pow2(n) < TWO64 && m * Pow2(n) >= 0
    ensures m > 0 ==> m * Pow2(n) > 0
  {
    SixtyFour(n);
    DivModEq(m, Pow2(64 - n));
    MulMono(m + 1, Pow2(64 - n), Pow2(n));
    MulMono(0, m, Pow2(n));
    if m > 0 { MulMono(1, m, Pow2(n)); }
  }

  lemma TopSet(m: int, n: nat)
    requires n <= 64 && 0 <= m && m / Pow2(64 - n) != 0
    ensures m * Pow2(n) >= TWO64
  {
    SixtyFour(n);
    DivModEq(m, Pow2(64 - n));
    if m < Pow2(64 - n) {
      DivUnique(m, Pow2(64 - n), 0, m);
      assert false;
    }
    MulMono(Pow2(64 - n), m, Pow2(n));
  }

  /** FPR_NORM64: a word that is not zero ends with its top bit set, and the exponent goes down by
      the number of places it moved. */
  method Norm64(m0: int, e0: int) returns (m: int, e: int, ghost k: nat)
    requires 0 <= m0 < TWO64
    ensures m == m0 * Pow2(k) && e == e0 - k && k <= 63 && 0 <= m < TWO64
    ensures m0 > 0 ==> TWO63 <= m
  {
    assert Pow2(1) == 2 && Pow2(2) == 4 && Pow2(4) == 16;
    SixtyFour(64);
    m, e, k := m0, e0 - 63, 0;
    m, e, k := NormStep(m, e, 32, k, m0);
    m, e, k := NormStep(m, e, 16, k, m0);
    m, e, k := NormStep(m, e, 8, k, m0);
    m, e, k := NormStep(m, e, 4, k, m0);
    m, e, k := NormStep(m, e, 2, k, m0);
    m, e, k := NormStep(m, e, 1, k, m0);
  }

  // ---------- addition ----------

  lemma ScaledDiv(S: nat, q: int, p: int)
    requires q > 0 && p > 0
    ensures q * p > 0 && (S * p) / (q * p) == S / q && (S * p) % (q * p) == (S % q) * p
    ensures (S % q) * p == 0 <==> S % q == 0
  {
    var a, b := S / q, S % q;
    DivModEq(S, q);
    MulMono(1, q, p);
    MulAssoc(a, q, p);
    assert (a * q + b) * p == (a * q) * p + b * p;
    MulMono(0, b, p);
    MulMono(b + 1, q, p);
    DivUnique(S * p, q * p, a, b * p);
    if b > 0 { MulMono(1, b, p); }
  }

  /** Dropping bits after a shift up is dropping fewer bits. */
  lemma DropAfterShift(S: nat, k: nat, r: nat)
    requires k <= r
    ensures S * Pow2(k) >= 0 && Drop(S * Pow2(k), r) == Drop(S, r - k)
  {
    MulMono(0, S, Pow2(k));
    Pow2Add(r - k, k);
    hide Pow2;
    ScaledDiv(S, Pow2(r - k), Pow2(k));
  }

  /** The source's way of dropping bits: with m = 2^r - 1, the word x | ((x & m) + m), shifted. */
  lemma DropIsShift(x: nat, r: nat)
    ensures Or(x, And(x, Pow2(r) - 1) + Pow2(r) - 1) / Pow2(r) == Drop(x, r)
  {
    var p := Pow2(r);
    AndMask(x, r);
    var t := x % p + p - 1;
    OrShift(x, t, r);
    DivModEq(x, p);
    if x % p == 0 {
      DivUnique(t, p, 0, p - 1);
    } else {
      DivUnique(t, p, 1, x % p - 1);
      DivNat(x, p);
      OrBitIsOr(x / p, 1);
    }
  }

  lemma {:induction false} OrShift(a: nat, b: nat, r: nat)
    ensures a / Pow2(r) >= 0 && b / Pow2(r) >= 0 && Or(a, b) / Pow2(r) == Or(a / Pow2(r), b / Pow2(r))
  {
    DivNat(a, Pow2(r));
    DivNat(b, Pow2(r));
    if r > 0 {
      OrHalf(a, b);
      OrShift(a / 2, b / 2, r - 1);
      DivHalf(a, r);
      DivHalf(b, r);
      DivHalf(Or(a, b), r);
    } else {
      assert Pow2(0) == 1;
    }
  }

  /** The two mantissas, the smaller one shifted down with a sticky bit, add up to a sticky sum. */
  lemma SumSticky(xu: nat, d: int, Y: real, minus: bool)
    requires xu % 8 == 0 && Sticky(d, Y)
    ensures Sticky(if minus then xu - d else xu + d, if minus then xu as real - Y else xu as real + Y)
  {
    var S := if minus then xu - d else xu + d;
    if Y != d as real {
      assert S % 2 == 1 by { OddSum(xu, d, S); }
    }
  }

  lemma OddSum(a: int, d: int, S: int)
    requires a % 8 == 0 && d % 2 == 1 && (S == a - d || S == a + d)
    ensures S % 2 == 1
  {
    var t, h := a / 8, d / 2;
    assert a == 8 * t && d == 2 * h + 1;
    if S == a - d { DivUnique(S, 2, 4 * t - h - 1, 1); } else { DivUnique(S, 2, 4 * t + h, 1); }
  }

  lemma DropBound(m: nat, r: nat)
    ensures m % Pow2(r) == 0 ==> Drop(m, r) == m / Pow2(r)
    ensures r >= 4 ==> Drop(m, r) <= m / 16 + 1
    ensures Drop(m, r) >= 0
  {
    if r >= 4 {
      Pow2Mono(4, r);
      assert Pow2(4) == 16;
      DivBySmaller(m, 16, Pow2(r));
    }
  }

  lemma DivBySmaller(m: nat, a: nat, b: nat)
    requires 0 < a <= b
    ensures m / b <= m / a
  {
    DivModEq(m, a);
    DivModEq(m, b);
    DivNat(m, b);
    if m / b > m / a {
      MulMono(m / a + 1, m / b, a);
      MulMono(a, b, m / b);
      assert false;
    }
  }

  /** Massive cancellation only happens when nothing was shifted out. */
  lemma NoLossWhenSmall(xu: int, yu: nat, cc: nat, minus: bool)
    requires TWO55 <= xu < TWO56 && yu < TWO56 && yu % 8 == 0 && cc < 60
    requires cc == 0 ==> yu <= xu
    ensures yu % Pow2(cc) == 0 || (if minus then xu - Drop(yu, cc) else xu + Drop(yu, cc)) >= TWO54
    ensures minus ==> xu - Drop(yu, cc) >= 0
    ensures 0 <= Drop(yu, cc) <= TWO56
  {
    DropBound(yu, cc);
    if cc <= 3 {
      SmallPowers(yu, cc);
      assert Pow2(0) == 1;
    }
    hide Drop, Pow2;
  }

  lemma SmallPowers(yu: nat, cc: nat)
    requires yu % 8 == 0 && cc <= 3
    ensures yu % Pow2(cc) == 0
    ensures cc >= 1 ==> yu / Pow2(cc) <= yu / 2
  {
    assert Pow2(0) == 1 && Pow2(1) == 2 && Pow2(2) == 4 && Pow2(3) == 8;
    hide Pow2;
    var t := yu / 8;
    assert yu == 8 * t;
    match cc
    case 0 =>
    case 1 => DivUnique(yu, 2, 4 * t, 0);
    case 2 => DivUnique(yu, 4, 2 * t, 0);
    case _ => DivUnique(yu, 8, t, 0);
  }

  /** The end of fpr_add and fpr_scaled: normalise, drop nine bits with a sticky one, pack. */
  method Finish(s: int, ex: int, S: int) returns (r: u64, ghost k: nat)
    requires 0 <= s <= 1 && 0 <= S < TWO64
    ensures S == 0 ==> Zero(r) && Sign(r) == s
    ensures S > 0 ==> k <= 63 && TWO63 <= S * Pow2(k) < TWO64 && TWO54 <= Drop(S * Pow2(k), 9) < TWO55
    ensures S > 0 ==> r == Pack(s, ex - k + 9, Drop(S * Pow2(k), 9))
  {
    hide Pack, Drop, Pow2;
    var m, e;
    m, e, k := Norm64(S, ex);
    DropNine(m);
    var z := Drop(m, 9);
    if S == 0 {
      assert m == 0 by { ZeroTimes(Pow2(k)); }
      DropZero();
      PackZero(s, e + 9);
    }
    r := Pack(s, e + 9, z);
  }

  lemma ZeroTimes(p: int)
    ensures 0 * p == 0
  {
  }

  lemma DropZero()
    ensures Drop(0, 9) == 0
  {
    DivUnique(0, Pow2(9), 0, 0);
  }

  lemma DropNine(m: int)
    requires 0 <= m < TWO64
    ensures 0 <= Drop(m, 9) < TWO55
    ensures TWO63 <= m ==> TWO54 <= Drop(m, 9)
  {
    Pow2Values();
  }

  /** What Finish packs delivers Z * 2^ex, if S stands for Z and either is exactly Z or still has 55
      bits. */
  lemma FinishDelivers(s: int, ex: int, S: int, Z: real, k: nat, v: real)
    requires 0 <= s <= 1 && S > 0 && Sticky(S, Z) && (Z == S as real || S >= TWO54)
    requires k <= 63 && TWO63 <= S * Pow2(k) < TWO64
    requires v == Times(Z, P2(ex))
    ensures TWO54 <= Drop(S * Pow2(k), 9) < TWO55
    ensures v > 0.0 && Delivers(if s == 1 then -v else v, Pack(s, ex - k + 9, Drop(S * Pow2(k), 9)))
  {
    hide Pack, Drop, Pow2, P2, Times, Sticky, Delivers;
    var w := Times(Z, P2(k - 9));
    DropNine(S * Pow2(k));
    if Z == S as real {
      ExactDrop(S, k);
    } else {
      ShiftAtMostNine(S, k);
      DropAfterShift(S, k, 9);
      DropSticky(S, Z, 9 - k);
      DivideIsTimes(Z, 9 - k);
    }
    P2Add(k - 9, ex - k + 9);
    TimesAssoc(Z, P2(k - 9), P2(ex - k + 9), P2(ex));
    PackDelivers(s, ex - k + 9, Drop(S * Pow2(k), 9), w, v);
  }

  lemma TimesAssoc(a: real, b: real, c: real, bc: real)
    requires bc == Times(b, c)
    ensures Times(a, bc) == Times(Times(a, b), c)
  {
  }

  lemma DivideIsTimes(Z: real, n: nat)
    ensures Z / Pow2(n) as real == Times(Z, P2(0 - n))
  {
    P2Nat(n);
    P2Add(n, 0 - n);
    assert P2(0) == 1.0;
    Inverse(Z, Pow2(n) as real, P2(0 - n));
  }

  lemma Inverse(Z: real, p: real, p': real)
    requires p > 0.0 && Times(p, p') == 1.0
    ensures Z / p == Times(Z, p')
  {
    assert (Z * p') * p == Z * (p * p');
    Divide(Z * p', p, Z);
  }

  lemma ExactDrop(S: int, k: nat)
    requires S > 0 && S * Pow2(k) >= 0
    ensures Sticky(Drop(S * Pow2(k), 9), Times(S as real, P2(k - 9)))
  {
    hide Drop, Sticky, P2, Pow2, Times;
    var m := S * Pow2(k);
    StickyExact(m);
    DropSticky(m, m as real, 9);
    DivideIsTimes(m as real, 9);
    RealProduct(S, Pow2(k));
    P2Nat(k);
    P2Add(k, -9);
    TimesAssoc(S as real, P2(k), P2(-9), P2(k - 9));
  }

  lemma ShiftAtMostNine(S: int, k: nat)
    requires S >= TWO54 && S * Pow2(k) < TWO64
    ensures k <= 9
  {
    if k >= 10 {
      Pow2Mono(10, k);
      Pow2Values();
      MulMono(TWO54, S, Pow2(k));
      assert false;
    }
  }

  /** The mantissa of an operand, scaled up by 8; zero has mantissa zero. */
  function Scaled8(x: u64): int {
    8 * (Frac(x) + if Expo(x) == 0 then 0 else TWO52)
  }

  lemma Scaled8Value(x: u64)
    requires Operand(x)
    ensures Magnitude(x) == Times(Scaled8(x) as real, P2(Expo(x) - 1078))
    ensures Normal(x) ==> TWO55 <= Scaled8(x) < TWO56
    ensures Zero(x) ==> Scaled8(x) == 0
    ensures Scaled8(x) % 8 == 0 && 0 <= Scaled8(x) < TWO56
  {
    hide P2;
    var p := P2(Expo(x) - 1078);
    P2Next(Expo(x) - 1078);
    P2Next(Expo(x) - 1077);
    P2Next(Expo(x) - 1076);
    EightTimes(Mant(x), p, P2(Expo(x) - 1075));
  }

  lemma EightTimes(m: int, p: real, p8: real)
    requires p8 == 8.0 * p
    ensures Times(m as real, p8) == Times((8 * m) as real, p)
  {
  }

  /** Whether fpr_add swaps its operands, in the source's own words. */
  function SwapBit(x: u64, y: u64): int {
    var za := (x % TWO63 - y % TWO63) % TWO64;
    var nza := (-za) % TWO64;
    if za / TWO63 == 1 || (1 - nza / TWO63 == 1 && x / TWO63 == 1) then 1 else 0
  }

  /** It does when the first is smaller in magnitude, or equal and negative. */
  lemma SwapBitIs(x: u64, y: u64)
    ensures SwapBit(x, y) == 1 <==> x % TWO63 < y % TWO63 || (x % TWO63 == y % TWO63 && Sign(x) == 1)
  {
    var a, b := x % TWO63, y % TWO63;
    if a < b {
      assert (a - b) % TWO64 == a - b + TWO64;
    } else if a == b {
      assert (a - b) % TWO64 == 0 && (-0) % TWO64 == 0;
    } else {
      assert (a - b) % TWO64 == a - b;
      assert (-(a - b)) % TWO64 == TWO64 - (a - b);
    }
  }

  /** Order of the words without sign is order of the exponents, then of the fractions. */
  lemma LowWord(x: u64)
    ensures x % TWO63 == Expo(x) * TWO52 + Frac(x)
  {
  }

  ghost predicate Larger(x: u64, y: u64) {
    Expo(x) > Expo(y) || (Expo(x) == Expo(y) && Frac(x) >= Frac(y))
  }

  lemma LargerIs(x: u64, y: u64)
    requires x % TWO63 >= y % TWO63
    ensures Larger(x, y)
    ensures x % TWO63 > y % TWO63 ==> !(Expo(x) == Expo(y) && Frac(x) == Frac(y))
  {
    LowWord(x);
    LowWord(y);
    FieldRanges(x);
    FieldRanges(y);
    hide Expo, Frac;
  }

  lemma FieldRanges(x: u64)
    ensures 0 <= Sign(x) <= 1 && 0 <= Expo(x) < 0x800 && 0 <= Frac(x) < TWO52
  {
  }

  /** fpr_add: the correctly rounded sum, or zero if it is too small; an exact zero sum is +0 unless
      both operands are negative. */
  method Add(x0: u64, y0: u64) returns (r: u64)
    requires Operand(x0) && Operand(y0)
    ensures Value(x0) + Value(y0) != 0.0 ==> Delivers(Value(x0) + Value(y0), r)
    ensures Value(x0) + Value(y0) == 0.0 ==> Zero(r) && Sign(r) == (if Sign(x0) == 1 && Sign(y0) == 1 then 1 else 0)
  {
    SwapBitIs(x0, y0);
    var x, y := x0, y0;
    if SwapBit(x0, y0) == 1 {
      x, y := y0, x0;
    }
    LargerIs(x, y);
    hide SwapBit, Value;
    r := AddOrdered(x, y);
  }

  /** The part after the swap. */
  method AddOrdered(x: u64, y: u64) returns (r: u64)
    requires Operand(x) && Operand(y) && Larger(x, y)
    requires Expo(x) == Expo(y) && Frac(x) == Frac(y) && Sign(x) == 1 ==> Sign(y) == 1
    ensures Value(x) + Value(y) != 0.0 ==> Delivers(Value(x) + Value(y), r)
    ensures Value(x) + Value(y) == 0.0 ==> Zero(r) && Sign(r) == (if Sign(x) == 1 && Sign(y) == 1 then 1 else 0)
  {
    hide Value, Magnitude, Delivers, Pack, Drop, Pow2, P2, Times;
    FieldRanges(x);
    FieldRanges(y);
    var ex, ey := Expo(x), Expo(y);
    var sx, sy := Sign(x), Sign(y);
    var xu, yu := Scaled8(x), Scaled8(y);
    var cc := ex - ey;
    Scaled8Range(y);
    var d := if cc < 60 then Drop(yu, cc) else 0;
    SumRange(x, y, d);
    var S := if sx == sy then xu + d else xu - d;
    ghost var k;
    r, k := Finish(sx, ex - 1078, S);
    AddCases(x, y, d, S, k, r);
  }

  /** The second mantissa as it enters the sum. */
  function Shifted(x: u64, y: u64): int
    requires Operand(y) && Larger(x, y)
  {
    Scaled8Range(y);
    if Expo(x) - Expo(y) < 60 then Drop(Scaled8(y), Expo(x) - Expo(y)) else 0
  }

  lemma Scaled8Range(x: u64)
    requires Operand(x)
    ensures Normal(x) ==> TWO55 <= Scaled8(x) < TWO56
    ensures Zero(x) ==> Scaled8(x) == 0
    ensures Scaled8(x) % 8 == 0 && 0 <= Scaled8(x) < TWO56
  {
  }

  lemma SumRange(x: u64, y: u64, d: int)
    requires Operand(x) && Operand(y) && Larger(x, y) && d == Shifted(x, y)
    ensures 0 <= d <= TWO56 && d <= Scaled8(x)
    ensures Zero(x) ==> Zero(y) && d == 0
  {
    Scaled8Range(x);
    Scaled8Range(y);
    if Normal(x) {
      if Expo(x) - Expo(y) < 60 {
        NoLossWhenSmall(Scaled8(x), Scaled8(y), Expo(x) - Expo(y), true);
      }
    } else {
      assert Pow2(0) == 1;
    }
  }

  /** What Finish promised about the packed sum. */
  ghost predicate Finished(s: int, ex: int, S: int, k: nat, r: u64) {
    && 0 <= s <= 1 && 0 <= S < TWO64
    && (S == 0 ==> Zero(r) && Sign(r) == s)
    && (S > 0 ==> k <= 63 && TWO63 <= S * Pow2(k) < TWO64 && TWO54 <= Drop(S * Pow2(k), 9) < TWO55
                  && r == Pack(s, ex - k + 9, Drop(S * Pow2(k), 9)))
  }

  ghost predicate SumRight(v: real, both: bool, r: u64) {
    && (v != 0.0 ==> Delivers(v, r))
    && (v == 0.0 ==> Zero(r) && Sign(r) == if both then 1 else 0)
  }

  /** The exact sum, in units of the larger exponent. */
  lemma SumValue(x: u64, y: u64, Y: real, Z: real)
    requires Operand(x) && Operand(y) && Larger(x, y)
    requires Y == Scaled8(y) as real / Pow2(Expo(x) - Expo(y)) as real
    requires Z == if Sign(x) == Sign(y) then Scaled8(x) as real + Y else Scaled8(x) as real - Y
    ensures Value(x) + Value(y) == if Sign(x) == 1 then -Times(Z, P2(Expo(x) - 1078)) else Times(Z, P2(Expo(x) - 1078))
  {
    hide Magnitude, Times, P2, Pow2, Expo, Scaled8, Sign;
    FieldRanges(x);
    FieldRanges(y);
    Scaled8Value(x);
    Scaled8Value(y);
    var cc: nat := Expo(x) - Expo(y);
    var p := P2(Expo(x) - 1078);
    DivideIsTimes(Scaled8(y) as real, cc);
    P2Add(0 - cc, Expo(x) - 1078);
    TimesAssoc(Scaled8(y) as real, P2(0 - cc), p, P2(Expo(y) - 1078));
    assert Magnitude(y) == Times(Y, p);
    TimesSum(Scaled8(x) as real, Y, p);
  }

  /** A sum whose mantissa S stands for the exact Z is packed right. */
  lemma SumFinishes(x: u64, y: u64, S: int, Z: real, k: nat, r: u64)
    requires Value(x) + Value(y) == if Sign(x) == 1 then -Times(Z, P2(Expo(x) - 1078)) else Times(Z, P2(Expo(x) - 1078))
    requires Finished(Sign(x), Expo(x) - 1078, S, k, r)
    requires Sticky(S, Z) && (Z == S as real || S >= TWO54)
    requires S == 0 ==> (Sign(x) == 1 && Sign(y) == 1 <==> Sign(x) == 1)
    ensures SumRight(Value(x) + Value(y), Sign(x) == 1 && Sign(y) == 1, r)
  {
    hide Value, Times, P2, Pow2, Expo, Sign, Sticky, Delivers, Pack, Drop;
    var v := Times(Z, P2(Expo(x) - 1078));
    StickyCompare(S, Z, 0);
    if S == 0 {
      assert v == 0.0 by { ZeroScaled(P2(Expo(x) - 1078)); }
    } else {
      assert Z > 0.0;
      PositiveTimes(Z, P2(Expo(x) - 1078));
      FinishDelivers(Sign(x), Expo(x) - 1078, S, Z, k, v);
    }
  }

  lemma ZeroScaled(p: real)
    ensures Times(0.0, p) == 0.0
  {
  }

  /** Operands at most 59 places apart. */
  lemma AddNear(x: u64, y: u64, d: int, S: int, k: nat, r: u64)
    requires Normal(x) && Operand(y) && Larger(x, y) && Expo(x) - Expo(y) < 60 && d == Shifted(x, y)
    requires Expo(x) == Expo(y) && Frac(x) == Frac(y) && Sign(x) == 1 ==> Sign(y) == 1
    requires S == if Sign(x) == Sign(y) then Scaled8(x) + d else Scaled8(x) - d
    requires Finished(Sign(x), Expo(x) - 1078, S, k, r)
    ensures SumRight(Value(x) + Value(y), Sign(x) == 1 && Sign(y) == 1, r)
  {
    Scaled8Range(x);
    Scaled8Range(y);
    FieldRanges(x);
    FieldRanges(y);
    ZeroSum(x, y, d);
    hide Value, Pow2, Expo, Sign, Sticky, Finished, SumRight, Drop, Scaled8, P2, Times;
    var cc: nat := Expo(x) - Expo(y);
    var yu := Scaled8(y);
    var Y := yu as real / Pow2(cc) as real;
    var minus := Sign(x) != Sign(y);
    var Z := if minus then Scaled8(x) as real - Y else Scaled8(x) as real + Y;
    StickyExact(yu);
    DropSticky(yu, yu as real, cc);
    SumSticky(Scaled8(x), d, Y, minus);
    NoLossWhenSmall(Scaled8(x), yu, cc, minus);
    if yu % Pow2(cc) == 0 {
      ExactShift(yu, cc);
    }
    SumValue(x, y, Y, Z);
    SumFinishes(x, y, S, Z, k, r);
  }

  lemma ExactShift(yu: nat, cc: nat)
    requires yu % Pow2(cc) == 0
    ensures Drop(yu, cc) as real == yu as real / Pow2(cc) as real
  {
    DropBound(yu, cc);
    DivModEq(yu, Pow2(cc));
    hide Drop, Pow2;
    ScaleEqual(yu / Pow2(cc), Pow2(cc), yu as real);
  }

  /** The mantissas cancel completely only between equal magnitudes. */
  lemma ZeroSum(x: u64, y: u64, d: int)
    requires Normal(x) && Operand(y) && Larger(x, y) && d == Shifted(x, y)
    ensures d == Scaled8(x) ==> Expo(x) == Expo(y) && Frac(x) == Frac(y)
  {
    Scaled8Range(x);
    Scaled8Range(y);
    var cc := Expo(x) - Expo(y);
    if cc < 60 {
      DropBound(Scaled8(y), cc);
      if cc <= 3 {
        SmallPowers(Scaled8(y), cc);
        assert Pow2(0) == 1;
      }
    }
  }

  lemma AddCases(x: u64, y: u64, d: int, S: int, k: nat, r: u64)
    requires Operand(x) && Operand(y) && Larger(x, y) && d == Shifted(x, y)
    requires Expo(x) == Expo(y) && Frac(x) == Frac(y) && Sign(x) == 1 ==> Sign(y) == 1
    requires S == if Sign(x) == Sign(y) then Scaled8(x) + d else Scaled8(x) - d
    requires Finished(Sign(x), Expo(x) - 1078, S, k, r)
    ensures SumRight(Value(x) + Value(y), Sign(x) == 1 && Sign(y) == 1, r)
  {
    SumRange(x, y, d);
    FieldRanges(x);
    FieldRanges(y);
    Scaled8Range(x);
    hide Finished, SumRight, Shifted, Scaled8, Drop, Pow2, P2;
    if Zero(x) {
      AddZeros(x, y, S, k, r);
    } else if Expo(x) - Expo(y) < 60 {
      AddNear(x, y, d, S, k, r);
    } else {
      AddFar(x, y, S, k, r);
    }
  }

  lemma AddZeros(x: u64, y: u64, S: int, k: nat, r: u64)
    requires Zero(x) && Zero(y) && S == 0 && Finished(Sign(x), Expo(x) - 1078, S, k, r)
    requires Sign(x) == 1 ==> Sign(y) == 1
    ensures SumRight(Value(x) + Value(y), Sign(x) == 1 && Sign(y) == 1, r)
  {
    FieldRanges(x);
    hide Sign, P2, Delivers;
  }

  /** Operands 60 places apart or more: the smaller one is dropped without a sticky bit, and the
      larger one is the nearest number all the same. */
  lemma AddFar(x: u64, y: u64, S: int, k: nat, r: u64)
    requires Normal(x) && Operand(y) && Larger(x, y) && Expo(x) - Expo(y) >= 60
    requires S == Scaled8(x) && Finished(Sign(x), Expo(x) - 1078, S, k, r)
    ensures SumRight(Value(x) + Value(y), Sign(x) == 1 && Sign(y) == 1, r)
  {
    Scaled8Range(x);
    Scaled8Range(y);
    FieldRanges(x);
    FieldRanges(y);
    hide Value, Pow2, Expo, Sign, Sticky, Finished, SumRight, Drop, Scaled8, P2, Times;
    var cc: nat := Expo(x) - Expo(y);
    var yu := Scaled8(y);
    var Y := yu as real / Pow2(cc) as real;
    var minus := Sign(x) != Sign(y);
    var Z := if minus then S as real - Y else S as real + Y;
    SumValue(x, y, Y, Z);
    TinyShift(yu, cc, Y);
    if yu == 0 {
      StickyExact(S);
      SumFinishes(x, y, S, Z, k, r);
    } else {
      FarPacked(x, S, k, r);
      FarNearest(x, Y, minus, Z, r);
      FarLarge(Expo(x), Z);
      FarRight(x, y, Z, r);
    }
  }

  lemma TinyShift(yu: nat, cc: nat, Y: real)
    requires yu < TWO56 && cc >= 60 && Y == yu as real / Pow2(cc) as real
    ensures 0.0 <= Y < 0.0625 && (yu > 0 ==> Y > 0.0) && (yu == 0 ==> Y == 0.0)
  {
    Pow2Mono(60, cc);
    Sixty();
    hide Pow2;
    TinyQuotient(yu as real, Pow2(cc) as real, Y);
  }

  lemma TinyQuotient(a: real, p: real, Y: real)
    requires 0.0 <= a < TWO56 as real && p >= 16.0 * TWO56 as real && Y == a / p
    ensures 0.0 <= Y < 0.0625 && (a > 0.0 ==> Y > 0.0) && (a == 0.0 ==> Y == 0.0)
  {
    assert Times(Y, p) == a;
    TimesMono(0.0625, Y, p);
    TimesMono(Y, 0.0, p);
    TimesMono(0.0, Y, p);
  }

  lemma Sixty()
    ensures Pow2(60) == 16 * TWO56
  {
    SixtyFour(4);
    assert Pow2(4) == 16;
  }

  /** Without the smaller operand the packed result is the larger operand. */
  lemma FarPacked(x: u64, S: int, k: nat, r: u64)
    requires Normal(x) && S == Scaled8(x) && Finished(Sign(x), Expo(x) - 1078, S, k, r)
    ensures Normal(r) && Sign(r) == Sign(x) && Magnitude(r) == Magnitude(x)
  {
    Scaled8Range(x);
    FieldRanges(x);
    assert S == 8 * Mant(x) && Drop(S, 1) == 4 * Mant(x) by { assert Pow2(1) == 2; }
    EightPlaces(S, k);
    DropAfterShift(S, 8, 9);
    hide Pow2, P2, Drop, Times, Expo, Frac, Sign, Pack;
    QuarterRounded(Mant(x));
    PackValue(Sign(x), Expo(x) - 1077, 4 * Mant(x));
    assert Magnitude(x) == Times(Mant(x) as real, P2(Expo(x) - 1075));
  }

  lemma QuarterRounded(M: int)
    ensures Rounded(4 * M) == M
  {
  }

  lemma EightPlaces(S: int, k: nat)
    requires TWO55 <= S < TWO56 && TWO63 <= S * Pow2(k) < TWO64
    ensures k == 8
  {
    Pow2Values();
    if k >= 9 {
      Pow2Mono(9, k);
      MulMono(TWO55, S, Pow2(k));
      assert false;
    }
    if k <= 7 {
      Pow2Mono(k, 7);
      MulMono(S, TWO56, Pow2(k));
      assert false;
    }
  }

  lemma FarNearest(x: u64, Y: real, minus: bool, Z: real, r: u64)
    requires Normal(x) && 0.0 < Y < 0.0625
    requires Z == if minus then Scaled8(x) as real - Y else Scaled8(x) as real + Y
    requires Magnitude(r) == Magnitude(x)
    ensures var v := Times(Z, P2(Expo(x) - 1078));
      v > 0.0 && exists M, E :: RoundsTo(v, M, P2(E)) && Magnitude(r) == Times(M as real, P2(E))
  {
    var M := Mant(x);
    var p := P2(Expo(x) - 1078);
    FieldRanges(x);
    hide P2, Times, RoundsTo, Frac;
    P2Next(Expo(x) - 1078);
    P2Next(Expo(x) - 1077);
    P2Next(Expo(x) - 1076);
    var v := Times(Z, p);
    assert Magnitude(r) == Times(M as real, P2(Expo(x) - 1075));
    if minus && M == TWO52 {
      FarBelow(Y, p, P2(Expo(x) - 1076), v);
      Carry(P2(Expo(x) - 1076), P2(Expo(x) - 1075));
      assert RoundsTo(v, TWO53, P2(Expo(x) - 1076)) && Magnitude(r) == Times(TWO53 as real, P2(Expo(x) - 1076));
    } else {
      FarWithin(M, Y, minus, p, P2(Expo(x) - 1075), v);
      assert RoundsTo(v, M, P2(Expo(x) - 1075)) && Magnitude(r) == Times(M as real, P2(Expo(x) - 1075));
    }
  }

  lemma FarBelow(Y: real, p: real, u: real, v: real)
    requires p > 0.0 && 0.0 < Y < 0.0625 && u == 4.0 * p && v == Times((8 * TWO52) as real - Y, p)
    ensures v > 0.0 && RoundsTo(v, TWO53, u)
  {
    TimesSum((8 * TWO52) as real, Y, p);
    TimesMono(0.0, Y, p);
    TimesMono(Y, 0.0625, p);
  }

  lemma FarWithin(M: int, Y: real, minus: bool, p: real, u: real, v: real)
    requires TWO52 <= M < TWO53 && (minus ==> M > TWO52)
    requires p > 0.0 && 0.0 < Y < 0.0625 && u == 8.0 * p
    requires v == Times(if minus then (8 * M) as real - Y else (8 * M) as real + Y, p)
    ensures v > 0.0 && RoundsTo(v, M, u)
  {
    TimesSum((8 * M) as real, Y, p);
    TimesMono(0.0, Y, p);
    TimesMono(Y, 0.0625, p);
    EightTimes(M, p, u);
    TimesMono((8 * TWO52) as real, (8 * M) as real, p);
    TimesMono((8 * M) as real, (8 * TWO53 - 8) as real, p);
    if minus { TimesMono((8 * TWO52 + 8) as real, (8 * M) as real, p); }
  }

  lemma FarLarge(ex: int, Z: real)
    requires ex >= 60 && Z >= TWO54 as real
    ensures Times(Z, P2(ex - 1078)) >= P2(-1022)
  {
    if Times(Z, P2(ex - 1078)) < P2(-1022) {
      LowExponent(Z, ex - 1078, Times(Z, P2(ex - 1078)));
      assert false;
    }
  }

  lemma FarRight(x: u64, y: u64, Z: real, r: u64)
    requires Value(x) + Value(y) == if Sign(x) == 1 then -Times(Z, P2(Expo(x) - 1078)) else Times(Z, P2(Expo(x) - 1078))
    requires Normal(r) && Sign(r) == Sign(x) && 0 <= Sign(x) <= 1
    requires var v := Times(Z, P2(Expo(x) - 1078));
      v >= P2(-1022) && exists M, E :: RoundsTo(v, M, P2(E)) && Magnitude(r) == Times(M as real, P2(E))
    ensures SumRight(Value(x) + Value(y), Sign(x) == 1 && Sign(y) == 1, r)
  {
    hide Value, Magnitude, Times, P2, RoundsTo, Sign, Expo, InRange;
    var v := Times(Z, P2(Expo(x) - 1078));
    var M, E :| RoundsTo(v, M, P2(E)) && Magnitude(r) == Times(M as real, P2(E));
    Conclude(Sign(x), v, M, E, r);
  }

  // ---------- from and to integers ----------

  /** fpr_scaled: i * 2^sc, correctly rounded, or zero if it is too small. */
  method Scale(i: int, sc: int) returns (r: u64)
    requires -TWO63 < i < TWO63
    ensures i != 0 ==> Delivers(Times(i as real, P2(sc)), r)
    ensures i == 0 ==> Zero(r) && Sign(r) == 0
  {
    hide Delivers, Pack, Drop, Times, P2, Pow2, Sticky;
    var s := if i < 0 then 1 else 0;
    var S := if i < 0 then -i else i;
    ghost var k;
    r, k := Finish(s, sc, S);
    if i != 0 {
      ghost var v := Times(S as real, P2(sc));
      TimesSign(i as real, P2(sc));
      StickyExact(S);
      FinishDelivers(s, sc, S, S as real, k, v);
    }
  }

  lemma TimesSign(a: real, p: real)
    ensures Times(-a, p) == -Times(a, p)
  {
  }

  /** A number below 2^63 as a 63-bit integer shifted right. */
  lemma AsInteger(x: u64)
    requires Normal(x) && Expo(x) <= 1085
    ensures Magnitude(x) == Times((1024 * Mant(x)) as real, P2(Expo(x) - 1085))
  {
    var p := P2(Expo(x) - 1085);
    P2Add(10, Expo(x) - 1085);
    P2Nat(10);
    Pow2Values();
    assert Pow2(10) == 1024;
    hide P2, Pow2;
    TimesInt(Mant(x), p, P2(Expo(x) - 1075));
  }

  lemma TimesInt(m: int, p: real, p': real)
    requires p' == Times(1024.0, p)
    ensures Times(m as real, p') == Times((1024 * m) as real, p)
  {
  }

  /** Below 2^-1 nothing is left of a number with so small an exponent. */
  lemma TooSmallToSee(x: u64)
    requires Operand(x) && Expo(x) <= 1021
    ensures 0.0 <= Magnitude(x) < 0.5 && (Normal(x) ==> Magnitude(x) > 0.0)
  {
    if Normal(x) {
      var p := P2(Expo(x) - 1075);
      P2Mono(Expo(x) - 1075, -54);
      P2Add(54, -54);
      TwoTo55();
      NonZero(x);
      hide P2;
      HalfBound(Mant(x), p, P2(-54));
    }
  }

  lemma HalfBound(m: int, p: real, least: real)
    requires 0 < m < TWO53 && 0.0 < p <= least && Times(TWO54 as real, least) == P2(0)
    ensures Times(m as real, p) < 0.5
  {
    assert P2(0) == 1.0;
    TimesMono(m as real, TWO53 as real, p);
  }

  /** v rounds to the integer n, ties to even. */
  ghost predicate RoundsToInt(v: real, n: int) {
    var d := v - n as real;
    -0.5 <= d <= 0.5 && (d == 0.5 || d == -0.5 ==> n % 2 == 0)
  }

  const TWO61: int := 0x2000_0000_0000_0000

  /** The word of dropped bits, below the lowest kept bit. */
  lemma RintWord(m: nat, a: int, b: int, P: int, R: int)
    requires P > 0 && R > 0 && P * R == TWO63 && m == a * P + b && 0 <= b < P
    ensures (m * R) % TWO64 == (a % 2) * TWO63 + b * R && 0 <= b * R < TWO63
  {
    MulMono(b + 1, P, R);
    MulMono(0, b, R);
    assert m * R == a * (P * R) + b * R by {
      MulAssoc(a, P, R);
      assert (a * P + b) * R == (a * P) * R + b * R;
    }
    assert a * (P * R) == a * TWO63;
    var w := b * R;
    assert m * R == (a / 2) * TWO64 + ((a % 2) * TWO63 + w);
    DivUnique(m * R, TWO64, a / 2, (a % 2) * TWO63 + w);
  }

  lemma SameQuotient(b: nat, P: int, R: int)
    requires P > 0 && R > 0 && P * R == TWO63 && b * R >= 0
    ensures (b * R) / TWO61 == (4 * b) / P
    ensures (b * R) % TWO61 == 0 <==> (4 * b) % P == 0
  {
    ScaledDiv(4 * b, P, R);
    ScaledDiv(b * R, TWO61, 4);
    assert (4 * b) * R == (b * R) * 4;
  }

  lemma FourTimes(m: nat, a: int, b: int, P: int)
    requires P > 0 && m == a * P + b && 0 <= b < P
    ensures (4 * m) / P == 4 * a + (4 * b) / P && (4 * m) % P == (4 * b) % P && 0 <= (4 * b) / P < 4
  {
    var c, t := (4 * b) / P, (4 * b) % P;
    DivModEq(4 * b, P);
    assert (4 * a + c) * P == 4 * (a * P) + c * P;
    DivUnique(4 * m, P, 4 * a + c, t);
    if c >= 4 {
      MulMono(4, c, P);
      assert false;
    }
    DivNat(4 * b, P);
  }

  /** The dropped bits and the lowest kept one, shrunk to three with a sticky bit: the rounding table
      on them is the rounding of four times the quotient. */
  lemma RintTable(m: nat, e: nat)
    requires e <= 63
    ensures RoundShift(m, e) == Rounded(Drop(4 * m, e))
  {
    hide Pow2, RoundUp, Rounded, OrBit;
    PowPair(e);
    RintTableBy(m, Pow2(e), Pow2(63 - e), (m * Pow2(63 - e)) % TWO64);
  }

  /** m shifted right by e, and rounded by the table on the word of dropped bits. */
  function RoundShift(m: nat, e: nat): int
    requires e <= 63
  {
    var d := (m * Pow2(63 - e)) % TWO64;
    var f := OrBit(d / TWO61, if d % TWO61 == 0 then 0 else 1);
    m / Pow2(e) + RoundUp(f)
  }

  lemma PowPair(e: nat)
    requires e <= 63
    ensures Pow2(e) * Pow2(63 - e) == TWO63
  {
    Pow2Add(e, 63 - e);
    SixtyFour(1);
    assert Pow2(1) == 2;
  }

  lemma RintTableBy(m: nat, P: int, R: int, d: int)
    requires P > 0 && R > 0 && P * R == TWO63 && d == (m * R) % TWO64
    ensures var f := OrBit(d / TWO61, if d % TWO61 == 0 then 0 else 1);
      var q := (4 * m) / P;
      m / P + RoundUp(f) == Rounded(if (4 * m) % P == 0 || q % 2 == 1 then q else q + 1)
  {
    hide RoundUp, Rounded, OrBit;
    DivModEq(m, P);
    var a, b := m / P, m % P;
    RintWord(m, a, b, P, R);
    SameQuotient(b, P, R);
    FourTimes(m, a, b, P);
    TableSplit(a, (4 * b) / P, (4 * b) % P == 0);
    WordSplit(a % 2, b * R, d);
  }

  lemma WordSplit(bit: int, w: int, d: int)
    requires 0 <= bit <= 1 && 0 <= w < TWO63 && d == bit * TWO63 + w
    ensures d / TWO61 == 4 * bit + w / TWO61 && d % TWO61 == w % TWO61
  {
  }

  lemma TableSplit(a: int, c: int, exact: bool)
    requires 0 <= c < 4
    ensures var z := if exact || (4 * a + c) % 2 == 1 then 4 * a + c else 4 * a + c + 1;
      Rounded(z) == a + RoundUp(OrBit(4 * (a % 2) + c, if exact then 0 else 1))
  {
    var c' := if exact || c % 2 == 1 then c else c + 1;
    DivUnique(4 * a + c, 2, 2 * a + c / 2, c % 2);
    DivUnique(4 * (a % 2) + c, 2, 2 * (a % 2) + c / 2, c % 2);
    assert OrBit(4 * (a % 2) + c, if exact then 0 else 1) == 4 * (a % 2) + c';
    hide OrBit;
    LowBits(a, c');
  }

  lemma LowBits(a: int, c: int)
    requires 0 <= c < 4
    ensures (4 * a + c) / 4 == a && (4 * a + c) % 8 == 4 * (a % 2) + c
    ensures RoundUp(4 * a + c) == RoundUp(4 * (a % 2) + c)
  {
    var h := a / 2;
    assert 4 * a + c == h * 8 + (4 * (a % 2) + c);
    DivUnique(4 * a + c, 8, h, 4 * (a % 2) + c);
    DivUnique(4 * (a % 2) + c, 8, 0, 4 * (a % 2) + c);
    DivUnique(4 * a + c, 4, a, c);
  }

  /** fpr_rint: the nearest integer, ties to even, for numbers below 2^63. */
  method Rint(x: u64) returns (n: int)
    requires Operand(x) && Expo(x) <= 1085
    ensures RoundsToInt(Value(x), n)
  {
    hide P2, Times, Pow2, Drop, Sticky, RoundShift, Rounded, RoundsToInt, Magnitude;
    var m := 1024 * Mant(x);
    var e := 1085 - Expo(x);
    FieldRanges(x);
    if e >= 64 {
      m := 0;
    }
    ghost var e0 := e;
    e := e % 64;
    var mag := RoundShift(m, e);
    RintTable(m, e);
    if e0 < 64 {
      RintRounds(x, m, e, mag);
    } else {
      RintNothing(e);
      TooSmallToSee(x);
      RoundsToZero(Magnitude(x));
    }
    RoundsNegated(Magnitude(x), mag);
    n := if Sign(x) == 1 then -mag else mag;
  }

  lemma RoundsToZero(v: real)
    requires 0.0 <= v < 0.5
    ensures RoundsToInt(v, 0)
  {
  }

  lemma RoundsNegated(v: real, n: int)
    requires RoundsToInt(v, n)
    ensures RoundsToInt(-v, -n)
  {
  }

  lemma RintNothing(e: nat)
    ensures Rounded(Drop(0, e)) == 0
  {
    DivUnique(0, Pow2(e), 0, 0);
  }

  lemma RintRounds(x: u64, m: int, e: int, mag: int)
    requires Normal(x) && Expo(x) <= 1085 && m == 1024 * Mant(x) && e == 1085 - Expo(x) && 0 <= e
    requires m >= 0 && mag == Rounded(Drop(4 * m, e))
    ensures RoundsToInt(Magnitude(x), mag)
  {
    hide P2, Times, Pow2, Drop, Sticky, Magnitude, Rounded, Mant;
    AsInteger(x);
    StickyExact(4 * m);
    DropSticky(4 * m, (4 * m) as real, e);
    DivideIsTimes((4 * m) as real, e);
    var w := Times((4 * m) as real, P2(0 - e));
    RoundSticky(Drop(4 * m, e), w);
    FourMagnitudes(m, P2(0 - e));
  }

  lemma FourMagnitudes(m: int, p: real)
    ensures Times((4 * m) as real, p) == 4.0 * Times(m as real, p)
  {
  }

  /** fpr_trunc: the integer part, towards zero. */
  method Trunc(x: u64) returns (n: int)
    requires Operand(x) && Expo(x) <= 1085
    ensures Value(x) >= 0.0 ==> n as real <= Value(x) < (n + 1) as real
    ensures Value(x) <= 0.0 ==> (n - 1) as real < Value(x) <= n as real
  {
    hide P2, Times, Pow2, Mant, Magnitude;
    FieldRanges(x);
    var cc := 1085 - Expo(x);
    var xu := 1024 * Mant(x) / Pow2(cc % 64);
    if cc < 64 {
      NonZero(x);
      IntegerPart(x, 1024 * Mant(x), cc);
    } else {
      TooSmallToSee(x);
      xu := 0;
    }
    n := if Sign(x) == 1 then -xu else xu;
  }

  lemma IntegerPart(x: u64, m: int, cc: nat)
    requires Normal(x) && Expo(x) <= 1085 && m == 1024 * Mant(x) && cc == 1085 - Expo(x)
    ensures (m / Pow2(cc)) as real <= Magnitude(x) < (m / Pow2(cc) + 1) as real
    ensures m % Pow2(cc) == 0 <==> Magnitude(x) == (m / Pow2(cc)) as real
  {
    hide P2, Times, Pow2, Mant, Magnitude;
    AsInteger(x);
    DivideIsTimes(m as real, cc);
    DivModEq(m, Pow2(cc));
    QuotientPart(m, Pow2(cc), m / Pow2(cc), m % Pow2(cc), Magnitude(x));
  }

  lemma QuotientPart(m: int, p: int, q: int, t: int, v: real)
    requires p > 0 && m == q * p + t && 0 <= t < p && v == m as real / p as real
    ensures q as real <= v < (q + 1) as real
    ensures t == 0 <==> v == q as real
  {
    var y := p as real;
    RealProduct(q, p);
    assert v * y == m as real;
    assert (v - q as real) * y == t as real;
  }

  /** fpr_floor: the integer part towards minus infinity, for every operand but negative zero, which
      gives -1. */
  method Floor(x: u64) returns (n: int)
    requires Operand(x) && Expo(x) <= 1085
    ensures n as real <= Value(x) < (n + 1) as real <==> !(Zero(x) && Sign(x) == 1)
    ensures Zero(x) && Sign(x) == 1 ==> n == -1
  {
    hide P2, Times, Pow2, Mant;
    FieldRanges(x);
    var cc := 1085 - Expo(x);
    var xi := if Sign(x) == 1 then -(1024 * Mant(x)) else 1024 * Mant(x);
    n := xi / Pow2(cc % 64);
    if cc < 64 {
      NonZero(x);
      IntegerPart(x, 1024 * Mant(x), cc);
      FloorNegative(1024 * Mant(x), Pow2(cc));
    } else {
      TooSmallToSee(x);
      n := if Sign(x) == 1 then -1 else 0;
    }
  }

  lemma FloorNegative(m: int, p: int)
    requires p > 0
    ensures (-m) / p == if m % p == 0 then -(m / p) else -(m / p) - 1
  {
    var q, t := m / p, m % p;
    DivModEq(m, p);
    if t == 0 {
      assert -m == (-q) * p;
      DivUnique(-m, p, -q, 0);
    } else {
      assert -m == (-q - 1) * p + (p - t);
      DivUnique(-m, p, -q - 1, p - t);
    }
  }
}
