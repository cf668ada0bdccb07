/** Numbers as sequences of digits, most significant first. */
module Radix {
  import Bits

  function Pow(b: nat, e: nat): nat {
    if e == 0 then 1 else b * Pow(b, e - 1)
  }

  ghost predicate IsDigits(s: seq<int>, base: int) {
    forall i :: 0 <= i < |s| ==> 0 <= s[i] < base
  }

  function Val(s: seq<int>, base: int): int {
    if s == [] then 0 else Val(s[..|s| - 1], base) * base + s[|s| - 1]
  }

  /** The digits of v without leading zeros; none for zero. */
  function ToDigits(v: nat, base: nat): (s: seq<int>)
    requires base >= 2
    ensures IsDigits(s, base)
    ensures s != [] ==> s[0] != 0
    ensures s == [] <==> v == 0
  {
    if v == 0 then [] else
      Shrinks(v, base);
      ToDigits(v / base, base) + [v % base]
  }

  lemma Shrinks(v: nat, base: nat)
    requires v > 0 && base >= 2
    ensures 0 <= v / base < v && 0 <= v % base < base
    ensures v / base == 0 ==> v % base == v
  {
    Bits.DivModEq(v, base);
    var q := v / base;
    if q >= v { Bits.MulMono(v, q, base); Bits.MulMono(2, base, v); assert false; }
    if q < 0 { Bits.MulMono(q, -1, base); assert false; }
  }

  function Zeros(n: nat): (s: seq<int>)
    ensures |s| == n && forall i :: 0 <= i < n ==> s[i] == 0
  {
    seq(n, _ => 0)
  }

  function LeadingZeros(s: seq<int>): (n: nat)
    ensures n <= |s| && s[..n] == Zeros(n) && (n < |s| ==> s[n] != 0)
  {
    if s == [] || s[0] != 0 then 0 else 1 + LeadingZeros(s[1..])
  }

  lemma {:induction false} ValOfDigits(v: nat, base: nat)
    requires base >= 2
    ensures Val(ToDigits(v, base), base) == v
  {
    if v == 0 {
    } else {
      Shrinks(v, base);
      ValOfDigits(v / base, base);
      Bits.DivModEq(v, base);
      var s := ToDigits(v, base);
      assert s[..|s| - 1] == ToDigits(v / base, base);
    }
  }

  lemma {:induction false} ValNonNeg(s: seq<int>, base: nat)
    requires IsDigits(s, base)
    ensures Val(s, base) >= 0
  {
    if s == [] {
    } else {
      ValNonNeg(s[..|s| - 1], base);
    }
  }

  /** A sequence that does not begin with zero is the digits of its value. */
  lemma {:induction false} DigitsOfVal(s: seq<int>, base: nat)
    requires base >= 2 && IsDigits(s, base) && (s != [] ==> s[0] != 0)
    ensures Val(s, base) >= 0 && ToDigits(Val(s, base), base) == s
  {
    if s == [] {
    } else {
      var init, d := s[..|s| - 1], s[|s| - 1];
      DigitsOfVal(init, base);
      var q := Val(init, base);
      Bits.DivUnique(q * base + d, base, q, d);
      if init == [] {
        assert s == [d];
      } else {
        assert q > 0;
      }
      assert s == init + [d];
    }
  }

  lemma {:induction false} ValZeros(n: nat, s: seq<int>, base: nat)
    ensures Val(Zeros(n) + s, base) == Val(s, base)
    decreases n + |s|
  {
    if s != [] {
      assert (Zeros(n) + s)[..n + |s| - 1] == Zeros(n) + s[..|s| - 1];
      ValZeros(n, s[..|s| - 1], base);
    } else if n > 0 {
      assert Zeros(n) + s == Zeros(n - 1) + [0];
      assert (Zeros(n - 1) + [0])[..n - 1] == Zeros(n - 1) + [];
      ValZeros(n - 1, [], base);
    }
  }

  /** Every sequence of digits is its leading zeros and then the digits of its value. */
  lemma Canonical(s: seq<int>, base: nat)
    requires base >= 2 && IsDigits(s, base)
    ensures Val(s, base) >= 0
    ensures s == Zeros(LeadingZeros(s)) + ToDigits(Val(s, base), base)
  {
    var n := LeadingZeros(s);
    assert s == Zeros(n) + s[n..];
    ValZeros(n, s[n..], base);
    DigitsOfVal(s[n..], base);
  }

  lemma {:induction false} ZerosThenDigits(n: nat, s: seq<int>)
    requires s != [] ==> s[0] != 0
    ensures LeadingZeros(Zeros(n) + s) == n
  {
    if n > 0 {
      assert (Zeros(n) + s)[1..] == Zeros(n - 1) + s;
      ZerosThenDigits(n - 1, s);
    } else {
      assert Zeros(0) + s == s;
    }
  }

  lemma {:induction false} ValCons(d: int, s: seq<int>, base: nat)
    ensures Val([d] + s, base) == d * Pow(base, |s|) + Val(s, base)
    decreases |s|
  {
    if s == [] {
      assert [d] + s == [d];
      assert Val([d], base) == d;
    } else {
      var init, e := s[..|s| - 1], s[|s| - 1];
      assert ([d] + s)[..|s|] == [d] + init;
      ValCons(d, init, base);
      calc {
        Val([d] + s, base);
        (d * Pow(base, |init|) + Val(init, base)) * base + e;
        { Spread(d, Pow(base, |init|), base, Val(init, base)); }
        d * Pow(base, |s|) + (Val(init, base) * base + e);
      }
    }
  }

  lemma Spread(d: int, p: int, base: int, v: int)
    ensures (d * p + v) * base == d * (base * p) + v * base
  {
  }

  lemma {:induction false} ValBound(s: seq<int>, base: nat)
    requires IsDigits(s, base)
    ensures Val(s, base) < Pow(base, |s|)
  {
    if s == [] {
    } else {
      ValBound(s[..|s| - 1], base);
      Bits.MulMono(Val(s[..|s| - 1], base) + 1, Pow(base, |s| - 1), base);
    }
  }

  // ---------- powers ----------

  lemma {:induction false} PowAdd(b: nat, m: nat, n: nat)
    ensures Pow(b, m + n) == Pow(b, m) * Pow(b, n)
  {
    if m == 0 {
    } else {
      PowAdd(b, m - 1, n);
      MulAssoc(b, Pow(b, m - 1), Pow(b, n));
    }
  }

  lemma MulAssoc(a: int, b: int, c: int)
    ensures a * (b * c) == (a * b) * c
  {
  }

  lemma {:induction false} PowPositive(b: nat, e: nat)
    requires b > 0
    ensures Pow(b, e) > 0
  {
    if e == 0 {
    } else {
      PowPositive(b, e - 1);
    }
  }

  lemma {:induction false} PowMul(b: nat, m: nat, n: nat)
    ensures Pow(b, m * n) == Pow(Pow(b, m), n)
    decreases n
  {
    if n == 0 {
    } else {
      PowMul(b, m, n - 1);
      assert m * n == m + m * (n - 1);
      PowAdd(b, m, m * (n - 1));
    }
  }

  lemma {:induction false} PowMonoBase(x: nat, y: nat, e: nat)
    requires x <= y
    ensures Pow(x, e) <= Pow(y, e)
  {
    if e == 0 {
    } else {
      PowMonoBase(x, y, e - 1);
      Bits.MulMono(Pow(x, e - 1), Pow(y, e - 1), x);
      Bits.MulMono(x, y, Pow(y, e - 1));
    }
  }

  lemma {:induction false} PowMonoExp(b: nat, m: nat, n: nat)
    requires b > 0 && m <= n
    ensures Pow(b, m) <= Pow(b, n)
  {
    PowAdd(b, m, n - m);
    PowPositive(b, n - m);
    PowPositive(b, m);
    Bits.MulMono(1, Pow(b, n - m), Pow(b, m));
  }

  lemma {:induction false} PowStrict(x: nat, y: nat, e: nat)
    requires x < y && e > 0
    ensures Pow(x, e) < Pow(y, e)
    decreases e
  {
    if e == 1 {
      assert Pow(x, 1) == x && Pow(y, 1) == y;
    } else {
      PowStrict(x, y, e - 1);
      Bits.MulMono(Pow(x, e - 1), Pow(y, e - 1), x);
      Bits.MulMono(x + 1, y, Pow(y, e - 1));
    }
  }

  lemma PowSwap(a: nat, n: nat, k: nat)
    ensures Pow(Pow(a, n), k) == Pow(Pow(a, k), n)
  {
    hide Pow;
    PowMul(a, n, k);
    PowMul(a, k, n);
    assert n * k == k * n;
  }

  lemma PowPowMono(b: nat, j: nat, n: nat, s: nat, k: nat)
    requires b > 0 && j * n <= s * k
    ensures Pow(Pow(b, j), n) <= Pow(Pow(b, s), k)
  {
    hide Pow;
    PowMul(b, j, n);
    PowMul(b, s, k);
    PowMonoExp(b, j * n, s * k);
  }

  /** If a^k <= b^j and n*j <= s*k, then a^n <= b^s. */
  lemma PowCompare(a: nat, b: nat, k: nat, j: nat, n: nat, s: nat)
    requires b > 0 && k > 0 && Pow(a, k) <= Pow(b, j) && j * n <= s * k
    ensures Pow(a, n) <= Pow(b, s)
  {
    hide Pow;
    if Pow(a, n) > Pow(b, s) {
      PowStrict(Pow(b, s), Pow(a, n), k);
      PowSwap(a, n, k);
      PowMonoBase(Pow(a, k), Pow(b, j), n);
      PowPowMono(b, j, n, s, k);
      assert false;
    }
  }

  lemma Product(b: nat, m: nat, n: nat, x: int, y: int, z: int)
    requires Pow(b, m) == x && Pow(b, n) == y && z == x * y
    ensures Pow(b, m + n) == z
  {
    hide Pow;
    PowAdd(b, m, n);
  }

  /** Upper bounds of powers of 58, in units of powers of 256, multiply. */
  lemma BoundProduct(m: nat, n: nat, i: nat, j: nat, x: nat, y: nat)
    requires Pow(58, m) <= x * Pow(256, i) && Pow(58, n) <= y * Pow(256, j)
    ensures Pow(58, m + n) <= x * y * Pow(256, i + j)
  {
    hide Pow;
    PowAdd(58, m, n);
    PowAdd(256, i, j);
    ProductMono(Pow(58, m), Pow(58, n), x, Pow(256, i), y, Pow(256, j));
  }

  lemma ProductMono(a: nat, b: nat, x: nat, p: nat, y: nat, q: nat)
    requires a <= x * p && b <= y * q
    ensures a * b <= x * y * (p * q)
  {
    Bits.MulMono(a, x * p, b);
    Bits.MulMono(b, y * q, x * p);
    assert (x * p) * (y * q) == x * y * (p * q);
  }

  lemma Power58()
    ensures Pow(58, 71) <= Pow(256, 52)
  {
    assert Pow(58, 7) == 2207984167552 && Pow(256, 4) == 4294967296 && Pow(256, 0) == 1;
    Product(58, 7, 1, 2207984167552, 58, 128063081718016);
    hide Pow;
    BoundProduct(8, 8, 4, 4, 29818, 29818);
    BoundProduct(16, 16, 8, 8, 889113124, 889113124);
    BoundProduct(32, 32, 16, 16, 790522147269039376, 790522147269039376);
    BoundProduct(64, 7, 32, 0, 624925265322852779358502729838469376, 2207984167552);
    Power256();
    PowAdd(256, 20, 32);
    Bits.MulMono(1379825091736091826553733178515512356593204887552, Pow(256, 20), Pow(256, 32));
  }

  lemma Power256()
    ensures Pow(256, 8) == 18446744073709551616
    ensures Pow(256, 20) == 1461501637330902918203684832716283019655932542976
  {
    assert Pow(256, 4) == 4294967296;
    Product(256, 4, 4, 4294967296, 4294967296, 18446744073709551616);
    Product(256, 8, 8, 18446744073709551616, 18446744073709551616, 340282366920938463463374607431768211456);
    Product(256, 16, 4, 340282366920938463463374607431768211456, 4294967296,
            1461501637330902918203684832716283019655932542976);
  }

  lemma Power58Small()
    ensures Pow(58, 11) == 24986644000165537792
  {
    assert Pow(58, 7) == 2207984167552;
    assert Pow(58, 4) == 11316496;
    Product(58, 7, 4, 2207984167552, 11316496, 24986644000165537792);
  }

  /** The buffer the decoder allocates holds every number of that many base-58 digits. */
  lemma DecodeRoom(n: nat)
    ensures Pow(58, n) <= Pow(256, n * 733 / 1000 + 1)
  {
    hide Pow;
    Power58();
    PowCompare(58, 256, 71, 52, n, n * 733 / 1000 + 1);
  }

  /** The buffer the encoder allocates holds every number of that many bytes. */
  lemma EncodeRoom(n: nat)
    ensures Pow(256, n) <= Pow(58, n * 138 / 100 + 1)
  {
    hide Pow;
    Power256();
    Power58Small();
    PowCompare(256, 58, 8, 11, n, n * 138 / 100 + 1);
  }
}

/** EncodeBase58 and DecodeBase58 of src/base58.cpp. */
module Base58 {
  import opened Radix
  import Bits

  /** The digits and letters but for 0, I, O and l. */
  const ALPHABET: string :=
    "123456789" + "ABCDEFGH" + "JKLMN" + "PQRSTUVWXYZ" + "abcdefghijk" + "mnopqrstuvwxyz"

  // ---------- characters ----------

  /** The same table, range by range. */
  function CharOf(d: int): char
    requires 0 <= d < 58
  {
    if d < 9 then ('1' as int + d) as char
    else if d < 17 then ('A' as int + (d - 9)) as char
    else if d < 22 then ('J' as int + (d - 17)) as char
    else if d < 33 then ('P' as int + (d - 22)) as char
    else if d < 44 then ('a' as int + (d - 33)) as char
    else ('m' as int + (d - 44)) as char
  }

  /** Where a character is in the alphabet; -1 if it is not. */
  function DigitOf(c: char): (d: int)
    ensures -1 <= d < 58
  {
    var x := c as int;
    if '1' <= c <= '9' then x - '1' as int
    else if 'A' <= c <= 'H' then x - 'A' as int + 9
    else if 'J' <= c <= 'N' then x - 'J' as int + 17
    else if 'P' <= c <= 'Z' then x - 'P' as int + 22
    else if 'a' <= c <= 'k' then x - 'a' as int + 33
    else if 'm' <= c <= 'z' then x - 'm' as int + 44
    else -1
  }

  lemma AlphabetIs(d: nat)
    requires d < 58
    ensures |ALPHABET| == 58 && ALPHABET[d] == CharOf(d)
  {
  }

  lemma DigitOfChar(d: int)
    requires 0 <= d < 58
    ensures DigitOf(CharOf(d)) == d && !IsSpace(CharOf(d))
  {
  }

  lemma CharOfDigit(c: char)
    requires DigitOf(c) >= 0
    ensures CharOf(DigitOf(c)) == c && !IsSpace(c)
  {
  }

  /** strchr finds a character exactly at its own place. */
  lemma StrChr(c: char, d: nat)
    requires d < 58
    ensures |ALPHABET| == 58 && (ALPHABET[d] == c <==> DigitOf(c) == d)
  {
    AlphabetIs(d);
    DigitOfChar(d);
    if DigitOf(c) == d { CharOfDigit(c); }
  }

  /** isspace in the C locale. */
  predicate IsSpace(c: char) {
    c as int == 32 || 9 <= c as int <= 13
  }

  // ---------- the two conversions ----------

  /** Leading zeros stay as they are; the rest is the same number in the other base. */
  function Recode(ds: seq<int>, from: nat, to: nat): seq<int>
    requires to >= 2
  {
    Zeros(LeadingZeros(ds)) + ToDigits(if Val(ds, from) >= 0 then Val(ds, from) else 0, to)
  }

  /** Recoding there and back changes nothing: this is where both round trips come from. */
  lemma RecodeInverse(ds: seq<int>, a: nat, b: nat)
    requires a >= 2 && b >= 2 && IsDigits(ds, a)
    ensures IsDigits(Recode(ds, a, b), b)
    ensures Recode(Recode(ds, a, b), b, a) == ds
  {
    hide Val, LeadingZeros, ToDigits;
    Canonical(ds, a);
    var n, v := LeadingZeros(ds), Val(ds, a);
    ZerosThenDigits(n, ToDigits(v, b));
    ValZeros(n, ToDigits(v, b), b);
    ValOfDigits(v, b);
  }

  function Chars(ds: seq<int>): (s: string)
    ensures |s| == |ds|
  {
    seq(|ds|, i requires 0 <= i < |ds| => if 0 <= ds[i] < 58 then CharOf(ds[i]) else '?')
  }

  function Digits(s: string): (ds: seq<int>)
    ensures |ds| == |s|
  {
    seq(|s|, i requires 0 <= i < |s| => DigitOf(s[i]))
  }

  ghost predicate AllBase58(s: string) {
    forall i :: 0 <= i < |s| ==> DigitOf(s[i]) >= 0
  }

  function Encoded(vch: seq<int>): string {
    Chars(Recode(vch, 256, 58))
  }

  /** The text from the first character that is not a space up to the next space. */
  function Core(s: string): string {
    Word(SkipSpaces(s))
  }

  function SkipSpaces(s: string): string {
    if s == [] || !IsSpace(s[0]) then s else SkipSpaces(s[1..])
  }

  function Word(s: string): (w: string)
    ensures w <= s && (forall i :: 0 <= i < |w| ==> !IsSpace(w[i])) && (|w| < |s| ==> IsSpace(s[|w|]))
  {
    if s == [] || IsSpace(s[0]) then [] else [s[0]] + Word(s[1..])
  }

  function After(s: string): string {
    SkipSpaces(s)[|Core(s)|..]
  }

  ghost predicate AllSpaces(s: string) {
    forall i :: 0 <= i < |s| ==> IsSpace(s[i])
  }

  /** A text is accepted if, but for spaces around it, it is all base 58. */
  ghost predicate Accepts(s: string) {
    AllBase58(Core(s)) && AllSpaces(After(s))
  }

  function Decoded(s: string): seq<int> {
    Recode(Digits(Core(s)), 58, 256)
  }

  lemma DigitsOfChars(ds: seq<int>)
    requires IsDigits(ds, 58)
    ensures AllBase58(Chars(ds)) && Digits(Chars(ds)) == ds
  {
    hide CharOf, DigitOf;
    forall i | 0 <= i < |ds| ensures DigitOf(Chars(ds)[i]) == ds[i] { DigitOfChar(ds[i]); }
  }

  lemma CharsOfDigits(s: string)
    requires AllBase58(s)
    ensures IsDigits(Digits(s), 58) && Chars(Digits(s)) == s
  {
    hide CharOf, DigitOf;
    forall i | 0 <= i < |s| ensures 0 <= DigitOf(s[i]) < 58 && Chars(Digits(s))[i] == s[i] { CharOfDigit(s[i]); }
  }

  lemma {:induction false} WordOfAll(s: string)
    requires forall i :: 0 <= i < |s| ==> !IsSpace(s[i])
    ensures Word(s) == s
  {
    if s == [] {
    } else {
      WordOfAll(s[1..]);
    }
  }

  lemma CoreOfBase58(s: string)
    requires AllBase58(s)
    ensures Core(s) == s && After(s) == []
  {
    hide CharOf, DigitOf;
    forall i | 0 <= i < |s| ensures !IsSpace(s[i]) { CharOfDigit(s[i]); }
    WordOfAll(s);
  }

  ghost predicate Padded(s: string, before: string, text: string, after: string) {
    s == before + text + after && AllSpaces(before) && AllBase58(text) && AllSpaces(after)
  }

  /** Accepted are exactly the base-58 texts with any spaces before and after them, and it is such a text
      that is decoded. */
  lemma AcceptsIff(s: string)
    ensures Accepts(s) <==> exists before, text, after :: Padded(s, before, text, after)
    ensures forall before, text, after :: Padded(s, before, text, after) ==> Core(s) == text
  {
    hide Core, After, AllBase58, DigitOf;
    if Accepts(s) {
      var before := CoreInside(s);
      assert Padded(s, before, Core(s), After(s));
    }
    forall before, text, after | Padded(s, before, text, after)
      ensures Core(s) == text && AllSpaces(After(s))
    {
      CoreOfPadded(before, text, after);
    }
  }

  lemma CoreInside(s: string) returns (before: string)
    ensures AllSpaces(before) && s == before + Core(s) + After(s)
  {
    before := SkippedSpaces(s);
  }

  lemma {:induction false} SkippedSpaces(s: string) returns (before: string)
    ensures AllSpaces(before) && s == before + SkipSpaces(s)
  {
    if s == [] || !IsSpace(s[0]) {
      before := [];
    } else {
      before := SkippedSpaces(s[1..]);
      before := [s[0]] + before;
    }
  }

  lemma {:induction false} CoreOfPadded(before: string, text: string, after: string)
    requires AllSpaces(before) && AllBase58(text) && AllSpaces(after)
    ensures Core(before + text + after) == text && AllSpaces(After(before + text + after))
  {
    hide DigitOf, CharOf;
    var s := before + text + after;
    if before == [] {
      forall i | 0 <= i < |text| ensures !IsSpace(text[i]) { CharOfDigit(text[i]); }
      assert s == text + after;
      if text == [] {
        assert s == after;
        SkipAll(after);
      } else {
        assert SkipSpaces(s) == s;
        WordBefore(text, after);
        assert s[|text|..] == after;
      }
    } else {
      assert s[1..] == before[1..] + text + after;
      CoreOfPadded(before[1..], text, after);
    }
  }

  lemma {:induction false} SkipAll(s: string)
    requires AllSpaces(s)
    ensures SkipSpaces(s) == []
  {
    if s == [] {
    } else {
      SkipAll(s[1..]);
    }
  }

  lemma {:induction false} WordBefore(text: string, after: string)
    requires AllSpaces(after) && forall i :: 0 <= i < |text| ==> !IsSpace(text[i])
    ensures Word(text + after) == text
  {
    if text == [] {
      assert text + after == after;
    } else {
      assert (text + after)[1..] == text[1..] + after;
      WordBefore(text[1..], after);
    }
  }

  /** Decoding what was encoded gives back the bytes, for all byte strings. */
  lemma EncodeDecode(vch: seq<int>)
    requires IsDigits(vch, 256)
    ensures Accepts(Encoded(vch)) && Decoded(Encoded(vch)) == vch
  {
    hide Recode, Core, After, Chars, Digits;
    RecodeInverse(vch, 256, 58);
    DigitsOfChars(Recode(vch, 256, 58));
    CoreOfBase58(Encoded(vch));
  }

  /** Encoding what was decoded gives back the text without the spaces around it, for all texts
      that are accepted. */
  lemma DecodeEncode(s: string)
    requires Accepts(s)
    ensures IsDigits(Decoded(s), 256) && Encoded(Decoded(s)) == Core(s)
  {
    hide Recode, Core, After, Chars, Digits, IsDigits;
    CharsOfDigits(Core(s));
    RecodeInverse(Digits(Core(s)), 58, 256);
  }

  // ---------- the digit buffer ----------

  ghost predicate Buffer(b: seq<int>, base: nat, length: nat) {
    && IsDigits(b, base)
    && length <= |b|
    && forall k :: 0 <= k < |b| - length ==> b[k] == 0
  }

  /** b = b * factor + c, from the last digit up; it stops above `length` once nothing is carried.
      The carry that is left at the end is zero whenever the result has room. */
  method MulAdd(b: array<int>, base: nat, factor: nat, c: nat, length: nat) returns (i: nat)
    requires base >= 2 && Buffer(b[..], base, length)
    requires Val(b[..], base) * factor + c < Pow(base, b.Length)
    modifies b
    ensures Buffer(b[..], base, i)
    ensures Val(b[..], base) == old(Val(b[..], base)) * factor + c
  {
    hide Val, Pow, Low;
    ghost var was := b[..];
    var carry := c;
    i := 0;
    LowNone(was, base, factor, c);
    while (carry != 0 || i < length) && i < b.Length
      invariant 0 <= i <= b.Length && carry >= 0
      invariant IsDigits(b[..], base)
      invariant b[..b.Length - i] == was[..b.Length - i]
      invariant Low(b[..], was, base, factor, c, i, carry)
      decreases b.Length - i
    {
      var k := b.Length - 1 - i;
      ghost var before := b[..];
      assert was[k] == b[k];
      var t := carry + factor * b[k];
      NatDivMod(carry, factor, b[k], base);
      b[k] := t % base;
      LowStep(before, b[..], was, base, factor, c, i, carry);
      carry := t / base;
      i := i + 1;
    }
    LowDone(b[..], was, base, factor, c, i, carry, length);
    assert carry == 0;
  }

  lemma NatDivMod(carry: int, factor: int, d: int, base: int)
    requires carry >= 0 && factor >= 0 && d >= 0 && base > 0
    ensures (carry + factor * d) / base >= 0 && 0 <= (carry + factor * d) % base < base
  {
    Bits.MulMono(0, d, factor);
    var t := carry + factor * d;
    Bits.DivModEq(t, base);
    if t / base < 0 {
      Bits.MulMono(t / base, -1, base);
      assert false;
    }
  }

  /** The lowest i digits and the carry above them make the old lowest i digits times factor, plus c. */
  ghost predicate Low(b: seq<int>, was: seq<int>, base: nat, factor: nat, c: nat, i: nat, carry: int) {
    && |b| == |was| >= i
    && Val(b[|b| - i..], base) + carry * Pow(base, i) == Val(was[|b| - i..], base) * factor + c
  }

  lemma LowNone(b: seq<int>, base: nat, factor: nat, c: nat)
    ensures Low(b, b, base, factor, c, 0, c)
  {
  }

  lemma LowStep(b: seq<int>, b': seq<int>, was: seq<int>, base: nat, factor: nat, c: nat, i: nat, carry: int)
    requires base >= 2 && Low(b, was, base, factor, c, i, carry) && i < |b|
    requires var k := |b| - 1 - i; b[k] == was[k] && b' == b[k := (carry + factor * b[k]) % base]
    ensures Low(b', was, base, factor, c, i + 1, (carry + factor * b[|b| - 1 - i]) / base)
  {
    hide Val;
    var k := |b| - 1 - i;
    var t := carry + factor * b[k];
    var q, r, p := t / base, t % base, Pow(base, i);
    Bits.DivModEq(t, base);
    assert b'[k..] == [r] + b[k + 1..] && was[k..] == [was[k]] + was[k + 1..];
    ValCons(r, b[k + 1..], base);
    ValCons(was[k], was[k + 1..], base);
    StepSum(r, p, q, base, t, carry, factor, was[k], Val(b[k + 1..], base), Val(was[k + 1..], base), c);
  }

  lemma StepSum(r: int, p: int, q: int, base: int, t: int, carry: int, factor: int, d: int, v: int, w: int, c: int)
    requires t == q * base + r && t == carry + factor * d && v + carry * p == w * factor + c
    ensures (r * p + v) + q * (base * p) == (d * p + w) * factor + c
  {
    assert r * p + q * (base * p) == t * p;
    assert t * p == carry * p + (factor * d) * p;
    assert (d * p + w) * factor == (factor * d) * p + w * factor;
  }

  lemma LowDone(b: seq<int>, was: seq<int>, base: nat, factor: nat, c: nat, i: nat, carry: int, length: nat)
    requires base >= 2 && IsDigits(b, base) && Buffer(was, base, length) && Low(b, was, base, factor, c, i, carry)
    requires b[..|b| - i] == was[..|b| - i]
    requires i == |b| || (carry == 0 && i >= length)
    requires carry >= 0 && Val(was, base) * factor + c < Pow(base, |b|)
    ensures carry == 0 && Buffer(b, base, i) && Val(b, base) == Val(was, base) * factor + c
  {
    hide Val, Pow;
    var n := |b| - i;
    if i == |b| {
      assert b[0..] == b && was[0..] == was;
      ValNonNeg(b, base);
      if carry > 0 {
        Bits.MulMono(1, carry, Pow(base, |b|));
        assert false;
      }
    } else {
      forall k | 0 <= k < n ensures b[k] == 0 && was[k] == 0 {
        assert b[..n][k] == was[..n][k];
      }
      assert b == Zeros(n) + b[n..] && was == Zeros(n) + was[n..];
      ValZeros(n, b[n..], base);
      ValZeros(n, was[n..], base);
    }
  }

  /** The digits after the leading zeros are those of the value. */
  method Strip(b: array<int>, base: nat, length: nat) returns (ds: seq<int>)
    requires base >= 2 && Buffer(b[..], base, length)
    ensures Val(b[..], base) >= 0 && ds == ToDigits(Val(b[..], base), base)
  {
    var it := b.Length - length;
    while it < b.Length && b[it] == 0
      invariant b.Length - length <= it <= b.Length
      invariant forall k :: 0 <= k < it ==> b[k] == 0
    {
      it := it + 1;
    }
    ds := b[it..];
    assert b[..] == Zeros(it) + ds;
    ValZeros(it, ds, base);
    DigitsOfVal(ds, base);
  }

  // ---------- encoding ----------

  method EncodeBase58(vch: seq<int>) returns (str: string)
    requires IsDigits(vch, 256)
    ensures str == Encoded(vch)
  {
    hide Val, ToDigits, Chars, Buffer, LeadingZeros;
    var zeroes := 0;
    while zeroes < |vch| && vch[zeroes] == 0
      invariant 0 <= zeroes <= |vch| && forall k :: 0 <= k < zeroes ==> vch[k] == 0
    {
      zeroes := zeroes + 1;
    }
    ghost var rest := vch[zeroes..];
    assert vch == Zeros(zeroes) + rest;
    ZerosThenDigits(zeroes, rest);
    ValZeros(zeroes, rest, 256);

    var size := (|vch| - zeroes) * 138 / 100 + 1;
    var b58 := new int[size](_ => 0);
    var length := EncodeBytes(b58, vch, zeroes);
    var ds := Strip(b58, 58, length);
    str := Chars(Zeros(zeroes)) + Chars(ds);
    CharsAppend(Zeros(zeroes), ds);
  }

  lemma CharsAppend(a: seq<int>, b: seq<int>)
    ensures Chars(a + b) == Chars(a) + Chars(b)
  {
    hide CharOf;
  }

  method EncodeBytes(b58: array<int>, vch: seq<int>, from: nat) returns (length: nat)
    requires IsDigits(vch, 256) && from <= |vch| && b58.Length == (|vch| - from) * 138 / 100 + 1
    requires forall k :: 0 <= k < b58.Length ==> b58[k] == 0
    modifies b58
    ensures Buffer(b58[..], 58, length) && Val(b58[..], 58) == Val(vch[from..], 256)
  {
    hide Val, Pow;
    length := 0;
    assert b58[..] == Zeros(b58.Length) + [];
    ValZeros(b58.Length, [], 58);
    ValEmpty(58);
    ValEmpty(256);
    assert vch[from..from] == [];
    var i := from;
    while i < |vch|
      invariant from <= i <= |vch|
      invariant Buffer(b58[..], 58, length) && Val(b58[..], 58) == Val(vch[from..i], 256)
    {
      Fits(vch[from..i], vch[i], 256, 58, |vch| - from, b58.Length);
      assert vch[from..i] + [vch[i]] == vch[from..i + 1];
      length := MulAdd(b58, 58, 256, vch[i], length);
      i := i + 1;
    }
    assert vch[from..i] == vch[from..];
  }

  lemma ValEmpty(base: nat)
    ensures Val([], base) == 0
  {
  }

  /** One more digit, and the room there is for it in a buffer for n digits. */
  lemma Fits(s: seq<int>, d: int, from: nat, to: nat, n: nat, size: nat)
    requires |s| < n && IsDigits(s, from) && 0 <= d < from
    requires || (from == 256 && to == 58 && size == n * 138 / 100 + 1)
             || (from == 58 && to == 256 && size == n * 733 / 1000 + 1)
    ensures Val(s + [d], from) == Val(s, from) * from + d
    ensures Val(s, from) * from + d < Pow(to, size)
  {
    hide Pow;
    assert (s + [d])[..|s|] == s;
    ValBound(s + [d], from);
    PowMonoExp(from, |s| + 1, n);
    if from == 256 { EncodeRoom(n); } else { DecodeRoom(n); }
  }

  // ---------- decoding ----------

  /** What comes before a NUL: the text that c_str() hands over. */
  function CStr(s: string): string {
    if s == [] || s[0] as int == 0 then [] else [s[0]] + CStr(s[1..])
  }

  method SkipSpace(psz: string, from: nat) returns (i: nat)
    requires from <= |psz|
    ensures from <= i <= |psz| && AllSpaces(psz[from..i]) && (i < |psz| ==> !IsSpace(psz[i]))
  {
    i := from;
    while i < |psz| && IsSpace(psz[i])
      invariant from <= i <= |psz| && forall k :: from <= k < i ==> IsSpace(psz[k])
    {
      i := i + 1;
    }
  }

  /** Reads characters up to a space or the end; stops at one that is not base 58. */
  method DecodeBody(b256: array<int>, psz: string, from: nat) returns (good: bool, i: nat, length: nat)
    requires from <= |psz| && b256.Length == (|psz| - from) * 733 / 1000 + 1
    requires forall k :: 0 <= k < b256.Length ==> b256[k] == 0
    modifies b256
    ensures from <= i <= |psz| && AllBase58(psz[from..i])
    ensures !good ==> i < |psz| && !IsSpace(psz[i]) && DigitOf(psz[i]) < 0
    ensures good ==> i == |psz| || IsSpace(psz[i])
    ensures Buffer(b256[..], 256, length) && Val(b256[..], 256) == Val(Digits(psz[from..i]), 58)
  {
    hide Val, Pow, DigitOf, IsSpace, Digits;
    length := 0;
    assert b256[..] == Zeros(b256.Length) + [];
    ValZeros(b256.Length, [], 256);
    ValEmpty(58);
    ValEmpty(256);
    i := from;
    assert Digits(psz[from..from]) == [];
    while i < |psz| && !IsSpace(psz[i])
      invariant from <= i <= |psz| && AllBase58(psz[from..i])
      invariant Buffer(b256[..], 256, length) && Val(b256[..], 256) == Val(Digits(psz[from..i]), 58)
    {
      var ch := DigitOf(psz[i]);
      if ch == -1 {
        return false, i, length;
      }
      CharsOfDigits(psz[from..i]);
      Fits(Digits(psz[from..i]), ch, 58, 256, |psz| - from, b256.Length);
      DigitsMore(psz, from, i);
      length := MulAdd(b256, 256, 58, ch, length);
      i := i + 1;
    }
    good := true;
  }

  lemma DigitsMore(s: string, from: nat, i: nat)
    requires from <= i < |s|
    ensures Digits(s[from..i + 1]) == Digits(s[from..i]) + [DigitOf(s[i])]
    ensures AllBase58(s[from..i]) && DigitOf(s[i]) != -1 ==> AllBase58(s[from..i + 1])
  {
    hide DigitOf;
    assert s[from..i + 1] == s[from..i] + [s[i]];
  }

  lemma {:induction false} SkipSpacesIs(s: string, i: nat)
    requires i <= |s| && AllSpaces(s[..i]) && (i < |s| ==> !IsSpace(s[i]))
    ensures SkipSpaces(s) == s[i..]
  {
    if i == 0 {
    } else {
      assert IsSpace(s[..i][0]);
      assert s[1..][..i - 1] == s[..i][1..];
      SkipSpacesIs(s[1..], i - 1);
    }
  }

  /** The word reaches at least over a run without spaces, and ends where one follows. */
  lemma {:induction false} WordReaches(s: string, e: nat)
    requires e <= |s| && forall k :: 0 <= k < e ==> !IsSpace(s[k])
    ensures |Word(s)| >= e && (e == |s| || IsSpace(s[e]) ==> Word(s) == s[..e])
  {
    if e == 0 {
    } else {
      WordReaches(s[1..], e - 1);
    }
  }

  lemma CoreIs(psz: string, from: nat, e: nat)
    requires from <= e <= |psz| && AllSpaces(psz[..from]) && (from < |psz| ==> !IsSpace(psz[from]))
    requires AllBase58(psz[from..e])
    ensures e == |psz| || IsSpace(psz[e]) ==> Core(psz) == psz[from..e] && After(psz) == psz[e..]
    ensures e < |psz| && !IsSpace(psz[e]) && DigitOf(psz[e]) < 0 ==> !Accepts(psz)
  {
    hide IsSpace, DigitOf;
    SkipSpacesIs(psz, from);
    var s := psz[from..];
    forall k | 0 <= k < e - from ensures !IsSpace(s[k]) {
      assert s[k] == psz[from..e][k];
      CharOfDigit(s[k]);
    }
    WordReaches(s, e - from);
    if e < |psz| && !IsSpace(psz[e]) {
      assert s[e - from] == psz[e];
      WordReaches(s, e - from + 1);
      assert Core(psz)[e - from] == psz[e];
    }
  }

  lemma TailSpaces(psz: string, e: nat, i: nat)
    requires e <= i <= |psz| && AllSpaces(psz[e..i]) && (i < |psz| ==> !IsSpace(psz[i]))
    ensures AllSpaces(psz[e..]) <==> i == |psz|
  {
    if i < |psz| { assert psz[e..][i - e] == psz[i]; } else { assert psz[e..i] == psz[e..]; }
  }

  lemma OnesAreZeros(s: string, zeroes: nat)
    requires zeroes <= |s| && (forall k :: 0 <= k < zeroes ==> s[k] == '1') && AllBase58(s)
    requires zeroes < |s| ==> s[zeroes] != '1'
    ensures Digits(s) == Zeros(zeroes) + Digits(s[zeroes..]) && LeadingZeros(Digits(s)) == zeroes
    ensures Val(Digits(s), 58) == Val(Digits(s[zeroes..]), 58)
  {
    var rest := Digits(s[zeroes..]);
    assert Digits(s) == Zeros(zeroes) + rest;
    if rest != [] { CharOfDigit(s[zeroes]); }
    ZerosThenDigits(zeroes, rest);
    ValZeros(zeroes, rest, 58);
  }

  method DecodeBase58(psz: string) returns (ok: bool, vch: seq<int>)
    ensures ok <==> Accepts(psz)
    ensures ok ==> vch == Decoded(psz)
  {
    hide Val, ToDigits, DigitOf, IsSpace, Digits, Core, After, LeadingZeros, AllSpaces;
    vch := [];
    var i := SkipSpace(psz, 0);
    ghost var from := i;
    assert psz[0..i] == psz[..i];
    var zeroes := 0;
    while i < |psz| && psz[i] == '1'
      invariant from <= i <= |psz| && zeroes == i - from
      invariant forall k :: from <= k < i ==> psz[k] == '1'
    {
      zeroes := zeroes + 1;
      i := i + 1;
    }
    ghost var start := i;
    var size := (|psz| - i) * 733 / 1000 + 1;
    var b256 := new int[size](_ => 0);
    var good, length;
    good, i, length := DecodeBody(b256, psz, i);
    ghost var e := i;
    WithOnes(psz, from, start, e);
    CoreIs(psz, from, e);
    if !good {
      return false, [];
    }
    i := SkipSpace(psz, i);
    TailSpaces(psz, e, i);
    if i < |psz| {
      return false, [];
    }
    var ds := Strip(b256, 256, length);
    vch := Zeros(zeroes) + ds;
    ghost var word := psz[from..e];
    OnesAreZeros(word, zeroes);
    assert word[zeroes..] == psz[start..e];
    ok := true;
  }

  /** The leading ones are base 58 as well. */
  lemma WithOnes(psz: string, from: nat, start: nat, e: nat)
    requires from <= start <= e <= |psz| && AllBase58(psz[start..e])
    requires forall k :: from <= k < start ==> psz[k] == '1'
    ensures AllBase58(psz[from..e])
  {
    forall k | 0 <= k < e - from ensures DigitOf(psz[from..e][k]) >= 0 {
      if from + k >= start { assert psz[from..e][k] == psz[start..e][from + k - start]; }
    }
  }

  /** The std::string overload: the text ends at the first NUL. */
  method DecodeString(str: string) returns (ok: bool, vch: seq<int>)
    ensures ok <==> Accepts(CStr(str))
    ensures ok ==> vch == Decoded(CStr(str))
  {
    ok, vch := DecodeBase58(CStr(str));
  }
}
