/** Numbers in 32-bit limbs, least significant first. */
module Limbs {
  import opened Bits

  const LIMB: int := 0x1_0000_0000

  ghost predicate AreLimbs(s: seq<int>) {
    forall i :: 0 <= i < |s| ==> 0 <= s[i] < LIMB
  }

  /** 2 to the power 32 * i. */
  ghost function Unit(i: nat): (r: int)
    ensures r > 0
  {
    Pow2(32 * i)
  }

  ghost function Val(s: seq<int>): int {
    if s == [] then 0 else Val(s[..|s| - 1]) + s[|s| - 1] * Unit(|s| - 1)
  }

  lemma UnitNext(i: nat)
    ensures Unit(i + 1) == LIMB * Unit(i) && Unit(0) == 1
  {
    Pow2Add(32, 32 * i);
    Pow2Values();
  }

  lemma UnitAdd(i: nat, j: nat)
    ensures Unit(i + j) == Unit(i) * Unit(j)
  {
    Pow2Add(32 * i, 32 * j);
  }

  lemma {:induction false} ValBound(s: seq<int>)
    requires AreLimbs(s)
    ensures 0 <= Val(s) < Unit(|s|)
  {
    hide Unit;
    if s == [] {
      UnitNext(0);
    } else {
      var n := |s| - 1;
      ValBound(s[..n]);
      UnitNext(n);
      MulMono(s[n] + 1, LIMB, Unit(n));
      MulMono(0, s[n], Unit(n));
    }
  }

  /** Changing one limb changes the value by that much at its place. */
  lemma {:induction false} ValUpdate(s: seq<int>, i: nat, x: int)
    requires i < |s|
    ensures Val(s[i := x]) == Val(s) + (x - s[i]) * Unit(i)
  {
    hide Unit;
    var n := |s| - 1;
    if i < n {
      assert s[i := x][..n] == s[..n][i := x];
      ValUpdate(s[..n], i, x);
    } else {
      assert s[i := x][..n] == s[..n];
      Distribute(x, s[n], Unit(n));
    }
  }

  lemma Distribute(x: int, y: int, u: int)
    ensures (x - y) * u == x * u - y * u
  {
  }

  lemma ValPrefix(s: seq<int>, i: nat)
    requires i < |s|
    ensures Val(s[..i + 1]) == Val(s[..i]) + s[i] * Unit(i)
  {
    assert s[..i + 1][..i] == s[..i];
  }

  lemma {:induction false} ValZero(s: seq<int>)
    requires forall i :: 0 <= i < |s| ==> s[i] == 0
    ensures Val(s) == 0
  {
    if s == [] {
    } else {
      ValZero(s[..|s| - 1]);
    }
  }

  /** The value in two parts. */
  lemma {:induction false} ValSplit(s: seq<int>, k: nat)
    requires k <= |s|
    ensures Val(s) == Val(s[..k]) + Unit(k) * Val(s[k..])
    decreases |s|
  {
    hide Unit;
    if k == |s| {
      assert s[..k] == s && s[k..] == [];
    } else {
      var n := |s| - 1;
      ValSplit(s[..n], k);
      assert s[..n][..k] == s[..k] && s[..n][k..] == s[k..][..n - k];
      UnitAdd(k, n - k);
      SplitSum(Unit(k), Val(s[k..][..n - k]), s[n], Unit(n - k));
    }
  }

  lemma SplitSum(u: int, v: int, d: int, w: int)
    ensures u * (v + d * w) == u * v + d * (u * w)
  {
  }

  lemma {:induction false} ValUnique(s: seq<int>, t: seq<int>)
    requires AreLimbs(s) && AreLimbs(t) && |s| == |t| && Val(s) == Val(t)
    ensures s == t
  {
    hide Unit;
    if s == [] {
    } else {
      var n := |s| - 1;
      ValBound(s[..n]);
      ValBound(t[..n]);
      DivUnique(Val(s), Unit(n), s[n], Val(s[..n]));
      DivUnique(Val(t), Unit(n), t[n], Val(t[..n]));
      ValUnique(s[..n], t[..n]);
      assert s == s[..n] + [s[n]] && t == t[..n] + [t[n]];
    }
  }

  lemma DivLimb(n: int)
    requires n >= 0
    ensures n == (n / LIMB) * LIMB + n % LIMB && 0 <= n % LIMB < LIMB && n / LIMB >= 0
  {
  }
}

/** The fixed-width integers of src/arith_uint256.h and src/arith_uint256.cpp, in place on their limbs. */
module ArithUint {
  import opened Bits
  import opened Limbs

  /** The modulus of a width. */
  ghost function Modulus(w: nat): (m: int)
    ensures m > 0
  {
    Unit(w)
  }

  method Copy(b: array<int>) returns (a: array<int>)
    ensures fresh(a) && a[..] == b[..]
  {
    a := new int[b.Length](i requires 0 <= i < b.Length reads b => b[i]);
    assert a[..] == b[..];
  }

  /** *this = b, a 64-bit number. */
  method Assign(pn: array<int>, b: nat)
    requires pn.Length >= 2 && b < LIMB * LIMB
    modifies pn
    ensures AreLimbs(pn[..]) && Val(pn[..]) == b
  {
    pn[0] := b % LIMB;
    pn[1] := b / LIMB % LIMB;
    var i := 2;
    while i < pn.Length
      invariant 2 <= i <= pn.Length && pn[0] == b % LIMB && pn[1] == b / LIMB
      invariant forall j :: 2 <= j < i ==> pn[j] == 0
    {
      pn[i] := 0;
      i := i + 1;
    }
    AssignedVal(pn[..], b);
  }

  lemma AssignedVal(s: seq<int>, b: nat)
    requires |s| >= 2 && s[0] == b % LIMB && s[1] == b / LIMB && b < LIMB * LIMB
    requires forall j :: 2 <= j < |s| ==> s[j] == 0
    ensures AreLimbs(s) && Val(s) == b
  {
    hide Unit, Val;
    ValSplit(s, 2);
    ValZero(s[2..]);
    ValPrefix(s, 0);
    ValPrefix(s, 1);
    UnitNext(0);
    ValNone(s);
    DivLimb(b);
  }

  /** The sum modulo 2^BITS; b may be the same number. */
  method Add(pn: array<int>, b: array<int>)
    requires AreLimbs(pn[..]) && AreLimbs(b[..]) && pn.Length == b.Length
    modifies pn
    ensures AreLimbs(pn[..]) && Val(pn[..]) == (old(Val(pn[..])) + old(Val(b[..]))) % Modulus(pn.Length)
  {
    hide Val, Unit;
    ghost var was, add := pn[..], b[..];
    var carry := 0;
    var i := 0;
    ValNone(add);
    while i < pn.Length
      invariant 0 <= i <= pn.Length && 0 <= carry <= 1 && AreLimbs(pn[..])
      invariant forall j :: i <= j < pn.Length ==> pn[j] == was[j] && b[j] == add[j]
      invariant Val(pn[..]) + carry * Unit(i) == Val(was) + Val(add[..i])
    {
      ghost var before := pn[..];
      var n := carry + pn[i] + b[i];
      AddStep(before, add, i, carry);
      pn[i] := n % LIMB;
      carry := n / LIMB;
      i := i + 1;
    }
    assert add[..i] == add;
    ValBound(pn[..]);
    DivUnique(Val(was) + Val(add), Unit(pn.Length), carry, Val(pn[..]));
  }

  lemma ValNone(b: seq<int>)
    ensures Val(b[..0]) == 0
  {
  }

  lemma AddStep(a: seq<int>, b: seq<int>, i: nat, carry: int)
    requires i < |a| == |b|
    ensures var n := carry + a[i] + b[i];
      Val(a[i := n % LIMB]) + n / LIMB * Unit(i + 1) + Val(b[..i]) == Val(a) + carry * Unit(i) + Val(b[..i + 1])
  {
    hide Val, Unit;
    var n := carry + a[i] + b[i];
    ValUpdate(a, i, n % LIMB);
    ValPrefix(b, i);
    UnitNext(i);
    CarrySum(n, n / LIMB, n % LIMB, a[i], b[i], carry, Unit(i));
  }

  lemma CarrySum(n: int, q: int, r: int, a: int, b: int, carry: int, u: int)
    requires n == q * LIMB + r && n == carry + a + b
    ensures (r - a) * u + q * (LIMB * u) == carry * u + b * u
  {
    assert (r - a + q * LIMB) * u == (carry + b) * u;
  }

  /** ++: limbs that wrap to zero carry on. */
  method Increment(pn: array<int>)
    requires AreLimbs(pn[..])
    modifies pn
    ensures AreLimbs(pn[..]) && Val(pn[..]) == (old(Val(pn[..])) + 1) % Modulus(pn.Length)
  {
    hide Val, Unit;
    ghost var was := pn[..];
    var i := 0;
    UnitNext(0);
    var wrapped := true;
    while i < pn.Length && wrapped
      invariant 0 <= i <= pn.Length && AreLimbs(pn[..])
      invariant Val(pn[..]) + (if wrapped then Unit(i) else 0) == Val(was) + 1
      decreases pn.Length - i, wrapped
    {
      ghost var before := pn[..];
      IncrementStep(before, i);
      pn[i] := (pn[i] + 1) % LIMB;
      wrapped := pn[i] == 0;
      if wrapped {
        i := i + 1;
      }
    }
    ValBound(pn[..]);
    ValBound(was);
    DivUnique(Val(was) + 1, Unit(pn.Length), if wrapped then 1 else 0, Val(pn[..]));
  }

  lemma IncrementStep(a: seq<int>, i: nat)
    requires i < |a| && AreLimbs(a)
    ensures var n := (a[i] + 1) % LIMB;
      Val(a[i := n]) + (if n == 0 then Unit(i + 1) else 0) == Val(a) + Unit(i)
  {
    hide Val, Unit;
    var n := (a[i] + 1) % LIMB;
    ValUpdate(a, i, n);
    UnitNext(i);
    if n == 0 {
      assert a[i] == LIMB - 1;
      assert (0 - a[i]) * Unit(i) == Unit(i) - LIMB * Unit(i);
    }
  }

  /** ~a */
  method Complement(b: array<int>) returns (a: array<int>)
    requires AreLimbs(b[..])
    ensures fresh(a) && a.Length == b.Length && AreLimbs(a[..]) && Val(a[..]) == Modulus(b.Length) - 1 - Val(b[..])
  {
    hide Val, Unit;
    a := new int[b.Length];
    var i := 0;
    ComplementStart();
    while i < b.Length
      invariant 0 <= i <= b.Length && AreLimbs(a[..i]) && Val(a[..i]) == Unit(i) - 1 - Val(b[..i])
    {
      a[i] := LIMB - 1 - b[i];
      assert a[..i + 1] == a[..i] + [a[i]] && a[..][..i] == a[..i] && a[..][..i + 1] == a[..i + 1];
      assert b[..][..i] == b[..i] && b[..][..i + 1] == b[..i + 1];
      ValPrefix(a[..], i);
      ValPrefix(b[..], i);
      ComplementStep(i, b[i]);
      i := i + 1;
    }
    assert a[..i] == a[..] && b[..i] == b[..];
  }

  lemma ComplementStart()
    ensures Val([]) == 0 && Unit(0) == 1
  {
    UnitNext(0);
  }

  lemma ComplementStep(i: nat, d: int)
    ensures Unit(i) - 1 + (LIMB - 1 - d) * Unit(i) == Unit(i + 1) - 1 - d * Unit(i)
  {
    hide Unit;
    UnitNext(i);
    assert (LIMB - 1 - d) * Unit(i) == LIMB * Unit(i) - Unit(i) - d * Unit(i);
  }

  /** -a: the complement plus one. */
  method Negate(b: array<int>) returns (a: array<int>)
    requires AreLimbs(b[..])
    ensures fresh(a) && a.Length == b.Length && AreLimbs(a[..]) && Val(a[..]) == (0 - Val(b[..])) % Modulus(b.Length)
  {
    hide Val, Unit;
    a := Complement(b);
    Increment(a);
    ModShift(0 - Val(b[..]), Modulus(b.Length), 1);
  }

  lemma ModShift(x: int, m: int, k: int)
    requires m > 0
    ensures (x + k * m) % m == x % m
  {
    DivModEq(x, m);
    assert x + k * m == (x / m + k) * m + x % m;
    DivUnique(x + k * m, m, x / m + k, x % m);
  }

  lemma ModSum(x: int, y: int, m: int)
    requires m > 0
    ensures (x + y % m) % m == (x + y) % m
  {
    DivModEq(y, m);
    ModShift(x + y % m, m, y / m);
  }

  /** The difference modulo 2^BITS; b may be the same number. */
  method Subtract(pn: array<int>, b: array<int>)
    requires AreLimbs(pn[..]) && AreLimbs(b[..]) && pn.Length == b.Length
    modifies pn
    ensures AreLimbs(pn[..]) && Val(pn[..]) == (old(Val(pn[..])) - old(Val(b[..]))) % Modulus(pn.Length)
  {
    hide Val, Unit;
    ghost var x, y := Val(pn[..]), Val(b[..]);
    var minus := Negate(b);
    Add(pn, minus);
    ModSum(x, 0 - y, Modulus(pn.Length));
  }

  // ---------- multiplication ----------

  method MultiplySmall(pn: array<int>, b32: nat)
    requires AreLimbs(pn[..]) && b32 < LIMB
    modifies pn
    ensures AreLimbs(pn[..]) && Val(pn[..]) == (old(Val(pn[..])) * b32) % Modulus(pn.Length)
  {
    hide Val, Unit;
    ghost var was := pn[..];
    var carry := 0;
    var i := 0;
    ValNone(was);
    assert pn[..][0..] == was[0..];
    while i < pn.Length
      invariant 0 <= i <= pn.Length && 0 <= carry < LIMB && AreLimbs(pn[..])
      invariant forall j :: i <= j < pn.Length ==> pn[j] == was[j]
      invariant Val(pn[..i]) + carry * Unit(i) == Val(was[..i]) * b32
    {
      ghost var before := pn[..i];
      ProductBound(carry, 0, b32, pn[i]);
      var n := carry + b32 * pn[i];
      SmallStep(before, was, i, carry, b32);
      pn[i] := n % LIMB;
      carry := n / LIMB;
      assert pn[..i + 1] == before + [n % LIMB];
      i := i + 1;
    }
    assert pn[..i] == pn[..] && was[..i] == was;
    ValBound(pn[..]);
    DivUnique(Val(was) * b32, Unit(pn.Length), carry, Val(pn[..]));
  }

  /** Carry, limb and product of limbs fit in 64 bits, and what is carried in 32. */
  lemma ProductBound(carry: int, x: int, a: int, b: int)
    requires 0 <= carry < LIMB && 0 <= x < LIMB && 0 <= a < LIMB && 0 <= b < LIMB
    ensures 0 <= carry + x + a * b < 0x1_0000_0000_0000_0000 && 0 <= (carry + x + a * b) / LIMB < LIMB
  {
    MulMono(0, a, b);
    MulMono(a, LIMB - 1, b);
    DivLimb(carry + x + a * b);
  }

  lemma SmallStep(low: seq<int>, was: seq<int>, i: nat, carry: int, b32: int)
    requires i < |was| && |low| == i && Val(low) + carry * Unit(i) == Val(was[..i]) * b32
    ensures var n := carry + b32 * was[i];
      Val(low + [n % LIMB]) + n / LIMB * Unit(i + 1) == Val(was[..i + 1]) * b32
  {
    hide Unit;
    var n := carry + b32 * was[i];
    assert (low + [n % LIMB])[..i] == low;
    ValPrefix(was, i);
    UnitNext(i);
    SmallSum(n, n / LIMB, n % LIMB, carry, b32, was[i], Unit(i), Val(was[..i]));
  }

  lemma SmallSum(n: int, q: int, r: int, carry: int, b32: int, d: int, u: int, w: int)
    requires n == q * LIMB + r && n == carry + b32 * d
    ensures r * u + q * (LIMB * u) == carry * u + (w + d * u) * b32 - w * b32
  {
    assert r * u + q * (LIMB * u) == n * u;
    assert (w + d * u) * b32 == w * b32 + (b32 * d) * u;
  }

  /** One row of the product: a limb of a times all of b that still has a place. */
  method AddRow(pn: array<int>, aj: int, b: array<int>, j: nat) returns (ghost out: int)
    requires AreLimbs(pn[..]) && AreLimbs(b[..]) && pn.Length == b.Length && pn != b && j < pn.Length && 0 <= aj < LIMB
    modifies pn
    ensures AreLimbs(pn[..])
    ensures Val(pn[..]) + out * Modulus(pn.Length) == old(Val(pn[..])) + (aj * Unit(j)) * Val(b[..pn.Length - j])
  {
    hide Val, Unit;
    ghost var was := pn[..];
    var carry := 0;
    var i := 0;
    ValNone(b[..]);
    while i + j < pn.Length
      invariant 0 <= i <= pn.Length - j && 0 <= carry < LIMB && AreLimbs(pn[..])
      invariant Val(pn[..]) + carry * Unit(i + j) == Val(was) + (aj * Unit(j)) * Val(b[..i])
    {
      ghost var before := pn[..];
      ProductBound(carry, pn[i + j], aj, b[i]);
      var n := carry + pn[i + j] + aj * b[i];
      RowStep(before, b[..], i, j, aj, carry);
      assert b[..][..i] == b[..i] && b[..][..i + 1] == b[..i + 1];
      pn[i + j] := n % LIMB;
      carry := n / LIMB;
      i := i + 1;
    }
    out := carry;
  }

  lemma RowStep(a: seq<int>, b: seq<int>, i: nat, j: nat, aj: int, carry: int)
    requires i + j < |a| == |b|
    ensures var n := carry + a[i + j] + aj * b[i];
      Val(a[i + j := n % LIMB]) + n / LIMB * Unit(i + 1 + j) + (aj * Unit(j)) * Val(b[..i])
      == Val(a) + carry * Unit(i + j) + (aj * Unit(j)) * Val(b[..i + 1])
  {
    hide Val, Unit;
    var n := carry + a[i + j] + aj * b[i];
    ValUpdate(a, i + j, n % LIMB);
    ValPrefix(b, i);
    UnitNext(i + j);
    UnitAdd(i, j);
    CarrySum(n, n / LIMB, n % LIMB, a[i + j], aj * b[i], carry, Unit(i + j));
    RowSum(aj, Unit(j), Val(b[..i]), b[i], Unit(i), Unit(i + j));
  }

  lemma RowSum(aj: int, uj: int, v: int, d: int, ui: int, u: int)
    requires u == ui * uj
    ensures (aj * uj) * (v + d * ui) == (aj * uj) * v + (aj * d) * u
  {
    assert (aj * uj) * (d * ui) == (aj * d) * (ui * uj);
  }

  /** The part of a row that has no place is a multiple of the modulus. */
  lemma RowRest(b: seq<int>, j: nat, aj: int) returns (c: int)
    requires j <= |b|
    ensures (aj * Unit(j)) * Val(b) == (aj * Unit(j)) * Val(b[..|b| - j]) + c * Modulus(|b|)
  {
    hide Val, Unit;
    var k := |b| - j;
    ValSplit(b, k);
    UnitAdd(k, j);
    c := aj * Val(b[k..]);
    RowRestSum(aj, Unit(j), Val(b[..k]), Unit(k), Val(b[k..]), Unit(|b|));
  }

  lemma RowRestSum(aj: int, uj: int, v: int, uk: int, h: int, m: int)
    requires m == uk * uj
    ensures (aj * uj) * (v + uk * h) == (aj * uj) * v + (aj * h) * m
  {
    assert (aj * uj) * (uk * h) == (aj * h) * (uk * uj);
  }

  /** The product modulo 2^BITS, unless b is the number itself: that is set to zero first, and
      stays zero. */
  method MultiplyAssign(pn: array<int>, b: array<int>)
    requires AreLimbs(pn[..]) && AreLimbs(b[..]) && pn.Length == b.Length
    modifies pn
    ensures AreLimbs(pn[..])
    ensures Val(pn[..]) == if pn == b then 0 else (old(Val(pn[..])) * Val(b[..])) % Modulus(pn.Length)
  {
    hide Val, Unit;
    var a := Copy(pn);
    Clear(pn);
    if pn == b {
      StayZero(pn, a);
    } else {
      AddRows(pn, a, b);
    }
  }

  method Clear(pn: array<int>)
    modifies pn
    ensures forall i :: 0 <= i < pn.Length ==> pn[i] == 0
    ensures AreLimbs(pn[..]) && Val(pn[..]) == 0
  {
    var i := 0;
    while i < pn.Length
      invariant 0 <= i <= pn.Length && forall j :: 0 <= j < i ==> pn[j] == 0
    {
      pn[i] := 0;
      i := i + 1;
    }
    ValZero(pn[..]);
  }

  method AddRows(pn: array<int>, a: array<int>, b: array<int>)
    requires AreLimbs(pn[..]) && AreLimbs(a[..]) && AreLimbs(b[..])
    requires pn.Length == b.Length == a.Length && pn != b && pn != a
    requires Val(pn[..]) == 0
    modifies pn
    ensures AreLimbs(pn[..]) && Val(pn[..]) == (Val(a[..]) * Val(b[..])) % Modulus(pn.Length)
  {
    hide Val, Unit;
    ghost var w, as', bs := pn.Length, a[..], b[..];
    ghost var c := 0;
    var j := 0;
    ValNone(as');
    while j < pn.Length
      invariant 0 <= j <= pn.Length && AreLimbs(pn[..])
      invariant Val(pn[..]) + c * Modulus(w) == Val(as'[..j]) * Val(bs)
    {
      ghost var before := Val(pn[..]);
      ghost var carry := AddRow(pn, a[j], b, j);
      assert bs[..w - j] == b[..w - j];
      ghost var rest := RowRest(bs, j, a[j]);
      ValPrefix(as', j);
      RowsSum(before, Val(pn[..]), c, carry, rest, Modulus(w), Val(as'[..j]), a[j] * Unit(j), Val(bs),
              Val(bs[..w - j]));
      c := c + carry + rest;
      j := j + 1;
    }
    assert as'[..j] == as';
    ValBound(pn[..]);
    DivUnique(Val(as') * Val(bs), Unit(w), c, Val(pn[..]));
  }

  lemma RowsSum(before: int, after: int, c: int, carry: int, rest: int, m: int, x: int, row: int, y: int, part: int)
    requires before + c * m == x * y && after + carry * m == before + row * part && row * y == row * part + rest * m
    ensures after + (c + carry + rest) * m == (x + row) * y
  {
    assert (c + carry + rest) * m == c * m + carry * m + rest * m;
    assert (x + row) * y == x * y + row * y;
  }

  /** The same loops when b is the number itself, all zeros by now. */
  method StayZero(pn: array<int>, a: array<int>)
    requires a.Length == pn.Length && forall i :: 0 <= i < pn.Length ==> pn[i] == 0
    modifies pn
    ensures AreLimbs(pn[..]) && Val(pn[..]) == 0
  {
    var j := 0;
    while j < pn.Length
      invariant 0 <= j <= pn.Length && forall i :: 0 <= i < pn.Length ==> pn[i] == 0
    {
      var carry := 0;
      var i := 0;
      while i + j < pn.Length
        invariant 0 <= i <= pn.Length - j && carry == 0 && forall k :: 0 <= k < pn.Length ==> pn[k] == 0
      {
        ZeroTimes(a[j]);
        var n := carry + pn[i + j] + a[j] * pn[i];
        pn[i + j] := n % LIMB;
        carry := n / LIMB;
        i := i + 1;
      }
      j := j + 1;
    }
    ValZero(pn[..]);
  }

  lemma ZeroTimes(x: int)
    ensures x * 0 == 0
  {
  }

  /** a * b: the product modulo 2^BITS. */
  method Multiply(a: array<int>, b: array<int>) returns (r: array<int>)
    requires AreLimbs(a[..]) && AreLimbs(b[..]) && a.Length == b.Length
    ensures fresh(r) && r.Length == a.Length && AreLimbs(r[..])
    ensures Val(r[..]) == (Val(a[..]) * Val(b[..])) % Modulus(a.Length)
  {
    hide Val, Unit;
    r := Copy(a);
    MultiplyAssign(r, b);
  }

  // ---------- comparison and length ----------

  method CompareTo(a: array<int>, b: array<int>) returns (c: int)
    requires AreLimbs(a[..]) && AreLimbs(b[..]) && a.Length == b.Length
    ensures c == if Val(a[..]) < Val(b[..]) then -1 else if Val(a[..]) > Val(b[..]) then 1 else 0
  {
    hide Val, Unit;
    var i := a.Length - 1;
    while i >= 0
      invariant -1 <= i < a.Length && forall j :: i < j < a.Length ==> a[j] == b[j]
      decreases i
    {
      if a[i] != b[i] {
        Decides(a[..], b[..], i);
      }
      if a[i] < b[i] {
        return -1;
      }
      if a[i] > b[i] {
        return 1;
      }
      i := i - 1;
    }
    assert a[..] == b[..];
    return 0;
  }

  /** The highest limb that differs decides. */
  lemma Decides(a: seq<int>, b: seq<int>, i: nat)
    requires AreLimbs(a) && AreLimbs(b) && i < |a| == |b| && a[i] != b[i] && forall j :: i < j < |a| ==> a[j] == b[j]
    ensures Val(a) < Val(b) <==> a[i] < b[i]
    ensures Val(a) != Val(b)
  {
    hide Val, Unit;
    ValSplit(a, i + 1);
    ValSplit(b, i + 1);
    assert a[i + 1..] == b[i + 1..];
    ValPrefix(a, i);
    ValPrefix(b, i);
    ValBound(a[..i]);
    ValBound(b[..i]);
    DigitDecides(Val(a[..i]), Val(b[..i]), a[i], b[i], Unit(i));
  }

  lemma DigitDecides(x: int, y: int, d: int, e: int, u: int)
    requires 0 <= x < u && 0 <= y < u && d != e
    ensures d < e <==> x + d * u < y + e * u
    ensures x + d * u != y + e * u
  {
    if d < e {
      MulMono(d + 1, e, u);
    } else {
      MulMono(e + 1, d, u);
    }
  }

  /** Whether the value is a 64-bit number b. */
  method EqualTo(pn: array<int>, b: nat) returns (same: bool)
    requires pn.Length >= 2 && AreLimbs(pn[..]) && b < LIMB * LIMB
    ensures same <==> Val(pn[..]) == b
  {
    hide Val, Unit;
    LimbsOfWord(pn[..], b);
    var i := pn.Length - 1;
    while i >= 2
      invariant 1 <= i < pn.Length && forall j :: i < j < pn.Length ==> pn[j] == 0
      decreases i
    {
      if pn[i] != 0 {
        return false;
      }
      i := i - 1;
    }
    if pn[1] != b / LIMB {
      return false;
    }
    if pn[0] != b % LIMB {
      return false;
    }
    return true;
  }

  lemma LimbsOfWord(s: seq<int>, b: nat)
    requires |s| >= 2 && AreLimbs(s) && b < LIMB * LIMB
    ensures Val(s) == b <==> s[0] == b % LIMB && s[1] == b / LIMB && forall j :: 2 <= j < |s| ==> s[j] == 0
  {
    hide Val, Unit;
    var t := seq(|s|, i => if i == 0 then b % LIMB else if i == 1 then b / LIMB else 0);
    AssignedVal(t, b);
    if Val(s) == b { ValUnique(s, t); }
    if s[0] == b % LIMB && s[1] == b / LIMB && forall j :: 2 <= j < |s| ==> s[j] == 0 { assert s == t; }
  }

  /** The position of the highest bit plus one; zero for zero. */
  method BitLength(a: array<int>) returns (n: nat)
    requires AreLimbs(a[..])
    ensures n <= 32 * a.Length
    ensures n == 0 <==> Val(a[..]) == 0
    ensures n > 0 ==> Pow2(n - 1) <= Val(a[..]) < Pow2(n)
  {
    hide Val, And, Pow2;
    var pos := a.Length - 1;
    while pos >= 0
      invariant -1 <= pos < a.Length && forall j :: pos < j < a.Length ==> a[j] == 0
      decreases pos
    {
      if a[pos] != 0 {
        var nbits := 31;
        TopLimb(a[pos]);
        while nbits > 0
          invariant 0 <= nbits <= 31 && a[pos] < Pow2(nbits + 1)
        {
          LimbBit(a[pos], nbits);
          if And(a[pos], Pow2(nbits)) != 0 {
            LengthIs(a[..], pos, nbits);
            return 32 * pos + nbits + 1;
          }
          nbits := nbits - 1;
        }
        TopLimb(1);
        LengthIs(a[..], pos, 0);
        return 32 * pos + 1;
      }
      pos := pos - 1;
    }
    ValZero(a[..]);
    return 0;
  }

  lemma TopLimb(d: int)
    requires 0 < d < LIMB
    ensures d < Pow2(32) && Pow2(0) == 1
  {
    Pow2Values();
  }

  lemma LimbBit(d: nat, k: nat)
    requires d < Pow2(k + 1)
    ensures And(d, Pow2(k)) != 0 <==> d >= Pow2(k)
    ensures And(d, Pow2(k)) == 0 ==> d < Pow2(k)
  {
    hide And;
    AndPow2(d, k);
    if d >= Pow2(k) {
      DivUnique(d, Pow2(k), 1, d - Pow2(k));
    } else {
      DivUnique(d, Pow2(k), 0, d);
    }
  }

  lemma LengthIs(a: seq<int>, pos: nat, k: nat)
    requires AreLimbs(a) && pos < |a| && (forall j :: pos < j < |a| ==> a[j] == 0)
    requires k < 32 && Pow2(k) <= a[pos] < Pow2(k + 1)
    ensures Pow2(32 * pos + k) <= Val(a) < Pow2(32 * pos + k + 1)
  {
    hide Val, Pow2;
    ValSplit(a, pos + 1);
    ValZero(a[pos + 1..]);
    ValPrefix(a, pos);
    ValBound(a[..pos]);
    Pow2Add(k, 32 * pos);
    Pow2Add(k + 1, 32 * pos);
    MulMono(Pow2(k), a[pos], Unit(pos));
    MulMono(a[pos] + 1, Pow2(k + 1), Unit(pos));
  }

  // ---------- shifts ----------

  /** A limb shifted by s bits: what moves on to the next limb, and what stays. */
  lemma SplitLimb(d: nat, s: nat)
    requires d < LIMB && s <= 32
    ensures d * Pow2(s) == d / Pow2(32 - s) * LIMB + d * Pow2(s) % LIMB
    ensures 0 <= d / Pow2(32 - s) < Pow2(s) && d * Pow2(s) % LIMB == (d % Pow2(32 - s)) * Pow2(s)
    ensures 0 <= d % Pow2(32 - s) < Pow2(32 - s)
  {
    hide Pow2;
    Pow2Add(32 - s, s);
    Pow2Values();
    SplitBy(d, Pow2(32 - s), Pow2(s));
  }

  lemma SplitBy(d: int, a: int, b: int)
    requires a > 0 && b > 0 && a * b == LIMB && 0 <= d < LIMB
    ensures d * b == d / a * LIMB + d * b % LIMB && 0 <= d / a < b && d * b % LIMB == (d % a) * b && 0 <= d % a < a
  {
    DivModEq(d, a);
    var q, r := d / a, d % a;
    assert d * b == q * (a * b) + r * b;
    MulMono(r + 1, a, b);
    MulMono(0, r, b);
    DivUnique(d * b, LIMB, q, r * b);
    if q >= b { MulMono(b, q, a); assert false; }
    if q < 0 { MulMono(q, -1, a); assert false; }
  }

  /** Or-ing shifted bits above bits that are below the shift is adding them. */
  lemma OrAbove(x: nat, m: nat, s: nat)
    requires x < Pow2(s)
    ensures Or(x, m * Pow2(s)) == x + m * Pow2(s)
  {
    OrDisjoint(x, m, s);
  }

  lemma BelowLimb(x: nat, m: nat, s: nat)
    requires s <= 32 && x < Pow2(s) && m < Pow2(32 - s)
    ensures 0 <= x + m * Pow2(s) < LIMB
  {
    hide Pow2;
    Pow2Add(32 - s, s);
    Pow2Values();
    MulMono(m + 1, Pow2(32 - s), Pow2(s));
    MulMono(0, m, Pow2(s));
  }

  /** While shifting left: the first i limbs are done, but for a multiple c of the modulus. */
  ghost predicate ShiftedLeft(pn: seq<int>, a: seq<int>, i: nat, k: nat, s: nat, c: int) {
    && |pn| == |a| && i <= |a| && s < 32
    && AreLimbs(pn) && AreLimbs(a)
    && (forall j :: i + k < j < |pn| ==> pn[j] == 0)
    && (i + k < |pn| ==> pn[i + k] < Pow2(s))
    && Val(pn) + c * Modulus(|pn|) == Val(a[..i]) * (Unit(k) * Pow2(s))
  }

  method ShiftLeft(pn: array<int>, shift: nat)
    requires AreLimbs(pn[..])
    modifies pn
    ensures AreLimbs(pn[..]) && Val(pn[..]) == (old(Val(pn[..])) * Pow2(shift)) % Modulus(pn.Length)
  {
    hide Val, Unit, Pow2, Or, ShiftedLeft, LeftNext, LeftCarry;
    var a := Copy(pn);
    ghost var as' := a[..];
    Clear(pn);
    var k, s := shift / 32, shift % 32;
    ghost var c := 0;
    var i := 0;
    LeftStart(pn[..], as', k, s);
    while i < a.Length
      modifies pn
      invariant 0 <= i <= a.Length && ShiftedLeft(pn[..], as', i, k, s, c)
    {
      ghost var before := pn[..];
      assert a[i] == as'[i];
      LeftStep(before, as', i, k, s, c);
      LeftShape(before, as', i, k, s, c);
      PutLeft(pn, i + k, a[i], s);
      c := LeftCarry(c, |before|, i + k, a[i], s);
      i := i + 1;
    }
    Unshift(shift);
    LeftEnd(pn[..], as', k, s, c);
  }

  /** One limb goes to two neighbours, as far as they exist. */
  method PutLeft(pn: array<int>, at: nat, d: nat, s: nat)
    requires AreLimbs(pn[..]) && s < 32 && d < LIMB
    modifies pn
    ensures pn[..] == LeftNext(old(pn[..]), at, d, s)
  {
    hide Pow2, Or;
    SplitLimb(d, s);
    if at + 1 < pn.Length && s != 0 {
      pn[at + 1] := Or(pn[at + 1], d / Pow2(32 - s));
    }
    if at < pn.Length {
      pn[at] := Or(pn[at], d * Pow2(s) % LIMB);
    }
  }

  ghost function LeftNext(pn: seq<int>, at: nat, d: nat, s: nat): seq<int>
    requires s < 32 && forall i :: 0 <= i < |pn| ==> pn[i] >= 0
  {
    var high := if at + 1 < |pn| && s != 0 then pn[at + 1 := OrInt(pn[at + 1], d / Pow2(32 - s))] else pn;
    if at < |pn| then high[at := OrInt(high[at], d * Pow2(s) % LIMB)] else high
  }

  function OrInt(x: int, y: int): int {
    if x >= 0 && y >= 0 then Or(x, y) else 0
  }

  ghost function LeftCarry(c: int, w: nat, at: nat, d: nat, s: nat): int
    requires s < 32
  {
    if at + 1 < w then c
    else if at + 1 == w then c + d / Pow2(32 - s)
    else c + d * Pow2(s) * Unit(at - w)
  }

  lemma LeftStart(pn: seq<int>, a: seq<int>, k: nat, s: nat)
    requires |pn| == |a| && AreLimbs(pn) && AreLimbs(a) && s < 32
    requires (forall j :: 0 <= j < |pn| ==> pn[j] == 0) && Val(pn) == 0
    ensures ShiftedLeft(pn, a, 0, k, s, 0)
  {
    hide Unit;
    assert Val(a[..0]) == 0;
  }

  lemma LeftShape(pn: seq<int>, a: seq<int>, i: nat, k: nat, s: nat, c: int)
    requires ShiftedLeft(pn, a, i, k, s, c) && i < |a|
    ensures |pn| == |a| && 0 <= a[i] < LIMB && AreLimbs(pn)
    ensures a[i] / Pow2(32 - s) >= 0 && a[i] * Pow2(s) % LIMB >= 0
  {
    hide Val, Unit, Pow2;
    SplitLimb(a[i], s);
  }

  /** With a place for it, a limb adds itself, shifted, at that place; what would go past the last
      limb is missing. */
  lemma LeftPlaced(pn: seq<int>, at: nat, d: nat, s: nat)
    requires AreLimbs(pn) && s < 32 && d < LIMB && at < |pn| && pn[at] < Pow2(s) && (at + 1 < |pn| ==> pn[at + 1] == 0)
    ensures var hi, lo := d / Pow2(32 - s), d * Pow2(s) % LIMB;
      && 0 <= hi < Pow2(s) && hi < LIMB && d * Pow2(s) == hi * LIMB + lo && 0 <= pn[at] + lo < LIMB
      && LeftNext(pn, at, d, s) == (if at + 1 < |pn| then pn[at + 1 := hi] else pn)[at := pn[at] + lo]
  {
    hide Pow2, Or;
    var hi, lo, m := d / Pow2(32 - s), d * Pow2(s) % LIMB, d % Pow2(32 - s);
    SplitLimb(d, s);
    HighOfZero(d, s);
    BelowWord(hi, s);
    OrAbove(pn[at], m, s);
    BelowLimb(pn[at], m, s);
    OrNothing(hi);
    if at + 1 < |pn| && s == 0 { assert pn[at + 1 := hi] == pn; }
  }

  lemma LeftValue(pn: seq<int>, at: nat, d: nat, s: nat)
    requires AreLimbs(pn) && s < 32 && d < LIMB && at < |pn| && pn[at] < Pow2(s) && (at + 1 < |pn| ==> pn[at + 1] == 0)
    ensures AreLimbs(LeftNext(pn, at, d, s))
    ensures Val(LeftNext(pn, at, d, s)) + (if at + 1 < |pn| then 0 else d / Pow2(32 - s) * Unit(|pn|)) ==
      Val(pn) + (d * Pow2(s)) * Unit(at)
    ensures at + 1 < |pn| ==> LeftNext(pn, at, d, s)[at + 1] < Pow2(s)
    ensures forall j :: at + 1 < j < |pn| ==> LeftNext(pn, at, d, s)[j] == pn[j]
  {
    hide Val, Unit, Pow2, Or, LeftNext;
    var hi, lo := d / Pow2(32 - s), d * Pow2(s) % LIMB;
    LeftPlaced(pn, at, d, s);
    UnitNext(at);
    LimbSum(hi, lo, d * Pow2(s), Unit(at));
    if at + 1 < |pn| {
      ValUpdate(pn, at + 1, hi);
      ValUpdate(pn[at + 1 := hi], at, pn[at] + lo);
    } else {
      ValUpdate(pn, at, pn[at] + lo);
    }
  }

  /** One limb of the left shift. */
  lemma LeftStep(pn: seq<int>, a: seq<int>, i: nat, k: nat, s: nat, c: int)
    requires ShiftedLeft(pn, a, i, k, s, c) && i < |a|
    ensures ShiftedLeft(LeftNext(pn, i + k, a[i], s), a, i + 1, k, s, LeftCarry(c, |pn|, i + k, a[i], s))
  {
    hide Val, Unit, Pow2, Or;
    var d, at, w := a[i], i + k, |pn|;
    ValPrefix(a, i);
    UnitAdd(i, k);
    ShiftSum(d, Unit(i), Unit(k), Pow2(s), Val(a[..i]), Unit(at));
    if at < w {
      hide LeftNext;
      LeftValue(pn, at, d, s);
      LeftWidth(pn, at, d, s);
      CarryMore(c, d / Pow2(32 - s), Unit(w));
    } else {
      UnitAdd(at - w, w);
      DropSum(d * Pow2(s), Unit(at - w), Unit(w));
      CarryMore(c, d * Pow2(s) * Unit(at - w), Unit(w));
    }
  }

  lemma LeftWidth(pn: seq<int>, at: nat, d: nat, s: nat)
    requires AreLimbs(pn) && s < 32
    ensures |LeftNext(pn, at, d, s)| == |pn|
  {
  }

  lemma CarryMore(c: int, x: int, m: int)
    ensures (c + x) * m == c * m + x * m
  {
  }

  lemma ShiftSum(d: int, ui: int, uk: int, p: int, v: int, u: int)
    requires u == ui * uk
    ensures (v + d * ui) * (uk * p) == v * (uk * p) + (d * p) * u
  {
    assert (d * ui) * (uk * p) == (d * p) * (ui * uk);
  }

  lemma HighOfZero(d: nat, s: nat)
    requires d < LIMB && s < 32
    ensures s == 0 ==> d / Pow2(32 - s) == 0
  {
    Pow2Values();
  }

  lemma BelowWord(x: nat, s: nat)
    requires s < 32 && x < Pow2(s)
    ensures x < LIMB
  {
    Pow2Mono(s, 32);
    Pow2Values();
  }

  lemma LimbSum(hi: int, lo: int, n: int, u: int)
    requires n == hi * LIMB + lo
    ensures hi * (LIMB * u) + lo * u == n * u
  {
  }

  lemma DropSum(x: int, u: int, m: int)
    ensures (x * u) * m == x * (u * m)
  {
  }

  lemma Unshift(shift: nat)
    ensures Pow2(shift) == Unit(shift / 32) * Pow2(shift % 32)
  {
    Pow2Add(32 * (shift / 32), shift % 32);
  }

  lemma LeftEnd(pn: seq<int>, a: seq<int>, k: nat, s: nat, c: int)
    requires ShiftedLeft(pn, a, |a|, k, s, c)
    ensures AreLimbs(pn) && Val(pn) == (Val(a) * (Unit(k) * Pow2(s))) % Modulus(|a|)
  {
    hide Val, Unit, Pow2;
    assert a[..|a|] == a;
    ValBound(pn);
    DivUnique(Val(a) * (Unit(k) * Pow2(s)), Unit(|a|), c, Val(pn));
  }

  /** While shifting right: what the first i limbs come to, and what is shifted out of them. */
  ghost predicate ShiftedRight(pn: seq<int>, a: seq<int>, i: nat, k: nat, s: nat, out: int) {
    && |pn| == |a| && i <= |a| && s < 32
    && AreLimbs(pn) && AreLimbs(a)
    && (forall j :: i - k <= j < |pn| && 0 <= j ==> pn[j] == 0)
    && (0 <= i - k - 1 ==> pn[i - k - 1] < Pow2(32 - s))
    && 0 <= out < Unit(k) * Pow2(s)
    && Val(pn) * (Unit(k) * Pow2(s)) + out == Val(a[..i])
  }

  method ShiftRight(pn: array<int>, shift: nat)
    requires AreLimbs(pn[..])
    modifies pn
    ensures AreLimbs(pn[..]) && Val(pn[..]) == old(Val(pn[..])) / Pow2(shift)
  {
    hide Val, Unit, Pow2, Or, ShiftedRight, RightNext;
    var a := Copy(pn);
    ghost var as' := a[..];
    Clear(pn);
    var k, s := shift / 32, shift % 32;
    ghost var out := 0;
    var i := 0;
    RightStart(pn[..], as', k, s);
    while i < a.Length
      modifies pn
      invariant 0 <= i <= a.Length && ShiftedRight(pn[..], as', i, k, s, out)
    {
      ghost var before := pn[..];
      assert a[i] == as'[i];
      RightShape(before, as', i, k, s, out);
      out := RightStep(before, as', i, k, s, out);
      PutRight(pn, i - k, a[i], s);
      i := i + 1;
    }
    Unshift(shift);
    RightEnd(pn[..], as', k, s, out);
  }

  method PutRight(pn: array<int>, at: int, d: nat, s: nat)
    requires AreLimbs(pn[..]) && s < 32 && d < LIMB && at < pn.Length
    modifies pn
    ensures pn[..] == RightNext(old(pn[..]), at, d, s)
  {
    hide Pow2, Or;
    SplitLimb(d, 32 - s);
    if at - 1 >= 0 && s != 0 {
      pn[at - 1] := Or(pn[at - 1], d * Pow2(32 - s) % LIMB);
    }
    if at >= 0 {
      pn[at] := Or(pn[at], d / Pow2(s));
    }
  }

  ghost function RightNext(pn: seq<int>, at: int, d: nat, s: nat): seq<int>
    requires s < 32 && at < |pn|
  {
    var low := if at - 1 >= 0 && s != 0 then pn[at - 1 := OrInt(pn[at - 1], d * Pow2(32 - s) % LIMB)] else pn;
    if at >= 0 then low[at := OrInt(low[at], d / Pow2(s))] else low
  }

  lemma RightStart(pn: seq<int>, a: seq<int>, k: nat, s: nat)
    requires |pn| == |a| && AreLimbs(pn) && AreLimbs(a) && s < 32
    requires (forall j :: 0 <= j < |pn| ==> pn[j] == 0) && Val(pn) == 0
    ensures ShiftedRight(pn, a, 0, k, s, 0)
  {
    hide Unit;
    assert Val(a[..0]) == 0;
    MulMono(1, Unit(k), Pow2(s));
  }

  lemma RightShape(pn: seq<int>, a: seq<int>, i: nat, k: nat, s: nat, out: int)
    requires ShiftedRight(pn, a, i, k, s, out) && i < |a|
    ensures |pn| == |a| && 0 <= a[i] < LIMB && AreLimbs(pn) && i - k < |pn|
  {
  }

  /** From the second limb on: the limb adds itself, shifted up by 32 - s, at the place below. */
  lemma RightValue(pn: seq<int>, at: nat, d: nat, s: nat)
    requires AreLimbs(pn) && s < 32 && d < LIMB && 0 < at < |pn| && pn[at] == 0 && pn[at - 1] < Pow2(32 - s)
    ensures AreLimbs(RightNext(pn, at, d, s)) && |RightNext(pn, at, d, s)| == |pn|
    ensures Val(RightNext(pn, at, d, s)) == Val(pn) + (d * Pow2(32 - s)) * Unit(at - 1)
    ensures RightNext(pn, at, d, s)[at] < Pow2(32 - s)
    ensures forall j :: at < j < |pn| ==> RightNext(pn, at, d, s)[j] == pn[j]
  {
    hide Val, Unit, Pow2, Or;
    var hi, lo, m := d / Pow2(s), d * Pow2(32 - s) % LIMB, d % Pow2(s);
    SplitLimb(d, 32 - s);
    OrAbove(pn[at - 1], m, 32 - s);
    BelowLimb(pn[at - 1], m, 32 - s);
    OrNothing(hi);
    BelowHalf(hi, s);
    LowOfZero(d, s);
    var low := pn[at - 1 := pn[at - 1] + lo];
    if s == 0 { assert low == pn; }
    ValUpdate(pn, at - 1, pn[at - 1] + lo);
    ValUpdate(low, at, hi);
    UnitNext(at - 1);
    LimbSum(hi, lo, d * Pow2(32 - s), Unit(at - 1));
  }

  lemma BelowHalf(x: nat, s: nat)
    requires s < 32 && x < Pow2(32 - s)
    ensures x < LIMB
  {
    Pow2Mono(32 - s, 32);
    Pow2Values();
  }

  lemma LowOfZero(d: nat, s: nat)
    requires s < 32
    ensures s == 0 ==> d * Pow2(32 - s) % LIMB == 0
  {
    Pow2Values();
    if s == 0 { DivUnique(d * LIMB, LIMB, d, 0); }
  }

  lemma RightEnd(pn: seq<int>, a: seq<int>, k: nat, s: nat, out: int)
    requires ShiftedRight(pn, a, |a|, k, s, out)
    ensures AreLimbs(pn) && Val(pn) == Val(a) / (Unit(k) * Pow2(s))
  {
    hide Val, Unit, Pow2;
    assert a[..|a|] == a;
    DivUnique(Val(a), Unit(k) * Pow2(s), Val(pn), out);
  }

  lemma RightStep(pn: seq<int>, a: seq<int>, i: nat, k: nat, s: nat, out: int) returns (out': int)
    requires ShiftedRight(pn, a, i, k, s, out) && i < |a|
    ensures ShiftedRight(RightNext(pn, i - k, a[i], s), a, i + 1, k, s, out')
  {
    hide Val, Unit, Pow2, Or;
    var d := a[i];
    ValPrefix(a, i);
    if i > k {
      hide RightNext;
      RightValue(pn, i - k, d, s);
      RightScale(i, k, s, d, Val(pn));
      out' := out;
    } else if i == k {
      out' := RightFirst(pn, a, k, s, out);
    } else {
      out' := RightNone(pn, a, i, k, s, out);
    }
  }

  lemma RightScale(i: nat, k: nat, s: nat, d: int, v: int)
    requires i > k && s < 32
    ensures (v + (d * Pow2(32 - s)) * Unit(i - k - 1)) * (Unit(k) * Pow2(s)) == v * (Unit(k) * Pow2(s)) + d * Unit(i)
  {
    hide Unit, Pow2;
    Pow2Add(32 - s, s);
    Pow2Values();
    UnitNext(i - 1);
    UnitAdd(i - k - 1, k);
    var p, q, u, t := Pow2(32 - s), Pow2(s), Unit(i - k - 1), Unit(k);
    assert ((d * p) * u) * (t * q) == d * ((p * q) * (u * t));
  }

  lemma FirstLimb(pn: seq<int>, d: nat, s: nat)
    requires AreLimbs(pn) && s < 32 && d < LIMB && |pn| > 0 && forall j :: 0 <= j < |pn| ==> pn[j] == 0
    ensures 0 <= d / Pow2(s) < Pow2(32 - s) && d / Pow2(s) < LIMB
    ensures RightNext(pn, 0, d, s) == pn[0 := d / Pow2(s)] && Val(RightNext(pn, 0, d, s)) == d / Pow2(s)
  {
    hide Val, Unit, Pow2, Or;
    SplitLimb(d, 32 - s);
    OrNothing(d / Pow2(s));
    BelowHalf(d / Pow2(s), s);
    ValZero(pn);
    ValUpdate(pn, 0, d / Pow2(s));
    UnitNext(0);
  }

  lemma OutBound(out: int, m: int, p: int, u: int)
    requires 0 <= out < u && 0 <= m < p
    ensures 0 <= out + m * u < u * p
  {
    MulMono(m + 1, p, u);
    MulMono(0, m, u);
  }

  /** The limb that straddles the shift. */
  lemma RightFirst(pn: seq<int>, a: seq<int>, k: nat, s: nat, out: int) returns (out': int)
    requires ShiftedRight(pn, a, k, k, s, out) && k < |a|
    ensures ShiftedRight(RightNext(pn, 0, a[k], s), a, k + 1, k, s, out')
  {
    hide Val, Unit, Pow2, Or, RightNext;
    var d := a[k];
    var hi, m := d / Pow2(s), d % Pow2(s);
    FirstLimb(pn, d, s);
    DivModEq(d, Pow2(s));
    ValZero(pn);
    ValPrefix(a, k);
    ValBound(a[..k]);
    out' := out + m * Unit(k);
    OutBound(out, m, Pow2(s), Unit(k));
    FirstSum(hi, m, d, Unit(k), Pow2(s));
  }

  lemma FirstSum(hi: int, m: int, d: int, u: int, p: int)
    requires d == hi * p + m
    ensures hi * (u * p) + m * u == d * u
  {
  }

  /** Limbs below the shift are shifted out. */
  lemma RightNone(pn: seq<int>, a: seq<int>, i: nat, k: nat, s: nat, out: int) returns (out': int)
    requires ShiftedRight(pn, a, i, k, s, out) && i < k && i < |a|
    ensures ShiftedRight(RightNext(pn, i - k, a[i], s), a, i + 1, k, s, out')
  {
    hide Val, Unit, Pow2, Or;
    ValZero(pn);
    ValBound(a[..i + 1]);
    out' := Val(a[..i + 1]);
    UnitMono(i + 1, k);
    MulMono(1, Pow2(s), Unit(k));
  }

  lemma UnitMono(i: nat, j: nat)
    requires i <= j
    ensures Unit(i) <= Unit(j)
  {
    Pow2Mono(32 * i, 32 * j);
  }

  // ---------- division ----------

  /** The n lowest bits are zeros. */
  ghost predicate LowZero(q: seq<int>, n: nat) {
    && (forall j :: 0 <= j < |q| && 32 * (j + 1) <= n ==> q[j] == 0)
    && (n / 32 < |q| ==> q[n / 32] % Pow2(n % 32) == 0)
  }

  lemma LowZeroAll(q: seq<int>, n: nat)
    requires forall j :: 0 <= j < |q| ==> q[j] == 0
    ensures LowZero(q, n)
  {
    DivUnique(0, Pow2(n % 32), 0, 0);
  }

  /** In its limb, the bit below the zeros is free. */
  lemma FreeBit(q: seq<int>, shift: nat)
    requires AreLimbs(q) && LowZero(q, shift + 1) && shift / 32 < |q|
    ensures var d, s := q[shift / 32], shift % 32;
      d % Pow2(s) == 0 && (d + Pow2(s)) % Pow2(s) == 0 && d + Pow2(s) < LIMB && Or(d, Pow2(s)) == d + Pow2(s)
  {
    hide Or, Pow2;
    var d, s := q[shift / 32], shift % 32;
    if s < 31 {
      assert (shift + 1) / 32 == shift / 32 && (shift + 1) % 32 == s + 1;
      FreeIn(d, s);
    } else {
      assert d == 0;
      OrNothing(Pow2(31));
      DivUnique(0, Pow2(31), 0, 0);
      DivUnique(Pow2(31), Pow2(31), 1, 0);
      Pow2Values();
    }
  }

  lemma FreeIn(d: nat, s: nat)
    requires s < 31 && d < LIMB && d % Pow2(s + 1) == 0
    ensures d % Pow2(s) == 0 && (d + Pow2(s)) % Pow2(s) == 0 && d + Pow2(s) < LIMB && Or(d, Pow2(s)) == d + Pow2(s)
  {
    hide Or, Pow2;
    var p, r := Pow2(s), Pow2(31 - s);
    Pow2Add(1, s);
    PowOne();
    Pow2Add(31 - s, s + 1);
    Pow2Values();
    var m := d / (2 * p);
    DivNat(d, 2 * p);
    EvenMultiple(d, p, r);
    OrDisjoint(p, m, s + 1);
    OrCommutes(p, m * (2 * p));
  }

  lemma EvenMultiple(d: int, p: int, r: int)
    requires p > 0 && d >= 0 && d % (2 * p) == 0 && r * (2 * p) == LIMB && d < LIMB
    ensures d == d / (2 * p) * (2 * p) && d % p == 0 && (d + p) % p == 0 && d + p < LIMB
  {
    DivModEq(d, 2 * p);
    var m := d / (2 * p);
    Halves(d, p, m);
    if m >= r {
      MulMono(r, m, 2 * p);
      assert false;
    }
    MulMono(m + 1, r, 2 * p);
  }

  lemma Halves(d: int, p: int, m: int)
    requires p > 0 && d == m * (2 * p)
    ensures d % p == 0 && (d + p) % p == 0
  {
    assert d == (2 * m) * p && d + p == (2 * m + 1) * p;
    DivUnique(d, p, 2 * m, 0);
    DivUnique(d + p, p, 2 * m + 1, 0);
  }

  lemma PowOne()
    ensures Pow2(1) == 2
  {
  }

  lemma SetBit(q: seq<int>, shift: nat)
    requires AreLimbs(q) && LowZero(q, shift + 1) && shift / 32 < |q|
    ensures LowZero(q, shift)
    ensures var k := shift / 32;
      var next := q[k := Or(q[k], Pow2(shift % 32))];
      AreLimbs(next) && LowZero(next, shift) && Val(next) == Val(q) + Pow2(shift)
  {
    hide Or, Pow2, Val, Unit;
    FreeBit(q, shift);
    var k := shift / 32;
    ValUpdate(q, k, q[k] + Pow2(shift % 32));
    Unshift(shift);
  }

  /** What the loop keeps: quotient so far times divisor, plus what is left, is the dividend. */
  ghost predicate Dividing(x: int, b: int, q: seq<int>, num: int, div: int, shift: int) {
    && -1 <= shift < 32 * |q|
    && AreLimbs(q) && LowZero(q, shift + 1)
    && 0 <= num < b * Pow2(shift + 1)
    && (shift >= 0 ==> div == b * Pow2(shift))
    && x == Val(q) * b + num
  }

  lemma DivideStep(x: int, b: int, q: seq<int>, num: int, div: int, shift: nat)
    requires b > 0 && Dividing(x, b, q, num, div, shift)
    ensures shift / 32 < |q| && 0 <= q[shift / 32]
    ensures num < div ==> Dividing(x, b, q, num, div / 2, shift - 1)
    ensures num >= div ==>
      Dividing(x, b, q[shift / 32 := Or(q[shift / 32], Pow2(shift % 32))], num - div, div / 2, shift - 1)
  {
    hide Or, Pow2, Val, LowZero;
    SetBit(q, shift);
    Pow2Add(1, shift);
    PowOne();
    Doubles(b, Pow2(shift));
    QuotientMore(Val(q), Pow2(shift), b);
    if shift > 0 {
      Pow2Add(1, shift - 1);
      Doubles(b, Pow2(shift - 1));
    }
  }

  lemma Doubles(b: int, p: int)
    ensures b * (2 * p) == 2 * (b * p) && (2 * (b * p)) / 2 == b * p
  {
  }

  lemma QuotientMore(q: int, p: int, b: int)
    ensures (q + p) * b == q * b + b * p
  {
  }

  /** Shift-and-subtract division; a zero divisor is refused, with the dividend already cleared. */
  method Divide(pn: array<int>, b: array<int>) returns (ok: bool)
    requires AreLimbs(pn[..]) && AreLimbs(b[..]) && pn.Length == b.Length
    modifies pn
    ensures ok <==> old(Val(b[..])) != 0
    ensures AreLimbs(pn[..]) && Val(pn[..]) == if ok then old(Val(pn[..])) / old(Val(b[..])) else 0
  {
    hide Val, Pow2, Or, LowZero, Unit;
    var div := Copy(b);
    var num := Copy(pn);
    ghost var x, y := Val(num[..]), Val(div[..]);
    Clear(pn);
    var numBits := BitLength(num);
    var divBits := BitLength(div);
    ValBound(num[..]);
    ValBound(div[..]);
    if divBits == 0 {
      return false;
    }
    if divBits > numBits {
      SmallerBits(x, y, numBits, divBits);
      return true;
    }
    var shift := numBits - divBits;
    Aligned(x, y, numBits, divBits, pn.Length);
    ShiftLeft(div, shift);
    LowZeroAll(pn[..], shift + 1);
    DivideLoop(pn, num, div, shift, x, y);
    ok := true;
  }

  lemma SmallerBits(x: int, y: int, nx: nat, ny: nat)
    requires 0 <= x && (nx == 0 <==> x == 0) && (nx > 0 ==> x < Pow2(nx)) && ny > nx && Pow2(ny - 1) <= y
    ensures y > 0 && x / y == 0
  {
    Pow2Mono(nx, ny - 1);
    DivUnique(x, y, 0, x);
  }

  lemma Aligned(x: int, y: int, nx: nat, ny: nat, w: nat)
    requires 0 < ny <= nx <= 32 * w && x < Pow2(nx) && Pow2(ny - 1) <= y < Pow2(ny)
    ensures 0 <= y * Pow2(nx - ny) < Modulus(w) && (y * Pow2(nx - ny)) % Modulus(w) == y * Pow2(nx - ny)
    ensures x < y * Pow2(nx - ny + 1)
  {
    hide Pow2;
    Pow2Add(ny, nx - ny);
    Pow2Add(ny - 1, nx - ny + 1);
    Pow2Mono(nx, 32 * w);
    MulMono(y + 1, Pow2(ny), Pow2(nx - ny));
    MulMono(Pow2(ny - 1), y, Pow2(nx - ny + 1));
    MulMono(0, y, Pow2(nx - ny));
    DivUnique(y * Pow2(nx - ny), Modulus(w), 0, y * Pow2(nx - ny));
  }

  method DivideLoop(pn: array<int>, num: array<int>, div: array<int>, shift0: nat, ghost x: int, ghost y: int)
    requires pn.Length == num.Length == div.Length && pn != num && pn != div && num != div
    requires AreLimbs(num[..]) && AreLimbs(div[..]) && y > 0
    requires Dividing(x, y, pn[..], Val(num[..]), Val(div[..]), shift0)
    modifies pn, num, div
    ensures AreLimbs(pn[..]) && Val(pn[..]) == x / y
  {
    hide Val, Pow2, Or, LowZero, Unit, Dividing;
    var shift: int := shift0;
    while shift >= 0
      invariant -1 <= shift && AreLimbs(num[..]) && AreLimbs(div[..])
      invariant Dividing(x, y, pn[..], Val(num[..]), Val(div[..]), shift)
      decreases shift
    {
      DivideStep(x, y, pn[..], Val(num[..]), Val(div[..]), shift);
      DivideLimbs(x, y, pn[..], Val(num[..]), Val(div[..]), shift);
      var c := CompareTo(num, div);
      if c >= 0 {
        ValBound(num[..]);
        ValBound(div[..]);
        SubtractSmall(Val(num[..]), Val(div[..]), Modulus(pn.Length));
        Subtract(num, div);
        pn[shift / 32] := Or(pn[shift / 32], Pow2(shift % 32));
      }
      PowOne();
      ShiftRight(div, 1);
      shift := shift - 1;
    }
    DivideEnd(x, y, pn[..], Val(num[..]), Val(div[..]));
  }

  lemma DivideLimbs(x: int, b: int, q: seq<int>, num: int, div: int, shift: int)
    requires Dividing(x, b, q, num, div, shift)
    ensures AreLimbs(q) && num >= 0
  {
  }

  lemma SubtractSmall(a: int, b: int, m: int)
    requires 0 <= b <= a < m
    ensures (a - b) % m == a - b
  {
    DivUnique(a - b, m, 0, a - b);
  }

  lemma DivideEnd(x: int, b: int, q: seq<int>, num: int, div: int)
    requires b > 0 && Dividing(x, b, q, num, div, -1)
    ensures AreLimbs(q) && Val(q) == x / b
  {
    hide Val;
    DivUnique(x, b, Val(q), num);
  }
}

/** The compact form of difficulty targets, and the work a target stands for. */
module CompactTarget {
  import opened Bits
  import opened Limbs
  import opened ArithUint

  const WIDTH: nat := 8

  /** 256 to the power k. */
  ghost function Bytes(k: nat): (r: int)
    ensures r > 0
  {
    Pow2(8 * k)
  }

  function Size(c: nat): nat {
    c / 0x100_0000
  }

  function Mantissa(c: nat): nat {
    c % 0x80_0000
  }

  function SignBit(c: nat): bool {
    c / 0x80_0000 % 2 == 1
  }

  /** The number a compact form stands for, its sign left aside: the mantissa times 256 to the power
      of the size less three. */
  ghost function Target(c: nat): int {
    if Size(c) <= 3 then Mantissa(c) / Bytes(3 - Size(c)) else Mantissa(c) * Bytes(Size(c) - 3)
  }

  lemma CompactFields(c: nat)
    requires c < LIMB
    ensures And(c, 0x7F_FFFF) == Mantissa(c) && (And(c, 0x80_0000) != 0 <==> SignBit(c)) && Size(c) < 256
  {
    hide And;
    Pow2Add(16, 7);
    Pow2Add(3, 4);
    Pow2Values();
    assert Pow2(3) == 8 && Pow2(4) == 16;
    AndMask(c, 23);
    AndPow2(c, 23);
  }

  lemma ByteShift(k: nat)
    ensures Bytes(k) == Pow2(8 * k) && Modulus(WIDTH) == Bytes(32)
  {
  }

  lemma BytesAdd(i: nat, j: nat)
    ensures Bytes(i + j) == Bytes(i) * Bytes(j)
  {
    Pow2Add(8 * i, 8 * j);
  }

  lemma BytesMono(i: nat, j: nat)
    requires i <= j
    ensures Bytes(i) <= Bytes(j)
  {
    Pow2Mono(8 * i, 8 * j);
  }

  lemma SmallBytes()
    ensures Bytes(0) == 1 && Bytes(1) == 0x100 && Bytes(2) == 0x1_0000 && Bytes(3) == 0x100_0000
  {
    Pow2Values();
    Pow2Add(16, 8);
  }

  /** Which mantissas do not fit in 32 bytes. */
  lemma OverflowIs(m: nat, n: nat)
    requires m < 0x80_0000 && n > 3
    ensures m * Bytes(n - 3) >= Bytes(32) <==> m != 0 && (n > 34 || (m > 0xFF && n > 33) || (m > 0xFFFF && n > 32))
  {
    hide Bytes;
    SmallBytes();
    var b := Bytes(n - 3);
    if m == 0 {
      assert m * b == 0;
    } else if n > 34 {
      BytesMono(32, n - 3);
      MulMono(1, m, b);
    } else {
      BytesAdd(n - 3, 35 - n);
      Compare(m, b, Bytes(35 - n));
      if n <= 32 { BytesMono(3, 35 - n); }
    }
  }

  lemma Compare(m: int, b: int, p: int)
    requires b > 0
    ensures m * b >= b * p <==> m >= p
  {
    if m >= p { MulMono(p, m, b); } else { MulMono(m + 1, p, b); }
  }

  /** The flags are exact: negative for a sign on a number that is not zero, overflow for a number
      of more than 256 bits. */
  method SetCompact(pn: array<int>, nCompact: nat) returns (negative: bool, overflow: bool)
    requires pn.Length == WIDTH && nCompact < LIMB
    modifies pn
    ensures AreLimbs(pn[..]) && Val(pn[..]) == Target(nCompact) % Modulus(WIDTH)
    ensures negative <==> Target(nCompact) != 0 && SignBit(nCompact)
    ensures overflow <==> Target(nCompact) >= Modulus(WIDTH)
  {
    hide Val, Unit, Pow2, Bytes, And, Modulus;
    CompactFields(nCompact);
    ByteShift(0);
    SmallBytes();
    BytesMono(4, 32);
    var nSize := nCompact / 0x100_0000;
    var nWord := And(nCompact, 0x7F_FFFF);
    if nSize <= 3 {
      ByteShift(3 - nSize);
      SmallTarget(nWord, 3 - nSize);
      nWord := nWord / Pow2(8 * (3 - nSize));
      Assign(pn, nWord);
    } else {
      ByteShift(nSize - 3);
      OverflowIs(nWord, nSize);
      NonZeroProduct(nWord, Bytes(nSize - 3));
      Assign(pn, nWord);
      ShiftLeft(pn, 8 * (nSize - 3));
    }
    negative := nWord != 0 && And(nCompact, 0x80_0000) != 0;
    overflow := nWord != 0 && (nSize > 34 || (nWord > 0xFF && nSize > 33) || (nWord > 0xFFFF && nSize > 32));
  }

  lemma SmallTarget(m: nat, k: nat)
    requires m < 0x80_0000 && k <= 3
    ensures 0 <= m / Bytes(k) <= m && m / Bytes(k) < Bytes(4) && (m / Bytes(k)) % Modulus(WIDTH) == m / Bytes(k)
  {
    hide Bytes;
    SmallBytes();
    BytesMono(3, 4);
    BytesMono(4, 32);
    DivShrinks(m, Bytes(k));
    ByteShift(0);
    DivUnique(m / Bytes(k), Modulus(WIDTH), 0, m / Bytes(k));
  }

  lemma DivShrinks(m: int, b: int)
    requires m >= 0 && b > 0
    ensures 0 <= m / b <= m
  {
    DivModEq(m, b);
    var q := m / b;
    if q < 0 { MulMono(q, -1, b); assert false; }
    MulMono(1, b, q);
  }

  lemma NonZeroProduct(m: int, b: int)
    requires b > 0 && m >= 0
    ensures m * b == 0 <==> m == 0
  {
    if m > 0 { MulMono(1, m, b); }
  }

  // ---------- back to the compact form ----------

  /** n is the least size whose sign bit stays clear: 2^(8n - 9) <= v < 2^(8n - 1). */
  ghost predicate SizeOf(v: int, n: nat) {
    if n == 0 then v == 0 else v > 0 && v < Pow2(8 * n - 1) && (n > 1 ==> Pow2(8 * n - 9) <= v)
  }

  /** That size. */
  ghost function SizeFor(v: int): nat
    decreases v
  {
    if v <= 0 then 0
    else if v < 128 then 1
    else if v < 256 then 2
    else 1 + SizeFor(v / 256)
  }

  lemma {:induction false} SizeForOk(v: int)
    requires v >= 0
    ensures SizeOf(v, SizeFor(v))
    decreases v
  {
    if v < 256 {
      SmallSizes(v);
    } else {
      SizeForOk(v / 256);
      SizeStep(v, SizeFor(v / 256));
    }
  }

  lemma SmallSizes(v: int)
    requires 0 <= v < 256
    ensures SizeOf(v, if v == 0 then 0 else if v < 128 then 1 else 2)
  {
    PowSeven();
    TwentyThree();
  }

  lemma SizeStep(v: int, n: nat)
    requires v >= 256 && SizeOf(v / 256, n)
    ensures SizeOf(v, n + 1)
  {
    hide Pow2;
    Pow2Add(8 * n - 1, 8);
    Pow2Values();
    if n > 1 { Pow2Add(8 * n - 9, 8); }
    PowSeven();
  }

  lemma PowSeven()
    ensures Pow2(7) == 128
  {
  }

  /** The three highest bytes of v at size n. */
  ghost function TopOf(v: int, n: nat): int {
    if n <= 3 then v * Bytes(3 - n) else v / Bytes(n - 3)
  }

  ghost function Compact(v: int, n: nat, negative: bool): int {
    n * 0x100_0000 + TopOf(v, n) + if negative && TopOf(v, n) != 0 then 0x80_0000 else 0
  }

  lemma TopSmall(v: int, n: nat)
    requires v >= 0 && SizeOf(v, n)
    ensures 0 <= TopOf(v, n) < 0x80_0000
  {
    hide Pow2;
    TwentyThree();
    if n == 0 {
      assert v * Bytes(3) == 0;
    } else if n <= 3 {
      Pow2Add(8 * n - 1, 8 * (3 - n));
      MulMono(v + 1, Pow2(8 * n - 1), Bytes(3 - n));
      MulMono(0, v, Bytes(3 - n));
    } else {
      Pow2Add(23, 8 * (n - 3));
      QuotientBelow(v, Bytes(n - 3), 0x80_0000);
    }
  }

  lemma TwentyThree()
    ensures Pow2(23) == 0x80_0000 && Pow2(24) == 0x100_0000 && Pow2(15) == 0x8000
  {
    Pow2Values();
    Pow2Add(16, 8);
    Pow2Add(8, 7);
    Pow2Add(16, 7);
    assert Pow2(7) == 128;
  }

  lemma QuotientBelow(v: int, b: int, m: int)
    requires v >= 0 && b > 0 && v < m * b
    ensures 0 <= v / b < m
  {
    DivModEq(v, b);
    DivShrinks(v, b);
    if v / b >= m { MulMono(m, v / b, b); assert false; }
  }

  lemma SizeUnique(v: int, m: nat, n: nat)
    requires SizeOf(v, m) && SizeOf(v, n)
    ensures m == n
  {
    if m < n && m > 0 { Pow2Mono(8 * m - 1, 8 * n - 9); }
    if n < m && n > 0 { Pow2Mono(8 * n - 1, 8 * m - 9); }
  }

  /** By the byte count: if the top bit of the top byte is set, one more byte is needed. */
  lemma SizeFromBits(v: int, bits: nat)
    requires if bits == 0 then v == 0 else Pow2(bits - 1) <= v < Pow2(bits)
    ensures bits % 8 == 0 && bits > 0 ==> SizeOf(v, bits / 8 + 1)
    ensures bits % 8 != 0 || bits == 0 ==> SizeOf(v, (bits + 7) / 8)
  {
    hide Pow2;
    if bits > 0 {
      var n := if bits % 8 == 0 then bits / 8 + 1 else (bits + 7) / 8;
      Pow2Mono(bits, 8 * n - 1);
      if n > 1 { Pow2Mono(8 * n - 9, bits - 1); }
    }
  }

  /** The top three bytes have their highest bit set exactly when the bits fill the bytes; dropping
      one more byte then gives the top at the next size. */
  lemma TopBit(v: int, bits: nat)
    requires if bits == 0 then v == 0 else Pow2(bits - 1) <= v < Pow2(bits)
    ensures var n := (bits + 7) / 8;
      && 0 <= TopOf(v, n) < 0x100_0000
      && (TopOf(v, n) >= 0x80_0000 <==> bits % 8 == 0 && bits > 0)
      && TopOf(v, n) / 256 == TopOf(v, n + 1)
  {
    hide Pow2, TopOf;
    var n := (bits + 7) / 8;
    TwentyThree();
    SizeFromBits(v, bits);
    NextTop(v, n);
    if bits % 8 == 0 && bits > 0 {
      FullTop(v, n);
    } else {
      TopSmall(v, n);
    }
  }

  lemma NextTop(v: int, n: nat)
    requires v >= 0
    ensures TopOf(v, n) / 256 == TopOf(v, n + 1)
  {
    hide Bytes;
    SmallBytes();
    if n < 3 {
      BytesAdd(1, 2 - n);
      assert v * Bytes(3 - n) == (v * Bytes(2 - n)) * 256;
      DivUnique(v * Bytes(3 - n), 256, v * Bytes(2 - n), 0);
    } else {
      BytesAdd(n - 3, 1);
      DivTwice(v, Bytes(n - 3), 256);
      if n == 3 { DivUnique(v, 1, v, 0); }
    }
  }

  lemma FullTop(v: int, n: nat)
    requires n > 0 && Pow2(8 * n - 1) <= v < Pow2(8 * n)
    ensures 0x80_0000 <= TopOf(v, n) < 0x100_0000
  {
    hide Pow2;
    TwentyThree();
    if n <= 3 {
      Pow2Add(8 * n - 1, 8 * (3 - n));
      Pow2Add(8 * n, 8 * (3 - n));
      MulMono(Pow2(8 * n - 1), v, Bytes(3 - n));
      MulMono(v + 1, Pow2(8 * n), Bytes(3 - n));
    } else {
      Pow2Add(23, 8 * (n - 3));
      Pow2Add(24, 8 * (n - 3));
      QuotientBelow(v, Bytes(n - 3), 0x100_0000);
      QuotientAbove(v, Bytes(n - 3), 0x80_0000);
    }
  }

  lemma QuotientAbove(v: int, b: int, m: int)
    requires v >= 0 && b > 0 && m * b <= v
    ensures m <= v / b
  {
    DivModEq(v, b);
    if v / b < m { MulMono(v / b + 1, m, b); assert false; }
  }

  /** The low 64 bits. */
  method GetLow64(pn: array<int>) returns (r: nat)
    requires pn.Length >= 2 && AreLimbs(pn[..])
    ensures r == Val(pn[..]) % (LIMB * LIMB)
  {
    hide Val, Unit, Or, Pow2;
    Pow2Values();
    LowTwo(pn[..]);
    OrDisjoint(pn[0], pn[1], 32);
    r := Or(pn[0], pn[1] * LIMB);
  }

  lemma LowTwo(s: seq<int>)
    requires |s| >= 2 && AreLimbs(s)
    ensures Val(s) % (LIMB * LIMB) == s[0] + s[1] * LIMB
  {
    hide Unit, Val;
    ValSplit(s, 2);
    ValBound(s[2..]);
    ValBound(s[..2]);
    ValPrefix(s, 0);
    ValPrefix(s, 1);
    UnitNext(0);
    UnitNext(1);
    ValNone(s);
    DivUnique(Val(s), LIMB * LIMB, Val(s[2..]), Val(s[..2]));
  }

  /** The size, and the three highest bytes; the sign only on a mantissa that is not zero. */
  method GetCompact(pn: array<int>, fNegative: bool) returns (c: nat)
    requires pn.Length == WIDTH && AreLimbs(pn[..])
    ensures SizeFor(Val(pn[..])) <= 33
    ensures c == Compact(Val(pn[..]), SizeFor(Val(pn[..])), fNegative)
  {
    hide Val, Unit, Pow2, Bytes, And, Or, Modulus, TopOf, SizeOf;
    ghost var v := Val(pn[..]);
    ValBound(pn[..]);
    var bits := BitLength(pn);
    TopBit(v, bits);
    SizeFromBits(v, bits);
    var nSize := (bits + 7) / 8;
    var nCompact := TopBytes(pn, nSize, bits);
    TwentyThree();
    HighBitOf(nCompact);
    if And(nCompact, 0x80_0000) != 0 {
      nCompact := nCompact / 256;
      nSize := nSize + 1;
    }
    assert nCompact < 0x80_0000 && nSize < 256;
    SizeForOk(v);
    SizeUnique(v, nSize, SizeFor(v));
    SizeAndMantissa(nCompact, nSize);
    nCompact := Or(nCompact, nSize * 0x100_0000);
    c := Or(nCompact, if fNegative && And(nCompact, 0x7F_FFFF) != 0 then 0x80_0000 else 0);
    OrNothing(nCompact);
  }

  lemma HighBitOf(x: nat)
    requires x < 0x100_0000
    ensures And(x, 0x80_0000) != 0 <==> x >= 0x80_0000
  {
    hide And;
    TwentyThree();
    AndPow2(x, 23);
    if x >= 0x80_0000 { DivUnique(x, 0x80_0000, 1, x - 0x80_0000); } else { DivUnique(x, 0x80_0000, 0, x); }
  }

  /** Putting the fields together, and reading the mantissa back. */
  lemma SizeAndMantissa(m: nat, n: nat)
    requires m < 0x80_0000
    ensures Or(m, n * 0x100_0000) == n * 0x100_0000 + m
    ensures And(n * 0x100_0000 + m, 0x7F_FFFF) == m
    ensures Or(n * 0x100_0000 + m, 0x80_0000) == n * 0x100_0000 + m + 0x80_0000
  {
    hide And, Or;
    TwentyThree();
    OrDisjoint(m, n, 24);
    AndMask(n * 0x100_0000 + m, 23);
    DivUnique(n * 0x100_0000 + m, 0x80_0000, 2 * n, m);
    OrMiddle(n, m);
  }

  lemma OrMiddle(n: nat, m: nat)
    requires m < 0x80_0000
    ensures Or(n * 0x100_0000 + m, 0x80_0000) == n * 0x100_0000 + m + 0x80_0000
  {
    hide Or;
    TwentyThree();
    OrHigh(2 * n, 1, m, 23);
    OrEvenOne(n);
  }

  lemma OrEvenOne(n: nat)
    ensures Or(2 * n, 1) == 2 * n + 1
  {
    hide Or;
    OrHalf(2 * n, 1);
    OrNothing(n);
  }

  method TopBytes(pn: array<int>, n: nat, ghost bits: nat) returns (top: nat)
    requires pn.Length == WIDTH && AreLimbs(pn[..]) && n == (bits + 7) / 8
    requires if bits == 0 then Val(pn[..]) == 0 else Pow2(bits - 1) <= Val(pn[..]) < Pow2(bits)
    ensures top == TopOf(Val(pn[..]), n)
  {
    hide Val, Unit, Pow2, Modulus, TopOf;
    ghost var v := Val(pn[..]);
    TopBit(v, bits);
    TopIs(v, n);
    if n <= 3 {
      SmallValue(v, bits);
      SmallMod(v);
      var low := GetLow64(pn);
      top := low * Pow2(8 * (3 - n)) % LIMB;
    } else {
      var bn := Copy(pn);
      ShiftRight(bn, 8 * (n - 3));
      SmallMod(TopOf(v, n));
      top := GetLow64(bn);
      top := top % LIMB;
    }
  }

  lemma SmallMod(v: int)
    requires 0 <= v < 0x100_0000
    ensures v % (LIMB * LIMB) == v && v % LIMB == v
  {
    DivUnique(v, LIMB * LIMB, 0, v);
  }

  lemma TopIs(v: int, n: nat)
    ensures TopOf(v, n) == if n <= 3 then v * Pow2(8 * (3 - n)) else v / Pow2(8 * (n - 3))
  {
  }

  lemma SmallValue(v: int, bits: nat)
    requires bits <= 24 && if bits == 0 then v == 0 else v < Pow2(bits)
    ensures v < 0x100_0000
  {
    Pow2Mono(bits, 24);
    TwentyThree();
  }

  // ---------- the laws of the compact form ----------

  lemma FieldsOf(n: nat, m: nat)
    requires m < 0x80_0000
    ensures Size(n * 0x100_0000 + m) == n && Mantissa(n * 0x100_0000 + m) == m
  {
    DivUnique(n * 0x100_0000 + m, 0x100_0000, n, m);
    DivUnique(n * 0x100_0000 + m, 0x80_0000, 2 * n, m);
  }

  /** What a compact form keeps of a number: all of it up to three bytes, else its highest bytes. */
  lemma Kept(v: int, n: nat)
    requires v >= 0 && SizeOf(v, n)
    ensures var t := Target(Compact(v, n, false));
      t == if n <= 3 then v else v / Bytes(n - 3) * Bytes(n - 3)
  {
    hide Pow2, SizeOf, Bytes;
    TopSmall(v, n);
    FieldsOf(n, TopOf(v, n));
    if n <= 3 { DivUnique(v * Bytes(3 - n), Bytes(3 - n), v, 0); }
  }

  /** Nothing is added, less than one part in 32768 is lost, and it never overflows. */
  lemma CompactPrecision(v: int, n: nat)
    requires v >= 0 && SizeOf(v, n)
    ensures var t := Target(Compact(v, n, false));
      t <= v && (v - t) * 0x8000 <= v && (v > 0 ==> (v - t) * 0x8000 < v)
  {
    hide Pow2;
    Kept(v, n);
    if n > 3 {
      var b := Bytes(n - 3);
      DivModEq(v, b);
      TwentyThree();
      Pow2Add(15, 8 * (n - 3));
      MulMono(v % b + 1, b, 0x8000);
    }
  }

  /** Cutting the low bytes off does not change the size. */
  lemma KeptSize(v: int, n: nat)
    requires v >= 0 && SizeOf(v, n)
    ensures SizeOf(Target(Compact(v, n, false)), n)
  {
    hide Pow2;
    Kept(v, n);
    if n > 3 {
      var b := Bytes(n - 3);
      DivModEq(v, b);
      TwentyThree();
      Pow2Add(15, 8 * (n - 3));
      QuotientAbove(v, b, 0x8000);
      MulMono(0x8000, v / b, b);
    }
  }

  /** Reading a compact form made from a number and making it again gives the same form. */
  lemma CompactIdempotent(v: int, n: nat, n': nat)
    requires v >= 0 && SizeOf(v, n)
    requires SizeOf(Target(Compact(v, n, false)), n')
    ensures Compact(Target(Compact(v, n, false)), n', false) == Compact(v, n, false)
  {
    hide Pow2, SizeOf, Bytes;
    var t := Target(Compact(v, n, false));
    Kept(v, n);
    KeptSize(v, n);
    SizeUnique(t, n, n');
    if n > 3 { DivUnique(v / Bytes(n - 3) * Bytes(n - 3), Bytes(n - 3), v / Bytes(n - 3), 0); }
  }

  /** The same over the methods: GetCompact, SetCompact and GetCompact again. */
  method CompactRoundTrip(pn: array<int>) returns (first: nat, second: nat, negative: bool, overflow: bool)
    requires pn.Length == WIDTH && AreLimbs(pn[..])
    modifies pn
    ensures second == first && !negative && !overflow
    ensures Val(pn[..]) <= old(Val(pn[..]))
  {
    hide Val, Unit, Pow2, Bytes, Modulus, TopOf, SizeOf, Compact, Target;
    ghost var v := Val(pn[..]);
    ghost var n := SizeFor(v);
    ValBound(pn[..]);
    SizeForOk(v);
    first := GetCompact(pn, false);
    CompactFits(v, n);
    CompactPrecision(v, n);
    negative, overflow := SetCompact(pn, first);
    ModulusIs();
    DivUnique(Target(first), Modulus(WIDTH), 0, Target(first));
    SizeForOk(Target(first));
    second := GetCompact(pn, false);
    CompactIdempotent(v, n, SizeFor(Target(first)));
  }

  lemma ModulusIs()
    ensures Modulus(WIDTH) == Unit(8) && WIDTH == 8
  {
  }

  lemma CompactFits(v: int, n: nat)
    requires v >= 0 && SizeOf(v, n) && n <= 33
    ensures 0 <= Compact(v, n, false) < LIMB && !SignBit(Compact(v, n, false)) && Target(Compact(v, n, false)) >= 0
  {
    hide Pow2, SizeOf, Bytes, TopOf;
    TopSmall(v, n);
    var c := n * 0x100_0000 + TopOf(v, n);
    DivUnique(c, 0x80_0000, 2 * n, TopOf(v, n));
    TargetNat(c);
  }

  lemma TargetNat(c: nat)
    ensures Target(c) >= 0
  {
    hide Bytes;
    if Size(c) <= 3 {
      DivShrinks(Mantissa(c), Bytes(3 - Size(c)));
    } else {
      MulMono(0, Mantissa(c), Bytes(Size(c) - 3));
    }
  }

  // ---------- work ----------

  /** 2^256 / (target + 1), rounded down; zero for a target that is negative, zero or too large. */
  ghost function Proof(nBits: nat): int
    requires Target(nBits) >= 0
  {
    if (Target(nBits) != 0 && SignBit(nBits)) || Target(nBits) >= Modulus(WIDTH) || Target(nBits) == 0 then 0
    else Modulus(WIDTH) / (Target(nBits) + 1)
  }

  /** A target that fits is never all ones, so one more still fits. */
  lemma RoomForOne(c: nat)
    requires Target(c) < Modulus(WIDTH)
    ensures Target(c) + 1 < Modulus(WIDTH)
  {
    hide Bytes;
    SmallBytes();
    ByteShift(0);
    if Size(c) <= 3 {
      DivShrinks(Mantissa(c), Bytes(3 - Size(c)));
      BytesMono(4, 32);
      BytesAdd(3, 1);
    } else {
      BytesAdd(Size(c) - 4, 1);
      BytesAdd(31, 1);
      EvenNumbers(Mantissa(c), Bytes(Size(c) - 4), Bytes(31));
    }
  }

  lemma EvenNumbers(m: int, b: int, p: int)
    ensures m * (b * 256) != p * 256 - 1
  {
    assert m * (b * 256) == (m * b) * 256;
  }

  /** ~t / (t + 1) + 1 */
  lemma ProofIs(m: int, t: int)
    requires 0 < t && t + 1 < m
    ensures (m - 1 - t) / (t + 1) + 1 == m / (t + 1)
    ensures 0 <= (m - 1 - t) / (t + 1) < m - 1
  {
    var d := t + 1;
    DivModEq(m - d, d);
    var q, r := (m - d) / d, (m - d) % d;
    assert m == (q + 1) * d + r;
    DivUnique(m, d, q + 1, r);
    DivShrinks(m - d, d);
  }

  /** The work of a block; the division never has a zero divisor. */
  method GetBlockProof(nBits: nat) returns (work: array<int>)
    requires nBits < LIMB
    ensures work.Length == WIDTH && AreLimbs(work[..])
    ensures Target(nBits) >= 0 && Val(work[..]) == Proof(nBits)
  {
    hide Val, Unit, Pow2, Bytes, Target, Modulus;
    TargetNat(nBits);
    work := new int[WIDTH];
    var target := new int[WIDTH];
    var negative, overflow := SetCompact(target, nBits);
    if negative || overflow {
      Clear(work);
      return;
    }
    ghost var t, m := Target(nBits), Modulus(WIDTH);
    DivUnique(t, m, 0, t);
    var zero := EqualTo(target, 0);
    if zero {
      Clear(work);
      return;
    }
    RoomForOne(nBits);
    ProofIs(m, t);
    work := Complement(target);
    ModulusIs();
    Increment(target);
    DivUnique(t + 1, m, 0, t + 1);
    var ok := Divide(work, target);
    assert ok;
    Increment(work);
    DivUnique(m / (t + 1), m, 0, m / (t + 1));
  }
}
