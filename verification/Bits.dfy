/** Bitwise operations of C's unsigned integers, on natural numbers, with the few laws the
    other modules use.  Operands are kept below the word size by the callers, and every place
    where the source relies on wrap-around writes the reduction out. */
module Bits {

  function Pow2(n: nat): (r: nat)
    ensures r > 0
  {
    if n == 0 then 1 else 2 * Pow2(n - 1)
  }

  function And(a: nat, b: nat): nat {
    if a == 0 || b == 0 then 0
    else 2 * And(a / 2, b / 2) + (a % 2) * (b % 2)
  }

  function Or(a: nat, b: nat): nat
    decreases a + b
  {
    if a == 0 then b else if b == 0 then a
    else 2 * Or(a / 2, b / 2) + (if a % 2 == 1 || b % 2 == 1 then 1 else 0)
  }

  function Xor(a: nat, b: nat): nat
    decreases a + b
  {
    if a == 0 then b else if b == 0 then a
    else 2 * Xor(a / 2, b / 2) + (a + b) % 2
  }

  /** Bit k of x, as the C expression (x >> k) & 1. */
  predicate Bit(x: nat, k: nat) {
    (x / Pow2(k)) % 2 == 1
  }

  lemma {:induction false} Pow2Add(a: nat, b: nat)
    ensures Pow2(a + b) == Pow2(a) * Pow2(b)
  {
    if a == 0 {
    } else {
      Pow2Add(a - 1, b);
      assert Pow2(a + b) == 2 * (Pow2(a - 1) * Pow2(b)) == Pow2(a) * Pow2(b);
    }
  }

  lemma {:induction false} Pow2Mono(a: nat, b: nat)
    requires a <= b
    ensures Pow2(a) <= Pow2(b)
  {
    if a == b {
    } else {
      Pow2Mono(a, b - 1);
    }
  }

  lemma DivHalf(x: nat, k: nat)
    requires k > 0
    ensures x / Pow2(k) == (x / 2) / Pow2(k - 1)
  {
    var p := Pow2(k - 1);
    var q, r := (x / 2) / p, (x / 2) % p;
    assert x / 2 == q * p + r;
    assert x == q * (2 * p) + (2 * r + x % 2);
    DivUnique(x, 2 * p, q, 2 * r + x % 2);
  }

  lemma MulMono(a: int, b: int, c: int)
    requires a <= b && c >= 0
    ensures a * c <= b * c
  {
  }

  /** Quotient and remainder are the only pair that fits the division. */
  lemma DivUnique(x: int, d: int, q: int, r: int)
    requires 0 <= r < d
    requires x == q * d + r
    ensures x / d == q && x % d == r
  {
    var q', r' := x / d, x % d;
    DivModEq(x, d);
    if q' > q {
      MulMono(q + 1, q', d);
      assert false;
    }
    if q' < q {
      MulMono(q' + 1, q, d);
      assert false;
    }
  }

  lemma DivModEq(x: int, d: int)
    requires d > 0
    ensures x == (x / d) * d + x % d
    ensures 0 <= x % d < d
  {
  }

  /** Dividing twice is dividing by the product, remainders included. */
  lemma DivTwice(x: int, a: int, b: int)
    requires x >= 0 && a > 0 && b > 0
    ensures a * b > 0 && x / (a * b) == x / a / b && x % (a * b) == x / a % b * a + x % a
  {
    DivModEq(x, a);
    DivModEq(x / a, b);
    Nested(x, x / a, x % a, x / a / b, x / a % b, a, b);
    DivUnique(x, a * b, x / a / b, x / a % b * a + x % a);
  }

  lemma Nested(x: int, y: int, r: int, z: int, t: int, a: int, b: int)
    requires 0 <= r < a && 0 <= t < b && x == y * a + r && y == z * b + t
    ensures a * b > 0 && x == z * (a * b) + (t * a + r) && 0 <= t * a + r < a * b
  {
    MulMono(t + 1, b, a);
    MulMono(0, t, a);
    assert (z * b) * a == z * (a * b);
  }

  /** x & (1 << k) is the bit in place: zero, or the power of two itself. */
  lemma {:induction false} AndPow2(x: nat, k: nat)
    ensures And(x, Pow2(k)) == if Bit(x, k) then Pow2(k) else 0
  {
    if x == 0 {
      assert 0 / Pow2(k) == 0 by { DivUnique(0, Pow2(k), 0, 0); }
    } else if k == 0 {
      assert And(x / 2, 0) == 0;
      assert x / Pow2(0) == x;
    } else {
      AndPow2(x / 2, k - 1);
      DivHalf(x, k);
      assert Pow2(k) / 2 == Pow2(k - 1);
      assert Pow2(k) % 2 == 0;
    }
  }

  lemma {:induction false} AndOnes(x: nat, k: nat)
    requires x < Pow2(k)
    ensures And(x, Pow2(k) - 1) == x
  {
    if x == 0 {
    } else {
      assert (Pow2(k) - 1) / 2 == Pow2(k - 1) - 1;
      assert (Pow2(k) - 1) % 2 == 1;
      AndOnes(x / 2, k - 1);
    }
  }

  lemma {:induction false} OrOnes(x: nat, k: nat)
    requires x < Pow2(k)
    ensures Or(x, Pow2(k) - 1) == Pow2(k) - 1
  {
    if x == 0 {
    } else {
      assert (Pow2(k) - 1) / 2 == Pow2(k - 1) - 1;
      assert (Pow2(k) - 1) % 2 == 1;
      OrOnes(x / 2, k - 1);
    }
  }

  /** Or never leaves the word its operands fit in, and keeps the top bit of either. */
  lemma {:induction false} OrTop(x: nat, y: nat, k: nat)
    requires x < 2 * Pow2(k) && y < 2 * Pow2(k)
    ensures Or(x, y) < 2 * Pow2(k)
    ensures Or(x, y) >= Pow2(k) <==> x >= Pow2(k) || y >= Pow2(k)
    decreases k
  {
    if x == 0 || y == 0 || k == 0 {
    } else {
      OrTop(x / 2, y / 2, k - 1);
    }
  }

  lemma XorHalf(x: nat, y: nat)
    ensures Xor(x, y) / 2 == Xor(x / 2, y / 2)
    ensures Xor(x, y) % 2 == (x + y) % 2
  {
  }

  /** The branch-free swap: x ^ (x ^ y) is y. */
  lemma {:induction false} XorCancel(x: nat, y: nat)
    ensures Xor(x, Xor(x, y)) == y
    decreases x + y
  {
    if x == 0 && y == 0 {
    } else {
      XorCancel(x / 2, y / 2);
      XorHalf(x, y);
      XorHalf(x, Xor(x, y));
    }
  }

  lemma {:induction false} XorCommutes(x: nat, y: nat)
    ensures Xor(x, y) == Xor(y, x)
    decreases x + y
  {
    if x == 0 || y == 0 {
    } else {
      XorCommutes(x / 2, y / 2);
    }
  }

  lemma {:induction false} XorSelf(x: nat)
    ensures Xor(x, x) == 0
  {
    if x == 0 {
    } else {
      XorSelf(x / 2);
    }
  }

  lemma {:induction false} XorBound(x: nat, y: nat, k: nat)
    requires x < Pow2(k) && y < Pow2(k)
    ensures Xor(x, y) < Pow2(k)
    decreases k
  {
    if x == 0 || y == 0 || k == 0 {
    } else {
      XorBound(x / 2, y / 2, k - 1);
    }
  }

  lemma {:induction false} AndCommutes(x: nat, y: nat)
    ensures And(x, y) == And(y, x)
  {
    if x == 0 || y == 0 {
    } else {
      AndCommutes(x / 2, y / 2);
    }
  }

  lemma Pow2Values()
    ensures Pow2(8) == 0x100 && Pow2(9) == 0x200
    ensures Pow2(16) == 0x1_0000 && Pow2(31) == 0x8000_0000 && Pow2(32) == 0x1_0000_0000
  {
    Pow2Add(8, 8);
    Pow2Add(16, 8);
    Pow2Add(24, 7);
  }

  // ---------- single bits of combined words ----------

  lemma BitHalf(x: nat, k: nat)
    requires k > 0
    ensures Bit(x, k) <==> Bit(x / 2, k - 1)
  {
    DivHalf(x, k);
  }

  lemma BitZero(k: nat)
    ensures !Bit(0, k)
  {
    DivUnique(0, Pow2(k), 0, 0);
  }

  lemma OrHalf(x: nat, y: nat)
    ensures Or(x, y) / 2 == Or(x / 2, y / 2)
    ensures Or(x, y) % 2 == 1 <==> x % 2 == 1 || y % 2 == 1
  {
  }

  lemma AndHalf(x: nat, y: nat)
    ensures And(x, y) / 2 == And(x / 2, y / 2)
    ensures And(x, y) % 2 == 1 <==> x % 2 == 1 && y % 2 == 1
  {
  }

  lemma {:induction false} BitOr(x: nat, y: nat, k: nat)
    ensures Bit(Or(x, y), k) <==> Bit(x, k) || Bit(y, k)
    decreases k
  {
    hide Or;
    OrHalf(x, y);
    if k == 0 {
    } else {
      BitHalf(x, k);
      BitHalf(y, k);
      BitHalf(Or(x, y), k);
      BitOr(x / 2, y / 2, k - 1);
    }
  }

  lemma {:induction false} BitAnd(x: nat, y: nat, k: nat)
    ensures Bit(And(x, y), k) <==> Bit(x, k) && Bit(y, k)
    decreases k
  {
    hide And;
    AndHalf(x, y);
    if k == 0 {
    } else {
      BitHalf(x, k);
      BitHalf(y, k);
      BitHalf(And(x, y), k);
      BitAnd(x / 2, y / 2, k - 1);
    }
  }

  lemma {:induction false} BitPow2(j: nat, k: nat)
    ensures Bit(Pow2(j), k) <==> j == k
    decreases k
  {
    if k == 0 {
    } else if j == 0 {
      BitHalf(1, k);
      BitZero(k - 1);
    } else {
      BitHalf(Pow2(j), k);
      BitPow2(j - 1, k - 1);
    }
  }

  /** The complement within an n-bit word flips every bit of the word. */
  lemma {:induction false} BitComplement(x: nat, n: nat, k: nat)
    requires x < Pow2(n) && k < n
    ensures Bit(Pow2(n) - 1 - x, k) <==> !Bit(x, k)
    decreases k
  {
    var y := Pow2(n) - 1 - x;
    if k == 0 {
    } else {
      BitHalf(x, k);
      BitHalf(y, k);
      assert y / 2 == Pow2(n - 1) - 1 - x / 2;
      BitComplement(x / 2, n - 1, k - 1);
    }
  }

  /** Or of a word and one that is shifted above it is their sum. */
  lemma {:induction false} OrDisjoint(x: nat, y: nat, k: nat)
    requires x < Pow2(k)
    ensures Or(x, y * Pow2(k)) == x + y * Pow2(k)
    decreases k
  {
    if k == 0 || x == 0 || y == 0 {
    } else {
      var p := Pow2(k - 1);
      assert y * Pow2(k) == 2 * (y * p);
      OrDisjoint(x / 2, y, k - 1);
      OrHalf(x, 2 * (y * p));
    }
  }

  lemma {:induction false} OrCommutes(x: nat, y: nat)
    ensures Or(x, y) == Or(y, x)
    decreases x + y
  {
    if x == 0 || y == 0 {
    } else {
      OrCommutes(x / 2, y / 2);
    }
  }

  /** Masking with the k low ones is taking the remainder. */
  lemma {:induction false} AndMask(x: nat, k: nat)
    ensures And(x, Pow2(k) - 1) == x % Pow2(k)
    decreases k
  {
    hide And;
    if k == 0 {
      AndNothing(x);
    } else {
      AndMaskStep(x, Pow2(k - 1));
      AndMask(x / 2, k - 1);
    }
  }

  lemma AndMaskStep(x: nat, p: nat)
    requires p > 0
    ensures And(x, 2 * p - 1) == 2 * And(x / 2, p - 1) + x % 2
    ensures x % (2 * p) == 2 * (x / 2 % p) + x % 2
  {
    hide And;
    AndHalf(x, 2 * p - 1);
    DivModEq(x / 2, p);
    DivUnique(x, 2 * p, x / 2 / p, 2 * (x / 2 % p) + x % 2);
  }

  lemma OrNothing(x: nat)
    ensures Or(0, x) == x && Or(x, 0) == x
  {
    OrCommutes(x, 0);
  }

  lemma AndNothing(x: nat)
    ensures And(x, 0) == 0
  {
  }

  /** Low bits are not touched by or-ing high ones. */
  lemma {:induction false} OrHigh(a: nat, b: nat, l: nat, k: nat)
    requires l < Pow2(k)
    ensures Or(a * Pow2(k) + l, b * Pow2(k)) == Or(a, b) * Pow2(k) + l
    decreases k
  {
    hide Or;
    if k == 0 {
    } else {
      var p := Pow2(k - 1);
      HalfOfSum(a, l, p);
      HalfOfSum(b, 0, p);
      OrHigh(a, b, l / 2, k - 1);
      OrHalf(a * Pow2(k) + l, b * Pow2(k));
      HalfOfSum(Or(a, b), l, p);
    }
  }

  lemma HalfOfSum(a: nat, l: nat, p: nat)
    ensures (a * (2 * p) + l) / 2 == a * p + l / 2 && (a * (2 * p) + l) % 2 == l % 2
  {
    assert a * (2 * p) + l == 2 * (a * p + l / 2) + l % 2;
  }

  lemma Pow2Half(k: nat)
    requires k > 0
    ensures Pow2(k) == 2 * Pow2(k - 1)
  {
  }

  lemma Pow2Zero()
    ensures Pow2(0) == 1
  {
  }

  lemma DivNat(u: int, d: int)
    requires u >= 0 && d > 0
    ensures u / d >= 0
  {
    if u / d < 0 {
      DivModEq(u, d);
      MulMono(u / d, -1, d);
      assert false;
    }
  }

  lemma {:induction false} AndSmall(a: nat, b: nat)
    ensures And(a, b) <= a
  {
    if a == 0 || b == 0 {
    } else {
      AndSmall(a / 2, b / 2);
    }
  }

  lemma {:induction false} BitXor(x: nat, y: nat, k: nat)
    ensures Bit(Xor(x, y), k) <==> Bit(x, k) != Bit(y, k)
    decreases k
  {
    hide Xor;
    XorHalf(x, y);
    if k == 0 {
    } else {
      BitHalf(x, k);
      BitHalf(y, k);
      BitHalf(Xor(x, y), k);
      BitXor(x / 2, y / 2, k - 1);
    }
  }
}
