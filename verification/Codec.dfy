/** Bit strings, most significant bit first, and the 32-bit accumulator that the codecs of
    src/codec.cpp keep the end of one in. */
module BitStrings {
  import opened Bits
  import opened Radix

  /** The k-bit form of d. */
  function ToBits(d: nat, k: nat): (s: seq<int>)
    ensures |s| == k && IsDigits(s, 2)
  {
    if k == 0 then [] else ToBits(d / 2, k - 1) + [d % 2]
  }

  /** k-bit fields one after the other. */
  function Fields(w: seq<int>, k: nat): (s: seq<int>)
    ensures |s| == k * |w| && IsDigits(s, 2)
  {
    if w == [] then [] else
      FieldsLength(k, |w|);
      Fields(w[..|w| - 1], k) + ToBits(if w[|w| - 1] >= 0 then w[|w| - 1] else 0, k)
  }

  lemma FieldsLength(k: nat, n: nat)
    requires n > 0
    ensures k * (n - 1) + k == k * n
  {
  }

  function BitsOf(bytes: seq<int>): (s: seq<int>)
    ensures |s| == 8 * |bytes|
  {
    Fields(bytes, 8)
  }

  /** These bytes are these fields, and zero bits up to the next byte. */
  ghost predicate Packed(bytes: seq<int>, w: seq<int>, k: nat) {
    && |bytes| == (k * |w| + 7) / 8
    && IsDigits(bytes, 256)
    && BitsOf(bytes) == Fields(w, k) + Zeros(8 * |bytes| - k * |w|)
  }

  lemma {:induction false} ValOfBits(d: nat, k: nat)
    requires d < Pow2(k)
    ensures Val(ToBits(d, k), 2) == d
  {
    if k == 0 {
    } else {
      ValOfBits(d / 2, k - 1);
      assert ToBits(d, k)[..k - 1] == ToBits(d / 2, k - 1);
    }
  }

  lemma {:induction false} BitsOfVal(p: seq<int>)
    requires IsDigits(p, 2)
    ensures 0 <= Val(p, 2) < Pow2(|p|) && ToBits(Val(p, 2), |p|) == p
  {
    if p == [] {
    } else {
      BitsOfVal(p[..|p| - 1]);
      assert p == p[..|p| - 1] + [p[|p| - 1]];
    }
  }

  lemma ToBitsInjective(d: nat, e: nat, k: nat)
    requires d < Pow2(k) && e < Pow2(k) && ToBits(d, k) == ToBits(e, k)
    ensures d == e
  {
    ValOfBits(d, k);
    ValOfBits(e, k);
  }

  lemma FieldsSnoc(w: seq<int>, k: nat)
    requires w != []
    ensures Fields(w, k) == Fields(w[..|w| - 1], k) + ToBits(if w[|w| - 1] >= 0 then w[|w| - 1] else 0, k)
  {
  }

  lemma FieldsNone(k: nat)
    ensures Fields([], k) == []
  {
  }

  lemma {:induction false} FieldsAppend(w: seq<int>, v: seq<int>, k: nat)
    ensures Fields(w + v, k) == Fields(w, k) + Fields(v, k)
    decreases |v|
  {
    hide Fields, ToBits;
    if v == [] {
      assert w + v == w;
      FieldsNone(k);
    } else {
      var init := v[..|v| - 1];
      assert (w + v)[..|w + v| - 1] == w + init && (w + v)[|w + v| - 1] == v[|v| - 1];
      FieldsAppend(w, init, k);
      FieldsSnoc(v, k);
      FieldsSnoc(w + v, k);
      Regroup(Fields(w, k), Fields(init, k), ToBits(if v[|v| - 1] >= 0 then v[|v| - 1] else 0, k));
    }
  }

  lemma Regroup<T>(a: seq<T>, b: seq<T>, c: seq<T>)
    ensures (a + b) + c == a + (b + c)
  {
  }

  lemma FieldsOne(d: int, k: nat)
    requires d >= 0
    ensures Fields([d], k) == ToBits(d, k)
  {
    assert Fields([d][..0], k) == [];
  }

  /** Field u of the string. */
  lemma FieldAt(w: seq<int>, k: nat, u: nat)
    requires u < |w| && w[u] >= 0
    ensures k * u + k <= k * |w|
    ensures Fields(w, k)[k * u..k * u + k] == ToBits(w[u], k)
  {
    hide Fields, ToBits;
    var a, b := w[..u], w[u + 1..];
    assert w == a + ([w[u]] + b);
    FieldsAppend(a, [w[u]] + b, k);
    FieldsAppend([w[u]], b, k);
    FieldsOne(w[u], k);
  }

  lemma {:induction false} FieldsInjective(w: seq<int>, v: seq<int>, k: nat)
    requires |w| == |v| && IsDigits(w, Pow2(k)) && IsDigits(v, Pow2(k)) && Fields(w, k) == Fields(v, k)
    ensures w == v
  {
    hide Fields, ToBits;
    forall u | 0 <= u < |w| ensures w[u] == v[u] {
      FieldAt(w, k, u);
      FieldAt(v, k, u);
      ToBitsInjective(w[u], v[u], k);
    }
  }

  // ---------- the accumulator ----------

  /** The low bits of the accumulator are the bits p; what is above them does not matter. */
  ghost predicate Pending(acc: nat, p: seq<int>) {
    IsDigits(p, 2) && |p| <= 32 && Val(p, 2) == acc % Pow2(|p|)
  }

  /** (acc << k) | d, in 32 bits. */
  function Pushed(acc: nat, k: nat, d: nat): nat {
    Or((acc * Pow2(k)) % 0x1_0000_0000, d)
  }

  /** (acc >> len) & ((1 << k) - 1) */
  function Popped(acc: nat, len: nat, k: nat): (f: int) {
    (acc / Pow2(len)) % Pow2(k)
  }

  lemma {:induction false} ValAppend(p: seq<int>, q: seq<int>)
    ensures Val(p + q, 2) == Val(p, 2) * Pow2(|q|) + Val(q, 2)
    decreases |q|
  {
    if q == [] {
      assert p + q == p;
    } else {
      var init := q[..|q| - 1];
      assert (p + q)[..|p + q| - 1] == p + init;
      ValAppend(p, init);
      assert Val(p, 2) * Pow2(|q|) == 2 * (Val(p, 2) * Pow2(|init|));
    }
  }

  lemma ShiftIn(acc: nat, k: nat, len: nat, d: nat)
    requires k + len <= 32 && d < Pow2(k)
    ensures Pushed(acc, k, d) % Pow2(len + k) == (acc % Pow2(len)) * Pow2(k) + d
  {
    hide Or, Pow2;
    var m := acc % Pow2(32 - k);
    DivModEq(acc, Pow2(32 - k));
    Wrap(acc, k);
    OrDisjoint(d, m, k);
    OrCommutes(d, m * Pow2(k));
    ModMod(acc, len, 32 - k);
    LowPart(m, len, k, d);
  }

  lemma Wrap(acc: nat, k: nat)
    requires k <= 32
    ensures (acc * Pow2(k)) % 0x1_0000_0000 == (acc % Pow2(32 - k)) * Pow2(k)
  {
    hide Pow2;
    Pow2Add(32 - k, k);
    Pow2Values();
    ModScaled(acc, Pow2(32 - k), Pow2(k));
  }

  lemma ModScaled(x: int, a: int, b: int)
    requires a > 0 && b > 0
    ensures a * b > 0 && (x * b) % (a * b) == (x % a) * b
  {
    DivModEq(x, a);
    ModScaledBy(x * b, x / a, x % a, a, b);
  }

  lemma ModScaledBy(y: int, q: int, r: int, a: int, b: int)
    requires a > 0 && b > 0 && 0 <= r < a && y == (q * a + r) * b
    ensures a * b > 0 && y % (a * b) == r * b
  {
    assert y == q * (a * b) + r * b;
    MulMono(r + 1, a, b);
    MulMono(0, r, b);
    DivUnique(y, a * b, q, r * b);
  }

  lemma ModMod(x: nat, m: nat, n: nat)
    requires m <= n
    ensures (x % Pow2(n)) % Pow2(m) == x % Pow2(m)
  {
    hide Pow2;
    Pow2Add(n - m, m);
    var a, b, d := Pow2(n - m), Pow2(m), Pow2(n);
    DivModEq(x, d);
    DivModEq(x % d, b);
    ModModBy(x, x / d, x % d / b, x % d % b, a, b);
  }

  lemma ModModBy(x: int, q: int, r: int, t: int, a: int, b: int)
    requires 0 <= t < b && x == q * (a * b) + (r * b + t)
    ensures x % b == t
  {
    assert x == (q * a + r) * b + t;
    DivUnique(x, b, q * a + r, t);
  }

  lemma LowPart(m: nat, len: nat, k: nat, d: nat)
    requires d < Pow2(k)
    ensures (d + m * Pow2(k)) % Pow2(len + k) == (m % Pow2(len)) * Pow2(k) + d
  {
    hide Pow2;
    Pow2Add(len, k);
    var a, b := Pow2(len), Pow2(k);
    DivModEq(m, a);
    var q, r := m / a, m % a;
    assert d + m * b == q * (a * b) + (r * b + d);
    MulMono(r + 1, a, b);
    MulMono(0, r, b);
    DivUnique(d + m * b, a * b, q, r * b + d);
  }

  /** Pushing a field appends its bits. */
  lemma Push(acc: nat, p: seq<int>, k: nat, d: nat)
    requires Pending(acc, p) && |p| + k <= 32 && d < Pow2(k)
    ensures Pending(Pushed(acc, k, d), p + ToBits(d, k))
  {
    hide Pushed, Pow2, Val, ToBits;
    ValAppend(p, ToBits(d, k));
    ValOfBits(d, k);
    ShiftIn(acc, k, |p|, d);
  }

  /** The field above the last bits comes off the front. */
  lemma Pop(acc: nat, p: seq<int>, k: nat)
    requires Pending(acc, p) && k <= |p|
    ensures 0 <= Popped(acc, |p| - k, k) < Pow2(k)
    ensures p[..k] == ToBits(Popped(acc, |p| - k, k), k)
    ensures Pending(acc, p[k..])
  {
    hide Pow2, Val, ToBits, Popped;
    assert p == p[..k] + p[k..];
    ValAppend(p[..k], p[k..]);
    BitsOfVal(p[..k]);
    BitsOfVal(p[k..]);
    ShiftOut(acc, |p| - k, k, Val(p[..k], 2), Val(p[k..], 2));
  }

  lemma ShiftOut(acc: nat, len: nat, k: nat, f: nat, r: nat)
    requires f < Pow2(k) && r < Pow2(len) && acc % Pow2(len + k) == f * Pow2(len) + r
    ensures Popped(acc, len, k) == f && acc % Pow2(len) == r
  {
    hide Pow2;
    Pow2Add(k, len);
    var a, b := Pow2(k), Pow2(len);
    DivModEq(acc, a * b);
    var q := acc / (a * b);
    assert acc == (q * a + f) * b + r;
    DivUnique(acc, b, q * a + f, r);
    DivUnique(q * a + f, a, q, f);
  }
}

/** The Falcon encodings of src/codec.cpp. */
module Codec {
  import opened Bits
  import opened Radix
  import opened BitStrings

  const Q: int := 12289

  // ---------- writing ----------

  lemma ByteWidth()
    ensures Pow2(8) == 256 && Pow2(14) == 0x4000 && Pow2(0) == 1
  {
    Pow2Values();
    Pow2Add(8, 6);
  }

  /** One byte: the first eight pending bits move to the output. */
  lemma ByteOut(acc: nat, p: seq<int>, bytes: seq<int>)
    requires Pending(acc, p) && |p| >= 8 && IsDigits(bytes, 256)
    ensures Pending(acc, p[8..])
    ensures var b := Popped(acc, |p| - 8, 8);
      0 <= b < 256 && BitsOf(bytes + [b]) + p[8..] == BitsOf(bytes) + p
  {
    hide Fields, ToBits, Popped, Val, Pow2;
    ByteWidth();
    Pop(acc, p, 8);
    var b := Popped(acc, |p| - 8, 8);
    FieldsAppend(bytes, [b], 8);
    FieldsOne(b, 8);
    assert p == p[..8] + p[8..];
    Regroup(BitsOf(bytes), p[..8], p[8..]);
  }

  /** Writes all whole bytes that are pending. */
  method EmitBytes(out: array<int>, v0: nat, acc: nat, len0: nat, ghost p: seq<int>) returns (v: nat, len: nat)
    requires Pending(acc, p) && |p| == len0 && 8 * v0 + len0 <= 8 * out.Length && IsDigits(out[..v0], 256)
    modifies out
    ensures len < 8 && 8 * v + len == 8 * v0 + len0 && v0 <= v <= out.Length
    ensures out[v..] == old(out[v..]) && IsDigits(out[..v], 256)
    ensures Pending(acc, p[len0 - len..])
    ensures BitsOf(out[..v]) + p[len0 - len..] == old(BitsOf(out[..v0])) + p
  {
    hide Fields, Pending, Popped, IsDigits;
    v, len := v0, len0;
    assert p[0..] == p;
    while len >= 8
      invariant 0 <= len <= len0 && 8 * v + len == 8 * v0 + len0 && v0 <= v <= out.Length
      invariant out[v..] == old(out[v..]) && IsDigits(out[..v], 256)
      invariant Pending(acc, p[len0 - len..])
      invariant BitsOf(out[..v]) + p[len0 - len..] == old(BitsOf(out[..v0])) + p
      decreases len
    {
      ghost var rest := p[len0 - len..];
      ByteOut(acc, rest, out[..v]);
      assert rest[8..] == p[len0 - (len - 8)..];
      len := len - 8;
      out[v] := Popped(acc, len, 8);
      assert out[..v + 1] == out[..v] + [out[v]];
      MoreDigits(out[..v], out[v]);
      v := v + 1;
    }
  }

  lemma MoreDigits(s: seq<int>, d: int)
    requires IsDigits(s, 256) && 0 <= d < 256
    ensures IsDigits(s + [d], 256)
  {
  }

  /** (uint8_t)(acc << (8 - len)) */
  function LastByte(acc: nat, len: nat): int
    requires len <= 8
  {
    (acc * Pow2(8 - len)) % 0x1_0000_0000 % 256
  }

  lemma {:induction false} ZeroBits(k: nat)
    ensures ToBits(0, k) == Zeros(k)
  {
    if k == 0 {
    } else {
      ZeroBits(k - 1);
    }
  }

  /** The bits that are left, and zeros, make the last byte. */
  lemma Flush(acc: nat, p: seq<int>, bytes: seq<int>)
    requires Pending(acc, p) && 0 < |p| < 8 && IsDigits(bytes, 256)
    ensures 0 <= LastByte(acc, |p|) < 256
    ensures BitsOf(bytes + [LastByte(acc, |p|)]) == BitsOf(bytes) + p + Zeros(8 - |p|)
  {
    hide Fields, ToBits, Val, Pow2;
    ByteWidth();
    var k := 8 - |p|;
    Push(acc, p, k, 0);
    ZeroBits(k);
    var all := p + Zeros(k);
    assert Pushed(acc, k, 0) == (acc * Pow2(k)) % 0x1_0000_0000;
    ByteOut(Pushed(acc, k, 0), all, bytes);
    assert all[8..] == [];
    Regroup(BitsOf(bytes), p, Zeros(k));
  }

  lemma PendingNone()
    ensures Pending(0, []) && IsDigits([], 256)
  {
  }

  lemma Room(k: nat, u: nat, n: nat)
    requires u < n
    ensures k * u + k <= k * n && k * (u + 1) == k * u + k
  {
    MulMono(u + 1, n, k);
  }

  lemma DigitAt(w: seq<int>, k: nat, u: nat)
    requires IsDigits(w, Pow2(k)) && u < |w|
    ensures 0 <= w[u] < Pow2(k)
  {
  }

  lemma FieldNext(w: seq<int>, k: nat, u: nat, before: seq<int>, p: seq<int>)
    requires u < |w| && w[u] >= 0 && before + p == Fields(w[..u], k)
    ensures before + (p + ToBits(w[u], k)) == Fields(w[..u + 1], k)
  {
    hide Fields, ToBits;
    assert w[..u + 1] == w[..u] + [w[u]];
    FieldsAppend(w[..u], [w[u]], k);
    FieldsOne(w[u], k);
    Regroup(before, p, ToBits(w[u], k));
  }

  /** The last byte, if bits are left. */
  method FinishFields(out: array<int>, w: seq<int>, k: nat, v: nat, acc: nat, len: nat, ghost p: seq<int>)
    requires |p| == len < 8 && 8 * v + len == k * |w| && (k * |w| + 7) / 8 <= out.Length
    requires Pending(acc, p) && IsDigits(out[..v], 256) && BitsOf(out[..v]) + p == Fields(w, k)
    modifies out
    ensures Packed(out[..(k * |w| + 7) / 8], w, k)
    ensures out[(k * |w| + 7) / 8..] == old(out[(k * |w| + 7) / 8..])
  {
    hide Fields, Pending, LastByte, IsDigits;
    if len > 0 {
      Flush(acc, p, out[..v]);
      MoreDigits(out[..v], LastByte(acc, len));
      out[v] := LastByte(acc, len);
      assert out[..v + 1] == out[..v] + [LastByte(acc, len)];
    } else {
      assert Fields(w, k) + Zeros(0) == BitsOf(out[..v]);
    }
  }

  /** The fields w, each of k bits, into out. */
  method EncodeFields(out: array<int>, w: seq<int>, k: nat)
    requires 1 <= k <= 24 && IsDigits(w, Pow2(k)) && (k * |w| + 7) / 8 <= out.Length
    modifies out
    ensures Packed(out[..(k * |w| + 7) / 8], w, k)
    ensures out[(k * |w| + 7) / 8..] == old(out[(k * |w| + 7) / 8..])
  {
    hide Fields, Pending, Pushed, IsDigits, Pow2;
    var acc, len, v := 0, 0, 0;
    ghost var p: seq<int> := [];
    PendingNone();
    FieldsNone(k);
    FieldsNone(8);
    assert out[..0] == [] && w[..0] == [];
    var u := 0;
    while u < |w|
      invariant 0 <= u <= |w| && |p| == len < 8 && 8 * v + len == k * u && v <= out.Length
      invariant Pending(acc, p) && IsDigits(out[..v], 256)
      invariant BitsOf(out[..v]) + p == Fields(w[..u], k)
      invariant out[(k * |w| + 7) / 8..] == old(out[(k * |w| + 7) / 8..])
    {
      Room(k, u, |w|);
      DigitAt(w, k, u);
      Push(acc, p, k, w[u]);
      ghost var before := BitsOf(out[..v]);
      acc := Pushed(acc, k, w[u]);
      len := len + k;
      ghost var q := p + ToBits(w[u], k);
      FieldNext(w, k, u, before, p);
      v, len := EmitBytes(out, v, acc, len, q);
      p := q[|q| - len..];
      u := u + 1;
    }
    assert w[..u] == w;
    FinishFields(out, w, k, v, acc, len, p);
  }

  // ---------- reading ----------

  /** v bytes have been read: they are the fields x and the pending bits p. */
  ghost predicate Read(bytes: seq<int>, v: nat, x: seq<int>, k: nat, acc: nat, p: seq<int>) {
    && v <= |bytes|
    && BitsOf(bytes[..v]) == Fields(x, k) + p
    && Pending(acc, p)
  }

  lemma ReadNone(bytes: seq<int>, k: nat)
    ensures Read(bytes, 0, [], k, 0, [])
  {
    FieldsNone(k);
    FieldsNone(8);
    PendingNone();
    assert bytes[..0] == [];
  }

  lemma ReadByte(bytes: seq<int>, v: nat, x: seq<int>, k: nat, acc: nat, p: seq<int>)
    requires Read(bytes, v, x, k, acc, p) && v < |bytes| && IsDigits(bytes, 256) && |p| <= 24
    ensures Read(bytes, v + 1, x, k, Pushed(acc, 8, bytes[v]), p + ToBits(bytes[v], 8))
  {
    hide Fields, ToBits, Pushed, Pending, Pow2;
    ByteWidth();
    Push(acc, p, 8, bytes[v]);
    assert bytes[..v + 1] == bytes[..v] + [bytes[v]];
    FieldsAppend(bytes[..v], [bytes[v]], 8);
    FieldsOne(bytes[v], 8);
    Regroup(Fields(x, k), p, ToBits(bytes[v], 8));
  }

  lemma ReadField(bytes: seq<int>, v: nat, x: seq<int>, k: nat, acc: nat, p: seq<int>)
    requires Read(bytes, v, x, k, acc, p) && k <= |p|
    ensures var f := Popped(acc, |p| - k, k);
      0 <= f < Pow2(k) && p[..k] == ToBits(f, k) && Read(bytes, v, x + [f], k, acc, p[k..])
  {
    hide Fields, ToBits, Popped, Pending, Pow2;
    Pop(acc, p, k);
    var f := Popped(acc, |p| - k, k);
    FieldsAppend(x, [f], k);
    FieldsOne(f, k);
    assert p == p[..k] + p[k..];
    Regroup(Fields(x, k), p[..k], p[k..]);
  }

  lemma BitsPrefix(bytes: seq<int>, v: nat)
    requires v <= |bytes|
    ensures BitsOf(bytes)[..8 * v] == BitsOf(bytes[..v])
  {
    hide Fields;
    assert bytes == bytes[..v] + bytes[v..];
    FieldsAppend(bytes[..v], bytes[v..], 8);
  }

  /** Any fields that these bytes pack have the same field in the same place. */
  lemma SameField(bytes: seq<int>, w: seq<int>, k: nat, v: nat, x: seq<int>, acc: nat, p: seq<int>, f: nat)
    requires Packed(bytes, w, k) && IsDigits(w, Pow2(k)) && |x| < |w| && f < Pow2(k)
    requires Read(bytes, v, x, k, acc, p) && k <= |p| && p[..k] == ToBits(f, k)
    ensures w[|x|] == f
  {
    hide Fields, ToBits, Pending, Pow2;
    var u := |x|;
    Room(k, u, |w|);
    FieldAt(w, k, u);
    BitsPrefix(bytes, v);
    SameMiddle(BitsOf(bytes), Fields(w, k), Zeros(8 * |bytes| - k * |w|), Fields(x, k), p, 8 * v, k * u, k);
    ToBitsInjective(w[u], f, k);
  }

  lemma SameMiddle(all: seq<int>, a: seq<int>, z: seq<int>, x: seq<int>, p: seq<int>, end: nat, m: nat, k: nat)
    requires all == a + z && end <= |all| && all[..end] == x + p && |x| == m && k <= |p| && m + k <= |a|
    ensures p[..k] == a[m..m + k]
  {
    forall i | 0 <= i < k ensures p[i] == a[m + i] {
      assert all[..end][m + i] == (x + p)[m + i];
    }
  }

  lemma PackedTail(bytes: seq<int>, w: seq<int>, k: nat)
    requires Packed(bytes, w, k)
    ensures BitsOf(bytes)[k * |w|..] == Zeros(8 * |bytes| - k * |w|)
  {
    hide Fields;
  }

  /** When all fields are read, the bits that are left must be zeros. */
  lemma ReadAll(bytes: seq<int>, x: seq<int>, k: nat, acc: nat, p: seq<int>)
    requires Read(bytes, |bytes|, x, k, acc, p) && IsDigits(bytes, 256) && IsDigits(x, Pow2(k)) && |p| < 8
    ensures And(acc, Pow2(|p|) - 1) == 0 ==> Packed(bytes, x, k)
    ensures And(acc, Pow2(|p|) - 1) != 0 ==> forall w :: |w| == |x| ==> !Packed(bytes, w, k)
  {
    hide Fields, ToBits, Pow2, And, Val, IsDigits;
    AndMask(acc, |p|);
    BitsAreDigits(acc, p);
    BitsOfVal(p);
    ZeroBits(|p|);
    assert bytes[..|bytes|] == bytes;
    if And(acc, Pow2(|p|) - 1) != 0 {
      ValZeros(|p|, [], 2);
      ValEmpty2();
      assert Zeros(|p|) + [] == Zeros(|p|);
      forall w | |w| == |x| ensures !Packed(bytes, w, k) {
        assert BitsOf(bytes)[k * |x|..] == p;
        if Packed(bytes, w, k) {
          PackedTail(bytes, w, k);
          assert false;
        }
      }
    }
  }

  lemma ValEmpty2()
    ensures Val([], 2) == 0
  {
  }

  lemma BitsAreDigits(acc: nat, p: seq<int>)
    requires Pending(acc, p)
    ensures IsDigits(p, 2) && Val(p, 2) == acc % Pow2(|p|)
  {
  }

  // ---------- values below q, fourteen bits each ----------

  function Size(k: nat, n: nat): nat {
    (k * n + 7) / 8
  }

  method AllBelowQ(x: seq<int>) returns (ok: bool)
    requires forall u :: 0 <= u < |x| ==> x[u] >= 0
    ensures ok <==> IsDigits(x, Q)
  {
    var u := 0;
    while u < |x|
      invariant 0 <= u <= |x| && forall j :: 0 <= j < u ==> x[j] < Q
    {
      if x[u] >= Q {
        return false;
      }
      u := u + 1;
    }
    return true;
  }

  /** Zero for a value that is not below q or for too little room; without a buffer, only the size
      is computed. */
  method ModqEncode(out: array?<int>, x: seq<int>, logn: nat) returns (r: nat)
    requires |x| == Pow2(logn) && forall u :: 0 <= u < |x| ==> 0 <= x[u] < 0x1_0000
    modifies if out == null then {} else {out}
    ensures r == if IsDigits(x, Q) && (out == null || Size(14, |x|) <= out.Length) then Size(14, |x|) else 0
    ensures out != null && r != 0 ==> Packed(out[..r], x, 14)
    ensures out != null ==> out[r..] == old(out[r..])
  {
    hide Fields, Pow2, Packed;
    var ok := AllBelowQ(x);
    if !ok {
      return 0;
    }
    var outLen := (14 * |x| + 7) / 8;
    if out == null {
      return outLen;
    }
    if outLen > out.Length {
      return 0;
    }
    ByteWidth();
    EncodeFields(out, x, 14);
    return outLen;
  }

  /** There is always a byte to read while a field is missing. */
  lemma InputLasts(k: nat, u: nat, n: nat, v: nat, len: nat)
    requires u < n && 8 * v == k * u + len && len < k
    ensures v < Size(k, n) && 8 * v < k * n
  {
    Room(k, u, n);
  }

  /** At the end every byte has been read. */
  lemma InputUsed(k: nat, n: nat, v: nat, len: nat)
    requires v > 0 && 8 * v == k * n + len && 8 * (v - 1) < k * n
    ensures v == Size(k, n) && len < 8
  {
  }

  /** The values are given back exactly for the bytes that are an encoding of such values. */
  method ModqDecode(x: array<int>, logn: nat, input: seq<int>) returns (r: nat)
    requires x.Length == Pow2(logn) && IsDigits(input, 256)
    modifies x
    ensures r != 0 ==> r == Size(14, x.Length) <= |input| && IsDigits(x[..], Q) && Packed(input[..r], x[..], 14)
    ensures r == 0 && Size(14, x.Length) <= |input| ==>
      forall w :: |w| == x.Length && IsDigits(w, Q) ==> !Packed(input[..Size(14, x.Length)], w, 14)
  {
    hide Fields, Pow2, Packed, Read, Pushed, Popped, And;
    ByteWidth();
    var n := x.Length;
    var inLen := (14 * n + 7) / 8;
    if inLen > |input| {
      return 0;
    }
    ghost var buf := input[..inLen];
    var acc, len, u, v := 0, 0, 0, 0;
    ghost var p: seq<int> := [];
    ReadNone(buf, 14);
    assert x[..0] == [];
    while u < n
      invariant 0 <= u <= n && |p| == len < 14 && 8 * v == 14 * u + len && v <= inLen
      invariant v > 0 ==> 8 * (v - 1) < 14 * n
      invariant u == n ==> v > 0
      invariant Read(buf, v, x[..u], 14, acc, p) && IsDigits(x[..u], Q)
      decreases 14 * n - 8 * v
    {
      InputLasts(14, u, n, v, len);
      ReadByte(buf, v, x[..u], 14, acc, p);
      acc := Pushed(acc, 8, input[v]);
      p := p + ToBits(input[v], 8);
      v := v + 1;
      len := len + 8;
      if len >= 14 {
        ReadField(buf, v, x[..u], 14, acc, p);
        len := len - 14;
        var w := Popped(acc, len, 14);
        if w >= Q {
          WrongValue(buf, 14, v, x[..u], acc, p, w, n, Q);
          return 0;
        }
        p := p[14..];
        x[u] := w;
        assert x[..u + 1] == x[..u] + [w];
        u := u + 1;
      }
    }
    InputUsed(14, n, v, len);
    assert x[..u] == x[..];
    DigitsWithin(x[..], Q, 0x4000);
    ReadAll(buf, x[..], 14, acc, p);
    if And(acc, Pow2(len) - 1) != 0 {
      return 0;
    }
    return inLen;
  }

  lemma DigitsWithin(s: seq<int>, a: int, b: int)
    requires IsDigits(s, a) && a <= b
    ensures IsDigits(s, b)
  {
  }

  /** A field that is out of range rules out every sequence of values in range. */
  lemma WrongValue(bytes: seq<int>, k: nat, v: nat, x: seq<int>, acc: nat, p: seq<int>, f: nat, n: nat, limit: int)
    requires |x| < n && f < Pow2(k) && limit <= f
    requires Read(bytes, v, x, k, acc, p) && k <= |p| && p[..k] == ToBits(f, k)
    ensures forall w :: |w| == n && IsDigits(w, limit) ==> !Packed(bytes, w, k)
  {
    hide Fields, ToBits, Pow2, Packed, Read;
    forall w | |w| == n && IsDigits(w, limit) ensures !Packed(bytes, w, k) {
      if Packed(bytes, w, k) {
        DigitsWithin(w, limit, Pow2(k));
        SameField(bytes, w, k, v, x, acc, p, f);
        assert false;
      }
    }
  }

  /** Two packings of the same bytes are the same fields, and the same fields pack to the same bytes. */
  lemma PackedUnique(bytes: seq<int>, w: seq<int>, bytes': seq<int>, w': seq<int>, k: nat)
    requires Packed(bytes, w, k) && Packed(bytes', w', k) && |w| == |w'|
    requires IsDigits(w, Pow2(k)) && IsDigits(w', Pow2(k))
    ensures bytes == bytes' <==> w == w'
  {
    hide Fields, Pow2;
    ByteWidth();
    if w == w' {
      FieldsInjective(bytes, bytes', 8);
    }
    if bytes == bytes' {
      assert Fields(w, k) == BitsOf(bytes)[..k * |w|] == Fields(w', k);
      FieldsInjective(w, w', k);
    }
  }

  /** Encoding and decoding are inverse both ways. */
  method ModqRoundTrip(x: seq<int>, logn: nat, input: seq<int>)
    returns (bytes: seq<int>, back: seq<int>, ok: bool, again: seq<int>)
    requires |x| == Pow2(logn) && IsDigits(x, Q) && IsDigits(input, 256) && |input| == Size(14, |x|)
    ensures Packed(bytes, x, 14) && back == x
    ensures ok ==> again == input
    ensures ok <==> exists w :: |w| == |x| && IsDigits(w, Q) && Packed(input, w, 14)
  {
    hide Fields, Pow2, Packed;
    ByteWidth();
    var n := |x|;
    var out := new int[Size(14, n)];
    var y := new int[n];
    var r := ModqEncode(out, x, logn);
    bytes := out[..];
    assert out[..r] == bytes && bytes[..r] == bytes;
    PackedBytes(bytes, x, 14);
    r := ModqDecode(y, logn, bytes);
    DigitsWithin(x, Q, 0x4000);
    DigitsWithin(y[..], Q, 0x4000);
    PackedUnique(bytes, x, bytes, y[..], 14);
    back := y[..];

    r := ModqDecode(y, logn, input);
    assert input[..Size(14, n)] == input;
    ok := r != 0;
    again := [];
    if ok {
      ghost var w := y[..];
      DigitsWithin(w, Q, 0x4000);
      r := ModqEncode(out, y[..], logn);
      again := out[..];
      assert out[..r] == again;
      PackedUnique(again, w, input, w, 14);
    }
  }

  lemma PackedBytes(bytes: seq<int>, w: seq<int>, k: nat)
    requires Packed(bytes, w, k)
    ensures IsDigits(bytes, 256)
  {
  }

  // ---------- small signed values ----------

  ghost predicate InRange(x: seq<int>, maxv: int) {
    forall u :: 0 <= u < |x| ==> -maxv <= x[u] <= maxv
  }

  /** The values a field width allows: as many below zero as above. */
  function MaxValue(bits: nat): (m: int)
    requires bits >= 1
  {
    Pow2(bits - 1) - 1
  }

  /** (uint8_t)x & mask */
  function TrimField(x: int, bits: nat): nat {
    And(x % 256, Pow2(bits) - 1)
  }

  function Trimmed(x: seq<int>, bits: nat): (w: seq<int>)
    ensures |w| == |x|
  {
    seq(|x|, u requires 0 <= u < |x| => TrimField(x[u], bits))
  }

  /** w |= -(w & mask2), in 32 bits. */
  function SignExtended(w: nat, bits: nat): nat
    requires 1 <= bits <= 8
  {
    MaskFits(w, bits);
    Or(w, (0x1_0000_0000 - And(w, Pow2(bits - 1))) % 0x1_0000_0000)
  }

  lemma MaskFits(w: nat, bits: nat)
    requires 1 <= bits <= 8
    ensures 0 <= And(w, Pow2(bits - 1)) <= 0x80 && Pow2(bits - 1) <= 0x80
  {
    hide And;
    AndPow2(w, bits - 1);
    Pow2Mono(bits - 1, 7);
    Pow2Half(8);
    ByteWidth();
  }

  /** The 32-bit word as int32_t, then as int8_t. */
  function AsInt8(w: nat): int {
    var b := w % 256;
    if b < 128 then b else b - 256
  }

  /** The field of a value in range: the value itself, or its complement to 2^bits. */
  lemma TrimFieldIs(x: int, bits: nat)
    requires 1 <= bits <= 8 && -MaxValue(bits) <= x <= MaxValue(bits)
    ensures TrimField(x, bits) == if x >= 0 then x else x + Pow2(bits)
    ensures TrimField(x, bits) < Pow2(bits) && TrimField(x, bits) != Pow2(bits - 1)
  {
    hide And, Pow2;
    AndMask(x % 256, bits);
    Pow2Half(bits);
    Pow2Mono(bits, 8);
    ByteWidth();
    Pow2Add(8 - bits, bits);
    var p, d := Pow2(bits), Pow2(8 - bits);
    if x >= 0 {
      DivUnique(x, 256, 0, x);
      DivUnique(x, p, 0, x);
    } else {
      DivUnique(x, 256, -1, x + 256);
      assert x + 256 == (d - 1) * p + (x + p);
      DivUnique(x + 256, p, d - 1, x + p);
    }
  }

  lemma OrOddOne(h: nat)
    requires h % 2 == 1
    ensures Or(1, h) == h
  {
    hide Or;
    OrHalf(1, h);
    OrNothing(h / 2);
  }

  lemma SignBits(w: nat, bits: nat)
    requires 1 <= bits <= 8 && Pow2(bits - 1) <= w < Pow2(bits) && Pow2(bits - 1) <= 0x80
    ensures Or(w, 0x1_0000_0000 - Pow2(bits - 1)) == 0x1_0000_0000 - Pow2(bits) + w
  {
    hide And, Or, Pow2;
    var p, h := Pow2(bits - 1), Pow2(33 - bits) - 1;
    Pow2Half(bits);
    Pow2Add(33 - bits, bits - 1);
    Pow2Half(33 - bits);
    Pow2Values();
    assert h * p == Pow2(33 - bits) * p - p;
    OrHigh(1, h, w - p, bits - 1);
    OrOddOne(h);
  }

  /** Sign extension, and the value it stands for. */
  lemma SignExtendedIs(w: nat, bits: nat)
    requires 1 <= bits <= 8 && w < Pow2(bits)
    ensures Pow2(bits - 1) <= 0x80
    ensures SignExtended(w, bits) == if w < Pow2(bits - 1) then w else 0x1_0000_0000 - Pow2(bits) + w
    ensures AsInt8(SignExtended(w, bits)) == if w < Pow2(bits - 1) then w else w - Pow2(bits)
  {
    hide And, Or, Pow2, Bit, AsInt8;
    MaskFits(w, bits);
    Pow2Half(bits);
    AndPow2(w, bits - 1);
    HighBit(w, bits - 1);
    if w < Pow2(bits - 1) {
      OrNothing(w);
      SmallPositive(w);
    } else {
      SignBits(w, bits);
      SmallNegative(w - Pow2(bits));
    }
  }

  lemma SmallPositive(x: nat)
    requires x < 128
    ensures AsInt8(x) == x
  {
  }

  lemma SmallNegative(x: int)
    requires -128 <= x < 0
    ensures AsInt8(0x1_0000_0000 + x) == x
  {
  }

  lemma HighBit(w: nat, k: nat)
    requires w < 2 * Pow2(k)
    ensures Bit(w, k) <==> w >= Pow2(k)
  {
    if w >= Pow2(k) {
      DivUnique(w, Pow2(k), 1, w - Pow2(k));
    } else {
      DivUnique(w, Pow2(k), 0, w);
    }
  }

  /** Every field but 2^(bits - 1) is that of one value in range. */
  lemma FieldValue(w: nat, bits: nat)
    requires 1 <= bits <= 8 && w < Pow2(bits)
    ensures Pow2(bits - 1) <= 0x80
    ensures SignExtended(w, bits) == 0x1_0000_0000 - Pow2(bits - 1) <==> w == Pow2(bits - 1)
    ensures w != Pow2(bits - 1) ==>
      var x := AsInt8(SignExtended(w, bits)); -MaxValue(bits) <= x <= MaxValue(bits) && TrimField(x, bits) == w
  {
    hide And, Or, Pow2, AsInt8, SignExtended, TrimField;
    SignExtendedIs(w, bits);
    Pow2Half(bits);
    if w != Pow2(bits - 1) { TrimFieldIs(AsInt8(SignExtended(w, bits)), bits); }
  }

  lemma TrimmedDigits(x: seq<int>, bits: nat)
    requires 1 <= bits <= 8 && InRange(x, MaxValue(bits))
    ensures IsDigits(Trimmed(x, bits), Pow2(bits))
  {
    hide TrimField, MaxValue, Pow2;
    forall u | 0 <= u < |x| ensures 0 <= Trimmed(x, bits)[u] < Pow2(bits) { TrimFieldIs(x[u], bits); }
  }

  lemma TrimmedInjective(x: seq<int>, y: seq<int>, bits: nat)
    requires 1 <= bits <= 8 && InRange(x, MaxValue(bits)) && InRange(y, MaxValue(bits))
    requires Trimmed(x, bits) == Trimmed(y, bits)
    ensures x == y
  {
    hide TrimField, Pow2;
    forall u | 0 <= u < |x| ensures |x| == |y| && x[u] == y[u] {
      assert Trimmed(x, bits)[u] == Trimmed(y, bits)[u];
      TrimFieldIs(x[u], bits);
      TrimFieldIs(y[u], bits);
      Pow2Half(bits);
    }
  }

  lemma TrimmedMore(x: seq<int>, v: int, bits: nat)
    ensures Trimmed(x + [v], bits) == Trimmed(x, bits) + [TrimField(v, bits)]
  {
    hide TrimField;
  }

  method AllInRange(x: seq<int>, maxv: int) returns (ok: bool)
    ensures ok <==> InRange(x, maxv)
  {
    var u := 0;
    while u < |x|
      invariant 0 <= u <= |x| && forall j :: 0 <= j < u ==> -maxv <= x[j] <= maxv
    {
      if x[u] < -maxv || x[u] > maxv {
        return false;
      }
      u := u + 1;
    }
    return true;
  }

  /** Zero for a value out of range or too little room. */
  method TrimI8Encode(out: array?<int>, x: seq<int>, logn: nat, bits: nat) returns (r: nat)
    requires |x| == Pow2(logn) && 1 <= bits <= 8 && forall u :: 0 <= u < |x| ==> -128 <= x[u] < 128
    modifies if out == null then {} else {out}
    ensures r ==
      if InRange(x, MaxValue(bits)) && (out == null || Size(bits, |x|) <= out.Length) then Size(bits, |x|) else 0
    ensures out != null && r != 0 ==> Packed(out[..r], Trimmed(x, bits), bits)
    ensures out != null ==> out[r..] == old(out[r..])
  {
    hide Fields, Packed, Trimmed, InRange;
    var ok := AllInRange(x, Pow2(bits - 1) - 1);
    if !ok {
      return 0;
    }
    var outLen := (bits * |x| + 7) / 8;
    if out == null {
      return outLen;
    }
    if outLen > out.Length {
      return 0;
    }
    TrimmedDigits(x, bits);
    EncodeFields(out, Trimmed(x, bits), bits);
    return outLen;
  }

  /** While values are read: those so far are in range and are the fields so far. */
  ghost predicate TrimRead(buf: seq<int>, v: nat, x: seq<int>, bits: nat, acc: nat, p: seq<int>) {
    1 <= bits <= 8 && InRange(x, MaxValue(bits)) && Read(buf, v, Trimmed(x, bits), bits, acc, p)
  }

  lemma TrimValue(buf: seq<int>, v: nat, x: seq<int>, bits: nat, acc: nat, p: seq<int>, n: nat)
    requires TrimRead(buf, v, x, bits, acc, p) && bits <= |p| && |x| < n
    ensures Pow2(bits - 1) <= 0x80 && 0 <= Popped(acc, |p| - bits, bits)
    ensures var f := Popped(acc, |p| - bits, bits);
      if SignExtended(f, bits) == 0x1_0000_0000 - Pow2(bits - 1) then NoValues(buf, n, bits)
      else TrimRead(buf, v, x + [AsInt8(SignExtended(f, bits))], bits, acc, p[bits..])
  {
    hide Fields, Read, Popped, Pow2, SignExtended, AsInt8, Trimmed, Packed, TrimField;
    var f := Popped(acc, |p| - bits, bits);
    ReadField(buf, v, Trimmed(x, bits), bits, acc, p);
    FieldValue(f, bits);
    TrimmedMore(x, AsInt8(SignExtended(f, bits)), bits);
    if SignExtended(f, bits) == 0x1_0000_0000 - Pow2(bits - 1) {
      forall y | |y| == n && InRange(y, MaxValue(bits)) ensures !Packed(buf, Trimmed(y, bits), bits) {
        ForbiddenField(buf, v, x, bits, acc, p, y);
      }
    }
  }

  ghost predicate NoValues(buf: seq<int>, n: nat, bits: nat)
    requires 1 <= bits <= 8
  {
    forall y :: |y| == n && InRange(y, MaxValue(bits)) ==> !Packed(buf, Trimmed(y, bits), bits)
  }

  lemma ForbiddenField(buf: seq<int>, v: nat, x: seq<int>, bits: nat, acc: nat, p: seq<int>, y: seq<int>)
    requires TrimRead(buf, v, x, bits, acc, p) && bits <= |p| && |x| < |y| && InRange(y, MaxValue(bits))
    requires p[..bits] == ToBits(Pow2(bits - 1), bits)
    ensures !Packed(buf, Trimmed(y, bits), bits)
  {
    hide Fields, Read, Pow2, Packed, TrimField, ToBits;
    Pow2Half(bits);
    TrimFieldIs(y[|x|], bits);
    if Packed(buf, Trimmed(y, bits), bits) {
      TrimmedDigits(y, bits);
      SameField(buf, Trimmed(y, bits), bits, v, Trimmed(x, bits), acc, p, Pow2(bits - 1));
      assert false;
    }
  }

  /** Takes every whole field that is pending, up to the last value. */
  method TakeValues(x: array<int>, bits: nat, acc: nat, len0: nat, u0: nat, ghost buf: seq<int>, ghost v: nat,
                    ghost p: seq<int>)
    returns (bad: bool, u: nat, len: nat)
    requires u0 <= x.Length && |p| == len0 && TrimRead(buf, v, x[..u0], bits, acc, p)
    modifies x
    ensures bad ==> NoValues(buf, x.Length, bits)
    ensures !bad ==> u0 <= u <= x.Length && len <= len0 && bits * u + len == bits * u0 + len0
    ensures !bad ==> (len < bits || u == x.Length) && TrimRead(buf, v, x[..u], bits, acc, p[len0 - len..])
  {
    hide Read, Popped, Pow2, SignExtended, AsInt8, Trimmed, NoValues, InRange;
    bad, u, len := false, u0, len0;
    assert p[0..] == p;
    while len >= bits && u < x.Length
      invariant u0 <= u <= x.Length && 0 <= len <= len0 && bits * u + len == bits * u0 + len0
      invariant TrimRead(buf, v, x[..u], bits, acc, p[len0 - len..])
      decreases len
    {
      ghost var rest := p[len0 - len..];
      TrimValue(buf, v, x[..u], bits, acc, rest, x.Length);
      assert rest[bits..] == p[len0 - (len - bits)..];
      len := len - bits;
      var w := SignExtended(Popped(acc, len, bits), bits);
      if w == 0x1_0000_0000 - Pow2(bits - 1) {
        bad := true;
        return;
      }
      x[u] := AsInt8(w);
      assert x[..u + 1] == x[..u] + [AsInt8(w)];
      NextField(bits, u);
      u := u + 1;
    }
  }

  lemma NextField(bits: nat, u: nat)
    ensures bits * (u + 1) == bits * u + bits
  {
  }

  method TrimI8Decode(x: array<int>, logn: nat, bits: nat, input: seq<int>) returns (r: nat)
    requires x.Length == Pow2(logn) && 1 <= bits <= 8 && IsDigits(input, 256)
    modifies x
    ensures r != 0 ==> r == Size(bits, x.Length) <= |input|
    ensures r != 0 ==> InRange(x[..], MaxValue(bits)) && Packed(input[..r], Trimmed(x[..], bits), bits)
    ensures r == 0 && Size(bits, x.Length) <= |input| ==> NoValues(input[..Size(bits, x.Length)], x.Length, bits)
  {
    hide Fields, Read, Pow2, Trimmed, NoValues, InRange, Packed, Pushed, And, IsDigits;
    var n := x.Length;
    var inLen := (bits * n + 7) / 8;
    if inLen > |input| {
      return 0;
    }
    ghost var buf := input[..inLen];
    PartDigits(input, inLen);
    var acc, len, u, v := 0, 0, 0, 0;
    ghost var p: seq<int> := [];
    TrimNone(buf, bits);
    assert x[..0] == [];
    while u < n
      invariant 0 <= u <= n && |p| == len && (len < bits || u == n) && 8 * v == bits * u + len && v <= inLen
      invariant v > 0 ==> 8 * (v - 1) < bits * n
      invariant u == n ==> v > 0
      invariant TrimRead(buf, v, x[..u], bits, acc, p)
      decreases bits * n - 8 * v
    {
      InputLasts(bits, u, n, v, len);
      ReadByte(buf, v, Trimmed(x[..u], bits), bits, acc, p);
      acc := Pushed(acc, 8, input[v]);
      p := p + ToBits(input[v], 8);
      v := v + 1;
      var bad;
      bad, u, len := TakeValues(x, bits, acc, len + 8, u, buf, v, p);
      if bad {
        return 0;
      }
      p := p[|p| - len..];
    }
    InputUsed(bits, n, v, len);
    assert x[..u] == x[..];
    r := TrimTail(x[..], bits, acc, len, inLen, buf, p);
  }

  lemma PartDigits(s: seq<int>, n: nat)
    requires n <= |s| && IsDigits(s, 256)
    ensures IsDigits(s[..n], 256)
  {
  }

  lemma TrimNone(buf: seq<int>, bits: nat)
    requires 1 <= bits <= 8
    ensures TrimRead(buf, 0, [], bits, 0, [])
  {
    ReadNone(buf, bits);
    assert Trimmed([], bits) == [];
  }

  /** The bits after the last value must be zeros. */
  method TrimTail(x: seq<int>, bits: nat, acc: nat, len: nat, inLen: nat, ghost buf: seq<int>, ghost p: seq<int>)
    returns (r: nat)
    requires |p| == len < 8 && |buf| == inLen > 0 && IsDigits(buf, 256) && TrimRead(buf, |buf|, x, bits, acc, p)
    ensures r == 0 || r == inLen
    ensures r != 0 ==> InRange(x, MaxValue(bits)) && Packed(buf, Trimmed(x, bits), bits)
    ensures r == 0 ==> NoValues(buf, |x|, bits)
  {
    hide Fields, Read, Pow2, Trimmed, InRange, Packed, And, IsDigits;
    TrimmedDigits(x, bits);
    ReadAll(buf, Trimmed(x, bits), bits, acc, p);
    if And(acc, Pow2(len) - 1) != 0 {
      return 0;
    }
    return inLen;
  }

  /** Encoding and decoding are inverse both ways. */
  method TrimRoundTrip(x: seq<int>, logn: nat, bits: nat, input: seq<int>)
    returns (bytes: seq<int>, back: seq<int>, ok: bool, again: seq<int>)
    requires |x| == Pow2(logn) && 1 <= bits <= 8 && InRange(x, MaxValue(bits))
    requires IsDigits(input, 256) && |input| == Size(bits, |x|)
    ensures Packed(bytes, Trimmed(x, bits), bits) && back == x
    ensures ok ==> again == input
    ensures !ok ==> NoValues(input, |x|, bits)
  {
    hide Fields, Pow2, Packed, Trimmed, InRange, IsDigits;
    var n := |x|;
    var out := new int[Size(bits, n)];
    var y := new int[n];
    ByteRange(x, bits);
    var r := TrimI8Encode(out, x, logn, bits);
    bytes := out[..];
    assert out[..r] == bytes && bytes[..r] == bytes;
    PackedBytes(bytes, Trimmed(x, bits), bits);
    r := TrimI8Decode(y, logn, bits, bytes);
    TrimmedDigits(x, bits);
    TrimmedDigits(y[..], bits);
    PackedUnique(bytes, Trimmed(x, bits), bytes, Trimmed(y[..], bits), bits);
    TrimmedInjective(x, y[..], bits);
    back := y[..];

    r := TrimI8Decode(y, logn, bits, input);
    assert input[..Size(bits, n)] == input;
    ok := r != 0;
    again := [];
    if ok {
      ghost var w := y[..];
      ByteRange(w, bits);
      TrimmedDigits(w, bits);
      r := TrimI8Encode(out, y[..], logn, bits);
      again := out[..];
      assert out[..r] == again;
      PackedUnique(again, Trimmed(w, bits), input, Trimmed(w, bits), bits);
    }
  }

  lemma ByteRange(x: seq<int>, bits: nat)
    requires 1 <= bits <= 8 && InRange(x, MaxValue(bits))
    ensures forall u :: 0 <= u < |x| ==> -128 <= x[u] < 128
  {
    MaskFits(0, bits);
  }
}

/** The compressed encoding of src/codec.cpp: sign, seven low bits, and the rest in unary. */
module CompCodec {
  import opened Bits
  import opened Radix
  import opened BitStrings
  import opened Codec

  function Abs(x: int): nat {
    if x < 0 then -x else x
  }

  /** Sign bit, seven bits, as many zeros as the high part says, and a one. */
  function FormBits(neg: bool, mag: nat): (s: seq<int>)
    ensures |s| == 9 + mag / 128
  {
    [if neg then 1 else 0] + ToBits(mag % 128, 7) + Zeros(mag / 128) + [1]
  }

  function CoeffBits(x: int): (s: seq<int>)
    ensures |s| == 9 + Abs(x) / 128
  {
    FormBits(x < 0, Abs(x))
  }

  function CompBits(x: seq<int>): seq<int> {
    if x == [] then [] else CompBits(x[..|x| - 1]) + CoeffBits(x[|x| - 1])
  }

  function CompSize(x: seq<int>): nat {
    (|CompBits(x)| + 7) / 8
  }

  // ---------- reading a bit string ----------

  datatype Unary = NoEnd | End(mag: nat, rest: seq<int>)

  /** Zeros, each worth 128, up to a one. */
  function ReadUnary(bits: seq<int>, m: nat): Unary
    decreases |bits|
  {
    if bits == [] then NoEnd
    else if bits[0] == 1 then End(m, bits[1..])
    else if m + 128 > 2047 then NoEnd
    else ReadUnary(bits[1..], m + 128)
  }

  datatype Coeff = NoCoeff | Coeff(neg: bool, mag: nat, rest: seq<int>)

  function ReadCoeff(bits: seq<int>): Coeff {
    if |bits| < 8 || Val(bits[1..8], 2) < 0 then NoCoeff
    else
      match ReadUnary(bits[8..], Val(bits[1..8], 2))
      case NoEnd => NoCoeff
      case End(mag, rest) => Coeff(bits[0] == 1, mag, rest)
  }

  function Signed(neg: bool, mag: nat): int {
    if neg then -(mag as int) else mag
  }

  datatype Parsed = Bad | Good(x: seq<int>, rest: seq<int>, minusZero: bool)

  /** The first n values of a bit string; whether one of them was zero with a minus sign. */
  function Parse(bits: seq<int>, n: nat): Parsed {
    if n == 0 then Good([], bits, false)
    else
      match Parse(bits, n - 1)
      case Bad => Bad
      case Good(x, rest, minus) =>
        match ReadCoeff(rest)
        case NoCoeff => Bad
        case Coeff(neg, mag, rest') => Good(x + [Signed(neg, mag)], rest', minus || (neg && mag == 0))
  }

  lemma {:induction false} UnaryOf(h: nat, m: nat, t: seq<int>)
    requires m + 128 * h <= 2047
    ensures ReadUnary(Zeros(h) + [1] + t, m) == End(m + 128 * h, t)
    decreases h
  {
    var bits := Zeros(h) + [1] + t;
    if h > 0 {
      assert bits[1..] == Zeros(h - 1) + [1] + t;
      UnaryOf(h - 1, m + 128, t);
    } else {
      assert bits[1..] == t;
    }
  }

  lemma CoeffOf(neg: bool, mag: nat, t: seq<int>)
    requires mag <= 2047
    ensures ReadCoeff(FormBits(neg, mag) + t) == Coeff(neg, mag, t)
  {
    hide ToBits, Val, Pow2, ReadUnary;
    var bits := FormBits(neg, mag) + t;
    assert bits[1..8] == ToBits(mag % 128, 7);
    assert bits[8..] == Zeros(mag / 128) + [1] + t;
    SevenBits();
    ValOfBits(mag % 128, 7);
    UnaryOf(mag / 128, mag % 128, t);
  }

  lemma SevenBits()
    ensures Pow2(7) == 128
  {
    Pow2Half(8);
    ByteWidth();
  }

  /** Reading an encoding gives back its values, whatever follows it. */
  lemma {:induction false} ParseOf(x: seq<int>, t: seq<int>)
    requires InRange(x, 2047)
    ensures Parse(CompBits(x) + t, |x|) == Good(x, t, false)
  {
    hide ReadCoeff, FormBits;
    if x == [] {
      assert CompBits(x) + t == t;
    } else {
      var init, last := x[..|x| - 1], x[|x| - 1];
      var u := CoeffBits(last) + t;
      assert CompBits(x) + t == CompBits(init) + u;
      ParseOf(init, u);
      CoeffOf(last < 0, Abs(last), t);
      assert x == init + [last];
    }
  }

  lemma {:induction false} UnaryForm(bits: seq<int>, m: nat)
    requires ReadUnary(bits, m).End? && m <= 2047 && IsDigits(bits, 2)
    ensures var mag := ReadUnary(bits, m).mag;
      var rest := ReadUnary(bits, m).rest;
      m <= mag <= 2047 && (mag - m) % 128 == 0 && bits == Zeros((mag - m) / 128) + [1] + rest && IsDigits(rest, 2)
    decreases |bits|
  {
    if bits[0] == 1 {
      assert bits == Zeros(0) + [1] + bits[1..];
    } else {
      UnaryForm(bits[1..], m + 128);
      UnaryMore(bits, m, ReadUnary(bits[1..], m + 128).mag, ReadUnary(bits[1..], m + 128).rest);
    }
  }

  lemma UnaryMore(bits: seq<int>, m: nat, mag: nat, rest: seq<int>)
    requires bits != [] && bits[0] == 0 && m + 128 <= mag && (mag - (m + 128)) % 128 == 0
    requires bits[1..] == Zeros((mag - (m + 128)) / 128) + [1] + rest
    ensures (mag - m) % 128 == 0 && bits == Zeros((mag - m) / 128) + [1] + rest
  {
    var h := (mag - (m + 128)) / 128;
    assert (mag - m) / 128 == h + 1 && Zeros(h + 1) == [0] + Zeros(h);
    assert bits == [0] + bits[1..];
  }

  lemma CoeffForm(bits: seq<int>)
    requires ReadCoeff(bits).Coeff? && IsDigits(bits, 2)
    ensures var c := ReadCoeff(bits);
      c.mag <= 2047 && bits == FormBits(c.neg, c.mag) + c.rest && IsDigits(c.rest, 2)
  {
    hide ToBits, Val, Pow2, ReadUnary;
    var m := Val(bits[1..8], 2);
    SevenBits();
    BitsOfVal(bits[1..8]);
    UnaryForm(bits[8..], m);
    var c := ReadCoeff(bits);
    assert c.mag % 128 == m;
    assert bits == [bits[0]] + bits[1..8] + bits[8..];
  }

  /** What is read is in range, and it is the encoding of the values read if and only if none of
      them was zero with a minus sign. */
  lemma {:induction false} ParseForm(bits: seq<int>, n: nat)
    requires Parse(bits, n).Good? && IsDigits(bits, 2)
    ensures var g := Parse(bits, n);
      && |g.x| == n && InRange(g.x, 2047) && IsDigits(g.rest, 2)
      && |bits| == |CompBits(g.x)| + |g.rest| && bits[|bits| - |g.rest|..] == g.rest
      && (bits == CompBits(g.x) + g.rest <==> !g.minusZero)
  {
    hide ReadCoeff, FormBits;
    if n == 0 {
      assert bits == [] + bits;
    } else {
      ParseForm(bits, n - 1);
      var g := Parse(bits, n - 1);
      CoeffForm(g.rest);
      var c := ReadCoeff(g.rest);
      var x := Signed(c.neg, c.mag);
      assert (g.x + [x])[..n - 1] == g.x;
      ParseStep(bits, CompBits(g.x), g.rest, FormBits(c.neg, c.mag), CoeffBits(x), c.rest);
      FormIsCoeff(c.neg, c.mag);
    }
  }

  lemma FormIsCoeff(neg: bool, mag: nat)
    ensures |FormBits(neg, mag)| == |CoeffBits(Signed(neg, mag))|
    ensures FormBits(neg, mag) == CoeffBits(Signed(neg, mag)) <==> !(neg && mag == 0)
  {
    hide ToBits;
    if neg && mag == 0 {
      assert FormBits(true, 0)[0] == 1 && CoeffBits(0)[0] == 0;
    }
  }

  lemma ParseStep(bits: seq<int>, a: seq<int>, rest: seq<int>, form: seq<int>, coeff: seq<int>, rest': seq<int>)
    requires |bits| == |a| + |rest| && bits[|bits| - |rest|..] == rest && rest == form + rest' && |form| == |coeff|
    ensures |bits| == |a + coeff| + |rest'| && bits[|bits| - |rest'|..] == rest'
    ensures bits == a + coeff + rest' <==> bits == a + rest && form == coeff
  {
    if bits == a + coeff + rest' {
      assert bits[..|a|] == a && bits[|a|..] == coeff + rest';
      assert rest[..|form|] == form;
      assert bits == bits[..|a|] + bits[|a|..];
    }
  }

  // ---------- the encoder ----------

  lemma {:induction false} OneBits(h: nat)
    ensures ToBits(1, h + 1) == Zeros(h) + [1]
    decreases h
  {
    ZeroBits(h);
    assert ToBits(1, h + 1) == ToBits(0, h) + [1];
  }

  /** Sign, low bits and unary part, pushed one after the other. */
  lemma PushCoeff(acc: nat, p: seq<int>, x: int)
    requires Pending(acc, p) && |p| < 8 && Abs(x) <= 2047
    ensures var a := Abs(x);
      Pending(Pushed(Pushed(Pushed(acc, 1, if x < 0 then 1 else 0), 7, And(a, 127)), a / 128 + 1, 1), p + CoeffBits(x))
  {
    hide Pushed, Pending, ToBits, Pow2, And;
    var a, h := Abs(x), Abs(x) / 128;
    SevenBits();
    AndMask(a, 7);
    OneIsSmall(h + 1);
    var s := if x < 0 then 1 else 0;
    OneBit(s);
    var acc1 := Pushed(acc, 1, s);
    Push(acc, p, 1, s);
    Push(acc1, p + [s], 7, a % 128);
    var acc2 := Pushed(acc1, 7, a % 128);
    Push(acc2, p + [s] + ToBits(a % 128, 7), h + 1, 1);
    OneBits(h);
    assert p + CoeffBits(x) == p + [s] + ToBits(a % 128, 7) + (Zeros(h) + [1]);
  }

  lemma OneIsSmall(k: nat)
    requires k > 0
    ensures 1 < Pow2(k) && Pow2(1) == 2
  {
  }

  lemma OneBit(s: int)
    requires 0 <= s < 2
    ensures ToBits(s, 1) == [s]
  {
    assert ToBits(s / 2, 0) == [];
  }

  /** Whole bytes go out, or are only counted when there is no buffer. */
  method EmitChecked(out: array?<int>, v0: nat, acc: nat, len0: nat, ghost p: seq<int>)
    returns (ok: bool, v: nat, len: nat)
    requires Pending(acc, p) && |p| == len0
    requires out != null ==> v0 <= out.Length && IsDigits(out[..v0], 256)
    modifies if out == null then {} else {out}
    ensures !ok ==> out != null && 8 * v0 + len0 >= 8 * (out.Length + 1)
    ensures ok ==> len < 8 && 8 * v + len == 8 * v0 + len0 && Pending(acc, p[len0 - len..])
    ensures ok && out != null ==> v <= out.Length && IsDigits(out[..v], 256)
    ensures ok && out != null ==> BitsOf(out[..v]) + p[len0 - len..] == old(BitsOf(out[..v0])) + p
    ensures ok && out != null ==> forall i :: v <= i < out.Length ==> out[i] == old(out[i])
  {
    hide Fields, Pending, Popped, IsDigits;
    ok, v, len := true, v0, len0;
    assert p[0..] == p;
    while len >= 8
      invariant 0 <= len <= len0 && 8 * v + len == 8 * v0 + len0 && Pending(acc, p[len0 - len..])
      invariant out != null ==> v <= out.Length && IsDigits(out[..v], 256)
      invariant out != null ==> BitsOf(out[..v]) + p[len0 - len..] == old(BitsOf(out[..v0])) + p
      invariant out != null ==> forall i :: v <= i < out.Length ==> out[i] == old(out[i])
      decreases len
    {
      ghost var rest := p[len0 - len..];
      assert rest[8..] == p[len0 - (len - 8)..];
      len := len - 8;
      if out != null {
        if v >= out.Length {
          ok := false;
          return;
        }
        ByteOut(acc, rest, out[..v]);
        out[v] := Popped(acc, len, 8);
        assert out[..v + 1] == out[..v] + [out[v]];
        MoreDigits(out[..v], out[v]);
      } else {
        Pop(acc, rest, 8);
      }
      v := v + 1;
    }
  }

  lemma CompMore(x: seq<int>, u: nat)
    requires u < |x|
    ensures CompBits(x[..u + 1]) == CompBits(x[..u]) + CoeffBits(x[u])
  {
    assert x[..u + 1][..u] == x[..u];
  }

  lemma {:induction false} CompGrows(x: seq<int>, u: nat)
    requires u <= |x|
    ensures |CompBits(x[..u])| <= |CompBits(x)|
    decreases |x| - u
  {
    if u < |x| {
      CompMore(x, u);
      CompGrows(x, u + 1);
    } else {
      assert x[..u] == x;
    }
  }

  /** Zero for a value out of range or too little room; else the size of the encoding, which is the
      bit string and zeros up to the next byte. */
  method CompEncode(out: array?<int>, x: seq<int>, logn: nat) returns (r: nat)
    requires |x| == Pow2(logn)
    modifies if out == null then {} else {out}
    ensures r == if InRange(x, 2047) && (out == null || CompSize(x) <= out.Length) then CompSize(x) else 0
    ensures out != null && r != 0 ==>
      IsDigits(out[..r], 256) && BitsOf(out[..r]) == CompBits(x) + Zeros(8 * r - |CompBits(x)|)
    ensures out != null && r != 0 ==> forall i :: r <= i < out.Length ==> out[i] == old(out[i])
  {
    hide Fields, Pending, Pushed, IsDigits, CompBits, And, CoeffBits;
    var ok := AllInRange(x, 2047);
    if !ok {
      return 0;
    }
    var acc, len, v := 0, 0, 0;
    ghost var p: seq<int> := [];
    PendingNone();
    CompNone(x);
    FieldsNone(8);
    assert out != null ==> out[..0] == [];
    var u := 0;
    while u < |x|
      invariant 0 <= u <= |x| && |p| == len < 8 && 8 * v + len == |CompBits(x[..u])| && Pending(acc, p)
      invariant out != null ==> v <= out.Length && IsDigits(out[..v], 256) && BitsOf(out[..v]) + p == CompBits(x[..u])
      invariant out != null ==> forall i :: v <= i < out.Length ==> out[i] == old(out[i])
    {
      CompMore(x, u);
      CompGrows(x, u + 1);
      PushCoeff(acc, p, x[u]);
      var s, w := if x[u] < 0 then 1 else 0, Abs(x[u]);
      acc := Pushed(acc, 1, s);
      acc := Pushed(acc, 7, And(w, 127));
      w := w / 128;
      acc := Pushed(acc, w + 1, 1);
      len := len + 8 + w + 1;
      ghost var q := p + CoeffBits(x[u]);
      if out != null { Regroup(BitsOf(out[..v]), p, CoeffBits(x[u])); }
      ok, v, len := EmitChecked(out, v, acc, len, q);
      if !ok {
        return 0;
      }
      p := q[|q| - len..];
      u := u + 1;
    }
    assert x[..u] == x;
    r := CompFinish(out, x, v, acc, len, p);
  }

  lemma CompNone(x: seq<int>)
    ensures CompBits(x[..0]) == []
  {
  }

  method CompFinish(out: array?<int>, x: seq<int>, v: nat, acc: nat, len: nat, ghost p: seq<int>) returns (r: nat)
    requires |p| == len < 8 && 8 * v + len == |CompBits(x)| && Pending(acc, p)
    requires out != null ==> v <= out.Length && IsDigits(out[..v], 256) && BitsOf(out[..v]) + p == CompBits(x)
    modifies if out == null then {} else {out}
    ensures r == if out == null || CompSize(x) <= out.Length then CompSize(x) else 0
    ensures out != null && r != 0 ==>
      IsDigits(out[..r], 256) && BitsOf(out[..r]) == CompBits(x) + Zeros(8 * r - |CompBits(x)|)
    ensures out != null && r != 0 ==> forall i :: r <= i < out.Length ==> out[i] == old(out[i])
  {
    hide Fields, Pending, LastByte, IsDigits, CompBits;
    r := v;
    if len > 0 {
      if out != null {
        if v >= out.Length {
          return 0;
        }
        Flush(acc, p, out[..v]);
        MoreDigits(out[..v], LastByte(acc, len));
        out[v] := LastByte(acc, len);
        assert out[..v + 1] == out[..v] + [LastByte(acc, len)];
      }
      r := r + 1;
    } else if out != null {
      assert CompBits(x) + Zeros(0) == BitsOf(out[..v]);
    }
  }

  // ---------- the decoder ----------

  /** The bits still to be read: the pending ones and those of the bytes from v on. */
  function Left(input: seq<int>, v: nat, p: seq<int>): seq<int>
    requires v <= |input|
  {
    p + BitsOf(input[v..])
  }

  /** Reading a byte makes its bits pending and leaves the string of bits to be read as it was. */
  lemma LeftByte(input: seq<int>, v: nat, acc: nat, p: seq<int>)
    requires v < |input| && IsDigits(input, 256) && Pending(acc, p) && |p| <= 24
    ensures Pending(Pushed(acc, 8, input[v]), p + ToBits(input[v], 8))
    ensures Left(input, v + 1, p + ToBits(input[v], 8)) == Left(input, v, p)
  {
    hide Fields, ToBits, Pushed, Pending, Pow2;
    ByteWidth();
    Push(acc, p, 8, input[v]);
    assert input[v..] == [input[v]] + input[v + 1..];
    FieldsAppend([input[v]], input[v + 1..], 8);
    FieldsOne(input[v], 8);
    Regroup(p, ToBits(input[v], 8), BitsOf(input[v + 1..]));
  }

  /** b = acc >> len: its bit 7 is the sign, the seven below it the low part. */
  lemma SignAndLow(acc: nat, len: nat, p: seq<int>)
    requires Pending(acc, p) && |p| == len + 8
    ensures Pending(acc, p[8..])
    ensures acc / Pow2(len) >= 0
    ensures And(acc / Pow2(len), 128) != 0 <==> p[0] == 1
    ensures And(acc / Pow2(len), 127) == Val(p[1..8], 2)
  {
    hide Pow2, And, ToBits, Val, Popped, Bit;
    var b := acc / Pow2(len);
    DivNat(acc, Pow2(len));
    Pop(acc, p, 1);
    Pop(acc, p[1..], 7);
    assert p[1..][7..] == p[8..] && p[1..][..7] == p[1..8];
    BitOfShift(acc, len);
    OneBit(Popped(acc, len + 7, 1));
    SevenBits();
    AndPow2(b, 7);
    AndMask(b, 7);
    ValOfBits(Popped(acc, len, 7), 7);
    PoppedIs(acc, len);
  }

  lemma PoppedIs(acc: nat, len: nat)
    ensures acc / Pow2(len) >= 0 && Popped(acc, len, 7) == (acc / Pow2(len)) % Pow2(7)
  {
    DivNat(acc, Pow2(len));
  }

  /** Shifting by len and then by seven is shifting by len + 7. */
  lemma BitOfShift(acc: nat, len: nat)
    ensures acc / Pow2(len) >= 0 && 0 <= Popped(acc, len + 7, 1) < 2
    ensures Bit(acc / Pow2(len), 7) <==> Popped(acc, len + 7, 1) == 1
  {
    hide Pow2;
    DivNat(acc, Pow2(len));
    Pow2Add(len, 7);
    OneIsSmall(1);
    var a, b := Pow2(len), Pow2(7);
    DivTwice(acc, a, b);
  }

  /** Bits up to a one, with a new byte whenever none is pending. */
  method ReadHigh(input: seq<int>, v0: nat, acc0: nat, len0: nat, m0: nat, ghost p0: seq<int>)
    returns (ok: bool, v: nat, acc: nat, len: nat, m: nat, ghost p: seq<int>)
    requires v0 <= |input| && IsDigits(input, 256) && Pending(acc0, p0) && |p0| == len0 < 8 && m0 <= 2047
    ensures !ok ==> ReadUnary(Left(input, v0, p0), m0).NoEnd?
    ensures ok ==> v <= |input| && Pending(acc, p) && |p| == len < 8
    ensures ok ==> ReadUnary(Left(input, v0, p0), m0) == End(m, Left(input, v, p))
  {
    hide Pending, Pushed, Popped, Pow2, Left, ToBits, ReadUnary;
    ok, v, acc, len, m, p := true, v0, acc0, len0, m0, p0;
    while true
      invariant v <= |input| && Pending(acc, p) && |p| == len < 8 && m <= 2047
      invariant ReadUnary(Left(input, v0, p0), m0) == ReadUnary(Left(input, v, p), m)
      decreases 2047 - m
    {
      if len == 0 {
        if v >= |input| {
          NothingLeft(input, v, p, m);
          ok := false;
          return;
        }
        LeftByte(input, v, acc, p);
        acc := Pushed(acc, 8, input[v]);
        p := p + ToBits(input[v], 8);
        v := v + 1;
        len := 8;
      }
      Pop(acc, p, 1);
      OneIsSmall(1);
      OneBit(Popped(acc, len - 1, 1));
      UnaryStep(input, v, p, m);
      len := len - 1;
      var bit := Popped(acc, len, 1);
      p := p[1..];
      if bit != 0 {
        return;
      }
      m := m + 128;
      if m > 2047 {
        ok := false;
        return;
      }
    }
  }

  lemma NothingLeft(input: seq<int>, v: nat, p: seq<int>, m: nat)
    requires v == |input| && |p| < 8
    ensures |Left(input, v, p)| < 8 && (p == [] ==> ReadUnary(Left(input, v, p), m).NoEnd?)
  {
    FieldsNone(8);
    assert input[v..] == [];
  }

  lemma UnaryStep(input: seq<int>, v: nat, p: seq<int>, m: nat)
    requires v <= |input| && p != []
    ensures ReadUnary(Left(input, v, p), m) ==
      if p[0] == 1 then End(m, Left(input, v, p[1..]))
      else if m + 128 > 2047 then NoEnd
      else ReadUnary(Left(input, v, p[1..]), m + 128)
  {
    hide Fields;
    assert Left(input, v, p)[1..] == Left(input, v, p[1..]);
  }

  /** One value: eight bits, then the unary part. */
  method ReadValue(input: seq<int>, v0: nat, acc0: nat, len0: nat, ghost p0: seq<int>)
    returns (ok: bool, v: nat, acc: nat, len: nat, x: int, ghost p: seq<int>)
    requires v0 <= |input| && IsDigits(input, 256) && Pending(acc0, p0) && |p0| == len0 < 8
    ensures !ok ==> ReadCoeff(Left(input, v0, p0)).NoCoeff?
    ensures ok ==> v <= |input| && Pending(acc, p) && |p| == len < 8
    ensures ok ==> ReadCoeff(Left(input, v0, p0)).Coeff?
    ensures ok ==> var c := ReadCoeff(Left(input, v0, p0)); x == Signed(c.neg, c.mag) && c.rest == Left(input, v, p)
  {
    hide Pending, Pushed, Pow2, Left, ToBits, ReadUnary, And, Val;
    ok, v, acc, len, x, p := false, v0, acc0, len0, 0, p0;
    if v >= |input| {
      NothingLeft(input, v, p, 0);
      return;
    }
    LeftByte(input, v, acc, p);
    acc := Pushed(acc, 8, input[v]);
    p := p + ToBits(input[v], 8);
    v := v + 1;
    SignAndLow(acc, len, p);
    var b := acc / Pow2(len);
    var s, m := And(b, 128), And(b, 127);
    LowSmall(b);
    EightOff(input, v, p);
    ok, v, acc, len, m, p := ReadHigh(input, v, acc, len, m, p[8..]);
    if !ok {
      return;
    }
    x := m;
    if s != 0 {
      x := -x;
    }
  }

  lemma LowSmall(b: nat)
    ensures 0 <= And(b, 127) < 128
  {
    hide And;
    SevenBits();
    AndMask(b, 7);
  }

  lemma EightOff(input: seq<int>, v: nat, p: seq<int>)
    requires v <= |input| && |p| >= 8
    ensures var all := Left(input, v, p);
      |all| >= 8 && all[0] == p[0] && all[1..8] == p[1..8] && all[8..] == Left(input, v, p[8..])
  {
    hide Fields;
    assert Left(input, v, p)[8..] == Left(input, v, p[8..]);
    assert Left(input, v, p)[1..8] == p[1..8];
  }

  /** What is read is the first n values of the bit string, and how many bytes they reach into;
      zero exactly if there are not that many. */
  method CompDecode(x: array<int>, logn: nat, input: seq<int>) returns (r: nat)
    requires x.Length == Pow2(logn) && IsDigits(input, 256)
    modifies x
    ensures r == 0 <==> Parse(BitsOf(input), x.Length).Bad?
    ensures r != 0 ==> var g := Parse(BitsOf(input), x.Length);
      x[..] == g.x && r == (8 * |input| - |g.rest| + 7) / 8
  {
    hide Fields, Pending, Pow2, Left, ReadCoeff;
    var acc: nat, len: nat, v: nat, u: nat := 0, 0, 0, 0;
    ghost var p: seq<int> := [];
    ghost var bits := BitsOf(input);
    PendingNone();
    LeftAll(input);
    assert x[..0] == [];
    while u < x.Length
      invariant 0 <= u <= x.Length && v <= |input| && Pending(acc, p) && |p| == len < 8
      invariant Parse(bits, u).Good? && Parse(bits, u).x == x[..u] && Parse(bits, u).rest == Left(input, v, p)
    {
      var ok, value;
      ok, v, acc, len, value, p := ReadValue(input, v, acc, len, p);
      if !ok {
        ParseBad(bits, u + 1, x.Length);
        return 0;
      }
      x[u] := value;
      assert x[..u + 1] == x[..u] + [value];
      u := u + 1;
    }
    assert x[..u] == x[..];
    LeftLength(input, v, p);
    ParseForm(bits, u);
    SomeBits(x[..]);
    r := v;
  }

  lemma LeftAll(input: seq<int>)
    ensures Left(input, 0, []) == BitsOf(input)
  {
    hide Fields;
    assert input[0..] == input && [] + BitsOf(input) == BitsOf(input);
  }

  lemma LeftLength(input: seq<int>, v: nat, p: seq<int>)
    requires v <= |input|
    ensures |Left(input, v, p)| == |p| + 8 * (|input| - v)
  {
    hide Fields;
  }

  lemma SomeBits(x: seq<int>)
    requires x != []
    ensures |CompBits(x)| > 0
  {
    hide FormBits;
  }

  lemma {:induction false} ParseBad(bits: seq<int>, u: nat, n: nat)
    requires u <= n && Parse(bits, u).Bad?
    ensures Parse(bits, n).Bad?
    decreases n
  {
    if u == n {
    } else {
      ParseBad(bits, u, n - 1);
    }
  }

  /** Decoding what was encoded, with anything after it, gives back the values and the length. */
  method CompRoundTrip(x: seq<int>, logn: nat, more: seq<int>) returns (bytes: seq<int>, back: seq<int>, used: nat)
    requires |x| == Pow2(logn) && InRange(x, 2047) && IsDigits(more, 256)
    ensures |bytes| == CompSize(x) && back == x && used == |bytes|
    ensures BitsOf(bytes) == CompBits(x) + Zeros(8 * |bytes| - |CompBits(x)|)
  {
    hide Fields, Pow2, CompBits, InRange, Parse;
    var n := CompEncode(null, x, logn);
    SomeBits(x);
    var out := new int[n];
    var r := CompEncode(out, x, logn);
    bytes := out[..];
    assert out[..r] == bytes;
    var y := new int[|x|];
    ghost var zeros := Zeros(8 * |bytes| - |CompBits(x)|);
    FieldsAppend(bytes, more, 8);
    Regroup(CompBits(x), zeros, BitsOf(more));
    ParseOf(x, zeros + BitsOf(more));
    JoinDigits(bytes, more);
    used := CompDecode(y, logn, bytes + more);
    back := y[..];
  }

  lemma JoinDigits(a: seq<int>, b: seq<int>)
    requires IsDigits(a, 256) && IsDigits(b, 256)
    ensures IsDigits(a + b, 256)
  {
  }

  // ---------- which accepted inputs the encoder makes ----------

  /** The bytes that an accepted input reaches into are the encoding of the values read, zero bits up
      to the next byte included, if and only if no zero had a minus sign and the bits left over in the
      last of them are zero. */
  lemma Canonical(input: seq<int>, n: nat)
    requires IsDigits(input, 256) && Parse(BitsOf(input), n).Good?
    ensures var g := Parse(BitsOf(input), n);
      var r := (8 * |input| - |g.rest| + 7) / 8;
      var k := 8 * r - |CompBits(g.x)|;
      && r == CompSize(g.x) <= |input| && 0 <= k < 8 && k <= |g.rest|
      && (BitsOf(input[..r]) == CompBits(g.x) + Zeros(k) <==> !g.minusZero && g.rest[..k] == Zeros(k))
  {
    hide Fields, Parse, CompBits, Zeros;
    ParseForm(BitsOf(input), n);
    var g := Parse(BitsOf(input), n);
    var r := CompSize(g.x);
    BitsPrefix(input, r);
    CutIs(BitsOf(input), CompBits(g.x), g.rest, 8 * r - |CompBits(g.x)|, Zeros(8 * r - |CompBits(g.x)|));
  }

  /** A bit string whose end is known starts with a and k given bits if and only if its parts do. */
  lemma CutIs(bits: seq<int>, a: seq<int>, rest: seq<int>, k: nat, pad: seq<int>)
    requires |bits| == |a| + |rest| && bits[|bits| - |rest|..] == rest && k <= |rest| && |pad| == k
    ensures bits[..|a| + k] == a + pad <==> bits == a + rest && rest[..k] == pad
  {
    assert bits[|a|..][..k] == bits[|a|..|a| + k] == bits[..|a| + k][|a|..];
    if bits[..|a| + k] == a + pad {
      assert bits[..|a|] == bits[..|a| + k][..|a|] == a;
      assert bits == bits[..|a|] + bits[|a|..];
    }
  }

  /** No input with a minus zero starts with an encoding of that many values. */
  lemma MinusZeroNeverMade(bits: seq<int>, x: seq<int>, t: seq<int>)
    requires InRange(x, 2047) && Parse(bits, |x|).Good? && Parse(bits, |x|).minusZero
    ensures bits != CompBits(x) + t
  {
    ParseOf(x, t);
  }

  /** The decoder accepts zero with a minus sign. */
  lemma MinusZeroAccepted(rest: seq<int>)
    requires IsDigits(rest, 2)
    ensures Parse(FormBits(true, 0) + rest, 1) == Good([0], rest, true)
  {
    hide FormBits, ReadCoeff;
    CoeffOf(true, 0, rest);
    assert Parse(FormBits(true, 0) + rest, 0) == Good([], FormBits(true, 0) + rest, false);
  }

  /** It also accepts anything in the bits left over: the bytes 0x00 0xC0 are read as one zero, whose
      encoding is 0x00 0x80. */
  lemma PaddingAccepted()
    ensures Parse(BitsOf([0x00, 0xC0]), 1) == Good([0], [1] + Zeros(6), false)
    ensures BitsOf([0x00, 0x80]) == CompBits([0]) + Zeros(7) != BitsOf([0x00, 0xC0])
  {
    hide Zeros, FormBits, Parse, Fields;
    OneZero();
    TwoBytes(0x80);
    TwoBytes(0xC0);
    HighBits(0);
    HighBits(1);
    assert CompBits([0]) + ([1] + Zeros(6)) == BitsOf([0x00, 0xC0]);
    ParseOf([0], [1] + Zeros(6));
    assert BitsOf([0x00, 0xC0])[9] == 1 && (CompBits([0]) + Zeros(7))[9] == 0;
  }

  lemma OneZero()
    ensures CompBits([0]) == Zeros(8) + [1]
  {
    assert CompBits([0][..0]) == [] && CompBits([0]) == [] + CoeffBits(0);
    ZeroBits(7);
    assert CoeffBits(0) == [0] + Zeros(7) + [] + [1];
  }

  lemma TwoBytes(b: nat)
    ensures BitsOf([0x00, b]) == Zeros(8) + ToBits(b, 8)
  {
    hide ToBits;
    assert [0x00, b][..1] == [0x00] && [0x00][..0] == [];
    ZeroBits(8);
    assert Fields([], 8) == [] && Fields([0x00], 8) == [] + ToBits(0, 8);
  }

  lemma HighBits(second: nat)
    requires second < 2
    ensures ToBits(0x80 + 0x40 * second, 8) == [1, second] + Zeros(6)
  {
    hide Zeros, ToBits, Pow2;
    ShiftedBits(2 + second, 2, 6);
    assert Pow2(6) == 64 by {
      SevenBits();
      Pow2Half(7);
    }
    TwoBits(second);
  }

  lemma TwoBits(second: nat)
    requires second < 2
    ensures ToBits(2 + second, 2) == [1, second]
  {
    assert ToBits(1, 1) == ToBits(0, 0) + [1];
  }

  lemma {:induction false} ShiftedBits(d: nat, k: nat, j: nat)
    ensures ToBits(d * Pow2(j), k + j) == ToBits(d, k) + Zeros(j)
    decreases j
  {
    if j == 0 {
      assert Zeros(0) == [];
    } else {
      ShiftedBits(d, k, j - 1);
      Pow2Half(j);
      assert d * Pow2(j) == 2 * (d * Pow2(j - 1));
      assert Zeros(j) == Zeros(j - 1) + [0];
    }
  }
}
