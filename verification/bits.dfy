/** Unsigned machine integers as bounded naturals, and the bitwise operators
    the decoder uses on them.

    Go's `&`, `|`, `>>` and `<<` are written as functions on naturals so that
    the arithmetic that follows them (interpolation by division) stays in
    linear integer arithmetic.  `<<` wraps at the operand's width, as Go's
    unsigned shifts do. */
module Bits {

  type Byte = x: int | 0 <= x < 0x100
  type Uint32 = x: int | 0 <= x < 0x1_0000_0000
  type Uint64 = x: int | 0 <= x < 0x1_0000_0000_0000_0000

  function Pow2(n: nat): (r: nat)
    ensures r > 0
  {
    if n == 0 then 1 else 2 * Pow2(n - 1)
  }

  /** `x & y`, bit by bit from the least significant end. */
  function BitAnd(x: nat, y: nat): (r: nat)
    ensures r <= x && r <= y
  {
    if x == 0 || y == 0 then 0
    else 2 * BitAnd(x / 2, y / 2) + (if x % 2 == 1 && y % 2 == 1 then 1 else 0)
  }

  /** `x | y`, bit by bit from the least significant end. */
  function BitOr(x: nat, y: nat): (r: nat)
    ensures x <= r && y <= r && r <= x + y
    decreases x + y
  {
    if x == 0 then y
    else if y == 0 then x
    else 2 * BitOr(x / 2, y / 2) + (if x % 2 == 1 || y % 2 == 1 then 1 else 0)
  }

  /** `x | y` on two uint32 values. */
  function Or32(x: Uint32, y: Uint32): (r: Uint32)
    ensures x <= r && y <= r
  {
    Pow2Values();
    OrBound(x, y, 32);
    BitOr(x, y)
  }

  /** `x | y` on two uint64 values. */
  function Or64(x: Uint64, y: Uint64): (r: Uint64)
    ensures x <= r && y <= r
  {
    Pow2Values();
    OrBound(x, y, 64);
    BitOr(x, y)
  }

  /** `x >> n` on an unsigned value. */
  function Shr(x: nat, n: nat): nat
  {
    DivBounds(x, Pow2(n));
    x / Pow2(n)
  }

  /** `x << n` on an unsigned value of the given bit width: high bits are lost. */
  function Shl(x: nat, n: nat, width: nat): (r: nat)
    ensures r < Pow2(width)
  {
    (x * Pow2(n)) % Pow2(width)
  }

  /** `x << n` on a uint32 value. */
  function Shl32(x: nat, n: nat): (r: Uint32)
  {
    Pow2Values();
    Shl(x, n, 32)
  }

  /** The `n`-bit field of `x` that starts at bit `lo`. */
  function Field(x: nat, lo: nat, n: nat): nat
  {
    (x / Pow2(lo)) % Pow2(n)
  }

  /** `n` one bits followed by `lo` zero bits. */
  function FieldMask(lo: nat, n: nat): nat
  {
    MulMonotone(Pow2(lo), 0, Pow2(n) - 1);
    (Pow2(n) - 1) * Pow2(lo)
  }

  lemma Pow2Values()
    ensures Pow2(2) == 4 && Pow2(3) == 8 && Pow2(4) == 16 && Pow2(5) == 32 && Pow2(6) == 64
    ensures Pow2(8) == 0x100 && Pow2(11) == 0x800 && Pow2(16) == 0x1_0000
    ensures Pow2(24) == 0x100_0000 && Pow2(32) == 0x1_0000_0000
    ensures Pow2(40) == 0x100_0000_0000 && Pow2(48) == 0x1_0000_0000_0000
    ensures Pow2(64) == 0x1_0000_0000_0000_0000
  {
    Pow2Narrow();
    Pow2Wide();
  }

  /** The powers of two up to a 32-bit word. */
  lemma Pow2Narrow()
    ensures Pow2(2) == 4 && Pow2(3) == 8 && Pow2(4) == 16 && Pow2(5) == 32 && Pow2(6) == 64
    ensures Pow2(8) == 0x100 && Pow2(11) == 0x800 && Pow2(16) == 0x1_0000
    ensures Pow2(24) == 0x100_0000 && Pow2(32) == 0x1_0000_0000
  {
    assert Pow2(8) == 0x100;
    assert Pow2(11) == 0x800 by { Pow2Add(8, 3); }
    assert Pow2(16) == 0x1_0000 by { Pow2Add(8, 8); }
    assert Pow2(24) == 0x100_0000 by { Pow2Add(16, 8); }
    assert Pow2(32) == 0x1_0000_0000 by { Pow2Add(16, 16); }
  }

  /** The powers of two for 40-, 48- and 64-bit words. */
  lemma Pow2Wide()
    ensures Pow2(40) == 0x100_0000_0000 && Pow2(48) == 0x1_0000_0000_0000
    ensures Pow2(64) == 0x1_0000_0000_0000_0000
  {
    Pow2Narrow();
    assert Pow2(40) == 0x100_0000_0000 by { Pow2Add(32, 8); }
    assert Pow2(48) == 0x1_0000_0000_0000 by { Pow2Add(32, 16); }
    assert Pow2(64) == 0x1_0000_0000_0000_0000 by { Pow2Add(32, 32); }
  }

  lemma {:induction false} Pow2Add(a: nat, b: nat)
    ensures Pow2(a + b) == Pow2(a) * Pow2(b)
  {
    if a > 0 {
      Pow2Add(a - 1, b);
      assert Pow2(a + b) == 2 * Pow2(a - 1 + b);
    }
  }

  lemma MulMonotone(a: nat, b: nat, c: nat)
    requires b <= c
    ensures a * b <= a * c
  {
    assert a * c == a * b + a * (c - b);
  }

  lemma DivBounds(x: nat, d: nat)
    requires d > 0
    ensures 0 <= x / d <= x
  {
    var q := x / d;
    if q > 0 {
      MulMonotone(q, 1, d);
    }
  }

  lemma MulStep(d: nat, a: nat, b: nat)
    requires a < b
    ensures d * a + d <= d * b
  {
    var k := b - a - 1;
    assert d * b == d * a + d * (k + 1);
    assert d * (k + 1) == d * k + d;
  }

  /** Quotient and remainder are determined by any decomposition `x == d * q + r`. */
  lemma DivModUnique(x: nat, d: nat, q: nat, r: nat)
    requires 0 <= r < d && x == d * q + r
    ensures x / d == q && x % d == r
  {
    var q', r' := x / d, x % d;
    assert x == d * q' + r';
    if q' > q {
      MulStep(d, q, q');
    } else if q' < q {
      MulStep(d, q', q);
    }
  }

  lemma DivDiv(x: nat, p: nat, q: nat)
    requires p > 0 && q > 0
    ensures x / p / q == x / (p * q)
  {
    SplitMulMod(x, p, q);
  }

  /** Shifting right twice is shifting right by the sum. */
  lemma ShrShr(x: nat, a: nat, b: nat)
    ensures Shr(Shr(x, a), b) == Shr(x, a + b)
  {
    Pow2Add(a, b);
    DivDiv(x, Pow2(a), Pow2(b));
  }

  lemma SplitMod(x: nat, m: nat)
    requires m > 0
    ensures x % (2 * m) == 2 * ((x / 2) % m) + x % 2
  {
    var h := x / 2;
    var t := h / m;
    assert h == m * t + h % m;
    assert x == 2 * h + x % 2;
    assert 2 * (m * t) == (2 * m) * t;
    DivModUnique(x, 2 * m, t, 2 * (h % m) + x % 2);
  }

  lemma {:induction false} OrBound(x: nat, y: nat, k: nat)
    requires x < Pow2(k) && y < Pow2(k)
    ensures BitOr(x, y) < Pow2(k)
  {
    if x != 0 && y != 0 {
      OrBound(x / 2, y / 2, k - 1);
    }
  }

  lemma {:induction false} OrCommutes(x: nat, y: nat)
    ensures BitOr(x, y) == BitOr(y, x)
    decreases x + y
  {
    if x != 0 && y != 0 {
      OrCommutes(x / 2, y / 2);
    }
  }

  /** OR of a value below bit `k` with a multiple of `2^k` is their sum:
      the two share no set bit. */
  lemma {:induction false} OrDisjoint(x: nat, q: nat, k: nat)
    requires x < Pow2(k)
    ensures BitOr(x, q * Pow2(k)) == x + q * Pow2(k)
  {
    var y := q * Pow2(k);
    if x != 0 && y != 0 {
      var m := Pow2(k - 1);
      assert y == 2 * (q * m);
      assert y / 2 == q * m && y % 2 == 0;
      OrDisjoint(x / 2, q, k - 1);
    }
  }

  /** `OrDisjoint` for a known power `p = 2^k`, in both operand orders. */
  lemma OrShifted(x: nat, q: nat, k: nat, p: nat)
    requires p == Pow2(k) && x < p
    ensures BitOr(x, p * q) == x + p * q && BitOr(p * q, x) == x + p * q
  {
    OrDisjoint(x, q, k);
    assert q * Pow2(k) == p * q;
    OrCommutes(x, p * q);
  }

  lemma {:induction false} Pow2Mono(a: nat, b: nat)
    requires a <= b
    ensures Pow2(a) <= Pow2(b)
  {
    if a < b {
      Pow2Mono(a, b - 1);
    }
  }

  /** A byte shifted left loses no bits when it still ends within `width`. */
  lemma ShlByte(x: Byte, n: nat, width: nat)
    requires n + 8 <= width
    ensures Shl(x, n, width) == x * Pow2(n)
  {
    ByteShiftFits(x, n, width);
    ShlFits(x, n, width);
  }

  lemma ByteShiftFits(x: Byte, n: nat, width: nat)
    requires n + 8 <= width
    ensures x * Pow2(n) + Pow2(n) <= Pow2(width)
  {
    var p := Pow2(n);
    MulMonotone(p, x, 0xFF);
    MulStep(p, 0xFF, 0x100);
    Pow2Add(n, 8);
    assert Pow2(8) == 0x100 by { Pow2Values(); }
    Pow2Mono(n + 8, width);
  }

  /** Appending a byte above the `k` bits built so far, as in
      `acc | uint(b) << k`, adds `b * 2^k` and leaves a value below `2^(k+8)`. */
  lemma AppendByte(acc: nat, b: Byte, k: nat, width: nat)
    requires acc < Pow2(k) && k + 8 <= width
    ensures BitOr(acc, Shl(b, k, width)) == acc + b * Pow2(k)
    ensures acc + b * Pow2(k) < Pow2(k + 8)
  {
    ShlByte(b, k, width);
    OrDisjoint(acc, b, k);
    ByteShiftFits(b, k, k + 8);
  }

  /** A left shift that does not reach bit `width` loses nothing. */
  lemma ShlFits(x: nat, n: nat, width: nat)
    requires x * Pow2(n) < Pow2(width)
    ensures Shl(x, n, width) == x * Pow2(n)
  {
    DivModUnique(x * Pow2(n), Pow2(width), 0, x * Pow2(n));
  }

  /** `(x >> lo) & (2^n - 1)` is the `n`-bit field of `x` at `lo`. */
  lemma ShrMask(x: nat, lo: nat, n: nat)
    ensures BitAnd(Shr(x, lo), Pow2(n) - 1) == Field(x, lo, n)
  {
    var s := Shr(x, lo);
    assert s == x / Pow2(lo);
    AndLowMask(s, n);
    assert Field(x, lo, n) == s % Pow2(n);
  }

  /** `(x >> k) & 0xFF` is the byte of `x` that starts at bit `k`. */
  lemma ByteOf(x: nat, k: nat)
    ensures BitAnd(Shr(x, k), 0xFF) == Field(x, k, 8)
  {
    assert Pow2(8) == 0x100 by { Pow2Values(); }
    ShrMask(x, k, 8);
  }

  /** The bits of `x` below `a + b` are its `b`-bit field at `a` above its
      bits below `a`. */
  lemma SplitLow(x: nat, a: nat, b: nat)
    ensures x % Pow2(a + b) == Field(x, a, b) * Pow2(a) + x % Pow2(a)
  {
    Pow2Add(a, b);
    SplitMulMod(x, Pow2(a), Pow2(b));
  }

  /** Dividing by `pa * pb` is dividing by `pa`, then by `pb`; the remainder
      is made of the two partial remainders. */
  lemma SplitMulMod(x: nat, pa: nat, pb: nat)
    requires pa > 0 && pb > 0
    ensures x / (pa * pb) == (x / pa) / pb
    ensures x % (pa * pb) == ((x / pa) % pb) * pa + x % pa
  {
    var d := pa * pb;
    var f, t := (x / pa) % pb, (x / pa) / pb;
    var r := f * pa + x % pa;
    Regroup(x, pa, pb);
    RemainderBound(f, x % pa, pa, pb);
    DivModUnique(x, d, t, r);
  }

  /** A digit below `pb` in base `pa`, plus a remainder below `pa`, stays
      below `pa * pb`. */
  lemma RemainderBound(f: nat, m: nat, pa: nat, pb: nat)
    requires f < pb && m < pa
    ensures f * pa + m < pa * pb
  {
    MulMonotone(pa, f, pb - 1);
    assert f * pa == pa * f;
    assert pa * (pb - 1) == pa * pb - pa;
  }

  lemma Regroup(x: nat, pa: nat, pb: nat)
    requires pa > 0 && pb > 0
    ensures x == (pa * pb) * ((x / pa) / pb) + ((x / pa) % pb) * pa + x % pa
  {
    var q := x / pa;
    var t := q / pb;
    assert x == pa * q + x % pa;
    assert q == pb * t + q % pb;
    assert pa * q == pa * (pb * t) + pa * (q % pb);
    assert pa * (pb * t) == (pa * pb) * t;
  }

  /** Masking with the `n` low bits is the remainder modulo `2^n`. */
  lemma {:induction false} AndLowMask(x: nat, n: nat)
    ensures BitAnd(x, Pow2(n) - 1) == x % Pow2(n)
  {
    if n == 0 {
      assert Pow2(n) == 1;
    } else if x != 0 {
      var m := Pow2(n - 1);
      var mask := Pow2(n) - 1;
      assert mask == 2 * (m - 1) + 1;
      assert mask / 2 == m - 1 && mask % 2 == 1;
      calc {
        BitAnd(x, mask);
        2 * BitAnd(x / 2, m - 1) + x % 2;
        { AndLowMask(x / 2, n - 1); }
        2 * ((x / 2) % m) + x % 2;
        { SplitMod(x, m); }
        x % (2 * m);
      }
    }
  }

  /** Masking with `n` ones starting at bit `lo` keeps exactly that field, in place. */
  lemma {:induction false} AndFieldMask(x: nat, lo: nat, n: nat)
    ensures BitAnd(x, FieldMask(lo, n)) == Field(x, lo, n) * Pow2(lo)
  {
    if lo == 0 {
      AndLowField(x, n);
    } else if n == 0 || x == 0 {
      AndFieldZero(x, lo, n);
    } else {
      AndFieldMask(x / 2, lo - 1, n);
      AndFieldStep(x, lo, n);
    }
  }

  lemma AndFieldStep(x: nat, lo: nat, n: nat)
    requires lo > 0 && n > 0 && x > 0
    requires BitAnd(x / 2, FieldMask(lo - 1, n)) == Field(x / 2, lo - 1, n) * Pow2(lo - 1)
    ensures BitAnd(x, FieldMask(lo, n)) == Field(x, lo, n) * Pow2(lo)
  {
    var m := Pow2(lo - 1);
    var f := Field(x, lo, n);
    HalveFieldMask(lo, n);
    assert Field(x / 2, lo - 1, n) == f by {
      DivDiv(x, 2, m);
    }
    calc {
      BitAnd(x, FieldMask(lo, n));
      { BitAndEven(x, FieldMask(lo, n)); }
      2 * BitAnd(x / 2, FieldMask(lo - 1, n));
      2 * (f * m);
      { TwiceProduct(f, m); }
      f * (2 * m);
    }
  }

  lemma TwiceProduct(f: nat, m: nat)
    ensures 2 * (f * m) == f * (2 * m)
  {
  }

  lemma AndLowField(x: nat, n: nat)
    ensures BitAnd(x, FieldMask(0, n)) == Field(x, 0, n) * Pow2(0)
  {
    AndLowMask(x, n);
  }

  lemma AndFieldZero(x: nat, lo: nat, n: nat)
    requires n == 0 || x == 0
    ensures BitAnd(x, FieldMask(lo, n)) == Field(x, lo, n) * Pow2(lo)
  {
    if n == 0 {
      assert Pow2(0) == 1;
      assert FieldMask(lo, 0) == 0;
      assert BitAnd(x, 0) == 0;
      assert (x / Pow2(lo)) % 1 == 0;
    } else {
      assert 0 / Pow2(lo) == 0;
      assert Field(0, lo, n) == 0;
      assert BitAnd(0, FieldMask(lo, n)) == 0;
    }
  }

  lemma BitAndEven(x: nat, y: nat)
    requires x > 0 && y > 0 && y % 2 == 0
    ensures BitAnd(x, y) == 2 * BitAnd(x / 2, y / 2)
  {
  }

  lemma HalveFieldMask(lo: nat, n: nat)
    requires lo > 0 && n > 0
    ensures var mask, inner := FieldMask(lo, n), FieldMask(lo - 1, n);
      Pow2(lo) == 2 * Pow2(lo - 1) && mask > 0 && mask / 2 == inner && mask % 2 == 0
  {
    var m := Pow2(lo - 1);
    var inner := (Pow2(n) - 1) * m;
    assert (Pow2(n) - 1) * (2 * m) == 2 * inner;
    assert Pow2(n) >= 2;
    MulMonotone(m, 1, Pow2(n) - 1);
  }
}
