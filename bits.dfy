/** Python's bitwise operators on non-negative integers, and the bit fields they select.
    A byte of a USB reply is a Python int in 0..255; the masks and shifts of the meter
    protocol are Python's `&`, `|`, `<<` and `>>` on such ints, written out arithmetically
    here (the same meaning Python gives them for non-negative operands). */
module Bits {

  /** One byte of a USB control-transfer reply or a mode word. */
  type byte = x: int | 0 <= x < 256

  function Pow2(n: nat): (p: nat)
    ensures p >= 1
  {
    if n == 0 then 1 else 2 * Pow2(n - 1)
  }

  lemma SmallPowers()
    ensures Pow2(0) == 1 && Pow2(1) == 2 && Pow2(2) == 4 && Pow2(3) == 8 && Pow2(4) == 16
    ensures Pow2(5) == 32 && Pow2(6) == 64 && Pow2(7) == 128 && Pow2(8) == 256
  {
  }

  /** The `width` bits of `x` starting at bit `lo` (bit 0 is the least significant),
      as a number: the reference meaning of a bit field. */
  function Field(x: nat, lo: nat, width: nat): nat
  {
    (x / Pow2(lo)) % Pow2(width)
  }

  /** Python `x & y`: never more than either operand. */
  function BitAnd(x: nat, y: nat): (r: nat)
    ensures r <= x && r <= y
    decreases x
  {
    if x == 0 || y == 0 then 0
    else 2 * BitAnd(x / 2, y / 2) + (x % 2) * (y % 2)
  }

  /** Python `x | y`: at least either operand, and never more than their sum. */
  function BitOr(x: nat, y: nat): (r: nat)
    ensures x <= r && y <= r && r <= x + y
    decreases x + y
  {
    if x == 0 then y
    else if y == 0 then x
    else 2 * BitOr(x / 2, y / 2) + (if x % 2 == 1 || y % 2 == 1 then 1 else 0)
  }

  /** Python `x << k`: shifting back right by `k` recovers `x`. */
  function Shl(x: nat, k: nat): (r: nat)
    ensures Shr(r, k) == x
  {
    MulNonNegative(x, Pow2(k));
    DivModUnique(x * Pow2(k), Pow2(k), x, 0);
    x * Pow2(k)
  }

  /** Python `x >> k`: the number of whole multiples of 2^k in `x`. */
  function Shr(x: nat, k: nat): (r: nat)
    ensures r * Pow2(k) <= x < (r + 1) * Pow2(k)
  {
    DivNonNegative(x, Pow2(k));
    x / Pow2(k)
  }

  /** A mask of `width` one-bits starting at bit `lo`: as a field at `lo`, all ones. */
  function Mask(lo: nat, width: nat): (m: nat)
    ensures Field(m, lo, width) == Pow2(width) - 1
  {
    var m := (Pow2(width) - 1) * Pow2(lo);
    DivModUnique(m, Pow2(lo), Pow2(width) - 1, 0);
    DivModUnique(Pow2(width) - 1, Pow2(width), 0, Pow2(width) - 1);
    m
  }

  lemma MulNonNegative(a: int, b: int)
    requires a >= 0 && b >= 0
    ensures a * b >= 0
  {}

  lemma DivNonNegative(x: int, d: int)
    requires x >= 0 && d > 0
    ensures x / d >= 0
  {
    if x / d < 0 {
      MulNonNegative(d, -(x / d) - 1);
      assert false;
    }
  }

  lemma MulTwice(a: int, b: int)
    ensures a * (2 * b) == 2 * (a * b)
  {
  }

  /** Quotient and remainder are determined by `x == d * q + r` with `0 <= r < d`. */
  lemma DivModUnique(x: int, d: int, q: int, r: int)
    requires d > 0 && 0 <= r < d && x == d * q + r
    ensures x / d == q && x % d == r
  {
    var k := x / d - q;
    assert d * (x / d) == d * q + d * k;
    if k >= 1 {
      MulNonNegative(d, k - 1);
      assert false;
    } else if k <= -1 {
      MulNonNegative(d, -k - 1);
      assert false;
    }
  }

  lemma DivDiv(x: nat, m: nat)
    requires m >= 1
    ensures (x / 2) / m == x / (2 * m)
  {
    var q, r := x / (2 * m), x % (2 * m);
    assert x == (2 * m) * q + r;
    DivModUnique(x, 2, m * q + r / 2, r % 2);
    DivModUnique(x / 2, m, q, r / 2);
  }

  lemma ModDouble(x: nat, m: nat)
    requires m >= 1
    ensures x % (2 * m) == 2 * ((x / 2) % m) + x % 2
  {
    var h := x / 2;
    var q, r := h / m, h % m;
    assert h == m * q + r;
    assert x == 2 * h + x % 2;
    DivModUnique(x, 2 * m, q, 2 * r + x % 2);
  }

  /** Masking with `width` low one-bits keeps the value modulo 2^width. */
  lemma {:induction false} AndLowMask(x: nat, width: nat)
    ensures BitAnd(x, Pow2(width) - 1) == x % Pow2(width)
  {
    if width == 0 {
      assert Pow2(width) - 1 == 0;
    } else if x == 0 {
      DivModUnique(0, Pow2(width), 0, 0);
    } else {
      var m := Pow2(width - 1);
      var y := Pow2(width) - 1;
      assert BitAnd(x, y) == 2 * BitAnd(x / 2, m - 1) + x % 2 by {
        assert y == 2 * (m - 1) + 1;
        DivModUnique(y, 2, m - 1, 1);
      }
      assert BitAnd(x / 2, m - 1) == (x / 2) % m by {
        AndLowMask(x / 2, width - 1);
      }
      assert x % Pow2(width) == 2 * ((x / 2) % m) + x % 2 by {
        ModDouble(x, m);
      }
    }
  }

  /** `x & mask` keeps exactly the masked field, in place. */
  lemma {:induction false} AndMask(x: nat, lo: nat, width: nat)
    ensures BitAnd(x, Mask(lo, width)) == Field(x, lo, width) * Pow2(lo)
  {
    var pw := Pow2(width);
    if lo == 0 {
      AndLowMask(x, width);
      DivModUnique(x, 1, x, 0);
    } else if pw == 1 {
      assert Mask(lo, width) == 0;
      assert Field(x, lo, width) == 0;
    } else if x == 0 {
      DivModUnique(0, Pow2(lo), 0, 0);
      DivModUnique(0, pw, 0, 0);
    } else {
      AndMask(x / 2, lo - 1, width);
      AndMaskStep(x, lo, width);
    }
  }

  /** One step of AndMask: the lowest bit of the mask is clear, so `&` halves both sides. */
  lemma AndMaskStep(x: nat, lo: nat, width: nat)
    requires lo > 0 && x > 0 && Pow2(width) > 1
    requires BitAnd(x / 2, Mask(lo - 1, width)) == Field(x / 2, lo - 1, width) * Pow2(lo - 1)
    ensures BitAnd(x, Mask(lo, width)) == Field(x, lo, width) * Pow2(lo)
  {
    var p, pw := Pow2(lo - 1), Pow2(width);
    assert Pow2(lo) == 2 * p;
    var m := Mask(lo - 1, width);
    assert m == (pw - 1) * p;
    assert m >= 1 by {
      MulNonNegative(pw - 2, p);
      assert (pw - 1) * p == (pw - 2) * p + p;
    }
    assert Mask(lo, width) == 2 * m by {
      MulTwice(pw - 1, p);
    }
    var f := Field(x / 2, lo - 1, width);
    assert BitAnd(x, 2 * m) == 2 * (f * p) by {
      assert (2 * m) / 2 == m && (2 * m) % 2 == 0;
    }
    assert f == Field(x, lo, width) by {
      DivDiv(x, p);
    }
    MulTwice(f, p);
  }

  /** `(x & mask) >> lo` is the field itself: the masks and shifts of the protocol
      read exactly the bits they name. */
  lemma MaskShift(x: nat, lo: nat, width: nat)
    ensures Shr(BitAnd(x, Mask(lo, width)), lo) == Field(x, lo, width)
  {
    AndMask(x, lo, width);
    DivModUnique(Field(x, lo, width) * Pow2(lo), Pow2(lo), Field(x, lo, width), 0);
  }

  /** `|` of two values whose bits do not overlap is their sum. */
  lemma {:induction false} OrDisjoint(a: nat, b: nat, k: nat)
    requires a < Pow2(k)
    ensures BitOr(a, Shl(b, k)) == a + Shl(b, k)
  {
    if a == 0 || b == 0 {
    } else {
      assert k > 0;
      var s := b * Pow2(k - 1);
      assert Shl(b, k) == 2 * s;
      assert (2 * s) / 2 == s && (2 * s) % 2 == 0;
      OrDisjoint(a / 2, b, k - 1);
    }
  }
}
