/** Machine words as natural numbers, with the C operators `&`, `|` and `>>`
    defined bit by bit, and the arithmetic meaning of the masks the kernel uses. */
module Bits {

  const TWO_32: nat := 0x1_0000_0000
  const TWO_64: nat := 0x1_0000_0000_0000_0000

  type Byte = b: nat | b < 0x100
  type Word32 = w: nat | w < TWO_32
  type Word = w: nat | w < TWO_64

  function Pow2(n: nat): (r: nat)
    ensures r > 0
  {
    if n == 0 then 1 else 2 * Pow2(n - 1)
  }

  /** `x & y` */
  function And(x: nat, y: nat): (r: nat)
    ensures r <= x && r <= y
  {
    if x == 0 || y == 0 then 0
    else 2 * And(x / 2, y / 2) + if x % 2 == 1 && y % 2 == 1 then 1 else 0
  }

  /** `x | y` */
  function Or(x: nat, y: nat): (r: nat)
    ensures x <= r <= x + y && y <= r
    decreases x + y
  {
    if x == 0 then y
    else if y == 0 then x
    else 2 * Or(x / 2, y / 2) + if x % 2 == 1 || y % 2 == 1 then 1 else 0
  }

  /** `x >> n` */
  function Shr(x: nat, n: nat): nat {
    if n == 0 then x else Shr(x / 2, n - 1)
  }

  lemma Pow2Values()
    ensures Pow2(8) == 0x100 && Pow2(9) == 0x200 && Pow2(11) == 0x800 && Pow2(12) == 0x1000 && Pow2(16) == 0x1_0000
    ensures Pow2(21) == 0x20_0000 && Pow2(30) == 0x4000_0000 && Pow2(32) == TWO_32
    ensures Pow2(39) == 0x80_0000_0000 && Pow2(40) == 0x100_0000_0000 && Pow2(52) == 0x10_0000_0000_0000
  {
    assert Pow2(12) == 0x1000;
    assert Pow2(21) == 0x20_0000;
    assert Pow2(30) == 0x4000_0000;
    assert Pow2(40) == 0x100_0000_0000;
    assert Pow2(52) == 0x10_0000_0000_0000;
  }

  lemma MulAtLeast(m: nat, d: int)
    requires d != 0
    ensures m * d >= m || m * d + m <= 0
  {
  }

  lemma DivModUnique(x: nat, m: nat, q: nat, r: nat)
    requires r < m && x == m * q + r
    ensures x / m == q && x % m == r
  {
    var d := x / m - q;
    assert m * d == r - x % m by {
      assert m * (x / m) + x % m == m * q + r;
      assert m * d == m * (x / m) - m * q;
    }
    assert d == 0 by {
      if d != 0 { MulAtLeast(m, d); assert false; }
    }
  }

  /** Division by a product, one factor of two at a time. */
  lemma HalveDivMod(x: nat, m: nat)
    requires m > 0
    ensures x / (2 * m) == (x / 2) / m
    ensures x % (2 * m) == 2 * ((x / 2) % m) + x % 2
  {
    var q, r := (x / 2) / m, (x / 2) % m;
    var rest := 2 * r + x % 2;
    assert x == (2 * m) * q + rest by {
      assert x / 2 == m * q + r;
      assert (2 * m) * q == 2 * (m * q);
    }
    DivModUnique(x, 2 * m, q, rest);
  }

  lemma ModMultiple(x: int, q: int, m: nat)
    requires m > 0
    ensures (x + m * q) % m == x % m
  {
    var d := (x + m * q) / m - x / m - q;
    assert m * d == x % m - (x + m * q) % m by {
      assert m * ((x + m * q) / m) + (x + m * q) % m == x + m * q;
      assert m * (x / m) + x % m == x;
    }
    assert d == 0 by {
      if d != 0 {
        MulAtLeast(m, d);
        assert false;
      }
    }
  }

  lemma {:induction false} ShrDivides(x: nat, n: nat)
    ensures Shr(x, n) == x / Pow2(n)
  {
    if n == 0 {
      assert x / 1 == x;
    } else {
      ShrDivides(x / 2, n - 1);
      HalveDivMod(x, Pow2(n - 1));
    }
  }

  /** One unfolding of `&` on a nonzero mask. */
  lemma AndStep(x: nat, half: nat, low: nat)
    requires low < 2
    ensures And(x, 2 * half + low) == 2 * And(x / 2, half) + if x % 2 == 1 && low == 1 then 1 else 0
  {
    assert (2 * half + low) / 2 == half && (2 * half + low) % 2 == low;
  }

  lemma AndZero(x: nat)
    ensures And(x, 0) == 0
  {
  }

  lemma LowMaskStep(x: nat, half: nat)
    requires And(x / 2, half) == (x / 2) % (half + 1)
    ensures And(x, 2 * half + 1) == x % (2 * (half + 1))
  {
    AndStep(x, half, 1);
    hide And;
    HalveDivMod(x, half + 1);
  }

  /** Masking with k one-bits keeps the remainder modulo 2^k. */
  lemma {:induction false} AndLowMask(x: nat, k: nat)
    ensures And(x, Pow2(k) - 1) == x % Pow2(k)
  {
    hide And;
    if k == 0 {
      AndZero(x);
    } else {
      AndLowMask(x / 2, k - 1);
      LowMaskStep(x, Pow2(k - 1) - 1);
      assert Pow2(k) == 2 * Pow2(k - 1);
    }
  }

  /** The mask of m one-bits shifted left by k. */
  function FieldMask(m: nat, k: nat): nat {
    if k == 0 then Pow2(m) - 1 else 2 * FieldMask(m, k - 1)
  }

  lemma DoubleProduct(x: nat, y: nat)
    ensures x * (2 * y) == 2 * (x * y)
  {
  }

  /** Masking with m one-bits shifted left by k cuts out a field and leaves it in place. */
  lemma {:induction false} AndFieldMask(x: nat, m: nat, k: nat)
    ensures And(x, FieldMask(m, k)) == (x / Pow2(k)) % Pow2(m) * Pow2(k)
  {
    hide And;
    if k == 0 {
      AndLowMask(x, m);
      assert Pow2(0) == 1 && x / 1 == x;
    } else {
      var p := Pow2(k - 1);
      AndFieldMask(x / 2, m, k - 1);
      AndStep(x, FieldMask(m, k - 1), 0);
      HalveDivMod(x, p);
      DoubleProduct((x / 2 / p) % Pow2(m), p);
    }
  }

  /** Or-ing disjoint fields is adding them. */
  lemma {:induction false} OrDisjoint(x: nat, y: nat, k: nat)
    requires x % Pow2(k) == 0 && y < Pow2(k)
    ensures Or(x, y) == x + y
  {
    if k > 0 && x > 0 && y > 0 {
      HalveDivMod(x, Pow2(k - 1));
      OrDisjoint(x / 2, y / 2, k - 1);
    }
  }

  lemma {:induction false} OrSymmetric(x: nat, y: nat)
    ensures Or(x, y) == Or(y, x)
    decreases x + y
  {
    if x > 0 && y > 0 {
      OrSymmetric(x / 2, y / 2);
    }
  }

  /** One unfolding of `|`. */
  lemma OrStep(x: nat, y: nat)
    ensures Or(x, y) / 2 == Or(x / 2, y / 2)
    ensures Or(x, y) % 2 == if x % 2 == 1 || y % 2 == 1 then 1 else 0
  {
  }

  /** `|` works on the high bits alone. */
  lemma {:induction false} OrHigh(x: nat, y: nat, k: nat)
    ensures Shr(Or(x, y), k) == Or(Shr(x, k), Shr(y, k))
  {
    hide Or;
    if k > 0 {
      OrStep(x, y);
      OrHigh(x / 2, y / 2, k - 1);
    }
  }

  lemma HalfOfRest(z: nat, h: nat)
    requires h > 0
    ensures z % (2 * h) / 2 == (z / 2) % h && z % (2 * h) % 2 == z % 2
  {
    HalveDivMod(z, h);
  }

  lemma OrLowStep(x: nat, y: nat, h: nat)
    requires h > 0 && Or(x / 2, y / 2) % h == Or((x / 2) % h, (y / 2) % h)
    ensures Or(x, y) % (2 * h) == Or(x % (2 * h), y % (2 * h))
  {
    hide Or;
    OrStep(x, y);
    HalfOfRest(x, h);
    HalfOfRest(y, h);
    HalfOfRest(Or(x, y), h);
    OrStep(x % (2 * h), y % (2 * h));
  }

  lemma OrZero()
    ensures Or(0, 0) == 0
  {
  }

  /** `|` works on the low bits alone. */
  lemma {:induction false} OrLow(x: nat, y: nat, k: nat)
    ensures Or(x, y) % Pow2(k) == Or(x % Pow2(k), y % Pow2(k))
  {
    hide Or;
    if k == 0 {
      OrZero();
      assert x % 1 == 0 && y % 1 == 0;
    } else {
      OrLow(x / 2, y / 2, k - 1);
      OrLowStep(x, y, Pow2(k - 1));
    }
  }

  /** Setting bit 0. */
  lemma OrOne(x: nat)
    ensures Or(x, 1) == x + 1 - x % 2
  {
    if x > 0 {
      assert Or(x / 2, 0) == x / 2;
    }
  }

  /** Testing bit 0. */
  lemma AndOne(x: nat)
    ensures And(x, 1) == x % 2
  {
    if x > 0 {
      assert And(x / 2, 0) == 0;
    }
  }

  /** Clearing bit 0 of a value of at most n + 1 bits. */
  lemma AndAllButLowest(x: nat, n: nat)
    requires x < 2 * Pow2(n)
    ensures And(x, FieldMask(n, 1)) == x - x % 2
  {
    hide And;
    assert Pow2(1) == 2;
    AndFieldMask(x, n, 1);
    DivModUnique(x / 2, Pow2(n), 0, x / 2);
  }
}
