/** Bit-level operators on unsigned integers, modelled on mathematical
    naturals.  The firmware works on `uint32_t` and the host tools on
    non-negative Python integers; both agree with these definitions as long as
    the operands are non-negative, which is the only way either side uses them.

    - `Xor(a, b)` is `a ^ b`;
    - a right shift `a >> k` is `a / Pow2(k)`;
    - a mask `a & (Pow2(k) - 1)` is `a % Pow2(k)`. */
module Bits {

  /** 2 to the power `k`. */
  function Pow2(k: nat): (r: nat)
    ensures r >= 1
  {
    if k == 0 then 1 else 2 * Pow2(k - 1)
  }

  lemma {:induction false} Pow2Add(a: nat, b: nat)
    ensures Pow2(a + b) == Pow2(a) * Pow2(b)
  {
    if a > 0 {
      Pow2Add(a - 1, b);
      assert Pow2(a + b) == 2 * Pow2(a - 1 + b);
    }
  }

  /** The powers of two that name byte, nibble and word boundaries. */
  lemma Pow2Values()
    ensures Pow2(1) == 2 && Pow2(4) == 0x10 && Pow2(8) == 0x100
    ensures Pow2(16) == 0x1_0000 && Pow2(32) == 0x1_0000_0000
  {
    assert Pow2(2) == 4;
    Pow2Add(2, 2);
    Pow2Add(4, 4);
    Pow2Add(8, 8);
    Pow2Add(16, 16);
  }

  /** Bitwise exclusive or, defined one bit at a time from the least
      significant end. */
  function Xor(a: nat, b: nat): nat
    decreases a + b
  {
    if a == 0 then b
    else if b == 0 then a
    else 2 * Xor(a / 2, b / 2) + (if a % 2 == b % 2 then 0 else 1)
  }

  /** The low bit of `a ^ b` is the exclusive or of the low bits. */
  function Parity(a: nat, b: nat): nat
  {
    if a % 2 == b % 2 then 0 else 1
  }

  /** Every exclusive or splits into its low bit and the exclusive or of the
      halves, including the cases the definition short-cuts. */
  lemma XorUnfold(a: nat, b: nat)
    ensures Xor(a, b) == 2 * Xor(a / 2, b / 2) + Parity(a, b)
    ensures Xor(a, b) % 2 == Parity(a, b)
    ensures Xor(a, b) / 2 == Xor(a / 2, b / 2)
  {
    if a == 0 {
      assert Xor(a / 2, b / 2) == b / 2;
    } else if b == 0 {
      assert Xor(a / 2, b / 2) == a / 2 by { XorZeroRight(a / 2); }
    }
    DivUnique(Xor(a, b), 2, Xor(a / 2, b / 2), Parity(a, b));
  }

  lemma XorZeroRight(a: nat)
    ensures Xor(a, 0) == a
  {
  }

  lemma {:induction false} XorComm(a: nat, b: nat)
    ensures Xor(a, b) == Xor(b, a)
    decreases a + b
  {
    if a != 0 && b != 0 {
      XorComm(a / 2, b / 2);
    }
  }

  lemma {:induction false} XorAssoc(a: nat, b: nat, c: nat)
    ensures Xor(Xor(a, b), c) == Xor(a, Xor(b, c))
    decreases a + b + c
  {
    if a == 0 || b == 0 || c == 0 {
      XorZeroRight(a);
      XorZeroRight(b);
      XorZeroRight(Xor(a, b));
      XorZeroRight(Xor(b, c));
    } else {
      XorUnfold(a, b);
      XorUnfold(b, c);
      XorUnfold(Xor(a, b), c);
      XorUnfold(a, Xor(b, c));
      XorAssoc(a / 2, b / 2, c / 2);
    }
  }

  lemma {:induction false} XorSelf(a: nat)
    ensures Xor(a, a) == 0
    decreases a
  {
    if a != 0 {
      XorSelf(a / 2);
    }
  }

  /** `(x ^ p) ^ (y ^ p) == x ^ y`: a common term cancels. */
  lemma XorCancel(x: nat, y: nat, p: nat)
    ensures Xor(Xor(x, p), Xor(y, p)) == Xor(x, y)
  {
    XorAssoc(x, p, Xor(y, p));
    XorComm(y, p);
    XorAssoc(p, p, y);
    XorSelf(p);
    XorComm(x, y);
  }

  /** `(x ^ p) ^ y == (x ^ y) ^ p`. */
  lemma XorSwap(x: nat, y: nat, p: nat)
    ensures Xor(Xor(x, p), y) == Xor(Xor(x, y), p)
  {
    XorAssoc(x, p, y);
    XorComm(p, y);
    XorAssoc(x, y, p);
  }

  /** Euclidean division is unique. */
  lemma DivUnique(x: int, d: int, q: int, r: int)
    requires d > 0 && 0 <= r < d && x == d * q + r
    ensures x / d == q && x % d == r
  {
    var q', r' := x / d, x % d;
    assert d * (q - q') == r' - r;
    MulSmall(d, q - q');
  }

  /** A multiple of `d` strictly between `-d` and `d` is zero. */
  lemma MulSmall(d: int, e: int)
    requires d > 0 && -d < d * e < d
    ensures e == 0
  {
    if e >= 1 {
      MulAtLeast(d, e);
      assert false;
    } else if e <= -1 {
      MulAtLeast(d, -e);
      assert false;
    }
  }

  lemma MulAtLeast(d: int, n: int)
    requires d > 0 && n >= 1
    ensures d * n >= d
  {
    assert d * n == d * (n - 1) + d;
  }

  /** A value below the divisor is its own remainder and has quotient 0. */
  lemma SmallDivMod(x: int, d: int)
    requires d > 0 && 0 <= x < d
    ensures x / d == 0 && x % d == x
  {
    DivUnique(x, d, 0, x);
  }

  /** Dividing by `a * m` is dividing by `a` and then by `m`. */
  lemma DivModNested(x: nat, a: nat, m: nat)
    requires a > 0 && m > 0
    ensures x / (a * m) == (x / a) / m
    ensures x % (a * m) == a * ((x / a) % m) + x % a
  {
    DivNat(x, a);
    var q, r := (x / a) / m, (x / a) % m;
    assert x / a == m * q + r;
    assert x == a * (x / a) + x % a;
    assert a * (m * q + r) == (a * m) * q + a * r;
    MulStrict(a, r, m);
    DivUnique(x, a * m, q, a * r + x % a);
  }

  /** `a * r + s < a * m` when `r < m` and `s < a`. */
  lemma MulStrict(a: nat, r: nat, m: nat)
    requires a > 0 && r < m
    ensures a * r + a <= a * m
  {
    assert a * m - a * r == a * (m - r);
    MulAtLeast(a, m - r);
  }

  /** Dividing by `2 * m` is halving and then dividing by `m`. */
  lemma DivModTwice(x: nat, m: nat)
    requires m > 0
    ensures x / (2 * m) == (x / 2) / m
    ensures x % (2 * m) == 2 * ((x / 2) % m) + x % 2
  {
    var q, r := (x / 2) / m, (x / 2) % m;
    assert x / 2 == m * q + r;
    assert x == (2 * m) * q + (2 * r + x % 2);
    DivUnique(x, 2 * m, q, 2 * r + x % 2);
  }

  lemma MulNegative(d: int, n: int)
    requires d > 0 && n <= -1
    ensures d * n <= -d
  {
    MulAtLeast(d, -n);
    assert d * n == -(d * (-n));
  }

  /** Dividing a natural by a positive number gives a natural. */
  lemma DivNat(x: int, d: int)
    requires x >= 0 && d > 0
    ensures 0 <= x / d <= x && 0 <= x % d < d
  {
    var q, r := x / d, x % d;
    assert x == d * q + r && 0 <= r < d;
    if q < 0 {
      MulNegative(d, q);
      assert false;
    } else if q > x {
      MulAtLeast(q, d);
      assert false;
    }
  }

  /** `a >> k`. */
  function Shr(a: nat, k: nat): nat
  {
    DivNat(a, Pow2(k));
    a / Pow2(k)
  }

  /** `a << k` on unbounded integers. */
  function Shl(a: nat, k: nat): nat
  {
    a * Pow2(k)
  }

  /** `(a ^ b) >> k == (a >> k) ^ (b >> k)`. */
  lemma {:induction false} XorShift(a: nat, b: nat, k: nat)
    ensures Shr(Xor(a, b), k) == Xor(Shr(a, k), Shr(b, k))
  {
    if k == 0 {
      assert Pow2(k) == 1;
    } else {
      var p := Pow2(k - 1);
      assert Pow2(k) == 2 * p;
      var a2: nat, b2: nat := a / 2, b / 2;
      calc {
        Shr(Xor(a, b), k);
        { DivModTwice(Xor(a, b), p); }
        (Xor(a, b) / 2) / p;
        { XorUnfold(a, b); }
        Shr(Xor(a2, b2), k - 1);
        { XorShift(a2, b2, k - 1); }
        Xor(Shr(a2, k - 1), Shr(b2, k - 1));
        { DivModTwice(a, p); DivModTwice(b, p); }
        Xor(Shr(a, k), Shr(b, k));
      }
    }
  }

  /** `(a ^ b) & (2^k - 1) == (a & (2^k - 1)) ^ (b & (2^k - 1))`. */
  lemma {:induction false} XorMask(a: nat, b: nat, k: nat)
    ensures Xor(a, b) % Pow2(k) == Xor(a % Pow2(k), b % Pow2(k))
  {
    if k > 0 {
      var p := Pow2(k - 1);
      DivModTwice(Xor(a, b), p);
      DivModTwice(a, p);
      DivModTwice(b, p);
      XorUnfold(a, b);
      XorMask(a / 2, b / 2, k - 1);
      var am, bm := a % Pow2(k), b % Pow2(k);
      assert am / 2 == (a / 2) % p && am % 2 == a % 2;
      assert bm / 2 == (b / 2) % p && bm % 2 == b % 2;
      XorUnfold(am, bm);
    }
  }

  /** A number is its quotient and remainder by `2^k` put back together. */
  lemma Recombine(x: nat, k: nat)
    ensures x == Pow2(k) * (x / Pow2(k)) + x % Pow2(k)
  {
  }

  /** Operands below `2^k` have an exclusive or below `2^k`. */
  lemma XorBound(a: nat, b: nat, k: nat)
    requires a < Pow2(k) && b < Pow2(k)
    ensures Xor(a, b) < Pow2(k)
  {
    XorShift(a, b, k);
    SmallDivMod(a, Pow2(k));
    SmallDivMod(b, Pow2(k));
    assert Shr(Xor(a, b), k) == 0;
    Recombine(Xor(a, b), k);
  }

  /** When `a` lives in the low `k` bits and `b` has none there, exclusive
      or is addition. */
  lemma XorDisjoint(a: nat, b: nat, k: nat)
    requires a < Pow2(k) && b % Pow2(k) == 0
    ensures Xor(a, b) == a + b
  {
    XorShift(a, b, k);
    XorMask(a, b, k);
    XorZeroRight(a);
    SmallDivMod(a, Pow2(k));
    Recombine(Xor(a, b), k);
    Recombine(b, k);
  }

  /** Bitwise inclusive or, defined like `Xor`. */
  function Or(a: nat, b: nat): nat
    decreases a + b
  {
    if a == 0 then b
    else if b == 0 then a
    else 2 * Or(a / 2, b / 2) + (if a % 2 == 1 || b % 2 == 1 then 1 else 0)
  }

  lemma OrUnfold(a: nat, b: nat)
    ensures Or(a, b) == 2 * Or(a / 2, b / 2) + (if a % 2 == 1 || b % 2 == 1 then 1 else 0)
  {
    if a == 0 {
      assert Or(a / 2, b / 2) == b / 2;
    } else if b == 0 {
      assert Or(a / 2, b / 2) == a / 2;
    }
  }

  /** When `a` lives in the low `k` bits and `b` has none there, inclusive or
      is addition: `x | (y << k) == x + (y << k)` for `x < 2^k`. */
  lemma {:induction false} OrDisjoint(a: nat, b: nat, k: nat)
    requires a < Pow2(k) && b % Pow2(k) == 0
    ensures Or(a, b) == a + b
  {
    if k == 0 {
      assert a == 0;
    } else {
      var p := Pow2(k - 1);
      DivModTwice(b, p);
      OrDisjoint(a / 2, b / 2, k - 1);
      OrUnfold(a, b);
    }
  }

  /** An inclusive or is at least each operand. */
  lemma {:induction false} OrAtLeast(a: nat, b: nat)
    ensures Or(a, b) >= a && Or(a, b) >= b
    decreases a + b
  {
    if a != 0 && b != 0 {
      OrAtLeast(a / 2, b / 2);
      OrUnfold(a, b);
    }
  }

  /** Operands below `2^k` have an inclusive or below `2^k`. */
  lemma {:induction false} OrBelow(a: nat, b: nat, k: nat)
    requires a < Pow2(k) && b < Pow2(k)
    ensures Or(a, b) < Pow2(k)
  {
    if k > 0 && a != 0 && b != 0 {
      OrBelow(a / 2, b / 2, k - 1);
      OrUnfold(a, b);
    }
  }

  lemma {:induction false} OrComm(a: nat, b: nat)
    ensures Or(a, b) == Or(b, a)
    decreases a + b
  {
    if a != 0 && b != 0 {
      OrComm(a / 2, b / 2);
    }
  }
}
