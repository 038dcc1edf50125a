/** programs/factorial.c: a factorial from repeated addition, for a core
    without the multiply extension.  `int` is 32 bits; the core's adder wraps
    around, which is what the model does where C leaves signed overflow
    undefined. */
module Factorial {
  import opened Bits

  const I32_HALF: int := 0x8000_0000
  const I32_MODULUS: int := 0x1_0000_0000

  /** A 32-bit signed `int`. */
  type i32 = x: int | -0x8000_0000 <= x < 0x8000_0000

  /** `x` wrapped into 32-bit two's complement: the one `i32` that differs
      from `x` by a multiple of 2^32. */
  function Wrap32(x: int): (r: i32)
  {
    var q, m := (x + I32_HALF) / I32_MODULUS, (x + I32_HALF) % I32_MODULUS;
    DivUnique(x + I32_HALF, I32_MODULUS, q, m);
    m - I32_HALF
  }

  /** `y + k * 2^32`, when it is an `i32`, is the wrapped `y`. */
  lemma WrapUnique(y: int, k: int)
    requires -I32_HALF <= y + k * I32_MODULUS < I32_HALF
    ensures Wrap32(y) == y + k * I32_MODULUS
  {
    DivUnique(y + I32_HALF, I32_MODULUS, -k, y + k * I32_MODULUS + I32_HALF);
  }

  /** Wrapping subtracts a multiple of 2^32. */
  lemma WrapOffset(x: int) returns (k: int)
    ensures Wrap32(x) == x + k * I32_MODULUS
  {
    k := -((x + I32_HALF) / I32_MODULUS);
  }

  /** An `i32` is its own wrap. */
  lemma WrapSmall(x: i32)
    ensures Wrap32(x) == x
  {
    WrapUnique(x, 0);
  }

  /** Wrapping a summand first does not change the wrapped sum. */
  lemma WrapAdd(x: int, y: int)
    ensures Wrap32(Wrap32(x) + y) == Wrap32(x + y)
  {
    var k := WrapOffset(x);
    var j := WrapOffset(x + y);
    WrapUnique(Wrap32(x) + y, j - k);
  }

  /** Wrapping a factor first does not change the wrapped product. */
  lemma WrapMul(x: int, c: int)
    ensures Wrap32(Wrap32(x) * c) == Wrap32(x * c)
  {
    var k := WrapOffset(x);
    var j := WrapOffset(x * c);
    assert Wrap32(x) * c == x * c + (k * c) * I32_MODULUS;
    WrapUnique(Wrap32(x) * c, j - k * c);
  }

  // ---------------------------------------------------------------------
  // multiply_add
  // ---------------------------------------------------------------------

  /** `multiply_add`: `a` added `b` times to zero.  No pass is made for
      `b <= 0`; otherwise the result is the product, wrapped to 32 bits. */
  method MultiplyAdd(a: i32, b: i32) returns (result: i32)
    ensures b <= 0 ==> result == 0
    ensures b >= 0 ==> result == Wrap32(a * b)
  {
    result := 0;
    var i: i32 := 0;
    while i < b
      invariant 0 <= i <= (if b > 0 then b else 0)
      invariant result == Wrap32(a * i)
    {
      WrapAdd(a * i, a);
      assert a * (i + 1) == a * i + a;
      result := Wrap32(result + a);
      i := i + 1;
    }
    if b <= 0 {
      WrapSmall(0);
    }
  }

  // ---------------------------------------------------------------------
  // factorial
  // ---------------------------------------------------------------------

  /** n! */
  function Fact(n: nat): (r: nat)
    ensures r >= 1
  {
    if n == 0 then 1 else n * Fact(n - 1)
  }

  /** The product `(lo + 1) * ... * hi`, empty when `lo >= hi`. */
  function Prod(lo: int, hi: int): (r: int)
    decreases hi - lo
  {
    if lo >= hi then 1 else (lo + 1) * Prod(lo + 1, hi)
  }

  /** lo! times the product from `lo + 1` to `n` is n!. */
  lemma {:induction false} ProdIsFact(lo: nat, n: nat)
    requires lo <= n
    ensures Prod(lo, n) * Fact(lo) == Fact(n)
    decreases n - lo
  {
    if lo < n {
      ProdIsFact(lo + 1, n);
      var p, f, c := Prod(lo + 1, n), Fact(lo), lo + 1;
      assert Fact(c) == c * f;
      assert Prod(lo, n) == c * p;
      MulRegroup(c, p, f);
    }
  }

  lemma MulRegroup(c: int, p: int, f: int)
    ensures (c * p) * f == p * (c * f)
  {
  }

  /** One pass of `factorial`'s loop keeps the result the wrapped product
      from `current` to `n`. */
  lemma FactorialStep(current: int, n: int, result: i32)
    requires 1 < current <= n && result == Wrap32(Prod(current, n))
    ensures Wrap32(result * current) == Wrap32(Prod(current - 1, n))
  {
    var p := Prod(current, n);
    WrapMul(p, current);
    assert Prod(current - 1, n) == current * p;
    assert p * current == current * p;
  }

  /** `factorial`: multiply 1 by `n`, `n - 1`, ..., 2.  For `n <= 1` the
      loop does not run and the result is 1; otherwise it is n!, wrapped to
      32 bits. */
  method Factorial(n: i32) returns (result: i32)
    ensures n <= 1 ==> result == 1
    ensures n >= 1 ==> result == Wrap32(Fact(n))
  {
    result := 1;
    var current := n;
    WrapSmall(1);
    while current > 1
      invariant n <= 1 ==> current == n && result == 1
      invariant n > 1 ==> 1 <= current <= n && result == Wrap32(Prod(current, n))
      decreases current
    {
      FactorialStep(current, n, result);
      result := MultiplyAdd(result, current);
      current := current - 1;
    }
    if n >= 1 {
      ProdIsFact(1, n);
    }
  }

  /** n! grows with n. */
  lemma {:induction false} FactMonotone(m: nat, n: nat)
    requires m <= n
    ensures Fact(m) <= Fact(n)
    decreases n - m
  {
    if m < n {
      FactMonotone(m, n - 1);
    }
  }

  /** Up to 12, n! fits in an `int` and `factorial` computes it exactly. */
  lemma FactorialExact(n: nat)
    requires n <= 12
    ensures Wrap32(Fact(n)) == Fact(n)
  {
    FactMonotone(n, 12);
    assert Fact(12) == 479001600;
    WrapUnique(Fact(n), 0);
  }

  /** 13! does not fit in an `int`: `factorial(13)` gives 13! - 2^32. */
  lemma FactorialThirteenWraps()
    ensures Fact(13) == 6227020800
    ensures Wrap32(Fact(13)) == 1932053504
  {
    assert Fact(13) == 6227020800;
    WrapUnique(Fact(13), -1);
  }

  // ---------------------------------------------------------------------
  // _start
  // ---------------------------------------------------------------------

  /** `_start`: the value left in `a0`, factorial(5) = 120, before the
      endless `nop` loop. */
  method Start() returns (a0: i32)
    ensures a0 == 120
  {
    a0 := Factorial(5);
    FactorialExact(5);
    assert Fact(5) == 120;
  }
}
