/** Arithmetic on Python's unbounded non-negative integers: the shifts and the
    exclusive or that the checksum applies without ever masking its operands. */
module Bits {

  /** An octet, as iterating over a Python `bytes` value yields it. */
  type byte = x: int | 0 <= x < 0x100

  /** 2 to the power n. */
  function Pow2(n: nat): (r: nat)
    ensures r >= 1
  {
    if n == 0 then 1 else 2 * Pow2(n - 1)
  }

  lemma Pow2Values()
    ensures Pow2(8) == 0x100 && Pow2(12) == 0x1000 && Pow2(13) == 0x2000
    ensures Pow2(15) == 0x8000 && Pow2(16) == 0x1_0000 && Pow2(20) == 0x10_0000
  {
  }

  lemma {:induction false} Pow2Monotone(m: nat, n: nat)
    requires m <= n
    ensures Pow2(m) <= Pow2(n)
  {
    if m < n { Pow2Monotone(m, n - 1); }
  }

  /** `x >> n` for a non-negative Python int. */
  function Shr(x: nat, n: nat): nat
  {
    if n == 0 then x else Shr(x / 2, n - 1)
  }

  /** `x >> n` is zero exactly when x has no bit at position n or above. */
  lemma {:induction false} ShrZero(x: nat, n: nat)
    ensures Shr(x, n) == 0 <==> x < Pow2(n)
  {
    if n > 0 { ShrZero(x / 2, n - 1); }
  }

  /** `a ^ b` for non-negative Python ints: bitwise exclusive or with no width. */
  function Xor(a: nat, b: nat): nat
    decreases a + b
  {
    if a == 0 then b
    else if b == 0 then a
    else 2 * Xor(a / 2, b / 2) + (a + b) % 2
  }

  lemma {:induction false} XorCommutes(a: nat, b: nat)
    ensures Xor(a, b) == Xor(b, a)
    decreases a + b
  {
    if a != 0 && b != 0 { XorCommutes(a / 2, b / 2); }
  }

  /** Exclusive or acts on each bit separately: dropping the lowest bit of
      the result is the same as dropping it from both operands. */
  lemma XorHalves(a: nat, b: nat)
    ensures Xor(a, b) / 2 == Xor(a / 2, b / 2)
  {
  }

  lemma {:induction false} XorShr(a: nat, b: nat, n: nat)
    ensures Shr(Xor(a, b), n) == Xor(Shr(a, n), Shr(b, n))
  {
    if n > 0 {
      XorHalves(a, b);
      XorShr(a / 2, b / 2, n - 1);
    }
  }

  /** An operand below 2^n leaves every bit of the other operand at
      position n or above untouched. */
  lemma XorKeepsHighBits(a: nat, b: nat, n: nat)
    requires a < Pow2(n)
    ensures Shr(Xor(a, b), n) == Shr(b, n)
  {
    ShrZero(a, n);
    XorShr(a, b, n);
  }

  /** With one operand below 2^n, the exclusive or is below 2^n exactly when
      the other operand is. */
  lemma XorBelow(a: nat, b: nat, n: nat)
    requires a < Pow2(n)
    ensures Xor(a, b) < Pow2(n) <==> b < Pow2(n)
  {
    XorKeepsHighBits(a, b, n);
    ShrZero(Xor(a, b), n);
    ShrZero(b, n);
  }

  /** `x << n` for a non-negative Python int. */
  function Shl(x: nat, n: nat): nat
  {
    if n == 0 then x else 2 * Shl(x, n - 1)
  }

  lemma ShlByte(x: nat)
    ensures Shl(x, 8) == x * 0x100
  {
    assert Shl(x, 1) == 2 * x;
    assert Shl(x, 3) == 8 * x;
    assert Shl(x, 5) == 32 * x;
    assert Shl(x, 7) == 128 * x;
  }

  /** One unfolding of `Xor` with an even left operand. */
  lemma XorEven(s: nat, b: nat)
    requires s != 0 && b != 0
    ensures Xor(2 * s, b) == 2 * Xor(s, b / 2) + b % 2
  {
    assert (2 * s) / 2 == s && (2 * s + b) % 2 == b % 2;
  }

  /** Exclusive or of operands whose bits do not overlap is their sum. */
  lemma {:induction false} XorDisjointIsSum(x: nat, b: nat, n: nat)
    requires b < Pow2(n)
    ensures Xor(Shl(x, n), b) == Shl(x, n) + b
  {
    if n > 0 {
      var s := Shl(x, n - 1);
      XorDisjointIsSum(x, b / 2, n - 1);
      if s != 0 && b != 0 {
        XorEven(s, b);
      }
    }
  }
}
