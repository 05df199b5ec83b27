/** The branch-free primitives of constant_time_impl.h and the memory routines of
    constant_time.twl.c, on 32-bit unsigned words with the C operators spelled out bit by bit.
    A condition is a word, all ones for true and zero for false. */
module ConstantTime {
  import opened LittleEndian

  const BITS: nat := 32 // MBEDTLS_CT_SIZE

  function Pow2(n: nat): (p: nat) ensures p >= 1 { if n == 0 then 1 else 2 * Pow2(n - 1) }

  function Bit(b: bool): nat { if b then 1 else 0 }

  datatype Op = And | Or | Xor

  function Apply(op: Op, a: bool, b: bool): bool {
    match op case And => a && b case Or => a || b case Xor => a != b
  }

  /** The low `n` bits of x op y. */
  function Bitwise(op: Op, x: nat, y: nat, n: nat): nat
    decreases n
  {
    if n == 0 then 0 else Bit(Apply(op, x % 2 == 1, y % 2 == 1)) + 2 * Bitwise(op, x / 2, y / 2, n - 1)
  }

  lemma {:induction false} Bounded(op: Op, x: nat, y: nat, n: nat)
    ensures Bitwise(op, x, y, n) < Pow2(n)
    decreases n
  {
    if n > 0 { Bounded(op, x / 2, y / 2, n - 1); }
  }

  /** The top bit of x op y is op of the top bits. */
  lemma {:induction false} TopBit(op: Op, x: nat, y: nat, n: nat)
    requires x < Pow2(n + 1) && y < Pow2(n + 1)
    ensures Bitwise(op, x, y, n + 1) >= Pow2(n) <==> Apply(op, x >= Pow2(n), y >= Pow2(n))
    decreases n
  {
    if n > 0 {
      TopBit(op, x / 2, y / 2, n - 1);
      Bounded(op, x / 2, y / 2, n);
    }
  }

  lemma {:induction false} AndOnes(x: nat, n: nat)
    requires x < Pow2(n)
    ensures Bitwise(And, Pow2(n) - 1, x, n) == x
    decreases n
  {
    if n > 0 {
      assert (Pow2(n) - 1) / 2 == Pow2(n - 1) - 1 && (Pow2(n) - 1) % 2 == 1;
      AndOnes(x / 2, n - 1);
    }
  }

  lemma {:induction false} AndZero(x: nat, n: nat)
    ensures Bitwise(And, 0, x, n) == 0
    decreases n
  {
    if n > 0 { AndZero(x / 2, n - 1); }
  }

  lemma {:induction false} OrZero(x: nat, n: nat)
    requires x < Pow2(n)
    ensures Bitwise(Or, 0, x, n) == x && Bitwise(Or, x, 0, n) == x
    decreases n
  {
    if n > 0 { OrZero(x / 2, n - 1); }
  }

  /** Masking keeps the low bits. */
  lemma {:induction false} AndLow(x: nat, k: nat, n: nat)
    requires k <= n
    ensures Bitwise(And, x, Pow2(k) - 1, n) == x % Pow2(k)
    decreases n
  {
    if k == 0 {
      AndZero(x, n);
      AndCommutes(0, x, n);
    } else {
      assert (Pow2(k) - 1) / 2 == Pow2(k - 1) - 1 && (Pow2(k) - 1) % 2 == 1;
      AndLow(x / 2, k - 1, n - 1);
      ModHalf(x, Pow2(k - 1));
    }
  }

  lemma {:induction false} AndCommutes(x: nat, y: nat, n: nat)
    ensures Bitwise(And, x, y, n) == Bitwise(And, y, x, n)
    decreases n
  {
    if n > 0 { AndCommutes(x / 2, y / 2, n - 1); }
  }

  lemma ModHalf(x: nat, p: nat)
    requires p > 0
    ensures x % (2 * p) == x % 2 + 2 * ((x / 2) % p)
  {
    var q, r := (x / 2) / p, (x / 2) % p;
    assert x / 2 == p * q + r;
    assert x == (2 * p) * q + (x % 2 + 2 * r);
    ModIs(x, 2 * p, q, x % 2 + 2 * r);
  }

  lemma ModIs(x: nat, m: nat, q: nat, r: nat)
    requires m > 0 && x == m * q + r && r < m
    ensures x % m == r
  {
    var d := q - x / m;
    assert m * d == x % m - r;
  }

  /** Or of two words below 2^k is below 2^k. */
  lemma {:induction false} OrSmall(x: nat, y: nat, k: nat, n: nat)
    requires k <= n && x < Pow2(k) && y < Pow2(k)
    ensures Bitwise(Or, x, y, n) < Pow2(k)
    decreases n
  {
    if n > 0 {
      if k == 0 {
        OrSmall(x / 2, y / 2, 0, n - 1);
      } else {
        OrSmall(x / 2, y / 2, k - 1, n - 1);
      }
    }
  }

  lemma {:induction false} OrOnes(x: nat, n: nat)
    ensures Bitwise(Or, Pow2(n) - 1, x, n) == Pow2(n) - 1 && Bitwise(Or, x, Pow2(n) - 1, n) == Pow2(n) - 1
    decreases n
  {
    if n > 0 {
      assert (Pow2(n) - 1) / 2 == Pow2(n - 1) - 1 && (Pow2(n) - 1) % 2 == 1;
      OrOnes(x / 2, n - 1);
    }
  }

  lemma {:induction false} OrIsZero(x: nat, y: nat, n: nat)
    requires x < Pow2(n) && y < Pow2(n)
    ensures Bitwise(Or, x, y, n) == 0 <==> x == 0 && y == 0
    decreases n
  {
    if n > 0 { OrIsZero(x / 2, y / 2, n - 1); }
  }

  lemma {:induction false} XorIsZero(x: nat, y: nat, n: nat)
    requires x < Pow2(n) && y < Pow2(n)
    ensures Bitwise(Xor, x, y, n) == 0 <==> x == y
    decreases n
  {
    if n > 0 { XorIsZero(x / 2, y / 2, n - 1); }
  }

  // ---------------------------------------------------------------- 32-bit words

  const HALF := 0x8000_0000
  type uint32 = x: int | 0 <= x < WORD

  lemma WordIsPow()
    ensures Pow2(BITS) == WORD && BITS > 0 && Pow2(BITS - 1) == HALF
  {
    assert Pow2(8) == 256;
    PowAdd(8, 8);
    PowAdd(16, 15);
    PowAdd(8, 7);
    assert Pow2(7) == 128;
  }

  lemma {:induction false} PowAdd(m: nat, n: nat)
    ensures Pow2(m + n) == Pow2(m) * Pow2(n)
  {
    if m > 0 { PowAdd(m - 1, n); }
  }

  function Bits(op: Op, x: uint32, y: uint32): uint32 { WordIsPow(); Bounded(op, x, y, BITS); Bitwise(op, x, y, BITS) }
  function Not(x: uint32): uint32 { WORD - 1 - x }
  function Sub(x: uint32, y: uint32): uint32 { if x >= y then x - y else x - y + WORD } // wraps
  function TopOf(x: uint32): uint32 { if x >= HALF then 1 else 0 } // x >> 31

  const TRUE: uint32 := WORD - 1
  const FALSE: uint32 := 0

  function Mask(b: bool): uint32 { if b then TRUE else FALSE }

  /** mbedtls_ct_bool: all ones exactly for a non-zero word. */
  function Bool(x: uint32): (c: uint32)
    ensures c == Mask(x != 0)
  {
    var y := Bits(Or, Sub(0, x), Sub(0, x / 2));
    WordIsPow();
    TopBit(Or, Sub(0, x), Sub(0, x / 2), BITS - 1);
    Sub(0, TopOf(y))
  }

  /** mbedtls_ct_if: a mask selects one of two words. */
  function If(condition: uint32, if1: uint32, if0: uint32): (r: uint32)
    ensures condition == TRUE ==> r == if1
    ensures condition == FALSE ==> r == if0
  {
    WordIsPow();
    AndOnes(if1, BITS);
    AndOnes(if0, BITS);
    AndZero(if1, BITS);
    AndZero(if0, BITS);
    OrZero(if1, BITS);
    OrZero(if0, BITS);
    Bits(Or, Bits(And, condition, if1), Bits(And, Not(condition), if0))
  }

  /** mbedtls_ct_uint_lt: the top bits decide if they differ, else the borrow of x - y does. */
  function Lt(x: uint32, y: uint32): (c: uint32)
    ensures c == Mask(x < y)
  {
    WordIsPow();
    TopBit(Xor, x, y, BITS - 1);
    var cond := Bool(TopOf(Bits(Xor, x, y)));
    var ret := If(cond, y, Sub(x, y));
    Bool(TopOf(ret))
  }

  /** mbedtls_ct_uint_ne */
  function Ne(x: uint32, y: uint32): (c: uint32)
    ensures c == Mask(x != y)
  {
    WordIsPow();
    XorIsZero(x, y, BITS);
    Bool(Bits(Xor, x, y))
  }

  function Eq(x: uint32, y: uint32): (c: uint32) ensures c == Mask(x == y) { Not(Ne(x, y)) }
  function Gt(x: uint32, y: uint32): (c: uint32) ensures c == Mask(x > y) { Lt(y, x) }
  function Ge(x: uint32, y: uint32): (c: uint32) ensures c == Mask(x >= y) { Not(Lt(x, y)) }

  /** mbedtls_ct_bool_and; also mbedtls_ct_uint_if_else_0 with a word on the right. */
  function BoolAnd(x: uint32, y: uint32): (c: uint32)
    ensures x == TRUE ==> c == y
    ensures x == FALSE ==> c == 0
  {
    WordIsPow();
    AndOnes(y, BITS);
    AndZero(y, BITS);
    Bits(And, x, y)
  }

  /** mbedtls_ct_bool_or */
  function BoolOr(x: uint32, y: uint32): (c: uint32)
    ensures x == TRUE ==> c == TRUE
    ensures x == FALSE ==> c == y
    ensures c == 0 <==> x == 0 && y == 0
  {
    WordIsPow();
    OrOnes(y, BITS);
    OrZero(y, BITS);
    OrIsZero(x, y, BITS);
    Bits(Or, x, y)
  }

  /** mbedtls_ct_bool_ne */
  function BoolNe(x: uint32, y: uint32): (c: uint32)
    requires x in {TRUE, FALSE} && y in {TRUE, FALSE}
    ensures c == Mask(x != y)
  {
    WordIsPow();
    XorMasks(BITS);
    Bits(Xor, x, y)
  }

  lemma {:induction false} XorMasks(n: nat)
    ensures Bitwise(Xor, 0, 0, n) == 0 && Bitwise(Xor, Pow2(n) - 1, Pow2(n) - 1, n) == 0
    ensures Bitwise(Xor, 0, Pow2(n) - 1, n) == Pow2(n) - 1 && Bitwise(Xor, Pow2(n) - 1, 0, n) == Pow2(n) - 1
    decreases n
  {
    if n > 0 {
      assert (Pow2(n) - 1) / 2 == Pow2(n - 1) - 1 && (Pow2(n) - 1) % 2 == 1;
      XorMasks(n - 1);
    }
  }
}
