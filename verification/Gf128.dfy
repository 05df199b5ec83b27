/** Multiplication by x in GF(2^128), the step from one XTS tweak to the next: the code's two 64-bit
    words against the byte procedure of section 5.2 of IEEE Std 1619, and that against polynomials. */
module Gf128 {
  import opened Bytes

  /** Eight bytes as a word, least significant first. */
  function Le64(b: seq<bv8>): bv64
    requires |b| == 8
  {
    b[0] as bv64 | (b[1] as bv64 << 8) | (b[2] as bv64 << 16) | (b[3] as bv64 << 24)
    | (b[4] as bv64 << 32) | (b[5] as bv64 << 40) | (b[6] as bv64 << 48) | (b[7] as bv64 << 56)
  }

  function Put64(w: bv64): (b: seq<bv8>)
    ensures |b| == 8
  {
    [(w & 0xff) as bv8, ((w >> 8) & 0xff) as bv8, ((w >> 16) & 0xff) as bv8, ((w >> 24) & 0xff) as bv8,
     ((w >> 32) & 0xff) as bv8, ((w >> 40) & 0xff) as bv8, ((w >> 48) & 0xff) as bv8, ((w >> 56) & 0xff) as bv8]
  }

  function Feedback(top: bv8): bv8 { if top >> 7 == 1 then 0x87 else 0 }

  function Doubled(x: bv8, y: bv8): bv8 { (x << 1) | (y >> 7) }

  /** Eight bytes doubled, except for the first. */
  function Row(first: bv8, b: seq<bv8>): (r: seq<bv8>)
    requires |b| == 8
    ensures |r| == 8
  {
    [first, Doubled(b[1], b[0]), Doubled(b[2], b[1]), Doubled(b[3], b[2]),
     Doubled(b[4], b[3]), Doubled(b[5], b[4]), Doubled(b[6], b[5]), Doubled(b[7], b[6])]
  }

  /** Section 5.2 of IEEE Std 1619, byte by byte. */
  function MulX(b: Block): Block {
    Row(Doubled(b[0], 0) ^ Feedback(b[15]), b[..8]) + Row(Doubled(b[8], b[7]), b[8..])
  }

  /** mbedtls_gf128mul_x_ble on the two words. */
  function MulLow(a: bv64, b: bv64): bv64 { (a << 1) ^ (0x87 >> (8 - ((b >> 63) << 3))) }
  function MulHigh(a: bv64, b: bv64): bv64 { (a >> 63) | (b << 1) }

  lemma Reduction(b: bv64)
    ensures 0x87 >> (8 - ((b >> 63) << 3)) == if b >> 63 == 1 then 0x87 else 0 as bv64
  {}

  lemma TopBit(b: seq<bv8>)
    requires |b| == 8
    ensures Le64(b) >> 63 == (b[7] >> 7) as bv64
  {}

  lemma LowHalf(b: seq<bv8>, c: bv8)
    requires |b| == 8
    ensures Put64((Le64(b) << 1) ^ (c as bv64)) == Row(Doubled(b[0], 0) ^ c, b)
  {}

  lemma HighHalf(y: bv8, b: seq<bv8>)
    requires |b| == 8
    ensures Put64(((y >> 7) as bv64) | (Le64(b) << 1)) == Row(Doubled(b[0], y), b)
  {}

  lemma MulLowBytes(x: seq<bv8>, y: seq<bv8>)
    requires |x| == 8 && |y| == 8
    ensures Put64(MulLow(Le64(x), Le64(y))) == Row(Doubled(x[0], 0) ^ Feedback(y[7]), x)
  {
    TopBit(y);
    Reduction(Le64(y));
    LowHalf(x, Feedback(y[7]));
    FeedbackWord(y[7]);
  }

  lemma FeedbackWord(top: bv8)
    ensures (if (top >> 7) as bv64 == 1 then 0x87 else 0 as bv64) == Feedback(top) as bv64
  {}

  lemma MulHighBytes(x: seq<bv8>, y: seq<bv8>)
    requires |x| == 8 && |y| == 8
    ensures Put64(MulHigh(Le64(x), Le64(y))) == Row(Doubled(y[0], x[7]), y)
  {
    TopBit(x);
    HighHalf(x[7], y);
  }

  /** mbedtls_gf128mul_x_ble */
  method Gf128MulX(x: Block) returns (r: Block)
    ensures r == MulX(x)
  {
    var a, b := Le64(x[..8]), Le64(x[8..]);
    MulLowBytes(x[..8], x[8..]);
    MulHighBytes(x[..8], x[8..]);
    var ra, rb := Put64(MulLow(a, b)), Put64(MulHigh(a, b));
    r := ra + rb;
  }

  // The coefficients of a block read as a polynomial

  function BitOf(x: bv8, k: nat): bool
    requires k < 8
  {
    match k
    case 0 => x & 0x01 != 0
    case 1 => x & 0x02 != 0
    case 2 => x & 0x04 != 0
    case 3 => x & 0x08 != 0
    case 4 => x & 0x10 != 0
    case 5 => x & 0x20 != 0
    case 6 => x & 0x40 != 0
    case _ => x & 0x80 != 0
  }

  function Coefficient(b: Block, i: nat): bool
    requires i < 128
  {
    BitOf(b[i / 8], i % 8)
  }

  lemma BitOfDoubled(x: bv8, y: bv8, k: nat)
    requires k < 8
    ensures BitOf(Doubled(x, y), k) == if k == 0 then BitOf(y, 7) else BitOf(x, k - 1)
  {}

  lemma BitOfFirst(x: bv8, top: bv8, k: nat)
    requires k < 8
    ensures BitOf(Doubled(x, 0) ^ Feedback(top), k)
         == ((k > 0 && BitOf(x, k - 1)) != (BitOf(top, 7) && k in {0, 1, 2, 7}))
  {}

  lemma RowByte(first: bv8, b: seq<bv8>, j: nat)
    requires |b| == 8 && j < 8
    ensures Row(first, b)[j] == if j == 0 then first else Doubled(b[j], b[j - 1])
  {}

  lemma MulXByte(b: Block, j: nat)
    requires j < 16
    ensures MulX(b)[j] == if j == 0 then Doubled(b[0], 0) ^ Feedback(b[15]) else Doubled(b[j], b[j - 1])
  {
    if j < 8 {
      RowByte(Doubled(b[0], 0) ^ Feedback(b[15]), b[..8], j);
    } else {
      RowByte(Doubled(b[8], b[7]), b[8..], j - 8);
    }
  }

  lemma CoefficientBefore(b: Block, i: nat, j: nat, k: nat)
    requires i < 128 && j == i / 8 && k == i % 8
    ensures Coefficient(b, 127) == BitOf(b[15], 7)
    ensures i > 0 ==> Coefficient(b, i - 1) == if k > 0 then BitOf(b[j], k - 1) else BitOf(b[j - 1], 7)
  {
    assert k > 0 ==> (i - 1) / 8 == j && (i - 1) % 8 == k - 1;
    assert k == 0 && j > 0 ==> (i - 1) / 8 == j - 1 && (i - 1) % 8 == 7;
  }

  lemma CoefficientOf(b: Block, r: Block, i: nat, j: nat, k: nat)
    requires i < 128 && j == i / 8 && k == i % 8
    requires r[j] == if j == 0 then Doubled(b[0], 0) ^ Feedback(b[15]) else Doubled(b[j], b[j - 1])
    ensures Coefficient(r, i) == ((i > 0 && Coefficient(b, i - 1)) != (Coefficient(b, 127) && i in {0, 1, 2, 7}))
  {
    CoefficientBefore(b, i, j, k);
    if j == 0 {
      BitOfFirst(b[0], b[15], k);
    } else {
      BitOfDoubled(b[j], b[j - 1], k);
    }
  }

  /** x times the polynomial, modulo x^128 + x^7 + x^2 + x + 1. */
  lemma MulXIsTimesX(b: Block, i: nat)
    requires i < 128
    ensures Coefficient(MulX(b), i) == ((i > 0 && Coefficient(b, i - 1)) != (Coefficient(b, 127) && i in {0, 1, 2, 7}))
  {
    MulXByte(b, i / 8);
    CoefficientOf(b, MulX(b), i, i / 8, i % 8);
  }
}
