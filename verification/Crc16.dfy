/** The CRC check of saved access points (wfc.c): a record passes exactly when its last two bytes are the
    CRC of the rest, low byte first. */
module Crc16 {
  import B = Bytes

  datatype Reg = Reg(v: bv16)

  const ZERO := Reg(0)
  const BITS: nat := 8

  function Shift(x: bv16): bv16 { if x & 1 != 0 then (x >> 1) ^ 0xA001 else x >> 1 }

  function Step(r: Reg): Reg { Reg(Shift(r.v)) }

  /** Runs the register backward. */
  function Unstep(r: Reg): Reg { Reg(if r.v & 0x8000 != 0 then ((r.v ^ 0xA001) << 1) | 1 else r.v << 1) }

  lemma StepUndone(r: Reg)
    ensures Unstep(Step(r)) == r
  {}

  function Steps(r: Reg, n: nat): Reg {
    if n == 0 then r else Step(Steps(r, n - 1))
  }

  function Xor16(x: bv16, y: bv16): bv16 { x ^ y }
  function XorReg(r: Reg, s: Reg): Reg { Reg(Xor16(r.v, s.v)) }
  function Low(b: bv8): Reg { Reg(b as bv16) }
  function High(b: bv8): Reg { Reg(b as bv16 << 8) }

  /** Two bytes, low byte first. */
  function Word(lo: bv8, hi: bv8): Reg { Reg((hi as bv16 << 8) | lo as bv16) }

  function Feed(c: Reg, b: Reg): Reg { Steps(XorReg(c, b), BITS) }

  function Crc(data: seq<bv8>): Reg {
    if data == [] then ZERO else Feed(Crc(data[..|data| - 1]), Low(data[|data| - 1]))
  }

  /** The register as the int that the code keeps it in. */
  function Wide(r: Reg): bv32 { r.v as bv32 }

  lemma WideXor(r: Reg, b: bv8)
    ensures Wide(r) ^ (b as bv32) == Wide(XorReg(r, Low(b)))
  {
    WideByte(b);
    WideXor16(r.v, b as bv16);
  }

  lemma WideByte(b: bv8)
    ensures (b as bv16) as bv32 == b as bv32
  {}

  lemma WideXor16(x: bv16, y: bv16)
    ensures (x ^ y) as bv32 == (x as bv32) ^ (y as bv32)
  {}

  lemma WideOdd(x: bv16)
    requires x & 1 != 0
    ensures (x as bv32) & 1 != 0 && ((x as bv32) >> 1) ^ 0xA001 == ((x >> 1) ^ 0xA001) as bv32
  {}

  lemma WideEven(x: bv16)
    requires x & 1 == 0
    ensures (x as bv32) & 1 == 0 && (x as bv32) >> 1 == (x >> 1) as bv32
  {}

  lemma WideStep(r: Reg)
    ensures Wide(r) & 1 != 0 ==> (Wide(r) >> 1) ^ 0xA001 == Wide(Step(r))
    ensures Wide(r) & 1 == 0 ==> Wide(r) >> 1 == Wide(Step(r))
  {
    if r.v & 1 != 0 { WideOdd(r.v); } else { WideEven(r.v); }
  }

  /** Its upper half stays zero, so the mask at the end changes nothing. */
  lemma WideMask(r: Reg)
    ensures Wide(r) & 0xFFFF == Wide(r) && Wide(r) >> 16 == 0
  {}

  /** The eight shifts after a byte. */
  method Shifts(crc: bv32, ghost r: Reg) returns (crc': bv32)
    requires crc == Wide(r)
    ensures crc' == Wide(Steps(r, BITS))
  {
    crc' := crc;
    for j := 0 to BITS
      invariant crc' == Wide(Steps(r, j))
    {
      WideStep(Steps(r, j));
      if crc' & 1 != 0 {
        crc' := (crc' >> 1) ^ 0xA001;
      } else {
        crc' := crc' >> 1;
      }
    }
  }

  /** wifi_crc16_slow */
  method Crc16Slow(data: seq<bv8>) returns (crc: bv32)
    ensures crc == Wide(Crc(data)) && crc >> 16 == 0
  {
    crc := 0;
    for i := 0 to |data|
      invariant crc == Wide(Crc(data[..i]))
    {
      WideXor(Crc(data[..i]), data[i]);
      crc := crc ^ (data[i] as bv32);
      crc := Shifts(crc, XorReg(Crc(data[..i]), Low(data[i])));
      assert data[..i + 1][..i] == data[..i];
    }
    assert data[..|data|] == data;
    WideMask(Crc(data));
    crc := crc & 0xFFFF;
  }

  // ---------------------------------------------------------------- the residue

  /** No two register contents lead to the same one. */
  lemma {:induction false} StepsInjective(r: Reg, s: Reg, n: nat)
    requires Steps(r, n) == Steps(s, n)
    ensures r == s
  {
    if n > 0 {
      StepUndone(Steps(r, n - 1));
      StepUndone(Steps(s, n - 1));
      StepsInjective(r, s, n - 1);
    }
  }

  lemma {:induction false} StepsOfZero(n: nat)
    ensures Steps(ZERO, n) == ZERO
  {
    if n > 0 { StepsOfZero(n - 1); }
  }

  lemma {:induction false} StepDown(x: bv16, y: bv16, n: nat)
    requires Shift(y) == x
    ensures Steps(Reg(y), n + 1) == Steps(Reg(x), n)
  {
    if n == 0 { assert Steps(Reg(y), 1) == Step(Steps(Reg(y), 0)); } else { StepDown(x, y, n - 1); }
  }

  lemma FourDown(a: bv16, b: bv16, c: bv16, d: bv16, e: bv16, n: nat)
    requires Shift(e) == d && Shift(d) == c && Shift(c) == b && Shift(b) == a
    ensures Steps(Reg(e), n + 4) == Steps(Reg(a), n)
  {
    StepDown(d, e, n + 3);
    StepDown(c, d, n + 2);
    StepDown(b, c, n + 1);
    StepDown(a, b, n);
  }

  lemma ShiftsHigh(hi: bv8)
    ensures var h := hi as bv16;
      && Shift(h << 8) == h << 7 && Shift(h << 7) == h << 6 && Shift(h << 6) == h << 5 && Shift(h << 5) == h << 4
      && Shift(h << 4) == h << 3 && Shift(h << 3) == h << 2 && Shift(h << 2) == h << 1 && Shift(h << 1) == h
  {}

  lemma EightDown(hi: bv8, n: nat)
    ensures Steps(High(hi), n + 8) == Steps(Low(hi), n)
  {
    var h := hi as bv16;
    ShiftsHigh(hi);
    FourDown(h << 4, h << 5, h << 6, h << 7, h << 8, n + 4);
    FourDown(h, h << 1, h << 2, h << 3, h << 4, n);
  }

  /** A byte in the upper half is shifted down unchanged. */
  lemma StepsOfHigh(hi: bv8)
    ensures Steps(High(hi), BITS) == Low(hi)
  {
    EightDown(hi, 0);
  }

  lemma XorIsZero(r: Reg, s: Reg)
    ensures XorReg(r, s) == ZERO <==> r == s
  {}

  lemma XorIsHigh(c: Reg, lo: bv8, hi: bv8)
    ensures XorReg(c, Low(lo)) == High(hi) <==> c == Word(lo, hi)
  {
    XorTwice(c, Low(lo));
    XorTwice(High(hi), Low(lo));
    Halves(lo, hi);
  }

  lemma XorTwice(r: Reg, s: Reg)
    ensures XorReg(XorReg(r, s), s) == r
  {}

  lemma Halves(lo: bv8, hi: bv8)
    ensures XorReg(High(hi), Low(lo)) == Word(lo, hi)
  {}

  lemma FeedIsZero(d: Reg, h: Reg)
    ensures Feed(d, h) == ZERO <==> d == h
  {
    StepsOfZero(BITS);
    XorIsZero(d, h);
    if Feed(d, h) == ZERO { StepsInjective(XorReg(d, h), ZERO, BITS); }
  }

  lemma FeedIsLow(c: Reg, lo: bv8, hi: bv8)
    ensures Feed(c, Low(lo)) == Low(hi) <==> c == Word(lo, hi)
  {
    StepsOfHigh(hi);
    XorIsHigh(c, lo, hi);
    if Feed(c, Low(lo)) == Low(hi) { StepsInjective(XorReg(c, Low(lo)), High(hi), BITS); }
  }

  /** The check of a record, on every string of at least two bytes. */
  lemma CheckPasses(data: seq<bv8>)
    requires |data| >= 2
    ensures Crc(data) == ZERO <==> Crc(data[..|data| - 2]) == Word(data[|data| - 2], data[|data| - 1])
  {
    var m := data[..|data| - 1];
    var c, lo, hi := Crc(data[..|data| - 2]), data[|data| - 2], data[|data| - 1];
    assert m[..|m| - 1] == data[..|data| - 2];
    assert Crc(data) == Feed(Feed(c, Low(lo)), Low(hi));
    FeedIsZero(Feed(c, Low(lo)), Low(hi));
    FeedIsLow(c, lo, hi);
  }

  // ---------------------------------------------------------------- polynomials

  function BitOf(x: bv16, k: nat): bool
    requires k < 16
  {
    match k
    case 0 => x & 0x0001 != 0
    case 1 => x & 0x0002 != 0
    case 2 => x & 0x0004 != 0
    case 3 => x & 0x0008 != 0
    case 4 => x & 0x0010 != 0
    case 5 => x & 0x0020 != 0
    case 6 => x & 0x0040 != 0
    case 7 => x & 0x0080 != 0
    case 8 => x & 0x0100 != 0
    case 9 => x & 0x0200 != 0
    case 10 => x & 0x0400 != 0
    case 11 => x & 0x0800 != 0
    case 12 => x & 0x1000 != 0
    case 13 => x & 0x2000 != 0
    case 14 => x & 0x4000 != 0
    case _ => x & 0x8000 != 0
  }

  /** Bit k of the register is the coefficient of x^(15 - k).  A step multiplies the polynomial by x, modulo
      x^16 + x^15 + x^2 + 1: every coefficient moves to the next bit below, and the one that falls out at bit 0
      comes back in at x^0, x^2 and x^15. */
  lemma StepIsTimesX(x: bv16, k: nat)
    requires k < 16
    ensures BitOf(Shift(x), k) == ((k < 15 && BitOf(x, k + 1)) != (BitOf(x, 0) && 15 - k in {0, 2, 15}))
  {
    if x & 1 != 0 { OddBit(x, Shift(x), k); } else { EvenBit(x, Shift(x), k); }
  }

  lemma OddBit(x: bv16, y: bv16, k: nat)
    requires k < 16 && x & 1 != 0 && y == (x >> 1) ^ 0xA001
    ensures BitOf(x, 0) && BitOf(y, k) == ((k < 15 && BitOf(x, k + 1)) != (k in {0, 13, 15}))
  {
    ShrBit(x, k);
    FlipBit(x >> 1, k);
  }

  lemma EvenBit(x: bv16, y: bv16, k: nat)
    requires k < 16 && x & 1 == 0 && y == x >> 1
    ensures !BitOf(x, 0) && BitOf(y, k) == (k < 15 && BitOf(x, k + 1))
  {
    ShrBit(x, k);
  }

  lemma ShrBit(x: bv16, k: nat)
    requires k < 16
    ensures BitOf(x >> 1, k) == (k < 15 && BitOf(x, k + 1))
  {
    match k
    case 0 => case 1 => case 2 => case 3 => case 4 => case 5 => case 6 => case 7 =>
    case 8 => case 9 => case 10 => case 11 => case 12 => case 13 => case 14 => case _ =>
  }

  lemma FlipBit(x: bv16, k: nat)
    requires k < 16
    ensures BitOf(x ^ 0xA001, k) == (BitOf(x, k) != (k in {0, 13, 15}))
  {
    match k
    case 0 => case 1 => case 2 => case 3 => case 4 => case 5 => case 6 => case 7 =>
    case 8 => case 9 => case 10 => case 11 => case 12 => case 13 => case 14 => case _ =>
  }

  lemma StepLinear(r: Reg, s: Reg)
    ensures Step(XorReg(r, s)) == XorReg(Step(r), Step(s))
  {
    ShiftLinear(r.v, s.v);
  }

  lemma ShiftLinear(x: bv16, y: bv16)
    ensures Shift(Xor16(x, y)) == Xor16(Shift(x), Shift(y))
  {
    if x & 1 != 0 {
      if y & 1 != 0 { OddOdd(x, y); } else { OddEven(x, y); }
    } else {
      if y & 1 != 0 { EvenOdd(x, y); } else { EvenEven(x, y); }
    }
  }

  lemma OddOdd(x: bv16, y: bv16)
    requires x & 1 != 0 && y & 1 != 0
    ensures Shift(Xor16(x, y)) == Xor16(Shift(x), Shift(y))
  {}

  lemma OddEven(x: bv16, y: bv16)
    requires x & 1 != 0 && y & 1 == 0
    ensures Shift(Xor16(x, y)) == Xor16(Shift(x), Shift(y))
  {}

  lemma EvenOdd(x: bv16, y: bv16)
    requires x & 1 == 0 && y & 1 != 0
    ensures Shift(Xor16(x, y)) == Xor16(Shift(x), Shift(y))
  {}

  lemma EvenEven(x: bv16, y: bv16)
    requires x & 1 == 0 && y & 1 == 0
    ensures Shift(Xor16(x, y)) == Xor16(Shift(x), Shift(y))
  {}

  lemma {:induction false} StepsLinear(r: Reg, s: Reg, n: nat)
    ensures Steps(XorReg(r, s), n) == XorReg(Steps(r, n), Steps(s, n))
  {
    if n > 0 {
      StepsLinear(r, s, n - 1);
      StepLinear(Steps(r, n - 1), Steps(s, n - 1));
    }
  }

  lemma Exchange(c: Reg, d: Reg, a: Reg, b: Reg)
    ensures XorReg(XorReg(c, d), XorReg(a, b)) == XorReg(XorReg(c, a), XorReg(d, b))
  {}

  lemma LowXor(x: bv8, y: bv8)
    ensures Low(x ^ y) == XorReg(Low(x), Low(y))
  {}

  lemma FeedLinear(c: Reg, d: Reg, a: Reg, b: Reg)
    ensures Feed(XorReg(c, d), XorReg(a, b)) == XorReg(Feed(c, a), Feed(d, b))
  {
    Exchange(c, d, a, b);
    StepsLinear(XorReg(c, a), XorReg(d, b), BITS);
  }

  /** The CRC of the bytewise exclusive or of two strings is the exclusive or of their CRCs; in particular a
      string of zeros has CRC 0. */
  lemma {:induction false} CrcLinear(a: seq<bv8>, b: seq<bv8>)
    requires |a| == |b|
    ensures Crc(B.Xor(a, b)) == XorReg(Crc(a), Crc(b))
    decreases |a|
  {
    if a != [] {
      var x, n := B.Xor(a, b), |a| - 1;
      assert x[..n] == B.Xor(a[..n], b[..n]);
      CrcLinear(a[..n], b[..n]);
      LowXor(a[n], b[n]);
      FeedLinear(Crc(a[..n]), Crc(b[..n]), Low(a[n]), Low(b[n]));
    }
  }
}
