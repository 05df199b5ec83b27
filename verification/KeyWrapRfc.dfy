/** Key wrap in the form of section 2.2.1 of RFC 3394 that shifts its registers, as a reference for the
    form with an index that the code follows. */
module KeyWrapRfc {
  import opened Bytes
  import opened KeyWrap

  // ---------------------------------------------------------------- the two forms of a step

  /** Step t = n * j + i of the index form works on register i. */
  lemma {:induction false} TargetIs(n: nat, j: nat, i: nat)
    requires 1 <= i <= n
    ensures Target(n, n * j + i) == i
    decreases j
  {
    if j > 0 {
      TargetIs(n, j - 1, i);
      assert n * j + i == n * (j - 1) + i + n;
    }
  }

  lemma {:induction false} TargetDiffers(n: nat, s: nat, t: nat)
    requires n > 0 && 0 < s < t < s + n
    ensures Target(n, s) != Target(n, t)
    decreases s
  {
    if s > n { TargetDiffers(n, s - n, t - n); }
  }

  lemma TargetAgain(n: nat, t: nat)
    requires n > 0 && t > 0
    ensures Target(n, t + n) == Target(n, t)
  {}

  function Sixteen(a: seq<bv8>, b: seq<bv8>): Block
    requires |a| == 8 && |b| == 8
  {
    a + b
  }

  /** What one step of the index form does to the bytes of the registers. */
  lemma WrapStepBytes(E: Block -> Block, mask: nat -> Semiblock, r: Registers, t: nat)
    requires t > 0
    ensures var i, r' := Target(|r| - 1, t), WrapStep(E, mask, r, t); var b := E(Sixteen(r[0], r[i]));
      && r'[0] == Xor(b[..8], mask(t)) && r'[i] == b[8..]
      && forall k :: 1 <= k < |r| && k != i ==> r'[k] == r[k]
  {}

  lemma UnwrapStepBytes(D: Block -> Block, mask: nat -> Semiblock, r: Registers, t: nat)
    requires t > 0
    ensures var i, r' := Target(|r| - 1, t), UnwrapStep(D, mask, r, t); var b := D(Sixteen(Xor(r[0], mask(t)), r[i]));
      && r'[0] == b[..8] && r'[i] == b[8..]
      && forall k :: 1 <= k < |r| && k != i ==> r'[k] == r[k]
  {}

  /** The 64-bit step number, most significant byte first. */
  function Number(t: nat): Semiblock { BeBytes(t, 8) }

  /** B = AES(K, A | R[1]); A = MSB(64, B) ^ t; R[i] = R[i + 1]; R[n] = LSB(64, B). */
  function ShiftStep(E: Block -> Block, number: nat -> Semiblock, r: Registers, t: nat): (r': Registers)
    ensures |r'| == |r|
  {
    var b := E(Sixteen(r[0], r[1]));
    var a: Semiblock := Xor(b[..8], number(t));
    var low: Semiblock := b[8..];
    [a] + r[2..] + [low]
  }

  function ShiftTo(E: Block -> Block, number: nat -> Semiblock, r: Registers, k: nat): (r': Registers)
    ensures |r'| == |r|
    decreases k
  {
    if k == 0 then r else ShiftStep(E, number, ShiftTo(E, number, r, k - 1), k)
  }

  /** The registers of the shifting form after k steps, found in those of the index form. */
  ghost predicate Rotated(w: Registers, k: nat, r: Registers) {
    var ok := |r| == |w| && r[0] == w[0] && forall i :: 1 <= i < |w| ==> r[i] == w[Target(|w| - 1, k + i)];
    ok
  }

  lemma RotatedStep(E: Block -> Block, mask: nat -> Semiblock, number: nat -> Semiblock, w: Registers, k: nat,
                    r: Registers)
    requires Rotated(w, k, r) && mask(k + 1) == number(k + 1)
    ensures Rotated(WrapStep(E, mask, w, k + 1), k + 1, ShiftStep(E, number, r, k + 1))
  {
    var n, t := |w| - 1, k + 1;
    var w', r' := WrapStep(E, mask, w, t), ShiftStep(E, number, r, t);
    WrapStepBytes(E, mask, w, t);
    forall i | 1 <= i <= n ensures r'[i] == w'[Target(n, t + i)] {
      if i < n {
        TargetDiffers(n, t, t + i);
      } else {
        TargetAgain(n, t);
      }
    }
  }

  predicate AskedNumber(t: nat) { true }

  ghost predicate Agree(mask: nat -> Semiblock, number: nat -> Semiblock) {
    forall t {:trigger AskedNumber(t)} :: AskedNumber(t) ==> mask(t) == number(t)
  }

  lemma RotatedStart(r: Registers)
    ensures Rotated(r, 0, r)
  {
    forall i | 1 <= i < |r| ensures r[i] == r[Target(|r| - 1, 0 + i)] {}
  }

  lemma {:induction false} ShiftedIsRotated(E: Block -> Block, mask: nat -> Semiblock, number: nat -> Semiblock,
                                            r: Registers, k: nat)
    requires Agree(mask, number)
    ensures Rotated(WrapTo(E, mask, r, k), k, ShiftTo(E, number, r, k))
    decreases k
  {
    if k == 0 {
      RotatedStart(r);
    } else {
      ShiftedIsRotated(E, mask, number, r, k - 1);
      assert AskedNumber(k);
      RotatedStep(E, mask, number, WrapTo(E, mask, r, k - 1), k - 1, ShiftTo(E, number, r, k - 1));
    }
  }

  lemma Home(n: nat, k: nat, i: nat)
    requires k == 6 * n && 1 <= i <= n
    ensures Target(n, k + i) == i
  {
    TargetIs(n, 6, i);
  }

  lemma RotatedHome(w: Registers, k: nat, r: Registers)
    requires Rotated(w, k, r) && k == 6 * (|w| - 1)
    ensures r == w
  {
    forall i | 1 <= i < |w| ensures r[i] == w[i] { Home(|w| - 1, k, i); }
  }

  /** After six rounds every register is back in its place, and the two forms agree. */
  lemma SixRounds(E: Block -> Block, mask: nat -> Semiblock, number: nat -> Semiblock, r: Registers, k: nat)
    requires Agree(mask, number) && k == 6 * (|r| - 1)
    ensures WrapTo(E, mask, r, k) == ShiftTo(E, number, r, k)
  {
    ShiftedIsRotated(E, mask, number, r, k);
    RotatedHome(WrapTo(E, mask, r, k), k, ShiftTo(E, number, r, k));
  }

  // ---------------------------------------------------------------- the schemes

  predicate Frames(p: seq<bv8>, s: seq<bv8>) {
    |s| % 8 == 0 && 8 + |p| <= |s| < 16 + |p| && s[8..8 + |p|] == p
  }

  lemma FramesPadded(p: seq<bv8>, head: seq<bv8>, s: seq<bv8>)
    requires |head| == 8 && s == head + Padded(p)
    ensures Frames(p, s) && s[8 + |p|..] == Zeros(|s| - 8 - |p|)
  {}

  /** `s` is what the wrapping function is applied to: for KW the check value A6A6A6A6A6A6A6A6 and the key,
      for KWP the check value A65959A6, the length in four bytes, the key and fewer than eight zeros. */
  ghost predicate IsPrefixed(mode: Mode, p: seq<bv8>, s: seq<bv8>) {
    && Frames(p, s)
    && match mode
       case KW => |s| == 8 + |p| && s[..8] == [0xA6, 0xA6, 0xA6, 0xA6, 0xA6, 0xA6, 0xA6, 0xA6]
       case KWP =>
         && s[..4] == [0xA6, 0x59, 0x59, 0xA6] && FromBe32(s[4..8]) == |p|
         && s[8 + |p|..] == Zeros(|s| - 8 - |p|)
  }

  /** `c` is `p` wrapped: a single block is enciphered, a longer string goes through six rounds. */
  ghost predicate IsWrapped(E: Block -> Block, mode: Mode, p: seq<bv8>, c: seq<bv8>) {
    exists s :: IsPrefixed(mode, p, s) && |s| >= 16 && IsScrambled(E, s, c)
  }

  ghost predicate IsScrambled(E: Block -> Block, s: seq<bv8>, c: seq<bv8>)
    requires |s| % 8 == 0 && |s| >= 16
  {
    c == if |s| == 16 then E(s) else Join(ShiftTo(E, Number, Cut(s), 6 * (|s| / 8 - 1)))
  }

  lemma PrefixedIs(mode: Mode, p: seq<bv8>)
    requires LengthOk(mode, |p|) && |p| < TWO32
    ensures IsPrefixed(mode, p, Prefixed(mode, p))
  {
    if mode == KWP {
      Be32RoundTrip(|p|);
      PaddedIs(p, Be32(|p|), Prefixed(mode, p));
    }
  }

  lemma PaddedIs(p: seq<bv8>, len: seq<bv8>, s: seq<bv8>)
    requires |len| == 4 && FromBe32(len) == |p| >= 1 && s == ICV2 + len + Padded(p)
    ensures IsPrefixed(KWP, p, s)
  {
    FramesPadded(p, ICV2 + len, s);
    assert s[..4] == ICV2 && s[4..8] == len;
  }

  /** Wrapping, in both schemes and for every permitted length, is the standard's. */
  lemma WrapIsStandard(E: Block -> Block, mode: Mode, p: seq<bv8>)
    requires LengthOk(mode, |p|) && |p| + 16 <= TWO32
    ensures Wrap(E, mode, p).Ok? && IsWrapped(E, mode, p, Wrap(E, mode, p).value)
  {
    var s := Prefixed(mode, p);
    PrefixedIs(mode, p);
    SixRounds(E, Counter, Number, Regs(s), Steps(|s|));
    assert IsScrambled(E, s, Scramble(E, Counter, s));
  }
}
