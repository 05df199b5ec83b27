/** NIST key wrap (nist_kw.twl.c), over any 16-byte permutation.
    The code works on a buffer of 8-byte semiblocks; as registers, element 0 is the register A of
    RFC 3394 and element i its register R[i]. */
module KeyWrap {
  import opened Bytes

  const ICV1: seq<bv8> := [0xA6, 0xA6, 0xA6, 0xA6, 0xA6, 0xA6, 0xA6, 0xA6]
  const ICV2: seq<bv8> := [0xA6, 0x59, 0x59, 0xA6]

  type Semiblock = s: seq<bv8> | |s| == 8 witness ICV1
  type Registers = r: seq<Semiblock> | |r| >= 2 witness [ICV1, ICV1]

  /** The step counter as a 64-bit big-endian number. */
  function Counter(t: nat): Semiblock { BeBytes(t, |ICV1|) }

  /** The register that step t = n*j + i works on, i in 1..n. */
  function Target(n: nat, t: nat): (i: nat)
    requires n > 0 && t > 0
    ensures 1 <= i <= n
  {
    if t <= n then t else Target(n, t - n)
  }

  function Hi(b: Block): Semiblock { b[..8] }
  function Lo(b: Block): Semiblock { b[8..] }
  function Pair(a: Semiblock, b: Semiblock): Block { a + b }
  function XorSemi(a: Semiblock, b: Semiblock): Semiblock { Xor(a, b) }

  /** Section 2.2.1 of RFC 3394: B = E(A | R[i]); A = MSB(B) ^ t; R[i] = LSB(B). */
  function WrapStep(E: Block -> Block, mask: nat -> Semiblock, r: Registers, t: nat): (r': Registers)
    requires t > 0
    ensures |r'| == |r|
  {
    var i := Target(|r| - 1, t);
    var b := E(Pair(r[0], r[i]));
    r[0 := XorSemi(Hi(b), mask(t))][i := Lo(b)]
  }

  /** Section 2.2.2 of RFC 3394: B = D((A ^ t) | R[i]); A = MSB(B); R[i] = LSB(B). */
  function UnwrapStep(D: Block -> Block, mask: nat -> Semiblock, r: Registers, t: nat): (r': Registers)
    requires t > 0
    ensures |r'| == |r|
  {
    var i := Target(|r| - 1, t);
    var b := D(Pair(XorSemi(r[0], mask(t)), r[i]));
    r[0 := Hi(b)][i := Lo(b)]
  }

  /** Steps 1 .. k forward. */
  function WrapTo(E: Block -> Block, mask: nat -> Semiblock, r: Registers, k: nat): (r': Registers)
    ensures |r'| == |r|
    decreases k
  {
    if k == 0 then r else WrapStep(E, mask, WrapTo(E, mask, r, k - 1), k)
  }

  /** Steps k .. 1 backward. */
  function UnwrapFrom(D: Block -> Block, mask: nat -> Semiblock, r: Registers, k: nat): (r': Registers)
    ensures |r'| == |r|
    decreases k
  {
    if k == 0 then r else UnwrapFrom(D, mask, UnwrapStep(D, mask, r, k), k - 1)
  }

  // ---------------------------------------------------------------- the walks undo each other

  lemma Halves(a: Semiblock, b: Semiblock)
    ensures Hi(Pair(a, b)) == a && Lo(Pair(a, b)) == b
  {}

  lemma Whole(b: Block)
    ensures Pair(Hi(b), Lo(b)) == b
  {}

  lemma StepUndone(E: Block -> Block, D: Block -> Block, mask: nat -> Semiblock, r: Registers, t: nat)
    requires Undoes(E, D) && t > 0
    ensures UnwrapStep(D, mask, WrapStep(E, mask, r, t), t) == r
  {
    var i := Target(|r| - 1, t);
    var p := Pair(r[0], r[i]);
    var b := E(p);
    Whole(b);
    Halves(r[0], r[i]);
    XorTwice(Hi(b), mask(t));
    assert D(b) == p;
  }

  lemma StepRedone(E: Block -> Block, D: Block -> Block, mask: nat -> Semiblock, r: Registers, t: nat)
    requires Undoes(D, E) && t > 0
    ensures WrapStep(E, mask, UnwrapStep(D, mask, r, t), t) == r
  {
    var i := Target(|r| - 1, t);
    var x := XorSemi(r[0], mask(t));
    var b := D(Pair(x, r[i]));
    Whole(b);
    Halves(x, r[i]);
    XorTwice(r[0], mask(t));
    assert E(b) == Pair(x, r[i]);
  }

  /** The backward walk undoes the forward walk, for every number of steps. */
  lemma {:induction false} WalkUndone(E: Block -> Block, D: Block -> Block, mask: nat -> Semiblock, r: Registers,
                                      k: nat)
    requires Undoes(E, D)
    ensures UnwrapFrom(D, mask, WrapTo(E, mask, r, k), k) == r
  {
    if k > 0 {
      WalkUndone(E, D, mask, r, k - 1);
      StepUndone(E, D, mask, WrapTo(E, mask, r, k - 1), k);
    }
  }

  lemma {:induction false} WalkRedone(E: Block -> Block, D: Block -> Block, mask: nat -> Semiblock, r: Registers,
                                      k: nat)
    requires Undoes(D, E)
    ensures WrapTo(E, mask, UnwrapFrom(D, mask, r, k), k) == r
    decreases k
  {
    if k > 0 {
      WalkRedone(E, D, mask, UnwrapStep(D, mask, r, k), k - 1);
      StepRedone(E, D, mask, r, k);
    }
  }

  // ---------------------------------------------------------------- bytes and registers

  function Cut(b: seq<bv8>): (r: seq<Semiblock>)
    requires |b| % 8 == 0
    ensures 8 * |r| == |b|
  {
    if b == [] then [] else [b[..8]] + Cut(b[8..])
  }

  function Join(r: seq<Semiblock>): (b: seq<bv8>)
    ensures |b| == 8 * |r|
  {
    if r == [] then [] else r[0] + Join(r[1..])
  }

  lemma {:induction false} JoinCut(b: seq<bv8>)
    requires |b| % 8 == 0
    ensures Join(Cut(b)) == b
  {
    if b != [] {
      JoinCut(b[8..]);
      assert Cut(b)[1..] == Cut(b[8..]);
      assert b[..8] + b[8..] == b;
    }
  }

  lemma {:induction false} CutJoin(r: seq<Semiblock>)
    ensures Cut(Join(r)) == r
  {
    if r != [] {
      CutJoin(r[1..]);
      assert Join(r)[..8] == r[0] && Join(r)[8..] == Join(r[1..]);
      assert [r[0]] + r[1..] == r;
    }
  }

  // ---------------------------------------------------------------- the two schemes

  datatype Mode = KW | KWP
  datatype Result = Ok(value: seq<bv8>) | BadInput | AuthFailed

  /** Bytes that round `n` up to a whole number of semiblocks. */
  function PadLen(n: nat): (k: nat)
    ensures k < 8 && (n + k) % 8 == 0
  {
    if n % 8 != 0 then 8 - n % 8 else 0
  }

  predicate LengthOk(mode: Mode, n: nat) {
    match mode
    case KW => n >= 16 && n % 8 == 0
    case KWP => n >= 1
  }

  function Padded(p: seq<bv8>): (s: seq<bv8>)
    ensures |s| % 8 == 0 && |p| <= |s| < |p| + 8 && (|p| >= 1 ==> |s| >= 8)
  {
    p + Zeros(PadLen(|p|))
  }

  /** Eight bytes in front of whole semiblocks. */
  function Framed(head: seq<bv8>, body: seq<bv8>): (s: seq<bv8>)
    requires |head| == 8 && |body| % 8 == 0 && |body| >= 8
    ensures |s| % 8 == 0 && |s| >= 16
  {
    head + body
  }

  /** The string the permutation is applied to. */
  function Prefixed(mode: Mode, p: seq<bv8>): (s: seq<bv8>)
    requires LengthOk(mode, |p|) && |p| < TWO32
    ensures |s| % 8 == 0 && |s| >= 16
  {
    match mode
    case KW => Framed(ICV1, p)
    case KWP => Framed(ICV2 + Be32(|p|), Padded(p))
  }

  function Regs(s: seq<bv8>): Registers
    requires |s| % 8 == 0 && |s| >= 16
  {
    Cut(s)
  }

  function Walk(E: Block -> Block, mask: nat -> Semiblock, s: seq<bv8>, k: nat): (c: seq<bv8>)
    requires |s| % 8 == 0 && |s| >= 16
    ensures |c| == |s|
  {
    Join(WrapTo(E, mask, Regs(s), k))
  }

  function WalkBack(D: Block -> Block, mask: nat -> Semiblock, c: seq<bv8>, k: nat): (s: seq<bv8>)
    requires |c| % 8 == 0 && |c| >= 16
    ensures |s| == |c|
  {
    Join(UnwrapFrom(D, mask, Regs(c), k))
  }

  /** Six rounds over all the registers. */
  function Steps(n: nat): nat requires n >= 8 { 6 * (n / 8 - 1) }

  /** Forward over the whole string: one block, or 6n steps over n registers. */
  function Scramble(E: Block -> Block, mask: nat -> Semiblock, s: seq<bv8>): (c: seq<bv8>)
    requires |s| % 8 == 0 && |s| >= 16
    ensures |c| == |s|
  {
    if |s| == 16 then E(s) else Walk(E, mask, s, Steps(|s|))
  }

  function Unscramble(D: Block -> Block, mask: nat -> Semiblock, c: seq<bv8>): (s: seq<bv8>)
    requires |c| % 8 == 0 && |c| >= 16
    ensures |s| == |c|
  {
    if |c| == 16 then D(c) else WalkBack(D, mask, c, Steps(|c|))
  }

  /** KW-AE and KWP-AE, sections 6.2 and 6.3 of NIST SP 800-38F. */
  function Wrap(E: Block -> Block, mode: Mode, p: seq<bv8>): Result
    requires |p| + 16 <= TWO32
  {
    if !LengthOk(mode, |p|) then BadInput else Ok(Scramble(E, Counter, Prefixed(mode, p)))
  }

  /** The check value and the padding fit a key of `n` bytes; the subtraction is 32-bit. */
  predicate Fits(s: seq<bv8>, n: nat)
    requires 16 <= |s| < TWO32 && n < TWO32
  {
    var padlen := Minus32(|s| - 8, n);
    s[..4] == ICV2 && padlen <= 7 && s[|s| - padlen..] == Zeros(padlen)
  }

  /** What is in front of and behind the key is as it must be.  For KWP the length comes from the
      string itself. */
  predicate Authentic(mode: Mode, s: seq<bv8>)
    requires |s| % 8 == 0 && 16 <= |s| < TWO32
  {
    match mode
    case KW => s[..8] == ICV1
    case KWP => Fits(s, FromBe32(s[4..8]))
  }

  function Key(mode: Mode, s: seq<bv8>): seq<bv8>
    requires |s| % 8 == 0 && 16 <= |s| < TWO32 && Authentic(mode, s)
  {
    match mode
    case KW => s[8..]
    case KWP => s[8..8 + FromBe32(s[4..8])]
  }

  predicate CipherLengthOk(mode: Mode, n: nat) {
    n % 8 == 0 && match mode case KW => n >= 24 case KWP => n >= 16
  }

  /** KW-AD and KWP-AD, sections 6.2 and 6.3 of NIST SP 800-38F. */
  function Unwrap(D: Block -> Block, mode: Mode, c: seq<bv8>): Result
    requires |c| < TWO32
  {
    UnwrapWith(D, Counter, mode, c)
  }

  function UnwrapWith(D: Block -> Block, mask: nat -> Semiblock, mode: Mode, c: seq<bv8>): Result
    requires |c| < TWO32
  {
    if !CipherLengthOk(mode, |c|) then BadInput
    else
      var s := Unscramble(D, mask, c);
      if Authentic(mode, s) then Ok(Key(mode, s)) else AuthFailed
  }

  lemma WalkBytesUndone(E: Block -> Block, D: Block -> Block, mask: nat -> Semiblock, s: seq<bv8>, k: nat)
    requires Undoes(E, D) && |s| % 8 == 0 && |s| >= 16
    ensures WalkBack(D, mask, Walk(E, mask, s, k), k) == s
  {
    CutJoin(WrapTo(E, mask, Regs(s), k));
    WalkUndone(E, D, mask, Regs(s), k);
    JoinCut(s);
  }

  lemma WalkBytesRedone(E: Block -> Block, D: Block -> Block, mask: nat -> Semiblock, c: seq<bv8>, k: nat)
    requires Undoes(D, E) && |c| % 8 == 0 && |c| >= 16
    ensures Walk(E, mask, WalkBack(D, mask, c, k), k) == c
  {
    CutJoin(UnwrapFrom(D, mask, Regs(c), k));
    WalkRedone(E, D, mask, Regs(c), k);
    JoinCut(c);
  }

  lemma ScrambleUndone(E: Block -> Block, D: Block -> Block, mask: nat -> Semiblock, s: seq<bv8>)
    requires Undoes(E, D) && |s| % 8 == 0 && |s| >= 16
    ensures Unscramble(D, mask, Scramble(E, mask, s)) == s
  {
    if |s| == 16 { assert D(E(s)) == s; } else { WalkBytesUndone(E, D, mask, s, Steps(|s|)); }
  }

  lemma ScrambleRedone(E: Block -> Block, D: Block -> Block, mask: nat -> Semiblock, c: seq<bv8>)
    requires Undoes(D, E) && |c| % 8 == 0 && |c| >= 16
    ensures Scramble(E, mask, Unscramble(D, mask, c)) == c
  {
    if |c| == 16 { assert E(D(c)) == c; } else { WalkBytesRedone(E, D, mask, c, Steps(|c|)); }
  }

  /** The 32-bit subtraction accepts exactly the lengths whose padding is the right one. */
  lemma PadLenExact(len: nat, n: nat)
    requires len % 8 == 0 && 16 <= len < TWO32 && n < TWO32
    ensures Minus32(len - 8, n) <= 7 <==> 1 <= n <= len - 8 && PadLen(n) == len - 8 - n
    ensures 1 <= n <= len - 8 ==> Minus32(len - 8, n) == len - 8 - n
  {}

  /** A laid-out key fits its own length. */
  lemma LaidOutFits(len: seq<bv8>, p: seq<bv8>, s: seq<bv8>)
    requires |len| == 4 && 1 <= |p| && |p| + 16 <= TWO32 && s == ICV2 + len + Padded(p)
    ensures |s| % 8 == 0 && 16 <= |s| < TWO32 && Fits(s, |p|) && s[4..8] == len && s[8..8 + |p|] == p
  {
    var pad := PadLen(|p|);
    PadLenExact(|s|, |p|);
    assert s[8..8 + |p|] == p && s[8 + |p|..] == Zeros(pad);
  }

  /** A string that fits some length is the laid-out form of the key it holds. */
  lemma FitsLaidOut(s: seq<bv8>, n: nat)
    requires |s| % 8 == 0 && 16 <= |s| < TWO32 && n < TWO32 && Fits(s, n)
    ensures 1 <= n <= |s| - 8 && s == ICV2 + s[4..8] + Padded(s[8..8 + n])
  {
    PadLenExact(|s|, n);
    Reassemble(s, n);
  }

  lemma PrefixedIsAuthentic(mode: Mode, p: seq<bv8>)
    requires LengthOk(mode, |p|) && |p| + 16 <= TWO32
    ensures var s := Prefixed(mode, p); |s| < TWO32 && Authentic(mode, s) && Key(mode, s) == p
  {
    if mode == KWP {
      LaidOutFits(Be32(|p|), p, Prefixed(mode, p));
      Be32RoundTrip(|p|);
    }
  }

  /** An authentic string is the prefixed form of its key, which is not empty. */
  lemma AuthenticIsPrefixed(mode: Mode, s: seq<bv8>)
    requires CipherLengthOk(mode, |s|) && |s| < TWO32 && Authentic(mode, s)
    ensures var p := Key(mode, s); LengthOk(mode, |p|) && |p| < TWO32 && Prefixed(mode, p) == s
  {
    if mode == KWP {
      FitsLaidOut(s, FromBe32(s[4..8]));
      FromBe32RoundTrip(s[4..8]);
    }
  }

  lemma KeyIsShorter(mode: Mode, s: seq<bv8>)
    requires CipherLengthOk(mode, |s|) && |s| < TWO32 && Authentic(mode, s)
    ensures 1 <= |Key(mode, s)| <= TWO32 - 16
  {
    if mode == KWP { PadLenExact(|s|, FromBe32(s[4..8])); }
  }

  lemma Reassemble(s: seq<bv8>, n: nat)
    requires |s| == 8 + n + PadLen(n) && s[8 + n..] == Zeros(PadLen(n))
    ensures s == s[..4] + s[4..8] + Padded(s[8..8 + n])
  {
    assert s == s[..4] + s[4..8] + (s[8..8 + n] + s[8 + n..]);
  }

  /** Unwrapping a wrapped key gives back its bytes and length, for every permitted length. */
  lemma WrapUnwrap(E: Block -> Block, D: Block -> Block, mode: Mode, p: seq<bv8>)
    requires Undoes(E, D) && |p| + 16 <= TWO32 && LengthOk(mode, |p|)
    ensures Wrap(E, mode, p).Ok? && |Wrap(E, mode, p).value| < TWO32
    ensures Unwrap(D, mode, Wrap(E, mode, p).value) == Ok(p)
  {
    PrefixedIsAuthentic(mode, p);
    ScrambleUndone(E, D, Counter, Prefixed(mode, p));
  }

  /** Unwrap accepts a ciphertext only if it is exactly the wrap of the key it returns. */
  lemma UnwrapIsSound(E: Block -> Block, D: Block -> Block, mode: Mode, c: seq<bv8>)
    requires Undoes(D, E) && |c| < TWO32 && Unwrap(D, mode, c).Ok?
    ensures var p := Unwrap(D, mode, c).value;
      |p| >= 1 && |p| + 16 <= TWO32 && Wrap(E, mode, p) == Ok(c)
  {
    var s := Unscramble(D, Counter, c);
    ScrambleRedone(E, D, Counter, c);
    KeyIsShorter(mode, s);
    AuthenticIsPrefixed(mode, s);
  }
}
