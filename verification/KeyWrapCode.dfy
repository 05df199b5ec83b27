/** The code of nist_kw.twl.c: the walks over the output buffer through a moving pointer, and the two
    entry points with their error paths, against the functions of KeyWrap. */
module KeyWrapCode {
  import opened Bytes
  import opened KeyWrap
  import opened KeyWrapRfc
  import CT = ConstantTime
  import CtMemory

  // ---------------------------------------------------------------- semiblocks in a buffer

  function Replaced(b: seq<bv8>, at: nat, s: Semiblock): (r: seq<bv8>)
    requires at + 8 <= |b|
    ensures |r| == |b|
  {
    b[..at] + s + b[at + 8..]
  }

  lemma {:induction false} CutAt(b: seq<bv8>, i: nat)
    requires |b| % 8 == 0 && 8 * i + 8 <= |b|
    ensures Cut(b)[i] == b[8 * i..8 * i + 8]
  {
    if i > 0 {
      CutAt(b[8..], i - 1);
      assert b[8..][8 * (i - 1)..8 * (i - 1) + 8] == b[8 * i..8 * i + 8];
    }
  }

  lemma {:induction false} CutReplaced(b: seq<bv8>, i: nat, s: Semiblock)
    requires |b| % 8 == 0 && 8 * i + 8 <= |b|
    ensures Cut(Replaced(b, 8 * i, s)) == Cut(b)[i := s]
  {
    var r := Replaced(b, 8 * i, s);
    if i == 0 {
      assert r[..8] == s && r[8..] == b[8..];
    } else {
      CutReplaced(b[8..], i - 1, s);
      assert r[..8] == b[..8] && r[8..] == Replaced(b[8..], 8 * (i - 1), s);
    }
  }

  method Put(output: array<bv8>, at: nat, s: Semiblock)
    requires at + 8 <= output.Length
    modifies output
    ensures output[..] == Replaced(old(output[..]), at, s)
  {
    for i := 0 to 8
      invariant forall j :: 0 <= j < output.Length && !(at <= j < at + i) ==> output[j] == old(output[j])
      invariant forall j :: 0 <= j < i ==> output[at + j] == s[j]
    {
      output[at + i] := s[i];
    }
  }

  // ---------------------------------------------------------------- the counter

  lemma {:induction false} CounterByte(t: nat, k: nat, i: nat)
    requires i < k
    ensures BeBytes(t, k)[i] == Byte(Shr(t, k - 1 - i) % 256)
    decreases k
  {
    if i < k - 1 { CounterByte(t / 256, k - 1, i); }
  }

  /** Byte i of the counter is t shifted right by 7 - i bytes, modulo 256. */
  lemma CounterIs(t: nat, i: nat)
    requires i < 8
    ensures Counter(t)[i] == Byte(Shr(t, 7 - i) % 256)
  {
    CounterByte(t, 8, i);
  }

  /** The loop of calc_a_xor_t, where c[i] is (t >> (7 - i) * 8) & 0xff. */
  method XorLoop(a: array<bv8>, t: nat, ghost c: Semiblock)
    requires a.Length >= 8 && forall i :: 0 <= i < 8 ==> c[i] == Byte(Shr(t, 7 - i) % 256)
    modifies a
    ensures forall j :: 0 <= j < 8 ==> a[j] == old(a[j]) ^ c[j]
    ensures forall j :: 8 <= j < a.Length ==> a[j] == old(a[j])
  {
    for i := 0 to 8
      invariant forall j :: 0 <= j < i ==> a[j] == old(a[j]) ^ c[j]
      invariant forall j :: i <= j < a.Length ==> a[j] == old(a[j])
    {
      var b := Byte(Shr(t, 7 - i) % 256);
      assert b == c[i];
      a[i] := a[i] ^ b;
    }
  }

  /** calc_a_xor_t */
  method CalcAXorT(a: array<bv8>, t: nat)
    requires a.Length >= 8
    modifies a
    ensures a[..] == Replaced(old(a[..]), 0, XorSemi(old(a[..8]), Counter(t)))
    ensures forall j :: 0 <= j < 8 ==> a[j] == old(a[j]) ^ Counter(t)[j]
    ensures forall j :: 8 <= j < a.Length ==> a[j] == old(a[j])
  {
    ghost var c := Counter(t);
    forall i | 0 <= i < 8 ensures c[i] == Byte(Shr(t, 7 - i) % 256) { CounterIs(t, i); }
    XorLoop(a, t, c);
    Xored(old(a[..]), c, a[..]);
    assert old(a[..])[..8] == old(a[..8]);
  }

  lemma Xored(b: seq<bv8>, c: Semiblock, r: seq<bv8>)
    requires |r| == |b| >= 8 && forall j :: 0 <= j < 8 ==> r[j] == b[j] ^ c[j]
    requires forall j :: 8 <= j < |b| ==> r[j] == b[j]
    ensures r == Replaced(b, 0, XorSemi(b[..8], c))
  {
    assert forall j :: 0 <= j < 8 ==> r[j] == XorSemi(b[..8], c)[j];
  }

  lemma {:induction false} TargetNext(n: nat, t: nat)
    requires n > 0 && t > 0
    ensures Target(n, t + 1) == if Target(n, t) == n then 1 else Target(n, t) + 1
  {
    if t > n { TargetNext(n, t - n); }
  }

  lemma TargetLast(n: nat)
    requires n > 0
    ensures Target(n, 1) == 1 && Target(n, 6 * n) == n
  {
    assert Target(n, 6 * n) == Target(n, 5 * n) == Target(n, 4 * n) == Target(n, 3 * n) == Target(n, 2 * n) == n;
  }

  // ---------------------------------------------------------------- the forward walk

  /** The first semiblocks of a buffer, as registers. */
  ghost function Registered(output: array<bv8>, semiblocks: nat): (r: Registers)
    requires semiblocks >= 2 && 8 * semiblocks <= output.Length
    reads output
    ensures |r| == semiblocks
  {
    Cut(output[..8 * semiblocks])
  }

  /** Writing one semiblock writes one register. */
  lemma ReplacedRegister(b: seq<bv8>, used: nat, i: nat, s: Semiblock)
    requires used % 8 == 0 && 8 * i + 8 <= used <= |b|
    ensures Cut(Replaced(b, 8 * i, s)[..used]) == Cut(b[..used])[i := s]
    ensures Replaced(b, 8 * i, s)[used..] == b[used..]
  {
    CutReplaced(b[..used], i, s);
    assert Replaced(b, 8 * i, s)[..used] == Replaced(b[..used], 8 * i, s);
  }

  method PutRegister(output: array<bv8>, ghost semiblocks: nat, i: nat, s: Semiblock)
    requires i < semiblocks && semiblocks >= 2 && 8 * semiblocks <= output.Length
    modifies output
    ensures Registered(output, semiblocks) == old(Registered(output, semiblocks))[i := s]
    ensures output[8 * semiblocks..] == old(output[8 * semiblocks..])
  {
    ReplacedRegister(output[..], 8 * semiblocks, i, s);
    Put(output, 8 * i, s);
    assert output[..][..8 * semiblocks] == output[..8 * semiblocks];
    assert old(output[..])[..8 * semiblocks] == old(output[..8 * semiblocks]);
    assert output[..][8 * semiblocks..] == output[8 * semiblocks..];
    assert old(output[..])[8 * semiblocks..] == old(output[8 * semiblocks..]);
  }

  /** The walks know the counter only as some `mask`; asking for a step here says what it is. */
  predicate Asked(t: nat) { true }
  ghost predicate IsCounter(mask: nat -> Semiblock) {
    forall t {:trigger Asked(t)} :: Asked(t) ==> mask(t) == Counter(t)
  }

  method XorFirst(ghost mask: nat -> Semiblock, output: array<bv8>, ghost semiblocks: nat, t: nat)
    requires IsCounter(mask) && semiblocks >= 2 && 8 * semiblocks <= output.Length
    modifies output
    ensures Registered(output, semiblocks) ==
      var r := old(Registered(output, semiblocks)); r[0 := XorSemi(r[0], mask(t))]
    ensures output[8 * semiblocks..] == old(output[8 * semiblocks..])
  {
    assert Asked(t);
    ghost var x := XorSemi(output[..8], mask(t));
    CutAt(output[..8 * semiblocks], 0);
    assert output[..8 * semiblocks][0..8] == output[..8];
    ReplacedRegister(output[..], 8 * semiblocks, 0, x);
    CalcAXorT(output, t);
    assert output[..][..8 * semiblocks] == output[..8 * semiblocks];
    assert old(output[..])[..8 * semiblocks] == old(output[..8 * semiblocks]);
    assert output[..][8 * semiblocks..] == output[8 * semiblocks..];
    assert old(output[..])[8 * semiblocks..] == old(output[8 * semiblocks..]);
  }

  method Get(output: array<bv8>, ghost semiblocks: nat, i: nat) returns (s: Semiblock)
    requires i < semiblocks && semiblocks >= 2 && 8 * semiblocks <= output.Length
    ensures s == Registered(output, semiblocks)[i]
  {
    s := output[8 * i..8 * i + 8];
    CutAt(output[..8 * semiblocks], i);
    assert output[..8 * semiblocks][8 * i..8 * i + 8] == s;
  }

  method WrapOne(E: Block -> Block, ghost mask: nat -> Semiblock, output: array<bv8>, ghost semiblocks: nat, r2: nat,
                 t: nat)
    requires IsCounter(mask)
    requires semiblocks >= 2 && 8 * semiblocks <= output.Length && t > 0 && r2 == Target(semiblocks - 1, t)
    modifies output
    ensures Registered(output, semiblocks) == WrapStep(E, mask, old(Registered(output, semiblocks)), t)
    ensures output[8 * semiblocks..] == old(output[8 * semiblocks..])
  {
    var a := Get(output, semiblocks, 0);
    var r := Get(output, semiblocks, r2);
    var b := E(Pair(a, r));
    PutRegister(output, semiblocks, 0, Hi(b));
    XorFirst(mask, output, semiblocks, t);
    PutRegister(output, semiblocks, r2, Lo(b));
  }

  /** R2 moves on to the next register, or back to the first. */
  method Advance(r2: nat, semiblocks: nat, ghost t: nat) returns (next: nat)
    requires semiblocks >= 2 && t > 0 && r2 == Target(semiblocks - 1, t)
    ensures next == Target(semiblocks - 1, t + 1)
  {
    TargetNext(semiblocks - 1, t);
    next := r2 + 1;
    if next >= semiblocks { next := 1; }
  }

  /** The loop of mbedtls_nist_kw_wrap: the registers of RFC 3394, visited through the offset R2. */
  method WrapLoop(E: Block -> Block, ghost mask: nat -> Semiblock, output: array<bv8>, semiblocks: nat)
    requires semiblocks >= 2 && 8 * semiblocks <= output.Length && IsCounter(mask)
    modifies output
    ensures Registered(output, semiblocks) == WrapTo(E, mask, old(Registered(output, semiblocks)), 6 * (semiblocks - 1))
    ensures output[8 * semiblocks..] == old(output[8 * semiblocks..])
  {
    var s := 6 * (semiblocks - 1);
    ghost var regs := Registered(output, semiblocks);
    var r2, t := 1, 0;
    while t < s
      invariant t <= s && r2 == Target(semiblocks - 1, t + 1)
      invariant Registered(output, semiblocks) == WrapTo(E, mask, regs, t)
      invariant output[8 * semiblocks..] == old(output[8 * semiblocks..])
    {
      t := t + 1;
      WrapOne(E, mask, output, semiblocks, r2, t);
      r2 := Advance(r2, semiblocks, t);
    }
  }

  // ---------------------------------------------------------------- the backward walk

  /** A and the semiblocks of the output, as registers. */
  ghost function Apart(a: array<bv8>, output: array<bv8>, n: nat): (r: Registers)
    requires n >= 1 && a.Length == 8 && 8 * n <= output.Length
    reads a, output
    ensures |r| == n + 1
  {
    [a[..]] + Cut(output[..8 * n])
  }

  method UnwrapOne(D: Block -> Block, ghost mask: nat -> Semiblock, a: array<bv8>, output: array<bv8>, ghost n: nat,
                   r: nat, t: nat)
    requires IsCounter(mask) && a.Length == 8 && n >= 2 && 8 * n <= output.Length && a != output
    requires t > 0 && r + 1 == Target(n, t)
    modifies a, output
    ensures Apart(a, output, n) == UnwrapStep(D, mask, old(Apart(a, output, n)), t)
    ensures output[8 * n..] == old(output[8 * n..])
  {
    ghost var regs := Apart(a, output, n);
    XorWith(mask, a, t);
    var x := Get(output, n, r);
    var b := D(Pair(a[..], x));
    Put(a, 0, Hi(b));
    assert a[..] == Hi(b);
    PutRegister(output, n, r, Lo(b));
  }

  method XorWith(ghost mask: nat -> Semiblock, a: array<bv8>, t: nat)
    requires IsCounter(mask) && a.Length == 8
    modifies a
    ensures a[..] == XorSemi(old(a[..]), mask(t))
  {
    assert Asked(t);
    CalcAXorT(a, t);
    assert old(a[..8]) == old(a[..]);
  }

  /** R moves back to the register before, or to the last. */
  method Retreat(r: nat, n: nat, ghost t: nat) returns (next: nat)
    requires n >= 1 && t > 1 && r + 1 == Target(n, t)
    ensures next + 1 == Target(n, t - 1)
  {
    TargetNext(n, t - 1);
    next := if r == 0 then n - 1 else r - 1;
  }

  /** The loop of unwrap. */
  method UnwrapLoop(D: Block -> Block, ghost mask: nat -> Semiblock, a: array<bv8>, output: array<bv8>, n: nat)
    requires IsCounter(mask) && a.Length == 8 && n >= 2 && 8 * n <= output.Length && a != output
    modifies a, output
    ensures Apart(a, output, n) == UnwrapFrom(D, mask, old(Apart(a, output, n)), 6 * n)
    ensures output[8 * n..] == old(output[8 * n..])
  {
    var t: nat := 6 * n;
    var r := n - 1;
    ghost var goal := UnwrapFrom(D, mask, Apart(a, output, n), t);
    TargetLast(n);
    while t >= 1
      invariant t >= 1 ==> r + 1 == Target(n, t)
      invariant UnwrapFrom(D, mask, Apart(a, output, n), t) == goal
      invariant output[8 * n..] == old(output[8 * n..])
    {
      UnwrapOne(D, mask, a, output, n, r, t);
      if t > 1 { r := Retreat(r, n, t); }
      t := t - 1;
    }
  }

  // ---------------------------------------------------------------- the entry points

  datatype Code = Success | BadInputData | AuthFailure

  /** Bytes that wrapping `n` bytes of key material takes. */
  function WrappedLen(mode: Mode, n: nat): nat {
    match mode case KW => n + 8 case KWP => n + 8 + PadLen(n)
  }

  /** The same in 32 bits, as the size check computes it. */
  function WrappedLen32(mode: Mode, n: nat): nat
    requires n < TWO32
  {
    var m := WrappedLen(mode, n);
    if m < TWO32 then m else m - TWO32
  }

  /** The size check is right exactly when the wrapped key has a 32-bit length; for a key within 16 bytes
      of the address space it would let a buffer of 8 bytes pass. */
  lemma SizeCheckIsExact(mode: Mode, n: nat)
    requires n < TWO32 && LengthOk(mode, n)
    ensures WrappedLen32(mode, n) == WrappedLen(mode, n) <==> n + 16 <= TWO32
    ensures n + 16 > TWO32 ==> WrappedLen32(mode, n) <= 8
  {}

  lemma PrefixedParts(mode: Mode, p: seq<bv8>)
    requires LengthOk(mode, |p|) && |p| < TWO32
    ensures |Prefixed(mode, p)| == WrappedLen(mode, |p|)
    ensures mode == KW ==> Prefixed(mode, p) == ICV1 + p
    ensures mode == KWP ==> Prefixed(mode, p) == ICV2 + Be32(|p|) + p + Zeros(PadLen(|p|))
  {
    if mode == KWP { assert (ICV2 + Be32(|p|)) + Padded(p) == ICV2 + Be32(|p|) + p + Zeros(PadLen(|p|)); }
  }

  /** Copies behind the first `at` bytes, leaving what is behind `end` alone. */
  method Extend(output: array<bv8>, at: nat, src: seq<bv8>, ghost end: nat)
    requires at + |src| <= end <= output.Length
    modifies output
    ensures output[..at + |src|] == old(output[..at]) + src
    ensures output[end..] == old(output[end..])
  {
    Copy(output, at, src);
  }

  /** Four copies, one behind the other. */
  method Fill(output: array<bv8>, icv: seq<bv8>, len: seq<bv8>, input: seq<bv8>, pad: seq<bv8>)
    requires |icv| + |len| + |input| + |pad| <= output.Length
    modifies output
    ensures output[..|icv| + |len| + |input| + |pad|] == icv + len + input + pad
    ensures output[|icv| + |len| + |input| + |pad|..] == old(output[|icv| + |len| + |input| + |pad|..])
  {
    ghost var end := |icv| + |len| + |input| + |pad|;
    Extend(output, 0, icv, end);
    Extend(output, |icv|, len, end);
    Extend(output, |icv| + |len|, input, end);
    Extend(output, |icv| + |len| + |input|, pad, end);
  }

  /** Lays out the string to work on: the integrity check value, for KWP the length, the key, zeros. */
  method LayOut(mode: Mode, input: seq<bv8>, output: array<bv8>)
    requires LengthOk(mode, |input|) && |input| < TWO32 && WrappedLen(mode, |input|) <= output.Length
    modifies output
    ensures output[..WrappedLen(mode, |input|)] == Prefixed(mode, input)
    ensures output[WrappedLen(mode, |input|)..] == old(output[WrappedLen(mode, |input|)..])
  {
    PrefixedParts(mode, input);
    if mode == KW {
      LayOutKw(input, output);
    } else {
      Fill(output, ICV2, Be32(|input|), input, Zeros(PadLen(|input|)));
    }
  }

  method LayOutKw(input: seq<bv8>, output: array<bv8>)
    requires 8 + |input| <= output.Length
    modifies output
    ensures output[..8 + |input|] == ICV1 + input && output[8 + |input|..] == old(output[8 + |input|..])
  {
    Fill(output, ICV1, [], input, []);
    assert ICV1 + [] + input + [] == ICV1 + input;
  }

  /** From the string to the wrapped key, in place. */
  method Encipher(E: Block -> Block, ghost mask: nat -> Semiblock, output: array<bv8>, used: nat)
    requires IsCounter(mask) && used % 8 == 0 && 16 <= used <= output.Length
    modifies output
    ensures output[..used] == Scramble(E, mask, old(output[..used]))
    ensures output[used..] == old(output[used..])
  {
    if used == 16 {
      Copy(output, 0, E(output[..16]));
    } else {
      WrapLoop(E, mask, output, used / 8);
      JoinCut(output[..used]);
    }
  }

  /** mbedtls_nist_kw_wrap.  (A failing cipher and the check of `semiblocks` after the length checks,
      which cannot fail, are left out.) */
  method NistKwWrap(E: Block -> Block, mode: Mode, input: seq<bv8>, output: array<bv8>) returns (ret: Code, outLen: nat)
    requires |input| + 16 <= TWO32
    modifies output
    ensures ret == Success <==> LengthOk(mode, |input|) && WrappedLen(mode, |input|) <= output.Length
    ensures ret == Success ==> outLen == WrappedLen(mode, |input|) && Wrap(E, mode, input) == Ok(output[..outLen])
    ensures ret == Success ==> IsWrapped(E, mode, input, output[..outLen])
    ensures ret == Success ==> output[outLen..] == old(output[outLen..])
    ensures ret != Success ==> ret == BadInputData && outLen == 0 && output[..] == old(output[..])
  {
    var used := WrappedLen32(mode, |input|);
    if LengthOk(mode, |input|) { SizeCheckIsExact(mode, |input|); }
    if output.Length < used || !LengthOk(mode, |input|) { return BadInputData, 0; }
    LayOut(mode, input, output);
    PrefixedParts(mode, input);
    WrapIsStandard(E, mode, input);
    Encipher(E, Counter, output, used);
    ret, outLen := Success, used;
  }

  lemma CutFirst(b: seq<bv8>)
    requires |b| % 8 == 0 && |b| >= 8
    ensures Cut(b) == [b[..8]] + Cut(b[8..])
  {}

  lemma JoinApart(a: Semiblock, b: seq<bv8>)
    requires |b| % 8 == 0
    ensures Join([a] + Cut(b)) == a + b
  {
    JoinCut(b);
    assert ([a] + Cut(b))[1..] == Cut(b);
  }

  method Load(s: seq<bv8>, a: array<bv8>, output: array<bv8>)
    requires |s| >= 8 && a.Length == 8 && |s| - 8 <= output.Length && a != output
    modifies a, output
    ensures a[..] == s[..8] && output[..|s| - 8] == s[8..]
    ensures output[|s| - 8..] == old(output[|s| - 8..])
  {
    Copy(a, 0, s[..8]);
    Copy(output, 0, s[8..]);
  }

  /** unwrap */
  method UnwrapAll(D: Block -> Block, ghost mask: nat -> Semiblock, input: seq<bv8>, a: array<bv8>, output: array<bv8>)
    requires IsCounter(mask) && |input| % 8 == 0 && |input| >= 24
    requires a.Length == 8 && |input| - 8 <= output.Length && a != output
    modifies a, output
    ensures a[..] + output[..|input| - 8] == WalkBack(D, mask, input, Steps(|input|))
    ensures output[|input| - 8..] == old(output[|input| - 8..])
  {
    var n := |input| / 8 - 1;
    Load(input, a, output);
    CutFirst(input);
    assert Apart(a, output, n) == Cut(input);
    UnwrapLoop(D, mask, a, output, n);
    JoinApart(a[..], output[..8 * n]);
  }

  /** The string comes apart into A and the rest; a single block needs no walk. */
  method Decipher(D: Block -> Block, ghost mask: nat -> Semiblock, input: seq<bv8>, a: array<bv8>, output: array<bv8>)
    requires IsCounter(mask) && |input| % 8 == 0 && |input| >= 16
    requires a.Length == 8 && |input| - 8 <= output.Length && a != output
    modifies a, output
    ensures a[..] + output[..|input| - 8] == Unscramble(D, mask, input)
    ensures output[|input| - 8..] == old(output[|input| - 8..])
  {
    if |input| == 16 {
      var b := D(input);
      Load(b, a, output);
    } else {
      UnwrapAll(D, mask, input, a, output);
    }
  }

  method Equal(x: seq<bv8>, y: seq<bv8>) returns (same: bool)
    requires |x| == |y|
    ensures same <==> x == y
  {
    var diff := CtMemory.Memcmp(Ints(x), Ints(y), false);
    BvsInts(x);
    BvsInts(y);
    same := diff == 0;
  }

  /** The last `padlen` of eight bytes are zero. */
  method PaddingIsZero(last: Semiblock, padlen: nat) returns (zero: bool)
    requires padlen < 8
    ensures zero <==> last[8 - padlen..] == Zeros(padlen)
  {
    var x, y := Ints(last), Ints(Zeros(8));
    var diff := CtMemory.MemcmpPartial(x, y, 8 - padlen, 0);
    zero := diff == 0;
    IntsTail(last, 8 - padlen);
    IntsTail(Zeros(8), 8 - padlen);
    assert x[8 - padlen..8] == x[8 - padlen..] && y[8 - padlen..8] == y[8 - padlen..];
    IntsSame(last[8 - padlen..], Zeros(8)[8 - padlen..]);
    assert Zeros(8)[8 - padlen..] == Zeros(padlen);
  }

  lemma IntsSame(x: seq<bv8>, y: seq<bv8>)
    ensures Ints(x) == Ints(y) <==> x == y
  {
    BvsInts(x);
    BvsInts(y);
  }

  lemma IntsTail(b: seq<bv8>, k: nat)
    requires k <= |b|
    ensures Ints(b)[k..] == Ints(b[k..])
  {}

  /** The checks of KWP, none of which is skipped when another has failed. */
  method Check(a: Semiblock, rest: seq<bv8>, len: nat) returns (ok: bool)
    requires |rest| % 8 == 0 && 8 <= |rest| < TWO32 - 8 && len < TWO32
    ensures ok <==> Fits(a + rest, len)
    ensures ok ==> len <= |rest|
  {
    ok := Equal(ICV2, a[..4]);
    var padlen := Minus32(|rest|, len);
    var tooLong := CtMemory.UintGt(padlen, 7);
    var zero := PaddingIsZero(rest[|rest| - 8..], padlen % 8);
    ok := ok && tooLong == CT.FALSE && zero;
    PadLenExact(|rest| + 8, len);
    FitsParts(a, rest, len, padlen);
  }

  lemma FitsParts(a: Semiblock, rest: seq<bv8>, len: nat, padlen: nat)
    requires 8 <= |rest| < TWO32 - 8 && len < TWO32 && padlen == Minus32(|rest|, len)
    ensures Fits(a + rest, len) <==> a[..4] == ICV2 && padlen <= 7 && rest[|rest| - 8..][8 - padlen..] == Zeros(padlen)
  {
    var s := a + rest;
    assert s[..4] == a[..4];
    if padlen <= 7 { assert s[|s| - padlen..] == rest[|rest| - 8..][8 - padlen..]; }
  }

  lemma Front(a: Semiblock, rest: seq<bv8>)
    ensures (a + rest)[..8] == a && (a + rest)[8..] == rest && (a + rest)[4..8] == a[4..8]
    ensures forall n :: 0 <= n <= |rest| ==> (a + rest)[8..8 + n] == rest[..n]
  {}

  method Authenticate(mode: Mode, a: Semiblock, rest: seq<bv8>) returns (ok: bool, len: nat)
    requires |rest| % 8 == 0 && 8 <= |rest| < TWO32 - 8
    ensures ok <==> Authentic(mode, a + rest)
    ensures ok ==> len <= |rest| && rest[..len] == Key(mode, a + rest)
  {
    Front(a, rest);
    if mode == KW {
      ok := Equal(ICV1, a);
      len := |rest|;
    } else {
      len := FromBe32(a[4..8]);
      ok := Check(a, rest, len);
    }
  }

  method Open(D: Block -> Block, ghost mask: nat -> Semiblock, mode: Mode, input: seq<bv8>, output: array<bv8>)
    returns (ok: bool, len: nat)
    requires IsCounter(mask) && |input| % 8 == 0 && 16 <= |input| < TWO32 && |input| - 8 <= output.Length
    modifies output
    ensures ok <==> Authentic(mode, Unscramble(D, mask, input))
    ensures ok ==> len <= |input| - 8 && output[..len] == Key(mode, Unscramble(D, mask, input))
    ensures output[|input| - 8..] == old(output[|input| - 8..])
  {
    var a := new bv8[8];
    Decipher(D, mask, input, a, output);
    var rest := output[..|input| - 8];
    ok, len := Authenticate(mode, a[..], rest);
    assert ok ==> rest[..len] == output[..len];
  }

  method OpenResult(D: Block -> Block, ghost mask: nat -> Semiblock, mode: Mode, input: seq<bv8>, output: array<bv8>)
    returns (ok: bool, len: nat)
    requires IsCounter(mask) && CipherLengthOk(mode, |input|) && |input| < TWO32 && |input| - 8 <= output.Length
    modifies output
    ensures len <= |input| - 8 && UnwrapWith(D, mask, mode, input) == if ok then Ok(output[..len]) else AuthFailed
    ensures !ok ==> len == 0
    ensures output[|input| - 8..] == old(output[|input| - 8..])
  {
    ok, len := Open(D, mask, mode, input, output);
    if !ok { len := 0; }
  }

  /** What unwrapping leaves behind in an output buffer whose first `n` bytes it may use: on success the
      key and zeros, on failed authentication zeros only, on bad input what was there before. */
  ghost predicate Leaves(result: Result, n: int, before: seq<bv8>, after: seq<bv8>, ret: Code, outLen: nat) {
    var ok := match result
      case BadInput => ret == BadInputData && outLen == 0 && after == before
      case AuthFailed => ret == AuthFailure && outLen == 0 && 0 <= n <= |before| && after == Zeros(n) + before[n..]
      case Ok(p) => ret == Success && outLen == |p| <= n <= |before| && after == p + Zeros(n - |p|) + before[n..];
    ok
  }

  /** Clears what is behind the first `len` of the `n` bytes used. */
  method Settle(output: array<bv8>, len: nat, n: nat, ghost before: seq<bv8>, ok: bool, ghost result: Result)
    returns (ret: Code)
    requires len <= n <= output.Length == |before| && output[n..] == before[n..] && (!ok ==> len == 0)
    requires result == if ok then Ok(output[..len]) else AuthFailed
    modifies output
    ensures Leaves(result, n, before, output[..], ret, len)
  {
    ghost var now := output[..];
    assert now[..len] == output[..len];
    ret := if ok then Success else AuthFailure;
    Copy(output, len, Zeros(n - len));
    LeavesThis(result, n, before, now, output[..], ret, len);
  }

  method UnwrapChecked(D: Block -> Block, ghost mask: nat -> Semiblock, mode: Mode, input: seq<bv8>, output: array<bv8>)
    returns (ret: Code, outLen: nat)
    requires IsCounter(mask) && CipherLengthOk(mode, |input|) && |input| < TWO32 && |input| - 8 <= output.Length
    modifies output
    ensures Leaves(UnwrapWith(D, mask, mode, input), |input| - 8, old(output[..]), output[..], ret, outLen)
  {
    ghost var before := output[..];
    var ok;
    ok, outLen := OpenResult(D, mask, mode, input, output);
    assert before[|input| - 8..] == output[|input| - 8..];
    ret := Settle(output, outLen, |input| - 8, before, ok, UnwrapWith(D, mask, mode, input));
  }

  lemma LeavesThis(result: Result, n: nat, before: seq<bv8>, now: seq<bv8>, after: seq<bv8>, ret: Code, outLen: nat)
    requires outLen <= n <= |before| == |now| && after == now[..outLen] + Zeros(n - outLen) + before[n..]
    requires || (ret == Success && result == Ok(now[..outLen]))
             || (ret == AuthFailure && result == AuthFailed && outLen == 0)
    ensures Leaves(result, n, before, after, ret, outLen)
  {}

  /** mbedtls_nist_kw_unwrap.  The size check subtracts in 32 bits. */
  method NistKwUnwrap(D: Block -> Block, mode: Mode, input: seq<bv8>, output: array<bv8>) returns (ret: Code,
                      outLen: nat)
    requires |input| < TWO32
    modifies output
    ensures output.Length < Minus32(|input|, 8) ==> ret == BadInputData && outLen == 0 && output[..] == old(output[..])
    ensures output.Length >= Minus32(|input|, 8) ==>
      Leaves(Unwrap(D, mode, input), |input| - 8, old(output[..]), output[..], ret, outLen)
  {
    if output.Length < Minus32(|input|, 8) || !CipherLengthOk(mode, |input|) { return BadInputData, 0; }
    ret, outLen := UnwrapChecked(D, Counter, mode, input, output);
  }
}
