/** Incremental SHA-1 (sha1.twl.c): for every way of cutting a message into updates, finish returns the
    digest of the whole message, with the padding of section 5.1.1 of FIPS 180-4. */
module Sha1 {
  import opened Bytes
  import opened Sha1Compress
  import CT = ConstantTime

  type Compressor = (State, Chunk) -> State

  const IV := State(0x67452301, 0xEFCDAB89, 0x98BADCFE, 0x10325476, 0xC3D2E1F0)

  function Compress(s: State, data: Chunk): State { CompressWith(Sigma, Round, s, data) }

  /** The state after the chunks of `s`. */
  function Fold(C: Compressor, h: State, s: seq<bv8>): State
    requires |s| % 64 == 0
    decreases |s|
  {
    if s == [] then h else Fold(C, C(h, s[..64]), s[64..])
  }

  lemma {:induction false} FoldAppend(C: Compressor, h: State, s: seq<bv8>, d: Chunk)
    requires |s| % 64 == 0
    ensures Fold(C, h, s + d) == C(Fold(C, h, s), d)
    decreases |s|
  {
    if s == [] {
      assert s + d == d && d[..64] == d && d[64..] == [];
    } else {
      FoldAppend(C, C(h, s[..64]), s[64..], d);
      assert (s + d)[..64] == s[..64] && (s + d)[64..] == s[64..] + d;
    }
  }

  // ---------------------------------------------------------------- padding

  /** Zero bytes between the mark and the length: the fewest that fill up a chunk. */
  function PadZeros(n: nat): (k: nat)
    ensures k < 64 && (n + 1 + k + 8) % 64 == 0
  {
    var u := n % 64;
    if u < 56 then 55 - u else 119 - u
  }

  /** The length in bits, in 64 bits. */
  function LengthField(n: nat): (b: seq<bv8>)
    ensures |b| == 8
  {
    BeBytes(8 * n, 8)
  }

  function PaddedWith(m: seq<bv8>, length: seq<bv8>): (p: seq<bv8>)
    requires |length| == 8
    ensures |p| % 64 == 0
  {
    m + [0x80] + Zeros(PadZeros(|m|)) + length
  }

  function Padded(m: seq<bv8>): (p: seq<bv8>)
    ensures |p| % 64 == 0
  {
    PaddedWith(m, LengthField(|m|))
  }

  function WordBytes(w: bv32): (b: seq<bv8>)
    ensures |b| == 4
  {
    [(w >> 24) as bv8, ((w >> 16) & 0xff) as bv8, ((w >> 8) & 0xff) as bv8, (w & 0xff) as bv8]
  }

  function Output(s: State): (b: seq<bv8>)
    ensures |b| == 20
  {
    WordBytes(s.a) + WordBytes(s.b) + WordBytes(s.c) + WordBytes(s.d) + WordBytes(s.e)
  }

  /** The digest, with compression function `C`. */
  function DigestWith(C: Compressor, m: seq<bv8>): (b: seq<bv8>)
    ensures |b| == 20
  {
    Output(Fold(C, IV, Padded(m)))
  }

  function Digest(m: seq<bv8>): (b: seq<bv8>)
    ensures |b| == 20
  {
    DigestWith(Compress, m)
  }

  /** Section 5.1.1 of FIPS 180-4, byte by byte: the message, the bit 1, as few zeros as fill up a chunk, and
      the length in bits as a 64-bit number. */
  lemma PaddedIs(m: seq<bv8>)
    ensures var p := Padded(m);
      && |p| % 64 == 0 && |m| + 9 <= |p| < |m| + 9 + 64 && p[..|m|] == m && p[|m|] == 0x80
      && (forall i :: |m| < i < |p| - 8 ==> p[i] == 0)
      && BeValue(p[|p| - 8..]) == 8 * |m| % Pow256(8)
  {
    var p, length := Padded(m), LengthField(|m|);
    BeValueOf(8 * |m|, 8);
    assert p[|p| - 8..] == length;
  }

  lemma WordOfBytes(w: bv32)
    ensures WordBe(WordBytes(w)) == w
  {}

  /** The digest is the five registers in order, each most significant byte first. */
  lemma OutputIs(s: State)
    ensures var b := Output(s);
      && WordBe(b[..4]) == s.a && WordBe(b[4..8]) == s.b && WordBe(b[8..12]) == s.c && WordBe(b[12..16]) == s.d
      && WordBe(b[16..]) == s.e
  {
    var b := Output(s);
    assert b[..4] == WordBytes(s.a) && b[4..8] == WordBytes(s.b) && b[8..12] == WordBytes(s.c);
    assert b[12..16] == WordBytes(s.d) && b[16..] == WordBytes(s.e);
    WordOfBytes(s.a);
    WordOfBytes(s.b);
    WordOfBytes(s.c);
    WordOfBytes(s.d);
    WordOfBytes(s.e);
  }

  /** The digest is the state after all chunks of the padded message. */
  lemma DigestIs(C: Compressor, m: seq<bv8>)
    ensures var d, h := DigestWith(C, m), Fold(C, IV, Padded(m));
      && WordBe(d[..4]) == h.a && WordBe(d[4..8]) == h.b && WordBe(d[8..12]) == h.c && WordBe(d[12..16]) == h.d
      && WordBe(d[16..]) == h.e
  {
    OutputIs(Fold(C, IV, Padded(m)));
  }

  /** Byte i of a word, least significant first. */
  function ByteOf(w: bv32, i: nat): bv32
    requires i < 4
  {
    if i == 0 then w & 0xff else if i == 1 then (w >> 8) & 0xff else if i == 2 then (w >> 16) & 0xff else w >> 24
  }

  /** Section 5.3.1: the initial value counts 01 23 45 .. EF up, FE DC .. 10 down, and F0 E1 D2 C3 down. */
  lemma InitialPattern(i: nat)
    requires i < 4
    ensures ByteOf(IV.a, i) as int == 0x01 + 0x22 * i && ByteOf(IV.b, i) as int == 0x89 + 0x22 * i
    ensures ByteOf(IV.c, i) as int == 0xFE - 0x22 * i && ByteOf(IV.d, i) as int == 0x76 - 0x22 * i
    ensures ByteOf(IV.e, i) as int == 0xF0 - 0x0F * i
  {}

  // ---------------------------------------------------------------- the length field

  /** x | y where the bits of y are all above those of x. */
  lemma OrDisjoint(x: nat, y: nat, n: nat)
    requires x < 8 && y < CT.Pow2(n)
    ensures CT.Bitwise(CT.Or, x, 8 * y, n + 3) == x + 8 * y
  {
    CT.OrZero(y, n);
    assert CT.Bitwise(CT.Or, x / 4, 2 * y, n + 1) == x / 4 + 2 * y;
    assert CT.Bitwise(CT.Or, x / 2, 4 * y, n + 2) == x / 2 + 4 * y;
  }

  const TWO29 := 0x2000_0000

  lemma BitLength(n: nat, wraps: nat, total1: nat, total0: nat)
    requires n == (wraps * TWO32 + total1) * TWO32 + total0 && total0 < TWO32 && total1 < TWO32
    ensures var high, low := total0 / TWO29 + 8 * (total1 % TWO29), 8 * (total0 % TWO29);
      high < TWO32 && low < TWO32 && 8 * n == ((8 * wraps + total1 / TWO29) * TWO32 + high) * TWO32 + low
  {}

  /** The two words written behind the padding are the bit length of all `n` bytes, mod 2^64. */
  lemma LengthWords(n: nat, wraps: nat, total1: nat, total0: nat)
    requires n == (wraps * TWO32 + total1) * TWO32 + total0 && total0 < TWO32 && total1 < TWO32
    ensures LengthField(n) == Be32(total0 / TWO29 + 8 * (total1 % TWO29)) + Be32(8 * (total0 % TWO29))
  {
    BitLength(n, wraps, total1, total0);
    TwoWords(8 * n, 8 * wraps + total1 / TWO29, total0 / TWO29 + 8 * (total1 % TWO29), 8 * (total0 % TWO29));
  }

  lemma TwoWords(n: nat, top: nat, high: nat, low: nat)
    requires high < TWO32 && low < TWO32 && n == (top * TWO32 + high) * TWO32 + low
    ensures BeBytes(n, 8) == Be32(high) + Be32(low)
  {
    BeSplit(n, 4, 4);
    LowBytes(n, top * TWO32 + high, low);
    LowBytes(top * TWO32 + high, top, high);
    ShrFour(n);
  }

  /** (total0 >> 29) | (total1 << 3) */
  method HighWord(total1: nat, total0: nat) returns (high: nat)
    requires total0 < TWO32 && total1 < TWO32
    ensures high == total0 / TWO29 + 8 * (total1 % TWO29)
  {
    CT.WordIsPow();
    CT.PowAdd(3, 29);
    OrDisjoint(total0 / TWO29, total1 % TWO29, 29);
    high := CT.Bits(CT.Or, total0 / TWO29, 8 * (total1 % TWO29));
  }

  method LengthBytes(total1: nat, total0: nat, ghost n: nat, ghost wraps: nat) returns (b: seq<bv8>)
    requires n == (wraps * TWO32 + total1) * TWO32 + total0 && total0 < TWO32 && total1 < TWO32
    ensures b == LengthField(n)
  {
    LengthWords(n, wraps, total1, total0);
    var high := HighWord(total1, total0);
    var low := 8 * (total0 % TWO29);
    b := Be32(high) + Be32(low);
  }

  // ---------------------------------------------------------------- the context

  predicate AskedChunk(s: State, d: Chunk) { true }

  /** The layers above know Compress only as some `C`; asking for a value says what it is. */
  ghost predicate IsCompress(C: Compressor) {
    forall s, d {:trigger AskedChunk(s, d)} :: AskedChunk(s, d) ==> C(s, d) == Compress(s, d)
  }

  method ProcessChunk(ghost C: Compressor, s: State, d: Chunk) returns (r: State)
    requires IsCompress(C)
    ensures r == C(s, d)
  {
    assert AskedChunk(s, d);
    r := Process(s, d, Sigma, Round);
  }

  predicate Asked(b: bool) { true }

  class Sha1Context {
    ghost const C: Compressor
    const buffer: array<bv8>
    var total0: nat
    var total1: nat
    var state: State
    ghost var msg: seq<bv8>
    ghost var done: seq<bv8>
    ghost var wraps: nat

    /** The chunks so far are in the state; only code that asks needs to know how. */
    ghost predicate Hashed()
      requires |done| % 64 == 0
      reads this`state, this`done
    {
      forall b {:trigger Asked(b)} :: Asked(b) ==> state == Fold(C, IV, done)
    }

    ghost predicate Folded()
      reads this
    {
      buffer.Length == 64 && IsCompress(C) && |done| % 64 == 0 && Hashed()
    }

    /** The two words count all bytes, mod 2^64. */
    ghost predicate Counted()
      reads this
    {
      total0 < TWO32 && total1 < TWO32 && |msg| == (wraps * TWO32 + total1) * TWO32 + total0
    }

    ghost predicate Valid()
      reads this, buffer
    {
      && Folded()
      && Counted()
      && msg == done + buffer[..total0 % 64]
    }

    constructor (ghost C: Compressor)
      requires IsCompress(C)
      ensures Valid() && msg == [] && this.C == C && fresh(buffer)
    {
      this.C := C;
      buffer := new bv8[64](_ => 0);
      total0, total1, state := 0, 0, IV;
      msg, done, wraps := [], [], 0;
    }

    /** mbedtls_sha1_starts */
    method Starts()
      requires IsCompress(C) && buffer.Length == 64
      modifies this
      ensures Valid() && msg == []
    {
      total0, total1, state := 0, 0, IV;
      msg, done, wraps := [], [], 0;
    }

    /** The 64-bit count in two words. */
    method Count(n: nat)
      requires Counted() && n < TWO32
      modifies this`total0, this`total1, this`wraps
      ensures total0 < TWO32 && total1 < TWO32 && |msg| + n == (wraps * TWO32 + total1) * TWO32 + total0
    {
      total0 := total0 + n;
      if total0 >= TWO32 { total0 := total0 - TWO32; } // 32-bit addition
      if total0 < n {
        total1 := total1 + 1;
        if total1 == TWO32 { total1, wraps := 0, wraps + 1; }
      }
    }

    method Store(at: nat, input: seq<bv8>)
      requires buffer.Length == 64 && at + |input| <= 64
      modifies buffer
      ensures buffer[..at + |input|] == old(buffer[..at]) + input
      ensures buffer[at + |input|..] == old(buffer[at + |input|..])
    {
      for i := 0 to |input|
        invariant forall j :: 0 <= j < 64 && !(at <= j < at + i) ==> buffer[j] == old(buffer[j])
        invariant forall j :: 0 <= j < i ==> buffer[at + j] == input[j]
      {
        buffer[at + i] := input[i];
      }
    }

    method Chunk(d: Chunk)
      requires Folded()
      modifies this`state, this`done
      ensures Folded() && done == old(done) + d
    {
      assert Asked(true);
      FoldAppend(C, IV, done, d);
      state := ProcessChunk(C, state, d);
      done := done + d;
    }

    /** The whole chunks of `input`; what is left of it is returned. */
    method Chunks(input: seq<bv8>) returns (rest: seq<bv8>)
      requires Folded()
      modifies this`state, this`done
      ensures Folded() && |rest| < 64 && done + rest == old(done) + input
    {
      rest := input;
      while |rest| >= 64
        invariant Folded() && done + rest == old(done) + input
        decreases |rest|
      {
        Regroup(done, rest);
        Chunk(rest[..64]);
        rest := rest[64..];
      }
    }

    /** Completes the held chunk, if the input reaches that far. */
    method TopUp(left: nat, input: seq<bv8>) returns (left': nat, rest: seq<bv8>)
      requires Folded() && left < 64
      modifies this`state, this`done, buffer
      ensures Folded() && left' < 64 && (left' == 0 || left' + |rest| < 64)
      ensures done + buffer[..left'] + rest == old(done) + old(buffer[..left]) + input
    {
      left', rest := left, input;
      if left > 0 && |input| >= 64 - left {
        FillUp(done, buffer[..left], input);
        Store(left, input[..64 - left]);
        assert buffer[..] == buffer[..64];
        Chunk(buffer[..]);
        left', rest := 0, input[64 - left..];
      }
      assert buffer[..0] == [];
    }

    /** Takes the input through the buffer, which holds `left` bytes before and `left'` after. */
    method Absorb(left: nat, input: seq<bv8>) returns (left': nat)
      requires Folded() && left < 64
      modifies this`state, this`done, buffer
      ensures Folded() && left' < 64
      ensures done + buffer[..left'] == old(done) + old(buffer[..left]) + input
    {
      var rest;
      left', rest := TopUp(left, input);
      if |rest| >= 64 {
        assert buffer[..0] == [] && done + [] == done;
        rest := Chunks(rest);
      }
      Assoc(done, buffer[..left'], rest);
      Store(left', rest);
      left' := left' + |rest|;
    }

    /** mbedtls_sha1_update */
    method Update(input: seq<bv8>)
      requires Valid() && |input| < TWO32
      modifies this`total0, this`total1, this`state, this`msg, this`done, this`wraps, buffer
      ensures Valid() && msg == old(msg) + input
    {
      if |input| == 0 {
        assert msg + input == msg;
        return;
      }
      var left := total0 % 64;
      Count(|input|);
      left := Absorb(left, input);
      msg := msg + input;
      Remainder(|msg|, |done|, left, wraps * TWO32 + total1, total0);
    }

    /** The end of the message, the mark, zeros and the length, in one chunk or two. */
    method PadOut(length: seq<bv8>)
      requires Valid() && |length| == 8
      modifies this`state, this`done, buffer
      ensures Folded() && done == PaddedWith(msg, length)
    {
      var used := total0 % 64;
      Remainder(|msg|, |done|, used, wraps * TWO32 + total1, total0);
      PadParts(done, buffer[..used], length);
      Store(used, [0x80]);
      used := used + 1;
      if used <= 56 {
        Store(used, Zeros(56 - used));
      } else {
        Store(used, Zeros(64 - used));
        Flush();
        Store(0, Zeros(56));
      }
      Store(56, length);
      Flush();
    }

    /** The buffer as a chunk. */
    method Flush()
      requires Folded()
      modifies this`state, this`done
      ensures Folded() && done == old(done) + buffer[..64]
    {
      assert buffer[..] == buffer[..64];
      Chunk(buffer[..]);
    }

    /** mbedtls_sha1_finish; the context must be started again before its next use. */
    method Finish() returns (output: seq<bv8>)
      requires Valid()
      modifies this`state, this`done, this`total0, this`total1, buffer
      ensures output == DigestWith(C, msg)
    {
      var length := LengthBytes(total1, total0, |msg|, wraps);
      PadOut(length);
      assert Asked(true);
      output := Output(state);
      total0, total1, state := 0, 0, State(0, 0, 0, 0, 0);
    }
  }

  lemma Remainder(n: nat, d: nat, r: nat, high: nat, total0: nat)
    requires d % 64 == 0 && r < 64 && n == d + r && n == high * TWO32 + total0
    ensures total0 % 64 == r && n % 64 == r
  {}

  lemma PadParts(done: seq<bv8>, held: seq<bv8>, length: seq<bv8>)
    requires |done| % 64 == 0 && |held| < 64 && |length| == 8
    ensures |held| < 56 ==> PaddedWith(done + held, length) == done + (held + [0x80] + Zeros(55 - |held|) + length)
    ensures |held| >= 56 ==>
      PaddedWith(done + held, length) == done + (held + [0x80] + Zeros(63 - |held|)) + (Zeros(56) + length)
  {
    var u := |held|;
    assert u >= 56 ==> Zeros(119 - u) == Zeros(63 - u) + Zeros(56);
  }

  lemma Regroup(done: seq<bv8>, rest: seq<bv8>)
    requires |rest| >= 64
    ensures done + rest[..64] + rest[64..] == done + rest
  {
    assert rest[..64] + rest[64..] == rest;
  }

  lemma FillUp(done: seq<bv8>, held: seq<bv8>, input: seq<bv8>)
    requires |held| <= 64 <= |held| + |input|
    ensures done + (held + input[..64 - |held|]) + input[64 - |held|..] == done + held + input
  {}

  ghost predicate Short(chunks: seq<seq<bv8>>) { forall i :: 0 <= i < |chunks| ==> |chunks[i]| < TWO32 }

  /** Any way of cutting a message into updates gives the digest of the message. */
  method HashWith(ghost C: Compressor, chunks: seq<seq<bv8>>) returns (output: seq<bv8>)
    requires IsCompress(C) && Short(chunks)
    ensures output == DigestWith(C, Flatten(chunks))
  {
    var ctx := new Sha1Context(C);
    for i := 0 to |chunks|
      invariant fresh(ctx) && fresh(ctx.buffer) && ctx.Valid() && ctx.msg == Flatten(chunks[..i])
    {
      FlattenNext(chunks, i);
      ctx.Update(chunks[i]);
    }
    assert chunks[..|chunks|] == chunks;
    output := ctx.Finish();
  }

  method HashChunks(chunks: seq<seq<bv8>>) returns (output: seq<bv8>)
    requires Short(chunks)
    ensures output == Digest(Flatten(chunks))
  {
    output := HashWith(Compress, chunks);
  }
}
