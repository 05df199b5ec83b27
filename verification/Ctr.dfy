/** Counter mode (aes.twl.c and ctr.h) over any 16-byte block function: over any sequence of calls,
    byte k of the keystream is byte k mod 16 of E(nonce + k / 16), section 6.5 of NIST SP 800-38A. */
module Ctr {
  import opened Bytes

  // ---------------------------------------------------------------- the counter block

  const ZERO: seq<bv8> := [0, 0, 0, 0]

  type Quad = w: seq<bv8> | |w| == 4 witness ZERO

  function Next32(x: nat): (y: nat)
    requires x < TWO32
    ensures y < TWO32
  {
    if x + 1 == TWO32 then 0 else x + 1
  }

  /** x += 1 on a 32-bit word in memory. */
  function Bump(w: Quad): Quad { Be32(Next32(FromBe32(w))) }

  /** Increment word by word from the end, going on to the word before when a word becomes zero. */
  function IncWords(bump: Quad -> Quad, b: seq<bv8>): (r: seq<bv8>)
    ensures |r| == |b|
    decreases |b|
  {
    if |b| < 4 then b else
      var x := bump(b[|b| - 4..]);
      (if x != ZERO then b[..|b| - 4] else IncWords(bump, b[..|b| - 4])) + x
  }

  lemma BumpBe(low: nat)
    requires low < TWO32
    ensures Bump(Be32(low)) == Be32(Next32(low)) && (Be32(low) == ZERO <==> low == 0)
  {
    Be32RoundTrip(low);
    Be32RoundTrip(0);
    assert Be32(0) == ZERO;
  }

  // IncWords knows Bump only as some `bump`; asking for a word says what it is.
  predicate AskedWord(w: Quad) { true }
  ghost predicate IsBump(bump: Quad -> Quad) { forall w {:trigger AskedWord(w)} :: AskedWord(w) ==> bump(w) == Bump(w) }

  lemma Bumped(bump: Quad -> Quad, low: nat)
    requires IsBump(bump) && low < TWO32
    ensures bump(Be32(low)) == Be32(Next32(low)) && (Be32(Next32(low)) == ZERO <==> Next32(low) == 0)
  {
    assert AskedWord(Be32(low));
    BumpBe(low);
    BumpBe(Next32(low));
  }

  lemma Words(n: nat, q: nat, low: nat, k: nat)
    requires n == q * TWO32 + low && low < TWO32
    ensures BeBytes(n, 4 * k + 4) == BeBytes(q, 4 * k) + Be32(low)
  {
    BeSplit(n, 4 * k, 4);
    LowBytes(n, q, low);
    ShrFour(n);
  }

  lemma IncLast(bump: Quad -> Quad, init: seq<bv8>, w: Quad)
    ensures IncWords(bump, init + w) == (if bump(w) != ZERO then init else IncWords(bump, init)) + bump(w)
  {
    var b := init + w;
    assert b[|b| - 4..] == w && b[..|b| - 4] == init;
  }

  lemma Carry(bump: Quad -> Quad, all: seq<bv8>, init: seq<bv8>, w: Quad, all': seq<bv8>, init': seq<bv8>)
    requires all == init + w && all' == init' + bump(w)
    requires init' == if bump(w) != ZERO then init else IncWords(bump, init)
    ensures IncWords(bump, all) == all'
  {
    IncLast(bump, init, w);
  }

  /** The carry over words is big-endian + 1, modulo the size of the block. */
  lemma {:induction false} IncWordsBe(bump: Quad -> Quad, n: nat, k: nat)
    requires IsBump(bump)
    ensures IncWords(bump, BeBytes(n, 4 * k)) == BeBytes(n + 1, 4 * k)
    decreases k, 0
  {
    if k > 0 { IncMore(bump, n, n / TWO32, n % TWO32, k - 1); }
  }

  lemma {:induction false} IncMore(bump: Quad -> Quad, n: nat, q: nat, low: nat, k: nat)
    requires IsBump(bump) && n == q * TWO32 + low && low < TWO32
    ensures IncWords(bump, BeBytes(n, 4 * k + 4)) == BeBytes(n + 1, 4 * k + 4)
    decreases k, 1
  {
    if low + 1 == TWO32 {
      IncWordsBe(bump, q, k);
      IncCase(bump, n, q, low, q + 1, k);
    } else {
      IncCase(bump, n, q, low, q, k);
    }
  }

  lemma IncCase(bump: Quad -> Quad, n: nat, q: nat, low: nat, q': nat, k: nat)
    requires IsBump(bump) && n == q * TWO32 + low && low < TWO32 && n + 1 == q' * TWO32 + Next32(low)
    requires BeBytes(q', 4 * k) == if Next32(low) != 0 then BeBytes(q, 4 * k) else IncWords(bump, BeBytes(q, 4 * k))
    ensures IncWords(bump, BeBytes(n, 4 * k + 4)) == BeBytes(n + 1, 4 * k + 4)
  {
    Words(n, q, low, k);
    Words(n + 1, q', Next32(low), k);
    Bumped(bump, low);
    Carry(bump, BeBytes(n, 4 * k + 4), BeBytes(q, 4 * k), Be32(low), BeBytes(n + 1, 4 * k + 4), BeBytes(q', 4 * k));
  }

  method BumpWord(w: Quad, ghost bump: Quad -> Quad) returns (x: Quad, zero: bool)
    requires IsBump(bump)
    ensures x == bump(w) && (zero <==> x == ZERO)
  {
    assert AskedWord(w);
    var y := Next32(FromBe32(w));
    BumpBe(y);
    x, zero := Be32(y), y == 0;
  }

  /** The words behind `at` are done, with a carry into the word at `at`; the words up to it are as before. */
  ghost predicate Pending(bump: Quad -> Quad, before: seq<bv8>, n: seq<bv8>, at: nat) {
    var ok := |n| == |before| && at + 4 <= |n| && n[..at + 4] == before[..at + 4]
      && IncWords(bump, before) == IncWords(bump, n[..at + 4]) + n[at + 4..];
    ok
  }

  lemma WordDone(bump: Quad -> Quad, before: seq<bv8>, n: seq<bv8>, at: nat, n': seq<bv8>)
    requires Pending(bump, before, n, at) && n' == n[..at] + bump(n[at..at + 4]) + n[at + 4..]
    ensures bump(n[at..at + 4]) != ZERO || at == 0 ==> n' == IncWords(bump, before)
    ensures bump(n[at..at + 4]) == ZERO && at >= 4 ==> Pending(bump, before, n', at - 4)
  {
    var init, w, tail := n[..at], n[at..at + 4], n[at + 4..];
    assert n[..at + 4] == init + w;
    IncLast(bump, init, w);
    Assoc(if bump(w) != ZERO then init else IncWords(bump, init), bump(w), tail);
    Parts(init, bump(w), tail, n');
    Shorter(n, before, at);
  }

  lemma Parts(init: seq<bv8>, x: seq<bv8>, tail: seq<bv8>, n: seq<bv8>)
    requires n == init + x + tail
    ensures n[..|init|] == init && n[|init|..] == x + tail
  {}

  lemma Shorter(n: seq<bv8>, before: seq<bv8>, at: nat)
    requires at + 4 <= |n| == |before| && n[..at + 4] == before[..at + 4]
    ensures n[..at] == before[..at]
  {
    assert n[..at + 4][..at] == n[..at] && before[..at + 4][..at] == before[..at];
  }

  /** mbedtls_ctr_increment_counter */
  method IncrementCounter(n: array<bv8>, ghost bump: Quad -> Quad)
    requires n.Length == 16 && IsBump(bump)
    modifies n
    ensures n[..] == IncWords(bump, old(n[..]))
  {
    ghost var before := n[..];
    var i := 3;
    assert before[..16] == before;
    while true
      invariant 0 <= i <= 3 && Pending(bump, before, n[..], 4 * i)
      decreases i
    {
      ghost var now := n[..];
      assert now[4 * i..4 * i + 4] == n[4 * i..4 * i + 4];
      var x, zero := BumpWord(n[4 * i..4 * i + 4], bump);
      PutWord(n, 4 * i, x);
      WordDone(bump, before, now, 4 * i, n[..]);
      if !zero || i == 0 { break; }
      i := i - 1;
    }
  }

  method PutWord(n: array<bv8>, at: nat, w: Quad)
    requires at + 4 <= n.Length
    modifies n
    ensures n[..] == old(n[..at]) + w + old(n[at + 4..])
  {
    n[at], n[at + 1], n[at + 2], n[at + 3] := w[0], w[1], w[2], w[3];
  }

  // ---------------------------------------------------------------- the mode

  type Count = nat -> Block

  /** The counter block with value n mod 2^128. */
  const WIDTH: nat := 16

  function CounterBlock(n: nat): Block { BeBytes(n, WIDTH) }

  /** Byte k of the keystream. */
  function Key(E: Block -> Block, count: Count, n0: nat, k: nat): bv8 { E(count(n0 + k / 16))[k % 16] }

  /** `s`, standing at position p of the message, under the keystream. */
  function Crypted(E: Block -> Block, count: Count, n0: nat, p: nat, s: seq<bv8>): (r: seq<bv8>)
    ensures |r| == |s|
  {
    seq(|s|, i requires 0 <= i < |s| => s[i] ^ Key(E, count, n0, p + i))
  }

  /** Two calls in a row are one call on the two inputs together. */
  lemma CryptedSplit(E: Block -> Block, count: Count, n0: nat, p: nat, s: seq<bv8>, u: seq<bv8>)
    ensures Crypted(E, count, n0, p, s + u) == Crypted(E, count, n0, p, s) + Crypted(E, count, n0, p + |s|, u)
  {
    var a, b := Crypted(E, count, n0, p, s + u), Crypted(E, count, n0, p, s) + Crypted(E, count, n0, p + |s|, u);
    forall i | 0 <= i < |s| + |u| ensures a[i] == b[i] {
      if i >= |s| { assert p + i == p + |s| + (i - |s|); }
    }
  }

  lemma BitsTwice(x: bv8, y: bv8)
    ensures (x ^ y) ^ y == x
  {}

  /** Applying it twice is the identity. */
  lemma CryptedTwice(E: Block -> Block, count: Count, n0: nat, p: nat, s: seq<bv8>)
    ensures Crypted(E, count, n0, p, Crypted(E, count, n0, p, s)) == s
  {
    var c := Crypted(E, count, n0, p, s);
    forall i | 0 <= i < |s| ensures Crypted(E, count, n0, p, c)[i] == s[i] {
      BitsTwice(s[i], Key(E, count, n0, p + i));
    }
  }

  lemma InBlock(p: nat, i: nat)
    requires p % 16 + i < 16
    ensures (p + i) / 16 == p / 16 && (p + i) % 16 == p % 16 + i
  {}

  lemma KeyInBlock(E: Block -> Block, count: Count, n0: nat, p: nat, i: nat, block: Block)
    requires Rem(p) + i < 16 && block == E(count(n0 + Quot(p)))
    ensures Key(E, count, n0, p + i) == block[Rem(p) + i]
  {
    QuotRem(p);
    InBlock(p, i);
  }

  /** Bytes that lie in one block. */
  lemma OneBlock(E: Block -> Block, count: Count, n0: nat, p: nat, s: seq<bv8>, block: Block)
    requires Rem(p) + |s| <= 16 && block == E(count(n0 + Quot(p)))
    ensures Crypted(E, count, n0, p, s) == Xor(s, block[Rem(p)..Rem(p) + |s|])
  {
    var o := Rem(p);
    var part := block[o..o + |s|];
    forall i | 0 <= i < |s| ensures Crypted(E, count, n0, p, s)[i] == Xor(s, part)[i] {
      KeyInBlock(E, count, n0, p, i, block);
      assert part[i] == block[o + i];
    }
  }

  // Positions, as p / 16 and p % 16

  function Quot(p: nat): nat { if p < 16 then 0 else 1 + Quot(p - 16) }
  function Rem(p: nat): (r: nat) ensures r < 16 { if p < 16 then p else Rem(p - 16) }

  /** Blocks that are needed for the first p bytes. */
  function Started(p: nat): nat { if Rem(p) == 0 then Quot(p) else Quot(p) + 1 }

  lemma {:induction false} QuotRem(p: nat)
    ensures Quot(p) == p / 16 && Rem(p) == p % 16
  {
    if p >= 16 { QuotRem(p - 16); }
  }

  /** Where the position is after k more bytes of the block. */
  lemma Positions(p: nat, k: nat)
    requires 0 < k <= 16 - Rem(p)
    ensures Started(p + k) == Quot(p) + 1
    ensures Rem(p + k) == if k == 16 - Rem(p) then 0 else Rem(p) + k
    ensures Rem(p + k) != 0 ==> Quot(p + k) == Quot(p)
  {
    QuotRem(p);
    QuotRem(p + k);
  }

  lemma OffsetAfter(p: nat, k: nat)
    ensures (Rem(p) + k) % 16 == Rem(p + k)
  {
    QuotRem(p);
    QuotRem(p + k);
  }

  predicate AskedCount(n: nat) { true }
  ghost predicate IsCount(count: Count) {
    forall n {:trigger AskedCount(n)} :: AskedCount(n) ==> count(n) == CounterBlock(n)
  }

  method NextBlock(counter: array<bv8>, ghost count: Count, ghost n: nat)
    requires IsCount(count) && counter.Length == 16 && counter[..] == count(n)
    modifies counter
    ensures counter[..] == count(n + 1)
  {
    assert AskedCount(n) && AskedCount(n + 1);
    IncWordsBe(Bump, n, 4);
    IncrementCounter(counter, Bump);
  }

  class CtrContext {
    const E: Block -> Block
    ghost const count: Count
    const counter: array<bv8>
    const stream: array<bv8>
    var off: nat
    ghost var n0: nat
    ghost var pos: nat

    ghost predicate Linked() {
      var ok := counter.Length == 16 && stream.Length == 16 && counter != stream && IsCount(count);
      ok
    }

    /** The counter stands behind the block that position p is in, and that block is at hand. */
    ghost predicate Synced(p: nat)
      reads this`n0, counter, stream
    {
      var ok := Linked()
        && counter[..] == count(n0 + Started(p)) && (Rem(p) != 0 ==> stream[..] == E(count(n0 + Quot(p))));
      ok
    }

    constructor (E: Block -> Block, ghost count: Count, nonce: Block, ghost n0: nat)
      requires IsCount(count) && nonce == count(n0)
      ensures Valid() && this.E == E && this.count == count && this.n0 == n0 && pos == 0
      ensures fresh(counter) && fresh(stream)
    {
      this.E, this.count, this.n0, pos, off := E, count, n0, 0, 0;
      counter := new bv8[16](i requires 0 <= i < 16 => nonce[i]);
      stream := new bv8[16](_ => 0);
      new;
      assert counter[..] == nonce;
    }

    ghost predicate Valid()
      reads this, counter, stream
    {
      Synced(pos) && off == Rem(pos)
    }

    /** The stream block of position p: a new one at the start of a block, the one at hand inside it. */
    method Refill(offset: nat, ghost p: nat)
      requires Synced(p) && offset == Rem(p)
      modifies counter, stream
      ensures Linked() && stream[..] == E(count(n0 + Quot(p))) && counter[..] == count(n0 + Quot(p) + 1)
    {
      if offset == 0 {
        var b := E(counter[..]);
        Set(stream, 0, b);
        assert stream[..] == stream[0..16];
        NextBlock(counter, count, n0 + Quot(p));
      }
    }

    lemma Moved(p: nat, k: nat)
      requires Linked() && stream[..] == E(count(n0 + Quot(p))) && counter[..] == count(n0 + Quot(p) + 1)
      requires 0 < k <= 16 - Rem(p)
      ensures Synced(p + k)
    {
      Positions(p, k);
    }

    /** The next bytes, all in one block. */
    method Piece(offset: nat, s: seq<bv8>, ghost p: nat) returns (out: seq<bv8>)
      requires Synced(p) && offset == Rem(p) && 0 < |s| <= 16 - offset
      modifies counter, stream
      ensures out == Crypted(E, count, n0, p, s) && Synced(p + |s|)
    {
      Refill(offset, p);
      out := Masked(offset, s, p);
      Moved(p, |s|);
    }

    method Masked(offset: nat, s: seq<bv8>, ghost p: nat) returns (out: seq<bv8>)
      requires stream.Length == 16 && stream[..] == E(count(n0 + Quot(p))) && offset == Rem(p) && |s| <= 16 - offset
      ensures out == Crypted(E, count, n0, p, s)
    {
      var block: Block := stream[..];
      OneBlock(E, count, n0, p, s, block);
      out := Xor(s, block[offset..offset + |s|]);
    }

    /** As much of the input as the block takes. */
    method Advance(offset: nat, s: seq<bv8>, ghost p: nat) returns (out: seq<bv8>, rest: seq<bv8>)
      requires Synced(p) && offset == Rem(p) && s != []
      modifies counter, stream
      ensures |out| + |rest| == |s| && 0 < |out| && Synced(p + |out|) && (rest != [] ==> Rem(p + |out|) == 0)
      ensures Crypted(E, count, n0, p, s) == out + Crypted(E, count, n0, p + |out|, rest)
    {
      var n := 16 - offset;
      if n > |s| { n := |s|; }
      Positions(p, n);
      CryptedSplit(E, count, n0, p, s[..n], s[n..]);
      assert s[..n] + s[n..] == s;
      out := Piece(offset, s[..n], p);
      rest := s[n..];
    }

    /** The loop of mbedtls_aes_crypt_ctr. */
    method Stream(start: nat, input: seq<bv8>) returns (output: seq<bv8>)
      requires Valid() && start == off
      modifies counter, stream
      ensures Synced(pos + |input|) && output == Crypted(E, count, n0, pos, input)
    {
      var offset, rest := start, input;
      output := [];
      ghost var p: nat := pos;
      ghost var goal := Crypted(E, count, n0, pos, input);
      while rest != []
        invariant Synced(p) && p + |rest| == pos + |input|
        invariant rest != [] ==> offset == Rem(p)
        invariant goal == output + Crypted(E, count, n0, p, rest)
        decreases |rest|
      {
        var out;
        out, rest := Advance(offset, rest, p);
        p := p + |out|;
        Assoc(output, out, Crypted(E, count, n0, p, rest));
        output, offset := output + out, 0;
      }
    }

    /** mbedtls_aes_crypt_ctr */
    method Crypt(input: seq<bv8>) returns (ok: bool, output: seq<bv8>)
      requires off <= 15 ==> Valid()
      modifies this`off, this`pos, counter, stream
      ensures ok <==> old(off) <= 15
      ensures !ok ==> output == [] && off == old(off)
      ensures !ok ==> counter[..] == old(counter[..]) && stream[..] == old(stream[..])
      ensures ok ==> Valid() && pos == old(pos) + |input| && output == Crypted(E, count, n0, old(pos), input)
    {
      if off > 15 { return false, []; }
      output := Stream(off, input);
      Resume(|input|);
      ok := true;
    }

    /** The offset is kept for the next call. */
    method Resume(length: nat)
      requires off == Rem(pos)
      modifies this`off, this`pos
      ensures off == Rem(pos) && pos == old(pos) + length
    {
      OffsetAfter(pos, length);
      off, pos := (off + length) % 16, pos + length;
    }
  }

  lemma CryptedMore(E: Block -> Block, count: Count, n0: nat, chunks: seq<seq<bv8>>, i: nat)
    requires i < |chunks|
    ensures var m, m' := Flatten(chunks[..i]), Flatten(chunks[..i + 1]);
      && |m'| == |m| + |chunks[i]|
      && Crypted(E, count, n0, 0, m') == Crypted(E, count, n0, 0, m) + Crypted(E, count, n0, |m|, chunks[i])
  {
    FlattenNext(chunks, i);
    CryptedSplit(E, count, n0, 0, Flatten(chunks[..i]), chunks[i]);
  }

  /** A fresh stream: any sequence of calls is one call on everything. */
  method CryptChunks(E: Block -> Block, ghost count: Count, nonce: Block, ghost n0: nat, chunks: seq<seq<bv8>>)
    returns (output: seq<bv8>)
    requires IsCount(count) && nonce == count(n0)
    ensures output == Crypted(E, count, n0, 0, Flatten(chunks))
  {
    var ctx := new CtrContext(E, count, nonce, n0);
    output := [];
    for i := 0 to |chunks|
      invariant fresh(ctx) && fresh(ctx.counter) && fresh(ctx.stream) && ctx.Valid() && ctx.n0 == n0
      invariant ctx.pos == |Flatten(chunks[..i])| && output == Crypted(E, count, n0, 0, Flatten(chunks[..i]))
    {
      CryptedMore(E, count, n0, chunks, i);
      var ok, out := ctx.Crypt(chunks[i]);
      output := output + out;
    }
    assert chunks[..|chunks|] == chunks;
  }

  /** Every nonce is a number, and the stream from it counts up from that number mod 2^128. */
  method CtrChunks(E: Block -> Block, nonce: Block, chunks: seq<seq<bv8>>) returns (output: seq<bv8>)
    ensures output == Crypted(E, CounterBlock, BeValue(nonce), 0, Flatten(chunks))
    ensures IsCtr(E, BeValue(nonce), Flatten(chunks), output)
  {
    BeBytesOf(nonce);
    output := CryptChunks(E, CounterBlock, nonce, BeValue(nonce), chunks);
    CryptedIs(E, CounterBlock, BeValue(nonce), Flatten(chunks));
  }

  /** Section 6.5 of NIST SP 800-38A on byte i: it is added to byte i mod 16 of the enciphered counter, which
      stands i / 16 behind its initial value. */
  ghost predicate CtrAt(E: Block -> Block, n0: nat, s: seq<bv8>, r: seq<bv8>, i: nat) {
    i < |s| == |r| && r[i] == s[i] ^ E(CounterBlock(n0 + i / 16))[i % 16]
  }

  ghost predicate IsCtr(E: Block -> Block, n0: nat, s: seq<bv8>, r: seq<bv8>) {
    |r| == |s| && forall i: nat :: i < |s| ==> CtrAt(E, n0, s, r, i)
  }

  /** The counter block is the number in 16 bytes, most significant first, modulo 2^128. */
  lemma CounterBlockIs(n: nat)
    ensures BeValue(CounterBlock(n)) == n % Pow256(16)
  {
    BeValueOf(n, 16);
  }

  lemma CountIs(count: Count, n: nat)
    requires IsCount(count)
    ensures count(n) == CounterBlock(n)
  {
    assert AskedCount(n);
  }

  lemma CryptedByte(E: Block -> Block, count: Count, n0: nat, s: seq<bv8>, i: nat, c: Block)
    requires i < |s| && c == count(n0 + i / 16)
    ensures Crypted(E, count, n0, 0, s)[i] == s[i] ^ E(c)[i % 16]
  {
    assert Key(E, count, n0, 0 + i) == E(c)[i % 16];
  }

  lemma CryptedIs(E: Block -> Block, count: Count, n0: nat, s: seq<bv8>)
    requires IsCount(count)
    ensures IsCtr(E, n0, s, Crypted(E, count, n0, 0, s))
  {
    forall i: nat | i < |s| ensures CtrAt(E, n0, s, Crypted(E, count, n0, 0, s), i) {
      CountIs(count, n0 + i / 16);
      CryptedByte(E, count, n0, s, i, CounterBlock(n0 + i / 16));
    }
  }
}
