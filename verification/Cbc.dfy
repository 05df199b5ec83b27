/** Cipher block chaining over any 16-byte permutation: mbedtls_aes_crypt_cbc and its specification,
    section 6.2 of NIST SP 800-38A. */
module Cbc {
  import opened Bytes

  // ---------------------------------------------------------------- strings of blocks

  function Chop(b: seq<bv8>): (r: seq<Block>)
    requires |b| % 16 == 0
    ensures 16 * |r| == |b|
  {
    if b == [] then [] else [b[..16]] + Chop(b[16..])
  }

  function Glue(r: seq<Block>): (b: seq<bv8>)
    ensures |b| == 16 * |r|
  {
    if r == [] then [] else r[0] + Glue(r[1..])
  }

  lemma {:induction false} GlueChop(b: seq<bv8>)
    requires |b| % 16 == 0
    ensures Glue(Chop(b)) == b
  {
    if b != [] {
      GlueChop(b[16..]);
      assert Chop(b)[1..] == Chop(b[16..]);
      assert b[..16] + b[16..] == b;
    }
  }

  lemma {:induction false} ChopGlue(r: seq<Block>)
    ensures Chop(Glue(r)) == r
  {
    if r != [] {
      ChopGlue(r[1..]);
      assert Glue(r)[..16] == r[0] && Glue(r)[16..] == Glue(r[1..]);
      assert [r[0]] + r[1..] == r;
    }
  }

  lemma {:induction false} GlueAppend(a: seq<Block>, b: seq<Block>)
    ensures Glue(a + b) == Glue(a) + Glue(b)
  {
    if a == [] {
      assert a + b == b;
    } else {
      GlueAppend(a[1..], b);
      assert (a + b)[1..] == a[1..] + b;
      Assoc(a[0], Glue(a[1..]), Glue(b));
    }
  }

  lemma {:induction false} ChopAt(s: seq<bv8>, j: nat)
    requires |s| % 16 == 0 && 16 * j + 16 <= |s|
    ensures Chop(s)[j] == s[16 * j..16 * j + 16]
  {
    if j > 0 {
      ChopAt(s[16..], j - 1);
      assert s[16..][16 * (j - 1)..16 * (j - 1) + 16] == s[16 * j..16 * j + 16];
    }
  }

  lemma {:induction false} GlueAt(r: seq<Block>, j: nat)
    requires j < |r|
    ensures Glue(r)[16 * j..16 * j + 16] == r[j]
  {
    if j > 0 {
      GlueAt(r[1..], j - 1);
      assert Glue(r)[16..] == Glue(r[1..]);
      assert Glue(r)[16..][16 * (j - 1)..16 * (j - 1) + 16] == Glue(r)[16 * j..16 * j + 16];
    }
  }

  lemma GlueOne(b: Block)
    ensures Glue([b]) == b
  {
    assert Glue([b]) == b + Glue([]);
  }

  // ---------------------------------------------------------------- the mode

  function XorBlock(a: Block, b: Block): Block { Xor(a, b) }

  function CbcEncrypt(E: Block -> Block, iv: Block, p: seq<Block>): (c: seq<Block>)
    ensures |c| == |p|
    decreases |p|
  {
    if p == [] then [] else var c := E(XorBlock(p[0], iv)); [c] + CbcEncrypt(E, c, p[1..])
  }

  function CbcDecrypt(D: Block -> Block, iv: Block, c: seq<Block>): (p: seq<Block>)
    ensures |p| == |c|
    decreases |c|
  {
    if c == [] then [] else [XorBlock(D(c[0]), iv)] + CbcDecrypt(D, c[0], c[1..])
  }

  /** The chaining value after the ciphertext blocks `c`. */
  function Chain(iv: Block, c: seq<Block>): Block { if c == [] then iv else c[|c| - 1] }

  lemma DecryptHead(D: Block -> Block, iv: Block, c: Block, rest: seq<Block>)
    ensures CbcDecrypt(D, iv, [c] + rest) == [XorBlock(D(c), iv)] + CbcDecrypt(D, c, rest)
  {
    assert ([c] + rest)[1..] == rest;
  }

  lemma {:induction false} CbcUndone(E: Block -> Block, D: Block -> Block, iv: Block, p: seq<Block>)
    requires Undoes(E, D)
    ensures CbcDecrypt(D, iv, CbcEncrypt(E, iv, p)) == p
    decreases |p|
  {
    if p != [] {
      var x := XorBlock(p[0], iv);
      var c := E(x);
      CbcUndone(E, D, c, p[1..]);
      assert D(c) == x;
      XorTwice(p[0], iv);
      DecryptHead(D, iv, c, CbcEncrypt(E, c, p[1..]));
      assert [p[0]] + p[1..] == p;
    }
  }

  lemma Associate(a: seq<Block>, b: seq<Block>, c: seq<Block>)
    ensures (a + b) + c == a + (b + c)
  {}

  lemma {:induction false} EncryptAppend(E: Block -> Block, iv: Block, p: seq<Block>, q: seq<Block>)
    ensures var c := CbcEncrypt(E, iv, p); CbcEncrypt(E, iv, p + q) == c + CbcEncrypt(E, Chain(iv, c), q)
    decreases |p|
  {
    if p == [] {
      assert p + q == q;
    } else {
      var c0 := E(XorBlock(p[0], iv));
      EncryptAppend(E, c0, p[1..], q);
      assert (p + q)[1..] == p[1..] + q;
      var d := CbcEncrypt(E, c0, p[1..]);
      assert Chain(iv, [c0] + d) == Chain(c0, d);
      Associate([c0], d, CbcEncrypt(E, Chain(c0, d), q));
    }
  }

  lemma {:induction false} DecryptAppend(D: Block -> Block, iv: Block, c: seq<Block>, d: seq<Block>)
    ensures CbcDecrypt(D, iv, c + d) == CbcDecrypt(D, iv, c) + CbcDecrypt(D, Chain(iv, c), d)
    decreases |c|
  {
    if c == [] {
      assert c + d == d;
    } else {
      DecryptAppend(D, c[0], c[1..], d);
      assert (c + d)[1..] == c[1..] + d;
      assert Chain(iv, c) == Chain(c[0], c[1..]);
      Associate([XorBlock(D(c[0]), iv)], CbcDecrypt(D, c[0], c[1..]), CbcDecrypt(D, Chain(iv, c), d));
    }
  }

  datatype Operation = Encrypt | Decrypt

  /** Both directions, and the chaining value each leaves behind. */
  function Crypt(E: Block -> Block, D: Block -> Block, op: Operation, iv: Block, s: seq<Block>): (r: seq<Block>)
    ensures |r| == |s|
  {
    match op case Encrypt => CbcEncrypt(E, iv, s) case Decrypt => CbcDecrypt(D, iv, s)
  }

  function NextIv(E: Block -> Block, op: Operation, iv: Block, s: seq<Block>): Block {
    match op case Encrypt => Chain(iv, CbcEncrypt(E, iv, s)) case Decrypt => Chain(iv, s)
  }

  /** Running in two pieces, carrying the chaining value, is running in one. */
  lemma CryptAppend(E: Block -> Block, D: Block -> Block, op: Operation, iv: Block, s: seq<Block>, u: seq<Block>)
    ensures Crypt(E, D, op, iv, s + u) == Crypt(E, D, op, iv, s) + Crypt(E, D, op, NextIv(E, op, iv, s), u)
    ensures NextIv(E, op, iv, s + u) == NextIv(E, op, NextIv(E, op, iv, s), u)
  {
    match op
    case Encrypt => EncryptAppend(E, iv, s, u);
    case Decrypt => DecryptAppend(D, iv, s, u);
  }

  /** One more block: its output, and the chaining value behind it. */
  lemma CryptMore(E: Block -> Block, D: Block -> Block, op: Operation, iv: Block, done: seq<Block>, b: Block)
    ensures var v := NextIv(E, op, iv, done);
      var out := match op case Encrypt => E(XorBlock(b, v)) case Decrypt => XorBlock(D(b), v);
      && Glue(Crypt(E, D, op, iv, done + [b])) == Glue(Crypt(E, D, op, iv, done)) + out
      && NextIv(E, op, iv, done + [b]) == match op case Encrypt => out case Decrypt => b
  {
    var v := NextIv(E, op, iv, done);
    var out: Block := match op case Encrypt => E(XorBlock(b, v)) case Decrypt => XorBlock(D(b), v);
    assert [b][1..] == [];
    assert Crypt(E, D, op, v, [b]) == [out];
    CryptAppend(E, D, op, iv, done, [b]);
    GlueAppend(Crypt(E, D, op, iv, done), [out]);
    GlueOne(out);
  }

  lemma Regroup(done: seq<Block>, b: Block, rest: seq<Block>)
    ensures done + ([b] + rest) == (done + [b]) + rest
  {}

  lemma ChopMore(all: seq<Block>, done: seq<Block>, rest: seq<bv8>)
    requires |rest| % 16 == 0 && rest != [] && all == done + Chop(rest)
    ensures all == (done + [rest[..16]]) + Chop(rest[16..])
  {
    ChopHead(rest);
    Regroup(done, rest[..16], Chop(rest[16..]));
  }

  lemma ChopHead(rest: seq<bv8>)
    requires |rest| % 16 == 0 && rest != []
    ensures |rest| >= 16 && |rest[16..]| % 16 == 0 && Chop(rest) == [rest[..16]] + Chop(rest[16..])
  {}

  // ---------------------------------------------------------------- the mode, block by block

  lemma {:induction false} EncryptedAt(E: Block -> Block, iv: Block, p: seq<Block>, j: nat)
    requires j < |p|
    ensures var c := CbcEncrypt(E, iv, p); c[j] == E(Xor(p[j], if j == 0 then iv else c[j - 1]))
    decreases |p|
  {
    var c0 := E(XorBlock(p[0], iv));
    if j > 0 { EncryptedAt(E, c0, p[1..], j - 1); }
  }

  lemma {:induction false} DecryptedAt(D: Block -> Block, iv: Block, c: seq<Block>, j: nat)
    requires j < |c|
    ensures CbcDecrypt(D, iv, c)[j] == Xor(D(c[j]), if j == 0 then iv else c[j - 1])
    decreases |c|
  {
    if j > 0 { DecryptedAt(D, c[0], c[1..], j - 1); }
  }

  function BlockOf(s: seq<bv8>, j: nat): Block
    requires 16 * j + 16 <= |s|
  {
    s[16 * j..16 * j + 16]
  }

  /** The ciphertext block in front of block j: the initialization vector, or the block before. */
  function Before(iv: Block, cipher: seq<bv8>, j: nat): Block
    requires 16 * j <= |cipher|
  {
    if j == 0 then iv else BlockOf(cipher, j - 1)
  }

  /** Section 6.2 of NIST SP 800-38A on the bytes of block j. */
  ghost predicate Chained(E: Block -> Block, D: Block -> Block, op: Operation, iv: Block, input: seq<bv8>,
                          output: seq<bv8>, j: nat)
  {
    && 16 * j + 16 <= |input| == |output|
    && match op
       case Encrypt => BlockOf(output, j) == E(Xor(BlockOf(input, j), Before(iv, output, j)))
       case Decrypt => BlockOf(output, j) == Xor(D(BlockOf(input, j)), Before(iv, input, j))
  }

  /** `s` are the blocks of the bytes `b`. */
  ghost predicate BlocksOf(s: seq<Block>, b: seq<bv8>) {
    |b| == 16 * |s| && forall j: nat {:trigger BlockOf(b, j)} :: j < |s| ==> BlockOf(b, j) == s[j]
  }

  lemma GlueBlocks(s: seq<Block>)
    ensures BlocksOf(s, Glue(s))
  {
    forall j: nat {:trigger BlockOf(Glue(s), j)} | j < |s| ensures BlockOf(Glue(s), j) == s[j] { GlueAt(s, j); }
  }

  lemma ChopBlocks(b: seq<bv8>)
    requires |b| % 16 == 0
    ensures BlocksOf(Chop(b), b)
  {
    forall j: nat {:trigger BlockOf(b, j)} | j < |Chop(b)| ensures BlockOf(b, j) == Chop(b)[j] { ChopAt(b, j); }
  }

  lemma ChainedAt(E: Block -> Block, D: Block -> Block, op: Operation, iv: Block, s: seq<Block>, input: seq<bv8>,
                  output: seq<bv8>, j: nat)
    requires BlocksOf(s, input) && BlocksOf(Crypt(E, D, op, iv, s), output) && j < |s|
    ensures Chained(E, D, op, iv, input, output, j)
  {
    match op
    case Encrypt => EncryptedAt(E, iv, s, j);
    case Decrypt => DecryptedAt(D, iv, s, j);
  }

  lemma NextIvIs(E: Block -> Block, D: Block -> Block, op: Operation, iv: Block, s: seq<Block>, input: seq<bv8>,
                 output: seq<bv8>)
    requires BlocksOf(s, input) && BlocksOf(Crypt(E, D, op, iv, s), output)
    ensures NextIv(E, op, iv, s) == Before(iv, if op == Encrypt then output else input, |s|)
  {}

  /** One-shot CBC on bytes is chained at every block, and leaves the last ciphertext block. */
  lemma CryptIsChained(E: Block -> Block, D: Block -> Block, op: Operation, iv: Block, input: seq<bv8>)
    requires |input| % 16 == 0
    ensures var out := Glue(Crypt(E, D, op, iv, Chop(input)));
      && |out| == |input|
      && (forall j: nat :: j < |input| / 16 ==> Chained(E, D, op, iv, input, out, j))
      && NextIv(E, op, iv, Chop(input)) == Before(iv, if op == Encrypt then out else input, |input| / 16)
  {
    var s := Chop(input);
    var r := Crypt(E, D, op, iv, s);
    ChopBlocks(input);
    GlueBlocks(r);
    NextIvIs(E, D, op, iv, s, input, Glue(r));
    forall j: nat | j < |input| / 16 ensures Chained(E, D, op, iv, input, Glue(r), j) {
      ChainedAt(E, D, op, iv, s, input, Glue(r), j);
    }
  }

  /** mbedtls_aes_crypt_cbc: block by block, leaving the chaining value for the next call. */
  method CryptCbc(E: Block -> Block, D: Block -> Block, op: Operation, iv: Block, input: seq<bv8>)
    returns (ok: bool, output: seq<bv8>, iv': Block)
    ensures ok <==> |input| % 16 == 0
    ensures ok ==> output == Glue(Crypt(E, D, op, iv, Chop(input))) && iv' == NextIv(E, op, iv, Chop(input))
    ensures ok ==> |output| == |input| && forall j: nat :: j < |input| / 16 ==> Chained(E, D, op, iv, input, output, j)
    ensures ok ==> iv' == Before(iv, if op == Encrypt then output else input, |input| / 16)
    ensures !ok ==> output == [] && iv' == iv
  {
    if |input| % 16 != 0 { return false, [], iv; }
    ok := true;
    output, iv' := CryptBlocks(E, D, op, iv, input);
    CryptIsChained(E, D, op, iv, input);
  }

  /** The loop over the blocks. */
  method CryptBlocks(E: Block -> Block, D: Block -> Block, op: Operation, iv: Block, input: seq<bv8>)
    returns (output: seq<bv8>, iv': Block)
    requires |input| % 16 == 0
    ensures output == Glue(Crypt(E, D, op, iv, Chop(input))) && iv' == NextIv(E, op, iv, Chop(input))
  {
    output, iv' := [], iv;
    var rest := input;
    ghost var done: seq<Block> := [];
    while rest != []
      invariant |rest| % 16 == 0 && Chop(input) == done + Chop(rest)
      invariant output == Glue(Crypt(E, D, op, iv, done)) && iv' == NextIv(E, op, iv, done)
      decreases |rest|
    {
      var block: Block := rest[..16];
      CryptMore(E, D, op, iv, done, block);
      ChopMore(Chop(input), done, rest);
      if op == Decrypt {
        output := output + XorBlock(D(block), iv');
        iv' := block;
      } else {
        iv' := E(XorBlock(block, iv'));
        output := output + iv';
      }
      done := done + [block];
      rest := rest[16..];
    }
    assert done + [] == done;
  }
}
