/** HMAC over SHA-1 (md.twl.c): whatever a context was used for before, starts or reset followed by any
    updates and finish gives the value of section 2 of RFC 2104. */
module Hmac {
  import opened Bytes
  import opened Sha1

  const SIZE := 20
  const BLOCK := 64

  type Sum = b: seq<bv8> | |b| == SIZE witness seq(SIZE, _ => 0)
  type Hash = seq<bv8> -> Sum

  function Repeat(b: bv8): (s: seq<bv8>)
    ensures |s| == BLOCK && forall i :: 0 <= i < BLOCK ==> s[i] == b
  {
    seq(BLOCK, _ => b)
  }

  /** The key, hashed if it is too long, filled up with zeros. */
  function KeyBlock(H: Hash, key: seq<bv8>): (k: seq<bv8>)
    ensures |k| == BLOCK
  {
    if |key| > BLOCK then H(key) + Zeros(BLOCK - SIZE) else key + Zeros(BLOCK - |key|)
  }

  function Pad(H: Hash, key: seq<bv8>, b: bv8): (p: seq<bv8>)
    ensures |p| == BLOCK
  {
    Xor(Repeat(b), KeyBlock(H, key))
  }

  function HmacWith(H: Hash, key: seq<bv8>, text: seq<bv8>): Sum {
    H(Pad(H, key, 0x5c) + H(Pad(H, key, 0x36) + text))
  }

  // The layers above know the digest and HMAC only as some `H` and `prf`.

  predicate AskedMessage(m: seq<bv8>) { true }

  ghost predicate IsDigest(H: Hash, C: Compressor) {
    forall m {:trigger AskedMessage(m)} :: AskedMessage(m) ==> H(m) == DigestWith(C, m)
  }

  predicate AskedText(m: seq<bv8>) { true }

  ghost predicate IsHmac(prf: Hash, H: Hash, key: seq<bv8>) {
    forall m {:trigger AskedText(m)} :: AskedText(m) ==> prf(m) == HmacWith(H, key, m)
  }

  class HmacContext {
    const sha: Sha1Context
    const pads: array<bv8> // ipad, then opad
    ghost const H: Hash
    ghost var key: seq<bv8>
    ghost var prf: Hash
    ghost var text: seq<bv8>

    ghost predicate Linked()
      reads this, sha
    {
      var ok := pads.Length == 2 * BLOCK && sha.buffer.Length == 64 && pads != sha.buffer
        && IsCompress(sha.C) && IsDigest(H, sha.C);
      ok
    }

    /** The pads belong to the key. */
    ghost predicate Keyed()
      reads this, sha, pads
    {
      var ok := Linked() && IsHmac(prf, H, key)
        && pads[..BLOCK] == Pad(H, key, 0x36) && pads[BLOCK..] == Pad(H, key, 0x5c);
      ok
    }

    /** The inner hash has taken in the inner pad and the text. */
    ghost predicate Ready()
      reads this, sha, sha.buffer, pads
    {
      var ok := Keyed() && sha.Valid() && sha.msg == pads[..BLOCK] + text;
      ok
    }

    /** Keyed for `f`, and no text yet. */
    ghost predicate Idle(f: Hash)
      reads this, sha, sha.buffer, pads
    {
      var ok := Ready() && text == [] && prf == f;
      ok
    }

    constructor (ghost C: Compressor, ghost H: Hash)
      requires IsCompress(C) && IsDigest(H, C)
      ensures Linked() && this.H == H && sha.C == C && fresh(sha) && fresh(pads) && fresh(sha.buffer)
    {
      sha := new Sha1Context(C);
      pads := new bv8[2 * BLOCK](_ => 0);
      this.H := H;
    }

    method MdFinish() returns (sum: Sum)
      requires Linked() && sha.Valid()
      modifies sha, sha.buffer
      ensures sum == H(old(sha.msg))
    {
      assert AskedMessage(sha.msg);
      sum := sha.Finish();
    }

    /** The key itself, or its digest. */
    method Shorten(k: seq<bv8>) returns (short: seq<bv8>)
      requires Linked() && |k| < TWO32
      modifies sha, sha.buffer
      ensures |short| <= BLOCK && KeyBlock(H, k) == short + Zeros(BLOCK - |short|)
    {
      short := k;
      if |k| > BLOCK {
        sha.Starts();
        sha.Update(k);
        assert [] + k == k;
        short := MdFinish();
      }
    }

    method SetPad(at: nat, b: bv8, short: seq<bv8>)
      requires Linked() && at + BLOCK <= pads.Length && |short| <= BLOCK
      modifies pads
      ensures pads[at..at + BLOCK] == Xor(Repeat(b), short + Zeros(BLOCK - |short|))
      ensures pads[..at] == old(pads[..at]) && pads[at + BLOCK..] == old(pads[at + BLOCK..])
    {
      var r := Repeat(b);
      Set(pads, at, r);
      ghost var p := pads[..];
      var x := Xor(r[..|short|], short);
      Set(pads, at, x);
      SetTwice(p, pads[..], at, r, x);
      PadFill(b, short);
    }

    /** mbedtls_md_hmac_starts */
    method Starts(k: seq<bv8>, ghost f: Hash)
      requires Linked() && |k| < TWO32 && IsHmac(f, H, k)
      modifies this`key, this`prf, this`text, sha, sha.buffer, pads
      ensures Ready() && key == k && prf == f && text == []
    {
      var short := Shorten(k);
      SetPad(0, 0x36, short);
      SetPad(BLOCK, 0x5c, short);
      key, prf := k, f;
      assert pads[0..BLOCK] == pads[..BLOCK];
      Reset();
    }

    /** mbedtls_md_hmac_reset */
    method Reset()
      requires Keyed()
      modifies this`text, sha, sha.buffer
      ensures Ready() && text == []
    {
      sha.Starts();
      sha.Update(pads[..BLOCK]);
      text := [];
    }

    /** mbedtls_md_hmac_update */
    method Update(input: seq<bv8>)
      requires Ready() && |input| < TWO32
      modifies this`text, sha, sha.buffer
      ensures Ready() && text == old(text) + input
    {
      Assoc(pads[..BLOCK], text, input);
      sha.Update(input);
      text := text + input;
    }

    /** Update with two strings, finish and reset. */
    method Mac(x: seq<bv8>, y: seq<bv8>, ghost f: Hash) returns (sum: Sum)
      requires Idle(f) && |x| < TWO32 && |y| < TWO32
      modifies this`text, sha, sha.buffer
      ensures Idle(f) && sum == f(x + y)
    {
      Feed(x, y);
      sum := Finish();
      Reset();
    }

    method Feed(x: seq<bv8>, y: seq<bv8>)
      requires Ready() && text == [] && |x| < TWO32 && |y| < TWO32
      modifies this`text, sha, sha.buffer
      ensures Ready() && text == x + y
    {
      Update(x);
      Assoc([], [], x);
      Update(y);
    }

    /** mbedtls_md_hmac_finish */
    method Finish() returns (sum: Sum)
      requires Ready()
      modifies sha, sha.buffer
      ensures Keyed() && sum == prf(text)
    {
      assert AskedText(text);
      var inner := MdFinish();
      sha.Starts();
      sha.Update(pads[BLOCK..]);
      sha.Update(inner);
      assert [] + pads[BLOCK..] == pads[BLOCK..];
      sum := MdFinish();
    }
  }

  /** A string over the start of another. */
  lemma SetTwice(p: seq<bv8>, q: seq<bv8>, at: nat, r: seq<bv8>, x: seq<bv8>)
    requires |p| == |q| && at + |r| <= |p| && |x| <= |r| && p[at..at + |r|] == r
    requires q[..at] == p[..at] && q[at..at + |x|] == x && q[at + |x|..] == p[at + |x|..]
    ensures q[at..at + |r|] == x + r[|x|..] && q[at + |r|..] == p[at + |r|..]
  {
    assert q[at + |x|..at + |r|] == p[at + |x|..at + |r|] == r[|x|..];
    assert q[at..at + |r|] == q[at..at + |x|] + q[at + |x|..at + |r|];
  }

  lemma PadFill(b: bv8, short: seq<bv8>)
    requires |short| <= BLOCK
    ensures Xor(Repeat(b), short + Zeros(BLOCK - |short|)) == Xor(Repeat(b)[..|short|], short) + Repeat(b)[|short|..]
  {
    XorZero(b);
  }

  lemma XorZero(b: bv8)
    ensures b ^ 0 == b
  {}

  /** Section 2 of RFC 2104, byte by byte. */
  ghost predicate IsPad(k: seq<bv8>, b: bv8, pad: seq<bv8>) {
    |pad| == 64 && forall i :: 0 <= i < 64 ==> pad[i] == if i < |k| then k[i] ^ b else b
  }

  lemma XorSwap(x: bv8, y: bv8)
    ensures x ^ y == y ^ x
  {}

  lemma PadIs(H: Hash, key: seq<bv8>, b: bv8)
    ensures IsPad(if |key| > 64 then H(key) else key, b, Pad(H, key, b))
  {
    var k := if |key| > 64 then H(key) else key;
    var kb := KeyBlock(H, key);
    forall i | 0 <= i < 64 ensures Pad(H, key, b)[i] == if i < |k| then k[i] ^ b else b {
      KeyBlockByte(H, key, k, i);
      PadByte(kb, b, i, if i < |k| then k[i] else 0);
    }
  }

  lemma KeyBlockByte(H: Hash, key: seq<bv8>, k: seq<bv8>, i: nat)
    requires i < 64 && k == if |key| > 64 then H(key) else key
    ensures KeyBlock(H, key)[i] == if i < |k| then k[i] else 0
  {}

  lemma PadByte(kb: seq<bv8>, b: bv8, i: nat, x: bv8)
    requires |kb| == BLOCK && i < BLOCK && kb[i] == x
    ensures Xor(Repeat(b), kb)[i] == x ^ b && 0 ^ b == b
  {
    XorSwap(b, x);
    XorZero(b);
    XorSwap(b, 0);
  }

  lemma PadUnique(k: seq<bv8>, b: bv8, p: seq<bv8>, q: seq<bv8>)
    requires IsPad(k, b, p) && IsPad(k, b, q)
    ensures p == q
  {}

  /** With the two pads of the key, or of its digest if it is longer than a block, HMAC is the digest of the
      outer one followed by the digest of the inner one and the text. */
  lemma HmacIs(H: Hash, key: seq<bv8>, text: seq<bv8>, inner: seq<bv8>, outer: seq<bv8>)
    requires var k := if |key| > 64 then H(key) else key; IsPad(k, 0x36, inner) && IsPad(k, 0x5c, outer)
    ensures HmacWith(H, key, text) == H(outer + H(inner + text))
  {
    PadIs(H, key, 0x36);
    PadIs(H, key, 0x5c);
    var k := if |key| > 64 then H(key) else key;
    PadUnique(k, 0x36, inner, Pad(H, key, 0x36));
    PadUnique(k, 0x5c, outer, Pad(H, key, 0x5c));
  }

  // ---------------------------------------------------------------- HMAC-SHA-1

  function Sha1Sum(m: seq<bv8>): Sum { Digest(m) }

  function HmacSha1(key: seq<bv8>, text: seq<bv8>): Sum { HmacWith(Sha1Sum, key, text) }

  /** Keyed, used for the text `before` in any pieces, reset, and used for another in any pieces. */
  method HmacChunks(ghost C: Compressor, ghost H: Hash, ghost prf: Hash, key: seq<bv8>, before: seq<seq<bv8>>,
                    chunks: seq<seq<bv8>>)
    returns (sum: Sum)
    requires IsCompress(C) && IsDigest(H, C) && IsHmac(prf, H, key) && |key| < TWO32 && Short(before) && Short(chunks)
    ensures sum == prf(Flatten(chunks))
  {
    var ctx := new HmacContext(C, H);
    ctx.Starts(key, prf);
    FeedAll(ctx, before);
    sum := ctx.Finish();
    ctx.Reset();
    FeedAll(ctx, chunks);
    sum := ctx.Finish();
  }

  method FeedAll(ctx: HmacContext, chunks: seq<seq<bv8>>)
    requires ctx.Ready() && ctx.text == [] && Short(chunks)
    modifies ctx`text, ctx.sha, ctx.sha.buffer
    ensures ctx.Ready() && ctx.text == Flatten(chunks)
  {
    for i := 0 to |chunks|
      invariant ctx.Ready() && ctx.text == Flatten(chunks[..i])
    {
      FlattenNext(chunks, i);
      ctx.Update(chunks[i]);
    }
    assert chunks[..|chunks|] == chunks;
  }

  method HmacTwice(key: seq<bv8>, before: seq<seq<bv8>>, chunks: seq<seq<bv8>>) returns (sum: Sum)
    requires |key| < TWO32 && Short(before) && Short(chunks)
    ensures sum == HmacSha1(key, Flatten(chunks))
  {
    sum := HmacChunks(Compress, Sha1Sum, m => HmacSha1(key, m), key, before, chunks);
  }
}
