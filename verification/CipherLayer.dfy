/** The buffering CBC layer of cipher.twl.c: any way of cutting a message into update calls, followed
    by finish, computes the one-shot forms of CipherSpec. */
module CipherLayer {
  import opened Bytes
  import opened Cbc
  import opened CipherSpec
  import P = Padding
  import LE = LittleEndian

  lemma Cut(whole: seq<bv8>, s: seq<bv8>, k: nat)
    requires k <= |s|
    ensures whole + s[..k] + s[k..] == whole + s
  {
    assert s[..k] + s[k..] == s;
  }

  lemma FillUp(whole: seq<bv8>, held: seq<bv8>, input: seq<bv8>, k: nat)
    requires k <= |input|
    ensures whole + (held + input[..k]) + input[k..] == whole + held + input
  {
    Cut(whole + held, input, k);
    Assoc(whole, held, input[..k]);
  }

  predicate Asked(b: bool) { true }

  /** The held bytes, padded, are the last block of the padded message. */
  lemma LastBlock(E: Block -> Block, iv: Block, mode: P.Mode, done: seq<Block>, held: seq<bv8>)
    requires |held| < 16
    ensures EncryptAll(E, iv, With(mode), Glue(done) + held) == Glue(CbcEncrypt(E, iv, done + [PadBlock(mode, held)]))
  {
    var m := Glue(done) + held;
    assert m[..|m| - |m| % 16] == Glue(done) && m[|m| - |m| % 16..] == held;
    LastPlain(done, PadBlock(mode, held));
  }

  lemma LastPlain(done: seq<Block>, b: Block)
    ensures Chop(Glue(done) + b) == done + [b] && Chop(b) == [b]
  {
    GlueAppend(done, [b]);
    GlueOne(b);
    ChopGlue(done + [b]);
    ChopGlue([b]);
  }

  lemma NothingHeld(done: seq<Block>, held: seq<bv8>)
    requires |held| < 16
    ensures var fed := Glue(done) + held;
      (|fed| % 16 == 0 <==> held == []) && (held == [] ==> Chop(fed) == done)
  {
    ChopGlue(done);
    assert held == [] ==> Glue(done) + held == Glue(done);
  }

  lemma StrippableMeans(mode: P.Mode, block: Block)
    requires !mode.Zeros?
    ensures Strippable(mode, block) <==> exists k :: P.Ends(mode, Ints(block), k)
  {
    forall k | P.Ends(mode, Ints(block), k) ensures Strippable(mode, block) {
      assert Strips(mode, block, k);
    }
  }

  lemma UnpadsLast(mode: P.Mode, before: seq<bv8>, last: Block, ret: Ret, n: nat)
    requires ret == (if Strippable(mode, last) then Ok else InvalidPadding)
    requires ret == Ok ==> n <= 16 && Strips(mode, last, n)
    ensures Unpads(mode, before + last, ret, before + if ret == Ok then last[..n] else [])
  {
    var plain := before + last;
    assert plain[..|plain| - 16] == before && plain[|plain| - 16..] == last;
  }

  class CipherContext {
    const E: Block -> Block
    const D: Block -> Block
    const op: Operation
    const scheme: Scheme
    const unprocessed: array<LE.byte>
    var len: nat
    var iv: Block
    ghost var iv0: Block
    ghost var done: seq<Block> // the input blocks processed,
    ghost var whole: seq<bv8>  // the same as bytes,
    ghost var emitted: seq<bv8> // and what came out for them

    /** Decryption with padding holds back a whole block, which may be the last. */
    predicate Keep() { op == Decrypt && scheme.With? }

    /** What has been processed is one-shot CBC so far; only code that asks needs to know. */
    ghost predicate Chained()
      reads this`iv, this`iv0, this`done, this`whole, this`emitted
    {
      forall b {:trigger Asked(b)} :: Asked(b) ==>
        iv == NextIv(E, op, iv0, done) && whole == Glue(done) && emitted == Glue(Crypt(E, D, op, iv0, done))
    }

    ghost predicate Sized()
      reads this
    {
      unprocessed.Length == 16 && len <= 16 && |whole| % 16 == 0 && |emitted| == |whole| && Chained()
    }

    ghost predicate Valid()
      reads this
    {
      var ok := Sized() && if Keep() then whole != [] ==> len > 0 else len < 16;
      ok
    }

    /** The buffered bytes. */
    ghost function Held(): (h: seq<bv8>)
      requires Sized()
      reads this, unprocessed
      ensures |h| == len
    {
      Bvs(unprocessed[..len])
    }

    /** All bytes taken in since the last reset; `emitted` is all that was given out. */
    ghost function Fed(): seq<bv8>
      requires Sized()
      reads this, unprocessed
    {
      whole + Held()
    }

    constructor (E: Block -> Block, D: Block -> Block, op: Operation, scheme: Scheme, iv: Block)
      ensures Valid() && Fed() == [] && emitted == [] && iv0 == iv && fresh(unprocessed)
      ensures this.E == E && this.D == D && this.op == op && this.scheme == scheme
    {
      this.E, this.D, this.op, this.scheme := E, D, op, scheme;
      unprocessed := new LE.byte[16](_ => 0);
      len, this.iv, iv0, done := 0, iv, iv, [];
      whole, emitted := [], [];
    }

    /** mbedtls_cipher_set_iv and mbedtls_cipher_reset */
    method Reset(iv: Block)
      requires unprocessed.Length == 16
      modifies this`len, this`iv, this`iv0, this`done, this`whole, this`emitted
      ensures Valid() && Fed() == [] && emitted == [] && iv0 == iv
    {
      len, this.iv, iv0, done := 0, iv, iv, [];
      whole, emitted := [], [];
    }

    /** The memcpy into unprocessed_data. */
    method Store(input: seq<bv8>)
      requires Sized() && len + |input| <= 16
      modifies unprocessed, this`len
      ensures Sized() && len == old(len) + |input| && Held() == old(Held()) + input
    {
      var at := len;
      for i := 0 to |input|
        invariant forall j :: 0 <= j < at ==> unprocessed[j] == old(unprocessed[j])
        invariant forall j :: 0 <= j < i ==> unprocessed[at + j] == input[j] as int
      {
        unprocessed[at + i] := input[i] as int;
      }
      len := at + |input|;
      forall j | 0 <= j < |input| ensures Held()[at + j] == input[j] { ByteOfValue(input[j]); }
    }

    /** cbc_func on whole blocks. */
    method Process(input: seq<bv8>) returns (output: seq<bv8>)
      requires Sized() && |input| % 16 == 0
      modifies this`iv, this`done, this`whole, this`emitted
      ensures Sized() && whole == old(whole) + input && emitted == old(emitted) + output && |output| == |input|
      ensures done == old(done) + Chop(input)
    {
      assert Asked(true);
      var ok, out, iv' := CryptCbc(E, D, op, iv, input);
      Appended(E, D, op, iv0, done, iv, input);
      output, iv, done := out, iv', done + Chop(input);
      whole, emitted := whole + input, emitted + out;
    }

    /** Completes the held block and processes it. */
    method Flush(input: seq<bv8>) returns (output: seq<bv8>, rest: seq<bv8>)
      requires Sized() && |input| >= 16 - len
      modifies this`len, this`iv, this`done, this`whole, this`emitted, unprocessed
      ensures Sized() && len == 0 && whole != []
      ensures whole + rest == old(Fed()) + input && |rest| == old(len) + |input| - 16
      ensures emitted == old(emitted) + output && |output| == 16
    {
      var copyLen := 16 - len;
      rest := input[copyLen..];
      ghost var held := Held();
      Store(input[..copyLen]);
      FillUp(whole, held, input, copyLen);
      output := Process(Bvs(unprocessed[..len]));
      len := 0;
    }

    /** How much of `n` bytes of input to hold back. */
    method HoldBack(n: nat) returns (copyLen: nat)
      ensures copyLen <= n && (n - copyLen) % 16 == 0
      ensures if Keep() then copyLen <= 16 && (n > 0 ==> copyLen > 0) else copyLen < 16
    {
      copyLen := n % 16;
      if n != 0 && copyLen == 0 && Keep() { copyLen := 16; }
    }

    /** With nothing held: holds back the end of the input and processes the rest. */
    method Blocks(input: seq<bv8>) returns (output: seq<bv8>)
      requires Sized() && len == 0 && (input == [] && whole != [] ==> !Keep())
      modifies this`len, this`iv, this`done, this`whole, this`emitted, unprocessed
      ensures Valid()
      ensures Fed() == old(whole) + input
      ensures emitted == old(emitted) + output && |output| + len == |input|
    {
      var copyLen := HoldBack(|input|);
      var body, tail := input[..|input| - copyLen], input[|input| - copyLen..];
      Cut(whole, input, |input| - copyLen);
      Store(tail);
      output := Process(body);
    }

    /** mbedtls_cipher_update, CBC part: every byte taken in is either given out, processed, or held. */
    method Update(input: seq<bv8>) returns (output: seq<bv8>)
      requires Valid()
      modifies this`len, this`iv, this`done, this`whole, this`emitted, unprocessed
      ensures Valid()
      ensures Fed() == old(Fed()) + input
      ensures emitted == old(emitted) + output
      ensures |output| + len == old(len) + |input|
    {
      if |input| < 16 - len || (Keep() && |input| == 16 - len) {
        Store(input);
        Assoc(whole, old(Held()), input);
        output := [];
      } else if len == 0 {
        output := Blocks(input);
      } else {
        var rest, more;
        output, rest := Flush(input);
        more := Blocks(rest);
        Assoc(old(emitted), output, more);
        output := output + more;
      }
    }

    /** get_padding on a decrypted block. */
    method GetPadding(block: Block) returns (ret: Ret, n: nat)
      requires scheme.With?
      ensures ret == (if Strippable(scheme.mode, block) then Ok else InvalidPadding)
      ensures ret == Ok ==> n <= 16 && Strips(scheme.mode, block, n)
    {
      var s := Ints(block);
      var r: int;
      match scheme.mode {
        case PKCS7 => r, n := P.GetPkcsPadding(s);
        case OneAndZeros => r, n := P.GetOneAndZerosPadding(s);
        case ZerosAndLen => r, n := P.GetZerosAndLenPadding(s);
        case Zeros =>
          r, n := P.GetZerosPadding(s);
          if n < 16 { P.ZerosShape(s, n); }
          assert Strips(P.Zeros, block, n);
      }
      if !scheme.mode.Zeros? { StrippableMeans(scheme.mode, block); }
      ret := if r == 0 then Ok else InvalidPadding;
    }

    method FinishEncrypt() returns (output: seq<bv8>)
      requires Valid() && op == Encrypt && scheme.With?
      modifies this`iv, this`done, this`whole, this`emitted, unprocessed
      ensures old(emitted) + output == EncryptAll(E, iv0, scheme, old(Fed()))
    {
      assert Asked(true);
      ghost var held := Held();
      LastBlock(E, iv0, scheme.mode, done, held);
      IntsBvs(unprocessed[..len]);
      P.AddPadding(scheme.mode, unprocessed, len);
      ghost var block := PadBlock(scheme.mode, held);
      assert Bvs(unprocessed[..]) == block;
      LastPlain(done, block);
      output := Process(Bvs(unprocessed[..]));
    }

    method FinishDecrypt() returns (ret: Ret, output: seq<bv8>)
      requires Valid() && op == Decrypt && scheme.With? && len == 16
      modifies this`iv, this`done, this`whole, this`emitted
      ensures DecryptsAll(D, iv0, scheme, old(Fed()), ret, old(emitted) + output)
    {
      assert Asked(true);
      assert unprocessed[..] == unprocessed[..len];
      LastPlain(done, Held());
      var plain := Process(Bvs(unprocessed[..]));
      var n: nat;
      ret, n := GetPadding(plain);
      output := if ret == Ok then plain[..n] else [];
      UnpadsLast(scheme.mode, old(emitted), plain, ret, n);
    }

    /** mbedtls_cipher_finish, CBC part.  All output together is the one-shot form of all input. */
    method Finish() returns (ret: Ret, output: seq<bv8>)
      requires Valid()
      modifies this`iv, this`done, this`whole, this`emitted, unprocessed
      ensures op == Encrypt ==>
        if scheme.NoPadding? && |old(Fed())| % 16 != 0 then ret == FullBlockExpected && output == []
        else ret == Ok && old(emitted) + output == EncryptAll(E, iv0, scheme, old(Fed()))
      ensures op == Decrypt ==> DecryptsAll(D, iv0, scheme, old(Fed()), ret, old(emitted) + output)
    {
      ret, output := Ok, [];
      if scheme.NoPadding? {
        assert Asked(true);
        if len != 0 { ret := FullBlockExpected; }
        NothingHeld(done, Held());
      } else if op == Encrypt {
        output := FinishEncrypt();
      } else if len != 16 {
        ret := FullBlockExpected;
      } else {
        ret, output := FinishDecrypt();
      }
      assert old(emitted) + [] == old(emitted);
    }
  }

  /** Whole blocks behind those done so far. */
  lemma Appended(E: Block -> Block, D: Block -> Block, op: Operation, iv0: Block, done: seq<Block>, iv: Block,
                 input: seq<bv8>)
    requires |input| % 16 == 0 && iv == NextIv(E, op, iv0, done)
    ensures var all := done + Chop(input);
      && Glue(Crypt(E, D, op, iv0, all)) == Glue(Crypt(E, D, op, iv0, done)) + Glue(Crypt(E, D, op, iv, Chop(input)))
      && NextIv(E, op, iv0, all) == NextIv(E, op, iv, Chop(input)) && Glue(all) == Glue(done) + input
  {
    CryptAppend(E, D, op, iv0, done, Chop(input));
    GlueAppend(Crypt(E, D, op, iv0, done), Crypt(E, D, op, iv, Chop(input)));
    GlueAppend(done, Chop(input));
    GlueChop(input);
  }

  /** Set up, update with every chunk, finish: the one-shot form, which is the padded message in CBC block by
      block. */
  method CryptChunks(E: Block -> Block, D: Block -> Block, op: Operation, scheme: Scheme, iv: Block,
                     chunks: seq<seq<bv8>>)
    returns (ret: Ret, output: seq<bv8>)
    ensures op == Encrypt ==>
      if scheme.NoPadding? && |Flatten(chunks)| % 16 != 0 then ret == FullBlockExpected
      else
        && ret == Ok && output == EncryptAll(E, iv, scheme, Flatten(chunks))
        && IsEncrypted(E, iv, scheme, Flatten(chunks), output)
    ensures op == Decrypt ==> DecryptsAll(D, iv, scheme, Flatten(chunks), ret, output)
  {
    if !(scheme.NoPadding? && |Flatten(chunks)| % 16 != 0) { EncryptAllIs(E, iv, scheme, Flatten(chunks)); }
    ret, output := CryptAll(E, D, op, scheme, iv, chunks);
  }

  method CryptAll(E: Block -> Block, D: Block -> Block, op: Operation, scheme: Scheme, iv: Block,
                  chunks: seq<seq<bv8>>)
    returns (ret: Ret, output: seq<bv8>)
    ensures op == Encrypt ==>
      if scheme.NoPadding? && |Flatten(chunks)| % 16 != 0 then ret == FullBlockExpected
      else ret == Ok && output == EncryptAll(E, iv, scheme, Flatten(chunks))
    ensures op == Decrypt ==> DecryptsAll(D, iv, scheme, Flatten(chunks), ret, output)
  {
    var ctx := new CipherContext(E, D, op, scheme, iv);
    output := [];
    for i := 0 to |chunks|
      invariant ctx.Valid() && fresh(ctx) && fresh(ctx.unprocessed) && ctx.iv0 == iv
      invariant ctx.Fed() == Flatten(chunks[..i]) && ctx.emitted == output
      invariant |output| + ctx.len == |Flatten(chunks[..i])|
    {
      FlattenNext(chunks, i);
      var more := ctx.Update(chunks[i]);
      output := output + more;
    }
    assert chunks[..|chunks|] == chunks;
    var last;
    ret, last := ctx.Finish();
    output := output + last;
  }

  /** Any split on the way in and any split on the way out: the message comes back. */
  method EncryptThenDecrypt(E: Block -> Block, D: Block -> Block, scheme: Scheme, iv: Block,
                            chunks: seq<seq<bv8>>, split: seq<bv8> -> seq<seq<bv8>>)
    returns (ret: Ret, output: seq<bv8>)
    requires Undoes(E, D) && forall s {:trigger split(s)} :: Flatten(split(s)) == s
    requires scheme.NoPadding? ==> |Flatten(chunks)| % 16 == 0
    ensures ret == Ok
    ensures output == Flatten(chunks) <==> Survives(scheme, Flatten(chunks))
  {
    var r, c := CryptChunks(E, D, Encrypt, scheme, iv, chunks);
    ret, output := CryptChunks(E, D, Decrypt, scheme, iv, split(c));
    RoundTrip(E, D, iv, scheme, Flatten(chunks), ret, output);
  }
}
