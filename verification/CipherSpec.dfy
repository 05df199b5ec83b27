/** What the generic cipher layer promises for CBC with padding: the one-shot forms, and that
    decryption gets the message back. */
module CipherSpec {
  import opened Bytes
  import opened Cbc
  import P = Padding

  datatype Scheme = NoPadding | With(mode: P.Mode)
  datatype Ret = Ok | FullBlockExpected | InvalidPadding

  /** The last, incomplete block of a message, padded. */
  function PadBlock(mode: P.Mode, tail: seq<bv8>): Block
    requires |tail| < 16
  {
    Bvs(P.Pad(mode, Ints(tail), 16))
  }

  function PadMessage(mode: P.Mode, m: seq<bv8>): (r: seq<bv8>)
    ensures |r| % 16 == 0 && |r| > 0
  {
    var full := |m| - |m| % 16;
    m[..full] + PadBlock(mode, m[full..])
  }

  /** One-shot encryption. */
  function EncryptAll(E: Block -> Block, iv: Block, scheme: Scheme, m: seq<bv8>): seq<bv8>
    requires scheme.NoPadding? ==> |m| % 16 == 0
  {
    Glue(CbcEncrypt(E, iv, Chop(if scheme.NoPadding? then m else PadMessage(scheme.mode, m))))
  }

  /** The decoders take `block` for its first `k` bytes, padded.  Plain zeros are read greedily. */
  ghost predicate Strips(mode: P.Mode, block: Block, k: nat) {
    if mode.Zeros? then
      k <= 16 && (k > 0 ==> Ints(block)[k - 1] != 0) && forall j :: k <= j < 16 ==> Ints(block)[j] == 0
    else P.Ends(mode, Ints(block), k)
  }

  ghost predicate Strippable(mode: P.Mode, block: Block) { exists k :: Strips(mode, block, k) }

  /** Taking the padding off `plain` gives `ret` and, if that is Ok, `out`. */
  ghost predicate Unpads(mode: P.Mode, plain: seq<bv8>, ret: Ret, out: seq<bv8>)
    requires |plain| >= 16
  {
    var body, last: Block := plain[..|plain| - 16], plain[|plain| - 16..];
    if Strippable(mode, last) then
      ret == Ok && |body| <= |out| && Strips(mode, last, |out| - |body|) && out == body + last[..|out| - |body|]
    else ret == InvalidPadding
  }

  /** One-shot decryption of `c` gives `ret` and, if that is Ok, `out`. */
  ghost predicate DecryptsAll(D: Block -> Block, iv: Block, scheme: Scheme, c: seq<bv8>, ret: Ret, out: seq<bv8>) {
    if |c| % 16 != 0 || (scheme.With? && c == []) then ret == FullBlockExpected
    else
      var plain := Glue(CbcDecrypt(D, iv, Chop(c)));
      if scheme.NoPadding? then ret == Ok && out == plain else Unpads(scheme.mode, plain, ret, out)
  }

  lemma StripsUnique(mode: P.Mode, block: Block, j: nat, k: nat)
    requires Strips(mode, block, j) && Strips(mode, block, k)
    ensures j == k
  {
    if !mode.Zeros? { P.EndsUnique(mode, Ints(block), j, k); }
  }

  lemma PadStrips(mode: P.Mode, tail: seq<bv8>)
    requires |tail| < 16 && !mode.Zeros?
    ensures Strips(mode, PadBlock(mode, tail), |tail|)
  {
    var s := P.Pad(mode, Ints(tail), 16);
    IntsBvs(s);
    assert s[..|tail|] == Ints(tail);
  }

  lemma PadKeeps(mode: P.Mode, tail: seq<bv8>)
    requires |tail| < 16
    ensures PadBlock(mode, tail)[..|tail|] == tail
  {
    var s := P.Pad(mode, Ints(tail), 16);
    forall i | 0 <= i < |tail| ensures PadBlock(mode, tail)[i] == tail[i] {
      assert s[..|tail|][i] == Ints(tail)[i];
      ByteOfValue(tail[i]);
    }
  }

  /** Decrypting what was encrypted exposes the padded message. */
  lemma Exposed(E: Block -> Block, D: Block -> Block, iv: Block, p: seq<bv8>)
    requires Undoes(E, D) && |p| % 16 == 0
    ensures Glue(CbcDecrypt(D, iv, Chop(Glue(CbcEncrypt(E, iv, Chop(p)))))) == p
  {
    ChopGlue(CbcEncrypt(E, iv, Chop(p)));
    CbcUndone(E, D, iv, Chop(p));
    GlueChop(p);
  }

  /** Is the message one that stripping leaves alone?  Only plain zeros can take message bytes with
      them, and only from an incomplete last block that itself ends in zero. */
  predicate Survives(scheme: Scheme, m: seq<bv8>) {
    scheme == With(P.Zeros) ==> |m| % 16 == 0 || m[|m| - 1] != 0
  }

  lemma ZerosTail(tail: seq<bv8>, k: nat)
    requires |tail| < 16 && Strips(P.Zeros, PadBlock(P.Zeros, tail), k)
    ensures k == |tail| <==> tail == [] || tail[|tail| - 1] != 0
    ensures Strips(P.Zeros, PadBlock(P.Zeros, tail), |tail|) <==> tail == [] || tail[|tail| - 1] != 0
  {
    var b := Ints(PadBlock(P.Zeros, tail));
    IntsBvs(P.Pad(P.Zeros, Ints(tail), 16));
    assert b[..|tail|] == Ints(tail);
    assert forall j :: |tail| <= j < 16 ==> b[j] == 0;
    if tail != [] {
      var x := tail[|tail| - 1];
      assert b[..|tail|][|tail| - 1] == x as int;
      if x as int == 0 { SameValue(x, 0); }
    }
  }

  lemma Stripped(mode: P.Mode, body: seq<bv8>, tail: seq<bv8>, out: seq<bv8>)
    requires |tail| < 16 && |body| <= |out|
    requires var last := PadBlock(mode, tail);
      Strips(mode, last, |out| - |body|) && out == body + last[..|out| - |body|]
    ensures out == body + tail <==> (mode.Zeros? ==> tail == [] || tail[|tail| - 1] != 0)
  {
    var k := |out| - |body|;
    PadKeeps(mode, tail);
    if mode.Zeros? {
      ZerosTail(tail, k);
    } else {
      PadStrips(mode, tail);
      StripsUnique(mode, PadBlock(mode, tail), |tail|, k);
    }
    assert k != |tail| ==> |out| != |body + tail|;
  }

  lemma PaddedParts(mode: P.Mode, m: seq<bv8>)
    ensures var full, plain := |m| - |m| % 16, PadMessage(mode, m);
      && |plain| == full + 16 && plain[..|plain| - 16] == m[..full]
      && plain[|plain| - 16..] == PadBlock(mode, m[full..])
  {}

  lemma UnpadsPadded(mode: P.Mode, m: seq<bv8>, ret: Ret, out: seq<bv8>)
    requires Unpads(mode, PadMessage(mode, m), ret, out)
    ensures ret == Ok && (out == m <==> Survives(With(mode), m))
  {
    var full := |m| - |m| % 16;
    PaddedParts(mode, m);
    UnpadsParts(mode, m[..full], m[full..], PadMessage(mode, m), ret, out);
    SurvivesTail(mode, m, full);
    assert m == m[..full] + m[full..];
  }

  lemma UnpadsParts(mode: P.Mode, body: seq<bv8>, tail: seq<bv8>, plain: seq<bv8>, ret: Ret, out: seq<bv8>)
    requires |tail| < 16 && |plain| == |body| + 16 && plain[..|body|] == body && plain[|body|..] == PadBlock(mode, tail)
    requires Unpads(mode, plain, ret, out)
    ensures ret == Ok && (out == body + tail <==> (mode.Zeros? ==> tail == [] || tail[|tail| - 1] != 0))
  {
    AlwaysStrippable(mode, PadBlock(mode, tail), tail);
    Stripped(mode, body, tail, out);
  }

  lemma SurvivesTail(mode: P.Mode, m: seq<bv8>, full: nat)
    requires full == |m| - |m| % 16
    ensures Survives(With(mode), m) <==> (mode.Zeros? ==> m[full..] == [] || m[full..][|m| - full - 1] != 0)
  {}

  /** Everything that decrypting an encrypted message can give: no error, and the message itself
      exactly when it survives. */
  lemma RoundTrip(E: Block -> Block, D: Block -> Block, iv: Block, scheme: Scheme, m: seq<bv8>, ret: Ret, out: seq<bv8>)
    requires Undoes(E, D) && (scheme.NoPadding? ==> |m| % 16 == 0)
    requires DecryptsAll(D, iv, scheme, EncryptAll(E, iv, scheme, m), ret, out)
    ensures ret == Ok
    ensures out == m <==> Survives(scheme, m)
  {
    if scheme.NoPadding? {
      Exposed(E, D, iv, m);
    } else {
      Exposed(E, D, iv, PadMessage(scheme.mode, m));
      UnpadsPadded(scheme.mode, m, ret, out);
    }
  }

  lemma AlwaysStrippable(mode: P.Mode, last: Block, tail: seq<bv8>)
    requires |tail| < 16 && last == PadBlock(mode, tail)
    ensures Strippable(mode, last)
  {
    if mode.Zeros? {
      var k := LastNonzero(Ints(last), 16);
      assert Strips(mode, last, k);
    } else {
      PadStrips(mode, tail);
    }
  }

  /** The length of `s[..n]` without its trailing zeros. */
  function LastNonzero(s: seq<int>, n: nat): (k: nat)
    requires n <= |s|
    ensures k <= n && (k > 0 ==> s[k - 1] != 0) && forall j :: k <= j < n ==> s[j] == 0
  {
    if n == 0 || s[n - 1] != 0 then n else LastNonzero(s, n - 1)
  }

  // ---------------------------------------------------------------- in bytes

  /** Byte i of n bytes of padding. */
  function Filler(mode: P.Mode, n: nat, i: nat): int {
    match mode
    case PKCS7 => n
    case OneAndZeros => if i == 0 then 0x80 else 0
    case ZerosAndLen => if i == n - 1 then n else 0
    case Zeros => 0
  }

  /** `plain` is the message, filled up to the next multiple of 16 behind it. */
  ghost predicate IsPadded(scheme: Scheme, m: seq<bv8>, plain: seq<bv8>) {
    && |plain| % 16 == 0 && |m| <= |plain| && plain[..|m|] == m
    && match scheme
       case NoPadding => |plain| == |m|
       case With(mode) =>
         && |m| < |plain| <= |m| + 16
         && forall i :: |m| <= i < |plain| ==> plain[i] as int == Filler(mode, |plain| - |m|, i - |m|)
  }

  lemma PadFilled(mode: P.Mode, data: seq<int>, i: nat)
    requires |data| <= i < 16 && forall j :: 0 <= j < |data| ==> 0 <= data[j] < 256
    ensures P.Pad(mode, data, 16)[i] == Filler(mode, 16 - |data|, i - |data|)
  {}

  lemma PadBlockByte(mode: P.Mode, tail: seq<bv8>, i: nat)
    requires |tail| <= i < 16
    ensures PadBlock(mode, tail)[i] as int == Filler(mode, 16 - |tail|, i - |tail|)
  {
    PadFilled(mode, Ints(tail), i);
    ByteValue(P.Pad(mode, Ints(tail), 16)[i]);
  }

  lemma PadMessageIs(mode: P.Mode, m: seq<bv8>)
    ensures IsPadded(With(mode), m, PadMessage(mode, m))
  {
    var full, plain := |m| - |m| % 16, PadMessage(mode, m);
    MessageKept(mode, m[..full], m[full..]);
    assert m[..full] + m[full..] == m;
    forall i | |m| <= i < |plain| ensures plain[i] as int == Filler(mode, |plain| - |m|, i - |m|) {
      PadBlockByte(mode, m[full..], i - full);
    }
  }

  lemma MessageKept(mode: P.Mode, body: seq<bv8>, tail: seq<bv8>)
    requires |tail| < 16
    ensures (body + PadBlock(mode, tail))[..|body| + |tail|] == body + tail
  {
    PadKeeps(mode, tail);
    var plain := body + PadBlock(mode, tail);
    assert plain[..|body| + |tail|] == body + PadBlock(mode, tail)[..|tail|];
  }

  /** The padded message under CBC, block by block. */
  ghost predicate IsEncrypted(E: Block -> Block, iv: Block, scheme: Scheme, m: seq<bv8>, c: seq<bv8>) {
    exists plain :: IsPadded(scheme, m, plain) && AllChained(E, iv, plain, c)
  }

  ghost predicate AllChained(E: Block -> Block, iv: Block, plain: seq<bv8>, c: seq<bv8>) {
    |c| == |plain| && forall j: nat :: j < |plain| / 16 ==> Chained(E, E, Encrypt, iv, plain, c, j)
  }

  lemma EncryptAllIs(E: Block -> Block, iv: Block, scheme: Scheme, m: seq<bv8>)
    requires scheme.NoPadding? ==> |m| % 16 == 0
    ensures IsEncrypted(E, iv, scheme, m, EncryptAll(E, iv, scheme, m))
  {
    var plain := if scheme.NoPadding? then m else PadMessage(scheme.mode, m);
    if scheme.With? { PadMessageIs(scheme.mode, m); } else { assert m[..|m|] == m; }
    CryptIsChained(E, E, Encrypt, iv, plain);
    assert AllChained(E, iv, plain, EncryptAll(E, iv, scheme, m));
  }
}
