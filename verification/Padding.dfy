/** The block paddings of cipher.twl.c: the functions that add them, and the mask-based decoders. */
module Padding {
  import opened LittleEndian
  import opened ConstantTime
  import opened CtMemory

  datatype Mode = PKCS7 | OneAndZeros | ZerosAndLen | Zeros

  const INVALID_PADDING := -0x6200

  function Fill(n: nat, b: byte): (s: seq<byte>)
    ensures |s| == n && forall i :: 0 <= i < n ==> s[i] == b
  {
    seq(n, _ => b)
  }

  /** `data` filled up to a block of `n` bytes. */
  function Pad(mode: Mode, data: seq<byte>, n: nat): (block: seq<byte>)
    requires |data| < n < 256
    ensures |block| == n && block[..|data|] == data
  {
    var p := n - |data|;
    match mode
    case PKCS7 => data + Fill(p, p)
    case OneAndZeros => data + [0x80] + Fill(p - 1, 0)
    case ZerosAndLen => data + Fill(p - 1, 0) + [p]
    case Zeros => data + Fill(p, 0)
  }

  /** `block` is its own first `k` bytes, padded. */
  ghost predicate Ends(mode: Mode, block: seq<byte>, k: nat)
    requires |block| < 256
  {
    k < |block| && block == Pad(mode, block[..k], |block|)
  }

  // What each padding looks like, byte by byte

  lemma PkcsShape(block: seq<byte>, k: nat)
    requires k < |block| < 256
    ensures Ends(PKCS7, block, k) <==> forall j :: k <= j < |block| ==> block[j] == |block| - k
  {
    var y := Pad(PKCS7, block[..k], |block|);
    assert forall j :: k <= j < |block| ==> y[j] == |block| - k;
  }

  lemma OneAndZerosShape(block: seq<byte>, k: nat)
    requires k < |block| < 256
    ensures Ends(OneAndZeros, block, k) <==> block[k] == 0x80 && forall j :: k < j < |block| ==> block[j] == 0
  {
    var y := Pad(OneAndZeros, block[..k], |block|);
    assert y[k] == 0x80 && forall j :: k < j < |block| ==> y[j] == 0;
  }

  lemma ZerosAndLenShape(block: seq<byte>, k: nat)
    requires k < |block| < 256
    ensures Ends(ZerosAndLen, block, k) <==>
      block[|block| - 1] == |block| - k && forall j :: k <= j < |block| - 1 ==> block[j] == 0
  {
    var y := Pad(ZerosAndLen, block[..k], |block|);
    assert y[|block| - 1] == |block| - k && forall j :: k <= j < |block| - 1 ==> y[j] == 0;
  }

  lemma ZerosShape(block: seq<byte>, k: nat)
    requires k < |block| < 256
    ensures Ends(Zeros, block, k) <==> forall j :: k <= j < |block| ==> block[j] == 0
  {
    var y := Pad(Zeros, block[..k], |block|);
    assert forall j :: k <= j < |block| ==> y[j] == 0;
  }

  /** Except for plain zeros, a block can be read as padded in one way only. */
  lemma EndsUnique(mode: Mode, block: seq<byte>, j: nat, k: nat)
    requires |block| < 256 && !mode.Zeros? && Ends(mode, block, j) && Ends(mode, block, k)
    ensures j == k
  {
    match mode
    case PKCS7 =>
      PkcsShape(block, j);
      PkcsShape(block, k);
      assert block[|block| - 1] == |block| - j;
    case OneAndZeros => OneAndZerosShape(block, j); OneAndZerosShape(block, k);
    case ZerosAndLen => ZerosAndLenShape(block, j); ZerosAndLenShape(block, k);
  }

  // ---------------------------------------------------------------- adding

  /** The four add_*_padding functions: bytes dataLen .. end of the block are overwritten. */
  method AddPadding(mode: Mode, output: array<byte>, dataLen: nat)
    requires dataLen < output.Length < 256
    modifies output
    ensures output[..] == Pad(mode, old(output[..dataLen]), output.Length)
  {
    var paddingLen := output.Length - dataLen;
    match mode {
      case PKCS7 =>
        for i := 0 to paddingLen
          invariant output[..dataLen] == old(output[..dataLen])
          invariant forall j :: dataLen <= j < dataLen + i ==> output[j] == paddingLen
        {
          output[dataLen + i] := paddingLen;
        }
      case OneAndZeros =>
        output[dataLen] := 0x80;
        for i := 1 to paddingLen
          invariant output[..dataLen] == old(output[..dataLen]) && output[dataLen] == 0x80
          invariant forall j :: dataLen < j < dataLen + i ==> output[j] == 0
        {
          output[dataLen + i] := 0;
        }
      case ZerosAndLen =>
        for i := 1 to paddingLen
          invariant output[..dataLen] == old(output[..dataLen])
          invariant forall j :: dataLen <= j < dataLen + i - 1 ==> output[j] == 0
        {
          output[dataLen + i - 1] := 0;
        }
        output[output.Length - 1] := paddingLen;
      case Zeros =>
        for i := 0 to paddingLen
          invariant output[..dataLen] == old(output[..dataLen])
          invariant forall j :: dataLen <= j < dataLen + i ==> output[j] == 0
        {
          output[dataLen + i] := 0;
        }
    }
  }

  // ---------------------------------------------------------------- decoding

  /** mbedtls_get_pkcs_padding: accepts exactly the PKCS7 blocks. */
  method GetPkcsPadding(input: seq<byte>) returns (ret: int, dataLen: uint32)
    requires 0 < |input| < 256
    ensures ret == 0 <==> exists k :: Ends(PKCS7, input, k)
    ensures ret == 0 ==> Ends(PKCS7, input, dataLen)
    ensures ret != 0 ==> ret == INVALID_PADDING && dataLen == 0
  {
    var n := |input|;
    var paddingLen := input[n - 1];
    var bad := UintGt(paddingLen, n);
    var zero := UintEq(paddingLen, 0);
    bad := OrInto(bad, zero);
    var padIdx := Sub(n, paddingLen);
    for i := 0 to n
      invariant bad == Mask(!(1 <= paddingLen <= n && forall j :: 0 <= j < i && j >= padIdx ==> input[j] == paddingLen))
    {
      var inPadding := UintGe(i, padIdx);
      var different := UintNe(input[i], paddingLen);
      var wrong := UintIfElse0(inPadding, different);
      bad := OrInto(bad, wrong);
    }
    dataLen := UintIf(bad, 0, padIdx);
    var err := UintIfElse0(bad, 0x6200);
    ret := -(err as int);
    if ret == 0 { PkcsShape(input, padIdx); }
    forall k | Ends(PKCS7, input, k) ensures ret == 0 {
      PkcsShape(input, k);
    }
  }

  /** get_one_and_zeros_padding: scans back from the end for the first non-zero byte. */
  method GetOneAndZerosPadding(input: seq<byte>) returns (ret: int, dataLen: uint32)
    requires 0 < |input| < 256
    ensures ret == 0 <==> exists k :: Ends(OneAndZeros, input, k)
    ensures ret == 0 ==> Ends(OneAndZeros, input, dataLen)
    ensures ret != 0 ==> ret == INVALID_PADDING
  {
    var inPadding, bad: uint32 := TRUE, TRUE;
    dataLen := 0;
    for i := |input| downto 0
      invariant inPadding == Mask(forall j :: i <= j < |input| ==> input[j] == 0)
      invariant inPadding == TRUE ==> bad == TRUE
      invariant inPadding == FALSE ==> i <= dataLen < |input| && input[dataLen] != 0
      invariant inPadding == FALSE ==> bad == Mask(input[dataLen] != 0x80)
      invariant inPadding == FALSE ==> forall j :: dataLen < j < |input| ==> input[j] == 0
    {
      var isNonzero := UintNe(input[i], 0); // mbedtls_ct_bool
      var hit := UintIfElse0(isNonzero, inPadding);
      dataLen := UintIf(hit, i, dataLen);
      var not80 := UintNe(input[i], 0x80);
      bad := UintIf(hit, not80, bad);
      inPadding := UintIfElse0(inPadding, Not(isNonzero));
    }
    var err := UintIfElse0(bad, 0x6200);
    ret := -(err as int);
    if ret == 0 { OneAndZerosShape(input, dataLen); }
    forall k | Ends(OneAndZeros, input, k) ensures ret == 0 {
      OneAndZerosShape(input, k);
    }
  }

  /** get_zeros_and_len_padding: the last byte says how long the padding is, the rest of it is zero. */
  method GetZerosAndLenPadding(input: seq<byte>) returns (ret: int, dataLen: uint32)
    requires 0 < |input| < 256
    ensures ret == 0 <==> exists k :: Ends(ZerosAndLen, input, k)
    ensures ret == 0 ==> Ends(ZerosAndLen, input, dataLen)
    ensures ret != 0 ==> ret == INVALID_PADDING
  {
    var n := |input|;
    var paddingLen := input[n - 1];
    dataLen := Sub(n, paddingLen);
    var bad := UintGt(paddingLen, n);
    var zero := UintEq(paddingLen, 0);
    bad := OrInto(bad, zero);
    var padIdx := Sub(n, paddingLen);
    for i := 0 to n - 1
      invariant bad == Mask(!(1 <= paddingLen <= n && forall j :: 0 <= j < i && j >= padIdx ==> input[j] == 0))
    {
      var isPadding := UintGe(i, padIdx);
      var nonzero := UintNe(input[i], 0); // mbedtls_ct_bool
      var wrong := UintIfElse0(isPadding, nonzero);
      bad := OrInto(bad, wrong);
    }
    var err := UintIfElse0(bad, 0x6200);
    ret := -(err as int);
    if ret == 0 { ZerosAndLenShape(input, padIdx); }
    forall k | Ends(ZerosAndLen, input, k) ensures ret == 0 {
      ZerosAndLenShape(input, k);
    }
  }

  /** Going backwards from the end to `i`, `dataLen` is just behind the first non-zero byte met, if any. */
  ghost predicate Scanned(input: seq<byte>, i: int, done: uint32, dataLen: uint32) {
    var ok := 0 <= i <= |input| && done in {TRUE, FALSE}
      && if done == FALSE then dataLen == 0 && AllZero(input, i)
         else i < dataLen <= |input| && input[dataLen - 1] != 0 && AllZero(input, dataLen);
    ok
  }

  ghost predicate AllZero(input: seq<byte>, i: nat) { forall j :: i <= j < |input| ==> input[j] == 0 }

  lemma ScanNext(input: seq<byte>, i: nat, done: uint32, dataLen: uint32)
    requires i < |input| && Scanned(input, i + 1, done, dataLen)
    ensures done == TRUE ==> Scanned(input, i, done, dataLen)
    ensures done == FALSE && input[i] != 0 && i + 1 < WORD ==> Scanned(input, i, TRUE, i + 1)
    ensures done == FALSE && input[i] == 0 ==> Scanned(input, i, done, 0)
  {}

  /** get_zeros_padding: never fails; everything behind the last non-zero byte is padding. */
  method GetZerosPadding(input: seq<byte>) returns (ret: int, dataLen: uint32)
    requires 0 < |input| < 256
    ensures ret == 0 && dataLen <= |input|
    ensures dataLen < |input| ==> Ends(Zeros, input, dataLen)
    ensures dataLen > 0 ==> input[dataLen - 1] != 0
  {
    var done: uint32 := FALSE;
    dataLen := 0;
    for i := |input| downto 0
      invariant Scanned(input, i, done, dataLen)
    {
      ScanNext(input, i, done, dataLen);
      var prevDone := done;
      var nonzero := UintNe(input[i], 0);
      done := OrInto(done, nonzero);
      var changed := BoolNe(done, prevDone);
      dataLen := UintIf(changed, i + 1, dataLen);
    }
    if dataLen < |input| { ZerosShape(input, dataLen); }
    ret := 0;
  }
}
