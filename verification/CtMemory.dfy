/** The constant-flow memory routines of constant_time.twl.c. */
module CtMemory {
  import opened LittleEndian
  import opened ConstantTime

  // The wrapper functions of constant_time_impl.h, known to their callers by what they mean.

  method UintIf(condition: uint32, if1: uint32, if0: uint32) returns (r: uint32)
    requires condition in {TRUE, FALSE}
    ensures r == if condition == TRUE then if1 else if0
  { r := If(condition, if1, if0); }

  method UintIfElse0(condition: uint32, if1: uint32) returns (r: uint32)
    requires condition in {TRUE, FALSE}
    ensures r == if condition == TRUE then if1 else 0
  { r := BoolAnd(condition, if1); }

  method OrInto(x: uint32, y: uint32) returns (r: uint32)
    ensures r == 0 <==> x == 0 && y == 0
    ensures x == TRUE ==> r == TRUE
    ensures x == FALSE ==> r == y
  { r := BoolOr(x, y); }

  method UintLt(x: uint32, y: uint32) returns (c: uint32) ensures c == Mask(x < y) { c := Lt(x, y); }
  method UintGt(x: uint32, y: uint32) returns (c: uint32) ensures c == Mask(x > y) { c := Gt(x, y); }
  method UintGe(x: uint32, y: uint32) returns (c: uint32) ensures c == Mask(x >= y) { c := Ge(x, y); }
  method UintEq(x: uint32, y: uint32) returns (c: uint32) ensures c == Mask(x == y) { c := Eq(x, y); }
  method UintNe(x: uint32, y: uint32) returns (c: uint32) ensures c == Mask(x != y) { c := Ne(x, y); }

  method XorWords(x: uint32, y: uint32) returns (d: uint32)
    ensures d == 0 <==> x == y
  {
    WordIsPow();
    XorIsZero(x, y, BITS);
    d := Bits(Xor, x, y);
  }

  lemma SameFour(a: seq<byte>, b: seq<byte>, i: nat)
    requires i + 4 <= |a| == |b|
    ensures a[..i + 4] == b[..i + 4] <==>
      a[..i] == b[..i] && a[i] == b[i] && a[i + 1] == b[i + 1] && a[i + 2] == b[i + 2] && a[i + 3] == b[i + 3]
  {
    assert a[..i + 4] == a[..i] + [a[i], a[i + 1], a[i + 2], a[i + 3]];
    assert b[..i + 4] == b[..i] + [b[i], b[i + 1], b[i + 2], b[i + 3]];
  }

  lemma SameWords(a: seq<byte>, b: seq<byte>, i: nat)
    requires i + 4 <= |a| == |b|
    ensures a[..i + 4] == b[..i + 4] <==> a[..i] == b[..i] && U32(a, i) == U32(b, i)
  {
    SameWord(a, i, b, i);
    SameFour(a, b, i);
  }

  /** (diff & 0xffff) | (diff >> 16): small enough for an int, and zero only if diff is. */
  method Fold(diff: uint32) returns (r: uint32)
    ensures r == 0 <==> diff == 0
    ensures r < 0x1_0000
  {
    WordIsPow();
    PowAdd(8, 8);
    assert Pow2(8) == 256;
    AndLow(diff, 16, BITS);
    var low, high := Bits(And, diff, 0xffff), diff / 0x1_0000;
    OrIsZero(low, high, BITS);
    OrSmall(low, high, 16, BITS);
    r := Bits(Or, low, high);
  }

  /** mbedtls_ct_memcmp, by words as far as they go when unaligned reads are cheap, then by bytes: 0
      exactly when the ranges are equal. */
  method Memcmp(a: seq<byte>, b: seq<byte>, byWords: bool) returns (r: uint32)
    requires |a| == |b|
    ensures r == 0 <==> a == b
    ensures r < 0x1_0000
  {
    var diff: uint32 := 0;
    var i := 0;
    if byWords {
      while i + 4 <= |a|
        invariant i <= |a| && (diff == 0 <==> a[..i] == b[..i])
      {
        var d := XorWords(U32(a, i), U32(b, i));
        diff := OrInto(diff, d);
        SameWords(a, b, i);
        i := i + 4;
      }
    }
    while i < |a|
      invariant i <= |a| && (diff == 0 <==> a[..i] == b[..i])
    {
      var x, y := a[i], b[i];
      var d := XorWords(x, y);
      diff := OrInto(diff, d);
      assert a[..i + 1] == a[..i] + [a[i]] && b[..i + 1] == b[..i] + [b[i]];
      i := i + 1;
    }
    assert a[..|a|] == a && b[..|b|] == b;
    r := Fold(diff);
  }

  /** mbedtls_ct_memcmp_partial: as if only bytes skipHead .. n - skipTail were compared. */
  method MemcmpPartial(a: seq<byte>, b: seq<byte>, skipHead: nat, skipTail: nat) returns (r: uint32)
    requires |a| == |b| < WORD && skipHead + skipTail <= |a|
    ensures r == 0 <==> a[skipHead..|a| - skipTail] == b[skipHead..|a| - skipTail]
  {
    var diff: uint32 := 0;
    var validEnd := |a| - skipTail;
    for i := 0 to |a|
      invariant diff == 0 <==> forall j :: skipHead <= j < validEnd && j < i ==> a[j] == b[j]
    {
      var d := XorWords(a[i], b[i]);
      var low := UintGe(i, skipHead);
      var high := UintLt(i, validEnd);
      var valid := UintIfElse0(low, high);
      var seen := UintIfElse0(valid, d);
      diff := OrInto(diff, seen);
    }
    r := diff;
  }

  /** A plain move left by `k` and zero fill. */
  function Moved(s: seq<byte>, k: nat): (r: seq<byte>)
    requires k <= |s|
    ensures |r| == |s|
  {
    s[k..] + seq(k, _ => 0)
  }

  lemma MovedOnce(s: seq<byte>, k: nat)
    requires k < |s|
    ensures Moved(s, k + 1) == Moved(s, k)[1..] + [0]
  {}

  /** One pass over the buffer: a no-op, or a shift by one byte. */
  method Pass(buf: array<byte>, noOp: uint32)
    requires noOp in {TRUE, FALSE} && buf.Length > 0
    modifies buf
    ensures buf[..] == if noOp == TRUE then old(buf[..]) else old(buf[..])[1..] + [0]
  {
    var total := buf.Length;
    for n := 0 to total - 1
      invariant forall j :: 0 <= j < n ==> buf[j] == if noOp == TRUE then old(buf[j]) else old(buf[j + 1])
      invariant forall j :: n <= j < total ==> buf[j] == old(buf[j])
    {
      var current, next := buf[n], buf[n + 1];
      var b := UintIf(noOp, current, next);
      buf[n] := b;
    }
    var last := UintIfElse0(noOp, buf[total - 1]);
    buf[total - 1] := last;
  }

  /** mbedtls_ct_memmove_left: the last `offset` of `total` passes shift the buffer one byte left and
      zero its last byte; the others are no-ops.  The result is a plain move and zero fill. */
  method MemmoveLeft(buf: array<byte>, offset: nat)
    requires offset <= buf.Length < WORD
    modifies buf
    ensures buf[..] == Moved(old(buf[..]), offset)
  {
    var total := buf.Length;
    ghost var s := buf[..];
    for i := 0 to total
      invariant buf[..] == Moved(s, if i < total - offset then 0 else i - (total - offset))
    {
      var noOp := UintGt(total - offset, i);
      Pass(buf, noOp);
      if i >= total - offset { MovedOnce(s, i - (total - offset)); }
    }
  }

  /** The second source of a conditional copy; the destination itself if there is none. */
  datatype Second = Absent | Given(bytes: seq<byte>)

  function Other(src2: Second, dest: seq<byte>): seq<byte> { if src2.Given? then src2.bytes else dest }

  lemma SameBytes(a: seq<byte>, b: seq<byte>, i: nat)
    requires i + 4 <= |a| && i + 4 <= |b| && U32(a, i) == U32(b, i)
    ensures forall j :: i <= j < i + 4 ==> a[j] == b[j]
  {
    SameWord(a, i, b, i);
  }

  /** Bytes below i come from `from`, the rest are as they were. */
  ghost predicate CopiedTo(now: seq<byte>, from: seq<byte>, was: seq<byte>, i: nat) {
    |now| == |from| == |was| && forall j :: 0 <= j < |now| ==> now[j] == if j < i then from[j] else was[j]
  }

  /** One word of the copy. */
  method CopyWord(condition: uint32, dest: array<byte>, src1: seq<byte>, src2: Second, i: nat, ghost from: seq<byte>,
                  ghost was: seq<byte>)
    requires condition in {TRUE, FALSE} && |src1| == dest.Length == |was| && i + 4 <= dest.Length
    requires src2.Given? ==> |src2.bytes| == dest.Length
    requires from == if condition == TRUE then src1 else Other(src2, was)
    requires CopiedTo(dest[..], from, was, i)
    modifies dest
    ensures CopiedTo(dest[..], from, was, i + 4)
  {
    var second := if src2.Given? then U32(src2.bytes, i) else U32(dest[..], i);
    var w := UintIf(condition, U32(src1, i), second);
    assert w == U32(from, i);
    StoreU32(dest, i, w);
    SameBytes(dest[..], from, i);
  }

  method CopyByte(condition: uint32, dest: array<byte>, src1: seq<byte>, src2: Second, i: nat, ghost from: seq<byte>,
                  ghost was: seq<byte>)
    requires condition in {TRUE, FALSE} && |src1| == dest.Length == |was| && i < dest.Length
    requires src2.Given? ==> |src2.bytes| == dest.Length
    requires from == if condition == TRUE then src1 else Other(src2, was)
    requires CopiedTo(dest[..], from, was, i)
    modifies dest
    ensures CopiedTo(dest[..], from, was, i + 1)
  {
    var second := if src2.Given? then src2.bytes[i] else dest[i];
    var b := UintIf(condition, src1[i], second);
    dest[i] := b;
  }

  /** mbedtls_ct_memcpy_if: the first source or the second, by words as far as they go when unaligned
      accesses are cheap, then by bytes. */
  method MemcpyIf(condition: uint32, dest: array<byte>, src1: seq<byte>, src2: Second, byWords: bool)
    requires condition in {TRUE, FALSE} && |src1| == dest.Length && (src2.Given? ==> |src2.bytes| == dest.Length)
    modifies dest
    ensures dest[..] == if condition == TRUE then src1 else Other(src2, old(dest[..]))
  {
    ghost var was := dest[..];
    ghost var from := if condition == TRUE then src1 else Other(src2, was);
    var i := 0;
    if byWords {
      while i + 4 <= dest.Length
        invariant i <= dest.Length && CopiedTo(dest[..], from, was, i)
      {
        CopyWord(condition, dest, src1, src2, i, from, was);
        i := i + 4;
      }
    }
    while i < dest.Length
      invariant i <= dest.Length && CopiedTo(dest[..], from, was, i)
    {
      CopyByte(condition, dest, src1, src2, i, from, was);
      i := i + 1;
    }
  }

  /** mbedtls_ct_memcpy_offset: copies the slice at a secret offset, reading every candidate slice. */
  method MemcpyOffset(dest: array<byte>, src: seq<byte>, offset: nat, offsetMin: nat, offsetMax: nat, byWords: bool)
    requires offsetMin <= offset <= offsetMax < WORD - 1 && offsetMax + dest.Length <= |src|
    modifies dest
    ensures dest[..] == src[offset..offset + dest.Length]
  {
    for v := offsetMin to offsetMax + 1
      invariant v > offset ==> dest[..] == src[offset..offset + dest.Length]
    {
      var here := UintEq(v, offset);
      MemcpyIf(here, dest, src[v..v + dest.Length], Absent, byWords);
    }
  }
}
