/** Bytes as numbers, and 32-bit words as they lie in memory. */
module LittleEndian {

  const WORD := 0x1_0000_0000

  type byte = x: int | 0 <= x < 256

  /** The word at `i`. */
  function U32(m: seq<byte>, i: nat): (v: nat)
    requires i + 4 <= |m|
    ensures v < WORD
  {
    m[i] as int + 0x100 * (m[i + 1] as int + 0x100 * (m[i + 2] as int + 0x100 * m[i + 3] as int))
  }

  /** The least significant byte comes first. */
  lemma LowByteFirst(m: seq<byte>, i: nat)
    requires i + 4 <= |m|
    ensures U32(m, i) % 0x100 == m[i] && U32(m, i) / 0x100 % 0x100 == m[i + 1]
    ensures U32(m, i) / 0x1_0000 % 0x100 == m[i + 2] && U32(m, i) / 0x100_0000 == m[i + 3]
  {}

  function WordBytes(v: nat): (b: seq<byte>)
    requires v < WORD
    ensures |b| == 4
  {
    var x := v / 0x100;
    var y := x / 0x100;
    [v % 0x100, x % 0x100, y % 0x100, y / 0x100]
  }

  lemma WordRoundTrip(m: seq<byte>, i: nat, v: nat)
    requires v < WORD && i + 4 <= |m| && m[i..i + 4] == WordBytes(v)
    ensures U32(m, i) == v
  {
    var b := m[i..i + 4];
    assert m[i] == b[0] && m[i + 1] == b[1] && m[i + 2] == b[2] && m[i + 3] == b[3];
  }

  /** Two words are the same exactly when their bytes are. */
  lemma SameWord(a: seq<byte>, i: nat, b: seq<byte>, j: nat)
    requires i + 4 <= |a| && j + 4 <= |b|
    ensures U32(a, i) == U32(b, j) <==>
      a[i] == b[j] && a[i + 1] == b[j + 1] && a[i + 2] == b[j + 2] && a[i + 3] == b[j + 3]
  {
    var r, r' := a[i + 2] as int + 0x100 * a[i + 3] as int, b[j + 2] as int + 0x100 * b[j + 3] as int;
    Digit(a[i], a[i + 1] as int + 0x100 * r, b[j], b[j + 1] as int + 0x100 * r');
    Digit(a[i + 1], r, b[j + 1], r');
    Digit(a[i + 2], a[i + 3] as int, b[j + 2], b[j + 3] as int);
  }

  lemma Digit(d: byte, r: int, d': byte, r': int)
    ensures d as int + 0x100 * r == d' as int + 0x100 * r' <==> d == d' && r == r'
  {}

  /** `m` with the word `v` written at `i`. */
  function Put32(m: seq<byte>, i: nat, v: nat): (r: seq<byte>)
    requires i + 4 <= |m| && v < WORD
    ensures |r| == |m| && U32(r, i) == v
    ensures forall j :: 0 <= j < |m| && !(i <= j < i + 4) ==> r[j] == m[j]
  {
    var b := WordBytes(v);
    m[i := b[0]][i + 1 := b[1]][i + 2 := b[2]][i + 3 := b[3]]
  }

  /** write_u32, mbedtls_put_unaligned_uint32 */
  method StoreU32(a: array<byte>, i: nat, v: nat)
    requires i + 4 <= a.Length && v < WORD
    modifies a
    ensures a[..] == Put32(old(a[..]), i, v)
  {
    var b := WordBytes(v);
    a[i] := b[0];
    a[i + 1] := b[1];
    a[i + 2] := b[2];
    a[i + 3] := b[3];
  }

  /** read_u32 */
  method LoadU32(a: array<byte>, i: nat) returns (v: nat)
    requires i + 4 <= a.Length
    ensures v == U32(a[..], i)
  {
    v := a[i] as int + 0x100 * (a[i + 1] as int + 0x100 * (a[i + 2] as int + 0x100 * a[i + 3] as int));
  }
}
