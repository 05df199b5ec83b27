/** Byte strings, exclusive or, big-endian integers and 16-byte blocks, shared by the cipher and hash
    modules. */
module Bytes {

  type Block = b: seq<bv8> | |b| == 16 witness seq(16, _ => 0)

  function Xor(a: seq<bv8>, b: seq<bv8>): (r: seq<bv8>)
    requires |a| == |b|
    ensures |r| == |a|
    ensures forall i :: 0 <= i < |r| ==> r[i] == a[i] ^ b[i]
  {
    seq(|a|, i requires 0 <= i < |a| => a[i] ^ b[i])
  }

  lemma XorTwice(a: seq<bv8>, b: seq<bv8>)
    requires |a| == |b|
    ensures Xor(Xor(a, b), b) == a
  {}

  lemma XorSplit(a: seq<bv8>, b: seq<bv8>, c: seq<bv8>, d: seq<bv8>)
    requires |a| == |b| && |c| == |d|
    ensures Xor(a + c, b + d) == Xor(a, b) + Xor(c, d)
  {}

  function Zeros(n: nat): (z: seq<bv8>)
    ensures |z| == n && forall i :: 0 <= i < n ==> z[i] == 0
  {
    seq(n, _ => 0)
  }

  lemma Assoc(a: seq<bv8>, b: seq<bv8>, c: seq<bv8>)
    ensures a + b + c == a + (b + c) && [] + c == c && a + [] == a
  {}

  /** `D` undoes `E`. */
  ghost predicate Undoes(E: Block -> Block, D: Block -> Block) {
    forall b: Block {:trigger E(b)} :: D(E(b)) == b
  }

  /** The chunks of an input, put back together. */
  function Flatten(chunks: seq<seq<bv8>>): seq<bv8> {
    if chunks == [] then [] else chunks[0] + Flatten(chunks[1..])
  }

  lemma {:induction false} FlattenSnoc(chunks: seq<seq<bv8>>, c: seq<bv8>)
    ensures Flatten(chunks + [c]) == Flatten(chunks) + c
  {
    if chunks == [] {
      assert Flatten([] + [c]) == c + Flatten([]);
    } else {
      FlattenSnoc(chunks[1..], c);
      assert (chunks + [c])[1..] == chunks[1..] + [c];
    }
  }

  lemma FlattenNext(chunks: seq<seq<bv8>>, i: nat)
    requires i < |chunks|
    ensures Flatten(chunks[..i + 1]) == Flatten(chunks[..i]) + chunks[i]
  {
    FlattenSnoc(chunks[..i], chunks[i]);
    assert chunks[..i] + [chunks[i]] == chunks[..i + 1];
  }

  // ---------------------------------------------------------------- integers

  const TWO32 := 0x1_0000_0000

  /** x - y in 32 bits. */
  function Minus32(x: nat, y: nat): (d: nat)
    requires x < TWO32 && y < TWO32
  {
    if x >= y then x - y else x + TWO32 - y
  }

  lemma Successor(b: bv8)
    requires b as int < 255
    ensures (b + 1) as int == b as int + 1
  {}

  /** The byte with value `n`. */
  function Byte(n: nat): bv8
    requires n < 256
  {
    if n == 0 then 0 else Byte(n - 1) + 1
  }

  lemma {:induction false} ByteValue(n: nat)
    requires n < 256
    ensures Byte(n) as int == n
  {
    if n > 0 {
      ByteValue(n - 1);
      Successor(Byte(n - 1));
    }
  }

  lemma SameValue(b: bv8, c: bv8)
    requires b as int == c as int
    ensures b == c
  {
    assert (b as int) as bv8 == b;
    assert (c as int) as bv8 == c;
  }

  lemma ByteOfValue(b: bv8)
    ensures 0 <= b as int < 256 && Byte(b as int) == b
  {
    ByteValue(b as int);
    SameValue(Byte(b as int), b);
  }

  // Bytes as numbers, which is how the constant-flow code sees them

  function Ints(b: seq<bv8>): (s: seq<int>)
    ensures |s| == |b| && forall i :: 0 <= i < |s| ==> 0 <= s[i] < 256
  {
    seq(|b|, i requires 0 <= i < |b| => b[i] as int)
  }

  function Bvs(s: seq<int>): (b: seq<bv8>)
    requires forall i :: 0 <= i < |s| ==> 0 <= s[i] < 256
    ensures |b| == |s|
  {
    seq(|s|, i requires 0 <= i < |s| => Byte(s[i]))
  }

  lemma BvsInts(b: seq<bv8>)
    ensures Bvs(Ints(b)) == b
  {
    forall i | 0 <= i < |b| ensures Bvs(Ints(b))[i] == b[i] { ByteOfValue(b[i]); }
  }

  lemma IntsBvs(s: seq<int>)
    requires forall i :: 0 <= i < |s| ==> 0 <= s[i] < 256
    ensures Ints(Bvs(s)) == s
  {
    forall i | 0 <= i < |s| ensures Ints(Bvs(s))[i] == s[i] { ByteValue(s[i]); }
  }

  /** MBEDTLS_PUT_UINT32_BE */
  function Be32(n: nat): (b: seq<bv8>)
    requires n < TWO32
    ensures |b| == 4
  {
    var x := n / 256;
    var y := x / 256;
    [Byte(y / 256), Byte(y % 256), Byte(x % 256), Byte(n % 256)]
  }

  /** Four bytes as one word, most significant first. */
  function WordBe(b: seq<bv8>): bv32
    requires |b| == 4
  {
    (b[0] as bv32 << 24) | (b[1] as bv32 << 16) | (b[2] as bv32 << 8) | b[3] as bv32
  }

  /** MBEDTLS_GET_UINT32_BE */
  function FromBe32(b: seq<bv8>): (n: nat)
    requires |b| == 4
    ensures n < TWO32
  {
    b[0] as int * 0x100_0000 + b[1] as int * 0x1_0000 + b[2] as int * 0x100 + b[3] as int
  }

  lemma WordValue(a: bv8, b: bv8, c: bv8, d: bv8)
    ensures ((a as bv32 << 24) | (b as bv32 << 16) | (c as bv32 << 8) | d as bv32) as int
         == a as int * 0x100_0000 + b as int * 0x1_0000 + c as int * 0x100 + d as int
  {}

  lemma FromBe32Word(b: seq<bv8>)
    requires |b| == 4
    ensures FromBe32(b) == WordBe(b) as int
  {
    WordValue(b[0], b[1], b[2], b[3]);
  }

  lemma Be32RoundTrip(n: nat)
    requires n < TWO32
    ensures FromBe32(Be32(n)) == n
  {
    var x := n / 256;
    var y := x / 256;
    ByteValue(y / 256);
    ByteValue(y % 256);
    ByteValue(x % 256);
    ByteValue(n % 256);
  }

  lemma SameWord(x: bv32, y: bv32)
    requires x as int == y as int
    ensures x == y
  {
    assert (x as int) as bv32 == x;
    assert (y as int) as bv32 == y;
  }

  lemma WordBeInjective(b: seq<bv8>, c: seq<bv8>)
    requires |b| == 4 && |c| == 4 && WordBe(b) == WordBe(c)
    ensures b == c
  {}

  lemma FromBe32RoundTrip(b: seq<bv8>)
    requires |b| == 4
    ensures Be32(FromBe32(b)) == b
  {
    var c := Be32(FromBe32(b));
    Be32RoundTrip(FromBe32(b));
    FromBe32Word(b);
    FromBe32Word(c);
    SameWord(WordBe(b), WordBe(c));
    WordBeInjective(b, c);
  }

  /** The `k` low-order bytes of `n`, most significant first. */
  function BeBytes(n: nat, k: nat): (b: seq<bv8>)
    ensures |b| == k
    decreases k
  {
    if k == 0 then [] else BeBytes(n / 256, k - 1) + [Byte(n % 256)]
  }

  /** n >> 8k */
  function Shr(n: nat, k: nat): nat {
    if k == 0 then n else Shr(n / 256, k - 1)
  }

  lemma {:induction false} BeSplit(n: nat, j: nat, k: nat)
    ensures BeBytes(n, j + k) == BeBytes(Shr(n, k), j) + BeBytes(n, k)
    decreases k
  {
    if k > 0 {
      BeSplit(n / 256, j, k - 1);
      Assoc(BeBytes(Shr(n, k), j), BeBytes(n / 256, k - 1), [Byte(n % 256)]);
    }
  }

  lemma Split256(n: nat, q: nat, r: nat)
    requires n == q * 256 + r && r < 256
    ensures n / 256 == q && n % 256 == r
  {}

  /** The low four bytes of a number. */
  lemma LowBytes(n: nat, q: nat, low: nat)
    requires n == q * TWO32 + low && low < TWO32
    ensures BeBytes(n, 4) == Be32(low)
    ensures n / 256 / 256 / 256 / 256 == q
  {
    var a := low / 256;
    var b := a / 256;
    var c := b / 256;
    var n1, n2, n3 := q * 0x100_0000 + a, q * 0x1_0000 + b, q * 0x100 + c;
    Split256(n, n1, low % 256);
    Split256(n1, n2, a % 256);
    Split256(n2, n3, b % 256);
    Split256(n3, q, c);
    assert BeBytes(n3, 1) == [Byte(c)];
    assert BeBytes(n2, 2) == [Byte(c), Byte(b % 256)];
    assert BeBytes(n1, 3) == [Byte(c), Byte(b % 256), Byte(a % 256)];
  }

  lemma ShrFour(n: nat)
    ensures Shr(n, 4) == n / 256 / 256 / 256 / 256
  {
    assert Shr(n / 256, 3) == Shr(n / 256 / 256, 2);
    assert Shr(n / 256 / 256 / 256, 1) == n / 256 / 256 / 256 / 256;
  }

  /** The number that bytes stand for, most significant first. */
  function BeValue(b: seq<bv8>): (n: nat)
    decreases |b|
  {
    if b == [] then 0 else 256 * BeValue(b[..|b| - 1]) + b[|b| - 1] as int
  }

  lemma {:induction false} BeBytesOf(b: seq<bv8>)
    ensures BeBytes(BeValue(b), |b|) == b
    decreases |b|
  {
    if b != [] {
      var init, last := b[..|b| - 1], b[|b| - 1];
      BeBytesOf(init);
      ByteOfValue(last);
      Split256(BeValue(b), BeValue(init), last as int);
      assert init + [last] == b;
    }
  }

  function Pow256(k: nat): (p: nat)
    ensures p >= 1
  {
    if k == 0 then 1 else 256 * Pow256(k - 1)
  }

  lemma ModSplit(n: nat, p: nat)
    requires p >= 1
    ensures 256 * (n / 256 % p) + n % 256 == n % (256 * p)
  {
    var q := n / 256 / p;
    assert n / 256 == q * p + n / 256 % p;
    assert n == (256 * p) * q + (256 * (n / 256 % p) + n % 256);
    ModUnique(n, 256 * p, q, 256 * (n / 256 % p) + n % 256);
  }

  lemma ModUnique(n: nat, m: nat, q: nat, r: nat)
    requires r < m && n == m * q + r
    ensures n % m == r
  {
    var d := q - n / m;
    assert m * d == n % m - r;
    assert -1 < d < 1;
  }

  /** The bytes of a number stand for that number, modulo 256^k. */
  lemma {:induction false} BeValueOf(n: nat, k: nat)
    ensures BeValue(BeBytes(n, k)) == n % Pow256(k)
    decreases k
  {
    if k > 0 {
      var b := BeBytes(n, k);
      assert b[..k - 1] == BeBytes(n / 256, k - 1) && b[k - 1] == Byte(n % 256);
      BeValueOf(n / 256, k - 1);
      ByteValue(n % 256);
      ModSplit(n, Pow256(k - 1));
    }
  }

  // ---------------------------------------------------------------- buffers

  /** memcpy and memset */
  method Copy(output: array<bv8>, at: nat, src: seq<bv8>)
    requires at + |src| <= output.Length
    modifies output
    ensures output[..] == old(output[..at]) + src + old(output[at + |src|..])
  {
    for i := 0 to |src|
      invariant forall j :: 0 <= j < output.Length && !(at <= j < at + i) ==> output[j] == old(output[j])
      invariant forall j :: 0 <= j < i ==> output[at + j] == src[j]
    {
      output[at + i] := src[i];
    }
  }

  /** The same, part by part. */
  method Set(a: array<bv8>, at: nat, s: seq<bv8>)
    requires at + |s| <= a.Length
    modifies a
    ensures a[..at] == old(a[..at]) && a[at..at + |s|] == s && a[at + |s|..] == old(a[at + |s|..])
  {
    Copy(a, at, s);
  }
}
