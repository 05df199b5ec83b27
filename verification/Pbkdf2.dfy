/** PBKDF2 (pkcs5.twl.c): the derived key is the prefix of T1 || T2 || ... of section 5.2 of RFC 2898. */
module Pbkdf2 {
  import opened Bytes
  import opened Sha1
  import opened Hmac

  /** The number `i` in four bytes, most significant first. */
  function Int(i: nat): seq<bv8> { BeBytes(i, 4) }

  function XorSum(a: Sum, b: Sum): Sum { Xor(a, b) }

  /** U_j, counted from 1. */
  function U(prf: Hash, seed: seq<bv8>, j: nat): Sum
    decreases j
  {
    if j <= 1 then prf(seed) else prf(U(prf, seed, j - 1))
  }

  /** U_1 ^ ... ^ U_c */
  function F(prf: Hash, seed: seq<bv8>, c: nat): Sum
    decreases c
  {
    if c <= 1 then U(prf, seed, 1) else XorSum(F(prf, seed, c - 1), U(prf, seed, c))
  }

  lemma XorBack(x: bv8, y: bv8)
    ensures (x ^ y) ^ x == y
  {}

  /** F is the sum of the chain U_1 = PRF(seed), U_{j+1} = PRF(U_j): it starts at U_1, and every further
      iteration adds the next one. */
  lemma SumOfChain(prf: Hash, seed: seq<bv8>, c: nat)
    requires c >= 1
    ensures F(prf, seed, 1) == U(prf, seed, 1) == prf(seed) && U(prf, seed, c + 1) == prf(U(prf, seed, c))
    ensures Xor(F(prf, seed, c + 1), F(prf, seed, c)) == U(prf, seed, c + 1)
  {
    var f, u := F(prf, seed, c), U(prf, seed, c + 1);
    forall i | 0 <= i < SIZE ensures Xor(F(prf, seed, c + 1), f)[i] == u[i] { XorBack(f[i], u[i]); }
  }

  /** T_1 || ... || T_n */
  function Ts(prf: Hash, count: nat -> seq<bv8>, salt: seq<bv8>, c: nat, n: nat): (t: seq<bv8>)
    ensures |t| == n * SIZE
    decreases n
  {
    if n == 0 then [] else Ts(prf, count, salt, c, n - 1) + F(prf, salt + count(n), c)
  }

  /** Derived keys of different lengths are prefixes of the same infinite string. */
  lemma {:induction false} TsPrefix(prf: Hash, count: nat -> seq<bv8>, salt: seq<bv8>, c: nat, m: nat, n: nat)
    requires m <= n
    ensures m * SIZE <= n * SIZE && Ts(prf, count, salt, c, n)[..m * SIZE] == Ts(prf, count, salt, c, m)
    decreases n
  {
    if m < n {
      TsPrefix(prf, count, salt, c, m, n - 1);
    }
  }

  /** Byte j is byte j mod 20 of the block with number j / 20 + 1. */
  lemma {:induction false} TsByte(prf: Hash, count: nat -> seq<bv8>, salt: seq<bv8>, c: nat, n: nat, j: nat)
    requires j < n * SIZE
    ensures Ts(prf, count, salt, c, n)[j] == F(prf, salt + count(j / SIZE + 1), c)[j % SIZE]
    decreases n
  {
    if j < (n - 1) * SIZE {
      TsByte(prf, count, salt, c, n - 1, j);
    } else {
      assert j / SIZE == n - 1 && j % SIZE == j - (n - 1) * SIZE;
    }
  }

  /** Blocks needed for `len` bytes. */
  function Needed(len: nat): (n: nat)
    ensures (n - 1) * SIZE < len <= n * SIZE || (len == 0 && n == 0)
  {
    (len + SIZE - 1) / SIZE
  }

  // ---------------------------------------------------------------- the counter

  /** Big-endian increment with carry. */
  function Inc(b: seq<bv8>): (r: seq<bv8>)
    ensures |r| == |b|
  {
    if b == [] then [] else
      var last := b[|b| - 1] + 1;
      if last != 0 then b[..|b| - 1] + [last] else Inc(b[..|b| - 1]) + [0]
  }

  lemma ByteNext(n: nat)
    requires n < 256
    ensures n < 255 ==> Byte(n) + 1 == Byte(n + 1) && Byte(n + 1) != 0
    ensures n == 255 ==> Byte(n) + 1 == 0
  {
    ByteValue(n);
    if n < 255 { ByteValue(n + 1); } else { SameValue(Byte(n), 255); }
  }

  lemma {:induction false} IncBe(n: nat, k: nat)
    ensures Inc(BeBytes(n, k)) == BeBytes(n + 1, k)
    decreases k
  {
    if k > 0 {
      var b := BeBytes(n, k);
      assert b[..k - 1] == BeBytes(n / 256, k - 1) && b[k - 1] == Byte(n % 256);
      ByteNext(n % 256);
      if n % 256 == 255 {
        IncBe(n / 256, k - 1);
        assert (n + 1) / 256 == n / 256 + 1 && (n + 1) % 256 == 0;
      } else {
        assert (n + 1) / 256 == n / 256 && (n + 1) % 256 == n % 256 + 1;
      }
    }
  }

  /** The loop that increments the counter bytes. */
  method Increment(counter: array<bv8>)
    modifies counter
    ensures counter[..] == Inc(old(counter[..]))
  {
    var i := counter.Length;
    ghost var before := counter[..];
    assert before[..i] == before;
    while i > 0
      invariant 0 <= i <= counter.Length
      invariant counter[..i] == before[..i]
      invariant Inc(before) == Inc(before[..i]) + counter[i..]
    {
      assert before[..i][..i - 1] == before[..i - 1] && before[..i][i - 1] == before[i - 1] == counter[i - 1];
      counter[i - 1] := counter[i - 1] + 1;
      if counter[i - 1] != 0 { break; }
      assert counter[i - 1..] == [0] + counter[i..];
      i := i - 1;
    }
  }

  predicate AskedInt(i: nat) { true }
  ghost predicate IsInt(count: nat -> seq<bv8>) {
    forall i {:trigger AskedInt(i)} :: AskedInt(i) ==> count(i) == Int(i)
  }

  method FirstCounter(ghost count: nat -> seq<bv8>) returns (counter: array<bv8>)
    requires IsInt(count)
    ensures fresh(counter) && counter.Length == 4 && counter[..] == count(1)
  {
    assert AskedInt(1);
    counter := new bv8[4](_ => 0);
    counter[3] := 1;
    assert BeBytes(1, 4) == [0, 0, 0, 1];
  }

  method NextCounter(counter: array<bv8>, ghost count: nat -> seq<bv8>, ghost n: nat)
    requires IsInt(count) && counter[..] == count(n)
    modifies counter
    ensures counter[..] == count(n + 1)
  {
    assert AskedInt(n) && AskedInt(n + 1);
    IncBe(n, 4);
    Increment(counter);
  }

  /** The next U, and the sum so far. */
  method Iterate(ctx: HmacContext, ghost prf: Hash, ghost seed: seq<bv8>, ghost i: nat, md1: Sum, work: Sum)
    returns (md1': Sum, work': Sum)
    requires ctx.Idle(prf) && i >= 1 && md1 == U(prf, seed, i) && work == F(prf, seed, i)
    modifies ctx`text, ctx.sha, ctx.sha.buffer
    ensures ctx.Idle(prf) && md1' == U(prf, seed, i + 1) && work' == F(prf, seed, i + 1)
  {
    Assoc([], [], md1);
    md1' := ctx.Mac([], md1, prf);
    work' := XorSum(work, md1');
  }

  /** U_1 ^ ... ^ U_c, with the context reset after every use. */
  method Block(ctx: HmacContext, ghost prf: Hash, salt: seq<bv8>, number: seq<bv8>, c: nat) returns (work: Sum)
    requires ctx.Idle(prf) && |salt| < TWO32 && |number| < TWO32
    modifies ctx`text, ctx.sha, ctx.sha.buffer
    ensures ctx.Idle(prf) && work == F(prf, salt + number, c)
  {
    var first := ctx.Mac(salt, number, prf);
    work := Iterations(ctx, prf, salt + number, first, c);
  }

  /** The inner loop. */
  method Iterations(ctx: HmacContext, ghost prf: Hash, ghost seed: seq<bv8>, first: Sum, c: nat) returns (work: Sum)
    requires ctx.Idle(prf) && first == U(prf, seed, 1)
    modifies ctx`text, ctx.sha, ctx.sha.buffer
    ensures ctx.Idle(prf) && work == F(prf, seed, c)
  {
    work := first;
    var md1, i := first, 1;
    while i < c
      invariant i == 1 || i <= c
      invariant i >= 1 && ctx.Idle(prf) && md1 == U(prf, seed, i) && work == F(prf, seed, i)
    {
      md1, work := Iterate(ctx, prf, seed, i, md1, work);
      i := i + 1;
    }
  }

  lemma TsMore(prf: Hash, count: nat -> seq<bv8>, salt: seq<bv8>, c: nat, n: nat, output: seq<bv8>, work: Sum, use: nat)
    requires output == Ts(prf, count, salt, c, n) && work == F(prf, salt + count(n + 1), c) && use <= SIZE
    ensures output + work[..use] == Ts(prf, count, salt, c, n + 1)[..n * SIZE + use]
  {}

  lemma NeededBy(n: nat, len: nat)
    requires n * SIZE < len <= (n + 1) * SIZE
    ensures Needed(len) == n + 1
  {}

  /** After n blocks `output` is as much of them as is wanted. */
  ghost predicate Produced(prf: Hash, count: nat -> seq<bv8>, salt: seq<bv8>, c: nat, n: nat, len: nat,
                           output: seq<bv8>) {
    var ok := |output| <= n * SIZE && output == Ts(prf, count, salt, c, n)[..|output|]
      && if |output| < len then |output| == n * SIZE else |output| == len && n == Needed(len);
    ok
  }

  /** The memcpy of as much of `work` as is still wanted. */
  method Append(ghost prf: Hash, ghost count: nat -> seq<bv8>, ghost salt: seq<bv8>, ghost c: nat, ghost n: nat,
                len: nat, output: seq<bv8>, work: Sum)
    returns (output': seq<bv8>)
    requires Produced(prf, count, salt, c, n, len, output) && |output| < len && work == F(prf, salt + count(n + 1), c)
    ensures Produced(prf, count, salt, c, n + 1, len, output') && |output'| > |output|
  {
    var useLen := if len - |output| < SIZE then len - |output| else SIZE;
    TsMore(prf, count, salt, c, n, output, work, useLen);
    if len <= (n + 1) * SIZE { NeededBy(n, len); }
    output' := output + work[..useLen];
  }

  /** One turn of the outer loop. */
  method Turn(ctx: HmacContext, ghost prf: Hash, ghost count: nat -> seq<bv8>, counter: array<bv8>,
              salt: seq<bv8>, c: nat, keyLength: nat, output: seq<bv8>, ghost n: nat)
    returns (output': seq<bv8>)
    requires ctx.Idle(prf) && IsInt(count) && counter != ctx.sha.buffer && counter != ctx.pads && |salt| < TWO32
    requires counter.Length == 4 && counter[..] == count(n + 1)
    requires Produced(prf, count, salt, c, n, keyLength, output) && |output| < keyLength
    modifies counter, ctx`text, ctx.sha, ctx.sha.buffer
    ensures ctx.Idle(prf) && counter[..] == count(n + 2) && |output'| > |output|
    ensures Produced(prf, count, salt, c, n + 1, keyLength, output')
  {
    var work := Block(ctx, prf, salt, counter[..], c);
    output' := Append(prf, count, salt, c, n, keyLength, output, work);
    NextCounter(counter, count, n + 1);
  }

  /** The outer loop. */
  method Turns(ctx: HmacContext, ghost prf: Hash, ghost count: nat -> seq<bv8>, counter: array<bv8>,
               salt: seq<bv8>, c: nat, keyLength: nat)
    returns (output: seq<bv8>)
    requires ctx.Idle(prf) && IsInt(count) && counter != ctx.sha.buffer && counter != ctx.pads && |salt| < TWO32
    requires counter.Length == 4 && counter[..] == count(1)
    modifies counter, ctx`text, ctx.sha, ctx.sha.buffer
    ensures Produced(prf, count, salt, c, Needed(keyLength), keyLength, output) && |output| == keyLength
  {
    output := [];
    ghost var n := 0;
    while |output| < keyLength
      invariant counter[..] == count(n + 1) && ctx.Idle(prf)
      invariant Produced(prf, count, salt, c, n, keyLength, output)
      decreases keyLength - |output|
    {
      output := Turn(ctx, prf, count, counter, salt, c, keyLength, output, n);
      n := n + 1;
    }
  }

  /** pkcs5_pbkdf2_hmac */
  method Derive(ctx: HmacContext, ghost prf: Hash, ghost count: nat -> seq<bv8>,
                password: seq<bv8>, salt: seq<bv8>, c: nat, keyLength: nat)
    returns (output: seq<bv8>)
    requires ctx.Linked() && IsHmac(prf, ctx.H, password) && IsInt(count)
    requires |password| < TWO32 && |salt| < TWO32
    modifies ctx`key, ctx`prf, ctx`text, ctx.sha, ctx.sha.buffer, ctx.pads
    ensures |output| == keyLength && output == Ts(prf, count, salt, c, Needed(keyLength))[..keyLength]
  {
    var counter := FirstCounter(count);
    ctx.Starts(password, prf);
    output := Turns(ctx, prf, count, counter, salt, c, keyLength);
  }

  /** Section 5.2 of RFC 2898 with HMAC-SHA-1. */
  function DerivedKey(password: seq<bv8>, salt: seq<bv8>, c: nat, len: nat): (dk: seq<bv8>)
    ensures |dk| == len
  {
    Ts(m => HmacSha1(password, m), Int, salt, c, Needed(len))[..len]
  }

  /** Byte j of a derived key, whatever its length. */
  lemma DerivedByte(password: seq<bv8>, salt: seq<bv8>, c: nat, len: nat, j: nat)
    requires j < len
    ensures DerivedKey(password, salt, c, len)[j] ==
      F(m => HmacSha1(password, m), salt + Int(j / SIZE + 1), c)[j % SIZE]
  {
    TsByte(m => HmacSha1(password, m), Int, salt, c, Needed(len), j);
  }

  method Pbkdf2HmacSha1(password: seq<bv8>, salt: seq<bv8>, c: nat, len: nat) returns (output: seq<bv8>)
    requires |password| < TWO32 && |salt| < TWO32
    ensures output == DerivedKey(password, salt, c, len)
  {
    var ctx := new HmacContext(Compress, Sha1Sum);
    output := Derive(ctx, m => HmacSha1(password, m), Int, password, salt, c, len);
  }
}
