/** XTS with ciphertext stealing (aes.twl.c) over any 16-byte permutation, against sections 5.3 and 5.4
    of IEEE Std 1619. */
module Xts {
  import opened Bytes
  import opened Cbc
  import Gf128

  type Tweaks = nat -> Block

  /** The encrypted data unit number times x^j. */
  function Tweak(t0: Block, j: nat): Block
    decreases j
  {
    if j == 0 then t0 else Gf128.MulX(Tweak(t0, j - 1))
  }

  /** One block between two additions of its tweak. */
  function Xex(F: Block -> Block, t: Block, b: Block): Block { XorBlock(F(XorBlock(b, t)), t) }

  /** A data unit: whole blocks, at least one, and fewer than 16 bytes behind them. */
  datatype Unit = Unit(blocks: seq<Block>, tail: seq<bv8>)

  predicate Shaped(u: Unit) { |u.blocks| >= 1 && |u.tail| < 16 }

  /** The tweak of block j.  When a tail is decrypted the last block takes the tweak behind its own. */
  function Index(op: Operation, u: Unit, j: nat): nat
    requires j < |u.blocks|
  {
    if op == Decrypt && u.tail != [] && j == |u.blocks| - 1 then j + 1 else j
  }

  /** The whole blocks. */
  function Whole(F: Block -> Block, tw: Tweaks, op: Operation, u: Unit): (r: seq<Block>)
    ensures |r| == |u.blocks|
  {
    seq<Block>(|u.blocks|, j requires 0 <= j < |u.blocks| => Xex(F, tw(Index(op, u, j)), u.blocks[j]))
  }

  /** Ciphertext stealing: the tail and the end of the last block make one more block, which takes the
      last place; the beginning of the last block becomes the tail. */
  function Crypt(F: Block -> Block, tw: Tweaks, op: Operation, u: Unit): (r: Unit)
    requires Shaped(u)
    ensures Shaped(r) && |r.blocks| == |u.blocks| && |r.tail| == |u.tail|
  {
    var w, m, r := Whole(F, tw, op, u), |u.blocks|, |u.tail|;
    if r == 0 then Unit(w, []) else
      var last := w[m - 1];
      var t := tw(if op == Decrypt then m - 1 else m);
      Unit(w[m - 1 := Xex(F, t, u.tail + last[r..])], last[..r])
  }

  lemma XexUndone(E: Block -> Block, D: Block -> Block, t: Block, b: Block)
    requires Undoes(E, D)
    ensures Xex(D, t, Xex(E, t, b)) == b
  {
    var x := XorBlock(b, t);
    XorTwice(b, t);
    XorTwice(E(x), t);
    assert D(E(x)) == x;
  }

  lemma WholeAt(F: Block -> Block, tw: Tweaks, op: Operation, u: Unit, j: nat)
    requires j < |u.blocks|
    ensures Whole(F, tw, op, u)[j] == Xex(F, tw(Index(op, u, j)), u.blocks[j])
  {}

  /** A block that takes no part in stealing. */
  lemma BlockUndone(E: Block -> Block, D: Block -> Block, tw: Tweaks, u: Unit, j: nat)
    requires Undoes(E, D) && Shaped(u) && j < |u.blocks| && (j < |u.blocks| - 1 || u.tail == [])
    ensures Crypt(D, tw, Decrypt, Crypt(E, tw, Encrypt, u)).blocks[j] == u.blocks[j]
  {
    WholeAt(E, tw, Encrypt, u, j);
    WholeAt(D, tw, Decrypt, Crypt(E, tw, Encrypt, u), j);
    XexUndone(E, D, tw(j), u.blocks[j]);
  }

  /** The two ends that are exchanged. */
  lemma StealingUndone(E: Block -> Block, D: Block -> Block, tw: Tweaks, u: Unit)
    requires Undoes(E, D) && Shaped(u) && u.tail != []
    ensures var p := Crypt(D, tw, Decrypt, Crypt(E, tw, Encrypt, u));
      p.blocks[|u.blocks| - 1] == u.blocks[|u.blocks| - 1] && p.tail == u.tail
  {
    var m, r := |u.blocks|, |u.tail|;
    var c := Crypt(E, tw, Encrypt, u);
    WholeAt(E, tw, Encrypt, u, m - 1);
    WholeAt(D, tw, Decrypt, c, m - 1);
    var last := Xex(E, tw(m - 1), u.blocks[m - 1]);
    var stolen: Block := u.tail + last[r..];
    assert c.blocks[m - 1] == Xex(E, tw(m), stolen) && c.tail == last[..r];
    XexUndone(E, D, tw(m), stolen);
    assert stolen[..r] == u.tail && stolen[r..] == last[r..];
    XexUndone(E, D, tw(m - 1), u.blocks[m - 1]);
    assert last[..r] + last[r..] == last;
  }

  /** Decryption undoes encryption, with and without stealing. */
  lemma CryptUndone(E: Block -> Block, D: Block -> Block, tw: Tweaks, u: Unit)
    requires Undoes(E, D) && Shaped(u)
    ensures Crypt(D, tw, Decrypt, Crypt(E, tw, Encrypt, u)) == u
  {
    var p := Crypt(D, tw, Decrypt, Crypt(E, tw, Encrypt, u));
    if u.tail != [] { StealingUndone(E, D, tw, u); }
    forall j | 0 <= j < |u.blocks| ensures p.blocks[j] == u.blocks[j] {
      if j < |u.blocks| - 1 || u.tail == [] { BlockUndone(E, D, tw, u, j); }
    }
  }

  // ---------------------------------------------------------------- bytes

  const MIN := 16
  const MAX := 0x100_0000 // 2^20 blocks

  function Split(s: seq<bv8>): (u: Unit)
    requires |s| >= 16
    ensures Shaped(u) && |u.blocks| == |s| / 16 && |u.tail| == |s| % 16
  {
    var full := |s| - |s| % 16;
    Unit(Chop(s[..full]), s[full..])
  }

  function Concat(u: Unit): (s: seq<bv8>)
    ensures |s| == 16 * |u.blocks| + |u.tail|
  {
    Glue(u.blocks) + u.tail
  }

  lemma SplitConcat(u: Unit)
    requires Shaped(u)
    ensures |Concat(u)| >= 16 && Split(Concat(u)) == u
  {
    var s := Concat(u);
    assert s[..16 * |u.blocks|] == Glue(u.blocks) && s[16 * |u.blocks|..] == u.tail;
    ChopGlue(u.blocks);
  }

  lemma ConcatSplit(s: seq<bv8>)
    requires |s| >= 16
    ensures Concat(Split(s)) == s
  {
    var full := |s| - |s| % 16;
    GlueChop(s[..full]);
    assert s[..full] + s[full..] == s;
  }

  /** A data unit as bytes. */
  function CryptBytes(F: Block -> Block, tw: Tweaks, op: Operation, s: seq<bv8>): (r: seq<bv8>)
    requires |s| >= 16
    ensures |r| == |s|
  {
    Concat(Crypt(F, tw, op, Split(s)))
  }

  lemma CryptBytesUndone(E: Block -> Block, D: Block -> Block, tw: Tweaks, s: seq<bv8>)
    requires Undoes(E, D) && |s| >= 16
    ensures CryptBytes(D, tw, Decrypt, CryptBytes(E, tw, Encrypt, s)) == s
  {
    SplitConcat(Crypt(E, tw, Encrypt, Split(s)));
    CryptUndone(E, D, tw, Split(s));
    ConcatSplit(s);
  }

  // ---------------------------------------------------------------- block by block

  /** Tweaks start at the encrypted data unit number; from one to the next the coefficients move up by one
      place, and the one that falls out comes back in at places 0, 1, 2 and 7. */
  lemma TweakIsPower(t0: Block, j: nat, i: nat)
    requires i < 128
    ensures Tweak(t0, 0) == t0
    ensures Gf128.Coefficient(Tweak(t0, j + 1), i)
      == ((i > 0 && Gf128.Coefficient(Tweak(t0, j), i - 1))
          != (Gf128.Coefficient(Tweak(t0, j), 127) && i in {0, 1, 2, 7}))
  {
    Gf128.MulXIsTimesX(Tweak(t0, j), i);
  }

  /** Behind the addition of `t`, `y` is F of `x`. */
  predicate Between(F: Block -> Block, t: Block, x: Block, y: Block) { Xor(y, t) == F(Xor(x, t)) }

  lemma XexIs(F: Block -> Block, t: Block, b: Block)
    ensures Between(F, t, b, Xex(F, t, b))
  {
    XorTwice(F(XorBlock(b, t)), t);
  }

  ghost predicate TweakedAt(F: Block -> Block, tw: Tweaks, s: seq<bv8>, r: seq<bv8>, j: nat) {
    16 * j + 16 <= |s| && 16 * j + 16 <= |r| && Between(F, tw(j), BlockOf(s, j), BlockOf(r, j))
  }

  /** The last whole block and the bytes behind it: the block gives `last`, whose beginning becomes the end of
      the output and whose end fills up the bytes left over; what comes of these takes the block's place. */
  ghost predicate Stealing(F: Block -> Block, tw: Tweaks, op: Operation, s: seq<bv8>, r: seq<bv8>, last: Block)
    requires |s| == |r| >= 16
  {
    var m, k := |s| / 16, |s| % 16;
    && Between(F, tw(if op == Decrypt then m else m - 1), BlockOf(s, m - 1), last)
    && r[16 * m..] == last[..k]
    && Between(F, tw(if op == Decrypt then m - 1 else m), s[16 * m..] + last[k..], BlockOf(r, m - 1))
  }

  /** `r` is `s` under XTS, in the terms of section 5.3 of IEEE Std 1619. */
  ghost predicate IsXts(F: Block -> Block, tw: Tweaks, op: Operation, s: seq<bv8>, r: seq<bv8>) {
    && |s| == |r| >= 16
    && (forall j: nat :: j < (if |s| % 16 == 0 then |s| / 16 else |s| / 16 - 1) ==> TweakedAt(F, tw, s, r, j))
    && (|s| % 16 != 0 ==> exists last: Block :: Stealing(F, tw, op, s, r, last))
  }

  lemma ConcatAt(u: Unit, j: nat)
    requires j < |u.blocks|
    ensures BlockOf(Concat(u), j) == u.blocks[j] && Concat(u)[16 * |u.blocks|..] == u.tail
  {
    GlueAt(u.blocks, j);
    var g := Glue(u.blocks);
    assert Concat(u)[16 * j..16 * j + 16] == g[16 * j..16 * j + 16];
  }

  lemma PlainBlock(F: Block -> Block, tw: Tweaks, op: Operation, s: seq<bv8>, j: nat)
    requires |s| >= 16 && j < if |s| % 16 == 0 then |s| / 16 else |s| / 16 - 1
    ensures TweakedAt(F, tw, s, CryptBytes(F, tw, op, s), j)
  {
    var u := Split(s);
    BlockAt(s, j);
    WholeAt(F, tw, op, u, j);
    XexIs(F, tw(j), u.blocks[j]);
    ConcatAt(Crypt(F, tw, op, u), j);
  }

  lemma StolenBlock(F: Block -> Block, tw: Tweaks, op: Operation, s: seq<bv8>)
    requires |s| >= 16 && |s| % 16 != 0
    ensures exists last: Block :: Stealing(F, tw, op, s, CryptBytes(F, tw, op, s), last)
  {
    var u := Split(s);
    var m := |u.blocks|;
    var last := StolenUnit(F, tw, op, u);
    BlockAt(s, m - 1);
    ConcatAt(Crypt(F, tw, op, u), m - 1);
    assert Stealing(F, tw, op, s, CryptBytes(F, tw, op, s), last);
  }

  lemma StolenUnit(F: Block -> Block, tw: Tweaks, op: Operation, u: Unit) returns (last: Block)
    requires Shaped(u) && u.tail != []
    ensures var m, k, c := |u.blocks|, |u.tail|, Crypt(F, tw, op, u);
      && Between(F, tw(if op == Decrypt then m else m - 1), u.blocks[m - 1], last)
      && c.tail == last[..k]
      && Between(F, tw(if op == Decrypt then m - 1 else m), u.tail + last[k..], c.blocks[m - 1])
  {
    var m := |u.blocks|;
    last := Whole(F, tw, op, u)[m - 1];
    WholeAt(F, tw, op, u, m - 1);
    XexIs(F, tw(Index(op, u, m - 1)), u.blocks[m - 1]);
    XexIs(F, tw(if op == Decrypt then m - 1 else m), u.tail + last[|u.tail|..]);
  }

  /** The data unit function is XTS. */
  lemma CryptBytesIsXts(F: Block -> Block, tw: Tweaks, op: Operation, s: seq<bv8>)
    requires |s| >= 16
    ensures IsXts(F, tw, op, s, CryptBytes(F, tw, op, s))
  {
    forall j: nat | j < (if |s| % 16 == 0 then |s| / 16 else |s| / 16 - 1)
      ensures TweakedAt(F, tw, s, CryptBytes(F, tw, op, s), j)
    {
      PlainBlock(F, tw, op, s, j);
    }
    if |s| % 16 != 0 { StolenBlock(F, tw, op, s); }
  }

  // ---------------------------------------------------------------- the code

  predicate AskedTweak(j: nat) { true }
  ghost predicate IsTweaks(tw: Tweaks, t0: Block) {
    tw(0) == t0 && forall j: nat {:trigger AskedTweak(j)} :: AskedTweak(j) ==> tw(j + 1) == Gf128.MulX(tw(j))
  }

  method NextTweak(t: Block, ghost tw: Tweaks, ghost t0: Block, ghost j: nat) returns (t': Block)
    requires IsTweaks(tw, t0) && t == tw(j)
    ensures t' == tw(j + 1)
  {
    assert AskedTweak(j);
    t' := Gf128.Gf128MulX(t);
  }

  lemma BlockAt(s: seq<bv8>, j: nat)
    requires |s| >= 16 && j < |s| / 16
    ensures Split(s).blocks[j] == s[16 * j..16 * j + 16]
  {
    var full := |s| - |s| % 16;
    ChopAt(s[..full], j);
    assert s[..full][16 * j..16 * j + 16] == s[16 * j..16 * j + 16];
  }

  lemma GlueMore(w: seq<Block>, j: nat)
    requires j < |w|
    ensures Glue(w[..j + 1]) == Glue(w[..j]) + w[j]
  {
    assert w[..j + 1] == w[..j] + [w[j]];
    GlueAppend(w[..j], [w[j]]);
    GlueOne(w[j]);
  }

  /** One turn of the loop.  On the last block of a decryption with leftover bytes the tweak is kept for
      them, and the next one used. */
  method Turn(F: Block -> Block, ghost tw: Tweaks, ghost t0: Block, op: Operation, ghost u: Unit, leftover: nat,
              last: bool,
              j: nat, tweak: Block, prev: Block, b: Block)
    returns (out: Block, tweak': Block, prev': Block)
    requires IsTweaks(tw, t0) && j < |u.blocks| && b == u.blocks[j]
    requires leftover == |u.tail| && (last <==> j == |u.blocks| - 1)
    requires tweak == tw(j)
    ensures out == Whole(F, tw, op, u)[j] && tweak' == tw(Index(op, u, j) + 1)
    ensures prev' == if Index(op, u, j) == j then prev else tweak
  {
    tweak', prev' := tweak, prev;
    if leftover > 0 && op == Decrypt && last {
      prev' := tweak;
      tweak' := NextTweak(tweak, tw, t0, j);
    }
    WholeAt(F, tw, op, u, j);
    out := Xex(F, tweak', b);
    tweak' := NextTweak(tweak', tw, t0, Index(op, u, j));
  }

  /** The loop over whole blocks; `t` is the tweak for the leftover bytes. */
  method Blocks(F: Block -> Block, ghost tw: Tweaks, t0: Block, op: Operation, input: seq<bv8>, output: array<bv8>)
    returns (t: Block)
    requires IsTweaks(tw, t0) && |input| >= 16 && output.Length == |input|
    modifies output
    ensures var u := Split(input); var m := |u.blocks|;
      && output[..16 * m] == Glue(Whole(F, tw, op, u))
      && (u.tail != [] ==> t == tw(if op == Decrypt then m - 1 else m))
  {
    ghost var u := Split(input);
    ghost var w := Whole(F, tw, op, u);
    var blocks, leftover := |input| / 16, |input| % 16;
    var tweak, prev := t0, t0;
    for j := 0 to blocks
      invariant tweak == tw(if j == 0 then 0 else Index(op, u, j - 1) + 1)
      invariant j > 0 && Index(op, u, j - 1) != j - 1 ==> prev == tw(j - 1)
      invariant output[..16 * j] == Glue(w[..j])
    {
      BlockAt(input, j);
      GlueMore(w, j);
      var out;
      out, tweak, prev := Turn(F, tw, t0, op, u, leftover, j == blocks - 1, j, tweak, prev, input[16 * j..16 * j + 16]);
      Copy(output, 16 * j, out);
    }
    assert w[..blocks] == w;
    t := if op == Decrypt then prev else tweak;
  }

  lemma Stolen(F: Block -> Block, tw: Tweaks, op: Operation, u: Unit, t: Block, x: Block, out: seq<bv8>)
    requires Shaped(u) && u.tail != []
    requires t == tw(if op == Decrypt then |u.blocks| - 1 else |u.blocks|)
    requires var w := Whole(F, tw, op, u); var m, r := |w|, |u.tail|;
      x == Xex(F, t, u.tail + w[m - 1][r..]) && out == Glue(w[..m - 1]) + x + w[m - 1][..r]
    ensures out == Concat(Crypt(F, tw, op, u))
  {
    var w := Whole(F, tw, op, u);
    var m := |w|;
    var w' := w[m - 1 := x];
    GlueMore(w', m - 1);
    assert w'[..m - 1] == w[..m - 1] && w'[..m] == w';
  }

  /** Ciphertext stealing in place: the last block's first bytes are copied behind it, and it is
      overwritten. */
  method Steal(F: Block -> Block, t: Block, tail: seq<bv8>, output: array<bv8>, at: nat)
    requires 0 < |tail| < 16 && output.Length == at + 16 + |tail|
    modifies output
    ensures var last := old(output[at..at + 16]); var r := |tail|;
      output[..] == old(output[..at]) + Xex(F, t, tail + last[r..]) + last[..r]
  {
    var r := |tail|;
    var last: Block := output[at..at + 16];
    Copy(output, at + 16, last[..r]);
    var tmp: Block := Xor(tail, t[..r]) + Xor(last[r..], t[r..]);
    XorSplit(tail, t[..r], last[r..], t[r..]);
    assert t[..r] + t[r..] == t;
    tmp := F(tmp);
    Copy(output, at, XorBlock(tmp, t));
  }

  datatype Ret = Success | InvalidInputLength

  method Leftover(F: Block -> Block, ghost tw: Tweaks, op: Operation, ghost u: Unit, t: Block, tail: seq<bv8>,
                  output: array<bv8>, full: nat)
    requires Shaped(u) && tail == u.tail != [] && full == 16 * |u.blocks| && output.Length == full + |tail|
    requires t == tw(if op == Decrypt then |u.blocks| - 1 else |u.blocks|)
    requires output[..full] == Glue(Whole(F, tw, op, u))
    modifies output
    ensures output[..] == Concat(Crypt(F, tw, op, u))
  {
    ghost var w := Whole(F, tw, op, u);
    var at := full - 16;
    LastBlock(w, output[..full]);
    assert output[..full][..at] == output[..at] && output[..full][at..] == output[at..full];
    Steal(F, t, tail, output, at);
    Stolen(F, tw, op, u, t, Xex(F, t, tail + w[|w| - 1][|tail|..]), output[..]);
  }

  method CryptUnit(F: Block -> Block, ghost tw: Tweaks, t0: Block, op: Operation, input: seq<bv8>, output: array<bv8>)
    requires IsTweaks(tw, t0) && |input| >= 16 && output.Length == |input|
    modifies output
    ensures output[..] == CryptBytes(F, tw, op, input)
  {
    ghost var u := Split(input);
    var t := Blocks(F, tw, t0, op, input, output);
    var full := |input| - |input| % 16;
    if full < |input| {
      Leftover(F, tw, op, u, t, input[full..], output, full);
    } else {
      assert output[..] == output[..full];
    }
  }

  lemma LastBlock(w: seq<Block>, s: seq<bv8>)
    requires |w| > 0 && s == Glue(w)
    ensures s[..|s| - 16] == Glue(w[..|w| - 1]) && s[|s| - 16..] == w[|w| - 1]
  {
    GlueMore(w, |w| - 1);
    assert w[..|w|] == w;
  }

  /** mbedtls_aes_crypt_xts: `E2` is the tweak cipher, `F` the data cipher in the wanted direction. */
  method CryptXts(E2: Block -> Block, F: Block -> Block, op: Operation, unit: Block, input: seq<bv8>,
                  output: array<bv8>)
    returns (ret: Ret)
    requires output.Length == |input|
    modifies output
    ensures ret == Success <==> MIN <= |input| <= MAX
    ensures ret == Success ==> output[..] == CryptBytes(F, j => Tweak(E2(unit), j), op, input)
    ensures ret == Success ==> IsXts(F, j => Tweak(E2(unit), j), op, input, output[..])
    ensures ret != Success ==> output[..] == old(output[..])
  {
    if |input| < MIN { return InvalidInputLength; }
    if |input| > MAX { return InvalidInputLength; }
    var t0 := E2(unit);
    CryptBytesIsXts(F, j => Tweak(t0, j), op, input);
    CryptUnit(F, j => Tweak(t0, j), t0, op, input, output);
    ret := Success;
  }

  /** A data unit there and back. */
  method EncryptThenDecrypt(E2: Block -> Block, E: Block -> Block, D: Block -> Block, unit: Block, input: seq<bv8>)
    returns (plain: array<bv8>)
    requires Undoes(E, D) && MIN <= |input| <= MAX
    ensures plain[..] == input
  {
    var cipher := new bv8[|input|];
    plain := new bv8[|input|];
    var r := CryptXts(E2, E, Encrypt, unit, input, cipher);
    CryptBytesUndone(E, D, j => Tweak(E2(unit), j), input);
    r := CryptXts(E2, D, Decrypt, unit, cipher[..], plain);
  }
}
