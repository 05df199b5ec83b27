/** The code of the AES block functions (aes.twl.c): table rounds over a pointer into the round keys, and
    the decryption key schedule, against Aes. */
module AesCode {
  import opened Bytes
  import opened Aes
  import opened AesLayers

  // ---------------------------------------------------------------- round keys

  /** Four words of a schedule are one round key. */
  function KeyAt(w: seq<Word>, i: nat): State
    requires 4 * i + 4 <= |w|
  {
    State(w[4 * i], w[4 * i + 1], w[4 * i + 2], w[4 * i + 3])
  }

  /** The nr + 1 round keys of a schedule. */
  function KeysOf(w: seq<Word>, nr: nat): (k: Keys)
    requires nr >= 1 && 4 * nr + 4 <= |w|
    ensures |k| == nr + 1
    ensures forall i {:trigger k[i]} :: 0 <= i <= nr ==> k[i] == KeyAt(w, i)
  {
    var k: seq<State> := seq(nr + 1, i requires 0 <= i <= nr => KeyAt(w, i));
    k
  }

  // ---------------------------------------------------------------- rounds

  lemma Commute(k: Word, w: Word)
    ensures AddWord(k, w) == AddWord(w, k)
  {}

  lemma Exchange(w: Word, k: Word, v: Word)
    ensures AddWord(AddWord(w, k), v) == AddWord(AddWord(w, v), k)
  {}

  lemma KeyFirst(k: Word, a: Word, b: Word, c: Word, d: Word)
    ensures AddWord(AddWord(AddWord(AddWord(k, a), b), c), d) == AddWord(Sum(a, b, c, d), k)
  {
    Commute(k, a);
    Exchange(a, k, b);
    Exchange(AddWord(a, b), k, c);
    Exchange(AddWord(AddWord(a, b), c), k, d);
  }

  /** One column of AES_FROUND. */
  method FColumn(T: Tables, k: Word, x: bv8, y: bv8, z: bv8, v: bv8) returns (w: Word)
    requires TTables(T)
    ensures w == AddWord(T.mix(Word(T.fsb(x), T.fsb(y), T.fsb(z), T.fsb(v))), k)
  {
    assert AskedColumn(x, y, z, v);
    var a, b, c, d := T.ft0(x), T.ft1(y), T.ft2(z), T.ft3(v);
    KeyFirst(k, a, b, c, d);
    w := AddWord(AddWord(AddWord(AddWord(k, a), b), c), d);
  }

  /** One column of AES_RROUND. */
  method RColumn(T: Tables, k: Word, x: bv8, y: bv8, z: bv8, v: bv8) returns (w: Word)
    requires TTables(T)
    ensures w == AddWord(T.imix(Word(T.rsb(x), T.rsb(y), T.rsb(z), T.rsb(v))), k)
  {
    assert AskedColumn(x, y, z, v);
    var a, b, c, d := T.rt0(x), T.rt1(y), T.rt2(z), T.rt3(v);
    KeyFirst(k, a, b, c, d);
    w := AddWord(AddWord(AddWord(AddWord(k, a), b), c), d);
  }

  /** AES_FROUND */
  method FRound(T: Tables, y: State, k: State) returns (x: State)
    requires TTables(T)
    ensures x == AddState(Columns(T.mix, ShiftRows(SubBytes(T.fsb, y))), k)
  {
    var x0 := FColumn(T, k.c0, y.c0.b0, y.c1.b1, y.c2.b2, y.c3.b3);
    var x1 := FColumn(T, k.c1, y.c1.b0, y.c2.b1, y.c3.b2, y.c0.b3);
    var x2 := FColumn(T, k.c2, y.c2.b0, y.c3.b1, y.c0.b2, y.c1.b3);
    var x3 := FColumn(T, k.c3, y.c3.b0, y.c0.b1, y.c1.b2, y.c2.b3);
    x := State(x0, x1, x2, x3);
  }

  /** AES_RROUND */
  method RRound(T: Tables, y: State, k: State) returns (x: State)
    requires TTables(T)
    ensures x == AddState(Columns(T.imix, InvShiftRows(SubBytes(T.rsb, y))), k)
  {
    var x0 := RColumn(T, k.c0, y.c0.b0, y.c3.b1, y.c2.b2, y.c1.b3);
    var x1 := RColumn(T, k.c1, y.c1.b0, y.c0.b1, y.c3.b2, y.c2.b3);
    var x2 := RColumn(T, k.c2, y.c2.b0, y.c1.b1, y.c0.b2, y.c3.b3);
    var x3 := RColumn(T, k.c3, y.c3.b0, y.c2.b1, y.c1.b2, y.c0.b3);
    x := State(x0, x1, x2, x3);
  }

  /** The last round has no column mix. */
  method Final(f: bv8 -> bv8, y: State, k: State, ghost shifted: State) returns (x: State)
    requires shifted == SubBytes(f, y)
    ensures x == AddState(shifted, k)
  {
    Commute(k.c0, SubWord(f, y.c0));
    Commute(k.c1, SubWord(f, y.c1));
    Commute(k.c2, SubWord(f, y.c2));
    Commute(k.c3, SubWord(f, y.c3));
    x := State(AddWord(k.c0, SubWord(f, y.c0)), AddWord(k.c1, SubWord(f, y.c1)),
               AddWord(k.c2, SubWord(f, y.c2)), AddWord(k.c3, SubWord(f, y.c3)));
  }

  lemma SubShift(f: bv8 -> bv8, s: State)
    ensures SubBytes(f, ShiftRows(s)) == ShiftRows(SubBytes(f, s))
    ensures SubBytes(f, InvShiftRows(s)) == InvShiftRows(SubBytes(f, s))
  {}

  // The same rounds, in the terms of Aes; asking for a step says what the layers do.

  predicate AskedStep(y: State, k: State) { true }
  ghost predicate Realizes(L: Layers, T: Tables) {
    forall y, k {:trigger AskedStep(y, k)} :: AskedStep(y, k) ==> StepsAre(L, T, y, k)
  }

  ghost predicate StepsAre(L: Layers, T: Tables, y: State, k: State) {
    var ok := L.add(y, k) == AddState(y, k)
      && L.add(L.mix(L.sub(y)), k) == AddState(Columns(T.mix, ShiftRows(SubBytes(T.fsb, y))), k)
      && L.add(L.imix(L.isub(y)), k) == AddState(Columns(T.imix, InvShiftRows(SubBytes(T.rsb, y))), k)
      && L.add(L.sub(y), k) == AddState(ShiftRows(SubBytes(T.fsb, y)), k)
      && L.add(L.isub(y), k) == AddState(InvShiftRows(SubBytes(T.rsb, y)), k)
      && L.imix(y) == Columns(T.imix, y);
    ok
  }

  method FirstKey(T: Tables, ghost L: Layers, y: State, k: State) returns (x: State)
    requires Realizes(L, T)
    ensures x == L.add(y, k)
  {
    assert AskedStep(y, k);
    x := AddState(y, k);
  }

  method ForwardRound(T: Tables, ghost L: Layers, y: State, k: State) returns (x: State)
    requires TTables(T) && Realizes(L, T)
    ensures x == L.add(L.mix(L.sub(y)), k)
  {
    assert AskedStep(y, k);
    x := FRound(T, y, k);
  }

  method BackwardRound(T: Tables, ghost L: Layers, y: State, k: State) returns (x: State)
    requires TTables(T) && Realizes(L, T)
    ensures x == L.add(L.imix(L.isub(y)), k)
  {
    assert AskedStep(y, k);
    x := RRound(T, y, k);
  }

  method LastForward(T: Tables, ghost L: Layers, y: State, k: State) returns (x: State)
    requires Realizes(L, T)
    ensures x == L.add(L.sub(y), k)
  {
    assert AskedStep(y, k);
    SubShift(T.fsb, y);
    x := Final(T.fsb, ShiftRows(y), k, ShiftRows(SubBytes(T.fsb, y)));
  }

  method LastBackward(T: Tables, ghost L: Layers, y: State, k: State) returns (x: State)
    requires Realizes(L, T)
    ensures x == L.add(L.isub(y), k)
  {
    assert AskedStep(y, k);
    SubShift(T.rsb, y);
    x := Final(T.rsb, InvShiftRows(y), k, InvShiftRows(SubBytes(T.rsb, y)));
  }

  /** Two rounds at a time, from X to Y and back; RK points to the words of rk[p]. */
  method ForwardRounds(T: Tables, ghost L: Layers, rk: Keys, s: State) returns (x: State)
    requires TTables(T) && Realizes(L, T) && Last(rk) >= 2 && Last(rk) % 2 == 0
    ensures x == Forward(L, rk, s, Last(rk) - 2)
  {
    x := FirstKey(T, L, s, rk[0]);
    var p, i := 1, (|rk| - 1) / 2 - 1;
    while i > 0
      invariant p + 2 * i == Last(rk) - 1 && p >= 1 && i >= 0 && x == Forward(L, rk, s, p - 1)
    {
      var y := ForwardRound(T, L, x, rk[p]);
      x := ForwardRound(T, L, y, rk[p + 1]);
      p, i := p + 2, i - 1;
    }
  }

  /** mbedtls_internal_aes_encrypt; the code has 10, 12 or 14 rounds. */
  method EncryptState(T: Tables, ghost L: Layers, rk: Keys, s: State) returns (x: State)
    requires TTables(T) && Realizes(L, T) && Last(rk) >= 2 && Last(rk) % 2 == 0
    ensures x == Cipher(L, rk, s)
  {
    x := ForwardRounds(T, L, rk, s);
    var y := ForwardRound(T, L, x, rk[|rk| - 2]);
    x := LastForward(T, L, y, rk[|rk| - 1]);
  }

  method BackwardRounds(T: Tables, ghost L: Layers, dk: Keys, s: State) returns (x: State)
    requires TTables(T) && Realizes(L, T) && Last(dk) >= 2 && Last(dk) % 2 == 0
    ensures x == Equivalent(L, dk, s, Last(dk) - 2)
  {
    x := FirstKey(T, L, s, dk[0]);
    var p, i := 1, (|dk| - 1) / 2 - 1;
    while i > 0
      invariant p + 2 * i == Last(dk) - 1 && p >= 1 && i >= 0 && x == Equivalent(L, dk, s, p - 1)
    {
      var y := BackwardRound(T, L, x, dk[p]);
      x := BackwardRound(T, L, y, dk[p + 1]);
      p, i := p + 2, i - 1;
    }
  }

  /** mbedtls_internal_aes_decrypt */
  method DecryptState(T: Tables, ghost L: Layers, dk: Keys, s: State) returns (x: State)
    requires TTables(T) && Realizes(L, T) && Last(dk) >= 2 && Last(dk) % 2 == 0
    ensures x == EqInvCipher(L, dk, s)
  {
    x := BackwardRounds(T, L, dk, s);
    var y := BackwardRound(T, L, x, dk[|dk| - 2]);
    x := LastBackward(T, L, y, dk[|dk| - 1]);
  }

  // ---------------------------------------------------------------- the decryption schedule

  /** Word k of the schedule that setkey_dec builds from `sk`. */
  function DecWord(T: Tables, sk: seq<Word>, nr: nat, k: nat): Word
    requires 4 * nr + 4 <= |sk| && k < 4 * nr + 4
  {
    var w := sk[4 * (nr - k / 4) + k % 4];
    if k < 4 || k >= 4 * nr then w else T.imix(w)
  }

  /** RT0[FSb[...]] ^ ...: the S-boxes cancel and the inverse mix remains. */
  method InvMixKey(T: Tables, w: Word) returns (r: Word)
    requires TTables(T) && Inverse(T)
    ensures r == T.imix(w)
  {
    var x, y, z, v := T.fsb(w.b0), T.fsb(w.b1), T.fsb(w.b2), T.fsb(w.b3);
    assert AskedColumn(x, y, z, v);
    r := Sum(T.rt0(x), T.rt1(y), T.rt2(z), T.rt3(v));
  }

  /** mbedtls_aes_setkey_dec: SK walks back through the encryption schedule, four words at a time. */
  method SetKeyDec(T: Tables, sk: seq<Word>, nr: nat, rk: array<Word>)
    requires TTables(T) && Inverse(T) && nr >= 2 && 4 * nr + 4 <= |sk| && 4 * nr + 4 <= rk.Length
    modifies rk
    ensures forall k {:trigger rk[k]} :: 0 <= k < 4 * nr + 4 ==> rk[k] == DecWord(T, sk, nr, k)
  {
    var p, q := 0, 4 * nr;
    while p < 4
      invariant 0 <= p <= 4 && q == 4 * nr + p
      invariant forall k :: 0 <= k < p ==> rk[k] == DecWord(T, sk, nr, k)
    {
      rk[p] := sk[q];
      p, q := p + 1, q + 1;
    }
    q := q - 8;
    var i := nr - 1;
    while i > 0
      invariant 0 <= i <= nr - 1 && p == 4 * (nr - i) && q == 4 * i
      invariant forall k :: 0 <= k < p ==> rk[k] == DecWord(T, sk, nr, k)
    {
      for j := 0 to 4
        invariant p == 4 * (nr - i) + j && q == 4 * i + j
        invariant forall k :: 0 <= k < p ==> rk[k] == DecWord(T, sk, nr, k)
      {
        var w := InvMixKey(T, sk[q]);
        DecWordAt(T, sk, nr, i, j);
        rk[p] := w;
        p, q := p + 1, q + 1;
      }
      i, q := i - 1, q - 8;
    }
    while p < 4 * nr + 4
      invariant 4 * nr <= p <= 4 * nr + 4 && q == p - 4 * nr
      invariant forall k :: 0 <= k < p ==> rk[k] == DecWord(T, sk, nr, k)
    {
      rk[p] := sk[q];
      p, q := p + 1, q + 1;
    }
  }

  lemma DecWordAt(T: Tables, sk: seq<Word>, nr: nat, i: nat, j: nat)
    requires 4 * nr + 4 <= |sk| && 0 < i < nr && j < 4
    ensures DecWord(T, sk, nr, 4 * (nr - i) + j) == T.imix(sk[4 * i + j])
  {}

  /** The words that setkey_dec writes are the reversed schedule of Aes. */
  lemma DecKeys(T: Tables, L: Layers, sk: seq<Word>, dk: seq<Word>, nr: nat)
    requires Realizes(L, T) && nr >= 1 && 4 * nr + 4 <= |sk| && 4 * nr + 4 <= |dk|
    requires forall k {:trigger dk[k]} :: 0 <= k < 4 * nr + 4 ==> dk[k] == DecWord(T, sk, nr, k)
    ensures KeysOf(dk, nr) == Reversed(L, KeysOf(sk, nr))
  {
    var r := Reversed(L, KeysOf(sk, nr));
    forall i | 0 <= i <= nr ensures KeysOf(dk, nr)[i] == r[i] { DecKeyAt(T, L, sk, dk, nr, i); }
  }

  lemma DecKeyAt(T: Tables, L: Layers, sk: seq<Word>, dk: seq<Word>, nr: nat, i: nat)
    requires Realizes(L, T) && nr >= 1 && 4 * nr + 4 <= |sk| && 4 * nr + 4 <= |dk| && i <= nr
    requires forall k {:trigger dk[k]} :: 0 <= k < 4 * nr + 4 ==> dk[k] == DecWord(T, sk, nr, k)
    ensures KeysOf(dk, nr)[i] == Reversed(L, KeysOf(sk, nr))[i]
  {
    var k := KeyAt(sk, nr - i);
    assert AskedStep(k, k);
    KeyDec(T, sk, dk, nr, i);
  }

  lemma KeyDec(T: Tables, sk: seq<Word>, dk: seq<Word>, nr: nat, i: nat)
    requires nr >= 1 && i <= nr && 4 * nr + 4 <= |sk| && 4 * nr + 4 <= |dk|
    requires forall k {:trigger dk[k]} :: 0 <= k < 4 * nr + 4 ==> dk[k] == DecWord(T, sk, nr, k)
    ensures KeyAt(dk, i) == if i == 0 || i == nr then KeyAt(sk, nr - i) else Columns(T.imix, KeyAt(sk, nr - i))
  {}

  // ---------------------------------------------------------------- the encryption schedule

  function RotWord(w: Word): Word { Word(w.b1, w.b2, w.b3, w.b0) }

  /** Section 5.2 of FIPS 197: the word behind `w` in the expanded key. */
  function KeyWord(T: Tables, rcon: nat -> bv8, nk: nat, w: seq<Word>): Word
    requires 0 < nk
  {
    if |w| < nk then Word(0, 0, 0, 0) else
      var i := |w|;
      var t := w[i - 1];
      var u := if i % nk == 0 then AddWord(SubWord(T.fsb, RotWord(t)), Word(rcon(i / nk - 1), 0, 0, 0))
               else if nk > 6 && i % nk == 4 then SubWord(T.fsb, t) else t;
      AddWord(w[i - nk], u)
  }

  predicate AskedXor(u: bool) { true }

  /** `r` is the bytewise exclusive or of `b` and `x`. */
  ghost predicate IsXor(r: Word, b: Word, x: Word) {
    forall u {:trigger AskedXor(u)} :: AskedXor(u) ==>
      r.b0 == b.b0 ^ x.b0 && r.b1 == b.b1 ^ x.b1 && r.b2 == b.b2 ^ x.b2 && r.b3 == b.b3 ^ x.b3
  }

  /** Section 5.2 of FIPS 197 byte by byte: word i of an expanded key of nk words is `r` when the word nk
      before it is `b` and the word before it is `p`. */
  ghost predicate ExpandedWord(fsb: bv8 -> bv8, rcon: nat -> bv8, nk: nat, i: nat, b: Word, p: Word, r: Word)
    requires nk > 0 && i >= nk
  {
    if i % nk == 0 then IsXor(r, b, Word(fsb(p.b1) ^ rcon(i / nk - 1), fsb(p.b2), fsb(p.b3), fsb(p.b0)))
    else if nk == 8 && i % 8 == 4 then IsXor(r, b, Word(fsb(p.b0), fsb(p.b1), fsb(p.b2), fsb(p.b3)))
    else IsXor(r, b, p)
  }

  lemma AddIsXor(b: Word, x: Word)
    ensures IsXor(AddWord(b, x), b, x)
  {}

  lemma ConstantAdded(x: Word, c: bv8)
    ensures AddWord(x, Word(c, 0, 0, 0)) == Word(x.b0 ^ c, x.b1, x.b2, x.b3)
  {}

  lemma KeyWordBytes(T: Tables, rcon: nat -> bv8, nk: nat, w: seq<Word>)
    requires KeyWords(nk) && |w| >= nk
    ensures ExpandedWord(T.fsb, rcon, nk, |w|, w[|w| - nk], w[|w| - 1], KeyWord(T, rcon, nk, w))
  {
    var b, p, c := w[|w| - nk], w[|w| - 1], rcon(|w| / nk - 1);
    var rot := Word(T.fsb(p.b1), T.fsb(p.b2), T.fsb(p.b3), T.fsb(p.b0));
    ConstantAdded(rot, c);
    AddIsXor(b, AddWord(rot, Word(c, 0, 0, 0)));
    AddIsXor(b, SubWord(T.fsb, p));
    AddIsXor(b, p);
  }

  /** `w` starts with the key, and every later word is the expanded one. */
  ghost predicate IsExpanded(fsb: bv8 -> bv8, rcon: nat -> bv8, key: seq<Word>, w: seq<Word>)
    requires |key| > 0
  {
    && key <= w
    && forall i: nat {:trigger w[i]} :: |key| <= i < |w| ==>
         ExpandedWord(fsb, rcon, |key|, i, w[i - |key|], w[i - 1], w[i])
  }

  lemma ScheduleIsExpanded(T: Tables, rcon: nat -> bv8, key: seq<Word>, w: seq<Word>)
    requires KeyWords(|key|) && IsSchedule(v => KeyWord(T, rcon, |key|, v), key, w)
    ensures IsExpanded(T.fsb, rcon, key, w)
  {
    forall i: nat {:trigger w[i]} | |key| <= i < |w|
      ensures ExpandedWord(T.fsb, rcon, |key|, i, w[i - |key|], w[i - 1], w[i])
    {
      ExpandedAt(T, rcon, |key|, w, i);
    }
  }

  lemma ExpandedAt(T: Tables, rcon: nat -> bv8, nk: nat, w: seq<Word>, i: nat)
    requires KeyWords(nk) && nk <= i < |w| && w[i] == KeyWord(T, rcon, nk, w[..i])
    ensures ExpandedWord(T.fsb, rcon, nk, i, w[i - nk], w[i - 1], w[i])
  {
    KeyWordBytes(T, rcon, nk, w[..i]);
  }

  type Next = seq<Word> -> Word

  /** `w` is the key, continued by `next`. */
  ghost predicate IsSchedule(next: Next, key: seq<Word>, w: seq<Word>) {
    |key| <= |w| && w[..|key|] == key && forall i :: |key| <= i < |w| ==> w[i] == next(w[..i])
  }

  predicate AskedKeyWord(w: seq<Word>) { true }
  ghost predicate IsKeyWord(next: Next, T: Tables, rcon: nat -> bv8, nk: nat) {
    nk > 0 && forall w {:trigger AskedKeyWord(w)} :: AskedKeyWord(w) ==> next(w) == KeyWord(T, rcon, nk, w)
  }

  lemma AddAssoc(w: Word, v: Word, u: Word)
    ensures AddWord(AddWord(w, v), u) == AddWord(w, AddWord(u, v))
  {
    Exchange(w, v, u);
  }

  /** Word i = nk * (turn + 1) + j, as the code computes it. */
  method KeyStep(T: Tables, rcon: nat -> bv8, ghost next: Next, nk: nat, turn: nat, j: nat, back: Word, prev: Word,
                 ghost w: seq<Word>)
    returns (r: Word)
    requires IsKeyWord(next, T, rcon, nk) && KeyWords(nk) && j < nk && |w| == nk * (turn + 1) + j
    requires back == w[|w| - nk] && prev == w[|w| - 1]
    ensures r == next(w)
  {
    assert AskedKeyWord(w);
    Place(nk, turn, j);
    if j == 0 {
      var sub := Word(T.fsb(prev.b1), T.fsb(prev.b2), T.fsb(prev.b3), T.fsb(prev.b0));
      var c := Word(rcon(turn), 0, 0, 0);
      AddAssoc(back, c, sub);
      r := AddWord(AddWord(back, c), sub);
    } else if nk == 8 && j == 4 {
      r := AddWord(back, SubWord(T.fsb, prev));
    } else {
      r := AddWord(back, prev);
    }
  }

  predicate KeyWords(nk: nat) { nk == 4 || nk == 6 || nk == 8 }

  lemma Place(nk: nat, turn: nat, j: nat)
    requires KeyWords(nk) && j < nk
    ensures (nk * (turn + 1) + j) % nk == j && (nk * (turn + 1) + j) / nk == turn + 1
  {
    if nk == 4 {
      assert (4 * (turn + 1) + j) % 4 == j;
    } else if nk == 6 {
      assert (6 * (turn + 1) + j) % 6 == j;
    } else {
      assert (8 * (turn + 1) + j) % 8 == j;
    }
  }

  function Turns(nk: nat): nat { if nk == 4 then 10 else if nk == 6 then 8 else 7 }

  /** One turn writes the next nk words, each from the word before it and the word nk before it. */
  method KeyTurn(T: Tables, rcon: nat -> bv8, ghost next: Next, key: seq<Word>, rk: array<Word>, turn: nat, base: nat)
    requires IsKeyWord(next, T, rcon, |key|) && KeyWords(|key|) && base == |key| * turn && base + 2 * |key| <= rk.Length
    requires IsSchedule(next, key, rk[..base + |key|])
    modifies rk
    ensures IsSchedule(next, key, rk[..base + 2 * |key|])
  {
    var nk := |key|;
    for j := 0 to nk
      invariant IsSchedule(next, key, rk[..base + nk + j])
    {
      ghost var before := rk[..base + nk + j];
      var r := KeyStep(T, rcon, next, nk, turn, j, rk[base + j], rk[base + nk + j - 1], before);
      rk[base + nk + j] := r;
      assert rk[..base + nk + j + 1] == before + [r];
      ScheduleMore(next, key, before);
    }
  }

  lemma ScheduleMore(next: Next, key: seq<Word>, w: seq<Word>)
    requires IsSchedule(next, key, w)
    ensures IsSchedule(next, key, w + [next(w)])
  {
    var v := w + [next(w)];
    forall i | |key| <= i < |v| ensures v[i] == next(v[..i]) {
      assert i < |w| ==> v[..i] == w[..i];
      assert i == |w| ==> v[..i] == w;
    }
  }

  method LoadKey(key: seq<Word>, rk: array<Word>)
    requires |key| <= rk.Length
    modifies rk
    ensures rk[..|key|] == key
  {
    for i := 0 to |key|
      invariant rk[..i] == key[..i]
    {
      rk[i] := key[i];
    }
  }

  lemma Bound(nk: nat, i: nat)
    requires KeyWords(nk) && i < Turns(nk)
    ensures nk * i + 2 * nk <= nk * (Turns(nk) + 1) && nk * (i + 1) == nk * i + nk
  {}

  method Expand(T: Tables, rcon: nat -> bv8, ghost next: Next, key: seq<Word>, rk: array<Word>)
    requires IsKeyWord(next, T, rcon, |key|) && KeyWords(|key|) && rk.Length == |key| * (Turns(|key|) + 1)
    modifies rk
    ensures IsSchedule(next, key, rk[..])
  {
    var nk := |key|;
    LoadKey(key, rk);
    assert rk[..0 + nk] == key;
    var base := 0;
    for i := 0 to Turns(nk)
      invariant base == nk * i && base + nk <= rk.Length && IsSchedule(next, key, rk[..base + nk])
    {
      Bound(nk, i);
      KeyTurn(T, rcon, next, key, rk, i, base);
      base := base + nk;
    }
    assert rk[..base + nk] == rk[..];
  }

  /** mbedtls_aes_setkey_enc, from the words of the key: the words of section 5.2 of FIPS 197, and enough of
      them for all rounds. */
  method SetKeyEnc(T: Tables, rcon: nat -> bv8, key: seq<Word>) returns (rk: array<Word>)
    requires KeyWords(|key|)
    ensures fresh(rk) && 4 * (|key| + 7) <= rk.Length
    ensures IsSchedule(w => KeyWord(T, rcon, |key|, w), key, rk[..])
    ensures IsExpanded(T.fsb, rcon, key, rk[..])
  {
    rk := new Word[|key| * (Turns(|key|) + 1)](_ => Word(0, 0, 0, 0));
    Expand(T, rcon, w => KeyWord(T, rcon, |key|, w), key, rk);
    ScheduleIsExpanded(T, rcon, key, rk[..]);
  }

  /** The recurrence leaves no choice. */
  lemma {:induction false} ScheduleUnique(next: Next, key: seq<Word>, v: seq<Word>, w: seq<Word>, i: nat)
    requires IsSchedule(next, key, v) && IsSchedule(next, key, w) && i <= |v| && i <= |w|
    ensures v[..i] == w[..i]
    decreases i
  {
    if i > |key| {
      ScheduleUnique(next, key, v, w, i - 1);
      assert v[..i] == v[..i - 1] + [v[i - 1]] && w[..i] == w[..i - 1] + [w[i - 1]];
    } else {
      assert v[..i] == v[..|key|][..i] && w[..i] == w[..|key|][..i];
    }
  }

  // ---------------------------------------------------------------- as functions on blocks

  function ToWord(b: seq<bv8>): Word requires |b| == 4 { Word(b[0], b[1], b[2], b[3]) }
  function FromWord(w: Word): (b: seq<bv8>) ensures |b| == 4 { [w.b0, w.b1, w.b2, w.b3] }

  function ToState(b: Block): State { State(ToWord(b[..4]), ToWord(b[4..8]), ToWord(b[8..12]), ToWord(b[12..])) }
  function FromState(s: State): Block { FromWord(s.c0) + FromWord(s.c1) + FromWord(s.c2) + FromWord(s.c3) }

  lemma StateOfBytes(s: State)
    ensures ToState(FromState(s)) == s
  {}

  lemma BytesOfState(b: Block)
    ensures FromState(ToState(b)) == b
  {}

  function EncryptBlock(L: Layers, rk: Keys, b: Block): Block { FromState(Cipher(L, rk, ToState(b))) }
  function DecryptBlock(L: Layers, dk: Keys, b: Block): Block { FromState(EqInvCipher(L, dk, ToState(b))) }

  /** Encryption and decryption under the schedule of setkey_dec are inverse permutations of the blocks,
      which is what the modes ask of their ciphers. */
  lemma BlocksUndo(T: Tables, rk: Keys)
    requires Good(T)
    ensures var L := LayersOf(T); var dk := Reversed(L, rk);
      && Undoes(b => EncryptBlock(L, rk, b), b => DecryptBlock(L, dk, b))
      && Undoes(b => DecryptBlock(L, dk, b), b => EncryptBlock(L, rk, b))
  {
    LayersObey(T);
    BlocksUndoWith(LayersOf(T), rk);
  }

  lemma BlocksUndoWith(L: Layers, rk: Keys)
    requires Laws(L)
    ensures var dk := Reversed(L, rk);
      && Undoes(b => EncryptBlock(L, rk, b), b => DecryptBlock(L, dk, b))
      && Undoes(b => DecryptBlock(L, dk, b), b => EncryptBlock(L, rk, b))
  {
    forall b: Block ensures DecryptBlock(L, Reversed(L, rk), EncryptBlock(L, rk, b)) == b { BlockUndone(L, rk, b); }
    forall b: Block ensures EncryptBlock(L, rk, DecryptBlock(L, Reversed(L, rk), b)) == b { BlockUndone(L, rk, b); }
  }

  lemma BlockUndone(L: Layers, rk: Keys, b: Block)
    requires Laws(L)
    ensures DecryptBlock(L, Reversed(L, rk), EncryptBlock(L, rk, b)) == b
    ensures EncryptBlock(L, rk, DecryptBlock(L, Reversed(L, rk), b)) == b
  {
    var s := ToState(b);
    BytesOfState(b);
    StateOfBytes(Cipher(L, rk, s));
    StateOfBytes(InvCipher(L, rk, s));
    EqInvIsInv(L, rk, Cipher(L, rk, s));
    InvCipherUndoes(L, rk, s);
    EqInvIsInv(L, rk, s);
    CipherUndoes(L, rk, s);
  }

  lemma StepsFrom(L: Layers, T: Tables, y: State, k: State, u: State, v: State, m: State, n: State)
    requires L.sub(y) == u == ShiftRows(SubBytes(T.fsb, y)) && L.isub(y) == v == InvShiftRows(SubBytes(T.rsb, y))
    requires L.mix(u) == m == Columns(T.mix, u) && L.imix(v) == n == Columns(T.imix, v)
    requires L.imix(y) == Columns(T.imix, y)
    requires L.add(y, k) == AddState(y, k) && L.add(u, k) == AddState(u, k) && L.add(v, k) == AddState(v, k)
    requires L.add(m, k) == AddState(m, k) && L.add(n, k) == AddState(n, k)
    ensures StepsAre(L, T, y, k)
  {}

  lemma LayersStep(T: Tables, y: State, k: State)
    ensures StepsAre(LayersOf(T), T, y, k)
  {
    var L := LayersOf(T);
    var u, v := L.sub(y), L.isub(y);
    var m, n := L.mix(u), L.imix(v);
    SubIs(T, y);
    IsubIs(T, y);
    MixIs(T, u);
    ImixIs(T, v);
    ImixIs(T, y);
    AddIs(T, y, k);
    AddIs(T, u, k);
    AddIs(T, v, k);
    AddIs(T, m, k);
    AddIs(T, n, k);
    StepsFrom(L, T, y, k, u, v, m, n);
  }

  lemma SomeLayers(T: Tables) returns (L: Layers)
    requires Good(T)
    ensures Realizes(L, T) && Laws(L)
  {
    L := RealLayers(T);
    LayersObey(T);
  }

  lemma RealLayers(T: Tables) returns (L: Layers)
    ensures Realizes(L, T) && L == LayersOf(T)
  {
    L := LayersOf(T);
    forall y, k ensures AskedStep(y, k) ==> StepsAre(L, T, y, k) { LayersStep(T, y, k); }
  }

  method ThereAndBack(T: Tables, ghost L: Layers, sk: seq<Word>, nr: nat, s: State) returns (x: State)
    requires Good(T) && Realizes(L, T) && Laws(L) && nr >= 2 && nr % 2 == 0 && 4 * nr + 4 <= |sk|
    ensures x == s
  {
    var dk := new Word[4 * nr + 4](_ => Word(0, 0, 0, 0));
    SetKeyDec(T, sk, nr, dk);
    var rk, rk' := KeysOf(sk, nr), KeysOf(dk[..], nr);
    DecKeys(T, L, sk, dk[..], nr);
    var y := EncryptState(T, L, rk, s);
    x := DecryptState(T, L, rk', y);
    EqInvIsInv(L, rk, y);
    InvCipherUndoes(L, rk, s);
  }

  /** The code end to end: any encryption schedule, the decryption schedule built from it, one block
      encrypted with the first and decrypted with the second. */
  method EncryptThenDecrypt(T: Tables, sk: seq<Word>, nr: nat, s: State) returns (x: State)
    requires Good(T) && (nr == 10 || nr == 12 || nr == 14) && 4 * nr + 4 <= |sk|
    ensures x == s
  {
    ghost var L := SomeLayers(T);
    x := ThereAndBack(T, L, sk, nr, s);
  }
}
