/** The cipher of section 5.1 of FIPS 197 cell by cell: what EncryptState of AesCode computes, without the
    layers of AesLayers. */
module AesBytes {
  import opened Bytes
  import opened Aes
  import opened AesLayers
  import opened AesCode

  function RowOf(w: Word, r: nat): bv8
    requires r < 4
  {
    if r == 0 then w.b0 else if r == 1 then w.b1 else if r == 2 then w.b2 else w.b3
  }

  function ColumnOf(s: State, c: nat): Word
    requires c < 4
  {
    if c == 0 then s.c0 else if c == 1 then s.c1 else if c == 2 then s.c2 else s.c3
  }

  /** Row r of column c. */
  function Cell(s: State, r: nat, c: nat): bv8
    requires r < 4 && c < 4
  {
    RowOf(ColumnOf(s, c), r)
  }

  /** Byte r + 4c of a block is row r of column c, section 3.4 of FIPS 197. */
  lemma BlockCells(b: Block, s: State, r: nat, c: nat)
    requires r < 4 && c < 4
    ensures Cell(ToState(b), r, c) == b[r + 4 * c]
    ensures FromState(s)[r + 4 * c] == Cell(s, r, c)
  {
    BlockColumn(b, s, c);
    var x, y := b[4 * c..4 * c + 4], FromState(s)[4 * c..4 * c + 4];
    assert x[r] == b[r + 4 * c] && y[r] == FromState(s)[r + 4 * c];
    WordRow(x, r);
    RowByte(ColumnOf(s, c), r);
  }

  lemma BlockColumn(b: Block, s: State, c: nat)
    requires c < 4
    ensures ColumnOf(ToState(b), c) == ToWord(b[4 * c..4 * c + 4])
    ensures FromState(s)[4 * c..4 * c + 4] == FromWord(ColumnOf(s, c))
  {
    if c == 0 {
      assert b[..4] == b[0..4];
    } else if c == 3 {
      assert b[12..] == b[12..16];
    }
  }

  lemma WordRow(x: seq<bv8>, r: nat)
    requires |x| == 4 && r < 4
    ensures RowOf(ToWord(x), r) == x[r]
  {}

  lemma RowByte(w: Word, r: nat)
    requires r < 4
    ensures FromWord(w)[r] == RowOf(w, r)
  {}

  /** Column c behind SubBytes and ShiftRows: row r comes from r columns further on. */
  function Shifted(f: bv8 -> bv8, s: State, c: nat): Word
    requires c < 4
  {
    Word(f(Cell(s, 0, c)), f(Cell(s, 1, (c + 1) % 4)), f(Cell(s, 2, (c + 2) % 4)), f(Cell(s, 3, (c + 3) % 4)))
  }

  lemma ShiftedIs(f: bv8 -> bv8, s: State, c: nat)
    requires c < 4
    ensures ColumnOf(ShiftRows(SubBytes(f, s)), c) == Shifted(f, s, c)
  {
    if c == 0 { } else if c == 1 { } else if c == 2 { } else { }
  }

  lemma AddedIs(s: State, k: State, c: nat)
    requires c < 4
    ensures IsXor(ColumnOf(AddState(s, k), c), ColumnOf(s, c), ColumnOf(k, c))
  {
    AddIsXor(ColumnOf(s, c), ColumnOf(k, c));
  }

  predicate AskedCells(c: nat) { true }

  /** The first key is added to the block, */
  ghost predicate IsStart(s: State, k: State, x: State) {
    forall c: nat {:trigger AskedCells(c)} :: c < 4 && AskedCells(c) ==>
      IsXor(ColumnOf(x, c), ColumnOf(s, c), ColumnOf(k, c))
  }

  /** a round substitutes, shifts, mixes and adds, */
  ghost predicate IsRound(T: Tables, s: State, k: State, x: State) {
    forall c: nat {:trigger AskedCells(c)} :: c < 4 && AskedCells(c) ==>
      IsXor(ColumnOf(x, c), T.mix(Shifted(T.fsb, s, c)), ColumnOf(k, c))
  }

  /** and the last one does not mix. */
  ghost predicate IsEnd(T: Tables, s: State, k: State, x: State) {
    forall c: nat {:trigger AskedCells(c)} :: c < 4 && AskedCells(c) ==>
      IsXor(ColumnOf(x, c), Shifted(T.fsb, s, c), ColumnOf(k, c))
  }

  ghost predicate RoundAt(T: Tables, rk: Keys, st: seq<State>, i: nat) {
    1 <= i < |st| && i < |rk| && IsRound(T, st[i - 1], rk[i], st[i])
  }

  /** `st` are the states of the cipher from the block `s` to the last round, which gives `x`. */
  ghost predicate IsCipherBy(T: Tables, rk: Keys, s: State, st: seq<State>, x: State) {
    && |st| == Last(rk) && IsStart(s, rk[0], st[0])
    && (forall i: nat :: 1 <= i < |st| ==> RoundAt(T, rk, st, i))
    && IsEnd(T, st[|st| - 1], rk[Last(rk)], x)
  }

  ghost predicate IsCipher(T: Tables, rk: Keys, s: State, x: State) { exists st :: IsCipherBy(T, rk, s, st, x) }

  lemma StartIs(s: State, k: State)
    ensures IsStart(s, k, AddState(s, k))
  {
    forall c: nat | c < 4 ensures IsXor(ColumnOf(AddState(s, k), c), ColumnOf(s, c), ColumnOf(k, c)) {
      AddedIs(s, k, c);
    }
  }

  lemma RoundIs(T: Tables, s: State, k: State)
    ensures IsRound(T, s, k, AddState(Columns(T.mix, ShiftRows(SubBytes(T.fsb, s))), k))
  {
    var u := ShiftRows(SubBytes(T.fsb, s));
    var m := Columns(T.mix, u);
    forall c: nat | c < 4 ensures IsXor(ColumnOf(AddState(m, k), c), T.mix(Shifted(T.fsb, s, c)), ColumnOf(k, c)) {
      ShiftedIs(T.fsb, s, c);
      MixedIs(T, u, c);
      AddedIs(m, k, c);
    }
  }

  lemma MixedIs(T: Tables, u: State, c: nat)
    requires c < 4
    ensures ColumnOf(Columns(T.mix, u), c) == T.mix(ColumnOf(u, c))
  {}

  lemma EndIs(T: Tables, s: State, k: State)
    ensures IsEnd(T, s, k, AddState(ShiftRows(SubBytes(T.fsb, s)), k))
  {
    var u := ShiftRows(SubBytes(T.fsb, s));
    forall c: nat | c < 4 ensures IsXor(ColumnOf(AddState(u, k), c), Shifted(T.fsb, s, c), ColumnOf(k, c)) {
      ShiftedIs(T.fsb, s, c);
      AddedIs(u, k, c);
    }
  }

  // ---------------------------------------------------------------- the whole cipher

  lemma StatesRound(T: Tables, L: Layers, rk: Keys, s: State, i: nat)
    requires Realizes(L, T) && 1 <= i < Last(rk)
    ensures IsRound(T, Forward(L, rk, s, i - 1), rk[i], Forward(L, rk, s, i))
  {
    var y := Forward(L, rk, s, i - 1);
    assert AskedStep(y, rk[i]);
    RoundIs(T, y, rk[i]);
  }

  lemma Assembled(T: Tables, rk: Keys, s: State, st: seq<State>, x: State)
    requires |st| == Last(rk) && IsStart(s, rk[0], st[0]) && IsEnd(T, st[|st| - 1], rk[Last(rk)], x)
    requires forall i: nat :: 1 <= i < |st| ==> RoundAt(T, rk, st, i)
    ensures IsCipher(T, rk, s, x)
  {
    assert IsCipherBy(T, rk, s, st, x);
  }

  lemma RoundsExtend(T: Tables, rk: Keys, st: seq<State>, x: State)
    requires 1 <= |st| < |rk| && (forall i: nat :: 1 <= i < |st| ==> RoundAt(T, rk, st, i))
    requires IsRound(T, st[|st| - 1], rk[|st|], x)
    ensures forall i: nat :: 1 <= i <= |st| ==> RoundAt(T, rk, st + [x], i)
  {
    forall i: nat | 1 <= i <= |st| ensures RoundAt(T, rk, st + [x], i) {
      if i < |st| { assert RoundAt(T, rk, st, i); }
    }
  }

  /** The states of the first n rounds. */
  lemma {:induction false} StatesTo(T: Tables, L: Layers, rk: Keys, s: State, n: nat) returns (st: seq<State>)
    requires Realizes(L, T) && 1 <= n <= Last(rk)
    ensures |st| == n && st[n - 1] == Forward(L, rk, s, n - 1)
    ensures IsStart(s, rk[0], st[0]) && forall i: nat :: 1 <= i < n ==> RoundAt(T, rk, st, i)
    decreases n
  {
    if n == 1 {
      var x := Forward(L, rk, s, 0);
      FirstIs(T, L, rk, s, x);
      st := [x];
    } else {
      st := StatesTo(T, L, rk, s, n - 1);
      StatesRound(T, L, rk, s, n - 1);
      var x := Forward(L, rk, s, n - 1);
      RoundsExtend(T, rk, st, x);
      st := st + [x];
    }
  }

  /** The cipher by layers is the cipher cell by cell. */
  lemma CipherIs(T: Tables, L: Layers, rk: Keys, s: State)
    requires Realizes(L, T)
    ensures IsCipher(T, rk, s, Cipher(L, rk, s))
  {
    var st := StatesTo(T, L, rk, s, Last(rk));
    LastIs(T, L, rk, s, st[|st| - 1], Cipher(L, rk, s));
    Assembled(T, rk, s, st, Cipher(L, rk, s));
  }

  lemma FirstIs(T: Tables, L: Layers, rk: Keys, s: State, x: State)
    requires Realizes(L, T) && x == Forward(L, rk, s, 0)
    ensures IsStart(s, rk[0], x)
  {
    assert AskedStep(s, rk[0]);
    StartIs(s, rk[0]);
  }

  lemma LastIs(T: Tables, L: Layers, rk: Keys, s: State, y: State, x: State)
    requires Realizes(L, T) && y == Forward(L, rk, s, Last(rk) - 1) && x == Cipher(L, rk, s)
    ensures IsEnd(T, y, rk[Last(rk)], x)
  {
    assert AskedStep(y, rk[Last(rk)]);
    EndIs(T, y, rk[Last(rk)]);
  }

  /** The table rounds compute the cipher of the standard. */
  method Encrypt(T: Tables, rk: Keys, s: State) returns (x: State)
    requires TTables(T) && Last(rk) >= 2 && Last(rk) % 2 == 0
    ensures IsCipher(T, rk, s, x)
  {
    ghost var L := RealLayers(T);
    CipherIs(T, L, rk, s);
    x := EncryptState(T, L, rk, s);
  }
}
