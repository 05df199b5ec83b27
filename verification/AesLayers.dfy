/** The layers of an AES round, from the tables of aes.twl.c.  The S-boxes are any two mutually inverse
    tables, the column mix any linear map of columns with an inverse, and the T-tables the S-box followed
    by the column mix. */
module AesLayers {
  import opened Aes

  function AddWord(w: Word, v: Word): Word { Word(w.b0 ^ v.b0, w.b1 ^ v.b1, w.b2 ^ v.b2, w.b3 ^ v.b3) }

  function AddState(s: State, k: State): State {
    State(AddWord(s.c0, k.c0), AddWord(s.c1, k.c1), AddWord(s.c2, k.c2), AddWord(s.c3, k.c3))
  }

  lemma AddWordTwice(w: Word, v: Word)
    ensures AddWord(AddWord(w, v), v) == w
  {}

  datatype Tables = Tables(fsb: bv8 -> bv8, rsb: bv8 -> bv8, mix: Word -> Word, imix: Word -> Word,
                           ft0: bv8 -> Word, ft1: bv8 -> Word, ft2: bv8 -> Word, ft3: bv8 -> Word,
                           rt0: bv8 -> Word, rt1: bv8 -> Word, rt2: bv8 -> Word, rt3: bv8 -> Word)

  function Sum(w: Word, x: Word, y: Word, z: Word): Word { AddWord(AddWord(AddWord(w, x), y), z) }

  ghost predicate Inverse(T: Tables) {
    && (forall x {:trigger T.fsb(x)} :: T.rsb(T.fsb(x)) == x)
    && (forall x {:trigger T.rsb(x)} :: T.fsb(T.rsb(x)) == x)
    && (forall w {:trigger T.mix(w)} :: T.imix(T.mix(w)) == w)
    && (forall w {:trigger T.imix(w)} :: T.mix(T.imix(w)) == w)
  }

  predicate AskedSum(w: Word, v: Word) { true }
  ghost predicate Linear(T: Tables) {
    forall w, v {:trigger AskedSum(w, v)} :: AskedSum(w, v) ==> T.imix(AddWord(w, v)) == AddWord(T.imix(w), T.imix(v))
  }

  predicate AskedColumn(x: bv8, y: bv8, z: bv8, v: bv8) { true }
  ghost predicate TTables(T: Tables) {
    forall x, y, z, v {:trigger AskedColumn(x, y, z, v)} :: AskedColumn(x, y, z, v) ==>
      && Sum(T.ft0(x), T.ft1(y), T.ft2(z), T.ft3(v)) == T.mix(Word(T.fsb(x), T.fsb(y), T.fsb(z), T.fsb(v)))
      && Sum(T.rt0(x), T.rt1(y), T.rt2(z), T.rt3(v)) == T.imix(Word(T.rsb(x), T.rsb(y), T.rsb(z), T.rsb(v)))
  }

  ghost predicate Good(T: Tables) { Inverse(T) && Linear(T) && TTables(T) }

  // ---------------------------------------------------------------- sections 5.1.1, 5.1.2, 5.3.1 and 5.3.2 of FIPS 197

  function SubWord(f: bv8 -> bv8, w: Word): Word { Word(f(w.b0), f(w.b1), f(w.b2), f(w.b3)) }

  function SubBytes(f: bv8 -> bv8, s: State): State {
    State(SubWord(f, s.c0), SubWord(f, s.c1), SubWord(f, s.c2), SubWord(f, s.c3))
  }

  /** Row i moves i places to the left. */
  function ShiftRows(s: State): State {
    State(Word(s.c0.b0, s.c1.b1, s.c2.b2, s.c3.b3), Word(s.c1.b0, s.c2.b1, s.c3.b2, s.c0.b3),
          Word(s.c2.b0, s.c3.b1, s.c0.b2, s.c1.b3), Word(s.c3.b0, s.c0.b1, s.c1.b2, s.c2.b3))
  }

  function InvShiftRows(s: State): State {
    State(Word(s.c0.b0, s.c3.b1, s.c2.b2, s.c1.b3), Word(s.c1.b0, s.c0.b1, s.c3.b2, s.c2.b3),
          Word(s.c2.b0, s.c1.b1, s.c0.b2, s.c3.b3), Word(s.c3.b0, s.c2.b1, s.c1.b2, s.c0.b3))
  }

  function Columns(f: Word -> Word, s: State): State { State(f(s.c0), f(s.c1), f(s.c2), f(s.c3)) }

  function LayersOf(T: Tables): Layers {
    Layers(s => ShiftRows(SubBytes(T.fsb, s)), s => InvShiftRows(SubBytes(T.rsb, s)),
           s => Columns(T.mix, s), s => Columns(T.imix, s), (s, k) => AddState(s, k))
  }

  // ---------------------------------------------------------------- the laws

  lemma SubUndone(T: Tables, s: State)
    requires Inverse(T)
    ensures InvShiftRows(SubBytes(T.rsb, ShiftRows(SubBytes(T.fsb, s)))) == s
    ensures ShiftRows(SubBytes(T.fsb, InvShiftRows(SubBytes(T.rsb, s)))) == s
  {}

  lemma MixUndone(T: Tables, s: State)
    requires Inverse(T)
    ensures Columns(T.imix, Columns(T.mix, s)) == s && Columns(T.mix, Columns(T.imix, s)) == s
  {}

  lemma AddTwice(s: State, k: State)
    ensures AddState(AddState(s, k), k) == s
  {
    AddWordTwice(s.c0, k.c0);
    AddWordTwice(s.c1, k.c1);
    AddWordTwice(s.c2, k.c2);
    AddWordTwice(s.c3, k.c3);
  }

  lemma MixLinear(T: Tables, s: State, k: State)
    requires Linear(T)
    ensures Columns(T.imix, AddState(s, k)) == AddState(Columns(T.imix, s), Columns(T.imix, k))
  {
    assert AskedSum(s.c0, k.c0) && AskedSum(s.c1, k.c1) && AskedSum(s.c2, k.c2) && AskedSum(s.c3, k.c3);
  }

  lemma LayersObey(T: Tables)
    requires Good(T)
    ensures Laws(LayersOf(T))
  {
    var L := LayersOf(T);
    forall s ensures L.isub(L.sub(s)) == s && L.sub(L.isub(s)) == s { SubUndone(T, s); }
    forall s ensures L.imix(L.mix(s)) == s && L.mix(L.imix(s)) == s { MixUndone(T, s); }
    forall s, k ensures L.add(L.add(s, k), k) == s { AddTwice(s, k); }
    forall s, k ensures L.imix(L.add(s, k)) == L.add(L.imix(s), L.imix(k)) { MixLinear(T, s, k); }
  }

  lemma SubIs(T: Tables, s: State)
    ensures LayersOf(T).sub(s) == ShiftRows(SubBytes(T.fsb, s))
  {}

  lemma IsubIs(T: Tables, s: State)
    ensures LayersOf(T).isub(s) == InvShiftRows(SubBytes(T.rsb, s))
  {}

  lemma MixIs(T: Tables, s: State)
    ensures LayersOf(T).mix(s) == Columns(T.mix, s)
  {}

  lemma ImixIs(T: Tables, s: State)
    ensures LayersOf(T).imix(s) == Columns(T.imix, s)
  {}

  lemma AddIs(T: Tables, s: State, k: State)
    ensures LayersOf(T).add(s, k) == AddState(s, k)
  {}
}
