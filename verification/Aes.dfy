/** The round structure of AES (aes.twl.c): the cipher, the inverse cipher, and the equivalent inverse
    cipher that the code runs with the key schedule of setkey_dec (sections 5.1, 5.3 and 5.3.5 of FIPS 197).
    The layers of a round are known here by their laws only; AesLayers shows that the real ones obey them. */
module Aes {

  /** A 32-bit word, as its bytes from the least significant to the most: a column of the state. */
  datatype Word = Word(b0: bv8, b1: bv8, b2: bv8, b3: bv8)

  datatype State = State(c0: Word, c1: Word, c2: Word, c3: Word)

  /** sub is SubBytes and ShiftRows, mix is MixColumns, add is AddRoundKey. */
  datatype Layers = Layers(sub: State -> State, isub: State -> State, mix: State -> State, imix: State -> State,
                           add: (State, State) -> State)

  ghost predicate Laws(L: Layers) {
    && (forall s {:trigger L.sub(s)} :: L.isub(L.sub(s)) == s)
    && (forall s {:trigger L.isub(s)} :: L.sub(L.isub(s)) == s)
    && (forall s {:trigger L.mix(s)} :: L.imix(L.mix(s)) == s)
    && (forall s {:trigger L.imix(s)} :: L.mix(L.imix(s)) == s)
    && (forall s, k {:trigger L.add(s, k)} :: L.add(L.add(s, k), k) == s)
    && (forall s, k {:trigger L.imix(L.add(s, k))} :: L.imix(L.add(s, k)) == L.add(L.imix(s), L.imix(k)))
  }

  /** One round key more than there are rounds. */
  type Keys = k: seq<State> | |k| >= 2
    witness var z := Word(0, 0, 0, 0); [State(z, z, z, z), State(z, z, z, z)]

  function Last(rk: Keys): nat { |rk| - 1 }

  // ---------------------------------------------------------------- FIPS 197

  /** The state after round r, r below the last. */
  function Forward(L: Layers, rk: Keys, s: State, r: nat): State
    requires r < Last(rk)
    decreases r
  {
    if r == 0 then L.add(s, rk[0]) else L.add(L.mix(L.sub(Forward(L, rk, s, r - 1))), rk[r])
  }

  function Cipher(L: Layers, rk: Keys, s: State): State {
    L.add(L.sub(Forward(L, rk, s, Last(rk) - 1)), rk[Last(rk)])
  }

  /** The state of the inverse cipher after i rounds. */
  function Backward(L: Layers, rk: Keys, y: State, i: nat): State
    requires i < Last(rk)
    decreases i
  {
    if i == 0 then L.add(y, rk[Last(rk)]) else L.imix(L.add(L.isub(Backward(L, rk, y, i - 1)), rk[Last(rk) - i]))
  }

  function InvCipher(L: Layers, rk: Keys, y: State): State {
    L.add(L.isub(Backward(L, rk, y, Last(rk) - 1)), rk[0])
  }

  /** The inverse cipher in the order of the cipher, with a schedule of its own. */
  function Equivalent(L: Layers, dk: Keys, y: State, i: nat): State
    requires i < Last(dk)
    decreases i
  {
    if i == 0 then L.add(y, dk[0]) else L.add(L.imix(L.isub(Equivalent(L, dk, y, i - 1))), dk[i])
  }

  function EqInvCipher(L: Layers, dk: Keys, y: State): State {
    L.add(L.isub(Equivalent(L, dk, y, Last(dk) - 1)), dk[Last(dk)])
  }

  /** The schedule reversed, its inner keys through the inverse mix. */
  function Reversed(L: Layers, rk: Keys): (dk: Keys)
    ensures |dk| == |rk|
  {
    var dk: seq<State> := seq(|rk|, i requires 0 <= i < |rk| =>
      if i == 0 || i == |rk| - 1 then rk[|rk| - 1 - i] else L.imix(rk[|rk| - 1 - i]));
    dk
  }

  // ---------------------------------------------------------------- the theorems

  lemma {:induction false} BackwardUndoes(L: Layers, rk: Keys, s: State, i: nat)
    requires Laws(L) && i < Last(rk)
    ensures Backward(L, rk, Cipher(L, rk, s), i) == L.sub(Forward(L, rk, s, Last(rk) - 1 - i))
    decreases i
  {
    if i > 0 {
      BackwardUndoes(L, rk, s, i - 1);
      var f := Forward(L, rk, s, Last(rk) - i);
      assert L.isub(L.sub(f)) == f;
    }
  }

  /** The inverse cipher undoes the cipher. */
  lemma InvCipherUndoes(L: Layers, rk: Keys, s: State)
    requires Laws(L)
    ensures InvCipher(L, rk, Cipher(L, rk, s)) == s
  {
    BackwardUndoes(L, rk, s, Last(rk) - 1);
    assert L.isub(L.sub(Forward(L, rk, s, 0))) == L.add(s, rk[0]);
  }

  lemma {:induction false} ForwardUndoes(L: Layers, rk: Keys, y: State, r: nat)
    requires Laws(L) && r < Last(rk)
    ensures Forward(L, rk, InvCipher(L, rk, y), r) == L.isub(Backward(L, rk, y, Last(rk) - 1 - r))
    decreases r
  {
    if r > 0 {
      ForwardUndoes(L, rk, y, r - 1);
      var b := Backward(L, rk, y, Last(rk) - r);
      assert L.sub(L.isub(b)) == b;
      assert L.mix(b) == L.add(L.isub(Backward(L, rk, y, Last(rk) - r - 1)), rk[r]);
    }
  }

  /** And the cipher undoes the inverse cipher. */
  lemma CipherUndoes(L: Layers, rk: Keys, y: State)
    requires Laws(L)
    ensures Cipher(L, rk, InvCipher(L, rk, y)) == y
  {
    ForwardUndoes(L, rk, y, Last(rk) - 1);
    assert L.sub(L.isub(Backward(L, rk, y, 0))) == L.add(y, rk[Last(rk)]);
  }

  /** Adding an inner key of the reversed schedule behind the inverse mix. */
  lemma MixedKey(L: Layers, rk: Keys, s: State, i: nat)
    requires Laws(L) && 0 < i < Last(rk)
    ensures L.add(L.imix(s), Reversed(L, rk)[i]) == L.imix(L.add(s, rk[Last(rk) - i]))
  {}

  lemma {:induction false} EquivalentIsBackward(L: Layers, rk: Keys, y: State, i: nat)
    requires Laws(L) && i < Last(rk)
    ensures Equivalent(L, Reversed(L, rk), y, i) == Backward(L, rk, y, i)
    decreases i
  {
    if i > 0 {
      EquivalentIsBackward(L, rk, y, i - 1);
      MixedKey(L, rk, L.isub(Backward(L, rk, y, i - 1)), i);
    }
  }

  /** With the reversed schedule the equivalent inverse cipher is the inverse cipher, on every block. */
  lemma EqInvIsInv(L: Layers, rk: Keys, y: State)
    requires Laws(L)
    ensures EqInvCipher(L, Reversed(L, rk), y) == InvCipher(L, rk, y)
  {
    EquivalentIsBackward(L, rk, y, Last(rk) - 1);
  }
}
