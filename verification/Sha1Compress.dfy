/** The compression function of SHA-1: the code's 16-word circular schedule and rotated register names
    (sha1.twl.c) against the 80-word schedule and shifting registers of section 6.1.2 of FIPS 180-4. */
module Sha1Compress {
  import opened Bytes

  type Chunk = b: seq<bv8> | |b| == 64 witness seq(64, _ => 0)

  datatype State = State(a: bv32, b: bv32, c: bv32, d: bv32, e: bv32)

  // ---------------------------------------------------------------- FIPS 180-4

  function Rotl1(x: bv32): bv32 { (x << 1) | (x >> 31) }
  function Rotl5(x: bv32): bv32 { (x << 5) | (x >> 27) }
  function Rotl30(x: bv32): bv32 { (x << 30) | (x >> 2) }

  function Ch(x: bv32, y: bv32, z: bv32): bv32 { (x & y) ^ (!x & z) }
  function Parity(x: bv32, y: bv32, z: bv32): bv32 { x ^ y ^ z }
  function Maj(x: bv32, y: bv32, z: bv32): bv32 { (x & y) ^ (x & z) ^ (y & z) }

  function Mix(t: nat, x: bv32, y: bv32, z: bv32): bv32 {
    if t < 20 then Ch(x, y, z) else if t < 40 then Parity(x, y, z) else if t < 60 then Maj(x, y, z) else Parity(x, y, z)
  }

  function K(t: nat): bv32 {
    if t < 20 then 0x5A827999 else if t < 40 then 0x6ED9EBA1 else if t < 60 then 0x8F1BBCDC else 0xCA62C1D6
  }

  /** W(t) from W(t-3), W(t-8), W(t-14) and W(t-16). */
  function Sigma(w3: bv32, w8: bv32, w14: bv32, w16: bv32): bv32 { Rotl1(w3 ^ w8 ^ w14 ^ w16) }

  function Sum(r: bv32, f: bv32, e: bv32, k: bv32, w: bv32): bv32 { r + f + e + k + w }

  function Round(s: State, t: nat, w: bv32): State {
    State(Sum(Rotl5(s.a), Mix(t, s.b, s.c, s.d), s.e, K(t), w), s.a, Rotl30(s.b), s.c, s.d)
  }

  type Word4 = (bv32, bv32, bv32, bv32) -> bv32
  type Step = (State, nat, bv32) -> State

  function NextWord(g: Word4, w: seq<bv32>, t: nat): bv32
    requires 16 <= t <= |w|
  {
    g(w[t - 3], w[t - 8], w[t - 14], w[t - 16])
  }

  /** The message schedule: `m` continued to 80 words. */
  function Schedule(g: Word4, m: seq<bv32>): (w: seq<bv32>)
    requires 16 <= |m| <= 80
    ensures |w| == 80
    decreases 80 - |m|
  {
    if |m| == 80 then m else Schedule(g, m + [NextWord(g, m, |m|)])
  }

  /** One round for each word. */
  function Rounds(step: Step, s: State, w: seq<bv32>): State
    decreases |w|
  {
    if w == [] then s else step(Rounds(step, s, w[..|w| - 1]), |w| - 1, w[|w| - 1])
  }

  function Add32(x: bv32, y: bv32): bv32 { x + y }

  function Plus(s: State, u: State): State {
    State(Add32(s.a, u.a), Add32(s.b, u.b), Add32(s.c, u.c), Add32(s.d, u.d), Add32(s.e, u.e))
  }

  function Words(data: Chunk): (m: seq<bv32>)
    ensures |m| == 16
  {
    seq(16, i requires 0 <= i < 16 => WordBe(data[4 * i..4 * i + 4]))
  }

  function CompressWith(g: Word4, step: Step, s: State, data: Chunk): State {
    Plus(s, Rounds(step, s, Schedule(g, Words(data))))
  }

  lemma {:induction false} SchedulePrefix(g: Word4, m: seq<bv32>)
    requires 16 <= |m| <= 80
    ensures Schedule(g, m)[..|m|] == m
    decreases 80 - |m|
  {
    if |m| < 80 {
      var m' := m + [NextWord(g, m, |m|)];
      SchedulePrefix(g, m');
      assert Schedule(g, m)[..|m|] == Schedule(g, m')[..|m'|][..|m|];
    }
  }

  lemma {:induction false} ScheduleNext(g: Word4, m: seq<bv32>, t: nat)
    requires 16 <= |m| <= t < 80
    ensures Schedule(g, m)[t] == NextWord(g, Schedule(g, m), t)
    decreases 80 - |m|
  {
    var m' := m + [NextWord(g, m, |m|)];
    if t > |m| {
      ScheduleNext(g, m', t);
    } else {
      var w := Schedule(g, m');
      SchedulePrefix(g, m');
      forall i | 0 <= i <= |m| ensures w[i] == m'[i] { assert w[..|m'|][i] == w[i]; }
    }
  }

  /** Section 6.1.2, step 1: the sixteen words of the chunk, most significant byte first, */
  lemma WordsAre(data: Chunk, i: nat)
    requires i < 16
    ensures Words(data)[i] as int == FromBe32(data[4 * i..4 * i + 4])
  {
    FromBe32Word(data[4 * i..4 * i + 4]);
  }

  /** and behind them each word from those 3, 8, 14 and 16 places back. */
  lemma ScheduleIs(g: Word4, m: seq<bv32>, t: nat)
    requires |m| == 16 && t < 80
    ensures var w := Schedule(g, m);
      w[t] == if t < 16 then m[t] else g(w[t - 3], w[t - 8], w[t - 14], w[t - 16])
  {
    if t < 16 {
      SchedulePrefix(g, m);
      assert Schedule(g, m)[..16][t] == Schedule(g, m)[t];
    } else {
      ScheduleNext(g, m, t);
    }
  }

  // What the functions of section 4.1.1 and the constants of section 4.2.1 of FIPS 180-4 mean

  lemma Rotations(x: bv32)
    ensures Rotl1(x) == x.RotateLeft(1) && Rotl5(x) == x.RotateLeft(5) && Rotl30(x) == x.RotateLeft(30)
  {}

  /** Ch takes the bits of y where x is set and those of z elsewhere. */
  lemma ChSelects(x: bv32, y: bv32, z: bv32)
    ensures x & Ch(x, y, z) == x & y && !x & Ch(x, y, z) == !x & z
  {}

  /** Maj has the common bit of x and y where they agree, and the bit of z elsewhere. */
  lemma MajVotes(x: bv32, y: bv32, z: bv32)
    ensures !(x ^ y) & Maj(x, y, z) == !(x ^ y) & x && (x ^ y) & Maj(x, y, z) == (x ^ y) & z
  {}

  /** Parity differs from x exactly where y and z differ. */
  lemma ParityDiffers(x: bv32, y: bv32, z: bv32)
    ensures Parity(x, y, z) ^ x == y ^ z
  {}

  /** The groups of twenty rounds. */
  lemma MixIs(t: nat, x: bv32, y: bv32, z: bv32)
    requires t < 80
    ensures t / 20 == 0 ==> Mix(t, x, y, z) == Ch(x, y, z)
    ensures t / 20 == 2 ==> Mix(t, x, y, z) == Maj(x, y, z)
    ensures t / 20 == 1 || t / 20 == 3 ==> Mix(t, x, y, z) == Parity(x, y, z)
  {}

  function Radicand(t: nat): nat { if t < 20 then 2 else if t < 40 then 3 else if t < 60 then 5 else 10 }

  /** The constants are the square roots of 2, 3, 5 and 10, times 2^30 and rounded down. */
  lemma ConstantsAreRoots(t: nat)
    requires t < 80
    ensures var k := K(t) as int; k * k <= Radicand(t) * 0x1000_0000_0000_0000 < (k + 1) * (k + 1)
  {}

  /** Section 6.1.2, step 3. */
  lemma RoundIs(s: State, t: nat, w: bv32)
    ensures var r := Round(s, t, w);
      && r.a == Sum(s.a.RotateLeft(5), Mix(t, s.b, s.c, s.d), s.e, K(t), w)
      && r.b == s.a && r.c == s.b.RotateLeft(30) && r.d == s.c && r.e == s.d
  {
    Rotations(s.a);
    Rotations(s.b);
  }

  lemma SumIs(r: bv32, f: bv32, e: bv32, k: bv32, w: bv32)
    ensures Sum(r, f, e, k, w) == r + f + e + k + w
  {}

  lemma SigmaIs(w3: bv32, w8: bv32, w14: bv32, w16: bv32)
    ensures Sigma(w3, w8, w14, w16) == (w3 ^ w8 ^ w14 ^ w16).RotateLeft(1)
  {
    Rotations(w3 ^ w8 ^ w14 ^ w16);
  }

  /** Step 4: each register of the state before is added to that of the outcome of the eighty rounds. */
  lemma PlusAdds(s: State, u: State)
    ensures Plus(s, u) == State(Add32(u.a, s.a), Add32(u.b, s.b), Add32(u.c, s.c), Add32(u.d, s.d), Add32(u.e, s.e))
  {
    Adds(s.a, u.a);
    Adds(s.b, u.b);
    Adds(s.c, u.c);
    Adds(s.d, u.d);
    Adds(s.e, u.e);
  }

  lemma Adds(x: bv32, y: bv32)
    ensures Add32(x, y) == x + y && Add32(x, y) == Add32(y, x)
  {}

  // ---------------------------------------------------------------- the code

  // The macro F, as each group of twenty rounds defines it

  lemma ChForm(x: bv32, y: bv32, z: bv32)
    ensures z ^ (x & (y ^ z)) == Ch(x, y, z)
  {}

  lemma MajForm(x: bv32, y: bv32, z: bv32)
    ensures (x & y) | (z & (x | y)) == Maj(x, y, z)
  {}

  method F1(x: bv32, y: bv32, z: bv32) returns (f: bv32)
    ensures f == Ch(x, y, z)
  {
    ChForm(x, y, z);
    f := z ^ (x & (y ^ z));
  }

  method F3(x: bv32, y: bv32, z: bv32) returns (f: bv32)
    ensures f == Maj(x, y, z)
  {
    MajForm(x, y, z);
    f := (x & y) | (z & (x | y));
  }

  method F24(x: bv32, y: bv32, z: bv32) returns (f: bv32)
    ensures f == Parity(x, y, z)
  {
    f := x ^ y ^ z;
  }

  method F(t: nat, x: bv32, y: bv32, z: bv32) returns (f: bv32)
    ensures f == Mix(t, x, y, z)
  {
    if t < 20 { f := F1(x, y, z); } else if 40 <= t < 60 { f := F3(x, y, z); } else { f := F24(x, y, z); }
  }

  // The rounds know Sigma and Round only as some `g` and `step`; asking for a value says what they are.

  predicate AskedWord(x: bv32, y: bv32, z: bv32, v: bv32) { true }
  predicate AskedRound(s: State, t: nat, w: bv32) { true }

  ghost predicate IsSigma(g: Word4) {
    forall x, y, z, v {:trigger AskedWord(x, y, z, v)} :: AskedWord(x, y, z, v) ==> g(x, y, z, v) == Sigma(x, y, z, v)
  }

  ghost predicate IsRound(step: Step) {
    forall s, t, w {:trigger AskedRound(s, t, w)} :: AskedRound(s, t, w) ==> step(s, t, w) == Round(s, t, w)
  }

  function At(k: nat, i: nat): (j: nat)
    requires k < 5 && i < 5
    ensures j < 5
  {
    if k + i < 5 then k + i else k + i - 5
  }

  /** Registers are not shifted: the one that plays the part of `a` is found at `k`, of `b` behind it. */
  ghost function Roles(x: seq<bv32>, k: nat): State
    requires |x| == 5 && k < 5
  {
    State(x[k], x[At(k, 1)], x[At(k, 2)], x[At(k, 3)], x[At(k, 4)])
  }

  method AddUp(e: bv32, r: bv32, f: bv32, k: bv32, w: bv32) returns (sum: bv32)
    ensures sum == Sum(r, f, e, k, w)
  {
    sum := e + (r + f + k + w);
  }

  method KOf(t: nat) returns (k: bv32) ensures k == K(t) { k := K(t); }

  method NewA(s: State, t: nat, w: bv32) returns (a: bv32)
    ensures a == Sum(Rotl5(s.a), Mix(t, s.b, s.c, s.d), s.e, K(t), w)
  {
    var f := F(t, s.b, s.c, s.d);
    var k := KOf(t);
    a := AddUp(s.e, Rotl5(s.a), f, k, w);
  }

  method OneRound(s: State, t: nat, w: bv32, ghost step: Step) returns (a: bv32, c: bv32)
    requires IsRound(step)
    ensures step(s, t, w) == State(a, s.a, c, s.c, s.d)
  {
    assert AskedRound(s, t, w);
    a := NewA(s, t, w);
    c := Rotl30(s.b);
  }

  /** The macro P: only the registers in the parts of `e` and `b` are written. */
  method P(x: array<bv32>, k: nat, t: nat, w: bv32, ghost step: Step)
    requires IsRound(step) && x.Length == 5 && k < 5
    modifies x
    ensures Roles(x[..], At(k, 4)) == step(old(Roles(x[..], k)), t, w)
  {
    var s := State(x[k], x[At(k, 1)], x[At(k, 2)], x[At(k, 3)], x[At(k, 4)]);
    var a, c := OneRound(s, t, w, step);
    x[At(k, 4)] := a;
    x[At(k, 1)] := c;
  }

  /** The last 16 words of the schedule before word t are in the circular buffer. */
  ghost predicate Window(w: seq<bv32>, sched: seq<bv32>, t: nat) {
    |w| == 16 && 16 <= t <= |sched| && forall j {:trigger sched[j]} :: t - 16 <= j < t ==> w[j % 16] == sched[j]
  }

  lemma InWindow(w: seq<bv32>, sched: seq<bv32>, t: nat)
    requires Window(w, sched, t)
    ensures w[(t - 3) % 16] == sched[t - 3] && w[(t - 8) % 16] == sched[t - 8]
    ensures w[(t - 14) % 16] == sched[t - 14] && w[t % 16] == sched[t - 16]
  {
    assert t % 16 == (t - 16) % 16;
  }

  lemma WindowNext(w: seq<bv32>, sched: seq<bv32>, t: nat)
    requires Window(w, sched, t) && t < |sched|
    ensures Window(w[t % 16 := sched[t]], sched, t + 1)
  {}

  method NewWord(x: bv32, y: bv32, z: bv32, v: bv32, ghost g: Word4) returns (r: bv32)
    requires IsSigma(g)
    ensures r == g(x, y, z, v)
  {
    assert AskedWord(x, y, z, v);
    r := Rotl1(x ^ y ^ z ^ v);
  }

  /** The macro R: the word 16 back is overwritten with the next one. */
  method R(w: array<bv32>, t: nat, ghost g: Word4, ghost m: seq<bv32>) returns (x: bv32)
    requires IsSigma(g) && |m| == 16 && w.Length == 16 && 16 <= t < 80 && Window(w[..], Schedule(g, m), t)
    modifies w
    ensures x == Schedule(g, m)[t] && Window(w[..], Schedule(g, m), t + 1)
  {
    ghost var sched := Schedule(g, m);
    ScheduleNext(g, m, t);
    InWindow(w[..], sched, t);
    x := NewWord(w[(t - 3) % 16], w[(t - 8) % 16], w[(t - 14) % 16], w[t % 16], g);
    WindowNext(w[..], sched, t);
    w[t % 16] := x;
  }

  ghost function Reached(t: nat): nat { if t < 16 then 16 else t }

  /** Word t: given for the first sixteen rounds, computed after that. */
  method WordAt(w: array<bv32>, t: nat, ghost g: Word4, ghost m: seq<bv32>) returns (x: bv32)
    requires IsSigma(g) && |m| == 16 && w.Length == 16 && t < 80 && Window(w[..], Schedule(g, m), Reached(t))
    modifies w
    ensures x == Schedule(g, m)[t] && Window(w[..], Schedule(g, m), Reached(t + 1))
  {
    if t < 16 {
      x := w[t];
      assert x == w[..][t % 16];
    } else {
      x := R(w, t, g, m);
    }
  }

  lemma {:induction false} RoundsSnoc(step: Step, s: State, w: seq<bv32>, t: nat)
    requires t < |w|
    ensures Rounds(step, s, w[..t + 1]) == step(Rounds(step, s, w[..t]), t, w[t])
  {
    assert w[..t + 1][..t] == w[..t];
  }

  /** The names move on by one: what was `e` is now `a`. */
  method Turn(k: nat, ghost t: nat) returns (k': nat)
    requires k < 5 && (k + t) % 5 == 0
    ensures k' == At(k, 4) && (k' + t + 1) % 5 == 0
  {
    k' := if k == 0 then 4 else k - 1;
  }

  method Registers(s: State) returns (x: array<bv32>)
    ensures fresh(x) && x.Length == 5 && Roles(x[..], 0) == s
  {
    x := new bv32[5];
    x[0], x[1], x[2], x[3], x[4] := s.a, s.b, s.c, s.d, s.e;
  }

  lemma FirstWindow(g: Word4, m: seq<bv32>)
    requires |m| == 16
    ensures Window(m, Schedule(g, m), 16)
  {
    SchedulePrefix(g, m);
    assert forall j :: 0 <= j < 16 ==> Schedule(g, m)[..16][j] == Schedule(g, m)[j];
  }

  /** The eighty macro calls, as a loop. */
  method Run(s: State, w: array<bv32>, ghost g: Word4, ghost step: Step, ghost m: seq<bv32>) returns (r: State)
    requires IsSigma(g) && IsRound(step) && |m| == 16 && w.Length == 16 && w[..] == m
    modifies w
    ensures r == Rounds(step, s, Schedule(g, m))
  {
    FirstWindow(g, m);
    ghost var sched := Schedule(g, m);
    var x := Registers(s);
    var k: nat := 0;
    for t := 0 to 80
      invariant k < 5 && (k + t) % 5 == 0 && fresh(x) && x != w
      invariant Window(w[..], sched, Reached(t))
      invariant Roles(x[..], k) == Rounds(step, s, sched[..t])
    {
      var word := WordAt(w, t, g, m);
      P(x, k, t, word, step);
      RoundsSnoc(step, s, sched, t);
      k := Turn(k, t);
    }
    assert sched[..80] == sched;
    r := State(x[k], x[At(k, 1)], x[At(k, 2)], x[At(k, 3)], x[At(k, 4)]); // after 80 turns k is 0 again
  }

  method LoadWords(w: array<bv32>, data: Chunk)
    requires w.Length == 16
    modifies w
    ensures w[..] == Words(data)
  {
    for i := 0 to 16
      invariant forall j :: 0 <= j < i ==> w[j] == Words(data)[j]
    {
      w[i] := WordBe(data[4 * i..4 * i + 4]);
    }
  }

  /** mbedtls_internal_sha1_process */
  method Process(s: State, data: Chunk, ghost g: Word4, ghost step: Step) returns (r: State)
    requires IsSigma(g) && IsRound(step)
    ensures r == CompressWith(g, step, s, data)
  {
    var w := new bv32[16];
    LoadWords(w, data);
    ghost var m := Words(data);
    var u := Run(s, w, g, step, m);
    r := Plus(s, u);
  }
}
