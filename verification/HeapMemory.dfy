/** The allocator's headers as they lie in memory: eight little-endian words each, read and written as
    bytes, and why writing one header or a payload leaves the other headers alone. */
module HeapMemory {
  import opened LittleEndian
  import opened HeapModel
  import opened HeapTheorems

  /** What the code sees when it follows a memory_header pointer to `p`. */
  function HeaderAt(m: seq<byte>, p: nat): Header
    requires p + HEADER <= |m|
  {
    Header(U32(m, p), U32(m, p + 4), U32(m, p + 8), U32(m, p + 12),
           U32(m, p + 16), U32(m, p + 20), U32(m, p + 24), U32(m, p + 28))
  }

  /** Every field is a 32-bit word. */
  predicate Words(h: Header) {
    && h.magic1 < WORD && h.size < WORD && h.alloc < WORD && h.prev < WORD
    && h.next < WORD && h.prevFree < WORD && h.nextFree < WORD && h.magic2 < WORD
  }

  function HeaderBytes(h: Header): (b: seq<byte>)
    requires Words(h)
    ensures |b| == HEADER
  {
    WordBytes(h.magic1) + WordBytes(h.size) + WordBytes(h.alloc) + WordBytes(h.prev)
    + WordBytes(h.next) + WordBytes(h.prevFree) + WordBytes(h.nextFree) + WordBytes(h.magic2)
  }

  /** Memory with the bytes `b` written at `p`. */
  function Patch(m: seq<byte>, p: nat, b: seq<byte>): (r: seq<byte>)
    requires p + |b| <= |m|
    ensures |r| == |m|
    ensures forall a: nat :: a < |m| ==> r[a] == if p <= a < p + |b| then b[a - p] else m[a]
  {
    m[..p] + b + m[p + |b|..]
  }

  function Cleared(n: nat): seq<byte> { seq(n, _ => 0) }

  /** A header that is written is what a later read finds. */
  lemma HeaderRoundTrip(m: seq<byte>, p: nat, h: Header)
    requires p + HEADER <= |m| && Words(h) && m[p..p + HEADER] == HeaderBytes(h)
    ensures HeaderAt(m, p) == h
  {
    var b := HeaderBytes(h);
    Piece(m, p, b, 0, h.magic1);
    Piece(m, p, b, 4, h.size);
    Piece(m, p, b, 8, h.alloc);
    Piece(m, p, b, 12, h.prev);
    Piece(m, p, b, 16, h.next);
    Piece(m, p, b, 20, h.prevFree);
    Piece(m, p, b, 24, h.nextFree);
    Piece(m, p, b, 28, h.magic2);
  }

  lemma Piece(m: seq<byte>, p: nat, b: seq<byte>, k: nat, v: nat)
    requires p + |b| <= |m| && m[p..p + |b|] == b && k + 4 <= |b| && v < WORD && b[k..k + 4] == WordBytes(v)
    ensures U32(m, p + k) == v
  {
    forall i | 0 <= i < 4 ensures m[p + k + i] == WordBytes(v)[i] {
      assert m[p + k + i] == m[p..p + |b|][k + i] == b[k..k + 4][i];
    }
    WordRoundTrip(m, p + k, v);
  }

  /** The fields lie in memory in the order of the C struct. */
  lemma FieldOffsets(h: Header)
    requires Words(h)
    ensures var b := HeaderBytes(h);
      && U32(b, 0) == h.magic1 && U32(b, 4) == h.size && U32(b, 8) == h.alloc && U32(b, 12) == h.prev
      && U32(b, 16) == h.next && U32(b, 20) == h.prevFree && U32(b, 24) == h.nextFree && U32(b, 28) == h.magic2
  {
    var b := HeaderBytes(h);
    assert b[0..32] == b;
    HeaderRoundTrip(b, 0, h);
  }

  lemma HeaderFrame(m: seq<byte>, m': seq<byte>, p: nat)
    requires p + HEADER <= |m| == |m'| && forall a: nat :: p <= a < p + HEADER ==> m'[a] == m[a]
    ensures HeaderAt(m', p) == HeaderAt(m, p)
  {}

  // ---------------------------------------------------------------- headers and memory

  /** Asking about an address brings up what memory holds there. */
  predicate Asked(p: nat) { true }

  /** The headers in `hdrs` are those in memory. */
  ghost predicate Backed(hdrs: map<nat, Header>, m: seq<byte>) {
    forall p: nat {:trigger Asked(p)} :: Asked(p) && p in hdrs ==> p + HEADER <= |m| && hdrs[p] == HeaderAt(m, p)
  }

  ghost predicate Inside(keys: set<nat>) { forall p :: p in keys ==> p + HEADER <= WORD }

  /** No two headers overlap, and all are in memory. */
  ghost predicate Spaced(keys: set<nat>) {
    && Inside(keys)
    && (forall p, q :: p in keys && q in keys && p < q ==> p + HEADER <= q)
  }

  lemma ChainIsSpaced(s: Heap)
    requires ChainOk(s)
    ensures Spaced(s.hdrs.Keys)
  {
    forall p | p in s.hdrs.Keys ensures p + HEADER <= WORD { assert BlockOk(s, p); }
    forall p, q | p in s.hdrs.Keys && q in s.hdrs.Keys && p < q ensures p + HEADER <= q { Apart(s, p, q); }
  }

  /** A header cut out of the payload of a block. */
  lemma SplitIsSpaced(s: Heap, p: nat, n: nat)
    requires ChainOk(s) && p in s.hdrs && p + HEADER <= n && n + HEADER <= End(s, p)
    ensures Spaced(s.hdrs.Keys + {n})
  {
    ChainIsSpaced(s);
    assert BlockOk(s, p);
    forall q | q in s.hdrs.Keys ensures (q < n ==> q + HEADER <= n) && (n < q ==> n + HEADER <= q) && q != n {
      assert BlockOk(s, q);
      if p < q { Apart(s, p, q); } else if q < p { Apart(s, q, p); }
    }
  }

  /** Writing one header changes that one. */
  lemma StoreBacks(hdrs: map<nat, Header>, m: seq<byte>, p: nat, h: Header, keys: set<nat>)
    requires Backed(hdrs, m) && |m| == WORD && Spaced(keys) && hdrs.Keys <= keys && p in keys && Words(h)
    ensures Backed(hdrs[p := h], Patch(m, p, HeaderBytes(h)))
  {
    var m' := Patch(m, p, HeaderBytes(h));
    assert m'[p..p + HEADER] == HeaderBytes(h);
    HeaderRoundTrip(m', p, h);
    OthersBacked(hdrs, m, m', p, keys);
  }

  /** Clearing one header loses that one. */
  lemma EraseBacks(hdrs: map<nat, Header>, m: seq<byte>, p: nat, keys: set<nat>)
    requires Backed(hdrs, m) && |m| == WORD && Spaced(keys) && hdrs.Keys <= keys && p in keys
    ensures Backed(hdrs - {p}, Patch(m, p, Cleared(HEADER)))
  {
    OthersBacked(hdrs, m, Patch(m, p, Cleared(HEADER)), p, keys);
  }

  lemma OthersBacked(hdrs: map<nat, Header>, m: seq<byte>, m': seq<byte>, p: nat, keys: set<nat>)
    requires Backed(hdrs, m) && |m| == |m'| == WORD && Spaced(keys) && hdrs.Keys <= keys && p in keys
    requires forall a: nat :: a < WORD && !(p <= a < p + HEADER) ==> m'[a] == m[a]
    ensures forall q: nat {:trigger Asked(q)} :: Asked(q) && q in hdrs && q != p ==>
      q + HEADER <= WORD && hdrs[q] == HeaderAt(m', q)
  {
    forall q: nat {:trigger Asked(q)} | Asked(q) && q in hdrs && q != p
      ensures q + HEADER <= WORD && hdrs[q] == HeaderAt(m', q)
    {
      assert q in keys;
      HeaderFrame(m, m', q);
    }
  }

  /** Writes that are not under a header, such as those of a client inside its payload, leave all
      headers alone. */
  lemma PayloadBacks(hdrs: map<nat, Header>, m: seq<byte>, m': seq<byte>)
    requires Backed(hdrs, m) && |m| == |m'| == WORD
    requires forall a: nat :: a < WORD && UnderHeader(hdrs.Keys, a) ==> m'[a] == m[a]
    ensures Backed(hdrs, m')
  {
    forall q: nat {:trigger Asked(q)} | Asked(q) && q in hdrs ensures q + HEADER <= WORD && hdrs[q] == HeaderAt(m', q) {
      forall a: nat | q <= a < q + HEADER ensures m'[a] == m[a] { assert UnderHeader(hdrs.Keys, a); }
      HeaderFrame(m, m', q);
    }
  }

  // ---------------------------------------------------------------- payloads

  /** Payloads live both before and after keep their bytes. */
  ghost predicate Kept(s: Heap, m: seq<byte>, s': Heap, m': seq<byte>) {
    && |m| == |m'| == WORD
    && forall p, a {:trigger p in Live(s), m'[a]} ::
         (p in Live(s) && p in Live(s') && p + HEADER <= a < p + HEADER + Live(s)[p] && a < WORD) ==> m'[a] == m[a]
  }

  lemma KeptByFrame(s: Heap, s': Heap, m: seq<byte>, m': seq<byte>, out: nat)
    requires ChainOk(s) && ChainOk(s') && |m| == |m'| == WORD && (out == 0 || (out in Live(s') && out !in Live(s)))
    requires forall q :: q in Live(s) && q in Live(s') ==> Live(s')[q] == Live(s)[q]
    requires forall b: nat ::
      (b < WORD && !UnderHeader(s.hdrs.Keys + s'.hdrs.Keys, b)
       && (out == 0 || b < out + HEADER || b >= out + HEADER + Live(s')[out])) ==> m'[b] == m[b]
    ensures Kept(s, m, s', m')
  {
    forall p, a {:trigger p in Live(s), m'[a]} |
        p in Live(s) && p in Live(s') && p + HEADER <= a < p + HEADER + Live(s)[p] && a < WORD
      ensures m'[a] == m[a]
    {
      assert BlockOk(s, p);
      PayloadUntouched(s, s', m, m', out, p, a);
    }
  }

  lemma KeptByZeroing(s: Heap, s': Heap, m: seq<byte>, m1: seq<byte>, cur: nat, want: nat)
    requires ChainOk(s) && ChainOk(s') && |m| == WORD && Handed(s, s', cur, want)
    requires SameBut(m, m1, s.hdrs.Keys + s'.hdrs.Keys)
    ensures cur + HEADER + want <= WORD
    ensures Kept(s, m, s', Patch(m1, cur + HEADER, Cleared(want)))
  {
    LiveIsSound(s', cur, cur);
    KeptByFrame(s, s', m, Patch(m1, cur + HEADER, Cleared(want)), cur);
  }

  // ---------------------------------------------------------------- runs with memory

  datatype World = World(s: Heap, ht: map<nat, nat>, m: seq<byte>)

  ghost predicate Sound(w: World) {
    |w.m| == WORD && Inv(w.s, w.ht) && Backed(w.s.hdrs, w.m)
  }

  /** What a client can do: calloc, free of a live block, and a store to a byte of a live payload. */
  datatype Call = Allocate(n: nat, size: nat) | Release(p: nat) | Poke(p: nat, a: nat, v: byte)

  ghost predicate Zeroed(m: seq<byte>, from: nat, n: nat) {
    from + n <= |m| && forall a: nat :: from <= a < from + n ==> m[a] == 0
  }

  /** Byte `a` belongs to the payload of the live block `p`. */
  ghost predicate Owns(s: Heap, p: nat, a: nat) {
    p in Live(s) && p + HEADER <= a < p + HEADER + Live(s)[p]
  }

  ghost predicate AllocStep(w: World, n: nat, size: nat, w': World)
    requires Inv(w.s, w.ht) && n < WORD && size < WORD
  {
    var r := Calloc(w.s, w.ht, n, size);
    var ok := w'.s == r.0 && w'.ht == r.1 && Kept(w.s, w.m, w'.s, w'.m) && Backed(w'.s.hdrs, w'.m)
      && (r.2 != 0 ==> Zeroed(w'.m, r.2, n * size));
    ok
  }

  ghost predicate FreeStep(w: World, p: nat, w': World)
    requires Inv(w.s, w.ht) && p in Live(w.s)
  {
    var r := FreeBlock(w.s, w.ht, p);
    var ok := w'.s == r.0 && w'.ht == r.1 && Kept(w.s, w.m, w'.s, w'.m) && Backed(w'.s.hdrs, w'.m);
    ok
  }

  ghost predicate PokeStep(w: World, p: nat, a: nat, v: byte, w': World) {
    Owns(w.s, p, a) && a < |w.m| && w' == w.(m := w.m[a := v])
  }

  ghost predicate StepsTo(w: World, c: Call, w': World) {
    Inv(w.s, w.ht) &&
    match c
    case Allocate(n, size) => n < WORD && size < WORD && AllocStep(w, n, size, w')
    case Release(p) => p in Live(w.s) && FreeStep(w, p, w')
    case Poke(p, a, v) => PokeStep(w, p, a, v, w')
  }

  /** A client's own stores reach no header. */
  lemma PokeKeeps(w: World, p: nat, a: nat, v: byte, w': World)
    requires Sound(w) && PokeStep(w, p, a, v, w')
    ensures Sound(w')
  {
    PayloadIsNotHeader(w.s, p, a);
    PayloadBacks(w.s.hdrs, w.m, w'.m);
  }

  ghost predicate StepAt(ws: seq<World>, cs: seq<Call>, k: nat)
    requires k < |cs| && |ws| == |cs| + 1
  {
    StepsTo(ws[k], cs[k], ws[k + 1])
  }

  ghost predicate IsRun(ws: seq<World>, cs: seq<Call>) {
    |ws| == |cs| + 1 && Sound(ws[0]) && forall k :: 0 <= k < |cs| ==> StepAt(ws, cs, k)
  }

  /** In every run, whatever the clients write into their payloads, the invariant holds and memory holds
      the headers. */
  lemma {:induction false} RunIsSound(ws: seq<World>, cs: seq<Call>, n: nat)
    requires IsRun(ws, cs) && n < |ws|
    ensures Sound(ws[n]) && ws[n].s.buf == ws[0].s.buf && ws[n].s.len == ws[0].s.len
    decreases n
  {
    if n > 0 {
      RunIsSound(ws, cs, n - 1);
      assert StepAt(ws, cs, n - 1);
      var c := cs[n - 1];
      if c.Poke? { PokeKeeps(ws[n - 1], c.p, c.a, c.v, ws[n]); }
    }
  }

  /** And once everything is freed, in whatever order, the heap is the initial one. */
  lemma RunRestores(ws: seq<World>, cs: seq<Call>, n: nat)
    requires IsRun(ws, cs) && n < |ws| && ws[0].s.len > HEADER && ws[0].s == Initial(ws[0].s.buf, ws[0].s.len)
    ensures Live(ws[n].s) == map[] <==> ws[n].s == ws[0].s
  {
    RunIsSound(ws, cs, n);
    if Live(ws[n].s) == map[] { AllFreeIsInitial(ws[n].s, ws[n].ht); }
  }

  /** calloc changes no live block. */
  lemma AllocKeepsLive(s: Heap, ht: map<nat, nat>, n: nat, size: nat, p: nat)
    requires Inv(s, ht) && n < WORD && size < WORD && p in Live(s)
    ensures var s' := Calloc(s, ht, n, size).0; p in Live(s') && Live(s')[p] == Live(s)[p]
  {
    if Calloc(s, ht, n, size).2 != 0 {
      CallocHandsOut(s, ht, n, size);
    } else {
      CallocFailsExactly(s, ht, n, size);
    }
  }

  lemma FreeKeepsLive(s: Heap, ht: map<nat, nat>, q: nat, p: nat)
    requires Inv(s, ht) && q in Live(s) && p in Live(s)
    ensures var s' := FreeBlock(s, ht, q).0; p in Live(s') ==> Live(s')[p] == Live(s)[p]
  {
    FreeEndsOne(s, ht, q);
  }

  lemma KeptByte(s: Heap, m: seq<byte>, s': Heap, m': seq<byte>, p: nat, a: nat)
    requires ChainOk(s) && Kept(s, m, s', m') && Owns(s, p, a) && p in Live(s') && Live(s')[p] == Live(s)[p]
    ensures Owns(s', p, a) && a < WORD && m'[a] == m[a]
  {
    LiveIsSound(s, p, p);
  }

  lemma StepKeepsByte(w: World, c: Call, w': World, p: nat, a: nat)
    requires Sound(w) && StepsTo(w, c, w') && Owns(w.s, p, a) && p in Live(w'.s) && !(c.Poke? && c.a == a)
    ensures Owns(w'.s, p, a) && a < |w.m| && a < |w'.m| && w'.m[a] == w.m[a]
  {
    match c {
      case Allocate(n, size) =>
        AllocKeepsLive(w.s, w.ht, n, size, p);
        KeptByte(w.s, w.m, w'.s, w'.m, p, a);
      case Release(q) =>
        FreeKeepsLive(w.s, w.ht, q, p);
        KeptByte(w.s, w.m, w'.s, w'.m, p, a);
      case Poke(_, _, _) => LiveIsSound(w.s, p, p);
    }
  }

  /** Over a whole run a payload keeps a byte from allocation to free, unless its owner writes it. */
  lemma {:induction false} PayloadPersists(ws: seq<World>, cs: seq<Call>, i: nat, j: nat, p: nat, a: nat)
    requires IsRun(ws, cs) && i <= j < |ws| && Owns(ws[i].s, p, a)
    requires forall k :: i <= k <= j ==> p in Live(ws[k].s)
    requires forall k :: i <= k < j ==> !(cs[k].Poke? && cs[k].a == a)
    ensures Owns(ws[j].s, p, a) && a < |ws[i].m| && a < |ws[j].m| && ws[j].m[a] == ws[i].m[a]
    decreases j - i
  {
    RunIsSound(ws, cs, i);
    LiveIsSound(ws[i].s, p, p);
    if i < j {
      assert StepAt(ws, cs, i);
      StepKeepsByte(ws[i], cs[i], ws[i + 1], p, a);
      PayloadPersists(ws, cs, i + 1, j, p, a);
    }
  }
}
