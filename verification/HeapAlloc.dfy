/** The allocator itself: the static `heap` of memory_buffer_alloc.twl.c and its operations.  Headers are
    read from and written to the bytes of the buffer; the map of headers is ghost.  Each operation is
    proved against HeapTheorems. */
module HeapAlloc {
  import opened LittleEndian
  import opened HeapModel
  import opened HeapTheorems
  import opened HeapMemory

  /** verify_header: 0 for a plausible header. */
  function VerifyHeader(h: Header): nat {
    if h.magic1 != MAGIC1 then 1
    else if h.magic2 != MAGIC2 then 1
    else if h.alloc > 1 then 1
    else if h.prev != 0 && h.prev == h.next then 1
    else if h.prevFree != 0 && h.prevFree == h.nextFree then 1
    else 0
  }

  /** Enough order in `next` for a walk over it to end. */
  ghost predicate Walkable(s: Heap) {
    && (s.first != 0 ==> s.first in s.hdrs)
    && forall p <- s.hdrs :: s.hdrs[p].next == 0 || (p < s.hdrs[p].next && s.hdrs[p].next in s.hdrs && p < WORD)
  }

  /** Every header after `p` on the chain is plausible and points back to its predecessor. */
  ghost predicate VerifiedAfter(s: Heap, p: nat)
    requires Walkable(s) && p in s.hdrs
    decreases WORD - p
  {
    var n := s.hdrs[p].next;
    n == 0 || (VerifyHeader(s.hdrs[n]) == 0 && s.hdrs[n].prev == p && VerifiedAfter(s, n))
  }

  ghost predicate Verified(s: Heap) requires Walkable(s) {
    s.first != 0 && VerifyHeader(s.hdrs[s.first]) == 0 && s.hdrs[s.first].prev == 0 && VerifiedAfter(s, s.first)
  }

  lemma InvHeader(s: Heap, ht: map<nat, nat>, p: nat)
    requires Inv(s, ht) && p in s.hdrs
    ensures VerifyHeader(s.hdrs[p]) == 0
  {
    assert BlockOk(s, p) && LinkOk(s, ht, p);
    var h := s.hdrs[p];
    if h.prev != 0 { assert BlockOk(s, h.prev); }
    if h.prevFree != 0 { assert LinkOk(s, ht, h.prevFree); }
  }

  lemma {:induction false} InvVerifiedAfter(s: Heap, ht: map<nat, nat>, p: nat)
    requires Inv(s, ht) && Walkable(s) && p in s.hdrs
    ensures VerifiedAfter(s, p)
    decreases WORD - p
  {
    assert BlockOk(s, p);
    var n := s.hdrs[p].next;
    if n != 0 { assert BlockOk(s, n); InvHeader(s, ht, n); InvVerifiedAfter(s, ht, n); }
  }

  /** A heap that keeps the invariant passes verify_chain. */
  lemma InvVerified(s: Heap, ht: map<nat, nat>)
    requires Inv(s, ht)
    ensures Walkable(s) && Verified(s)
  {
    forall p | p in s.hdrs
      ensures s.hdrs[p].next == 0 || (p < s.hdrs[p].next && s.hdrs[p].next in s.hdrs && p < WORD)
    {
      assert BlockOk(s, p);
    }
    assert BlockOk(s, s.first);
    InvHeader(s, ht, s.first);
    InvVerifiedAfter(s, ht, s.first);
  }

  /** Memory differs from `m` only under the headers `keys`, which do not overlap, and holds `hdrs`. */
  ghost predicate Framed(hdrs: map<nat, Header>, mem: seq<byte>, m: seq<byte>, keys: set<nat>) {
    |mem| == WORD && hdrs.Keys <= keys && Inside(keys) && Backed(hdrs, mem) && Confined(mem, m, keys)
  }

  /** The rest of it, for those who ask. */
  ghost predicate Confined(mem: seq<byte>, m: seq<byte>, keys: set<nat>) {
    forall p: nat {:trigger Asked(p)} :: Asked(p) ==> SameBut(m, mem, keys) && Spaced(keys)
  }

  lemma Frame(hdrs: map<nat, Header>, mem: seq<byte>, keys: set<nat>)
    requires |mem| == WORD && Spaced(keys) && hdrs.Keys <= keys && Backed(hdrs, mem)
    ensures Framed(hdrs, mem, mem, keys)
  {}

  lemma Unframe(hdrs: map<nat, Header>, mem: seq<byte>, m: seq<byte>, keys: set<nat>)
    requires Framed(hdrs, mem, m, keys)
    ensures SameBut(m, mem, keys)
  {
    assert Asked(0);
  }

  lemma StoreFramed(hdrs: map<nat, Header>, mem: seq<byte>, m: seq<byte>, keys: set<nat>, p: nat, h: Header)
    requires Framed(hdrs, mem, m, keys) && p in keys && Words(h)
    ensures Framed(hdrs[p := h], Patch(mem, p, HeaderBytes(h)), m, keys)
  {
    assert Asked(p);
    StoreBacks(hdrs, mem, p, h, keys);
    PatchSame(mem, m, keys, p, HeaderBytes(h));
  }

  lemma EraseFramed(hdrs: map<nat, Header>, mem: seq<byte>, m: seq<byte>, keys: set<nat>, p: nat)
    requires Framed(hdrs, mem, m, keys) && p in keys
    ensures Framed(hdrs - {p}, Patch(mem, p, Cleared(HEADER)), m, keys)
  {
    assert Asked(p);
    EraseBacks(hdrs, mem, p, keys);
    PatchSame(mem, m, keys, p, Cleared(HEADER));
  }

  lemma PatchSame(mem: seq<byte>, m: seq<byte>, keys: set<nat>, p: nat, b: seq<byte>)
    requires SameBut(m, mem, keys) && p in keys && |b| == HEADER && p + HEADER <= |mem|
    ensures SameBut(m, Patch(mem, p, b), keys)
  {
    forall a: nat | a < |m| && !UnderHeader(keys, a) ensures Patch(mem, p, b)[a] == m[a] {
      assert !(p <= a < p + HEADER);
    }
  }

  lemma TightStep(w: World, n: nat, size: nat, w': World)
    requires Inv(w.s, w.ht) && n < WORD && size < WORD && AllocStep(w, n, size, w')
    requires HeapTheorems.Calloc(w.s, w.ht, n, size).2 != 0
    ensures var ptr := HeapTheorems.Calloc(w.s, w.ht, n, size).2;
      ptr >= HEADER && Tight(w.s, w'.s, ptr - HEADER, RoundUp(n * size))
  {
    CallocIsTight(w.s, w.ht, n, size);
  }

  class BufferAlloc {
    var buf: nat
    var len: nat
    var first: nat
    var firstFree: nat
    var verify: nat
    var mem: seq<byte>               // the whole address space
    ghost var hdrs: map<nat, Header> // the headers in it
    ghost var ht: map<nat, nat>

    ghost function S(): Heap reads this { Heap(buf, len, first, firstFree, hdrs) }
    ghost function W(): World reads this { World(S(), ht, mem) }

    ghost predicate Valid() reads this {
      |mem| == WORD && (buf == 0 ==> first == 0) && (buf != 0 ==> Inv(S(), ht) && Backed(hdrs, mem))
    }

    /** Reads the header at `p` from memory. */
    method Load(p: nat) returns (h: Header)
      requires Backed(hdrs, mem) && p in hdrs
      ensures h == hdrs[p] && Words(h)
    {
      assert Asked(p);
      h := HeaderAt(mem, p);
    }

    /** Writes header `h` at `p`; `keys` are the headers the running operation may touch. */
    method Store(p: nat, h: Header, ghost m: seq<byte>, ghost keys: set<nat>)
      requires Framed(hdrs, mem, m, keys) && p in keys && Words(h)
      modifies this`hdrs, this`mem
      ensures hdrs == old(hdrs)[p := h] && Framed(hdrs, mem, m, keys)
    {
      StoreFramed(hdrs, mem, m, keys, p, h);
      hdrs := hdrs[p := h];
      mem := Patch(mem, p, HeaderBytes(h));
    }

    /** memset(p, 0, sizeof(memory_header)) */
    method Erase(p: nat, ghost m: seq<byte>, ghost keys: set<nat>)
      requires Framed(hdrs, mem, m, keys) && p in keys
      modifies this`hdrs, this`mem
      ensures hdrs == old(hdrs) - {p} && Framed(hdrs, mem, m, keys)
    {
      EraseFramed(hdrs, mem, m, keys, p);
      hdrs := hdrs - {p};
      mem := Patch(mem, p, Cleared(HEADER));
    }

    // Single fields, as the code sets them

    method SetNextFree(p: nat, v: nat, ghost m: seq<byte>, ghost keys: set<nat>)
      requires Framed(hdrs, mem, m, keys) && p in hdrs && v < WORD
      modifies this`hdrs, this`mem
      ensures hdrs == old(hdrs)[p := old(hdrs[p]).(nextFree := v)] && Framed(hdrs, mem, m, keys)
    {
      var h := Load(p);
      Store(p, h.(nextFree := v), m, keys);
    }

    method SetPrevFree(p: nat, v: nat, ghost m: seq<byte>, ghost keys: set<nat>)
      requires Framed(hdrs, mem, m, keys) && p in hdrs && v < WORD
      modifies this`hdrs, this`mem
      ensures hdrs == old(hdrs)[p := old(hdrs[p]).(prevFree := v)] && Framed(hdrs, mem, m, keys)
    {
      var h := Load(p);
      Store(p, h.(prevFree := v), m, keys);
    }

    method SetPrev(p: nat, v: nat, ghost m: seq<byte>, ghost keys: set<nat>)
      requires Framed(hdrs, mem, m, keys) && p in hdrs && v < WORD
      modifies this`hdrs, this`mem
      ensures hdrs == old(hdrs)[p := old(hdrs[p]).(prev := v)] && Framed(hdrs, mem, m, keys)
    {
      var h := Load(p);
      Store(p, h.(prev := v), m, keys);
    }

    /** verify_chain */
    method VerifyChain() returns (r: nat)
      requires Walkable(S()) && Backed(hdrs, mem)
      ensures r == 0 <==> Verified(S())
    {
      var prv := first;
      if prv == 0 { return 1; }
      var h := Load(prv);
      if VerifyHeader(h) != 0 { return 1; }
      if h.prev != 0 { return 1; }
      var cur := h.next;
      while cur != 0
        invariant prv in hdrs && cur == hdrs[prv].next
        invariant VerifiedAfter(S(), first) <==> VerifiedAfter(S(), prv)
        decreases WORD - prv
      {
        h := Load(cur);
        if VerifyHeader(h) != 0 { return 1; }
        if h.prev != prv { return 1; }
        prv := cur;
        cur := h.next;
      }
      return 0;
    }

    /** The two relinking branches shared by calloc and free. */
    method UnlinkFree(p: nat, ghost m: seq<byte>, ghost keys: set<nat>)
      requires Framed(hdrs, mem, m, keys) && p in hdrs
      requires hdrs[p].prevFree != 0 ==> hdrs[p].prevFree in hdrs
      requires hdrs[p].nextFree != 0 ==> hdrs[p].nextFree in hdrs
      modifies this`hdrs, this`mem, this`firstFree
      ensures S() == Unlink(old(S()), p) && Framed(hdrs, mem, m, keys)
    {
      var h := Load(p);
      if h.prevFree != 0 {
        SetNextFree(h.prevFree, h.nextFree, m, keys);
      } else {
        firstFree := h.nextFree;
      }
      if h.nextFree != 0 {
        SetPrevFree(h.nextFree, h.prevFree, m, keys);
      }
    }

    /** mbedtls_memory_buffer_alloc_init: align the buffer, clear it and make it one free block. */
    method Init(b: nat, l: nat)
      requires 0 < b && b + l <= WORD && |mem| == WORD
      modifies this
      ensures Valid()
      ensures l < HEADER + ALIGN ==> buf == 0
      ensures l >= HEADER + ALIGN ==>
        && b <= buf < b + ALIGN && buf % ALIGN == 0 && buf + len == b + l && len > HEADER
        && S() == Initial(buf, len) && Zeroed(mem, buf + HEADER, len - HEADER)
    {
      var buf', len' := b, l;
      buf, len, first, firstFree, verify, hdrs := 0, 0, 0, 0, 0, map[];
      if len' < HEADER + ALIGN { return; }
      if buf' % ALIGN != 0 {
        len' := len' - (ALIGN - buf' % ALIGN);
        buf' := buf' + (ALIGN - buf' % ALIGN);
      }
      mem := Patch(mem, buf', Cleared(len'));
      Lay(buf', len');
    }

    /** One free block over cleared memory. */
    method Lay(b: nat, l: nat)
      requires 0 < b && b % ALIGN == 0 && b + l <= WORD && l > HEADER && |mem| == WORD && hdrs == map[]
      requires Zeroed(mem, b, l)
      modifies this
      ensures Valid() && buf == b && len == l && S() == Initial(b, l) && Zeroed(mem, b + HEADER, l - HEADER)
    {
      buf, len, first, firstFree := b, l, b, b;
      ghost var cleared := mem;
      Frame(hdrs, mem, {b});
      Store(b, Header(MAGIC1, l - HEADER, 0, 0, 0, 0, 0, MAGIC2), mem, {b});
      Unframe(hdrs, mem, cleared, {b});
      ht := map[b := 0];
      InitialInv(b, l);
      forall a: nat | b + HEADER <= a < b + l ensures mem[a] == 0 { assert !UnderHeader({b}, a); }
    }

    method TakeWhole(p: nat, ghost m: seq<byte>, ghost keys: set<nat>)
      requires Framed(hdrs, mem, m, keys) && Inv(S(), ht) && Free(S(), p) && LinkOk(S(), ht, p)
      modifies this`hdrs, this`mem, this`firstFree
      ensures S() == Take(old(S()), p) && Framed(hdrs, mem, m, keys)
    {
      ghost var s := S();
      var h := Load(p);
      Store(p, h.(alloc := 1), m, keys);
      assert S() == Put(s, p, s.hdrs[p].(alloc := 1));
      UnlinkFree(p, m, keys);
      assert p in hdrs;
      SetPrevFree(p, 0, m, keys);
      SetNextFree(p, 0, m, keys);
      assert hdrs == Take(s, p).hdrs;
    }

    method SplitOff(p: nat, want: nat, ghost m: seq<byte>, ghost keys: set<nat>)
      requires Framed(hdrs, mem, m, keys) && Inv(S(), ht) && Free(S(), p) && BlockOk(S(), p) && LinkOk(S(), ht, p)
      requires hdrs[p].size >= want + HEADER && p + HEADER + want in keys
      modifies this`hdrs, this`mem, this`firstFree
      ensures S() == Split(old(S()), p, want) && Framed(hdrs, mem, m, keys)
    {
      ghost var s := S();
      var n := p + HEADER + want;
      var c := Load(p);
      Store(n, Header(MAGIC1, c.size - want - HEADER, 0, p, c.next, c.prevFree, c.nextFree, MAGIC2), m, keys);
      if c.next != 0 { SetPrev(c.next, n, m, keys); }
      Relink(n, c, m, keys);
      var d := Load(p);
      Store(p, d.(alloc := 1, size := want, next := n, prevFree := 0, nextFree := 0), m, keys);
    }

    /** The search over the free list for a block of at least `want` bytes. */
    method Search(want: nat) returns (cur: nat)
      requires Inv(S(), ht) && Backed(hdrs, mem)
      ensures cur == Find(S(), ht, firstFree, want)
    {
      cur := firstFree;
      while cur != 0
        invariant cur != 0 ==> Free(S(), cur)
        invariant Find(S(), ht, cur, want) == Find(S(), ht, firstFree, want)
        decreases if cur != 0 && cur in ht then ht[cur] + 1 else 0
      {
        var h := Load(cur);
        if h.size >= want { break; }
        assert LinkOk(S(), ht, cur);
        cur := h.nextFree;
      }
    }

    /** Hand out block `cur`, splitting it if more than a header and the alignment would be left. */
    method Carve(cur: nat, len: nat, ghost want: nat)
      requires |mem| == WORD && Inv(S(), ht) && Backed(hdrs, mem) && want > 0
      requires len == RoundUp(want) && cur == Find(S(), ht, firstFree, len) && cur != 0
      modifies this`hdrs, this`mem, this`firstFree, this`ht
      ensures |mem| == WORD && Backed(hdrs, mem)
      ensures (S(), ht, cur + HEADER) == Provide(old(S()), old(ht), want)
      ensures SameBut(old(mem), mem, old(hdrs).Keys + hdrs.Keys)
    {
      assert BlockOk(S(), cur) && LinkOk(S(), ht, cur);
      var h := Load(cur);
      if h.size - len < HEADER + ALIGN {
        CarveWhole(cur);
      } else {
        CarveSplit(cur, len);
      }
    }

    method CarveWhole(cur: nat)
      requires |mem| == WORD && Inv(S(), ht) && Backed(hdrs, mem) && Free(S(), cur) && LinkOk(S(), ht, cur)
      modifies this`hdrs, this`mem, this`firstFree
      ensures |mem| == WORD && Backed(hdrs, mem) && S() == Take(old(S()), cur)
      ensures SameBut(old(mem), mem, old(hdrs).Keys + hdrs.Keys)
    {
      ghost var s, m, keys := S(), mem, hdrs.Keys;
      ChainIsSpaced(s);
      Frame(hdrs, mem, keys);
      TakeShape(s, cur, cur);
      TakeWhole(cur, m, keys);
      Unframe(hdrs, mem, m, keys);
      assert keys == keys + hdrs.Keys;
    }

    method CarveSplit(cur: nat, len: nat)
      requires |mem| == WORD && Inv(S(), ht) && Backed(hdrs, mem) && Free(S(), cur) && BlockOk(S(), cur)
      requires LinkOk(S(), ht, cur)
      requires hdrs[cur].size >= len + HEADER
      modifies this`hdrs, this`mem, this`firstFree, this`ht
      ensures |mem| == WORD && Backed(hdrs, mem) && S() == Split(old(S()), cur, len)
      ensures ht == old(ht)[cur + HEADER + len := old(ht)[cur]]
      ensures SameBut(old(mem), mem, old(hdrs).Keys + hdrs.Keys)
    {
      ghost var s, m, keys := S(), mem, hdrs.Keys + {cur + HEADER + len};
      SplitIsSpaced(s, cur, cur + HEADER + len);
      Frame(hdrs, mem, keys);
      SplitShape(s, ht, cur, len, cur);
      SplitOff(cur, len, m, keys);
      Unframe(hdrs, mem, m, keys);
      ht := ht[cur + HEADER + len := ht[cur]];
      assert keys == s.hdrs.Keys + hdrs.Keys;
    }

    /** Verify if asked to, then clear the payload of the block just handed out. */
    method Deliver(cur: nat, want: nat, ghost s: Heap, ghost m: seq<byte>) returns (ret: nat, exited: bool)
      requires |mem| == WORD && |m| == WORD && Inv(S(), ht) && Backed(hdrs, mem) && ChainOk(s)
      requires Handed(s, S(), cur, want)
      requires SameBut(m, mem, s.hdrs.Keys + hdrs.Keys)
      modifies this`mem
      ensures |mem| == WORD && !exited && ret == cur + HEADER && Backed(hdrs, mem)
      ensures Kept(s, m, S(), mem) && Zeroed(mem, ret, want)
    {
      ret, exited := cur + HEADER, false;
      KeptByZeroing(s, S(), m, mem, cur, want);
      if verify % 2 == 1 { // MBEDTLS_MEMORY_VERIFY_ALLOC
        InvVerified(S(), ht);
        var r := VerifyChain();
        exited := r != 0;
        if exited { return; }
      }
      ClearBacks(S(), mem, cur, want);
      mem := Patch(mem, ret, Cleared(want));
    }

    /** calloc once the number of bytes is settled.  `exited` is set where the C code would call
        mbedtls_exit. */
    method Allocate(want: nat) returns (ret: nat, exited: bool)
      requires Valid() && buf != 0 && 0 < want <= WORD - ALIGN
      modifies this`hdrs, this`mem, this`firstFree, this`ht
      ensures Valid() && !exited
      ensures (S(), ht, ret) == Provide(old(S()), old(ht), want)
      ensures Kept(old(S()), old(mem), S(), mem)
      ensures ret != 0 ==> Zeroed(mem, ret, want)
    {
      ret, exited := 0, false;
      var len := want;
      if len % ALIGN != 0 {
        len := len - len % ALIGN;
        len := len + ALIGN;
      }
      var cur := Search(len);
      if cur == 0 { return; }
      var h := Load(cur);
      exited := h.alloc != 0;
      if exited { return; }
      ret, exited := HandOut(cur, len, want);
    }

    method HandOut(cur: nat, len: nat, want: nat) returns (ret: nat, exited: bool)
      requires |mem| == WORD && Inv(S(), ht) && Backed(hdrs, mem) && want > 0
      requires len == RoundUp(want) && cur == Find(S(), ht, firstFree, len) && cur != 0
      modifies this`hdrs, this`mem, this`firstFree, this`ht
      ensures |mem| == WORD && !exited && Backed(hdrs, mem)
      ensures (S(), ht, ret) == Provide(old(S()), old(ht), want)
      ensures Kept(old(S()), old(mem), S(), mem) && Zeroed(mem, ret, want)
    {
      ghost var s, m := S(), mem;
      ProvideHandsOut(s, ht, want);
      Carve(cur, len, want);
      ret, exited := Deliver(cur, want, s, m);
    }

    /** buffer_alloc_calloc */
    method Calloc(n: nat, size: nat) returns (ret: nat, exited: bool)
      requires Valid() && n < WORD && size < WORD
      modifies this`hdrs, this`mem, this`firstFree, this`ht
      ensures Valid() && !exited
      ensures buf == 0 ==> ret == 0
      ensures buf != 0 ==> ret == HeapTheorems.Calloc(old(S()), old(ht), n, size).2
      ensures ret != 0 ==> ret >= HEADER && Tight(old(S()), S(), ret - HEADER, RoundUp(n * size))
      ensures buf != 0 ==> AllocStep(old(W()), n, size, W())
    {
      ghost var w := W();
      ret, exited := CallocRequest(n, size);
      if ret != 0 { TightStep(w, n, size, W()); }
    }

    method CallocRequest(n: nat, size: nat) returns (ret: nat, exited: bool)
      requires Valid() && n < WORD && size < WORD
      modifies this`hdrs, this`mem, this`firstFree, this`ht
      ensures Valid() && !exited
      ensures buf == 0 ==> ret == 0
      ensures buf != 0 ==> ret == HeapTheorems.Calloc(old(S()), old(ht), n, size).2
      ensures buf != 0 ==> AllocStep(old(W()), n, size, W())
    {
      if buf == 0 || first == 0 { return 0, false; }
      RequestIsExact(n, size);
      var original := (n * size) % WORD;
      if n == 0 || size == 0 || original / n != size { return 0, false; }
      else if original > WORD - ALIGN { return 0, false; }
      ret, exited := Allocate(original);
    }

    /** Regroup `p` with the free block before it. */
    method GroupPrev(p: nat, ghost m: seq<byte>, ghost keys: set<nat>)
      requires Framed(hdrs, mem, m, keys)
      requires ChainOk(S()) && p in hdrs && BlockOk(S(), p) && hdrs[p].prev in hdrs
      modifies this`hdrs, this`mem
      ensures S() == MergePrev(old(S()), p) && Framed(hdrs, mem, m, keys)
    {
      ghost var s := S();
      MergePrevShape(s, p, s.hdrs[p].next);
      var h := Load(p);
      var b := h.prev;
      assert BlockOk(s, b);
      var g := Load(b);
      Store(b, g.(size := g.size + HEADER + h.size, next := h.next), m, keys);
      if h.next != 0 { SetPrev(h.next, b, m, keys); }
      Erase(p, m, keys);
      assert hdrs == MergePrev(s, p).hdrs;
    }

    /** Regroup `x`, not on the list, with the free block after it. */
    method Swallow(x: nat, ghost m: seq<byte>, ghost keys: set<nat>)
      requires Framed(hdrs, mem, m, keys) && CanAbsorb(S(), ht, x)
      modifies this`hdrs, this`mem, this`firstFree
      ensures S() == Absorb(old(S()), x) && Framed(hdrs, mem, m, keys)
    {
      AbsorbShape(S(), ht, x, x);
      Merge(x, m, keys);
    }

    method Merge(x: nat, ghost m: seq<byte>, ghost keys: set<nat>)
      requires Framed(hdrs, mem, m, keys) && x in hdrs && hdrs[x].next in hdrs
      requires var c := hdrs[hdrs[x].next];
        && (c.prevFree != 0 ==> c.prevFree in hdrs) && (c.nextFree != 0 ==> c.nextFree in hdrs)
        && (c.next != 0 ==> c.next in hdrs) && hdrs[x].size + HEADER + c.size < WORD
      modifies this`hdrs, this`mem, this`firstFree
      ensures S() == Absorb(old(S()), x) && Framed(hdrs, mem, m, keys)
    {
      var h := Load(x);
      var y := h.next;
      var c := Load(y);
      var size := h.size + HEADER + c.size;
      Store(x, h.(size := size, next := c.next, prevFree := c.prevFree, nextFree := c.nextFree), m, keys);
      Relink(x, c, m, keys);
      if c.next != 0 { SetPrev(c.next, x, m, keys); }
      Erase(y, m, keys);
    }

    /** The list neighbours that `c` had now lead to `x`. */
    method Relink(x: nat, c: Header, ghost m: seq<byte>, ghost keys: set<nat>)
      requires Framed(hdrs, mem, m, keys) && x < WORD
      requires (c.prevFree != 0 ==> c.prevFree in hdrs) && (c.nextFree != 0 ==> c.nextFree in hdrs)
      modifies this`hdrs, this`mem, this`firstFree
      ensures Framed(hdrs, mem, m, keys)
      ensures var s1 := old(S());
        var s2 := if c.prevFree == 0 then s1.(firstFree := x)
                  else Put(s1, c.prevFree, s1.hdrs[c.prevFree].(nextFree := x));
        S() == if c.nextFree != 0 then Put(s2, c.nextFree, s2.hdrs[c.nextFree].(prevFree := x)) else s2
    {
      if c.prevFree != 0 {
        SetNextFree(c.prevFree, x, m, keys);
      } else {
        firstFree := x;
      }
      if c.nextFree != 0 { SetPrevFree(c.nextFree, x, m, keys); }
    }

    /** Put `p` at the head of the free list. */
    method Push(p: nat, ghost m: seq<byte>, ghost keys: set<nat>)
      requires Framed(hdrs, mem, m, keys) && p in hdrs && (firstFree != 0 ==> firstFree in hdrs)
      modifies this`hdrs, this`mem, this`firstFree
      ensures S() == Prepend(old(S()), p) && Framed(hdrs, mem, m, keys)
    {
      SetNextFree(p, firstFree, m, keys);
      if firstFree != 0 { SetPrevFree(firstFree, p, m, keys); }
      firstFree := p;
    }

    /** Regroup `b`, which is on the list, with the free block after it. */
    method SwallowLinked(b: nat, ghost m: seq<byte>, ghost keys: set<nat>)
      requires Framed(hdrs, mem, m, keys)
      requires ChainOk(S()) && ListOk(S(), ht) && Free(S(), b) && GapsExcept(S(), b) && Free(S(), hdrs[b].next)
      modifies this`hdrs, this`mem, this`firstFree, this`ht
      ensures LinkOk(old(S()), old(ht), b) && CanAbsorb(Unlink(old(S()), b), old(ht), b)
      ensures S() == Absorb(Unlink(old(S()), b), b) && Framed(hdrs, mem, m, keys)
      ensures old(hdrs[b].next) in old(ht) && ht == old(ht)[b := old(ht[hdrs[b].next])]
    {
      var h := Load(b);
      UnlinkBeforeAbsorb(S(), ht, b);
      UnlinkShape(S(), ht, b, h.next);
      if h.prevFree != 0 || h.nextFree != 0 { UnlinkFree(b, m, keys); }
      Swallow(b, m, keys);
      ht := ht[b := ht[h.next]];
    }

    /** Is there a block at `p`, and is it free? */
    method IsFree(p: nat) returns (free: bool)
      requires Backed(hdrs, mem) && (p != 0 ==> p in hdrs)
      ensures free <==> p != 0 && hdrs[p].alloc == 0
    {
      if p == 0 { return false; }
      var h := Load(p);
      free := h.alloc == 0;
    }

    /** The two regroupings of free, or the prepend when neither applies. */
    method Regroup(p: nat, ghost s: Heap, ghost m: seq<byte>, ghost keys: set<nat>)
      requires Framed(hdrs, mem, m, keys)
      requires Inv(s, ht) && p in s.hdrs && s.hdrs[p].alloc != 0 && S() == HeapModel.Release(s, p)
      modifies this`hdrs, this`mem, this`firstFree, this`ht
      ensures (S(), ht) == FreeBlock(s, old(ht), p) && Framed(hdrs, mem, m, keys)
    {
      assert BlockOk(s, p) && LinkOk(s, ht, p);
      ReleaseDetaches(s, ht, p);
      assert BlockOk(S(), p);
      var h := Load(p);
      var before := IsFree(h.prev);
      if before {
        MergePrevKeeps(S(), ht, p);
        MergePrevShape(S(), p, p);
        GroupPrev(p, m, keys);
        assert BlockOk(S(), h.prev);
        var g := Load(h.prev);
        var after := IsFree(g.next);
        if after { SwallowLinked(h.prev, m, keys); }
      } else {
        RegroupAfter(p, m, keys);
      }
    }

    /** The block before `p` is in use. */
    method RegroupAfter(p: nat, ghost m: seq<byte>, ghost keys: set<nat>)
      requires Framed(hdrs, mem, m, keys)
      requires ChainOk(S()) && Detached(S(), ht, p) && GapsAround(S(), p) && BlockOk(S(), p) && hdrs[p].prevFree == 0
      requires hdrs[p].prev != 0 ==> hdrs[hdrs[p].prev].alloc != 0
      modifies this`hdrs, this`mem, this`firstFree, this`ht
      ensures Framed(hdrs, mem, m, keys)
      ensures var s0, y := old(S()), old(hdrs[p].next);
        if y != 0 && s0.hdrs[y].alloc == 0 then
          && CanAbsorb(s0, old(ht), p) && y in old(ht)
          && S() == Absorb(s0, p) && ht == old(ht)[p := old(ht)[y]]
        else S() == Prepend(s0, p) && ht == old(ht)[p := HeadHeight(s0, old(ht))]
    {
      var h := Load(p);
      var after := IsFree(h.next);
      if after {
        AbsorbAlone(S(), ht, p);
        Swallow(p, m, keys);
        ht := ht[p := ht[h.next]];
      } else {
        ghost var top := HeadHeight(S(), ht);
        Push(p, m, keys);
        ht := ht[p := top];
      }
    }

    /** The bytes in front of a pointer that is not behind a header look like the header of an allocated
        block. */
    ghost predicate Forged(ptr: nat) reads this {
      && HEADER <= ptr <= |mem| && ptr - HEADER !in hdrs
      && VerifyHeader(HeaderAt(mem, ptr - HEADER)) == 0 && HeaderAt(mem, ptr - HEADER).alloc == 1
    }

    /** buffer_alloc_free.  It exits exactly on a pointer that is outside the buffer, not behind a header,
        or behind the header of a block that is not allocated; otherwise it ends that one allocation. */
    method FreePointer(ptr: nat) returns (exited: bool)
      requires Valid() && (buf != 0 && buf <= ptr < buf + len ==> ptr >= HEADER && !Forged(ptr))
      modifies this`hdrs, this`mem, this`firstFree, this`ht
      ensures Valid()
      ensures exited <==> buf != 0 && ptr != 0 && (ptr < buf || ptr >= buf + len || ptr - HEADER !in Live(old(S())))
      ensures exited || buf == 0 || ptr == 0 ==> W() == old(W())
      ensures !exited && buf != 0 && ptr != 0 ==> FreeStep(old(W()), ptr - HEADER, W())
    {
      exited := false;
      if ptr == 0 || buf == 0 || first == 0 { return; }
      if ptr < buf || ptr >= buf + len { exited := true; return; }
      var p := ptr - HEADER;
      var h := HeaderAt(mem, p);
      assert Asked(p);
      if p in hdrs { InvHeader(S(), ht, p); assert BlockOk(S(), p); }
      if VerifyHeader(h) != 0 { exited := true; return; }
      if h.alloc != 1 { exited := true; return; }
      EndBlock(p);
      if (verify / 2) % 2 == 1 { // MBEDTLS_MEMORY_VERIFY_FREE
        InvVerified(S(), ht);
        var r := VerifyChain();
        if r != 0 { exited := true; return; }
      }
    }

    /** What free does to an allocated block. */
    method EndBlock(p: nat)
      requires Valid() && buf != 0 && p in Live(S())
      modifies this`hdrs, this`mem, this`firstFree, this`ht
      ensures Valid() && FreeStep(old(W()), p, W())
    {
      ghost var s, m, keys := S(), mem, hdrs.Keys;
      ChainIsSpaced(s);
      Frame(hdrs, mem, keys);
      FreeEndsOne(s, ht, p);
      var h := Load(p);
      Store(p, h.(alloc := 0), m, keys);
      Regroup(p, s, m, keys);
      Unframe(hdrs, mem, m, keys);
      assert keys == keys + hdrs.Keys;
      KeptByFrame(s, S(), m, mem, 0);
    }

    /** A client writes a byte of its payload. */
    method Write(p: nat, a: nat, v: byte)
      requires Valid() && buf != 0 && Owns(S(), p, a)
      modifies this`mem
      ensures Valid() && PokeStep(old(W()), p, a, v, W())
    {
      LiveIsSound(S(), p, p);
      PokeKeeps(W(), p, a, v, W().(m := mem[a := v]));
      mem := mem[a := v];
    }

    /** check_all_free.  It looks at the head of the free list only; it tells an empty heap from others
        exactly when the list is not headed by a first block with another block behind it. */
    method CheckAllFree() returns (r: int)
      requires Valid() && buf != 0
      ensures r == 0 <==> Free(S(), buf) && hdrs[buf].prevFree == 0
      ensures (r == 0 <==> Live(S()) == map[]) <==> !Misleading(S())
    {
      assert LinkOk(S(), ht, first);
      if first != firstFree || first != buf { r := -1; } else { r := 0; }
      if Live(S()) == map[] { AllFreeIsInitial(S(), ht); }
      if Free(S(), buf) { WhenMisled(S(), ht); }
    }
  }

  /** The memset of a payload. */
  lemma ClearBacks(s: Heap, m: seq<byte>, p: nat, want: nat)
    requires ChainOk(s) && Backed(s.hdrs, m) && |m| == WORD && p in s.hdrs && want <= s.hdrs[p].size
    ensures p + HEADER + want <= WORD && Backed(s.hdrs, Patch(m, p + HEADER, Cleared(want)))
  {
    assert BlockOk(s, p);
    forall a: nat | a < WORD && UnderHeader(s.hdrs.Keys, a) ensures !(p + HEADER <= a < p + HEADER + want) {
      if p + HEADER <= a < p + HEADER + want { PayloadIsNotHeader(s, p, a); }
    }
    PayloadBacks(s.hdrs, m, Patch(m, p + HEADER, Cleared(want)));
  }

  /** The first block is free and heads the list, but is not the whole buffer. */
  ghost predicate Misleading(s: Heap) {
    Free(s, s.buf) && s.hdrs[s.buf].prevFree == 0 && s.hdrs[s.buf].next != 0
  }

  lemma WhenMisled(s: Heap, ht: map<nat, nat>)
    requires Inv(s, ht) && Free(s, s.buf)
    ensures Live(s) == map[] <==> s.hdrs[s.buf].next == 0
  {
    assert BlockOk(s, s.buf) && GapOk(s, s.buf);
    var n := s.hdrs[s.buf].next;
    if n == 0 {
      forall q | q in s.hdrs ensures q == s.buf {
        assert BlockOk(s, q);
        if q != s.buf { Apart(s, s.buf, q); }
      }
    } else {
      assert n in Live(s);
    }
  }

  /** Two allocations and a free of the first lead to a heap with a live block that check_all_free takes
      for empty. */
  lemma CheckAllFreeIsMisled()
    ensures var start := Run(Initial(4, 72), map[4 := 0]);
      var ops := [Alloc(1, 4), Alloc(1, 4), Dealloc(4)];
      && Inv(start.s, start.ht) && AllowedRun(start, ops)
      && Misleading(Final(start, ops).s) && Live(Final(start, ops).s) != map[]
  {
    InitialInv(4, 72);
    var start := Run(Initial(4, 72), map[4 := 0]);
    var cut, tail := Header(MAGIC1, 4, 1, 0, 40, 0, 0, MAGIC2), Header(MAGIC1, 4, 0, 4, 0, 0, 0, MAGIC2);
    var r1 := After(start, Alloc(1, 4));
    assert r1.s == Heap(4, 72, 4, 40, map[4 := cut, 40 := tail]);
    var r2 := After(r1, Alloc(1, 4));
    assert r2.s == Heap(4, 72, 4, 0, map[4 := cut, 40 := tail.(alloc := 1)]);
    var r3 := After(r2, Dealloc(4));
    assert r3.s == Heap(4, 72, 4, 4, map[4 := cut.(alloc := 0), 40 := tail.(alloc := 1)]);
    var ops := [Alloc(1, 4), Alloc(1, 4), Dealloc(4)];
    assert ops[1..] == [Alloc(1, 4), Dealloc(4)] && ops[1..][1..] == [Dealloc(4)] && ops[1..][1..][1..] == [];
    assert 40 in Live(r3.s);
  }
}
