/** The buffer allocator of memory_buffer_alloc.twl.c, as values.
    A heap is one buffer whose blocks are each preceded by a header; `hdrs` is the view of those
    headers by address.  Address 0 is the null pointer. */
module HeapModel {
  import opened LittleEndian

  const HEADER := 32          // sizeof(memory_header): eight 32-bit words
  const ALIGN := 4            // MBEDTLS_MEMORY_ALIGN_MULTIPLE
  const MAGIC1 := 0xFF00AA55
  const MAGIC2 := 0xEE119966

  datatype Header = Header(magic1: nat, size: nat, alloc: nat, prev: nat, next: nat,
                           prevFree: nat, nextFree: nat, magic2: nat)

  datatype Heap = Heap(buf: nat, len: nat, first: nat, firstFree: nat, hdrs: map<nat, Header>)

  /** Store header `h` at address `p`. */
  function Put(s: Heap, p: nat, h: Header): Heap { s.(hdrs := s.hdrs[p := h]) }

  /** memset(p, 0, sizeof(memory_header)): the header is gone. */
  function Wipe(s: Heap, p: nat): Heap { s.(hdrs := s.hdrs - {p}) }

  // ---------------------------------------------------------------- invariant

  /** What one block promises about itself and its two neighbours in address order. */
  ghost predicate BlockOk(s: Heap, p: nat)
    requires p in s.hdrs
  {
    var h := s.hdrs[p];
    && s.buf <= p && p % ALIGN == 0 && h.size >= 1 && p + HEADER + h.size <= s.buf + s.len
    && h.magic1 == MAGIC1 && h.magic2 == MAGIC2 && h.alloc <= 1
    && h.next == (if p + HEADER + h.size == s.buf + s.len then 0 else p + HEADER + h.size)
    && (h.next != 0 ==> h.next in s.hdrs && s.hdrs[h.next].prev == p)
    && (h.prev == 0 <==> p == s.buf)
    && (h.prev != 0 ==> h.prev in s.hdrs && s.hdrs[h.prev].next == p)
  }

  ghost predicate ChainOk(s: Heap) {
    && 0 < s.buf && s.buf + s.len <= WORD
    && s.first == s.buf && s.buf in s.hdrs
    && forall p {:trigger BlockOk(s, p)} :: p in s.hdrs ==> BlockOk(s, p)
  }

  /** Is `p` a free block?  (False of anything that is not a block.) */
  predicate Free(s: Heap, p: nat) { p in s.hdrs && s.hdrs[p].alloc == 0 }

  /** What one block promises about the free list.  `ht` is a measure that falls along nextFree, so
      that mutually consistent links cannot close a cycle. */
  ghost predicate LinkOk(s: Heap, ht: map<nat, nat>, p: nat)
    requires p in s.hdrs
  {
    var h := s.hdrs[p];
    if h.alloc != 0 then
      h.prevFree == 0 && h.nextFree == 0
    else
      && p in ht
      && (h.prevFree == 0 <==> p == s.firstFree)
      && (h.prevFree != 0 ==> Free(s, h.prevFree) && s.hdrs[h.prevFree].nextFree == p)
      && (h.nextFree != 0 ==> Free(s, h.nextFree) && s.hdrs[h.nextFree].prevFree == p)
      && (h.nextFree != 0 ==> h.nextFree in ht && ht[h.nextFree] < ht[p])
  }

  ghost predicate ListOk(s: Heap, ht: map<nat, nat>) {
    && (s.firstFree != 0 ==> Free(s, s.firstFree))
    && forall p {:trigger LinkOk(s, ht, p)} :: p in s.hdrs ==> LinkOk(s, ht, p)
  }

  /** The block after a free block is allocated. */
  ghost predicate GapOk(s: Heap, p: nat) requires p in s.hdrs {
    s.hdrs[p].alloc == 0 && s.hdrs[p].next != 0 ==> !Free(s, s.hdrs[p].next)
  }

  ghost predicate Coalesced(s: Heap) {
    forall p {:trigger GapOk(s, p)} :: p in s.hdrs ==> GapOk(s, p)
  }

  ghost predicate Inv(s: Heap, ht: map<nat, nat>) {
    ChainOk(s) && ListOk(s, ht) && Coalesced(s)
  }

  // ---------------------------------------------------------------- consequences for the chain

  /** Blocks never overlap. */
  lemma {:induction false} Apart(s: Heap, p: nat, q: nat)
    requires ChainOk(s) && p in s.hdrs && q in s.hdrs && p < q
    ensures p + HEADER + s.hdrs[p].size <= q
    decreases q
  {
    var r := s.hdrs[q].prev;
    assert BlockOk(s, q) && BlockOk(s, p);
    assert r in s.hdrs;
    assert BlockOk(s, r);
    if r > p { Apart(s, p, r); }
    else if r < p { Apart(s, r, p); }
  }
  // ---------------------------------------------------------------- calloc

  /** Take block `p` out of the free list by relinking its list neighbours. */
  function Unlink(s: Heap, p: nat): (r: Heap)
    requires p in s.hdrs
    requires s.hdrs[p].prevFree != 0 ==> s.hdrs[p].prevFree in s.hdrs
    requires s.hdrs[p].nextFree != 0 ==> s.hdrs[p].nextFree in s.hdrs
  {
    var pf, nf := s.hdrs[p].prevFree, s.hdrs[p].nextFree;
    var s1 := if pf != 0 then Put(s, pf, s.hdrs[pf].(nextFree := nf)) else s.(firstFree := nf);
    if nf != 0 then Put(s1, nf, s1.hdrs[nf].(prevFree := pf)) else s1
  }

  /** The whole block is handed out. */
  function Take(s: Heap, p: nat): Heap
    requires p in s.hdrs
    requires s.hdrs[p].prevFree != 0 ==> s.hdrs[p].prevFree in s.hdrs
    requires s.hdrs[p].nextFree != 0 ==> s.hdrs[p].nextFree in s.hdrs
  {
    var s1 := Put(s, p, s.hdrs[p].(alloc := 1));
    var s2 := Unlink(s1, p);
    Put(s2, p, s2.hdrs[p].(prevFree := 0, nextFree := 0))
  }

  lemma TakeShape(s: Heap, p: nat, q: nat)
    requires p in s.hdrs
    requires s.hdrs[p].prevFree != 0 ==> s.hdrs[p].prevFree in s.hdrs
    requires s.hdrs[p].nextFree != 0 ==> s.hdrs[p].nextFree in s.hdrs
    ensures Take(s, p).hdrs.Keys == s.hdrs.Keys
    ensures Take(s, p).firstFree == if s.hdrs[p].prevFree == 0 then s.hdrs[p].nextFree else s.firstFree
    ensures q in s.hdrs ==>
      Take(s, p).hdrs[q] == s.hdrs[q].(
        alloc := if q == p then 1 else s.hdrs[q].alloc,
        prevFree := if q == p then 0
                    else if q == s.hdrs[p].nextFree && q != 0 then s.hdrs[p].prevFree
                    else s.hdrs[q].prevFree,
        nextFree := if q == p then 0
                    else if q == s.hdrs[p].prevFree && q != 0 then s.hdrs[p].nextFree
                    else s.hdrs[q].nextFree)
  {}

  lemma TakeBlock(s: Heap, ht: map<nat, nat>, p: nat, q: nat)
    requires Inv(s, ht) && Free(s, p) && LinkOk(s, ht, p) && q in s.hdrs
    ensures q in Take(s, p).hdrs && BlockOk(Take(s, p), q) && GapOk(Take(s, p), q)
  {
    assert BlockOk(s, q) && GapOk(s, q);
    TakeShape(s, p, q);
    TakeShape(s, p, s.hdrs[q].next);
    TakeShape(s, p, s.hdrs[q].prev);
  }
  lemma TakeLink(s: Heap, ht: map<nat, nat>, p: nat, q: nat)
    requires Inv(s, ht) && Free(s, p) && LinkOk(s, ht, p) && q in s.hdrs
    ensures q in Take(s, p).hdrs && LinkOk(Take(s, p), ht, q)
  {
    var pf, nf := s.hdrs[p].prevFree, s.hdrs[p].nextFree;
    assert BlockOk(s, p) && BlockOk(s, q) && LinkOk(s, ht, q);
    assert pf != 0 ==> LinkOk(s, ht, pf);
    assert nf != 0 ==> LinkOk(s, ht, nf);
    TakeShape(s, p, q);
    TakeShape(s, p, s.hdrs[q].nextFree);
    TakeShape(s, p, s.hdrs[q].prevFree);
    TakeShape(s, p, s.hdrs[p].nextFree);
    TakeShape(s, p, s.hdrs[p].prevFree);
  }
  lemma TakeKeepsInv(s: Heap, ht: map<nat, nat>, p: nat)
    requires Inv(s, ht) && Free(s, p) && LinkOk(s, ht, p)
    ensures Inv(Take(s, p), ht)
  {
    var r := Take(s, p);
    TakeShape(s, p, s.buf);
    TakeShape(s, p, s.hdrs[p].nextFree);
    TakeShape(s, p, s.firstFree);
    var nf := s.hdrs[p].nextFree;
    if nf != 0 { assert LinkOk(s, ht, nf); }
    forall q {:trigger BlockOk(r, q)}{:trigger GapOk(r, q)}{:trigger LinkOk(r, ht, q)} | q in r.hdrs
      ensures BlockOk(r, q) && GapOk(r, q) && LinkOk(r, ht, q)
    {
      TakeShape(s, p, q);
      TakeBlock(s, ht, p, q);
      TakeLink(s, ht, p, q);
    }
  }

  /** The block is cut: `len` bytes stay in `p`, the rest becomes a new free block in p's list place. */
  function Split(s: Heap, p: nat, len: nat): Heap
    requires p in s.hdrs && s.hdrs[p].size >= len + HEADER
    requires s.hdrs[p].prevFree != 0 ==> s.hdrs[p].prevFree in s.hdrs
    requires s.hdrs[p].nextFree != 0 ==> s.hdrs[p].nextFree in s.hdrs
    requires s.hdrs[p].next != 0 ==> s.hdrs[p].next in s.hdrs
  {
    var c := s.hdrs[p];
    var n := p + HEADER + len;
    var s1 := Put(s, n, Header(MAGIC1, c.size - len - HEADER, 0, p, c.next, c.prevFree, c.nextFree, MAGIC2));
    var s2 := if c.next != 0 then Put(s1, c.next, s1.hdrs[c.next].(prev := n)) else s1;
    var s3 := if c.prevFree != 0 then Put(s2, c.prevFree, s2.hdrs[c.prevFree].(nextFree := n)) else s2.(firstFree := n);
    var s4 := if c.nextFree != 0 then Put(s3, c.nextFree, s3.hdrs[c.nextFree].(prevFree := n)) else s3;
    Put(s4, p, s4.hdrs[p].(alloc := 1, size := len, next := n, prevFree := 0, nextFree := 0))
  }

  /** What a split needs of the block: its neighbours exist and are other blocks, and the remainder starts
      where no block does. */
  ghost predicate Splits(s: Heap, p: nat, len: nat) {
    && p in s.hdrs && s.hdrs[p].size >= len + HEADER && p + HEADER + len !in s.hdrs
    && var c := s.hdrs[p];
       && c.next != p && c.prevFree != p && c.nextFree != p
       && (c.prevFree != 0 ==> c.prevFree in s.hdrs)
       && (c.nextFree != 0 ==> c.nextFree in s.hdrs)
       && (c.next != 0 ==> c.next in s.hdrs)
  }

  lemma SplitPossible(s: Heap, ht: map<nat, nat>, p: nat, len: nat)
    requires Inv(s, ht) && Free(s, p) && BlockOk(s, p) && LinkOk(s, ht, p) && s.hdrs[p].size >= len + HEADER
    ensures Splits(s, p, len)
  {
    var n := p + HEADER + len;
    if n in s.hdrs { Apart(s, p, n); }
  }

  lemma SplitOwn(s: Heap, p: nat, len: nat)
    requires Splits(s, p, len)
    ensures var c, n, r := s.hdrs[p], p + HEADER + len, Split(s, p, len);
      && r.hdrs.Keys == s.hdrs.Keys + {n}
      && r.firstFree == (if c.prevFree == 0 then n else s.firstFree)
      && r.hdrs[n] == Header(MAGIC1, c.size - len - HEADER, 0, p, c.next, c.prevFree, c.nextFree, MAGIC2)
      && r.hdrs[p] == c.(alloc := 1, size := len, next := n, prevFree := 0, nextFree := 0)
  {}

  lemma SplitOther(s: Heap, p: nat, len: nat, q: nat)
    requires Splits(s, p, len) && q in s.hdrs && q != p && q != 0
    ensures var c, n, r := s.hdrs[p], p + HEADER + len, Split(s, p, len);
      && q in r.hdrs
      && r.hdrs[q] == s.hdrs[q].(
           prev := if q == c.next then n else s.hdrs[q].prev,
           prevFree := if q == c.nextFree then n else s.hdrs[q].prevFree,
           nextFree := if q == c.prevFree then n else s.hdrs[q].nextFree)
  {}

  lemma SplitShape(s: Heap, ht: map<nat, nat>, p: nat, len: nat, q: nat)
    requires Inv(s, ht) && Free(s, p) && BlockOk(s, p) && LinkOk(s, ht, p)
    requires s.hdrs[p].size >= len + HEADER
    ensures var c, n, r := s.hdrs[p], p + HEADER + len, Split(s, p, len);
      && n !in s.hdrs
      && r.hdrs.Keys == s.hdrs.Keys + {n}
      && r.firstFree == (if c.prevFree == 0 then n else s.firstFree)
      && r.hdrs[n] == Header(MAGIC1, c.size - len - HEADER, 0, p, c.next, c.prevFree, c.nextFree, MAGIC2)
      && r.hdrs[p] == c.(alloc := 1, size := len, next := n, prevFree := 0, nextFree := 0)
      && (q in s.hdrs && q != p ==>
            r.hdrs[q] == s.hdrs[q].(
              prev := if q == c.next then n else s.hdrs[q].prev,
              prevFree := if q == c.nextFree then n else s.hdrs[q].prevFree,
              nextFree := if q == c.prevFree then n else s.hdrs[q].nextFree))
  {
    SplitPossible(s, ht, p, len);
    SplitOwn(s, p, len);
    if q in s.hdrs && q != p {
      assert BlockOk(s, q);
      SplitOther(s, p, len, q);
    }
  }

  lemma SplitBlock(s: Heap, ht: map<nat, nat>, p: nat, len: nat, q: nat)
    requires Inv(s, ht) && Free(s, p) && BlockOk(s, p) && LinkOk(s, ht, p)
    requires 1 <= len && len % ALIGN == 0 && s.hdrs[p].size >= len + HEADER + ALIGN
    requires q in Split(s, p, len).hdrs
    ensures BlockOk(Split(s, p, len), q) && GapOk(Split(s, p, len), q)
  {
    var n := p + HEADER + len;
    SplitShape(s, ht, p, len, q);
    if q == p || q == n {
      SplitPieces(s, ht, p, len);
    } else {
      assert BlockOk(s, q) && GapOk(s, q);
      SplitShape(s, ht, p, len, s.hdrs[q].next);
      SplitShape(s, ht, p, len, s.hdrs[q].prev);
    }
  }

  lemma SplitPieces(s: Heap, ht: map<nat, nat>, p: nat, len: nat)
    requires Inv(s, ht) && Free(s, p) && BlockOk(s, p) && LinkOk(s, ht, p)
    requires 1 <= len && len % ALIGN == 0 && s.hdrs[p].size >= len + HEADER + ALIGN
    ensures var n, r := p + HEADER + len, Split(s, p, len);
      n in r.hdrs && p in r.hdrs && BlockOk(r, p) && GapOk(r, p) && BlockOk(r, n) && GapOk(r, n)
  {
    assert GapOk(s, p);
    SplitShape(s, ht, p, len, s.hdrs[p].next);
    SplitShape(s, ht, p, len, s.hdrs[p].prev);
  }

  lemma SplitLink(s: Heap, ht: map<nat, nat>, p: nat, len: nat, q: nat)
    requires Inv(s, ht) && Free(s, p) && BlockOk(s, p) && LinkOk(s, ht, p)
    requires s.hdrs[p].size >= len + HEADER
    requires q in Split(s, p, len).hdrs
    ensures LinkOk(Split(s, p, len), ht[p + HEADER + len := ht[p]], q)
  {
    var n := p + HEADER + len;
    var pf, nf := s.hdrs[p].prevFree, s.hdrs[p].nextFree;
    SplitShape(s, ht, p, len, q);
    SplitShape(s, ht, p, len, pf);
    SplitShape(s, ht, p, len, nf);
    assert pf != 0 ==> LinkOk(s, ht, pf);
    assert nf != 0 ==> LinkOk(s, ht, nf);
    if q != n {
      assert BlockOk(s, q) && LinkOk(s, ht, q);
      SplitShape(s, ht, p, len, s.hdrs[q].nextFree);
      SplitShape(s, ht, p, len, s.hdrs[q].prevFree);
    }
  }

  lemma SplitKeepsInv(s: Heap, ht: map<nat, nat>, p: nat, len: nat)
    requires Inv(s, ht) && Free(s, p) && BlockOk(s, p) && LinkOk(s, ht, p)
    requires 1 <= len && len % ALIGN == 0 && s.hdrs[p].size >= len + HEADER + ALIGN
    ensures Inv(Split(s, p, len), ht[p + HEADER + len := ht[p]])
  {
    var r, ht' := Split(s, p, len), ht[p + HEADER + len := ht[p]];
    SplitShape(s, ht, p, len, s.buf);
    SplitShape(s, ht, p, len, s.firstFree);
    forall q {:trigger BlockOk(r, q)}{:trigger GapOk(r, q)}{:trigger LinkOk(r, ht', q)} | q in r.hdrs
      ensures BlockOk(r, q) && GapOk(r, q) && LinkOk(r, ht', q)
    {
      SplitBlock(s, ht, p, len, q);
      SplitLink(s, ht, p, len, q);
    }
  }

  // ---------------------------------------------------------------- free

  /** Between the two regroupings block `x` is free but not on the list. */
  ghost predicate Detached(s: Heap, ht: map<nat, nat>, x: nat) {
    && Free(s, x) && s.firstFree != x
    && (s.firstFree != 0 ==> Free(s, s.firstFree))
    && forall q {:trigger LinkOk(s, ht, q)} :: q in s.hdrs && q != x ==>
         LinkOk(s, ht, q) && s.hdrs[q].prevFree != x && s.hdrs[q].nextFree != x
  }

  /** hdr->alloc = 0 */
  function Release(s: Heap, p: nat): Heap requires p in s.hdrs { Put(s, p, s.hdrs[p].(alloc := 0)) }

  lemma ReleaseDetaches(s: Heap, ht: map<nat, nat>, p: nat)
    requires Inv(s, ht) && p in s.hdrs && s.hdrs[p].alloc != 0
    ensures var r := Release(s, p); ChainOk(r) && Detached(r, ht, p) && GapsAround(r, p)
  {
    var r := Release(s, p);
    assert BlockOk(s, p) && LinkOk(s, ht, p);
    forall q {:trigger BlockOk(r, q)} | q in r.hdrs ensures BlockOk(r, q) { assert BlockOk(s, q); }
    forall q {:trigger LinkOk(r, ht, q)} | q in r.hdrs && q != p
      ensures LinkOk(r, ht, q) && r.hdrs[q].prevFree != p && r.hdrs[q].nextFree != p
    {
      assert LinkOk(s, ht, q);
    }
    forall q {:trigger GapOk(r, q)} | q in r.hdrs && q != p && r.hdrs[q].next != p ensures GapOk(r, q) {
      assert GapOk(s, q);
    }
  }

  /** Regroup with the block before: it swallows `p`. */
  function MergePrev(s: Heap, p: nat): Heap
    requires p in s.hdrs && s.hdrs[p].prev in s.hdrs
    requires s.hdrs[p].next != 0 ==> s.hdrs[p].next in s.hdrs
  {
    var h := s.hdrs[p];
    var b := h.prev;
    var s1 := Put(s, b, s.hdrs[b].(size := s.hdrs[b].size + HEADER + h.size, next := h.next));
    var s2 := if h.next != 0 then Put(s1, h.next, s1.hdrs[h.next].(prev := b)) else s1;
    Wipe(s2, p)
  }

  /** Every gap is fine except possibly around `x`. */
  ghost predicate GapsAround(s: Heap, x: nat) {
    forall q {:trigger GapOk(s, q)} :: q in s.hdrs && q != x && s.hdrs[q].next != x ==> GapOk(s, q)
  }

  ghost predicate GapsExcept(s: Heap, x: nat) {
    forall q {:trigger GapOk(s, q)} :: q in s.hdrs && q != x ==> GapOk(s, q)
  }

  lemma MergePrevShape(s: Heap, p: nat, q: nat)
    requires ChainOk(s) && p in s.hdrs && BlockOk(s, p) && s.hdrs[p].prev in s.hdrs
    ensures var r, b := MergePrev(s, p), s.hdrs[p].prev;
      && r.hdrs.Keys == s.hdrs.Keys - {p} && b != p
      && r.hdrs[b] == s.hdrs[b].(size := s.hdrs[b].size + HEADER + s.hdrs[p].size, next := s.hdrs[p].next)
      && (q in s.hdrs && q != p && q != b ==>
            r.hdrs[q] == s.hdrs[q].(prev := if q == s.hdrs[p].next then b else s.hdrs[q].prev))
  {
    assert BlockOk(s, s.hdrs[p].prev);
    assert q in s.hdrs ==> BlockOk(s, q);
  }

  lemma MergePrevBlock(s: Heap, p: nat, q: nat)
    requires ChainOk(s) && p in s.hdrs && BlockOk(s, p) && Free(s, s.hdrs[p].prev) && Free(s, p) && GapsAround(s, p)
    requires q in MergePrev(s, p).hdrs
    ensures BlockOk(MergePrev(s, p), q)
    ensures q != s.hdrs[p].prev ==> GapOk(MergePrev(s, p), q)
  {
    var b := s.hdrs[p].prev;
    MergePrevShape(s, p, q);
    assert BlockOk(s, q) && BlockOk(s, b);
    MergePrevShape(s, p, s.hdrs[q].next);
    MergePrevShape(s, p, s.hdrs[q].prev);
    MergePrevShape(s, p, s.hdrs[p].next);
    if q != b { assert GapOk(s, q); }
  }

  lemma MergePrevLink(s: Heap, ht: map<nat, nat>, p: nat, q: nat)
    requires ChainOk(s) && Detached(s, ht, p) && BlockOk(s, p) && Free(s, s.hdrs[p].prev)
    requires q in MergePrev(s, p).hdrs
    ensures LinkOk(MergePrev(s, p), ht, q)
  {
    MergePrevShape(s, p, q);
    assert LinkOk(s, ht, q);
    MergePrevShape(s, p, s.hdrs[q].nextFree);
    MergePrevShape(s, p, s.hdrs[q].prevFree);
  }

  lemma MergePrevKeeps(s: Heap, ht: map<nat, nat>, p: nat)
    requires ChainOk(s) && Detached(s, ht, p) && GapsAround(s, p) && Free(s, s.hdrs[p].prev)
    ensures BlockOk(s, p)
    ensures var r, b := MergePrev(s, p), s.hdrs[p].prev; ChainOk(r) && ListOk(r, ht) && Free(r, b) && GapsExcept(r, b)
  {
    assert BlockOk(s, p);
    var r, b := MergePrev(s, p), s.hdrs[p].prev;
    assert BlockOk(s, b);
    MergePrevShape(s, p, s.buf);
    MergePrevShape(s, p, s.firstFree);
    forall q {:trigger BlockOk(r, q)}{:trigger GapOk(r, q)} | q in r.hdrs
      ensures BlockOk(r, q) && (q != b ==> GapOk(r, q))
    {
      MergePrevBlock(s, p, q);
    }
    forall q {:trigger LinkOk(r, ht, q)} | q in r.hdrs ensures LinkOk(r, ht, q) { MergePrevLink(s, ht, p, q); }
  }

  /** Relinking the list neighbours of `x` takes it off the list and changes nothing else. */
  lemma UnlinkShape(s: Heap, ht: map<nat, nat>, x: nat, q: nat)
    requires ListOk(s, ht) && Free(s, x) && LinkOk(s, ht, x)
    ensures var r, h := Unlink(s, x), s.hdrs[x];
      && r.hdrs.Keys == s.hdrs.Keys && r.hdrs[x] == h
      && r.firstFree == (if h.prevFree == 0 then h.nextFree else s.firstFree)
      && (q in s.hdrs && q != x ==>
            r.hdrs[q] == s.hdrs[q].(
              prevFree := if q == h.nextFree && q != 0 then h.prevFree else s.hdrs[q].prevFree,
              nextFree := if q == h.prevFree && q != 0 then h.nextFree else s.hdrs[q].nextFree))
  {
    var h := s.hdrs[x];
    assert h.prevFree != 0 ==> LinkOk(s, ht, h.prevFree);
  }

  lemma UnlinkLink(s: Heap, ht: map<nat, nat>, x: nat, q: nat)
    requires ChainOk(s) && ListOk(s, ht) && Free(s, x) && LinkOk(s, ht, x) && q in s.hdrs && q != x
    ensures var r := Unlink(s, x);
      q in r.hdrs && LinkOk(r, ht, q) && r.hdrs[q].prevFree != x && r.hdrs[q].nextFree != x
  {
    var pf, nf := s.hdrs[x].prevFree, s.hdrs[x].nextFree;
    assert BlockOk(s, q) && BlockOk(s, x) && LinkOk(s, ht, q);
    assert pf != 0 ==> LinkOk(s, ht, pf);
    assert nf != 0 ==> LinkOk(s, ht, nf);
    UnlinkShape(s, ht, x, q);
    UnlinkShape(s, ht, x, s.hdrs[q].nextFree);
    UnlinkShape(s, ht, x, s.hdrs[q].prevFree);
    UnlinkShape(s, ht, x, pf);
    UnlinkShape(s, ht, x, nf);
  }

  lemma UnlinkDetaches(s: Heap, ht: map<nat, nat>, x: nat)
    requires ChainOk(s) && ListOk(s, ht) && Free(s, x) && GapsExcept(s, x)
    ensures LinkOk(s, ht, x)
    ensures var r := Unlink(s, x); ChainOk(r) && Detached(r, ht, x) && GapsExcept(r, x)
  {
    assert BlockOk(s, x) && LinkOk(s, ht, x);
    var r := Unlink(s, x);
    var nf := s.hdrs[x].nextFree;
    assert nf != 0 ==> LinkOk(s, ht, nf);
    UnlinkShape(s, ht, x, s.firstFree);
    UnlinkShape(s, ht, x, nf);
    forall q {:trigger BlockOk(r, q)} | q in r.hdrs ensures BlockOk(r, q) {
      UnlinkShape(s, ht, x, q);
      assert BlockOk(s, q);
      UnlinkShape(s, ht, x, s.hdrs[q].next);
      UnlinkShape(s, ht, x, s.hdrs[q].prev);
    }
    forall q {:trigger GapOk(r, q)} | q in r.hdrs && q != x ensures GapOk(r, q) {
      UnlinkShape(s, ht, x, q);
      assert GapOk(s, q);
      UnlinkShape(s, ht, x, s.hdrs[q].next);
    }
    forall q {:trigger LinkOk(r, ht, q)} | q in r.hdrs && q != x
      ensures LinkOk(r, ht, q) && r.hdrs[q].prevFree != x && r.hdrs[q].nextFree != x
    {
      UnlinkLink(s, ht, x, q);
    }
  }

  /** Regroup with the block after: detached block `x` swallows it and takes its place on the list. */
  function Absorb(s: Heap, x: nat): Heap
    requires x in s.hdrs && s.hdrs[x].next in s.hdrs
    requires var c := s.hdrs[s.hdrs[x].next];
      && (c.prevFree != 0 ==> c.prevFree in s.hdrs) && (c.nextFree != 0 ==> c.nextFree in s.hdrs)
      && (c.next != 0 ==> c.next in s.hdrs)
  {
    var y := s.hdrs[x].next;
    var c := s.hdrs[y];
    var s1 := Put(s, x, s.hdrs[x].(size := s.hdrs[x].size + HEADER + c.size, next := c.next,
                                   prevFree := c.prevFree, nextFree := c.nextFree));
    var s2 := if c.prevFree != 0 then Put(s1, c.prevFree, s1.hdrs[c.prevFree].(nextFree := x)) else s1.(firstFree := x);
    var s3 := if c.nextFree != 0 then Put(s2, c.nextFree, s2.hdrs[c.nextFree].(prevFree := x)) else s2;
    var s4 := if c.next != 0 then Put(s3, c.next, s3.hdrs[c.next].(prev := x)) else s3;
    Wipe(s4, y)
  }

  ghost predicate CanAbsorb(s: Heap, ht: map<nat, nat>, x: nat) {
    && ChainOk(s) && Detached(s, ht, x) && GapsExcept(s, x)
    && BlockOk(s, x) && Free(s, s.hdrs[x].next)
    && BlockOk(s, s.hdrs[x].next) && LinkOk(s, ht, s.hdrs[x].next)
  }

  lemma AbsorbShape(s: Heap, ht: map<nat, nat>, x: nat, q: nat)
    requires CanAbsorb(s, ht, x)
    ensures var y := s.hdrs[x].next; var c, r := s.hdrs[y], Absorb(s, x);
      && r.hdrs.Keys == s.hdrs.Keys - {y} && y != x
      && r.firstFree == (if c.prevFree == 0 then x else s.firstFree)
      && r.hdrs[x] == s.hdrs[x].(size := s.hdrs[x].size + HEADER + c.size, next := c.next,
                                 prevFree := c.prevFree, nextFree := c.nextFree)
      && (q in s.hdrs && q != x && q != y ==>
            r.hdrs[q] == s.hdrs[q].(
              prev := if q == c.next then x else s.hdrs[q].prev,
              prevFree := if q == c.nextFree then x else s.hdrs[q].prevFree,
              nextFree := if q == c.prevFree then x else s.hdrs[q].nextFree))
  {
    assert q in s.hdrs ==> BlockOk(s, q);
  }

  lemma AbsorbBlock(s: Heap, ht: map<nat, nat>, x: nat, q: nat)
    requires CanAbsorb(s, ht, x) && q in Absorb(s, x).hdrs
    ensures BlockOk(Absorb(s, x), q) && GapOk(Absorb(s, x), q)
  {
    var y := s.hdrs[x].next;
    AbsorbShape(s, ht, x, q);
    assert BlockOk(s, q);
    AbsorbShape(s, ht, x, s.hdrs[q].next);
    AbsorbShape(s, ht, x, s.hdrs[q].prev);
    AbsorbShape(s, ht, x, s.hdrs[y].next);
    assert GapOk(s, y);
    if q != x { assert GapOk(s, q); }
  }

  lemma AbsorbLink(s: Heap, ht: map<nat, nat>, x: nat, q: nat)
    requires CanAbsorb(s, ht, x) && q in Absorb(s, x).hdrs
    ensures LinkOk(Absorb(s, x), ht[x := ht[s.hdrs[x].next]], q)
  {
    var y := s.hdrs[x].next;
    var pf, nf := s.hdrs[y].prevFree, s.hdrs[y].nextFree;
    assert pf != 0 ==> LinkOk(s, ht, pf);
    assert nf != 0 ==> LinkOk(s, ht, nf);
    AbsorbShape(s, ht, x, q);
    AbsorbShape(s, ht, x, pf);
    AbsorbShape(s, ht, x, nf);
    assert BlockOk(s, q);
    if q != x {
      assert LinkOk(s, ht, q);
      AbsorbShape(s, ht, x, s.hdrs[q].nextFree);
      AbsorbShape(s, ht, x, s.hdrs[q].prevFree);
    }
  }

  lemma AbsorbKeepsInv(s: Heap, ht: map<nat, nat>, x: nat)
    requires CanAbsorb(s, ht, x)
    ensures Inv(Absorb(s, x), ht[x := ht[s.hdrs[x].next]])
  {
    var r, ht' := Absorb(s, x), ht[x := ht[s.hdrs[x].next]];
    AbsorbShape(s, ht, x, s.buf);
    AbsorbShape(s, ht, x, s.firstFree);
    assert BlockOk(s, s.buf);
    if s.firstFree != 0 { assert LinkOk(s, ht, s.firstFree); }
    forall q {:trigger BlockOk(r, q)}{:trigger GapOk(r, q)}{:trigger LinkOk(r, ht', q)} | q in r.hdrs
      ensures BlockOk(r, q) && GapOk(r, q) && LinkOk(r, ht', q)
    {
      AbsorbBlock(s, ht, x, q);
      AbsorbLink(s, ht, x, q);
    }
  }

  /** Not merged with anything: becomes the head of the free list. */
  function Prepend(s: Heap, p: nat): Heap
    requires p in s.hdrs && (s.firstFree != 0 ==> s.firstFree in s.hdrs)
  {
    var s1 := Put(s, p, s.hdrs[p].(nextFree := s.firstFree));
    var s2 := if s.firstFree != 0 then Put(s1, s.firstFree, s1.hdrs[s.firstFree].(prevFree := p)) else s1;
    s2.(firstFree := p)
  }

  function HeadHeight(s: Heap, ht: map<nat, nat>): nat { if s.firstFree in ht then ht[s.firstFree] + 1 else 0 }

  lemma PrependKeepsInv(s: Heap, ht: map<nat, nat>, p: nat)
    requires ChainOk(s) && Detached(s, ht, p) && GapsExcept(s, p) && GapOk(s, p) && s.hdrs[p].prevFree == 0
    ensures Inv(Prepend(s, p), ht[p := HeadHeight(s, ht)])
  {
    var r, ht' := Prepend(s, p), ht[p := HeadHeight(s, ht)];
    var f := s.firstFree;
    assert BlockOk(s, p);
    if f != 0 { assert LinkOk(s, ht, f); }
    assert r.hdrs.Keys == s.hdrs.Keys;
    forall q {:trigger BlockOk(r, q)} | q in r.hdrs ensures BlockOk(r, q) { assert BlockOk(s, q); }
    forall q {:trigger GapOk(r, q)} | q in r.hdrs ensures GapOk(r, q) { assert GapOk(s, q); }
    forall q {:trigger LinkOk(r, ht', q)} | q in r.hdrs ensures LinkOk(r, ht', q) {
      assert BlockOk(s, q);
      if q != p { assert LinkOk(s, ht, q); }
    }
  }
}
