/** calloc, free and whole runs of the buffer allocator: what the invariant of HeapModel gives a caller. */
module HeapTheorems {
  import opened LittleEndian
  import opened HeapModel

  // ---------------------------------------------------------------- the free list is one list

  ghost function Higher(s: Heap, ht: map<nat, nat>, q: nat): set<nat>
    requires q in ht
  {
    set z | z in s.hdrs && z in ht && ht[z] > ht[q]
  }

  /** The head of the list is strictly the highest free block. */
  lemma {:induction false} HeadTop(s: Heap, ht: map<nat, nat>, p: nat)
    requires ChainOk(s) && ListOk(s, ht) && Free(s, p) && p != s.firstFree
    ensures s.firstFree != 0 && p in ht && s.firstFree in ht && ht[p] < ht[s.firstFree]
    decreases if p in ht then Higher(s, ht, p) else {}
  {
    assert BlockOk(s, p) && LinkOk(s, ht, p);
    var r := s.hdrs[p].prevFree;
    assert LinkOk(s, ht, r);
    assert r in Higher(s, ht, p) && Higher(s, ht, r) <= Higher(s, ht, p);
    if r != s.firstFree { HeadTop(s, ht, r); }
  }

  /** Distinct free blocks have distinct heights, and nothing lies between a block and its successor. */
  lemma {:induction false} Closest(s: Heap, ht: map<nat, nat>, p: nat, q: nat)
    requires ChainOk(s) && ListOk(s, ht) && Free(s, p) && Free(s, q) && p != q && p in ht && q in ht && ht[q] <= ht[p]
    ensures ht[q] < ht[p]
    ensures var n := s.hdrs[p].nextFree; n != 0 && n in ht && ht[q] <= ht[n]
    decreases Higher(s, ht, q)
  {
    assert BlockOk(s, p) && BlockOk(s, q) && LinkOk(s, ht, p) && LinkOk(s, ht, q);
    if q == s.firstFree { HeadTop(s, ht, p); }
    var r := s.hdrs[q].prevFree;
    assert LinkOk(s, ht, r);
    assert r in Higher(s, ht, q) && Higher(s, ht, r) < Higher(s, ht, q);
    if r == p {
    } else if ht[r] <= ht[p] {
      Closest(s, ht, p, r);
    } else if ht[p] > ht[q] {
      assert p in Higher(s, ht, q) && Higher(s, ht, p) < Higher(s, ht, q);
      Closest(s, ht, r, p);
    } else {
      if p == s.firstFree { HeadTop(s, ht, r); }
      var p1 := s.hdrs[p].prevFree;
      assert LinkOk(s, ht, p1);
      assert p1 in Higher(s, ht, q) && Higher(s, ht, p1) < Higher(s, ht, q);
      if ht[r] <= ht[p1] { Closest(s, ht, p1, r); } else { Closest(s, ht, r, p1); }
    }
  }

  /** The blocks met when following nextFree from `p`. */
  ghost function ListFrom(s: Heap, ht: map<nat, nat>, p: nat): (l: seq<nat>)
    requires ListOk(s, ht) && (p != 0 ==> Free(s, p))
    decreases if p in ht then ht[p] + 1 else 0
  {
    if p == 0 then [] else
      assert LinkOk(s, ht, p);
      var n := s.hdrs[p].nextFree;
      assert n != 0 ==> LinkOk(s, ht, n);
      [p] + (if n == 0 then [] else ListFrom(s, ht, n))
  }

  lemma {:induction false} ListFromMembers(s: Heap, ht: map<nat, nat>, p: nat, q: nat)
    requires ChainOk(s) && ListOk(s, ht) && Free(s, p)
    ensures p in ht
    ensures q in ListFrom(s, ht, p) <==> Free(s, q) && q in ht && ht[q] <= ht[p]
    decreases if p in ht then ht[p] else 0
  {
    assert BlockOk(s, p) && LinkOk(s, ht, p);
    var n := s.hdrs[p].nextFree;
    if Free(s, q) { assert LinkOk(s, ht, q); }
    if Free(s, q) && q != p && ht[q] <= ht[p] { Closest(s, ht, p, q); }
    if n != 0 {
      assert LinkOk(s, ht, n);
      ListFromMembers(s, ht, n, q);
      assert ListFrom(s, ht, p) == [p] + ListFrom(s, ht, n);
    }
  }

  /** Element `i` of `l` links to its neighbours in `l`. */
  ghost predicate InPlace(s: Heap, l: seq<nat>, i: nat)
    requires i < |l|
  {
    && l[i] in s.hdrs
    && s.hdrs[l[i]].nextFree == (if i + 1 < |l| then l[i + 1] else 0)
    && (i > 0 ==> s.hdrs[l[i]].prevFree == l[i - 1])
  }

  ghost predicate IsList(s: Heap, l: seq<nat>) {
    && (forall i, j :: 0 <= i < j < |l| ==> l[i] != l[j])
    && (forall i {:trigger InPlace(s, l, i)} :: 0 <= i < |l| ==> InPlace(s, l, i))
  }

  lemma {:induction false} ListFromIsList(s: Heap, ht: map<nat, nat>, p: nat)
    requires ChainOk(s) && ListOk(s, ht) && Free(s, p)
    ensures IsList(s, ListFrom(s, ht, p))
    decreases if p in ht then ht[p] else 0
  {
    var l := ListFrom(s, ht, p);
    assert BlockOk(s, p) && LinkOk(s, ht, p);
    var n := s.hdrs[p].nextFree;
    if n != 0 {
      assert LinkOk(s, ht, n);
      var m := ListFrom(s, ht, n);
      ListFromIsList(s, ht, n);
      ListFromMembers(s, ht, n, p);
      assert m[0] == n && l == [p] + m;
      forall i {:trigger InPlace(s, l, i)} | 0 <= i < |l| ensures InPlace(s, l, i) {
        if i > 0 { assert InPlace(s, m, i - 1); }
      }
    }
  }

  /** The free list is a well-formed doubly linked list of exactly the free blocks, each once. */
  lemma FreeListIsExact(s: Heap, ht: map<nat, nat>) returns (l: seq<nat>)
    requires Inv(s, ht)
    ensures IsList(s, l)
    ensures s.firstFree == if l == [] then 0 else l[0]
    ensures l != [] ==> l[0] in s.hdrs && s.hdrs[l[0]].prevFree == 0
    ensures forall q :: q in l <==> Free(s, q)
  {
    var f := s.firstFree;
    if f == 0 {
      l := [];
      forall q ensures !Free(s, q) {
        if Free(s, q) {
          assert BlockOk(s, q);
          HeadTop(s, ht, q);
        }
      }
    } else {
      l := ListFrom(s, ht, f);
      ListFromIsList(s, ht, f);
      assert LinkOk(s, ht, f);
      forall q ensures q in l <==> Free(s, q) {
        ListFromMembers(s, ht, f, q);
        if Free(s, q) && q != f { HeadTop(s, ht, q); }
      }
    }
  }

  // ---------------------------------------------------------------- the chain tiles the buffer

  function End(s: Heap, p: nat): nat requires p in s.hdrs { p + HEADER + s.hdrs[p].size }

  /** The blocks from `p` to the end of the buffer, in address order. */
  ghost function ChainFrom(s: Heap, p: nat): (c: seq<nat>)
    requires ChainOk(s) && p in s.hdrs
    decreases WORD - p
  {
    assert BlockOk(s, p);
    var n := s.hdrs[p].next;
    if n == 0 then [p] else assert BlockOk(s, n); [p] + ChainFrom(s, n)
  }

  /** Block `c[i]` ends where the next one starts, the last one at the end of the buffer, and its links
      lead to its neighbours in `c`. */
  ghost predicate Abuts(s: Heap, c: seq<nat>, i: nat)
    requires i < |c|
  {
    && c[i] in s.hdrs && End(s, c[i]) == (if i + 1 < |c| then c[i + 1] else s.buf + s.len)
    && s.hdrs[c[i]].next == (if i + 1 < |c| then c[i + 1] else 0)
    && (i > 0 ==> s.hdrs[c[i]].prev == c[i - 1])
  }

  ghost predicate Tiles(s: Heap, c: seq<nat>, from: nat) {
    && c != [] && c[0] == from
    && forall i {:trigger Abuts(s, c, i)} :: 0 <= i < |c| ==> Abuts(s, c, i)
  }

  lemma {:induction false} ChainFromTiles(s: Heap, p: nat)
    requires ChainOk(s) && p in s.hdrs
    ensures Tiles(s, ChainFrom(s, p), p)
    decreases WORD - p
  {
    assert BlockOk(s, p);
    var n, c := s.hdrs[p].next, ChainFrom(s, p);
    if n != 0 {
      assert BlockOk(s, n);
      var d := ChainFrom(s, n);
      ChainFromTiles(s, n);
      assert c == [p] + d;
      assert Abuts(s, d, 0);
      forall i {:trigger Abuts(s, c, i)} | 0 <= i < |c| ensures Abuts(s, c, i) {
        if i > 0 { assert Abuts(s, d, i - 1); }
      }
    }
  }

  lemma {:induction false} ChainFromHolds(s: Heap, p: nat, q: nat)
    requires ChainOk(s) && p in s.hdrs && q in s.hdrs && p <= q
    ensures q in ChainFrom(s, p)
    decreases WORD - p
  {
    if p < q {
      Apart(s, p, q);
      assert BlockOk(s, p) && BlockOk(s, q);
      ChainFromHolds(s, s.hdrs[p].next, q);
    }
  }

  /** The chain from heap.first tiles the buffer exactly, in address order, and holds every block. */
  lemma ChainIsExact(s: Heap) returns (c: seq<nat>)
    requires ChainOk(s)
    ensures Tiles(s, c, s.buf) && c[0] == s.first && c[0] in s.hdrs && s.hdrs[c[0]].prev == 0
    ensures forall q :: q in c <==> q in s.hdrs
  {
    assert BlockOk(s, s.buf);
    c := ChainFrom(s, s.buf);
    ChainFromTiles(s, s.buf);
    forall q ensures q in c <==> q in s.hdrs {
      if q in s.hdrs { assert BlockOk(s, q); ChainFromHolds(s, s.buf, q); }
      if q in c { var i :| 0 <= i < |c| && c[i] == q; assert Abuts(s, c, i); }
    }
  }

  // ---------------------------------------------------------------- calloc

  /** The number of bytes calloc(n, size) must provide, or nothing for a zero, overflowing or
      unroundable request; the product is taken modulo the word size, as in C. */
  datatype Option<T> = None | Some(value: T)

  function Request(n: nat, size: nat): Option<nat> {
    var len := (n * size) % WORD;
    if n == 0 || size == 0 || len / n != size then None
    else if len > WORD - ALIGN then None
    else Some(len)
  }

  /** The wrapped multiplication and division test reject exactly the requests that do not fit. */
  lemma RequestIsExact(n: nat, size: nat)
    requires n < WORD && size < WORD
    ensures Request(n, size) == if 0 < n * size <= WORD - ALIGN then Some(n * size) else None
  {
    if n != 0 && size != 0 {
      var m := (n * size) % WORD;
      assert n * size > 0;
      if n * size < WORD {
        DivExact(n, size, n * size);
      } else {
        assert m < n * size;
        assert m / n != size by { assert m == n * (m / n) + m % n; }
      }
    }
  }

  lemma DivExact(n: nat, size: nat, m: nat)
    requires n > 0 && m == n * size
    ensures m / n == size
  {
    var d := size - m / n;
    assert n * d == m % n by { assert m == n * (m / n) + m % n; }
  }

  function RoundUp(len: nat): (r: nat)
    ensures r % ALIGN == 0 && len <= r < len + ALIGN
  {
    if len % ALIGN != 0 then len - len % ALIGN + ALIGN else len
  }

  /** The first block that fits, in free-list order from `cur`; 0 when there is none. */
  function Find(s: Heap, ht: map<nat, nat>, cur: nat, len: nat): (r: nat)
    requires Inv(s, ht) && (cur != 0 ==> Free(s, cur))
    ensures r != 0 ==> Free(s, r) && s.hdrs[r].size >= len
    decreases if cur in ht then ht[cur] + 1 else 0
  {
    if cur == 0 then 0
    else if s.hdrs[cur].size >= len then cur
    else
      assert LinkOk(s, ht, cur);
      var n := s.hdrs[cur].nextFree;
      if n == 0 then 0 else Find(s, ht, n, len)
  }

  lemma {:induction false} FindIsFirst(s: Heap, ht: map<nat, nat>, cur: nat, len: nat, q: nat)
    requires Inv(s, ht) && Free(s, cur) && Free(s, q) && s.hdrs[q].size >= len
    requires cur in ht && q in ht && ht[q] <= ht[cur]
    ensures var r := Find(s, ht, cur, len); r != 0 && r in ht && ht[q] <= ht[r]
    decreases ht[cur]
  {
    assert BlockOk(s, cur) && LinkOk(s, ht, cur);
    if s.hdrs[cur].size < len {
      Closest(s, ht, cur, q);
      FindIsFirst(s, ht, s.hdrs[cur].nextFree, len, q);
    }
  }

  /** Providing `want` bytes: the new heap, its heights and the pointer returned. */
  function Provide(s: Heap, ht: map<nat, nat>, want: nat): (r: (Heap, map<nat, nat>, nat))
    requires Inv(s, ht) && want > 0
    ensures Inv(r.0, r.1) && r.0.buf == s.buf && r.0.len == s.len
  {
    var len := RoundUp(want);
    var p := Find(s, ht, s.firstFree, len);
    if p == 0 then (s, ht, 0)
    else
      assert BlockOk(s, p) && LinkOk(s, ht, p);
      if s.hdrs[p].size - len < HEADER + ALIGN then
        TakeKeepsInv(s, ht, p); (Take(s, p), ht, p + HEADER)
      else
        SplitKeepsInv(s, ht, p, len); (Split(s, p, len), ht[p + HEADER + len := ht[p]], p + HEADER)
  }

  /** calloc(n, size) */
  function Calloc(s: Heap, ht: map<nat, nat>, n: nat, size: nat): (r: (Heap, map<nat, nat>, nat))
    requires Inv(s, ht) && n < WORD && size < WORD
    ensures Inv(r.0, r.1) && r.0.buf == s.buf && r.0.len == s.len
  {
    RequestIsExact(n, size);
    match Request(n, size)
    case None => (s, ht, 0)
    case Some(want) => Provide(s, ht, want)
  }

  /** The live allocations: address of the header (the pointer is HEADER bytes above it), capacity. */
  ghost function Live(s: Heap): map<nat, nat> {
    map p | p in s.hdrs && s.hdrs[p].alloc != 0 :: s.hdrs[p].size
  }

  /** Some free block can hold `len` bytes. */
  ghost predicate Fits(s: Heap, len: nat) { exists q :: Free(s, q) && s.hdrs[q].size >= len }

  lemma FindFails(s: Heap, ht: map<nat, nat>, len: nat)
    requires Inv(s, ht)
    ensures Find(s, ht, s.firstFree, len) == 0 <==> !Fits(s, len)
  {
    var p := Find(s, ht, s.firstFree, len);
    if p != 0 { assert Free(s, p); }
    if Fits(s, len) {
      var q :| Free(s, q) && s.hdrs[q].size >= len;
      assert BlockOk(s, q) && LinkOk(s, ht, q);
      if q != s.firstFree { HeadTop(s, ht, q); }
      FindIsFirst(s, ht, s.firstFree, len, q);
    }
  }

  /** From `s` to `r` exactly block `p` became live; headers were added only inside it. */
  ghost predicate Handed(s: Heap, r: Heap, p: nat, want: nat) {
    && p in s.hdrs && p !in Live(s)
    && s.hdrs.Keys <= r.hdrs.Keys
    && (forall q :: q in r.hdrs && q !in s.hdrs ==> p + HEADER + want <= q && q + HEADER <= End(s, p))
    && p in r.hdrs && r.hdrs[p].alloc != 0 && r.hdrs[p].size >= want
    && Live(r) == Live(s)[p := r.hdrs[p].size]
  }

  /** Block by block, only `p` changed, from free to allocated. */
  lemma LiveGrows(s: Heap, r: Heap, p: nat)
    requires Free(s, p) && p in r.hdrs && r.hdrs[p].alloc != 0 && s.hdrs.Keys <= r.hdrs.Keys
    requires forall q :: q in r.hdrs && q != p && q in s.hdrs ==>
      r.hdrs[q].alloc == s.hdrs[q].alloc && r.hdrs[q].size == s.hdrs[q].size
    requires forall q :: q in r.hdrs && q !in s.hdrs ==> r.hdrs[q].alloc == 0
    ensures Live(r) == Live(s)[p := r.hdrs[p].size]
  {}

  lemma TakeLive(s: Heap, ht: map<nat, nat>, p: nat, want: nat)
    requires Inv(s, ht) && Free(s, p) && LinkOk(s, ht, p) && s.hdrs[p].size >= want
    ensures Handed(s, Take(s, p), p, want)
  {
    var r := Take(s, p);
    TakeShape(s, p, p);
    forall q | q in s.hdrs && q != p
      ensures q in r.hdrs && r.hdrs[q].alloc == s.hdrs[q].alloc && r.hdrs[q].size == s.hdrs[q].size
    {
      TakeShape(s, p, q);
    }
    LiveGrows(s, r, p);
  }

  lemma SplitLive(s: Heap, ht: map<nat, nat>, p: nat, len: nat, want: nat)
    requires Inv(s, ht) && Free(s, p) && BlockOk(s, p) && LinkOk(s, ht, p)
    requires s.hdrs[p].size >= len + HEADER && len >= want
    ensures Handed(s, Split(s, p, len), p, want)
  {
    var r := Split(s, p, len);
    SplitShape(s, ht, p, len, p);
    forall q | q in s.hdrs && q != p
      ensures q in r.hdrs && r.hdrs[q].alloc == s.hdrs[q].alloc && r.hdrs[q].size == s.hdrs[q].size
    {
      SplitShape(s, ht, p, len, q);
    }
    LiveGrows(s, r, p);
  }

  /** Success makes one free block live, at least as long as was asked for. */
  lemma ProvideHandsOut(s: Heap, ht: map<nat, nat>, want: nat)
    requires Inv(s, ht) && want > 0 && Provide(s, ht, want).2 != 0
    ensures Provide(s, ht, want).2 >= HEADER
    ensures Handed(s, Provide(s, ht, want).0, Provide(s, ht, want).2 - HEADER, want)
  {
    var len := RoundUp(want);
    var p := Find(s, ht, s.firstFree, len);
    assert BlockOk(s, p) && LinkOk(s, ht, p);
    if s.hdrs[p].size - len < HEADER + ALIGN {
      assert Provide(s, ht, want).0 == Take(s, p);
      TakeLive(s, ht, p, want);
    } else {
      assert Provide(s, ht, want).0 == Split(s, p, len);
      SplitLive(s, ht, p, len, want);
    }
  }

  /** A successful calloc(n, size) makes one free block live, at least n * size bytes long. */
  lemma CallocHandsOut(s: Heap, ht: map<nat, nat>, n: nat, size: nat)
    requires Inv(s, ht) && n < WORD && size < WORD && Calloc(s, ht, n, size).2 != 0
    ensures Calloc(s, ht, n, size).2 >= HEADER
    ensures Handed(s, Calloc(s, ht, n, size).0, Calloc(s, ht, n, size).2 - HEADER, n * size)
  {
    RequestIsExact(n, size);
    ProvideHandsOut(s, ht, n * size);
  }

  /** From `s` to `r` block `p` is handed out for `len` bytes without waste: a block that leaves room for
      another header and payload is cut right behind them and the rest stays free; any other is handed out as
      it is. */
  ghost predicate Tight(s: Heap, r: Heap, p: nat, len: nat) {
    var n := p + HEADER + len;
    var ok :=
      && Free(s, p) && p in r.hdrs && len <= r.hdrs[p].size < len + HEADER + ALIGN
      && if s.hdrs[p].size >= len + HEADER + ALIGN then
           && r.hdrs[p].size == len && Free(r, n) && r.hdrs[n].size == s.hdrs[p].size - len - HEADER
           && r.hdrs.Keys == s.hdrs.Keys + {n}
         else
           r.hdrs[p].size == s.hdrs[p].size && r.hdrs.Keys == s.hdrs.Keys;
    ok
  }

  lemma TakeTight(s: Heap, ht: map<nat, nat>, p: nat, len: nat)
    requires Inv(s, ht) && Free(s, p) && LinkOk(s, ht, p) && len <= s.hdrs[p].size < len + HEADER + ALIGN
    ensures Tight(s, Take(s, p), p, len)
  {
    TakeShape(s, p, p);
  }

  lemma SplitTight(s: Heap, ht: map<nat, nat>, p: nat, len: nat)
    requires Inv(s, ht) && Free(s, p) && BlockOk(s, p) && LinkOk(s, ht, p)
    requires s.hdrs[p].size >= len + HEADER + ALIGN
    ensures Tight(s, Split(s, p, len), p, len)
  {
    SplitShape(s, ht, p, len, p);
  }

  lemma ProvideIsTight(s: Heap, ht: map<nat, nat>, want: nat)
    requires Inv(s, ht) && want > 0 && Provide(s, ht, want).2 != 0
    ensures var (r, _, ptr) := Provide(s, ht, want); ptr >= HEADER && Tight(s, r, ptr - HEADER, RoundUp(want))
  {
    var len := RoundUp(want);
    var p := Find(s, ht, s.firstFree, len);
    assert BlockOk(s, p) && LinkOk(s, ht, p);
    if s.hdrs[p].size >= len + HEADER + ALIGN {
      assert Provide(s, ht, want).0 == Split(s, p, len);
      SplitTight(s, ht, p, len);
    } else {
      assert Provide(s, ht, want).0 == Take(s, p);
      TakeTight(s, ht, p, len);
    }
  }

  /** A successful calloc hands out the bytes asked for, rounded up to the alignment, and less than a header
      and the alignment more. */
  lemma CallocIsTight(s: Heap, ht: map<nat, nat>, n: nat, size: nat)
    requires Inv(s, ht) && n < WORD && size < WORD && Calloc(s, ht, n, size).2 != 0
    ensures var (r, _, ptr) := Calloc(s, ht, n, size);
      ptr >= HEADER && Tight(s, r, ptr - HEADER, RoundUp(n * size))
  {
    RequestIsExact(n, size);
    ProvideIsTight(s, ht, n * size);
  }

  /** calloc fails exactly when n * size is zero or too large for the word, or no free block fits it;
      a failed call changes nothing. */
  lemma CallocFailsExactly(s: Heap, ht: map<nat, nat>, n: nat, size: nat)
    requires Inv(s, ht) && n < WORD && size < WORD
    ensures var (s', ht', ptr) := Calloc(s, ht, n, size);
      && (ptr == 0 <==> n * size == 0 || n * size > WORD - ALIGN || !Fits(s, RoundUp(n * size)))
      && (ptr == 0 ==> s' == s)
  {
    RequestIsExact(n, size);
    if Request(n, size).Some? { FindFails(s, ht, RoundUp(n * size)); }
  }

  // ---------------------------------------------------------------- free

  /** free's effect: `p` is the header of the block being freed. */
  function FreeBlock(s: Heap, ht: map<nat, nat>, p: nat): (r: (Heap, map<nat, nat>))
    requires Inv(s, ht) && p in s.hdrs && s.hdrs[p].alloc != 0
    ensures Inv(r.0, r.1) && r.0.buf == s.buf && r.0.len == s.len
  {
    assert BlockOk(s, p) && LinkOk(s, ht, p);
    ReleaseDetaches(s, ht, p);
    var s0 := Release(s, p);
    var before := s0.hdrs[p].prev;
    if before != 0 && s0.hdrs[before].alloc == 0 then
      MergePrevKeeps(s0, ht, p);
      var s1 := MergePrev(s0, p);
      assert BlockOk(s1, before);
      if s1.hdrs[before].next != 0 && s1.hdrs[s1.hdrs[before].next].alloc == 0 then
        UnlinkBeforeAbsorb(s1, ht, before);
        (Absorb(Unlink(s1, before), before), ht[before := ht[s1.hdrs[before].next]])
      else
        assert GapOk(s1, before);
        (s1, ht)
    else
      assert BlockOk(s0, p);
      if s0.hdrs[p].next != 0 && s0.hdrs[s0.hdrs[p].next].alloc == 0 then
        AbsorbAlone(s0, ht, p);
        (Absorb(s0, p), ht[p := ht[s0.hdrs[p].next]])
      else
        PrependAlone(s0, ht, p);
        (Prepend(s0, p), ht[p := HeadHeight(s0, ht)])
  }

  lemma UnlinkBeforeAbsorb(s: Heap, ht: map<nat, nat>, x: nat)
    requires ChainOk(s) && ListOk(s, ht) && Free(s, x) && GapsExcept(s, x) && Free(s, s.hdrs[x].next)
    ensures LinkOk(s, ht, x) && (s.hdrs[x].prevFree != 0 || s.hdrs[x].nextFree != 0)
    ensures s.hdrs[x].next in ht && CanAbsorb(Unlink(s, x), ht, x) && Unlink(s, x).hdrs[x] == s.hdrs[x]
    ensures Inv(Absorb(Unlink(s, x), x), ht[x := ht[s.hdrs[x].next]])
  {
    var y := s.hdrs[x].next;
    assert BlockOk(s, x) && BlockOk(s, y) && LinkOk(s, ht, x) && LinkOk(s, ht, y);
    if x == s.firstFree { HeadTop(s, ht, y); Closest(s, ht, x, y); }
    UnlinkDetaches(s, ht, x);
    UnlinkShape(s, ht, x, y);
    var u := Unlink(s, x);
    assert BlockOk(u, x) && BlockOk(u, y) && LinkOk(u, ht, y);
    AbsorbKeepsInv(u, ht, x);
  }

  lemma AbsorbAlone(s: Heap, ht: map<nat, nat>, p: nat)
    requires ChainOk(s) && Detached(s, ht, p) && GapsAround(s, p) && BlockOk(s, p)
    requires s.hdrs[p].prev != 0 ==> s.hdrs[s.hdrs[p].prev].alloc != 0
    requires Free(s, s.hdrs[p].next)
    ensures CanAbsorb(s, ht, p) && Inv(Absorb(s, p), ht[p := ht[s.hdrs[p].next]])
  {
    GapsBefore(s, p);
    var y := s.hdrs[p].next;
    assert BlockOk(s, y) && LinkOk(s, ht, y);
    AbsorbKeepsInv(s, ht, p);
  }

  lemma PrependAlone(s: Heap, ht: map<nat, nat>, p: nat)
    requires ChainOk(s) && Detached(s, ht, p) && GapsAround(s, p) && BlockOk(s, p) && s.hdrs[p].prevFree == 0
    requires s.hdrs[p].prev != 0 ==> s.hdrs[s.hdrs[p].prev].alloc != 0
    requires s.hdrs[p].next != 0 ==> s.hdrs[s.hdrs[p].next].alloc != 0
    ensures Inv(Prepend(s, p), ht[p := HeadHeight(s, ht)])
  {
    GapsBefore(s, p);
    assert GapOk(s, p);
    PrependKeepsInv(s, ht, p);
  }

  lemma GapsBefore(s: Heap, p: nat)
    requires ChainOk(s) && GapsAround(s, p) && p in s.hdrs && BlockOk(s, p)
    requires s.hdrs[p].prev != 0 ==> s.hdrs[s.hdrs[p].prev].alloc != 0
    ensures GapsExcept(s, p)
  {
    forall q {:trigger GapOk(s, q)} | q in s.hdrs && q != p ensures GapOk(s, q) {
      assert BlockOk(s, q);
    }
  }

  /** Regrouping and relinking keep the live blocks, and leave no header that was not there. */
  ghost predicate SameLive(s: Heap, r: Heap) { Live(r) == Live(s) && r.hdrs.Keys <= s.hdrs.Keys }

  lemma MergePrevLive(s: Heap, p: nat)
    requires ChainOk(s) && Free(s, p) && BlockOk(s, p) && Free(s, s.hdrs[p].prev)
    ensures SameLive(s, MergePrev(s, p))
  {
    var r := MergePrev(s, p);
    MergePrevShape(s, p, p);
    forall q | q in r.hdrs
      ensures q in s.hdrs && r.hdrs[q].alloc == s.hdrs[q].alloc
      ensures r.hdrs[q].alloc != 0 ==> r.hdrs[q].size == s.hdrs[q].size
    {
      MergePrevShape(s, p, q);
    }
  }

  lemma UnlinkLive(s: Heap, ht: map<nat, nat>, x: nat)
    requires ListOk(s, ht) && Free(s, x) && LinkOk(s, ht, x)
    ensures SameLive(s, Unlink(s, x))
  {
    var r := Unlink(s, x);
    UnlinkShape(s, ht, x, x);
    forall q | q in r.hdrs
      ensures q in s.hdrs && r.hdrs[q].alloc == s.hdrs[q].alloc && r.hdrs[q].size == s.hdrs[q].size
    {
      UnlinkShape(s, ht, x, q);
    }
  }

  lemma AbsorbLive(s: Heap, ht: map<nat, nat>, x: nat)
    requires CanAbsorb(s, ht, x)
    ensures SameLive(s, Absorb(s, x))
  {
    var r := Absorb(s, x);
    AbsorbShape(s, ht, x, x);
    forall q | q in r.hdrs
      ensures q in s.hdrs && r.hdrs[q].alloc == s.hdrs[q].alloc
      ensures r.hdrs[q].alloc != 0 ==> r.hdrs[q].size == s.hdrs[q].size
    {
      AbsorbShape(s, ht, x, q);
    }
  }

  lemma JoinLive(s: Heap, ht: map<nat, nat>, x: nat)
    requires ChainOk(s) && ListOk(s, ht) && Free(s, x) && GapsExcept(s, x) && Free(s, s.hdrs[x].next)
    ensures LinkOk(s, ht, x) && CanAbsorb(Unlink(s, x), ht, x) && SameLive(s, Absorb(Unlink(s, x), x))
  {
    UnlinkBeforeAbsorb(s, ht, x);
    UnlinkLive(s, ht, x);
    AbsorbLive(Unlink(s, x), ht, x);
  }

  /** free ends the life of exactly one allocation. */
  lemma FreeEndsOne(s: Heap, ht: map<nat, nat>, p: nat)
    requires Inv(s, ht) && p in s.hdrs && s.hdrs[p].alloc != 0
    ensures var r := FreeBlock(s, ht, p).0; Live(r) == Live(s) - {p} && r.hdrs.Keys <= s.hdrs.Keys
  {
    assert BlockOk(s, p) && LinkOk(s, ht, p);
    ReleaseDetaches(s, ht, p);
    var s0 := Release(s, p);
    assert Live(s0) == Live(s) - {p};
    assert BlockOk(s0, p);
    var before := s0.hdrs[p].prev;
    if before != 0 && s0.hdrs[before].alloc == 0 {
      MergePrevKeeps(s0, ht, p);
      MergePrevLive(s0, p);
      var s1 := MergePrev(s0, p);
      assert BlockOk(s1, before);
      if s1.hdrs[before].next != 0 && s1.hdrs[s1.hdrs[before].next].alloc == 0 { JoinLive(s1, ht, before); }
    } else if s0.hdrs[p].next != 0 && s0.hdrs[s0.hdrs[p].next].alloc == 0 {
      AbsorbAlone(s0, ht, p);
      AbsorbLive(s0, ht, p);
    } else {
      assert Live(Prepend(s0, p)) == Live(s0);
    }
  }

  // ---------------------------------------------------------------- what a caller relies on

  /** Live payloads are aligned, inside the buffer and pairwise disjoint, header space included. */
  lemma LiveIsSound(s: Heap, p: nat, q: nat)
    requires ChainOk(s) && p in Live(s) && q in Live(s)
    ensures (p + HEADER) % ALIGN == 0
    ensures s.buf + HEADER <= p + HEADER && p + HEADER + Live(s)[p] <= s.buf + s.len
    ensures p < q ==> p + HEADER + Live(s)[p] <= q
  {
    assert BlockOk(s, p);
    if p < q { Apart(s, p, q); }
  }

  /** The heap mbedtls_memory_buffer_alloc_init builds. */
  function Initial(buf: nat, len: nat): Heap
    requires len >= HEADER
  {
    Heap(buf, len, buf, buf, map[buf := Header(MAGIC1, len - HEADER, 0, 0, 0, 0, 0, MAGIC2)])
  }

  lemma InitialInv(buf: nat, len: nat)
    requires 0 < buf && buf % ALIGN == 0 && len > HEADER && buf + len <= WORD
    ensures Inv(Initial(buf, len), map[buf := 0])
    ensures Live(Initial(buf, len)) == map[]
  {
    var s, ht := Initial(buf, len), map[buf := 0];
    assert BlockOk(s, buf) && LinkOk(s, ht, buf) && GapOk(s, buf);
  }

  /** Once nothing is live, whatever the history, the heap is the initial one again. */
  lemma AllFreeIsInitial(s: Heap, ht: map<nat, nat>)
    requires Inv(s, ht) && Live(s) == map[]
    ensures s.len >= HEADER && s == Initial(s.buf, s.len)
  {
    assert BlockOk(s, s.buf) && GapOk(s, s.buf) && LinkOk(s, ht, s.buf);
    var n := s.hdrs[s.buf].next;
    assert s.buf !in Live(s) && n !in Live(s);
    forall q | q in s.hdrs ensures q == s.buf {
      assert BlockOk(s, q);
      if q != s.buf { Apart(s, s.buf, q); }
    }
    var f := s.firstFree;
    if f == 0 { HeadTop(s, ht, s.buf); }
    assert f == s.buf;
    assert s.hdrs == Initial(s.buf, s.len).hdrs;
  }

  /** Byte `a` lies under one of the headers. */
  ghost predicate UnderHeader(keys: set<nat>, a: nat) { exists p :: p in keys && p <= a < p + HEADER }

  /** The two memories agree on every byte that is not under one of the headers `keys`. */
  ghost predicate SameBut(m: seq<byte>, m': seq<byte>, keys: set<nat>) {
    |m| == |m'| && forall a: nat :: a < |m| && !UnderHeader(keys, a) ==> m'[a] == m[a]
  }

  lemma PayloadIsNotHeader(s: Heap, p: nat, a: nat)
    requires ChainOk(s) && p in s.hdrs && p + HEADER <= a < End(s, p)
    ensures !UnderHeader(s.hdrs.Keys, a)
  {
    forall q | q in s.hdrs.Keys ensures !(q <= a < q + HEADER) {
      assert BlockOk(s, q);
      if p < q { Apart(s, p, q); } else if q < p { Apart(s, q, p); }
    }
  }

  /** A call that writes only under the headers it starts or ends with, and inside the block it hands
      out (0 when none), leaves every payload that stays live untouched. */
  lemma PayloadUntouched(s: Heap, s': Heap, m: seq<byte>, m': seq<byte>, out: nat, p: nat, a: nat)
    requires ChainOk(s) && ChainOk(s') && |m| == |m'| == WORD
    requires p in Live(s) && p in Live(s') && Live(s')[p] == Live(s)[p] && p != out
    requires p + HEADER <= a < p + HEADER + Live(s)[p]
    requires out in Live(s') || out == 0
    requires forall b: nat ::
      (b < WORD && !UnderHeader(s.hdrs.Keys + s'.hdrs.Keys, b)
       && (out == 0 || b < out + HEADER || b >= out + HEADER + Live(s')[out])) ==> m'[b] == m[b]
    ensures a < WORD && m'[a] == m[a]
  {
    LiveIsSound(s, p, p);
    PayloadIsNotHeader(s, p, a);
    PayloadIsNotHeader(s', p, a);
    if out != 0 { LiveIsSound(s', p, out); LiveIsSound(s', out, p); }
    assert !UnderHeader(s.hdrs.Keys + s'.hdrs.Keys, a);
  }

  // ---------------------------------------------------------------- runs

  datatype Op = Alloc(n: nat, size: nat) | Dealloc(p: nat)

  datatype Run = Run(s: Heap, ht: map<nat, nat>)

  /** free is only given pointers that calloc returned and that are still live. */
  ghost predicate Allowed(s: Heap, op: Op) {
    match op
    case Alloc(n, size) => n < WORD && size < WORD
    case Dealloc(p) => p in Live(s)
  }

  ghost function After(r: Run, op: Op): Run
    requires Inv(r.s, r.ht) && Allowed(r.s, op)
  {
    match op
    case Alloc(n, size) => var c := Calloc(r.s, r.ht, n, size); Run(c.0, c.1)
    case Dealloc(p) => var c := FreeBlock(r.s, r.ht, p); Run(c.0, c.1)
  }

  ghost predicate AllowedRun(r: Run, ops: seq<Op>)
    requires Inv(r.s, r.ht)
    decreases |ops|
  {
    ops == [] || (Allowed(r.s, ops[0]) && AllowedRun(After(r, ops[0]), ops[1..]))
  }

  ghost function Final(r: Run, ops: seq<Op>): (f: Run)
    requires Inv(r.s, r.ht) && AllowedRun(r, ops)
    ensures Inv(f.s, f.ht) && f.s.buf == r.s.buf && f.s.len == r.s.len
    decreases |ops|
  {
    if ops == [] then r else Final(After(r, ops[0]), ops[1..])
  }

  /** In every run of calloc and valid frees from the initial heap the invariant holds, and freeing
      everything, in whatever order, gives back the initial heap. */
  lemma RunsRestoreTheHeap(buf: nat, len: nat, ops: seq<Op>)
    requires 0 < buf && buf % ALIGN == 0 && len > HEADER && buf + len <= WORD
    ensures Inv(Initial(buf, len), map[buf := 0])
    ensures var start := Run(Initial(buf, len), map[buf := 0]);
      AllowedRun(start, ops) ==>
        && Inv(Final(start, ops).s, Final(start, ops).ht)
        && (Live(Final(start, ops).s) == map[] <==> Final(start, ops).s == Initial(buf, len))
  {
    InitialInv(buf, len);
    var start := Run(Initial(buf, len), map[buf := 0]);
    if AllowedRun(start, ops) {
      var f := Final(start, ops);
      if Live(f.s) == map[] { AllFreeIsInitial(f.s, f.ht); }
    }
  }
}
