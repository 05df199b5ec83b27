/** The order of the free list, which decides where first fit looks first: what calloc and free do to the
    list as a sequence of addresses. */
module HeapOrder {
  import opened LittleEndian
  import opened HeapModel
  import opened HeapTheorems

  /** The free list, from first_free on, is `l`. */
  ghost predicate Listed(s: Heap, l: seq<nat>) {
    IsList(s, l) && 0 !in l && s.firstFree == if l == [] then 0 else l[0]
  }

  lemma {:induction false} SameFrom(s: Heap, l: seq<nat>, m: seq<nat>, k: nat)
    requires Listed(s, l) && Listed(s, m) && k <= |l|
    ensures k <= |m| && l[..k] == m[..k]
  {
    if k > 0 {
      SameFrom(s, l, m, k - 1);
      if k > 1 {
        assert InPlace(s, l, k - 2) && InPlace(s, m, k - 2);
        assert l[..k - 1][k - 2] == m[..k - 1][k - 2];
      }
      assert l[..k] == l[..k - 1] + [l[k - 1]];
    }
  }

  /** A heap has one free list. */
  lemma ListedOnce(s: Heap, l: seq<nat>, m: seq<nat>)
    requires Listed(s, l) && Listed(s, m)
    ensures l == m
  {
    SameFrom(s, l, m, |l|);
    SameFrom(s, m, l, |m|);
    assert l[..|l|] == l && m[..|m|] == m;
  }

  /** Everything on the list is free. */
  lemma {:induction false} ListedFree(s: Heap, ht: map<nat, nat>, l: seq<nat>, k: nat)
    requires ChainOk(s) && ListOk(s, ht) && Listed(s, l) && k < |l|
    ensures Free(s, l[k])
  {
    assert InPlace(s, l, k);
    if k > 0 {
      ListedFree(s, ht, l, k - 1);
      assert InPlace(s, l, k - 1) && LinkOk(s, ht, l[k - 1]);
    }
  }

  /** The list of an intact heap holds every free block. */
  lemma ListedAll(s: Heap, ht: map<nat, nat>, l: seq<nat>, p: nat)
    requires Inv(s, ht) && Listed(s, l) && Free(s, p)
    ensures p in l
  {
    var m := FreeListIsExact(s, ht);
    forall q | q in m ensures q != 0 { assert BlockOk(s, q); }
    ListedOnce(s, l, m);
  }

  function Without(l: seq<nat>, i: nat): seq<nat> requires i < |l| { l[..i] + l[i + 1..] }

  /** From `s` to `r` the links of the list members change as if element i had been taken out. */
  lemma Removed(s: Heap, r: Heap, l: seq<nat>, i: nat)
    requires Listed(s, l) && i < |l| && forall k :: 0 <= k < |l| ==> l[k] in s.hdrs
    requires r.firstFree == if i == 0 then s.hdrs[l[0]].nextFree else s.firstFree
    requires forall k {:trigger l[k]} :: 0 <= k < |l| && k != i ==> l[k] in r.hdrs
    requires forall k {:trigger l[k]} :: 0 <= k < |l| && k != i ==>
      r.hdrs[l[k]].nextFree == if k + 1 == i then s.hdrs[l[i]].nextFree else s.hdrs[l[k]].nextFree
    requires forall k {:trigger l[k]} :: 0 <= k < |l| && k != i ==>
      r.hdrs[l[k]].prevFree == if k == i + 1 then s.hdrs[l[i]].prevFree else s.hdrs[l[k]].prevFree
    ensures Listed(r, Without(l, i))
  {
    var m := Without(l, i);
    assert InPlace(s, l, i);
    forall k {:trigger InPlace(r, m, k)} | 0 <= k < |m| ensures InPlace(r, m, k) {
      var k' := if k < i then k else k + 1;
      assert InPlace(s, l, k') && m[k] == l[k'];
    }
  }

  /** The same with element i replaced by a block that takes over its links. */
  lemma Replaced(s: Heap, r: Heap, l: seq<nat>, i: nat, x: nat)
    requires Listed(s, l) && i < |l| && x != 0 && x !in l && x in r.hdrs
    requires forall k :: 0 <= k < |l| ==> l[k] in s.hdrs
    requires r.hdrs[x].nextFree == s.hdrs[l[i]].nextFree && (i > 0 ==> r.hdrs[x].prevFree == s.hdrs[l[i]].prevFree)
    requires r.firstFree == if i == 0 then x else s.firstFree
    requires forall k {:trigger l[k]} :: 0 <= k < |l| && k != i ==> l[k] in r.hdrs
    requires forall k {:trigger l[k]} :: 0 <= k < |l| && k != i ==>
      r.hdrs[l[k]].nextFree == if k + 1 == i then x else s.hdrs[l[k]].nextFree
    requires forall k {:trigger l[k]} :: 0 <= k < |l| && k != i ==>
      r.hdrs[l[k]].prevFree == if k == i + 1 then x else s.hdrs[l[k]].prevFree
    ensures Listed(r, l[i := x])
  {
    var m := l[i := x];
    forall k {:trigger InPlace(r, m, k)} | 0 <= k < |m| ensures InPlace(r, m, k) {
      assert InPlace(s, l, k);
    }
  }

  /** Where the list neighbours of element i stand. */
  lemma Neighbours(s: Heap, ht: map<nat, nat>, l: seq<nat>, i: nat, k: nat)
    requires Listed(s, l) && i < |l| && k < |l| && k != i && Free(s, l[i]) && LinkOk(s, ht, l[i])
    ensures l[k] in s.hdrs && l[k] != 0 && l[k] != l[i]
    ensures l[k] == s.hdrs[l[i]].nextFree <==> k == i + 1
    ensures l[k] == s.hdrs[l[i]].prevFree <==> k + 1 == i
  {
    First(s, ht, l, i);
    assert InPlace(s, l, i) && InPlace(s, l, k);
  }

  lemma First(s: Heap, ht: map<nat, nat>, l: seq<nat>, i: nat)
    requires Listed(s, l) && i < |l| && Free(s, l[i]) && LinkOk(s, ht, l[i])
    ensures s.hdrs[l[i]].prevFree == 0 <==> i == 0
  {
    assert InPlace(s, l, i);
  }

  // ---------------------------------------------------------------- calloc

  /** Handing out a whole block takes it off the list. */
  lemma TakeListed(s: Heap, ht: map<nat, nat>, l: seq<nat>, i: nat)
    requires Inv(s, ht) && Listed(s, l) && i < |l| && Free(s, l[i]) && LinkOk(s, ht, l[i])
    ensures Listed(Take(s, l[i]), Without(l, i))
  {
    var r := Take(s, l[i]);
    TakeShape(s, l[i], l[i]);
    forall k | 0 <= k < |l| ensures l[k] in s.hdrs { assert InPlace(s, l, k); }
    forall k | 0 <= k < |l| && k != i
      ensures l[k] in r.hdrs
      ensures r.hdrs[l[k]].nextFree == if k + 1 == i then s.hdrs[l[i]].nextFree else s.hdrs[l[k]].nextFree
      ensures r.hdrs[l[k]].prevFree == if k == i + 1 then s.hdrs[l[i]].prevFree else s.hdrs[l[k]].prevFree
    {
      TakeShape(s, l[i], l[k]);
      Neighbours(s, ht, l, i, k);
    }
    First(s, ht, l, i);
    Removed(s, r, l, i);
  }

  /** Cutting a block leaves the remainder in its place on the list. */
  lemma SplitListed(s: Heap, ht: map<nat, nat>, l: seq<nat>, i: nat, len: nat)
    requires Inv(s, ht) && Listed(s, l) && i < |l| && Free(s, l[i]) && BlockOk(s, l[i]) && LinkOk(s, ht, l[i])
    requires s.hdrs[l[i]].size >= len + HEADER
    ensures Listed(Split(s, l[i], len), l[i := l[i] + HEADER + len])
  {
    var r, n := Split(s, l[i], len), l[i] + HEADER + len;
    SplitShape(s, ht, l[i], len, l[i]);
    forall k | 0 <= k < |l| ensures l[k] in s.hdrs { assert InPlace(s, l, k); }
    forall k | 0 <= k < |l| && k != i
      ensures l[k] in r.hdrs
      ensures r.hdrs[l[k]].nextFree == if k + 1 == i then n else s.hdrs[l[k]].nextFree
      ensures r.hdrs[l[k]].prevFree == if k == i + 1 then n else s.hdrs[l[k]].prevFree
    {
      SplitShape(s, ht, l[i], len, l[k]);
      Neighbours(s, ht, l, i, k);
    }
    First(s, ht, l, i);
    Replaced(s, r, l, i, n);
  }

  /** The search meets the list in order. */
  lemma {:induction false} FindIndex(s: Heap, ht: map<nat, nat>, l: seq<nat>, len: nat, i: nat)
    requires Inv(s, ht) && Listed(s, l) && i < |l| && Free(s, l[i])
    ensures var p := Find(s, ht, l[i], len);
      if p == 0 then forall k :: i <= k < |l| ==> l[k] in s.hdrs && s.hdrs[l[k]].size < len
      else exists j: nat :: FirstFit(s, l, len, i, j) && l[j] == p
    decreases |l| - i
  {
    var p := Find(s, ht, l[i], len);
    assert InPlace(s, l, i);
    if s.hdrs[l[i]].size >= len {
      assert FirstFit(s, l, len, i, i);
    } else if i + 1 < |l| {
      ListedFree(s, ht, l, i + 1);
      FindIndex(s, ht, l, len, i + 1);
      if p != 0 {
        var j: nat :| FirstFit(s, l, len, i + 1, j) && l[j] == p;
        assert FirstFit(s, l, len, i, j);
      }
    }
  }

  /** From place i on, j is the first whose block has `len` bytes. */
  ghost predicate FirstFit(s: Heap, l: seq<nat>, len: nat, i: nat, j: nat) {
    && i <= j < |l| && l[j] in s.hdrs && s.hdrs[l[j]].size >= len
    && forall k :: i <= k < j ==> l[k] in s.hdrs && s.hdrs[l[k]].size < len
  }

  /** calloc takes the first block on the list that is long enough; the list then has the remainder in its
      place, or one block less. */
  lemma CallocOrder(s: Heap, ht: map<nat, nat>, l: seq<nat>, n: nat, size: nat) returns (j: nat)
    requires Inv(s, ht) && Listed(s, l) && n < WORD && size < WORD && Calloc(s, ht, n, size).2 != 0
    ensures var (r, _, ptr) := Calloc(s, ht, n, size); var len := RoundUp(n * size);
      && FirstFit(s, l, len, 0, j) && ptr == l[j] + HEADER
      && Listed(r, if s.hdrs[l[j]].size >= len + HEADER + ALIGN then l[j := ptr + len] else Without(l, j))
  {
    RequestIsExact(n, size);
    j := ProvideOrder(s, ht, l, n * size);
  }

  lemma ProvideOrder(s: Heap, ht: map<nat, nat>, l: seq<nat>, want: nat) returns (j: nat)
    requires Inv(s, ht) && Listed(s, l) && want > 0 && Provide(s, ht, want).2 != 0
    ensures var (r, _, ptr) := Provide(s, ht, want); var len := RoundUp(want);
      && FirstFit(s, l, len, 0, j) && ptr == l[j] + HEADER
      && Listed(r, if s.hdrs[l[j]].size >= len + HEADER + ALIGN then l[j := ptr + len] else Without(l, j))
  {
    var len := RoundUp(want);
    var p := Find(s, ht, s.firstFree, len);
    ListedFree(s, ht, l, 0);
    FindIndex(s, ht, l, len, 0);
    j :| FirstFit(s, l, len, 0, j) && l[j] == p;
    assert BlockOk(s, p) && LinkOk(s, ht, p);
    if s.hdrs[p].size >= len + HEADER + ALIGN {
      assert Provide(s, ht, want).0 == Split(s, p, len);
      SplitListed(s, ht, l, j, len);
    } else {
      assert Provide(s, ht, want).0 == Take(s, p);
      TakeListed(s, ht, l, j);
    }
  }

  // ---------------------------------------------------------------- free

  /** Before it is regrouped the freed block is on no list. */
  lemma ReleaseListed(s: Heap, ht: map<nat, nat>, l: seq<nat>, p: nat)
    requires Inv(s, ht) && Listed(s, l) && p in s.hdrs && s.hdrs[p].alloc != 0
    ensures Listed(Release(s, p), l) && p !in l
  {
    forall k | 0 <= k < |l| ensures l[k] != p { ListedFree(s, ht, l, k); }
    var r := Release(s, p);
    forall k {:trigger InPlace(r, l, k)} | 0 <= k < |l| ensures InPlace(r, l, k) { assert InPlace(s, l, k); }
  }

  lemma MergeListed(s: Heap, l: seq<nat>, p: nat)
    requires ChainOk(s) && p in s.hdrs && BlockOk(s, p) && s.hdrs[p].prev in s.hdrs && Listed(s, l) && p !in l
    ensures Listed(MergePrev(s, p), l)
  {
    var r := MergePrev(s, p);
    forall k {:trigger InPlace(r, l, k)} | 0 <= k < |l| ensures InPlace(r, l, k) {
      assert InPlace(s, l, k);
      MergePrevShape(s, p, l[k]);
    }
  }

  lemma UnlinkListed(s: Heap, ht: map<nat, nat>, l: seq<nat>, i: nat)
    requires ChainOk(s) && ListOk(s, ht) && Listed(s, l) && i < |l| && Free(s, l[i]) && LinkOk(s, ht, l[i])
    ensures Listed(Unlink(s, l[i]), Without(l, i))
  {
    var r := Unlink(s, l[i]);
    UnlinkShape(s, ht, l[i], l[i]);
    forall k | 0 <= k < |l| ensures l[k] in s.hdrs { assert InPlace(s, l, k); }
    forall k | 0 <= k < |l| && k != i
      ensures l[k] in r.hdrs
      ensures r.hdrs[l[k]].nextFree == if k + 1 == i then s.hdrs[l[i]].nextFree else s.hdrs[l[k]].nextFree
      ensures r.hdrs[l[k]].prevFree == if k == i + 1 then s.hdrs[l[i]].prevFree else s.hdrs[l[k]].prevFree
    {
      UnlinkShape(s, ht, l[i], l[k]);
      Neighbours(s, ht, l, i, k);
    }
    First(s, ht, l, i);
    Removed(s, r, l, i);
  }

  lemma PrependListed(s: Heap, l: seq<nat>, p: nat)
    requires Listed(s, l) && p in s.hdrs && p != 0 && p !in l && (s.firstFree != 0 ==> s.firstFree in s.hdrs)
    ensures Listed(Prepend(s, p), [p] + l)
  {
    var r, m := Prepend(s, p), [p] + l;
    forall k {:trigger InPlace(r, m, k)} | 0 <= k < |m| ensures InPlace(r, m, k) {
      if k > 0 { assert InPlace(s, l, k - 1); }
    }
  }

  /** The merged block takes the list place of the one behind it. */
  lemma AbsorbListed(s: Heap, ht: map<nat, nat>, l: seq<nat>, i: nat, x: nat)
    requires CanAbsorb(s, ht, x) && Listed(s, l) && i < |l| && l[i] == s.hdrs[x].next && x !in l
    ensures Listed(Absorb(s, x), l[i := x])
  {
    var r := Absorb(s, x);
    AbsorbShape(s, ht, x, x);
    forall k | 0 <= k < |l| ensures l[k] in s.hdrs { assert InPlace(s, l, k); }
    forall k | 0 <= k < |l| && k != i
      ensures l[k] in r.hdrs
      ensures r.hdrs[l[k]].nextFree == if k + 1 == i then x else s.hdrs[l[k]].nextFree
      ensures r.hdrs[l[k]].prevFree == if k == i + 1 then x else s.hdrs[l[k]].prevFree
    {
      AbsorbShape(s, ht, x, l[k]);
      Neighbours(s, ht, l, i, k);
    }
    First(s, ht, l, i);
    Replaced(s, r, l, i, x);
  }

  /** The free neighbours of block `p` in address order; 0 where there is none. */
  ghost function FreeBefore(s: Heap, p: nat): nat
    requires p in s.hdrs
  {
    if Free(s, s.hdrs[p].prev) then s.hdrs[p].prev else 0
  }

  ghost function FreeBehind(s: Heap, p: nat): nat
    requires p in s.hdrs
  {
    if Free(s, s.hdrs[p].next) then s.hdrs[p].next else 0
  }

  ghost predicate At(l: seq<nat>, i: nat, x: nat) { i < |l| && l[i] == x }

  /** What free does to the list: a block with no free neighbour comes first; one merged with the block before
      it stays in that block's place; one merged with the block behind it takes over that block's place, and
      one merged with both gives up the place of the block before. */
  ghost predicate Relisted(s: Heap, p: nat, l: seq<nat>, m: seq<nat>)
    requires p in s.hdrs
  {
    var b, y := FreeBefore(s, p), FreeBehind(s, p);
    if b == 0 && y == 0 then m == [p] + l
    else if y == 0 then b in l && m == l
    else if b == 0 then exists i: nat :: At(l, i, y) && m == l[i := p]
    else exists i: nat, j: nat :: At(l, i, b) && At(Without(l, i), j, y) && m == Without(l, i)[j := b]
  }

  lemma Index(l: seq<nat>, x: nat) returns (i: nat)
    requires x in l
    ensures At(l, i, x)
  {
    i :| 0 <= i < |l| && l[i] == x;
  }

  lemma FreeAlone(s: Heap, ht: map<nat, nat>, l: seq<nat>, p: nat) returns (m: seq<nat>)
    requires Inv(s, ht) && Listed(s, l) && p in s.hdrs && s.hdrs[p].alloc != 0 && FreeBefore(s, p) == 0
    ensures Listed(FreeBlock(s, ht, p).0, m) && Relisted(s, p, l, m)
  {
    assert BlockOk(s, p) && LinkOk(s, ht, p);
    ReleaseDetaches(s, ht, p);
    ReleaseListed(s, ht, l, p);
    var s0 := Release(s, p);
    assert BlockOk(s0, p);
    var y := s.hdrs[p].next;
    if Free(s, y) {
      AbsorbAlone(s0, ht, p);
      ListedAll(s, ht, l, y);
      var i := Index(l, y);
      AbsorbListed(s0, ht, l, i, p);
      m := l[i := p];
      assert At(l, i, FreeBehind(s, p));
    } else {
      PrependListed(s0, l, p);
      m := [p] + l;
    }
  }

  lemma FreeMerged(s: Heap, ht: map<nat, nat>, l: seq<nat>, p: nat) returns (m: seq<nat>)
    requires Inv(s, ht) && Listed(s, l) && p in s.hdrs && s.hdrs[p].alloc != 0 && FreeBefore(s, p) != 0
    ensures Listed(FreeBlock(s, ht, p).0, m) && Relisted(s, p, l, m)
  {
    assert BlockOk(s, p) && LinkOk(s, ht, p);
    ReleaseDetaches(s, ht, p);
    ReleaseListed(s, ht, l, p);
    var s0, b, y := Release(s, p), s.hdrs[p].prev, s.hdrs[p].next;
    assert BlockOk(s0, p);
    MergePrevKeeps(s0, ht, p);
    MergeListed(s0, l, p);
    MergePrevShape(s0, p, y);
    var s1 := MergePrev(s0, p);
    assert BlockOk(s1, b);
    ListedAll(s, ht, l, b);
    m := l;
    if Free(s, y) {
      ListedAll(s, ht, l, y);
      m := FreeBoth(s1, ht, l, b);
    }
  }

  lemma FreeBoth(s: Heap, ht: map<nat, nat>, l: seq<nat>, b: nat) returns (m: seq<nat>)
    requires ChainOk(s) && ListOk(s, ht) && Free(s, b) && GapsExcept(s, b) && Free(s, s.hdrs[b].next)
    requires Listed(s, l) && b in l && s.hdrs[b].next in l
    ensures LinkOk(s, ht, b) && CanAbsorb(Unlink(s, b), ht, b) && Listed(Absorb(Unlink(s, b), b), m)
    ensures exists i: nat, j: nat :: At(l, i, b) && At(Without(l, i), j, s.hdrs[b].next) && m == Without(l, i)[j := b]
  {
    var y := s.hdrs[b].next;
    UnlinkBeforeAbsorb(s, ht, b);
    var i := Index(l, b);
    UnlinkListed(s, ht, l, i);
    var k := Index(l, y);
    var j := if k < i then k else k - 1;
    assert At(Without(l, i), j, y);
    AbsorbListed(Unlink(s, b), ht, Without(l, i), j, b);
    m := Without(l, i)[j := b];
  }

  /** The list after free, whatever the neighbours of the block. */
  lemma FreeOrder(s: Heap, ht: map<nat, nat>, l: seq<nat>, p: nat) returns (m: seq<nat>)
    requires Inv(s, ht) && Listed(s, l) && p in s.hdrs && s.hdrs[p].alloc != 0
    ensures Listed(FreeBlock(s, ht, p).0, m) && Relisted(s, p, l, m)
  {
    if FreeBefore(s, p) == 0 { m := FreeAlone(s, ht, l, p); } else { m := FreeMerged(s, ht, l, p); }
  }
}
