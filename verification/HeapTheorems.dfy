/** Facts about whole allocator operations that follow from what each step does to the layout. */
module HeapTheorems {
  import opened Lists
  import opened BlockMap
  import opened Partition
  import opened HeapSpec

  /** The blocks met by stepping from x to the end of the heap. */
  ghost function Walk(bm: Blocks, brk: int, x: int): seq<int>
    requires Tiling(SPACE, bm, brk) && (x in bm || x == brk)
    decreases brk - x
  {
    if x == brk then []
    else
      assert SizeOk(SPACE, bm, brk, x) && NextOk(bm, brk, x);
      [x] + Walk(bm, brk, End(bm, x))
  }

  ghost function TotalSize(bm: Blocks, xs: seq<int>): int
  {
    if xs == [] then 0 else (if xs[0] in bm then bm[xs[0]].size else 0) + TotalSize(bm, xs[1..])
  }

  lemma {:induction false} WalkFrom(bm: Blocks, brk: int, x: int)
    requires Tiling(SPACE, bm, brk) && (x in bm || x == brk)
    ensures forall y :: y in Walk(bm, brk, x) <==> y in bm && x <= y
    ensures Distinct(Walk(bm, brk, x))
    ensures TotalSize(bm, Walk(bm, brk, x)) == brk - x
    decreases brk - x
  {
    if x == brk {
      forall y | y in bm
        ensures y < x
      {
        assert SizeOk(SPACE, bm, brk, y);
      }
    } else {
      assert SizeOk(SPACE, bm, brk, x) && NextOk(bm, brk, x);
      WalkFrom(bm, brk, End(bm, x));
      var w := Walk(bm, brk, End(bm, x));
      assert Walk(bm, brk, x)[1..] == w;
      forall y | y in bm && x <= y
        ensures y == x || End(bm, x) <= y
      {
      }
      forall i, j | 0 <= i < j < |[x] + w|
        ensures ([x] + w)[i] != ([x] + w)[j]
      {
        assert ([x] + w)[j] == w[j - 1] && w[j - 1] in w;
      }
    }
  }

  /** The blocks tile the heap: stepping through them from the first visits every block once, and
      their sizes add up to the heap size less the 32 bytes of prologue and epilogue. */
  lemma BlocksTileHeap(bm: Blocks, brk: int)
    requires Tiling(SPACE, bm, brk)
    ensures FIRST in bm || FIRST == brk
    ensures var w := Walk(bm, brk, FIRST);
      Distinct(w) && (forall y :: y in w <==> y in bm) && TotalSize(bm, w) == brk - FIRST
  {
    WalkFrom(bm, brk, FIRST);
    forall y | y in bm
      ensures FIRST <= y
    {
      assert SizeOk(SPACE, bm, brk, y);
    }
  }

  /** First fit finds a free block exactly when the heap has one that is large enough. */
  lemma FitExists(l: Layout, a: int)
    requires WellFormed(l)
    ensures FirstFit(l.blocks, l.freeList, a) != 0 <==> exists y :: FreeAt(l.blocks, y) && a <= l.blocks[y].size
    ensures FirstFit(l.blocks, l.freeList, a) != 0 ==>
      FreeAt(l.blocks, FirstFit(l.blocks, l.freeList, a)) && a <= l.blocks[FirstFit(l.blocks, l.freeList, a)].size
  {
    forall y | y in l.freeList
      ensures y in l.blocks && y != 0
    {
      assert SizeOk(SPACE, l.blocks, l.brk, y);
    }
    var _ := FirstFitFound(l.blocks, l.freeList, a);
    if FirstFit(l.blocks, l.freeList, a) != 0 {
      assert FreeAt(l.blocks, FirstFit(l.blocks, l.freeList, a));
    }
  }

  /** An allocation succeeds exactly when a free block is large enough or the heap can grow by the
      block size or by 4096 bytes, whichever is more; it grows, by that much, only in the second case. */
  lemma MallocGrowth(l: Layout, cap: int, a: int)
    requires WellFormed(l) && a % 8 == 0 && MIN_BLOCK <= a
    ensures var fit := exists y :: FreeAt(l.blocks, y) && a <= l.blocks[y].size; var more := if a > 4096 then a else 4096;
      && (CanMalloc(l, cap, a) <==> fit || l.brk + more <= cap)
      && MallocFrom(l, a).brk == if fit then l.brk else l.brk + more
  {
    FitExists(l, a);
  }

  /** When some listed block is large enough, the first such is the answer and the heap stays. */
  lemma MallocTakesFirst(l: Layout, a: int, k: int)
    requires WellFormed(l) && a % 8 == 0 && FirstLarge(l.blocks, l.freeList, a, k)
    ensures MallocAt(l, a) == l.freeList[k] && MallocFrom(l, a) == l
  {
    FitExists(l, a);
    forall y | y in l.freeList
      ensures y in l.blocks && y != 0
    {
      assert SizeOk(SPACE, l.blocks, l.brk, y);
    }
    var _ := FirstFitFound(l.blocks, l.freeList, a);
  }

  /** What placing a bytes in a block of c bytes leaves: above 24 bytes of remainder exactly a bytes are
      taken and the remainder heads the list, otherwise all c; no other block changes. */
  lemma PlaceExact(l: Layout, x: int, a: int)
    requires WellFormed(l) && FreeAt(l.blocks, x) && a % 8 == 0 && MIN_BLOCK <= a <= l.blocks[x].size
    ensures var c := l.blocks[x].size; var r := PlaceAt(l, x, a);
      && r.brk == l.brk && x in r.blocks && !r.blocks[x].free
      && (c - a > 24 ==>
            && r.blocks[x].size == a && x + a in r.blocks && r.blocks[x + a] == Block(c - a, true)
            && r.blocks.Keys == l.blocks.Keys + {x + a} && r.freeList == [x + a] + Without(l.freeList, x))
      && (c - a <= 24 ==> r.blocks[x].size == c && r.blocks.Keys == l.blocks.Keys && r.freeList == Without(l.freeList, x))
      && forall y :: y in l.blocks && y != x ==> r.blocks[y] == l.blocks[y]
  {
    SplitDisjoint(l.blocks, x, if Splits(l.blocks, x, a) then a else 1);
  }

  /** The block handed out was free, holds at least a bytes and wastes at most 24; the layout stays
      well formed. */
  lemma MallocResult(l: Layout, a: int)
    requires WellFormed(l) && a % 8 == 0 && MIN_BLOCK <= a
    ensures var x := MallocAt(l, a); var r := PlaceAt(MallocFrom(l, a), x, a);
      && FreeAt(MallocFrom(l, a).blocks, x)
      && x in r.blocks && !r.blocks[x].free && a <= r.blocks[x].size <= a + FSIZE
      && WellFormed(r)
  {
    hide WellFormed;
    FitExists(l, a);
    ExtendedFits(l, ExtendSize(a));
    PlaceWellFormed(MallocFrom(l, a), MallocAt(l, a), a);
  }

  lemma SplitWellFormed(l: Layout, x: int, a: int)
    requires WellFormed(l) && FreeAt(l.blocks, x) && a % 8 == 0 && MIN_BLOCK <= a <= l.blocks[x].size - MIN_BLOCK
    ensures WellFormed(l.(blocks := Split(l.blocks, x, a), freeList := [x + a] + Without(l.freeList, x)))
  {
    var s := Split(l.blocks, x, a);
    SplitTiling(l.blocks, l.brk, x, a);
    SplitAligned(l.blocks, x, a);
    SplitNeighbours(l.blocks, l.brk, x, a);
    WithoutMembers(l.freeList, x);
    BlockBefore(s, l.brk, x + a, x);
    CoalesceAlone(s, l.brk, Without(l.freeList, x), x + a);
    CoalesceWellFormed(l.(blocks := s, freeList := Without(l.freeList, x)), x + a);
  }

  lemma PlaceWellFormed(l: Layout, x: int, a: int)
    requires WellFormed(l) && FreeAt(l.blocks, x) && a % 8 == 0 && MIN_BLOCK <= a <= l.blocks[x].size
    ensures WellFormed(PlaceAt(l, x, a))
  {
    WithoutMembers(l.freeList, x);
    assert AlignedAt(l.blocks, x);
    if Splits(l.blocks, x, a) {
      SplitWellFormed(l, x, a);
    } else {
      MarkTiling(l.blocks, l.brk, x, false);
    }
  }

  /** Once the first part of a split block is free again, its run is the block it was cut from. */
  lemma SplitRun(l: Layout, x: int, a: int)
    requires WellFormed(l) && FreeAt(l.blocks, x) && a % 8 == 0 && MIN_BLOCK <= a <= l.blocks[x].size - MIN_BLOCK
    ensures var p := Mark(Split(l.blocks, x, a), x, true);
      && !FreeBefore(p, x) && RunStart(p, x) == x && FreeAfter(p, x) && End(p, x) == x + a && RunEnd(p, x) == End(l.blocks, x)
      && Coalesced(p, x) == l.blocks
  {
    var bm := l.blocks;
    var p := Mark(Split(bm, x, a), x, true);
    SplitDisjoint(bm, x, a);
    assert SizeOk(SPACE, bm, l.brk, x);
    assert FreeAfter(p, x) && RunEnd(p, x) == End(bm, x);
    forall y | y in p
      ensures !Precedes(p, y, x)
    {
      assert y in bm ==> End(bm, y) == x ==> !bm[y].free;
    }
    assert RunStart(p, x) == x;
    assert forall y :: y in Coalesced(p, x) <==> y in bm;
  }

  /** Freeing a block that was split off joins it with its remainder, which leaves the list. */
  lemma SplitThenFree(l: Layout, x: int, a: int)
    requires WellFormed(l) && FreeAt(l.blocks, x) && a % 8 == 0 && MIN_BLOCK <= a <= l.blocks[x].size - MIN_BLOCK
    ensures var p := Mark(Split(l.blocks, x, a), x, true);
      Coalesced(p, x) == l.blocks && CoalescedList(p, [x + a] + Without(l.freeList, x), x) == [x] + Without(l.freeList, x)
  {
    SplitRun(l, x, a);
    SplitDisjoint(l.blocks, x, a);
    WithoutMembers(l.freeList, x);
    var rest := Without(l.freeList, x);
    assert x + a !in rest;
    hide WellFormed, Split, Mark, FreeBefore, FreeAfter, RunStart, Coalesced, Without;
    HeadGone(x + a, rest);
  }

  lemma HeadGone(h: int, rest: seq<int>)
    requires Distinct(rest) && h !in rest
    ensures Without([h] + rest, h) == rest
  {
    var L := [h] + rest;
    assert L[0] == h && L[1..] == rest;
    WithoutAt(L, 0);
  }

  /** Freeing the block just placed gives back the partition there was before, whether or not the
      placement split it; the block is now the first of the list. */
  lemma PlaceThenFree(l: Layout, x: int, a: int)
    requires WellFormed(l) && FreeAt(l.blocks, x) && a % 8 == 0 && MIN_BLOCK <= a <= l.blocks[x].size
    ensures ReleaseAt(PlaceAt(l, x, a), x) == l.(freeList := [x] + Without(l.freeList, x))
  {
    if Splits(l.blocks, x, a) {
      SplitThenFree(l, x, a);
    } else {
      assert Mark(Mark(l.blocks, x, false), x, true) == l.blocks;
      LoneFreeBlock(l, x);
      CoalesceAlone(l.blocks, l.brk, Without(l.freeList, x), x);
    }
  }

  lemma LoneFreeBlock(l: Layout, x: int)
    requires WellFormed(l) && FreeAt(l.blocks, x)
    ensures Lone(l.blocks, x)
  {
    assert SizeOk(SPACE, l.blocks, l.brk, x);
  }

  /** mm_malloc followed by mm_free of its result, when block k of the list is the first that fits:
      partition and heap size are restored, and block k is moved to the front of the list.  So nothing
      has changed if and only if it was there before. */
  lemma MallocThenFree(l: Layout, a: int, k: int)
    requires WellFormed(l) && a % 8 == 0 && MIN_BLOCK <= a && FirstLarge(l.blocks, l.freeList, a, k)
    ensures var x := MallocAt(l, a); var r := ReleaseAt(PlaceAt(MallocFrom(l, a), x, a), x);
      && r.blocks == l.blocks && r.brk == l.brk
      && r.freeList == [l.freeList[k]] + (l.freeList[..k] + l.freeList[k + 1..])
      && (r == l <==> k == 0)
  {
    var x := l.freeList[k];
    assert x in l.freeList && FreeAt(l.blocks, x);
    MallocTakesFirst(l, a, k);
    PlaceThenFree(l, x, a);
    WithoutAt(l.freeList, k);
    hide WellFormed, FirstLarge, MallocAt, MallocFrom, PlaceAt, ReleaseAt, Without;
    ToFront(l.freeList, k);
  }

  lemma ToFront(fl: seq<int>, k: nat)
    requires k < |fl| && Distinct(fl)
    ensures [fl[k]] + (fl[..k] + fl[k + 1..]) == fl <==> k == 0
  {
    assert ([fl[k]] + (fl[..k] + fl[k + 1..]))[0] == fl[k];
  }
}
