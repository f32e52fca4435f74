/** The explicit-free-list allocator of sp_03_malloclab/src/mm-2014-17831.c over the bounded
    heap of memlib.c.  Addresses are byte offsets from the start of the heap, NULL is 0. */
module Allocator {
  import opened WordMemory
  import opened FreeChain
  import opened Lists
  import opened BlockMap
  import opened Partition
  import opened HeapSpec

  const SIZE_T_LIMIT := 0x1_0000_0000
  const INT_LIMIT := 0x8000_0000

  function AdjustedSize(size: int): int
    requires 0 <= size < SIZE_T_LIMIT
  {
    if size <= DSIZE then 2 * DSIZE
    else DSIZE * ((size + DSIZE + (DSIZE - 1)) % SIZE_T_LIMIT / DSIZE)
  }

  /** A size_t passed where a C int is expected. */
  function ToInt(u: int): int
  {
    if u < INT_LIMIT then u else u - SIZE_T_LIMIT
  }

  /** An even number of words keeps the heap aligned. */
  function EvenWords(words: int): (r: int)
    ensures words <= r <= words + 1 && r * 4 % 8 == 0
  {
    if words % 2 != 0 then words + 1 else words
  }

  function Max(x: int, y: int): int { if x > y then x else y }

  lemma WholeWords(size: int)
    requires size % 8 == 0
    ensures EvenWords(size / 4) * 4 == size
  {
    var q := size / 8;
    assert size == 4 * (2 * q) && size / 4 == 2 * q;
  }

  lemma AdjustedSizeBounds(size: int)
    requires 0 <= size && size + 15 < SIZE_T_LIMIT
    ensures AdjustedSize(size) % 8 == 0 && MIN_BLOCK <= AdjustedSize(size) < SIZE_T_LIMIT
    ensures size + DSIZE <= AdjustedSize(size)
  {
  }

  /** get_asize leaves room for the request exactly when size + 15 does not wrap around. */
  lemma AdjustedSizeExact(size: int)
    requires 0 <= size < SIZE_T_LIMIT
    ensures size + DSIZE <= AdjustedSize(size) <==> size + 15 < SIZE_T_LIMIT
    ensures size + 15 < SIZE_T_LIMIT ==>
      forall a :: a % 8 == 0 && MIN_BLOCK <= a && size + DSIZE <= a ==> AdjustedSize(size) <= a
    ensures size + 15 >= SIZE_T_LIMIT ==> AdjustedSize(size) < MIN_BLOCK
  {
  }

  class Heap {
    const mem: array<Word>
    var brk: int
    var freeListp: int

    ghost var blocks: Blocks
    ghost var freeList: seq<int>
    ghost var live: Contents

    /** The words of the heap by address. */
    ghost function View(): Memory
      reads mem
    {
      map p | 0 <= p < 4 * mem.Length && p % 4 == 0 :: mem[p / 4]
    }

    ghost predicate Bounded()
      reads this
    {
      4 * mem.Length < INT_LIMIT && freeListp == PROLOGUE && brk <= 4 * mem.Length
    }

    ghost predicate Internal(skip: int)
      reads this, mem
    {
      && Bounded()
      && Inv(View(), blocks, brk, freeList, live, skip)
    }

    ghost predicate Valid()
      reads this, mem
    {
      Internal(0) && AllLive(blocks, live)
    }

    constructor (words: nat)
      requires 4 * words < INT_LIMIT
      ensures brk == 0 && mem.Length == words && fresh(mem)
    {
      mem := new Word[words](_ => 0);
      brk, freeListp := 0, 0;
      blocks, freeList, live := map[], [], map[];
    }

    /** Live payloads are 8-aligned, inside the heap, and pairwise disjoint. */
    lemma LivePayloads()
      requires Valid()
      ensures forall p :: p in live ==> p % 8 == 0 && FIRST <= p && p + |live[p]| + 4 < brk
      ensures forall p, q :: p in live && q in live && p < q ==> p + |live[p]| < q
    {
      forall p | p in live
        ensures p % 8 == 0 && FIRST <= p && p + |live[p]| + 4 < brk
      {
        assert SizeOk(SPACE, blocks, brk, p) && AlignedAt(blocks, p);
      }
    }

    // ----- reading and writing words

    function Read(p: int): (w: Word)
      requires p in View()
      reads mem
      ensures w == Get(View(), p)
    {
      mem[p / 4]
    }

    method Put(p: int, w: Word)
      requires p in View()
      modifies mem
      ensures View().Keys == old(View()).Keys
      ensures forall q {:trigger Get(View(), q)} :: Get(View(), q) == if q == p then w else Get(old(View()), q)
    {
      mem[p / 4] := w;
    }

    // ----- the free list

    /** The pointer writes of remove_block. */
    method Unlink(bp: int, ghost L: seq<int>, ghost k: nat)
      requires Chain(View(), L) && 0 < k < |L| && L[k] == bp
      modifies mem
      ensures Unlinked(old(View()), View(), L, k)
    {
      assert NodeOk(View(), L, k) && NodeAddr(View(), L[k]) && NodeAddr(View(), L[k - 1]);
      if Read(bp) == 0 {
        Put(Read(bp + 4), 0);
        Put(Read(bp + 4), 0);
      } else {
        assert NodeAddr(View(), L[k + 1]);
        Put(Read(bp + 4), Read(bp));
        Put(Read(bp) + 4, Read(bp + 4));
      }
    }

    /** Unlinks bp. */
    method RemoveBlock(bp: int)
      requires Chain(View(), [PROLOGUE] + freeList) && bp in freeList
      requires forall y :: y in freeList ==> FreeAt(blocks, y)
      modifies this`freeList, mem
      ensures freeList == Without(old(freeList), bp) && forall y :: y in freeList ==> FreeAt(blocks, y)
      ensures Chain(View(), [PROLOGUE] + freeList)
      ensures Framed(old(View()), View(), blocks, 0, 0)
    {
      ghost var m, L, k := View(), [PROLOGUE] + freeList, IndexOf(freeList, bp) + 1;
      Unlink(bp, L, k);
      ChainWithout(m, View(), L, k);
      assert L[..k] + L[k + 1..] == [PROLOGUE] + Without(freeList, bp);
      freeList := Without(freeList, bp);
    }

    /** The search of insert_block.  It stops at the prologue for every block above it, so blocks
        are inserted first, not in address order. */
    method FindPlace(bp: int) returns (ptr: int)
      requires freeListp == PROLOGUE && PROLOGUE < 4 * mem.Length && 0 <= bp
      ensures PROLOGUE <= bp ==> ptr == PROLOGUE
    {
      ptr := freeListp;
      while Read(ptr) == 0 && bp < ptr
        invariant ptr == PROLOGUE || (ptr == 0 && bp < PROLOGUE)
        decreases ptr
      {
        ptr := Read(ptr);
      }
    }

    /** The pointer writes of insert_block. */
    method Link(bp: int, ptr: int, ghost L: seq<int>)
      requires 0 < |L| && ptr == L[0] != bp && NodeOk(View(), L, 0) && NodeAddr(View(), ptr)
      requires 1 < |L| ==> NodeAddr(View(), L[1]) && L[1] != ptr && L[1] != bp
      requires NodeAddr(View(), bp) && 4 * mem.Length < INT_LIMIT
      modifies mem
      ensures LinkedIn(old(View()), View(), L, bp)
    {
      assert 0 < bp < WORD_LIMIT && 0 < ptr < WORD_LIMIT;
      assert Get(View(), ptr) == if 1 < |L| then L[1] else 0;
      assert 1 < |L| ==> L[1] != 0 && L[1] + 4 in View();
      assert bp in View() && bp + 4 in View() && ptr in View() && ptr % 8 == bp % 8 == 0 && (1 < |L| ==> L[1] % 8 == 0);
      hide View, Read, NodeOk, NodeAddr;
      if Read(ptr) == 0 {
        Put(bp + 4, ptr);
        Put(bp, 0);
        Put(ptr, bp);
      } else {
        Put(bp + 4, ptr);
        Put(bp, Read(ptr));
        Put(Read(bp) + 4, bp);
        Put(ptr, bp);
      }
    }

    /** Links bp in right after the prologue. */
    method InsertBlock(bp: int)
      requires freeListp == PROLOGUE && Chain(View(), [PROLOGUE] + freeList)
      requires FreeAt(blocks, bp) && forall y :: y in freeList ==> FreeAt(blocks, y)
      requires bp !in freeList && NodeAddr(View(), bp) && PROLOGUE < bp && 4 * mem.Length < INT_LIMIT
      modifies this`freeList, mem
      ensures freeList == [bp] + old(freeList)
      ensures Chain(View(), [PROLOGUE] + freeList)
      ensures Framed(old(View()), View(), blocks, 0, 0)
    {
      ghost var m, L := View(), [PROLOGUE] + freeList;
      assert NodeOk(m, L, 0) && NodeAddr(m, L[0]);
      assert 1 < |L| ==> NodeAddr(m, L[1]);
      var ptr := FindPlace(bp);
      Link(bp, ptr, L);
      ChainWith(m, View(), L, bp);
      assert [L[0], bp] + L[1..] == [PROLOGUE] + ([bp] + freeList);
      freeList := [bp] + freeList;
    }

    // ----- block addresses

    function Ftrp(bp: int): int
      requires bp - 4 in View()
      reads mem
    {
      bp + GetSize(Read(bp - 4)) - DSIZE
    }

    function NextBlkp(bp: int): int
      requires bp - 4 in View()
      reads mem
    {
      bp + GetSize(Read(bp - 4))
    }

    function PrevBlkp(bp: int): int
      requires bp - DSIZE in View()
      reads mem
    {
      bp - GetSize(Read(bp - DSIZE))
    }

    // ----- coalescing

    ghost predicate FreeListOk()
      reads this, mem
    {
      && Chain(View(), [PROLOGUE] + freeList)
      && (forall y :: y in freeList ==> FreeAt(blocks, y))
    }

    /** A word that is no pointer may be overwritten without disturbing the free list. */
    method PutTag(p: int, w: Word)
      requires FreeListOk() && p in View() && !Pointer(blocks, p)
      modifies mem
      ensures FreeListOk()
      ensures View().Keys == old(View()).Keys
      ensures forall q {:trigger Get(View(), q)} :: Get(View(), q) == if q == p then w else Get(old(View()), q)
    {
      ghost var m, L := View(), [PROLOGUE] + freeList;
      Put(p, w);
      assert forall q :: IsLink(L, q) ==> Pointer(blocks, q);
      ChainKept(m, View(), L);
    }

    /** Case 2 of coalesce: the following block n is absorbed. */
    method MergeNext(bp: int, ghost n: int, ghost e: int)
      requires FreeListOk() && n in freeList && SurveyedAfter(View(), blocks, bp, n, e, true)
      modifies this`freeList, mem
      ensures FreeListOk() && freeList == Without(old(freeList), n)
      ensures Framed(old(View()), View(), blocks, bp, e)
      ensures Get(View(), bp - 4) == Get(View(), e - DSIZE) == e - bp
    {
      hide Chain, GetSize, GetAlloc, Pointer;
      var size := GetSize(Read(bp - 4)) + GetSize(Read(NextBlkp(bp) - 4));
      RemoveBlock(NextBlkp(bp));
      PutTag(bp - 4, size);
      PutTag(Ftrp(bp), size);
    }

    /** Case 3 of coalesce: bp is absorbed by the preceding block p. */
    method MergePrev(bp: int, ghost p: int, ghost e: int) returns (r: int)
      requires FreeListOk() && p in freeList
      requires SurveyedBefore(View(), blocks, bp, p, true) && SurveyedAfter(View(), blocks, bp, e, e, false)
      modifies this`freeList, mem
      ensures r == p && FreeListOk() && freeList == Without(old(freeList), p)
      ensures Framed(old(View()), View(), blocks, p, e)
      ensures Get(View(), p - 4) == Get(View(), e - DSIZE) == e - p
    {
      hide Chain, GetSize, GetAlloc, Pointer;
      var size := GetSize(Read(bp - 4)) + GetSize(Read(PrevBlkp(bp) - 4));
      RemoveBlock(PrevBlkp(bp));
      PutTag(Ftrp(bp), size);
      PutTag(PrevBlkp(bp) - 4, size);
      r := PrevBlkp(bp);
    }

    /** Case 4 of coalesce: p, bp and n become one block. */
    method MergeBoth(bp: int, ghost p: int, ghost n: int, ghost e: int) returns (r: int)
      requires FreeListOk() && n in freeList && p in Without(freeList, n)
      requires SurveyedBefore(View(), blocks, bp, p, true) && SurveyedAfter(View(), blocks, bp, n, e, true)
      modifies this`freeList, mem
      ensures r == p && FreeListOk() && freeList == Without(Without(old(freeList), n), p)
      ensures Framed(old(View()), View(), blocks, p, e)
      ensures Get(View(), p - 4) == Get(View(), e - DSIZE) == e - p
    {
      hide View, Read, Without, Chain, GetSize, GetAlloc, Pointer;
      var size := GetSize(Read(bp - 4)) + GetSize(Read(PrevBlkp(bp) - 4)) + GetSize(Read(Ftrp(NextBlkp(bp))));
      assert size == e - p;
      ghost var m := View();
      RemoveBlock(NextBlkp(bp));
      assert Get(View(), bp - DSIZE) == Get(m, bp - DSIZE);
      RemoveBlock(PrevBlkp(bp));
      assert Get(View(), bp - DSIZE) == Get(m, bp - DSIZE);
      assert Get(View(), bp - 4) == Get(m, bp - 4) && Get(View(), n - 4) == Get(m, n - 4);
      assert PrevBlkp(bp) == p;
      PutTag(PrevBlkp(bp) - 4, size);
      assert NextBlkp(bp) == n && Ftrp(n) == e - DSIZE;
      PutTag(Ftrp(NextBlkp(bp)), size);
      r := PrevBlkp(bp);
    }

    /** The case analysis of coalesce: neighbours leave the free list and the tags of the merged
        block are written. */
    method MergeCases(bp: int, ghost p: int, ghost n: int, ghost e: int, ghost before: bool, ghost after: bool) returns (r: int)
      requires FreeListOk()
      requires SurveyedBefore(View(), blocks, bp, p, before) && SurveyedAfter(View(), blocks, bp, n, e, after)
      requires !GetAlloc(Get(View(), n - DSIZE)) && Get(View(), bp - 4) == Get(View(), n - DSIZE) == n - bp
      requires after ==> n in freeList
      requires before ==> p in (if after then Without(freeList, n) else freeList)
      modifies this`freeList, mem
      ensures r == if before then p else bp
      ensures freeList == Remaining(old(freeList), before, p, after, n)
      ensures FreeListOk()
      ensures Framed(old(View()), View(), blocks, r, e)
      ensures Get(View(), r - 4) == Get(View(), e - DSIZE) == e - r
    {
      hide Chain;
      var prevAlloc := GetAlloc(Read(Ftrp(PrevBlkp(bp)))) || PrevBlkp(bp) == bp;
      var nextAlloc := GetAlloc(Read(NextBlkp(bp) - 4));
      assert prevAlloc == !before && nextAlloc == !after;
      r := bp;
      if prevAlloc && nextAlloc {
      } else if prevAlloc && !nextAlloc {
        MergeNext(bp, n, e);
      } else if !prevAlloc && nextAlloc {
        r := MergePrev(bp, p, e);
      } else {
        r := MergeBoth(bp, p, n, e);
      }
    }

    /** First half of coalesce: everything but linking the merged block r in. */
    method MergeAround(bp: int) returns (r: int)
      requires Internal(bp) && FreeAt(blocks, bp)
      modifies this`blocks, this`freeList, mem
      ensures Merged(View(), blocks, brk, freeList, live, r)
      ensures r == RunStart(old(blocks), bp)
      ensures blocks == Coalesced(old(blocks), bp)
      ensures [r] + freeList == CoalescedList(old(blocks), old(freeList), bp)
    {
      hide Chain, NoFreeNeighbours, LiveOk, Holds;
      ghost var m, fl := View(), freeList;
      ChainDistinct(m, fl);
      ghost var p := SurveyRun(m, blocks, brk, fl, bp);
      ghost var e := RunEnd(blocks, bp);
      r := MergeCases(bp, p, End(blocks, bp), e, FreeBefore(blocks, bp), FreeAfter(blocks, bp));
      assert r == RunStart(blocks, bp) && [r] + freeList == CoalescedList(blocks, fl, bp);
      AfterMerge(m, View(), blocks, brk, fl, freeList, live, bp, r, e);
      blocks := Coalesced(blocks, bp);
    }

    method InsertMerged(r: int)
      requires Bounded() && Merged(View(), blocks, brk, freeList, live, r)
      modifies this`freeList, mem
      ensures Internal(0)
      ensures freeList == [r] + old(freeList)
    {
      ghost var m, fl := View(), freeList;
      FreeNode(m, blocks, brk, r);
      InsertBlock(r);
      AfterInsert(m, View(), blocks, brk, fl, live, r);
    }

    /** coalesce: merges the free block bp, not yet on the free list, with its free neighbours. */
    method Coalesce(bp: int) returns (r: int)
      requires Internal(bp) && FreeAt(blocks, bp)
      modifies this`blocks, this`freeList, mem
      ensures Internal(0)
      ensures r == RunStart(old(blocks), bp)
      ensures blocks == Coalesced(old(blocks), bp)
      ensures freeList == CoalescedList(old(blocks), old(freeList), bp)
    {
      hide Inv;
      r := MergeAround(bp);
      InsertMerged(r);
    }

    // ----- releasing

    /** The tag writes of mm_free. */
    method MarkFree(ptr: int)
      requires Valid() && ptr in live
      modifies this`blocks, this`live, mem
      ensures Internal(ptr) && FreeAt(blocks, ptr) && AllLive(blocks, live)
      ensures blocks == Mark(old(blocks), ptr, true) && live == old(live) - {ptr}
    {
      ghost var m := View();
      PrepareTags(ptr);
      PutTags(ptr, GetSize(Read(ptr - 4)), 0);
      AfterFreeMark(m, View(), blocks, brk, freeList, live, ptr);
      blocks, live := Mark(blocks, ptr, true), live - {ptr};
    }

    lemma PrepareTags(x: int)
      requires Internal(0) && x in blocks
      ensures FreeListOk() && SizeOk(SPACE, blocks, brk, x)
      ensures SizeAt(View(), blocks, x - 4, blocks[x].size) && SizeAt(View(), blocks, End(blocks, x) - DSIZE, blocks[x].size)
      ensures blocks[x].size % 8 == 0
    {
      TagAddresses(View(), blocks, brk, x);
      TagWords(View(), blocks, brk, x);
      assert AlignedAt(blocks, x);
    }

    /** mm_free. */
    method Free(ptr: int)
      requires Valid() && ptr in live
      modifies this`blocks, this`freeList, this`live, mem
      ensures Valid()
      ensures blocks == Coalesced(Mark(old(blocks), ptr, true), ptr)
      ensures freeList == CoalescedList(Mark(old(blocks), ptr, true), old(freeList), ptr)
      ensures live == old(live) - {ptr}
    {
      MarkFree(ptr);
      CoalescedAllLive(blocks, live, ptr);
      var _ := Coalesce(ptr);
    }

    // ----- growing

    /** mem_sbrk. */
    method Sbrk(incr: int) returns (p: int)
      modifies this`brk
      ensures if 0 <= incr && old(brk) + incr <= 4 * mem.Length then p == old(brk) && brk == old(brk) + incr
              else p == -1 && brk == old(brk)
    {
      p := brk;
      if incr < 0 || brk + incr > 4 * mem.Length {
        return -1;
      }
      brk := brk + incr;
    }

    /** The tag writes of extend_heap, once mem_sbrk has moved brk from end. */
    method TagNewBlock(end: int, size: int)
      requires Bounded() && Inv(View(), blocks, end, freeList, live, 0)
      requires size % 8 == 0 && MIN_BLOCK <= size && end + size == brk
      modifies this`blocks, mem
      ensures Internal(end) && FreeAt(blocks, end) && blocks == Grown(old(blocks), end, size)
    {
      ghost var m := View();
      PrepareGrow(end, size);
      PutTags(end, size, 0);
      PutTag(NextBlkp(end) - 4, 1);
      AfterGrow(m, View(), blocks, end, freeList, live, size);
      blocks := Grown(blocks, end, size);
    }

    lemma PrepareGrow(end: int, size: int)
      requires Bounded() && Inv(View(), blocks, end, freeList, live, 0)
      requires size % 8 == 0 && MIN_BLOCK <= size && end + size == brk
      ensures FreeListOk()
      ensures TagWord(View(), blocks, end - 4) && TagWord(View(), blocks, brk - DSIZE) && TagWord(View(), blocks, brk - 4)
      ensures forall p {:trigger WordAddr(p)} :: WordAddr(p) && p < brk ==> p in View()
      ensures GetSize(size) == size
    {
      Multiple8(end, 0);
      Multiple8(end, size);
      Multiple8(brk, 0);
    }

    /** extend_heap: a new free block of the given number of words, rounded up to an even number,
        merged with a free last block.  Returns 0 and changes nothing if the heap is full. */
    method ExtendHeap(words: int) returns (bp: int)
      requires Internal(0) && 4 <= words < 0x4000_0000 - 1
      modifies this`brk, this`blocks, this`freeList, mem
      ensures Internal(0)
      ensures var size := EvenWords(words) * 4; var g := Grown(old(blocks), old(brk), size);
        if old(brk) + size <= 4 * mem.Length then
          && bp == RunStart(g, old(brk)) && brk == old(brk) + size
          && blocks == Coalesced(g, old(brk)) && freeList == CoalescedList(g, old(freeList), old(brk))
        else
          bp == 0 && brk == old(brk) && blocks == old(blocks) && freeList == old(freeList) && View() == old(View())
    {
      var size := EvenWords(words) * 4;
      bp := Sbrk(ToInt(size));
      if bp == -1 {
        return 0;
      }
      TagNewBlock(bp, size);
      bp := Coalesce(bp);
    }

    // ----- placing

    /** PUT(HDRP(bp), PACK(size, alloc)) and PUT(FTRP(bp), PACK(size, alloc)). */
    method PutTags(bp: int, size: int, alloc: int)
      requires FreeListOk() && 0 <= alloc <= 1 && size % 8 == 0 && MIN_BLOCK <= size < SIZE_T_LIMIT - 1
      requires TagWord(View(), blocks, bp - 4) && TagWord(View(), blocks, bp + size - DSIZE)
      modifies mem
      ensures FreeListOk() && Framed(old(View()), View(), blocks, bp, bp + size)
      ensures Get(View(), bp - 4) == Get(View(), bp + size - DSIZE) == size + alloc
    {
      PutTag(bp - 4, size + alloc);
      UnpackTag(size + alloc, Block(size, alloc == 0));
      PutTag(Ftrp(bp), size + alloc);
    }

    method CutWords(bp: int, csize: int, a: int)
      requires FreeListOk() && bp in freeList
      requires a % 8 == 0 && (csize - a) % 8 == 0 && MIN_BLOCK <= a <= csize - MIN_BLOCK && csize < SIZE_T_LIMIT - 1
      requires TagWord(View(), blocks, bp - 4) && TagWord(View(), blocks, bp + csize - DSIZE)
      requires TagWord(View(), blocks, bp + a - 4) && TagWord(View(), blocks, bp + a - DSIZE)
      modifies this`freeList, mem
      ensures FreeListOk() && freeList == Without(old(freeList), bp)
      ensures Framed(old(View()), View(), blocks, bp, bp + csize)
      ensures Get(View(), bp - 4) == Get(View(), bp + a - DSIZE) == a + 1
      ensures Get(View(), bp + a - 4) == Get(View(), bp + csize - DSIZE) == csize - a
    {
      PutTags(bp, a, 1);
      RemoveBlock(bp);
      UnpackTag(a + 1, Block(a, false));
      var rest := NextBlkp(bp);
      PutTags(rest, csize - a, 0);
    }

    /** place when it splits, up to the call of coalesce. */
    method CutBlock(bp: int, a: int)
      requires Internal(0) && bp in freeList && a % 8 == 0 && MIN_BLOCK <= a <= blocks[bp].size - MIN_BLOCK
      modifies this`blocks, this`freeList, mem
      ensures Internal(bp + a) && Settled(blocks, freeList, bp + a)
      ensures blocks == Split(old(blocks), bp, a) && freeList == Without(old(freeList), bp)
    {
      hide View, Split, Settled, NoFreeNeighbours, LiveOk, Holds, Tiling, Chain, Without, Framed, Pointer, GetSize, GetAlloc;
      ghost var m, fl := View(), freeList;
      ListedBlock(bp);
      PrepareTags(bp);
      CutWordsReady(m, blocks, brk, bp, a);
      var csize := GetSize(Read(bp - 4));
      assert csize == blocks[bp].size;
      CutWords(bp, csize, a);
      AfterPlaceSplit(m, View(), blocks, brk, fl, live, bp, a);
      blocks := Split(blocks, bp, a);
    }

    method PlaceWhole(bp: int)
      requires Internal(0) && bp in freeList
      modifies this`blocks, this`freeList, mem
      ensures Internal(0) && blocks == Mark(old(blocks), bp, false) && freeList == Without(old(freeList), bp)
    {
      ghost var m, fl := View(), freeList;
      PrepareTags(bp);
      PutTags(bp, GetSize(Read(bp - 4)), 1);
      RemoveBlock(bp);
      AfterPlaceWhole(m, View(), blocks, brk, fl, live, bp);
      blocks := Mark(blocks, bp, false);
    }

    method PlaceSplit(bp: int, a: int)
      requires Internal(0) && bp in freeList && a % 8 == 0 && MIN_BLOCK <= a <= blocks[bp].size - MIN_BLOCK
      modifies this`blocks, this`freeList, mem
      ensures Internal(0)
      ensures blocks == Split(old(blocks), bp, a) && freeList == [bp + a] + Without(old(freeList), bp)
    {
      hide Inv;
      CutBlock(bp, a);
      var _ := Coalesce(bp + a);
    }

    /** place: turns the free block bp into an allocated block of a bytes, splitting off a free
        remainder if that leaves more than 24 bytes. */
    method Place(bp: int, a: int)
      requires Internal(0) && bp in freeList && a % 8 == 0 && MIN_BLOCK <= a <= blocks[bp].size
      modifies this`blocks, this`freeList, mem
      ensures Internal(0)
      ensures blocks == Placed(old(blocks), bp, a) && freeList == PlacedList(old(blocks), old(freeList), bp, a)
    {
      PrepareTags(bp);
      if GetSize(Read(bp - 4)) - a > FSIZE {
        PlaceSplit(bp, a);
      } else {
        PlaceWhole(bp);
      }
    }

    // ----- allocating

    ghost function State(): Layout
      reads this
    {
      Layout(blocks, brk, freeList)
    }

    /** find_fit: first fit from the head of the free list; the prologue is skipped because its
        allocation bit is set. */
    method FindFit(a: int) returns (bp: int)
      requires Internal(0) && 0 < a
      ensures bp == FirstFit(blocks, freeList, a)
      ensures if bp == 0 then NoneLarge(blocks, freeList, a) else exists k :: FirstLarge(blocks, freeList, a, k) && bp == freeList[k]
    {
      hide Chain, Shape, Holds, LiveOk, NoFreeNeighbours, Linked, FirstLarge, NoneLarge;
      ghost var m, L := View(), [PROLOGUE] + freeList;
      ghost var i := 0;
      FitFacts(a);
      bp := freeListp;
      ChainNode(m, L, 0);
      PrologueTag();
      while bp != 0
        invariant 0 <= i <= |L|
        invariant if i < |L| then bp == L[i] != 0 else bp == 0
        invariant FirstFit(blocks, freeList, a) == FirstFit(blocks, L[Max(i, 1)..], a)
        decreases |L| - i
      {
        ChainNode(m, L, i);
        if 0 < i {
          ListedBlock(bp);
          PrepareTags(bp);
          TagParts(m, blocks, brk, bp);
          assert L[i..][1..] == L[i + 1..];
        }
        if !GetAlloc(Read(bp - 4)) && a <= GetSize(Read(bp - 4)) {
          return;
        }
        bp := Read(bp);
        i := i + 1;
        if i < |L| {
          ChainNode(m, L, i);
        }
      }
      bp := 0;
    }

    lemma ListedBlock(x: int)
      requires Internal(0) && x in freeList
      ensures FreeAt(blocks, x)
    {
    }

    lemma PrologueTag()
      requires Internal(0)
      ensures PROLOGUE - 4 in View() && GetAlloc(Get(View(), PROLOGUE - 4))
    {
      assert WordAddr(PROLOGUE - 4);
    }

    lemma StateWellFormed()
      requires Internal(0)
      ensures WellFormed(State())
    {
      ChainDistinct(View(), freeList);
    }

    /** Either the first fit, or a block made by extending the heap, or 0. */
    method FindOrExtend(a: int) returns (bp: int)
      requires Valid() && a % 8 == 0 && MIN_BLOCK <= a < SIZE_T_LIMIT
      modifies this`brk, this`blocks, this`freeList, mem
      ensures Valid()
      ensures CanMalloc(old(State()), 4 * mem.Length, a) ==>
        && bp == MallocAt(old(State()), a) && State() == MallocFrom(old(State()), a)
        && bp in freeList && bp in blocks && bp != 0 && a <= blocks[bp].size
      ensures !CanMalloc(old(State()), 4 * mem.Length, a) ==> bp == 0 && State() == old(State()) && View() == old(View())
    {
      hide Inv, WellFormed, Coalesced, CoalescedList, RunStart, FirstFit, Grown, AllLive;
      StateWellFormed();
      ghost var l := State();
      bp := FindFit(a);
      FitFacts(a);
      if bp != 0 {
        return;
      }
      var extendsize := ExtendSize(a);
      ExtendedFits(l, extendsize);
      ExtendedLive(blocks, brk, extendsize, live);
      WholeWords(extendsize);
      bp := ExtendHeap(extendsize / 4);
      NullIsNotListed();
    }

    lemma NullIsNotListed()
      requires Internal(0)
      ensures 0 !in freeList
    {
      forall y | y in freeList
        ensures y != 0
      {
        assert SizeOk(SPACE, blocks, brk, y);
      }
    }

    lemma FitFacts(a: int)
      requires Internal(0)
      ensures FirstFit(blocks, freeList, a) == 0 <==> NoneLarge(blocks, freeList, a)
      ensures FirstFit(blocks, freeList, a) != 0 ==>
        && FirstFit(blocks, freeList, a) in freeList && FirstFit(blocks, freeList, a) in blocks
        && a <= blocks[FirstFit(blocks, freeList, a)].size
        && exists k :: FirstLarge(blocks, freeList, a, k) && FirstFit(blocks, freeList, a) == freeList[k]
      ensures forall k :: FirstLarge(blocks, freeList, a, k) ==> FirstFit(blocks, freeList, a) == freeList[k] != 0
    {
      forall y | y in freeList
        ensures y != 0
      {
        assert SizeOk(SPACE, blocks, brk, y);
      }
      var k := FirstFitFound(blocks, freeList, a);
    }

    method Allocate(ptr: int, a: int, size: int)
      requires Valid() && ptr in freeList && a % 8 == 0 && MIN_BLOCK <= a <= blocks[ptr].size && 0 < size <= a - DSIZE
      modifies this`blocks, this`freeList, this`live, mem
      ensures Valid() && ptr !in old(live)
      ensures State() == PlaceAt(old(State()), ptr, a) && live == old(live)[ptr := LoadBytes(View(), ptr, size)]
    {
      PlacedLive(blocks, brk, live, ptr, a);
      Place(ptr, a);
      AfterAlloc(View(), blocks, brk, freeList, live, ptr, size);
      live := live[ptr := LoadBytes(View(), ptr, size)];
    }

    /** mm_malloc. */
    method Malloc(size: int) returns (ptr: int)
      requires Valid() && 0 <= size && size + 15 < SIZE_T_LIMIT
      modifies this`brk, this`blocks, this`freeList, this`live, mem
      ensures Valid()
      ensures size == 0 ==> ptr == 0
      ensures ptr == 0 ==> State() == old(State()) && live == old(live) && View() == old(View())
      ensures size > 0 ==> (ptr != 0 <==> CanMalloc(old(State()), 4 * mem.Length, AdjustedSize(size)))
      ensures forall k :: size > 0 && FirstLarge(old(blocks), old(freeList), AdjustedSize(size), k) ==>
        ptr == old(freeList)[k] != 0 && brk == old(brk)
      ensures ptr != 0 ==>
        && ptr == MallocAt(old(State()), AdjustedSize(size))
        && State() == PlaceAt(MallocFrom(old(State()), AdjustedSize(size)), ptr, AdjustedSize(size))
        && ptr !in old(live) && live == old(live)[ptr := LoadBytes(View(), ptr, size)]
    {
      hide Inv;
      if size == 0 {
        return 0;
      }
      AdjustedSizeBounds(size);
      var asize := AdjustedSize(size);
      FitFacts(asize);
      ptr := FindOrExtend(asize);
      if ptr == 0 {
        return;
      }
      Allocate(ptr, asize, size);
    }

    // ----- bytes

    method StoreByte(a: int, v: Byte)
      requires 0 <= a < 4 * mem.Length
      modifies mem
      ensures View().Keys == old(View()).Keys
      ensures forall q {:trigger Get(View(), q)} :: q != a - a % 4 ==> Get(View(), q) == Get(old(View()), q)
      ensures forall b {:trigger Load(View(), b)} :: Load(View(), b) == if b == a then v else Load(old(View()), b)
    {
      var p, w := a - a % 4, mem[a / 4];
      assert w == Get(View(), p);
      Put(p, WithByte(w, a % 4, v));
      forall b
        ensures Load(View(), b) == if b == a then v else Load(old(View()), b)
      {
        ByteAddress(a, b);
      }
    }

    lemma ByteAddress(a: int, b: int)
      ensures a == b <==> a - a % 4 == b - b % 4 && a % 4 == b % 4
    {
    }

    lemma AlignDown(a: int, base: int)
      requires base <= a && base % 4 == 0
      ensures base <= a - a % 4 <= a
    {
    }

    /** memcpy of n bytes between disjoint ranges. */
    method MemCpy(dst: int, src: int, n: nat)
      requires 0 <= dst && dst + n <= 4 * mem.Length && 0 <= src && src + n <= 4 * mem.Length
      requires dst % 4 == 0 && (dst + n <= src || src + n <= dst)
      modifies mem
      ensures View().Keys == old(View()).Keys
      ensures forall q {:trigger Get(View(), q)} :: q < dst || dst + n <= q ==> Get(View(), q) == Get(old(View()), q)
      ensures LoadBytes(View(), dst, n) == LoadBytes(old(View()), src, n)
    {
      hide Load;
      var i := 0;
      while i < n
        invariant 0 <= i <= n
        invariant View().Keys == old(View()).Keys
        invariant forall q {:trigger Get(View(), q)} :: q < dst || dst + n <= q ==> Get(View(), q) == Get(old(View()), q)
        invariant LoadBytes(View(), dst, i) == LoadBytes(old(View()), src, i)
        invariant forall b {:trigger Load(View(), b)} :: b < dst || dst + i <= b ==> Load(View(), b) == Load(old(View()), b)
      {
        ghost var m := View();
        AlignDown(dst + i, dst);
        StoreByte(dst + i, LoadByte(src + i));
        assert LoadBytes(View(), dst, i) == LoadBytes(m, dst, i);
        assert LoadBytes(View(), dst, i + 1) == LoadBytes(View(), dst, i) + [Load(View(), dst + i)];
        assert LoadBytes(old(View()), src, i + 1) == LoadBytes(old(View()), src, i) + [Load(old(View()), src + i)];
        i := i + 1;
      }
    }

    function LoadByte(a: int): (v: Byte)
      requires 0 <= a < 4 * mem.Length
      reads mem
      ensures v == Load(View(), a)
    {
      ByteOf(mem[a / 4], a % 4)
    }

    lemma LiveByte(ptr: int, k: int)
      requires Valid() && ptr in live && 0 <= k < |live[ptr]|
      ensures 0 <= ptr + k < 4 * mem.Length && Load(View(), ptr + k) == live[ptr][k]
    {
      PayloadBounds(ptr, 0);
      assert LoadBytes(View(), ptr, |live[ptr]|)[k] == live[ptr][k];
    }

    /** A client's store to byte k of its block. */
    method Store(ptr: int, k: int, v: Byte)
      requires Valid() && ptr in live && 0 <= k < |live[ptr]|
      modifies this`live, mem
      ensures Valid() && live == old(live)[ptr := SetByte(old(live)[ptr], k, v)]
    {
      ghost var m, n := View(), |live[ptr]|;
      PayloadBounds(ptr, n);
      AlignDown(ptr + k, ptr);
      InPayload(ptr, k);
      hide Load, Shape, Chain;
      StoreByte(ptr + k, v);
      ghost var bs := LoadBytes(View(), ptr, n);
      assert bs == SetByte(live[ptr], k, v);
      AfterPayload(m, View(), blocks, brk, freeList, live, ptr, bs);
      live := live[ptr := bs];
    }

    lemma InPayload(ptr: int, k: int)
      requires Valid() && ptr in live && 0 <= k < |live[ptr]|
      ensures ptr <= ptr + k - (ptr + k) % 4 < End(blocks, ptr) - DSIZE
    {
      assert AlignedAt(blocks, ptr);
    }

    lemma PayloadBounds(ptr: int, n: nat)
      requires Valid() && ptr in live && n <= |live[ptr]|
      ensures 0 <= ptr && ptr % 4 == 0 && ptr + n <= End(blocks, ptr) - DSIZE && End(blocks, ptr) <= 4 * mem.Length
      ensures LoadBytes(View(), ptr, |live[ptr]|) == live[ptr]
    {
      assert SizeOk(SPACE, blocks, brk, ptr) && AlignedAt(blocks, ptr) && Held(View(), live, ptr);
      Multiple8(ptr, 0);
    }

    /** The memcpy of mm_realloc. */
    method CopyPayload(dst: int, src: int, n: nat)
      requires Valid() && dst in live && src in live && dst != src
      requires n <= |live[dst]| && n <= blocks[src].size
      modifies this`live, mem
      ensures Valid() && live.Keys == old(live).Keys && |live[dst]| == old(|live[dst]|)
      ensures forall y :: y in live && y != dst ==> live[y] == old(live)[y]
      ensures forall k :: 0 <= k < n && k < |live[src]| ==> live[dst][k] == live[src][k]
    {
      ghost var m, len := View(), |live[dst]|;
      PayloadBounds(dst, n);
      PayloadBounds(src, 0);
      hide Load;
      MemCpy(dst, src, n);
      ghost var bs := LoadBytes(View(), dst, len);
      AfterPayload(m, View(), blocks, brk, freeList, live, dst, bs);
      assert forall k :: 0 <= k < n ==> bs[k] == LoadBytes(View(), dst, n)[k];
      assert forall k :: 0 <= k < n && k < |live[src]| ==> LoadBytes(m, src, n)[k] == live[src][k];
      live := live[dst := bs];
    }

    lemma PrepareRealloc(ptr: int, a: int)
      requires Valid() && ptr in live && a % 8 == 0 && MIN_BLOCK <= a
      ensures var r := PlaceAt(MallocFrom(State(), a), MallocAt(State(), a), a).blocks; ptr in r && r[ptr] == blocks[ptr]
    {
      StateWellFormed();
      FitFacts(a);
      MallocKeeps(State(), a, ptr);
    }

    lemma LivePointer(ptr: int)
      requires Valid() && ptr in live
      ensures ptr in blocks && ptr != 0 && 0 < |live[ptr]| <= blocks[ptr].size - DSIZE
    {
      assert SizeOk(SPACE, blocks, brk, ptr);
    }

    lemma NullIsNotLive()
      requires Valid()
      ensures 0 !in live
    {
      forall x | x in live
        ensures x != 0
      {
        LivePointer(x);
      }
    }

    /** mm_realloc of a block to a nonzero size. */
    method Move(ptr: int, size: int) returns (newptr: int)
      requires Valid() && 0 < size && size + 15 < SIZE_T_LIMIT && ptr in live
      modifies this`brk, this`blocks, this`freeList, this`live, mem
      ensures Valid()
      ensures newptr != 0 <==> CanMalloc(old(State()), 4 * mem.Length, AdjustedSize(size))
      ensures newptr == 0 ==> State() == old(State()) && live == old(live) && View() == old(View())
      ensures newptr != 0 ==>
        && newptr == MallocAt(old(State()), AdjustedSize(size))
        && State() == ReleaseAt(PlaceAt(MallocFrom(old(State()), AdjustedSize(size)), newptr, AdjustedSize(size)), ptr)
        && newptr !in old(live) && Moved(old(live), live, ptr, newptr, size)
    {
      hide Inv;
      AdjustedSizeBounds(size);
      LivePointer(ptr);
      PrepareTags(ptr);
      PrepareRealloc(ptr, AdjustedSize(size));
      var copySize := GetSize(Read(ptr - 4));
      newptr := Malloc(size);
      if newptr == 0 {
        return;
      }
      ghost var live2 := live;
      CopyPayload(newptr, ptr, if copySize < size then copySize else size);
      MoveComposes(old(live), live2, live, ptr, newptr, size, live2[newptr], if copySize < size then copySize else size);
      Free(ptr);
    }

    /** mm_realloc. */
    method Realloc(ptr: int, size: int) returns (newptr: int)
      requires Valid() && 0 <= size && size + 15 < SIZE_T_LIMIT
      requires ptr in live || (ptr == 0 && size > 0)
      modifies this`brk, this`blocks, this`freeList, this`live, mem
      ensures Valid()
      ensures size == 0 ==> newptr == 0 && State() == ReleaseAt(old(State()), ptr) && live == old(live) - {ptr}
      ensures size > 0 ==> (newptr != 0 <==> CanMalloc(old(State()), 4 * mem.Length, AdjustedSize(size)))
      ensures size > 0 && newptr == 0 ==> State() == old(State()) && live == old(live) && View() == old(View())
      ensures newptr != 0 ==>
        var r := PlaceAt(MallocFrom(old(State()), AdjustedSize(size)), newptr, AdjustedSize(size));
        && newptr == MallocAt(old(State()), AdjustedSize(size)) && newptr !in old(live)
        && State() == (if ptr == 0 then r else ReleaseAt(r, ptr))
        && Moved(old(live), live, ptr, newptr, size)
    {
      hide Inv;
      AdjustedSizeBounds(size);
      NullIsNotLive();
      if size <= 0 {
        LivePointer(ptr);
        Free(ptr);
        newptr := 0;
      } else if ptr == 0 {
        newptr := Malloc(size);
      } else {
        newptr := Move(ptr, size);
      }
    }

    // ----- initialising

    /** mem_reset_brk. */
    method ResetBrk()
      modifies this`brk
      ensures brk == 0
    {
      brk := 0;
    }

    /** The eight words of the empty heap: prologue, padding and epilogue. */
    method LayPrologue(base: int)
      requires base == 0 && 32 <= 4 * mem.Length
      modifies mem
      ensures View().Keys == old(View()).Keys
      ensures Get(View(), 4) == 25 && Get(View(), 8) == 0 && Get(View(), 24) == 0 && Get(View(), 28) == 1
    {
      assert base in View() && base + 4 in View() && base + 8 in View() && base + 12 in View();
      assert base + 16 in View() && base + 20 in View() && base + 24 in View() && base + 28 in View();
      hide View;
      Put(base, 0);
      Put(base + 4, FSIZE + 1);
      Put(base + 8, 0);
      Put(base + 12, 0);
      Put(base + 16, FSIZE + 1);
      Put(base + 20, 0);
      Put(base + 24, 0);
      Put(base + 28, 0 + 1);
    }

    lemma EmptyHeap()
      requires 32 <= 4 * mem.Length < INT_LIMIT
      requires Get(View(), 4) == 25 && Get(View(), 8) == 0 && Get(View(), 24) == 0 && Get(View(), 28) == 1
      ensures Inv(View(), map[], 32, [], map[], 0)
    {
      var L: seq<int> := [PROLOGUE] + [];
      assert NodeOk(View(), L, 0);
    }

    /** mm_init on a fresh or reset heap. */
    method MmInit() returns (r: int)
      requires brk == 0 && 4 * mem.Length < INT_LIMIT
      modifies this, mem
      ensures r == (if FIRST + CHUNKSIZE <= 4 * mem.Length then 0 else -1)
      ensures FIRST <= 4 * mem.Length ==> Valid() && live == map[]
      ensures r == 0 ==> State() == Layout(map[FIRST := Block(CHUNKSIZE, true)], FIRST + CHUNKSIZE, [FIRST])
    {
      hide Inv;
      var heapListp := Sbrk(8 * 4);
      if heapListp == -1 {
        return -1;
      }
      LayPrologue(heapListp);
      heapListp := heapListp + DSIZE;
      freeListp := heapListp;
      blocks, freeList, live := map[], [], map[];
      EmptyHeap();
      var bp := ExtendHeap(CHUNKSIZE / 4);
      FirstBlock();
      NullIsNotListed();
      r := if bp == 0 then -1 else 0;
    }

    /** The first block extend_heap makes has no neighbours. */
    lemma FirstBlock()
      ensures var g := Grown(map[], FIRST, CHUNKSIZE);
        RunStart(g, FIRST) == FIRST && Coalesced(g, FIRST) == map[FIRST := Block(CHUNKSIZE, true)]
        && CoalescedList(g, [], FIRST) == [FIRST]
    {
      var g := Grown(map[], FIRST, CHUNKSIZE);
      GrownOk(map[], FIRST, CHUNKSIZE);
      NothingBefore(g, FIRST + CHUNKSIZE);
      CoalesceAlone(g, FIRST + CHUNKSIZE, [], FIRST);
    }
  }
}
