/** The finished helpers of the second allocator (sp_03_malloclab/lab5/mm.c) over its memlib.c:
    the free list, coalescing of runs of any length, growth by pages, and initialisation. */
module RunAllocator {
  import opened Lists
  import opened Partition
  import opened RunHeap

  /** The whole number of pages that requestMoreSpace asks for. */
  function Pages(reqSize: int, pagesize: int): int
    requires 0 < pagesize
  {
    (reqSize + pagesize - 1) / pagesize * pagesize
  }

  /** Growth is the least multiple of the page size that covers the request. */
  lemma PagesLeast(reqSize: int, pagesize: int)
    requires 1 <= reqSize && 0 < pagesize
    ensures reqSize <= Pages(reqSize, pagesize) < reqSize + pagesize
    ensures pagesize <= Pages(reqSize, pagesize)
    ensures exists k {:trigger k * pagesize} :: Pages(reqSize, pagesize) == k * pagesize
    ensures forall k {:trigger k * pagesize} :: reqSize <= k * pagesize ==> Pages(reqSize, pagesize) <= k * pagesize
  {
    var q, a := (reqSize + pagesize - 1) / pagesize, reqSize + pagesize - 1;
    assert a == q * pagesize + a % pagesize;
    assert q >= 1 by {
      if q <= 0 {
        NoMore(q, 0, pagesize);
      }
    }
    NoMore(1, q, pagesize);
    forall k | reqSize <= k * pagesize
      ensures q * pagesize <= k * pagesize
    {
      if k < q {
        NoMore(k + 1, q, pagesize);
      } else {
        NoMore(q, k, pagesize);
      }
    }
  }

  lemma NewWords(newBlock: int, total: int)
    requires newBlock % 8 == 0 && total % 8 == 0 && 0 <= newBlock && MIN_BLOCK <= total
    ensures WordAddr(newBlock) && WordAddr(newBlock + total - W) && WordAddr(newBlock + total)
  {
  }

  lemma TilingTop(bm: Blocks, top: int)
    requires Tiling(SPACE, bm, top)
    ensures FIRST <= top
  {
  }

  lemma NoMore(a: int, b: int, p: int)
    requires a <= b && 0 < p
    ensures a * p <= b * p
  {
  }

  lemma PagesAligned(reqSize: int, pagesize: int)
    requires 0 < pagesize && pagesize % 8 == 0
    ensures Pages(reqSize, pagesize) % 8 == 0
  {
    var q, r := (reqSize + pagesize - 1) / pagesize, pagesize / 8;
    assert q * pagesize == q * (8 * r) == 8 * (q * r);
  }

  /** The free list holds exactly the free blocks. */
  ghost predicate Linked(bm: Blocks, L: seq<int>)
  {
    forall y :: y in L <==> FreeAt(bm, y)
  }

  /** What the heap must satisfy between operations. */
  ghost predicate Inv(m: Memory, bm: Blocks, top: int, L: seq<int>)
  {
    Shape(m, bm, top) && Chain(m, L) && Linked(bm, L)
  }

  /** Block y has room for reqSize bytes. */
  ghost predicate Fits(bm: Blocks, y: int, reqSize: int)
  {
    y in bm && reqSize <= bm[y].size
  }

  ghost function Members(bm: Blocks, s: int, e: int): set<int>
  {
    set z | z in bm && s <= z < e
  }

  /** The free list after coalescing x into [s, e): unchanged if x had no free neighbour, otherwise
      the merged blocks leave it and the new block becomes its head. */
  ghost function CoalescedList(bm: Blocks, L: seq<int>, x: int, s: int, e: int): seq<int>
    requires x in bm
  {
    if e - s == bm[x].size then L else [s] + Minus(L, Members(bm, s, e))
  }

  lemma MembersNone(bm: Blocks, x: int)
    ensures Members(bm, x, x) == {} && AllFree(bm, x, x)
  {
  }

  lemma MembersBefore(bm: Blocks, top: int, y: int, c: int, x: int)
    requires Tiling(SPACE, bm, top) && FreeAt(bm, y) && c in bm && End(bm, y) == c && c <= x && AllFree(bm, c, x)
    ensures Members(bm, y, x) == Members(bm, c, x) + {y} && y !in Members(bm, c, x) && AllFree(bm, y, x)
  {
    assert SizeOk(SPACE, bm, top, y);
  }

  lemma MembersAfter(bm: Blocks, top: int, s: int, c: int)
    requires Tiling(SPACE, bm, top) && FreeAt(bm, c) && s <= c && AllFree(bm, s, c)
    ensures Members(bm, s, End(bm, c)) == Members(bm, s, c) + {c} && c !in Members(bm, s, c)
    ensures AllFree(bm, s, End(bm, c))
  {
    assert SizeOk(SPACE, bm, top, c);
  }

  /** The word after a block says whether a free block follows; at the end it is the footer. */
  lemma UsedAt(m: Memory, bm: Blocks, top: int, x: int)
    requires Shape(m, bm, top) && (x in bm || x == top)
    ensures x in m && Used(Get(m, x)) == !FreeAt(bm, x)
  {
    FooterParts(m, bm, top);
    if x in bm {
      HeaderParts(m, bm, top, x);
      assert SizeOk(SPACE, bm, top, x);
    }
  }

  /** p is a word of a used block. */
  ghost predicate InUsed(bm: Blocks, p: int)
  {
    exists y :: UsedWord(bm, y, p)
  }

  ghost predicate UsedWord(bm: Blocks, y: int, p: int)
  {
    y in bm && !bm[y].free && y <= p < End(bm, y)
  }

  /** Words of used blocks, headers included, survive any change confined to pointer words and a
      run of free blocks. */
  lemma UsedKept(m1: Memory, m2: Memory, bm: Blocks, top: int, s: int, e: int, p: int)
    requires Tiling(SPACE, bm, top) && Framed(m1, m2, bm, s, e) && InUsed(bm, p)
    requires s == e || (s in bm && (e in bm || e == top) && AllFree(bm, s, e))
    ensures Get(m2, p) == Get(m1, p)
  {
    var y :| UsedWord(bm, y, p);
    assert SizeOk(SPACE, bm, top, y);
    forall z | FreeAt(bm, z)
      ensures z != p - W && z != p - 2 * W
    {
      assert SizeOk(SPACE, bm, top, z);
    }
  }

  /** Pointer words of a block outside the run lie outside the run. */
  lemma LinksOutside(bm: Blocks, top: int, s: int, e: int, y: int)
    requires Tiling(SPACE, bm, top) && s in bm && (e in bm || e == top) && y in bm && !(s <= y < e)
    ensures !(s <= y + W < e) && !(s <= y + 2 * W < e)
  {
    assert SizeOk(SPACE, bm, top, y);
  }

  lemma RunReach(bm: Blocks, top: int, s: int, e: int)
    requires Tiling(SPACE, bm, top) && s in bm && (e in bm || e == top) && s < e
    ensures s + MIN_BLOCK <= e <= top
  {
    assert SizeOk(SPACE, bm, top, s) && (e in bm ==> SizeOk(SPACE, bm, top, e));
  }

  lemma ShapeTiling(m: Memory, bm: Blocks, top: int)
    requires Shape(m, bm, top)
    ensures Tiling(SPACE, bm, top) && top + W < WORD_LIMIT
  {
  }

  /** The words coalescing touches lie in the heap. */
  lemma RunWords(m: Memory, bm: Blocks, top: int, s: int, e: int)
    requires Shape(m, bm, top) && s in bm && (e in bm || e == top) && s < e
    ensures s in m && e - W in m && NodeAddr(m, s) && 0 <= s < e < WORD_LIMIT - PRECEDING_USED
  {
    hide Disjoint;
    RunReach(bm, top, s, e);
    assert AlignedAt(bm, s) && SizeOk(SPACE, bm, top, s) && (e in bm ==> AlignedAt(bm, e));
    WordBelow(s + W);
    WordBelow(s + 2 * W);
    WordBelow(s + 3 * W);
    WordBelow(e);
  }

  lemma FuseFree(bm: Blocks, s: int, e: int)
    requires s in bm
    ensures FreeAt(Fuse(bm, s, e, true), s)
    ensures forall y :: FreeAt(bm, y) && !(s <= y < e) ==> FreeAt(Fuse(bm, s, e, true), y)
    ensures e in bm && s < e ==> e in Fuse(bm, s, e, true)
  {
  }

  /** No word of a used block, its header included, differs. */
  ghost predicate KeepsUsed(m1: Memory, m2: Memory, bm: Blocks)
  {
    m1.Keys == m2.Keys && forall p {:trigger Get(m2, p)} :: InUsed(bm, p) ==> Get(m2, p) == Get(m1, p)
  }

  lemma RunKeepsUsed(m: Memory, m1: Memory, m2: Memory, m3: Memory, bm: Blocks, top: int, s: int, e: int)
    requires Tiling(SPACE, bm, top) && s in bm && (e in bm || e == top) && s < e && AllFree(bm, s, e)
    requires Framed(m, m1, bm, 0, 0) && Framed(m1, m2, bm, s, e)
    requires Tiling(SPACE, Fuse(bm, s, e, true), top) && Framed(m2, m3, Fuse(bm, s, e, true), 0, 0)
    ensures KeepsUsed(m, m3, bm)
  {
    hide Tiling, Framed, AllFree;
    forall p | InUsed(bm, p)
      ensures Get(m3, p) == Get(m, p)
    {
      UsedKept(m, m1, bm, top, 0, 0, p);
      UsedKept(m1, m2, bm, top, s, e, p);
      var y :| UsedWord(bm, y, p);
      UsedSurvives(bm, s, e, y, p);
      UsedKept(m2, m3, Fuse(bm, s, e, true), top, 0, 0, p);
    }
    FramedKeys(m, m1, bm, 0, 0);
    FramedKeys(m1, m2, bm, s, e);
    FramedKeys(m2, m3, Fuse(bm, s, e, true), 0, 0);
  }

  lemma FramedKeys(m1: Memory, m2: Memory, bm: Blocks, lo: int, hi: int)
    requires Framed(m1, m2, bm, lo, hi)
    ensures m1.Keys == m2.Keys
  {
  }

  lemma UsedSurvives(bm: Blocks, s: int, e: int, y: int, p: int)
    requires AllFree(bm, s, e) && s < e && UsedWord(bm, y, p)
    ensures InUsed(Fuse(bm, s, e, true), p)
  {
    assert UsedWord(Fuse(bm, s, e, true), y, p);
  }

  lemma CoalesceKeepsUsed(m1: Memory, m2: Memory, m3: Memory, bm: Blocks, top: int)
    requires Tiling(SPACE, bm, top) && Framed(m1, m2, bm, 0, 0) && KeepsUsed(m2, m3, bm)
    ensures KeepsUsed(m1, m3, bm)
  {
    hide Tiling, Framed, InUsed;
    FramedKeys(m1, m2, bm, 0, 0);
    forall p | InUsed(bm, p)
      ensures Get(m3, p) == Get(m1, p)
    {
      UsedKept(m1, m2, bm, top, 0, 0, p);
    }
  }

  lemma KeepsUsedRefl(m: Memory, bm: Blocks)
    ensures KeepsUsed(m, m, bm)
  {
  }

  lemma MembersBelow(bm: Blocks, c: int, x: int)
    ensures forall y :: x <= y ==> y !in Members(bm, c, x)
  {
  }

  lemma RunJoined(bm: Blocks, top: int, x: int, s: int, e: int)
    requires Tiling(SPACE, bm, top) && FreeAt(bm, x) && s in bm && s <= x && AllFree(bm, s, x) && !FreeBefore(bm, s)
    requires End(bm, x) <= e && (e in bm || e == top) && AllFree(bm, End(bm, x), e) && !FreeAt(bm, e)
    ensures MaximalRun(bm, top, x, s, e)
  {
    assert SizeOk(SPACE, bm, top, x);
  }

  /** Removing the blocks below x, then those above x, then x itself, removes those of the run. */
  lemma ListJoined(bm: Blocks, top: int, L: seq<int>, x: int, s: int, e: int)
    requires Tiling(SPACE, bm, top) && Linked(bm, L) && Distinct(L) && FreeAt(bm, x) && s <= x && End(bm, x) <= e
    ensures var R := Minus(Minus(L, Members(bm, s, x)), Members(bm, End(bm, x), e));
            && Without(R, x) == Minus(L, Members(bm, s, e)) && x in R
            && (forall y :: y in R && s <= y < e ==> y == x)
            && (s == x && e == End(bm, x) ==> R == L)
  {
    hide Without, Linked;
    var S, T := Members(bm, s, x), Members(bm, End(bm, x), e);
    MinusTwice(L, S, T);
    MinusOne(L, S + T, x);
    assert SizeOk(SPACE, bm, top, x);
    assert S + T + {x} == Members(bm, s, e);
    if s == x && e == End(bm, x) {
      assert S + T == {};
      MinusNothing(L);
    }
    assert Linked(bm, L) ==> x in L by {
      InList(bm, L, x);
    }
    forall y | y in L
      ensures y in bm
    {
      InList(bm, L, y);
    }
  }

  lemma InList(bm: Blocks, L: seq<int>, y: int)
    requires Linked(bm, L)
    ensures y in L <==> FreeAt(bm, y)
  {
  }

  /** The list after new space was inserted and coalesced. */
  lemma ListGrown(bm: Blocks, top: int, total: int, L: seq<int>, s: int)
    requires Tiling(SPACE, bm, top) && MIN_BLOCK <= total && top !in L && s <= top
    requires s in Grown(bm, top, total)
    ensures var g := Grown(bm, top, total);
      CoalescedList(g, [top] + L, top, s, top + total) == [s] + Minus(L, Members(bm, s, top))
  {
    var g, S := Grown(bm, top, total), Members(bm, s, top);
    forall y | y in bm
      ensures y < End(bm, y) <= top
    {
      BlockBounds(SPACE, bm, top, y);
    }
    assert Members(g, s, top + total) == S + {top};
    MinusAbsent(L, S, top);
    if s == top {
      assert S == {};
      MinusNothing(L);
    } else {
      assert ([top] + L)[1..] == L;
    }
  }

  lemma ListLinked(bm: Blocks, top: int, L: seq<int>, x: int, s: int, e: int)
    requires Tiling(SPACE, bm, top) && Linked(bm, L) && s in bm && s <= x < e
    ensures Linked(Fuse(bm, s, e, true), [s] + Minus(L, Members(bm, s, e)))
  {
  }

  lemma FuseAlone(bm: Blocks, top: int, x: int)
    requires Tiling(SPACE, bm, top) && FreeAt(bm, x)
    ensures Fuse(bm, x, End(bm, x), true) == bm
  {
    assert SizeOk(SPACE, bm, top, x);
  }

  lemma UsedInGrown(bm: Blocks, top: int, total: int, p: int)
    requires Tiling(SPACE, bm, top) && MIN_BLOCK <= total && InUsed(bm, p)
    ensures InUsed(Grown(bm, top, total), p) && p < top
  {
    var y :| UsedWord(bm, y, p);
    assert SizeOk(SPACE, bm, top, y);
    assert UsedWord(Grown(bm, top, total), y, p);
  }

  /** Growing, linking the new block in and coalescing it leaves the words of used blocks alone. */
  lemma GrowthKeepsUsed(m: Memory, m1: Memory, m2: Memory, m3: Memory, bm: Blocks, top: int, total: int)
    requires Tiling(SPACE, bm, top) && MIN_BLOCK <= total && GrownWords(m, m1, bm, top, total)
    requires Framed(m1, m2, Grown(bm, top, total), 0, 0) && KeepsUsed(m2, m3, Grown(bm, top, total))
    ensures KeepsUsed(m, m3, bm)
  {
    hide Tiling, Framed, InUsed, Grown;
    FramedKeys(m1, m2, Grown(bm, top, total), 0, 0);
    GrownTiling(SPACE, bm, top, total);
    forall p | InUsed(bm, p)
      ensures Get(m3, p) == Get(m, p)
    {
      UsedInGrown(bm, top, total, p);
      UsedKept(m1, m2, Grown(bm, top, total), top + total, 0, 0, p);
    }
  }

  lemma GrownFree(bm: Blocks, top: int, total: int)
    requires Tiling(SPACE, bm, top) && MIN_BLOCK <= total
    ensures top !in bm && Tiling(SPACE, Grown(bm, top, total), top + total)
    ensures forall y :: FreeAt(Grown(bm, top, total), y) <==> FreeAt(bm, y) || y == top
  {
    GrownTiling(SPACE, bm, top, total);
  }

  /** The run that coalescing finds around the new block reaches to the new end of the heap. */
  lemma LastBlock(bm: Blocks, top: int, total: int, s: int, e: int)
    requires Tiling(SPACE, bm, top) && MIN_BLOCK <= total
    requires MaximalRun(Grown(bm, top, total), top + total, top, s, e)
    ensures e == top + total && s <= top
    ensures var f := Fuse(Grown(bm, top, total), s, e, true);
            FreeAt(f, s) && End(f, s) == e && total <= f[s].size && !FreeBefore(f, s)
  {
    var g := Grown(bm, top, total);
    GrownTiling(SPACE, bm, top, total);
    assert e in g ==> SizeOk(SPACE, g, top + total, e);
    assert e in bm ==> SizeOk(SPACE, bm, top, e);
    FuseBefore(g, top + total, s, e, s);
  }

  ghost predicate NoFreeNeighbours(bm: Blocks)
  {
    forall y, z :: FreeAt(bm, y) && FreeAt(bm, z) ==> End(bm, y) != z
  }

  /** If the blocks adjacent to the run were the only free blocks with free neighbours, coalescing
      leaves none. */
  lemma CoalesceSettles(bm: Blocks, top: int, x: int, s: int, e: int)
    requires Tiling(SPACE, bm, top) && MaximalRun(bm, top, x, s, e)
    requires forall y, z :: FreeAt(bm, y) && FreeAt(bm, z) && End(bm, y) == z ==> s <= y && z < e
    ensures NoFreeNeighbours(Fuse(bm, s, e, true))
  {
    var f := Fuse(bm, s, e, true);
    forall y, z | FreeAt(f, y) && FreeAt(f, z)
      ensures End(f, y) != z
    {
      if End(f, y) == z {
        FuseNeighbours(bm, top, x, s, e, y, z);
      }
    }
  }

  lemma BeforeIs(bm: Blocks, s: int)
    ensures forall y :: Precedes(bm, y, s) ==> FreeBefore(bm, s)
  {
  }

  /** A heap without adjacent free blocks is still one after requestMoreSpace. */
  lemma GrowthSettles(bm: Blocks, top: int, total: int, s: int)
    requires Tiling(SPACE, bm, top) && MIN_BLOCK <= total && NoFreeNeighbours(bm)
    requires MaximalRun(Grown(bm, top, total), top + total, top, s, top + total)
    ensures NoFreeNeighbours(Fuse(Grown(bm, top, total), s, top + total, true))
  {
    hide FreeBefore;
    var g := Grown(bm, top, total);
    GrownTiling(SPACE, bm, top, total);
    BeforeIs(g, s);
    forall y, z | FreeAt(g, y) && FreeAt(g, z) && End(g, y) == z
      ensures s <= y && z < top + total
    {
      assert SizeOk(SPACE, g, top + total, y) && SizeOk(SPACE, g, top + total, z) && SizeOk(SPACE, g, top + total, s);
      assert y in bm ==> SizeOk(SPACE, bm, top, y);
      assert y in bm && z in bm ==> FreeAt(bm, y) && FreeAt(bm, z);
      assert Precedes(g, y, z);
    }
    CoalesceSettles(g, top + total, top, s, top + total);
  }

  /** The words mm_init leaves behind. */
  ghost predicate FirstWords(m: Memory)
  {
    && (forall p {:trigger WordAddr(p)} :: WordAddr(p) && p <= FIRST + MIN_BLOCK ==> p in m)
    && Get(m, 0) == FIRST
    && Get(m, FIRST) == Get(m, FIRST + MIN_BLOCK - W) == MIN_BLOCK + PRECEDING_USED
    && Get(m, FIRST + W) == Get(m, FIRST + 2 * W) == 0
    && Get(m, FIRST + MIN_BLOCK) == USED
  }

  lemma FirstInv(m: Memory)
    requires FirstWords(m)
    ensures Inv(m, map[FIRST := Block(MIN_BLOCK, true)], FIRST + MIN_BLOCK, [FIRST])
  {
    var bm := map[FIRST := Block(MIN_BLOCK, true)];
    assert Precedes(bm, FIRST, FIRST + MIN_BLOCK);
    assert AlignedAt(bm, FIRST) && Tagged(m, bm, FIRST);
    assert WordAddr(0) && WordAddr(FIRST + W) && WordAddr(FIRST + 2 * W);
    assert NodeOk(m, [FIRST], 0) && NodeAddr(m, FIRST);
  }

  class PageHeap {
    const mem: array<Word>
    var brk: int

    ghost var blocks: Blocks
    ghost var freeList: seq<int>

    /** The words of the heap by address. */
    ghost function View(): Memory
      reads mem
    {
      map p | 0 <= p < W * mem.Length && p % W == 0 :: mem[p / W]
    }

    ghost predicate Valid()
      reads this, mem
    {
      && brk <= W * mem.Length
      && Inv(View(), blocks, brk - W, freeList)
    }

    constructor (words: nat)
      ensures brk == 0 && mem.Length == words && fresh(mem)
    {
      mem := new Word[words](_ => 0);
      brk, blocks, freeList := 0, map[], [];
    }

    function Read(p: int): (w: Word)
      requires p in View()
      reads mem
      ensures w == Get(View(), p)
    {
      mem[p / W]
    }

    method Put(p: int, w: Word)
      requires p in View()
      modifies mem
      ensures View().Keys == old(View()).Keys
      ensures forall q {:trigger Get(View(), q)} :: Get(View(), q) == if q == p then w else Get(old(View()), q)
    {
      mem[p / W] := w;
    }

    /** First fit: the first block of the list that is large enough, or 0 if none is. */
    method SearchFreeList(reqSize: int) returns (r: int)
      requires Valid()
      ensures r == 0 <==> forall y :: y in freeList ==> !Fits(blocks, y, reqSize)
      ensures r != 0 ==> exists k :: 0 <= k < |freeList| && freeList[k] == r && Fits(blocks, r, reqSize) &&
                           forall j :: 0 <= j < k ==> !Fits(blocks, freeList[j], reqSize)
    {
      hide Shape, Chain;
      ChainHead(View(), freeList);
      r := Read(0);
      ghost var k := 0;
      while r != 0
        invariant 0 <= k <= |freeList| && r == if k < |freeList| then freeList[k] else 0
        invariant forall j :: 0 <= j < k ==> !Fits(blocks, freeList[j], reqSize)
        decreases |freeList| - k
      {
        assert freeList[k] in freeList && FreeAt(blocks, r);
        HeaderParts(View(), blocks, brk - W, r);
        ChainNode(View(), freeList, k);
        if SizeOf(Read(r)) >= reqSize {
          return;
        }
        r := Read(r + W);
        k := k + 1;
      }
      if k < |freeList| {
        ChainNode(View(), freeList, k);
      }
    }

    /** What the free list operations need: a chain of free blocks of a partition. */
    ghost predicate Listed(top: int)
      reads this, mem
    {
      && Tiling(SPACE, blocks, top)
      && Chain(View(), freeList)
      && (forall y :: y in freeList ==> FreeAt(blocks, y))
    }

    /** The pointer writes of insertFreeBlock. */
    method Push(x: int)
      requires Chain(View(), freeList) && NodeAddr(View(), x) && 0 <= x < WORD_LIMIT
      requires forall i :: 0 <= i < |freeList| ==> Apart(freeList[i], x)
      modifies mem
      ensures Pushed(old(View()), View(), freeList, x)
    {
      var oldHead := Read(0);
      assert freeList != [] ==> NodeAddr(View(), freeList[0]);
      Put(x + W, oldHead);
      if oldHead != 0 {
        Put(oldHead + 2 * W, x);
      }
      Put(x + 2 * W, 0);
      Put(0, x);
    }

    method InsertFreeBlock(x: int, ghost top: int)
      requires Listed(top) && FreeAt(blocks, x) && x !in freeList && NodeAddr(View(), x) && x < WORD_LIMIT
      modifies this`freeList, mem
      ensures freeList == [x] + old(freeList) && Listed(top)
      ensures Framed(old(View()), View(), blocks, 0, 0)
    {
      hide Chain;
      ghost var m := View();
      forall i | 0 <= i < |freeList|
        ensures Apart(freeList[i], x)
      {
        assert freeList[i] in freeList;
        assert SizeOk(SPACE, blocks, top, freeList[i]) && SizeOk(SPACE, blocks, top, x);
      }
      Push(x);
      ChainPush(m, View(), freeList, x);
      freeList := [x] + freeList;
    }

    /** The pointer writes of removeFreeBlock. */
    method Unlink(x: int, ghost k: int)
      requires Chain(View(), freeList) && 0 <= k < |freeList| && freeList[k] == x
      modifies mem
      ensures Unlinked(old(View()), View(), freeList, k)
    {
      hide Chain, View, Read;
      ChainHead(View(), freeList);
      ChainNode(View(), freeList, k);
      if k > 0 {
        ChainNode(View(), freeList, k - 1);
        ChainApart(View(), freeList, k, 0);
      }
      if k + 1 < |freeList| {
        ChainNode(View(), freeList, k + 1);
        if k > 0 {
          ChainApart(View(), freeList, k + 1, k - 1);
        }
      }
      var nextFree := Read(x + W);
      var prevFree := Read(x + 2 * W);
      if nextFree != 0 {
        Put(nextFree + 2 * W, prevFree);
      }
      if x == Read(0) {
        Put(0, nextFree);
      } else {
        Put(prevFree + W, nextFree);
      }
    }

    method RemoveFreeBlock(x: int, ghost top: int)
      requires Listed(top) && x in freeList
      modifies this`freeList, mem
      ensures freeList == Without(old(freeList), x) && Listed(top)
      ensures Framed(old(View()), View(), blocks, 0, 0)
    {
      hide Chain, Tiling;
      ghost var m, k := View(), IndexOf(freeList, x);
      Unlink(x, k);
      ChainWithout(m, View(), freeList, k);
      freeList := Without(freeList, x);
    }

    // ----- coalescing

    /** The first loop of coalesceFreeBlock: follow clear preceding-used bits down the heap, taking
        every block on the way off the free list. */
    method AbsorbPreceding(x: int, ghost top: int) returns (cursor: int, newSize: int)
      requires Shape(View(), blocks, top) && Listed(top) && FreeAt(blocks, x) && Linked(blocks, freeList)
      modifies this`freeList, mem
      ensures cursor in blocks && cursor <= x && AllFree(blocks, cursor, x) && !FreeBefore(blocks, cursor)
      ensures newSize == End(blocks, x) - cursor
      ensures freeList == Minus(old(freeList), Members(blocks, cursor, x))
      ensures Shape(View(), blocks, top) && Listed(top) && Framed(old(View()), View(), blocks, 0, 0)
    {
      hide View, Read, Minus, Without, Distinct, Shape, Tiling, Chain, Framed, SizeOf, PrecedingUsed, FreeBefore, AllFree, Members;
      ghost var L := freeList;
      ChainDistinct(View(), L);
      MinusNothing(L);
      HeaderParts(View(), blocks, top, x);
      cursor, newSize := x, SizeOf(Read(x));
      MembersNone(blocks, x);
      FramedRefl(View(), blocks, 0, 0);
      BlockBounds(SPACE, blocks, top, x);
      while !PrecedingUsed(Read(cursor))
        invariant cursor in blocks && FIRST <= cursor <= x && AllFree(blocks, cursor, x)
        invariant cursor in View() && PrecedingUsed(Get(View(), cursor)) == !FreeBefore(blocks, cursor)
        invariant newSize == End(blocks, x) - cursor
        invariant freeList == Minus(L, Members(blocks, cursor, x))
        invariant Shape(View(), blocks, top) && Listed(top) && Framed(old(View()), View(), blocks, 0, 0)
        decreases cursor
      {
        ghost var m := View();
        ghost var y := BoundaryBefore(m, blocks, top, cursor);
        MembersBefore(blocks, top, y, cursor, x);
        MinusOne(L, Members(blocks, cursor, x), y);
        BlockBounds(SPACE, blocks, top, y);
        var size := SizeOf(Read(cursor - W));
        var freeBlock := cursor - size;
        RemoveFreeBlock(freeBlock, top);
        FramedTrans(old(View()), m, View(), blocks, 0, 0);
        ShapeKept(m, View(), blocks, top);
        newSize := newSize + size;
        cursor := freeBlock;
        HeaderParts(View(), blocks, top, cursor);
      }
    }

    /** The second loop of coalesceFreeBlock: walk up the heap over free blocks, taking them off the
        free list. */
    method AbsorbFollowing(x: int, start: int, ghost top: int) returns (cursor: int, added: int)
      requires Shape(View(), blocks, top) && Listed(top) && FreeAt(blocks, x) && start == End(blocks, x)
      requires forall y :: FreeAt(blocks, y) && start <= y ==> y in freeList
      modifies this`freeList, mem
      ensures start <= cursor <= top && (cursor in blocks || cursor == top)
      ensures AllFree(blocks, start, cursor) && !FreeAt(blocks, cursor)
      ensures added == cursor - start
      ensures freeList == Minus(old(freeList), Members(blocks, start, cursor))
      ensures Shape(View(), blocks, top) && Listed(top) && Framed(old(View()), View(), blocks, 0, 0)
    {
      hide View, Read, Minus, Without, Distinct, Shape, Tiling, Chain, Framed, SizeOf, Used, AllFree, Members;
      ghost var L := freeList;
      ChainDistinct(View(), L);
      MinusNothing(L);
      BlockBounds(SPACE, blocks, top, x);
      cursor, added := start, 0;
      MembersNone(blocks, start);
      FramedRefl(View(), blocks, 0, 0);
      UsedAt(View(), blocks, top, cursor);
      while !Used(Read(cursor))
        invariant start <= cursor <= top && (cursor in blocks || cursor == top) && AllFree(blocks, start, cursor)
        invariant cursor in View() && Used(Get(View(), cursor)) == !FreeAt(blocks, cursor)
        invariant added == cursor - start
        invariant freeList == Minus(L, Members(blocks, start, cursor))
        invariant Shape(View(), blocks, top) && Listed(top) && Framed(old(View()), View(), blocks, 0, 0)
        decreases top - cursor
      {
        ghost var m := View();
        BlockBounds(SPACE, blocks, top, cursor);
        HeaderParts(m, blocks, top, cursor);
        MembersAfter(blocks, top, start, cursor);
        MinusOne(L, Members(blocks, start, cursor), cursor);
        var size := SizeOf(Read(cursor));
        RemoveFreeBlock(cursor, top);
        FramedTrans(old(View()), m, View(), blocks, 0, 0);
        ShapeKept(m, View(), blocks, top);
        added := added + size;
        cursor := cursor + size;
        UsedAt(View(), blocks, top, cursor);
      }
    }

    /** The merged size goes into the header of s and the last word of the run; no pointer word of a
        block outside the run is one of these. */
    method WriteTags(s: int, e: int, w: Word, ghost top: int)
      requires Listed(top) && s in blocks && (e in blocks || e == top) && s < e && s in View() && e - W in View()
      requires forall y :: y in freeList ==> !(s <= y < e)
      modifies mem
      ensures Chain(View(), freeList) && Framed(old(View()), View(), blocks, s, e)
      ensures Get(View(), s) == Get(View(), e - W) == w
    {
      hide Chain, Tiling, View, Read;
      ghost var m := View();
      RunReach(blocks, top, s, e);
      Put(s, w);
      Put(e - W, w);
      forall y | y in freeList
        ensures Get(View(), y + W) == Get(m, y + W) && Get(View(), y + 2 * W) == Get(m, y + 2 * W)
      {
        LinksOutside(blocks, top, s, e, y);
      }
      BlockBounds(SPACE, blocks, top, s);
      ChainKept(m, View(), freeList);
    }

    /** What coalesceFreeBlock does once the block grew: x leaves the free list, the tags of the run
        are written, and the run becomes the head of the list. */
    method ReplaceRun(x: int, s: int, e: int, ghost top: int)
      requires Shape(View(), blocks, top) && Listed(top) && MaximalRun(blocks, top, x, s, e) && x in freeList
      requires forall y :: y in freeList && s <= y < e ==> y == x
      modifies this`freeList, this`blocks, mem
      ensures blocks == Fuse(old(blocks), s, e, true) && freeList == [s] + Without(old(freeList), x)
      ensures Shape(View(), blocks, top) && Chain(View(), freeList)
      ensures KeepsUsed(old(View()), View(), old(blocks))
    {
      hide View, Read, Without, IndexOf, Distinct, Shape, Tiling, Chain, Framed, FreeBefore, AllFree, Fuse, KeepsUsed;
      ghost var m, bm := View(), blocks;
      ChainDistinct(m, freeList);
      WithoutMembers(freeList, x);
      RemoveFreeBlock(x, top);
      ghost var m1 := View();
      ShapeKept(m, m1, bm, top);
      RunWords(m1, bm, top, s, e);
      WriteTags(s, e, e - s + PRECEDING_USED, top);
      ghost var m2 := View();
      FuseShape(m1, m2, bm, top, s, e);
      FuseFree(bm, s, e);
      blocks := Fuse(bm, s, e, true);
      ShapeTiling(m2, blocks, top);
      RunWords(m2, blocks, top, s, e);
      InsertFreeBlock(s, top);
      ShapeKept(m2, View(), blocks, top);
      RunKeepsUsed(m, m1, m2, View(), bm, top, s, e);
    }

    /** coalesceFreeBlock: oldBlock and all free blocks adjacent to it, in both directions, become
        one free block [s, e) with correct tags; no word of a used block changes. */
    method CoalesceFreeBlock(oldBlock: int, ghost top: int) returns (ghost s: int, ghost e: int)
      requires Inv(View(), blocks, top, freeList) && FreeAt(blocks, oldBlock)
      modifies this`freeList, this`blocks, mem
      ensures MaximalRun(old(blocks), top, oldBlock, s, e)
      ensures blocks == Fuse(old(blocks), s, e, true)
      ensures freeList == CoalescedList(old(blocks), old(freeList), oldBlock, s, e)
      ensures if s == oldBlock && e == End(old(blocks), oldBlock) then freeList == old(freeList)
              else freeList == [s] + Minus(old(freeList), Members(old(blocks), s, e))
      ensures Inv(View(), blocks, top, freeList)
      ensures KeepsUsed(old(View()), View(), old(blocks))
    {
      hide View, Read, Minus, Without, Distinct, Shape, Tiling, Chain, Framed, SizeOf, FreeBefore, AllFree, Members,
           KeepsUsed, Fuse;
      ghost var m, bm, L := View(), blocks, freeList;
      HeaderParts(m, bm, top, oldBlock);
      ShapeTiling(m, bm, top);
      var oldSize := SizeOf(Read(oldBlock));
      var newBlock, newSize := AbsorbPreceding(oldBlock, top);
      ghost var m1 := View();
      MembersBelow(bm, newBlock, oldBlock);
      BlockBounds(SPACE, bm, top, oldBlock);
      var cursor, added := AbsorbFollowing(oldBlock, oldBlock + oldSize, top);
      ghost var m2 := View();
      newSize := newSize + added;
      s, e := newBlock, cursor;
      FramedTrans(m, m1, m2, bm, 0, 0);
      RunJoined(bm, top, oldBlock, s, e);
      ChainDistinct(m, L);
      ListJoined(bm, top, L, oldBlock, s, e);
      if newSize != oldSize {
        ReplaceRun(oldBlock, newBlock, cursor, top);
        ListLinked(bm, top, L, oldBlock, s, e);
      } else {
        FuseAlone(bm, top, oldBlock);
        KeepsUsedRefl(m2, bm);
      }
      CoalesceKeepsUsed(m, m2, View(), bm, top);
    }

    // ----- growing

    /** mem_sbrk: move the break up, or fail with -1 and change nothing. */
    method Sbrk(incr: int) returns (r: int)
      requires 0 <= incr && 0 <= brk
      modifies this`brk
      ensures r == -1 <==> old(brk) + incr > W * mem.Length
      ensures r == -1 ==> brk == old(brk)
      ensures r != -1 ==> r == old(brk) && brk == old(brk) + incr
    {
      if brk + incr > W * mem.Length {
        return -1;
      }
      r := brk;
      brk := brk + incr;
    }

    /** The header of the new block takes the place of the old footer and inherits its
        preceding-used bit; the boundary tag and the new footer follow. */
    method TagNewSpace(newBlock: int, total: int)
      requires Shape(View(), blocks, newBlock) && Chain(View(), freeList) && Linked(blocks, freeList)
      requires MIN_BLOCK <= total && total % 8 == 0 && newBlock + total + W < WORD_LIMIT
      requires forall p {:trigger WordAddr(p)} :: WordAddr(p) && p <= newBlock + total ==> p in View()
      modifies mem
      ensures GrownWords(old(View()), View(), blocks, newBlock, total) && Chain(View(), freeList)
    {
      hide View, Read, Chain, Tiling, FreeBefore, PrecedingUsed, Used;
      ghost var m := View();
      ShapeTiling(m, blocks, newBlock);
      FooterParts(m, blocks, newBlock);
      NewWords(newBlock, total);
      var preceding := if PrecedingUsed(Read(newBlock)) then PRECEDING_USED else 0;
      Put(newBlock, total + preceding);
      Put(newBlock + total - W, total + preceding);
      Put(newBlock + total, USED);
      forall y | y in freeList
        ensures Get(View(), y + W) == Get(m, y + W) && Get(View(), y + 2 * W) == Get(m, y + 2 * W)
      {
        BlockBounds(SPACE, blocks, newBlock, y);
      }
      TilingTop(blocks, newBlock);
      ChainKept(m, View(), freeList);
    }

    /** requestMoreSpace.  ok says whether mem_sbrk succeeded; the source exits when it does not.
        The heap grows by the least number of pages covering reqSize; the new space, joined with the
        free blocks before it, becomes the last block, and it is on the free list. */
    method RequestMoreSpace(reqSize: int, pagesize: int) returns (ok: bool, ghost s: int)
      requires Valid() && W * mem.Length < WORD_LIMIT
      requires 1 <= reqSize && MIN_BLOCK <= pagesize && pagesize % 8 == 0 && reqSize + pagesize - 1 < WORD_LIMIT
      modifies this, mem
      ensures ok <==> old(brk) + Pages(reqSize, pagesize) <= W * mem.Length
      ensures !ok ==> Valid() && brk == old(brk) && blocks == old(blocks) && freeList == old(freeList) &&
                        View() == old(View())
      ensures ok ==> Valid() && brk == old(brk) + Pages(reqSize, pagesize)
      ensures ok ==> var grown := Grown(old(blocks), old(brk) - W, Pages(reqSize, pagesize));
                     MaximalRun(grown, brk - W, old(brk) - W, s, brk - W) && blocks == Fuse(grown, s, brk - W, true)
      ensures ok ==> freeList == [s] + Minus(old(freeList), Members(old(blocks), s, old(brk) - W))
      ensures ok ==> s in freeList && End(blocks, s) == brk - W && Fits(blocks, s, reqSize) && !FreeBefore(blocks, s)
      ensures ok ==> KeepsUsed(old(View()), View(), old(blocks))
    {
      hide Shape, Chain, Tiling, FreeBefore, KeepsUsed, AllFree, Fuse, Framed, Pages, GrownWords, Minus, Members;
      ghost var m, bm, top, L := View(), blocks, brk - W, freeList;
      PagesLeast(reqSize, pagesize);
      PagesAligned(reqSize, pagesize);
      var totalSize := Pages(reqSize, pagesize);
      s := 0;
      ShapeTiling(m, bm, top);
      TilingTop(bm, top);
      var sbrkResult := Sbrk(totalSize);
      if sbrkResult == -1 {
        return false, 0;
      }
      var newBlock := sbrkResult - W;
      TagNewSpace(newBlock, totalSize);
      ghost var m1 := View();
      GrownShape(m, m1, bm, top, totalSize);
      GrownFree(bm, top, totalSize);
      blocks := Grown(bm, top, totalSize);
      RunWords(m1, blocks, brk - W, newBlock, brk - W);
      InsertFreeBlock(newBlock, brk - W);
      ghost var m2 := View();
      ShapeKept(m1, m2, blocks, brk - W);
      ghost var e;
      s, e := CoalesceFreeBlock(newBlock, brk - W);
      LastBlock(bm, top, totalSize, s, e);
      ListGrown(bm, top, totalSize, L, s);
      GrowthKeepsUsed(m, m1, m2, View(), bm, top, totalSize);
      return true, s;
    }

    // ----- initialisation

    /** The writes of mm_init. */
    method LayFirstBlock()
      requires brk == MIN_BLOCK + 2 * W <= W * mem.Length
      modifies mem
      ensures FirstWords(View())
    {
      var firstFreeBlock := W;
      var totalSize := MIN_BLOCK;
      Put(firstFreeBlock, totalSize + PRECEDING_USED);
      Put(firstFreeBlock + W, 0);
      Put(firstFreeBlock + 2 * W, 0);
      Put(firstFreeBlock + totalSize - W, totalSize + PRECEDING_USED);
      Put(brk - W, USED);
      Put(0, firstFreeBlock);
    }

    /** mm_init on an empty heap: one free block of the minimum size between head word and footer. */
    method MmInit() returns (ok: bool)
      requires brk == 0
      modifies this, mem
      ensures ok <==> MIN_BLOCK + 2 * W <= W * mem.Length
      ensures ok ==> Valid() && brk == MIN_BLOCK + 2 * W && blocks == map[FIRST := Block(MIN_BLOCK, true)]
      ensures ok ==> freeList == [FIRST]
    {
      var sbrkResult := Sbrk(W + MIN_BLOCK + W);
      if sbrkResult == -1 {
        return false;
      }
      LayFirstBlock();
      blocks, freeList := map[FIRST := Block(MIN_BLOCK, true)], [FIRST];
      FirstInv(View());
      return true;
    }
  }
}
