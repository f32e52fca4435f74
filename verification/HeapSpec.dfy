/** What a heap state means and what each allocator step does to it, on values. */
module HeapSpec {
  import opened WordMemory
  import opened FreeChain
  import opened Lists
  import opened BlockMap
  import opened Partition

  const DSIZE := 8
  const FSIZE := 24
  const CHUNKSIZE := 4096

  /** Requested bytes of every live pointer. */
  type Contents = map<int, seq<Byte>>

  /** The free list holds exactly the free blocks, setting aside block skip. */
  ghost predicate Linked(bm: Blocks, fl: seq<int>, skip: int)
  {
    forall y :: y in fl <==> y in bm && bm[y].free && y != skip
  }

  /** A live pointer is an allocated block whose payload has room for the requested bytes. */
  ghost predicate LiveOk(bm: Blocks, live: Contents)
  {
    forall x :: x in live ==> x in bm && !bm[x].free && 0 < |live[x]| <= bm[x].size - DSIZE
  }

  ghost predicate Held(m: Memory, live: Contents, x: int)
    requires x in live
  {
    LoadBytes(m, x, |live[x]|) == live[x]
  }

  /** Memory holds the requested bytes of every live pointer. */
  ghost predicate Holds(m: Memory, live: Contents)
  {
    forall x {:trigger Held(m, live, x)} :: x in live ==> Held(m, live, x)
  }

  /** The invariant inside an operation, while block skip is not yet on the free list. */
  ghost predicate Inv(m: Memory, bm: Blocks, brk: int, fl: seq<int>, live: Contents, skip: int)
  {
    && Shape(m, bm, brk)
    && Chain(m, [PROLOGUE] + fl)
    && Linked(bm, fl, skip)
    && NoFreeNeighbours(bm, skip)
    && LiveOk(bm, live)
    && Holds(m, live)
  }

  /** A payload of an allocated block outside [lo, hi) is not written. */
  lemma PayloadKept(m1: Memory, m2: Memory, bm: Blocks, brk: int, lo: int, hi: int, x: int, n: nat)
    requires Tiling(SPACE, bm, brk) && Framed(m1, m2, bm, lo, hi) && WordAddr(x)
    requires x in bm && !bm[x].free && (End(bm, x) <= lo || hi <= x)
    requires n <= bm[x].size - DSIZE
    ensures LoadBytes(m2, x, n) == LoadBytes(m1, x, n)
  {
    assert SizeOk(SPACE, bm, brk, x);
    forall p | x <= p < x + n && p % 4 == 0
      ensures Get(m2, p) == Get(m1, p)
    {
      assert !Pointer(bm, p);
    }
    LoadBytesKept(m1, m2, x, n);
  }

  lemma LiveKept(m1: Memory, m2: Memory, bm: Blocks, brk: int, lo: int, hi: int, live: Contents)
    requires Tiling(SPACE, bm, brk) && AllAligned(bm) && LiveOk(bm, live) && Holds(m1, live)
    requires Framed(m1, m2, bm, lo, hi)
    requires forall x :: x in live ==> End(bm, x) <= lo || hi <= x
    ensures Holds(m2, live)
  {
    forall x | x in live
      ensures Held(m2, live, x)
    {
      assert AlignedAt(bm, x) && Held(m1, live, x);
      Multiple8(x, 0);
      PayloadKept(m1, m2, bm, brk, lo, hi, x, |live[x]|);
    }
  }

  lemma ChainDistinct(m: Memory, fl: seq<int>)
    requires Chain(m, [PROLOGUE] + fl)
    ensures Distinct(fl)
  {
    var L := [PROLOGUE] + fl;
    forall i, j | 0 <= i < j < |fl|
      ensures fl[i] != fl[j]
    {
      assert L[i + 1] != L[j + 1];
    }
  }

  // ----- coalescing

  ghost predicate FreeAfter(bm: Blocks, x: int)
    requires x in bm
  {
    End(bm, x) in bm && bm[End(bm, x)].free
  }

  ghost function RunStart(bm: Blocks, x: int): (s: int)
    ensures FreeBefore(bm, x) ==> Precedes(bm, s, x)
  {
    if FreeBefore(bm, x) then
      var y :| Precedes(bm, y, x);
      y
    else x
  }

  ghost function RunEnd(bm: Blocks, x: int): int
    requires x in bm
  {
    if FreeAfter(bm, x) then End(bm, End(bm, x)) else End(bm, x)
  }

  /** x and its free neighbours become one free block. */
  ghost function Coalesced(bm: Blocks, x: int): Blocks
    requires x in bm
  {
    Fuse(bm, RunStart(bm, x), RunEnd(bm, x), true)
  }

  ghost function Remaining(fl: seq<int>, before: bool, p: int, after: bool, n: int): seq<int>
  {
    var f := if after then Without(fl, n) else fl;
    if before then Without(f, p) else f
  }

  /** The merged block goes to the head of the free list; absorbed neighbours leave it. */
  ghost function CoalescedList(bm: Blocks, fl: seq<int>, x: int): seq<int>
    requires x in bm
  {
    [RunStart(bm, x)] + Remaining(fl, FreeBefore(bm, x), RunStart(bm, x), FreeAfter(bm, x), End(bm, x))
  }

  function GetSize(w: Word): Word { w - w % 8 }

  predicate GetAlloc(w: Word) { w % 2 == 1 }

  lemma UnpackTag(w: Word, b: Block)
    requires w == Tag(b) && b.size % 8 == 0
    ensures GetSize(w) == b.size && GetAlloc(w) == !b.free
  {
    var k := b.size / 8;
    var t := if b.free then 0 else 1;
    assert w == 8 * k + t;
    assert w / 8 == k;
    assert w / 2 == 4 * k;
  }

  /** A tag gives back size and free bit. */
  lemma TagParts(m: Memory, bm: Blocks, brk: int, x: int)
    requires Shape(m, bm, brk) && x in bm
    ensures GetSize(Get(m, x - 4)) == GetSize(Get(m, End(bm, x) - 8)) == bm[x].size
    ensures GetAlloc(Get(m, x - 4)) == GetAlloc(Get(m, End(bm, x) - 8)) == !bm[x].free
  {
    assert Tagged(m, bm, x) && AlignedAt(bm, x);
    UnpackTag(Get(m, x - 4), bm[x]);
  }

  lemma BlockBefore(bm: Blocks, brk: int, x: int, p: int)
    requires Tiling(SPACE, bm, brk) && x in bm && p in bm && End(bm, p) == x
    ensures p < x && (FreeBefore(bm, x) <==> bm[p].free)
    ensures RunStart(bm, x) == if bm[p].free then p else x
  {
    assert SizeOk(SPACE, bm, brk, p);
    if bm[p].free {
      assert Precedes(bm, p, x);
    }
    forall y | y in bm && End(bm, y) == x
      ensures y == p
    {
      assert SizeOk(SPACE, bm, brk, y);
    }
  }

  lemma NothingBefore(bm: Blocks, brk: int)
    requires Tiling(SPACE, bm, brk)
    ensures !FreeBefore(bm, FIRST) && RunStart(bm, FIRST) == FIRST
  {
    forall y | y in bm
      ensures !Precedes(bm, y, FIRST)
    {
      assert SizeOk(SPACE, bm, brk, y);
    }
  }

  /** What the boundary tags say about the block before x: p is where it starts (x itself when x is
      the first block), and the tag found there tells whether it is free. */
  lemma TagBefore(m: Memory, bm: Blocks, brk: int, x: int) returns (p: int)
    requires Shape(m, bm, brk) && x in bm
    ensures p == x - GetSize(Get(m, x - 8)) && p in bm
    ensures p != x ==> End(bm, p) == x && p < x
    ensures FreeBefore(bm, x) <==> p != x && bm[p].free
    ensures RunStart(bm, x) == if FreeBefore(bm, x) then p else x
  {
    assert SizeOk(SPACE, bm, brk, x);
    if x == FIRST {
      p := x;
      NothingBefore(bm, brk);
    } else {
      p := Predecessor(SPACE, bm, brk, x);
      BlockBefore(bm, brk, x, p);
      TagParts(m, bm, brk, p);
    }
  }

  /** What the header after x says: the next block's tag, or the epilogue's. */
  lemma TagAfter(m: Memory, bm: Blocks, brk: int, x: int)
    requires Shape(m, bm, brk) && x in bm
    ensures End(bm, x) - 4 in m && GetAlloc(Get(m, End(bm, x) - 4)) <==> !FreeAfter(bm, x)
    ensures FreeAfter(bm, x) ==> GetSize(Get(m, End(bm, x) - 4)) == bm[End(bm, x)].size
  {
    assert SizeOk(SPACE, bm, brk, x) && NextOk(bm, brk, x);
    if End(bm, x) in bm {
      TagParts(m, bm, brk, End(bm, x));
    }
  }

  /** The run around x is made of whole blocks of bm. */
  lemma RunBounds(bm: Blocks, brk: int, x: int)
    requires Tiling(SPACE, bm, brk) && x in bm
    ensures RunStart(bm, x) in bm && RunStart(bm, x) <= x
    ensures x < RunEnd(bm, x) && (RunEnd(bm, x) in bm || RunEnd(bm, x) == brk) && RunEnd(bm, x) <= brk
  {
    assert SizeOk(SPACE, bm, brk, x) && NextOk(bm, brk, x);
    if FreeAfter(bm, x) {
      assert SizeOk(SPACE, bm, brk, End(bm, x)) && NextOk(bm, brk, End(bm, x));
    }
    if FreeBefore(bm, x) {
      assert SizeOk(SPACE, bm, brk, RunStart(bm, x));
    }
  }

  /** Every block from RunStart up to RunEnd is free, and is x or a neighbour of x. */
  lemma RunMembers(bm: Blocks, brk: int, x: int, y: int)
    requires Tiling(SPACE, bm, brk) && x in bm && bm[x].free
    requires y in bm && RunStart(bm, x) <= y < RunEnd(bm, x)
    ensures y == RunStart(bm, x) || y == x || (FreeAfter(bm, x) && y == End(bm, x))
    ensures bm[y].free
  {
    RunBounds(bm, brk, x);
    assert SizeOk(SPACE, bm, brk, y) && SizeOk(SPACE, bm, brk, x);
    if y < x {
      assert Precedes(bm, RunStart(bm, x), x);
    }
  }

  lemma CoalescedNeighbours(bm: Blocks, brk: int, x: int)
    requires Tiling(SPACE, bm, brk) && x in bm && bm[x].free && NoFreeNeighbours(bm, x)
    ensures NoFreeNeighbours(Coalesced(bm, x), 0)
  {
    var f, lo, hi := Coalesced(bm, x), RunStart(bm, x), RunEnd(bm, x);
    RunBounds(bm, brk, x);
    forall y, z | y in f && z in f && End(f, y) == z
      ensures !(f[y].free && f[z].free)
    {
      assert SizeOk(SPACE, bm, brk, y) && SizeOk(SPACE, bm, brk, z) && SizeOk(SPACE, bm, brk, x);
      if z == lo {
        assert bm[y].free ==> !FreeBefore(bm, x) || lo != x;
        if lo == x && bm[y].free {
          assert Precedes(bm, y, x);
        }
      }
    }
  }

  lemma CoalescedLinks(bm: Blocks, brk: int, fl: seq<int>, x: int)
    requires Tiling(SPACE, bm, brk) && x in bm && bm[x].free && Linked(bm, fl, x) && Distinct(fl)
    ensures Linked(Coalesced(bm, x), CoalescedList(bm, fl, x), 0)
    ensures RunStart(bm, x) !in CoalescedList(bm, fl, x)[1..]
    ensures Distinct(CoalescedList(bm, fl, x))
  {
    var f, lo, hi := Coalesced(bm, x), RunStart(bm, x), RunEnd(bm, x);
    RunBounds(bm, brk, x);
    WithoutMembers(fl, End(bm, x));
    WithoutMembers(if FreeAfter(bm, x) then Without(fl, End(bm, x)) else fl, lo);
    forall y
      ensures y in CoalescedList(bm, fl, x) <==> y in f && f[y].free
    {
      if y in bm && lo <= y < hi {
        RunMembers(bm, brk, x, y);
      }
    }
  }

  lemma CoalescedLive(bm: Blocks, brk: int, live: Contents, x: int)
    requires Tiling(SPACE, bm, brk) && x in bm && bm[x].free && LiveOk(bm, live)
    ensures LiveOk(Coalesced(bm, x), live)
    ensures forall y :: y in live ==> End(bm, y) <= RunStart(bm, x) || RunEnd(bm, x) <= y
  {
    RunBounds(bm, brk, x);
    forall y | y in live
      ensures End(bm, y) <= RunStart(bm, x) || RunEnd(bm, x) <= y
    {
      if RunStart(bm, x) <= y < RunEnd(bm, x) {
        RunMembers(bm, brk, x, y);
      }
    }
  }

  /** The word at a is no pointer and gives size s. */
  ghost predicate SizeAt(m: Memory, bm: Blocks, a: int, s: int)
  {
    a in m && !Pointer(bm, a) && GetSize(Get(m, a)) == s
  }

  /** The tags below x: the block before starts at p (p == x if there is none). */
  ghost predicate SurveyedBefore(m: Memory, bm: Blocks, x: int, p: int, before: bool)
  {
    && 0 < p <= x
    && x - DSIZE in m && GetSize(Get(m, x - DSIZE)) == x - p
    && (p == x ==> !before)
    && (p != x ==> p + DSIZE < x && SizeAt(m, bm, p - 4, x - p) && SizeAt(m, bm, x - DSIZE, x - p))
    && (p != x ==> GetAlloc(Get(m, x - DSIZE)) == !before)
  }

  /** The tags from x on: x ends at n, and the run that absorbs a free block after x ends at e. */
  ghost predicate SurveyedAfter(m: Memory, bm: Blocks, x: int, n: int, e: int, after: bool)
  {
    && 0 < x < n - DSIZE && n <= e < WORD_LIMIT && GetSize(e - x) == e - x
    && SizeAt(m, bm, x - 4, n - x) && SizeAt(m, bm, n - DSIZE, n - x)
    && n - 4 in m && GetAlloc(Get(m, n - 4)) == !after
    && (after ==> n < e - DSIZE && SizeAt(m, bm, n - 4, e - n) && SizeAt(m, bm, e - DSIZE, e - n))
    && (!after ==> e == n)
  }

  lemma TagWords(m: Memory, bm: Blocks, brk: int, x: int)
    requires Shape(m, bm, brk) && x in bm
    ensures x - 4 in m && x - DSIZE in m && End(bm, x) - DSIZE in m && End(bm, x) - 4 in m
  {
    assert AlignedAt(bm, x) && SizeOk(SPACE, bm, brk, x);
    Multiple8(x, bm[x].size);
    Multiple8(End(bm, x), 0);
  }

  lemma TagAddresses(m: Memory, bm: Blocks, brk: int, x: int)
    requires Shape(m, bm, brk) && x in bm
    ensures SizeAt(m, bm, x - 4, bm[x].size) && SizeAt(m, bm, End(bm, x) - DSIZE, bm[x].size)
    ensures SizeOk(SPACE, bm, brk, x)
  {
    assert SizeOk(SPACE, bm, brk, x);
    TagParts(m, bm, brk, x);
    TagsAreNotPointers(bm, brk, x);
    TagWords(m, bm, brk, x);
  }

  lemma SurveyBefore(m: Memory, bm: Blocks, brk: int, x: int) returns (p: int)
    requires Shape(m, bm, brk) && x in bm
    ensures SurveyedBefore(m, bm, x, p, FreeBefore(bm, x))
    ensures RunStart(bm, x) == if FreeBefore(bm, x) then p else x
    ensures FreeBefore(bm, x) ==> FreeAt(bm, p) && p != x
  {
    p := TagBefore(m, bm, brk, x);
    TagWords(m, bm, brk, x);
    TagWords(m, bm, brk, p);
    assert SizeOk(SPACE, bm, brk, p);
    if p != x {
      TagAddresses(m, bm, brk, p);
      TagParts(m, bm, brk, p);
    }
  }

  lemma RunSize(m: Memory, bm: Blocks, brk: int, x: int)
    requires Shape(m, bm, brk) && x in bm
    ensures 0 <= RunEnd(bm, x) - x < WORD_LIMIT && GetSize(RunEnd(bm, x) - x) == RunEnd(bm, x) - x
  {
    assert AlignedAt(bm, x) && SizeOk(SPACE, bm, brk, x);
    if FreeAfter(bm, x) {
      assert AlignedAt(bm, End(bm, x)) && SizeOk(SPACE, bm, brk, End(bm, x));
      Multiple8(bm[x].size, bm[End(bm, x)].size);
    }
  }

  lemma SurveyAfter(m: Memory, bm: Blocks, brk: int, x: int)
    requires Shape(m, bm, brk) && x in bm
    ensures SurveyedAfter(m, bm, x, End(bm, x), RunEnd(bm, x), FreeAfter(bm, x))
  {
    TagAfter(m, bm, brk, x);
    TagAddresses(m, bm, brk, x);
    TagWords(m, bm, brk, x);
    if FreeAfter(bm, x) {
      TagAddresses(m, bm, brk, End(bm, x));
      TagWords(m, bm, brk, End(bm, x));
    }
    RunSize(m, bm, brk, x);
  }

  /** What coalesce reads around x, and that the neighbours it removes are on the free list. */
  lemma SurveyRun(m: Memory, bm: Blocks, brk: int, fl: seq<int>, x: int) returns (p: int)
    requires Shape(m, bm, brk) && FreeAt(bm, x) && Linked(bm, fl, x) && Distinct(fl)
    ensures SurveyedBefore(m, bm, x, p, FreeBefore(bm, x))
    ensures SurveyedAfter(m, bm, x, End(bm, x), RunEnd(bm, x), FreeAfter(bm, x))
    ensures !GetAlloc(Get(m, End(bm, x) - DSIZE)) && Get(m, x - 4) == Get(m, End(bm, x) - DSIZE) == bm[x].size
    ensures if FreeBefore(bm, x) then RunStart(bm, x) == p else RunStart(bm, x) == x
    ensures FreeAfter(bm, x) ==> End(bm, x) in fl
    ensures FreeBefore(bm, x) ==> p in fl && p in (if FreeAfter(bm, x) then Without(fl, End(bm, x)) else fl)
  {
    p := SurveyBefore(m, bm, brk, x);
    SurveyAfter(m, bm, brk, x);
    TagParts(m, bm, brk, x);
    assert Tagged(m, bm, x) && SizeOk(SPACE, bm, brk, x);
    if FreeAfter(bm, x) {
      WithoutMembers(fl, End(bm, x));
    }
  }

  lemma FreeNode(m: Memory, bm: Blocks, brk: int, r: int)
    requires Shape(m, bm, brk) && r in bm
    ensures NodeAddr(m, r) && PROLOGUE < r
  {
    assert SizeOk(SPACE, bm, brk, r) && AlignedAt(bm, r);
    Multiple8(r, 0);
    Multiple8(r, 8);
    Multiple8(r + 8, 0);
  }

  /** The state between merging and linking the merged block r in. */
  ghost predicate Merged(m: Memory, bm: Blocks, brk: int, fl: seq<int>, live: Contents, r: int)
  {
    && Shape(m, bm, brk)
    && Chain(m, [PROLOGUE] + fl)
    && FreeAt(bm, r) && Linked(bm, fl, r)
    && NoFreeNeighbours(bm, 0)
    && LiveOk(bm, live)
    && Holds(m, live)
  }

  lemma CoalescedShape(m1: Memory, m2: Memory, bm: Blocks, brk: int, x: int)
    requires Shape(m1, bm, brk) && x in bm
    requires Framed(m1, m2, bm, RunStart(bm, x), RunEnd(bm, x))
    requires var lo, hi := RunStart(bm, x), RunEnd(bm, x); Get(m2, lo - 4) == Get(m2, hi - DSIZE) == hi - lo
    ensures Shape(m2, Coalesced(bm, x), brk)
  {
    var f, lo, hi := Coalesced(bm, x), RunStart(bm, x), RunEnd(bm, x);
    RunBounds(bm, brk, x);
    assert SizeOk(SPACE, bm, brk, lo);
    FuseTiling(SPACE, bm, brk, lo, hi, true);
    FuseAligned(bm, brk, lo, hi, true);
    Reshape(m1, m2, bm, f, brk, lo, hi);
  }

  lemma AfterMerge(m1: Memory, m2: Memory, bm: Blocks, brk: int, fl: seq<int>, fl2: seq<int>, live: Contents, x: int, lo: int, hi: int)
    requires Inv(m1, bm, brk, fl, live, x) && FreeAt(bm, x) && lo == RunStart(bm, x) && hi == RunEnd(bm, x)
    requires Framed(m1, m2, bm, lo, hi) && Get(m2, lo - 4) == Get(m2, hi - DSIZE) == hi - lo
    requires Chain(m2, [PROLOGUE] + fl2) && [lo] + fl2 == CoalescedList(bm, fl, x)
    ensures Merged(m2, Coalesced(bm, x), brk, fl2, live, lo)
  {
    CoalescedShape(m1, m2, bm, brk, x);
    ChainDistinct(m1, fl);
    CoalescedLinks(bm, brk, fl, x);
    CoalescedNeighbours(bm, brk, x);
    CoalescedLive(bm, brk, live, x);
    RunBounds(bm, brk, x);
    LiveKept(m1, m2, bm, brk, RunStart(bm, x), RunEnd(bm, x), live);
    assert CoalescedList(bm, fl, x)[1..] == fl2;
    assert forall y :: y in fl2 <==> y in [RunStart(bm, x)] + fl2 && y != RunStart(bm, x);
  }

  lemma AfterInsert(m1: Memory, m2: Memory, bm: Blocks, brk: int, fl: seq<int>, live: Contents, r: int)
    requires Merged(m1, bm, brk, fl, live, r)
    requires Framed(m1, m2, bm, 0, 0) && Chain(m2, [PROLOGUE] + ([r] + fl))
    ensures Inv(m2, bm, brk, [r] + fl, live, 0)
  {
    Reshape(m1, m2, bm, bm, brk, 0, 0);
    forall x | x in live
      ensures 0 <= x
    {
      assert SizeOk(SPACE, bm, brk, x);
    }
    LiveKept(m1, m2, bm, brk, 0, 0, live);
  }

  // ----- marking, placing and extending

  /** Block x with its free bit set to free. */
  ghost function Mark(bm: Blocks, x: int, free: bool): Blocks
    requires x in bm
  {
    bm[x := Block(bm[x].size, free)]
  }

  /** A remainder of more than 24 bytes is split off, a smaller one is left in the block. */
  ghost predicate Splits(bm: Blocks, x: int, a: int)
    requires x in bm
  {
    bm[x].size - a > FSIZE
  }

  ghost function Placed(bm: Blocks, x: int, a: int): Blocks
    requires x in bm
  {
    if Splits(bm, x, a) then Split(bm, x, a) else Mark(bm, x, false)
  }

  ghost function PlacedList(bm: Blocks, fl: seq<int>, x: int, a: int): seq<int>
    requires x in bm
  {
    if Splits(bm, x, a) then [x + a] + Without(fl, x) else Without(fl, x)
  }

  lemma MarkTiling(bm: Blocks, brk: int, x: int, free: bool)
    requires Tiling(SPACE, bm, brk) && x in bm && AllAligned(bm)
    ensures Tiling(SPACE, Mark(bm, x, free), brk) && AllAligned(Mark(bm, x, free))
  {
    var f := Mark(bm, x, free);
    forall y | y in f
      ensures SizeOk(SPACE, f, brk, y) && NextOk(f, brk, y) && AlignedAt(f, y)
    {
      assert SizeOk(SPACE, bm, brk, y) && NextOk(bm, brk, y) && AlignedAt(bm, y);
    }
  }

  /** The tags of block y in m record its entry in bm. */
  lemma MarkedShape(m1: Memory, m2: Memory, bm: Blocks, brk: int, x: int, free: bool)
    requires Shape(m1, bm, brk) && x in bm && Framed(m1, m2, bm, x, End(bm, x))
    requires Tagged(m2, Mark(bm, x, free), x)
    ensures Shape(m2, Mark(bm, x, free), brk)
  {
    MarkTiling(bm, brk, x, free);
    assert SizeOk(SPACE, bm, brk, x);
    Reshape(m1, m2, bm, Mark(bm, x, free), brk, x, End(bm, x));
  }

  /** mm_free up to the call of coalesce. */
  lemma AfterFreeMark(m1: Memory, m2: Memory, bm: Blocks, brk: int, fl: seq<int>, live: Contents, x: int)
    requires Inv(m1, bm, brk, fl, live, 0) && x in live
    requires Framed(m1, m2, bm, x, End(bm, x)) && Chain(m2, [PROLOGUE] + fl) && Tagged(m2, Mark(bm, x, true), x)
    ensures Inv(m2, Mark(bm, x, true), brk, fl, live - {x}, x)
  {
    MarkedShape(m1, m2, bm, brk, x, true);
    assert SizeOk(SPACE, bm, brk, x);
    assert !FreeAt(bm, 0);
    forall y | y in live - {x}
      ensures Held(m1, live - {x}, y)
    {
      assert Held(m1, live, y);
    }
    LiveKept(m1, m2, bm, brk, x, End(bm, x), live - {x});
  }

  /** place without a split. */
  lemma AfterPlaceWhole(m1: Memory, m2: Memory, bm: Blocks, brk: int, fl: seq<int>, live: Contents, x: int)
    requires Inv(m1, bm, brk, fl, live, 0) && x in fl
    requires Framed(m1, m2, bm, x, End(bm, x)) && Chain(m2, [PROLOGUE] + Without(fl, x)) && Tagged(m2, Mark(bm, x, false), x)
    ensures Inv(m2, Mark(bm, x, false), brk, Without(fl, x), live, 0)
  {
    MarkedShape(m1, m2, bm, brk, x, false);
    ChainDistinct(m1, fl);
    WithoutMembers(fl, x);
    assert SizeOk(SPACE, bm, brk, x);
    LiveKept(m1, m2, bm, brk, x, End(bm, x), live);
  }

  lemma SplitAligned(bm: Blocks, x: int, a: int)
    requires AllAligned(bm) && x in bm && a % 8 == 0
    ensures AllAligned(Split(bm, x, a))
  {
    var f := Split(bm, x, a);
    forall y | y in f
      ensures AlignedAt(f, y)
    {
      assert AlignedAt(bm, x);
      Multiple8(x, a);
      Multiple8(bm[x].size, -a);
      assert y in bm ==> AlignedAt(bm, y);
    }
  }

  lemma SplitShape(m1: Memory, m2: Memory, bm: Blocks, brk: int, x: int, a: int)
    requires Shape(m1, bm, brk) && x in bm && a % 8 == 0 && MIN_BLOCK <= a <= bm[x].size - MIN_BLOCK
    requires Framed(m1, m2, bm, x, End(bm, x))
    requires Get(m2, x - 4) == Get(m2, x + a - DSIZE) == a + 1
    requires Get(m2, x + a - 4) == Get(m2, End(bm, x) - DSIZE) == bm[x].size - a
    ensures Shape(m2, Split(bm, x, a), brk)
  {
    SplitTiling(bm, brk, x, a);
    SplitAligned(bm, x, a);
    assert SizeOk(SPACE, bm, brk, x);
    assert Tagged(m2, Split(bm, x, a), x) && Tagged(m2, Split(bm, x, a), x + a);
    Reshape(m1, m2, bm, Split(bm, x, a), brk, x, End(bm, x));
  }

  /** The word at a may be overwritten by a tag. */
  ghost predicate TagWord(m: Memory, bm: Blocks, a: int)
  {
    a in m && !Pointer(bm, a)
  }

  lemma CutWordsReady(m: Memory, bm: Blocks, brk: int, x: int, a: int)
    requires Shape(m, bm, brk) && FreeAt(bm, x) && a % 8 == 0 && MIN_BLOCK <= a <= bm[x].size - MIN_BLOCK
    ensures TagWord(m, bm, x + a - 4) && TagWord(m, bm, x + a - DSIZE)
    ensures (bm[x].size - a) % 8 == 0
  {
    assert SizeOk(SPACE, bm, brk, x) && AlignedAt(bm, x);
    Multiple8(x, a);
    Multiple8(x + a, 0);
    Multiple8(bm[x].size, -a);
  }

  /** place with a split, up to the call of coalesce. */
  lemma AfterPlaceSplit(m1: Memory, m2: Memory, bm: Blocks, brk: int, fl: seq<int>, live: Contents, x: int, a: int)
    requires Inv(m1, bm, brk, fl, live, 0) && x in fl && a % 8 == 0 && MIN_BLOCK <= a <= bm[x].size - MIN_BLOCK
    requires Framed(m1, m2, bm, x, End(bm, x)) && Chain(m2, [PROLOGUE] + Without(fl, x))
    requires Get(m2, x - 4) == Get(m2, x + a - DSIZE) == a + 1
    requires Get(m2, x + a - 4) == Get(m2, End(bm, x) - DSIZE) == bm[x].size - a
    ensures Inv(m2, Split(bm, x, a), brk, Without(fl, x), live, x + a)
    ensures Settled(Split(bm, x, a), Without(fl, x), x + a)
  {
    hide Chain, Held, Linked, NoFreeNeighbours;
    ChainDistinct(m1, fl);
    SplitLinks(bm, brk, fl, live, x, a);
    SplitShape(m1, m2, bm, brk, x, a);
    SplitTiling(bm, brk, x, a);
    LiveKept(m1, m2, bm, brk, x, End(bm, x), live);
    BlockBefore(Split(bm, x, a), brk, x + a, x);
    SplitNeighbours(bm, brk, x, a);
    CoalesceAlone(Split(bm, x, a), brk, Without(fl, x), x + a);
  }

  lemma SplitLinks(bm: Blocks, brk: int, fl: seq<int>, live: Contents, x: int, a: int)
    requires Tiling(SPACE, bm, brk) && Linked(bm, fl, 0) && Distinct(fl) && LiveOk(bm, live)
    requires x in fl && MIN_BLOCK <= a <= bm[x].size - MIN_BLOCK
    ensures Linked(Split(bm, x, a), Without(fl, x), x + a) && LiveOk(Split(bm, x, a), live)
    ensures FreeAt(bm, x) && forall y :: y in live ==> End(bm, y) <= x || End(bm, x) <= y
  {
    WithoutMembers(fl, x);
    SplitDisjoint(bm, x, a);
    assert SizeOk(SPACE, bm, brk, x);
  }

  lemma SplitNeighbours(bm: Blocks, brk: int, x: int, a: int)
    requires Tiling(SPACE, bm, brk) && FreeAt(bm, x) && NoFreeNeighbours(bm, 0) && MIN_BLOCK <= a <= bm[x].size - MIN_BLOCK
    ensures NoFreeNeighbours(Split(bm, x, a), x + a)
    ensures !FreeAfter(Split(bm, x, a), x + a)
  {
    SplitTiling(bm, brk, x, a);
    assert SizeOk(SPACE, bm, brk, x);
    var f := Split(bm, x, a);
    if End(bm, x) in bm {
      assert SizeOk(SPACE, bm, brk, End(bm, x));
    }
    forall y, z | y in f && z in f && End(f, y) == z && y != x + a && z != x + a
      ensures !(f[y].free && f[z].free)
    {
      assert y in bm && z in bm && SizeOk(SPACE, bm, brk, y) && SizeOk(SPACE, bm, brk, z);
    }
  }

  ghost predicate Lone(bm: Blocks, x: int)
  {
    FreeAt(bm, x) && !FreeBefore(bm, x) && !FreeAfter(bm, x)
  }

  /** Coalescing x only puts it on the list. */
  ghost predicate Settled(bm: Blocks, fl: seq<int>, x: int)
  {
    FreeAt(bm, x) && Coalesced(bm, x) == bm && CoalescedList(bm, fl, x) == [x] + fl
  }

  /** Coalescing a block without free neighbours only puts it on the list. */
  lemma CoalesceAlone(bm: Blocks, brk: int, fl: seq<int>, x: int)
    requires Tiling(SPACE, bm, brk) && Lone(bm, x)
    ensures Settled(bm, fl, x) && RunStart(bm, x) == x
  {
    assert SizeOk(SPACE, bm, brk, x);
    var f := Coalesced(bm, x);
    assert forall y :: y in f <==> y in bm;
  }

  lemma GrownOk(bm: Blocks, brk: int, size: int)
    requires Tiling(SPACE, bm, brk) && AllAligned(bm) && brk % 8 == 0 && size % 8 == 0 && MIN_BLOCK <= size
    ensures Tiling(SPACE, Grown(bm, brk, size), brk + size) && AllAligned(Grown(bm, brk, size))
    ensures brk !in bm
  {
    GrownTiling(SPACE, bm, brk, size);
    GrownAligned(bm, brk, size);
  }

  lemma GrownShape(m1: Memory, m2: Memory, bm: Blocks, brk: int, size: int)
    requires Shape(m1, bm, brk) && size % 8 == 0 && MIN_BLOCK <= size && brk + size < WORD_LIMIT
    requires forall p {:trigger WordAddr(p)} :: WordAddr(p) && p < brk + size ==> p in m2
    requires Framed(m1, m2, bm, brk, brk + size + 4) && Get(m2, brk + size - 4) == 1
    requires Get(m2, brk - 4) == Get(m2, brk + size - DSIZE) == size
    ensures Shape(m2, Grown(bm, brk, size), brk + size)
  {
    var f := Grown(bm, brk, size);
    GrownOk(bm, brk, size);
    Multiple8(brk, size);
    forall y | y in f
      ensures Tagged(m2, f, y)
    {
      if y != brk {
        assert SizeOk(SPACE, bm, brk, y) && Tagged(m1, bm, y);
        TagsAreNotPointers(bm, brk, y);
      }
    }
    assert !Pointer(bm, 4) && !Pointer(bm, 24);
  }

  /** extend_heap up to the call of coalesce. */
  lemma AfterGrow(m1: Memory, m2: Memory, bm: Blocks, brk: int, fl: seq<int>, live: Contents, size: int)
    requires Inv(m1, bm, brk, fl, live, 0) && size % 8 == 0 && MIN_BLOCK <= size && brk + size < WORD_LIMIT
    requires forall p {:trigger WordAddr(p)} :: WordAddr(p) && p < brk + size ==> p in m2
    requires Framed(m1, m2, bm, brk, brk + size + 4) && Get(m2, brk + size - 4) == 1
    requires Get(m2, brk - 4) == Get(m2, brk + size - DSIZE) == size
    requires Chain(m2, [PROLOGUE] + fl)
    ensures Inv(m2, Grown(bm, brk, size), brk + size, fl, live, brk)
  {
    GrownShape(m1, m2, bm, brk, size);
    GrownOk(bm, brk, size);
    assert !FreeAt(bm, 0);
    forall y | y in live
      ensures End(bm, y) <= brk
    {
      assert SizeOk(SPACE, bm, brk, y);
    }
    LiveKept(m1, m2, bm, brk, brk, brk + size + 4, live);
  }

  // ----- searching

  /** The first block of the list with at least a bytes, 0 if there is none. */
  ghost function FirstFit(bm: Blocks, fl: seq<int>, a: int): int
  {
    if fl == [] then 0
    else if fl[0] in bm && a <= bm[fl[0]].size then fl[0]
    else FirstFit(bm, fl[1..], a)
  }

  /** Block k of the list is the first one with at least a bytes. */
  ghost predicate FirstLarge(bm: Blocks, fl: seq<int>, a: int, k: int)
  {
    && 0 <= k < |fl| && fl[k] in bm && a <= bm[fl[k]].size
    && forall j :: 0 <= j < k ==> fl[j] in bm && bm[fl[j]].size < a
  }

  /** No block of the list has a bytes. */
  ghost predicate NoneLarge(bm: Blocks, fl: seq<int>, a: int)
  {
    forall y :: y in fl ==> y in bm && bm[y].size < a
  }

  lemma {:induction false} FirstFitFound(bm: Blocks, fl: seq<int>, a: int) returns (k: nat)
    requires forall y :: y in fl ==> y in bm && y != 0
    ensures if k < |fl| then FirstLarge(bm, fl, a, k) && FirstFit(bm, fl, a) == fl[k] != 0
            else FirstFit(bm, fl, a) == 0 && NoneLarge(bm, fl, a)
  {
    k := 0;
    if fl != [] {
      var y0 := fl[0];
      assert y0 in fl && y0 in bm && forall y :: y in fl[1..] ==> y in fl;
      if bm[y0].size < a {
        var k0 := FirstFitFound(bm, fl[1..], a);
        k := k0 + 1;
        assert forall j :: 0 < j <= k0 && j < |fl| ==> fl[j] == fl[1..][j - 1];
      }
    }
  }

  // ----- whole operations on layouts

  /** The state of the allocator apart from memory contents. */
  datatype Layout = Layout(blocks: Blocks, brk: int, freeList: seq<int>)

  ghost predicate WellFormed(l: Layout)
  {
    && Tiling(SPACE, l.blocks, l.brk) && AllAligned(l.blocks) && l.brk % 8 == 0
    && Linked(l.blocks, l.freeList, 0) && Distinct(l.freeList)
    && NoFreeNeighbours(l.blocks, 0)
  }

  ghost function PlaceAt(l: Layout, x: int, a: int): Layout
  {
    if x !in l.blocks then l
    else l.(blocks := Placed(l.blocks, x, a), freeList := PlacedList(l.blocks, l.freeList, x, a))
  }

  ghost function CoalesceAt(l: Layout, x: int): Layout
    requires x in l.blocks
  {
    l.(blocks := Coalesced(l.blocks, x), freeList := CoalescedList(l.blocks, l.freeList, x))
  }

  ghost function ExtendBy(l: Layout, size: int): Layout
  {
    CoalesceAt(Layout(Grown(l.blocks, l.brk, size), l.brk + size, l.freeList), l.brk)
  }

  /** Where the block found by extending starts. */
  ghost function ExtendedAt(l: Layout, size: int): int
  {
    RunStart(Grown(l.blocks, l.brk, size), l.brk)
  }

  ghost function ReleaseAt(l: Layout, x: int): Layout
  {
    if x !in l.blocks then l
    else CoalesceAt(l.(blocks := Mark(l.blocks, x, true)), x)
  }

  function ExtendSize(a: int): (r: int)
    requires a % 8 == 0
    ensures r % 8 == 0 && r >= a
  {
    if a > CHUNKSIZE then a else CHUNKSIZE
  }

  /** Whether an allocation of a bytes succeeds in a heap of at most cap bytes. */
  ghost predicate CanMalloc(l: Layout, cap: int, a: int)
    requires a % 8 == 0
  {
    FirstFit(l.blocks, l.freeList, a) != 0 || l.brk + ExtendSize(a) <= cap
  }

  ghost function MallocAt(l: Layout, a: int): int
    requires a % 8 == 0
  {
    var x := FirstFit(l.blocks, l.freeList, a);
    if x != 0 then x else ExtendedAt(l, ExtendSize(a))
  }

  /** The layout before placing. */
  ghost function MallocFrom(l: Layout, a: int): Layout
    requires a % 8 == 0
  {
    if FirstFit(l.blocks, l.freeList, a) != 0 then l else ExtendBy(l, ExtendSize(a))
  }

  /** A freshly allocated block becomes live with whatever bytes it holds. */
  lemma AfterAlloc(m: Memory, bm: Blocks, brk: int, fl: seq<int>, live: Contents, x: int, n: nat)
    requires Inv(m, bm, brk, fl, live, 0) && x in bm && !bm[x].free && x !in live && 0 < n <= bm[x].size - DSIZE
    ensures Inv(m, bm, brk, fl, live[x := LoadBytes(m, x, n)], 0)
  {
    var live2 := live[x := LoadBytes(m, x, n)];
    forall y | y in live2
      ensures Held(m, live2, y)
    {
      assert y != x ==> Held(m, live, y);
    }
  }

  /** The block found by extending is free, on the list, and has at least size bytes. */
  lemma ExtendedFits(l: Layout, size: int)
    requires WellFormed(l) && size % 8 == 0 && MIN_BLOCK <= size
    ensures var e := ExtendBy(l, size); var x := ExtendedAt(l, size);
      WellFormed(e) && FreeAt(e.blocks, x) && x in e.freeList && size <= e.blocks[x].size
  {
    hide Linked, NoFreeNeighbours, Distinct;
    var g := Grown(l.blocks, l.brk, size);
    GrownOk(l.blocks, l.brk, size);
    GrownNeighbours(l, size);
    Multiple8(l.brk, size);
    CoalesceWellFormed(Layout(g, l.brk + size, l.freeList), l.brk);
    RunBounds(g, l.brk + size, l.brk);
    assert SizeOk(SPACE, g, l.brk + size, l.brk);
  }

  lemma GrownNeighbours(l: Layout, size: int)
    requires WellFormed(l) && size % 8 == 0 && MIN_BLOCK <= size
    ensures NoFreeNeighbours(Grown(l.blocks, l.brk, size), l.brk)
    ensures Linked(Grown(l.blocks, l.brk, size), l.freeList, l.brk)
  {
    GrownOk(l.blocks, l.brk, size);
    forall y | y in l.blocks
      ensures 0 < y < l.brk
    {
      assert SizeOk(SPACE, l.blocks, l.brk, y);
    }
  }

  /** What is true of a layout while x waits to be coalesced. */
  ghost predicate Pending(l: Layout, x: int)
  {
    && Tiling(SPACE, l.blocks, l.brk) && AllAligned(l.blocks) && l.brk % 8 == 0
    && Linked(l.blocks, l.freeList, x) && Distinct(l.freeList)
    && NoFreeNeighbours(l.blocks, x) && FreeAt(l.blocks, x)
  }

  lemma CoalesceWellFormed(l: Layout, x: int)
    requires Pending(l, x)
    ensures WellFormed(CoalesceAt(l, x))
  {
    RunBounds(l.blocks, l.brk, x);
    FuseTiling(SPACE, l.blocks, l.brk, RunStart(l.blocks, x), RunEnd(l.blocks, x), true);
    FuseAligned(l.blocks, l.brk, RunStart(l.blocks, x), RunEnd(l.blocks, x), true);
    CoalescedLinks(l.blocks, l.brk, l.freeList, x);
    CoalescedNeighbours(l.blocks, l.brk, x);
  }

  /** Every allocated block belongs to a live pointer. */
  ghost predicate AllLive(bm: Blocks, live: Contents)
  {
    forall x :: x in bm && !bm[x].free ==> x in live
  }

  lemma CoalescedAllLive(bm: Blocks, live: Contents, x: int)
    requires x in bm && AllLive(bm, live)
    ensures AllLive(Coalesced(bm, x), live)
  {
  }

  lemma ExtendedLive(bm: Blocks, brk: int, size: int, live: Contents)
    requires AllLive(bm, live)
    ensures brk in Grown(bm, brk, size) && AllLive(Coalesced(Grown(bm, brk, size), brk), live)
  {
    CoalescedAllLive(Grown(bm, brk, size), live, brk);
  }

  /** Placing in a free block makes it, and nothing else, allocated. */
  lemma PlacedLive(bm: Blocks, brk: int, live: Contents, x: int, a: int)
    requires Tiling(SPACE, bm, brk) && FreeAt(bm, x) && LiveOk(bm, live) && MIN_BLOCK <= a <= bm[x].size && AllLive(bm, live)
    ensures x in Placed(bm, x, a) && !Placed(bm, x, a)[x].free && a <= Placed(bm, x, a)[x].size <= a + FSIZE
    ensures x !in live
    ensures forall y :: y in Placed(bm, x, a) && !Placed(bm, x, a)[y].free ==> y == x || y in live
  {
  }

  // ----- writes to a payload

  /** Only payload words of block x changed. */
  ghost predicate OnlyPayload(m1: Memory, m2: Memory, bm: Blocks, x: int)
    requires x in bm
  {
    && m1.Keys == m2.Keys
    && forall q {:trigger Get(m2, q)} :: !(x <= q < End(bm, x) - DSIZE) ==> Get(m2, q) == Get(m1, q)
  }

  lemma PayloadShape(m1: Memory, m2: Memory, bm: Blocks, brk: int, x: int)
    requires Shape(m1, bm, brk) && x in bm && OnlyPayload(m1, m2, bm, x)
    ensures Shape(m2, bm, brk)
  {
    assert SizeOk(SPACE, bm, brk, x);
    forall y | y in bm
      ensures Tagged(m2, bm, y)
    {
      assert SizeOk(SPACE, bm, brk, y) && Tagged(m1, bm, y);
    }
  }

  lemma PayloadChain(m1: Memory, m2: Memory, bm: Blocks, brk: int, fl: seq<int>, x: int)
    requires Tiling(SPACE, bm, brk) && x in bm && !bm[x].free && OnlyPayload(m1, m2, bm, x)
    requires Chain(m1, [PROLOGUE] + fl) && forall y :: y in fl ==> FreeAt(bm, y)
    ensures Chain(m2, [PROLOGUE] + fl)
  {
    var L := [PROLOGUE] + fl;
    assert SizeOk(SPACE, bm, brk, x);
    forall q | IsLink(L, q)
      ensures !(x <= q < End(bm, x) - DSIZE)
    {
      var y := if q in L then q else q - 4;
      assert y == PROLOGUE || (FreeAt(bm, y) && SizeOk(SPACE, bm, brk, y));
    }
    ChainKept(m1, m2, L);
  }

  /** A write to the payload of a live block changes the contents of that block only. */
  lemma AfterPayload(m1: Memory, m2: Memory, bm: Blocks, brk: int, fl: seq<int>, live: Contents, x: int, bs: seq<Byte>)
    requires Inv(m1, bm, brk, fl, live, 0) && x in live && OnlyPayload(m1, m2, bm, x)
    requires |bs| == |live[x]| && bs == LoadBytes(m2, x, |live[x]|)
    ensures Inv(m2, bm, brk, fl, live[x := bs], 0)
  {
    PayloadShape(m1, m2, bm, brk, x);
    PayloadChain(m1, m2, bm, brk, fl, x);
    var live2 := live[x := bs];
    forall y | y in live2
      ensures Held(m2, live2, y)
    {
      if y != x {
        assert Held(m1, live, y) && AlignedAt(bm, y) && SizeOk(SPACE, bm, brk, y) && SizeOk(SPACE, bm, brk, x);
        Multiple8(y, 0);
        LoadBytesKept(m1, m2, y, |live[y]|);
      }
    }
  }

  function SetByte(bs: seq<Byte>, k: int, v: Byte): (r: seq<Byte>)
    requires 0 <= k < |bs|
    ensures |r| == |bs| && forall j :: 0 <= j < |r| ==> r[j] == if j == k then v else bs[j]
  {
    bs[..k] + [v] + bs[k + 1..]
  }

  /** The contents of ptr moved to newptr, cut or extended to n bytes; the others are untouched. */
  ghost predicate Moved(live1: Contents, live2: Contents, ptr: int, newptr: int, n: int)
  {
    && live2.Keys == live1.Keys - {ptr} + {newptr}
    && |live2[newptr]| == n
    && (forall y :: y in live1 && y != ptr && y != newptr ==> live2[y] == live1[y])
    && (ptr in live1 ==> forall k :: 0 <= k < n && k < |live1[ptr]| ==> live2[newptr][k] == live1[ptr][k])
  }

  /** Allocating, copying and freeing moves the contents. */
  lemma MoveComposes(live1: Contents, live2: Contents, live3: Contents, ptr: int, newptr: int, n: nat, bs: seq<Byte>, copied: int)
    requires ptr in live1 && newptr !in live1 && |bs| == n && live2 == live1[newptr := bs]
    requires live3.Keys == live2.Keys && |live3[newptr]| == n && copied <= n
    requires forall y :: y in live3 && y != newptr ==> live3[y] == live2[y]
    requires forall k :: 0 <= k < copied && k < |live2[ptr]| ==> live3[newptr][k] == live2[ptr][k]
    requires n <= copied || |live1[ptr]| <= copied
    ensures Moved(live1, live3 - {ptr}, ptr, newptr, n)
  {
  }

  lemma ExtendKeeps(l: Layout, size: int, y: int)
    requires WellFormed(l) && y in l.blocks && !l.blocks[y].free && size % 8 == 0 && MIN_BLOCK <= size
    ensures var e := ExtendBy(l, size).blocks; y in e && e[y] == l.blocks[y]
  {
    hide Linked, NoFreeNeighbours, Distinct, AllAligned;
    var g, brk := Grown(l.blocks, l.brk, size), l.brk + size;
    GrownOk(l.blocks, l.brk, size);
    assert SizeOk(SPACE, l.blocks, l.brk, y);
    RunBounds(g, brk, l.brk);
    if RunStart(g, l.brk) <= y < RunEnd(g, l.brk) {
      RunMembers(g, brk, l.brk, y);
    }
  }

  lemma PlaceKeeps(bm: Blocks, brk: int, x: int, a: int, y: int)
    requires Tiling(SPACE, bm, brk) && FreeAt(bm, x) && y in bm && !bm[y].free && MIN_BLOCK <= a
    ensures y in Placed(bm, x, a) && Placed(bm, x, a)[y] == bm[y]
  {
    if Splits(bm, x, a) {
      SplitDisjoint(bm, x, a);
    }
  }

  /** Allocating does not touch the blocks that are already allocated. */
  lemma MallocKeeps(l: Layout, a: int, y: int)
    requires WellFormed(l) && y in l.blocks && !l.blocks[y].free && a % 8 == 0 && MIN_BLOCK <= a
    requires FirstFit(l.blocks, l.freeList, a) != 0 ==> FreeAt(l.blocks, FirstFit(l.blocks, l.freeList, a))
    ensures var r := PlaceAt(MallocFrom(l, a), MallocAt(l, a), a).blocks; y in r && r[y] == l.blocks[y]
  {
    hide Tiling, Linked, NoFreeNeighbours, Distinct, FirstFit, Placed, ExtendBy, ExtendedAt;
    if FirstFit(l.blocks, l.freeList, a) == 0 {
      ExtendedFits(l, ExtendSize(a));
      ExtendKeeps(l, ExtendSize(a), y);
    }
    PlaceKeeps(MallocFrom(l, a).blocks, MallocFrom(l, a).brk, MallocAt(l, a), a, y);
  }
}
