/** The heap of the second allocator (sp_03_malloclab/lab5/mm.c): 8-byte words, used blocks without
    a footer, and a bit in every header that says whether the preceding block is used. */
module RunHeap {
  import opened Lists
  import opened Partition

  const W := 8
  const FIRST := 8
  const MIN_BLOCK := 32
  const SPACE := Space(FIRST, MIN_BLOCK)
  const WORD_LIMIT := 0x1_0000_0000_0000_0000

  type Word = w: int | 0 <= w < WORD_LIMIT

  /** Word addresses (multiples of 8) to the words stored there. */
  type Memory = map<int, Word>

  function Get(m: Memory, p: int): Word
  {
    if p in m then m[p] else 0
  }

  // ----- tags

  const USED := 1
  const PRECEDING_USED := 2

  ghost function Tags(bm: Blocks, x: int, used: bool): int
  {
    (if used then USED else 0) + (if FreeBefore(bm, x) then 0 else PRECEDING_USED)
  }

  /** The header of x gives its size, whether it is used and whether the block before it is; a free
      block repeats its size in its last word. */
  ghost predicate Tagged(m: Memory, bm: Blocks, x: int)
    requires x in bm
  {
    && Get(m, x) == bm[x].size + Tags(bm, x, !bm[x].free)
    && (bm[x].free ==> Get(m, End(bm, x) - W) == Get(m, x))
  }

  /** A word address. */
  predicate WordAddr(p: int)
  {
    0 <= p && p % W == 0
  }

  /** Memory records the partition, and the word at top is tagged like the header of a used block
      of size 0. */
  ghost predicate Shape(m: Memory, bm: Blocks, top: int)
  {
    && Tiling(SPACE, bm, top)
    && AllAligned(bm) && top % 8 == 0
    && top + W < WORD_LIMIT
    && (forall p {:trigger WordAddr(p)} :: WordAddr(p) && p <= top ==> p in m)
    && Get(m, top) == Tags(bm, top, true)
    && (forall x {:trigger Tagged(m, bm, x)} :: x in bm ==> Tagged(m, bm, x))
  }

  // ----- the free list

  /** next is at x + 8 and prev at x + 16; the head is the word at 0, and 0 is NULL. */
  ghost predicate NodeOk(m: Memory, L: seq<int>, i: int)
    requires 0 <= i < |L|
  {
    && Get(m, L[i] + W) == (if i + 1 < |L| then L[i + 1] else 0)
    && Get(m, L[i] + 2 * W) == (if i > 0 then L[i - 1] else 0)
  }

  ghost predicate NodeAddr(m: Memory, x: int)
  {
    FIRST <= x && x + W in m && x + 2 * W in m
  }

  /** Nodes lie far enough apart for their pointer words to be distinct. */
  ghost predicate Spaced(L: seq<int>)
  {
    forall i, j :: 0 <= i < j < |L| ==> L[i] + 3 * W <= L[j] || L[j] + 3 * W <= L[i]
  }

  ghost predicate NodesAt(m: Memory, L: seq<int>)
  {
    && Spaced(L)
    && (forall i :: 0 <= i < |L| ==> NodeAddr(m, L[i]))
  }

  ghost predicate Chain(m: Memory, L: seq<int>)
  {
    && 0 in m && Get(m, 0) == (if L == [] then 0 else L[0])
    && NodesAt(m, L)
    && (forall i {:trigger NodeOk(m, L, i)} :: 0 <= i < |L| ==> NodeOk(m, L, i))
  }

  lemma ChainNode(m: Memory, L: seq<int>, i: int)
    requires Chain(m, L) && 0 <= i < |L|
    ensures NodeOk(m, L, i) && NodeAddr(m, L[i])
  {
  }

  lemma ChainHead(m: Memory, L: seq<int>)
    requires Chain(m, L)
    ensures 0 in m && Get(m, 0) == if L == [] then 0 else L[0]
  {
  }

  lemma ChainDistinct(m: Memory, L: seq<int>)
    requires Chain(m, L)
    ensures Distinct(L)
  {
  }

  /** m2 is m1 with the node at index k unlinked. */
  ghost predicate Unlinked(m1: Memory, m2: Memory, L: seq<int>, k: int)
    requires 0 <= k < |L|
  {
    var next := if k + 1 < |L| then L[k + 1] else 0;
    var prev := if k > 0 then L[k - 1] else 0;
    var from := if k > 0 then prev + W else 0;
    && m1.Keys == m2.Keys
    && Get(m2, from) == next
    && (next != 0 ==> Get(m2, next + 2 * W) == prev)
    && forall p {:trigger Get(m2, p)} :: p != from && (next != 0 ==> p != next + 2 * W) ==> Get(m2, p) == Get(m1, p)
  }

  predicate Apart(x: int, y: int)
  {
    x + 3 * W <= y || y + 3 * W <= x
  }

  lemma ChainApart(m: Memory, L: seq<int>, i: int, j: int)
    requires Chain(m, L) && 0 <= i < |L| && 0 <= j < |L| && i != j
    ensures Apart(L[i], L[j])
  {
    if i < j {
      assert L[i] + 3 * W <= L[j] || L[j] + 3 * W <= L[i];
    }
  }

  /** Node j of the old list keeps its links, except for the neighbours of the removed node. */
  lemma UnlinkedNode(m1: Memory, m2: Memory, L: seq<int>, k: int, j: int)
    requires Chain(m1, L) && 0 <= k < |L| && 0 <= j < |L| && j != k && Unlinked(m1, m2, L, k)
    ensures Get(m2, L[j] + W) == if j == k - 1 then (if k + 1 < |L| then L[k + 1] else 0) else Get(m1, L[j] + W)
    ensures Get(m2, L[j] + 2 * W) == if j == k + 1 then (if k > 0 then L[k - 1] else 0) else Get(m1, L[j] + 2 * W)
  {
    hide Chain;
    ChainNode(m1, L, j);
    if k > 0 {
      ChainNode(m1, L, k - 1);
      if j != k - 1 {
        ChainApart(m1, L, j, k - 1);
      }
    }
    if k + 1 < |L| {
      ChainNode(m1, L, k + 1);
      if j != k + 1 {
        ChainApart(m1, L, j, k + 1);
      }
    }
  }

  lemma NodeWithout(m1: Memory, m2: Memory, L: seq<int>, k: int, i: int)
    requires Chain(m1, L) && 0 <= k < |L| && Unlinked(m1, m2, L, k) && 0 <= i < |L| - 1
    ensures NodeOk(m2, L[..k] + L[k + 1..], i)
  {
    hide Chain, Unlinked;
    var j := if i < k then i else i + 1;
    ChainNode(m1, L, j);
    UnlinkedNode(m1, m2, L, k, j);
  }

  lemma AddrsWithout(m1: Memory, m2: Memory, L: seq<int>, k: int)
    requires NodesAt(m1, L) && m1.Keys == m2.Keys && 0 <= k < |L|
    ensures NodesAt(m2, L[..k] + L[k + 1..])
  {
    forall i | 0 <= i < |L|
      ensures NodeAddr(m2, L[i])
    {
      assert NodeAddr(m1, L[i]);
    }
  }

  lemma ChainWithout(m1: Memory, m2: Memory, L: seq<int>, k: int)
    requires Chain(m1, L) && 0 <= k < |L| && Unlinked(m1, m2, L, k)
    ensures Chain(m2, L[..k] + L[k + 1..])
  {
    hide NodeOk, NodesAt;
    var R := L[..k] + L[k + 1..];
    forall i | 0 <= i < |R|
      ensures NodeOk(m2, R, i)
    {
      NodeWithout(m1, m2, L, k, i);
    }
    AddrsWithout(m1, m2, L, k);
    UnlinkedHead(m1, m2, L, k);
  }

  lemma UnlinkedHead(m1: Memory, m2: Memory, L: seq<int>, k: int)
    requires Chain(m1, L) && 0 <= k < |L| && Unlinked(m1, m2, L, k)
    ensures Get(m2, 0) == if k > 0 then L[0] else if 1 < |L| then L[1] else 0
  {
    ChainNode(m1, L, 0);
    if k + 1 < |L| {
      ChainNode(m1, L, k + 1);
    }
    if k > 0 {
      ChainNode(m1, L, k - 1);
    }
  }

  /** m2 is m1 with x linked in as the new head. */
  ghost predicate Pushed(m1: Memory, m2: Memory, L: seq<int>, x: int)
  {
    && m1.Keys == m2.Keys
    && Get(m2, 0) == x && Get(m2, x + 2 * W) == 0
    && Get(m2, x + W) == (if L == [] then 0 else L[0])
    && (L != [] ==> Get(m2, L[0] + 2 * W) == x)
    && forall p {:trigger Get(m2, p)} :: p != 0 && p != x + W && p != x + 2 * W && (L != [] ==> p != L[0] + 2 * W) ==>
        Get(m2, p) == Get(m1, p)
  }

  lemma NodePush(m1: Memory, m2: Memory, L: seq<int>, x: int, i: int)
    requires Chain(m1, L) && NodeAddr(m1, x) && Pushed(m1, m2, L, x) && 0 <= i <= |L|
    requires i > 0 ==> Apart(L[i - 1], x)
    ensures NodeOk(m2, [x] + L, i)
  {
    hide Chain;
    if i > 0 {
      ChainNode(m1, L, 0);
      ChainNode(m1, L, i - 1);
      if i > 1 {
        ChainApart(m1, L, 0, i - 1);
      }
    }
  }

  lemma AddrsPush(m1: Memory, m2: Memory, L: seq<int>, x: int)
    requires NodesAt(m1, L) && m1.Keys == m2.Keys && NodeAddr(m1, x)
    requires forall i :: 0 <= i < |L| ==> Apart(L[i], x)
    ensures NodesAt(m2, [x] + L)
  {
    forall i | 0 <= i < |L|
      ensures NodeAddr(m2, L[i])
    {
      assert NodeAddr(m1, L[i]);
    }
  }

  lemma ChainPush(m1: Memory, m2: Memory, L: seq<int>, x: int)
    requires Chain(m1, L) && NodeAddr(m1, x) && Pushed(m1, m2, L, x)
    requires forall i :: 0 <= i < |L| ==> Apart(L[i], x)
    ensures Chain(m2, [x] + L)
  {
    hide NodeOk, NodesAt, NodeAddr;
    var R := [x] + L;
    forall i | 0 <= i < |R|
      ensures NodeOk(m2, R, i)
    {
      NodePush(m1, m2, L, x, i);
    }
    AddrsPush(m1, m2, L, x);
  }

  lemma ChainKept(m1: Memory, m2: Memory, L: seq<int>)
    requires Chain(m1, L) && m1.Keys == m2.Keys && Get(m2, 0) == Get(m1, 0)
    requires forall x :: x in L ==> Get(m2, x + W) == Get(m1, x + W) && Get(m2, x + 2 * W) == Get(m1, x + 2 * W)
    ensures Chain(m2, L)
  {
    forall i | 0 <= i < |L|
      ensures NodeOk(m2, L, i) && NodeAddr(m2, L[i])
    {
      ChainNode(m1, L, i);
      assert L[i] in L;
    }
  }

  // ----- words and what they belong to

  /** p is the head word or a pointer word of a free block. */
  ghost predicate Pointer(bm: Blocks, p: int)
  {
    p == 0 || FreeAt(bm, p - W) || FreeAt(bm, p - 2 * W)
  }

  /** From m1 to m2 only pointer words changed, and words of [lo, hi). */
  ghost predicate Framed(m1: Memory, m2: Memory, bm: Blocks, lo: int, hi: int)
  {
    && m1.Keys == m2.Keys
    && forall p {:trigger Get(m2, p)} :: !(lo <= p < hi) && !Pointer(bm, p) ==> Get(m2, p) == Get(m1, p)
  }

  lemma FramedRefl(m: Memory, bm: Blocks, lo: int, hi: int)
    ensures Framed(m, m, bm, lo, hi)
  {
  }

  lemma FramedTrans(m1: Memory, m2: Memory, m3: Memory, bm: Blocks, lo: int, hi: int)
    requires Framed(m1, m2, bm, lo, hi) && Framed(m2, m3, bm, lo, hi)
    ensures Framed(m1, m3, bm, lo, hi)
  {
    forall p | !(lo <= p < hi) && !Pointer(bm, p)
      ensures Get(m3, p) == Get(m1, p)
    {
      assert Get(m2, p) == Get(m1, p);
    }
  }

  lemma TagsAreNotPointers(bm: Blocks, top: int, x: int)
    requires Tiling(SPACE, bm, top) && x in bm
    ensures !Pointer(bm, x) && !Pointer(bm, End(bm, x) - W)
  {
    assert SizeOk(SPACE, bm, top, x);
    forall y | y in bm
      ensures y != x - W && y != x - 2 * W && y != End(bm, x) - 2 * W && y != End(bm, x) - 3 * W
    {
      assert SizeOk(SPACE, bm, top, y);
    }
  }

  lemma FooterIsNoPointer(bm: Blocks, top: int)
    requires Tiling(SPACE, bm, top)
    ensures !Pointer(bm, top)
  {
    forall y | y in bm
      ensures y != top - W && y != top - 2 * W
    {
      assert SizeOk(SPACE, bm, top, y);
    }
  }

  lemma ShapeKept(m1: Memory, m2: Memory, bm: Blocks, top: int)
    requires Shape(m1, bm, top) && Framed(m1, m2, bm, 0, 0)
    ensures Shape(m2, bm, top)
  {
    hide Pointer, Tiling, AlignedAt, FreeBefore;
    forall x | x in bm
      ensures Tagged(m2, bm, x)
    {
      assert Tagged(m1, bm, x);
      TagsAreNotPointers(bm, top, x);
    }
    FooterIsNoPointer(bm, top);
  }

  // ----- reading tags

  function SizeOf(w: int): int { w - w % 8 }

  predicate Used(w: int) { w % 2 == 1 }

  predicate PrecedingUsed(w: int) { w / 2 % 2 == 1 }

  lemma Halve(w: int, a: int, b: int)
    requires 0 <= b < 2 && w == 2 * a + b
    ensures w / 2 == a && w % 2 == b
  {
  }

  lemma LowBits(w: int, k: int, used: bool, preceding: bool)
    requires w == 8 * k + (if used then USED else 0) + (if preceding then PRECEDING_USED else 0)
    ensures SizeOf(w) == 8 * k && Used(w) == used && PrecedingUsed(w) == preceding
  {
    var u, p := if used then 1 else 0, if preceding then 1 else 0;
    Halve(w, 4 * k + p, u);
    Halve(w / 2, 2 * k, p);
  }

  lemma UnpackTag(w: int, size: int, used: bool, preceding: bool)
    requires size % 8 == 0
    requires w == size + (if used then USED else 0) + (if preceding then PRECEDING_USED else 0)
    ensures SizeOf(w) == size && Used(w) == used && PrecedingUsed(w) == preceding
  {
    LowBits(w, size / 8, used, preceding);
  }

  lemma HeaderParts(m: Memory, bm: Blocks, top: int, x: int)
    requires Shape(m, bm, top) && x in bm
    ensures x in m && SizeOf(Get(m, x)) == bm[x].size && Used(Get(m, x)) == !bm[x].free
    ensures PrecedingUsed(Get(m, x)) == !FreeBefore(bm, x)
  {
    hide FreeBefore, Disjoint;
    assert Tagged(m, bm, x) && AlignedAt(bm, x) && SizeOk(SPACE, bm, top, x);
    UnpackTag(Get(m, x), bm[x].size, !bm[x].free, !FreeBefore(bm, x));
    assert WordAddr(x);
  }

  lemma FooterParts(m: Memory, bm: Blocks, top: int)
    requires Shape(m, bm, top)
    ensures top in m && Used(Get(m, top)) && PrecedingUsed(Get(m, top)) == !FreeBefore(bm, top)
  {
    hide FreeBefore;
    UnpackTag(Get(m, top), 0, true, !FreeBefore(bm, top));
    assert WordAddr(top);
  }

  lemma NothingBeforeFirst(bm: Blocks, top: int)
    requires Tiling(SPACE, bm, top)
    ensures !FreeBefore(bm, FIRST)
  {
    forall y | y in bm
      ensures !Precedes(bm, y, FIRST)
    {
      assert SizeOk(SPACE, bm, top, y);
    }
  }

  lemma WordBelow(x: int)
    requires x % 8 == 0 && 8 <= x
    ensures WordAddr(x - W)
  {
  }

  /** A clear bit in the header of x leads to the free block before it. */
  lemma BoundaryBefore(m: Memory, bm: Blocks, top: int, x: int) returns (y: int)
    requires Shape(m, bm, top) && x in bm && FreeBefore(bm, x)
    ensures y < x && FreeAt(bm, y) && End(bm, y) == x
    ensures x - W in m && x - SizeOf(Get(m, x - W)) == y
  {
    NothingBeforeFirst(bm, top);
    assert SizeOk(SPACE, bm, top, x);
    y := Predecessor(SPACE, bm, top, x);
    assert AlignedAt(bm, x) && Tagged(m, bm, y);
    HeaderParts(m, bm, top, y);
    WordBelow(x);
  }

  // ----- runs of free blocks

  ghost predicate AllFree(bm: Blocks, s: int, e: int)
  {
    forall z :: z in bm && s <= z < e ==> bm[z].free
  }

  /** [s, e) is the largest run of adjacent free blocks around x. */
  ghost predicate MaximalRun(bm: Blocks, top: int, x: int, s: int, e: int)
  {
    && s in bm && s <= x < e && (e in bm || e == top)
    && AllFree(bm, s, e)
    && !FreeBefore(bm, s) && !FreeAt(bm, e)
  }

  lemma RunUnique(bm: Blocks, top: int, x: int, s1: int, e1: int, s2: int, e2: int)
    requires Tiling(SPACE, bm, top) && MaximalRun(bm, top, x, s1, e1) && MaximalRun(bm, top, x, s2, e2)
    ensures s1 == s2 && e1 == e2
  {
    assert SizeOk(SPACE, bm, top, s1) && SizeOk(SPACE, bm, top, s2);
    if s1 < s2 {
      var y := Predecessor(SPACE, bm, top, s2);
    }
    if s2 < s1 {
      var y := Predecessor(SPACE, bm, top, s1);
    }
    assert e1 in bm ==> SizeOk(SPACE, bm, top, e1);
    assert e2 in bm ==> SizeOk(SPACE, bm, top, e2);
  }

  lemma FuseKeepsBefore(bm: Blocks, top: int, s: int, e: int, x: int)
    requires Tiling(SPACE, bm, top) && s in bm && (e in bm || e == top) && s < e
    requires (x <= s || e <= x) && FreeBefore(bm, x)
    ensures FreeBefore(Fuse(bm, s, e, true), x)
  {
    var y :| Precedes(bm, y, x);
    assert SizeOk(SPACE, bm, top, y);
    assert Precedes(Fuse(bm, s, e, true), if s <= y < e then s else y, x);
  }

  /** Outside the run no block gains or loses a free block before it. */
  lemma FuseBefore(bm: Blocks, top: int, s: int, e: int, x: int)
    requires Tiling(SPACE, bm, top) && s in bm && (e in bm || e == top) && s < e && AllFree(bm, s, e)
    requires x <= s || e <= x
    ensures FreeBefore(Fuse(bm, s, e, true), x) == FreeBefore(bm, x)
  {
    var f := Fuse(bm, s, e, true);
    if FreeBefore(bm, x) {
      FuseKeepsBefore(bm, top, s, e, x);
    }
    if FreeBefore(f, x) {
      var y :| Precedes(f, y, x);
      if y != s {
        assert Precedes(bm, y, x);
      } else {
        assert SizeOk(SPACE, bm, top, s);
        var p := Predecessor(SPACE, bm, top, e);
        assert s <= p && Precedes(bm, p, x);
      }
    }
  }

  /** Writing the size of the run into its first header and its last word records the fusion. */
  lemma FuseShape(m1: Memory, m2: Memory, bm: Blocks, top: int, s: int, e: int)
    requires Shape(m1, bm, top) && s in bm && (e in bm || e == top) && s < e
    requires AllFree(bm, s, e) && !FreeBefore(bm, s)
    requires Framed(m1, m2, bm, s, e) && Get(m2, s) == Get(m2, e - W) == e - s + PRECEDING_USED
    ensures Shape(m2, Fuse(bm, s, e, true), top)
  {
    hide Pointer, FreeBefore, Disjoint, AlignedAt, AllFree;
    var f := Fuse(bm, s, e, true);
    FuseTiling(SPACE, bm, top, s, e, true);
    FuseAligned(bm, top, s, e, true);
    forall x | x in f
      ensures Tagged(m2, f, x)
    {
      FuseTagged(m1, m2, bm, top, s, e, x);
    }
    FooterIsNoPointer(bm, top);
    assert SizeOk(SPACE, bm, top, s) && (e in bm ==> SizeOk(SPACE, bm, top, e));
    FuseBefore(bm, top, s, e, top);
  }

  lemma FuseTagged(m1: Memory, m2: Memory, bm: Blocks, top: int, s: int, e: int, x: int)
    requires Shape(m1, bm, top) && s in bm && (e in bm || e == top) && s < e
    requires AllFree(bm, s, e) && !FreeBefore(bm, s)
    requires Framed(m1, m2, bm, s, e) && Get(m2, s) == Get(m2, e - W) == e - s + PRECEDING_USED
    requires x in Fuse(bm, s, e, true)
    ensures Tagged(m2, Fuse(bm, s, e, true), x)
  {
    hide Pointer, FreeBefore, AlignedAt, AllFree;
    FuseBefore(bm, top, s, e, x);
    if x != s {
      assert Tagged(m1, bm, x) && SizeOk(SPACE, bm, top, x);
      TagsAreNotPointers(bm, top, x);
    }
  }

  /** Two adjacent free blocks after the fusion were adjacent and free before, outside the run: the
      new block itself has no free neighbour. */
  lemma FuseNeighbours(bm: Blocks, top: int, x: int, s: int, e: int, y: int, z: int)
    requires Tiling(SPACE, bm, top) && MaximalRun(bm, top, x, s, e)
    requires FreeAt(Fuse(bm, s, e, true), y) && FreeAt(Fuse(bm, s, e, true), z) && End(Fuse(bm, s, e, true), y) == z
    ensures FreeAt(bm, y) && FreeAt(bm, z) && End(bm, y) == z
    ensures z < s || e < y
  {
    assert SizeOk(SPACE, bm, top, y) && SizeOk(SPACE, bm, top, z) && SizeOk(SPACE, bm, top, s);
    if y != s && z == s {
      assert Precedes(bm, y, s);
    }
  }

  /** The bytes in free blocks from x on. */
  ghost function FreeBytes(bm: Blocks, top: int, x: int): int
    requires Tiling(SPACE, bm, top) && (x in bm || x == top)
    decreases top - x
  {
    if x == top then 0
    else
      assert SizeOk(SPACE, bm, top, x) && NextOk(bm, top, x);
      (if bm[x].free then bm[x].size else 0) + FreeBytes(bm, top, End(bm, x))
  }

  lemma {:induction false} RunBytes(bm: Blocks, top: int, x: int, e: int)
    requires Tiling(SPACE, bm, top) && x in bm && (e in bm || e == top) && x <= e && AllFree(bm, x, e)
    ensures FreeBytes(bm, top, x) == e - x + FreeBytes(bm, top, e)
    decreases e - x
  {
    if x < e {
      assert SizeOk(SPACE, bm, top, x) && NextOk(bm, top, x) && (e in bm ==> SizeOk(SPACE, bm, top, e));
      if End(bm, x) < e {
        RunBytes(bm, top, End(bm, x), e);
      }
    }
  }

  /** Fusing a run of free blocks neither loses nor gains a free byte. */
  lemma {:induction false} FreeBytesKept(bm: Blocks, top: int, s: int, e: int, x: int)
    requires Tiling(SPACE, bm, top) && s in bm && (e in bm || e == top) && s < e && AllFree(bm, s, e)
    requires (x in bm || x == top) && (x <= s || e <= x)
    requires Tiling(SPACE, Fuse(bm, s, e, true), top)
    ensures FreeBytes(Fuse(bm, s, e, true), top, x) == FreeBytes(bm, top, x)
    decreases top - x
  {
    hide Disjoint;
    if x == top {
      return;
    }
    assert SizeOk(SPACE, bm, top, x) && NextOk(bm, top, x) && SizeOk(SPACE, bm, top, s);
    if x == s {
      RunBytes(bm, top, s, e);
      FreeBytesKept(bm, top, s, e, e);
    } else {
      if x < s {
        EndOutside(bm, s, x);
      }
      FreeBytesKept(bm, top, s, e, End(bm, x));
    }
  }

  lemma EndOutside(bm: Blocks, s: int, x: int)
    requires Disjoint(bm) && s in bm && x in bm && x < s
    ensures End(bm, x) <= s
  {
  }

  // ----- growth

  lemma GrownBefore(bm: Blocks, top: int, total: int, x: int)
    requires Tiling(SPACE, bm, top) && MIN_BLOCK <= total && x <= top
    ensures FreeBefore(Grown(bm, top, total), x) == FreeBefore(bm, x)
    ensures FreeBefore(Grown(bm, top, total), top + total)
  {
    GrownTiling(SPACE, bm, top, total);
    var f := Grown(bm, top, total);
    assert Precedes(f, top, top + total);
    if FreeBefore(bm, x) {
      var y :| Precedes(bm, y, x);
      assert Precedes(f, y, x);
    }
    if FreeBefore(f, x) {
      var y :| Precedes(f, y, x);
      assert Precedes(bm, y, x);
    }
  }

  /** m2 has a free block of total bytes at top, tagged by what the old footer said, and a new footer. */
  ghost predicate GrownWords(m1: Memory, m2: Memory, bm: Blocks, top: int, total: int)
  {
    && m1.Keys == m2.Keys
    && Get(m2, top) == Get(m2, top + total - W) == total + (if FreeBefore(bm, top) then 0 else PRECEDING_USED)
    && Get(m2, top + total) == USED
    && (forall p {:trigger Get(m2, p)} :: p < top ==> Get(m2, p) == Get(m1, p))
  }

  lemma GrownShape(m1: Memory, m2: Memory, bm: Blocks, top: int, total: int)
    requires Shape(m1, bm, top) && MIN_BLOCK <= total && total % 8 == 0 && top + total + W < WORD_LIMIT
    requires forall p {:trigger WordAddr(p)} :: WordAddr(p) && p <= top + total ==> p in m1
    requires GrownWords(m1, m2, bm, top, total)
    ensures Shape(m2, Grown(bm, top, total), top + total)
  {
    hide FreeBefore, Disjoint, AlignedAt, WordAddr;
    var f := Grown(bm, top, total);
    GrownTiling(SPACE, bm, top, total);
    GrownAligned(bm, top, total);
    forall x | x in f
      ensures Tagged(m2, f, x)
    {
      if x != top {
        assert SizeOk(SPACE, bm, top, x) && Tagged(m1, bm, x);
      }
      GrownBefore(bm, top, total, x);
    }
    GrownBefore(bm, top, total, top);
  }
}
