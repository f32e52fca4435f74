/** A stretch of memory partitioned into blocks: a map from block address to size and free bit.  Both
    allocators are about such partitions, with different first addresses and minimum sizes. */
module Partition {

  /** Where the first block starts and how small a block may be. */
  datatype Space = Space(first: int, least: int)

  datatype Block = Block(size: int, free: bool)

  type Blocks = map<int, Block>

  function End(bm: Blocks, x: int): int
    requires x in bm
  {
    x + bm[x].size
  }

  ghost predicate SizeOk(sp: Space, bm: Blocks, top: int, x: int)
    requires x in bm
  {
    sp.first <= x && sp.least <= bm[x].size && End(bm, x) <= top
  }

  /** After a block comes another block, or the end. */
  ghost predicate NextOk(bm: Blocks, top: int, x: int)
    requires x in bm
  {
    End(bm, x) == top || End(bm, x) in bm
  }

  ghost predicate Disjoint(bm: Blocks)
  {
    forall x, y :: x in bm && y in bm && x < y ==> End(bm, x) <= y
  }

  /** The blocks cover [sp.first, top) without a gap or an overlap. */
  ghost predicate Tiling(sp: Space, bm: Blocks, top: int)
  {
    && sp.first <= top
    && (sp.first < top ==> sp.first in bm)
    && (forall x :: x in bm ==> SizeOk(sp, bm, top, x))
    && (forall x {:trigger NextOk(bm, top, x)} :: x in bm ==> NextOk(bm, top, x))
    && Disjoint(bm)
  }

  ghost predicate FreeAt(bm: Blocks, x: int)
  {
    x in bm && bm[x].free
  }

  ghost predicate Precedes(bm: Blocks, y: int, x: int)
  {
    FreeAt(bm, y) && End(bm, y) == x
  }

  /** The block that ends where x starts is free. */
  ghost predicate FreeBefore(bm: Blocks, x: int)
  {
    exists y :: Precedes(bm, y, x)
  }

  ghost predicate AlignedAt(bm: Blocks, x: int)
    requires x in bm
  {
    x % 8 == 0 && bm[x].size % 8 == 0
  }

  ghost predicate AllAligned(bm: Blocks)
  {
    forall x {:trigger AlignedAt(bm, x)} :: x in bm ==> AlignedAt(bm, x)
  }

  lemma BlockBounds(sp: Space, bm: Blocks, top: int, x: int)
    requires Tiling(sp, bm, top) && x in bm
    ensures sp.first <= x && sp.least <= bm[x].size && End(bm, x) <= top
    ensures End(bm, x) == top || End(bm, x) in bm
  {
    assert SizeOk(sp, bm, top, x) && NextOk(bm, top, x);
  }

  /** The block that ends where x starts, found by walking up from the first. */
  lemma Predecessor(sp: Space, bm: Blocks, top: int, x: int) returns (y: int)
    requires Tiling(sp, bm, top) && 0 < sp.least && (x in bm || x == top) && sp.first < x
    ensures y in bm && End(bm, y) == x && y < x
    ensures FreeBefore(bm, x) <==> bm[y].free
  {
    y := sp.first;
    while End(bm, y) != x
      invariant y in bm && y < x
      decreases x - y
    {
      assert NextOk(bm, top, y);
      y := End(bm, y);
    }
    if bm[y].free {
      assert Precedes(bm, y, x);
    }
    forall z | Precedes(bm, z, x)
      ensures z == y
    {
      assert SizeOk(sp, bm, top, z) && SizeOk(sp, bm, top, y);
    }
  }

  // ----- joining blocks

  /** The blocks from x up to e become one block; the others are as they were. */
  ghost function Fuse(bm: Blocks, x: int, e: int, free: bool): Blocks
  {
    map y | y in bm && !(x < y < e) :: if y == x then Block(e - x, free) else bm[y]
  }

  lemma FuseTiling(sp: Space, bm: Blocks, top: int, x: int, e: int, free: bool)
    requires Tiling(sp, bm, top) && 0 < sp.least && x in bm && (e in bm || e == top) && x < e
    ensures Tiling(sp, Fuse(bm, x, e, free), top)
  {
    var f := Fuse(bm, x, e, free);
    forall y | y in f
      ensures SizeOk(sp, f, top, y) && NextOk(f, top, y)
    {
      assert SizeOk(sp, bm, top, y) && NextOk(bm, top, y);
    }
  }

  lemma FuseAligned(bm: Blocks, top: int, x: int, e: int, free: bool)
    requires AllAligned(bm) && x in bm && (e in bm || e == top) && top % 8 == 0
    ensures AllAligned(Fuse(bm, x, e, free))
  {
    var f := Fuse(bm, x, e, free);
    forall y | y in f
      ensures AlignedAt(f, y)
    {
      assert AlignedAt(bm, y) && (e in bm ==> AlignedAt(bm, e));
    }
  }

  // ----- growing

  /** A free block of size bytes is added at the end. */
  ghost function Grown(bm: Blocks, top: int, size: int): Blocks
  {
    bm[top := Block(size, true)]
  }

  lemma GrownDisjoint(sp: Space, bm: Blocks, top: int, size: int)
    requires Tiling(sp, bm, top) && 0 < sp.least
    ensures Disjoint(Grown(bm, top, size)) && top !in bm
  {
    forall y | y in bm
      ensures y < End(bm, y) <= top
    {
      assert SizeOk(sp, bm, top, y);
    }
  }

  lemma GrownTiling(sp: Space, bm: Blocks, top: int, size: int)
    requires Tiling(sp, bm, top) && 0 < sp.least <= size
    ensures Tiling(sp, Grown(bm, top, size), top + size) && top !in bm
  {
    hide Disjoint;
    var f := Grown(bm, top, size);
    GrownDisjoint(sp, bm, top, size);
    forall y | y in f
      ensures SizeOk(sp, f, top + size, y) && NextOk(f, top + size, y)
    {
      if y != top {
        assert SizeOk(sp, bm, top, y) && NextOk(bm, top, y);
      }
    }
  }

  lemma GrownAligned(bm: Blocks, top: int, size: int)
    requires AllAligned(bm) && top % 8 == 0 && size % 8 == 0
    ensures AllAligned(Grown(bm, top, size)) && (top + size) % 8 == 0
  {
    var f := Grown(bm, top, size);
    forall y | y in f
      ensures AlignedAt(f, y)
    {
      assert y in bm ==> AlignedAt(bm, y);
    }
  }
}
