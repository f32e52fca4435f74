/** The first allocator's heap as a partition into blocks, and the boundary tags that record it in
    memory. */
module BlockMap {
  import opened WordMemory
  import opened FreeChain
  import opened Partition

  const FIRST := 32
  const MIN_BLOCK := 16

  const SPACE := Space(FIRST, MIN_BLOCK)

  function Tag(b: Block): int
  {
    b.size + if b.free then 0 else 1
  }

  /** No two neighbours are both free, setting aside block skip. */
  ghost predicate NoFreeNeighbours(bm: Blocks, skip: int)
  {
    forall x, y :: x in bm && y in bm && End(bm, x) == y && x != skip && y != skip ==> !(bm[x].free && bm[y].free)
  }

  predicate WordAddr(p: int)
  {
    0 <= p && p % 4 == 0
  }

  lemma Multiple8(a: int, s: int)
    requires a % 8 == 0 && s % 8 == 0
    ensures (a + s) % 8 == 0
    ensures 4 <= a ==> WordAddr(a) && WordAddr(a - 4)
    ensures 8 <= a ==> WordAddr(a - 8)
  {
    SumOfEights(a, s);
    WordsOfEight(a);
  }

  lemma SumOfEights(a: int, s: int)
    requires a % 8 == 0 && s % 8 == 0
    ensures (a + s) % 8 == 0
  {
  }

  lemma WordsOfEight(a: int)
    requires a % 8 == 0
    ensures a % 4 == (a - 4) % 4 == (a - 8) % 4 == 0
  {
    var q := a / 8;
    assert a == 4 * (2 * q);
  }

  ghost predicate Tagged(m: Memory, bm: Blocks, x: int)
    requires x in bm
  {
    Get(m, x - 4) == Tag(bm[x]) && Get(m, End(bm, x) - 8) == Tag(bm[x])
  }

  /** Memory records the partition: header equals footer equals tag for every block, a prologue,
      a zero word under the first block and an epilogue header of size 0 at the end. */
  ghost predicate Shape(m: Memory, bm: Blocks, brk: int)
  {
    && Tiling(SPACE, bm, brk)
    && AllAligned(bm) && brk % 8 == 0 && brk < WORD_LIMIT
    && (forall p {:trigger WordAddr(p)} :: WordAddr(p) && p < brk ==> p in m)
    && (forall p :: p in m ==> 0 <= p < WORD_LIMIT)
    && Get(m, 4) == 25
    && Get(m, 24) == 0
    && Get(m, brk - 4) == 1
    && (forall x :: x in bm ==> Tagged(m, bm, x))
  }

  /** Block x is cut into an allocated block of a bytes and a free remainder. */
  ghost function Split(bm: Blocks, x: int, a: int): Blocks
    requires x in bm
  {
    bm[x := Block(a, false)][x + a := Block(bm[x].size - a, true)]
  }

  lemma SplitTiling(bm: Blocks, brk: int, x: int, a: int)
    requires Tiling(SPACE, bm, brk) && x in bm && MIN_BLOCK <= a <= bm[x].size - MIN_BLOCK
    ensures Tiling(SPACE, Split(bm, x, a), brk)
    ensures x + a !in bm
  {
    var f := Split(bm, x, a);
    assert SizeOk(SPACE, bm, brk, x) && NextOk(bm, brk, x);
    forall y | y in f
      ensures SizeOk(SPACE, f, brk, y) && NextOk(f, brk, y)
    {
      if y in bm {
        assert SizeOk(SPACE, bm, brk, y) && NextOk(bm, brk, y);
      }
    }
    SplitDisjoint(bm, x, a);
  }

  lemma SplitDisjoint(bm: Blocks, x: int, a: int)
    requires Disjoint(bm) && x in bm && 0 < a < bm[x].size
    ensures Disjoint(Split(bm, x, a)) && x + a !in bm
  {
    var f := Split(bm, x, a);
    forall y, z | y in f && z in f && y < z
      ensures End(f, y) <= z
    {
      if y == x {
      } else if y == x + a {
        assert z in bm;
      } else {
        assert y in bm;
      }
    }
  }

  /** p is a pointer word of the prologue or of a free block. */
  ghost predicate Pointer(bm: Blocks, p: int)
  {
    p == PROLOGUE || p == PROLOGUE + 4 || FreeAt(bm, p) || FreeAt(bm, p - 4)
  }

  lemma TagsAreNotPointers(bm: Blocks, brk: int, x: int)
    requires Tiling(SPACE, bm, brk) && x in bm
    ensures !Pointer(bm, x - 4) && !Pointer(bm, End(bm, x) - 8)
  {
    assert SizeOk(SPACE, bm, brk, x);
  }

  /** From m1 to m2 only pointer words changed, and words from the header of lo up to the header
      of hi. */
  ghost predicate Framed(m1: Memory, m2: Memory, bm: Blocks, lo: int, hi: int)
  {
    && m1.Keys == m2.Keys
    && forall p {:trigger Get(m2, p)} :: !(lo - 4 <= p < hi - 4) && !Pointer(bm, p) ==> Get(m2, p) == Get(m1, p)
  }

  /** Block y is the same in both maps and lies outside [lo, hi). */
  ghost predicate Untouched(bm1: Blocks, bm2: Blocks, lo: int, hi: int, y: int)
    requires y in bm2
  {
    y in bm1 && bm1[y] == bm2[y] && (End(bm1, y) <= lo || hi <= y)
  }

  /** The tags follow a change of partition inside [lo, hi). */
  lemma Reshape(m1: Memory, m2: Memory, bm1: Blocks, bm2: Blocks, brk: int, lo: int, hi: int)
    requires Shape(m1, bm1, brk) && Tiling(SPACE, bm2, brk) && AllAligned(bm2) && (lo == hi || FIRST <= lo < hi <= brk)
    requires Framed(m1, m2, bm1, lo, hi)
    requires forall y :: y in bm2 ==>
      Untouched(bm1, bm2, lo, hi, y) || (lo <= y && End(bm2, y) <= hi && Tagged(m2, bm2, y))
    ensures Shape(m2, bm2, brk)
  {
    forall y | y in bm2
      ensures Tagged(m2, bm2, y)
    {
      assert SizeOk(SPACE, bm2, brk, y);
      if Untouched(bm1, bm2, lo, hi, y) {
        assert Tagged(m1, bm1, y);
        assert !Pointer(bm1, y - 4) && !Pointer(bm1, End(bm1, y) - 8);
      }
    }
    assert !Pointer(bm1, 4) && !Pointer(bm1, 24) && !Pointer(bm1, brk - 4);
  }
}
