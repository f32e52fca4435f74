/** A malloc request that finds a fit, followed by the release of its block.  It leaves no trace if and
    only if the block was the first of the free list: otherwise some continuation of the trace tells
    the difference, because the block is now found before smaller ones. */
module FreeOrder {
  import opened Lists
  import opened BlockMap
  import opened Partition
  import opened HeapSpec
  import opened Allocator
  import opened HeapTheorems
  import opened Driver

  // ----- how many blocks of one size the free list has room for

  /** How many blocks of s bytes can be cut from one of c bytes. */
  function Carves(c: int, s: int): nat
    requires 0 < s
    decreases c
  {
    if c < s then 0 else if c - s > FSIZE then 1 + Carves(c - s, s) else 1
  }

  ghost function Room(bm: Blocks, fl: seq<int>, s: int): nat
    requires 0 < s
  {
    if fl == [] then 0 else (if fl[0] in bm then Carves(bm[fl[0]].size, s) else 0) + Room(bm, fl[1..], s)
  }

  lemma {:induction false} RoomConcat(bm: Blocks, f: seq<int>, g: seq<int>, s: int)
    requires 0 < s
    ensures Room(bm, f + g, s) == Room(bm, f, s) + Room(bm, g, s)
  {
    if f == [] {
      assert f + g == g;
    } else {
      assert (f + g)[1..] == f[1..] + g;
      RoomConcat(bm, f[1..], g, s);
    }
  }

  lemma {:induction false} RoomSame(bm1: Blocks, bm2: Blocks, fl: seq<int>, s: int)
    requires 0 < s && forall y :: y in fl ==> y in bm1 && y in bm2 && bm1[y] == bm2[y]
    ensures Room(bm1, fl, s) == Room(bm2, fl, s)
  {
    if fl != [] {
      var y0 := fl[0];
      assert y0 in fl;
      RoomSame(bm1, bm2, fl[1..], s);
    }
  }

  lemma RoomWithout(bm: Blocks, fl: seq<int>, x: int, s: int)
    requires 0 < s && x in fl && x in bm
    ensures Room(bm, fl, s) == Room(bm, [x] + Without(fl, x), s) == Carves(bm[x].size, s) + Room(bm, Without(fl, x), s)
  {
    var k := IndexOf(fl, x);
    assert fl == fl[..k] + ([x] + fl[k + 1..]);
    RoomConcat(bm, fl[..k], [x] + fl[k + 1..], s);
    RoomConcat(bm, [x], fl[k + 1..], s);
    RoomConcat(bm, fl[..k], fl[k + 1..], s);
    RoomConcat(bm, [x], Without(fl, x), s);
    assert [x][1..] == [];
  }

  lemma {:induction false} RoomLeft(bm: Blocks, fl: seq<int>, s: int)
    requires 0 < s && forall y :: y in fl ==> y in bm
    ensures Room(bm, fl, s) == 0 <==> NoneLarge(bm, fl, s)
  {
    if fl != [] {
      var y0 := fl[0];
      assert y0 in fl && forall y :: y in fl <==> y == y0 || y in fl[1..];
      RoomLeft(bm, fl[1..], s);
    }
  }

  ghost function RoomIn(l: Layout, s: int): nat
    requires 0 < s
  {
    Room(l.blocks, l.freeList, s)
  }

  /** The listed blocks other than x are untouched when x is placed in. */
  lemma OthersPlaced(l: Layout, x: int, a: int)
    requires WellFormed(l) && x in l.freeList && a % 8 == 0 && MIN_BLOCK <= a <= l.blocks[x].size
    ensures var r, rest, c := PlaceAt(l, x, a), Without(l.freeList, x), l.blocks[x].size;
      && (forall y :: y in rest ==> y in l.blocks && y in r.blocks && l.blocks[y] == r.blocks[y])
      && (c - a > FSIZE ==> r.freeList == [x + a] + rest && x + a in r.blocks && r.blocks[x + a].size == c - a)
      && (c - a <= FSIZE ==> r.freeList == rest)
  {
    PlaceExact(l, x, a);
    WithoutMembers(l.freeList, x);
    hide PlaceAt, Without, Tiling, AllAligned, NoFreeNeighbours, Distinct;
  }

  lemma RoomPlaced(l: Layout, x: int, a: int, s: int)
    requires WellFormed(l) && x in l.freeList && a % 8 == 0 && MIN_BLOCK <= a <= l.blocks[x].size && 0 < s
    ensures var c := l.blocks[x].size;
      RoomIn(PlaceAt(l, x, a), s) == RoomIn(l, s) - Carves(c, s) + if c - a > FSIZE then Carves(c - a, s) else 0
  {
    var r, rest := PlaceAt(l, x, a), Without(l.freeList, x);
    OthersPlaced(l, x, a);
    hide WellFormed, PlaceAt, Without, Carves;
    RoomWithout(l.blocks, l.freeList, x, s);
    RoomSame(l.blocks, r.blocks, rest, s);
    if l.blocks[x].size - a > FSIZE {
      assert ([x + a] + rest)[1..] == rest;
    }
  }

  // ----- requests of one size until memory runs out

  lemma AdjustedBack(s: int)
    requires s % 8 == 0 && MIN_BLOCK <= s < INT_LIMIT
    ensures 0 < s - DSIZE < INT_LIMIT && AdjustedSize(s - DSIZE) == s
  {
  }

  /** In a heap that cannot grow, a request for s - 8 bytes is served exactly when there is room. */
  lemma GrantedByRoom(l: Layout, s: int)
    requires WellFormed(l) && s % 8 == 0 && MIN_BLOCK <= s < INT_LIMIT
    ensures 0 < s - DSIZE < INT_LIMIT && (Granted(l, l.brk, s - DSIZE) <==> RoomIn(l, s) > 0)
    ensures RoomIn(l, s) > 0 ==> var x := GrantAt(l, s - DSIZE);
      x in l.freeList && x in l.blocks && s <= l.blocks[x].size && GrantTo(l, s - DSIZE) == PlaceAt(l, x, s)
  {
    AdjustedBack(s);
    FitExists(l, s);
    RoomLeft(l.blocks, l.freeList, s);
    hide FirstFit, Room, AdjustedSize, PlaceAt, ExtendBy, ExtendedAt;
    if RoomIn(l, s) > 0 {
      var y :| y in l.freeList && !(y in l.blocks && l.blocks[y].size < s);
      assert FreeAt(l.blocks, y) && s <= l.blocks[y].size;
    } else {
      assert forall y :: FreeAt(l.blocks, y) ==> y in l.freeList;
    }
  }

  /** Serving it takes one unit of room. */
  lemma OneFill(l: Layout, s: int)
    requires WellFormed(l) && s % 8 == 0 && MIN_BLOCK <= s < INT_LIMIT && RoomIn(l, s) > 0
    ensures 0 < s - DSIZE < INT_LIMIT
    ensures var r := GrantTo(l, s - DSIZE); WellFormed(r) && r.brk == l.brk && RoomIn(r, s) == RoomIn(l, s) - 1
  {
    GrantedByRoom(l, s);
    var x := GrantAt(l, s - DSIZE);
    assert FreeAt(l.blocks, x);
    PlaceWellFormed(l, x, s);
    RoomPlaced(l, x, s, s);
  }

  function Fills(id: nat, n: nat, size: int): seq<Request>
    decreases n
  {
    if n == 0 then [] else [Alloc(id, size)] + Fills(id + 1, n - 1, size)
  }

  lemma {:induction false} FillsLegal(ids: set<nat>, id: nat, n: nat, size: int)
    requires 0 < size < INT_LIMIT && forall i :: i in ids ==> i < id
    ensures Legal(Fills(id, n, size), ids)
    decreases n
  {
    if n > 0 {
      FillsLegal(ids + {id}, id + 1, n - 1, size);
      assert Fills(id, n, size)[1..] == Fills(id + 1, n - 1, size);
    }
  }

  lemma {:induction false} FillVerdict(l: Layout, table: map<nat, int>, id: nat, n: nat, s: int, op: nat)
    requires WellFormed(l) && s % 8 == 0 && MIN_BLOCK <= s < INT_LIMIT && forall i :: i in table ==> i < id
    ensures Legal(Fills(id, n, s - DSIZE), table.Keys)
    ensures VerdictFrom(l, table, l.brk, Fills(id, n, s - DSIZE), op) == if n <= RoomIn(l, s) then Passed else OutOfMemory
    decreases n
  {
    hide WellFormed, Granted, GrantTo, GrantAt;
    AdjustedBack(s);
    FillsLegal(table.Keys, id, n, s - DSIZE);
    if n > 0 {
      GrantedByRoom(l, s);
      assert Fills(id, n, s - DSIZE)[1..] == Fills(id + 1, n - 1, s - DSIZE);
      if RoomIn(l, s) > 0 {
        OneFill(l, s);
        var t := table[id := GrantAt(l, s - DSIZE)];
        assert t.Keys == table.Keys + {id};
        FillVerdict(GrantTo(l, s - DSIZE), t, id + 1, n - 1, s, op + 1);
      }
    }
  }

  // ----- telling two orders of the list apart

  /** The first listed block has b bytes at least, so it serves a request for them. */
  lemma FirstServed(l: Layout, b: int, s: int)
    requires WellFormed(l) && b % 8 == 0 && MIN_BLOCK <= b <= s < INT_LIMIT && FirstLarge(l.blocks, l.freeList, b, 0)
    requires l.blocks[l.freeList[0]].size <= s
    ensures 0 < b - DSIZE < INT_LIMIT && Granted(l, l.brk, b - DSIZE)
    ensures var r := GrantTo(l, b - DSIZE);
      && WellFormed(r) && r.brk == l.brk
      && RoomIn(r, s) == RoomIn(l, s) - if l.blocks[l.freeList[0]].size == s then 1 else 0
  {
    var x := l.freeList[0];
    AdjustedBack(b);
    assert x in l.freeList && FreeAt(l.blocks, x);
    MallocTakesFirst(l, b, 0);
    FitExists(l, b);
    PlaceWellFormed(l, x, b);
    PlaceExact(l, x, b);
    RoomPlaced(l, x, b, s);
    hide WellFormed, FirstFit, RoomIn, Placed, PlacedList;
  }

  /** One block of b bytes, then as many of s bytes as are asked for. */
  lemma FirstThenFills(l: Layout, table: map<nat, int>, id: nat, b: int, n: nat, s: int, op: nat)
    requires WellFormed(l) && b % 8 == s % 8 == 0 && MIN_BLOCK <= b <= s < INT_LIMIT && FirstLarge(l.blocks, l.freeList, b, 0)
    requires l.blocks[l.freeList[0]].size <= s && forall i :: i in table ==> i < id
    ensures Legal([Alloc(id, b - DSIZE)] + Fills(id + 1, n, s - DSIZE), table.Keys)
    ensures VerdictFrom(l, table, l.brk, [Alloc(id, b - DSIZE)] + Fills(id + 1, n, s - DSIZE), op) ==
      if n <= RoomIn(l, s) - (if l.blocks[l.freeList[0]].size == s then 1 else 0) then Passed else OutOfMemory
  {
    FirstServed(l, b, s);
    hide WellFormed, Granted, GrantTo, GrantAt, RoomIn, FirstLarge;
    var trace := [Alloc(id, b - DSIZE)] + Fills(id + 1, n, s - DSIZE);
    var t := table[id := GrantAt(l, b - DSIZE)];
    assert t.Keys == table.Keys + {id} && trace[1..] == Fills(id + 1, n, s - DSIZE);
    FillVerdict(GrantTo(l, b - DSIZE), t, id + 1, n, s, op + 1);
  }

  lemma FreshId(ids: set<nat>) returns (id: nat)
    ensures forall i :: i in ids ==> i < id
  {
    id := 0;
    var rest := ids;
    while rest != {}
      invariant forall i :: i in ids && i !in rest ==> i < id
      decreases rest
    {
      var i :| i in rest;
      rest := rest - {i};
      id := if i < id then id else i + 1;
    }
  }

  lemma ToFrontWellFormed(l: Layout, x: int)
    requires WellFormed(l) && x in l.freeList
    ensures WellFormed(l.(freeList := [x] + Without(l.freeList, x)))
  {
    WithoutMembers(l.freeList, x);
  }

  /** A continuation that passes before and not after a block is moved to the front past a smaller one. */
  lemma Distinguish(l: Layout, table: map<nat, int>, a: int, k: int, op: nat) returns (rest: seq<Request>)
    requires WellFormed(l) && l.brk < INT_LIMIT && FirstLarge(l.blocks, l.freeList, a, k) && k > 0
    ensures Legal(rest, table.Keys) && VerdictFrom(l, table, l.brk, rest, op) == Passed
    ensures VerdictFrom(l.(freeList := [l.freeList[k]] + Without(l.freeList, l.freeList[k])), table, l.brk, rest, op) == OutOfMemory
  {
    var x, y := l.freeList[k], l.freeList[0];
    assert x in l.freeList && y in l.freeList;
    assert AlignedAt(l.blocks, x) && SizeOk(SPACE, l.blocks, l.brk, x) && AlignedAt(l.blocks, y) && SizeOk(SPACE, l.blocks, l.brk, y);
    var id := FreshId(table.Keys);
    var b, s := l.blocks[y].size, l.blocks[x].size;
    var n, moved := RoomIn(l, s), l.(freeList := [x] + Without(l.freeList, x));
    ToFrontWellFormed(l, x);
    RoomWithout(l.blocks, l.freeList, x, s);
    hide WellFormed, VerdictFrom, Legal;
    rest := [Alloc(id, b - DSIZE)] + Fills(id + 1, n, s - DSIZE);
    FirstThenFills(l, table, id, b, n, s, op);
    FirstThenFills(moved, table, id, b, n, s, op);
  }

  // ----- the theorem

  function Pair(id: nat, size: int): seq<Request>
  {
    [Alloc(id, size), Release(id)]
  }

  lemma PairLegal(ids: set<nat>, id: nat, size: int, rest: seq<Request>)
    requires id !in ids && 0 < size < INT_LIMIT
    ensures Legal(Pair(id, size) + rest, ids) <==> Legal(rest, ids)
  {
    var trace := Pair(id, size) + rest;
    assert trace[1..] == [Release(id)] + rest && trace[1..][1..] == rest;
    assert ids + {id} - {id} == ids;
  }

  /** The allocation and the release before the trace rest do not change its verdict. */
  ghost predicate Unseen(l: Layout, table: map<nat, int>, id: nat, size: int, cap: int, rest: seq<Request>, op: nat)
  {
    Legal(rest, table.Keys) && Legal(Pair(id, size) + rest, table.Keys) ==>
      VerdictFrom(l, table, cap, Pair(id, size) + rest, op) == VerdictFrom(l, table, cap, rest, op + 2)
  }

  lemma PairVerdict(l: Layout, table: map<nat, int>, id: nat, size: int, k: int, cap: int, rest: seq<Request>, op: nat)
    requires WellFormed(l) && id !in table && 0 < size < INT_LIMIT && FirstLarge(l.blocks, l.freeList, AdjustedSize(size), k)
    requires Legal(rest, table.Keys)
    ensures Legal(Pair(id, size) + rest, table.Keys)
    ensures var x := l.freeList[k];
      VerdictFrom(l, table, cap, Pair(id, size) + rest, op) ==
      VerdictFrom(l.(freeList := [x] + Without(l.freeList, x)), table, cap, rest, op + 2)
  {
    var a, x, trace := AdjustedSize(size), l.freeList[k], Pair(id, size) + rest;
    AdjustedSizeBounds(size);
    PairLegal(table.Keys, id, size, rest);
    assert trace[1..] == [Release(id)] + rest && trace[1..][1..] == rest;
    MallocTakesFirst(l, a, k);
    FitExists(l, a);
    assert x in l.freeList;
    PlaceThenFree(l, x, a);
    var t := table[id := x];
    assert t.Keys == table.Keys + {id} && t - {id} == table;
    assert GrantTo(l, size) == PlaceAt(l, x, a) && GrantAt(l, size) == x && Granted(l, cap, size);
    hide PlaceAt, ReleaseAt, Granted, GrantTo, GrantAt, WellFormed;
    assert VerdictFrom(l, table, cap, trace, op) == VerdictFrom(PlaceAt(l, x, a), t, cap, trace[1..], op + 1);
  }

  /** Allocating and releasing a block leaves the verdict of every continuation, in a heap of every
      size, as it was if and only if the block it is served from is the first of the free list. */
  lemma UnseenExact(l: Layout, table: map<nat, int>, id: nat, size: int, k: int, op: nat)
    requires WellFormed(l) && l.brk < INT_LIMIT && id !in table && 0 < size < INT_LIMIT
    requires FirstLarge(l.blocks, l.freeList, AdjustedSize(size), k)
    ensures (forall cap: int, rest: seq<Request> :: Unseen(l, table, id, size, cap, rest, op)) <==> k == 0
  {
    AdjustedSizeBounds(size);
    var x := l.freeList[k];
    hide WellFormed, VerdictFrom, Legal, AdjustedSize;
    if k == 0 {
      FrontStays(l.freeList);
      forall cap: int, rest: seq<Request>
        ensures Unseen(l, table, id, size, cap, rest, op)
      {
        if Legal(rest, table.Keys) {
          PairVerdict(l, table, id, size, k, cap, rest, op);
        }
      }
    } else {
      var rest := Distinguish(l, table, AdjustedSize(size), k, op + 2);
      PairVerdict(l, table, id, size, k, l.brk, rest, op);
      assert !Unseen(l, table, id, size, l.brk, rest, op);
    }
  }

  lemma FrontStays(fl: seq<int>)
    requires fl != [] && Distinct(fl)
    ensures [fl[0]] + Without(fl, fl[0]) == fl
  {
    WithoutAt(fl, 0);
  }
}
