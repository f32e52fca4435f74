/** The correctness check of sp_03_malloclab/src/mdriver.c, run against the allocator: whole runs
    of malloc, realloc and free requests, with every block filled and every range checked. */
module Driver {
  import opened WordMemory
  import opened BlockMap
  import opened Partition
  import opened HeapSpec
  import opened Allocator
  import opened HeapTheorems

  datatype Request = Alloc(id: nat, size: int) | Resize(id: nat, size: int) | Release(id: nat)

  datatype Range = Range(lo: int, hi: int)

  datatype Verdict = Passed | OutOfMemory | BadRange(op: int) | NotPreserved(op: int)

  /** What a trace file promises: an id is allocated before it is resized or released, and sizes
      are positive C ints. */
  predicate Legal(trace: seq<Request>, ids: set<nat>)
  {
    trace == [] ||
    match trace[0]
    case Alloc(id, size) => id !in ids && 0 < size < INT_LIMIT && Legal(trace[1..], ids + {id})
    case Resize(id, size) => id in ids && 0 < size < INT_LIMIT && Legal(trace[1..], ids)
    case Release(id) => id in ids && Legal(trace[1..], ids - {id})
  }

  /** A byte read through a signed char. */
  function SignedChar(b: Byte): int
  {
    if b < 128 then b else b - 256
  }

  predicate Overlaps(r: Range, lo: int, hi: int)
  {
    (r.lo <= lo <= r.hi) || (r.lo <= hi <= r.hi)
  }

  /** The test misses exactly one kind of overlap: a new range that reaches beyond an older one on both
      sides. */
  lemma OverlapsExact(r: Range, lo: int, hi: int)
    requires r.lo <= r.hi && lo <= hi
    ensures Overlaps(r, lo, hi) <==> (r.lo <= hi && lo <= r.hi) && !(lo < r.lo && r.hi < hi)
  {
  }

  function Los(ranges: seq<Range>): set<int>
  {
    set x | x in ranges :: x.lo
  }

  /** The ranges recorded are those of the live blocks, once each. */
  ghost predicate Recorded(live: Contents, ranges: seq<Range>)
  {
    && Los(ranges) == live.Keys
    && (forall x :: x in ranges ==> x.lo in live && x.hi == x.lo + |live[x.lo]| - 1)
    && (forall i, j :: 0 <= i < j < |ranges| ==> ranges[i].lo != ranges[j].lo)
  }

  /** The ranges depend on addresses and lengths only. */
  lemma RecordedSame(live1: Contents, live2: Contents, ranges: seq<Range>)
    requires Recorded(live1, ranges) && live1.Keys == live2.Keys && forall p :: p in live1 ==> |live1[p]| == |live2[p]|
    ensures Recorded(live2, ranges)
  {
  }

  lemma LosMore(ranges: seq<Range>, x0: Range)
    ensures Los([x0] + ranges) == Los(ranges) + {x0.lo}
  {
    var r := [x0] + ranges;
    assert x0 in r && forall x :: x in r <==> x == x0 || x in ranges;
  }

  lemma RecordedMore(live: Contents, ranges: seq<Range>, p: int)
    requires p in live && Recorded(live - {p}, ranges)
    ensures Recorded(live, [Range(p, p + |live[p]| - 1)] + ranges)
  {
    var x0 := Range(p, p + |live[p]| - 1);
    var r := [x0] + ranges;
    LosMore(ranges, x0);
    OnceMore(ranges, x0);
    hide Los;
    forall x | x in r
      ensures x.lo in live && x.hi == x.lo + |live[x.lo]| - 1
    {
      if x != x0 {
        assert x in ranges && x.lo in live - {p};
      }
    }
  }

  lemma OnceMore(ranges: seq<Range>, x0: Range)
    requires forall x :: x in ranges ==> x.lo != x0.lo
    requires forall i, j :: 0 <= i < j < |ranges| ==> ranges[i].lo != ranges[j].lo
    ensures var r := [x0] + ranges; forall i, j :: 0 <= i < j < |r| ==> r[i].lo != r[j].lo
  {
    forall j | 0 <= j < |ranges|
      ensures ranges[j].lo != x0.lo
    {
      var x := ranges[j];
      assert x in ranges;
    }
  }

  lemma RecordedLess(live: Contents, ranges: seq<Range>, r: seq<Range>, p: int)
    requires Recorded(live, ranges) && forall x :: x in r <==> x in ranges && x.lo != p
    requires forall i, j :: 0 <= i < j < |r| ==> r[i].lo != r[j].lo
    ensures Recorded(live - {p}, r)
  {
  }

  /** add_range. */
  method AddRange(h: Heap, ranges: seq<Range>, lo: int, size: int) returns (ok: bool, r: seq<Range>)
    requires 0 < size
    ensures ok <==> lo % 8 == 0 && 0 <= lo && lo + size <= h.brk && forall x :: x in ranges ==> !Overlaps(x, lo, lo + size - 1)
    ensures r == if ok then [Range(lo, lo + size - 1)] + ranges else ranges
  {
    var hi := lo + size - 1;
    if lo % 8 != 0 {
      return false, ranges;
    }
    if lo < 0 || lo > h.brk - 1 || hi < 0 || hi > h.brk - 1 {
      return false, ranges;
    }
    for i := 0 to |ranges|
      invariant forall j :: 0 <= j < i ==> !Overlaps(ranges[j], lo, hi)
    {
      assert ranges[i] in ranges;
      if Overlaps(ranges[i], lo, hi) {
        return false, ranges;
      }
    }
    return true, [Range(lo, hi)] + ranges;
  }

  /** remove_range. */
  method RemoveRange(ranges: seq<Range>, lo: int) returns (r: seq<Range>)
    requires forall i, j :: 0 <= i < j < |ranges| ==> ranges[i].lo != ranges[j].lo
    ensures forall x :: x in r <==> x in ranges && x.lo != lo
    ensures forall i, j :: 0 <= i < j < |r| ==> r[i].lo != r[j].lo
  {
    for i := 0 to |ranges|
      invariant forall j :: 0 <= j < i ==> ranges[j].lo != lo
    {
      if ranges[i].lo == lo {
        r := ranges[..i] + ranges[i + 1..];
        forall x | x in ranges && x.lo != lo
          ensures x in r
        {
          var j :| 0 <= j < |ranges| && ranges[j] == x;
          assert r[if j < i then j else j - 1] == x;
        }
        return;
      }
    }
    r := ranges;
  }

  /** memset of a whole block. */
  method Fill(h: Heap, p: int, v: Byte, size: nat)
    requires h.Valid() && p in h.live && size == |h.live[p]|
    modifies h`live, h.mem
    ensures h.Valid() && h.live.Keys == old(h.live).Keys && |h.live[p]| == size
    ensures forall k :: 0 <= k < size ==> h.live[p][k] == v
    ensures forall q :: q in h.live && q != p ==> h.live[q] == old(h.live)[q]
  {
    for k := 0 to size
      invariant h.Valid() && h.live.Keys == old(h.live).Keys && |h.live[p]| == size
      invariant forall j :: 0 <= j < k ==> h.live[p][j] == v
      invariant forall q :: q in h.live && q != p ==> h.live[q] == old(h.live)[q]
    {
      h.Store(p, k, v);
    }
  }

  /** Every id has its own live block of the recorded size, filled with the id's low byte, and no other
      block is live. */
  ghost predicate Filled(live: Contents, table: map<nat, int>, sizes: map<nat, int>)
  {
    && table.Keys == sizes.Keys
    && (forall id :: id in table ==> table[id] in live && |live[table[id]]| == sizes[id])
    && (forall id, k :: id in table && 0 <= k < sizes[id] ==> live[table[id]][k] == id % 256)
    && (forall i, j :: i in table && j in table && table[i] == table[j] ==> i == j)
    && (forall p :: p in live ==> exists id :: id in table && table[id] == p)
  }

  lemma FilledAt(live: Contents, table: map<nat, int>, sizes: map<nat, int>, id: nat)
    requires Filled(live, table, sizes) && id in table
    ensures id in sizes && table[id] in live && |live[table[id]]| == sizes[id]
    ensures forall k :: 0 <= k < sizes[id] ==> live[table[id]][k] == id % 256
  {
  }

  /** A live block that is not recorded yet passes add_range's tests. */
  lemma Admissible(h: Heap, ranges: seq<Range>, p: int)
    requires h.Valid() && p in h.live && Recorded(h.live - {p}, ranges)
    ensures forall x :: x in ranges ==> !Overlaps(x, p, p + |h.live[p]| - 1)
    ensures p % 8 == 0 && 0 <= p && p + |h.live[p]| <= h.brk && 0 < |h.live[p]|
  {
    hide Inv;
    h.LivePayloads();
    h.LivePointer(p);
    forall x | x in ranges
      ensures !Overlaps(x, p, p + |h.live[p]| - 1)
    {
      assert x.lo in h.live && x.lo != p;
      h.LivePointer(x.lo);
      assert x.lo < p || p < x.lo;
    }
  }

  /** Reads the first n bytes of p back and compares them with the low byte of id. */
  method CheckCopied(h: Heap, p: int, id: nat, n: nat) returns (ok: bool)
    requires h.Valid() && p in h.live && n <= |h.live[p]|
    requires forall k :: 0 <= k < n ==> h.live[p][k] == id % 256
    ensures ok <==> n == 0 || id % 256 < 128
  {
    for k := 0 to n
      invariant k > 0 ==> id % 256 < 128
    {
      h.LiveByte(p, k);
      if SignedChar(h.LoadByte(p + k)) != id % 256 {
        return false;
      }
    }
    return true;
  }

  // ----- what a run must answer

  /** The sizes in use after one more request. */
  function Noted(sizes: map<nat, int>, q: Request): map<nat, int>
  {
    match q
    case Alloc(id, size) => sizes[id := size]
    case Resize(id, size) => sizes[id := size]
    case Release(id) => sizes - {id}
  }

  /** The ids allocated and not released since, with the size last asked for. */
  ghost function Outstanding(trace: seq<Request>): map<nat, int>
  {
    if trace == [] then map[] else Noted(Outstanding(trace[..|trace| - 1]), trace[|trace| - 1])
  }

  /** An allocation of size bytes succeeds in a heap of at most cap bytes. */
  ghost predicate Granted(l: Layout, cap: int, size: int)
    requires 0 < size < INT_LIMIT
  {
    AdjustedSizeBounds(size);
    CanMalloc(l, cap, AdjustedSize(size))
  }

  /** The request allocates and is not granted. */
  ghost predicate Refused(l: Layout, cap: int, q: Request)
  {
    !q.Release? && 0 < q.size < INT_LIMIT && !Granted(l, cap, q.size)
  }

  /** Where the block is, and the layout after. */
  ghost function GrantAt(l: Layout, size: int): int
    requires 0 < size < INT_LIMIT
  {
    AdjustedSizeBounds(size);
    MallocAt(l, AdjustedSize(size))
  }

  ghost function GrantTo(l: Layout, size: int): Layout
    requires 0 < size < INT_LIMIT
  {
    AdjustedSizeBounds(size);
    PlaceAt(MallocFrom(l, AdjustedSize(size)), GrantAt(l, size), AdjustedSize(size))
  }

  /** The verdict on a trace from layout l on, where table maps ids to blocks and the first request
      has number op: memory runs out exactly when an allocation is not granted, and contents are
      found changed exactly when a granted resize has an id that signed bytes cannot equal. */
  ghost function VerdictFrom(l: Layout, table: map<nat, int>, cap: int, trace: seq<Request>, op: nat): Verdict
    requires Legal(trace, table.Keys)
    decreases |trace|
  {
    if trace == [] then Passed
    else
      match trace[0]
      case Alloc(id, size) =>
        if !Granted(l, cap, size) then OutOfMemory
        else
          var t := table[id := GrantAt(l, size)];
          assert t.Keys == table.Keys + {id};
          VerdictFrom(GrantTo(l, size), t, cap, trace[1..], op + 1)
      case Resize(id, size) =>
        if !Granted(l, cap, size) then OutOfMemory
        else if id % 256 >= 128 then NotPreserved(op)
        else
          var t := table[id := GrantAt(l, size)];
          assert t.Keys == table.Keys;
          VerdictFrom(ReleaseAt(GrantTo(l, size), table[id]), t, cap, trace[1..], op + 1)
      case Release(id) =>
        var t := table - {id};
        assert t.Keys == table.Keys - {id};
        VerdictFrom(ReleaseAt(l, table[id]), t, cap, trace[1..], op + 1)
  }

  /** A resize after which signed bytes cannot equal the id's low byte. */
  predicate Mangled(q: Request)
  {
    q.Resize? && q.id % 256 >= 128
  }

  const FRESH := Layout(map[FIRST := Block(CHUNKSIZE, true)], FIRST + CHUNKSIZE, [FIRST])

  /** The verdict on a whole trace in a heap of at most cap bytes. */
  ghost function VerdictOf(cap: int, trace: seq<Request>): Verdict
    requires Legal(trace, {})
  {
    if FIRST + CHUNKSIZE > cap then OutOfMemory
    else
      var none: map<nat, int> := map[];
      assert none.Keys == {};
      VerdictFrom(FRESH, none, cap, trace, 0)
  }

  // ----- the driver's steps

  /** The driver's bookkeeping agrees with the heap. */
  ghost predicate InStep(h: Heap, ranges: seq<Range>, table: map<nat, int>, sizes: map<nat, int>)
    reads h, h.mem
  {
    h.Valid() && Recorded(h.live, ranges) && Filled(h.live, table, sizes)
  }

  method DoAlloc(h: Heap, ranges: seq<Range>, id: nat, size: int, ghost table: map<nat, int>, ghost sizes: map<nat, int>)
    returns (ok: bool, p: int, r: seq<Range>)
    requires InStep(h, ranges, table, sizes) && id !in table && 0 < size < INT_LIMIT
    modifies h, h.mem
    ensures p != 0 <==> Granted(old(h.State()), 4 * h.mem.Length, size)
    ensures p == 0 ==> h.Valid() && h.State() == old(h.State())
    ensures p != 0 ==> ok && InStep(h, r, table[id := p], sizes[id := size])
    ensures p != 0 ==> p == GrantAt(old(h.State()), size) && h.State() == GrantTo(old(h.State()), size)
  {
    hide Inv, MallocFrom, MallocAt, PlaceAt, CanMalloc, Filled, Recorded, FirstLarge;
    ok, r := true, ranges;
    ghost var live0 := h.live;
    p := h.Malloc(size);
    if p == 0 {
      return;
    }
    assert h.live - {p} == live0;
    Admissible(h, ranges, p);
    ok, r := AddRange(h, ranges, p, size);
    RecordedMore(h.live, ranges, p);
    ghost var live := h.live;
    Fill(h, p, id % 256, size);
    RecordedSame(live, h.live, r);
    FilledMore(live0, h.live, table, sizes, id, p, size);
  }

  lemma FilledMore(live0: Contents, live1: Contents, table: map<nat, int>, sizes: map<nat, int>, id: nat, p: int, size: nat)
    requires Filled(live0, table, sizes) && id !in table && p !in live0
    requires live1.Keys == live0.Keys + {p} && |live1[p]| == size && forall k :: 0 <= k < size ==> live1[p][k] == id % 256
    requires forall q :: q in live0 ==> live1[q] == live0[q]
    ensures Filled(live1, table[id := p], sizes[id := size])
  {
    var t := table[id := p];
    forall q | q in live1
      ensures exists i :: i in t && t[i] == q
    {
      if q == p {
        assert t[id] == q;
      } else {
        var i :| i in table && table[i] == q;
        assert t[i] == q;
      }
    }
  }

  lemma FilledLess(live: Contents, table: map<nat, int>, sizes: map<nat, int>, id: nat)
    requires Filled(live, table, sizes) && id in table
    ensures Filled(live - {table[id]}, table - {id}, sizes - {id})
  {
    var t := table - {id};
    forall q | q in live - {table[id]}
      ensures exists i :: i in t && t[i] == q
    {
      var i :| i in table && table[i] == q;
      assert t[i] == q;
    }
  }

  method DoRelease(h: Heap, ranges: seq<Range>, id: nat, p: int, ghost table: map<nat, int>, ghost sizes: map<nat, int>)
    returns (r: seq<Range>)
    requires InStep(h, ranges, table, sizes) && id in table && p == table[id]
    modifies h, h.mem
    ensures InStep(h, r, table - {id}, sizes - {id}) && h.State() == ReleaseAt(old(h.State()), p)
  {
    FilledAt(h.live, table, sizes, id);
    hide Inv, Coalesced, CoalescedList, Mark, Filled;
    h.LivePointer(p);
    r := RemoveRange(ranges, p);
    RecordedLess(h.live, ranges, r, p);
    FilledLess(h.live, table, sizes, id);
    h.Free(p);
  }

  /** The bookkeeping after realloc and remove_range. */
  method MoveRange(h: Heap, ranges: seq<Range>, oldp: int, size: int) returns (p: int, r: seq<Range>)
    requires h.Valid() && Recorded(h.live, ranges) && oldp in h.live && 0 < size < INT_LIMIT
    modifies h, h.mem
    ensures h.Valid() && (p != 0 <==> Granted(old(h.State()), 4 * h.mem.Length, size))
    ensures p == 0 ==> h.State() == old(h.State())
    ensures p != 0 ==> p !in old(h.live) && Moved(old(h.live), h.live, oldp, p, size)
    ensures p != 0 ==> p == GrantAt(old(h.State()), size) && h.State() == ReleaseAt(GrantTo(old(h.State()), size), oldp)
    ensures p != 0 ==> Recorded(h.live - {p}, r)
  {
    hide Inv, ReleaseAt, PlaceAt, MallocFrom, MallocAt, CanMalloc;
    ghost var live := h.live;
    h.LivePointer(oldp);
    p := h.Realloc(oldp, size);
    if p == 0 {
      return p, ranges;
    }
    r := RemoveRange(ranges, oldp);
    RecordedLess(live, ranges, r, oldp);
    RecordedSame(live - {oldp}, h.live - {p}, r);
  }

  /** Refills a moved block. */
  method Refill(h: Heap, r: seq<Range>, id: nat, p: int, size: int, ghost live0: Contents,
                ghost table: map<nat, int>, ghost sizes: map<nat, int>)
    requires h.Valid() && Recorded(h.live, r) && id in table && Filled(live0, table, sizes)
    requires p !in live0 && 0 < size && Moved(live0, h.live, table[id], p, size)
    modifies h, h.mem
    ensures InStep(h, r, table[id := p], sizes[id := size]) && h.State() == old(h.State())
  {
    hide Inv, Filled, Recorded;
    ghost var live := h.live;
    FilledAt(live0, table, sizes, id);
    FilledLess(live0, table, sizes, id);
    Fill(h, p, id % 256, size);
    RecordedSame(live, h.live, r);
    FilledMore(live0 - {table[id]}, h.live, table - {id}, sizes - {id}, id, p, size);
    assert (table - {id})[id := p] == table[id := p] && (sizes - {id})[id := size] == sizes[id := size];
  }

  method DoResize(h: Heap, ranges: seq<Range>, id: nat, oldp: int, oldsize: int, size: int,
                  ghost table: map<nat, int>, ghost sizes: map<nat, int>)
    returns (ok: bool, preserved: bool, p: int, r: seq<Range>)
    requires InStep(h, ranges, table, sizes) && id in table && 0 < size < INT_LIMIT
    requires oldp == table[id] && oldsize == sizes[id]
    modifies h, h.mem
    ensures p != 0 <==> Granted(old(h.State()), 4 * h.mem.Length, size)
    ensures p == 0 ==> h.Valid() && h.State() == old(h.State())
    ensures p != 0 ==> ok && (preserved <==> id % 256 < 128)
    ensures p != 0 ==> p == GrantAt(old(h.State()), size) && h.State() == ReleaseAt(GrantTo(old(h.State()), size), oldp)
    ensures p != 0 && preserved ==> InStep(h, r, table[id := p], sizes[id := size])
  {
    hide Inv, Filled, Granted, GrantAt, GrantTo, ReleaseAt, Recorded;
    ghost var live := h.live;
    FilledAt(live, table, sizes, id);
    h.LivePointer(oldp);
    ok, preserved := true, true;
    p, r := MoveRange(h, ranges, oldp, size);
    if p == 0 {
      return;
    }
    Admissible(h, r, p);
    RecordedMore(h.live, r, p);
    ok, r := AddRange(h, r, p, size);
    preserved := CheckCopied(h, p, id, if size < oldsize then size else oldsize);
    if preserved {
      Refill(h, r, id, p, size, live, table, sizes);
    }
  }

  method Start(h: Heap) returns (r: int)
    requires 4 * h.mem.Length < INT_LIMIT
    modifies h, h.mem
    ensures r >= 0 <==> FIRST + CHUNKSIZE <= 4 * h.mem.Length
    ensures r >= 0 ==> InStep(h, [], map[], map[]) && h.State() == FRESH
  {
    hide Inv;
    h.ResetBrk();
    r := h.MmInit();
  }

  /** Whether the loop goes on to the next request. */
  datatype Outcome = Continue | Stop(v: Verdict)

  /** One round of the loop, on the first request of what is left of the trace. */
  method DoRequest(h: Heap, q: Request, op: nat, ranges: seq<Range>, table: map<nat, int>, sizes: map<nat, int>, ghost trace: seq<Request>)
    returns (next: Outcome, r: seq<Range>, t: map<nat, int>, z: map<nat, int>)
    requires InStep(h, ranges, table, sizes) && Legal(trace, table.Keys) && trace != [] && trace[0] == q
    modifies h, h.mem
    ensures next.Continue? ==>
      && InStep(h, r, t, z) && z == Noted(sizes, q) && !Mangled(q) && Legal(trace[1..], t.Keys)
      && VerdictFrom(old(h.State()), table, 4 * h.mem.Length, trace, op) == VerdictFrom(h.State(), t, 4 * h.mem.Length, trace[1..], op + 1)
    ensures next.Stop? ==>
      && VerdictFrom(old(h.State()), table, 4 * h.mem.Length, trace, op) == next.v
      && match next.v
         case OutOfMemory => Refused(h.State(), 4 * h.mem.Length, q)
         case NotPreserved(k) => k == op && Mangled(q)
         case _ => false
  {
    hide Inv, Recorded, Filled, Granted, GrantAt, GrantTo, ReleaseAt;
    InStepTable(h, ranges, table, sizes);
    hide InStep;
    next, r, t, z := Continue, ranges, table, sizes;
    match q
    case Alloc(id, size) =>
      var ok, p;
      ok, p, r := DoAlloc(h, ranges, id, size, table, sizes);
      if p == 0 {
        return Stop(OutOfMemory), r, t, z;
      }
      if !ok {
        return Stop(BadRange(op)), r, t, z;
      }
      t, z := table[id := p], sizes[id := size];
      assert t.Keys == table.Keys + {id};
    case Resize(id, size) =>
      var ok, preserved, p;
      ok, preserved, p, r := DoResize(h, ranges, id, table[id], sizes[id], size, table, sizes);
      if p == 0 {
        return Stop(OutOfMemory), r, t, z;
      }
      if !ok {
        return Stop(BadRange(op)), r, t, z;
      }
      if !preserved {
        return Stop(NotPreserved(op)), r, t, z;
      }
      t, z := table[id := p], sizes[id := size];
      assert t.Keys == table.Keys;
    case Release(id) =>
      r := DoRelease(h, ranges, id, table[id], table, sizes);
      t, z := table - {id}, sizes - {id};
      assert t.Keys == table.Keys - {id};
  }

  /** eval_mm_valid on a legal trace answers exactly the verdict above: the heap and range checks
      never fail, contents are found changed only on a resize of an id whose low byte is 128 or more,
      and memory runs out only when the heap cannot be set up or, in the layout the heap then has, an
      allocation of the trace finds neither a fit nor room to grow.  After a run that passes the live
      blocks are exactly those of the ids allocated and not released, one each, with the last requested
      size, filled with the id. */
  method EvalMmValid(h: Heap, trace: seq<Request>) returns (v: Verdict, table: map<nat, int>)
    requires 4 * h.mem.Length < INT_LIMIT && Legal(trace, {})
    modifies h, h.mem
    ensures v == VerdictOf(4 * h.mem.Length, trace)
    ensures !v.BadRange?
    ensures v.NotPreserved? ==> 0 <= v.op < |trace| && Mangled(trace[v.op]) && forall i :: 0 <= i < v.op ==> !Mangled(trace[i])
    ensures v.Passed? ==> h.Valid() && forall i :: 0 <= i < |trace| ==> !Mangled(trace[i])
    ensures v.Passed? ==> Filled(h.live, table, Outstanding(trace))
    ensures v.OutOfMemory? ==>
      || FIRST + CHUNKSIZE > 4 * h.mem.Length
      || exists i :: 0 <= i < |trace| && Refused(h.State(), 4 * h.mem.Length, trace[i])
  {
    hide Inv, InStep, Recorded, Filled, Refused, Noted, Mangled;
    var r := Start(h);
    var ranges: seq<Range> := [];
    var sizes: map<nat, int> := map[];
    table := map[];
    if r < 0 {
      return OutOfMemory, table;
    }
    ghost var cap := 4 * h.mem.Length;
    assert trace[0..] == trace && table.Keys == {};
    hide Legal;
    for i := 0 to |trace|
      invariant InStep(h, ranges, table, sizes) && Legal(trace[i..], table.Keys)
      invariant VerdictOf(cap, trace) == VerdictFrom(h.State(), table, cap, trace[i..], i)
      invariant forall j :: 0 <= j < i ==> !Mangled(trace[j])
      invariant sizes == Outstanding(trace[..i])
    {
      assert trace[i..][0] == trace[i] && trace[i..][1..] == trace[i + 1..] && trace[..i + 1][..i] == trace[..i];
      var next;
      next, ranges, table, sizes := DoRequest(h, trace[i], i, ranges, table, sizes, trace[i..]);
      if next.Stop? {
        return next.v, table;
      }
    }
    assert trace[..|trace|] == trace;
    InStepTable(h, ranges, table, sizes);
    return Passed, table;
  }

  lemma InStepTable(h: Heap, ranges: seq<Range>, table: map<nat, int>, sizes: map<nat, int>)
    requires InStep(h, ranges, table, sizes)
    ensures table.Keys == sizes.Keys && h.Valid() && Filled(h.live, table, sizes)
  {
  }

  /** The signed comparison does fail: one block of one byte, resized to its own size. */
  lemma SignedComparisonFails(cap: int)
    ensures Legal([Alloc(128, 1), Resize(128, 1)], {})
    ensures VerdictOf(cap, [Alloc(128, 1), Resize(128, 1)]) ==
            if FIRST + CHUNKSIZE <= cap then NotPreserved(1) else OutOfMemory
  {
    var trace := [Alloc(128, 1), Resize(128, 1)];
    LegalPair(128, 1);
    FreshFits();
    var l := GrantTo(FRESH, 1);
    hide Granted, GrantAt, GrantTo;
    if FIRST + CHUNKSIZE <= cap {
      GrantedByFit(FRESH, cap, 1);
      GrantedByFit(l, cap, 1);
      var t: map<nat, int> := map[128 := GrantAt(FRESH, 1)];
      assert trace[1..] == [Resize(128, 1)] && trace[1..][1..] == [];
      assert t.Keys == {128};
      assert VerdictFrom(l, t, cap, trace[1..], 1) == NotPreserved(1);
    }
  }

  lemma LegalPair(id: nat, size: int)
    requires 0 < size < INT_LIMIT
    ensures Legal([Alloc(id, size), Resize(id, size)], {})
  {
    var trace := [Alloc(id, size), Resize(id, size)];
    assert trace[1..] == [Resize(id, size)] && trace[1..][1..] == [];
    assert Legal(trace[1..][1..], {id});
    assert Legal(trace[1..], {id});
  }

  ghost predicate HasFit(l: Layout, a: int)
  {
    exists y :: FreeAt(l.blocks, y) && a <= l.blocks[y].size
  }

  lemma GrantedByFit(l: Layout, cap: int, size: int)
    requires 0 < size < INT_LIMIT && WellFormed(l) && HasFit(l, AdjustedSize(size))
    ensures Granted(l, cap, size)
  {
    FitExists(l, AdjustedSize(size));
  }

  /** In the heap mm_init leaves there is room for two blocks of the minimum size. */
  lemma FreshFits()
    ensures WellFormed(FRESH) && HasFit(FRESH, AdjustedSize(1))
    ensures WellFormed(GrantTo(FRESH, 1)) && HasFit(GrantTo(FRESH, 1), AdjustedSize(1))
  {
    assert AdjustedSize(1) == 16 && FreeAt(FRESH.blocks, FIRST);
    FitExists(FRESH, 16);
    assert GrantAt(FRESH, 1) == FIRST;
    PlaceWellFormed(FRESH, FIRST, 16);
    assert FreeAt(GrantTo(FRESH, 1).blocks, FIRST + 16);
  }
}
