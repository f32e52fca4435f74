/** The interposed malloc, calloc, realloc and free (sp_01_linklab/handout/part3/memtrace.c) between a
    client that may call them with any pointer and an allocator that must not be misused. */
module MemTrace {
  import opened MemList

  const NULL := 0

  // ----- what a client sees, independent of the list

  /** What is logged about the pointer a client frees. */
  datatype Verdict = Fine | IllegalFree | DoubleFree

  /** The sizes of the live blocks, an address above all of them, and every address handed out. */
  datatype Blocks = Blocks(live: map<int, int>, top: int, known: set<int>)

  /** A client's call; choice is the address the allocator would like to answer with. */
  datatype Call =
    | Malloc(size: int, choice: int)
    | Calloc(nmemb: int, size: int, choice: int)
    | Realloc(ptr: int, size: int, choice: int)
    | Free(ptr: int)

  /** Any address that is not live can be chosen. */
  function Chosen(live: map<int, int>, top: int, choice: int): int
  {
    if choice > 0 && choice !in live then choice else top
  }

  function Allocated(b: Blocks, size: int, choice: int): Blocks
  {
    var p := Chosen(b.live, b.top, choice);
    Blocks(b.live[p := size], if p < b.top then b.top else p + 1, b.known + {p})
  }

  /** What is said about freeing ptr. */
  function Judged(b: Blocks, ptr: int): Verdict
  {
    if ptr in b.live then Fine else if ptr in b.known then DoubleFree else IllegalFree
  }

  /** The blocks after a call. */
  function After(b: Blocks, c: Call): Blocks
  {
    match c
    case Malloc(size, choice) => Allocated(b, size, choice)
    case Calloc(nmemb, size, choice) => Allocated(b, nmemb * size, choice)
    case Realloc(ptr, size, choice) =>
      if ptr !in b.live then Allocated(b, size, choice)
      else if size <= b.live[ptr] then b
      else Allocated(b.(live := b.live - {ptr}), size, choice)
    case Free(ptr) => b.(live := b.live - {ptr})
  }

  /** What a call answers, and what is logged about it. */
  datatype Reply = Reply(result: int, verdict: Verdict)

  function ReplyTo(b: Blocks, c: Call): Reply
  {
    match c
    case Malloc(_, choice) => Reply(Chosen(b.live, b.top, choice), Fine)
    case Calloc(_, _, choice) => Reply(Chosen(b.live, b.top, choice), Fine)
    case Realloc(ptr, size, choice) =>
      Reply(if ptr in b.live && size <= b.live[ptr] then ptr else Chosen(b.live - {ptr}, b.top, choice), Judged(b, ptr))
    case Free(ptr) => Reply(NULL, if ptr == NULL then Fine else Judged(b, ptr))
  }

  /** The replies to a list of calls, and the blocks after them. */
  function Replies(b: Blocks, calls: seq<Call>): (r: seq<Reply>)
    ensures |r| == |calls|
    decreases |calls|
  {
    if calls == [] then [] else [ReplyTo(b, calls[0])] + Replies(After(b, calls[0]), calls[1..])
  }

  function AfterAll(b: Blocks, calls: seq<Call>): Blocks
    decreases |calls|
  {
    if calls == [] then b else AfterAll(After(b, calls[0]), calls[1..])
  }

  // ----- the allocator

  /** The allocator underneath.  It always succeeds, and returns any address that is not live: choice
      is the one it would like to return. */
  class RealAllocator {
    var live: map<int, int>
    var top: int

    ghost predicate Valid()
      reads this
    {
      0 < top && forall p :: p in live ==> 0 < p < top
    }

    constructor ()
      ensures Valid() && live == map[]
    {
      live, top := map[], 1;
    }

    method Malloc(size: int, choice: int) returns (p: int)
      requires Valid()
      modifies this
      ensures Valid() && p > 0 && p !in old(live) && live == old(live)[p := size]
      ensures p == Chosen(old(live), old(top), choice) && top == (if p < old(top) then old(top) else p + 1)
    {
      p := if choice > 0 && choice !in live then choice else top;
      live := live[p := size];
      top := if p < top then top else p + 1;
    }

    /** Only NULL or a live pointer may be passed. */
    method Realloc(ptr: int, size: int, choice: int) returns (p: int)
      requires Valid() && (ptr == NULL || ptr in live)
      modifies this
      ensures Valid() && p > 0 && p !in old(live) - {ptr} && live == (old(live) - {ptr})[p := size]
      ensures ptr == NULL ==> p !in old(live) && live == old(live)[p := size]
      ensures p == Chosen(old(live) - {ptr}, old(top), choice) && top == (if p < old(top) then old(top) else p + 1)
    {
      assert ptr == NULL ==> live - {ptr} == live;
      live := live - {ptr};
      p := Malloc(size, choice);
    }

    /** Only a live pointer may be passed. */
    method Free(ptr: int)
      requires Valid() && ptr in live
      modifies this
      ensures Valid() && live == old(live) - {ptr} && top == old(top)
    {
      live := live - {ptr};
    }
  }

  /** The count of every address is 1 if it is live and 0 if not, and live blocks are listed with
      their size. */
  ghost predicate Agrees(es: seq<Entry>, live: map<int, int>)
  {
    forall q {:trigger Get(es, q)} ::
      && Get(es, q).cnt == (if q in live then 1 else 0)
      && (q in live ==> Has(es, q) && Get(es, q).size == live[q])
  }

  lemma AgreesRecorded(es: seq<Entry>, live: map<int, int>, p: int, size: int)
    requires Sorted(es) && Agrees(es, live) && p !in live
    ensures Sorted(Recorded(es, p, size)) && Agrees(Recorded(es, p, size), live[p := size])
    ensures forall q :: Has(Recorded(es, p, size), q) <==> q == p || Has(es, q)
  {
    hide Get, Recorded, Sorted;
    RecordedGet(es, p, size, p);
    forall q
      ensures Has(Recorded(es, p, size), q) <==> q == p || Has(es, q)
      ensures Get(Recorded(es, p, size), q) == if q == p then Entry(p, size, Get(es, p).cnt + 1) else Get(es, q)
    {
      RecordedGet(es, p, size, q);
    }
  }

  lemma AgreesReleased(es: seq<Entry>, live: map<int, int>, p: int)
    requires Sorted(es) && Agrees(es, live) && p in live
    ensures Sorted(Released(es, p)) && Agrees(Released(es, p), live - {p})
    ensures forall q :: Has(Released(es, p), q) <==> Has(es, q)
  {
    hide Get, Released, Sorted;
    ReleasedGet(es, p, p);
    assert Has(es, p) by {
      assert Get(es, p).cnt == 1;
    }
    forall q
      ensures Has(Released(es, p), q) <==> Has(es, q)
      ensures Get(Released(es, p), q) == if q == p then Get(es, q).(cnt := Get(es, q).cnt - 1) else Get(es, q)
    {
      ReleasedGet(es, p, q);
    }
  }

  function Addresses(es: seq<Entry>): set<int>
  {
    set e | e in es :: e.ptr
  }

  lemma AddressesKnown(es: seq<Entry>)
    requires Sorted(es)
    ensures forall q :: q in Addresses(es) <==> Has(es, q)
  {
    forall q
      ensures q in Addresses(es) <==> Has(es, q)
    {
      if q in Addresses(es) {
        var i :| 0 <= i < |es| && es[i].ptr == q;
        PlaceIs(es, q, i);
      }
    }
  }

  lemma AddressesRecorded(es: seq<Entry>, p: int, size: int)
    requires Sorted(es)
    ensures Addresses(Recorded(es, p, size)) == Addresses(es) + {p}
  {
    hide Recorded, Sorted, Addresses;
    RecordedGet(es, p, size, p);
    AddressesKnown(es);
    AddressesKnown(Recorded(es, p, size));
    forall q
      ensures q in Addresses(Recorded(es, p, size)) <==> q in Addresses(es) + {p}
    {
      RecordedGet(es, p, size, q);
    }
  }

  lemma AddressesReleased(es: seq<Entry>, p: int)
    requires Sorted(es)
    ensures Addresses(Released(es, p)) == Addresses(es)
  {
    hide Released, Sorted, Addresses;
    ReleasedGet(es, p, p);
    AddressesKnown(es);
    AddressesKnown(Released(es, p));
    forall q
      ensures q in Addresses(Released(es, p)) <==> q in Addresses(es)
    {
      ReleasedGet(es, p, q);
    }
  }

  class Tracer {
    const libc: RealAllocator
    const list: List

    /** No precondition on what the client passes is part of this. */
    ghost predicate Valid()
      reads this, libc, list, list.spine
    {
      libc.Valid() && list.Valid() && Agrees(list.entries, libc.live) && !Has(list.entries, NULL)
    }

    /** The address was returned to the client at some time. */
    ghost predicate Known(p: int)
      reads list
    {
      Has(list.entries, p)
    }

    ghost function State(): Blocks
      reads libc, list
    {
      Blocks(libc.live, libc.top, Addresses(list.entries))
    }

    /** init. */
    constructor ()
      ensures Valid() && fresh(libc) && fresh(list) && fresh(list.spine) && libc.live == map[]
    {
      libc := new RealAllocator();
      list := new List();
    }

    method Malloc(size: int, choice: int) returns (ptr: int)
      requires Valid()
      modifies libc, list, list.spine
      ensures Valid() && ptr > 0 && ptr !in old(libc.live) && libc.live == old(libc.live)[ptr := size]
      ensures State() == After(old(State()), Call.Malloc(size, choice))
      ensures Reply(ptr, Fine) == ReplyTo(old(State()), Call.Malloc(size, choice))
      ensures forall q :: Known(q) <==> q == ptr || old(Known(q))
      ensures forall x :: x in list.spine && x !in old(list.spine) ==> fresh(x)
    {
      hide List.Linked, List.Held, Recorded, Get, Sorted, Addresses;
      ptr := libc.Malloc(size, choice);
      AgreesRecorded(list.entries, old(libc.live), ptr, size);
      AddressesRecorded(list.entries, ptr, size);
      list.Alloc(ptr, size);
    }

    method Calloc(nmemb: int, size: int, choice: int) returns (ptr: int)
      requires Valid()
      modifies libc, list, list.spine
      ensures Valid() && ptr > 0 && ptr !in old(libc.live) && libc.live == old(libc.live)[ptr := nmemb * size]
      ensures State() == After(old(State()), Call.Calloc(nmemb, size, choice))
      ensures Reply(ptr, Fine) == ReplyTo(old(State()), Call.Calloc(nmemb, size, choice))
      ensures forall q :: Known(q) <==> q == ptr || old(Known(q))
      ensures forall x :: x in list.spine && x !in old(list.spine) ==> fresh(x)
    {
      ptr := Malloc(nmemb * size, choice);
    }

    /** free: only live pointers reach the allocator, and the log tells pointers that were never
        handed out from those already freed. */
    method Free(ptr: int) returns (verdict: Verdict)
      requires Valid()
      modifies libc, list, list.spine
      ensures Valid() && libc.live == old(libc.live) - {ptr}
      ensures State() == After(old(State()), Call.Free(ptr))
      ensures Reply(NULL, verdict) == ReplyTo(old(State()), Call.Free(ptr))
      ensures forall q :: Known(q) <==> old(Known(q))
      ensures verdict == if ptr == NULL || ptr in old(libc.live) then Fine
                         else if old(Known(ptr)) then DoubleFree else IllegalFree
      ensures list.spine == old(list.spine)
    {
      hide List.Linked, List.Held, Released, Sorted, Addresses;
      AddressesKnown(list.entries);
      assert ptr !in libc.live ==> libc.live - {ptr} == libc.live;
      if ptr == NULL {
        return Fine;
      }
      var item := list.Find(ptr);
      assert Get(list.entries, ptr).cnt == if ptr in libc.live then 1 else 0;
      if item == null {
        return IllegalFree;
      }
      assert item.Content().cnt == item.cnt;
      if item.cnt == 0 {
        return DoubleFree;
      }
      AgreesReleased(list.entries, libc.live, ptr);
      AddressesReleased(list.entries, ptr);
      libc.Free(ptr);
      var r := list.Dealloc(ptr);
      return Fine;
    }

    /** realloc: a pointer that is not live is never passed on, the client gets a new block instead; a
        live block that is large enough is returned as it is. */
    method Realloc(ptr: int, size: int, choice: int) returns (res: int, verdict: Verdict)
      requires Valid()
      modifies libc, list, list.spine
      ensures Valid()
      ensures State() == After(old(State()), Call.Realloc(ptr, size, choice))
      ensures Reply(res, verdict) == ReplyTo(old(State()), Call.Realloc(ptr, size, choice))
      ensures ptr !in old(libc.live) ==> res > 0 && res !in old(libc.live) && libc.live == old(libc.live)[res := size]
      ensures ptr in old(libc.live) && size <= old(libc.live)[ptr] ==> res == ptr && libc.live == old(libc.live)
      ensures ptr in old(libc.live) && size > old(libc.live)[ptr] ==>
                res > 0 && res !in old(libc.live) - {ptr} && libc.live == (old(libc.live) - {ptr})[res := size]
      ensures forall q :: Known(q) <==> q == res || old(Known(q))
      ensures verdict == if ptr in old(libc.live) then Fine else if old(Known(ptr)) then DoubleFree else IllegalFree
      ensures forall x :: x in list.spine && x !in old(list.spine) ==> fresh(x)
    {
      hide List.Linked, List.Held, Released, Recorded, Sorted, Addresses;
      AddressesKnown(list.entries);
      assert ptr !in libc.live ==> libc.live - {ptr} == libc.live;
      var item := list.Find(ptr);
      assert Get(list.entries, ptr).cnt == if ptr in libc.live then 1 else 0;
      if item == null {
        res := RecordNew(size, choice);
        return res, IllegalFree;
      }
      assert item.Content().cnt == item.cnt && item.Content().size == item.size;
      if item.cnt == 0 {
        res := RecordNew(size, choice);
        return res, DoubleFree;
      }
      if size <= item.size {
        return ptr, Fine;
      }
      res := libc.Realloc(ptr, size, choice);
      AgreesReleased(list.entries, old(libc.live), ptr);
      AddressesReleased(list.entries, ptr);
      var r := list.Dealloc(ptr);
      AgreesRecorded(list.entries, old(libc.live) - {ptr}, res, size);
      AddressesRecorded(list.entries, res, size);
      list.Alloc(res, size);
      return res, Fine;
    }

    /** A realloc whose pointer is not passed on: a new block is allocated and listed. */
    method RecordNew(size: int, choice: int) returns (res: int)
      requires Valid()
      modifies libc, list, list.spine
      ensures Valid() && res > 0 && res !in old(libc.live) && libc.live == old(libc.live)[res := size]
      ensures State() == Allocated(old(State()), size, choice)
      ensures res == Chosen(old(libc.live), old(libc.top), choice)
      ensures forall q :: Known(q) <==> q == res || old(Known(q))
      ensures forall x :: x in list.spine && x !in old(list.spine) ==> fresh(x)
    {
      hide List.Linked, List.Held, Recorded, Get, Sorted, Addresses;
      ghost var live, es := libc.live, list.entries;
      res := libc.Realloc(NULL, size, choice);
      assert live - {NULL} == live;
      AgreesRecorded(es, live, res, size);
      AddressesRecorded(es, res, size);
      list.Alloc(res, size);
    }
  }

  // ----- whole sessions

  method Serve(tracer: Tracer, c: Call) returns (reply: Reply)
    requires tracer.Valid()
    modifies tracer.libc, tracer.list, tracer.list.spine
    ensures tracer.Valid() && reply == ReplyTo(old(tracer.State()), c)
    ensures tracer.State() == After(old(tracer.State()), c)
    ensures forall x :: x in tracer.list.spine && x !in old(tracer.list.spine) ==> fresh(x)
  {
    hide Tracer.Valid, Tracer.State, After, ReplyTo;
    var result, verdict := NULL, Fine;
    match c {
      case Malloc(size, choice) => result := tracer.Malloc(size, choice);
      case Calloc(nmemb, size, choice) => result := tracer.Calloc(nmemb, size, choice);
      case Realloc(ptr, size, choice) => result, verdict := tracer.Realloc(ptr, size, choice);
      case Free(ptr) => verdict := tracer.Free(ptr);
    }
    reply := Reply(result, verdict);
  }

  /** Any client, legal or not, over any choices of the allocator: answers, log and live blocks are
      those computed from the calls alone, list and allocator agree at the end, and none of the calls
      passed a pointer to the allocator that was not live. */
  method Session(tracer: Tracer, calls: seq<Call>) returns (log: seq<Reply>)
    requires tracer.Valid()
    modifies tracer.libc, tracer.list, tracer.list.spine
    ensures tracer.Valid() && log == Replies(old(tracer.State()), calls)
    ensures tracer.State() == AfterAll(old(tracer.State()), calls)
  {
    hide Tracer.Valid, Tracer.State, After, ReplyTo;
    log := [];
    ghost var b := tracer.State();
    assert calls[0..] == calls;
    for i := 0 to |calls|
      invariant tracer.Valid()
      invariant Replies(b, calls) == log + Replies(tracer.State(), calls[i..])
      invariant AfterAll(b, calls) == AfterAll(tracer.State(), calls[i..])
      invariant forall x :: x in tracer.list.spine && x !in old(tracer.list.spine) ==> fresh(x)
    {
      assert calls[i..][0] == calls[i] && calls[i..][1..] == calls[i + 1..];
      ghost var sp := tracer.list.spine;
      assert forall j :: 0 <= j < |sp| ==> sp[j] in old(tracer.list.spine) || fresh(sp[j]);
      var reply := Serve(tracer, calls[i]);
      log := log + [reply];
    }
  }
}
