/** The cache simulator of sp_04_cachelab/csim.c: an array of timestamped lines, and the loop over
    a trace. */
module CacheSim {
  import opened Lists
  import opened RecencyList
  import opened CacheSpec

  const INT_MAX := 0x7FFF_FFFF

  datatype Line = Line(valid: bool, tag: int, lru: int)

  // ----- one set: its lines, their order by timestamp, and the recency list

  ghost predicate LineAt(ls: seq<Line>, n: int, t: int)
  {
    0 <= n < |ls| && ls[n].valid && ls[n].tag == t
  }

  /** ord names the valid lines of a set from the newest timestamp to the oldest, and list gives
      their tags; no two tags are equal, and no two timestamps. */
  ghost predicate Ordered(ls: seq<Line>, ord: seq<int>, list: seq<int>)
  {
    && |ord| == |list|
    && Distinct(list)
    && (forall i :: 0 <= i < |ord| ==> LineAt(ls, ord[i], list[i]))
    && (forall i, j :: 0 <= i < j < |ord| ==> ls[ord[i]].lru > ls[ord[j]].lru)
    && (forall n :: 0 <= n < |ls| && ls[n].valid ==> n in ord)
  }

  /** Every valid line other than one with tag t is older than now. */
  ghost predicate Older(ls: seq<Line>, t: int, now: int)
  {
    forall n :: 0 <= n < |ls| && ls[n].valid && ls[n].tag != t ==> ls[n].lru < now
  }

  function ToFront<T>(s: seq<T>, k: nat): seq<T>
    requires k < |s|
  {
    [s[k]] + (s[..k] + s[k + 1..])
  }

  /** Where entry i of ToFront(s, k) comes from. */
  function Source(i: int, k: int): int
  {
    if i == 0 then k else if i <= k then i - 1 else i
  }

  lemma ToFrontAt<T>(s: seq<T>, k: nat)
    requires k < |s|
    ensures |ToFront(s, k)| == |s|
    ensures forall i {:trigger ToFront(s, k)[i]} :: 0 <= i < |s| ==> ToFront(s, k)[i] == s[Source(i, k)]
  {
  }

  /** A hit on line ord[k] moves it to the front. */
  lemma HitStep(ls: seq<Line>, ord: seq<int>, list: seq<int>, k: nat, now: int)
    requires Ordered(ls, ord, list) && k < |ord| && 0 <= ord[k] < |ls| && Older(ls, list[k], now)
    ensures Ordered(ls[ord[k] := ls[ord[k]].(lru := now)], ToFront(ord, k), ToFront(list, k))
  {
    hide ToFront;
    var n := ord[k];
    var ls2, o, l := ls[n := ls[n].(lru := now)], ToFront(ord, k), ToFront(list, k);
    ToFrontAt(ord, k);
    ToFrontAt(list, k);
    assert LineAt(ls, n, list[k]);
    forall i | 0 <= i < |o|
      ensures LineAt(ls2, o[i], l[i])
    {
      assert LineAt(ls, ord[Source(i, k)], list[Source(i, k)]);
    }
    forall i, j | 0 <= i < j < |o|
      ensures ls2[o[i]].lru > ls2[o[j]].lru && l[i] != l[j]
    {
      assert LineAt(ls, ord[Source(i, k)], list[Source(i, k)]) && LineAt(ls, ord[Source(j, k)], list[Source(j, k)]);
    }
    forall m | 0 <= m < |ls2| && ls2[m].valid
      ensures m in o
    {
      var i :| 0 <= i < |ord| && ord[i] == m;
      assert o[if i == k then 0 else if i < k then i + 1 else i] == m;
    }
  }

  /** A miss writes line n, which is empty or the last of the order. */
  lemma MissStep(ls: seq<Line>, ord: seq<int>, list: seq<int>, keep: nat, n: nat, t: int, now: int)
    requires Ordered(ls, ord, list) && n < |ls| && t !in list && Older(ls, t, now)
    requires if ls[n].valid then |ord| == keep + 1 && ord[keep] == n else |ord| == keep
    ensures Ordered(ls[n := Line(true, t, now)], [n] + ord[..keep], [t] + list[..keep])
  {
    var ls2, o, l := ls[n := Line(true, t, now)], [n] + ord[..keep], [t] + list[..keep];
    forall i | 0 < i < |o|
      ensures o[i] == ord[i - 1] && l[i] == list[i - 1] && LineAt(ls, o[i], l[i]) && o[i] != n && ls[o[i]].lru < now
    {
      assert LineAt(ls, ord[i - 1], list[i - 1]);
    }
    forall i, j | 0 <= i < j < |o|
      ensures ls2[o[i]].lru > ls2[o[j]].lru && l[i] != l[j]
    {
      assert o[j] == ord[j - 1] && l[j] == list[j - 1];
      assert i > 0 ==> o[i] == ord[i - 1] && l[i] == list[i - 1];
    }
    forall m | 0 <= m < |ls2| && ls2[m].valid
      ensures m in o
    {
      if m != n {
        var i :| 0 <= i < |ord| && ord[i] == m;
        assert o[i + 1] == m;
      }
    }
  }

  ghost function Range(n: nat): (r: set<int>)
    ensures |r| == n && forall i :: i in r <==> 0 <= i < n
  {
    if n == 0 then {} else Range(n - 1) + {n - 1}
  }

  /** A set is full exactly when none of its lines is empty. */
  lemma FullIffAllValid(ls: seq<Line>, ord: seq<int>, list: seq<int>)
    requires Ordered(ls, ord, list)
    ensures |list| <= |ls|
    ensures |list| == |ls| <==> forall n :: 0 <= n < |ls| ==> ls[n].valid
  {
    var used := Elements(ord);
    forall i, j | 0 <= i < j < |ord|
      ensures ord[i] != ord[j]
    {
      assert LineAt(ls, ord[i], list[i]) && LineAt(ls, ord[j], list[j]);
    }
    DistinctCount(ord);
    forall n | n in used
      ensures n in Range(|ls|) && ls[n].valid
    {
      var i :| 0 <= i < |ord| && ord[i] == n;
      assert LineAt(ls, ord[i], list[i]);
    }
    SubsetSize(used, Range(|ls|));
  }

  lemma SubsetSize(a: set<int>, b: set<int>)
    requires a <= b
    ensures |a| <= |b| && (|a| == |b| <==> a == b)
  {
    assert b == a + (b - a) && a !! (b - a);
    assert |b - a| == 0 <==> b - a == {};
  }

  /** In a full set the line with the smallest timestamp is the last of the order. */
  lemma OldestIsLast(ls: seq<Line>, ord: seq<int>, list: seq<int>, n: nat)
    requires Ordered(ls, ord, list) && n < |ls| && ls[n].valid
    requires forall m :: 0 <= m < |ls| && ls[m].valid ==> ls[n].lru <= ls[m].lru
    ensures 0 < |ord| && ord[|ord| - 1] == n
  {
    var i :| 0 <= i < |ord| && ord[i] == n;
    assert LineAt(ls, ord[|ord| - 1], list[|ord| - 1]);
  }

  // ----- the sets inside one array

  /** Where set k starts. */
  function Base(E: nat, k: nat): nat
  {
    k * E
  }

  /** Set k of E-line sets stored one after the other. */
  function Slice(cs: seq<Line>, E: nat, k: nat): seq<Line>
  {
    if Base(E, k) + E <= |cs| then cs[Base(E, k)..Base(E, k) + E] else []
  }

  lemma SetOffset(E: nat, k1: nat, k2: nat)
    requires k1 < k2
    ensures Base(E, k1) + E <= Base(E, k2)
  {
    var d := k2 - k1 - 1;
    assert k2 * E == (k1 + 1 + d) * E == k1 * E + E + d * E;
    assert d * E >= 0;
  }

  lemma SliceAt(cs: seq<Line>, E: nat, n: nat, k: nat)
    requires |cs| == Base(E, n) && k < n
    ensures Base(E, k) + E <= |cs| && |Slice(cs, E, k)| == E
    ensures forall i {:trigger Slice(cs, E, k)[i]} :: 0 <= i < E ==> Slice(cs, E, k)[i] == cs[Base(E, k) + i]
  {
    SetOffset(E, k, n);
  }

  lemma WindowUpdate(cs: seq<Line>, E: nat, base: nat, base2: nat, i: nat, v: Line)
    requires base + E <= |cs| && base2 + E <= |cs| && i < E
    requires base == base2 || base + E <= base2 || base2 + E <= base
    ensures cs[base + i := v][base2..base2 + E] ==
      if base2 == base then cs[base..base + E][i := v] else cs[base2..base2 + E]
  {
  }

  /** Writing line i of set k changes that line of that set only. */
  lemma SliceUpdate(cs: seq<Line>, E: nat, n: nat, k: nat, i: nat, v: Line, k2: nat)
    requires |cs| == Base(E, n) && k < n && k2 < n && i < E
    ensures Base(E, k) + i < |cs| && |Slice(cs, E, k2)| == E
    ensures Slice(cs[Base(E, k) + i := v], E, k2) == if k2 == k then Slice(cs, E, k)[i := v] else Slice(cs, E, k2)
  {
    hide Base;
    SetOffset(E, k, n);
    SetOffset(E, k2, n);
    if k2 < k {
      SetOffset(E, k2, k);
    } else if k < k2 {
      SetOffset(E, k, k2);
    }
    WindowUpdate(cs, E, Base(E, k), Base(E, k2), i, v);
  }

  // ----- all sets

  /** Every set is in order and holds what its recency list says. */
  ghost predicate AllOrdered(c: Config, cs: seq<Line>, ord: seq<seq<int>>, history: seq<nat>)
    requires Supported(c)
  {
    && |cs| == Base(c.E, Sets(c)) && |ord| == Sets(c)
    && forall k {:trigger ord[k]} :: 0 <= k < Sets(c) ==> Ordered(Slice(cs, c.E, k), ord[k], Held(c, history, k))
  }

  /** A line's timestamp lies before now, or is now if the line may be current. */
  predicate Timely(l: Line, now: int, current: bool)
  {
    l.valid ==> 0 <= l.lru < now || (current && l.lru == now)
  }

  ghost predicate TimelySet(c: Config, cs: seq<Line>, now: int, a: nat, k: nat)
  {
    forall n :: 0 <= n < |Slice(cs, c.E, k)| ==>
      Timely(Slice(cs, c.E, k)[n], now, k == SetIndex(c, a) && Slice(cs, c.E, k)[n].tag == Tag(c, a))
  }

  /** All timestamps lie before now, except that the line of address a may carry now itself. */
  ghost predicate Before(c: Config, cs: seq<Line>, now: int, a: nat)
  {
    forall k: nat {:trigger TimelySet(c, cs, now, a, k)} :: k < Sets(c) ==> TimelySet(c, cs, now, a, k)
  }

  /** One line of the set of a is replaced; if that set comes out right, so does the whole cache. */
  lemma StepAll(c: Config, cs: seq<Line>, ord: seq<seq<int>>, history: seq<nat>, a: nat, i: nat, v: Line, o: seq<int>)
    requires Supported(c) && AllOrdered(c, cs, ord, history) && i < c.E
    requires var k := SetIndex(c, a);
      i < |Slice(cs, c.E, k)| && Ordered(Slice(cs, c.E, k)[i := v], o, Touch(c.E, Held(c, history, k), Tag(c, a)))
    ensures Base(c.E, SetIndex(c, a)) + i < |cs|
    ensures AllOrdered(c, cs[Base(c.E, SetIndex(c, a)) + i := v], ord[SetIndex(c, a) := o], history + [a])
  {
    hide Slice, Base, Ordered, Touch, Held, Tag;
    var k := SetIndex(c, a);
    SliceUpdate(cs, c.E, Sets(c), k, i, v, k);
    Snoc(c, history, a);
    var ord2 := ord[k := o];
    forall k2 | 0 <= k2 < Sets(c)
      ensures Ordered(Slice(cs[Base(c.E, k) + i := v], c.E, k2), ord2[k2], Held(c, history + [a], k2))
    {
      SliceUpdate(cs, c.E, Sets(c), k, i, v, k2);
      assert k2 != k ==> ord2[k2] == ord[k2];
      assert Held(c, history + [a], k2) == HeldAfter(c, history, a, k2);
    }
  }

  lemma StepBefore(c: Config, cs: seq<Line>, now: int, a: nat, i: nat)
    requires Supported(c) && |cs| == Base(c.E, Sets(c)) && i < c.E && 0 <= now && Before(c, cs, now, a)
    ensures Base(c.E, SetIndex(c, a)) + i < |cs|
    ensures Before(c, cs[Base(c.E, SetIndex(c, a)) + i := Line(true, Tag(c, a), now)], now, a)
  {
    hide Slice, Base, Tag, SetIndex;
    var k, v := SetIndex(c, a), Line(true, Tag(c, a), now);
    SliceUpdate(cs, c.E, Sets(c), k, i, v, k);
    var cs2 := cs[Base(c.E, k) + i := v];
    forall k2: nat | k2 < Sets(c)
      ensures TimelySet(c, cs2, now, a, k2)
    {
      SliceUpdate(cs, c.E, Sets(c), k, i, v, k2);
      assert TimelySet(c, cs, now, a, k2);
    }
  }

  ghost predicate PastSet(c: Config, cs: seq<Line>, now: int, k: nat)
  {
    forall n :: 0 <= n < |Slice(cs, c.E, k)| ==> Timely(Slice(cs, c.E, k)[n], now, false)
  }

  /** All timestamps lie strictly before now. */
  ghost predicate Past(c: Config, cs: seq<Line>, now: int)
  {
    forall k: nat {:trigger PastSet(c, cs, now, k)} :: k < Sets(c) ==> PastSet(c, cs, now, k)
  }

  lemma PastIsBefore(c: Config, cs: seq<Line>, now: int, a: nat)
    requires Past(c, cs, now)
    ensures Before(c, cs, now, a)
  {
    forall k: nat | k < Sets(c)
      ensures TimelySet(c, cs, now, a, k)
    {
      assert PastSet(c, cs, now, k);
    }
  }

  /** Once the counter has moved on, every timestamp lies strictly before it. */
  lemma CounterMoves(c: Config, cs: seq<Line>, now: int, a: nat)
    requires Before(c, cs, now, a) && 0 <= now
    ensures Past(c, cs, now + 1)
  {
    var next := now + 1;
    forall k: nat | k < Sets(c)
      ensures PastSet(c, cs, next, k)
    {
      assert TimelySet(c, cs, now, a, k);
    }
  }

  /** The lines of the set of a. */
  function Lines(c: Config, cs: seq<Line>, a: nat): seq<Line>
  {
    Slice(cs, c.E, SetIndex(c, a))
  }

  lemma OlderLines(c: Config, cs: seq<Line>, now: int, a: nat)
    requires Before(c, cs, now, a)
    ensures Older(Lines(c, cs, a), Tag(c, a), now)
  {
    assert TimelySet(c, cs, now, a, SetIndex(c, a));
  }

  /** get_cache on a hit: line i of the set holds the block. */
  lemma HitAll(c: Config, cs: seq<Line>, ord: seq<seq<int>>, history: seq<nat>, a: nat, i: nat, now: int) returns (o: seq<int>)
    requires Supported(c) && AllOrdered(c, cs, ord, history) && 0 <= now && Before(c, cs, now, a)
    requires i < c.E && i < |Lines(c, cs, a)| && Lines(c, cs, a)[i].valid && Lines(c, cs, a)[i].tag == Tag(c, a)
    ensures IsHit(c, history, a) && !IsEviction(c, history, a)
    ensures Base(c.E, SetIndex(c, a)) + i < |cs|
    ensures AllOrdered(c, cs[Base(c.E, SetIndex(c, a)) + i := Line(true, Tag(c, a), now)], ord[SetIndex(c, a) := o], history + [a])
    ensures Before(c, cs[Base(c.E, SetIndex(c, a)) + i := Line(true, Tag(c, a), now)], now, a)
  {
    var k, t := SetIndex(c, a), Tag(c, a);
    var ls, list := Lines(c, cs, a), Held(c, history, k);
    assert Ordered(ls, ord[k], list);
    var j :| 0 <= j < |ord[k]| && ord[k][j] == i;
    assert LineAt(ls, ord[k][j], list[j]);
    OlderLines(c, cs, now, a);
    HitStep(ls, ord[k], list, j, now);
    WithoutAt(list, j);
    o := ToFront(ord[k], j);
    StepAll(c, cs, ord, history, a, i, Line(true, t, now), o);
    StepBefore(c, cs, now, a, i);
  }

  /** What get_cache reads: the lines of the set of a, none stamped later than now. */
  lemma PrepareAccess(c: Config, cs: seq<Line>, ord: seq<seq<int>>, history: seq<nat>, a: nat, now: int)
    requires Supported(c) && AllOrdered(c, cs, ord, history) && Before(c, cs, now, a)
    ensures Base(c.E, SetIndex(c, a)) + c.E <= |cs| && |Lines(c, cs, a)| == c.E && |ord| == Sets(c)
    ensures forall i {:trigger Lines(c, cs, a)[i]} :: 0 <= i < c.E ==> Lines(c, cs, a)[i] == cs[Base(c.E, SetIndex(c, a)) + i]
    ensures forall i :: 0 <= i < c.E && Lines(c, cs, a)[i].valid && Lines(c, cs, a)[i].tag != Tag(c, a) ==> Lines(c, cs, a)[i].lru < now
    ensures Hits(c, history + [a]) == Hits(c, history) + if IsHit(c, history, a) then 1 else 0
    ensures Evictions(c, history + [a]) == Evictions(c, history) + if IsEviction(c, history, a) then 1 else 0
  {
    SliceAt(cs, c.E, Sets(c), SetIndex(c, a));
    OlderLines(c, cs, now, a);
    Snoc(c, history, a);
  }

  /** No line of ls is valid with tag t. */
  ghost predicate NoLine(ls: seq<Line>, t: int)
  {
    forall n :: 0 <= n < |ls| ==> !(ls[n].valid && ls[n].tag == t)
  }

  /** Line i is empty, or all lines are valid and it has the smallest timestamp. */
  ghost predicate Victim(ls: seq<Line>, i: nat)
    requires i < |ls|
  {
    ls[i].valid ==> forall n :: 0 <= n < |ls| ==> ls[n].valid && ls[i].lru <= ls[n].lru
  }

  lemma NotHeld(ls: seq<Line>, ord: seq<int>, list: seq<int>, t: int)
    requires Ordered(ls, ord, list) && NoLine(ls, t)
    ensures t !in list
  {
    forall j | 0 <= j < |list|
      ensures list[j] != t
    {
      assert LineAt(ls, ord[j], list[j]);
    }
  }

  /** get_cache on a miss, writing the victim line i. */
  lemma MissAll(c: Config, cs: seq<Line>, ord: seq<seq<int>>, history: seq<nat>, a: nat, i: nat, now: int) returns (o: seq<int>)
    requires Supported(c) && AllOrdered(c, cs, ord, history) && 0 <= now && Before(c, cs, now, a)
    requires i < c.E == |Lines(c, cs, a)| && NoLine(Lines(c, cs, a), Tag(c, a)) && Victim(Lines(c, cs, a), i)
    ensures !IsHit(c, history, a) && (IsEviction(c, history, a) <==> Lines(c, cs, a)[i].valid)
    ensures Base(c.E, SetIndex(c, a)) + i < |cs|
    ensures AllOrdered(c, cs[Base(c.E, SetIndex(c, a)) + i := Line(true, Tag(c, a), now)], ord[SetIndex(c, a) := o], history + [a])
    ensures Before(c, cs[Base(c.E, SetIndex(c, a)) + i := Line(true, Tag(c, a), now)], now, a)
  {
    var k, t := SetIndex(c, a), Tag(c, a);
    var ls, list := Lines(c, cs, a), Held(c, history, k);
    assert Ordered(ls, ord[k], list);
    NotHeld(ls, ord[k], list, t);
    FullIffAllValid(ls, ord[k], list);
    OlderLines(c, cs, now, a);
    if ls[i].valid {
      OldestIsLast(ls, ord[k], list, i);
    }
    var keep := if ls[i].valid then c.E - 1 else |list|;
    MissStep(ls, ord[k], list, keep, i, t, now);
    o := [i] + ord[k][..keep];
    assert [t] + list[..keep] == Touch(c.E, list, t);
    StepAll(c, cs, ord, history, a, i, Line(true, t, now), o);
    StepBefore(c, cs, now, a, i);
  }

  // ----- the simulator

  class Simulator {
    const c: Config
    const cache: array<Line>
    var opCounter: int
    var hit: int
    var miss: int
    var evict: int

    /** The accesses so far, and for each set its line numbers from newest to oldest. */
    ghost var history: seq<nat>
    ghost var ord: seq<seq<int>>

    /** Lines and counters are what the accesses so far call for. */
    ghost predicate Valid()
      reads this, cache
    {
      && Supported(c)
      && AllOrdered(c, cache[..], ord, history)
      && hit == Hits(c, history)
      && miss == |history| - Hits(c, history)
      && evict == Evictions(c, history)
    }

    constructor (c: Config)
      requires Supported(c)
      ensures Valid() && this.c == c && history == [] && opCounter == 0
      ensures Past(c, cache[..], 0)
      ensures fresh(cache)
    {
      this.c := c;
      cache := new Line[Base(c.E, Sets(c))](_ => Line(false, 0, 0));
      opCounter, hit, miss, evict := 0, 0, 0, 0;
      history, ord := [], seq(Sets(c), _ => []);
      new;
      forall k: nat | k < Sets(c)
        ensures forall n :: 0 <= n < |Slice(cache[..], c.E, k)| ==> Slice(cache[..], c.E, k)[n] == Line(false, 0, 0)
      {
        SliceAt(cache[..], c.E, Sets(c), k);
      }
      forall k: nat | k < Sets(c)
        ensures PastSet(c, cache[..], 0, k)
      {
      }
    }

    /** get_cache. */
    method GetCache(address: nat)
      requires Valid() && 0 <= opCounter <= INT_MAX && Before(c, cache[..], opCounter, address)
      modifies this`hit, this`miss, this`evict, this`history, this`ord, cache
      ensures Valid() && Before(c, cache[..], opCounter, address)
      ensures history == old(history) + [address]
    {
      hide Base, AllOrdered, Before, Held, Hits, Evictions, Slice, IsHit, IsEviction, SetIndex, Tag;
      ghost var cs := cache[..];
      var k, t := SetIndex(c, address), Tag(c, address);
      ghost var ls := Lines(c, cs, address);
      PrepareAccess(c, cs, ord, history, address, opCounter);
      var base := Base(c.E, k);
      var lruIdx, minLru, firstEmpty := -1, INT_MAX, -1;
      for i := 0 to c.E
        invariant forall j :: 0 <= j < i ==> !(ls[j].valid && ls[j].tag == t)
        invariant if firstEmpty == -1 then forall j :: 0 <= j < i ==> ls[j].valid else 0 <= firstEmpty < i && !ls[firstEmpty].valid
        invariant forall j :: 0 <= j < i && ls[j].valid ==> minLru <= ls[j].lru
        invariant if lruIdx == -1 then minLru == INT_MAX && forall j :: 0 <= j < i ==> !ls[j].valid
                  else 0 <= lruIdx < i && ls[lruIdx].valid && ls[lruIdx].lru == minLru
      {
        var curr := cache[base + i];
        assert curr == ls[i];
        if curr.tag == t && curr.valid {
          cache[base + i] := curr.(lru := opCounter);
          hit := hit + 1;
          assert cache[..] == cs[base + i := Line(true, t, opCounter)];
          ghost var o := HitAll(c, cs, ord, history, address, i, opCounter);
          ord, history := ord[k := o], history + [address];
          return;
        }
        if !curr.valid {
          if firstEmpty == -1 {
            firstEmpty := i;
          }
        } else if curr.lru < minLru {
          minLru, lruIdx := curr.lru, i;
        }
      }
      ghost var victim: nat;
      assert firstEmpty == -1 ==> ls[0].valid;
      var newBlock := Line(true, t, opCounter);
      if firstEmpty == -1 {
        cache[base + lruIdx] := newBlock;
        miss := miss + 1;
        evict := evict + 1;
        victim := lruIdx;
      } else {
        cache[base + firstEmpty] := newBlock;
        miss := miss + 1;
        victim := firstEmpty;
      }
      ghost var o := MissAll(c, cs, ord, history, address, victim, opCounter);
      ord, history := ord[k := o], history + [address];
    }

    /** One record of the trace: a modify is a load and a store of the same counter value. */
    method Step(op: Op)
      requires Valid() && 0 <= opCounter && (AccessesOf(op) != [] ==> opCounter < INT_MAX) && Past(c, cache[..], opCounter)
      modifies this`hit, this`miss, this`evict, this`opCounter, this`history, this`ord, cache
      ensures Valid() && Past(c, cache[..], opCounter) && history == old(history) + AccessesOf(op)
      ensures op.kind == 'M' ==> history == old(history) + [op.address, op.address]
      ensures op.kind == 'L' || op.kind == 'S' ==> history == old(history) + [op.address]
      ensures opCounter == old(opCounter) + if AccessesOf(op) == [] then 0 else 1
    {
      hide Before, Past, AllOrdered, Hits, Evictions, Supported;
      PastIsBefore(c, cache[..], opCounter, op.address);
      if op.kind == 'M' {
        GetCache(op.address);
        GetCache(op.address);
      } else if op.kind == 'L' || op.kind == 'S' {
        GetCache(op.address);
      } else {
        return;
      }
      CounterMoves(c, cache[..], opCounter, op.address);
      opCounter := opCounter + 1;
    }

    /** The trace loop of main, on a new cache: lines and totals are those of LRU sets. */
    method Run(trace: seq<Op>)
      requires Valid() && history == [] && opCounter == 0 && Counted(trace) <= INT_MAX
      requires Past(c, cache[..], 0)
      modifies this`hit, this`miss, this`evict, this`opCounter, this`history, this`ord, cache
      ensures Valid() && history == Accesses(trace)
      ensures hit == Hits(c, Accesses(trace)) && evict == Evictions(c, Accesses(trace))
      ensures hit + miss == CountKind(trace, 'L') + CountKind(trace, 'S') + 2 * CountKind(trace, 'M')
      ensures hit >= CountKind(trace, 'M')
      ensures evict == miss - Resident(c, Accesses(trace), Sets(c))
    {
      hide AllOrdered, Hits, Evictions, Resident, Past, CountKind, AccessesOf, Supported, Sets;
      for i := 0 to |trace|
        invariant Valid() && history == Accesses(trace[..i])
        invariant opCounter == Counted(trace[..i])
        invariant Past(c, cache[..], opCounter)
      {
        assert trace[..i + 1][..i] == trace[..i];
        CountedPrefix(trace, i);
        CountedPrefix(trace, i + 1);
        Step(trace[i]);
      }
      assert trace[..|trace|] == trace;
      AccessCount(trace);
      ModifiesHit(c, trace);
      EvictionsAreMissesLessResident(c, history);
    }
  }
}
