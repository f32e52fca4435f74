/** What the cache simulator computes, from the trace alone. */
module CacheSpec {
  import opened RecencyList

  /** The command-line parameters: 2^s sets of E lines, blocks of 2^b bytes. */
  datatype Config = Config(s: nat, E: nat, b: nat)

  /** A trace record: operation type and address. */
  datatype Op = Op(kind: char, address: nat)

  predicate Supported(c: Config)
  {
    1 <= c.s && c.s + c.b < 32 && 1 <= c.E
  }

  function Pow2(n: nat): (p: nat)
    ensures p > 0
  {
    if n == 0 then 1 else 2 * Pow2(n - 1)
  }

  function Sets(c: Config): (n: nat)
    ensures n > 0
  {
    Pow2(c.s)
  }

  /** The memory block an address lies in. */
  function BlockOf(c: Config, address: nat): int
  {
    address / Pow2(c.b)
  }

  function SetIndex(c: Config, address: nat): (k: nat)
    ensures k < Sets(c)
  {
    BlockOf(c, address) % Pow2(c.s)
  }

  function Tag(c: Config, address: nat): int
  {
    address / Pow2(c.b + c.s)
  }

  lemma {:induction false} Pow2Sum(m: nat, n: nat)
    ensures Pow2(m + n) == Pow2(m) * Pow2(n)
  {
    if m > 0 {
      Pow2Sum(m - 1, n);
    }
  }

  lemma MulAtLeast(z: int, d: int)
    requires 1 <= z && 0 < d
    ensures d <= z * d
  {
  }

  lemma QuotientUnique(d: int, q1: int, r1: int, q2: int, r2: int)
    requires q1 * d + r1 == q2 * d + r2 && 0 <= r1 < d && 0 <= r2 < d
    ensures q1 == q2
  {
    if q1 > q2 {
      MulAtLeast(q1 - q2, d);
    } else if q2 > q1 {
      MulAtLeast(q2 - q1, d);
    }
  }

  lemma DivMod(x: nat, d: nat)
    requires 0 < d
    ensures x == (x / d) * d + x % d && 0 <= x % d < d
  {
  }

  /** (x / m) / n == x / (m * n) for non-negative x. */
  lemma DivDiv(x: nat, m: nat, n: nat)
    requires 0 < m && 0 < n
    ensures 0 < m * n && x / m / n == x / (m * n)
  {
    MulAtLeast(m, n);
    var y := x / m;
    DivMod(x, m);
    DivMod(y, n);
    DivMod(x, m * n);
    var q, r := y / n, y % n;
    var rest := r * m + x % m;
    assert y * m == (q * n) * m + r * m;
    assert (q * n) * m == q * (m * n);
    assert rest < m * n by {
      assert (n - r) * m == n * m - r * m;
      MulAtLeast(n - r, m);
    }
    QuotientUnique(m * n, q, rest, x / (m * n), x % (m * n));
  }

  /** The tag is the quotient and the set index the remainder of the block number by the number of sets. */
  lemma BlockParts(c: Config, a: nat)
    ensures Tag(c, a) * Sets(c) + SetIndex(c, a) == BlockOf(c, a) && SetIndex(c, a) < Sets(c)
    ensures Tag(c, a) == BlockOf(c, a) / Sets(c)
  {
    hide Pow2;
    Pow2Sum(c.b, c.s);
    DivDiv(a, Pow2(c.b), Pow2(c.s));
    DivMod(BlockOf(c, a), Pow2(c.s));
  }

  /** Set index and tag together name the memory block: a hit is never on a different block. */
  lemma SameBlock(c: Config, a1: nat, a2: nat)
    ensures SetIndex(c, a1) == SetIndex(c, a2) && Tag(c, a1) == Tag(c, a2) <==> BlockOf(c, a1) == BlockOf(c, a2)
  {
    hide Pow2, Tag, SetIndex, BlockOf;
    BlockParts(c, a1);
    BlockParts(c, a2);
  }

  // ----- the two macros, on 32-bit words

  const WORD := 0x1_0000_0000

  /** Shifts of a 32-bit word; the count is taken modulo 32. */
  function ShiftLeft(x: int, count: nat): int
  {
    x * Pow2(count % 32) % WORD
  }

  function ShiftRight(x: int, count: nat): int
  {
    x / Pow2(count % 32)
  }

  /** GET_SET_INDEX, where t is 64 - s - b. */
  function GetSetIndex(c: Config, x: nat): int
    requires c.s + c.b <= 64
  {
    var t := 64 - c.s - c.b;
    ShiftRight(ShiftLeft(ShiftRight(x, c.b), c.b + t), c.b + t)
  }

  /** GET_TAG. */
  function GetTag(c: Config, x: nat): int
  {
    ShiftRight(x % WORD, c.b + c.s)
  }

  lemma WordSize()
    ensures Pow2(32) == WORD
  {
    assert Pow2(2) == 4;
    Pow2Sum(2, 2);
    Pow2Sum(4, 4);
    Pow2Sum(8, 8);
    Pow2Sum(16, 16);
  }

  /** Shifting y up and down again by n bits leaves the bits that were not shifted out. */
  lemma UpAndDown(y: nat, m: nat, p: nat, w: nat)
    requires 0 < m && 0 < p && m * p == w
    ensures 0 < w && y * m % w / m == y % p
  {
    MulAtLeast(m, p);
    DivMod(y, p);
    var q, r := y / p, y % p;
    assert y * m == q * w + r * m by {
      assert y * m == (q * p) * m + r * m;
      assert (q * p) * m == q * (m * p);
    }
    assert r * m < w by {
      assert (p - r) * m == m * p - r * m;
      MulAtLeast(p - r, m);
    }
    DivMod(y * m, w);
    QuotientUnique(w, q, r * m, y * m / w, y * m % w);
    DivMod(r * m, m);
    QuotientUnique(m, r, 0, r * m / m, r * m % m);
  }

  lemma ShiftCounts(c: Config)
    requires Supported(c)
    ensures (64 - c.s) % 32 == 32 - c.s && c.b % 32 == c.b && (c.b + c.s) % 32 == c.b + c.s
  {
  }

  lemma UnfoldMacros(c: Config, x: nat)
    requires Supported(c) && x < WORD
    ensures GetSetIndex(c, x) == BlockOf(c, x) * Pow2(32 - c.s) % WORD / Pow2(32 - c.s)
    ensures BlockOf(c, x) >= 0 && SetIndex(c, x) == BlockOf(c, x) % Pow2(c.s)
    ensures GetTag(c, x) == Tag(c, x)
  {
    ShiftCounts(c);
    assert x % WORD == x;
    hide Pow2, Supported;
  }

  lemma WordSplit(s: nat)
    requires s <= 32
    ensures Pow2(32 - s) * Pow2(s) == WORD
  {
    WordSize();
    Pow2Sum(32 - s, s);
    hide Pow2;
  }

  /** For every 32-bit address the macros give set index and tag, although the shift count 64 - s of the
      first is out of range. */
  lemma MacrosExact(c: Config, x: nat)
    requires Supported(c) && x < WORD
    ensures GetSetIndex(c, x) == SetIndex(c, x) && GetTag(c, x) == Tag(c, x)
  {
    hide Tag, GetSetIndex, GetTag, BlockOf, SetIndex, Pow2;
    UnfoldMacros(c, x);
    WordSplit(c.s);
    UpAndDown(BlockOf(c, x), Pow2(32 - c.s), Pow2(c.s), WORD);
  }

  /** The addresses given to get_cache, in order: twice for a modify, once for a load or store. */
  function Accesses(trace: seq<Op>): seq<nat>
  {
    if trace == [] then []
    else Accesses(trace[..|trace| - 1]) + AccessesOf(trace[|trace| - 1])
  }

  function AccessesOf(op: Op): seq<nat>
  {
    if op.kind == 'M' then [op.address, op.address]
    else if op.kind == 'L' || op.kind == 'S' then [op.address]
    else []
  }

  /** How many records of the trace have one of the three counted types. */
  function CountKind(trace: seq<Op>, kind: char): nat
  {
    if trace == [] then 0
    else CountKind(trace[..|trace| - 1], kind) + if trace[|trace| - 1].kind == kind then 1 else 0
  }

  /** The number of records that advance the simulator's clock. */
  function Counted(trace: seq<Op>): nat
  {
    if trace == [] then 0
    else Counted(trace[..|trace| - 1]) + if AccessesOf(trace[|trace| - 1]) == [] then 0 else 1
  }

  lemma {:induction false} CountedPrefix(trace: seq<Op>, i: nat)
    requires i <= |trace|
    ensures Counted(trace[..i]) <= Counted(trace)
    ensures i < |trace| ==> Counted(trace[..i + 1]) == Counted(trace[..i]) + if AccessesOf(trace[i]) == [] then 0 else 1
    decreases |trace| - i
  {
    if i == |trace| {
      assert trace[..i] == trace;
    } else {
      CountedPrefix(trace, i + 1);
      assert trace[..i + 1][..i] == trace[..i];
    }
  }

  /** The tags of the accesses that go to set k. */
  function InSet(c: Config, accs: seq<nat>, k: nat): seq<int>
  {
    if accs == [] then []
    else
      var a := accs[|accs| - 1];
      InSet(c, accs[..|accs| - 1], k) + if SetIndex(c, a) == k then [Tag(c, a)] else []
  }

  /** What set k holds after the accesses, most recently used first. */
  ghost function Held(c: Config, accs: seq<nat>, k: nat): (list: seq<int>)
    requires Supported(c)
    ensures |list| <= c.E
  {
    Lru(c.E, InSet(c, accs, k))
  }

  ghost predicate IsHit(c: Config, accs: seq<nat>, a: nat)
    requires Supported(c)
  {
    Tag(c, a) in Held(c, accs, SetIndex(c, a))
  }

  ghost predicate IsEviction(c: Config, accs: seq<nat>, a: nat)
    requires Supported(c)
  {
    !IsHit(c, accs, a) && |Held(c, accs, SetIndex(c, a))| == c.E
  }

  ghost function Hits(c: Config, accs: seq<nat>): nat
    requires Supported(c)
  {
    if accs == [] then 0
    else
      var front, a := accs[..|accs| - 1], accs[|accs| - 1];
      Hits(c, front) + if IsHit(c, front, a) then 1 else 0
  }

  ghost function Evictions(c: Config, accs: seq<nat>): nat
    requires Supported(c)
  {
    if accs == [] then 0
    else
      var front, a := accs[..|accs| - 1], accs[|accs| - 1];
      Evictions(c, front) + if IsEviction(c, front, a) then 1 else 0
  }

  /** The number of valid lines in the first n sets. */
  ghost function Resident(c: Config, accs: seq<nat>, n: nat): nat
    requires Supported(c)
  {
    if n == 0 then 0 else Resident(c, accs, n - 1) + |Held(c, accs, n - 1)|
  }

  // ----- one more access

  /** Set k after one more access: only the set of a changes. */
  ghost function HeldAfter(c: Config, accs: seq<nat>, a: nat, k: nat): seq<int>
    requires Supported(c)
  {
    if k == SetIndex(c, a) then Touch(c.E, Held(c, accs, k), Tag(c, a)) else Held(c, accs, k)
  }

  lemma HeldAfterLength(c: Config, accs: seq<nat>, a: nat, k: nat)
    requires Supported(c)
    ensures |HeldAfter(c, accs, a, k)| ==
      |Held(c, accs, k)| + if k == SetIndex(c, a) && !IsHit(c, accs, a) && !IsEviction(c, accs, a) then 1 else 0
  {
  }

  lemma Snoc(c: Config, accs: seq<nat>, a: nat)
    requires Supported(c)
    ensures (accs + [a])[..|accs|] == accs
    ensures Hits(c, accs + [a]) == Hits(c, accs) + if IsHit(c, accs, a) then 1 else 0
    ensures Evictions(c, accs + [a]) == Evictions(c, accs) + if IsEviction(c, accs, a) then 1 else 0
    ensures forall k :: Held(c, accs + [a], k) == HeldAfter(c, accs, a, k)
  {
    assert (accs + [a])[..|accs|] == accs;
    forall k
      ensures Held(c, accs + [a], k) == HeldAfter(c, accs, a, k)
    {
      var xs := InSet(c, accs, k);
      if k == SetIndex(c, a) {
        assert InSet(c, accs + [a], k) == xs + [Tag(c, a)];
        assert (xs + [Tag(c, a)])[..|xs|] == xs;
      } else {
        assert InSet(c, accs + [a], k) == xs;
      }
    }
  }

  /** Right after an access the same address hits. */
  lemma HitsAgain(c: Config, accs: seq<nat>, a: nat)
    requires Supported(c)
    ensures IsHit(c, accs + [a], a)
  {
    Snoc(c, accs, a);
    assert Held(c, accs + [a], SetIndex(c, a)) == HeldAfter(c, accs, a, SetIndex(c, a));
  }

  // ----- totals

  /** One record adds no fewer hits than it has stores of a modify. */
  lemma RecordHits(c: Config, accs: seq<nat>, op: Op)
    requires Supported(c)
    ensures Hits(c, accs + AccessesOf(op)) >= Hits(c, accs) + if op.kind == 'M' then 1 else 0
  {
    hide Hits, Evictions, IsHit, IsEviction, Held, HeldAfter;
    Snoc(c, accs, op.address);
    if op.kind == 'M' {
      Snoc(c, accs + [op.address], op.address);
      HitsAgain(c, accs, op.address);
      assert accs + AccessesOf(op) == accs + [op.address] + [op.address];
    } else {
      assert accs + [] == accs;
    }
  }

  /** The store of a modify always hits. */
  lemma {:induction false} ModifiesHit(c: Config, trace: seq<Op>)
    requires Supported(c)
    ensures Hits(c, Accesses(trace)) >= CountKind(trace, 'M')
  {
    hide Hits, AccessesOf;
    if trace != [] {
      ModifiesHit(c, trace[..|trace| - 1]);
      RecordHits(c, Accesses(trace[..|trace| - 1]), trace[|trace| - 1]);
    }
  }

  /** Every access hits or misses; a modify accounts for two accesses. */
  lemma {:induction false} AccessCount(trace: seq<Op>)
    ensures |Accesses(trace)| == CountKind(trace, 'L') + CountKind(trace, 'S') + 2 * CountKind(trace, 'M')
  {
    if trace != [] {
      AccessCount(trace[..|trace| - 1]);
    }
  }

  /** An access changes the number of valid lines only in its own set. */
  lemma {:induction false} ResidentSnoc(c: Config, accs: seq<nat>, a: nat, n: nat)
    requires Supported(c)
    ensures Resident(c, accs + [a], n) ==
      Resident(c, accs, n) + if SetIndex(c, a) < n && !IsHit(c, accs, a) && !IsEviction(c, accs, a) then 1 else 0
  {
    hide Held, HeldAfter, SetIndex, Tag, IsHit, IsEviction;
    if n > 0 {
      Snoc(c, accs, a);
      HeldAfterLength(c, accs, a, n - 1);
      ResidentSnoc(c, accs, a, n - 1);
    }
  }

  /** Evictions are the misses that did not fill an empty line. */
  lemma {:induction false} EvictionsAreMissesLessResident(c: Config, accs: seq<nat>)
    requires Supported(c)
    ensures Evictions(c, accs) == |accs| - Hits(c, accs) - Resident(c, accs, Sets(c))
  {
    if accs == [] {
      EmptyResident(c, Sets(c));
    } else {
      var front, a := accs[..|accs| - 1], accs[|accs| - 1];
      assert accs == front + [a];
      EvictionsAreMissesLessResident(c, front);
      ResidentSnoc(c, front, a, Sets(c));
      Snoc(c, front, a);
    }
  }

  lemma {:induction false} EmptyResident(c: Config, n: nat)
    requires Supported(c)
    ensures Resident(c, [], n) == 0
  {
    if n > 0 {
      EmptyResident(c, n - 1);
    }
  }

  /** With the same sets and blocks, more lines per set never lose a hit. */
  lemma {:induction false} HitsGrowWithLines(c1: Config, c2: Config, accs: seq<nat>)
    requires Supported(c1) && Supported(c2) && c1.s == c2.s && c1.b == c2.b && c1.E <= c2.E
    ensures Hits(c1, accs) <= Hits(c2, accs)
    ensures forall k, t :: t in Held(c1, accs, k) ==> t in Held(c2, accs, k)
  {
    forall k, t | t in Held(c1, accs, k)
      ensures t in Held(c2, accs, k)
    {
      SameSets(c1, c2, accs, k);
      Inclusion(c1.E, c2.E, InSet(c1, accs, k));
    }
    if accs != [] {
      HitsGrowWithLines(c1, c2, accs[..|accs| - 1]);
    }
  }

  lemma {:induction false} SameSets(c1: Config, c2: Config, accs: seq<nat>, k: nat)
    requires c1.s == c2.s && c1.b == c2.b
    ensures InSet(c1, accs, k) == InSet(c2, accs, k)
  {
    if accs != [] {
      SameSets(c1, c2, accs[..|accs| - 1], k);
    }
  }

  // ----- reuse distance

  lemma {:induction false} InSetConcat(c: Config, xs: seq<nat>, ys: seq<nat>, k: nat)
    ensures InSet(c, xs + ys, k) == InSet(c, xs, k) + InSet(c, ys, k)
  {
    if ys == [] {
      assert xs + ys == xs;
    } else {
      var front, y := ys[..|ys| - 1], ys[|ys| - 1];
      assert (xs + ys)[..|xs + ys| - 1] == xs + front && (xs + ys)[|xs + ys| - 1] == y;
      InSetConcat(c, xs, front, k);
    }
  }

  /** i is the last access to the block of a. */
  ghost predicate LastAccess(c: Config, accs: seq<nat>, a: nat, i: int)
  {
    0 <= i < |accs| && BlockOf(c, accs[i]) == BlockOf(c, a) && forall j :: i < j < |accs| ==> BlockOf(c, accs[j]) != BlockOf(c, a)
  }

  /** Two blocks compete for the same lines when their numbers leave the same remainder modulo 2^s. */
  predicate Competes(c: Config, n: int, m: int)
  {
    n % Pow2(c.s) == m % Pow2(c.s)
  }

  /** The blocks among the accesses that compete with the block of a. */
  ghost function Competitors(c: Config, accs: seq<nat>, a: nat): set<int>
  {
    set x | x in accs && Competes(c, BlockOf(c, x), BlockOf(c, a)) :: BlockOf(c, x)
  }

  lemma CompetitorsMore(c: Config, accs: seq<nat>, x: nat, a: nat)
    ensures Competitors(c, accs + [x], a) ==
      Competitors(c, accs, a) + if Competes(c, BlockOf(c, x), BlockOf(c, a)) then {BlockOf(c, x)} else {}
  {
    assert forall y :: y in accs + [x] <==> y in accs || y == x;
    assert x in accs + [x];
  }

  lemma {:induction false} TagInSet(c: Config, accs: seq<nat>, a: nat)
    ensures Tag(c, a) in InSet(c, accs, SetIndex(c, a)) <==> exists i :: 0 <= i < |accs| && BlockOf(c, accs[i]) == BlockOf(c, a)
  {
    hide Tag, SetIndex, BlockOf;
    if accs != [] {
      var n := |accs| - 1;
      TagInSet(c, accs[..n], a);
      SameBlock(c, accs[n], a);
      if i :| 0 <= i < |accs| && BlockOf(c, accs[i]) == BlockOf(c, a) {
        assert i < n ==> BlockOf(c, accs[..n][i]) == BlockOf(c, a);
      }
    }
  }

  lemma CompetitorIs(c: Config, accs: seq<nat>, x: nat, a: nat)
    requires Competes(c, BlockOf(c, x), BlockOf(c, a))
    ensures BlockOf(c, x) in Competitors(c, accs, a) <==> exists i :: 0 <= i < |accs| && BlockOf(c, accs[i]) == BlockOf(c, x)
  {
    hide BlockOf;
    if i :| 0 <= i < |accs| && BlockOf(c, accs[i]) == BlockOf(c, x) {
      var y := accs[i];
      assert y in accs;
    }
    if BlockOf(c, x) in Competitors(c, accs, a) {
      var y :| y in accs && BlockOf(c, y) == BlockOf(c, x);
      var i :| 0 <= i < |accs| && accs[i] == y;
    }
  }

  lemma TagsMore(c: Config, accs: seq<nat>, x: nat, k: nat)
    ensures Elements(InSet(c, accs + [x], k)) == Elements(InSet(c, accs, k)) + if SetIndex(c, x) == k then {Tag(c, x)} else {}
  {
    hide Tag, SetIndex;
    assert (accs + [x])[..|accs|] == accs;
  }

  lemma SameSet(c: Config, x: nat, a: nat)
    ensures SetIndex(c, x) == SetIndex(c, a) <==> Competes(c, BlockOf(c, x), BlockOf(c, a))
  {
  }

  /** One more access is a new competitor exactly when its tag is new in the set. */
  lemma CompetitorTagsMore(c: Config, accs: seq<nat>, x: nat, a: nat)
    requires |Competitors(c, accs, a)| == |Elements(InSet(c, accs, SetIndex(c, a)))|
    ensures |Competitors(c, accs + [x], a)| == |Elements(InSet(c, accs + [x], SetIndex(c, a)))|
  {
    hide Competitors, BlockOf, Tag, Competes, SetIndex, InSet;
    CompetitorsMore(c, accs, x, a);
    TagsMore(c, accs, x, SetIndex(c, a));
    SameSet(c, x, a);
    TagInSet(c, accs, x);
    if SetIndex(c, x) == SetIndex(c, a) {
      CompetitorIs(c, accs, x, a);
    }
  }

  /** Within one set, tags stand for blocks one to one. */
  lemma {:induction false} CompetitorTags(c: Config, accs: seq<nat>, a: nat)
    ensures |Competitors(c, accs, a)| == |Elements(InSet(c, accs, SetIndex(c, a)))|
  {
    if accs == [] {
      assert Competitors(c, [], a) == {} == Elements([]);
    } else {
      var front, x := accs[..|accs| - 1], accs[|accs| - 1];
      assert accs == front + [x];
      CompetitorTags(c, front, a);
      CompetitorTagsMore(c, front, x, a);
    }
  }

  /** The last access to a block in the trace is the last access to its tag in its set. */
  lemma LastInSet(c: Config, accs: seq<nat>, a: nat, i: int)
    requires LastAccess(c, accs, a, i)
    ensures var k := SetIndex(c, a); var xs := InSet(c, accs, k); var p := |InSet(c, accs[..i], k)|;
      LastAt(xs, Tag(c, a), p) && xs[p + 1..] == InSet(c, accs[i + 1..], k)
  {
    hide BlockOf;
    var k, t := SetIndex(c, a), Tag(c, a);
    assert accs == accs[..i] + ([accs[i]] + accs[i + 1..]);
    InSetConcat(c, accs[..i], [accs[i]] + accs[i + 1..], k);
    InSetConcat(c, [accs[i]], accs[i + 1..], k);
    SameBlock(c, accs[i], a);
    assert [accs[i]][..0] == [];
    assert InSet(c, [accs[i]], k) == [t];
    var rest := accs[i + 1..];
    TagInSet(c, rest, a);
    var tail := InSet(c, rest, k);
    forall j | 0 <= j < |rest|
      ensures BlockOf(c, rest[j]) != BlockOf(c, a)
    {
      assert rest[j] == accs[i + 1 + j];
    }
    assert InSet(c, accs, k) == InSet(c, accs[..i], k) + [t] + tail;
  }

  lemma LastAccessExists(c: Config, accs: seq<nat>, a: nat, i: int) returns (l: int)
    requires 0 <= i < |accs| && BlockOf(c, accs[i]) == BlockOf(c, a)
    ensures LastAccess(c, accs, a, l)
  {
    l := |accs| - 1;
    while BlockOf(c, accs[l]) != BlockOf(c, a)
      invariant i <= l < |accs| && forall j :: l < j < |accs| ==> BlockOf(c, accs[j]) != BlockOf(c, a)
      decreases l
    {
      l := l - 1;
    }
  }

  /** An access hits exactly when its block was accessed before and fewer than E distinct blocks whose
      numbers are congruent to its own modulo 2^s have been accessed since. */
  lemma HitIffReused(c: Config, accs: seq<nat>, a: nat)
    requires Supported(c)
    ensures IsHit(c, accs, a) <==> exists i :: LastAccess(c, accs, a, i) && |Competitors(c, accs[i + 1..], a)| < c.E
  {
    var k, t := SetIndex(c, a), Tag(c, a);
    var xs := InSet(c, accs, k);
    ReuseDistance(c.E, xs, t);
    hide BlockOf, Competitors, Elements;
    forall i | LastAccess(c, accs, a, i)
      ensures LastAt(xs, t, |InSet(c, accs[..i], k)|)
      ensures |Competitors(c, accs[i + 1..], a)| == |Elements(xs[|InSet(c, accs[..i], k)| + 1..])|
    {
      LastInSet(c, accs, a, i);
      CompetitorTags(c, accs[i + 1..], a);
    }
    if IsHit(c, accs, a) {
      TagInSet(c, accs, a);
      var i :| 0 <= i < |accs| && BlockOf(c, accs[i]) == BlockOf(c, a);
      var l := LastAccessExists(c, accs, a, i);
      assert LastAccess(c, accs, a, l);
    }
  }
}
