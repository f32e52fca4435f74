/** Least-recently-used replacement in one set, as a list of tags with the most recent first. */
module RecencyList {
  import opened Lists

  /** t moves to the front, or enters there; a list of E tags first drops its last one. */
  ghost function Touch(E: nat, list: seq<int>, t: int): seq<int>
    requires 0 < E && |list| <= E
  {
    if t in list then [t] + Without(list, t)
    else if |list| < E then [t] + list
    else [t] + list[..E - 1]
  }

  /** The list of an E-line set after the accesses xs, oldest access first. */
  ghost function Lru(E: nat, xs: seq<int>): (list: seq<int>)
    requires 0 < E
    ensures |list| <= E
  {
    if xs == [] then []
    else Touch(E, Lru(E, xs[..|xs| - 1]), xs[|xs| - 1])
  }

  /** All tags accessed so far, the most recently accessed first. */
  ghost function Stack(xs: seq<int>): seq<int>
  {
    if xs == [] then []
    else [xs[|xs| - 1]] + Without(Stack(xs[..|xs| - 1]), xs[|xs| - 1])
  }

  function Prefix(s: seq<int>, n: nat): seq<int>
  {
    if n < |s| then s[..n] else s
  }

  // ----- what the lists hold

  lemma {:induction false} StackMembers(xs: seq<int>)
    ensures Distinct(Stack(xs))
    ensures forall x :: x in Stack(xs) <==> x in xs
  {
    if xs != [] {
      var n := |xs| - 1;
      StackMembers(xs[..n]);
      WithoutMembers(Stack(xs[..n]), xs[n]);
      assert xs == xs[..n] + [xs[n]];
    }
  }

  /** The stack property: an E-line set holds the first E tags of the unbounded recency stack. */
  lemma {:induction false} LruIsStackPrefix(E: nat, xs: seq<int>)
    requires 0 < E
    ensures Lru(E, xs) == Prefix(Stack(xs), E)
  {
    if xs != [] {
      var n := |xs| - 1;
      var s, t := Stack(xs[..n]), xs[n];
      LruIsStackPrefix(E, xs[..n]);
      StackMembers(xs[..n]);
      TouchPrefix(E, s, t);
    }
  }

  lemma TouchPrefix(E: nat, s: seq<int>, t: int)
    requires 0 < E && Distinct(s)
    ensures Touch(E, Prefix(s, E), t) == Prefix([t] + Without(s, t), E)
  {
    hide Without;
    if t in Prefix(s, E) {
      var k :| 0 <= k < |Prefix(s, E)| && Prefix(s, E)[k] == t;
      PrefixHit(E, s, k);
    } else if t in s {
      var k :| 0 <= k < |s| && s[k] == t;
      PrefixMiss(E, s, k);
    } else {
      WithoutAbsent(s, t);
      assert ([t] + s)[1..] == s;
    }
  }

  lemma ConsTake(x: int, w: seq<int>, n: nat)
    requires 0 < n <= |w| + 1
    ensures ([x] + w)[..n] == [x] + w[..n - 1]
  {
  }

  lemma CutOut(s: seq<int>, k: nat, n: nat)
    requires k < n <= |s|
    ensures s[..n][..k] + s[..n][k + 1..] == (s[..k] + s[k + 1..])[..n - 1]
  {
  }

  lemma PrefixHit(E: nat, s: seq<int>, k: nat)
    requires Distinct(s) && k < E && k < |s|
    ensures [s[k]] + Without(Prefix(s, E), s[k]) == Prefix([s[k]] + Without(s, s[k]), E)
  {
    hide Without;
    WithoutAt(s, k);
    if E < |s| {
      assert s[..E][k] == s[k];
      WithoutAt(s[..E], k);
      CutOut(s, k, E);
      ConsTake(s[k], Without(s, s[k]), E);
    }
  }

  lemma PrefixMiss(E: nat, s: seq<int>, k: nat)
    requires Distinct(s) && 0 < E <= k < |s|
    ensures [s[k]] + s[..E - 1] == Prefix([s[k]] + Without(s, s[k]), E)
    ensures s[k] !in Prefix(s, E) && Prefix(s, E)[..E - 1] == s[..E - 1]
  {
    hide Without;
    WithoutAt(s, k);
    ConsTake(s[k], Without(s, s[k]), E);
    assert Without(s, s[k])[..E - 1] == s[..E - 1];
  }

  /** Inclusion: after the same accesses a set with fewer lines holds a subset, in fact a prefix,
      of what a set with more lines holds. */
  lemma Inclusion(E1: nat, E2: nat, xs: seq<int>)
    requires 0 < E1 <= E2
    ensures Lru(E1, xs) <= Lru(E2, xs)
    ensures forall t :: t in Lru(E1, xs) ==> t in Lru(E2, xs)
  {
    LruIsStackPrefix(E1, xs);
    LruIsStackPrefix(E2, xs);
  }

  // ----- reuse distance

  function Elements(xs: seq<int>): set<int>
  {
    set x | x in xs
  }

  /** i is the position of the last access to t. */
  ghost predicate LastAt(xs: seq<int>, t: int, i: int)
  {
    0 <= i < |xs| && xs[i] == t && forall j :: i < j < |xs| ==> xs[j] != t
  }

  /** The tags above t in the stack are the ones accessed since t was. */
  lemma {:induction false} StackAbove(xs: seq<int>, t: int, i: int) returns (d: nat)
    requires LastAt(xs, t, i)
    ensures d < |Stack(xs)| && Stack(xs)[d] == t
    ensures Elements(Stack(xs)[..d]) == Elements(xs[i + 1..])
  {
    hide Without;
    var n := |xs| - 1;
    if i == n {
      d := 0;
      assert Stack(xs)[..0] == [] && xs[n + 1..] == [];
    } else {
      var u, s := xs[n], Stack(xs[..n]);
      assert xs[i + 1..] == xs[..n][i + 1..] + [u];
      StackMembers(xs[..n]);
      var d0 := StackAbove(xs[..n], t, i);
      assert Elements(xs[i + 1..]) == Elements(xs[..n][i + 1..]) + {u};
      if u in s {
        var k :| 0 <= k < |s| && s[k] == u;
        WithoutAt(s, k);
        d := if k < d0 then d0 else d0 + 1;
        AboveMoved(s, k, d0);
      } else {
        WithoutAbsent(s, u);
        d := d0 + 1;
        assert Stack(xs)[..d] == [u] + s[..d0];
        assert Elements(Stack(xs)[..d]) == {u} + Elements(s[..d0]);
      }
    }
  }

  /** Moving s[k] to the front leaves the set of tags above s[d], plus s[k] itself, above s[d]. */
  lemma AboveMoved(s: seq<int>, k: nat, d: nat)
    requires k < |s| && d < |s| && k != d && Distinct(s)
    ensures var m := [s[k]] + (s[..k] + s[k + 1..]); var e := if k < d then d else d + 1;
      m[e] == s[d] && Elements(m[..e]) == Elements(s[..d]) + {s[k]}
  {
    var m := [s[k]] + (s[..k] + s[k + 1..]);
    var e := if k < d then d else d + 1;
    if k < d {
      assert m[..e] == [s[k]] + s[..k] + s[k + 1..d];
      assert s[..d] == s[..k] + [s[k]] + s[k + 1..d];
    } else {
      assert m[..e] == [s[k]] + s[..d];
    }
  }

  lemma {:induction false} DistinctCount(s: seq<int>)
    requires Distinct(s)
    ensures |Elements(s)| == |s|
  {
    if s != [] {
      DistinctCount(s[1..]);
      assert Elements(s) == {s[0]} + Elements(s[1..]);
    }
  }

  /** Reuse distance: t hits in an E-line set exactly when it was accessed before and fewer than E
      distinct other tags were accessed since. */
  lemma ReuseDistance(E: nat, xs: seq<int>, t: int)
    requires 0 < E
    ensures t in Lru(E, xs) <==> exists i :: LastAt(xs, t, i) && |Elements(xs[i + 1..])| < E
  {
    hide Lru, Stack, Elements, Prefix;
    LruIsStackPrefix(E, xs);
    StackMembers(xs);
    PrefixMembers(Stack(xs), E);
    if t in xs {
      var i := LastIndex(xs, t);
      var d := StackAbove(xs, t, i);
      DistinctCount(Stack(xs)[..d]);
      PrefixDepth(Stack(xs), E, d);
    }
  }

  lemma PrefixMembers(s: seq<int>, n: nat)
    ensures forall t :: t in Prefix(s, n) ==> t in s
  {
  }

  lemma PrefixDepth(s: seq<int>, n: nat, d: nat)
    requires Distinct(s) && d < |s|
    ensures s[d] in Prefix(s, n) <==> d < n
  {
  }

  lemma LastIndex(xs: seq<int>, t: int) returns (i: int)
    requires t in xs
    ensures LastAt(xs, t, i)
  {
    i := |xs| - 1;
    while xs[i] != t
      invariant 0 <= i < |xs| && t in xs[..i + 1]
      invariant forall j :: i < j < |xs| ==> xs[j] != t
      decreases i
    {
      assert xs[..i + 1] == xs[..i] + [xs[i]];
      i := i - 1;
    }
  }
}
