/** Removing one element from a list without repetitions. */
module Lists {

  ghost predicate Distinct(L: seq<int>)
  {
    forall i, j :: 0 <= i < j < |L| ==> L[i] != L[j]
  }

  ghost function IndexOf(L: seq<int>, x: int): (k: nat)
    requires x in L
    ensures k < |L| && L[k] == x
  {
    var k: nat :| k < |L| && L[k] == x;
    k
  }

  ghost function Without(L: seq<int>, x: int): seq<int>
  {
    if x in L then L[..IndexOf(L, x)] + L[IndexOf(L, x) + 1..] else L
  }

  lemma WithoutAbsent(L: seq<int>, x: int)
    requires x !in L
    ensures Without(L, x) == L
  {
  }

  lemma WithoutAt(L: seq<int>, k: nat)
    requires k < |L| && Distinct(L)
    ensures Without(L, L[k]) == L[..k] + L[k + 1..]
  {
    assert IndexOf(L, L[k]) == k;
  }

  lemma WithoutMembers(L: seq<int>, x: int)
    requires Distinct(L)
    ensures Distinct(Without(L, x))
    ensures forall y :: y in Without(L, x) <==> y in L && y != x
  {
    if x !in L {
      return;
    }
    var k := IndexOf(L, x);
    forall y | y in L && y != x
      ensures y in Without(L, x)
    {
      var i := IndexOf(L, y);
      assert Without(L, x)[if i < k then i else i - 1] == y;
    }
  }

  /** L without the members of S, in the same order. */
  ghost function Minus(L: seq<int>, S: set<int>): (r: seq<int>)
    ensures forall y :: y in r <==> y in L && y !in S
  {
    if L == [] then []
    else if L[0] in S then Minus(L[1..], S)
    else [L[0]] + Minus(L[1..], S)
  }

  lemma {:induction false} MinusNothing(L: seq<int>)
    ensures Minus(L, {}) == L
  {
    if L != [] {
      MinusNothing(L[1..]);
    }
  }

  lemma {:induction false} MinusDistinct(L: seq<int>, S: set<int>)
    requires Distinct(L)
    ensures Distinct(Minus(L, S))
  {
    if L != [] {
      MinusDistinct(L[1..], S);
    }
  }

  lemma {:induction false} MinusAbsent(L: seq<int>, S: set<int>, x: int)
    requires x !in L
    ensures Minus(L, S + {x}) == Minus(L, S)
  {
    if L != [] {
      MinusAbsent(L[1..], S, x);
    }
  }

  lemma DistinctTail(h: int, t: seq<int>)
    requires Distinct([h] + t)
    ensures Distinct(t)
  {
    assert t == ([h] + t)[1..];
  }

  lemma WithoutCons(h: int, t: seq<int>, x: int)
    requires Distinct([h] + t) && x != h
    ensures Without([h] + t, x) == [h] + Without(t, x)
  {
    hide Without;
    if x in t {
      var L, k := [h] + t, IndexOf(t, x);
      DistinctTail(h, t);
      WithoutAt(t, k);
      assert L[k + 1] == t[k] == x;
      WithoutAt(L, k + 1);
      assert L[..k + 1] == [h] + t[..k] && L[k + 1 + 1..] == t[k + 1..];
    } else {
      WithoutAbsent(t, x);
      WithoutAbsent([h] + t, x);
    }
  }

  /** Removing members one at a time removes the set of them. */
  lemma {:induction false} MinusOne(L: seq<int>, S: set<int>, x: int)
    requires Distinct(L)
    ensures Without(Minus(L, S), x) == Minus(L, S + {x})
  {
    if L == [] {
      return;
    }
    var h, t := L[0], L[1..];
    MinusDistinct(L, S);
    MinusOne(t, S, x);
    if h in S {
    } else if h == x {
      MinusAbsent(t, S, x);
      WithoutAt(Minus(L, S), 0);
    } else {
      WithoutCons(h, Minus(t, S), x);
    }
  }

  lemma {:induction false} MinusTwice(L: seq<int>, S: set<int>, T: set<int>)
    ensures Minus(Minus(L, S), T) == Minus(L, S + T)
  {
    if L != [] {
      MinusTwice(L[1..], S, T);
      assert L[0] !in S ==> Minus(L, S)[1..] == Minus(L[1..], S);
    }
  }
}
