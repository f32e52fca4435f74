/** The doubly linked list of free blocks.  A node is a block address x: its "next" pointer is
    the word at x and its "prev" pointer the word at x + 4; 0 is NULL. */
module FreeChain {
  import opened WordMemory
  import opened Lists

  const PROLOGUE := 8

  ghost predicate NodeAddr(m: Memory, x: int)
  {
    0 < x && x % 8 == 0 && x in m && x + 4 in m
  }

  ghost predicate NodeOk(m: Memory, L: seq<int>, i: int)
    requires 0 <= i < |L|
  {
    && Get(m, L[i]) == (if i + 1 < |L| then L[i + 1] else 0)
    && (0 < i ==> Get(m, L[i] + 4) == L[i - 1])
  }

  /** The chain starts at the prologue, follows "next" through exactly the nodes of L, each once,
      ends in NULL, and every "prev" points back. */
  ghost predicate Chain(m: Memory, L: seq<int>)
  {
    && |L| > 0 && L[0] == PROLOGUE
    && Distinct(L)
    && (forall i :: 0 <= i < |L| ==> NodeAddr(m, L[i]))
    && (forall i :: 0 <= i < |L| ==> NodeOk(m, L, i))
  }

  /** p is a pointer word of a node of L. */
  ghost predicate IsLink(L: seq<int>, p: int)
  {
    p in L || p - 4 in L
  }

  lemma ChainNode(m: Memory, L: seq<int>, i: int)
    requires Chain(m, L) && 0 <= i < |L|
    ensures NodeOk(m, L, i) && NodeAddr(m, L[i])
  {
  }

  /** The words of m2 are those of m1 with the node at index k unlinked. */
  ghost predicate Unlinked(m1: Memory, m2: Memory, L: seq<int>, k: int)
    requires 0 < k < |L|
  {
    && m1.Keys == m2.Keys
    && Get(m2, L[k - 1]) == (if k + 1 < |L| then L[k + 1] else 0)
    && (k + 1 < |L| ==> Get(m2, L[k + 1] + 4) == L[k - 1])
    && forall p {:trigger Get(m2, p)} :: p != L[k - 1] && (k + 1 < |L| ==> p != L[k + 1] + 4) ==>
        Get(m2, p) == Get(m1, p)
  }

  lemma ChainWithout(m1: Memory, m2: Memory, L: seq<int>, k: int)
    requires Chain(m1, L) && 0 < k < |L| && Unlinked(m1, m2, L, k)
    ensures Chain(m2, L[..k] + L[k + 1..])
  {
    var R := L[..k] + L[k + 1..];
    forall i | 0 <= i < |R|
      ensures NodeOk(m2, R, i)
    {
      var j := if i < k then i else i + 1;
      assert NodeAddr(m1, L[j]) && NodeOk(m1, L, j) && NodeOk(m1, L, k);
      assert NodeAddr(m1, L[k - 1]);
      if k + 1 < |L| {
        assert NodeAddr(m1, L[k + 1]);
      }
    }
  }

  /** The words of m2 are those of m1 with x linked in right after the first node. */
  ghost predicate LinkedIn(m1: Memory, m2: Memory, L: seq<int>, x: int)
    requires 0 < |L|
  {
    && m1.Keys == m2.Keys
    && Get(m2, L[0]) == x
    && Get(m2, x) == (if 1 < |L| then L[1] else 0)
    && Get(m2, x + 4) == L[0]
    && (1 < |L| ==> Get(m2, L[1] + 4) == x)
    && forall p {:trigger Get(m2, p)} :: p != L[0] && p != x && p != x + 4 && (1 < |L| ==> p != L[1] + 4) ==>
        Get(m2, p) == Get(m1, p)
  }

  lemma ChainWith(m1: Memory, m2: Memory, L: seq<int>, x: int)
    requires Chain(m1, L) && x !in L && NodeAddr(m1, x) && LinkedIn(m1, m2, L, x)
    ensures Chain(m2, [L[0], x] + L[1..])
  {
    var R := [L[0], x] + L[1..];
    forall i | 0 <= i < |R|
      ensures NodeOk(m2, R, i)
    {
      assert NodeAddr(m1, L[0]);
      if i >= 2 {
        assert NodeAddr(m1, L[1]);
        assert NodeAddr(m1, L[i - 1]) && NodeOk(m1, L, i - 1);
      }
    }
  }

  /** The chain only depends on its pointer words. */
  lemma ChainKept(m1: Memory, m2: Memory, L: seq<int>)
    requires Chain(m1, L) && m1.Keys == m2.Keys
    requires forall p {:trigger Get(m2, p)} :: IsLink(L, p) ==> Get(m2, p) == Get(m1, p)
    ensures Chain(m2, L)
  {
    forall i | 0 <= i < |L|
      ensures NodeOk(m2, L, i)
    {
      assert NodeAddr(m1, L[i]) && NodeOk(m1, L, i);
      assert IsLink(L, L[i]) && IsLink(L, L[i] + 4);
    }
  }
}
