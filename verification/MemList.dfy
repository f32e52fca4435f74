/** The tracer's list of blocks (sp_01_linklab/handout/utils/memlist.c): singly linked, with a dummy
    head, sorted by address. */
module MemList {

  datatype Entry = Entry(ptr: int, size: int, cnt: int)

  // ----- what the list records

  ghost predicate Sorted(es: seq<Entry>)
  {
    forall i, j :: 0 <= i < j < |es| ==> es[i].ptr < es[j].ptr
  }

  /** The first position at or above ptr. */
  function Place(es: seq<Entry>, ptr: int): (k: nat)
    ensures k <= |es| && (forall i :: 0 <= i < k ==> es[i].ptr < ptr) && (k < |es| ==> ptr <= es[k].ptr)
  {
    if es == [] || ptr <= es[0].ptr then 0 else 1 + Place(es[1..], ptr)
  }

  predicate Has(es: seq<Entry>, ptr: int)
  {
    var k := Place(es, ptr);
    k < |es| && es[k].ptr == ptr
  }

  /** alloc: a known address gets the new size and one more count, a new one is inserted in order. */
  function Recorded(es: seq<Entry>, ptr: int, size: int): seq<Entry>
  {
    var k := Place(es, ptr);
    if Has(es, ptr) then es[k := Entry(ptr, size, es[k].cnt + 1)]
    else es[..k] + [Entry(ptr, size, 1)] + es[k..]
  }

  /** dealloc: one count less. */
  function Released(es: seq<Entry>, ptr: int): seq<Entry>
  {
    var k := Place(es, ptr);
    if Has(es, ptr) then es[k := es[k].(cnt := es[k].cnt - 1)] else es
  }

  function Get(es: seq<Entry>, ptr: int): Entry
  {
    if Has(es, ptr) then es[Place(es, ptr)] else Entry(ptr, 0, 0)
  }

  lemma PlaceSorted(es: seq<Entry>, ptr: int, k: nat)
    requires Sorted(es) && k <= |es| && (k < |es| ==> ptr <= es[k].ptr) && (k > 0 ==> es[k - 1].ptr < ptr)
    ensures Place(es, ptr) == k
  {
    PlaceIs(es, ptr, k);
  }

  lemma PlaceOrder(es: seq<Entry>, p: int, q: int)
    requires Sorted(es) && p <= q
    ensures Place(es, p) <= Place(es, q)
  {
  }

  lemma InsertedAt<T>(s: seq<T>, k: nat, e: T)
    requires k <= |s|
    ensures var r := s[..k] + [e] + s[k..];
      |r| == |s| + 1 && forall i :: 0 <= i < |r| ==> r[i] == if i < k then s[i] else if i == k then e else s[i - 1]
  {
  }

  lemma InsertedSorted(es: seq<Entry>, k: nat, e: Entry)
    requires Sorted(es) && k <= |es|
    requires (k > 0 ==> es[k - 1].ptr < e.ptr) && (k < |es| ==> e.ptr < es[k].ptr)
    ensures Sorted(es[..k] + [e] + es[k..])
  {
    InsertedAt(es, k, e);
  }

  lemma InsertedGet(es: seq<Entry>, k: nat, e: Entry, q: int)
    requires Sorted(es) && k <= |es|
    requires (k > 0 ==> es[k - 1].ptr < e.ptr) && (k < |es| ==> e.ptr < es[k].ptr)
    ensures var r := es[..k] + [e] + es[k..];
      && Sorted(r) && (Has(r, q) <==> q == e.ptr || Has(es, q))
      && Get(r, q) == if q == e.ptr then e else Get(es, q)
  {
    hide Place, Sorted;
    InsertedSorted(es, k, e);
    InsertedAt(es, k, e);
    var r, j := es[..k] + [e] + es[k..], Place(es, q);
    PlaceSorted(es, e.ptr, k);
    if q < e.ptr {
      PlaceOrder(es, q, e.ptr);
      assert r[j] == if j < k then es[j] else e;
      PlaceSorted(r, q, j);
    } else if q == e.ptr {
      PlaceSorted(r, q, k);
    } else {
      PlaceOrder(es, e.ptr, q);
      assert r[j] == if j == k then e else es[j - 1];
      assert j < |es| ==> r[j + 1] == es[j];
      PlaceSorted(r, q, j + 1);
    }
  }

  lemma UpdatedGet(es: seq<Entry>, k: nat, e: Entry, q: int)
    requires Sorted(es) && k < |es| && es[k].ptr == e.ptr
    ensures var r := es[k := e];
      && Sorted(r) && (Has(r, q) <==> Has(es, q))
      && Get(r, q) == if q == e.ptr then e else Get(es, q)
  {
    hide Place;
    PlaceSorted(es[k := e], q, Place(es, q));
    PlaceIs(es, e.ptr, k);
  }

  /** The sorted list is a map: recording changes what is known about one address only. */
  lemma RecordedGet(es: seq<Entry>, ptr: int, size: int, q: int)
    requires Sorted(es)
    ensures Sorted(Recorded(es, ptr, size))
    ensures Has(Recorded(es, ptr, size), q) <==> q == ptr || Has(es, q)
    ensures Get(Recorded(es, ptr, size), q) ==
            if q == ptr then Entry(ptr, size, Get(es, ptr).cnt + 1) else Get(es, q)
  {
    hide Place;
    if Has(es, ptr) {
      UpdatedGet(es, Place(es, ptr), Entry(ptr, size, Get(es, ptr).cnt + 1), q);
    } else {
      InsertedGet(es, Place(es, ptr), Entry(ptr, size, 1), q);
    }
  }

  lemma ReleasedGet(es: seq<Entry>, ptr: int, q: int)
    requires Sorted(es)
    ensures Sorted(Released(es, ptr))
    ensures Has(Released(es, ptr), q) <==> Has(es, q)
    ensures Get(Released(es, ptr), q) == if q == ptr && Has(es, ptr) then Get(es, q).(cnt := Get(es, q).cnt - 1) else Get(es, q)
  {
    hide Place;
    if Has(es, ptr) {
      var e := Get(es, ptr);
      UpdatedGet(es, Place(es, ptr), e.(cnt := e.cnt - 1), q);
    }
  }

  lemma PlaceIs(es: seq<Entry>, ptr: int, k: nat)
    requires k <= |es| && (k < |es| ==> ptr <= es[k].ptr)
    requires forall i :: 0 <= i < k ==> es[i].ptr < ptr
    ensures Place(es, ptr) == k
  {
  }

  // ----- the linked list

  class Item {
    var ptr: int
    var size: int
    var cnt: int
    var next: Item?

    constructor (ptr: int, size: int, cnt: int)
      ensures this.ptr == ptr && this.size == size && this.cnt == cnt && next == null
    {
      this.ptr, this.size, this.cnt, next := ptr, size, cnt, null;
    }

    function Content(): Entry
      reads this
    {
      Entry(ptr, size, cnt)
    }
  }

  class List {
    const head: Item
    ghost var spine: seq<Item>
    ghost var entries: seq<Entry>

    ghost predicate Linked()
      reads this`spine, spine
    {
      && spine != [] && spine[0] == head
      && (forall i, j :: 0 <= i < j < |spine| ==> spine[i] != spine[j])
      && (forall i :: 0 <= i < |spine| - 1 ==> spine[i].next == spine[i + 1])
      && spine[|spine| - 1].next == null
    }

    /** entries is what the items behind the dummy head hold. */
    ghost predicate Held()
      reads this, spine
    {
      |entries| == |spine| - 1 && forall i :: 0 <= i < |entries| ==> spine[i + 1].Content() == entries[i]
    }

    ghost predicate Valid()
      reads this, spine
    {
      Linked() && Held() && Sorted(entries)
    }

    /** new_list. */
    constructor ()
      ensures Valid() && fresh(spine) && entries == []
    {
      head := new Item(0, 0, 0);
      spine, entries := [head], [];
    }

    /** What a walk knows at the k-th item. */
    ghost predicate At(k: nat, prev: Item, cur: Item?)
      reads this, spine
    {
      k < |spine| && prev == spine[k] && cur == if k + 1 < |spine| then spine[k + 1] else null
    }

    /** The loop of find and of alloc: prev and cur are the items around the place for ptr. */
    method Locate(ptr: int) returns (prev: Item, cur: Item?, ghost k: nat)
      requires Valid()
      ensures At(k, prev, cur) && k == Place(entries, ptr)
      ensures Place(entries, ptr) < |spine| && prev == spine[Place(entries, ptr)]
      ensures cur != null ==> k < |entries| && entries[k] == cur.Content()
      ensures cur == null ==> k == |entries|
    {
      prev, cur, k := head, head.next, 0;
      while cur != null && cur.ptr < ptr
        invariant At(k, prev, cur) && forall j :: 0 <= j < k ==> entries[j].ptr < ptr
        decreases |spine| - k
      {
        assert entries[k] == cur.Content();
        prev, cur := cur, cur.next;
        k := k + 1;
      }
      assert cur != null ==> entries[k] == cur.Content();
      PlaceIs(entries, ptr, k);
    }

    /** find. */
    method Find(ptr: int) returns (r: Item?)
      requires Valid()
      ensures r != null <==> Has(entries, ptr)
      ensures r != null ==> r in spine && r.Content() == Get(entries, ptr)
    {
      hide Place;
      var prev, cur, k := Locate(ptr);
      r := if cur != null && cur.ptr == ptr then cur else null;
    }

    /** The pointer writes of an insertion behind prev, the k-th item. */
    method Splice(prev: Item, i: Item, cur: Item?, ghost k: nat)
      requires Linked() && At(k, prev, cur) && i !in spine && i.next == null
      modifies this`spine, prev`next, i`next
      ensures Linked() && spine == old(spine)[..k + 1] + [i] + old(spine)[k + 1..]
    {
      ghost var sp := spine;
      if cur != null {
        i.next := cur;
      }
      prev.next := i;
      spine := spine[..k + 1] + [i] + spine[k + 1..];
      InsertedAt(sp, k + 1, i);
    }

    /** Link i in behind prev, the k-th item. */
    method LinkAfter(prev: Item, i: Item, cur: Item?, ghost k: nat)
      requires Linked() && Held() && At(k, prev, cur) && i !in spine && i.next == null
      modifies this`spine, this`entries, prev`next, i`next
      ensures Linked() && Held() && spine == old(spine)[..k + 1] + [i] + old(spine)[k + 1..]
      ensures entries == old(entries)[..k] + [i.Content()] + old(entries)[k..]
    {
      hide Linked;
      ghost var es, sp := entries, spine;
      Splice(prev, i, cur, k);
      entries := entries[..k] + [i.Content()] + entries[k..];
      InsertedAt(sp, k + 1, i);
      InsertedAt(es, k, i.Content());
    }

    /** An item keeps its place and gets new contents. */
    method Update(cur: Item, size: int, cnt: int, ghost k: nat)
      requires Linked() && Held() && k < |entries| && cur == spine[k + 1]
      modifies this`entries, cur`size, cur`cnt
      ensures Linked() && Held()
      ensures entries == old(entries)[k := Entry(cur.ptr, size, cnt)]
    {
      cur.size := size;
      cur.cnt := cnt;
      entries := entries[k := cur.Content()];
    }

    /** alloc. */
    method Alloc(ptr: int, size: int)
      requires Valid()
      modifies this`spine, this`entries, spine
      ensures Valid() && entries == Recorded(old(entries), ptr, size)
      ensures forall x :: x in spine && x !in old(spine) ==> fresh(x)
    {
      hide Linked, Held, Place;
      var i := new Item(ptr, size, 1);
      var prev, cur, k := Locate(ptr);
      RecordedGet(entries, ptr, size, ptr);
      if cur != null && cur.ptr == i.ptr {
        Update(cur, i.size, cur.cnt + 1, k);
      } else {
        LinkAfter(prev, i, cur, k);
      }
    }

    /** dealloc, which looks for equality and walks the whole list if it finds none. */
    method Dealloc(ptr: int) returns (r: Item?)
      requires Valid()
      modifies this`entries, spine
      ensures Valid() && spine == old(spine) && entries == Released(old(entries), ptr)
      ensures r != null <==> Has(old(entries), ptr)
    {
      var prev: Item, cur := head, head.next;
      ghost var k: nat := 0;
      while cur != null && cur.ptr != ptr
        invariant At(k, prev, cur) && forall j :: 0 <= j < k ==> entries[j].ptr != ptr
        decreases |spine| - k
      {
        assert entries[k] == cur.Content();
        prev, cur := cur, cur.next;
        k := k + 1;
      }
      assert cur != null ==> entries[k] == cur.Content();
      Found(entries, ptr, k);
      ReleasedGet(entries, ptr, ptr);
      r := cur;
      if cur != null {
        Update(cur, cur.size, cur.cnt - 1, k);
      }
    }
  }

  /** In a sorted list the first equal address is where ptr belongs. */
  lemma Found(es: seq<Entry>, ptr: int, k: nat)
    requires Sorted(es) && k <= |es| && (forall i :: 0 <= i < k ==> es[i].ptr != ptr) && (k < |es| ==> es[k].ptr == ptr)
    ensures Has(es, ptr) <==> k < |es|
    ensures k < |es| ==> Place(es, ptr) == k
  {
    if k < |es| {
      PlaceIs(es, ptr, k);
    }
  }
}
