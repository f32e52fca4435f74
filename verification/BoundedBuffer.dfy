/** The bounded buffer of sp_06_proxylab/proxylab-handout/sbuf.c under any interleaving of any
    number of threads.  Every P, every V and every access to shared data is one step. */
module BoundedBuffer {
  import opened ThreadCounts

  /** Where a thread stands.  The name says what its next step is. */
  datatype Pc =
    | Idle
    | InsertP(item: int)       // P(&sp->slots)
    | InsertLock(item: int)    // P(&sp->mutex)
    | InsertBump(item: int)    // ++sp->rear
    | InsertStore(item: int)   // sp->buf[sp->rear % sp->n] = item
    | InsertUnlock             // V(&sp->mutex)
    | InsertV                  // V(&sp->items)
    | RemoveP                  // P(&sp->items)
    | RemoveLock               // P(&sp->mutex)
    | RemoveBump               // ++sp->front
    | RemoveLoad               // item = sp->buf[sp->front % sp->n]
    | RemoveUnlock(got: int)   // V(&sp->mutex)
    | RemoveV(got: int)        // V(&sp->slots)

  type Threads = map<nat, Pc>

  predicate Inserting(p: Pc) { p.InsertP? || p.InsertLock? || p.InsertBump? || p.InsertStore? || p.InsertUnlock? || p.InsertV? }

  predicate Removing(p: Pc) { p.RemoveP? || p.RemoveLock? || p.RemoveBump? || p.RemoveLoad? || p.RemoveUnlock? || p.RemoveV? }

  /** Between P and V of the mutex. */
  predicate InSection(p: Pc)
  {
    p.InsertBump? || p.InsertStore? || p.InsertUnlock? || p.RemoveBump? || p.RemoveLoad? || p.RemoveUnlock?
  }

  /** Has taken a slot and not yet moved rear. */
  predicate HasSlot(p: Pc) { p.InsertLock? || p.InsertBump? }

  /** Has moved rear and not yet announced the item. */
  predicate HasFilled(p: Pc) { p.InsertStore? || p.InsertUnlock? || p.InsertV? }

  /** Has claimed an item and not yet moved front. */
  predicate HasItem(p: Pc) { p.RemoveLock? || p.RemoveBump? }

  /** Has moved front and not yet returned the slot. */
  predicate HasEmptied(p: Pc) { p.RemoveLoad? || p.RemoveUnlock? || p.RemoveV? }

  predicate Storing(p: Pc) { p.InsertStore? }

  predicate Loading(p: Pc) { p.RemoveLoad? }

  /** A call has passed its first P and not yet done its last V. */
  predicate InFlight(p: Pc) { HasSlot(p) || HasFilled(p) || HasItem(p) || HasEmptied(p) }

  /** The shared data and the threads' positions, with the history of items written and read. */
  datatype Buffer = Buffer(n: nat, rear: int, front: int, mutex: int, slots: int, items: int,
                           threads: Threads, cells: seq<int>, written: seq<int>, read: seq<int>)

  ghost predicate Counts(b: Buffer)
  {
    && b.mutex >= 0 && b.slots >= 0 && b.items >= 0
    && b.mutex + Count(b.threads, InSection) == 1
    && b.slots + Count(b.threads, HasSlot) + (b.rear - b.front) + Count(b.threads, HasEmptied) == b.n
    && b.items + Count(b.threads, HasFilled) + Count(b.threads, HasItem) == b.rear - b.front
    && b.rear == |b.written| + Count(b.threads, Storing)
    && b.front == |b.read| + Count(b.threads, Loading)
  }

  /** The k-th item written sits in cell k % n. */
  ghost predicate ItemIn(cells: seq<int>, written: seq<int>, k: int)
    requires 0 < k <= |written|
  {
    |cells| > 0 && cells[k % |cells|] == written[k - 1]
  }

  /** Items not yet read sit in their cells, and what was read is what was written, in order. */
  ghost predicate Contents(b: Buffer)
  {
    && |b.cells| == b.n
    && b.read <= b.written
    && (forall k :: |b.read| < k <= |b.written| ==> ItemIn(b.cells, b.written, k))
  }

  ghost predicate Inv(b: Buffer)
  {
    Counts(b) && Contents(b)
  }

  /** sbuf_init. */
  function Initial(cells: seq<int>): Buffer
  {
    Buffer(|cells|, 0, 0, 1, |cells|, 0, map[], cells, [], [])
  }

  /** Whether a thread at p has a step to take: a P needs a positive semaphore. */
  predicate CanStep(p: Pc, mutex: int, slots: int, items: int)
  {
    match p
    case Idle => false
    case InsertP(_) => slots > 0
    case InsertLock(_) => mutex > 0
    case RemoveP => items > 0
    case RemoveLock => mutex > 0
    case _ => true
  }

  predicate Enabled(b: Buffer, t: nat)
  {
    t in b.threads && CanStep(b.threads[t], b.mutex, b.slots, b.items)
  }

  /** Cell index, as the C remainder of non-negative operands. */
  function Cell(b: Buffer, k: int): int
  {
    if b.n == 0 then 0 else k % b.n
  }

  /** One step of thread t. */
  function Next(b: Buffer, t: nat): (r: Buffer)
    requires Enabled(b, t) && |b.cells| == b.n
    ensures r.n == b.n == |r.cells|
    ensures b.written <= r.written && b.read <= r.read
  {
    match b.threads[t]
    case InsertP(x) => b.(slots := b.slots - 1, threads := b.threads[t := InsertLock(x)])
    case InsertLock(x) => b.(mutex := b.mutex - 1, threads := b.threads[t := InsertBump(x)])
    case InsertBump(x) => b.(rear := b.rear + 1, threads := b.threads[t := InsertStore(x)])
    case InsertStore(x) =>
      b.(cells := if b.n == 0 then b.cells else b.cells[Cell(b, b.rear) := x], written := b.written + [x],
         threads := b.threads[t := InsertUnlock])
    case InsertUnlock => b.(mutex := b.mutex + 1, threads := b.threads[t := InsertV])
    case InsertV => b.(items := b.items + 1, threads := b.threads[t := Idle])
    case RemoveP => b.(items := b.items - 1, threads := b.threads[t := RemoveLock])
    case RemoveLock => b.(mutex := b.mutex - 1, threads := b.threads[t := RemoveBump])
    case RemoveBump => b.(front := b.front + 1, threads := b.threads[t := RemoveLoad])
    case RemoveLoad =>
      var x := if b.n == 0 then 0 else b.cells[Cell(b, b.front)];
      b.(read := b.read + [x], threads := b.threads[t := RemoveUnlock(x)])
    case RemoveUnlock(x) => b.(mutex := b.mutex + 1, threads := b.threads[t := RemoveV(x)])
    case RemoveV(x) => b.(slots := b.slots + 1, threads := b.threads[t := Idle])
  }

  lemma CountsNext(b: Buffer, t: nat)
    requires Counts(b) && Enabled(b, t) && |b.cells| == b.n
    ensures Counts(Next(b, t))
  {
    hide Those;
    var p := Next(b, t).threads[t];
    CountMove(b.threads, t, p, InSection);
    CountMove(b.threads, t, p, HasSlot);
    CountMove(b.threads, t, p, HasFilled);
    CountMove(b.threads, t, p, HasItem);
    CountMove(b.threads, t, p, HasEmptied);
    CountMove(b.threads, t, p, Storing);
    CountMove(b.threads, t, p, Loading);
  }

  /** Numbers less than n apart fall into different cells. */
  lemma CellsDiffer(n: nat, j: int, k: int)
    requires 0 <= j < k < j + n
    ensures j % n != k % n
  {
    var d := k / n - j / n;
    assert k % n - j % n == (k - j) - n * d;
    if d >= 1 {
      assert n * d >= n;
    } else {
      assert n * d <= 0;
    }
  }

  lemma ContentsNext(b: Buffer, t: nat)
    requires Inv(b) && Enabled(b, t)
    ensures Contents(Next(b, t))
  {
    match b.threads[t]
    case InsertStore(x) =>
      StoreIsFree(b, t);
      var b2 := Next(b, t);
      forall k | |b2.read| < k <= |b2.written|
        ensures ItemIn(b2.cells, b2.written, k)
      {
        if k < b.rear {
          assert ItemIn(b.cells, b.written, k) && Cell(b, k) != Cell(b, b.rear);
        }
      }
    case RemoveLoad =>
      LoadIsWritten(b, t);
      assert ItemIn(b.cells, b.written, b.front);
    case _ =>
  }

  /** A store goes to a cell that holds no unread item: no slot is overwritten before it is read. */
  lemma StoreIsFree(b: Buffer, t: nat)
    requires Inv(b) && t in b.threads && b.threads[t].InsertStore?
    ensures b.n > 0 && b.rear == |b.written| + 1 && b.rear - |b.read| <= b.n
    ensures forall k :: |b.read| < k <= |b.written| ==> Cell(b, k) != Cell(b, b.rear)
  {
    CountSplit(b.threads, Storing, Loading, InSection);
    CountsThread(b.threads, Storing, t);
    forall k | |b.read| < k <= |b.written|
      ensures Cell(b, k) != Cell(b, b.rear)
    {
      CellsDiffer(b.n, k, b.rear);
    }
  }

  /** A load reads an item that is written and not yet read, the oldest of them. */
  lemma LoadIsWritten(b: Buffer, t: nat)
    requires Inv(b) && t in b.threads && b.threads[t].RemoveLoad?
    ensures b.n > 0 && b.front == |b.read| + 1 <= |b.written|
    ensures b.cells[Cell(b, b.front)] == b.written[|b.read|]
  {
    CountSplit(b.threads, Storing, Loading, InSection);
    CountsThread(b.threads, Loading, t);
    assert ItemIn(b.cells, b.written, b.front);
  }

  // ----- whole runs

  /** A call starts in an idle thread, or a thread takes its next step. */
  datatype Event = StartInsert(t: nat, item: int) | StartRemove(t: nat) | Go(t: nat)

  /** Thread t is in no call. */
  predicate Free(th: Threads, t: nat)
  {
    t !in th || th[t].Idle?
  }

  /** An event that is not possible changes nothing. */
  function Apply(b: Buffer, e: Event): (r: Buffer)
    requires |b.cells| == b.n
    ensures r.n == b.n == |r.cells|
    ensures b.written <= r.written && b.read <= r.read
  {
    match e
    case StartInsert(t, x) => if Free(b.threads, t) then b.(threads := b.threads[t := InsertP(x)]) else b
    case StartRemove(t) => if Free(b.threads, t) then b.(threads := b.threads[t := RemoveP]) else b
    case Go(t) => if Enabled(b, t) then Next(b, t) else b
  }

  lemma InvApply(b: Buffer, e: Event)
    requires Inv(b)
    ensures Inv(Apply(b, e)) && Apply(b, e).n == b.n
  {
    if e.Go? {
      if Enabled(b, e.t) {
        CountsNext(b, e.t);
        ContentsNext(b, e.t);
      }
    } else if Free(b.threads, e.t) {
      StartKeepsCounts(b.threads, e.t, if e.StartInsert? then InsertP(e.item) else RemoveP);
    }
  }

  lemma StartKeepsCounts(th: Threads, t: nat, p: Pc)
    requires t !in th || th[t].Idle?
    requires p.InsertP? || p.RemoveP?
    ensures Count(th[t := p], InSection) == Count(th, InSection)
    ensures Count(th[t := p], HasSlot) == Count(th, HasSlot) && Count(th[t := p], HasFilled) == Count(th, HasFilled)
    ensures Count(th[t := p], HasItem) == Count(th, HasItem) && Count(th[t := p], HasEmptied) == Count(th, HasEmptied)
    ensures Count(th[t := p], Storing) == Count(th, Storing) && Count(th[t := p], Loading) == Count(th, Loading)
  {
    CountStart(th, t, p, InSection);
    CountStart(th, t, p, HasSlot);
    CountStart(th, t, p, HasFilled);
    CountStart(th, t, p, HasItem);
    CountStart(th, t, p, HasEmptied);
    CountStart(th, t, p, Storing);
    CountStart(th, t, p, Loading);
  }

  /** The state after a schedule of events, whatever the interleaving. */
  function Run(b: Buffer, es: seq<Event>): (r: Buffer)
    requires |b.cells| == b.n
    ensures r.n == b.n == |r.cells|
  {
    if es == [] then b else Apply(Run(b, es[..|es| - 1]), es[|es| - 1])
  }

  lemma {:induction false} InvRun(cells: seq<int>, es: seq<Event>)
    ensures Inv(Run(Initial(cells), es))
  {
    if es == [] {
      assert Those(map[], InSection) == Those(map[], HasSlot) == Those(map[], HasFilled) == {};
      assert Those(map[], HasItem) == Those(map[], HasEmptied) == Those(map[], Storing) == Those(map[], Loading) == {};
    } else {
      InvRun(cells, es[..|es| - 1]);
      InvApply(Run(Initial(cells), es[..|es| - 1]), es[|es| - 1]);
    }
  }

  /** First in, first out, with nothing lost or read twice: in every run the items read are the
      first items written, in the same order. */
  lemma ReadIsPrefixOfWritten(cells: seq<int>, es: seq<Event>)
    ensures Run(Initial(cells), es).read <= Run(Initial(cells), es).written
  {
    InvRun(cells, es);
  }

  /** Slots, announced items and calls in flight add up to the capacity in every run. */
  lemma Conservation(cells: seq<int>, es: seq<Event>)
    ensures var b := Run(Initial(cells), es); b.slots + b.items + Count(b.threads, InFlight) == |cells|
  {
    InvRun(cells, es);
    var b := Run(Initial(cells), es);
    CountSplit(b.threads, HasSlot, HasFilled, p => HasSlot(p) || HasFilled(p));
    CountSplit(b.threads, HasItem, HasEmptied, p => HasItem(p) || HasEmptied(p));
    CountSplit(b.threads, p => HasSlot(p) || HasFilled(p), p => HasItem(p) || HasEmptied(p), InFlight);
  }

  /** At most one thread is between P and V of the mutex. */
  lemma MutualExclusion(cells: seq<int>, es: seq<Event>, t: nat, u: nat)
    requires var th := Run(Initial(cells), es).threads;
      t in th && u in th && InSection(th[t]) && InSection(th[u])
    ensures t == u
  {
    InvRun(cells, es);
    var b := Run(Initial(cells), es);
    AtMostOne(b.threads, InSection, t, u);
  }

  /** No deadlock: with a capacity of at least one, an insert and a remove that have both started
      are never stuck together; some thread has a step to take. */
  lemma SomeStepEnabled(cells: seq<int>, es: seq<Event>, t: nat, u: nat)
    requires |cells| > 0
    requires var th := Run(Initial(cells), es).threads; t in th && u in th && Inserting(th[t]) && Removing(th[u])
    ensures exists w :: Enabled(Run(Initial(cells), es), w)
  {
    InvRun(cells, es);
    var b := Run(Initial(cells), es);
    if w :| w in b.threads && (InSection(b.threads[w]) || b.threads[w].InsertV? || b.threads[w].RemoveV?) {
      assert Enabled(b, w);
    } else {
      assert Those(b.threads, InSection) == {};
      if w :| w in b.threads && (b.threads[w].InsertLock? || b.threads[w].RemoveLock?) {
        assert Enabled(b, w);
      } else {
        assert Those(b.threads, HasSlot) == Those(b.threads, HasFilled) == {};
        assert Those(b.threads, HasItem) == Those(b.threads, HasEmptied) == {};
        assert b.slots + b.items == |cells|;
        assert Enabled(b, t) || Enabled(b, u);
      }
    }
  }

  // ----- what callers hand in and get back

  datatype Entry = Entry(t: nat, item: int)

  /** The four moments of an item: sbuf_insert is called with it, a cell is written with it, a cell is
      read, sbuf_remove returns it. */
  datatype Moment = Asked | Stored | Loaded | Returned

  function By(t: nat, items: seq<int>): (log: seq<Entry>)
    ensures |log| == |items|
  {
    seq(|items|, i requires 0 <= i < |items| => Entry(t, items[i]))
  }

  /** What event e adds to the log of one kind of moment. */
  function Marks(b: Buffer, e: Event, m: Moment): seq<Entry>
    requires |b.cells| == b.n
  {
    match m
    case Asked => if e.StartInsert? && Free(b.threads, e.t) then [Entry(e.t, e.item)] else []
    case Stored => By(e.t, Apply(b, e).written[|b.written|..])
    case Loaded => By(e.t, Apply(b, e).read[|b.read|..])
    case Returned =>
      if e.Go? && e.t in b.threads && b.threads[e.t].RemoveV? then [Entry(e.t, b.threads[e.t].got)] else []
  }

  /** Who did what with which item, in the order in which it happened. */
  function Log(cells: seq<int>, es: seq<Event>, m: Moment): seq<Entry>
  {
    if es == [] then []
    else Log(cells, es[..|es| - 1], m) + Marks(Run(Initial(cells), es[..|es| - 1]), es[|es| - 1], m)
  }

  function Items(log: seq<Entry>): (items: seq<int>)
    ensures |items| == |log|
  {
    seq(|log|, i requires 0 <= i < |log| => log[i].item)
  }

  /** The items of thread t alone. */
  function Of(log: seq<Entry>, t: nat): seq<int>
  {
    if log == [] then []
    else Of(log[..|log| - 1], t) + if log[|log| - 1].t == t then [log[|log| - 1].item] else []
  }

  lemma {:induction false} OfConcat(f: seq<Entry>, g: seq<Entry>, t: nat)
    ensures Of(f + g, t) == Of(f, t) + Of(g, t)
  {
    if g == [] {
      assert f + g == f;
    } else {
      assert (f + g)[..|f + g| - 1] == f + g[..|g| - 1];
      OfConcat(f, g[..|g| - 1], t);
    }
  }

  /** The item a thread at p was called with and has not stored yet. */
  function Carried(p: Pc): seq<int>
  {
    match p
    case InsertP(x) => [x]
    case InsertLock(x) => [x]
    case InsertBump(x) => [x]
    case InsertStore(x) => [x]
    case _ => []
  }

  /** The item it has loaded and not returned yet. */
  function Got(p: Pc): seq<int>
  {
    match p
    case RemoveUnlock(x) => [x]
    case RemoveV(x) => [x]
    case _ => []
  }

  function At(th: Threads, t: nat): Pc
  {
    if t in th then th[t] else Idle
  }

  /** What is stored is what the storing thread carried, what is loaded is what the loading thread has
      got afterwards. */
  lemma MarksExact(b: Buffer, e: Event)
    requires |b.cells| == b.n
    ensures var p, q := At(b.threads, e.t), At(Apply(b, e).threads, e.t);
      && Marks(b, e, Stored) == (if e.Go? && p.InsertStore? then [Entry(e.t, p.item)] else [])
      && Marks(b, e, Loaded) == (if e.Go? && p.RemoveLoad? then [Entry(e.t, q.got)] else [])
      && (p == q || (e.Go? && Enabled(b, e.t)) || (!e.Go? && Free(b.threads, e.t)))
  {
    if e.Go? && Enabled(b, e.t) {
      Appended(b.written, Apply(b, e).written);
      Appended(b.read, Apply(b, e).read);
    }
  }

  lemma Appended(s: seq<int>, r: seq<int>)
    requires s <= r
    ensures r == s ==> r[|s|..] == []
    ensures forall x :: r == s + [x] ==> r[|s|..] == [x]
  {
  }

  lemma OfOne(x: Entry, t: nat)
    ensures Of([], t) == [] && Of([x], t) == if x.t == t then [x.item] else []
  {
    assert [x][..0] == [];
  }

  /** A thread other than the one that moves. */
  lemma OthersStay(b: Buffer, e: Event, t: nat)
    requires |b.cells| == b.n && t != e.t
    ensures At(Apply(b, e).threads, t) == At(b.threads, t)
    ensures forall m :: Of(Marks(b, e, m), t) == []
  {
    MarksExact(b, e);
    forall m
      ensures Of(Marks(b, e, m), t) == []
    {
      OfOne(if Marks(b, e, m) == [] then Entry(0, 0) else Marks(b, e, m)[0], t);
      assert Marks(b, e, m) == [] || Marks(b, e, m) == [Marks(b, e, m)[0]];
    }
  }

  /** One event neither loses nor changes an item its thread has in hand. */
  lemma HandsApply(b: Buffer, e: Event)
    requires |b.cells| == b.n
    ensures var p, q := At(b.threads, e.t), At(Apply(b, e).threads, e.t);
      && Carried(p) + Items(Marks(b, e, Asked)) == Items(Marks(b, e, Stored)) + Carried(q)
      && Got(p) + Items(Marks(b, e, Loaded)) == Items(Marks(b, e, Returned)) + Got(q)
  {
    MarksExact(b, e);
    hide By, Items;
    ItemsOne(Entry(0, 0));
    forall x
      ensures Items([x]) == [x.item]
    {
      ItemsOne(x);
    }
  }

  lemma ItemsOne(x: Entry)
    ensures Items([]) == [] && Items([x]) == [x.item]
  {
  }

  lemma OwnItems(b: Buffer, e: Event, m: Moment)
    requires |b.cells| == b.n
    ensures Of(Marks(b, e, m), e.t) == Items(Marks(b, e, m))
  {
    MarksExact(b, e);
    var x := if Marks(b, e, m) == [] then Entry(0, 0) else Marks(b, e, m)[0];
    OfOne(x, e.t);
    ItemsOne(x);
    assert Marks(b, e, m) == [] || Marks(b, e, m) == [x];
  }

  /** In every run, for every thread: the items it stored are those it was called with, in order, except
      for the one it has not stored yet; and the items it returned are those it loaded, in order, except
      for the one it has not returned yet. */
  lemma {:induction false} CallsKeepItems(cells: seq<int>, es: seq<Event>, t: nat)
    ensures var p := At(Run(Initial(cells), es).threads, t);
      && Of(Log(cells, es, Asked), t) == Of(Log(cells, es, Stored), t) + Carried(p)
      && Of(Log(cells, es, Loaded), t) == Of(Log(cells, es, Returned), t) + Got(p)
  {
    hide Carried, Got, Marks, Apply, Items, Of;
    if es == [] {
      NothingInHand(t);
    } else {
      var front, e := es[..|es| - 1], es[|es| - 1];
      var b := Run(Initial(cells), front);
      CallsKeepItems(cells, front, t);
      forall m
        ensures Of(Log(cells, es, m), t) == Of(Log(cells, front, m), t) + Of(Marks(b, e, m), t)
      {
        OfConcat(Log(cells, front, m), Marks(b, e, m), t);
      }
      InHandNext(b, e, t);
      var p, q := At(b.threads, t), At(Apply(b, e).threads, t);
      Regroup(Of(Log(cells, front, Stored), t), Carried(p), Of(Marks(b, e, Asked), t), Of(Marks(b, e, Stored), t), Carried(q));
      Regroup(Of(Log(cells, front, Returned), t), Got(p), Of(Marks(b, e, Loaded), t), Of(Marks(b, e, Returned), t), Got(q));
    }
  }

  lemma Regroup(s: seq<int>, p: seq<int>, a: seq<int>, b: seq<int>, q: seq<int>)
    requires p + a == b + q
    ensures s + p + a == s + b + q
  {
    assert s + p + a == s + (p + a) && s + b + q == s + (b + q);
  }

  lemma NothingInHand(t: nat)
    ensures Of([], t) == Carried(At(map[], t)) == Got(At(map[], t)) == []
  {
  }

  lemma InHandNext(b: Buffer, e: Event, t: nat)
    requires |b.cells| == b.n
    ensures var p, q := At(b.threads, t), At(Apply(b, e).threads, t);
      && Carried(p) + Of(Marks(b, e, Asked), t) == Of(Marks(b, e, Stored), t) + Carried(q)
      && Got(p) + Of(Marks(b, e, Loaded), t) == Of(Marks(b, e, Returned), t) + Got(q)
  {
    hide Marks, Carried, Got, Apply, Items, Of;
    if t == e.t {
      HandsApply(b, e);
      OwnItems(b, e, Asked);
      OwnItems(b, e, Stored);
      OwnItems(b, e, Loaded);
      OwnItems(b, e, Returned);
    } else {
      OthersStay(b, e, t);
    }
  }

  /** The items stored are those written, in order; the items loaded are those read. */
  lemma {:induction false} LogsAreHistories(cells: seq<int>, es: seq<Event>)
    ensures Items(Log(cells, es, Stored)) == Run(Initial(cells), es).written
    ensures Items(Log(cells, es, Loaded)) == Run(Initial(cells), es).read
  {
    if es != [] {
      LogsAreHistories(cells, es[..|es| - 1]);
      var b, e := Run(Initial(cells), es[..|es| - 1]), es[|es| - 1];
      ItemsConcat(Log(cells, es[..|es| - 1], Stored), Marks(b, e, Stored));
      ItemsConcat(Log(cells, es[..|es| - 1], Loaded), Marks(b, e, Loaded));
      ItemsBy(e.t, Apply(b, e).written[|b.written|..]);
      ItemsBy(e.t, Apply(b, e).read[|b.read|..]);
    }
  }

  lemma ItemsConcat(f: seq<Entry>, g: seq<Entry>)
    ensures Items(f + g) == Items(f) + Items(g)
  {
  }

  lemma ItemsBy(t: nat, items: seq<int>)
    ensures Items(By(t, items)) == items
  {
  }

  /** The threads that carry item x, and those that have got it. */
  function Carries(x: int): Pc -> bool
  {
    p => Carried(p) == [x]
  }

  function HasGot(x: int): Pc -> bool
  {
    p => Got(p) == [x]
  }

  lemma CountApply(b: Buffer, e: Event, f: Pc -> bool)
    requires |b.cells| == b.n && !f(Idle)
    ensures var r := Apply(b, e);
      Count(r.threads, f) == Count(b.threads, f) - One(f(At(b.threads, e.t))) + One(f(At(r.threads, e.t)))
  {
    hide Those;
    var r := Apply(b, e);
    if r.threads != b.threads {
      assert r.threads == b.threads[e.t := r.threads[e.t]];
      if e.t in b.threads {
        CountMove(b.threads, e.t, r.threads[e.t], f);
      } else {
        CountNew(b.threads, e.t, r.threads[e.t], f);
      }
    }
  }

  /** At most one item in hand. */
  lemma OneInHand(p: Pc, x: int)
    ensures multiset(Carried(p))[x] == One(Carries(x)(p)) && multiset(Got(p))[x] == One(HasGot(x)(p))
  {
  }

  lemma MarkedOnce(b: Buffer, e: Event, x: int)
    requires |b.cells| == b.n
    ensures var p, q := At(b.threads, e.t), At(Apply(b, e).threads, e.t);
      && One(Carries(x)(p)) + multiset(Items(Marks(b, e, Asked)))[x] == multiset(Items(Marks(b, e, Stored)))[x] + One(Carries(x)(q))
      && One(HasGot(x)(p)) + multiset(Items(Marks(b, e, Loaded)))[x] == multiset(Items(Marks(b, e, Returned)))[x] + One(HasGot(x)(q))
  {
    hide Marks, Carried, Got, Apply, Items, Carries, HasGot;
    var p, q := At(b.threads, e.t), At(Apply(b, e).threads, e.t);
    HandsApply(b, e);
    OneInHand(p, x);
    OneInHand(q, x);
    SameCount(Carried(p), Items(Marks(b, e, Asked)), Items(Marks(b, e, Stored)), Carried(q), x);
    SameCount(Got(p), Items(Marks(b, e, Loaded)), Items(Marks(b, e, Returned)), Got(q), x);
  }

  lemma SameCount(a: seq<int>, b: seq<int>, c: seq<int>, d: seq<int>, x: int)
    requires a + b == c + d
    ensures multiset(a)[x] + multiset(b)[x] == multiset(c)[x] + multiset(d)[x]
  {
    assert multiset(a + b) == multiset(a) + multiset(b) && multiset(c + d) == multiset(c) + multiset(d);
    assert multiset(a + b)[x] == multiset(c + d)[x];
  }

  lemma {:induction false} CountsOfItem(cells: seq<int>, es: seq<Event>, x: int)
    ensures var th := Run(Initial(cells), es).threads;
      && multiset(Items(Log(cells, es, Asked)))[x] == multiset(Items(Log(cells, es, Stored)))[x] + Count(th, Carries(x))
      && multiset(Items(Log(cells, es, Loaded)))[x] == multiset(Items(Log(cells, es, Returned)))[x] + Count(th, HasGot(x))
  {
    if es == [] {
      assert Those(map[], Carries(x)) == Those(map[], HasGot(x)) == {};
    } else {
      var front, e := es[..|es| - 1], es[|es| - 1];
      var b := Run(Initial(cells), front);
      CountsOfItem(cells, front, x);
      MarkedOnce(b, e, x);
      CountApply(b, e, Carries(x));
      CountApply(b, e, HasGot(x));
      forall m
        ensures multiset(Items(Log(cells, es, m)))[x] == multiset(Items(Log(cells, front, m)))[x] + multiset(Items(Marks(b, e, m)))[x]
      {
        ItemsConcat(Log(cells, front, m), Marks(b, e, m));
      }
    }
  }

  /** No item is lost, invented or changed in any run: as often as x was handed to sbuf_insert, it is
      still carried to the buffer, lies in the buffer unread, is being brought back, or was returned by
      sbuf_remove. */
  lemma ItemsConserved(cells: seq<int>, es: seq<Event>)
    ensures var b := Run(Initial(cells), es);
      && b.read <= b.written
      && forall x ::
          && multiset(Items(Log(cells, es, Asked)))[x] == multiset(b.written)[x] + Count(b.threads, Carries(x))
          && multiset(b.read)[x] == multiset(Items(Log(cells, es, Returned)))[x] + Count(b.threads, HasGot(x))
          && multiset(b.written)[x] == multiset(b.read)[x] + multiset(b.written[|b.read|..])[x]
  {
    hide Log, Items, Those, Run;
    var b := Run(Initial(cells), es);
    LogsAreHistories(cells, es);
    ReadIsPrefixOfWritten(cells, es);
    assert b.written == b.read + b.written[|b.read|..];
    forall x
      ensures multiset(Items(Log(cells, es, Asked)))[x] == multiset(b.written)[x] + Count(b.threads, Carries(x))
      ensures multiset(b.read)[x] == multiset(Items(Log(cells, es, Returned)))[x] + Count(b.threads, HasGot(x))
    {
      CountsOfItem(cells, es, x);
    }
  }

  /** The shared structure itself, changed in place one step at a time. */
  class SharedBuffer {
    const buf: array<int>
    var rear: int
    var front: int
    var mutex: int
    var slots: int
    var items: int
    var threads: Threads
    ghost var written: seq<int>
    ghost var read: seq<int>

    ghost function State(): Buffer
      reads this, buf
    {
      Buffer(buf.Length, rear, front, mutex, slots, items, threads, buf[..], written, read)
    }

    constructor (n: nat)
      ensures State() == Initial(buf[..]) && buf.Length == n && fresh(buf) && Inv(State())
    {
      buf := new int[n];
      rear, front, mutex, slots, items, threads := 0, 0, 1, n, 0, map[];
      written, read := [], [];
      new;
      InvRun(buf[..], []);
    }

    /** An idle or new thread t calls sbuf_insert. */
    method StartInsert(t: nat, item: int)
      requires Inv(State()) && Free(threads, t)
      modifies this`threads
      ensures Inv(State()) && State() == Apply(old(State()), Event.StartInsert(t, item))
      ensures t in threads && threads[t] == InsertP(item)
    {
      InvApply(State(), Event.StartInsert(t, item));
      threads := threads[t := InsertP(item)];
    }

    /** An idle or new thread t calls sbuf_remove. */
    method StartRemove(t: nat)
      requires Inv(State()) && Free(threads, t)
      modifies this`threads
      ensures Inv(State()) && State() == Apply(old(State()), Event.StartRemove(t))
      ensures t in threads && threads[t] == RemoveP
    {
      InvApply(State(), Event.StartRemove(t));
      threads := threads[t := RemoveP];
    }

    /** Lets thread t take its next step if it has one. */
    method Step(t: nat) returns (moved: bool)
      requires Inv(State())
      modifies this, buf
      ensures Inv(State()) && moved == Enabled(old(State()), t)
      ensures State() == if moved then Next(old(State()), t) else old(State())
    {
      hide Counts, Contents;
      moved := t in threads && CanStep(threads[t], mutex, slots, items);
      if !moved {
        return;
      }
      ghost var b := State();
      CountsNext(b, t);
      ContentsNext(b, t);
      match threads[t] {
        case InsertP(x) => slots, threads := slots - 1, threads[t := InsertLock(x)];
        case InsertLock(x) => mutex, threads := mutex - 1, threads[t := InsertBump(x)];
        case InsertBump(x) => rear, threads := rear + 1, threads[t := InsertStore(x)];
        case InsertStore(x) =>
          StoreIsFree(b, t);
          buf[rear % buf.Length] := x;
          written := written + [x];
          threads := threads[t := InsertUnlock];
        case InsertUnlock => mutex, threads := mutex + 1, threads[t := InsertV];
        case InsertV => items, threads := items + 1, threads[t := Idle];
        case RemoveP => items, threads := items - 1, threads[t := RemoveLock];
        case RemoveLock => mutex, threads := mutex - 1, threads[t := RemoveBump];
        case RemoveBump => front, threads := front + 1, threads[t := RemoveLoad];
        case RemoveLoad =>
          LoadIsWritten(b, t);
          var x := buf[front % buf.Length];
          read := read + [x];
          threads := threads[t := RemoveUnlock(x)];
        case RemoveUnlock(x) => mutex, threads := mutex + 1, threads[t := RemoveV(x)];
        case RemoveV(x) => slots, threads := slots + 1, threads[t := Idle];
      }
    }
  }
}
