/** The readers-writers protocol around the proxy's cache list (check_cache and cache_URL in
    sp_06_proxylab/proxylab-handout/proxy.c) under any interleaving of any number of threads.
    Every P, every V and every access to shared data is one step. */
module ReadersWriters {
  import opened ThreadCounts

  /** Where a thread stands.  The name says what its next step is. */
  datatype Pc =
    | Idle
    // check_cache
    | EnterLock      // P(&r_mutex)
    | EnterInc       // read_cnt++
    | EnterTest      // if (read_cnt == 1)
    | EnterWait      // P(&w_mutex)
    | EnterUnlock    // V(&r_mutex)
    | Search         // find(uri)
    | HitLock        // P(&u_mutex)
    | HitServe       // send the object, set access_time
    | HitUnlock      // V(&u_mutex)
    | HitUnlock2     // flag = 1; V(&u_mutex)
    | LeaveLock      // P(&r_mutex)
    | LeaveDec       // read_cnt--
    | LeaveTest      // if (read_cnt == 0)
    | LeaveSignal    // V(&w_mutex)
    | LeaveUnlock    // V(&r_mutex)
    // cache_URL
    | WriteWait      // P(&w_mutex)
    | WriteList      // append to the list
    | WriteSignal    // V(&w_mutex)

  type Threads = map<nat, Pc>

  /** Between P and V of r_mutex. */
  predicate Counter(p: Pc)
  {
    p.EnterInc? || p.EnterTest? || p.EnterWait? || p.EnterUnlock? || p.LeaveDec? || p.LeaveTest? || p.LeaveSignal? || p.LeaveUnlock?
  }

  /** Between increment and decrement of read_cnt. */
  predicate Counted(p: Pc)
  {
    p.EnterTest? || p.EnterWait? || Reading(p)
  }

  /** Let in to the list: past the entry test, not yet counted out. */
  predicate Reading(p: Pc)
  {
    p.EnterUnlock? || p.Search? || p.HitLock? || p.HitServe? || p.HitUnlock? || p.HitUnlock2? || p.LeaveLock? || p.LeaveDec?
  }

  predicate Writing(p: Pc) { p.WriteList? || p.WriteSignal? }

  /** Between P and the first V of u_mutex. */
  predicate Serving(p: Pc) { p.HitServe? || p.HitUnlock? }

  /** read_cnt and the semaphores, with the history: whether the readers as a group hold w_mutex,
      and how many hits have been served. */
  datatype Shared = Shared(readCnt: int, r: int, w: int, u: int, threads: Threads, group: bool, served: nat)

  const INITIAL := Shared(0, 1, 1, 1, map[], false, 0)

  predicate Enabled(s: Shared, t: nat)
  {
    t in s.threads &&
    match s.threads[t]
    case Idle => false
    case EnterLock => s.r > 0
    case EnterWait => s.w > 0
    case HitLock => s.u > 0
    case LeaveLock => s.r > 0
    case WriteWait => s.w > 0
    case _ => true
  }

  /** One step of thread t; hit is what find returns. */
  function Next(s: Shared, t: nat, hit: bool): Shared
    requires Enabled(s, t)
  {
    match s.threads[t]
    case EnterLock => s.(r := s.r - 1, threads := s.threads[t := EnterInc])
    case EnterInc => s.(readCnt := s.readCnt + 1, threads := s.threads[t := EnterTest])
    case EnterTest => s.(threads := s.threads[t := if s.readCnt == 1 then EnterWait else EnterUnlock])
    case EnterWait => s.(w := s.w - 1, group := true, threads := s.threads[t := EnterUnlock])
    case EnterUnlock => s.(r := s.r + 1, threads := s.threads[t := Search])
    case Search => s.(threads := s.threads[t := if hit then HitLock else LeaveLock])
    case HitLock => s.(u := s.u - 1, threads := s.threads[t := HitServe])
    case HitServe => s.(threads := s.threads[t := HitUnlock])
    case HitUnlock => s.(u := s.u + 1, threads := s.threads[t := HitUnlock2])
    case HitUnlock2 => s.(u := s.u + 1, served := s.served + 1, threads := s.threads[t := LeaveLock])
    case LeaveLock => s.(r := s.r - 1, threads := s.threads[t := LeaveDec])
    case LeaveDec => s.(readCnt := s.readCnt - 1, threads := s.threads[t := LeaveTest])
    case LeaveTest => s.(threads := s.threads[t := if s.readCnt == 0 then LeaveSignal else LeaveUnlock])
    case LeaveSignal => s.(w := s.w + 1, group := false, threads := s.threads[t := LeaveUnlock])
    case LeaveUnlock => s.(r := s.r + 1, threads := s.threads[t := Idle])
    case WriteWait => s.(w := s.w - 1, threads := s.threads[t := WriteList])
    case WriteList => s.(threads := s.threads[t := WriteSignal])
    case WriteSignal => s.(w := s.w + 1, threads := s.threads[t := Idle])
  }

  ghost predicate Counts(s: Shared)
  {
    && s.r >= 0 && s.w >= 0 && s.u >= 0
    && s.r + Count(s.threads, Counter) == 1
    && s.readCnt == Count(s.threads, Counted)
    && s.w + Count(s.threads, Writing) + One(s.group) == 1
    && s.u + Count(s.threads, Serving) == 1 + s.served
  }

  /** How the group's hold on w_mutex depends on the thread that is changing read_cnt. */
  predicate GroupRule(s: Shared, p: Pc)
  {
    match p
    case EnterTest => s.group <==> s.readCnt > 1
    case EnterWait => !s.group && s.readCnt == 1
    case LeaveTest => s.group
    case LeaveSignal => s.group && s.readCnt == 0
    case _ => s.group <==> s.readCnt > 0
  }

  ghost predicate Inv(s: Shared)
  {
    && Counts(s)
    && (forall t :: t in s.threads && Counter(s.threads[t]) ==> GroupRule(s, s.threads[t]))
    && (Count(s.threads, Counter) == 0 ==> (s.group <==> s.readCnt > 0))
  }

  lemma OneThreadMoves(s: Shared, t: nat, hit: bool)
    requires Enabled(s, t)
    ensures Next(s, t, hit).threads == s.threads[t := Next(s, t, hit).threads[t]]
  {
  }

  lemma CounterNext(s: Shared, t: nat, hit: bool)
    requires Counts(s) && Enabled(s, t)
    ensures Next(s, t, hit).r >= 0 && Next(s, t, hit).r + Count(Next(s, t, hit).threads, Counter) == 1
  {
    hide Those, Counted, Reading, Writing, Serving;
    OneThreadMoves(s, t, hit);
    CountMove(s.threads, t, Next(s, t, hit).threads[t], Counter);
  }

  lemma CountedNext(s: Shared, t: nat, hit: bool)
    requires Counts(s) && Enabled(s, t)
    ensures Next(s, t, hit).readCnt == Count(Next(s, t, hit).threads, Counted)
  {
    hide Those, Counter, Writing, Serving;
    OneThreadMoves(s, t, hit);
    CountMove(s.threads, t, Next(s, t, hit).threads[t], Counted);
  }

  lemma WritingNext(s: Shared, t: nat, hit: bool)
    requires Counts(s) && Enabled(s, t) && (Counter(s.threads[t]) ==> GroupRule(s, s.threads[t]))
    ensures Next(s, t, hit).w >= 0
    ensures Next(s, t, hit).w + Count(Next(s, t, hit).threads, Writing) + One(Next(s, t, hit).group) == 1
  {
    hide Those, Counted, Reading, Serving;
    OneThreadMoves(s, t, hit);
    CountMove(s.threads, t, Next(s, t, hit).threads[t], Writing);
  }

  lemma ServingNext(s: Shared, t: nat, hit: bool)
    requires Counts(s) && Enabled(s, t)
    ensures Next(s, t, hit).u >= 0 && Next(s, t, hit).u + Count(Next(s, t, hit).threads, Serving) == 1 + Next(s, t, hit).served
  {
    hide Those, Counter, Counted, Reading, Writing;
    OneThreadMoves(s, t, hit);
    CountMove(s.threads, t, Next(s, t, hit).threads[t], Serving);
  }

  lemma CountsNext(s: Shared, t: nat, hit: bool)
    requires Inv(s) && Enabled(s, t)
    ensures Counts(Next(s, t, hit))
  {
    hide Next;
    CounterNext(s, t, hit);
    CountedNext(s, t, hit);
    WritingNext(s, t, hit);
    ServingNext(s, t, hit);
  }

  lemma CountedPositive(s: Shared, t: nat)
    requires Counts(s) && t in s.threads
    ensures s.threads[t].EnterTest? || s.threads[t].LeaveDec? ==> s.readCnt >= 1
    ensures s.readCnt >= 0
  {
    if Counted(s.threads[t]) {
      CountsThread(s.threads, Counted, t);
    }
  }

  /** The rule holds for the thread that moved; if it is not at the counter now, the rule for an
      unattended counter does. */
  lemma OwnRule(s: Shared, t: nat, hit: bool)
    requires Inv(s) && Enabled(s, t)
    ensures var n := Next(s, t, hit);
      if Counter(n.threads[t]) then GroupRule(n, n.threads[t])
      else Counter(s.threads[t]) ==> (n.group <==> n.readCnt > 0)
  {
    CountedPositive(s, t);
    hide Those, Counted, Writing, Serving, Reading;
    if s.threads[t].EnterLock? || s.threads[t].LeaveLock? {
      assert Count(s.threads, Counter) == 0;
    } else if Counter(s.threads[t]) {
      assert GroupRule(s, s.threads[t]);
    }
  }

  /** A thread away from the counter leaves the count and the group's hold alone. */
  lemma AwayFromCounter(s: Shared, t: nat, hit: bool)
    requires Enabled(s, t) && !Counter(s.threads[t])
    ensures Next(s, t, hit).readCnt == s.readCnt && Next(s, t, hit).group == s.group
    ensures forall v :: v in s.threads && v != t ==> v in Next(s, t, hit).threads && Next(s, t, hit).threads[v] == s.threads[v]
  {
  }

  lemma InvNext(s: Shared, t: nat, hit: bool)
    requires Inv(s) && Enabled(s, t)
    ensures Inv(Next(s, t, hit))
  {
    hide Those, Next, Counted, Writing, Serving;
    CountsNext(s, t, hit);
    OwnRule(s, t, hit);
    OneThreadMoves(s, t, hit);
    var n := Next(s, t, hit);
    CountMove(s.threads, t, n.threads[t], Counter);
    if !Counter(s.threads[t]) {
      AwayFromCounter(s, t, hit);
    } else {
      CountsThread(s.threads, Counter, t);
    }
    forall v | v in n.threads && Counter(n.threads[v])
      ensures GroupRule(n, n.threads[v])
    {
      if v != t && Counter(s.threads[t]) {
        AtMostOne(s.threads, Counter, t, v);
      }
    }
  }

  // ----- whole runs

  /** A call starts in an idle thread, or a thread takes its next step. */
  datatype Event = StartRead(t: nat) | StartWrite(t: nat) | Go(t: nat, hit: bool)

  /** An event that is not possible changes nothing. */
  function Apply(s: Shared, e: Event): Shared
  {
    match e
    case StartRead(t) => if t !in s.threads || s.threads[t].Idle? then s.(threads := s.threads[t := EnterLock]) else s
    case StartWrite(t) => if t !in s.threads || s.threads[t].Idle? then s.(threads := s.threads[t := WriteWait]) else s
    case Go(t, hit) => if Enabled(s, t) then Next(s, t, hit) else s
  }

  /** The state after a schedule of events, whatever the interleaving. */
  function Run(es: seq<Event>): Shared
  {
    if es == [] then INITIAL else Apply(Run(es[..|es| - 1]), es[|es| - 1])
  }

  lemma InvStart(s: Shared, t: nat, p: Pc)
    requires Inv(s) && (t !in s.threads || s.threads[t].Idle?) && (p.EnterLock? || p.WriteWait?)
    ensures Inv(s.(threads := s.threads[t := p]))
  {
    hide Those;
    CountStart(s.threads, t, p, Counter);
    CountStart(s.threads, t, p, Counted);
    CountStart(s.threads, t, p, Writing);
    CountStart(s.threads, t, p, Serving);
  }

  lemma {:induction false} InvRun(es: seq<Event>)
    ensures Inv(Run(es))
  {
    if es == [] {
      assert Those(INITIAL.threads, Counter) == Those(INITIAL.threads, Counted) == {};
      assert Those(INITIAL.threads, Writing) == Those(INITIAL.threads, Serving) == {};
    } else {
      var s, e := Run(es[..|es| - 1]), es[|es| - 1];
      InvRun(es[..|es| - 1]);
      if e.Go? {
        if Enabled(s, e.t) {
          InvNext(s, e.t, e.hit);
        }
      } else if e.t !in s.threads || s.threads[e.t].Idle? {
        InvStart(s, e.t, if e.StartRead? then EnterLock else WriteWait);
      }
    }
  }

  /** A reader that has been let in means the readers hold w_mutex. */
  lemma ReaderHoldsGroup(s: Shared, t: nat)
    requires Inv(s) && t in s.threads && Reading(s.threads[t])
    ensures s.group
  {
    CountsThread(s.threads, Counted, t);
    if h :| h in s.threads && Counter(s.threads[h]) {
      assert GroupRule(s, s.threads[h]);
      if Counted(s.threads[h]) && s.readCnt == 1 {
        AtMostOne(s.threads, Counted, t, h);
      }
    } else {
      assert Those(s.threads, Counter) == {};
    }
  }

  /** In every run a writer at the list excludes every reader and every other writer, and w_mutex is
      0 while anyone is at the list. */
  lemma WriterExcludesAll(es: seq<Event>, t: nat, v: nat)
    requires var th := Run(es).threads; t in th && v in th && Writing(th[t]) && (Writing(th[v]) || Reading(th[v]))
    ensures t == v
  {
    InvRun(es);
    var s := Run(es);
    CountsThread(s.threads, Writing, t);
    if Writing(s.threads[v]) {
      AtMostOne(s.threads, Writing, t, v);
    } else {
      ReaderHoldsGroup(s, v);
      assert false;
    }
  }

  lemma SemaphoreTaken(es: seq<Event>, t: nat)
    requires var th := Run(es).threads; t in th && (Writing(th[t]) || Reading(th[t]))
    ensures Run(es).w == 0
  {
    InvRun(es);
    var s := Run(es);
    if Writing(s.threads[t]) {
      CountsThread(s.threads, Writing, t);
    } else {
      ReaderHoldsGroup(s, t);
    }
  }

  /** read_cnt is the number of readers between increment and decrement. */
  lemma ReadCountExact(es: seq<Event>)
    ensures Run(es).readCnt == Count(Run(es).threads, Counted)
  {
    InvRun(es);
  }

  /** No deadlock: while any call is under way, some thread has a step to take. */
  lemma SomeStepEnabled(es: seq<Event>, t: nat)
    requires t in Run(es).threads && !Run(es).threads[t].Idle?
    ensures exists v :: Enabled(Run(es), v)
  {
    InvRun(es);
    var s := Run(es);
    if v :| v in s.threads && (Writing(s.threads[v]) || Serving(s.threads[v])) {
      assert Enabled(s, v);
    } else {
      assert Those(s.threads, Writing) == Those(s.threads, Serving) == {};
      if v :| v in s.threads && Counter(s.threads[v]) {
        assert GroupRule(s, s.threads[v]);
        assert Enabled(s, v);
      } else {
        assert Those(s.threads, Counter) == {};
        if v :| v in s.threads && Counted(s.threads[v]) {
          assert Enabled(s, v);
        } else {
          assert Those(s.threads, Counted) == {};
          assert Enabled(s, t);
        }
      }
    }
  }

  // ----- the third semaphore, released twice on a hit

  /** u_mutex after any run: every served hit leaves it one higher than it started. */
  lemma UpdateSemaphoreDrifts(es: seq<Event>)
    ensures Run(es).u + Count(Run(es).threads, Serving) == 1 + Run(es).served
  {
    InvRun(es);
  }

  // ----- every call does its work once

  /** Moments counted below: calls begin, searches are made, objects are found, objects are appended. */
  datatype Moment = ReadBegun | WriteBegun | Searched | Found | Appended

  /** Event e is such a moment in state s. */
  predicate Happens(s: Shared, e: Event, m: Moment)
  {
    var at := if e.t in s.threads then s.threads[e.t] else Idle;
    match m
    case ReadBegun => e.StartRead? && at.Idle?
    case WriteBegun => e.StartWrite? && at.Idle?
    case Searched => e.Go? && at.Search?
    case Found => e.Go? && at.Search? && e.hit
    case Appended => e.Go? && at.WriteList?
  }

  function Times(es: seq<Event>, m: Moment): nat
  {
    if es == [] then 0 else Times(es[..|es| - 1], m) + One(Happens(Run(es[..|es| - 1]), es[|es| - 1], m))
  }

  predicate BeforeSearch(p: Pc) { p.EnterLock? || p.EnterInc? || p.EnterTest? || p.EnterWait? || p.EnterUnlock? || p.Search? }

  predicate Hitting(p: Pc) { p.HitLock? || p.HitServe? || p.HitUnlock? || p.HitUnlock2? }

  predicate BeforeAppend(p: Pc) { p.WriteWait? || p.WriteList? }

  lemma CountApply(s: Shared, e: Event, f: Pc -> bool)
    requires !f(Idle)
    ensures var n := Apply(s, e);
      e.t !in n.threads || (var was := if e.t in s.threads then s.threads[e.t] else Idle;
        Count(n.threads, f) == Count(s.threads, f) - One(f(was)) + One(f(n.threads[e.t])))
    ensures e.t !in Apply(s, e).threads ==> Apply(s, e).threads == s.threads
  {
    hide Those;
    var n := Apply(s, e);
    if e.Go? && Enabled(s, e.t) {
      OneThreadMoves(s, e.t, e.hit);
    }
    if e.t in s.threads {
      CountMove(s.threads, e.t, n.threads[e.t], f);
      assert n.threads == s.threads[e.t := n.threads[e.t]];
    } else if e.t in n.threads {
      CountNew(s.threads, e.t, n.threads[e.t], f);
    }
  }

  lemma WorkApply(s: Shared, e: Event)
    ensures var n := Apply(s, e);
      && Count(n.threads, BeforeSearch) == Count(s.threads, BeforeSearch) + One(Happens(s, e, ReadBegun)) - One(Happens(s, e, Searched))
      && n.served + Count(n.threads, Hitting) == s.served + Count(s.threads, Hitting) + One(Happens(s, e, Found))
      && Count(n.threads, BeforeAppend) == Count(s.threads, BeforeAppend) + One(Happens(s, e, WriteBegun)) - One(Happens(s, e, Appended))
  {
    hide Those;
    CountApply(s, e, BeforeSearch);
    CountApply(s, e, Hitting);
    CountApply(s, e, BeforeAppend);
  }

  /** In every run each reader searches once, each object found is served once, and each writer appends
      once, unless it is still on the way to do so. */
  lemma {:induction false} EachCallOnce(es: seq<Event>)
    ensures var s := Run(es);
      && Times(es, ReadBegun) == Times(es, Searched) + Count(s.threads, BeforeSearch)
      && Times(es, Found) == s.served + Count(s.threads, Hitting)
      && Times(es, WriteBegun) == Times(es, Appended) + Count(s.threads, BeforeAppend)
  {
    if es == [] {
      assert Those(INITIAL.threads, BeforeSearch) == Those(INITIAL.threads, Hitting) == Those(INITIAL.threads, BeforeAppend) == {};
    } else {
      EachCallOnce(es[..|es| - 1]);
      WorkApply(Run(es[..|es| - 1]), es[|es| - 1]);
    }
  }

  /** So at most one reader serves a hit at a time as long as no hit has been served before. */
  lemma OneServerAtFirst(es: seq<Event>, t: nat, v: nat)
    requires var s := Run(es); s.served == 0 && t in s.threads && v in s.threads && Serving(s.threads[t]) && Serving(s.threads[v])
    ensures t == v
  {
    InvRun(es);
    AtMostOne(Run(es).threads, Serving, t, v);
  }

  lemma RunSnoc(es: seq<Event>, e: Event)
    ensures Run(es + [e]) == Apply(Run(es), e)
  {
    assert (es + [e])[..|es|] == es;
  }

  /** The i-th state on the way of a later reader to serving a hit. */
  function Admitting(s: Shared, t: nat, i: nat): Shared
    requires i <= 6
  {
    [s.(threads := s.threads[t := EnterLock]),
     s.(r := 0, threads := s.threads[t := EnterInc]),
     s.(r := 0, readCnt := s.readCnt + 1, threads := s.threads[t := EnterTest]),
     s.(r := 0, readCnt := s.readCnt + 1, threads := s.threads[t := EnterUnlock]),
     s.(readCnt := s.readCnt + 1, threads := s.threads[t := Search]),
     s.(readCnt := s.readCnt + 1, threads := s.threads[t := HitLock]),
     s.(readCnt := s.readCnt + 1, u := s.u - 1, threads := s.threads[t := HitServe])][i]
  }

  lemma AdmitStep(s: Shared, t: nat, i: nat)
    requires i < 6 && t !in s.threads && s.r == 1 && s.readCnt >= 1 && s.u >= 1
    ensures Apply(Admitting(s, t, i), Go(t, true)) == Admitting(s, t, i + 1)
  {
    if i < 3 {
      assert i == 0 || i == 1 || i == 2;
    } else {
      assert i == 3 || i == 4 || i == 5;
    }
  }

  lemma AdmitReader(es: seq<Event>, t: nat) returns (es2: seq<Event>)
    requires var s := Run(es); t !in s.threads && s.r == 1 && s.readCnt >= 1 && s.u >= 1
    ensures Run(es2) == Admitting(Run(es), t, 6)
  {
    hide Run, Next, Enabled;
    RunSnoc(es, StartRead(t));
    es2 := es + [StartRead(t)];
    assert Run(es2) == Admitting(Run(es), t, 0);
    hide Apply, Admitting;
    var i := 0;
    while i < 6
      invariant 0 <= i <= 6
      invariant Run(es2) == Admitting(Run(es), t, i)
    {
      RunSnoc(es2, Go(t, true));
      AdmitStep(Run(es), t, i);
      es2 := es2 + [Go(t, true)];
      i := i + 1;
    }
  }

  /** The i-th state of a first reader that serves a hit and stays in the section. */
  function First(i: nat): Shared
    requires i <= 10
  {
    [Shared(0, 1, 1, 1, map[0 := EnterLock], false, 0),
     Shared(0, 0, 1, 1, map[0 := EnterInc], false, 0),
     Shared(1, 0, 1, 1, map[0 := EnterTest], false, 0),
     Shared(1, 0, 1, 1, map[0 := EnterWait], false, 0),
     Shared(1, 0, 0, 1, map[0 := EnterUnlock], true, 0),
     Shared(1, 1, 0, 1, map[0 := Search], true, 0),
     Shared(1, 1, 0, 1, map[0 := HitLock], true, 0),
     Shared(1, 1, 0, 0, map[0 := HitServe], true, 0),
     Shared(1, 1, 0, 0, map[0 := HitUnlock], true, 0),
     Shared(1, 1, 0, 1, map[0 := HitUnlock2], true, 0),
     Shared(1, 1, 0, 2, map[0 := LeaveLock], true, 1)][i]
  }

  // ----- exactly when u_mutex excludes

  /** At most one thread is between P and the first V of u_mutex. */
  ghost predicate OneServer(s: Shared)
  {
    forall t, v :: t in s.threads && v in s.threads && Serving(s.threads[t]) && Serving(s.threads[v]) ==> t == v
  }

  /** k hits were served by readers 0 to k - 1, who have not left yet. */
  ghost predicate Lingering(s: Shared, k: nat)
  {
    && s.served == k && s.r == 1 && s.readCnt >= 1 && s.u >= 2
    && forall t :: t in s.threads ==> t < k
  }

  lemma FirstStep(i: nat)
    requires i < 10
    ensures Apply(First(i), Go(0, true)) == First(i + 1)
  {
    if i < 3 {
      assert i == 0 || i == 1 || i == 2;
    } else if i < 6 {
      assert i == 3 || i == 4 || i == 5;
    } else {
      assert i == 6 || i == 7 || i == 8 || i == 9;
    }
  }

  lemma FirstServed() returns (es: seq<Event>)
    ensures Lingering(Run(es), 1)
  {
    hide Run, Next, Enabled;
    RunSnoc([], StartRead(0));
    EmptyRun();
    es := [] + [StartRead(0)];
    assert Run(es) == First(0);
    hide First, Apply;
    var i := 0;
    while i < 10
      invariant 0 <= i <= 10
      invariant Run(es) == First(i)
    {
      RunSnoc(es, Go(0, true));
      FirstStep(i);
      es := es + [Go(0, true)];
      i := i + 1;
    }
    FirstLingers();
  }

  lemma FirstLingers()
    ensures Lingering(First(10), 1)
  {
  }

  lemma EmptyRun()
    ensures Run([]) == INITIAL
  {
  }

  /** One more reader comes in, serves a hit and lingers. */
  lemma OneMoreServed(es: seq<Event>, k: nat) returns (es2: seq<Event>)
    requires Lingering(Run(es), k)
    ensures Lingering(Run(es2), k + 1)
  {
    hide Run;
    var es1 := AdmitReader(es, k);
    RunSnoc(es1, Go(k, true));
    RunSnoc(es1 + [Go(k, true)], Go(k, true));
    RunSnoc(es1 + [Go(k, true)] + [Go(k, true)], Go(k, true));
    es2 := es1 + [Go(k, true)] + [Go(k, true)] + [Go(k, true)];
  }

  /** For every number of hits served, some run has served that many with its readers still inside. */
  lemma {:induction false} SomeServed(k: nat) returns (es: seq<Event>)
    requires k >= 1
    ensures Lingering(Run(es), k)
  {
    if k == 1 {
      es := FirstServed();
    } else {
      var es0 := SomeServed(k - 1);
      es := OneMoreServed(es0, k - 1);
    }
  }

  /** After any positive number of served hits, two readers can serve hits at the same time. */
  lemma TwoServers(k: nat) returns (es: seq<Event>)
    requires k >= 1
    ensures Run(es).served == k && !OneServer(Run(es))
  {
    var es0 := SomeServed(k);
    hide Run;
    var es1 := AdmitReader(es0, k);
    es := AdmitReader(es1, k + 1);
    var th := Run(es).threads;
    assert k in th && k + 1 in th && Serving(th[k]) && Serving(th[k + 1]);
  }

  /** u_mutex excludes in every run with k served hits if and only if k is 0. */
  lemma ExclusionExact(k: nat)
    ensures (forall es :: Run(es).served == k ==> OneServer(Run(es))) <==> k == 0
  {
    if k == 0 {
      forall es | Run(es).served == 0
        ensures OneServer(Run(es))
      {
        forall t, v | t in Run(es).threads && v in Run(es).threads && Serving(Run(es).threads[t]) && Serving(Run(es).threads[v])
          ensures t == v
        {
          OneServerAtFirst(es, t, v);
        }
      }
    } else {
      var es := TwoServers(k);
    }
  }
}
