/** Counting the threads of a system that stand at a given place in their code. */
module ThreadCounts {

  ghost function Those<P>(th: map<nat, P>, f: P -> bool): set<nat>
  {
    set t | t in th && f(th[t])
  }

  ghost function Count<P>(th: map<nat, P>, f: P -> bool): nat
  {
    |Those(th, f)|
  }

  function One(b: bool): nat { if b then 1 else 0 }

  /** Moving one thread changes a count by what that thread contributes. */
  lemma CountMove<P>(th: map<nat, P>, t: nat, p: P, f: P -> bool)
    requires t in th
    ensures Count(th[t := p], f) == Count(th, f) - One(f(th[t])) + One(f(p))
  {
    var rest := Those(th, f) - {t};
    assert Those(th, f) == if f(th[t]) then rest + {t} else rest;
    assert Those(th[t := p], f) == if f(p) then rest + {t} else rest;
  }

  lemma CountSplit<P(!new)>(th: map<nat, P>, f: P -> bool, g: P -> bool, h: P -> bool)
    requires forall p :: f(p) || g(p) ==> h(p)
    requires forall p :: !(f(p) && g(p))
    ensures Count(th, f) + Count(th, g) <= Count(th, h)
    ensures (forall p :: h(p) ==> f(p) || g(p)) ==> Count(th, f) + Count(th, g) == Count(th, h)
  {
    var a, b, c := Those(th, f), Those(th, g), Those(th, h);
    assert a !! b && a + b <= c;
    assert c == (a + b) + (c - (a + b));
    if forall p :: h(p) ==> f(p) || g(p) {
      assert a + b == c;
    }
  }

  /** A count of at most one leaves no room for two threads. */
  lemma AtMostOne<P>(th: map<nat, P>, f: P -> bool, t: nat, u: nat)
    requires Count(th, f) <= 1 && t in th && u in th && f(th[t]) && f(th[u])
    ensures t == u
  {
    var s, two := Those(th, f), {t, u};
    assert two <= s && s == two + (s - two);
    assert |two| + |s - two| == |s| <= 1;
    assert |two - {t}| == 0;
    assert u !in two - {t};
  }

  lemma CountsThread<P>(th: map<nat, P>, f: P -> bool, t: nat)
    requires t in th && f(th[t])
    ensures Count(th, f) >= 1
  {
    assert t in Those(th, f);
  }

  lemma CountNew<P>(th: map<nat, P>, t: nat, p: P, f: P -> bool)
    requires t !in th
    ensures Count(th[t := p], f) == Count(th, f) + One(f(p))
  {
    assert Those(th[t := p], f) == if f(p) then Those(th, f) + {t} else Those(th, f);
  }

  /** Starting a thread that f does not count changes nothing. */
  lemma CountStart<P>(th: map<nat, P>, t: nat, p: P, f: P -> bool)
    requires !f(p) && (t !in th || !f(th[t]))
    ensures Count(th[t := p], f) == Count(th, f)
  {
    assert Those(th[t := p], f) == Those(th, f);
  }
}
