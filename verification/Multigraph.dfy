/** Finite directed multigraphs: `g[n]` holds one copy of `m` for every reference
    from `n` to `m`.  The theory the reference counts and the cycle collector of
    `Memory` are stated in: counting references and reaching nodes. */
module Multigraph {

  // ---------------------------------------------------------------- counting

  /** All references of the graph, counted with multiplicity. */
  ghost function Sum<N>(g: map<N, multiset<N>>): multiset<N>
  {
    if g == map[] then multiset{} else
    var n :| n in g;
    g[n] + Sum(g - {n})
  }

  /** The part of the graph whose references start in `s`. */
  ghost function Restrict<N>(g: map<N, multiset<N>>, s: set<N>): map<N, multiset<N>>
  {
    map n | n in g && n in s :: g[n]
  }

  lemma {:induction false} SumStep<N>(g: map<N, multiset<N>>, n: N)
    requires n in g
    ensures Sum(g) == g[n] + Sum(g - {n})
    decreases |g|
  {
    var m :| m in g && Sum(g) == g[m] + Sum(g - {m});
    if m != n {
      SumStep(g - {m}, n);
      SumStep(g - {n}, m);
      assert g - {m} - {n} == g - {n} - {m};
    }
  }

  lemma SumUpdate<N>(g: map<N, multiset<N>>, n: N, out: multiset<N>)
    requires n in g
    ensures Sum(g[n := out]) + g[n] == Sum(g) + out
  {
    SumStep(g, n);
    SumStep(g[n := out], n);
    assert g[n := out] - {n} == g - {n};
  }

  lemma SumInsert<N>(g: map<N, multiset<N>>, n: N, out: multiset<N>)
    requires n !in g
    ensures Sum(g[n := out]) == Sum(g) + out
  {
    SumStep(g[n := out], n);
    assert g[n := out] - {n} == g;
  }

  lemma SumRestrictInsert<N>(g: map<N, multiset<N>>, s: set<N>, n: N)
    requires n in g && n !in s
    ensures Sum(Restrict(g, s + {n})) == Sum(Restrict(g, s)) + g[n]
  {
    SumInsert(Restrict(g, s), n, g[n]);
    assert Restrict(g, s + {n}) == Restrict(g, s)[n := g[n]];
  }

  lemma RestrictStep<N>(g: map<N, multiset<N>>, n: N, s: set<N>)
    requires n in g
    ensures Sum(Restrict(g, s)) == Sum(Restrict(g - {n}, s)) + if n in s then g[n] else multiset{}
  {
    var r, r' := Restrict(g, s), Restrict(g - {n}, s);
    if n in s {
      assert r' == r - {n};
      SumStep(r, n);
    } else {
      assert r' == r;
    }
  }

  lemma {:induction false} SumSplit<N>(g: map<N, multiset<N>>, s: set<N>)
    ensures Sum(g) == Sum(Restrict(g, s)) + Sum(Restrict(g, g.Keys - s))
    decreases |g|
  {
    if g == map[] {
      assert Restrict(g, s) == map[] && Restrict(g, g.Keys - s) == map[];
    } else {
      var n :| n in g;
      var h := g - {n};
      SumSplit(h, s);
      SumStep(g, n);
      RestrictStep(g, n, s);
      RestrictStep(g, n, g.Keys - s);
      assert Restrict(h, h.Keys - s) == Restrict(h, g.Keys - s);
      hide *;
    }
  }

  lemma {:induction false} SumMember<N>(g: map<N, multiset<N>>, m: N)
    ensures m in Sum(g) <==> exists n :: n in g && m in g[n]
    decreases |g|
  {
    if g != map[] {
      var n :| n in g;
      SumStep(g, n);
      SumMember(g - {n}, m);
      if x :| x in g && m in g[x] {
        if x != n { assert x in g - {n} && m in (g - {n})[x]; }
      }
    }
  }

  /** A reference to `m`. */
  lemma SumWitness<N>(g: map<N, multiset<N>>, m: N) returns (n: N)
    requires m in Sum(g)
    ensures n in g && m in g[n]
  {
    SumMember(g, m);
    n :| n in g && m in g[n];
  }

  // ---------------------------------------------------------------- reaching

  /** What `n` refers to. */
  ghost function Kids<N>(g: map<N, multiset<N>>, n: N): set<N>
    requires n in g
  {
    set m | m in g[n]
  }

  /** Every reference that starts in `c` ends in `c`. */
  ghost predicate Closed<N>(g: map<N, multiset<N>>, c: set<N>)
  {
    forall n {:trigger Kids(g, n)} :: n in c && n in g ==> Kids(g, n) <= c
  }

  lemma ClosedEnds<N>(g: map<N, multiset<N>>, c: set<N>, n: N, m: N)
    requires Closed(g, c) && n in c && n in g && m !in c
    ensures m !in g[n]
  {
    assert Kids(g, n) <= c;
  }

  ghost function Successors<N>(g: map<N, multiset<N>>, s: set<N>): set<N>
  {
    set n, m | n in s && n in g && m in Kids(g, n) :: m
  }

  /** What a walk of at most `k` references from `s` can end in. */
  ghost function Steps<N>(g: map<N, multiset<N>>, s: set<N>, k: nat): set<N>
  {
    if k == 0 then s else Steps(g, s, k - 1) + Successors(g, Steps(g, s, k - 1))
  }

  /** The nodes that some walk from `s` ends in. */
  ghost function Reach<N>(g: map<N, multiset<N>>, s: set<N>): set<N>
  {
    set n | n in g && exists k: nat :: n in Steps(g, s, k)
  }

  lemma ReachStart<N>(g: map<N, multiset<N>>, s: set<N>)
    requires s <= g.Keys
    ensures s <= Reach(g, s)
  {
    forall n | n in s ensures n in Reach(g, s) {
      assert n in Steps(g, s, 0);
    }
  }

  /** A walk that reaches `n`, by its length. */
  lemma ReachWalk<N>(g: map<N, multiset<N>>, s: set<N>, n: N) returns (k: nat)
    requires n in Reach(g, s)
    ensures n in Steps(g, s, k)
  {
    k :| n in Steps(g, s, k);
  }

  lemma ReachClosed<N>(g: map<N, multiset<N>>, s: set<N>)
    requires Closed(g, g.Keys)
    ensures Closed(g, Reach(g, s))
  {
    forall n, m | n in Reach(g, s) && n in g && m in Kids(g, n) ensures m in Reach(g, s) {
      var k: nat :| n in Steps(g, s, k);
      assert m in Steps(g, s, k + 1);
      assert m in g.Keys;
    }
  }

  /** `Reach` is the least closed set around its start. */
  lemma ReachLeast<N>(g: map<N, multiset<N>>, s: set<N>, c: set<N>)
    requires s <= c && Closed(g, c)
    ensures Reach(g, s) <= c
  {
    forall n | n in Reach(g, s) ensures n in c {
      var k: nat :| n in Steps(g, s, k);
      StepsWithin(g, s, c, k);
    }
  }

  lemma {:induction false} StepsWithin<N>(g: map<N, multiset<N>>, s: set<N>, c: set<N>, k: nat)
    requires s <= c && Closed(g, c)
    ensures Steps(g, s, k) <= c
  {
    if k != 0 { StepsWithin(g, s, c, k - 1); }
  }

  // --------------------------------------------------------------- collecting

  /** The nodes gathered from `root` that something outside the gathered set refers to,
      where `held` counts every reference that is not one of the graph's. */
  ghost function HeldOutside<N>(g: map<N, multiset<N>>, held: multiset<N>, root: N): set<N>
  {
    var gathered := Reach(g, {root});
    set n | n in gathered && (held + Sum(Restrict(g, g.Keys - gathered)))[n] > 0
  }

  /** What trial deletion from `root` condemns: gathered, and out of reach of every
      gathered node with a reference from outside. */
  ghost function Doomed<N>(g: map<N, multiset<N>>, held: multiset<N>, root: N): set<N>
  {
    Reach(g, {root}) - Reach(g, HeldOutside(g, held, root))
  }

  lemma DoomedGathered<N>(g: map<N, multiset<N>>, held: multiset<N>, root: N)
    ensures Doomed(g, held, root) <= Reach(g, {root})
  {
  }

  /** Nothing but doomed nodes refers to a doomed node. */
  lemma DoomedIsolated<N>(g: map<N, multiset<N>>, held: multiset<N>, root: N)
    requires Closed(g, g.Keys) && root in g
    ensures var d := Doomed(g, held, root);
            && d <= g.Keys
            && (forall n :: n in d ==> n !in held)
            && Closed(g, g.Keys - d)
  {
    var gathered, outside := Reach(g, {root}), HeldOutside(g, held, root);
    var d := Doomed(g, held, root);
    ReachStart(g, outside);
    ReachClosed(g, outside);
    ReachClosed(g, {root});
    forall n, m | n in g.Keys - d && m in Kids(g, n) ensures m in g.Keys - d {
      assert m in g.Keys;
      if n !in gathered {
        if m in gathered {
          assert n in Restrict(g, g.Keys - gathered) && m in Restrict(g, g.Keys - gathered)[n];
          SumMember(Restrict(g, g.Keys - gathered), m);
          assert m in outside;
        }
      } else {
        assert n in Reach(g, outside);
      }
    }
  }

  /** Trial deletion is complete: when `root` loses one reference in a graph that held no
      garbage, what is left without the doomed nodes holds no garbage either. */
  lemma DoomedComplete<N>(g: map<N, multiset<N>>, held: multiset<N>, root: N)
    requires Closed(g, g.Keys) && root in g
    requires forall n :: n in held ==> n in g
    requires Reach(g, (set n | n in held) + {root}) == g.Keys
    ensures var rest := Restrict(g, g.Keys - Doomed(g, held, root));
            Reach(rest, set n | n in held) == rest.Keys
  {
    var gathered, outside := Reach(g, {root}), HeldOutside(g, held, root);
    var rest := Restrict(g, g.Keys - Doomed(g, held, root));
    var roots := set n | n in held;
    DoomedIsolated(g, held, root);
    assert forall n :: n in rest ==> Kids(rest, n) == Kids(g, n);
    assert Closed(rest, rest.Keys);
    var c := Reach(rest, roots);
    ReachStart(rest, roots);
    ReachClosed(rest, roots);
    assert Closed(g, c);
    ReachClosed(g, {root});
    ReachStart(g, {root});
    ReachLeast(g, roots + {root}, c + gathered);
    forall m | m in outside ensures m in c {
      if m !in held {
        SumMember(Restrict(g, g.Keys - gathered), m);
        var n :| n in Restrict(g, g.Keys - gathered) && m in Restrict(g, g.Keys - gathered)[n];
        assert n in c && m in Kids(g, n);
      }
    }
    ReachLeast(g, outside, c);
    assert rest.Keys <= c;
  }

  /** What trial deletion spares keeps a reference that no doomed node holds. */
  lemma SparedSupported<N>(g: map<N, multiset<N>>, held: multiset<N>, root: N, n: N)
    requires Closed(g, g.Keys) && root in g
    requires n in Reach(g, {root}) && n !in Doomed(g, held, root)
    ensures (held + Sum(Restrict(g, g.Keys - Doomed(g, held, root))))[n] > 0
  {
    var gathered, outside := Reach(g, {root}), HeldOutside(g, held, root);
    var kept := g.Keys - Doomed(g, held, root);
    var q := ReachPredecessor(g, outside, n);
    if n in outside {
      if n !in held {
        var p := SumWitness(Restrict(g, g.Keys - gathered), n);
        assert p in Restrict(g, kept) && n in Restrict(g, kept)[p];
        SumMember(Restrict(g, kept), n);
      }
    } else {
      assert q in Restrict(g, kept) && n in Restrict(g, kept)[q];
      SumMember(Restrict(g, kept), n);
    }
  }

  /** The start that a reached node is reached from. */
  lemma ReachFrom<N>(g: map<N, multiset<N>>, s: set<N>, n: N) returns (m: N)
    requires Closed(g, g.Keys) && s <= g.Keys && n in Reach(g, s)
    ensures m in s && n in Reach(g, {m})
  {
    var c := set m, x | m in s && x in Reach(g, {m}) :: x;
    forall x | x in s ensures x in c { ReachStart(g, {x}); }
    forall x | x in c && x in g ensures Kids(g, x) <= c {
      var m :| m in s && x in Reach(g, {m});
      ReachClosed(g, {m});
    }
    ReachLeast(g, s, c);
    m :| m in s && n in Reach(g, {m});
  }

  lemma ReachFirst<N>(g: map<N, multiset<N>>, m: N, n: N)
    requires Closed(g, g.Keys) && m in g && n in Reach(g, {m})
    ensures n == m || n in Reach(g, Kids(g, m))
  {
    var c := Reach(g, Kids(g, m));
    ReachStart(g, Kids(g, m));
    ReachClosed(g, Kids(g, m));
    ReachLeast(g, {m}, c + {m});
  }

  /** A reached node is a start or is referred to by a reached node, `p`. */
  lemma ReachPredecessor<N>(g: map<N, multiset<N>>, s: set<N>, n: N) returns (p: N)
    requires n in Reach(g, s) && Closed(g, g.Keys) && s <= g.Keys
    ensures n in s || (p in g && p in Reach(g, s) && n in g[p])
  {
    p := n;
    var k: nat :| n in Steps(g, s, k);
    var j := k;
    while n !in s && n in Steps(g, s, j - 1)
      invariant n !in s ==> j > 0
      invariant n in Steps(g, s, j)
      decreases j
    {
      j := j - 1;
    }
    if n !in s {
      p :| p in Steps(g, s, j - 1) && p in g && n in Kids(g, p);
      assert p in Reach(g, s);
    }
  }

  /** When `n`, to which nothing refers, is taken out and its references are held instead,
      everything else stays reachable. */
  lemma DetachComplete<N>(g: map<N, multiset<N>>, roots: set<N>, n: N)
    requires Closed(g, g.Keys) && n in g && roots <= g.Keys && n !in roots
    requires n !in Sum(g)
    requires Reach(g, roots + {n}) == g.Keys
    ensures Reach(g - {n}, roots + Kids(g, n)) == g.Keys - {n}
  {
    var h, start := g - {n}, roots + Kids(g, n);
    SumMember(g, n);
    assert forall m :: m in h ==> Kids(h, m) == Kids(g, m);
    assert Closed(h, h.Keys);
    ReachStart(h, start);
    ReachClosed(h, start);
    var c := Reach(h, start);
    assert Closed(g, c + {n});
    ReachLeast(g, roots + {n}, c + {n});
  }

  lemma ReachGrows<N>(g: map<N, multiset<N>>, s: set<N>, t: set<N>)
    requires Closed(g, g.Keys) && s <= t && t <= g.Keys
    ensures Reach(g, s) <= Reach(g, t)
  {
    ReachStart(g, t);
    ReachClosed(g, t);
    ReachLeast(g, s, Reach(g, t));
  }

  /** More references and more starts reach more. */
  lemma ReachMore<N>(g: map<N, multiset<N>>, g': map<N, multiset<N>>, s: set<N>, s': set<N>)
    requires g.Keys <= g'.Keys && s <= s' && forall m :: m in g ==> Kids(g, m) <= Kids(g', m)
    ensures Reach(g, s) <= Reach(g', s')
  {
    forall n | n in Reach(g, s) ensures n in Reach(g', s') {
      var k := ReachWalk(g, s, n);
      StepsMore(g, g', s, s', k);
    }
  }

  lemma SuccessorsMore<N>(g: map<N, multiset<N>>, g': map<N, multiset<N>>, t: set<N>, t': set<N>)
    requires g.Keys <= g'.Keys && t <= t' && forall m :: m in g ==> Kids(g, m) <= Kids(g', m)
    ensures Successors(g, t) <= Successors(g', t')
  {
    forall m | m in Successors(g, t) ensures m in Successors(g', t') {
      var q :| q in t && q in g && m in Kids(g, q);
      assert m in Kids(g', q);
    }
  }

  lemma {:induction false} StepsMore<N>(g: map<N, multiset<N>>, g': map<N, multiset<N>>, s: set<N>, s': set<N>, k: nat)
    requires g.Keys <= g'.Keys && s <= s' && forall m :: m in g ==> Kids(g, m) <= Kids(g', m)
    ensures Steps(g, s, k) <= Steps(g', s', k)
  {
    if k > 0 {
      StepsMore(g, g', s, s', k - 1);
      SuccessorsMore(g, g', Steps(g, s, k - 1), Steps(g', s', k - 1));
    }
  }

  /** What the references of `n` reach, `n` reaches. */
  lemma KidsReach<N>(g: map<N, multiset<N>>, n: N)
    requires n in g
    ensures Reach(g, Kids(g, n)) <= Reach(g, {n}) && n in Reach(g, {n})
  {
    assert n in Steps(g, {n}, 0);
    forall m | m in Reach(g, Kids(g, n)) ensures m in Reach(g, {n}) {
      var k := ReachWalk(g, Kids(g, n), m);
      StepsAfter(g, n, k);
    }
  }

  lemma {:induction false} StepsAfter<N>(g: map<N, multiset<N>>, n: N, k: nat)
    requires n in g
    ensures Steps(g, Kids(g, n), k) <= Steps(g, {n}, k + 1)
  {
    if k == 0 {
      assert n in Steps(g, {n}, 0);
    } else {
      StepsAfter(g, n, k - 1);
      SuccessorsMore(g, g, Steps(g, Kids(g, n), k - 1), Steps(g, {n}, k));
    }
  }

  /** A slot of `n`, itself reachable from `roots`, is overwritten: what the slot takes was
      held in `extra`, what it gives up is held in `dropped` for now.  Nothing is lost. */
  lemma RerouteComplete<N>(g: map<N, multiset<N>>, g': map<N, multiset<N>>, roots: set<N>, extra: set<N>,
                           dropped: set<N>, n: N)
    requires Closed(g, g.Keys) && Closed(g', g'.Keys) && g'.Keys == g.Keys
    requires roots + extra + dropped <= g.Keys
    requires forall m :: m in g && m != n ==> g'[m] == g[m]
    requires n in Reach(g, roots) && Reach(g, roots + extra) == g.Keys
    requires extra <= Kids(g', n) && Kids(g, n) <= Kids(g', n) + dropped
    ensures Reach(g', roots + dropped) == g'.Keys && n in Reach(g', roots)
  {
    var c := Reach(g', roots);
    ReachStart(g', roots);
    ReachClosed(g', roots);
    if n !in c {
      assert forall m :: m in c && m in g ==> Kids(g, m) == Kids(g', m);
      ReachLeast(g, roots, c);
      assert false;
    }
    var d := Reach(g', roots + dropped);
    ReachStart(g', roots + dropped);
    ReachClosed(g', roots + dropped);
    ReachGrows(g', roots, roots + dropped);
    assert Kids(g', n) <= d;
    assert forall m :: m in d && m in g && m != n ==> Kids(g, m) == Kids(g', m);
    ReachLeast(g, roots + extra, d);
  }

  /** A new node, held by whoever made it. */
  lemma InsertComplete<N>(g: map<N, multiset<N>>, roots: set<N>, n: N)
    requires Closed(g, g.Keys) && roots <= g.Keys && n !in g && Reach(g, roots) == g.Keys
    ensures var g' := g[n := multiset{}]; Reach(g', roots + {n}) == g'.Keys
  {
    var g' := g[n := multiset{}];
    assert forall m :: m in g ==> Kids(g', m) == Kids(g, m);
    assert Closed(g', g'.Keys);
    var c := Reach(g', roots + {n});
    ReachStart(g', roots + {n});
    ReachClosed(g', roots + {n});
    ReachLeast(g, roots, c);
  }

  lemma InsertReach<N>(g: map<N, multiset<N>>, roots: set<N>, n: N)
    requires Closed(g, g.Keys) && roots <= g.Keys && n !in g
    ensures Reach(g, roots) <= Reach(g[n := multiset{}], roots)
  {
    var g' := g[n := multiset{}];
    assert forall m :: m in g ==> Kids(g', m) == Kids(g, m);
    assert Closed(g', g'.Keys);
    ReachStart(g', roots);
    ReachClosed(g', roots);
    ReachLeast(g, roots, Reach(g', roots));
  }
}
