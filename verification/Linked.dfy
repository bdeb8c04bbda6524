/** Releasing a reference whose slot is still linked: `std::map` destroys its last entry, and
    every entry it clears, before it forgets them, so the collector still sees a reference
    that is counted no longer. */
module Linked {
  import opened Multigraph
  import opened Values
  import opened HeapModel

  /** What a release in place comes to.  `Leaked` leaves garbage behind, `TornDown` takes
      apart what is still held, and `Undefined` reads a map that is being destroyed. */
  datatype Outcome = Kept | Leaked | TornDown | Undefined

  // ------------------------------------------------------------------- graphs

  /** `g` with the reference from `n` to `root` that is counted no longer. */
  ghost function Relinked<N>(g: map<N, multiset<N>>, n: N, root: N): map<N, multiset<N>>
    requires n in g
  {
    g[n := g[n] + multiset{root}]
  }

  /** References to a gathered node from outside the gathered ones. */
  ghost function Outside<N>(g: map<N, multiset<N>>, held: multiset<N>, root: N): multiset<N>
  {
    held + Sum(Restrict(g, g.Keys - Reach(g, {root})))
  }

  /** The gathered nodes with a reference from outside when one reference to `root` is
      discounted. */
  ghost function Seeds<N>(g: map<N, multiset<N>>, held: multiset<N>, root: N): set<N>
  {
    set n | n in Reach(g, {root}) && Outside(g, held, root)[n] > if n == root then 1 else 0
  }

  /** What the collector takes for held from outside: it discounts the reference from `n`
      if it gathers `n`. */
  ghost function Seen<N>(g: map<N, multiset<N>>, held: multiset<N>, root: N, n: N): set<N>
  {
    if n in Reach(g, {root}) then Seeds(g, held, root) else HeldOutside(g, held, root)
  }

  /** What it condemns. */
  ghost function Taken<N>(g: map<N, multiset<N>>, held: multiset<N>, root: N, n: N): set<N>
    requires n in g
  {
    Reach(g, {root}) - Reach(Relinked(g, n, root), Seen(g, held, root, n))
  }

  ghost function Holders<N>(held: multiset<N>): set<N>
  {
    set n | n in held
  }

  /** A reference from `n` to `root` is released in place, `g` and `held` being all others.
      `partly` tells that nodes of the map of `n` were freed before. */
  ghost function Fate<N>(g: map<N, multiset<N>>, held: multiset<N>, n: N, root: N, partly: bool): Outcome
  {
    if n !in Reach(g, {root}) then Kept
    else if partly || root !in held + Sum(g) then Undefined
    else if n !in Reach(g, Seeds(g, held, root)) then TornDown
    else if root in Reach(g, Holders(held)) then Kept
    else Leaked
  }

  /** What is left of a graph when everything is freed that `held` does not reach. */
  ghost function Trimmed<N>(g: map<N, multiset<N>>, held: multiset<N>): map<N, multiset<N>>
  {
    Restrict(g, Reach(g, Holders(held)))
  }

  /** `g` without one reference from `n` to `r`. */
  ghost function Fewer<N>(g: map<N, multiset<N>>, n: N, r: N): map<N, multiset<N>>
    requires n in g
  {
    g[n := g[n] - multiset{r}]
  }

  /** The references `rs` that `n` has are released in place one after the other, the first
      `k` of them before any node of the map of `n` is freed. */
  ghost function FateAll<N>(g: map<N, multiset<N>>, held: multiset<N>, n: N, rs: seq<N>, k: nat): Outcome
    decreases |rs|
  {
    if rs == [] || n !in g then Kept else
    var rest := Fewer(g, n, rs[0]);
    var o := Fate(rest, held, n, rs[0], k == 0);
    if !o.Kept? then o else FateAll(Trimmed(rest, held), held, n, rs[1..], if k == 0 then 0 else k - 1)
  }

  lemma RelinkedClosed<N>(g: map<N, multiset<N>>, n: N, root: N, c: set<N>)
    requires n in g && Closed(g, c) && (n in c ==> root in c)
    ensures Closed(Relinked(g, n, root), c)
  {
    var h := Relinked(g, n, root);
    forall m | m in c && m in h ensures Kids(h, m) <= c {
      assert Kids(g, m) <= c;
    }
  }

  lemma RelinkedMore<N>(g: map<N, multiset<N>>, n: N, root: N, s: set<N>)
    requires n in g && root in g && Closed(g, g.Keys) && s <= g.Keys
    ensures Closed(Relinked(g, n, root), g.Keys) && Reach(g, s) <= Reach(Relinked(g, n, root), s)
  {
    var h := Relinked(g, n, root);
    RelinkedClosed(g, n, root, g.Keys);
    ReachStart(h, s);
    ReachClosed(h, s);
    forall m | m in Reach(h, s) && m in g ensures Kids(g, m) <= Reach(h, s) {
      assert Kids(h, m) <= Reach(h, s);
    }
    ReachLeast(g, s, Reach(h, s));
  }

  /** Where `n` is not reached, its reference to `root` makes no difference. */
  lemma RelinkedUnreached<N>(g: map<N, multiset<N>>, n: N, root: N, s: set<N>)
    requires n in g && root in g && Closed(g, g.Keys) && s <= g.Keys
    requires n !in Reach(g, s) || root in Reach(g, s)
    ensures Reach(Relinked(g, n, root), s) == Reach(g, s)
  {
    ReachStart(g, s);
    ReachClosed(g, s);
    RelinkedMore(g, n, root, s);
    RelinkedClosed(g, n, root, Reach(g, s));
    ReachLeast(Relinked(g, n, root), s, Reach(g, s));
  }

  lemma GatheredSame<N>(g: map<N, multiset<N>>, n: N, root: N)
    requires n in g && root in g && Closed(g, g.Keys)
    ensures root in Reach(g, {root}) && Reach(g, {root}) <= g.Keys
    ensures Reach(Relinked(g, n, root), {root}) == Reach(g, {root})
    ensures Closed(Relinked(g, n, root), Reach(g, {root}))
  {
    ReachStart(g, {root});
    ReachClosed(g, {root});
    RelinkedUnreached(g, n, root, {root});
    RelinkedClosed(g, n, root, Reach(g, {root}));
  }

  /** The sets that the collector works with. */
  lemma SeenView<N>(g: map<N, multiset<N>>, held: multiset<N>, n: N, root: N)
    requires n in g && root in g && Closed(g, g.Keys)
    ensures var linked, seen := Relinked(g, n, root), Seen(g, held, root, n);
            && linked.Keys == g.Keys && seen <= Reach(g, {root}) && seen <= Reach(linked, seen)
            && Reach(linked, seen) <= g.Keys && Closed(linked, Reach(linked, seen))
  {
    RelinkedClosed(g, n, root, g.Keys);
    ReachStart(Relinked(g, n, root), Seen(g, held, root, n));
    ReachClosed(Relinked(g, n, root), Seen(g, held, root, n));
  }

  /** What the collector condemns when the reference from `n` to `root` is still linked: what
      it would condemn without it, unless it gathers `n`; then nothing, if what it takes for
      held from outside leads to `n`, and else both `n` and `root`. */
  lemma TakenIs<N>(g: map<N, multiset<N>>, held: multiset<N>, n: N, root: N)
    requires n in g && root in g && Closed(g, g.Keys)
    ensures n !in Reach(g, {root}) ==> Taken(g, held, root, n) == Doomed(g, held, root)
    ensures n in Reach(g, {root}) ==>
              if n in Reach(g, Seeds(g, held, root)) then Taken(g, held, root, n) == {}
              else n in Taken(g, held, root, n) && root in Taken(g, held, root, n)
  {
    var gathered, seen := Reach(g, {root}), Seen(g, held, root, n);
    GatheredSame(g, n, root);
    ReachClosed(g, {root});
    ReachLeast(g, seen, gathered);
    if n in Reach(g, seen) {
      RelinkedMore(g, n, root, seen);
      ReachClosed(Relinked(g, n, root), seen);
      assert root in Kids(Relinked(g, n, root), n);
      ReachLeast(Relinked(g, n, root), {root}, Reach(Relinked(g, n, root), seen));
    } else {
      RelinkedUnreached(g, n, root, seen);
      if n in gathered && root in Reach(g, seen) {
        ReachClosed(g, seen);
        ReachLeast(g, {root}, Reach(g, seen));
      }
    }
  }

  /** A held node that is gathered is reached from one with a reference from outside. */
  lemma HeldSpared<N>(g: map<N, multiset<N>>, held: multiset<N>, n: N, root: N)
    requires root in g && Closed(g, g.Keys)
    requires n in Reach(g, {root}) && n in Reach(g, Holders(held))
    ensures n in Reach(g, HeldOutside(g, held, root))
  {
    DoomedIsolated(g, held, root);
    var kept := g.Keys - Doomed(g, held, root);
    ReachLeast(g, Holders(held) * g.Keys, kept);
    InGraph(g, Holders(held));
  }

  lemma InGraph<N>(g: map<N, multiset<N>>, s: set<N>)
    requires Closed(g, g.Keys)
    ensures Reach(g, s) <= Reach(g, s * g.Keys)
  {
    var c := Reach(g, s * g.Keys);
    ReachStart(g, s * g.Keys);
    ReachClosed(g, s * g.Keys);
    var d := c + (s - g.Keys);
    assert Closed(g, d);
    ReachLeast(g, s, d);
  }

  lemma AllReached<N>(g: map<N, multiset<N>>, roots: set<N>, root: N)
    requires root in g && Closed(g, g.Keys) && roots <= g.Keys && Reach(g, roots + {root}) == g.Keys
    ensures root in Reach(g, roots) <==> Reach(g, roots) == g.Keys
  {
    ReachStart(g, roots);
    ReachClosed(g, roots);
    if root in Reach(g, roots) {
      hide Reach, Closed;
      ReachLeast(g, roots + {root}, Reach(g, roots));
      assert Reach(g, roots) <= g.Keys by { InKeys(g, roots); }
    }
  }

  lemma InKeys<N>(g: map<N, multiset<N>>, s: set<N>)
    ensures Reach(g, s) <= g.Keys
  {
  }

  /** Trial deletion from `root` finds nothing exactly if `root` is held otherwise. */
  lemma NoneDoomed<N>(g: map<N, multiset<N>>, held: multiset<N>, root: N)
    requires root in g && Closed(g, g.Keys) && Holders(held) <= g.Keys
    requires Reach(g, Holders(held) + {root}) == g.Keys
    ensures Doomed(g, held, root) == {} <==> root in Reach(g, Holders(held))
  {
    ReachStart(g, {root});
    if root in Reach(g, Holders(held)) {
      HeldSpared(g, held, root, root);
      var outside := HeldOutside(g, held, root);
      ReachClosed(g, outside);
      hide Reach, HeldOutside, Closed, Holders;
      ReachLeast(g, {root}, Reach(g, outside));
    }
    if Doomed(g, held, root) == {} {
      hide Reach, Doomed, Closed;
      DoomedComplete(g, held, root);
      assert g.Keys - {} == g.Keys && Restrict(g, g.Keys) == g;
      assert Holders(held) == set n | n in held;
    }
  }

  /** A gathered node with a reference from outside is held, unless it is `root` alone. */
  lemma OutsideHeld<N>(g: map<N, multiset<N>>, held: multiset<N>, root: N, m: N)
    requires root in g && Closed(g, g.Keys) && Holders(held) <= g.Keys
    requires Reach(g, Holders(held) + {root}) == g.Keys
    requires m in HeldOutside(g, held, root)
    ensures m in Reach(g, Holders(held))
  {
    var gathered, r := Reach(g, {root}), Reach(g, Holders(held));
    ReachStart(g, Holders(held));
    ReachClosed(g, Holders(held));
    ReachStart(g, {root});
    ReachClosed(g, {root});
    if m !in held {
      var p := SumWitness(Restrict(g, g.Keys - gathered), m);
      assert Closed(g, r + gathered);
      ReachLeast(g, Holders(held) + {root}, r + gathered);
      assert p in r && m in Kids(g, p);
    }
  }

  /** What is torn down in place is held: from outside `n` and from outside `root`. */
  lemma TornIsHeld<N>(g: map<N, multiset<N>>, held: multiset<N>, n: N, root: N, partly: bool)
    requires root in g && Closed(g, g.Keys) && Holders(held) <= g.Keys
    requires Reach(g, Holders(held) + {root}) == g.Keys && n in Reach(g, Holders(held))
    requires Fate(g, held, n, root, partly) == TornDown
    ensures root in Reach(g, Holders(held)) && Outside(g, held, root)[root] == 1
  {
    HeldSpared(g, held, n, root);
    ReachStart(g, {root});
    if Outside(g, held, root)[root] != 1 {
      SeedsAll(g, held, root);
      assert false;
    }
    OutsideHeld(g, held, root, root);
  }

  lemma SeedsAll<N>(g: map<N, multiset<N>>, held: multiset<N>, root: N)
    requires Outside(g, held, root)[root] != 1
    ensures Seeds(g, held, root) == HeldOutside(g, held, root)
  {
  }

  /** Whatever is freed along with `root`, if it is not all that leads to `n`, some payload
      that stays is released and leads to `n`: the collection from there gathers `n`. */
  lemma WayBack<N>(g: map<N, multiset<N>>, freed: set<N>, n: N, root: N)
    requires Closed(g, g.Keys) && root in g && n in g
    requires n in Reach(g, {root}) && root in freed && n !in freed
    ensures exists p, u :: p in freed && p in g && u in Kids(g, p) && u !in freed
              && n in Reach(Restrict(g, g.Keys - freed), {u})
  {
    var rest := Restrict(g, g.Keys - freed);
    assert n in Steps(rest, {n}, 0);
    var c := freed + set x | x in rest && n !in Reach(rest, {x});
    if forall p | p in freed && p in g :: forall u | u in Kids(g, p) && u !in freed :: n !in Reach(rest, {u}) {
      forall x | x in c && x in g ensures Kids(g, x) <= c {
        forall y | y in Kids(g, x) ensures y in c {
          if x !in freed && y !in freed && n in Reach(rest, {y}) { WayOn(rest, x, y, n); }
        }
      }
      ReachLeast(g, {root}, c);
      assert false;
    }
  }

  lemma WayOn<N>(g: map<N, multiset<N>>, x: N, y: N, n: N)
    requires x in g && y in Kids(g, x) && n in Reach(g, {y})
    ensures n in Reach(g, {x})
  {
    var k := ReachWalk(g, {y}, n);
    assert y in Steps(g, {x}, 1) by { assert x in Steps(g, {x}, 0); }
    StepsShift(g, x, y, k);
  }

  lemma {:induction false} StepsShift<N>(g: map<N, multiset<N>>, x: N, y: N, k: nat)
    requires y in Steps(g, {x}, 1)
    ensures Steps(g, {y}, k) <= Steps(g, {x}, k + 1)
  {
    if k > 0 {
      StepsShift(g, x, y, k - 1);
      forall m | m in Steps(g, {y}, k) ensures m in Steps(g, {x}, k + 1) {
        if m !in Steps(g, {y}, k - 1) {
          var q :| q in Steps(g, {y}, k - 1) && q in g && m in Kids(g, q);
          assert q in Steps(g, {x}, k);
        }
      }
    }
  }

  // -------------------------------------------------------------------- heaps

  /** The heap whose slot in `sd` still shows `t`, seen as the one whose slots in `sd` are
      `left` already. */
  lemma LinkedView(b: Blocks, h: multiset<Addr>, sd: Addr, t: Addr, left: seq<Entry>)
    requires Exact(b, h) && NoMeta(b) && sd in b && Out(b[sd]) == CountAll(ValuesOf(left)) + multiset{t}
    ensures var b1 := SetEntries(b, sd, left);
            var g := EntryGraph(b1);
            && Exact(b1, h + multiset{t}) && NoMeta(b1) && g.Keys == b.Keys && t in b && Closed(g, g.Keys)
            && EntryGraph(b) == Relinked(g, sd, t) && ToSet(h) <= b.Keys
  {
    hide Sum, Reach, Tallies, Total, ToSet;
    var b1 := SetEntries(b, sd, left);
    assert h + multiset{t} + CountAll(ValuesOf(left)) == h + Out(b[sd]);
    SetEntriesExact(b, h, sd, left, h + multiset{t});
    SetEntriesGraph(b, sd, left);
    KeysSame(b);
    KeysSame(b1);
    GraphsAt(b, sd);
    hide EntryGraph, MetaGraph, Exact, Out, CountAll, ValuesOf;
    EdgesStay(b1, h + multiset{t});
    EdgesStay(b, h);
    ToSetSum(h, multiset{t});
    assert t in ToSet(multiset{t}) by { OneInSet(t); }
    Back(EntryGraph(b), EntryGraph(b1), sd, t);
  }

  lemma Back(g: map<Addr, multiset<Addr>>, g': map<Addr, multiset<Addr>>, sd: Addr, t: Addr)
    requires sd in g && sd in g' && g' == g[sd := g'[sd]] && g[sd] == g'[sd] + multiset{t}
    ensures g == Relinked(g', sd, t)
  {
  }

  /** Without garbage before, everything is reached from the holders and `t`, and `sd` from
      the holders alone. */
  lemma LinkedReached(b: Blocks, h: multiset<Addr>, sd: Addr, t: Addr, left: seq<Entry>)
    requires Exact(b, h) && NoMeta(b) && sd in b && Out(b[sd]) == CountAll(ValuesOf(left)) + multiset{t}
    requires GarbageFree(b, h)
    ensures var g := EntryGraph(SetEntries(b, sd, left));
            Reach(g, Holders(h) + {t}) == g.Keys && sd in Reach(g, Holders(h)) && Holders(h) == ToSet(h)
  {
    hide EntryGraph, Exact, Out, CountAll, ValuesOf, Reach, NoMeta, SetEntries, ToSet, Holders, Closed, Relinked;
    LinkedView(b, h, sd, t, left);
    HoldersIs(h);
    RelinkedReached(EntryGraph(SetEntries(b, sd, left)), ToSet(h), sd, t);
  }

  lemma HoldersIs(h: multiset<Addr>)
    ensures Holders(h) == ToSet(h)
  {
  }

  lemma RelinkedReached(g: map<Addr, multiset<Addr>>, roots: set<Addr>, sd: Addr, t: Addr)
    requires sd in g && t in g && Closed(g, g.Keys) && roots <= g.Keys
    requires Reach(Relinked(g, sd, t), roots) == g.Keys
    ensures Reach(g, roots + {t}) == g.Keys && sd in Reach(g, roots)
  {
    var g0 := Relinked(g, sd, t);
    RelinkedClosed(g, sd, t, g.Keys);
    KidsRelinked(g, sd, t);
    assert roots + {} == roots;
    hide Reach, Closed;
    RerouteComplete(g0, g, roots, {}, {t}, sd);
  }

  lemma KidsRelinked(g: map<Addr, multiset<Addr>>, sd: Addr, t: Addr)
    requires sd in g
    ensures Kids(Relinked(g, sd, t), sd) == Kids(g, sd) + {t}
  {
  }

  /** The pending numbers that the collector computes while `t`, already discounted, is still
      linked. */
  lemma LinkedPending(b: Blocks, h: multiset<Addr>, sd: Addr, t: Addr, left: seq<Entry>, n: Addr)
    requires Exact(b, h) && NoMeta(b) && sd in b && Out(b[sd]) == CountAll(ValuesOf(left)) + multiset{t}
    requires t in b
    requires n in Reach(EntryGraph(SetEntries(b, sd, left)), {t})
    ensures var g, linked := EntryGraph(SetEntries(b, sd, left)), SetRefs(b, t, b[t].refs - 1);
            && n in linked
            && (linked[n].refs - Sum(Restrict(EntryGraph(b), Reach(g, {t})))[n] > 0 <==> n in Seen(g, h, t, sd))
  {
    hide EntryGraph, Exact, Out, CountAll, ValuesOf, Reach, NoMeta, Sum, Restrict, SetEntries, SetRefs, Seen;
    var b1 := SetEntries(b, sd, left);
    LinkedView(b, h, sd, t, left);
    InKeys(EntryGraph(b1), {t});
    SameCounts(b, sd, t, left, n);
    DetachedPending(b1, h, t, n);
    SeenCount(EntryGraph(b1), h, sd, t, n, SetRefs(b1, t, b1[t].refs - 1)[n].refs);
  }

  lemma SameCounts(b: Blocks, sd: Addr, t: Addr, left: seq<Entry>, n: Addr)
    requires sd in b && t in b && n in b
    ensures var b1 := SetEntries(b, sd, left);
            && n in b1 && t in b1 && b1[t].refs == b[t].refs
            && n in SetRefs(b, t, b[t].refs - 1) && n in SetRefs(b1, t, b1[t].refs - 1)
            && SetRefs(b1, t, b1[t].refs - 1)[n].refs == SetRefs(b, t, b[t].refs - 1)[n].refs
  {
  }

  lemma DetachedPending(b: Blocks, h: multiset<Addr>, t: Addr, n: Addr)
    requires Exact(b, h + multiset{t}) && NoMeta(b) && t in b && n in b && n in Reach(EntryGraph(b), {t})
    ensures var g := EntryGraph(b);
            && n in SetRefs(b, t, b[t].refs - 1)
            && SetRefs(b, t, b[t].refs - 1)[n].refs - Sum(Restrict(g, Reach(g, {t})))[n] == Outside(g, h, t)[n]
  {
    hide EntryGraph, Exact, Reach, NoMeta, Sum, Restrict;
    assert t in h + multiset{t};
    DecrementExact(b, h + multiset{t}, t);
    assert h + multiset{t} - multiset{t} == h;
    SetRefsGraph(b, t, b[t].refs - 1);
    SetRefsNoMeta(b, t, b[t].refs - 1);
    NoMetaHeld(SetRefs(b, t, b[t].refs - 1), h);
    PendingNumber(SetRefs(b, t, b[t].refs - 1), h, t, n);
  }

  lemma SeenCount(g: map<Addr, multiset<Addr>>, h: multiset<Addr>, sd: Addr, t: Addr, n: Addr, refs: int)
    requires sd in g && n in Reach(g, {t})
    requires refs - Sum(Restrict(g, Reach(g, {t})))[n] == Outside(g, h, t)[n]
    ensures refs - Sum(Restrict(Relinked(g, sd, t), Reach(g, {t})))[n] > 0 <==> n in Seen(g, h, t, sd)
  {
    RelinkedSum(g, Reach(g, {t}), sd, t);
    hide Sum, Restrict, Reach, Relinked;
  }

  lemma SetRefsNoMeta(b: Blocks, t: Addr, refs: int)
    requires NoMeta(b) && t in b
    ensures NoMeta(SetRefs(b, t, refs))
  {
  }

  lemma RelinkedSum(g: map<Addr, multiset<Addr>>, s: set<Addr>, sd: Addr, t: Addr)
    requires sd in g
    ensures Sum(Restrict(Relinked(g, sd, t), s)) == Sum(Restrict(g, s)) + if sd in s then multiset{t} else multiset{}
  {
    var r, r' := Restrict(g, s), Restrict(Relinked(g, sd, t), s);
    if sd in s {
      assert r' == r[sd := g[sd] + multiset{t}];
      SumUpdate(r, sd, g[sd] + multiset{t});
      Cancel(Sum(r'), Sum(r), g[sd], multiset{t});
    } else {
      assert r' == r;
    }
  }

  lemma Cancel(x: multiset<Addr>, y: multiset<Addr>, out: multiset<Addr>, more: multiset<Addr>)
    requires x + out == y + (out + more)
    ensures x == y + more
  {
    forall n ensures x[n] == (y + more)[n] {
      assert (x + out)[n] == (y + (out + more))[n];
    }
  }

  /** The heap with the slot of `t` gone, and the one without the count as well. */
  lemma Discounted(b: Blocks, h: multiset<Addr>, t: Addr)
    requires Exact(b, h + multiset{t}) && NoMeta(b) && t in b && Reach(EntryGraph(b), Holders(h) + {t}) == b.Keys
    ensures GarbageFree(b, h + multiset{t}) && b[t].refs > 0
    ensures var b' := SetRefs(b, t, b[t].refs - 1);
            Exact(b', h) && NoMeta(b') && EntryGraph(b') == EntryGraph(b) && b[t].refs - 1 == (h + Sum(EntryGraph(b)))[t]
  {
    hide EntryGraph, MetaGraph, Exact, Reach, NoMeta, ToSet, Holders, Closed, Sum;
    assert t in h + multiset{t} && h + multiset{t} - multiset{t} == h;
    DecrementExact(b, h + multiset{t}, t);
    SetRefsGraph(b, t, b[t].refs - 1);
    HoldersIs(h);
    ToSetSum(h, multiset{t});
    OneInSet(t);
    SetRefsNoMeta(b, t, b[t].refs - 1);
    NoMetaHeld(SetRefs(b, t, b[t].refs - 1), h);
    CountedAs(SetRefs(b, t, b[t].refs - 1), h, t);
  }

  /** Counting first and unlinking afterwards is the same. */
  lemma LinkedSame(b: Blocks, sd: Addr, t: Addr, left: seq<Entry>, refs: int)
    requires sd in b && t in b
    ensures t in SetEntries(b, sd, left) && SetEntries(b, sd, left)[t].refs == b[t].refs
    ensures sd in SetRefs(b, t, refs) && SetRefs(b, t, refs).Keys == b.Keys && SetRefs(b, t, refs)[t].refs == refs
    ensures SetEntries(SetRefs(b, t, refs), sd, left) == SetRefs(SetEntries(b, sd, left), t, refs)
    ensures EntryGraph(SetRefs(b, t, refs)) == EntryGraph(b)
  {
    SetRefsGraph(b, t, refs);
  }

  lemma CountedAs(b: Blocks, h: multiset<Addr>, t: Addr)
    requires Exact(b, h) && t in b && Held(b, h) == h
    ensures b[t].refs == (h + Sum(EntryGraph(b)))[t]
  {
  }

  lemma GarbageFreeIs(b: Blocks, h: multiset<Addr>)
    ensures GarbageFree(b, h) <==> Reach(EntryGraph(b), ToSet(h)) == b.Keys
  {
  }

  lemma SetRefsKept(b: Blocks, t: Addr, refs: int)
    requires t in b && b[t].refs > 0
    ensures t in SetRefs(b, t, refs) && SetRefs(b, t, refs).Keys == b.Keys && SetRefs(b, t, refs)[t].refs == refs
    ensures Shrunk(b, SetRefs(b, t, refs))
  {
  }

  /** The release of the last reference, seen from the heap with the slot gone. */
  lemma DeletedReleased(b: Blocks, h: multiset<Addr>, t: Addr, b': Blocks, h': multiset<Addr>)
    requires t in b && b[t].refs == 1 && NoMeta(b) && GarbageFree(b, h + multiset{t})
    requires t in SetRefs(b, t, 0) && Deleted(SetRefs(b, t, 0), h, t, b', h', false)
    ensures h' == h && Exact(b', h) && Shrunk(b, b') && GarbageFree(b', h)
  {
    hide Exact, EntryGraph, GarbageFree, Deleted;
    assert h + multiset{t} - multiset{t} == h;
    ReleasedByDelete(b, h + multiset{t}, t, SetRefs(b, t, 0), b', h', false);
  }

  /** The release of another one. */
  lemma CollectedReleased(b: Blocks, h: multiset<Addr>, t: Addr, b': Blocks)
    requires Exact(b, h + multiset{t}) && t in b && b[t].refs > 1 && NoMeta(b) && GarbageFree(b, h + multiset{t})
    requires Exact(b', h)
    requires var b1 := SetRefs(b, t, b[t].refs - 1);
             t in b1 && Exact(b1, h) && Shrunk(b1, b') && Collected(b1, h, t, b', false)
    ensures Shrunk(b, b') && GarbageFree(b', h)
  {
    hide Exact, EntryGraph, GarbageFree, Collected;
    assert h + multiset{t} - multiset{t} == h;
    assert t in h + multiset{t};
    ReleasedByCollect(b, h + multiset{t}, t, SetRefs(b, t, b[t].refs - 1), b', false);
  }

  lemma ReleaseExact(b: Blocks, h: multiset<Addr>, t: Addr)
    requires Exact(b, h + multiset{t}) && t in b
    ensures Exact(SetRefs(b, t, b[t].refs - 1), h)
  {
    hide Exact, SetRefs;
    assert t in h + multiset{t} && h + multiset{t} - multiset{t} == h;
    DecrementExact(b, h + multiset{t}, t);
  }

  // ------------------------------------------------------ one after the other

  /** Fewer references reach less. */
  lemma FewerReach<N>(g: map<N, multiset<N>>, g': map<N, multiset<N>>, s: set<N>)
    requires g'.Keys <= g.Keys && forall m :: m in g' ==> g'[m] <= g[m]
    ensures Reach(g', s) <= Reach(g, s)
  {
    forall m | m in g' ensures Kids(g', m) <= Kids(g, m) {
      assert g'[m] <= g[m];
    }
    ReachMore(g', g, s, s);
  }

  lemma FateStep<N>(g: map<N, multiset<N>>, held: multiset<N>, n: N, rs: seq<N>, k: nat)
    requires rs != [] && n in g
    ensures var rest := Fewer(g, n, rs[0]);
            var o := Fate(rest, held, n, rs[0], k == 0);
            FateAll(g, held, n, rs, k) ==
              if o.Kept? then FateAll(Trimmed(rest, held), held, n, rs[1..], if k == 0 then 0 else k - 1) else o
  {
  }

  lemma FateNone<N>(g: map<N, multiset<N>>, held: multiset<N>, n: N, rs: seq<N>, k: nat)
    requires rs == []
    ensures FateAll(g, held, n, rs, k) == Kept
  {
  }

  lemma TrimmedFewer<N>(g: map<N, multiset<N>>, held: multiset<N>)
    requires Closed(g, g.Keys)
    ensures var t := Trimmed(g, held); t.Keys <= g.Keys && Closed(t, t.Keys) && forall m :: m in t ==> t[m] == g[m]
  {
    ReachClosed(g, Holders(held));
    var t := Trimmed(g, held);
    forall x | x in t ensures Kids(t, x) <= t.Keys {
      assert Kids(g, x) <= Reach(g, Holders(held));
    }
  }

  /** Where none of the references leads back, releasing them in place does no harm. */
  lemma {:induction false} NoWayBack<N>(g: map<N, multiset<N>>, held: multiset<N>, n: N, rs: seq<N>, k: nat)
    requires Closed(g, g.Keys) && (n in g ==> multiset(rs) <= g[n])
    requires forall r :: r in rs ==> n !in Reach(g, {r})
    ensures FateAll(g, held, n, rs, k) == Kept
    decreases |rs|
  {
    if rs != [] && n in g {
      var rest := Fewer(g, n, rs[0]);
      assert rs == [rs[0]] + rs[1..];
      assert forall m :: m in rest ==> rest[m] <= g[m];
      forall x | x in rest ensures Kids(rest, x) <= rest.Keys {
        assert Kids(rest, x) <= Kids(g, x);
      }
      FewerReach(g, rest, {rs[0]});
      TrimmedFewer(rest, held);
      var t := Trimmed(rest, held);
      forall r | r in rs[1..] ensures n !in Reach(t, {r}) {
        FewerReach(g, t, {r});
      }
      hide Trimmed, Reach;
      NoWayBack(t, held, n, rs[1..], if k == 0 then 0 else k - 1);
    }
  }

  lemma KeptTrims(g: map<Addr, multiset<Addr>>, held: multiset<Addr>, keys: set<Addr>)
    requires Closed(g, g.Keys) && keys <= g.Keys && Holders(held) <= keys
    requires Closed(Restrict(g, keys), keys) && Reach(Restrict(g, keys), Holders(held)) == keys
    ensures Restrict(g, keys) == Trimmed(g, held)
  {
    var t, roots := Restrict(g, keys), Holders(held);
    forall x | x in keys && x in g ensures Kids(g, x) <= keys {
      assert Kids(t, x) <= keys;
    }
    ReachLeast(g, roots, keys);
    ReachStart(g, roots);
    FewerReach(g, t, roots);
  }
}
