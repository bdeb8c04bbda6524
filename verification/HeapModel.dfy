/** What the counts of a heap of struct payloads have to say, and how each primitive
    step of the memory manager keeps it so. */
module HeapModel {
  import opened Common
  import opened Multigraph
  import opened Values

  type Blocks = map<Addr, StructData>

  ghost function Out(sd: StructData): multiset<Addr>
  {
    CountAll(ValuesOf(sd.entries))
  }

  ghost function MetaOut(sd: StructData): multiset<Addr>
  {
    CountMeta(sd.meta)
  }

  /** References the collector traverses: the slots of the key maps. */
  ghost function EntryGraph(b: Blocks): map<Addr, multiset<Addr>>
  {
    map n | n in b :: Out(b[n])
  }

  /** References it does not traverse: the metadata sidecars. */
  ghost function MetaGraph(b: Blocks): map<Addr, multiset<Addr>>
  {
    map n | n in b :: MetaOut(b[n])
  }

  lemma KeysSame(b: Blocks)
    ensures EntryGraph(b).Keys == b.Keys == MetaGraph(b).Keys
  {
  }

  lemma GraphsAt(b: Blocks, n: Addr)
    requires n in b
    ensures n in EntryGraph(b) && EntryGraph(b)[n] == Out(b[n])
    ensures n in MetaGraph(b) && MetaGraph(b)[n] == MetaOut(b[n])
  {
  }

  /** Every reference that no key map holds. */
  ghost function Held(b: Blocks, holders: multiset<Addr>): multiset<Addr>
  {
    holders + Sum(MetaGraph(b))
  }

  ghost function Total(b: Blocks, holders: multiset<Addr>): multiset<Addr>
  {
    Held(b, holders) + Sum(EntryGraph(b))
  }

  /** `total` is what the counts say, and names allocated payloads only. */
  ghost predicate Tallies(b: Blocks, total: multiset<Addr>)
  {
    && (forall n :: n in total ==> n in b)
    && (forall n :: n in b ==> b[n].refs == total[n])
  }

  /** Counts are exact and no reference dangles. */
  ghost predicate Exact(b: Blocks, holders: multiset<Addr>)
  {
    Tallies(b, Total(b, holders))
  }

  ghost function ToSet(m: multiset<Addr>): set<Addr>
  {
    set n | n in m
  }

  /** Every payload is reachable from a holder. */
  ghost predicate GarbageFree(b: Blocks, holders: multiset<Addr>)
  {
    Reach(EntryGraph(b), ToSet(holders)) == b.Keys
  }

  ghost predicate NoMeta(b: Blocks)
  {
    forall n :: n in b ==> b[n].meta == None
  }

  /** What destroying values does to the payloads that survive it: their contents stay, and
      a payload without references is left to whoever is destroying it. */
  ghost predicate Shrunk(b: Blocks, b': Blocks)
  {
    && b'.Keys <= b.Keys
    && (forall n :: n in b' ==> b'[n].entries == b[n].entries && b'[n].meta == b[n].meta)
    && (forall n :: n in b && b[n].refs == 0 ==> n in b' && b'[n] == b[n])
  }

  lemma ShrunkTransitive(b: Blocks, b': Blocks, b'': Blocks)
    requires Shrunk(b, b') && Shrunk(b', b'')
    ensures Shrunk(b, b'')
  {
  }

  // ------------------------------------------------------------ primitive steps

  function SetRefs(b: Blocks, n: Addr, refs: int): Blocks
    requires n in b
  {
    b[n := b[n].(refs := refs)]
  }

  lemma SetRefsGraph(b: Blocks, n: Addr, refs: int)
    requires n in b
    ensures EntryGraph(SetRefs(b, n, refs)) == EntryGraph(b)
    ensures MetaGraph(SetRefs(b, n, refs)) == MetaGraph(b)
  {
    SameContentsGraph(b, SetRefs(b, n, refs));
  }

  lemma TallyShift(b: Blocks, total: multiset<Addr>, n: Addr, refs: nat)
    requires Tallies(b, total) && n in b
    ensures Tallies(SetRefs(b, n, refs), total[n := refs])
  {
  }

  lemma TallyAt(b: Blocks, total: multiset<Addr>, n: Addr)
    requires Tallies(b, total) && n in b
    ensures b[n].refs == total[n]
  {
  }

  lemma DecrementTotal(b: Blocks, holders: multiset<Addr>, n: Addr)
    requires n in b && n in holders && Total(b, holders)[n] > 0
    ensures Total(SetRefs(b, n, b[n].refs - 1), holders - multiset{n})
         == Total(b, holders)[n := Total(b, holders)[n] - 1]
  {
    hide Sum, EntryGraph, MetaGraph, SetRefs;
    SetRefsGraph(b, n, b[n].refs - 1);
    SumsDrop(holders, Sum(MetaGraph(b)), Sum(EntryGraph(b)), n);
  }

  /** Giving up a reference held outside the graph, and its count. */
  lemma DecrementExact(b: Blocks, holders: multiset<Addr>, n: Addr)
    requires Exact(b, holders) && n in holders
    ensures n in b && b[n].refs > 0
    ensures Exact(SetRefs(b, n, b[n].refs - 1), holders - multiset{n})
  {
    hide Total, Tallies, SetRefs;
    HeldCounts(b, holders, n);
    TallyAt(b, Total(b, holders), n);
    TallyShift(b, Total(b, holders), n, b[n].refs - 1);
    DecrementTotal(b, holders, n);
  }

  lemma HeldCounts(b: Blocks, holders: multiset<Addr>, n: Addr)
    requires Exact(b, holders) && n in holders
    ensures n in b && b[n].refs >= holders[n]
  {
    hide Sum, EntryGraph, MetaGraph;
    assert n in Total(b, holders);
  }

  lemma SumsDrop(x: multiset<Addr>, y: multiset<Addr>, z: multiset<Addr>, n: Addr)
    requires n in x
    ensures x - multiset{n} + y + z == (x + y + z)[n := (x + y + z)[n] - 1]
  {
  }

  lemma SumsRaise(x: multiset<Addr>, y: multiset<Addr>, z: multiset<Addr>, n: Addr)
    ensures x + multiset{n} + y + z == (x + y + z)[n := (x + y + z)[n] + 1]
  {
  }

  lemma IncrementTotal(b: Blocks, holders: multiset<Addr>, n: Addr)
    requires n in b
    ensures Total(SetRefs(b, n, b[n].refs + 1), holders + multiset{n})
         == Total(b, holders)[n := Total(b, holders)[n] + 1]
  {
    hide Sum, EntryGraph, MetaGraph, SetRefs;
    SetRefsGraph(b, n, b[n].refs + 1);
    SumsRaise(holders, Sum(MetaGraph(b)), Sum(EntryGraph(b)), n);
  }

  /** Taking a reference held outside the graph, and its count. */
  lemma IncrementExact(b: Blocks, holders: multiset<Addr>, n: Addr)
    requires Exact(b, holders) && n in b
    ensures Exact(SetRefs(b, n, b[n].refs + 1), holders + multiset{n})
  {
    hide Total, Tallies, SetRefs;
    TallyAt(b, Total(b, holders), n);
    TallyShift(b, Total(b, holders), n, b[n].refs + 1);
    IncrementTotal(b, holders, n);
  }

  function SetEntries(b: Blocks, n: Addr, entries: seq<Entry>): Blocks
    requires n in b
  {
    b[n := b[n].(entries := entries)]
  }

  lemma SetEntriesGraph(b: Blocks, n: Addr, entries: seq<Entry>)
    requires n in b
    ensures EntryGraph(SetEntries(b, n, entries)) == EntryGraph(b)[n := CountAll(ValuesOf(entries))]
    ensures MetaGraph(SetEntries(b, n, entries)) == MetaGraph(b)
  {
    hide EntryGraph, MetaGraph, CountAll, ValuesOf, CountMeta;
    var b' := SetEntries(b, n, entries);
    KeysSame(b);
    KeysSame(b');
    forall m | m in b'
      ensures EntryGraph(b')[m] == EntryGraph(b)[n := CountAll(ValuesOf(entries))][m]
      ensures MetaGraph(b')[m] == MetaGraph(b)[m]
    {
      GraphsAt(b, m);
      GraphsAt(b', m);
    }
  }

  lemma SumsMove(x: multiset<Addr>, x': multiset<Addr>, y: multiset<Addr>,
                 z: multiset<Addr>, z': multiset<Addr>, out: multiset<Addr>, out': multiset<Addr>)
    requires x' + out' == x + out && z' + out == z + out'
    ensures x' + y + z' == x + y + z
  {
    forall n ensures (x' + y + z')[n] == (x + y + z)[n] {
      assert (x' + out')[n] == (x + out)[n];
      assert (z' + out)[n] == (z + out')[n];
    }
  }

  lemma EntrySum(b: Blocks, n: Addr, entries: seq<Entry>)
    requires n in b
    ensures Sum(EntryGraph(SetEntries(b, n, entries))) + Out(b[n]) == Sum(EntryGraph(b)) + CountAll(ValuesOf(entries))
  {
    SetEntriesGraph(b, n, entries);
    SumUpdate(EntryGraph(b), n, CountAll(ValuesOf(entries)));
  }

  lemma TotalSetEntries(b: Blocks, holders: multiset<Addr>, n: Addr, entries: seq<Entry>, holders': multiset<Addr>)
    requires n in b
    requires holders' + CountAll(ValuesOf(entries)) == holders + Out(b[n])
    ensures Total(SetEntries(b, n, entries), holders') == Total(b, holders)
  {
    EntrySum(b, n, entries);
    assert MetaGraph(SetEntries(b, n, entries)) == MetaGraph(b) by { SetEntriesGraph(b, n, entries); }
    SumsMove(holders, holders', Sum(MetaGraph(b)), Sum(EntryGraph(b)), Sum(EntryGraph(SetEntries(b, n, entries))),
             Out(b[n]), CountAll(ValuesOf(entries)));
  }

  lemma TallySetEntries(b: Blocks, total: multiset<Addr>, n: Addr, entries: seq<Entry>)
    requires Tallies(b, total) && n in b
    ensures Tallies(SetEntries(b, n, entries), total)
  {
  }

  /** References move between the slots of `n` and holders outside the graph. */
  lemma SetEntriesExact(b: Blocks, holders: multiset<Addr>, n: Addr, entries: seq<Entry>, holders': multiset<Addr>)
    requires Exact(b, holders) && n in b
    requires holders' + CountAll(ValuesOf(entries)) == holders + Out(b[n])
    ensures Exact(SetEntries(b, n, entries), holders')
  {
    TotalSetEntries(b, holders, n, entries, holders');
    TallySetEntries(b, Total(b, holders), n, entries);
  }

  lemma DetachGraph(b: Blocks, n: Addr)
    requires n in b
    ensures EntryGraph(b - {n}) == EntryGraph(b) - {n}
    ensures MetaGraph(b - {n}) == MetaGraph(b) - {n}
  {
    hide EntryGraph, MetaGraph, Out, MetaOut;
    var b' := b - {n};
    KeysSame(b);
    KeysSame(b');
    forall m | m in b'
      ensures EntryGraph(b')[m] == EntryGraph(b)[m] && MetaGraph(b')[m] == MetaGraph(b)[m]
    {
      GraphsAt(b, m);
      GraphsAt(b', m);
    }
  }

  lemma TallyDetach(b: Blocks, total: multiset<Addr>, n: Addr)
    requires Tallies(b, total) && n in b && b[n].refs == 0
    ensures Tallies(b - {n}, total)
  {
    assert total[n] == 0;
  }

  lemma SumsRegroup(x: multiset<Addr>, y: multiset<Addr>, y': multiset<Addr>,
                    z: multiset<Addr>, z': multiset<Addr>)
    ensures x + y' + z' + y + z == x + (y' + y) + (z' + z)
  {
  }

  /** A payload without references leaves the heap; its values are left to be destroyed. */
  lemma DetachExact(b: Blocks, holders: multiset<Addr>, n: Addr)
    requires Exact(b, holders) && n in b && b[n].refs == 0
    ensures Exact(b - {n}, holders + MetaOut(b[n]) + Out(b[n]))
  {
    SumStep(EntryGraph(b), n);
    SumStep(MetaGraph(b), n);
    DetachGraph(b, n);
    SumsRegroup(holders, Sum(MetaGraph(b) - {n}), MetaOut(b[n]), Sum(EntryGraph(b) - {n}), Out(b[n]));
    TallyDetach(b, Total(b, holders), n);
  }

  lemma Unreferenced(b: Blocks, holders: multiset<Addr>, n: Addr)
    requires Exact(b, holders) && n in b && b[n].refs == 0
    ensures n !in ToSet(holders)
    ensures n !in Sum(EntryGraph(b))
  {
    assert Total(b, holders)[n] == 0;
  }

  lemma ToSetSum(x: multiset<Addr>, y: multiset<Addr>)
    ensures ToSet(x + y) == ToSet(x) + ToSet(y)
  {
  }

  lemma EdgesStay(b: Blocks, holders: multiset<Addr>)
    requires Exact(b, holders)
    ensures Closed(EntryGraph(b), b.Keys)
    ensures ToSet(holders) <= b.Keys
  {
    forall n, m | n in b && m in Kids(EntryGraph(b), n) ensures m in b {
      SumMember(EntryGraph(b), m);
      assert m in Total(b, holders);
    }
    forall h | h in holders ensures h in b {
      assert h in Total(b, holders);
    }
  }

  lemma DetachRoots(b: Blocks, holders: multiset<Addr>, n: Addr)
    requires n in b
    ensures ToSet(holders + multiset{n}) == ToSet(holders) + {n}
    ensures ToSet(holders + Out(b[n])) == ToSet(holders) + Kids(EntryGraph(b), n)
  {
    ToSetSum(holders, multiset{n});
    ToSetSum(holders, Out(b[n]));
    assert ToSet(multiset{n}) == {n};
  }

  /** A payload that lost its last reference was the only thing that kept its children. */
  lemma DetachGarbageFree(b: Blocks, holders: multiset<Addr>, n: Addr)
    requires Exact(b, holders) && n in b && b[n].refs == 0
    requires GarbageFree(b, holders + multiset{n})
    ensures GarbageFree(b - {n}, holders + Out(b[n]))
  {
    hide Reach, EntryGraph, MetaGraph, Exact, Out, ToSet, Kids, Closed;
    EdgesStay(b, holders);
    Unreferenced(b, holders, n);
    DetachRoots(b, holders, n);
    DetachGraph(b, n);
    KeysSame(b);
    DetachComplete(EntryGraph(b), ToSet(holders), n);
  }

  // ---------------------------------------------------------------- teardown

  /** Whatever the payloads of `dead` refer to outside keeps a reference elsewhere. */
  ghost predicate Supported(b: Blocks, holders: multiset<Addr>, dead: set<Addr>)
  {
    var g := EntryGraph(b);
    forall n :: n in Sum(Restrict(g, dead)) && n !in dead ==>
      (Held(b, holders) + Sum(Restrict(g, b.Keys - dead)))[n] > 0
  }

  /** The premises of a teardown: nothing outside `dead` refers into it, and whatever it
      refers to outside keeps another reference. */
  ghost predicate Condemned(b: Blocks, holders: multiset<Addr>, dead: set<Addr>)
  {
    && dead <= b.Keys
    && (forall n :: n in dead ==> n !in Held(b, holders) && b[n].refs > 0)
    && Closed(EntryGraph(b), b.Keys - dead)
    && Supported(b, holders, dead)
  }

  /** The same payloads with the same contents. */
  ghost predicate SameContents(b: Blocks, b': Blocks)
  {
    b'.Keys == b.Keys && forall n :: n in b ==> b'[n].entries == b[n].entries && b'[n].meta == b[n].meta
  }

  lemma SameOut(x: StructData, y: StructData)
    ensures x.entries == y.entries ==> Out(x) == Out(y)
    ensures x.meta == y.meta ==> MetaOut(x) == MetaOut(y)
  {
  }

  lemma SameContentsGraph(b: Blocks, b': Blocks)
    requires SameContents(b, b')
    ensures EntryGraph(b') == EntryGraph(b) && MetaGraph(b') == MetaGraph(b)
  {
    hide EntryGraph, MetaGraph, Out, MetaOut;
    KeysSame(b);
    KeysSame(b');
    forall n | n in b'
      ensures EntryGraph(b')[n] == EntryGraph(b)[n] && MetaGraph(b')[n] == MetaGraph(b)[n]
    {
      GraphsAt(b, n);
      GraphsAt(b', n);
      SameOut(b[n], b'[n]);
    }
  }

  lemma SlotsCounted(b: Blocks, d: Addr, dead: set<Addr>)
    requires d in b && d in dead
    ensures Out(b[d]) <= Sum(Restrict(EntryGraph(b), dead))
  {
    var r := Restrict(EntryGraph(b), dead);
    assert r[d] == Out(b[d]);
    SumStep(r, d);
    PartOfSum(Out(b[d]), Sum(r - {d}), Sum(r));
  }

  lemma PartOfSum(x: multiset<Addr>, y: multiset<Addr>, z: multiset<Addr>)
    requires z == x + y
    ensures x <= z
  {
  }

  lemma SumsExceed(x: multiset<Addr>, y: multiset<Addr>, p: multiset<Addr>, q: multiset<Addr>, n: Addr)
    requires n in x || (x + y + q)[n] > 0
    ensures (x + y + (p + q))[n] > p[n]
  {
  }

  /** Destroying the slots of a dead payload brings no count to zero. */
  lemma ClearSafe(b: Blocks, holders: multiset<Addr>, d: Addr, dead: set<Addr>, n: Addr)
    requires Exact(b, holders) && d in b && d in dead && n in Out(b[d])
    requires n in holders || (Held(b, holders) + Sum(Restrict(EntryGraph(b), b.Keys - dead)))[n] > 0
    ensures n in b && b[n].refs > Out(b[d])[n]
  {
    hide Sum, Restrict, EntryGraph, MetaGraph, Out;
    var g := EntryGraph(b);
    SlotsCounted(b, d, dead);
    SumSplit(g, dead);
    assert g.Keys == b.Keys by { KeysSame(b); }
    var p, q := Sum(Restrict(g, dead)), Sum(Restrict(g, b.Keys - dead));
    SumsExceed(holders, Sum(MetaGraph(b)), p, q, n);
    assert Total(b, holders)[n] > p[n] >= Out(b[d])[n];
    assert n in Total(b, holders);
  }

  // ------------------------------------------------------------- what is freed

  /** Every reference between payloads, those through metadata included. */
  ghost function FullGraph(b: Blocks): map<Addr, multiset<Addr>>
  {
    map n | n in b :: Out(b[n]) + MetaOut(b[n])
  }

  lemma FullKids(b: Blocks, n: Addr)
    requires n in b
    ensures FullGraph(b).Keys == b.Keys && FullGraph(b)[n] == Out(b[n]) + MetaOut(b[n])
    ensures Kids(FullGraph(b), n) == Kids(EntryGraph(b), n) + Kids(MetaGraph(b), n)
  {
    GraphsAt(b, n);
  }

  /** All that was freed on the way from `b` to `b'` was reached from `from`, through key maps
      and metadata. */
  ghost predicate Within(b: Blocks, b': Blocks, from: set<Addr>)
  {
    b.Keys - b'.Keys <= Reach(FullGraph(b), from)
  }

  /** The payloads of `b'` are payloads of `b`, and hold no more than there. */
  ghost predicate Part(b: Blocks, b': Blocks)
  {
    && b'.Keys <= b.Keys
    && forall n :: n in b' ==> (b'[n].entries == b[n].entries || b'[n].entries == []) && b'[n].meta == b[n].meta
  }

  lemma PartReach(b: Blocks, b': Blocks, s: set<Addr>, s': set<Addr>)
    requires Part(b, b') && s <= s'
    ensures Reach(FullGraph(b'), s) <= Reach(FullGraph(b), s')
  {
    hide FullGraph, Out, MetaOut;
    assert FullGraph(b).Keys == b.Keys && FullGraph(b').Keys == b'.Keys by { FullKeys(b); FullKeys(b'); }
    forall m | m in FullGraph(b') ensures Kids(FullGraph(b'), m) <= Kids(FullGraph(b), m) {
      PartKids(b, b', m);
    }
    hide Reach;
    ReachMore(FullGraph(b'), FullGraph(b), s, s');
  }

  lemma FullKeys(b: Blocks)
    ensures FullGraph(b).Keys == b.Keys
  {
  }

  lemma PartKids(b: Blocks, b': Blocks, m: Addr)
    requires Part(b, b') && m in b'
    ensures m in FullGraph(b') && m in FullGraph(b) && Kids(FullGraph(b'), m) <= Kids(FullGraph(b), m)
  {
    NoSlots();
    hide CountAll, ValuesOf;
  }

  lemma ShrunkPart(b: Blocks, b': Blocks)
    requires Shrunk(b, b')
    ensures Part(b, b')
  {
  }

  lemma OneInSet(t: Addr)
    ensures ToSet(multiset{t}) == {t}
  {
  }

  lemma NothingFreed(b: Blocks, from: set<Addr>)
    ensures Within(b, b, from)
  {
  }

  lemma SetRefsPart(b: Blocks, n: Addr, refs: int)
    requires n in b
    ensures Part(b, SetRefs(b, n, refs)) && SetRefs(b, n, refs).Keys == b.Keys
  {
  }

  /** Deleting one payload after the other. */
  lemma WithinDelete(b: Blocks, b1: Blocks, b2: Blocks, done: set<Addr>, d: Addr)
    requires Shrunk(b - done, b1) && Within(b, b1, done) && Within(b1, b2, {d})
    ensures Within(b, b2, done + {d})
  {
    assert Part(b, b1);
    hide Shrunk, Within;
    WithinThen(b, b1, b2, done, {d});
  }

  lemma WithinCleared(b: Blocks, b1: Blocks, b2: Blocks, dead: set<Addr>)
    requires Cleared(b, b1, dead) && Within(b1, b2, dead)
    ensures Within(b, b2, dead)
  {
    assert Part(b, b1) && b1.Keys == b.Keys;
    hide Cleared, Within;
    WithinSame(b, b1, b2, dead);
  }

  lemma WithinThen(b: Blocks, b1: Blocks, b2: Blocks, s: set<Addr>, t: set<Addr>)
    requires Part(b, b1) && Within(b, b1, s) && Within(b1, b2, t)
    ensures Within(b, b2, s + t)
  {
    PartReach(b, b1, t, s + t);
    PartReach(b, b, s, s + t);
    hide Reach, FullGraph, Part;
  }

  /** What a payload's own references reach, the payload reaches. */
  lemma WithinDetached(b: Blocks, sd: Addr, b': Blocks)
    requires sd in b && Within(b - {sd}, b', ToSet(MetaOut(b[sd]) + Out(b[sd])))
    ensures Within(b, b', {sd})
  {
    var s := ToSet(MetaOut(b[sd]) + Out(b[sd]));
    FullKids(b, sd);
    assert s == Kids(FullGraph(b), sd);
    PartReach(b, b - {sd}, s, s);
    hide Reach, FullGraph, Out, MetaOut;
    KidsReach(FullGraph(b), sd);
  }

  /** The same payloads with the same contents reach the same. */
  lemma WithinSame(b: Blocks, b1: Blocks, b': Blocks, s: set<Addr>)
    requires Part(b, b1) && b1.Keys == b.Keys && Within(b1, b', s)
    ensures Within(b, b', s)
  {
    PartReach(b, b1, s, s);
    hide Reach, FullGraph, Part;
  }

  lemma WithinRoot(b: Blocks, holders: multiset<Addr>, b': Blocks, root: Addr, dead: set<Addr>)
    requires Exact(b, holders) && root in b && dead <= Reach(EntryGraph(b), {root}) && Within(b, b', dead)
    ensures Within(b, b', {root})
  {
    FullClosed(b, holders);
    forall m | m in EntryGraph(b) ensures m in FullGraph(b) && Kids(EntryGraph(b), m) <= Kids(FullGraph(b), m) {
      FullKids(b, m);
    }
    FullKeys(b);
    KeysSame(b);
    hide FullGraph, EntryGraph, Exact;
    ReachMore(EntryGraph(b), FullGraph(b), {root}, {root});
    ReachClosed(FullGraph(b), {root});
    hide Reach, Closed;
    ReachLeast(FullGraph(b), dead, Reach(FullGraph(b), {root}));
  }

  // ----------------------------------------------------------- destroying values

  /** What destroying values that hold the references `lost` does to a heap.  While a
      collection is tearing down, nothing is freed that keeps a reference; otherwise
      a heap without garbage is left without garbage. */
  ghost predicate Destroyed(b: Blocks, h: multiset<Addr>, b': Blocks, h': multiset<Addr>,
                            lost: multiset<Addr>, collecting: bool)
  {
    && Exact(b', h')
    && h' == h - lost
    && Shrunk(b, b') && Within(b, b', ToSet(lost))
    && (collecting && Outnumbered(b, lost) ==> b'.Keys == b.Keys)
    && (!collecting && NoMeta(b) && GarbageFree(b, h) ==> GarbageFree(b', h'))
  }

  /** Every payload has more references than `lost` names. */
  ghost predicate Outnumbered(b: Blocks, lost: multiset<Addr>)
  {
    forall n :: n in lost ==> n in b && b[n].refs > lost[n]
  }

  lemma DestroyedNothing(b: Blocks, h: multiset<Addr>, collecting: bool)
    requires Exact(b, h)
    ensures Destroyed(b, h, b, h, multiset{}, collecting)
  {
  }

  lemma OutnumberedStep(b: Blocks, h: multiset<Addr>, b': Blocks, lost: multiset<Addr>, more: multiset<Addr>)
    requires Exact(b, h) && Exact(b', h - lost) && lost <= h && Shrunk(b, b') && b'.Keys == b.Keys
    requires Outnumbered(b, lost + more)
    ensures Outnumbered(b', more)
  {
    SameContentsGraph(b, b');
    SumsLess(h, Sum(MetaGraph(b)), Sum(EntryGraph(b)), lost);
    forall n | n in more ensures n in b' && b'[n].refs > more[n] {
      assert n in lost + more;
      assert Total(b', h - lost)[n] == Total(b, h)[n] - lost[n];
    }
  }

  lemma SumsLess(x: multiset<Addr>, y: multiset<Addr>, z: multiset<Addr>, lost: multiset<Addr>)
    requires lost <= x
    ensures x - lost + y + z + lost == x + y + z
  {
  }

  lemma NoMetaShrunk(b: Blocks, b': Blocks)
    requires Shrunk(b, b') && NoMeta(b)
    ensures NoMeta(b')
  {
  }

  lemma OutnumberedPart(b: Blocks, lost: multiset<Addr>, more: multiset<Addr>)
    requires Outnumbered(b, lost + more)
    ensures Outnumbered(b, lost)
  {
    forall n | n in lost ensures n in b && b[n].refs > lost[n] {
      assert n in lost + more;
    }
  }

  /** What `Destroyed` promises of the accounts. */
  lemma DestroyedAccounts(b: Blocks, h: multiset<Addr>, b': Blocks, h': multiset<Addr>,
                          lost: multiset<Addr>, collecting: bool)
    requires Destroyed(b, h, b', h', lost, collecting)
    ensures Exact(b', h') && h' == h - lost && Shrunk(b, b') && b'.Keys <= b.Keys
  {
  }

  lemma DestroyedThen(b0: Blocks, h0: multiset<Addr>, b1: Blocks, h1: multiset<Addr>, b2: Blocks, h2: multiset<Addr>,
                      lost: multiset<Addr>, more: multiset<Addr>, collecting: bool)
    requires Exact(b0, h0) && lost + more <= h0
    requires Destroyed(b0, h0, b1, h1, lost, collecting)
    requires Destroyed(b1, h1, b2, h2, more, collecting)
    ensures Destroyed(b0, h0, b2, h2, lost + more, collecting)
  {
    hide Exact, Outnumbered, NoMeta, GarbageFree, Within, ToSet;
    ShrunkPart(b0, b1);
    ToSetSum(lost, more);
    hide Shrunk;
    ShrunkTransitive(b0, b1, b2);
    WithinThen(b0, b1, b2, ToSet(lost), ToSet(more));
    if collecting && Outnumbered(b0, lost + more) {
      OutnumberedPart(b0, lost, more);
      OutnumberedStep(b0, h0, b1, lost, more);
    }
    if NoMeta(b0) {
      NoMetaShrunk(b0, b1);
    }
  }

  /** What deleting `sd`, which lost its last reference, does to a heap. */
  ghost predicate Deleted(b: Blocks, h: multiset<Addr>, sd: Addr, b': Blocks, h': multiset<Addr>, collecting: bool)
    requires sd in b
  {
    && Exact(b', h')
    && h' == h
    && Shrunk(b - {sd}, b') && Within(b, b', {sd})
    && (collecting && b[sd].entries == [] && b[sd].meta == None ==> b'.Keys == b.Keys - {sd})
    && (!collecting && NoMeta(b) && GarbageFree(b, h + multiset{sd}) ==> GarbageFree(b', h'))
  }

  lemma PutBack(x: multiset<Addr>, y: multiset<Addr>, z: multiset<Addr>)
    ensures x + y + z - (y + z) == x
  {
  }

  lemma NothingOut(sd: StructData)
    requires sd.entries == [] && sd.meta == None
    ensures MetaOut(sd) + Out(sd) == multiset{}
  {
    NoSlots();
  }

  lemma DetachedGarbageFree(b: Blocks, h: multiset<Addr>, sd: Addr)
    requires Exact(b, h) && sd in b && b[sd].refs == 0
    requires NoMeta(b) && GarbageFree(b, h + multiset{sd})
    ensures NoMeta(b - {sd}) && GarbageFree(b - {sd}, h + MetaOut(b[sd]) + Out(b[sd]))
  {
    NoMetaDetach(b, sd);
    assert h + MetaOut(b[sd]) + Out(b[sd]) == h + Out(b[sd]);
    hide Exact, GarbageFree, NoMeta;
    DetachGarbageFree(b, h, sd);
  }

  lemma DestroyedDeletes(b: Blocks, h: multiset<Addr>, sd: Addr, b': Blocks, h': multiset<Addr>, collecting: bool)
    requires Exact(b, h) && sd in b && b[sd].refs == 0
    requires Destroyed(b - {sd}, h + MetaOut(b[sd]) + Out(b[sd]), b', h', MetaOut(b[sd]) + Out(b[sd]), collecting)
    ensures Deleted(b, h, sd, b', h', collecting)
  {
    hide Exact, Shrunk, GarbageFree, Out, MetaOut, NoMeta, Within, ToSet;
    WithinDetached(b, sd, b');
    PutBack(h, MetaOut(b[sd]), Out(b[sd]));
    if b[sd].entries == [] && b[sd].meta == None {
      NothingOut(b[sd]);
    }
    if NoMeta(b) && GarbageFree(b, h + multiset{sd}) {
      DetachedGarbageFree(b, h, sd);
    }
  }

  lemma NoMetaDetach(b: Blocks, sd: Addr)
    requires NoMeta(b) && sd in b
    ensures NoMeta(b - {sd}) && b[sd].meta == None
  {
  }

  // -------------------------------------------------------- clearing the dead

  /** `b'` is `b` with the slots of the payloads in `cleared` gone. */
  ghost predicate Cleared(b: Blocks, b': Blocks, cleared: set<Addr>)
  {
    && b'.Keys == b.Keys
    && (forall n :: n in b ==> b'[n].meta == b[n].meta)
    && (forall n :: n in b ==> b'[n].entries == if n in cleared then [] else b[n].entries)
    && (forall n :: n in b && b[n].refs == 0 && n !in cleared ==> b'[n] == b[n])
  }

  lemma SlotsOut(sd: StructData)
    ensures CountAll(ValuesOf(sd.entries)) == Out(sd)
  {
  }

  lemma MetaSlot(sd: StructData)
    ensures MetaOut(sd) == if sd.meta.Some? then Count(sd.meta.value) else multiset{}
  {
  }

  lemma NoSlots()
    ensures CountAll(ValuesOf([])) == multiset{}
  {
    assert ValuesOf([]) == [];
  }

  lemma ClearedGraph(b: Blocks, b': Blocks, cleared: set<Addr>)
    requires Cleared(b, b', cleared)
    ensures EntryGraph(b').Keys == EntryGraph(b).Keys == b.Keys
    ensures forall n :: n in b ==> EntryGraph(b')[n] == if n in cleared then multiset{} else EntryGraph(b)[n]
    ensures MetaGraph(b') == MetaGraph(b)
  {
    hide EntryGraph, MetaGraph, CountAll, ValuesOf, CountMeta;
    KeysSame(b);
    KeysSame(b');
    NoSlots();
    forall n | n in b
      ensures EntryGraph(b')[n] == if n in cleared then multiset{} else EntryGraph(b)[n]
      ensures MetaGraph(b')[n] == MetaGraph(b)[n]
    {
      GraphsAt(b, n);
      GraphsAt(b', n);
    }
  }

  lemma ClearedRestrict(b: Blocks, b': Blocks, dead: set<Addr>, cleared: set<Addr>, n: Addr)
    requires Cleared(b, b', cleared) && cleared <= dead
    ensures Restrict(EntryGraph(b'), b'.Keys - dead) == Restrict(EntryGraph(b), b.Keys - dead)
    ensures n in Sum(Restrict(EntryGraph(b'), dead)) ==> n in Sum(Restrict(EntryGraph(b), dead))
  {
    ClearedGraph(b, b', cleared);
    assert b'.Keys == b.Keys;
    hide Cleared, EntryGraph, MetaGraph, Sum;
    var g, g' := EntryGraph(b), EntryGraph(b');
    RestrictSame(g, g', b.Keys - dead);
    if n in Sum(Restrict(g', dead)) {
      var p := SumWitness(Restrict(g', dead), n);
      assert p in Restrict(g, dead) && n in Restrict(g, dead)[p];
      hide Restrict;
      SumMember(Restrict(g, dead), n);
    }
  }

  lemma RestrictSame(g: map<Addr, multiset<Addr>>, g': map<Addr, multiset<Addr>>, s: set<Addr>)
    requires forall n :: n in s ==> (n in g <==> n in g') && (n in g ==> g'[n] == g[n])
    ensures Restrict(g', s) == Restrict(g, s)
  {
    var r, r' := Restrict(g, s), Restrict(g', s);
    assert forall n: Addr :: n in r' <==> n in r;
    assert forall n :: n in r ==> r'[n] == r[n];
  }

  lemma SupportedCleared(b: Blocks, b': Blocks, holders: multiset<Addr>, dead: set<Addr>, cleared: set<Addr>)
    requires Supported(b, holders, dead) && Cleared(b, b', cleared) && cleared <= dead
    ensures Supported(b', holders, dead)
  {
    ClearedGraph(b, b', cleared);
    hide Cleared, EntryGraph, MetaGraph, Sum, Restrict;
    forall n | n in Sum(Restrict(EntryGraph(b'), dead)) && n !in dead
      ensures (Held(b', holders) + Sum(Restrict(EntryGraph(b'), b'.Keys - dead)))[n] > 0
    {
      ClearedRestrict(b, b', dead, cleared, n);
    }
  }

  lemma OutnumberedSlots(b: Blocks, holders: multiset<Addr>, d: Addr, dead: set<Addr>)
    requires Exact(b, holders) && d in b && d in dead
    requires (forall n :: n in dead ==> n in holders) && Supported(b, holders, dead)
    ensures Outnumbered(SetEntries(b, d, []), Out(b[d]))
  {
    hide Sum, Restrict, EntryGraph, Held, Out, Exact;
    forall n | n in Out(b[d]) ensures n in b && b[n].refs > Out(b[d])[n] {
      SlotsCounted(b, d, dead);
      assert n in Sum(Restrict(EntryGraph(b), dead));
      ClearSafe(b, holders, d, dead, n);
    }
  }

  lemma NobodyRefers(b: Blocks, b': Blocks, dead: set<Addr>, n: Addr)
    requires Closed(EntryGraph(b), b.Keys - dead) && Cleared(b, b', dead) && n in dead
    ensures n !in Sum(EntryGraph(b'))
  {
    ClearedGraph(b, b', dead);
    hide Cleared, EntryGraph, Sum;
    if n in Sum(EntryGraph(b')) {
      var p := SumWitness(EntryGraph(b'), n);
      ClosedEnds(EntryGraph(b), b.Keys - dead, p, n);
      assert false;
    }
  }

  /** With their slots gone, the dead have no references but the protection `extra`. */
  lemma DeadCounts(b: Blocks, b': Blocks, holders: multiset<Addr>, dead: set<Addr>, extra: multiset<Addr>)
    requires Condemned(b, holders, dead) && Cleared(b, b', dead) && Exact(b', holders + extra)
    ensures forall n :: n in dead ==> n in b' && b'[n].refs == extra[n]
  {
    ClearedGraph(b, b', dead);
    hide EntryGraph, MetaGraph, Sum, Supported, Closed;
    forall n | n in dead ensures n in b' && b'[n].refs == extra[n] {
      NobodyRefers(b, b', dead, n);
      hide Cleared;
      assert n !in Held(b, holders) && Sum(MetaGraph(b')) == Sum(MetaGraph(b));
      OnlyExtra(holders, extra, Sum(MetaGraph(b')), Sum(EntryGraph(b')), n);
    }
  }

  lemma OnlyExtra(holders: multiset<Addr>, extra: multiset<Addr>, metas: multiset<Addr>, entries: multiset<Addr>,
                  n: Addr)
    requires n !in holders + metas && n !in entries
    ensures (holders + extra + metas + entries)[n] == extra[n]
  {
  }

  /** A survivor of a teardown loses exactly the references of what goes, through key maps
      and metadata.  Without metadata, if it loses any it keeps one. */
  lemma SurvivorCounts(b: Blocks, b': Blocks, holders: multiset<Addr>, dead: set<Addr>, n: Addr)
    requires Exact(b, holders) && Condemned(b, holders, dead)
    requires Exact(b', holders) && Shrunk(b - dead, b') && n in b'
    ensures var gone := b.Keys - b'.Keys;
            && dead <= gone
            && b'[n].refs == b[n].refs - Sum(Restrict(EntryGraph(b), gone))[n] - Sum(Restrict(MetaGraph(b), gone))[n]
    ensures NoMeta(b) && b'.Keys == b.Keys - dead && n in Sum(Restrict(EntryGraph(b), dead)) ==> b'[n].refs > 0
  {
    var gone := b.Keys - b'.Keys;
    KeysSame(b);
    SurvivorGraphs(b, b', dead);
    SumSplit(EntryGraph(b), gone);
    SumSplit(MetaGraph(b), gone);
    assert b.Keys - gone == b'.Keys;
    if NoMeta(b) && b'.Keys == b.Keys - dead && n in Sum(Restrict(EntryGraph(b), dead)) {
      SurvivorKeeps(b, b', holders, dead, n);
    }
    hide EntryGraph, MetaGraph, Sum, Restrict;
    TotalsDiffer(holders, Sum(MetaGraph(b)), Sum(MetaGraph(b')), Sum(Restrict(MetaGraph(b), gone)),
                 Sum(EntryGraph(b)), Sum(EntryGraph(b')), Sum(Restrict(EntryGraph(b), gone)), n);
    assert Total(b, holders)[n] == b[n].refs && Total(b', holders)[n] == b'[n].refs;
  }

  lemma TotalsDiffer(h: multiset<Addr>, y: multiset<Addr>, y': multiset<Addr>, y'': multiset<Addr>,
                     z: multiset<Addr>, z': multiset<Addr>, z'': multiset<Addr>, n: Addr)
    requires y == y'' + y' && z == z'' + z'
    ensures (h + y' + z')[n] == (h + y + z)[n] - z''[n] - y''[n]
  {
  }

  lemma SurvivorKeeps(b: Blocks, b': Blocks, holders: multiset<Addr>, dead: set<Addr>, n: Addr)
    requires Condemned(b, holders, dead) && NoMeta(b) && n !in dead
    requires Exact(b', holders) && Shrunk(b - dead, b') && b'.Keys == b.Keys - dead && n in b'
    requires n in Sum(Restrict(EntryGraph(b), dead))
    ensures b'[n].refs > 0
  {
    NoMetaHeld(b, holders);
    assert NoMeta(b');
    NoMetaHeld(b', holders);
    KeysSame(b);
    SurvivorGraphs(b, b', dead);
    hide EntryGraph, MetaGraph, Sum, Restrict;
    assert Total(b', holders)[n] == b'[n].refs;
  }

  lemma SurvivorGraphs(b: Blocks, b': Blocks, dead: set<Addr>)
    requires Shrunk(b - dead, b')
    ensures EntryGraph(b') == Restrict(EntryGraph(b), b'.Keys) && MetaGraph(b') == Restrict(MetaGraph(b), b'.Keys)
  {
    KeysSame(b);
    KeysSame(b');
    hide EntryGraph, MetaGraph, Out, MetaOut;
    forall n | n in b'
      ensures EntryGraph(b')[n] == EntryGraph(b)[n] && MetaGraph(b')[n] == MetaGraph(b)[n]
    {
      GraphsAt(b, n);
      GraphsAt(b', n);
      SameOut(b[n], b'[n]);
      SameMetaOut(b[n], b'[n]);
    }
  }

  lemma SameMetaOut(x: StructData, y: StructData)
    requires x.meta == y.meta
    ensures MetaOut(x) == MetaOut(y)
  {
  }

  lemma SupportedGrows(b: Blocks, b': Blocks, h: multiset<Addr>, h': multiset<Addr>, dead: set<Addr>)
    requires Supported(b, h, dead) && SameContents(b, b') && h <= h'
    ensures Supported(b', h', dead)
  {
    SameContentsGraph(b, b');
    hide EntryGraph, MetaGraph, Sum, Restrict;
  }

  /** Protected and cleared, each dead payload is down to its one protection. */
  lemma OneProtection(b: Blocks, b1: Blocks, b2: Blocks, holders: multiset<Addr>, deadNodes: seq<Addr>, dead: set<Addr>)
    requires Condemned(b, holders, dead) && b1.Keys == b.Keys && Cleared(b1, b2, dead) && Lists(deadNodes, dead)
    requires forall n :: n in b ==> b1[n] == b[n].(refs := b1[n].refs)
    requires forall n :: n in b && n !in dead ==> b1[n] == b[n]
    requires Exact(b2, holders + multiset(deadNodes))
    ensures forall n :: n in dead ==> n in b2 && b2[n].refs == 1
  {
    ClearedAround(b, b1, b2, b2, dead);
    hide Exact, Condemned, Lists, Cleared;
    DeadCounts(b, b2, holders, dead, multiset(deadNodes));
    forall n | n in dead ensures n in b2 && b2[n].refs == 1 {
      ListsCount(deadNodes, dead, n);
    }
  }

  /** Clearing between protecting and unprotecting is clearing. */
  lemma ClearedAround(b: Blocks, b1: Blocks, b2: Blocks, b3: Blocks, dead: set<Addr>)
    requires b1.Keys == b.Keys && Cleared(b1, b2, dead) && b3.Keys == b2.Keys
    requires forall n :: n in b ==> b1[n] == b[n].(refs := b1[n].refs)
    requires forall n :: n in b && n !in dead ==> b1[n] == b[n]
    requires forall n :: n in b2 ==> b3[n] == b2[n].(refs := b3[n].refs)
    requires forall n :: n in b2 && n !in dead ==> b3[n] == b2[n]
    ensures Cleared(b, b3, dead)
  {
  }

  lemma ShrunkDelete(b: Blocks, b1: Blocks, b2: Blocks, done: set<Addr>, d: Addr)
    requires Shrunk(b - done, b1) && d in b1 && Shrunk(b1 - {d}, b2)
    ensures Shrunk(b - (done + {d}), b2)
  {
  }

  /** Protecting, clearing, unprotecting and deleting the dead, seen from the survivors. */
  lemma ShrunkTeardown(b: Blocks, b': Blocks, b'': Blocks, dead: set<Addr>)
    requires Cleared(b, b', dead) && Shrunk(b' - dead, b'')
    ensures Shrunk(b - dead, b'')
  {
  }

  lemma ClearedNoMeta(b: Blocks, b': Blocks, cleared: set<Addr>)
    requires Cleared(b, b', cleared) && NoMeta(b)
    ensures NoMeta(b')
  {
  }

  // ------------------------------------------------------------- the collector

  /** What trial deletion from `root` leaves: nothing it condemns, and, when no metadata
      is torn down with the dead, everything else. */
  ghost predicate Collected(b: Blocks, holders: multiset<Addr>, root: Addr, b': Blocks, collecting: bool)
    requires root in b
  {
    var doomed := Doomed(EntryGraph(b), Held(b, holders), root);
    if collecting || b[root].refs <= 0 then b' == b
    else
      && b'.Keys <= b.Keys - doomed
      && (doomed == {} ==> b' == b)
      && Within(b, b', {root})
      && (NoMeta(b) ==> b'.Keys == b.Keys - doomed)
  }

  /** The sets a collection from `root` works with: what it gathers, the gathered payloads
      held from outside, and what those reach. */
  lemma CollectorView(b: Blocks, holders: multiset<Addr>, root: Addr)
    returns (g: map<Addr, multiset<Addr>>, reach: set<Addr>, outside: set<Addr>, spared: set<Addr>)
    requires Exact(b, holders) && root in b
    ensures g == EntryGraph(b) && g.Keys == b.Keys
    ensures reach == Reach(g, {root}) && root in reach && reach <= b.Keys && Closed(g, reach)
    ensures outside == HeldOutside(g, Held(b, holders), root) && outside <= reach
    ensures spared == Reach(g, outside) && outside <= spared && spared <= b.Keys && Closed(g, spared)
    ensures Doomed(g, Held(b, holders), root) == reach - spared
  {
    g := EntryGraph(b);
    KeysSame(b);
    EdgesStay(b, holders);
    hide EntryGraph, Held, Sum;
    reach, outside := Reach(g, {root}), HeldOutside(g, Held(b, holders), root);
    spared := Reach(g, outside);
    ReachStart(g, {root});
    ReachClosed(g, {root});
    ReachStart(g, outside);
    ReachClosed(g, outside);
  }

  lemma SumsCancel(h: multiset<Addr>, g: multiset<Addr>, inside: multiset<Addr>, outside: multiset<Addr>, n: Addr)
    requires g == inside + outside
    ensures (h + g)[n] - inside[n] == (h + outside)[n]
  {
  }

  /** The pending count of a gathered payload is its number of references from outside. */
  lemma PendingNumber(b: Blocks, holders: multiset<Addr>, root: Addr, n: Addr)
    requires Exact(b, holders) && root in b && n in b && n in Reach(EntryGraph(b), {root})
    ensures var g, gathered := EntryGraph(b), Reach(EntryGraph(b), {root});
            b[n].refs - Sum(Restrict(g, gathered))[n] == (Held(b, holders) + Sum(Restrict(g, g.Keys - gathered)))[n]
  {
    hide Sum, EntryGraph, MetaGraph, Reach, Restrict;
    var g, gathered := EntryGraph(b), Reach(EntryGraph(b), {root});
    SumSplit(g, gathered);
    SumsCancel(Held(b, holders), Sum(g), Sum(Restrict(g, gathered)), Sum(Restrict(g, g.Keys - gathered)), n);
    assert b[n].refs == Total(b, holders)[n];
  }

  /** The pending counts single out the payloads held from outside the gathered set. */
  lemma PendingIsOutside(b: Blocks, holders: multiset<Addr>, root: Addr, n: Addr)
    requires Exact(b, holders) && root in b && n in b && n in Reach(EntryGraph(b), {root})
    ensures n in HeldOutside(EntryGraph(b), Held(b, holders), root) <==>
            b[n].refs - Sum(Restrict(EntryGraph(b), Reach(EntryGraph(b), {root})))[n] > 0
  {
    hide Sum, EntryGraph, MetaGraph, Reach, Restrict, Held;
    PendingNumber(b, holders, root, n);
  }

  /** The payloads trial deletion condemns meet the premises of a teardown. */
  lemma DoomedCondemned(b: Blocks, holders: multiset<Addr>, root: Addr)
    requires Exact(b, holders) && root in b && b[root].refs > 0
    ensures Condemned(b, holders, Doomed(EntryGraph(b), Held(b, holders), root))
  {
    KeysSame(b);
    EdgesStay(b, holders);
    var g := EntryGraph(b);
    var dead := Doomed(g, Held(b, holders), root);
    DoomedIsolated(g, Held(b, holders), root);
    hide EntryGraph, MetaGraph, Sum, Reach, Restrict, Exact, Held, Doomed;
    assert Supported(b, holders, dead) by { DoomedSupported(b, holders, root); }
    forall n | n in dead ensures b[n].refs > 0 {
      assert n in Reach(g, {root}) by { DoomedGathered(g, Held(b, holders), root); }
      DoomedReferenced(b, holders, root, n);
    }
  }

  lemma CondemnedShrunk(b: Blocks, holders: multiset<Addr>, dead: set<Addr>, b': Blocks)
    requires Condemned(b, holders, dead) && Shrunk(b - dead, b')
    ensures Shrunk(b, b')
  {
    hide Supported, Held, Closed, EntryGraph;
  }

  lemma DoomedSupported(b: Blocks, holders: multiset<Addr>, root: Addr)
    requires Exact(b, holders) && root in b
    ensures Supported(b, holders, Doomed(EntryGraph(b), Held(b, holders), root))
  {
    KeysSame(b);
    EdgesStay(b, holders);
    var g, held := EntryGraph(b), Held(b, holders);
    var dead := Doomed(g, held, root);
    ReachClosed(g, {root});
    hide EntryGraph, MetaGraph, Sum, Held, Exact, Reach, HeldOutside;
    forall n | n in Sum(Restrict(g, dead)) && n !in dead
      ensures (held + Sum(Restrict(g, b.Keys - dead)))[n] > 0
    {
      var p := SumWitness(Restrict(g, dead), n);
      assert p in Reach(g, {root}) && n in Kids(g, p);
      SparedSupported(g, held, root, n);
    }
  }

  lemma DoomedReferenced(b: Blocks, holders: multiset<Addr>, root: Addr, n: Addr)
    requires Exact(b, holders) && root in b && b[root].refs > 0
    requires n in Reach(EntryGraph(b), {root})
    ensures n in b && b[n].refs > 0
  {
    EdgesStay(b, holders);
    KeysSame(b);
    hide EntryGraph, MetaGraph, Sum, Reach, Closed, ToSet;
    var g := EntryGraph(b);
    var p := ReachPredecessor(g, {root}, n);
    if n != root {
      SumMember(g, n);
      assert n in Total(b, holders);
    }
  }

  // ------------------------------------------------------------------ releasing

  lemma ReleasedByDelete(b0: Blocks, h0: multiset<Addr>, sd: Addr, b1: Blocks,
                         b: Blocks, h: multiset<Addr>, collecting: bool)
    requires sd in h0 && sd in b0 && b0[sd].refs > 0 && b1 == SetRefs(b0, sd, b0[sd].refs - 1)
    requires b1[sd].refs <= 0 && Deleted(b1, h0 - multiset{sd}, sd, b, h, collecting)
    ensures Destroyed(b0, h0, b, h, multiset{sd}, collecting)
  {
    hide Exact, EntryGraph, MetaGraph, Reach, ToSet, Within, Part;
    OneInSet(sd);
    SetRefsPart(b0, sd, b0[sd].refs - 1);
    WithinSame(b0, b1, b, {sd});
    assert sd in multiset{sd} && b0[sd].refs == 1;
    assert h0 - multiset{sd} + multiset{sd} == h0;
    SetRefsGraph(b0, sd, b0[sd].refs - 1);
    DeletedShrunk(b0, b1, b, sd);
  }

  lemma DeletedShrunk(b0: Blocks, b1: Blocks, b: Blocks, sd: Addr)
    requires sd in b0 && b0[sd].refs > 0 && b1 == SetRefs(b0, sd, b0[sd].refs - 1) && Shrunk(b1 - {sd}, b)
    ensures Shrunk(b0, b) && (NoMeta(b0) ==> NoMeta(b1))
  {
  }

  lemma ReleasedByCollect(b0: Blocks, h0: multiset<Addr>, sd: Addr, b1: Blocks, b: Blocks, collecting: bool)
    requires Exact(b0, h0) && sd in h0 && sd in b0 && b1 == SetRefs(b0, sd, b0[sd].refs - 1)
    requires b1[sd].refs > 0 && Exact(b1, h0 - multiset{sd})
    requires Exact(b, h0 - multiset{sd}) && Shrunk(b1, b)
    requires Collected(b1, h0 - multiset{sd}, sd, b, collecting)
    ensures Destroyed(b0, h0, b, h0 - multiset{sd}, multiset{sd}, collecting)
  {
    hide Exact, EntryGraph, MetaGraph, Reach, GarbageFree, Doomed, ToSet, Within, Part;
    OneInSet(sd);
    SetRefsPart(b0, sd, b0[sd].refs - 1);
    NothingFreed(b1, {sd});
    WithinSame(b0, b1, b, {sd});
    if !collecting && NoMeta(b0) && GarbageFree(b0, h0) {
      CollectedGarbageFree(b0, h0, sd, b1, b);
    }
  }

  lemma RootsSplit(h: multiset<Addr>, sd: Addr)
    requires sd in h
    ensures ToSet(h) == ToSet(h - multiset{sd}) + {sd}
  {
  }

  /** Completeness: a heap without garbage that loses one reference to `sd` is left without
      garbage by trial deletion from `sd`. */
  lemma CollectedGarbageFree(b0: Blocks, h0: multiset<Addr>, sd: Addr, b1: Blocks, b: Blocks)
    requires sd in h0 && sd in b0 && b1 == SetRefs(b0, sd, b0[sd].refs - 1)
    requires Exact(b1, h0 - multiset{sd}) && NoMeta(b1) && GarbageFree(b0, h0)
    requires Shrunk(b1, b)
    requires b.Keys == b1.Keys - Doomed(EntryGraph(b1), Held(b1, h0 - multiset{sd}), sd)
    ensures GarbageFree(b, h0 - multiset{sd})
  {
    hide EntryGraph, MetaGraph, Exact, NoMeta, Shrunk, Reach, Held, Doomed, ToSet, Closed;
    var h := h0 - multiset{sd};
    SetRefsGraph(b0, sd, b0[sd].refs - 1);
    RootsSplit(h0, sd);
    EdgesStay(b1, h);
    KeysSame(b1);
    NoMetaHeld(b1, h);
    ShrunkGraph(b1, b);
    CompleteFor(EntryGraph(b1), h, sd);
    KeysSame(b);
  }

  lemma CompleteFor(g: map<Addr, multiset<Addr>>, held: multiset<Addr>, root: Addr)
    requires Closed(g, g.Keys) && root in g && ToSet(held) <= g.Keys
    requires Reach(g, ToSet(held) + {root}) == g.Keys
    ensures var kept := g.Keys - Doomed(g, held, root);
            Reach(Restrict(g, kept), ToSet(held)) == kept
  {
    hide Reach, Doomed, Closed;
    DoomedComplete(g, held, root);
    assert Restrict(g, g.Keys - Doomed(g, held, root)).Keys == g.Keys - Doomed(g, held, root);
    assert ToSet(held) == set n | n in held;
  }

  lemma NoMetaHeld(b: Blocks, h: multiset<Addr>)
    requires NoMeta(b)
    ensures Held(b, h) == h
  {
    hide EntryGraph, MetaGraph, Out, Sum;
    KeysSame(b);
    forall x ensures x !in Sum(MetaGraph(b)) {
      if x in Sum(MetaGraph(b)) {
        var p := SumWitness(MetaGraph(b), x);
        GraphsAt(b, p);
        assert false;
      }
    }
    assert Sum(MetaGraph(b)) == multiset{};
  }

  lemma ShrunkGraph(b: Blocks, b': Blocks)
    requires Shrunk(b, b')
    ensures EntryGraph(b') == Restrict(EntryGraph(b), b'.Keys)
  {
    hide EntryGraph, MetaGraph, Out;
    KeysSame(b);
    KeysSame(b');
    forall n | n in b' ensures EntryGraph(b')[n] == EntryGraph(b)[n] {
      GraphsAt(b, n);
      GraphsAt(b', n);
      SameOut(b[n], b'[n]);
    }
  }

  // ------------------------------------------------- what collecting means

  lemma NotHeldNotMeta(b: Blocks, holders: multiset<Addr>, p: Addr, n: Addr)
    requires p in b && n !in Held(b, holders)
    ensures n !in Kids(MetaGraph(b), p) && n !in holders
  {
    SumMember(MetaGraph(b), n);
    GraphsAt(b, p);
  }

  /** Soundness of trial deletion, hidden references included: nothing that any holder
      reaches, through key maps or metadata, is condemned. */
  lemma DoomedIsGarbage(b: Blocks, holders: multiset<Addr>, root: Addr)
    requires Exact(b, holders) && root in b
    ensures Reach(FullGraph(b), ToSet(holders)) !! Doomed(EntryGraph(b), Held(b, holders), root)
  {
    EdgesStay(b, holders);
    KeysSame(b);
    var dead := Doomed(EntryGraph(b), Held(b, holders), root);
    DoomedIsolated(EntryGraph(b), Held(b, holders), root);
    hide Doomed, Exact, EntryGraph, MetaGraph, FullGraph, Held, Reach;
    var c := b.Keys - dead;
    forall p | p in c && p in FullGraph(b) ensures Kids(FullGraph(b), p) <= c {
      FullKids(b, p);
      MetaStays(b, holders, p);
      assert Kids(EntryGraph(b), p) <= c;
      forall n | n in Kids(MetaGraph(b), p) ensures n in c {
        if n in dead { NotHeldNotMeta(b, holders, p, n); }
      }
    }
    forall h | h in ToSet(holders) ensures h in c {
      if h in dead { NotHeldNotMeta(b, holders, root, h); }
    }
    ReachLeast(FullGraph(b), ToSet(holders), c);
  }

  lemma MetaStays(b: Blocks, holders: multiset<Addr>, p: Addr)
    requires Exact(b, holders) && p in b
    ensures p in MetaGraph(b) && Kids(MetaGraph(b), p) <= b.Keys
  {
    GraphsAt(b, p);
    forall n | n in Kids(MetaGraph(b), p) ensures n in b {
      SumMember(MetaGraph(b), n);
      assert n in Total(b, holders);
    }
  }

  /** Completeness with hidden references, exactly: trial deletion condemns all the garbage
      it gathers if and only if no garbage is among the gathered payloads that a reference
      from outside, or from metadata, keeps. */
  lemma CompleteIff(b: Blocks, holders: multiset<Addr>, root: Addr)
    requires Exact(b, holders) && root in b
    ensures var g, held := EntryGraph(b), Held(b, holders);
            var reachable := Reach(FullGraph(b), ToSet(holders));
            Reach(g, {root}) - reachable <= Doomed(g, held, root) <==> HeldOutside(g, held, root) <= reachable
  {
    var g, reach, outside, spared := CollectorView(b, holders, root);
    EdgesStay(b, holders);
    FullClosed(b, holders);
    var full := FullGraph(b);
    var reachable := Reach(full, ToSet(holders));
    ReachClosed(full, ToSet(holders));
    hide Exact, EntryGraph, FullGraph, Held, Reach, HeldOutside, ToSet;
    forall p | p in reachable && p in g ensures Kids(g, p) <= reachable {
      FullKids(b, p);
      assert Kids(full, p) <= reachable;
    }
    if outside <= reachable {
      ReachLeast(g, outside, reachable);
    }
  }

  lemma FullClosed(b: Blocks, holders: multiset<Addr>)
    requires Exact(b, holders)
    ensures FullGraph(b).Keys == b.Keys && Closed(FullGraph(b), b.Keys)
  {
    assert FullGraph(b).Keys == b.Keys;
    EdgesStay(b, holders);
    hide Exact, FullGraph, EntryGraph, MetaGraph;
    forall p | p in b ensures Kids(FullGraph(b), p) <= b.Keys {
      FullKids(b, p);
      MetaStays(b, holders, p);
      KeysSame(b);
      assert Kids(EntryGraph(b), p) <= b.Keys;
    }
  }

  /** Whatever was freed, and whatever metadata had to do with it: what a holder reaches,
      through key maps or metadata, is still there. */
  lemma HeldSurvive(b: Blocks, b': Blocks, holders: multiset<Addr>)
    requires Exact(b', holders) && Shrunk(b, b')
    ensures Reach(FullGraph(b), ToSet(holders)) <= b'.Keys
  {
    FullClosed(b', holders);
    EdgesStay(b', holders);
    hide Exact, FullGraph, EntryGraph, Reach, Out, MetaOut;
    forall n | n in b'.Keys && n in FullGraph(b) ensures Kids(FullGraph(b), n) <= b'.Keys {
      SameFull(b, b', n);
      assert Kids(FullGraph(b'), n) <= b'.Keys;
    }
    ReachLeast(FullGraph(b), ToSet(holders), b'.Keys);
  }

  lemma SameFull(b: Blocks, b': Blocks, n: Addr)
    requires n in b && n in b' && b'[n].entries == b[n].entries && b'[n].meta == b[n].meta
    ensures n in FullGraph(b) && n in FullGraph(b') && FullGraph(b')[n] == FullGraph(b)[n]
  {
  }

  /** A payload whose metadata is a struct that a key of the metadata leads back from, as
      `k = StructGetMetadata(s).keys; k.self = s` makes it once `s` and `k` are gone. */
  function MetaCycle(): Blocks
  {
    map[0 := StructData(1, [], Some(Struct(1))), 1 := StructData(1, [Entry("self", Struct(0))], None)]
  }

  lemma OneSlot(key: string, n: Addr)
    ensures CountAll(ValuesOf([Entry(key, Struct(n))])) == multiset{n} && Count(Struct(n)) == multiset{n}
  {
    var vs := ValuesOf([Entry(key, Struct(n))]);
    assert vs == [] + [Struct(n)];
    CountAllAppend([], Struct(n));
    assert multiset([n]) == multiset{n};
  }

  lemma MetaCycleGraphs()
    ensures EntryGraph(MetaCycle()) == map[0 := multiset{}, 1 := multiset{0}]
    ensures MetaGraph(MetaCycle()) == map[0 := multiset{1}, 1 := multiset{}]
  {
    hide EntryGraph, MetaGraph, CountAll, Count, ValuesOf;
    NoSlots();
    OneSlot("self", 0);
    OneSlot("self", 1);
    KeysSame(MetaCycle());
    GraphsAt(MetaCycle(), 0);
    GraphsAt(MetaCycle(), 1);
    TwoMap(EntryGraph(MetaCycle()), multiset{}, multiset{0});
    TwoMap(MetaGraph(MetaCycle()), multiset{1}, multiset{});
  }

  lemma TwoMap(g: map<Addr, multiset<Addr>>, x: multiset<Addr>, y: multiset<Addr>)
    requires g.Keys == {0, 1} && g[0] == x && g[1] == y
    ensures g == map[0 := x, 1 := y]
  {
  }

  lemma SumOfTwo(x: multiset<Addr>, y: multiset<Addr>)
    ensures Sum(map[0 := x, 1 := y]) == x + y
  {
    var g := map[0 := x, 1 := y];
    SumStep(g, 0);
    SumStep(g - {0}, 1);
    assert g - {0} - {1} == map[];
  }

  lemma MetaCycleTotal()
    ensures Held(MetaCycle(), multiset{}) == multiset{1} && Total(MetaCycle(), multiset{}) == multiset{0, 1}
  {
    hide EntryGraph, MetaGraph, Sum, MetaCycle;
    MetaCycleGraphs();
    SumOfTwo(multiset{}, multiset{0});
    SumOfTwo(multiset{1}, multiset{});
  }

  /** Nothing outside refers to the two, so they are garbage, and trial deletion condemns
      neither of them from either of them. */
  lemma MetaCycleSpared(root: Addr)
    requires root in MetaCycle()
    ensures Exact(MetaCycle(), multiset{}) && Reach(EntryGraph(MetaCycle()), ToSet(multiset{})) == {}
    ensures Doomed(EntryGraph(MetaCycle()), Held(MetaCycle(), multiset{}), root) == {}
  {
    hide EntryGraph, MetaGraph, Sum, Held, Total, Reach, Doomed;
    MetaCycleTotal();
    MetaCycleGraphs();
    assert ToSet(multiset{}) == {};
    ReachLeast(EntryGraph(MetaCycle()), {}, {});
    BothSpared(EntryGraph(MetaCycle()), root);
  }

  lemma BothSpared(g: map<Addr, multiset<Addr>>, root: Addr)
    requires g == map[0 := multiset{}, 1 := multiset{0}] && root in g
    ensures Doomed(g, multiset{1}, root) == {}
  {
    assert Reach(g, {root}) <= g.Keys;
    hide Sum, Reach;
    assert Kids(g, 0) == {} && Kids(g, 1) == {0};
    var gathered, outside := Reach(g, {root}), HeldOutside(g, multiset{1}, root);
    ReachStart(g, {root});
    if root == 0 {
      ReachLeast(g, {0}, {0});
      var rest := Restrict(g, g.Keys - gathered);
      assert 1 in rest && 0 in rest[1];
      SumMember(rest, 0);
    }
    assert {root} <= outside;
    ReachGrows(g, {root}, outside);
  }
}
