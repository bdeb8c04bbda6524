/** Erasing the only key of a struct, and clearing a struct: when that keeps the heap in
    order, and the smallest heaps in which it does not. */
module InPlace {
  import opened Common
  import opened Multigraph
  import opened Values
  import opened HeapModel
  import opened Linked
  import opened Places
  import opened Runtime

  /** No harm is done where no value of the struct leads back to it. */
  lemma ClearHarmless(vars: seq<Value>, b: Blocks, sd: Addr)
    requires Settled(vars, b) && sd in b
    requires forall r :: r in ClearedRefs(b[sd].entries) ==> sd !in Reach(EntryGraph(b), {r})
    ensures ClearFate(vars, b, sd) == Kept
  {
    hide Settled, EntryGraph, Out, CountAll, ValuesOf, ClearedRefs, ClearedFirst, Reach, Closed, FateAll, Roots;
    ClearedCounts(b[sd].entries);
    SlotsOut(b[sd]);
    GraphsAt(b, sd);
    KeysSame(b);
    SettledReach(vars, b);
    var rs := ClearedRefs(b[sd].entries);
    forall r | r in rs ensures sd !in Reach(EntryGraph(b), {r}) {
      assert r in ClearedRefs(b[sd].entries);
    }
    NoWayBack(EntryGraph(b), CountAll(vars), sd, rs, ClearedFirst(b[sd].entries));
  }

  /** Erasing the only key, whose value is a struct `t`, keeps the heap in order if and only if
      `t` does not lead back to `sd`, or is held without the key and its count, less the one
      that the linked slot takes away, still shows it.  `g` is the heap without the key. */
  lemma OnlyKeyIff(vars: seq<Value>, b: Blocks, sd: Addr, key: string, t: Addr)
    requires Settled(vars, b) && sd in b && b[sd].entries == [Entry(key, Struct(t))]
    ensures var g, roots := EntryGraph(SetEntries(b, sd, [])), Roots(vars);
            EraseFate(vars, b, sd, key) == Kept <==>
              || sd !in Reach(g, {t})
              || (t in Reach(g, roots) && sd in Reach(g, Seeds(g, CountAll(vars), t)))
  {
    hide Settled, EntryGraph, CountAll, Reach, Seeds, EraseFate, SetEntries, Sum, Holders, ToSet;
    OnlyKeyFate(vars, b, sd, key, t);
    HoldersIs(CountAll(vars));
    OnlyKeyGraph(vars, b, sd, key, t);
    if t in Reach(EntryGraph(SetEntries(b, sd, [])), Holders(CountAll(vars))) {
      ReachedCounted(EntryGraph(SetEntries(b, sd, [])), CountAll(vars), t);
    }
  }

  lemma OneEntry(key: string, t: Addr)
    ensures var es := [Entry(key, Struct(t))];
            ClearedRefs(es) == [t] && ClearedFirst(es) == 1 && Find(es, key) == Some(0)
            && CountAll(ValuesOf(es)) == multiset{t} && CountAll(ValuesOf([])) == multiset{}
  {
    var es := [Entry(key, Struct(t))];
    assert Greatest(es) == 0 && Without(es, 0) == [] && ValuesOf([]) == [];
    OneSlot(key, t);
    NoSlots();
  }

  lemma OnlyKeyFate(vars: seq<Value>, b: Blocks, sd: Addr, key: string, t: Addr)
    requires Settled(vars, b) && sd in b && b[sd].entries == [Entry(key, Struct(t))]
    ensures EraseFate(vars, b, sd, key) == Fate(EntryGraph(SetEntries(b, sd, [])), CountAll(vars), sd, t, false)
  {
    hide Settled, EntryGraph, CountAll, ValuesOf, Out, SetEntries, FateAll, Fate, ClearedRefs, ClearedFirst, Find, Trimmed;
    OneEntry(key, t);
    SlotsOut(b[sd]);
    KeysSame(b);
    GraphsAt(b, sd);
    SetEntriesGraph(b, sd, []);
    assert multiset{t} - multiset{t} == multiset{};
    var g := EntryGraph(b);
    FateStep(g, CountAll(vars), sd, [t], 1);
    FateNone(Trimmed(Fewer(g, sd, t), CountAll(vars)), CountAll(vars), sd, [t][1..], 0);
  }

  lemma OnlyKeyGraph(vars: seq<Value>, b: Blocks, sd: Addr, key: string, t: Addr)
    requires Settled(vars, b) && sd in b && b[sd].entries == [Entry(key, Struct(t))]
    ensures var g, held := EntryGraph(SetEntries(b, sd, [])), CountAll(vars);
            && Closed(g, g.Keys) && Holders(held) <= g.Keys && sd in g && t in g && g[sd] == multiset{}
            && Reach(g, Holders(held) + {t}) == g.Keys && sd in Reach(g, Holders(held))
            && b[t].refs - 1 == (held + Sum(g))[t]
  {
    hide Settled, EntryGraph, Exact, CountAll, ValuesOf, Out, SetEntries, Reach, Closed, Sum, NoMeta, GarbageFree, ToSet, Holders, Relinked;
    OneEntry(key, t);
    SlotsOut(b[sd]);
    SettledParts(vars, b);
    LinkedView(b, CountAll(vars), sd, t, []);
    LinkedReached(b, CountAll(vars), sd, t, []);
    LinkedSame(b, sd, t, [], 0);
    KeysSame(SetEntries(b, sd, []));
    Discounted(SetEntries(b, sd, []), CountAll(vars), t);
    SetEntriesGraph(b, sd, []);
  }

  lemma ReachedCounted(g: map<Addr, multiset<Addr>>, held: multiset<Addr>, t: Addr)
    requires Closed(g, g.Keys) && Holders(held) <= g.Keys && t in Reach(g, Holders(held))
    ensures t in held + Sum(g)
  {
    var p := ReachPredecessor(g, Holders(held), t);
    if t !in held { SumMember(g, t); }
  }

  // -------------------------------------------------------------- a struct in itself

  /** Erasing the only key of a struct whose value is the struct itself tears it down if and
      only if there is one other reference to it. */
  lemma SelfErased(vars: seq<Value>, b: Blocks, sd: Addr, key: string)
    requires Settled(vars, b) && sd in b && b[sd].entries == [Entry(key, Struct(sd))]
    ensures EraseFate(vars, b, sd, key) == if b[sd].refs == 2 then TornDown else Kept
  {
    hide Settled, EntryGraph, CountAll, Reach, EraseFate, SetEntries, Sum, Holders, Fate;
    OnlyKeyFate(vars, b, sd, key, sd);
    OnlyKeyGraph(vars, b, sd, key, sd);
    SelfFate(EntryGraph(SetEntries(b, sd, [])), CountAll(vars), sd);
  }

  lemma SelfFate(g: map<Addr, multiset<Addr>>, held: multiset<Addr>, n: Addr)
    requires Closed(g, g.Keys) && Holders(held) <= g.Keys && n in g && g[n] == multiset{} && n in Reach(g, Holders(held))
    ensures Fate(g, held, n, n, false) == if (held + Sum(g))[n] == 1 then TornDown else Kept
  {
    ReachedCounted(g, held, n);
    AloneReached(g, n);
    SumSplit(g, {n});
    assert Restrict(g, {n}) == map[n := multiset{}];
    SumOfOne(n, multiset{});
    hide Reach, Sum, Restrict, Holders;
    assert held + Sum(g) == Outside(g, held, n);
    var s := Seeds(g, held, n);
    assert s == if Outside(g, held, n)[n] > 1 then {n} else {};
  }

  lemma AloneReached(g: map<Addr, multiset<Addr>>, n: Addr)
    requires n in g && g[n] == multiset{}
    ensures Reach(g, {n}) == {n} && Reach(g, {}) == {}
  {
    assert n in Steps(g, {n}, 0);
    ReachLeast(g, {n}, {n});
    ReachLeast(g, {}, {});
  }

  lemma SumOfOne(n: Addr, x: multiset<Addr>)
    ensures Sum(map[n := x]) == x
  {
    var g: map<Addr, multiset<Addr>> := map[n := x];
    SumStep(g, n);
    assert g - {n} == map[];
  }

  /** `s = {}; s.self = s`: erasing `self` tears the struct down that the variable holds. */
  lemma SelfTornDown()
    ensures var b := map[0 := StructData(2, [Entry("self", Struct(0))], None)];
            Settled([Struct(0)], b) && EraseFate([Struct(0)], b, 0, "self") == TornDown
  {
    var b := map[0 := StructData(2, [Entry("self", Struct(0))], None)];
    OneSlot("self", 0);
    OneVariable();
    OneSettled(b);
    hide EraseFate, Settled;
    SelfErased([Struct(0)], b, 0, "self");
  }

  lemma OneVariable()
    ensures CountAll([Struct(0)]) == multiset{0} && Roots([Struct(0)]) == {0}
  {
    assert [Struct(0)] == [] + [Struct(0)];
    CountAllAppend([], Struct(0));
    assert multiset([0]) == multiset{0};
  }

  lemma OneSettled(b: Blocks)
    requires b.Keys == {0} && b[0].meta == None && Out(b[0]) == multiset{0} && b[0].refs == 2
    ensures Settled([Struct(0)], b)
  {
    hide EntryGraph, MetaGraph, Sum, Reach, CountAll, ToSet, Out, Roots;
    KeysSame(b);
    GraphsAt(b, 0);
    OneVariable();
    OneMap(EntryGraph(b), multiset{0});
    SumOfOne(0, multiset{0});
    NoMetaHeld(b, multiset{0});
    assert Total(b, multiset{0}) == multiset{0, 0};
    ReachStart(EntryGraph(b), {0});
    InKeys(EntryGraph(b), {0});
    OneInSet(0);
  }

  lemma OneMap(g: map<Addr, multiset<Addr>>, x: multiset<Addr>)
    requires g.Keys == {0} && g[0] == x
    ensures g == map[0 := x]
  {
  }

  // ------------------------------------------------------------- two structs

  /** A variable holds payload 0, whose only key refers to payload 1. */
  function Two(key: string, refs: int, back: seq<Entry>): Blocks
  {
    map[0 := StructData(2, [Entry(key, Struct(1))], None), 1 := StructData(refs, back, None)]
  }

  lemma TwoSettled(key: string, refs: int, back: seq<Entry>, y: multiset<Addr>)
    requires CountAll(ValuesOf(back)) == y && y[0] == 1 && refs == 1 + y[1] && y <= multiset{0, 1}
    ensures Settled([Struct(0)], Two(key, refs, back))
  {
    hide EntryGraph, MetaGraph, Sum, Reach, CountAll, ValuesOf, ToSet, Roots;
    var b := Two(key, refs, back);
    OneSlot(key, 1);
    KeysSame(b);
    GraphsAt(b, 0);
    GraphsAt(b, 1);
    OneVariable();
    TwoMap(EntryGraph(b), multiset{1}, y);
    SumOfTwo(multiset{1}, y);
    NoMetaHeld(b, multiset{0});
    assert Total(b, multiset{0}) == multiset{0} + (multiset{1} + y);
    OneInSet(0);
    assert Kids(EntryGraph(b), 0) == {1};
    TwoReached(EntryGraph(b));
  }

  lemma TwoReached(g: map<Addr, multiset<Addr>>)
    requires g.Keys == {0, 1} && Kids(g, 0) == {1}
    ensures Reach(g, {0}) == {0, 1}
  {
    assert 0 in Steps(g, {0}, 0);
    assert 1 in Steps(g, {0}, 1);
  }

  lemma TwoWithout(key: string, refs: int, back: seq<Entry>, y: multiset<Addr>)
    requires CountAll(ValuesOf(back)) == y
    ensures var b := Two(key, refs, back); EntryGraph(SetEntries(b, 0, [])) == map[0 := multiset{}, 1 := y]
  {
    hide EntryGraph, MetaGraph, CountAll, ValuesOf;
    var b := SetEntries(Two(key, refs, back), 0, []);
    KeysSame(b);
    GraphsAt(b, 0);
    GraphsAt(b, 1);
    NoSlots();
    TwoMap(EntryGraph(b), multiset{}, y);
  }

  /** `t.me = t; t.up = s; s.k = t` and `t` gone: erasing `k` leaves `t` as garbage. */
  lemma CycleLeaked()
    ensures var b := Two("k", 2, [Entry("me", Struct(1)), Entry("up", Struct(0))]);
            Settled([Struct(0)], b) && EraseFate([Struct(0)], b, 0, "k") == Leaked
  {
    hide EraseFate, Settled, CountAll, Fate, EntryGraph, ValuesOf, SetEntries;
    var back := [Entry("me", Struct(1)), Entry("up", Struct(0))];
    var b := Two("k", 2, back);
    TwoSlots("me", 1, "up", 0);
    assert multiset{1} + multiset{0} == multiset{1, 0};
    TwoSettled("k", 2, back, multiset{1, 0});
    TwoWithout("k", 2, back, multiset{1, 0});
    OnlyKeyFate([Struct(0)], b, 0, "k", 1);
    OneVariable();
    LeakedFate(map[0 := multiset{}, 1 := multiset{1, 0}]);
  }

  lemma TwoSlots(k: string, m: Addr, l: string, n: Addr)
    ensures CountAll(ValuesOf([Entry(k, Struct(m)), Entry(l, Struct(n))])) == multiset{m} + multiset{n}
  {
    hide CountAll, ValuesOf, Count;
    var es, e := [Entry(k, Struct(m))], Entry(l, Struct(n));
    assert es + [e] == [Entry(k, Struct(m)), Entry(l, Struct(n))];
    OneSlot(k, m);
    OneSlot(l, n);
    SlotsAppend(es, e);
  }

  lemma BackReached(g: map<Addr, multiset<Addr>>)
    requires g == map[0 := multiset{}, 1 := multiset{1, 0}]
    ensures Reach(g, {1}) == {0, 1} && Reach(g, {0}) == {0}
  {
    assert 1 in Steps(g, {1}, 0) && 0 in Kids(g, 1) && 0 in Steps(g, {1}, 1);
    assert Kids(g, 0) == {};
    ReachLeast(g, {0}, {0});
    assert 0 in Steps(g, {0}, 0);
  }

  lemma LeakedFate(g: map<Addr, multiset<Addr>>)
    requires g == map[0 := multiset{}, 1 := multiset{1, 0}]
    ensures Fate(g, multiset{0}, 0, 1, false) == Leaked
  {
    BackReached(g);
    SumOfTwo(multiset{}, multiset{1, 0});
    assert Restrict(g, g.Keys - {0, 1}) == map[];
    assert Sum(Restrict(g, g.Keys - {0, 1})) == multiset{};
    hide Reach, Sum, Restrict;
    assert Holders(multiset{0}) == {0};
    assert Seeds(g, multiset{0}, 1) == {0};
  }

  /** `t.up = s; s.k = t` and `t` gone: erasing `k` deletes `t`, and the collection that ends
      that walks into `t`. */
  lemma ParentWalked()
    ensures var b := Two("k", 1, [Entry("up", Struct(0))]);
            Settled([Struct(0)], b) && EraseFate([Struct(0)], b, 0, "k") == Undefined
  {
    var back := [Entry("up", Struct(0))];
    var b := Two("k", 1, back);
    OneSlot("up", 0);
    hide EraseFate, Settled, CountAll, Fate, EntryGraph, ValuesOf;
    TwoSettled("k", 1, back, multiset{0});
    TwoWithout("k", 1, back, multiset{0});
    OnlyKeyFate([Struct(0)], b, 0, "k", 1);
    OneVariable();
    WalkedFate(map[0 := multiset{}, 1 := multiset{0}]);
  }

  lemma WalkedFate(g: map<Addr, multiset<Addr>>)
    requires g == map[0 := multiset{}, 1 := multiset{0}]
    ensures Fate(g, multiset{0}, 0, 1, false) == Undefined
  {
    assert 1 in Steps(g, {1}, 0) && 0 in Kids(g, 1) && 0 in Steps(g, {1}, 1);
    SumOfTwo(multiset{}, multiset{0});
  }
}
