/** Whole runs: program variables on top of the memory manager. */
module Runtime {
  import opened Common
  import opened Multigraph
  import opened Values
  import opened HeapModel
  import opened Linked
  import opened Places
  import opened Memory

  /** The state between two steps of a program: counts are exact and exactly what the
      variables reach is allocated. */
  ghost predicate Settled(vars: seq<Value>, b: Blocks)
  {
    && Exact(b, CountAll(vars))
    && NoMeta(b)
    && GarbageFree(b, CountAll(vars))
  }

  /** The state inside a step: `temp` holds references besides the variables. */
  ghost predicate Unsettled(vars: seq<Value>, b: Blocks, temp: multiset<Addr>)
  {
    && Exact(b, CountAll(vars) + temp)
    && NoMeta(b)
    && GarbageFree(b, CountAll(vars) + temp)
  }

  /** Surviving payloads keep their slots, but for `changed`. */
  ghost predicate SameSlots(b: Blocks, b': Blocks, changed: set<Addr>)
  {
    forall n :: n in b' && n !in changed ==> n in b && b'[n].entries == b[n].entries
  }

  /** Overwriting the slot of a place: variables and heap, before the old value goes. */
  function WriteVars(vars: seq<Value>, b: Blocks, p: Place, v: Value): seq<Value>
    requires Read(vars, b, p).Some?
  {
    if p.InVar? then vars[p.i := WithElement(vars[p.i], p.path, v)] else vars
  }

  function WriteEntries(vars: seq<Value>, b: Blocks, p: Place, v: Value): seq<Entry>
    requires p.InStruct? && Read(vars, b, p).Some?
  {
    var es := b[p.sd].entries;
    es[p.k := es[p.k].(value := WithElement(es[p.k].value, p.path, v))]
  }

  /** One place was overwritten, no other slot changed. */
  ghost predicate Written(vars: seq<Value>, b: Blocks, p: Place, v: Value, vars': seq<Value>, b': Blocks)
    requires Read(vars, b, p).Some?
  {
    && vars' == WriteVars(vars, b, p, v)
    && SameSlots(b, b', if p.InStruct? then {p.sd} else {})
    && (p.InStruct? ==> p.sd in b' && b'[p.sd].entries == WriteEntries(vars, b, p, v))
  }

  // ------------------------------------------------------------------- lemmas

  lemma WriteVarCounts(vars: seq<Value>, b: Blocks, p: Place, v: Value)
    requires p.InVar? && Read(vars, b, p).Some?
    ensures CountAll(WriteVars(vars, b, p, v)) + Count(Read(vars, b, p).value) == CountAll(vars) + Count(v)
  {
    var w := WithElement(vars[p.i], p.path, v);
    CountWithElement(vars[p.i], p.path, v);
    CountAllUpdate(vars, p.i, w);
    hide Refs, RefsAll;
    CountExchange(CountAll(vars), CountAll(vars[p.i := w]), Count(vars[p.i]), Count(w),
                  Count(v), Count(Read(vars, b, p).value));
  }

  lemma WriteEntryCounts(vars: seq<Value>, b: Blocks, p: Place, v: Value)
    requires p.InStruct? && Read(vars, b, p).Some?
    ensures CountAll(ValuesOf(WriteEntries(vars, b, p, v))) + Count(Read(vars, b, p).value) == Out(b[p.sd]) + Count(v)
  {
    var es := b[p.sd].entries;
    var x := es[p.k].value;
    var w := WithElement(x, p.path, v);
    CountWithElement(x, p.path, v);
    CountAllUpdate(ValuesOf(es), p.k, w);
    assert ValuesOf(WriteEntries(vars, b, p, v)) == ValuesOf(es)[p.k := w];
    hide Refs, RefsAll;
    CountExchange(CountAll(ValuesOf(es)), CountAll(ValuesOf(es)[p.k := w]), Count(x), Count(w),
                  Count(v), Count(Read(vars, b, p).value));
  }

  lemma SwapVar(vars: seq<Value>, b: Blocks, p: Place, v: Value)
    requires p.InVar? && Read(vars, b, p).Some? && Unsettled(vars, b, Count(v))
    ensures Unsettled(WriteVars(vars, b, p, v), b, Count(Read(vars, b, p).value))
  {
    hide Exact, GarbageFree;
    WriteVarCounts(vars, b, p, v);
  }

  /** New slots for a reachable struct: what they take was held in `temp`, what they give
      up is held in `dropped`. */
  lemma StoreEntries(vars: seq<Value>, b: Blocks, sd: Addr, entries: seq<Entry>,
                     temp: multiset<Addr>, dropped: multiset<Addr>)
    requires Unsettled(vars, b, temp) && sd in b && sd in Reach(EntryGraph(b), Roots(vars))
    requires CountAll(ValuesOf(entries)) + dropped == Out(b[sd]) + temp
    requires temp <= CountAll(ValuesOf(entries))
    ensures Unsettled(vars, SetEntries(b, sd, entries), dropped)
    ensures sd in Reach(EntryGraph(SetEntries(b, sd, entries)), Roots(vars))
  {
    var b', out := SetEntries(b, sd, entries), CountAll(ValuesOf(entries));
    var h := CountAll(vars);
    assert h + dropped + out == h + temp + Out(b[sd]) by { Regroup(h, dropped, out, temp, Out(b[sd])); }
    SetEntriesExact(b, h + temp, sd, entries, h + dropped);
    NoMetaSet(b, sd, entries);
    EdgesStay(b, h + temp);
    EdgesStay(b', h + dropped);
    KeysSame(b);
    KeysSame(b');
    SetEntriesGraph(b, sd, entries);
    GraphsAt(b, sd);
    ToSetSum(h, temp);
    ToSetSum(h, dropped);
    KidsOf(EntryGraph(b), sd);
    KidsOf(EntryGraph(b'), sd);
    KidsShift(Out(b[sd]), out, temp, dropped);
    hide Exact, EntryGraph, Out, Reach, CountAll, ValuesOf, NoMeta, ToSet, Kids, Closed;
    RerouteComplete(EntryGraph(b), EntryGraph(b'), Roots(vars), ToSet(temp), ToSet(dropped), sd);
  }

  lemma Regroup(h: multiset<Addr>, dropped: multiset<Addr>, out: multiset<Addr>, temp: multiset<Addr>,
                out': multiset<Addr>)
    requires out + dropped == out' + temp
    ensures h + dropped + out == h + temp + out'
  {
    assert h + dropped + out == h + (out + dropped);
    assert h + temp + out' == h + (out' + temp);
  }

  lemma KidsOf(g: map<Addr, multiset<Addr>>, n: Addr)
    requires n in g
    ensures Kids(g, n) == ToSet(g[n])
  {
  }

  lemma KidsShift(out: multiset<Addr>, out': multiset<Addr>, temp: multiset<Addr>, dropped: multiset<Addr>)
    requires out' + dropped == out + temp && temp <= out'
    ensures ToSet(temp) <= ToSet(out') && ToSet(out) <= ToSet(out') + ToSet(dropped)
  {
    forall n | n in out ensures n in out' || n in dropped {
      assert n in out + temp;
    }
  }

  lemma NoMetaSet(b: Blocks, sd: Addr, entries: seq<Entry>)
    requires NoMeta(b) && sd in b
    ensures NoMeta(SetEntries(b, sd, entries))
  {
  }

  /** What is reached by a set of survivors survives. */
  lemma ReachedSurvive(b: Blocks, b': Blocks, h': multiset<Addr>, roots: set<Addr>)
    requires Exact(b', h') && Shrunk(b, b') && roots <= b'.Keys
    ensures Reach(EntryGraph(b), roots) <= b'.Keys
  {
    EdgesStay(b', h');
    KeysSame(b);
    KeysSame(b');
    ShrunkGraph(b, b');
    hide Exact, EntryGraph, Reach;
    assert forall n :: n in b'.Keys ==> Kids(EntryGraph(b'), n) == Kids(EntryGraph(b), n);
    ReachLeast(EntryGraph(b), roots, b'.Keys);
  }

  lemma GiveBack(x: multiset<Addr>, y: multiset<Addr>)
    ensures x + y - y == x
  {
  }

  /** What a destroyed value leaves of an unsettled state: a settled one, in which every
      struct the variables reach survives. */
  lemma Settle(vars: seq<Value>, b: Blocks, v: Value, b': Blocks, h': multiset<Addr>)
    requires Unsettled(vars, b, Count(v))
    requires Destroyed(b, CountAll(vars) + Count(v), b', h', Count(v), false)
    ensures h' == CountAll(vars) && Settled(vars, b') && SameSlots(b, b', {})
    ensures Reach(EntryGraph(b), Roots(vars)) <= b'.Keys
  {
    GiveBack(CountAll(vars), Count(v));
    hide Exact, EntryGraph, GarbageFree, NoMeta, Reach, CountAll, Count;
    NoMetaShrunk(b, b');
    EdgesStay(b', h');
    ReachedSurvive(b, b', h', Roots(vars));
  }

  lemma StillWritten(vars: seq<Value>, b: Blocks, p: Place, v: Value, vars': seq<Value>, b1: Blocks, b': Blocks)
    requires Read(vars, b, p).Some? && Written(vars, b, p, v, vars', b1) && SameSlots(b1, b', {})
    requires p.InStruct? ==> p.sd in b'
    ensures Written(vars, b, p, v, vars', b')
  {
    hide Read, WriteVars, WriteEntries;
  }

  /** A value read from a place names allocated payloads only. */
  lemma ReadAllocated(vars: seq<Value>, b: Blocks, p: Place)
    requires Exact(b, CountAll(vars)) && Read(vars, b, p).Some?
    ensures forall n :: n in Count(Read(vars, b, p).value) ==> n in b
  {
    EdgesStay(b, CountAll(vars));
    CountElementAt(Slot(vars, b, p).value, p.path);
    hide Exact, EntryGraph, Reach, Refs, RefsAll;
    forall n | n in Count(Read(vars, b, p).value) ensures n in b {
      assert n in Count(Slot(vars, b, p).value);
      match p
      case InVar(i, _) =>
        CountAllSplit(vars, i);
        CountAllStep(vars, i);
        assert n in ToSet(CountAll(vars));
      case InStruct(s, k, _) =>
        var vs := ValuesOf(b[s].entries);
        CountAllSplit(vs, k);
        CountAllStep(vs, k);
        GraphsAt(b, s);
        assert n in Kids(EntryGraph(b), s);
    }
  }

  /** Copying takes references to payloads the variables reach already. */
  lemma CopyUnsettles(vars: seq<Value>, b: Blocks, b': Blocks, temp: multiset<Addr>)
    requires Settled(vars, b) && SameContents(b, b') && Exact(b', CountAll(vars) + temp)
    ensures Unsettled(vars, b', temp)
    ensures Reach(EntryGraph(b'), Roots(vars)) == Reach(EntryGraph(b), Roots(vars)) == b.Keys
  {
    hide Exact, EntryGraph, Reach, Closed, CountAll, ToSet;
    SameContentsGraph(b, b');
    KeysSame(b);
    EdgesStay(b, CountAll(vars));
    EdgesStay(b', CountAll(vars) + temp);
    ToSetSum(CountAll(vars), temp);
    ReachGrows(EntryGraph(b), Roots(vars), ToSet(CountAll(vars) + temp));
    ReachKeys(EntryGraph(b), ToSet(CountAll(vars) + temp));
  }

  lemma ReachKeys(g: map<Addr, multiset<Addr>>, s: set<Addr>)
    ensures Reach(g, s) <= g.Keys
  {
  }

  lemma NothingSettled()
    ensures Settled([], map[])
  {
    assert EntryGraph(map[]) == map[] && MetaGraph(map[]) == map[];
  }

  lemma PlaceAllocated(vars: seq<Value>, b: Blocks, p: Place)
    requires p.InStruct? && Read(vars, b, p).Some?
    ensures p.sd in b && p.k < |b[p.sd].entries|
  {
  }

  lemma WriteEntryTakes(vars: seq<Value>, b: Blocks, p: Place, v: Value)
    requires p.InStruct? && Read(vars, b, p).Some?
    ensures Count(v) <= CountAll(ValuesOf(WriteEntries(vars, b, p, v)))
  {
    var es := WriteEntries(vars, b, p, v);
    var w := WithElement(b[p.sd].entries[p.k].value, p.path, v);
    ElementWritten(b[p.sd].entries[p.k].value, p.path, v);
    CountElementAt(w, p.path);
    CountAllSplit(ValuesOf(es), p.k);
    CountAllStep(ValuesOf(es), p.k);
  }

  lemma UnsettledExact(vars: seq<Value>, b: Blocks, temp: multiset<Addr>)
    requires Unsettled(vars, b, temp)
    ensures Exact(b, CountAll(vars) + temp)
  {
  }

  lemma HoldsPart(x: multiset<Addr>, y: multiset<Addr>)
    ensures y <= x + y
  {
  }

  lemma {:induction false} WithElementSame(v: Value, path: seq<nat>)
    requires ElementAt(v, path).Some?
    ensures WithElement(v, path, ElementAt(v, path).value) == v
  {
    if path != [] {
      WithElementSame(v.elems[path[0]], path[1..]);
    }
  }

  /** Assigning a place to itself changes nothing. */
  lemma WrittenSame(vars: seq<Value>, b: Blocks, p: Place)
    requires Read(vars, b, p).Some?
    ensures Written(vars, b, p, Read(vars, b, p).value, vars, b)
  {
    WithElementSame(Slot(vars, b, p).value, p.path);
  }

  /** Counting references does not change what places hold. */
  lemma SamePlaces(vars: seq<Value>, b: Blocks, b': Blocks, p: Place)
    requires SameContents(b, b') && Read(vars, b, p).Some?
    ensures Read(vars, b', p) == Read(vars, b, p)
    ensures p.InStruct? ==> forall v :: WriteEntries(vars, b', p, v) == WriteEntries(vars, b, p, v)
    ensures forall v :: WriteVars(vars, b', p, v) == WriteVars(vars, b, p, v)
  {
  }

  lemma WrittenFrom(vars: seq<Value>, b: Blocks, b1: Blocks, p: Place, v: Value, vars': seq<Value>, b': Blocks)
    requires Read(vars, b, p).Some? && SameContents(b, b1)
    requires Read(vars, b1, p).Some? && Written(vars, b1, p, v, vars', b')
    ensures Written(vars, b, p, v, vars', b')
  {
    SamePlaces(vars, b, b1, p);
  }

  lemma SettledReach(vars: seq<Value>, b: Blocks)
    requires Settled(vars, b)
    ensures Exact(b, CountAll(vars)) && Reach(EntryGraph(b), Roots(vars)) == b.Keys
    ensures Closed(EntryGraph(b), b.Keys) && Roots(vars) <= b.Keys
  {
    EdgesStay(b, CountAll(vars));
  }

  /** Between steps every place is in a struct that the variables reach. */
  lemma SettledPlace(vars: seq<Value>, b: Blocks, p: Place)
    requires Settled(vars, b) && Read(vars, b, p).Some?
    ensures Reachable(vars, b, p)
  {
    PlaceSlot(vars, b, p);
    hide Read, Exact, Reach, EntryGraph;
  }

  lemma PlaceSlot(vars: seq<Value>, b: Blocks, p: Place)
    requires Read(vars, b, p).Some?
    ensures p.InStruct? ==> p.sd in b
  {
  }

  lemma SettledUnsettled(vars: seq<Value>, b: Blocks)
    ensures Settled(vars, b) <==> Unsettled(vars, b, multiset{})
  {
    assert CountAll(vars) + multiset{} == CountAll(vars);
  }

  function Alloc(b: Blocks, a: Addr): Blocks
  {
    b[a := StructData(1, [], None)]
  }

  /** A new struct, held by the value that was made for it. */
  lemma AllocUnsettles(vars: seq<Value>, b: Blocks, a: Addr)
    requires Settled(vars, b) && a !in b
    ensures Unsettled(vars, Alloc(b, a), multiset{a})
  {
    assert ToSet(multiset{a}) == {a};
    hide Exact, EntryGraph, Reach, CountAll, ToSet, Closed;
    ToSetSum(CountAll(vars), multiset{a});
    AllocExact(b, CountAll(vars), a);
    SettledReach(vars, b);
    AllocGraph(b, a);
    KeysSame(b);
    InsertComplete(EntryGraph(b), Roots(vars), a);
  }

  lemma AllocExact(b: Blocks, h: multiset<Addr>, a: Addr)
    requires Exact(b, h) && a !in b
    ensures Exact(Alloc(b, a), h + multiset{a})
  {
    assert a !in Total(b, h);
    TallyAlloc(b, Total(b, h), a);
    KeysSame(b);
    hide EntryGraph, MetaGraph, Sum;
    AllocGraph(b, a);
    SumInsert(EntryGraph(b), a, multiset{});
    SumInsert(MetaGraph(b), a, multiset{});
    AllocSums(h, Sum(MetaGraph(b)), Sum(EntryGraph(b)), a);
  }

  lemma AllocGraph(b: Blocks, a: Addr)
    requires a !in b
    ensures EntryGraph(Alloc(b, a)) == EntryGraph(b)[a := multiset{}]
    ensures MetaGraph(Alloc(b, a)) == MetaGraph(b)[a := multiset{}]
  {
    var b' := Alloc(b, a);
    NoSlots();
    hide EntryGraph, MetaGraph, CountAll, ValuesOf;
    KeysSame(b);
    KeysSame(b');
    forall n | n in b'
      ensures EntryGraph(b')[n] == EntryGraph(b)[a := multiset{}][n]
      ensures MetaGraph(b')[n] == MetaGraph(b)[a := multiset{}][n]
    {
      GraphsAt(b', n);
      if n != a {
        GraphsAt(b, n);
      }
    }
  }

  lemma AllocSums(h: multiset<Addr>, y: multiset<Addr>, z: multiset<Addr>, a: Addr)
    ensures h + multiset{a} + (y + multiset{}) + (z + multiset{}) == h + y + z + multiset{a}
  {
  }

  lemma TallyAlloc(b: Blocks, total: multiset<Addr>, a: Addr)
    requires Tallies(b, total) && a !in b
    ensures Tallies(Alloc(b, a), total + multiset{a})
  {
  }

  lemma AllocReachable(vars: seq<Value>, b: Blocks, a: Addr, p: Place)
    requires Settled(vars, b) && a !in b && Reachable(vars, b, p) && Read(vars, b, p).Some?
    ensures Reachable(vars, Alloc(b, a), p)
    ensures Read(vars, Alloc(b, a), p).Some?
  {
    hide EntryGraph, MetaGraph, Exact, CountAll, Settled, Reach, Roots, Closed;
    SettledReach(vars, b);
    AllocGraph(b, a);
    KeysSame(b);
    InsertReach(EntryGraph(b), Roots(vars), a);
  }

  lemma SlotsAppend(es: seq<Entry>, e: Entry)
    ensures CountAll(ValuesOf(es + [e])) == CountAll(ValuesOf(es)) + Count(e.value)
  {
    hide Count;
    assert ValuesOf(es + [e]) == ValuesOf(es) + [e.value];
    CountAllAppend(ValuesOf(es), e.value);
  }

  /** A struct reached by the variables can be given an entry whose value is held. */
  lemma PutUnsettles(vars: seq<Value>, b: Blocks, sd: Addr, e: Entry)
    requires Unsettled(vars, b, Count(e.value)) && sd in b && sd in Reach(EntryGraph(b), Roots(vars))
    ensures Settled(vars, SetEntries(b, sd, b[sd].entries + [e]))
    ensures sd in Reach(EntryGraph(SetEntries(b, sd, b[sd].entries + [e])), Roots(vars))
  {
    hide Unsettled, Settled, Exact, EntryGraph, Reach, CountAll, Count, Out, ValuesOf;
    var es := b[sd].entries;
    SlotsAppend(es, e);
    SlotsOut(b[sd]);
    HoldsPart(Out(b[sd]), Count(e.value));
    StoreEntries(vars, b, sd, es + [e], Count(e.value), multiset{});
    SettledUnsettled(vars, SetEntries(b, sd, es + [e]));
  }

  /** The slots without the one at index `k`. */
  function Without(es: seq<Entry>, k: nat): seq<Entry>
    requires k < |es|
  {
    es[..k] + es[k + 1..]
  }

  lemma SlotsWithout(es: seq<Entry>, k: nat)
    requires k < |es|
    ensures CountAll(ValuesOf(Without(es, k))) + Count(es[k].value) == CountAll(ValuesOf(es))
  {
    var vs := ValuesOf(es);
    CountAllSplit(vs, k);
    CountAllStep(vs, k);
    assert ValuesOf(Without(es, k)) == vs[..k] + vs[k + 1..];
    RefsAllConcat(vs[..k], vs[k + 1..]);
  }

  /** An unlinked entry leaves the struct reached and its value held. */
  lemma EraseUnsettles(vars: seq<Value>, b: Blocks, sd: Addr, k: nat)
    requires Settled(vars, b) && sd in b && k < |b[sd].entries|
    ensures var b' := SetEntries(b, sd, Without(b[sd].entries, k));
            Unsettled(vars, b', Count(b[sd].entries[k].value)) && sd in Reach(EntryGraph(b'), Roots(vars))
  {
    hide Unsettled, Settled, Exact, EntryGraph, Reach, CountAll, Count, Out, ValuesOf, Without;
    var es := b[sd].entries;
    SettledReach(vars, b);
    SettledUnsettled(vars, b);
    SlotsWithout(es, k);
    SlotsOut(b[sd]);
    StoreEntries(vars, b, sd, Without(es, k), multiset{}, Count(es[k].value));
  }

  // ---------------------------------------------------------- clearing in place

  /** A struct that is being cleared, as the collector sees it: the references `rs` have not
      been released yet. */
  function Shown(rs: seq<Addr>): seq<Entry>
  {
    [Entry("", Array(seq(|rs|, i requires 0 <= i < |rs| => Struct(rs[i]))))]
  }

  lemma {:induction false} StructRefs(rs: seq<Addr>)
    ensures RefsAll(seq(|rs|, i requires 0 <= i < |rs| => Struct(rs[i]))) == rs
  {
    var vs := seq(|rs|, i requires 0 <= i < |rs| => Struct(rs[i]));
    if rs != [] {
      StructRefs(rs[1..]);
      assert vs[1..] == seq(|rs[1..]|, i requires 0 <= i < |rs[1..]| => Struct(rs[1..][i]));
    }
  }

  lemma ShownCounts(rs: seq<Addr>)
    ensures CountAll(ValuesOf(Shown(rs))) == multiset(rs)
  {
    StructRefs(rs);
    var v := Array(seq(|rs|, i requires 0 <= i < |rs| => Struct(rs[i])));
    var vs := ValuesOf(Shown(rs));
    assert vs == [] + [v];
    CountAllAppend([], v);
    assert CountAll([]) == multiset{};
  }

  lemma ShownStep(rs: seq<Addr>)
    requires rs != []
    ensures CountAll(ValuesOf(Shown(rs))) == CountAll(ValuesOf(Shown(rs[1..]))) + multiset{rs[0]}
    ensures CountAll(ValuesOf(Shown(rs))) - multiset{rs[0]} == CountAll(ValuesOf(Shown(rs[1..])))
  {
    ShownCounts(rs);
    ShownCounts(rs[1..]);
    assert rs == [rs[0]] + rs[1..];
  }

  /** Other slots with the same references. */
  lemma SameReferences(vars: seq<Value>, b: Blocks, sd: Addr, es: seq<Entry>)
    requires Settled(vars, b) && sd in b && CountAll(ValuesOf(es)) == Out(b[sd])
    ensures var b' := SetEntries(b, sd, es);
            && Settled(vars, b') && EntryGraph(b') == EntryGraph(b) && sd in b' && b'[sd].entries == es
            && SameSlots(b, b', {sd})
  {
    hide Exact, EntryGraph, Reach, Out, CountAll, ValuesOf, NoMeta, Roots, ToSet, SetEntries;
    var b' := SetEntries(b, sd, es);
    SetEntriesExact(b, CountAll(vars), sd, es, CountAll(vars));
    SameGraph(b, sd, es);
    NoMetaSet(b, sd, es);
    SetEntriesSlots(b, sd, es);
  }

  lemma SameGraph(b: Blocks, sd: Addr, es: seq<Entry>)
    requires sd in b && CountAll(ValuesOf(es)) == Out(b[sd])
    ensures EntryGraph(SetEntries(b, sd, es)) == EntryGraph(b)
  {
    hide EntryGraph, Out, CountAll, ValuesOf, SetEntries;
    SetEntriesGraph(b, sd, es);
    GraphsAt(b, sd);
  }

  lemma SetEntriesSlots(b: Blocks, sd: Addr, es: seq<Entry>)
    requires sd in b
    ensures var b' := SetEntries(b, sd, es);
            b'.Keys == b.Keys && b'[sd].entries == es && SameSlots(b, b', {sd})
  {
  }

  /** One reference fewer, and everything freed that the variables no longer reach. */
  lemma ShownReleased(vars: seq<Value>, b: Blocks, sd: Addr, rs: seq<Addr>, b': Blocks)
    requires Settled(vars, b) && sd in b && b[sd].entries == Shown(rs) && rs != []
    requires Exact(b', CountAll(vars)) && Shrunk(SetEntries(b, sd, Shown(rs[1..])), b') && GarbageFree(b', CountAll(vars))
    ensures Settled(vars, b') && sd in b' && b'[sd].entries == Shown(rs[1..]) && SameSlots(b, b', {sd})
    ensures var g := EntryGraph(b);
            && sd in g && EntryGraph(SetEntries(b, sd, Shown(rs[1..]))) == Fewer(g, sd, rs[0])
            && EntryGraph(b') == Trimmed(Fewer(g, sd, rs[0]), CountAll(vars))
  {
    hide Exact, EntryGraph, Reach, Out, CountAll, ValuesOf, NoMeta, Roots, ToSet, SetEntries, Holders, Trimmed, Closed, Shown;
    var h, left := CountAll(vars), Shown(rs[1..]);
    var b1 := SetEntries(b, sd, left);
    ShownStep(rs);
    SlotsOut(b[sd]);
    LinkedView(b, h, sd, rs[0], left);
    LinkedReached(b, h, sd, rs[0], left);
    SetEntriesSlots(b, sd, left);
    SetEntriesGraph(b, sd, left);
    KeysSame(b);
    GraphsAt(b, sd);
    NoMetaShrunk(b1, b');
    EdgesStay(b', h);
    ReachedSurvive(b1, b', h, ToSet(h));
    ShrunkGraph(b1, b');
    KeysSame(b');
    GarbageFreeIs(b', h);
    KeptTrims(EntryGraph(b1), h, b'.Keys);
  }

  lemma ShownGraph(vars: seq<Value>, b: Blocks, sd: Addr, rs: seq<Addr>)
    requires sd in b && b[sd].entries == Shown(rs) && rs != []
    ensures var g := EntryGraph(b);
            sd in g && EntryGraph(SetEntries(b, sd, Shown(rs[1..]))) == Fewer(g, sd, rs[0])
  {
    hide EntryGraph, Out, CountAll, ValuesOf, SetEntries, Shown;
    ShownStep(rs);
    SlotsOut(b[sd]);
    SetEntriesGraph(b, sd, Shown(rs[1..]));
    GraphsAt(b, sd);
  }

  lemma NothingShown(vars: seq<Value>, b: Blocks, sd: Addr, rs: seq<Addr>)
    requires Settled(vars, b) && sd in b && b[sd].entries == Shown(rs) && rs == []
    ensures var b' := SetEntries(b, sd, []);
            Settled(vars, b') && sd in b' && b'[sd].entries == [] && SameSlots(b, b', {sd})
  {
    hide Settled, CountAll, ValuesOf, Out, SetEntries, SameSlots, Shown;
    NoSlots();
    ShownCounts(rs);
    SlotsOut(b[sd]);
    SameReferences(vars, b, sd, []);
  }

  lemma SettledParts(vars: seq<Value>, b: Blocks)
    ensures Settled(vars, b) <==> Exact(b, CountAll(vars)) && NoMeta(b) && GarbageFree(b, CountAll(vars))
  {
  }

  lemma SameSlotsThen(b0: Blocks, b1: Blocks, b2: Blocks, sd: Addr)
    requires SameSlots(b0, b1, {sd}) && SameSlots(b1, b2, {sd})
    ensures SameSlots(b0, b2, {sd})
  {
  }

  /** The references of a map's values in the order in which clearing it destroys them: those
      of the last key first.  The order of the others makes no difference, since none of them
      may lead back. */
  function ClearedRefs(es: seq<Entry>): (rs: seq<Addr>)
  {
    if es == [] then [] else
    var k := Greatest(es);
    Refs(es[k].value) + RefsAll(ValuesOf(Without(es, k)))
  }

  /** How many of them are released before a node of the map is freed. */
  function ClearedFirst(es: seq<Entry>): nat
  {
    if es == [] then 0 else |Refs(es[Greatest(es)].value)|
  }

  lemma ClearedCounts(es: seq<Entry>)
    ensures multiset(ClearedRefs(es)) == CountAll(ValuesOf(es))
  {
    if es == [] {
      NoSlots();
    } else {
      SlotsWithout(es, Greatest(es));
      hide Refs, RefsAll, Greatest;
    }
  }

  /** What clearing a struct in place comes to. */
  ghost function ClearFate(vars: seq<Value>, b: Blocks, sd: Addr): Outcome
    requires sd in b
  {
    FateAll(EntryGraph(b), CountAll(vars), sd, ClearedRefs(b[sd].entries), ClearedFirst(b[sd].entries))
  }

  /** What erasing a key comes to: the only key of a map is erased by clearing it. */
  ghost function EraseFate(vars: seq<Value>, b: Blocks, sd: Addr, key: string): Outcome
    requires sd in b
  {
    if |b[sd].entries| == 1 && Find(b[sd].entries, key).Some? then ClearFate(vars, b, sd) else Kept
  }

  /** The value of an array place after `push_back`. */
  function Pushed(vars: seq<Value>, b: Blocks, p: Place, v: Value): Value
    requires Read(vars, b, p).Some? && Read(vars, b, p).value.Array?
  {
    Array(Read(vars, b, p).value.elems + [v])
  }

  lemma PushedCounts(vars: seq<Value>, b: Blocks, p: Place, v: Value)
    requires Read(vars, b, p).Some? && Read(vars, b, p).value.Array?
    ensures Count(Pushed(vars, b, p, v)) == Count(Read(vars, b, p).value) + Count(v)
  {
    var es := Read(vars, b, p).value.elems;
    CountAllAppend(es, v);
    CountArray(es);
    CountArray(es + [v]);
  }

  lemma PushVar(vars: seq<Value>, b: Blocks, p: Place, v: Value)
    requires p.InVar? && Read(vars, b, p).Some? && Read(vars, b, p).value.Array?
    requires Unsettled(vars, b, Count(v))
    ensures var w := WriteVars(vars, b, p, Pushed(vars, b, p, v));
            CountAll(w) == CountAll(vars) + Count(v) && Settled(w, b)
  {
    PushedCounts(vars, b, p, v);
    WriteVarCounts(vars, b, p, Pushed(vars, b, p, v));
    hide Exact, GarbageFree, Refs, RefsAll, Read;
    AppendCounts(CountAll(vars), CountAll(WriteVars(vars, b, p, Pushed(vars, b, p, v))),
                 Count(Read(vars, b, p).value), Count(v));
  }

  lemma PushEntries(vars: seq<Value>, b: Blocks, p: Place, v: Value)
    requires p.InStruct? && Read(vars, b, p).Some? && Read(vars, b, p).value.Array?
    requires Unsettled(vars, b, Count(v)) && Reachable(vars, b, p)
    ensures Settled(vars, SetEntries(b, p.sd, WriteEntries(vars, b, p, Pushed(vars, b, p, v))))
  {
    var x := Pushed(vars, b, p, v);
    var es := WriteEntries(vars, b, p, x);
    PlaceAllocated(vars, b, p);
    PushedCounts(vars, b, p, v);
    WriteEntryCounts(vars, b, p, x);
    WriteEntryTakes(vars, b, p, x);
    hide Unsettled, Settled, Exact, EntryGraph, Reach, Out, CountAll, Count, ValuesOf, Read;
    AppendCounts(Out(b[p.sd]), CountAll(ValuesOf(es)), Count(Read(vars, b, p).value), Count(v));
    HoldsPart(Out(b[p.sd]), Count(v));
    StoreEntries(vars, b, p.sd, es, Count(v), multiset{});
    SettledUnsettled(vars, SetEntries(b, p.sd, es));
  }

  lemma WrittenEntries(vars: seq<Value>, b: Blocks, p: Place, v: Value)
    requires p.InStruct? && Read(vars, b, p).Some?
    ensures Written(vars, b, p, v, vars, SetEntries(b, p.sd, WriteEntries(vars, b, p, v)))
  {
  }

  lemma WrittenVars(vars: seq<Value>, b: Blocks, p: Place, v: Value)
    requires p.InVar? && Read(vars, b, p).Some?
    ensures Written(vars, b, p, v, WriteVars(vars, b, p, v), b)
  {
  }

  lemma DropUnsettles(vars: seq<Value>, b: Blocks)
    requires vars != [] && Settled(vars, b)
    ensures Unsettled(vars[..|vars| - 1], b, Count(vars[|vars| - 1]))
    ensures CountAll(vars) == CountAll(vars[..|vars| - 1]) + Count(vars[|vars| - 1])
  {
    assert vars == vars[..|vars| - 1] + [vars[|vars| - 1]];
    CountAllAppend(vars[..|vars| - 1], vars[|vars| - 1]);
    hide Exact, GarbageFree, Refs, RefsAll;
  }

  lemma DeclareSettles(vars: seq<Value>, b: Blocks)
    requires Settled(vars, b)
    ensures Settled(vars + [Scalar("")], b) && CountAll(vars + [Scalar("")]) == CountAll(vars)
  {
    CountAllAppend(vars, Scalar(""));
    assert Count(Scalar("")) == multiset{};
    hide Settled, CountAll, Count;
    assert CountAll(vars + [Scalar("")]) == CountAll(vars);
    SettledBy(vars, vars + [Scalar("")], b);
  }

  lemma SettledBy(vars: seq<Value>, vars': seq<Value>, b: Blocks)
    requires Settled(vars, b) && CountAll(vars') == CountAll(vars)
    ensures Settled(vars', b)
  {
    hide CountAll, Exact, GarbageFree, NoMeta;
  }

  lemma AppendCounts(all: multiset<Addr>, all': multiset<Addr>, es: multiset<Addr>, x: multiset<Addr>)
    requires all' + es == all + (es + x)
    ensures all' == all + x
  {
    forall n ensures all'[n] == (all + x)[n] {
      assert (all' + es)[n] == (all + (es + x))[n];
    }
  }

  /** A name in a program: a variable, then keys and indices. */
  datatype Name = Name(i: nat, steps: seq<Step>)

  function Lookup(vars: seq<Value>, b: Blocks, name: Name): (p: Option<Place>)
    ensures p.Some? ==> Read(vars, b, p.value).Some?
  {
    var p := Resolve(vars, b, InVar(name.i, []), name.steps);
    if p.Some? then ResolveReads(vars, b, InVar(name.i, []), name.steps); p else None
  }

  /** The steps of a program.  `SetStruct` carries the address the allocator hands out. */
  datatype Op =
    | Declare
    | Drop
    | SetScalar(dst: Name, text: string)
    | SetArray(dst: Name)
    | SetStruct(dst: Name, a: Addr)
    | Assign(dst: Name, src: Name)
    | Put(dst: Name, key: string, src: Name)
    | Push(dst: Name, src: Name)
    | Erase(dst: Name, key: string)
    | Clear(dst: Name)

  /** What a step does to the variables and the slots.  With `Settled`, which tells what is
      allocated and counted, this is the whole new state. */
  ghost predicate Performed(op: Op, vars: seq<Value>, b: Blocks, vars': seq<Value>, b': Blocks)
  {
    match op
    case Declare => vars' == vars + [Scalar("")] && b' == b
    case Drop =>
      if vars == [] then vars' == vars && b' == b else vars' == vars[..|vars| - 1] && SameSlots(b, b', {})
    case SetScalar(dst, text) => Assigned(vars, b, Lookup(vars, b, dst), Some(Scalar(text)), vars', b')
    case SetArray(dst) => Assigned(vars, b, Lookup(vars, b, dst), Some(Array([])), vars', b')
    case SetStruct(dst, a) =>
      var p := Lookup(vars, b, dst);
      if p.Some? && a !in b then Assigned(vars, Alloc(b, a), p, Some(Struct(a)), vars', b') else vars' == vars && b' == b
    case Assign(dst, src) => Assigned(vars, b, Lookup(vars, b, dst), ValueAt(vars, b, src), vars', b')
    case Put(dst, key, src) =>
      var d, v := ValueAt(vars, b, dst), ValueAt(vars, b, src);
      if d.Some? && v.Some? && d.value.Struct? && d.value.sd in b then
        KeySet(vars, b, d.value.sd, key, v.value, vars', b')
      else vars' == vars && b' == b
    case Push(dst, src) =>
      var d, v := ValueAt(vars, b, dst), ValueAt(vars, b, src);
      if d.Some? && v.Some? && d.value.Array? then
        Assigned(vars, b, Lookup(vars, b, dst), Some(Array(d.value.elems + [v.value])), vars', b')
      else vars' == vars && b' == b
    case Erase(dst, key) =>
      var d := ValueAt(vars, b, dst);
      if d.Some? && d.value.Struct? && d.value.sd in b then vars' == vars && KeyErased(b, d.value.sd, key, b')
      else vars' == vars && b' == b
    case Clear(dst) =>
      var d := ValueAt(vars, b, dst);
      if d.Some? && d.value.Struct? && d.value.sd in b then vars' == vars && Emptied(b, d.value.sd, b')
      else vars' == vars && b' == b
  }

  /** What a step comes to.  Only erasing and clearing release references in place. */
  ghost function StepFate(op: Op, vars: seq<Value>, b: Blocks): Outcome
  {
    match op
    case Erase(dst, key) =>
      var d := ValueAt(vars, b, dst);
      if d.Some? && d.value.Struct? && d.value.sd in b then EraseFate(vars, b, d.value.sd, key) else Kept
    case Clear(dst) =>
      var d := ValueAt(vars, b, dst);
      if d.Some? && d.value.Struct? && d.value.sd in b then ClearFate(vars, b, d.value.sd) else Kept
    case _ => Kept
  }

  /** The step did what it says. */
  ghost predicate Went(op: Op, s: (seq<Value>, Blocks), s': (seq<Value>, Blocks))
  {
    StepFate(op, s.0, s.1) == Kept && Performed(op, s.0, s.1, s'.0, s'.1)
  }

  lemma WentOn(op: Op, vars: seq<Value>, b: Blocks, vars': seq<Value>, b': Blocks)
    requires StepFate(op, vars, b) == Kept && Performed(op, vars, b, vars', b')
    ensures Went(op, (vars, b), (vars', b'))
  {
    hide StepFate, Performed;
  }

  /** The struct outlives its keys, and no other slot changes. */
  ghost predicate Emptied(b: Blocks, sd: Addr, b': Blocks)
  {
    sd in b' && b'[sd].entries == [] && SameSlots(b, b', {sd})
  }

  /** An existing key is overwritten, a new one is added. */
  ghost predicate KeySet(vars: seq<Value>, b: Blocks, sd: Addr, key: string, v: Value, vars': seq<Value>, b': Blocks)
    requires sd in b
  {
    match Find(b[sd].entries, key)
    case Some(k) => Assigned(vars, b, Some(InStruct(sd, k, [])), Some(v), vars', b')
    case None =>
      && vars' == vars && b'.Keys == b.Keys && SameSlots(b, b', {sd})
      && b'[sd].entries == b[sd].entries + [Entry(key, v)]
  }

  /** The struct outlives its key, and no other slot changes. */
  ghost predicate KeyErased(b: Blocks, sd: Addr, key: string, b': Blocks)
    requires sd in b
  {
    match Find(b[sd].entries, key)
    case Some(k) => sd in b' && b'[sd].entries == Without(b[sd].entries, k) && SameSlots(b, b', {sd})
    case None => b' == b
  }

  lemma FoundReads(vars: seq<Value>, b: Blocks, sd: Addr, key: string)
    requires sd in b
    ensures var f := Find(b[sd].entries, key); f.Some? ==> Read(vars, b, InStruct(sd, f.value, [])).Some?
  {
  }

  function ValueAt(vars: seq<Value>, b: Blocks, name: Name): Option<Value>
  {
    var p := Lookup(vars, b, name);
    if p.Some? then Read(vars, b, p.value) else None
  }

  /** The place takes the value; without either nothing happens. */
  ghost predicate Assigned(vars: seq<Value>, b: Blocks, p: Option<Place>, v: Option<Value>, vars': seq<Value>,
                           b': Blocks)
  {
    if p.Some? && v.Some? then Read(vars, b, p.value).Some? && Written(vars, b, p.value, v.value, vars', b')
    else vars' == vars && b' == b
  }

  /** What holds between any two steps of every payload `n`: a walk of `k` references from
      a variable ends in it, and its count is the number of references to it. */
  lemma SettledMeans(vars: seq<Value>, b: Blocks, n: Addr) returns (k: nat)
    requires Settled(vars, b) && n in b
    ensures n in Steps(EntryGraph(b), Roots(vars), k)
    ensures b[n].refs == CountAll(vars)[n] + Sum(EntryGraph(b))[n] > 0
  {
    SettledReach(vars, b);
    NoMetaHeld(b, CountAll(vars));
    ReachedHasReference(b, vars, n);
    hide EntryGraph, MetaGraph, Sum, CountAll, Reach, Steps;
    k := ReachWalk(EntryGraph(b), Roots(vars), n);
    assert Total(b, CountAll(vars)) == CountAll(vars) + Sum(EntryGraph(b));
  }

  /** Nor does a reference dangle, from a variable or from a slot. */
  lemma SettledNoDangling(vars: seq<Value>, b: Blocks, n: Addr)
    requires Settled(vars, b) && n in CountAll(vars) + Sum(EntryGraph(b))
    ensures n in b
  {
    hide EntryGraph, MetaGraph, Sum, CountAll, GarbageFree;
    assert n in Total(b, CountAll(vars));
  }

  lemma ReachedHasReference(b: Blocks, vars: seq<Value>, n: Addr)
    requires Settled(vars, b) && n in b
    ensures n in CountAll(vars) + Sum(EntryGraph(b))
  {
    SettledReach(vars, b);
    KeysSame(b);
    hide Exact, EntryGraph, Reach, CountAll, Sum, Settled;
    var p := ReachPredecessor(EntryGraph(b), Roots(vars), n);
    if n !in Roots(vars) {
      SumMember(EntryGraph(b), n);
    }
  }

  class Runtime {
    const memory: Memory
    var vars: seq<Value>

    ghost predicate Valid()
      reads this, memory
    {
      && !memory.inCollection
      && memory.holders == CountAll(vars)
      && Settled(vars, memory.blocks)
    }

    constructor ()
      ensures Valid() && vars == [] && memory.blocks == map[] && fresh(memory)
    {
      memory := new Memory();
      vars := [];
      new;
      NothingSettled();
    }

    /** The copy constructor: every struct in the value is shared and retained. */
    method CopyValue(v: Value) returns (c: Value)
      requires Exact(memory.blocks, memory.holders)
      requires forall n :: n in Count(v) ==> n in memory.blocks
      modifies memory`blocks, memory`holders
      ensures c == v
      ensures Exact(memory.blocks, memory.holders) && memory.holders == old(memory.holders) + Count(v)
      ensures SameContents(old(memory.blocks), memory.blocks)
      decreases v, 0
    {
      hide Exact, RefsAll;
      match v
      case Scalar(text) =>
        c := Scalar(text);
      case Struct(sd) =>
        assert Refs(v) == [sd];
        IncrementExact(memory.blocks, memory.holders, sd);
        memory.blocks := SetRefs(memory.blocks, sd, memory.blocks[sd].refs + 1);
        memory.holders := memory.holders + multiset{sd};
        c := v;
      case Array(elems) =>
        CountArray(elems);
        var copied := CopyAll(elems);
        c := Array(copied);
    }

    method CopyAll(vs: seq<Value>) returns (cs: seq<Value>)
      requires Exact(memory.blocks, memory.holders)
      requires forall n :: n in CountAll(vs) ==> n in memory.blocks
      modifies memory`blocks, memory`holders
      ensures cs == vs
      ensures Exact(memory.blocks, memory.holders) && memory.holders == old(memory.holders) + CountAll(vs)
      ensures SameContents(old(memory.blocks), memory.blocks)
      decreases vs, 1
    {
      hide Exact, Count, CountAll;
      cs := [];
      CountNone(vs);
      var i := 0;
      while i < |vs|
        invariant 0 <= i <= |vs| && cs == vs[..i]
        invariant Exact(memory.blocks, memory.holders)
        invariant memory.holders == old(memory.holders) + CountAll(vs[..i])
        invariant SameContents(old(memory.blocks), memory.blocks)
      {
        CountAllNext(vs, i, CountAll(vs));
        assert forall n :: n in Count(vs[i]) ==> n in CountAll(vs);
        var e := CopyValue(vs[i]);
        cs := cs + [e];
        i := i + 1;
      }
      assert vs[..i] == vs;
    }

    /** The swap of `operator=(cfvariant&&)`: the place is detached from what it held before
        anything is destroyed. */
    method SwapIn(dst: Place, v: Value) returns (out: Value)
      requires memory.holders == CountAll(vars) + Count(v)
      requires Unsettled(vars, memory.blocks, Count(v))
      requires Read(vars, memory.blocks, dst).Some? && Reachable(vars, memory.blocks, dst)
      modifies this`vars, memory`blocks, memory`holders
      ensures out == old(Read(vars, memory.blocks, dst)).value
      ensures memory.holders == CountAll(vars) + Count(out) && Unsettled(vars, memory.blocks, Count(out))
      ensures Written(old(vars), old(memory.blocks), dst, v, vars, memory.blocks)
      ensures dst.InStruct? ==> dst.sd in Reach(EntryGraph(memory.blocks), Roots(vars))
    {
      hide Unsettled, Settled, Read, ElementAt, Reach, Exact, CountAll, Count, EntryGraph;
      ghost var b := memory.blocks;
      out := Read(vars, memory.blocks, dst).value;
      if dst.InVar? {
        SwapVar(vars, b, dst, v);
        WriteVarCounts(vars, b, dst, v);
        vars := WriteVars(vars, memory.blocks, dst, v);
      } else {
        var entries := WriteEntries(vars, memory.blocks, dst, v);
        PlaceAllocated(vars, b, dst);
        WriteEntryCounts(vars, b, dst, v);
        WriteEntryTakes(vars, b, dst, v);
        StoreEntries(vars, b, dst.sd, entries, Count(v), Count(out));
        memory.blocks := SetEntries(memory.blocks, dst.sd, entries);
      }
      memory.holders := CountAll(vars) + Count(out);
    }

    /** `operator=(cfvariant&&)`: `v` takes the place, what it replaces is destroyed. */
    method MoveAssign(dst: Place, v: Value)
      requires !memory.inCollection && memory.holders == CountAll(vars) + Count(v)
      requires Unsettled(vars, memory.blocks, Count(v))
      requires Read(vars, memory.blocks, dst).Some? && Reachable(vars, memory.blocks, dst)
      modifies this`vars, memory
      ensures Valid()
      ensures Written(old(vars), old(memory.blocks), dst, v, vars, memory.blocks)
    {
      hide Unsettled, Settled, Read, Written, Reach, Exact, CountAll, Count, EntryGraph, Destroyed, SameSlots;
      ghost var vars0, b0 := vars, memory.blocks;
      var out := SwapIn(dst, v);
      ghost var b1 := memory.blocks;
      UnsettledExact(vars, b1, Count(out));
      HoldsPart(CountAll(vars), Count(out));
      memory.Destroy(out);
      Settle(vars, b1, out, memory.blocks, memory.holders);
      StillWritten(vars0, b0, dst, v, vars, b1, memory.blocks);
    }

    /** `operator=(const cfvariant&)`: copy, swap, destroy what was swapped out. */
    method CopyAssign(dst: Place, src: Place)
      requires Valid()
      requires Read(vars, memory.blocks, dst).Some? && Read(vars, memory.blocks, src).Some?
      modifies this`vars, memory
      ensures Valid()
      ensures Written(old(vars), old(memory.blocks), dst, old(Read(vars, memory.blocks, src).value), vars, memory.blocks)
    {
      hide Settled, Read, Written, Reach, Exact, CountAll, Count, EntryGraph, SameContents;
      if dst == src {
        WrittenSame(vars, memory.blocks, dst);
        return;
      }
      ghost var b0 := memory.blocks;
      SettledReach(vars, b0);
      ReadAllocated(vars, b0, src);
      var temp := CopyValue(Read(vars, memory.blocks, src).value);
      CopyUnsettles(vars, b0, memory.blocks, Count(temp));
      PlaceSlot(vars, b0, dst);
      SamePlaces(vars, b0, memory.blocks, dst);
      ghost var vars0, b1 := vars, memory.blocks;
      MoveAssign(dst, temp);
      WrittenFrom(vars0, b0, b1, dst, temp, vars, memory.blocks);
    }

    /** Assigning a fresh value without structs: a scalar or an empty array. */
    method AssignPlain(dst: Place, v: Value)
      requires Valid() && Refs(v) == [] && Read(vars, memory.blocks, dst).Some?
      modifies this`vars, memory
      ensures Valid()
      ensures Written(old(vars), old(memory.blocks), dst, v, vars, memory.blocks)
    {
      hide Settled, Read, Written, Reach, CountAll, EntryGraph;
      SettledPlace(vars, memory.blocks, dst);
      SettledUnsettled(vars, memory.blocks);
      assert Count(v) == multiset{};
      MoveAssign(dst, v);
    }

    /** Assigning a fresh struct, allocated at an address `a` not in use. */
    method AssignStruct(dst: Place, a: Addr)
      requires Valid() && a !in memory.blocks && Read(vars, memory.blocks, dst).Some?
      modifies this`vars, memory
      ensures Valid()
      ensures var b := Alloc(old(memory.blocks), a);
              && Read(old(vars), b, dst).Some?
              && Written(old(vars), b, dst, Struct(a), vars, memory.blocks)
    {
      hide Settled, Written, Reach, CountAll, EntryGraph, Exact;
      SettledPlace(vars, memory.blocks, dst);
      AllocUnsettles(vars, memory.blocks, a);
      AllocReachable(vars, memory.blocks, a, dst);
      assert Count(Struct(a)) == multiset{a};
      memory.blocks := Alloc(memory.blocks, a);
      memory.holders := memory.holders + multiset{a};
      MoveAssign(dst, Struct(a));
    }

    /** Adding a key: the entry takes a copy of the value. */
    method AddEntry(sd: Addr, key: string, src: Place)
      requires Valid() && sd in memory.blocks && Read(vars, memory.blocks, src).Some?
      modifies memory
      ensures Valid() && memory.blocks.Keys == old(memory.blocks.Keys)
      ensures memory.blocks[sd].entries ==
              old(memory.blocks)[sd].entries + [Entry(key, old(Read(vars, memory.blocks, src)).value)]
      ensures SameSlots(old(memory.blocks), memory.blocks, {sd})
    {
      hide Settled, Read, Reach, Exact, CountAll, Count, EntryGraph, Unsettled;
      ghost var b0 := memory.blocks;
      SettledReach(vars, b0);
      ReadAllocated(vars, b0, src);
      var temp := CopyValue(Read(vars, memory.blocks, src).value);
      CopyUnsettles(vars, b0, memory.blocks, Count(temp));
      PutUnsettles(vars, memory.blocks, sd, Entry(key, temp));
      memory.blocks := SetEntries(memory.blocks, sd, memory.blocks[sd].entries + [Entry(key, temp)]);
      memory.holders := CountAll(vars);
    }

    /** `structSet`: an existing key is copy-assigned, a new key is added. */
    method StructSet(sd: Addr, key: string, src: Place)
      requires Valid() && sd in memory.blocks && Read(vars, memory.blocks, src).Some?
      modifies this`vars, memory
      ensures Valid()
      ensures KeySet(old(vars), old(memory.blocks), sd, key, old(Read(vars, memory.blocks, src)).value, vars, memory.blocks)
    {
      hide Settled, Exact, CountAll, EntryGraph, Reach, Find, Written, Read, SameSlots;
      FoundReads(vars, memory.blocks, sd, key);
      match Find(memory.blocks[sd].entries, key)
      case Some(k) => CopyAssign(InStruct(sd, k, []), src);
      case None => AddEntry(sd, key, src);
    }

    /** The references `rs` of a struct are released one after the other while the collector
        can see those that are left, the first `k` of them before a node is freed. */
    method ReleaseAll(sd: Addr, rs: seq<Addr>, k: nat) returns (o: Outcome)
      requires Valid() && sd in memory.blocks && multiset(rs) == Out(memory.blocks[sd])
      modifies memory
      ensures o == FateAll(EntryGraph(old(memory.blocks)), CountAll(vars), sd, rs, k)
      ensures o.Kept? ==> Valid() && Emptied(old(memory.blocks), sd, memory.blocks)
      ensures o.Leaked? ==> Exact(memory.blocks, CountAll(vars)) && !GarbageFree(memory.blocks, CountAll(vars))
    {
      hide Settled, Exact, CountAll, EntryGraph, GarbageFree, Out, ValuesOf, Shown, SameSlots, SetEntries, FateAll;
      ghost var b0, h := memory.blocks, CountAll(vars);
      ShownCounts(rs);
      SameReferences(vars, b0, sd, Shown(rs));
      memory.blocks := SetEntries(memory.blocks, sd, Shown(rs));
      assert rs[0..] == rs;
      var i := 0;
      while i < |rs|
        invariant 0 <= i <= |rs| && Valid() && sd in memory.blocks && memory.blocks[sd].entries == Shown(rs[i..])
        invariant SameSlots(b0, memory.blocks, {sd})
        invariant FateAll(EntryGraph(b0), h, sd, rs, k) ==
                  FateAll(EntryGraph(memory.blocks), h, sd, rs[i..], if i < k then k - i else 0)
      {
        assert rs[i..][1..] == rs[i + 1..];
        ghost var b := memory.blocks;
        KeysSame(b);
        FateStep(EntryGraph(b), h, sd, rs[i..], if i < k then k - i else 0);
        o := ReleaseNext(sd, rs[i..], i >= k);
        if !o.Kept? { return; }
        SameSlotsThen(b0, b, memory.blocks, sd);
        i := i + 1;
      }
      NothingShown(vars, memory.blocks, sd, rs[i..]);
      FateNone(EntryGraph(memory.blocks), h, sd, rs[i..], if i < k then k - i else 0);
      SameSlotsThen(b0, memory.blocks, SetEntries(memory.blocks, sd, []), sd);
      memory.blocks := SetEntries(memory.blocks, sd, []);
      o := Kept;
    }

    method ReleaseNext(sd: Addr, rs: seq<Addr>, partly: bool) returns (o: Outcome)
      requires Valid() && sd in memory.blocks && memory.blocks[sd].entries == Shown(rs) && rs != []
      modifies memory
      ensures sd in EntryGraph(old(memory.blocks))
      ensures var rest := Fewer(EntryGraph(old(memory.blocks)), sd, rs[0]);
              && o == Fate(rest, CountAll(vars), sd, rs[0], partly)
              && (o.Kept? ==> EntryGraph(memory.blocks) == Trimmed(rest, CountAll(vars)))
      ensures o.Kept? ==> Valid() && sd in memory.blocks && memory.blocks[sd].entries == Shown(rs[1..])
      ensures o.Kept? ==> SameSlots(old(memory.blocks), memory.blocks, {sd})
      ensures o.Leaked? ==> Exact(memory.blocks, CountAll(vars)) && !GarbageFree(memory.blocks, CountAll(vars))
    {
      hide Settled, Exact, CountAll, EntryGraph, GarbageFree, Out, ValuesOf, Shown, SameSlots, Trimmed, Fate, NoMeta, Shrunk, SetEntries;
      ghost var b := memory.blocks;
      ShownStep(rs);
      SlotsOut(b[sd]);
      SettledParts(vars, b);
      ShownGraph(vars, b, sd, rs);
      o := memory.ReleaseLinked(sd, rs[0], Shown(rs[1..]), partly);
      if o.Kept? {
        ShownReleased(vars, b, sd, rs, memory.blocks);
      }
    }

    /** `clear`: the values are destroyed before the map forgets them. */
    method StructClear(sd: Addr) returns (o: Outcome)
      requires Valid() && sd in memory.blocks
      modifies memory
      ensures o == ClearFate(vars, old(memory.blocks), sd)
      ensures o.Kept? ==> Valid() && Emptied(old(memory.blocks), sd, memory.blocks)
      ensures o.Leaked? ==> Exact(memory.blocks, CountAll(vars)) && !GarbageFree(memory.blocks, CountAll(vars))
    {
      hide Settled, Exact, CountAll, EntryGraph, GarbageFree, ClearedRefs, ClearedFirst, FateAll, Emptied;
      var es := memory.blocks[sd].entries;
      ClearedCounts(es);
      SlotsOut(memory.blocks[sd]);
      o := ReleaseAll(sd, ClearedRefs(es), ClearedFirst(es));
    }

    /** `erase`: one of several entries is unlinked before its value is destroyed; to erase
        the only one, the map is cleared. */
    method StructDelete(sd: Addr, key: string) returns (o: Outcome)
      requires Valid() && sd in memory.blocks
      modifies memory
      ensures o == EraseFate(vars, old(memory.blocks), sd, key)
      ensures o.Kept? ==> Valid() && KeyErased(old(memory.blocks), sd, key, memory.blocks)
      ensures o.Leaked? ==> Exact(memory.blocks, CountAll(vars)) && !GarbageFree(memory.blocks, CountAll(vars))
    {
      hide Settled, Exact, CountAll, EntryGraph, GarbageFree, ClearFate, SameSlots;
      var f := Find(memory.blocks[sd].entries, key);
      o := Kept;
      if f.Some? {
        if |memory.blocks[sd].entries| == 1 {
          o := StructClear(sd);
        } else {
          Unlink(sd, f.value);
        }
      }
    }

    method Unlink(sd: Addr, k: nat)
      requires Valid() && sd in memory.blocks && k < |memory.blocks[sd].entries|
      modifies memory
      ensures Valid() && sd in memory.blocks && SameSlots(old(memory.blocks), memory.blocks, {sd})
      ensures memory.blocks[sd].entries == Without(old(memory.blocks)[sd].entries, k)
    {
      hide Settled, Unsettled, Exact, CountAll, Count, EntryGraph, Reach, Without, Destroyed;
      var entries := memory.blocks[sd].entries;
      var out := entries[k].value;
      EraseUnsettles(vars, memory.blocks, sd, k);
      memory.blocks := SetEntries(memory.blocks, sd, Without(entries, k));
      memory.holders := CountAll(vars) + Count(out);
      ghost var b1 := memory.blocks;
      UnsettledExact(vars, b1, Count(out));
      HoldsPart(CountAll(vars), Count(out));
      memory.Destroy(out);
      Settle(vars, b1, out, memory.blocks, memory.holders);
    }

    /** `insert`: appends a copy of a value to the array at a place. */
    method Insert(dst: Place, src: Place)
      requires Valid()
      requires Read(vars, memory.blocks, src).Some?
      requires Read(vars, memory.blocks, dst).Some? && Read(vars, memory.blocks, dst).value.Array?
      modifies this`vars, memory
      ensures Valid()
      ensures Written(old(vars), old(memory.blocks), dst,
                      Array(old(Read(vars, memory.blocks, dst).value.elems) + [old(Read(vars, memory.blocks, src).value)]),
                      vars, memory.blocks)
    {
      hide Settled, Unsettled, Written, Read, Reach, Exact, CountAll, Count, EntryGraph, SameContents;
      ghost var b0, vars0 := memory.blocks, vars;
      SettledReach(vars, b0);
      ReadAllocated(vars, b0, src);
      var temp := CopyValue(Read(vars, memory.blocks, src).value);
      ghost var b1 := memory.blocks;
      CopyUnsettles(vars, b0, b1, Count(temp));
      PlaceSlot(vars, b0, dst);
      SamePlaces(vars, b0, b1, dst);
      var pushed := Pushed(vars, memory.blocks, dst, temp);
      if dst.InVar? {
        PushVar(vars, b1, dst, temp);
        WrittenVars(vars, b1, dst, pushed);
        vars := WriteVars(vars, memory.blocks, dst, pushed);
      } else {
        PushEntries(vars, b1, dst, temp);
        PlaceAllocated(vars, b1, dst);
        WrittenEntries(vars, b1, dst, pushed);
        memory.blocks := SetEntries(memory.blocks, dst.sd, WriteEntries(vars, memory.blocks, dst, pushed));
      }
      memory.holders := CountAll(vars);
      WrittenFrom(vars0, b0, b1, dst, pushed, vars, memory.blocks);
    }

    /** A new variable, holding no struct. */
    method Declare()
      requires Valid()
      modifies this`vars
      ensures Valid() && vars == old(vars) + [Scalar("")]
    {
      hide Settled;
      DeclareSettles(vars, memory.blocks);
      vars := vars + [Scalar("")];
    }

    /** The destructor of the last variable. */
    method Drop()
      requires Valid() && vars != []
      modifies this`vars, memory
      ensures Valid() && vars == old(vars)[..|old(vars)| - 1]
      ensures SameSlots(old(memory.blocks), memory.blocks, {})
    {
      hide Settled, Unsettled, Exact, CountAll, Count, Destroyed;
      DropUnsettles(vars, memory.blocks);
      var v := vars[|vars| - 1];
      vars := vars[..|vars| - 1];
      ghost var b0 := memory.blocks;
      UnsettledExact(vars, b0, Count(v));
      HoldsPart(CountAll(vars), Count(v));
      memory.Destroy(v);
      Settle(vars, b0, v, memory.blocks, memory.holders);
    }

    /** One step; a name that does not resolve leaves the state alone. */
    method Do(op: Op) returns (o: Outcome)
      requires Valid()
      modifies this`vars, memory
      ensures o == StepFate(op, old(vars), old(memory.blocks))
      ensures o.Kept? ==> Valid() && Performed(op, old(vars), old(memory.blocks), vars, memory.blocks)
      ensures o.Leaked? ==> Exact(memory.blocks, CountAll(vars)) && !GarbageFree(memory.blocks, CountAll(vars))
    {
      hide Settled, Written, Read, Exact, CountAll, EntryGraph, Reach, Find, Lookup, SameSlots, ClearFate, EraseFate, GarbageFree;
      o := Kept;
      match op
      case Declare => Declare();
      case Drop =>
        if vars != [] { Drop(); }
      case SetScalar(dst, text) =>
        var p := Lookup(vars, memory.blocks, dst);
        if p.Some? { AssignPlain(p.value, Scalar(text)); }
      case SetArray(dst) =>
        var p := Lookup(vars, memory.blocks, dst);
        if p.Some? { AssignPlain(p.value, Array([])); }
      case SetStruct(dst, a) =>
        var p := Lookup(vars, memory.blocks, dst);
        if p.Some? && a !in memory.blocks { AssignStruct(p.value, a); }
      case Assign(dst, src) =>
        var p, q := Lookup(vars, memory.blocks, dst), Lookup(vars, memory.blocks, src);
        if p.Some? && q.Some? { CopyAssign(p.value, q.value); }
      case Put(dst, key, src) => Put(dst, key, src);
      case Push(dst, src) => Push(dst, src);
      case Erase(dst, key) => o := Erase(dst, key);
      case Clear(dst) => o := Clear(dst);
    }

    method Erase(dst: Name, key: string) returns (o: Outcome)
      requires Valid()
      modifies memory
      ensures o == StepFate(Op.Erase(dst, key), vars, old(memory.blocks))
      ensures o.Kept? ==> Valid() && Performed(Op.Erase(dst, key), vars, old(memory.blocks), vars, memory.blocks)
      ensures o.Leaked? ==> Exact(memory.blocks, CountAll(vars)) && !GarbageFree(memory.blocks, CountAll(vars))
    {
      hide Settled, Read, Exact, CountAll, EntryGraph, Reach, Lookup, SameSlots, Find, KeyErased, EraseFate, GarbageFree;
      o := Kept;
      var p := Lookup(vars, memory.blocks, dst);
      if p.Some? {
        var v := Read(vars, memory.blocks, p.value).value;
        if v.Struct? && v.sd in memory.blocks { o := StructDelete(v.sd, key); }
      }
    }

    method Clear(dst: Name) returns (o: Outcome)
      requires Valid()
      modifies memory
      ensures o == StepFate(Op.Clear(dst), vars, old(memory.blocks))
      ensures o.Kept? ==> Valid() && Performed(Op.Clear(dst), vars, old(memory.blocks), vars, memory.blocks)
      ensures o.Leaked? ==> Exact(memory.blocks, CountAll(vars)) && !GarbageFree(memory.blocks, CountAll(vars))
    {
      hide Settled, Read, Exact, CountAll, EntryGraph, Reach, Lookup, SameSlots, Find, Emptied, ClearFate, GarbageFree;
      o := Kept;
      var p := Lookup(vars, memory.blocks, dst);
      if p.Some? {
        var v := Read(vars, memory.blocks, p.value).value;
        if v.Struct? && v.sd in memory.blocks { o := StructClear(v.sd); }
      }
    }

    method Put(dst: Name, key: string, src: Name)
      requires Valid()
      modifies this`vars, memory
      ensures Valid() && Performed(Op.Put(dst, key, src), old(vars), old(memory.blocks), vars, memory.blocks)
    {
      hide Settled, Written, Read, Exact, CountAll, EntryGraph, Reach, Lookup, SameSlots, Find;
      var p, q := Lookup(vars, memory.blocks, dst), Lookup(vars, memory.blocks, src);
      if p.Some? && q.Some? {
        var v := Read(vars, memory.blocks, p.value).value;
        if v.Struct? && v.sd in memory.blocks {
          StructSet(v.sd, key, q.value);
        }
      }
    }

    method Push(dst: Name, src: Name)
      requires Valid()
      modifies this`vars, memory
      ensures Valid() && Performed(Op.Push(dst, src), old(vars), old(memory.blocks), vars, memory.blocks)
    {
      hide Settled, Written, Read, Exact, CountAll, EntryGraph, Reach, Lookup, SameSlots, Find;
      var p, q := Lookup(vars, memory.blocks, dst), Lookup(vars, memory.blocks, src);
      if p.Some? && q.Some? && Read(vars, memory.blocks, p.value).value.Array? { Insert(p.value, q.value); }
    }

    /** Every run: whatever the program, its steps do what they say and between any two of
        them nothing is leaked and nothing dangles, up to the first step whose fate is another
        one than `Kept`, if there is one. */
    method Run(program: seq<Op>) returns (done: nat, o: Outcome, ghost trace: seq<(seq<Value>, Blocks)>)
      requires Valid()
      modifies this`vars, memory
      ensures done <= |program| && |trace| == done + 1 && trace[0] == (old(vars), old(memory.blocks))
      ensures forall i :: 0 <= i <= done ==> Settled(trace[i].0, trace[i].1)
      ensures forall i :: 0 <= i < done ==> Went(program[i], trace[i], trace[i + 1])
      ensures o.Kept? <==> done == |program|
      ensures o.Kept? ==> Valid() && trace[done] == (vars, memory.blocks)
      ensures !o.Kept? ==> o == StepFate(program[done], trace[done].0, trace[done].1)
      ensures o.Leaked? ==> Exact(memory.blocks, CountAll(vars)) && !GarbageFree(memory.blocks, CountAll(vars))
    {
      hide Settled, Went, StepFate, Exact, GarbageFree, Performed, CountAll;
      trace, done, o := [(vars, memory.blocks)], 0, Kept;
      while done < |program|
        invariant done <= |program| && Valid() && |trace| == done + 1 && o.Kept?
        invariant trace[0] == (old(vars), old(memory.blocks)) && trace[done] == (vars, memory.blocks)
        invariant forall j :: 0 <= j <= done ==> Settled(trace[j].0, trace[j].1)
        invariant forall j :: 0 <= j < done ==> Went(program[j], trace[j], trace[j + 1])
      {
        o := Do(program[done]);
        if !o.Kept? { return; }
        WentOn(program[done], trace[done].0, trace[done].1, vars, memory.blocks);
        trace := trace + [(vars, memory.blocks)];
        done := done + 1;
      }
    }
  }
}
