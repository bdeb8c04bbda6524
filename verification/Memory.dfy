/** The memory manager behind struct values: reference counting with a trial-deletion
    cycle collector that runs on every release that leaves a count above zero. */
module Memory {
  import opened Common
  import opened Multigraph
  import opened Values
  import opened HeapModel
  import opened Linked

  class Memory {
    /** The allocated payloads. */
    var blocks: map<Addr, StructData>
    /** Set while a collection is tearing down. */
    var inCollection: bool
    /** Every reference that is not a slot of an allocated payload: program variables,
        values being destroyed, temporary protection. */
    ghost var holders: multiset<Addr>

    constructor ()
      ensures blocks == map[] && !inCollection && holders == multiset{}
    {
      blocks, inCollection, holders := map[], false, multiset{};
    }

    /** `g` is the collector's view of the heap. */
    ghost predicate Shows(g: map<Addr, multiset<Addr>>)
      reads this`blocks
    {
      g.Keys == blocks.Keys && forall n {:trigger Out(blocks[n])} :: n in blocks ==> g[n] == Out(blocks[n])
    }

    /** Marks the children not yet seen and puts them on the worklist, which holds `todo`. */
    static method Enqueue(children: seq<Addr>, seen: set<Addr>,
                          worklist: seq<Addr>, ghost todo: set<Addr>)
      returns (seen': set<Addr>, worklist': seq<Addr>)
      requires Lists(worklist, todo) && todo <= seen
      ensures seen' == seen + set m | m in children
      ensures Lists(worklist', todo + (seen' - seen))
    {
      seen', worklist' := seen, worklist;
      assert todo + (seen' - seen) == todo;
      var i := 0;
      while i < |children|
        invariant 0 <= i <= |children|
        invariant seen' == seen + set m | m in children[..i]
        invariant Lists(worklist', todo + (seen' - seen))
      {
        var child := children[i];
        assert children[..i + 1] == children[..i] + [child];
        if child !in seen' {
          ghost var before := todo + (seen' - seen);
          seen' := seen' + {child};
          worklist' := PushBack(worklist', before, child);
          assert todo + (seen' - seen) == before + {child};
        }
        i := i + 1;
      }
      assert children[..i] == children;
    }

    /** `getStructDataChildren`, in terms of the graph. */
    method Children(sd: Addr, ghost g: map<Addr, multiset<Addr>>)
      returns (children: seq<Addr>)
      requires Shows(g) && sd in blocks
      ensures multiset(children) == g[sd] && (set m | m in children) == Kids(g, sd)
    {
      children := GetStructDataChildren(blocks[sd]);
      assert g[sd] == Out(blocks[sd]);
      assert forall m :: m in children <==> m in multiset(children);
    }

    /** Step 1: the payloads reachable from `root`: the least closed set around it, so
        inside any other one, `bound`. */
    method Gather(root: Addr, ghost g: map<Addr, multiset<Addr>>, ghost bound: set<Addr>)
      returns (nodes: seq<Addr>, ghost gathered: set<Addr>)
      requires Shows(g) && root in bound && bound <= blocks.Keys && Closed(g, bound)
      ensures Lists(nodes, gathered)
      ensures root in gathered && gathered <= bound && Closed(g, gathered)
    {
      nodes, gathered := [], {};
      var visited := {root};
      ghost var todo: set<Addr> := {};
      var worklist := PushBack([], todo, root);
      todo := {root};
      while worklist != []
        invariant Lists(nodes, gathered) && Lists(worklist, todo)
        invariant gathered !! todo && visited == gathered + todo
        invariant root in visited && visited <= bound
        invariant forall n: Addr :: n in gathered && n in g ==> Kids(g, n) <= visited
        decreases blocks.Keys - gathered
      {
        var curr;
        curr, worklist := PopBack(worklist, todo);
        todo := todo - {curr};
        nodes := PushBack(nodes, gathered, curr);
        gathered := gathered + {curr};
        var children := Children(curr, g);
        ghost var seen := visited;
        visited, worklist := Enqueue(children, visited, worklist, todo);
        todo := todo + (visited - seen);
      }
    }

    /** Takes one off the pending count of every gathered child. */
    static method Subtract(children: seq<Addr>, pending: map<Addr, int>)
      returns (pending': map<Addr, int>)
      ensures pending'.Keys == pending.Keys
      ensures forall n: Addr :: n in pending ==> pending'[n] == pending[n] - multiset(children)[n]
    {
      pending' := pending;
      var j := 0;
      while j < |children|
        invariant 0 <= j <= |children| && pending'.Keys == pending.Keys
        invariant forall n: Addr :: n in pending ==> pending'[n] == pending[n] - multiset(children[..j])[n]
      {
        var child := children[j];
        if child in pending' {
          pending' := pending'[child := pending'[child] - 1];
        }
        assert children[..j + 1] == children[..j] + [child];
        j := j + 1;
      }
      assert children[..j] == children;
    }

    /** Step 2, first loop: every gathered count. */
    method CopyCounts(nodes: seq<Addr>, ghost gathered: set<Addr>)
      returns (pending: map<Addr, int>)
      requires Lists(nodes, gathered) && gathered <= blocks.Keys
      ensures pending.Keys == gathered
      ensures forall n: Addr :: n in gathered ==> pending[n] == blocks[n].refs
    {
      pending := map[];
      var i := 0;
      while i < |nodes|
        invariant 0 <= i <= |nodes|
        invariant Lists(nodes[..i], pending.Keys) && pending.Keys <= gathered
        invariant forall n: Addr :: n in pending ==> pending[n] == blocks[n].refs
      {
        ListsNext(nodes, gathered, i, pending.Keys);
        ghost var keys := pending.Keys;
        pending := pending[nodes[i] := blocks[nodes[i]].refs];
        assert pending.Keys == keys + {nodes[i]};
        i := i + 1;
      }
      ListsAll(nodes, gathered, pending.Keys);
    }

    /** Step 2: each gathered count less the references from gathered payloads. */
    method ComputePending(nodes: seq<Addr>, ghost gathered: set<Addr>,
                          ghost g: map<Addr, multiset<Addr>>)
      returns (pending: map<Addr, int>)
      requires Shows(g) && Lists(nodes, gathered) && gathered <= blocks.Keys
      ensures pending.Keys == gathered
      ensures forall n: Addr :: n in gathered ==> pending[n] == blocks[n].refs - Sum(Restrict(g, gathered))[n]
    {
      pending := CopyCounts(nodes, gathered);
      ghost var done: set<Addr> := {};
      ghost var total: multiset<Addr> := multiset{};
      assert Restrict(g, done) == map[];
      var i := 0;
      while i < |nodes|
        invariant 0 <= i <= |nodes|
        invariant pending.Keys == gathered
        invariant Lists(nodes[..i], done) && total == Sum(Restrict(g, done))
        invariant forall n: Addr :: n in gathered ==> pending[n] == blocks[n].refs - total[n]
      {
        var curr := nodes[i];
        ListsNext(nodes, gathered, i, done);
        var children := Children(curr, g);
        pending := Subtract(children, pending);
        SumRestrictInsert(g, done, curr);
        total := total + g[curr];
        done := done + {curr};
        i := i + 1;
      }
      ListsAll(nodes, gathered, done);
    }

    /** Step 3, first loop: the gathered payloads with a pending count. */
    static method SeedAlive(nodes: seq<Addr>, ghost gathered: set<Addr>, pending: map<Addr, int>)
      returns (alive: set<Addr>, worklist: seq<Addr>)
      requires Lists(nodes, gathered) && pending.Keys == gathered
      ensures alive == (set n | n in gathered && pending[n] > 0) && Lists(worklist, alive)
    {
      alive, worklist := {}, [];
      ghost var done: set<Addr> := {};
      var i := 0;
      while i < |nodes|
        invariant 0 <= i <= |nodes| && Lists(nodes[..i], done) && done <= gathered
        invariant alive == set n | n in done && pending[n] > 0
        invariant Lists(worklist, alive)
      {
        var node := nodes[i];
        ListsNext(nodes, gathered, i, done);
        if pending[node] > 0 {
          worklist := PushBack(worklist, alive, node);
          alive := alive + {node};
        }
        done := done + {node};
        i := i + 1;
      }
      ListsAll(nodes, gathered, done);
    }

    /** Step 3: the payloads reachable from a gathered one with a pending count: the least
        closed set around those, so inside any other one, `bound`. */
    method MarkAlive(nodes: seq<Addr>, ghost gathered: set<Addr>, pending: map<Addr, int>,
                     ghost g: map<Addr, multiset<Addr>>, ghost bound: set<Addr>)
      returns (alive: set<Addr>)
      requires Shows(g) && bound <= blocks.Keys && Closed(g, bound)
      requires Lists(nodes, gathered) && pending.Keys == gathered
      requires forall n: Addr :: n in pending && pending[n] > 0 ==> n in bound
      ensures alive <= bound && Closed(g, alive)
      ensures forall n: Addr :: n in pending && pending[n] > 0 ==> n in alive
    {
      var worklist;
      alive, worklist := SeedAlive(nodes, gathered, pending);
      ghost var start, todo := alive, alive;
      assert forall n :: n in alive ==> n in bound;
      while worklist != []
        invariant start <= alive <= bound
        invariant todo <= alive && Lists(worklist, todo)
        invariant forall n: Addr :: n in alive - todo && n in g ==> Kids(g, n) <= alive
        decreases blocks.Keys - (alive - todo)
      {
        var curr;
        curr, worklist := PopBack(worklist, todo);
        todo := todo - {curr};
        var children := Children(curr, g);
        ghost var seen, finished := alive, alive - todo;
        alive, worklist := Enqueue(children, alive, worklist, todo);
        todo := todo + (alive - seen);
        assert alive - todo == finished && curr in finished;
      }
    }


    // ------------------------------------------------------------- teardown

    /** First teardown loop: one temporary reference for every dead payload. */
    method Protect(deadNodes: seq<Addr>, ghost dead: set<Addr>)
      requires Exact(blocks, holders) && Lists(deadNodes, dead) && dead <= blocks.Keys
      modifies this`blocks, this`holders
      ensures Exact(blocks, holders) && holders == old(holders) + multiset(deadNodes)
      ensures blocks.Keys == old(blocks.Keys)
      ensures forall n :: n in blocks ==> blocks[n] == old(blocks)[n].(refs := blocks[n].refs)
      ensures forall n :: n in blocks && n !in dead ==> blocks[n] == old(blocks)[n]
    {
      hide Exact, Lists;
      ghost var b0 := blocks;
      ListsMember(deadNodes, dead);
      var i := 0;
      while i < |deadNodes|
        invariant 0 <= i <= |deadNodes| && blocks.Keys == b0.Keys
        invariant Exact(blocks, holders) && holders == old(holders) + multiset(deadNodes[..i])
        invariant forall n :: n in blocks ==> blocks[n] == b0[n].(refs := blocks[n].refs)
        invariant forall n :: n in blocks && n !in dead ==> blocks[n] == b0[n]
      {
        var d := deadNodes[i];
        assert d in deadNodes;
        IncrementExact(blocks, holders, d);
        blocks := SetRefs(blocks, d, blocks[d].refs + 1);
        holders := holders + multiset{d};
        assert deadNodes[..i + 1] == deadNodes[..i] + [d];
        i := i + 1;
      }
      assert deadNodes[..i] == deadNodes;
    }

    /** Third teardown loop: the temporary references are given up. */
    method Unprotect(deadNodes: seq<Addr>, ghost dead: set<Addr>, ghost kept: multiset<Addr>)
      requires Exact(blocks, holders) && Lists(deadNodes, dead) && dead <= blocks.Keys
      requires holders == kept + multiset(deadNodes)
      modifies this`blocks, this`holders
      ensures Exact(blocks, holders) && holders == kept
      ensures blocks.Keys == old(blocks.Keys)
      ensures forall n :: n in blocks ==> blocks[n] == old(blocks)[n].(refs := blocks[n].refs)
      ensures forall n :: n in blocks && n !in dead ==> blocks[n] == old(blocks)[n]
    {
      hide Exact, Lists;
      ghost var b0 := blocks;
      ghost var rest := multiset(deadNodes);
      ListsMember(deadNodes, dead);
      assert deadNodes[0..] == deadNodes;
      var i := 0;
      while i < |deadNodes|
        invariant 0 <= i <= |deadNodes| && blocks.Keys == b0.Keys
        invariant Exact(blocks, holders) && holders == kept + rest && rest == multiset(deadNodes[i..])
        invariant forall n :: n in blocks ==> blocks[n] == b0[n].(refs := blocks[n].refs)
        invariant forall n :: n in blocks && n !in dead ==> blocks[n] == b0[n]
      {
        var d := deadNodes[i];
        assert d in deadNodes;
        RestStep(deadNodes, i, kept);
        DecrementExact(blocks, holders, d);
        blocks := SetRefs(blocks, d, blocks[d].refs - 1);
        holders := holders - multiset{d};
        rest := multiset(deadNodes[i + 1..]);
        i := i + 1;
      }
    }

    /** `dead->map.clear()`: every release it nests finds another reference left. */
    method ClearMap(d: Addr, ghost dead: set<Addr>)
      requires Exact(blocks, holders) && inCollection && d in blocks && d in dead
      requires (forall n :: n in dead ==> n in holders) && Supported(blocks, holders, dead)
      modifies this`blocks, this`holders, this`inCollection
      ensures Exact(blocks, holders) && holders == old(holders) && inCollection
      ensures Cleared(old(blocks), blocks, {d})
      decreases blocks.Keys, 0, 3
    {
      hide Exact, Supported, Out, ValuesOf, GarbageFree, Outnumbered;
      ghost var b0, h0 := blocks, holders;
      var vs := ValuesOf(blocks[d].entries);
      assert CountAll(vs) == Out(b0[d]) by { SlotsOut(b0[d]); }
      NoSlots();
      SetEntriesExact(b0, h0, d, [], h0 + CountAll(vs));
      OutnumberedSlots(b0, h0, d, dead);
      HeldCounts(b0, h0, d);
      blocks := SetEntries(blocks, d, []);
      holders := h0 + CountAll(vs);
      DestroyAll(vs);
    }

    /** Second teardown loop: the slots of every dead payload are destroyed. */
    method ClearAll(deadNodes: seq<Addr>, ghost dead: set<Addr>)
      requires Exact(blocks, holders) && inCollection && Lists(deadNodes, dead) && dead <= blocks.Keys
      requires (forall n :: n in dead ==> n in holders) && Supported(blocks, holders, dead)
      modifies this`blocks, this`holders, this`inCollection
      ensures Exact(blocks, holders) && holders == old(holders) && inCollection
      ensures Cleared(old(blocks), blocks, dead)
      decreases blocks.Keys, 0, 4
    {
      hide Exact, Supported, Lists;
      ghost var b0 := blocks;
      ghost var done: set<Addr> := {};
      ListsNone(deadNodes);
      var i := 0;
      while i < |deadNodes|
        invariant 0 <= i <= |deadNodes| && Lists(deadNodes[..i], done) && done <= dead
        invariant Exact(blocks, holders) && holders == old(holders) && inCollection
        invariant Supported(blocks, holders, dead)
        invariant Cleared(b0, blocks, done)
      {
        var d := deadNodes[i];
        ListsNext(deadNodes, dead, i, done);
        ghost var b1 := blocks;
        ClearMap(d, dead);
        SupportedCleared(b1, blocks, holders, dead, {d});
        done := done + {d};
        i := i + 1;
      }
      ListsAll(deadNodes, dead, done);
    }

    /** Last teardown loop: the dead, all without references by now, are freed. */
    method DeleteAll(deadNodes: seq<Addr>, ghost dead: set<Addr>)
      requires Exact(blocks, holders) && inCollection && Lists(deadNodes, dead)
      requires forall n :: n in dead ==> n in blocks && blocks[n].refs == 0 && blocks[n].entries == []
      modifies this`blocks, this`holders, this`inCollection
      ensures Exact(blocks, holders) && holders == old(holders) && inCollection
      ensures Shrunk(old(blocks) - dead, blocks) && Within(old(blocks), blocks, dead)
      ensures NoMeta(old(blocks)) ==> blocks.Keys == old(blocks.Keys) - dead
      decreases blocks.Keys, 0, 3
    {
      hide Exact, Lists, GarbageFree, Within;
      ghost var b0 := blocks;
      ghost var done: set<Addr> := {};
      ListsNone(deadNodes);
      NothingFreed(b0, done);
      var i := 0;
      while i < |deadNodes|
        invariant 0 <= i <= |deadNodes| && Lists(deadNodes[..i], done) && done <= dead
        invariant Exact(blocks, holders) && holders == old(holders) && inCollection
        invariant Shrunk(b0 - done, blocks) && Within(b0, blocks, done)
        invariant NoMeta(b0) ==> blocks.Keys == b0.Keys - done
      {
        var d := deadNodes[i];
        ListsNext(deadNodes, dead, i, done);
        ghost var b1 := blocks;
        if blocks[d].refs <= 0 {
          Delete(d);
        }
        WithinDelete(b0, b1, blocks, done, d);
        ShrunkDelete(b0, b1, blocks, done, d);
        done := done + {d};
        i := i + 1;
      }
      ListsAll(deadNodes, dead, done);
    }

    /** The teardown of step 4.  Each dead payload is freed, once; another one only if metadata
        of the dead leads to it; a survivor loses the references of what is freed. */
    method TearDown(deadNodes: seq<Addr>, ghost dead: set<Addr>)
      requires Exact(blocks, holders) && inCollection && Lists(deadNodes, dead)
      requires Condemned(blocks, holders, dead)
      modifies this`blocks, this`holders, this`inCollection
      ensures Exact(blocks, holders) && holders == old(holders) && inCollection
      ensures Shrunk(old(blocks) - dead, blocks) && Within(old(blocks), blocks, dead)
      ensures NoMeta(old(blocks)) ==> blocks.Keys == old(blocks.Keys) - dead
      decreases blocks.Keys, 0, 5
    {
      hide Exact, Lists, Supported, NoMeta, Within;
      ghost var b0, h0 := blocks, holders;
      ListsMember(deadNodes, dead);
      Protect(deadNodes, dead);
      ghost var b1 := blocks;
      SupportedGrows(b0, b1, h0, holders, dead);
      ClearAll(deadNodes, dead);
      ghost var b2 := blocks;
      OneProtection(b0, b1, b2, h0, deadNodes, dead);
      assert forall n :: n in dead ==> blocks[n].refs == 1;
      Unprotect(deadNodes, dead, h0);
      ghost var b3 := blocks;
      ClearedAround(b0, b1, b2, b3, dead);
      assert h0 + multiset{} == h0;
      DeadCounts(b0, b3, h0, dead, multiset{});
      DeleteAll(deadNodes, dead);
      ShrunkTeardown(b0, b3, blocks, dead);
      WithinCleared(b0, b3, blocks, dead);
      if NoMeta(b0) {
        ClearedNoMeta(b0, b3, dead);
      }
    }

    // ------------------------------------------------------------- releasing

    /** Step 4, first loop: the gathered payloads that are not alive. */
    static method ListDead(nodes: seq<Addr>, ghost gathered: set<Addr>, alive: set<Addr>)
      returns (deadNodes: seq<Addr>)
      requires Lists(nodes, gathered)
      ensures Lists(deadNodes, gathered - alive)
    {
      deadNodes := [];
      ghost var done: set<Addr>, dead: set<Addr> := {}, {};
      ListsNone(nodes);
      var i := 0;
      while i < |nodes|
        invariant 0 <= i <= |nodes| && Lists(nodes[..i], done)
        invariant dead == done - alive && Lists(deadNodes, dead)
      {
        var node := nodes[i];
        ListsNext(nodes, gathered, i, done);
        if node !in alive {
          deadNodes := PushBack(deadNodes, dead, node);
          dead := dead + {node};
        }
        done := done + {node};
        i := i + 1;
      }
      ListsAll(nodes, gathered, done);
    }

    /** Step 1 as a whole: exactly what `root` reaches. */
    method GatherReach(root: Addr, ghost g: map<Addr, multiset<Addr>>, ghost reach: set<Addr>)
      returns (nodes: seq<Addr>)
      requires Shows(g) && root in reach && reach <= blocks.Keys && Closed(g, reach) && reach == Reach(g, {root})
      ensures Lists(nodes, reach)
    {
      hide Reach, Lists, Closed, Shows;
      ghost var gathered;
      nodes, gathered := Gather(root, g, reach);
      ReachLeast(g, {root}, gathered);
      assert gathered == reach;
    }

    /** Steps 2 and 3 as a whole: exactly what the payloads held from outside reach. */
    method MarkReach(nodes: seq<Addr>, ghost g: map<Addr, multiset<Addr>>,
                     ghost reach: set<Addr>, ghost outside: set<Addr>, ghost spared: set<Addr>)
      returns (alive: set<Addr>)
      requires Shows(g) && reach <= blocks.Keys && Lists(nodes, reach)
      requires forall n :: n in reach ==> (blocks[n].refs - Sum(Restrict(g, reach))[n] > 0 <==> n in outside)
      requires outside <= spared && outside <= reach
      requires spared == Reach(g, outside) && spared <= blocks.Keys && Closed(g, spared)
      ensures alive == spared
    {
      hide Reach, Lists, Closed, Shows, Sum, Restrict;
      var pending := ComputePending(nodes, reach, g);
      alive := MarkAlive(nodes, reach, pending, g, spared);
      assert outside <= alive by {
        forall n | n in outside ensures n in alive { assert pending[n] > 0; }
      }
      ReachLeast(g, outside, alive);
    }

    /** Steps 1 to 4 up to the teardown, whatever the counts are worth. */
    method ListCondemned(root: Addr, ghost g: map<Addr, multiset<Addr>>, ghost reach: set<Addr>,
                         ghost outside: set<Addr>, ghost spared: set<Addr>) returns (deadNodes: seq<Addr>)
      requires Shows(g) && root in reach && reach <= blocks.Keys && Closed(g, reach) && reach == Reach(g, {root})
      requires forall n :: n in reach ==> (blocks[n].refs - Sum(Restrict(g, reach))[n] > 0 <==> n in outside)
      requires outside <= spared && outside <= reach
      requires spared == Reach(g, outside) && spared <= blocks.Keys && Closed(g, spared)
      ensures Lists(deadNodes, reach - spared)
    {
      hide Reach, Lists, Closed, Shows, Sum, Restrict;
      var nodes := GatherReach(root, g, reach);
      var alive := MarkReach(nodes, g, reach, outside, spared);
      deadNodes := ListDead(nodes, reach, alive);
    }

    /** Steps 1 to 4 up to the teardown: lists what trial deletion from `root` condemns. */
    method FindDead(root: Addr) returns (deadNodes: seq<Addr>)
      requires Exact(blocks, holders) && root in blocks
      ensures Lists(deadNodes, Doomed(EntryGraph(blocks), Held(blocks, holders), root))
    {
      ghost var g, reach, outside, spared := CollectorView(blocks, holders, root);
      assert Shows(g);
      hide Exact, EntryGraph, Reach, Doomed, HeldOutside, Lists, Closed, Shows, Held, Sum, Restrict;
      forall n | n in reach
        ensures blocks[n].refs - Sum(Restrict(g, reach))[n] > 0 <==> n in outside
      {
        PendingIsOutside(blocks, holders, root, n);
      }
      deadNodes := ListCondemned(root, g, reach, outside, spared);
    }

    /** The teardown of what trial deletion from `root` condemns. */
    method Collect(root: Addr, deadNodes: seq<Addr>)
      requires Exact(blocks, holders) && inCollection && root in blocks && blocks[root].refs > 0
      requires Lists(deadNodes, Doomed(EntryGraph(blocks), Held(blocks, holders), root))
      modifies this`blocks, this`holders, this`inCollection
      ensures Exact(blocks, holders) && holders == old(holders) && inCollection
      ensures Shrunk(old(blocks), blocks)
      ensures Collected(old(blocks), holders, root, blocks, false)
      decreases blocks.Keys, 0, 6
    {
      hide Exact, EntryGraph, Doomed, Lists, Condemned, Held, Within, Reach;
      ghost var b0 := blocks;
      NothingFreed(b0, {root});
      DoomedCondemned(blocks, holders, root);
      ghost var dead := Doomed(EntryGraph(blocks), Held(blocks, holders), root);
      if deadNodes != [] {
        ListsSome(deadNodes, dead);
        TearDown(deadNodes, dead);
        CondemnedShrunk(b0, holders, dead, blocks);
        assert dead <= Reach(EntryGraph(b0), {root}) by { DoomedGathered(EntryGraph(b0), Held(b0, holders), root); }
        WithinRoot(b0, holders, blocks, root, dead);
      } else {
        ListsEmpty(deadNodes, dead);
      }
    }

    /** `tryCollectCycles`: trial deletion from `root`.  It frees what it gathers that
        no reference from outside the gathered payloads reaches. */
    method TryCollectCycles(root: Addr)
      requires Exact(blocks, holders) && root in blocks
      modifies this`blocks, this`holders, this`inCollection
      ensures Exact(blocks, holders) && holders == old(holders) && inCollection == old(inCollection)
      ensures Shrunk(old(blocks), blocks)
      ensures Collected(old(blocks), holders, root, blocks, inCollection)
      decreases blocks.Keys, if inCollection then 0 else 1, 0
    {
      if inCollection || blocks[root].refs <= 0 {
        return;
      }
      hide Exact, EntryGraph, Doomed, Lists, Condemned, Held, Collected;
      inCollection := true;
      var deadNodes := FindDead(root);
      Collect(root, deadNodes);
      inCollection := false;
    }

    /** `struct_data_release`: gives up one reference, then frees or collects. */
    method Release(sd: Addr)
      requires Exact(blocks, holders) && sd in holders
      modifies this`blocks, this`holders, this`inCollection
      ensures inCollection == old(inCollection)
      ensures Destroyed(old(blocks), old(holders), blocks, holders, multiset{sd}, inCollection)
      decreases blocks.Keys, if inCollection then 0 else 1, 1
    {
      hide Exact, Destroyed, Deleted, Collected, Shrunk;
      ghost var b0, h0 := blocks, holders;
      DecrementExact(b0, h0, sd);
      blocks := SetRefs(blocks, sd, blocks[sd].refs - 1);
      holders := h0 - multiset{sd};
      ghost var b1 := blocks;
      if blocks[sd].refs <= 0 {
        Delete(sd);
        ReleasedByDelete(b0, h0, sd, b1, blocks, holders, inCollection);
      } else {
        TryCollectCycles(sd);
        ReleasedByCollect(b0, h0, sd, b1, blocks, inCollection);
      }
    }

    /** `delete sd`: the payload, which nothing refers to, leaves the heap and its metadata
        and slots are destroyed.  (The source gives the memory back last.) */
    method Delete(sd: Addr)
      requires Exact(blocks, holders) && sd in blocks && blocks[sd].refs == 0
      modifies this`blocks, this`holders, this`inCollection
      ensures inCollection == old(inCollection)
      ensures Deleted(old(blocks), old(holders), sd, blocks, holders, inCollection)
      decreases blocks.Keys, if inCollection then 0 else 1, 0
    {
      hide Exact, Destroyed, Deleted, MetaOut, Out, CountAll;
      var payload := blocks[sd];
      ghost var b0, h0, meta, out := blocks, holders, MetaOut(payload), Out(payload);
      DetachExact(b0, h0, sd);
      blocks := blocks - {sd};
      holders := h0 + meta + out;
      ghost var b1, h1 := blocks, holders;
      DestroyedNothing(b1, h1, inCollection);
      MetaSlot(payload);
      if payload.meta.Some? {
        Destroy(payload.meta.value);
      }
      ghost var b2, h2 := blocks, holders;
      DestroyedAccounts(b1, h1, b2, h2, meta, inCollection);
      SlotsOut(payload);
      DestroyAll(ValuesOf(payload.entries));
      DestroyedThen(b1, h1, b2, h2, blocks, holders, meta, out, inCollection);
      DestroyedDeletes(b0, h0, sd, blocks, holders, inCollection);
    }

    /** Destroys a value: its slot is already detached from the graph. */
    method Destroy(v: Value)
      requires Exact(blocks, holders) && Count(v) <= holders
      modifies this`blocks, this`holders, this`inCollection
      ensures inCollection == old(inCollection)
      ensures Destroyed(old(blocks), old(holders), blocks, holders, Count(v), inCollection)
      decreases blocks.Keys, if inCollection then 0 else 1, 2, v, 0
    {
      match v
      case Scalar(_) => DestroyedNothing(blocks, holders, inCollection);
      case Struct(sd) => Release(sd);
      case Array(elems) => DestroyAll(elems);
    }

    /** Destroys a run of values in order. */
    method DestroyAll(vs: seq<Value>)
      requires Exact(blocks, holders) && CountAll(vs) <= holders
      modifies this`blocks, this`holders, this`inCollection
      ensures inCollection == old(inCollection)
      ensures Destroyed(old(blocks), old(holders), blocks, holders, CountAll(vs), inCollection)
      decreases blocks.Keys, if inCollection then 0 else 1, 2, vs, 1
    {
      hide Destroyed, Exact, CountAll, Count, Shrunk;
      ghost var b0, h0 := blocks, holders;
      DestroyedNothing(b0, h0, inCollection);
      CountNone(vs);
      var i := 0;
      while i < |vs|
        invariant 0 <= i <= |vs| && inCollection == old(inCollection)
        invariant Destroyed(b0, h0, blocks, holders, CountAll(vs[..i]), inCollection)
      {
        ghost var b1, h1 := blocks, holders;
        DestroyedAccounts(b0, h0, b1, h1, CountAll(vs[..i]), inCollection);
        CountAllNext(vs, i, h0);
        Destroy(vs[i]);
        DestroyedThen(b0, h0, b1, h1, blocks, holders, CountAll(vs[..i]), Count(vs[i]), inCollection);
        i := i + 1;
      }
      assert vs[..i] == vs;
    }

    /** The collector's view is the graph of the key maps. */
    lemma SeesGraph(g: map<Addr, multiset<Addr>>)
      requires g == EntryGraph(blocks)
      ensures Shows(g)
    {
    }

    /** Steps 1 to 4 while a reference from `sd` to `t` is counted no longer and still linked. */
    method FindLinked(sd: Addr, t: Addr, ghost b: Blocks, ghost h: multiset<Addr>, ghost left: seq<Entry>)
      returns (deadNodes: seq<Addr>)
      requires Exact(b, h) && NoMeta(b) && sd in b && Out(b[sd]) == CountAll(ValuesOf(left)) + multiset{t}
      requires t in b && blocks == SetRefs(b, t, b[t].refs - 1)
      ensures sd in SetEntries(b, sd, left)
      ensures Lists(deadNodes, Taken(EntryGraph(SetEntries(b, sd, left)), h, t, sd))
    {
      hide Exact, Reach, Out, CountAll, ValuesOf, EntryGraph, NoMeta, Lists, Closed, Shows, Sum, Restrict;
      hide Seen, Relinked, SetEntries, SetRefs;
      ghost var g := EntryGraph(SetEntries(b, sd, left));
      LinkedView(b, h, sd, t, left);
      KeysSame(SetEntries(b, sd, left));
      LinkedSame(b, sd, t, left, b[t].refs - 1);
      KeysSame(b);
      GatheredSame(g, sd, t);
      SeenView(g, h, sd, t);
      SeesGraph(EntryGraph(b));
      forall n | n in Reach(g, {t})
        ensures n in blocks && (blocks[n].refs - Sum(Restrict(EntryGraph(b), Reach(g, {t})))[n] > 0 <==> n in Seen(g, h, t, sd))
      {
        LinkedPending(b, h, sd, t, left, n);
      }
      deadNodes := ListCondemned(t, EntryGraph(b), Reach(g, {t}), Seen(g, h, t, sd),
                                 Reach(EntryGraph(b), Seen(g, h, t, sd)));
    }

    /** What a walk from `t` meets while a reference from `sd` to it is still linked. */
    method WalkLinked(sd: Addr, t: Addr, ghost b: Blocks, ghost h: multiset<Addr>, ghost left: seq<Entry>)
      returns (nodes: seq<Addr>)
      requires Exact(b, h) && NoMeta(b) && sd in b && Out(b[sd]) == CountAll(ValuesOf(left)) + multiset{t}
      requires t in b && blocks == SetRefs(b, t, b[t].refs - 1)
      ensures Lists(nodes, Reach(EntryGraph(SetEntries(b, sd, left)), {t}))
    {
      hide Exact, Reach, Out, CountAll, ValuesOf, EntryGraph, NoMeta, Lists, Closed, Shows, Relinked, SetEntries, SetRefs;
      ghost var g := EntryGraph(SetEntries(b, sd, left));
      LinkedView(b, h, sd, t, left);
      LinkedSame(b, sd, t, left, b[t].refs - 1);
      KeysSame(b);
      GatheredSame(g, sd, t);
      SeesGraph(EntryGraph(b));
      nodes := GatherReach(t, EntryGraph(b), Reach(g, {t}));
    }

    /** How a release ends that goes through: `b` is the heap with the slot gone and the count
        still up. */
    ghost predicate Released(b: Blocks, h: multiset<Addr>, o: Outcome)
      reads this
    {
      && !inCollection && holders == h && Exact(blocks, h) && Shrunk(b, blocks)
      && (GarbageFree(blocks, h) <==> o.Kept?)
    }

    /** Nothing was condemned.  Whether that leaves garbage behind is seen by looking again
        with the slot gone. */
    method NothingTaken(t: Addr, ghost b: Blocks, ghost h: multiset<Addr>) returns (o: Outcome)
      requires Exact(b, h + multiset{t}) && NoMeta(b) && t in b && Reach(EntryGraph(b), Holders(h) + {t}) == b.Keys
      requires b[t].refs > 1 && blocks == SetRefs(b, t, b[t].refs - 1) && holders == h && !inCollection
      modifies this`blocks
      ensures o == if t in Reach(EntryGraph(b), Holders(h)) then Kept else Leaked
      ensures Released(b, h, o)
    {
      hide Exact, Reach, EntryGraph, NoMeta, GarbageFree, Lists, Doomed, Holders, Held, ToSet;
      Discounted(b, h, t);
      NoMetaHeld(blocks, h);
      SetRefsKept(b, t, b[t].refs - 1);
      KeysSame(b);
      HoldersIs(h);
      EdgesStay(blocks, h);
      NoneDoomed(EntryGraph(b), h, t);
      AllReached(EntryGraph(b), Holders(h), t);
      GarbageFreeIs(blocks, h);
      var missed := FindDead(t);
      if missed == [] {
        ListsEmpty(missed, Doomed(EntryGraph(b), h, t));
        o := Kept;
      } else {
        ListsSome(missed, Doomed(EntryGraph(b), h, t));
        o := Leaked;
      }
    }

    method DeleteLast(t: Addr, ghost b: Blocks, ghost h: multiset<Addr>)
      requires t in b && b[t].refs == 1 && NoMeta(b) && GarbageFree(b, h + multiset{t})
      requires blocks == SetRefs(b, t, 0) && t in blocks && blocks[t].refs == 0
      requires Exact(blocks, h) && holders == h && !inCollection
      modifies this`blocks, this`holders, this`inCollection
      ensures Released(b, h, Kept)
    {
      hide Exact, GarbageFree, Deleted, NoMeta, Shrunk, SetRefs;
      Delete(t);
      DeletedReleased(b, h, t, blocks, holders);
    }

    method CollectMore(t: Addr, deadNodes: seq<Addr>, ghost b: Blocks, ghost h: multiset<Addr>)
      requires Exact(b, h + multiset{t}) && t in b && b[t].refs > 1 && NoMeta(b) && GarbageFree(b, h + multiset{t})
      requires blocks == SetRefs(b, t, b[t].refs - 1) && holders == h && !inCollection
      requires Lists(deadNodes, Doomed(EntryGraph(b), h, t))
      modifies this`blocks, this`holders, this`inCollection
      ensures Released(b, h, Kept)
    {
      hide Exact, EntryGraph, GarbageFree, Collected, NoMeta, Shrunk, SetRefs, Lists, Doomed, Held;
      SetRefsKept(b, t, b[t].refs - 1);
      SetRefsNoMeta(b, t, b[t].refs - 1);
      SetRefsGraph(b, t, b[t].refs - 1);
      NoMetaHeld(blocks, h);
      ReleaseExact(b, h, t);
      inCollection := true;
      Collect(t, deadNodes);
      inCollection := false;
      CollectedReleased(b, h, t, blocks);
    }

    /** Where no walk from `t` meets `sd`, the linked reference makes no difference. */
    method ReleaseUnseen(sd: Addr, t: Addr, ghost b: Blocks, ghost h: multiset<Addr>, left: seq<Entry>)
      requires Exact(b, h) && NoMeta(b) && sd in b && Out(b[sd]) == CountAll(ValuesOf(left)) + multiset{t}
      requires t in b && blocks == SetRefs(b, t, b[t].refs - 1) && holders == h && !inCollection && GarbageFree(b, h)
      requires sd in SetEntries(b, sd, left) && sd !in Reach(EntryGraph(SetEntries(b, sd, left)), {t})
      modifies this`blocks, this`holders, this`inCollection
      ensures Released(SetEntries(b, sd, left), h, Kept)
    {
      hide Exact, Reach, Out, CountAll, ValuesOf, EntryGraph, NoMeta, GarbageFree, Lists, Closed, Sum;
      hide Doomed, Taken, Relinked, Holders, ToSet, SetEntries, SetRefs, Shrunk, Released;
      LinkedView(b, h, sd, t, left);
      LinkedReached(b, h, sd, t, left);
      LinkedSame(b, sd, t, left, b[t].refs - 1);
      ghost var b1 := SetEntries(b, sd, left);
      KeysSame(b1);
      Discounted(b1, h, t);
      SetRefsKept(b1, t, b1[t].refs - 1);
      if blocks[t].refs <= 0 {
        blocks := SetEntries(blocks, sd, left);
        DeleteLast(t, b1, h);
      } else {
        TakenIs(EntryGraph(b1), h, sd, t);
        var deadNodes := FindLinked(sd, t, b, h, left);
        blocks := SetEntries(blocks, sd, left);
        CollectMore(t, deadNodes, b1, h);
      }
    }

    /** `struct_data_release` of `t` from a slot of `sd` that is unlinked only afterwards, when
        the slots will be `left`.  The collector works on what it sees: the count is down, the
        reference is still there.  `partly` tells that nodes of the map were freed before.
        Where the release reads freed memory or tears down what is held, it ends here. */
    method ReleaseLinked(sd: Addr, t: Addr, left: seq<Entry>, partly: bool) returns (o: Outcome)
      requires Exact(blocks, holders) && !inCollection && NoMeta(blocks) && GarbageFree(blocks, holders)
      requires sd in blocks && Out(blocks[sd]) == CountAll(ValuesOf(left)) + multiset{t}
      modifies this`blocks, this`holders, this`inCollection
      ensures o == Fate(EntryGraph(SetEntries(old(blocks), sd, left)), old(holders), sd, t, partly)
      ensures o.Kept? || o.Leaked? ==> Released(SetEntries(old(blocks), sd, left), old(holders), o)
    {
      hide Exact, Reach, Out, CountAll, ValuesOf, EntryGraph, NoMeta, GarbageFree, Lists, Closed, Sum;
      hide Doomed, Seeds, Taken, Relinked, Holders, SetEntries, SetRefs, Released;
      ghost var b0, h0 := blocks, holders;
      LinkedView(b0, h0, sd, t, left);
      LinkedReached(b0, h0, sd, t, left);
      LinkedSame(b0, sd, t, left, b0[t].refs - 1);
      ghost var b1 := SetEntries(b0, sd, left);
      ghost var g := EntryGraph(b1);
      KeysSame(b1);
      Discounted(b1, h0, t);
      TakenIs(g, h0, sd, t);
      blocks := SetRefs(blocks, t, blocks[t].refs - 1);
      var nodes := WalkLinked(sd, t, b0, h0, left);
      ListsMember(nodes, Reach(g, {t}));
      if sd in nodes {
        if partly || blocks[t].refs <= 0 { return Undefined; }
        var deadNodes := FindLinked(sd, t, b0, h0, left);
        ListsMember(deadNodes, Taken(g, h0, t, sd));
        if sd in deadNodes { return TornDown; }
        blocks := SetEntries(blocks, sd, left);
        o := NothingTaken(t, b1, h0);
      } else {
        ReleaseUnseen(sd, t, b0, h0, left);
        o := Kept;
      }
    }
  }
}
