/** What the names of a program mean: key by key and index by index, and how an assignment
    changes what they read. */
module Naming {
  import opened Common
  import opened Multigraph
  import opened Values
  import opened HeapModel
  import opened Linked
  import opened Places
  import opened Runtime

  // ------------------------------------------------------------------ reading

  /** A bare name is its variable. */
  lemma VariableRead(vars: seq<Value>, b: Blocks, i: nat)
    ensures ValueAt(vars, b, Name(i, [])) == if i < |vars| then Some(vars[i]) else None
  {
  }

  /** A further index takes an element of the array that the name before it reads. */
  lemma IndexRead(vars: seq<Value>, b: Blocks, i: nat, steps: seq<Step>, k: nat)
    ensures ValueAt(vars, b, Name(i, steps + [Index(k)])) ==
            match ValueAt(vars, b, Name(i, steps))
            case Some(Array(es)) => if k < |es| then Some(es[k]) else None
            case _ => None
  {
    var p := InVar(i, []);
    ResolveSnoc(vars, b, p, steps, Index(k));
    if Resolve(vars, b, p, steps).Some? {
      var q := Resolve(vars, b, p, steps).value;
      ResolveReads(vars, b, p, steps);
      OneIndex(vars, b, q, k);
    }
  }

  lemma OneIndex(vars: seq<Value>, b: Blocks, q: Place, k: nat)
    requires Read(vars, b, q).Some?
    ensures var r := Resolve(vars, b, q, [Index(k)]);
            match Read(vars, b, q)
            case Some(Array(es)) =>
              if k < |es| then r == Some(q.(path := q.path + [k])) && Read(vars, b, r.value) == Some(es[k]) else r == None
            case _ => r == None
  {
    ElementSnoc(Slot(vars, b, q).value, q.path, k);
    hide ElementAt;
  }

  /** A further key takes the value under it in the struct that the name before it reads. */
  lemma KeyRead(vars: seq<Value>, b: Blocks, i: nat, steps: seq<Step>, x: string)
    ensures var r := ValueAt(vars, b, Name(i, steps + [Key(x)]));
            match ValueAt(vars, b, Name(i, steps))
            case Some(Struct(sd)) =>
              && (r.Some? <==> sd in b && exists k :: 0 <= k < |b[sd].entries| && b[sd].entries[k].key == x)
              && (r.Some? ==> exists k :: 0 <= k < |b[sd].entries| && b[sd].entries[k] == Entry(x, r.value))
            case _ => r == None
  {
    var p := InVar(i, []);
    ResolveSnoc(vars, b, p, steps, Key(x));
    if Resolve(vars, b, p, steps).Some? {
      ResolveReads(vars, b, p, steps);
      OneKey(vars, b, Resolve(vars, b, p, steps).value, x);
    }
  }

  lemma OneKey(vars: seq<Value>, b: Blocks, q: Place, x: string)
    requires Read(vars, b, q).Some?
    ensures var r := Resolve(vars, b, q, [Key(x)]);
            match Read(vars, b, q)
            case Some(Struct(sd)) =>
              && (r.Some? <==> sd in b && exists k :: 0 <= k < |b[sd].entries| && b[sd].entries[k].key == x)
              && (r.Some? ==> exists k :: 0 <= k < |b[sd].entries| && r == Some(InStruct(sd, k, []))
                                          && Read(vars, b, r.value) == Some(b[sd].entries[k].value) && b[sd].entries[k].key == x)
            case _ => r == None
  {
  }

  // ---------------------------------------------------------------- assigning

  ghost predicate SameSlot(p: Place, q: Place)
  {
    match (p, q)
    case (InVar(i, _), InVar(j, _)) => i == j
    case (InStruct(sd, k, _), InStruct(sd', k', _)) => sd == sd' && k == k'
    case _ => false
  }

  /** `q` is `p` or lies in it. */
  ghost predicate Under(p: Place, q: Place)
  {
    SameSlot(p, q) && p.path <= q.path
  }

  /** The place that a name stands for has the value that was written, all others but those on
      the way to it and in it have what they had. */
  lemma ReadAfter(vars: seq<Value>, b: Blocks, p: Place, v: Value, vars': seq<Value>, b': Blocks, q: Place)
    requires Read(vars, b, p).Some? && Written(vars, b, p, v, vars', b')
    requires Read(vars, b, q).Some? && (q.InStruct? ==> q.sd in b')
    ensures p == q ==> Read(vars', b', q) == Some(v)
    ensures !SameSlot(p, q) || Parted(p.path, q.path) ==> Read(vars', b', q) == Read(vars, b, q)
    ensures !Under(p, q) ==>
              var r, r' := Read(vars, b, q), Read(vars', b', q);
              r'.Some? && (r' == r || (r.value.Array? && r'.value.Array? && |r'.value.elems| == |r.value.elems|))
  {
    if SameSlot(p, q) {
      var w := Slot(vars, b, p).value;
      SlotAfter(vars, b, p, v, vars', b', q);
      ElementWritten(w, p.path, v);
      if Parted(p.path, q.path) { ElementKept(w, p.path, v, q.path); }
      if q.path < p.path { ElementAbove(w, p.path, v, q.path); }
    }
  }

  lemma SlotAfter(vars: seq<Value>, b: Blocks, p: Place, v: Value, vars': seq<Value>, b': Blocks, q: Place)
    requires Read(vars, b, p).Some? && Written(vars, b, p, v, vars', b') && SameSlot(p, q)
    ensures Slot(vars', b', q) == Some(WithElement(Slot(vars, b, p).value, p.path, v)) && Slot(vars, b, q) == Slot(vars, b, p)
  {
  }

  /** One key or index further leads to the same place as before the assignment. */
  lemma StepAfter(vars: seq<Value>, b: Blocks, p: Place, v: Value, vars': seq<Value>, b': Blocks, q: Place, s: Step)
    requires Read(vars, b, p).Some? && Written(vars, b, p, v, vars', b') && Exact(b', CountAll(vars'))
    requires Read(vars, b, q).Some? && (q.InStruct? ==> q.sd in b') && !Under(p, q)
    requires Resolve(vars, b, q, [s]).Some?
    ensures var q' := Resolve(vars, b, q, [s]);
            Read(vars, b, q'.value).Some? && Resolve(vars', b', q, [s]) == q' && (q'.value.InStruct? ==> q'.value.sd in b')
  {
    hide Exact, CountAll, Written, SameSlot;
    ResolveReads(vars, b, q, [s]);
    ReadAfter(vars, b, p, v, vars', b', q);
    match Read(vars, b, q)
    case Some(Struct(sd)) =>
      ReadAllocated(vars', b', q);
      assert Count(Struct(sd)) == multiset{sd};
      KeysAfter(vars, b, p, v, vars', b', sd);
      FindByKeys(b[sd].entries, b'[sd].entries, s.key);
    case Some(Array(es)) =>
      OneIndex(vars, b, q, s.index);
      OneIndex(vars', b', q, s.index);
    case _ =>
  }

  lemma KeysAfter(vars: seq<Value>, b: Blocks, p: Place, v: Value, vars': seq<Value>, b': Blocks, sd: Addr)
    requires Read(vars, b, p).Some? && Written(vars, b, p, v, vars', b') && sd in b'
    ensures sd in b && |b'[sd].entries| == |b[sd].entries|
    ensures forall i :: 0 <= i < |b[sd].entries| ==> b'[sd].entries[i].key == b[sd].entries[i].key
  {
  }

  /** No shorter name on the way leads into the place itself; names of indices never do. */
  ghost predicate Straight(vars: seq<Value>, b: Blocks, p: Place, name: Name)
  {
    forall j :: 0 <= j < |name.steps| ==>
      var q := Lookup(vars, b, Name(name.i, name.steps[..j])); q.Some? ==> !Under(p, q.value)
  }

  /** Then the name stands for the same place after an assignment to it. */
  lemma {:induction false} LookupKept(vars: seq<Value>, b: Blocks, p: Place, v: Value, vars': seq<Value>, b': Blocks, name: Name)
    requires Read(vars, b, p).Some? && Written(vars, b, p, v, vars', b') && Exact(b', CountAll(vars'))
    requires Lookup(vars, b, name).Some? && Straight(vars, b, p, name)
    ensures Lookup(vars', b', name) == Lookup(vars, b, name)
    ensures var q := Lookup(vars, b, name).value; q.InStruct? ==> q.sd in b'
    decreases |name.steps|
  {
    var q0 := InVar(name.i, []);
    if name.steps == [] {
      BareKept(vars, b, p, v, vars', b', name.i);
    } else {
      var j := |name.steps| - 1;
      var front, s := Name(name.i, name.steps[..j]), name.steps[j];
      assert name.steps == front.steps + [s];
      ResolveSnoc(vars, b, q0, front.steps, s);
      ResolveSnoc(vars', b', q0, front.steps, s);
      ResolveReads(vars, b, q0, front.steps);
      StraightFront(vars, b, p, name);
      hide Written, Exact, CountAll, Resolve, Straight;
      LookupKept(vars, b, p, v, vars', b', front);
      StepAfter(vars, b, p, v, vars', b', Lookup(vars, b, front).value, s);
    }
  }

  lemma BareKept(vars: seq<Value>, b: Blocks, p: Place, v: Value, vars': seq<Value>, b': Blocks, i: nat)
    requires Read(vars, b, p).Some? && Written(vars, b, p, v, vars', b') && Lookup(vars, b, Name(i, [])).Some?
    ensures Lookup(vars', b', Name(i, [])) == Lookup(vars, b, Name(i, [])) == Some(InVar(i, []))
  {
  }

  lemma StraightFront(vars: seq<Value>, b: Blocks, p: Place, name: Name)
    requires Straight(vars, b, p, name) && name.steps != []
    ensures var j := |name.steps| - 1;
            var front := Name(name.i, name.steps[..j]);
            Straight(vars, b, p, front) && (Lookup(vars, b, front).Some? ==> !Under(p, Lookup(vars, b, front).value))
  {
    var j := |name.steps| - 1;
    hide Lookup, Under;
    forall k | 0 <= k < j
      ensures var q := Lookup(vars, b, Name(name.i, name.steps[..j][..k])); q.Some? ==> !Under(p, q.value)
    {
      assert name.steps[..j][..k] == name.steps[..k];
    }
  }

  /** What a step that assigns `v` to `dst` does for names: `dst` reads `v` if no shorter name on
      its way leads into its own place, and a name that stands for another place reads what it
      did if none on its way leads into the assigned one. */
  lemma AssignedReads(vars: seq<Value>, b: Blocks, dst: Name, v: Value, vars': seq<Value>, b': Blocks, other: Name)
    requires Lookup(vars, b, dst).Some? && Assigned(vars, b, Lookup(vars, b, dst), Some(v), vars', b')
    requires Settled(vars', b')
    ensures Straight(vars, b, Lookup(vars, b, dst).value, dst) ==> ValueAt(vars', b', dst) == Some(v)
    ensures var p, q := Lookup(vars, b, dst).value, Lookup(vars, b, other);
            q.Some? && Straight(vars, b, p, other) && (!SameSlot(p, q.value) || Parted(p.path, q.value.path)) ==>
              ValueAt(vars', b', other) == ValueAt(vars, b, other)
  {
    SettledParts(vars', b');
    hide Settled, Exact, CountAll, Written, Straight, SameSlot, Resolve, Parted;
    var p, q := Lookup(vars, b, dst).value, Lookup(vars, b, other);
    if Straight(vars, b, p, dst) {
      LookupKept(vars, b, p, v, vars', b', dst);
      ReadAfter(vars, b, p, v, vars', b', p);
    }
    if q.Some? && Straight(vars, b, p, other) {
      LookupKept(vars, b, p, v, vars', b', other);
      ReadAfter(vars, b, p, v, vars', b', q.value);
    }
  }

  /** A variable and indices. */
  function Element(i: nat, path: seq<nat>): Name
  {
    Name(i, seq(|path|, j requires 0 <= j < |path| => Index(path[j])))
  }

  lemma {:induction false} ElementPlace(vars: seq<Value>, b: Blocks, i: nat, path: seq<nat>)
    ensures var p := Lookup(vars, b, Element(i, path)); p.Some? ==> p == Some(InVar(i, path))
    decreases |path|
  {
    if path != [] {
      var j := |path| - 1;
      ElementPlace(vars, b, i, path[..j]);
      assert Element(i, path).steps == Element(i, path[..j]).steps + [Index(path[j])];
      ResolveSnoc(vars, b, InVar(i, []), Element(i, path[..j]).steps, Index(path[j]));
      assert path == path[..j] + [path[j]];
    }
  }

  /** No name of indices has to be guarded against its own way. */
  lemma ElementStraight(vars: seq<Value>, b: Blocks, i: nat, path: seq<nat>, k: nat, q: seq<nat>)
    requires k != i || !(path < q)
    ensures Straight(vars, b, InVar(i, path), Element(k, q))
  {
    hide Lookup;
    forall j | 0 <= j < |q|
      ensures var r := Lookup(vars, b, Name(k, Element(k, q).steps[..j])); r.Some? ==> !Under(InVar(i, path), r.value)
    {
      assert Element(k, q).steps[..j] == Element(k, q[..j]).steps;
      ElementPlace(vars, b, k, q[..j]);
      if k == i && path <= q[..j] { Shorter(path, q, j); }
    }
  }

  lemma Shorter(path: seq<nat>, q: seq<nat>, j: nat)
    requires j < |q| && path <= q[..j]
    ensures path < q
  {
  }

  /** So `a[..] = v` reads `v` afterwards, and every element whose indices part from its own
      reads what it did. */
  lemma ElementAssigned(vars: seq<Value>, b: Blocks, i: nat, path: seq<nat>, v: Value, vars': seq<Value>, b': Blocks,
                        k: nat, q: seq<nat>)
    requires ValueAt(vars, b, Element(i, path)).Some? && Settled(vars', b')
    requires Assigned(vars, b, Lookup(vars, b, Element(i, path)), Some(v), vars', b')
    ensures ValueAt(vars', b', Element(i, path)) == Some(v)
    ensures (k != i || Parted(path, q)) && ValueAt(vars, b, Element(k, q)).Some? ==>
              ValueAt(vars', b', Element(k, q)) == ValueAt(vars, b, Element(k, q))
  {
    hide Settled, Assigned, Straight;
    ElementPlace(vars, b, i, path);
    ElementPlace(vars, b, k, q);
    ElementStraight(vars, b, i, path, i, path);
    AssignedReads(vars, b, Element(i, path), v, vars', b', Element(k, q));
    if k != i || Parted(path, q) {
      ElementStraight(vars, b, i, path, k, q);
    }
  }

  // --------------------------------------------------------------------- keys

  /** No struct has a key twice. */
  ghost predicate KeysOnce(b: Blocks)
  {
    forall n, i, j :: n in b && 0 <= i < j < |b[n].entries| ==> b[n].entries[i].key != b[n].entries[j].key
  }

  /** Every step keeps that. */
  lemma StepKeepsKeys(op: Op, s: (seq<Value>, Blocks), s': (seq<Value>, Blocks))
    requires Went(op, s, s') && KeysOnce(s.1)
    ensures KeysOnce(s'.1)
  {
    hide Lookup, StepFate, Read, Find, Without, Assigned, KeysOnce;
    match op
    case Declare =>
    case Drop => SlotsOnce(s.1, s'.1);
    case SetScalar(dst, text) =>
      AssignedOnce(s.0, s.1, Lookup(s.0, s.1, dst), Some(Scalar(text)), s'.0, s'.1);
    case SetArray(dst) =>
      AssignedOnce(s.0, s.1, Lookup(s.0, s.1, dst), Some(Array([])), s'.0, s'.1);
    case SetStruct(dst, a) =>
      AllocOnce(s.1, a);
      if Lookup(s.0, s.1, dst).Some? && a !in s.1 {
        AssignedOnce(s.0, Alloc(s.1, a), Lookup(s.0, s.1, dst), Some(Struct(a)), s'.0, s'.1);
      }
    case Assign(dst, src) =>
      AssignedOnce(s.0, s.1, Lookup(s.0, s.1, dst), ValueAt(s.0, s.1, src), s'.0, s'.1);
    case Push(dst, src) =>
      var d, v := ValueAt(s.0, s.1, dst), ValueAt(s.0, s.1, src);
      if d.Some? && v.Some? && d.value.Array? {
        AssignedOnce(s.0, s.1, Lookup(s.0, s.1, dst), Some(Array(d.value.elems + [v.value])), s'.0, s'.1);
      }
    case Put(dst, key, src) =>
      var d, v := ValueAt(s.0, s.1, dst), ValueAt(s.0, s.1, src);
      if d.Some? && v.Some? && d.value.Struct? && d.value.sd in s.1 {
        PutOnce(s.0, s.1, d.value.sd, key, v.value, s'.0, s'.1);
      }
    case Erase(dst, key) =>
      var d := ValueAt(s.0, s.1, dst);
      if d.Some? && d.value.Struct? && d.value.sd in s.1 { ErasedOnce(s.1, d.value.sd, key, s'.1); }
    case Clear(dst) =>
      var d := ValueAt(s.0, s.1, dst);
      if d.Some? && d.value.Struct? && d.value.sd in s.1 { EmptiedOnce(s.1, d.value.sd, s'.1); }
  }

  lemma SlotsOnce(b: Blocks, b': Blocks)
    requires KeysOnce(b) && SameSlots(b, b', {})
    ensures KeysOnce(b')
  {
  }

  lemma AllocOnce(b: Blocks, a: Addr)
    requires KeysOnce(b)
    ensures KeysOnce(Alloc(b, a))
  {
  }

  lemma AssignedOnce(vars: seq<Value>, b: Blocks, p: Option<Place>, v: Option<Value>, vars': seq<Value>, b': Blocks)
    requires KeysOnce(b) && Assigned(vars, b, p, v, vars', b')
    ensures KeysOnce(b')
  {
    if p.Some? && v.Some? {
      forall n | n in b'
        ensures n in b && |b'[n].entries| == |b[n].entries|
        ensures forall i :: 0 <= i < |b[n].entries| ==> b'[n].entries[i].key == b[n].entries[i].key
      {
        KeysAfter(vars, b, p.value, v.value, vars', b', n);
      }
      hide Written, Read;
    }
  }

  lemma PutOnce(vars: seq<Value>, b: Blocks, sd: Addr, key: string, v: Value, vars': seq<Value>, b': Blocks)
    requires KeysOnce(b) && sd in b && KeySet(vars, b, sd, key, v, vars', b')
    ensures KeysOnce(b')
  {
    FoundIf(b[sd].entries, key);
    FoundReads(vars, b, sd, key);
    hide Find, Read;
    var f := Find(b[sd].entries, key);
    if f.Some? { AssignedOnce(vars, b, Some(InStruct(sd, f.value, [])), Some(v), vars', b'); }
  }

  lemma ErasedOnce(b: Blocks, sd: Addr, key: string, b': Blocks)
    requires KeysOnce(b) && sd in b && KeyErased(b, sd, key, b')
    ensures KeysOnce(b')
  {
    FoundIf(b[sd].entries, key);
    hide Find;
    if Find(b[sd].entries, key).Some? { WithoutOnce(b[sd].entries, Find(b[sd].entries, key).value); }
  }

  lemma EmptiedOnce(b: Blocks, sd: Addr, b': Blocks)
    requires KeysOnce(b) && Emptied(b, sd, b')
    ensures KeysOnce(b')
  {
  }

  lemma FoundIf(es: seq<Entry>, key: string)
    ensures match Find(es, key)
            case Some(k) => k < |es| && es[k].key == key
            case None => forall i :: 0 <= i < |es| ==> es[i].key != key
  {
  }

  lemma WithoutOnce(es: seq<Entry>, k: nat)
    requires k < |es| && forall i, j :: 0 <= i < j < |es| ==> es[i].key != es[j].key
    ensures var fs := Without(es, k);
            && (forall i, j :: 0 <= i < j < |fs| ==> fs[i].key != fs[j].key)
            && (forall e :: e in fs <==> e in es && e.key != es[k].key)
  {
    var fs := Without(es, k);
    forall e ensures e in fs <==> e in es && e.key != es[k].key {
      if e in es && e.key != es[k].key {
        var i :| 0 <= i < |es| && es[i] == e;
        assert fs[if i < k then i else i - 1] == e;
      }
    }
  }

  /** After a key was put the struct has that value under it and all it had under other keys. */
  lemma KeyPut(vars: seq<Value>, b: Blocks, sd: Addr, key: string, v: Value, vars': seq<Value>, b': Blocks, e: Entry)
    requires sd in b && KeysOnce(b) && KeySet(vars, b, sd, key, v, vars', b')
    ensures sd in b' && (e in b'[sd].entries <==> if e.key == key then e.value == v else e in b[sd].entries)
  {
    var es := b[sd].entries;
    FoundIf(es, key);
    hide Find;
    if Find(es, key).Some? {
      var k := Find(es, key).value;
      assert b'[sd].entries == es[k := Entry(key, v)];
      OverwrittenOnce(es, k, v, e);
    }
  }

  lemma OverwrittenOnce(es: seq<Entry>, k: nat, v: Value, e: Entry)
    requires k < |es| && forall i, j :: 0 <= i < j < |es| ==> es[i].key != es[j].key
    ensures e in es[k := Entry(es[k].key, v)] <==> if e.key == es[k].key then e.value == v else e in es
  {
    var fs := es[k := Entry(es[k].key, v)];
    assert fs[k] == Entry(es[k].key, v);
    if e in es && e.key != es[k].key {
      var i :| 0 <= i < |es| && es[i] == e;
      assert fs[i] == e;
    }
  }

  /** After a key was erased the struct has all it had under other keys and nothing under it. */
  lemma KeyGone(b: Blocks, sd: Addr, key: string, b': Blocks, e: Entry)
    requires sd in b && KeysOnce(b) && KeyErased(b, sd, key, b')
    ensures sd in b' && (e in b'[sd].entries <==> e.key != key && e in b[sd].entries)
  {
    var es := b[sd].entries;
    FoundIf(es, key);
    hide Find;
    if Find(es, key).Some? { WithoutOnce(es, Find(es, key).value); }
  }
}
