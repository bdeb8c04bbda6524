/** The places a program can name: a variable or a struct slot, and array elements in it. */
module Places {
  import opened Common
  import opened Values
  import opened Multigraph
  import opened HeapModel

  datatype Step = Key(key: string) | Index(index: nat)

  /** A place is a slot that the heap owns and a path of array indices inside it. */
  datatype Place =
    | InVar(i: nat, path: seq<nat>)
    | InStruct(sd: Addr, k: nat, path: seq<nat>)

  /** The value at an index path of nested arrays. */
  function ElementAt(v: Value, path: seq<nat>): Option<Value>
  {
    if path == [] then Some(v)
    else if v.Array? && path[0] < |v.elems| then ElementAt(v.elems[path[0]], path[1..])
    else None
  }

  function WithElement(v: Value, path: seq<nat>, x: Value): Value
    requires ElementAt(v, path).Some?
  {
    if path == [] then x
    else Array(v.elems[path[0] := WithElement(v.elems[path[0]], path[1..], x)])
  }

  lemma {:induction false} CountWithElement(v: Value, path: seq<nat>, x: Value)
    requires ElementAt(v, path).Some?
    ensures Count(WithElement(v, path, x)) + Count(ElementAt(v, path).value) == Count(v) + Count(x)
  {
    if path != [] {
      var e := v.elems[path[0]];
      var e' := WithElement(e, path[1..], x);
      CountWithElement(e, path[1..], x);
      CountAllUpdate(v.elems, path[0], e');
      hide Refs;
      CountExchange(CountAll(v.elems), CountAll(v.elems[path[0] := e']), Count(e), Count(e'),
                    Count(x), Count(ElementAt(v, path).value));
      CountArray(v.elems);
      CountArray(v.elems[path[0] := e']);
    }
  }

  lemma CountArray(elems: seq<Value>)
    ensures Count(Array(elems)) == CountAll(elems)
  {
  }

  lemma CountExchange(all: multiset<Addr>, all': multiset<Addr>, e: multiset<Addr>, e': multiset<Addr>,
                      x: multiset<Addr>, old': multiset<Addr>)
    requires all' + e == all + e' && e' + old' == e + x
    ensures all' + old' == all + x
  {
    forall n ensures (all' + old')[n] == (all + x)[n] {
      assert (all' + e)[n] == (all + e')[n];
      assert (e' + old')[n] == (e + x)[n];
    }
  }

  lemma {:induction false} CountElementAt(v: Value, path: seq<nat>)
    requires ElementAt(v, path).Some?
    ensures Count(ElementAt(v, path).value) <= Count(v)
  {
    if path != [] {
      CountElementAt(v.elems[path[0]], path[1..]);
      CountAllSplit(v.elems, path[0]);
      CountAllStep(v.elems, path[0]);
      CountArray(v.elems);
    }
  }

  /** The slot of a place: a variable or an entry of a struct. */
  function Slot(vars: seq<Value>, b: Blocks, p: Place): Option<Value>
  {
    match p
    case InVar(i, _) => if i < |vars| then Some(vars[i]) else None
    case InStruct(sd, k, _) => if sd in b && k < |b[sd].entries| then Some(b[sd].entries[k].value) else None
  }

  function Read(vars: seq<Value>, b: Blocks, p: Place): Option<Value>
  {
    match Slot(vars, b, p)
    case None => None
    case Some(v) => ElementAt(v, p.path)
  }

  /** The index of a key in a struct's entries. */
  function Find(entries: seq<Entry>, key: string): (r: Option<nat>)
    ensures r.Some? ==> r.value < |entries| && entries[r.value].key == key
    ensures r.None? ==> forall i :: 0 <= i < |entries| ==> entries[i].key != key
  {
    if entries == [] then None
    else if entries[|entries| - 1].key == key then Some(|entries| - 1)
    else Find(entries[..|entries| - 1], key)
  }

  /** The order of keys in a map: folded to lower case, they are compared byte by byte. */
  function Before(a: string, b: string): bool
  {
    b != "" && (a == "" || a[0] < b[0] || (a[0] == b[0] && Before(a[1..], b[1..])))
  }

  /** After the part they share the first key ends, or has the lower character. */
  lemma {:induction false} BeforeIs(a: string, b: string)
    ensures Before(a, b) <==>
            exists n :: 0 <= n <= |a| && n < |b| && a[..n] == b[..n] && (n == |a| || a[n] < b[n])
    decreases |a|
  {
    if a != "" && b != "" && a[0] == b[0] {
      BeforeIs(a[1..], b[1..]);
      if n :| 0 <= n <= |a[1..]| && n < |b[1..]| && a[1..][..n] == b[1..][..n] && (n == |a[1..]| || a[1..][n] < b[1..][n]) {
        assert a[..n + 1] == [a[0]] + a[1..][..n] && b[..n + 1] == [b[0]] + b[1..][..n];
      }
      if n :| 0 <= n <= |a| && n < |b| && a[..n] == b[..n] && (n == |a| || a[n] < b[n]) {
        assert n > 0;
        assert a[1..][..n - 1] == a[..n][1..] && b[1..][..n - 1] == b[..n][1..];
      }
    } else if b != "" {
      assert a[..0] == b[..0];
      if a != "" {
        forall n | 0 < n <= |a| && n < |b| ensures a[..n] != b[..n] { assert a[..n][0] == a[0] && b[..n][0] == b[0]; }
      }
    }
  }

  lemma {:induction false} BeforeTransitive(a: string, b: string, c: string)
    requires Before(a, b) && Before(b, c)
    ensures Before(a, c)
  {
    if a != "" && a[0] == b[0] && b[0] == c[0] { BeforeTransitive(a[1..], b[1..], c[1..]); }
  }

  /** The index of the last key. */
  function Greatest(entries: seq<Entry>): (k: nat)
    requires entries != []
    ensures k < |entries| && forall i :: 0 <= i < |entries| ==> !Before(entries[k].key, entries[i].key)
  {
    var n := |entries| - 1;
    if n == 0 then NotBeforeSelf(entries[0].key); 0 else
    var k := Greatest(entries[..n]);
    if Before(entries[k].key, entries[n].key) then LaterGreatest(entries, k); n else k
  }

  lemma {:induction false} NotBeforeSelf(a: string)
    ensures !Before(a, a)
  {
    if a != "" { NotBeforeSelf(a[1..]); }
  }

  lemma LaterGreatest(entries: seq<Entry>, k: nat)
    requires k < |entries| - 1 && Before(entries[k].key, entries[|entries| - 1].key)
    requires forall i :: 0 <= i < |entries| - 1 ==> !Before(entries[k].key, entries[i].key)
    ensures forall i :: 0 <= i < |entries| ==> !Before(entries[|entries| - 1].key, entries[i].key)
  {
    var n := |entries| - 1;
    NotBeforeSelf(entries[n].key);
    forall i | 0 <= i < n ensures !Before(entries[n].key, entries[i].key) {
      if Before(entries[n].key, entries[i].key) { BeforeTransitive(entries[k].key, entries[n].key, entries[i].key); }
    }
  }

  /** Follows keys through structs and indices through arrays. */
  function Resolve(vars: seq<Value>, b: Blocks, p: Place, steps: seq<Step>): Option<Place>
    decreases steps
  {
    if steps == [] then (if Read(vars, b, p).Some? then Some(p) else None)
    else match Read(vars, b, p)
      case Some(Struct(sd)) =>
        if steps[0].Key? && sd in b && Find(b[sd].entries, steps[0].key).Some?
        then Resolve(vars, b, InStruct(sd, Find(b[sd].entries, steps[0].key).value, []), steps[1..])
        else None
      case Some(Array(_)) =>
        if steps[0].Index? then Resolve(vars, b, p.(path := p.path + [steps[0].index]), steps[1..]) else None
      case _ => None
  }

  ghost function Roots(vars: seq<Value>): set<Addr>
  {
    ToSet(CountAll(vars))
  }

  /** A place in a struct that the variables reach. */
  ghost predicate Reachable(vars: seq<Value>, b: Blocks, p: Place)
  {
    p.InStruct? ==> p.sd in Reach(EntryGraph(b), Roots(vars))
  }

  lemma {:induction false} ResolveReads(vars: seq<Value>, b: Blocks, p: Place, steps: seq<Step>)
    requires Resolve(vars, b, p, steps).Some?
    ensures Read(vars, b, Resolve(vars, b, p, steps).value).Some?
    decreases steps
  {
    if steps != [] {
      match Read(vars, b, p)
      case Some(Struct(sd)) =>
        ResolveReads(vars, b, InStruct(sd, Find(b[sd].entries, steps[0].key).value, []), steps[1..]);
      case Some(Array(_)) =>
        ResolveReads(vars, b, p.(path := p.path + [steps[0].index]), steps[1..]);
      case _ =>
    }
  }

  // ------------------------------------------------------- what reading means

  lemma {:induction false} ElementSnoc(v: Value, path: seq<nat>, k: nat)
    ensures ElementAt(v, path + [k]) == match ElementAt(v, path)
                                        case Some(Array(es)) => if k < |es| then Some(es[k]) else None
                                        case _ => None
    decreases |path|
  {
    if path == [] {
      assert path + [k] == [k] && [k][1..] == [];
    } else if v.Array? && path[0] < |v.elems| {
      ElementSnoc(v.elems[path[0]], path[1..], k);
      assert (path + [k])[1..] == path[1..] + [k];
    }
  }

  /** An element that was overwritten is the new one. */
  lemma {:induction false} ElementWritten(v: Value, path: seq<nat>, x: Value)
    requires ElementAt(v, path).Some?
    ensures ElementAt(WithElement(v, path, x), path) == Some(x)
    decreases |path|
  {
    if path != [] { ElementWritten(v.elems[path[0]], path[1..], x); }
  }

  /** Two paths that part somewhere, neither leading through the other's end. */
  ghost predicate Parted(p: seq<nat>, q: seq<nat>)
  {
    !(p <= q) && !(q <= p)
  }

  /** All elements that the path neither leads through nor to are what they were. */
  lemma {:induction false} ElementKept(v: Value, path: seq<nat>, x: Value, q: seq<nat>)
    requires ElementAt(v, path).Some? && Parted(path, q)
    ensures ElementAt(WithElement(v, path, x), q) == ElementAt(v, q)
    decreases |path|
  {
    if path[0] == q[0] && q[0] < |v.elems| {
      assert path == [path[0]] + path[1..] && q == [q[0]] + q[1..];
      ElementKept(v.elems[path[0]], path[1..], x, q[1..]);
    }
  }

  /** Those it leads through are arrays of the length they had. */
  lemma {:induction false} ElementAbove(v: Value, path: seq<nat>, x: Value, q: seq<nat>)
    requires ElementAt(v, path).Some? && q < path
    ensures var e, e' := ElementAt(v, q), ElementAt(WithElement(v, path, x), q);
            e.Some? && e.value.Array? && e'.Some? && e'.value.Array? && |e'.value.elems| == |e.value.elems|
    decreases |path|
  {
    if q != [] {
      assert path[0] == q[0] && q[1..] < path[1..];
      ElementAbove(v.elems[path[0]], path[1..], x, q[1..]);
    }
  }

  lemma {:induction false} ResolveSnoc(vars: seq<Value>, b: Blocks, p: Place, steps: seq<Step>, s: Step)
    ensures Resolve(vars, b, p, steps + [s]) == match Resolve(vars, b, p, steps)
                                                case None => None
                                                case Some(q) => Resolve(vars, b, q, [s])
    decreases |steps|
  {
    if steps == [] {
      assert steps + [s] == [s];
    } else {
      assert (steps + [s])[1..] == steps[1..] + [s] && (steps + [s])[0] == steps[0];
      match Read(vars, b, p)
      case Some(Struct(sd)) =>
        if steps[0].Key? && sd in b && Find(b[sd].entries, steps[0].key).Some? {
          ResolveSnoc(vars, b, InStruct(sd, Find(b[sd].entries, steps[0].key).value, []), steps[1..], s);
        }
      case Some(Array(_)) =>
        if steps[0].Index? { ResolveSnoc(vars, b, p.(path := p.path + [steps[0].index]), steps[1..], s); }
      case _ =>
    }
  }

  /** Only keys matter in looking for one. */
  lemma {:induction false} FindByKeys(es: seq<Entry>, fs: seq<Entry>, key: string)
    requires |es| == |fs| && forall i :: 0 <= i < |es| ==> es[i].key == fs[i].key
    ensures Find(es, key) == Find(fs, key)
    decreases |es|
  {
    if es != [] { FindByKeys(es[..|es| - 1], fs[..|fs| - 1], key); }
  }
}
