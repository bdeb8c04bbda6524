/** The values of the language and the reference-counted struct payloads they share. */
module Values {
  import opened Common

  /** The address of an allocated struct payload. */
  type Addr = int

  /** A value: an array is held inline by its slot, a struct is a pointer to a payload. */
  datatype Value = Scalar(text: string) | Array(elems: seq<Value>) | Struct(sd: Addr)

  datatype Entry = Entry(key: string, value: Value)

  /** The payload every alias of a struct shares.  `entries` is the key map, keys folded
      to lower case; `meta` is the metadata sidecar, which the collector does not traverse. */
  datatype StructData = StructData(refs: int, entries: seq<Entry>, meta: Option<Value>)

  /** A vector that holds each element of `s` once. */
  ghost predicate Lists<T>(w: seq<T>, s: set<T>)
  {
    if w == [] then s == {} else
    var x := w[|w| - 1];
    x in s && Lists(w[..|w| - 1], s - {x})
  }

  method PushBack<T>(w: seq<T>, ghost s: set<T>, x: T) returns (w': seq<T>)
    requires Lists(w, s) && x !in s
    ensures Lists(w', s + {x}) && w' == w + [x]
  {
    w' := w + [x];
    assert w'[..|w|] == w && s + {x} - {x} == s;
  }

  method PopBack<T>(w: seq<T>, ghost s: set<T>) returns (x: T, w': seq<T>)
    requires Lists(w, s) && w != []
    ensures x in s && Lists(w', s - {x})
  {
    x, w' := w[|w| - 1], w[..|w| - 1];
  }

  lemma {:induction false} ListsMember<T>(w: seq<T>, s: set<T>)
    requires Lists(w, s)
    ensures forall x :: x in s <==> x in w
  {
    if w != [] {
      ListsMember(w[..|w| - 1], s - {w[|w| - 1]});
      assert w == w[..|w| - 1] + [w[|w| - 1]];
    }
  }

  /** Reading a vector element by element: `done` is what was read before index `i`. */
  lemma {:induction false} ListsNext<T>(w: seq<T>, s: set<T>, i: nat, done: set<T>)
    requires Lists(w, s) && i < |w| && Lists(w[..i], done)
    ensures w[i] in s && w[i] !in done && Lists(w[..i + 1], done + {w[i]})
    decreases |w|
  {
    var x, t := w[|w| - 1], w[..|w| - 1];
    assert w[..i + 1][..i] == w[..i];
    if i < |t| {
      assert t[..i] == w[..i] && t[..i + 1] == w[..i + 1];
      ListsNext(t, s - {x}, i, done);
    } else {
      assert w[..i] == t;
      ListsUnique(t, s - {x}, done);
    }
    assert done + {w[i]} - {w[i]} == done;
  }

  lemma ListsEmpty<T>(w: seq<T>, s: set<T>)
    requires Lists(w, s) && w == []
    ensures s == {}
  {
  }

  lemma ListsSome<T>(w: seq<T>, s: set<T>)
    requires Lists(w, s) && w != []
    ensures s != {}
  {
  }

  lemma ListsNone<T>(w: seq<T>)
    ensures Lists(w[..0], {})
  {
  }

  lemma {:induction false} ListsUnique<T>(w: seq<T>, s: set<T>, s': set<T>)
    requires Lists(w, s) && Lists(w, s')
    ensures s == s'
  {
    if w != [] {
      ListsUnique(w[..|w| - 1], s - {w[|w| - 1]}, s' - {w[|w| - 1]});
      assert s == s - {w[|w| - 1]} + {w[|w| - 1]};
    }
  }

  lemma ListsAll<T>(w: seq<T>, s: set<T>, done: set<T>)
    requires Lists(w, s) && Lists(w[..|w|], done)
    ensures done == s
  {
    assert w[..|w|] == w;
    ListsUnique(w, s, done);
  }

  lemma {:induction false} ListsCount<T>(w: seq<T>, s: set<T>, x: T)
    requires Lists(w, s)
    ensures multiset(w)[x] == if x in s then 1 else 0
  {
    if w != [] {
      ListsCount(w[..|w| - 1], s - {w[|w| - 1]}, x);
      assert w == w[..|w| - 1] + [w[|w| - 1]];
    }
  }

  lemma RestStep<T>(w: seq<T>, i: nat, kept: multiset<T>)
    requires i < |w|
    ensures w[i] in kept + multiset(w[i..])
    ensures kept + multiset(w[i..]) - multiset{w[i]} == kept + multiset(w[i + 1..])
  {
    assert w[i..] == [w[i]] + w[i + 1..];
  }

  /** The payloads a value refers to, arrays flattened, in traversal order. */
  function Refs(v: Value): seq<Addr>
  {
    match v
    case Scalar(_) => []
    case Struct(sd) => [sd]
    case Array(elems) => RefsAll(elems)
  }

  function RefsAll(vs: seq<Value>): seq<Addr>
  {
    if vs == [] then [] else Refs(vs[0]) + RefsAll(vs[1..])
  }

  function ValuesOf(entries: seq<Entry>): (vs: seq<Value>)
    ensures |vs| == |entries| && forall i :: 0 <= i < |vs| ==> vs[i] == entries[i].value
  {
    seq(|entries|, i requires 0 <= i < |entries| => entries[i].value)
  }

  /** References of a value, counted. */
  ghost function Count(v: Value): multiset<Addr> { multiset(Refs(v)) }

  ghost function CountAll(vs: seq<Value>): multiset<Addr> { multiset(RefsAll(vs)) }

  ghost function CountMeta(m: Option<Value>): multiset<Addr>
  {
    if m.Some? then Count(m.value) else multiset{}
  }

  lemma {:induction false} RefsAllConcat(a: seq<Value>, b: seq<Value>)
    ensures RefsAll(a + b) == RefsAll(a) + RefsAll(b)
  {
    if a == [] {
      assert a + b == b;
    } else {
      RefsAllConcat(a[1..], b);
      var c := a + b;
      assert c[0] == a[0] && c[1..] == a[1..] + b;
      hide Refs;
      assert RefsAll(c) == Refs(a[0]) + RefsAll(c[1..]);
      assert RefsAll(a) == Refs(a[0]) + RefsAll(a[1..]);
      hide RefsAll;
      ConcatAssociative(Refs(a[0]), RefsAll(a[1..]), RefsAll(b));
    }
  }

  lemma CountAllSplit(vs: seq<Value>, i: nat)
    requires i <= |vs|
    ensures CountAll(vs) == CountAll(vs[..i]) + CountAll(vs[i..])
  {
    assert vs == vs[..i] + vs[i..];
    RefsAllConcat(vs[..i], vs[i..]);
  }

  lemma CountNone(vs: seq<Value>)
    ensures CountAll(vs[..0]) == multiset{}
  {
  }

  lemma CountAllStep(vs: seq<Value>, i: nat)
    requires i < |vs|
    ensures CountAll(vs[i..]) == Count(vs[i]) + CountAll(vs[i + 1..])
  {
    assert vs[i..][1..] == vs[i + 1..];
  }

  lemma CountAllNext(vs: seq<Value>, i: nat, h: multiset<Addr>)
    requires i < |vs| && CountAll(vs) <= h
    ensures CountAll(vs[..i + 1]) == CountAll(vs[..i]) + Count(vs[i]) <= h
    ensures Count(vs[i]) <= h - CountAll(vs[..i])
  {
    assert vs[..i + 1] == vs[..i] + [vs[i]];
    CountAllAppend(vs[..i], vs[i]);
    CountAllSplit(vs, i + 1);
  }

  lemma CountAllUpdate(vs: seq<Value>, i: nat, v: Value)
    requires i < |vs|
    ensures CountAll(vs[i := v]) + Count(vs[i]) == CountAll(vs) + Count(v)
  {
    CountAllSplit(vs, i);
    CountAllStep(vs, i);
    var ws := vs[i := v];
    CountAllSplit(ws, i);
    CountAllStep(ws, i);
    assert ws[..i] == vs[..i] && ws[i + 1..] == vs[i + 1..];
  }

  lemma CountAllAppend(vs: seq<Value>, v: Value)
    ensures CountAll(vs + [v]) == CountAll(vs) + Count(v)
  {
    RefsAllConcat(vs, [v]);
    assert RefsAll([v]) == Refs(v) + [];
  }

  /** `collectStructChildren`: appends the payloads of `val` to `out`. */
  method CollectStructChildren(val: Value, out: seq<Addr>) returns (res: seq<Addr>)
    ensures res == out + Refs(val)
  {
    res := out;
    match val {
      case Struct(sd) => res := res + [sd];
      case Scalar(_) =>
      case Array(elems) =>
        var i := 0;
        while i < |elems|
          invariant 0 <= i <= |elems| && res == out + RefsAll(elems[..i])
        {
          res := CollectStructChildren(elems[i], res);
          assert elems[..i + 1] == elems[..i] + [elems[i]];
          RefsAllConcat(elems[..i], [elems[i]]);
          assert RefsAll([elems[i]]) == Refs(elems[i]) + [];
          i := i + 1;
        }
        assert elems[..|elems|] == elems;
    }
  }

  /** `getStructDataChildren`: the payloads held by the key map, not by the metadata. */
  method GetStructDataChildren(sd: StructData) returns (children: seq<Addr>)
    ensures children == RefsAll(ValuesOf(sd.entries))
  {
    children := [];
    var vs := ValuesOf(sd.entries);
    var i := 0;
    while i < |sd.entries|
      invariant 0 <= i <= |sd.entries| && children == RefsAll(vs[..i])
    {
      children := CollectStructChildren(sd.entries[i].value, children);
      assert vs[..i + 1] == vs[..i] + [vs[i]];
      RefsAllConcat(vs[..i], [vs[i]]);
      assert RefsAll([vs[i]]) == Refs(vs[i]) + [];
      i := i + 1;
    }
    assert vs[..|vs|] == vs;
  }
}
