/** Deep copies of values over an arbitrary heap of arrays, structs and queries. */
module DeepCopy {
  import opened Common
  import opened Multigraph

  type Addr = int

  /** What a container is besides its payload and the flags every copy keeps: a component
      seen as one of its super components, or an array that stands for a query's column. */
  datatype Link = Unlinked | SuperTarget(info: int) | ColumnOf(query: Addr, column: int)

  /** A value.  `Scalar` is everything without parts (numbers, dates, strings, binaries and
      the shared images and functions); `style` is how a date is written out, 0 for the
      usual way and for all that is no date.  `tag` is a container's type and its flags,
      a component's shared instance included. */
  datatype Value = Scalar(repr: string, style: int) | FileHandle | Ref(tag: string, link: Link, a: Addr)

  datatype Column = Column(name: string, kind: string, values: seq<Value>)

  datatype Payload =
    | ArrayData(elems: seq<Value>)
    | StructData(keys: seq<string>, values: seq<Value>, order: seq<string>, meta: Option<Value>)
    | QueryData(columns: seq<Column>, currentRow: int, rowCount: int)

  type Blocks = map<Addr, Payload>

  /** All cells, column by column. */
  function Cells(columns: seq<Column>): seq<Value>
  {
    if columns == [] then [] else columns[0].values + Cells(columns[1..])
  }

  function WithCells(columns: seq<Column>, vs: seq<Value>): (r: seq<Column>)
    requires |vs| == |Cells(columns)|
    ensures Cells(r) == vs
  {
    if columns == [] then []
    else
      var n := |columns[0].values|;
      [columns[0].(values := vs[..n])] + WithCells(columns[1..], vs[n..])
  }

  /** The values a payload holds, in the order they are copied. */
  function Parts(p: Payload): seq<Value>
  {
    match p
    case ArrayData(elems) => elems
    case StructData(_, values, _, None) => values
    case StructData(_, values, _, Some(meta)) => values + [meta]
    case QueryData(columns, _, _) => Cells(columns)
  }

  /** The same payload with other values in its place. */
  function WithParts(p: Payload, vs: seq<Value>): (r: Payload)
    requires |vs| == |Parts(p)|
    ensures Parts(r) == vs
  {
    match p
    case ArrayData(_) => ArrayData(vs)
    case StructData(_, _, _, None) => p.(values := vs)
    case StructData(_, values, _, Some(_)) => p.(values := vs[..|values|], meta := Some(vs[|values|]))
    case QueryData(columns, _, _) => p.(columns := WithCells(columns, vs))
  }

  /** A payload without its values: type, keys, insertion order, columns, row counts. */
  function Shape(p: Payload): Payload
  {
    WithParts(p, seq(|Parts(p)|, _ => FileHandle))
  }

  // ------------------------------------------------------------------ meaning

  /** What a value means, sharing forgotten. */
  datatype Tree = Leaf(repr: string, style: int) | Node(tag: string, link: Link, shape: Payload, kids: seq<Tree>)

  ghost predicate Denotes(b: Blocks, v: Value, t: Tree)
    decreases t
  {
    match t
    case Leaf(repr, style) => v == Scalar(repr, style)
    case Node(tag, link, shape, kids) =>
      && v.Ref? && v.tag == tag && v.link == link && v.a in b
      && Shape(b[v.a]) == shape
      && |Parts(b[v.a])| == |kids|
      && forall i :: 0 <= i < |kids| ==> Denotes(b, Parts(b[v.a])[i], kids[i])
  }

  /** What of a meaning a deep copy keeps: dates in the usual style, no links. */
  function Plain(t: Tree): Tree
  {
    match t
    case Leaf(repr, _) => Leaf(repr, 0)
    case Node(tag, _, shape, kids) => Node(tag, Unlinked, shape, PlainAll(kids))
  }

  function PlainAll(ts: seq<Tree>): (r: seq<Tree>)
    ensures |r| == |ts| && forall i :: 0 <= i < |ts| ==> r[i] == Plain(ts[i])
  {
    if ts == [] then [] else [Plain(ts[0])] + PlainAll(ts[1..])
  }

  /** The value itself, without its parts, is something a deep copy changes. */
  predicate Decorated(v: Value)
  {
    match v
    case Scalar(_, style) => style != 0
    case FileHandle => false
    case Ref(_, link, _) => link != Unlinked
  }

  /** A meaning found in addresses from `lo` on only. */
  ghost predicate DenotesFrom(b: Blocks, lo: Addr, v: Value, t: Tree)
    decreases t
  {
    match t
    case Leaf(repr, style) => v == Scalar(repr, style)
    case Node(tag, link, shape, kids) =>
      && v.Ref? && v.tag == tag && v.link == link && v.a in b && v.a >= lo
      && Shape(b[v.a]) == shape
      && |Parts(b[v.a])| == |kids|
      && forall i :: 0 <= i < |kids| ==> DenotesFrom(b, lo, Parts(b[v.a])[i], kids[i])
  }

  lemma {:induction false} FromDenotes(b: Blocks, lo: Addr, v: Value, t: Tree)
    requires DenotesFrom(b, lo, v, t)
    ensures Denotes(b, v, t)
    decreases t
  {
    if t.Node? {
      forall i | 0 <= i < |t.kids| ensures Denotes(b, Parts(b[v.a])[i], t.kids[i]) {
        FromDenotes(b, lo, Parts(b[v.a])[i], t.kids[i]);
      }
    }
  }

  lemma {:induction false} DenotesGrows(b: Blocks, b': Blocks, lo: Addr, lo': Addr, v: Value, t: Tree)
    requires DenotesFrom(b, lo, v, t) && lo' <= lo
    requires forall a :: a in b ==> a in b' && b'[a] == b[a]
    ensures DenotesFrom(b', lo', v, t)
    decreases t
  {
    if t.Node? {
      forall i | 0 <= i < |t.kids| ensures DenotesFrom(b', lo', Parts(b'[v.a])[i], t.kids[i]) {
        DenotesGrows(b, b', lo, lo', Parts(b[v.a])[i], t.kids[i]);
      }
    }
  }

  lemma AllGrow(b: Blocks, b': Blocks, lo: Addr, vs: seq<Value>, kids: seq<Tree>)
    requires |vs| == |kids| && forall j :: 0 <= j < |vs| ==> DenotesFrom(b, lo, vs[j], kids[j])
    requires forall a :: a in b ==> a in b' && b'[a] == b[a]
    ensures forall j :: 0 <= j < |vs| ==> DenotesFrom(b', lo, vs[j], kids[j])
  {
    forall j | 0 <= j < |vs| ensures DenotesFrom(b', lo, vs[j], kids[j]) {
      DenotesGrows(b, b', lo, lo, vs[j], kids[j]);
    }
  }

  /** A value means one tree at most. */
  lemma {:induction false} DenotesOne(b: Blocks, v: Value, t: Tree, t': Tree)
    requires Denotes(b, v, t) && Denotes(b, v, t')
    ensures t == t'
    decreases t
  {
    if t.Node? && t'.Node? {
      forall i | 0 <= i < |t.kids| ensures t.kids[i] == t'.kids[i] {
        DenotesOne(b, Parts(b[v.a])[i], t.kids[i], t'.kids[i]);
      }
      assert t.kids == t'.kids;
    }
  }

  // -------------------------------------------------------------------- cycles

  function Targets(vs: seq<Value>): multiset<Addr>
  {
    if vs == [] then multiset{}
    else Targets(vs[1..]) + if vs[0].Ref? then multiset{vs[0].a} else multiset{}
  }

  lemma {:induction false} TargetsMember(vs: seq<Value>, a: Addr)
    ensures a in Targets(vs) <==> exists i :: 0 <= i < |vs| && vs[i].Ref? && vs[i].a == a
  {
    if vs != [] {
      TargetsMember(vs[1..], a);
      if i :| 0 <= i < |vs| && vs[i].Ref? && vs[i].a == a {
        if i > 0 { assert vs[1..][i - 1] == vs[i]; }
      }
    }
  }

  ghost function Graph(b: Blocks): map<Addr, multiset<Addr>>
  {
    map a | a in b :: Targets(Parts(b[a]))
  }

  ghost predicate NoDangling(b: Blocks)
  {
    Closed(Graph(b), b.Keys)
  }

  /** The payload refers back to itself, directly or not. */
  ghost predicate OnCycle(b: Blocks, a: Addr)
  {
    a in b && a in Reach(Graph(b), Kids(Graph(b), a))
  }

  ghost predicate Circular(b: Blocks, v: Value)
  {
    v.Ref? && exists a :: a in Reach(Graph(b), {v.a}) && OnCycle(b, a)
  }

  ghost predicate HoldsFile(b: Blocks, v: Value)
  {
    v.FileHandle? || (v.Ref? && exists a :: a in Reach(Graph(b), {v.a}) && FileHandle in Parts(b[a]))
  }

  ghost predicate Uncopyable(b: Blocks, v: Value)
  {
    Circular(b, v) || HoldsFile(b, v)
  }

  lemma GraphKids(b: Blocks, a: Addr, x: Addr)
    requires a in b
    ensures Graph(b).Keys == b.Keys
    ensures x in Kids(Graph(b), a) <==> exists i :: 0 <= i < |Parts(b[a])| && Parts(b[a])[i].Ref? && Parts(b[a])[i].a == x
  {
    TargetsMember(Parts(b[a]), x);
  }

  /** What is reached from a part of a payload is reached from the payload. */
  lemma PartReaches(b: Blocks, a: Addr, i: nat, s: set<Addr>)
    requires NoDangling(b) && a in b && i < |Parts(b[a])| && Parts(b[a])[i].Ref?
    requires s <= b.Keys && a in Reach(Graph(b), s)
    ensures var c := Parts(b[a])[i].a;
            && c in b && c in Kids(Graph(b), a)
            && c in Reach(Graph(b), s) && c in Reach(Graph(b), Kids(Graph(b), a))
            && Reach(Graph(b), {c}) <= Reach(Graph(b), s)
  {
    var g, c := Graph(b), Parts(b[a])[i].a;
    GraphKids(b, a, c);
    ReachClosed(g, s);
    assert Kids(g, a) <= Reach(g, s);
    ReachLeast(g, {c}, Reach(g, s));
    ReachStart(g, Kids(g, a));
  }

  /** What spoils a part spoils the whole. */
  lemma PartSpoils(b: Blocks, v: Value, i: nat)
    requires NoDangling(b) && v.Ref? && v.a in b && i < |Parts(b[v.a])|
    ensures Circular(b, Parts(b[v.a])[i]) ==> Circular(b, v)
    ensures HoldsFile(b, Parts(b[v.a])[i]) ==> HoldsFile(b, v)
  {
    var c := Parts(b[v.a])[i];
    ReachStart(Graph(b), {v.a});
    if c.Ref? { PartReaches(b, v.a, i, {v.a}); }
  }

  /** A walk of one reference or more passes through a part. */
  lemma ThroughPart(b: Blocks, a: Addr, n: Addr) returns (i: nat)
    requires NoDangling(b) && a in b && n in Reach(Graph(b), Kids(Graph(b), a))
    ensures i < |Parts(b[a])| && Parts(b[a])[i].Ref? && n in Reach(Graph(b), {Parts(b[a])[i].a})
  {
    var g := Graph(b);
    var m := ReachFrom(g, Kids(g, a), n);
    GraphKids(b, a, m);
    i :| 0 <= i < |Parts(b[a])| && Parts(b[a])[i].Ref? && Parts(b[a])[i].a == m;
  }

  /** Only what holds no file and no cycle has a meaning. */
  lemma {:induction false} MeaningfulCopyable(b: Blocks, v: Value, t: Tree)
    requires NoDangling(b) && Denotes(b, v, t)
    ensures !Uncopyable(b, v)
    decreases t
  {
    if t.Node? {
      var g, parts := Graph(b), Parts(b[v.a]);
      forall i | 0 <= i < |parts| ensures !Uncopyable(b, parts[i]) {
        MeaningfulCopyable(b, parts[i], t.kids[i]);
      }
      forall a | a in Reach(g, {v.a}) ensures !OnCycle(b, a) && FileHandle !in Parts(b[a]) {
        ReachFirst(g, v.a, a);
        if a in Reach(g, Kids(g, v.a)) {
          var i := ThroughPart(b, v.a, a);
          assert !Circular(b, parts[i]) && !HoldsFile(b, parts[i]);
        }
      }
    }
  }

  // ------------------------------------------------------------------- copying

  datatype Outcome = Copied(value: Value) | CircularReference | FileNotCopied

  /** The heap; addresses from `next` on are free. */
  class Store {
    var blocks: Blocks
    var next: Addr

    ghost predicate Valid()
      reads this
    {
      forall a :: a in blocks ==> a < next
    }

    ghost predicate Keeps(source: Blocks)
      reads this
    {
      forall a :: a in source ==> a in blocks && blocks[a] == source[a]
    }

    constructor ()
      ensures Valid() && blocks == map[]
    {
      blocks, next := map[], 0;
    }

    /** `visited` holds the payloads being copied, all of which lead to `src`. */
    method CopyPart(src: Value, visited: set<Addr>, ghost source: Blocks)
      returns (r: Outcome, visited': set<Addr>, ghost t: Tree)
      requires Valid() && Keeps(source) && NoDangling(source)
      requires visited <= source.Keys
      requires src.Ref? ==> src.a in source
      requires src.Ref? ==> forall a :: a in visited ==> src.a in Reach(Graph(source), Kids(Graph(source), a))
      modifies this
      ensures Valid() && next >= old(next)
      ensures forall a :: a in old(blocks) ==> a in blocks && blocks[a] == old(blocks)[a]
      ensures r.Copied? ==> visited' == visited && Denotes(source, src, t)
      ensures r.Copied? ==> DenotesFrom(blocks, old(next), r.value, Plain(t))
      ensures r.CircularReference? ==> Circular(source, src)
      ensures r.FileNotCopied? ==> HoldsFile(source, src)
      decreases source.Keys - visited
    {
      hide Closed, WithParts, Shape, Circular, Reach, Graph, Kids, Denotes, DenotesFrom, Plain, PlainAll;
      t := Leaf("", 0);
      match src
      case Scalar(repr, style) =>
        r, visited', t := Copied(Scalar(repr, 0)), visited, Leaf(repr, style);
        LeafCopied(source, blocks, next, repr, style);
      case FileHandle =>
        r, visited' := FileNotCopied, visited;
      case Ref(tag, link, a) =>
        if a in visited {
          OwnAncestor(source, src);
          return CircularReference, visited, t;
        }
        visited' := visited + {a};
        var p := blocks[a];
        var vs: seq<Value>, i := [], 0;
        ghost var kids: seq<Tree>, plain: seq<Tree> := [], [];
        while i < |Parts(p)|
          invariant 0 <= i <= |Parts(p)| && |vs| == |kids| == |plain| == i
          invariant visited' == visited + {a}
          invariant Valid() && Keeps(source) && next >= old(next)
          invariant forall a :: a in old(blocks) ==> a in blocks && blocks[a] == old(blocks)[a]
          invariant forall j :: 0 <= j < i ==> Denotes(source, Parts(p)[j], kids[j]) && plain[j] == Plain(kids[j])
          invariant forall j :: 0 <= j < i ==> DenotesFrom(blocks, old(next), vs[j], plain[j])
        {
          VisitedLeads(source, visited, a, i);
          PartSpoils(source, src, i);
          ghost var before, lo := blocks, next;
          ghost var k;
          r, visited', k := CopyPart(Parts(p)[i], visited', source);
          if !r.Copied? { return; }
          AllGrow(before, blocks, old(next), vs, plain);
          DenotesGrows(blocks, blocks, lo, old(next), r.value, Plain(k));
          vs, kids, plain, i := vs + [r.value], kids + [k], plain + [Plain(k)], i + 1;
        }
        ghost var before := blocks;
        assert next !in blocks;
        blocks := blocks[next := WithParts(p, vs)];
        r, next := Copied(Ref(tag, Unlinked, next)), next + 1;
        AllGrow(before, blocks, old(next), vs, plain);
        t := Node(tag, link, Shape(p), kids);
        NodeCopied(source, src, blocks, old(next), next - 1, vs, kids, plain);
        visited' := visited' - {a};
    }

    /** The copy lies in fresh memory only and means what the original means, dates in the
        usual style and links left out; so it means the same exactly if there are none.  It
        fails exactly on cycles and file handles. */
    method DeepCopy(src: Value) returns (r: Outcome)
      requires Valid() && NoDangling(blocks)
      requires src.Ref? ==> src.a in blocks
      modifies this
      ensures Valid()
      ensures forall a :: a in old(blocks) ==> a in blocks && blocks[a] == old(blocks)[a]
      ensures r.Copied? <==> !Uncopyable(old(blocks), src)
      ensures r.CircularReference? ==> Circular(old(blocks), src)
      ensures r.FileNotCopied? ==> HoldsFile(old(blocks), src)
      ensures r.Copied? ==> CopyOf(old(blocks), src, blocks, old(next), r.value)
      ensures r.Copied? && src.Ref? ==>
                && r.value.Ref? && r.value.tag == src.tag && r.value.link == Unlinked
                && old(next) <= r.value.a && r.value.a in blocks && SameFields(old(blocks)[src.a], blocks[r.value.a])
      ensures r.Copied? ==> (SameMeaning(old(blocks), src, blocks, r.value) <==> !HoldsDecorated(old(blocks), src))
    {
      ghost var source, t := blocks, Leaf("", 0);
      var visited: set<Addr>;
      r, visited, t := CopyPart(src, {}, source);
      if r.Copied? {
        MeaningfulCopyable(source, src, t);
        ghost var lo := old(next);
        FromDenotes(blocks, lo, r.value, Plain(t));
        PlainIff(source, src, t);
        SameIff(source, src, blocks, r.value, t);
        CopyMeans(source, src, blocks, lo, r.value);
      }
    }
  }

  // ------------------------------------------------------ field by field

  /** Two payloads agree in all but their values: in type and number of values, keys and
      insertion order, columns, rows and position. */
  ghost predicate SameFields(p: Payload, q: Payload)
  {
    match (p, q)
    case (ArrayData(es), ArrayData(fs)) => |es| == |fs|
    case (StructData(keys, vs, order, meta), StructData(keys', ws, order', meta')) =>
      keys == keys' && |vs| == |ws| && order == order' && meta.Some? == meta'.Some?
    case (QueryData(cs, row, count), QueryData(ds, row', count')) => row == row' && count == count' && SameColumns(cs, ds)
    case _ => false
  }

  ghost predicate SameColumns(cs: seq<Column>, ds: seq<Column>)
  {
    && |cs| == |ds|
    && forall c :: 0 <= c < |cs| ==> cs[c].name == ds[c].name && cs[c].kind == ds[c].kind && |cs[c].values| == |ds[c].values|
  }

  lemma ShapeFields(p: Payload, q: Payload)
    requires Shape(p) == Shape(q)
    ensures SameFields(p, q)
  {
    if p.QueryData? {
      ShapeColumns(p.columns, q.columns, seq(|Cells(p.columns)|, _ => FileHandle), seq(|Cells(q.columns)|, _ => FileHandle));
    }
  }

  lemma {:induction false} ShapeColumns(cs: seq<Column>, ds: seq<Column>, vs: seq<Value>, ws: seq<Value>)
    requires |vs| == |Cells(cs)| && |ws| == |Cells(ds)| && WithCells(cs, vs) == WithCells(ds, ws)
    ensures SameColumns(cs, ds)
  {
    if cs != [] && ds != [] {
      var m, n := |cs[0].values|, |ds[0].values|;
      var e, f := WithCells(cs[1..], vs[m..]), WithCells(ds[1..], ws[n..]);
      FirstOf(cs[0].(values := vs[..m]), e, ds[0].(values := ws[..n]), f);
      hide WithCells;
      ShapeColumns(cs[1..], ds[1..], vs[m..], ws[n..]);
      ColumnsBefore(cs, ds);
    }
  }

  lemma FirstOf(x: Column, e: seq<Column>, y: Column, f: seq<Column>)
    requires [x] + e == [y] + f
    ensures x == y && e == f
  {
    assert ([x] + e)[0] == x && ([y] + f)[0] == y;
    assert ([x] + e)[1..] == e && ([y] + f)[1..] == f;
  }

  lemma ColumnsBefore(cs: seq<Column>, ds: seq<Column>)
    requires cs != [] && ds != [] && SameColumns(cs[1..], ds[1..])
    requires cs[0].name == ds[0].name && cs[0].kind == ds[0].kind && |cs[0].values| == |ds[0].values|
    ensures SameColumns(cs, ds)
  {
    forall c | 0 <= c < |cs| ensures cs[c].name == ds[c].name && cs[c].kind == ds[c].kind && |cs[c].values| == |ds[c].values| {
      if c > 0 { assert cs[c] == cs[1..][c - 1] && ds[c] == ds[1..][c - 1]; }
    }
  }

  /** Cells in one place of two equal tables of columns are parts of one index. */
  lemma {:induction false} CellParts(cs: seq<Column>, ds: seq<Column>, c: nat, r: nat) returns (k: nat)
    requires SameColumns(cs, ds) && c < |cs| && r < |cs[c].values|
    ensures k < |Cells(cs)| && k < |Cells(ds)| && Cells(cs)[k] == cs[c].values[r] && Cells(ds)[k] == ds[c].values[r]
    decreases |cs|
  {
    if c == 0 {
      k := r;
    } else {
      var i := CellParts(cs[1..], ds[1..], c - 1, r);
      k := |cs[0].values| + i;
    }
  }

  /** A value in fresh memory is a deep copy of another. */
  ghost predicate CopyOf(b: Blocks, v: Value, b': Blocks, lo: Addr, v': Value)
  {
    exists t :: Denotes(b, v, t) && DenotesFrom(b', lo, v', Plain(t))
  }

  /** What a copy is, type by type and field by field. */
  lemma CopyMeans(b: Blocks, v: Value, b': Blocks, lo: Addr, v': Value)
    requires CopyOf(b, v, b', lo, v')
    ensures match v
            case Scalar(repr, _) => v' == Scalar(repr, 0)
            case FileHandle => false
            case Ref(tag, _, a) =>
              && v'.Ref? && v'.tag == tag && v'.link == Unlinked && v'.a >= lo
              && a in b && v'.a in b' && SameFields(b[a], b'[v'.a])
              && match (b[a], b'[v'.a])
                 case (ArrayData(es), ArrayData(fs)) => forall i :: 0 <= i < |es| ==> CopyOf(b, es[i], b', lo, fs[i])
                 case (StructData(_, vs, _, meta), StructData(_, ws, _, meta')) =>
                   && (forall i :: 0 <= i < |vs| ==> CopyOf(b, vs[i], b', lo, ws[i]))
                   && (meta.Some? ==> CopyOf(b, meta.value, b', lo, meta'.value))
                 case (QueryData(cs, _, _), QueryData(ds, _, _)) =>
                   forall c, r :: 0 <= c < |cs| && 0 <= r < |cs[c].values| ==> CopyOf(b, cs[c].values[r], b', lo, ds[c].values[r])
                 case _ => true
  {
    var t :| Denotes(b, v, t) && DenotesFrom(b', lo, v', Plain(t));
    if v.Ref? {
      var p, q := b[v.a], b'[v'.a];
      ShapeFields(p, q);
      forall k | 0 <= k < |Parts(p)| ensures CopyOf(b, Parts(p)[k], b', lo, Parts(q)[k]) {
        assert Denotes(b, Parts(p)[k], t.kids[k]) && DenotesFrom(b', lo, Parts(q)[k], Plain(t.kids[k]));
      }
      PartsInPlace(p, q, b, b', lo);
    }
  }

  /** Parts stand for array elements, values with metadata behind, and cells. */
  lemma PartsInPlace(p: Payload, q: Payload, b: Blocks, b': Blocks, lo: Addr)
    requires SameFields(p, q) && |Parts(p)| == |Parts(q)|
    requires forall k :: 0 <= k < |Parts(p)| ==> CopyOf(b, Parts(p)[k], b', lo, Parts(q)[k])
    ensures match (p, q)
            case (ArrayData(es), ArrayData(fs)) => forall i :: 0 <= i < |es| ==> CopyOf(b, es[i], b', lo, fs[i])
            case (StructData(_, vs, _, meta), StructData(_, ws, _, meta')) =>
              && (forall i :: 0 <= i < |vs| ==> CopyOf(b, vs[i], b', lo, ws[i]))
              && (meta.Some? ==> CopyOf(b, meta.value, b', lo, meta'.value))
            case (QueryData(cs, _, _), QueryData(ds, _, _)) =>
              forall c, r :: 0 <= c < |cs| && 0 <= r < |cs[c].values| ==> CopyOf(b, cs[c].values[r], b', lo, ds[c].values[r])
            case _ => true
  {
    hide CopyOf;
    match (p, q)
    case (ArrayData(_), ArrayData(_)) =>
    case (StructData(_, vs, _, meta), StructData(_, ws, _, meta')) =>
      forall i | 0 <= i < |vs| ensures CopyOf(b, vs[i], b', lo, ws[i]) {
        assert Parts(p)[i] == vs[i] && Parts(q)[i] == ws[i];
      }
      if meta.Some? { assert Parts(p)[|vs|] == meta.value && Parts(q)[|ws|] == meta'.value; }
    case (QueryData(cs, _, _), QueryData(ds, _, _)) =>
      forall c, r | 0 <= c < |cs| && 0 <= r < |cs[c].values| ensures CopyOf(b, cs[c].values[r], b', lo, ds[c].values[r]) {
        var k := CellParts(cs, ds, c, r);
        assert CopyOf(b, Parts(p)[k], b', lo, Parts(q)[k]);
      }
  }

  /** Two values in two heaps mean the same. */
  ghost predicate SameMeaning(b: Blocks, v: Value, b': Blocks, v': Value)
  {
    exists t :: Denotes(b, v, t) && Denotes(b', v', t)
  }

  /** Something that a deep copy changes can be reached. */
  ghost predicate HoldsDecorated(b: Blocks, v: Value)
  {
    || Decorated(v)
    || (v.Ref? && exists a, i :: a in Reach(Graph(b), {v.a}) && 0 <= i < |Parts(b[a])| && Decorated(Parts(b[a])[i]))
  }

  lemma SameIff(b: Blocks, v: Value, b': Blocks, v': Value, t: Tree)
    requires Denotes(b, v, t) && Denotes(b', v', Plain(t))
    ensures SameMeaning(b, v, b', v') <==> Plain(t) == t
  {
    if u :| Denotes(b, v, u) && Denotes(b', v', u) {
      DenotesOne(b, v, t, u);
      DenotesOne(b', v', u, Plain(t));
    }
  }

  /** Decorations of a part are decorations of the whole. */
  lemma PartDecorates(b: Blocks, v: Value, i: nat)
    requires NoDangling(b) && v.Ref? && v.a in b && i < |Parts(b[v.a])|
    ensures HoldsDecorated(b, Parts(b[v.a])[i]) ==> HoldsDecorated(b, v)
  {
    var c := Parts(b[v.a])[i];
    ReachStart(Graph(b), {v.a});
    if c.Ref? { PartReaches(b, v.a, i, {v.a}); }
  }

  /** A meaning is plain exactly if nothing decorated can be reached. */
  lemma {:induction false} PlainIff(b: Blocks, v: Value, t: Tree)
    requires NoDangling(b) && Denotes(b, v, t)
    ensures Plain(t) == t <==> !HoldsDecorated(b, v)
    decreases t
  {
    if t.Node? {
      var parts := Parts(b[v.a]);
      forall i | 0 <= i < |parts|
        ensures Plain(t.kids[i]) == t.kids[i] <==> !HoldsDecorated(b, parts[i])
        ensures HoldsDecorated(b, parts[i]) ==> HoldsDecorated(b, v)
      {
        PlainIff(b, parts[i], t.kids[i]);
        PartDecorates(b, v, i);
      }
      if PlainAll(t.kids) == t.kids {
        forall i | 0 <= i < |parts| ensures !HoldsDecorated(b, parts[i]) { assert PlainAll(t.kids)[i] == t.kids[i]; }
        UndecoratedParts(b, v);
      }
    }
  }

  lemma UndecoratedParts(b: Blocks, v: Value)
    requires NoDangling(b) && v.Ref? && v.a in b
    requires forall i :: 0 <= i < |Parts(b[v.a])| ==> !HoldsDecorated(b, Parts(b[v.a])[i])
    ensures HoldsDecorated(b, v) ==> Decorated(v)
  {
    var g, parts := Graph(b), Parts(b[v.a]);
    forall a, k | a in Reach(g, {v.a}) && 0 <= k < |Parts(b[a])| ensures !Decorated(Parts(b[a])[k]) {
      ReachFirst(g, v.a, a);
      if a != v.a {
        var i := ThroughPart(b, v.a, a);
        assert !HoldsDecorated(b, parts[i]);
      } else {
        assert !HoldsDecorated(b, parts[k]);
      }
    }
  }

  /** `CreateODBCDate` gives a date in style 1; its duplicate has the usual style. */
  method DuplicateODBCDate() returns (date: Value, copy: Value)
    ensures date == Scalar("45000.0", 1) && copy == Scalar("45000.0", 0)
  {
    var store := new Store();
    date := Scalar("45000.0", 1);
    var r := store.DeepCopy(date);
    NoReference();
    copy := r.value;
  }

  lemma NoReference()
    ensures NoDangling(map[])
    ensures !Uncopyable(map[], Scalar("45000.0", 1))
  {
  }

  lemma LeafCopied(b: Blocks, b': Blocks, lo: Addr, repr: string, style: int)
    ensures Denotes(b, Scalar(repr, style), Leaf(repr, style))
    ensures DenotesFrom(b', lo, Scalar(repr, 0), Plain(Leaf(repr, style)))
  {
  }

  /** When all parts were copied, the new payload at `to` is a copy of the whole. */
  lemma NodeCopied(b: Blocks, v: Value, b': Blocks, lo: Addr, to: Addr, vs: seq<Value>, kids: seq<Tree>, plain: seq<Tree>)
    requires v.Ref? && v.a in b && |vs| == |kids| == |plain| == |Parts(b[v.a])|
    requires to in b' && to >= lo && b'[to] == WithParts(b[v.a], vs)
    requires forall j :: 0 <= j < |kids| ==> Denotes(b, Parts(b[v.a])[j], kids[j]) && plain[j] == Plain(kids[j])
    requires forall j :: 0 <= j < |vs| ==> DenotesFrom(b', lo, vs[j], plain[j])
    ensures var t := Node(v.tag, v.link, Shape(b[v.a]), kids);
            Denotes(b, v, t) && DenotesFrom(b', lo, Ref(v.tag, Unlinked, to), Plain(t))
  {
    hide WithParts, Shape;
    assert PlainAll(kids) == plain;
    ShapeWithParts(b[v.a], vs);
  }

  lemma ShapeWithParts(p: Payload, vs: seq<Value>)
    requires |vs| == |Parts(p)|
    ensures Shape(WithParts(p, vs)) == Shape(p)
  {
    if p.QueryData? {
      var blank := seq(|vs|, _ => FileHandle);
      WithCellsTwice(p.columns, vs, blank);
    }
  }

  lemma {:induction false} WithCellsTwice(columns: seq<Column>, vs: seq<Value>, ws: seq<Value>)
    requires |vs| == |ws| == |Cells(columns)|
    ensures WithCells(WithCells(columns, vs), ws) == WithCells(columns, ws)
  {
    if columns != [] {
      var n := |columns[0].values|;
      WithCellsTwice(columns[1..], vs[n..], ws[n..]);
    }
  }

  lemma OwnAncestor(b: Blocks, v: Value)
    requires v.Ref? && v.a in b && v.a in Reach(Graph(b), Kids(Graph(b), v.a))
    ensures Circular(b, v)
  {
    ReachStart(Graph(b), {v.a});
    assert OnCycle(b, v.a);
  }

  lemma VisitedLeads(b: Blocks, visited: set<Addr>, a: Addr, i: nat)
    requires NoDangling(b) && visited <= b.Keys && a in b && i < |Parts(b[a])|
    requires forall x :: x in visited ==> a in Reach(Graph(b), Kids(Graph(b), x))
    ensures var c := Parts(b[a])[i];
            c.Ref? ==> c.a in b && forall x :: x in visited + {a} ==> c.a in Reach(Graph(b), Kids(Graph(b), x))
  {
    var g, c := Graph(b), Parts(b[a])[i];
    if c.Ref? {
      ReachStart(g, {a});
      PartReaches(b, a, i, {a});
      forall x | x in visited ensures c.a in Reach(g, Kids(g, x)) {
        assert Kids(g, x) <= g.Keys;
        PartReaches(b, a, i, Kids(g, x));
      }
    }
  }
}
