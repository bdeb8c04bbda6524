/** The metadata of a function, packed into one block of bytes and read back. */
module UdfMeta {
  import opened Bytes

  type text = seq<byte>

  datatype Param = Param(name: text, kind: text, value: text)

  datatype Meta = Meta(params: seq<Param>, returnType: text, access: text)

  // ------------------------------------------------------------------ packing

  function Field(t: text): seq<byte>
  {
    Le32(|t|) + t
  }

  function ParamBytes(p: Param): seq<byte>
  {
    Field(p.name) + Field(p.kind) + Field(p.value)
  }

  function ParamsBytes(ps: seq<Param>): seq<byte>
  {
    if ps == [] then [] else ParamBytes(ps[0]) + ParamsBytes(ps[1..])
  }

  function Payload(m: Meta): seq<byte>
  {
    Le32(|m.params|) + ParamsBytes(m.params) + (Field(m.returnType) + Field(m.access))
  }

  /** The block begins with the length of what follows. */
  function Block(m: Meta): seq<byte>
  {
    Le32(|Payload(m)|) + Payload(m)
  }

  method Serialize(m: Meta) returns (out: seq<byte>)
    ensures out == Block(m)
  {
    hide Field, Le32;
    var payload := Le32(|m.params|);
    assert m.params[0..] == m.params;
    for i := 0 to |m.params|
      invariant payload + ParamsBytes(m.params[i..]) == Le32(|m.params|) + ParamsBytes(m.params)
    {
      var p := m.params[i];
      assert m.params[i..][1..] == m.params[i + 1..];
      FieldIs(p.name);
      FieldIs(p.kind);
      FieldIs(p.value);
      ghost var before := payload;
      payload := payload + Le32(|p.name|) + p.name;
      payload := payload + Le32(|p.kind|) + p.kind;
      payload := payload + Le32(|p.value|) + p.value;
      assert payload == before + ParamBytes(p);
    }
    FieldIs(m.returnType);
    FieldIs(m.access);
    payload := payload + Le32(|m.returnType|) + m.returnType;
    payload := payload + Le32(|m.access|) + m.access;
    assert payload == Payload(m);
    out := Le32(|payload|) + payload;
  }

  lemma FieldIs(t: text)
    ensures Field(t) == Le32(|t|) + t
  {
  }

  // ------------------------------------------------------------------ reading

  /** A number at `p`, and where the next field begins; 0 if there is no room for it. */
  function ReadNumber(d: seq<byte>, p: nat, end: nat): (nat, nat)
  {
    if p + 4 <= end then (Rd32(d, p), p + 4) else (0, p)
  }

  /** A field at `p`; a length that leads past the end empties it and ends the reading. */
  function ReadText(d: seq<byte>, p: nat, end: nat): (r: (text, nat))
    requires p <= end <= |d|
    ensures p <= r.1 <= end
  {
    var (n, q) := ReadNumber(d, p, end);
    if q + n <= end then (d[q..q + n], q + n) else ([], end)
  }

  function ReadParam(d: seq<byte>, p: nat, end: nat): (r: (Param, nat))
    requires p <= end <= |d|
    ensures p <= r.1 <= end
  {
    var (name, q) := ReadText(d, p, end);
    var (kind, r) := ReadText(d, q, end);
    var (value, s) := ReadText(d, r, end);
    (Param(name, kind, value), s)
  }

  function ReadParams(d: seq<byte>, p: nat, end: nat, n: nat): (r: (seq<Param>, nat))
    requires p <= end <= |d|
    ensures p <= r.1 <= end
    decreases n
  {
    if n == 0 then ([], p)
    else
      var (ps, q) := ReadParams(d, p, end, n - 1);
      var (param, r) := ReadParam(d, q, end);
      (ps + [param], r)
  }

  /** The number of parameters that is believed. */
  function Believed(count: nat): nat
  {
    if count > 100000 then 0 else count
  }

  /** The block lies in memory as far as its own length says. */
  predicate InMemory(d: seq<byte>)
  {
    |d| >= 4 && 4 + Rd32(d, 0) <= |d|
  }

  function Parsed(d: seq<byte>): Meta
    requires InMemory(d)
  {
    var end := 4 + Rd32(d, 0);
    var (count, p) := ReadNumber(d, 4, end);
    var (params, q) := ReadParams(d, p, end, Believed(count));
    var (returnType, r) := ReadText(d, q, end);
    Meta(params, returnType, ReadText(d, r, end).0)
  }

  method ReadU32(d: seq<byte>, p: nat, end: nat) returns (v: nat, p': nat)
    ensures (v, p') == ReadNumber(d, p, end)
  {
    v, p' := 0, p;
    if p + 4 <= end {
      v := At(d, p) + At(d, p + 1) * 256 + At(d, p + 2) * 0x1_0000 + At(d, p + 3) * 0x100_0000;
      p' := p + 4;
    }
  }

  method ReadStringField(d: seq<byte>, p: nat, end: nat) returns (out: text, p': nat)
    requires p <= end <= |d|
    ensures (out, p') == ReadText(d, p, end) && p <= p' <= end
  {
    var len;
    len, p' := ReadU32(d, p, end);
    out := [];
    if p' + len <= end {
      out, p' := d[p'..p' + len], p' + len;
    } else {
      p' := end;
    }
  }

  method Deserialize(d: seq<byte>) returns (m: Meta)
    requires InMemory(d)
    ensures m == Parsed(d)
  {
    hide ReadText, Rd32;
    var total, p := ReadU32(d, 0, 4);
    var end := p + total;
    var count;
    count, p := ReadU32(d, p, end);
    if count > 100000 { count := 0; }
    var params: seq<Param> := [];
    ghost var first := p;
    for i := 0 to count
      invariant first <= p <= end && (params, p) == ReadParams(d, first, end, i)
    {
      var name, kind, value;
      name, p := ReadStringField(d, p, end);
      kind, p := ReadStringField(d, p, end);
      value, p := ReadStringField(d, p, end);
      params := params + [Param(name, kind, value)];
    }
    var returnType, access;
    returnType, p := ReadStringField(d, p, end);
    access, p := ReadStringField(d, p, end);
    m := Meta(params, returnType, access);
  }

  // --------------------------------------------------------------- round trip

  /** `t` lies at `p`, and ends at or before `end`. */
  ghost predicate Lies(d: seq<byte>, p: nat, end: nat, t: seq<byte>)
  {
    p + |t| <= end <= |d| && d[p..p + |t|] == t
  }

  lemma LiesParts(d: seq<byte>, p: nat, end: nat, a: seq<byte>, b: seq<byte>)
    requires Lies(d, p, end, a + b)
    ensures Lies(d, p, end, a) && Lies(d, p + |a|, end, b)
  {
    var t := d[p..p + |a + b|];
    assert d[p..p + |a|] == t[..|a|] && d[p + |a|..p + |a| + |b|] == t[|a|..];
  }

  lemma FieldRead(d: seq<byte>, p: nat, end: nat, t: text)
    requires Lies(d, p, end, Field(t)) && end < 0x1_0000_0004
    ensures p <= end && ReadText(d, p, end) == (t, p + |Field(t)|)
  {
    LiesParts(d, p, end, Le32(|t|), t);
    Read32(d, p, |t|);
    hide Rd32, Le32;
  }

  lemma ParamRead(d: seq<byte>, p: nat, end: nat, param: Param)
    requires Lies(d, p, end, ParamBytes(param)) && end < 0x1_0000_0004
    ensures p <= end && ReadParam(d, p, end) == (param, p + |ParamBytes(param)|)
  {
    hide Lies, Field, ReadText;
    var q := p + |Field(param.name)|;
    LiesParts(d, p, end, Field(param.name) + Field(param.kind), Field(param.value));
    LiesParts(d, p, end, Field(param.name), Field(param.kind));
    FieldRead(d, p, end, param.name);
    FieldRead(d, q, end, param.kind);
    FieldRead(d, q + |Field(param.kind)|, end, param.value);
  }

  lemma {:induction false} ParamsAppend(ps: seq<Param>, p: Param)
    ensures ParamsBytes(ps + [p]) == ParamsBytes(ps) + ParamBytes(p)
  {
    hide ParamBytes;
    if ps == [] {
      assert [p][1..] == [] && ps + [p] == [p];
    } else {
      assert (ps + [p])[1..] == ps[1..] + [p];
      ParamsAppend(ps[1..], p);
    }
  }

  lemma {:induction false} ParamsRead(d: seq<byte>, p: nat, end: nat, ps: seq<Param>)
    requires Lies(d, p, end, ParamsBytes(ps)) && end < 0x1_0000_0004
    ensures p <= end && ReadParams(d, p, end, |ps|) == (ps, p + |ParamsBytes(ps)|)
  {
    if ps != [] {
      var n := |ps| - 1;
      assert ps == ps[..n] + [ps[n]];
      ParamsAppend(ps[..n], ps[n]);
      LiesParts(d, p, end, ParamsBytes(ps[..n]), ParamBytes(ps[n]));
      ParamsRead(d, p, end, ps[..n]);
      ParamRead(d, p + |ParamsBytes(ps[..n])|, end, ps[n]);
      hide ReadParam, ParamsBytes, ParamBytes;
    }
  }

  /** A block is in memory wherever something follows it. */
  lemma BlockInMemory(m: Meta, d: seq<byte>)
    requires |Payload(m)| < 0x1_0000_0000 && Block(m) <= d
    ensures Rd32(d, 0) == |Payload(m)| && InMemory(d)
    ensures Lies(d, 4, 4 + |Payload(m)|, Payload(m))
  {
    hide Payload;
    var n := |Payload(m)|;
    assert d[0..4] == Block(m)[0..4] == Le32(n);
    Read32(d, 0, n);
    assert d[4..4 + n] == Block(m)[4..4 + n];
  }

  /** Reading gives back what was written, whatever follows the block, if and only if there
      are not too many parameters. */
  lemma RoundTrip(m: Meta, d: seq<byte>)
    requires |Payload(m)| < 0x1_0000_0000 && Block(m) <= d
    ensures InMemory(d)
    ensures Parsed(d) == m <==> |m.params| <= 100000
  {
    hide ParamsBytes, Field, ReadText, Lies, Payload, Block, ReadNumber, Rd32, ReadParams;
    BlockInMemory(m, d);
    PayloadLies(m, d);
    if |m.params| <= 100000 {
      FieldsRead(m, d, 4 + |Payload(m)|);
    } else {
      NoParams(d, 8, 4 + |Payload(m)|);
    }
  }

  lemma NoParams(d: seq<byte>, p: nat, end: nat)
    requires p <= end <= |d|
    ensures ReadParams(d, p, end, 0).0 == []
  {
  }

  /** The count is read, and the parameters and the last two fields lie behind it. */
  lemma PayloadLies(m: Meta, d: seq<byte>)
    requires var end := 4 + |Payload(m)|; end < 0x1_0000_0004 && Lies(d, 4, end, Payload(m))
    ensures var end, ps := 4 + |Payload(m)|, ParamsBytes(m.params);
            && ReadNumber(d, 4, end) == (|m.params|, 8) && 8 <= end <= |d|
            && Lies(d, 8, end, ps) && Lies(d, 8 + |ps|, end, Field(m.returnType) + Field(m.access))
  {
    var end := 4 + |Payload(m)|;
    var ps, tail := ParamsBytes(m.params), Field(m.returnType) + Field(m.access);
    ParamsLong(m.params);
    hide Lies, Rd32, Le32, ParamsBytes, Field;
    LiesParts(d, 4, end, Le32(|m.params|) + ps, tail);
    LiesParts(d, 4, end, Le32(|m.params|), ps);
    NumberRead(d, 4, end, |m.params|);
  }

  lemma NumberRead(d: seq<byte>, p: nat, end: nat, n: nat)
    requires Lies(d, p, end, Le32(n)) && n < 0x1_0000_0000
    ensures ReadNumber(d, p, end) == (n, p + 4)
  {
    Read32(d, p, n);
    hide Rd32, Le32;
  }

  lemma FieldsRead(m: Meta, d: seq<byte>, end: nat)
    requires var ps := ParamsBytes(m.params);
             Lies(d, 8, end, ps) && Lies(d, 8 + |ps|, end, Field(m.returnType) + Field(m.access)) && end < 0x1_0000_0004
    ensures 8 <= end <= |d| && ReadParams(d, 8, end, |m.params|).0 == m.params
    ensures var q := ReadParams(d, 8, end, |m.params|).1;
            ReadText(d, q, end).0 == m.returnType && ReadText(d, ReadText(d, q, end).1, end).0 == m.access
  {
    var ps := ParamsBytes(m.params);
    hide Lies, Field, ReadText, ReadParams, ParamsBytes;
    LiesParts(d, 8 + |ps|, end, Field(m.returnType), Field(m.access));
    ParamsRead(d, 8, end, m.params);
    FieldRead(d, 8 + |ps|, end, m.returnType);
    FieldRead(d, 8 + |ps| + |Field(m.returnType)|, end, m.access);
  }

  lemma {:induction false} ParamsLong(ps: seq<Param>)
    ensures |ps| <= |ParamsBytes(ps)|
  {
    if ps != [] { ParamsLong(ps[1..]); }
  }
}
