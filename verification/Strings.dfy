/** Strings as handles on shared, reference counted, NUL-terminated buffers that are copied
    when a shared one is written to. */
module Strings {

  type Addr = int

  type Handle = int

  /** `data` is as long as the buffer's capacity. */
  datatype Buffer = Buffer(ref: int, data: seq<char>)

  /** A handle; `at` 0 is the null buffer. */
  datatype Str = Str(at: Addr, size: int)

  type Buffers = map<Addr, Buffer>

  type Handles = map<Handle, Str>

  const NUL: char := '\0'

  function Sharers(hs: Handles, a: Addr): set<Handle>
  {
    set h | h in hs && hs[h].at == a
  }

  /** Every buffer is counted by exactly its handles, and has one. */
  ghost predicate Counted(b: Buffers, hs: Handles)
  {
    && (forall h :: h in hs && hs[h].at != 0 ==> hs[h].at in b)
    && (forall a :: a in b ==> a != 0 && b[a].ref == |Sharers(hs, a)| && b[a].ref > 0)
  }

  predicate Terminated(b: Buffers, s: Str)
  {
    if s.at == 0 then s.size == 0
    else s.at in b && 0 < s.size < |b[s.at].data| && b[s.at].data[s.size] == NUL
  }

  function Text(b: Buffers, s: Str): (t: string)
    requires Terminated(b, s)
    ensures |t| == s.size
  {
    if s.at == 0 then "" else b[s.at].data[..s.size]
  }

  lemma SharersSet(hs: Handles, h: Handle, s: Str, a: Addr)
    ensures |Sharers(hs[h := s], a)|
         == |Sharers(hs, a)| - (if h in hs && hs[h].at == a then 1 else 0) + (if s.at == a then 1 else 0)
  {
    var rest := Sharers(hs, a) - {h};
    assert Sharers(hs[h := s], a) == if s.at == a then rest + {h} else rest;
  }

  ghost predicate Sound(b: Buffers, hs: Handles)
  {
    Counted(b, hs) && forall h :: h in hs ==> Terminated(b, hs[h])
  }

  /** What the handles stand for: independent strings. */
  ghost function Texts(b: Buffers, hs: Handles): (m: map<Handle, string>)
    requires Sound(b, hs)
    ensures m.Keys == hs.Keys
  {
    map h | h in hs :: Text(b, hs[h])
  }

  /** One handle moves from its buffer to another, and the counts with it. */
  lemma Repointed(b: Buffers, hs: Handles, b': Buffers, h: Handle, s: Str)
    requires Counted(b, hs)
    requires s.at != 0 ==> s.at in b'
    requires forall a :: a in b' ==>
               && a != 0 && b'[a].ref > 0
               && b'[a].ref == (if a in b then b[a].ref else 0)
                               - (if h in hs && hs[h].at == a then 1 else 0) + (if s.at == a then 1 else 0)
    requires forall a :: a in b && a !in b' ==> b[a].ref == 1 && h in hs && hs[h].at == a && s.at != a
    ensures Counted(b', hs[h := s])
  {
    var hs' := hs[h := s];
    forall a | a in b' ensures b'[a].ref == |Sharers(hs', a)| {
      SharersSet(hs, h, s, a);
      if a !in b {
        forall g | g in hs ensures hs[g].at != a {}
        assert Sharers(hs, a) == {};
      }
    }
    forall g | g in hs' && hs'[g].at != 0 ensures hs'[g].at in b' {
      if g != h && hs[g].at !in b' { Pair(h, g, Sharers(hs, hs[g].at)); }
    }
  }

  lemma Pair(h: Handle, g: Handle, s: set<Handle>)
    requires h != g && h in s && g in s
    ensures |s| >= 2
  {
    assert s == {h, g} + (s - {h, g});
  }

  /** A buffer counted once has no other handle. */
  lemma Unshared(b: Buffers, hs: Handles, h: Handle)
    requires Counted(b, hs) && h in hs && hs[h].at != 0 && b[hs[h].at].ref == 1
    ensures forall g :: g in hs && g != h ==> hs[g].at != hs[h].at
  {
    forall g | g in hs && g != h ensures hs[g].at != hs[h].at {
      if hs[g].at == hs[h].at { Pair(h, g, Sharers(hs, hs[h].at)); }
    }
  }

  /** `h` changes, and no other handle's string does. */
  lemma TextsUpdate(b: Buffers, hs: Handles, b': Buffers, h: Handle, s: Str)
    requires Sound(b, hs) && Counted(b', hs[h := s]) && Terminated(b', s)
    requires forall g :: g in hs && g != h ==> Terminated(b', hs[g]) && Text(b', hs[g]) == Text(b, hs[g])
    ensures Sound(b', hs[h := s]) && Texts(b', hs[h := s]) == Texts(b, hs)[h := Text(b', s)]
  {
    hide Counted, Terminated, Text;
    var hs' := hs[h := s];
    assert Sound(b', hs');
    forall g | g in hs' ensures Texts(b', hs')[g] == Texts(b, hs)[h := Text(b', s)][g] {
      assert g != h ==> Texts(b, hs)[g] == Text(b, hs[g]);
    }
  }

  function Dropped(b: Buffers, s: Str): Buffers
    requires s.at != 0 ==> s.at in b
  {
    if s.at == 0 then b
    else if b[s.at].ref == 1 then b - {s.at}
    else b[s.at := b[s.at].(ref := b[s.at].ref - 1)]
  }

  function Retained(b: Buffers, s: Str): Buffers
    requires s.at != 0 ==> s.at in b
  {
    if s.at == 0 then b else b[s.at := b[s.at].(ref := b[s.at].ref + 1)]
  }

  lemma DropSound(b: Buffers, hs: Handles, h: Handle)
    requires Sound(b, hs) && h in hs
    ensures var b', hs' := Dropped(b, hs[h]), hs[h := Str(0, 0)];
            Sound(b', hs') && Texts(b', hs') == Texts(b, hs)[h := ""]
  {
    var b' := Dropped(b, hs[h]);
    Repointed(b, hs, b', h, Str(0, 0));
    if hs[h].at != 0 && b[hs[h].at].ref == 1 { Unshared(b, hs, h); }
    OthersStand(b, hs, b', h);
    TextsUpdate(b, hs, b', h, Str(0, 0));
  }

  lemma OthersStand(b: Buffers, hs: Handles, b': Buffers, h: Handle)
    requires Sound(b, hs)
    requires forall g :: g in hs && g != h && hs[g].at != 0 ==> hs[g].at in b' && b'[hs[g].at].data == b[hs[g].at].data
    ensures forall g :: g in hs && g != h ==> Terminated(b', hs[g]) && Text(b', hs[g]) == Text(b, hs[g])
  {
  }

  /** A handle on no buffer takes a share of `from`'s. */
  lemma RetainSound(b: Buffers, hs: Handles, h: Handle, from: Handle)
    requires Sound(b, hs) && from in hs && (h in hs ==> hs[h].at == 0)
    ensures var b', hs' := Retained(b, hs[from]), hs[h := hs[from]];
            Sound(b', hs') && Texts(b', hs') == Texts(b, hs)[h := Texts(b, hs)[from]]
  {
    var b' := Retained(b, hs[from]);
    Repointed(b, hs, b', h, hs[from]);
    OthersStand(b, hs, b', h);
    TextsUpdate(b, hs, b', h, hs[from]);
  }

  /** A handle on no buffer gets one of its own. */
  lemma FreshSound(b: Buffers, hs: Handles, h: Handle, a: Addr, data: seq<char>, size: int)
    requires Sound(b, hs) && (h in hs ==> hs[h].at == 0) && a !in b && a != 0
    requires 0 < size < |data| && data[size] == NUL
    ensures var b', hs' := b[a := Buffer(1, data)], hs[h := Str(a, size)];
            Sound(b', hs') && Texts(b', hs') == Texts(b, hs)[h := data[..size]]
  {
    var b' := b[a := Buffer(1, data)];
    Repointed(b, hs, b', h, Str(a, size));
    OthersStand(b, hs, b', h);
    TextsUpdate(b, hs, b', h, Str(a, size));
  }

  /** The only handle on a buffer rewrites it. */
  lemma RewriteSound(b: Buffers, hs: Handles, h: Handle, data: seq<char>, size: int)
    requires Sound(b, hs) && h in hs && hs[h].at != 0 && b[hs[h].at].ref == 1
    requires 0 < size < |data| && data[size] == NUL
    ensures var a := hs[h].at; var b', hs' := b[a := Buffer(1, data)], hs[h := Str(a, size)];
            Sound(b', hs') && Texts(b', hs') == Texts(b, hs)[h := data[..size]]
  {
    var a := hs[h].at;
    var b' := b[a := Buffer(1, data)];
    Unshared(b, hs, h);
    Repointed(b, hs, b', h, Str(a, size));
    OthersStand(b, hs, b', h);
    TextsUpdate(b, hs, b', h, Str(a, size));
  }

  /** Two handles exchange their buffers. */
  lemma SwapSound(b: Buffers, hs: Handles, h: Handle, g: Handle)
    requires Sound(b, hs) && h in hs && g in hs
    ensures var hs' := hs[h := hs[g]][g := hs[h]];
            Sound(b, hs') && Texts(b, hs') == Texts(b, hs)[h := Texts(b, hs)[g]][g := Texts(b, hs)[h]]
  {
    forall a ensures |Sharers(hs[h := hs[g]][g := hs[h]], a)| == |Sharers(hs, a)| {
      SharersSet(hs, h, hs[g], a);
      SharersSet(hs[h := hs[g]], g, hs[h], a);
    }
  }

  /** What `h` and its sharers stand for after `h` was cut to `size`: the terminator is
      written into the one buffer they have. */
  ghost function CutTexts(b: Buffers, hs: Handles, h: Handle, size: int): (m: map<Handle, string>)
    requires Sound(b, hs) && h in hs && 0 <= size <= |Texts(b, hs)[h]|
    ensures m.Keys == hs.Keys
  {
    map g | g in hs ::
      if g == h then Texts(b, hs)[h][..size]
      else if hs[g].at == hs[h].at && size < |Texts(b, hs)[g]| then Texts(b, hs)[g][size := NUL]
      else Texts(b, hs)[g]
  }

  lemma CutSound(b: Buffers, hs: Handles, h: Handle, size: int)
    requires Sound(b, hs) && h in hs && 0 < size < hs[h].size
    ensures var a := hs[h].at;
            && a in b && size < |b[a].data|
            && var b', hs' := b[a := b[a].(data := b[a].data[size := NUL])], hs[h := hs[h].(size := size)];
            Sound(b', hs') && Texts(b', hs') == CutTexts(b, hs, h, size)
  {
    var a := hs[h].at;
    assert Terminated(b, hs[h]);
    var b', s := b[a := b[a].(data := b[a].data[size := NUL])], hs[h].(size := size);
    Repointed(b, hs, b', h, s);
    var hs' := hs[h := s];
    hide Counted, Sound, Terminated, Text, Texts, CutTexts;
    NullOrAllocated(b, hs, h);
    forall g | g in hs' ensures Terminated(b', hs'[g]) && Text(b', hs'[g]) == CutTexts(b, hs, h, size)[g] {
      CutEach(b, hs, h, size, g);
    }
    TextsAre(b', hs', CutTexts(b, hs, h, size));
  }

  lemma CutEach(b: Buffers, hs: Handles, h: Handle, size: int, g: Handle)
    requires Sound(b, hs) && h in hs && 0 < size < hs[h].size && g in hs
    ensures var a := hs[h].at;
            && a in b && size < |b[a].data| && |Texts(b, hs)[h]| == hs[h].size
            && var b', s := b[a := b[a].(data := b[a].data[size := NUL])], if g == h then hs[h].(size := size) else hs[g];
            Terminated(b', s) && Text(b', s) == CutTexts(b, hs, h, size)[g]
  {
    NullOrAllocated(b, hs, h);
    NullOrAllocated(b, hs, g);
    assert hs[h].at in b && size < |b[hs[h].at].data| && |Texts(b, hs)[h]| == hs[h].size;
    CutText(b, hs[g], hs[h].at, size);
    hide Counted, Sound, Terminated, Text, Texts;
  }

  lemma TextsAre(b: Buffers, hs: Handles, m: map<Handle, string>)
    requires Counted(b, hs) && m.Keys == hs.Keys
    requires forall h :: h in hs ==> Terminated(b, hs[h]) && Text(b, hs[h]) == m[h]
    ensures Sound(b, hs) && Texts(b, hs) == m
  {
    hide Counted, Terminated, Text;
    assert Sound(b, hs);
    forall h | h in hs ensures Texts(b, hs)[h] == m[h] {}
  }

  lemma CutText(b: Buffers, s: Str, a: Addr, size: int)
    requires Terminated(b, s) && a in b && 0 < size < |b[a].data|
    ensures var b' := b[a := b[a].(data := b[a].data[size := NUL])];
            && Terminated(b', s)
            && |Text(b, s)| == s.size && Text(b', s) == if s.at == a && size < s.size then Text(b, s)[size := NUL] else Text(b, s)
    ensures s.at == a && size < s.size ==>
              var b' := b[a := b[a].(data := b[a].data[size := NUL])];
              Terminated(b', s.(size := size)) && Text(b', s.(size := size)) == Text(b, s)[..size]
  {
  }

  /** Cutting leaves every other string alone if and only if no sharer reaches beyond the
      cut with something other than a NUL there. */
  lemma CutIndependent(b: Buffers, hs: Handles, h: Handle, size: int)
    requires Sound(b, hs) && h in hs && 0 < size < hs[h].size
    ensures hs[h].at in b && size < |b[hs[h].at].data|
    ensures CutTexts(b, hs, h, size) == Texts(b, hs)[h := Texts(b, hs)[h][..size]]
       <==> b[hs[h].at].data[size] == NUL || forall g :: g in hs && g != h && hs[g].at == hs[h].at ==> hs[g].size <= size
  {
    NullOrAllocated(b, hs, h);
    var cut, same := CutTexts(b, hs, h, size), Texts(b, hs)[h := Texts(b, hs)[h][..size]];
    forall g | g in hs && g != h
      ensures cut[g] == same[g] <==> !(hs[g].at == hs[h].at && hs[g].size > size && b[hs[h].at].data[size] != NUL)
    {
      CutApart(b, hs, h, size, g);
    }
    assert cut[h] == same[h];
    hide Sound, Texts, CutTexts;
    if forall g :: g in hs ==> cut[g] == same[g] { assert cut == same; }
  }

  lemma CutApart(b: Buffers, hs: Handles, h: Handle, size: int, g: Handle)
    requires Sound(b, hs) && h in hs && 0 < size < hs[h].size && g in hs && g != h
    ensures hs[h].at in b && size < |b[hs[h].at].data| && |Texts(b, hs)[h]| == hs[h].size
    ensures CutTexts(b, hs, h, size)[g] == Texts(b, hs)[g]
       <==> !(hs[g].at == hs[h].at && hs[g].size > size && b[hs[h].at].data[size] != NUL)
  {
    NullOrAllocated(b, hs, h);
    NullOrAllocated(b, hs, g);
    assert hs[h].at in b && size < |b[hs[h].at].data| && |Texts(b, hs)[h]| == hs[h].size;
    hide Sound, Texts;
    if hs[g].at == hs[h].at && hs[g].size > size {
      assert Text(b, hs[g])[size] == b[hs[h].at].data[size];
      assert CutTexts(b, hs, h, size)[g] == Text(b, hs[g])[size := NUL];
    }
  }

  /** Two handles on "abc"; one is cut to a single byte. */
  lemma CutTearsCopy() returns (b: Buffers, hs: Handles)
    ensures Sound(b, hs) && 0 in hs && 1 in hs && Texts(b, hs)[0] == Texts(b, hs)[1] == "abc"
    ensures CutTexts(b, hs, 0, 1)[1] == ['a', NUL, 'c']
  {
    b, hs := map[1 := Buffer(2, "abc" + [NUL])], map[0 := Str(1, 3), 1 := Str(1, 3)];
    assert Sharers(hs, 1) == {0, 1};
    assert Text(b, hs[1]) == "abc" && "abc"[1 := NUL] == ['a', NUL, 'c'];
  }

  function Overwritten(data: seq<char>, pos: int, t: string): (r: seq<char>)
    requires 0 <= pos && pos + |t| <= |data|
    ensures |r| == |data|
  {
    data[..pos] + t + data[pos + |t|..]
  }

  // ------------------------------------------------------------ writing in place

  function Rewritten(b: Buffers, a: Addr, data: seq<char>): Buffers
    requires a in b
  {
    b[a := b[a].(data := data)]
  }

  /** No other handle on the buffer has a byte or its terminator among those that change. */
  ghost predicate Unharmed(b: Buffers, hs: Handles, h: Handle, data: seq<char>)
    requires h in hs && hs[h].at in b && |data| == |b[hs[h].at].data|
  {
    forall g :: g in hs && g != h && hs[g].at == hs[h].at && 0 <= hs[g].size < |data| ==>
      data[..hs[g].size + 1] == b[hs[h].at].data[..hs[g].size + 1]
  }

  /** Writing `data` into a buffer that may be shared changes the one string and no other if
      and only if the others are unharmed. */
  lemma RewriteIff(b: Buffers, hs: Handles, h: Handle, data: seq<char>, size: int)
    requires Sound(b, hs) && h in hs && hs[h].at in b && |data| == |b[hs[h].at].data|
    requires 0 < size < |data| && data[size] == NUL
    ensures var b', hs' := Rewritten(b, hs[h].at, data), hs[h := hs[h].(size := size)];
            Unharmed(b, hs, h, data) <==> Sound(b', hs') && Texts(b', hs') == Texts(b, hs)[h := data[..size]]
  {
    var b', s := Rewritten(b, hs[h].at, data), hs[h].(size := size);
    var hs' := hs[h := s];
    Repointed(b, hs, b', h, s);
    forall g | g in hs && g != h
      ensures Terminated(b', hs[g]) && Text(b', hs[g]) == Text(b, hs[g]) <==>
              (hs[g].at == hs[h].at ==> data[..hs[g].size + 1] == b[hs[h].at].data[..hs[g].size + 1])
    {
      RewriteEach(b, hs[g], hs[h].at, data);
    }
    hide Counted, Terminated, Text;
    if Unharmed(b, hs, h, data) {
      TextsUpdate(b, hs, b', h, s);
    }
    if Sound(b', hs') && Texts(b', hs') == Texts(b, hs)[h := data[..size]] {
      forall g | g in hs && g != h ensures Terminated(b', hs[g]) && Text(b', hs[g]) == Text(b, hs[g]) {
        assert hs'[g] == hs[g];
        assert Texts(b', hs')[g] == Texts(b, hs)[g];
      }
    }
  }

  lemma RewriteEach(b: Buffers, s: Str, a: Addr, data: seq<char>)
    requires Terminated(b, s) && a in b && a != 0 && |data| == |b[a].data|
    ensures s.at == a ==> 0 < s.size < |data|
    ensures var b' := Rewritten(b, a, data);
            Terminated(b', s) && Text(b', s) == Text(b, s) <==>
            (s.at == a ==> data[..s.size + 1] == b[a].data[..s.size + 1])
  {
    if s.at == a {
      var old', n := b[a].data, s.size;
      assert data[..n + 1] == data[..n] + [data[n]] && old'[..n + 1] == old'[..n] + [old'[n]];
    }
  }

  function Repeated(ch: char, n: nat): (t: string)
    ensures |t| == n
  {
    seq(n, _ => ch)
  }

  /** The bytes after `memmove` and `resize` took out `size` bytes at `pos`. */
  function Shut(data: seq<char>, len: int, pos: int, size: int): (r: seq<char>)
    requires 0 <= pos && 0 < size && pos + size <= len < |data|
    ensures |r| == |data| && r[len - size] == NUL && r[..len - size] == data[..pos] + data[pos + size..len]
  {
    Overwritten(data, pos, data[pos + size..len])[len - size := NUL]
  }

  ghost predicate Shuttable(b: Buffers, hs: Handles, h: Handle, pos: int, size: int)
  {
    && h in hs && hs[h].at in b && 0 <= pos && 0 < size && pos + size <= hs[h].size < |b[hs[h].at].data|
  }

  ghost function ShutBuffer(b: Buffers, hs: Handles, h: Handle, pos: int, size: int): (r: seq<char>)
    requires Shuttable(b, hs, h, pos, size)
    ensures |r| == |b[hs[h].at].data|
  {
    Shut(b[hs[h].at].data, hs[h].size, pos, size)
  }

  lemma ShutText(data: seq<char>, len: int, pos: int, size: int)
    requires 0 <= pos && 0 < size && pos + size <= len < |data|
    ensures Shut(data, len, pos, size)[..len - size] == data[..len][..pos] + data[..len][pos + size..]
  {
    hide Shut;
    assert data[..len][..pos] == data[..pos] && data[..len][pos + size..] == data[pos + size..len];
  }

  /** The bytes after `replace`: what `remove` leaves, whether it moves the tail, cuts the
      string or has nothing to do, and one byte written over. */
  function Replaced(data: seq<char>, len: int, pos: nat, size: int, ch: char): (r: seq<char>)
    requires 0 < size && pos < len < |data|
    ensures |r| == |data|
  {
    (if size == 1 || pos + 1 == len then data
     else if pos + size > len then data[pos + 1 := NUL]
     else Shut(data, len, pos + 1, size - 1))[pos := ch]
  }

  lemma ReplacedText(data: seq<char>, len: int, pos: nat, size: int, ch: char)
    requires 0 < size && pos < len < |data| && data[len] == NUL
    ensures var left := if pos + size < len then len - size + 1 else pos + 1;
            var r, t := Replaced(data, len, pos, size, ch), data[..len];
            && 0 < left < |data| && r[left] == NUL
            && r[..left] == t[..pos] + [ch] + if pos + size < |t| then t[pos + size..] else ""
  {
  }

  function Aligned(size: int): (r: int)
    requires size >= 0
    ensures r % 256 == 0 && r - 256 <= size + 1 < r
  {
    (size + 1) / 256 * 256 + 256
  }

  /** The letter in the given case, ASCII only. */
  function Recase(upper: bool, c: char): char
  {
    if upper && 'a' <= c <= 'z' then c - 32 as char
    else if !upper && 'A' <= c <= 'Z' then c + 32 as char
    else c
  }

  function Recased(upper: bool, t: string): (r: string)
    ensures |r| == |t|
  {
    seq(|t|, i requires 0 <= i < |t| => Recase(upper, t[i]))
  }

  lemma CaseOf(upper: bool, t: string)
    ensures var u := Recased(upper, t);
            && (upper ==> forall i :: 0 <= i < |t| ==> if 'a' <= t[i] <= 'z' then t[i] as int == u[i] as int + 32 else u[i] == t[i])
            && (!upper ==> forall i :: 0 <= i < |t| ==> if 'A' <= t[i] <= 'Z' then u[i] as int == t[i] as int + 32 else u[i] == t[i])
  {
  }

  /** All strings of a process; addresses from `next` on are free. */
  class Strings {
    var buffers: Buffers
    var handles: Handles
    var next: Addr

    ghost predicate Valid()
      reads this
    {
      Sound(buffers, handles) && next > 0 && forall a :: a in buffers ==> a < next
    }

    ghost function Contents(): (m: map<Handle, string>)
      requires Valid()
      reads this
      ensures m.Keys == handles.Keys
    {
      Texts(buffers, handles)
    }

    constructor ()
      ensures Valid() && Contents() == map[]
    {
      buffers, handles, next := map[], map[], 1;
    }

    method Construct(h: Handle)
      requires Valid() && h !in handles
      modifies this
      ensures Valid() && Contents() == old(Contents())[h := ""]
      ensures handles == old(handles)[h := Str(0, 0)]
    {
      Repointed(buffers, handles, buffers, h, Str(0, 0));
      TextsUpdate(buffers, handles, buffers, h, Str(0, 0));
      handles := handles[h := Str(0, 0)];
    }

    method Clear(h: Handle)
      requires Valid() && h in handles
      modifies this
      ensures Valid() && Contents() == old(Contents())[h := ""]
      ensures handles == old(handles)[h := Str(0, 0)]
    {
      hide Sound, Texts;
      DropSound(buffers, handles, h);
      NullOrAllocated(buffers, handles, h);
      var a := handles[h].at;
      if a != 0 {
        buffers := buffers[a := buffers[a].(ref := buffers[a].ref - 1)];
        if buffers[a].ref == 0 {
          buffers := buffers - {a};
        }
        handles := handles[h := Str(0, 0)];
      }
      assert buffers == Dropped(old(buffers), old(handles[h]));
      assert handles == old(handles)[h := Str(0, 0)];
    }

    method Destroy(h: Handle)
      requires Valid() && h in handles
      modifies this
      ensures Valid() && Contents() == old(Contents()) - {h}
    {
      Clear(h);
      ForgetSound(buffers, handles, h);
      handles := handles - {h};
    }

    method Copy(h: Handle, from: Handle)
      requires Valid() && (h in handles ==> handles[h].at == 0) && from in handles
      modifies this
      ensures Valid() && Contents() == old(Contents())[h := old(Contents())[from]]
    {
      hide Sound, Texts;
      RetainSound(buffers, handles, h, from);
      NullOrAllocated(buffers, handles, from);
      var s := handles[from];
      if s.at != 0 {
        buffers := buffers[s.at := buffers[s.at].(ref := buffers[s.at].ref + 1)];
      }
      handles := handles[h := s];
    }

    method Move(h: Handle, from: Handle)
      requires Valid() && h !in handles && from in handles
      modifies this
      ensures Valid() && Contents() == old(Contents())[h := old(Contents())[from]][from := ""]
    {
      hide Sound, Texts;
      Construct(h);
      MoveAssign(h, from);
    }

    method Assign(h: Handle, from: Handle)
      requires Valid() && h in handles && from in handles
      modifies this
      ensures Valid() && Contents() == old(Contents())[h := old(Contents())[from]]
    {
      hide Sound, Texts;
      if h != from {
        Clear(h);
        Copy(h, from);
      }
    }

    /** Moving onto a string exchanges the two. */
    method MoveAssign(h: Handle, from: Handle)
      requires Valid() && h in handles && from in handles
      modifies this
      ensures Valid() && Contents() == old(Contents())[h := old(Contents())[from]][from := old(Contents())[h]]
    {
      SwapSound(buffers, handles, h, from);
      handles := handles[h := handles[from]][from := handles[h]];
    }

    /** Memory as the allocator gives it: of the right size, with anything in it. */
    method Malloc(size: int) returns (data: seq<char>)
      requires size >= 0
      ensures |data| == size
    {
      data := seq(size, _ => NUL);
    }

    /** Afterwards the string's buffer is its own; nothing else changes. */
    method Mutate(h: Handle)
      requires Valid() && h in handles
      modifies this
      ensures Valid() && Contents() == old(Contents()) && handles.Keys == old(handles).Keys
      ensures handles[h].size == old(handles[h].size)
      ensures handles[h].at != 0 <==> old(handles[h].at) != 0
      ensures handles[h].at != 0 ==> buffers[handles[h].at].ref == 1
    {
      hide Sound, Texts;
      NullOrAllocated(buffers, handles, h);
      var s := handles[h];
      if s.at == 0 { return; }
      if buffers[s.at].ref > 1 {
        DropSound(buffers, handles, h);
        buffers := buffers[s.at := buffers[s.at].(ref := buffers[s.at].ref - 1)];
        var data := Malloc(Aligned(s.size));
        data := Overwritten(data, 0, buffers[s.at].data[..s.size])[s.size := NUL];
        FreshSound(buffers, handles[h := Str(0, 0)], h, next, data, s.size);
        assert handles[h := Str(0, 0)][h := Str(next, s.size)] == handles[h := Str(next, s.size)];
        assert data[..s.size] == Texts(old(buffers), handles)[h];
        buffers := buffers[next := Buffer(1, data)];
        handles := handles[h := Str(next, s.size)];
        next := next + 1;
      }
    }

    /** The string grows, keeping its text in front of whatever the memory holds; or it is
        cut short, which its sharers notice. */
    method Resize(h: Handle, size: int)
      requires Valid() && h in handles && size >= 0
      modifies this
      ensures Valid() && handles.Keys == old(handles).Keys && |Contents()[h]| == size
      ensures size >= |old(Contents())[h]| ==> Contents() == old(Contents())[h := Contents()[h]]
      ensures size >= |old(Contents())[h]| ==> Contents()[h][..|old(Contents())[h]|] == old(Contents())[h]
      ensures size > |old(Contents())[h]| ==> handles[h].at != 0 && buffers[handles[h].at].ref == 1
      ensures 0 < size < |old(Contents())[h]| ==> Contents() == CutTexts(old(buffers), old(handles), h, size)
      ensures size == 0 ==> Contents() == old(Contents())[h := ""]
    {
      hide Sound, Texts;
      NullOrAllocated(buffers, handles, h);
      var s := handles[h];
      if size == s.size { return; }
      if size == 0 {
        Clear(h);
        NullOrAllocated(buffers, handles, h);
        return;
      }
      if s.at == 0 {
        var data := Malloc(Aligned(size));
        data := data[size := NUL];
        FreshSound(buffers, handles, h, next, data, size);
        buffers := buffers[next := Buffer(1, data)];
        handles := handles[h := Str(next, size)];
        next := next + 1;
        return;
      }
      if size > s.size {
        Mutate(h);
        Extend(h, size);
      } else {
        CutSound(buffers, handles, h, size);
        buffers := buffers[s.at := buffers[s.at].(data := buffers[s.at].data[size := NUL])];
        handles := handles[h := s.(size := size)];
      }
    }

    /** `fill`, which does not ask for a buffer of its own. */
    method Fill(h: Handle, ch: char, pos: int, size: int)
      requires Valid() && h in handles
      modifies this`buffers
      ensures var s := handles[h];
              var p := if pos < 0 then 0 else pos;
              var n := if size < 0 || p + size > s.size then s.size - p else size;
              if s.at == 0 || p >= s.size then buffers == old(buffers)
              else
                && s.at in old(buffers) && p + n <= |old(buffers)[s.at].data|
                && var data := Overwritten(old(buffers)[s.at].data, p, Repeated(ch, n));
                   && buffers == Rewritten(old(buffers), s.at, data)
                   && (Unharmed(old(buffers), handles, h, data) <==>
                         Valid() && Contents() == old(Contents())[h := data[..s.size]])
    {
      hide Sound, Texts, Unharmed;
      NullOrAllocated(buffers, handles, h);
      var s := handles[h];
      if s.at == 0 { return; }
      var p, n := pos, size;
      if p < 0 { p := 0; }
      if n < 0 { n := s.size - p; }
      if p >= s.size { return; }
      if p + n > s.size { n := s.size - p; }
      var data := Overwritten(buffers[s.at].data, p, Repeated(ch, n));
      RewriteIff(buffers, handles, h, data, s.size);
      assert handles[h := s.(size := s.size)] == handles;
      buffers := Rewritten(buffers, s.at, data);
    }

    /** `remove`: nothing without a place or a size, a cut or a growth to `pos` where less than
        `size` bytes follow, and else the tail is moved up. */
    method Remove(h: Handle, pos: int, size: int)
      requires Valid() && h in handles
      modifies this
      ensures handles.Keys == old(handles).Keys
      ensures size <= 0 || pos < 0 ==> Valid() && buffers == old(buffers) && handles == old(handles)
      ensures size > 0 && 0 <= pos && |old(Contents())[h]| < pos + size ==>
                && Valid() && |Contents()[h]| == pos
                && if pos == 0 then Contents() == old(Contents())[h := ""]
                   else if pos < |old(Contents())[h]| then Contents() == CutTexts(old(buffers), old(handles), h, pos)
                   else Contents() == old(Contents())[h := Contents()[h]]
                        && Contents()[h][..|old(Contents())[h]|] == old(Contents())[h]
      ensures size > 0 && 0 <= pos && pos + size <= |old(Contents())[h]| ==>
                var t := old(Contents())[h];
                && Shuttable(old(buffers), old(handles), h, pos, size)
                && (size == |t| || Unharmed(old(buffers), old(handles), h, ShutBuffer(old(buffers), old(handles), h, pos, size)) <==>
                      Valid() && Contents() == old(Contents())[h := t[..pos] + t[pos + size..]])
    {
      hide Sound, Texts, Unharmed, CutTexts;
      NullOrAllocated(buffers, handles, h);
      if size <= 0 || pos < 0 { return; }
      if pos + size > handles[h].size {
        Resize(h, pos);
        return;
      }
      TakeOut(h, pos, size);
    }

    /** The tail is moved up within the buffer, then the string is cut short. */
    method TakeOut(h: Handle, pos: int, size: int)
      requires Valid() && h in handles && pos >= 0 && size > 0 && pos + size <= |Contents()[h]|
      modifies this
      ensures handles.Keys == old(handles).Keys && Shuttable(old(buffers), old(handles), h, pos, size)
      ensures size == |old(Contents())[h]| || Unharmed(old(buffers), old(handles), h, ShutBuffer(old(buffers), old(handles), h, pos, size))
         <==> Valid() && Contents() == old(Contents())[h := old(Contents())[h][..pos] + old(Contents())[h][pos + size..]]
    {
      hide Sound, Texts, Unharmed, Shut;
      NullOrAllocated(buffers, handles, h);
      var s := handles[h];
      if size == s.size {
        Clear(h);
        return;
      }
      var data := Shut(buffers[s.at].data, s.size, pos, size);
      RewriteIff(buffers, handles, h, data, s.size - size);
      ShutText(buffers[s.at].data, s.size, pos, size);
      buffers := Rewritten(buffers, s.at, data);
      handles := handles[h := s.(size := s.size - size)];
    }

    /** `replace`: what was there is taken out but for one byte, which is written over. */
    method Replace(h: Handle, pos: nat, size: int, ch: char)
      requires Valid() && h in handles
      modifies this
      ensures handles.Keys == old(handles).Keys
      ensures size <= 0 || pos >= |old(Contents())[h]| ==> Valid() && buffers == old(buffers) && handles == old(handles)
      ensures size > 0 && pos < |old(Contents())[h]| ==>
                var s, t := old(handles)[h], old(Contents())[h];
                && s.at in old(buffers) && pos < s.size < |old(buffers)[s.at].data|
                && (Unharmed(old(buffers), old(handles), h, Replaced(old(buffers)[s.at].data, s.size, pos, size, ch)) <==>
                      Valid() && Contents() == old(Contents())[h := t[..pos] + [ch] + if pos + size < |t| then t[pos + size..] else ""])
    {
      hide Sound, Texts, Unharmed, Shut, Replaced;
      NullOrAllocated(buffers, handles, h);
      var s := handles[h];
      if size <= 0 || pos >= s.size { return; }
      var data := Replaced(buffers[s.at].data, s.size, pos, size, ch);
      var left := if pos + size < s.size then s.size - size + 1 else pos + 1;
      ReplacedText(buffers[s.at].data, s.size, pos, size, ch);
      RewriteIff(buffers, handles, h, data, left);
      buffers := Rewritten(buffers, s.at, data);
      handles := handles[h := s.(size := left)];
    }

    /** Grows a string that has its buffer to itself, moving it when it is too small. */
    method Extend(h: Handle, size: int)
      requires Valid() && h in handles && handles[h].at != 0 && buffers[handles[h].at].ref == 1 && size > handles[h].size
      modifies this
      ensures Valid() && handles.Keys == old(handles).Keys && |Contents()[h]| == size
      ensures Contents() == old(Contents())[h := Contents()[h]]
      ensures Contents()[h][..|old(Contents())[h]|] == old(Contents())[h]
      ensures handles[h].at != 0 && buffers[handles[h].at].ref == 1
    {
      hide Sound, Texts;
      NullOrAllocated(buffers, handles, h);
      var s := handles[h];
      if size > |buffers[s.at].data| - 1 {
        var data := Malloc(Aligned(size));
        data := Overwritten(data, 0, buffers[s.at].data)[size := NUL];
        DropSound(buffers, handles, h);
        FreshSound(buffers - {s.at}, handles[h := Str(0, 0)], h, next, data, size);
        assert handles[h := Str(0, 0)][h := Str(next, size)] == handles[h := Str(next, size)];
        buffers := (buffers - {s.at})[next := Buffer(1, data)];
        handles := handles[h := Str(next, size)];
        next := next + 1;
      } else {
        var data := buffers[s.at].data[size := NUL];
        RewriteSound(buffers, handles, h, data, size);
        buffers := buffers[s.at := Buffer(1, data)];
        handles := handles[h := Str(s.at, size)];
      }
    }

    /** Writes into a string that has its buffer to itself. */
    method Write(h: Handle, pos: int, t: string)
      requires Valid() && h in handles && handles[h].at != 0 && buffers[handles[h].at].ref == 1
      requires 0 <= pos && pos + |t| <= handles[h].size
      modifies this`buffers
      ensures Valid() && |old(Contents())[h]| == handles[h].size
      ensures Contents() == old(Contents())[h := Overwritten(old(Contents())[h], pos, t)]
      ensures buffers[handles[h].at].ref == 1
    {
      hide Sound, Texts;
      NullOrAllocated(buffers, handles, h);
      var s := handles[h];
      var data := Overwritten(buffers[s.at].data, pos, t);
      RewriteSound(buffers, handles, h, data, s.size);
      OverwrittenPrefix(buffers[s.at].data, s.size, pos, t);
      assert handles[h := s] == handles;
      buffers := buffers[s.at := buffers[s.at].(data := data)];
    }

    method AppendChar(h: Handle, c: char)
      requires Valid() && h in handles
      modifies this
      ensures Valid() && Contents() == old(Contents())[h := old(Contents())[h] + [c]]
    {
      hide Sound, Texts, Overwritten;
      NullOrAllocated(buffers, handles, h);
      ghost var before := Contents();
      Resize(h, handles[h].size + 1);
      NullOrAllocated(buffers, handles, h);
      LastOverwritten(Contents()[h], |before[h]|, [c]);
      Write(h, handles[h].size - 1, [c]);
    }

    method AppendBytes(h: Handle, t: string)
      requires Valid() && h in handles
      modifies this
      ensures Valid() && Contents() == old(Contents())[h := old(Contents())[h] + t]
    {
      hide Sound, Texts, Overwritten;
      NullOrAllocated(buffers, handles, h);
      ghost var before := Contents();
      assert before[h] + "" == before[h];
      if |t| == 0 { return; }
      var pos := handles[h].size;
      Resize(h, pos + |t|);
      NullOrAllocated(buffers, handles, h);
      LastOverwritten(Contents()[h], pos, t);
      Write(h, pos, t);
    }

    /** The appended string may be the string itself. */
    method Append(h: Handle, from: Handle)
      requires Valid() && h in handles && from in handles
      modifies this
      ensures Valid() && Contents() == old(Contents())[h := old(Contents())[h] + old(Contents())[from]]
    {
      hide Sound, Texts, Overwritten;
      NullOrAllocated(buffers, handles, h);
      NullOrAllocated(buffers, handles, from);
      ghost var before := Contents();
      var n := handles[from].size;
      assert before[h] + "" == before[h];
      if n <= 0 { return; }
      var pos := handles[h].size;
      Resize(h, pos + n);
      NullOrAllocated(buffers, handles, h);
      NullOrAllocated(buffers, handles, from);
      var t := buffers[handles[from].at].data[..n];
      assert t == before[from];
      LastOverwritten(Contents()[h], pos, t);
      Write(h, pos, t);
    }

    method Prepend(h: Handle, c: char)
      requires Valid() && h in handles
      modifies this
      ensures Valid() && Contents() == old(Contents())[h := [c] + old(Contents())[h]]
    {
      hide Sound, Texts, Overwritten;
      NullOrAllocated(buffers, handles, h);
      ghost var before := Contents();
      ghost var grown := "";
      if handles[h].at != 0 {
        Mutate(h);
        NullOrAllocated(buffers, handles, h);
        var len := handles[h].size;
        Resize(h, len + 1);
        NullOrAllocated(buffers, handles, h);
        grown := Contents()[h];
        var text := buffers[handles[h].at].data[..len];
        assert text == grown[..len] == before[h];
        Write(h, 1, text);
      } else {
        Resize(h, 1);
        grown := Contents()[h];
        assert grown == Overwritten(grown, 1, "") by { LastOverwritten(grown, 1, ""); }
      }
      NullOrAllocated(buffers, handles, h);
      Write(h, 0, [c]);
      PrependWritten(grown, c, before[h]);
      assert Contents() == before[h := Contents()[h]];
    }

    /** `toLower` or `toUpper`. */
    method ChangeCase(h: Handle, upper: bool)
      requires Valid() && h in handles
      modifies this
      ensures Valid() && Contents() == old(Contents())[h := Recased(upper, old(Contents())[h])]
      ensures var t, u := old(Contents())[h], Contents()[h];
              && |u| == |t|
              && (upper ==> forall i :: 0 <= i < |t| ==> if 'a' <= t[i] <= 'z' then t[i] as int == u[i] as int + 32 else u[i] == t[i])
              && (!upper ==> forall i :: 0 <= i < |t| ==> if 'A' <= t[i] <= 'Z' then u[i] as int == t[i] as int + 32 else u[i] == t[i])
      ensures Contents()[h] == old(Contents())[h] ==> buffers == old(buffers) && handles == old(handles)
    {
      hide Sound, Texts;
      NullOrAllocated(buffers, handles, h);
      ghost var before := Contents();
      CaseOf(upper, before[h]);
      if handles[h].at == 0 || handles[h].size == 0 {
        assert Recased(upper, before[h]) == before[h];
        return;
      }
      var shouldWrite := AnyToChange(h, upper);
      if !shouldWrite { return; }
      Mutate(h);
      NullOrAllocated(buffers, handles, h);
      ChangeBytes(h, upper);
    }

    method ChangeBytes(h: Handle, upper: bool)
      requires Valid() && OwnsBuffer(h)
      modifies this`buffers
      ensures Valid() && Contents() == old(Contents())[h := Recased(upper, old(Contents())[h])]
    {
      hide Sound, Texts;
      ghost var before := Contents();
      var size := handles[h].size;
      NullOrAllocated(buffers, handles, h);
      assert before[h][..0] == "" && Recased(upper, "") + before[h] == before[h] && before[h := before[h]] == before;
      for c := 0 to size
        invariant Valid() && OwnsBuffer(h) && handles[h].size == size == |before[h]|
        invariant Contents() == before[h := Recased(upper, before[h][..c]) + before[h][c..]]
      {
        hide Recased, Recase;
        RecasedStep(upper, before[h], c);
        ChangeByte(h, upper, c);
      }
      assert before[h][..size] == before[h] && Recased(upper, before[h]) + before[h][size..] == Recased(upper, before[h]);
    }

    ghost predicate OwnsBuffer(h: Handle)
      reads this
    {
      h in handles && handles[h].at in buffers && handles[h].at != 0 && buffers[handles[h].at].ref == 1
    }

    method AnyToChange(h: Handle, upper: bool) returns (found: bool)
      requires Valid() && h in handles && handles[h].at != 0
      ensures found <==> Recased(upper, Contents()[h]) != Contents()[h]
    {
      NullOrAllocated(buffers, handles, h);
      hide Sound, Texts;
      var s := handles[h];
      for c := 0 to s.size
        invariant forall i :: 0 <= i < c ==> Recase(upper, Contents()[h][i]) == Contents()[h][i]
      {
        var ch := buffers[s.at].data[c];
        assert ch == Contents()[h][c];
        if (upper && 'a' <= ch <= 'z') || (!upper && 'A' <= ch <= 'Z') {
          assert Recased(upper, Contents()[h])[c] != ch;
          return true;
        }
      }
      return false;
    }

    method ChangeByte(h: Handle, upper: bool, c: int)
      requires Valid() && OwnsBuffer(h) && 0 <= c < handles[h].size
      modifies this`buffers
      ensures Valid() && OwnsBuffer(h) && |old(Contents())[h]| == handles[h].size
      ensures Contents() == old(Contents())[h := old(Contents())[h][c := Recase(upper, old(Contents())[h][c])]]
    {
      NullOrAllocated(buffers, handles, h);
      hide Sound, Texts;
      var ch := buffers[handles[h].at].data[c];
      assert ch == Contents()[h][c];
      if (upper && 'a' <= ch <= 'z') || (!upper && 'A' <= ch <= 'Z') {
        ghost var t := Contents()[h];
        Write(h, c, [Recase(upper, ch)]);
        NullOrAllocated(buffers, handles, h);
        assert Overwritten(t, c, [Recase(upper, ch)]) == t[c := Recase(upper, ch)];
      } else {
        assert Contents()[h][c := ch] == Contents()[h] && Contents()[h := Contents()[h]] == Contents();
      }
    }

    method FromBytes(h: Handle, t: string)
      requires Valid() && h !in handles
      modifies this
      ensures Valid() && Contents() == old(Contents())[h := t]
    {
      hide Sound, Texts, Overwritten;
      ghost var before := Contents();
      Construct(h);
      Resize(h, |t|);
      if |t| > 0 {
        NullOrAllocated(buffers, handles, h);
        LastOverwritten(Contents()[h], 0, t);
        assert Contents()[h][..0] + t == t;
        Write(h, 0, t);
      }
    }

    /** One statement of a program on strings. */
    method Do(op: Operation)
      requires Valid() && Defined(op, Contents())
      modifies this
      ensures Valid() && Contents() == Meaning(op, old(Contents()))
    {
      hide Sound, Texts;
      match op
      case Empty(h) => Construct(h);
      case Literal(h, t) => FromBytes(h, t);
      case Copied(h, from) =>
        Copy(h, from);
      case Moved(h, from) => Move(h, from);
      case Assigned(h, from) => Assign(h, from);
      case Exchanged(h, from) => MoveAssign(h, from);
      case AddChar(h, c) => AppendChar(h, c);
      case AddBytes(h, t) => AppendBytes(h, t);
      case Add(h, from) => Append(h, from);
      case AddFront(h, c) => Prepend(h, c);
      case Lowered(h) => ChangeCase(h, false);
      case Uppered(h) => ChangeCase(h, true);
      case Cleared(h) => Clear(h);
      case Dead(h) => Destroy(h);
    }

    /** Any program computes what it would on strings that share nothing. */
    method Run(program: seq<Operation>)
      requires Valid() && AllDefined(program, Contents())
      modifies this
      ensures Valid() && Contents() == MeaningOf(program, old(Contents()))
      ensures Contents() == map[] ==> buffers == map[]
    {
      ghost var before := Contents();
      for i := 0 to |program|
        invariant Valid() && AllDefined(program[i..], Contents())
        invariant MeaningOf(program[i..], Contents()) == MeaningOf(program, before)
      {
        hide Sound, Texts;
        assert program[i..][1..] == program[i + 1..];
        Do(program[i]);
      }
      NothingLeft(buffers, handles);
    }
  }

  datatype Operation =
    | Empty(h: Handle)
    | Literal(h: Handle, t: string)
    | Copied(h: Handle, from: Handle)
    | Moved(h: Handle, from: Handle)
    | Assigned(h: Handle, from: Handle)
    | Exchanged(h: Handle, from: Handle)
    | AddChar(h: Handle, c: char)
    | AddBytes(h: Handle, t: string)
    | Add(h: Handle, from: Handle)
    | AddFront(h: Handle, c: char)
    | Lowered(h: Handle)
    | Uppered(h: Handle)
    | Cleared(h: Handle)
    | Dead(h: Handle)

  type Values = map<Handle, string>

  ghost predicate Defined(op: Operation, m: Values)
  {
    (if op.Empty? || op.Literal? || op.Copied? || op.Moved? then op.h !in m else op.h in m)
    && (op.Copied? || op.Moved? || op.Assigned? || op.Exchanged? || op.Add? ==> op.from in m)
  }

  ghost function Meaning(op: Operation, m: Values): Values
    requires Defined(op, m)
  {
    match op
    case Empty(h) => m[h := ""]
    case Literal(h, t) => m[h := t]
    case Copied(h, from) => m[h := m[from]]
    case Moved(h, from) => m[h := m[from]][from := ""]
    case Assigned(h, from) => m[h := m[from]]
    case Exchanged(h, from) => m[h := m[from]][from := m[h]]
    case AddChar(h, c) => m[h := m[h] + [c]]
    case AddBytes(h, t) => m[h := m[h] + t]
    case Add(h, from) => m[h := m[h] + m[from]]
    case AddFront(h, c) => m[h := [c] + m[h]]
    case Lowered(h) => m[h := Recased(false, m[h])]
    case Uppered(h) => m[h := Recased(true, m[h])]
    case Cleared(h) => m[h := ""]
    case Dead(h) => m - {h}
  }

  ghost predicate AllDefined(program: seq<Operation>, m: Values)
  {
    program == [] || (Defined(program[0], m) && AllDefined(program[1..], Meaning(program[0], m)))
  }

  ghost function MeaningOf(program: seq<Operation>, m: Values): Values
    requires AllDefined(program, m)
  {
    if program == [] then m else MeaningOf(program[1..], Meaning(program[0], m))
  }

  lemma RecasedStep(upper: bool, t: string, c: int)
    requires 0 <= c < |t|
    ensures (Recased(upper, t[..c]) + t[c..])[c] == t[c]
    ensures (Recased(upper, t[..c]) + t[c..])[c := Recase(upper, t[c])] == Recased(upper, t[..c + 1]) + t[c + 1..]
  {
  }

  lemma NoSharers(hs: Handles, a: Addr)
    requires forall h :: h in hs ==> hs[h].at != a
    ensures |Sharers(hs, a)| == 0
  {
    assert forall h: Handle :: h !in Sharers(hs, a);
    assert Sharers(hs, a) == {};
  }

  /** When the last handle is gone, so is the last buffer. */
  lemma NothingLeft(b: Buffers, hs: Handles)
    requires Sound(b, hs)
    ensures b.Keys == set h | h in hs && hs[h].at != 0 :: hs[h].at
    ensures hs == map[] ==> b == map[]
  {
    forall a | a in b ensures exists h :: h in hs && hs[h].at == a {
      assert b[a].ref == |Sharers(hs, a)| > 0;
      if forall h :: h in hs ==> hs[h].at != a {
        NoSharers(hs, a);
        assert false;
      }
    }
  }

  lemma LastOverwritten(t: string, pos: int, u: string)
    requires 0 <= pos && |t| == pos + |u|
    ensures Overwritten(t, pos, u) == t[..pos] + u
  {
  }

  lemma OverwrittenPrefix(data: seq<char>, size: int, pos: int, t: string)
    requires 0 <= pos && pos + |t| <= size <= |data|
    ensures Overwritten(data, pos, t)[..size] == Overwritten(data[..size], pos, t)
  {
  }

  lemma PrependWritten(t: string, c: char, u: string)
    requires |t| == 1 + |u|
    ensures Overwritten(Overwritten(t, 1, u), 0, [c]) == [c] + u
  {
  }

  lemma NullOrAllocated(b: Buffers, hs: Handles, h: Handle)
    requires Sound(b, hs) && h in hs
    ensures Terminated(b, hs[h]) && (hs[h].at != 0 ==> b[hs[h].at].ref > 0) && Texts(b, hs)[h] == Text(b, hs[h])
  {
  }

  lemma ForgetSound(b: Buffers, hs: Handles, h: Handle)
    requires Sound(b, hs) && h in hs && hs[h].at == 0
    ensures Sound(b, hs - {h}) && Texts(b, hs - {h}) == Texts(b, hs) - {h}
  {
    forall a | a in b ensures Sharers(hs, a) == Sharers(hs - {h}, a) {}
  }
}
