/** The UU codec, line by line, and exactly when it gives back what it was given. */
module UuCodec {
  import opened Bytes
  import opened Codecs
  import opened Powers

  // ----------------------------------------------------------------- encoding

  function Zeros(n: nat): (z: seq<sextet>)
    ensures |z| == n && forall i :: 0 <= i < n ==> z[i] == 0
  {
    seq(n, _ => 0)
  }

  /** Filled up with zeros to whole groups. */
  function Filled(v: seq<sextet>): seq<sextet>
  {
    v + Zeros((4 - |v| % 4) % 4)
  }

  function Print(x: sextet): (c: char)
    ensures ' ' <= c <= '_'
  {
    ' ' + x as char
  }

  function Printed(v: seq<sextet>): (t: string)
    ensures |t| == |v| && forall i :: 0 <= i < |t| ==> ' ' <= t[i] <= '_'
  {
    seq(|v|, i requires 0 <= i < |v| => Print(v[i]))
  }

  function Line(c: seq<byte>): (t: string)
    requires 0 < |c| <= 45
    ensures |t| > 1 && ' ' < t[0] <= 'M' && forall i :: 0 <= i < |t| ==> ' ' <= t[i] <= '_'
  {
    assert |Printed(Filled(Sextets(c)))| > 0 by { FilledLength(c); }
    [(32 + |c|) as char] + Printed(Filled(Sextets(c)))
  }

  function FirstLine(b: seq<byte>): nat
  {
    if |b| > 45 then 45 else |b|
  }

  function Encoded(b: seq<byte>): string
  {
    if b == [] then "" else Line(b[..FirstLine(b)]) + "\n" + Encoded(b[FirstLine(b)..])
  }

  lemma {:induction false} SextetsSize(c: seq<byte>)
    ensures |Sextets(c)| == |c| / 3 * 4 + if |c| % 3 == 0 then 0 else |c| % 3 + 1
  {
    hide Group;
    if |c| >= 3 { SextetsSize(c[3..]); }
  }

  lemma FilledLength(c: seq<byte>)
    ensures |Filled(Sextets(c))| == (|c| + 2) / 3 * 4
  {
    SextetsSize(c);
    hide Sextets;
    WholeGroups(|c| / 3, |c| % 3, |c|, |Sextets(c)|);
  }

  lemma WholeGroups(q: nat, r: nat, k: nat, n: nat)
    requires k == 3 * q + r && r < 3 && n == q * 4 + if r == 0 then 0 else r + 1
    ensures n + (4 - n % 4) % 4 == (k + 2) / 3 * 4
  {
    if r == 0 {
      DivMod(4, q, 0, n);
      DivMod(3, q, 2, k + 2);
    } else {
      DivMod(4, q, r + 1, n);
      DivMod(3, q + 1, r - 1, k + 2);
    }
  }

  /** Filling up costs nothing: the bytes are still there, in front. */
  lemma {:induction false} PackedFilled(c: seq<byte>)
    ensures |Packed(Filled(Sextets(c)))| >= |c| && Packed(Filled(Sextets(c)))[..|c|] == c
  {
    hide Group, Ungroup;
    if |c| >= 3 {
      FilledStep(c);
      PackedStep(Filled(Sextets(c)));
      hide Sextets, Filled, Packed;
      PackedFilled(c[3..]);
      UngroupGroup(c[0], c[1], c[2]);
      assert c == [c[0], c[1], c[2]] + c[3..];
    } else if |c| == 2 {
      LastGroups(c[0], c[1]);
    } else if |c| == 1 {
      LastGroups(c[0], 0);
    }
  }

  lemma FilledStep(c: seq<byte>)
    requires |c| >= 3
    ensures var v := Filled(Sextets(c));
            |v| >= 4 && v[..4] == Group(c[0], c[1], c[2]) && v[4..] == Filled(Sextets(c[3..]))
  {
    hide Group, Filled;
    assert Sextets(c) == Group(c[0], c[1], c[2]) + Sextets(c[3..]);
    hide Sextets;
    FilledConcat(Group(c[0], c[1], c[2]), Sextets(c[3..]));
  }

  lemma FilledConcat(g: seq<sextet>, v: seq<sextet>)
    requires |g| == 4
    ensures Filled(g + v) == g + Filled(v)
  {
    assert |g + v| % 4 == |v| % 4;
  }

  lemma PackedStep(v: seq<sextet>)
    requires |v| >= 4
    ensures Packed(v) == Ungroup(v[..4]) + Packed(v[4..])
  {
    hide Ungroup;
  }

  lemma LastGroups(x: byte, y: byte)
    ensures Packed(Filled(Sextets([x, y])))[..2] == [x, y] && |Packed(Filled(Sextets([x, y])))| == 3
    ensures Packed(Filled(Sextets([x])))[..1] == [x] && |Packed(Filled(Sextets([x])))| == 3
  {
    hide S0, S1, S2, S3, B0, B1, B2;
    GroupBytes(x, y, 0);
    GroupBytes(x, 0, 0);
    var v, w := Filled(Sextets([x, y])), Filled(Sextets([x]));
    assert v == [S0(x), S1(x, y), S2(y, 0), 0] && w == [S0(x), S1(x, 0), 0, 0];
    assert v[..4] == v && w[..4] == w && v[4..] == [] && w[4..] == [];
  }

  method AppendGroup(t: string, ghost c: seq<byte>, x: byte, y: byte, z: byte, got: nat) returns (t': string)
    requires |c| % 3 == 0 && 1 <= got <= 3 && t == Printed(Sextets(c))
    requires (got < 2 ==> y == 0) && (got < 3 ==> z == 0)
    ensures t' == Printed(Sextets(c + [x, y, z][..got]))
  {
    hide S0, S1, S2, S3, Print;
    SextetsAppend(c, [x, y, z][..got]);
    GroupOf(x, y, z, got);
    hide Sextets;
    t' := t + [Print(S0(x))] + [Print(S1(x, y))];
    if got >= 2 { t' := t' + [Print(S2(y, z))]; }
    if got >= 3 { t' := t' + [Print(S3(z))]; }
  }

  lemma GroupOf(x: byte, y: byte, z: byte, got: nat)
    requires 1 <= got <= 3 && (got < 2 ==> y == 0) && (got < 3 ==> z == 0)
    ensures Sextets([x, y, z][..got]) == [S0(x), S1(x, y), S2(y, z), S3(z)][..got + 1]
  {
    hide S0, S1, S2, S3;
    if got == 1 {
      SextetsOne(x);
      assert [x, y, z][..1] == [x];
    } else if got == 2 {
      SextetsTwo(x, y);
      assert [x, y, z][..2] == [x, y];
    } else {
      assert [x, y, z][..3] == [x, y, z];
    }
  }

  method EncodeLine(b: seq<byte>, pos: nat, end: nat) returns (t: string)
    requires pos < end <= |b| && end - pos <= 45
    ensures t == Line(b[pos..end])
  {
    hide Sextets, Packed, Filled, Printed;
    var first := (32 + (end - pos)) as char;
    var groups := (end - pos + 2) / 3;
    t := "";
    var i := pos;
    assert b[pos..pos] == [];
    SpellsNothing(false);
    while i < end
      invariant pos <= i <= end && ((i - pos) % 3 == 0 || i == end)
      invariant t == Printed(Sextets(b[pos..i]))
    {
      var x, y, z, got := b[i], 0, 0, 1;
      if i + 1 < end { y, got := b[i + 1], 2; }
      if i + 2 < end { z, got := b[i + 2], 3; }
      assert b[pos..i] + [x, y, z][..got] == b[pos..i + got];
      t := AppendGroup(t, b[pos..i], x, y, z, got);
      i := i + got;
    }
    FilledLength(b[pos..end]);
    t := FillUp(t, Sextets(b[pos..end]), groups);
    t := [first] + t;
  }

  /** Blanks up to whole groups. */
  method FillUp(t: string, ghost v: seq<sextet>, groups: nat) returns (t': string)
    requires t == Printed(v) && |Filled(v)| == groups * 4
    ensures t' == Printed(Filled(v))
  {
    t' := t;
    var chars := |t|;
    while chars < groups * 4
      invariant |v| <= chars <= groups * 4
      invariant t' == Printed(v + Zeros(chars - |v|))
    {
      t' := t' + " ";
      chars := chars + 1;
    }
  }

  method EncodeUU(b: seq<byte>) returns (s: string)
    ensures s == Encoded(b)
  {
    hide Encoded, Line;
    s := "";
    var pos := 0;
    assert b[0..] == b;
    while pos < |b|
      invariant 0 <= pos <= |b| && s + Encoded(b[pos..]) == Encoded(b)
    {
      var n := if |b| - pos > 45 then 45 else |b| - pos;
      var t := EncodeLine(b, pos, pos + n);
      EncodedStep(b, pos, n);
      s := s + t + "\n";
      pos := pos + n;
    }
    NothingEncoded(b);
  }

  lemma NothingEncoded(b: seq<byte>)
    ensures Encoded(b[|b|..]) == ""
  {
  }

  lemma EncodedStep(b: seq<byte>, pos: nat, n: nat)
    requires pos < |b| && n == if |b| - pos > 45 then 45 else |b| - pos
    ensures Encoded(b[pos..]) == Line(b[pos..pos + n]) + "\n" + Encoded(b[pos + n..])
  {
    hide Line;
    assert b[pos..][..n] == b[pos..pos + n] && b[pos..][n..] == b[pos + n..];
  }

  // ----------------------------------------------------------------- decoding

  predicate Break(c: char)
  {
    c == '\n' || c == '\r'
  }

  /** Where the line that begins the text ends. */
  function LineEnd(s: string): (n: nat)
    ensures n <= |s| && (n < |s| ==> Break(s[n])) && forall i :: 0 <= i < n ==> !Break(s[i])
  {
    if s == "" || Break(s[0]) then 0 else 1 + LineEnd(s[1..])
  }

  function Fold(c: char): char
  {
    if 'A' <= c <= 'Z' then c + 32 as char else c
  }

  /** The line starts with the given word, in any case. */
  predicate Starts(line: string, word: string)
  {
    |line| >= |word| && forall i :: 0 <= i < |word| ==> Fold(line[i]) == word[i]
  }

  /** The six-bit values of a line's characters; what is out of range is passed over. */
  function Vals(t: string): seq<sextet>
  {
    if t == "" then []
    else Vals(t[..|t| - 1]) + if 32 <= t[|t| - 1] as int <= 96 then [(t[|t| - 1] as int - 32) % 64] else []
  }

  datatype Meaning = Marker | Bad | End | Data(bytes: seq<byte>)

  function AtMost(b: seq<byte>, n: nat): (r: seq<byte>)
    ensures |r| <= n && r <= b && (|r| < n ==> r == b)
  {
    if |b| > n then b[..n] else b
  }

  function Read(line: string): Meaning
    requires line != ""
  {
    var c := line[0] as int;
    if Starts(line, "begin") || Starts(line, "end") then Marker
    else if c < 32 || c > 96 then Bad
    else if (c - 32) % 64 == 0 then End
    else Data(AtMost(Packed(Vals(line[1..])), (c - 32) % 64))
  }

  /** Markers are skipped, an empty line of data ends the data. */
  function Decode(s: string): Decoded
    decreases |s|
  {
    if s == "" then Ok([])
    else if Break(s[0]) then Decode(s[1..])
    else
      var n := LineEnd(s);
      match Read(s[..n])
      case Marker => Decode(s[n..])
      case Bad => Error
      case End => Ok([])
      case Data(b) => match Decode(s[n..]) case Ok(more) => Ok(b + more) case Error => Error
  }

  /** Up to four values of the line from `pos` on. */
  method Gather(line: string, pos: nat) returns (c: seq<sextet>, pos': nat)
    requires pos < |line|
    ensures pos < pos' <= |line| && Vals(line[..pos']) == Vals(line[..pos]) + c
    ensures |c| <= 4 && (|c| == 4 || pos' == |line|)
  {
    c, pos' := [], pos;
    while |c| < 4 && pos' < |line|
      invariant pos <= pos' <= |line| && |c| <= 4 && (|c| > 0 ==> pos' > pos)
      invariant Vals(line[..pos']) == Vals(line[..pos]) + c
      decreases |line| - pos'
    {
      var uc := line[pos'] as int;
      assert line[..pos' + 1][..pos'] == line[..pos'];
      pos' := pos' + 1;
      if uc < 32 || uc > 96 { continue; }
      c := c + [(uc - 32) % 64];
    }
  }

  lemma {:induction false} ValsPrefix(t: string, i: nat)
    requires i <= |t|
    ensures Vals(t[..i]) <= Vals(t)
    decreases |t| - i
  {
    if i < |t| {
      ValsPrefix(t, i + 1);
      assert t[..i + 1][..i] == t[..i];
    } else {
      assert t[..i] == t;
    }
  }

  /** The bytes of one group, as long as fewer than `n` were produced. */
  method Produce(c: seq<sextet>, produced: nat, n: nat) returns (more: seq<byte>)
    requires 1 <= |c| <= 4 && produced < n
    ensures more == AtMost(Packed(c), n - produced)
  {
    hide B0, B1, B2;
    more := [];
    if |c| >= 2 { more := more + [B0(c[0], c[1])]; }
    if |c| >= 3 && produced + |more| < n { more := more + [B1(c[1], c[2])]; }
    if |c| >= 4 && produced + |more| < n { more := more + [B2(c[2], c[3])]; }
    GroupBytesOf(c);
  }

  lemma GroupBytesOf(c: seq<sextet>)
    requires 1 <= |c| <= 4
    ensures Packed(c) == if |c| == 1 then [] else if |c| == 2 then [B0(c[0], c[1])] else
              if |c| == 3 then [B0(c[0], c[1]), B1(c[1], c[2])] else [B0(c[0], c[1]), B1(c[1], c[2]), B2(c[2], c[3])]
  {
    hide Ungroup, B0, B1, B2;
    NoVals("");
    if |c| == 4 {
      assert c[..4] == c && c[4..] == [];
      UngroupOf(c);
    } else if |c| == 3 {
      UngroupOf(c + [0]);
    } else if |c| == 2 {
      UngroupOf(c + [0, 0]);
    }
  }

  lemma UngroupOf(g: seq<sextet>)
    requires |g| == 4
    ensures Ungroup(g) == [B0(g[0], g[1]), B1(g[1], g[2]), B2(g[2], g[3])]
  {
  }

  lemma AtMostStep(v: seq<sextet>, c: seq<sextet>, n: nat)
    requires |v| % 4 == 0 && |Packed(v)| < n
    ensures AtMost(Packed(v + c), n) == Packed(v) + AtMost(Packed(c), n - |Packed(v)|)
  {
    PackedAppend(v, c);
    hide Packed;
  }

  lemma AtMostReached(t: string, i: nat, n: nat)
    requires i <= |t| && |Vals(t[..i])| % 4 == 0 && |Packed(Vals(t[..i]))| >= n
    ensures AtMost(Packed(Vals(t)), n) == AtMost(Packed(Vals(t[..i])), n)
  {
    ValsPrefix(t, i);
    var v := Vals(t[..i]);
    assert Vals(t) == v + Vals(t)[|v|..];
    PackedAppend(v, Vals(t)[|v|..]);
  }

  method DecodeLine(line: string, n: nat) returns (out: seq<byte>)
    requires n > 0
    ensures out == AtMost(Packed(Vals(line)), n)
  {
    hide Packed, Vals, AtMost;
    out := [];
    var pos := 0;
    NoVals(line);
    while pos < |line| && |out| < n
      invariant 0 <= pos <= |line| && |out| <= n
      invariant out == AtMost(Packed(Vals(line[..pos])), n)
      invariant pos == |line| || |Vals(line[..pos])| % 4 == 0
      decreases |line| - pos
    {
      var c, next := Gather(line, pos);
      assert |out| < n && out == Packed(Vals(line[..pos]));
      if |c| == 0 {
        assert Vals(line[..pos]) + c == Vals(line[..pos]);
        pos := next;
        break;
      }
      var more := Produce(c, |out|, n);
      AtMostStep(Vals(line[..pos]), c, n);
      out, pos := out + more, next;
    }
    if pos == |line| {
      assert line[..pos] == line;
    } else {
      AtMostReached(line, pos, n);
    }
  }

  lemma NoVals(line: string)
    ensures Vals(line[..0]) == [] && Packed([]) == [] && forall n :: AtMost(Packed([]), n) == []
  {
  }

  function After(b: seq<byte>, d: Decoded): Decoded
  {
    match d case Ok(more) => Ok(b + more) case Error => Error
  }

  method ReadLineOf(line: string) returns (m: Meaning)
    requires line != ""
    ensures m == Read(line)
  {
    if Starts(line, "begin") { return Marker; }
    if Starts(line, "end") { return Marker; }
    var c := line[0] as int;
    if c < 32 || c > 96 { return Bad; }
    var n := (c - 32) % 64;
    if n == 0 { return End; }
    var b := DecodeLine(line[1..], n);
    return Data(b);
  }

  method DecodeUU(s: string) returns (r: Decoded)
    ensures r == Decode(s)
  {
    hide Decode, Read;
    var out: seq<byte>, i := [], 0;
    assert s[0..] == s;
    AfterNothing(Decode(s));
    while i < |s|
      invariant 0 <= i <= |s| && After(out, Decode(s[i..])) == Decode(s)
      decreases |s| - i
    {
      if Break(s[i]) {
        DecodeBreak(s, i);
        i := i + 1;
        continue;
      }
      var start := i;
      i := SkipLine(s, start);
      DecodeStep(s, start, i);
      var m := ReadLineOf(s[start..i]);
      match m
      case Marker => continue;
      case Bad => return Error;
      case End =>
        assert out + [] == out;
        return Ok(out);
      case Data(b) =>
        AfterAfter(out, b, Decode(s[i..]));
        out := out + b;
    }
    NothingDecoded(s);
    assert out + [] == out;
    r := Ok(out);
  }

  lemma AfterNothing(d: Decoded)
    ensures After([], d) == d
  {
    if d.Ok? { assert [] + d.bytes == d.bytes; }
  }

  lemma NothingDecoded(s: string)
    ensures Decode(s[|s|..]) == Ok([])
  {
  }

  lemma DecodeBreak(s: string, i: nat)
    requires i < |s| && Break(s[i])
    ensures Decode(s[i..]) == Decode(s[i + 1..])
  {
    assert s[i..][1..] == s[i + 1..];
  }

  method SkipLine(s: string, start: nat) returns (i: nat)
    requires start < |s|
    ensures i == start + LineEnd(s[start..])
  {
    i := start;
    assert s[start..] == s[i..];
    while i < |s| && !Break(s[i])
      invariant start <= i <= |s| && i + LineEnd(s[i..]) == start + LineEnd(s[start..])
    {
      assert s[i..][1..] == s[i + 1..];
      i := i + 1;
    }
  }

  lemma DecodeStep(s: string, start: nat, i: nat)
    requires start < |s| && !Break(s[start]) && i == start + LineEnd(s[start..])
    ensures start < i <= |s|
    ensures var rest := Decode(s[i..]);
            Decode(s[start..]) == match Read(s[start..i])
                                  case Marker => rest
                                  case Bad => Error
                                  case End => Ok([])
                                  case Data(b) => After(b, rest)
  {
    var t := s[start..];
    assert t[..LineEnd(t)] == s[start..i] && t[LineEnd(t)..] == s[i..];
  }

  lemma AfterAfter(b: seq<byte>, c: seq<byte>, d: Decoded)
    ensures After(b, After(c, d)) == After(b + c, d)
  {
    if d.Ok? { assert b + (c + d.bytes) == b + c + d.bytes; }
  }

  // --------------------------------------------------------------- round trip

  /** A line of 34 bytes that spells BEGIN, or one of 37 that spells END. */
  predicate SpellsMarker(c: seq<byte>)
  {
    || (|c| == 34 && c[0] == 150 && c[1] == 122 && c[2] == 110)
    || (|c| == 37 && c[0] == 186 && c[1] / 16 == 4)
  }

  /** The bytes on the last line, if that line is not a full one. */
  function LastPart(b: seq<byte>): seq<byte>
  {
    b[|b| / 45 * 45..]
  }

  lemma {:induction false} ValsPrinted(v: seq<sextet>)
    ensures Vals(Printed(v)) == v
  {
    if v != [] {
      var n := |v| - 1;
      ValsPrinted(v[..n]);
      assert Printed(v)[..n] == Printed(v[..n]);
    }
  }

  lemma LineBegins(c: seq<byte>)
    requires 3 <= |c| <= 45
    ensures var t := Line(c);
            |t| >= 5 && t[0] as int == 32 + |c| && t[1] as int == 32 + c[0] / 4 && t[2] as int == 32 + c[0] % 4 * 16 + c[1] / 16
            && t[3] as int == 32 + c[1] % 16 * 4 + c[2] / 64 && t[4] as int == 32 + c[2] % 64
  {
    FilledLength(c);
    var v := Sextets(c);
    assert v[..4] == Group(c[0], c[1], c[2]);
    GroupDigits(c[0], c[1], c[2]);
    hide Sextets;
    assert Filled(v)[..4] == v[..4];
  }

  lemma ReadLine(c: seq<byte>)
    requires 0 < |c| <= 45
    ensures Read(Line(c)) == if SpellsMarker(c) then Marker else Data(c)
  {
    hide Packed, Vals, AtMost, SpellsMarker, Starts, Sextets, Filled, Printed;
    LineBytes(c);
    MarkerLine(c);
    hide Line;
  }

  lemma LineBytes(c: seq<byte>)
    requires 0 < |c| <= 45
    ensures var t := Line(c); AtMost(Packed(Vals(t[1..])), |c|) == c && (t[0] as int - 32) % 64 == |c| && 32 < t[0] as int <= 96
  {
    hide Packed, Vals, Sextets, Filled, Printed;
    var t := Line(c);
    assert t[1..] == Printed(Filled(Sextets(c)));
    ValsPrinted(Filled(Sextets(c)));
    PackedFilled(c);
  }

  lemma MarkerLine(c: seq<byte>)
    requires 0 < |c| <= 45
    ensures (Starts(Line(c), "begin") || Starts(Line(c), "end")) <==> SpellsMarker(c)
  {
    hide Sextets, Filled, Printed, Group;
    var t := Line(c);
    assert t[0] as int == 32 + |c|;
    hide Line;
    assert Starts(t, "begin") ==> Fold(t[0]) == 'b' && |c| == 34;
    assert Starts(t, "end") ==> Fold(t[0]) == 'e' && |c| == 37;
    if |c| == 34 {
      LineBegins(c);
      BeginBytes(c[0], c[1], c[2]);
      assert Starts(t, "begin") <==> Fold(t[1]) == 'e' && Fold(t[2]) == 'g' && Fold(t[3]) == 'i' && Fold(t[4]) == 'n';
    } else if |c| == 37 {
      LineBegins(c);
      EndBytes(c[0], c[1]);
      assert Starts(t, "end") <==> Fold(t[1]) == 'n' && Fold(t[2]) == 'd';
    }
  }

  lemma BeginBytes(x: byte, y: byte, z: byte)
    ensures (x / 4 == 37 && x % 4 * 16 + y / 16 == 39 && y % 16 * 4 + z / 64 == 41 && z % 64 == 46)
       <==> x == 150 && y == 122 && z == 110
  {
  }

  lemma EndBytes(x: byte, y: byte)
    ensures (x / 4 == 46 && x % 4 * 16 + y / 16 == 36) <==> x == 186 && y / 16 == 4
  {
  }

  /** Decoding what was encoded gives the same bytes, but for a last line that is taken for
      a marker and skipped. */
  lemma {:induction false} DecodeEncoded(b: seq<byte>)
    ensures Decode(Encoded(b)) == Ok(if SpellsMarker(LastPart(b)) then b[..|b| / 45 * 45] else b)
    decreases |b|
  {
    hide Line, Decode, Read, SpellsMarker;
    if b == [] {
      DecodeNothing();
      assert LastPart(b) == [] && b[..0] == [];
    } else {
      var n := FirstLine(b);
      var c, rest := b[..n], b[n..];
      DecodeEncoded(rest);
      assert Encoded(b) == Line(c) + "\n" + Encoded(rest);
      hide Encoded, LastPart;
      DecodeLineOf(c, Encoded(rest));
      PartsStep(b);
      if n == 45 {
        Unmarked(c);
        assert b == c + rest;
      } else {
        assert b == c && rest == [];
        DecodeNothing();
        assert b + [] == b;
      }
    }
  }

  lemma DecodeNothing()
    ensures Encoded([]) == "" && Decode("") == Ok([])
  {
  }

  lemma DecodeLineOf(c: seq<byte>, rest: string)
    requires 0 < |c| <= 45
    ensures Decode(Line(c) + "\n" + rest) == if SpellsMarker(c) then Decode(rest) else After(c, Decode(rest))
  {
    ReadLine(c);
    hide Line, Decode, Read, SpellsMarker;
    DecodeFirst(Line(c), rest);
  }

  lemma Unmarked(c: seq<byte>)
    requires |c| == 45 || |c| == 0
    ensures !SpellsMarker(c)
  {
  }

  lemma PartsStep(b: seq<byte>)
    ensures |b| >= 45 ==> LastPart(b) == LastPart(b[45..])
    ensures |b| >= 45 ==> b[..|b| / 45 * 45] == b[..45] + b[45..][..|b[45..]| / 45 * 45]
    ensures |b| < 45 ==> LastPart(b) == b && b[..|b| / 45 * 45] == []
  {
    if |b| >= 45 {
      var k := |b| / 45;
      assert |b[45..]| / 45 == k - 1;
    } else {
      assert |b| / 45 == 0;
    }
  }

  lemma DecodeFirst(line: string, rest: string)
    requires line != "" && forall i :: 0 <= i < |line| ==> !Break(line[i])
    ensures Decode(line + "\n" + rest) == match Read(line)
                                          case Marker => Decode(rest)
                                          case Bad => Error
                                          case End => Ok([])
                                          case Data(b) => After(b, Decode(rest))
  {
    var s := line + "\n" + rest;
    LineEndAt(s, |line|);
    assert s[..|line|] == line && s[|line|..][1..] == rest && s[|line|..][0] == '\n';
    assert Decode(s[|line|..]) == Decode(rest);
  }

  lemma {:induction false} LineEndAt(s: string, n: nat)
    requires n < |s| && Break(s[n]) && forall i :: 0 <= i < n ==> !Break(s[i])
    ensures LineEnd(s) == n
  {
    if n > 0 { LineEndAt(s[1..], n - 1); }
  }

  /** The round trip holds if and only if the last line spells no marker. */
  method UURoundTrip(b: seq<byte>) returns (r: Decoded)
    ensures r == Ok(b) <==> !SpellsMarker(LastPart(b))
    ensures r == Ok(if SpellsMarker(LastPart(b)) then b[..|b| / 45 * 45] else b)
  {
    var s := EncodeUU(b);
    r := DecodeUU(s);
    DecodeEncoded(b);
    assert SpellsMarker(LastPart(b)) ==> |b[..|b| / 45 * 45]| < |b|;
  }
}
