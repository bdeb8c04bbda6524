/** The text codecs for binary data: hexadecimal, both Base64 alphabets and UU. */
module Codecs {

  import opened Bytes
  import opened Powers

  datatype Decoded = Ok(bytes: seq<byte>) | Error

  // ---------------------------------------------------------------------- hex

  const HEX_DIGITS: string := "0123456789ABCDEF"

  function HexVal(c: char): (v: int)
    ensures -1 <= v < 16
  {
    if '0' <= c <= '9' then c as int - '0' as int
    else if 'a' <= c <= 'f' then c as int - 'a' as int + 10
    else if 'A' <= c <= 'F' then c as int - 'A' as int + 10
    else -1
  }

  predicate Space(c: char)
  {
    c == ' ' || c == '\t' || c == '\r' || c == '\n'
  }

  /** Digits count from 0, letters of either case from 10; blanks, tabs and line ends are skipped. */
  lemma HexValues(c: char)
    ensures var v := HexVal(c);
            && ('0' <= c <= '9' <==> 0 <= v < 10) && ('A' <= c <= 'F' || 'a' <= c <= 'f' <==> 10 <= v < 16)
            && (0 <= v < 10 ==> c as int == '0' as int + v)
            && (10 <= v ==> c as int == 'A' as int + v - 10 || c as int == 'a' as int + v - 10)
    ensures Space(c) <==> c as int in {9, 10, 13, 32}
  {
  }

  /** The digits' values, white space left out; -1 for what is no digit. */
  function HexVals(s: string): seq<int>
  {
    if s == "" then []
    else HexVals(s[..|s| - 1]) + if Space(s[|s| - 1]) then [] else [HexVal(s[|s| - 1])]
  }

  function Nibbles(b: seq<byte>): (r: seq<int>)
    ensures |r| == 2 * |b|
  {
    if b == [] then [] else Nibbles(b[..|b| - 1]) + [b[|b| - 1] / 16, b[|b| - 1] % 16]
  }

  lemma {:induction false} NibblesOnce(b: seq<byte>, b': seq<byte>)
    requires Nibbles(b) == Nibbles(b')
    ensures b == b'
  {
    if b != [] {
      var n, m := |b| - 1, |b| * 2;
      assert |b'| == |b|;
      assert Nibbles(b)[..m - 2] == Nibbles(b[..n]) && Nibbles(b')[..m - 2] == Nibbles(b'[..n]);
      NibblesOnce(b[..n], b'[..n]);
      assert Nibbles(b)[m - 2] == b[n] / 16 && Nibbles(b)[m - 1] == b[n] % 16;
      assert Nibbles(b')[m - 2] == b'[n] / 16 && Nibbles(b')[m - 1] == b'[n] % 16;
      assert b == b[..n] + [b[n]] && b' == b'[..n] + [b'[n]];
    }
  }

  /** The text reads as these bytes' hexadecimal digits. */
  ghost predicate HexReads(s: string, b: seq<byte>)
  {
    HexVals(s) == Nibbles(b)
  }

  method EncodeHex(b: seq<byte>) returns (s: string)
    ensures HexReads(s, b) && |s| == 2 * |b|
    ensures forall i :: 0 <= i < |b| ==>
              s[2 * i] == "0123456789ABCDEF"[b[i] / 16] && s[2 * i + 1] == "0123456789ABCDEF"[b[i] % 16]
  {
    hide HexReads;
    NoHex();
    s := "";
    for i := 0 to |b|
      invariant HexReads(s, b[..i]) && |s| == 2 * i
      invariant forall j :: 0 <= j < i ==> s[2 * j] == HEX_DIGITS[b[j] / 16] && s[2 * j + 1] == HEX_DIGITS[b[j] % 16]
    {
      HexMore(s, b, i);
      s := s + [HEX_DIGITS[b[i] / 16]];
      s := s + [HEX_DIGITS[b[i] % 16]];
    }
    assert b[..|b|] == b;
  }

  lemma HexMore(s: string, b: seq<byte>, i: nat)
    requires i < |b| && HexReads(s, b[..i])
    ensures HexReads(s + [HEX_DIGITS[b[i] / 16]] + [HEX_DIGITS[b[i] % 16]], b[..i + 1])
  {
    var one := s + [HEX_DIGITS[b[i] / 16]];
    var two := one + [HEX_DIGITS[b[i] % 16]];
    assert b[..i + 1][..i] == b[..i];
    assert two[..|two| - 1] == one && one[..|s|] == s;
    HexDigitVal(b[i] / 16);
    HexDigitVal(b[i] % 16);
  }

  lemma NoHex()
    ensures HexReads("", [])
  {
  }

  lemma HexDigitVal(v: int)
    requires 0 <= v < 16
    ensures HexVal(HEX_DIGITS[v]) == v && !Space(HEX_DIGITS[v])
  {
  }

  lemma {:induction false} NibblesSmall(b: seq<byte>)
    ensures forall i :: 0 <= i < |Nibbles(b)| ==> 0 <= Nibbles(b)[i] < 16
  {
    if b != [] { NibblesSmall(b[..|b| - 1]); }
  }

  lemma {:induction false} HexValsPrefix(s: string, i: nat)
    requires i <= |s|
    ensures HexVals(s[..i]) <= HexVals(s)
    decreases |s| - i
  {
    if i < |s| {
      HexValsPrefix(s, i + 1);
      assert s[..i + 1][..i] == s[..i];
    } else {
      assert s[..i] == s;
    }
  }

  /** Decoding gives the bytes the text reads as, and fails if and only if there are none. */
  method DecodeHex(s: string) returns (r: Decoded)
    ensures r.Ok? ==> HexReads(s, r.bytes)
    ensures r.Error? ==> forall b :: !HexReads(s, b)
  {
    hide Space, HexVal, HexReads;
    var out: seq<byte>, hi := [], -1;
    for i := 0 to |s|
      invariant -1 <= hi < 16
      invariant HexVals(s[..i]) == Nibbles(out) + if hi < 0 then [] else [hi]
    {
      var c := s[i];
      assert s[..i + 1][..i] == s[..i];
      if Space(c) { continue; }
      var v := HexVal(c);
      if v < 0 {
        NoDigit(s, i);
        return Error;
      }
      if hi < 0 {
        hi := v;
      } else {
        assert (out + [hi * 16 + v])[..|out|] == out;
        out, hi := out + [hi * 16 + v], -1;
      }
    }
    assert s[..|s|] == s;
    if hi >= 0 {
      OddDigits(s, out, hi);
      return Error;
    }
    HexRead(s, out);
    r := Ok(out);
  }

  lemma HexRead(s: string, out: seq<byte>)
    requires HexVals(s) == Nibbles(out) + []
    ensures HexReads(s, out)
  {
  }

  lemma NoDigit(s: string, i: nat)
    requires i < |s| && !Space(s[i]) && HexVal(s[i]) < 0
    ensures forall b :: !HexReads(s, b)
  {
    HexValsPrefix(s, i + 1);
    var vals := HexVals(s[..i + 1]);
    assert s[..i + 1][..i] == s[..i];
    assert vals[|vals| - 1] == -1 && HexVals(s)[|vals| - 1] == -1;
    hide HexVals, HexVal, Space;
    forall b ensures !HexReads(s, b) { NibblesSmall(b); }
  }

  lemma OddDigits(s: string, out: seq<byte>, hi: int)
    requires HexVals(s) == Nibbles(out) + [hi]
    ensures forall b :: !HexReads(s, b)
  {
  }

  method HexRoundTrip(b: seq<byte>) returns (r: Decoded)
    ensures r == Ok(b)
  {
    var s := EncodeHex(b);
    r := DecodeHex(s);
    if r.Ok? { NibblesOnce(b, r.bytes); }
  }

  // ----------------------------------------------------------- groups of six bits

  type sextet = x: int | 0 <= x < 64

  /** `x / d`, `x % d` and `h * d + l` by counting, which keeps the arithmetic out of proofs
      about lists of groups. */
  function Quot(x: nat, d: nat): nat
    requires d > 0
  {
    if x < d then 0 else 1 + Quot(x - d, d)
  }

  function Rest(x: nat, d: nat): nat
    requires d > 0
  {
    if x < d then x else Rest(x - d, d)
  }

  function Join(h: nat, d: nat, l: nat): nat
  {
    if h == 0 then l else d + Join(h - 1, d, l)
  }

  lemma {:induction false} QuotRest(x: nat, d: nat)
    requires d > 0
    ensures Quot(x, d) == x / d && Rest(x, d) == x % d
    decreases x
  {
    if x < d {
      DivMod(d, 0, x, x);
    } else {
      QuotRest(x - d, d);
      DivMod(d, 1 + (x - d) / d, (x - d) % d, x);
    }
  }

  lemma {:induction false} JoinIs(h: nat, d: nat, l: nat)
    ensures Join(h, d, l) == h * d + l
  {
    if h > 0 { JoinIs(h - 1, d, l); }
  }

  lemma Splits(x: byte, d: nat)
    requires d == 4 || d == 16 || d == 64
    ensures Quot(x, d) == x / d && Rest(x, d) == x % d
    ensures Quot(x, d) * d <= x && Quot(x, d) < 256 / d && Rest(x, d) < d
  {
    QuotRest(x, d);
  }

  function S0(x: byte): sextet
  {
    Splits(x, 4);
    Quot(x, 4)
  }

  function S1(x: byte, y: byte): sextet
  {
    Splits(x, 4);
    Splits(y, 16);
    JoinIs(Rest(x, 4), 16, Quot(y, 16));
    Join(Rest(x, 4), 16, Quot(y, 16))
  }

  function S2(y: byte, z: byte): sextet
  {
    Splits(y, 16);
    Splits(z, 64);
    JoinIs(Rest(y, 16), 4, Quot(z, 64));
    Join(Rest(y, 16), 4, Quot(z, 64))
  }

  function S3(z: byte): sextet
  {
    Splits(z, 64);
    Rest(z, 64)
  }

  function B0(p: sextet, q: sextet): byte
  {
    Splits(q, 16);
    JoinIs(p, 4, Quot(q, 16));
    Join(p, 4, Quot(q, 16))
  }

  function B1(q: sextet, r: sextet): byte
  {
    Splits(q, 16);
    Splits(r, 4);
    JoinIs(Rest(q, 16), 16, Quot(r, 4));
    Join(Rest(q, 16), 16, Quot(r, 4))
  }

  function B2(r: sextet, s: sextet): byte
  {
    Splits(r, 4);
    JoinIs(Rest(r, 4), 64, s);
    Join(Rest(r, 4), 64, s)
  }

  /** The groups' digits as they are written, and the bytes as they are read. */
  lemma GroupDigits(x: byte, y: byte, z: byte)
    ensures S0(x) == x / 4 && S1(x, y) == x % 4 * 16 + y / 16 && S2(y, z) == y % 16 * 4 + z / 64 && S3(z) == z % 64
  {
    Splits(x, 4);
    Splits(y, 16);
    Splits(z, 64);
    JoinIs(Rest(x, 4), 16, Quot(y, 16));
    JoinIs(Rest(y, 16), 4, Quot(z, 64));
  }

  lemma GroupNumbers(p: sextet, q: sextet, r: sextet, s: sextet)
    ensures B0(p, q) == p * 4 + q / 16 && B1(q, r) == q % 16 * 16 + r / 4 && B2(r, s) == r % 4 * 64 + s
  {
    Splits(q, 16);
    Splits(r, 4);
    JoinIs(p, 4, Quot(q, 16));
    JoinIs(Rest(q, 16), 16, Quot(r, 4));
    JoinIs(Rest(r, 4), 64, s);
  }

  lemma GroupBytes(x: byte, y: byte, z: byte)
    ensures B0(S0(x), S1(x, y)) == x && B1(S1(x, y), S2(y, z)) == y && B2(S2(y, z), S3(z)) == z
  {
    hide S0, S1, S2, S3, B0, B1, B2;
    GroupDigits(x, y, z);
    GroupNumbers(S0(x), S1(x, y), S2(y, z), S3(z));
  }

  function Group(x: byte, y: byte, z: byte): (g: seq<sextet>)
    ensures |g| == 4
  {
    [S0(x), S1(x, y), S2(y, z), S3(z)]
  }

  function Ungroup(g: seq<sextet>): (b: seq<byte>)
    requires |g| == 4
    ensures |b| == 3
  {
    [B0(g[0], g[1]), B1(g[1], g[2]), B2(g[2], g[3])]
  }

  /** The bytes in six-bit groups, a last partial group filled with zero bits. */
  function Sextets(b: seq<byte>): seq<sextet>
  {
    if |b| >= 3 then Group(b[0], b[1], b[2]) + Sextets(b[3..])
    else if |b| == 2 then Group(b[0], b[1], 0)[..3]
    else if |b| == 1 then Group(b[0], 0, 0)[..2]
    else []
  }

  /** The whole bytes in a list of six-bit groups. */
  function Packed(v: seq<sextet>): seq<byte>
  {
    if |v| >= 4 then Ungroup(v[..4]) + Packed(v[4..])
    else if |v| == 3 then Ungroup(v + [0])[..2]
    else if |v| == 2 then Ungroup(v + [0, 0])[..1]
    else []
  }

  lemma NothingPacked()
    ensures Packed([]) == []
  {
  }

  lemma UngroupGroup(x: byte, y: byte, z: byte)
    ensures Ungroup(Group(x, y, z)) == [x, y, z]
    ensures Ungroup(Group(x, y, 0)[..3] + [0])[..2] == [x, y]
    ensures Ungroup(Group(x, 0, 0)[..2] + [0, 0])[..1] == [x]
  {
    hide S0, S1, S2, S3, B0, B1, B2;
    GroupBytes(x, y, z);
    GroupBytes(x, y, 0);
    GroupBytes(x, 0, 0);
    assert Group(x, y, 0)[..3] + [0] == [S0(x), S1(x, y), S2(y, 0), 0];
    assert Group(x, 0, 0)[..2] + [0, 0] == [S0(x), S1(x, 0), 0, 0];
  }

  lemma {:induction false} PackedSextets(b: seq<byte>)
    ensures Packed(Sextets(b)) == b
  {
    hide Group, Ungroup;
    if |b| >= 3 {
      PackedSextets(b[3..]);
      UngroupGroup(b[0], b[1], b[2]);
      assert Sextets(b)[..4] == Group(b[0], b[1], b[2]) && Sextets(b)[4..] == Sextets(b[3..]);
      assert b == [b[0], b[1], b[2]] + b[3..];
    } else if |b| == 2 {
      UngroupGroup(b[0], b[1], 0);
    } else if |b| == 1 {
      UngroupGroup(b[0], 0, 0);
    }
  }

  /** The groups of six bits of every three bytes, the highest bits first; what is missing of
      the last three counts as zero. */
  lemma SextetsAt(b: seq<byte>, j: nat)
    requires 3 * j < |b|
    ensures var v := Sextets(b);
            var x, y, z := b[3 * j], if 3 * j + 1 < |b| then b[3 * j + 1] else 0, if 3 * j + 2 < |b| then b[3 * j + 2] else 0;
            && 4 * j + 1 < |v| && (4 * j + 2 < |v| <==> 3 * j + 1 < |b|) && (4 * j + 3 < |v| <==> 3 * j + 2 < |b|)
            && v[4 * j] == x / 4 && v[4 * j + 1] == x % 4 * 16 + y / 16
            && (4 * j + 2 < |v| ==> v[4 * j + 2] == y % 16 * 4 + z / 64) && (4 * j + 3 < |v| ==> v[4 * j + 3] == z % 64)
  {
    hide Sextets, S0, S1, S2, S3;
    var y, z := if 3 * j + 1 < |b| then b[3 * j + 1] else 0, if 3 * j + 2 < |b| then b[3 * j + 2] else 0;
    SextetsOf(b, j, y, z);
    GroupDigits(b[3 * j], y, z);
  }

  lemma {:induction false} SextetsOf(b: seq<byte>, j: nat, y: byte, z: byte)
    requires 3 * j < |b| && (y == if 3 * j + 1 < |b| then b[3 * j + 1] else 0) && (z == if 3 * j + 2 < |b| then b[3 * j + 2] else 0)
    ensures var v, x := Sextets(b), b[3 * j];
            && 4 * j + 1 < |v| && (4 * j + 2 < |v| <==> 3 * j + 1 < |b|) && (4 * j + 3 < |v| <==> 3 * j + 2 < |b|)
            && v[4 * j] == S0(x) && v[4 * j + 1] == S1(x, y)
            && (4 * j + 2 < |v| ==> v[4 * j + 2] == S2(y, z)) && (4 * j + 3 < |v| ==> v[4 * j + 3] == S3(z))
    decreases j
  {
    hide Sextets, S0, S1, S2, S3;
    if j > 0 {
      SextetsOf(b[3..], j - 1, y, z);
      SextetsNext(b);
    } else {
      SextetsFirst(b, y, z);
    }
  }

  lemma SextetsNext(b: seq<byte>)
    requires |b| >= 3
    ensures |Sextets(b)| >= 4 && Sextets(b)[4..] == Sextets(b[3..])
  {
    hide Group;
  }

  lemma SextetsFirst(b: seq<byte>, y: byte, z: byte)
    requires b != [] && (|b| > 1 ==> y == b[1]) && (|b| > 2 ==> z == b[2]) && (|b| == 1 ==> y == 0) && (|b| <= 2 ==> z == 0)
    ensures var v := Sextets(b);
            && |v| >= 2 && (2 < |v| <==> 1 < |b|) && (3 < |v| <==> 2 < |b|) && v[0] == S0(b[0]) && v[1] == S1(b[0], y)
            && (2 < |v| ==> v[2] == S2(y, z)) && (3 < |v| ==> v[3] == S3(z))
  {
    hide S0, S1, S2, S3;
    if |b| >= 3 { assert Sextets(b)[..4] == Group(b[0], y, z); }
  }

  lemma {:induction false} SextetsAppend(b: seq<byte>, c: seq<byte>)
    requires |b| % 3 == 0
    ensures Sextets(b + c) == Sextets(b) + Sextets(c)
  {
    hide Group;
    if b == [] {
      assert b + c == c;
    } else {
      SextetsAppend(b[3..], c);
      assert (b + c)[3..] == b[3..] + c;
    }
  }

  lemma {:induction false} PackedAppend(v: seq<sextet>, w: seq<sextet>)
    requires |v| % 4 == 0
    ensures Packed(v + w) == Packed(v) + Packed(w)
  {
    hide Ungroup;
    if v == [] {
      assert v + w == w;
    } else {
      assert (v + w)[4..] == v[4..] + w && (v + w)[..4] == v[..4];
      PackedAppend(v[4..], w);
    }
  }

  // ------------------------------------------------------------------- Base64

  const UPPER_CASE: string := "ABCDEFGHIJKLMNOPQRSTUVWXYZ"
  const LOWER_CASE: string := "abcdefghijklmnopqrstuvwxyz"
  const DIGITS: string := "0123456789"

  function Alphabet(urlSafe: bool): (a: string)
    ensures |a| == 64
  {
    UPPER_CASE + LOWER_CASE + DIGITS + if urlSafe then "-_" else "+/"
  }

  function Base64Val(c: char, urlSafe: bool): (v: int)
    ensures -1 <= v < 64
  {
    if 'A' <= c <= 'Z' then c as int - 'A' as int
    else if 'a' <= c <= 'z' then c as int - 'a' as int + 26
    else if '0' <= c <= '9' then c as int - '0' as int + 52
    else if c == '+' then 62
    else if c == '/' then 63
    else if urlSafe && c == '-' then 62
    else if urlSafe && c == '_' then 63
    else -1
  }

  lemma LetterAt(v: int)
    requires 0 <= v < 26
    ensures UPPER_CASE[v] as int == 'A' as int + v && LOWER_CASE[v] as int == 'a' as int + v
  {
  }

  lemma DigitAt(v: int)
    requires 0 <= v < 10
    ensures DIGITS[v] as int == '0' as int + v
  {
  }

  /** The two alphabets of the standard, which differ in the digits 62 and 63. */
  lemma AlphabetAt(v: sextet, urlSafe: bool)
    ensures var c := Alphabet(urlSafe)[v] as int;
            && (v < 26 ==> c == 'A' as int + v) && (26 <= v < 52 ==> c == 'a' as int + v - 26)
            && (52 <= v < 62 ==> c == '0' as int + v - 52)
            && (v == 62 ==> c == (if urlSafe then '-' as int else '+' as int))
            && (v == 63 ==> c == (if urlSafe then '_' as int else '/' as int))
  {
    var last := if urlSafe then "-_" else "+/";
    assert Alphabet(urlSafe)[v] == if v < 26 then UPPER_CASE[v] else if v < 52 then LOWER_CASE[v - 26] else
      if v < 62 then DIGITS[v - 52] else last[v - 62];
    hide Alphabet;
    if v < 26 { LetterAt(v); } else if v < 52 { LetterAt(v - 26); } else if v < 62 { DigitAt(v - 52); }
  }

  lemma AlphabetVal(v: sextet, urlSafe: bool)
    ensures Base64Val(Alphabet(urlSafe)[v], urlSafe) == v && Alphabet(urlSafe)[v] != '='
  {
    AlphabetAt(v, urlSafe);
    hide Alphabet;
  }

  /** The decoder of the second alphabet takes the digits of both. */
  lemma DigitValues(c: char, urlSafe: bool)
    ensures var v := Base64Val(c, urlSafe);
            && (v == 62 <==> c == '+' || (urlSafe && c == '-')) && (v == 63 <==> c == '/' || (urlSafe && c == '_'))
            && (0 <= v < 62 <==> 'A' <= c <= 'Z' || 'a' <= c <= 'z' || '0' <= c <= '9')
            && (0 <= v < 62 ==> Alphabet(urlSafe)[v] == c)
  {
    var v := Base64Val(c, urlSafe);
    if 0 <= v < 62 {
      AlphabetAt(v, urlSafe);
      hide Alphabet;
    }
  }

  /** All characters are digits of the alphabet. */
  predicate AllDigits(s: string, urlSafe: bool)
  {
    forall i :: 0 <= i < |s| ==> Base64Val(s[i], urlSafe) >= 0
  }

  function Base64Vals(s: string, urlSafe: bool): (v: seq<sextet>)
    requires AllDigits(s, urlSafe)
    ensures |v| == |s|
  {
    seq(|s|, i requires 0 <= i < |s| => Base64Val(s[i], urlSafe))
  }

  /** The text before its padding. */
  function Body(s: string): (r: string)
    ensures r <= s && '=' !in r && (|r| < |s| ==> s[|r|] == '=')
  {
    if s == "" || s[0] == '=' then "" else [s[0]] + Body(s[1..])
  }

  /** Digits, none of them left over, and then at most two padding characters; the padding
      need not be there. */
  ghost predicate WellFormed(s: string, urlSafe: bool)
  {
    var body := Body(s);
    && AllDigits(body, urlSafe) && |body| % 4 != 1
    && |s| - |body| <= 2 && forall i :: |body| <= i < |s| ==> s[i] == '='
  }

  ghost predicate DigitsThenPadding(s: string, urlSafe: bool)
  {
    exists n :: 0 <= n <= |s| <= n + 2 && n % 4 != 1 && (forall i :: 0 <= i < n ==> Base64Val(s[i], urlSafe) >= 0)
      && forall i :: n <= i < |s| ==> s[i] == '='
  }

  lemma WellFormedIff(s: string, urlSafe: bool)
    ensures WellFormed(s, urlSafe) <==> DigitsThenPadding(s, urlSafe)
  {
    PadIsNoDigit(urlSafe);
    hide Base64Val;
    if n :| 0 <= n <= |s| <= n + 2 && n % 4 != 1 && (forall i :: 0 <= i < n ==> Base64Val(s[i], urlSafe) >= 0)
            && forall i :: n <= i < |s| ==> s[i] == '=' {
      BodyIs(s, n);
    }
    if WellFormed(s, urlSafe) {
      var n := |Body(s)|;
      assert forall i :: 0 <= i < n ==> s[i] == Body(s)[i];
    }
  }

  lemma FirstDigit(s: string, n: nat)
    requires 0 < n <= |s| && '=' !in s[..n]
    ensures s[0] != '=' && '=' !in s[1..][..n - 1] && s[..n] == [s[0]] + s[1..][..n - 1]
  {
    assert s[0] == s[..n][0] && s[1..][..n - 1] == s[..n][1..];
  }

  lemma {:induction false} BodyIs(s: string, n: nat)
    requires n <= |s| && '=' !in s[..n] && (n < |s| ==> s[n] == '=')
    ensures Body(s) == s[..n]
  {
    if n > 0 {
      FirstDigit(s, n);
      BodyIs(s[1..], n - 1);
    }
  }

  lemma {:induction false} BodyBegins(s: string, n: nat)
    requires n <= |s| && '=' !in s[..n]
    ensures |Body(s)| >= n && Body(s)[..n] == s[..n]
  {
    if n > 0 {
      FirstDigit(s, n);
      BodyBegins(s[1..], n - 1);
    }
  }

  /** The text stands for these bytes. */
  ghost predicate Base64Reads(s: string, b: seq<byte>, urlSafe: bool)
  {
    WellFormed(s, urlSafe) && b == Packed(Base64Vals(Body(s), urlSafe))
  }

  /** Up to four digits from `start` on; on failure `bad` is the character at fault. */
  method DecodeGroup(s: string, start: nat, urlSafe: bool) returns (ok: bool, more: seq<byte>, i: nat, ghost bad: nat)
    requires start < |s| && s[start] != '='
    ensures ok ==> start + 2 <= i <= |s| && i <= start + 4 && '=' !in s[start..i] && AllDigits(s[start..i], urlSafe)
    ensures ok ==> more == Packed(Base64Vals(s[start..i], urlSafe)) && (i < start + 4 ==> i == |s| || s[i] == '=')
    ensures !ok ==> start <= bad <= |s| && forall k :: start <= k < bad ==> s[k] != '='
    ensures !ok ==> if bad < |s| && s[bad] != '=' then Base64Val(s[bad], urlSafe) < 0 else bad == start + 1
  {
    hide B0, B1, B2, Packed, Base64Vals, AllDigits, Base64Val;
    PadIsNoDigit(urlSafe);
    ok, more, i, bad := true, [], start, start;
    var c0 := Base64Val(s[i], urlSafe);
    if c0 < 0 { return false, [], i, i; }
    if i + 1 >= |s| { return false, [], i, i + 1; }
    var c1 := Base64Val(s[i + 1], urlSafe);
    if c1 < 0 { return false, [], i, i + 1; }
    more := [B0(c0, c1)];
    i := i + 2;
    if i < |s| && s[i] != '=' {
      var c2 := Base64Val(s[i], urlSafe);
      if c2 < 0 { return false, [], i, i; }
      more := more + [B1(c1, c2)];
      i := i + 1;
      if i < |s| && s[i] != '=' {
        var c3 := Base64Val(s[i], urlSafe);
        if c3 < 0 { return false, [], i, i; }
        more := more + [B2(c2, c3)];
        i := i + 1;
      }
    }
    DigitsBetween(s, start, i, urlSafe);
    GroupPacked(s[start..i], urlSafe);
  }

  lemma PadIsNoDigit(urlSafe: bool)
    ensures Base64Val('=', urlSafe) < 0
  {
  }

  lemma DigitsBetween(s: string, i: nat, j: nat, urlSafe: bool)
    requires i <= j <= |s| && forall k :: i <= k < j ==> s[k] != '=' && Base64Val(s[k], urlSafe) >= 0
    ensures '=' !in s[i..j] && AllDigits(s[i..j], urlSafe)
  {
  }

  lemma GroupPacked(t: string, urlSafe: bool)
    requires 2 <= |t| <= 4 && AllDigits(t, urlSafe)
    ensures var c0, c1 := Base64Val(t[0], urlSafe), Base64Val(t[1], urlSafe);
            Packed(Base64Vals(t, urlSafe)) ==
              [B0(c0, c1)]
              + (if |t| < 3 then [] else [B1(c1, Base64Val(t[2], urlSafe))])
              + (if |t| < 4 then [] else [B2(Base64Val(t[2], urlSafe), Base64Val(t[3], urlSafe))])
  {
    hide B0, B1, B2, Base64Val;
    var v := Base64Vals(t, urlSafe);
    if |t| == 4 {
      assert v[..4] == v && Packed(v[4..]) == [];
    } else if |t| == 3 {
      assert v + [0] == [v[0], v[1], v[2], 0];
    } else {
      assert v + [0, 0] == [v[0], v[1], 0, 0];
    }
  }

  method OnlyPadding(s: string, i: nat) returns (ok: bool)
    requires i < |s| && s[i] == '='
    ensures ok <==> |s| - i <= 2 && forall k :: i <= k < |s| ==> s[k] == '='
  {
    for j := i + 1 to |s|
      invariant forall k :: i <= k < j ==> s[k] == '='
    {
      if s[j] != '=' { return false; }
    }
    ok := |s| - i <= 2;
  }

  lemma Base64ValsAppend(s: string, i: nat, j: nat, urlSafe: bool)
    requires i <= j <= |s| && i % 4 == 0 && AllDigits(s[..i], urlSafe) && AllDigits(s[i..j], urlSafe)
    requires '=' !in s[..i] && '=' !in s[i..j]
    ensures AllDigits(s[..j], urlSafe) && '=' !in s[..j]
    ensures Packed(Base64Vals(s[..j], urlSafe)) == Packed(Base64Vals(s[..i], urlSafe)) + Packed(Base64Vals(s[i..j], urlSafe))
  {
    assert s[..j] == s[..i] + s[i..j];
    assert Base64Vals(s[..j], urlSafe) == Base64Vals(s[..i], urlSafe) + Base64Vals(s[i..j], urlSafe);
    PackedAppend(Base64Vals(s[..i], urlSafe), Base64Vals(s[i..j], urlSafe));
  }

  lemma BadGroup(s: string, start: nat, bad: nat, urlSafe: bool)
    requires start <= bad <= |s| && start % 4 == 0 && '=' !in s[..start] && forall k :: start <= k < bad ==> s[k] != '='
    requires if bad < |s| && s[bad] != '=' then Base64Val(s[bad], urlSafe) < 0 else bad == start + 1
    ensures !WellFormed(s, urlSafe)
  {
    assert s[..bad] == s[..start] + s[start..bad];
    if bad < |s| && s[bad] != '=' {
      assert s[..bad + 1] == s[..bad] + [s[bad]];
      BodyBegins(s, bad + 1);
      assert Body(s)[bad] == s[bad];
    } else {
      BodyIs(s, bad);
    }
  }

  /** Decoding gives the bytes the text stands for, and fails if and only if it is not well
      formed. */
  method DecodeBase64(s: string, urlSafe: bool) returns (r: Decoded)
    ensures r.Ok? ==> Base64Reads(s, r.bytes, urlSafe)
    ensures r.Error? ==> !WellFormed(s, urlSafe)
    ensures r.Ok? <==> DigitsThenPadding(s, urlSafe)
  {
    WellFormedIff(s, urlSafe);
    hide Packed, Base64Val, DigitsThenPadding;
    var out: seq<byte>, i := [], 0;
    NothingPacked();
    assert Base64Vals(s[..0], urlSafe) == [];
    hide Base64Vals;
    while i < |s|
      invariant 0 <= i <= |s| && '=' !in s[..i] && AllDigits(s[..i], urlSafe)
      invariant i % 4 == 0 || (i % 4 != 1 && (i == |s| || s[i] == '='))
      invariant out == Packed(Base64Vals(s[..i], urlSafe))
      decreases |s| - i
    {
      if s[i] == '=' {
        BodyIs(s, i);
        var ok := OnlyPadding(s, i);
        return if ok then Ok(out) else Error;
      }
      var ok, more, next;
      ghost var bad;
      ok, more, next, bad := DecodeGroup(s, i, urlSafe);
      if !ok {
        BadGroup(s, i, bad, urlSafe);
        return Error;
      }
      Base64ValsAppend(s, i, next, urlSafe);
      out, i := out + more, next;
    }
    BodyIs(s, |s|);
    r := Ok(out);
  }

  /** Unpadded text whose digits have these values. */
  ghost predicate Spells(s: string, v: seq<sextet>, urlSafe: bool)
  {
    '=' !in s && AllDigits(s, urlSafe) && Base64Vals(s, urlSafe) == v
  }

  lemma SpellsMore(s: string, v: seq<sextet>, x: sextet, urlSafe: bool)
    requires Spells(s, v, urlSafe)
    ensures Spells(s + [Alphabet(urlSafe)[x]], v + [x], urlSafe)
  {
    AlphabetVal(x, urlSafe);
    hide Alphabet, Base64Val;
  }

  method AppendDigit(s: string, ghost v: seq<sextet>, x: sextet, urlSafe: bool) returns (s': string)
    requires Spells(s, v, urlSafe)
    ensures Spells(s', v + [x], urlSafe) && |s'| == |s| + 1
  {
    SpellsMore(s, v, x, urlSafe);
    s' := s + [Alphabet(urlSafe)[x]];
  }

  method AppendBytes(s: string, ghost v: seq<sextet>, x: byte, y: byte, z: byte, urlSafe: bool) returns (s': string)
    requires Spells(s, v, urlSafe)
    ensures Spells(s', v + [S0(x)] + [S1(x, y)] + [S2(y, z)] + [S3(z)], urlSafe) && |s'| == |s| + 4
  {
    hide Spells, S0, S1, S2, S3;
    s' := AppendDigit(s, v, S0(x), urlSafe);
    s' := AppendDigit(s', v + [S0(x)], S1(x, y), urlSafe);
    s' := AppendDigit(s', v + [S0(x)] + [S1(x, y)], S2(y, z), urlSafe);
    s' := AppendDigit(s', v + [S0(x)] + [S1(x, y)] + [S2(y, z)], S3(z), urlSafe);
  }

  lemma SpelledReads(s: string, pad: string, b: seq<byte>, urlSafe: bool)
    requires Spells(s, Sextets(b), urlSafe) && (pad == "" || pad == "=" || pad == "==")
    ensures Base64Reads(s + pad, b, urlSafe)
  {
    SextetsLength(b);
    PackedSextets(b);
    hide Sextets, Packed;
    SpelledBody(s, pad, Sextets(b), urlSafe);
    hide Spells, AllDigits, Base64Val;
    var t := s + pad;
    forall i | |s| <= i < |t| ensures t[i] == '=' { assert t[i] == pad[i - |s|]; }
  }

  lemma {:induction false} SextetsLength(b: seq<byte>)
    ensures |Sextets(b)| % 4 != 1
  {
    hide Group;
    if |b| >= 3 { SextetsLength(b[3..]); }
  }

  /** The text stands for the bytes; padded to whole groups or, in the second alphabet, not
      padded at all. */
  method EncodeBase64(b: seq<byte>, urlSafe: bool) returns (s: string)
    ensures Base64Reads(s, b, urlSafe) && Base64Vals(Body(s), urlSafe) == Sextets(b)
    ensures if urlSafe then '=' !in s else |s| % 4 == 0
  {
    hide Spells, Sextets, Group, Packed, Base64Val, Base64Vals, Base64Reads, Body, AllDigits, Alphabet, S0, S1, S2, S3;
    s := "";
    var i := 0;
    SpellsNothing(urlSafe);
    while i + 2 < |b|
      invariant 0 <= i <= |b| && i % 3 == 0 && |s| % 4 == 0
      invariant Spells(s, Sextets(b[..i]), urlSafe)
    {
      ghost var v := Sextets(b[..i]);
      s := AppendBytes(s, v, b[i], b[i + 1], b[i + 2], urlSafe);
      SextetsThree(b, i);
      i := i + 3;
    }
    var pad;
    s, pad := EncodeRest(b, i, s, urlSafe);
    SpelledReads(s, pad, b, urlSafe);
    SpelledBody(s, pad, Sextets(b), urlSafe);
    s := s + pad;
  }

  /** The last one or two bytes, if there are any left, and the padding they need. */
  method EncodeRest(b: seq<byte>, i: nat, s: string, urlSafe: bool) returns (s': string, pad: string)
    requires i <= |b| <= i + 2 && i % 3 == 0 && |s| % 4 == 0 && Spells(s, Sextets(b[..i]), urlSafe)
    ensures Spells(s', Sextets(b), urlSafe) && pad in {"", "=", "=="}
    ensures if urlSafe then pad == "" else |s' + pad| % 4 == 0
  {
    hide Spells, Sextets, S0, S1, S2, S3;
    ghost var v := Sextets(b[..i]);
    s', pad := s, "";
    if i < |b| {
      var y := if i + 1 < |b| then b[i + 1] else 0;
      s' := AppendDigit(s', v, S0(b[i]), urlSafe);
      s' := AppendDigit(s', v + [S0(b[i])], S1(b[i], y), urlSafe);
      if i + 1 < |b| {
        s' := AppendDigit(s', v + [S0(b[i])] + [S1(b[i], y)], S2(y, 0), urlSafe);
        if !urlSafe { pad := "="; }
      } else if !urlSafe {
        pad := "==";
      }
      SextetsLast(b, i);
    } else {
      assert b[..i] == b;
    }
  }

  lemma SpellsNothing(urlSafe: bool)
    ensures Spells("", [], urlSafe) && Sextets([]) == []
  {
  }

  lemma SpelledBody(s: string, pad: string, v: seq<sextet>, urlSafe: bool)
    requires Spells(s, v, urlSafe) && (pad == "" || pad == "=" || pad == "==")
    ensures Body(s + pad) == s && AllDigits(s, urlSafe) && Base64Vals(s, urlSafe) == v && (pad == "" ==> '=' !in s + pad)
  {
    assert (s + pad)[..|s|] == s;
    BodyIs(s + pad, |s|);
  }

  lemma SextetsThree(b: seq<byte>, i: nat)
    requires i + 2 < |b| && i % 3 == 0
    ensures Sextets(b[..i + 3])
         == Sextets(b[..i]) + [S0(b[i])] + [S1(b[i], b[i + 1])] + [S2(b[i + 1], b[i + 2])] + [S3(b[i + 2])]
  {
    hide S0, S1, S2, S3;
    var c := b[i..i + 3];
    assert b[..i + 3] == b[..i] + c;
    assert Sextets(c) == Group(c[0], c[1], c[2]) + Sextets(c[3..]) && Sextets(c[3..]) == [];
    hide Sextets;
    SextetsAppend(b[..i], c);
  }

  lemma SextetsLast(b: seq<byte>, i: nat)
    requires i < |b| <= i + 2 && i % 3 == 0
    ensures i + 1 < |b| ==> Sextets(b) == Sextets(b[..i]) + [S0(b[i])] + [S1(b[i], b[i + 1])] + [S2(b[i + 1], 0)]
    ensures i + 1 == |b| ==> Sextets(b) == Sextets(b[..i]) + [S0(b[i])] + [S1(b[i], 0)]
  {
    hide Sextets, S0, S1, S2, S3;
    if i + 1 < |b| {
      SextetsTwo(b[i], b[i + 1]);
      SextetsAppend(b[..i], [b[i], b[i + 1]]);
      assert b == b[..i] + [b[i], b[i + 1]];
    } else {
      SextetsOne(b[i]);
      SextetsAppend(b[..i], [b[i]]);
      assert b == b[..i] + [b[i]];
    }
  }

  lemma SextetsTwo(x: byte, y: byte)
    ensures Sextets([x, y]) == [S0(x)] + [S1(x, y)] + [S2(y, 0)]
  {
    hide S0, S1, S2, S3;
  }

  lemma SextetsOne(x: byte)
    ensures Sextets([x]) == [S0(x)] + [S1(x, 0)]
  {
    hide S0, S1, S2, S3;
  }

  method Base64RoundTrip(b: seq<byte>, urlSafe: bool) returns (r: Decoded)
    ensures r == Ok(b)
  {
    hide Packed, Sextets, WellFormed;
    var s := EncodeBase64(b, urlSafe);
    r := DecodeBase64(s, urlSafe);
  }
}
