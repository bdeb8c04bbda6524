/** The GIF coder down to its bytes: the decoder reads the stream with its own code sizes,
    which are not always those it was written with. */
module Gif {
  import opened BitStream
  import opened Common
  import opened Lzw
  import opened Powers

  /** The codes that the decoder reads off a stream when it has read `codes` before. */
  function ReadAll(m: nat, bits: Bits, codes: seq<nat>): seq<nat>
    decreases |bits|
  {
    var size := DecoderSize(m, codes);
    if DecodeAll(m, codes).done || |bits| < size then codes
    else ReadAll(m, bits[size..], codes + [Value(bits[..size])])
  }

  function Decoded(m: nat, bits: Bits): seq<nat>
  {
    DecodeAll(m, ReadAll(m, bits, [])).out
  }

  /** `gifLzwDecode`: stops at end-of-information, at a code it cannot know, or when the data
      runs out. */
  method LzwDecode(m: nat, data: seq<nat>) returns (out: seq<nat>)
    requires Bytes(data)
    ensures out == Decoded(m, ByteBits(data))
  {
    hide DecodeAll, Pow2, FreshTable, CodeSize, DecoderSize, ReadAll, Value, ByteBits;
    out := [];
    var table := FreshTable(m);
    var codeSize := m + 1;
    var prev: seq<nat> := [];
    var first := true;
    var pos, bitbuf, bitcnt := 0, 0, 0;
    ghost var buf: Bits, codes: seq<nat> := [], [];
    NothingRead(m, data);
    SizeGrows(m, |table|);
    while true
      invariant 0 <= pos <= |data| && Value(buf) == bitbuf && |buf| == bitcnt
      invariant DecodeAll(m, codes) == Decoder(table, prev, first, out, false)
      invariant codeSize == CodeSize(m, |table|) == DecoderSize(m, codes)
      invariant ReadAll(m, buf + ByteBits(data[pos..]), codes) == ReadAll(m, ByteBits(data), [])
      decreases |buf + ByteBits(data[pos..])|
    {
      ghost var stream := buf + ByteBits(data[pos..]);
      var code;
      code, pos, bitbuf, bitcnt, buf := GetCode(data, pos, bitbuf, bitcnt, buf, codeSize);
      ReadStep(m, stream, codes);
      if code < 0 { break; }
      ghost var before := codes;
      codes := codes + [code];
      DecodeSnoc(m, before, code);
      if code == ClearCode(m) {
        table, codeSize, first := FreshTable(m), m + 1, true;
        DecoderSizeIs(m, codes);
        continue;
      }
      if code == EoiCode(m) {
        ReadStep(m, stream[CodeSize(m, |table|)..], codes);
        break;
      }
      var entry;
      if code < |table| {
        entry := table[code];
      } else if code == |table| && !first && prev != [] {
        entry := prev + [prev[0]];
      } else {
        ReadStep(m, stream[CodeSize(m, |table|)..], codes);
        break;
      }
      out := out + entry;
      if !first && |table| < TABLE_LIMIT {
        SizeGrows(m, |table|);
        table := table + [prev + [entry[0]]];
        if |table| == Pow2(codeSize) && codeSize < 12 {
          codeSize := codeSize + 1;
        }
      }
      prev := entry;
      first := false;
      DecoderSizeIs(m, codes);
    }
  }

  lemma NothingRead(m: nat, data: seq<nat>)
    ensures Value([]) == 0 && [] + ByteBits(data[0..]) == ByteBits(data)
    ensures DecodeAll(m, []) == Start(m) && DecoderSize(m, []) == CodeSize(m, |FreshTable(m)|)
  {
    assert data[0..] == data;
  }

  lemma ReadStep(m: nat, bits: Bits, codes: seq<nat>)
    ensures var size := DecoderSize(m, codes);
            && size >= 1
            && ReadAll(m, bits, codes) ==
               if DecodeAll(m, codes).done || |bits| < size then codes
               else ReadAll(m, bits[size..], codes + [Value(bits[..size])])
  {
  }

  // ------------------------------------------------------ where the sizes agree

  /** The first `k` codes are read with the sizes they were written with. */
  ghost predicate AgreeUpTo(m: nat, codes: seq<nat>, sizes: seq<nat>, k: nat)
  {
    && k <= |codes| == |sizes|
    && forall i :: 0 <= i < k ==> sizes[i] == DecoderSize(m, codes[..i]) && codes[i] < Pow2(sizes[i]) && !DecodeAll(m, codes[..i]).done
  }

  /** Those codes are read as they were written. */
  lemma {:induction false} ReadAgreed(m: nat, codes: seq<nat>, sizes: seq<nat>, k: nat, bits: Bits)
    requires AgreeUpTo(m, codes, sizes, k) && CodeBits(codes, sizes) <= bits
    ensures |CodeBits(codes[..k], sizes[..k])| <= |bits|
    ensures ReadAll(m, bits, []) == ReadAll(m, bits[|CodeBits(codes[..k], sizes[..k])|..], codes[..k])
    decreases k
  {
    hide ReadAll, DecoderSize, DecodeAll, CodeBits, Digits, Value, Pow2;
    CodesPrefix(codes, sizes, k);
    if k == 0 {
      NoCodes();
      assert codes[..0] == [] && sizes[..0] == [] && bits[0..] == bits;
    } else {
      var i := k - 1;
      ReadAgreed(m, codes, sizes, i, bits);
      var front := |CodeBits(codes[..i], sizes[..i])|;
      CodesStep(codes, sizes, i);
      var rest := bits[front..];
      CodeLies(codes, sizes, i, bits);
      ReadStep(m, rest, codes[..i]);
      ValueDigits(codes[i], sizes[i]);
      assert rest[sizes[i]..] == bits[front + sizes[i]..];
      assert codes[..i] + [codes[i]] == codes[..k];
    }
  }

  lemma NoCodes()
    ensures CodeBits([], []) == []
  {
  }

  /** The digits of a code lie behind those of the codes before it. */
  lemma CodeLies(codes: seq<nat>, sizes: seq<nat>, i: nat, bits: Bits)
    requires |codes| == |sizes| && i < |codes| && CodeBits(codes, sizes) <= bits
    ensures var front := |CodeBits(codes[..i], sizes[..i])|;
            front + sizes[i] <= |bits| && bits[front..front + sizes[i]] == Digits(codes[i], sizes[i])
    ensures var front := |CodeBits(codes[..i], sizes[..i])|; bits[front..][..sizes[i]] == Digits(codes[i], sizes[i])
  {
    hide CodeBits, Digits;
    CodesPrefix(codes, sizes, i + 1);
    CodesStep(codes, sizes, i);
    var front := |CodeBits(codes[..i], sizes[..i])|;
    var whole := CodeBits(codes[..i + 1], sizes[..i + 1]);
    assert |whole| == front + sizes[i] && whole <= bits;
    assert whole[front..] == Digits(codes[i], sizes[i]);
    assert bits[front..front + sizes[i]] == whole[front..];
  }

  // ------------------------------------------------ the decoder, string by string

  /** The decoder after the first `j` strings: its table has an entry for each but the first,
      all longer than a pixel. */
  ghost predicate After(m: nat, d: Decoder, cut: seq<seq<nat>>, j: nat)
    requires j <= |cut|
  {
    && !d.done && d.out == Flatten(cut[..j]) && FreshTable(m) <= d.table
    && (forall c :: Pow2(m) + 2 <= c < |d.table| ==> |d.table[c]| >= 2)
    && if j == 0 then d.first && d.table == FreshTable(m)
       else !d.first && d.prev == cut[j - 1] && |d.table| == Pow2(m) + 1 + j
  }

  lemma {:induction false} AfterStrings(m: nat, codes: seq<nat>, cut: seq<seq<nat>>, j: nat)
    requires 2 <= m <= 8 && Spelled(m, codes, cut) && j <= |cut| <= Pow2(m)
    ensures After(m, DecodeAll(m, codes[..j + 1]), cut, j)
    decreases j
  {
    hide DecodeAll, Pow2;
    if j == 0 {
      assert codes[..1] == [] + [codes[0]];
      DecodeSnoc(m, [], codes[0]);
      AfterClear(m, cut);
    } else {
      AfterStrings(m, codes, cut, j - 1);
      assert Says(m, codes, j, cut[j - 1]);
      assert codes[..j + 1] == codes[..j] + [codes[j]];
      DecodeSnoc(m, codes[..j], codes[j]);
      SmallTable(m, j);
      AfterNext(m, DecodeAll(m, codes[..j]), codes[j], cut, j - 1);
    }
  }

  lemma AfterClear(m: nat, cut: seq<seq<nat>>)
    ensures DecodeAll(m, []) == Start(m) && After(m, Decode(m, Start(m), ClearCode(m)), cut, 0)
  {
    assert cut[..0] == [];
    hide Pow2;
  }

  lemma SmallTable(m: nat, j: nat)
    requires 2 <= m <= 8 && j <= Pow2(m)
    ensures Pow2(m) + 2 + j < TABLE_LIMIT && Pow2(m + 1) == 2 * Pow2(m) && 4 <= Pow2(m) <= 256
  {
    PowerValues();
    assert Pow2(2) == 4;
    Pow2Monotone(2, m);
    Pow2Monotone(m, 8);
    Pow2Doubles(m);
  }

  lemma AfterNext(m: nat, d: Decoder, code: nat, cut: seq<seq<nat>>, j: nat)
    requires WellFormed(m, d) && j < |cut| && After(m, d, cut, j) && Pow2(m) + 2 + j < TABLE_LIMIT
    requires code != ClearCode(m) && code != EoiCode(m)
    requires var d' := Decode(m, d, code); !d'.done && d'.out == d.out + cut[j]
    ensures After(m, Decode(m, d, code), cut, j + 1) && code <= |d.table|
  {
    hide Pow2;
    assert cut[..j + 1][..j] == cut[..j];
    var d' := Decode(m, d, code);
    assert d'.out[|d.out|..] == cut[j] && d'.out[|d.out|..] == d'.prev;
  }

  // --------------------------------------------------------------- code sizes

  lemma {:induction false} FirstSize(m: nat, next: nat)
    requires Pow2(m) + 2 <= next < Pow2(m + 1)
    ensures CodeSize(m, next) == m + 1
    decreases next
  {
    hide Pow2;
    if next > Pow2(m) + 2 { FirstSize(m, next - 1); }
  }

  lemma SecondSize(m: nat)
    requires 2 <= m <= 8
    ensures CodeSize(m, Pow2(m + 1)) == CodeSize(m, Pow2(m + 1) + 1) == m + 2
  {
    hide Pow2, CodeSize;
    SmallTable(m, 0);
    Pow2Doubles(m + 1);
    FreshFits(m);
    FirstSize(m, Pow2(m + 1) - 1);
    SizeGrows(m, Pow2(m + 1) - 1);
    SizeGrows(m, Pow2(m + 1));
  }

  /** The sizes after the first `j` strings. */
  lemma SizesAfter(m: nat, codes: seq<nat>, cut: seq<seq<nat>>, j: nat)
    requires 2 <= m <= 8 && Spelled(m, codes, cut) && j <= |cut| <= Pow2(m)
    ensures j + 2 <= Pow2(m) ==> DecoderSize(m, codes[..j + 1]) == m + 1
    ensures j + 2 < Pow2(m) ==> EncoderSize(m, codes[..j + 1]) == m + 1
    ensures j + 2 == Pow2(m) ==> EncoderSize(m, codes[..j + 1]) == m + 2
    ensures j + 1 == Pow2(m) ==> EncoderSize(m, codes[..j + 1]) == DecoderSize(m, codes[..j + 1]) == m + 2
  {
    assert |codes| > |cut|;
    AfterStrings(m, codes, cut, j);
    hide Spelled, After, DecodeAll, Pow2, CodeSize, EncoderSize, DecoderSize;
    SizesThen(m, codes[..j + 1], cut, j);
  }

  lemma SizesThen(m: nat, codes: seq<nat>, cut: seq<seq<nat>>, j: nat)
    requires 2 <= m <= 8 && j <= |cut| && j <= Pow2(m) && After(m, DecodeAll(m, codes), cut, j)
    ensures j + 2 <= Pow2(m) ==> DecoderSize(m, codes) == m + 1
    ensures j + 2 < Pow2(m) ==> EncoderSize(m, codes) == m + 1
    ensures j + 2 == Pow2(m) ==> EncoderSize(m, codes) == m + 2
    ensures j + 1 == Pow2(m) ==> EncoderSize(m, codes) == DecoderSize(m, codes) == m + 2
  {
    hide After, DecodeAll, Pow2, CodeSize, EncoderSize, DecoderSize;
    TableSize(m, DecodeAll(m, codes), cut, j);
    EncoderSizeIs(m, codes);
    DecoderSizeIs(m, codes);
    SizesFor(m, j);
  }

  lemma SizesFor(m: nat, j: nat)
    requires 2 <= m <= 8 && j <= Pow2(m)
    ensures var t := if j == 0 then Pow2(m) + 2 else Pow2(m) + 1 + j;
            var e := if j == 0 then t else t + 1;
            && (j + 2 <= Pow2(m) ==> CodeSize(m, t) == m + 1)
            && (j + 2 < Pow2(m) ==> CodeSize(m, e) == m + 1)
            && (j + 2 == Pow2(m) ==> CodeSize(m, e) == m + 2)
            && (j + 1 == Pow2(m) ==> CodeSize(m, t) == CodeSize(m, e) == m + 2)
  {
    hide Pow2, CodeSize;
    SmallTable(m, j);
    SecondSize(m);
    var t := if j == 0 then Pow2(m) + 2 else Pow2(m) + 1 + j;
    if t < Pow2(m + 1) { FirstSize(m, t); }
    if t + 1 < Pow2(m + 1) { FirstSize(m, t + 1); }
  }

  lemma TableSize(m: nat, d: Decoder, cut: seq<seq<nat>>, j: nat)
    requires j <= |cut| && After(m, d, cut, j)
    ensures d.first <==> j == 0
    ensures |d.table| == if j == 0 then Pow2(m) + 2 else Pow2(m) + 1 + j
  {
    hide Pow2;
  }

  lemma EncodedSize(m: nat, codes: seq<nat>, sizes: seq<nat>, pixels: seq<nat>, i: nat)
    requires Encoded(m, codes, sizes, pixels) && i < |codes|
    ensures |sizes| == |codes| && codes[i] < Pow2(sizes[i])
    ensures sizes[i] == if i < |codes| - 1 then EncoderSize(m, codes[..i]) else DecoderSize(m, codes[..i])
  {
    hide DecodeAll, Pow2, EncoderSize, DecoderSize;
  }

  lemma FirstSizes(m: nat)
    ensures DecoderSize(m, []) == EncoderSize(m, []) == m + 1 && !DecodeAll(m, []).done
  {
    SizeGrows(m, Pow2(m) + 2);
  }

  /** Up to string `k` both sides have the same sizes. */
  lemma StringsAgree(m: nat, codes: seq<nat>, sizes: seq<nat>, pixels: seq<nat>, cut: seq<seq<nat>>, k: nat)
    requires 2 <= m <= 8 && Encoded(m, codes, sizes, pixels) && Spelled(m, codes, cut) && |cut| <= Pow2(m)
    requires k <= |cut| + 1 && k < Pow2(m) && |cut| + 2 <= |codes|
    ensures AgreeUpTo(m, codes, sizes, k)
  {
    hide Encoded, Spelled, EncoderSize, DecoderSize, DecodeAll, Pow2;
    EncodedSize(m, codes, sizes, pixels, 0);
    forall i | 0 <= i < k
      ensures sizes[i] == DecoderSize(m, codes[..i]) && codes[i] < Pow2(sizes[i]) && !DecodeAll(m, codes[..i]).done
    {
      EncodedSize(m, codes, sizes, pixels, i);
      if i == 0 {
        FirstSizes(m);
        assert codes[..0] == [];
      } else {
        SizesAfter(m, codes, cut, i - 1);
        AfterStrings(m, codes, cut, i - 1);
      }
    }
  }

  /** All codes are read with the sizes they were written with, if and only if the image has
      at most `Pow2(m) - 2` strings. */
  lemma SizesAgreeIffFew(m: nat, codes: seq<nat>, sizes: seq<nat>, pixels: seq<nat>)
    requires 2 <= m <= 8 && Encoded(m, codes, sizes, pixels) && StringsSpelled(m, codes, Strings(m, pixels))
    ensures |sizes| == |codes|
    ensures (forall i :: 0 <= i < |codes| ==> sizes[i] == DecoderSize(m, codes[..i])) <==> |Strings(m, pixels)| + 2 <= Pow2(m)
  {
    hide Encoded, Spelled, EncoderSize, DecoderSize, DecodeAll, Pow2, Strings;
    var all := Strings(m, pixels);
    FirstSpelled(m, codes, all);
    SmallTable(m, 0);
    EncodedSize(m, codes, sizes, pixels, 0);
    if |all| + 2 <= Pow2(m) {
      StringsAgree(m, codes, sizes, pixels, all, |all| + 1);
      EncodedSize(m, codes, sizes, pixels, |codes| - 1);
    } else {
      var cut := if |all| < Pow2(m) then all else all[..Pow2(m)];
      SizesAfter(m, codes, cut, Pow2(m) - 2);
      EncodedSize(m, codes, sizes, pixels, Pow2(m) - 1);
    }
  }

  // --------------------------------------------------- reading one bit too little

  lemma {:induction false} DigitsFront(x: nat, v: nat, w: nat)
    requires v <= w
    ensures Digits(x, w)[..v] == Digits(x, v)
    decreases v
  {
    if v > 0 { DigitsFront(x / 2, v - 1, w - 1); }
  }

  lemma {:induction false} DigitsBack(x: nat, w: nat)
    requires x < Pow2(w)
    ensures Digits(x, w + 1)[w..] == [false]
    decreases w
  {
    if w > 0 { DigitsBack(x / 2, w - 1); }
  }

  /** What `w + 1` digits of `y` read as from one bit before. */
  function Twice(y: nat, w: nat): nat
  {
    2 * (y % Pow2(w))
  }

  /** The digits of `x` and another one behind a zero bit read as twice the number. */
  lemma Doubled(x: nat, w: nat, bits: Bits)
    requires x < Pow2(w) && [false] + Digits(x, w) <= bits
    ensures |bits| >= w + 1 && Value(bits[..w + 1]) == 2 * x
  {
    ValueDigits(x, w);
    var b := bits[..w + 1];
    assert b == [false] + Digits(x, w);
    assert b[1..] == Digits(x, w);
  }

  lemma PrefixNext(codes: seq<nat>, k: nat)
    requires k < |codes|
    ensures codes[..k] + [codes[k]] == codes[..k + 1]
  {
  }

  lemma ReadPart(m: nat, codes: seq<nat>, sizes: seq<nat>, k: nat, bits: Bits, w: nat) returns (rest: Bits)
    requires AgreeUpTo(m, codes, sizes, k) && CodeBits(codes, sizes) <= bits && k + 1 < |codes|
    requires sizes[k] == w + 1 == sizes[k + 1]
    ensures ReadAll(m, bits, []) == ReadAll(m, rest, codes[..k]) && |rest| >= 2 * w + 2
    ensures var front := |CodeBits(codes[..k], sizes[..k])|; front <= |bits| && rest == bits[front..]
    ensures rest[..w + 1] == Digits(codes[k], w + 1) && rest[w + 1..2 * w + 2] == Digits(codes[k + 1], w + 1)
  {
    assert |codes| == |sizes|;
    hide ReadAll, DecoderSize, DecodeAll, CodeBits, Digits, Value, Pow2, AgreeUpTo;
    ReadAgreed(m, codes, sizes, k, bits);
    rest := TwoCodes(codes, sizes, k, bits, w);
  }

  lemma MisalignedRead(m: nat, before: seq<nat>, x: nat, y: nat, rest: Bits, w: nat)
    requires x < Pow2(w) && |rest| >= 2 * w + 2
    requires rest[..w + 1] == Digits(x, w + 1) && rest[w + 1..2 * w + 2] == Digits(y, w + 1)
    requires DecoderSize(m, before) == w && DecoderSize(m, before + [x]) == w + 1
    requires !DecodeAll(m, before).done && !DecodeAll(m, before + [x]).done
    ensures var z := before + [x] + [Twice(y, w)];
            && ReadAll(m, rest, before) == (if DecodeAll(m, z).done then z else ReadAll(m, rest[2 * w + 1..], z))
            && z <= ReadAll(m, rest, before)
  {
    hide ReadAll, DecoderSize, DecodeAll, Digits, Value, Pow2, Twice;
    MisalignedBits(x, y, w, rest);
    ReadStep(m, rest, before);
    var bits := rest[w..];
    ReadStep(m, bits, before + [x]);
    var z := before + [x] + [Twice(y, w)];
    assert bits[w + 1..] == rest[2 * w + 1..];
    ReadStep(m, rest[2 * w + 1..], z);
    ReadExtends(m, rest[2 * w + 1..], z);
  }

  lemma TwoCodes(codes: seq<nat>, sizes: seq<nat>, k: nat, bits: Bits, w: nat) returns (rest: Bits)
    requires |codes| == |sizes| && k + 1 < |codes| && sizes[k] == w + 1 == sizes[k + 1]
    requires CodeBits(codes, sizes) <= bits
    ensures var front := |CodeBits(codes[..k], sizes[..k])|; front <= |bits| && rest == bits[front..]
    ensures |rest| >= 2 * w + 2
    ensures rest[..w + 1] == Digits(codes[k], w + 1) && rest[w + 1..2 * w + 2] == Digits(codes[k + 1], w + 1)
  {
    hide CodeBits, Digits;
    CodeLies(codes, sizes, k, bits);
    CodeLies(codes, sizes, k + 1, bits);
    CodesStep(codes, sizes, k);
    var front := |CodeBits(codes[..k], sizes[..k])|;
    rest := bits[front..];
    assert rest[w + 1..2 * w + 2] == bits[front + w + 1..front + 2 * w + 2];
  }

  lemma MisalignedBits(x: nat, y: nat, w: nat, rest: Bits)
    requires x < Pow2(w) && |rest| >= 2 * w + 2
    requires rest[..w + 1] == Digits(x, w + 1) && rest[w + 1..2 * w + 2] == Digits(y, w + 1)
    ensures Value(rest[..w]) == x && |rest[w..]| >= w + 1 && Value(rest[w..][..w + 1]) == Twice(y, w)
  {
    DigitsFront(x, w, w + 1);
    DigitsBack(x, w);
    DigitsFront(y, w, w + 1);
    ValueDigits(x, w);
    DigitsMod(y, w);
    hide Digits, Value;
    assert rest[..w] == rest[..w + 1][..w];
    var b := rest[w..];
    Shifted(rest, w, Digits(y % Pow2(w), w));
    Doubled(y % Pow2(w), w, b);
  }

  lemma Shifted(rest: Bits, w: nat, ds: Bits)
    requires |rest| >= 2 * w + 2 && rest[..w + 1][w..] == [false] && rest[w + 1..2 * w + 2][..w] == ds
    ensures [false] + ds <= rest[w..]
  {
    var b := rest[w..];
    assert b[0] == rest[..w + 1][w..][0];
    assert b[1..w + 1] == rest[w + 1..2 * w + 2][..w];
  }

  lemma {:induction false} DigitsMod(y: nat, w: nat)
    ensures y % Pow2(w) < Pow2(w) && Digits(y % Pow2(w), w) == Digits(y, w)
  {
    DigitsValue(Digits(y, w));
    var bits := Digits(y, w);
    ValueOfDigits(y, w);
  }

  lemma {:induction false} ValueOfDigits(y: nat, w: nat)
    ensures Value(Digits(y, w)) == y % Pow2(w)
    decreases w
  {
    if w > 0 {
      ValueOfDigits(y / 2, w - 1);
      assert Digits(y, w)[1..] == Digits(y / 2, w - 1);
      HalfMod(y, Pow2(w - 1));
    }
  }

  lemma HalfMod(y: nat, p: nat)
    requires p > 0
    ensures y % (2 * p) == y % 2 + 2 * (y / 2 % p)
  {
    var q, r := y / 2 / p, y / 2 % p;
    assert y == (2 * p) * q + (y % 2 + 2 * r);
    DivMod(2 * p, q, y % 2 + 2 * r, y);
  }

  lemma {:induction false} ReadExtends(m: nat, bits: Bits, codes: seq<nat>)
    ensures codes <= ReadAll(m, bits, codes)
    decreases |bits|
  {
    hide DecodeAll, DecoderSize, Value;
    var size := DecoderSize(m, codes);
    ReadStep(m, bits, codes);
    if !DecodeAll(m, codes).done && |bits| >= size {
      ReadExtends(m, bits[size..], codes + [Value(bits[..size])]);
    }
  }

  lemma {:induction false} OutGrows(m: nat, codes: seq<nat>, more: seq<nat>)
    ensures DecodeAll(m, codes).out <= DecodeAll(m, codes + more).out
    decreases |more|
  {
    if more == [] {
      assert codes + more == codes;
    } else {
      var k := |more| - 1;
      OutGrows(m, codes, more[..k]);
      DecodeSnoc(m, codes + more[..k], more[k]);
      assert codes + more == codes + more[..k] + [more[k]];
      hide Pow2;
    }
  }

  // ------------------------------------------------------------------ round trip

  lemma CodeBelow(m: nat, codes: seq<nat>, cut: seq<seq<nat>>, j: nat)
    requires 2 <= m <= 8 && Spelled(m, codes, cut) && j < |cut| <= Pow2(m)
    ensures codes[j + 1] <= if j == 0 then Pow2(m) + 2 else Pow2(m) + 1 + j
  {
    AfterStrings(m, codes, cut, j);
    assert Says(m, codes, j + 1, cut[j]);
    assert codes[..j + 2] == codes[..j + 1] + [codes[j + 1]];
    DecodeSnoc(m, codes[..j + 1], codes[j + 1]);
    SmallTable(m, j);
    hide DecodeAll, Pow2;
    AfterNext(m, DecodeAll(m, codes[..j + 1]), codes[j + 1], cut, j);
  }

  /** With fewer than `Pow2(m) - 1` strings every code is read as it was written. */
  lemma VeryFewStrings(m: nat, codes: seq<nat>, sizes: seq<nat>, pixels: seq<nat>, bits: Bits)
    requires 2 <= m <= 8 && Encoded(m, codes, sizes, pixels) && StringsSpelled(m, codes, Strings(m, pixels))
    requires CodeBits(codes, sizes) <= bits && |Strings(m, pixels)| + 2 <= Pow2(m)
    ensures Decoded(m, bits) == pixels
  {
    hide Encoded, Spelled, DecodeAll, Pow2, Strings, ReadAll, CodeBits, AgreeUpTo;
    FirstSpelled(m, codes, Strings(m, pixels));
    AllAgree(m, codes, sizes, pixels, Strings(m, pixels));
    EncodedOut(m, codes, sizes, pixels);
    ReadWhole(m, codes, sizes, bits);
  }

  lemma AllAgree(m: nat, codes: seq<nat>, sizes: seq<nat>, pixels: seq<nat>, all: seq<seq<nat>>)
    requires 2 <= m <= 8 && Encoded(m, codes, sizes, pixels) && Spelled(m, codes, all)
    requires |all| + 2 <= Pow2(m) && |codes| == |all| + 2
    ensures AgreeUpTo(m, codes, sizes, |codes|)
  {
    hide Encoded, Spelled, EncoderSize, DecoderSize, DecodeAll, Pow2;
    var n := |codes|;
    StringsAgree(m, codes, sizes, pixels, all, n - 1);
    EncodedSize(m, codes, sizes, pixels, n - 1);
    AfterStrings(m, codes, all, n - 2);
  }

  lemma ReadWhole(m: nat, codes: seq<nat>, sizes: seq<nat>, bits: Bits)
    requires AgreeUpTo(m, codes, sizes, |codes|) && CodeBits(codes, sizes) <= bits && DecodeAll(m, codes).done
    ensures ReadAll(m, bits, []) == codes
  {
    assert codes[..|codes|] == codes && |sizes| == |codes| && sizes[..|codes|] == sizes;
    hide DecoderSize, DecodeAll, Pow2, ReadAll, CodeBits, AgreeUpTo;
    ReadAgreed(m, codes, sizes, |codes|, bits);
    ReadStep(m, bits[|CodeBits(codes, sizes)|..], codes);
  }

  /** The decoder reads twice `y` after `c`, and then goes on with `tail`. */
  ghost predicate ReadOn(m: nat, c: seq<nat>, y: nat, tail: Bits, read: seq<nat>)
  {
    var z := c + [Twice(y, m + 1)];
    read == if DecodeAll(m, z).done then z else ReadAll(m, tail, z)
  }

  /** The bits from string number `Pow2(m) - 1` on; the code after it is read as twice itself. */
  lemma ReadPast(m: nat, codes: seq<nat>, sizes: seq<nat>, pixels: seq<nat>, cut: seq<seq<nat>>, n: nat, bits: Bits)
    returns (rest: Bits)
    requires 2 <= m <= 8 && Encoded(m, codes, sizes, pixels) && Spelled(m, codes, cut) && CodeBits(codes, sizes) <= bits
    requires n + 1 == Pow2(m) && n <= |cut| <= Pow2(m) && |codes| >= |cut| + 2
    ensures |sizes| == |codes| && sizes[n] == sizes[n + 1] == m + 2 && |rest| >= 2 * m + 4
    ensures var front := |CodeBits(codes[..n], sizes[..n])|; front <= |bits| && rest == bits[front..]
    ensures rest[m + 2..2 * m + 4] == Digits(codes[n + 1], m + 2)
    ensures ReadOn(m, codes[..n + 1], codes[n + 1], rest[2 * m + 3..], ReadAll(m, bits, []))
  {
    hide *;
    SmallTable(m, n);
    DoubledSizes(m, codes, sizes, pixels, cut, n);
    StringsAgree(m, codes, sizes, pixels, cut, n);
    CodeBelow(m, codes, cut, n - 1);
    rest := ReadPart(m, codes, sizes, n, bits, m + 1);
    PrefixNext(codes, n);
    MisalignedOn(m, codes[..n], codes[n], codes[..n + 1], codes[n + 1], rest, ReadAll(m, bits, []));
  }

  lemma MisalignedOn(m: nat, before: seq<nat>, x: nat, c: seq<nat>, y: nat, rest: Bits, read: seq<nat>)
    requires c == before + [x] && x < Pow2(m + 1) && |rest| >= 2 * m + 4 && read == ReadAll(m, rest, before)
    requires rest[..m + 2] == Digits(x, m + 2) && rest[m + 2..2 * m + 4] == Digits(y, m + 2)
    requires DecoderSize(m, before) == m + 1 && DecoderSize(m, c) == m + 2
    requires !DecodeAll(m, before).done && !DecodeAll(m, c).done
    ensures ReadOn(m, c, y, rest[2 * m + 3..], read)
  {
    hide ReadAll, DecoderSize, DecodeAll, Digits, Pow2, Twice;
    MisalignedRead(m, before, x, y, rest, m + 1);
  }

  /** String number `Pow2(m) - 1` is read with a bit less than it was written with, which does
      it no harm; and the code after it, `y`, is read as twice itself. */
  lemma ReadDoubled(m: nat, codes: seq<nat>, sizes: seq<nat>, pixels: seq<nat>, cut: seq<seq<nat>>, n: nat, bits: Bits)
    requires 2 <= m <= 8 && Encoded(m, codes, sizes, pixels) && Spelled(m, codes, cut) && CodeBits(codes, sizes) <= bits
    requires n + 1 == Pow2(m) && n <= |cut| <= Pow2(m) && |codes| >= |cut| + 2
    ensures var z := codes[..n + 1] + [Twice(codes[n + 1], m + 1)];
            z <= ReadAll(m, bits, []) && (DecodeAll(m, z).done ==> ReadAll(m, bits, []) == z)
  {
    hide DecodeAll, ReadAll, CodeBits, Twice, Encoded, Spelled, Digits, Pow2;
    var rest := ReadPast(m, codes, sizes, pixels, cut, n, bits);
    ReadExtends(m, rest[2 * m + 3..], codes[..n + 1] + [Twice(codes[n + 1], m + 1)]);
  }

  lemma DoubledSizes(m: nat, codes: seq<nat>, sizes: seq<nat>, pixels: seq<nat>, cut: seq<seq<nat>>, n: nat)
    requires 2 <= m <= 8 && Encoded(m, codes, sizes, pixels) && Spelled(m, codes, cut)
    requires n + 1 == Pow2(m) && n <= |cut| <= Pow2(m) && |codes| >= |cut| + 2
    ensures |sizes| == |codes| && sizes[n] == sizes[n + 1] == m + 2
    ensures DecoderSize(m, codes[..n]) == m + 1 && DecoderSize(m, codes[..n + 1]) == m + 2
    ensures !DecodeAll(m, codes[..n]).done && !DecodeAll(m, codes[..n + 1]).done
  {
    hide Encoded, Spelled, EncoderSize, DecoderSize, DecodeAll, Pow2;
    SmallTable(m, n);
    SizeAt(m, codes, sizes, pixels, cut, n - 1);
    SizeAt(m, codes, sizes, pixels, cut, n);
  }

  lemma SizeAt(m: nat, codes: seq<nat>, sizes: seq<nat>, pixels: seq<nat>, cut: seq<seq<nat>>, j: nat)
    requires 2 <= m <= 8 && Encoded(m, codes, sizes, pixels) && Spelled(m, codes, cut)
    requires j <= |cut| <= Pow2(m) && j + 1 < |codes|
    ensures |sizes| == |codes| && !DecodeAll(m, codes[..j + 1]).done
    ensures j + 2 == Pow2(m) ==> DecoderSize(m, codes[..j + 1]) == m + 1
    ensures j + 2 == Pow2(m) && j + 2 < |codes| ==> sizes[j + 1] == m + 2
    ensures j + 1 == Pow2(m) ==> DecoderSize(m, codes[..j + 1]) == sizes[j + 1] == m + 2
  {
    hide Encoded, Spelled, EncoderSize, DecoderSize, DecodeAll, Pow2;
    SizesAfter(m, codes, cut, j);
    EncodedSize(m, codes, sizes, pixels, j + 1);
    AfterStrings(m, codes, cut, j);
  }

  /** The code after the last of `Pow2(m) - 1` strings is one the decoder cannot know. */
  lemma JustFewStrings(m: nat, codes: seq<nat>, sizes: seq<nat>, pixels: seq<nat>, bits: Bits)
    requires 2 <= m <= 8 && Encoded(m, codes, sizes, pixels) && StringsSpelled(m, codes, Strings(m, pixels))
    requires CodeBits(codes, sizes) <= bits && |Strings(m, pixels)| + 1 == Pow2(m)
    ensures Decoded(m, bits) == pixels
  {
    hide Encoded, Spelled, DecodeAll, Strings, ReadAll, CodeBits, Pow2, Twice, After, EoiCode, WellFormed;
    var all := Strings(m, pixels);
    var n := |all|;
    FirstSpelled(m, codes, all);
    EncodedOut(m, codes, sizes, pixels);
    ReadDoubled(m, codes, sizes, pixels, all, n, bits);
    AfterStrings(m, codes, all, n);
    EndsWith(m, codes, sizes, pixels, n + 1);
    EndUnknown(m, codes[..n + 1], all, n);
  }

  lemma EndsWith(m: nat, codes: seq<nat>, sizes: seq<nat>, pixels: seq<nat>, k: nat)
    requires Encoded(m, codes, sizes, pixels) && |codes| == k + 1
    ensures codes[k] == EoiCode(m) && codes == codes[..k] + [EoiCode(m)]
  {
    hide DecodeAll, Pow2, EncoderSize, DecoderSize;
  }

  lemma EndUnknown(m: nat, c: seq<nat>, cut: seq<seq<nat>>, j: nat)
    requires 2 <= m <= 8 && j <= |cut| && After(m, DecodeAll(m, c), cut, j) && j + 1 == Pow2(m)
    ensures var d := DecodeAll(m, c + [Twice(EoiCode(m), m + 1)]); d.done && d.out == DecodeAll(m, c + [EoiCode(m)]).out
  {
    hide After, Pow2, Twice, EoiCode, DecodeAll;
    UnknownCode(m, DecodeAll(m, c), cut, j);
    DecodeSnoc(m, c, Twice(EoiCode(m), m + 1));
    DecodeSnoc(m, c, EoiCode(m));
  }

  lemma UnknownCode(m: nat, d: Decoder, cut: seq<seq<nat>>, j: nat)
    requires 2 <= m <= 8 && j <= |cut| && After(m, d, cut, j) && j + 1 == Pow2(m) && WellFormed(m, d)
    ensures var d' := Decode(m, d, Twice(EoiCode(m), m + 1)); d'.done && d'.out == d.out
    ensures Decode(m, d, EoiCode(m)).out == d.out
  {
    TableSize(m, d, cut, j);
    SmallTable(m, j);
    hide Pow2, FreshTable, After;
    assert EoiCode(m) < Pow2(m + 1);
    SmallMod(EoiCode(m), Pow2(m + 1));
  }

  lemma SmallMod(x: nat, p: nat)
    requires x < p
    ensures x % p == x
  {
  }

  /** An image of fewer than `Pow2(m)` strings comes back from its bytes. */
  lemma FewStrings(m: nat, codes: seq<nat>, sizes: seq<nat>, pixels: seq<nat>, bits: Bits)
    requires 2 <= m <= 8 && Encoded(m, codes, sizes, pixels) && StringsSpelled(m, codes, Strings(m, pixels))
    requires CodeBits(codes, sizes) <= bits && |Strings(m, pixels)| < Pow2(m)
    ensures Decoded(m, bits) == pixels
  {
    hide Encoded, StringsSpelled, Strings, Decoded, CodeBits, Pow2;
    if |Strings(m, pixels)| + 1 == Pow2(m) {
      JustFewStrings(m, codes, sizes, pixels, bits);
    } else {
      VeryFewStrings(m, codes, sizes, pixels, bits);
    }
  }

  /** Every string has a pixel of its own, so an image of fewer pixels has fewer strings. */
  lemma {:induction false} CutsFew(known: set<seq<nat>>, w: seq<nat>, pixels: seq<nat>)
    ensures |Cuts(known, w, pixels)| <= |pixels| + if w == [] then 0 else 1
    requires forall p :: p in pixels ==> w == [] ==> [p] in known
    decreases |pixels|
  {
    if pixels != [] {
      var wc := w + [pixels[0]];
      if wc in known {
        CutsFew(known, wc, pixels[1..]);
      } else {
        assert w != [] by { assert [] + [pixels[0]] == [pixels[0]]; }
        CutsFew(known + {wc}, [pixels[0]], pixels[1..]);
      }
    }
  }

  // ----------------------------------------------------------------- and failure

  /** String number `Pow2(m)` is one that does not survive: longer than a pixel, but for one
      that begins with 0 and only repeats the string before, or a pixel `p` with `0 < p` and
      `2 * p < Pow2(m)`. */
  ghost predicate Misread(m: nat, all: seq<seq<nat>>)
  {
    && |all| >= Pow2(m) >= 2
    && var t, before := all[Pow2(m) - 1], all[Pow2(m) - 2];
       if |t| >= 2 then t[0] != 0 || before == [] || t != before + [before[0]]
       else |t| == 1 && 0 < t[0] && 2 * t[0] < Pow2(m)
  }

  lemma BeyondStops(m: nat, d: Decoder, code: nat)
    requires WellFormed(m, d) && code > |d.table|
    ensures var d' := Decode(m, d, code); d'.done && d'.out == d.out
  {
  }

  /** What the decoder makes of twice the code `y` of the string `t`: nothing, or a pixel that
      is not the string's first. */
  lemma WrongString(m: nat, d: Decoder, cut: seq<seq<nat>>, n: nat, y: nat, t: seq<nat>)
    requires 2 <= m <= 8 && n + 1 == Pow2(m) && n < |cut| && After(m, d, cut, n) && WellFormed(m, d)
    requires y != ClearCode(m) && y != EoiCode(m) && y <= |d.table| && Decode(m, d, y).out == d.out + t
    requires t != [] && cut[n - 1] != []
    requires if |t| >= 2 then t[0] != 0 || t != cut[n - 1] + [cut[n - 1][0]] else 0 < t[0] && 2 * t[0] < Pow2(m)
    ensures var d' := Decode(m, d, Twice(y, m + 1));
            (d'.done && d'.out == d.out) || exists q :: q != t[0] && d'.out == d.out + [q]
  {
    hide Pow2, FreshTable, After, Decode, WellFormed;
    SmallTable(m, n);
    TableSize(m, d, cut, n);
    TableStrings(m, d, cut, n);
    StringOf(m, d, y, t);
    if y < |d.table| {
      SmallMod(y, Pow2(m + 1));
      if y < Pow2(m) {
        PixelCode(m, d, y);
        PixelCode(m, d, 2 * y);
      } else {
        BeyondStops(m, d, 2 * y);
      }
    } else {
      WholeMod(Pow2(m + 1));
      PixelCode(m, d, 0);
    }
  }

  lemma TableStrings(m: nat, d: Decoder, cut: seq<seq<nat>>, n: nat)
    requires 0 < n <= |cut| && After(m, d, cut, n)
    ensures !d.done && FreshTable(m) <= d.table && d.prev == cut[n - 1]
    ensures forall c :: Pow2(m) + 2 <= c < |d.table| ==> |d.table[c]| >= 2
  {
  }

  /** The string that a code was decoded to. */
  lemma StringOf(m: nat, d: Decoder, y: nat, t: seq<nat>)
    requires WellFormed(m, d) && !d.done && !d.first && y != ClearCode(m) && y != EoiCode(m) && y <= |d.table|
    requires Decode(m, d, y).out == d.out + t
    ensures t == if y < |d.table| then d.table[y] else d.prev + [d.prev[0]]
  {
    hide Pow2;
    assert Decode(m, d, y).out[|d.out|..] == t;
  }

  lemma WholeMod(p: nat)
    requires p > 0
    ensures p % p == 0
  {
  }

  lemma PixelCode(m: nat, d: Decoder, c: nat)
    requires WellFormed(m, d) && FreshTable(m) <= d.table && !d.done && c < Pow2(m)
    ensures Decode(m, d, c).out == d.out + [c] && d.table[c] == [c]
  {
    hide Pow2;
    assert d.table[c] == FreshTable(m)[c] == [c];
  }

  /** An image whose string number `Pow2(m)` does not survive comes back different. */
  lemma ManyStringsMisread(m: nat, codes: seq<nat>, sizes: seq<nat>, pixels: seq<nat>, bits: Bits)
    requires 2 <= m <= 8 && Encoded(m, codes, sizes, pixels) && StringsSpelled(m, codes, Strings(m, pixels))
    requires CodeBits(codes, sizes) <= bits && Misread(m, Strings(m, pixels))
    ensures Decoded(m, bits) != pixels
  {
    hide Encoded, Spelled, DecodeAll, Strings, ReadAll, CodeBits, Pow2, Twice, After;
    SmallTable(m, 0);
    FirstSpelled(m, codes, Strings(m, pixels));
    var n := Pow2(m) - 1;
    var cut := Strings(m, pixels)[..n + 1];
    EncodedOut(m, codes, sizes, pixels);
    ReadDoubled(m, codes, sizes, pixels, cut, n, bits);
    AfterStrings(m, codes, cut, n);
    StringAt(m, codes, cut, n - 1);
    StringAt(m, codes, cut, n);
    CodeBelow(m, codes, cut, n);
    PartOf(codes, n + 1);
    MisreadFrom(m, codes[..n + 1], codes[n + 1], codes, pixels, ReadAll(m, bits, []), cut, n);
  }

  lemma EncodedOut(m: nat, codes: seq<nat>, sizes: seq<nat>, pixels: seq<nat>)
    requires Encoded(m, codes, sizes, pixels)
    ensures DecodeAll(m, codes).out == pixels && DecodeAll(m, codes).done
  {
  }

  lemma PartOf(codes: seq<nat>, k: nat)
    requires k < |codes|
    ensures codes[..k] + [codes[k]] <= codes
  {
  }

  lemma StringAt(m: nat, codes: seq<nat>, cut: seq<seq<nat>>, j: nat)
    requires Spelled(m, codes, cut) && j < |cut|
    ensures cut[j] != [] && codes[j + 1] != ClearCode(m) && codes[j + 1] != EoiCode(m)
    ensures DecodeAll(m, codes[..j + 1] + [codes[j + 1]]).out == DecodeAll(m, codes[..j + 1]).out + cut[j]
  {
    hide DecodeAll;
    assert Says(m, codes, j + 1, cut[j]);
    assert codes[..j + 2] == codes[..j + 1] + [codes[j + 1]];
  }

  lemma MisreadFrom(m: nat, c: seq<nat>, y: nat, codes: seq<nat>, pixels: seq<nat>, read: seq<nat>, cut: seq<seq<nat>>, n: nat)
    requires 2 <= m <= 8 && n + 1 == Pow2(m) && |cut| == n + 1 && After(m, DecodeAll(m, c), cut, n) && Misread(m, cut)
    requires cut[n] != [] && cut[n - 1] != [] && y != ClearCode(m) && y != EoiCode(m) && y <= Pow2(m) + 1 + n
    requires DecodeAll(m, c + [y]).out == DecodeAll(m, c).out + cut[n]
    requires c + [y] <= codes && DecodeAll(m, codes).out == pixels
    requires var z := c + [Twice(y, m + 1)]; z <= read && (DecodeAll(m, z).done ==> read == z)
    ensures DecodeAll(m, read).out != pixels
  {
    hide DecodeAll, Pow2, Twice, After;
    var d, t := DecodeAll(m, c), cut[n];
    TableSize(m, d, cut, n);
    DecodeSnoc(m, c, y);
    DecodeSnoc(m, c, Twice(y, m + 1));
    WrongString(m, d, cut, n, y, t);
    var z := c + [Twice(y, m + 1)];
    PrefixOut(m, c + [y], codes);
    PrefixOut(m, z, read);
    WrongOut(d.out, t, pixels, DecodeAll(m, z).out, DecodeAll(m, read).out, DecodeAll(m, z).done);
  }

  lemma PrefixOut(m: nat, part: seq<nat>, codes: seq<nat>)
    requires part <= codes
    ensures DecodeAll(m, part).out <= DecodeAll(m, codes).out
  {
    hide DecodeAll;
    OutGrows(m, part, codes[|part|..]);
    assert part + codes[|part|..] == codes;
  }

  lemma WrongOut(out: seq<nat>, t: seq<nat>, pixels: seq<nat>, z: seq<nat>, read: seq<nat>, stopped: bool)
    requires t != [] && out + t <= pixels && z <= read
    requires (stopped && z == out && read == z) || exists q :: q != t[0] && z == out + [q]
    ensures read != pixels
  {
    assert pixels[|out|] == (out + t)[|out|] == t[0];
    if q :| q != t[0] && z == out + [q] { assert read[|out|] == z[|out|] == q; }
  }

  // ------------------------------------------------------ exactly `Pow2(m)` strings

  /** What lies behind the code `y` that is read as twice itself: its last bit, the end code
      and the padding. */
  ghost predicate Behind(m: nat, y: nat, tail: Bits, pad: Bits)
  {
    && tail == [Digits(y, m + 2)[m + 1]] + Digits(EoiCode(m), m + 2) + pad
    && pad == Zeros(|pad|) && (m == 2 ==> |pad| >= 1)
  }

  /** Filled up with zeros to whole bytes. */
  ghost predicate Padded(front: Bits, bits: Bits)
  {
    |bits| % 8 == 0 && 0 <= |bits| - |front| < 8 && bits == front + Zeros(|bits| - |front|)
  }

  /** What is left to be read after the code that is read as twice itself: one bit of that
      code, the end code, and the padding. */
  lemma ReadTail(m: nat, codes: seq<nat>, sizes: seq<nat>, pixels: seq<nat>, cut: seq<seq<nat>>, n: nat, bits: Bits)
    returns (tail: Bits)
    requires 2 <= m <= 8 && Encoded(m, codes, sizes, pixels) && Spelled(m, codes, cut)
    requires |sizes| == |codes| && Padded(CodeBits(codes, sizes), bits)
    requires n + 1 == Pow2(m) && n + 1 == |cut| && |codes| == n + 3
    ensures ReadOn(m, codes[..n + 1], codes[n + 1], tail, ReadAll(m, bits, []))
    ensures tail == [Digits(codes[n + 1], m + 2)[m + 1]] + Digits(EoiCode(m), m + 2) + Zeros(|bits| - |CodeBits(codes, sizes)|)
  {
    hide *;
    PaddedBegins(CodeBits(codes, sizes), bits);
    var rest := ReadPast(m, codes, sizes, pixels, cut, n, bits);
    EndSize(m, codes, sizes, pixels, cut, n);
    LastThree(codes, sizes, n, bits);
    tail := rest[2 * m + 3..];
    ThreeParts(rest, Digits(codes[n], m + 2), Digits(codes[n + 1], m + 2), Digits(codes[n + 2], m + 2),
               Zeros(|bits| - |CodeBits(codes, sizes)|), m + 1);
  }

  /** The end code is written with `m + 2` bits. */
  lemma EndSize(m: nat, codes: seq<nat>, sizes: seq<nat>, pixels: seq<nat>, cut: seq<seq<nat>>, n: nat)
    requires 2 <= m <= 8 && Encoded(m, codes, sizes, pixels) && Spelled(m, codes, cut)
    requires n + 1 == Pow2(m) && n + 1 == |cut| && |codes| == n + 3
    ensures |sizes| == |codes| && sizes[n + 2] == m + 2 && codes[n + 2] == EoiCode(m)
  {
    hide Encoded, Spelled, EncoderSize, DecoderSize, DecodeAll, Pow2, After, CodeSize;
    AfterStrings(m, codes, cut, n + 1);
    TableSize(m, DecodeAll(m, codes[..n + 2]), cut, n + 1);
    EncodedSize(m, codes, sizes, pixels, n + 2);
    EndsWith(m, codes, sizes, pixels, n + 2);
    DecoderSizeIs(m, codes[..n + 2]);
    SmallTable(m, n);
    SecondSize(m);
  }

  lemma LastThree(codes: seq<nat>, sizes: seq<nat>, n: nat, bits: Bits)
    requires |codes| == |sizes| == n + 3 && Padded(CodeBits(codes, sizes), bits)
    ensures var front := |CodeBits(codes[..n], sizes[..n])|;
            && front <= |bits|
            && bits[front..] == Digits(codes[n], sizes[n]) + Digits(codes[n + 1], sizes[n + 1])
                                + Digits(codes[n + 2], sizes[n + 2]) + Zeros(|bits| - |CodeBits(codes, sizes)|)
  {
    hide CodeBits, Digits, Zeros;
    CodesStep(codes, sizes, n);
    CodesStep(codes, sizes, n + 1);
    CodesStep(codes, sizes, n + 2);
    assert codes[..n + 3] == codes && sizes[..n + 3] == sizes;
    FrontOff(bits, CodeBits(codes[..n], sizes[..n]), Digits(codes[n], sizes[n]), Digits(codes[n + 1], sizes[n + 1]),
             Digits(codes[n + 2], sizes[n + 2]), Zeros(|bits| - |CodeBits(codes, sizes)|));
  }

  lemma FrontOff(bits: Bits, a: Bits, x: Bits, y: Bits, e: Bits, z: Bits)
    requires bits == a + x + y + e + z
    ensures |a| <= |bits| && bits[|a|..] == x + y + e + z
  {
  }

  lemma ThreeParts(rest: Bits, x: Bits, y: Bits, e: Bits, z: Bits, w: nat)
    requires rest == x + y + e + z && |x| == |y| == w + 1
    ensures rest[2 * w + 1..] == [y[w]] + e + z
  {
  }

  lemma ShiftedValue(top: bool, e: nat, w: nat)
    requires e < Pow2(w)
    ensures Value([top] + Digits(e, w)) == 2 * e + if top then 1 else 0
  {
    ValueDigits(e, w);
    assert ([top] + Digits(e, w))[1..] == Digits(e, w);
  }

  /** A code read from one bit before, when that bit is `top`. */
  lemma NextShifted(m: nat, z: seq<nat>, e: nat, v: nat, w: nat, top: bool, tail: Bits)
    requires e % Pow2(w) == v && DecoderSize(m, z) == w + 1 && !DecodeAll(m, z).done && w <= |tail| - 1
    requires tail[0] == top && tail[1..w + 1] == Digits(e, w)
    ensures var z' := z + [2 * v + if top then 1 else 0];
            && ReadAll(m, tail, z) == (if DecodeAll(m, z').done then z' else ReadAll(m, tail[w + 1..], z'))
            && z' <= ReadAll(m, tail, z)
  {
    hide *;
    DigitsMod(e, w);
    ShiftedValue(top, v, w);
    var code := 2 * v + if top then 1 else 0;
    TakeFront(tail, top, Digits(v, w), w);
    ReadStep(m, tail, z);
    ReadStep(m, tail[w + 1..], z + [code]);
    ReadExtends(m, tail[w + 1..], z + [code]);
  }

  lemma TakeFront(tail: Bits, top: bool, ds: Bits, w: nat)
    requires |tail| >= w + 1 && tail[0] == top && tail[1..w + 1] == ds
    ensures tail[..w + 1] == [top] + ds
  {
  }

  lemma ShiftedTail(top: bool, e: nat, w: nat, v: nat, pad: Bits)
    requires v <= w
    ensures var tail := [top] + Digits(e, w) + pad; tail[0] == top && tail[1..v + 1] == Digits(e, v) && |tail| >= w + 1
  {
    DigitsFront(e, v, w);
    hide Digits;
    var tail := [top] + Digits(e, w) + pad;
    assert tail[1..v + 1] == Digits(e, w)[..v];
  }

  /** With a table of one entry more than there are codes of `m + 1` bits, the end code is
      read as one that the decoder cannot know. */
  lemma EndStops(m: nat, z: seq<nat>, top: bool, pad: Bits)
    requires 2 <= m <= 8 && !DecodeAll(m, z).done && |DecodeAll(m, z).table| == Pow2(m + 1) + 1
    ensures DecodeAll(m, ReadAll(m, [top] + Digits(EoiCode(m), m + 2) + pad, z)).out == DecodeAll(m, z).out
  {
    hide *;
    SmallTable(m, 0);
    SecondSize(m);
    DecoderSizeIs(m, z);
    var e, code := EoiCode(m), 2 * EoiCode(m) + if top then 1 else 0;
    assert e == Pow2(m) + 1 by { EoiIs(m); }
    SmallMod(e, Pow2(m + 1));
    ShiftedTail(top, e, m + 2, m + 1, pad);
    NextShifted(m, z, e, e, m + 1, top, [top] + Digits(e, m + 2) + pad);
    DecodeSnoc(m, z, code);
    BeyondStops(m, DecodeAll(m, z), code);
  }

  lemma EoiIs(m: nat)
    ensures EoiCode(m) == Pow2(m) + 1
  {
  }

  /** The decoder in front of the last string, what that string is, and what it reads on. */
  lemma FullImage(m: nat, codes: seq<nat>, sizes: seq<nat>, pixels: seq<nat>, cut: seq<seq<nat>>, bits: Bits)
    returns (c: seq<nat>, y: nat, tail: Bits, pad: Bits)
    requires 2 <= m <= 8 && Encoded(m, codes, sizes, pixels) && Spelled(m, codes, cut) && |sizes| == |codes|
    requires |cut| == Pow2(m) && |codes| == Pow2(m) + 2 && Padded(CodeBits(codes, sizes), bits)
    ensures |cut| >= 2 && After(m, DecodeAll(m, c), cut, |cut| - 1) && cut[|cut| - 1] != [] && cut[|cut| - 2] != []
    ensures y != ClearCode(m) && y != EoiCode(m) && y <= |DecodeAll(m, c).table| == Pow2(m + 1)
    ensures DecodeAll(m, c + [y]).out == DecodeAll(m, c).out + cut[|cut| - 1] == pixels
    ensures ReadOn(m, c, y, tail, ReadAll(m, bits, [])) && Behind(m, y, tail, pad)
  {
    hide Encoded, Spelled, DecodeAll, ReadAll, CodeBits, Twice, After, Digits, Zeros, FreshTable, Pow2, WellFormed;
    SmallTable(m, 0);
    var n := |cut| - 1;
    c, y := codes[..n + 1], codes[n + 1];
    AfterStrings(m, codes, cut, n);
    TableSize(m, DecodeAll(m, c), cut, n);
    StringAt(m, codes, cut, n - 1);
    StringAt(m, codes, cut, n);
    CodeBelow(m, codes, cut, n);
    EncodedOut(m, codes, sizes, pixels);
    EndSize(m, codes, sizes, pixels, cut, n);
    EndsWith(m, codes, sizes, pixels, n + 2);
    PrefixNext(codes, n + 1);
    DecodeSnoc(m, codes[..n + 2], EoiCode(m));
    EndAdds(m, DecodeAll(m, codes[..n + 2]));
    tail := ReadTail(m, codes, sizes, pixels, cut, n, bits);
    pad := Zeros(|bits| - |CodeBits(codes, sizes)|);
    if m == 2 { Leftover(codes, sizes, pixels, cut, bits); }
  }

  lemma EndAdds(m: nat, d: Decoder)
    requires WellFormed(m, d)
    ensures Decode(m, d, EoiCode(m)).out == d.out
  {
  }

  /** When the last string is the pixel 0, its code is twice itself, and the end code stops the
      decoder. */
  lemma LastZero(m: nat, c: seq<nat>, y: nat, tail: Bits, pad: Bits, cut: seq<seq<nat>>, n: nat, read: seq<nat>)
    requires 2 <= m <= 8 && n + 1 == Pow2(m) == |cut| && After(m, DecodeAll(m, c), cut, n) && cut[n] == [0]
    requires y != ClearCode(m) && y != EoiCode(m) && y <= |DecodeAll(m, c).table| == Pow2(m + 1)
    requires DecodeAll(m, c + [y]).out == DecodeAll(m, c).out + cut[n]
    requires ReadOn(m, c, y, tail, read) && Behind(m, y, tail, pad)
    ensures DecodeAll(m, read).out == DecodeAll(m, c + [y]).out
  {
    hide DecodeAll, ReadAll, Digits, Pow2, After, FreshTable;
    SmallTable(m, n);
    var d := DecodeAll(m, c);
    DecodeSnoc(m, c, y);
    TableStrings(m, d, cut, n);
    TableSize(m, d, cut, n);
    StringOf(m, d, y, [0]);
    if y < Pow2(m) { PixelCode(m, d, y); }
    assert y == 0;
    TwiceZero(m + 1);
    TakenZero(m, d);
    EndStops(m, c + [0], Digits(y, m + 2)[m + 1], pad);
  }

  lemma TwiceZero(w: nat)
    ensures Twice(0, w) == 0
  {
  }

  /** The decoder after a pixel 0 that makes its table one entry longer. */
  lemma TakenZero(m: nat, d: Decoder)
    requires 2 <= m <= 8 && WellFormed(m, d) && !d.done && !d.first && FreshTable(m) <= d.table && |d.table| == Pow2(m + 1)
    ensures var d' := Decode(m, d, 0); !d'.done && |d'.table| == Pow2(m + 1) + 1 && d'.out == d.out + [0]
  {
    hide Pow2;
    SmallTable(m, 0);
    PixelCode(m, d, 0);
  }

  /** What the decoder makes of twice the code of another string: nothing, the pixel 0 for a
      longer string, two pixels and more for one, or an empty table. */
  lemma DoubledOther(m: nat, d: Decoder, cut: seq<seq<nat>>, n: nat, y: nat, t: seq<nat>)
    requires 2 <= m <= 8 && n + 1 == Pow2(m) && n < |cut| && After(m, d, cut, n) && WellFormed(m, d)
    requires y != ClearCode(m) && y != EoiCode(m) && y <= |d.table| == Pow2(m + 1) && Decode(m, d, y).out == d.out + t
    requires t != [] && t != [0] && !(|t| == 1 && 0 < t[0] && 2 * t[0] < Pow2(m))
    ensures var d' := Decode(m, d, Twice(y, m + 1));
            || (d'.done && d'.out == d.out)
            || (|t| >= 2 && Twice(y, m + 1) == 0)
            || (|t| == 1 && |d'.out| >= |d.out| + 2)
            || (2 * y == Twice(y, m + 1) == Pow2(m) && t == [y] && d' == d.(table := FreshTable(m), first := true))
  {
    hide Pow2, FreshTable, After;
    SmallTable(m, n);
    TableStrings(m, d, cut, n);
    TableSize(m, d, cut, n);
    StringOf(m, d, y, t);
    if y < |d.table| {
      SmallMod(y, Pow2(m + 1));
      if y < Pow2(m) {
        PixelCode(m, d, y);
        Even(m);
        if 2 * y > Pow2(m) { LongEntry(m, d, 2 * y); }
      }
    } else {
      WholeMod(Pow2(m + 1));
    }
  }

  lemma Even(m: nat)
    requires m > 0
    ensures Pow2(m) % 2 == 0
  {
  }

  lemma LongEntry(m: nat, d: Decoder, y: nat)
    requires WellFormed(m, d) && !d.done && EoiCode(m) < y < |d.table| && |d.table[y]| >= 2
    ensures |Decode(m, d, y).out| >= |d.out| + 2
  {
    hide Pow2;
  }

  /** Behind twice the code `Pow2(m - 1)`, which empties the table, the end code is read as
      the pixel 2. */
  lemma ReadTwo(m: nat, z: seq<nat>, y: nat, pad: Bits) returns (tail: Bits)
    requires 2 <= m <= 8 && y < Pow2(m) && DecoderSize(m, z) == m + 1 && !DecodeAll(m, z).done
    requires !DecodeAll(m, z + [2]).done
    ensures tail == [false] + Digits(EoiCode(m), m + 2) + pad
    ensures ReadAll(m, [Digits(y, m + 2)[m + 1]] + Digits(EoiCode(m), m + 2) + pad, z) == ReadAll(m, tail[m + 1..], z + [2])
  {
    hide *;
    var e := EoiCode(m);
    tail := [false] + Digits(e, m + 2) + pad;
    TopDigit(y, m + 1) by { Pow2Monotone(m, m + 1); }
    SmallTable(m, 0);
    ShiftedTail(false, e, m + 2, m, pad);
    EoiIs(m);
    DivMod(Pow2(m), 1, 1, e);
    NextShifted(m, z, e, 1, m, false, tail);
  }

  /** So the image ends with another pixel than `y`, or, with 2-bit pixels, one more. */
  lemma AfterEmptied(m: nat, z: seq<nat>, y: nat, pad: Bits)
    requires 2 <= m <= 8 && 2 * y == Pow2(m) && (m == 2 ==> pad == Zeros(|pad|) && |pad| >= 1)
    requires var d := DecodeAll(m, z); !d.done && d.table == FreshTable(m) && d.first
    ensures var out := DecodeAll(m, ReadAll(m, [Digits(y, m + 2)[m + 1]] + Digits(EoiCode(m), m + 2) + pad, z)).out;
            var was := DecodeAll(m, z).out;
            |out| > |was| && (out[|was|] != y || |out| >= |was| + 2)
  {
    hide DecodeAll, ReadAll, Digits, CodeSize, DecoderSize, FreshTable, Pow2, Value, EoiCode;
    SmallTable(m, 0);
    FreshSize(m, z);
    DecodeSnoc(m, z, 2);
    FirstKept(m, DecodeAll(m, z), 2);
    var tail := ReadTwo(m, z, y, pad);
    ReadExtends(m, tail[m + 1..], z + [2]);
    PrefixOut(m, z + [2], ReadAll(m, tail[m + 1..], z + [2]));
    if m == 2 {
      assert EoiCode(2) == 5 by { EoiIs(2); FourPixelValues(); }
      EndOfTwoBits(z + [2], tail, pad);
    } else {
      assert y > 2 by { FourAndMore(m); }
    }
  }

  lemma FourAndMore(m: nat)
    requires m > 2
    ensures Pow2(m) > 4
  {
    Pow2Monotone(3, m);
    assert Pow2(3) == 8;
  }

  lemma FreshSize(m: nat, z: seq<nat>)
    requires DecodeAll(m, z).table == FreshTable(m)
    ensures DecoderSize(m, z) == m + 1
  {
    hide DecodeAll;
  }

  lemma TopDigit(y: nat, w: nat)
    requires y < Pow2(w)
    ensures Digits(y, w + 1)[w] == false
  {
    DigitsBack(y, w);
    assert Digits(y, w + 1)[w..][0] == Digits(y, w + 1)[w];
  }

  lemma FirstKept(m: nat, d: Decoder, p: nat)
    requires WellFormed(m, d) && !d.done && d.first && d.table == FreshTable(m) && p < Pow2(m)
    ensures var d' := Decode(m, d, p); !d'.done && d'.table == d.table && d'.out == d.out + [p]
  {
  }

  /** The last bits of the end code 5 and one of the padding are read as the pixel 1. */
  lemma EndOfTwoBits(z: seq<nat>, tail: Bits, pad: Bits)
    requires !DecodeAll(2, z).done && DecodeAll(2, z).table == FreshTable(2)
    requires tail == [false] + Digits(5, 4) + pad && pad == Zeros(|pad|) && |pad| >= 1
    ensures |DecodeAll(2, ReadAll(2, tail[3..], z)).out| >= |DecodeAll(2, z).out| + 1
  {
    var rest := tail[3..];
    assert rest[..3] == [true, false, false] by {
      assert Digits(5, 4) == [true] + Digits(2, 3) && Digits(2, 3) == [false] + Digits(1, 2) && Digits(1, 2) == [true] + Digits(0, 1);
    }
    assert Value([true, false, false]) == 1;
    FirstSizes(2);
    hide DecodeAll, ReadAll, Digits, DecoderSize, FreshTable;
    DecoderSizeIs(2, z);
    ReadStep(2, rest, z);
    var z' := z + [1];
    ReadExtends(2, rest[3..], z');
    PrefixOut(2, z', ReadAll(2, rest, z));
    DecodeSnoc(2, z, 1);
    assert Pow2(2) == 4;
    PixelCode(2, DecodeAll(2, z), 1);
  }

  /** When the last string is another one, the decoder's output differs or its length does. */
  lemma LastOther(m: nat, c: seq<nat>, y: nat, tail: Bits, pad: Bits, cut: seq<seq<nat>>, n: nat, read: seq<nat>)
    requires 2 <= m <= 8 && n + 1 == Pow2(m) == |cut| && After(m, DecodeAll(m, c), cut, n) && cut[n] != [0] && cut[n] != []
    requires cut[n - 1] != [] && !Misread(m, cut)
    requires y != ClearCode(m) && y != EoiCode(m) && y <= |DecodeAll(m, c).table| == Pow2(m + 1)
    requires DecodeAll(m, c + [y]).out == DecodeAll(m, c).out + cut[n]
    requires ReadOn(m, c, y, tail, read) && Behind(m, y, tail, pad)
    ensures DecodeAll(m, read).out != DecodeAll(m, c + [y]).out
  {
    SmallTable(m, n);
    hide DecodeAll, ReadAll, Digits, Pow2, After, FreshTable, Twice, EoiCode;
    var d, t := DecodeAll(m, c), cut[n];
    var z := c + [Twice(y, m + 1)];
    DecodeSnoc(m, c, y);
    DecodeSnoc(m, c, Twice(y, m + 1));
    DoubledOther(m, d, cut, n, y, t);
    var d' := DecodeAll(m, z);
    if d'.done {
      assert read == z;
    } else if |t| >= 2 && Twice(y, m + 1) == 0 {
      TableStrings(m, d, cut, n);
      TableSize(m, d, cut, n);
      TakenZero(m, d);
      EndStops(m, z, Digits(y, m + 2)[m + 1], pad);
    } else {
      ReadExtends(m, tail, z);
      PrefixOut(m, z, read);
      if |d'.out| < |d.out| + 2 { AfterEmptied(m, z, y, pad); }
    }
  }

  /** Six codes of an image with 2-bit pixels and four strings have 21 bits. */
  lemma TwoBitLength(codes: seq<nat>, sizes: seq<nat>, pixels: seq<nat>, cut: seq<seq<nat>>)
    requires Encoded(2, codes, sizes, pixels) && Spelled(2, codes, cut) && |cut| == 4 && |codes| == 6
    ensures |sizes| == 6 && |CodeBits(codes, sizes)| == 21
  {
    hide Encoded, Spelled, EncoderSize, DecoderSize, DecodeAll, Pow2, CodeBits, Digits;
    FourPixelValues();
    EndSize(2, codes, sizes, pixels, cut, 3);
    TwoBitSize(codes, sizes, pixels, cut, 0);
    TwoBitSize(codes, sizes, pixels, cut, 1);
    TwoBitSize(codes, sizes, pixels, cut, 2);
    TwoBitSize(codes, sizes, pixels, cut, 3);
    EncodedSize(2, codes, sizes, pixels, 0);
    FirstSizes(2);
    assert codes[..0] == [];
    SixCodes(codes, sizes);
  }

  lemma TwoBitSize(codes: seq<nat>, sizes: seq<nat>, pixels: seq<nat>, cut: seq<seq<nat>>, j: nat)
    requires Encoded(2, codes, sizes, pixels) && Spelled(2, codes, cut) && |cut| == 4 && |codes| == 6 && j < 4
    ensures |sizes| == 6 && sizes[j + 1] == if j < 2 then 3 else 4
  {
    hide Encoded, Spelled, EncoderSize, DecoderSize, DecodeAll, Pow2;
    FourPixelValues();
    SizesAfter(2, codes, cut, j);
    EncodedSize(2, codes, sizes, pixels, j + 1);
  }

  lemma SixCodes(codes: seq<nat>, sizes: seq<nat>)
    requires |codes| == |sizes| == 6 && sizes[0] == sizes[1] == sizes[2] == 3 && sizes[3] == sizes[4] == sizes[5] == 4
    ensures |CodeBits(codes, sizes)| == 21
  {
    NoCodes();
    assert codes[..0] == [] && sizes[..0] == [] && codes[..6] == codes && sizes[..6] == sizes;
    hide CodeBits, Digits;
    CodesStep(codes, sizes, 0);
    CodesStep(codes, sizes, 1);
    CodesStep(codes, sizes, 2);
    CodesStep(codes, sizes, 3);
    CodesStep(codes, sizes, 4);
    CodesStep(codes, sizes, 5);
  }

  /** An image of exactly `Pow2(m)` strings comes back if and only if the last is the pixel 0. */
  lemma FullImageIff(m: nat, codes: seq<nat>, sizes: seq<nat>, pixels: seq<nat>, bits: Bits)
    requires 2 <= m <= 8 && Encoded(m, codes, sizes, pixels) && StringsSpelled(m, codes, Strings(m, pixels))
    requires |sizes| == |codes| && Padded(CodeBits(codes, sizes), bits) && |Strings(m, pixels)| == Pow2(m)
    ensures Decoded(m, bits) == pixels <==> Strings(m, pixels)[Pow2(m) - 1] == [0]
  {
    hide Encoded, StringsSpelled, Spelled, CodeBits, Strings, Misread, Pow2, Decoded, Padded;
    var cut := Strings(m, pixels);
    FirstSpelled(m, codes, cut);
    if Misread(m, cut) {
      PaddedBegins(CodeBits(codes, sizes), bits);
      ManyStringsMisread(m, codes, sizes, pixels, bits);
      NotZero(m, cut);
    } else {
      FullImageFrom(m, codes, sizes, pixels, cut, bits);
    }
  }

  lemma PaddedBegins(front: Bits, bits: Bits)
    requires Padded(front, bits)
    ensures front <= bits
  {
  }

  lemma FullImageFrom(m: nat, codes: seq<nat>, sizes: seq<nat>, pixels: seq<nat>, cut: seq<seq<nat>>, bits: Bits)
    requires 2 <= m <= 8 && Encoded(m, codes, sizes, pixels) && Spelled(m, codes, cut) && |sizes| == |codes|
    requires |cut| == Pow2(m) && |codes| == Pow2(m) + 2 && Padded(CodeBits(codes, sizes), bits) && !Misread(m, cut)
    ensures Decoded(m, bits) == pixels <==> cut[Pow2(m) - 1] == [0]
  {
    hide *;
    var c, y, tail, pad := FullImage(m, codes, sizes, pixels, cut, bits);
    var read := ReadAll(m, bits, []);
    assert Decoded(m, bits) == DecodeAll(m, read).out by { DecodedIs(m, bits); }
    LastDecides(m, c, y, tail, pad, cut, |cut| - 1, read);
  }

  lemma DecodedIs(m: nat, bits: Bits)
    ensures Decoded(m, bits) == DecodeAll(m, ReadAll(m, bits, [])).out
  {
    hide DecodeAll, ReadAll;
  }

  lemma LastDecides(m: nat, c: seq<nat>, y: nat, tail: Bits, pad: Bits, cut: seq<seq<nat>>, n: nat, read: seq<nat>)
    requires 2 <= m <= 8 && 0 < n && n + 1 == Pow2(m) == |cut| && After(m, DecodeAll(m, c), cut, n)
    requires cut[n] != [] && cut[n - 1] != [] && !Misread(m, cut)
    requires y != ClearCode(m) && y != EoiCode(m) && y <= |DecodeAll(m, c).table| == Pow2(m + 1)
    requires DecodeAll(m, c + [y]).out == DecodeAll(m, c).out + cut[n]
    requires ReadOn(m, c, y, tail, read) && Behind(m, y, tail, pad)
    ensures DecodeAll(m, read).out == DecodeAll(m, c + [y]).out <==> cut[n] == [0]
  {
    hide *;
    if cut[n] == [0] {
      LastZero(m, c, y, tail, pad, cut, n, read);
    } else {
      LastOther(m, c, y, tail, pad, cut, n, read);
    }
  }

  /** They are padded by three bits. */
  lemma Leftover(codes: seq<nat>, sizes: seq<nat>, pixels: seq<nat>, cut: seq<seq<nat>>, bits: Bits)
    requires Encoded(2, codes, sizes, pixels) && Spelled(2, codes, cut) && |sizes| == |codes|
    requires |cut| == Pow2(2) && |codes| == Pow2(2) + 2 && Padded(CodeBits(codes, sizes), bits)
    ensures |bits| - |CodeBits(codes, sizes)| == 3
  {
    hide Encoded, Spelled, CodeBits, Zeros, Pow2;
    FourPixelValues();
    TwoBitLength(codes, sizes, pixels, cut);
  }

  lemma FourPixelValues()
    ensures Pow2(2) == 4
  {
  }

  lemma NotZero(m: nat, all: seq<seq<nat>>)
    requires Misread(m, all)
    ensures all[Pow2(m) - 1] != [0]
  {
  }

  // ---------------------------------------------------- more than `Pow2(m)` strings

  /** String number `Pow2(m)` is the pixel 0, whose code is twice itself, but the next one does
      not survive: it begins with another pixel, and is longer or that pixel is less than half
      of `Pow2(m)`. */
  ghost predicate MisreadNext(m: nat, all: seq<seq<nat>>)
  {
    && |all| > Pow2(m) && all[Pow2(m) - 1] == [0]
    && var u := all[Pow2(m)]; u != [] && u[0] != 0 && (|u| == 1 ==> 2 * u[0] < Pow2(m))
  }

  /** The bits from which the code after `codes[n + 1]` is read, when that is the pixel 0. */
  lemma ReadBehind(m: nat, codes: seq<nat>, sizes: seq<nat>, pixels: seq<nat>, cut: seq<seq<nat>>, n: nat, bits: Bits)
    returns (tail: Bits)
    requires 2 <= m <= 8 && Encoded(m, codes, sizes, pixels) && Spelled(m, codes, cut) && CodeBits(codes, sizes) <= bits
    requires n + 1 == Pow2(m) == |cut| && |codes| >= n + 4 && codes[n + 1] == 0
    ensures |sizes| == |codes| && !DecodeAll(m, codes[..n + 2]).done
    ensures ReadAll(m, bits, []) == ReadAll(m, tail, codes[..n + 2])
    ensures sizes[n + 2] == m + 2 ==> |tail| >= m + 3 && tail[0] == false && tail[1..m + 3] == Digits(codes[n + 2], m + 2)
  {
    hide Encoded, Spelled, EncoderSize, DecoderSize, DecodeAll, ReadAll, CodeBits, Twice, After, Digits, Pow2;
    SmallTable(m, n);
    SizeAt(m, codes, sizes, pixels, cut, n + 1);
    var rest := ReadPast(m, codes, sizes, pixels, cut, n, bits);
    PrefixNext(codes, n + 1);
    TwiceZero(m + 1);
    tail := rest[2 * m + 3..];
    BitsBehind(codes, sizes, n, bits, rest, tail, m + 1);
  }

  lemma BitsBehind(codes: seq<nat>, sizes: seq<nat>, n: nat, bits: Bits, rest: Bits, tail: Bits, w: nat)
    requires |codes| == |sizes| && n + 2 < |codes| && CodeBits(codes, sizes) <= bits
    requires sizes[n] == sizes[n + 1] == w + 1 && codes[n + 1] == 0
    requires var front := |CodeBits(codes[..n], sizes[..n])|; front <= |bits| && rest == bits[front..]
    requires |rest| >= 2 * w + 2 && rest[w + 1..2 * w + 2] == Digits(0, w + 1) && tail == rest[2 * w + 1..]
    ensures sizes[n + 2] == w + 1 ==> |tail| >= w + 2 && tail[0] == false && tail[1..w + 2] == Digits(codes[n + 2], w + 1)
  {
    TopDigit(0, w);
    hide CodeBits, Digits;
    CodesStep(codes, sizes, n);
    CodesStep(codes, sizes, n + 1);
    CodeLies(codes, sizes, n + 2, bits);
    BitsShifted(bits, |CodeBits(codes[..n], sizes[..n])|, rest, tail, w, Digits(0, w + 1), Digits(codes[n + 2], sizes[n + 2]));
  }

  lemma BitsShifted(bits: Bits, front: nat, rest: Bits, tail: Bits, w: nat, y: Bits, u: Bits)
    requires front <= |bits| && rest == bits[front..] && |rest| >= 2 * w + 2 && tail == rest[2 * w + 1..]
    requires |y| == w + 1 && rest[w + 1..2 * w + 2] == y && y[w] == false
    requires var next := front + (w + 1) + (w + 1); next + |u| <= |bits| && bits[next..next + |u|] == u
    ensures |tail| >= |u| + 1 && tail[0] == false && tail[1..|u| + 1] == u
  {
    assert rest[2 * w + 1] == rest[w + 1..2 * w + 2][w];
    var next := front + (w + 1) + (w + 1);
    assert tail[1..|u| + 1] == bits[next..next + |u|];
  }

  /** What the decoder makes of twice the code of that string. */
  lemma WrongNext(m: nat, d: Decoder, cut: seq<seq<nat>>, y: nat, u: seq<nat>)
    requires 2 <= m <= 8 && |cut| == Pow2(m) && After(m, d, cut, |cut|) && cut[|cut| - 1] == [0] && WellFormed(m, d)
    requires y != ClearCode(m) && y != EoiCode(m) && y <= |d.table| && Decode(m, d, y).out == d.out + u
    requires u != [] && u[0] != 0 && (|u| == 1 ==> 2 * u[0] < Pow2(m))
    ensures var d' := Decode(m, d, Twice(y, m + 1));
            (d'.done && d'.out == d.out) || exists q :: q != u[0] && d'.out == d.out + [q]
  {
    hide Pow2, FreshTable, After, Decode, WellFormed;
    SmallTable(m, |cut|);
    TableSize(m, d, cut, |cut|);
    TableStrings(m, d, cut, |cut|);
    StringOf(m, d, y, u);
    if y < Pow2(m + 1) {
      SmallMod(y, Pow2(m + 1));
      if y < Pow2(m) {
        PixelCode(m, d, y);
        PixelCode(m, d, 2 * y);
      } else {
        BeyondStops(m, d, 2 * y);
      }
    } else if y == Pow2(m + 1) {
      WholeMod(Pow2(m + 1));
      PixelCode(m, d, 0);
    }
  }

  lemma MisreadBehind(m: nat, codes: seq<nat>, sizes: seq<nat>, pixels: seq<nat>, bits: Bits)
    requires 2 <= m <= 8 && Encoded(m, codes, sizes, pixels) && StringsSpelled(m, codes, Strings(m, pixels))
    requires CodeBits(codes, sizes) <= bits && MisreadNext(m, Strings(m, pixels))
    ensures Decoded(m, bits) != pixels
  {
    hide Encoded, Spelled, StringsSpelled, DecodeAll, Strings, ReadAll, CodeBits, Pow2, Twice, After, Digits;
    var all := Strings(m, pixels);
    SmallTable(m, 0);
    FirstSpelled(m, codes, all);
    EncodedOut(m, codes, sizes, pixels);
    var n := Pow2(m) - 1;
    var cut, u := all[..n + 1], all[n + 1];
    assert all[..n + 2][n + 1] == u;
    ZeroCode(m, codes, cut, n);
    var tail := ReadBehind(m, codes, sizes, pixels, cut, n, bits);
    SizeBehind(m, codes, sizes, pixels, cut);
    AfterStrings(m, codes, cut, n + 1);
    StringAt(m, codes, all[..n + 2], n + 1);
    StringAfter(m, codes, all[..n + 2], n + 1);
    PartOf(codes, n + 2);
    MisreadThere(m, codes[..n + 2], codes[n + 2], codes, pixels, tail, ReadAll(m, bits, []), cut, u);
  }

  lemma MisreadThere(m: nat, c: seq<nat>, y: nat, codes: seq<nat>, pixels: seq<nat>, tail: Bits, read: seq<nat>,
                     cut: seq<seq<nat>>, u: seq<nat>)
    requires 2 <= m <= 8 && |cut| == Pow2(m) && After(m, DecodeAll(m, c), cut, |cut|) && cut[|cut| - 1] == [0]
    requires y != ClearCode(m) && y != EoiCode(m) && y <= |DecodeAll(m, c).table|
    requires DecodeAll(m, c + [y]).out == DecodeAll(m, c).out + u && u != [] && u[0] != 0 && (|u| == 1 ==> 2 * u[0] < Pow2(m))
    requires c + [y] <= codes && DecodeAll(m, codes).out == pixels && read == ReadAll(m, tail, c)
    requires DecoderSize(m, c) == m + 2 && |tail| >= m + 3 && tail[0] == false && tail[1..m + 3] == Digits(y, m + 2)
    ensures DecodeAll(m, read).out != pixels
  {
    hide DecodeAll, ReadAll, Pow2, After, Digits, DecoderSize, Twice, EoiCode, FreshTable;
    var d, z := DecodeAll(m, c), c + [Twice(y, m + 1)];
    TableStrings(m, d, cut, |cut|);
    ReadThere(m, c, y, tail);
    DecodeSnoc(m, c, y);
    DecodeSnoc(m, c, Twice(y, m + 1));
    WrongNext(m, d, cut, y, u);
    PrefixOut(m, c + [y], codes);
    PrefixOut(m, z, read);
    WrongOut(d.out, u, pixels, DecodeAll(m, z).out, DecodeAll(m, read).out, DecodeAll(m, z).done);
  }

  lemma ReadThere(m: nat, c: seq<nat>, y: nat, tail: Bits)
    requires DecoderSize(m, c) == m + 2 && |tail| >= m + 3 && tail[0] == false && tail[1..m + 3] == Digits(y, m + 2)
    requires !DecodeAll(m, c).done
    ensures var z, read := c + [Twice(y, m + 1)], ReadAll(m, tail, c);
            z <= read && (DecodeAll(m, z).done ==> read == z)
  {
    DigitsFront(y, m + 1, m + 2);
    hide DecodeAll, ReadAll, Pow2, Digits, DecoderSize;
    assert tail[1..m + 2] == tail[1..m + 3][..m + 1];
    NextShifted(m, c, y, y % Pow2(m + 1), m + 1, false, tail);
  }

  lemma ZeroCode(m: nat, codes: seq<nat>, cut: seq<seq<nat>>, n: nat)
    requires 2 <= m <= 8 && n + 1 == Pow2(m) == |cut| && Spelled(m, codes, cut) && cut[n] == [0]
    ensures |codes| > n + 1 && codes[n + 1] == 0
  {
    assert |codes| > |cut|;
    hide Spelled, DecodeAll, Pow2, After, FreshTable;
    SmallTable(m, n);
    AfterStrings(m, codes, cut, n);
    StringAt(m, codes, cut, n);
    StringAt(m, codes, cut, n - 1);
    CodeBelow(m, codes, cut, n);
    var d, y := DecodeAll(m, codes[..n + 1]), codes[n + 1];
    TableSize(m, d, cut, n);
    TableStrings(m, d, cut, n);
    DecodeSnoc(m, codes[..n + 1], y);
    StringOf(m, d, y, [0]);
    if y < Pow2(m) { PixelCode(m, d, y); }
  }

  /** Both sides have `m + 2` bits for the code after `Pow2(m)` strings. */
  lemma SizeBehind(m: nat, codes: seq<nat>, sizes: seq<nat>, pixels: seq<nat>, cut: seq<seq<nat>>)
    requires 2 <= m <= 8 && Encoded(m, codes, sizes, pixels) && Spelled(m, codes, cut)
    requires |cut| == Pow2(m) && |codes| >= Pow2(m) + 3
    ensures |sizes| == |codes| && sizes[Pow2(m) + 1] == DecoderSize(m, codes[..Pow2(m) + 1]) == m + 2
  {
    hide Encoded, Spelled, EncoderSize, DecoderSize, DecodeAll, Pow2, After, CodeSize;
    var j, c := |cut|, codes[..|cut| + 1];
    SmallTable(m, j);
    AfterStrings(m, codes, cut, j);
    TableSize(m, DecodeAll(m, c), cut, j);
    EncodedSize(m, codes, sizes, pixels, j + 1);
    EncoderSizeIs(m, c);
    DecoderSizeIs(m, c);
    SecondSize(m);
    Pow2Doubles(m + 1);
    SizeGrows(m, Pow2(m + 1) + 1);
  }

  lemma StringAfter(m: nat, codes: seq<nat>, cut: seq<seq<nat>>, j: nat)
    requires Spelled(m, codes, cut) && j < |cut|
    ensures codes[j + 1] <= |DecodeAll(m, codes[..j + 1]).table|
  {
    hide DecodeAll;
    assert Says(m, codes, j + 1, cut[j]);
    PrefixNext(codes, j + 1);
    DecodeSnoc(m, codes[..j + 1], codes[j + 1]);
    hide Pow2;
  }

  // -------------------------------------------------------------- whole images

  /** The bytes are the codes of the image, in the sizes the encoder holds, and zeros. */
  ghost predicate IsStream(m: nat, pixels: seq<nat>, data: seq<nat>)
  {
    exists codes, sizes :: Holds(m, pixels, data, codes, sizes)
  }

  ghost predicate Holds(m: nat, pixels: seq<nat>, data: seq<nat>, codes: seq<nat>, sizes: seq<nat>)
  {
    && |codes| == |sizes| && Padded(CodeBits(codes, sizes), ByteBits(data))
    && Encoded(m, codes, sizes, pixels) && StringsSpelled(m, codes, Strings(m, pixels))
  }

  /** `gifLzwEncode` with its `emit` calls. */
  method EncodePixels(m: nat, pixels: seq<nat>) returns (data: seq<nat>)
    requires 2 <= m <= 8 && forall p :: p in pixels ==> p < Pow2(m)
    ensures Bytes(data) && IsStream(m, pixels, data)
  {
    hide StringsSpelled, CodeBits, ByteBits, Pow2, DecodeAll, EncoderSize, DecoderSize, Strings;
    var codes, sizes := LzwEncode(m, pixels);
    data := Pack(codes, sizes);
    assert Holds(m, pixels, data, codes, sizes);
  }

  /** Sub-blocks rejoined and decoded, whatever follows them in the file. */
  method DecodePixels(m: nat, d: seq<nat>, start: nat) returns (out: seq<nat>)
    requires start <= |d| && Bytes(d)
    ensures out == Decoded(m, ByteBits(Joined(d[start..]).0))
  {
    hide Decoded, ByteBits;
    var stream, pos := ReadSubBlocks(d, start);
    JoinedBytes(d[start..]);
    out := LzwDecode(m, stream);
  }

  lemma {:induction false} JoinedBytes(d: seq<nat>)
    requires Bytes(d)
    ensures Bytes(Joined(d).0)
    decreases |d|
  {
    if d != [] && d[0] != 0 && 1 + d[0] <= |d| {
      JoinedBytes(d[1 + d[0]..]);
      assert Joined(d).0 == d[1..1 + d[0]] + Joined(d[1 + d[0]..]).0;
    }
  }

  /** The whole way of an image to the bytes of its file and back.  Fewer than `Pow2(m)`
      strings, so also fewer than `Pow2(m)` pixels, come back; exactly so many do if and only if
      the last string is the pixel 0; and an image whose string number `Pow2(m)` is misread, or
      after a pixel 0 the next, does not. */
  method RoundTrip(m: nat, pixels: seq<nat>) returns (out: seq<nat>)
    requires 2 <= m <= 8 && forall p :: p in pixels ==> p < Pow2(m)
    ensures |Strings(m, pixels)| < Pow2(m) ==> out == pixels
    ensures |pixels| < Pow2(m) ==> out == pixels
    ensures |Strings(m, pixels)| == Pow2(m) ==> (out == pixels <==> Strings(m, pixels)[Pow2(m) - 1] == [0])
    ensures Misread(m, Strings(m, pixels)) || MisreadNext(m, Strings(m, pixels)) ==> out != pixels
  {
    hide Encoded, StringsSpelled, CodeBits, ByteBits, Pow2, Strings, SubBlocks, Joined, Misread, MisreadNext, Decoded, Padded;
    var data := EncodePixels(m, pixels);
    var body := WriteSubBlocks(data);
    JoinInvertsCut(data, []);
    SubBlocksBytes(data);
    assert SubBlocks(data) + [] == body && body[0..] == body;
    out := DecodePixels(m, body, 0);
    ghost var codes, sizes :| Holds(m, pixels, data, codes, sizes);
    StringsFew(m, pixels);
    PaddedBegins(CodeBits(codes, sizes), ByteBits(data));
    if |Strings(m, pixels)| < Pow2(m) { FewStrings(m, codes, sizes, pixels, ByteBits(data)); }
    if |Strings(m, pixels)| == Pow2(m) { FullImageIff(m, codes, sizes, pixels, ByteBits(data)); }
    if Misread(m, Strings(m, pixels)) { ManyStringsMisread(m, codes, sizes, pixels, ByteBits(data)); }
    if MisreadNext(m, Strings(m, pixels)) { MisreadBehind(m, codes, sizes, pixels, ByteBits(data)); }
  }

  lemma StringsFew(m: nat, pixels: seq<nat>)
    requires forall p :: p in pixels ==> p < Pow2(m)
    ensures |Strings(m, pixels)| <= |pixels|
  {
    CutsFew(FreshDict(m).Keys, [], pixels);
  }

  lemma {:induction false} SubBlocksBytes(data: seq<nat>)
    requires Bytes(data)
    ensures Bytes(SubBlocks(data))
    decreases |data|
  {
    if data != [] {
      var n := if |data| < BLOCK_LIMIT then |data| else BLOCK_LIMIT;
      SubBlocksBytes(data[n..]);
    }
  }

  /** The pixels 0, 1, 2, 1 of an image with 2-bit pixels do not come back from its bytes. */
  method FourPixels() returns (out: seq<nat>)
    ensures out != [0, 1, 2, 1]
  {
    FourStrings();
    FourMisread();
    hide Misread, Strings;
    assert Pow2(2) == 4;
    out := RoundTrip(2, [0, 1, 2, 1]);
  }

  lemma FreshKeys(m: nat, t: seq<nat>)
    ensures t in FreshDict(m) <==> |t| == 1 && t[0] < Pow2(m)
  {
    if |t| == 1 { assert t == [t[0]]; }
  }

  /** Nor do 0, 0, 2, 0, 1, though string number 4 is the pixel 0. */
  method FivePixels() returns (out: seq<nat>)
    ensures out != [0, 0, 2, 0, 1]
  {
    FiveStrings();
    FiveMisread();
    hide MisreadNext, Strings;
    assert Pow2(2) == 4;
    out := RoundTrip(2, [0, 0, 2, 0, 1]);
  }

  lemma CutsHere(known: set<seq<nat>>, w: seq<nat>, wc: seq<nat>, p: nat, rest: seq<nat>)
    requires wc == w + [p] && wc !in known
    ensures Cuts(known, w, [p] + rest) == [w] + Cuts(known + {wc}, [p], rest)
  {
    assert ([p] + rest)[1..] == rest;
  }

  lemma CutsFirst(m: nat, p: nat, rest: seq<nat>)
    requires p < Pow2(m)
    ensures Strings(m, [p] + rest) == Cuts(FreshDict(m).Keys, [p], rest)
  {
    FreshKeys(m, [] + [p]);
    assert ([p] + rest)[1..] == rest && [] + [p] == [p];
  }

  lemma FourStrings()
    ensures Strings(2, [0, 1, 2, 1]) == [[0], [1], [2], [1]]
  {
    assert Pow2(2) == 4;
    var known := FreshDict(2).Keys;
    FreshKeys(2, [0, 1]);
    FreshKeys(2, [1, 2]);
    FreshKeys(2, [2, 1]);
    var k1, k2 := known + {[0, 1]}, known + {[0, 1]} + {[1, 2]};
    hide *;
    CutsLast(k2 + {[2, 1]}, [1]);
    CutsHere(k2, [2], [2, 1], 1, []);
    CutsHere(k1, [1], [1, 2], 2, [1]);
    CutsHere(known, [0], [0, 1], 1, [2, 1]);
    CutsFirst(2, 0, [1, 2, 1]);
    assert [[0]] + ([[1]] + ([[2]] + [[1]])) == [[0], [1], [2], [1]];
  }

  lemma FourMisread()
    ensures Misread(2, [[0], [1], [2], [1]])
  {
    assert Pow2(2) == 4;
  }

  lemma CutsLast(known: set<seq<nat>>, w: seq<nat>)
    requires w != []
    ensures Cuts(known, w, []) == [w]
  {
  }

  lemma FiveStrings()
    ensures Strings(2, [0, 0, 2, 0, 1]) == [[0], [0], [2], [0], [1]]
  {
    assert Pow2(2) == 4;
    var known := FreshDict(2).Keys;
    FreshKeys(2, [0, 0]);
    FreshKeys(2, [0, 2]);
    FreshKeys(2, [2, 0]);
    FreshKeys(2, [0, 1]);
    var k1, k2, k3 := known + {[0, 0]}, known + {[0, 0]} + {[0, 2]}, known + {[0, 0]} + {[0, 2]} + {[2, 0]};
    hide *;
    CutsLast(k3 + {[0, 1]}, [1]);
    CutsHere(k3, [0], [0, 1], 1, []);
    CutsHere(k2, [2], [2, 0], 0, [1]);
    CutsHere(k1, [0], [0, 2], 2, [0, 1]);
    CutsHere(known, [0], [0, 0], 0, [2, 0, 1]);
    CutsFirst(2, 0, [0, 2, 0, 1]);
    assert [[0]] + ([[0]] + ([[2]] + ([[0]] + [[1]]))) == [[0], [0], [2], [0], [1]];
  }

  lemma FiveMisread()
    ensures MisreadNext(2, [[0], [0], [2], [0], [1]])
  {
    assert Pow2(2) == 4;
  }
}
