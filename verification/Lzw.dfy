/** The LZW coder of GIF images, on code sequences: the decoder's dictionary lags the
    encoder's by one entry, and still every emitted code decodes to its pixels. */
module Lzw {
  import opened Powers

  const TABLE_LIMIT := 4096

  function ClearCode(m: nat): nat { Pow2(m) }

  function EoiCode(m: nat): nat { Pow2(m) + 1 }

  /** The dictionary after a clear: one string per pixel value, none for the two control
      codes.  Its length is the next free code. */
  function FreshTable(m: nat): (t: seq<seq<nat>>)
    ensures |t| == Pow2(m) + 2
    ensures forall c :: 0 <= c < Pow2(m) ==> t[c] == [c]
    ensures t[ClearCode(m)] == [] && t[EoiCode(m)] == []
  {
    seq(Pow2(m), c requires 0 <= c => [c]) + [[], []]
  }

  // ------------------------------------------------------------------ decoding

  datatype Decoder = Decoder(table: seq<seq<nat>>, prev: seq<nat>, first: bool, out: seq<nat>, done: bool)

  ghost predicate WellFormed(m: nat, d: Decoder)
  {
    && |d.table| >= Pow2(m) + 2
    && (forall c :: 0 <= c < |d.table| && c != ClearCode(m) && c != EoiCode(m) ==> d.table[c] != [])
    && (!d.first ==> d.prev != [])
  }

  function Start(m: nat): (d: Decoder)
    ensures WellFormed(m, d)
  {
    Decoder(FreshTable(m), [], true, [], false)
  }

  function Take(d: Decoder, entry: seq<nat>): Decoder
    requires entry != []
  {
    d.(table := if !d.first && |d.table| < TABLE_LIMIT then d.table + [d.prev + [entry[0]]] else d.table,
       prev := entry, first := false, out := d.out + entry)
  }

  /** One code: the rules of `gifLzwDecode`. */
  function Decode(m: nat, d: Decoder, code: nat): (d': Decoder)
    requires WellFormed(m, d)
    ensures WellFormed(m, d')
  {
    if d.done then d
    else if code == ClearCode(m) then d.(table := FreshTable(m), first := true)
    else if code == EoiCode(m) then d.(done := true)
    else if code < |d.table| then Take(d, d.table[code])
    else if code == |d.table| && !d.first then Take(d, d.prev + [d.prev[0]])
    else d.(done := true)
  }

  function DecodeAll(m: nat, codes: seq<nat>): (d: Decoder)
    ensures WellFormed(m, d)
  {
    if codes == [] then Start(m) else Decode(m, DecodeAll(m, codes[..|codes| - 1]), codes[|codes| - 1])
  }

  lemma DecodeSnoc(m: nat, codes: seq<nat>, code: nat)
    ensures DecodeAll(m, codes + [code]) == Decode(m, DecodeAll(m, codes), code)
  {
    assert (codes + [code])[..|codes|] == codes;
  }

  lemma {:induction false} DecodeDone(m: nat, codes: seq<nat>, more: seq<nat>)
    requires DecodeAll(m, codes).done
    ensures DecodeAll(m, codes + more) == DecodeAll(m, codes)
    decreases |more|
  {
    if more == [] {
      assert codes + more == codes;
    } else {
      var k := |more| - 1;
      DecodeDone(m, codes, more[..k]);
      DecodeSnoc(m, codes + more[..k], more[k]);
      assert codes + more == codes + more[..k] + [more[k]];
    }
  }

  /** What one code does: the rules of the format, entry by entry.  A table of 4096 entries takes
      no more until it is cleared. */
  lemma DecodeRules(m: nat, d: Decoder, code: nat)
    requires WellFormed(m, d) && !d.done
    ensures var d', known := Decode(m, d, code), code < |d.table| || (code == |d.table| && !d.first);
            && (code == Pow2(m) ==> d' == d.(table := FreshTable(m), first := true))
            && (code == Pow2(m) + 1 ==> d' == d.(done := true))
            && (code != Pow2(m) && code != Pow2(m) + 1 && !known ==> d' == d.(done := true))
            && (code != Pow2(m) && code != Pow2(m) + 1 && known ==>
                  var entry := if code < |d.table| then d.table[code] else d.prev + [d.prev[0]];
                  && entry != [] && d'.out == d.out + entry && d'.prev == entry && !d'.first && !d'.done
                  && d'.table == if !d.first && |d.table| < 4096 then d.table + [d.prev + [entry[0]]] else d.table)
  {
  }

  /** Over any codes none of which clears it, a full table stays as it is. */
  lemma {:induction false} FullKept(m: nat, codes: seq<nat>, more: seq<nat>)
    requires |DecodeAll(m, codes).table| >= 4096 && ClearCode(m) !in more
    ensures DecodeAll(m, codes + more).table == DecodeAll(m, codes).table
    decreases |more|
  {
    if more == [] {
      assert codes + more == codes;
    } else {
      var k := |more| - 1;
      assert more == more[..k] + [more[k]];
      FullKept(m, codes, more[..k]);
      DecodeSnoc(m, codes + more[..k], more[k]);
      assert codes + more == codes + more[..k] + [more[k]];
      if !DecodeAll(m, codes + more[..k]).done { DecodeRules(m, DecodeAll(m, codes + more[..k]), more[k]); }
      hide DecodeAll, Pow2;
    }
  }

  // ---------------------------------------------------------------- code sizes

  /** The code size both sides hold when their next free code is `next`: it starts at
      `m + 1` and grows, up to 12, whenever the next code reaches its power of two. */
  function CodeSize(m: nat, next: nat): (size: nat)
    ensures size >= 1 && (m + 1 <= 12 ==> m + 1 <= size <= 12)
  {
    if next <= Pow2(m) + 2 then m + 1
    else
      var size := CodeSize(m, next - 1);
      if next == Pow2(size) && size < 12 then size + 1 else size
  }

  /** The codes below `next` fit the size, which is the least that they fit, but at least
      `m + 1` and at most 12. */
  lemma {:induction false} CodeSizeLeast(m: nat, next: nat)
    requires 2 <= m <= 8 && next >= Pow2(m) + 2
    ensures CodeSize(m, next) == 12 || next < Pow2(CodeSize(m, next))
    ensures CodeSize(m, next) == m + 1 || Pow2(CodeSize(m, next) - 1) <= next
    decreases next
  {
    hide Pow2;
    if next > Pow2(m) + 2 {
      CodeSizeLeast(m, next - 1);
      Pow2Doubles(CodeSize(m, next - 1));
      Pow2Doubles(CodeSize(m, next - 1) - 1);
    } else {
      FreshFits(m);
    }
  }

  /** The size the decoder reads the code after `codes` with. */
  function DecoderSize(m: nat, codes: seq<nat>): nat
  {
    CodeSize(m, |DecodeAll(m, codes).table|)
  }

  /** The size the encoder writes the code after `codes` with: its table is one ahead. */
  function EncoderSize(m: nat, codes: seq<nat>): nat
  {
    var d := DecodeAll(m, codes);
    CodeSize(m, |d.table| + if d.first then 0 else 1)
  }

  /** The two sizes differ exactly where the encoder's table has just filled its code size. */
  lemma SizesAgreeIff(m: nat, codes: seq<nat>)
    ensures EncoderSize(m, codes) != DecoderSize(m, codes) <==>
            var d := DecodeAll(m, codes);
            !d.first && |d.table| + 1 == Pow2(DecoderSize(m, codes)) && DecoderSize(m, codes) < 12
  {
  }

  // ------------------------------------------------------------------ encoding

  /** The encoder's dictionary inverts `table`. */
  ghost predicate Inverts(m: nat, dict: map<seq<nat>, nat>, table: seq<seq<nat>>)
  {
    && |table| >= Pow2(m) + 2
    && table[ClearCode(m)] == [] && table[EoiCode(m)] == []
    && (forall s :: s in dict ==> s != [] && dict[s] < |table| && table[dict[s]] == s)
    && (forall x: nat :: x < Pow2(m) ==> [x] in dict)
  }

  /** The encoder's table is the decoder's, plus the entry the decoder cannot know yet: the
      string it decoded last and the first pixel of the pending one. */
  ghost predicate Lags(d: Decoder, table: seq<seq<nat>>, w: seq<nat>)
  {
    if d.first then table == d.table
    else w != [] && d.prev != [] && table == d.table + [d.prev + [w[0]]]
  }

  function FreshDict(m: nat): (dict: map<seq<nat>, nat>)
    ensures Inverts(m, dict, FreshTable(m))
  {
    var dict := map x | 0 <= x < Pow2(m) :: [x] := x;
    assert forall x: nat :: x < Pow2(m) ==> dict[[x]] == x;
    dict
  }

  /** Emitting the pending string: the decoder outputs it and catches up with the table. */
  lemma EmitDecodes(m: nat, dict: map<seq<nat>, nat>, table: seq<seq<nat>>, w: seq<nat>, d: Decoder)
    requires WellFormed(m, d) && !d.done && Inverts(m, dict, table) && w in dict && Lags(d, table, w)
    requires |table| <= TABLE_LIMIT
    ensures Decode(m, d, dict[w]) == Decoder(table, w, false, d.out + w, false)
  {
    var c := dict[w];
    assert table[c] == w && c != ClearCode(m) && c != EoiCode(m);
    if c < |d.table| {
      assert d.table[c] == w;
    } else {
      assert w == d.prev + [w[0]];
      assert w[0] == d.prev[0];
    }
  }

  /** Adding an entry keeps the dictionary the inverse of the table. */
  lemma InvertsGrow(m: nat, dict: map<seq<nat>, nat>, table: seq<seq<nat>>, s: seq<nat>)
    requires Inverts(m, dict, table) && s !in dict && s != []
    ensures Inverts(m, dict[s := |table|], table + [s])
  {
  }

  lemma FreshFits(m: nat)
    requires 2 <= m <= 8
    ensures Pow2(m) + 2 < Pow2(m + 1)
  {
    assert Pow2(2) == 4;
    Pow2Monotone(2, m);
    Pow2Doubles(m);
  }

  lemma PowerValues()
    ensures Pow2(12) == TABLE_LIMIT && Pow2(11) == 2048 && Pow2(8) == 256
  {
  }

  /** A table that is not full has codes that fit its code size. */
  lemma {:induction false} CodesFit(m: nat, next: nat)
    requires 2 <= m <= 8 && Pow2(m) + 2 <= next < TABLE_LIMIT
    ensures next < Pow2(CodeSize(m, next))
  {
    PowerValues();
    hide Pow2;
    if next == Pow2(m) + 2 {
      FreshFits(m);
    } else {
      CodesFit(m, next - 1);
      Pow2Doubles(CodeSize(m, next - 1));
    }
  }

  /** A code table that is full has 12-bit codes. */
  lemma FullTable(m: nat)
    requires 2 <= m <= 8
    ensures CodeSize(m, TABLE_LIMIT) == 12 && Pow2(12) == TABLE_LIMIT && ClearCode(m) < TABLE_LIMIT
    ensures EoiCode(m) + 1 < TABLE_LIMIT
  {
    hide Pow2;
    PowerValues();
    Pow2Monotone(m, 8);
    CodesFit(m, TABLE_LIMIT - 1);
    var size := CodeSize(m, TABLE_LIMIT - 1);
    if size < 12 {
      Pow2Monotone(size, 11);
    }
  }

  /** What the encoder has written so far: each code fits its size, and each size is the one
      the encoder holds at that point. */
  ghost predicate Emitted(m: nat, codes: seq<nat>, sizes: seq<nat>)
  {
    && |sizes| == |codes|
    && (forall i :: 0 <= i < |codes| ==> codes[i] < Pow2(sizes[i]) && sizes[i] <= 12)
    && (forall i :: 0 <= i < |codes| ==> sizes[i] == EncoderSize(m, codes[..i]))
  }

  lemma EmittedSnoc(m: nat, codes: seq<nat>, sizes: seq<nat>, code: nat)
    requires Emitted(m, codes, sizes) && code < Pow2(EncoderSize(m, codes)) && EncoderSize(m, codes) <= 12
    ensures Emitted(m, codes + [code], sizes + [EncoderSize(m, codes)])
  {
    var codes', sizes' := codes + [code], sizes + [EncoderSize(m, codes)];
    forall i | 0 <= i < |codes'| ensures sizes'[i] == EncoderSize(m, codes'[..i]) {
      assert codes'[..i] == codes[..i];
      assert codes[..|codes|] == codes;
    }
  }

  /** What holds between two pixels of `gifLzwEncode`, when `done` were encoded. */
  ghost predicate Encoding(m: nat, dict: map<seq<nat>, nat>, table: seq<seq<nat>>, w: seq<nat>,
                           codes: seq<nat>, sizes: seq<nat>, done: seq<nat>)
  {
    var d := DecodeAll(m, codes);
    && Inverts(m, dict, table) && |table| < TABLE_LIMIT
    && !d.done && Lags(d, table, w)
    && (w != [] ==> w in dict) && (w == [] ==> done == [])
    && Emitted(m, codes, sizes)
    && d.out + w == done
  }

  lemma EncodingStarts(m: nat)
    requires 2 <= m <= 8
    ensures Encoding(m, FreshDict(m), FreshTable(m), [], [ClearCode(m)], [m + 1], [])
  {
    FullTable(m);
    DecodeSnoc(m, [], ClearCode(m));
    assert [] + [ClearCode(m)] == [ClearCode(m)];
    CodesFit(m, Pow2(m) + 2);
    EmittedSnoc(m, [], [], ClearCode(m));
    assert [] + [m + 1] == [m + 1];
  }

  lemma EncodingExtends(m: nat, dict: map<seq<nat>, nat>, table: seq<seq<nat>>, w: seq<nat>,
                        codes: seq<nat>, sizes: seq<nat>, done: seq<nat>, p: nat)
    requires Encoding(m, dict, table, w, codes, sizes, done) && w + [p] in dict
    ensures Encoding(m, dict, table, w + [p], codes, sizes, done + [p])
  {
    assert DecodeAll(m, codes).out + (w + [p]) == DecodeAll(m, codes).out + w + [p];
  }

  /** Emitting the pending string and adding an entry for it and the next pixel. */
  lemma EmitAndGrow(m: nat, dict: map<seq<nat>, nat>, table: seq<seq<nat>>, w: seq<nat>,
                    codes: seq<nat>, sizes: seq<nat>, done: seq<nat>, p: nat)
    requires 2 <= m <= 8 && p < Pow2(m)
    requires Encoding(m, dict, table, w, codes, sizes, done) && w + [p] !in dict
    ensures w in dict
    ensures var codes', table' := codes + [dict[w]], table + [w + [p]];
            && DecodeAll(m, codes') == Decoder(table, w, false, done, false)
            && Inverts(m, dict[w + [p] := |table|], table')
            && Emitted(m, codes', sizes + [CodeSize(m, |table|)])
  {
    assert [] + [p] == [p];
    hide Inverts, Lags, Emitted;
    assert w in dict by { PixelInDict(m, dict, table, p); }
    var d := DecodeAll(m, codes);
    DecodeSnoc(m, codes, dict[w]);
    EmitDecodes(m, dict, table, w, d);
    InvertsGrow(m, dict, table, w + [p]);
    EmittedString(m, dict, table, w, codes, sizes);
  }

  lemma PixelInDict(m: nat, dict: map<seq<nat>, nat>, table: seq<seq<nat>>, p: nat)
    requires Inverts(m, dict, table) && p < Pow2(m)
    ensures [p] in dict
  {
  }

  lemma EmittedString(m: nat, dict: map<seq<nat>, nat>, table: seq<seq<nat>>, w: seq<nat>, codes: seq<nat>,
                      sizes: seq<nat>)
    requires 2 <= m <= 8 && Inverts(m, dict, table) && |table| < TABLE_LIMIT && w in dict
    requires Lags(DecodeAll(m, codes), table, w) && Emitted(m, codes, sizes)
    ensures Emitted(m, codes + [dict[w]], sizes + [CodeSize(m, |table|)])
  {
    hide Emitted, DecodeAll, Pow2, CodeSize;
    assert dict[w] < |table|;
    CodesFit(m, |table|);
    assert EncoderSize(m, codes) == CodeSize(m, |table|);
    hide Inverts, Lags;
    EmittedSnoc(m, codes, sizes, dict[w]);
  }

  /** What emitting the pending string does to the decoder. */
  lemma LastStringSays(m: nat, dict: map<seq<nat>, nat>, table: seq<seq<nat>>, w: seq<nat>,
                       codes: seq<nat>, sizes: seq<nat>, done: seq<nat>)
    requires 2 <= m <= 8 && w != [] && Encoding(m, dict, table, w, codes, sizes, done)
    ensures w in dict && dict[w] != ClearCode(m) && dict[w] != EoiCode(m)
    ensures var d, d' := DecodeAll(m, codes), DecodeAll(m, codes + [dict[w]]); !d.done && !d'.done && d'.out == d.out + w
  {
    assert dict[w] != ClearCode(m) && dict[w] != EoiCode(m);
    hide Inverts, Lags, Emitted;
    DecodeSnoc(m, codes, dict[w]);
    EmitDecodes(m, dict, table, w, DecodeAll(m, codes));
  }

  lemma EmitsString(m: nat, dict: map<seq<nat>, nat>, table: seq<seq<nat>>, w: seq<nat>,
                    codes: seq<nat>, sizes: seq<nat>, done: seq<nat>, p: nat)
    requires 2 <= m <= 8 && p < Pow2(m) && Encoding(m, dict, table, w, codes, sizes, done) && w + [p] !in dict
    ensures w != [] && w in dict && dict[w] != ClearCode(m) && dict[w] != EoiCode(m)
    ensures var d, d' := DecodeAll(m, codes), DecodeAll(m, codes + [dict[w]]); !d.done && !d'.done && d'.out == d.out + w
  {
    assert [] + [p] == [p];
    assert w != [] by { PixelInDict(m, dict, table, p); }
    hide Encoding;
    LastStringSays(m, dict, table, w, codes, sizes, done);
  }

  /** How the encoder's code size follows its next free code. */
  lemma SizeGrows(m: nat, next: nat)
    requires next >= Pow2(m) + 2
    ensures CodeSize(m, next + 1) ==
            var size := CodeSize(m, next); if next + 1 == Pow2(size) && size < 12 then size + 1 else size
    ensures CodeSize(m, Pow2(m) + 2) == m + 1
  {
  }

  /** A string emitted while the table has room for its entry. */
  lemma EncodingGrows(m: nat, dict: map<seq<nat>, nat>, table: seq<seq<nat>>, w: seq<nat>,
                      codes: seq<nat>, sizes: seq<nat>, done: seq<nat>, p: nat)
    requires 2 <= m <= 8 && p < Pow2(m) && |table| + 1 < TABLE_LIMIT
    requires Encoding(m, dict, table, w, codes, sizes, done) && w + [p] !in dict
    ensures w in dict && |table| >= Pow2(m) + 2
    ensures Encoding(m, dict[w + [p] := |table|], table + [w + [p]], [p], codes + [dict[w]],
                     sizes + [CodeSize(m, |table|)], done + [p])
  {
    EmitAndGrow(m, dict, table, w, codes, sizes, done, p);
    PixelInDict(m, dict, table, p);
    assert |table| >= Pow2(m) + 2;
    hide Inverts, Emitted, DecodeAll;
  }

  /** A string whose entry fills the table is followed by a clear code. */
  lemma EncodingClears(m: nat, dict: map<seq<nat>, nat>, table: seq<seq<nat>>, w: seq<nat>,
                       codes: seq<nat>, sizes: seq<nat>, done: seq<nat>, p: nat)
    requires 2 <= m <= 8 && p < Pow2(m) && |table| + 1 == TABLE_LIMIT
    requires Encoding(m, dict, table, w, codes, sizes, done) && w + [p] !in dict
    ensures w in dict && |table| >= Pow2(m) + 2
    ensures Encoding(m, FreshDict(m), FreshTable(m), [p], codes + [dict[w]] + [ClearCode(m)],
                     sizes + [CodeSize(m, |table|)] + [12], done + [p])
  {
    EmitAndGrow(m, dict, table, w, codes, sizes, done, p);
    assert |table| >= Pow2(m) + 2;
    var codes', sizes' := codes + [dict[w]], sizes + [CodeSize(m, |table|)];
    FullTable(m);
    hide DecodeAll, Pow2, CodeSize, Inverts, Emitted, Encoding;
    DecodeSnoc(m, codes', ClearCode(m));
    EncoderSizeIs(m, codes');
    EmittedSnoc(m, codes', sizes', ClearCode(m));
    ClearedEncoding(m, codes' + [ClearCode(m)], sizes' + [12], done, p);
  }

  lemma EncoderSizeIs(m: nat, codes: seq<nat>)
    ensures EncoderSize(m, codes) ==
            CodeSize(m, |DecodeAll(m, codes).table| + if DecodeAll(m, codes).first then 0 else 1)
  {
  }

  lemma ClearedEncoding(m: nat, codes: seq<nat>, sizes: seq<nat>, done: seq<nat>, p: nat)
    requires 2 <= m <= 8 && p < Pow2(m) && Emitted(m, codes, sizes)
    requires var d := DecodeAll(m, codes); !d.done && d.first && d.table == FreshTable(m) && d.out == done
    ensures Encoding(m, FreshDict(m), FreshTable(m), [p], codes, sizes, done + [p])
  {
    FullTable(m);
    PixelInDict(m, FreshDict(m), FreshTable(m), p);
    hide Emitted, DecodeAll, Pow2;
  }

  /** What the two sides agree on when encoding is over. */
  ghost predicate Encoded(m: nat, codes: seq<nat>, sizes: seq<nat>, pixels: seq<nat>)
  {
    && |sizes| == |codes| > 0
    && DecodeAll(m, codes).out == pixels && DecodeAll(m, codes).done
    && (forall i :: 0 <= i < |codes| ==> codes[i] < Pow2(sizes[i]) && sizes[i] <= 12)
    && (forall i :: 0 <= i < |codes| - 1 ==> sizes[i] == EncoderSize(m, codes[..i]))
    && codes[|codes| - 1] == EoiCode(m)
    && sizes[|codes| - 1] == DecoderSize(m, codes[..|codes| - 1])
  }

  lemma EmittedThen(m: nat, codes: seq<nat>, sizes: seq<nat>, code: nat, size: nat, i: nat)
    requires Emitted(m, codes, sizes) && i < |codes|
    ensures |sizes| == |codes|
    ensures var codes', sizes' := codes + [code], sizes + [size];
            sizes'[i] == EncoderSize(m, codes'[..i]) && codes'[i] < Pow2(sizes'[i]) && sizes'[i] <= 12
  {
    EmittedLength(m, codes, sizes);
    hide Emitted, EncoderSize;
    EmittedAt(m, codes, sizes, i);
    assert (codes + [code])[..i] == codes[..i];
  }

  lemma EncodingEnds(m: nat, codes: seq<nat>, sizes: seq<nat>, size: nat)
    requires 2 <= m <= 8 && Emitted(m, codes, sizes) && !DecodeAll(m, codes).done
    requires size == DecoderSize(m, codes) && |DecodeAll(m, codes).table| < TABLE_LIMIT
    ensures Encoded(m, codes + [EoiCode(m)], sizes + [size], DecodeAll(m, codes).out)
  {
    hide DecodeAll, Pow2, CodeSize, EoiCode, DecoderSize, EncoderSize, Emitted;
    var codes', sizes' := codes + [EoiCode(m)], sizes + [size];
    EoiEnds(m, codes);
    EmittedLength(m, codes, sizes);
    assert codes'[..|codes|] == codes;
    forall i | 0 <= i < |codes|
      ensures sizes'[i] == EncoderSize(m, codes'[..i]) && codes'[i] < Pow2(sizes'[i]) && sizes'[i] <= 12
    {
      EmittedThen(m, codes, sizes, EoiCode(m), size, i);
    }
  }

  lemma EmittedLength(m: nat, codes: seq<nat>, sizes: seq<nat>)
    requires Emitted(m, codes, sizes)
    ensures |sizes| == |codes|
  {
  }

  lemma EmittedAt(m: nat, codes: seq<nat>, sizes: seq<nat>, i: nat)
    requires Emitted(m, codes, sizes) && i < |codes| == |sizes|
    ensures sizes[i] == EncoderSize(m, codes[..i]) && codes[i] < Pow2(sizes[i]) && sizes[i] <= 12
  {
  }

  lemma EoiEnds(m: nat, codes: seq<nat>)
    requires 2 <= m <= 8 && !DecodeAll(m, codes).done && |DecodeAll(m, codes).table| < TABLE_LIMIT
    ensures DecodeAll(m, codes + [EoiCode(m)]) == DecodeAll(m, codes).(done := true)
    ensures EoiCode(m) < Pow2(DecoderSize(m, codes)) && DecoderSize(m, codes) <= 12
  {
    DecodeSnoc(m, codes, EoiCode(m));
    CodesFit(m, |DecodeAll(m, codes).table|);
  }

  /** The last string is emitted without a new entry. */
  lemma LastString(m: nat, dict: map<seq<nat>, nat>, table: seq<seq<nat>>, w: seq<nat>,
                   codes: seq<nat>, sizes: seq<nat>, done: seq<nat>)
    requires 2 <= m <= 8 && w != [] && Encoding(m, dict, table, w, codes, sizes, done)
    ensures w in dict && Emitted(m, codes + [dict[w]], sizes + [CodeSize(m, |table|)])
    ensures DecodeAll(m, codes + [dict[w]]) == Decoder(table, w, false, done, false)
  {
    hide Inverts, Lags, Emitted;
    DecodeSnoc(m, codes, dict[w]);
    EmitDecodes(m, dict, table, w, DecodeAll(m, codes));
    EmittedString(m, dict, table, w, codes, sizes);
  }

  lemma NothingPending(m: nat, dict: map<seq<nat>, nat>, table: seq<seq<nat>>, codes: seq<nat>, sizes: seq<nat>,
                       done: seq<nat>)
    requires Encoding(m, dict, table, [], codes, sizes, done)
    ensures done == DecodeAll(m, codes).out && !DecodeAll(m, codes).done && Emitted(m, codes, sizes)
    ensures |DecodeAll(m, codes).table| == |table| < TABLE_LIMIT
  {
    assert DecodeAll(m, codes).out + [] == DecodeAll(m, codes).out;
  }

  lemma DecoderSizeIs(m: nat, codes: seq<nat>)
    ensures DecoderSize(m, codes) == CodeSize(m, |DecodeAll(m, codes).table|)
  {
  }

  // ------------------------------------------------------- the strings of an image

  /** What greedy parsing cuts the pixels into, when `w` is pending and `known` are the strings
      in the dictionary, which is never cleared. */
  function Cuts(known: set<seq<nat>>, w: seq<nat>, pixels: seq<nat>): seq<seq<nat>>
    decreases |pixels|
  {
    if pixels == [] then (if w == [] then [] else [w])
    else
      var wc := w + [pixels[0]];
      if wc in known then Cuts(known, wc, pixels[1..]) else [w] + Cuts(known + {wc}, [pixels[0]], pixels[1..])
  }

  function Strings(m: nat, pixels: seq<nat>): seq<seq<nat>>
  {
    Cuts(FreshDict(m).Keys, [], pixels)
  }

  /** Each code after the first, which clears, has so far been decoded to its string. */
  ghost predicate Spelled(m: nat, codes: seq<nat>, cut: seq<seq<nat>>)
  {
    && |codes| > |cut| && codes[0] == ClearCode(m)
    && forall j :: 0 <= j < |cut| ==> Says(m, codes, j + 1, cut[j])
  }

  ghost predicate Says(m: nat, codes: seq<nat>, j: nat, t: seq<nat>)
    requires j < |codes|
  {
    var d, d' := DecodeAll(m, codes[..j]), DecodeAll(m, codes[..j + 1]);
    && codes[j] != ClearCode(m) && codes[j] != EoiCode(m) && t != []
    && !d.done && !d'.done && d'.out == d.out + t
  }

  lemma SpelledMore(m: nat, codes: seq<nat>, more: seq<nat>, cut: seq<seq<nat>>)
    requires Spelled(m, codes, cut)
    ensures Spelled(m, codes + more, cut)
  {
    hide DecodeAll;
    var codes' := codes + more;
    assert codes'[0] == codes[0];
    forall j | 0 <= j < |cut| ensures Says(m, codes', j + 1, cut[j]) {
      assert Says(m, codes, j + 1, cut[j]);
      assert codes'[..j + 1] == codes[..j + 1] && codes'[..j + 2] == codes[..j + 2];
    }
  }

  lemma SpelledNext(m: nat, codes: seq<nat>, code: nat, cut: seq<seq<nat>>, t: seq<nat>)
    requires Spelled(m, codes, cut) && |codes| == |cut| + 1 && code != ClearCode(m) && code != EoiCode(m) && t != []
    requires var d, d' := DecodeAll(m, codes), DecodeAll(m, codes + [code]); !d.done && !d'.done && d'.out == d.out + t
    ensures Spelled(m, codes + [code], cut + [t])
  {
    SpelledMore(m, codes, [code], cut);
    hide DecodeAll;
    var codes', cut' := codes + [code], cut + [t];
    assert codes'[..|codes|] == codes && codes'[..|codes| + 1] == codes';
    forall j | 0 <= j < |cut'| ensures Says(m, codes', j + 1, cut'[j]) {
      if j < |cut| { assert Says(m, codes', j + 1, cut[j]); }
    }
  }

  /** The strings that the dictionary has room for before it is cleared. */
  function Room(m: nat): int
  {
    TABLE_LIMIT - (Pow2(m) + 2)
  }

  /** How far the encoder has got with the strings of the image: `cut` were emitted, and all
      there are at least as long as the dictionary was not `cleared`. */
  ghost predicate Cutting(m: nat, known: set<seq<nat>>, room: int, w: seq<nat>, codes: seq<nat>, rest: seq<nat>,
                          all: seq<seq<nat>>, cut: seq<seq<nat>>, cleared: bool)
  {
    && cut <= all && Spelled(m, codes, cut)
    && if cleared then |cut| >= Room(m)
       else |codes| == |cut| + 1 && room == Pow2(m) + 2 + |cut| && cut + Cuts(known, w, rest) == all
  }

  lemma CuttingStarts(m: nat, pixels: seq<nat>)
    requires 2 <= m
    ensures Cutting(m, FreshDict(m).Keys, Pow2(m) + 2, [], [ClearCode(m)], pixels, Strings(m, pixels), [], false)
  {
    assert [] + Strings(m, pixels) == Strings(m, pixels);
  }

  lemma CuttingExtends(m: nat, known: set<seq<nat>>, room: int, w: seq<nat>, codes: seq<nat>, rest: seq<nat>,
                       all: seq<seq<nat>>, cut: seq<seq<nat>>, cleared: bool)
    requires Cutting(m, known, room, w, codes, rest, all, cut, cleared) && rest != [] && w + [rest[0]] in known
    ensures Cutting(m, known, room, w + [rest[0]], codes, rest[1..], all, cut, cleared)
  {
    hide Spelled;
  }

  /** One more string is emitted, and noted until the dictionary is cleared. */
  lemma CuttingEmits(m: nat, known: set<seq<nat>>, room: int, w: seq<nat>, codes: seq<nat>, rest: seq<nat>,
                     all: seq<seq<nat>>, cut: seq<seq<nat>>, cleared: bool, code: nat) returns (cut': seq<seq<nat>>)
    requires Cutting(m, known, room, w, codes, rest, all, cut, cleared) && rest != [] && w + [rest[0]] !in known
    requires code != ClearCode(m) && code != EoiCode(m) && w != []
    requires var d, d' := DecodeAll(m, codes), DecodeAll(m, codes + [code]); !d.done && !d'.done && d'.out == d.out + w
    ensures Cutting(m, known + {w + [rest[0]]}, room + 1, [rest[0]], codes + [code], rest[1..], all, cut', cleared)
  {
    hide Spelled, DecodeAll;
    if cleared {
      hide Cuts;
      SpelledMore(m, codes, [code], cut);
      cut' := cut;
    } else {
      SpelledNext(m, codes, code, cut, w);
      cut' := cut + [w];
      var more := Cuts(known + {w + [rest[0]]}, [rest[0]], rest[1..]);
      assert Cuts(known, w, rest) == [w] + more;
      assert cut' + more == cut + ([w] + more);
    }
  }

  lemma CuttingClears(m: nat, known: set<seq<nat>>, known': set<seq<nat>>, room: int, room': int, w: seq<nat>, codes: seq<nat>,
                      rest: seq<nat>, all: seq<seq<nat>>, cut: seq<seq<nat>>, cleared: bool, code: nat)
    requires Cutting(m, known, room, w, codes, rest, all, cut, cleared) && 2 <= m <= 8 && room == TABLE_LIMIT
    ensures Cutting(m, known', room', w, codes + [code], rest, all, cut, true)
  {
    SpelledMore(m, codes, [code], cut);
    hide Spelled, Pow2;
  }

  /** The first strings of the image are the first codes: all of them, if the dictionary has
      room for more, and at least so many as it has room for else. */
  ghost predicate StringsSpelled(m: nat, codes: seq<nat>, all: seq<seq<nat>>)
  {
    && (|all| < Room(m) ==> |codes| == |all| + 2 && Spelled(m, codes, all))
    && (0 <= Room(m) <= |all| ==> Spelled(m, codes, all[..Room(m)]))
  }

  /** In particular the first `Pow2(m)` strings. */
  lemma FirstSpelled(m: nat, codes: seq<nat>, all: seq<seq<nat>>)
    requires 2 <= m <= 8 && StringsSpelled(m, codes, all)
    ensures |all| <= Pow2(m) ==> |codes| == |all| + 2 && Spelled(m, codes, all)
    ensures |all| >= Pow2(m) ==> |codes| >= Pow2(m) + 2 && Spelled(m, codes, all[..Pow2(m)])
    ensures |all| > Pow2(m) ==> |codes| >= Pow2(m) + 3 && Spelled(m, codes, all[..Pow2(m) + 1])
  {
    PowerValues();
    Pow2Monotone(m, 8);
    hide Pow2, DecodeAll;
    if |all| < Room(m) {
      if |all| >= Pow2(m) { FirstOf(m, codes, all, all, Pow2(m)); }
      if |all| > Pow2(m) { FirstOf(m, codes, all, all, Pow2(m) + 1); }
    } else {
      FirstOf(m, codes, all, all[..Room(m)], Pow2(m));
      FirstOf(m, codes, all, all[..Room(m)], Pow2(m) + 1);
    }
  }

  lemma FirstOf(m: nat, codes: seq<nat>, all: seq<seq<nat>>, cut: seq<seq<nat>>, k: nat)
    requires Spelled(m, codes, cut) && cut <= all && k <= |cut|
    ensures Spelled(m, codes, all[..k])
  {
    hide Spelled;
    SpelledPart(m, codes, cut, k);
    assert cut[..k] == all[..k];
  }

  lemma SpelledPart(m: nat, codes: seq<nat>, cut: seq<seq<nat>>, k: nat)
    requires Spelled(m, codes, cut) && k <= |cut|
    ensures Spelled(m, codes, cut[..k])
  {
    hide DecodeAll;
    forall j | 0 <= j < k ensures Says(m, codes, j + 1, cut[..k][j]) { assert Says(m, codes, j + 1, cut[j]); }
  }

  lemma CuttingEnds(m: nat, known: set<seq<nat>>, room: int, w: seq<nat>, codes: seq<nat>, all: seq<seq<nat>>,
                    cut: seq<seq<nat>>, cleared: bool, last: seq<nat>)
    requires Cutting(m, known, room, w, codes, [], all, cut, cleared)
    requires |last| == 2 && w != [] ==> last[0] != ClearCode(m) && last[0] != EoiCode(m)
    requires |last| == if w == [] then 1 else 2
    requires w != [] ==>
               var d, d' := DecodeAll(m, codes), DecodeAll(m, codes + [last[0]]); !d.done && !d'.done && d'.out == d.out + w
    ensures StringsSpelled(m, codes + last, all)
  {
    hide DecodeAll, Pow2;
    if cleared {
      SpelledMore(m, codes, last, cut);
      if Room(m) >= 0 {
        SpelledPart(m, codes + last, cut, Room(m));
        assert cut[..Room(m)] == all[..Room(m)];
      }
    } else {
      if w == [] {
        assert cut == all;
        SpelledMore(m, codes, last, cut);
      } else {
        SpelledNext(m, codes, last[0], cut, w);
        assert cut + [w] == all;
        SpelledMore(m, codes + [last[0]], [last[1]], all);
        assert codes + [last[0]] + [last[1]] == codes + last;
      }
      if 0 <= Room(m) <= |all| { SpelledPart(m, codes + last, all, Room(m)); }
    }
  }

  /** `gifLzwEncode`: the emitted codes and the size each is written with.  Decoding the
      codes gives back the pixels; end-of-information, the last code, is always written
      with the size the decoder reads it with. */
  method LzwEncode(m: nat, pixels: seq<nat>) returns (codes: seq<nat>, sizes: seq<nat>)
    requires 2 <= m <= 8 && forall p :: p in pixels ==> p < Pow2(m)
    ensures Encoded(m, codes, sizes, pixels) && StringsSpelled(m, codes, Strings(m, pixels))
  {
    hide Cutting, StringsSpelled, Strings;
    hide Encoding, Encoded, Emitted, DecodeAll, Pow2, FreshDict, FreshTable, CodeSize, EncoderSize, DecoderSize;
    var dict: map<seq<nat>, nat> := FreshDict(m);
    var codeSize := m + 1;
    codes, sizes := [ClearCode(m)], [codeSize];
    ghost var table := FreshTable(m);
    var nextCode := EoiCode(m) + 1;
    EncodingStarts(m);
    SizeGrows(m, |table|);
    var w: seq<nat> := [];
    var i := 0;
    ghost var all, cut: seq<seq<nat>>, cleared := Strings(m, pixels), [], false;
    CuttingStarts(m, pixels);
    assert pixels[0..] == pixels;
    while i < |pixels|
      invariant 0 <= i <= |pixels|
      invariant Cutting(m, dict.Keys, nextCode, w, codes, pixels[i..], all, cut, cleared)
      invariant Encoding(m, dict, table, w, codes, sizes, pixels[..i])
      invariant nextCode == |table| < TABLE_LIMIT && codeSize == CodeSize(m, |table|)
    {
      var p := pixels[i];
      var wc := w + [p];
      ghost var done := pixels[..i];
      assert p in pixels && pixels[..i + 1] == done + [p];
      assert pixels[i..][0] == p && pixels[i..][1..] == pixels[i + 1..];
      if wc in dict {
        CuttingExtends(m, dict.Keys, nextCode, w, codes, pixels[i..], all, cut, cleared);
        EncodingExtends(m, dict, table, w, codes, sizes, done, p);
        w := wc;
      } else {
        if |table| + 1 < TABLE_LIMIT {
          EncodingGrows(m, dict, table, w, codes, sizes, done, p);
        } else {
          EncodingClears(m, dict, table, w, codes, sizes, done, p);
          FullTable(m);
        }
        SizeGrows(m, |table|);
        EmitsString(m, dict, table, w, codes, sizes, done, p);
        cut := CuttingEmits(m, dict.Keys, nextCode, w, codes, pixels[i..], all, cut, cleared, dict[w]);
        assert dict[wc := nextCode].Keys == dict.Keys + {wc};
        codes, sizes := codes + [dict[w]], sizes + [codeSize];
        if nextCode < TABLE_LIMIT {
          dict := dict[wc := nextCode];
          nextCode := nextCode + 1;
          if nextCode == Pow2(codeSize) && codeSize < 12 {
            codeSize := codeSize + 1;
          }
        }
        table := table + [wc];
        w := [p];
        if nextCode >= TABLE_LIMIT {
          CuttingClears(m, dict.Keys, FreshDict(m).Keys, nextCode, EoiCode(m) + 1, w, codes, pixels[i + 1..], all, cut, cleared,
                        ClearCode(m));
          cleared := true;
          codes, sizes := codes + [ClearCode(m)], sizes + [codeSize];
          dict := FreshDict(m);
          table := FreshTable(m);
          nextCode := EoiCode(m) + 1;
          codeSize := m + 1;
        }
      }
      i := i + 1;
    }
    assert pixels[..i] == pixels && pixels[i..] == [];
    DecoderSizeIs(m, codes);
    if w != [] {
      LastStringSays(m, dict, table, w, codes, sizes, pixels);
      CuttingEnds(m, dict.Keys, nextCode, w, codes, all, cut, cleared, [dict[w], EoiCode(m)]);
      assert codes + [dict[w], EoiCode(m)] == codes + [dict[w]] + [EoiCode(m)];
      LastString(m, dict, table, w, codes, sizes, pixels);
      DecoderSizeIs(m, codes + [dict[w]]);
      codes, sizes := codes + [dict[w]], sizes + [codeSize];
    } else {
      CuttingEnds(m, dict.Keys, nextCode, w, codes, all, cut, cleared, [EoiCode(m)]);
      NothingPending(m, dict, table, codes, sizes, pixels);
    }
    EncodingEnds(m, codes, sizes, codeSize);
    codes, sizes := codes + [EoiCode(m)], sizes + [codeSize];
  }
}
