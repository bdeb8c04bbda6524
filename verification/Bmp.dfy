/** Uncompressed BMP files, written and read. */
module Bmp {
  import opened Bytes
  import opened Common
  import Powers

  /** A pixel as the surface stores it, colours multiplied by the opacity. */
  datatype Pixel = Pixel(a: byte, r: byte, g: byte, b: byte)

  datatype Image = Image(w: nat, h: nat, argb: bool, rows: seq<seq<Pixel>>)

  ghost predicate Valid(img: Image)
  {
    |img.rows| == img.h && forall y :: 0 <= y < img.h ==> |img.rows[y]| == img.w
  }

  /** The colour read off the surface. */
  function Read(p: Pixel): (byte, byte, byte)
  {
    if p.a == 0 || p.a == 255 then (p.r, p.g, p.b)
    else (p.r * 255 / p.a % 256, p.g * 255 / p.a % 256, p.b * 255 / p.a % 256)
  }

  /** Colours of a pixel that is partly transparent are scaled up again, rounded down; all others
      are read as they are. */
  lemma ReadScales(p: Pixel)
    ensures p.a == 0 || p.a == 255 ==> Read(p) == (p.r, p.g, p.b)
    ensures 0 < p.a < 255 && p.r <= p.a ==> Read(p).0 * p.a as int <= p.r * 255 as int < (Read(p).0 + 1 as int) * p.a
    ensures 0 < p.a < 255 && p.g <= p.a ==> Read(p).1 * p.a as int <= p.g * 255 as int < (Read(p).1 + 1 as int) * p.a
    ensures 0 < p.a < 255 && p.b <= p.a ==> Read(p).2 * p.a as int <= p.b * 255 as int < (Read(p).2 + 1 as int) * p.a
  {
    if 0 < p.a < 255 {
      if p.r <= p.a { Scaled(p.r, p.a); }
      if p.g <= p.a { Scaled(p.g, p.a); }
      if p.b <= p.a { Scaled(p.b, p.a); }
    }
  }

  lemma Scaled(c: int, a: int)
    requires 0 <= c <= a && 0 < a
    ensures var v := c * 255 / a; v % 256 == v && v * a <= c * 255 < (v + 1) * a
  {
    var v := c * 255 / a;
    assert c * 255 == v * a + c * 255 % a;
    if v >= 256 { Larger(v, a); }
  }

  lemma Larger(v: int, a: int)
    requires v >= 256 && a > 0
    ensures v * a >= 256 * a
  {
  }

  /** An opaque pixel written to the surface. */
  function Opaque(r: byte, g: byte, b: byte): Pixel
  {
    Pixel(255, (r * 255 + 127) / 255, (g * 255 + 127) / 255, (b * 255 + 127) / 255)
  }

  /** Opaque colours are stored as they are. */
  lemma OpaqueStored(r: byte, g: byte, b: byte)
    ensures Opaque(r, g, b) == Pixel(255, r, g, b) && Read(Opaque(r, g, b)) == (r, g, b)
  {
  }

  // ------------------------------------------------------------------ writing

  function Depth(img: Image): nat
  {
    if img.argb then 32 else 24
  }

  function RowBytes(w: nat, bits: nat): (n: nat)
    ensures n >= w * bits / 8
  {
    (w * bits + 31) / 32 * 4
  }

  /** The fewest bytes that hold the row and are a multiple of four. */
  lemma RowBytesLeast(w: nat, bits: nat)
    ensures RowBytes(w, bits) % 4 == 0 && w * bits <= 8 * RowBytes(w, bits) < w * bits + 32
  {
    Quarters(w * bits);
  }

  lemma Quarters(k: nat)
    ensures var n := (k + 31) / 32 * 4; n % 4 == 0 && k <= 8 * n < k + 32
  {
  }

  /** The sizes fit the header's fields and the encoder's arithmetic. */
  ghost predicate Fits(img: Image)
  {
    && img.w * Depth(img) + 31 < 0x8000_0000 && img.h < 0x8000_0000
    && RowBytes(img.w, Depth(img)) * img.h < 0x7FFF_FF00
  }

  function Header(w: nat, h: nat, bits: nat): (b: seq<byte>)
    ensures |b| == 54
  {
    var pixelBytes := RowBytes(w, bits) * h;
    ['B' as int, 'M' as int] + Le32(54 + pixelBytes) + Le32(0) + Le32(54) + Le32(40) + Le32(w) + Le32(h)
    + Le16(1) + Le16(bits) + Le32(0) + Le32(pixelBytes) + Le32(2835) + Le32(2835) + Le32(0) + Le32(0)
  }

  /** A pixel's colours at offset `o`. */
  ghost predicate PixelIn(row: seq<byte>, o: int, c: (byte, byte, byte), bits: nat)
  {
    && 0 <= o && o + 2 < |row| && (row[o + 2], row[o + 1], row[o]) == c
    && (bits == 32 ==> o + 3 < |row| && row[o + 3] == 0)
  }

  /** The row's colours in order, blue first, and zeros up to its full length. */
  ghost predicate IsRow(row: seq<byte>, pixels: seq<Pixel>, bits: nat, n: nat)
  {
    && |row| == RowBytes(|pixels|, bits) && n <= |pixels|
    && (forall x :: 0 <= x < n ==> PixelIn(row, x * (bits / 8), Read(pixels[x]), bits))
    && forall o :: 0 <= o < |row| && n * (bits / 8) <= o ==> row[o] == 0
  }

  method EncodeRow(pixels: seq<Pixel>, bits: nat) returns (row: seq<byte>)
    requires bits == 24 || bits == 32
    ensures IsRow(row, pixels, bits, |pixels|)
  {
    hide Read, IsRow;
    BlankRow(pixels, bits);
    row := seq(RowBytes(|pixels|, bits), _ => 0);
    for x := 0 to |pixels|
      invariant IsRow(row, pixels, bits, x)
    {
      RowLength(row, pixels, bits, x);
      PixelFits(|pixels|, x, bits);
      PixelStored(row, pixels, bits, x);
      var c := Read(pixels[x]);
      var o := x * (bits / 8);
      row := row[o := c.2][o + 1 := c.1][o + 2 := c.0];
      if bits == 32 { row := row[o + 3 := 0]; }
    }
  }

  lemma BlankRow(pixels: seq<Pixel>, bits: nat)
    requires bits == 24 || bits == 32
    ensures IsRow(seq(RowBytes(|pixels|, bits), _ => 0), pixels, bits, 0)
  {
    hide RowBytes;
  }

  lemma RowLength(row: seq<byte>, pixels: seq<Pixel>, bits: nat, n: nat)
    requires (bits == 24 || bits == 32) && IsRow(row, pixels, bits, n)
    ensures |row| == RowBytes(|pixels|, bits)
  {
  }

  lemma PixelFits(w: nat, x: nat, bits: nat)
    requires x < w && (bits == 24 || bits == 32)
    ensures x * (bits / 8) + bits / 8 <= RowBytes(w, bits)
  {
  }

  lemma PixelStored(row: seq<byte>, pixels: seq<Pixel>, bits: nat, x: nat)
    requires bits == 24 || bits == 32
    requires x < |pixels| && x * (bits / 8) + bits / 8 <= |row| && IsRow(row, pixels, bits, x)
    ensures var c, o := Read(pixels[x]), x * (bits / 8);
            var row' := row[o := c.2][o + 1 := c.1][o + 2 := c.0];
            IsRow(if bits == 32 then row'[o + 3 := 0] else row', pixels, bits, x + 1)
  {
    hide Read, RowBytes;
    var c, n := Read(pixels[x]), bits / 8;
    var o := x * n;
    var three := row[o := c.2][o + 1 := c.1][o + 2 := c.0];
    var row' := if bits == 32 then three[o + 3 := 0] else three;
    OneMoreRow(x, n);
    assert forall k :: 0 <= k < |row| && !(o <= k < o + n) ==> row'[k] == row[k];
    assert row'[o] == c.2 && row'[o + 1] == c.1 && row'[o + 2] == c.0 && (bits == 32 ==> row'[o + 3] == 0);
    forall x' | 0 <= x' < x + 1
      ensures PixelIn(row', x' * n, Read(pixels[x']), bits)
    {
      if x' < x {
        OneMoreRow(x', n);
        RowOrder(x' + 1, x, n);
      }
    }
  }

  /** Behind the header come the rows from the bottom up. */
  ghost predicate IsFile(d: seq<byte>, img: Image)
    requires Valid(img)
  {
    exists rows {:trigger Flatten(rows)} :: d == Header(img.w, img.h, Depth(img)) + Flatten(rows) && AreRows(rows, img)
  }

  ghost predicate AreRows(rows: seq<seq<byte>>, img: Image)
    requires Valid(img)
  {
    |rows| == img.h && forall r :: 0 <= r < img.h ==> IsRow(rows[r], img.rows[img.h - 1 - r], Depth(img), img.w)
  }

  method EncodeBmp(img: Image) returns (out: seq<byte>)
    requires Valid(img) && Fits(img)
    ensures IsFile(out, img)
    ensures |out| >= 54 && out[28..30] == [if img.argb then 32 else 24, 0]
  {
    hide IsRow, Header, Flatten, Fits, RowBytes;
    out := Header(img.w, img.h, Depth(img));
    ghost var rows: seq<seq<byte>> := [];
    JoinedSteps(rows, []);
    var y := img.h - 1;
    while y >= 0
      invariant -1 <= y < img.h && |rows| == img.h - 1 - y
      invariant out == Header(img.w, img.h, Depth(img)) + Flatten(rows)
      invariant forall r :: 0 <= r < |rows| ==> IsRow(rows[r], img.rows[img.h - 1 - r], Depth(img), img.w)
    {
      var row := EncodeRow(img.rows[y], Depth(img));
      JoinedSteps(rows, row);
      rows := rows + [row];
      out := out + row;
      y := y - 1;
    }
    assert AreRows(rows, img);
    HeaderDepth(img);
    PrefixSlice(Header(img.w, img.h, Depth(img)), out, 28, 30);
  }

  lemma HeaderDepth(img: Image)
    ensures |Header(img.w, img.h, Depth(img))| == 54
    ensures Header(img.w, img.h, Depth(img))[28..30] == [if img.argb then 32 else 24, 0]
  {
    hide Header, RowBytes, Le32;
    HeaderParts(img.w, img.h, Depth(img));
  }

  lemma JoinedSteps(rows: seq<seq<byte>>, row: seq<byte>)
    ensures Flatten<byte>([]) == [] && Flatten(rows + [row]) == Flatten(rows) + row
  {
    assert (rows + [row])[..|rows|] == rows;
  }

  // ------------------------------------------------------------------ reading

  /** `Compressed` stands for the run-length decoders, which are not modelled. */
  datatype Result = Ok(img: Image) | Invalid | Compressed

  function Signed(v: nat): int
  {
    if v < 0x8000_0000 then v else v - 0x1_0000_0000
  }

  const BLANK := Pixel(0, 0, 0, 0)

  /** The opaque pixel whose blue, green and red bytes begin at `o`. */
  function Bgr(d: seq<byte>, o: nat): Pixel
  {
    Opaque(At(d, o + 2), At(d, o + 1), At(d, o))
  }

  /** The pixel of palette entry `index`, if the file has it. */
  function Looked(d: seq<byte>, palOff: nat, index: nat): Pixel
  {
    if palOff + index * 4 + 3 > |d| then BLANK else Bgr(d, palOff + index * 4)
  }

  /** The pixel `x` of the row of bytes that begins at `base`. */
  function PixelAt(d: seq<byte>, bits: nat, palOff: nat, base: nat, x: nat): Pixel
  {
    if bits == 24 then Bgr(d, base + x * 3)
    else if bits == 32 then Bgr(d, base + x * 4)
    else if bits == 8 then Looked(d, palOff, At(d, base + x))
    else if bits == 4 then Looked(d, palOff, if x % 2 == 1 then At(d, base + x / 2) % 16 else At(d, base + x / 2) / 16)
    else if bits == 1 then Looked(d, palOff, At(d, base + x / 8) / [128, 64, 32, 16, 8, 4, 2, 1][x % 8] % 2)
    else BLANK
  }

  datatype Fields = Fields(dataOff: nat, palOff: nat, width: int, h: int, topDown: bool, bits: nat, compression: nat)

  function FieldsOf(d: seq<byte>): Fields
  {
    var height := Signed(Rd32(d, 22));
    Fields(Rd32(d, 10), (14 + Rd32(d, 14)) % 0x1_0000_0000, Signed(Rd32(d, 18)), if height < 0 then -height else height,
           height < 0, Rd16(d, 28), Rd32(d, 30))
  }

  /** The fields byte by byte, the lowest first; a negative height means that the rows come from
      the top down. */
  lemma FieldsAre(d: seq<byte>)
    requires |d| >= 54
    ensures var f := FieldsOf(d);
            var height := d[22] as int + 0x100 * d[23] as int + 0x1_0000 * d[24] as int + 0x100_0000 * d[25] as int
                          - if d[25] >= 128 then 0x1_0000_0000 else 0;
            && f.dataOff == d[10] as int + 0x100 * d[11] as int + 0x1_0000 * d[12] as int + 0x100_0000 * d[13] as int
            && f.width == d[18] as int + 0x100 * d[19] as int + 0x1_0000 * d[20] as int + 0x100_0000 * d[21] as int
                          - (if d[21] >= 128 then 0x1_0000_0000 else 0)
            && (f.topDown <==> height < 0) && f.h == (if height < 0 then -height else height)
            && f.bits == d[28] as int + 0x100 * d[29] as int
            && f.compression == d[30] as int + 0x100 * d[31] as int + 0x1_0000 * d[32] as int + 0x100_0000 * d[33] as int
            && f.palOff == (14 + d[14] as int + 0x100 * d[15] as int + 0x1_0000 * d[16] as int + 0x100_0000 * d[17] as int)
                           % 0x1_0000_0000
  {
  }

  /** Where a pixel's colours are: in the row itself, or in the palette under its index. */
  lemma PixelBytes(d: seq<byte>, bits: nat, palOff: nat, base: nat, x: nat)
    requires base + x * 4 + 3 < |d|
    ensures bits == 24 ==> var o := base + x * 3; PixelAt(d, bits, palOff, base, x) == Pixel(255, d[o + 2], d[o + 1], d[o])
    ensures bits == 32 ==> var o := base + x * 4; PixelAt(d, bits, palOff, base, x) == Pixel(255, d[o + 2], d[o + 1], d[o])
    ensures bits == 8 ==> PixelAt(d, bits, palOff, base, x) == Looked(d, palOff, d[base + x])
    ensures bits !in {1, 4, 8, 24, 32} ==> PixelAt(d, bits, palOff, base, x) == Pixel(0, 0, 0, 0)
  {
    hide Opaque;
    OpaqueStored(At(d, base + x * 3 + 2), At(d, base + x * 3 + 1), At(d, base + x * 3));
    OpaqueStored(At(d, base + x * 4 + 2), At(d, base + x * 4 + 1), At(d, base + x * 4));
  }

  lemma PaletteBytes(d: seq<byte>, palOff: nat, index: nat)
    ensures var o := palOff + 4 * index;
            Looked(d, palOff, index) == if o + 3 <= |d| then Pixel(255, d[o + 2], d[o + 1], d[o]) else Pixel(0, 0, 0, 0)
  {
    hide Opaque;
    var o := palOff + index * 4;
    OpaqueStored(At(d, o + 2), At(d, o + 1), At(d, o));
  }

  /** Two pixels share a byte, the left one in its upper half. */
  lemma TwoOfByte(d: seq<byte>, palOff: nat, base: nat, k: nat) returns (p: nat, q: nat)
    requires base + k < |d|
    ensures p < 16 && q < 16 && 16 * p + q == d[base + k] as int
    ensures PixelAt(d, 4, palOff, base, 2 * k) == Looked(d, palOff, p) && PixelAt(d, 4, palOff, base, 2 * k + 1) == Looked(d, palOff, q)
  {
    hide Looked;
    p, q := d[base + k] / 16, d[base + k] % 16;
  }

  /** Eight do, the leftmost in its highest bit. */
  lemma EightOfByte(d: seq<byte>, palOff: nat, base: nat, k: nat) returns (p: seq<nat>)
    requires base + k < |d|
    ensures |p| == 8 && (forall i :: 0 <= i < 8 ==> p[i] < 2)
    ensures 128 * p[0] + 64 * p[1] + 32 * p[2] + 16 * p[3] + 8 * p[4] + 4 * p[5] + 2 * p[6] + p[7] == d[base + k] as int
    ensures forall i :: 0 <= i < 8 ==> PixelAt(d, 1, palOff, base, 8 * k + i) == Looked(d, palOff, p[i])
  {
    hide Looked;
    var b: int := d[base + k];
    p := seq(8, i requires 0 <= i < 8 => b / [128, 64, 32, 16, 8, 4, 2, 1][i] % 2);
    assert p == [b / 128 % 2, b / 64 % 2, b / 32 % 2, b / 16 % 2, b / 8 % 2, b / 4 % 2, b / 2 % 2, b % 2];
    EightBits(b);
    hide PixelAt;
    forall i | 0 <= i < 8 ensures PixelAt(d, 1, palOff, base, 8 * k + i) == Looked(d, palOff, p[i]) {
      InByte(k, i);
      BitOf(d, palOff, base, k, i);
    }
  }

  lemma InByte(k: nat, i: nat)
    requires i < 8
    ensures (8 * k + i) / 8 == k && (8 * k + i) % 8 == i
  {
  }

  lemma BitOf(d: seq<byte>, palOff: nat, base: nat, k: nat, i: nat)
    requires base + k < |d| && i < 8 && (8 * k + i) / 8 == k && (8 * k + i) % 8 == i
    ensures PixelAt(d, 1, palOff, base, 8 * k + i) == Looked(d, palOff, d[base + k] / [128, 64, 32, 16, 8, 4, 2, 1][i] % 2)
  {
    hide Looked;
  }

  lemma EightBits(b: int)
    requires 0 <= b < 256
    ensures 128 * (b / 128 % 2) + 64 * (b / 64 % 2) + 32 * (b / 32 % 2) + 16 * (b / 16 % 2)
            + 8 * (b / 8 % 2) + 4 * (b / 4 % 2) + 2 * (b / 2 % 2) + b % 2 == b
  {
    HalfOf(b, 1);
    HalfOf(b, 2);
    HalfOf(b, 4);
    HalfOf(b, 8);
    HalfOf(b, 16);
    HalfOf(b, 32);
    HalfOf(b, 64);
  }

  lemma HalfOf(b: int, n: int)
    requires b >= 0 && n > 0
    ensures b / n == 2 * (b / (2 * n)) + b / n % 2
  {
    var q, r := b / n / 2, b / n % 2;
    assert b == n * (b / n) + b % n;
    Powers.MulAssociates(n, 2, q);
    Powers.DivMod(2 * n, q, n * r + b % n, b);
  }

  function PaletteFits(d: seq<byte>, f: Fields): bool
  {
    f.bits <= 8 ==>
      var used := Rd32(d, 46);
      var count := if used != 0 then used else [1, 2, 4, 8, 16, 32, 64, 128, 256][f.bits];
      f.palOff + count * 4 <= |d|
  }

  /** The file's header can be read. */
  predicate Readable(d: seq<byte>)
  {
    var f := FieldsOf(d);
    && |d| >= 54 && d[0] == 'B' as int && d[1] == 'M' as int && Rd16(d, 26) == 1
    && f.width > 0 && f.h > 0 && PaletteFits(d, f) && f.dataOff <= |d|
  }

  lemma ReadableIff(d: seq<byte>)
    ensures !Readable(d) <==>
            var f := FieldsOf(d);
            || |d| < 54 || d[0] != 'B' as int || d[1] != 'M' as int || d[26] != 1 || d[27] != 0
            || f.width <= 0 || f.h <= 0 || f.dataOff > |d|
            || (f.bits <= 8 && f.palOff + 4 * (if Rd32(d, 46) == 0 then Powers.Pow2(f.bits) else Rd32(d, 46)) > |d|)
  {
    PaletteSize(FieldsOf(d).bits);
    hide FieldsOf, Rd32;
  }

  lemma PaletteSize(bits: nat)
    ensures bits <= 8 ==> [1, 2, 4, 8, 16, 32, 64, 128, 256][bits] == Powers.Pow2(bits)
  {
  }

  /** Where in the file the image's row `y` begins. */
  function RowBase(f: Fields, y: nat): int
    requires f.width > 0
  {
    f.dataOff + (if f.topDown then y else f.h - 1 - y) * RowBytes(f.width, f.bits)
  }

  /** The row as the file has it; a row that the file ends in stays blank. */
  ghost predicate IsDecoded(row: seq<Pixel>, d: seq<byte>, f: Fields, y: nat)
    requires 0 < f.width && y < f.h
  {
    |row| == f.width && forall x :: 0 <= x < f.width ==>
      row[x] == if RowBase(f, y) + RowBytes(f.width, f.bits) > |d| then BLANK else PixelAt(d, f.bits, f.palOff, RowBase(f, y), x)
  }

  /** The same in terms of the file: its rows come from the bottom up, or from the top down, each
      in as many bytes as a row takes, and what lies beyond the end is blank. */
  ghost predicate Painted(rows: seq<seq<Pixel>>, d: seq<byte>, f: Fields)
  {
    0 <= f.width && |rows| == f.h && forall y, x :: 0 <= y < f.h && 0 <= x < |rows[y]| ==>
      var base := f.dataOff + (if f.topDown then y else f.h - 1 - y) * RowBytes(f.width, f.bits);
      rows[y][x] == if base + RowBytes(f.width, f.bits) > |d| then Pixel(0, 0, 0, 0) else PixelAt(d, f.bits, f.palOff, base, x)
  }

  method DecodeRow(d: seq<byte>, bits: nat, palOff: nat, base: nat, width: nat) returns (row: seq<Pixel>)
    ensures |row| == width && forall x :: 0 <= x < width ==> row[x] == PixelAt(d, bits, palOff, base, x)
  {
    hide PixelAt;
    row := [];
    for x := 0 to width
      invariant |row| == x && forall j :: 0 <= j < x ==> row[j] == PixelAt(d, bits, palOff, base, j)
    {
      row := row + [PixelAt(d, bits, palOff, base, x)];
    }
  }

  lemma RowOrder(a: nat, b: nat, n: nat)
    requires a <= b
    ensures 0 <= a * n <= b * n
  {
  }

  method DecodeBmp(d: seq<byte>) returns (r: Result)
    ensures r.Invalid? <==>
              var f := FieldsOf(d);
              || |d| < 54 || d[0] != 'B' as int || d[1] != 'M' as int || d[26] != 1 || d[27] != 0
              || f.width <= 0 || f.h <= 0 || f.dataOff > |d|
              || (f.bits <= 8 && f.palOff + 4 * (if Rd32(d, 46) == 0 then Powers.Pow2(f.bits) else Rd32(d, 46)) > |d|)
    ensures r.Compressed? <==> !r.Invalid? && FieldsOf(d).compression != 0
    ensures r.Ok? ==> Valid(r.img) && r.img.w == FieldsOf(d).width && r.img.h == FieldsOf(d).h && !r.img.argb
    ensures r.Ok? ==> forall y :: 0 <= y < r.img.h ==> IsDecoded(r.img.rows[y], d, FieldsOf(d), y)
    ensures r.Ok? ==> Painted(r.img.rows, d, FieldsOf(d))
  {
    var f := FieldsOf(d);
    ReadableIff(d);
    if !Readable(d) { return Invalid; }
    if f.compression != 0 { return Compressed; }
    hide FieldsOf, PaletteFits, Readable, PixelAt, RowBytes, Rd32;
    var rowBytes := RowBytes(f.width, f.bits);
    var blank := seq(f.width, _ => BLANK);
    var rows := seq(f.h, _ => blank);
    var r_ := 0;
    while r_ < f.h
      invariant 0 <= r_ <= f.h && |rows| == f.h
      invariant forall y {:trigger rows[y]} :: 0 <= y < f.h ==>
                  if (if f.topDown then y else f.h - 1 - y) < r_ then IsDecoded(rows[y], d, f, y) else rows[y] == blank
    {
      var y := if f.topDown then r_ else f.h - 1 - r_;
      var base := f.dataOff + r_ * rowBytes;
      RowOrder(0, r_, rowBytes);
      assert base == RowBase(f, y);
      if base + rowBytes > |d| { break; }
      var row := DecodeRow(d, f.bits, f.palOff, base, f.width);
      rows := rows[y := row];
      r_ := r_ + 1;
    }
    forall y | 0 <= y < f.h ensures IsDecoded(rows[y], d, f, y) {
      var k := if f.topDown then y else f.h - 1 - y;
      if k >= r_ { RowOrder(r_, k, rowBytes); }
    }
    DecodedPixels(rows, d, f);
    hide IsDecoded, RowBase, Painted;
    r := Ok(Image(f.width, f.h, false, rows));
  }

  lemma DecodedPixels(rows: seq<seq<Pixel>>, d: seq<byte>, f: Fields)
    requires 0 < f.width && |rows| == f.h && forall y :: 0 <= y < f.h ==> IsDecoded(rows[y], d, f, y)
    ensures Painted(rows, d, f)
    ensures forall y :: 0 <= y < f.h ==> |rows[y]| == f.width
  {
    hide PixelAt, RowBytes;
  }

  // --------------------------------------------------------------- round trip

  /** The header, field by field. */
  lemma HeaderParts(w: nat, h: nat, bits: nat)
    ensures var b := Header(w, h, bits);
            && b[0] == 'B' as int && b[1] == 'M' as int
            && b[2..6] == Le32(54 + RowBytes(w, bits) * h) && b[6..10] == Le32(0)
            && b[34..38] == Le32(RowBytes(w, bits) * h) && b[38..42] == b[42..46] == Le32(2835) && b[46..50] == b[50..54] == Le32(0)
            && b[10..14] == Le32(54) && b[14..18] == Le32(40) && b[18..22] == Le32(w) && b[22..26] == Le32(h)
            && b[26..28] == Le16(1) && b[28..30] == Le16(bits) && b[30..34] == Le32(0)
  {
    hide Le32, Le16, RowBytes;
  }

  lemma PrefixSlice(b: seq<byte>, d: seq<byte>, i: nat, j: nat)
    requires b <= d && i <= j <= |b|
    ensures d[i..j] == b[i..j]
  {
  }

  lemma HeaderNumbers(w: nat, h: nat, bits: nat, d: seq<byte>)
    requires Header(w, h, bits) <= d && bits < 256 && w < 0x8000_0000 && h < 0x8000_0000
    ensures |d| >= 54 && d[0] == 'B' as int && d[1] == 'M' as int
    ensures Rd32(d, 10) == 54 && Rd32(d, 14) == 40 && Rd32(d, 18) == w && Rd32(d, 22) == h
    ensures Rd16(d, 26) == 1 && Rd16(d, 28) == bits && Rd32(d, 30) == 0
  {
    hide Header, Rd32, Rd16, Le32, Le16;
    var b := Header(w, h, bits);
    HeaderParts(w, h, bits);
    PrefixSlice(b, d, 10, 14);
    Read32(d, 10, 54);
    PrefixSlice(b, d, 14, 18);
    Read32(d, 14, 40);
    PrefixSlice(b, d, 18, 22);
    Read32(d, 18, w);
    PrefixSlice(b, d, 22, 26);
    Read32(d, 22, h);
    PrefixSlice(b, d, 26, 28);
    Read16(d, 26, 1);
    PrefixSlice(b, d, 28, 30);
    Read16(d, 28, bits);
    PrefixSlice(b, d, 30, 34);
    Read32(d, 30, 0);
    assert d[0] == b[0] && d[1] == b[1];
  }

  lemma HeaderRead(w: nat, h: nat, bits: nat, d: seq<byte>)
    requires Header(w, h, bits) <= d && (bits == 24 || bits == 32) && w < 0x8000_0000 && h < 0x8000_0000
    ensures |d| >= 54 && FieldsOf(d) == Fields(54, 54, w, h, false, bits, 0)
    ensures Readable(d) <==> w > 0 && h > 0
  {
    hide Header, Rd32, Rd16, RowBytes;
    HeaderNumbers(w, h, bits, d);
  }

  function Times(r: nat, n: nat): nat
  {
    r * n
  }

  lemma TimesGrows(r: nat, k: nat, n: nat)
    ensures Times(r + 1, n) == Times(r, n) + n && (r <= k ==> Times(r, n) <= Times(k, n))
  {
    OneMoreRow(r, n);
    if r <= k { RowOrder(r, k, n); }
  }

  /** The bytes of row `r` lie where the reader looks for them. */
  lemma JoinedAt(rows: seq<seq<byte>>, n: nat, r: nat)
    requires r < |rows| && forall i :: 0 <= i < |rows| ==> |rows[i]| == n
    ensures |Flatten(rows)| == |rows| * n && r * n + n <= |rows| * n
    ensures Flatten(rows)[r * n..r * n + n] == rows[r]
  {
    RowFound(rows, n, r);
  }

  lemma {:induction false} RowFound(rows: seq<seq<byte>>, n: nat, r: nat)
    requires r < |rows| && forall i :: 0 <= i < |rows| ==> |rows[i]| == n
    ensures |Flatten(rows)| == Times(|rows|, n) >= Times(r, n) + n
    ensures Flatten(rows)[Times(r, n)..Times(r, n) + n] == rows[r]
  {
    hide Flatten, Times;
    FlattenStep(rows);
    var init, last := rows[..|rows| - 1], rows[|rows| - 1];
    RowsSize(init, n);
    TimesGrows(|init|, |init|, n);
    if r < |init| {
      RowFound(init, n, r);
      SliceFront(Flatten(init), last, Times(r, n), n);
    } else {
      SliceBack(Flatten(init), last, Times(r, n), n);
    }
  }

  lemma RowsSize(rows: seq<seq<byte>>, n: nat)
    requires forall i :: 0 <= i < |rows| ==> |rows[i]| == n
    ensures |Flatten(rows)| == Times(|rows|, n)
  {
    JoinedSize(rows, n);
  }

  lemma FlattenStep(rows: seq<seq<byte>>)
    requires rows != []
    ensures Flatten(rows) == Flatten(rows[..|rows| - 1]) + rows[|rows| - 1]
  {
  }

  lemma SliceBack(x: seq<byte>, y: seq<byte>, i: nat, n: nat)
    requires i == |x| && n == |y|
    ensures (x + y)[i..i + n] == y
  {
  }

  lemma SliceFront(x: seq<byte>, y: seq<byte>, i: nat, n: nat)
    requires i + n <= |x|
    ensures (x + y)[i..i + n] == x[i..i + n]
  {
  }

  lemma OneMoreRow(k: nat, n: nat)
    ensures (k + 1) * n == k * n + n
  {
  }

  lemma {:induction false} JoinedSize(rows: seq<seq<byte>>, n: nat)
    requires forall i :: 0 <= i < |rows| ==> |rows[i]| == n
    ensures |Flatten(rows)| == |rows| * n
  {
    if rows == [] {
      assert Flatten(rows) == [];
    } else {
      hide Flatten;
      FlattenStep(rows);
      var init := rows[..|rows| - 1];
      JoinedSize(init, n);
      OneMoreRow(|init|, n);
    }
  }

  lemma PixelsRead(row: seq<byte>, pixels: seq<Pixel>, bits: nat, d: seq<byte>, base: nat, palOff: nat)
    requires IsRow(row, pixels, bits, |pixels|) && (bits == 24 || bits == 32)
    requires base + |row| <= |d| && d[base..base + |row|] == row
    ensures forall x :: 0 <= x < |pixels| ==>
              var c := Read(pixels[x]); PixelAt(d, bits, palOff, base, x) == Opaque(c.0, c.1, c.2)
  {
    hide Read, Opaque;
    forall x | 0 <= x < |pixels|
      ensures var c := Read(pixels[x]); PixelAt(d, bits, palOff, base, x) == Opaque(c.0, c.1, c.2)
    {
      var o := x * (bits / 8);
      assert row[o] == d[base + o] && row[o + 1] == d[base + o + 1] && row[o + 2] == d[base + o + 2];
    }
  }

  /** What a colour becomes that is written to a file: opaque. */
  function Flat(p: Pixel): Pixel
  {
    var c := Read(p);
    Opaque(c.0, c.1, c.2)
  }

  lemma RowPlace(head: seq<byte>, rows: seq<seq<byte>>, n: nat, r: nat)
    requires |head| == 54 && r < |rows| && forall i :: 0 <= i < |rows| ==> |rows[i]| == n
    ensures var d := head + Flatten(rows); 0 <= r * n && 54 + r * n + n <= |d| && d[54 + r * n..54 + r * n + n] == rows[r]
  {
    RowOrder(0, r, n);
    JoinedAt(rows, n, r);
    var d := head + Flatten(rows);
    assert d[54 + r * n..54 + r * n + n] == Flatten(rows)[r * n..r * n + n];
  }

  lemma RowDecoded(row: seq<Pixel>, d: seq<byte>, w: nat, h: nat, bits: nat, y: nat, base: nat)
    requires 0 < w && y < h && IsDecoded(row, d, Fields(54, 54, w, h, false, bits, 0), y)
    requires base == 54 + (h - 1 - y) * RowBytes(w, bits) && base + RowBytes(w, bits) <= |d|
    ensures |row| == w && forall x :: 0 <= x < w ==> row[x] == PixelAt(d, bits, 54, base, x)
  {
    hide RowBytes, PixelAt;
  }

  lemma RowRead(img: Image, rows: seq<seq<byte>>, d: seq<byte>, row: seq<Pixel>, y: nat)
    requires Valid(img) && img.w > 0 && y < img.h && AreRows(rows, img)
    requires d == Header(img.w, img.h, Depth(img)) + Flatten(rows)
    requires IsDecoded(row, d, Fields(54, 54, img.w, img.h, false, Depth(img), 0), y)
    ensures |row| == img.w && forall x :: 0 <= x < img.w ==> row[x] == Flat(img.rows[y][x])
  {
    hide IsDecoded, RowBytes, Flat, PixelAt, Header, Flatten;
    var bits, r := Depth(img), img.h - 1 - y;
    var n := RowBytes(img.w, bits);
    RowSizes(img, rows);
    assert IsRow(rows[r], img.rows[y], bits, img.w);
    hide IsRow;
    RowPlace(Header(img.w, img.h, bits), rows, n, r);
    RowDecoded(row, d, img.w, img.h, bits, y, 54 + r * n);
    RowFlat(rows[r], img.rows[y], bits, d, 54 + r * n);
  }

  lemma RowSizes(img: Image, rows: seq<seq<byte>>)
    requires Valid(img) && AreRows(rows, img)
    ensures forall i :: 0 <= i < |rows| ==> |rows[i]| == RowBytes(img.w, Depth(img))
  {
    hide RowBytes;
  }

  lemma RowFlat(row: seq<byte>, pixels: seq<Pixel>, bits: nat, d: seq<byte>, base: nat)
    requires IsRow(row, pixels, bits, |pixels|) && (bits == 24 || bits == 32)
    requires base + |row| <= |d| && d[base..base + |row|] == row
    ensures forall x :: 0 <= x < |pixels| ==> PixelAt(d, bits, 54, base, x) == Flat(pixels[x])
    ensures |row| == RowBytes(|pixels|, bits)
  {
    PixelsRead(row, pixels, bits, d, base, 54);
    hide PixelAt, Opaque, Read;
  }

  /** What was written reads back as the same picture at both depths; only its opacity is
      lost, and an image without pixels is refused. */
  method RoundTrip(img: Image) returns (r: Result)
    requires Valid(img) && Fits(img)
    ensures r.Ok? <==> img.w > 0 && img.h > 0
    ensures r.Ok? ==> Valid(r.img) && r.img.w == img.w && r.img.h == img.h
    ensures r.Ok? ==> forall y, x :: 0 <= y < img.h && 0 <= x < img.w ==> r.img.rows[y][x] == Flat(img.rows[y][x])
    ensures r.Ok? && (forall y, x :: 0 <= y < img.h && 0 <= x < img.w ==> img.rows[y][x].a == 255) ==> r.img.rows == img.rows
  {
    hide Readable, FieldsOf, IsRow, Header, Flat, IsDecoded, Flatten, AreRows;
    var d := EncodeBmp(img);
    ghost var rows :| d == Header(img.w, img.h, Depth(img)) + Flatten(rows) && AreRows(rows, img);
    FitsHeader(img);
    hide Fits;
    HeaderRead(img.w, img.h, Depth(img), d);
    ReadableIff(d);
    r := DecodeBmp(d);
    if r.Ok? { PictureRead(img, rows, d, r.img); }
  }

  lemma FitsHeader(img: Image)
    requires Fits(img)
    ensures img.w < 0x8000_0000 && img.h < 0x8000_0000 && (Depth(img) == 24 || Depth(img) == 32)
  {
    hide RowBytes;
  }

  lemma PictureRead(img: Image, rows: seq<seq<byte>>, d: seq<byte>, read: Image)
    requires Valid(img) && img.w > 0 && AreRows(rows, img)
    requires d == Header(img.w, img.h, Depth(img)) + Flatten(rows)
    requires Valid(read) && read.w == img.w && read.h == img.h
    requires forall y :: 0 <= y < img.h ==> IsDecoded(read.rows[y], d, Fields(54, 54, img.w, img.h, false, Depth(img), 0), y)
    ensures forall y, x :: 0 <= y < img.h && 0 <= x < img.w ==> read.rows[y][x] == Flat(img.rows[y][x])
    ensures (forall y, x :: 0 <= y < img.h && 0 <= x < img.w ==> img.rows[y][x].a == 255) ==> read.rows == img.rows
  {
    hide IsRow, Header, Flat, IsDecoded, Flatten, AreRows;
    forall y | 0 <= y < img.h ensures forall x :: 0 <= x < img.w ==> read.rows[y][x] == Flat(img.rows[y][x]) {
      RowRead(img, rows, d, read.rows[y], y);
    }
    SameRows(img, read);
  }

  lemma SameRows(img: Image, read: Image)
    requires Valid(img) && Valid(read) && read.w == img.w && read.h == img.h
    requires forall y, x :: 0 <= y < img.h && 0 <= x < img.w ==> read.rows[y][x] == Flat(img.rows[y][x])
    ensures (forall y, x :: 0 <= y < img.h && 0 <= x < img.w ==> img.rows[y][x].a == 255) ==> read.rows == img.rows
  {
    if forall y, x :: 0 <= y < img.h && 0 <= x < img.w ==> img.rows[y][x].a == 255 {
      forall y | 0 <= y < img.h ensures read.rows[y] == img.rows[y] {
        forall x | 0 <= x < img.w ensures read.rows[y][x] == img.rows[y][x] {
          var p := img.rows[y][x];
          OpaqueStored(p.r, p.g, p.b);
        }
      }
    }
  }
}
