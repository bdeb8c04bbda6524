/** The bit streams of GIF images: codes packed low bits first, cut into sub-blocks. */
module BitStream {
  import opened Common
  import opened Powers

  type Bits = seq<bool>

  /** The number whose binary digits, low first, are `bits`. */
  function Value(bits: Bits): nat
  {
    if bits == [] then 0 else (if bits[0] then 1 else 0) + 2 * Value(bits[1..])
  }

  /** The `w` low binary digits of `n`, low first. */
  function Digits(n: nat, w: nat): (bits: Bits)
    ensures |bits| == w
    decreases w
  {
    if w == 0 then [] else [n % 2 == 1] + Digits(n / 2, w - 1)
  }

  lemma {:induction false} ValueDigits(n: nat, w: nat)
    requires n < Pow2(w)
    ensures Value(Digits(n, w)) == n
    decreases w
  {
    if w > 0 {
      ValueDigits(n / 2, w - 1);
      assert Digits(n, w)[1..] == Digits(n / 2, w - 1);
    }
  }

  lemma {:induction false} ValueBound(bits: Bits)
    ensures Value(bits) < Pow2(|bits|)
  {
    if bits != [] { ValueBound(bits[1..]); }
  }

  lemma {:induction false} ValueConcat(a: Bits, b: Bits)
    ensures Value(a + b) == Value(a) + Pow2(|a|) * Value(b)
  {
    if a == [] {
      assert a + b == b;
    } else {
      ValueConcat(a[1..], b);
      var c := a + b;
      assert c[1..] == a[1..] + b && c[0] == a[0];
      Pow2Doubles(|a| - 1);
      MulAssociates(2, Pow2(|a| - 1), Value(b));
      assert Value(c) == (if c[0] then 1 else 0) + 2 * Value(c[1..]);
      hide Pow2;
    }
  }

  lemma {:induction false} DigitsValue(bits: Bits)
    ensures Digits(Value(bits), |bits|) == bits
  {
    if bits != [] {
      DigitsValue(bits[1..]);
      assert Value(bits) / 2 == Value(bits[1..]);
    }
  }

  /** Taking the low `k` digits off a buffer, by mask and shift. */
  lemma ValueSplit(bits: Bits, k: nat)
    requires k <= |bits|
    ensures Value(bits) % Pow2(k) == Value(bits[..k])
    ensures Value(bits) / Pow2(k) == Value(bits[k..])
  {
    assert bits == bits[..k] + bits[k..];
    ValueConcat(bits[..k], bits[k..]);
    ValueBound(bits[..k]);
    DivMod(Pow2(k), Value(bits[k..]), Value(bits[..k]), Value(bits));
  }

  // ------------------------------------------------------------------- codes

  /** The digits of a run of codes, each in its own width. */
  function CodeBits(codes: seq<nat>, widths: seq<nat>): Bits
    requires |codes| == |widths|
  {
    if codes == [] then []
    else CodeBits(codes[..|codes| - 1], widths[..|codes| - 1]) + Digits(codes[|codes| - 1], widths[|codes| - 1])
  }

  function ByteBits(bytes: seq<nat>): (bits: Bits)
    ensures |bits| == 8 * |bytes|
  {
    if bytes == [] then [] else ByteBits(bytes[..|bytes| - 1]) + Digits(bytes[|bytes| - 1], 8)
  }

  ghost predicate Bytes(bytes: seq<nat>)
  {
    forall i :: 0 <= i < |bytes| ==> bytes[i] < 256
  }

  lemma BytesSnoc(bytes: seq<nat>, x: nat)
    ensures ByteBits(bytes + [x]) == ByteBits(bytes) + Digits(x, 8)
  {
    assert (bytes + [x])[..|bytes|] == bytes;
  }

  lemma CodesStep(codes: seq<nat>, widths: seq<nat>, i: nat)
    requires |codes| == |widths| && i < |codes|
    ensures CodeBits(codes[..i + 1], widths[..i + 1]) == CodeBits(codes[..i], widths[..i]) + Digits(codes[i], widths[i])
  {
    assert codes[..i + 1][..i] == codes[..i] && widths[..i + 1][..i] == widths[..i];
  }

  lemma {:induction false} CodesPrefix(codes: seq<nat>, widths: seq<nat>, i: nat)
    requires |codes| == |widths| && i <= |codes|
    ensures CodeBits(codes[..i], widths[..i]) <= CodeBits(codes, widths)
    decreases |codes| - i
  {
    if i == |codes| {
      assert codes[..i] == codes && widths[..i] == widths;
    } else {
      CodesStep(codes, widths, i);
      CodesPrefix(codes, widths, i + 1);
    }
  }

  lemma {:induction false} CodesCons(codes: seq<nat>, widths: seq<nat>)
    requires |codes| == |widths| > 0
    ensures CodeBits(codes, widths) == Digits(codes[0], widths[0]) + CodeBits(codes[1..], widths[1..])
    decreases |codes|
  {
    var k := |codes| - 1;
    if k > 0 {
      CodesCons(codes[..k], widths[..k]);
      assert codes[..k][1..] == codes[1..][..k - 1] && widths[..k][1..] == widths[1..][..k - 1];
    }
  }

  lemma {:induction false} ByteBitsConcat(a: seq<nat>, b: seq<nat>)
    ensures ByteBits(a + b) == ByteBits(a) + ByteBits(b)
    decreases |b|
  {
    if b == [] {
      assert a + b == a;
    } else {
      hide ByteBits, Digits;
      var k := |b| - 1;
      var c := a + b[..k];
      SnocSplit(a, b);
      ByteBitsConcat(a, b[..k]);
      BytesSnoc(c, b[k]);
      BytesSnoc(b[..k], b[k]);
      ConcatAssociative(ByteBits(a), ByteBits(b[..k]), Digits(b[k], 8));
    }
  }

  lemma SnocSplit<T>(a: seq<T>, b: seq<T>)
    requires b != []
    ensures a + b == (a + b[..|b| - 1]) + [b[|b| - 1]] && b == b[..|b| - 1] + [b[|b| - 1]]
  {
  }

  lemma ByteBitsFrom(data: seq<nat>, pos: nat)
    requires pos < |data|
    ensures ByteBits(data[pos..]) == Digits(data[pos], 8) + ByteBits(data[pos + 1..])
  {
    hide *;
    assert data[pos..] == [data[pos]] + data[pos + 1..];
    ByteBitsConcat([data[pos]], data[pos + 1..]);
    OneByte(data[pos]);
  }

  lemma OneByte(x: nat)
    ensures ByteBits([x]) == Digits(x, 8)
  {
    assert ByteBits([x]) == [] + Digits(x, 8);
    hide Digits;
  }

  function Zeros(k: nat): (z: Bits)
    ensures |z| == k
  {
    seq(k, _ => false)
  }

  lemma {:induction false} ZerosValue(k: nat)
    ensures Value(Zeros(k)) == 0
  {
    if k > 0 {
      ZerosValue(k - 1);
      assert Zeros(k)[1..] == Zeros(k - 1);
    }
  }

  // ----------------------------------------------------------------- packing

  /** Writing whole bytes off the low end of the bit buffer. */
  method Flush(bitbuf: nat, bitcnt: nat, ghost buf: Bits, out: seq<nat>)
    returns (bitbuf': nat, bitcnt': nat, ghost buf': Bits, out': seq<nat>)
    requires Value(buf) == bitbuf && |buf| == bitcnt && Bytes(out)
    ensures Value(buf') == bitbuf' && |buf'| == bitcnt' < 8 && Bytes(out')
    ensures ByteBits(out') + buf' == ByteBits(out) + buf
  {
    hide Value, Digits, ByteBits, Pow2;
    bitbuf', bitcnt', buf', out' := bitbuf, bitcnt, buf, out;
    while bitcnt' >= 8
      invariant Value(buf') == bitbuf' && |buf'| == bitcnt' && Bytes(out')
      invariant ByteBits(out') + buf' == ByteBits(out) + buf
    {
      assert Pow2(8) == 256 by { EightBits(); }
      ValueSplit(buf', 8);
      DigitsValue(buf'[..8]);
      BytesSnoc(out', bitbuf' % 256);
      assert buf' == buf'[..8] + buf'[8..];
      out' := out' + [bitbuf' % 256];
      bitbuf' := bitbuf' / 256;
      bitcnt' := bitcnt' - 8;
      buf' := buf'[8..];
    }
  }

  lemma EightBits()
    ensures Pow2(8) == 256
  {
  }

  /** The `emit` calls of `gifLzwEncode` and its final partial byte.  The bit buffer is at
      most 19 bits long, so it fits its 32. */
  method Pack(codes: seq<nat>, widths: seq<nat>) returns (out: seq<nat>)
    requires |codes| == |widths|
    requires forall i :: 0 <= i < |codes| ==> codes[i] < Pow2(widths[i]) && widths[i] <= 12
    ensures Bytes(out)
    ensures 0 <= 8 * |out| - |CodeBits(codes, widths)| < 8
    ensures ByteBits(out) == CodeBits(codes, widths) + Zeros(8 * |out| - |CodeBits(codes, widths)|)
  {
    hide Value, Digits, ByteBits, Pow2, CodeBits, Zeros;
    out := [];
    var bitbuf, bitcnt := 0, 0;
    ghost var buf: Bits := [];
    NothingWritten();
    var i := 0;
    while i < |codes|
      invariant 0 <= i <= |codes|
      invariant Value(buf) == bitbuf && |buf| == bitcnt < 8 && Bytes(out)
      invariant ByteBits(out) + buf == CodeBits(codes[..i], widths[..i])
    {
      var code, codeSize := codes[i], widths[i];
      ghost var digits := Digits(code, codeSize);
      CodesStep(codes, widths, i);
      ValueDigits(code, codeSize);
      ValueConcat(buf, digits);
      assert ByteBits(out) + (buf + digits) == ByteBits(out) + buf + digits;
      bitbuf := bitbuf + Pow2(bitcnt) * code;
      bitcnt := bitcnt + codeSize;
      buf := buf + digits;
      assert bitcnt <= 19;
      bitbuf, bitcnt, buf, out := Flush(bitbuf, bitcnt, buf, out);
      i := i + 1;
    }
    assert codes[..i] == codes && widths[..i] == widths;
    if bitcnt > 0 {
      LastByte(buf);
      BytesSnoc(out, bitbuf % 256);
      ghost var was := out;
      out := out + [bitbuf % 256];
      ConcatAssociative(ByteBits(was), buf, Zeros(8 - |buf|));
    } else {
      assert ByteBits(out) + buf + Zeros(0) == ByteBits(out) + buf == ByteBits(out);
    }
  }

  lemma NothingWritten()
    ensures Value([]) == 0 && ByteBits([]) == [] && CodeBits([], []) == []
  {
  }

  lemma PadValue(buf: Bits, k: nat)
    ensures Value(buf + Zeros(k)) == Value(buf)
  {
    ZerosValue(k);
    ValueConcat(buf, Zeros(k));
  }

  lemma EightDigits(bits: Bits)
    requires |bits| == 8
    ensures Value(bits) < 256 && Digits(Value(bits), 8) == bits
  {
    hide Pow2, Value, Digits;
    DigitsValue(bits);
    ValueBound(bits);
    EightBits();
  }

  /** The final partial byte: the pending digits, then zeros. */
  lemma LastByte(buf: Bits)
    requires |buf| < 8
    ensures Value(buf) < 256
    ensures Digits(Value(buf), 8) == buf + Zeros(8 - |buf|)
  {
    hide Pow2, Value, Digits, Zeros;
    PadValue(buf, 8 - |buf|);
    EightDigits(buf + Zeros(8 - |buf|));
  }

  // --------------------------------------------------------------- unpacking

  /** Reading codes of given widths off a bit stream until it runs out. */
  function ReadCodes(bits: Bits, widths: seq<nat>): seq<nat>
    decreases |widths|
  {
    if widths == [] || |bits| < widths[0] then []
    else [Value(bits[..widths[0]])] + ReadCodes(bits[widths[0]..], widths[1..])
  }

  /** Reading with the widths that were written gives back the codes. */
  lemma {:induction false} ReadWritten(codes: seq<nat>, widths: seq<nat>, bits: Bits)
    requires |codes| == |widths| && CodeBits(codes, widths) <= bits
    requires forall i :: 0 <= i < |codes| ==> codes[i] < Pow2(widths[i])
    ensures ReadCodes(bits, widths) == codes
    decreases |codes|
  {
    if codes != [] {
      var w, rest := widths[0], CodeBits(codes[1..], widths[1..]);
      CodesCons(codes, widths);
      ValueDigits(codes[0], w);
      hide Value, Digits, Pow2, CodeBits;
      assert bits[..w] == Digits(codes[0], w);
      assert rest <= bits[w..];
      ReadWritten(codes[1..], widths[1..], bits[w..]);
    }
  }

  /** `getCode`: refills the bit buffer byte by byte and takes `codeSize` bits off its low
      end; -1 when the data runs out. */
  method GetCode(data: seq<nat>, pos: nat, bitbuf: nat, bitcnt: nat, ghost buf: Bits, codeSize: nat)
    returns (code: int, pos': nat, bitbuf': nat, bitcnt': nat, ghost buf': Bits)
    requires Bytes(data) && pos <= |data| && Value(buf) == bitbuf && |buf| == bitcnt
    ensures pos <= pos' <= |data| && Value(buf') == bitbuf' && |buf'| == bitcnt'
    ensures var stream := buf + ByteBits(data[pos..]);
            if |stream| < codeSize then code == -1
            else code == Value(stream[..codeSize]) && buf' + ByteBits(data[pos'..]) == stream[codeSize..]
  {
    hide Value, Digits, ByteBits, Pow2;
    ghost var stream := buf + ByteBits(data[pos..]);
    pos', bitbuf', bitcnt', buf' := pos, bitbuf, bitcnt, buf;
    while bitcnt' < codeSize
      invariant pos <= pos' <= |data| && Value(buf') == bitbuf' && |buf'| == bitcnt'
      invariant buf' + ByteBits(data[pos'..]) == stream
      decreases |data| - pos'
    {
      if pos' >= |data| {
        code := -1;
        return;
      }
      ByteBitsFrom(data, pos');
      ghost var digits := Digits(data[pos'], 8);
      EightBits();
      ValueDigits(data[pos'], 8);
      ValueConcat(buf', digits);
      bitbuf' := bitbuf' + Pow2(bitcnt') * data[pos'];
      ConcatAssociative(buf', digits, ByteBits(data[pos' + 1..]));
      buf' := buf' + digits;
      pos' := pos' + 1;
      bitcnt' := bitcnt' + 8;
    }
    ValueSplit(buf', codeSize);
    code := bitbuf' % Pow2(codeSize);
    bitbuf' := bitbuf' / Pow2(codeSize);
    bitcnt' := bitcnt' - codeSize;
    assert stream[..codeSize] == buf'[..codeSize];
    buf' := buf'[codeSize..];
    assert stream[codeSize..] == buf' + ByteBits(data[pos'..]);
  }

  /** The `getCode` calls of `gifLzwDecode`, for the sizes it asks for. */
  method Unpack(data: seq<nat>, widths: seq<nat>) returns (codes: seq<nat>)
    requires Bytes(data)
    ensures codes == ReadCodes(ByteBits(data), widths)
  {
    hide Value, Digits, ByteBits, Pow2;
    codes := [];
    var pos, bitbuf, bitcnt := 0, 0, 0;
    ghost var buf: Bits := [];
    NothingWritten();
    assert data[0..] == data && widths[0..] == widths;
    assert buf + ByteBits(data) == ByteBits(data);
    var i := 0;
    while i < |widths|
      invariant 0 <= i <= |widths| && pos <= |data|
      invariant Value(buf) == bitbuf && |buf| == bitcnt
      invariant codes + ReadCodes(buf + ByteBits(data[pos..]), widths[i..]) == ReadCodes(ByteBits(data), widths)
    {
      ghost var stream := buf + ByteBits(data[pos..]);
      assert widths[i..][0] == widths[i] && widths[i..][1..] == widths[i + 1..];
      var code;
      code, pos, bitbuf, bitcnt, buf := GetCode(data, pos, bitbuf, bitcnt, buf, widths[i]);
      if code < 0 {
        assert ReadCodes(stream, widths[i..]) == [];
        return;
      }
      ConcatAssociative(codes, [code as nat], ReadCodes(stream[widths[i]..], widths[i + 1..]));
      codes := codes + [code];
      i := i + 1;
    }
  }

  // -------------------------------------------------------------- sub-blocks

  const BLOCK_LIMIT := 255

  /** Sub-blocks: a length byte and up to 255 bytes each, ended by a zero length. */
  function SubBlocks(data: seq<nat>): seq<nat>
    decreases |data|
  {
    if data == [] then [0]
    else
      var n := if |data| < BLOCK_LIMIT then |data| else BLOCK_LIMIT;
      [n] + data[..n] + SubBlocks(data[n..])
  }

  /** The blocks are full but for the last one: 255 bytes each. */
  lemma {:induction false} BlocksFull(data: seq<nat>)
    ensures |SubBlocks(data)| == |data| + (|data| + 254) / 255 + 1
    ensures SubBlocks(data)[0] == if |data| < 255 then |data| else 255
    decreases |data|
  {
    if data != [] { BlocksFull(data[if |data| < 255 then |data| else 255..]); }
  }

  /** Rejoining sub-blocks: the data, and how many bytes were read. */
  function Joined(d: seq<nat>): (r: (seq<nat>, nat))
    decreases |d|
  {
    if d == [] then ([], 0)
    else if d[0] == 0 then ([], 1)
    else if 1 + d[0] > |d| then ([], 1)
    else
      var (rest, n) := Joined(d[1 + d[0]..]);
      (d[1..1 + d[0]] + rest, 1 + d[0] + n)
  }

  /** The sub-blocks that `encodeGif` writes. */
  method WriteSubBlocks(data: seq<nat>) returns (body: seq<nat>)
    ensures body == SubBlocks(data) && |body| == |data| + (|data| + 254) / 255 + 1
    ensures body[0] == if |data| < 255 then |data| else 255
  {
    hide SubBlocks;
    body := [];
    var i := 0;
    assert data[0..] == data;
    while i < |data|
      invariant 0 <= i <= |data| && body + SubBlocks(data[i..]) == SubBlocks(data)
    {
      var n := if |data| - i < BLOCK_LIMIT then |data| - i else BLOCK_LIMIT;
      SubBlocksStep(data, i, n);
      ConcatAssociative(body, [n] + data[i..i + n], SubBlocks(data[i + n..]));
      body := body + ([n] + data[i..i + n]);
      i := i + n;
    }
    NoSubBlocks(data, i);
    BlocksFull(data);
    body := body + [0];
  }

  lemma SubBlocksStep(data: seq<nat>, i: nat, n: nat)
    requires i < |data| && n == if |data| - i < BLOCK_LIMIT then |data| - i else BLOCK_LIMIT
    ensures SubBlocks(data[i..]) == [n] + data[i..i + n] + SubBlocks(data[i + n..])
  {
    assert data[i..][..n] == data[i..i + n] && data[i..][n..] == data[i + n..];
  }

  lemma NoSubBlocks(data: seq<nat>, i: nat)
    requires i == |data|
    ensures SubBlocks(data[i..]) == [0]
  {
  }

  lemma NothingJoined(d: seq<nat>)
    ensures Joined(d[|d|..]) == ([], 0)
  {
  }

  lemma JoinedStep(d: seq<nat>, pos: nat)
    requires pos < |d|
    ensures var p := pos + 1;
            var q := p + d[pos];
            Joined(d[pos..]) == if d[pos] == 0 || q > |d| then ([], 1) else (d[p..q] + Joined(d[q..]).0, 1 + d[pos] + Joined(d[q..]).1)
  {
    var t, sz := d[pos..], d[pos];
    if pos + 1 + sz <= |d| {
      assert t[1 + sz..] == d[pos + 1 + sz..] && t[1..1 + sz] == d[pos + 1..pos + 1 + sz];
    }
  }

  /** The sub-block loop of `decodeGif`. */
  method ReadSubBlocks(d: seq<nat>, start: nat) returns (stream: seq<nat>, pos: nat)
    requires start <= |d|
    ensures stream == Joined(d[start..]).0 && pos == start + Joined(d[start..]).1
  {
    hide Joined;
    stream, pos := [], start;
    NothingJoined(d);
    while pos < |d|
      invariant start <= pos <= |d|
      invariant stream + Joined(d[pos..]).0 == Joined(d[start..]).0
      invariant pos + Joined(d[pos..]).1 == start + Joined(d[start..]).1
      decreases |d| - pos
    {
      var sz := d[pos];
      JoinedStep(d, pos);
      pos := pos + 1;
      if sz == 0 { break; }
      if pos + sz > |d| { break; }
      ConcatAssociative(stream, d[pos..pos + sz], Joined(d[pos + sz..]).0);
      stream := stream + d[pos..pos + sz];
      pos := pos + sz;
    }
  }

  /** Rejoining reads exactly what was cut, whatever follows. */
  lemma {:induction false} JoinInvertsCut(data: seq<nat>, rest: seq<nat>)
    ensures Joined(SubBlocks(data) + rest) == (data, |SubBlocks(data)|)
    decreases |data|
  {
    var d := SubBlocks(data) + rest;
    if data == [] {
      assert d[0] == 0;
    } else {
      var n := if |data| < BLOCK_LIMIT then |data| else BLOCK_LIMIT;
      var tail := SubBlocks(data[n..]);
      JoinInvertsCut(data[n..], rest);
      assert d[0] == n && d[1..1 + n] == data[..n] && d[1 + n..] == tail + rest;
      assert data == data[..n] + data[n..];
    }
  }

  /** The whole way of a code stream: packed, cut into sub-blocks, rejoined and read with
      the same widths, any codes come back, whatever follows the stream in the file. */
  lemma StreamRoundTrip(codes: seq<nat>, widths: seq<nat>, packed: seq<nat>, rest: seq<nat>)
    requires |codes| == |widths| && CodeBits(codes, widths) <= ByteBits(packed)
    requires forall i :: 0 <= i < |codes| ==> codes[i] < Pow2(widths[i])
    ensures ReadCodes(ByteBits(Joined(SubBlocks(packed) + rest).0), widths) == codes
    ensures Joined(SubBlocks(packed) + rest).1 == |SubBlocks(packed)|
  {
    hide ReadCodes, ByteBits, CodeBits, Joined, SubBlocks;
    JoinInvertsCut(packed, rest);
    ReadWritten(codes, widths, ByteBits(packed));
  }
}
