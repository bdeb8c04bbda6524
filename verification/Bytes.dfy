/** Bytes, and numbers of two and four bytes with the lowest first. */
module Bytes {

  type byte = x: int | 0 <= x < 256

  function Le16(v: nat): (b: seq<byte>)
    ensures |b| == 2
  {
    [v % 256, v / 256 % 256]
  }

  function Le32(v: nat): (b: seq<byte>)
    ensures |b| == 4
  {
    [v % 256, v / 256 % 256, v / 0x1_0000 % 256, v / 0x100_0000 % 256]
  }

  /** What lies beyond the end counts as 0. */
  function At(d: seq<byte>, o: nat): int
  {
    if o < |d| then d[o] else 0
  }

  function Rd16(d: seq<byte>, o: nat): int
  {
    At(d, o) + At(d, o + 1) * 256
  }

  function Rd32(d: seq<byte>, o: nat): (v: nat)
    ensures v < 0x1_0000_0000
  {
    At(d, o) + At(d, o + 1) * 256 + At(d, o + 2) * 0x1_0000 + At(d, o + 3) * 0x100_0000
  }

  lemma Le32Parts(v: nat)
    requires v < 0x1_0000_0000
    ensures var b := Le32(v); |b| == 4 && b[0] + b[1] * 256 as int + b[2] * 0x1_0000 as int + b[3] * 0x100_0000 as int == v
  {
    var x, y := v / 256, v / 0x1_0000;
    assert x / 256 == y && y / 256 == v / 0x100_0000;
  }

  lemma Read32(d: seq<byte>, o: nat, v: nat)
    requires o + 4 <= |d| && d[o..o + 4] == Le32(v) && v < 0x1_0000_0000
    ensures Rd32(d, o) == v
  {
    Le32Parts(v);
    hide Le32;
    assert d[o] == d[o..o + 4][0] && d[o + 1] == d[o..o + 4][1] && d[o + 2] == d[o..o + 4][2] && d[o + 3] == d[o..o + 4][3];
  }

  lemma Read16(d: seq<byte>, o: nat, v: nat)
    requires o + 2 <= |d| && d[o..o + 2] == Le16(v) && v < 0x1_0000
    ensures Rd16(d, o) == v
  {
    assert d[o] == d[o..o + 2][0] && d[o + 1] == d[o..o + 2][1];
  }
}
