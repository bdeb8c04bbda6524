/** The table-driven checksum against the division it stands for, one bit at a time. */
module Crc {
  import opened BitStream
  import opened Powers

  /** 32 bits, the lowest first. */
  type Word = w: Bits | |w| == 32 witness Ones()

  function Ones(): (w: Bits)
    ensures |w| == 32 && forall i :: 0 <= i < 32 ==> w[i]
  {
    seq(32, _ => true)
  }

  function Xor(x: Word, y: Word): Word
  {
    seq(32, i requires 0 <= i < 32 => x[i] != y[i])
  }

  /** `x >> n`. */
  function Down(x: Word, n: nat): Word
  {
    seq(32, i requires 0 <= i < 32 => i + n < 32 && x[i + n])
  }

  /** The bits that come in from below, the others zero. */
  function Low(bits: Bits): Word
    requires |bits| <= 32
  {
    seq(32, i requires 0 <= i < 32 => i < |bits| && bits[i])
  }

  function Polynomial(): Word
  {
    Digits(0xEDB88320, 32)
  }

  /** The generator x^32 + x^26 + x^23 + x^22 + x^16 + x^12 + x^11 + x^10 + x^8 + x^7 + x^5 +
      x^4 + x^2 + x + 1 of the standard, the highest power in the lowest bit and x^32 implied. */
  lemma Generator()
    ensures Value(Polynomial()) ==
            Pow2(31 - 26) + Pow2(31 - 23) + Pow2(31 - 22) + Pow2(31 - 16) + Pow2(31 - 12) + Pow2(31 - 11) + Pow2(31 - 10)
            + Pow2(31 - 8) + Pow2(31 - 7) + Pow2(31 - 5) + Pow2(31 - 4) + Pow2(31 - 2) + Pow2(31 - 1) + Pow2(31 - 0)
  {
    assert Pow2(31) == 0x8000_0000 by { BigPower(); }
    Pow2Doubles(31);
    hide Digits, Value;
    ValueDigits(0xEDB88320, 32);
  }

  lemma BigPower()
    ensures Pow2(31) == 0x8000_0000
  {
    assert Pow2(15) == 0x8000;
    assert Pow2(23) == 0x80_0000;
  }

  // ------------------------------------------------------------- the division

  /** A bit falls out, and the divisor is taken off if it was a 1. */
  function Step(c: Word): Word
  {
    if c[0] then Xor(Polynomial(), Down(c, 1)) else Down(c, 1)
  }

  /** The register after a run of message bits: each is added to the bit that falls out. */
  function Feed(start: Word, bits: Bits): Word
  {
    if bits == [] then start
    else
      var reg := Feed(start, bits[..|bits| - 1]);
      Step(reg[0 := reg[0] != bits[|bits| - 1]])
  }

  function Checksum(data: seq<nat>): Word
  {
    Xor(Feed(Ones(), ByteBits(data)), Ones())
  }

  // ---------------------------------------------------------------- the table

  function Steps(c: Word, n: nat): Word
  {
    if n == 0 then c else Step(Steps(c, n - 1))
  }

  function Entry(i: nat): Word
  {
    Steps(Digits(i, 32), 8)
  }

  method MakeTable() returns (table: seq<Word>)
    ensures |table| == 256 && forall i :: 0 <= i < 256 ==> table[i] == Entry(i)
  {
    hide Step, Steps, Xor, Down, Polynomial, Digits;
    table := [];
    for i := 0 to 256
      invariant |table| == i && forall j :: 0 <= j < i ==> table[j] == Entry(j)
    {
      var c: Word := Digits(i, 32);
      NoSteps(c);
      for k := 0 to 8
        invariant c == Steps(Digits(i, 32), k)
      {
        StepsNext(Digits(i, 32), k);
        c := if c[0] then Xor(Polynomial(), Down(c, 1)) else Down(c, 1);
      }
      table := table + [c];
    }
  }

  lemma NoSteps(c: Word)
    ensures Steps(c, 0) == c
  {
  }

  lemma StepsNext(c: Word, k: nat)
    ensures var d := Steps(c, k); Steps(c, k + 1) == if d[0] then Xor(Polynomial(), Down(d, 1)) else Down(d, 1)
  {
    hide Xor, Down, Polynomial;
  }

  /** The table-driven checksum is the division's. */
  method Crc32(data: seq<nat>) returns (crc: Word)
    requires Bytes(data)
    ensures crc == Checksum(data)
  {
    hide Feed, Xor, Down, Entry;
    var table := MakeTable();
    crc := Ones();
    assert ByteBits(data[..0]) == [];
    NothingFed(Ones());
    for i := 0 to |data|
      invariant crc == Feed(Ones(), ByteBits(data[..i]))
    {
      var index := Value(Xor(crc, Digits(data[i], 32))[..8]);
      ValueBound(Xor(crc, Digits(data[i], 32))[..8]);
      EightBits();
      ByteFed(crc, data[i]);
      FeedFeed(Ones(), ByteBits(data[..i]), Digits(data[i], 8));
      assert data[..i + 1] == data[..i] + [data[i]];
      BytesSnoc(data[..i], data[i]);
      crc := Xor(table[index], Down(crc, 8));
    }
    assert data[..|data|] == data;
    crc := Xor(crc, Ones());
  }

  lemma NothingFed(c: Word)
    ensures Feed(c, []) == c
  {
  }

  lemma {:induction false} FeedFeed(start: Word, a: Bits, b: Bits)
    ensures Feed(Feed(start, a), b) == Feed(start, a + b)
    decreases |b|
  {
    hide Step;
    if b == [] {
      assert a + b == a;
    } else {
      var n := |b| - 1;
      FeedFeed(start, a, b[..n]);
      assert (a + b)[..|a + b| - 1] == a + b[..n];
    }
  }

  // -------------------------------------------------------------- linearity

  lemma StepLinear(x: Word, y: Word)
    ensures Step(Xor(x, y)) == Xor(Step(x), Step(y))
  {
    hide Polynomial;
    var p := Polynomial();
    var z, l, r := Xor(x, y), Step(Xor(x, y)), Xor(Step(x), Step(y));
    assert forall i :: 0 <= i < 32 ==> l[i] == r[i];
  }

  lemma {:induction false} StepsLinear(x: Word, y: Word, n: nat)
    ensures Steps(Xor(x, y), n) == Xor(Steps(x, n), Steps(y, n))
  {
    hide Step, Xor;
    if n > 0 {
      StepsLinear(x, y, n - 1);
      StepLinear(Steps(x, n - 1), Steps(y, n - 1));
    }
  }

  lemma DownNext(x: Word, n: nat)
    ensures Down(x, 0) == x && Down(Down(x, n), 1) == Down(x, n + 1)
    ensures n < 32 ==> Down(x, n)[0] == x[n]
  {
  }

  /** While only zeros fall out, steps are shifts. */
  lemma {:induction false} StepsDown(x: Word, n: nat)
    requires n <= 32 && forall i :: 0 <= i < n ==> !x[i]
    ensures Steps(x, n) == Down(x, n)
  {
    hide Xor, Polynomial, Down, Steps, Step;
    if n == 0 {
      NoSteps(x);
      DownNext(x, 0);
    } else {
      StepsDown(x, n - 1);
      DownNext(x, n - 1);
      StepsNext(x, n - 1);
    }
  }

  /** Bits may all be added first and the steps made afterwards. */
  lemma {:induction false} FeedMany(start: Word, bits: Bits)
    requires |bits| <= 32
    ensures Feed(start, bits) == Steps(Xor(start, Low(bits)), |bits|)
  {
    if bits == [] {
      assert Xor(start, Low(bits)) == start;
    } else {
      var n := |bits| - 1;
      var b := bits[n];
      FeedMany(start, bits[..n]);
      FeedOne(start, bits, n);
    }
  }

  /** The word with one bit, at place `n`. */
  function Single(n: nat, bit: bool): Word
  {
    seq(32, i => i == n && bit)
  }

  lemma FeedOne(start: Word, bits: Bits, n: nat)
    requires |bits| == n + 1 <= 32
    ensures var reg := Steps(Xor(start, Low(bits[..n])), n);
            reg[0 := reg[0] != bits[n]] == Steps(Xor(start, Low(bits)), n)
  {
    var x, last := Xor(start, Low(bits[..n])), Single(n, bits[n]);
    LastAdded(start, bits, n);
    StepsLinear(x, last, n);
    assert forall i :: 0 <= i < n ==> !last[i];
    SingleDown(n, bits[n]);
    hide Steps, Low, Xor, Down, Single;
    StepsDown(last, n);
    AddSingle(Steps(x, n), bits[n]);
  }

  lemma LastAdded(start: Word, bits: Bits, n: nat)
    requires |bits| == n + 1 <= 32
    ensures Xor(Xor(start, Low(bits[..n])), Single(n, bits[n])) == Xor(start, Low(bits))
  {
  }

  lemma SingleDown(n: nat, bit: bool)
    requires n < 32
    ensures Down(Single(n, bit), n) == Single(0, bit)
  {
  }

  lemma AddSingle(reg: Word, bit: bool)
    ensures Xor(reg, Single(0, bit)) == reg[0 := reg[0] != bit]
  {
  }

  lemma {:induction false} DigitsExtend(x: nat, v: nat, w: nat)
    requires v <= w && x < Pow2(v)
    ensures Digits(x, w) == Digits(x, v) + seq(w - v, _ => false)
  {
    if w > 0 {
      if v == 0 {
        DigitsExtend(0, 0, w - 1);
      } else {
        DigitsExtend(x / 2, v - 1, w - 1);
      }
    }
  }

  lemma ByteDigits(x: nat)
    requires x < 256
    ensures Low(Digits(x, 8)) == Digits(x, 32)
  {
    EightBits();
    DigitsExtend(x, 8, 32);
    hide Digits;
  }

  /** Eight steps on the low byte alone, while the rest moves down. */
  lemma EightSteps(y: Word)
    ensures Value(y[..8]) < 256 && Steps(y, 8) == Xor(Entry(Value(y[..8])), Down(y, 8))
  {
    hide Steps, Value, Digits, Pow2;
    var high: Word := seq(32, i requires 0 <= i < 32 => i >= 8 && y[i]);
    assert y == Xor(Low(y[..8]), high);
    assert Down(high, 8) == Down(y, 8);
    StepsLinear(Low(y[..8]), high, 8);
    StepsDown(high, 8);
    hide Xor, Steps, Down, Low;
    EightBits();
    ValueBound(y[..8]);
    ByteDigits(Value(y[..8]));
    DigitsValue(y[..8]);
  }

  /** A byte does not reach beyond the low eight bits. */
  lemma ByteHigh(c: Word, x: nat)
    requires x < 256
    ensures Down(Xor(c, Digits(x, 32)), 8) == Down(c, 8)
  {
    EightBits();
    DigitsExtend(x, 8, 32);
    hide Digits;
  }

  /** One byte of the message is one look into the table. */
  lemma ByteFed(c: Word, x: nat)
    requires x < 256
    ensures var y := Xor(c, Digits(x, 32));
            Feed(c, Digits(x, 8)) == Xor(Entry(Value(y[..8])), Down(c, 8))
  {
    hide Digits, Steps, Feed, Entry, Xor, Down, Low;
    var y := Xor(c, Digits(x, 32));
    FeedMany(c, Digits(x, 8));
    ByteDigits(x);
    EightSteps(y);
    ByteHigh(c, x);
  }

  /** A message followed by its own checksum, low byte first, always leaves the same
      register: any reader can check it without knowing where the checksum begins. */
  lemma ChecksumResidue(data: seq<nat>, sum: seq<nat>)
    requires |sum| == 4 && ByteBits(sum) == Checksum(data)
    ensures Feed(Ones(), ByteBits(data) + ByteBits(sum)) == Steps(Ones(), 32)
  {
    hide Feed, Steps, ByteBits, Low, Xor;
    var reg := Feed(Ones(), ByteBits(data));
    FeedFeed(Ones(), ByteBits(data), ByteBits(sum));
    FeedMany(reg, ByteBits(sum));
    Complemented(reg);
  }

  lemma Complemented(reg: Word)
    ensures Low(Xor(reg, Ones())) == Xor(reg, Ones()) && Xor(reg, Xor(reg, Ones())) == Ones()
  {
  }
}
