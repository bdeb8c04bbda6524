/** Powers of two and the division facts that go with them. */
module Powers {

  function Pow2(n: nat): (p: nat)
    ensures p >= 1
  {
    if n == 0 then 1 else 2 * Pow2(n - 1)
  }

  lemma Pow2Doubles(n: nat)
    ensures Pow2(n + 1) == 2 * Pow2(n)
  {
  }

  lemma {:induction false} Pow2Monotone(a: nat, b: nat)
    requires a <= b
    ensures Pow2(a) <= Pow2(b)
    decreases b
  {
    if a < b { Pow2Monotone(a, b - 1); }
  }

  lemma MulAtLeast(d: nat, e: nat)
    requires e >= 1
    ensures d * e >= d
  {
  }

  lemma MulAtMost(d: nat, e: int)
    requires e <= -1
    ensures d * e <= 0 - d
  {
  }

  lemma SmallMultiple(d: nat, e: int)
    requires d > 0 && 0 - d < d * e < d
    ensures e == 0
  {
    if e > 0 {
      MulAtLeast(d, e);
    } else if e < 0 {
      MulAtMost(d, e);
    }
  }

  /** Division with remainder is unique. */
  lemma DivMod(d: nat, q: nat, r: nat, n: nat)
    requires r < d && n == r + d * q
    ensures n % d == r && n / d == q
  {
    var e := n / d - q;
    assert n == d * (n / d) + n % d;
    assert d * e == d * (n / d) - d * q;
    SmallMultiple(d, e);
  }

  lemma MulAssociates(a: int, b: int, c: int)
    ensures a * (b * c) == (a * b) * c
  {
  }
}
