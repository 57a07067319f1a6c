/** Powers of two, bits and low parts of unbounded naturals. */
module Bits {

  function P2(n: nat): (r: nat)
    ensures r > 0
  {
    if n == 0 then 1 else 2 * P2(n - 1)
  }

  lemma {:induction false} P2Add(a: nat, b: nat)
    ensures P2(a + b) == P2(a) * P2(b)
  {
    if a > 0 {
      P2Add(a - 1, b);
      assert P2(a) * P2(b) == 2 * (P2(a - 1) * P2(b));
    }
  }

  lemma {:induction false} P2Mono(a: nat, b: nat)
    requires a <= b
    ensures P2(a) <= P2(b)
  {
    if a < b { P2Mono(a, b - 1); }
  }

  lemma P2Words()
    ensures P2(8) == 0x100 && P2(16) == 0x1_0000 && P2(31) == 0x8000_0000
    ensures P2(32) == 0x1_0000_0000 && P2(63) == 0x8000_0000_0000_0000 && P2(64) == 0x1_0000_0000_0000_0000
  {
    assert P2(8) == 0x100;
    P2Add(8, 8);
    P2Add(16, 16);
    P2Add(32, 32);
    assert P2(32) == 2 * P2(31) && P2(64) == 2 * P2(63);
  }

  // ---- products ----

  lemma MulAssoc(a: int, b: int, c: int)
    ensures a * b * c == a * (b * c)
  {
  }

  lemma MulDist(a: int, b: int, c: int)
    ensures (a + b) * c == a * c + b * c
  {
  }

  lemma MulMono(a: int, b: int, k: int)
    requires a <= b && k >= 0
    ensures a * k <= b * k
  {
  }

  lemma MulNonNeg(a: int, b: int)
    requires a >= 0 && b >= 0
    ensures a * b >= 0
  {
  }

  /** Below `d` whole units of size `q`, with a remainder, is below d * q. */
  lemma UnitsBelow(l: int, d: int, q: int, r: int)
    requires 0 <= l < d && 0 <= r < q
    ensures 0 <= l * q + r < d * q
  {
    MulNonNeg(l, q);
    MulMono(l + 1, d, q);
    MulDist(l, 1, q);
  }

  // ---- division ----

  lemma MultipleIsLarge(k: int, d: int)
    requires d > 0
    ensures k > 0 ==> k * d >= d
    ensures k < 0 ==> k * d <= -d
  {
    if k > 0 {
      assert (k - 1) * d >= 0;
    } else if k < 0 {
      assert (-k - 1) * d >= 0;
    }
  }

  /** Quotient and remainder are determined by the usual equation. */
  lemma DivModUnique(x: int, d: int, q: int, r: int)
    requires d > 0 && x == q * d + r && 0 <= r < d
    ensures x / d == q && x % d == r
  {
    var q', r' := x / d, x % d;
    assert x == q' * d + r';
    assert (q - q') * d == q * d - q' * d;
    MultipleIsLarge(q - q', d);
  }

  lemma DivMod(x: int, d: nat)
    requires d > 0
    ensures x == x / d * d + x % d && 0 <= x % d < d
  {
  }

  lemma DivNonNeg(x: int, d: int)
    requires x >= 0 && d > 0
    ensures x / d >= 0
  {
    DivMod(x, d);
    MultipleIsLarge(x / d, d);
  }

  lemma DivBelow(x: int, d: int, q: int)
    requires 0 <= x < q * d && d > 0
    ensures x / d < q
  {
    DivMod(x, d);
    if x / d >= q { MulMono(q, x / d, d); }
  }

  /** Dividing twice is dividing by the product. */
  lemma DivDiv(x: nat, a: nat, b: nat)
    requires a > 0 && b > 0
    ensures a * b > 0 && x / a / b == x / (a * b)
    ensures x % (a * b) == x / a % b * a + x % a
  {
    var q, r := x / a, x % a;
    var q', r' := q / b, q % b;
    assert x == (q' * b + r') * a + r;
    assert (q' * b + r') * a + r == q' * (a * b) + (r' * a + r) by {
      assert (q' * b + r') * a == q' * (a * b) + r' * a;
    }
    assert r' * a + r < a * b by { assert (r' + 1) * a <= b * a; }
    assert a * b > 0;
    assert 0 <= r' * a;
    DivModUnique(x, a * b, q', r' * a + r);
  }

  // ---- bits ----

  function Bit(v: nat, i: nat): (b: nat)
    ensures b <= 1
  {
    v / P2(i) % 2
  }

  function Low(v: nat, i: nat): (r: nat)
    ensures r < P2(i)
  {
    v % P2(i)
  }

  /** One more low bit. */
  lemma LowStep(v: nat, i: nat)
    ensures Low(v, i + 1) == Bit(v, i) * P2(i) + Low(v, i)
  {
    DivDiv(v, P2(i), 2);
    assert P2(i) * 2 == P2(i + 1);
  }

  lemma LowOfSmall(v: nat, i: nat)
    requires v < P2(i)
    ensures Low(v, i) == v && v / P2(i) == 0 && Bit(v, i) == 0
  {
    DivModUnique(v, P2(i), 0, v);
  }
}
