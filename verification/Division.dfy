/** 64-bit division out of 32-bit pieces: the helpers the compiler calls on a machine without one. */
module Division {
  import opened Bits

  const TWO32 := 0x1_0000_0000
  const TWO63 := 0x8000_0000_0000_0000
  const TWO64 := 0x1_0000_0000_0000_0000

  /** What an unsigned division must return; a zero divisor yields zeros. */
  ghost predicate Divided(n: nat, d: nat, q: nat, r: nat)
  {
    if d == 0 then q == 0 && r == 0 else n == q * d + r && r < d
  }

  /** The CPU's 64/32 divide. */
  method Divl(hi: nat, lo: nat, d: nat) returns (q: nat, r: nat)
    requires 0 < d < TWO32 && hi < d && lo < TWO32
    ensures hi * TWO32 + lo == q * d + r && r < d && q < TWO32
  {
    var v := hi * TWO32 + lo;
    q, r := v / d, v % d;
    QuotientFits(v, d, q, r, hi);
  }

  lemma QuotientFits(v: nat, d: nat, q: nat, r: nat, hi: nat)
    requires v == q * d + r && v < (hi + 1) * TWO32 && hi < d
    ensures q < TWO32
  {
    assert (hi + 1) * TWO32 <= d * TWO32;
    if q >= TWO32 {
      MulMono(TWO32, q, d);
    }
  }

  // ---- leading zeros ----

  /** One step of the search: if the top `k` bits are clear, shift them out. */
  method ClzStep(v: nat, x: nat, n: nat, k: nat, top: nat, mul: nat) returns (x': nat, n': nat)
    requires mul == P2(k) && top * mul == TWO64 && top > 0
    requires x == v * P2(n) && top <= x * mul && x < TWO64
    ensures x' == v * P2(n') && top <= x' < TWO64
    ensures n' == n || n' == n + k
  {
    x', n' := x, n;
    DivMod(x, top);
    if x / top == 0 {
      Shifted(v, x, n, k);
      MulStrict(x, top, mul);
      x', n' := x * mul % TWO64, n + k;
    } else {
      MultipleIsLarge(x / top, top);
    }
  }

  lemma Shifted(v: nat, x: nat, n: nat, k: nat)
    requires x == v * P2(n)
    ensures x * P2(k) == v * P2(n + k)
  {
    P2Add(n, k);
    assert v * P2(n) * P2(k) == v * (P2(n) * P2(k));
  }

  /** `clz64`: halve the search six times. */
  method Clz64(v: nat) returns (n: nat)
    requires 0 < v < TWO64
    ensures n < 64 && P2(63 - n) <= v < P2(64 - n)
  {
    var x := v;
    n := 0;
    P2Words();
    assert P2(4) == 16 && P2(2) == 4 && P2(1) == 2;
    x, n := ClzStep(v, x, n, 32, 0x1_0000_0000, 0x1_0000_0000);
    x, n := ClzStep(v, x, n, 16, 0x1_0000_0000_0000, 0x1_0000);
    x, n := ClzStep(v, x, n, 8, 0x100_0000_0000_0000, 0x100);
    x, n := ClzStep(v, x, n, 4, 0x1000_0000_0000_0000, 0x10);
    x, n := ClzStep(v, x, n, 2, 0x4000_0000_0000_0000, 4);
    x, n := ClzStep(v, x, n, 1, TWO63, 2);
    Normalised(v, x, n);
  }

  /** A word with its top bit set after shifting by `n` had `n` leading zeros. */
  lemma Normalised(v: nat, x: nat, n: nat)
    requires 0 < v && x == v * P2(n) && TWO63 <= x < TWO64 && n <= 63
    ensures P2(63 - n) <= v < P2(64 - n)
  {
    P2Words();
    P2Add(63 - n, n);
    P2Add(64 - n, n);
    if v < P2(63 - n) { MulStrict(v, P2(63 - n), P2(n)); }
    if v >= P2(64 - n) { MulMono(P2(64 - n), v, P2(n)); }
  }

  lemma MulStrict(a: nat, b: nat, k: nat)
    requires a < b && k > 0
    ensures a * k < b * k
  {
  }

  // ---- unsigned division ----

  /** Divisor below 2^32: two hardware divides. */
  method DivByWord(n: nat, d: nat) returns (q: nat, r: nat)
    requires n < TWO64 && 0 < d < TWO32
    ensures Divided(n, d, q, r) && q < TWO64
  {
    var hi, lo := n / TWO32, n % TWO32;
    var qh := 0;
    if hi >= d { qh := hi / d; hi := hi % d; }
    var ql;
    ql, r := Divl(hi, lo, d);
    q := qh * TWO32 + ql;
    JoinQuotients(n, d, qh, hi, lo, ql, r);
  }

  lemma JoinQuotients(n: nat, d: nat, qh: nat, hi: nat, lo: nat, ql: nat, r: nat)
    requires n == (qh * d + hi) * TWO32 + lo && hi * TWO32 + lo == ql * d + r && 0 < d
    requires n < TWO64 && ql < TWO32
    ensures n == (qh * TWO32 + ql) * d + r && qh * TWO32 + ql < TWO64
  {
    assert (qh * TWO32 + ql) * d == qh * d * TWO32 + ql * d;
    if qh >= TWO32 { MulMono(1, d, qh); }
  }

  /** Divisor of 33 bits or more: restoring shift-subtract from the aligned divisor down. */
  method DivByLong(n: nat, d: nat) returns (q: nat, r: nat)
    requires TWO32 <= d <= n < TWO64
    ensures Divided(n, d, q, r) && q < TWO32
  {
    var cd := Clz64(d);
    var cn := Clz64(n);
    Aligned(n, d, cn, cd);
    var sh := cd - cn;
    q, r := ShiftSubtract(n, d, sh, d * P2(sh) % TWO64);
    SmallQuotient(n, d, q, r);
  }

  /** The loop: a quotient bit a round, the divisor shifted up by `sh` at first. */
  method ShiftSubtract(n: nat, d: nat, sh: nat, shifted: nat) returns (q: nat, r: nat)
    requires 0 < d && shifted == d * P2(sh) && n < d * P2(sh + 1)
    ensures Divided(n, d, q, r)
  {
    var i: int, dd := sh, shifted;
    q, r := 0, n;
    ghost var m := d * P2(sh + 1);
    while i >= 0
      invariant -1 <= i <= sh && 0 < m == d * P2(i + 1) && (i >= 0 ==> dd == d * P2(i))
      invariant n == q * m + r && r < m
    {
      LongStep(n, d, i, q, m, dd, r);
      q := 2 * q;
      if r >= dd { r := r - dd; q := q + 1; }
      m, dd, i := dd, dd / 2, i - 1;
    }
    assert P2(0) == 1 && m == d;
  }

  /** One more quotient bit, by the divisor half as far up. */
  lemma LongStep(n: nat, d: nat, i: nat, q: nat, m: nat, dd: nat, r: nat)
    requires 0 < m == d * P2(i + 1) && dd == d * P2(i) && n == q * m + r && r < m
    ensures 0 < dd && n == (if r >= dd then (2 * q + 1) * dd + (r - dd) else 2 * q * dd + r)
    ensures (if r >= dd then r - dd else r) < dd
    ensures i > 0 ==> dd / 2 == d * P2(i - 1)
  {
    Halve(d, i, q, m, dd);
  }

  /** Shifting the divisor up to the dividend's leading bit loses no bit and brings it within a
      factor of two. */
  lemma Aligned(n: nat, d: nat, cn: nat, cd: nat)
    requires d <= n && cn < 64 && cd < 64
    requires P2(63 - cn) <= n < P2(64 - cn) && P2(63 - cd) <= d < P2(64 - cd)
    ensures cn <= cd && d * P2(cd - cn) < TWO64 && n < d * P2(cd - cn + 1)
    ensures d >= TWO32 ==> cd - cn <= 31
  {
    if cd < cn { P2Mono(64 - cn, 63 - cd); }
    var sh := cd - cn;
    AlignedFits(d, cd, sh);
    AlignedReaches(d, cd, sh);
    AlignedNear(d, cd, sh);
  }

  lemma AlignedFits(d: nat, cd: nat, sh: nat)
    requires cd < 64 && sh <= cd && d < P2(64 - cd)
    ensures d * P2(sh) < TWO64
  {
    P2Words();
    P2Add(64 - cd, sh);
    MulStrict(d, P2(64 - cd), P2(sh));
    P2Mono(64 - cd + sh, 64);
  }

  lemma AlignedReaches(d: nat, cd: nat, sh: nat)
    requires cd < 64 && P2(63 - cd) <= d
    ensures P2(64 - cd + sh) <= d * P2(sh + 1)
  {
    P2Add(63 - cd, sh + 1);
    MulMono(P2(63 - cd), d, P2(sh + 1));
  }

  lemma AlignedNear(d: nat, cd: nat, sh: nat)
    requires cd < 64 && sh <= cd && d < P2(64 - cd)
    ensures d >= TWO32 ==> sh <= 31
  {
    P2Words();
    if sh > 31 { P2Mono(64 - cd, 32); }
  }

  lemma Halve(d: nat, i: nat, q: nat, m: nat, dd: nat)
    requires m == d * P2(i + 1) && dd == d * P2(i)
    ensures m == 2 * dd && q * m == (2 * q) * dd && (2 * q + 1) * dd == (2 * q) * dd + dd
    ensures i > 0 ==> dd / 2 == d * P2(i - 1)
  {
    assert d * (2 * P2(i)) == 2 * (d * P2(i));
    if i > 0 { assert d * (2 * P2(i - 1)) == 2 * (d * P2(i - 1)); }
    assert q * (2 * dd) == (2 * q) * dd;
  }

  lemma SmallQuotient(n: nat, d: nat, q: nat, r: nat)
    requires n == q * d + r && n < TWO64 && d >= TWO32
    ensures q < TWO32
  {
    if q >= TWO32 { MulMono(TWO32, q, d); }
  }

  /** `__udivmoddi4`. */
  method UDivMod(n: nat, d: nat) returns (q: nat, r: nat)
    requires n < TWO64 && d < TWO64
    ensures Divided(n, d, q, r) && q < TWO64 && r < TWO64
  {
    if d == 0 { return 0, 0; }
    if d / TWO32 == 0 {
      q, r := DivByWord(n, d);
      return;
    }
    if n < d { return 0, n; }
    q, r := DivByLong(n, d);
  }

  // ---- signed division ----

  type Int64 = x: int | -TWO63 <= x < TWO63

  /** The bits of a signed word read as unsigned, its magnitude, and back. */
  function Unsigned(a: Int64): (u: nat) { if a < 0 then a + TWO64 else a }

  function Negated(u: nat): (r: nat)
    requires u < TWO64
  {
    (TWO64 - u) % TWO64
  }

  function Signed(u: nat): (a: Int64)
    requires u < TWO64
  {
    if u >= TWO63 then u - TWO64 else u
  }

  /** Division truncating toward zero; the remainder takes the dividend's sign. */
  ghost predicate Truncated(a: int, b: int, q: int, r: int)
  {
    a == q * b + r && (if b < 0 then b < r < -b else -b < r < b) && (r == 0 || (r < 0 <==> a < 0))
  }

  /** `__divmoddi4`. */
  method DivMod64(a: Int64, b: Int64) returns (q: Int64, r: Int64)
    ensures b == 0 ==> q == 0 && r == 0
    ensures b != 0 && !(a == -TWO63 && b == -1) ==> Truncated(a, b, q, r)
    ensures a == -TWO63 && b == -1 ==> q == -TWO63 && r == 0
  {
    var negQ, negR := (a < 0) != (b < 0), a < 0;
    var ua := if a < 0 then Negated(Unsigned(a)) else Unsigned(a);
    var ub := if b < 0 then Negated(Unsigned(b)) else Unsigned(b);
    var uq, ur := UDivMod(ua, ub);
    SignsRestored(a, b, ua, ub, uq, ur);
    r := if negR then Signed(Negated(ur)) else Signed(ur);
    q := if negQ then Signed(Negated(uq)) else Signed(uq);
  }

  /** Magnitudes divide, then the signs go back on; only the one quotient that does not fit wraps. */
  lemma SignsRestored(a: int, b: int, ua: nat, ub: nat, uq: int, ur: int)
    requires -TWO63 <= a < TWO63 && -TWO63 <= b < TWO63
    requires ua == (if a < 0 then -a else a) && ub == (if b < 0 then -b else b)
    requires uq >= 0 && ur >= 0 && Divided(ua, ub, uq, ur)
    ensures uq <= TWO63 && ur < TWO63
    ensures uq == TWO63 && (a < 0) == (b < 0) ==> a == -TWO63 && b == -1
    ensures a == -TWO63 && b == -1 ==> uq == TWO63 && ur == 0
    ensures b != 0 ==> Truncated(a, b, if (a < 0) != (b < 0) then -uq else uq, if a < 0 then -ur else ur)
  {
    if b != 0 {
      MulMono(1, ub, uq);
      if ub >= 2 { MulMono(2, ub, uq); }
      SignedProduct(a, b, ub, uq);
    }
  }

  lemma SignedProduct(a: int, b: int, ub: int, uq: int)
    requires ub == (if b < 0 then -b else b)
    ensures (if (a < 0) != (b < 0) then -uq else uq) * b == (if a < 0 then -(uq * ub) else uq * ub)
  {
  }

  /** There is only one such quotient and remainder. */
  lemma TruncationIsUnique(a: int, b: int, q: int, r: int, q': int, r': int)
    requires b != 0 && Truncated(a, b, q, r) && Truncated(a, b, q', r')
    ensures q == q' && r == r'
  {
    var m := if b < 0 then -b else b;
    assert (q - q') * b == r' - r;
    assert (q - q') * b == (if b < 0 then -((q - q') * m) else (q - q') * m);
    MultipleIsLarge(q - q', m);
  }
}
