/** Argument reduction modulo pi/2: the quotient modulo 4 and a normalised 64-bit fraction, from an
    exact product with a window of 2/pi. */
module TrigReduce {
  import opened Bits
  import opened TrigWindow
  import opened TrigLimbs

  // ---- the quotient bits ----

  /** The integer nearest to v / 2^sh, halves upward. */
  ghost function Nearest(v: nat, sh: nat): (n: int)
    requires sh > 0
  {
    (v + P2(sh - 1)) / P2(sh)
  }

  lemma TwoBits(x: nat)
    ensures x % 4 == x % 2 + 2 * (x / 2 % 2)
  {
  }

  lemma RoundUp(v: int, x: int, h: int, b: int, l: int)
    requires 0 <= l < h && 0 <= b <= 1 && v == x * (2 * h) + (b * h + l)
    ensures (v + h) / (2 * h) == x + b
  {
    if b == 1 {
      MulDist(x, 1, 2 * h);
      DivModUnique(v + h, 2 * h, x + 1, l);
    } else {
      DivModUnique(v + h, 2 * h, x, l + h);
    }
  }

  /** The two units bits and the first fraction bit give the nearest integer modulo 4. */
  lemma QuotientBits(v: nat, sh: nat)
    requires sh > 0
    ensures Nearest(v, sh) % 4 == (Bit(v, sh) + 2 * Bit(v, sh + 1) + Bit(v, sh - 1)) % 4
    ensures Bit(v, sh - 1) == 1 <==> 2 * Low(v, sh) >= P2(sh)
  {
    NearestIsRounded(v, sh);
    UnitsBits(v, sh);
    RoundedMod4(Nearest(v, sh), v / P2(sh), Bit(v, sh - 1), Bit(v, sh), Bit(v, sh + 1));
    TopFractionBit(v, sh);
  }

  lemma RoundedMod4(n: int, x: int, f: int, u: int, w: int)
    requires n == x + f && x >= 0 && x % 4 == u + 2 * w
    ensures n % 4 == (u + 2 * w + f) % 4
  {
  }

  lemma TopFractionBit(v: nat, sh: nat)
    requires sh > 0
    ensures Bit(v, sh - 1) == 1 <==> 2 * Low(v, sh) >= P2(sh)
  {
    LowStep(v, sh - 1);
    HalfOrMore(Low(v, sh), P2(sh - 1), Bit(v, sh - 1), Low(v, sh - 1));
  }

  lemma HalfOrMore(low: int, h: int, b: int, l: int)
    requires low == b * h + l && 0 <= l < h && 0 <= b <= 1
    ensures b == 1 <==> 2 * low >= 2 * h
  {
    if b == 1 {
      assert low == h + l;
    } else {
      assert b == 0 && low == l;
    }
  }

  lemma NearestIsRounded(v: nat, sh: nat)
    requires sh > 0
    ensures Nearest(v, sh) == v / P2(sh) + Bit(v, sh - 1)
  {
    LowStep(v, sh - 1);
    DivMod(v, P2(sh));
    RoundUp(v, v / P2(sh), P2(sh - 1), Bit(v, sh - 1), Low(v, sh - 1));
  }

  lemma UnitsBits(v: nat, sh: nat)
    ensures v / P2(sh) >= 0 && v / P2(sh) % 4 == Bit(v, sh) + 2 * Bit(v, sh + 1)
  {
    DivDiv(v, P2(sh), 2);
    assert P2(sh) * 2 == P2(sh + 1);
    DivMod(v, P2(sh));
    if v / P2(sh) < 0 { MultipleIsLarge(v / P2(sh), P2(sh)); }
    TwoBits(v / P2(sh));
  }

  // ---- the fraction ----

  function Xor(a: nat, b: nat): (r: nat)
    requires a <= 1 && b <= 1
    ensures r <= 1
  {
    if a == b then 0 else 1
  }

  /** The low `i` bits, complemented when the fraction is taken from above. */
  ghost function Sig(v: nat, neg: nat, i: nat): (r: int)
    ensures 0 <= r < P2(i)
  {
    if neg == 0 then Low(v, i) else P2(i) - 1 - Low(v, i)
  }

  lemma SigStep(v: nat, neg: nat, i: nat)
    requires neg <= 1
    ensures Sig(v, neg, i + 1) == Sig(v, neg, i) + Xor(Bit(v, i), neg) * P2(i)
  {
    LowStep(v, i);
  }

  /** Distance from v / 2^sh to the nearest integer, in units of 2^-sh. */
  ghost function Offset(v: nat, sh: nat): (m: int)
    requires sh > 0
  {
    if 2 * Low(v, sh) >= P2(sh) then P2(sh) - Low(v, sh) else Low(v, sh)
  }

  /** Find the first significant fraction bit. */
  method FindTop(p: seq<nat>, sh: nat, neg: nat) returns (top: int)
    requires |p| == 10 && AreLimbs(p) && neg <= 1 && sh > 0
    ensures Limbs(p, 10) >= 0 && -1 <= top < sh
    ensures Sig(Limbs(p, 10), neg, top + 1) == Sig(Limbs(p, 10), neg, sh)
    ensures top >= 0 ==> PBit(p, top) != neg
  {
    LimbsBound(p, 10);
    top := sh - 1;
    while top >= 0 && PBit(p, top) == neg
      invariant -1 <= top < sh
      invariant Sig(Limbs(p, 10), neg, top + 1) == Sig(Limbs(p, 10), neg, sh)
    {
      PBitIsBit(p, top);
      SigStep(Limbs(p, 10), neg, top);
      top := top - 1;
    }
  }

  /** What the fraction register holds after the bits above position j have been shifted in. */
  ghost predicate Shifted(v: nat, neg: nat, top: nat, fr: nat, j: int)
  {
    if j >= 0 then fr * P2(j) + Sig(v, neg, j) == Sig(v, neg, top + 1)
    else fr == Sig(v, neg, top + 1) * P2(-j) + neg * (P2(-j) - 1)
  }

  lemma ShiftOne(v: nat, neg: nat, top: nat, fr: nat, j: int, b: nat)
    requires neg <= 1 && Shifted(v, neg, top, fr, j)
    requires b == if j > 0 then Xor(Bit(v, j - 1), neg) else neg
    ensures Shifted(v, neg, top, 2 * fr + b, j - 1)
  {
    var q := Sig(v, neg, top + 1);
    if j > 0 {
      SigStep(v, neg, j - 1);
      MulDist(2 * fr, b, P2(j - 1));
      MulAssoc(fr, 2, P2(j - 1));
    } else {
      assert P2(-(j - 1)) == 2 * P2(-j);
      MulAssoc(q, P2(-j), 2);
    }
  }

  /** 64 bits from `top` down. */
  method TakeFraction(p: seq<nat>, top: nat, neg: nat) returns (fr: nat)
    requires |p| == 10 && AreLimbs(p) && neg <= 1 && PBit(p, top) != neg
    ensures P2(63) <= fr < P2(64)
    ensures Limbs(p, 10) >= 0 && Shifted(Limbs(p, 10), neg, top, fr, top - 63)
  {
    LimbsBound(p, 10);
    fr := 0;
    for i := 0 to 64
      invariant Shifted(Limbs(p, 10), neg, top, fr, top + 1 - i)
      invariant fr < P2(i) && (i > 0 ==> P2(i - 1) <= fr)
    {
      PBitIsBit(p, top - i);
      ShiftOne(Limbs(p, 10), neg, top, fr, top + 1 - i, Xor(PBit(p, top - i), neg));
      fr := 2 * fr + Xor(PBit(p, top - i), neg);
    }
  }

  // ---- the reduction ----

  /** Mantissa and exponent of a finite double: x = m * 2^e. */
  function Mantissa(be: nat, frac: nat): (m: nat) { if be != 0 then frac + P2(52) else frac }

  function Exponent(be: nat): (e: int) { (if be != 0 then be else 1) - 1075 }

  /** First bit of 2/pi that matters modulo 4. */
  function WindowStart(e: int): (i0: nat) { if e - 2 > 0 then e - 2 else 0 }

  /** Bit index of the units place in the product. */
  function UnitsPlace(e: int): (sh: nat)
    requires e <= 971
    ensures sh >= 254
  {
    256 + WindowStart(e) - e
  }

  /** The exact product the limbs hold. */
  ghost function Product(tw: seq<Word32>, be: nat, frac: nat): (v: int)
  {
    Mantissa(be, frac) * Limbs(Window(tw, WindowStart(Exponent(be))), 8)
  }

  method LoadWindow(i0: nat) returns (w: seq<nat>)
    ensures w == Window(TWO_OVER_PI, i0)
  {
    w := [];
    for k := 0 to 8
      invariant |w| == k && forall j :: 0 <= j < k ==> w[j] == TpiWord(TWO_OVER_PI, i0 + 32 * (7 - j))
    {
      w := w + [TpiWord(TWO_OVER_PI, i0 + 32 * (7 - k))];
    }
  }

  /** `trig_reduce` up to the final scaling: the quotient modulo 4, and the fraction as a normalised
      64-bit word `fr` whose top bit has weight 2^(top - sh), with its sign. */
  method Reduce(be: nat, frac: nat) returns (n: nat, neg: nat, top: int, fr: nat)
    requires be <= 2046 && frac < P2(52)
    ensures Product(TWO_OVER_PI, be, frac) >= 0
    ensures var v, sh := Product(TWO_OVER_PI, be, frac), UnitsPlace(Exponent(be));
            && n == Nearest(v, sh) % 4
            && (neg == 1 <==> 2 * Low(v, sh) >= P2(sh)) && neg <= 1
            && (top < 0 ==> Offset(v, sh) == neg)
            && (top >= 0 ==> P2(63) <= fr < P2(64) && 0 <= Offset(v, sh) * P2(63) - fr * P2(top) <= P2(top))
  {
    var m, e := Mantissa(be, frac), Exponent(be);
    var w := LoadWindow(WindowStart(e));
    WindowIsNextBits(TWO_OVER_PI, WindowStart(e));
    MantissaBound(be, frac);
    var limbs := MulWindow(m, w);
    n, neg, top, fr := ReadOff(limbs[..], UnitsPlace(e));
  }

  lemma MantissaBound(be: nat, frac: nat)
    requires frac < P2(52)
    ensures Mantissa(be, frac) < P2(53)
  {
    assert P2(53) == 2 * P2(52);
  }

  /** Quotient, sign and fraction from the product's bits. */
  method ReadOff(p: seq<nat>, sh: nat) returns (n: nat, neg: nat, top: int, fr: nat)
    requires |p| == 10 && AreLimbs(p) && sh > 0
    ensures Limbs(p, 10) >= 0 && n == Nearest(Limbs(p, 10), sh) % 4
    ensures (neg == 1 <==> 2 * Low(Limbs(p, 10), sh) >= P2(sh)) && neg <= 1
    ensures top < 0 ==> Offset(Limbs(p, 10), sh) == neg
    ensures top >= 0 ==> P2(63) <= fr < P2(64) && 0 <= Offset(Limbs(p, 10), sh) * P2(63) - fr * P2(top) <= P2(top)
  {
    PBitIsBit(p, sh - 1);
    PBitIsBit(p, sh);
    PBitIsBit(p, sh + 1);
    QuotientBits(Limbs(p, 10), sh);
    n := PBit(p, sh) + 2 * PBit(p, sh + 1);
    neg := PBit(p, sh - 1);
    if neg == 1 { n := (n + 1) % 4; }
    top := FindTop(p, sh, neg);
    fr := 0;
    if top >= 0 {
      fr := TakeFraction(p, top, neg);
      FractionIsClose(Limbs(p, 10), sh, neg, top, fr);
    }
  }

  /** The register is within one unit of its last bit of the true offset. */
  lemma FractionIsClose(v: nat, sh: nat, neg: nat, top: nat, fr: nat)
    requires sh > 0 && neg <= 1 && (neg == 1 <==> 2 * Low(v, sh) >= P2(sh))
    requires Sig(v, neg, top + 1) == Sig(v, neg, sh) && Shifted(v, neg, top, fr, top - 63)
    ensures 0 <= Offset(v, sh) * P2(63) - fr * P2(top) <= P2(top)
  {
    var j, q := top - 63, Sig(v, neg, sh);
    assert Offset(v, sh) == q + neg;
    if j >= 0 {
      P2Add(j, 63);
      CloseAbove(q, neg, fr, P2(j), Sig(v, neg, j), P2(63));
    } else {
      P2Add(-j, top);
      CloseBelow(q, neg, fr, P2(-j), P2(top));
    }
  }

  lemma CloseAbove(q: int, neg: int, fr: int, p: int, s: int, t: int)
    requires 0 <= neg <= 1 && fr * p + s == q && 0 <= s < p && t > 0
    ensures 0 <= (q + neg) * t - fr * (p * t) <= p * t
  {
    MulDist(fr * p, s + neg, t);
    MulAssoc(fr, p, t);
    MulNonNeg(s + neg, t);
    MulMono(s + neg, p, t);
  }

  lemma CloseBelow(q: int, neg: int, fr: int, p: int, t: int)
    requires 0 <= neg <= 1 && fr == q * p + neg * (p - 1) && t > 0
    ensures 0 <= (q + neg) * (p * t) - fr * t <= t
  {
    assert fr == (q + neg) * p - neg by { MulDist(q, neg, p); assert neg * (p - 1) == neg * p - neg; }
    MulDist((q + neg) * p, -neg, t);
    MulAssoc(q + neg, p, t);
    MulMono(neg, 1, t);
    MulNonNeg(neg, t);
  }

  // ---- against the whole table ----

  /** No double reaches past the table: every window word and its successor exist. */
  lemma WindowInsideTable(be: nat, k: nat)
    requires be <= 2046 && k < 8
    ensures -1074 <= Exponent(be) <= 971
    ensures WindowStart(Exponent(be)) + 256 <= 32 * WORDS
    ensures (WindowStart(Exponent(be)) + 32 * (7 - k)) / 32 + 1 < WORDS
  {
  }

  /** The whole table around a window; `a` bits come after it. */
  lemma AroundWindow(tw: seq<Word32>, i0: nat, a: nat) returns (rest: int)
    requires |tw| == WORDS && i0 + 256 + a == 32 * |tw|
    ensures Whole(tw) == FirstBits(tw, i0) * P2(256 + a) + Limbs(Window(tw, i0), 8) * P2(a) + rest
    ensures 0 <= rest < P2(a)
  {
    rest := WholeTable(tw, i0 + 256, a);
    WindowIsNextBits(tw, i0);
    P2Add(256, a);
    SplitPrefix(Whole(tw), FirstBits(tw, i0 + 256), FirstBits(tw, i0), P2(256), Limbs(Window(tw, i0), 8), P2(a),
                P2(256 + a), rest);
  }

  lemma SplitPrefix(whole: int, g: int, f: int, p: int, w: int, q: int, pq: int, rest: int)
    requires whole == g * q + rest && g == f * p + w && pq == p * q
    ensures whole == f * pq + w * q + rest
  {
    MulDist(f * p, w, q);
    MulAssoc(f, p, q);
  }

  /** Bits of the table after the window. */
  function BitsAfter(e: int): (a: nat)
    requires e <= 971
  {
    32 * WORDS - 256 - WindowStart(e)
  }

  /** The window is enough, for any table: m times the whole table differs from the product by a
      multiple of four in the quotient's units (the skipped leading bits) and a tail below 2^53
      units of the window's last bit. */
  lemma SkippedBitsAreMultiplesOfFour(tw: seq<Word32>, m: nat, e: int, v: int) returns (k: int, tail: int)
    requires |tw| == WORDS && m < P2(53) && e <= 971 && v == m * Limbs(Window(tw, WindowStart(e)), 8)
    ensures m * Whole(tw) == 4 * k * P2(UnitsPlace(e) + BitsAfter(e)) + v * P2(BitsAfter(e)) + tail
    ensures 0 <= tail < P2(53) * P2(BitsAfter(e))
  {
    k := TopPart(tw, m, e);
    var rest := AroundProduct(tw, m, e, v);
    TailBound(m, P2(53), rest, P2(BitsAfter(e)));
    tail := m * rest;
  }

  /** The product with the whole table: before the window, in it, after it. */
  lemma AroundProduct(tw: seq<Word32>, m: nat, e: int, v: int) returns (rest: nat)
    requires |tw| == WORDS && e <= 971 && v == m * Limbs(Window(tw, WindowStart(e)), 8)
    ensures var head := m * FirstBits(tw, WindowStart(e)) * P2(256 + BitsAfter(e));
            m * Whole(tw) == head + v * P2(BitsAfter(e)) + m * rest
    ensures rest < P2(BitsAfter(e))
  {
    var i0, a := WindowStart(e), BitsAfter(e);
    rest := AroundWindow(tw, i0, a);
    Assemble(m, Whole(tw), FirstBits(tw, i0), P2(256 + a), Limbs(Window(tw, i0), 8), P2(a), rest, v);
  }

  lemma Assemble(m: int, whole: int, f: int, p: int, w: int, q: int, rest: int, v: int)
    requires whole == f * p + w * q + rest && v == m * w
    ensures m * whole == m * f * p + v * q + m * rest
  {
    Gather(m, f, p, w, q, rest);
  }

  /** What lies before the window counts in fours. */
  lemma TopPart(tw: seq<Word32>, m: nat, e: int) returns (k: int)
    requires e <= 971
    ensures m * FirstBits(tw, WindowStart(e)) * P2(256 + BitsAfter(e)) == 4 * k * P2(UnitsPlace(e) + BitsAfter(e))
  {
    if WindowStart(e) == 0 {
      k := 0;
    } else {
      k := m * FirstBits(tw, WindowStart(e));
      var s := UnitsPlace(e) + BitsAfter(e);
      assert 256 + BitsAfter(e) == s + 2;
      assert P2(s + 2) == 4 * P2(s);
      FourTimes(k, P2(s));
    }
  }

  lemma TailBound(m: int, b: int, rest: int, q: int)
    requires 0 <= m < b && 0 <= rest < q
    ensures 0 <= m * rest < b * q
  {
    MulNonNeg(m, rest);
    MulMono(m, b, rest);
    MulMono(rest + 1, q, b);
    MulDist(rest, 1, b);
  }

  lemma Gather(m: int, f: int, p: int, w: int, q: int, rest: int)
    ensures m * (f * p + w * q + rest) == m * f * p + m * w * q + m * rest
  {
    MulDist(f * p + w * q, rest, m);
    MulDist(f * p, w * q, m);
    MulAssoc(m, f, p);
    MulAssoc(m, w, q);
  }

  lemma FourTimes(x: int, p: int)
    ensures x * (4 * p) == 4 * x * p
  {
  }

  /** The quotient is the nearest integer to x * 2/pi modulo 4, up to the window's tail, whatever 1600
      bits the table holds: adding a multiple of four to it gives q such that m times the table is
      within half a unit, and the tail, of q units. */
  lemma QuotientIsNearest(tw: seq<Word32>, m: nat, e: int, v: nat) returns (k: int)
    requires |tw| == WORDS && m < P2(53) && e <= 971 && v == m * Limbs(Window(tw, WindowStart(e)), 8)
    ensures WithinHalf(m * Whole(tw), 4 * k + Nearest(v, UnitsPlace(e)), UnitsPlace(e) + BitsAfter(e),
                       P2(53) * P2(BitsAfter(e)))
  {
    var tail;
    k, tail := SkippedBitsAreMultiplesOfFour(tw, m, e, v);
    CombineNearest(m * Whole(tw), k, v, UnitsPlace(e), BitsAfter(e), tail, P2(53) * P2(BitsAfter(e)));
  }

  /** x is q units of 2^s, give or take half a unit and a slack upward. */
  ghost predicate WithinHalf(x: int, q: int, s: nat, slack: int)
    requires s > 0
  {
    q * P2(s) - P2(s - 1) <= x < q * P2(s) + P2(s - 1) + slack
  }

  lemma CombineNearest(all: int, k: int, v: nat, sh: nat, a: nat, tail: int, limit: int)
    requires sh > 0 && all == 4 * k * P2(sh + a) + v * P2(a) + tail && 0 <= tail < limit
    ensures WithinHalf(all, 4 * k + Nearest(v, sh), sh + a, limit)
  {
    NearestIsClose(v, sh, a);
    AddUp(all, k, Nearest(v, sh), P2(sh + a), P2(sh - 1 + a), v * P2(a), tail, limit);
  }

  lemma AddUp(all: int, k: int, n: int, unit: int, half: int, near: int, tail: int, limit: int)
    requires all == 4 * k * unit + near + tail && n * unit - half <= near < n * unit + half && 0 <= tail < limit
    ensures (4 * k + n) * unit - half <= all < (4 * k + n) * unit + half + limit
  {
    MulDist(4 * k, n, unit);
  }

  lemma NearestIsClose(v: nat, sh: nat, a: nat)
    requires sh > 0
    ensures P2(sh + a) == 2 * P2(sh - 1 + a)
    ensures Nearest(v, sh) * P2(sh + a) - P2(sh - 1 + a) <= v * P2(a) < Nearest(v, sh) * P2(sh + a) + P2(sh - 1 + a)
  {
    var n := Nearest(v, sh);
    DivMod(v + P2(sh - 1), P2(sh));
    P2Add(sh, a);
    P2Add(sh - 1, a);
    CloseScaled(v, n, P2(sh), P2(sh - 1), P2(a));
  }

  lemma CloseScaled(v: int, n: int, p: int, h: int, s: int)
    requires n * p - h <= v < n * p + h && s > 0
    ensures n * (p * s) - h * s <= v * s < n * (p * s) + h * s
  {
    Scale(v - n * p, h, s);
    MulDist(v - n * p, n * p, s);
    MulAssoc(n, p, s);
  }

  lemma Scale(d: int, h: int, s: int)
    requires -h <= d < h && s > 0
    ensures -(h * s) <= d * s < h * s
  {
    MulMono(-h, d, s);
    MulMono(d + 1, h, s);
    MulDist(d, 1, s);
    assert (-h) * s == -(h * s);
  }

  /** `reduce_arg`: a negative argument takes the negated quotient. */
  function SignedQuotient(sign: bool, n: nat): (r: nat)
    requires n < 4
    ensures r < 4 && forall q: int :: q % 4 == n ==> (r - (if sign then -q else q)) % 4 == 0
  {
    if sign then (4 - n) % 4 else n
  }
}
