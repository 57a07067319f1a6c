/** The limb product of the trigonometric reduction: a 53-bit integer times a 256-bit window, in
    32-bit limbs with carries, and the bits of the result. */
module TrigLimbs {
  import opened Bits
  import opened TrigWindow

  predicate AreLimbs(s: seq<nat>) { forall i :: 0 <= i < |s| ==> s[i] < B }

  // ---- limb values ----

  lemma {:induction false} LimbsUpdate(s: seq<nat>, n: nat, i: nat, v: nat)
    requires n <= |s| && i < |s|
    ensures Limbs(s[i := v], n) == Limbs(s, n) + (if i < n then (v - s[i]) * P2(32 * i) else 0)
  {
    if n > 0 {
      LimbsUpdate(s, n - 1, i, v);
      if i == n - 1 {
        MulDist(v - s[i], s[i], P2(32 * i));
      }
    }
  }

  lemma {:induction false} LimbsBound(s: seq<nat>, n: nat)
    requires n <= |s| && AreLimbs(s)
    ensures 0 <= Limbs(s, n) < P2(32 * n)
  {
    if n > 0 {
      LimbsBound(s, n - 1);
      P2Add(32, 32 * (n - 1));
      P2Words();
      UnitsBelow(s[n - 1], B, P2(32 * (n - 1)), Limbs(s, n - 1));
    }
  }

  lemma {:induction false} LimbsOfZeros(s: seq<nat>, n: nat)
    requires n <= |s| && forall i :: 0 <= i < |s| ==> s[i] == 0
    ensures Limbs(s, n) == 0
  {
    if n > 0 { LimbsOfZeros(s, n - 1); }
  }

  // ---- the product ----

  /** One multiply-add step keeps the sum of the limbs and the pending carry. */
  lemma CarryStep(s: seq<nat>, at: nat, x: nat, carry: nat, t: nat)
    requires at < 10 == |s| && t == x + s[at] + carry
    ensures Limbs(s[at := t % B], 10) + (t / B) * P2(32 * (at + 1)) == Limbs(s, 10) + (x + carry) * P2(32 * at)
  {
    LimbsUpdate(s, 10, at, t % B);
    P2Add(32, 32 * at);
    P2Words();
    var p := P2(32 * at);
    Conserve(t, s[at], x + carry, p);
  }

  lemma Conserve(t: nat, old_: int, add: int, p: int)
    requires t == add + old_
    ensures (t % B - old_) * p + t / B * (B * p) == add * p
  {
    DivMod(t, B);
    MulAssoc(t / B, B, p);
    MulDist(t % B - old_, t / B * B, p);
  }

  /** The product of two words, a word and a carry word fits 64 bits. */
  lemma Fits64(w: nat, m: nat, c: nat, d: nat)
    requires w < B && m < B && c < B && d < B
    ensures 0 <= w * m + c + d < B * B && (w * m + c + d) / B < B
  {
    MulNonNeg(w, m);
    MulMono(w, B - 1, m);
    Below64(w * m, m, c, d);
  }

  lemma Below64(p: nat, m: nat, c: nat, d: nat)
    requires p <= (B - 1) * m && m < B && c < B && d < B
    ensures p + c + d < B * B && (p + c + d) / B < B
  {
    MulMono(m, B - 1, B - 1);
    DivBelow(p + c + d, B, B);
  }

  /** Limbs together with a carry waiting at limb `at`. */
  ghost function Pending(s: seq<nat>, carry: nat, at: nat): (v: int)
    requires |s| == 10
  {
    Limbs(s, 10) + carry * P2(32 * at)
  }

  /** Add `x` and the carry to one limb, handing the overflow on. */
  method AddAt(p: array<nat>, at: nat, x: nat, carry: nat) returns (carry': nat)
    requires p.Length == 10 && at < 10 && AreLimbs(p[..]) && (x + p[at] + carry) / B < B
    modifies p
    ensures AreLimbs(p[..]) && carry' < B
    ensures Pending(p[..], carry', at + 1) == Pending(old(p[..]), carry, at) + x * P2(32 * at)
  {
    var t: nat := x + p[at] + carry;
    ghost var s: seq<nat> := p[..];
    CarryStep(s, at, x, carry, t);
    MulDist(x, carry, P2(32 * at));
    p[at] := t % B;
    carry' := t / B;
    assert p[..] == s[at := t % B];
  }

  function Times(a: nat, b: nat): (r: nat)
  {
    MulNonNeg(a, b);
    a * b
  }

  /** The partial products of one window word with the halves of m, placed at limb k. */
  ghost function Partial(wk: nat, ml: seq<nat>, k: nat, j: nat): (v: int)
    requires |ml| == 2 && j <= 2
  {
    if j == 0 then 0 else Partial(wk, ml, k, j - 1) + Times(wk, ml[j - 1]) * P2(32 * (k + (j - 1)))
  }

  lemma PartialStep(wk: nat, ml: seq<nat>, k: nat, j: nat)
    requires |ml| == 2 && j < 2
    ensures Partial(wk, ml, k, j + 1) == Partial(wk, ml, k, j) + Times(wk, ml[j]) * P2(32 * (k + j))
  {
  }

  lemma TwoHalves(wk: int, lo: int, hi: int, p: int)
    ensures wk * lo * p + wk * hi * (B * p) == wk * (lo + hi * B) * p
  {
    MulAssoc(wk * hi, B, p);
    MulDist(wk * lo, wk * hi * B, p);
    MulAssoc(wk, hi, B);
    MulDist(lo, hi * B, wk);
  }

  lemma PartialIsProduct(wk: nat, m: nat, k: nat)
    requires m < P2(53)
    ensures Partial(wk, [m % B, m / B], k, 2) == Times(wk, m) * P2(32 * k)
  {
    SplitFactor(m);
    PartialOfHalves(wk, m % B, m / B, k);
    TwoHalves(wk, m % B, m / B, P2(32 * k));
  }

  lemma PartialOfHalves(wk: nat, lo: nat, hi: nat, k: nat)
    ensures Partial(wk, [lo, hi], k, 2) == wk * lo * P2(32 * k) + wk * hi * (B * P2(32 * k))
  {
    PartialStep(wk, [lo, hi], k, 0);
    PartialStep(wk, [lo, hi], k, 1);
    P2Add(32, 32 * k);
    P2Words();
  }

  /** The two halves of m. */
  method AddWords(p: array<nat>, k: nat, wk: nat, m: nat) returns (carry: nat)
    requires p.Length == 10 && k < 8 && wk < B && m < P2(53) && AreLimbs(p[..])
    modifies p
    ensures AreLimbs(p[..]) && carry < B
    ensures Pending(p[..], carry, k + 2) == Limbs(old(p[..]), 10) + Times(wk, m) * P2(32 * k)
  {
    var ml := [m % B, m / B];
    SplitFactor(m);
    carry := 0;
    for j := 0 to 2
      invariant carry < B && AreLimbs(p[..])
      invariant Pending(p[..], carry, k + j) == Limbs(old(p[..]), 10) + Partial(wk, ml, k, j)
    {
      Fits64(wk, ml[j], p[k + j], carry);
      PartialStep(wk, ml, k, j);
      carry := AddAt(p, k + j, Times(wk, ml[j]), carry);
    }
    PartialIsProduct(wk, m, k);
  }

  /** The rest of the limb loop: run the carry up; the product's size stops it within the limbs. */
  method SpreadCarry(p: array<nat>, from: nat, carry0: nat, ghost total: int)
    requires p.Length == 10 && from <= 10 && carry0 < B && AreLimbs(p[..])
    requires Pending(p[..], carry0, from) == total < P2(320)
    modifies p
    ensures AreLimbs(p[..]) && Limbs(p[..], 10) == total
  {
    var carry, j := carry0, from;
    while carry != 0 && j < 10
      invariant from <= j <= 10 && 0 <= carry < B && AreLimbs(p[..])
      invariant Pending(p[..], carry, j) == total
      decreases 10 - j
    {
      SmallSum(p[j], carry);
      carry := AddAt(p, j, 0, carry);
      j := j + 1;
    }
    LimbsBound(p[..], 10);
    NoCarryLeft(Limbs(p[..], 10), carry, j);
  }

  lemma SmallSum(a: nat, c: nat)
    requires a < B && c < B
    ensures (0 + a + c) / B < B
  {
  }

  /** The limb loop for one word of the window: add wk * m at limb k. */
  method AddProduct(p: array<nat>, k: nat, wk: nat, m: nat)
    requires p.Length == 10 && k < 8 && wk < B && m < P2(53) && AreLimbs(p[..])
    requires Limbs(p[..], 10) + Times(wk, m) * P2(32 * k) < P2(320)
    modifies p
    ensures AreLimbs(p[..]) && Limbs(p[..], 10) == Limbs(old(p[..]), 10) + Times(wk, m) * P2(32 * k)
  {
    ghost var total := Limbs(p[..], 10) + Times(wk, m) * P2(32 * k);
    var carry := AddWords(p, k, wk, m);
    SpreadCarry(p, k + 2, carry, total);
  }

  lemma SplitFactor(m: nat)
    requires m < P2(53)
    ensures m % B < B && m / B < B && m == m % B + m / B * B
  {
    DivMod(m, B);
    P2Words();
    P2Add(21, 32);
    assert P2(21) == 0x200000;
  }

  lemma NoCarryLeft(v: int, carry: nat, j: nat)
    requires v >= 0 && (carry == 0 || j == 10) && v + carry * P2(32 * j) < P2(320)
    ensures carry == 0
  {
    if carry > 0 { MulMono(1, carry, P2(320)); }
  }

  ghost function ProductSum(w: seq<nat>, m: nat, k: nat): (v: int)
    requires k <= |w|
  {
    if k == 0 then 0 else ProductSum(w, m, k - 1) + Times(w[k - 1], m) * P2(32 * (k - 1))
  }

  lemma {:induction false} ProductSumIs(w: seq<nat>, m: nat, k: nat)
    requires k <= |w|
    ensures ProductSum(w, m, k) == m * Limbs(w, k)
  {
    if k > 0 {
      ProductSumIs(w, m, k - 1);
      MulAssoc(m, w[k - 1], P2(32 * (k - 1)));
      MulDist(Limbs(w, k - 1), w[k - 1] * P2(32 * (k - 1)), m);
    }
  }

  lemma ProductSumBound(w: seq<nat>, m: nat, k: nat)
    requires k <= |w| == 8 && AreLimbs(w) && m < P2(53)
    ensures ProductSum(w, m, k) < P2(320)
  {
    ProductSumIs(w, m, k);
    LimbsBound(w, k);
    P2Mono(32 * k, 256);
    MulMono(m, P2(53), Limbs(w, k));
    MulMono(Limbs(w, k), P2(256), P2(53));
    P2Add(256, 53);
    P2Mono(309, 320);
  }

  lemma ProductSumStep(w: seq<nat>, m: nat, k: nat)
    requires k < |w| == 8 && AreLimbs(w) && m < P2(53)
    ensures w[k] < B && ProductSum(w, m, k) + Times(w[k], m) * P2(32 * k) == ProductSum(w, m, k + 1) < P2(320)
  {
    ProductSumBound(w, m, k + 1);
  }

  /** The whole product: the limbs hold exactly m times the window. */
  method MulWindow(m: nat, w: seq<nat>) returns (p: array<nat>)
    requires |w| == 8 && AreLimbs(w) && m < P2(53)
    ensures fresh(p) && p.Length == 10 && AreLimbs(p[..]) && Limbs(p[..], 10) == m * Limbs(w, 8)
  {
    p := new nat[10](_ => 0);
    LimbsOfZeros(p[..], 10);
    for k := 0 to 8
      invariant AreLimbs(p[..]) && Limbs(p[..], 10) == ProductSum(w, m, k)
    {
      ProductSumStep(w, m, k);
      AddProduct(p, k, w[k], m);
    }
    ProductSumIs(w, m, 8);
  }

  // ---- bits of the product ----

  /** Bit `i` of ten limbs, zero outside them. */
  function PBit(p: seq<nat>, i: int): (b: nat)
    requires |p| == 10
    ensures b <= 1
  {
    if 0 <= i < 320 then p[i / 32] / P2(i % 32) % 2 else 0
  }

  lemma BitIgnoresHigher(v: nat, i: nat, c: nat)
    ensures v + c * P2(i + 1) >= 0 && Bit(v + c * P2(i + 1), i) == Bit(v, i)
  {
    var p := P2(i);
    MulNonNeg(c, P2(i + 1));
    MulAssoc(c, 2, p);
    DivMod(v, p);
    MulDist(v / p, 2 * c, p);
    DivModUnique(v + c * P2(i + 1), p, v / p + 2 * c, v % p);
  }

  lemma BitOfTopLimb(v: nat, a: nat, w: nat, b: nat)
    requires v < P2(32 * w)
    ensures v + a * P2(32 * w) >= 0 && Bit(v + a * P2(32 * w), 32 * w + b) == a / P2(b) % 2
  {
    var p := P2(32 * w);
    MulNonNeg(a, p);
    DivModUnique(v + a * p, p, a, v);
    P2Add(32 * w, b);
    DivDiv(v + a * p, p, P2(b));
  }

  lemma {:induction false} LimbBit(s: seq<nat>, n: nat, w: nat, b: nat)
    requires AreLimbs(s) && w < n <= |s| && b < 32
    ensures Limbs(s, n) >= 0 && Bit(Limbs(s, n), 32 * w + b) == s[w] / P2(b) % 2
  {
    LimbsBound(s, n);
    LimbsBound(s, n - 1);
    if n - 1 == w {
      BitOfTopLimb(Limbs(s, w), s[w], w, b);
    } else {
      LimbBit(s, n - 1, w, b);
      var i, k := 32 * w + b, n - 1;
      P2Add(32 * k - (i + 1), i + 1);
      MulAssoc(s[k], P2(32 * k - (i + 1)), P2(i + 1));
      MulNonNeg(s[k], P2(32 * k - (i + 1)));
      BitIgnoresHigher(Limbs(s, k), i, s[k] * P2(32 * k - (i + 1)));
    }
  }

  /** The limbs' bits are the product's bits, at every index. */
  lemma PBitIsBit(p: seq<nat>, i: int)
    requires |p| == 10 && AreLimbs(p)
    ensures Limbs(p, 10) >= 0 && PBit(p, i) == if i < 0 then 0 else Bit(Limbs(p, 10), i)
  {
    LimbsBound(p, 10);
    if 0 <= i < 320 {
      LimbBit(p, 10, i / 32, i % 32);
      assert 32 * (i / 32) + i % 32 == i;
    } else if i >= 320 {
      P2Mono(320, i);
      LowOfSmall(Limbs(p, 10), i);
    }
  }
}
