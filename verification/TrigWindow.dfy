/** The table of 2/pi: 1600 bits in 32-bit words, and 256-bit windows starting at any bit. */
module TrigWindow {
  import opened Bits

  const B := 0x1_0000_0000

  type Word32 = x: nat | x < 0x1_0000_0000

  const WORDS := 50

  const TWO_OVER_PI: seq<Word32> := [
    0xA2F9836E, 0x4E441529, 0xFC2757D1, 0xF534DDC0, 0xDB629599, 0x3C439041,
    0xFE5163AB, 0xDEBBC561, 0xB7246E3A, 0x424DD2E0, 0x06492EEA, 0x09D1921C,
    0xFE1DEB1C, 0xB129A73E, 0xE88235F5, 0x2EBB4484, 0xE99C7026, 0xB45F7E41,
    0x3991D639, 0x835339F4, 0x9C845F8B, 0xBDF9283B, 0x1FF897FF, 0xDE05980F,
    0xEF2F118B, 0x5A0A6D1F, 0x6D367ECF, 0x27CB09B7, 0x4F463F66, 0x9E5FEA2D,
    0x7527BAC7, 0xEBE5F17B, 0x3D0739F7, 0x8A5292EA, 0x6BFB5FB1, 0x1F8D5D08,
    0x56033046, 0xFC7B6BAB, 0xF0CFBC20, 0x9AF4361D, 0xA9E39161, 0x5EE61B08,
    0x6599855F, 0x14A06840, 0x8DFFD880, 0x4D732731, 0x06061556, 0xCA73A8C9,
    0x60E27BC0, 0x8C6B47C4]

  /** Word `i`, zero past the end. */
  function Word(tw: seq<Word32>, i: nat): (w: Word32) { if i < |tw| then tw[i] else 0 }

  /** `tpi_word`: the 32 bits starting at bit `pos`. */
  function TpiWord(tw: seq<Word32>, pos: nat): (v: nat)
  {
    Straddle(Word(tw, pos / 32), Word(tw, pos / 32 + 1), pos % 32)
  }

  /** 32 bits starting `s` bits into `a`, the rest from `b`. */
  function Straddle(a: Word32, b: Word32, s: nat): (v: nat)
    requires s < 32
  {
    DivNonNeg(b, P2(32 - s));
    if s == 0 then a else a * P2(s) % B + b / P2(32 - s)
  }

  /** The table's first `n` words as one integer. */
  ghost function Prefix(tw: seq<Word32>, n: nat): (v: nat)
  {
    if n == 0 then 0 else Prefix(tw, n - 1) * B + Word(tw, n - 1)
  }

  /** Bit `i` of the table, the first one most significant. */
  ghost function TableBit(tw: seq<Word32>, i: nat): (b: nat)
  {
    Word(tw, i / 32) / P2(31 - i % 32) % 2
  }

  /** The table's first `pos` bits as one integer. */
  ghost function FirstBits(tw: seq<Word32>, pos: nat): (v: nat)
  {
    if pos == 0 then 0 else 2 * FirstBits(tw, pos - 1) + TableBit(tw, pos - 1)
  }

  /** Whole words and the top of the next one. */
  lemma FirstBitsByWords(tw: seq<Word32>, w: nat, s: nat)
    requires s <= 32
    ensures FirstBits(tw, 32 * w + s) == Prefix(tw, w) * P2(s) + Word(tw, w) / P2(32 - s)
  {
    AtWordBoundary(tw, w);
    IntoWord(tw, w, s);
  }

  lemma {:induction false} IntoWord(tw: seq<Word32>, w: nat, s: nat)
    requires s <= 32 && FirstBits(tw, 32 * w) == Prefix(tw, w)
    ensures FirstBits(tw, 32 * w + s) == Prefix(tw, w) * P2(s) + Word(tw, w) / P2(32 - s)
    decreases s
  {
    if s == 0 {
      NothingOfWord(Prefix(tw, w), Word(tw, w));
    } else {
      IntoWord(tw, w, s - 1);
      NextTableBit(tw, w, s);
      OneMoreBit(FirstBits(tw, 32 * w + s - 1), Prefix(tw, w), Word(tw, w), s);
    }
  }

  lemma {:induction false} AtWordBoundary(tw: seq<Word32>, w: nat)
    ensures FirstBits(tw, 32 * w) == Prefix(tw, w)
  {
    if w > 0 {
      AtWordBoundary(tw, w - 1);
      PastWord(tw, w - 1, 32, 32 * w);
    }
  }

  lemma PastWord(tw: seq<Word32>, w: nat, s: nat, pos: nat)
    requires FirstBits(tw, 32 * w) == Prefix(tw, w) && s == 32 && pos == 32 * w + s
    ensures FirstBits(tw, pos) == Prefix(tw, w + 1)
  {
    IntoWord(tw, w, s);
    AllOfWord(Prefix(tw, w), Word(tw, w), s);
  }

  lemma NextTableBit(tw: seq<Word32>, w: nat, s: nat)
    requires 0 < s <= 32
    ensures FirstBits(tw, 32 * w + s) == 2 * FirstBits(tw, 32 * w + s - 1) + Word(tw, w) / P2(32 - s) % 2
  {
    var i := 32 * w + (s - 1);
    assert i / 32 == w && i % 32 == s - 1;
  }

  lemma NothingOfWord(v: nat, a: Word32)
    ensures v * P2(0) + a / P2(32) == v
  {
    P2Words();
    LowOfSmall(a, 32);
  }

  lemma AllOfWord(v: nat, a: Word32, s: nat)
    requires s == 32
    ensures v * P2(s) + a / P2(32 - s) == v * B + a
  {
    P2Words();
  }

  lemma OneMoreBit(f: int, v: int, a: nat, s: nat)
    requires 0 < s <= 32 && f == v * P2(s - 1) + a / P2(32 - (s - 1))
    ensures 2 * f + a / P2(32 - s) % 2 == v * P2(s) + a / P2(32 - s)
  {
    var k := 32 - s;
    DivDiv(a, P2(k), 2);
    assert P2(k) * 2 == P2(k + 1);
    DoubleProduct(v, P2(s - 1));
  }

  lemma DoubleProduct(x: int, y: int)
    ensures 2 * (x * y) == x * (2 * y) == 2 * x * y
  {
  }

  /** Shifting up by `p` a number read modulo p * q: what leaves, and what stays with room below. */
  lemma ShiftSplits(a: nat, p: nat, q: nat)
    requires p > 0 && q > 0
    ensures p * q > 0 && a * p / (p * q) == a / q && a * p % (p * q) == a % q * p
    ensures a % q * p + p <= p * q
    ensures a * p == a / q * (p * q) + a % q * p
  {
    DivMod(a, q);
    ShiftPieces(a, a / q, a % q, p, q);
    DivModUnique(a * p, p * q, a / q, a % q * p);
  }

  lemma ShiftPieces(a: nat, h: nat, l: nat, p: nat, q: nat)
    requires p > 0 && a == h * q + l && l < q
    ensures a * p == h * (p * q) + l * p && 0 <= l * p && l * p + p <= p * q
  {
    MulDist(h * q, l, p);
    MulAssoc(h, q, p);
    UnitsBelow(l, q, p, p - 1);
  }

  lemma HighPart(a: nat, p: nat, q: nat)
    requires p > 0 && q > 0 && a < p * q
    ensures a / q < p
  {
    DivMod(a, q);
    if a / q >= p { MulMono(p, a / q, q); }
  }

  /** Reading 32 bits extends the prefix by exactly those bits. */
  lemma NextWord(tw: seq<Word32>, pos: nat)
    requires |tw| == WORDS
    ensures FirstBits(tw, pos + 32) == FirstBits(tw, pos) * B + TpiWord(tw, pos)
    ensures TpiWord(tw, pos) < B
  {
    NextWordFrom(tw, pos / 32, pos % 32);
    assert 32 * (pos / 32) + pos % 32 == pos;
  }

  lemma NextWordFrom(tw: seq<Word32>, w: nat, s: nat)
    requires s < 32
    ensures var t := Straddle(Word(tw, w), Word(tw, w + 1), s);
            FirstBits(tw, 32 * w + s + 32) == FirstBits(tw, 32 * w + s) * B + t && t < B
  {
    FirstBitsByWords(tw, w, s);
    FirstBitsByWords(tw, w + 1, s);
    assert 32 * (w + 1) + s == 32 * w + s + 32;
    NextWordAt(Prefix(tw, w), Word(tw, w), Word(tw, w + 1), s);
  }

  lemma NextWordAt(v: nat, a: Word32, b: Word32, s: nat)
    requires s < 32
    ensures (v * B + a) * P2(s) + b / P2(32 - s) == (v * P2(s) + a / P2(32 - s)) * B + Straddle(a, b, s)
    ensures Straddle(a, b, s) < B
  {
    P2Words();
    if s == 0 {
      LowOfSmall(a, 32);
      LowOfSmall(b, 32);
    } else {
      P2Add(s, 32 - s);
      JoinWord(v, a, b, P2(s), P2(32 - s));
    }
  }

  lemma JoinWord(v: nat, a: nat, b: nat, p: nat, q: nat)
    requires p > 0 && q > 0 && p * q == B && a < B && b < B
    ensures (v * B + a) * p + b / q == (v * p + a / q) * B + (a * p % B + b / q)
    ensures a * p % B + b / q < B
  {
    ShiftSplits(a, p, q);
    HighPart(b, p, q);
    MulDist(v * B, a, p);
    assert v * B * p == v * p * B;
    MulDist(v * p, a / q, B);
  }

  // ---- the window ----

  /** Little-endian value of 32-bit limbs. */
  ghost function Limbs(s: seq<nat>, n: nat): (v: int)
    requires n <= |s|
  {
    if n == 0 then 0 else Limbs(s, n - 1) + s[n - 1] * P2(32 * (n - 1))
  }

  /** The 256-bit window from bit `i0` on, as little-endian limbs. */
  function Window(tw: seq<Word32>, i0: nat): (w: seq<nat>)
    ensures |w| == 8 && forall k :: 0 <= k < 8 ==> w[k] == TpiWord(tw, i0 + 32 * (7 - k))
  {
    seq(8, k requires 0 <= k < 8 => TpiWord(tw, i0 + 32 * (7 - k)))
  }

  /** A chain of prefixes, each one word longer, read back from its last word. */
  lemma {:induction false} ChainValue(f: seq<int>, w: seq<nat>, k: nat)
    requires |f| == 9 && |w| == 8 && k <= 8
    requires forall j :: 0 <= j < 8 ==> f[8 - j] == f[7 - j] * B + w[j]
    ensures f[8] == f[8 - k] * P2(32 * k) + Limbs(w, k)
  {
    if k > 0 {
      ChainValue(f, w, k - 1);
      P2Add(32, 32 * (k - 1));
      P2Words();
      assert f[8 - (k - 1)] == f[7 - (k - 1)] * B + w[k - 1];
      Extend(f[8], f[8 - (k - 1)], f[8 - k], w[k - 1], P2(32 * (k - 1)), P2(32 * k), Limbs(w, k - 1));
    }
  }

  lemma Extend(all: int, f': int, f: int, w: int, p: int, p': int, l: int)
    requires all == f' * p + l && f' == f * B + w && p' == B * p
    ensures all == f * p' + (l + w * p)
  {
    Regroup(f, w, p);
  }

  /** The window is exactly the 256 bits after the first `i0`. */
  lemma WindowIsNextBits(tw: seq<Word32>, i0: nat)
    requires |tw| == WORDS
    ensures FirstBits(tw, i0 + 256) == FirstBits(tw, i0) * P2(256) + Limbs(Window(tw, i0), 8)
    ensures forall k :: 0 <= k < 8 ==> Window(tw, i0)[k] < B
  {
    var f := WindowChain(tw, i0);
    ChainValue(f, Window(tw, i0), 8);
  }

  lemma WindowChain(tw: seq<Word32>, i0: nat) returns (f: seq<int>)
    requires |tw| == WORDS
    ensures |f| == 9 && f[8] == FirstBits(tw, i0 + 256) && f[0] == FirstBits(tw, i0)
    ensures forall j :: 0 <= j < 8 ==> f[8 - j] == f[7 - j] * B + Window(tw, i0)[j] && Window(tw, i0)[j] < B
  {
    f := Prefixes(tw, i0);
    var w := Window(tw, i0);
    forall j | 0 <= j < 8
      ensures f[8 - j] == f[7 - j] * B + w[j] && w[j] < B
    {
      LinkAt(tw, i0, f, w, j);
    }
  }

  ghost function Prefixes(tw: seq<Word32>, i0: nat): (f: seq<int>)
    ensures |f| == 9 && forall j :: 0 <= j < 9 ==> f[j] == FirstBits(tw, i0 + 32 * j)
  {
    seq(9, j requires 0 <= j < 9 => FirstBits(tw, i0 + 32 * j))
  }

  lemma LinkAt(tw: seq<Word32>, i0: nat, f: seq<int>, w: seq<nat>, j: nat)
    requires |tw| == WORDS && j < 8 && f == Prefixes(tw, i0) && w == Window(tw, i0)
    ensures f[8 - j] == f[7 - j] * B + w[j] && w[j] < B
  {
    var pos := i0 + 32 * (7 - j);
    NextWord(tw, pos);
    assert f[8 - j] == FirstBits(tw, pos + 32) && f[7 - j] == FirstBits(tw, pos) && w[j] == TpiWord(tw, pos);
  }

  lemma Regroup(f: int, w: int, p: int)
    ensures (f * B + w) * p == f * (B * p) + w * p
  {
    MulDist(f * B, w, p);
    MulAssoc(f, B, p);
  }

  /** All bits of the table as one integer: 2/pi is this over 2^(32 |tw|). */
  ghost function Whole(tw: seq<Word32>): (v: nat) { FirstBits(tw, 32 * |tw|) }

  /** The whole table is its first bits followed by a remainder below the next bit's weight. */
  lemma {:induction false} WholeTable(tw: seq<Word32>, pos: nat, k: nat) returns (rest: int)
    requires pos + k == 32 * |tw|
    ensures Whole(tw) == FirstBits(tw, pos) * P2(k) + rest && 0 <= rest < P2(k)
    decreases k
  {
    if k == 0 {
      rest := 0;
    } else {
      var r := WholeTable(tw, pos + 1, k - 1);
      var p, b := P2(k - 1), TableBit(tw, pos);
      rest := b * p + r;
      MulDist(2 * FirstBits(tw, pos), b, p);
      DoubleProduct(FirstBits(tw, pos), p);
      UnitsBelow(b, 2, p, r);
    }
  }
}
