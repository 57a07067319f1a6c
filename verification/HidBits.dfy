/** Reading and writing bit fields of HID reports. */
module HidBits {
  import opened Scalars
  import opened Bits

  /** A field of a report; bits == 0 means absent. */
  datatype Fld = Fld(off: int, bits: nat, sign: bool, lmin: int, lmax: int)

  const ABSENT := Fld(0, 0, false, 0, 0)

  /** The report as one little-endian number. */
  ghost function Number(r: seq<Byte>): (v: nat)
  {
    if r == [] then 0 else r[0] + 256 * Number(r[1..])
  }

  ghost function Shift(v: nat, n: nat): (q: nat)
    ensures q == v / P2(n)
  {
    DivMod(v, P2(n));
    MultipleIsLarge(v / P2(n), P2(n));
    v / P2(n)
  }

  /** The `bits` bits of the report from bit `off` up, as a number. */
  ghost function Field(r: seq<Byte>, off: nat, bits: nat): (v: nat)
    ensures v < P2(bits)
  {
    Low(Shift(Number(r), off), bits)
  }

  /** Two's complement reading of `bits` bits; 32 bits always read as signed. */
  ghost function Extend(v: nat, bits: nat, sign: bool): (x: int)
    requires bits > 0
  {
    if (sign || bits == 32) && v >= P2(bits - 1) then v - P2(bits) else v
  }

  predicate InRange(len: nat, off: int, bits: int)
  {
    0 < bits <= 32 && 0 <= off && off + bits <= len * 8
  }

  // ---- bits of the number are bits of the bytes ----

  /** Adding an even multiple of `d` keeps the parity of the quotient by `d`. */
  lemma EvenMultiple(b: nat, d: nat, k: nat)
    requires d > 0
    ensures (b + 2 * k * d) / d % 2 == b / d % 2
  {
    DivMod(b, d);
    MulDist(b / d, 2 * k, d);
    DivModUnique(b + 2 * k * d, d, b / d + 2 * k, b % d);
  }

  lemma SplitProduct(d: int, e: int, m: int)
    ensures 2 * (e * m) * d == 2 * (d * e) * m
  {
    MulAssoc(d, e, m);
    assert d * (e * m) == (e * m) * d;
  }

  lemma LowByteBit(b: Byte, m: nat, p: nat)
    requires p < 8
    ensures Bit(b + 256 * m, p) == Bit(b, p)
  {
    P2Words();
    P2Add(p, 7 - p);
    assert P2(8) == 2 * P2(7);
    MulNonNeg(P2(7 - p), m);
    SplitProduct(P2(p), P2(7 - p), m);
    EvenMultiple(b, P2(p), P2(7 - p) * m);
  }

  lemma HighByteBit(b: Byte, m: nat, p: nat)
    requires 8 <= p
    ensures Bit(b + 256 * m, p) == Bit(m, p - 8)
  {
    P2Words();
    P2Add(8, p - 8);
    DivDiv(b + 256 * m, 256, P2(p - 8));
    assert (b + 256 * m) / 256 == m;
  }

  lemma {:induction false} NumberBit(r: seq<Byte>, p: nat)
    requires p < 8 * |r|
    ensures Bit(Number(r), p) == Bit(r[p / 8], p % 8)
  {
    var m := Number(r[1..]);
    if p < 8 {
      LowByteBit(r[0], m, p);
    } else {
      HighByteBit(r[0], m, p);
      NumberBit(r[1..], p - 8);
      assert (p - 8) / 8 == p / 8 - 1 && (p - 8) % 8 == p % 8;
    }
  }

  lemma ShiftBit(n: nat, off: nat, i: nat)
    ensures Bit(Shift(n, off), i) == Bit(n, off + i)
  {
    P2Add(off, i);
    DivDiv(n, P2(off), P2(i));
  }

  /** One more bit of a field. */
  lemma FieldStep(r: seq<Byte>, off: nat, i: nat)
    requires off + i < 8 * |r|
    ensures Field(r, off, i + 1) == (if Bit(r[(off + i) / 8], (off + i) % 8) == 1 then P2(i) else 0) + Field(r, off, i)
  {
    LowStep(Shift(Number(r), off), i);
    ShiftBit(Number(r), off, i);
    NumberBit(r, off + i);
  }

  /** Collects a field's bits, lowest first. */
  method Collect(r: seq<Byte>, off: nat, bits: nat) returns (v: nat)
    requires off + bits <= 8 * |r|
    ensures v == Field(r, off, bits)
  {
    v := 0;
    var i := 0;
    while i < bits
      invariant 0 <= i <= bits && v == Field(r, off, i)
    {
      var bp := off + i;
      FieldStep(r, off, i);
      if Bit(r[bp / 8], bp % 8) == 1 { v := v + P2(i); }
      i := i + 1;
    }
  }

  /** hid_get's last two lines: sign bits above the field in a 32-bit word, read as a signed int. */
  function SignWord(v: nat, bits: nat, sign: bool): (x: int)
    requires 0 < bits <= 32
  {
    var w := if sign && bits < 32 && v >= P2(bits - 1) then v + (0x1_0000_0000 - P2(bits)) else v;
    if w >= 0x8000_0000 then w - 0x1_0000_0000 else w
  }

  lemma SignWordExtends(v: nat, bits: nat, sign: bool)
    requires 0 < bits <= 32 && v < P2(bits)
    ensures SignWord(v, bits, sign) == Extend(v, bits, sign)
  {
    P2Words();
    assert P2(bits) == 2 * P2(bits - 1);
    if bits < 32 { P2Mono(bits, 31); }
  }

  /** hid_get: the field when it lies in the report, else 0. */
  method Get(r: seq<Byte>, off: int, bits: int, sign: bool) returns (x: int)
    ensures x == if InRange(|r|, off, bits) then Extend(Field(r, off, bits), bits, sign) else 0
  {
    if bits <= 0 || bits > 32 || off < 0 || off + bits > |r| * 8 { return 0; }
    var v := Collect(r, off, bits);
    SignWordExtends(v, bits, sign);
    x := SignWord(v, bits, sign);
  }

  // ---- the input mode report ----

  lemma {:induction false} ZeroNumber(r: seq<Byte>)
    requires forall i :: 0 <= i < |r| ==> r[i] == 0
    ensures Number(r) == 0
  {
    if r != [] { ZeroNumber(r[1..]); }
  }

  lemma Halved(b: nat, d: nat, top: nat)
    requires d > 0 && b < top * (2 * d) && b / d % 2 == 0
    ensures b + d < top * (2 * d)
  {
    DivMod(b, d);
    var h := b / d / 2;
    assert b / d == 2 * h;
    assert b == h * (2 * d) + b % d;
    assert h < top by {
      if h >= top { MulMono(top, h, 2 * d); }
    }
    UnitsBelow(h, top, 2 * d, d + b % d);
  }

  lemma ClearBitFits(b: Byte, k: nat)
    requires k < 8 && Bit(b, k) == 0
    ensures b + P2(k) < 256
  {
    P2Words();
    P2Add(7 - k, k + 1);
    Halved(b, P2(k), P2(7 - k));
  }

  /** Setting a clear bit adds its weight to the number. */
  lemma {:induction false} AddBit(r: seq<Byte>, i: nat, k: nat)
    requires i < |r| && k < 8 && r[i] + P2(k) < 256
    ensures Number(r[i := r[i] + P2(k)]) == Number(r) + P2(8 * i + k)
  {
    var b := r[i] + P2(k);
    var r' := r[i := b];
    if i == 0 {
      assert r'[1..] == r[1..];
    } else {
      AddBit(r[1..], i - 1, k);
      assert r'[1..] == r[1..][i - 1 := b];
      BitAbove(8 * (i - 1) + k);
      assert Number(r') == r[0] + 256 * (Number(r[1..]) + P2(8 * (i - 1) + k));
    }
  }

  lemma BitAbove(k: nat)
    ensures P2(8 + k) == 256 * P2(k)
  {
    P2Words();
    P2Add(8, k);
  }

  /** Sets bit `bp` of the data that starts at `start`. */
  method OrBit(out: array<Byte>, start: nat, end: nat, bp: nat)
    requires start <= end <= out.Length && bp < 8 * (end - start) && Bit(Number(out[start..end]), bp) == 0
    modifies out
    ensures Number(out[start..end]) == Number(old(out[start..end])) + P2(bp)
    ensures out[..start] == old(out[..start]) && out[end..] == old(out[end..])
  {
    var i, k := bp / 8, bp % 8;
    ghost var was := out[start..end];
    NumberBit(was, bp);
    ClearBitFits(was[i], k);
    if Bit(out[start + i], k) == 0 { out[start + i] := out[start + i] + P2(k); }
    AddBit(was, i, k);
    assert out[start..end] == was[i := was[i] + P2(k)];
  }

  /** The bits hid_touch_mode_report sets: the two low bits of the field, or its only one. */
  function ModeValue(bits: nat): (v: nat) { if bits == 1 then 1 else 3 }

  /** The mode field exists and lies in a report of that many bytes. */
  predicate HasMode(mode: Fld, modeBytes: nat)
  {
    mode.bits != 0 && modeBytes != 0 && mode.off + mode.bits <= modeBytes * 8
  }

  method Clear(out: array<Byte>, n: nat)
    requires n <= out.Length
    modifies out
    ensures forall i :: 0 <= i < n ==> out[i] == 0
    ensures out[n..] == old(out[n..])
  {
    for i := 0 to n
      invariant forall j :: 0 <= j < i ==> out[j] == 0
      invariant out[n..] == old(out[n..])
    {
      out[i] := 0;
    }
  }

  /** hid_touch_mode_report: the feature report that selects Input Mode 3, or 0 when it cannot be built. */
  method ModeReport(mode: Fld, modeBytes: nat, modeId: Byte, usesIds: bool, out: array<Byte>, cap: int) returns (n: int)
    requires 0 <= mode.off && cap <= out.Length
    modifies out
    ensures n == if HasMode(mode, modeBytes) && modeBytes + Start(usesIds) <= cap then modeBytes + Start(usesIds) else 0
    ensures n == 0 ==> out[..] == old(out[..])
    ensures n != 0 ==> Number(out[Start(usesIds)..n]) == ModeValue(mode.bits) * P2(mode.off)
    ensures n != 0 && usesIds ==> out[0] == modeId
    ensures n != 0 ==> out[n..] == old(out[n..])
  {
    if mode.bits == 0 || modeBytes == 0 { return 0; }
    n := modeBytes + Start(usesIds);
    if n > cap || mode.off + mode.bits > modeBytes * 8 { return 0; }
    Clear(out, n);
    var start := Start(usesIds);
    ZeroNumber(out[start..n]);
    if usesIds { out[0] := modeId; }
    SetMode(out, start, n, mode);
  }

  /** Input Mode 3, in the low two bits of the cleared field (or its only one). */
  method SetMode(out: array<Byte>, start: nat, end: nat, mode: Fld)
    requires start <= end <= out.Length && 0 <= mode.off && 0 < mode.bits && mode.off + mode.bits <= 8 * (end - start)
    requires Number(out[start..end]) == 0
    modifies out
    ensures Number(out[start..end]) == ModeValue(mode.bits) * P2(mode.off)
    ensures out[..start] == old(out[..start]) && out[end..] == old(out[end..])
  {
    assert P2(1) == 2 && P2(2) == 4;
    var i := 0;
    while i < mode.bits && i < 2
      invariant 0 <= i <= mode.bits && i <= 2
      invariant Number(out[start..end]) == Ones(i, mode.off)
      invariant out[..start] == old(out[..start]) && out[end..] == old(out[end..])
    {
      OnesStep(i, mode.off);
      OrBit(out, start, end, mode.off + i);
      i := i + 1;
    }
  }

  /** `i` one bits above `off` zero bits. */
  ghost function Ones(i: nat, off: nat): (v: nat)
  {
    MulNonNeg(P2(i) - 1, P2(off));
    (P2(i) - 1) * P2(off)
  }

  lemma OnesArith(a: nat, d: nat)
    requires a > 0 && d > 0
    ensures (2 * a - 1) * d == (a - 1) * d + a * d && (a - 1) * d < a * d
  {
    MulDist(a - 1, a, d);
    MulDist(a - 1, 1, d);
  }

  lemma OnesStep(i: nat, off: nat)
    ensures Ones(i + 1, off) == Ones(i, off) + P2(off + i) && Bit(Ones(i, off), off + i) == 0
  {
    P2Add(i, off);
    OnesArith(P2(i), P2(off));
    LowOfSmall(Ones(i, off), off + i);
  }

  function Start(usesIds: bool): (s: nat) { if usesIds then 1 else 0 }

  lemma WrittenField(r: seq<Byte>, off: nat, bits: nat, v: nat)
    requires Number(r) == v * P2(off) && v < P2(bits)
    ensures Field(r, off, bits) == v
  {
    DivModUnique(Number(r), P2(off), v, 0);
    LowOfSmall(v, bits);
  }

  /** Reading the mode field back gives 3 just when it has two bits or more and is not a signed two-bit field. */
  lemma ModeReadsBack(r: seq<Byte>, mode: Fld)
    requires 0 <= mode.off && InRange(|r|, mode.off, mode.bits)
    requires Number(r) == ModeValue(mode.bits) * P2(mode.off)
    ensures Extend(Field(r, mode.off, mode.bits), mode.bits, mode.sign) == 3
      <==> mode.bits >= 2 && !(mode.bits == 2 && mode.sign)
    ensures mode.bits >= 2 ==> Extend(Field(r, mode.off, mode.bits), mode.bits, false) == 3
  {
    assert P2(1) == 2 && P2(2) == 4;
    if mode.bits >= 2 { P2Mono(2, mode.bits); }
    if mode.bits >= 3 {
      P2Mono(2, mode.bits - 1);
    }
    WrittenField(r, mode.off, mode.bits, ModeValue(mode.bits));
  }
}
