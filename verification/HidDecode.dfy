/** hid_decode: a report's axes, wheel and buttons read with a layout. */
module HidDecode {
  import opened Scalars
  import opened Bits
  import opened HidBits
  import opened HidItems
  import opened HidPointer
  import opened HidParse

  /** What hid_get answers for a field. */
  ghost function Value(f: Fld, r: seq<Byte>, sign: bool): (v: int)
  {
    if InRange(|r|, f.off, f.bits) then Extend(Field(r, f.off, f.bits), f.bits, sign) else 0
  }

  // ---- absolute axes ----

  /** A position scaled to 0..65535 over its logical range. */
  ghost function Scale(range: nat, val: nat): (s: nat)
    requires range > 0
    decreases range
  {
    if range > 65535 then Scale(range / 2, val / 2)
    else
      var v := if val > range then range else val;
      v * 65535 / range
  }

  lemma FractionBound(v: nat, range: nat)
    requires v <= range && 0 < range
    ensures 0 <= v * 65535 / range <= 65535
    ensures v == range ==> v * 65535 / range == 65535
  {
    var x := v * 65535;
    DivMod(x, range);
    MulMono(v, range, 65535);
    var q := x / range;
    if q > 65535 { MulMono(65536, q, range); }
    if v == range { DivModUnique(x, range, 65535, 0); }
    if q < 0 { MultipleIsLarge(q, range); }
  }

  lemma FractionMonotone(a: nat, b: nat, range: nat)
    requires a <= b && 0 < range
    ensures a * 65535 / range <= b * 65535 / range
  {
    var p, q := a * 65535 / range, b * 65535 / range;
    DivMod(a * 65535, range);
    DivMod(b * 65535, range);
    if p > q {
      MulMono(q + 1, p, range);
      MulDist(q, 1, range);
    }
  }

  /** The scale runs from 0 at the bottom to 65535 at the top and never steps back. */
  lemma {:induction false} ScaleIsAScale(range: nat, a: nat, b: nat)
    requires range > 0 && a <= b
    ensures Scale(range, a) <= Scale(range, b) <= 65535
    ensures a == 0 ==> Scale(range, a) == 0
    ensures b >= range ==> Scale(range, b) == 65535
    decreases range
  {
    if range > 65535 {
      ScaleIsAScale(range / 2, a / 2, b / 2);
    } else {
      var a', b' := if a > range then range else a, if b > range then range else b;
      FractionMonotone(a', b', range);
      FractionBound(b', range);
    }
  }

  /** The logical range as a 32-bit word. */
  function LogicalRange(f: Fld): (n: nat) { (f.lmax - f.lmin) % WORD }

  /** The offset of a value above the logical minimum. */
  function Above(v: int, f: Fld): (n: nat) { if v < f.lmin then 0 else v - f.lmin }

  /** The axis value hid_decode reports. */
  ghost function AxisValue(f: Fld, r: seq<Byte>, absolute: bool): (v: int)
  {
    if f.bits == 0 then 0
    else if !absolute then Value(f, r, f.sign)
    else if LogicalRange(f) == 0 then 0
    else Scale(LogicalRange(f), Above(Value(f, r, f.sign), f))
  }

  /** Over a proper logical range: 0 at or below the minimum, 65535 at or above the maximum, in order between. */
  lemma AbsoluteAxis(f: Fld, v: int, w: int)
    requires f.lmin < f.lmax && f.lmax - f.lmin < WORD && v <= w
    ensures Scale(LogicalRange(f), Above(v, f)) <= Scale(LogicalRange(f), Above(w, f)) <= 65535
    ensures v <= f.lmin ==> Scale(LogicalRange(f), Above(v, f)) == 0
    ensures w >= f.lmax ==> Scale(LogicalRange(f), Above(w, f)) == 65535
  {
    ScaleIsAScale(LogicalRange(f), Above(v, f), Above(w, f));
  }

  method Axis(f: Fld, r: seq<Byte>, absolute: bool) returns (x: int)
    ensures x == AxisValue(f, r, absolute)
  {
    if f.bits == 0 { return 0; }
    var v := Get(r, f.off, f.bits, f.sign);
    if !absolute { return v; }
    var range := LogicalRange(f);
    if range == 0 { return 0; }
    var val := Above(v, f);
    while range > 65535
      invariant range > 0 && Scale(range, val) == Scale(LogicalRange(f), Above(v, f))
    {
      range, val := range / 2, val / 2;
    }
    if val > range { val := range; }
    x := val * 65535 / range;
  }

  // ---- reports ----

  /** The report belongs to the layout and has data. */
  predicate Belongs(p: Ptr, uses: bool, r: seq<Byte>)
  {
    |r| > Start(uses) && (uses ==> r[0] == p.id)
  }

  /** Button `k` is down. */
  ghost predicate Pressed(p: Ptr, data: seq<Byte>, k: nat)
    requires p.Valid() && k < 3
  {
    p.btn[k].bits != 0 && Value(p.btn[k], data, false) != 0
  }

  method Decode(p: Ptr, uses: bool, r: seq<Byte>) returns (ok: bool, rx: int, ry: int, wheel: int, buttons: nat)
    requires p.Valid()
    ensures ok <==> Belongs(p, uses, r)
    ensures ok ==> rx == AxisValue(p.x, r[Start(uses)..], p.absolute)
    ensures ok ==> ry == AxisValue(p.y, r[Start(uses)..], p.absolute)
    ensures ok ==> wheel == if p.wheel.bits == 0 then 0 else Value(p.wheel, r[Start(uses)..], p.wheel.sign)
    ensures ok ==> buttons < 8 && forall k :: 0 <= k < 3 ==> (Bit(buttons, k) == 1 <==> Pressed(p, r[Start(uses)..], k))
  {
    ok, rx, ry, wheel, buttons := false, 0, 0, 0, 0;
    if |r| <= 0 { return; }
    if uses && r[0] != p.id { return; }
    var data := r[Start(uses)..];
    if |data| <= 0 { return; }
    ok := true;
    rx := Axis(p.x, data, p.absolute);
    ry := Axis(p.y, data, p.absolute);
    if p.wheel.bits != 0 { wheel := Get(data, p.wheel.off, p.wheel.bits, p.wheel.sign); }
    buttons := Buttons(p, data);
  }

  method Buttons(p: Ptr, data: seq<Byte>) returns (bt: nat)
    requires p.Valid()
    ensures bt < 8 && forall k :: 0 <= k < 3 ==> (Bit(bt, k) == 1 <==> Pressed(p, data, k))
  {
    bt := 0;
    var k := 0;
    while k < 3
      invariant 0 <= k <= 3 && bt < P2(k)
      invariant forall j :: 0 <= j < k ==> (Bit(bt, j) == 1 <==> Pressed(p, data, j))
    {
      AddBitAbove(bt, k);
      if p.btn[k].bits != 0 {
        var v := Get(data, p.btn[k].off, p.btn[k].bits, false);
        if v != 0 { bt := bt + P2(k); }
      }
      k := k + 1;
    }
    assert P2(3) == 8;
  }

  /** Adding bit `k` to a smaller number sets that bit and no lower one. */
  lemma AddBitAbove(v: nat, k: nat)
    requires v < P2(k)
    ensures v + P2(k) < P2(k + 1) && Bit(v, k) == 0 && Bit(v + P2(k), k) == 1
    ensures forall j :: 0 <= j < k ==> Bit(v + P2(k), j) == Bit(v, j)
  {
    LowOfSmall(v, k);
    DivModUnique(v + P2(k), P2(k), 1, v);
    forall j | 0 <= j < k
      ensures Bit(v + P2(k), j) == Bit(v, j)
    {
      P2Add(k - j - 1, j);
      assert P2(k) == 2 * P2(k - 1);
      EvenMultiple(v, P2(j), P2(k - j - 1));
      MulAssoc(2, P2(k - j - 1), P2(j));
    }
  }

  /** Decoding a full-length report of a parsed layout never meets a field outside the report: every value is
      the field's own bits. */
  lemma FullReportReadsFields(p: Ptr, items: seq<Short>, uses: bool, r: seq<Byte>, f: Fld, sign: bool)
    requires Decodable(p, items, uses) && Covered(items, uses, p.id) && |r| == p.bytes
    requires f.bits != 0 && (f in {p.x, p.y, p.wheel, p.pan} || f in p.btn)
    ensures Start(uses) <= |r| && InRange(|r[Start(uses)..]|, f.off, f.bits)
    ensures Value(f, r[Start(uses)..], sign) == Extend(Field(r[Start(uses)..], f.off, f.bits), f.bits, sign)
  {
    assert FieldInRange(f, |r| - Start(uses)) by {
      if f in p.btn {
        var k :| 0 <= k < BUTTONS && p.btn[k] == f;
      }
    }
  }
}
