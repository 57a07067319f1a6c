/** Where report sizes outgrow the parser's integers: two families of descriptors and what it makes of them. */
module HidLimits {
  import opened Scalars
  import opened HidBits
  import opened HidItems
  import opened HidEvents
  import opened HidPointer
  import opened HidParse
  import opened HidEncode

  // ---- following a descriptor item by item ----

  /** The walk's state on a descriptor without report ids, pushes or features. */
  datatype Trace = Trace(g: Globals, l: Locals, depth: nat, ids: seq<Byte>, size: nat, events: seq<Event>)

  const START := Trace(NO_GLOBALS, NO_LOCALS, 0, [], 0, [])

  ghost predicate At(items: seq<Short>, t: Trace)
  {
    && GlobalsAfter(items) == (t.g, []) && LocalsAfter(items) == t.l && DepthAfter(items) == t.depth
    && IdsAfter(items, 0) == t.ids && Laid(items, (0, 0)) == t.size && EventsOf(items) == t.events
    && !NamesIds(items) && t.g.rid == 0 && |t.ids| <= 1
  }

  /** Page, size and count items. */
  function SetGlobal(t: Trace, it: Short): (r: Trace) { t.(g := NextGlobals(t.g, [], it).0) }

  lemma GlobalAt(items: seq<Short>, t: Trace, it: Short)
    requires At(items, t) && it.ty == 1 && it.tag in {0, 7, 9}
    ensures At(items + [it], SetGlobal(t, it))
  {
    GlobalsStep(items, it);
    Unchanged(items, it);
  }

  /** A usage. */
  function AddUsage(t: Trace, it: Short): (r: Trace) { t.(l := NextLocals(t.l, it)) }

  lemma UsageAt(items: seq<Short>, t: Trace, it: Short)
    requires At(items, t) && it.ty == 2
    ensures At(items + [it], AddUsage(t, it))
  {
    GlobalsStep(items, it);
    Unchanged(items, it);
  }

  lemma Unchanged(items: seq<Short>, it: Short)
    requires it.ty == 2 || (it.ty == 1 && it.tag != 8)
    ensures LocalsAfter(items + [it]) == NextLocals(LocalsAfter(items), it)
    ensures DepthAfter(items + [it]) == DepthAfter(items)
    ensures IdsAfter(items + [it], 0) == IdsAfter(items, 0) && Laid(items + [it], (0, 0)) == Laid(items, (0, 0))
    ensures EventsOf(items + [it]) == EventsOf(items) && NamesIds(items + [it]) == NamesIds(items)
  {
    ItemStep(items, it);
    IdsStep(items, it, 0);
    LaidStep(items, it, (0, 0));
    NamesStep(items, it);
    assert EventsOf(items) + [] == EventsOf(items);
  }

  /** A collection's start. */
  function EnterAt(t: Trace, it: Short): (r: Trace)
  {
    t.(l := NextLocals(t.l, it), depth := t.depth + 1, events := t.events + [Entered(t.g, t.l, t.depth, it.u)])
  }

  lemma CollectionAt(items: seq<Short>, t: Trace, it: Short)
    requires At(items, t) && it.ty == 0 && it.tag == 10
    ensures At(items + [it], EnterAt(t, it))
  {
    GlobalsStep(items, it);
    ItemStep(items, it);
    IdsStep(items, it, 0);
    LaidStep(items, it, (0, 0));
    NamesStep(items, it);
  }

  /** An Input item with a single element. */
  function AddInput(t: Trace, it: Short): (r: Trace)
  {
    t.(l := NextLocals(t.l, it), ids := [0], size := t.size + t.g.rsize,
       events := t.events + ElementEvents(0, t.g, t.l, ToInt32(t.size % WORD), 0, it.u))
  }

  lemma InputAt(items: seq<Short>, t: Trace, it: Short)
    requires At(items, t) && it.ty == 0 && it.tag == 8 && t.g.rcount == 1 && (t.ids == [] || t.ids == [0])
    ensures At(items + [it], AddInput(t, it))
  {
    GlobalsStep(items, it);
    ItemStep(items, it);
    IdsStep(items, it, 0);
    LaidStep(items, it, (0, 0));
    NamesStep(items, it);
    OneElement(items, t, it.u);
  }

  lemma OneElement(items: seq<Short>, t: Trace, u: nat)
    requires At(items, t) && t.g.rcount == 1 && (t.ids == [] || t.ids == [0])
    ensures Span(1, t.g.rsize) == t.g.rsize && Count(1) == 1
    ensures Reports(items, 0, u) == ElementEvents(0, t.g, t.l, ToInt32(t.size % WORD), 0, u)
  {
    assert Span(0, t.g.rsize) == 0;
    assert FieldEvents(items, 0, u, 0) == [];
    assert FieldEvents(items, 0, u, 1) == [] + ElementAt(items, 0, u, 0);
  }

  // ---- pieces of a mouse descriptor ----

  const PAGE_DESKTOP := Short(1, 0, 1, 1)
  const USAGE_MOUSE := Short(2, 0, 1, 2)
  const APPLICATION := Short(0, 10, 1, 1)
  const COUNT_ONE := Short(1, 9, 1, 1)
  const SIZE_BYTE := Short(1, 7, 1, 8)
  const CONSTANT := Short(0, 8, 1, 1)
  const VARIABLE := Short(0, 8, 1, 2)

  const MOUSE := [PAGE_DESKTOP, USAGE_MOUSE, APPLICATION]

  /** A constant field of `n` bits. */
  function Pad(n: nat): (r: seq<Short>) { [Short(1, 7, 4, n), COUNT_ONE, CONSTANT] }

  /** A byte with a usage of the desktop page. */
  function Axis(usage: nat): (r: seq<Short>) { [SIZE_BYTE, COUNT_ONE, Short(2, 0, 1, usage), VARIABLE] }

  const IN_MOUSE := Trace(NO_GLOBALS.(page := 1), NO_LOCALS, 1, [], 0, [Enter(0, 1, 1, 2)])

  lemma MouseAt()
    ensures At(MOUSE, IN_MOUSE)
  {
    var t1 := SetGlobal(START, PAGE_DESKTOP);
    var t2 := AddUsage(t1, USAGE_MOUSE);
    assert At([], START);
    GlobalAt([], START, PAGE_DESKTOP);
    UsageAt([] + [PAGE_DESKTOP], t1, USAGE_MOUSE);
    CollectionAt([] + [PAGE_DESKTOP] + [USAGE_MOUSE], t2, APPLICATION);
    assert [] + [PAGE_DESKTOP] + [USAGE_MOUSE] + [APPLICATION] == MOUSE;
    assert EnterAt(t2, APPLICATION) == IN_MOUSE;
  }

  /** Inside the mouse, before any usage of the next item. */
  ghost predicate Between(items: seq<Short>, t: Trace)
  {
    At(items, t) && t.g.page == 1 && t.l == NO_LOCALS && (t.ids == [] || t.ids == [0])
  }

  function Padded(t: Trace, n: nat): (r: Trace)
  {
    t.(g := t.g.(rsize := n, rcount := 1), ids := [0], size := t.size + n)
  }

  function PadSized(t: Trace, n: nat): (r: Trace) { t.(g := t.g.(rsize := n, rcount := 1)) }

  lemma PadSizedAt(items: seq<Short>, t: Trace, n: nat)
    requires Between(items, t)
    ensures Between(items + [Short(1, 7, 4, n), COUNT_ONE], PadSized(t, n))
  {
    var size := Short(1, 7, 4, n);
    GlobalAt(items, t, size);
    GlobalAt(items + [size], SetGlobal(t, size), COUNT_ONE);
    assert items + [size] + [COUNT_ONE] == items + [size, COUNT_ONE];
  }

  lemma ConstantAt(items: seq<Short>, t: Trace)
    requires Between(items, t) && t.g.rcount == 1
    ensures Between(items + [CONSTANT], t.(ids := [0], size := t.size + t.g.rsize))
  {
    InputAt(items, t, CONSTANT);
    assert t.events + [] == t.events;
  }

  lemma PadAt(items: seq<Short>, t: Trace, n: nat)
    requires Between(items, t)
    ensures Between(items + Pad(n), Padded(t, n))
  {
    var sized := [Short(1, 7, 4, n), COUNT_ONE];
    PadSizedAt(items, t, n);
    ConstantAt(items + sized, PadSized(t, n));
    assert items + sized + [CONSTANT] == items + Pad(n);
  }

  function AxisEvent(t: Trace, usage: nat): (e: Event)
  {
    Item(0, 0, ToInt32(t.size % WORD), 1, usage, 2, t.g.(rsize := 8, rcount := 1))
  }

  function Measured(t: Trace, usage: nat): (r: Trace)
  {
    t.(g := t.g.(rsize := 8, rcount := 1), ids := [0], size := t.size + 8, events := t.events + [AxisEvent(t, usage)])
  }

  function Sized(t: Trace): (r: Trace) { t.(g := t.g.(rsize := 8, rcount := 1)) }

  lemma SizedAt(items: seq<Short>, t: Trace)
    requires Between(items, t)
    ensures Between(items + [SIZE_BYTE, COUNT_ONE], Sized(t))
  {
    GlobalAt(items, t, SIZE_BYTE);
    GlobalAt(items + [SIZE_BYTE], SetGlobal(t, SIZE_BYTE), COUNT_ONE);
    assert items + [SIZE_BYTE] + [COUNT_ONE] == items + [SIZE_BYTE, COUNT_ONE];
  }

  lemma ByteAt(items: seq<Short>, t: Trace, usage: nat)
    requires Between(items, t) && t.g.rsize == 8 && t.g.rcount == 1 && usage < 256 && ToInt32(t.size % WORD) < FAR
    ensures Between(items + [Short(2, 0, 1, usage), VARIABLE], Measured(t, usage))
  {
    var named := Short(2, 0, 1, usage);
    var t' := AddUsage(t, named);
    UsageAt(items, t, named);
    InputAt(items + [named], t', VARIABLE);
    assert items + [named] + [VARIABLE] == items + [named, VARIABLE];
    OneUsage(t'.l, usage);
    assert ElementEvents(0, t'.g, t'.l, ToInt32(t'.size % WORD), 0, 2) == [AxisEvent(t, usage)];
    assert AddInput(t', VARIABLE) == Measured(t, usage);
  }

  lemma AxisAt(items: seq<Short>, t: Trace, usage: nat)
    requires Between(items, t) && usage < 256 && ToInt32(t.size % WORD) < FAR
    ensures Between(items + Axis(usage), Measured(t, usage))
  {
    SizedAt(items, t);
    ByteAt(items + [SIZE_BYTE, COUNT_ONE], Sized(t), usage);
    assert items + [SIZE_BYTE, COUNT_ONE] + [Short(2, 0, 1, usage), VARIABLE] == items + Axis(usage);
  }

  lemma OneUsage(l: Locals, usage: nat)
    requires l == NO_LOCALS.(usages := [(usage, NO_PAGE)])
    ensures UsageOf(l, 1, 0) == Usage(1, usage)
    ensures NextLocals(l, VARIABLE) == NO_LOCALS
  {
  }

  // ---- what the parser makes of two axes ----

  /** The layout of an X and a Y event of report 0. */
  function TwoAxes(x: Event, y: Event): (p: Ptr)
    requires x.Item? && y.Item?
  {
    NoLayout(0).(x := SetFld(ABSENT, x), y := SetFld(ABSENT, y), absolute := x.flags / 4 % 2 == 0)
  }

  predicate IsAxis(e: Event, usage: nat)
  {
    e.Item? && e.kind == 0 && e.rid == 0 && e.page == 1 && e.id == usage && 0 < e.g.rsize < 256
  }

  lemma CollectTwo(x: Event, y: Event, max: nat)
    requires IsAxis(x, 0x30) && IsAxis(y, 0x31) && 0 < max
    ensures Collected([Enter(0, 1, 1, 2), x, y], max) == Ctx([TwoAxes(x, y)], true)
  {
    var e := Enter(0, 1, 1, 2);
    CollectedStep([], e, max);
    CollectedStep([e], x, max);
    CollectedStep([e, x], y, max);
    assert [] + [e] == [e] && [e] + [x] == [e, x] && [e, x] + [y] == [e, x, y];
    assert Collected([e], max) == Ctx([], true);
    assert Collected([e, x], max) == Ctx([Placed(NoLayout(0), x)], true);
    assert Placed(Placed(NoLayout(0), x), y) == TwoAxes(x, y);
  }

  lemma LayoutsOfTwo(items: seq<Short>, x: Event, y: Event, max: nat)
    requires EventsOf(items) == [Enter(0, 1, 1, 2), x, y] && IsAxis(x, 0x30) && IsAxis(y, 0x31) && 0 < max
    ensures Layouts(items, max) == [TwoAxes(x, y).(bytes := Bytes(Laid(items, (0, 0)) % WORD, NamesIds(items)))]
  {
    CollectTwo(x, y, max);
    var lays := [TwoAxes(x, y)];
    assert lays[..0] == [] && lays[0].x.bits != 0 && lays[0].y.bits != 0;
    assert Kept([], items, NamesIds(items)) == [];
  }

  // ---- a pad of 2^31 bits or more before the axes ----

  function PadFirst(n: nat): (r: seq<Short>) { MOUSE + Pad(n) + Axis(0x30) + Axis(0x31) }

  /** X and Y behind whatever `t` has laid out. */
  function BothAxes(t: Trace): (r: Trace) { Measured(Measured(t, 0x30), 0x31) }

  lemma BothAxesAt(items: seq<Short>, t: Trace)
    requires Between(items, t) && ToInt32(t.size % WORD) < FAR && ToInt32((t.size + 8) % WORD) < FAR
    ensures Between(items + Axis(0x30) + Axis(0x31), BothAxes(t))
  {
    AxisAt(items, t, 0x30);
    SecondAxisAt(items + Axis(0x30), t, Measured(t, 0x30));
  }

  lemma SecondAxisAt(items: seq<Short>, t: Trace, t': Trace)
    requires Between(items, t') && t' == Measured(t, 0x30) && ToInt32((t.size + 8) % WORD) < FAR
    ensures Between(items + Axis(0x31), BothAxes(t))
  {
    AxisAt(items, t', 0x31);
  }

  /** The events of X at `t` and Y after it. */
  function AxesOf(t: Trace): (r: Ptr) { TwoAxes(AxisEvent(t, 0x30), AxisEvent(Measured(t, 0x30), 0x31)) }

  lemma LayoutsAt(items: seq<Short>, t: Trace, all: Trace, max: nat)
    requires At(items, all)
    requires all.events == [Enter(0, 1, 1, 2)] + [AxisEvent(t, 0x30)] + [AxisEvent(Measured(t, 0x30), 0x31)]
    requires 0 < max
    ensures Layouts(items, max) == [AxesOf(t).(bytes := Bytes(all.size % WORD, false))]
  {
    var x, y := AxisEvent(t, 0x30), AxisEvent(Measured(t, 0x30), 0x31);
    assert [Enter(0, 1, 1, 2)] + [x] + [y] == [Enter(0, 1, 1, 2), x, y];
    LayoutsOfTwo(items, x, y, max);
  }

  lemma PadFirstAt(n: nat)
    requires WIDE <= n && n + 16 < WORD
    ensures At(PadFirst(n), BothAxes(Padded(IN_MOUSE, n)))
  {
    MouseAt();
    PadAt(MOUSE, IN_MOUSE, n);
    BothAxesAt(MOUSE + Pad(n), Padded(IN_MOUSE, n));
  }

  /** Past 2^31 bits the axes' offsets read negative, pass the far test, and are stored modulo 2^16: the layout
      names bits of the pad. */
  lemma NegativeOffsets(n: nat, max: nat)
    requires WIDE <= n && n + 16 < WORD && 0 < max
    ensures Laid(PadFirst(n), (0, 0)) == n + 16 && |Layouts(PadFirst(n), max)| == 1
    ensures Layouts(PadFirst(n), max)[0].x == Fld(ToInt16(n - WORD), 8, false, 0, 0)
    ensures Layouts(PadFirst(n), max)[0].y == Fld(ToInt16(n + 8 - WORD), 8, false, 0, 0)
    ensures Layouts(PadFirst(n), max)[0].bytes == Bytes(n + 16, false)
  {
    FarLayout(n, max);
    FarOffsets(n);
  }

  lemma FarLayout(n: nat, max: nat)
    requires WIDE <= n && n + 16 < WORD && 0 < max
    ensures Laid(PadFirst(n), (0, 0)) == n + 16
    ensures Layouts(PadFirst(n), max) == [AxesOf(Padded(IN_MOUSE, n)).(bytes := Bytes(n + 16, false))]
  {
    var t := Padded(IN_MOUSE, n);
    PadFirstAt(n);
    FarEvents(n);
    LayoutsAt(PadFirst(n), t, BothAxes(t), max);
  }

  lemma FarEvents(n: nat)
    requires WIDE <= n && n + 16 < WORD
    ensures var t := Padded(IN_MOUSE, n);
      && BothAxes(t).events == [Enter(0, 1, 1, 2)] + [AxisEvent(t, 0x30)] + [AxisEvent(Measured(t, 0x30), 0x31)]
      && BothAxes(t).size == n + 16 && (n + 16) % WORD == n + 16
  {
  }

  lemma FarOffsets(n: nat)
    requires WIDE <= n && n + 16 < WORD
    ensures var p := AxesOf(Padded(IN_MOUSE, n));
      p.x == Fld(ToInt16(n - WORD), 8, false, 0, 0) && p.y == Fld(ToInt16(n + 8 - WORD), 8, false, 0, 0)
  {
  }

  // ---- a pad after them that wraps the stored length ----

  function PadLast(n: nat): (r: seq<Short>) { MOUSE + Axis(0x30) + Axis(0x31) + Pad(n) }

  lemma PadLastAt(n: nat)
    ensures At(PadLast(n), Padded(BothAxes(IN_MOUSE), n))
  {
    MouseAt();
    BothAxesAt(MOUSE, IN_MOUSE);
    PadAt(MOUSE + Axis(0x30) + Axis(0x31), BothAxes(IN_MOUSE), n);
  }

  /** The axes keep their places, bits 0 and 8, and decode from a report of the stored length exactly when that
      length, kept in 16 bits, is at least two bytes. */
  lemma WrappedLength(n: nat, max: nat)
    requires n + 16 < WORD && 0 < max
    ensures Laid(PadLast(n), (0, 0)) == n + 16 && |Layouts(PadLast(n), max)| == 1
    ensures Layouts(PadLast(n), max)[0].x == Fld(0, 8, false, 0, 0)
    ensures Layouts(PadLast(n), max)[0].y == Fld(8, 8, false, 0, 0)
    ensures Layouts(PadLast(n), max)[0].bytes == Bytes(n + 16, false) && Layouts(PadLast(n), max)[0].Valid()
    ensures FieldsInRange(Layouts(PadLast(n), max)[0], Bytes(n + 16, false)) <==> Bytes(n + 16, false) >= 2
  {
    PadLastAt(n);
    NearEvents(n);
    LayoutsAt(PadLast(n), IN_MOUSE, Padded(BothAxes(IN_MOUSE), n), max);
    ByteAxes(AxesOf(IN_MOUSE).(bytes := Bytes(n + 16, false)));
  }

  lemma NearEvents(n: nat)
    requires n + 16 < WORD
    ensures var t := Padded(BothAxes(IN_MOUSE), n);
      && t.events == [Enter(0, 1, 1, 2)] + [AxisEvent(IN_MOUSE, 0x30)] + [AxisEvent(Measured(IN_MOUSE, 0x30), 0x31)]
      && t.size == n + 16 && t.size % WORD == n + 16
    ensures AxesOf(IN_MOUSE) == NoLayout(0).(x := Fld(0, 8, false, 0, 0), y := Fld(8, 8, false, 0, 0), absolute := true)
  {
  }

  /** Byte axes at bits 0 and 8 need two bytes. */
  lemma ByteAxes(p: Ptr)
    requires p == NoLayout(0).(x := Fld(0, 8, false, 0, 0), y := Fld(8, 8, false, 0, 0), absolute := true,
                               bytes := p.bytes)
    ensures p.Valid() && (FieldsInRange(p, p.bytes) <==> p.bytes >= 2)
  {
  }

  // ---- as bytes ----

  lemma FirstEncodable(n: nat)
    requires n < WORD
    ensures forall i :: 0 <= i < |PadFirst(n)| ==> Encodable(PadFirst(n)[i])
  {
  }

  lemma LastEncodable(n: nat)
    requires n < WORD
    ensures forall i :: 0 <= i < |PadLast(n)| ==> Encodable(PadLast(n)[i])
  {
  }

  /** hid_parse_pointer on the bytes of a descriptor given as items. */
  method ParseItems(items: seq<Short>, out: array<Ptr>) returns (keep: nat)
    requires out.Length >= 1 && items != [] && forall i :: 0 <= i < |items| ==> Encodable(items[i])
    modifies out
    ensures keep <= out.Length && out[..keep] == Layouts(items, 1)
  {
    var d := EncodeAll(items);
    ItemsReadBack(d, 0, items);
    assert d[0..] == d;
    var uses;
    keep, uses := ParsePointer(d, out, 1);
  }

  lemma FirstWideOffset(n: nat)
    requires n == WIDE
    ensures ToInt16(n - WORD) == 0 && ToInt16(n + 8 - WORD) == 8 && Bytes(n + 16, false) == 2
  {
  }

  /** A descriptor it accepts whose X lies at bit `n`, from 2^31 on: at 2^31 X is stored at bit 0 of a two-byte
      report. */
  method ParseFarAxes(n: nat, out: array<Ptr>) returns (keep: nat)
    requires out.Length >= 1 && WIDE <= n && n + 16 < WORD
    modifies out
    ensures keep == 1 && out[0].x.off == ToInt16(n - WORD) && out[0].y.off == ToInt16(n + 8 - WORD)
    ensures n == WIDE ==> out[0].x.off == 0 && out[0].y.off == 8 && out[0].bytes == 2
  {
    FirstEncodable(n);
    NegativeOffsets(n, 1);
    if n == WIDE { FirstWideOffset(n); }
    keep := ParseItems(PadFirst(n), out);
    assert out[0] == out[..keep][0];
  }

  /** One with byte axes and `n` constant bits after them: with 0x7FFF0 of them the 65536-byte report is stored as
      0 bytes long, and no field lies inside. */
  method ParseLongReport(n: nat, out: array<Ptr>) returns (keep: nat)
    requires out.Length >= 1 && n + 16 < WORD
    modifies out
    ensures keep == 1 && out[0].Valid() && out[0].bytes == Bytes(n + 16, false)
    ensures FieldsInRange(out[0], out[0].bytes) <==> out[0].bytes >= 2
    ensures n == 0x7_FFF0 ==> out[0].bytes == 0
  {
    LastEncodable(n);
    WrappedLength(n, 1);
    keep := ParseItems(PadLast(n), out);
    assert out[0] == out[..keep][0];
  }
}
