/** What a descriptor's items report: usages, collections, report ids, and every field with its place. */
module HidEvents {
  import opened Scalars
  import opened HidItems

  const NO_PAGE := 0xFFFF
  const MAX_USAGES := 64
  const MAX_RIDS := 16
  const FAR := 32767        // fields from here on are not reported
  const WIDE := 0x8000_0000 // a counter this large no longer reads as a non-negative int

  // ---- local items ----

  /** Usages (id and page; NO_PAGE = the page current at the Main item) and usage bounds. */
  datatype Locals = Locals(usages: seq<(nat, nat)>, umin: nat, umax: nat, uminPage: nat, haveMin: bool, haveMax: bool)

  const NO_LOCALS := Locals([], 0, 0, NO_PAGE, false, false)

  function UsageData(it: Short): (r: (nat, nat))
  {
    (it.u % 0x1_0000, if it.size == 4 then it.u / 0x1_0000 else NO_PAGE)
  }

  /** A local item adds to the state; a main item ends it. */
  function NextLocals(l: Locals, it: Short): (r: Locals)
  {
    if it.ty == 0 then l.(usages := [], haveMin := false, haveMax := false, uminPage := NO_PAGE)
    else if it.ty != 2 then l
    else
      match it.tag
      case 0 => if |l.usages| < MAX_USAGES then l.(usages := l.usages + [UsageData(it)]) else l
      case 1 => l.(umin := UsageData(it).0, uminPage := UsageData(it).1, haveMin := true)
      case 2 => l.(umax := UsageData(it).0, haveMax := true)
      case _ => l
  }

  ghost function LocalsAfter(items: seq<Short>): (r: Locals)
  {
    if items == [] then NO_LOCALS else NextLocals(LocalsAfter(items[..|items| - 1]), items[|items| - 1])
  }

  predicate IsLocal(it: Short, tag: nat) { it.ty == 2 && it.tag == tag }

  /** The items since the last main one. */
  ghost function SinceMain(items: seq<Short>): (r: seq<Short>)
  {
    if items == [] || items[|items| - 1].ty == 0 then [] else SinceMain(items[..|items| - 1]) + [items[|items| - 1]]
  }

  /** The Usage items among them, in order. */
  ghost function UsagesIn(s: seq<Short>): (r: seq<(nat, nat)>)
  {
    if s == [] then []
    else UsagesIn(s[..|s| - 1]) + (if IsLocal(s[|s| - 1], 0) then [UsageData(s[|s| - 1])] else [])
  }

  /** Index of the last local item with the tag, or -1. */
  ghost function LastLocal(s: seq<Short>, tag: nat): (i: int)
    ensures -1 <= i < |s| && (i >= 0 ==> IsLocal(s[i], tag)) && forall j :: i < j < |s| ==> !IsLocal(s[j], tag)
  {
    if s == [] then -1
    else if IsLocal(s[|s| - 1], tag) then |s| - 1
    else LastLocal(s[..|s| - 1], tag)
  }

  function FirstUsages(us: seq<(nat, nat)>): (r: seq<(nat, nat)>)
  {
    us[..if |us| <= MAX_USAGES then |us| else MAX_USAGES]
  }

  /** The usages in force are the first 64 since the last main item, and each bound is the last one given. */
  ghost predicate Summarises(l: Locals, s: seq<Short>)
  {
    && l.usages == FirstUsages(UsagesIn(s))
    && (l.haveMin <==> LastLocal(s, 1) >= 0) && (l.haveMax <==> LastLocal(s, 2) >= 0)
    && (l.haveMin ==> (l.umin, l.uminPage) == UsageData(s[LastLocal(s, 1)]))
    && (l.haveMax ==> l.umax == UsageData(s[LastLocal(s, 2)]).0)
  }

  lemma UsagesStep(s: seq<Short>, it: Short)
    ensures UsagesIn(s + [it]) == UsagesIn(s) + (if IsLocal(it, 0) then [UsageData(it)] else [])
  {
    assert (s + [it])[..|s|] == s;
  }

  lemma LastStep(s: seq<Short>, it: Short, tag: nat)
    ensures LastLocal(s + [it], tag) == if IsLocal(it, tag) then |s| else LastLocal(s, tag)
  {
    assert (s + [it])[..|s|] == s;
  }

  lemma SummaryStep(l: Locals, s: seq<Short>, it: Short)
    requires Summarises(l, s) && it.ty != 0
    ensures Summarises(NextLocals(l, it), s + [it])
  {
    UsagesStep(s, it);
    LastStep(s, it, 1);
    LastStep(s, it, 2);
    if IsLocal(it, 0) && |UsagesIn(s)| < MAX_USAGES {
      assert FirstUsages(UsagesIn(s) + [UsageData(it)]) == FirstUsages(UsagesIn(s)) + [UsageData(it)];
    }
  }

  lemma {:induction false} LocalsSinceMain(items: seq<Short>)
    ensures Summarises(LocalsAfter(items), SinceMain(items))
  {
    if items != [] && items[|items| - 1].ty != 0 {
      LocalsSinceMain(items[..|items| - 1]);
      SummaryStep(LocalsAfter(items[..|items| - 1]), SinceMain(items[..|items| - 1]), items[|items| - 1]);
    }
  }

  datatype Usage = Usage(page: nat, id: nat) | NoUsage

  /** The usage of element `e` of an item: counted up from the minimum, or the e-th and then the last one. */
  function UsageOf(l: Locals, page: nat, e: nat): (r: Usage)
  {
    if l.haveMin then
      var v := if l.haveMax && l.umin + e > l.umax then l.umax else l.umin + e;
      Usage(if l.uminPage == NO_PAGE then page else l.uminPage, v % 0x1_0000)
    else if |l.usages| > 0 then
      var k := if e < |l.usages| then e else |l.usages| - 1;
      Usage(if l.usages[k].1 == NO_PAGE then page else l.usages[k].1, l.usages[k].0)
    else NoUsage
  }

  // ---- events ----

  datatype Event =
    | Enter(depth: nat, ty: nat, page: nat, id: nat)
    | Leave(depth: nat)
    | Item(kind: Kind, rid: Byte, off: int, page: nat, id: nat, flags: nat, g: Globals)

  predicate IsVariable(u: nat) { u / 2 % 2 == 1 && u % 2 == 0 }

  /** The callback element `e` at bit `off` causes, if any. */
  function ElementEvents(kind: Kind, g: Globals, l: Locals, off: int, e: nat, u: nat): (r: seq<Event>)
    ensures |r| <= 1
  {
    if IsVariable(u) && 0 < g.rsize <= 32 && off < FAR && UsageOf(l, g.page, e).Usage?
    then [Item(kind, g.rid, off, UsageOf(l, g.page, e).page, UsageOf(l, g.page, e).id, u, g)]
    else []
  }

  /** The callback at a collection's start: its first usage, on the current page unless it names one. */
  function Entered(g: Globals, l: Locals, depth: nat, u: nat): (e: Event)
  {
    var pg := if |l.usages| > 0 && l.usages[0].1 != NO_PAGE then l.usages[0].1 else g.page;
    Enter(depth, u, pg, if |l.usages| > 0 then l.usages[0].0 else 0)
  }

  function NextDepth(depth: nat, it: Short): (r: nat)
  {
    if it.ty == 0 && it.tag == 10 then depth + 1
    else if it.ty == 0 && it.tag == 12 && depth > 0 then depth - 1
    else depth
  }

  ghost function DepthAfter(items: seq<Short>): (r: nat)
  {
    if items == [] then 0 else NextDepth(DepthAfter(items[..|items| - 1]), items[|items| - 1])
  }

  /** The ids of one kind of report that get a counter: the first 16 met. */
  ghost function IdsAfter(items: seq<Short>, kind: Kind): (r: seq<Byte>)
  {
    if items == [] then []
    else
      var before := items[..|items| - 1];
      var ids, id := IdsAfter(before, kind), GlobalsAfter(before).0.rid;
      if IsFieldItem(items[|items| - 1], kind) && id !in ids && |ids| < MAX_RIDS then ids + [id] else ids
  }

  /** What element `e` of an item that follows `before` reports. */
  ghost function ElementAt(before: seq<Short>, kind: Kind, u: nat, e: nat): (r: seq<Event>)
    ensures |r| <= 1
  {
    ElementEvents(kind, GlobalsAfter(before).0, LocalsAfter(before), PlaceOf(before, kind, e), e, u)
  }

  /** What its first `n` elements report: each takes the next bits of its report. */
  ghost function FieldEvents(before: seq<Short>, kind: Kind, u: nat, n: nat): (r: seq<Event>)
  {
    if n == 0 then [] else FieldEvents(before, kind, u, n - 1) + ElementAt(before, kind, u, n - 1)
  }

  /** Where element `e` of the next item lies: after all bits laid out before, read from the 32-bit counter. */
  ghost function PlaceOf(before: seq<Short>, kind: Kind, e: nat): (off: int)
  {
    var g := GlobalsAfter(before).0;
    ToInt32((Laid(before, (kind, g.rid)) + Span(e, g.rsize)) % WORD)
  }

  /** The report of the next item has a counter or gets one. */
  ghost predicate Counted(before: seq<Short>, kind: Kind)
  {
    GlobalsAfter(before).0.rid in IdsAfter(before, kind) || |IdsAfter(before, kind)| < MAX_RIDS
  }

  /** What a next Input or Feature item reports. */
  ghost function Reports(before: seq<Short>, kind: Kind, u: nat): (r: seq<Event>)
  {
    if Counted(before, kind) then FieldEvents(before, kind, u, Count(GlobalsAfter(before).0.rcount)) else []
  }

  /** What the next item reports. */
  ghost function ItemEvents(before: seq<Short>, it: Short): (r: seq<Event>)
  {
    if it.ty != 0 then []
    else if it.tag == 10 then [Entered(GlobalsAfter(before).0, LocalsAfter(before), DepthAfter(before), it.u)]
    else if it.tag == 12 then [Leave(NextDepth(DepthAfter(before), it))]
    else if it.tag == 8 then Reports(before, 0, it.u)
    else if it.tag == 11 then Reports(before, 1, it.u)
    else []
  }

  /** Everything a descriptor's items report, in order. */
  ghost function EventsOf(items: seq<Short>): (r: seq<Event>)
  {
    if items == [] then []
    else EventsOf(items[..|items| - 1]) + ItemEvents(items[..|items| - 1], items[|items| - 1])
  }

  /** One more item, in every part of the state. */
  lemma ItemStep(items: seq<Short>, it: Short)
    ensures LocalsAfter(items + [it]) == NextLocals(LocalsAfter(items), it)
    ensures DepthAfter(items + [it]) == NextDepth(DepthAfter(items), it)
    ensures EventsOf(items + [it]) == EventsOf(items) + ItemEvents(items, it)
  {
    assert (items + [it])[..|items|] == items;
  }

  lemma IdsStep(items: seq<Short>, it: Short, kind: Kind)
    ensures var ids, id := IdsAfter(items, kind), GlobalsAfter(items).0.rid;
      IdsAfter(items + [it], kind)
        == if IsFieldItem(it, kind) && id !in ids && |ids| < MAX_RIDS then ids + [id] else ids
  {
    assert (items + [it])[..|items|] == items;
  }

  // ---- report ids and their counters ----

  ghost predicate Distinct(ids: seq<Byte>)
  {
    forall i, j :: 0 <= i < j < |ids| ==> ids[i] != ids[j]
  }

  lemma {:induction false} IdsAreDistinct(items: seq<Short>, kind: Kind)
    ensures Distinct(IdsAfter(items, kind)) && |IdsAfter(items, kind)| <= MAX_RIDS
  {
    if items != [] { IdsAreDistinct(items[..|items| - 1], kind); }
  }

  /** While there is room, a report without a counter has no bits yet. */
  lemma {:induction false} UncountedIsEmpty(items: seq<Short>, kind: Kind, id: Byte)
    requires id !in IdsAfter(items, kind) && |IdsAfter(items, kind)| < MAX_RIDS
    ensures Laid(items, (kind, id)) == 0
  {
    if items != [] {
      UncountedIsEmpty(items[..|items| - 1], kind, id);
    }
  }

  datatype RidBits = RidBits(id: Byte, bits: nat)

  ghost function Counter(items: seq<Short>, kind: Kind, id: Byte): (r: RidBits)
  {
    RidBits(id, Laid(items, (kind, id)) % WORD)
  }

  /** The counters after the items: one per id, the bits laid out modulo 2^32. */
  ghost function TableOf(items: seq<Short>, kind: Kind): (r: seq<RidBits>)
    ensures |r| == |IdsAfter(items, kind)|
    ensures forall i :: 0 <= i < |r| ==> r[i] == Counter(items, kind, IdsAfter(items, kind)[i])
  {
    var ids := IdsAfter(items, kind);
    seq(|ids|, i requires 0 <= i < |ids| => Counter(items, kind, ids[i]))
  }

  /** An item that lays nothing out in this kind of report leaves its table. */
  lemma TableKept(items: seq<Short>, it: Short, kind: Kind)
    requires !IsFieldItem(it, kind)
    ensures TableOf(items + [it], kind) == TableOf(items, kind)
  {
    IdsStep(items, it, kind);
    forall i | 0 <= i < |IdsAfter(items, kind)|
      ensures Counter(items + [it], kind, IdsAfter(items, kind)[i]) == Counter(items, kind, IdsAfter(items, kind)[i])
    {
      LaidStep(items, it, (kind, IdsAfter(items, kind)[i]));
    }
  }

  /** The table with a counter opened for `id` if there is room. */
  function Opened(t: seq<RidBits>, id: Byte, known: bool): (r: seq<RidBits>)
  {
    if !known && |t| < MAX_RIDS then t + [RidBits(id, 0)] else t
  }

  /** The other reports keep their counters. */
  lemma CounterKept(items: seq<Short>, it: Short, kind: Kind, id: Byte)
    requires id != GlobalsAfter(items).0.rid
    ensures Counter(items + [it], kind, id) == Counter(items, kind, id)
  {
    LaidStep(items, it, (kind, id));
  }

  lemma EntryKept(items: seq<Short>, it: Short, kind: Kind, i: nat)
    requires i < |IdsAfter(items, kind)| && IdsAfter(items, kind)[i] != GlobalsAfter(items).0.rid
    ensures i < |TableOf(items + [it], kind)| && TableOf(items + [it], kind)[i] == TableOf(items, kind)[i]
  {
    IdsStep(items, it, kind);
    CounterKept(items, it, kind, IdsAfter(items, kind)[i]);
  }

  /** The slot of the report in the opened table: no other entry has its id. */
  lemma SlotIsOnly(items: seq<Short>, it: Short, kind: Kind, slot: nat)
    requires IsFieldItem(it, kind)
    requires slot < |IdsAfter(items + [it], kind)| && IdsAfter(items + [it], kind)[slot] == GlobalsAfter(items).0.rid
    ensures forall i :: 0 <= i < |IdsAfter(items + [it], kind)| && i != slot ==>
      i < |IdsAfter(items, kind)| && IdsAfter(items, kind)[i] != GlobalsAfter(items).0.rid
  {
    IdsStep(items, it, kind);
    IdsAreDistinct(items + [it], kind);
  }

  /** An Input or Feature item of a counted report changes that report's counter alone. */
  lemma TableGrown(items: seq<Short>, it: Short, kind: Kind, t: seq<RidBits>, slot: nat)
    requires IsFieldItem(it, kind)
    requires var id := GlobalsAfter(items).0.rid;
             t == Opened(TableOf(items, kind), id, id in IdsAfter(items, kind))
    requires slot < |t| && t[slot].id == GlobalsAfter(items).0.rid
    ensures Counted(items, kind)
    ensures TableOf(items + [it], kind) == t[slot := Counter(items + [it], kind, GlobalsAfter(items).0.rid)]
  {
    IdsStep(items, it, kind);
    assert IdsAfter(items + [it], kind)[slot] == GlobalsAfter(items).0.rid;
    SlotIsOnly(items, it, kind, slot);
    forall i | 0 <= i < |t| && i != slot
      ensures TableOf(items + [it], kind)[i] == t[i]
    {
      EntryKept(items, it, kind, i);
    }
  }
}
