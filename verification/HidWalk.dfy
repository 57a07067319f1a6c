/** The HID report descriptor walker: one pass over the bytes that reports exactly the specified events,
    and what they say about the places of fields. */
module HidWalk {
  import opened Scalars
  import opened HidItems
  import opened HidEvents

  // ---- fields have their own places ----

  predicate IsOf(e: Event, key: Key) { e.Item? && (e.kind, e.rid) == key }

  /** The events of report `key` lie in order in disjoint bit ranges of a report of `size` bits. */
  ghost predicate Packed(events: seq<Event>, key: Key, size: nat)
  {
    && (forall i :: 0 <= i < |events| && IsOf(events[i], key) ==>
          0 <= events[i].off && events[i].off + events[i].g.rsize <= size)
    && (forall i, j :: 0 <= i < j < |events| && IsOf(events[i], key) && IsOf(events[j], key) ==>
          events[i].off + events[i].g.rsize <= events[j].off)
  }

  /** The counter, read as an int, is the report's size just when the size is below 2^31: from there on a
      field's offset comes out negative, or small again after a wrap. */
  lemma OffsetIsSizeIff(size: nat)
    ensures ToInt32(size % WORD) == size <==> size < WIDE
  {
  }

  /** Below 2^31 bits, element `e` lies e times the size after everything laid out before. */
  lemma PlaceIsExact(before: seq<Short>, kind: Kind, e: nat)
    requires var g := GlobalsAfter(before).0; Laid(before, (kind, g.rid)) + e * g.rsize < WIDE
    ensures var g := GlobalsAfter(before).0; PlaceOf(before, kind, e) == Laid(before, (kind, g.rid)) + e * g.rsize
  {
    var g := GlobalsAfter(before).0;
    SpanIsProduct(e, g.rsize);
    OffsetIsSizeIff(Laid(before, (kind, g.rid)) + Span(e, g.rsize));
  }

  lemma PackedOther(events: seq<Event>, ev: seq<Event>, key: Key, size: nat)
    requires Packed(events, key, size) && |ev| <= 1 && (ev != [] ==> !IsOf(ev[0], key))
    ensures Packed(events + ev, key, size)
  {
  }

  lemma PackedNext(events: seq<Event>, ev: seq<Event>, key: Key, size: nat, bits: nat)
    requires Packed(events, key, size) && |ev| <= 1
    requires ev != [] ==> IsOf(ev[0], key) && ev[0].off == size && ev[0].g.rsize == bits
    ensures Packed(events + ev, key, size + bits)
  {
  }

  /** The size of report `key` after `n` elements of the next item. */
  ghost function LaidWith(before: seq<Short>, kind: Kind, n: nat, key: Key): (r: nat)
  {
    Laid(before, key) + if key == (kind, GlobalsAfter(before).0.rid) then Span(n, GlobalsAfter(before).0.rsize) else 0
  }

  lemma ElementPacked(events: seq<Event>, before: seq<Short>, kind: Kind, u: nat, e: nat, key: Key)
    requires Packed(events, key, LaidWith(before, kind, e, key)) && LaidWith(before, kind, e + 1, key) < WIDE
    ensures Packed(events + ElementAt(before, kind, u, e), key, LaidWith(before, kind, e + 1, key))
  {
    var g := GlobalsAfter(before).0;
    var size, ev := LaidWith(before, kind, e, key), ElementAt(before, kind, u, e);
    if key == (kind, g.rid) {
      OffsetIsSizeIff(size);
      PackedNext(events, ev, key, size, g.rsize);
    } else {
      PackedOther(events, ev, key, size);
    }
  }

  lemma {:induction false} ElementsPacked(before: seq<Short>, kind: Kind, u: nat, n: nat, key: Key)
    requires Packed(EventsOf(before), key, Laid(before, key)) && LaidWith(before, kind, n, key) < WIDE
    ensures Packed(EventsOf(before) + FieldEvents(before, kind, u, n), key, LaidWith(before, kind, n, key))
  {
    if n == 0 {
      assert EventsOf(before) + [] == EventsOf(before);
    } else {
      ElementsPacked(before, kind, u, n - 1, key);
      ElementPacked(EventsOf(before) + FieldEvents(before, kind, u, n - 1), before, kind, u, n - 1, key);
      assert EventsOf(before) + FieldEvents(before, kind, u, n - 1) + ElementAt(before, kind, u, n - 1)
        == EventsOf(before) + FieldEvents(before, kind, u, n);
    }
  }

  lemma PackedGrows(events: seq<Event>, key: Key, size: nat, size': nat)
    requires Packed(events, key, size) && size <= size'
    ensures Packed(events, key, size')
  {
  }

  lemma FieldItemPacked(before: seq<Short>, it: Short, kind: Kind, key: Key)
    requires Packed(EventsOf(before), key, Laid(before, key)) && Laid(before + [it], key) < WIDE
    requires IsFieldItem(it, kind) && Counted(before, kind)
    ensures Packed(EventsOf(before) + ItemEvents(before, it), key, Laid(before + [it], key))
  {
    LaidStep(before, it, key);
    FieldItemEvents(before, it, kind);
    ElementsPacked(before, kind, it.u, Count(GlobalsAfter(before).0.rcount), key);
  }

  lemma ItemPacked(before: seq<Short>, it: Short, key: Key)
    requires Packed(EventsOf(before), key, Laid(before, key)) && Laid(before + [it], key) < WIDE
    ensures Packed(EventsOf(before) + ItemEvents(before, it), key, Laid(before + [it], key))
  {
    LaidStep(before, it, key);
    var kind: Kind := if it.tag == 11 then 1 else 0;
    if IsFieldItem(it, kind) && Counted(before, kind) {
      FieldItemPacked(before, it, kind, key);
    } else {
      PackedOther(EventsOf(before), ItemEvents(before, it), key, Laid(before, key));
      PackedGrows(EventsOf(before) + ItemEvents(before, it), key, Laid(before, key), Laid(before + [it], key));
    }
  }

  /** The fields of a report below 2^31 bits lie in order in disjoint ranges inside it. */
  lemma {:induction false} EventsPacked(items: seq<Short>, key: Key)
    requires Laid(items, key) < WIDE
    ensures Packed(EventsOf(items), key, Laid(items, key))
  {
    if items != [] {
      var before, it := items[..|items| - 1], items[|items| - 1];
      assert items == before + [it];
      LaidStep(before, it, key);
      EventsPacked(before, key);
      ItemPacked(before, it, key);
      ItemStep(before, it);
    }
  }

  // ---- fields and elements correspond ----

  /** Item `p` is an Input or Feature item of a counted report with an element `e`. */
  ghost predicate IsElement(items: seq<Short>, p: nat, kind: Kind, e: nat)
  {
    && p < |items| && IsFieldItem(items[p], kind) && Counted(items[..p], kind)
    && e < Count(GlobalsAfter(items[..p]).0.rcount)
  }

  lemma {:induction false} ElementIsReported(before: seq<Short>, kind: Kind, u: nat, n: nat, e: nat, ev: Event)
    requires e < n && ev in ElementAt(before, kind, u, e)
    ensures ev in FieldEvents(before, kind, u, n)
  {
    if e < n - 1 { ElementIsReported(before, kind, u, n - 1, e, ev); }
  }

  /** Every reportable element of the descriptor is reported, at its place and with its usage. */
  lemma {:induction false} EveryElementIsReported(items: seq<Short>, p: nat, kind: Kind, e: nat, ev: Event)
    requires IsElement(items, p, kind, e) && ev in ElementAt(items[..p], kind, items[p].u, e)
    ensures ev in EventsOf(items)
  {
    var n := |items| - 1;
    var before := items[..n];
    assert before + [items[n]] == items;
    ItemStep(before, items[n]);
    if p < n {
      assert before[..p] == items[..p];
      EveryElementIsReported(before, p, kind, e, ev);
    } else {
      LastItemReports(before, items[n], kind, e, ev);
    }
  }

  lemma LastItemReports(before: seq<Short>, it: Short, kind: Kind, e: nat, ev: Event)
    requires IsFieldItem(it, kind) && Counted(before, kind) && e < Count(GlobalsAfter(before).0.rcount)
    requires ev in ElementAt(before, kind, it.u, e)
    ensures ev in ItemEvents(before, it)
  {
    FieldItemEvents(before, it, kind);
    ElementIsReported(before, kind, it.u, Count(GlobalsAfter(before).0.rcount), e, ev);
  }

  lemma {:induction false} ReportIsElement(before: seq<Short>, kind: Kind, u: nat, n: nat, ev: Event) returns (e: nat)
    requires ev in FieldEvents(before, kind, u, n)
    ensures e < n && ev in ElementAt(before, kind, u, e)
  {
    if ev in FieldEvents(before, kind, u, n - 1) {
      e := ReportIsElement(before, kind, u, n - 1, ev);
    } else {
      e := n - 1;
    }
  }

  /** And nothing else is: every field event is that of an element. */
  lemma {:induction false} EveryReportIsElement(items: seq<Short>, ev: Event) returns (p: nat, e: nat)
    requires ev in EventsOf(items) && ev.Item?
    ensures IsElement(items, p, ev.kind, e) && ev in ElementAt(items[..p], ev.kind, items[p].u, e)
  {
    var n := |items| - 1;
    if ev in EventsOf(items[..n]) {
      p, e := EveryReportIsElement(items[..n], ev);
      assert items[..n][..p] == items[..p];
    } else {
      p := n;
      var kind: Kind := if items[n].tag == 11 then 1 else 0;
      e := ReportIsElement(items[..n], kind, items[n].u, Count(GlobalsAfter(items[..n]).0.rcount), ev);
      ElementKind(items[..n], kind, items[n].u, e, ev);
    }
  }

  lemma ElementKind(before: seq<Short>, kind: Kind, u: nat, e: nat, ev: Event)
    requires ev in ElementAt(before, kind, u, e)
    ensures ev.Item? && ev.kind == kind && ev.rid == GlobalsAfter(before).0.rid && Reportable(ev)
  {
  }

  /** A reported field has 1 to 32 bits, starts below the far limit, and its report has a counter. */
  predicate Reportable(e: Event) { e.Item? ==> 0 < e.g.rsize <= 32 && e.off < FAR }

  lemma {:induction false} IdsGrow(items: seq<Short>, p: nat, kind: Kind)
    requires p <= |items|
    ensures IdsAfter(items[..p], kind) <= IdsAfter(items, kind)
  {
    if p == |items| {
      assert items[..p] == items;
    } else {
      assert items[..|items| - 1][..p] == items[..p];
      IdsGrow(items[..|items| - 1], p, kind);
    }
  }

  lemma ElementHasCounter(items: seq<Short>, p: nat, kind: Kind)
    requires p < |items| && IsFieldItem(items[p], kind) && Counted(items[..p], kind)
    ensures GlobalsAfter(items[..p]).0.rid in IdsAfter(items, kind)
  {
    TakeStep(items, p);
    IdsStep(items[..p], items[p], kind);
    IdsGrow(items, p + 1, kind);
  }

  lemma TakeStep(items: seq<Short>, p: nat)
    requires p < |items|
    ensures items[..p] + [items[p]] == items[..p + 1]
  {
  }

  lemma ReportHasCounter(items: seq<Short>, ev: Event)
    requires ev in EventsOf(items) && ev.Item?
    ensures Reportable(ev) && ev.rid in IdsAfter(items, ev.kind)
  {
    var p, e := EveryReportIsElement(items, ev);
    ElementKind(items[..p], ev.kind, items[p].u, e, ev);
    ElementHasCounter(items, p, ev.kind);
  }

  lemma EventsAreReportable(items: seq<Short>)
    ensures forall ev :: ev in EventsOf(items) ==> Reportable(ev)
    ensures forall ev :: ev in EventsOf(items) && ev.Item? ==> ev.rid in IdsAfter(items, ev.kind)
  {
    forall ev | ev in EventsOf(items) && ev.Item?
      ensures Reportable(ev) && ev.rid in IdsAfter(items, ev.kind)
    {
      ReportHasCounter(items, ev);
    }
  }

  // ---- the walk ----

  ghost predicate HasId(t: seq<RidBits>, id: Byte)
  {
    exists i :: 0 <= i < |t| && t[i].id == id
  }

  /** rid_find: the entry for `id`, added when there is room. */
  method RidFind(t: seq<RidBits>, id: Byte) returns (t': seq<RidBits>, slot: int)
    ensures t' == Opened(t, id, HasId(t, id)) && -1 <= slot < |t'|
    ensures slot >= 0 ==> t'[slot].id == id
    ensures slot == -1 ==> !HasId(t, id) && |t| >= MAX_RIDS
  {
    for i := 0 to |t|
      invariant forall j :: 0 <= j < i ==> t[j].id != id
    {
      if t[i].id == id { return t, i; }
    }
    if |t| >= MAX_RIDS { return t, -1; }
    return t + [RidBits(id, 0)], |t|;
  }

  lemma TableIds(items: seq<Short>, kind: Kind, id: Byte)
    ensures HasId(TableOf(items, kind), id) <==> id in IdsAfter(items, kind)
  {
    if id in IdsAfter(items, kind) {
      var i :| 0 <= i < |IdsAfter(items, kind)| && IdsAfter(items, kind)[i] == id;
      assert TableOf(items, kind)[i].id == id;
    }
  }

  /** The opened counter holds the bits laid out so far. */
  lemma OpenedCounter(items: seq<Short>, kind: Kind, t: seq<RidBits>, slot: nat, id: Byte)
    requires t == Opened(TableOf(items, kind), id, id in IdsAfter(items, kind)) && slot < |t| && t[slot].id == id
    ensures t[slot] == Counter(items, kind, id)
  {
    if slot == |IdsAfter(items, kind)| {
      UncountedIsEmpty(items, kind, id);
    }
  }

  /** Lays out an item's elements one after the other: the counter after them, and their events. */
  method Elements(g: Globals, l: Locals, kind: Kind, start: nat, u: nat, ghost before: seq<Short>)
    returns (bits: nat, out: seq<Event>)
    requires g == GlobalsAfter(before).0 && l == LocalsAfter(before) && start == Laid(before, (kind, g.rid)) % WORD
    ensures bits == (Laid(before, (kind, g.rid)) + Span(Count(g.rcount), g.rsize)) % WORD
    ensures out == FieldEvents(before, kind, u, Count(g.rcount))
  {
    ghost var base := Laid(before, (kind, g.rid));
    bits, out := start, [];
    for e := 0 to Count(g.rcount)
      invariant bits == (base + Span(e, g.rsize)) % WORD
      invariant out == FieldEvents(before, kind, u, e)
    {
      out := out + ElementEvents(kind, g, l, ToInt32(bits), e, u);
      ModAdd(base + Span(e, g.rsize), g.rsize);
      bits := (bits + g.rsize) % WORD;
    }
  }

  lemma ModAdd(a: nat, b: nat)
    ensures (a % WORD + b) % WORD == (a + b) % WORD
  {
  }

  lemma FieldItemEvents(items: seq<Short>, it: Short, kind: Kind)
    requires IsFieldItem(it, kind)
    ensures ItemEvents(items, it) == Reports(items, kind, it.u)
  {
  }

  /** A full table gives the report no counter, and its fields no event. */
  lemma Uncounted(items: seq<Short>, it: Short, kind: Kind)
    requires IsFieldItem(it, kind) && |IdsAfter(items, kind)| >= MAX_RIDS
    requires GlobalsAfter(items).0.rid !in IdsAfter(items, kind)
    ensures TableOf(items + [it], kind) == TableOf(items, kind)
  {
    IdsStep(items, it, kind);
    forall i | 0 <= i < |TableOf(items, kind)|
      ensures TableOf(items + [it], kind)[i] == TableOf(items, kind)[i]
    {
      EntryKept(items, it, kind, i);
    }
  }

  /** Lays out one field item in its table: the table after it, and its events. */
  method CountItem(t0: seq<RidBits>, g: Globals, l: Locals, kind: Kind, it: Short, ghost before: seq<Short>)
    returns (t: seq<RidBits>, out: seq<Event>)
    requires IsFieldItem(it, kind) && t0 == TableOf(before, kind)
    requires g == GlobalsAfter(before).0 && l == LocalsAfter(before)
    ensures t == TableOf(before + [it], kind) && out == ItemEvents(before, it)
  {
    TableIds(before, kind, g.rid);
    FieldItemEvents(before, it, kind);
    var slot;
    t, slot := RidFind(t0, g.rid);
    if slot >= 0 {
      OpenedCounter(before, kind, t, slot, g.rid);
      TableGrown(before, it, kind, t, slot);
      LaidStep(before, it, (kind, g.rid));
      var bits;
      bits, out := Elements(g, l, kind, t[slot].bits, it.u, before);
      t := t[slot := RidBits(g.rid, bits)];
    } else {
      Uncounted(before, it, kind);
      out := [];
    }
  }

  class Walker {
    var g: Globals
    var stack: seq<Globals>
    var locals: Locals
    var depth: nat
    var uses: bool
    var tables: seq<seq<RidBits>>   // input and feature report sizes, modulo 2^32
    var events: seq<Event>          // callbacks made
    ghost var done: seq<Short>      // items walked

    constructor ()
      ensures Valid() && done == []
    {
      g, stack, locals, depth, uses := NO_GLOBALS, [], NO_LOCALS, 0, false;
      tables, events, done := [[], []], [], [];
    }

    /** The state is what the items walked so far make it. */
    ghost predicate Valid()
      reads this
    {
      && State(done)
      && |tables| == 2 && tables[0] == TableOf(done, 0) && tables[1] == TableOf(done, 1)
      && events == EventsOf(done)
    }

    ghost predicate State(items: seq<Short>)
      reads `g, `stack, `locals, `depth, `uses
    {
      && (g, stack) == GlobalsAfter(items) && locals == LocalsAfter(items) && depth == DepthAfter(items)
      && (uses <==> NamesIds(items))
    }

    /** An Input or Feature item: its report's counter, its elements' events. */
    method FieldItem(kind: Kind, it: Short)
      requires Valid() && IsFieldItem(it, kind)
      modifies `tables, `events
      ensures |tables| == 2 && tables[kind] == TableOf(done + [it], kind) && tables[1 - kind] == old(tables)[1 - kind]
      ensures events == EventsOf(done) + ItemEvents(done, it)
    {
      var t, ev := CountItem(tables[kind], g, locals, kind, it, done);
      tables := tables[kind := t];
      events := events + ev;
    }

    /** A main item: a collection's start or end, or fields. */
    method MainItem(it: Short)
      requires Valid() && it.ty == 0
      modifies `tables, `events
      ensures |tables| == 2 && tables[0] == TableOf(done + [it], 0) && tables[1] == TableOf(done + [it], 1)
      ensures events == EventsOf(done) + ItemEvents(done, it)
    {
      if it.tag == 8 {
        TableKept(done, it, 1);
        FieldItem(0, it);
      } else if it.tag == 11 {
        TableKept(done, it, 0);
        FieldItem(1, it);
      } else {
        TableKept(done, it, 0);
        TableKept(done, it, 1);
        if it.tag == 10 {
          events := events + [Entered(g, locals, depth, it.u)];
        } else if it.tag == 12 {
          events := events + [Leave(NextDepth(depth, it))];
        } else {
          assert events + [] == events;
        }
      }
    }

    method GlobalItem(it: Short, ghost before: seq<Short>)
      requires (g, stack) == GlobalsAfter(before)
      modifies `g, `stack
      ensures (g, stack) == GlobalsAfter(before + [it])
    {
      GlobalsStep(before, it);
      var r := NextGlobals(g, stack, it);
      g, stack := r.0, r.1;
    }

    method LocalItem(it: Short, ghost before: seq<Short>)
      requires locals == LocalsAfter(before) && depth == DepthAfter(before)
      modifies `locals, `depth
      ensures locals == LocalsAfter(before + [it]) && depth == DepthAfter(before + [it])
    {
      ItemStep(before, it);
      locals, depth := NextLocals(locals, it), NextDepth(depth, it);
    }

    method NameItem(it: Short, ghost before: seq<Short>)
      requires uses <==> NamesIds(before)
      modifies `uses
      ensures uses <==> NamesIds(before + [it])
    {
      NamesStep(before, it);
      if it.ty == 1 && it.tag == 8 { uses := true; }
    }

    /** The state after one short item. */
    method StateItem(it: Short, ghost before: seq<Short>)
      requires State(before)
      modifies `g, `stack, `locals, `depth, `uses
      ensures State(before + [it])
    {
      GlobalItem(it, before);
      LocalItem(it, before);
      NameItem(it, before);
    }

    method Step(it: Short)
      requires Valid()
      modifies this
      ensures Valid() && done == old(done) + [it]
    {
      ItemStep(done, it);
      if it.ty == 0 {
        MainItem(it);
      } else {
        TableKept(done, it, 0);
        TableKept(done, it, 1);
        assert events + [] == events;
      }
      StateItem(it, done);
      done := done + [it];
    }

    /** The walk over a whole descriptor, whatever its bytes: exactly the events of its items, and counters
        that hold the laid-out sizes modulo 2^32. */
    method Walk(d: seq<Byte>)
      requires Valid() && done == []
      modifies this
      ensures done == ItemsFrom(d, 0) && events == EventsOf(ItemsFrom(d, 0))
      ensures |tables| == 2 && tables[0] == TableOf(ItemsFrom(d, 0), 0) && tables[1] == TableOf(ItemsFrom(d, 0), 1)
      ensures uses <==> NamesIds(ItemsFrom(d, 0))
    {
      var i := 0;
      while i < |d|
        invariant Valid() && done + ItemsFrom(d, i) == ItemsFrom(d, 0)
        decreases |d| - i
      {
        var s := ReadItem(d, i);
        ItemsMove(d, i, done);
        if s.Stop? { return; }
        if s.Got? { Step(s.item); }
        i := s.next;
      }
    }
  }
}
