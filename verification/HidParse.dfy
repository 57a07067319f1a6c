/** hid_parse_pointer: from descriptor bytes to the layouts of its pointer reports. */
module HidParse {
  import opened Scalars
  import opened HidBits
  import opened HidItems
  import opened HidEvents
  import opened HidWalk
  import opened HidPointer

  // ---- collecting layouts ----

  /** Layouts found so far, and whether the walk is inside a pointer's application collection. */
  datatype Ctx = Ctx(lays: seq<Ptr>, inPtr: bool)

  /** First layout with the id, or the number of layouts. */
  ghost function Index(lays: seq<Ptr>, id: Byte): (i: nat)
    ensures i <= |lays| && (i < |lays| ==> lays[i].id == id)
    ensures forall j :: 0 <= j < i ==> lays[j].id != id
  {
    if lays == [] then 0 else if lays[0].id == id then 0 else 1 + Index(lays[1..], id)
  }

  ghost predicate AllValid(lays: seq<Ptr>) { forall k :: 0 <= k < |lays| ==> lays[k].Valid() }

  /** What a callback does to the layouts. */
  ghost function OnEvent(c: Ctx, e: Event, max: nat): (r: Ctx)
    requires AllValid(c.lays)
    ensures AllValid(r.lays)
  {
    match e
    case Enter(depth, ty, page, id) =>
      if depth == 0 then c.(inPtr := ty == 1 && page == 1 && (id == 1 || id == 2)) else c
    case Leave(depth) => if depth == 0 then c.(inPtr := false) else c
    case Item(kind, rid, _, _, _, _, _) =>
      if !c.inPtr || kind != 0 then c
      else
        var i := Index(c.lays, rid);
        if i < |c.lays| then c.(lays := c.lays[i := Placed(c.lays[i], e)])
        else if |c.lays| >= max then c
        else c.(lays := c.lays + [Placed(NoLayout(rid), e)])
  }

  ghost function Collected(events: seq<Event>, max: nat): (r: Ctx)
    ensures AllValid(r.lays)
  {
    if events == [] then Ctx([], false)
    else OnEvent(Collected(events[..|events| - 1], max), events[|events| - 1], max)
  }

  lemma CollectedStep(events: seq<Event>, e: Event, max: nat)
    ensures Collected(events + [e], max) == OnEvent(Collected(events, max), e, max)
  {
    assert (events + [e])[..|events|] == events;
  }

  /** One layout per id, each with fields the walker reported for that id. */
  ghost predicate Proper(lays: seq<Ptr>, events: seq<Event>)
  {
    && (forall k :: 0 <= k < |lays| ==> LaidOut(lays[k], events))
    && (forall j, k :: 0 <= j < k < |lays| ==> lays[j].id != lays[k].id)
    && (forall k :: 0 <= k < |lays| ==> Appears(events, lays[k].id))
  }

  /** The walker reported a field of input report `id`. */
  ghost predicate Appears(events: seq<Event>, id: Byte)
  {
    exists i :: 0 <= i < |events| && IsOf(events[i], (0, id))
  }

  lemma ProperGrows(lays: seq<Ptr>, events: seq<Event>, e: Event)
    requires Proper(lays, events)
    ensures Proper(lays, events + [e])
  {
    forall k | 0 <= k < |lays|
      ensures LaidOut(lays[k], events + [e]) && Appears(events + [e], lays[k].id)
    {
      LaidOutGrows(lays[k], events, e);
      var i :| 0 <= i < |events| && IsOf(events[i], (0, lays[k].id));
      assert IsOf((events + [e])[i], (0, lays[k].id));
    }
  }

  lemma EventProper(c: Ctx, events: seq<Event>, e: Event, max: nat)
    requires Proper(c.lays, events) && AllValid(c.lays) && Reportable(e)
    ensures Proper(OnEvent(c, e, max).lays, events + [e])
  {
    ProperGrows(c.lays, events, e);
    if e.Item? && c.inPtr && e.kind == 0 {
      var i := Index(c.lays, e.rid);
      assert IsOf((events + [e])[|events|], (0, e.rid));
      if i < |c.lays| {
        PlacedLaidOut(c.lays[i], events, e);
      } else {
        assert LaidOut(NoLayout(e.rid), events);
        PlacedLaidOut(NoLayout(e.rid), events, e);
      }
    }
  }

  lemma {:induction false} CollectedProper(events: seq<Event>, max: nat)
    requires forall i :: 0 <= i < |events| ==> Reportable(events[i])
    ensures Proper(Collected(events, max).lays, events) && |Collected(events, max).lays| <= max
  {
    if events != [] {
      var n := |events| - 1;
      CollectedProper(events[..n], max);
      EventProper(Collected(events[..n], max), events[..n], events[n], max);
      assert events[..n] + [events[n]] == events;
    }
  }

  class Context {
    const out: array<Ptr>
    const max: nat
    var n: nat
    var inPtr: bool

    constructor (out: array<Ptr>, max: nat)
      requires max <= out.Length
      ensures this.out == out && this.max == max && Valid() && State() == Ctx([], false)
    {
      this.out, this.max, n, inPtr := out, max, 0, false;
    }

    ghost predicate Valid()
      reads this, out
    {
      n <= max <= out.Length && AllValid(out[..n])
    }

    ghost function State(): (c: Ctx)
      requires n <= out.Length
      reads this, out
    {
      Ctx(out[..n], inPtr)
    }

    /** lay_find's search. */
    method Find(id: Byte) returns (i: nat)
      requires Valid()
      ensures i == Index(out[..n], id)
    {
      i := 0;
      while i < n
        invariant i <= n && forall j :: 0 <= j < i ==> out[j].id != id
      {
        if out[i].id == id { return; }
        i := i + 1;
      }
    }

    /** ptr_enter, ptr_leave and ptr_field. */
    method Handle(e: Event)
      requires Valid()
      modifies this, out
      ensures Valid() && State() == OnEvent(old(State()), e, max)
      ensures out[max..] == old(out[max..])
    {
      match e
      case Enter(depth, ty, page, id) => if depth == 0 { inPtr := ty == 1 && page == 1 && (id == 1 || id == 2); }
      case Leave(depth) => if depth == 0 { inPtr := false; }
      case Item(kind, rid, _, _, _, _, _) =>
        if !inPtr || kind != 0 { return; }
        var i := Find(rid);
        if i == n {
          if n >= max { return; }
          out[n] := NoLayout(rid);
          n := n + 1;
        }
        out[i] := Placed(out[i], e);
    }
  }

  // ---- the kept layouts ----

  /** The layouts that have both axes, each with its report's length. */
  ghost function Kept(lays: seq<Ptr>, items: seq<Short>, uses: bool): (r: seq<Ptr>)
    ensures |r| <= |lays|
  {
    if lays == [] then []
    else
      var p := lays[|lays| - 1];
      var rest := Kept(lays[..|lays| - 1], items, uses);
      if p.x.bits == 0 || p.y.bits == 0 then rest else rest + [p.(bytes := Bytes(Laid(items, (0, p.id)) % WORD, uses))]
  }

  lemma KeptStep(lays: seq<Ptr>, k: nat, items: seq<Short>, uses: bool)
    requires k < |lays|
    ensures lays[k].x.bits == 0 || lays[k].y.bits == 0 ==>
              Kept(lays[..k + 1], items, uses) == Kept(lays[..k], items, uses)
    ensures lays[k].x.bits != 0 && lays[k].y.bits != 0 ==>
      Kept(lays[..k + 1], items, uses)
        == Kept(lays[..k], items, uses) + [lays[k].(bytes := Bytes(Laid(items, (0, lays[k].id)) % WORD, uses))]
  {
    assert lays[..k + 1][..k] == lays[..k];
  }

  /** Every kept layout is a collected one with both axes, its length that of all the report's input items. */
  lemma {:induction false} KeptFrom(lays: seq<Ptr>, items: seq<Short>, uses: bool, k: nat)
    requires k < |Kept(lays, items, uses)|
    ensures var q := Kept(lays, items, uses)[k];
      && q.x.bits != 0 && q.y.bits != 0 && q.bytes == Bytes(Laid(items, (0, q.id)) % WORD, uses)
      && exists j :: 0 <= j < |lays| && q == lays[j].(bytes := q.bytes)
  {
    var n := |lays| - 1;
    var rest := Kept(lays[..n], items, uses);
    if k < |rest| {
      KeptFrom(lays[..n], items, uses, k);
      var j :| 0 <= j < n && rest[k] == lays[..n][j].(bytes := rest[k].bytes);
      assert lays[j] == lays[..n][j];
    } else {
      assert Kept(lays, items, uses)[k] == lays[n].(bytes := Kept(lays, items, uses)[k].bytes);
    }
  }

  /** The counter for an id: the last entry with it. */
  method SizeOf(rb: seq<RidBits>, id: Byte, ghost items: seq<Short>) returns (bits: nat)
    requires HasId(rb, id) && forall i :: 0 <= i < |rb| ==> rb[i].bits == Laid(items, (0, rb[i].id)) % WORD
    ensures bits == Laid(items, (0, id)) % WORD
  {
    bits := 0;
    for r := 0 to |rb|
      invariant HasId(rb[..r], id) ==> bits == Laid(items, (0, id)) % WORD
    {
      if rb[r].id == id { bits := rb[r].bits; }
      HasIdStep(rb, r, id);
    }
    assert rb[..|rb|] == rb;
  }

  lemma HasIdStep(rb: seq<RidBits>, r: nat, id: Byte)
    requires r < |rb|
    ensures HasId(rb[..r + 1], id) ==> HasId(rb[..r], id) || rb[r].id == id
  {
    if HasId(rb[..r + 1], id) {
      var i :| 0 <= i < r + 1 && rb[..r + 1][i].id == id;
      if i < r { assert rb[..r][i].id == id; }
    }
  }

  /** Keeps or drops layout `k`. */
  method KeepLayout(out: array<Ptr>, k: nat, keep: nat, rb: seq<RidBits>, uses: bool, ghost items: seq<Short>,
                    ghost was: seq<Ptr>)
    returns (keep': nat)
    requires keep <= k < out.Length && k < |was| && out[k] == was[k] && out[..keep] == Kept(was[..k], items, uses)
    requires HasId(rb, was[k].id) && forall i :: 0 <= i < |rb| ==> rb[i].bits == Laid(items, (0, rb[i].id)) % WORD
    modifies out
    ensures keep' <= k + 1 && out[..keep'] == Kept(was[..k + 1], items, uses)
    ensures out[k + 1..] == old(out[k + 1..])
  {
    KeptStep(was, k, items, uses);
    var p := out[k];
    if p.x.bits == 0 || p.y.bits == 0 { return keep; }
    var bits := SizeOf(rb, p.id, items);
    ghost var before := out[..keep];
    out[keep] := p.(bytes := Bytes(bits, uses));
    assert out[..keep + 1] == before + [p.(bytes := Bytes(bits, uses))];
    return keep + 1;
  }

  /** Drops the layouts without both axes, in place, and gives the others their length. */
  method Compact(out: array<Ptr>, n: nat, rb: seq<RidBits>, uses: bool, ghost items: seq<Short>) returns (keep: nat)
    requires n <= out.Length && forall k :: 0 <= k < n ==> HasId(rb, out[k].id)
    requires forall i :: 0 <= i < |rb| ==> rb[i].bits == Laid(items, (0, rb[i].id)) % WORD
    modifies out
    ensures keep <= n && out[..keep] == Kept(old(out[..n]), items, uses)
    ensures out[n..] == old(out[n..])
  {
    keep := 0;
    ghost var was := out[..n];
    for k := 0 to n
      invariant keep <= k && out[..keep] == Kept(was[..k], items, uses)
      invariant out[k..] == old(out[k..])
    {
      assert out[k..][0] == out[k] == was[k];
      assert out[k + 1..] == out[k..][1..];
      keep := KeepLayout(out, k, keep, rb, uses, items, was);
    }
    assert was[..n] == was;
  }

  /** All fields of the layout lie in `len` data bytes. */
  ghost predicate FieldsInRange(p: Ptr, len: nat)
    requires p.Valid()
  {
    && FieldInRange(p.x, len) && FieldInRange(p.y, len) && FieldInRange(p.wheel, len) && FieldInRange(p.pan, len)
    && forall k :: 0 <= k < BUTTONS ==> FieldInRange(p.btn[k], len)
  }

  predicate FieldInRange(f: Fld, len: nat) { f.bits != 0 ==> InRange(len, f.off, f.bits) }

  lemma ReportedFits(f: Fld, events: seq<Event>, id: Byte, size: nat, uses: bool)
    requires Reported(f, events, id) && Packed(events, (0, id), size) && size < WIDE && LengthCovers(size, uses)
    requires forall i :: 0 <= i < |events| ==> Reportable(events[i])
    ensures Bytes(size, uses) >= Start(uses) && FieldInRange(f, Bytes(size, uses) - Start(uses))
  {
    if f.bits != 0 {
      ReportedInside(f, events, id, size);
      LengthCoversFieldsIff(size, uses);
      assert Possible(f.off, f.bits, size);
    }
  }

  lemma LayoutFits(p: Ptr, events: seq<Event>, size: nat, uses: bool)
    requires LaidOut(p, events) && Packed(events, (0, p.id), size) && size < WIDE && LengthCovers(size, uses)
    requires forall i :: 0 <= i < |events| ==> Reportable(events[i])
    ensures Bytes(size, uses) >= Start(uses) && FieldsInRange(p, Bytes(size, uses) - Start(uses))
  {
    ReportedFits(p.x, events, p.id, size, uses);
    ReportedFits(p.y, events, p.id, size, uses);
    ReportedFits(p.wheel, events, p.id, size, uses);
    ReportedFits(p.pan, events, p.id, size, uses);
    forall k | 0 <= k < BUTTONS
      ensures FieldInRange(p.btn[k], Bytes(size, uses) - Start(uses))
    {
      ReportedFits(p.btn[k], events, p.id, size, uses);
    }
  }

  /** The report is small enough for its counter and covered by its stored length. */
  ghost predicate Covered(items: seq<Short>, uses: bool, id: Byte)
  {
    Laid(items, (0, id)) < WIDE && LengthCovers(Laid(items, (0, id)), uses)
  }

  /** A layout with both axes whose fields, if its report is covered, all lie inside a report of its own length. */
  ghost predicate Decodable(p: Ptr, items: seq<Short>, uses: bool)
  {
    && p.Valid() && p.x.bits != 0 && p.y.bits != 0
    && (Covered(items, uses, p.id) ==> p.bytes >= Start(uses) && FieldsInRange(p, p.bytes - Start(uses)))
  }

  /** What hid_parse_pointer finds in a descriptor's items. */
  ghost function Layouts(items: seq<Short>, max: nat): (r: seq<Ptr>)
  {
    Kept(Collected(EventsOf(items), max).lays, items, NamesIds(items))
  }

  lemma DecodableFrom(p: Ptr, q: Ptr, events: seq<Event>, items: seq<Short>, uses: bool)
    requires LaidOut(p, events) && q == p.(bytes := Bytes(Laid(items, (0, p.id)) % WORD, uses))
    requires q.x.bits != 0 && q.y.bits != 0 && forall i :: 0 <= i < |events| ==> Reportable(events[i])
    requires Covered(items, uses, p.id) ==> Packed(events, (0, p.id), Laid(items, (0, p.id)))
    ensures Decodable(q, items, uses)
  {
    if Covered(items, uses, p.id) {
      var size := Laid(items, (0, p.id));
      LayoutFits(p, events, size, uses);
      SmallMod(size);
      LengthAside(p, Bytes(size, uses), Bytes(size, uses) - Start(uses));
    }
  }

  /** The stored length is no field. */
  lemma LengthAside(p: Ptr, n: nat, len: nat)
    requires p.Valid() && FieldsInRange(p, len)
    ensures FieldsInRange(p.(bytes := n), len)
  {
  }

  lemma LayoutsAreDecodable(items: seq<Short>, max: nat, k: nat)
    requires k < |Layouts(items, max)|
    ensures Decodable(Layouts(items, max)[k], items, NamesIds(items))
  {
    var events, uses := EventsOf(items), NamesIds(items);
    var lays := Collected(events, max).lays;
    var q := Kept(lays, items, uses)[k];
    EventsAreReportable(items);
    CollectedProper(events, max);
    KeptFrom(lays, items, uses, k);
    var j :| 0 <= j < |lays| && q == lays[j].(bytes := q.bytes);
    if Covered(items, uses, q.id) { EventsPacked(items, (0, q.id)); }
    DecodableFrom(lays[j], q, events, items, uses);
  }

  /** hid_parse_pointer, for any descriptor bytes: exactly the layouts its items describe. */
  method ParsePointer(d: seq<Byte>, out: array<Ptr>, max: int) returns (keep: nat, uses: bool)
    requires max <= out.Length
    modifies out
    ensures |d| == 0 || max <= 0 ==> keep == 0 && !uses && out[..] == old(out[..])
    ensures |d| > 0 && max > 0 ==> (uses <==> NamesIds(ItemsFrom(d, 0)))
    ensures |d| > 0 && max > 0 ==> keep <= max && out[..keep] == Layouts(ItemsFrom(d, 0), max)
    ensures forall k :: 0 <= k < keep ==> Decodable(out[k], ItemsFrom(d, 0), uses)
    ensures 0 < max ==> out[max..] == old(out[max..])
  {
    keep, uses := 0, false;
    if |d| == 0 || max <= 0 { return; }
    var w := new Walker();
    w.Walk(d);
    uses := w.uses;
    var rb := w.tables[0];
    ghost var items := ItemsFrom(d, 0);
    var c := new Context(out, max);
    CollectAll(c, w.events);
    LayoutsCounted(items, max);
    keep := Finish(out, c.n, rb, uses, items, max);
  }

  /** Every layout's report has a counter. */
  lemma LayoutsCounted(items: seq<Short>, max: nat)
    ensures |Collected(EventsOf(items), max).lays| <= max
    ensures forall k :: 0 <= k < |Collected(EventsOf(items), max).lays| ==>
      HasId(TableOf(items, 0), Collected(EventsOf(items), max).lays[k].id)
  {
    var events := EventsOf(items);
    var lays := Collected(events, max).lays;
    EventsAreReportable(items);
    CollectedProper(events, max);
    forall k | 0 <= k < |lays|
      ensures HasId(TableOf(items, 0), lays[k].id)
    {
      var i :| 0 <= i < |events| && IsOf(events[i], (0, lays[k].id));
      assert events[i] in events;
      TableIds(items, 0, lays[k].id);
    }
  }

  /** Compaction, and what it leaves. */
  method Finish(out: array<Ptr>, n: nat, rb: seq<RidBits>, uses: bool, ghost items: seq<Short>, ghost max: nat)
    returns (keep: nat)
    requires n <= out.Length && out[..n] == Collected(EventsOf(items), max).lays && rb == TableOf(items, 0)
    requires (forall k :: 0 <= k < n ==> HasId(rb, out[..n][k].id)) && (uses <==> NamesIds(items))
    modifies out
    ensures keep <= n && out[..keep] == Layouts(items, max)
    ensures forall k :: 0 <= k < keep ==> Decodable(out[k], items, uses)
    ensures out[n..] == old(out[n..])
  {
    assert forall k :: 0 <= k < n ==> out[k] == out[..n][k];
    keep := Compact(out, n, rb, uses, items);
    forall k | 0 <= k < keep
      ensures Decodable(out[k], items, uses)
    {
      assert out[k] == out[..keep][k];
      LayoutsAreDecodable(items, max, k);
    }
  }

  method CollectAll(c: Context, events: seq<Event>)
    requires c.Valid() && c.State() == Ctx([], false)
    modifies c, c.out
    ensures c.Valid() && c.State() == Collected(events, c.max)
    ensures c.out[c.max..] == old(c.out[c.max..])
  {
    for i := 0 to |events|
      invariant c.Valid() && c.State() == Collected(events[..i], c.max)
      invariant c.out[c.max..] == old(c.out[c.max..])
    {
      c.Handle(events[i]);
      CollectedStep(events[..i], events[i], c.max);
      assert events[..i] + [events[i]] == events[..i + 1];
    }
    assert events[..|events|] == events;
  }
}
