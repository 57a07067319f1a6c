/** The pointer layouts of a descriptor without the parser's loop: which reports get one, and which field event
    each field is. */
module HidFields {
  import opened Scalars
  import opened HidBits
  import opened HidItems
  import opened HidEvents
  import opened HidWalk
  import opened HidPointer
  import opened HidParse

  // ---- inside a pointer ----

  /** The event opens or closes an outermost collection. */
  predicate AtTop(e: Event) { (e.Enter? || e.Leave?) && e.depth == 0 }

  /** It opens the application collection of a pointer or mouse. */
  predicate OpensPointer(e: Event)
  {
    e.Enter? && e.depth == 0 && e.ty == 1 && e.page == 1 && (e.id == 1 || e.id == 2)
  }

  /** Event `k` comes while such a collection is the last outermost one opened or closed. */
  ghost predicate InPointer(events: seq<Event>, k: nat)
    requires k <= |events|
  {
    exists m :: 0 <= m < k && OpensPointer(events[m]) && forall i :: m < i < k ==> !AtTop(events[i])
  }

  lemma InPointerStep(events: seq<Event>, n: nat)
    requires n < |events|
    ensures InPointer(events, n + 1) == if AtTop(events[n]) then OpensPointer(events[n]) else InPointer(events, n)
  {
    if AtTop(events[n]) {
      if OpensPointer(events[n]) { assert InPointer(events, n + 1); }
    } else if InPointer(events, n) {
      var m :| 0 <= m < n && OpensPointer(events[m]) && forall i :: m < i < n ==> !AtTop(events[i]);
      assert InPointer(events, n + 1);
    }
  }

  /** Event `k` is a field of input report `id` inside a pointer. */
  ghost predicate Counts(events: seq<Event>, k: nat, id: Byte)
  {
    k < |events| && IsOf(events[k], (0, id)) && InPointer(events, k)
  }

  predicate Names(e: Event, page: nat, usage: nat) { e.Item? && e.page == page && e.id == usage }

  // ---- which reports, which fields ----

  /** The first field of the report, before event `n`, with that usage; -1 when there is none. */
  ghost function First(events: seq<Event>, id: Byte, page: nat, usage: nat, n: nat): (k: int)
    requires n <= |events|
    ensures -1 <= k < n
    ensures k >= 0 ==> Counts(events, k, id) && Names(events[k], page, usage)
    ensures forall i: nat :: i < (if k < 0 then n else k) ==> !(Counts(events, i, id) && Names(events[i], page, usage))
  {
    if n == 0 then -1
    else
      var k := First(events, id, page, usage, n - 1);
      if k >= 0 then k else if Counts(events, n - 1, id) && Names(events[n - 1], page, usage) then n - 1 else -1
  }

  ghost function FieldOf(events: seq<Event>, id: Byte, page: nat, usage: nat, n: nat): (f: Fld)
    requires n <= |events|
  {
    var k := First(events, id, page, usage, n);
    if k < 0 then ABSENT else SetFld(ABSENT, events[k])
  }

  /** The layout of a report: each field the first one of its usage, absolute as the first X says. */
  ghost function LayoutOf(events: seq<Event>, id: Byte, n: nat): (p: Ptr)
    requires n <= |events|
    ensures p.Valid() && p.id == id
  {
    var x := First(events, id, 1, 0x30, n);
    Ptr(id, x >= 0 && events[x].flags / 4 % 2 == 0, 0,
        FieldOf(events, id, 1, 0x30, n), FieldOf(events, id, 1, 0x31, n), FieldOf(events, id, 1, 0x38, n),
        FieldOf(events, id, 12, 0x238, n), seq(BUTTONS, b requires 0 <= b => Button(events, id, b, n)))
  }

  ghost function Button(events: seq<Event>, id: Byte, b: nat, n: nat): (f: Fld)
    requires n <= |events|
  {
    FieldOf(events, id, 9, b + 1, n)
  }

  /** The reports with a field inside a pointer before event `n`, by first field. */
  ghost function Ids(events: seq<Event>, n: nat): (ids: seq<Byte>)
    requires n <= |events|
    ensures forall id :: id in ids <==> exists k: nat :: k < n && Counts(events, k, id)
    ensures forall i, j :: 0 <= i < j < |ids| ==> ids[i] != ids[j]
  {
    if n == 0 then []
    else
      var ids, e := Ids(events, n - 1), events[n - 1];
      if e.Item? && Counts(events, n - 1, e.rid) && e.rid !in ids then ids + [e.rid] else ids
  }

  /** The layouts of the first `max` of them. */
  ghost function Expected(events: seq<Event>, max: nat, n: nat): (lays: seq<Ptr>)
    requires n <= |events|
    ensures |lays| == Min(max, |Ids(events, n)|)
    ensures forall i :: 0 <= i < |lays| ==> lays[i] == LayoutOf(events, Ids(events, n)[i], n)
  {
    seq(Min(max, |Ids(events, n)|), i requires 0 <= i < |Ids(events, n)| => LayoutOf(events, Ids(events, n)[i], n))
  }

  // ---- one more event ----

  /** An event that is no field of the report changes none of its fields. */
  lemma FieldKept(events: seq<Event>, id: Byte, page: nat, usage: nat, n: nat)
    requires n < |events| && !(Counts(events, n, id) && Names(events[n], page, usage))
    ensures First(events, id, page, usage, n + 1) == First(events, id, page, usage, n)
  {
  }

  /** One that is sets the field if it is the first. */
  lemma FieldSet(events: seq<Event>, id: Byte, page: nat, usage: nat, n: nat)
    requires n < |events| && Counts(events, n, id) && Names(events[n], page, usage)
    requires forall i :: 0 <= i <= n ==> Reportable(events[i])
    ensures FieldOf(events, id, page, usage, n + 1) == SetFld(FieldOf(events, id, page, usage, n), events[n])
    ensures FieldOf(events, id, page, usage, n).bits == 0 <==> First(events, id, page, usage, n) < 0
    ensures First(events, id, page, usage, n + 1) ==
            if First(events, id, page, usage, n) < 0 then n else First(events, id, page, usage, n)
  {
    var k := First(events, id, page, usage, n);
    if k >= 0 { assert Reportable(events[k]); }
  }

  lemma LayoutKept(events: seq<Event>, id: Byte, n: nat)
    requires n < |events| && !Counts(events, n, id)
    ensures LayoutOf(events, id, n + 1) == LayoutOf(events, id, n)
  {
    FieldKept(events, id, 1, 0x30, n);
    FieldKept(events, id, 1, 0x31, n);
    FieldKept(events, id, 1, 0x38, n);
    FieldKept(events, id, 12, 0x238, n);
    forall b: nat | b < BUTTONS
      ensures Button(events, id, b, n + 1) == Button(events, id, b, n)
    {
      FieldKept(events, id, 9, b + 1, n);
    }
  }

  lemma FieldSteps(events: seq<Event>, id: Byte, page: nat, usage: nat, n: nat)
    requires n < |events| && Counts(events, n, id) && forall i :: 0 <= i <= n ==> Reportable(events[i])
    ensures FieldOf(events, id, page, usage, n + 1) ==
            if Names(events[n], page, usage) then SetFld(FieldOf(events, id, page, usage, n), events[n])
            else FieldOf(events, id, page, usage, n)
  {
    if Names(events[n], page, usage) {
      FieldSet(events, id, page, usage, n);
    } else {
      FieldKept(events, id, page, usage, n);
    }
  }

  lemma AbsoluteSteps(events: seq<Event>, id: Byte, n: nat)
    requires n < |events| && Counts(events, n, id) && forall i :: 0 <= i <= n ==> Reportable(events[i])
    ensures LayoutOf(events, id, n + 1).absolute == Placed(LayoutOf(events, id, n), events[n]).absolute
  {
    if Names(events[n], 1, 0x30) {
      FieldSet(events, id, 1, 0x30, n);
    } else {
      FieldKept(events, id, 1, 0x30, n);
    }
  }

  lemma ButtonsStep(events: seq<Event>, id: Byte, n: nat)
    requires n < |events| && Counts(events, n, id) && forall i :: 0 <= i <= n ==> Reportable(events[i])
    ensures LayoutOf(events, id, n + 1).btn == Placed(LayoutOf(events, id, n), events[n]).btn
  {
    forall b: nat | b < BUTTONS
      ensures Button(events, id, b, n + 1) ==
              if Names(events[n], 9, b + 1) then SetFld(Button(events, id, b, n), events[n])
              else Button(events, id, b, n)
    {
      FieldSteps(events, id, 9, b + 1, n);
    }
    SameButtons(LayoutOf(events, id, n), LayoutOf(events, id, n + 1), events[n]);
  }

  lemma SameButtons(was: Ptr, now: Ptr, e: Event)
    requires was.Valid() && now.Valid() && e.Item?
    requires forall b :: 0 <= b < BUTTONS ==>
               now.btn[b] == if Names(e, 9, b + 1) then SetFld(was.btn[b], e) else was.btn[b]
    ensures now.btn == Placed(was, e).btn
  {
  }

  /** A field of the report goes where the parser puts it. */
  lemma LayoutPlaced(events: seq<Event>, id: Byte, n: nat)
    requires n < |events| && Counts(events, n, id) && forall i :: 0 <= i <= n ==> Reportable(events[i])
    ensures LayoutOf(events, id, n + 1) == Placed(LayoutOf(events, id, n), events[n])
  {
    FieldSteps(events, id, 1, 0x30, n);
    FieldSteps(events, id, 1, 0x31, n);
    FieldSteps(events, id, 1, 0x38, n);
    FieldSteps(events, id, 12, 0x238, n);
    AbsoluteSteps(events, id, n);
    ButtonsStep(events, id, n);
  }

  /** A report without fields has the empty layout. */
  lemma LayoutEmpty(events: seq<Event>, id: Byte, n: nat)
    requires n <= |events| && forall k: nat :: k < n ==> !Counts(events, k, id)
    ensures LayoutOf(events, id, n) == NoLayout(id)
  {
    forall b: nat | b < BUTTONS
      ensures Button(events, id, b, n) == ABSENT
    {
    }
  }

  // ---- the parser's layouts are these ----

  /** An event outside every pointer, or no input field, changes nothing. */
  lemma OtherEvent(events: seq<Event>, max: nat, n: nat)
    requires n < |events| && !(events[n].Item? && Counts(events, n, events[n].rid))
    ensures Expected(events, max, n + 1) == Expected(events, max, n)
  {
    forall i | 0 <= i < |Expected(events, max, n)|
      ensures Expected(events, max, n + 1)[i] == Expected(events, max, n)[i]
    {
      LayoutKept(events, Ids(events, n)[i], n);
    }
  }

  lemma FieldEvent(events: seq<Event>, max: nat, n: nat)
    requires n < |events| && events[n].Item? && Counts(events, n, events[n].rid)
    requires forall i :: 0 <= i <= n ==> Reportable(events[i])
    ensures AllValid(Expected(events, max, n))
    ensures Expected(events, max, n + 1) == OnEvent(Ctx(Expected(events, max, n), true), events[n], max).lays
  {
    var e, was, now := events[n], Expected(events, max, n), Expected(events, max, n + 1);
    var i := Index(was, e.rid);
    forall k | 0 <= k < |was|
      ensures now[k] == if was[k].id == e.rid then Placed(was[k], e) else was[k]
    {
      LayoutSteps(events, Ids(events, n)[k], n);
    }
    if i == |was| < max { NewLayout(events, max, n); }
    SameLayouts(was, now, e, max);
  }

  lemma LayoutSteps(events: seq<Event>, id: Byte, n: nat)
    requires n < |events| && events[n].Item? && Counts(events, n, events[n].rid)
    requires forall i :: 0 <= i <= n ==> Reportable(events[i])
    ensures LayoutOf(events, id, n + 1) ==
            if id == events[n].rid then Placed(LayoutOf(events, id, n), events[n]) else LayoutOf(events, id, n)
  {
    if id == events[n].rid {
      LayoutPlaced(events, id, n);
    } else {
      LayoutKept(events, id, n);
    }
  }

  lemma NewLayout(events: seq<Event>, max: nat, n: nat)
    requires n < |events| && events[n].Item? && Counts(events, n, events[n].rid)
    requires forall i :: 0 <= i <= n ==> Reportable(events[i])
    requires var was := Expected(events, max, n);
             |was| < max && Index(was, events[n].rid) == |was|
    ensures var was, now := Expected(events, max, n), Expected(events, max, n + 1);
            |now| == |was| + 1 && now[|was|] == Placed(NoLayout(events[n].rid), events[n])
  {
    var was, ids, id := Expected(events, max, n), Ids(events, n), events[n].rid;
    assert |was| == |ids| && forall k :: 0 <= k < |ids| ==> was[k].id == ids[k];
    assert id !in ids;
    LayoutEmpty(events, id, n);
    LayoutPlaced(events, id, n);
  }

  lemma SameLayouts(was: seq<Ptr>, now: seq<Ptr>, e: Event, max: nat)
    requires AllValid(was) && e.Item? && e.kind == 0 && |was| <= |now|
    requires forall j, k :: 0 <= j < k < |was| ==> was[j].id != was[k].id
    requires forall k :: 0 <= k < |was| ==> now[k] == if was[k].id == e.rid then Placed(was[k], e) else was[k]
    requires var i := Index(was, e.rid);
             if i < |was| || |was| >= max then |now| == |was|
             else |now| == |was| + 1 && now[|was|] == Placed(NoLayout(e.rid), e)
    ensures now == OnEvent(Ctx(was, true), e, max).lays
  {
  }

  lemma {:induction false} CollectedIsExpected(events: seq<Event>, max: nat, n: nat)
    requires n <= |events| && forall i :: 0 <= i < |events| ==> Reportable(events[i])
    ensures Collected(events[..n], max) == Ctx(Expected(events, max, n), InPointer(events, n))
  {
    if n > 0 {
      CollectedIsExpected(events, max, n - 1);
      assert events[..n] == events[..n - 1] + [events[n - 1]];
      CollectedStep(events[..n - 1], events[n - 1], max);
      InPointerStep(events, n - 1);
      ExpectedStep(events, max, n - 1);
    }
  }

  lemma ExpectedStep(events: seq<Event>, max: nat, n: nat)
    requires n < |events| && forall i :: 0 <= i < |events| ==> Reportable(events[i])
    ensures AllValid(Expected(events, max, n))
    ensures Expected(events, max, n + 1)
            == OnEvent(Ctx(Expected(events, max, n), InPointer(events, n)), events[n], max).lays
  {
    if events[n].Item? && Counts(events, n, events[n].rid) {
      FieldEvent(events, max, n);
    } else {
      OtherEvent(events, max, n);
    }
  }

  // ---- what is kept ----

  ghost predicate BothAxes(p: Ptr) { p.x.bits != 0 && p.y.bits != 0 }

  /** A layout with its report's length. */
  ghost function WithLength(p: Ptr, items: seq<Short>, uses: bool): (q: Ptr)
  {
    p.(bytes := Bytes(Laid(items, (0, p.id)) % WORD, uses))
  }

  lemma {:induction false} KeptIff(lays: seq<Ptr>, items: seq<Short>, uses: bool, q: Ptr)
    ensures q in Kept(lays, items, uses) <==>
            exists j :: 0 <= j < |lays| && BothAxes(lays[j]) && q == WithLength(lays[j], items, uses)
  {
    if lays != [] {
      var n := |lays| - 1;
      KeptIff(lays[..n], items, uses, q);
      KeptStep(lays, n, items, uses);
      assert lays[..n + 1] == lays;
      if q in Kept(lays[..n], items, uses) {
        var j :| 0 <= j < n && BothAxes(lays[..n][j]) && q == WithLength(lays[..n][j], items, uses);
        assert lays[j] == lays[..n][j];
      }
    }
  }

  lemma LayoutsAreKept(items: seq<Short>, max: nat)
    ensures Layouts(items, max) == Kept(Expected(EventsOf(items), max, |EventsOf(items)|), items, NamesIds(items))
  {
    var events := EventsOf(items);
    EventsAreReportable(items);
    CollectedIsExpected(events, max, |events|);
    assert events[..|events|] == events;
  }

  /** `q` is the layout, with both axes, of the `i`-th report with fields inside a pointer. */
  ghost predicate LaysOut(events: seq<Event>, items: seq<Short>, uses: bool, q: Ptr, i: int)
  {
    var ids := Ids(events, |events|);
    0 <= i < |ids| && q == WithLength(LayoutOf(events, ids[i], |events|), items, uses) && BothAxes(q)
  }

  lemma KeptDescribes(events: seq<Event>, items: seq<Short>, uses: bool, max: nat, q: Ptr)
    ensures q in Kept(Expected(events, max, |events|), items, uses) <==>
            exists i :: i < max && LaysOut(events, items, uses, q, i)
  {
    var lays := Expected(events, max, |events|);
    KeptIff(lays, items, uses, q);
    if j :| 0 <= j < |lays| && BothAxes(lays[j]) && q == WithLength(lays[j], items, uses) {
      assert LaysOut(events, items, uses, q, j);
    }
    if i :| i < max && LaysOut(events, items, uses, q, i) {
      assert BothAxes(lays[i]) && q == WithLength(lays[i], items, uses);
    }
  }

  /** The parser keeps a layout exactly when it is the one of a report among the first `max` with fields inside a
      pointer, X and Y among them. */
  lemma LayoutsIff(items: seq<Short>, max: nat, q: Ptr)
    ensures q in Layouts(items, max) <==> exists i :: i < max && LaysOut(EventsOf(items), items, NamesIds(items), q, i)
  {
    LayoutsAreKept(items, max);
    KeptDescribes(EventsOf(items), items, NamesIds(items), max, q);
  }
}
