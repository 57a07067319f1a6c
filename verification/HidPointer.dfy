/** Pointer layouts: which reported field goes where, and whether a report's stored length covers it. */
module HidPointer {
  import opened Scalars
  import opened HidBits
  import opened HidItems
  import opened HidEvents
  import opened HidWalk

  const BUTTONS := 8

  datatype Ptr = Ptr(id: Byte, absolute: bool, bytes: nat, x: Fld, y: Fld, wheel: Fld, pan: Fld, btn: seq<Fld>)
  {
    predicate Valid() { |btn| == BUTTONS }
  }

  function NoLayout(id: Byte): (p: Ptr)
  {
    Ptr(id, false, 0, ABSENT, ABSENT, ABSENT, ABSENT, seq(BUTTONS, _ => ABSENT))
  }

  function ToInt16(v: int): (x: int)
  {
    var u := v % 0x1_0000;
    if u >= 0x8000 then u - 0x1_0000 else u
  }

  /** set_fld: the first field wins. */
  function SetFld(f: Fld, e: Event): (r: Fld)
    requires e.Item?
  {
    if f.bits != 0 then f else Fld(ToInt16(e.off), e.g.rsize % 256, e.g.lmin < 0, e.g.lmin, e.g.lmax)
  }

  /** Where a field event goes in a layout. */
  function Placed(p: Ptr, e: Event): (r: Ptr)
    requires p.Valid() && e.Item?
    ensures r.Valid() && r.id == p.id
  {
    if e.page == 1 && e.id == 0x30 then
      p.(absolute := if p.x.bits == 0 then e.flags / 4 % 2 == 0 else p.absolute, x := SetFld(p.x, e))
    else if e.page == 1 && e.id == 0x31 then p.(y := SetFld(p.y, e))
    else if e.page == 1 && e.id == 0x38 then p.(wheel := SetFld(p.wheel, e))
    else if e.page == 12 && e.id == 0x238 then p.(pan := SetFld(p.pan, e))
    else if e.page == 9 && 1 <= e.id <= BUTTONS then p.(btn := p.btn[e.id - 1 := SetFld(p.btn[e.id - 1], e)])
    else p
  }

  // ---- where a layout's fields come from ----

  ghost predicate Describes(e: Event, f: Fld, id: Byte)
  {
    IsOf(e, (0, id)) && f.off == ToInt16(e.off) && f.bits == e.g.rsize
  }

  /** The field is absent or one the walker reported for input report `id`. */
  ghost predicate Reported(f: Fld, events: seq<Event>, id: Byte)
  {
    f.bits == 0 || exists i :: 0 <= i < |events| && Describes(events[i], f, id)
  }

  ghost predicate LaidOut(p: Ptr, events: seq<Event>)
  {
    && p.Valid()
    && Reported(p.x, events, p.id) && Reported(p.y, events, p.id)
    && Reported(p.wheel, events, p.id) && Reported(p.pan, events, p.id)
    && forall k :: 0 <= k < BUTTONS ==> Reported(p.btn[k], events, p.id)
  }

  lemma ReportedGrows(f: Fld, events: seq<Event>, e: Event, id: Byte)
    requires Reported(f, events, id)
    ensures Reported(f, events + [e], id)
  {
    if f.bits != 0 {
      var i :| 0 <= i < |events| && Describes(events[i], f, id);
      assert (events + [e])[i] == events[i];
    }
  }

  lemma LaidOutGrows(p: Ptr, events: seq<Event>, e: Event)
    requires LaidOut(p, events)
    ensures LaidOut(p, events + [e])
  {
    ReportedGrows(p.x, events, e, p.id);
    ReportedGrows(p.y, events, e, p.id);
    ReportedGrows(p.wheel, events, e, p.id);
    ReportedGrows(p.pan, events, e, p.id);
    forall k | 0 <= k < BUTTONS
      ensures Reported(p.btn[k], events + [e], p.id)
    {
      ReportedGrows(p.btn[k], events, e, p.id);
    }
  }

  lemma SetReported(f: Fld, events: seq<Event>, e: Event, id: Byte)
    requires Reported(f, events + [e], id) && IsOf(e, (0, id)) && Reportable(e)
    ensures Reported(SetFld(f, e), events + [e], id)
  {
    assert (events + [e])[|events|] == e;
  }

  lemma PlacedLaidOut(p: Ptr, events: seq<Event>, e: Event)
    requires LaidOut(p, events) && IsOf(e, (0, p.id)) && Reportable(e)
    ensures LaidOut(Placed(p, e), events + [e])
  {
    LaidOutGrows(p, events, e);
    SetReported(p.x, events, e, p.id);
    SetReported(p.y, events, e, p.id);
    SetReported(p.wheel, events, e, p.id);
    SetReported(p.pan, events, e, p.id);
    forall k | 0 <= k < BUTTONS
      ensures Reported(SetFld(p.btn[k], e), events + [e], p.id)
    {
      SetReported(p.btn[k], events, e, p.id);
    }
  }

  /** A reported field lies in its report's first bits. */
  lemma ReportedInside(f: Fld, events: seq<Event>, id: Byte, size: nat)
    requires Reported(f, events, id) && f.bits != 0 && Packed(events, (0, id), size)
    requires forall i :: 0 <= i < |events| ==> Reportable(events[i])
    ensures 0 <= f.off < FAR && 0 < f.bits <= 32 && f.off + f.bits <= size
  {
  }

  // ---- the report's length ----

  /** The `bytes` field: the bit count rounded up in 32 bits, plus the id byte, kept in 16 bits. */
  function Bytes(bits: nat, uses: bool): (n: nat) { ((bits + 7) % WORD / 8 + Start(uses)) % 0x1_0000 }

  /** A field as the walker can report one for a report of `size` bits. */
  ghost predicate Possible(off: nat, bits: nat, size: nat) { off < FAR && 0 < bits <= 32 && off + bits <= size }

  /** The length did not wrap 16 bits, or wrapped to something long enough for the last reportable field. */
  predicate LengthCovers(size: nat, uses: bool)
  {
    (size + 7) / 8 + Start(uses) < 0x1_0000 || 8 * (Bytes(size, uses) - Start(uses)) >= FAR + 31
  }

  /** In a report of exactly `Bytes` bytes every possible field is in range just when the length covers it. */
  lemma LengthCoversFieldsIff(size: nat, uses: bool)
    requires size < WORD
    ensures (forall off: nat, bits: nat :: Possible(off, bits, size) ==>
              off + bits <= 8 * (Bytes(size, uses) - Start(uses)))
            <==> LengthCovers(size, uses)
  {
    if (size + 7) / 8 + Start(uses) < 0x1_0000 {
      LengthCoversSmall(size, uses);
    } else {
      assert Possible(FAR - 1, 32, size);
    }
  }

  lemma LengthCoversSmall(size: nat, uses: bool)
    requires (size + 7) / 8 + Start(uses) < 0x1_0000
    ensures size <= 8 * (Bytes(size, uses) - Start(uses))
  {
  }
}
