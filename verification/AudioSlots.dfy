/** The sound card's ring as a value: slots, wipes, copies and silence. */
module AudioSlots {
  import opened Scalars

  const RING_BYTES := 524288
  const RESYNC_MARGIN := 1920
  const LOW_WATER := 256
  const GUARD := 64

  /** The ring slot of an absolute position. */
  function Slot(a: nat): (s: nat)
    ensures s < RING_BYTES
  {
    a % RING_BYTES
  }

  /** A stretch that does not cross the ring's end occupies consecutive slots, and no other position
      within the lap shares them. */
  lemma StretchSlots(l: nat, n: nat, a: nat)
    requires Slot(l) + n <= RING_BYTES
    ensures l <= a < l + n ==> Slot(a) == Slot(l) + (a - l)
    ensures l + n <= a < l + RING_BYTES ==> Slot(a) < Slot(l) || Slot(l) + n <= Slot(a)
  {
    var q := l / RING_BYTES;
    assert l == q * RING_BYTES + Slot(l);
    if l <= a < l + RING_BYTES {
      var off := Slot(l) + (a - l);
      if off < RING_BYTES { SlotIs(a, q, off); } else { SlotIs(a, q + 1, off - RING_BYTES); }
    }
  }

  lemma SlotIs(a: nat, q: int, off: nat)
    requires a == q * RING_BYTES + off && off < RING_BYTES
    ensures Slot(a) == off
  {
  }

  /** A lap apart, the same slot; less than a lap apart, different ones. */
  lemma SlotsOfTwo(a: nat, b: nat)
    ensures Slot(a + RING_BYTES) == Slot(a)
    ensures a < b < a + RING_BYTES ==> Slot(a) != Slot(b)
  {
  }

  /** The register and the last lap give the position back. */
  lemma LapCount(base: nat, last: nat, hw: nat)
    requires base % RING_BYTES == 0 && last < RING_BYTES && base + last <= hw < base + last + RING_BYTES
    ensures hw == (if hw % RING_BYTES < last then base + RING_BYTES else base) + hw % RING_BYTES
  {
  }

  // ---- the ring as a value ----

  /** From the writer up to a lap past the last wipe the ring is zero, but for [flo, fhi), which a
      flush in progress has yet to silence. */
  ghost predicate SilentPast(r: seq<Byte>, clean: nat, wr: nat, flo: nat, fhi: nat)
    requires |r| == RING_BYTES
  {
    forall a: nat :: Max(clean, wr) <= a < clean + RING_BYTES && !(flo <= a < fhi) ==> r[Slot(a)] == 0
  }

  /** The bytes at positions [from, to). */
  ghost function Bytes(r: seq<Byte>, from: nat, to: nat): (q: seq<Byte>)
    requires |r| == RING_BYTES
  {
    seq(Max(to - from, 0), k requires 0 <= k => r[Slot(from + k)])
  }

  /** A wipe of [lo, pl) leaves the rest of the lap alone. */
  ghost predicate Wiped(was: seq<Byte>, now: seq<Byte>, lo: nat, pl: nat)
    requires |was| == RING_BYTES && |now| == RING_BYTES
  {
    && (forall a :: lo <= a < pl ==> now[Slot(a)] == 0)
    && (forall a :: Max(lo, pl) <= a < lo + RING_BYTES ==> now[Slot(a)] == was[Slot(a)])
    && (forall s :: 0 <= s < RING_BYTES ==> now[s] == was[s] || now[s] == 0)
  }

  /** Where the tick's wipe starts: no lower than the last wipe, nor than a lap behind the writer. */
  function WipeStart(clean: nat, wr: nat, pl: nat): (lo: nat)
  {
    var lo := if wr > RING_BYTES && wr - RING_BYTES > clean then wr - RING_BYTES else clean;
    if pl > lo && pl - lo > RING_BYTES then pl - RING_BYTES else lo
  }

  /** The tick's wipe never touches a published byte, nor a copied one within a lap of the last wipe. */
  lemma WipeSparesQueue(was: seq<Byte>, now: seq<Byte>, clean: nat, wr: nat, top: nat, pl: nat)
    requires |was| == RING_BYTES && |now| == RING_BYTES && clean <= pl < clean + RING_BYTES
    requires wr <= top <= pl + RING_BYTES && (top == wr || top <= clean + RING_BYTES)
    requires Wiped(was, now, WipeStart(clean, wr, pl), pl)
    ensures Bytes(now, pl, top) == Bytes(was, pl, top)
  {
    var q, q' := Bytes(was, pl, top), Bytes(now, pl, top);
    forall k | 0 <= k < |q|
      ensures q'[k] == q[k]
    {
      assert now[Slot(pl + k)] == was[Slot(pl + k)];
    }
  }

  /** After the tick's wipe everything outside the queue is zero, flush leftovers aside. */
  lemma WipeSilences(was: seq<Byte>, now: seq<Byte>, clean: nat, wr: nat, top: nat, pl: nat, flo: nat, fhi: nat)
    requires |was| == RING_BYTES && |now| == RING_BYTES && clean <= pl < clean + RING_BYTES
    requires wr <= top <= pl + RING_BYTES
    requires Wiped(was, now, WipeStart(clean, wr, pl), pl) && SilentPast(was, clean, top, flo, fhi)
    ensures SilentPast(now, pl, top, flo, fhi)
  {
    forall a: nat | Max(pl, top) <= a < pl + RING_BYTES && !(flo <= a < fhi)
      ensures now[Slot(a)] == 0
    {
      if a >= clean + RING_BYTES {
        SlotsOfTwo(a - RING_BYTES, a);
        assert now[Slot(a - RING_BYTES)] == 0;
      }
    }
  }

  /** `data` has been copied to the slots of [wr, wr + |data|), and nothing else changed. */
  ghost predicate Copied(was: seq<Byte>, now: seq<Byte>, wr: nat, data: seq<Byte>)
    requires |was| == RING_BYTES && |now| == RING_BYTES
  {
    && (forall a :: wr <= a < wr + |data| ==> now[Slot(a)] == data[a - wr])
    && (forall a :: wr + |data| <= a < wr + RING_BYTES ==> now[Slot(a)] == was[Slot(a)])
  }

  /** The position congruent to `y` in the lap starting at `clean`. */
  lemma InLap(clean: nat, y: nat) returns (a: nat)
    ensures clean <= a < clean + RING_BYTES && Slot(a) == Slot(y)
    ensures y < clean ==> y + RING_BYTES <= a
    ensures clean <= y < clean + RING_BYTES ==> a == y
  {
    a := clean + (y - clean) % RING_BYTES;
  }

  /** A copy within the guard puts its bytes at the end of the queue. */
  lemma CopyAppends(was: seq<Byte>, now: seq<Byte>, hw: nat, wr: nat, data: seq<Byte>)
    requires |was| == RING_BYTES && |now| == RING_BYTES && Copied(was, now, wr, data)
    requires hw <= wr && wr + |data| <= hw + RING_BYTES
    ensures Bytes(now, hw, wr + |data|) == Bytes(was, hw, wr) + data
  {
    var q, q' := Bytes(was, hw, wr), Bytes(now, hw, wr + |data|);
    forall k | 0 <= k < |q'|
      ensures q'[k] == (q + data)[k]
    {
      var b := hw + k;
      if b < wr {
        SlotsOfTwo(b, b);
        assert now[Slot(b + RING_BYTES)] == was[Slot(b + RING_BYTES)];
      } else {
        assert now[Slot(b)] == data[b - wr];
      }
    }
  }

  /** A copy keeps the ring silent past the writer exactly when none of its sounding bytes lands on a
      position already wiped, that is, when the reader and a tick have not overtaken the writer. */
  lemma CopySilenceIff(was: seq<Byte>, now: seq<Byte>, clean: nat, wr: nat, data: seq<Byte>, flo: nat, fhi: nat)
    requires |was| == RING_BYTES && |now| == RING_BYTES && Copied(was, now, wr, data) && |data| <= RING_BYTES
    requires SilentPast(was, clean, wr, flo, fhi) && flo >= fhi
    ensures SilentPast(now, clean, wr + |data|, flo, fhi) <==>
            forall k :: 0 <= k < |data| && data[k] != 0 ==> clean <= wr + k
  {
    if forall k :: 0 <= k < |data| && data[k] != 0 ==> clean <= wr + k {
      forall a: nat | Max(clean, wr + |data|) <= a < clean + RING_BYTES
        ensures now[Slot(a)] == 0
      {
        CopyMisses(was, now, clean, wr, data, a);
      }
    }
    if SilentPast(now, clean, wr + |data|, flo, fhi) {
      forall k | 0 <= k < |data| && data[k] != 0
        ensures clean <= wr + k
      {
        var a := InLap(clean, wr + k);
        assert now[Slot(wr + k)] == data[wr + k - wr];
      }
    }
  }

  lemma CopyMisses(was: seq<Byte>, now: seq<Byte>, clean: nat, wr: nat, data: seq<Byte>, a: nat)
    requires |was| == RING_BYTES && |now| == RING_BYTES && Copied(was, now, wr, data) && |data| <= RING_BYTES
    requires Max(clean, wr + |data|) <= a < clean + RING_BYTES && was[Slot(a)] == 0
    requires forall k :: 0 <= k < |data| && data[k] != 0 ==> clean <= wr + k
    ensures now[Slot(a)] == 0
  {
    var x := InLap(wr, a);
    if x < wr + |data| {
      assert now[Slot(x)] == data[x - wr];
      SlotsOfTwo(x, a);
    } else {
      assert now[Slot(x)] == was[Slot(x)];
    }
  }

  /** When copying and publishing are two steps, a tick between them wipes part of the copied chunk
      exactly when the chunk reaches a lap past the last wipe. */
  lemma SplitCopyIsWipedIff(clean: nat, wr: nat, chunk: nat, pl: nat)
    requires clean < pl < clean + RING_BYTES && 0 < chunk <= RING_BYTES && wr < pl + RING_BYTES
    ensures (exists x, y :: wr <= x < wr + chunk && WipeStart(clean, wr, pl) <= y < pl && Slot(x) == Slot(y) && y < x)
            <==> clean + RING_BYTES < wr + chunk
  {
    var lo := WipeStart(clean, wr, pl);
    if clean + RING_BYTES < wr + chunk {
      var y := Max(lo, wr - RING_BYTES);
      SlotsOfTwo(y, y);
      assert Slot(y + RING_BYTES) == Slot(y) && y < y + RING_BYTES && wr <= y + RING_BYTES < wr + chunk && lo <= y < pl;
    }
    if exists x, y :: wr <= x < wr + chunk && lo <= y < pl && Slot(x) == Slot(y) && y < x {
      var x, y :| wr <= x < wr + chunk && lo <= y < pl && Slot(x) == Slot(y) && y < x;
      SlotsOfTwo(y, x);
    }
  }

  /** Moving the writer back leaves exactly the dropped audio to be silenced. */
  lemma FlushPending(r: seq<Byte>, clean: nat, was: nat, wr: nat, lo: nat, hi: nat, flo: nat, fhi: nat)
    requires |r| == RING_BYTES && flo <= wr && fhi == Max(flo, was)
    requires SilentPast(r, clean, was, lo, hi) && lo >= hi
    ensures SilentPast(r, clean, wr, flo, fhi)
  {
    forall a: nat | Max(clean, wr) <= a < clean + RING_BYTES && !(flo <= a < fhi)
      ensures r[Slot(a)] == 0
    {
      assert a >= was;
    }
  }

  lemma SilencedChunk(was: seq<Byte>, now: seq<Byte>, clean: nat, wr: nat, flo: nat, flo': nat, fhi: nat)
    requires |was| == RING_BYTES && |now| == RING_BYTES && flo <= flo' <= fhi
    requires Wiped(was, now, flo, flo') && SilentPast(was, clean, wr, flo, fhi)
    ensures SilentPast(now, clean, wr, flo', fhi)
  {
    forall a: nat | Max(clean, wr) <= a < clean + RING_BYTES && !(flo' <= a < fhi)
      ensures now[Slot(a)] == 0
    {
      assert a < flo || fhi <= a ==> was[Slot(a)] == 0;
    }
  }

  lemma CopyIsCopied(was: seq<Byte>, now: seq<Byte>, wr: nat, data: seq<Byte>)
    requires |was| == RING_BYTES && |now| == RING_BYTES && Slot(wr) + |data| <= RING_BYTES
    requires forall s :: 0 <= s < RING_BYTES ==>
               now[s] == if Slot(wr) <= s < Slot(wr) + |data| then data[s - Slot(wr)] else was[s]
    ensures Copied(was, now, wr, data)
  {
    forall a | wr <= a < wr + RING_BYTES
      ensures now[Slot(a)] == if a < wr + |data| then data[a - wr] else was[Slot(a)]
    {
      StretchSlots(wr, |data|, a);
    }
  }
}
