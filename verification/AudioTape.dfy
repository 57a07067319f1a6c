/** An endless tape beside the ring: the byte meant for each absolute position, zero where there is none. */
module AudioTape {
  import opened Scalars
  import opened AudioSlots

  type Tape = map<nat, Byte>

  function At(t: Tape, a: nat): (b: Byte) { if a in t then t[a] else 0 }

  function ByteAt(data: seq<Byte>, wr: nat, a: nat): (b: Byte)
    requires wr <= a < wr + |data|
  {
    data[a - wr]
  }

  /** The bytes `h` are the tape's from position `from` on. */
  ghost predicate Matches(h: seq<Byte>, t: Tape, from: nat)
  {
    forall k :: 0 <= k < |h| ==> h[k] == At(t, from + k)
  }

  lemma MatchesJoin(h: seq<Byte>, h': seq<Byte>, t: Tape, t': Tape, from: nat)
    requires Matches(h, t, from) && Matches(h', t', from + |h|)
    requires forall a: nat :: a < from + |h| ==> At(t', a) == At(t, a)
    ensures Matches(h + h', t', from)
  {
  }

  /** Nothing on `t` is lost or changed. */
  ghost predicate Extends(t: Tape, t': Tape) { forall a: nat :: a in t ==> a in t' && t'[a] == t[a] }

  /** `data` laid from position `wr` on; what the reader has passed can no longer be changed. */
  ghost function Laid(t: Tape, hw: nat, wr: nat, data: seq<Byte>): (r: Tape)
  {
    t + map a: nat | Max(wr, hw) <= a < wr + |data| :: ByteAt(data, wr, a)
  }

  /** The tape without the positions [lo, hi). */
  ghost function Hushed(t: Tape, lo: nat, hi: nat): (r: Tape)
  {
    map a: nat | a in t && !(lo <= a < hi) :: t[a]
  }

  /** The tape without the positions from `from` on. */
  ghost function Cut(t: Tape, from: nat): (r: Tape)
  {
    map a: nat | a in t && a < from :: t[a]
  }

  /** The ring holds the tape from the reader up to what has been copied and up to a lap past the last wipe,
      and the tape ends there, but for what a flush in progress has yet to silence. */
  ghost predicate Tuned(r: seq<Byte>, t: Tape, hw: nat, clean: nat, top: nat, flo: nat, fhi: nat)
    requires |r| == RING_BYTES
  {
    && (forall a: nat :: hw <= a < Max(clean + RING_BYTES, top) ==> r[Slot(a)] == At(t, a))
    && (forall a: nat :: a in t ==> a < Max(hw, top) || flo <= a < fhi)
  }

  /** Where no flush is in progress, it does not matter where. */
  lemma SameFlush(r: seq<Byte>, t: Tape, hw: nat, clean: nat, top: nat, flo: nat, fhi: nat)
    requires |r| == RING_BYTES && flo >= fhi
    ensures Tuned(r, t, hw, clean, top, flo, fhi) <==> Tuned(r, t, hw, clean, top, flo, flo)
  {
  }

  /** The tick's wipe, on the tape: only positions past both the writer and the last wipe's lap are lost. */
  lemma TickTunes(was: seq<Byte>, now: seq<Byte>, t: Tape, clean: nat, wr: nat, top: nat, pl: nat, flo: nat, fhi: nat)
    requires |was| == RING_BYTES && |now| == RING_BYTES && clean <= pl < clean + RING_BYTES
    requires wr <= top <= pl + RING_BYTES
    requires Wiped(was, now, WipeStart(clean, wr, pl), pl) && Tuned(was, t, pl, clean, top, flo, fhi)
    ensures Tuned(now, Cut(t, Max(wr, clean + RING_BYTES)), pl, pl, top, flo, fhi)
  {
    var t' := Cut(t, Max(wr, clean + RING_BYTES));
    forall a: nat | pl <= a < pl + RING_BYTES
      ensures now[Slot(a)] == At(t', a)
    {
      if a < Max(wr, clean + RING_BYTES) {
        assert now[Slot(a)] == was[Slot(a)];
      } else {
        SlotsOfTwo(a - RING_BYTES, a);
        assert now[Slot(a - RING_BYTES)] == 0;
      }
    }
  }

  /** With no flush in progress the tick takes nothing from the tape, unless a copied and unpublished byte
      lies past the last wipe's lap. */
  lemma TickKeepsTape(t: Tape, hw: nat, clean: nat, wr: nat, top: nat)
    requires forall a: nat :: a in t ==> a < Max(hw, top)
    requires hw < clean + RING_BYTES && (top == wr || top <= clean + RING_BYTES)
    ensures Cut(t, Max(wr, clean + RING_BYTES)) == t
  {
  }

  /** A copy by a writer no wipe has passed lays its bytes on the tape. */
  lemma CopyTunes(was: seq<Byte>, now: seq<Byte>, t: Tape, hw: nat, clean: nat, wr: nat, data: seq<Byte>,
                  flo: nat, fhi: nat)
    requires |was| == RING_BYTES && |now| == RING_BYTES && Copied(was, now, wr, data)
    requires clean <= wr && clean <= hw && wr + |data| <= hw + RING_BYTES && flo >= fhi
    requires Tuned(was, t, hw, clean, wr, flo, fhi)
    ensures Tuned(now, Laid(t, hw, wr, data), hw, clean, wr + |data|, flo, fhi)
  {
    var t' := Laid(t, hw, wr, data);
    forall a: nat | hw <= a < Max(clean + RING_BYTES, wr + |data|)
      ensures now[Slot(a)] == At(t', a)
    {
      if a < wr {
        SlotsOfTwo(a, a);
        assert now[Slot(a + RING_BYTES)] == was[Slot(a + RING_BYTES)];
      } else if a < wr + |data| {
        assert now[Slot(a)] == data[a - wr] == ByteAt(data, wr, a);
      } else {
        assert now[Slot(a)] == was[Slot(a)];
      }
    }
  }

  /** Laying bytes past the end of the tape changes nothing that was on it. */
  lemma LaidKeeps(t: Tape, hw: nat, wr: nat, data: seq<Byte>)
    requires forall a: nat :: a in t ==> a < Max(hw, wr)
    ensures Extends(t, Laid(t, hw, wr, data))
  {
  }

  /** Laying the next stretch of `data` continues what is on the tape of it. */
  lemma LaidMatches(t: Tape, hw: nat, at: nat, data: seq<Byte>, wr: nat, chunk: seq<Byte>)
    requires hw <= wr && at <= wr <= wr + |chunk| <= at + |data|
    requires Matches(data[..wr - at], t, at) && chunk == data[wr - at..wr - at + |chunk|]
    ensures Matches(data[..wr + |chunk| - at], Laid(t, hw, wr, chunk), at)
  {
    var t' := Laid(t, hw, wr, chunk);
    forall k | 0 <= k < wr + |chunk| - at
      ensures data[k] == At(t', at + k)
    {
      if k < wr - at {
        assert data[..wr - at][k] == At(t, at + k);
      } else {
        assert ByteAt(chunk, wr, at + k) == data[k];
      }
    }
  }

  // ---- the writer moves without writing ----

  /** Whatever the ring holds, it holds it still once the writer is at `wr'`. */
  ghost predicate JumpIsSafe(hw: nat, clean: nat, wr: nat, wr': nat, f: nat)
  {
    forall r: seq<Byte>, t: Tape :: |r| == RING_BYTES && Tuned(r, t, hw, clean, wr, f, f) ==>
      Tuned(r, t, hw, clean, wr', f, f)
  }

  /** A writer may jump ahead exactly as far as a lap past the last wipe. */
  lemma JumpTunesIff(hw: nat, clean: nat, wr: nat, wr': nat, f: nat)
    requires clean <= hw < clean + RING_BYTES && wr <= wr' <= hw + RING_BYTES
    ensures JumpIsSafe(hw, clean, wr, wr', f) <==> wr' <= Max(clean + RING_BYTES, wr)
  {
    var m := Max(clean + RING_BYTES, wr);
    if wr' > m {
      StaleTuned(hw, clean, wr, m, f, f);
      assert !Tuned(Stale(m), map[], hw, clean, wr', f, f) by { assert Stale(m)[Slot(m)] != At(map[], m); }
    }
  }

  /** A flush may restart the writer exactly as far. */
  lemma FlushTunesIff(hw: nat, clean: nat, was: nat, wr: nat, pl: nat, f: nat)
    requires clean <= hw < clean + RING_BYTES && pl <= hw && was <= hw + RING_BYTES && wr <= hw + RING_BYTES
    ensures FlushIsSafe(hw, clean, was, wr, pl, f) <==> wr <= Max(clean + RING_BYTES, was)
  {
    var m := Max(clean + RING_BYTES, was);
    if wr > m {
      StaleTuned(hw, clean, was, m, f, f);
      assert !Tuned(Stale(m), map[], hw, clean, wr, pl, Max(pl, was)) by { assert Stale(m)[Slot(m)] != At(map[], m); }
    }
  }

  /** Whatever the ring holds, it holds it still once a flush that saw the card at `pl` has moved the writer: the
      dropped bytes are yet to be silenced. */
  ghost predicate FlushIsSafe(hw: nat, clean: nat, was: nat, wr: nat, pl: nat, f: nat)
  {
    forall r: seq<Byte>, t: Tape :: |r| == RING_BYTES && Tuned(r, t, hw, clean, was, f, f) ==>
      Tuned(r, t, hw, clean, wr, pl, Max(pl, was))
  }

  /** A silent ring but for the slot of `m`. */
  function Stale(m: nat): (r: seq<Byte>)
    ensures |r| == RING_BYTES && r[Slot(m)] == 1 && forall s :: 0 <= s < RING_BYTES && s != Slot(m) ==> r[s] == 0
  {
    seq(RING_BYTES, i => if i == Slot(m) then 1 else 0)
  }

  lemma StaleTuned(hw: nat, clean: nat, wr: nat, m: nat, flo: nat, fhi: nat)
    requires m == Max(clean + RING_BYTES, wr) && clean <= hw && m < hw + RING_BYTES
    ensures Tuned(Stale(m), map[], hw, clean, wr, flo, fhi)
  {
    forall a: nat | hw <= a < m
      ensures Stale(m)[Slot(a)] == 0
    {
      SlotsOfTwo(a, m);
    }
  }

  /** Silencing a chunk takes it off the tape where the reader has not been. */
  lemma SilenceTunes(was: seq<Byte>, now: seq<Byte>, t: Tape, hw: nat, clean: nat, wr: nat, flo: nat, flo': nat,
                     fhi: nat)
    requires |was| == RING_BYTES && |now| == RING_BYTES && Wiped(was, now, flo, flo')
    requires flo <= flo' <= fhi <= flo + RING_BYTES && fhi <= hw + RING_BYTES && wr <= flo + RING_BYTES
    requires clean <= hw < clean + RING_BYTES && wr <= hw + RING_BYTES
    requires Tuned(was, t, hw, clean, wr, flo, fhi)
    ensures Tuned(now, Hushed(t, Max(flo, hw), flo'), hw, clean, wr, flo', fhi)
  {
    var t' := Hushed(t, Max(flo, hw), flo');
    forall a: nat | hw <= a < Max(clean + RING_BYTES, wr)
      ensures now[Slot(a)] == At(t', a)
    {
      if a < flo {
        SlotsOfTwo(a, a);
        assert now[Slot(a + RING_BYTES)] == was[Slot(a + RING_BYTES)];
      } else if a < flo' {
        assert now[Slot(a)] == 0;
      } else if a < flo + RING_BYTES {
        assert now[Slot(a)] == was[Slot(a)];
      } else {
        assert was[Slot(a)] == 0;
      }
    }
  }
}
