/** The sound driver's ring: a DMA reader that wraps, a writer working in absolute byte positions that copies a
    chunk and then publishes it, and a timer tick that counts laps and wipes what has been played. Each of its
    operations is a step of the ring's state machine. */
module AudioRing {
  import opened Scalars
  import opened AudioSlots
  import opened AudioRun

  class Ring {
    const ring: array<Byte>
    var wr: nat
    var clean: nat
    var lastLpib: nat
    var base: nat
    /** The card's own count of consumed bytes; the driver sees only its slot. */
    var hw: nat
    /** The position an operation under way has read. */
    var look: Look
    /** Bytes a write in progress has yet to publish, and how many of them are copied already. */
    var pend: seq<Byte>
    var staged: nat
    /** Positions a flush in progress still has to silence. */
    var flo: nat
    var fhi: nat

    /** The state the operations step through. */
    ghost function View(): (v: State)
      reads this, ring
    {
      State(ring[..], hw, clean, wr, look, pend, staged, flo, fhi)
    }

    /** The state is sound, and the lap counter is right as of the last tick. */
    ghost predicate Valid()
      reads this, ring
    {
      View().Sound() && base % RING_BYTES == 0 && lastLpib < RING_BYTES && clean == base + lastLpib
    }

    constructor ()
      ensures Valid() && fresh(ring)
      ensures View() == State(View().ring, 0, 0, 0, Blind, [], 0, 0, 0)
      ensures View().Silent() && View().Holds(map[])
    {
      ring := new Byte[RING_BYTES](_ => 0);
      wr, clean, lastLpib, base, hw := 0, 0, 0, 0, 0;
      look, pend, staged, flo, fhi := Blind, [], 0, 0, 0;
    }

    // ---- the card ----

    /** The position register. */
    function Lpib(): (p: nat)
      reads this`hw
    {
      hw % RING_BYTES
    }

    /** The card consumes `d` bytes. */
    method Consume(d: nat) returns (heard: seq<Byte>)
      requires Valid() && hw + d < clean + RING_BYTES
      modifies this`hw
      ensures Valid() && Plays(old(View()), d, View(), heard)
    {
      var from, r := hw, ring[..];
      heard := seq(d, k requires 0 <= k && |r| == RING_BYTES => r[Slot(from + k)]);
      hw := hw + d;
    }

    // ---- positions ----

    /** `played_abs`: the true position, from the wrapped register. */
    method PlayedAbs() returns (pl: nat)
      requires Valid()
      ensures pl == hw
    {
      var p, b := Lpib(), base;
      if p < lastLpib { b := b + RING_BYTES; }
      LapCount(base, lastLpib, hw);
      return b + p;
    }

    // ---- wiping ----

    /** Zero the slots of [lo, hi), chunk by chunk up to the ring's end. */
    method Wipe(lo: nat, hi: nat)
      requires ring.Length == RING_BYTES && hi <= lo + RING_BYTES
      modifies ring
      ensures Wiped(old(ring[..]), ring[..], lo, hi)
    {
      ghost var start := ring[..];
      var l := lo;
      while l < hi
        invariant lo <= l && (l <= hi || l == lo)
        invariant Wiped(start, ring[..], lo, l)
      {
        var off := Slot(l);
        var chunk := Min(RING_BYTES - off, hi - l);
        ghost var was := ring[..];
        forall k | off <= k < off + chunk { ring[k] := 0; }
        forall a | lo <= a < lo + RING_BYTES
          ensures ring[..][Slot(a)] == if l <= a < l + chunk then 0 else was[Slot(a)]
        {
          StretchSlots(l, chunk, a);
        }
        l := l + chunk;
      }
    }

    /** The lap counter of `audio_tick`. */
    method CountLap() returns (pl: nat)
      requires Valid()
      modifies this`base, this`lastLpib
      ensures pl == hw == base + lastLpib && base % RING_BYTES == 0 && lastLpib < RING_BYTES
    {
      var p := Lpib();
      LapCount(base, lastLpib, hw);
      if p < lastLpib { base := base + RING_BYTES; }
      lastLpib := p;
      return base + p;
    }

    /** `audio_tick`: count the lap, wipe what has been played since the last tick. */
    method Tick()
      requires Valid()
      modifies this`base, this`lastLpib, this`clean, ring
      ensures Valid() && Ticks(old(View()), View())
    {
      var pl := CountLap();
      var lo := clean;
      if wr > RING_BYTES && wr - RING_BYTES > lo { lo := wr - RING_BYTES; }
      if pl > lo && pl - lo > RING_BYTES { lo := pl - RING_BYTES; }
      Wipe(lo, pl);
      if pl > clean { clean := pl; }
    }

    // ---- the writer ----

    /** `played_abs` as `queued_bytes` and `audio_flush` call it first: the card and the timer may go on before the
        position is used. */
    method LookUp()
      requires Valid() && look.Blind? && pend == [] && flo >= fhi
      modifies this`look
      ensures Valid() && Looks(old(View()), View())
    {
      var pl := PlayedAbs();
      look := Seen(pl);
    }

    /** The rest of `queued_bytes`: how far ahead of the position read the writer is; an empty queue restarts it just
        ahead of that position. */
    method QueuedBytes() returns (q: nat)
      requires Valid() && look.Seen?
      modifies this`wr
      ensures q == wr - look.pl && wr == Resumed(look.pl, old(wr))
    {
      var pl := look.pl;
      if wr < pl + LOW_WATER {
        wr := pl + RESYNC_MARGIN;
        return RESYNC_MARGIN;
      }
      return Min(wr - pl, RING_BYTES);
    }

    /** `audio_space` at the nominal rate, in frames: as many as fit, to within one. */
    method Space() returns (n: nat)
      requires Valid() && look.Seen?
      modifies this`wr
      ensures wr == Resumed(look.pl, old(wr))
      ensures wr - look.pl + 4 * n <= RING_BYTES - GUARD < wr - look.pl + 4 * n + 4
    {
      var q := QueuedBytes();
      return if q + GUARD >= RING_BYTES then 0 else (RING_BYTES - GUARD - q) / 4;
    }

    /** The start of `audio_write`. */
    method BeginWrite(frames: seq<Byte>) returns (nframes: nat)
      requires Valid() && look.Seen? && |frames| % 4 == 0
      modifies this`wr, this`pend, this`look
      ensures Valid() && WriteStarts(old(View()), frames, View()) && |pend| == 4 * nframes
    {
      var space := Space();
      nframes := if |frames| / 4 > space then space else |frames| / 4;
      pend, look := frames[..4 * nframes], Blind;
    }

    /** The memcpy of one chunk. */
    method CopyBytes(data: seq<Byte>)
      requires ring.Length == RING_BYTES && Slot(wr) + |data| <= RING_BYTES
      modifies ring
      ensures Copied(old(ring[..]), ring[..], wr, data)
    {
      var off := Slot(wr);
      ghost var was := ring[..];
      forall k | off <= k < off + |data| { ring[k] := data[k - off]; }
      CopyIsCopied(was, ring[..], wr, data);
    }

    /** One chunk of `audio_write` is copied, and not yet published. */
    method CopyChunk()
      requires Valid() && pend != [] && staged == 0
      modifies ring, this`staged
      ensures Valid() && Copies(old(View()), View())
    {
      var chunk := Min(RING_BYTES - Slot(wr), |pend|);
      CopyBytes(pend[..chunk]);
      staged := chunk;
    }

    /** `set_wr` after the copy: the chunk is published. */
    method Publish()
      requires Valid() && staged > 0
      modifies this`wr, this`pend, this`staged
      ensures Valid() && Publishes(old(View()), View())
    {
      wr := wr + staged;
      pend := pend[staged..];
      staged := 0;
    }

    // ---- dropping the queue ----

    /** The start of `audio_flush`. */
    method BeginFlush()
      requires Valid() && look.Seen?
      modifies this`wr, this`flo, this`fhi, this`look
      ensures Valid() && FlushStarts(old(View()), View())
    {
      var pl := look.pl;
      look := Blind;
      var was := wr;
      wr := pl + RESYNC_MARGIN;
      flo := pl;
      fhi := Max(pl, Min(was, pl + RING_BYTES));
    }

    /** One memset of `audio_flush`. */
    method SilenceChunk()
      requires Valid() && flo < fhi
      modifies ring, this`flo
      ensures Valid() && Silences(old(View()), View())
    {
      var chunk := Min(RING_BYTES - Slot(flo), fhi - flo);
      Wipe(flo, flo + chunk);
      flo := flo + chunk;
    }

    /** One step, if it is due. */
    method Step(e: Event) returns (heard: seq<Byte>)
      requires Valid()
      modifies this, ring
      ensures Valid() && Moves(old(View()), e, View(), heard)
    {
      heard := [];
      match e
      case Play(d) => if hw + d < clean + RING_BYTES { heard := Consume(d); }
      case TimerTick => Tick();
      case LookStep => if look.Blind? && pend == [] && flo >= fhi { LookUp(); }
      case StartWrite(frames) => if look.Seen? && |frames| % 4 == 0 { var _ := BeginWrite(frames); }
      case CopyStep => if pend != [] && staged == 0 { CopyChunk(); }
      case PublishStep => if staged > 0 { Publish(); }
      case StartFlush => if look.Seen? { BeginFlush(); }
      case SilenceStep => if flo < fhi { SilenceChunk(); }
    }

    /** Any sequence of steps is a run of the state machine. */
    method Drive(es: seq<Event>) returns (ghost vs: seq<State>, hs: seq<seq<Byte>>)
      requires Valid()
      modifies this, ring
      ensures Valid() && |vs| == |es| + 1 && |hs| == |es|
      ensures Run(vs, es, hs, |es|) && vs[0] == old(View()) && vs[|es|] == View()
    {
      vs, hs := [View()], [];
      for i := 0 to |es|
        invariant Valid() && |vs| == i + 1 && |hs| == i
        invariant Run(vs, es, hs, i) && vs[0] == old(View()) && vs[i] == View()
      {
        var heard := Step(es[i]);
        RunGrows(vs, es, hs, i, View(), heard);
        vs, hs := vs + [View()], hs + [heard];
      }
    }
  }

  lemma {:induction false} RunGrows(vs: seq<State>, es: seq<Event>, hs: seq<seq<Byte>>, n: nat, v: State, h: seq<Byte>)
    requires Run(vs, es, hs, n) && |vs| == n + 1 && |hs| == n && n < |es| && Moves(vs[n], es[n], v, h)
    ensures Run(vs + [v], es, hs + [h], n + 1)
  {
    RunExtends(vs, es, hs, n, vs + [v], hs + [h]);
  }

  lemma {:induction false} RunExtends(vs: seq<State>, es: seq<Event>, hs: seq<seq<Byte>>, n: nat,
                                      vs': seq<State>, hs': seq<seq<Byte>>)
    requires Run(vs, es, hs, n) && vs <= vs' && hs <= hs'
    ensures Run(vs', es, hs', n)
  {
    if n > 0 { RunExtends(vs, es, hs, n - 1, vs', hs'); }
  }
}
