/** The ring's state machine: steps of the card, the timer and the main loop in any order, and what every
    run of them keeps. */
module AudioRun {
  import opened Scalars
  import opened AudioSlots
  import opened AudioTape

  /** The card's position as an operation under way has read it, if there is one. */
  datatype Look = Blind | Seen(pl: nat)

  /** The ring's bytes, the card's position, the last wipe, the writer, the position a write or flush about to
      start has read, the bytes a write in progress has yet to publish and how many of them are copied already, and
      what a flush in progress still has to silence. */
  datatype State = State(ring: seq<Byte>, hw: nat, clean: nat, wr: nat, look: Look, pend: seq<Byte>, staged: nat,
                         flo: nat, fhi: nat)
  {
    /** The card is less than a lap past the last wipe; the writer, with what it has been granted, keeps GUARD
        bytes short of a lap ahead of the card; the main loop does one thing at a time. */
    ghost predicate Sound()
    {
      && |ring| == RING_BYTES
      && clean <= hw < clean + RING_BYTES
      && wr + |pend| <= hw + RING_BYTES - GUARD
      && staged <= |pend|
      && (flo < fhi ==> pend == [] && fhi <= flo + RING_BYTES && fhi <= hw + RING_BYTES && wr <= flo + RING_BYTES)
      && (look.Seen? ==> pend == [] && flo >= fhi && look.pl <= hw && wr <= look.pl + RING_BYTES - GUARD)
    }

    /** The end of what has been copied. */
    function Top(): (p: nat) { wr + staged }

    /** The size of the next chunk to copy. */
    function Chunk(): (n: nat)
      ensures n <= |pend|
    {
      Min(RING_BYTES - Slot(wr), |pend|)
    }

    /** Where the next stretch to silence ends. */
    function Hush(): (p: nat)
      requires flo < fhi
      ensures flo < p <= fhi
    {
      flo + Min(RING_BYTES - Slot(flo), fhi - flo)
    }

    ghost predicate Silent()
      requires |ring| == RING_BYTES
    {
      SilentPast(ring, clean, Top(), flo, fhi)
    }

    /** What has been copied and not yet played. */
    ghost function Queue(): (q: seq<Byte>)
      requires |ring| == RING_BYTES
    {
      Bytes(ring, hw, Top())
    }

    /** No copied byte waits unpublished past the last wipe's lap. */
    predicate Intact() { staged == 0 || Top() <= clean + RING_BYTES }

    /** The ring holds the tape. */
    ghost predicate Holds(t: Tape)
      requires |ring| == RING_BYTES
    {
      Tuned(ring, t, hw, clean, Top(), flo, fhi)
    }
  }

  // ---- the steps ----

  /** The card plays `d` bytes. */
  ghost predicate Plays(v: State, d: nat, v': State, heard: seq<Byte>)
    requires |v.ring| == RING_BYTES
  {
    v' == v.(hw := v.hw + d) && heard == Bytes(v.ring, v.hw, v.hw + d)
  }

  /** The tick wipes what has been played, and nothing the published writer still needs. */
  ghost predicate Ticks(v: State, v': State)
    requires |v.ring| == RING_BYTES
  {
    && v' == v.(clean := v.hw, ring := v'.ring) && |v'.ring| == RING_BYTES
    && Wiped(v.ring, v'.ring, WipeStart(v.clean, v.wr, v.hw), v.hw)
  }

  /** Where the writer continues: a queue that is empty, or about to be, restarts just ahead of the card. */
  function Resumed(pl: nat, wr: nat): (p: nat)
  {
    if wr < pl + LOW_WATER then pl + RESYNC_MARGIN else wr
  }

  /** The position is read; the card and the timer may go on before it is used. */
  predicate Looks(v: State, v': State) { v' == v.(look := Seen(v.hw)) }

  /** A write takes on as many whole frames as fit, by the position it has read. */
  ghost predicate WriteStarts(v: State, frames: seq<Byte>, v': State)
    requires v.look.Seen?
  {
    && v' == v.(wr := Resumed(v.look.pl, v.wr), look := Blind, pend := v'.pend)
    && v'.pend <= frames && |v'.pend| % 4 == 0
    && v'.wr + |v'.pend| <= v.look.pl + RING_BYTES - GUARD
    && (v'.pend == frames || v.look.pl + RING_BYTES - GUARD < v'.wr + |v'.pend| + 4)
  }

  /** The next chunk is copied. */
  ghost predicate Copies(v: State, v': State)
    requires |v.ring| == RING_BYTES
  {
    && v' == v.(staged := v.Chunk(), ring := v'.ring) && |v'.ring| == RING_BYTES
    && Copied(v.ring, v'.ring, v.wr, v.pend[..v.Chunk()])
  }

  /** The copied chunk is published. */
  predicate Publishes(v: State, v': State)
    requires v.staged <= |v.pend|
  {
    v' == v.(wr := v.Top(), pend := v.pend[v.staged..], staged := 0)
  }

  /** A flush moves the writer to just ahead of the position it has read; everything queued from there on is to be
      silenced. */
  predicate FlushStarts(v: State, v': State)
    requires v.look.Seen?
  {
    v' == v.(wr := v.look.pl + RESYNC_MARGIN, look := Blind, flo := v.look.pl, fhi := Max(v.look.pl, v.wr))
  }

  /** The flush silences a chunk. */
  ghost predicate Silences(v: State, v': State)
    requires |v.ring| == RING_BYTES && v.flo < v.fhi
  {
    && v' == v.(flo := v.Hush(), ring := v'.ring)
    && |v'.ring| == RING_BYTES && Wiped(v.ring, v'.ring, v.flo, v'.flo)
  }

  datatype Event =
    | Play(d: nat) | TimerTick | LookStep
    | StartWrite(frames: seq<Byte>) | CopyStep | PublishStep
    | StartFlush | SilenceStep

  /** The main loop does one thing at a time, a copy is published before the next, and the card stays less than a
      lap past the last wipe. */
  predicate Due(v: State, e: Event)
  {
    match e
    case Play(d) => v.hw + d < v.clean + RING_BYTES
    case TimerTick => true
    case LookStep => v.look.Blind? && v.pend == [] && v.flo >= v.fhi
    case StartWrite(frames) => v.look.Seen? && |frames| % 4 == 0
    case CopyStep => v.pend != [] && v.staged == 0
    case PublishStep => v.staged > 0
    case StartFlush => v.look.Seen?
    case SilenceStep => v.flo < v.fhi
  }

  /** One step; one that is not due does nothing. */
  ghost predicate Next(v: State, e: Event, v': State, heard: seq<Byte>)
    requires |v.ring| == RING_BYTES && v.staged <= |v.pend|
  {
    if !Due(v, e) then v' == v && heard == []
    else
      && (!e.Play? ==> heard == [])
      && match e
         case Play(d) => Plays(v, d, v', heard)
         case TimerTick => Ticks(v, v')
         case LookStep => Looks(v, v')
         case StartWrite(frames) => WriteStarts(v, frames, v')
         case CopyStep => Copies(v, v')
         case PublishStep => Publishes(v, v')
         case StartFlush => FlushStarts(v, v')
         case SilenceStep => Silences(v, v')
  }

  // ---- what a step keeps ----

  lemma WriteIsSound(v: State, frames: seq<Byte>, v': State)
    requires v.Sound() && Due(v, StartWrite(frames)) && WriteStarts(v, frames, v')
    ensures v'.Sound()
  {
  }

  lemma SoundKept(v: State, e: Event, v': State, heard: seq<Byte>)
    requires v.Sound() && Next(v, e, v', heard)
    ensures v'.Sound() && v'.hw == v.hw + |heard| && v.clean <= v'.clean
  {
    if e.StartWrite? && Due(v, e) { WriteIsSound(v, e.frames, v'); }
  }

  /** A chunk is about to be copied by a writer that a tick's wipe has overtaken. */
  predicate Overtaken(v: State, e: Event)
  {
    e.CopyStep? && Due(v, e) && v.wr < v.clean
  }

  /** The writer is about to move past the last wipe's lap, over bytes it did not write. */
  predicate Strays(v: State, e: Event)
  {
    && Due(v, e) && (e.StartFlush? || (e.StartWrite? && v.wr < v.look.pl + LOW_WATER))
    && v.look.pl + RESYNC_MARGIN > Max(v.clean + RING_BYTES, v.wr)
  }

  lemma SilentKept(v: State, e: Event, v': State, heard: seq<Byte>)
    requires v.Sound() && Next(v, e, v', heard) && v.Silent() && !Overtaken(v, e)
    ensures |v'.ring| == RING_BYTES && v'.Silent()
  {
    if Due(v, e) {
      match e
      case Play(_) =>
      case TimerTick => WipeSilences(v.ring, v'.ring, v.clean, v.wr, v.Top(), v.hw, v.flo, v.fhi);
      case LookStep =>
      case StartWrite(_) =>
      case CopyStep => CopySilenceIff(v.ring, v'.ring, v.clean, v.wr, v.pend[..v.Chunk()], v.flo, v.fhi);
      case PublishStep =>
      case StartFlush => FlushPending(v.ring, v.clean, v.wr, v'.wr, v.flo, v.fhi, v'.flo, v'.fhi);
      case SilenceStep => SilencedChunk(v.ring, v'.ring, v.clean, v.wr, v.flo, v'.flo, v.fhi);
    }
  }

  // ---- the tape ----

  /** A step's effect on the tape: a copy lays its bytes, a flush takes off what it silences, and a tick takes off
      what lies past both the published writer and the last wipe's lap. */
  ghost function TapeStep(t: Tape, v: State, e: Event): (r: Tape)
  {
    if e.CopyStep? && Due(v, e) then Laid(t, v.hw, v.wr, v.pend[..v.Chunk()])
    else if e.SilenceStep? && Due(v, e) then Hushed(t, Max(v.flo, v.hw), v.Hush())
    else if e.TimerTick? then Cut(t, Max(v.wr, v.clean + RING_BYTES))
    else t
  }

  /** A step goes well when the writer has not been overtaken and does not stray. */
  predicate Calm(v: State, e: Event) { !Overtaken(v, e) && !Strays(v, e) }

  lemma TickHolds(t: Tape, v: State, v': State)
    requires v.Sound() && Ticks(v, v') && v.Holds(t)
    ensures v'.Holds(TapeStep(t, v, TimerTick))
  {
    TickTunes(v.ring, v'.ring, t, v.clean, v.wr, v.Top(), v.hw, v.flo, v.fhi);
  }

  lemma WriteHolds(t: Tape, v: State, frames: seq<Byte>, v': State)
    requires v.Sound() && Due(v, StartWrite(frames)) && WriteStarts(v, frames, v') && v.Holds(t)
    requires !Strays(v, StartWrite(frames))
    ensures v'.Holds(t)
  {
    JumpTunesIff(v.hw, v.clean, v.wr, v'.wr, v.flo);
    SameFlush(v.ring, t, v.hw, v.clean, v.wr, v.flo, v.fhi);
    SameFlush(v.ring, t, v.hw, v.clean, v'.wr, v.flo, v.fhi);
  }

  lemma CopyHolds(t: Tape, v: State, v': State)
    requires v.Sound() && Due(v, CopyStep) && Copies(v, v') && v.Holds(t) && v.clean <= v.wr
    ensures v'.Holds(TapeStep(t, v, CopyStep))
  {
    CopyTunes(v.ring, v'.ring, t, v.hw, v.clean, v.wr, v.pend[..v.Chunk()], v.flo, v.fhi);
  }

  lemma SilenceHolds(t: Tape, v: State, v': State)
    requires v.Sound() && v.flo < v.fhi && Silences(v, v') && v.Holds(t)
    ensures v'.Holds(TapeStep(t, v, SilenceStep))
  {
    SilenceTunes(v.ring, v'.ring, t, v.hw, v.clean, v.wr, v.flo, v'.flo, v.fhi);
  }

  lemma FlushHolds(t: Tape, v: State, v': State)
    requires v.Sound() && Due(v, StartFlush) && FlushStarts(v, v') && v.Holds(t) && !Strays(v, StartFlush)
    ensures v'.Holds(t)
  {
    FlushTunesIff(v.hw, v.clean, v.wr, v'.wr, v.look.pl, v.flo);
    SameFlush(v.ring, t, v.hw, v.clean, v.wr, v.flo, v.fhi);
  }

  /** The ring holds the tape after every calm step. */
  lemma HoldsKept(t: Tape, v: State, e: Event, v': State, heard: seq<Byte>)
    requires v.Sound() && Next(v, e, v', heard) && v.Holds(t) && Calm(v, e)
    ensures |v'.ring| == RING_BYTES && v'.Holds(TapeStep(t, v, e))
  {
    if Due(v, e) {
      match e
      case Play(_) =>
      case TimerTick => TickHolds(t, v, v');
      case LookStep =>
      case StartWrite(frames) => WriteHolds(t, v, frames, v');
      case CopyStep => CopyHolds(t, v, v');
      case PublishStep =>
      case StartFlush => FlushHolds(t, v, v');
      case SilenceStep => SilenceHolds(t, v, v');
    }
  }

  /** What the card plays in a step is the tape, which the step does not change where the card has been. */
  lemma StepPlaysTape(t: Tape, v: State, e: Event, v': State, heard: seq<Byte>)
    requires v.Sound() && Next(v, e, v', heard) && v.Holds(t)
    ensures v'.hw == v.hw + |heard|
    ensures Matches(heard, TapeStep(t, v, e), v.hw)
    ensures forall a: nat :: a < v.hw ==> At(TapeStep(t, v, e), a) == At(t, a)
  {
  }

  /** A tick that finds every copied byte published, or within a lap of the last wipe. */
  predicate Spares(v: State, e: Event) { e.TimerTick? ==> v.Intact() }

  /** Nothing laid is lost or changed by a step, unless a flush drops it or a tick does not spare it. */
  lemma TapeGrows(t: Tape, v: State, e: Event)
    requires v.Sound() && v.Holds(t) && v.flo >= v.fhi && Spares(v, e)
    ensures Extends(t, TapeStep(t, v, e))
  {
    if e.CopyStep? && Due(v, e) { LaidKeeps(t, v.hw, v.wr, v.pend[..v.Chunk()]); }
    if e.TimerTick? { TickKeepsTape(t, v.hw, v.clean, v.wr, v.Top()); }
  }

  // ---- the queue ----

  /** The queue is first in, first out: copies append, plays take from the front, publishing and ticks leave it. */
  lemma QueueStep(v: State, e: Event, v': State, heard: seq<Byte>)
    requires v.Sound() && Next(v, e, v', heard)
    ensures e.PublishStep? || (e.TimerTick? && v.Intact()) ==> |v'.ring| == RING_BYTES && v'.Queue() == v.Queue()
    ensures e.CopyStep? && Due(v, e) && v.hw <= v.wr ==>
              |v'.ring| == RING_BYTES && v'.Queue() == v.Queue() + v.pend[..v.Chunk()]
    ensures e.Play? && Due(v, e) ==> Drained(v, v', heard)
  {
    if Due(v, e) {
      match e
      case Play(d) => PlayDrains(v, d, v', heard);
      case TimerTick =>
        if v.Intact() { WipeSparesQueue(v.ring, v'.ring, v.clean, v.wr, v.Top(), v.hw); }
      case CopyStep =>
        if v.hw <= v.wr { CopyAppends(v.ring, v'.ring, v.hw, v.wr, v.pend[..v.Chunk()]); }
      case _ =>
    }
  }

  /** The card heard the front of the queue, and nothing once the queue had run dry. */
  ghost predicate Drained(v: State, v': State, heard: seq<Byte>)
    requires v.Sound()
  {
    var m := Min(|heard|, |v.Queue()|);
    && |v'.ring| == RING_BYTES && v'.Queue() == v.Queue()[m..] && heard[..m] == v.Queue()[..m]
    && (v.Silent() && v.flo >= v.fhi ==> forall k :: m <= k < |heard| ==> heard[k] == 0)
  }

  lemma PlayDrains(v: State, d: nat, v': State, heard: seq<Byte>)
    requires v.Sound() && Due(v, Play(d)) && Plays(v, d, v', heard)
    ensures Drained(v, v', heard)
  {
    var m := Min(|heard|, |v.Queue()|);
    assert heard[..m] == v.Queue()[..m];
    assert v'.Queue() == v.Queue()[m..];
    if v.Silent() && v.flo >= v.fhi {
      forall k | m <= k < |heard|
        ensures heard[k] == 0
      {
        assert v.ring[Slot(v.hw + k)] == 0;
      }
    }
  }

  // ---- whole runs ----

  /** The first `n` states of `vs` follow one another by the events `es`; `hs` is what the card plays in each step. */
  ghost predicate Run(vs: seq<State>, es: seq<Event>, hs: seq<seq<Byte>>, n: nat)
  {
    && n < |vs| && n <= |es| && n <= |hs| && vs[0].Sound()
    && (n > 0 ==> Run(vs, es, hs, n - 1) && Moves(vs[n - 1], es[n - 1], vs[n], hs[n - 1]))
  }

  ghost predicate Moves(v: State, e: Event, v': State, heard: seq<Byte>)
  {
    |v.ring| == RING_BYTES && v.staged <= |v.pend| && Next(v, e, v', heard)
  }

  /** What the card has played after `n` steps. */
  ghost function Heard(hs: seq<seq<Byte>>, n: nat): (h: seq<Byte>)
    requires n <= |hs|
  {
    if n == 0 then [] else Heard(hs, n - 1) + hs[n - 1]
  }

  /** The tape after `n` steps. */
  ghost function TapeAfter(t: Tape, vs: seq<State>, es: seq<Event>, n: nat): (r: Tape)
    requires n <= |es| && n <= |vs|
  {
    if n == 0 then t else TapeStep(TapeAfter(t, vs, es, n - 1), vs[n - 1], es[n - 1])
  }

  /** Every state of every run is sound, and the card's position counts what it has played. */
  lemma {:induction false} RunIsSound(vs: seq<State>, es: seq<Event>, hs: seq<seq<Byte>>, n: nat)
    requires Run(vs, es, hs, n)
    ensures vs[n].Sound() && vs[n].hw == vs[0].hw + |Heard(hs, n)|
  {
    if n > 0 {
      RunIsSound(vs, es, hs, n - 1);
      SoundKept(vs[n - 1], es[n - 1], vs[n], hs[n - 1]);
    }
  }

  /** The ring past the writer stays silent over every run in which no chunk is copied by an overtaken writer. */
  lemma {:induction false} RunIsSilent(vs: seq<State>, es: seq<Event>, hs: seq<seq<Byte>>, n: nat)
    requires Run(vs, es, hs, n) && vs[0].Silent()
    requires forall i :: 0 <= i < n ==> !Overtaken(vs[i], es[i])
    ensures vs[n].Sound() && vs[n].Silent()
  {
    RunIsSound(vs, es, hs, n);
    if n > 0 {
      RunIsSilent(vs, es, hs, n - 1);
      SilentKept(vs[n - 1], es[n - 1], vs[n], hs[n - 1]);
    }
  }

  /** The state is sound, its ring holds the tape, and the card has played the tape up to its position. */
  ghost predicate Follows(v: State, t: Tape, past: seq<Byte>, from: nat)
  {
    v.Sound() && v.Holds(t) && v.hw == from + |past| && Matches(past, t, from)
  }

  lemma FollowsKept(t: Tape, v: State, e: Event, v': State, heard: seq<Byte>, past: seq<Byte>, from: nat)
    requires Follows(v, t, past, from) && Next(v, e, v', heard) && Calm(v, e)
    ensures Follows(v', TapeStep(t, v, e), past + heard, from)
  {
    SoundKept(v, e, v', heard);
    HoldsKept(t, v, e, v', heard);
    StepPlaysTape(t, v, e, v', heard);
    MatchesJoin(past, heard, t, TapeStep(t, v, e), from);
  }

  /** Over every calm run, whatever the interleaving, the card plays the tape: at each position the byte laid
      there, and silence where there is none. */
  lemma {:induction false} RunPlaysTape(t: Tape, vs: seq<State>, es: seq<Event>, hs: seq<seq<Byte>>, n: nat)
    requires Run(vs, es, hs, n) && vs[0].Holds(t)
    requires forall i :: 0 <= i < n ==> Calm(vs[i], es[i])
    ensures Follows(vs[n], TapeAfter(t, vs, es, n), Heard(hs, n), vs[0].hw)
  {
    if n > 0 {
      RunPlaysTape(t, vs, es, hs, n - 1);
      FollowsKept(TapeAfter(t, vs, es, n - 1), vs[n - 1], es[n - 1], vs[n], hs[n - 1], Heard(hs, n - 1), vs[0].hw);
    }
  }

  lemma NoFlushKept(t: Tape, v: State, e: Event, v': State, heard: seq<Byte>, past: seq<Byte>, from: nat)
    requires Follows(v, t, past, from) && Next(v, e, v', heard) && v.flo >= v.fhi && !e.StartFlush? && Spares(v, e)
    ensures v'.flo >= v'.fhi && Extends(t, TapeStep(t, v, e))
  {
    TapeGrows(t, v, e);
  }

  /** Over a calm run without a flush, whose ticks spare what is copied, nothing once laid is lost or changed. */
  lemma {:induction false} RunKeepsTape(t: Tape, vs: seq<State>, es: seq<Event>, hs: seq<seq<Byte>>, m: nat, n: nat)
    requires m <= n && Run(vs, es, hs, n) && vs[0].Holds(t) && vs[0].flo >= vs[0].fhi
    requires forall i :: 0 <= i < n ==> Calm(vs[i], es[i]) && Spares(vs[i], es[i]) && !es[i].StartFlush?
    ensures vs[n].flo >= vs[n].fhi && Extends(TapeAfter(t, vs, es, m), TapeAfter(t, vs, es, n))
  {
    if n > 0 {
      RunKeepsTape(t, vs, es, hs, Min(m, n - 1), n - 1);
      RunPlaysTape(t, vs, es, hs, n - 1);
      NoFlushKept(TapeAfter(t, vs, es, n - 1), vs[n - 1], es[n - 1], vs[n], hs[n - 1], Heard(hs, n - 1), vs[0].hw);
    }
  }

  // ---- a write arrives ----

  /** A chunk about to be copied goes ahead of the card. */
  predicate OnTime(v: State, e: Event) { e.CopyStep? && Due(v, e) ==> v.hw <= v.wr }

  /** Of the bytes `data` written from position `at` on, those copied are on the tape and the rest is pending. */
  ghost predicate Arriving(t: Tape, v: State, at: nat, data: seq<Byte>)
  {
    && at <= v.wr <= v.Top() <= at + |data| && v.pend == data[v.wr - at..]
    && Matches(data[..v.Top() - at], t, at)
  }

  /** A step of a write under way. */
  predicate Writing(v: State, e: Event)
  {
    Calm(v, e) && Spares(v, e) && OnTime(v, e) && !e.StartFlush? && !(e.StartWrite? && Due(v, e))
  }

  lemma ArrivingCopy(t: Tape, v: State, v': State, at: nat, data: seq<Byte>)
    requires Due(v, CopyStep) && v' == v.(staged := v.Chunk(), ring := v'.ring)
    requires v.hw <= v.wr && Arriving(t, v, at, data)
    ensures Arriving(TapeStep(t, v, CopyStep), v', at, data)
  {
    LaidMatches(t, v.hw, at, data, v.wr, v.pend[..v.Chunk()]);
  }

  /** A tick leaves the copied bytes of a write on the tape exactly when those it may take are silence. */
  lemma TickSparesCopyIff(t: Tape, v: State, at: nat, data: seq<Byte>)
    requires Arriving(t, v, at, data)
    ensures Arriving(TapeStep(t, v, TimerTick), v, at, data) <==>
            forall k :: Max(v.wr, v.clean + RING_BYTES) - at <= k < v.Top() - at && 0 <= k ==> data[k] == 0
  {
    var t' := TapeStep(t, v, TimerTick);
    forall k | 0 <= k < v.Top() - at
      ensures At(t', at + k) == if at + k < Max(v.wr, v.clean + RING_BYTES) then data[k] else 0
    {
      assert data[..v.Top() - at][k] == At(t, at + k);
    }
    if Arriving(t', v, at, data) {
      forall k | Max(v.wr, v.clean + RING_BYTES) - at <= k < v.Top() - at && 0 <= k
        ensures data[k] == 0
      {
        assert data[..v.Top() - at][k] == At(t', at + k);
      }
    }
  }

  lemma ArrivingKept(t: Tape, v: State, e: Event, v': State, heard: seq<Byte>, at: nat, data: seq<Byte>)
    requires v.Sound() && Next(v, e, v', heard) && v.flo >= v.fhi && Writing(v, e) && Arriving(t, v, at, data)
    ensures Arriving(TapeStep(t, v, e), v', at, data)
  {
    if e.CopyStep? && Due(v, e) {
      ArrivingCopy(t, v, v', at, data);
    } else if e.TimerTick? {
      TickSparesCopyIff(t, v, at, data);
    } else if e.PublishStep? && Due(v, e) {
      assert v'.pend == data[v'.wr - at..];
    }
  }

  /** A run's state while a write goes on. */
  ghost predicate Delivers(v: State, t: Tape, past: seq<Byte>, from: nat, at: nat, data: seq<Byte>)
  {
    Follows(v, t, past, from) && v.flo >= v.fhi && Arriving(t, v, at, data)
  }

  lemma DeliversKept(t: Tape, v: State, e: Event, v': State, heard: seq<Byte>, past: seq<Byte>, from: nat,
                     at: nat, data: seq<Byte>)
    requires Delivers(v, t, past, from, at, data) && Next(v, e, v', heard) && Writing(v, e)
    ensures Delivers(v', TapeStep(t, v, e), past + heard, from, at, data)
  {
    FollowsKept(t, v, e, v', heard, past, from);
    NoFlushKept(t, v, e, v', heard, past, from);
    ArrivingKept(t, v, e, v', heard, at, data);
  }

  lemma DeliversStarts(t: Tape, v: State)
    requires v.Sound() && v.Holds(t) && v.staged == 0 && v.flo >= v.fhi
    ensures Delivers(v, t, [], v.hw, v.wr, v.pend)
  {
    assert v.pend[0..] == v.pend;
  }

  /** A write interleaved with any plays and ticks lays its bytes in order, from where it started; what the card
      plays meanwhile is the tape. */
  lemma {:induction false} RunWrites(t: Tape, vs: seq<State>, es: seq<Event>, hs: seq<seq<Byte>>, n: nat)
    requires Run(vs, es, hs, n) && vs[0].Holds(t) && vs[0].staged == 0 && vs[0].flo >= vs[0].fhi
    requires forall i :: 0 <= i < n ==> Writing(vs[i], es[i])
    ensures Delivers(vs[n], TapeAfter(t, vs, es, n), Heard(hs, n), vs[0].hw, vs[0].wr, vs[0].pend)
  {
    if n == 0 {
      DeliversStarts(t, vs[0]);
    } else {
      RunWrites(t, vs, es, hs, n - 1);
      DeliversKept(TapeAfter(t, vs, es, n - 1), vs[n - 1], es[n - 1], vs[n], hs[n - 1], Heard(hs, n - 1), vs[0].hw,
                   vs[0].wr, vs[0].pend);
    }
  }

  /** Once nothing is pending any more, the whole write is on the tape. */
  lemma AllArrived(t: Tape, v: State, past: seq<Byte>, from: nat, at: nat, data: seq<Byte>)
    requires Delivers(v, t, past, from, at, data) && v.pend == []
    ensures Matches(data, t, at)
  {
    assert data[..v.Top() - at] == data;
  }
}
