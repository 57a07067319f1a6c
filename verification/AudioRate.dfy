/** Device-rate adaptation: a streaming linear resampler, the space it may be given, and the nominal
    clock integrated over changes of the factor. Positions and factors are fixed point with 16
    fraction bits. */
module AudioRate {
  import Bits

  const Q16 := 65536
  const WINDOW_MS := 3000
  const DEAD_BAND := 3276      // Q16 * 5 / 100
  const AGREE := 655           // Q16 / 100

  /** A stereo frame of signed 16-bit samples. */
  datatype Frame = Frame(l: int, r: int)

  predicate Is16(x: int) { -32768 <= x <= 32767 }

  // ---- interpolation ----

  /** The sample a fraction f/65536 of the way from x0 to x1; the shift rounds down. */
  function Interpolate(x0: int, x1: int, f: nat): (y: int) { x0 + (x1 - x0) * f / Q16 }

  /** It lies between its neighbours, so it fits a sample again. */
  lemma InterpolateBetween(x0: int, x1: int, f: nat)
    requires f < Q16
    ensures x0 <= x1 ==> x0 <= Interpolate(x0, x1, f) <= x1
    ensures x1 <= x0 ==> x1 <= Interpolate(x0, x1, f) <= x0
    ensures Is16(x0) && Is16(x1) ==> Is16(Interpolate(x0, x1, f))
  {
    if x0 <= x1 {
      Between(x1 - x0, f);
    } else {
      Between(x0 - x1, f);
      assert (x1 - x0) * f == -((x0 - x1) * f);
    }
  }

  lemma Between(d: nat, f: nat)
    requires f < Q16
    ensures 0 <= d * f <= d * Q16
  {
  }

  /** The stream at a position relative to the chunk: index 0 is the frame before it. */
  function FrameAt(prev: Frame, input: seq<Frame>, pos: nat): (y: Frame)
    requires pos / Q16 < |input|
  {
    var i, f := pos / Q16, pos % Q16;
    var a, b := if i == 0 then prev else input[i - 1], input[i];
    Frame(Interpolate(a.l, b.l, f), Interpolate(a.r, b.r, f))
  }

  // ---- one call, as a function of the stream ----

  /** Output frames of one call that is not cut short. */
  function Output(inv: nat, pos: nat, prev: Frame, input: seq<Frame>): (out: seq<Frame>)
    requires inv > 0
    decreases |input| * Q16 - pos
  {
    if pos / Q16 >= |input| then [] else [FrameAt(prev, input, pos)] + Output(inv, pos + inv, prev, input)
  }

  /** Position left over for the next call. */
  function Leftover(inv: nat, pos: nat, n: nat): (p: nat)
    requires inv > 0
    ensures p < inv || p == pos - n * Q16
    decreases n * Q16 - pos
  {
    if pos / Q16 >= n then pos - n * Q16 else Leftover(inv, pos + inv, n)
  }

  /** Positions past the first chunk read the second one, with the first one's last frame before it. */
  lemma {:induction false} OutputPastFirst(inv: nat, pos: nat, prev: Frame, a: seq<Frame>, b: seq<Frame>)
    requires inv > 0 && a != [] && pos >= |a| * Q16
    ensures Output(inv, pos, prev, a + b) == Output(inv, pos - |a| * Q16, a[|a| - 1], b)
    ensures Leftover(inv, pos, |a| + |b|) == Leftover(inv, pos - |a| * Q16, |b|)
    decreases |a + b| * Q16 - pos
  {
    var pos' := pos - |a| * Q16;
    assert pos' / Q16 == pos / Q16 - |a| && pos' % Q16 == pos % Q16;
    if pos / Q16 < |a + b| {
      OutputPastFirst(inv, pos + inv, prev, a, b);
      assert FrameAt(prev, a + b, pos) == FrameAt(a[|a| - 1], b, pos');
    }
  }

  /** Two calls give the frames of one call on the concatenation. */
  lemma {:induction false} OutputOfTwo(inv: nat, pos: nat, prev: Frame, a: seq<Frame>, b: seq<Frame>)
    requires inv > 0 && a != []
    ensures Output(inv, pos, prev, a + b)
            == Output(inv, pos, prev, a) + Output(inv, Leftover(inv, pos, |a|), a[|a| - 1], b)
    ensures Leftover(inv, pos, |a| + |b|) == Leftover(inv, Leftover(inv, pos, |a|), |b|)
    decreases |a| * Q16 - pos
  {
    if pos / Q16 >= |a| {
      OutputPastFirst(inv, pos, prev, a, b);
      assert [] + Output(inv, pos - |a| * Q16, a[|a| - 1], b) == Output(inv, pos - |a| * Q16, a[|a| - 1], b);
    } else {
      OutputOfTwo(inv, pos + inv, prev, a, b);
      assert FrameAt(prev, a + b, pos) == FrameAt(prev, a, pos);
    }
  }

  predicate Lies(y: int, a: int, b: int) { a <= y <= b || b <= y <= a }

  /** Frame k is the stream read at start + k * inv, between its two neighbours, and the output ends
      only when the input does. */
  lemma {:induction false} OutputIsSampled(inv: nat, pos: nat, prev: Frame, input: seq<Frame>, k: nat)
    requires inv > 0 && k <= |Output(inv, pos, prev, input)|
    ensures k * inv >= 0 && ((pos + k * inv) / Q16 < |input| <==> k < |Output(inv, pos, prev, input)|)
    ensures k < |Output(inv, pos, prev, input)| ==>
              var y, i := Output(inv, pos, prev, input)[k], (pos + k * inv) / Q16;
              && y == FrameAt(prev, input, pos + k * inv)
              && Lies(y.l, (if i == 0 then prev else input[i - 1]).l, input[i].l)
              && Lies(y.r, (if i == 0 then prev else input[i - 1]).r, input[i].r)
    decreases k
  {
    Bits.MulNonNeg(k, inv);
    if k > 0 {
      OutputIsSampled(inv, pos + inv, prev, input, k - 1);
      Bits.MulDist(k - 1, 1, inv);
      assert pos + inv + (k - 1) * inv == pos + k * inv;
    } else if pos / Q16 < |input| {
      FrameLiesBetween(prev, input, pos);
    }
  }

  /** A sampled frame lies between the two it is taken from. */
  lemma FrameLiesBetween(prev: Frame, input: seq<Frame>, pos: nat)
    requires pos / Q16 < |input|
    ensures var y, i := FrameAt(prev, input, pos), pos / Q16;
            && Lies(y.l, (if i == 0 then prev else input[i - 1]).l, input[i].l)
            && Lies(y.r, (if i == 0 then prev else input[i - 1]).r, input[i].r)
  {
    var i, f := pos / Q16, pos % Q16;
    var a, b := if i == 0 then prev else input[i - 1], input[i];
    InterpolateBetween(a.l, b.l, f);
    InterpolateBetween(a.r, b.r, f);
  }

  // ---- any chunking ----

  /** The interpolation history. */
  datatype History = History(pos: nat, prev: Frame, primed: bool)

  /** The history a call starts from: a fresh stretch starts on its first frame. */
  function Primed(h: History, first: Frame): (r: History) { if h.primed then h else History(Q16, first, true) }

  /** One call: its frames and the history it leaves. */
  function Call(inv: nat, h: History, input: seq<Frame>): (r: (seq<Frame>, History))
    requires inv > 0
  {
    if input == [] then ([], h)
    else
      var s := Primed(h, input[0]);
      (Output(inv, s.pos, s.prev, input), History(Leftover(inv, s.pos, |input|), input[|input| - 1], true))
  }

  /** A stream handed over in chunks. */
  function Calls(inv: nat, h: History, chunks: seq<seq<Frame>>): (r: (seq<Frame>, History))
    requires inv > 0
    decreases |chunks|
  {
    if chunks == [] then ([], h)
    else
      var first := Call(inv, h, chunks[0]);
      var rest := Calls(inv, first.1, chunks[1..]);
      (first.0 + rest.0, rest.1)
  }

  function Concat(chunks: seq<seq<Frame>>): (r: seq<Frame>)
  {
    if chunks == [] then [] else chunks[0] + Concat(chunks[1..])
  }

  lemma CallOfTwo(inv: nat, h: History, a: seq<Frame>, b: seq<Frame>)
    requires inv > 0
    ensures var first := Call(inv, h, a);
            var second := Call(inv, first.1, b);
            Call(inv, h, a + b) == (first.0 + second.0, second.1)
  {
    if a == [] {
      assert a + b == b;
      assert [] + Call(inv, h, b).0 == Call(inv, h, b).0;
    } else if b == [] {
      assert a + b == a;
      assert Call(inv, h, a).0 + [] == Call(inv, h, a).0;
    } else {
      var s := Primed(h, a[0]);
      OutputOfTwo(inv, s.pos, s.prev, a, b);
      assert (a + b)[0] == a[0] && (a + b)[|a + b| - 1] == b[|b| - 1];
    }
  }

  /** Resampling in any chunking gives the frames, and the history, of resampling the whole stream. */
  lemma {:induction false} ChunkingDoesNotMatter(inv: nat, h: History, chunks: seq<seq<Frame>>)
    requires inv > 0
    ensures Calls(inv, h, chunks) == Call(inv, h, Concat(chunks))
    decreases |chunks|
  {
    if chunks != [] {
      var first := Call(inv, h, chunks[0]);
      ChunkingDoesNotMatter(inv, first.1, chunks[1..]);
      CallOfTwo(inv, h, chunks[0], Concat(chunks[1..]));
    }
  }

  // ---- sizing ----

  /** `arate_fit`: nominal frames that may be given for `space` device frames. */
  function Fit(rate: nat, inv: nat, space: nat): (n: nat)
  {
    if rate == Q16 then space
    else
      var n := space * inv / Q16;
      if n > 2 then n - 2 else 0
  }

  /** The number of frames one call makes. */
  lemma {:induction false} OutputCount(inv: nat, pos: nat, prev: Frame, input: seq<Frame>)
    requires inv > 0
    ensures var k := |Output(inv, pos, prev, input)|; k > 0 ==> (k - 1) * inv + pos < |input| * Q16
    decreases |input| * Q16 - pos
  {
    if pos / Q16 < |input| {
      OutputCount(inv, pos + inv, prev, input);
      var k := |Output(inv, pos + inv, prev, input)|;
      assert (k + 1 - 1) * inv == (k - 1) * inv + inv;
    }
  }

  /** Input sized by Fit never overfills the space it was sized for, however it is cut up. */
  lemma FitNeverOverfills(rate: nat, inv: nat, h: History, chunks: seq<seq<Frame>>, space: nat)
    requires rate != Q16 && inv > 0 && |Concat(chunks)| <= Fit(rate, inv, space)
    ensures |Calls(inv, h, chunks).0| <= space
  {
    ChunkingDoesNotMatter(inv, h, chunks);
    var input := Concat(chunks);
    if input != [] {
      var s := Primed(h, input[0]);
      OutputCount(inv, s.pos, s.prev, input);
      CountFits(|Output(inv, s.pos, s.prev, input)|, |input|, inv, space, s.pos);
    }
  }

  lemma CountFits(k: nat, n: nat, inv: nat, space: nat, pos: nat)
    requires inv > 0 && 0 < n && n + 2 <= space * inv / Q16 && (k > 0 ==> (k - 1) * inv + pos < n * Q16)
    ensures k <= space
  {
    assert n * Q16 < space * inv;
    if k > space { Bits.MulMono(space, k - 1, inv); }
  }

  const PIECE := 800
  const BUFFER := 2048

  /** At any plausible factor a piece of the driver's write fits its buffer. */
  lemma PieceFitsBuffer(inv: nat, h: History, input: seq<Frame>)
    requires Plausible(inv) && |input| <= PIECE
    ensures |Call(inv, h, input).0| <= BUFFER
  {
    if input != [] {
      var s := Primed(h, input[0]);
      OutputCount(inv, s.pos, s.prev, input);
      var k := |Output(inv, s.pos, s.prev, input)|;
      if k > 0 { PieceCount(k - 1, inv, |input|, s.pos); }
    }
  }

  lemma PieceCount(k: nat, inv: nat, n: nat, pos: nat)
    requires Q16 / 2 <= inv && n <= PIECE && k * inv + pos < n * Q16
    ensures k < 2 * PIECE
  {
    Bits.MulMono(Q16 / 2, inv, k);
    assert inv * k == k * inv;
  }

  // ---- the rate state ----

  /** Plausible factors: half to twice nominal. */
  predicate Plausible(q: nat) { Q16 / 2 <= q <= Q16 * 2 }

  lemma InverseIsPlausible(rate: nat)
    requires Plausible(rate)
    ensures Plausible(0x1_0000_0000 / rate)
  {
    var q, r := 0x1_0000_0000 / rate, 0x1_0000_0000 % rate;
    assert 0x1_0000_0000 == q * rate + r;
    Bits.MulDist(q, 1, rate);
    if q + 1 <= 32768 { Bits.MulMono(q + 1, 32768, rate); }
    if q >= 131073 { Bits.MulMono(131073, q, rate); }
  }

  function AbsDiff(a: int, b: int): (d: nat) { if a > b then a - b else b - a }

  /** The nominal clock: frames integrated up to a device position, and the factor since then. */
  datatype Nominal = Nominal(nom: nat, dev: nat, inv: nat)

  /** `arate_nominal`. */
  function Read(c: Nominal, dev: nat): (frames: nat)
  {
    var d := if dev < c.dev then c.dev else dev;
    Bits.MulNonNeg(d - c.dev, c.inv);
    (c.nom + (d - c.dev) * c.inv) / Q16
  }

  /** Integration up to `dev`, the factor then changing to `inv`. */
  function Integrate(c: Nominal, dev: nat, inv: nat): (r: Nominal)
  {
    var d := if dev < c.dev then c.dev else dev;
    Bits.MulNonNeg(d - c.dev, c.inv);
    Nominal(c.nom + (d - c.dev) * c.inv, d, inv)
  }

  /** Changing the factor never makes the clock jump, and the clock never runs back. */
  lemma NoJump(c: Nominal, dev: nat, inv: nat, later: nat)
    ensures Read(Integrate(c, dev, inv), dev) == Read(c, dev)
    ensures dev <= later ==> Read(c, dev) <= Read(Integrate(c, dev, inv), later)
  {
    var r := Integrate(c, dev, inv);
    if dev <= later {
      Bits.MulNonNeg((if later < r.dev then r.dev else later) - r.dev, r.inv);
    }
  }

  /** Device positions and the factors chosen at them. */
  function Integrated(c: Nominal, steps: seq<(nat, nat)>): (r: Nominal)
    decreases |steps|
  {
    if steps == [] then c
    else
      var last := steps[|steps| - 1];
      Integrate(Integrated(c, steps[..|steps| - 1]), last.0, last.1)
  }

  /** Over any run of updates with a card that never goes back, readings never go back. */
  lemma {:induction false} ClockNeverRunsBack(c: Nominal, steps: seq<(nat, nat)>, i: nat, later: nat)
    requires i <= |steps|
    requires forall k, l :: 0 <= k < l < |steps| ==> steps[k].0 <= steps[l].0
    requires forall k :: 0 <= k < |steps| ==> steps[k].0 <= later
    ensures var dev := if i == 0 then c.dev else steps[i - 1].0;
            Read(Integrated(c, steps[..i]), dev) <= Read(Integrated(c, steps), later)
    decreases |steps| - i
  {
    var dev := if i == 0 then c.dev else steps[i - 1].0;
    var at := Integrated(c, steps[..i]);
    if i == |steps| {
      assert steps[..i] == steps;
      ReadIsMonotone(at, dev, later);
    } else {
      ClockNeverRunsBack(c, steps, i + 1, later);
      assert steps[..i + 1][..i] == steps[..i];
      ReadIsMonotone(at, dev, steps[i].0);
      NoJump(at, steps[i].0, steps[i].1, steps[i].0);
    }
  }

  lemma ReadIsMonotone(c: Nominal, d: nat, d': nat)
    requires d <= d' || d <= c.dev
    ensures Read(c, d) <= Read(c, d')
  {
    var x, x' := if d < c.dev then c.dev else d, if d' < c.dev then c.dev else d';
    Bits.MulMono(x - c.dev, x' - c.dev, c.inv);
  }

  /** Device frames per nominal frame over a window, in 16.16. */
  function Speed(frames: nat, ms: nat): (m: nat)
    requires ms > 0
  {
    Bits.DivNonNeg(frames * Q16, ms * 48);
    frames * Q16 / (ms * 48)
  }

  /** Two plausible measurements in a row that agree. */
  predicate Agree(m: nat, last: nat) { Plausible(m) && last != 0 && AbsDiff(m, last) <= AGREE }

  /** Their average, or exactly nominal when close to it. */
  function Corrected(m: nat, last: nat): (r: nat)
    ensures r == Q16 || AbsDiff(r, Q16) >= DEAD_BAND
    ensures Plausible(m) && Plausible(last) ==> Plausible(r)
  {
    var avg := (m + last) / 2;
    if AbsDiff(avg, Q16) < DEAD_BAND then Q16 else avg
  }

  /** A new factor is taken only when it differs enough, or returns to nominal. */
  predicate WorthSetting(r: nat, rate: nat) { r != rate && (r == Q16 || AbsDiff(r, rate) > Q16 / 500) }

  class Rate {
    var rate: nat
    var inv: nat
    var clock: Nominal
    var winT0: nat
    var winDev0: nat
    var lastMeas: nat
    var winValid: bool
    var observeOnly: bool
    var measured: nat
    var hist: History

    ghost predicate Valid()
      reads this
    {
      && Plausible(rate) && Plausible(inv) && clock.inv == inv
      && (lastMeas == 0 || Plausible(lastMeas))
      && hist.pos <= 2 * Q16
    }

    constructor ()
      ensures Valid() && rate == Q16 && !hist.primed
    {
      rate, inv := Q16, Q16;
      clock := Nominal(0, 0, Q16);
      winT0, winDev0, lastMeas, winValid, observeOnly, measured := 0, 0, 0, false, false, 0;
      hist := History(0, Frame(0, 0), false);
    }

    method SetRate(r: nat)
      requires Valid() && Plausible(r)
      modifies this`rate, this`inv, this`clock
      ensures Valid() && rate == r && inv == 0x1_0000_0000 / r && clock == old(clock).(inv := inv)
    {
      InverseIsPlausible(r);
      rate, inv := r, 0x1_0000_0000 / r;
      clock := clock.(inv := inv);
    }

    /** `arate_update`: integrate first, then measure; the factor changes only after two agreeing
        windows, and a card near nominal is left alone. */
    method Update(dev: nat, ms: nat)
      requires Valid() && (winValid ==> winT0 <= ms && winDev0 <= clock.dev)
      modifies this
      ensures Valid() && clock == Integrate(old(clock), dev, inv) && hist == old(hist)
      ensures rate == old(rate) || rate == Q16 || AbsDiff(rate, Q16) >= DEAD_BAND
      ensures observeOnly == old(observeOnly) && (observeOnly ==> rate == old(rate) && inv == old(inv))
      ensures winValid && winT0 <= ms && winDev0 <= clock.dev
      ensures rate != old(rate) <==>
        && !observeOnly && old(winValid) && ms - old(winT0) >= WINDOW_MS
        && Agree(Speed(clock.dev - old(winDev0), ms - old(winT0)), old(lastMeas))
        && WorthSetting(Corrected(Speed(clock.dev - old(winDev0), ms - old(winT0)), old(lastMeas)), old(rate))
      ensures rate != old(rate) ==> rate == Corrected(Speed(clock.dev - old(winDev0), ms - old(winT0)), old(lastMeas))
    {
      clock := Integrate(clock, dev, inv);
      var d := clock.dev;
      if !winValid {
        winT0, winDev0, winValid := ms, d, true;
        return;
      }
      var dt := ms - winT0;
      if dt < WINDOW_MS { return; }
      var m := Speed(d - winDev0, dt);
      winT0, winDev0 := ms, d;
      if m < Q16 / 2 || m > Q16 * 2 {
        lastMeas := 0;
        return;
      }
      if lastMeas != 0 && AbsDiff(m, lastMeas) <= AGREE {
        var nr := Corrected(m, lastMeas);
        if observeOnly {
          measured := nr;
        } else if WorthSetting(nr, rate) {
          SetRate(nr);
        }
      }
      lastMeas := m;
    }

    /** `arate_resample`: at most `cap` frames out; an exact card is copied through. */
    method Resample(input: seq<Frame>, cap: nat) returns (out: seq<Frame>)
      requires Valid()
      modifies this`hist
      ensures Valid()
      ensures input == [] ==> out == [] && hist == old(hist)
      ensures input != [] && rate == Q16 ==> out == input[..if |input| > cap then cap else |input|] && !hist.primed
      ensures rate != Q16 && |Call(inv, old(hist), input).0| <= cap ==> (out, hist) == Call(inv, old(hist), input)
      ensures rate != Q16 && |Call(inv, old(hist), input).0| > cap ==>
                out == Call(inv, old(hist), input).0[..cap] && hist == History(0, input[|input| - 1], true)
    {
      if input == [] { return []; }
      if rate == Q16 {
        hist := hist.(primed := false);
        return input[..if |input| > cap then cap else |input|];
      }
      if !hist.primed { hist := History(Q16, input[0], true); }
      var pos;
      out, pos := Stretch(inv, hist.pos, hist.prev, input, cap);
      if pos / Q16 < |input| { pos := 0; } else { pos := pos - |input| * Q16; }
      hist := History(pos, input[|input| - 1], true);
    }
  }

  /** The stretched path of `audio_write`: piece by piece through a fixed buffer, the frames come out as if
      resampled in one go, and they fit the space the write was sized for. */
  method WriteStretched(a: Rate, frames: seq<Frame>) returns (out: seq<Frame>)
    requires a.Valid() && a.rate != Q16
    modifies a`hist
    ensures a.Valid() && (out, a.hist) == Call(a.inv, old(a.hist), frames)
    ensures forall space: nat :: |frames| <= Fit(a.rate, a.inv, space) ==> |out| <= space
  {
    ghost var h := a.hist;
    var done := 0;
    out := [];
    while done < |frames|
      invariant done <= |frames| && a.Valid() && (out, a.hist) == Call(a.inv, h, frames[..done])
    {
      var c := if |frames| - done > PIECE then PIECE else |frames| - done;
      var piece := frames[done..done + c];
      PieceFitsBuffer(a.inv, a.hist, piece);
      CallOfTwo(a.inv, h, frames[..done], piece);
      assert frames[..done] + piece == frames[..done + c];
      var m := a.Resample(piece, BUFFER);
      out := out + m;
      done := done + c;
    }
    assert frames[..done] == frames;
    forall space: nat | |frames| <= Fit(a.rate, a.inv, space)
      ensures |out| <= space
    {
      FitNeverOverfills(a.rate, a.inv, h, [frames], space);
      ChunkingDoesNotMatter(a.inv, h, [frames]);
      assert Concat([frames]) == frames;
    }
  }

  /** The resampling loop. */
  method Stretch(inv: nat, start: nat, prev: Frame, input: seq<Frame>, cap: nat) returns (out: seq<Frame>, pos: nat)
    requires inv > 0
    ensures var all := Output(inv, start, prev, input);
            && (|all| <= cap ==>
                  out == all && pos / Q16 >= |input| && pos - |input| * Q16 == Leftover(inv, start, |input|))
            && (|all| > cap ==> out == all[..cap] && pos / Q16 < |input|)
  {
    out, pos := [], start;
    while pos / Q16 < |input| && |out| < cap
      invariant |out| <= cap && Output(inv, start, prev, input) == out + Output(inv, pos, prev, input)
      invariant Leftover(inv, pos, |input|) == Leftover(inv, start, |input|)
      decreases |input| * Q16 - pos
    {
      Produced(inv, pos, prev, input, out);
      out := out + [FrameAt(prev, input, pos)];
      pos := pos + inv;
    }
    Stopped(inv, pos, prev, input, out);
  }

  /** One more frame out. */
  lemma Produced(inv: nat, pos: nat, prev: Frame, input: seq<Frame>, out: seq<Frame>)
    requires inv > 0 && pos / Q16 < |input|
    ensures var next := out + [FrameAt(prev, input, pos)];
            out + Output(inv, pos, prev, input) == next + Output(inv, pos + inv, prev, input)
    ensures Leftover(inv, pos, |input|) == Leftover(inv, pos + inv, |input|)
  {
  }

  /** What is left to produce where the loop stops. */
  lemma Stopped(inv: nat, pos: nat, prev: Frame, input: seq<Frame>, out: seq<Frame>)
    requires inv > 0
    ensures pos / Q16 >= |input| ==>
              Output(inv, pos, prev, input) == [] && Leftover(inv, pos, |input|) == pos - |input| * Q16
    ensures pos / Q16 >= |input| ==> out + Output(inv, pos, prev, input) == out
    ensures pos / Q16 < |input| ==> Output(inv, pos, prev, input) != []
  {
  }
}
