/** The smoothed audio clock: runs at real time, is pulled toward the card's position, and must
    neither run ahead of the card nor step back. */
module AudioClock {
  import opened Scalars

  const AHEAD := 960        // frames the clock may lead the card (20 ms)
  const JUMP_DOWN := 4800
  const JUMP_UP := 24000
  const PULL_US := 250000

  /** C's signed division by a positive number. */
  function Quot(a: int, b: int): (q: int)
    requires b > 0
  {
    if a >= 0 then a / b else -((-a) / b)
  }

  /** The estimate after `dt` microseconds: real time at 48 kHz, then a pull of dt/250000 of the error. */
  function Pulled(est: nat, raw: nat, dt: nat): (e: int)
  {
    var run := est + dt * 48 * 256 / 1000;
    run + Quot((raw * 256 - run) * dt, PULL_US)
  }

  /** The pull never overshoots the card, from either side, and never undoes real time. */
  lemma PullStaysBetween(est: nat, raw: nat, dt: nat)
    requires dt <= PULL_US
    ensures Pulled(est, raw, dt) >= raw * 256 || Pulled(est, raw, dt) >= est
    ensures Pulled(est, raw, dt) >= 0
  {
    var run := est + dt * 48 * 256 / 1000;
    var err := raw * 256 - run;
    if err >= 0 {
      assert err * dt >= 0;
    } else {
      Fraction(-err, dt);
      assert err * dt == -((-err) * dt);
    }
  }

  lemma Fraction(x: nat, dt: nat)
    requires dt <= PULL_US
    ensures 0 <= x * dt / PULL_US <= x
  {
    assert 0 <= x * dt <= x * PULL_US;
  }

  /** Microseconds since the last call, capped at the pull's time constant. */
  function Elapsed(us: nat, now: nat): (dt: nat)
    ensures dt <= PULL_US
  {
    if now <= us then 0 else if now - us > PULL_US then PULL_US else now - us
  }

  class Clock {
    var valid: bool
    var us: nat
    var est: nat
    var last: nat
    /** The card position given last. */
    ghost var card: nat

    /** The last answer leads neither the card nor the estimate by more than AHEAD. */
    ghost predicate Valid()
      reads this
    {
      valid ==> last <= card + AHEAD && last <= est / 256 + AHEAD
    }

    constructor ()
      ensures Valid() && !valid
    {
      valid, us, est, last := false, 0, 0, 0;
    }

    /** The estimate is too far from the card to be pulled back. */
    predicate Jumped(raw: nat)
      reads this
    {
      !valid || raw + JUMP_DOWN < est / 256 || raw > est / 256 + JUMP_UP
    }

    /** `aclk_smooth`. */
    method Smooth(raw: nat, now: nat) returns (r: nat)
      requires Valid() && (valid ==> card <= raw)
      modifies this
      ensures Valid() && valid && card == raw && r == last && us == now
      ensures r <= raw + AHEAD
      ensures old(Jumped(raw)) ==> r == raw && est == raw * 256
      ensures !old(Jumped(raw)) ==> est == Pulled(old(est), raw, Elapsed(old(us), now))
      ensures !old(Jumped(raw)) ==> r == Max(old(last), Min(est / 256, raw + AHEAD))
      ensures old(valid) && raw > old(est) / 256 + JUMP_UP ==> r >= old(last)
      ensures old(valid) ==> r + AHEAD >= old(last)
    {
      card := raw;
      if Jumped(raw) {
        valid, us, est, last := true, now, raw * 256, raw;
        return raw;
      }
      var dt := if now > us then now - us else 0;
      us := now;
      if dt > PULL_US { dt := PULL_US; }
      PullStaysBetween(est, raw, dt);
      est := Pulled(est, raw, dt);
      r := est / 256;
      if r > raw + AHEAD { r := raw + AHEAD; }
      if r < last { r := last; }
      last := r;
    }
  }

  // ---- whole runs ----

  /** The estimate is too far past the card, or too far short of it, to be pulled back. */
  predicate FarPast(est: nat, raw: nat) { raw + JUMP_DOWN < est / 256 }

  predicate FarShort(est: nat, raw: nat) { raw > est / 256 + JUMP_UP }

  function Stepped(est: nat, raw: nat, dt: nat): (e: nat)
    requires dt <= PULL_US
  {
    PullStaysBetween(est, raw, dt);
    if FarPast(est, raw) || FarShort(est, raw) then raw * 256 else Pulled(est, raw, dt)
  }

  /** The estimate after `k` calls. */
  ghost function Estimate(raws: seq<nat>, nows: seq<nat>, k: nat): (e: nat)
    requires k <= |raws| == |nows|
  {
    if k == 0 then 0
    else if k == 1 then raws[0] * 256
    else Stepped(Estimate(raws, nows, k - 1), raws[k - 1], Elapsed(nows[k - 2], nows[k - 1]))
  }

  /** Call `k` finds the estimate too far past the card. */
  ghost predicate DropsBack(raws: seq<nat>, nows: seq<nat>, k: nat)
    requires k < |raws| == |nows|
  {
    k > 0 && FarPast(Estimate(raws, nows, k), raws[k])
  }

  /** Call `k` starts the clock anew: the first one, and any that finds the estimate too far from the card. */
  ghost predicate Restarts(raws: seq<nat>, nows: seq<nat>, k: nat)
    requires k < |raws| == |nows|
  {
    k == 0 || DropsBack(raws, nows, k) || FarShort(Estimate(raws, nows, k), raws[k])
  }

  /** What call `k` answers, given the answer before it. */
  ghost predicate Answers(raws: seq<nat>, nows: seq<nat>, out: seq<nat>, k: nat)
    requires k < |out| <= |raws| == |nows|
  {
    out[k] == if Restarts(raws, nows, k) then raws[k]
              else Max(out[k - 1], Min(Estimate(raws, nows, k + 1) / 256, raws[k] + AHEAD))
  }

  ghost predicate AllAnswer(raws: seq<nat>, nows: seq<nat>, out: seq<nat>)
    requires |out| <= |raws| == |nows|
  {
    forall k :: 0 <= k < |out| ==> Answers(raws, nows, out, k)
  }

  /** No call after `i` up to `j` finds the estimate too far past the card. */
  ghost predicate NoDrop(raws: seq<nat>, nows: seq<nat>, i: int, j: nat)
    requires 0 <= i <= j < |raws| == |nows|
  {
    forall k :: i < k <= j ==> !DropsBack(raws, nows, k)
  }

  /** Answers never go back but at such a call. */
  ghost predicate Forward(raws: seq<nat>, nows: seq<nat>, out: seq<nat>)
    requires |out| <= |raws| == |nows|
  {
    forall i, j :: 0 <= i < j < |out| && NoDrop(raws, nows, i, j) ==> out[i] <= out[j]
  }

  lemma ForwardGrows(raws: seq<nat>, nows: seq<nat>, out: seq<nat>, r: nat)
    requires |out| < |raws| == |nows| && Forward(raws, nows, out)
    requires out != [] && !DropsBack(raws, nows, |out|) ==> out[|out| - 1] <= r
    ensures Forward(raws, nows, out + [r])
  {
    var all := out + [r];
    forall i, j | 0 <= i < j < |all| && NoDrop(raws, nows, i, j)
      ensures all[i] <= all[j]
    {
      if j == |out| {
        assert !DropsBack(raws, nows, j);
        assert NoDrop(raws, nows, i, j - 1);
      }
    }
  }

  /** No answer is more than AHEAD past the card, or below an earlier answer. */
  ghost predicate Bounded(raws: seq<nat>, out: seq<nat>)
  {
    && |out| <= |raws| && (forall i :: 0 <= i < |out| ==> out[i] <= raws[i] + AHEAD)
    && forall i, j :: 0 <= i < j < |out| ==> out[i] <= out[j] + AHEAD
  }

  lemma BoundedGrows(raws: seq<nat>, out: seq<nat>, r: nat)
    requires |out| < |raws| && Bounded(raws, out) && r <= raws[|out|] + AHEAD
    requires forall i :: 0 <= i < |out| ==> raws[i] <= raws[|out|]
    requires r == raws[|out|] || (out != [] && r >= out[|out| - 1])
    ensures Bounded(raws, out + [r])
  {
  }

  /** A whole run with a card that never goes back: every answer is at most AHEAD past the card, no answer is more
      than AHEAD below any earlier one, however often the clock restarts, and none is below an earlier one unless a
      call between them finds the estimate more than JUMP_DOWN past the card. */
  method Run(c: Clock, raws: seq<nat>, nows: seq<nat>) returns (out: seq<nat>)
    requires c.Valid() && !c.valid && |raws| == |nows|
    requires forall i, j :: 0 <= i < j < |raws| ==> raws[i] <= raws[j]
    modifies c
    ensures |out| == |raws|
    ensures Regular(raws, nows, out)
  {
    out := [];
    for k := 0 to |raws|
      invariant c.Valid() && |out| == k && (k == 0 ==> !c.valid)
      invariant k > 0 ==> c.valid && c.card == raws[k - 1] && out[k - 1] == c.last
      invariant k > 0 ==> c.us == nows[k - 1] && c.est == Estimate(raws, nows, k)
      invariant Regular(raws, nows, out)
    {
      var r := Ask(c, raws, nows, k);
      RunGrows(raws, nows, out, r);
      out := out + [r];
    }
  }

  /** What holds of the answers of a run. */
  ghost predicate Regular(raws: seq<nat>, nows: seq<nat>, out: seq<nat>)
    requires |out| <= |raws| == |nows|
  {
    Bounded(raws, out) && Forward(raws, nows, out) && AllAnswer(raws, nows, out)
  }

  /** The answer to call `k` after `last`. */
  ghost predicate NextAnswer(raws: seq<nat>, nows: seq<nat>, k: nat, last: nat, r: nat)
    requires k < |raws| == |nows|
  {
    && r <= raws[k] + AHEAD && (k > 0 && !DropsBack(raws, nows, k) ==> last <= r)
    && r == if Restarts(raws, nows, k) then raws[k]
            else Max(last, Min(Estimate(raws, nows, k + 1) / 256, raws[k] + AHEAD))
  }

  lemma RunGrows(raws: seq<nat>, nows: seq<nat>, out: seq<nat>, r: nat)
    requires |out| < |raws| == |nows| && Regular(raws, nows, out)
    requires forall i :: 0 <= i < |out| ==> raws[i] <= raws[|out|]
    requires NextAnswer(raws, nows, |out|, if out == [] then 0 else out[|out| - 1], r)
    ensures Regular(raws, nows, out + [r])
  {
    BoundedGrows(raws, out, r);
    ForwardGrows(raws, nows, out, r);
    AnswersGrow(raws, nows, out, r);
  }

  lemma AnswersGrow(raws: seq<nat>, nows: seq<nat>, out: seq<nat>, r: nat)
    requires |out| < |raws| == |nows| && AllAnswer(raws, nows, out)
    requires var k := |out|;
             r == if Restarts(raws, nows, k) then raws[k]
                  else Max(out[k - 1], Min(Estimate(raws, nows, k + 1) / 256, raws[k] + AHEAD))
    ensures AllAnswer(raws, nows, out + [r])
  {
    forall i | 0 <= i < |out + [r]|
      ensures Answers(raws, nows, out + [r], i)
    {
      if i < |out| { assert Answers(raws, nows, out, i); }
    }
  }

  /** Call `k` of a run. */
  method Ask(c: Clock, raws: seq<nat>, nows: seq<nat>, k: nat) returns (r: nat)
    requires k < |raws| == |nows| && c.Valid() && (k == 0 ==> !c.valid)
    requires k > 0 ==> c.valid && c.card == raws[k - 1] <= raws[k] && c.us == nows[k - 1]
                       && c.est == Estimate(raws, nows, k)
    modifies c
    ensures c.Valid() && c.valid && c.card == raws[k] && c.us == nows[k] && c.est == Estimate(raws, nows, k + 1)
    ensures r == c.last && NextAnswer(raws, nows, k, if k == 0 then 0 else old(c.last), r)
  {
    r := c.Smooth(raws[k], nows[k]);
  }
}
