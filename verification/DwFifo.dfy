/** The controller's receive FIFO beside the driver's accesses: how far the limit on reads in flight keeps it from
    overflowing when the status register announces bytes that are not there. */
module DwFifo {
  import opened Dwi2c
  import opened DwPump
  import opened DwMaster

  predicate IsPop(a: Access) { a.Rd? && a.reg == R_DATA }

  /** A status read that announces a byte. */
  predicate Announces(a: Access) { a.Rd? && a.reg == R_STATUS && RxNotEmpty(a.v) }

  /** Bytes arrived before access `n`. */
  ghost function Came(arrive: seq<nat>, n: nat): (t: nat)
    requires n <= |arrive|
  {
    if n == 0 then 0 else Came(arrive, n - 1) + arrive[n - 1]
  }

  /** Bytes held at access `k`: what was left, and what arrived since. */
  function Held(arrive: seq<nat>, level: seq<nat>, k: nat): (n: nat)
    requires k < |arrive| && k < |level|
  {
    level[k] + arrive[k]
  }

  /** A FIFO beside a log, empty at first: `arrive[k]` bytes come in just before access `k`, none without a
      read command already out, and a pop takes one byte when there is one. */
  ghost predicate Fifo(log: seq<Access>, arrive: seq<nat>, level: seq<nat>)
  {
    && |arrive| == |log| && |level| == |log| + 1 && level[0] == 0
    && (forall k :: 0 <= k < |log| ==> Came(arrive, k + 1) <= ReadsIn(Commands(log[..k])))
    && (forall k :: 0 <= k < |log| ==>
          level[k + 1] == Held(arrive, level, k) - (if IsPop(log[k]) && Held(arrive, level, k) > 0 then 1 else 0))
  }

  /** Pops before access `n` that found nothing. */
  ghost function EmptyPops(log: seq<Access>, arrive: seq<nat>, level: seq<nat>, n: nat): (e: nat)
    requires |arrive| == |log| && |level| == |log| + 1 && n <= |log|
  {
    if n == 0 then 0
    else EmptyPops(log, arrive, level, n - 1)
         + (if IsPop(log[n - 1]) && Held(arrive, level, n - 1) == 0 then 1 else 0)
  }

  /** Status reads before access `n` that announced a byte the FIFO did not hold. */
  ghost function Lies(log: seq<Access>, arrive: seq<nat>, level: seq<nat>, n: nat): (e: nat)
    requires |arrive| == |log| && |level| == |log| + 1 && n <= |log|
  {
    if n == 0 then 0
    else Lies(log, arrive, level, n - 1)
         + (if Announces(log[n - 1]) && Held(arrive, level, n - 1) == 0 then 1 else 0)
  }

  /** At no access does the FIFO hold more than `depth` bytes. */
  ghost predicate NeverOverflows(arrive: seq<nat>, level: seq<nat>, depth: int)
    requires |level| == |arrive| + 1
  {
    forall k :: 0 <= k < |arrive| ==> Held(arrive, level, k) <= depth
  }

  // ---- how much it can hold ----

  /** The FIFO holds what came less what was popped, and one more for each pop that found nothing. */
  lemma {:induction false} LevelIsBalance(log: seq<Access>, arrive: seq<nat>, level: seq<nat>, n: nat)
    requires n <= |log| && Fifo(log, arrive, level)
    ensures level[n] == Came(arrive, n) - |Popped(log[..n])| + EmptyPops(log, arrive, level, n)
  {
    if n > 0 {
      LevelIsBalance(log, arrive, level, n - 1);
      assert log[..n] == log[..n - 1] + [log[n - 1]];
      LogStep(log[..n - 1], log[n - 1]);
    }
  }

  /** With at most `limit` reads in flight it never holds more than that, and one more for each such pop. */
  lemma HeldIsBounded(log: seq<Access>, arrive: seq<nat>, level: seq<nat>, limit: int, k: nat)
    requires Fifo(log, arrive, level) && NeverExceeds(log, limit) && k < |log|
    ensures Held(arrive, level, k) <= limit + EmptyPops(log, arrive, level, k)
  {
    LevelIsBalance(log, arrive, level, k);
    assert Outstanding(log[..k]) <= limit;
  }

  lemma {:induction false} CountsGrow(log: seq<Access>, arrive: seq<nat>, level: seq<nat>, k: nat, n: nat)
    requires |arrive| == |log| && |level| == |log| + 1 && k <= n <= |log|
    ensures EmptyPops(log, arrive, level, k) <= EmptyPops(log, arrive, level, n)
    ensures Lies(log, arrive, level, k) <= Lies(log, arrive, level, n)
  {
    if k < n { CountsGrow(log, arrive, level, k, n - 1); }
  }

  /** The driver pops only right after a status read that announces a byte, so an empty pop was lied to. */
  lemma {:induction false} EmptyPopsAreLies(log: seq<Access>, arrive: seq<nat>, level: seq<nat>, n: nat)
    requires Fifo(log, arrive, level) && Polled(log) && n <= |log|
    ensures EmptyPops(log, arrive, level, n) <= Lies(log, arrive, level, if n == 0 then 0 else n - 1)
  {
    if n > 0 {
      EmptyPopsAreLies(log, arrive, level, n - 1);
      if IsPop(log[n - 1]) && Held(arrive, level, n - 1) == 0 {
        assert Admitted(log[n - 2], log[n - 1]);
        assert level[n - 1] == Held(arrive, level, n - 2);
      } else if n > 1 {
        CountsGrow(log, arrive, level, n - 2, n - 1);
      }
    }
  }

  /** Whatever a transfer does and however it ends: `n` lies cost at most `n` places of the FIFO. */
  lemma LiesCostPlaces(log: seq<Access>, w: seq<nat>, rl: nat, depth: int, arrive: seq<nat>, level: seq<nat>)
    requires 2 <= depth && Disciplined(log, w, rl, Limit(depth)) && Fifo(log, arrive, level)
    ensures NeverOverflows(arrive, level, depth - 1 + EmptyPops(log, arrive, level, |log|))
    ensures EmptyPops(log, arrive, level, |log|) <= Lies(log, arrive, level, |log|)
  {
    forall k: nat | k < |arrive|
      ensures Held(arrive, level, k) <= depth - 1 + EmptyPops(log, arrive, level, |log|)
    {
      HeldIsBounded(log, arrive, level, Limit(depth), k);
      CountsGrow(log, arrive, level, k, |log|);
    }
    EmptyPopsAreLies(log, arrive, level, |log|);
    if log != [] { CountsGrow(log, arrive, level, |log| - 1, |log|); }
  }

  /** A status register that lies at most once never lets the FIFO overflow; a truthful one leaves it a place to
      spare. */
  lemma FifoNeverOverflows(log: seq<Access>, w: seq<nat>, rl: nat, depth: int, arrive: seq<nat>, level: seq<nat>)
    requires 2 <= depth && Disciplined(log, w, rl, Limit(depth)) && Fifo(log, arrive, level)
    requires Lies(log, arrive, level, |log|) <= 1
    ensures NeverOverflows(arrive, level, depth - 1 + Lies(log, arrive, level, |log|))
    ensures NeverOverflows(arrive, level, depth)
  {
    LiesCostPlaces(log, w, rl, depth, arrive, level);
  }

  // ---- a status register that lies twice ----

  /** Announcements in a log. */
  ghost function Announced(log: seq<Access>): (n: nat)
  {
    if log == [] then 0 else Announced(log[..|log| - 1]) + (if Announces(log[|log| - 1]) then 1 else 0)
  }

  lemma AnnouncedStep(log: seq<Access>, a: Access)
    ensures Announced(log + [a]) == Announced(log) + if Announces(a) then 1 else 0
  {
    assert (log + [a])[..|log|] == log;
  }

  /** The bytes all arrive before the last access: nothing before it. */
  function Late(n: nat, bytes: nat): (arrive: seq<nat>)
    requires n > 0
    ensures |arrive| == n && arrive[n - 1] == bytes && forall k :: 0 <= k < n - 1 ==> arrive[k] == 0
  {
    seq(n - 1, _ => 0) + [bytes]
  }

  function LateLevel(n: nat, bytes: nat): (level: seq<nat>)
    requires n > 0
    ensures |level| == n + 1 && level[n] == bytes && forall k :: 0 <= k < n ==> level[k] == 0
  {
    seq(n, _ => 0) + [bytes]
  }

  lemma {:induction false} NothingCame(n: nat, bytes: nat, k: nat)
    requires k < n
    ensures Came(Late(n, bytes), k) == 0
  {
    if k > 0 { NothingCame(n, bytes, k - 1); }
  }

  /** Bytes no more than the reads out, all late, behind a status read: a FIFO the pops never touch. */
  lemma LateFifo(log: seq<Access>, bytes: nat)
    requires |log| > 0 && !IsPop(log[|log| - 1]) && bytes <= ReadsIn(Commands(log[..|log| - 1]))
    ensures Fifo(log, Late(|log|, bytes), LateLevel(|log|, bytes))
  {
    var n := |log|;
    var arrive, level := Late(n, bytes), LateLevel(n, bytes);
    forall k: nat | k < n
      ensures Came(arrive, k + 1) <= ReadsIn(Commands(log[..k]))
    {
      NothingCame(n, bytes, k);
    }
  }

  /** Beside it every pop before the last access is empty and every announcement a lie. */
  lemma {:induction false} LateCounts(log: seq<Access>, bytes: nat, n: nat)
    requires n < |log|
    ensures EmptyPops(log, Late(|log|, bytes), LateLevel(|log|, bytes), n) == |Popped(log[..n])|
    ensures Lies(log, Late(|log|, bytes), LateLevel(|log|, bytes), n) == Announced(log[..n])
  {
    if n > 0 {
      LateCounts(log, bytes, n - 1);
      assert log[..n] == log[..n - 1] + [log[n - 1]];
      LogStep(log[..n - 1], log[n - 1]);
      AnnouncedStep(log[..n - 1], log[n - 1]);
    }
  }

  /** The register answers: a controller of `depth` places that is set up and opened, then announces two bytes after
      the first read command that are not there, and has room for more commands ever after. */
  function Lie(depth: nat): (env: nat -> nat)
    requires depth > 0
  {
    c => if c == 1 then (depth - 1) * 256 else if c == 4 then 1 else if c == 10 || c == 12 then 8
         else if c == 9 || c == 14 || c >= 16 then 2 else 0
  }

  /** A transfer that reads one byte more than the FIFO holds. */
  ghost function Deceived(depth: nat): (j: Job)
    requires depth > 0
  {
    Job(Lie(depth), [], depth + 1, Limit(depth))
  }

  lemma FirstLook(depth: nat, s: Loop)
    requires 2 <= depth && s == Loop(Trail([], 8), 0, [], 0, RUNNING, 0)
    ensures var h := Looked(Deceived(depth), s);
            h.txi == 0 && h.got == [] && h.st == 2 && h.t.count == 10 && Announced(h.t.log) == 0
  {
    LookAnnounces(Deceived(depth), s);
    assert Announced([]) == 0;
  }

  lemma FirstFeed(depth: nat, h: Half)
    requires 2 <= depth && h.txi == 0 && h.got == [] && h.st == 2 && h.t.count == 10
    ensures var r := Feed(Deceived(depth), h);
            && r.txi == 1 && r.got == [] && r.st == 8 && r.t.count == 11
            && Announced(r.t.log) == Announced(h.t.log) + 1
  {
    var j := Deceived(depth);
    var h' := Send(j, h);
    SendAnnounces(j, h);
    assert MaySend(j, h) && !MaySend(j, h') && Feed(j, h') == h';
  }

  lemma SecondTake(depth: nat, h: Half)
    requires 2 <= depth && h.got == [0] && h.st == 8 && h.t.count == 13
    ensures var r := Fetch(Deceived(depth), h);
            r.got == [0, 0] && r.st == 2 && r.t.count == 15 && Announced(r.t.log) == Announced(h.t.log)
  {
    var j := Deceived(depth);
    var h' := Take(j, h);
    TakeAnnounces(j, h);
    assert MayTake(j, h) && !MayTake(j, h') && Fetch(j, h') == h';
  }

  lemma FirstFetch(depth: nat, h: Half)
    requires 2 <= depth && h.got == [] && h.st == 8 && h.t.count == 11
    ensures var r := Fetch(Deceived(depth), h);
            r.got == [0, 0] && r.st == 2 && r.t.count == 15 && Announced(r.t.log) == Announced(h.t.log) + 1
  {
    var j := Deceived(depth);
    TakeAnnounces(j, h);
    assert MayTake(j, h);
    SecondTake(depth, Take(j, h));
  }

  /** Its first round: a command, and two pops that find nothing. */
  lemma FirstRound(depth: nat, s: Loop)
    requires 2 <= depth && s == Loop(Trail([], 8), 0, [], 0, RUNNING, 0)
    ensures var r := Round(Deceived(depth), s);
            && r.code == RUNNING && r.txi == 1 && r.got == [0, 0] && r.t.count == 15 && Announced(r.t.log) == 2
  {
    var j := Deceived(depth);
    FirstLook(depth, s);
    FirstFeed(depth, Looked(j, s));
    FirstFetch(depth, Feed(j, Looked(j, s)));
  }

  lemma LookAnnounces(j: Job, s: Loop)
    ensures Announced(Looked(j, s).t.log) == Announced(s.t.log) + if RxNotEmpty(Looked(j, s).st) then 1 else 0
  {
    AnnouncedStep(s.t.log, Rd(R_RAW_INTR, Reg(j.env, s.t.count)));
    AnnouncedStep(Asked(j.env, s.t, R_RAW_INTR).log, Rd(R_STATUS, Reg(j.env, s.t.count + 1)));
  }

  lemma SendAnnounces(j: Job, h: Half)
    requires h.txi < j.Total()
    ensures Announced(Send(j, h).t.log) == Announced(h.t.log) + if RxNotEmpty(Send(j, h).st) then 1 else 0
  {
    AnnouncedStep(h.t.log, Wr(R_DATA, Command(j.w, j.rl, h.txi)));
    AnnouncedStep(Told(h.t, R_DATA, Command(j.w, j.rl, h.txi)).log, Rd(R_STATUS, Reg(j.env, h.t.count)));
  }

  lemma TakeAnnounces(j: Job, h: Half)
    ensures Announced(Take(j, h).t.log) == Announced(h.t.log) + if RxNotEmpty(Take(j, h).st) then 1 else 0
  {
    AnnouncedStep(h.t.log, Rd(R_DATA, Reg(j.env, h.t.count)));
    AnnouncedStep(Asked(j.env, h.t, R_DATA).log, Rd(R_STATUS, Reg(j.env, h.t.count + 1)));
  }

  /** From then on every command left goes out. */
  lemma {:induction false} AllGoOut(depth: nat, h: Half)
    requires 2 <= depth && h.st == 2 && h.got == [0, 0] && h.t.count >= 16 && h.txi <= depth + 1
    requires JustPolled(h.t.log, 2)
    ensures var r := Feed(Deceived(depth), h);
            r.txi == depth + 1 && r.st == 2 && Announced(r.t.log) == Announced(h.t.log) && JustPolled(r.t.log, 2)
    decreases depth + 1 - h.txi
  {
    var j := Deceived(depth);
    if h.txi < depth + 1 {
      assert MaySend(j, h);
      SendAnnounces(j, h);
      AllGoOut(depth, Send(j, h));
    }
  }

  lemma SecondLook(depth: nat, s: Loop)
    requires 2 <= depth && s.t.count == 15
    ensures var h := Looked(Deceived(depth), s);
            && h.txi == s.txi && h.got == s.got && h.st == 2 && h.t.count == 17 && JustPolled(h.t.log, 2)
            && Announced(h.t.log) == Announced(s.t.log)
  {
    LookAnnounces(Deceived(depth), s);
  }

  lemma SecondRound(depth: nat, s: Loop)
    requires 2 <= depth && s.Runs(Deceived(depth)) && s.got == [0, 0] && s.t.count == 15 && s.txi == 1
    ensures var r := Round(Deceived(depth), s);
            && r.code == RUNNING && r.txi == depth + 1 && r.got == [0, 0] && Announced(r.t.log) == Announced(s.t.log)
            && JustPolled(r.t.log, 2)
  {
    SecondLook(depth, s);
    AllGoOut(depth, Looked(Deceived(depth), s));
  }

  /** The accesses of both rounds. */
  ghost function TwoRounds(depth: nat): (log: seq<Access>)
    requires 2 <= depth
  {
    var j, s := Deceived(depth), Loop(Trail([], 8), 0, [], 0, RUNNING, 0);
    FirstRound(depth, s);
    Round(j, Round(j, s)).t.log
  }

  /** They are the first accesses of the transfer. */
  lemma TransferDeceived(depth: nat)
    requires 2 <= depth
    ensures TwoRounds(depth) <= Transacted(Deceived(depth), 8).t.log
    ensures Progress(TwoRounds(depth), [], depth + 1, depth + 1, [0, 0], Limit(depth))
    ensures Announced(TwoRounds(depth)) == 2 && JustPolled(TwoRounds(depth), 2)
  {
    var j, s := Deceived(depth), Loop(Trail([], 8), 0, [], 0, RUNNING, 0);
    FirstRound(depth, s);
    var s1 := Round(j, s);
    SecondRound(depth, s1);
    ProgressStarts([], depth + 1, j.limit);
    RoundKeeps(j, s);
    RoundKeeps(j, s1);
    PumpExtends(j, Round(j, s1));
    assert Transfer(j, 8) == Pump(j, s1) == Pump(j, Round(j, s1));
    TransactedIsFine(j, 8);
  }

  /** Two lies are enough: late bytes for every read out do not fit. */
  lemma TwoLiesOverflow(depth: nat) returns (arrive: seq<nat>, level: seq<nat>)
    requires 2 <= depth
    ensures var log := TwoRounds(depth);
            && Fifo(log, arrive, level) && !NeverOverflows(arrive, level, depth)
            && EmptyPops(log, arrive, level, |log|) == 2 == Lies(log, arrive, level, |log|)
  {
    TransferDeceived(depth);
    arrive, level := LateOverflow(TwoRounds(depth), depth);
  }

  lemma LateOverflow(log: seq<Access>, depth: nat) returns (arrive: seq<nat>, level: seq<nat>)
    requires Progress(log, [], depth + 1, depth + 1, [0, 0], Limit(depth)) && JustPolled(log, 2) && Announced(log) == 2
    ensures Fifo(log, arrive, level) && !NeverOverflows(arrive, level, depth)
    ensures EmptyPops(log, arrive, level, |log|) == 2 == Lies(log, arrive, level, |log|)
  {
    var n := |log|;
    arrive, level := Late(n, depth + 1), LateLevel(n, depth + 1);
    LastIsStatus(log, depth);
    LateFifo(log, depth + 1);
    LateCounts(log, depth + 1, n - 1);
    assert Held(arrive, level, n - 1) == depth + 1;
  }

  lemma LastIsStatus(log: seq<Access>, depth: nat)
    requires Progress(log, [], depth + 1, depth + 1, [0, 0], Limit(depth)) && JustPolled(log, 2)
    ensures var before := log[..|log| - 1];
            && ReadsIn(Commands(before)) == depth + 1 && |Popped(before)| == 2 && Announced(before) == Announced(log)
  {
    var before, a := log[..|log| - 1], log[|log| - 1];
    assert before + [a] == log;
    ReadsInSequence([], depth + 1, depth + 1);
    LogStep(before, a);
    AnnouncedStep(before, a);
  }

  // ---- the exact condition ----

  /** Accesses a transfer has made at some moment, on a controller of `depth` places that answers anything. */
  ghost predicate Reached(log: seq<Access>, depth: int)
  {
    exists j: Job, c: nat :: Bytes(j.w) && j.limit == Limit(depth) && log <= Transacted(j, c).t.log
  }

  ghost predicate SafeWithLies(depth: int, n: nat)
  {
    forall log, arrive, level ::
      (Reached(log, depth) && Fifo(log, arrive, level) && Lies(log, arrive, level, |log|) <= n) ==>
        NeverOverflows(arrive, level, depth)
  }

  ghost predicate SafeWithEmptyPops(depth: int, n: nat)
  {
    forall log, arrive, level ::
      (Reached(log, depth) && Fifo(log, arrive, level) && EmptyPops(log, arrive, level, |log|) <= n) ==>
        NeverOverflows(arrive, level, depth)
  }

  lemma PrefixNeverExceeds(log: seq<Access>, all: seq<Access>, limit: int)
    requires log <= all && NeverExceeds(all, limit)
    ensures NeverExceeds(log, limit)
  {
    forall k | 0 <= k <= |log|
      ensures Outstanding(log[..k]) <= limit
    {
      assert log[..k] == all[..k];
    }
  }

  lemma PrefixPolled(log: seq<Access>, all: seq<Access>)
    requires log <= all && Polled(all)
    ensures Polled(log)
  {
    assert forall k :: 0 <= k < |log| ==> log[k] == all[k];
  }

  lemma ReachedIsSafe(log: seq<Access>, depth: int, arrive: seq<nat>, level: seq<nat>)
    requires 2 <= depth && Reached(log, depth) && Fifo(log, arrive, level)
    requires EmptyPops(log, arrive, level, |log|) <= 1
    ensures NeverOverflows(arrive, level, depth)
  {
    var j: Job, c: nat :| Bytes(j.w) && j.limit == Limit(depth) && log <= Transacted(j, c).t.log;
    TransactedIsFine(j, c);
    PrefixNeverExceeds(log, Transacted(j, c).t.log, Limit(depth));
    forall k: nat | k < |arrive|
      ensures Held(arrive, level, k) <= depth
    {
      HeldIsBounded(log, arrive, level, Limit(depth), k);
      CountsGrow(log, arrive, level, k, |log|);
    }
  }

  lemma ReachedIsPolled(log: seq<Access>, depth: int)
    requires 2 <= depth && Reached(log, depth)
    ensures Polled(log)
  {
    var j: Job, c: nat :| Bytes(j.w) && j.limit == Limit(depth) && log <= Transacted(j, c).t.log;
    TransactedIsFine(j, c);
    PrefixPolled(log, Transacted(j, c).t.log);
  }

  /** At every depth, over every transfer, every answer of the registers and every FIFO: one empty pop, or one false
      "not empty", is harmless, and two are not. */
  lemma OneLieIsHarmless(depth: nat, n: nat)
    requires 2 <= depth
    ensures SafeWithEmptyPops(depth, n) <==> n <= 1
    ensures SafeWithLies(depth, n) <==> n <= 1
  {
    if n <= 1 {
      forall log, arrive, level | Reached(log, depth) && Fifo(log, arrive, level)
        ensures EmptyPops(log, arrive, level, |log|) <= n ==> NeverOverflows(arrive, level, depth)
        ensures Lies(log, arrive, level, |log|) <= n ==> NeverOverflows(arrive, level, depth)
      {
        OneIsHarmless(log, depth, arrive, level);
      }
    } else {
      var arrive, level := TwoLiesOverflow(depth);
      TransferDeceived(depth);
      assert Reached(TwoRounds(depth), depth) by {
        var j := Deceived(depth);
        assert Bytes(j.w) && j.limit == Limit(depth) && TwoRounds(depth) <= Transacted(j, 8).t.log;
      }
    }
  }

  lemma OneIsHarmless(log: seq<Access>, depth: int, arrive: seq<nat>, level: seq<nat>)
    requires 2 <= depth && Reached(log, depth) && Fifo(log, arrive, level)
    ensures EmptyPops(log, arrive, level, |log|) <= 1 ==> NeverOverflows(arrive, level, depth)
    ensures Lies(log, arrive, level, |log|) <= 1 ==> NeverOverflows(arrive, level, depth)
  {
    ReachedIsPolled(log, depth);
    EmptyPopsAreLies(log, arrive, level, |log|);
    if log != [] { CountsGrow(log, arrive, level, |log| - 1, |log|); }
    if EmptyPops(log, arrive, level, |log|) <= 1 { ReachedIsSafe(log, depth, arrive, level); }
  }

  // ---- the driver itself, deceived ----

  lemma WaitHits(env: nat -> nat, want: nat, w: Watch)
    requires w.left > 0 && Reg(env, w.t.count) % 2 == want
    ensures Waited(env, want, w) == Phase(true, Asked(env, w.t, R_ENABLE_STATUS))
  {
  }

  lemma DrainStops(env: nat -> nat, w: Watch)
    requires w.left > 0 && !RxNotEmpty(Reg(env, w.t.count))
    ensures Drained(env, w) == Asked(env, w.t, R_STATUS)
  {
  }

  lemma LieSetsUp(depth: nat)
    requires 2 <= depth <= 256
    ensures var off := Switched(Lie(depth), 0, Trail([], 0));
            off.ok && off.t.count == 1 && RxDepth(Reg(Lie(depth), 1)) == depth
  {
    WaitHits(Lie(depth), 0, Watch(Told(Trail([], 0), R_ENABLE, 0), WAITS));
  }

  lemma LieOpens(depth: nat, target: int)
    requires depth > 0 && target != -1
    ensures var p := Opened(Lie(depth), -1, target, Trail([], 3));
            p.ok && p.t.count == 8
  {
    var env := Lie(depth);
    var t0 := Told(Trail([], 3), R_ENABLE, 0);
    WaitHits(env, 0, Watch(t0, WAITS));
    var t1 := Told(Told(Asked(env, t0, R_ENABLE_STATUS), R_TAR, target % 128), R_ENABLE, 1);
    WaitHits(env, 1, Watch(t1, WAITS));
    var t2 := Asked(env, Asked(env, Asked(env, t1, R_ENABLE_STATUS), R_CLR_TX_ABRT), R_CLR_INTR);
    DrainStops(env, Watch(t2, DRAINS));
  }

  method SetUpOnLies(depth: nat) returns (m: Master)
    requires 2 <= depth <= 256
    ensures fresh(m) && m.env == Lie(depth) && m.rxDepth == depth && m.addr == -1 && m.count == 3
  {
    m := new Master(Lie(depth));
    LieSetsUp(depth);
    var _ := m.Setup(false);
  }

  method Deceive(m: Master, depth: nat, target: int) returns (ghost start: nat)
    requires 2 <= depth && m.env == Lie(depth) && m.rxDepth == depth && m.addr == -1 && m.count == 3 && target != -1
    modifies m
    ensures m.rxDepth == depth && start <= |m.log| && m.log[start..] == Transacted(Deceived(depth), 8).t.log
  {
    LieOpens(depth, target);
    var buf := new nat[depth + 1];
    var w: seq<nat> := [];
    var code;
    code, start := m.Xfer(target, w, 0, buf, depth + 1);
    assert w[..0] == [];
  }

  /** At every depth a controller can have, the driver, set up on such registers and asked for one byte more than the
      FIFO holds, makes accesses beside which the FIFO must hold more than it can. */
  method FalseStatusOverflows(depth: nat, target: int)
    returns (m: Master, ghost start: nat, ghost arrive: seq<nat>, ghost level: seq<nat>)
    requires 2 <= depth <= 256 && target != -1
    ensures fresh(m) && m.rxDepth == depth && start <= |m.log| && TwoRounds(depth) <= m.log[start..]
    ensures Fifo(TwoRounds(depth), arrive, level) && !NeverOverflows(arrive, level, depth)
  {
    m := SetUpOnLies(depth);
    start := Deceive(m, depth, target);
    TransferDeceived(depth);
    arrive, level := TwoLiesOverflow(depth);
  }
}
