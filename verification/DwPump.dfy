/** A transfer's accesses as a function of what the registers answer, read by read. */
module DwPump {
  import opened Dwi2c

  const WAITS := 200
  const DRAINS := 256
  const IDLE := 20000
  const SETTLES := 5000
  const DEAD := 0xFFFF_FFFF

  /** The answer to register read number `c`. */
  function Reg(env: nat -> nat, c: nat): (v: nat)
    ensures v < 0x1_0000_0000
  {
    env(c) % 0x1_0000_0000
  }

  /** Accesses made, and the number of the next read. */
  datatype Trail = Trail(log: seq<Access>, count: nat)

  /** A register is read. */
  ghost function Asked(env: nat -> nat, t: Trail, reg: nat): (r: Trail)
    ensures t.log <= r.log
  {
    Trail(t.log + [Rd(reg, Reg(env, t.count))], t.count + 1)
  }

  /** A register is written. */
  ghost function Told(t: Trail, reg: nat, v: nat): (r: Trail)
    ensures t.log <= r.log
  {
    t.(log := t.log + [Wr(reg, v)])
  }

  /** A trail with a bound on what may still be tried. */
  datatype Watch = Watch(t: Trail, left: nat)

  /** What is left in the receive FIFO is popped. */
  ghost function Drained(env: nat -> nat, w: Watch): (r: Trail)
    ensures w.t.log <= r.log
    decreases w.left
  {
    if w.left == 0 then w.t
    else
      var polled := Asked(env, w.t, R_STATUS);
      if RxNotEmpty(Reg(env, w.t.count)) then Drained(env, Watch(Asked(env, polled, R_DATA), w.left - 1)) else polled
  }

  /** Pending interrupts are cleared and the receive FIFO is drained. */
  ghost function Cleared(env: nat -> nat, t: Trail): (r: Trail)
    ensures t.log <= r.log
  {
    Drained(env, Watch(Asked(env, Asked(env, t, R_CLR_TX_ABRT), R_CLR_INTR), DRAINS))
  }

  // ---- before the transfer ----

  /** Whether a stretch of accesses succeeded. */
  datatype Phase = Phase(ok: bool, t: Trail)

  /** The enable status is read until it is `want`. */
  ghost function Waited(env: nat -> nat, want: nat, w: Watch): (p: Phase)
    decreases w.left
  {
    if w.left == 0 then Phase(false, w.t)
    else
      var t := Asked(env, w.t, R_ENABLE_STATUS);
      if Reg(env, w.t.count) % 2 == want then Phase(true, t) else Waited(env, want, Watch(t, w.left - 1))
  }

  /** The controller is switched on or off. */
  ghost function Switched(env: nat -> nat, on: nat, t: Trail): (p: Phase)
  {
    Waited(env, on, Watch(Told(t, R_ENABLE, on), WAITS))
  }

  /** A new target is selected, with the controller off. */
  ghost function Targeted(env: nat -> nat, addr: int, target: int, t: Trail): (p: Phase)
  {
    if target == addr then Phase(true, t)
    else
      var off := Switched(env, 0, t);
      if off.ok then Phase(true, Told(off.t, R_TAR, target % 128)) else off
  }

  /** The controller is switched on and what an earlier transfer left is cleared. */
  ghost function Opened(env: nat -> nat, addr: int, target: int, t: Trail): (p: Phase)
  {
    var off := Targeted(env, addr, target, t);
    if !off.ok then off
    else
      var on := Switched(env, 1, off.t);
      if on.ok then Phase(true, Cleared(env, on.t)) else on
  }

  // ---- half rounds ----

  /** A transfer: the answers, the bytes to write, the number to read, and the reads allowed in flight. */
  datatype Job = Job(env: nat -> nat, w: seq<nat>, rl: nat, limit: int)
  {
    function Total(): (n: nat) { |w| + rl }
  }

  /** Accesses so far, commands out, bytes in and the status read last. */
  datatype Half = Half(t: Trail, txi: nat, got: seq<nat>, st: nat)

  /** Whether the driver sends the next command. */
  ghost predicate MaySend(j: Job, h: Half)
  {
    h.txi < j.Total() && TxNotFull(h.st) && (h.txi < |j.w| || h.txi - |j.w| - |h.got| < j.limit)
  }

  ghost function Send(j: Job, h: Half): (r: Half)
    requires h.txi < j.Total()
  {
    var sent := Told(h.t, R_DATA, Command(j.w, j.rl, h.txi));
    h.(t := Asked(j.env, sent, R_STATUS), txi := h.txi + 1, st := Reg(j.env, sent.count))
  }

  /** The transmit half of a round: commands until one may not be sent. */
  ghost function Feed(j: Job, h: Half): (r: Half)
    requires h.txi <= j.Total()
    ensures h.txi <= r.txi <= j.Total() && r.got == h.got && !MaySend(j, r)
    decreases j.Total() - h.txi
  {
    if MaySend(j, h) then Feed(j, Send(j, h)) else h
  }

  /** Whether the driver takes a byte next. */
  ghost predicate MayTake(j: Job, h: Half) { |h.got| < j.rl && RxNotEmpty(h.st) }

  ghost function Take(j: Job, h: Half): (r: Half)
  {
    var taken := Asked(j.env, h.t, R_DATA);
    h.(t := Asked(j.env, taken, R_STATUS), got := h.got + [Reg(j.env, h.t.count) % 256],
       st := Reg(j.env, taken.count))
  }

  /** The receive half: bytes until all are in or none is announced. */
  ghost function Fetch(j: Job, h: Half): (r: Half)
    requires |h.got| <= j.rl
    ensures h.got <= r.got && |r.got| <= j.rl && r.txi == h.txi && !MayTake(j, r)
    decreases j.rl - |h.got|
  {
    if MayTake(j, h) then Fetch(j, Take(j, h)) else h
  }

  // ---- the loop ----

  const RUNNING := 1

  /** The loop's state: accesses so far, commands out, bytes in, rounds without progress and, once it is over, the
      return code and an abort's source. */
  datatype Loop = Loop(t: Trail, txi: nat, got: seq<nat>, idle: nat, code: int, abort: nat)
  {
    ghost predicate Runs(j: Job) { code == RUNNING && txi <= j.Total() && |got| <= j.rl && idle <= IDLE }
  }

  /** An abort's source is read and everything cleared. */
  ghost function AbortTaken(env: nat -> nat, t: Trail): (r: Trail)
    ensures t.log <= r.log
  {
    Cleared(env, Asked(env, t, R_ABRT_SRC))
  }

  ghost function Aborted(j: Job, s: Loop): (r: Loop)
  {
    var t := Asked(j.env, s.t, R_RAW_INTR);
    s.(t := AbortTaken(j.env, t), code := -2, abort := Reg(j.env, t.count))
  }

  /** The interrupts and the status are read. */
  ghost function Looked(j: Job, s: Loop): (h: Half)
  {
    var t := Asked(j.env, s.t, R_RAW_INTR);
    Half(Asked(j.env, t, R_STATUS), s.txi, s.got, Reg(j.env, t.count))
  }

  /** What a round's two halves leave: every command out and every byte in, or one more round, until too many in a row
      have moved nothing. */
  ghost function Judged(j: Job, s: Loop, h: Half): (r: Loop)
  {
    var idle := if h.txi == s.txi && |h.got| == |s.got| then s.idle + 1 else 0;
    var code := if |h.got| == j.rl && h.txi == j.Total() then 0 else if idle > IDLE then -1 else RUNNING;
    Loop(h.t, h.txi, h.got, idle, code, s.abort)
  }

  /** One round. */
  ghost function Round(j: Job, s: Loop): (r: Loop)
    requires s.Runs(j)
    ensures r.code != RUNNING || r.Runs(j)
    ensures s.txi <= r.txi && |s.got| <= |r.got|
    ensures r.txi > s.txi || |r.got| > |s.got| || r.idle > s.idle || r.code != RUNNING
  {
    if TxAborted(Reg(j.env, s.t.count)) then Aborted(j, s)
    else
      var h := Looked(j, s);
      if h.st == DEAD then s.(t := h.t, code := -1) else Judged(j, s, Fetch(j, Feed(j, h)))
  }

  /** Rounds until the loop is over. */
  ghost function Pump(j: Job, s: Loop): (r: Loop)
    requires s.code != RUNNING || s.Runs(j)
    ensures r.code != RUNNING
    decreases j.Total() - s.txi + j.rl - |s.got|, IDLE - s.idle, if s.code == RUNNING then 1 else 0
  {
    if s.code != RUNNING then s else Pump(j, Round(j, s))
  }

  /** The whole transfer, its first read being number `c`. */
  ghost function Transfer(j: Job, c: nat): (r: Loop) { Pump(j, Loop(Trail([], c), 0, [], 0, RUNNING, 0)) }

  // ---- after the transfer ----

  /** The bus is polled until it is idle or an abort shows. */
  ghost function Settled(env: nat -> nat, w: Watch): (r: Trail)
    decreases w.left
  {
    if w.left == 0 then w.t
    else
      var polled, st := Asked(env, w.t, R_STATUS), Reg(env, w.t.count);
      if TxEmpty(st) && !Activity(st) then polled
      else
        var looked := Asked(env, polled, R_RAW_INTR);
        if TxAborted(Reg(env, polled.count)) then looked else Settled(env, Watch(looked, w.left - 1))
  }

  /** After a transfer that went well: a late abort is still taken. */
  ghost function Closed(env: nat -> nat, s: Loop): (r: Loop)
  {
    var t := Settled(env, Watch(s.t, SETTLES));
    var looked := Asked(env, t, R_RAW_INTR);
    if TxAborted(Reg(env, t.count)) then
      s.(t := AbortTaken(env, looked), code := -2, abort := Reg(env, looked.count))
    else s.(t := looked)
  }

  // ---- nothing is sent before the transfer ----

  lemma {:induction false} DrainIsSilent(env: nat -> nat, w: Watch)
    requires Silent(w.t.log)
    ensures Silent(Drained(env, w).log)
    decreases w.left
  {
    if w.left > 0 && RxNotEmpty(Reg(env, w.t.count)) {
      DrainIsSilent(env, Watch(Asked(env, Asked(env, w.t, R_STATUS), R_DATA), w.left - 1));
    }
  }

  lemma {:induction false} WaitIsSilent(env: nat -> nat, want: nat, w: Watch)
    requires Silent(w.t.log)
    ensures Silent(Waited(env, want, w).t.log)
    decreases w.left
  {
    if w.left > 0 { WaitIsSilent(env, want, Watch(Asked(env, w.t, R_ENABLE_STATUS), w.left - 1)); }
  }

  lemma SwitchIsSilent(env: nat -> nat, on: nat, t: Trail)
    requires Silent(t.log)
    ensures Silent(Switched(env, on, t).t.log)
  {
    WaitIsSilent(env, on, Watch(Told(t, R_ENABLE, on), WAITS));
  }

  lemma ClearIsSilent(env: nat -> nat, t: Trail)
    requires Silent(t.log)
    ensures Silent(Cleared(env, t).log)
  {
    DrainIsSilent(env, Watch(Asked(env, Asked(env, t, R_CLR_TX_ABRT), R_CLR_INTR), DRAINS));
  }

  lemma OpenedIsSilent(env: nat -> nat, addr: int, target: int, t: Trail)
    requires Silent(t.log)
    ensures Silent(Opened(env, addr, target, t).t.log)
  {
    SwitchIsSilent(env, 0, t);
    var off := Targeted(env, addr, target, t);
    assert Silent(off.t.log);
    if off.ok {
      SwitchIsSilent(env, 1, off.t);
      ClearIsSilent(env, Switched(env, 1, off.t).t);
    }
  }

  // ---- what the accesses keep ----

  ghost predicate InOrder(j: Job, h: Half)
  {
    Progress(h.t.log, j.w, j.rl, h.txi, h.got, j.limit) && JustPolled(h.t.log, h.st)
  }

  lemma AskKeeps(j: Job, t: Trail, reg: nat, txi: nat, got: seq<nat>)
    requires Progress(t.log, j.w, j.rl, txi, got, j.limit) && reg != R_DATA
    ensures Progress(Asked(j.env, t, reg).log, j.w, j.rl, txi, got, j.limit)
  {
    OtherKeeps(t.log, Rd(reg, Reg(j.env, t.count)), j.w, j.rl, txi, got, j.limit);
  }

  lemma SendInOrder(j: Job, h: Half)
    requires InOrder(j, h) && MaySend(j, h) && Bytes(j.w) && 1 <= j.limit
    ensures InOrder(j, Send(j, h))
  {
    SendKeeps(h.t.log, h.st, j.w, j.rl, h.txi, h.got, j.limit);
    AskKeeps(j, Told(h.t, R_DATA, Command(j.w, j.rl, h.txi)), R_STATUS, h.txi + 1, h.got);
  }

  lemma TakeInOrder(j: Job, h: Half)
    requires InOrder(j, h) && MayTake(j, h)
    ensures InOrder(j, Take(j, h))
  {
    var b := Reg(j.env, h.t.count);
    TakeKeeps(h.t.log, h.st, b, j.w, j.rl, h.txi, h.got, j.limit);
    AskKeeps(j, Asked(j.env, h.t, R_DATA), R_STATUS, h.txi, h.got + [b % 256]);
  }

  lemma LookInOrder(j: Job, s: Loop)
    requires Progress(s.t.log, j.w, j.rl, s.txi, s.got, j.limit)
    ensures InOrder(j, Looked(j, s))
  {
    AskKeeps(j, s.t, R_RAW_INTR, s.txi, s.got);
    AskKeeps(j, Asked(j.env, s.t, R_RAW_INTR), R_STATUS, s.txi, s.got);
  }

  lemma {:induction false} FeedKeeps(j: Job, h: Half)
    requires InOrder(j, h) && Bytes(j.w) && 1 <= j.limit
    ensures InOrder(j, Feed(j, h))
    decreases j.Total() - h.txi
  {
    if MaySend(j, h) {
      SendInOrder(j, h);
      FeedKeeps(j, Send(j, h));
    }
  }

  lemma {:induction false} FetchKeeps(j: Job, h: Half)
    requires InOrder(j, h) && |h.got| <= j.rl
    ensures InOrder(j, Fetch(j, h))
    decreases j.rl - |h.got|
  {
    if MayTake(j, h) {
      TakeInOrder(j, h);
      FetchKeeps(j, Take(j, h));
    }
  }

  lemma PopKeeps(j: Job, t: Trail, txi: nat, got: seq<nat>) returns (b: nat)
    requires Progress(t.log, j.w, j.rl, txi, got, j.limit) && RxNotEmpty(Reg(j.env, t.count))
    ensures Progress(Asked(j.env, Asked(j.env, t, R_STATUS), R_DATA).log, j.w, j.rl, txi, got + [b], j.limit)
  {
    AskKeeps(j, t, R_STATUS, txi, got);
    var v := Reg(j.env, t.count + 1);
    TakeKeeps(Asked(j.env, t, R_STATUS).log, Reg(j.env, t.count), v, j.w, j.rl, txi, got, j.limit);
    b := v % 256;
  }

  lemma {:induction false} DrainKeeps(j: Job, w: Watch, txi: nat, got: seq<nat>)
    requires Progress(w.t.log, j.w, j.rl, txi, got, j.limit)
    ensures Disciplined(Drained(j.env, w).log, j.w, j.rl, j.limit)
    decreases w.left
  {
    if w.left > 0 {
      AskKeeps(j, w.t, R_STATUS, txi, got);
      if RxNotEmpty(Reg(j.env, w.t.count)) {
        var b := PopKeeps(j, w.t, txi, got);
        DrainKeeps(j, Watch(Asked(j.env, Asked(j.env, w.t, R_STATUS), R_DATA), w.left - 1), txi, got + [b]);
      }
    }
  }

  /** An abort shown by the read before ends the transfer in order, its source read right after. */
  lemma AbortKeeps(j: Job, t: Trail, txi: nat, got: seq<nat>)
    requires Progress(t.log, j.w, j.rl, txi, got, j.limit) && |t.log| > 0
    requires var a := t.log[|t.log| - 1]; a.Rd? && a.reg == R_RAW_INTR && TxAborted(a.v)
    ensures Disciplined(AbortTaken(j.env, t).log, j.w, j.rl, j.limit)
    ensures AbortSeen(AbortTaken(j.env, t).log, Reg(j.env, t.count))
  {
    var a := Asked(j.env, t, R_ABRT_SRC);
    var b := Asked(j.env, a, R_CLR_TX_ABRT);
    AskKeeps(j, t, R_ABRT_SRC, txi, got);
    AskKeeps(j, a, R_CLR_TX_ABRT, txi, got);
    AskKeeps(j, b, R_CLR_INTR, txi, got);
    DrainKeeps(j, Watch(Asked(j.env, b, R_CLR_INTR), DRAINS), txi, got);
    AbortIsSeen(t.log, AbortTaken(j.env, t).log, Reg(j.env, t.count));
  }

  lemma AbortIsSeen(log: seq<Access>, all: seq<Access>, source: nat)
    requires |log| > 0 && log + [Rd(R_ABRT_SRC, source)] <= all
    requires var a := log[|log| - 1]; a.Rd? && a.reg == R_RAW_INTR && TxAborted(a.v)
    ensures AbortSeen(all, source)
  {
    assert all[|log|] == Rd(R_ABRT_SRC, source) && all[|log| - 1] == log[|log| - 1];
  }

  /** What holds of the loop's state: accesses in order while it runs, complete on success, an abort's source read
      right after the abort. */
  ghost predicate Fine(j: Job, s: Loop)
  {
    && s.code in {RUNNING, 0, -1, -2}
    && (s.code == -2 ==> Disciplined(s.t.log, j.w, j.rl, j.limit) && AbortSeen(s.t.log, s.abort))
    && (s.code != -2 ==> Progress(s.t.log, j.w, j.rl, s.txi, s.got, j.limit))
    && (s.code == 0 ==> s.txi == j.Total() && |s.got| == j.rl)
  }

  lemma RoundKeeps(j: Job, s: Loop)
    requires Fine(j, s) && s.Runs(j) && Bytes(j.w) && 1 <= j.limit
    ensures Fine(j, Round(j, s))
  {
    if TxAborted(Reg(j.env, s.t.count)) {
      AbortedIsFine(j, s);
    } else {
      LookInOrder(j, s);
      HalvesInOrder(j, Looked(j, s));
    }
  }

  lemma HalvesInOrder(j: Job, h: Half)
    requires InOrder(j, h) && |h.got| <= j.rl && Bytes(j.w) && 1 <= j.limit
    ensures InOrder(j, Fetch(j, Feed(j, h)))
  {
    FeedKeeps(j, h);
    FetchKeeps(j, Feed(j, h));
  }

  lemma AbortedIsFine(j: Job, s: Loop)
    requires Progress(s.t.log, j.w, j.rl, s.txi, s.got, j.limit) && TxAborted(Reg(j.env, s.t.count))
    ensures Fine(j, Aborted(j, s))
  {
    AskKeeps(j, s.t, R_RAW_INTR, s.txi, s.got);
    AbortKeeps(j, Asked(j.env, s.t, R_RAW_INTR), s.txi, s.got);
  }

  /** Whatever the registers answer. */
  lemma {:induction false} PumpKeeps(j: Job, s: Loop)
    requires Fine(j, s) && (s.code != RUNNING || s.Runs(j)) && Bytes(j.w) && 1 <= j.limit
    ensures Fine(j, Pump(j, s))
    decreases j.Total() - s.txi + j.rl - |s.got|, IDLE - s.idle, if s.code == RUNNING then 1 else 0
  {
    if s.code == RUNNING {
      RoundKeeps(j, s);
      PumpKeeps(j, Round(j, s));
    }
  }

  /** Whatever the registers answer, a transfer's accesses are disciplined. */
  lemma TransferIsDisciplined(j: Job, c: nat)
    requires Bytes(j.w) && 1 <= j.limit
    ensures Fine(j, Transfer(j, c)) && Disciplined(Transfer(j, c).t.log, j.w, j.rl, j.limit)
  {
    ProgressStarts(j.w, j.rl, j.limit);
    PumpKeeps(j, Loop(Trail([], c), 0, [], 0, RUNNING, 0));
  }

  lemma SettleStep(j: Job, t: Trail, txi: nat, got: seq<nat>)
    requires Progress(t.log, j.w, j.rl, txi, got, j.limit)
    ensures Progress(Asked(j.env, t, R_STATUS).log, j.w, j.rl, txi, got, j.limit)
    ensures Progress(Asked(j.env, Asked(j.env, t, R_STATUS), R_RAW_INTR).log, j.w, j.rl, txi, got, j.limit)
  {
    AskKeeps(j, t, R_STATUS, txi, got);
    AskKeeps(j, Asked(j.env, t, R_STATUS), R_RAW_INTR, txi, got);
  }

  lemma {:induction false} SettleKeeps(j: Job, w: Watch, txi: nat, got: seq<nat>)
    requires Progress(w.t.log, j.w, j.rl, txi, got, j.limit)
    ensures Progress(Settled(j.env, w).log, j.w, j.rl, txi, got, j.limit)
    decreases w.left
  {
    if w.left > 0 {
      SettleStep(j, w.t, txi, got);
      SettleKeeps(j, Watch(Asked(j.env, Asked(j.env, w.t, R_STATUS), R_RAW_INTR), w.left - 1), txi, got);
    }
  }

  /** The last accesses keep it so. */
  lemma CloseKeeps(j: Job, s: Loop)
    requires Fine(j, s) && s.code == 0
    ensures Fine(j, Closed(j.env, s))
  {
    var t := Settled(j.env, Watch(s.t, SETTLES));
    SettleKeeps(j, Watch(s.t, SETTLES), s.txi, s.got);
    AskKeeps(j, t, R_RAW_INTR, s.txi, s.got);
    if TxAborted(Reg(j.env, t.count)) { AbortKeeps(j, Asked(j.env, t, R_RAW_INTR), s.txi, s.got); }
  }

  /** The transfer and its end. */
  ghost function Transacted(j: Job, c: nat): (r: Loop)
  {
    var r := Transfer(j, c);
    if r.code == 0 then Closed(j.env, r) else r
  }

  /** Whatever the registers answer, from the first access to the last. */
  lemma TransactedIsFine(j: Job, c: nat)
    requires Bytes(j.w) && 1 <= j.limit
    ensures Fine(j, Transacted(j, c)) && Disciplined(Transacted(j, c).t.log, j.w, j.rl, j.limit)
    ensures Transfer(j, c).t.log <= Transacted(j, c).t.log
  {
    TransferIsDisciplined(j, c);
    var r := Transfer(j, c);
    if r.code == 0 {
      CloseKeeps(j, r);
      SettleExtends(j.env, Watch(r.t, SETTLES));
    }
  }

  lemma {:induction false} SettleExtends(env: nat -> nat, w: Watch)
    ensures w.t.log <= Settled(env, w).log
    decreases w.left
  {
    if w.left > 0 {
      SettleExtends(env, Watch(Asked(env, Asked(env, w.t, R_STATUS), R_RAW_INTR), w.left - 1));
    }
  }

  // ---- accesses are only added ----

  lemma {:induction false} FeedExtends(j: Job, h: Half)
    requires h.txi <= j.Total()
    ensures h.t.log <= Feed(j, h).t.log
    decreases j.Total() - h.txi
  {
    if MaySend(j, h) { FeedExtends(j, Send(j, h)); }
  }

  lemma {:induction false} FetchExtends(j: Job, h: Half)
    requires |h.got| <= j.rl
    ensures h.t.log <= Fetch(j, h).t.log
    decreases j.rl - |h.got|
  {
    if MayTake(j, h) { FetchExtends(j, Take(j, h)); }
  }

  lemma RoundExtends(j: Job, s: Loop)
    requires s.Runs(j)
    ensures s.t.log <= Round(j, s).t.log
  {
    FeedExtends(j, Looked(j, s));
    FetchExtends(j, Feed(j, Looked(j, s)));
  }

  lemma {:induction false} PumpExtends(j: Job, s: Loop)
    requires s.code != RUNNING || s.Runs(j)
    ensures s.t.log <= Pump(j, s).t.log
    decreases j.Total() - s.txi + j.rl - |s.got|, IDLE - s.idle, if s.code == RUNNING then 1 else 0
  {
    if s.code == RUNNING {
      RoundExtends(j, s);
      PumpExtends(j, Round(j, s));
    }
  }
}
