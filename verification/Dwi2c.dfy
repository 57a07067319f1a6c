/** The polled I2C master's registers and commands, and what a log of accesses says about a transfer. */
module Dwi2c {

  const R_CON := 0x00
  const R_TAR := 0x04
  const R_DATA := 0x10
  const R_SS_HCNT := 0x14
  const R_SS_LCNT := 0x18
  const R_FS_HCNT := 0x1C
  const R_FS_LCNT := 0x20
  const R_INTR_MASK := 0x30
  const R_RAW_INTR := 0x34
  const R_RX_TL := 0x38
  const R_TX_TL := 0x3C
  const R_CLR_INTR := 0x40
  const R_CLR_TX_ABRT := 0x54
  const R_ENABLE := 0x6C
  const R_STATUS := 0x70
  const R_ABRT_SRC := 0x80
  const R_ENABLE_STATUS := 0x9C
  const R_COMP_PARAM1 := 0xF4

  const CMD_READ := 256
  const CMD_STOP := 512
  const CMD_RESTART := 1024

  // status bits
  predicate Activity(st: nat) { st % 2 == 1 }
  predicate TxNotFull(st: nat) { st / 2 % 2 == 1 }
  predicate TxEmpty(st: nat) { st / 4 % 2 == 1 }
  predicate RxNotEmpty(st: nat) { st / 8 % 2 == 1 }
  predicate TxAborted(intr: nat) { intr / 64 % 2 == 1 }

  /** One register access. */
  datatype Access = Rd(reg: nat, v: nat) | Wr(reg: nat, v: nat)

  // ---- what a log says about the data register ----

  /** Commands written to the data register, in order. */
  ghost function Commands(log: seq<Access>): (r: seq<nat>)
  {
    if log == [] then []
    else
      var a := log[|log| - 1];
      Commands(log[..|log| - 1]) + (if a.Wr? && a.reg == R_DATA then [a.v] else [])
  }

  /** Values read from the data register, in order. */
  ghost function Popped(log: seq<Access>): (r: seq<nat>)
  {
    if log == [] then []
    else
      var a := log[|log| - 1];
      Popped(log[..|log| - 1]) + (if a.Rd? && a.reg == R_DATA then [a.v] else [])
  }

  predicate IsRead(cmd: nat) { cmd / 256 % 2 == 1 }

  ghost function ReadsIn(cmds: seq<nat>): (n: nat)
  {
    if cmds == [] then 0 else ReadsIn(cmds[..|cmds| - 1]) + (if IsRead(cmds[|cmds| - 1]) then 1 else 0)
  }

  /** Read commands issued and not yet popped. */
  ghost function Outstanding(log: seq<Access>): (n: int) { ReadsIn(Commands(log)) - |Popped(log)| }

  /** At no point of the log are more reads outstanding than `limit`. */
  ghost predicate NeverExceeds(log: seq<Access>, limit: int)
  {
    forall k :: 0 <= k <= |log| ==> Outstanding(log[..k]) <= limit
  }

  lemma LogStep(log: seq<Access>, a: Access)
    ensures Commands(log + [a]) == if a.Wr? && a.reg == R_DATA then Commands(log) + [a.v] else Commands(log)
    ensures Popped(log + [a]) == if a.Rd? && a.reg == R_DATA then Popped(log) + [a.v] else Popped(log)
  {
    assert (log + [a])[..|log|] == log;
  }

  lemma NeverExceedsStep(log: seq<Access>, a: Access, limit: int)
    requires NeverExceeds(log, limit) && Outstanding(log + [a]) <= limit
    ensures NeverExceeds(log + [a], limit)
  {
    forall k | 0 <= k <= |log + [a]|
      ensures Outstanding((log + [a])[..k]) <= limit
    {
      if k <= |log| {
        assert (log + [a])[..k] == log[..k];
      } else {
        assert (log + [a])[..k] == log + [a];
      }
    }
  }

  // ---- the transfer's commands ----

  /** Command `i` of a transfer that writes `w` and reads `rl` bytes. */
  function Command(w: seq<nat>, rl: nat, i: nat): (c: nat)
    requires i < |w| + rl
  {
    if i < |w| then w[i] + (if i == |w| - 1 && rl == 0 then CMD_STOP else 0)
    else CMD_READ + (if i == |w| && |w| > 0 then CMD_RESTART else 0) + (if i == |w| + rl - 1 then CMD_STOP else 0)
  }

  /** The first `n` commands. */
  ghost function Sequence(w: seq<nat>, rl: nat, n: nat): (r: seq<nat>)
    requires n <= |w| + rl
    ensures |r| == n && forall i :: 0 <= i < n ==> r[i] == Command(w, rl, i)
  {
    seq(n, i requires 0 <= i < n => Command(w, rl, i))
  }

  ghost predicate Bytes(w: seq<nat>) { forall i :: 0 <= i < |w| ==> w[i] < 256 }

  /** Shape of the sequence: the bytes, then the reads; RESTART only on the first read after a write,
      STOP only on the last command. */
  lemma SequenceShape(w: seq<nat>, rl: nat, i: nat)
    requires Bytes(w) && i < |w| + rl
    ensures IsRead(Command(w, rl, i)) <==> i >= |w|
    ensures Command(w, rl, i) / CMD_STOP % 2 == 1 <==> i == |w| + rl - 1
    ensures Command(w, rl, i) / CMD_RESTART % 2 == 1 <==> i == |w| && |w| > 0
    ensures Command(w, rl, i) % 256 == if i < |w| then w[i] else 0
  {
  }

  lemma {:induction false} ReadsInSequence(w: seq<nat>, rl: nat, n: nat)
    requires Bytes(w) && n <= |w| + rl
    ensures ReadsIn(Sequence(w, rl, n)) == if n <= |w| then 0 else n - |w|
  {
    if n > 0 {
      ReadsInSequence(w, rl, n - 1);
      SequenceShape(w, rl, n - 1);
      assert Sequence(w, rl, n)[..n - 1] == Sequence(w, rl, n - 1);
    }
  }

  lemma SequenceGrows(w: seq<nat>, rl: nat, n: nat)
    requires n < |w| + rl
    ensures Sequence(w, rl, n) + [Command(w, rl, n)] == Sequence(w, rl, n + 1)
  {
  }

  // ---- one access at a time ----

  /** The access follows a status read that admits it: room to send, or a byte to take. */
  predicate Admitted(before: Access, a: Access)
  {
    before.Rd? && before.reg == R_STATUS && if a.Wr? then TxNotFull(before.v) else RxNotEmpty(before.v)
  }

  /** Every access of the data register is admitted by the status read just before it. */
  ghost predicate Polled(seg: seq<Access>)
  {
    forall k :: 0 <= k < |seg| && seg[k].reg == R_DATA ==> 0 < k && Admitted(seg[k - 1], seg[k])
  }

  /** The log ends with a read of the status register. */
  predicate JustPolled(log: seq<Access>, st: nat)
  {
    |log| > 0 && log[|log| - 1] == Rd(R_STATUS, st)
  }

  lemma PolledStep(seg: seq<Access>, a: Access)
    requires Polled(seg) && (a.reg == R_DATA ==> |seg| > 0 && Admitted(seg[|seg| - 1], a))
    ensures Polled(seg + [a])
  {
  }

  /** After `seg`, `sent` commands are out and the bytes `got` are in, each access was polled for, and no
      prefix broke the limit. */
  ghost predicate Progress(seg: seq<Access>, w: seq<nat>, rl: nat, sent: nat, got: seq<nat>, limit: int)
  {
    && sent <= |w| + rl
    && Commands(seg) == Sequence(w, rl, sent)
    && |Popped(seg)| == |got|
    && (forall i :: 0 <= i < |got| ==> got[i] == Popped(seg)[i] % 256)
    && Polled(seg) && NeverExceeds(seg, limit)
  }

  lemma ProgressStarts(w: seq<nat>, rl: nat, limit: int)
    requires 1 <= limit
    ensures Progress([], w, rl, 0, [], limit)
  {
  }

  lemma OtherKeeps(seg: seq<Access>, a: Access, w: seq<nat>, rl: nat, sent: nat, got: seq<nat>, limit: int)
    requires Progress(seg, w, rl, sent, got, limit) && a.reg != R_DATA
    ensures Progress(seg + [a], w, rl, sent, got, limit)
  {
    LogStep(seg, a);
    assert seg[..|seg|] == seg;
    NeverExceedsStep(seg, a, limit);
  }

  lemma SendKeeps(seg: seq<Access>, st: nat, w: seq<nat>, rl: nat, sent: nat, got: seq<nat>, limit: int)
    requires Progress(seg, w, rl, sent, got, limit) && Bytes(w) && 1 <= limit && sent < |w| + rl
    requires sent < |w| || sent - |w| - |got| < limit
    requires JustPolled(seg, st) && TxNotFull(st)
    ensures Progress(seg + [Wr(R_DATA, Command(w, rl, sent))], w, rl, sent + 1, got, limit)
  {
    var a := Wr(R_DATA, Command(w, rl, sent));
    LogStep(seg, a);
    SequenceGrows(w, rl, sent);
    ReadsInSequence(w, rl, sent + 1);
    NeverExceedsStep(seg, a, limit);
    PolledStep(seg, a);
  }

  lemma TakeKeeps(seg: seq<Access>, st: nat, v: nat, w: seq<nat>, rl: nat, sent: nat, got: seq<nat>, limit: int)
    requires Progress(seg, w, rl, sent, got, limit) && JustPolled(seg, st) && RxNotEmpty(st)
    ensures Progress(seg + [Rd(R_DATA, v)], w, rl, sent, got + [v % 256], limit)
  {
    LogStep(seg, Rd(R_DATA, v));
    assert seg[..|seg|] == seg;
    NeverExceedsStep(seg, Rd(R_DATA, v), limit);
    PolledStep(seg, Rd(R_DATA, v));
  }

  /** What holds of a transfer's accesses however it ends. */
  ghost predicate Disciplined(seg: seq<Access>, w: seq<nat>, rl: nat, limit: int)
  {
    exists sent: nat, got: seq<nat> :: Progress(seg, w, rl, sent, got, limit)
  }

  /** No command goes out. */
  ghost predicate Silent(seg: seq<Access>)
  {
    forall i :: 0 <= i < |seg| ==> !(seg[i].Wr? && seg[i].reg == R_DATA)
  }

  /** The data register is not touched. */
  ghost predicate Idle(seg: seq<Access>)
  {
    forall i :: 0 <= i < |seg| ==> seg[i].reg != R_DATA
  }

  /** An abort was read, and its source right after. */
  ghost predicate AbortSeen(log: seq<Access>, source: nat)
  {
    exists i :: 0 < i < |log| && log[i] == Rd(R_ABRT_SRC, source)
      && log[i - 1].Rd? && log[i - 1].reg == R_RAW_INTR && TxAborted(log[i - 1].v)
  }

  // ---- the driver ----

  function RxDepth(param: nat): (d: nat)
    ensures 2 <= d <= 256
  {
    var depth := param / 256 % 256 + 1;
    if param == 0 || param == 0xFFFF_FFFF || depth < 2 then 8 else depth
  }

  function TxDepth(param: nat): (d: nat)
  {
    if param == 0 || param == 0xFFFF_FFFF || param / 256 % 256 + 1 < 2 then 8 else param / 65536 % 256 + 1
  }

  /** The registers dw_setup programs: master at standard or fast speed, counts, no interrupts, thresholds 0. */
  function Programming(quick: bool): (r: seq<Access>)
    ensures Idle(r)
  {
    [Wr(R_CON, if quick then 0x65 else 0x63), Wr(R_SS_HCNT, 0x1F4), Wr(R_SS_LCNT, 0x1F4), Wr(R_FS_HCNT, 0x55),
     Wr(R_FS_LCNT, 0x99), Wr(R_INTR_MASK, 0), Wr(R_RX_TL, 0), Wr(R_TX_TL, 0)]
  }

  /** Reads allowed in flight. */
  function Limit(rxDepth: int): (l: int)
    ensures 1 <= l && (2 <= rxDepth ==> l < rxDepth)
  {
    if rxDepth > 2 then rxDepth - 1 else 1
  }
}
