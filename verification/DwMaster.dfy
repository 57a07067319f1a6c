/** The polled I2C master: transfers against a controller whose registers answer anything. Every operation's accesses
    are a function of the answers. */
module DwMaster {
  import opened Dwi2c
  import opened DwPump

  /** The master: register read number `c` answers `env(c)`, every access is logged. */
  class Master {
    const env: nat -> nat
    var count: nat
    var log: seq<Access>
    var rxDepth: int
    var txDepth: int
    var addr: int
    var fast: bool
    var lastAbort: nat

    constructor (env: nat -> nat)
      ensures this.env == env && count == 0 && log == [] && addr == -1
    {
      this.env := env;
      count, log, rxDepth, txDepth, addr, fast, lastAbort := 0, [], 0, 0, -1, false, 0;
    }

    /** The accesses since `pre` are those of `t`. */
    ghost predicate At(pre: seq<Access>, t: Trail)
      reads `log, `count
    {
      log == pre + t.log && count == t.count
    }

    method Read(reg: nat, ghost pre: seq<Access>, ghost t: Trail) returns (v: nat)
      requires At(pre, t)
      modifies `count, `log
      ensures v == Reg(env, t.count) && At(pre, Asked(env, t, reg))
    {
      v := env(count) % 0x1_0000_0000;
      count := count + 1;
      log := log + [Rd(reg, v)];
    }

    method Write(reg: nat, v: nat, ghost pre: seq<Access>, ghost t: Trail)
      requires At(pre, t)
      modifies `log
      ensures At(pre, Told(t, reg, v))
    {
      log := log + [Wr(reg, v)];
    }

    method WaitEnableStatus(want: nat, ghost pre: seq<Access>, ghost t: Trail) returns (ok: bool)
      requires At(pre, t)
      modifies `count, `log
      ensures var p := Waited(env, want, Watch(t, WAITS));
              ok == p.ok && At(pre, p.t)
    {
      ghost var cur := t;
      for i := 0 to WAITS
        invariant At(pre, cur) && Waited(env, want, Watch(cur, WAITS - i)) == Waited(env, want, Watch(t, WAITS))
      {
        var v := Read(R_ENABLE_STATUS, pre, cur);
        if v % 2 == want { return true; }
        cur := Asked(env, cur, R_ENABLE_STATUS);
      }
      return false;
    }

    method Disable(ghost pre: seq<Access>, ghost t: Trail) returns (ok: bool)
      requires At(pre, t)
      modifies `count, `log
      ensures var p := Switched(env, 0, t);
              ok == p.ok && At(pre, p.t)
    {
      Write(R_ENABLE, 0, pre, t);
      ok := WaitEnableStatus(0, pre, Told(t, R_ENABLE, 0));
    }

    /** Pops what is left in the receive FIFO. */
    method DrainRx(ghost pre: seq<Access>, ghost t: Trail)
      requires At(pre, t)
      modifies `count, `log
      ensures At(pre, Drained(env, Watch(t, DRAINS)))
    {
      ghost var cur := t;
      for i := 0 to DRAINS
        invariant At(pre, cur) && Drained(env, Watch(cur, DRAINS - i)) == Drained(env, Watch(t, DRAINS))
      {
        var st := Read(R_STATUS, pre, cur);
        if !RxNotEmpty(st) { return; }
        cur := Asked(env, cur, R_STATUS);
        var _ := Read(R_DATA, pre, cur);
        cur := Asked(env, cur, R_DATA);
      }
    }

    method Program(quick: bool)
      modifies `log
      ensures log == old(log) + Programming(quick)
    {
      log := log + [Wr(R_CON, if quick then 0x65 else 0x63)];
      log := log + [Wr(R_SS_HCNT, 0x1F4)];
      log := log + [Wr(R_SS_LCNT, 0x1F4)];
      log := log + [Wr(R_FS_HCNT, 0x55)];
      log := log + [Wr(R_FS_LCNT, 0x99)];
      log := log + [Wr(R_INTR_MASK, 0)];
      log := log + [Wr(R_RX_TL, 0)];
      log := log + [Wr(R_TX_TL, 0)];
    }

    method Setup(quick: bool) returns (code: int)
      modifies this
      ensures var off := Switched(env, 0, Trail([], old(count)));
              && code == (if off.ok then 0 else -1)
              && (code == -1 ==> At(old(log), off.t))
              && (code == 0 ==> SetUp(old(log), off.t, quick))
      ensures code == 0 ==> 2 <= rxDepth <= 256 && Limit(rxDepth) < rxDepth && addr == -1 && fast == quick
      ensures code == -1 ==>
        rxDepth == old(rxDepth) && txDepth == old(txDepth) && addr == old(addr) && fast == old(fast)
      ensures lastAbort == old(lastAbort)
    {
      ghost var pre, off := log, Switched(env, 0, Trail([], count)).t;
      var ok := Disable(pre, Trail([], count));
      if !ok { return -1; }
      var p := Read(R_COMP_PARAM1, pre, off);
      rxDepth, txDepth := RxDepth(p), TxDepth(p);
      fast := quick;
      Program(quick);
      ghost var t := Asked(env, off, R_COMP_PARAM1);
      var _ := Read(R_CLR_INTR, pre, t.(log := t.log + Programming(quick)));
      addr := -1;
      return 0;
    }

    /** The controller, switched off by `off`, has been programmed: both depths are what its parameter register said. */
    ghost predicate SetUp(pre: seq<Access>, off: Trail, quick: bool)
      reads `log, `count, `rxDepth, `txDepth
    {
      var t := Asked(env, off, R_COMP_PARAM1);
      && rxDepth == RxDepth(Reg(env, off.count)) && txDepth == TxDepth(Reg(env, off.count))
      && At(pre, Asked(env, t.(log := t.log + Programming(quick)), R_CLR_INTR))
    }

    /** Clears pending interrupts and the receive FIFO. */
    method Clear(ghost pre: seq<Access>, ghost t: Trail)
      requires At(pre, t)
      modifies `count, `log
      ensures At(pre, Cleared(env, t))
    {
      var _ := Read(R_CLR_TX_ABRT, pre, t);
      var _ := Read(R_CLR_INTR, pre, Asked(env, t, R_CLR_TX_ABRT));
      DrainRx(pre, Asked(env, Asked(env, t, R_CLR_TX_ABRT), R_CLR_INTR));
    }

    /** Records the abort's source and clears it. */
    method TakeAbort(ghost pre: seq<Access>, ghost t: Trail)
      requires At(pre, t)
      modifies `count, `log, `lastAbort
      ensures At(pre, AbortTaken(env, t)) && lastAbort == Reg(env, t.count)
    {
      lastAbort := Read(R_ABRT_SRC, pre, t);
      Clear(pre, Asked(env, t, R_ABRT_SRC));
    }

    /** Selects the target, with the controller off. */
    method Target(target: int, ghost pre: seq<Access>, ghost t: Trail) returns (ok: bool)
      requires At(pre, t)
      modifies `count, `log, `addr
      ensures var p := Targeted(env, old(addr), target, t);
              ok == p.ok && At(pre, p.t) && addr == if ok then target else old(addr)
    {
      if target == addr { return true; }
      ok := Disable(pre, t);
      if !ok { return; }
      Write(R_TAR, target % 128, pre, Switched(env, 0, t).t);
      addr := target;
    }

    /** Selects the target, enables the controller and clears what an earlier transfer left. */
    method Open(target: int, ghost pre: seq<Access>, ghost t: Trail) returns (ok: bool)
      requires At(pre, t)
      modifies `count, `log, `addr
      ensures var p := Opened(env, old(addr), target, t);
              ok == p.ok && At(pre, p.t) && (ok ==> addr == target)
    {
      ghost var off := Targeted(env, addr, target, t).t;
      ok := Target(target, pre, t);
      if !ok { return; }
      Write(R_ENABLE, 1, pre, off);
      ok := WaitEnableStatus(1, pre, Told(off, R_ENABLE, 1));
      if !ok { return; }
      Clear(pre, Switched(env, 1, off).t);
    }

    /** The transmit half of a polling round. */
    method Feed(w: seq<nat>, rl: nat, rxi: nat, limit: int, ghost pre: seq<Access>, ghost h: Half, txi: nat, st: nat)
      returns (txi': nat, st': nat)
      requires At(pre, h.t) && rxi == |h.got| && txi == h.txi <= |w| + rl && st == h.st
      modifies `count, `log
      ensures var r := DwPump.Feed(Job(env, w, rl, limit), h);
              At(pre, r.t) && txi' == r.txi && st' == r.st
    {
      ghost var j, cur := Job(env, w, rl, limit), h;
      txi', st' := txi, st;
      while txi' < |w| + rl && TxNotFull(st')
        invariant At(pre, cur.t) && cur.txi == txi' <= |w| + rl && cur.st == st' && cur.got == h.got
        invariant DwPump.Feed(j, cur) == DwPump.Feed(j, h)
      {
        if txi' >= |w| && txi' - |w| - rxi >= limit { break; }
        Write(R_DATA, Command(w, rl, txi'), pre, cur.t);
        st' := Read(R_STATUS, pre, Told(cur.t, R_DATA, Command(w, rl, txi')));
        txi' := txi' + 1;
        cur := Send(j, cur);
      }
    }

    /** Takes a byte and reads the status. */
    method TakeByte(ghost j: Job, buf: array<nat>, rxi: nat, ghost pre: seq<Access>, ghost h: Half) returns (st: nat)
      requires j.env == env && At(pre, h.t) && rxi < buf.Length && h.got == buf[..rxi]
      modifies `count, `log, buf
      ensures At(pre, Take(j, h).t) && st == Take(j, h).st
      ensures buf[..rxi + 1] == Take(j, h).got
      ensures forall k :: rxi < k < buf.Length ==> buf[k] == old(buf[k])
    {
      var v := Read(R_DATA, pre, h.t);
      buf[rxi] := v % 256;
      assert buf[..rxi + 1] == h.got + [v % 256];
      st := Read(R_STATUS, pre, Asked(env, h.t, R_DATA));
    }

    /** The receive half of a polling round. */
    method Fetch(ghost w: seq<nat>, rl: nat, ghost limit: int, buf: array<nat>, ghost pre: seq<Access>, ghost h: Half,
                 rxi: nat, st: nat)
      returns (rxi': nat)
      requires At(pre, h.t) && rxi <= rl <= buf.Length && h.got == buf[..rxi] && st == h.st
      modifies `count, `log, buf
      ensures var r := DwPump.Fetch(Job(env, w, rl, limit), h);
              At(pre, r.t) && rxi' == |r.got| && buf[..rxi'] == r.got
      ensures rxi <= rxi' && forall k :: rxi' <= k < buf.Length ==> buf[k] == old(buf[k])
    {
      ghost var j, cur := Job(env, w, rl, limit), h;
      rxi' := rxi;
      var st' := st;
      while rxi' < rl && RxNotEmpty(st')
        invariant At(pre, cur.t) && rxi <= rxi' <= rl && cur.got == buf[..rxi'] && cur.st == st'
        invariant DwPump.Fetch(j, cur) == DwPump.Fetch(j, h)
        invariant forall k :: rxi' <= k < buf.Length ==> buf[k] == old(buf[k])
      {
        st' := TakeByte(j, buf, rxi', pre, cur);
        rxi', cur := rxi' + 1, Take(j, cur);
      }
    }

    /** The loop's variables are those of `s`. */
    ghost predicate Holds(s: Loop, txi: nat, rxi: nat, idle: nat, buf: array<nat>)
      reads buf
    {
      s.txi == txi && rxi <= buf.Length && s.got == buf[..rxi] && s.idle == idle
    }

    /** One polling round. */
    method Poll(w: seq<nat>, rl: nat, buf: array<nat>, limit: int, txi: nat, rxi: nat, idle: nat,
                ghost pre: seq<Access>, ghost s: Loop)
      returns (code: int, txi': nat, rxi': nat, idle': nat, ghost r: Loop)
      requires At(pre, s.t) && Holds(s, txi, rxi, idle, buf) && s.Runs(Job(env, w, rl, limit)) && rl <= buf.Length
      modifies `count, `log, `lastAbort, buf
      ensures At(pre, r.t) && code == r.code && Holds(r, txi', rxi', idle', buf)
      ensures var j := Job(env, w, rl, limit);
              (code == RUNNING ==> r.Runs(j)) && DwPump.Pump(j, r) == DwPump.Pump(j, s)
      ensures lastAbort == if code == -2 then r.abort else old(lastAbort)
      ensures txi <= txi' && rxi <= rxi' <= rl && forall k :: rxi' <= k < buf.Length ==> buf[k] == old(buf[k])
      ensures txi < txi' || rxi < rxi' || idle < idle' || (idle == idle' && code != RUNNING)
    {
      ghost var j := Job(env, w, rl, limit);
      r := Round(j, s);
      txi', rxi', idle' := txi, rxi, idle;
      var intr := Read(R_RAW_INTR, pre, s.t);
      if TxAborted(intr) {
        TakeAbort(pre, Asked(env, s.t, R_RAW_INTR));
        code := -2;
        return;
      }
      var st := Read(R_STATUS, pre, Asked(env, s.t, R_RAW_INTR));
      if st == DEAD {
        code := -1;
        return;
      }
      ghost var h := Looked(j, s);
      var st';
      txi', st' := Feed(w, rl, rxi, limit, pre, h, txi, st);
      rxi' := Fetch(w, rl, limit, buf, pre, DwPump.Feed(j, h), rxi, st');
      idle' := if txi' == txi && rxi' == rxi then idle + 1 else 0;
      code := if rxi' == rl && txi' == |w| + rl then 0 else if idle' > IDLE then -1 else RUNNING;
    }

    /** Polls until every command is out and every byte is in, the controller aborts or nothing moves. */
    method Pump(w: seq<nat>, rl: nat, buf: array<nat>, limit: int) returns (code: int)
      requires rl <= buf.Length
      modifies `count, `log, `lastAbort, buf
      ensures var r := Transfer(Job(env, w, rl, limit), old(count));
              && code == r.code && At(old(log), r.t)
              && |r.got| <= rl && buf[..|r.got|] == r.got && buf[|r.got|..] == old(buf[|r.got|..])
              && lastAbort == if code == -2 then r.abort else old(lastAbort)
    {
      ghost var j, pre, s := Job(env, w, rl, limit), log, Loop(Trail([], count), 0, [], 0, RUNNING, 0);
      ghost var end := Transfer(j, count);
      var txi: nat, rxi: nat, idle: nat := 0, 0, 0;
      code := RUNNING;
      while code == RUNNING
        invariant At(pre, s.t) && Holds(s, txi, rxi, idle, buf) && s.code == code
        invariant (code == RUNNING ==> s.Runs(j)) && DwPump.Pump(j, s) == end
        invariant rxi <= rl && forall k :: rxi <= k < buf.Length ==> buf[k] == old(buf[k])
        invariant lastAbort == if code == -2 then s.abort else old(lastAbort)
        decreases |w| + rl - txi + rl - rxi, IDLE - idle, if code == RUNNING then 1 else 0
      {
        code, txi, rxi, idle, s := Poll(w, rl, buf, limit, txi, rxi, idle, pre, s);
      }
    }

    /** Waits for the bus to go idle. */
    method Settle(ghost pre: seq<Access>, ghost t: Trail)
      requires At(pre, t)
      modifies `count, `log
      ensures At(pre, Settled(env, Watch(t, SETTLES)))
    {
      ghost var cur := t;
      for i := 0 to SETTLES
        invariant At(pre, cur) && Settled(env, Watch(cur, SETTLES - i)) == Settled(env, Watch(t, SETTLES))
      {
        var st := Read(R_STATUS, pre, cur);
        if TxEmpty(st) && !Activity(st) { return; }
        cur := Asked(env, cur, R_STATUS);
        var v := Read(R_RAW_INTR, pre, cur);
        if TxAborted(v) { return; }
        cur := Asked(env, cur, R_RAW_INTR);
      }
    }

    /** The end of a transfer that went well, and a late abort. */
    method Close(ghost pre: seq<Access>, ghost s: Loop) returns (code: int)
      requires At(pre, s.t) && s.code == 0
      modifies `count, `log, `lastAbort
      ensures var r := Closed(env, s);
              At(pre, r.t) && code == r.code && lastAbort == if code == -2 then r.abort else old(lastAbort)
    {
      Settle(pre, s.t);
      ghost var t := Settled(env, Watch(s.t, SETTLES));
      var v := Read(R_RAW_INTR, pre, t);
      if !TxAborted(v) { return 0; }
      TakeAbort(pre, Asked(env, t, R_RAW_INTR));
      return -2;
    }

    /** The transfer proper, and its end when it went well. */
    method Transact(w: seq<nat>, rl: nat, buf: array<nat>, limit: int) returns (code: int)
      requires rl <= buf.Length && Bytes(w) && 1 <= limit
      modifies `count, `log, `lastAbort, buf
      ensures var j := Job(env, w, rl, limit);
              var r := Transacted(j, old(count));
              && At(old(log), r.t) && code == r.code && (code == 0 ==> buf[..rl] == r.got)
              && lastAbort == if code == -2 then r.abort else old(lastAbort)
      ensures buf[rl..] == old(buf[rl..])
    {
      ghost var j, pre, r := Job(env, w, rl, limit), log, Transfer(Job(env, w, rl, limit), count);
      TransferIsDisciplined(j, count);
      code := Pump(w, rl, buf, limit);
      if code == 0 { code := Close(pre, r); }
    }

    /** One transfer: writes wl bytes of w, then reads rl bytes into buf. `start` is where the log's
        transfer proper begins; nothing is sent before it. */
    method Xfer(target: int, w: seq<nat>, wl: int, buf: array<nat>, rl: int) returns (code: int, ghost start: nat)
      requires wl <= |w| && rl <= buf.Length && Bytes(w)
      modifies `count, `log, `addr, `lastAbort, buf
      ensures code in {0, -1, -2, -3}
      ensures code == -3 <==> wl < 0 || rl < 0 || wl + rl == 0
      ensures code == -3 ==> log == old(log) && buf[..] == old(buf[..]) && addr == old(addr)
      ensures |old(log)| <= start <= |log| && old(log) <= log && Silent(log[|old(log)|..start])
      ensures code != -3 ==> Disciplined(log[start..], w[..wl], rl, Limit(rxDepth))
      ensures code == 0 ==> Progress(log[start..], w[..wl], rl, wl + rl, buf[..rl], Limit(rxDepth)) && addr == target
      ensures if code == -2 then AbortSeen(log[start..], lastAbort) else lastAbort == old(lastAbort)
      ensures 0 <= rl ==> buf[rl..] == old(buf[rl..])
      ensures code != -3 ==>
                var open := Opened(env, old(addr), target, Trail([], old(count)));
                var j := Job(env, w[..wl], rl, Limit(rxDepth));
                && log[|old(log)|..start] == open.t.log
                && log[start..] == if open.ok then Transacted(j, open.t.count).t.log else []
    {
      start := |log|;
      if wl < 0 || rl < 0 || wl + rl == 0 { return -3, start; }
      ghost var pre, t0 := log, Trail([], count);
      ghost var open, j := Opened(env, addr, target, t0), Job(env, w[..wl], rl, Limit(rxDepth));
      OpenedIsSilent(env, addr, target, t0);
      var ok := Open(target, pre, t0);
      start := |log|;
      if !ok {
        ProgressStarts(w[..wl], rl, j.limit);
        assert log[start..] == [] && log[|pre|..start] == open.t.log;
        return -1, start;
      }
      TransactedIsFine(j, count);
      code := Transact(w[..wl], rl, buf, Limit(rxDepth));
      assert log[start..] == Transacted(j, open.t.count).t.log && log[|pre|..start] == open.t.log;
    }
  }
}
