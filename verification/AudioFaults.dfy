/** Runs of the ring in which the card does not play what was written: each breaks one condition of the run theorems. */
module AudioFaults {
  import opened Scalars
  import opened AudioSlots
  import opened AudioRun
  import opened AudioRing

  /** The card passes a starved writer, a tick wipes, and the late byte lands on a wiped position: no later tick
      clears it, the ring is not silent, and a lap on the byte sounds where nothing was ever written. */
  method OvertakenCopyIsHeardAgain() returns (r: Ring, heard: seq<Byte>)
    ensures fresh(r) && r.Valid() && !r.View().Silent()
    ensures |heard| == RING_BYTES - 1 && r.hw == 3000 + |heard| && r.wr == 1924
    ensures heard[1920 + RING_BYTES - 3000] == 7
  {
    r := new Ring();
    r.LookUp();
    var n := r.BeginWrite([7, 0, 0, 0]);
    assert r.wr == 1920 && r.pend == [7, 0, 0, 0];
    var _ := r.Consume(3000);
    ghost var played := r.View();
    r.Tick();
    ghost var was := r.View();
    assert was.Silent() by { WipeSilences(played.ring, was.ring, 0, 1920, 1920, 3000, 0, 0); }
    r.CopyChunk();
    ghost var copied := r.View();
    OvertakenChunk(was, copied);
    r.Publish();
    heard := r.Consume(RING_BYTES - 1);
  }

  lemma OvertakenChunk(v: State, v': State)
    requires v.Sound() && v.Silent() && Due(v, CopyStep) && Copies(v, v')
    requires v.wr == 1920 && v.clean == 3000 && v.pend == [7, 0, 0, 0] && v.flo >= v.fhi
    ensures v'.staged == 4 && !v'.Silent() && v'.ring[Slot(1920 + RING_BYTES)] == 7
  {
    var data := v.pend[..v.Chunk()];
    assert data == [7, 0, 0, 0];
    CopySilenceIff(v.ring, v'.ring, v.clean, v.wr, data, v.flo, v.fhi);
    assert data[0] == 7 && v.clean > v.wr + 0;
    assert v'.ring[Slot(1920)] == data[1920 - 1920];
    SlotsOfTwo(1920, 1920);
  }

  /** A write that fits and does not cross the ring's end, copied and published without interruption. */
  method WriteWhole(r: Ring, data: seq<Byte>)
    requires r.Valid() && r.look.Blind? && r.pend == [] && r.flo >= r.fhi && data != [] && |data| % 4 == 0
    requires var at := Resumed(r.hw, r.wr); at + |data| <= r.hw + RING_BYTES - GUARD && Slot(at) + |data| <= RING_BYTES
    modifies r, r.ring
    ensures r.Valid() && r.look.Blind? && r.pend == [] && r.staged == 0 && r.flo >= r.fhi
    ensures r.hw == old(r.hw) && r.clean == old(r.clean) && r.wr == Resumed(r.hw, old(r.wr)) + |data|
    ensures Copied(old(r.ring[..]), r.ring[..], Resumed(r.hw, old(r.wr)), data)
  {
    r.LookUp();
    var _ := r.BeginWrite(data);
    assert r.pend == data;
    r.CopyChunk();
    assert r.pend[..r.staged] == data;
    r.Publish();
  }

  /** A full ring, a tick due: a chunk is copied past the last wipe's lap, the tick wipes it before it is published,
      and the card will play silence for it. */
  method SplitCopyIsWiped() returns (r: Ring, ghost v: State)
    ensures fresh(r) && r.Valid() && v.Sound() && v.hw == r.hw && v.Top() == r.wr && r.staged == 0
    ensures |v.Queue()| == |r.View().Queue()| == RING_BYTES - 964
    ensures v.Queue()[RING_BYTES - 1000] == 9 && r.View().Queue()[RING_BYTES - 1000] == 0
  {
    r := new Ring();
    WriteWhole(r, seq(RING_BYTES - RESYNC_MARGIN - GUARD, _ => 1));
    var _ := r.Consume(1000);
    WriteWhole(r, seq(GUARD, _ => 1));
    v := CopyThenTick(r);
  }

  method CopyThenTick(r: Ring) returns (ghost v: State)
    requires r.Valid() && r.look.Blind? && r.pend == [] && r.staged == 0 && r.flo >= r.fhi
    requires r.wr == RING_BYTES && r.hw == 1000 && r.clean == 0
    modifies r, r.ring
    ensures r.Valid() && v.Sound() && v.hw == r.hw == 1000 && v.Top() == r.wr == RING_BYTES + 36 && r.staged == 0
    ensures v.ring[Slot(RING_BYTES)] == 9 && r.ring[Slot(RING_BYTES)] == 0
  {
    r.LookUp();
    var _ := r.BeginWrite(seq(36, _ => 9));
    ghost var before := r.View();
    assert r.pend == seq(36, _ => 9);
    r.CopyChunk();
    v := r.View();
    LappedChunk(before, v);
    r.Tick();
    assert Slot(0) == Slot(RING_BYTES) == 0;
    assert r.View().ring[Slot(0)] == 0;
    r.Publish();
  }

  lemma LappedChunk(v: State, v': State)
    requires v.Sound() && Due(v, CopyStep) && Copies(v, v')
    requires v.wr == RING_BYTES && v.pend == seq(36, _ => 9)
    ensures v'.staged == 36 && v'.ring[Slot(RING_BYTES)] == 9
  {
    assert Slot(RING_BYTES) == 0;
    var data := v.pend[..v.Chunk()];
    assert |data| == 36 && data[RING_BYTES - RING_BYTES] == 9;
  }

  /** The card comes nearly a lap past the last tick, and the write that finds the queue dry restarts the writer past
      that lap: the next tick spares the slots behind the writer, which the card is about to play again. */
  method StrayingWriterReplays() returns (r: Ring, first: seq<Byte>, again: seq<Byte>)
    ensures fresh(r) && r.Valid() && r.hw == RING_BYTES + 1921 < r.wr
    ensures |first| == RING_BYTES - 1 && first[0] == 7 && |again| == 2 && again[1] == 7
  {
    r := new Ring();
    WriteWhole(r, [7, 7, 7, 7]);
    assert r.ring[..][Slot(1920)] == 7;
    var _ := r.Consume(1920);
    r.Tick();
    assert r.ring[..][Slot(1920)] == 7;
    first := r.Consume(RING_BYTES - 1);
    again := RestartAndTick(r);
  }

  method RestartAndTick(r: Ring) returns (again: seq<Byte>)
    requires r.Valid() && r.look.Blind? && r.pend == [] && r.staged == 0 && r.flo >= r.fhi
    requires r.wr == 1924 && r.clean == 1920 && r.hw == RING_BYTES + 1919 && r.ring[Slot(1920)] == 7
    modifies r, r.ring
    ensures r.Valid() && |again| == 2 && again[1] == 7 && r.hw == RING_BYTES + 1921 < r.wr
  {
    r.LookUp();
    var _ := r.BeginWrite([]);
    ghost var was := r.ring[..];
    r.Tick();
    SlotsOfTwo(1920, 1920);
    assert WipeStart(1920, RING_BYTES + 3839, RING_BYTES + 1919) == 3839;
    assert r.ring[..][Slot(1920 + RING_BYTES)] == was[Slot(1920 + RING_BYTES)];
    again := r.Consume(2);
  }
}
