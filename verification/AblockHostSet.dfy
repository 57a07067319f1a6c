/** The open-addressing host set: 64-bit name hashes to record indices, linear probing, doubling at
    load 0.7, first writer wins. A zero key marks a free slot, so a name whose hash is zero takes
    part in the load count but is never found. */
module AblockHostSet {

  datatype Entry = Entry(h: nat, fi: int)

  const FIRST_CAPACITY := 8192

  predicate PowerOfTwo(n: nat)
    decreases n
  {
    n == 1 || (n > 1 && n % 2 == 0 && PowerOfTwo(n / 2))
  }

  lemma CapacityStaysPower(n: nat)
    ensures PowerOfTwo(FIRST_CAPACITY)
    ensures PowerOfTwo(n) && n > 0 ==> PowerOfTwo(2 * n)
  {
    assert PowerOfTwo(16) && PowerOfTwo(256) && PowerOfTwo(2048);
    assert PowerOfTwo(4096) by { assert 4096 / 2 == 2048; }
    assert (2 * n) / 2 == n;
  }

  /** First slot of the probe sequence: the hash's top bits masked by the power-of-two capacity. */
  function Home(h: nat, cap: nat): (j: nat)
    requires cap > 0
    ensures j < cap
  {
    (h / 0x2_0000_0000) % cap
  }

  /** Slot `k` steps after `from`, wrapping once. */
  function Step(from: nat, k: nat, cap: nat): (j: nat)
    requires from < cap && k < cap
    ensures j < cap
  {
    if from + k < cap then from + k else from + k - cap
  }

  function Slot(h: nat, k: nat, cap: nat): (j: nat)
    requires k < cap
    ensures j < cap
  {
    Step(Home(h, cap), k, cap)
  }

  /** `off` gives every stored key's distance from home: the key is there, nothing before it is
      free, and nothing else is stored. */
  ghost predicate TableOk(t: seq<Entry>, off: map<nat, nat>)
  {
    && |t| > 0
    && (forall h :: h in off ==> h != 0 && off[h] < |t| && t[Slot(h, off[h], |t|)].h == h)
    && (forall h, k :: h in off && 0 <= k < off[h] ==> t[Slot(h, k, |t|)].h != 0)
    && (forall j :: 0 <= j < |t| && t[j].h != 0 ==> t[j].h in off && Slot(t[j].h, off[t[j].h], |t|) == j)
  }

  /** The table stores exactly the map `m`. */
  ghost predicate Stores(t: seq<Entry>, off: map<nat, nat>, m: map<nat, int>)
  {
    && TableOk(t, off)
    && off.Keys == m.Keys
    && forall h :: h in m ==> t[Slot(h, off[h], |t|)].fi == m[h]
  }

  /** Probing `h` for `d` steps met neither `h` nor a free slot. */
  ghost predicate Probed(t: seq<Entry>, h: nat, d: nat)
  {
    d < |t| && forall k :: 0 <= k < d ==> t[Slot(h, k, |t|)].h != 0 && t[Slot(h, k, |t|)].h != h
  }

  // ---- facts about tables ----

  ghost function KeysBelow(t: seq<Entry>, n: nat): set<nat>
    requires n <= |t|
  {
    set j | 0 <= j < n :: t[j].h
  }

  lemma {:induction false} DistinctKeys(t: seq<Entry>, off: map<nat, nat>, n: nat)
    requires TableOk(t, off) && n <= |t| && forall j :: 0 <= j < n ==> t[j].h != 0
    ensures |KeysBelow(t, n)| == n && KeysBelow(t, n) <= off.Keys
  {
    if n > 0 {
      DistinctKeys(t, off, n - 1);
      assert KeysBelow(t, n) == KeysBelow(t, n - 1) + {t[n - 1].h};
      assert t[n - 1].h !in KeysBelow(t, n - 1);
    }
  }

  lemma Subset<T>(a: set<T>, b: set<T>)
    requires a <= b
    ensures |a| <= |b|
    decreases |a|
  {
    if a != {} {
      var x :| x in a;
      Subset(a - {x}, b - {x});
    }
  }

  /** Fewer keys than slots leaves a free slot, so every probe ends. */
  lemma FreeSlot(t: seq<Entry>, off: map<nat, nat>) returns (e: nat)
    requires TableOk(t, off) && |off| < |t|
    ensures e < |t| && t[e].h == 0
  {
    assert |off.Keys| == |off|;
    if forall j :: 0 <= j < |t| ==> t[j].h != 0 {
      DistinctKeys(t, off, |t|);
      Subset(KeysBelow(t, |t|), off.Keys);
      assert false;
    }
    e :| e < |t| && t[e].h == 0;
  }

  /** Distance a probe starting at `from` travels to reach `e`. */
  function Distance(from: nat, e: nat, cap: nat): (d: nat)
    requires from < cap && e < cap
    ensures d < cap && Step(from, d, cap) == e
  {
    if from <= e then e - from else e + cap - from
  }

  /** A probe that stops at a free slot proves the key absent. */
  lemma StopMeansAbsent(t: seq<Entry>, off: map<nat, nat>, h: nat, d: nat)
    requires TableOk(t, off) && Probed(t, h, d) && t[Slot(h, d, |t|)].h == 0
    ensures h !in off
  {
  }

  /** A probe that stops at the key is at that key's slot. */
  lemma StopMeansFound(t: seq<Entry>, off: map<nat, nat>, h: nat, d: nat)
    requires TableOk(t, off) && h != 0 && d < |t| && t[Slot(h, d, |t|)].h == h
    ensures h in off && Slot(h, off[h], |t|) == Slot(h, d, |t|)
  {
  }

  /** Filling the free slot the probe stopped at. */
  lemma InsertKeeps(t: seq<Entry>, off: map<nat, nat>, m: map<nat, int>, h: nat, fi: int, d: nat)
    requires Stores(t, off, m) && h != 0 && Probed(t, h, d) && t[Slot(h, d, |t|)].h == 0
    ensures Stores(t[Slot(h, d, |t|) := Entry(h, fi)], off[h := d], m[h := fi])
    ensures h !in m
  {
    StopMeansAbsent(t, off, h, d);
    var t' := t[Slot(h, d, |t|) := Entry(h, fi)];
    var off' := off[h := d];
    forall g, k | g in off' && 0 <= k < off'[g]
      ensures t'[Slot(g, k, |t'|)].h != 0
    {
      if g != h { assert t[Slot(g, k, |t|)].h != 0; }
    }
    forall g | g in off'
      ensures g != 0 && off'[g] < |t'| && t'[Slot(g, off'[g], |t'|)].h == g
      ensures t'[Slot(g, off'[g], |t'|)].fi == m[h := fi][g]
    {
      if g != h { assert t[Slot(g, off[g], |t|)].h == g; }
    }
  }

  /** Writing the zero key into a free slot changes nothing that can be found. */
  lemma ZeroKeyKeeps(t: seq<Entry>, off: map<nat, nat>, m: map<nat, int>, j: nat, fi: int)
    requires Stores(t, off, m) && j < |t| && t[j].h == 0
    ensures Stores(t[j := Entry(0, fi)], off, m)
  {
    var t' := t[j := Entry(0, fi)];
    forall h | h in off
      ensures t'[Slot(h, off[h], |t|)] == t[Slot(h, off[h], |t|)]
    {
      assert t[Slot(h, off[h], |t|)].h == h;
    }
    forall h, k | h in off && 0 <= k < off[h]
      ensures t'[Slot(h, k, |t'|)].h != 0
    {
      assert t[Slot(h, k, |t|)].h != 0;
    }
  }

  lemma EmptyTable(t: seq<Entry>)
    requires |t| > 0 && forall j :: 0 <= j < |t| ==> t[j].h == 0
    ensures Stores(t, map[], map[])
  {
  }

  lemma SizeOfKeys(off: map<nat, nat>, m: map<nat, int>)
    requires off.Keys <= m.Keys
    ensures |off| <= |m|
  {
    Subset(off.Keys, m.Keys);
    assert |off.Keys| == |off| && |m.Keys| == |m|;
  }

  /** After `i` slots of the old table, `m` holds the part of `all` stored in them. */
  ghost predicate Copied(was: seq<Entry>, off: map<nat, nat>, all: map<nat, int>, i: nat, m: map<nat, int>)
  {
    && i <= |was|
    && (forall h :: h in m ==> h in all && m[h] == all[h] && h in off && off[h] < |was| && Slot(h, off[h], |was|) < i)
    && forall j :: 0 <= j < i && was[j].h != 0 ==> was[j].h in m
  }

  /** `m` after copying slot `i`. */
  ghost function AfterSlot(was: seq<Entry>, i: nat, m: map<nat, int>): map<nat, int>
    requires i < |was|
  {
    if was[i].h == 0 then m else m[was[i].h := was[i].fi]
  }

  lemma CopyOne(was: seq<Entry>, off: map<nat, nat>, all: map<nat, int>, i: nat, m: map<nat, int>)
    requires Stores(was, off, all) && i < |was| && Copied(was, off, all, i, m)
    ensures was[i].h !in m && Copied(was, off, all, i + 1, AfterSlot(was, i, m))
    ensures m.Keys <= all.Keys
  {
  }

  lemma CopyAll(was: seq<Entry>, off: map<nat, nat>, all: map<nat, int>, m: map<nat, int>)
    requires Stores(was, off, all) && Copied(was, off, all, |was|, m)
    ensures m == all
  {
    forall h | h in all
      ensures h in m
    {
      assert was[Slot(h, off[h], |was|)].h == h;
    }
  }

  // ---- the set ----

  class HostSet {
    var table: array<Entry>
    var count: nat
    ghost var off: map<nat, nat>
    ghost var Contents: map<nat, int>

    ghost predicate Valid()
      reads this, table
    {
      && |Contents| <= count
      && if table.Length == 0 then count == 0
         else
           && PowerOfTwo(table.Length) && FIRST_CAPACITY <= table.Length
           && count * 10 < table.Length * 7
           && Stores(table[..], off, Contents)
    }

    constructor ()
      ensures Valid() && fresh(table) && Contents == map[]
    {
      table := new Entry[0];
      count := 0;
      off, Contents := map[], map[];
    }

    /** Probe until `h` or a free slot. */
    static method Probe(t: array<Entry>, ghost o: map<nat, nat>, h: nat) returns (j: nat, ghost d: nat)
      requires TableOk(t[..], o) && |o| < t.Length
      ensures d < t.Length && j == Slot(h, d, t.Length) && Probed(t[..], h, d)
      ensures t[j].h == 0 || t[j].h == h
    {
      ghost var e := FreeSlot(t[..], o);
      j, d := Home(h, t.Length), 0;
      while t[j].h != 0 && t[j].h != h
        invariant d < t.Length && j == Slot(h, d, t.Length) && Probed(t[..], h, d)
        invariant d <= Distance(Home(h, t.Length), e, t.Length)
        decreases t.Length - d
      {
        j := if j + 1 == t.Length then 0 else j + 1;
        d := d + 1;
      }
    }

    /** Probe until a free slot; the key is known to be new. */
    static method ProbeFree(t: array<Entry>, ghost o: map<nat, nat>, h: nat) returns (j: nat, ghost d: nat)
      requires TableOk(t[..], o) && |o| < t.Length && h !in o
      ensures d < t.Length && j == Slot(h, d, t.Length) && Probed(t[..], h, d)
      ensures t[j].h == 0
    {
      ghost var e := FreeSlot(t[..], o);
      j, d := Home(h, t.Length), 0;
      while t[j].h != 0
        invariant d < t.Length && j == Slot(h, d, t.Length) && Probed(t[..], h, d)
        invariant d <= Distance(Home(h, t.Length), e, t.Length)
        decreases t.Length - d
      {
        assert t[..][j].h in o;
        j := if j + 1 == t.Length then 0 else j + 1;
        d := d + 1;
      }
    }

    /** Use the free slot a probe stopped at. */
    static method Fill(t: array<Entry>, ghost o: map<nat, nat>, ghost m: map<nat, int>, h: nat, fi: int, j: nat,
                       ghost d: nat)
      requires Stores(t[..], o, m) && Probed(t[..], h, d)
      requires j == Slot(h, d, t.Length) && t[j].h == 0
      modifies t
      ensures if h == 0 then Stores(t[..], o, m) else h !in m && Stores(t[..], o[h := d], m[h := fi])
    {
      ghost var before := t[..];
      if h == 0 {
        ZeroKeyKeeps(before, o, m, j, fi);
      } else {
        InsertKeeps(before, o, m, h, fi, d);
      }
      t[j] := Entry(h, fi);
      assert t[..] == before[j := Entry(h, fi)];
    }

    /** Move every entry into a table of `nc` slots. */
    static method Rehash(src: array<Entry>, ghost off: map<nat, nat>, ghost all: map<nat, int>, nc: nat)
      returns (t: array<Entry>, ghost o: map<nat, nat>)
      requires if src.Length == 0 then all == map[] else Stores(src[..], off, all)
      requires |all| < nc
      ensures fresh(t) && t.Length == nc && Stores(t[..], o, all)
    {
      t := new Entry[nc](_ => Entry(0, 0));
      o := map[];
      ghost var m: map<nat, int> := map[];
      EmptyTable(t[..]);
      for i := 0 to src.Length
        invariant fresh(t) && t.Length == nc && Stores(t[..], o, m)
        invariant src.Length == 0 ==> m == map[]
        invariant src.Length > 0 ==> Copied(src[..], off, all, i, m)
      {
        var ent := src[i];
        CopyOne(src[..], off, all, i, m);
        if ent.h != 0 {
          SizeOfKeys(o, all);
          var j, d := ProbeFree(t, o, ent.h);
          Fill(t, o, m, ent.h, ent.fi, j, d);
          o, m := o[ent.h := d], m[ent.h := ent.fi];
        }
      }
      if src.Length > 0 {
        CopyAll(src[..], off, all, m);
      }
    }

    /** Double the table. */
    method Grow()
      requires Valid()
      modifies this
      ensures Valid() && Contents == old(Contents) && count == old(count)
      ensures table.Length == if old(table.Length) == 0 then FIRST_CAPACITY else 2 * old(table.Length)
      ensures fresh(table)
    {
      var nc := if table.Length != 0 then table.Length * 2 else FIRST_CAPACITY;
      assert PowerOfTwo(nc) && FIRST_CAPACITY <= nc && count * 10 < nc * 7 by { CapacityStaysPower(table.Length); }
      table, off := Rehash(table, off, Contents, nc);
    }

    /** `hh_put`. */
    method Put(h: nat, fi: int)
      requires Valid()
      modifies this, table
      ensures Valid() && (table == old(table) || fresh(table))
      ensures Contents == if h == 0 || h in old(Contents) then old(Contents) else old(Contents)[h := fi]
    {
      if (count + 1) * 10 >= table.Length * 7 {
        Grow();
      }
      PutWithRoom(h, fi);
    }

    method PutWithRoom(h: nat, fi: int)
      requires Valid() && (count + 1) * 10 < table.Length * 7
      modifies this, table
      ensures Valid() && table == old(table)
      ensures Contents == if h == 0 || h in old(Contents) then old(Contents) else old(Contents)[h := fi]
    {
      SizeOfKeys(off, Contents);
      var j, d := Probe(table, off, h);
      if table[j].h != 0 {
        StopMeansFound(table[..], off, h, d);
        return;
      }
      Fill(table, off, Contents, h, fi, j, d);
      if h != 0 {
        off, Contents := off[h := d], Contents[h := fi];
      }
      count := count + 1;
    }

    /** `hh_has`: the record index of a host, or -1. */
    method Has(h: nat) returns (fi: int)
      requires Valid()
      ensures fi == if h in Contents then Contents[h] else -1
    {
      if table.Length == 0 {
        return -1;
      }
      SizeOfKeys(off, Contents);
      var j, d := Probe(table, off, h);
      if table[j].h != 0 {
        StopMeansFound(table[..], off, h, d);
        return table[j].fi;
      }
      StopMeansAbsent(table[..], off, h, d);
      return -1;
    }
  }
}
