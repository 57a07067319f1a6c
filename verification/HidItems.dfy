/** Descriptor bytes as short items, the global state they set, and the report sizes that follow from them. */
module HidItems {
  import opened Scalars
  import opened Bits
  import opened HidBits

  const WORD := 0x1_0000_0000
  const MAX_STACK := 4
  const MAX_COUNT := 1024

  /** A short item: type (0 main, 1 global, 2 local), tag, data size and unsigned data. */
  datatype Short = Short(ty: nat, tag: nat, size: nat, u: nat)

  datatype Globals = Globals(page: nat, lmin: int, lmax: int, rsize: nat, rcount: nat, rid: Byte)

  const NO_GLOBALS := Globals(0, 0, 0, 0, 0, 0)

  /** A report's kind: 0 for input, 1 for feature. */
  type Kind = k: nat | k < 2

  /** A report: its kind and its id. */
  type Key = (Kind, Byte)

  function ToInt32(u: nat): (x: int) { if u >= 0x8000_0000 then u - WORD else u }

  lemma SmallMod(a: nat)
    requires a < WORD
    ensures a % WORD == a
  {
  }

  /** The data of a short item, sign-extended from its size. */
  function SignData(u: nat, size: nat): (x: int)
  {
    if size == 1 then (if u >= 128 then u - 256 else u)
    else if size == 2 then (if u >= 32768 then u - 65536 else u)
    else ToInt32(u)
  }

  // ---- bytes to items ----

  function DataSize(b: Byte): (n: nat)
    ensures n <= 4
  {
    if b % 4 == 3 then 4 else b % 4
  }

  datatype Scan = Stop | Skip(next: nat) | Got(item: Short, next: nat)

  /** What stands at offset `i`: a long item to skip, a short item, or the end of what can be read. */
  ghost function ScanAt(d: seq<Byte>, i: nat): (s: Scan)
    requires i < |d|
    ensures s.Skip? ==> s.next > i
    ensures s.Got? ==> i < s.next <= |d|
  {
    var b := d[i];
    if b == 0xFE then
      if i + 1 >= |d| then Stop else Skip(i + 3 + d[i + 1])
    else
      var n := DataSize(b);
      if i + 1 + n > |d| then Stop
      else Got(Short(b / 4 % 4, b / 16, n, Number(d[i + 1..i + 1 + n])), i + 1 + n)
  }

  /** The short items from offset `i` to the end or the first truncated item. */
  ghost function ItemsFrom(d: seq<Byte>, i: nat): (r: seq<Short>)
    decreases |d| - i
  {
    if i >= |d| then []
    else
      match ScanAt(d, i)
      case Stop => []
      case Skip(next) => ItemsFrom(d, next)
      case Got(item, next) => [item] + ItemsFrom(d, next)
  }

  lemma {:induction false} NumberAppend(r: seq<Byte>, b: Byte)
    ensures Number(r + [b]) == Number(r) + b * P2(8 * |r|)
  {
    if r == [] {
      assert r + [b] == [b];
      assert Number([b]) == b + 256 * Number([b][1..]);
    } else {
      NumberAppend(r[1..], b);
      assert (r + [b])[1..] == r[1..] + [b];
      P2Words();
      P2Add(8, 8 * |r[1..]|);
      Scaled(b, P2(8 * |r[1..]|), Number(r[1..]));
    }
  }

  lemma Scaled(b: int, p: int, n: int)
    ensures 256 * (n + b * p) == 256 * n + b * (256 * p)
  {
    assert b * (256 * p) == 256 * (b * p);
  }

  lemma {:induction false} NumberBound(r: seq<Byte>)
    ensures Number(r) < P2(8 * |r|)
  {
    if r != [] {
      NumberBound(r[1..]);
      P2Words();
      P2Add(8, 8 * |r[1..]|);
    }
  }

  /** The item's data bytes, lowest first. */
  method ReadData(d: seq<Byte>, at: nat, size: nat) returns (u: nat)
    requires at + size <= |d| && size <= 4
    ensures u == Number(d[at..at + size]) && u < WORD
  {
    u := 0;
    for k := 0 to size
      invariant u == Number(d[at..at + k])
    {
      NumberAppend(d[at..at + k], d[at + k]);
      assert d[at..at + k] + [d[at + k]] == d[at..at + k + 1];
      u := u + d[at + k] * P2(8 * k);
    }
    NumberBound(d[at..at + size]);
    P2Words();
    P2Mono(8 * size, 32);
  }

  /** Reads what stands at offset `i`. */
  method ReadItem(d: seq<Byte>, i: nat) returns (s: Scan)
    requires i < |d|
    ensures s == ScanAt(d, i)
    ensures s.Got? ==> s.item.u < WORD
  {
    var b := d[i];
    if b == 0xFE {
      if i + 1 >= |d| { return Stop; }
      return Skip(i + 3 + d[i + 1]);
    }
    var size := DataSize(b);
    if i + 1 + size > |d| { return Stop; }
    var u := ReadData(d, i + 1, size);
    return Got(Short(b / 4 % 4, b / 16, size, u), i + 1 + size);
  }

  /** Moving the next item from the unread to the read ones. */
  lemma ItemsMove(d: seq<Byte>, i: nat, done: seq<Short>)
    requires i < |d|
    ensures ScanAt(d, i).Stop? ==> done + ItemsFrom(d, i) == done
    ensures ScanAt(d, i).Skip? ==> done + ItemsFrom(d, i) == done + ItemsFrom(d, ScanAt(d, i).next)
    ensures ScanAt(d, i).Got? ==> done + ItemsFrom(d, i) == done + [ScanAt(d, i).item] + ItemsFrom(d, ScanAt(d, i).next)
  {
  }

  // ---- the global state ----

  /** A global item's effect on the state and the Push/Pop stack. */
  function NextGlobals(g: Globals, stack: seq<Globals>, it: Short): (r: (Globals, seq<Globals>))
  {
    if it.ty != 1 then (g, stack)
    else
      match it.tag
      case 0 => (g.(page := it.u % 0x1_0000), stack)
      case 1 => (g.(lmin := SignData(it.u, it.size)), stack)
      case 2 => (g.(lmax := if g.lmin < 0 then SignData(it.u, it.size) else ToInt32(it.u)), stack)
      case 7 => (g.(rsize := it.u), stack)
      case 8 => (g.(rid := it.u % 256), stack)
      case 9 => (g.(rcount := it.u), stack)
      case 10 => (g, if |stack| < MAX_STACK then stack + [g] else stack)
      case 11 => if |stack| > 0 then (stack[|stack| - 1], stack[..|stack| - 1]) else (g, stack)
      case _ => (g, stack)
  }

  /** State and stack after the items. */
  ghost function GlobalsAfter(items: seq<Short>): (r: (Globals, seq<Globals>))
  {
    if items == [] then (NO_GLOBALS, [])
    else
      var before := GlobalsAfter(items[..|items| - 1]);
      NextGlobals(before.0, before.1, items[|items| - 1])
  }

  /** The descriptor names report ids. */
  ghost predicate NamesIds(items: seq<Short>)
  {
    exists i :: 0 <= i < |items| && items[i].ty == 1 && items[i].tag == 8
  }

  lemma NamesStep(items: seq<Short>, it: Short)
    ensures NamesIds(items + [it]) <==> NamesIds(items) || (it.ty == 1 && it.tag == 8)
  {
    if NamesIds(items) {
      var i :| 0 <= i < |items| && items[i].ty == 1 && items[i].tag == 8;
      assert (items + [it])[i] == items[i];
    }
    if it.ty == 1 && it.tag == 8 {
      assert (items + [it])[|items|] == it;
    }
  }

  // ---- report sizes ----

  function Count(rcount: nat): (n: nat) { if rcount > MAX_COUNT then MAX_COUNT else rcount }

  /** The bits `n` fields of `size` bits take. */
  ghost function Span(n: nat, size: nat): (r: nat)
  {
    if n == 0 then 0 else Span(n - 1, size) + size
  }

  lemma {:induction false} SpanIsProduct(n: nat, size: nat)
    ensures Span(n, size) == n * size
  {
    if n > 0 {
      SpanIsProduct(n - 1, size);
      MulDist(n - 1, 1, size);
    }
  }

  predicate IsFieldItem(it: Short, kind: Kind) { it.ty == 0 && it.tag == if kind == 1 then 11 else 8 }

  /** Bits the items lay out in report `key`: the sizes times the counts in effect at its main items. */
  ghost function Laid(items: seq<Short>, key: Key): (n: nat)
  {
    if items == [] then 0
    else
      var before := items[..|items| - 1];
      var g := GlobalsAfter(before).0;
      Laid(before, key)
        + (if IsFieldItem(items[|items| - 1], key.0) && g.rid == key.1 then Span(Count(g.rcount), g.rsize) else 0)
  }

  lemma GlobalsStep(items: seq<Short>, it: Short)
    ensures GlobalsAfter(items + [it]) == NextGlobals(GlobalsAfter(items).0, GlobalsAfter(items).1, it)
    ensures it.ty != 1 ==> GlobalsAfter(items + [it]) == GlobalsAfter(items)
  {
    assert (items + [it])[..|items|] == items;
  }

  lemma LaidStep(items: seq<Short>, it: Short, key: Key)
    ensures var g := GlobalsAfter(items).0;
      Laid(items + [it], key) == Laid(items, key)
        + (if IsFieldItem(it, key.0) && g.rid == key.1 then Span(Count(g.rcount), g.rsize) else 0)
  {
    assert (items + [it])[..|items|] == items;
  }
}
