/** Short items as bytes: what a descriptor writer emits reads back as the same items. */
module HidEncode {
  import opened Scalars
  import opened HidBits
  import opened HidItems

  /** A short item a descriptor can hold: a data size of 0, 1, 2 or 4, and not the long-item prefix. */
  predicate Encodable(it: Short)
  {
    && it.ty < 4 && it.tag < 16 && it.size in {0, 1, 2, 4} && it.u < Limit(it.size)
    && Prefix(it) != 0xFE
  }

  function Limit(size: nat): (n: nat)
    requires size in {0, 1, 2, 4}
  {
    if size == 0 then 1 else if size == 1 then 0x100 else if size == 2 then 0x1_0000 else WORD
  }

  /** The item's first byte: tag, type and size code. */
  function Prefix(it: Short): (b: nat) { it.tag * 16 + it.ty * 4 + if it.size == 4 then 3 else it.size }

  /** The low `size` bytes of the data, lowest first. */
  function DataBytes(u: nat, size: nat): (r: seq<Byte>)
    ensures |r| == size
  {
    if size == 0 then [] else [u % 256] + DataBytes(u / 256, size - 1)
  }

  function Encode(it: Short): (r: seq<Byte>)
    requires Encodable(it)
  {
    [Prefix(it)] + DataBytes(it.u, it.size)
  }

  function EncodeAll(items: seq<Short>): (r: seq<Byte>)
    requires forall i :: 0 <= i < |items| ==> Encodable(items[i])
  {
    if items == [] then [] else Encode(items[0]) + EncodeAll(items[1..])
  }

  lemma DataReadsBack(u: nat, size: nat)
    requires size in {0, 1, 2, 4} && u < Limit(size)
    ensures Number(DataBytes(u, size)) == u
  {
    if size == 1 {
      assert DataBytes(u, 1) == [u];
    } else if size == 2 {
      assert DataBytes(u, 2) == [u % 256, u / 256];
      NumberOfTwo(u % 256, u / 256);
    } else if size == 4 {
      FourBytes(u);
    }
  }

  lemma NumberOfTwo(a: Byte, b: Byte)
    ensures Number([a, b]) == a + 256 * b
  {
    NumberCons(b, []);
    NumberCons(a, [b]);
    assert [b] + [] == [b] && [a] + [b] == [a, b];
  }

  lemma FourBytes(u: nat)
    requires u < WORD
    ensures Number(DataBytes(u, 4)) == u
  {
    var a, v := u % 256, u / 256;
    var b, w := v % 256, v / 256;
    var c, d := w % 256, w / 256;
    assert DataBytes(w, 2) == [c, d];
    assert DataBytes(v, 3) == [b] + DataBytes(w, 2);
    assert DataBytes(u, 4) == [a] + DataBytes(v, 3);
    NumberOfTwo(c, d);
    NumberCons(b, DataBytes(w, 2));
    NumberCons(a, DataBytes(v, 3));
  }

  lemma NumberCons(a: Byte, r: seq<Byte>)
    ensures Number([a] + r) == a + 256 * Number(r)
  {
    assert ([a] + r)[1..] == r;
  }

  lemma ScanOfEncoded(d: seq<Byte>, i: nat, it: Short)
    requires Encodable(it) && i + 1 + it.size <= |d| && d[i..i + 1 + it.size] == Encode(it)
    ensures ScanAt(d, i) == Got(it, i + 1 + it.size)
  {
    assert d[i] == d[i..i + 1 + it.size][0] == Prefix(it);
    PrefixReadsBack(it);
    assert d[i + 1..i + 1 + it.size] == d[i..i + 1 + it.size][1..] == DataBytes(it.u, it.size);
    DataReadsBack(it.u, it.size);
  }

  lemma PrefixReadsBack(it: Short)
    requires Encodable(it)
    ensures Prefix(it) < 256 && DataSize(Prefix(it)) == it.size
    ensures Prefix(it) / 4 % 4 == it.ty && Prefix(it) / 16 == it.tag
  {
  }

  /** Every list of encodable items reads back from its bytes, wherever they stand. */
  lemma {:induction false} ItemsReadBack(d: seq<Byte>, i: nat, items: seq<Short>)
    requires forall k :: 0 <= k < |items| ==> Encodable(items[k])
    requires i <= |d| && d[i..] == EncodeAll(items)
    ensures ItemsFrom(d, i) == items
    decreases |items|
  {
    if items != [] {
      var it, next := items[0], i + 1 + items[0].size;
      FirstReadsBack(d, i, it, EncodeAll(items[1..]));
      ItemsReadBack(d, next, items[1..]);
      assert [it] + items[1..] == items;
    }
  }

  lemma FirstReadsBack(d: seq<Byte>, i: nat, it: Short, rest: seq<Byte>)
    requires Encodable(it) && i <= |d| && d[i..] == Encode(it) + rest
    ensures var next := i + 1 + it.size;
            next <= |d| && ScanAt(d, i) == Got(it, next) && d[next..] == rest
  {
    var next := i + 1 + it.size;
    assert |d[i..]| == |d| - i && |Encode(it)| == 1 + it.size;
    assert d[i..next] == d[i..][..1 + it.size] == Encode(it);
    ScanOfEncoded(d, i, it);
    assert d[next..] == d[i..][1 + it.size..] == rest;
  }
}
