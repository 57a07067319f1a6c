/** The ELF32 loader: header validation with 32-bit arithmetic, and the pages a load leaves behind. */
module Elf {
  import opened Bits
  import opened Scalars

  const WORD := 0x1_0000_0000
  const KERNEL_VBASE := 0xC000_0000
  const PAGE := 0x1000
  const HEADER := 52
  const PH_SIZE := 32
  const PH_LOAD := 1
  const MAX_PAGES := 32

  /** An image in memory: its bytes, and what a read outside it (at an offset modulo 2^32) would return. */
  datatype Image = Image(bytes: seq<Byte>, beyond: nat -> Byte)
  {
    predicate Valid() { |bytes| < WORD }

    function At(off: nat): (b: Byte)
    {
      var o := off % WORD;
      if o < |bytes| then bytes[o] else beyond(o)
    }

    function U16(off: nat): (v: nat)
      ensures v < 0x1_0000
    {
      At(off) + 256 * At(off + 1)
    }

    function U32(off: nat): (v: nat)
      ensures v < WORD
    {
      U16(off) + 0x1_0000 * U16(off + 2)
    }

    // header fields
    function Entry(): (v: nat) { U32(24) }
    function PhOff(): (v: nat) { U32(28) }
    function PhEntSize(): (v: nat) { U16(42) }
    function PhNum(): (v: nat) { U16(44) }

    /** The program header at offset `o`. */
    function SegmentAt(o: nat): (s: Segment)
      ensures s.Words()
    {
      Seg(U32(o), U32(o + 4), U32(o + 8), U32(o + 16), U32(o + 20))
    }

    /** Where program header `i` is read. */
    function HeaderOffset(i: nat): (o: nat)
    {
      MulNonNeg(i, PhEntSize());
      PhOff() + i * PhEntSize()
    }

    function Segments(): (r: seq<Segment>)
      ensures |r| == PhNum() && forall i :: 0 <= i < |r| ==> r[i].Words()
    {
      seq(PhNum(), i requires 0 <= i => SegmentAt(HeaderOffset(i)))
    }
  }

  datatype Segment = Seg(kind: nat, offset: nat, vaddr: nat, filesz: nat, memsz: nat)
  {
    predicate Words() { kind < WORD && offset < WORD && vaddr < WORD && filesz < WORD && memsz < WORD }

    predicate Loads() { kind == PH_LOAD && memsz != 0 }

    /** The segment lies in user memory, its file part in a file of `len` bytes and in its memory part. */
    predicate Fits(len: nat)
    {
      vaddr + memsz <= KERNEL_VBASE && offset + filesz <= len && filesz <= memsz
    }

    function First(): (p: nat) { vaddr - vaddr % PAGE }
    function Last(): (p: nat) { (vaddr + memsz + 0xFFF) - (vaddr + memsz + 0xFFF) % PAGE }

    /** Page `p` holds some byte of the segment. */
    predicate Touches(p: nat) { p % PAGE == 0 && First() <= p < Last() }

    /** The file's byte for address `a`. */
    function FileByte(file: seq<Byte>, a: nat): (b: Byte)
      requires Covers(a)
    {
      var o := offset + (a - vaddr);
      if o < |file| then file[o] else 0
    }

    predicate Covers(a: nat) { Loads() && vaddr <= a < vaddr + filesz }
  }

  // ---- validation ----

  /** The checks before the segment loop, in order, with the table's end computed modulo 2^32. */
  function HeaderCode(img: Image): (c: int)
  {
    if |img.bytes| < HEADER then -1
    else if img.At(0) != 0x7F || img.At(1) != 'E' as int || img.At(2) != 'L' as int || img.At(3) != 'F' as int then -1
    else if img.At(4) != 1 || img.At(5) != 1 then -2
    else if img.U16(16) != 2 || img.U16(18) != 3 then -2
    else if img.PhNum() == 0 || img.PhEntSize() < PH_SIZE then -3
    else if !TablePasses(TableEnd(img.PhOff(), img.PhNum(), img.PhEntSize()), |img.bytes|) then -5
    else if img.Entry() >= KERNEL_VBASE then -4
    else 0
  }

  /** The checks on one segment, in order, with 32-bit sums. */
  function SegmentCode(s: Segment, len: nat): (c: int)
  {
    if !s.Loads() then 0
    else if s.vaddr >= KERNEL_VBASE then -4
    else if (s.vaddr + s.memsz) % WORD < s.vaddr then -4
    else if (s.vaddr + s.memsz) % WORD > KERNEL_VBASE then -4
    else if (s.offset + s.filesz) % WORD < s.offset then -5
    else if (s.offset + s.filesz) % WORD > len then -5
    else if s.filesz > s.memsz then -5
    else 0
  }

  /** The wrap-around tests are exact: a segment passes just when it fits, sums taken without wrap. */
  lemma SegmentCodeIsFit(s: Segment, len: nat)
    requires s.Words() && len < WORD
    ensures SegmentCode(s, len) == 0 <==> s.Loads() ==> s.Fits(len)
    ensures SegmentCode(s, len) == -4 <==> s.Loads() && s.vaddr + s.memsz > KERNEL_VBASE
  {
    WrapOnce(s.vaddr, s.memsz);
    WrapOnce(s.offset, s.filesz);
  }

  lemma WrapOnce(a: nat, b: nat)
    requires a < WORD && b < WORD
    ensures (a + b) % WORD == if a + b < WORD then a + b else a + b - WORD
  {
  }

  /** The end of the program header table, unwrapped. */
  function TableEnd(phoff: nat, phnum: nat, entsize: nat): (end: nat)
  {
    MulNonNeg(phnum, entsize);
    phoff + phnum * entsize
  }

  /** The test on the table's end, taken modulo 2^32. */
  predicate TablePasses(end: nat, len: nat) { end % WORD <= len }

  ghost predicate TableTestExact(end: nat, len: nat) { TablePasses(end, len) <==> end <= len }

  /** The table test is exact for every file length just when the table's end does not wrap. */
  lemma TableTestExactIff(phoff: nat, phnum: nat, entsize: nat)
    requires phoff < WORD && phnum < 0x1_0000 && entsize < 0x1_0000
    ensures (forall len: nat :: len < WORD ==> TableTestExact(TableEnd(phoff, phnum, entsize), len))
        <==> TableEnd(phoff, phnum, entsize) < WORD
  {
    TableBound(phnum, entsize);
    var end := TableEnd(phoff, phnum, entsize);
    WrapOnce(phoff, phnum * entsize);
    if end >= WORD {
      assert !TableTestExact(end, end - WORD);
    }
  }

  lemma TableBound(phnum: nat, entsize: nat)
    requires phnum < 0x1_0000 && entsize < 0x1_0000
    ensures 0 <= phnum * entsize < WORD
  {
    MulNonNeg(phnum, entsize);
    MulMono(phnum, 0xFFFF, entsize);
  }

  /** First failing segment's code from `i` on. */
  function SegmentsCode(segs: seq<Segment>, len: nat, i: nat): (c: int)
    requires i <= |segs|
    decreases |segs| - i
  {
    if i == |segs| then 0
    else
      var c := SegmentCode(segs[i], len);
      if c != 0 then c else SegmentsCode(segs, len, i + 1)
  }

  ghost predicate AllFit(segs: seq<Segment>, len: nat, i: nat)
  {
    forall j :: i <= j < |segs| && segs[j].Loads() ==> segs[j].Fits(len)
  }

  lemma {:induction false} SegmentsCodeIsFit(segs: seq<Segment>, len: nat, i: nat)
    requires len < WORD && i <= |segs| && forall j :: 0 <= j < |segs| ==> segs[j].Words()
    ensures SegmentsCode(segs, len, i) == 0 <==> AllFit(segs, len, i)
    decreases |segs| - i
  {
    if i < |segs| {
      SegmentCodeIsFit(segs[i], len);
      SegmentsCodeIsFit(segs, len, i + 1);
    }
  }

  method CheckSegments(segs: seq<Segment>, len: nat) returns (code: int)
    ensures code == SegmentsCode(segs, len, 0)
  {
    var i := 0;
    while i < |segs|
      invariant 0 <= i <= |segs|
      invariant SegmentsCode(segs, len, 0) == SegmentsCode(segs, len, i)
    {
      code := SegmentCode(segs[i], len);
      if code != 0 { return; }
      i := i + 1;
    }
    code := 0;
  }

  /** The code of the first failing check. */
  function Verdict(img: Image): (c: int)
  {
    if HeaderCode(img) != 0 then HeaderCode(img) else SegmentsCode(img.Segments(), |img.bytes|, 0)
  }

  /** The header is right and every loadable segment fits. */
  ghost predicate Accepted(img: Image)
  {
    HeaderCode(img) == 0 && AllFit(img.Segments(), |img.bytes|, 0)
  }

  /** elf_validate: 0 exactly for accepted images, else the first failing check's code. */
  method Validate(img: Image) returns (code: int)
    requires img.Valid()
    ensures code == 0 <==> Accepted(img)
    ensures code == Verdict(img)
  {
    code := HeaderCode(img);
    if code != 0 { return; }
    SegmentsCodeIsFit(img.Segments(), |img.bytes|, 0);
    code := CheckSegments(img.Segments(), |img.bytes|);
  }

  lemma FieldInFile(img: Image, other: nat -> Byte, o: nat)
    requires img.Valid() && o + 4 <= |img.bytes|
    ensures img.U32(o) == Image(img.bytes, other).U32(o)
  {
  }

  lemma SegmentInFile(img: Image, other: nat -> Byte, o: nat)
    requires img.Valid() && o + PH_SIZE <= |img.bytes|
    ensures img.SegmentAt(o) == Image(img.bytes, other).SegmentAt(o)
  {
    FieldInFile(img, other, o);
    FieldInFile(img, other, o + 4);
    FieldInFile(img, other, o + 8);
    FieldInFile(img, other, o + 16);
    FieldInFile(img, other, o + 20);
  }

  /** Entry `i` of a table of entries at least as long as a program header ends inside the table. */
  lemma EntryInside(phoff: nat, i: nat, n: nat, e: nat)
    requires i < n && PH_SIZE <= e
    ensures 0 <= i * e && phoff + i * e + PH_SIZE <= TableEnd(phoff, n, e)
  {
    MulNonNeg(i, e);
    MulDist(i, 1, e);
    MulMono(i + 1, n, e);
  }

  lemma HeaderInFile(img: Image, other: nat -> Byte)
    requires img.Valid() && HEADER <= |img.bytes|
    ensures var alt := Image(img.bytes, other);
      alt.PhOff() == img.PhOff() && alt.PhNum() == img.PhNum() && alt.PhEntSize() == img.PhEntSize()
  {
    FieldInFile(img, other, 28);
  }

  lemma EntryInFile(img: Image, other: nat -> Byte, i: nat)
    requires img.Valid() && HEADER <= |img.bytes| && i < img.PhNum() && PH_SIZE <= img.PhEntSize()
    requires TableEnd(img.PhOff(), img.PhNum(), img.PhEntSize()) <= |img.bytes|
    ensures img.HeaderOffset(i) + PH_SIZE <= |img.bytes|
    ensures img.Segments()[i] == Image(img.bytes, other).SegmentAt(img.HeaderOffset(i))
  {
    EntryInside(img.PhOff(), i, img.PhNum(), img.PhEntSize());
    SegmentInFile(img, other, img.HeaderOffset(i));
  }

  lemma HeaderPasses(img: Image)
    requires HeaderCode(img) == 0
    ensures HEADER <= |img.bytes| && PH_SIZE <= img.PhEntSize()
    ensures TablePasses(TableEnd(img.PhOff(), img.PhNum(), img.PhEntSize()), |img.bytes|)
  {
  }

  lemma PassesUnwrapped(end: nat, len: nat)
    requires TablePasses(end, len) && end < WORD
    ensures end <= len
  {
  }

  /** When the table's end does not wrap, an accepted header keeps every table read inside the file: the
      segments do not depend on what lies beyond it. */
  lemma TableInFile(img: Image, other: nat -> Byte)
    requires img.Valid() && HeaderCode(img) == 0
    requires TableEnd(img.PhOff(), img.PhNum(), img.PhEntSize()) < WORD
    ensures forall i :: 0 <= i < img.PhNum() ==> img.HeaderOffset(i) + PH_SIZE <= |img.bytes|
    ensures img.Segments() == Image(img.bytes, other).Segments()
  {
    var alt := Image(img.bytes, other);
    HeaderPasses(img);
    PassesUnwrapped(TableEnd(img.PhOff(), img.PhNum(), img.PhEntSize()), |img.bytes|);
    HeaderInFile(img, other);
    forall i | 0 <= i < img.PhNum()
      ensures img.HeaderOffset(i) + PH_SIZE <= |img.bytes| && img.Segments()[i] == alt.Segments()[i]
    {
      EntryInFile(img, other, i);
      assert alt.HeaderOffset(i) == img.HeaderOffset(i);
    }
  }

  // ---- a table that wraps ----

  /** A header whose one program header is the last 32 bytes of the address range. */
  function WrappedByte(k: nat): (b: Byte)
  {
    if k == 0 then 0x7F else if k == 1 then 'E' as int else if k == 2 then 'L' as int else if k == 3 then 'F' as int
    else if k == 4 || k == 5 || k == 44 then 1
    else if k == 16 then 2 else if k == 18 then 3
    else if k == 28 then 0xE0 else if 29 <= k < 32 then 0xFF
    else if k == 42 then PH_SIZE
    else 0
  }

  ghost predicate StartsWrapped(bytes: seq<Byte>)
  {
    HEADER <= |bytes| < WORD && forall k :: 0 <= k < HEADER ==> bytes[k] == WrappedByte(k)
  }

  /** Memory past the file that reads as a segment to skip, and as one above user memory. */
  function Blank(o: nat): (b: Byte) { 0 }

  function Foreign(o: nat): (b: Byte) { if o == 0xFFFF_FFE0 then 1 else if o < 0xFFFF_FFE4 then 0 else 0xFF }

  lemma WrappedFields(img: Image)
    requires StartsWrapped(img.bytes)
    ensures img.PhOff() == 0xFFFF_FFE0 && img.PhNum() == 1 && img.PhEntSize() == PH_SIZE && img.Entry() == 0
    ensures img.U16(16) == 2 && img.U16(18) == 3
  {
  }

  lemma WrappedHeader(img: Image)
    requires StartsWrapped(img.bytes)
    ensures HeaderCode(img) == 0
  {
    WrappedFields(img);
    assert TableEnd(img.PhOff(), img.PhNum(), img.PhEntSize()) == WORD;
  }

  lemma WrappedSegment(img: Image)
    requires StartsWrapped(img.bytes)
    ensures Verdict(img) == SegmentCode(img.SegmentAt(0xFFFF_FFE0), |img.bytes|)
  {
    WrappedHeader(img);
    WrappedFields(img);
    var segs := img.Segments();
    assert img.HeaderOffset(0) == 0xFFFF_FFE0;
    assert segs[0] == img.SegmentAt(0xFFFF_FFE0);
    assert SegmentsCode(segs, |img.bytes|, 1) == 0;
  }

  /** Any file that starts with this header passes the header checks though its table lies outside it, and what
      the validator then says depends on memory that is not the file's. */
  lemma WrappedTablePasses(bytes: seq<Byte>)
    requires StartsWrapped(bytes) && |bytes| <= 0xFFFF_FFE0
    ensures var img, alt := Image(bytes, Blank), Image(bytes, Foreign);
            && HeaderCode(img) == HeaderCode(alt) == 0 && img.HeaderOffset(0) >= |bytes|
            && Verdict(img) == 0 && Verdict(alt) == -4
  {
    var img, alt := Image(bytes, Blank), Image(bytes, Foreign);
    WrappedHeader(img);
    WrappedHeader(alt);
    WrappedFields(img);
    WrappedSegment(img);
    WrappedSegment(alt);
    assert img.SegmentAt(0xFFFF_FFE0).kind == 0;
    assert alt.SegmentAt(0xFFFF_FFE0).kind == 1 && alt.SegmentAt(0xFFFF_FFE0).vaddr == 0xFFFF_FFFF;
    assert alt.SegmentAt(0xFFFF_FFE0).memsz == 0xFFFF_FFFF;
  }

  // ---- what a load should leave ----

  /** The byte at address `a` after the first `k` segments: the last file part covering it, else zero. */
  ghost function Content(segs: seq<Segment>, file: seq<Byte>, k: nat, a: nat): (b: Byte)
    requires k <= |segs|
  {
    if k == 0 then 0
    else
      var s := segs[k - 1];
      if s.Covers(a) then s.FileByte(file, a) else Content(segs, file, k - 1, a)
  }

  /** Content, without its recursion. */
  lemma {:induction false} ContentIsLastCover(segs: seq<Segment>, file: seq<Byte>, k: nat, a: nat, j: nat)
    requires k <= |segs|
    requires j < k && segs[j].Covers(a) && forall i :: j < i < k ==> !segs[i].Covers(a)
    ensures Content(segs, file, k, a) == segs[j].FileByte(file, a)
  {
    if j < k - 1 {
      ContentIsLastCover(segs, file, k - 1, a, j);
    }
  }

  lemma {:induction false} UncoveredIsZero(segs: seq<Segment>, file: seq<Byte>, k: nat, a: nat)
    requires k <= |segs| && forall i :: 0 <= i < k ==> !segs[i].Covers(a)
    ensures Content(segs, file, k, a) == 0
  {
    if k > 0 {
      UncoveredIsZero(segs, file, k - 1, a);
    }
  }

  /** Some loadable segment among the first `k` touches page `p`. */
  ghost predicate Needed(segs: seq<Segment>, k: nat, p: nat)
    requires k <= |segs|
  {
    exists j :: 0 <= j < k && segs[j].Loads() && segs[j].Touches(p)
  }

  lemma CoverIsTouch(s: Segment, p: nat, b: nat)
    requires s.filesz <= s.memsz && p % PAGE == 0 && b < PAGE
    ensures s.Covers(p + b) ==> s.Touches(p)
  {
  }

  lemma UnneededIsZero(segs: seq<Segment>, file: seq<Byte>, k: nat, p: nat, b: nat)
    requires k <= |segs| && AllFit(segs, |file|, 0)
    requires p % PAGE == 0 && b < PAGE && !Needed(segs, k, p)
    ensures Content(segs, file, k, p + b) == 0
  {
    forall i | 0 <= i < k
      ensures !segs[i].Covers(p + b)
    {
      if segs[i].Loads() {
        CoverIsTouch(segs[i], p, b);
      }
    }
    UncoveredIsZero(segs, file, k, p + b);
  }
}
