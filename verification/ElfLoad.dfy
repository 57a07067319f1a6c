/** elf_load: maps each needed page once and copies every segment's file bytes into it. */
module ElfLoad {
  import opened Scalars
  import opened Elf

  /** The pages a run over all of `segs` needs. */
  ghost function NeededPages(segs: seq<Segment>): (r: set<nat>)
  {
    set p: nat | p < KERNEL_VBASE && Needed(segs, |segs|, p)
  }

  /** Page `q` is wanted once the first `k` segments and the part of segment `k` below `upto` are in. */
  ghost predicate Wanted(segs: seq<Segment>, k: nat, upto: nat, q: nat)
    requires k <= |segs|
  {
    Needed(segs, k, q) || (k < |segs| && segs[k].Loads() && segs[k].Touches(q) && q < upto)
  }

  /** How many segments page `q` already holds at that point. */
  ghost function Stage(segs: seq<Segment>, k: nat, upto: nat, q: nat): (r: nat)
    requires k <= |segs|
    ensures r <= |segs|
  {
    if k < |segs| && segs[k].Loads() && segs[k].First() <= q < upto then k + 1 else k
  }

  ghost predicate Distinct(s: seq<nat>)
  {
    forall i, j :: 0 <= i < j < |s| ==> s[i] != s[j]
  }

  /** The page allocator: 0 for none, otherwise a frame of memory it has not handed out before. */
  ghost predicate Allocator(frames: nat -> nat, size: nat)
  {
    && (forall k: nat :: frames(k) < size || frames(k) == 0)
    && (forall j: nat, k: nat :: j < k && frames(j) != 0 ==> frames(j) != frames(k))
  }

  lemma WantedStep(segs: seq<Segment>, k: nat, page: nat, q: nat)
    requires k < |segs| && segs[k].Loads() && segs[k].Touches(page)
    ensures Wanted(segs, k, page + PAGE, q) <==> Wanted(segs, k, page, q) || q == page
  {
  }

  lemma StageStep(segs: seq<Segment>, k: nat, page: nat, q: nat)
    requires k < |segs| && segs[k].Loads() && segs[k].Touches(page) && q % PAGE == 0
    ensures Stage(segs, k, page + PAGE, q) == if q == page then k + 1 else Stage(segs, k, page, q)
  {
  }

  /** With all its pages done, segment `k` is loaded. */
  lemma WantedDone(segs: seq<Segment>, k: nat, upto: nat, q: nat)
    requires k < |segs| && (segs[k].Loads() ==> upto == segs[k].Last())
    ensures Wanted(segs, k, upto, q) <==> Wanted(segs, k + 1, 0, q)
  {
    if Wanted(segs, k + 1, 0, q) {
      var j :| 0 <= j < k + 1 && segs[j].Loads() && segs[j].Touches(q);
      assert j < k ==> Needed(segs, k, q);
    }
    if k < |segs| && segs[k].Loads() && segs[k].Touches(q) {
      assert Needed(segs, k + 1, q);
    }
  }

  lemma StageDone(segs: seq<Segment>, file: seq<Byte>, k: nat, upto: nat, q: nat, b: nat)
    requires k < |segs| && AllFit(segs, |file|, 0) && (segs[k].Loads() ==> upto == segs[k].Last())
    requires q % PAGE == 0 && b < PAGE
    ensures Content(segs, file, Stage(segs, k, upto, q), q + b) == Content(segs, file, Stage(segs, k + 1, 0, q), q + b)
  {
    if segs[k].Loads() {
      CoverIsTouch(segs[k], q, b);
    }
  }

  lemma TouchesUser(segs: seq<Segment>, len: nat, q: nat)
    requires AllFit(segs, len, 0) && Needed(segs, |segs|, q)
    ensures q in NeededPages(segs)
  {
    var j :| 0 <= j < |segs| && segs[j].Loads() && segs[j].Touches(q);
    assert segs[j].Fits(len);
  }

  class Loader {
    const frames: nat -> nat      // the allocator's answers, in order
    const base: nat               // answers used up before this load
    const ram: array2<Byte>       // physical memory, by frame and byte
    var taken: nat
    var pages: seq<nat>
    var physFor: seq<nat>
    var mapped: seq<(nat, nat)>   // calls of the map callback

    constructor (frames: nat -> nat, base: nat, ram: array2<Byte>)
      requires Allocator(frames, ram.Length0) && ram.Length1 == PAGE
      ensures Valid() && pages == [] && this.ram == ram && this.frames == frames && this.base == base
    {
      this.frames, this.base, this.ram := frames, base, ram;
      taken, pages, physFor, mapped := base, [], [], [];
    }

    ghost predicate Valid()
      reads this
    {
      && Allocator(frames, ram.Length0) && ram.Length1 == PAGE
      && Tables() && taken == base + |pages|
    }

    /** The side tables: distinct pages, each with the frame allocated for it and mapped to it. */
    ghost predicate Tables()
      reads this`pages, this`physFor, this`mapped
    {
      && |pages| == |physFor| == |mapped| <= MAX_PAGES
      && Distinct(pages) && (forall m :: 0 <= m < |pages| ==> pages[m] % PAGE == 0)
      && (forall m :: 0 <= m < |pages| ==> physFor[m] == frames(base + m) && 0 < physFor[m] < ram.Length0)
      && (forall m :: 0 <= m < |pages| ==> mapped[m] == (pages[m], physFor[m]))
    }

    /** Memory agrees with the segments loaded so far on every mapped page. */
    ghost predicate Filled(segs: seq<Segment>, file: seq<Byte>, k: nat, upto: nat)
      requires k <= |segs| && Valid()
      reads this, ram
    {
      forall m, b :: 0 <= m < |pages| && 0 <= b < PAGE ==>
        ram[physFor[m], b] == Content(segs, file, Stage(segs, k, upto, pages[m]), pages[m] + b)
    }

    ghost predicate Mapped(segs: seq<Segment>, k: nat, upto: nat)
      requires k <= |segs|
      reads this
    {
      forall q: nat :: q in pages <==> Wanted(segs, k, upto, q)
    }

    /** Frame `g` is one the allocator could hand to this load. */
    ghost predicate Owns(g: nat)
    {
      exists i: nat :: base <= i < base + MAX_PAGES && frames(i) == g
    }

    /** A needed page could not be mapped. */
    ghost predicate Stuck(segs: seq<Segment>)
      reads this
    {
      && Exhausted() && Distinct(pages)
      && (forall q: nat :: q in pages ==> Needed(segs, |segs|, q))
      && exists q: nat :: q !in pages && Needed(segs, |segs|, q)
    }

    method FindSlot(page: nat) returns (slot: int)
      requires Valid()
      ensures -1 <= slot < |pages|
      ensures if slot < 0 then page !in pages else pages[slot] == page
    {
      for m := 0 to |pages|
        invariant page !in pages[..m]
      {
        if pages[m] == page { return m; }
      }
      return -1;
    }

    method ZeroFrame(f: nat)
      requires f < ram.Length0 && ram.Length1 == PAGE
      modifies ram
      ensures forall b :: 0 <= b < PAGE ==> ram[f, b] == 0
      ensures forall g, b :: 0 <= g < ram.Length0 && g != f && 0 <= b < PAGE ==> ram[g, b] == old(ram[g, b])
    {
      for i := 0 to PAGE
        invariant forall b :: 0 <= b < i ==> ram[f, b] == 0
        invariant forall g, b :: 0 <= g < ram.Length0 && g != f && 0 <= b < PAGE ==> ram[g, b] == old(ram[g, b])
      {
        ram[f, i] := 0;
      }
    }

    /** The table is full, or the allocator has no further page. */
    predicate Exhausted()
      reads this
    {
      |pages| == MAX_PAGES || (|pages| < MAX_PAGES && frames(base + |pages|) == 0)
    }

    /** Maps a fresh zeroed page, unless the table is full or the allocator has none. */
    method AddPage(page: nat) returns (slot: int)
      requires Valid() && page !in pages && page % PAGE == 0
      modifies this, ram
      ensures slot < 0 ==> Exhausted() && pages == old(pages)
      ensures slot >= 0 ==> Valid() && slot == |old(pages)|
      ensures slot >= 0 ==> pages == old(pages) + [page] && physFor[..|old(pages)|] == old(physFor)
      ensures slot >= 0 ==> forall b :: 0 <= b < PAGE ==> ram[physFor[slot], b] == 0
      ensures forall g, b :: 0 <= g < ram.Length0 && g != frames(base + |old(pages)|) && 0 <= b < PAGE ==>
        ram[g, b] == old(ram[g, b])
      ensures |old(pages)| < MAX_PAGES ||
        forall g, b :: 0 <= g < ram.Length0 && 0 <= b < PAGE ==> ram[g, b] == old(ram[g, b])
    {
      if |pages| >= MAX_PAGES { return -1; }
      var phys := frames(taken);
      taken := taken + 1;
      if phys == 0 { return -1; }
      ZeroFrame(phys);
      slot := |pages|;
      Enlist(page, phys);
    }

    /** Hands the page to the mapping callback and enters it in both tables. */
    method Enlist(page: nat, phys: nat)
      requires Tables() && |pages| < MAX_PAGES && page !in pages && page % PAGE == 0
      requires phys == frames(base + |pages|) && 0 < phys < ram.Length0
      modifies this`mapped, this`pages, this`physFor
      ensures Tables() && pages == old(pages) + [page] && physFor == old(physFor) + [phys]
    {
      mapped := mapped + [(page, phys)];
      pages, physFor := pages + [page], physFor + [phys];
    }

    /** Copies the page's slice of the segment's file bytes. */
    method CopySlice(s: Segment, page: nat, f: nat, file: seq<Byte>)
      requires s.Loads() && s.Fits(|file|) && f < ram.Length0 && ram.Length1 == PAGE
      modifies ram
      ensures forall b :: 0 <= b < PAGE ==>
        ram[f, b] == if s.Covers(page + b) then s.FileByte(file, page + b) else old(ram[f, b])
      ensures forall g, b :: 0 <= g < ram.Length0 && g != f && 0 <= b < PAGE ==> ram[g, b] == old(ram[g, b])
    {
      var copyStart := if s.vaddr > page then s.vaddr else page;
      var fileEnd := s.vaddr + s.filesz;
      var copyEnd := if fileEnd < page + PAGE then fileEnd else page + PAGE;
      if copyEnd > copyStart {
        var dst, src := copyStart - page, s.offset + (copyStart - s.vaddr);
        for k := 0 to copyEnd - copyStart
          invariant forall b :: 0 <= b < PAGE ==>
            ram[f, b] == if dst <= b < dst + k then s.FileByte(file, page + b) else old(ram[f, b])
          invariant forall g, b :: 0 <= g < ram.Length0 && g != f && 0 <= b < PAGE ==> ram[g, b] == old(ram[g, b])
        {
          ram[f, dst + k] := file[src + k];
        }
      }
    }

    /** Finds the page's slot, mapping it when it is new. */
    method EnsurePage(segs: seq<Segment>, file: seq<Byte>, k: nat, page: nat) returns (slot: int)
      requires Valid() && k < |segs| && AllFit(segs, |file|, 0)
      requires segs[k].Loads() && segs[k].Touches(page)
      requires Mapped(segs, k, page) && Filled(segs, file, k, page)
      modifies this, ram
      ensures slot < 0 ==> page !in pages && pages == old(pages) && Exhausted()
      ensures slot >= 0 ==> Valid() && slot < |pages| && pages[slot] == page && Filled(segs, file, k, page)
      ensures slot >= 0 ==> pages == if page in old(pages) then old(pages) else old(pages) + [page]
      ensures forall g, b :: 0 <= g < ram.Length0 && 0 <= b < PAGE && !Owns(g) ==> ram[g, b] == old(ram[g, b])
    {
      slot := FindSlot(page);
      if slot < 0 {
        assert !Wanted(segs, k, page, page);
        slot := AddPage(page);
        if slot >= 0 {
          forall b | 0 <= b < PAGE
            ensures ram[physFor[slot], b] == Content(segs, file, k, page + b)
          {
            UnneededIsZero(segs, file, k, page, b);
          }
        }
      }
    }

    /** Brings a mapped page from `k` to `k + 1` segments. */
    method FillPage(segs: seq<Segment>, file: seq<Byte>, k: nat, page: nat, slot: nat)
      requires Valid() && k < |segs| && AllFit(segs, |file|, 0)
      requires segs[k].Loads() && segs[k].Touches(page)
      requires slot < |pages| && pages[slot] == page && Filled(segs, file, k, page)
      modifies ram
      ensures Filled(segs, file, k, page + PAGE)
      ensures forall g, b :: 0 <= g < ram.Length0 && 0 <= b < PAGE && !Owns(g) ==> ram[g, b] == old(ram[g, b])
    {
      assert Owns(physFor[slot]);
      CopySlice(segs[k], page, physFor[slot], file);
      forall m, b | 0 <= m < |pages| && 0 <= b < PAGE
        ensures ram[physFor[m], b] == Content(segs, file, Stage(segs, k, page + PAGE, pages[m]), pages[m] + b)
      {
        StageStep(segs, k, page, pages[m]);
        assert m != slot ==> pages[m] != page && physFor[m] != physFor[slot];
      }
    }

    /** One page of segment `k`. */
    method PlacePage(segs: seq<Segment>, file: seq<Byte>, k: nat, page: nat) returns (ok: bool)
      requires Valid() && k < |segs| && AllFit(segs, |file|, 0)
      requires segs[k].Loads() && segs[k].Touches(page)
      requires Mapped(segs, k, page) && Filled(segs, file, k, page)
      modifies this, ram
      ensures ok ==> Valid() && Mapped(segs, k, page + PAGE) && Filled(segs, file, k, page + PAGE)
      ensures !ok ==> page !in pages && pages == old(pages) && Exhausted()
      ensures forall g, b :: 0 <= g < ram.Length0 && 0 <= b < PAGE && !Owns(g) ==> ram[g, b] == old(ram[g, b])
    {
      var slot := EnsurePage(segs, file, k, page);
      if slot < 0 { return false; }
      forall q: nat
        ensures q in pages <==> Wanted(segs, k, page + PAGE, q)
      {
        WantedStep(segs, k, page, q);
      }
      FillPage(segs, file, k, page, slot);
      return true;
    }

    /** All pages of segment `k`. */
    method LoadSegment(segs: seq<Segment>, file: seq<Byte>, k: nat) returns (ok: bool)
      requires Valid() && k < |segs| && AllFit(segs, |file|, 0)
      requires Mapped(segs, k, 0) && Filled(segs, file, k, 0)
      modifies this, ram
      ensures ok ==> Valid() && Mapped(segs, k + 1, 0) && Filled(segs, file, k + 1, 0)
      ensures !ok ==> Stuck(segs)
      ensures forall g, b :: 0 <= g < ram.Length0 && 0 <= b < PAGE && !Owns(g) ==> ram[g, b] == old(ram[g, b])
    {
      var s := segs[k];
      var page := 0;
      if s.Loads() {
        page := s.First();
        while page < s.Last()
          invariant page % PAGE == 0 && s.First() <= page <= s.Last()
          invariant Valid() && Mapped(segs, k, page) && Filled(segs, file, k, page)
          invariant forall g, b :: 0 <= g < ram.Length0 && 0 <= b < PAGE && !Owns(g) ==> ram[g, b] == old(ram[g, b])
        {
          ok := PlacePage(segs, file, k, page);
          if !ok {
            StuckHere(segs, k, page);
            return;
          }
          page := page + PAGE;
        }
      }
      Advance(segs, file, k, page);
      return true;
    }

    lemma StuckHere(segs: seq<Segment>, k: nat, page: nat)
      requires k < |segs| && segs[k].Loads() && segs[k].Touches(page) && page !in pages
      requires Distinct(pages) && Mapped(segs, k, page)
      requires |pages| == MAX_PAGES || (|pages| < MAX_PAGES && frames(base + |pages|) == 0)
      ensures Stuck(segs)
    {
      forall q: nat | q in pages
        ensures Needed(segs, |segs|, q)
      {
        assert Wanted(segs, k, page, q);
      }
      assert Needed(segs, |segs|, page);
    }

    lemma Advance(segs: seq<Segment>, file: seq<Byte>, k: nat, upto: nat)
      requires Valid() && k < |segs| && AllFit(segs, |file|, 0) && (segs[k].Loads() ==> upto == segs[k].Last())
      requires Mapped(segs, k, upto) && Filled(segs, file, k, upto)
      ensures Mapped(segs, k + 1, 0) && Filled(segs, file, k + 1, 0)
    {
      forall q: nat
        ensures q in pages <==> Wanted(segs, k + 1, 0, q)
      {
        WantedDone(segs, k, upto, q);
      }
      forall m, b | 0 <= m < |pages| && 0 <= b < PAGE
        ensures ram[physFor[m], b] == Content(segs, file, Stage(segs, k + 1, 0, pages[m]), pages[m] + b)
      {
        StageDone(segs, file, k, upto, pages[m], b);
      }
    }

    /** Every needed page is mapped once, nothing else is, and memory holds the segments' bytes. */
    ghost predicate Loaded(segs: seq<Segment>, file: seq<Byte>)
      requires Valid()
      reads this, ram
    {
      && (forall q: nat :: q in pages <==> Needed(segs, |segs|, q))
      && (forall m, b :: 0 <= m < |pages| && 0 <= b < PAGE ==>
            ram[physFor[m], b] == Content(segs, file, |segs|, pages[m] + b))
    }

    /** The page table and the allocator can serve all of `need`. */
    ghost predicate Enough(need: set<nat>)
    {
      |need| <= MAX_PAGES && forall i: nat :: base <= i < base + |need| ==> frames(i) != 0
    }

    method LoadAll(segs: seq<Segment>, file: seq<Byte>) returns (ok: bool)
      requires Valid() && pages == [] && AllFit(segs, |file|, 0)
      modifies this, ram
      ensures ok ==> Valid() && Loaded(segs, file)
      ensures ok <==> Enough(NeededPages(segs))
      ensures forall g, b :: 0 <= g < ram.Length0 && 0 <= b < PAGE && !Owns(g) ==> ram[g, b] == old(ram[g, b])
    {
      for k := 0 to |segs|
        invariant Valid() && Mapped(segs, k, 0) && Filled(segs, file, k, 0)
        invariant forall g, b :: 0 <= g < ram.Length0 && 0 <= b < PAGE && !Owns(g) ==> ram[g, b] == old(ram[g, b])
      {
        ok := LoadSegment(segs, file, k);
        if !ok {
          NotEnough(segs, |file|);
          return;
        }
      }
      forall q: nat
        ensures q in pages <==> Needed(segs, |segs|, q)
      {
        assert Wanted(segs, |segs|, 0, q) <==> Needed(segs, |segs|, q);
      }
      LoadedEnough(segs, |file|);
      return true;
    }

    lemma NotEnough(segs: seq<Segment>, len: nat)
      requires AllFit(segs, len, 0) && Stuck(segs)
      ensures !Enough(NeededPages(segs))
    {
      var q: nat :| q !in pages && Needed(segs, |segs|, q);
      var have := pages + [q];
      forall i | 0 <= i < |have|
        ensures have[i] in NeededPages(segs)
      {
        TouchesUser(segs, len, have[i]);
      }
      DistinctFits(have, NeededPages(segs));
    }

    lemma LoadedEnough(segs: seq<Segment>, len: nat)
      requires Valid() && AllFit(segs, len, 0) && forall q: nat :: q in pages <==> Needed(segs, |segs|, q)
      ensures Enough(NeededPages(segs))
    {
      var need := NeededPages(segs);
      forall q: nat | q in need
        ensures q in pages
      {
      }
      SetFits(need, pages);
      forall i: nat | base <= i < base + |need|
        ensures frames(i) != 0
      {
        assert physFor[i - base] == frames(base + (i - base));
      }
    }

    /** The load: 0 with the program's memory in place, the validator's code, or -5 when a page is missing. */
    method Load(img: Image) returns (code: int, entry: nat)
      requires Valid() && pages == [] && img.Valid()
      modifies this, ram
      ensures code == 0 <==> Accepted(img) && Enough(NeededPages(img.Segments()))
      ensures code == 0 ==> Valid() && entry == img.Entry() && Loaded(img.Segments(), img.bytes)
      ensures code != 0 ==> code == if Accepted(img) then -5 else Verdict(img)
      ensures !Accepted(img) ==> pages == []
      ensures forall g, b :: 0 <= g < ram.Length0 && 0 <= b < PAGE && !Owns(g) ==> ram[g, b] == old(ram[g, b])
    {
      entry := 0;
      code := Validate(img);
      if code != 0 { return; }
      var ok := LoadAll(img.Segments(), img.bytes);
      if !ok { return -5, entry; }
      entry := img.Entry();
    }
  }

  lemma {:induction false} DistinctFits(s: seq<nat>, t: set<nat>)
    requires Distinct(s) && forall i :: 0 <= i < |s| ==> s[i] in t
    ensures |s| <= |t|
  {
    if s != [] {
      var n := |s| - 1;
      DistinctFits(s[..n], t - {s[n]});
    }
  }

  lemma {:induction false} SetFits(t: set<nat>, s: seq<nat>)
    requires forall q :: q in t ==> q in s
    ensures |t| <= |s|
  {
    if s == [] {
      assert t == {};
    } else {
      var n := |s| - 1;
      SetFits(t - {s[n]}, s[..n]);
    }
  }
}
