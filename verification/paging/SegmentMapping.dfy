/** The bootloader's loop over the kernel's segments (bootloader/src/main.rs): each is mapped from its
    first byte on, in steps of one page, to the memory it was copied to. */
module SegmentMapping {
  import Builder
  import Common
  import opened Entries
  import opened Addresses
  import opened Hardware
  import opened TableTree
  import opened MapSpec
  import opened VirtualMaps
  import opened MappingRuns
  import opened RangeMapping
  import opened MachineNumbers

  datatype Segment = Segment(isLoad: bool, virtualAddress: Word, memorySize: nat, writable: bool) {
    /** The steps of `(0..memory_size).step_by(PAGE_SIZE)`. */
    function Steps(): nat {
      (memorySize + Common.PAGE_SIZE - 1) / Common.PAGE_SIZE
    }

    /** The pages the loop asks for, when the kernel was loaded at `kernel` for virtual address `base`. */
    function Pages(kernel: Word, base: Word): Range {
      Range(virtualAddress, kernel + (virtualAddress - base), Steps(), if writable then VFLAG_WRITABLE else 0)
    }
  }

  predicate Crosses(o: Word, d: Word) {
    (o + d) & 0x1000 != 0
  }

  /** Byte `d` after `a` is in the page after that of `a`. */
  predicate Straddles(a: Word, d: Word) {
    Crosses(InPage(a), d)
  }

  // ----- Which bytes the steps reach

  lemma StaysInPage(a: Word, d: Word)
    requires d & 0xfff == d && ((a & 0xfff) + d) & 0x1000 == 0
    ensures (a + d) & 0xffff_ffff_ffff_f000 == a & 0xffff_ffff_ffff_f000
  {
  }

  lemma LeavesPage(a: Word, d: Word)
    requires d & 0xfff == d && ((a & 0xfff) + d) & 0x1000 != 0
    ensures (a + d) & 0xffff_ffff_ffff_f000 == (a + 4096) & 0xffff_ffff_ffff_f000
  {
  }

  /** The bits of an address above its offset. */
  function Above(a: Word): Word {
    a & 0xffff_ffff_ffff_f000
  }

  lemma AboveUnless(a: Word, d: Word)
    requires IsOffset(d)
    ensures Above(ByteAt(a, d)) == Above(if Straddles(a, d) then Next(a) else a)
  {
    if Straddles(a, d) {
      LeavesPage(a, d);
    } else {
      StaysInPage(a, d);
    }
  }

  lemma PageOfAbove(a: Word, b: Word)
    requires Above(a) == Above(b)
    ensures Page(a) == Page(b) && FrameOf(a) == FrameOf(b)
  {
    PageAbove(a);
    PageAbove(b);
    hide Page, FrameOf, Above;
  }

  lemma PageAbove(a: Word)
    ensures Page(a) == Page(Above(a)) && FrameOf(a) == FrameOf(Above(a))
  {
  }

  lemma {:induction false} StepsKeepOffset(a: Word, i: nat)
    ensures InPage(Advance(a, i)) == InPage(a)
    decreases i
  {
    if i > 0 {
      StepsKeepOffset(a, i - 1);
      PageKeepsOffset(Advance(a, i - 1));
      hide InPage, Next;
    }
  }

  lemma PageKeepsOffset(a: Word)
    ensures InPage(Next(a)) == InPage(a)
  {
  }

  /** The step whose page holds byte number `n` after `v`. */
  function PageStep(v: Word, n: nat): nat {
    if Straddles(v, WordOf(n % 4096)) then n / 4096 + 1 else n / 4096
  }

  lemma StepAbove(v: Word, n: nat)
    ensures Above(Sum(v, WordOf(n))) == Above(Advance(v, PageStep(v, n)))
  {
    hide Next, Above, IsOffset, InPage, Crosses, ByteAt, WordOf, Sum;
    var i, d := n / 4096, WordOf(n % 4096);
    ByteNumber(v, n);
    StepsKeepOffset(v, i);
    AboveUnless(Advance(v, i), d);
  }

  lemma StepPage(v: Word, n: nat)
    ensures Page(Sum(v, WordOf(n))) == Page(Advance(v, PageStep(v, n)))
  {
    hide *;
    StepAbove(v, n);
    PageOfAbove(Sum(v, WordOf(n)), Advance(v, PageStep(v, n)));
  }

  lemma PageStays(a: Word, w: Word)
    requires IsClear(w, 0x0000_ffff_ffff_ffff)
    ensures Page(Sum(a, w)) == Page(a)
  {
  }

  lemma PageMoves(a: Word, w: Word)
    requires IsClear(w, 0xfff) && !IsClear(w, 0x0000_ffff_ffff_ffff)
    ensures Page(Sum(a, w)) != Page(a)
  {
  }

  /** Two steps ask for the same page exactly if they are a multiple of all of the address space apart. */
  lemma SameStep(v: Word, j: nat, k: nat)
    requires j <= k
    ensures Page(Advance(v, j)) == Page(Advance(v, k)) <==> (k - j) % 0x10_0000_0000 == 0
  {
    hide Page, Advance, Sum, WordOf, IsClear, Mask, Power;
    AdvanceIs(v, j);
    AdvanceIs(v, k);
    var w := 4096 * (k - j);
    assert 4096 * k == 4096 * j + w;
    WordOfSum(4096 * j, w);
    SumAssociates(v, WordOf(4096 * j), WordOf(w));
    PageMask();
    AddressMask();
    LowClear(w, 12);
    LowClear(w, 48);
    if (k - j) % 0x10_0000_0000 == 0 {
      PageStays(Advance(v, j), WordOf(w));
    } else {
      PageMoves(Advance(v, j), WordOf(w));
    }
  }

  /** Byte `n` of the segment is in a page that the loop asks for. */
  ghost predicate InPages(s: Segment, n: nat) {
    exists j: nat | 4096 * j < s.memorySize :: InPageAt(s.virtualAddress, n, j)
  }

  /** Bytes `n` and `4096 * j` after `v` are in one page. */
  predicate InPageAt(v: Word, n: nat, j: nat) {
    Page(Sum(v, WordOf(n))) == Page(Sum(v, WordOf(4096 * j)))
  }

  lemma InPageIs(v: Word, n: nat, j: nat)
    ensures InPageAt(v, n, j) <==> Page(Advance(v, PageStep(v, n))) == Page(Advance(v, j))
  {
    hide Page, Advance, Sum, WordOf, PageStep;
    StepPage(v, n);
    AdvanceIs(v, j);
  }

  /** Byte `n` is in an earlier step than the last, or in the page where its step starts. */
  predicate IsReached(s: Segment, n: nat) {
    n / 4096 < (s.memorySize - 1) / 4096 || !Straddles(s.virtualAddress, WordOf(n % 4096))
  }

  /** More steps than there are pages: they go around all of the address space. */
  predicate GoesAround(s: Segment) {
    s.memorySize > 0x0000_ffff_ffff_f000
  }

  /** A byte is in a page that the loop asks for exactly if it is not in the page after the last step's. */
  lemma ReachedExactly(s: Segment, n: nat)
    requires n < s.memorySize
    ensures InPages(s, n) <==> IsReached(s, n) || GoesAround(s)
  {
    hide Straddles, Advance, Page, InPageAt, WordOf;
    var v, p := s.virtualAddress, PageStep(s.virtualAddress, n);
    if IsReached(s, n) {
      InPageIs(v, n, p);
      assert 4096 * p < s.memorySize;
    } else if GoesAround(s) {
      InPageIs(v, n, p - 0x10_0000_0000);
      SameStep(v, p - 0x10_0000_0000, p);
    } else {
      forall j: nat | 4096 * j < s.memorySize ensures !InPageAt(v, n, j) {
        InPageIs(v, n, j);
        SameStep(v, j, p);
      }
    }
  }

  lemma CrossesOn(o: Word, d: Word)
    requires o & 0xfff == o && d & 0xfff == d && (d + 1) & 0xfff == d + 1 && (o + d) & 0x1000 != 0
    ensures (o + (d + 1)) & 0x1000 != 0
  {
  }

  lemma StraddlesOn(a: Word, d: Word)
    requires IsOffset(d) && IsOffset(Sum(d, 1)) && Straddles(a, d)
    ensures Straddles(a, Sum(d, 1))
  {
    CrossesOn(a & 0xfff, d);
  }

  lemma {:induction false} StraddlesBeyond(a: Word, k: nat, l: nat)
    requires k <= l < 4096 && Straddles(a, WordOf(k))
    ensures Straddles(a, WordOf(l))
    decreases l
  {
    hide Straddles, WordOf, Sum, IsOffset;
    if k < l {
      StraddlesBeyond(a, k, l - 1);
      WordIsOffset(l - 1);
      WordIsOffset(l);
      OffsetIs(WordOf(l - 1));
      OffsetIs(WordOf(l));
      WordOfNext(l - 1);
      StraddlesOn(a, WordOf(l - 1));
    }
  }

  lemma OffsetIs(w: Word)
    ensures IsOffset(w) <==> w & 0xfff == w
  {
  }

  /** The pages that the loop asks for contain every byte of the segment if and only if its last byte is in the
      page where the last step starts, or the steps go around all of the address space. */
  lemma CoveredExactly(s: Segment)
    requires s.memorySize > 0
    ensures (forall n: nat | n < s.memorySize :: InPages(s, n)) <==>
            !Straddles(s.virtualAddress, WordOf((s.memorySize - 1) % 4096)) || s.memorySize > 0x0000_ffff_ffff_f000
  {
    hide Straddles, InPages, WordOf;
    ReachedExactly(s, s.memorySize - 1);
    if IsReached(s, s.memorySize - 1) || GoesAround(s) {
      forall n: nat | n < s.memorySize ensures InPages(s, n) {
        ReachedExactly(s, n);
        if !IsReached(s, n) && IsReached(s, s.memorySize - 1) {
          assert n % 4096 <= (s.memorySize - 1) % 4096;
          StraddlesBeyond(s.virtualAddress, n % 4096, (s.memorySize - 1) % 4096);
        }
      }
    }
  }

  lemma HalfStraddles()
    ensures Straddles(0x40_0800, WordOf(4095))
  {
    assert WordOf(15) == 15 && WordOf(255) == 255;
  }

  /** A segment of one page that starts in the middle of one: its last byte is left out. */
  lemma HalfCovered()
    ensures !InPages(Segment(true, 0x40_0800, 4096, false), 4095)
  {
    hide InPages, WordOf, Straddles;
    HalfStraddles();
    ReachedExactly(Segment(true, 0x40_0800, 4096, false), 4095);
  }

  // ----- Where the bytes go

  function FrameOf(p: Word): Word {
    p & PAGE_ADDRESS_MASK
  }

  lemma NextInPage(a: Word, b: Word)
    requires InPage(a) == InPage(b)
    ensures InPage(Sum(a, 1)) == InPage(Sum(b, 1))
  {
  }

  /** Equal offsets stay equal. */
  lemma {:induction false} SameInPage(a: Word, b: Word, n: nat)
    requires InPage(a) == InPage(b)
    ensures InPage(Sum(a, WordOf(n))) == InPage(Sum(b, WordOf(n)))
    decreases n
  {
    hide InPage, Sum, WordOf;
    if n == 0 {
      FirstWord();
      SumAssociates(a, 0, 0);
      SumAssociates(b, 0, 0);
    } else {
      SameInPage(a, b, n - 1);
      WordOfNext(n - 1);
      SumAssociates(a, WordOf(n - 1), 1);
      SumAssociates(b, WordOf(n - 1), 1);
      NextInPage(Sum(a, WordOf(n - 1)), Sum(b, WordOf(n - 1)));
    }
  }

  lemma SpliceBack(w: Word)
    ensures Splice(FrameOf(w), InPage(w)) == w <==> w & 0xfff0_0000_0000_0000 == 0
  {
  }

  lemma SameOffset(kernel: Word, base: Word, v: Word)
    requires IsPageAligned(kernel) && IsPageAligned(base)
    ensures InPage(kernel + (v - base)) == InPage(v)
  {
  }

  lemma PagesOffset(kernel: Word, base: Word, s: Segment)
    requires IsPageAligned(kernel) && IsPageAligned(base)
    ensures InPage(s.Pages(kernel, base).p) == InPage(s.virtualAddress)
  {
    SameOffset(kernel, base, s.virtualAddress);
    hide InPage, IsPageAligned;
  }

  lemma SameStraddle(a: Word, b: Word, d: Word)
    requires InPage(a) == InPage(b)
    ensures Straddles(a, d) == Straddles(b, d)
  {
    hide InPage, Crosses;
  }

  /** The frame of the page that byte `n` is in, when `v` was mapped to `p`. */
  lemma StepFrame(p: Word, v: Word, n: nat)
    requires InPage(p) == InPage(v)
    ensures FrameOf(Advance(p, PageStep(v, n))) == FrameOf(Sum(p, WordOf(n)))
    ensures InPage(Sum(v, WordOf(n))) == InPage(Sum(p, WordOf(n)))
  {
    hide Next, Above, Advance, InPage, Straddles, FrameOf, WordOf, Sum;
    SameStraddle(v, p, WordOf(n % 4096));
    StepAbove(p, n);
    PageOfAbove(Sum(p, WordOf(n)), Advance(p, PageStep(p, n)));
    SameInPage(v, p, n);
  }

  /** Byte number `n` of the segment is found, in a page with the flags of the segment and no other, and where
      it was copied to, exactly if that is an address that an entry can hold. */
  ghost predicate IsLoaded(m: Memory, root: Loc, kernel: Word, base: Word, s: Segment, n: nat) {
    IsFoundIn(m, root, Sum(s.virtualAddress, WordOf(n)), Sum(kernel + (s.virtualAddress - base), WordOf(n)), s.writable)
  }

  ghost predicate IsFoundIn(m: Memory, root: Loc, u: Word, target: Word, writable: bool) {
    var t := Walk(m, root, 0, u);
    && t.Mapped? && !t.user && t.writable == writable
    && t.leaf == (target & 0x000f_ffff_ffff_f000) | (if writable then 0x103 else 0x101)
    && (t.Address(u) == target <==> target & 0xfff0_0000_0000_0000 == 0)
  }

  /** The frame of a page asked for with GLOBAL added to the flags. */
  function GlobalFrame(page: Word, u: Word, flags: Word): Frame {
    FrameFor(Request(page, u, VFLAG_GLOBAL | flags))
  }

  lemma FoundIn(m: Memory, root: Loc, u: Word, page: Word, target: Word, flags: Word, writable: bool)
    requires Walk(m, root, 0, u) == FrameTranslation(GlobalFrame(page, u, flags))
    requires flags == (if writable then VFLAG_WRITABLE else 0)
    requires InPage(u) == InPage(target) && FrameOf(page) == FrameOf(target)
    ensures IsFoundIn(m, root, u, target, writable)
  {
    hide Walk, NewPage, Splice, InPage, Contains, FrameOf, FrameTranslation, GlobalFrame;
    var f := GlobalFrame(page, u, flags);
    AddressIs(f, u);
    SpliceBack(target);
    FrameIs(page, u, flags, writable);
    LeafWord(page, target, flags, writable);
  }

  lemma FrameIs(page: Word, u: Word, flags: Word, writable: bool)
    requires flags == (if writable then VFLAG_WRITABLE else 0)
    ensures
      var f := GlobalFrame(page, u, flags);
      && f.base == FrameOf(page)
      && FrameTranslation(f) == Mapped(f.base, 0xfff, writable, false, NewPage(VFLAG_GLOBAL | flags, page))
  {
    hide NewPage, FrameOf;
    assert Contains(VFLAG_GLOBAL | flags, VFLAG_WRITABLE) == writable;
    FrameOfIs(page);
  }

  lemma FrameOfIs(page: Word)
    ensures FrameOf(page) == page & PAGE_ADDRESS_MASK
  {
  }

  lemma LeafWord(page: Word, target: Word, flags: Word, writable: bool)
    requires FrameOf(page) == FrameOf(target) && flags == (if writable then VFLAG_WRITABLE else 0)
    ensures NewPage(VFLAG_GLOBAL | flags, page) ==
            (target & 0x000f_ffff_ffff_f000) | (if writable then 0x103 else 0x101)
  {
    hide NewPage;
    RangeMapping.GlobalWord(flags, page);
  }

  lemma SegmentPages(kernel: Word, base: Word, s: Segment)
    ensures
      var range := s.Pages(kernel, base);
      range.v == s.virtualAddress && range.flags == (if s.writable then VFLAG_WRITABLE else 0)
  {
  }

  lemma PagesLoaded(m: Memory, root: Loc, kernel: Word, base: Word, s: Segment, n: nat)
    requires IsFoundIn(m, root, Sum(s.virtualAddress, WordOf(n)), Sum(s.Pages(kernel, base).p, WordOf(n)), s.writable)
    ensures IsLoaded(m, root, kernel, base, s, n)
  {
    hide IsFoundIn, Sum, WordOf;
  }

  lemma StepTranslates(m: Memory, root: Loc, r: Index, pm: PageMap, range: Range, j: nat, u: Word)
    requires Represents(m, root, r, pm) && MapsPage(pm, r, range, j) && Page(u) == Page(Advance(range.v, j))
    ensures Walk(m, root, 0, u) == FrameTranslation(GlobalFrame(Advance(range.p, j), u, range.flags))
  {
    hide Advance, Page, Walk, Represents, MapsPage, RangeFrame, FrameFor, FrameTranslation;
    RangeTranslates(m, root, r, pm, range, j, u);
    RangeFrameIs(range, j);
    SameFrame(Advance(range.p, j), Advance(range.v, j), u, VFLAG_GLOBAL | range.flags);
  }

  lemma RangeFound(m: Memory, root: Loc, r: Index, pm: PageMap, range: Range, n: nat, writable: bool)
    requires Represents(m, root, r, pm) && MapsPage(pm, r, range, PageStep(range.v, n))
    requires InPage(range.p) == InPage(range.v) && range.flags == (if writable then VFLAG_WRITABLE else 0)
    ensures IsFoundIn(m, root, Sum(range.v, WordOf(n)), Sum(range.p, WordOf(n)), writable)
  {
    hide *;
    var u, j := Sum(range.v, WordOf(n)), PageStep(range.v, n);
    StepPage(range.v, n);
    StepTranslates(m, root, r, pm, range, j, u);
    StepFrame(range.p, range.v, n);
    FoundIn(m, root, u, Advance(range.p, j), Sum(range.p, WordOf(n)), range.flags, writable);
  }

  /** Wherever the pages of a segment are mapped as asked, its bytes are found where they were copied to:
      for a kernel loaded at a page, whatever the alignment of the segment. */
  lemma SegmentByte(m: Memory, root: Loc, r: Index, pm: PageMap, kernel: Word, base: Word, s: Segment, n: nat)
    requires Represents(m, root, r, pm) && IsPageAligned(kernel) && IsPageAligned(base)
    requires MapsPage(pm, r, s.Pages(kernel, base), PageStep(s.virtualAddress, n))
    ensures IsLoaded(m, root, kernel, base, s, n)
  {
    hide *;
    SegmentPages(kernel, base, s);
    PagesOffset(kernel, base, s);
    RangeFound(m, root, r, pm, s.Pages(kernel, base), n, s.writable);
    PagesLoaded(m, root, kernel, base, s, n);
  }

  /** Every byte that the steps reach of a mapped segment is found. */
  lemma SegmentIsFound(m: Memory, root: Loc, r: Index, pm: PageMap, kernel: Word, base: Word, s: Segment, n: nat)
    requires Represents(m, root, r, pm) && IsPageAligned(kernel) && IsPageAligned(base)
    requires MapsRange(pm, r, s.Pages(kernel, base)) && n < s.memorySize && IsReached(s, n)
    ensures IsLoaded(m, root, kernel, base, s, n)
  {
    hide Straddles, IsLoaded, IsPageAligned, Represents, MapsPage, WordOf;
    PagesCount(kernel, base, s);
    assert PageStep(s.virtualAddress, n) < s.Steps();
    assert MapsPage(pm, r, s.Pages(kernel, base), PageStep(s.virtualAddress, n));
    SegmentByte(m, root, r, pm, kernel, base, s, n);
  }

  lemma PagesCount(kernel: Word, base: Word, s: Segment)
    ensures s.Pages(kernel, base).count == s.Steps()
  {
  }

  // ----- The program

  /** A step of the segment was not mapped: the call for its page was answered with this error. */
  ghost predicate IsRefused(pm: PageMap, r: Index, kernel: Word, base: Word, s: Segment, error: Outcome) {
    IsRefusedAt(pm, r, kernel + (s.virtualAddress - base), s.virtualAddress, if s.writable then 1 else 0, s.memorySize,
                error)
  }

  ghost predicate IsRefusedAt(pm: PageMap, r: Index, p: Word, v: Word, flags: Word, size: nat, error: Outcome) {
    exists j: nat | 4096 * j < size :: Refuses(pm, r, p, v, flags, j, error)
  }

  lemma RefusedStep(pm: PageMap, r: Index, kernel: Word, base: Word, s: Segment, j: nat, error: Outcome)
    requires j < s.Steps() && RefusesPage(pm, r, s.Pages(kernel, base), j, error)
    ensures IsRefused(pm, r, kernel, base, s, error)
  {
    hide Refuses, RefusesPage, s.Pages, IsRefused;
    var range := s.Pages(kernel, base);
    RefusedIs(pm, r, range, j, error);
    StepsAre(s, j);
    RefusedRange(pm, r, kernel, base, s, error);
  }

  lemma RefusedRange(pm: PageMap, r: Index, kernel: Word, base: Word, s: Segment, error: Outcome)
    requires
      var range := s.Pages(kernel, base);
      IsRefusedAt(pm, r, range.p, range.v, range.flags, s.memorySize, error)
    ensures IsRefused(pm, r, kernel, base, s, error)
  {
    hide IsRefusedAt;
  }

  /** Every byte that the steps reach of the segment is found, if the kernel was loaded at a page. */
  ghost predicate AllLoaded(m: Memory, kernel: Word, base: Word, s: Segment) {
    IsPageAligned(kernel) && IsPageAligned(base) ==>
      forall n: nat | n < s.memorySize && IsReached(s, n) :: IsLoaded(m, Local, kernel, base, s, n)
  }

  lemma AllFound(m: Memory, r: Index, pm: PageMap, kernel: Word, base: Word, s: Segment)
    requires Represents(m, Local, r, pm) && MapsRange(pm, r, s.Pages(kernel, base))
    ensures AllLoaded(m, kernel, base, s)
  {
    hide IsPageAligned, Represents, MapsRange, s.Pages, IsReached, IsLoaded;
    if IsPageAligned(kernel) && IsPageAligned(base) {
      forall n: nat | n < s.memorySize && IsReached(s, n)
        ensures IsLoaded(m, Local, kernel, base, s, n)
      {
        SegmentIsFound(m, Local, r, pm, kernel, base, s, n);
      }
    }
  }

  lemma SegmentPlaced(m: Memory, r: Index, pm0: PageMap, pm: PageMap, kernel: Word, base: Word, s: Segment)
    requires Represents(m, Local, r, pm) && Placing(pm0, pm, r, s.Pages(kernel, base), s.Steps())
    ensures AllLoaded(m, kernel, base, s) && AddsPages(pm0, pm, s.virtualAddress, s.Steps())
  {
    hide Represents, MapsPage, AllLoaded, Grows, AddsPages, OnlyAdds, s.Pages, s.Steps;
    PagesCount(kernel, base, s);
    SegmentPages(kernel, base, s);
    PlacingGrows(pm0, pm, r, s.Pages(kernel, base), s.Steps());
    AllFound(m, r, pm, kernel, base, s);
  }

  /** `s.Steps()` counts the multiples of a page below the size. */
  lemma StepsAre(s: Segment, j: nat)
    ensures j < s.Steps() <==> 4096 * j < s.memorySize
  {
  }

  /** One segment: on success it is loaded, no page was added but those of its steps, and nothing mapped
      before has moved. */
  method MapSegment(mapper: KernelMapper, kernel: Word, base: Word, s: Segment, supply: seq<Word>)
    returns (result: Outcome, rest: seq<Word>)
    requires mapper.Valid() && mapper.ranges == [] && mapper.CanMap(supply)
    modifies mapper`pm, mapper.builder.inner`memory, mapper.builder.inner`tree
    ensures mapper.Valid() && mapper.CanMap(rest)
    ensures Grows(old(mapper.pm), mapper.pm) && AddsPages(old(mapper.pm), mapper.pm, s.virtualAddress, s.Steps())
    ensures result == Ok ==>
              && Placing(old(mapper.pm), mapper.pm, mapper.builder.inner.mapper.recursionIndex, s.Pages(kernel, base),
                         s.Steps())
              && AllLoaded(mapper.builder.inner.memory, kernel, base, s)
    ensures result != Ok ==>
              IsRefused(mapper.pm, mapper.builder.inner.mapper.recursionIndex, kernel, base, s, result)
  {
    hide AllFresh, Represents, Ledger, Placing, RefusesPage, Grows, Builder.VirtualMapBuilder.Valid, s.Pages, s.Steps,
         AllLoaded, AddsPages, IsRefused;
    ghost var r := mapper.builder.inner.mapper.recursionIndex;
    var pages := s.Pages(kernel, base);
    PagesCount(kernel, base, s);
    result, rest := Ok, supply;
    PlaceNone(mapper.pm, r, pages);
    for n := 0 to s.Steps()
      invariant mapper.CanMap(rest) && Placing(old(mapper.pm), mapper.pm, r, pages, n) && result == Ok
    {
      result, rest := mapper.MapPageOf(pages, n, rest, old(mapper.pm));
      if result != Ok {
        PlacingGrows(old(mapper.pm), mapper.pm, r, pages, n);
        AddsFewer(old(mapper.pm), mapper.pm, pages.v, n, s.Steps());
        SegmentPages(kernel, base, s);
        EmptyLedger(old(mapper.pm), mapper.pm, r, mapper.nextVAddr);
        RefusedStep(mapper.pm, r, kernel, base, s, n, result);
        return;
      }
    }
    PlacingGrows(old(mapper.pm), mapper.pm, r, pages, s.Steps());
    EmptyLedger(old(mapper.pm), mapper.pm, r, mapper.nextVAddr);
    SegmentPlaced(mapper.builder.inner.memory, r, old(mapper.pm), mapper.pm, kernel, base, s);
  }

  lemma AddsFewer(pm0: PageMap, pm: PageMap, v: Word, n: nat, count: nat)
    requires AddsPages(pm0, pm, v, n) && n <= count
    ensures AddsPages(pm0, pm, v, count)
  {
    hide IsPageAfter;
    forall key | key in pm && key !in pm0 ensures exists j: nat | j < count :: IsPageAfter(key, v, j) {
      var j: nat :| j < n && IsPageAfter(key, v, j);
      assert j < count;
    }
  }

  lemma EmptyLedger(pm: PageMap, pm': PageMap, r: Index, next: Word)
    requires Ledger(pm, r, [], next)
    ensures Ledger(pm', r, [], next)
  {
    hide IsPageAligned;
  }

  /** The pages of each segment; a segment that is not to be loaded has none. */
  function LoadPages(kernel: Word, base: Word, segments: seq<Segment>): (ranges: seq<Range>)
    ensures |ranges| == |segments|
    ensures forall k | 0 <= k < |segments| :: ranges[k] == LoadRange(kernel, base, segments[k])
  {
    seq(|segments|, k requires 0 <= k < |segments| => LoadRange(kernel, base, segments[k]))
  }

  function LoadRange(kernel: Word, base: Word, s: Segment): Range {
    if s.isLoad then s.Pages(kernel, base) else s.Pages(kernel, base).(count := 0)
  }

  lemma LoadNext(kernel: Word, base: Word, segments: seq<Segment>, n: nat)
    requires n < |segments|
    ensures LoadPages(kernel, base, segments[..n + 1]) ==
            LoadPages(kernel, base, segments[..n]) + [LoadRange(kernel, base, segments[n])]
  {
    hide LoadRange;
  }

  lemma SkippedBeside(pm: PageMap, r: Index, kernel: Word, base: Word, ranges: seq<Range>, s: Segment)
    requires !s.isLoad && Disjoint(ranges) && forall earlier | earlier in ranges :: MapsRange(pm, r, earlier)
    ensures forall each | each in ranges + [LoadRange(kernel, base, s)] :: MapsRange(pm, r, each)
    ensures Disjoint(ranges + [LoadRange(kernel, base, s)])
  {
    hide MapsRange, Disjoint, s.Pages;
    PlaceNone(pm, r, LoadRange(kernel, base, s));
    PlacedBeside(pm, pm, r, ranges, LoadRange(kernel, base, s));
  }

  lemma PlacedBeside(pm0: PageMap, pm: PageMap, r: Index, ranges: seq<Range>, range: Range)
    requires forall earlier | earlier in ranges :: MapsRange(pm0, r, earlier)
    requires Disjoint(ranges) && Placing(pm0, pm, r, range, range.count)
    ensures forall each | each in ranges + [range] :: MapsRange(pm, r, each)
    ensures Disjoint(ranges + [range])
  {
    hide RangeKey, MapsPage, Disjoint;
    forall each | each in ranges + [range] ensures MapsRange(pm, r, each) {
      if each in ranges {
        KeepsRange(pm0, pm, r, each);
      }
    }
    PlaceDisjoint(pm0, r, ranges, range);
  }

  /** The segments to load are loaded, and no two of their pages are one. */
  ghost predicate LoadedApart(m: Memory, kernel: Word, base: Word, segments: seq<Segment>) {
    && (forall k | 0 <= k < |segments| && segments[k].isLoad :: AllLoaded(m, kernel, base, segments[k]))
    && (forall k, l, i: nat, j: nat |
          && 0 <= k < |segments| && segments[k].isLoad && 4096 * i < segments[k].memorySize
          && 0 <= l < |segments| && segments[l].isLoad && 4096 * j < segments[l].memorySize
          && (k != l || i != j) ::
          Page(Sum(segments[k].virtualAddress, WordOf(4096 * i))) !=
          Page(Sum(segments[l].virtualAddress, WordOf(4096 * j))))
  }

  /** No page was added but those of the steps of segments to load. */
  ghost predicate AddsLoads(pm0: PageMap, pm: PageMap, segments: seq<Segment>) {
    forall key | key in pm && key !in pm0 :: exists k :: 0 <= k < |segments| && IsLoadPage(key, segments[k])
  }

  ghost predicate IsLoadPage(key: PageKey, s: Segment) {
    s.isLoad && exists j: nat | 4096 * j < s.memorySize :: IsPageAfter(key, s.virtualAddress, j)
  }

  lemma AddsMore(pm0: PageMap, pm1: PageMap, pm2: PageMap, segments: seq<Segment>, n: nat)
    requires n < |segments| && segments[n].isLoad
    requires Grows(pm0, pm1) && AddsLoads(pm0, pm1, segments)
    requires Grows(pm1, pm2) && AddsPages(pm1, pm2, segments[n].virtualAddress, segments[n].Steps())
    ensures Grows(pm0, pm2) && AddsLoads(pm0, pm2, segments)
  {
    hide IsPageAfter, Segment.Steps;
    forall key | key in pm2 && key !in pm0
      ensures exists k :: 0 <= k < |segments| && IsLoadPage(key, segments[k])
    {
      if key !in pm1 {
        var s := segments[n];
        var j: nat :| j < s.Steps() && IsPageAfter(key, s.virtualAddress, j);
        StepsAre(s, j);
        assert IsLoadPage(key, s);
      }
    }
  }

  lemma AddsNone(pm: PageMap, segments: seq<Segment>)
    ensures Grows(pm, pm) && AddsLoads(pm, pm, segments)
  {
  }

  /** The loop over the segments: on success all those to load are loaded, and no two share a page;
      otherwise a page of one of them cannot be mapped, which makes the bootloader panic. */
  method MapSegments(mapper: KernelMapper, kernel: Word, base: Word, segments: seq<Segment>, supply: seq<Word>)
    returns (result: Outcome, rest: seq<Word>)
    requires mapper.Valid() && mapper.ranges == [] && mapper.CanMap(supply)
    modifies mapper`pm, mapper.builder.inner`memory, mapper.builder.inner`tree
    ensures mapper.Valid() && mapper.CanMap(rest)
    ensures Grows(old(mapper.pm), mapper.pm) && AddsLoads(old(mapper.pm), mapper.pm, segments)
    ensures result == Ok ==> LoadedApart(mapper.builder.inner.memory, kernel, base, segments)
    ensures result != Ok ==>
              exists k :: 0 <= k < |segments| && segments[k].isLoad &&
                          IsRefused(mapper.pm, mapper.builder.inner.mapper.recursionIndex, kernel, base, segments[k],
                                    result)
  {
    assert segments[..0] == [];
    hide Placing, Grows, Disjoint, MapsRange, IsRefused, LoadPages, mapper.Valid, mapper.CanMap, AllLoaded, AddsPages,
         LoadedApart, AddsLoads;
    ghost var r := mapper.builder.inner.mapper.recursionIndex;
    result, rest := Ok, supply;
    NoRanges();
    AddsNone(mapper.pm, segments);
    for n := 0 to |segments|
      invariant mapper.Valid() && mapper.CanMap(rest)
      invariant Grows(old(mapper.pm), mapper.pm) && AddsLoads(old(mapper.pm), mapper.pm, segments)
      invariant result == Ok && Disjoint(LoadPages(kernel, base, segments[..n]))
      invariant forall range | range in LoadPages(kernel, base, segments[..n]) :: MapsRange(mapper.pm, r, range)
    {
      var s := segments[n];
      LoadNext(kernel, base, segments, n);
      if !s.isLoad {
        SkippedBeside(mapper.pm, r, kernel, base, LoadPages(kernel, base, segments[..n]), s);
        continue;
      }
      ghost var before := mapper.pm;
      LoadedRange(kernel, base, s);
      PagesCount(kernel, base, s);
      result, rest := MapSegment(mapper, kernel, base, s, rest);
      AddsMore(old(mapper.pm), before, mapper.pm, segments, n);
      if result != Ok {
        return;
      }
      PlacedBeside(before, mapper.pm, r, LoadPages(kernel, base, segments[..n]), s.Pages(kernel, base));
    }
    assert segments[..|segments|] == segments;
    SegmentsApart(mapper.builder.inner.memory, r, mapper.pm, kernel, base, segments);
  }

  lemma LoadPage(kernel: Word, base: Word, s: Segment, i: nat)
    requires s.isLoad && 4096 * i < s.memorySize
    ensures i < LoadRange(kernel, base, s).count
    ensures RangeKey(LoadRange(kernel, base, s), i).page == Page(Sum(s.virtualAddress, WordOf(4096 * i)))
  {
    hide Advance, Page, WordOf, Sum, s.Pages, s.Steps;
    SegmentPages(kernel, base, s);
    PagesCount(kernel, base, s);
    StepsAre(s, i);
    AdvanceIs(s.virtualAddress, i);
  }

  lemma SegmentsApart(m: Memory, r: Index, pm: PageMap, kernel: Word, base: Word, segments: seq<Segment>)
    requires Represents(m, Local, r, pm) && Disjoint(LoadPages(kernel, base, segments))
    requires forall range | range in LoadPages(kernel, base, segments) :: MapsRange(pm, r, range)
    ensures LoadedApart(m, kernel, base, segments)
  {
    hide Represents, MapsRange, AllLoaded, Page, WordOf, Sum, RangeKey, LoadRange;
    var ranges := LoadPages(kernel, base, segments);
    forall k | 0 <= k < |segments| && segments[k].isLoad ensures AllLoaded(m, kernel, base, segments[k]) {
      assert ranges[k] in ranges;
      LoadedRange(kernel, base, segments[k]);
      AllFound(m, r, pm, kernel, base, segments[k]);
    }
    forall k, l, i: nat, j: nat |
      && 0 <= k < |segments| && segments[k].isLoad && 4096 * i < segments[k].memorySize
      && 0 <= l < |segments| && segments[l].isLoad && 4096 * j < segments[l].memorySize
      && (k != l || i != j)
      ensures Page(Sum(segments[k].virtualAddress, WordOf(4096 * i))) !=
              Page(Sum(segments[l].virtualAddress, WordOf(4096 * j)))
    {
      LoadPage(kernel, base, segments[k], i);
      LoadPage(kernel, base, segments[l], j);
      KeysApart(RangeKey(ranges[k], i), RangeKey(ranges[l], j));
    }
  }

  lemma KeysApart(a: PageKey, b: PageKey)
    ensures a.page == b.page ==> a == b
  {
  }

  lemma LoadedRange(kernel: Word, base: Word, s: Segment)
    requires s.isLoad
    ensures LoadRange(kernel, base, s) == s.Pages(kernel, base)
  {
    hide s.Pages;
  }

  lemma NoRanges()
    ensures Disjoint([])
  {
  }
}
