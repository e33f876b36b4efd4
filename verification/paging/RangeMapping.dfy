/** The bootloader's `next_free_page` closure (bootloader/src/main.rs): consecutive virtual ranges, each
    mapped page by page to a physical range. */
module RangeMapping {
  import opened Entries
  import opened Addresses
  import opened Hardware
  import opened TableTree
  import opened MapSpec
  import opened VirtualMaps
  import opened Builder
  import opened MappingRuns
  import opened MachineNumbers

  /** The address one page after `a`. */
  function Next(a: Word): Word {
    a + 4096
  }

  /** `a + n * PAGE_SIZE` in machine arithmetic: the address `n` pages after `a`. */
  function Advance(a: Word, n: nat): Word
    decreases n
  {
    if n == 0 then a else Next(Advance(a, n - 1))
  }

  predicate IsPageAligned(a: Word) {
    a & 0xfff == 0
  }

  lemma {:induction false} AdvanceAligned(a: Word, n: nat)
    requires IsPageAligned(a)
    ensures IsPageAligned(Advance(a, n))
    decreases n
  {
    hide IsPageAligned, Next;
    if n > 0 {
      AdvanceAligned(a, n - 1);
      NextAligned(Advance(a, n - 1));
    }
  }

  lemma NextAligned(a: Word)
    requires IsPageAligned(a)
    ensures IsPageAligned(Next(a))
  {
  }

  /** A range handed out: `count` pages from virtual `v`, mapped to physical `p`. */
  datatype Range = Range(v: Word, p: Word, count: nat, flags: Word)

  function PageRequest(range: Range, i: nat): Request {
    Request(Advance(range.p, i), Advance(range.v, i), VFLAG_GLOBAL | range.flags)
  }

  function RangeKey(range: Range, i: nat): PageKey {
    KeyOf(Advance(range.v, i))
  }

  function RangeFrame(range: Range, i: nat): Frame {
    FrameFor(PageRequest(range, i))
  }

  /** Page `i` of the range is mapped as asked. */
  predicate MapsPage(pm: PageMap, r: Index, range: Range, i: nat) {
    && IndexAt(0, Advance(range.v, i)) != r
    && RangeKey(range, i) in pm && pm[RangeKey(range, i)] == RangeFrame(range, i)
  }

  ghost predicate MapsRange(pm: PageMap, r: Index, range: Range) {
    forall i: nat | i < range.count :: MapsPage(pm, r, range, i)
  }

  ghost predicate Grows(pm: PageMap, pm': PageMap) {
    forall key | key in pm :: key in pm' && pm'[key] == pm[key]
  }

  /** Each range starts where the previous one ended. */
  predicate Consecutive(ranges: seq<Range>, next: Word) {
    (forall k | 0 <= k < |ranges| - 1 :: ranges[k + 1].v == Advance(ranges[k].v, ranges[k].count)) &&
    (ranges != [] ==> next == Advance(ranges[|ranges| - 1].v, ranges[|ranges| - 1].count))
  }

  /** No page occurs twice, within a range or across ranges. */
  ghost predicate Disjoint(ranges: seq<Range>) {
    forall k, i: nat, l, j: nat |
      0 <= k < |ranges| && i < ranges[k].count && 0 <= l < |ranges| && j < ranges[l].count &&
      RangeKey(ranges[k], i) == RangeKey(ranges[l], j) :: k == l && i == j
  }

  /** What holds of the ranges handed out so far: all mapped, no page shared, no gap between them. */
  ghost predicate Ledger(pm: PageMap, r: Index, ranges: seq<Range>, next: Word) {
    && IsPageAligned(next)
    && (forall range | range in ranges :: MapsRange(pm, r, range))
    && Disjoint(ranges)
    && Consecutive(ranges, next)
  }

  /** Page `i` of the range cannot be mapped: it is reserved, it is mapped already, or table frames ran out. */
  predicate RefusesPage(pm: PageMap, r: Index, range: Range, i: nat, error: Outcome) {
    error != Ok && Allowed(pm, r, PageRequest(range, i), error)
  }

  /** What that means: the call for the page at byte `4096 * i`, with GLOBAL added to its flags, was not
      answered `Ok`, but as the abstract state allows. */
  predicate Refuses(pm: PageMap, r: Index, p: Word, v: Word, flags: Word, i: nat, error: Outcome) {
    error != Ok && Allowed(pm, r, Request(Sum(p, WordOf(4096 * i)), Sum(v, WordOf(4096 * i)), 0x20 | flags), error)
  }

  lemma RefusedIs(pm: PageMap, r: Index, range: Range, i: nat, error: Outcome)
    requires RefusesPage(pm, r, range, i, error)
    ensures Refuses(pm, r, range.p, range.v, range.flags, i, error)
  {
    hide Allowed, Advance, WordOf, Sum;
    AdvanceIs(range.p, i);
    AdvanceIs(range.v, i);
  }

  /** The first `i` pages of the range have been mapped, none of them a page of `pm0` or of another. */
  ghost predicate Placing(pm0: PageMap, pm: PageMap, r: Index, range: Range, i: nat) {
    && Grows(pm0, pm) && OnlyAdds(pm0, pm, range, i)
    && (forall j: nat | j < i :: MapsPage(pm, r, range, j) && RangeKey(range, j) !in pm0)
    && (forall j: nat, k: nat | j < k < i :: RangeKey(range, j) != RangeKey(range, k))
  }

  ghost predicate OnlyAdds(pm0: PageMap, pm: PageMap, range: Range, i: nat) {
    forall key | key in pm && key !in pm0 :: exists j: nat | j < i :: key == RangeKey(range, j)
  }

  /** No page was added but those that start `4096 * j` bytes after `v`, for `j` below `count`. */
  ghost predicate AddsPages(pm0: PageMap, pm: PageMap, v: Word, count: nat) {
    forall key | key in pm && key !in pm0 :: exists j: nat | j < count :: IsPageAfter(key, v, j)
  }

  predicate IsPageAfter(key: PageKey, v: Word, j: nat) {
    key.page == Sum(v, WordOf(4096 * j)) & 0x0000_ffff_ffff_f000
  }

  lemma AddedIs(pm0: PageMap, pm: PageMap, range: Range, i: nat)
    requires OnlyAdds(pm0, pm, range, i)
    ensures AddsPages(pm0, pm, range.v, i)
  {
    hide Advance, WordOf, Sum, IsPageAfter;
    forall key | key in pm && key !in pm0
      ensures exists j: nat | j < i :: IsPageAfter(key, range.v, j)
    {
      var j: nat :| j < i && key == RangeKey(range, j);
      AddedPage(range, j);
    }
  }

  lemma AddedPage(range: Range, j: nat)
    ensures IsPageAfter(RangeKey(range, j), range.v, j)
  {
    hide Advance, WordOf, Sum;
    AdvanceIs(range.v, j);
  }

  lemma PlaceNone(pm: PageMap, r: Index, range: Range)
    ensures Grows(pm, pm) && Placing(pm, pm, r, range, 0)
  {
  }

  lemma PlacingGrows(pm0: PageMap, pm: PageMap, r: Index, range: Range, i: nat)
    requires Placing(pm0, pm, r, range, i)
    ensures Grows(pm0, pm) && AddsPages(pm0, pm, range.v, i)
  {
    hide Grows, MapsPage, OnlyAdds, AddsPages;
    AddedIs(pm0, pm, range, i);
  }

  lemma PlaceOne(pm0: PageMap, pm: PageMap, pm': PageMap, r: Index, range: Range, i: nat)
    requires Placing(pm0, pm, r, range, i)
    requires Allowed(pm, r, PageRequest(range, i), Ok) && pm' == After(pm, PageRequest(range, i), Ok)
    ensures Grows(pm0, pm') && Placing(pm0, pm', r, range, i + 1)
  {
    hide Page, FrameFor, Advance, IndexAt, OnlyAdds;
    assert RangeKey(range, i) !in pm;
    AddsOne(pm0, pm, pm', range, i);
    forall j: nat | j < i + 1
      ensures MapsPage(pm', r, range, j) && RangeKey(range, j) !in pm0
    {
      if j < i {
        assert MapsPage(pm, r, range, j);
      }
    }
    forall j: nat | j < i
      ensures RangeKey(range, j) != RangeKey(range, i)
    {
      assert MapsPage(pm, r, range, j);
    }
  }

  lemma AddsOne(pm0: PageMap, pm: PageMap, pm': PageMap, range: Range, i: nat)
    requires OnlyAdds(pm0, pm, range, i) && pm' == After(pm, PageRequest(range, i), Ok)
    ensures OnlyAdds(pm0, pm', range, i + 1)
  {
    hide Page, FrameFor, Advance;
    forall key | key in pm' && key !in pm0
      ensures exists j: nat | j < i + 1 :: key == RangeKey(range, j)
    {
      if key in pm {
        var j: nat :| j < i && key == RangeKey(range, j);
        assert j < i + 1;
      } else {
        assert key == RangeKey(range, i);
      }
    }
  }

  /** A range whose pages are all new joins the earlier ranges without sharing a page. */
  lemma PlaceAll(pm0: PageMap, pm: PageMap, r: Index, ranges: seq<Range>, next: Word, range: Range)
    requires Ledger(pm0, r, ranges, next)
    requires Placing(pm0, pm, r, range, range.count) && range.v == next
    ensures Ledger(pm, r, ranges + [range], Advance(next, range.count))
  {
    hide Advance, IsPageAligned, RangeFrame, RangeKey, MapsPage, Disjoint, Consecutive, OnlyAdds;
    forall earlier | earlier in ranges
      ensures MapsRange(pm, r, earlier)
    {
      KeepsRange(pm0, pm, r, earlier);
    }
    PlaceDisjoint(pm0, r, ranges, range);
    PlaceConsecutive(ranges, next, range);
  }

  lemma PlaceConsecutive(ranges: seq<Range>, next: Word, range: Range)
    requires Consecutive(ranges, next) && range.v == next && IsPageAligned(next)
    ensures Consecutive(ranges + [range], Advance(next, range.count))
    ensures IsPageAligned(Advance(next, range.count))
  {
    hide Advance, IsPageAligned;
    AdvanceAligned(next, range.count);
  }

  lemma KeepsRange(pm0: PageMap, pm: PageMap, r: Index, range: Range)
    requires Grows(pm0, pm) && MapsRange(pm0, r, range)
    ensures MapsRange(pm, r, range)
  {
    hide RangeFrame, RangeKey;
    forall i: nat | i < range.count ensures MapsPage(pm, r, range, i) {
      assert MapsPage(pm0, r, range, i);
    }
  }

  lemma PlaceDisjoint(pm0: PageMap, r: Index, ranges: seq<Range>, range: Range)
    requires forall earlier | earlier in ranges :: MapsRange(pm0, r, earlier)
    requires Disjoint(ranges)
    requires forall j: nat | j < range.count :: RangeKey(range, j) !in pm0
    requires forall j: nat, k: nat | j < k < range.count :: RangeKey(range, j) != RangeKey(range, k)
    ensures Disjoint(ranges + [range])
  {
    hide RangeFrame, RangeKey;
    var all := ranges + [range];
    forall k, i: nat | 0 <= k < |ranges| && i < all[k].count
      ensures RangeKey(all[k], i) in pm0
    {
      assert all[k] in ranges;
      assert MapsPage(pm0, r, all[k], i);
    }
    forall k, i: nat, l, j: nat |
      0 <= k < |all| && i < all[k].count && 0 <= l < |all| && j < all[l].count && RangeKey(all[k], i) == RangeKey(all[l], j)
      ensures k == l && i == j
    {
      if k < |ranges| && l < |ranges| {
        assert all[k] == ranges[k] && all[l] == ranges[l];
      }
    }
  }

  predicate IsOffset(o: Word) {
    o & 0xfff == o
  }

  /** The byte at offset `o` after `a`. */
  function ByteAt(a: Word, o: Word): Word {
    a + o
  }

  /** The offset of an address in its page. */
  function InPage(a: Word): Word {
    a & 0xfff
  }

  /** Every byte of a mapped page of a range is translated, through the frame recorded for the page. */
  lemma RangeByte(m: Memory, root: Loc, r: Index, pm: PageMap, range: Range, i: nat, o: Word)
    requires Represents(m, root, r, pm) && MapsPage(pm, r, range, i) && IsPageAligned(range.v) && IsOffset(o)
    ensures InPage(ByteAt(Advance(range.v, i), o)) == o
    ensures Walk(m, root, 0, ByteAt(Advance(range.v, i), o)) == FrameTranslation(RangeFrame(range, i))
  {
    hide Advance, ByteAt, InPage, Contains, IndexAt, Page, Walk, IsOffset, IsPageAligned, Represents, MapsPage, RangeFrame;
    AdvanceAligned(range.v, i);
    OffsetInPage(Advance(range.v, i), o);
    RangeTranslates(m, root, r, pm, range, i, ByteAt(Advance(range.v, i), o));
  }

  lemma RangeTranslates(m: Memory, root: Loc, r: Index, pm: PageMap, range: Range, i: nat, u: Word)
    requires Represents(m, root, r, pm) && MapsPage(pm, r, range, i) && Page(u) == Page(Advance(range.v, i))
    ensures Walk(m, root, 0, u) == FrameTranslation(RangeFrame(range, i))
  {
    hide Advance, Contains, IndexAt, Page, Walk, RangeFrame;
    SamePage(u, Advance(range.v, i));
    assert IndexAt(0, u) == IndexAt(0, Advance(range.v, i));
    assert Walk(m, root, 0, u) == Lookup(pm, u);
  }

  lemma MaskedByte(p: Word, o: Word)
    requires IsOffset(o)
    ensures Splice(p & PAGE_ADDRESS_MASK, o) == p + o <==> IsFrame(p)
  {
    hide IsFrame, IsOffset;
    if IsFrame(p) {
      FrameOffset(p, o);
    } else {
      UnframedMoves(p, o);
    }
  }

  lemma AddressIs(f: Frame, u: Word)
    ensures FrameTranslation(f).Mapped? && FrameTranslation(f).Address(u) == Splice(f.base, InPage(u))
  {
    hide Splice;
  }

  lemma MaskedSplice(base: Word, p: Word, o: Word)
    requires base == p & PAGE_ADDRESS_MASK && IsOffset(o)
    ensures Splice(base, o) == ByteAt(p, o) <==> IsFrame(p)
  {
    hide IsFrame, IsOffset, Splice;
    MaskedByte(p, o);
  }

  // ----- In byte numbers

  lemma {:induction false} AdvanceIs(a: Word, n: nat)
    ensures Advance(a, n) == Sum(a, WordOf(4096 * n))
    decreases n
  {
    hide WordOf, Sum;
    if n == 0 {
      FirstWord();
      SumAssociates(a, 0, 0);
    } else {
      AdvanceIs(a, n - 1);
      WordOfSum(4096 * (n - 1), 4096);
      PageMask();
      SumAssociates(a, WordOf(4096 * (n - 1)), 4096);
      NextIs(Advance(a, n - 1));
    }
  }

  lemma NextIs(a: Word)
    ensures Next(a) == Sum(a, 4096)
  {
  }

  /** Byte number `k` after `a` is byte `k % 4096` after page `k / 4096`. */
  lemma ByteNumber(a: Word, k: nat)
    ensures ByteAt(Advance(a, k / 4096), WordOf(k % 4096)) == Sum(a, WordOf(k))
    ensures Advance(a, k / 4096) == Sum(a, WordOf(k / 4096 * 4096))
    ensures IsOffset(WordOf(k % 4096))
  {
    hide Advance, WordOf, Sum, ByteAt;
    AdvanceIs(a, k / 4096);
    WordOfSum(k / 4096 * 4096, k % 4096);
    SumAssociates(a, WordOf(k / 4096 * 4096), WordOf(k % 4096));
    ByteIs(Advance(a, k / 4096), WordOf(k % 4096));
    WordIsOffset(k % 4096);
  }

  lemma ByteIs(a: Word, o: Word)
    ensures ByteAt(a, o) == Sum(a, o)
  {
  }

  /** Byte number `k` of a range is found, in a page of which the entry has the flags asked for and no other,
      and it is where it was asked to be exactly if its page was asked for at an address a page can have. */
  ghost predicate IsByteAsAsked(m: Memory, root: Loc, range: Range, k: nat) {
    IsFoundAt(m, root, Sum(range.v, WordOf(k)), Sum(range.p, WordOf(k)), Sum(range.p, WordOf(k / 4096 * 4096)),
              range.flags)
  }

  ghost predicate IsFoundAt(m: Memory, root: Loc, u: Word, target: Word, page: Word, flags: Word) {
    var t := Walk(m, root, 0, u);
    && t.Mapped? && !t.user && (t.writable <==> flags & 1 != 0)
    && t.leaf == (page & 0x000f_ffff_ffff_f000) | ((flags & 0x1f) << 1) | 0x101
    && (t.Address(u) == target <==> page & 0xfff0_0000_0000_0fff == 0)
  }

  lemma GlobalWord(flags: Word, p: Word)
    ensures NewPage(VFLAG_GLOBAL | flags, p) == (p & 0x000f_ffff_ffff_f000) | ((flags & 0x1f) << 1) | 0x101
  {
    hide NewPage;
    PageWord(VFLAG_GLOBAL | flags, p);
    GlobalAdded(p & 0x000f_ffff_ffff_f000, flags);
  }

  lemma GlobalAdded(a: Word, flags: Word)
    ensures a | (((0x20 | flags) & 0x1f) << 1) | (((0x20 | flags) & 0x20) << 3) | 1 == a | ((flags & 0x1f) << 1) | 0x101
  {
  }

  lemma RangeFrameIs(range: Range, i: nat)
    ensures RangeFrame(range, i) ==
            FrameFor(Request(Advance(range.p, i), Advance(range.v, i), VFLAG_GLOBAL | range.flags))
  {
    hide Advance, FrameFor;
  }

  /** Where the walk ends when it ends in the frame of a page asked for at `page`. */
  lemma FoundAt(m: Memory, root: Loc, u: Word, page: Word, flags: Word, o: Word)
    requires Walk(m, root, 0, u) == FrameTranslation(FrameFor(Request(page, u, VFLAG_GLOBAL | flags)))
    requires InPage(u) == o && IsOffset(o)
    ensures IsFoundAt(m, root, u, ByteAt(page, o), page, flags)
  {
    hide Walk, NewPage, Splice, IsOffset, ByteAt, InPage;
    var f := FrameFor(Request(page, u, VFLAG_GLOBAL | flags));
    GlobalWord(flags, page);
    AddressIs(f, u);
    MaskedSplice(f.base, page, o);
  }

  /** Every byte of a mapped page of a range is found as asked. */
  lemma RangeByteAsAsked(m: Memory, root: Loc, r: Index, pm: PageMap, range: Range, k: nat)
    requires Represents(m, root, r, pm) && MapsPage(pm, r, range, k / 4096) && IsPageAligned(range.v)
    ensures IsByteAsAsked(m, root, range, k)
  {
    hide Walk, Represents, MapsPage, IsPageAligned, IsOffset, ByteAt, Advance, RangeFrame, FrameFor, FrameTranslation,
         IsFoundAt, InPage, Sum, WordOf;
    var i, o := k / 4096, WordOf(k % 4096);
    ByteNumber(range.v, k);
    ByteNumber(range.p, k);
    RangeByte(m, root, r, pm, range, i, o);
    RangeFrameIs(range, i);
    SameFrame(Advance(range.p, i), Advance(range.v, i), ByteAt(Advance(range.v, i), o), VFLAG_GLOBAL | range.flags);
    FoundAt(m, root, ByteAt(Advance(range.v, i), o), Advance(range.p, i), range.flags, o);
  }

  lemma SameFrame(p: Word, v: Word, u: Word, flags: Word)
    ensures FrameFor(Request(p, v, flags)) == FrameFor(Request(p, u, flags))
  {
    hide Contains, NewPage;
  }

  lemma NextAlignedBack(a: Word)
    requires IsPageAligned(Next(a))
    ensures IsPageAligned(a)
  {
  }

  lemma {:induction false} AdvanceAlignedBack(a: Word, n: nat)
    requires IsPageAligned(Advance(a, n))
    ensures IsPageAligned(a)
    decreases n
  {
    hide IsPageAligned, Next;
    if n > 0 {
      NextAlignedBack(Advance(a, n - 1));
      AdvanceAlignedBack(a, n - 1);
    }
  }

  lemma {:induction false} RangesAligned(ranges: seq<Range>, next: Word, k: nat)
    requires Consecutive(ranges, next) && IsPageAligned(next) && k < |ranges|
    ensures IsPageAligned(ranges[k].v)
    decreases |ranges| - k
  {
    hide Advance, IsPageAligned;
    if k < |ranges| - 1 {
      RangesAligned(ranges, next, k + 1);
    }
    AdvanceAlignedBack(ranges[k].v, ranges[k].count);
  }

  /** This holds of every byte of every range in the ledger. */
  lemma LedgerByteAsAsked(m: Memory, root: Loc, r: Index, pm: PageMap, ranges: seq<Range>, next: Word,
                          range: Range, k: nat)
    requires Represents(m, root, r, pm) && Ledger(pm, r, ranges, next)
    requires range in ranges && k < 4096 * range.count
    ensures IsByteAsAsked(m, root, range, k)
  {
    hide Advance, IsPageAligned, IsByteAsAsked, Walk, Represents, MapsPage, Disjoint, Consecutive;
    var n :| 0 <= n < |ranges| && ranges[n] == range;
    RangesAligned(ranges, next, n);
    assert MapsRange(pm, r, range);
    assert MapsPage(pm, r, range, k / 4096);
    RangeByteAsAsked(m, root, r, pm, range, k);
  }

  lemma OffsetInPage(v: Word, o: Word)
    requires IsPageAligned(v) && IsOffset(o)
    ensures Page(ByteAt(v, o)) == Page(v) && InPage(ByteAt(v, o)) == o
  {
    AddOffset(v, o);
  }

  lemma FrameOffset(p: Word, o: Word)
    requires IsFrame(p) && IsOffset(o)
    ensures Splice(p & PAGE_ADDRESS_MASK, o) == p + o
  {
    FrameMasked(p);
    FrameAligned(p);
    AddIsOr(p, o);
  }

  lemma FrameAligned(p: Word)
    requires IsFrame(p)
    ensures IsPageAligned(p)
  {
  }

  lemma UnframedMoves(p: Word, o: Word)
    requires !IsFrame(p) && IsOffset(o)
    ensures Splice(p & PAGE_ADDRESS_MASK, o) != p + o
  {
    MaskMoves(p);
    MaskAligned(p);
    AddIsOr(p & PAGE_ADDRESS_MASK, o);
    AddCancels(p & PAGE_ADDRESS_MASK, p, o);
  }

  lemma MaskMoves(p: Word)
    requires !IsFrame(p)
    ensures p & PAGE_ADDRESS_MASK != p
  {
  }

  lemma MaskAligned(p: Word)
    ensures (p & PAGE_ADDRESS_MASK) & 0xfff == 0
  {
  }

  lemma AddCancels(a: Word, b: Word, o: Word)
    requires a != b
    ensures a + o != b + o
  {
  }

  /** `Panicked` is `unwrap_or_else(|e| panic!(..))` with the error it was given. */
  datatype RangeResult = Placed(v: Word) | Panicked(error: Outcome)

  class KernelMapper {
    var nextVAddr: Word
    const builder: VirtualMapBuilder
    ghost var pm: PageMap
    ghost var ranges: seq<Range>

    ghost predicate Valid()
      reads this, builder, builder.inner
    {
      && builder.Valid()
      && Represents(builder.inner.memory, Local, builder.inner.mapper.recursionIndex, pm)
      && Ledger(pm, builder.inner.mapper.recursionIndex, ranges, nextVAddr)
    }

    /** The builder does what the abstract state says, and has these frames for tables. */
    ghost predicate CanMap(supply: seq<Word>)
      reads this, builder, builder.inner
    {
      && builder.Valid() && AllFresh(builder.inner.memory, builder.inner.tree, supply)
      && Represents(builder.inner.memory, Local, builder.inner.mapper.recursionIndex, pm)
    }

    constructor (builder: VirtualMapBuilder, nextVAddr: Word, ghost pm: PageMap)
      requires builder.Valid() && IsPageAligned(nextVAddr)
      requires Represents(builder.inner.memory, Local, builder.inner.mapper.recursionIndex, pm)
      ensures Valid() && this.builder == builder && this.nextVAddr == nextVAddr && this.pm == pm && ranges == []
    {
      this.builder, this.nextVAddr, this.pm, this.ranges := builder, nextVAddr, pm, [];
    }

    /** At any time, the hardware finds every byte of every range handed out so far as it was asked for. */
    lemma EveryByteAsAsked()
      requires Valid()
      ensures forall range, k: nat | range in ranges && k < 4096 * range.count ::
                IsByteAsAsked(builder.inner.memory, Local, range, k)
    {
      hide Represents, Ledger, IsByteAsAsked;
      forall range, k: nat | range in ranges && k < 4096 * range.count
        ensures IsByteAsAsked(builder.inner.memory, Local, range, k)
      {
        LedgerByteAsAsked(builder.inner.memory, Local, builder.inner.mapper.recursionIndex, pm, ranges, nextVAddr,
                          range, k);
      }
    }

    /** One page of the loop: the builder's answer, and the abstract state after it. */
    method MapOne(q: Request, supply: seq<Word>) returns (result: Outcome, rest: seq<Word>)
      requires CanMap(supply)
      modifies this`pm, builder.inner`memory, builder.inner`tree
      ensures CanMap(rest)
      ensures Allowed(old(pm), builder.inner.mapper.recursionIndex, q, result)
      ensures pm == After(old(pm), q, result)
    {
      hide IndexAt, IsTree, AllFresh, MapFrom, Represents, Allowed, After;
      ghost var m, r, t := builder.inner.memory, builder.inner.mapper.recursionIndex, builder.inner.tree;
      MapRefines(m, r, t, q, supply, pm);
      result, rest := builder.Map(q, supply);
      pm := After(pm, q, result);
      if IndexAt(0, q.vAddr) != r {
        assert PathTo(q.vAddr, 0) == Root;
        MapKeepsFresh(m, r, t, 0, q, supply);
      }
    }

    /** Page `i` of a range of which the pages before it have been mapped, since the state was `pm0`. */
    method MapPageOf(range: Range, i: nat, supply: seq<Word>, ghost pm0: PageMap)
      returns (result: Outcome, rest: seq<Word>)
      requires CanMap(supply) && Placing(pm0, pm, builder.inner.mapper.recursionIndex, range, i)
      modifies this`pm, builder.inner`memory, builder.inner`tree
      ensures CanMap(rest)
      ensures result == Ok ==> Placing(pm0, pm, builder.inner.mapper.recursionIndex, range, i + 1)
      ensures result != Ok ==>
                pm == old(pm) && RefusesPage(pm, builder.inner.mapper.recursionIndex, range, i, result)
    {
      hide CanMap, Placing, Allowed, PageRequest;
      result, rest := MapOne(PageRequest(range, i), supply);
      if result == Ok {
        PlaceOne(pm0, old(pm), pm, builder.inner.mapper.recursionIndex, range, i);
      }
    }

    /** The closure: on success the whole range is mapped, nothing mapped before has moved, and the new
        range shares no page with any earlier one; the only way to panic is an error of `map`. */
    method NextFreePage(pAddr: Word, pageCount: nat, flags: Word, supply: seq<Word>)
      returns (result: RangeResult, rest: seq<Word>)
      requires Valid() && AllFresh(builder.inner.memory, builder.inner.tree, supply)
      modifies this, builder.inner`memory, builder.inner`tree
      ensures Grows(old(pm), pm)
      ensures result.Placed? ==>
                && Valid() && AllFresh(builder.inner.memory, builder.inner.tree, rest)
                && result.v == old(nextVAddr) && nextVAddr == Sum(old(nextVAddr), WordOf(4096 * pageCount))
                && ranges == old(ranges) + [Range(result.v, pAddr, pageCount, flags)]
                && AddsPages(old(pm), pm, result.v, pageCount)
      ensures result.Panicked? ==>
                exists i: nat | i < pageCount ::
                  Refuses(pm, builder.inner.mapper.recursionIndex, pAddr, old(nextVAddr), flags, i, result.error)
    {
      hide WordOf, Sum, AllFresh, Represents, Advance, Ledger, Placing, RefusesPage, Grows, AddsPages,
           VirtualMapBuilder.Valid;
      var range := Range(nextVAddr, pAddr, pageCount, flags);
      AdvanceIs(nextVAddr, pageCount);
      nextVAddr := Advance(nextVAddr, pageCount);
      ghost var r := builder.inner.mapper.recursionIndex;
      rest := supply;
      PlaceNone(pm, r, range);
      for i := 0 to pageCount
        invariant CanMap(rest) && Placing(old(pm), pm, r, range, i)
        invariant ranges == old(ranges) && nextVAddr == Advance(range.v, pageCount)
      {
        var error: Outcome;
        error, rest := MapPageOf(range, i, rest, old(pm));
        if error != Ok {
          PlacingGrows(old(pm), pm, r, range, i);
          RefusedIs(pm, r, range, i, error);
          result := Panicked(error);
          return;
        }
      }
      PlacingGrows(old(pm), pm, r, range, pageCount);
      PlaceAll(old(pm), pm, r, ranges, range.v, range);
      ranges := ranges + [range];
      result := Placed(range.v);
    }
  }
}
