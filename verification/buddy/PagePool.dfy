/** `PhysicalPageAllocator` of kernel/src/page_alloc.rs: carving a memory region into buddy trees, each
    preceded by its own metadata pages, and allocating from the first tree that can. */
module PagePool {
  import opened Common
  import opened BuddySpec
  import opened BuddyIndex
  import opened BuddyArray
  import opened BuddyTree

  const MINIMUM_PAGES_TO_MANAGE: nat := 4

  /** A run of physical memory: `pages` pages from byte address `start`. */
  datatype Range = Range(start: nat, pages: nat)

  /** Where a tree was put: its metadata, and the memory it manages. */
  datatype Placement = Placement(metadata: Range, managed: Range)

  function End(r: Range): nat {
    r.start + r.pages * PAGE_SIZE
  }

  /** The shrinking loop: halve until the metadata fits in the pages left over at first. Zero stands for
      giving up. */
  function Shrink(regionSize: nat, freePages: nat): nat
    requires regionSize > 0
  {
    if RequiredPagesForTree(regionSize) <= freePages then regionSize
    else if regionSize / 2 < MINIMUM_PAGES_TO_MANAGE then 0
    else Shrink(regionSize / 2, freePages)
  }

  /** The size of the first tree carved out of `pages` pages. */
  function RegionFor(pages: nat): nat {
    if pages < MINIMUM_PAGES_TO_MANAGE then 0
    else
      FirstInLevel(pages);
      Shrink(Pow2(ILog2(pages)), pages - Pow2(ILog2(pages)))
  }

  lemma {:induction false} ShrinkFits(regionSize: nat, freePages: nat)
    requires IsPow2(regionSize) && regionSize >= MINIMUM_PAGES_TO_MANAGE
    ensures var z := Shrink(regionSize, freePages);
            z != 0 ==> z >= MINIMUM_PAGES_TO_MANAGE && IsPow2(z) && z <= regionSize && RequiredPagesForTree(z) <= freePages
    ensures Shrink(regionSize, freePages) == 0 <==> freePages == 0
  {
    if regionSize / 2 >= MINIMUM_PAGES_TO_MANAGE {
      ShrinkFits(regionSize / 2, freePages);
    } else {
      assert regionSize < 8;
    }
  }

  lemma {:induction false} Pow2IsPow2(k: nat)
    ensures IsPow2(Pow2(k))
  {
    if k > 0 {
      Pow2IsPow2(k - 1);
    }
  }

  lemma {:induction false} Pow2OfLog(n: nat)
    requires IsPow2(n)
    ensures Pow2(ILog2(n)) == n
  {
    if n > 1 {
      Pow2OfLog(n / 2);
    }
  }

  /** The first tree and its metadata fit in the region; none is carved exactly when the region is below
      the minimum or a power of two (the loop keeps comparing with the pages left over at first, and a
      power of two leaves none). */
  lemma RegionFits(pages: nat)
    ensures var z := RegionFor(pages);
            if z == 0 then pages < MINIMUM_PAGES_TO_MANAGE || IsPow2(pages)
            else
              && pages >= MINIMUM_PAGES_TO_MANAGE && !IsPow2(pages)
              && z >= MINIMUM_PAGES_TO_MANAGE && IsPow2(z) && 0 < RequiredPagesForTree(z)
              && z + RequiredPagesForTree(z) <= pages
  {
    if pages >= MINIMUM_PAGES_TO_MANAGE {
      FirstInLevel(pages);
      var z := Pow2(ILog2(pages));
      Pow2IsPow2(ILog2(pages));
      assert !IsPow2(3);
      assert z >= MINIMUM_PAGES_TO_MANAGE;
      ShrinkFits(z, pages - z);
      if IsPow2(pages) {
        Pow2OfLog(pages);
      }
    }
  }

  lemma {:induction false} ShrinkIsLargest(regionSize: nat, freePages: nat, z: nat)
    requires IsPow2(regionSize) && IsPow2(z) && MINIMUM_PAGES_TO_MANAGE <= z <= regionSize
    requires RequiredPagesForTree(z) <= freePages
    ensures z <= Shrink(regionSize, freePages)
  {
    if z < regionSize {
      Pow2AtMostHalf(z, regionSize);
      ShrinkIsLargest(regionSize / 2, freePages, z);
    }
  }

  lemma LargestPow2(pages: nat, largest: nat)
    requires IsPow2(largest) && largest <= pages < 2 * largest
    ensures Pow2(ILog2(pages)) == largest
  {
    FirstInLevel(pages);
    Pow2IsPow2(ILog2(pages));
    if Pow2(ILog2(pages)) < largest {
      Pow2AtMostHalf(Pow2(ILog2(pages)), largest);
    } else if largest < Pow2(ILog2(pages)) {
      Pow2AtMostHalf(largest, Pow2(ILog2(pages)));
    }
  }

  /** The tree is the largest power of two, of at least 4 pages, of which the metadata fits in the pages that
      the largest power of two leaves over. */
  lemma RegionIsLargest(pages: nat, largest: nat, z: nat)
    requires IsPow2(largest) && largest <= pages < 2 * largest
    requires IsPow2(z) && 4 <= z <= largest && 4096 * (pages - largest) >= 24 + 2 * z - 1
    ensures z <= RegionFor(pages)
    ensures 4096 * (pages - largest) >= 24 + 2 * RegionFor(pages) - 1
  {
    LargestPow2(pages, largest);
    RequiredIsLeast(z, pages - largest);
    ShrinkIsLargest(largest, pages - largest, z);
    ShrinkFits(largest, pages - largest);
    RequiredIsLeast(RegionFor(pages), pages - largest);
  }

  /** Every tree that carving `pages` pages from `start` places, in order. */
  function Carving(start: nat, pages: nat): seq<Placement>
    decreases pages
  {
    var z := RegionFor(pages);
    if z == 0 || start % 8 != 0 then []
    else
      RegionFits(pages);
      var required := RequiredPagesForTree(z);
      var metadata, managed := Range(start, required), Range(start + required * PAGE_SIZE, z);
      [Placement(metadata, managed)] + Carving(End(managed), pages - z - required)
  }

  predicate Inside(inner: Range, outer: Range) {
    outer.start <= inner.start && End(inner) <= End(outer)
  }

  predicate Apart(a: Range, b: Range) {
    End(a) <= b.start || End(b) <= a.start
  }

  /** All the metadata and managed ranges, in order of address. */
  function Ranges(ps: seq<Placement>): seq<Range> {
    if ps == [] then [] else [ps[0].metadata, ps[0].managed] + Ranges(ps[1..])
  }

  /** Every metadata and managed range of a carving lies inside the region, no two of them overlap, and
      each tree manages a power of two of at least 4 pages, with metadata large enough for its flags. */
  lemma {:induction false} CarvingIsSound(start: nat, pages: nat)
    ensures var ps := Carving(start, pages);
            var rs := Ranges(ps);
            && (forall k | 0 <= k < |rs| :: Inside(rs[k], Range(start, pages)))
            && (forall j, k | 0 <= j < k < |rs| :: Apart(rs[j], rs[k]))
            && (forall p | p in ps ::
                  && IsPow2(p.managed.pages) && p.managed.pages >= MINIMUM_PAGES_TO_MANAGE
                  && p.metadata.pages == RequiredPagesForTree(p.managed.pages))
    decreases pages
  {
    hide RegionFor, RequiredPagesForTree, IsPow2;
    var z := RegionFor(pages);
    RegionFits(pages);
    if z != 0 && start % 8 == 0 {
      var required := RequiredPagesForTree(z);
      var metadata, managed := Range(start, required), Range(start + required * PAGE_SIZE, z);
      var left := pages - z - required;
      CarvingIsSound(End(managed), left);
      RangesJoin(Placement(metadata, managed), Carving(End(managed), left), Range(start, pages), Range(End(managed), left));
    }
  }

  /** The pages of the region from byte address `at` on. */
  function PagesFrom(start: nat, pages: nat, at: nat): int {
    pages - (at - start) / 4096
  }

  /** The metadata ends where the managed pages start, and the tree is the one for the pages left there. */
  predicate IsPlaced(p: Placement, start: nat, pages: nat) {
    && start <= p.metadata.start && 0 <= PagesFrom(start, pages, p.metadata.start)
    && p.metadata.start + p.metadata.pages * 4096 == p.managed.start
    && p.managed.pages == RegionFor(PagesFrom(start, pages, p.metadata.start))
  }

  /** What is left behind the place is too small for a tree, or a power of two. */
  predicate IsLastPlaced(p: Placement, start: nat, pages: nat) {
    && start <= End(p.managed)
    && var left := PagesFrom(start, pages, End(p.managed)); 0 <= left && (left < 4 || IsPow2(left))
  }

  lemma PagesFromNext(start: nat, pages: nat, used: nat, at: nat)
    requires used <= pages && start + used * 4096 <= at
    ensures PagesFrom(start, pages, at) == PagesFrom(start + used * 4096, pages - used, at)
  {
  }

  /** No page of the region is skipped: places follow one another from the start on, each tree is the one for
      the pages that are left, and what is left at the end is too small or a power of two. */
  lemma {:induction false} CarvingIsTight(start: nat, pages: nat)
    requires start % 8 == 0
    ensures
      var ps := Carving(start, pages);
      && (ps == [] ==> pages < 4 || IsPow2(pages))
      && (ps != [] ==> ps[0].metadata.start == start && IsLastPlaced(ps[|ps| - 1], start, pages))
      && (forall k | 0 <= k < |ps| :: IsPlaced(ps[k], start, pages))
      && (forall k | 0 <= k < |ps| - 1 :: ps[k].managed.start + ps[k].managed.pages * 4096 == ps[k + 1].metadata.start)
    decreases pages
  {
    hide RegionFor, RequiredPagesForTree, IsPow2, PagesFrom;
    RegionFits(pages);
    var z := RegionFor(pages);
    if z != 0 {
      var used := RequiredPagesForTree(z) + z;
      var next := start + used * 4096;
      CarvingIsTight(next, pages - used);
      var ps, rest := Carving(start, pages), Carving(next, pages - used);
      assert ps[0].managed.start + ps[0].managed.pages * 4096 == next;
      assert ps == [ps[0]] + rest;
      FirstPlaced(ps[0], start, pages, used);
      forall k | 0 < k < |ps| ensures IsPlaced(ps[k], start, pages) {
        assert ps[k] == rest[k - 1];
        PlacedNext(ps[k], start, pages, used);
      }
      if rest != [] {
        assert ps[|ps| - 1] == rest[|rest| - 1];
        PagesFromNext(start, pages, used, End(ps[|ps| - 1].managed));
      }
      forall k | 0 <= k < |ps| - 1
        ensures ps[k].managed.start + ps[k].managed.pages * 4096 == ps[k + 1].metadata.start
      {
        if k > 0 {
          assert ps[k] == rest[k - 1] && ps[k + 1] == rest[k];
        }
      }
    }
  }

  lemma FirstPlaced(p: Placement, start: nat, pages: nat, used: nat)
    requires p.metadata.start == start && p.metadata.pages + p.managed.pages == used <= pages
    requires p.managed.start == start + p.metadata.pages * 4096 && p.managed.pages == RegionFor(pages)
    ensures IsPlaced(p, start, pages)
    ensures pages - used < 4 || IsPow2(pages - used) ==> IsLastPlaced(p, start, pages)
  {
    hide RegionFor, IsPow2;
  }

  lemma PlacedNext(p: Placement, start: nat, pages: nat, used: nat)
    requires used <= pages && IsPlaced(p, start + used * 4096, pages - used)
    ensures IsPlaced(p, start, pages)
  {
    hide RegionFor, PagesFrom;
    PagesFromNext(start, pages, used, p.metadata.start);
  }

  /** A placement at the front of a region, before sound placements in the rest of it. */
  lemma RangesJoin(p: Placement, rest: seq<Placement>, all: Range, tail: Range)
    requires p.metadata.start == all.start && End(p.metadata) == p.managed.start && End(p.managed) == tail.start
    requires End(tail) == End(all)
    requires forall k | 0 <= k < |Ranges(rest)| :: Inside(Ranges(rest)[k], tail)
    requires forall j, k | 0 <= j < k < |Ranges(rest)| :: Apart(Ranges(rest)[j], Ranges(rest)[k])
    ensures var rs := Ranges([p] + rest);
            && (forall k | 0 <= k < |rs| :: Inside(rs[k], all))
            && (forall j, k | 0 <= j < k < |rs| :: Apart(rs[j], rs[k]))
  {
    assert ([p] + rest)[1..] == rest;
    var rs, rt := Ranges([p] + rest), Ranges(rest);
    assert rs == [p.metadata, p.managed] + rt;
    forall k | 2 <= k < |rs|
      ensures rs[k] == rt[k - 2] && Inside(rs[k], tail)
    {
    }
    forall j, k | 0 <= j < k < |rs|
      ensures Apart(rs[j], rs[k])
    {
      if j >= 2 {
        assert Apart(rt[j - 2], rt[k - 2]);
      }
    }
  }

  /** The first half of `create_trees_`: the size of the tree to carve, zero for an error. */
  method ChooseRegion(pages: nat) returns (regionSize: nat)
    ensures regionSize == RegionFor(pages)
  {
    if pages < MINIMUM_PAGES_TO_MANAGE {
      return 0;
    }
    FirstInLevel(pages);
    regionSize := Pow2(ILog2(pages));
    var freePages := pages - regionSize;
    var required := RequiredPagesForTree(regionSize);
    while required > freePages
      invariant regionSize > 0 && required == RequiredPagesForTree(regionSize)
      invariant Shrink(regionSize, freePages) == RegionFor(pages)
      decreases regionSize
    {
      regionSize := regionSize / 2;
      if regionSize < MINIMUM_PAGES_TO_MANAGE {
        return 0;
      }
      required := RequiredPagesForTree(regionSize);
    }
  }

  /** A block of one of the trees. */
  datatype Grant = Grant(tree: nat, block: Block)

  /** The memory of a block. */
  function RangeOf(ps: seq<Placement>, g: Grant): Range
    requires g.tree < |ps|
  {
    Range(ps[g.tree].managed.start + g.block.start * PAGE_SIZE, g.block.size)
  }

  /** The block comes from the first tree, from `i` on, that has one. */
  function PoolAlloc(ps: seq<Placement>, ts: seq<Tree>, pages: nat, i: nat): (r: (Option<Grant>, seq<Tree>))
    requires |ps| == |ts| && i <= |ts|
    ensures |r.1| == |ts| && (r.0.Some? ==> r.0.value.tree < |ts|)
    decreases |ts| - i
  {
    if i == |ts| then (None, ts)
    else
      match Alloc(ts[i], ps[i].managed.pages, pages)
      case Some(a) => (Some(Grant(i, a.block)), ts[i := a.tree])
      case None => PoolAlloc(ps, ts, pages, i + 1)
  }

  /** The pool fails exactly when every tree does; otherwise the first that can gives the block, and no
      other tree changes. */
  lemma {:induction false} PoolAllocIsFirst(ps: seq<Placement>, ts: seq<Tree>, pages: nat, i: nat)
    requires |ps| == |ts| && i <= |ts|
    ensures
      match PoolAlloc(ps, ts, pages, i)
      case (None, ts') => ts' == ts && forall j | i <= j < |ts| :: Alloc(ts[j], ps[j].managed.pages, pages) == None
      case (Some(g), ts') =>
        && i <= g.tree < |ts|
        && Alloc(ts[g.tree], ps[g.tree].managed.pages, pages) == Some(Allocated(ts'[g.tree], g.block))
        && (forall j | i <= j < g.tree :: Alloc(ts[j], ps[j].managed.pages, pages) == None)
        && (forall j | 0 <= j < |ts| && j != g.tree :: ts'[j] == ts[j])
    decreases |ts| - i
  {
    hide Alloc;
    if i < |ts| && Alloc(ts[i], ps[i].managed.pages, pages) == None {
      PoolAllocIsFirst(ps, ts, pages, i + 1);
    }
  }

  class PhysicalPageAllocator {
    var trees: seq<BinaryBuddyTree>
    ghost var placements: seq<Placement>

    ghost predicate Valid()
      reads this, trees, set t | t in trees :: t.children
    {
      && |placements| == |trees|
      && (forall i | 0 <= i < |trees| ::
            && trees[i].Valid() && trees[i].base == placements[i].managed.start
            && trees[i].pages == placements[i].managed.pages)
      && (forall i, j | 0 <= i < j < |trees| :: trees[i].children != trees[j].children)
    }

    constructor ()
      ensures Valid() && trees == [] && placements == []
    {
      trees, placements := [], [];
    }

    /** `push_tree`. */
    method PushTree(tree: BinaryBuddyTree, ghost placement: Placement)
      requires Valid() && tree.Valid() && tree.base == placement.managed.start && tree.pages == placement.managed.pages
      requires forall t | t in trees :: t.children != tree.children
      modifies this
      ensures Valid() && trees == old(trees) + [tree] && placements == old(placements) + [placement]
    {
      trees := trees + [tree];
      placements := placements + [placement];
    }

    /** `create_trees_`: adds a free tree for every placement of the carving. It never answers `Ok`: the
        recursion ends in the error for a region that is too small, and hands that error back. */
    method CreateTrees(start: nat, pages: nat, loaderMemory: bool) returns (ok: bool)
      requires Valid()
      modifies this
      ensures Valid() && !ok
      ensures placements == old(placements) + Carving(start, pages)
      ensures old(trees) <= trees
      ensures forall i | |old(trees)| <= i < |trees| ::
                fresh(trees[i].children) && trees[i].Contents() == FREE && trees[i].loaderMemory == loaderMemory
      decreases pages
    {
      hide RequiredPagesForTree, RegionFor, IsPow2, BinaryBuddyTree.Valid, BinaryBuddyTree.Contents;
      RegionFits(pages);
      var regionSize := ChooseRegion(pages);
      if regionSize == 0 {
        return false;
      }
      var required := RequiredPagesForTree(regionSize);
      var memoryRegionStart := start + required * PAGE_SIZE;
      var tree := NewTree(start, memoryRegionStart, regionSize, loaderMemory);
      if tree.None? {
        return false;
      }
      ghost var first := Placement(Range(start, required), Range(memoryRegionStart, regionSize));
      PushTree(tree.value, first);
      ghost var pushed := placements;
      ok := CreateTrees(memoryRegionStart + regionSize * PAGE_SIZE, pages - regionSize - required, loaderMemory);
      assert placements == pushed + Carving(End(first.managed), pages - regionSize - required);
      assert Carving(start, pages) == [first] + Carving(End(first.managed), pages - regionSize - required);
    }

    /** What the trees stand for. */
    ghost function Contents(): (ts: seq<Tree>)
      requires Valid()
      reads this, trees, set t | t in trees :: t.children
    {
      var all := trees;
      seq(|all|, i requires 0 <= i < |all| && all[i].Valid() reads set t | t in all :: t.children => all[i].Contents())
    }

    /** One tree's turn. */
    method AllocIn(i: nat, pages: nat) returns (address: Option<nat>)
      requires Valid() && i < |trees|
      modifies trees[i].children
      ensures Valid()
      ensures match BuddySpec.Alloc(old(Contents())[i], placements[i].managed.pages, pages)
              case None => address == None && Contents() == old(Contents())
              case Some(a) =>
                && address == Some(RangeOf(placements, Grant(i, a.block)).start)
                && Contents() == old(Contents())[i := a.tree]
    {
      hide IsTreeAt, TreeAt, BuddySpec.Alloc;
      ghost var ts := Contents();
      address := trees[i].Alloc(pages);
      assert forall j | 0 <= j < |trees| && j != i :: trees[j].Contents() == ts[j];
      assert Contents() == ts[i := trees[i].Contents()];
    }

    /** `alloc`: the loop over the trees gives what `PoolAlloc` gives. */
    method Alloc(pages: nat) returns (address: Option<nat>)
      requires Valid()
      modifies set t | t in trees :: t.children
      ensures Valid() && trees == old(trees) && placements == old(placements)
      ensures match PoolAlloc(placements, old(Contents()), pages, 0)
              case (None, ts) => address == None && Contents() == ts
              case (Some(g), ts) =>
                address == Some(placements[g.tree].managed.start + g.block.start * 4096) && Contents() == ts
    {
      hide BuddySpec.Alloc, BinaryBuddyTree.Valid, BinaryBuddyTree.Contents;
      ghost var ts := Contents();
      for i := 0 to |trees|
        invariant Valid() && trees == old(trees) && placements == old(placements) && Contents() == ts
        invariant PoolAlloc(placements, ts, pages, 0) == PoolAlloc(placements, ts, pages, i)
      {
        address := AllocIn(i, pages);
        if address.Some? {
          return;
        }
      }
      address := None;
    }
  }
}
