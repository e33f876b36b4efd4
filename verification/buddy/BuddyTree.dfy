/** `BinaryBuddyTree` of kernel/src/page_alloc_tree.rs: searches, splitting, merging, `alloc` and `free`
    on the flag array, proved to do what `BuddySpec` says. */
module BuddyTree {
  import opened Common
  import opened BuddySpec
  import opened BuddyIndex
  import opened BuddyArray

  /** `size_of::<BinaryBuddyTree>()`: two words, a flag byte, and padding. */
  const HEADER_SIZE: nat := 24

  /** `offset_of!(BinaryBuddyTree, children)`. */
  const CHILDREN_OFFSET: nat := 17

  function RequiredPagesForTree(pages: nat): (required: nat)
    requires pages > 0
  {
    (HEADER_SIZE + (pages * 2 - 1) + (PAGE_SIZE - 1)) / PAGE_SIZE
  }

  /** The metadata is the least number of pages that hold a header of 24 bytes and a flag byte for each node. */
  lemma RequiredIsLeast(pages: nat, r: nat)
    requires pages > 0
    ensures r >= RequiredPagesForTree(pages) <==> 4096 * r >= 24 + 2 * pages - 1
  {
  }

  /** The metadata pages hold the flag byte of every node that any operation reads or writes. */
  lemma FlagsFitInMetadata(pages: nat, node: nat)
    requires SizeOf(pages, node) > 0 && pages > 0
    ensures CHILDREN_OFFSET + node < RequiredPagesForTree(pages) * PAGE_SIZE
  {
    NodeInArray(pages, node);
  }

  datatype Found = Found(node: nat, pages: nat)

  /** `find_fitting_leaf_`. */
  function FindFittingLeaf(f: seq<Flags>, total: nat, pages: nat, node: nat, minPages: nat): Option<Found>
    requires IsTreeAt(f, total, node)
    decreases SizeOf(total, node)
  {
    if !HasChildren(f[node]) then
      var (_, childPages) := ChildStartAndPages(total, node);
      IndexFormula(total, node);
      if !IsOccupied(f[node]) && childPages >= pages && childPages < minPages then Some(Found(node, childPages))
      else None
    else
      var left := FindFittingLeaf(f, total, pages, node * 2 + 1, minPages);
      var sizeToBeat := if left.Some? then left.value.pages else minPages;
      var right := FindFittingLeaf(f, total, pages, node * 2 + 2, sizeToBeat);
      if right.Some? then right else left
  }

  /** The answer is that of the search on the tree, and names a live free leaf. */
  ghost predicate AnswersFit(f: seq<Flags>, total: nat, pages: nat, node: nat, minPages: nat, answer: Option<Found>)
    requires IsTreeAt(f, total, node)
  {
    var fit := Fit(TreeAt(f, total, node), SizeOf(total, node), StartOf(total, node), pages, minPages);
    match answer
    case None => fit == None
    case Some(found) =>
      && IsLive(f, node, found.node) && IsNode(f, total, found.node)
      && !HasChildren(f[found.node]) && !IsOccupied(f[found.node])
      && found.pages == SizeOf(total, found.node)
      && fit == Some(BlockOf(total, found.node))
  }

  lemma {:induction false} FindsFit(f: seq<Flags>, total: nat, pages: nat, node: nat, minPages: nat)
    requires IsTreeAt(f, total, node)
    ensures AnswersFit(f, total, pages, node, minPages, FindFittingLeaf(f, total, pages, node, minPages))
    decreases SizeOf(total, node)
  {
    hide IsPow2, ChildStartAndPages, AnswersFit;
    if HasChildren(f[node]) {
      var left := FindFittingLeaf(f, total, pages, node * 2 + 1, minPages);
      var sizeToBeat := if left.Some? then left.value.pages else minPages;
      FindsFit(f, total, pages, node * 2 + 1, minPages);
      FindsFit(f, total, pages, node * 2 + 2, sizeToBeat);
      FitAtNode(f, total, pages, node, minPages, left, FindFittingLeaf(f, total, pages, node * 2 + 2, sizeToBeat));
    } else {
      FitAtLeaf(f, total, pages, node, minPages);
    }
  }

  lemma FitAtLeaf(f: seq<Flags>, total: nat, pages: nat, node: nat, minPages: nat)
    requires IsTreeAt(f, total, node) && !HasChildren(f[node])
    ensures AnswersFit(f, total, pages, node, minPages, FindFittingLeaf(f, total, pages, node, minPages))
  {
    hide ChildStartAndPages;
    IndexFormula(total, node);
  }

  lemma FitAtNode(f: seq<Flags>, total: nat, pages: nat, node: nat, minPages: nat, left: Option<Found>,
                  right: Option<Found>)
    requires IsTreeAt(f, total, node) && HasChildren(f[node])
    requires AnswersFit(f, total, pages, node * 2 + 1, minPages, left)
    requires AnswersFit(f, total, pages, node * 2 + 2, if left.Some? then left.value.pages else minPages, right)
    ensures AnswersFit(f, total, pages, node, minPages, if right.Some? then right else left)
  {
    hide IsPow2, HasChildren, IsOccupied, IsLive;
    assert Parent(node * 2 + 1) == node && Parent(node * 2 + 2) == node;
    if right.Some? {
      LiveFromChild(f, node, node * 2 + 2, right.value.node);
    } else if left.Some? {
      LiveFromChild(f, node, node * 2 + 1, left.value.node);
    }
  }

  lemma {:induction false} LiveFromChild(f: seq<Flags>, n: nat, c: nat, k: nat)
    requires n < |f| && HasChildren(f[n]) && (c == n * 2 + 1 || c == n * 2 + 2) && IsLive(f, c, k)
    ensures IsLive(f, n, k) && n < k
    decreases k
  {
    if k == c {
      assert Parent(c) == n;
    } else {
      LiveFromChild(f, n, c, Parent(k));
    }
  }

  /** `find_node_`. */
  function FindNode(f: seq<Flags>, total: nat, start: nat, node: nat): Option<nat>
    requires IsTreeAt(f, total, node)
    decreases SizeOf(total, node)
  {
    hide ChildStartAndPages, IsPow2, StartOf;
    var (childStart, childPages) := ChildStartAndPages(total, node);
    if start >= childStart && start < childStart + childPages then
      if HasChildren(f[node]) then
        if start < childStart + childPages / 2 then FindNode(f, total, start, node * 2 + 1)
        else FindNode(f, total, start, node * 2 + 2)
      else if childStart == start then Some(node)
      else None
    else None
  }

  /** The answer is the live leaf that starts at the page; freeing it in the tree succeeds exactly if it
      is occupied, and without such a leaf not at all. */
  ghost predicate AnswersLookup(f: seq<Flags>, total: nat, start: nat, node: nat, answer: Option<nat>)
    requires IsTreeAt(f, total, node)
  {
    var free := Free(TreeAt(f, total, node), SizeOf(total, node), StartOf(total, node), start);
    match answer
    case None => free == None
    case Some(k) =>
      && IsLive(f, node, k) && IsNode(f, total, k) && !HasChildren(f[k])
      && StartOf(total, k) == start
      && (free.Some? <==> IsOccupied(f[k]))
  }

  lemma {:induction false} FindsNode(f: seq<Flags>, total: nat, start: nat, node: nat)
    requires IsTreeAt(f, total, node)
    requires StartOf(total, node) <= start < StartOf(total, node) + SizeOf(total, node)
    ensures AnswersLookup(f, total, start, node, FindNode(f, total, start, node))
    decreases SizeOf(total, node)
  {
    hide IsPow2, ChildStartAndPages, AnswersLookup, StartOf;
    IndexFormula(total, node);
    if HasChildren(f[node]) {
      var half := SizeOf(total, node) / 2;
      var c := if start < StartOf(total, node) + half then node * 2 + 1 else node * 2 + 2;
      HalvesEvenly(SizeOf(total, node));
      ChildCoordinates(total, node);
      FindsNode(f, total, start, c);
      LookupAtNode(f, total, start, node, c, FindNode(f, total, start, c));
    } else {
      LookupAtLeaf(f, total, start, node);
    }
  }

  lemma HalvesEvenly(size: nat)
    requires IsPow2(size) && size > 1
    ensures size == 2 * (size / 2)
  {
  }

  lemma LookupAtLeaf(f: seq<Flags>, total: nat, start: nat, node: nat)
    requires IsTreeAt(f, total, node) && !HasChildren(f[node])
    requires StartOf(total, node) <= start < StartOf(total, node) + SizeOf(total, node)
    ensures AnswersLookup(f, total, start, node, FindNode(f, total, start, node))
  {
    hide ChildStartAndPages;
    IndexFormula(total, node);
  }

  lemma LookupAtNode(f: seq<Flags>, total: nat, start: nat, node: nat, c: nat, answer: Option<nat>)
    requires IsTreeAt(f, total, node) && HasChildren(f[node])
    requires c == if start < StartOf(total, node) + SizeOf(total, node) / 2 then node * 2 + 1 else node * 2 + 2
    requires AnswersLookup(f, total, start, c, answer)
    ensures AnswersLookup(f, total, start, node, answer)
  {
    hide IsPow2, HasChildren, IsOccupied, IsLive, SizeOf, StartOf;
    ChildCoordinates(total, node);
    if answer.Some? {
      LiveFromChild(f, node, c, answer.value);
    }
  }

  class BinaryBuddyTree {
    const base: nat
    const pages: nat
    const loaderMemory: bool
    const children: array<Flags>

    ghost predicate Valid()
      reads children
    {
      children.Length == 2 * pages - 1 && IsTreeAt(children[..], pages, 0)
    }

    /** The tree the flags stand for. */
    ghost function Contents(): Tree
      requires Valid()
      reads children
    {
      TreeAt(children[..], pages, 0)
    }

    constructor (base: nat, pages: nat, loaderMemory: bool)
      requires IsPow2(pages)
      ensures this.base == base && this.pages == pages && this.loaderMemory == loaderMemory
      ensures fresh(children) && Valid() && Contents() == FREE
    {
      this.base, this.pages, this.loaderMemory := base, pages, loaderMemory;
      this.children := new Flags[2 * pages - 1];
      new;
      children[0] := 0;
      FlagUpdates(0);
    }

    /** `split_node`: the free leaf at `node` becomes two. */
    method SplitNode(node: nat) returns (left: nat, right: nat)
      requires Valid() && IsLive(children[..], 0, node) && SizeOf(pages, node) > 1
      requires IsTreeAt(children[..], pages, node) && TreeAt(children[..], pages, node) == FREE
      modifies children
      ensures Valid() && left == node * 2 + 1 && right == node * 2 + 2
      ensures IsLive(children[..], 0, left) && IsTreeAt(children[..], pages, left)
      ensures TreeAt(children[..], pages, left) == FREE
      ensures Contents() == Replace(old(Contents()), pages, 0, BlockOf(pages, node), Node(FREE, FREE))
    {
      hide IsTreeAt, TreeAt, IsLive, SizeOf, Replace, WithChildren;
      ghost var f := children[..];
      left, right := node * 2 + 1, node * 2 + 2;
      ChildrenInArray(f, pages, node);
      children[node] := WithChildren(children[node]);
      children[left] := 0;
      children[right] := 0;
      assert children[..] == f[node := WithChildren(f[node])][node * 2 + 1 := 0][node * 2 + 2 := 0];
      SplitShape(f, children[..], pages, node);
    }

    /** `try_merge`. */
    method TryMerge(node: nat)
      requires Valid() && IsLive(children[..], 0, node) && IsTreeAt(children[..], pages, node)
      modifies children
      ensures Valid()
      ensures Contents() == MergeUp(old(Contents()), pages, 0, BlockOf(pages, node))
      decreases node
    {
      hide MergeUp, IsLive, IsTreeAt, TreeAt, SizeOf, StartOf, IsFreeFlags, Sibling, WithoutChildren;
      ghost var f := children[..];
      MergeStops(f, pages, node);
      if node == 0 {
        return;
      }
      if !IsFreeFlags(children[node]) {
        return;
      }
      var parentNode, sibling := Parent(node), Sibling(node);
      if IsFreeFlags(children[sibling]) {
        assert IsFreeFlags(f[node]) && IsFreeFlags(f[sibling]);
        children[parentNode] := WithoutChildren(children[parentNode]);
        assert children[..] == f[parentNode := WithoutChildren(f[parentNode])];
        MergeGoesOn(f, children[..], pages, node, parentNode, sibling);
        TryMerge(parentNode);
      }
    }

    /** One step of the splitting loop: from a node that is too large to its left half. */
    method SplitDown(node: nat, wanted: nat, ghost t: Tree, ghost leaf: Block)
      returns (child: nat, start: nat, size: nat)
      requires Valid() && Allocating(children[..], t, pages, wanted, leaf, node) && SizeOf(pages, node) / 2 >= wanted
      modifies children
      ensures Valid() && Allocating(children[..], t, pages, wanted, leaf, child)
      ensures start == StartOf(pages, child) && size == SizeOf(pages, child) < SizeOf(pages, node)
    {
      hide Allocating, ChildStartAndPages, IsTreeAt, TreeAt, Replace, IsLive, StartOf, SizeOf;
      ghost var f := children[..];
      AllocMaySplit(f, t, pages, wanted, leaf, node);
      var left, _ := SplitNode(node);
      AllocHasSplit(f, children[..], t, pages, wanted, leaf, node);
      child := left;
      AllocRange(children[..], t, pages, wanted, leaf, child);
      var next := ChildStartAndPages(pages, child);
      start, size := next.0, next.1;
    }

    /** `alloc`: the block, the tree and the failures of `BuddySpec.Alloc`. */
    method Alloc(wanted: nat) returns (address: Option<nat>)
      requires Valid()
      modifies children
      ensures Valid()
      ensures match BuddySpec.Alloc(old(Contents()), pages, wanted)
              case None => address == None && Contents() == old(Contents())
              case Some(a) => address == Some(a.block.start * PAGE_SIZE + base) && Contents() == a.tree
    {
      hide Allocating, ChildStartAndPages, IsTreeAt, TreeAt, Fit, FindFittingLeaf, Replace, IsLive, StartOf, SizeOf,
        WithOccupied;
      if wanted == 0 {
        return None;
      }
      ghost var t := Contents();
      var found := FindFittingLeaf(children[..], pages, wanted, 0, USIZE_MAX);
      AllocFinds(children[..], pages, wanted);
      if found.None? {
        return None;
      }
      var childNode := found.value.node;
      ghost var leaf := BlockOf(pages, childNode);
      var (childStart, childPages) := ChildStartAndPages(pages, childNode);
      AllocRange(children[..], t, pages, wanted, leaf, childNode);
      while childPages / 2 >= wanted
        invariant Valid() && Allocating(children[..], t, pages, wanted, leaf, childNode)
        invariant childStart == StartOf(pages, childNode) && childPages == SizeOf(pages, childNode)
        decreases childPages
      {
        childNode, childStart, childPages := SplitDown(childNode, wanted, t, leaf);
      }
      ghost var f := children[..];
      AllocRange(f, t, pages, wanted, leaf, childNode);
      children[childNode] := WithOccupied(children[childNode]);
      AllocEnds(f, children[..], t, pages, wanted, leaf, childNode);
      address := Some(childStart * PAGE_SIZE + base);
    }

    /** `free` of a page-aligned address: refused below the base, and otherwise with the tree and the failures
        of `BuddySpec.Free`. (The source subtracts before it compares; the difference is not used below the
        base.) */
    method Free(page: nat) returns (ok: bool)
      requires Valid() && (page - base) % PAGE_SIZE == 0
      modifies children
      ensures Valid()
      ensures page < base ==> !ok && Contents() == old(Contents())
      ensures base <= page ==>
                match BuddySpec.Free(old(Contents()), pages, 0, (page - base) / PAGE_SIZE)
                case None => !ok && Contents() == old(Contents())
                case Some(t) => ok && Contents() == t
    {
      assert SizeOf(pages, 0) == pages;
      hide IsTreeAt, TreeAt, FindNode, BuddySpec.Free, IsLive, StartOf, SizeOf, IsOccupied, WithoutOccupied, MergeUp;
      ghost var f := children[..];
      var start := (page - base) / PAGE_SIZE;
      if page < base || page >= base + pages * PAGE_SIZE {
        if base <= page {
          TreeFits(f, pages, 0);
          FreeOutside(Contents(), pages, start);
        }
        return false;
      }
      FreeFinds(f, pages, start);
      var found := FindNode(children[..], pages, start, 0);
      if found.Some? {
        var node := found.value;
        if IsOccupied(children[node]) {
          children[node] := WithoutOccupied(children[node]);
          FreeClears(f, children[..], pages, node);
          TryMerge(node);
          return true;
        }
      }
      return false;
    }
  }

  /** `BinaryBuddyTree::new` at `treeBase`: refused for a size that is no power of two (zero included) and
      for a misaligned place; otherwise one free leaf, whatever the memory held before. */
  method NewTree(treeBase: nat, memoryBase: nat, pages: nat, loaderMemory: bool) returns (tree: Option<BinaryBuddyTree>)
    ensures tree.Some? <==> IsPow2(pages) && treeBase % 8 == 0
    ensures tree.Some? ==>
              && fresh(tree.value) && fresh(tree.value.children)
              && tree.value.base == memoryBase && tree.value.pages == pages && tree.value.loaderMemory == loaderMemory
              && tree.value.Valid() && tree.value.Contents() == FREE
  {
    if pages == 0 || !IsPow2(pages) {
      return None;
    }
    if treeBase % 8 != 0 {
      return None;
    }
    var created := new BinaryBuddyTree(memoryBase, pages, loaderMemory);
    return Some(created);
  }

  /** `flags &= !IS_OCCUPIED_FLAG`. */
  function WithoutOccupied(f: Flags): Flags {
    f & !IS_OCCUPIED_FLAG
  }

  /** No block starts outside the region. */
  lemma FreeOutside(t: Tree, pages: nat, start: nat)
    requires Fits(t, pages) && start >= pages
    ensures BuddySpec.Free(t, pages, 0, start) == None
  {
    FreeRemoves(t, pages, 0, start);
    LeavesWithin(t, pages, 0);
  }

  lemma FreeFinds(f: seq<Flags>, pages: nat, start: nat)
    requires IsTreeAt(f, pages, 0) && start < pages
    ensures var free := BuddySpec.Free(TreeAt(f, pages, 0), pages, 0, start);
            match FindNode(f, pages, start, 0)
            case None => free == None
            case Some(node) =>
              && node < |f| && IsLive(f, 0, node) && IsTreeAt(f, pages, node) && StartOf(pages, node) == start
              && if IsOccupied(f[node]) then
                free == Some(MergeUp(Replace(TreeAt(f, pages, 0), pages, 0, BlockOf(pages, node), FREE), pages, 0,
                                     BlockOf(pages, node))) && !HasChildren(f[node])
              else free == None
  {
    hide MergeUp, Replace, BuddySpec.Free, FindNode, HasNode, Subtree, IsPow2;
    FindsNode(f, pages, start, 0);
    TreeFits(f, pages, 0);
    var found := FindNode(f, pages, start, 0);
    if found.Some? {
      LiveSubtree(f, pages, 0, found.value);
      if IsOccupied(f[found.value]) {
        FreeIsMergeUp(TreeAt(f, pages, 0), pages, 0, BlockOf(pages, found.value));
      }
    }
  }

  lemma FreeClears(f: seq<Flags>, f': seq<Flags>, pages: nat, node: nat)
    requires IsTreeAt(f, pages, 0) && IsLive(f, 0, node) && IsTreeAt(f, pages, node) && node < |f|
    requires !HasChildren(f[node]) && f' == f[node := WithoutOccupied(f[node])]
    ensures IsTreeAt(f', pages, 0) && IsLive(f', 0, node) && IsTreeAt(f', pages, node)
    ensures TreeAt(f', pages, 0) == Replace(TreeAt(f, pages, 0), pages, 0, BlockOf(pages, node), FREE)
  {
    FlagUpdates(f[node]);
    SetLeaf(f, f', pages, node, WithoutOccupied(f[node]), false);
  }

  /** `flags |= IS_OCCUPIED_FLAG`. */
  function WithOccupied(f: Flags): Flags {
    f | IS_OCCUPIED_FLAG
  }

  /** The splitting loop of `alloc` on its way from the free leaf `leaf` of tree `t` to the block it will
      hand out: carving the current leaf completes the carving of the first one. */
  ghost predicate Allocating(f: seq<Flags>, t: Tree, pages: nat, wanted: nat, leaf: Block, node: nat) {
    && IsTreeAt(f, pages, 0) && IsLive(f, 0, node) && IsTreeAt(f, pages, node) && TreeAt(f, pages, node) == FREE
    && 0 < wanted <= SizeOf(pages, node) && StartOf(pages, node) == leaf.start
    && CarvedSize(SizeOf(pages, node), wanted) == CarvedSize(leaf.size, wanted)
    && Replace(TreeAt(f, pages, 0), pages, 0, BlockOf(pages, node), Carve(SizeOf(pages, node), wanted))
    == Replace(t, pages, 0, leaf, Carve(leaf.size, wanted))
  }

  lemma AllocFinds(f: seq<Flags>, pages: nat, wanted: nat)
    requires IsTreeAt(f, pages, 0) && wanted > 0
    ensures match FindFittingLeaf(f, pages, wanted, 0, USIZE_MAX)
            case None => Fit(TreeAt(f, pages, 0), pages, 0, wanted, USIZE_MAX) == None
            case Some(found) =>
              && Fit(TreeAt(f, pages, 0), pages, 0, wanted, USIZE_MAX) == Some(BlockOf(pages, found.node))
              && Allocating(f, TreeAt(f, pages, 0), pages, wanted, BlockOf(pages, found.node), found.node)
  {
    FindsFit(f, pages, wanted, 0, USIZE_MAX);
    var found := FindFittingLeaf(f, pages, wanted, 0, USIZE_MAX);
    TreeFits(f, pages, 0);
    BestFit(TreeAt(f, pages, 0), pages, 0, wanted, USIZE_MAX);
    if found.Some? {
      LiveSubtree(f, pages, 0, found.value.node);
    }
  }

  lemma AllocRange(f: seq<Flags>, t: Tree, pages: nat, wanted: nat, leaf: Block, node: nat)
    requires Allocating(f, t, pages, wanted, leaf, node)
    ensures ChildStartAndPages(pages, node) == (StartOf(pages, node), SizeOf(pages, node))
    ensures StartOf(pages, node) == leaf.start && wanted <= SizeOf(pages, node) && node < |f|
  {
    IndexFormula(pages, node);
  }

  lemma AllocMaySplit(f: seq<Flags>, t: Tree, pages: nat, wanted: nat, leaf: Block, node: nat)
    requires Allocating(f, t, pages, wanted, leaf, node) && SizeOf(pages, node) / 2 >= wanted
    ensures IsLive(f, 0, node) && SizeOf(pages, node) > 1
    ensures IsTreeAt(f, pages, node) && TreeAt(f, pages, node) == FREE
    ensures SizeOf(pages, node * 2 + 1) < SizeOf(pages, node)
  {
  }

  lemma AllocHasSplit(f: seq<Flags>, f': seq<Flags>, t: Tree, pages: nat, wanted: nat, leaf: Block, node: nat)
    requires Allocating(f, t, pages, wanted, leaf, node) && SizeOf(pages, node) / 2 >= wanted
    requires IsTreeAt(f', pages, 0) && IsLive(f', 0, node * 2 + 1) && IsTreeAt(f', pages, node * 2 + 1)
    requires TreeAt(f', pages, node * 2 + 1) == FREE
    requires TreeAt(f', pages, 0) == Replace(TreeAt(f, pages, 0), pages, 0, BlockOf(pages, node), Node(FREE, FREE))
    ensures Allocating(f', t, pages, wanted, leaf, node * 2 + 1)
  {
    hide Replace, IsTreeAt, TreeAt, IsLive, HasNode, Subtree, Fits, IsPow2;
    var z := SizeOf(pages, node);
    assert Parent(node * 2 + 1) == node;
    LiveSubtree(f, pages, 0, node);
    TreeFits(f, pages, 0);
    ReplaceInside(TreeAt(f, pages, 0), pages, 0, BlockOf(pages, node), Carve(z / 2, wanted));
  }

  lemma AllocEnds(f: seq<Flags>, f': seq<Flags>, t: Tree, pages: nat, wanted: nat, leaf: Block, node: nat)
    requires Allocating(f, t, pages, wanted, leaf, node) && SizeOf(pages, node) / 2 < wanted
    requires node < |f| && f' == f[node := WithOccupied(f[node])]
    ensures IsTreeAt(f', pages, 0)
    ensures TreeAt(f', pages, 0) == Replace(t, pages, 0, leaf, Carve(leaf.size, wanted))
  {
    FlagUpdates(f[node]);
    SetLeaf(f, f', pages, node, WithOccupied(f[node]), true);
  }

  /** `flags & (HAS_CHILDREN_FLAG | IS_OCCUPIED_FLAG) == 0`: neither split nor occupied. */
  predicate IsFreeFlags(f: Flags) {
    f & (HAS_CHILDREN_FLAG | IS_OCCUPIED_FLAG) == 0
  }

  lemma ChildrenInArray(f: seq<Flags>, pages: nat, node: nat)
    requires IsTreeAt(f, pages, node) && SizeOf(pages, node) > 1
    ensures node < |f| && node * 2 + 2 < |f|
  {
    assert Parent(node * 2 + 2) == node;
    NodeInArray(pages, node * 2 + 2);
  }

  /** `flags |= HAS_CHILDREN_FLAG`. */
  function WithChildren(f: Flags): Flags {
    f | HAS_CHILDREN_FLAG
  }

  /** `flags &= !HAS_CHILDREN_FLAG`. */
  function WithoutChildren(f: Flags): Flags {
    f & !HAS_CHILDREN_FLAG
  }

  function Sibling(node: nat): nat
    requires node > 0
  {
    if node % 2 == 1 then node + 1 else node - 1
  }

  /** `try_merge` reads inside the array, and is right to stop at the root, at a node that is not a free
      leaf, and beside a sibling that is not. */
  lemma MergeStops(f: seq<Flags>, pages: nat, node: nat)
    requires IsTreeAt(f, pages, 0) && IsLive(f, 0, node) && IsTreeAt(f, pages, node)
    ensures node < |f| && (node > 0 ==> Parent(node) < |f| && Sibling(node) < |f|)
    ensures node == 0 || !IsFreeFlags(f[node]) || !IsFreeFlags(f[Sibling(node)]) ==>
              MergeUp(TreeAt(f, pages, 0), pages, 0, BlockOf(pages, node)) == TreeAt(f, pages, 0)
  {
    hide HasChildren, IsOccupied, IsPow2, HasNode, Subtree, IsLive, SizeOf, StartOf, MergeUp;
    if node == 0 {
      NothingAboveRoot(TreeAt(f, pages, 0), pages);
    } else {
      ParentSplit(f, pages, node);
      FlagUpdates(f[node]);
      FlagUpdates(f[Sibling(node)]);
      if TreeAt(f, pages, node) == FREE {
        MergeShape(f, pages, node, Parent(node), Sibling(node));
      } else {
        StuckNode(f, pages, node);
      }
    }
  }

  lemma NothingAboveRoot(t: Tree, pages: nat)
    ensures MergeUp(t, pages, 0, BlockOf(pages, 0)) == t
  {
  }

  lemma StuckNode(f: seq<Flags>, pages: nat, node: nat)
    requires IsTreeAt(f, pages, 0) && IsLive(f, 0, node) && IsTreeAt(f, pages, node) && TreeAt(f, pages, node) != FREE
    ensures MergeUp(TreeAt(f, pages, 0), pages, 0, BlockOf(pages, node)) == TreeAt(f, pages, 0)
  {
    assert StartOf(pages, 0) == 0;
    hide IsTreeAt, TreeAt, IsLive, StartOf;
    LiveSubtree(f, pages, 0, node);
    MergeUpStuck(TreeAt(f, pages, 0), pages, 0, BlockOf(pages, node));
  }

  lemma ParentSplit(f: seq<Flags>, pages: nat, node: nat)
    requires IsTreeAt(f, pages, 0) && IsLive(f, 0, node) && node > 0
    ensures IsTreeAt(f, pages, Parent(node)) && IsTreeAt(f, pages, Sibling(node)) && IsTreeAt(f, pages, node)
    ensures HasChildren(f[Parent(node)])
    ensures TreeAt(f, pages, Parent(node))
         == if node % 2 == 1 then Node(TreeAt(f, pages, node), TreeAt(f, pages, Sibling(node)))
            else Node(TreeAt(f, pages, Sibling(node)), TreeAt(f, pages, node))
  {
    hide SizeOf, StartOf, HasNode, Subtree, IsPow2, HasChildren;
    LiveSubtree(f, pages, 0, Parent(node));
    var p := Parent(node);
    assert node == if node % 2 == 1 then 2 * p + 1 else 2 * p + 2;
  }

  /** Clearing the parent of two free leaves is one step of merging. */
  lemma MergeGoesOn(f: seq<Flags>, f': seq<Flags>, pages: nat, node: nat, parentNode: nat, sibling: nat)
    requires IsTreeAt(f, pages, 0) && IsLive(f, 0, node) && IsTreeAt(f, pages, node) && node > 0
    requires parentNode == Parent(node) < |f| && sibling == Sibling(node) < |f| && node < |f|
    requires IsFreeFlags(f[node]) && IsFreeFlags(f[sibling])
    requires f' == f[parentNode := WithoutChildren(f[parentNode])]
    ensures IsTreeAt(f', pages, 0) && IsLive(f', 0, parentNode) && IsTreeAt(f', pages, parentNode)
    ensures MergeUp(TreeAt(f, pages, 0), pages, 0, BlockOf(pages, node))
         == MergeUp(TreeAt(f', pages, 0), pages, 0, BlockOf(pages, parentNode))
  {
    hide MergeUp, Replace, IsLive, IsPow2;
    FlagUpdates(f[node]);
    FlagUpdates(f[sibling]);
    MergeShape(f, pages, node, parentNode, sibling);
    ClearParent(f, f', pages, parentNode);
  }

  lemma HalfOfParent(f: seq<Flags>, pages: nat, node: nat)
    requires node > 0 && IsTreeAt(f, pages, Parent(node)) && HasChildren(f[Parent(node)])
    ensures IsHalfOf(BlockOf(pages, node), BlockOf(pages, Parent(node)))
    ensures BlockOf(pages, node).start == BlockOf(pages, Parent(node)).start <==> node % 2 == 1
  {
    SizedIsNode(f, pages, Parent(node));
  }

  /** What stands at the parent of a live free leaf, and what one merging step makes of it. */
  lemma MergeShape(f: seq<Flags>, pages: nat, node: nat, parentNode: nat, sibling: nat)
    requires IsTreeAt(f, pages, 0) && IsLive(f, 0, node) && node > 0
    requires IsTreeAt(f, pages, node) && TreeAt(f, pages, node) == FREE
    requires parentNode == Parent(node) && sibling == Sibling(node)
    ensures IsLive(f, 0, parentNode) && IsTreeAt(f, pages, parentNode) && IsTreeAt(f, pages, sibling)
    ensures HasChildren(f[parentNode])
    ensures MergeUp(TreeAt(f, pages, 0), pages, 0, BlockOf(pages, node))
         == if TreeAt(f, pages, sibling) == FREE
            then MergeUp(Replace(TreeAt(f, pages, 0), pages, 0, BlockOf(pages, parentNode), FREE), pages, 0,
                         BlockOf(pages, parentNode))
            else TreeAt(f, pages, 0)
  {
    hide IsOccupied, MergeUp, Replace, IsPow2, Fits, HasNode, Subtree, SizeOf, StartOf, IsTreeAt, TreeAt;
    ParentSplit(f, pages, node);
    RootCoordinates(pages);
    LiveSubtree(f, pages, 0, parentNode);
    TreeFits(f, pages, 0);
    HalfOfParent(f, pages, node);
    MergeUpStep(TreeAt(f, pages, 0), pages, 0, BlockOf(pages, parentNode), BlockOf(pages, node));
  }

  /** Clearing the parent's flag turns it into one free leaf. */
  lemma ClearParent(f: seq<Flags>, f': seq<Flags>, pages: nat, parentNode: nat)
    requires IsTreeAt(f, pages, 0) && IsLive(f, 0, parentNode) && IsTreeAt(f, pages, parentNode)
    requires HasChildren(f[parentNode]) && f' == f[parentNode := WithoutChildren(f[parentNode])]
    ensures IsTreeAt(f', pages, 0) && IsLive(f', 0, parentNode) && IsTreeAt(f', pages, parentNode)
    ensures TreeAt(f', pages, 0) == Replace(TreeAt(f, pages, 0), pages, 0, BlockOf(pages, parentNode), FREE)
  {
    FlagUpdates(f[parentNode]);
    SetLeaf(f, f', pages, parentNode, WithoutChildren(f[parentNode]), false);
  }

  /** Writing leaf flags over a live node puts a leaf in its place. */
  lemma SetLeaf(f: seq<Flags>, f': seq<Flags>, pages: nat, node: nat, flags: Flags, occupied: bool)
    requires IsTreeAt(f, pages, 0) && IsLive(f, 0, node) && IsTreeAt(f, pages, node)
    requires f' == f[node := flags]
    requires !HasChildren(flags) && (IsOccupied(flags) <==> occupied)
    ensures IsTreeAt(f', pages, 0) && IsLive(f', 0, node) && IsTreeAt(f', pages, node)
    ensures TreeAt(f', pages, 0) == Replace(TreeAt(f, pages, 0), pages, 0, BlockOf(pages, node), Leaf(occupied))
  {
    SizedIsNode(f', pages, node);
    LiveFrame(f, f', 0, node);
    assert Under(node, node);
    WriteReplaces(f, f', pages, 0, node);
  }

  /** The arithmetic of a split: two free leaves appear below `node`, and nothing else changes. */
  lemma SplitShape(f: seq<Flags>, f': seq<Flags>, pages: nat, node: nat)
    requires IsTreeAt(f, pages, 0) && IsLive(f, 0, node) && SizeOf(pages, node) > 1
    requires IsTreeAt(f, pages, node) && TreeAt(f, pages, node) == FREE
    requires node * 2 + 2 < |f|
    requires node < |f| && f' == f[node := WithChildren(f[node])][node * 2 + 1 := 0][node * 2 + 2 := 0]
    ensures IsTreeAt(f', pages, 0) && IsLive(f', 0, node * 2 + 1) && IsTreeAt(f', pages, node * 2 + 1)
    ensures TreeAt(f', pages, node * 2 + 1) == FREE
    ensures TreeAt(f', pages, 0) == Replace(TreeAt(f, pages, 0), pages, 0, BlockOf(pages, node), Node(FREE, FREE))
  {
    hide ILog2, Pow2, Replace;
    SplitFlags(f, f', pages, node);
    LiveFrame(f, f', 0, node);
    assert Under(node, node) && Under(node, node * 2 + 1) && Under(node, node * 2 + 2);
    WriteReplaces(f, f', pages, 0, node);
    LiveToChild(f', 0, node);
  }

  /** The node is split, and its children are free leaves. */
  lemma SplitFlags(f: seq<Flags>, f': seq<Flags>, pages: nat, node: nat)
    requires IsTreeAt(f, pages, node) && SizeOf(pages, node) > 1 && node * 2 + 2 < |f|
    requires TreeAt(f, pages, node) == FREE
    requires f' == f[node := WithChildren(f[node])][node * 2 + 1 := 0][node * 2 + 2 := 0]
    ensures HasChildren(f'[node]) && IsTreeAt(f', pages, node) && TreeAt(f', pages, node) == Node(FREE, FREE)
    ensures IsTreeAt(f', pages, node * 2 + 1) && TreeAt(f', pages, node * 2 + 1) == FREE
  {
    FlagUpdates(f[node]);
    FlagUpdates(0);
    assert Parent(node * 2 + 1) == node && Parent(node * 2 + 2) == node;
    SizedIsNode(f', pages, node * 2 + 1);
    SizedIsNode(f', pages, node * 2 + 2);
    SizedIsNode(f', pages, node);
    assert f'[node] == WithChildren(f[node]) && f'[node * 2 + 1] == 0 && f'[node * 2 + 2] == 0;
    assert IsTreeAt(f', pages, node * 2 + 1) && IsTreeAt(f', pages, node * 2 + 2);
  }

  lemma LiveToChild(f: seq<Flags>, n: nat, node: nat)
    requires IsLive(f, n, node) && node < |f| && HasChildren(f[node])
    ensures IsLive(f, n, node * 2 + 1)
  {
    assert Parent(node * 2 + 1) == node;
  }
}
