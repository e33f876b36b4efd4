/** The buddy tree of kernel/src/page_alloc_tree.rs as a value: which blocks are split, free and
    occupied, the operations on it, and what they promise. `BuddyTree.dfy` proves the flag array of the
    source to implement it. */
module BuddySpec {
  import opened Common

  datatype Tree = Leaf(occupied: bool) | Node(left: Tree, right: Tree)

  /** A run of `size` pages from page `start` of the managed region. */
  datatype Block = Block(start: nat, size: nat)

  /** The tree describes `size` pages, halved at every node. */
  predicate Fits(t: Tree, size: nat) {
    IsPow2(size) && (t.Node? ==> size > 1 && Fits(t.left, size / 2) && Fits(t.right, size / 2))
  }

  const FREE: Tree := Leaf(false)

  /** What merging maintains: two free leaves are never siblings. */
  predicate IsCanonical(t: Tree) {
    t.Node? ==> !(t.left == FREE && t.right == FREE) && IsCanonical(t.left) && IsCanonical(t.right)
  }

  /** The occupied blocks below a node that covers `size` pages from `start`. */
  function Blocks(t: Tree, size: nat, start: nat): set<Block> {
    match t
    case Leaf(occupied) => if occupied then {Block(start, size)} else {}
    case Node(l, r) => Blocks(l, size / 2, start) + Blocks(r, size / 2, start + size / 2)
  }

  /** The free leaves. */
  function FreeLeaves(t: Tree, size: nat, start: nat): set<Block> {
    match t
    case Leaf(occupied) => if occupied then {} else {Block(start, size)}
    case Node(l, r) => FreeLeaves(l, size / 2, start) + FreeLeaves(r, size / 2, start + size / 2)
  }

  predicate Covers(b: Block, page: nat) {
    b.start <= page < b.start + b.size
  }

  predicate Disjoint(a: Block, b: Block) {
    a.start + a.size <= b.start || b.start + b.size <= a.start
  }

  predicate Within(b: Block, size: nat, start: nat) {
    start <= b.start && b.start + b.size <= start + size
  }

  /** A block of power-of-two size at a multiple of its size (relative to the base of the region). */
  predicate IsAligned(b: Block) {
    IsPow2(b.size) && b.start % b.size == 0
  }

  // ----- The operations

  /** `find_fitting_leaf_`: the pruning bound `min` is lowered to the size found on the left. */
  function Fit(t: Tree, size: nat, start: nat, pages: nat, min: nat): Option<Block> {
    match t
    case Leaf(occupied) =>
      if !occupied && size >= pages && size < min then Some(Block(start, size)) else None
    case Node(l, r) =>
      var left := Fit(l, size / 2, start, pages, min);
      var toBeat := if left.Some? then left.value.size else min;
      var right := Fit(r, size / 2, start + size / 2, pages, toBeat);
      if right.Some? then right else left
  }

  /** The splitting loop of `alloc`, from a free leaf of `size` pages. */
  function Carve(size: nat, pages: nat): Tree
    requires pages > 0
  {
    if size / 2 >= pages then Node(Carve(size / 2, pages), FREE) else Leaf(true)
  }

  function CarvedSize(size: nat, pages: nat): nat
    requires pages > 0
  {
    if size / 2 >= pages then CarvedSize(size / 2, pages) else size
  }

  /** The tree with the subtree at block `b` replaced. */
  function Replace(t: Tree, size: nat, start: nat, b: Block, sub: Tree): Tree {
    if b.size >= size || t.Leaf? then sub
    else if b.start < start + size / 2 then Node(Replace(t.left, size / 2, start, b, sub), t.right)
    else Node(t.left, Replace(t.right, size / 2, start + size / 2, b, sub))
  }

  const USIZE_MAX: nat := 0xffff_ffff_ffff_ffff

  datatype Allocated = Allocated(tree: Tree, block: Block)

  /** `alloc`. */
  function Alloc(t: Tree, size: nat, pages: nat): Option<Allocated> {
    if pages == 0 then None
    else
      match Fit(t, size, 0, pages, USIZE_MAX)
      case None => None
      case Some(b) =>
        Some(Allocated(Replace(t, size, 0, b, Carve(b.size, pages)), Block(b.start, CarvedSize(b.size, pages))))
  }

  /** `try_merge` at the parent of two nodes, one of which has just changed. */
  function Merge(l: Tree, r: Tree): Tree {
    if l == FREE && r == FREE then FREE else Node(l, r)
  }

  /** `b` is the block of a node of the tree, and `Subtree` is what stands there. */
  predicate HasNode(t: Tree, size: nat, start: nat, b: Block) {
    b == Block(start, size) ||
    (t.Node? && 0 < b.size <= size / 2 &&
     if b.start < start + size / 2 then HasNode(t.left, size / 2, start, b)
     else HasNode(t.right, size / 2, start + size / 2, b))
  }

  function Subtree(t: Tree, size: nat, start: nat, b: Block): Tree
    requires HasNode(t, size, start, b)
  {
    if b == Block(start, size) then t
    else if b.start < start + size / 2 then Subtree(t.left, size / 2, start, b)
    else Subtree(t.right, size / 2, start + size / 2, b)
  }

  /** `try_merge` from the node at `b` upwards. */
  function MergeUp(t: Tree, size: nat, start: nat, b: Block): Tree {
    if b.size >= size || t.Leaf? then t
    else if b.start < start + size / 2 then Merge(MergeUp(t.left, size / 2, start, b), t.right)
    else Merge(t.left, MergeUp(t.right, size / 2, start + size / 2, b))
  }

  /** `free`: the leaf that starts at page `page` becomes free and merges upwards. */
  function Free(t: Tree, size: nat, start: nat, page: nat): Option<Tree> {
    match t
    case Leaf(occupied) => if page == start && occupied then Some(FREE) else None
    case Node(l, r) =>
      if page < start + size / 2 then
        match Free(l, size / 2, start, page)
        case None => None
        case Some(l') => Some(Merge(l', r))
      else
        match Free(r, size / 2, start + size / 2, page)
        case None => None
        case Some(r') => Some(Merge(l, r'))
  }

  // ----- Partition

  /** The leaves, occupied and free together, cover every page of the region exactly once. */
  lemma {:induction false} LeavesPartition(t: Tree, size: nat, start: nat, page: nat)
    requires Fits(t, size) && start <= page < start + size
    ensures exists b | b in Blocks(t, size, start) + FreeLeaves(t, size, start) :: Covers(b, page)
    ensures forall a, b | a in Blocks(t, size, start) + FreeLeaves(t, size, start) &&
                          b in Blocks(t, size, start) + FreeLeaves(t, size, start) && Covers(a, page) && Covers(b, page)
              :: a == b
  {
    if t.Leaf? {
      assert Covers(Block(start, size), page);
    } else {
      LeavesWithin(t.left, size / 2, start);
      LeavesWithin(t.right, size / 2, start + size / 2);
      if page < start + size / 2 {
        LeavesPartition(t.left, size / 2, start, page);
      } else {
        LeavesPartition(t.right, size / 2, start + size / 2, page);
      }
    }
  }

  /** Every leaf lies in the node's range, is aligned, and no block is both free and occupied. */
  lemma {:induction false} LeavesWithin(t: Tree, size: nat, start: nat)
    requires Fits(t, size)
    ensures forall b | b in Blocks(t, size, start) + FreeLeaves(t, size, start) :: Within(b, size, start) && IsPow2(b.size)
    ensures Blocks(t, size, start) !! FreeLeaves(t, size, start)
  {
    if t.Node? {
      LeavesWithin(t.left, size / 2, start);
      LeavesWithin(t.right, size / 2, start + size / 2);
    }
  }

  lemma HalvesAligned(start: nat, size: nat)
    requires size > 0 && size % 2 == 0 && start % size == 0
    ensures start % (size / 2) == 0 && (start + size / 2) % (size / 2) == 0
  {
    var k := start / size;
    assert start == k * size == (2 * k) * (size / 2);
    assert start + size / 2 == (2 * k + 1) * (size / 2);
    MultipleHasNoRemainder(2 * k, size / 2);
    MultipleHasNoRemainder(2 * k + 1, size / 2);
  }

  lemma MultipleHasNoRemainder(k: nat, n: nat)
    requires n > 0
    ensures (k * n) % n == 0
  {
    var q, r := k * n / n, k * n % n;
    assert k * n == q * n + r;
    assert (k - q) * n == r;
    SmallMultiple(k - q, n);
  }

  lemma SmallMultiple(d: int, n: nat)
    requires 0 <= d * n < n
    ensures d == 0
  {
  }

  /** Blocks and free leaves are aligned to their own size, counted from the base. */
  lemma {:induction false} LeavesAligned(t: Tree, size: nat, start: nat)
    requires Fits(t, size) && start % size == 0
    ensures forall b | b in Blocks(t, size, start) + FreeLeaves(t, size, start) :: IsAligned(b)
  {
    if t.Node? {
      HalvesAligned(start, size);
      LeavesAligned(t.left, size / 2, start);
      LeavesAligned(t.right, size / 2, start + size / 2);
    }
  }

  // ----- Best fit

  /** The search finds the leftmost among the smallest free leaves that are large enough, the pruning
      bound notwithstanding, and finds one whenever there is one below the bound. */
  lemma {:induction false} BestFit(t: Tree, size: nat, start: nat, pages: nat, min: nat)
    requires Fits(t, size)
    ensures var free := FreeLeaves(t, size, start);
            match Fit(t, size, start, pages, min)
            case None => forall b | b in free :: !(pages <= b.size < min)
            case Some(r) =>
              && r in free && pages <= r.size < min
              && forall b | b in free && b.size >= pages :: r.size <= b.size && (b.size == r.size ==> r.start <= b.start)
  {
    if t.Node? {
      LeavesWithin(t.left, size / 2, start);
      LeavesWithin(t.right, size / 2, start + size / 2);
      BestFit(t.left, size / 2, start, pages, min);
      var left := Fit(t.left, size / 2, start, pages, min);
      BestFit(t.right, size / 2, start + size / 2, pages, if left.Some? then left.value.size else min);
    }
  }

  // ----- Allocation

  /** Splitting a free leaf ends with one occupied block of the smallest power of two that is enough. */
  lemma {:induction false} CarveSplits(size: nat, pages: nat, start: nat)
    requires IsPow2(size) && 0 < pages <= size
    ensures Fits(Carve(size, pages), size) && IsCanonical(Carve(size, pages)) && Carve(size, pages) != FREE
    ensures Blocks(Carve(size, pages), size, start) == {Block(start, CarvedSize(size, pages))}
    ensures IsPow2(CarvedSize(size, pages)) && pages <= CarvedSize(size, pages) <= size
    ensures CarvedSize(size, pages) / 2 < pages
  {
    if size / 2 >= pages {
      CarveSplits(size / 2, pages, start);
    }
  }

  /** A replacement in one half leaves the other as it is. */
  lemma ReplaceHalf(t: Tree, size: nat, start: nat, b: Block, sub: Tree)
    requires Fits(t, size) && t.Node?
    ensures b in FreeLeaves(t.left, size / 2, start) ==>
              Replace(t, size, start, b, sub) == Node(Replace(t.left, size / 2, start, b, sub), t.right)
    ensures b in FreeLeaves(t.right, size / 2, start + size / 2) ==>
              Replace(t, size, start, b, sub) == Node(t.left, Replace(t.right, size / 2, start + size / 2, b, sub))
  {
    hide FreeLeaves, Blocks;
    LeavesWithin(t.left, size / 2, start);
    LeavesWithin(t.right, size / 2, start + size / 2);
  }

  lemma ReplaceAll(t: Tree, size: nat, start: nat, b: Block, sub: Tree)
    requires Fits(t, size) && b in FreeLeaves(t, size, start) && t.Leaf?
    ensures b == Block(start, size) && Replace(t, size, start, b, sub) == sub && Blocks(t, size, start) == {}
  {
  }

  /** Replacing a free leaf by a subtree with something occupied in it adds exactly its blocks. */
  lemma {:induction false} ReplaceAdds(t: Tree, size: nat, start: nat, b: Block, sub: Tree)
    requires Fits(t, size) && b in FreeLeaves(t, size, start)
    requires Fits(sub, b.size) && IsCanonical(sub) && sub != FREE
    ensures Fits(Replace(t, size, start, b, sub), size) && Replace(t, size, start, b, sub) != FREE
    ensures IsCanonical(t) ==> IsCanonical(Replace(t, size, start, b, sub))
    ensures Blocks(Replace(t, size, start, b, sub), size, start) == Blocks(t, size, start) + Blocks(sub, b.size, b.start)
  {
    hide IsPow2, Replace;
    if t.Leaf? {
      ReplaceAll(t, size, start, b, sub);
    } else {
      ReplaceHalf(t, size, start, b, sub);
      if b in FreeLeaves(t.left, size / 2, start) {
        ReplaceAdds(t.left, size / 2, start, b, sub);
      } else {
        ReplaceAdds(t.right, size / 2, start + size / 2, b, sub);
      }
    }
  }

  /** A successful `alloc` adds one block, out of a free leaf; it is large enough and less than twice as
      large as asked, aligned, inside the region, and shares no page with any block that was live. */
  lemma AllocAdds(t: Tree, size: nat, pages: nat)
    requires Fits(t, size) && Alloc(t, size, pages).Some?
    ensures var a := Alloc(t, size, pages).value;
            && Fits(a.tree, size) && (IsCanonical(t) ==> IsCanonical(a.tree))
            && Blocks(a.tree, size, 0) == Blocks(t, size, 0) + {a.block}
            && a.block.size / 2 < pages <= a.block.size
            && Within(a.block, size, 0) && IsAligned(a.block)
            && forall b | b in Blocks(t, size, 0) :: Disjoint(a.block, b)
  {
    var a, b := Alloc(t, size, pages).value, Fit(t, size, 0, pages, USIZE_MAX).value;
    BestFit(t, size, 0, pages, USIZE_MAX);
    LeavesWithin(t, size, 0);
    CarveSplits(b.size, pages, b.start);
    ReplaceAdds(t, size, 0, b, Carve(b.size, pages));
    assert a.block in Blocks(a.tree, size, 0);
    LeavesAligned(a.tree, size, 0);
    forall live | live in Blocks(t, size, 0) ensures Disjoint(a.block, live) {
      LeavesDisjoint(t, size, 0, b, live);
    }
  }

  /** A successful `alloc` takes the front of a smallest free leaf that is large enough, the leftmost of them. */
  lemma AllocIsBestFit(t: Tree, size: nat, pages: nat)
    requires Fits(t, size) && Alloc(t, size, pages).Some?
    ensures exists leaf | leaf in FreeLeaves(t, size, 0) ::
              && Alloc(t, size, pages).value.block.start == leaf.start && leaf.size >= pages
              && forall b | b in FreeLeaves(t, size, 0) && b.size >= pages ::
                   leaf.size < b.size || (leaf.size == b.size && leaf.start <= b.start)
  {
    BestFit(t, size, 0, pages, USIZE_MAX);
    assert Fit(t, size, 0, pages, USIZE_MAX).value in FreeLeaves(t, size, 0);
  }

  /** There is one canonical tree for a set of blocks, so what an operation does to the blocks is all it does. */
  lemma {:induction false} BlocksDetermine(t: Tree, u: Tree, size: nat, start: nat)
    requires Fits(t, size) && IsCanonical(t) && Fits(u, size) && IsCanonical(u)
    requires Blocks(t, size, start) == Blocks(u, size, start)
    ensures t == u
  {
    if t.Leaf? {
      LeafDetermines(t, u, size, start);
    } else if u.Leaf? {
      LeafDetermines(u, t, size, start);
    } else {
      HalvesDetermine(t, u, size, start);
      BlocksDetermine(t.left, u.left, size / 2, start);
      BlocksDetermine(t.right, u.right, size / 2, start + size / 2);
    }
  }

  lemma LeafDetermines(t: Tree, u: Tree, size: nat, start: nat)
    requires t.Leaf? && Fits(u, size) && IsCanonical(u)
    requires Blocks(t, size, start) == Blocks(u, size, start)
    ensures t == u
  {
    if t == FREE {
      EmptyIsFree(u, size, start);
    } else if u.Node? {
      assert Block(start, size) in Blocks(u, size, start);
      LeavesWithin(u.left, size / 2, start);
      LeavesWithin(u.right, size / 2, start + size / 2);
      assert false;
    }
  }

  lemma HalvesDetermine(t: Tree, u: Tree, size: nat, start: nat)
    requires t.Node? && u.Node? && Fits(t, size) && Fits(u, size)
    requires Blocks(t, size, start) == Blocks(u, size, start)
    ensures Blocks(t.left, size / 2, start) == Blocks(u.left, size / 2, start)
    ensures Blocks(t.right, size / 2, start + size / 2) == Blocks(u.right, size / 2, start + size / 2)
  {
    BlocksInHalf(t, size, start);
    BlocksInHalf(u, size, start);
  }

  lemma BlocksInHalf(t: Tree, size: nat, start: nat)
    requires t.Node? && Fits(t, size)
    ensures Blocks(t.left, size / 2, start) == set b | b in Blocks(t, size, start) && b.start < start + size / 2
    ensures Blocks(t.right, size / 2, start + size / 2) == set b | b in Blocks(t, size, start) && b.start >= start + size / 2
  {
    LeavesWithin(t.left, size / 2, start);
    LeavesWithin(t.right, size / 2, start + size / 2);
  }

  /** Two different leaves share no page. */
  lemma {:induction false} LeavesDisjoint(t: Tree, size: nat, start: nat, a: Block, b: Block)
    requires Fits(t, size) && a != b
    requires a in Blocks(t, size, start) + FreeLeaves(t, size, start)
    requires b in Blocks(t, size, start) + FreeLeaves(t, size, start)
    ensures Disjoint(a, b)
  {
    if t.Node? {
      var half, l, r := size / 2, t.left, t.right;
      LeavesWithin(l, half, start);
      LeavesWithin(r, half, start + half);
      if a in Blocks(l, half, start) + FreeLeaves(l, half, start) {
        if b in Blocks(l, half, start) + FreeLeaves(l, half, start) {
          LeavesDisjoint(l, half, start, a, b);
        }
      } else if b in Blocks(r, half, start + half) + FreeLeaves(r, half, start + half) {
        LeavesDisjoint(r, half, start + half, a, b);
      }
    }
  }

  // ----- Freeing

  /** `free` succeeds exactly at the start of a live block, and then removes that block alone. */
  lemma {:induction false} FreeRemoves(t: Tree, size: nat, start: nat, page: nat)
    requires Fits(t, size)
    ensures match Free(t, size, start, page)
            case None => forall b | b in Blocks(t, size, start) :: b.start != page
            case Some(t') =>
              && Fits(t', size) && (IsCanonical(t) ==> IsCanonical(t'))
              && exists b ::
                   b in Blocks(t, size, start) && b.start == page && Blocks(t', size, start) == Blocks(t, size, start) - {b}
  {
    if t.Node? {
      var half, l, r := size / 2, t.left, t.right;
      LeavesWithin(l, half, start);
      LeavesWithin(r, half, start + half);
      if page < start + half {
        FreeRemoves(l, half, start, page);
      } else {
        FreeRemoves(r, half, start + half, page);
      }
    } else if t.occupied && page == start {
      assert Block(start, size) in Blocks(t, size, start);
      assert Blocks(FREE, size, start) == Blocks(t, size, start) - {Block(start, size)};
    }
  }

  /** Freeing what was just carved out of a free leaf gives the leaf back. */
  lemma {:induction false} FreeCarved(size: nat, pages: nat, start: nat)
    requires IsPow2(size) && 0 < pages <= size
    ensures Free(Carve(size, pages), size, start, start) == Some(FREE)
  {
    if size / 2 >= pages {
      FreeCarved(size / 2, pages, start);
    }
  }

  lemma {:induction false} FreeReplaced(t: Tree, size: nat, start: nat, b: Block, pages: nat)
    requires Fits(t, size) && IsCanonical(t) && b in FreeLeaves(t, size, start) && 0 < pages <= b.size
    ensures Free(Replace(t, size, start, b, Carve(b.size, pages)), size, start, b.start) == Some(t)
  {
    if t.Leaf? {
      FreeCarved(size, pages, start);
    } else {
      LeavesWithin(t.left, size / 2, start);
      LeavesWithin(t.right, size / 2, start + size / 2);
      if b in FreeLeaves(t.left, size / 2, start) {
        FreeReplaced(t.left, size / 2, start, b, pages);
      } else {
        FreeReplaced(t.right, size / 2, start + size / 2, b, pages);
      }
    }
  }

  /** Freeing the block just allocated restores exactly the tree before the allocation: merging climbs
      the nodes that were split and stops at the leaf they came from. */
  lemma FreeUndoesAlloc(t: Tree, size: nat, pages: nat)
    requires Fits(t, size) && IsCanonical(t) && Alloc(t, size, pages).Some?
    ensures Free(Alloc(t, size, pages).value.tree, size, 0, Alloc(t, size, pages).value.block.start) == Some(t)
  {
    BestFit(t, size, 0, pages, USIZE_MAX);
    FreeReplaced(t, size, 0, Fit(t, size, 0, pages, USIZE_MAX).value, pages);
  }

  // ----- Completeness

  /** No page of `run` is occupied, below a node that covers `size` pages from `start`. */
  ghost predicate IsFreeRun(t: Tree, size: nat, start: nat, run: Block) {
    forall page: nat, b | Covers(run, page) && b in Blocks(t, size, start) :: !Covers(b, page)
  }

  /** A canonical tree without occupied blocks is the single free leaf. */
  lemma {:induction false} EmptyIsFree(t: Tree, size: nat, start: nat)
    requires Fits(t, size) && IsCanonical(t) && Blocks(t, size, start) == {}
    ensures t == FREE
  {
    if t.Node? {
      EmptyIsFree(t.left, size / 2, start);
      EmptyIsFree(t.right, size / 2, start + size / 2);
    }
  }

  lemma NoneOccupied(t: Tree, size: nat, start: nat, run: Block)
    requires Fits(t, size) && run == Block(start, size) && IsFreeRun(t, size, start, run)
    ensures Blocks(t, size, start) == {}
  {
    LeavesWithin(t, size, start);
    assert forall b | b in Blocks(t, size, start) :: Covers(b, b.start) && Covers(run, b.start);
  }

  /** An aligned run of free pages lies inside one free leaf. */
  lemma {:induction false} FreeRunInLeaf(t: Tree, size: nat, start: nat, run: Block)
    requires Fits(t, size) && IsCanonical(t) && start % size == 0
    requires IsAligned(run) && Within(run, size, start) && IsFreeRun(t, size, start, run)
    ensures exists leaf | leaf in FreeLeaves(t, size, start) :: Within(run, leaf.size, leaf.start)
  {
    if t.Leaf? {
      assert Covers(run, run.start) && Covers(Block(start, size), run.start);
      assert Block(start, size) in FreeLeaves(t, size, start);
    } else if run.size == size {
      NoneOccupied(t, size, start, run);
      EmptyIsFree(t, size, start);
      assert false;
    } else {
      var half := size / 2;
      HalvesAligned(start, size);
      AlignedInHalf(run, size, start);
      if run.start < start + half {
        FreeRunInLeaf(t.left, half, start, run);
      } else {
        FreeRunInLeaf(t.right, half, start + half, run);
      }
    }
  }

  /** A smaller aligned run does not straddle the middle of an aligned range. */
  lemma AlignedInHalf(run: Block, size: nat, start: nat)
    requires IsPow2(size) && start % size == 0 && IsAligned(run) && Within(run, size, start) && run.size < size
    ensures Within(run, size / 2, start) || Within(run, size / 2, start + size / 2)
  {
    var half, z := size / 2, run.size;
    Pow2AtMostHalf(z, size);
    Pow2Divides(z, half);
    HalvesAligned(start, size);
    DividesThrough(z, half, start + half);
    MultiplesApart(run.start, start + half, z);
  }

  /** Different multiples of `z` are at least `z` apart. */
  lemma MultiplesApart(x: nat, y: nat, z: nat)
    requires z > 0 && x % z == 0 && y % z == 0
    ensures x + z <= y || y <= x
  {
    var a, b := x / z, y / z;
    assert x == a * z && y == b * z;
    ProductsApart(a, b, z);
  }

  lemma ProductsApart(a: nat, b: nat, z: nat)
    ensures if a < b then a * z + z <= b * z else b * z <= a * z
  {
    if a < b {
      Distributes(b - a - 1, a + 1, z);
      Distributes(a, 1, z);
    } else {
      Distributes(a - b, b, z);
    }
  }

  lemma Distributes(a: nat, b: nat, z: nat)
    ensures (a + b) * z == a * z + b * z && a * z >= 0
  {
  }

  lemma {:induction false} Pow2AtMostHalf(a: nat, b: nat)
    requires IsPow2(a) && IsPow2(b) && a < b
    ensures a <= b / 2
  {
    if a > 1 {
      Pow2AtMostHalf(a / 2, b / 2);
    }
  }

  lemma {:induction false} Pow2Divides(a: nat, b: nat)
    requires IsPow2(a) && IsPow2(b) && a <= b
    ensures b % a == 0
  {
    if a == b {
      MultipleHasNoRemainder(1, a);
    } else {
      Pow2AtMostHalf(a, b);
      var half := b / 2;
      assert b == 2 * half && IsPow2(half);
      Pow2Divides(a, half);
      DoubleDivides(a, half);
    }
  }

  lemma DoubleDivides(a: nat, b: nat)
    requires a > 0 && b % a == 0
    ensures (2 * b) % a == 0
  {
    var k := b / a;
    assert 2 * b == (2 * k) * a;
    MultipleHasNoRemainder(2 * k, a);
  }

  lemma DividesThrough(a: nat, b: nat, c: nat)
    requires a > 0 && b > 0 && b % a == 0 && c % b == 0
    ensures c % a == 0
  {
    var j, k := b / a, c / b;
    assert c == k * b == k * (j * a) == (k * j) * a;
    MultipleHasNoRemainder(k * j, a);
  }

  // ----- Merging upwards, one parent at a time

  /** Freeing is clearing the leaf and merging upwards from it. */
  lemma {:induction false} FreeIsMergeUp(t: Tree, size: nat, start: nat, b: Block)
    requires Fits(t, size) && HasNode(t, size, start, b) && Subtree(t, size, start, b) == Leaf(true)
    ensures Free(t, size, start, b.start) == Some(MergeUp(Replace(t, size, start, b, FREE), size, start, b))
  {
    if b != Block(start, size) {
      if b.start < start + size / 2 {
        FreeIsMergeUp(t.left, size / 2, start, b);
      } else {
        FreeIsMergeUp(t.right, size / 2, start + size / 2, b);
      }
    }
  }

  /** Nothing merges above a node that is not a free leaf. */
  lemma {:induction false} MergeUpStuck(t: Tree, size: nat, start: nat, b: Block)
    requires HasNode(t, size, start, b) && Subtree(t, size, start, b) != FREE
    ensures MergeUp(t, size, start, b) == t
  {
    if b != Block(start, size) {
      if b.start < start + size / 2 {
        MergeUpStuck(t.left, size / 2, start, b);
      } else {
        MergeUpStuck(t.right, size / 2, start + size / 2, b);
      }
    }
  }

  predicate IsHalfOf(b: Block, p: Block) {
    p.size > 1 && b.size == p.size / 2 && (b.start == p.start || b.start == p.start + p.size / 2)
  }

  /** One step of `try_merge`: if both halves of `p` are free leaves, `p` becomes one and merging goes on
      from there; if only the half at `b` is, nothing changes. */
  lemma {:induction false} MergeUpStep(t: Tree, size: nat, start: nat, p: Block, b: Block)
    requires Fits(t, size) && HasNode(t, size, start, p) && Subtree(t, size, start, p).Node? && IsHalfOf(b, p)
    requires var sub := Subtree(t, size, start, p); (if b.start == p.start then sub.left else sub.right) == FREE
    ensures MergeUp(t, size, start, b)
         == if Subtree(t, size, start, p) == Node(FREE, FREE) then MergeUp(Replace(t, size, start, p, FREE), size, start, p)
            else t
  {
    if p != Block(start, size) {
      if p.start < start + size / 2 {
        NodesWithin(t.left, size / 2, start, p);
        MergeUpStep(t.left, size / 2, start, p, b);
      } else {
        MergeUpStep(t.right, size / 2, start + size / 2, p, b);
      }
    }
  }

  lemma {:induction false} NodesWithin(t: Tree, size: nat, start: nat, b: Block)
    requires HasNode(t, size, start, b)
    ensures Within(b, size, start)
  {
    if b != Block(start, size) {
      if b.start < start + size / 2 {
        NodesWithin(t.left, size / 2, start, b);
      } else {
        NodesWithin(t.right, size / 2, start + size / 2, b);
      }
    }
  }

  /** Replacing inside a subtree that was just put in place. */
  lemma {:induction false} ReplaceInside(t: Tree, size: nat, start: nat, p: Block, sub: Tree)
    requires Fits(t, size) && HasNode(t, size, start, p) && p.size > 1
    ensures Replace(Replace(t, size, start, p, Node(FREE, FREE)), size, start, Block(p.start, p.size / 2), sub)
         == Replace(t, size, start, p, Node(sub, FREE))
  {
    if p != Block(start, size) {
      if p.start < start + size / 2 {
        ReplaceInside(t.left, size / 2, start, p, sub);
      } else {
        ReplaceInside(t.right, size / 2, start + size / 2, p, sub);
      }
    }
  }
}
