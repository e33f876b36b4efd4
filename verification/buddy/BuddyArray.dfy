/** The tree that a flag array stands for, and how writes to the array change it. */
module BuddyArray {
  import opened Common
  import opened BuddySpec
  import opened BuddyIndex

  /** `f` holds one byte for every node that covers a page. */
  predicate IsArray(f: seq<Flags>, pages: nat) {
    IsPow2(pages) && |f| == 2 * pages - 1
  }

  /** `n` is a node of the array. */
  ghost predicate IsNode(f: seq<Flags>, pages: nat, n: nat) {
    IsArray(f, pages) && SizeOf(pages, n) > 0 && n < |f|
  }

  lemma SizedIsNode(f: seq<Flags>, pages: nat, n: nat)
    requires IsArray(f, pages) && SizeOf(pages, n) > 0
    ensures IsNode(f, pages, n) && IsPow2(SizeOf(pages, n))
  {
    NodeInArray(pages, n);
    IndexFormula(pages, n);
  }

  /** The nodes below `n`: split nodes cover more than a page and are not occupied. */
  ghost predicate IsTreeAt(f: seq<Flags>, pages: nat, n: nat)
    decreases SizeOf(pages, n)
  {
    IsNode(f, pages, n) &&
    (HasChildren(f[n]) ==>
       && SizeOf(pages, n) > 1 && !IsOccupied(f[n])
       && IsTreeAt(f, pages, 2 * n + 1) && IsTreeAt(f, pages, 2 * n + 2))
  }

  /** The tree below node `n`. */
  ghost function TreeAt(f: seq<Flags>, pages: nat, n: nat): Tree
    requires IsTreeAt(f, pages, n)
    decreases SizeOf(pages, n)
  {
    if HasChildren(f[n]) then Node(TreeAt(f, pages, 2 * n + 1), TreeAt(f, pages, 2 * n + 2))
    else Leaf(IsOccupied(f[n]))
  }

  lemma {:induction false} TreeFits(f: seq<Flags>, pages: nat, n: nat)
    requires IsTreeAt(f, pages, n)
    ensures Fits(TreeAt(f, pages, n), SizeOf(pages, n))
    decreases SizeOf(pages, n)
  {
    SizedIsNode(f, pages, n);
    if HasChildren(f[n]) {
      TreeFits(f, pages, 2 * n + 1);
      TreeFits(f, pages, 2 * n + 2);
    }
  }

  /** `k` is `n` or one of the nodes below it. */
  predicate Under(n: nat, k: nat)
    decreases k
  {
    k == n || (k > n && Under(n, Parent(k)))
  }

  lemma {:induction false} UnderRoot(k: nat)
    ensures Under(0, k)
  {
    if k > 0 {
      UnderRoot(Parent(k));
    }
  }

  /** Siblings share no descendant. */
  lemma {:induction false} SiblingsApart(n: nat, k: nat)
    ensures !(Under(2 * n + 1, k) && Under(2 * n + 2, k))
    decreases k
  {
    if k > 2 * n + 2 {
      SiblingsApart(n, Parent(k));
    }
  }

  lemma {:induction false} ChildIsUnder(n: nat, c: nat, k: nat)
    requires (c == 2 * n + 1 || c == 2 * n + 2) && Under(c, k)
    ensures Under(n, k)
    decreases k
  {
    if k > c {
      ChildIsUnder(n, c, Parent(k));
    } else {
      assert Parent(c) == n;
    }
  }

  /** Arrays that agree below `n` stand for the same tree there. */
  lemma {:induction false} TreeFrame(f: seq<Flags>, f': seq<Flags>, pages: nat, n: nat)
    requires IsTreeAt(f, pages, n) && |f'| == |f|
    requires forall k: nat | k < |f| && Under(n, k) :: f'[k] == f[k]
    ensures IsTreeAt(f', pages, n) && TreeAt(f', pages, n) == TreeAt(f, pages, n)
    decreases SizeOf(pages, n)
  {
    assert Under(n, n);
    if HasChildren(f[n]) {
      forall c, k: nat | (c == 2 * n + 1 || c == 2 * n + 2) && Under(c, k) ensures Under(n, k) {
        ChildIsUnder(n, c, k);
      }
      TreeFrame(f, f', pages, 2 * n + 1);
      TreeFrame(f, f', pages, 2 * n + 2);
    }
  }

  /** Every node from `n` down to the parent of `k` is split, so that `k` is part of the tree at `n`. */
  predicate IsLive(f: seq<Flags>, n: nat, k: nat)
    decreases k
  {
    k == n || (n < k && Parent(k) < |f| && HasChildren(f[Parent(k)]) && IsLive(f, n, Parent(k)))
  }

  /** The child of `n` on the way to `k`. */
  lemma {:induction false} LiveThroughChild(f: seq<Flags>, n: nat, k: nat) returns (c: nat)
    requires IsLive(f, n, k) && k != n
    ensures (c == 2 * n + 1 || c == 2 * n + 2) && IsLive(f, c, k) && n < |f| && HasChildren(f[n]) && c <= k
    decreases k
  {
    if Parent(k) == n {
      c := k;
    } else {
      c := LiveThroughChild(f, n, Parent(k));
    }
  }

  lemma {:induction false} LiveIsUnder(f: seq<Flags>, n: nat, k: nat)
    requires IsLive(f, n, k)
    ensures Under(n, k)
    decreases k
  {
    if k != n {
      LiveIsUnder(f, n, Parent(k));
    }
  }

  /** A live node is a node of the array, and its block lies in the range of the one above. */
  lemma {:induction false} LiveIsNode(f: seq<Flags>, pages: nat, n: nat, k: nat)
    requires IsTreeAt(f, pages, n) && IsLive(f, n, k)
    ensures IsTreeAt(f, pages, k)
    ensures Within(BlockOf(pages, k), SizeOf(pages, n), StartOf(pages, n))
    ensures k != n ==> SizeOf(pages, k) <= SizeOf(pages, n) / 2
    decreases SizeOf(pages, n)
  {
    if k != n {
      var c := LiveThroughChild(f, n, k);
      assert Parent(c) == n;
      LiveIsNode(f, pages, c, k);
    }
  }

  /** A write below a live node `k` replaces the subtree at `k`'s block and nothing else. */
  lemma {:induction false} WriteReplaces(f: seq<Flags>, f': seq<Flags>, pages: nat, n: nat, k: nat)
    requires IsTreeAt(f, pages, n) && IsLive(f, n, k) && IsTreeAt(f', pages, k) && |f'| == |f|
    requires forall j: nat | j < |f| && !Under(k, j) :: f'[j] == f[j]
    ensures IsTreeAt(f', pages, n)
    ensures TreeAt(f', pages, n)
         == Replace(TreeAt(f, pages, n), SizeOf(pages, n), StartOf(pages, n), BlockOf(pages, k), TreeAt(f', pages, k))
    decreases SizeOf(pages, n)
  {
    if k != n {
      var c := LiveThroughChild(f, n, k);
      assert Parent(c) == n;
      LiveIsNode(f, pages, c, k);
      SiblingUnchanged(f, f', pages, n, c, k);
      WriteReplaces(f, f', pages, c, k);
      ReplaceAbove(f, f', pages, n, c, k);
    }
  }

  /** A replacement below child `c` is a replacement below its parent `n`, the sibling being unchanged. */
  lemma ReplaceAbove(f: seq<Flags>, f': seq<Flags>, pages: nat, n: nat, c: nat, k: nat)
    requires IsTreeAt(f, pages, n) && HasChildren(f[n]) && |f'| == |f| && f'[n] == f[n]
    requires (c == 2 * n + 1 || c == 2 * n + 2) && IsTreeAt(f', pages, c) && IsTreeAt(f', pages, k)
    requires Within(BlockOf(pages, k), SizeOf(pages, c), StartOf(pages, c))
    requires TreeAt(f', pages, c)
          == Replace(TreeAt(f, pages, c), SizeOf(pages, c), StartOf(pages, c), BlockOf(pages, k), TreeAt(f', pages, k))
    requires var sibling := if c == 2 * n + 1 then c + 1 else c - 1;
             IsTreeAt(f', pages, sibling) && TreeAt(f', pages, sibling) == TreeAt(f, pages, sibling)
    ensures IsTreeAt(f', pages, n)
    ensures TreeAt(f', pages, n)
         == Replace(TreeAt(f, pages, n), SizeOf(pages, n), StartOf(pages, n), BlockOf(pages, k), TreeAt(f', pages, k))
  {
    hide Replace, IsPow2, SizeOf, StartOf;
    ChildCoordinates(pages, n);
    ReplaceInChild(TreeAt(f, pages, n), SizeOf(pages, n), StartOf(pages, n), BlockOf(pages, k), TreeAt(f', pages, k),
                   c == 2 * n + 1);
  }

  /** A replacement strictly below a split node happens in the half its block lies in. */
  lemma ReplaceInChild(t: Tree, size: nat, start: nat, b: Block, sub: Tree, left: bool)
    requires t.Node? && 0 < b.size <= size / 2
    requires if left then Within(b, size / 2, start) else Within(b, size / 2, start + size / 2)
    ensures Replace(t, size, start, b, sub)
         == if left then Node(Replace(t.left, size / 2, start, b, sub), t.right)
            else Node(t.left, Replace(t.right, size / 2, start + size / 2, b, sub))
  {
  }

  lemma SiblingUnchanged(f: seq<Flags>, f': seq<Flags>, pages: nat, n: nat, c: nat, k: nat)
    requires IsTreeAt(f, pages, n) && HasChildren(f[n]) && (c == 2 * n + 1 || c == 2 * n + 2) && IsLive(f, c, k)
    requires |f'| == |f| && forall j: nat | j < |f| && !Under(k, j) :: f'[j] == f[j]
    ensures f'[n] == f[n]
    ensures var sibling := if c == 2 * n + 1 then c + 1 else c - 1;
            IsTreeAt(f', pages, sibling) && TreeAt(f', pages, sibling) == TreeAt(f, pages, sibling)
  {
    var sibling := if c == 2 * n + 1 then c + 1 else c - 1;
    LiveIsUnder(f, c, k);
    AboveIsNotUnder(k, n);
    forall j: nat | j < |f| && Under(sibling, j) ensures f'[j] == f[j] {
      if Under(k, j) {
        UnderTransitive(c, k, j);
        SiblingsApart(n, j);
      }
    }
    TreeFrame(f, f', pages, sibling);
  }

  lemma {:induction false} UnderTransitive(a: nat, b: nat, c: nat)
    requires Under(a, b) && Under(b, c)
    ensures Under(a, c)
    decreases c
  {
    if c != b {
      UnderTransitive(a, b, Parent(c));
    }
  }

  lemma AboveIsNotUnder(k: nat, n: nat)
    requires n < k
    ensures !Under(k, n)
  {
  }

  lemma SubtreeAtRoot(t: Tree, size: nat, start: nat)
    ensures HasNode(t, size, start, Block(start, size)) && Subtree(t, size, start, Block(start, size)) == t
  {
  }

  lemma SubtreeInChild(t: Tree, size: nat, start: nat, b: Block, left: bool)
    requires t.Node? && 0 < b.size <= size / 2
    requires if left then Within(b, size / 2, start) && HasNode(t.left, size / 2, start, b)
             else Within(b, size / 2, start + size / 2) && HasNode(t.right, size / 2, start + size / 2, b)
    ensures HasNode(t, size, start, b)
    ensures Subtree(t, size, start, b)
         == if left then Subtree(t.left, size / 2, start, b) else Subtree(t.right, size / 2, start + size / 2, b)
  {
  }

  /** A live node is a node of the tree, with its own tree standing at its block. */
  lemma {:induction false} LiveSubtree(f: seq<Flags>, pages: nat, n: nat, k: nat)
    requires IsTreeAt(f, pages, n) && IsLive(f, n, k)
    ensures IsTreeAt(f, pages, k)
    ensures HasNode(TreeAt(f, pages, n), SizeOf(pages, n), StartOf(pages, n), BlockOf(pages, k))
    ensures Subtree(TreeAt(f, pages, n), SizeOf(pages, n), StartOf(pages, n), BlockOf(pages, k)) == TreeAt(f, pages, k)
    decreases SizeOf(pages, n)
  {
    hide IsLive, IsPow2, Subtree, HasNode, SizeOf, StartOf;
    ChildCoordinates(pages, n);
    SubtreeAtRoot(TreeAt(f, pages, n), SizeOf(pages, n), StartOf(pages, n));
    if k != n {
      var c := LiveThroughChild(f, n, k);
      LiveIsNode(f, pages, n, k);
      LiveIsNode(f, pages, c, k);
      LiveSubtree(f, pages, c, k);
      SubtreeInChild(TreeAt(f, pages, n), SizeOf(pages, n), StartOf(pages, n), BlockOf(pages, k), c == 2 * n + 1);
    }
  }

  /** Whether a node is live depends on the nodes above it only, and those have smaller indices. */
  lemma {:induction false} LiveFrame(f: seq<Flags>, f': seq<Flags>, n: nat, k: nat)
    requires IsLive(f, n, k) && |f'| == |f|
    requires forall j: nat | j < |f| && j < k :: HasChildren(f[j]) ==> HasChildren(f'[j])
    ensures IsLive(f', n, k)
    decreases k
  {
    if k != n {
      LiveFrame(f, f', n, Parent(k));
    }
  }
}
