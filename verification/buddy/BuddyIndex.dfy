/** Index arithmetic of the implicit tree in kernel/src/page_alloc_tree.rs, and the tree that an array of
    flags stands for. */
module BuddyIndex {
  import opened Common
  import opened BuddySpec

  type Flags = bv8

  const HAS_CHILDREN_FLAG: Flags := 1
  const IS_OCCUPIED_FLAG: Flags := 2

  predicate HasChildren(f: Flags) {
    f & HAS_CHILDREN_FLAG != 0
  }

  predicate IsOccupied(f: Flags) {
    f & IS_OCCUPIED_FLAG != 0
  }

  /** How the flag updates of the source act on the two flags. */
  lemma FlagUpdates(f: Flags)
    ensures !HasChildren(0) && !IsOccupied(0)
    ensures HasChildren(f | HAS_CHILDREN_FLAG) && (IsOccupied(f | HAS_CHILDREN_FLAG) <==> IsOccupied(f))
    ensures !HasChildren(f & !HAS_CHILDREN_FLAG) && (IsOccupied(f & !HAS_CHILDREN_FLAG) <==> IsOccupied(f))
    ensures IsOccupied(f | IS_OCCUPIED_FLAG) && (HasChildren(f | IS_OCCUPIED_FLAG) <==> HasChildren(f))
    ensures !IsOccupied(f & !IS_OCCUPIED_FLAG) && (HasChildren(f & !IS_OCCUPIED_FLAG) <==> HasChildren(f))
    ensures f & (HAS_CHILDREN_FLAG | IS_OCCUPIED_FLAG) == 0 <==> !HasChildren(f) && !IsOccupied(f)
  {
  }

  function ILog2(n: nat): nat
    requires n > 0
  {
    if n == 1 then 0 else 1 + ILog2(n / 2)
  }

  function Pow2(k: nat): (p: nat)
    ensures p > 0
  {
    if k == 0 then 1 else 2 * Pow2(k - 1)
  }

  /** A node of level `ILog2(node + 1)` is at or after the first node of that level. */
  lemma {:induction false} FirstInLevel(n: nat)
    requires n > 0
    ensures Pow2(ILog2(n)) <= n < 2 * Pow2(ILog2(n))
  {
    if n > 1 {
      FirstInLevel(n / 2);
    }
  }

  function PositionInLevel(node: nat): (position: nat) {
    FirstInLevel(node + 1);
    node - (Pow2(ILog2(node + 1)) - 1)
  }

  /** `get_child_start_and_pages`, with `pages >> level` as division. */
  function ChildStartAndPages(pages: nat, node: nat): (int, int) {
    var childPages := pages / Pow2(ILog2(node + 1));
    (PositionInLevel(node) * childPages, childPages)
  }

  function Parent(node: nat): nat
    requires node > 0
  {
    (node - 1) / 2
  }

  /** The same numbers by descent: a left child starts where its parent does, a right one half way. */
  function SizeOf(pages: nat, node: nat): nat {
    if node == 0 then pages else SizeOf(pages, Parent(node)) / 2
  }

  function StartOf(pages: nat, node: nat): nat {
    if node == 0 then 0
    else StartOf(pages, Parent(node)) + (if node % 2 == 1 then 0 else SizeOf(pages, node))
  }

  function BlockOf(pages: nat, node: nat): Block {
    Block(StartOf(pages, node), SizeOf(pages, node))
  }

  /** The two children of a node halve its block. */
  lemma ChildCoordinates(pages: nat, n: nat)
    ensures Parent(2 * n + 1) == n && Parent(2 * n + 2) == n
    ensures SizeOf(pages, 2 * n + 1) == SizeOf(pages, 2 * n + 2) == SizeOf(pages, n) / 2
    ensures StartOf(pages, 2 * n + 1) == StartOf(pages, n)
    ensures StartOf(pages, 2 * n + 2) == StartOf(pages, n) + SizeOf(pages, n) / 2
  {
    assert Parent(2 * n + 1) == n && Parent(2 * n + 2) == n;
  }

  lemma RootCoordinates(pages: nat)
    ensures SizeOf(pages, 0) == pages && StartOf(pages, 0) == 0
  {
  }

  /** The index formula of the source agrees with the descent, for every node that covers a page; such a
      node covers a power of two of pages. */
  lemma {:induction false} IndexFormula(pages: nat, node: nat)
    requires IsPow2(pages) && SizeOf(pages, node) > 0
    ensures ChildStartAndPages(pages, node) == (StartOf(pages, node), SizeOf(pages, node))
    ensures IsPow2(SizeOf(pages, node))
  {
    hide ILog2, Pow2, PositionInLevel;
    if node == 0 {
      RootFormula(pages);
    } else {
      var p := Parent(node);
      IndexFormula(pages, p);
      LevelBelow(node);
      DivideTwice(pages, Pow2(ILog2(p + 1)));
      var z, position := SizeOf(pages, node), PositionInLevel(p);
      assert SizeOf(pages, p) == 2 * z;
      DoublePosition(position, z);
    }
  }

  lemma RootFormula(pages: nat)
    ensures ChildStartAndPages(pages, 0) == (0, pages)
  {
  }

  /** A child is one level down, at twice its parent's position, plus one for a right child. */
  lemma LevelBelow(node: nat)
    requires node > 0
    ensures Pow2(ILog2(node + 1)) == 2 * Pow2(ILog2(Parent(node) + 1))
    ensures PositionInLevel(node) == 2 * PositionInLevel(Parent(node)) + (if node % 2 == 1 then 0 else 1)
  {
    var p := Parent(node);
    assert (node + 1) / 2 == p + 1;
    var level := ILog2(p + 1);
    assert ILog2(node + 1) == 1 + level;
    var half := Pow2(level);
    assert Pow2(1 + level) == 2 * half;
    assert if node % 2 == 1 then node == 2 * p + 1 else node == 2 * p + 2;
  }

  lemma DivideTwice(n: nat, d: nat)
    requires d > 0
    ensures n / (2 * d) == (n / d) / 2
  {
    var q := n / (2 * d);
    var r := n % (2 * d);
    assert n == q * (2 * d) + r == (2 * q) * d + r;
    if r < d {
      QuotientIs(n, d, 2 * q, r);
    } else {
      assert n == (2 * q + 1) * d + (r - d);
      QuotientIs(n, d, 2 * q + 1, r - d);
    }
  }

  lemma QuotientIs(n: nat, d: nat, q: nat, r: nat)
    requires r < d && n == q * d + r
    ensures n / d == q
  {
    var q', r' := n / d, n % d;
    assert n == q' * d + r';
    if q' > q {
      Bounded(q' - q, d, r - r');
    } else if q' < q {
      Bounded(q - q', d, r' - r);
    }
  }

  lemma Bounded(k: nat, d: nat, r: int)
    requires k * d == r && r < d
    ensures k == 0
  {
  }

  lemma DoublePosition(position: nat, z: nat)
    ensures position * (2 * z) == (2 * position) * z
    ensures (2 * position + 1) * z == position * (2 * z) + z
  {
  }

  /** Every node that covers a page has an index below `2 * pages - 1`. */
  lemma {:induction false} NodeInArray(pages: nat, node: nat)
    requires SizeOf(pages, node) > 0
    ensures node < 2 * pages - 1
  {
    NodeBound(pages, node);
    assert (node + 2) * SizeOf(pages, node) >= node + 2;
  }

  lemma {:induction false} NodeBound(pages: nat, node: nat)
    ensures (node + 2) * SizeOf(pages, node) <= 2 * pages
  {
    if node > 0 {
      var p := Parent(node);
      NodeBound(pages, p);
      var z := SizeOf(pages, p);
      HalfProduct(p + 2, z, node + 2);
    }
  }

  lemma HalfProduct(a: nat, z: nat, b: nat)
    requires b <= 2 * a
    ensures b * (z / 2) <= a * z
  {
    assert b * (z / 2) <= (2 * a) * (z / 2) == a * (2 * (z / 2)) <= a * z;
  }
}
