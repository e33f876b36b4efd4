/** The separation invariant of the page tables: the tables form a tree, every table frame has exactly
    one parent entry, and the recursion slot is no part of it. */
module TableTree {
  import opened Entries
  import opened Addresses
  import opened Hardware

  /** The indices that lead to a table from the PML4. */
  datatype Path = Root | Sub(parent: Path, index: Index)

  function Level(p: Path): nat {
    match p
    case Root => 0
    case Sub(parent, _) => Level(parent) + 1
  }

  /** The path to the table that the walk of `v` reads at `level`. */
  function PathTo(v: Word, level: nat): (p: Path)
    requires level < 4
    ensures Level(p) == level
  {
    if level == 0 then Root else Sub(PathTo(v, level - 1), IndexAt(level - 1, v))
  }

  /** Where each table of the tree lives. */
  type Tree = map<Path, Loc>

  predicate IsRecursionSlot(p: Path, i: Index, r: Index) {
    p == Root && i == r
  }

  predicate IsNodeTo(e: Word, child: Loc) {
    IsPresent(e) && !IsHuge(e) && IsWritable(e) && !IsUser(e) && IsBareNode(e) && child == Phys(ChildAddr(e))
  }

  /** A node entry is the address of its child with bits 0 and 1 set, and nothing else. */
  lemma NodeWord(e: Word, child: Loc)
    requires IsNodeTo(e, child)
    ensures child.Phys? && e == child.addr | 3
  {
  }

  /** Entry `i` of table `p` agrees with the tree: it is the one entry that refers to table
      `Sub(p, i)`, or it is not present, or (below the PML4) it is a huge leaf. */
  ghost predicate EntryAgrees(m: Memory, t: Tree, p: Path, i: Index)
    requires p in t
  {
    var e := Load(m, t[p], i);
    if Sub(p, i) in t then IsNodeTo(e, t[Sub(p, i)]) else IsPresent(e) ==> Level(p) > 0 && IsHuge(e)
  }

  ghost predicate IsTree(m: Memory, r: Index, t: Tree) {
    && Root in t
    && (forall p | p in t :: Level(p) < 4)
    && (forall p, q {:trigger t[p], t[q]} | p in t && q in t && t[p] == t[q] :: p == q)
    && (forall p, i {:trigger Sub(p, i) in t} | Sub(p, i) in t :: p in t && !IsRecursionSlot(p, i, r))
    && (forall p, i: Index {:trigger EntryAgrees(m, t, p, i)} |
           p in t && Level(p) < 3 && !IsRecursionSlot(p, i, r) :: EntryAgrees(m, t, p, i))
  }

  lemma RootInTree(m: Memory, r: Index, t: Tree)
    requires IsTree(m, r, t)
    ensures Root in t
  {
  }

  /** What `new_page_table` promises of a frame: aligned, zeroed, and owned by nothing else. */
  ghost predicate IsFresh(m: Memory, t: Tree, f: Word) {
    IsFrame(f) && Phys(f) !in t.Values && IsZeroed(m, Phys(f))
  }

  ghost predicate AllFresh(m: Memory, t: Tree, supply: seq<Word>) {
    && (forall k | 0 <= k < |supply| :: IsFresh(m, t, supply[k]))
    && (forall j, k | 0 <= j < k < |supply| :: supply[j] != supply[k])
  }

  /** Entry `i` of table `p` is absent and `e` is about to link it to the fresh frame `f`. */
  ghost predicate CanLink(m: Memory, r: Index, t: Tree, p: Path, i: Index, e: Word, f: Word) {
    && IsTree(m, r, t) && p in t && Level(p) < 3 && !IsRecursionSlot(p, i, r)
    && !IsPresent(Load(m, t[p], i)) && IsFresh(m, t, f) && IsNodeTo(e, Phys(f))
  }

  lemma AbsentIsUnlinked(m: Memory, r: Index, t: Tree, p: Path, i: Index, e: Word, f: Word)
    requires CanLink(m, r, t, p, i, e, f)
    ensures Sub(p, i) !in t
  {
    hide IsPresent, IsHuge, IsWritable, IsUser, IsBareNode, ChildAddr, Load;
    assert EntryAgrees(m, t, p, i);
  }

  lemma LinkAgrees(m: Memory, r: Index, t: Tree, p: Path, i: Index, e: Word, f: Word, q: Path, j: Index)
    requires CanLink(m, r, t, p, i, e, f)
    requires (q in t || q == Sub(p, i)) && Level(q) < 3 && !IsRecursionSlot(q, j, r)
    ensures EntryAgrees(Store(m, t[p], i, e), t[Sub(p, i) := Phys(f)], q, j)
  {
    hide IsPresent, IsHuge, IsWritable, IsUser, IsBareNode, ChildAddr, Load, Store;
    AbsentIsUnlinked(m, r, t, p, i, e, f);
    if q == Sub(p, i) {
      LinkKeepsZeroed(m, r, t, p, i, e, f, f);
      AbsentAgrees(Store(m, t[p], i, e), t[Sub(p, i) := Phys(f)], q, j);
    } else {
      LoadStore(m, t[p], i, e, t[q], j);
      assert EntryAgrees(m, t, q, j);
    }
  }

  /** Linking a fresh frame in place of an absent entry keeps the tables a tree. */
  lemma LinkKeepsTree(m: Memory, r: Index, t: Tree, p: Path, i: Index, e: Word, f: Word)
    requires CanLink(m, r, t, p, i, e, f)
    ensures Sub(p, i) !in t
    ensures IsTree(Store(m, t[p], i, e), r, t[Sub(p, i) := Phys(f)])
  {
    AbsentIsUnlinked(m, r, t, p, i, e, f);
    hide IsPresent, IsHuge, IsWritable, IsUser, IsBareNode, ChildAddr, Load, Store, EntryAgrees, IsZeroed;
    var m', t' := Store(m, t[p], i, e), t[Sub(p, i) := Phys(f)];
    forall q, j: Index | q in t' && Level(q) < 3 && !IsRecursionSlot(q, j, r)
      ensures EntryAgrees(m', t', q, j)
    {
      LinkAgrees(m, r, t, p, i, e, f, q, j);
    }
  }

  lemma AbsentAgrees(m: Memory, t: Tree, p: Path, i: Index)
    requires p in t && IsZeroed(m, t[p]) && Sub(p, i) !in t
    ensures EntryAgrees(m, t, p, i)
  {
  }

  /** Linking a fresh zeroed frame changes no translation outside the recursion slot. */
  lemma {:induction false} LinkKeepsWalk(m: Memory, r: Index, t: Tree, p: Path, i: Index, e: Word, f: Word,
                                         q: Path, u: Word)
    requires CanLink(m, r, t, p, i, e, f)
    requires q in t && !IsRecursionSlot(q, IndexAt(Level(q), u), r)
    ensures Walk(Store(m, t[p], i, e), t[q], Level(q), u) == Walk(m, t[q], Level(q), u)
    decreases 4 - Level(q)
  {
    var j := IndexAt(Level(q), u);
    if q == p && j == i {
      LinkedWalkFaults(m, r, t, p, i, e, f, u);
    } else {
      LoadStore(m, t[p], i, e, t[q], j);
      if Level(q) < 3 {
        assert EntryAgrees(m, t, q, j);
        if Sub(q, j) in t {
          LinkKeepsWalk(m, r, t, p, i, e, f, Sub(q, j), u);
        }
      }
      WalkCongruence(m, t[q], Store(m, t[p], i, e), t[q], Level(q), u);
    }
  }

  /** Linking one frame leaves every other fresh frame zeroed, and the linked frame too. */
  lemma LinkKeepsZeroed(m: Memory, r: Index, t: Tree, p: Path, i: Index, e: Word, f: Word, g: Word)
    requires CanLink(m, r, t, p, i, e, f) && IsFresh(m, t, g)
    ensures IsZeroed(Store(m, t[p], i, e), Phys(g))
  {
    assert t[p] in t.Values;
    forall j: Index ensures Load(Store(m, t[p], i, e), Phys(g), j) == 0 {
      LoadStore(m, t[p], i, e, Phys(g), j);
    }
  }

  /** A walk through the new entry reaches the zeroed table and faults, as it did before. */
  lemma LinkedWalkFaults(m: Memory, r: Index, t: Tree, p: Path, i: Index, e: Word, f: Word, u: Word)
    requires CanLink(m, r, t, p, i, e, f) && i == IndexAt(Level(p), u)
    ensures Walk(Store(m, t[p], i, e), t[p], Level(p), u) == Walk(m, t[p], Level(p), u) == Fault
  {
    hide IndexAt;
    LinkKeepsZeroed(m, r, t, p, i, e, f, f);
    LoadStore(m, t[p], i, e, t[p], i);
    ZeroedFaults(Store(m, t[p], i, e), Phys(f), Level(p) + 1, u);
  }

  /** Writing a leaf in a page table keeps the tables a tree. */
  lemma LeafKeepsTree(m: Memory, r: Index, t: Tree, p: Path, i: Index, e: Word)
    requires IsTree(m, r, t) && p in t && Level(p) == 3
    ensures IsTree(Store(m, t[p], i, e), r, t)
  {
    var m' := Store(m, t[p], i, e);
    forall q, j: Index | q in t && Level(q) < 3 && !IsRecursionSlot(q, j, r)
      ensures EntryAgrees(m', t, q, j)
    {
      assert EntryAgrees(m, t, q, j);
    }
  }

  /** Writing the leaf for `v`'s page changes the translation of no other page. */
  lemma {:induction false} LeafKeepsOtherWalks(m: Memory, r: Index, t: Tree, v: Word, e: Word, level: nat, u: Word)
    requires IsTree(m, r, t) && PathTo(v, 3) in t && level < 4 && PathTo(u, level) in t
    requires IndexAt(0, u) != r && Page(u) != Page(v)
    ensures Walk(Store(m, t[PathTo(v, 3)], IndexAt(3, v), e), t[PathTo(u, level)], level, u)
         == Walk(m, t[PathTo(u, level)], level, u)
    decreases 4 - level
  {
    var q, j := PathTo(u, level), IndexAt(level, u);
    var m' := Store(m, t[PathTo(v, 3)], IndexAt(3, v), e);
    if level == 3 {
      if q == PathTo(v, 3) && j == IndexAt(3, v) {
        PathToPage(u, v);
      }
    } else {
      assert EntryAgrees(m, t, q, j);
      if Sub(q, j) in t {
        LeafKeepsOtherWalks(m, r, t, v, e, level + 1, u);
      }
    }
    LoadStore(m, t[PathTo(v, 3)], IndexAt(3, v), e, t[q], j);
    WalkCongruence(m, t[q], m', t[q], level, u);
  }

  /** Addresses that share a path share all indices above it. */
  lemma {:induction false} PathToIndices(u: Word, v: Word, level: nat)
    requires level < 4 && PathTo(u, level) == PathTo(v, level)
    ensures forall k: nat | k < level :: IndexAt(k, u) == IndexAt(k, v)
  {
    if level > 0 {
      PathToIndices(u, v, level - 1);
    }
  }

  lemma PathToPage(u: Word, v: Word)
    requires PathTo(u, 3) == PathTo(v, 3) && IndexAt(3, u) == IndexAt(3, v)
    ensures Page(u) == Page(v)
  {
    PathToIndices(u, v, 3);
    SamePage(u, v);
  }
}
