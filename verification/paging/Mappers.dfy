/** The two ways of `VirtualMapper` to reach a table: `LocalMapper` follows child addresses,
    `RecursiveMapper` builds virtual addresses that the hardware translates through the very tables
    being edited. In every state either can meet, both reach the same table. */
module Mappers {
  import opened Entries
  import opened Addresses
  import opened Hardware
  import opened TableTree

  /** A pointer to a table: dereferenced directly, or through the translation of the machine. */
  datatype TablePtr = Direct(loc: Loc) | Virtual(addr: Word)

  datatype Mapper = LocalMapper(recursionIndex: Index) | RecursiveMapper(recursionIndex: Index) {

    function Pml4(root: Loc): TablePtr {
      var r := recursionIndex.value;
      if LocalMapper? then Direct(root) else Virtual(FromInfo(VAddrInfo(0, r, r, r, r)))
    }

    function Pdpt(m: Memory, root: Loc, pml4: Index): TablePtr {
      var r := recursionIndex.value;
      if LocalMapper? then Direct(Child(m, root, pml4)) else Virtual(FromInfo(VAddrInfo(0, pml4.value, r, r, r)))
    }

    /** `LocalMapper` declares the leaf case unreachable, so it must not occur. */
    function Pd(m: Memory, root: Loc, pml4: Index, pdpt: Index): TablePtr
      requires LocalMapper? ==> !IsHuge(Load(m, Child(m, root, pml4), pdpt))
    {
      var r := recursionIndex.value;
      if LocalMapper? then Direct(Child(m, Child(m, root, pml4), pdpt))
      else Virtual(FromInfo(VAddrInfo(0, pdpt.value, pml4.value, r, r)))
    }

    function Pt(m: Memory, root: Loc, pml4: Index, pdpt: Index, pd: Index): TablePtr
      requires LocalMapper? ==> !IsHuge(Load(m, Child(m, root, pml4), pdpt))
      requires LocalMapper? ==> !IsHuge(Load(m, Child(m, Child(m, root, pml4), pdpt), pd))
    {
      var r := recursionIndex.value;
      if LocalMapper? then Direct(Child(m, Child(m, Child(m, root, pml4), pdpt), pd))
      else Virtual(FromInfo(VAddrInfo(0, pd.value, pdpt.value, pml4.value, r)))
    }

    /** No leaf stands where the accessor for `level` needs a node. */
    predicate Reaches(m: Memory, root: Loc, level: nat, v: Word) {
      && (level >= 2 ==> !IsHuge(Load(m, Child(m, root, IndexAt(0, v)), IndexAt(1, v))))
      && (level >= 3 ==> !IsHuge(Load(m, Child(m, Child(m, root, IndexAt(0, v)), IndexAt(1, v)), IndexAt(2, v))))
    }

    /** The accessor that `map` uses at each level. */
    function Table(m: Memory, root: Loc, level: nat, v: Word): TablePtr
      requires level < 4 && Reaches(m, root, level, v)
    {
      var i0, i1, i2 := IndexAt(0, v), IndexAt(1, v), IndexAt(2, v);
      if level == 0 then Pml4(root)
      else if level == 1 then Pdpt(m, root, i0)
      else if level == 2 then Pd(m, root, i0, i1)
      else Pt(m, root, i0, i1, i2)
    }
  }

  /** `child_addr` of an entry, as the location of the table it refers to. */
  function Child(m: Memory, l: Loc, i: Index): Loc {
    Phys(ChildAddr(Load(m, l, i)))
  }

  /** The byte address of entry `i` behind a virtual table pointer. */
  function EntryVAddr(a: Word, i: Index): Word {
    a + (i.value << 3)
  }

  /** The word of physical memory at physical address `a`, as a table and an index in it. */
  function LocAt(a: Word): Loc {
    Phys(a & PAGE_ADDRESS_MASK)
  }

  function IndexIn(a: Word): Index {
    EntryIndex((a & 0xfff) >> 3)
  }

  /** Entry `i` behind the pointer is present, may be written, and is entry `i` of the table at `l`. */
  predicate EntryLands(m: Memory, root: Loc, p: TablePtr, i: Index, l: Loc) {
    match p
    case Direct(loc) => loc == l
    case Virtual(a) =>
      var t := Walk(m, root, 0, EntryVAddr(a, i));
      && t.Mapped? && t.writable
      && LocAt(t.Address(EntryVAddr(a, i))) == l
      && IndexIn(t.Address(EntryVAddr(a, i))) == i
  }

  ghost predicate Lands(m: Memory, root: Loc, p: TablePtr, l: Loc) {
    forall i: Index :: EntryLands(m, root, p, i, l)
  }

  /** A state of `VirtualMapBuilder`: the PML4 is local and the recursion slot is still empty. */
  ghost predicate Building(m: Memory, r: Index, t: Tree) {
    IsTree(m, r, t) && t[Root] == Local && Load(m, Local, r) == 0
  }

  /** A state after `finish`: the PML4 is a frame and its recursion slot refers to itself. */
  ghost predicate Recursive(m: Memory, r: Index, t: Tree) {
    IsTree(m, r, t) && IsNodeTo(Load(m, t[Root], r), t[Root])
  }

  /** Four node entries in a row, the last one read as a page-table entry, map the last table. */
  lemma FourNodes(m: Memory, l0: Loc, l1: Loc, l2: Loc, l3: Loc, l4: Loc, u: Word)
    requires IsNodeTo(Load(m, l0, IndexAt(0, u)), l1) && IsNodeTo(Load(m, l1, IndexAt(1, u)), l2)
    requires IsNodeTo(Load(m, l2, IndexAt(2, u)), l3) && IsNodeTo(Load(m, l3, IndexAt(3, u)), l4)
    ensures l4.Phys? && IsFrame(l4.addr)
    ensures Walk(m, l0, 0, u) == Mapped(l4.addr, 0xfff, true, false, Load(m, l3, IndexAt(3, u)))
  {
    hide IndexAt, IsPresent, IsHuge, IsWritable, IsUser, Load, Walk, ChildAddr, IsFrame;
    MaskedIsFrame(Load(m, l3, IndexAt(3, u)));
    WalkStep(m, l3, 3, u);
    WalkStep(m, l2, 2, u);
    WalkStep(m, l1, 1, u);
    WalkStep(m, l0, 0, u);
  }

  lemma MaskedIsFrame(e: Word)
    ensures IsFrame(ChildAddr(e))
  {
  }

  lemma FrameEntryBits(f: Word, i: Index)
    requires IsFrame(f)
    ensures (f | (i.value << 3)) & PAGE_ADDRESS_MASK == f
    ensures ((f | (i.value << 3)) & 0xfff) >> 3 == i.value
  {
  }

  /** A page-aligned virtual pointer whose indices run through four node entries reaches the table the
      last one refers to, at every entry and with write access. */
  lemma ChainLands(m: Memory, l0: Loc, l1: Loc, l2: Loc, l3: Loc, l4: Loc, a: Word)
    requires a & 0xfff == 0
    requires IsNodeTo(Load(m, l0, IndexAt(0, a)), l1) && IsNodeTo(Load(m, l1, IndexAt(1, a)), l2)
    requires IsNodeTo(Load(m, l2, IndexAt(2, a)), l3) && IsNodeTo(Load(m, l3, IndexAt(3, a)), l4)
    ensures Lands(m, l0, Virtual(a), l4)
  {
    hide IndexAt, IsNodeTo, Load, Walk, Page, IsFrame;
    forall i: Index ensures EntryLands(m, l0, Virtual(a), i, l4) {
      var u := EntryVAddr(a, i);
      EntryAddress(a, i);
      SamePage(u, a);
      assert IndexAt(0, u) == IndexAt(0, a) && IndexAt(1, u) == IndexAt(1, a);
      assert IndexAt(2, u) == IndexAt(2, a) && IndexAt(3, u) == IndexAt(3, a);
      FourNodes(m, l0, l1, l2, l3, l4, u);
      FrameEntryBits(l4.addr, i);
    }
  }

  /** The indices of an address built by the recursive mapper. */
  lemma BuiltIndices(pml4: Index, pdpt: Index, pd: Index, pt: Index)
    ensures var a := FromInfo(VAddrInfo(0, pt.value, pd.value, pdpt.value, pml4.value));
            && a & 0xfff == 0 && Canonical(a)
            && IndexAt(0, a) == pml4 && IndexAt(1, a) == pdpt && IndexAt(2, a) == pd && IndexAt(3, a) == pt
  {
    InfoOfFromInfo(VAddrInfo(0, pt.value, pd.value, pdpt.value, pml4.value));
  }

  /** In every state a mapper can meet, the pointer it makes for a table of the tree reaches that table. */
  lemma TableLands(m: Memory, r: Index, t: Tree, mapper: Mapper, level: nat, v: Word)
    requires mapper.recursionIndex == r
    requires if mapper.LocalMapper? then IsTree(m, r, t) else Recursive(m, r, t)
    requires level < 4 && PathTo(v, level) in t && IndexAt(0, v) != r
    ensures mapper.Reaches(m, t[Root], level, v)
    ensures Lands(m, t[Root], mapper.Table(m, t[Root], level, v), t[PathTo(v, level)])
  {
    hide Lands;
    if mapper.LocalMapper? {
      LocalLands(m, r, t, mapper, level, v);
    } else {
      RecursiveLands(m, r, t, mapper, level, v);
    }
  }

  /** Recursive refines local: in every finished state, the address `RecursiveMapper` builds for a table
      is translated by the hardware, with write access, to exactly the table that following child
      addresses reaches. */
  lemma RecursiveLands(m: Memory, r: Index, t: Tree, mapper: Mapper, level: nat, v: Word)
    requires mapper == RecursiveMapper(r) && Recursive(m, r, t)
    requires level < 4 && PathTo(v, level) in t && IndexAt(0, v) != r
    ensures mapper.Reaches(m, t[Root], level, v)
    ensures mapper.Table(m, t[Root], level, v).Virtual? && Canonical(mapper.Table(m, t[Root], level, v).addr)
    ensures Lands(m, t[Root], mapper.Table(m, t[Root], level, v), t[PathTo(v, level)])
  {
    hide IndexAt, Load, IsNodeTo, Lands, FromInfo, Canonical;
    AccessorsReach(m, r, t, mapper, level, v);
    var root, l, a := t[Root], t[PathTo(v, level)], mapper.Table(m, t[Root], level, v).addr;
    var i0, i1, i2 := IndexAt(0, v), IndexAt(1, v), IndexAt(2, v);
    NodesAbove(m, r, t, level, v);
    if level == 0 {
      BuiltIndices(r, r, r, r);
      ChainLands(m, root, root, root, root, l, a);
    } else if level == 1 {
      BuiltIndices(r, r, r, i0);
      ChainLands(m, root, root, root, root, l, a);
    } else if level == 2 {
      BuiltIndices(r, r, i0, i1);
      ChainLands(m, root, root, root, t[PathTo(v, 1)], l, a);
    } else {
      BuiltIndices(r, i0, i1, i2);
      ChainLands(m, root, root, t[PathTo(v, 1)], t[PathTo(v, 2)], l, a);
    }
  }

  lemma LocalLands(m: Memory, r: Index, t: Tree, mapper: Mapper, level: nat, v: Word)
    requires mapper == LocalMapper(r) && IsTree(m, r, t)
    requires level < 4 && PathTo(v, level) in t && IndexAt(0, v) != r
    ensures mapper.Reaches(m, t[Root], level, v)
    ensures Lands(m, t[Root], mapper.Table(m, t[Root], level, v), t[PathTo(v, level)])
  {
    hide IndexAt, Load;
    NodesAbove(m, r, t, level, v);
    AccessorsReach(m, r, t, mapper, level, v);
  }

  /** `unreachable_unchecked` is never reached on the way to a table of the tree. */
  lemma AccessorsReach(m: Memory, r: Index, t: Tree, mapper: Mapper, level: nat, v: Word)
    requires IsTree(m, r, t) && level < 4 && PathTo(v, level) in t && IndexAt(0, v) != r
    ensures mapper.Reaches(m, t[Root], level, v)
  {
    hide IndexAt, Load;
    NodesAbove(m, r, t, level, v);
  }

  /** The entries on the way to a table of the tree are node entries, and following them leads to it. */
  lemma {:induction false} NodesAbove(m: Memory, r: Index, t: Tree, level: nat, v: Word)
    requires IsTree(m, r, t) && level < 4 && PathTo(v, level) in t && IndexAt(0, v) != r
    ensures forall k: nat | k <= level :: PathTo(v, k) in t
    ensures forall k: nat | k < level :: IsNodeTo(Load(m, t[PathTo(v, k)], IndexAt(k, v)), t[PathTo(v, k + 1)])
  {
    if level > 0 {
      assert Sub(PathTo(v, level - 1), IndexAt(level - 1, v)) in t;
      NodesAbove(m, r, t, level - 1, v);
      assert EntryAgrees(m, t, PathTo(v, level - 1), IndexAt(level - 1, v));
    }
  }
}
