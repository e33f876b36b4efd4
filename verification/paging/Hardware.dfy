/** Physical memory seen as page tables, and the four-level walk of section 4.5 of the Intel SDM,
    volume 3A. The walk is the reference every mapping claim of this project is stated against. */
module Hardware {
  import opened Entries
  import opened Addresses

  /** Where a table lives: a physical frame, or the builder's own PML4 held outside physical frames. */
  datatype Loc = Local | Phys(addr: Word)

  /** A table of 512 entries; an index that is not listed holds the zero entry. */
  type Table = map<Index, Word>

  type Memory = map<Loc, Table>

  function Load(m: Memory, l: Loc, i: Index): Word {
    if l in m && i in m[l] then m[l][i] else 0
  }

  function Store(m: Memory, l: Loc, i: Index, e: Word): Memory {
    m[l := (if l in m then m[l] else map[])[i := e]]
  }

  /** What a linear address translates to: a page `base`, the offset bits kept from the address, the access
      rights of section 4.6, which are the conjunction over all entries used, and the entry that ends the
      walk, which holds the page's other attributes. */
  datatype Translation = Fault | Mapped(base: Word, offsetMask: Word, writable: bool, user: bool, leaf: Word) {
    function Restrict(e: Word): Translation {
      if Fault? then Fault else Mapped(base, offsetMask, writable && IsWritable(e), user && IsUser(e), leaf)
    }

    function Address(v: Word): Word
      requires Mapped?
    {
      Splice(base, v & offsetMask)
    }
  }

  /** A physical address: page base and offset bits side by side. */
  function Splice(base: Word, offset: Word): Word {
    base | offset
  }

  function LeafAddr(level: nat, e: Word): Word {
    if level == 1 then e & PDPT_LEAF_ADDRESS_MASK else if level == 2 then e & PD_LEAF_ADDRESS_MASK else ChildAddr(e)
  }

  function LeafOffsetMask(level: nat): Word {
    if level == 1 then 0x3fff_ffff else if level == 2 then 0x1f_ffff else 0xfff
  }

  /** `e`, found at `level`, ends the walk: always at the PT, at PDPT and PD when bit 7 is set. */
  predicate IsLeafAt(level: nat, e: Word) {
    level == 3 || (level != 0 && IsHuge(e))
  }

  function Walk(m: Memory, l: Loc, level: nat, v: Word): Translation
    requires level < 4
    decreases 4 - level
  {
    var e := Load(m, l, IndexAt(level, v));
    if !IsPresent(e) then Fault
    else if level == 3 || IsLeafAt(level, e) then
      Mapped(LeafAddr(level, e), LeafOffsetMask(level), IsWritable(e), IsUser(e), e)
    else Walk(m, Phys(ChildAddr(e)), level + 1, v).Restrict(e)
  }

  lemma LoadStore(m: Memory, l: Loc, i: Index, e: Word, k: Loc, j: Index)
    ensures Load(Store(m, l, i, e), k, j) == if k == l && j == i then e else Load(m, k, j)
  {
  }

  /** The last step of a walk, and a step through an entry that is no leaf. */
  lemma WalkStep(m: Memory, l: Loc, level: nat, u: Word)
    requires level < 4
    ensures var e := Load(m, l, IndexAt(level, u));
            && (level == 3 && IsPresent(e) ==>
                  Walk(m, l, level, u) == Mapped(ChildAddr(e), 0xfff, IsWritable(e), IsUser(e), e))
            && (level < 3 && IsPresent(e) && !IsLeafAt(level, e) ==>
                  Walk(m, l, level, u) == Walk(m, Phys(ChildAddr(e)), level + 1, u).Restrict(e))
  {
  }

  /** Two tables translate `u` alike if they agree on the entry used there and, when that entry refers
      to a further table, from that table on. */
  lemma WalkCongruence(m: Memory, l: Loc, m': Memory, l': Loc, level: nat, u: Word)
    requires level < 4
    requires var e := Load(m, l, IndexAt(level, u));
             && Load(m', l', IndexAt(level, u)) == e
             && (IsPresent(e) && !IsLeafAt(level, e) ==>
                   Walk(m', Phys(ChildAddr(e)), level + 1, u) == Walk(m, Phys(ChildAddr(e)), level + 1, u))
    ensures Walk(m', l', level, u) == Walk(m, l, level, u)
  {
  }

  ghost predicate IsZeroed(m: Memory, l: Loc) {
    forall i: Index :: Load(m, l, i) == 0
  }

  lemma ZeroedFaults(m: Memory, l: Loc, level: nat, u: Word)
    requires level < 4 && IsZeroed(m, l)
    ensures Walk(m, l, level, u) == Fault
  {
  }
}
