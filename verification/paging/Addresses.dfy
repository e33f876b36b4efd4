/** Virtual addresses of bootinfo/src/vaddr/x86_64/virt.rs: splitting into table indices and back. */
module Addresses {
  import opened Entries

  datatype EntryIndex = EntryIndex(value: Word)

  /** An index into a 512-entry table. */
  type Index = i: EntryIndex | i.value < 512 witness EntryIndex(0)

  datatype VAddrInfo = VAddrInfo(pageOffset: Word, ptIndex: Word, pdIndex: Word, pdptIndex: Word, pml4Index: Word)

  function Info(v: Word): VAddrInfo {
    VAddrInfo(v & 0xfff, (v >> 12) & 0x1ff, (v >> 21) & 0x1ff, (v >> 30) & 0x1ff, (v >> 39) & 0x1ff)
  }

  /** `(addr as isize) << 16 >> 16`: an arithmetic shift, so bit 47 is copied into bits 48 to 63. */
  function SignExtend48(a: Word): Word {
    var shifted := a << 16;
    (shifted >> 16) | (if shifted & 0x8000_0000_0000_0000 != 0 then 0xffff_0000_0000_0000 else 0)
  }

  function Fields(i: VAddrInfo): Word {
    (i.pageOffset & 0xfff) | ((i.ptIndex & 0x1ff) << 12) | ((i.pdIndex & 0x1ff) << 21) |
    ((i.pdptIndex & 0x1ff) << 30) | ((i.pml4Index & 0x1ff) << 39)
  }

  function FromInfo(i: VAddrInfo): Word {
    SignExtend48(Fields(i))
  }

  /** Section 3.3.7.1 of the Intel SDM, volume 1: bits 63 to 47 are all equal. */
  predicate Canonical(v: Word) {
    v & 0xffff_8000_0000_0000 == 0 || v & 0xffff_8000_0000_0000 == 0xffff_8000_0000_0000
  }

  predicate InRange(i: VAddrInfo) {
    i.pageOffset < 4096 && i.ptIndex < 512 && i.pdIndex < 512 && i.pdptIndex < 512 && i.pml4Index < 512
  }

  /** Building an address from fields and splitting it again gives the fields. */
  lemma InfoOfFromInfo(i: VAddrInfo)
    requires InRange(i)
    ensures Info(FromInfo(i)) == i && Canonical(FromInfo(i))
  {
  }

  /** Splitting a canonical address and rebuilding it gives the address; no other address survives. */
  lemma FromInfoOfInfo(v: Word)
    ensures InRange(Info(v))
    ensures FromInfo(Info(v)) == v <==> Canonical(v)
  {
    Recompose(v);
    if v & 0xffff_8000_0000_0000 == 0 {
      ExtendLow(v);
    } else if v & 0xffff_8000_0000_0000 == 0xffff_8000_0000_0000 {
      ExtendHigh(v);
    } else if SignExtend48(v) == v {
      ExtendIsCanonical(v);
    }
  }

  lemma Recompose(v: Word)
    ensures FromInfo(Info(v)) == SignExtend48(v)
  {
    FieldsCover(v);
    ExtendIgnoresHigh(v);
  }

  lemma FieldsCover(v: Word)
    ensures Fields(Info(v)) == v & 0x0000_ffff_ffff_ffff
  {
  }

  lemma ExtendIgnoresHigh(v: Word)
    ensures SignExtend48(v & 0x0000_ffff_ffff_ffff) == SignExtend48(v)
  {
  }

  lemma ExtendLow(v: Word)
    requires v & 0xffff_8000_0000_0000 == 0
    ensures SignExtend48(v) == v
  {
  }

  lemma ExtendHigh(v: Word)
    requires v & 0xffff_8000_0000_0000 == 0xffff_8000_0000_0000
    ensures SignExtend48(v) == v
  {
  }

  lemma ExtendIsCanonical(v: Word)
    ensures Canonical(SignExtend48(v))
  {
  }

  /** The index `v` uses in the table at distance `level` from the root (0 is the PML4). */
  function IndexAt(level: nat, v: Word): Index
    requires level < 4
  {
    var i := Info(v);
    EntryIndex(if level == 0 then i.pml4Index
               else if level == 1 then i.pdptIndex
               else if level == 2 then i.pdIndex
               else i.ptIndex)
  }

  /** The page bits of an address: two addresses lie in one 4 KiB page exactly when these agree. */
  function Page(v: Word): Word {
    v & 0x0000_ffff_ffff_f000
  }

  lemma SamePage(u: Word, v: Word)
    ensures Page(u) == Page(v) <==> forall k: nat | k < 4 :: IndexAt(k, u) == IndexAt(k, v)
  {
    if Page(u) == Page(v) {
      PageGivesFields(u, v);
    }
    if forall k: nat | k < 4 :: IndexAt(k, u) == IndexAt(k, v) {
      assert IndexAt(0, u) == IndexAt(0, v) && IndexAt(1, u) == IndexAt(1, v);
      assert IndexAt(2, u) == IndexAt(2, v) && IndexAt(3, u) == IndexAt(3, v);
      FieldsGivePage(Info(u), Info(v), u, v);
    }
  }

  lemma PageGivesFields(u: Word, v: Word)
    requires Page(u) == Page(v)
    ensures Info(u) == Info(v).(pageOffset := u & 0xfff)
  {
  }

  lemma FieldsGivePage(i: VAddrInfo, j: VAddrInfo, u: Word, v: Word)
    requires i == Info(u) && j == Info(v)
    requires i == j.(pageOffset := i.pageOffset)
    ensures Page(u) == Page(v)
  {
    PageOfFields(u);
    PageOfFields(v);
  }

  lemma PageOfFields(v: Word)
    ensures var i := Info(v);
            Page(v) == (i.ptIndex << 12) | (i.pdIndex << 21) | (i.pdptIndex << 30) | (i.pml4Index << 39)
  {
  }

  /** The four indices, nine bits each from bit 39 down, are the page bits of the address. */
  lemma IndicesArePage(v: Word)
    ensures (IndexAt(0, v).value << 39) | (IndexAt(1, v).value << 30) | (IndexAt(2, v).value << 21) |
            (IndexAt(3, v).value << 12) == v & 0x0000_ffff_ffff_f000
  {
    PageOfFields(v);
    IndexFields(v);
    hide Info, IndexAt;
    Reordered(Info(v).ptIndex << 12, Info(v).pdIndex << 21, Info(v).pdptIndex << 30, Info(v).pml4Index << 39);
  }

  lemma IndexFields(v: Word)
    ensures IndexAt(0, v).value == Info(v).pml4Index && IndexAt(1, v).value == Info(v).pdptIndex
    ensures IndexAt(2, v).value == Info(v).pdIndex && IndexAt(3, v).value == Info(v).ptIndex
  {
    hide Info;
  }

  lemma Reordered(a: Word, b: Word, c: Word, d: Word)
    ensures a | b | c | d == d | c | b | a
  {
  }

  /** Entry `i` of a table that starts at a page-aligned address stays within that table's page. */
  lemma EntryAddress(a: Word, i: Index)
    requires a & 0xfff == 0
    ensures Page(a + (i.value << 3)) == Page(a)
    ensures (a + (i.value << 3)) & 0xfff == i.value << 3
    ensures (i.value << 3) >> 3 == i.value
  {
    IndexBytes(i);
    AddOffset(a, i.value << 3);
  }

  lemma IndexBytes(i: Index)
    ensures (i.value << 3) & 0xfff == i.value << 3
    ensures (i.value << 3) >> 3 == i.value
  {
  }

  /** Adding an offset below 4096 to a page-aligned address touches the offset bits only. */
  lemma AddOffset(a: Word, b: Word)
    requires a & 0xfff == 0 && b & 0xfff == b
    ensures a + b == a | b
    ensures Page(a + b) == Page(a)
    ensures (a + b) & 0xfff == b
  {
    AddIsOr(a, b);
  }

  lemma AddIsOr(a: Word, b: Word)
    requires a & 0xfff == 0 && b & 0xfff == b
    ensures a + b == a | b
  {
  }
}
