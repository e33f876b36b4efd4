/** Page-table entries of bootinfo/src/vaddr/x86_64/phys.rs, bit for bit, on 64-bit words. */
module Entries {

  /** `usize` on the only supported architecture. */
  type Word = bv64

  const PRESENT: Word := 1
  const WRITABLE: Word := 2
  const USER_MODE: Word := 4
  const WRITE_THROUGH: Word := 8
  const CACHE_DISABLED: Word := 16
  const ACCESSED: Word := 32
  const UNION_IS_LEAF: Word := 128
  const GLOBAL: Word := 256

  /** Address bits of a node entry and of a 4 KiB leaf; of a 2 MiB leaf; of a 1 GiB leaf. */
  const PAGE_ADDRESS_MASK: Word := 0x000f_ffff_ffff_f000
  const PD_LEAF_ADDRESS_MASK: Word := 0x000f_ffff_ffe0_0000
  const PDPT_LEAF_ADDRESS_MASK: Word := 0x000f_ffff_c000_0000

  const VFLAG_WRITABLE: Word := 1
  const VFLAG_USER_MODE: Word := 2
  const VFLAG_WRITE_THROUGH: Word := 4
  const VFLAG_CACHE_DISABLED: Word := 8
  const VFLAG_ACCESSED: Word := 16
  const VFLAG_GLOBAL: Word := 32

  predicate Contains(flags: Word, flag: Word) {
    flags & flag == flag
  }

  predicate IsPresent(e: Word) {
    e & PRESENT != 0
  }

  predicate IsWritable(e: Word) {
    e & WRITABLE != 0
  }

  predicate IsUser(e: Word) {
    e & USER_MODE != 0
  }

  /** `kind()` of a PDPT or PD entry answers `Leaf`. */
  predicate IsHuge(e: Word) {
    e & UNION_IS_LEAF != 0
  }

  /** Nothing is set but the address, PRESENT and WRITABLE: not execute-disable, not a caching bit, not
      ACCESSED, no available bit. */
  predicate IsBareNode(e: Word) {
    e & 0xfff0_0000_0000_0ffc == 0
  }

  function ChildAddr(e: Word): Word {
    e & PAGE_ADDRESS_MASK
  }

  /** `From<VFlags> for Entry`: one bit at a time, as the source accumulates them. */
  function EntryFlags(flags: Word): Word {
    var out := 0;
    var out := if Contains(flags, VFLAG_WRITABLE) then out | WRITABLE else out;
    var out := if Contains(flags, VFLAG_USER_MODE) then out | USER_MODE else out;
    var out := if Contains(flags, VFLAG_WRITE_THROUGH) then out | WRITE_THROUGH else out;
    var out := if Contains(flags, VFLAG_CACHE_DISABLED) then out | CACHE_DISABLED else out;
    if Contains(flags, VFLAG_ACCESSED) then out | ACCESSED else out
  }

  /** `NodeEntry::new` and `PtEntry::new` share this packing. */
  function Pack(entry: Word, addr: Word): Word {
    ((entry | PRESENT) & !PAGE_ADDRESS_MASK) | (addr & PAGE_ADDRESS_MASK)
  }

  function NewNode(child: Word): Word {
    Pack(WRITABLE, child)
  }

  /** The entry the last arm of `VirtualMap::map` writes. */
  function NewPage(flags: Word, addr: Word): Word {
    Pack(EntryFlags(flags), addr) | (if Contains(flags, VFLAG_GLOBAL) then GLOBAL else 0)
  }

  /** A physical address a table can live at: page aligned and below 2^52. */
  predicate IsFrame(addr: Word) {
    addr & !PAGE_ADDRESS_MASK == 0
  }

  /** A node entry is the address of its child with bits 0 and 1 set: it gives back the child, is present,
      writable, supervisor and not huge, and sets no other bit. */
  lemma NodeRoundTrip(child: Word)
    requires IsFrame(child)
    ensures NewNode(child) == child | 3
    ensures ChildAddr(NewNode(child)) == child && IsBareNode(NewNode(child))
    ensures IsPresent(NewNode(child)) && IsWritable(NewNode(child))
    ensures !IsUser(NewNode(child)) && !IsHuge(NewNode(child))
  {
  }

  /** Packing keeps the address bits of one argument and the flag bits of the other. */
  lemma PackSeparates(entry: Word, addr: Word)
    ensures ChildAddr(Pack(entry, addr)) == addr & PAGE_ADDRESS_MASK
    ensures Pack(entry, addr) & !PAGE_ADDRESS_MASK == (entry | PRESENT) & !PAGE_ADDRESS_MASK
  {
  }

  /** The five translated flags land on their own bits and on no other. */
  lemma FlagsTranslate(flags: Word)
    ensures var e := EntryFlags(flags);
            && (IsWritable(e) <==> Contains(flags, VFLAG_WRITABLE))
            && (IsUser(e) <==> Contains(flags, VFLAG_USER_MODE))
            && (e & WRITE_THROUGH != 0 <==> Contains(flags, VFLAG_WRITE_THROUGH))
            && (e & CACHE_DISABLED != 0 <==> Contains(flags, VFLAG_CACHE_DISABLED))
            && (e & ACCESSED != 0 <==> Contains(flags, VFLAG_ACCESSED))
            && e & !0x3e == 0
  {
  }

  /** A packed leaf gives back the page of its address. */
  lemma PageAddress(flags: Word, addr: Word)
    ensures ChildAddr(NewPage(flags, addr)) == addr & PAGE_ADDRESS_MASK
  {
    hide Pack, EntryFlags, Contains, ChildAddr;
    PageRoundTrip(flags, addr);
  }

  /** A packed leaf gives back the page of its address, sets exactly the translated flags below bit 6
      and the global bit, and sets no other bit: never the PAT, never execute-disable. */
  lemma PageRoundTrip(flags: Word, addr: Word)
    ensures ChildAddr(NewPage(flags, addr)) == addr & PAGE_ADDRESS_MASK
    ensures IsFrame(addr) ==> ChildAddr(NewPage(flags, addr)) == addr
    ensures NewPage(flags, addr) & 0x3f == EntryFlags(flags) | PRESENT
    ensures NewPage(flags, addr) & GLOBAL != 0 <==> Contains(flags, VFLAG_GLOBAL)
    ensures NewPage(flags, addr) & !(PAGE_ADDRESS_MASK | 0x13f) == 0
  {
    hide Pack, EntryFlags, Contains, IsWritable, IsUser, ChildAddr;
    FlagsTranslate(flags);
    PageBits(EntryFlags(flags), addr, if Contains(flags, VFLAG_GLOBAL) then GLOBAL else 0);
    if IsFrame(addr) {
      FrameMasked(addr);
    }
  }

  lemma PageBits(entry: Word, addr: Word, global: Word)
    requires entry & !0x3e == 0 && (global == 0 || global == GLOBAL)
    ensures var e := Pack(entry, addr) | global;
            && ChildAddr(e) == addr & PAGE_ADDRESS_MASK
            && e & 0x3f == entry | PRESENT
            && e & GLOBAL == global
            && e & !(PAGE_ADDRESS_MASK | 0x13f) == 0
  {
  }

  /** A leaf, bit for bit: the flags below GLOBAL one bit up, GLOBAL three bits up, and bit 0. */
  lemma PageWord(flags: Word, addr: Word)
    ensures NewPage(flags, addr) ==
            (addr & 0x000f_ffff_ffff_f000) | ((flags & 0x1f) << 1) | ((flags & 0x20) << 3) | 1
  {
    hide EntryFlags, Pack, Contains;
    FlagsWord(flags);
    PackWord(EntryFlags(flags), addr);
    GlobalWord(flags);
    Rearranged(addr & 0x000f_ffff_ffff_f000, EntryFlags(flags), if Contains(flags, VFLAG_GLOBAL) then GLOBAL else 0);
  }

  lemma FlagsWord(flags: Word)
    ensures EntryFlags(flags) == (flags & 0x1f) << 1
  {
  }

  lemma PackWord(entry: Word, addr: Word)
    requires entry & !0x3e == 0
    ensures Pack(entry, addr) == (addr & 0x000f_ffff_ffff_f000) | entry | 1
  {
  }

  lemma GlobalWord(flags: Word)
    ensures (if Contains(flags, VFLAG_GLOBAL) then GLOBAL else 0) == (flags & 0x20) << 3
  {
  }

  lemma Rearranged(a: Word, b: Word, c: Word)
    ensures a | b | 1 | c == a | b | c | 1
  {
  }

  lemma FrameMasked(addr: Word)
    requires IsFrame(addr)
    ensures addr & PAGE_ADDRESS_MASK == addr
  {
  }

  /** The rights a leaf grants are the ones asked for. */
  lemma PageRights(flags: Word, addr: Word)
    ensures IsPresent(NewPage(flags, addr))
    ensures IsWritable(NewPage(flags, addr)) <==> Contains(flags, VFLAG_WRITABLE)
    ensures IsUser(NewPage(flags, addr)) <==> Contains(flags, VFLAG_USER_MODE)
  {
    hide EntryFlags, NewPage, Contains;
    PageRoundTrip(flags, addr);
    FlagsTranslate(flags);
    LowBits(NewPage(flags, addr), EntryFlags(flags));
  }

  lemma LowBits(e: Word, entry: Word)
    requires e & 0x3f == entry | PRESENT
    ensures e & PRESENT == PRESENT
    ensures e & WRITABLE == entry & WRITABLE
    ensures e & USER_MODE == entry & USER_MODE
  {
  }
}
