/** What bootloader/src/main.rs takes from the kernel's own ELF file while it is compiled: the segments to
    load, and the address of the section for the boot information. */
module KernelImage {
  import opened Common
  import opened ElfFiles
  import opened ElfTables
  import opened Leb128

  /** `KERNEL_SEGMENTS`: an error or a segment of another alignment ends the compilation. */
  method KernelSegments(elf: Elf64) returns (segments: Option<seq<Segment>>)
    requires elf.Valid()
    ensures segments.Some? ==>
              && (forall n | 0 <= n < |segments.value| ::
                    elf.Programs().Program(n) == Some(Ok(segments.value[n])) && IsPageAligned(segments.value[n]))
              && elf.Programs().Program(|segments.value|) == None
    ensures segments.None? ==> exists n: nat :: IsRefused(elf.Programs(), n)
  {
    hide Table.Program, IntFit, elf.Programs, elf.Valid;
    var t := elf.Programs();
    var programs := elf.ProgramSegments();
    var out: seq<Segment> := [];
    ghost var calls: nat := 0;
    while true
      invariant programs.Valid() && programs.calls == calls == |out| <= t.len && programs.table == t
      invariant fresh(programs) && fresh(programs.programTableReader)
      invariant forall n | 0 <= n < |out| :: t.Program(n) == Some(Ok(out[n])) && IsPageAligned(out[n])
      decreases t.len - calls
    {
      NoMore(t, calls);
      var item := programs.Next();
      match item {
        case None =>
          return Some(out);
        case Some(Err(e)) =>
          assert IsRefused(t, calls);
          return None;
        case Some(Ok(segment)) =>
          if !IsPageAligned(segment) {
            assert IsRefused(t, calls);
            return None;
          }
          out := out + [segment];
          calls := calls + 1;
      }
    }
  }

  predicate IsPageAligned(segment: Segment) {
    segment.alignment == 4096
  }

  lemma PageAlignmentIs(segment: Segment)
    ensures IsPageAligned(segment) <==> segment.alignment == 4096
  {
  }

  /** Item `n` stops the compilation. */
  predicate IsRefused(t: Table, n: nat)
    requires t.InFile()
  {
    t.Program(n).Some? && (t.Program(n).value.Ok? ==> !IsPageAligned(t.Program(n).value.value))
  }

  lemma NoMore(t: Table, n: nat)
    requires t.InFile()
    ensures n >= t.len ==> t.Program(n) == None && t.Section(n) == None
  {
  }

  /** When the table fits, there is one segment for each declared header, which fills the array. */
  lemma AllSegments(t: Table, segments: seq<Segment>)
    requires t.InFile() && TableFits(t.Size(), t.stride, t.len, PROGRAM_HEADER_SIZE)
    requires forall n | 0 <= n < |segments| :: t.Program(n) == Some(Ok(segments[n]))
    requires t.Program(|segments|) == None
    ensures |segments| == t.len
  {
    ItemsAre(t, |segments|);
    ItemsAre(t, t.len);
  }

  lemma ItemsAre(t: Table, n: nat)
    requires t.InFile() && TableFits(t.Size(), t.stride, t.len, PROGRAM_HEADER_SIZE)
    ensures t.Program(n).Some? <==> n < t.len
  {
    hide Table.Program;
    NoMore(t, n);
    if n < t.len {
      t.ProgramInPlace(n);
    }
  }

  // ----- The boot information

  const BOOTINFO: seq<Byte> := [0x2E, 0x62, 0x6F, 0x6F, 0x74, 0x69, 0x6E, 0x66, 0x6F]

  lemma NameOfBootInfo()
    ensures |BOOTINFO| == |".bootinfo"| && forall k | 0 <= k < |BOOTINFO| :: BOOTINFO[k] as char == ".bootinfo"[k]
  {
  }

  /** The bytes at the section's name offset, up to a zero byte or the end of the string table. */
  predicate IsNamed(section: Section, elf: Elf64, name: seq<Byte>) {
    var data, start := elf.stringTable.data, section.nameOffset;
    && start + |name| <= |data| && data[start..start + |name|] == name && 0 !in name
    && (start + |name| < |data| ==> data[start + |name|] == 0)
  }

  /** A name ends nowhere inside another at the same place. */
  lemma AtLeastAsLong(data: seq<Byte>, start: nat, a: seq<Byte>, b: seq<Byte>)
    requires start + |b| <= |data| && data[start..start + |b|] == b && 0 !in b
    requires start + |a| < |data| ==> data[start + |a|] == 0
    ensures |b| <= |a|
  {
    forall k | start <= k < start + |b| ensures data[k] != 0 {
      assert data[k] == data[start..start + |b|][k - start] == b[k - start];
    }
  }

  lemma NamesAreUnique(section: Section, elf: Elf64, a: seq<Byte>, b: seq<Byte>)
    requires IsNamed(section, elf, a) && IsNamed(section, elf, b)
    ensures a == b
  {
    AtLeastAsLong(elf.stringTable.data, section.nameOffset, a, b);
    AtLeastAsLong(elf.stringTable.data, section.nameOffset, b, a);
  }

  /** Section `n` can be read, has a name, and that is not the one looked for. */
  predicate IsPassed(elf: Elf64, n: nat)
    requires elf.Valid()
  {
    var item := elf.Sections().Section(n);
    && item.Some? && item.value.Ok?
    && item.value.value.nameOffset <= |elf.stringTable.data| && !IsNamed(item.value.value, elf, BOOTINFO)
  }

  predicate IsFound(elf: Elf64, n: nat)
    requires elf.Valid()
  {
    var item := elf.Sections().Section(n);
    item.Some? && item.value.Ok? && IsNamed(item.value.value, elf, BOOTINFO)
  }

  /** `next_multiple_of(PAGE_SIZE)`. */
  function NextMultiple(n: nat): nat {
    (n + PAGE_SIZE - 1) / PAGE_SIZE * PAGE_SIZE
  }

  /** The least multiple of a page that is not below `n`. */
  predicate IsLeastMultiple(multiple: nat, n: nat) {
    multiple % 4096 == 0 && n <= multiple < n + 4096
  }

  lemma LeastMultiple(n: nat)
    ensures IsLeastMultiple(NextMultiple(n), n) && (NextMultiple(n) == 0 <==> n == 0)
  {
  }

  /** `KERNEL_BOOTINFO_ADDRESS`: the first section of the name, rounded up to a page. None stands for a
      panic, which ends the compilation; so does a sum that leaves 64 bits. */
  method BootInfoAddress(elf: Elf64) returns (address: Option<nat>)
    requires elf.Valid()
    ensures address.Some? ==>
              exists k: nat ::
                && IsFound(elf, k) && (forall n: nat | n < k :: IsPassed(elf, n))
                && 0 < address.value < 0x1_0000_0000_0000_0000
                && IsLeastMultiple(address.value, IntFit(elf.Sections().Section(k).value.value.virtualAddress))
    ensures address.None? ==>
              exists k: nat ::
                && (forall n: nat | n < k :: IsPassed(elf, n)) && !IsPassed(elf, k)
                && (IsFound(elf, k) ==>
                      var at := IntFit(elf.Sections().Section(k).value.value.virtualAddress);
                      at == 0 || at > 0xffff_ffff_ffff_f000)
  {
    hide Table.Section, IntFit, elf.Sections, elf.Valid, IsNamed;
    var t := elf.Sections();
    var sections := elf.AllSections();
    ghost var k: nat := 0;
    while true
      invariant sections.Valid() && sections.calls == k <= t.len && sections.table == t
      invariant fresh(sections) && fresh(sections.sectionTableReader)
      invariant forall n: nat | n < k :: IsPassed(elf, n)
      decreases t.len - k
    {
      NoMore(t, k);
      var item := sections.Next();
      if item.None? || item.value.Err? || item.value.value.nameOffset > |elf.stringTable.data| {
        NotNamedBeyond(elf, k);
        return None;
      }
      var section := item.value.value;
      var name := Name(section, elf);
      NameIs(section, elf, name);
      if name == BOOTINFO {
        var found := NextMultiple(IntFit(section.virtualAddress));
        LeastMultiple(IntFit(section.virtualAddress));
        return if found == 0 || found >= 0x1_0000_0000_0000_0000 then None else Some(found);
      }
      if IsNamed(section, elf, BOOTINFO) {
        NamesAreUnique(section, elf, name, BOOTINFO);
      }
      k := k + 1;
    }
  }

  lemma NameIs(section: Section, elf: Elf64, name: seq<Byte>)
    requires
      var data, start := elf.stringTable.data, section.nameOffset;
      && start + |name| <= |data| && name == data[start..start + |name|] && 0 !in name
      && (start + |name| < |data| ==> data[start + |name|] == 0)
    ensures IsNamed(section, elf, name)
  {
  }

  lemma NotNamedBeyond(elf: Elf64, n: nat)
    requires elf.Valid()
    ensures
      var item := elf.Sections().Section(n);
      item.Some? && item.value.Ok? && item.value.value.nameOffset > |elf.stringTable.data| ==> !IsFound(elf, n)
  {
  }
}
