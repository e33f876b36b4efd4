/** The ELF reader of elf/src/lib.rs. */
module ElfFiles {
  import opened Common
  import opened Leb128
  import opened PackedWords
  import opened ElfTables

  datatype ElfError =
    | InvalidMagic(magic: seq<Byte>)
    | InvalidArch(arch: Byte)
    | MissingStringTable
    | Eof
    | Panicked   // 32-bit files

  type Checked<T> = Result<T, ElfError>

  const PROLOGUE_SIZE: nat := 24
  const HEADER_SIZE: nat := 40
  const PROGRAM_HEADER_SIZE: nat := 56
  const SECTION_HEADER_SIZE: nat := 64

  datatype ElfHeader = ElfHeader(entry: Word, programTable: Word, sectionTable: Word, flags: Word, headerSize: Word,
                                 programStride: Word, programs: Word, sectionStride: Word, sections: Word,
                                 stringIndex: Word)

  /** The 64-bit header that follows the prologue. */
  function HeaderOf(bytes: seq<Byte>): ElfHeader
    requires |bytes| == HEADER_SIZE
  {
    ElfHeader(LittleEndian(bytes, 0, 8), LittleEndian(bytes, 8, 8), LittleEndian(bytes, 16, 8),
              LittleEndian(bytes, 24, 4), LittleEndian(bytes, 28, 2), LittleEndian(bytes, 30, 2),
              LittleEndian(bytes, 32, 2), LittleEndian(bytes, 34, 2), LittleEndian(bytes, 36, 2),
              LittleEndian(bytes, 38, 2))
  }

  /** The header, with its fields in the order and of the sizes that the format prescribes. */
  function EncodeHeader(h: ElfHeader): seq<Byte> {
    EncodeWord(h.entry, 8) + (EncodeWord(h.programTable, 8) + (EncodeWord(h.sectionTable, 8) + (
    EncodeWord(h.flags, 4) + (EncodeWord(h.headerSize, 2) + EncodeHeaderBack(h)))))
  }

  predicate HeaderFits(h: ElfHeader) {
    && FitsBytes(h.flags, 4) && FitsBytes(h.headerSize, 2) && FitsBytes(h.programStride, 2)
    && FitsBytes(h.programs, 2) && FitsBytes(h.sectionStride, 2) && FitsBytes(h.sections, 2)
    && FitsBytes(h.stringIndex, 2)
  }

  datatype ProgramHeader = ProgramHeader(segmentType: Word, flags: Word, offset: Word, virtualAddress: Word,
                                         physicalAddress: Word, fileSize: Word, memorySize: Word, alignment: Word)

  function ProgramHeaderOf(bytes: seq<Byte>): ProgramHeader
    requires |bytes| == PROGRAM_HEADER_SIZE
  {
    ProgramHeader(LittleEndian(bytes, 0, 4), LittleEndian(bytes, 4, 4), LittleEndian(bytes, 8, 8),
                  LittleEndian(bytes, 16, 8), LittleEndian(bytes, 24, 8), LittleEndian(bytes, 32, 8),
                  LittleEndian(bytes, 40, 8), LittleEndian(bytes, 48, 8))
  }

  /** A program header, with its fields in the order and of the sizes that the format prescribes. */
  function EncodeProgramHeader(h: ProgramHeader): seq<Byte> {
    EncodeWord(h.segmentType, 4) + (EncodeWord(h.flags, 4) + (EncodeWord(h.offset, 8) + (
    EncodeWord(h.virtualAddress, 8) + (EncodeWord(h.physicalAddress, 8) + (EncodeWord(h.fileSize, 8) + (
    EncodeWord(h.memorySize, 8) + (EncodeWord(h.alignment, 8))))))))
  }

  predicate ProgramHeaderFits(h: ProgramHeader) {
    && FitsBytes(h.segmentType, 4) && FitsBytes(h.flags, 4)
  }

  datatype SectionHeader = SectionHeader(nameOffset: Word, sectionType: Word, flags: Word, virtualAddress: Word,
                                         offset: Word, size: Word, link: Word, info: Word, alignment: Word,
                                         entrySize: Word)

  function SectionHeaderOf(bytes: seq<Byte>): SectionHeader
    requires |bytes| == SECTION_HEADER_SIZE
  {
    SectionHeader(LittleEndian(bytes, 0, 4), LittleEndian(bytes, 4, 4), LittleEndian(bytes, 8, 8),
                  LittleEndian(bytes, 16, 8), LittleEndian(bytes, 24, 8), LittleEndian(bytes, 32, 8),
                  LittleEndian(bytes, 40, 4), LittleEndian(bytes, 44, 4), LittleEndian(bytes, 48, 8),
                  LittleEndian(bytes, 56, 8))
  }

  /** A section header, with its fields in the order and of the sizes that the format prescribes. */
  function EncodeSectionHeader(h: SectionHeader): seq<Byte> {
    EncodeWord(h.nameOffset, 4) + (EncodeWord(h.sectionType, 4) + (EncodeWord(h.flags, 8) + (
    EncodeWord(h.virtualAddress, 8) + (EncodeWord(h.offset, 8) + EncodeSectionHeaderBack(h)))))
  }

  predicate SectionHeaderFits(h: SectionHeader) {
    && FitsBytes(h.nameOffset, 4) && FitsBytes(h.sectionType, 4) && FitsBytes(h.link, 4) && FitsBytes(h.info, 4)
  }

  /** The second half of the fields. */
  function EncodeHeaderBack(h: ElfHeader): seq<Byte> {
    EncodeWord(h.programStride, 2) + (EncodeWord(h.programs, 2) + (EncodeWord(h.sectionStride, 2) + (
    EncodeWord(h.sections, 2) + (EncodeWord(h.stringIndex, 2)))))
  }

  lemma HeaderFront(bytes: seq<Byte>, h: ElfHeader)
    requires bytes == EncodeHeader(h) && HeaderFits(h)
    ensures 30 <= |bytes| && |bytes| == 30 + |EncodeHeaderBack(h)| && Holds(bytes, 30, EncodeHeaderBack(h))
    ensures
      && LittleEndian(bytes, 0, 8) == h.entry
      && LittleEndian(bytes, 8, 8) == h.programTable
      && LittleEndian(bytes, 16, 8) == h.sectionTable
      && LittleEndian(bytes, 24, 4) == h.flags
      && LittleEndian(bytes, 28, 2) == h.headerSize
  {
    hide Holds, FitsBytes, LittleEndian, EncodeWord, EncodeHeaderBack;
    HoldsItself(bytes);
    EightBytes(h.entry);
    EightBytes(h.programTable);
    EightBytes(h.sectionTable);
    var r5 := EncodeHeaderBack(h);
    var r4 := EncodeWord(h.headerSize, 2) + r5;
    var r3 := EncodeWord(h.flags, 4) + r4;
    var r2 := EncodeWord(h.sectionTable, 8) + r3;
    var r1 := EncodeWord(h.programTable, 8) + r2;
    TakeField(bytes, 0, h.entry, 8, r1);
    TakeField(bytes, 8, h.programTable, 8, r2);
    TakeField(bytes, 16, h.sectionTable, 8, r3);
    TakeField(bytes, 24, h.flags, 4, r4);
    TakeField(bytes, 28, h.headerSize, 2, r5);
  }

  lemma HeaderBack(bytes: seq<Byte>, h: ElfHeader)
    requires Holds(bytes, 30, EncodeHeaderBack(h)) && HeaderFits(h)
    ensures |EncodeHeaderBack(h)| == 10 && 40 <= |bytes|
    ensures
      && LittleEndian(bytes, 30, 2) == h.programStride
      && LittleEndian(bytes, 32, 2) == h.programs
      && LittleEndian(bytes, 34, 2) == h.sectionStride
      && LittleEndian(bytes, 36, 2) == h.sections
      && LittleEndian(bytes, 38, 2) == h.stringIndex
  {
    hide Holds, FitsBytes, LittleEndian, EncodeWord;
    var r9 := EncodeWord(h.stringIndex, 2);
    var r8 := EncodeWord(h.sections, 2) + r9;
    var r7 := EncodeWord(h.sectionStride, 2) + r8;
    var r6 := EncodeWord(h.programs, 2) + r7;
    TakeField(bytes, 30, h.programStride, 2, r6);
    TakeField(bytes, 32, h.programs, 2, r7);
    TakeField(bytes, 34, h.sectionStride, 2, r8);
    TakeField(bytes, 36, h.sections, 2, r9);
    LastField(bytes, 38, h.stringIndex, 2);
  }

  /** Every field of the header is read from its place. */
  lemma HeaderRoundTrip(bytes: seq<Byte>, h: ElfHeader)
    requires bytes == EncodeHeader(h) && HeaderFits(h)
    ensures |bytes| == HEADER_SIZE && HeaderOf(bytes) == h
  {
    hide LittleEndian, EncodeHeader, EncodeHeaderBack, HeaderFits;
    HeaderFront(bytes, h);
    HeaderBack(bytes, h);
  }

  /** Every field of a program header is read from its place. */
  lemma ProgramHeaderRoundTrip(bytes: seq<Byte>, h: ProgramHeader)
    requires bytes == EncodeProgramHeader(h) && ProgramHeaderFits(h)
    ensures |bytes| == PROGRAM_HEADER_SIZE && ProgramHeaderOf(bytes) == h
  {
    hide Holds, FitsBytes, LittleEndian, EncodeWord;
    HoldsItself(bytes);
    EightBytes(h.offset);
    EightBytes(h.virtualAddress);
    EightBytes(h.physicalAddress);
    EightBytes(h.fileSize);
    EightBytes(h.memorySize);
    EightBytes(h.alignment);
    var r7 := EncodeWord(h.alignment, 8);
    var r6 := EncodeWord(h.memorySize, 8) + r7;
    var r5 := EncodeWord(h.fileSize, 8) + r6;
    var r4 := EncodeWord(h.physicalAddress, 8) + r5;
    var r3 := EncodeWord(h.virtualAddress, 8) + r4;
    var r2 := EncodeWord(h.offset, 8) + r3;
    var r1 := EncodeWord(h.flags, 4) + r2;
    TakeField(bytes, 0, h.segmentType, 4, r1);
    TakeField(bytes, 4, h.flags, 4, r2);
    TakeField(bytes, 8, h.offset, 8, r3);
    TakeField(bytes, 16, h.virtualAddress, 8, r4);
    TakeField(bytes, 24, h.physicalAddress, 8, r5);
    TakeField(bytes, 32, h.fileSize, 8, r6);
    TakeField(bytes, 40, h.memorySize, 8, r7);
    LastField(bytes, 48, h.alignment, 8);
  }

  /** The second half of the fields. */
  function EncodeSectionHeaderBack(h: SectionHeader): seq<Byte> {
    EncodeWord(h.size, 8) + (EncodeWord(h.link, 4) + (EncodeWord(h.info, 4) + (
    EncodeWord(h.alignment, 8) + (EncodeWord(h.entrySize, 8)))))
  }

  lemma SectionHeaderFront(bytes: seq<Byte>, h: SectionHeader)
    requires bytes == EncodeSectionHeader(h) && SectionHeaderFits(h)
    ensures 32 <= |bytes| && |bytes| == 32 + |EncodeSectionHeaderBack(h)| && Holds(bytes, 32, EncodeSectionHeaderBack(h))
    ensures
      && LittleEndian(bytes, 0, 4) == h.nameOffset
      && LittleEndian(bytes, 4, 4) == h.sectionType
      && LittleEndian(bytes, 8, 8) == h.flags
      && LittleEndian(bytes, 16, 8) == h.virtualAddress
      && LittleEndian(bytes, 24, 8) == h.offset
  {
    hide Holds, FitsBytes, LittleEndian, EncodeWord, EncodeSectionHeaderBack;
    HoldsItself(bytes);
    EightBytes(h.flags);
    EightBytes(h.virtualAddress);
    EightBytes(h.offset);
    var r5 := EncodeSectionHeaderBack(h);
    var r4 := EncodeWord(h.offset, 8) + r5;
    var r3 := EncodeWord(h.virtualAddress, 8) + r4;
    var r2 := EncodeWord(h.flags, 8) + r3;
    var r1 := EncodeWord(h.sectionType, 4) + r2;
    TakeField(bytes, 0, h.nameOffset, 4, r1);
    TakeField(bytes, 4, h.sectionType, 4, r2);
    TakeField(bytes, 8, h.flags, 8, r3);
    TakeField(bytes, 16, h.virtualAddress, 8, r4);
    TakeField(bytes, 24, h.offset, 8, r5);
  }

  lemma SectionHeaderBack(bytes: seq<Byte>, h: SectionHeader)
    requires Holds(bytes, 32, EncodeSectionHeaderBack(h)) && SectionHeaderFits(h)
    ensures |EncodeSectionHeaderBack(h)| == 32 && 64 <= |bytes|
    ensures
      && LittleEndian(bytes, 32, 8) == h.size
      && LittleEndian(bytes, 40, 4) == h.link
      && LittleEndian(bytes, 44, 4) == h.info
      && LittleEndian(bytes, 48, 8) == h.alignment
      && LittleEndian(bytes, 56, 8) == h.entrySize
  {
    hide Holds, FitsBytes, LittleEndian, EncodeWord;
    EightBytes(h.size);
    EightBytes(h.alignment);
    EightBytes(h.entrySize);
    var r9 := EncodeWord(h.entrySize, 8);
    var r8 := EncodeWord(h.alignment, 8) + r9;
    var r7 := EncodeWord(h.info, 4) + r8;
    var r6 := EncodeWord(h.link, 4) + r7;
    TakeField(bytes, 32, h.size, 8, r6);
    TakeField(bytes, 40, h.link, 4, r7);
    TakeField(bytes, 44, h.info, 4, r8);
    TakeField(bytes, 48, h.alignment, 8, r9);
    LastField(bytes, 56, h.entrySize, 8);
  }

  /** Every field of a section header is read from its place. */
  lemma SectionHeaderRoundTrip(bytes: seq<Byte>, h: SectionHeader)
    requires bytes == EncodeSectionHeader(h) && SectionHeaderFits(h)
    ensures |bytes| == SECTION_HEADER_SIZE && SectionHeaderOf(bytes) == h
  {
    hide LittleEndian, EncodeSectionHeader, EncodeSectionHeaderBack, SectionHeaderFits;
    SectionHeaderFront(bytes, h);
    SectionHeaderBack(bytes, h);
  }

  lemma HoldsItself(mem: seq<Byte>)
    ensures Holds(mem, 0, mem)
  {
  }

  lemma LastField(mem: seq<Byte>, at: nat, w: Word, size: nat)
    requires Holds(mem, at, EncodeWord(w, size)) && FitsBytes(w, size)
    ensures at + size <= |mem| && LittleEndian(mem, at, size) == w && |EncodeWord(w, size)| == size
  {
    WordRoundTrip(mem, at, w, size);
    hide FitsBytes, LittleEndian, EncodeWord;
  }

  // ----- Readers

  class Reader {
    var bytes: seq<Byte>

    constructor (bytes: seq<Byte>)
      ensures this.bytes == bytes
    {
      this.bytes := bytes;
    }

    method Fork(offset: nat) returns (reader: Option<Reader>)
      ensures reader.Some? <==> offset <= |bytes|
      ensures reader.Some? ==> fresh(reader.value) && reader.value.bytes == bytes[offset..]
    {
      if offset <= |bytes| {
        var r := new Reader(bytes[offset..]);
        return Some(r);
      }
      return None;
    }

    /** What does not fit is not taken. */
    method Take(count: nat) returns (taken: Option<seq<Byte>>)
      modifies this
      ensures taken == (if count <= |old(bytes)| then Some(old(bytes)[..count]) else None)
      ensures bytes == if count <= |old(bytes)| then old(bytes)[count..] else old(bytes)
    {
      if count <= |bytes| {
        taken := Some(bytes[..count]);
        bytes := bytes[count..];
      } else {
        taken := None;
      }
    }
  }

  // ----- Segments and sections

  /** `int_fit`: every 64-bit number is one of the target's sizes. */
  function IntFit(w: Word): nat {
    w as nat
  }

  lemma IntFitIsNumber(w: Word)
    ensures IntFit(w) == w as nat
  {
  }

  datatype SegmentType = Null | Load | Dynamic | Interp | Note | Shlib | Header | Tls | Unknown(n: Word)

  datatype Segment = Segment(segmentType: SegmentType, data: seq<Byte>, flags: Word, virtualAddress: Word,
                             physicalAddress: Word, memorySize: Word, alignment: Word)

  datatype Section = Section(nameOffset: nat, data: seq<Byte>, virtualAddress: Word)

  function TypeOf(n: Word): SegmentType {
    match n
    case 0 => Null
    case 1 => Load
    case 2 => Dynamic
    case 3 => Interp
    case 4 => Note
    case 5 => Shlib
    case 6 => Header
    case 7 => Tls
    case _ => Unknown(n)
  }

  /** The part of the file that a header declares. */
  function SliceOf(file: seq<Byte>, offset: nat, size: nat): Checked<seq<Byte>> {
    if offset + size <= |file| then Ok(file[offset..offset + size]) else Err(Eof)
  }

  function SegmentAt(file: seq<Byte>, at: nat): Checked<Segment>
    requires at + PROGRAM_HEADER_SIZE <= |file|
  {
    var h := ProgramHeaderOf(file[at..at + PROGRAM_HEADER_SIZE]);
    match SliceOf(file, IntFit(h.offset), IntFit(h.fileSize))
    case Ok(data) =>
      Ok(Segment(TypeOf(h.segmentType), data, h.flags, h.virtualAddress, h.physicalAddress, h.memorySize, h.alignment))
    case Err(e) => Err(e)
  }

  function SectionAt(file: seq<Byte>, at: nat): Checked<Section>
    requires at + SECTION_HEADER_SIZE <= |file|
  {
    var h := SectionHeaderOf(file[at..at + SECTION_HEADER_SIZE]);
    match SliceOf(file, IntFit(h.offset), IntFit(h.size))
    case Ok(data) => Ok(Section(IntFit(h.nameOffset), data, h.virtualAddress))
    case Err(e) => Err(e)
  }

  /** The types by their numbers. */
  predicate IsType(n: Word, t: SegmentType) {
    match t
    case Null => n == 0
    case Load => n == 1
    case Dynamic => n == 2
    case Interp => n == 3
    case Note => n == 4
    case Shlib => n == 5
    case Header => n == 6
    case Tls => n == 7
    case Unknown(m) => m == n && n > 7
  }

  /** A file that holds a program header at `at` and the bytes it declares has that segment there. */
  lemma SegmentOfHeader(file: seq<Byte>, at: nat, h: ProgramHeader)
    requires Holds(file, at, EncodeProgramHeader(h)) && ProgramHeaderFits(h)
    ensures |EncodeProgramHeader(h)| == PROGRAM_HEADER_SIZE && at + PROGRAM_HEADER_SIZE <= |file|
    ensures
      var segment := SegmentAt(file, at);
      if IntFit(h.offset) + IntFit(h.fileSize) > |file| then segment == Err(Eof)
      else
        && segment.Ok? && segment.value.data == file[IntFit(h.offset)..IntFit(h.offset) + IntFit(h.fileSize)]
        && IsType(h.segmentType, segment.value.segmentType) && segment.value.flags == h.flags
        && segment.value.virtualAddress == h.virtualAddress && segment.value.physicalAddress == h.physicalAddress
        && segment.value.memorySize == h.memorySize && segment.value.alignment == h.alignment
  {
    hide ProgramHeaderOf, EncodeProgramHeader, ProgramHeaderFits, TypeOf, IsType, IntFit;
    ProgramHeaderRoundTrip(EncodeProgramHeader(h), h);
    TypeIs(h.segmentType);
  }

  lemma TypeIs(n: Word)
    ensures IsType(n, TypeOf(n))
  {
  }

  /** The same for a section header. */
  lemma SectionOfHeader(file: seq<Byte>, at: nat, h: SectionHeader)
    requires Holds(file, at, EncodeSectionHeader(h)) && SectionHeaderFits(h)
    ensures |EncodeSectionHeader(h)| == SECTION_HEADER_SIZE && at + SECTION_HEADER_SIZE <= |file|
    ensures
      var section := SectionAt(file, at);
      if IntFit(h.offset) + IntFit(h.size) > |file| then section == Err(Eof)
      else
        && section.Ok? && section.value.data == file[IntFit(h.offset)..IntFit(h.offset) + IntFit(h.size)]
        && section.value.nameOffset == IntFit(h.nameOffset) && section.value.virtualAddress == h.virtualAddress
  {
    hide SectionHeaderOf, EncodeSectionHeader, SectionHeaderFits, IntFit;
    SectionHeaderRoundTrip(EncodeSectionHeader(h), h);
  }

  /** A table in a file: where it starts, how far apart its entries are declared to be, and how many. */
  datatype Table = Table(file: seq<Byte>, start: nat, stride: nat, len: nat) {
    predicate InFile() {
      start <= |file|
    }

    function Size(): nat
      requires InFile()
    {
      |file| - start
    }

    /** Call `n` of `next` on the program table. */
    function Program(n: nat): Option<Checked<Segment>>
      requires InFile()
    {
      if Yields(Size(), stride, len, PROGRAM_HEADER_SIZE, n)
      then Some(SegmentAt(file, start + Position(Size(), stride, n)))
      else None
    }

    /** Call `n` of `next` on the section table. */
    function Section(n: nat): Option<Checked<Section>>
      requires InFile()
    {
      if Yields(Size(), stride, len, SECTION_HEADER_SIZE, n)
      then Some(SectionAt(file, start + Position(Size(), stride, n)))
      else None
    }

    /** Call `n` gives the entry at `n` strides. */
    ghost predicate HasProgramInPlace(n: nat)
      requires InFile()
    {
      start + n * stride + PROGRAM_HEADER_SIZE <= |file| && Program(n) == Some(SegmentAt(file, start + n * stride))
    }

    ghost predicate HasSectionInPlace(n: nat)
      requires InFile()
    {
      start + n * stride + SECTION_HEADER_SIZE <= |file| && Section(n) == Some(SectionAt(file, start + n * stride))
    }

    lemma ProgramInPlace(n: nat)
      requires InFile() && n < len && TableFits(Size(), stride, len, PROGRAM_HEADER_SIZE)
      ensures HasProgramInPlace(n)
    {
      hide SegmentAt;
      StridesAreOrdered(n, len - 1, stride);
      PositionIsStrides(Size(), stride, n);
    }

    lemma SectionInPlace(n: nat)
      requires InFile() && n < len && TableFits(Size(), stride, len, SECTION_HEADER_SIZE)
      ensures HasSectionInPlace(n)
    {
      hide SectionAt;
      StridesAreOrdered(n, len - 1, stride);
      PositionIsStrides(Size(), stride, n);
    }

    /** Where a table reader is after `calls` calls: it has made `n` strides, and stopped if the next
        header cannot be read. */
    ghost predicate ReadTo(header: nat, calls: nat, n: nat, left: nat, bytes: seq<Byte>) {
      && InFile() && n <= calls && left == (if calls <= len then len - calls else 0)
      && (n == calls || !Yields(Size(), stride, len, header, n))
      && bytes == file[start + Position(Size(), stride, n)..]
    }

    /** One call of `next`, as the program does it. */
    lemma Call(header: nat, calls: nat, n: nat, left: nat, bytes: seq<Byte>)
      requires ReadTo(header, calls, n, left, bytes)
      ensures Yields(Size(), stride, len, header, calls) <==> left > 0 && header <= |bytes|
      ensures left == 0 ==> ReadTo(header, calls + 1, n, 0, bytes)
      ensures left > 0 && header > |bytes| ==> ReadTo(header, calls + 1, n, left - 1, bytes)
      ensures left > 0 && header <= |bytes| ==>
                var at := start + Position(Size(), stride, calls);
                && bytes[..header] == file[at..at + header]
                && ReadTo(header, calls + 1, n + 1, left - 1, if stride <= |bytes| then bytes[stride..] else bytes)
    {
      if n < calls {
        Fused(Size(), stride, len, header, n, calls);
        Fused(Size(), stride, len, header, n, calls + 1);
      }
    }
  }

  /** The part of the file that a header declares, through readers. */
  method TakeSlice(fileReader: Reader, offset: nat, size: nat) returns (data: Checked<seq<Byte>>)
    ensures data == SliceOf(fileReader.bytes, offset, size)
  {
    var forked := fileReader.Fork(offset);
    if forked.None? {
      return Err(Eof);
    }
    var taken := forked.value.Take(size);
    if taken.None? {
      return Err(Eof);
    }
    assert taken.value == fileReader.bytes[offset..offset + size];
    return Ok(taken.value);
  }

  class Elf64Programs {
    var len: nat
    const stride: nat
    const fileReader: Reader
    const programTableReader: Reader
    ghost const table: Table
    ghost var calls: nat
    ghost var strides: nat

    ghost predicate Valid()
      reads this, fileReader, programTableReader
    {
      && fileReader != programTableReader && fileReader.bytes == table.file && stride == table.stride
      && table.ReadTo(PROGRAM_HEADER_SIZE, calls, strides, len, programTableReader.bytes)
    }

    constructor (len: nat, stride: nat, fileReader: Reader, programTableReader: Reader, ghost start: nat)
      requires fileReader != programTableReader && start <= |fileReader.bytes|
      requires programTableReader.bytes == fileReader.bytes[start..]
      ensures Valid() && calls == 0 && table == Table(fileReader.bytes, start, stride, len)
      ensures this.fileReader == fileReader && this.programTableReader == programTableReader
    {
      this.len := len;
      this.stride := stride;
      this.fileReader := fileReader;
      this.programTableReader := programTableReader;
      table := Table(fileReader.bytes, start, stride, len);
      calls := 0;
      strides := 0;
    }

    method Next() returns (item: Option<Checked<Segment>>)
      requires Valid()
      modifies this, programTableReader
      ensures Valid() && calls == old(calls) + 1
      ensures item == table.Program(old(calls))
    {
      hide Yields, Position, ProgramHeaderOf, TypeOf, SliceOf, table.ReadTo;
      table.Call(PROGRAM_HEADER_SIZE, calls, strides, len, programTableReader.bytes);
      calls := calls + 1;
      if len == 0 {
        return None;
      }
      len := len - 1;
      if PROGRAM_HEADER_SIZE > |programTableReader.bytes| {
        return None;
      }
      var header := ProgramHeaderOf(programTableReader.bytes[..PROGRAM_HEADER_SIZE]);
      var _ := programTableReader.Take(stride);
      strides := strides + 1;
      var data := TakeSlice(fileReader, IntFit(header.offset), IntFit(header.fileSize));
      match data {
        case Ok(bytes) =>
          return Some(Ok(Segment(TypeOf(header.segmentType), bytes, header.flags, header.virtualAddress,
                                 header.physicalAddress, header.memorySize, header.alignment)));
        case Err(e) =>
          return Some(Err(e));
      }
    }
  }

  class Elf64Sections {
    var len: nat
    const stride: nat
    const fileReader: Reader
    const sectionTableReader: Reader
    ghost const table: Table
    ghost var calls: nat
    ghost var strides: nat

    ghost predicate Valid()
      reads this, fileReader, sectionTableReader
    {
      && fileReader != sectionTableReader && fileReader.bytes == table.file && stride == table.stride
      && table.ReadTo(SECTION_HEADER_SIZE, calls, strides, len, sectionTableReader.bytes)
    }

    constructor (len: nat, stride: nat, fileReader: Reader, sectionTableReader: Reader, ghost start: nat)
      requires fileReader != sectionTableReader && start <= |fileReader.bytes|
      requires sectionTableReader.bytes == fileReader.bytes[start..]
      ensures Valid() && calls == 0 && table == Table(fileReader.bytes, start, stride, len)
      ensures this.fileReader == fileReader && this.sectionTableReader == sectionTableReader
    {
      this.len := len;
      this.stride := stride;
      this.fileReader := fileReader;
      this.sectionTableReader := sectionTableReader;
      table := Table(fileReader.bytes, start, stride, len);
      calls := 0;
      strides := 0;
    }

    method Next() returns (item: Option<Checked<Section>>)
      requires Valid()
      modifies this, sectionTableReader
      ensures Valid() && calls == old(calls) + 1
      ensures item == table.Section(old(calls))
    {
      hide Yields, Position, SectionHeaderOf, SliceOf, table.ReadTo;
      table.Call(SECTION_HEADER_SIZE, calls, strides, len, sectionTableReader.bytes);
      calls := calls + 1;
      if len == 0 {
        return None;
      }
      len := len - 1;
      if SECTION_HEADER_SIZE > |sectionTableReader.bytes| {
        return None;
      }
      var header := SectionHeaderOf(sectionTableReader.bytes[..SECTION_HEADER_SIZE]);
      var _ := sectionTableReader.Take(stride);
      strides := strides + 1;
      var data := TakeSlice(fileReader, IntFit(header.offset), IntFit(header.size));
      match data {
        case Ok(bytes) =>
          return Some(Ok(Section(IntFit(header.nameOffset), bytes, header.virtualAddress)));
        case Err(e) =>
          return Some(Err(e));
      }
    }
  }

  // ----- What the iterators promise

  /** On a table that fits, call `n` gives the entry at `n` strides, for each of the declared number and no
      more; and this holds only of a table that fits. */
  lemma ProgramsInOrder(t: Table)
    requires t.InFile()
    ensures
      TableFits(t.Size(), t.stride, t.len, PROGRAM_HEADER_SIZE) <==>
      forall n: nat | n < t.len :: t.HasProgramInPlace(n)
    ensures forall n: nat | n >= t.len :: t.Program(n) == None
  {
    hide SegmentAt, Position;
    if TableFits(t.Size(), t.stride, t.len, PROGRAM_HEADER_SIZE) {
      forall n: nat | n < t.len ensures t.HasProgramInPlace(n) {
        t.ProgramInPlace(n);
      }
    } else {
      assert !t.HasProgramInPlace(t.len - 1);
    }
  }

  lemma SectionsInOrder(t: Table)
    requires t.InFile()
    ensures
      TableFits(t.Size(), t.stride, t.len, SECTION_HEADER_SIZE) <==>
      forall n: nat | n < t.len :: t.HasSectionInPlace(n)
    ensures forall n: nat | n >= t.len :: t.Section(n) == None
  {
    hide SectionAt, Position;
    if TableFits(t.Size(), t.stride, t.len, SECTION_HEADER_SIZE) {
      forall n: nat | n < t.len ensures t.HasSectionInPlace(n) {
        t.SectionInPlace(n);
      }
    } else {
      assert !t.HasSectionInPlace(t.len - 1);
    }
  }

  /** Every item that comes, also from a table that does not fit, is the entry of its own place if and only
      if the reader does not stop where a header can still be read. */
  lemma ProgramsOwnExactly(t: Table)
    requires t.InFile()
    ensures
      StaysInPlace(t.Size(), t.stride, t.len, PROGRAM_HEADER_SIZE) <==>
      forall n: nat | t.Program(n).Some? :: t.HasProgramInPlace(n)
  {
    hide SegmentAt, Position, StaysInPlace;
    var size := t.Size();
    YieldsOwnExactly(size, t.stride, t.len, PROGRAM_HEADER_SIZE);
    forall n: nat | t.Program(n).Some?
      ensures t.HasProgramInPlace(n) <==> Position(size, t.stride, n) == n * t.stride
    {
      PositionIsStrides(size, t.stride, n);
    }
    assert forall n: nat :: t.Program(n).Some? <==> Yields(size, t.stride, t.len, PROGRAM_HEADER_SIZE, n);
  }

  lemma SectionsOwnExactly(t: Table)
    requires t.InFile()
    ensures
      StaysInPlace(t.Size(), t.stride, t.len, SECTION_HEADER_SIZE) <==>
      forall n: nat | t.Section(n).Some? :: t.HasSectionInPlace(n)
  {
    hide SectionAt, Position, StaysInPlace;
    var size := t.Size();
    YieldsOwnExactly(size, t.stride, t.len, SECTION_HEADER_SIZE);
    forall n: nat | t.Section(n).Some?
      ensures t.HasSectionInPlace(n) <==> Position(size, t.stride, n) == n * t.stride
    {
      PositionIsStrides(size, t.stride, n);
    }
    assert forall n: nat :: t.Section(n).Some? <==> Yields(size, t.stride, t.len, SECTION_HEADER_SIZE, n);
  }

  /** Once `next` has returned nothing it always does, also on a truncated table. */
  lemma IteratorsAreFused(t: Table, m: nat, n: nat)
    requires t.InFile() && m <= n
    ensures t.Program(m) == None ==> t.Program(n) == None
    ensures t.Section(m) == None ==> t.Section(n) == None
  {
    if t.Program(m) == None {
      Fused(t.Size(), t.stride, t.len, PROGRAM_HEADER_SIZE, m, n);
    }
    if t.Section(m) == None {
      Fused(t.Size(), t.stride, t.len, SECTION_HEADER_SIZE, m, n);
    }
  }

  // ----- Files

  function SectionTable(file: seq<Byte>, h: ElfHeader): Table {
    Table(file, IntFit(h.sectionTable), IntFit(h.sectionStride), IntFit(h.sections))
  }

  datatype Elf64 = Elf64(header: ElfHeader, file: seq<Byte>, stringTable: Section) {
    predicate Valid() {
      IntFit(header.programTable) <= |file| && IntFit(header.sectionTable) <= |file|
    }

    function Programs(): Table {
      Table(file, IntFit(header.programTable), IntFit(header.programStride), IntFit(header.programs))
    }

    function Sections(): Table {
      SectionTable(file, header)
    }

    /** `program_segments`. */
    method ProgramSegments() returns (programs: Elf64Programs)
      requires Valid()
      ensures fresh(programs) && fresh(programs.programTableReader) && programs.Valid()
      ensures programs.calls == 0 && programs.table == Programs()
    {
      var fileReader := new Reader(file);
      var tableReader := new Reader(file[IntFit(header.programTable)..]);
      var table := Programs();
      programs := new Elf64Programs(table.len, table.stride, fileReader, tableReader, table.start);
    }

    /** `sections`. */
    method AllSections() returns (sections: Elf64Sections)
      requires Valid()
      ensures fresh(sections) && fresh(sections.sectionTableReader) && sections.Valid()
      ensures sections.calls == 0 && sections.table == Sections()
    {
      var fileReader := new Reader(file);
      var table := Sections();
      var tableReader := new Reader(file[table.start..]);
      sections := new Elf64Sections(table.len, table.stride, fileReader, tableReader, table.start);
    }
  }

  const MAGIC: seq<Byte> := [0x7F, 0x45, 0x4C, 0x46]

  /** What a file is read as: the string table is the section at the header's index, wherever the declared
      stride puts it. */
  function FileOf(bytes: seq<Byte>): Checked<Elf64> {
    if |bytes| < PROLOGUE_SIZE then Err(Eof)
    else if bytes[..4] != MAGIC then Err(InvalidMagic(bytes[..4]))
    else if bytes[4] == 1 then Err(Panicked)
    else if bytes[4] != 2 then Err(InvalidArch(bytes[4]))
    else BodyOf(bytes)
  }

  /** What is read after the prologue. */
  function BodyOf(bytes: seq<Byte>): Checked<Elf64> {
    if |bytes| < PROLOGUE_SIZE + HEADER_SIZE then Err(Eof)
    else
      var h := HeaderOf(bytes[PROLOGUE_SIZE..PROLOGUE_SIZE + HEADER_SIZE]);
      if IntFit(h.programTable) > |bytes| || IntFit(h.sectionTable) > |bytes| then Err(Eof)
      else
        match SectionTable(bytes, h).Section(IntFit(h.stringIndex))
        case None => Err(MissingStringTable)
        case Some(Err(e)) => Err(e)
        case Some(Ok(stringTable)) => Ok(Elf64(h, bytes, stringTable))
  }

  /** Both tables start inside the file, and if the sections fit, the string table is the section whose
      header is at the index the file gives. */
  ghost predicate HasStringTable(elf: Elf64) {
    && elf.Valid()
    && var t, index := elf.Sections(), IntFit(elf.header.stringIndex);
       && index < t.len && t.Section(index) == Some(Ok(elf.stringTable))
       && (TableFits(t.Size(), t.stride, t.len, SECTION_HEADER_SIZE) ==> t.HasSectionInPlace(index))
  }

  lemma StringTableInPlace(bytes: seq<Byte>)
    requires FileOf(bytes).Ok?
    ensures FileOf(bytes).value.file == bytes && HasStringTable(FileOf(bytes).value)
  {
    hide HeaderOf, SectionAt, Position, IntFit;
    var elf := FileOf(bytes).value;
    var t := elf.Sections();
    if TableFits(t.Size(), t.stride, t.len, SECTION_HEADER_SIZE) {
      t.SectionInPlace(IntFit(elf.header.stringIndex));
    }
  }

  /** What a 64-bit file starts with. */
  predicate HasPrologue(file: seq<Byte>) {
    |file| >= 24 && file[..4] == [0x7F, 0x45, 0x4C, 0x46] && file[4] == 2
  }

  /** A header follows the prologue. */
  predicate HasHeader(file: seq<Byte>, h: ElfHeader) {
    Holds(file, 24, EncodeHeader(h)) && HeaderFits(h)
  }

  /** Where the header of the string table is looked for: at the index's number of strides, or at the last
      stride that fits. */
  function StringHeaderAt(file: seq<Byte>, h: ElfHeader): nat
    requires IntFit(h.sectionTable) <= |file|
  {
    IntFit(h.sectionTable) + LastPlace(|file| - IntFit(h.sectionTable), IntFit(h.sectionStride), IntFit(h.stringIndex))
  }

  lemma HeaderAfterPrologue(file: seq<Byte>, h: ElfHeader)
    requires HasPrologue(file) && HasHeader(file, h)
    ensures |file| >= 64 && HeaderOf(file[24..64]) == h && FileOf(file) == BodyOf(file)
  {
    hide HeaderOf, EncodeHeader, HeaderFits, BodyOf;
    HeaderRoundTrip(EncodeHeader(h), h);
  }

  lemma StringHeaderIs(file: seq<Byte>, h: ElfHeader)
    requires IntFit(h.sectionTable) <= |file|
    ensures
      var t := SectionTable(file, h);
      && t.InFile() && t.len == IntFit(h.sections)
      && t.start + Position(t.Size(), t.stride, IntFit(h.stringIndex)) == StringHeaderAt(file, h)
  {
    hide Position, LastPlace, IntFit;
    var t := SectionTable(file, h);
    PositionIsPlace(t.Size(), t.stride, IntFit(h.stringIndex));
  }

  /** A file with both tables inside it and a section header where the string table's is looked for, whose
      bytes are in the file, is read: with that header, that string table, and the tables it declares. */
  lemma FileRoundTrip(file: seq<Byte>, h: ElfHeader, s: SectionHeader)
    requires HasPrologue(file) && HasHeader(file, h)
    requires IntFit(h.programTable) <= |file| && IntFit(h.sectionTable) <= |file|
    requires IntFit(h.stringIndex) < IntFit(h.sections)
    requires Holds(file, StringHeaderAt(file, h), EncodeSectionHeader(s)) && SectionHeaderFits(s)
    requires IntFit(s.offset) + IntFit(s.size) <= |file|
    ensures
      var read := FileOf(file);
      && read.Ok? && read.value.header == h && read.value.file == file
      && read.value.stringTable.data == file[IntFit(s.offset)..IntFit(s.offset) + IntFit(s.size)]
      && read.value.stringTable.nameOffset == IntFit(s.nameOffset)
      && read.value.stringTable.virtualAddress == s.virtualAddress
      && read.value.Programs() == Table(file, IntFit(h.programTable), IntFit(h.programStride), IntFit(h.programs))
      && read.value.Sections() == Table(file, IntFit(h.sectionTable), IntFit(h.sectionStride), IntFit(h.sections))
  {
    hide HasPrologue, HasHeader, HeaderOf, Holds, EncodeSectionHeader, SectionHeaderFits, SectionAt, Position,
         StringHeaderAt, IntFit;
    HeaderAfterPrologue(file, h);
    StringHeaderIs(file, h);
    SectionOfHeader(file, StringHeaderAt(file, h), s);
  }

  /** Which error stops a file that is not one of 64 bits: too short for a prologue, another magic number, a
      file of 32 bits, another class; and then one that is too short for the header. */
  lemma PrologueErrors(file: seq<Byte>)
    ensures |file| < 24 ==> FileOf(file) == Err(Eof)
    ensures |file| >= 24 && file[..4] != [0x7F, 0x45, 0x4C, 0x46] ==> FileOf(file) == Err(InvalidMagic(file[..4]))
    ensures |file| >= 24 && file[..4] == [0x7F, 0x45, 0x4C, 0x46] ==>
              && (file[4] == 1 ==> FileOf(file) == Err(Panicked))
              && (file[4] != 1 && file[4] != 2 ==> FileOf(file) == Err(InvalidArch(file[4])))
    ensures HasPrologue(file) && |file| < 64 ==> FileOf(file) == Err(Eof)
  {
    hide HeaderOf, SectionTable;
  }

  /** Which error stops a file of 64 bits with a header: a table outside it, no section at the index, or no
      room for a section header there. */
  lemma HeaderErrors(file: seq<Byte>, h: ElfHeader)
    requires HasPrologue(file) && HasHeader(file, h)
    ensures IntFit(h.programTable) > |file| || IntFit(h.sectionTable) > |file| ==> FileOf(file) == Err(Eof)
    ensures IntFit(h.programTable) <= |file| && IntFit(h.sectionTable) <= |file| ==>
              (IntFit(h.stringIndex) >= IntFit(h.sections) || StringHeaderAt(file, h) + 64 > |file| <==>
               FileOf(file) == Err(MissingStringTable))
  {
    hide HasPrologue, HasHeader, HeaderOf, Holds, SectionHeaderOf, Position, StringHeaderAt, IntFit;
    HeaderAfterPrologue(file, h);
    if IntFit(h.programTable) <= |file| && IntFit(h.sectionTable) <= |file| {
      StringHeaderIs(file, h);
    }
  }

  /** The last one: a string table that is not in the file. */
  lemma StringTableErrors(file: seq<Byte>, h: ElfHeader, s: SectionHeader)
    requires HasPrologue(file) && HasHeader(file, h)
    requires IntFit(h.programTable) <= |file| && IntFit(h.sectionTable) <= |file|
    requires IntFit(h.stringIndex) < IntFit(h.sections)
    requires Holds(file, StringHeaderAt(file, h), EncodeSectionHeader(s)) && SectionHeaderFits(s)
    requires IntFit(s.offset) + IntFit(s.size) > |file|
    ensures FileOf(file) == Err(Eof)
  {
    hide HasPrologue, HasHeader, HeaderOf, Holds, EncodeSectionHeader, SectionHeaderFits, SectionAt, Position,
         StringHeaderAt, IntFit;
    HeaderAfterPrologue(file, h);
    StringHeaderIs(file, h);
    SectionOfHeader(file, StringHeaderAt(file, h), s);
  }

  /** `Elf64::from_bytes`, after the prologue. */
  method Elf64FromBytes(fileReader: Reader, headerReader: Reader) returns (elf: Checked<Elf64>)
    requires fileReader != headerReader && PROLOGUE_SIZE <= |fileReader.bytes|
    requires headerReader.bytes == fileReader.bytes[PROLOGUE_SIZE..]
    modifies headerReader
    ensures elf == BodyOf(fileReader.bytes)
  {
    hide HeaderOf, SectionAt, Yields, Position, IntFit;
    var file := fileReader.bytes;
    var bytes := headerReader.Take(HEADER_SIZE);
    if bytes.None? {
      return Err(Eof);
    }
    assert bytes.value == file[PROLOGUE_SIZE..PROLOGUE_SIZE + HEADER_SIZE];
    var header := HeaderOf(bytes.value);
    var programTableReader := fileReader.Fork(IntFit(header.programTable));
    if programTableReader.None? {
      return Err(Eof);
    }
    var sectionTableReader := fileReader.Fork(IntFit(header.sectionTable));
    if sectionTableReader.None? {
      return Err(Eof);
    }
    var tableReader := new Reader(sectionTableReader.value.bytes);
    var table := SectionTable(file, header);
    var sections := new Elf64Sections(table.len, table.stride, fileReader, tableReader, table.start);
    var stringTable := FindSection(sections, IntFit(header.stringIndex));
    match stringTable {
      case None => return Err(MissingStringTable);
      case Some(Err(e)) => return Err(e);
      case Some(Ok(section)) => return Ok(Elf64(header, file, section));
    }
  }

  /** The loop of `from_bytes` that skips to the section at `index`. */
  method FindSection(sections: Elf64Sections, index: nat) returns (found: Option<Checked<Section>>)
    requires sections.Valid() && sections.calls == 0
    modifies sections, sections.sectionTableReader
    ensures found == sections.table.Section(index)
  {
    hide SectionAt, Yields, Position;
    var i := 0;
    while true
      invariant sections.Valid() && 0 <= i <= index && sections.calls == i
      decreases index - i
    {
      var section := sections.Next();
      if section.None? {
        Fused(sections.table.Size(), sections.table.stride, sections.table.len, SECTION_HEADER_SIZE, i, index);
        return None;
      }
      if i == index {
        return section;
      }
      i := i + 1;
    }
  }

  /** `Elf::from_bytes`. */
  method FromBytes(bytes: seq<Byte>) returns (elf: Checked<Elf64>)
    ensures elf == FileOf(bytes)
  {
    hide HeaderOf;
    var fileReader := new Reader(bytes);
    var headerReader := new Reader(fileReader.bytes);
    var prologue := headerReader.Take(PROLOGUE_SIZE);
    if prologue.None? {
      return Err(Eof);
    }
    var magic, arch := prologue.value[..4], prologue.value[4];
    assert magic == bytes[..4];
    if magic != MAGIC {
      return Err(InvalidMagic(magic));
    }
    match arch {
      case 1 => return Err(Panicked);
      case 2 => elf := Elf64FromBytes(fileReader, headerReader);
      case _ => return Err(InvalidArch(arch));
    }
  }

  /** `ElfSection64::name`; a name that starts beyond the string table panics. */
  method Name(section: Section, elf: Elf64) returns (name: seq<Byte>)
    requires section.nameOffset <= |elf.stringTable.data|
    ensures
      var data, start := elf.stringTable.data, section.nameOffset;
      && start + |name| <= |data| && name == data[start..start + |name|] && 0 !in name
      && (start + |name| < |data| ==> data[start + |name|] == 0)
  {
    var start := section.nameOffset;
    var end := start;
    while end < |elf.stringTable.data| && elf.stringTable.data[end] != 0
      invariant start <= end <= |elf.stringTable.data| && 0 !in elf.stringTable.data[start..end]
    {
      end := end + 1;
    }
    name := elf.stringTable.data[start..end];
  }
}
