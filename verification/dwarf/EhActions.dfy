/** What to do with an exception that passes a call: `find_eh_action` of std/sys-src/personality/dwarf/eh.rs
    reads the language-specific data area of a function, and searches its call-site table. */
module EhActions {
  import opened Common
  import opened Leb128
  import opened PackedWords
  import opened DwarfReaders

  const DW_EH_PE_omit: Byte := 0xFF
  const DW_EH_PE_absptr: Byte := 0x00
  const DW_EH_PE_uleb128: Byte := 0x01
  const DW_EH_PE_udata2: Byte := 0x02
  const DW_EH_PE_udata4: Byte := 0x03
  const DW_EH_PE_udata8: Byte := 0x04
  const DW_EH_PE_sleb128: Byte := 0x09
  const DW_EH_PE_sdata2: Byte := 0x0A
  const DW_EH_PE_sdata4: Byte := 0x0B
  const DW_EH_PE_sdata8: Byte := 0x0C
  const DW_EH_PE_pcrel: Byte := 0x10
  const DW_EH_PE_textrel: Byte := 0x20
  const DW_EH_PE_datarel: Byte := 0x30
  const DW_EH_PE_funcrel: Byte := 0x40
  const DW_EH_PE_aligned: Byte := 0x50
  const DW_EH_PE_indirect: Byte := 0x80

  /** What reading at an address gives: a value and where to read on; the error of a bad encoding; or
      nothing that is defined, because memory ends or a number has more than ten bytes. */
  datatype Read<T> = Got(value: T, next: nat) | Refused | Undefined

  const ADDRESS_SPACE: nat := 0x1_0000_0000_0000_0000

  type Address = a: nat | a < ADDRESS_SPACE

  /** Memory can be addressed with 64 bits; addresses are indices into it. */
  type Memory = mem: seq<Byte> | |mem| < ADDRESS_SPACE witness []

  /** `wrapping_add` of an offset to a pointer. */
  function Plus(base: Address, offset: Word): Address {
    (base + offset as nat) % ADDRESS_SPACE
  }

  function WordAt(mem: Memory, at: nat, size: nat): Read<Word> {
    if at + size <= |mem| then Got(LittleEndian(mem, at, size), at + size) else Undefined
  }

  function SignedWordAt(mem: Memory, at: nat, size: nat): Read<Word>
    requires size > 0
  {
    if at + size <= |mem| then Got(SignedLittleEndian(mem, at, size), at + size) else Undefined
  }

  function UnsignedAt(mem: Memory, at: nat): Read<Word> {
    if Ends(mem, at, 10) then Got(Unsigned(mem, at, 10), End(mem, at, 10)) else Undefined
  }

  function SignedAt(mem: Memory, at: nat): Read<Word> {
    if Ends(mem, at, 10) then Got(Signed(mem, at, 10), End(mem, at, 10)) else Undefined
  }

  // ----- Offsets

  predicate IsOffsetEncoding(encoding: Byte) {
    encoding != DW_EH_PE_omit && encoding & 0xF0 == 0
  }

  function OffsetAt(mem: Memory, at: nat, encoding: Byte): Read<Word> {
    if !IsOffsetEncoding(encoding) then Refused
    else if encoding == DW_EH_PE_absptr then WordAt(mem, at, 8)
    else if encoding == DW_EH_PE_uleb128 then UnsignedAt(mem, at)
    else if encoding == DW_EH_PE_udata2 then WordAt(mem, at, 2)
    else if encoding == DW_EH_PE_udata4 then WordAt(mem, at, 4)
    else if encoding == DW_EH_PE_udata8 then WordAt(mem, at, 8)
    else if encoding == DW_EH_PE_sleb128 then SignedAt(mem, at)
    else if encoding == DW_EH_PE_sdata2 then SignedWordAt(mem, at, 2)
    else if encoding == DW_EH_PE_sdata4 then SignedWordAt(mem, at, 4)
    else if encoding == DW_EH_PE_sdata8 then WordAt(mem, at, 8)
    else Refused
  }

  /** Which offsets an encoding can hold: all of them, those of two or four bytes, or those of two or four
      bytes with a sign. */
  predicate Encodable(encoding: Byte, w: Word) {
    || encoding == 0x00 || encoding == 0x04 || encoding == 0x0C || encoding == 0x01 || encoding == 0x09
    || (encoding == 0x02 && FitsBytes(w, 2))
    || (encoding == 0x03 && FitsBytes(w, 4))
    || (encoding == 0x0A && FitsSignedBytes(w, 2))
    || (encoding == 0x0B && FitsSignedBytes(w, 4))
  }

  function EncodeOffset(encoding: Byte, w: Word): seq<Byte>
    requires Encodable(encoding, w)
  {
    if encoding == 0x01 then EncodeUnsigned(w)
    else if encoding == 0x09 then EncodeSigned(w)
    else if encoding == 0x02 then EncodeWord(w, 2)
    else if encoding == 0x03 then EncodeWord(w, 4)
    else if encoding == 0x0A then EncodeSignedWord(w, 2)
    else if encoding == 0x0B then EncodeSignedWord(w, 4)
    else EncodeWord(w, 8)
  }

  /** Every offset an encoding can hold is read back, and its bytes are consumed exactly. */
  lemma OffsetRoundTrip(mem: Memory, at: nat, encoding: Byte, w: Word)
    requires Encodable(encoding, w) && Holds(mem, at, EncodeOffset(encoding, w))
    ensures OffsetAt(mem, at, encoding) == Got(w, at + |EncodeOffset(encoding, w)|)
  {
    hide FitsBytes, FitsSignedBytes, EncodeWord, EncodeSignedWord, EncodeUnsigned, EncodeSigned, LittleEndian,
         SignedLittleEndian, Ends, End, Unsigned, Signed, Holds;
    if encoding == DW_EH_PE_uleb128 {
      UnsignedRoundTrip(mem, at, w);
    } else if encoding == DW_EH_PE_sleb128 {
      SignedRoundTrip(mem, at, w);
    } else if encoding == DW_EH_PE_udata2 {
      WordFound(mem, at, w, 2);
    } else if encoding == DW_EH_PE_udata4 {
      WordFound(mem, at, w, 4);
    } else if encoding == DW_EH_PE_sdata2 {
      SignedWordFound(mem, at, w, 2);
    } else if encoding == DW_EH_PE_sdata4 {
      SignedWordFound(mem, at, w, 4);
    } else {
      EightBytes(w);
      WordFound(mem, at, w, 8);
    }
  }

  /** The encodings of an offset that are refused are all but these nine. */
  lemma OffsetRefusedExactly(mem: Memory, at: nat, encoding: Byte)
    ensures OffsetAt(mem, at, encoding).Refused? <==>
            encoding !in {0x00, 0x01, 0x02, 0x03, 0x04, 0x09, 0x0A, 0x0B, 0x0C}
  {
    hide Ends, End, Unsigned, Signed, LittleEndian, SignedLittleEndian;
  }

  lemma WordFound(mem: Memory, at: nat, w: Word, size: nat)
    requires Holds(mem, at, EncodeWord(w, size)) && FitsBytes(w, size)
    ensures WordAt(mem, at, size) == Got(w, at + |EncodeWord(w, size)|)
  {
    WordRoundTrip(mem, at, w, size);
    hide FitsBytes, EncodeWord, LittleEndian;
  }

  lemma SignedWordFound(mem: Memory, at: nat, w: Word, size: nat)
    requires size > 0 && Holds(mem, at, EncodeSignedWord(w, size)) && FitsSignedBytes(w, size)
    ensures SignedWordAt(mem, at, size) == Got(w, at + |EncodeSignedWord(w, size)|)
  {
    SignedWordRoundTrip(mem, at, w, size);
    hide FitsSignedBytes, EncodeSignedWord, SignedLittleEndian;
  }

  // ----- Call sites

  datatype CallSite = CallSite(start: Word, len: Word, lpad: Word, action: Word)

  function SiteAt(mem: Memory, at: nat, encoding: Byte): Read<CallSite> {
    match OffsetAt(mem, at, encoding)
    case Refused => Refused
    case Undefined => Undefined
    case Got(start, at1) =>
      match OffsetAt(mem, at1, encoding)
      case Refused => Refused
      case Undefined => Undefined
      case Got(len, at2) =>
        match OffsetAt(mem, at2, encoding)
        case Refused => Refused
        case Undefined => Undefined
        case Got(lpad, at3) =>
          match UnsignedAt(mem, at3)
          case Got(action, at4) => Got(CallSite(start, len, lpad, action), at4)
          case _ => Undefined
  }

  predicate SiteEncodable(encoding: Byte, site: CallSite) {
    Encodable(encoding, site.start) && Encodable(encoding, site.len) && Encodable(encoding, site.lpad)
  }

  function EncodeSite(encoding: Byte, site: CallSite): seq<Byte>
    requires SiteEncodable(encoding, site)
  {
    EncodeOffset(encoding, site.start) +
    (EncodeOffset(encoding, site.len) + (EncodeOffset(encoding, site.lpad) + EncodeUnsigned(site.action)))
  }

  lemma SiteRoundTrip(mem: Memory, at: nat, encoding: Byte, site: CallSite)
    requires SiteEncodable(encoding, site) && Holds(mem, at, EncodeSite(encoding, site))
    ensures SiteAt(mem, at, encoding) == Got(site, at + |EncodeSite(encoding, site)|)
  {
    hide Encodable, EncodeOffset, OffsetAt, EncodeUnsigned, Ends, End, Unsigned, Holds;
    var start, len := EncodeOffset(encoding, site.start), EncodeOffset(encoding, site.len);
    var lpad := EncodeOffset(encoding, site.lpad);
    var action := EncodeUnsigned(site.action);
    HoldsParts(mem, at, start, len + (lpad + action));
    OffsetRoundTrip(mem, at, encoding, site.start);
    var at1 := at + |start|;
    HoldsParts(mem, at1, len, lpad + action);
    OffsetRoundTrip(mem, at1, encoding, site.len);
    var at2 := at1 + |len|;
    HoldsParts(mem, at2, lpad, action);
    OffsetRoundTrip(mem, at2, encoding, site.lpad);
    UnsignedRoundTrip(mem, at2 + |lpad|, site.action);
  }

  // ----- Pointers

  /** The source's errors carry nothing. */
  type Checked<T> = Result<T, ()>

  /** `round_up`. Clearing the bits below a power of two is dividing and multiplying by it; the sum wraps
      around at 64 bits. */
  function RoundUp(unrounded: nat, align: nat): Checked<nat> {
    if !IsPow2(align) then Err(())
    else Ok((unrounded + align - 1) % ADDRESS_SPACE / align * align)
  }

  lemma Floor(x: nat, a: nat)
    requires a > 0
    ensures x - a < x / a * a <= x
  {
    assert x == a * (x / a) + x % a;
  }

  lemma MultiplesAreOrdered(m: nat, q: nat, a: nat)
    requires m <= q
    ensures m * a <= q * a
  {
  }

  lemma Between(r: nat, multiple: nat, q: nat, a: nat)
    requires r == q * a && multiple * a > r - a
    ensures r <= multiple * a
  {
    if multiple < q {
      MultiplesAreOrdered(multiple + 1, q, a);
    } else {
      MultiplesAreOrdered(q, multiple, a);
    }
  }

  lemma NoWrap(x: nat)
    requires x < ADDRESS_SPACE
    ensures x % ADDRESS_SPACE == x
  {
  }

  lemma RoundUpIs(unrounded: nat, align: nat)
    requires IsPow2(align) && unrounded + align <= ADDRESS_SPACE
    ensures align > 0 && RoundUp(unrounded, align) == Ok((unrounded + align - 1) / align * align)
  {
    NoWrap(unrounded + align - 1);
  }

  lemma RoundUpRefusedExactly(unrounded: nat, align: nat)
    ensures RoundUp(unrounded, align) == Err(()) <==> !IsPow2(align)
  {
  }

  /** The result is the least multiple of `align` that is not below the argument. */
  lemma RoundUpIsLeast(unrounded: nat, align: nat, multiple: nat)
    requires IsPow2(align) && unrounded + align <= ADDRESS_SPACE
    ensures
      var r := RoundUp(unrounded, align);
      && r.Ok? && unrounded <= r.value < unrounded + align && (exists q: nat :: r.value == q * align)
      && (unrounded <= multiple * align ==> r.value <= multiple * align)
  {
    hide RoundUp, IsPow2;
    RoundUpIs(unrounded, align);
    var x := unrounded + align - 1;
    Floor(x, align);
    var q := x / align;
    assert RoundUp(unrounded, align).value == q * align;
    if unrounded <= multiple * align {
      Between(q * align, multiple, q, align);
    }
  }

  /** `ip` and the bases that pointers may be relative to. */
  datatype Context = Context(ip: Address, funcStart: Address, textStart: Address, dataStart: Address)

  /** What a pointer is relative to, and where its value is; null is 0. */
  function PointerBase(at: Address, encoding: Byte, context: Context): Read<Address> {
    var application := encoding & 0x70;
    if application == DW_EH_PE_absptr then Got(0, at)
    else if application == DW_EH_PE_pcrel then Got(at, at)
    else if application == DW_EH_PE_funcrel then
      if context.funcStart == 0 then Refused else Got(context.funcStart, at)
    else if application == DW_EH_PE_textrel then Got(context.textStart, at)
    else if application == DW_EH_PE_datarel then Got(context.dataStart, at)
    else if application == DW_EH_PE_aligned then
      match RoundUp(at, 8)
      case Ok(aligned) => Got(0, aligned)
      case Err(()) => Refused
    else Refused
  }

  /** The pointer itself, or with `DW_EH_PE_indirect` the pointer stored where it points. */
  function Followed(mem: Memory, pointer: Address, next: nat, encoding: Byte): Read<Address> {
    if encoding & DW_EH_PE_indirect == 0 then Got(pointer, next)
    else
      match WordAt(mem, pointer, 8)
      case Got(target, _) => Got(Plus(0, target), next)
      case _ => Undefined
  }

  function PointerAt(mem: Memory, at: nat, encoding: Byte, context: Context): Read<Address>
    requires at <= |mem|
  {
    if encoding == DW_EH_PE_omit then Refused
    else
      match PointerBase(at, encoding, context)
      case Refused => Refused
      case Undefined => Undefined
      case Got(base, at1) =>
        if base == 0 && encoding & 0x0F != DW_EH_PE_absptr then Refused
        else
          match if base == 0 then WordAt(mem, at1, 8) else OffsetAt(mem, at1, encoding & 0x0F)
          case Got(offset, next) => Followed(mem, Plus(base, offset), next, encoding)
          case Refused => Refused
          case Undefined => Undefined
  }

  /** The address that offsets count from in the relative forms. */
  predicate IsRelativeTo(encoding: Byte, at: nat, context: Context, base: Address) {
    || (encoding & 0x70 == 0x10 && base == at)
    || (encoding & 0x70 == 0x40 && base == context.funcStart)
    || (encoding & 0x70 == 0x20 && base == context.textStart)
    || (encoding & 0x70 == 0x30 && base == context.dataStart)
  }

  /** A relative pointer is read back from its base and the offset stored in any of the formats. */
  lemma RelativeRoundTrip(mem: Memory, at: nat, encoding: Byte, context: Context, base: Address, offset: Word)
    requires at <= |mem| && encoding != 0xFF && IsRelativeTo(encoding, at, context, base) && base != 0
    requires Encodable(encoding & 0x0F, offset) && Holds(mem, at, EncodeOffset(encoding & 0x0F, offset))
    ensures PointerAt(mem, at, encoding, context) ==
            Followed(mem, (base + offset as nat) % 0x1_0000_0000_0000_0000,
                     at + |EncodeOffset(encoding & 0x0F, offset)|, encoding)
  {
    hide OffsetAt, Encodable, EncodeOffset, Followed, RoundUp, Holds;
    OffsetRoundTrip(mem, at, encoding & 0x0F, offset);
  }

  lemma PlusToNull(w: Word)
    ensures Plus(0, w) == w as nat
  {
    var n := w as nat;
    WordBound(w);
    PlusIs(0, w);
    hide Plus;
    NoWrap(n);
  }

  lemma WordBound(w: Word)
    ensures w as nat < ADDRESS_SPACE
  {
  }

  lemma PlusIs(base: Address, w: Word)
    ensures Plus(base, w) == (base + w as nat) % ADDRESS_SPACE
  {
  }

  /** An absolute pointer is the word stored. */
  lemma AbsoluteRoundTrip(mem: Memory, at: nat, encoding: Byte, context: Context, pointer: Word)
    requires at <= |mem| && encoding & 0x7F == 0 && Holds(mem, at, EncodeWord(pointer, 8))
    ensures PointerAt(mem, at, encoding, context) == Followed(mem, pointer as nat, at + 8, encoding)
  {
    hide EncodeWord, LittleEndian, OffsetAt, Followed, RoundUp, Plus, Holds;
    PlusToNull(pointer);
    WordBack(mem, at, pointer);
    AbsoluteBits(encoding);
  }

  lemma AbsoluteBits(encoding: Byte)
    ensures encoding & 0x7F == 0 ==> encoding & 0x70 == 0 && encoding & 0x0F == 0 && encoding != 0xFF
    ensures encoding & 0x7F == 0x50 ==> encoding & 0x70 == 0x50 && encoding & 0x0F == 0 && encoding != 0xFF
  {
  }

  lemma WordBack(mem: Memory, at: nat, w: Word)
    requires Holds(mem, at, EncodeWord(w, 8))
    ensures WordAt(mem, at, 8) == Got(w, at + 8)
  {
    EightBytes(w);
    WordRoundTrip(mem, at, w, 8);
    hide EncodeWord, LittleEndian, FitsBytes;
  }

  lemma SlotIs(at: nat, slot: nat)
    requires at <= slot < at + 8 && slot % 8 == 0 && slot < ADDRESS_SPACE
    ensures RoundUp(at, 8) == Ok(slot)
  {
    assert IsPow2(2) && IsPow2(4);
  }

  /** An aligned pointer is the word stored at the next multiple of eight. */
  lemma AlignedRoundTrip(mem: Memory, at: nat, encoding: Byte, context: Context, slot: nat, pointer: Word)
    requires at <= |mem| && encoding & 0x7F == 0x50
    requires at <= slot < at + 8 && slot % 8 == 0 && Holds(mem, slot, EncodeWord(pointer, 8))
    ensures PointerAt(mem, at, encoding, context) == Followed(mem, pointer as nat, slot + 8, encoding)
  {
    SlotIs(at, slot);
    hide EncodeWord, LittleEndian, OffsetAt, Followed, RoundUp, Plus, Holds;
    PlusToNull(pointer);
    WordBack(mem, slot, pointer);
    AbsoluteBits(encoding);
  }

  /** Without `DW_EH_PE_indirect` the pointer is the answer; with it, the word stored where it points. */
  lemma FollowedRoundTrip(mem: Memory, pointer: Address, next: nat, encoding: Byte, target: Word)
    ensures encoding & 0x80 == 0 ==> Followed(mem, pointer, next, encoding) == Got(pointer, next)
    ensures encoding & 0x80 != 0 && Holds(mem, pointer, EncodeWord(target, 8)) ==>
              Followed(mem, pointer, next, encoding) == Got(target as nat, next)
  {
    hide EncodeWord, LittleEndian, Plus, Holds;
    PlusToNull(target);
    if Holds(mem, pointer, EncodeWord(target, 8)) {
      WordBack(mem, pointer, target);
    }
  }

  /** Which pointers are refused: an omitted one; one relative to an address that is not defined; one relative
      to the function when there is none; one that is absolute, or has a null base, in another format than a
      whole word; and a relative one in a format that no offset has. */
  lemma PointerRefusedExactly(mem: Memory, at: nat, encoding: Byte, context: Context)
    requires at <= |mem|
    ensures
      var (how, format) := (encoding & 0x70, encoding & 0x0F);
      var base := if how == 0x10 then at else if how == 0x20 then context.textStart
                  else if how == 0x30 then context.dataStart else if how == 0x40 then context.funcStart else 0;
      PointerAt(mem, at, encoding, context).Refused? <==>
        || encoding == 0xFF || how == 0x60 || how == 0x70 || (how == 0x40 && context.funcStart == 0)
        || (base == 0 && format != 0)
        || (base != 0 && format !in {0x00, 0x01, 0x02, 0x03, 0x04, 0x09, 0x0A, 0x0B, 0x0C})
  {
    hide OffsetAt, LittleEndian, Plus;
    assert IsPow2(8) by {
      assert IsPow2(2) && IsPow2(4);
    }
    HowIs(encoding);
    OffsetRefusedExactly(mem, at, encoding & 0x0F);
  }

  lemma HowIs(encoding: Byte)
    ensures encoding & 0x70 in {0x00, 0x10, 0x20, 0x30, 0x40, 0x50, 0x60, 0x70}
  {
  }

  // ----- The head of the data area

  /** What precedes the call sites: the base of landing pads, how call sites are encoded, and where the
      actions start, which is where the call sites end. */
  datatype Header = Header(lpadBase: Address, encoding: Byte, actionTable: nat)

  /** The landing pads' base, which is the function itself when it is omitted. */
  function LpadBaseAt(mem: Memory, at: nat, context: Context): Read<Address> {
    if at >= |mem| then Undefined
    else if mem[at] == DW_EH_PE_omit then Got(context.funcStart, at + 1)
    else PointerAt(mem, at + 1, mem[at], context)
  }

  /** The encoding of the type table and its offset, which is skipped. */
  function TypeTableAt(mem: Memory, at: nat): Read<()> {
    if at >= |mem| then Undefined
    else if mem[at] == DW_EH_PE_omit then Got((), at + 1)
    else
      match UnsignedAt(mem, at + 1)
      case Got(_, next) => Got((), next)
      case _ => Undefined
  }

  function HeaderAt(mem: Memory, at: nat, context: Context): Read<Header> {
    match LpadBaseAt(mem, at, context)
    case Refused => Refused
    case Undefined => Undefined
    case Got(lpadBase, at1) =>
      match TypeTableAt(mem, at1)
      case Refused => Refused
      case Undefined => Undefined
      case Got(_, at2) =>
        if at2 >= |mem| then Undefined
        else
          match UnsignedAt(mem, at2 + 1)
          case Got(length, next) => Got(Header(lpadBase, mem[at2], next + length as nat), next)
          case _ => Undefined
  }

  // ----- The search

  datatype Action = NoAction | Cleanup(lpad: Address) | Catch(lpad: Address) | Filter(lpad: Address) | Terminate

  datatype Answer = Found(action: Action) | Invalid | Meaningless

  /** The code a call site covers is from `Low` to `High`. (A sum that wraps around before it is added to the
      function's address gives the same address.) */
  function Low(site: CallSite, context: Context): Address {
    Plus(context.funcStart, site.start)
  }

  function High(site: CallSite, context: Context): Address {
    Plus(Plus(context.funcStart, site.start), site.len)
  }

  /** Action records are counted from 1; the count is taken as a signed number. */
  function RecordOf(actionTable: nat, action: Word): int {
    actionTable - 1 + if Negative(action) then action as int - ADDRESS_SPACE else action as int
  }

  /** `interpret_cs_action`: no record means cleanup, and otherwise the record's type index decides. */
  function Interpreted(mem: Memory, actionTable: nat, action: Word, lpad: Address): Answer {
    if action == 0 then Found(Cleanup(lpad))
    else
      var record := RecordOf(actionTable, action);
      if record < 0 then Meaningless
      else
        match SignedAt(mem, record)
        case Got(typeIndex, _) =>
          Found(if typeIndex == 0 then Cleanup(lpad) else if Negative(typeIndex) then Filter(lpad) else Catch(lpad))
        case _ => Meaningless
  }

  /** Where the record of an action is, in numbers. */
  predicate IsRecord(actionTable: nat, action: Word, record: int) {
    record == actionTable - 1 + action as int -
              (if action & 0x8000_0000_0000_0000 != 0 then 0x1_0000_0000_0000_0000 else 0)
  }

  /** The signed number that the compiler wrote as an action's record decides what happens: zero cleans up, a
      positive one catches, a negative one filters. */
  lemma RecordDecides(mem: Memory, actionTable: nat, action: Word, lpad: Address, record: nat, typeIndex: Word)
    requires action != 0 && IsRecord(actionTable, action, record) && Holds(mem, record, EncodeSigned(typeIndex))
    ensures Interpreted(mem, actionTable, action, lpad) ==
            Found(if typeIndex == 0 then Cleanup(lpad)
                  else if typeIndex & 0x8000_0000_0000_0000 == 0 then Catch(lpad)
                  else Filter(lpad))
  {
    hide RecordOf, Ends, End, Signed, EncodeSigned, Holds;
    RecordIs(actionTable, action, record);
    SignedRoundTrip(mem, record, typeIndex);
  }

  lemma RecordIs(actionTable: nat, action: Word, record: int)
    requires IsRecord(actionTable, action, record)
    ensures RecordOf(actionTable, action) == record
  {
  }

  /** What the data area says about an exception that passes the calls of `site`. */
  function ActionOf(mem: Memory, header: Header, site: CallSite): Answer {
    if site.lpad == 0 then Found(NoAction)
    else Interpreted(mem, header.actionTable, site.action, Plus(header.lpadBase, site.lpad))
  }

  /** The loop over the call sites from `at` on. */
  function Search(mem: Memory, at: nat, header: Header, context: Context): Answer
    decreases |mem| - at
  {
    if at >= header.actionTable then Found(Terminate)
    else
      match SiteAt(mem, at, header.encoding)
      case Refused => Invalid
      case Undefined => Meaningless
      case Got(site, next) =>
        if context.ip < Low(site, context) then Found(Terminate)
        else if context.ip < High(site, context) then ActionOf(mem, header, site)
        else
          SiteAdvances(mem, at, header.encoding);
          Search(mem, next, header, context)
  }

  lemma OffsetAdvances(mem: Memory, at: nat, encoding: Byte)
    ensures OffsetAt(mem, at, encoding).Got? ==> at < OffsetAt(mem, at, encoding).next <= |mem|
  {
  }

  lemma SiteAdvances(mem: Memory, at: nat, encoding: Byte)
    ensures SiteAt(mem, at, encoding).Got? ==> at < SiteAt(mem, at, encoding).next <= |mem|
  {
    hide OffsetAt, Ends, End, Unsigned;
    OffsetAdvances(mem, at, encoding);
    var start := OffsetAt(mem, at, encoding);
    if start.Got? {
      OffsetAdvances(mem, start.next, encoding);
      var len := OffsetAt(mem, start.next, encoding);
      if len.Got? {
        OffsetAdvances(mem, len.next, encoding);
      }
    }
  }

  /** The answer for the data area at `lsda`. */
  function ActionAt(mem: Memory, lsda: nat, context: Context): Answer {
    if lsda == 0 then Found(NoAction)
    else
      match HeaderAt(mem, lsda, context)
      case Refused => Invalid
      case Undefined => Meaningless
      case Got(header, at) => Search(mem, at, header, context)
  }

  // ----- The search finds the call site

  /** `ip` is in the code of the call site, in numbers. */
  predicate Covers(site: CallSite, context: Context) {
    IsBetween(context.ip, context.funcStart + site.start as nat, site.len as nat)
  }

  predicate IsBetween(ip: nat, from: nat, len: nat) {
    from % 0x1_0000_0000_0000_0000 <= ip < (from + len) % 0x1_0000_0000_0000_0000
  }

  /** For code that does not go around the end of memory this is to be in it. */
  lemma BetweenIs(ip: nat, from: nat, len: nat)
    requires from + len < 0x1_0000_0000_0000_0000
    ensures IsBetween(ip, from, len) <==> from <= ip < from + len
  {
    NoWrap(from);
    NoWrap(from + len);
  }

  /** The code of the call site does not go around the end of memory. */
  predicate IsRun(site: CallSite, context: Context) {
    (context.funcStart + site.start as nat) % 0x1_0000_0000_0000_0000 <=
    (context.funcStart + site.start as nat + site.len as nat) % 0x1_0000_0000_0000_0000
  }

  predicate Precedes(site: CallSite, later: CallSite, context: Context) {
    (context.funcStart + site.start as nat + site.len as nat) % 0x1_0000_0000_0000_0000 <=
    (context.funcStart + later.start as nat) % 0x1_0000_0000_0000_0000
  }

  /** The table is in order and call sites do not overlap. */
  predicate Sorted(sites: seq<CallSite>, context: Context) {
    && (forall i | 0 <= i < |sites| :: IsRun(sites[i], context))
    && (forall i, j | 0 <= i < j < |sites| :: Precedes(sites[i], sites[j], context))
  }

  lemma LowIs(site: CallSite, context: Context)
    ensures Low(site, context) == (context.funcStart + site.start as nat) % 0x1_0000_0000_0000_0000
  {
  }

  lemma HighIs(site: CallSite, context: Context)
    ensures High(site, context) ==
            (context.funcStart + site.start as nat + site.len as nat) % 0x1_0000_0000_0000_0000
  {
    WrapTwice(context.funcStart + site.start as nat, site.len as nat);
  }

  lemma WrapTwice(a: nat, b: nat)
    ensures (a % ADDRESS_SPACE + b) % ADDRESS_SPACE == (a + b) % ADDRESS_SPACE
  {
  }

  predicate AllEncodable(encoding: Byte, sites: seq<CallSite>) {
    forall i | 0 <= i < |sites| :: SiteEncodable(encoding, sites[i])
  }

  function EncodeTable(encoding: Byte, sites: seq<CallSite>): seq<Byte>
    requires AllEncodable(encoding, sites)
  {
    if sites == [] then [] else EncodeSite(encoding, sites[0]) + EncodeTable(encoding, sites[1..])
  }

  lemma TableIsEncodedSites(mem: Memory, at: nat, encoding: Byte, sites: seq<CallSite>)
    requires AllEncodable(encoding, sites) && sites != [] && Holds(mem, at, EncodeTable(encoding, sites))
    ensures AllEncodable(encoding, sites[1..])
    ensures SiteAt(mem, at, encoding) == Got(sites[0], at + |EncodeSite(encoding, sites[0])|)
    ensures Holds(mem, at + |EncodeSite(encoding, sites[0])|, EncodeTable(encoding, sites[1..]))
    ensures |EncodeTable(encoding, sites)| == |EncodeSite(encoding, sites[0])| + |EncodeTable(encoding, sites[1..])|
  {
    hide SiteEncodable, EncodeSite, SiteAt, Holds;
    HoldsParts(mem, at, EncodeSite(encoding, sites[0]), EncodeTable(encoding, sites[1..]));
    SiteRoundTrip(mem, at, encoding, sites[0]);
  }

  /** The answer for an exception that passes the calls of `site`: none without a landing pad, to clean up
      without a record, and otherwise what the signed number of the record says. */
  ghost predicate IsAnswer(mem: Memory, header: Header, site: CallSite, answer: Answer) {
    var lpad: Address := (header.lpadBase + site.lpad as nat) % 0x1_0000_0000_0000_0000;
    && (site.lpad == 0 ==> answer == Found(NoAction))
    && (site.lpad != 0 && site.action == 0 ==> answer == Found(Cleanup(lpad)))
    && (site.lpad != 0 && site.action != 0 ==>
          forall record: nat, typeIndex: Word |
            IsRecord(header.actionTable, site.action, record) && Holds(mem, record, EncodeSigned(typeIndex)) ::
            answer == Found(if typeIndex == 0 then Cleanup(lpad)
                            else if typeIndex & 0x8000_0000_0000_0000 == 0 then Catch(lpad)
                            else Filter(lpad)))
  }

  lemma ActionIsAnswer(mem: Memory, header: Header, site: CallSite)
    ensures IsAnswer(mem, header, site, ActionOf(mem, header, site))
  {
    hide Holds, EncodeSigned, IsRecord, RecordOf, Ends, End, Signed;
    if site.lpad != 0 && site.action != 0 {
      var lpad := Plus(header.lpadBase, site.lpad);
      forall record: nat, typeIndex: Word |
        IsRecord(header.actionTable, site.action, record) && Holds(mem, record, EncodeSigned(typeIndex))
        ensures Interpreted(mem, header.actionTable, site.action, lpad) ==
                Found(if typeIndex == 0 then Cleanup(lpad)
                      else if typeIndex & 0x8000_0000_0000_0000 == 0 then Catch(lpad)
                      else Filter(lpad))
      {
        RecordDecides(mem, header.actionTable, site.action, lpad, record, typeIndex);
      }
    }
  }

  /** What the search is for: the answer of the call site that covers `ip`, or to terminate. */
  ghost predicate IsLookup(mem: Memory, header: Header, sites: seq<CallSite>, context: Context, answer: Answer) {
    && (forall i | 0 <= i < |sites| && Covers(sites[i], context) :: IsAnswer(mem, header, sites[i], answer))
    && ((forall i | 0 <= i < |sites| :: !Covers(sites[i], context)) ==> answer == Found(Terminate))
  }

  lemma CoversIs(site: CallSite, context: Context)
    ensures Covers(site, context) <==> Low(site, context) <= context.ip < High(site, context)
  {
    hide Low, High;
    LowIs(site, context);
    HighIs(site, context);
  }

  lemma RunIs(site: CallSite, context: Context)
    requires IsRun(site, context)
    ensures Low(site, context) <= High(site, context)
  {
    hide Low, High;
    LowIs(site, context);
    HighIs(site, context);
  }

  lemma PrecedesIs(site: CallSite, later: CallSite, context: Context)
    requires Precedes(site, later, context)
    ensures High(site, context) <= Low(later, context)
  {
    hide Low, High;
    HighIs(site, context);
    LowIs(later, context);
  }

  lemma Beyond(sites: seq<CallSite>, context: Context)
    requires Sorted(sites, context) && sites != []
    ensures Sorted(sites[1..], context)
    ensures context.ip < High(sites[0], context) ==> forall i | 0 < i < |sites| :: !Covers(sites[i], context)
    ensures Covers(sites[0], context) <==> Low(sites[0], context) <= context.ip < High(sites[0], context)
    ensures Low(sites[0], context) <= High(sites[0], context)
  {
    hide Low, High, Covers, IsRun, Precedes;
    RunIs(sites[0], context);
    CoversIs(sites[0], context);
    forall i | 0 < i < |sites| && context.ip < High(sites[0], context) ensures !Covers(sites[i], context) {
      CoversIs(sites[i], context);
      PrecedesIs(sites[0], sites[i], context);
    }
  }

  /** The early end of the loop never skips a match: on any table that is in order, whatever the encoding,
      the search is the lookup. */
  lemma {:induction false} SearchIsLookup(mem: Memory, at: nat, header: Header, sites: seq<CallSite>, context: Context)
    requires AllEncodable(header.encoding, sites) && Holds(mem, at, EncodeTable(header.encoding, sites))
    requires at + |EncodeTable(header.encoding, sites)| == header.actionTable
    requires Sorted(sites, context)
    ensures IsLookup(mem, header, sites, context, Search(mem, at, header, context))
    decreases |sites|
  {
    hide EncodeSite, SiteEncodable, SiteAt, ActionOf, IsAnswer, Covers, Sorted, Low, High, Holds;
    if sites != [] {
      TableIsEncodedSites(mem, at, header.encoding, sites);
      SiteAdvances(mem, at, header.encoding);
      Beyond(sites, context);
      ActionIsAnswer(mem, header, sites[0]);
      if context.ip >= High(sites[0], context) {
        SearchIsLookup(mem, at + |EncodeSite(header.encoding, sites[0])|, header, sites[1..], context);
      }
    }
  }

  /** `ip` is not below the start of the call site, and not in it. */
  predicate IsPast(site: CallSite, context: Context) {
    IsAtLeast(context.ip, context.funcStart + site.start as nat, site.len as nat)
  }

  predicate IsAtLeast(ip: nat, from: nat, len: nat) {
    from % 0x1_0000_0000_0000_0000 <= ip && (from + len) % 0x1_0000_0000_0000_0000 <= ip
  }

  lemma PastIs(site: CallSite, context: Context)
    ensures IsPast(site, context) <==> Low(site, context) <= context.ip && High(site, context) <= context.ip
  {
    hide Low, High;
    LowIs(site, context);
    HighIs(site, context);
  }

  /** What the search does on any table, in order or not: the first call site that `ip` is not past decides,
      by its action if it covers `ip`, and else to terminate. */
  ghost predicate IsDecidedBy(mem: Memory, header: Header, sites: seq<CallSite>, context: Context, k: nat,
                              answer: Answer)
    requires k <= |sites|
  {
    (forall i | 0 <= i < k :: IsPast(sites[i], context)) ==>
      && (k == |sites| ==> answer == Found(Terminate))
      && (k < |sites| && Covers(sites[k], context) ==> IsAnswer(mem, header, sites[k], answer))
      && (k < |sites| && !Covers(sites[k], context) && !IsPast(sites[k], context) ==> answer == Found(Terminate))
  }

  lemma {:induction false} SearchStopsThere(mem: Memory, at: nat, header: Header, sites: seq<CallSite>,
                                            context: Context, k: nat)
    requires AllEncodable(header.encoding, sites) && Holds(mem, at, EncodeTable(header.encoding, sites))
    requires at + |EncodeTable(header.encoding, sites)| == header.actionTable && k <= |sites|
    ensures IsDecidedBy(mem, header, sites, context, k, Search(mem, at, header, context))
    decreases |sites|
  {
    hide EncodeSite, SiteEncodable, SiteAt, ActionOf, IsAnswer, Covers, IsPast, Low, High, Holds;
    if sites != [] {
      TableIsEncodedSites(mem, at, header.encoding, sites);
      SiteAdvances(mem, at, header.encoding);
      CoversIs(sites[0], context);
      PastIs(sites[0], context);
      ActionIsAnswer(mem, header, sites[0]);
      if IsPast(sites[0], context) && k > 0 {
        SearchStopsThere(mem, at + |EncodeSite(header.encoding, sites[0])|, header, sites[1..], context, k - 1);
      }
    }
  }

  /** For every data area whose head can be read, and every call-site table after it that is in order, in
      every encoding that can hold it: the action for `ip` is that of the call site that covers it, or to
      terminate. */
  lemma AreaIsLookedUp(mem: Memory, lsda: nat, header: Header, at: nat, sites: seq<CallSite>, context: Context)
    requires lsda != 0 && HeaderAt(mem, lsda, context) == Got(header, at)
    requires AllEncodable(header.encoding, sites) && Sorted(sites, context)
    requires Holds(mem, at, EncodeTable(header.encoding, sites))
    requires at + |EncodeTable(header.encoding, sites)| == header.actionTable
    ensures IsLookup(mem, header, sites, context, ActionAt(mem, lsda, context))
  {
    hide Holds, EncodeTable, AllEncodable, Sorted, HeaderAt, Search, IsLookup;
    SearchIsLookup(mem, at, header, sites, context);
  }

  /** The base of landing pads: the function itself, or a pointer with its encoding and its bytes. */
  datatype LpadBase = OwnFunction | Encoded(encoding: Byte, bytes: seq<Byte>)

  datatype TypeTable = NoTypes | Types(encoding: Byte, offset: Word)

  function EncodeBase(base: LpadBase): seq<Byte> {
    match base
    case OwnFunction => [DW_EH_PE_omit]
    case Encoded(encoding, bytes) => [encoding] + bytes
  }

  function EncodeTypes(types: TypeTable): seq<Byte> {
    match types
    case NoTypes => [DW_EH_PE_omit]
    case Types(encoding, offset) => [encoding] + EncodeUnsigned(offset)
  }

  /** A head as compilers emit it. */
  function EncodeHead(base: LpadBase, types: TypeTable, encoding: Byte, length: Word): seq<Byte> {
    EncodeBase(base) + (EncodeTypes(types) + ([encoding] + EncodeUnsigned(length)))
  }

  /** The base is the function, or the pointer that stands at `at`. */
  predicate BaseIs(mem: Memory, at: nat, base: LpadBase, context: Context, lpadBase: Address) {
    match base
    case OwnFunction => lpadBase == context.funcStart
    case Encoded(encoding, bytes) =>
      && encoding != DW_EH_PE_omit && at < |mem|
      && PointerAt(mem, at + 1, encoding, context) == Got(lpadBase, at + 1 + |bytes|)
  }

  predicate TypesFit(types: TypeTable) {
    types.Types? ==> types.encoding != DW_EH_PE_omit
  }

  lemma FirstIs(mem: Memory, at: nat, b: Byte, rest: seq<Byte>)
    requires Holds(mem, at, [b] + rest)
    ensures at < |mem| && mem[at] == b && Holds(mem, at + 1, rest)
  {
    HoldsParts(mem, at, [b], rest);
    assert mem[at] == mem[at..at + 1][0];
  }

  lemma BaseRoundTrip(mem: Memory, at: nat, base: LpadBase, context: Context, lpadBase: Address)
    requires Holds(mem, at, EncodeBase(base)) && BaseIs(mem, at, base, context, lpadBase)
    ensures LpadBaseAt(mem, at, context) == Got(lpadBase, at + |EncodeBase(base)|)
  {
    hide PointerAt, Holds;
    match base {
      case OwnFunction =>
        assert [DW_EH_PE_omit] == [DW_EH_PE_omit] + [];
        FirstIs(mem, at, DW_EH_PE_omit, []);
      case Encoded(encoding, bytes) =>
        FirstIs(mem, at, encoding, bytes);
    }
  }

  lemma TypesRoundTrip(mem: Memory, at: nat, types: TypeTable)
    requires Holds(mem, at, EncodeTypes(types)) && TypesFit(types)
    ensures TypeTableAt(mem, at) == Got((), at + |EncodeTypes(types)|)
  {
    hide Holds, Ends, End, Unsigned, EncodeUnsigned;
    match types {
      case NoTypes =>
        assert [DW_EH_PE_omit] == [DW_EH_PE_omit] + [];
        FirstIs(mem, at, DW_EH_PE_omit, []);
      case Types(encoding, offset) =>
        FirstIs(mem, at, encoding, EncodeUnsigned(offset));
        UnsignedRoundTrip(mem, at + 1, offset);
    }
  }

  /** A head is read back: with or without a base for landing pads, with or without a type table. */
  lemma HeadRoundTrip(mem: Memory, at: nat, base: LpadBase, types: TypeTable, encoding: Byte, length: Word,
                      context: Context, lpadBase: Address)
    requires Holds(mem, at, EncodeHead(base, types, encoding, length))
    requires BaseIs(mem, at, base, context, lpadBase) && TypesFit(types)
    ensures
      var next := at + |EncodeHead(base, types, encoding, length)|;
      HeaderAt(mem, at, context) == Got(Header(lpadBase, encoding, next + length as nat), next)
  {
    hide Holds, Ends, End, Unsigned, EncodeUnsigned, EncodeBase, EncodeTypes, BaseIs, LpadBaseAt, TypeTableAt;
    var tail := [encoding] + EncodeUnsigned(length);
    HoldsParts(mem, at, EncodeBase(base), EncodeTypes(types) + tail);
    BaseRoundTrip(mem, at, base, context, lpadBase);
    var at1 := at + |EncodeBase(base)|;
    HoldsParts(mem, at1, EncodeTypes(types), tail);
    TypesRoundTrip(mem, at1, types);
    var at2 := at1 + |EncodeTypes(types)|;
    FirstIs(mem, at2, encoding, EncodeUnsigned(length));
    UnsignedRoundTrip(mem, at2 + 1, length);
  }

  /** The same from the bytes of the head and the table, whatever follows them in memory. */
  lemma EmittedAreaIsLookedUp(mem: Memory, lsda: nat, base: LpadBase, types: TypeTable, encoding: Byte, length: Word,
                              sites: seq<CallSite>, context: Context, lpadBase: Address)
    requires lsda != 0 && AllEncodable(encoding, sites) && Sorted(sites, context)
    requires length as nat == |EncodeTable(encoding, sites)|
    requires Holds(mem, lsda, EncodeHead(base, types, encoding, length) + EncodeTable(encoding, sites))
    requires BaseIs(mem, lsda, base, context, lpadBase) && TypesFit(types)
    ensures
      var end := lsda + |EncodeHead(base, types, encoding, length)| + |EncodeTable(encoding, sites)|;
      IsLookup(mem, Header(lpadBase, encoding, end), sites, context, ActionAt(mem, lsda, context))
  {
    hide Holds, EncodeHead, EncodeTable, AllEncodable, Sorted, HeaderAt, ActionAt, IsLookup, BaseIs;
    var head := EncodeHead(base, types, encoding, length);
    HoldsParts(mem, lsda, head, EncodeTable(encoding, sites));
    HeadRoundTrip(mem, lsda, base, types, encoding, length, context, lpadBase);
    var at := lsda + |head|;
    AreaIsLookedUp(mem, lsda, Header(lpadBase, encoding, at + length as nat), at, sites, context);
  }

  /** Without an area there is nothing to do. A base of landing pads that cannot be read is an error. */
  lemma BaseDecides(mem: Memory, lsda: nat, context: Context)
    ensures lsda == 0 ==> ActionAt(mem, lsda, context) == Found(NoAction)
    ensures 0 < lsda < |mem| && mem[lsda] != 0xFF && PointerAt(mem, lsda + 1, mem[lsda], context).Refused? ==>
              ActionAt(mem, lsda, context) == Invalid
  {
    hide PointerAt, TypeTableAt, Search;
  }

  /** A table that is not empty, in an encoding that no offset has, is an error. */
  lemma BadEncodingIsInvalid(mem: Memory, lsda: nat, base: LpadBase, types: TypeTable, encoding: Byte, length: Word,
                             context: Context, lpadBase: Address)
    requires lsda != 0 && Holds(mem, lsda, EncodeHead(base, types, encoding, length))
    requires BaseIs(mem, lsda, base, context, lpadBase) && TypesFit(types) && length as nat > 0
    requires encoding !in {0x00, 0x01, 0x02, 0x03, 0x04, 0x09, 0x0A, 0x0B, 0x0C}
    ensures ActionAt(mem, lsda, context) == Invalid
  {
    hide Holds, EncodeHead, OffsetAt, PointerAt, HeaderAt, BaseIs, TypesFit;
    HeadRoundTrip(mem, lsda, base, types, encoding, length, context, lpadBase);
    OffsetRefusedExactly(mem, lsda + |EncodeHead(base, types, encoding, length)|, encoding);
  }

  /** The same from the bytes of the head and the table. */
  lemma EmittedAreaStopsThere(mem: Memory, lsda: nat, base: LpadBase, types: TypeTable, encoding: Byte, length: Word,
                              sites: seq<CallSite>, context: Context, lpadBase: Address, k: nat)
    requires lsda != 0 && AllEncodable(encoding, sites) && k <= |sites|
    requires length as nat == |EncodeTable(encoding, sites)|
    requires Holds(mem, lsda, EncodeHead(base, types, encoding, length) + EncodeTable(encoding, sites))
    requires BaseIs(mem, lsda, base, context, lpadBase) && TypesFit(types)
    ensures
      var end := lsda + |EncodeHead(base, types, encoding, length)| + |EncodeTable(encoding, sites)|;
      IsDecidedBy(mem, Header(lpadBase, encoding, end), sites, context, k, ActionAt(mem, lsda, context))
  {
    hide Holds, EncodeHead, EncodeTable, AllEncodable, HeaderAt, Search, IsDecidedBy, BaseIs;
    var head := EncodeHead(base, types, encoding, length);
    HoldsParts(mem, lsda, head, EncodeTable(encoding, sites));
    HeadRoundTrip(mem, lsda, base, types, encoding, length, context, lpadBase);
    var at := lsda + |head|;
    SearchStopsThere(mem, at, Header(lpadBase, encoding, at + length as nat), sites, context, k);
  }

  // ----- The program

  /** `read_encoded_offset`. */
  method ReadEncodedOffset(reader: DwarfReader, encoding: Byte) returns (result: Checked<Word>)
    requires |reader.mem| < ADDRESS_SPACE && !OffsetAt(reader.mem, reader.ptr, encoding).Undefined?
    modifies reader
    ensures
      match OffsetAt(reader.mem, old(reader.ptr), encoding)
      case Got(value, next) => result == Ok(value) && reader.ptr == next
      case _ => result == Err(())
  {
    hide Ends, End, Unsigned, Signed, LittleEndian, SignedLittleEndian;
    if encoding == DW_EH_PE_omit || encoding & 0xF0 != 0 {
      return Err(());
    }
    var value;
    match encoding & 0x0F {
      case 0x00 => value := reader.ReadWord(8);
      case 0x01 => value := reader.ReadUnsignedLeb();
      case 0x02 => value := reader.ReadWord(2);
      case 0x03 => value := reader.ReadWord(4);
      case 0x04 => value := reader.ReadWord(8);
      case 0x09 => value := reader.ReadSignedLeb();
      case 0x0A => value := reader.ReadSignedWord(2);
      case 0x0B => value := reader.ReadSignedWord(4);
      case 0x0C => value := reader.ReadWord(8);
      case _ => return Err(());
    }
    return Ok(value);
  }

  /** `read_encoded_pointer`. */
  method ReadEncodedPointer(reader: DwarfReader, context: Context, encoding: Byte) returns (result: Checked<Address>)
    requires reader.ptr <= |reader.mem| < ADDRESS_SPACE
    requires !PointerAt(reader.mem, reader.ptr, encoding, context).Undefined?
    modifies reader
    ensures
      match PointerAt(reader.mem, old(reader.ptr), encoding, context)
      case Got(value, next) => result == Ok(value) && reader.ptr == next
      case _ => result == Err(())
  {
    hide OffsetAt, LittleEndian, Ends, Plus, RoundUp;
    if encoding == DW_EH_PE_omit {
      return Err(());
    }
    var base: Address := 0;
    match encoding & 0x70 {
      case 0x00 =>
      case 0x10 => base := reader.ptr;
      case 0x40 =>
        if context.funcStart == 0 {
          return Err(());
        }
        base := context.funcStart;
      case 0x20 => base := context.textStart;
      case 0x30 => base := context.dataStart;
      case 0x50 =>
        match RoundUp(reader.ptr, 8) {
          case Ok(aligned) => reader.ptr := aligned;
          case Err(()) => return Err(());
        }
      case _ => return Err(());
    }
    var offset;
    if base == 0 {
      if encoding & 0x0F != DW_EH_PE_absptr {
        return Err(());
      }
      offset := reader.ReadWord(8);
    } else {
      var read := ReadEncodedOffset(reader, encoding & 0x0F);
      match read {
        case Ok(value) => offset := value;
        case Err(()) => return Err(());
      }
    }
    var pointer := Plus(base, offset);
    if encoding & DW_EH_PE_indirect != 0 {
      pointer := Plus(0, LittleEndian(reader.mem, pointer, 8));
    }
    return Ok(pointer);
  }

  /** `interpret_cs_action`. */
  method InterpretAction(mem: Memory, actionTable: nat, action: Word, lpad: Address) returns (result: Action)
    requires !Interpreted(mem, actionTable, action, lpad).Meaningless?
    ensures Found(result) == Interpreted(mem, actionTable, action, lpad)
  {
    hide Ends, End, Signed, Negative, RecordOf;
    if action == 0 {
      return Cleanup(lpad);
    }
    var reader := new DwarfReader(mem, RecordOf(actionTable, action));
    var typeIndex := reader.ReadSignedLeb();
    if typeIndex == 0 {
      return Cleanup(lpad);
    } else if !Negative(typeIndex) {
      return Catch(lpad);
    } else {
      return Filter(lpad);
    }
  }

  /** What `find_eh_action` reads before the call sites. */
  method ReadHeader(reader: DwarfReader, context: Context) returns (result: Checked<Header>)
    requires |reader.mem| < ADDRESS_SPACE && !HeaderAt(reader.mem, reader.ptr, context).Undefined?
    modifies reader
    ensures
      match HeaderAt(reader.mem, old(reader.ptr), context)
      case Got(header, next) => result == Ok(header) && reader.ptr == next
      case _ => result == Err(())
  {
    hide PointerAt, Ends, End, Unsigned;
    var lpadBase := context.funcStart;
    var startEncoding := reader.ReadByte();
    if startEncoding != DW_EH_PE_omit {
      var base := ReadEncodedPointer(reader, context, startEncoding);
      match base {
        case Ok(value) => lpadBase := value;
        case Err(()) => return Err(());
      }
    }
    var typeEncoding := reader.ReadByte();
    if typeEncoding != DW_EH_PE_omit {
      var _ := reader.ReadUnsignedLeb();
    }
    var encoding := reader.ReadByte();
    var length := reader.ReadUnsignedLeb();
    return Ok(Header(lpadBase, encoding, reader.ptr + length as nat));
  }

  /** The four numbers of a call site, which the loop reads first. */
  method ReadSite(reader: DwarfReader, encoding: Byte) returns (result: Checked<CallSite>)
    requires |reader.mem| < ADDRESS_SPACE && !SiteAt(reader.mem, reader.ptr, encoding).Undefined?
    modifies reader
    ensures
      match SiteAt(reader.mem, old(reader.ptr), encoding)
      case Got(site, next) => result == Ok(site) && reader.ptr == next
      case _ => result == Err(())
  {
    hide OffsetAt, Ends, End, Unsigned;
    var start := ReadEncodedOffset(reader, encoding);
    if start.Err? {
      return Err(());
    }
    var len := ReadEncodedOffset(reader, encoding);
    if len.Err? {
      return Err(());
    }
    var lpad := ReadEncodedOffset(reader, encoding);
    if lpad.Err? {
      return Err(());
    }
    var action := reader.ReadUnsignedLeb();
    return Ok(CallSite(start.value, len.value, lpad.value, action));
  }

  /** The loop of `find_eh_action`, which ends at the first call site past `ip`. */
  method SearchTable(reader: DwarfReader, header: Header, context: Context) returns (result: Checked<Action>)
    requires |reader.mem| < ADDRESS_SPACE && !Search(reader.mem, reader.ptr, header, context).Meaningless?
    modifies reader
    ensures Search(reader.mem, old(reader.ptr), header, context) == if result.Ok? then Found(result.value) else Invalid
  {
    while reader.ptr < header.actionTable
      invariant Search(reader.mem, reader.ptr, header, context) == Search(reader.mem, old(reader.ptr), header, context)
      decreases |reader.mem| - reader.ptr
    {
      SiteAdvances(reader.mem, reader.ptr, header.encoding);
      var read := ReadSite(reader, header.encoding);
      if read.Err? {
        return Err(());
      }
      var site := read.value;
      if context.ip < Low(site, context) {
        break;
      }
      if context.ip < High(site, context) {
        if site.lpad == 0 {
          return Ok(NoAction);
        }
        var action := InterpretAction(reader.mem, header.actionTable, site.action, Plus(header.lpadBase, site.lpad));
        return Ok(action);
      }
    }
    return Ok(Terminate);
  }

  method FindEhAction(mem: Memory, lsda: nat, context: Context) returns (result: Checked<Action>)
    requires !ActionAt(mem, lsda, context).Meaningless?
    ensures ActionAt(mem, lsda, context) == if result.Ok? then Found(result.value) else Invalid
  {
    hide HeaderAt, Search;
    if lsda == 0 {
      return Ok(NoAction);
    }
    var reader := new DwarfReader(mem, lsda);
    var read := ReadHeader(reader, context);
    match read {
      case Ok(header) => result := SearchTable(reader, header, context);
      case Err(()) => result := Err(());
    }
  }
}
