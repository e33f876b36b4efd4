/** `DwarfReader` of std/sys-src/personality/dwarf/mod.rs: packed little-endian words and LEB128 numbers
    read off a stream of bytes. */
module DwarfReaders {
  import opened Leb128
  import opened PackedWords

  // ----- What the loops accumulate

  /** The value of `shift` after `k` bytes. */
  function ShiftAfter(k: nat): Word {
    if k == 0 then 0 else ShiftAfter(k - 1) + 7
  }

  predicate IsShift(s: Word) {
    s == 0 || s == 7 || s == 14 || s == 21 || s == 28 || s == 35 || s == 42 || s == 49 || s == 56 || s == 63
  }

  lemma ShiftsAre(k: nat)
    requires k <= 9
    ensures IsShift(ShiftAfter(k)) && (k == 9 <==> ShiftAfter(k) == 63)
  {
    if k == 0 {} else if k == 1 {} else if k == 2 {} else if k == 3 {} else if k == 4 {}
    else if k == 5 {} else if k == 6 {} else if k == 7 {} else { assert ShiftAfter(4) == 28; }
  }

  /** `result` with the number `w` put in from bit `shift` on. */
  function Joined(result: Word, w: Word, shift: Word): Word
    requires IsShift(shift)
  {
    result | (w << shift)
  }

  lemma JoinedBits(r: Word, p: Word, u: Word, s: Word)
    requires IsShift(s) && s != 63
    ensures r | ((p | (u << 7)) << s) == (r | (p << s)) | (u << (s + 7))
  {
    if s == 0 {} else if s == 7 {} else if s == 14 {} else if s == 21 {} else if s == 28 {} else if s == 35 {}
    else if s == 42 {} else if s == 49 {} else if s == 56 {}
  }

  lemma SignBits(r: Word, p: Word, s: Word)
    requires IsShift(s)
    ensures s < 63 ==> r | ((p | 0xFFFF_FFFF_FFFF_FF80) << s) == (r | (p << s)) | (0xFFFF_FFFF_FFFF_FFFF << (s + 7))
    ensures s == 63 ==> r | ((p | 0xFFFF_FFFF_FFFF_FF80) << s) == r | (p << s)
  {
    if s == 0 {} else if s == 7 {} else if s == 14 {} else if s == 21 {} else if s == 28 {} else if s == 35 {}
    else if s == 42 {} else if s == 49 {} else if s == 56 {}
  }

  lemma NextShift(s: Word)
    requires IsShift(s) && s != 63
    ensures IsShift(s + 7)
  {
  }

  lemma JoinedParts(r: Word, p: Word, u: Word, s: Word)
    requires IsShift(s) && s != 63 && IsShift(s + 7)
    ensures Joined(r, p | (u << 7), s) == Joined(Joined(r, p, s), u, s + 7)
  {
    hide IsShift;
    JoinedBits(r, p, u, s);
  }

  /** One more byte of a number, read by a loop from the low end or defined from the high end. */
  lemma JoinedBelow(r: Word, b: Byte, u: Word, s: Word)
    requires IsShift(s) && s != 63
    ensures IsShift(s + 7) && Joined(r, Below(b, u), s) == Joined(Joined(r, Payload(b), s), u, s + 7)
  {
    hide Payload, IsShift, Joined;
    NextShift(s);
    JoinedParts(r, Payload(b), u, s);
  }

  /** The sign extension after the last byte, which is left out after ten bytes. */
  function Extended(result: Word, byte: Byte, shift: Word): Word {
    if shift < 64 && byte & 0x40 != 0 then result | (0xFFFF_FFFF_FFFF_FFFF << shift) else result
  }

  lemma AfterShift(s: Word)
    requires IsShift(s)
    ensures s + 7 < 64 <==> s != 63
    ensures s != 63 ==> s < 63
  {
  }

  lemma SignJoined(r: Word, b: Byte, s: Word)
    requires IsShift(s) && b & 0x40 != 0
    ensures s != 63 ==> s + 7 < 64 &&
                        Joined(r, SignedPayload(b), s) == Joined(r, Payload(b), s) | (0xFFFF_FFFF_FFFF_FFFF << (s + 7))
    ensures s == 63 ==> Joined(r, SignedPayload(b), s) == Joined(r, Payload(b), s)
  {
    AfterShift(s);
    SignBits(r, Payload(b), s);
    hide Payload, IsShift;
  }

  lemma PlainJoined(r: Word, b: Byte, s: Word, after: Word)
    requires IsShift(s) && b & 0x40 == 0
    ensures Joined(r, SignedPayload(b), s) == Joined(r, Payload(b), s)
    ensures Extended(Joined(r, Payload(b), s), b, after) == Joined(r, Payload(b), s)
  {
    hide Payload, IsShift, Joined;
  }

  lemma JoinedSigned(r: Word, b: Byte, s: Word)
    requires IsShift(s)
    ensures Joined(r, SignedPayload(b), s) == Extended(Joined(r, Payload(b), s), b, s + 7)
  {
    if b & 0x40 != 0 {
      AfterShift(s);
      SignJoined(r, b, s);
      hide Payload, IsShift, Joined, SignedPayload;
    } else {
      PlainJoined(r, b, s, s + 7);
      hide Payload, IsShift, Joined, SignedPayload, Extended;
    }
  }

  lemma ZeroShift(w: Word)
    ensures IsShift(0) && Joined(0, w, 0) == w
  {
  }

  // ----- One byte of a number

  lemma FirstByte(mem: seq<Byte>, at: nat, most: nat)
    requires Ends(mem, at, most)
    ensures at < |mem| && most > 0
    ensures IsLast(mem[at]) ==>
              && Unsigned(mem, at, most) == Payload(mem[at]) && Signed(mem, at, most) == SignedPayload(mem[at])
              && End(mem, at, most) == at + 1
    ensures !IsLast(mem[at]) ==>
              && most > 1 && Ends(mem, at + 1, most - 1)
              && Unsigned(mem, at, most) == Below(mem[at], Unsigned(mem, at + 1, most - 1))
              && Signed(mem, at, most) == Below(mem[at], Signed(mem, at + 1, most - 1))
              && End(mem, at, most) == End(mem, at + 1, most - 1)
  {
    hide IsLast, Below, Payload, SignedPayload;
  }

  /** The shift before the last `most` bytes a number may have. */
  predicate ShiftBefore(shift: Word, most: nat) {
    0 < most <= 10 && shift == ShiftAfter(10 - most)
  }

  lemma ShiftFits(shift: Word, most: nat)
    requires ShiftBefore(shift, most)
    ensures IsShift(shift)
    ensures most > 1 ==> shift != 63 && ShiftBefore(shift + 7, most - 1)
  {
    ShiftsAre(10 - most);
    hide IsShift;
    assert most > 1 ==> ShiftAfter(10 - (most - 1)) == ShiftAfter(10 - most) + 7;
  }

  /** A loop has read the number at `start` up to `at`, and has `result`. */
  ghost predicate UnsignedSoFar(mem: seq<Byte>, start: nat, at: nat, most: nat, result: Word, shift: Word) {
    && ShiftBefore(shift, most) && IsShift(shift)
    && Ends(mem, start, 10) && Ends(mem, at, most) && End(mem, at, most) == End(mem, start, 10)
    && Joined(result, Unsigned(mem, at, most), shift) == Unsigned(mem, start, 10)
  }

  ghost predicate SignedSoFar(mem: seq<Byte>, start: nat, at: nat, most: nat, result: Word, shift: Word) {
    && ShiftBefore(shift, most) && IsShift(shift)
    && Ends(mem, start, 10) && Ends(mem, at, most) && End(mem, at, most) == End(mem, start, 10)
    && Joined(result, Signed(mem, at, most), shift) == Signed(mem, start, 10)
  }

  lemma StartSoFar(mem: seq<Byte>, start: nat)
    requires Ends(mem, start, 10)
    ensures UnsignedSoFar(mem, start, start, 10, 0, 0) && SignedSoFar(mem, start, start, 10, 0, 0)
  {
    ZeroShift(Unsigned(mem, start, 10));
    ZeroShift(Signed(mem, start, 10));
    hide Ends, End, Unsigned, Signed, IsShift, Joined;
  }

  lemma UnsignedLast(mem: seq<Byte>, start: nat, at: nat, most: nat, result: Word, shift: Word)
    requires UnsignedSoFar(mem, start, at, most, result, shift) && IsLast(mem[at])
    ensures Joined(result, Payload(mem[at]), shift) == Unsigned(mem, start, 10) && at + 1 == End(mem, start, 10)
  {
    FirstByte(mem, at, most);
    hide Joined, Payload, IsShift, IsLast, Ends, End, Unsigned;
  }

  lemma UnsignedMore(mem: seq<Byte>, start: nat, at: nat, most: nat, result: Word, shift: Word)
    requires UnsignedSoFar(mem, start, at, most, result, shift) && !IsLast(mem[at])
    ensures most > 1
    ensures UnsignedSoFar(mem, start, at + 1, most - 1, Joined(result, Payload(mem[at]), shift), shift + 7)
  {
    FirstByte(mem, at, most);
    ShiftFits(shift, most);
    JoinedBelow(result, mem[at], Unsigned(mem, at + 1, most - 1), shift);
    hide Joined, Payload, IsShift, IsLast, Ends, End, Unsigned, Below, ShiftBefore;
  }

  lemma SignedLast(mem: seq<Byte>, start: nat, at: nat, most: nat, result: Word, shift: Word)
    requires SignedSoFar(mem, start, at, most, result, shift) && IsLast(mem[at])
    ensures Extended(Joined(result, Payload(mem[at]), shift), mem[at], shift + 7) == Signed(mem, start, 10)
    ensures at + 1 == End(mem, start, 10)
  {
    FirstByte(mem, at, most);
    JoinedSigned(result, mem[at], shift);
    hide Joined, Payload, SignedPayload, IsShift, IsLast, Ends, End, Signed, Extended;
  }

  lemma SignedMore(mem: seq<Byte>, start: nat, at: nat, most: nat, result: Word, shift: Word)
    requires SignedSoFar(mem, start, at, most, result, shift) && !IsLast(mem[at])
    ensures most > 1
    ensures SignedSoFar(mem, start, at + 1, most - 1, Joined(result, Payload(mem[at]), shift), shift + 7)
  {
    FirstByte(mem, at, most);
    ShiftFits(shift, most);
    JoinedBelow(result, mem[at], Signed(mem, at + 1, most - 1), shift);
    hide Joined, Payload, IsShift, IsLast, Ends, End, Signed, Below, ShiftBefore;
  }

  class DwarfReader {
    const mem: seq<Byte>
    var ptr: nat

    constructor (mem: seq<Byte>, ptr: nat)
      ensures this.mem == mem && this.ptr == ptr
    {
      this.mem := mem;
      this.ptr := ptr;
    }

    method ReadByte() returns (result: Byte)
      requires ptr < |mem|
      modifies this`ptr
      ensures result == mem[old(ptr)] && ptr == old(ptr) + 1
    {
      result := mem[ptr];
      ptr := ptr + 1;
    }

    /** `read` of an unsigned type of `size` bytes. */
    method ReadWord(size: nat) returns (result: Word)
      requires ptr + size <= |mem|
      modifies this`ptr
      ensures result == LittleEndian(mem, old(ptr), size) && ptr == old(ptr) + size
    {
      result := LittleEndian(mem, ptr, size);
      ptr := ptr + size;
    }

    /** `read` of a signed type of `size` bytes, widened to 64 bits. */
    method ReadSignedWord(size: nat) returns (result: Word)
      requires size > 0 && ptr + size <= |mem|
      modifies this`ptr
      ensures result == SignedLittleEndian(mem, old(ptr), size) && ptr == old(ptr) + size
    {
      result := SignedLittleEndian(mem, ptr, size);
      ptr := ptr + size;
    }

    /** `read_uleb128`: the loop puts seven bits after seven bits above each other. */
    method ReadUnsignedLeb() returns (result: Word)
      requires Ends(mem, ptr, 10)
      modifies this`ptr
      ensures result == Unsigned(mem, old(ptr), 10) && ptr == End(mem, old(ptr), 10)
    {
      var shift: Word := 0;
      result := 0;
      ghost var most: nat := 10;
      StartSoFar(mem, ptr);
      while true
        invariant UnsignedSoFar(mem, old(ptr), ptr, most, result, shift)
        decreases most
      {
        ghost var at, before, was := ptr, result, shift;
        FirstByte(mem, ptr, most);
        hide *;
        var byte := ReadByte();
        result := Joined(result, Payload(byte), shift);
        shift := shift + 7;
        if IsLast(byte) {
          UnsignedLast(mem, old(ptr), at, most, before, was);
          break;
        }
        UnsignedMore(mem, old(ptr), at, most, before, was);
        most := most - 1;
      }
    }

    /** `read_sleb128`: the same loop, and then the sign, unless all 64 bits were given. */
    method ReadSignedLeb() returns (result: Word)
      requires Ends(mem, ptr, 10)
      modifies this`ptr
      ensures result == Signed(mem, old(ptr), 10) && ptr == End(mem, old(ptr), 10)
    {
      var shift: Word := 0;
      result := 0;
      var byte: Byte;
      ghost var most: nat := 10;
      StartSoFar(mem, ptr);
      while true
        invariant SignedSoFar(mem, old(ptr), ptr, most, result, shift)
        decreases most
      {
        ghost var at, before, was := ptr, result, shift;
        FirstByte(mem, ptr, most);
        hide *;
        byte := ReadByte();
        result := Joined(result, Payload(byte), shift);
        shift := shift + 7;
        if IsLast(byte) {
          SignedLast(mem, old(ptr), at, most, before, was);
          break;
        }
        SignedMore(mem, old(ptr), at, most, before, was);
        most := most - 1;
      }
      hide *;
      result := Extended(result, byte, shift);
    }
  }
}
