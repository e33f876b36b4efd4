/** Words of one to eight bytes, the lowest byte first, as x86-64 stores them, and their round trips. */
module PackedWords {
  import opened Leb128

  function LowByte(w: Word): Byte {
    (w & 0xFF) as Byte
  }

  function UpperBytes(w: Word): Word {
    w >> 8
  }

  function UpperSignedBytes(w: Word): Word {
    if Negative(w) then (w >> 8) | 0xFF00_0000_0000_0000 else w >> 8
  }

  function EncodeWord(w: Word, size: nat): seq<Byte> {
    if size == 0 then [] else [LowByte(w)] + EncodeWord(UpperBytes(w), size - 1)
  }

  function EncodeSignedWord(w: Word, size: nat): seq<Byte>
    decreases size
  {
    if size == 0 then [] else [LowByte(w)] + EncodeSignedWord(UpperSignedBytes(w), size - 1)
  }

  function ByteBelow(b: Byte, upper: Word): Word {
    b as Word | (upper << 8)
  }

  function SignedByte(b: Byte): Word {
    if b & 0x80 != 0 then b as Word | 0xFFFF_FFFF_FFFF_FF00 else b as Word
  }

  /** The word of `size` bytes at `at`. */
  function LittleEndian(mem: seq<Byte>, at: nat, size: nat): Word
    requires at + size <= |mem|
    decreases size
  {
    if size == 0 then 0 else ByteBelow(mem[at], LittleEndian(mem, at + 1, size - 1))
  }

  /** The signed word of `size` bytes at `at`, extended to 64 bits. */
  function SignedLittleEndian(mem: seq<Byte>, at: nat, size: nat): Word
    requires size > 0 && at + size <= |mem|
    decreases size
  {
    if size == 1 then SignedByte(mem[at]) else ByteBelow(mem[at], SignedLittleEndian(mem, at + 1, size - 1))
  }

  predicate FitsBytes(w: Word, size: nat)
    decreases size
  {
    if size == 0 then w == 0 else FitsBytes(UpperBytes(w), size - 1)
  }

  predicate FitsSignedBytes(w: Word, size: nat)
    requires size > 0
    decreases size
  {
    if size == 1 then SignedByte(LowByte(w)) == w else FitsSignedBytes(UpperSignedBytes(w), size - 1)
  }

  lemma LowAndUpper(w: Word)
    ensures ByteBelow(LowByte(w), UpperBytes(w)) == w
  {
  }

  lemma SignShiftedOut(x: Word)
    ensures (x | 0xFF00_0000_0000_0000) << 8 == x << 8
  {
  }

  lemma LowAndUpperSigned(w: Word)
    ensures ByteBelow(LowByte(w), UpperSignedBytes(w)) == w
  {
    SignShiftedOut(w >> 8);
    LowAndUpper(w);
    hide LowByte, Negative;
  }

  lemma {:induction false} WordRoundTrip(mem: seq<Byte>, at: nat, w: Word, size: nat)
    requires Holds(mem, at, EncodeWord(w, size)) && FitsBytes(w, size)
    ensures |EncodeWord(w, size)| == size && LittleEndian(mem, at, size) == w
    decreases size
  {
    hide LowByte, UpperBytes, ByteBelow;
    if size > 0 {
      HoldsParts(mem, at, [LowByte(w)], EncodeWord(UpperBytes(w), size - 1));
      assert mem[at] == mem[at..at + 1][0] == LowByte(w);
      WordRoundTrip(mem, at + 1, UpperBytes(w), size - 1);
      LowAndUpper(w);
    }
  }

  /** A signed word is stored by the same bytes. */
  lemma {:induction false} SignedWordRoundTrip(mem: seq<Byte>, at: nat, w: Word, size: nat)
    requires size > 0 && Holds(mem, at, EncodeSignedWord(w, size)) && FitsSignedBytes(w, size)
    ensures |EncodeSignedWord(w, size)| == size && SignedLittleEndian(mem, at, size) == w
    decreases size
  {
    hide LowByte, UpperSignedBytes, ByteBelow, SignedByte;
    HoldsParts(mem, at, [LowByte(w)], EncodeSignedWord(UpperSignedBytes(w), size - 1));
    assert mem[at] == mem[at..at + 1][0] == LowByte(w);
    if size > 1 {
      SignedWordRoundTrip(mem, at + 1, UpperSignedBytes(w), size - 1);
      LowAndUpperSigned(w);
    }
  }

  // ----- In single bytes

  function TwoJoined(a: Byte, b: Byte): Word {
    a as Word | (b as Word << 8)
  }

  function FourJoined(a: Byte, b: Byte, c: Byte, d: Byte): Word {
    a as Word | (b as Word << 8) | (c as Word << 16) | (d as Word << 24)
  }

  /** `w` with the bits `above` if the last byte has a sign. */
  function WithSign(w: Word, last: Byte, above: Word): Word {
    if last & 0x80 != 0 then w | above else w
  }

  lemma LittleEndianStep(mem: seq<Byte>, at: nat, size: nat)
    requires at + size <= |mem| && size > 0
    ensures LittleEndian(mem, at, 0) == 0
    ensures LittleEndian(mem, at, size) == ByteBelow(mem[at], LittleEndian(mem, at + 1, size - 1))
    ensures SignedLittleEndian(mem, at, size) ==
            if size == 1 then SignedByte(mem[at]) else ByteBelow(mem[at], SignedLittleEndian(mem, at + 1, size - 1))
  {
    hide ByteBelow, SignedByte;
  }

  lemma JoinTwo(a: Byte, b: Byte)
    ensures ByteBelow(a, ByteBelow(b, 0)) == TwoJoined(a, b)
    ensures ByteBelow(a, SignedByte(b)) == WithSign(TwoJoined(a, b), b, 0xFFFF_FFFF_FFFF_0000)
  {
  }

  lemma JoinFour(a: Byte, b: Byte, c: Byte, d: Byte)
    ensures ByteBelow(a, ByteBelow(b, TwoJoined(c, d))) == FourJoined(a, b, c, d)
  {
  }

  lemma BelowWithSign(b: Byte, w: Word, d: Byte)
    ensures ByteBelow(b, WithSign(w, d, 0xFFFF_FFFF_FFFF_0000)) == WithSign(ByteBelow(b, w), d, 0xFFFF_FFFF_FF00_0000)
    ensures ByteBelow(b, WithSign(w, d, 0xFFFF_FFFF_FF00_0000)) == WithSign(ByteBelow(b, w), d, 0xFFFF_FFFF_0000_0000)
  {
  }

  /** The lowest byte comes first, and a sign is extended from the last. */
  lemma TwoBytes(mem: seq<Byte>, at: nat)
    requires at + 2 <= |mem|
    ensures LittleEndian(mem, at, 2) == TwoJoined(mem[at], mem[at + 1])
    ensures SignedLittleEndian(mem, at, 2) ==
            WithSign(TwoJoined(mem[at], mem[at + 1]), mem[at + 1], 0xFFFF_FFFF_FFFF_0000)
  {
    hide *;
    LittleEndianStep(mem, at, 2);
    LittleEndianStep(mem, at + 1, 1);
    NoBytes(mem, at + 2);
    JoinTwo(mem[at], mem[at + 1]);
  }

  lemma NoBytes(mem: seq<Byte>, at: nat)
    requires at <= |mem|
    ensures LittleEndian(mem, at, 0) == 0
  {
  }

  lemma FourBytes(mem: seq<Byte>, at: nat)
    requires at + 4 <= |mem|
    ensures LittleEndian(mem, at, 4) == FourJoined(mem[at], mem[at + 1], mem[at + 2], mem[at + 3])
    ensures SignedLittleEndian(mem, at, 4) ==
            WithSign(FourJoined(mem[at], mem[at + 1], mem[at + 2], mem[at + 3]), mem[at + 3], 0xFFFF_FFFF_0000_0000)
  {
    hide *;
    var a, b, c, d := mem[at], mem[at + 1], mem[at + 2], mem[at + 3];
    LittleEndianStep(mem, at, 4);
    LittleEndianStep(mem, at + 1, 3);
    TwoBytes(mem, at + 2);
    JoinFour(a, b, c, d);
    BelowWithSign(b, TwoJoined(c, d), d);
    BelowWithSign(a, ByteBelow(b, TwoJoined(c, d)), d);
  }

  // ----- Records of words

  /** The first field of a record is read back, and the other fields follow it. */
  lemma TakeField(mem: seq<Byte>, at: nat, w: Word, size: nat, rest: seq<Byte>)
    requires Holds(mem, at, EncodeWord(w, size) + rest) && FitsBytes(w, size)
    ensures at + size <= |mem| && LittleEndian(mem, at, size) == w && Holds(mem, at + size, rest)
    ensures |EncodeWord(w, size) + rest| == size + |rest|
  {
    HoldsParts(mem, at, EncodeWord(w, size), rest);
    WordRoundTrip(mem, at, w, size);
    hide FitsBytes, LittleEndian, EncodeWord;
  }

  // ----- Eight bytes hold every word

  function RaiseByte(m: Word): Word {
    m << 8
  }

  /** The bits above the lowest `n` bytes. */
  function AboveBytes(n: nat): Word {
    if n == 0 then 0xFFFF_FFFF_FFFF_FFFF else RaiseByte(AboveBytes(n - 1))
  }

  lemma ShiftBothBytes(w: Word, m: Word)
    requires Misses(w, RaiseByte(m))
    ensures Misses(UpperBytes(w), m)
  {
  }

  lemma {:induction false} NoBytesAbove(w: Word, n: nat)
    requires Misses(w, AboveBytes(n))
    ensures FitsBytes(w, n)
    decreases n
  {
    hide Misses, UpperBytes, RaiseByte;
    if n == 0 {
      MissesAll(w);
    } else {
      ShiftBothBytes(w, AboveBytes(n - 1));
      NoBytesAbove(UpperBytes(w), n - 1);
    }
  }

  lemma EightBytes(w: Word)
    ensures FitsBytes(w, 8)
  {
    assert AboveBytes(4) == 0xFFFF_FFFF_0000_0000;
    assert AboveBytes(8) == 0;
    NoBytesAbove(w, 8);
  }
}
