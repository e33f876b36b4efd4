/** Variable-length numbers: the encodings of section 7.6 of DWARF 4, the number a run of bytes stands for,
    and the round trips. Signed numbers are 64-bit words in two's complement. */
module Leb128 {

  type Byte = bv8
  type Word = bv64

  // ----- Encoders, after the algorithms of section 7.6

  function LowSeven(w: Word): Byte {
    (w & 0x7F) as Byte
  }

  function Upper(w: Word): Word {
    w >> 7
  }

  function Negative(w: Word): bool {
    w & 0x8000_0000_0000_0000 != 0
  }

  /** The shift right by seven that keeps the sign. */
  function UpperSigned(w: Word): Word {
    if Negative(w) then (w >> 7) | 0xFE00_0000_0000_0000 else w >> 7
  }

  function Continued(b: Byte): Byte {
    b | 0x80
  }

  function EncodeUnsigned(w: Word): seq<Byte>
    decreases w
  {
    if Upper(w) == 0 then [LowSeven(w)] else [Continued(LowSeven(w))] + EncodeUnsigned(Upper(w))
  }

  /** One byte is enough when its bit 6 already tells the sign of all that is above. */
  predicate LastSigned(w: Word) {
    (UpperSigned(w) == 0 && w & 0x40 == 0) || (UpperSigned(w) == 0xFFFF_FFFF_FFFF_FFFF && w & 0x40 != 0)
  }

  function EncodeSigned(w: Word): seq<Byte>
    decreases if Negative(w) then !w else w
  {
    if LastSigned(w) then [LowSeven(w)] else [Continued(LowSeven(w))] + EncodeSigned(UpperSigned(w))
  }

  // ----- The number that the bytes from `at` on stand for

  predicate IsLast(b: Byte) {
    b & 0x80 == 0
  }

  /** A number that ends in memory within `most` bytes starts at `at`. */
  predicate Ends(mem: seq<Byte>, at: nat, most: nat)
    decreases most
  {
    most > 0 && at < |mem| && (IsLast(mem[at]) || Ends(mem, at + 1, most - 1))
  }

  function End(mem: seq<Byte>, at: nat, most: nat): (next: nat)
    requires Ends(mem, at, most)
    ensures at < next <= at + most && next <= |mem|
    decreases most
  {
    if IsLast(mem[at]) then at + 1 else End(mem, at + 1, most - 1)
  }

  function Payload(b: Byte): Word {
    (b & 0x7F) as Word
  }

  function SignedPayload(b: Byte): Word {
    if b & 0x40 != 0 then Payload(b) | 0xFFFF_FFFF_FFFF_FF80 else Payload(b)
  }

  /** Seven more bits below `upper`; what leaves the word at the top is lost. */
  function Below(b: Byte, upper: Word): Word {
    Payload(b) | (upper << 7)
  }

  function Unsigned(mem: seq<Byte>, at: nat, most: nat): Word
    requires Ends(mem, at, most)
    decreases most
  {
    if IsLast(mem[at]) then Payload(mem[at]) else Below(mem[at], Unsigned(mem, at + 1, most - 1))
  }

  function Signed(mem: seq<Byte>, at: nat, most: nat): Word
    requires Ends(mem, at, most)
    decreases most
  {
    if IsLast(mem[at]) then SignedPayload(mem[at]) else Below(mem[at], Signed(mem, at + 1, most - 1))
  }

  /** The numbers that the repository's own test reads. */
  lemma KnownEncodings()
    ensures EncodeUnsigned(624485) == [0xE5, 0x8E, 0x26]
    ensures EncodeSigned(0xFFFF_FFFF_FFF6_789B) == [0x9B, 0xF1, 0x59]
  {
    assert EncodeUnsigned(38) == [0x26];
    assert EncodeUnsigned(4878) == [0x8E] + EncodeUnsigned(38);
    assert EncodeSigned(0xFFFF_FFFF_FFFF_FFD9) == [0x59];
    assert EncodeSigned(0xFFFF_FFFF_FFFF_ECF1) == [0xF1] + EncodeSigned(0xFFFF_FFFF_FFFF_FFD9);
  }

  // ----- Round trips

  lemma LastByte(w: Word)
    ensures IsLast(LowSeven(w))
  {
  }

  lemma ContinuedByte(w: Word)
    ensures !IsLast(Continued(LowSeven(w)))
  {
  }

  lemma LastPayload(w: Word)
    requires Upper(w) == 0
    ensures Payload(LowSeven(w)) == w
  {
  }

  lemma LastSignedPayload(w: Word)
    requires LastSigned(w)
    ensures SignedPayload(LowSeven(w)) == w
  {
  }

  lemma ContinuedPayload(w: Word)
    ensures Payload(Continued(LowSeven(w))) == w & 0x7F
  {
  }

  lemma BelowUpper(w: Word)
    ensures Below(Continued(LowSeven(w)), Upper(w)) == w
  {
    ContinuedPayload(w);
    hide Continued, LowSeven, Payload;
  }

  lemma SignIsShiftedOut(x: Word)
    ensures (x | 0xFE00_0000_0000_0000) << 7 == x << 7
  {
  }

  lemma BelowUpperSigned(w: Word)
    ensures Below(Continued(LowSeven(w)), UpperSigned(w)) == w
  {
    SignIsShiftedOut(w >> 7);
    BelowUpper(w);
    hide Continued, LowSeven, Payload, Negative;
  }

  /** `w` has no bits left after `n` groups of seven. */
  predicate FitsGroups(w: Word, n: nat)
    decreases n
  {
    if n == 0 then w == 0 else FitsGroups(Upper(w), n - 1)
  }

  /** One of the first `n` groups is the last of the signed encoding. */
  predicate FitsSignedGroups(w: Word, n: nat)
    decreases n
  {
    n > 0 && (LastSigned(w) || FitsSignedGroups(UpperSigned(w), n - 1))
  }

  function Raise(m: Word): Word {
    m << 7
  }

  /** The bits above the lowest `n` groups. */
  function Above(n: nat): Word {
    if n == 0 then 0xFFFF_FFFF_FFFF_FFFF else Raise(Above(n - 1))
  }

  predicate Misses(w: Word, m: Word) {
    w & m == 0
  }

  lemma ShiftBoth(w: Word, m: Word)
    requires Misses(w, Raise(m))
    ensures Misses(Upper(w), m)
  {
  }

  lemma MissesAll(w: Word)
    requires Misses(w, 0xFFFF_FFFF_FFFF_FFFF)
    ensures w == 0
  {
  }

  lemma {:induction false} NothingAbove(w: Word, n: nat)
    requires Misses(w, Above(n))
    ensures FitsGroups(w, n)
    decreases n
  {
    hide Misses, Upper, Raise;
    if n == 0 {
      MissesAll(w);
    } else {
      ShiftBoth(w, Above(n - 1));
      NothingAbove(Upper(w), n - 1);
    }
  }

  lemma AboveNine()
    ensures Above(9) == 0x8000_0000_0000_0000 && Above(10) == 0
  {
    assert Above(3) == 0xFFFF_FFFF_FFE0_0000;
    assert Above(6) == 0xFFFF_FC00_0000_0000;
  }

  function Complement(w: Word): Word {
    !w
  }

  lemma ComplementShift(x: Word)
    requires !Negative(x)
    ensures UpperSigned(x) == Upper(x) && UpperSigned(Complement(x)) == Complement(Upper(x)) && !Negative(Upper(x))
  {
    assert x & 0x8000_0000_0000_0000 == 0 ==> !x & 0x8000_0000_0000_0000 != 0;
  }

  lemma ZeroGroups()
    ensures LastSigned(0) && LastSigned(Complement(0))
  {
  }

  /** A number that is not negative and its complement need one group more than its bits fill. */
  lemma {:induction false} SignedGroups(x: Word, n: nat)
    requires !Negative(x) && FitsGroups(x, n)
    ensures FitsSignedGroups(x, n + 1) && FitsSignedGroups(Complement(x), n + 1)
    decreases n
  {
    hide Negative, Upper, UpperSigned, LastSigned, Complement;
    if n == 0 {
      ZeroGroups();
    } else {
      ComplementShift(x);
      SignedGroups(Upper(x), n - 1);
    }
  }

  lemma ComplementTwice(w: Word)
    requires Negative(w)
    ensures !Negative(Complement(w)) && Complement(Complement(w)) == w
  {
  }

  lemma TenGroups(w: Word)
    ensures FitsGroups(w, 10) && FitsSignedGroups(w, 10)
  {
    AboveNine();
    NothingAbove(w, 10);
    if Negative(w) {
      ComplementTwice(w);
      NothingAbove(Complement(w), 9);
      SignedGroups(Complement(w), 9);
    } else {
      NothingAbove(w, 9);
      SignedGroups(w, 9);
    }
  }

  /** Memory holds `bytes` from `at` on. */
  predicate Holds(mem: seq<Byte>, at: nat, bytes: seq<Byte>) {
    at + |bytes| <= |mem| && mem[at..at + |bytes|] == bytes
  }

  lemma HoldsParts(mem: seq<Byte>, at: nat, front: seq<Byte>, back: seq<Byte>)
    requires Holds(mem, at, front + back)
    ensures Holds(mem, at, front) && Holds(mem, at + |front|, back)
  {
    var bytes := front + back;
    assert bytes[..|front|] == front && bytes[|front|..] == back;
    assert mem[at..at + |bytes|][..|front|] == mem[at..at + |front|];
    assert mem[at..at + |bytes|][|front|..] == mem[at + |front|..at + |bytes|];
  }

  lemma {:induction false} UnsignedWithin(mem: seq<Byte>, at: nat, w: Word, n: nat)
    requires Holds(mem, at, EncodeUnsigned(w)) && n > 0 && FitsGroups(w, n)
    ensures Ends(mem, at, n) && Unsigned(mem, at, n) == w && End(mem, at, n) == at + |EncodeUnsigned(w)|
    decreases n
  {
    var b := LowSeven(w);
    if Upper(w) == 0 {
      assert mem[at] == mem[at..at + 1][0] == b;
      LastByte(w);
      LastPayload(w);
    } else {
      HoldsParts(mem, at, [Continued(b)], EncodeUnsigned(Upper(w)));
      assert mem[at] == mem[at..at + 1][0] == Continued(b);
      ContinuedByte(w);
      UnsignedWithin(mem, at + 1, Upper(w), n - 1);
      BelowUpper(w);
    }
  }

  lemma {:induction false} SignedWithin(mem: seq<Byte>, at: nat, w: Word, n: nat)
    requires Holds(mem, at, EncodeSigned(w)) && FitsSignedGroups(w, n)
    ensures Ends(mem, at, n) && Signed(mem, at, n) == w && End(mem, at, n) == at + |EncodeSigned(w)|
    decreases n
  {
    var b := LowSeven(w);
    if LastSigned(w) {
      assert mem[at] == mem[at..at + 1][0] == b;
      LastByte(w);
      LastSignedPayload(w);
    } else {
      HoldsParts(mem, at, [Continued(b)], EncodeSigned(UpperSigned(w)));
      assert mem[at] == mem[at..at + 1][0] == Continued(b);
      ContinuedByte(w);
      SignedWithin(mem, at + 1, UpperSigned(w), n - 1);
      BelowUpperSigned(w);
    }
  }

  /** Every unsigned 64-bit number comes back from its encoding, whatever follows in memory, and the
      encoding is consumed exactly. */
  lemma UnsignedRoundTrip(mem: seq<Byte>, at: nat, w: Word)
    requires Holds(mem, at, EncodeUnsigned(w))
    ensures Ends(mem, at, 10) && Unsigned(mem, at, 10) == w && End(mem, at, 10) == at + |EncodeUnsigned(w)|
  {
    TenGroups(w);
    UnsignedWithin(mem, at, w, 10);
  }

  /** Every signed 64-bit number comes back from its encoding, whatever follows in memory. */
  lemma SignedRoundTrip(mem: seq<Byte>, at: nat, w: Word)
    requires Holds(mem, at, EncodeSigned(w))
    ensures Ends(mem, at, 10) && Signed(mem, at, 10) == w && End(mem, at, 10) == at + |EncodeSigned(w)|
  {
    TenGroups(w);
    SignedWithin(mem, at, w, 10);
  }
}
