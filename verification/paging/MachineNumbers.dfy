/** Natural numbers as machine words, for laws that count bytes. */
module MachineNumbers {
  import opened Entries

  /** `n` in binary, its lowest 64 bits. */
  function WordOf(n: nat): Word {
    if n == 0 then 0 else Appended(WordOf(n / 2), n % 2 == 1)
  }

  function Appended(w: Word, bit: bool): Word {
    (w << 1) | (if bit then 1 else 0)
  }

  /** `a + b` on machine words. */
  function Sum(a: Word, b: Word): Word {
    a + b
  }

  lemma AppendedNext(w: Word)
    ensures Sum(Appended(w, false), 1) == Appended(w, true)
    ensures Sum(Appended(w, true), 1) == Appended(Sum(w, 1), false)
  {
  }

  lemma {:induction false} WordOfNext(n: nat)
    ensures WordOf(n + 1) == Sum(WordOf(n), 1)
  {
    hide Appended, Sum;
    if n == 0 {
      FirstWord();
    } else {
      AppendedNext(WordOf(n / 2));
      if n % 2 == 1 {
        WordOfNext(n / 2);
        assert (n + 1) / 2 == n / 2 + 1;
      } else {
        assert (n + 1) / 2 == n / 2;
      }
    }
  }

  lemma FirstWord()
    ensures WordOf(0) == 0 && WordOf(1) == 1 && Sum(0, 1) == 1
  {
  }

  lemma SumAssociates(a: Word, b: Word, c: Word)
    ensures Sum(a, Sum(b, c)) == Sum(Sum(a, b), c) && Sum(a, 0) == a
  {
  }

  /** Words add as the numbers do. */
  lemma {:induction false} WordOfSum(a: nat, b: nat)
    ensures WordOf(a + b) == Sum(WordOf(a), WordOf(b))
    decreases b
  {
    hide WordOf, Sum;
    if b == 0 {
      FirstWord();
      SumAssociates(WordOf(a), 0, 0);
    } else {
      WordOfSum(a, b - 1);
      WordOfNext(a + b - 1);
      WordOfNext(b - 1);
      SumAssociates(WordOf(a), WordOf(b - 1), 1);
    }
  }

  /** Below 4096, words are offsets, in the order of the numbers. */
  lemma {:induction false} WordBelow(n: nat, bits: nat)
    requires n < Power(bits) && bits <= 12
    ensures Below(WordOf(n), bits)
    decreases bits
  {
    hide Appended, Below;
    if bits == 0 {
      ZeroBelow();
    } else if n == 0 {
      ZeroBelowAll(bits);
    } else {
      WordBelow(n / 2, bits - 1);
      AppendedBelow(WordOf(n / 2), n % 2 == 1, bits - 1);
    }
  }

  function Power(bits: nat): (p: nat)
    ensures p > 0
  {
    if bits == 0 then 1 else 2 * Power(bits - 1)
  }

  function Mask(bits: nat): Word {
    if bits == 0 then 0 else Appended(Mask(bits - 1), true)
  }

  predicate Below(w: Word, bits: nat) {
    w & Mask(bits) == w
  }

  lemma ZeroBelow()
    ensures Below(0, 0)
  {
  }

  lemma ZeroBelowAll(bits: nat)
    ensures Below(0, bits) && WordOf(0) == 0
  {
  }

  lemma MaskedAppend(w: Word, m: Word, bit: bool)
    requires w & m == w
    ensures Appended(w, bit) & Appended(m, true) == Appended(w, bit)
  {
  }

  lemma AppendedBelow(w: Word, bit: bool, bits: nat)
    requires Below(w, bits)
    ensures Below(Appended(w, bit), bits + 1)
  {
    hide Appended;
    MaskedAppend(w, Mask(bits), bit);
  }

  lemma PageMask()
    ensures Power(12) == 4096 && Mask(12) == 0xfff && WordOf(4096) == 4096
  {
    assert Mask(4) == 0xf && Mask(8) == 0xff;
    assert WordOf(16) == 16 && WordOf(256) == 256;
  }

  /** A number below 4096 is an offset in a page. */
  lemma WordIsOffset(n: nat)
    requires n < 4096
    ensures WordOf(n) & 0xfff == WordOf(n)
  {
    hide WordOf, Mask, Power;
    PageMask();
    WordBelow(n, 12);
  }

  // ----- Which numbers agree in their low bits

  lemma Halves(n: nat, p: nat)
    requires p > 0
    ensures n % (2 * p) == 2 * ((n / 2) % p) + n % 2
  {
    var q, r := (n / 2) / p, (n / 2) % p;
    assert n == (2 * p) * q + (2 * r + n % 2) by {
      assert n / 2 == p * q + r;
      assert (2 * p) * q == 2 * (p * q);
    }
    RemainderIs(n, 2 * p, q, 2 * r + n % 2);
  }

  lemma RemainderIs(n: nat, m: nat, q: nat, r: nat)
    requires n == m * q + r && r < m
    ensures n % m == r
  {
    var d := q - n / m;
    assert m * d == m * q - m * (n / m);
    MultipleGrows(m, d);
  }

  lemma MultipleGrows(m: int, d: int)
    requires m > 0
    ensures d >= 1 ==> m * d >= m
    ensures d <= -1 ==> m * d <= -m
  {
    if d >= 1 {
      assert m * d == m * (d - 1) + m;
    } else if d <= -1 {
      assert m * d == m * (d + 1) - m;
    }
  }

  lemma MaskNext(bits: nat)
    ensures Mask(bits + 1) == Appended(Mask(bits), true)
  {
    hide Appended;
  }

  lemma {:induction false} MaskBelow(a: nat, b: nat)
    requires a <= b
    ensures Mask(a) & Mask(b) == Mask(a)
  {
    hide Appended, Mask;
    if a == 0 {
      MaskZero();
      ZeroMasked(Mask(b));
    } else {
      MaskBelow(a - 1, b - 1);
      MaskNext(a - 1);
      MaskNext(b - 1);
      MaskedAppend(Mask(a - 1), Mask(b - 1), true);
    }
  }

  lemma MaskZero()
    ensures Mask(0) == 0
  {
  }

  lemma ZeroMasked(w: Word)
    ensures 0 & w == 0
  {
  }

  predicate IsClear(w: Word, m: Word) {
    w & m == 0
  }

  lemma AppendedClear(w: Word, m: Word, bit: bool)
    requires m & 0x0000_ffff_ffff_ffff == m
    ensures IsClear(Appended(w, bit), Appended(m, true)) <==> IsClear(w, m) && !bit
  {
    if bit {
      OddNotClear(w, m);
    } else {
      EvenClear(w, m);
    }
  }

  lemma OddNotClear(w: Word, m: Word)
    ensures ((w << 1) | 1) & ((m << 1) | 1) != 0
  {
  }

  lemma EvenClear(w: Word, m: Word)
    requires m & 0x0000_ffff_ffff_ffff == m
    ensures ((w << 1) | 0) & ((m << 1) | 1) == (w & m) << 1
    ensures (w & m) << 1 == 0 <==> w & m == 0
  {
  }

  lemma ZeroClear(w: Word)
    ensures IsClear(0, w) && IsClear(w, 0)
  {
  }

  /** The low bits of a word are clear exactly if the number is a multiple of their power of two. */
  lemma {:induction false} LowClear(n: nat, bits: nat)
    requires bits <= 48
    ensures IsClear(WordOf(n), Mask(bits)) <==> n % Power(bits) == 0
    decreases bits
  {
    hide Appended, Mask, IsClear;
    if bits == 0 {
      MaskZero();
      ZeroClear(WordOf(n));
    } else if n == 0 {
      ZeroClear(Mask(bits));
    } else {
      LowClear(n / 2, bits - 1);
      Halves(n, Power(bits - 1));
      LowClearStep(WordOf(n / 2), n % 2 == 1, bits - 1);
    }
  }

  lemma LowClearStep(w: Word, bit: bool, bits: nat)
    requires bits < 48
    ensures IsClear(Appended(w, bit), Mask(bits + 1)) <==> IsClear(w, Mask(bits)) && !bit
  {
    hide Appended, Mask, IsClear;
    MaskNext(bits);
    MaskBelow(bits, 48);
    AddressMask();
    AppendedClear(w, Mask(bits), bit);
  }

  lemma AddressMask()
    ensures Mask(48) == 0x0000_ffff_ffff_ffff && Power(48) == 0x1_0000_0000_0000
  {
    assert Mask(8) == 0xff && Power(8) == 0x100;
    assert Mask(16) == 0xffff && Power(16) == 0x1_0000;
    assert Mask(24) == 0xff_ffff && Power(24) == 0x100_0000;
    assert Mask(32) == 0xffff_ffff && Power(32) == 0x1_0000_0000;
    assert Mask(40) == 0xff_ffff_ffff && Power(40) == 0x100_0000_0000;
  }
}
