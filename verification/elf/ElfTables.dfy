/** Where the entries of an ELF table are read: the laws behind `Elf64Programs::next` and
    `Elf64Sections::next` of elf/src/lib.rs, for any stride and any table, also one that does not fit. */
module ElfTables {

  /** Where the reader stands after `n` strides in `size` bytes: a stride that does not fit is not taken. */
  function Position(size: nat, stride: nat, n: nat): (p: nat)
    ensures p <= size
  {
    if n == 0 then 0
    else
      var p := Position(size, stride, n - 1);
      if p + stride <= size then p + stride else p
  }

  /** Call `n` of `next` yields an item if the declared number is not used up and a header can be read. */
  predicate Yields(size: nat, stride: nat, len: nat, header: nat, n: nat) {
    n < len && Position(size, stride, n) + header <= size
  }

  /** The table fits: its last header ends within the file. */
  predicate TableFits(size: nat, stride: nat, len: nat, header: nat) {
    len == 0 || (len - 1) * stride + header <= size
  }

  lemma {:induction false} PositionGrows(size: nat, stride: nat, m: nat, n: nat)
    requires m <= n
    ensures Position(size, stride, m) <= Position(size, stride, n)
    decreases n
  {
    if m < n {
      PositionGrows(size, stride, m, n - 1);
    }
  }

  /** Item `n` is at `n` strides exactly when that many fit. */
  lemma {:induction false} PositionIsStrides(size: nat, stride: nat, n: nat)
    ensures Position(size, stride, n) <= n * stride
    ensures Position(size, stride, n) == n * stride <==> n * stride <= size
  {
    if n > 0 {
      PositionIsStrides(size, stride, n - 1);
      assert n * stride == (n - 1) * stride + stride;
    }
  }

  /** After the first call that yields nothing, none ever does. */
  lemma Fused(size: nat, stride: nat, len: nat, header: nat, m: nat, n: nat)
    requires m <= n && !Yields(size, stride, len, header, m)
    ensures !Yields(size, stride, len, header, n)
  {
    PositionGrows(size, stride, m, n);
  }

  /** All the declared items come, each from its own place, if and only if the table fits. */
  lemma YieldsAllExactly(size: nat, stride: nat, len: nat, header: nat)
    ensures
      TableFits(size, stride, len, header) <==>
      forall n: nat | n < len :: Yields(size, stride, len, header, n) && Position(size, stride, n) == n * stride
  {
    if TableFits(size, stride, len, header) {
      forall n: nat | n < len
        ensures Yields(size, stride, len, header, n) && Position(size, stride, n) == n * stride
      {
        StridesAreOrdered(n, len - 1, stride);
        PositionIsStrides(size, stride, n);
      }
    } else {
      if Yields(size, stride, len, header, len - 1) {
        PositionIsStrides(size, stride, len - 1);
      }
    }
  }

  lemma StridesAreOrdered(m: nat, n: nat, stride: nat)
    requires m <= n
    ensures m * stride <= n * stride
  {
  }

  /** When the next stride does not fit, the same header is read again and again. */
  lemma {:induction false} Stuck(size: nat, stride: nat, m: nat, n: nat)
    requires m <= n && Position(size, stride, m) + stride > size
    ensures Position(size, stride, n) == Position(size, stride, m)
    decreases n
  {
    if m < n {
      Stuck(size, stride, m, n - 1);
    }
  }

  lemma Quotient(size: nat, stride: nat)
    requires stride > 0
    ensures size == size / stride * stride + size % stride && size % stride < stride
  {
  }

  /** The reader stops at the last stride that fits. */
  lemma {:induction false} PositionIsLastStride(size: nat, stride: nat, n: nat)
    requires stride > 0
    ensures Position(size, stride, n) == (if n <= size / stride then n else size / stride) * stride
    decreases n
  {
    if n > 0 {
      PositionIsLastStride(size, stride, n - 1);
      Quotient(size, stride);
      var q := size / stride;
      if n <= q {
        StridesAreOrdered(n, q, stride);
        assert (n - 1) * stride + stride == n * stride;
      }
    }
  }

  /** Item `n` is at `n` strides, or at the last stride that fits. */
  function LastPlace(size: nat, stride: nat, n: nat): nat {
    if stride == 0 || n * stride <= size then n * stride else size / stride * stride
  }

  lemma PositionIsPlace(size: nat, stride: nat, n: nat)
    ensures Position(size, stride, n) == LastPlace(size, stride, n)
  {
    PositionIsStrides(size, stride, n);
    if n * stride > size {
      PositionIsLastStride(size, stride, n);
      BeyondLast(size, stride, n);
    }
  }

  lemma BeyondLast(size: nat, stride: nat, n: nat)
    requires stride > 0 && n * stride > size
    ensures n > size / stride
  {
    if n <= size / stride {
      StridesAreOrdered(n, size / stride, stride);
    }
  }

  /** All strides fit, or what is left after the last one that does is too short for a header. */
  predicate StaysInPlace(size: nat, stride: nat, len: nat, header: nat) {
    len == 0 || stride == 0 || (len - 1) * stride <= size || size % stride < header
  }

  /** Every item that comes, be they fewer than declared, is the entry of its own place if and only if the
      reader does not stop where a header can still be read. */
  lemma YieldsOwnExactly(size: nat, stride: nat, len: nat, header: nat)
    ensures
      StaysInPlace(size, stride, len, header) <==>
      forall n: nat | Yields(size, stride, len, header, n) :: Position(size, stride, n) == n * stride
  {
    if len > 0 && stride > 0 {
      Quotient(size, stride);
      if StaysInPlace(size, stride, len, header) {
        forall n: nat | Yields(size, stride, len, header, n) ensures Position(size, stride, n) == n * stride {
          InPlace(size, stride, len, header, n);
        }
      } else {
        PositionIsLastStride(size, stride, len - 1);
        PositionIsStrides(size, stride, len - 1);
        StridesAreOrdered(size / stride, len - 1, stride);
        assert Yields(size, stride, len, header, len - 1);
      }
    } else if len > 0 {
      forall n: nat ensures Position(size, stride, n) == n * stride {
        PositionIsStrides(size, stride, n);
      }
    }
  }

  lemma InPlace(size: nat, stride: nat, len: nat, header: nat, n: nat)
    requires stride > 0 && StaysInPlace(size, stride, len, header) && Yields(size, stride, len, header, n)
    ensures Position(size, stride, n) == n * stride
  {
    PositionIsStrides(size, stride, n);
    PositionIsLastStride(size, stride, n);
    Quotient(size, stride);
    if (len - 1) * stride <= size {
      StridesAreOrdered(n, len - 1, stride);
    }
  }
}
