/** bitmap.c, bitmap_find_next_zero_area: first fit for a run of zero bits. */
module ZeroArea {
  import opened Words
  import opened Bitmap
  import opened FindBit
  import opened Powers

  /** The alignment that a mask of one less asks for. */
  ghost predicate AlignedTo(x: int, mask: nat) { Aligned(x, mask + 1) }

  /** __ALIGN_MASK for a mask that is one less than a power of two: up to the next multiple of mask + 1. */
  function AlignMask(x: nat, mask: nat): int { Multiple((x + mask) / (mask + 1), mask + 1) }

  lemma {:induction false} AlignMaskIs(x: nat, mask: nat)
    ensures var r := AlignMask(x, mask); x <= r <= x + mask && AlignedTo(r, mask)
    ensures forall y :: x <= y < AlignMask(x, mask) ==> !AlignedTo(y, mask)
  {
    var q := (x + mask) / (mask + 1);
    DivisionIs(x + mask, mask);
    hide Multiple;
    var step := mask + 1;
    forall y | x <= y < Multiple(q, step) ensures !AlignedTo(y, mask) {
      if p :| y == Multiple(p, step) {
        if p < q { MultipleGap(p, q, step); } else if q < p { MultipleGap(q, p, step); }
      }
    }
  }

  lemma {:induction false} DivisionIs(x: nat, mask: nat)
    ensures x - mask <= Multiple(x / (mask + 1), mask + 1) <= x
  {
    assert x == (mask + 1) * (x / (mask + 1)) + x % (mask + 1);
  }

  // ---------- The alignment as an operation on bits ----------

  /** The number that the n low bits of w make. */
  ghost function Value(w: Word, n: nat): nat {
    if n == 0 then 0 else (if Odd(w) then 1 else 0) + 2 * Value(Half(w), n - 1)
  }

  lemma {:induction false} ValueOfMask(m: Word, k: nat, n: nat)
    requires k <= n && forall j :: 0 <= j < n ==> (Bit(m, j) <==> j < k)
    ensures Value(m, n) == Pow2(k) - 1
    decreases n
  {
    hide Odd, Half;
    if n > 0 {
      assert Bit(m, 0) == Odd(m);
      forall j | 0 <= j < n - 1 ensures Bit(Half(m), j) <==> j < k - 1 {
        assert Bit(m, j + 1) == Bit(Half(m), j);
      }
      ValueOfMask(Half(m), if k == 0 then 0 else k - 1, n - 1);
    }
  }

  /** Clearing the k low bits rounds down to a multiple of 2^k. */
  lemma {:induction false} ValueOfCleared(z: Word, y: Word, k: nat, n: nat)
    requires forall j :: 0 <= j < n ==> (Bit(z, j) <==> k <= j && Bit(y, j))
    ensures Value(z, n) == Value(y, n) / Pow2(k) * Pow2(k)
    decreases n
  {
    hide Odd, Half, Pow2;
    if n == 0 {
      DivideZero(Pow2(k));
    } else {
      assert Bit(z, 0) == Odd(z) && Bit(y, 0) == Odd(y);
      forall j | 0 <= j < n - 1 ensures Bit(Half(z), j) <==> k - 1 <= j && Bit(Half(y), j) {
        assert Bit(z, j + 1) == Bit(Half(z), j) && Bit(y, j + 1) == Bit(Half(y), j);
      }
      ValueOfCleared(Half(z), Half(y), if k == 0 then 0 else k - 1, n - 1);
      SizeStep(k);
      if k > 0 { DivideStep(Value(Half(y), n - 1), if Odd(y) then 1 else 0, Pow2(k - 1)); }
    }
  }

  lemma {:induction false} SizeStep(k: nat)
    ensures Pow2(k) == if k == 0 then 1 else 2 * Pow2(k - 1)
  {
  }

  lemma {:induction false} DivideZero(p: nat)
    requires p > 0
    ensures 0 / p * p == 0
  {
  }

  lemma {:induction false} DivideStep(v: nat, b: nat, p: nat)
    requires b <= 1 && p > 0
    ensures (b + 2 * v) / (2 * p) * (2 * p) == 2 * (v / p * p)
  {
    var q, r := v / p, v % p;
    assert v == p * q + r;
    assert b + 2 * v == (2 * p) * q + (b + 2 * r);
    QuotientIs(b + 2 * v, 2 * p, q, b + 2 * r);
    assert q * (2 * p) == 2 * (q * p);
  }

  lemma {:induction false} QuotientIs(x: nat, d: nat, q: nat, r: nat)
    requires x == d * q + r && r < d
    ensures x / d == q
  {
    DivMod(x, d);
    SameQuotient(d, x / d, q, x % d, r);
  }

  lemma {:induction false} DivMod(x: nat, d: nat)
    requires d > 0
    ensures x == d * (x / d) + x % d
  {
  }

  lemma {:induction false} SameQuotient(d: nat, e: int, q: int, s: nat, r: nat)
    requires d * e + s == d * q + r && s < d && r < d
    ensures e == q
  {
    hide *;
    if e < q { OneMore(d, e, q); } else if e > q { OneMore(d, q, e); }
  }

  lemma {:induction false} OneMore(d: nat, e: int, q: int)
    requires e < q
    ensures d * e + d <= d * q
  {
    var k := q - e - 1;
    assert d * k >= 0;
    assert d * q == d * (e + 1 + k) == d * e + d + d * k;
  }

  /** __ALIGN_MASK is (x + mask) & ~mask, here with y for the sum: if that does not wrap around, it is AlignMask. */
  lemma {:induction false} AlignMaskBits(x: nat, k: nat, y: Word)
    requires k < BITS && Value(y, BITS) == x + Value(LowMask(k), BITS)
    ensures Value(And(y, Not(LowMask(k))), BITS) == AlignMask(x, Value(LowMask(k), BITS))
  {
    hide Bit, And, Not, LowMask, Value, Pow2;
    var m := LowMask(k);
    var z := And(y, Not(m));
    forall j | 0 <= j < BITS ensures (Bit(m, j) <==> j < k) && (Bit(z, j) <==> k <= j && Bit(y, j)) {
      LowMaskBit(k, j);
      NotBit(m, j);
      AndBit(y, Not(m), j);
    }
    ValueOfMask(m, k, BITS);
    ValueOfCleared(z, y, k, BITS);
  }

  // ---------- The search ----------

  /** A place for the area: aligned, within the bitmap, and all zero. */
  ghost predicate Fits(s: seq<Word>, size: nat, nr: nat, mask: nat, i: int) {
    0 <= i && AlignedTo(i, mask) && i + nr <= size && forall p :: i <= p < i + nr ==> !In(s, p)
  }

  ghost predicate NoFit(s: seq<Word>, size: nat, nr: nat, mask: nat, a: nat, b: nat) {
    forall i :: a <= i < b ==> !Fits(s, size, nr, mask, i)
  }

  /**
   The least place from start on is found.  A result beyond size says that there is none.  An area of no bits
   at all would fit at any aligned place; what is returned for it is the place of the first zero bit, aligned.
   */
  method FindNextZeroArea(bitmap: array<Word>, size: nat, start0: nat, nr: nat, mask: nat) returns (r: nat)
    requires BitsToLongs(size) <= bitmap.Length
    ensures nr >= 1 && r <= size ==>
              start0 <= r && Fits(bitmap[..], size, nr, mask, r) && NoFit(bitmap[..], size, nr, mask, start0, r)
    ensures nr >= 1 && r > size ==> NoFit(bitmap[..], size, nr, mask, start0, size)
    ensures nr == 0 ==> exists zero :: IsNext(bitmap[..], false, size, start0, zero) && r == AlignMask(zero, mask)
  {
    hide In, AlignedTo, AlignMask;
    ghost var s := bitmap[..];
    var start := start0;
    while true
      invariant start0 <= start && (nr == 0 ==> start == start0)
      invariant nr >= 1 ==> NoFit(s, size, nr, mask, start0, start)
      decreases size + nr + mask - start
    {
      var zero := FindNextZeroBit(bitmap, size, start);
      var index := AlignMask(zero, mask);
      AlignMaskIs(zero, mask);
      var end := index + nr;
      if nr >= 1 { SkipToAligned(s, size, nr, mask, start0, start, zero, index); }
      if end > size {
        if nr >= 1 { NoRoom(s, size, nr, mask, start0, index); }
        return end;
      }
      var i := FindNextBit(bitmap, end, index);
      if i < end {
        start := i + 1;
      } else {
        return index;
      }
    }
  }

  lemma {:induction false} SkipToAligned(s: seq<Word>, size: nat, nr: nat, mask: nat, from: nat, start: nat,
                                         zero: nat, index: nat)
    requires nr >= 1 && NoFit(s, size, nr, mask, from, start) && IsNext(s, false, size, start, zero)
    requires zero <= index && forall y :: zero <= y < index ==> !AlignedTo(y, mask)
    ensures NoFit(s, size, nr, mask, from, index)
  {
    forall i | from <= i < index ensures !Fits(s, size, nr, mask, i) {
      if start <= i < zero && start < size { assert In(s, i); }
    }
  }

  lemma {:induction false} NoRoom(s: seq<Word>, size: nat, nr: nat, mask: nat, from: nat, index: nat)
    requires NoFit(s, size, nr, mask, from, index) && index + nr > size
    ensures NoFit(s, size, nr, mask, from, size)
  {
  }
}
