/** bitmap.c: setting and clearing a run of bits. */
module SetClear {
  import opened Words
  import opened Bitmap
  import opened BitOps

  /** BITMAP_FIRST_WORD_MASK */
  function FirstWordMask(start: nat): Word { Shl(ALL, start % BITS) }

  /** BITMAP_LAST_WORD_MASK */
  function LastWordMask(nbits: nat): Word {
    if nbits % BITS != 0 then LowMask(nbits % BITS) else ALL
  }

  /** mask has the bits of word k that belong to positions from lo up to hi. */
  ghost predicate Selects(mask: Word, k: nat, lo: int, hi: int) {
    forall j :: 0 <= j < BITS ==> (Bit(mask, j) <==> lo <= BITS * k + j < hi)
  }

  /** t is s after the operation on the positions from lo up to hi. */
  ghost predicate Changed(op: RegOp, s: seq<Word>, t: seq<Word>, lo: int, hi: int) {
    |t| == |s| && forall p :: In(t, p) == After(op, In(s, p), lo <= p < hi)
  }

  lemma {:induction false} FirstSelects(start: nat)
    ensures Selects(FirstWordMask(start), start / BITS, start, BITS * (start / BITS + 1))
  {
    hide Bit, Shl;
    forall j | 0 <= j < BITS ensures Bit(FirstWordMask(start), j) <==> start <= BITS * (start / BITS) + j {
      ShlBit(ALL, start % BITS, j);
      if j >= start % BITS { AllBit(j - start % BITS); }
    }
  }

  lemma {:induction false} AllSelects(k: nat)
    ensures Selects(ALL, k, BITS * k, BITS * (k + 1))
  {
    hide Bit;
    forall j | 0 <= j < BITS ensures Bit(ALL, j) {
      AllBit(j);
    }
  }

  lemma {:induction false} LastSelects(mask: Word, k: nat, lo: int, end: nat)
    requires Selects(mask, k, lo, BITS * (k + 1)) && BITS * k < end < BITS * (k + 1)
    ensures Selects(And(mask, LastWordMask(end)), k, lo, end)
  {
    hide Bit, And, LowMask;
    assert end == BITS * k + end % BITS;
    forall j | 0 <= j < BITS ensures Bit(And(mask, LastWordMask(end)), j) <==> lo <= BITS * k + j < end {
      AndBit(mask, LastWordMask(end), j);
      LowMaskBit(end % BITS, j);
    }
  }

  /** Changing the selected bits of one word changes the positions that belong to them. */
  lemma {:induction false} WordChanged(op: RegOp, s: seq<Word>, k: nat, mask: Word, lo: int, hi: int)
    requires k < |s| && Selects(mask, k, lo, hi) && BITS * k <= lo && hi <= BITS * (k + 1)
    ensures Changed(op, s, s[k := Applied(op, s[k], mask)], lo, hi)
  {
    hide Bit, Applied, After;
    var t := s[k := Applied(op, s[k], mask)];
    forall p ensures In(t, p) == After(op, In(s, p), lo <= p < hi) {
      if 0 <= p < BITS * |s| && p / BITS == k {
        AppliedBit(op, s[k], mask, p % BITS);
        assert p == BITS * k + p % BITS;
      } else {
        AfterOutside(op, In(s, p));
      }
    }
  }

  lemma {:induction false} AfterOutside(op: RegOp, was: bool)
    ensures After(op, was, false) == was
  {
  }

  /** Two operations on neighbouring runs are one on both. */
  lemma {:induction false} ChangedTwice(op: RegOp, s: seq<Word>, t: seq<Word>, u: seq<Word>, lo: int, mid: int, hi: int)
    requires Changed(op, s, t, lo, mid) && Changed(op, t, u, mid, hi) && lo <= mid <= hi
    ensures Changed(op, s, u, lo, hi)
  {
    hide In;
  }

  /** bitmap_set for Alloc, and bitmap_clear for Release: exactly the nr positions from start on change. */
  method ChangeBits(bitmap: array<Word>, start: nat, nr: nat, op: RegOp)
    requires start + nr <= BITS * bitmap.Length && op != IsFree
    modifies bitmap
    ensures forall p :: In(bitmap[..], p) == After(op, In(old(bitmap[..]), p), start <= p < start + nr)
  {
    hide In, Applied, After, Shl, And, Selects, LowMask;
    ghost var s := bitmap[..];
    var k, size, left := start / BITS, start + nr, nr;
    var bits := BITS - start % BITS;
    var mask := FirstWordMask(start);
    FirstSelects(start);
    Unchanged(op, s, start);
    while left - bits >= 0
      invariant 0 <= left <= nr && 0 <= k && bits == BITS * (k + 1) - (size - left) && 1 <= bits <= BITS
      invariant Selects(mask, k, size - left, BITS * (k + 1))
      invariant Changed(op, s, bitmap[..], start, size - left)
      decreases left
    {
      ghost var t, lo := bitmap[..], size - left;
      WordChanged(op, t, k, mask, lo, BITS * (k + 1));
      bitmap[k] := Applied(op, bitmap[k], mask);
      assert bitmap[..] == t[k := Applied(op, t[k], mask)];
      ChangedTwice(op, s, t, bitmap[..], start, lo, BITS * (k + 1));
      left := left - bits;
      bits := BITS;
      mask := ALL;
      k := k + 1;
      AllSelects(k);
    }
    if left != 0 {
      ghost var t, lo := bitmap[..], size - left;
      LastSelects(mask, k, lo, size);
      mask := And(mask, LastWordMask(size));
      WordChanged(op, t, k, mask, lo, size);
      bitmap[k] := Applied(op, bitmap[k], mask);
      assert bitmap[..] == t[k := Applied(op, t[k], mask)];
      ChangedTwice(op, s, t, bitmap[..], start, lo, size);
    }
  }

  lemma {:induction false} Unchanged(op: RegOp, s: seq<Word>, start: int)
    ensures Changed(op, s, s, start, start)
  {
    hide In;
  }

  /** What bitmap_set has set, bitmap_clear clears; what was clear before is clear again. */
  lemma {:induction false} SetThenClear(s: seq<Word>, t: seq<Word>, u: seq<Word>, lo: int, hi: int)
    requires Changed(Alloc, s, t, lo, hi) && Changed(Release, t, u, lo, hi)
    requires forall p :: lo <= p < hi ==> !In(s, p)
    ensures u == s
  {
    hide Bit;
    forall k | 0 <= k < |s| ensures u[k] == s[k] {
      forall j | 0 <= j < BITS ensures Bit(u[k], j) == Bit(s[k], j) {
        InAt(s, k, j);
        InAt(u, k, j);
        assert In(u, BITS * k + j) == In(s, BITS * k + j);
      }
      SameBits(u[k], s[k]);
    }
  }
}
