/**
 bitmap.c: the allocator of aligned power-of-two regions.  A region lies within one word or consists of whole
 words; in every run the set bits are those of the live regions.
 */
module Regions {
  import opened Powers
  import opened Words
  import opened Bitmap
  import opened BitOps

  const ENOMEM := -12
  const EBUSY := -16

  datatype Region = Region(pos: nat, order: nat) {
    ghost predicate Has(p: int) { pos <= p < pos + Pow2(order) }
  }

  // ---------- Where a region lies ----------

  lemma {:induction false} SmallSizes(order: nat)
    requires order <= 6
    ensures Pow2(order) in {1, 2, 4, 8, 16, 32, 64} && (Pow2(order) == 64 <==> order == 6)
  {
    if order > 0 { SmallSizes(order - 1); }
  }

  lemma {:induction false} LargeSizes(order: nat)
    requires order >= 6
    ensures Pow2(order) == BITS * Pow2(order - 6)
  {
    if order == 6 { SmallSizes(6); } else { LargeSizes(order - 1); }
  }

  lemma {:induction false} SmallRegion(q: int, pos: nat, n: nat)
    requires n in {1, 2, 4, 8, 16, 32, 64} && pos == q * n
    ensures pos % BITS + n <= BITS
  {
    if n == 1 { Slot(q, pos, 1, 64); }
    else if n == 2 { Slot(q, pos, 2, 32); }
    else if n == 4 { Slot(q, pos, 4, 16); }
    else if n == 8 { Slot(q, pos, 8, 8); }
    else if n == 16 { Slot(q, pos, 16, 4); }
    else if n == 32 { Slot(q, pos, 32, 2); }
    else { Slot(q, pos, 64, 1); }
  }

  lemma {:induction false} Slot(q: int, pos: nat, n: nat, m: nat)
    requires pos == q * n && n * m == BITS
    ensures pos % BITS + n <= BITS
  {
    var a, b := q / m, q % m;
    assert pos == BITS * a + b * n by {
      assert q == m * a + b;
      assert (m * a + b) * n == (n * m) * a + b * n;
    }
    assert b * n <= (m - 1) * n;
  }

  lemma {:induction false} LargeRegion(q: int, pos: nat, n: nat, m: nat)
    requires n == BITS * m && pos == q * n
    ensures pos % BITS == 0 && n % BITS == 0
  {
    assert pos == BITS * (q * m);
  }

  /** A region of a small order lies in one word; one of a large order consists of whole words. */
  lemma {:induction false} RegionWords(pos: nat, order: nat)
    requires Aligned(pos, Pow2(order))
    ensures order <= 6 ==> pos % BITS + Pow2(order) <= BITS
    ensures order >= 6 ==> pos % BITS == 0 && Pow2(order) % BITS == 0 && Pow2(order) >= BITS
  {
    hide Pow2;
    var q :| pos == Multiple(q, Pow2(order));
    if order <= 6 {
      SmallSizes(order);
      SmallRegion(q, pos, Pow2(order));
    }
    if order >= 6 {
      LargeSizes(order);
      LargeRegion(q, pos, Pow2(order), Pow2(order - 6));
    }
  }

  // ---------- The mask ----------

  /** mask += mask - 1 */
  function Fill(x: Word): Word { x + (x - 1) }

  lemma {:induction false} FillIs(x: Word)
    ensures Fill(x) == Pred(Double(x))
  {
  }

  /** The n bits from offset on. */
  function Mask(n: nat, offset: nat): Word
    requires n > 0
  {
    Shl(Fill(Shl(1, n - 1)), offset)
  }

  lemma {:induction false} MaskBit(n: nat, offset: nat, j: nat)
    requires 0 < n && offset + n <= BITS && j < BITS
    ensures Bit(Mask(n, offset), j) <==> offset <= j < offset + n
  {
    hide Bit, Pred, Double, Fill;
    FillIs(Shl(1, n - 1));
    assert Shl(1, n) == Double(Shl(1, n - 1));
    ShlBit(LowMask(n), offset, j);
    if j >= offset { LowMaskBit(n, j - offset); }
  }

  // ---------- __reg_op ----------

  ghost predicate Free(s: seq<Word>, r: Region) {
    forall p :: r.Has(p) ==> !In(s, p)
  }

  /** The first and the last word of a region, and its mask, which is the same in each of them. */
  lemma {:induction false} MaskCovers(pos: nat, order: nat, i: nat, j: nat)
    requires Aligned(pos, Pow2(order)) && j < BITS
    requires i < BitsToLongs(Pow2(order))
    ensures var n := if Pow2(order) < BITS then Pow2(order) else BITS;
            n + pos % BITS <= BITS
            && (Bit(Mask(n, pos % BITS), j) <==> Region(pos, order).Has(BITS * (pos / BITS + i) + j))
  {
    hide Mask, Pow2, Bit;
    RegionWords(pos, order);
    var n := if Pow2(order) < BITS then Pow2(order) else BITS;
    MaskBit(n, pos % BITS, j);
  }

  /** The words that a region touches are those from pos / 64 on, as many as its size takes. */
  lemma {:induction false} RegionSpan(r: Region, p: int)
    requires Aligned(r.pos, Pow2(r.order)) && r.Has(p)
    ensures r.pos / BITS <= p / BITS < r.pos / BITS + BitsToLongs(Pow2(r.order))
  {
    RegionWords(r.pos, r.order);
  }

  function RegionMask(r: Region): Word { Mask(if Pow2(r.order) < BITS then Pow2(r.order) else BITS, r.pos % BITS) }

  lemma {:induction false} WordFree(w: Word, mask: Word)
    ensures And(w, mask) == 0 <==> forall j :: 0 <= j < BITS ==> !(Bit(w, j) && Bit(mask, j))
  {
    hide Bit, And;
    NonzeroBit(And(w, mask));
    if And(w, mask) == 0 {
      forall j | 0 <= j < BITS ensures !(Bit(w, j) && Bit(mask, j)) {
        AndBit(w, mask, j);
        ZeroBit(j);
      }
    } else {
      AndBit(w, mask, Ffs(And(w, mask)));
    }
  }

  lemma {:induction false} MaskedBit(s: seq<Word>, r: Region, i: nat, j: nat)
    requires Aligned(r.pos, Pow2(r.order)) && i < BitsToLongs(Pow2(r.order)) && r.pos / BITS + i < |s| && j < BITS
    ensures var k := r.pos / BITS + i;
            Bit(s[k], j) && Bit(RegionMask(r), j) <==> r.Has(BITS * k + j) && In(s, BITS * k + j)
  {
    hide Bit, Mask, Pow2, Aligned, In;
    MaskCovers(r.pos, r.order, i, j);
    InAt(s, r.pos / BITS + i, j);
  }

  lemma {:induction false} FreeWord(s: seq<Word>, r: Region, i: nat)
    requires Aligned(r.pos, Pow2(r.order)) && i < BitsToLongs(Pow2(r.order)) && r.pos / BITS + i < |s|
    ensures And(s[r.pos / BITS + i], RegionMask(r)) == 0 <==>
      forall p :: r.Has(p) && p / BITS == r.pos / BITS + i ==> !In(s, p)
  {
    hide And, Bit, Mask, Pow2, Aligned, In, RegionMask, BitsToLongs, Region.Has;
    var k, mask := r.pos / BITS + i, RegionMask(r);
    WordFree(s[k], mask);
    if And(s[k], mask) == 0 {
      forall p | r.Has(p) && p / BITS == k ensures !In(s, p) {
        var j := p % BITS;
        assert p == BITS * k + j;
        MaskedBit(s, r, i, j);
      }
    } else {
      var j :| 0 <= j < BITS && Bit(s[k], j) && Bit(mask, j);
      MaskedBit(s, r, i, j);
      Position(k, j);
    }
  }

  /** REG_OP_ISFREE */
  method IsFreeRegion(bitmap: array<Word>, pos: nat, order: nat) returns (free: bool)
    requires Aligned(pos, Pow2(order)) && pos + Pow2(order) <= BITS * bitmap.Length
    ensures free == Free(bitmap[..], Region(pos, order))
  {
    hide In, Bit, Mask, Pow2, And, Aligned;
    ghost var s, r := bitmap[..], Region(pos, order);
    var index, nlongs := pos / BITS, BitsToLongs(Pow2(order));
    var n := if Pow2(order) < BITS then Pow2(order) else BITS;
    var mask := Mask(n, pos % BITS);
    Inside(pos, order, bitmap.Length);
    for i := 0 to nlongs
      invariant forall p :: r.Has(p) && p / BITS < index + i ==> !In(s, p)
    {
      FreeWord(s, r, i);
      if And(bitmap[index + i], mask) != 0 {
        return false;
      }
    }
    forall p | r.Has(p) ensures !In(s, p) {
      RegionSpan(r, p);
    }
    return true;
  }

  lemma {:induction false} Inside(pos: nat, order: nat, length: nat)
    requires Aligned(pos, Pow2(order)) && pos + Pow2(order) <= BITS * length
    ensures pos / BITS + BitsToLongs(Pow2(order)) <= length
  {
    RegionWords(pos, order);
  }

  /** REG_OP_ALLOC and REG_OP_RELEASE */
  method ChangeRegion(bitmap: array<Word>, pos: nat, order: nat, op: RegOp)
    requires Aligned(pos, Pow2(order)) && pos + Pow2(order) <= BITS * bitmap.Length
    modifies bitmap
    ensures forall p :: In(bitmap[..], p) == After(op, In(old(bitmap[..]), p), Region(pos, order).Has(p))
  {
    hide In, Bit, Mask, Pow2, And, Aligned, Applied, After;
    ghost var s, r := bitmap[..], Region(pos, order);
    var index, nlongs := pos / BITS, BitsToLongs(Pow2(order));
    var n := if Pow2(order) < BITS then Pow2(order) else BITS;
    var mask := Mask(n, pos % BITS);
    Inside(pos, order, bitmap.Length);
    for i := 0 to nlongs
      invariant forall k :: 0 <= k < bitmap.Length ==>
        bitmap[k] == if index <= k < index + i then Applied(op, s[k], mask) else s[k]
    {
      bitmap[index + i] := Applied(op, bitmap[index + i], mask);
    }
    forall p ensures In(bitmap[..], p) == After(op, In(s, p), r.Has(p)) {
      ChangedBit(op, s, bitmap[..], r, p);
    }
  }

  lemma {:induction false} ChangedBit(op: RegOp, s: seq<Word>, t: seq<Word>, r: Region, p: int)
    requires Aligned(r.pos, Pow2(r.order)) && r.pos + Pow2(r.order) <= BITS * |s| && |t| == |s|
    requires forall k :: 0 <= k < |s| ==>
      t[k] == if r.pos / BITS <= k < r.pos / BITS + BitsToLongs(Pow2(r.order))
              then Applied(op, s[k], RegionMask(r)) else s[k]
    ensures In(t, p) == After(op, In(s, p), r.Has(p))
  {
    hide Bit, Mask, Pow2, And, Aligned, Applied;
    if r.Has(p) { RegionSpan(r, p); }
    if 0 <= p < BITS * |s| {
      var k, j := p / BITS, p % BITS;
      if r.pos / BITS <= k < r.pos / BITS + BitsToLongs(Pow2(r.order)) {
        AppliedBit(op, s[k], RegionMask(r), j);
        MaskCovers(r.pos, r.order, k - r.pos / BITS, j);
        assert BITS * (r.pos / BITS + (k - r.pos / BITS)) + j == p;
      }
    }
  }

  // ---------- Runs of the allocator ----------

  ghost predicate Covered(live: set<Region>, p: int) {
    exists r :: r in live && r.Has(p)
  }

  ghost predicate Disjoint(live: set<Region>) {
    forall a, b, p :: a in live && b in live && a.Has(p) && b.Has(p) ==> a == b
  }

  /** The set bits are exactly the bits of the live regions, and no bit belongs to two of them. */
  ghost predicate Accounted(s: seq<Word>, live: set<Region>) {
    && (forall p :: In(s, p) <==> Covered(live, p))
    && Disjoint(live)
    && (forall r :: r in live ==> Aligned(r.pos, Pow2(r.order)) && r.pos + Pow2(r.order) <= BITS * |s|)
  }

  lemma {:induction false} Taken(s: seq<Word>, t: seq<Word>, live: set<Region>, r: Region)
    requires Accounted(s, live) && Free(s, r) && Aligned(r.pos, Pow2(r.order))
             && r.pos + Pow2(r.order) <= BITS * |s| && |t| == |s|
    requires forall p :: In(t, p) == After(Alloc, In(s, p), r.Has(p))
    ensures Accounted(t, live + {r}) && r !in live
  {
    hide In, Aligned, Region.Has;
    FirstIn(r);
    forall p ensures In(t, p) <==> Covered(live + {r}, p) {
      if Covered(live, p) {
        var o :| o in live && o.Has(p);
        assert o in live + {r};
      }
      if r.Has(p) { assert r in live + {r}; }
    }
    forall a, b, p | a in live + {r} && b in live + {r} && a.Has(p) && b.Has(p) ensures a == b {
      if a in live { NotShared(s, live, a, r, p); }
      if b in live { NotShared(s, live, b, r, p); }
    }
  }

  lemma {:induction false} NotShared(s: seq<Word>, live: set<Region>, o: Region, r: Region, p: int)
    requires Accounted(s, live) && Free(s, r) && o in live && o.Has(p)
    ensures !r.Has(p)
  {
    assert Covered(live, p);
  }

  lemma {:induction false} FirstIn(r: Region)
    ensures r.Has(r.pos)
  {
  }

  lemma {:induction false} Given(s: seq<Word>, t: seq<Word>, live: set<Region>, r: Region)
    requires Accounted(s, live) && r in live && |t| == |s|
    requires forall p :: In(t, p) == After(Release, In(s, p), r.Has(p))
    ensures Accounted(t, live - {r})
  {
    hide In, Aligned, Region.Has;
    forall p ensures In(t, p) <==> Covered(live - {r}, p) {
      if Covered(live, p) && !r.Has(p) {
        var o :| o in live && o.Has(p);
        assert o in live - {r};
      }
    }
  }

  /** Between two neighbouring slots of an order there is no other. */
  lemma {:induction false} NextSlot(q: int, order: nat, pos: int)
    requires Aligned(pos, Pow2(order)) && Multiple(q, Pow2(order)) < pos
    ensures Multiple(q + 1, Pow2(order)) <= pos
  {
    hide Pow2;
    var p :| pos == Multiple(p, Pow2(order));
    MultipleGap(q, p, Pow2(order));
    MultipleGap(p, q, Pow2(order));
  }

  /** No region of this order below pos is free. */
  ghost predicate NoneFree(s: seq<Word>, order: nat, pos: int) {
    forall i: nat :: i < pos && Aligned(i, Pow2(order)) ==> !Free(s, Region(i, order))
  }

  class RegionAllocator {
    const bitmap: array<Word>
    const bits: nat
    ghost var live: set<Region>

    ghost predicate Valid()
      reads this, bitmap
    {
      bits <= BITS * bitmap.Length && Accounted(bitmap[..], live)
    }

    constructor (bits: nat)
      ensures Valid() && this.bits == bits && live == {} && fresh(bitmap)
    {
      this.bits := bits;
      bitmap := new Word[BitsToLongs(bits)](_ => 0);
      live := {};
      new;
      forall p ensures !In(bitmap[..], p) { ZeroBit(if p >= 0 then p % BITS else 0); }
    }

    /** bitmap_find_free_region */
    method FindFreeRegion(order: nat) returns (ret: int)
      requires Valid()
      modifies this`live, bitmap
      ensures Valid()
      ensures ret >= 0 ==>
                Aligned(ret, Pow2(order)) && ret + Pow2(order) <= bits && Free(old(bitmap[..]), Region(ret, order))
      ensures ret >= 0 ==> NoneFree(old(bitmap[..]), order, ret) && live == old(live) + {Region(ret, order)}
      ensures ret < 0 ==> ret == -12 && NoneFree(old(bitmap[..]), order, bits + 1 - Pow2(order))
      ensures ret < 0 ==> live == old(live) && bitmap[..] == old(bitmap[..])
    {
      hide Accounted, In, Free, Multiple;
      var pos := 0;
      ghost var q := 0;
      FirstSlot(order);
      while pos + Pow2(order) <= bits
        invariant 0 <= pos == Multiple(q, Pow2(order)) && NoneFree(bitmap[..], order, pos)
        invariant Valid() && live == old(live) && bitmap[..] == old(bitmap[..])
        decreases bits - pos
      {
        assert Aligned(pos, Pow2(order));
        var free := IsFreeRegion(bitmap, pos, order);
        if free {
          Allot(pos, order);
          return pos;
        }
        NextPast(bitmap[..], order, q, pos);
        pos, q := pos + Pow2(order), q + 1;
      }
      return ENOMEM;
    }

    /** The region, which is free, is set. */
    method Allot(pos: nat, order: nat)
      requires Valid() && Aligned(pos, Pow2(order)) && pos + Pow2(order) <= BITS * bitmap.Length
      requires Free(bitmap[..], Region(pos, order))
      modifies this`live, bitmap
      ensures Valid() && live == old(live) + {Region(pos, order)} && Region(pos, order) !in old(live)
    {
      hide Accounted, In, Free, Aligned, After;
      ghost var s := bitmap[..];
      ChangeRegion(bitmap, pos, order, Alloc);
      Taken(s, bitmap[..], live, Region(pos, order));
      live := live + {Region(pos, order)};
    }

    /** bitmap_allocate_region */
    method AllocateRegion(pos: nat, order: nat) returns (ret: int)
      requires Valid() && Aligned(pos, Pow2(order)) && pos + Pow2(order) <= BITS * bitmap.Length
      modifies this`live, bitmap
      ensures Valid() && ret == if Free(old(bitmap[..]), Region(pos, order)) then 0 else -16
      ensures live == if ret == 0 then old(live) + {Region(pos, order)} else old(live)
      ensures ret != 0 ==> bitmap[..] == old(bitmap[..])
    {
      hide Accounted, In, Free, Aligned;
      var free := IsFreeRegion(bitmap, pos, order);
      if !free {
        return EBUSY;
      }
      Allot(pos, order);
      return 0;
    }

    /** bitmap_release_region on a region that is live. */
    method ReleaseRegion(pos: nat, order: nat)
      requires Valid() && Region(pos, order) in live
      modifies this`live, bitmap
      ensures Valid() && live == old(live) - {Region(pos, order)}
    {
      hide In, Free, Aligned, After;
      ghost var s := bitmap[..];
      ChangeRegion(bitmap, pos, order, Release);
      Given(s, bitmap[..], live, Region(pos, order));
      live := live - {Region(pos, order)};
    }
  }

  lemma {:induction false} FirstSlot(order: nat)
    ensures Multiple(0, Pow2(order)) == 0
  {
  }

  lemma {:induction false} NextPast(s: seq<Word>, order: nat, q: int, pos: nat)
    requires pos == Multiple(q, Pow2(order)) && NoneFree(s, order, pos) && !Free(s, Region(pos, order))
    ensures pos + Pow2(order) == Multiple(q + 1, Pow2(order)) && NoneFree(s, order, pos + Pow2(order))
  {
    hide Pow2, Free;
    MultipleGap(q, q + 1, Pow2(order));
    forall i: nat | i < pos + Pow2(order) && Aligned(i, Pow2(order)) ensures !Free(s, Region(i, order)) {
      if i > pos { NextSlot(q, order, i); }
    }
  }
}
