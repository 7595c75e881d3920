/** find_next_bit.c: searching a bitmap a word at a time. */
module FindBit {
  import opened Words
  import opened Bitmap

  /** r is the first position from from on whose bit is v, or size if there is none. */
  ghost predicate IsNext(s: seq<Word>, v: bool, size: nat, from: nat, r: nat) {
    if from >= size then r == size
    else from <= r <= size && (forall p :: from <= p < r ==> In(s, p) != v) && (r < size ==> In(s, r) == v)
  }

  /** No position in [a, b) has bit v. */
  ghost predicate None(s: seq<Word>, v: bool, a: nat, b: nat) {
    forall p :: a <= p < b ==> In(s, p) != v
  }

  /** t marks the bits of w from lo up to hi that are v. */
  ghost predicate Marks(t: Word, w: Word, v: bool, lo: nat, hi: nat) {
    forall j :: 0 <= j < BITS ==> (Bit(t, j) <==> lo <= j < hi && Bit(w, j) == v)
  }

  lemma {:induction false} MarksFound(t: Word, s: seq<Word>, i: nat, v: bool, lo: nat, hi: nat, size: nat, from: nat)
    requires i < |s| && lo <= hi <= BITS && Marks(t, s[i], v, lo, hi) && t != 0 && BITS * i + hi <= size
    requires from <= BITS * i + lo && None(s, v, from, BITS * i + lo)
    ensures IsNext(s, v, size, from, BITS * i + Ffs(t))
  {
    NonzeroBit(t);
    var f := Ffs(t);
    assert Bit(t, f);
    InAt(s, i, f);
    forall p | from <= p < BITS * i + f ensures In(s, p) != v {
      if p >= BITS * i + lo {
        assert !Bit(t, p - BITS * i);
        InAt(s, i, p - BITS * i);
      }
    }
  }

  lemma {:induction false} MarksNone(t: Word, s: seq<Word>, i: nat, v: bool, lo: nat, hi: nat, from: nat)
    requires i < |s| && lo <= hi <= BITS && Marks(t, s[i], v, lo, hi) && t == 0
    requires from <= BITS * i + lo && None(s, v, from, BITS * i + lo)
    ensures None(s, v, from, BITS * i + hi)
  {
    forall p | from <= p < BITS * i + hi ensures In(s, p) != v {
      if p >= BITS * i + lo {
        ZeroBit(p - BITS * i);
        InAt(s, i, p - BITS * i);
      }
    }
  }

  /** ~0UL << n and ~0UL >> (64 - n) */
  lemma {:induction false} UpperMask(w: Word, n: nat, j: nat)
    requires n <= BITS && j < BITS
    ensures Bit(And(w, Shl(ALL, n)), j) <==> n <= j && Bit(w, j)
    ensures Bit(And(w, Shr(ALL, BITS - n)), j) <==> j < n && Bit(w, j)
    ensures Bit(Not(Or(w, Shr(ALL, BITS - n))), j) <==> n <= j && !Bit(w, j)
    ensures Bit(Not(Or(w, Shl(ALL, n))), j) <==> j < n && !Bit(w, j)
  {
    hide Bit, And, Or, Not, Shl, Shr;
    var a, b := Shl(ALL, n), Shr(ALL, BITS - n);
    ShlBit(ALL, n, j);
    if j >= n { AllBit(j - n); }
    ShrBit(ALL, BITS - n, j);
    AllBit(BITS - n + j);
    AndBit(w, a, j);
    AndBit(w, b, j);
    OrBit(w, a, j);
    OrBit(w, b, j);
    NotBit(Or(w, a), j);
    NotBit(Or(w, b), j);
  }

  lemma {:induction false} MarksFrom(w: Word, n: nat)
    requires n <= BITS
    ensures Marks(And(w, Shl(ALL, n)), w, true, n, BITS)
    ensures Marks(Not(Or(w, Shr(ALL, BITS - n))), w, false, n, BITS)
  {
    var a, b := And(w, Shl(ALL, n)), Not(Or(w, Shr(ALL, BITS - n)));
    forall j | 0 <= j < BITS
      ensures Bit(a, j) <==> n <= j && Bit(w, j)
      ensures Bit(b, j) <==> n <= j && !Bit(w, j)
    {
      UpperMask(w, n, j);
    }
  }

  lemma {:induction false} MarksTo(t: Word, w: Word, lo: nat, n: nat)
    requires n <= BITS
    ensures Marks(t, w, true, lo, BITS) ==> Marks(And(t, Shr(ALL, BITS - n)), w, true, lo, n)
    ensures Marks(Not(t), w, false, lo, BITS) ==> Marks(Not(Or(t, Shl(ALL, n))), w, false, lo, n)
  {
    var a, b := And(t, Shr(ALL, BITS - n)), Not(Or(t, Shl(ALL, n)));
    forall j | 0 <= j < BITS
      ensures Bit(a, j) <==> j < n && Bit(t, j)
      ensures Bit(b, j) <==> j < n && Bit(Not(t), j)
    {
      UpperMask(t, n, j);
      NotBit(t, j);
    }
  }

  lemma {:induction false} MarksWhole(w: Word)
    ensures Marks(w, w, true, 0, BITS) && Marks(Not(w), w, false, 0, BITS)
  {
    forall j | 0 <= j < BITS ensures Bit(Not(w), j) <==> !Bit(w, j) { NotBit(w, j); }
  }

  method FindNextBit(addr: array<Word>, size: nat, offset: nat) returns (r: nat)
    requires BitsToLongs(size) <= addr.Length
    ensures IsNext(addr[..], true, size, offset, r)
  {
    hide In, Bit, And, Shl, Shr, Marks, IsNext, None;
    if offset >= size {
      Beyond(addr[..], true, size, offset);
      return size;
    }
    ghost var s := addr[..];
    var i := offset / BITS;
    var left, o, tmp := size - BITS * i, offset % BITS, 0;
    NoneYet(s, true, offset, offset);
    if o != 0 {
      tmp := And(addr[i], Shl(ALL, o));
      MarksFrom(addr[i], o);
      if left < BITS {
        r := FirstSet(addr, tmp, i, left, o, offset);
        return;
      }
      if tmp != 0 {
        MarksFound(tmp, s, i, true, o, BITS, size, offset);
        return BITS * i + Ffs(tmp);
      }
      MarksNone(tmp, s, i, true, o, BITS, offset);
      i, left := i + 1, left - BITS;
    }
    r := WholeWords(addr, size, i, left, offset);
  }

  /** The loop over whole words, and the last word. */
  method WholeWords(addr: array<Word>, size: nat, i0: nat, left0: nat, ghost offset: nat) returns (r: nat)
    requires BitsToLongs(size) <= addr.Length && offset <= BITS * i0 && BITS * i0 + left0 == size && offset < size
    requires None(addr[..], true, offset, BITS * i0)
    ensures IsNext(addr[..], true, size, offset, r)
  {
    hide In, Bit, And, Shl, Shr, Marks, IsNext, None;
    ghost var s := addr[..];
    var i, left := i0, left0;
    while left >= BITS
      invariant 0 <= i && 0 <= left && offset <= BITS * i && BITS * i + left == size && None(s, true, offset, BITS * i)
    {
      var tmp := addr[i];
      MarksWhole(tmp);
      if tmp != 0 {
        MarksFound(tmp, s, i, true, 0, BITS, size, offset);
        return BITS * i + Ffs(tmp);
      }
      MarksNone(tmp, s, i, true, 0, BITS, offset);
      i, left := i + 1, left - BITS;
    }
    if left == 0 {
      AllNone(s, true, size, offset);
      return BITS * i;
    }
    MarksWhole(addr[i]);
    r := FirstSet(addr, addr[i], i, left, 0, offset);
  }

  /** found_first: the last word, of which only the first left bits count. */
  method FirstSet(addr: array<Word>, t: Word, i: nat, left: nat, ghost lo: nat, ghost from: nat) returns (r: nat)
    requires i < addr.Length && lo <= left < BITS && Marks(t, addr[i], true, lo, BITS)
    requires from <= BITS * i + lo && None(addr[..], true, from, BITS * i + lo) && from < BITS * i + left
    ensures IsNext(addr[..], true, BITS * i + left, from, r)
  {
    hide In, Bit, And, Shl, Shr, Marks, IsNext, None;
    var tmp := And(t, Shr(ALL, BITS - left));
    MarksTo(t, addr[i], lo, left);
    if tmp == 0 {
      MarksNone(tmp, addr[..], i, true, lo, left, from);
      AllNone(addr[..], true, BITS * i + left, from);
      return BITS * i + left;
    }
    MarksFound(tmp, addr[..], i, true, lo, left, BITS * i + left, from);
    return BITS * i + Ffs(tmp);
  }

  method FindNextZeroBit(addr: array<Word>, size: nat, offset: nat) returns (r: nat)
    requires BitsToLongs(size) <= addr.Length
    ensures IsNext(addr[..], false, size, offset, r)
  {
    hide In, Bit, Or, Not, Shl, Shr, Marks, IsNext, None;
    if offset >= size {
      Beyond(addr[..], false, size, offset);
      return size;
    }
    ghost var s := addr[..];
    var i := offset / BITS;
    var left, o, tmp := size - BITS * i, offset % BITS, 0;
    NoneYet(s, false, offset, offset);
    if o != 0 {
      tmp := Or(addr[i], Shr(ALL, BITS - o));
      MarksFrom(addr[i], o);
      if left < BITS {
        r := FirstZero(addr, tmp, i, left, o, offset);
        return;
      }
      if Not(tmp) != 0 {
        MarksFound(Not(tmp), s, i, false, o, BITS, size, offset);
        return BITS * i + Ffz(tmp);
      }
      MarksNone(Not(tmp), s, i, false, o, BITS, offset);
      i, left := i + 1, left - BITS;
    }
    r := WholeZeroWords(addr, size, i, left, offset);
  }

  /** The loop over whole words, and the last word. */
  method WholeZeroWords(addr: array<Word>, size: nat, i0: nat, left0: nat, ghost offset: nat) returns (r: nat)
    requires BitsToLongs(size) <= addr.Length && offset <= BITS * i0 && BITS * i0 + left0 == size && offset < size
    requires None(addr[..], false, offset, BITS * i0)
    ensures IsNext(addr[..], false, size, offset, r)
  {
    hide In, Bit, Or, Not, Shl, Shr, Marks, IsNext, None;
    ghost var s := addr[..];
    var i, left := i0, left0;
    while left >= BITS
      invariant 0 <= i && 0 <= left && offset <= BITS * i && BITS * i + left == size && None(s, false, offset, BITS * i)
    {
      var tmp := addr[i];
      MarksWhole(tmp);
      if Not(tmp) != 0 {
        MarksFound(Not(tmp), s, i, false, 0, BITS, size, offset);
        return BITS * i + Ffz(tmp);
      }
      MarksNone(Not(tmp), s, i, false, 0, BITS, offset);
      i, left := i + 1, left - BITS;
    }
    if left == 0 {
      AllNone(s, false, size, offset);
      return BITS * i;
    }
    MarksWhole(addr[i]);
    r := FirstZero(addr, addr[i], i, left, 0, offset);
  }

  method FirstZero(addr: array<Word>, t: Word, i: nat, left: nat, ghost lo: nat, ghost from: nat) returns (r: nat)
    requires i < addr.Length && lo <= left < BITS && Marks(Not(t), addr[i], false, lo, BITS)
    requires from <= BITS * i + lo && None(addr[..], false, from, BITS * i + lo) && from < BITS * i + left
    ensures IsNext(addr[..], false, BITS * i + left, from, r)
  {
    hide In, Bit, Or, Shl, Shr, Marks, IsNext, None;
    var tmp := Or(t, Shl(ALL, left));
    MarksTo(t, addr[i], lo, left);
    NotAll(tmp);
    if tmp == ALL {
      MarksNone(Not(tmp), addr[..], i, false, lo, left, from);
      AllNone(addr[..], false, BITS * i + left, from);
      return BITS * i + left;
    }
    MarksFound(Not(tmp), addr[..], i, false, lo, left, BITS * i + left, from);
    return BITS * i + Ffz(tmp);
  }

  lemma {:induction false} NotAll(w: Word)
    ensures w == ALL <==> Not(w) == 0
  {
  }

  /** find_first_bit */
  method FindFirstBit(addr: array<Word>, size: nat) returns (r: nat)
    requires BitsToLongs(size) <= addr.Length
    ensures IsNext(addr[..], true, size, 0, r)
  {
    hide In, Bit, And, Shr, Marks, IsNext, None;
    ghost var s := addr[..];
    var i, left := 0, size;
    NoneYet(s, true, 0, 0);
    while left >= BITS
      invariant 0 <= i && 0 <= left && BITS * i + left == size && None(s, true, 0, BITS * i)
    {
      var tmp := addr[i];
      MarksWhole(tmp);
      if tmp != 0 {
        MarksFound(tmp, s, i, true, 0, BITS, size, 0);
        return BITS * i + Ffs(tmp);
      }
      MarksNone(tmp, s, i, true, 0, BITS, 0);
      i, left := i + 1, left - BITS;
    }
    if left == 0 {
      if size > 0 { AllNone(s, true, size, 0); } else { Beyond(s, true, 0, 0); }
      return BITS * i;
    }
    MarksWhole(addr[i]);
    r := FirstSet(addr, addr[i], i, left, 0, 0);
  }

  lemma {:induction false} Beyond(s: seq<Word>, v: bool, size: nat, from: nat)
    requires from >= size
    ensures IsNext(s, v, size, from, size)
  {
  }

  lemma {:induction false} NoneYet(s: seq<Word>, v: bool, a: nat, b: nat)
    requires b <= a
    ensures None(s, v, a, b)
  {
  }

  lemma {:induction false} AllNone(s: seq<Word>, v: bool, size: nat, from: nat)
    requires from < size && None(s, v, from, size)
    ensures IsNext(s, v, size, from, size)
  {
  }
}
