/**
 64-bit words as rows of bits.  Everything is said about Bit(w, i); the operators of the language appear
 only in the one-line functions at the top, and the lemmas below give the bits of each of them.
 */
module Words {
  type Word = bv64

  const BITS := 64

  function Odd(w: Word): bool { w & 1 == 1 }

  function Half(w: Word): Word { w >> 1 }

  function Double(w: Word): Word { w << 1 }

  function And(a: Word, b: Word): Word { a & b }

  function Or(a: Word, b: Word): Word { a | b }

  function Not(a: Word): Word { !a }

  /** Bit i of w, counted from the least significant; there are none from 64 on. */
  function Bit(w: Word, i: nat): bool {
    if i == 0 then Odd(w) else Bit(Half(w), i - 1)
  }

  /** w >> n and w << n, a bit at a time.  A shift by 64 gives 0, as the source expects of it. */
  function Shr(w: Word, n: nat): Word {
    if n == 0 then w else Shr(Half(w), n - 1)
  }

  function Shl(w: Word, n: nat): Word {
    if n == 0 then w else Double(Shl(w, n - 1))
  }

  // ---------- Single bits ----------

  lemma {:induction false} AndStep(a: Word, b: Word)
    ensures Half(And(a, b)) == And(Half(a), Half(b)) && Odd(And(a, b)) == (Odd(a) && Odd(b))
  {
  }

  lemma {:induction false} OrStep(a: Word, b: Word)
    ensures Half(Or(a, b)) == Or(Half(a), Half(b)) && Odd(Or(a, b)) == (Odd(a) || Odd(b))
  {
  }

  lemma {:induction false} AndBit(a: Word, b: Word, i: nat)
    ensures Bit(And(a, b), i) == (Bit(a, i) && Bit(b, i))
    decreases i
  {
    hide Odd, Half, And;
    AndStep(a, b);
    if i > 0 { AndBit(Half(a), Half(b), i - 1); }
  }

  lemma {:induction false} OrBit(a: Word, b: Word, i: nat)
    ensures Bit(Or(a, b), i) == (Bit(a, i) || Bit(b, i))
    decreases i
  {
    hide Odd, Half, Or;
    OrStep(a, b);
    if i > 0 { OrBit(Half(a), Half(b), i - 1); }
  }

  lemma {:induction false} ShrBit(w: Word, n: nat, i: nat)
    ensures Bit(Shr(w, n), i) == Bit(w, n + i)
    decreases n
  {
    hide Odd, Half;
    if n > 0 { ShrBit(Half(w), n - 1, i); }
  }

  lemma {:induction false} ZeroBit(i: nat)
    ensures !Bit(0, i)
  {
    if i > 0 { ZeroBit(i - 1); }
  }

  // ---------- The end of a word ----------

  const ALL: Word := 0xFFFF_FFFF_FFFF_FFFF

  /** All bits but the last. */
  const REST: Word := 0x7FFF_FFFF_FFFF_FFFF

  function Half4(w: Word): Word { w >> 4 }

  /** w consists of m hexadecimal digits F. */
  ghost predicate OnesOf(w: Word, m: nat) {
    if m == 0 then w == 0 else And(w, 0xF) == 0xF && OnesOf(Half4(w), m - 1)
  }

  lemma {:induction false} Half4Is(w: Word)
    ensures Half(Half(Half(Half(w)))) == Half4(w)
  {
  }

  lemma {:induction false} ShrHalf4(w: Word, n: nat)
    ensures Shr(w, n + 4) == Shr(Half4(w), n)
  {
    hide Half, Half4;
    Half4Is(w);
    assert Shr(w, n + 4) == Shr(Half(w), n + 3) == Shr(Half(Half(w)), n + 2);
    assert Shr(Half(Half(w)), n + 2) == Shr(Half(Half(Half(w))), n + 1) == Shr(Half(Half(Half(Half(w)))), n);
  }

  lemma {:induction false} DigitF(w: Word, i: nat)
    requires And(w, 0xF) == 0xF && i < 4
    ensures Bit(w, i)
  {
    AndBit(w, 0xF, i);
    BitsOfF();
  }

  lemma {:induction false} BitsOfF()
    ensures Bit(0xF, 0) && Bit(0xF, 1) && Bit(0xF, 2) && Bit(0xF, 3)
  {
    assert Half(0xF) == 0x7 && Half(0x7) == 0x3 && Half(0x3) == 0x1;
    assert Odd(0xF) && Odd(0x7) && Odd(0x3) && Odd(0x1);
    assert Bit(0x1, 0) && Bit(0x3, 1) && Bit(0x7, 2);
  }

  lemma {:induction false} OnesOfBit(w: Word, m: nat, i: nat)
    requires OnesOf(w, m)
    ensures Bit(w, i) <==> i < 4 * m
    ensures Shr(w, 4 * m) == 0
    decreases m
  {
    hide Half, Half4, And;
    if m == 0 {
      ZeroBit(i);
    } else {
      ShrHalf4(w, 4 * m - 4);
      OnesOfBit(Half4(w), m - 1, if i < 4 then i else i - 4);
      if i < 4 {
        DigitF(w, i);
      } else {
        BitHalf4(w, i);
      }
    }
  }

  lemma {:induction false} BitHalf4(w: Word, i: nat)
    requires i >= 4
    ensures Bit(w, i) == Bit(Half4(w), i - 4)
  {
    ShrHalf4(w, 0);
    ShrBit(w, 4, i - 4);
    hide Half, Half4;
    assert Shr(Half4(w), 0) == Half4(w);
  }

  lemma {:induction false} OneMore(w: Word, v: Word, m: nat)
    requires And(w, 0xF) == 0xF && Half4(w) == v && OnesOf(v, m)
    ensures OnesOf(w, m + 1)
  {
  }

  lemma {:induction false} AllOnes()
    ensures OnesOf(ALL, 16)
  {
    hide OnesOf;
    NoOnes();
    OneMore(0x0000_0000_0000_000F, 0x0000_0000_0000_0000, 0);
    OneMore(0x0000_0000_0000_00FF, 0x0000_0000_0000_000F, 1);
    OneMore(0x0000_0000_0000_0FFF, 0x0000_0000_0000_00FF, 2);
    OneMore(0x0000_0000_0000_FFFF, 0x0000_0000_0000_0FFF, 3);
    OneMore(0x0000_0000_000F_FFFF, 0x0000_0000_0000_FFFF, 4);
    OneMore(0x0000_0000_00FF_FFFF, 0x0000_0000_000F_FFFF, 5);
    OneMore(0x0000_0000_0FFF_FFFF, 0x0000_0000_00FF_FFFF, 6);
    OneMore(0x0000_0000_FFFF_FFFF, 0x0000_0000_0FFF_FFFF, 7);
    OneMore(0x0000_000F_FFFF_FFFF, 0x0000_0000_FFFF_FFFF, 8);
    OneMore(0x0000_00FF_FFFF_FFFF, 0x0000_000F_FFFF_FFFF, 9);
    OneMore(0x0000_0FFF_FFFF_FFFF, 0x0000_00FF_FFFF_FFFF, 10);
    OneMore(0x0000_FFFF_FFFF_FFFF, 0x0000_0FFF_FFFF_FFFF, 11);
    OneMore(0x000F_FFFF_FFFF_FFFF, 0x0000_FFFF_FFFF_FFFF, 12);
    OneMore(0x00FF_FFFF_FFFF_FFFF, 0x000F_FFFF_FFFF_FFFF, 13);
    OneMore(0x0FFF_FFFF_FFFF_FFFF, 0x00FF_FFFF_FFFF_FFFF, 14);
    OneMore(0xFFFF_FFFF_FFFF_FFFF, 0x0FFF_FFFF_FFFF_FFFF, 15);
  }

  lemma {:induction false} NoOnes()
    ensures OnesOf(0, 0)
  {
  }

  lemma {:induction false} AndAll(w: Word)
    ensures And(w, ALL) == w && And(w, 0) == 0
  {
  }

  lemma {:induction false} AndShr(a: Word, b: Word, n: nat)
    ensures Shr(And(a, b), n) == And(Shr(a, n), Shr(b, n))
    decreases n
  {
    hide Half, Odd, And;
    AndStep(a, b);
    if n > 0 { AndShr(Half(a), Half(b), n - 1); }
  }

  lemma {:induction false} AllBit(i: nat)
    ensures Bit(ALL, i) <==> i < BITS
    ensures Shr(ALL, BITS) == 0
  {
    AllOnes();
    OnesOfBit(ALL, 16, i);
  }

  lemma {:induction false} ShrAll(w: Word)
    ensures Shr(w, BITS) == 0
  {
    hide And, Shr;
    AndAll(w);
    AndShr(w, ALL, BITS);
    AllBit(0);
    AndAll(Shr(w, BITS));
  }

  /** A word has no bits from 64 on. */
  lemma {:induction false} HighBit(w: Word, i: nat)
    requires i >= BITS
    ensures !Bit(w, i)
  {
    hide And, Bit;
    AndAll(w);
    AndBit(w, ALL, i);
    AllBit(i);
  }

  lemma {:induction false} SameHalves(a: Word, b: Word)
    requires Half(a) == Half(b) && Odd(a) == Odd(b)
    ensures a == b
  {
  }

  lemma {:induction false} SameUpTo(a: Word, b: Word, n: nat)
    requires Shr(a, n) == Shr(b, n) && forall i :: 0 <= i < n ==> Bit(a, i) == Bit(b, i)
    ensures a == b
    decreases n
  {
    hide Half, Odd;
    if n > 0 {
      assert Bit(a, 0) == Bit(b, 0);
      forall i | 0 <= i < n - 1 ensures Bit(Half(a), i) == Bit(Half(b), i) {
        assert Bit(a, i + 1) == Bit(b, i + 1);
      }
      SameUpTo(Half(a), Half(b), n - 1);
      SameHalves(a, b);
    }
  }

  /** A word is its bits. */
  lemma {:induction false} SameBits(a: Word, b: Word)
    requires forall i :: 0 <= i < BITS ==> Bit(a, i) == Bit(b, i)
    ensures a == b
  {
    ShrAll(a);
    ShrAll(b);
    SameUpTo(a, b, BITS);
  }

  // ---------- Shifting left, complement, masks ----------

  lemma {:induction false} DoubleIs(a: Word)
    ensures Half(Double(a)) == And(a, REST) && !Odd(Double(a)) && Half(ALL) == REST
  {
  }

  lemma {:induction false} DoubleBit(a: Word, i: nat)
    ensures Bit(Double(a), i) <==> 0 < i < BITS && Bit(a, i - 1)
  {
    hide Half, Odd, Double, And;
    DoubleIs(a);
    if i > 0 {
      AndBit(a, REST, i - 1);
      AllBit(i);
      assert Bit(REST, i - 1) == Bit(ALL, i);
    }
  }

  lemma {:induction false} ShlBit(w: Word, n: nat, i: nat)
    ensures Bit(Shl(w, n), i) <==> n <= i < BITS && Bit(w, i - n)
    decreases n
  {
    hide Double, Bit;
    if n == 0 {
      if i >= BITS { HighBit(w, i); }
    } else {
      DoubleBit(Shl(w, n - 1), i);
      if i > 0 { ShlBit(w, n - 1, i - 1); }
    }
  }

  lemma {:induction false} NotIs(a: Word)
    ensures Or(a, Not(a)) == ALL && And(a, Not(a)) == 0
  {
  }

  lemma {:induction false} NotBit(a: Word, i: nat)
    ensures Bit(Not(a), i) <==> i < BITS && !Bit(a, i)
  {
    hide Or, And, Not, Bit;
    NotIs(a);
    OrBit(a, Not(a), i);
    AndBit(a, Not(a), i);
    AllBit(i);
    ZeroBit(i);
  }

  /** The n low bits. */
  function LowMask(n: nat): Word { Pred(Shl(1, n)) }

  function Pred(x: Word): Word { x - 1 }

  lemma {:induction false} LowMaskIs(x: Word)
    ensures Pred(Double(x)) == Or(Double(Pred(x)), 1) && Pred(1) == 0
  {
  }

  lemma {:induction false} OneBit(i: nat)
    ensures Bit(1, i) <==> i == 0
  {
    assert Half(1) == 0;
    if i > 0 { ZeroBit(i - 1); }
  }

  lemma {:induction false} LowMaskStep(n: nat)
    ensures LowMask(0) == 0 && (n > 0 ==> LowMask(n) == Or(Double(LowMask(n - 1)), 1))
  {
    hide Double, Or, Pred;
    LowMaskIs(if n == 0 then 0 else Shl(1, n - 1));
  }

  lemma {:induction false} LowMaskBit(n: nat, i: nat)
    requires n <= BITS
    ensures Bit(LowMask(n), i) <==> i < n
    decreases n
  {
    hide Double, Or, Bit, LowMask;
    LowMaskStep(n);
    if n == 0 {
      ZeroBit(i);
    } else {
      OrBit(Double(LowMask(n - 1)), 1, i);
      DoubleBit(LowMask(n - 1), i);
      OneBit(i);
      if i > 0 { LowMaskBit(n - 1, i - 1); }
    }
  }

  // ---------- The lowest set bit ----------

  function FirstBit(w: Word, from: nat): (r: nat)
    requires from <= BITS
    ensures from <= r <= BITS && forall i :: from <= i < r ==> !Bit(w, i)
    ensures r < BITS ==> Bit(w, r)
    decreases BITS - from
  {
    if from == BITS || Bit(w, from) then from else FirstBit(w, from + 1)
  }

  /** __ffs: the least bit that is set, if the word has one. */
  function Ffs(w: Word): (r: nat)
    ensures r <= BITS && forall i :: 0 <= i < r ==> !Bit(w, i)
    ensures r < BITS ==> Bit(w, r)
  {
    FirstBit(w, 0)
  }

  /** ffz */
  function Ffz(w: Word): (r: nat) { Ffs(Not(w)) }

  lemma {:induction false} NonzeroBit(w: Word)
    ensures w != 0 <==> Ffs(w) < BITS
  {
    if Ffs(w) == BITS {
      forall i | 0 <= i < BITS ensures Bit(w, i) == Bit(0, i) { ZeroBit(i); }
      SameBits(w, 0);
    } else {
      ZeroBit(Ffs(w));
    }
  }
}
