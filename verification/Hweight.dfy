/**
 hweight.c: counting the bits of a word without looking at them one by one.  Each folding step is
 related to the number of set bits of the fields it adds up, from single bits to the whole word.
 */
module Hweight {
  import opened Words

  /** Each field of two bits holds the number of bits that were set in it. */
  function Pairs(w: Word): Word { w - ((w >> 1) & 0x5555_5555_5555_5555) }

  /** Each field of four bits holds the sum of its two halves. */
  function Nibbles(w: Word): Word { (w & 0x3333_3333_3333_3333) + ((w >> 2) & 0x3333_3333_3333_3333) }

  /** Each byte holds the sum of its two halves. */
  function Bytes(w: Word): Word { (w + (w >> 4)) & 0x0F0F_0F0F_0F0F_0F0F }

  /** The last byte of the product is the sum of all the bytes. */
  function Total(w: Word): Word { (w * 0x0101_0101_0101_0101) >> 56 }

  /** __sw_hweight64, with the fast multiplier. */
  function Hweight64(w: Word): Word { Total(Bytes(Nibbles(Pairs(w)))) }

  // ---------- Fields of 1, 2, 4 and 8 bits: the lowest, the rest, and the sum of the n lowest ----------

  function Plus(a: Word, b: Word): Word { a + b }

  function Low1(w: Word): Word { w & 1 }

  function Low2(w: Word): Word { w & 3 }

  function Low4(w: Word): Word { w & 15 }

  function Low8(w: Word): Word { w & 255 }

  function Drop2(w: Word): Word { w >> 2 }

  function Drop4(w: Word): Word { w >> 4 }

  function Drop8(w: Word): Word { w >> 8 }

  function Sum1(w: Word, n: nat): Word { if n == 0 then 0 else Plus(Low1(w), Sum1(Half(w), n - 1)) }

  function Sum2(w: Word, n: nat): Word { if n == 0 then 0 else Plus(Low2(w), Sum2(Drop2(w), n - 1)) }

  function Sum4(w: Word, n: nat): Word { if n == 0 then 0 else Plus(Low4(w), Sum4(Drop4(w), n - 1)) }

  function Sum8(w: Word, n: nat): Word { if n == 0 then 0 else Plus(Low8(w), Sum8(Drop8(w), n - 1)) }

  lemma {:induction false} PlusIs(a: Word, b: Word)
    ensures Plus(a, b) == a + b
  {
  }

  lemma {:induction false} AddAssoc(a: Word, b: Word, c: Word)
    ensures Plus(a + b, c) == Plus(a, b + c)
  {
  }

  lemma {:induction false} PlusAssoc(a: Word, b: Word, c: Word)
    ensures Plus(Plus(a, b), c) == Plus(a, Plus(b, c))
  {
    hide Plus;
    PlusIs(a, b);
    PlusIs(b, c);
    AddAssoc(a, b, c);
  }

  lemma {:induction false} HalfHalf(w: Word)
    ensures Half(Half(w)) == Drop2(w)
  {
  }

  lemma {:induction false} DropDrop2(w: Word)
    ensures Drop2(Drop2(w)) == Drop4(w)
  {
  }

  lemma {:induction false} DropDrop4(w: Word)
    ensures Drop4(Drop4(w)) == Drop8(w)
  {
  }

  // ---------- From bits to pairs ----------

  function Even(w: Word): Word { w & 0x5555_5555_5555_5555 }

  lemma {:induction false} PairsAre(w: Word)
    ensures Pairs(w) == Plus(Even(w), Even(Half(w)))
  {
  }

  lemma {:induction false} EvenStep(w: Word)
    ensures Drop2(Even(w)) == Even(Drop2(w)) && Low2(Even(w)) == Low1(w) && Half(Drop2(w)) == Drop2(Half(w))
  {
  }

  lemma {:induction false} EvenIs(a: Word)
    ensures Even(a) & 0x5555_5555_5555_5555 == Even(a)
  {
  }

  lemma {:induction false} EvenDrop(a: Word, b: Word)
    requires a & 0x5555_5555_5555_5555 == a && b & 0x5555_5555_5555_5555 == b
    ensures Drop2(a + b) == Plus(Drop2(a), Drop2(b))
  {
  }

  lemma {:induction false} EvenLow(a: Word, b: Word)
    requires a & 0x5555_5555_5555_5555 == a && b & 0x5555_5555_5555_5555 == b
    ensures Low2(a + b) == Plus(Low2(a), Low2(b))
  {
  }

  /** Fields that are half empty do not overflow when they are added. */
  lemma {:induction false} AddEvenDrop(a: Word, b: Word)
    ensures Drop2(Plus(Even(a), Even(b))) == Plus(Drop2(Even(a)), Drop2(Even(b)))
  {
    hide *;
    EvenIs(a);
    EvenIs(b);
    EvenDrop(Even(a), Even(b));
    PlusIs(Even(a), Even(b));
  }

  lemma {:induction false} AddEvenLow(a: Word, b: Word)
    ensures Low2(Plus(Even(a), Even(b))) == Plus(Low2(Even(a)), Low2(Even(b)))
  {
    hide *;
    EvenIs(a);
    EvenIs(b);
    EvenLow(Even(a), Even(b));
    PlusIs(Even(a), Even(b));
  }

  lemma {:induction false} PairsStep(w: Word)
    ensures Drop2(Pairs(w)) == Pairs(Drop2(w)) && Low2(Pairs(w)) == Plus(Low1(w), Low1(Half(w)))
  {
    hide *;
    PairsAre(w);
    PairsAre(Drop2(w));
    EvenStep(w);
    EvenStep(Half(w));
    AddEvenDrop(w, Half(w));
    AddEvenLow(w, Half(w));
  }

  lemma {:induction false} PairsSum(w: Word, n: nat)
    ensures Sum2(Pairs(w), n) == Sum1(w, 2 * n)
    decreases n
  {
    hide Pairs, Plus, Low1, Low2, Half, Drop2;
    if n > 0 {
      PairsStep(w);
      PairsSum(Drop2(w), n - 1);
      HalfHalf(w);
      PlusAssoc(Low1(w), Low1(Half(w)), Sum1(Drop2(w), 2 * n - 2));
      assert Sum1(Half(w), 2 * n - 1) == Plus(Low1(Half(w)), Sum1(Half(Half(w)), 2 * n - 2));
    }
  }

  // ---------- From pairs to nibbles ----------

  function Every2(w: Word): Word { w & 0x3333_3333_3333_3333 }

  lemma {:induction false} NibblesAre(w: Word)
    ensures Nibbles(w) == Plus(Every2(w), Every2(Drop2(w)))
  {
  }

  lemma {:induction false} Every2Step(w: Word)
    ensures Drop4(Every2(w)) == Every2(Drop4(w)) && Low4(Every2(w)) == Low2(w) && Drop2(Drop4(w)) == Drop4(Drop2(w))
  {
  }

  lemma {:induction false} Every2Is(a: Word)
    ensures Every2(a) & 0x3333_3333_3333_3333 == Every2(a)
  {
  }

  lemma {:induction false} Every2Drop(a: Word, b: Word)
    requires a & 0x3333_3333_3333_3333 == a && b & 0x3333_3333_3333_3333 == b
    ensures Drop4(a + b) == Plus(Drop4(a), Drop4(b))
  {
  }

  lemma {:induction false} Every2Low(a: Word, b: Word)
    requires a & 0x3333_3333_3333_3333 == a && b & 0x3333_3333_3333_3333 == b
    ensures Low4(a + b) == Plus(Low4(a), Low4(b))
  {
  }

  /** Fields that are half empty do not overflow when they are added. */
  lemma {:induction false} AddEvery2Drop(a: Word, b: Word)
    ensures Drop4(Plus(Every2(a), Every2(b))) == Plus(Drop4(Every2(a)), Drop4(Every2(b)))
  {
    hide *;
    Every2Is(a);
    Every2Is(b);
    Every2Drop(Every2(a), Every2(b));
    PlusIs(Every2(a), Every2(b));
  }

  lemma {:induction false} AddEvery2Low(a: Word, b: Word)
    ensures Low4(Plus(Every2(a), Every2(b))) == Plus(Low4(Every2(a)), Low4(Every2(b)))
  {
    hide *;
    Every2Is(a);
    Every2Is(b);
    Every2Low(Every2(a), Every2(b));
    PlusIs(Every2(a), Every2(b));
  }

  lemma {:induction false} NibblesStep(w: Word)
    ensures Drop4(Nibbles(w)) == Nibbles(Drop4(w)) && Low4(Nibbles(w)) == Plus(Low2(w), Low2(Drop2(w)))
  {
    hide *;
    NibblesAre(w);
    NibblesAre(Drop4(w));
    Every2Step(w);
    Every2Step(Drop2(w));
    AddEvery2Drop(w, Drop2(w));
    AddEvery2Low(w, Drop2(w));
  }

  lemma {:induction false} NibblesSum(w: Word, n: nat)
    ensures Sum4(Nibbles(w), n) == Sum2(w, 2 * n)
    decreases n
  {
    hide Nibbles, Plus, Low2, Low4, Drop2, Drop4;
    if n > 0 {
      NibblesStep(w);
      NibblesSum(Drop4(w), n - 1);
      DropDrop2(w);
      PlusAssoc(Low2(w), Low2(Drop2(w)), Sum2(Drop4(w), 2 * n - 2));
      assert Sum2(Drop2(w), 2 * n - 1) == Plus(Low2(Drop2(w)), Sum2(Drop2(Drop2(w)), 2 * n - 2));
    }
  }

  // ---------- From nibbles to bytes ----------

  /** No nibble is so great that two of them could overflow into the next. */
  predicate Modest(w: Word) { w & 0x7777_7777_7777_7777 == w }

  lemma {:induction false} NibblesModest(w: Word)
    ensures Modest(Nibbles(w))
  {
  }

  lemma {:induction false} BytesStep(w: Word)
    requires Modest(w)
    ensures Drop8(Bytes(w)) == Bytes(Drop8(w)) && Low8(Bytes(w)) == Plus(Low4(w), Low4(Drop4(w))) && Modest(Drop8(w))
  {
  }

  lemma {:induction false} BytesSum(w: Word, n: nat)
    requires Modest(w)
    ensures Sum8(Bytes(w), n) == Sum4(w, 2 * n)
    decreases n
  {
    hide Bytes, Plus, Low4, Low8, Drop4, Drop8, Modest;
    if n > 0 {
      BytesStep(w);
      BytesSum(Drop8(w), n - 1);
      DropDrop4(w);
      PlusAssoc(Low4(w), Low4(Drop4(w)), Sum4(Drop8(w), 2 * n - 2));
      assert Sum4(Drop4(w), 2 * n - 1) == Plus(Low4(Drop4(w)), Sum4(Drop4(Drop4(w)), 2 * n - 2));
    }
  }

  // ---------- From bytes to the total ----------

  /** The multiplication in three steps, each of which adds two copies. */
  function Twice(w: Word): Word { w * 0x0101 }

  function Fourfold(w: Word): Word { w * 0x1_0001 }

  function Eightfold(w: Word): Word { w * 0x1_0000_0001 }

  lemma {:induction false} TwiceIs(w: Word)
    ensures Twice(w) == w * 0x0101
  {
  }

  lemma {:induction false} FourfoldIs(w: Word)
    ensures Fourfold(w * 0x0101) == w * 0x0101_0101
  {
  }

  lemma {:induction false} EightfoldIs(w: Word)
    ensures Eightfold(w * 0x0101_0101) == w * 0x0101_0101_0101_0101
  {
  }

  lemma {:induction false} ProductIs(w: Word)
    ensures Eightfold(Fourfold(Twice(w))) == w * 0x0101_0101_0101_0101
  {
    hide *;
    TwiceIs(w);
    FourfoldIs(w);
    EightfoldIs(w);
  }

  /** The bytes of a word. */
  function Byte0(w: Word): Word { (w >> 0) & 255 }

  function Byte1(w: Word): Word { (w >> 8) & 255 }

  function Byte2(w: Word): Word { (w >> 16) & 255 }

  function Byte3(w: Word): Word { (w >> 24) & 255 }

  function Byte4(w: Word): Word { (w >> 32) & 255 }

  function Byte5(w: Word): Word { (w >> 40) & 255 }

  function Byte6(w: Word): Word { (w >> 48) & 255 }

  function Byte7(w: Word): Word { (w >> 56) & 255 }

  predicate Below16(w: Word) { w & 0x0F0F_0F0F_0F0F_0F0F == w }

  predicate Below64(w: Word) { w & 0x3F3F_3F3F_3F3F_3F3F == w }

  predicate Below128(w: Word) { w & 0x7F7F_7F7F_7F7F_7F7F == w }

  lemma {:induction false} BytesBelow16(w: Word)
    ensures Below16(Bytes(w))
  {
  }

  lemma {:induction false} TwiceBelow(w: Word)
    requires Below16(w)
    ensures Below64(Twice(w))
  {
  }

  lemma {:induction false} FourfoldBelow(w: Word)
    requires Below64(w)
    ensures Below128(Fourfold(w))
  {
  }

  lemma {:induction false} TwiceByte7(w: Word)
    requires Below16(w)
    ensures Byte7(Twice(w)) == Plus(Byte7(w), Byte6(w))
  {
  }

  lemma {:induction false} TwiceByte5(w: Word)
    requires Below16(w)
    ensures Byte5(Twice(w)) == Plus(Byte5(w), Byte4(w))
  {
  }

  lemma {:induction false} TwiceByte3(w: Word)
    requires Below16(w)
    ensures Byte3(Twice(w)) == Plus(Byte3(w), Byte2(w))
  {
  }

  lemma {:induction false} TwiceByte1(w: Word)
    requires Below16(w)
    ensures Byte1(Twice(w)) == Plus(Byte1(w), Byte0(w))
  {
  }

  lemma {:induction false} FourfoldByte7(w: Word)
    requires Below64(w)
    ensures Byte7(Fourfold(w)) == Plus(Byte7(w), Byte5(w))
  {
  }

  lemma {:induction false} FourfoldByte3(w: Word)
    requires Below64(w)
    ensures Byte3(Fourfold(w)) == Plus(Byte3(w), Byte1(w))
  {
  }

  lemma {:induction false} EightfoldByte7(w: Word)
    requires Below128(w)
    ensures Eightfold(w) >> 56 == Plus(Byte7(w), Byte3(w))
  {
  }

  lemma {:induction false} PlusSwap(a: Word, b: Word)
    ensures Plus(a, b) == Plus(b, a) && Plus(a, 0) == a
  {
  }

  lemma {:induction false} FourTerms(a: Word, b: Word, c: Word, d: Word)
    ensures Plus(Plus(a, b), Plus(c, d)) == Plus(d, Plus(c, Plus(b, a)))
  {
    hide Plus;
    PlusSwap(Plus(a, b), Plus(c, d));
    PlusSwap(c, d);
    PlusSwap(a, b);
    PlusAssoc(d, c, Plus(b, a));
  }

  lemma {:induction false} EightTerms(a: Word, b: Word, c: Word, d: Word, rest: Word)
    ensures Plus(rest, Plus(a, Plus(b, Plus(c, d)))) == Plus(a, Plus(b, Plus(c, Plus(d, rest))))
  {
    hide Plus;
    PlusSwap(rest, Plus(a, Plus(b, Plus(c, d))));
    PlusAssoc(a, Plus(b, Plus(c, d)), rest);
    PlusAssoc(b, Plus(c, d), rest);
    PlusAssoc(c, d, rest);
  }

  lemma {:induction false} TotalTerms(w: Word)
    requires Below16(w)
    ensures Total(w) == Plus(Plus(Plus(Byte7(w), Byte6(w)), Plus(Byte5(w), Byte4(w))),
                             Plus(Plus(Byte3(w), Byte2(w)), Plus(Byte1(w), Byte0(w))))
  {
    hide Total, Eightfold, Fourfold, Twice, Plus, Below16, Below64, Below128, Byte0, Byte1, Byte2, Byte3, Byte4,
        Byte5, Byte6, Byte7;
    var u := Twice(w);
    var v := Fourfold(u);
    TotalIs(w);
    TwiceBelow(w);
    FourfoldBelow(u);
    EightfoldByte7(v);
    FourfoldByte7(u);
    FourfoldByte3(u);
    TwiceByte7(w);
    TwiceByte5(w);
    TwiceByte3(w);
    TwiceByte1(w);
  }

  lemma {:induction false} TotalIs(w: Word)
    ensures Total(w) == Eightfold(Fourfold(Twice(w))) >> 56
  {
    hide Eightfold, Fourfold, Twice;
    ProductIs(w);
  }

  lemma {:induction false} Byte0Is(w: Word)
    ensures Byte0(w) == Low8(w)
  {
  }

  lemma {:induction false} Byte1Is(w: Word)
    ensures Byte1(w) == Low8(Drop8(w))
  {
  }

  lemma {:induction false} Byte2Is(w: Word)
    ensures Byte2(w) == Low8(Drop8(Drop8(w)))
  {
  }

  lemma {:induction false} Byte3Is(w: Word)
    ensures Byte3(w) == Low8(Drop8(Drop8(Drop8(w))))
  {
  }

  lemma {:induction false} Byte4Is(w: Word)
    ensures Byte4(w) == Low8(Drop8(Drop8(Drop8(Drop8(w)))))
  {
  }

  lemma {:induction false} Byte5Is(w: Word)
    ensures Byte5(w) == Low8(Drop8(Drop8(Drop8(Drop8(Drop8(w))))))
  {
  }

  lemma {:induction false} Byte6Is(w: Word)
    ensures Byte6(w) == Low8(Drop8(Drop8(Drop8(Drop8(Drop8(Drop8(w)))))))
  {
  }

  lemma {:induction false} Byte7Is(w: Word)
    ensures Byte7(w) == Low8(Drop8(Drop8(Drop8(Drop8(Drop8(Drop8(Drop8(w))))))))
  {
  }

  lemma {:induction false} TotalSum(w: Word)
    requires Below16(w)
    ensures Total(w) == Sum8(w, 8)
  {
    hide Total, Plus, Below16, Low8, Drop8, Sum8, Byte0, Byte1, Byte2, Byte3, Byte4, Byte5, Byte6, Byte7;
    TotalTerms(w);
    FourTerms(Byte7(w), Byte6(w), Byte5(w), Byte4(w));
    FourTerms(Byte3(w), Byte2(w), Byte1(w), Byte0(w));
    var high := Plus(Byte4(w), Plus(Byte5(w), Plus(Byte6(w), Byte7(w))));
    EightTerms(Byte0(w), Byte1(w), Byte2(w), Byte3(w), high);
    PlusSwap(Byte7(w), 0);
    Byte0Is(w);
    Byte1Is(w);
    Byte2Is(w);
    Byte3Is(w);
    Byte4Is(w);
    Byte5Is(w);
    Byte6Is(w);
    Byte7Is(w);
    var w2 := Drop8(Drop8(w));
    var w4 := Drop8(Drop8(w2));
    var w6 := Drop8(Drop8(w4));
    Sum8Two(w6, 0);
    Sum8Two(w4, 2);
    Sum8Two(w2, 4);
    Sum8Two(w, 6);
  }

  lemma {:induction false} Sum8Two(w: Word, n: nat)
    ensures Sum8(w, n + 2) == Plus(Low8(w), Plus(Low8(Drop8(w)), Sum8(Drop8(Drop8(w)), n)))
    ensures Sum8(Drop8(Drop8(w)), 0) == 0
  {
    hide Plus, Low8, Drop8;
    assert Sum8(Drop8(w), n + 1) == Plus(Low8(Drop8(w)), Sum8(Drop8(Drop8(w)), n));
  }

  // ---------- The weight ----------

  /** The number of bits of w below n. */
  function Pop(w: Word, n: nat): (c: nat)
    ensures c <= n
  {
    if n == 0 then 0 else (if Odd(w) then 1 else 0) + Pop(Half(w), n - 1)
  }

  lemma {:induction false} SmallSum(a: Word, b: Word)
    requires a <= 1 && b < 64
    ensures Plus(a, b) as int == a as int + b as int
  {
  }

  lemma {:induction false} LowBit(w: Word)
    ensures Low1(w) <= 1 && Low1(w) as int == if Odd(w) then 1 else 0
  {
  }

  lemma {:induction false} SmallInt(b: Word, n: int)
    requires b as int <= n < 64
    ensures b < 64
  {
  }

  lemma {:induction false} ZeroInt()
    ensures (0 as Word) as int == 0
  {
  }

  lemma {:induction false} SumIsPop(w: Word, n: nat)
    requires n <= BITS
    ensures Sum1(w, n) as int == Pop(w, n)
    decreases n
  {
    hide Low1, Plus, Odd, Half;
    ZeroInt();
    if n > 0 {
      SumIsPop(Half(w), n - 1);
      SmallInt(Sum1(Half(w), n - 1), n - 1);
      LowBit(w);
      SmallSum(Low1(w), Sum1(Half(w), n - 1));
    }
  }

  /** __sw_hweight64 is the number of bits that are set. */
  lemma {:induction false} Hweight64IsPop(w: Word)
    ensures Hweight64(w) as int == Pop(w, BITS)
  {
    hide Pairs, Nibbles, Bytes, Total, Sum1, Sum2, Sum4, Sum8, Pop, Modest, Below16;
    var a := Pairs(w);
    var b := Nibbles(a);
    var c := Bytes(b);
    PairsSum(w, 32);
    NibblesSum(a, 16);
    NibblesModest(a);
    BytesSum(b, 8);
    BytesBelow16(b);
    TotalSum(c);
    SumIsPop(w, BITS);
  }

  // ---------- 32-bit words ----------

  function Pairs32(w: bv32): bv32 { w - ((w >> 1) & 0x5555_5555) }

  function Nibbles32(w: bv32): bv32 { (w & 0x3333_3333) + ((w >> 2) & 0x3333_3333) }

  function Bytes32(w: bv32): bv32 { (w + (w >> 4)) & 0x0F0F_0F0F }

  function Total32(w: bv32): bv32 { (w * 0x0101_0101) >> 24 }

  /** __sw_hweight32, with the fast multiplier. */
  function Hweight32(w: bv32): bv32 { Total32(Bytes32(Nibbles32(Pairs32(w)))) }

  function Wide(w: bv32): Word { w as Word }

  /** The sums of pairs of bits, bit by bit: the carry and what remains. */
  function Sums(w: Word): Word {
    ((((w >> 1) & w) & 0x5555_5555_5555_5555) << 1) | (((w >> 1) ^ w) & 0x5555_5555_5555_5555)
  }

  function Sums32(w: bv32): bv32 { ((((w >> 1) & w) & 0x5555_5555) << 1) | (((w >> 1) ^ w) & 0x5555_5555) }

  lemma {:induction false} SumsIs(w: Word)
    ensures Pairs(w) == Sums(w)
  {
  }

  lemma {:induction false} Sums32Is(w: bv32)
    ensures Pairs32(w) == Sums32(w)
  {
  }

  lemma {:induction false} SumsWide(w: bv32)
    ensures Wide(Sums32(w)) == Sums(Wide(w))
  {
  }

  lemma {:induction false} PairsWide(w: bv32)
    ensures Wide(Pairs32(w)) == Pairs(Wide(w))
  {
    hide *;
    SumsIs(Wide(w));
    Sums32Is(w);
    SumsWide(w);
  }

  lemma {:induction false} NibblesWide(w: bv32)
    ensures Wide(Nibbles32(w)) == Nibbles(Wide(w))
  {
  }

  lemma {:induction false} BytesWide(w: bv32)
    requires Modest(Wide(w))
    ensures Wide(Bytes32(w)) == Bytes(Wide(w))
  {
  }

  lemma {:induction false} TotalWide(w: bv32)
    requires Below16(Wide(w))
    ensures Wide(Total32(w)) == Total(Wide(w))
  {
  }

  /** __sw_hweight32 gives the weight that __sw_hweight64 gives to the same number. */
  lemma {:induction false} Hweight32IsPop(w: bv32)
    ensures Wide(Hweight32(w)) as int == Pop(Wide(w), BITS)
  {
    hide *;
    var a := Pairs32(w);
    var b := Nibbles32(a);
    PairsWide(w);
    NibblesWide(a);
    NibblesModest(Wide(a));
    BytesWide(b);
    BytesBelow16(Wide(b));
    TotalWide(Bytes32(b));
    Hweight64IsPop(Wide(w));
    Hweights(w);
  }

  lemma {:induction false} Hweights(w: bv32)
    ensures Hweight32(w) == Total32(Bytes32(Nibbles32(Pairs32(w))))
    ensures Hweight64(Wide(w)) == Total(Bytes(Nibbles(Pairs(Wide(w)))))
  {
    hide Pairs, Nibbles, Bytes, Total, Pairs32, Nibbles32, Bytes32, Total32, Wide;
  }
}
