/** bitmap.c: counting set bits, and the maps that counting them gives. */
module Ranks {
  import opened Words
  import opened Bitmap
  import opened FindBit

  /** The number of set bits below n. */
  ghost function Count(s: seq<Word>, n: nat): (c: nat)
    ensures c <= n
  {
    if n == 0 then 0 else Count(s, n - 1) + if In(s, n - 1) then 1 else 0
  }

  lemma {:induction false} CountMono(s: seq<Word>, a: nat, b: nat)
    requires a <= b
    ensures Count(s, a) <= Count(s, b)
    ensures a < b && In(s, a) ==> Count(s, a) < Count(s, b)
    decreases b
  {
    if a < b { CountMono(s, a, b - 1); }
  }

  /** Positions without set bits do not count. */
  lemma {:induction false} CountNone(s: seq<Word>, a: nat, b: nat)
    requires a <= b && forall p :: a <= p < b ==> !In(s, p)
    ensures Count(s, a) == Count(s, b)
    decreases b
  {
    if a < b { CountNone(s, a, b - 1); }
  }

  lemma {:induction false} CountNext(s: seq<Word>, size: nat, from: nat, r: nat)
    requires IsNext(s, true, size, from, r) && from <= size
    ensures from <= r <= size && Count(s, r) == Count(s, from) && (r < size ==> In(s, r))
  {
    if from < size { CountNone(s, from, r); }
  }

  /** p is the set bit, below bits, that has exactly ord set bits before it. */
  ghost predicate IsNth(s: seq<Word>, bits: nat, ord: int, p: int) {
    0 <= p < bits && In(s, p) && Count(s, p) == ord
  }

  lemma {:induction false} NthUnique(s: seq<Word>, bits: nat, ord: int, p: int, q: int)
    requires IsNth(s, bits, ord, p) && IsNth(s, bits, ord, q)
    ensures p == q
  {
    if p < q { CountMono(s, p, q); } else if q < p { CountMono(s, q, p); }
  }

  /** Every ordinal below the weight has a position, and no other ordinal does. */
  lemma {:induction false} NthExists(s: seq<Word>, bits: nat, ord: int) returns (p: int)
    ensures 0 <= ord < Count(s, bits) ==> IsNth(s, bits, ord, p)
    ensures !(0 <= ord < Count(s, bits)) ==> forall q :: !IsNth(s, bits, ord, q)
  {
    p := 0;
    if 0 <= ord < Count(s, bits) {
      p := FindNth(s, bits, ord);
    } else {
      forall q ensures !IsNth(s, bits, ord, q) {
        if IsNth(s, bits, ord, q) { CountMono(s, q, bits); }
      }
    }
  }

  lemma {:induction false} FindNth(s: seq<Word>, bits: nat, ord: nat) returns (p: nat)
    requires ord < Count(s, bits)
    ensures IsNth(s, bits, ord, p)
  {
    if ord < Count(s, bits - 1) {
      p := FindNth(s, bits - 1, ord);
    } else {
      p := bits - 1;
    }
  }

  method TestBit(a: array<Word>, p: nat) returns (b: bool)
    requires p < BITS * a.Length
    ensures b == In(a[..], p)
  {
    b := Bit(a[p / BITS], p % BITS);
  }

  method SetBit(a: array<Word>, p: nat)
    requires p < BITS * a.Length
    modifies a
    ensures forall q :: In(a[..], q) <==> In(old(a[..]), q) || q == p
  {
    hide Bit, Or, Shl;
    ghost var s := a[..];
    var w := a[p / BITS];
    a[p / BITS] := Or(w, Shl(1, p % BITS));
    forall j | 0 <= j < BITS ensures Bit(Or(w, Shl(1, p % BITS)), j) <==> Bit(w, j) || j == p % BITS {
      OrBit(w, Shl(1, p % BITS), j);
      ShlBit(1, p % BITS, j);
      if j >= p % BITS { OneBit(j - p % BITS); }
    }
  }

  /** bitmap_zero */
  method Zero(a: array<Word>, bits: nat)
    requires BitsToLongs(bits) <= a.Length
    modifies a
    ensures forall q :: 0 <= q < BITS * BitsToLongs(bits) ==> !In(a[..], q)
    ensures forall q :: q >= BITS * BitsToLongs(bits) ==> In(a[..], q) == In(old(a[..]), q)
  {
    hide Bit;
    ghost var s := a[..];
    forall k | 0 <= k < BitsToLongs(bits) { a[k] := 0; }
    forall j: nat ensures !Bit(0, j) { ZeroBit(j); }
  }

  method PosToOrd(buf: array<Word>, pos: int, bits: nat) returns (ord: int)
    requires BitsToLongs(bits) <= buf.Length
    ensures if 0 <= pos < bits && In(buf[..], pos) then IsNth(buf[..], bits, ord, pos) else ord == -1
  {
    hide In, Count, IsNext;
    if pos < 0 || pos >= bits {
      return -1;
    }
    var set_ := TestBit(buf, pos);
    if !set_ {
      return -1;
    }
    ghost var s := buf[..];
    var i := FindFirstBit(buf, bits);
    ord := 0;
    CountNext(s, bits, 0, i);
    CountZero(s);
    Reaches(s, bits, 0, i, pos);
    while i < pos
      invariant 0 <= i <= pos && In(s, i) && ord == Count(s, i)
    {
      var last := i;
      i := FindNextBit(buf, bits, i + 1);
      CountStep(s, last);
      CountNext(s, bits, last + 1, i);
      Reaches(s, bits, last + 1, i, pos);
      ord := ord + 1;
    }
  }

  lemma {:induction false} CountZero(s: seq<Word>)
    ensures Count(s, 0) == 0
  {
  }

  lemma {:induction false} CountStep(s: seq<Word>, p: nat)
    requires In(s, p)
    ensures Count(s, p + 1) == Count(s, p) + 1
  {
  }

  /** The next set bit does not lie beyond a set bit. */
  lemma {:induction false} Reaches(s: seq<Word>, size: nat, from: nat, r: nat, p: nat)
    requires IsNext(s, true, size, from, r) && from <= p < size && In(s, p)
    ensures r <= p && In(s, r)
  {
  }

  method OrdToPos(buf: array<Word>, ord: int, bits: nat) returns (pos: int)
    requires BitsToLongs(bits) <= buf.Length
    ensures if 0 <= ord < Count(buf[..], bits) then IsNth(buf[..], bits, ord, pos) else pos == 0
  {
    hide In, Count, IsNext;
    ghost var s := buf[..];
    pos := 0;
    if ord >= 0 && ord < bits {
      var i := FindFirstBit(buf, bits);
      var left := ord;
      CountNext(s, bits, 0, i);
      CountZero(s);
      while i < bits && left > 0
        invariant 0 <= i <= bits && 0 <= left && Count(s, i) == ord - left && (i < bits ==> In(s, i))
        decreases bits - i
      {
        var last := i;
        i := FindNextBit(buf, bits, i + 1);
        CountStep(s, last);
        CountNext(s, bits, last + 1, i);
        left := left - 1;
      }
      if i < bits && left == 0 {
        pos := i;
        CountMono(s, i, bits);
      }
    } else {
      CountBound(s, bits);
    }
  }

  lemma {:induction false} CountBound(s: seq<Word>, n: nat)
    ensures Count(s, n) <= n
  {
  }

  /** Counting to the position of an ordinal and finding the ordinal of a position undo each other. */
  lemma {:induction false} OrdPosInverse(s: seq<Word>, bits: nat, ord: int, p: int)
    requires IsNth(s, bits, ord, p)
    ensures 0 <= ord < Count(s, bits)
    ensures forall q :: IsNth(s, bits, ord, q) <==> q == p
    ensures forall o :: IsNth(s, bits, o, p) <==> o == ord
  {
    CountMono(s, p, bits);
    forall q ensures IsNth(s, bits, ord, q) <==> q == p {
      if IsNth(s, bits, ord, q) { NthUnique(s, bits, ord, p, q); }
    }
  }
}
