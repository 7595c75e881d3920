/**
 bitmap.c: an array of words as a set of bit positions, and shifting it in place, a word at a time, with the
 words that two neighbours give between them.
 */
module Bitmap {
  import opened Words

  function BitsToLongs(n: nat): nat { (n + BITS - 1) / BITS }

  /** test_bit: is position p set? */
  predicate In(s: seq<Word>, p: int) {
    0 <= p < BITS * |s| && Bit(s[p / BITS], p % BITS)
  }

  lemma {:induction false} Position(k: nat, j: nat)
    requires j < BITS
    ensures (BITS * k + j) / BITS == k && (BITS * k + j) % BITS == j
  {
  }

  lemma {:induction false} InAt(s: seq<Word>, k: nat, j: nat)
    requires j < BITS
    ensures In(s, BITS * k + j) <==> k < |s| && Bit(s[k], j)
  {
    Position(k, j);
  }

  /** The bits of s from position p on, read as one word. */
  ghost predicate Reads(w: Word, s: seq<Word>, p: int, bits: nat) {
    forall j :: 0 <= j < BITS ==> (Bit(w, j) <==> p + j < bits && In(s, p + j))
  }

  /** The last word of a bitmap, with the bits that do not belong to it left out. */
  function Trimmed(w: Word, last: bool, left: nat): Word {
    if last && left != 0 then And(w, LowMask(left)) else w
  }

  lemma {:induction false} TrimmedReads(s: seq<Word>, k: nat, bits: nat)
    requires k < BitsToLongs(bits) <= |s|
    ensures Reads(Trimmed(s[k], k == BitsToLongs(bits) - 1, bits % BITS), s, BITS * k, bits)
  {
    var left, w := bits % BITS, Trimmed(s[k], k == BitsToLongs(bits) - 1, bits % BITS);
    forall j | 0 <= j < BITS ensures Bit(w, j) <==> BITS * k + j < bits && In(s, BITS * k + j) {
      InAt(s, k, j);
      AndBit(s[k], LowMask(left), j);
      LowMaskBit(left, j);
    }
  }

  lemma {:induction false} ReadsAt(w: Word, s: seq<Word>, p: int, bits: nat, j: nat)
    requires Reads(w, s, p, bits) && j < BITS
    ensures Bit(w, j) <==> p + j < bits && In(s, p + j)
  {
  }

  lemma {:induction false} NothingReads(s: seq<Word>, p: int, bits: nat)
    requires p + BITS <= 0 || p >= bits
    ensures Reads(0, s, p, bits)
  {
    forall j | 0 <= j < BITS ensures Bit(0, j) <==> p + j < bits && In(s, p + j) {
      ZeroBit(j);
    }
  }

  /** Two neighbouring words give the word that begins rem bits into the lower one. */
  lemma {:induction false} Joined(lower: Word, upper: Word, rem: nat, s: seq<Word>, p: int, bits: nat)
    requires rem <= BITS && (rem < BITS ==> Reads(lower, s, p, bits)) && (rem > 0 ==> Reads(upper, s, p + BITS, bits))
    ensures Reads(Or(Shl(upper, BITS - rem), Shr(lower, rem)), s, p + rem, bits)
  {
    hide In, Bit, Or, Shl, Shr;
    var w := Or(Shl(upper, BITS - rem), Shr(lower, rem));
    forall j | 0 <= j < BITS ensures Bit(w, j) <==> p + rem + j < bits && In(s, p + rem + j) {
      OrBit(Shl(upper, BITS - rem), Shr(lower, rem), j);
      ShlBit(upper, BITS - rem, j);
      ShrBit(lower, rem, j);
      if rem + j >= BITS {
        HighBit(lower, rem + j);
        ReadsAt(upper, s, p + BITS, bits, rem + j - BITS);
        assert p + BITS + (rem + j - BITS) == p + rem + j;
      } else {
        ReadsAt(lower, s, p, bits, rem + j);
        assert p + (rem + j) == p + rem + j;
      }
    }
  }

  // ---------- Shifts ----------

  /** __bitmap_shift_right; dst may be src. */
  method ShiftRight(dst: array<Word>, src: array<Word>, shift: nat, bits: nat)
    requires BitsToLongs(bits) <= dst.Length && BitsToLongs(bits) <= src.Length && shift / BITS <= BitsToLongs(bits)
    modifies dst
    ensures Moved(dst[..], old(src[..]), shift, bits)
    ensures forall k :: BitsToLongs(bits) <= k < dst.Length ==> dst[k] == old(dst[k])
  {
    hide Reads, Holds, Or, Shl, Shr, And;
    var lim, left := BitsToLongs(bits), bits % BITS;
    var off, rem := shift / BITS, shift % BITS;
    ghost var s, d := src[..], dst[..];
    var k := 0;
    while off + k < lim
      invariant 0 <= k <= lim - off
      invariant forall i :: 0 <= i < k ==> Reads(dst[i], s, BITS * i + shift, bits)
      invariant forall i :: k <= i < dst.Length ==> dst[i] == d[i]
      invariant forall i :: (src != dst || k <= i) && 0 <= i < src.Length ==> src[i] == s[i]
    {
      var upper, lower := 0, src[off + k];
      if off + k + 1 >= lim {
        NothingReads(s, BITS * (off + k) + BITS, bits);
      } else if rem != 0 {
        upper := Trimmed(src[off + k + 1], off + k + 1 == lim - 1, left);
        TrimmedReads(s, off + k + 1, bits);
      }
      lower := Trimmed(lower, off + k == lim - 1, left);
      TrimmedReads(s, off + k, bits);
      Joined(lower, upper, rem, s, BITS * (off + k), bits);
      dst[k] := Or(Shl(upper, BITS - rem), Shr(lower, rem));
      if left != 0 && k == lim - 1 {
        TrimmedAgain(dst[k], s, BITS * k + shift, bits);
        dst[k] := And(dst[k], LowMask(left));
      }
      k := k + 1;
    }
    if off > 0 {
      forall i | lim - off <= i < lim { dst[i] := 0; }
    }
    forall i | lim - off <= i < lim ensures Reads(0, s, BITS * i + shift, bits) {
      NothingReads(s, BITS * i + shift, bits);
    }
    forall i | 0 <= i < lim ensures Holds(dst[i], s, BITS * i, shift, bits) {
      ReadsHolds(dst[i], s, BITS * i, shift, bits);
    }
    MovedWords(dst[..], s, shift, bits);
  }

  /** __bitmap_shift_left; dst may be src. */
  method ShiftLeft(dst: array<Word>, src: array<Word>, shift: nat, bits: nat)
    requires BitsToLongs(bits) <= dst.Length && BitsToLongs(bits) <= src.Length && shift / BITS <= BitsToLongs(bits)
    modifies dst
    ensures Moved(dst[..], old(src[..]), 0 - shift, bits)
    ensures forall k :: BitsToLongs(bits) <= k < dst.Length ==> dst[k] == old(dst[k])
  {
    hide Reads, Holds, Or, Shl, Shr, And;
    var lim, left := BitsToLongs(bits), bits % BITS;
    var off, rem := shift / BITS, shift % BITS;
    ghost var s, d := src[..], dst[..];
    var k := lim - off - 1;
    while k >= 0
      invariant -1 <= k < lim - off
      invariant forall i :: k + off < i < lim ==> Holds(dst[i], s, BITS * i, 0 - shift, bits)
      invariant forall i :: (i <= k + off || lim <= i) && 0 <= i < dst.Length ==> dst[i] == d[i]
      invariant forall i :: (src != dst || i <= k + off) && 0 <= i < src.Length ==> src[i] == s[i]
    {
      var upper, lower := src[k], 0;
      if rem != 0 && k > 0 {
        lower := src[k - 1];
        TrimmedReads(s, k - 1, bits);
      } else if k == 0 {
        NothingReads(s, BITS * k - BITS, bits);
      }
      upper := Trimmed(upper, k == lim - 1, left);
      TrimmedReads(s, k, bits);
      Joined(lower, upper, BITS - rem, s, BITS * k - BITS, bits);
      dst[k + off] := Or(Shr(lower, BITS - rem), Shl(upper, rem));
      OrSwap(Shr(lower, BITS - rem), Shl(upper, rem));
      ReadsTrimmed(dst[k + off], s, k + off, 0 - shift, bits);
      if left != 0 && k + off == lim - 1 {
        dst[k + off] := And(dst[k + off], LowMask(left));
      }
      k := k - 1;
    }
    if off > 0 {
      forall i | 0 <= i < off { dst[i] := 0; }
    }
    forall i | 0 <= i < off ensures Holds(0, s, BITS * i, 0 - shift, bits) {
      NothingReads(s, BITS * i - shift, bits);
      ReadsHolds(0, s, BITS * i, 0 - shift, bits);
    }
    MovedWords(dst[..], s, 0 - shift, bits);
  }

  lemma {:induction false} OrSwap(a: Word, b: Word)
    ensures Or(a, b) == Or(b, a)
  {
  }

  /** Position p of d is position p + delta of s, both being counted only within the bitmap. */
  ghost predicate Moved(d: seq<Word>, s: seq<Word>, delta: int, bits: nat) {
    forall p :: 0 <= p < BITS * BitsToLongs(bits) ==> (In(d, p) <==> p < bits && p + delta < bits && In(s, p + delta))
  }

  /** The same of the one word that begins at position b. */
  ghost predicate Holds(w: Word, s: seq<Word>, b: int, delta: int, bits: nat) {
    forall j :: 0 <= j < BITS ==> (Bit(w, j) <==> b + j < bits && b + delta + j < bits && In(s, b + delta + j))
  }

  lemma {:induction false} ReadsHolds(w: Word, s: seq<Word>, b: int, delta: int, bits: nat)
    requires Reads(w, s, b + delta, bits) && (delta >= 0 || b + BITS <= bits || w == 0)
    ensures Holds(w, s, b, delta, bits)
  {
    forall j | 0 <= j < BITS ensures Bit(w, j) <==> b + j < bits && b + delta + j < bits && In(s, b + delta + j) {
      if w == 0 { ZeroBit(j); }
    }
  }

  lemma {:induction false} ReadsTrimmed(w: Word, s: seq<Word>, k: nat, delta: int, bits: nat)
    requires Reads(w, s, BITS * k + delta, bits) && k < BitsToLongs(bits)
    ensures Holds(Trimmed(w, k == BitsToLongs(bits) - 1, bits % BITS), s, BITS * k, delta, bits)
  {
    hide In, Bit, And, LowMask;
    var left, v, b := bits % BITS, Trimmed(w, k == BitsToLongs(bits) - 1, bits % BITS), BITS * k;
    forall j | 0 <= j < BITS ensures Bit(v, j) <==> b + j < bits && b + delta + j < bits && In(s, b + delta + j) {
      ReadsAt(w, s, b + delta, bits, j);
      AndBit(w, LowMask(left), j);
      LowMaskBit(left, j);
    }
  }

  lemma {:induction false} HoldsAt(w: Word, s: seq<Word>, b: int, delta: int, bits: nat, j: nat)
    requires Holds(w, s, b, delta, bits) && j < BITS
    ensures Bit(w, j) <==> b + j < bits && b + delta + j < bits && In(s, b + delta + j)
  {
  }

  lemma {:induction false} MovedWords(d: seq<Word>, s: seq<Word>, delta: int, bits: nat)
    requires BitsToLongs(bits) <= |d|
    requires forall k :: 0 <= k < BitsToLongs(bits) ==> Holds(d[k], s, BITS * k, delta, bits)
    ensures Moved(d, s, delta, bits)
  {
    hide In, Bit, Holds;
    forall p | 0 <= p < BITS * BitsToLongs(bits)
      ensures In(d, p) <==> p < bits && p + delta < bits && In(s, p + delta)
    {
      var k, j := p / BITS, p % BITS;
      var b := BITS * k;
      InAt(d, k, j);
      HoldsAt(d[k], s, b, delta, bits, j);
      assert p == b + j && p + delta == b + delta + j;
    }
  }

  /** Bits that come from beyond the end are not there to be masked. */
  lemma {:induction false} TrimmedAgain(w: Word, s: seq<Word>, p: int, bits: nat)
    requires Reads(w, s, p, bits) && p >= bits - bits % BITS
    ensures Reads(And(w, LowMask(bits % BITS)), s, p, bits)
  {
    var left := bits % BITS;
    var v := And(w, LowMask(left));
    forall j | 0 <= j < BITS ensures Bit(v, j) <==> p + j < bits && In(s, p + j) {
      AndBit(w, LowMask(left), j);
      LowMaskBit(left, j);
    }
  }
}
