/** bitmap.c: weights, and moving bits by their ordinals. */
module Remap {
  import opened Words
  import opened Bitmap
  import opened FindBit
  import opened Hweight
  import opened Ranks

  // ---------- Weight ----------

  lemma {:induction false} PopSnoc(w: Word, n: nat)
    ensures Pop(w, n + 1) == Pop(w, n) + if Bit(w, n) then 1 else 0
    decreases n
  {
    hide Odd, Half;
    if n > 0 { PopSnoc(Half(w), n - 1); }
  }

  lemma {:induction false} CountWord(s: seq<Word>, k: nat, n: nat)
    requires k < |s| && n <= BITS
    ensures Count(s, BITS * k + n) == Count(s, BITS * k) + Pop(s[k], n)
    decreases n
  {
    hide Pop, Bit, In;
    PopNone(s[k]);
    if n > 0 {
      CountWord(s, k, n - 1);
      PopSnoc(s[k], n - 1);
      InAt(s, k, n - 1);
    }
  }

  lemma {:induction false} PopNone(w: Word)
    ensures Pop(w, 0) == 0
  {
  }

  lemma {:induction false} PopMasked(w: Word, left: nat, n: nat)
    requires left <= BITS
    ensures Pop(And(w, LowMask(left)), n) == Pop(w, if n <= left then n else left)
    decreases n
  {
    hide Pop, Bit, And, LowMask;
    PopNone(w);
    PopNone(And(w, LowMask(left)));
    if n > 0 {
      PopMasked(w, left, n - 1);
      PopSnoc(And(w, LowMask(left)), n - 1);
      AndBit(w, LowMask(left), n - 1);
      LowMaskBit(left, n - 1);
      if n <= left { PopSnoc(w, n - 1); }
    }
  }

  method Weight(bitmap: array<Word>, bits: nat) returns (w: nat)
    requires BitsToLongs(bits) <= bitmap.Length
    ensures w == Count(bitmap[..], bits)
  {
    hide Count, Pop, Hweight64, And, LowMask;
    ghost var s := bitmap[..];
    var lim := bits / BITS;
    w := 0;
    CountZero(s);
    for k := 0 to lim
      invariant w == Count(s, BITS * k)
    {
      CountWord(s, k, BITS);
      Hweight64IsPop(bitmap[k]);
      w := w + Hweight64(bitmap[k]) as int;
    }
    if bits % BITS != 0 {
      var left := bits % BITS;
      CountWord(s, lim, left);
      PopMasked(bitmap[lim], left, BITS);
      Hweight64IsPop(And(bitmap[lim], LowMask(left)));
      w := w + Hweight64(And(bitmap[lim], LowMask(left))) as int;
    }
  }

  // ---------- Remapping ----------

  /** Where a bit goes that is at position p: the n-th set bit of from goes to bit n modulo w of to. */
  ghost predicate MapsTo(from: seq<Word>, to: seq<Word>, bits: nat, p: int, q: int) {
    if 0 <= p < bits && In(from, p) && Count(to, bits) > 0 then IsNth(to, bits, Count(from, p) % Count(to, bits), q)
    else q == p
  }

  lemma {:induction false} MapsToUnique(from: seq<Word>, to: seq<Word>, bits: nat, p: int, q: int, q': int)
    requires MapsTo(from, to, bits, p, q) && MapsTo(from, to, bits, p, q')
    ensures q == q'
  {
    if 0 <= p < bits && In(from, p) && Count(to, bits) > 0 {
      NthUnique(to, bits, Count(from, p) % Count(to, bits), q, q');
    }
  }

  /** With equally many bits in both, mapping there and back leads back. */
  lemma {:induction false} MapsBack(from: seq<Word>, to: seq<Word>, bits: nat, p: int, q: int)
    requires Count(from, bits) == Count(to, bits) && 0 <= p < bits && In(from, p) && MapsTo(from, to, bits, p, q)
    ensures MapsTo(to, from, bits, q, p)
  {
    hide In, Count;
    CountMono(from, p, bits);
    ModSmall(Count(from, p), Count(to, bits));
  }

  lemma {:induction false} ModSmall(n: nat, w: nat)
    requires n < w
    ensures n % w == n
  {
  }

  /** bitmap_bitremap */
  method Bitremap(oldbit: int, from: array<Word>, to: array<Word>, bits: nat) returns (r: int)
    requires BitsToLongs(bits) <= from.Length && BitsToLongs(bits) <= to.Length
    ensures MapsTo(from[..], to[..], bits, oldbit, r)
  {
    hide In, Count;
    var w := Weight(to, bits);
    var n := PosToOrd(from, oldbit, bits);
    if n < 0 || w == 0 {
      r := oldbit;
    } else {
      r := OrdToPos(to, n % w, bits);
    }
  }

  /** The image of the bits of s. */
  ghost predicate Image(s: seq<Word>, from: seq<Word>, to: seq<Word>, bits: nat, size: int, q: int) {
    exists p :: 0 <= p < size && In(s, p) && MapsTo(from, to, bits, p, q)
  }

  /** bitmap_remap; nothing happens when dst is src. */
  method Remap(dst: array<Word>, src: array<Word>, from: array<Word>, to: array<Word>, bits: nat)
    requires BitsToLongs(bits) <= dst.Length && BitsToLongs(bits) <= src.Length
    requires BitsToLongs(bits) <= from.Length && BitsToLongs(bits) <= to.Length
    requires dst != from && dst != to
    modifies dst
    ensures dst == src ==> dst[..] == old(dst[..])
    ensures dst != src ==> forall q :: 0 <= q < bits ==>
            (In(dst[..], q) <==> Image(src[..], from[..], to[..], bits, bits, q))
  {
    hide In, Count, MapsTo, IsNext;
    if dst == src {
      return;
    }
    Zero(dst, bits);
    var w := Weight(to, bits);
    ghost var s, f, t := src[..], from[..], to[..];
    var oldbit := FindFirstBit(src, bits);
    Skip(s, f, t, bits, 0, oldbit);
    while oldbit < bits
      invariant 0 <= oldbit <= bits && src[..] == s && from[..] == f && to[..] == t && (oldbit < bits ==> In(s, oldbit))
      invariant forall q :: 0 <= q < bits ==> (In(dst[..], q) <==> Image(s, f, t, bits, oldbit, q))
    {
      var n := PosToOrd(from, oldbit, bits);
      var q := oldbit;
      if n >= 0 && w != 0 {
        q := OrdToPos(to, n % w, bits);
      }
      ImageStep(s, f, t, bits, oldbit, q, n);
      SetBit(dst, q);
      var last := oldbit;
      oldbit := FindNextBit(src, bits, oldbit + 1);
      Skip(s, f, t, bits, last + 1, oldbit);
    }
  }

  lemma {:induction false} Skip(s: seq<Word>, f: seq<Word>, t: seq<Word>, bits: nat, a: nat, b: nat)
    requires IsNext(s, true, bits, a, b) && a <= bits
    ensures a <= b <= bits && (b < bits ==> In(s, b))
    ensures forall q :: Image(s, f, t, bits, a, q) <==> Image(s, f, t, bits, b, q)
  {
    hide MapsTo;
    forall q ensures Image(s, f, t, bits, a, q) <==> Image(s, f, t, bits, b, q) {
      if Image(s, f, t, bits, b, q) {
        var p :| 0 <= p < b && In(s, p) && MapsTo(f, t, bits, p, q);
        assert p < a;
      }
    }
  }

  lemma {:induction false} ImageStep(s: seq<Word>, f: seq<Word>, t: seq<Word>, bits: nat, p: nat, q: int, n: int)
    requires p < bits && In(s, p)
    requires if In(f, p) then IsNth(f, bits, n, p) else n == -1
    requires if n < 0 || Count(t, bits) == 0 then q == p else
      if 0 <= n % Count(t, bits) < Count(t, bits) then IsNth(t, bits, n % Count(t, bits), q) else q == 0
    ensures MapsTo(f, t, bits, p, q) && 0 <= q < bits
    ensures forall r :: Image(s, f, t, bits, p + 1, r) <==> Image(s, f, t, bits, p, r) || r == q
  {
    assert MapsTo(f, t, bits, p, q);
    hide MapsTo;
    forall r ensures Image(s, f, t, bits, p + 1, r) <==> Image(s, f, t, bits, p, r) || r == q {
      if Image(s, f, t, bits, p + 1, r) {
        var o :| 0 <= o < p + 1 && In(s, o) && MapsTo(f, t, bits, o, r);
        if o == p { MapsToUnique(f, t, bits, p, q, r); }
      }
    }
  }

  /** Remapping with two bitmaps of equal weight, and then back, restores every subset of the first. */
  lemma {:induction false} RemapBack(s: seq<Word>, d: seq<Word>, e: seq<Word>, from: seq<Word>, to: seq<Word>,
                                     bits: nat)
    requires Count(from, bits) == Count(to, bits)
    requires forall p :: 0 <= p < bits && In(s, p) ==> In(from, p)
    requires forall q :: 0 <= q < bits ==> (In(d, q) <==> Image(s, from, to, bits, bits, q))
    requires forall q :: 0 <= q < bits ==> (In(e, q) <==> Image(d, to, from, bits, bits, q))
    ensures forall p :: 0 <= p < bits ==> (In(e, p) <==> In(s, p))
  {
    hide MapsTo, Count, In;
    forall p | 0 <= p < bits ensures In(e, p) <==> In(s, p) {
      if In(s, p) {
        var q := Goes(from, to, bits, p);
        MapsBack(from, to, bits, p, q);
        assert Image(s, from, to, bits, bits, q);
        assert Image(d, to, from, bits, bits, p);
      }
      if In(e, p) {
        var q :| 0 <= q < bits && In(d, q) && MapsTo(to, from, bits, q, p);
        var o :| 0 <= o < bits && In(s, o) && MapsTo(from, to, bits, o, q);
        MapsBack(from, to, bits, o, q);
        MapsToUnique(to, from, bits, q, p, o);
      }
    }
  }

  /** A bit of from goes somewhere within to. */
  lemma {:induction false} Goes(from: seq<Word>, to: seq<Word>, bits: nat, p: int) returns (q: int)
    requires Count(from, bits) == Count(to, bits) && 0 <= p < bits && In(from, p)
    ensures MapsTo(from, to, bits, p, q) && 0 <= q < bits && In(to, q)
  {
    CountMono(from, p, bits);
    q := NthExists(to, bits, Count(from, p) % Count(to, bits));
  }

  // ---------- Onto ----------

  /** The m-th set bit of rel is to be set for each m that is set in orig. */
  ghost predicate OntoBit(orig: seq<Word>, rel: seq<Word>, bits: nat, n: int) {
    exists m :: In(orig, m) && IsNth(rel, bits, m, n)
  }

  lemma {:induction false} OntoIs(orig: seq<Word>, rel: seq<Word>, bits: nat, n: int)
    ensures OntoBit(orig, rel, bits, n) <==> 0 <= n < bits && In(rel, n) && In(orig, Count(rel, n))
  {
    if 0 <= n < bits && In(rel, n) && In(orig, Count(rel, n)) {
      assert IsNth(rel, bits, Count(rel, n), n);
    }
  }

  /** bitmap_onto; nothing happens when dst is orig. */
  method Onto(dst: array<Word>, orig: array<Word>, relmap: array<Word>, bits: nat)
    requires BitsToLongs(bits) <= dst.Length && BitsToLongs(bits) <= orig.Length && BitsToLongs(bits) <= relmap.Length
    requires dst != relmap
    modifies dst
    ensures dst == orig ==> dst[..] == old(dst[..])
    ensures dst != orig ==> forall n :: 0 <= n < bits ==> (In(dst[..], n) <==> OntoBit(orig[..], relmap[..], bits, n))
  {
    hide In, Count, OntoBit, IsNext;
    if dst == orig {
      return;
    }
    Zero(dst, bits);
    ghost var o, rel := orig[..], relmap[..];
    var m := 0;
    var n := FindFirstBit(relmap, bits);
    CountZero(rel);
    CountNext(rel, bits, 0, n);
    OntoGap(o, rel, bits, 0, n);
    while n < bits
      invariant 0 <= n <= bits && orig[..] == o && relmap[..] == rel && (n < bits ==> In(rel, n)) && m == Count(rel, n)
      invariant forall q :: 0 <= q < bits ==> (In(dst[..], q) <==> q < n && OntoBit(o, rel, bits, q))
    {
      CountBound(rel, n);
      OntoIs(o, rel, bits, n);
      var b := TestBit(orig, m);
      if b {
        SetBit(dst, n);
      }
      var last := n;
      n := FindNextBit(relmap, bits, n + 1);
      CountStep(rel, last);
      CountNext(rel, bits, last + 1, n);
      OntoGap(o, rel, bits, last + 1, n);
      m := m + 1;
    }
  }

  /** Between two set bits of rel nothing is set. */
  lemma {:induction false} OntoGap(orig: seq<Word>, rel: seq<Word>, bits: nat, a: nat, b: nat)
    requires IsNext(rel, true, bits, a, b)
    ensures forall q :: a <= q < b && q < bits ==> !OntoBit(orig, rel, bits, q)
  {
  }
}
