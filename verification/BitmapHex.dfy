/**
 bitmap.c: printing a bitmap in chunks of hexadecimal digits, and reading it back chunk by chunk into a
 bitmap that is shifted in place.
 */
module BitmapHex {
  import opened Powers
  import opened Words
  import opened Bitmap
  import opened HexSpec
  import opened HexVerdict
  import opened Grammar
  import HexGrammar
  import opened Ranks

  /** "%0*lx", a digit at a time. */
  method PrintHex(val: Word, width: nat) returns (t: string)
    ensures t == Hex(val, width)
  {
    t := "";
    var v := val;
    for k := 0 to width
      invariant Hex(val, width) == Hex(v, width - k) + t
    {
      HexStep(v, width - k, t);
      t := [HexChar(Digit(v))] + t;
      v := Shr(v, 4);
    }
  }

  lemma {:induction false} HexStep(v: Word, w: nat, t: string)
    requires w > 0
    ensures Hex(v, w) + t == Hex(Shr(v, 4), w - 1) + ([HexChar(Digit(v))] + t)
  {
  }

  /** bitmap_snprintf into a buffer that is large enough. */
  method Snprintf(maskp: array<Word>, nmaskbits: nat) returns (buf: string)
    requires nmaskbits <= BITS * maskp.Length
    ensures buf == if nmaskbits == 0 then "" else Printed(maskp[..], nmaskbits)
  {
    hide HexText, ChunkOf, Shr, And, LowMask, Hex;
    buf := "";
    if nmaskbits == 0 {
      return;
    }
    ghost var s := maskp[..];
    var chunksz, sep := TopSize(nmaskbits), "";
    var q := TopChunk(nmaskbits);
    while q >= 0
      invariant -1 <= q <= TopChunk(nmaskbits) && 0 < chunksz <= CHUNK
      invariant Printed(s, nmaskbits) == buf + if q < 0 then "" else sep + HexText(s, q, chunksz)
      decreases q
    {
      var word, bit := CHUNK * q / BITS, CHUNK * q % BITS;
      var val := And(Shr(maskp[word], bit), LowMask(chunksz));
      var digits := PrintHex(val, (chunksz + 3) / 4);
      TextStep(s, q, chunksz, buf, sep, val, digits);
      buf := buf + sep + digits;
      chunksz, sep := CHUNK, ",";
      q := q - 1;
    }
  }

  lemma {:induction false} TextStep(s: seq<Word>, q: nat, sz: nat, buf: string, sep: string, val: Word, digits: string)
    requires CHUNK * q < BITS * |s| && val == And(Shr(s[CHUNK * q / BITS], CHUNK * q % BITS), LowMask(sz))
    requires digits == Hex(val, (sz + 3) / 4)
    ensures buf + (sep + HexText(s, q, sz))
         == (buf + sep + digits) + if q == 0 then "" else "," + HexText(s, q - 1, CHUNK)
  {
    hide Hex, And, Shr, LowMask;
  }

  /** The inner loop of __bitmap_parse: one chunk. */
  method ReadChunk(text: string, from: nat, c0: char, total0: nat) returns (sc: Scan)
    requires from <= |text|
    ensures sc == ScanChunk(text, Scan(0, 0, 0, total0, from, c0))
  {
    hide And, Or, Shl, Not, LowMask, IsSpace, IsHexDigit, HexToBin, ToWord;
    var chunk, ndigits, total, next, c := 0 as Word, 0, total0, from, c0;
    ghost var start := Scan(0, 0, 0, total0, from, c0);
    while next < |text|
      invariant 0 <= ndigits && 0 <= total && from <= next <= |text|
      invariant ScanChunk(text, start) == ScanChunk(text, Scan(0, chunk, ndigits, total, next, c))
      decreases |text| - next
    {
      var last := c;
      c := text[next];
      next := next + 1;
      if IsSpace(c) {
        continue;
      }
      if total > 0 && c != '\0' && IsSpace(last) {
        return Scan(EINVAL, chunk, ndigits, total, next, c);
      }
      if c == '\0' || c == ',' {
        return Scan(0, chunk, ndigits, total, next, c);
      }
      if !IsHexDigit(c) {
        return Scan(EINVAL, chunk, ndigits, total, next, c);
      }
      if And(chunk, Not(LowMask(CHUNK - 4))) != 0 {
        return Scan(EOVERFLOW, chunk, ndigits, total, next, c);
      }
      HexDigitIs(c);
      chunk := Or(Shl(chunk, 4), ToWord(HexToBin(c)));
      ndigits, total := ndigits + 1, total + 1;
    }
    return Scan(0, chunk, ndigits, total, next, c);
  }

  lemma {:induction false} HexDigitIs(c: char)
    requires IsHexDigit(c)
    ensures 0 <= HexToBin(c) < 16
  {
  }

  /** The bitmap is moved up by a chunk, and the chunk goes to the bottom. */
  method AppendChunk(maskp: array<Word>, chunk: Word, nmaskbits: nat, ghost l: seq<Word>)
    requires 0 < nmaskbits <= BITS * maskp.Length
    requires forall p :: 0 <= p < nmaskbits ==> (In(maskp[..], p) <==> ChunksHold(l, p))
    requires forall j :: j >= CHUNK ==> !Bit(chunk, j)
    modifies maskp
    ensures forall p :: 0 <= p < nmaskbits ==> (In(maskp[..], p) <==> ChunksHold(l + [chunk], p))
  {
    hide In, Bit, Or, ChunksHold;
    ghost var s := maskp[..];
    ShiftLeft(maskp, maskp, CHUNK, nmaskbits);
    ghost var d := maskp[..];
    maskp[0] := Or(maskp[0], chunk);
    forall p | 0 <= p < nmaskbits ensures In(maskp[..], p) <==> ChunksHold(l + [chunk], p) {
      ChunksHoldSnoc(l, chunk, p);
      LowWord(d, maskp[..], chunk, p);
      Negative(s, p - CHUNK);
    }
  }

  lemma {:induction false} Negative(s: seq<Word>, p: int)
    ensures p < 0 ==> !In(s, p)
  {
  }

  lemma {:induction false} LowWord(d: seq<Word>, e: seq<Word>, chunk: Word, p: nat)
    requires d != [] && e == d[0 := Or(d[0], chunk)] && forall j :: j >= CHUNK ==> !Bit(chunk, j)
    ensures In(e, p) <==> In(d, p) || (p < CHUNK && Bit(chunk, p))
  {
    hide Bit, Or;
    if p < BITS { OrBit(d[0], chunk, p); }
  }

  /** A chunk that has been read has no more than 32 bits. */
  lemma {:induction false} ChunkBounded(text: string, sc: Scan)
    requires sc.next <= |text| && forall j :: j >= CHUNK ==> !Bit(sc.chunk, j)
    ensures forall j :: j >= CHUNK ==> !Bit(ScanChunk(text, sc).chunk, j)
    decreases |text| - sc.next
  {
    hide Bit, And, Or, Shl, Not, LowMask, IsSpace, IsHexDigit, HexToBin, ToWord;
    if sc.next < |text| {
      var c, step := text[sc.next], sc.(next := sc.next + 1, c := text[sc.next]);
      var r := ScanChunk(text, sc);
      if IsSpace(c) {
        ChunkBounded(text, step);
        assert r == ScanChunk(text, step);
      } else if (sc.total > 0 && c != '\0' && IsSpace(sc.c)) || c == '\0' || c == ',' || !IsHexDigit(c) {
        assert r.chunk == sc.chunk;
      } else if And(sc.chunk, Not(LowMask(CHUNK - 4))) != 0 {
        assert r.chunk == sc.chunk;
      } else {
        HexDigitIs(c);
        var d := HexToBin(c);
        StillBounded(sc.chunk, d);
        var more := step.(chunk := Or(Shl(sc.chunk, 4), ToWord(d)), ndigits := sc.ndigits + 1, total := sc.total + 1);
        ChunkBounded(text, more);
        assert r == ScanChunk(text, more);
      }
    }
  }

  lemma {:induction false} StillBounded(chunk: Word, d: nat)
    requires d < 16 && And(chunk, Not(LowMask(CHUNK - 4))) == 0
    ensures forall j :: j >= CHUNK ==> !Bit(Or(Shl(chunk, 4), ToWord(d)), j)
  {
    hide Bit, And, Or, Shl, Not, LowMask, ToWord;
    var w, m := Or(Shl(chunk, 4), ToWord(d)), LowMask(CHUNK - 4);
    forall j | j >= CHUNK ensures !Bit(w, j) {
      OrBit(Shl(chunk, 4), ToWord(d), j);
      ShlBit(chunk, 4, j);
      ToWordIs(d);
      AndBit(ToWord(d), 15, j);
      FifteenBit(j);
      AndBit(chunk, Not(m), j - 4);
      NotBit(m, j - 4);
      LowMaskBit(CHUNK - 4, j - 4);
      ZeroBit(j - 4);
      HighBit(w, if j < BITS then BITS else j);
    }
  }

  lemma {:induction false} ToWordIs(d: nat)
    requires d < 16
    ensures ToWord(d) == And(ToWord(d), 15)
  {
  }

  /** __bitmap_parse */
  method BitmapParse(text: string, maskp: array<Word>, nmaskbits: nat) returns (ret: int)
    requires 0 < nmaskbits <= BITS * maskp.Length
    modifies maskp
    ensures ret == Outcome(0, HexRead(text), nmaskbits)
    ensures ret == 0 ==> forall p :: 0 <= p < nmaskbits ==>
      (In(maskp[..], p) <==> NBit(NumberFrom(0, HexRead(text).chunks), p))
    ensures var l := Fields(Core(text, 16));
            ret == 0 <==>
            Sound(Body(text), 16) && HexGrammar.AllNumbers(l)
            && !TooBig(HexGrammar.Values(l)) && NumberFrom(0, HexGrammar.Values(l)) < Pow2(nmaskbits)
    ensures var r := HexParsed(text, nmaskbits);
            ret == r.ret
            && (ret == 0 ==> forall p :: 0 <= p < nmaskbits ==> (In(maskp[..], p) <==> ChunksHold(r.chunks, p)))
  {
    hide In, Bit, ChunksHold, ScanChunk, Fls, NBits, Outcome, HexRead, NumberFrom, NBit;
    hide Sound, Body, Core, Fields, HexGrammar.AllNumbers, HexGrammar.Values, TooBig, Pow2;
    HexExactly(text, nmaskbits);
    HexGrammar.HexAccepted(text, nmaskbits);
    Zero(maskp, nmaskbits);
    HoldsNone();
    var nchunks, nbits, total, c, next := 0, 0, 0, '\0', 0;
    ghost var l: seq<Word> := [];
    NBitsStep([], 0);
    ghost var whole := HexParsed(text, nmaskbits);
    while true
      invariant 0 <= next <= |text| && 0 <= total && nchunks == |l| && nbits == NBits(l)
      invariant forall p :: 0 <= p < nmaskbits ==> (In(maskp[..], p) <==> ChunksHold(l, p))
      invariant whole == ParseFrom(text, next, c, total, l, nmaskbits)
      decreases |text| - next
    {
      var sc := ReadChunk(text, next, c, total);
      NoBits();
      ChunkBounded(text, Scan(0, 0, 0, total, next, c));
      if sc.ret != 0 {
        return sc.ret;
      }
      if sc.ndigits == 0 {
        return EINVAL;
      }
      if !(nchunks == 0 && sc.chunk == 0) {
        AppendChunk(maskp, sc.chunk, nmaskbits, l);
        NBitsStep(l, sc.chunk);
        l := l + [sc.chunk];
        nchunks := nchunks + 1;
        nbits := nbits + if nchunks == 1 then Fls(sc.chunk, CHUNK) else CHUNK;
        if nbits > nmaskbits {
          return EOVERFLOW;
        }
      }
      c, total := sc.c, sc.total;
      if !(sc.next < |text| && sc.c == ',') {
        return 0;
      }
      next := sc.next;
    }
  }

  lemma {:induction false} HoldsNone()
    ensures forall p :: !ChunksHold([], p)
  {
    forall p: int ensures !ChunksHold([], p) { ChunksHoldNothing(p); }
  }

  lemma {:induction false} NoBits()
    ensures forall j :: j >= CHUNK ==> !Bit(0, j)
  {
    forall j: nat ensures !Bit(0, j) { ZeroBit(j); }
  }

  lemma {:induction false} NBitsStep(l: seq<Word>, ch: Word)
    ensures NBits([]) == 0
    ensures NBits(l + [ch]) == NBits(l) + if l == [] then Fls(ch, CHUNK) else CHUNK
  {
  }
}
