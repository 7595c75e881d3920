/** bitmap.c: the hexadecimal format of a bitmap. */
module HexSpec {
  import opened Words
  import opened Bitmap

  const CHUNK := 32
  const EINVAL := -22
  const EOVERFLOW := -75

  // ---------- Digits ----------

  function HexChar(d: nat): char
    requires d < 16
  {
    if d < 10 then ('0' as int + d) as char else ('a' as int + d - 10) as char
  }

  /** hex_to_bin */
  function HexToBin(c: char): int {
    if '0' <= c <= '9' then c as int - '0' as int
    else if 'a' <= c <= 'f' then c as int - 'a' as int + 10
    else if 'A' <= c <= 'F' then c as int - 'A' as int + 10
    else -1
  }

  predicate IsHexDigit(c: char) { '0' <= c <= '9' || 'a' <= c <= 'f' || 'A' <= c <= 'F' }

  predicate IsSpace(c: char) { c == ' ' || '\t' <= c <= '\r' }

  lemma {:induction false} HexCharIs(d: nat)
    requires d < 16
    ensures HexToBin(HexChar(d)) == d && IsHexDigit(HexChar(d)) && !IsSpace(HexChar(d))
    ensures HexChar(d) != ',' && HexChar(d) != '\0'
  {
  }

  /** The four low bits of a word, as a number. */
  function Digit(w: Word): (d: nat)
    ensures d < 16
  {
    DigitBound(And(w, 15));
    And(w, 15) as int
  }

  /** The conversion of a digit to a word. */
  function ToWord(d: int): Word
    requires 0 <= d < 16
  {
    d as Word
  }

  lemma {:induction false} DigitBound(b: Word)
    requires b == And(b, 15)
    ensures 0 <= b as int < 16
  {
  }

  /** "%0*lx" for a value that has no more than w digits. */
  function Hex(val: Word, w: nat): (t: string)
    ensures |t| == w
    decreases w
  {
    if w == 0 then "" else Hex(Shr(val, 4), w - 1) + [HexChar(Digit(val))]
  }

  /** The digit at position k from the left. */
  lemma {:induction false} HexAt(val: Word, w: nat, k: nat)
    requires k < w
    ensures Hex(val, w)[k] == HexChar(Digit(Shr(val, 4 * (w - 1 - k))))
    decreases w
  {
    hide Shr, Digit, HexChar;
    if k == w - 1 {
      ShrNone(val);
    } else {
      HexAt(Shr(val, 4), w - 1, k);
      ShrTwice(val, 4, 4 * (w - 2 - k));
    }
  }

  lemma {:induction false} ShrNone(w: Word)
    ensures Shr(w, 0) == w
  {
  }

  lemma {:induction false} ShrTwice(w: Word, m: nat, n: nat)
    ensures Shr(Shr(w, m), n) == Shr(w, m + n)
    decreases m
  {
    hide Half;
    if m > 0 { ShrTwice(Half(w), m - 1, n); }
  }

  // ---------- The text of a bitmap ----------

  /** val = (maskp[word] >> bit) & chunkmask: the sz bits from position CHUNK * q on. */
  function ChunkOf(s: seq<Word>, q: nat, sz: nat): Word
    requires CHUNK * q < BITS * |s|
  {
    And(Shr(s[CHUNK * q / BITS], CHUNK * q % BITS), LowMask(sz))
  }

  lemma {:induction false} ChunkBit(s: seq<Word>, q: nat, sz: nat, j: nat)
    requires CHUNK * q < BITS * |s| && sz <= CHUNK
    ensures Bit(ChunkOf(s, q, sz), j) <==> j < sz && In(s, CHUNK * q + j)
  {
    hide Bit, And, Shr, LowMask, In;
    var k, b := CHUNK * q / BITS, CHUNK * q % BITS;
    AndBit(Shr(s[k], b), LowMask(sz), j);
    LowMaskBit(sz, j);
    ShrBit(s[k], b, j);
    if j < sz {
      ChunkPlace(q, j);
      InAt(s, k, b + j);
    }
  }

  /** A chunk lies in one half of a word. */
  lemma {:induction false} ChunkPlace(q: nat, j: nat)
    requires j < CHUNK
    ensures var k, b := CHUNK * q / BITS, CHUNK * q % BITS; b + j < BITS && BITS * k + (b + j) == CHUNK * q + j
  {
  }

  /** Chunks q down to 0, of which the first has sz bits and the others have 32. */
  function HexText(s: seq<Word>, q: nat, sz: nat): string
    requires CHUNK * q < BITS * |s|
  {
    Hex(ChunkOf(s, q, sz), (sz + 3) / 4) + if q == 0 then "" else "," + HexText(s, q - 1, CHUNK)
  }

  /** The number of the first chunk, and its size. */
  function TopChunk(n: nat): nat
    requires n > 0
  {
    (n - 1) / CHUNK
  }

  function TopSize(n: nat): nat { if n % CHUNK == 0 then CHUNK else n % CHUNK }

  /** What bitmap_snprintf prints. */
  function Printed(s: seq<Word>, n: nat): string
    requires 0 < n <= BITS * |s|
  {
    HexText(s, TopChunk(n), TopSize(n))
  }

  // ---------- Reading one chunk ----------

  /** nbits_to_hold_value */
  function Fls(w: Word, n: nat): (r: nat)
    ensures r <= n && (forall i :: r <= i < n ==> !Bit(w, i)) && (r > 0 ==> Bit(w, r - 1))
  {
    if n == 0 || Bit(w, n - 1) then n else Fls(w, n - 1)
  }

  /** The state of the inner loop of __bitmap_parse, with ret set when it returns. */
  datatype Scan = Scan(ret: int, chunk: Word, ndigits: nat, total: nat, next: nat, c: char)

  function ScanChunk(text: string, sc: Scan): (r: Scan)
    requires sc.next <= |text|
    ensures sc.next <= r.next <= |text| && (sc.next < |text| ==> sc.next < r.next)
    decreases |text| - sc.next
  {
    if sc.next == |text| then sc
    else
      var c, step := text[sc.next], sc.(next := sc.next + 1, c := text[sc.next]);
      if IsSpace(c) then ScanChunk(text, step)
      else if sc.total > 0 && c != '\0' && IsSpace(sc.c) then step.(ret := EINVAL)
      else if c == '\0' || c == ',' then step
      else if !IsHexDigit(c) then step.(ret := EINVAL)
      else if And(sc.chunk, Not(LowMask(CHUNK - 4))) != 0 then step.(ret := EOVERFLOW)
      else
        var chunk := Or(Shl(sc.chunk, 4), ToWord(HexToBin(c)));
        ScanChunk(text, step.(chunk := chunk, ndigits := sc.ndigits + 1, total := sc.total + 1))
  }

  // ---------- Reading all of a text ----------

  /** The result of a parse: the return value, and the chunks from the first that is not zero. */
  datatype Parse = Parse(ret: int, chunks: seq<Word>)

  /** The bits that hold the chunks. */
  function NBits(chunks: seq<Word>): nat {
    if chunks == [] then 0 else Fls(chunks[0], CHUNK) + CHUNK * (|chunks| - 1)
  }

  function ParseFrom(text: string, next: nat, c: char, total: nat, chunks: seq<Word>, n: nat): (r: Parse)
    requires next <= |text|
    decreases |text| - next
  {
    var sc := ScanChunk(text, Scan(0, 0, 0, total, next, c));
    if sc.ret != 0 then Parse(sc.ret, chunks)
    else if sc.ndigits == 0 then Parse(EINVAL, chunks)
    else
      var l := if chunks == [] && sc.chunk == 0 then [] else chunks + [sc.chunk];
      if NBits(l) > n then Parse(EOVERFLOW, l)
      else if sc.next < |text| && sc.c == ',' then ParseFrom(text, sc.next, sc.c, sc.total, l, n)
      else Parse(0, l)
  }

  /** Bit p of a parse: the last chunk holds the 32 lowest bits. */
  ghost predicate ChunksHold(chunks: seq<Word>, p: int) {
    0 <= p < CHUNK * |chunks| && Bit(chunks[|chunks| - 1 - p / CHUNK], p % CHUNK)
  }

  // ---------- Printing and parsing ----------

  lemma {:induction false} FifteenBit(j: nat)
    ensures Bit(15, j) <==> j < 4
  {
    OneMore(15, 0, 0);
    OnesOfBit(15, 1, j);
  }

  lemma {:induction false} DigitWord(w: Word)
    ensures ToWord(Digit(w)) == And(w, 15)
  {
  }

  /** Reading one more digit. */
  lemma {:induction false} DigitStep(val: Word, m: nat)
    ensures Or(Shl(Shr(val, m + 4), 4), ToWord(Digit(Shr(val, m)))) == Shr(val, m)
  {
    hide Bit, And, Or, Shl, Shr, Digit, ToWord;
    var v, h := Shr(val, m), Shr(val, m + 4);
    DigitWord(v);
    var r := Or(Shl(h, 4), And(v, 15));
    forall j | 0 <= j < BITS ensures Bit(r, j) == Bit(v, j) {
      OrBit(Shl(h, 4), And(v, 15), j);
      ShlBit(h, 4, j);
      AndBit(v, 15, j);
      FifteenBit(j);
      ShrBit(val, m, j);
      if j >= 4 { ShrBit(val, m + 4, j - 4); }
    }
    SameBits(r, v);
  }

  /** There is room for another digit. */
  lemma {:induction false} DigitRoom(val: Word, m: nat)
    requires forall j :: j >= CHUNK ==> !Bit(val, j)
    ensures And(Shr(val, m + 4), Not(LowMask(CHUNK - 4))) == 0
  {
    hide Bit, And, Not, Shr, LowMask;
    var w := And(Shr(val, m + 4), Not(LowMask(CHUNK - 4)));
    forall j | 0 <= j < BITS ensures Bit(w, j) == Bit(0, j) {
      AndBit(Shr(val, m + 4), Not(LowMask(CHUNK - 4)), j);
      NotBit(LowMask(CHUNK - 4), j);
      LowMaskBit(CHUNK - 4, j);
      ShrBit(val, m + 4, j);
      ZeroBit(j);
    }
    SameBits(w, 0);
  }

  /** The scan after m digits, the last of which is c. */
  function Advanced(sc: Scan, m: nat, c: char, chunk: Word): Scan {
    sc.(next := sc.next + m, ndigits := sc.ndigits + m, total := sc.total + m, c := c, chunk := chunk)
  }

  lemma {:induction false} OneDigit(text: string, sc: Scan, d: nat)
    requires sc.next < |text| && d < 16 && text[sc.next] == HexChar(d) && !IsSpace(sc.c)
    requires And(sc.chunk, Not(LowMask(CHUNK - 4))) == 0
    ensures ScanChunk(text, sc) == ScanChunk(text, Advanced(sc, 1, HexChar(d), Or(Shl(sc.chunk, 4), ToWord(d))))
  {
    hide And, Not, LowMask, Or, Shl, ToWord, HexChar, HexToBin, IsHexDigit, IsSpace;
    HexCharIs(d);
  }

  /** The scan of a printed chunk, from its digit k on, ends behind it with its value. */
  lemma {:induction false} ScanHex(text: string, i: nat, w: nat, val: Word, k: nat, sc: Scan)
    requires k < w && i + w <= |text| && text[i..i + w] == Hex(val, w)
    requires forall j :: j >= CHUNK ==> !Bit(val, j)
    requires sc.next == i + k && sc.chunk == Shr(val, 4 * (w - k)) && !IsSpace(sc.c)
    ensures ScanChunk(text, sc) == ScanChunk(text, Advanced(sc, w - k, text[i + w - 1], val))
    ensures !IsSpace(text[i + w - 1])
    decreases w - k
  {
    hide Shr, Shl, Or, And, Not, LowMask, Bit, Digit, ToWord, Hex, HexChar, HexToBin, ScanChunk, IsSpace, IsHexDigit;
    var m := 4 * (w - 1 - k);
    HexAt(val, w, k);
    assert text[i + k] == text[i..i + w][k];
    HexCharIs(Digit(Shr(val, m)));
    DigitStep(val, m);
    DigitRoom(val, m);
    assert 4 * (w - k) == m + 4;
    OneDigit(text, sc, Digit(Shr(val, m)));
    if k + 1 == w {
      ShrNone(val);
    } else {
      ScanHex(text, i, w, val, k + 1, Advanced(sc, 1, text[i + k], Shr(val, m)));
    }
  }

  /** What may stand behind a text: nothing, or a NUL and anything at all. */
  ghost predicate Ends(rest: string) { rest == "" || rest[0] == '\0' }

  /** The scan of chunk val, in w digits, that is followed by rest. */
  lemma {:induction false} ScanWhole(text: string, i: nat, w: nat, val: Word, c: char, total: nat)
    requires 0 < w <= 8 && i + w <= |text| && text[i..i + w] == Hex(val, w) && !IsSpace(c)
    requires forall j :: j >= 4 * w ==> !Bit(val, j)
    requires i + w < |text| ==> text[i + w] == ',' || text[i + w] == '\0'
    ensures var sc := ScanChunk(text, Scan(0, 0, 0, total, i, c));
            && sc.ret == 0 && sc.chunk == val && sc.ndigits == w && sc.total == total + w && !IsSpace(sc.c)
            && (if i + w < |text| then sc.next == i + w + 1 && sc.c == text[i + w] else sc.next == i + w)
  {
    hide Bit, Shr, Hex, IsHexDigit, HexToBin, And, Or, Shl, Not, LowMask;
    ShrEmpty(val, 4 * w);
    ScanHex(text, i, w, val, 0, Scan(0, 0, 0, total, i, c));
  }

  lemma {:induction false} ShrEmpty(val: Word, n: nat)
    requires forall j :: j >= n ==> !Bit(val, j)
    ensures Shr(val, n) == 0
  {
    hide Bit, Shr;
    forall j | 0 <= j < BITS ensures Bit(Shr(val, n), j) == Bit(0, j) {
      ShrBit(val, n, j);
      ZeroBit(j);
    }
    SameBits(Shr(val, n), 0);
  }

  /** l holds exactly the bits of s from base on, up to n. */
  ghost predicate Agrees(l: seq<Word>, s: seq<Word>, base: nat, n: nat) {
    && (forall p :: 0 <= p ==> (ChunksHold(l, p) <==> base + p < n && In(s, base + p)))
    && (l != [] ==> Fls(l[0], CHUNK) > 0)
  }

  lemma {:induction false} ChunksHoldSnoc(l: seq<Word>, ch: Word, p: int)
    ensures ChunksHold(l + [ch], p) <==> if 0 <= p < CHUNK then Bit(ch, p) else ChunksHold(l, p - CHUNK)
  {
    hide Bit;
    if p >= CHUNK {
      assert (p - CHUNK) / CHUNK == p / CHUNK - 1 && (p - CHUNK) % CHUNK == p % CHUNK;
    }
  }

  /** One more chunk. */
  lemma {:induction false} AgreesStep(l: seq<Word>, s: seq<Word>, q: nat, sz: nat, n: nat)
    requires CHUNK * q < BITS * |s| && 0 < sz <= CHUNK && CHUNK * q + sz <= n
             && (sz == CHUNK || (l == [] && CHUNK * q + sz == n))
    requires Agrees(l, s, CHUNK * q + sz, n)
    ensures var ch := ChunkOf(s, q, sz);
            Agrees(if l == [] && ch == 0 then [] else l + [ch], s, CHUNK * q, n)
  {
    hide Bit, In, ChunkOf, ChunksHold;
    var ch := ChunkOf(s, q, sz);
    var l' := if l == [] && ch == 0 then [] else l + [ch];
    forall p | 0 <= p ensures ChunksHold(l', p) <==> CHUNK * q + p < n && In(s, CHUNK * q + p) {
      ChunksHoldSnoc(l, ch, p);
      ChunksHoldNothing(p);
      ChunkBit(s, q, sz, p);
      if l == [] && ch == 0 { ZeroBit(p); }
      if p >= CHUNK {
        ChunksHoldNothing(p - CHUNK);
        assert ChunksHold(l, p - CHUNK) <==> CHUNK * q + sz + (p - CHUNK) < n && In(s, CHUNK * q + sz + (p - CHUNK));
        assert sz == CHUNK ==> CHUNK * q + sz + (p - CHUNK) == CHUNK * q + p;
      } else if sz == CHUNK {
        assert CHUNK * q + p < n;
      }
    }
    if l == [] && ch != 0 {
      NonzeroBit(ch);
      ChunkBit(s, q, sz, Ffs(ch));
    }
  }

  lemma {:induction false} ChunksHoldNothing(p: int)
    ensures !ChunksHold([], p)
  {
  }

  /** What has been read so far never takes more than n bits. */
  lemma {:induction false} AgreesFits(l: seq<Word>, s: seq<Word>, base: nat, n: nat)
    requires Agrees(l, s, base, n) && base <= n
    ensures NBits(l) <= n
  {
    if l != [] {
      var f := Fls(l[0], CHUNK);
      var p := CHUNK * (|l| - 1) + (f - 1);
      assert p / CHUNK == |l| - 1 && p % CHUNK == f - 1;
      assert ChunksHold(l, p);
    }
  }

  lemma {:induction false} ParseText(s: seq<Word>, q: nat, sz: nat, text: string, rest: string, next: nat, c: char,
                                     total: nat, l: seq<Word>, n: nat)
    requires CHUNK * q < BITS * |s| && 0 < sz <= CHUNK && CHUNK * q + sz <= n
             && (sz == CHUNK || (l == [] && CHUNK * q + sz == n))
    requires next <= |text| && text[next..] == HexText(s, q, sz) + rest && Ends(rest) && !IsSpace(c)
    requires Agrees(l, s, CHUNK * q + sz, n)
    ensures var r := ParseFrom(text, next, c, total, l, n); r.ret == 0 && Agrees(r.chunks, s, 0, n)
    decreases q
  {
    hide Hex, Agrees, In, Bit, ChunkOf, NBits, ScanChunk, Ends;
    var ch, w := ChunkOf(s, q, sz), (sz + 3) / 4;
    AgreesStep(l, s, q, sz, n);
    var l' := if l == [] && ch == 0 then [] else l + [ch];
    AgreesFits(l', s, CHUNK * q, n);
    TextAt(s, q, sz, text, rest, next);
    ChunkSmall(s, q, sz);
    ScanWhole(text, next, w, ch, c, total);
    if q > 0 {
      ParseText(s, q - 1, CHUNK, text, rest, next + w + 1, ',', total + w, l', n);
    }
  }

  lemma {:induction false} ChunkSmall(s: seq<Word>, q: nat, sz: nat)
    requires CHUNK * q < BITS * |s| && sz <= CHUNK
    ensures forall j :: j >= 4 * ((sz + 3) / 4) ==> !Bit(ChunkOf(s, q, sz), j)
  {
    hide Bit, ChunkOf;
    forall j | j >= 4 * ((sz + 3) / 4) ensures !Bit(ChunkOf(s, q, sz), j) {
      ChunkBit(s, q, sz, j);
    }
  }

  /** What stands at the front of the text of chunks q down to 0. */
  lemma {:induction false} TextAt(s: seq<Word>, q: nat, sz: nat, text: string, rest: string, next: nat)
    requires CHUNK * q < BITS * |s| && next <= |text| && text[next..] == HexText(s, q, sz) + rest && Ends(rest)
    ensures var w := (sz + 3) / 4;
            && next + w <= |text| && text[next..next + w] == Hex(ChunkOf(s, q, sz), w)
            && (if q > 0 then next + w < |text| && text[next + w] == ','
               && text[next + w + 1..] == HexText(s, q - 1, CHUNK) + rest
                else next + w < |text| ==> text[next + w] == '\0')
  {
    hide Hex, ChunkOf;
    var w, h := (sz + 3) / 4, Hex(ChunkOf(s, q, sz), (sz + 3) / 4);
    var tail := (if q == 0 then "" else "," + HexText(s, q - 1, CHUNK)) + rest;
    Split(h, tail, text, next);
    assert HexText(s, q, sz) + rest == h + tail;
    if q > 0 {
      assert tail[0] == ',' && tail[1..] == HexText(s, q - 1, CHUNK) + rest;
    } else {
      assert tail == rest;
    }
  }

  lemma {:induction false} Split(h: string, tail: string, text: string, next: nat)
    requires next <= |text|
    ensures text[next..] == h + tail ==>
              next + |h| <= |text| && text[next..next + |h|] == h && text[next + |h|..] == tail
    ensures text[next..] == h + tail && tail != "" ==>
              next + |h| < |text| && text[next + |h|] == tail[0] && text[next + |h| + 1..] == tail[1..]
  {
    if text[next..] == h + tail {
      assert |text| == next + |h| + |tail|;
      assert forall k :: 0 <= k < |h| + |tail| ==> text[next + k] == text[next..][k];
    }
  }

  /** Parsing what was printed succeeds, and restores exactly the n low bits. */
  lemma {:induction false} PrintedParses(s: seq<Word>, n: nat, rest: string)
    requires 0 < n <= BITS * |s| && Ends(rest)
    ensures var r := ParseFrom(Printed(s, n) + rest, 0, '\0', 0, [], n);
            r.ret == 0 && forall p :: 0 <= p < n ==> (ChunksHold(r.chunks, p) <==> In(s, p))
  {
    hide HexText;
    var q, sz, text := TopChunk(n), TopSize(n), Printed(s, n) + rest;
    assert text[0..] == text;
    NothingYet(s, n);
    ParseText(s, q, sz, text, rest, 0, '\0', 0, [], n);
  }

  lemma {:induction false} NothingYet(s: seq<Word>, n: nat)
    ensures Agrees([], s, n, n)
  {
    forall p: int ensures !ChunksHold([], p) { ChunksHoldNothing(p); }
  }
}
