/** bitmap.c: what the hex parser makes of any text. */
module HexVerdict {
  import opened Powers
  import opened Words
  import opened Bitmap
  import opened HexSpec

  // ---------- The bits of a number ----------

  ghost predicate NBit(v: nat, j: nat) {
    if j == 0 then v % 2 == 1 else NBit(v / 2, j - 1)
  }

  lemma {:induction false} HalfSum(p: nat, v: nat, d: nat)
    ensures (2 * p * v + d) / 2 == p * v + d / 2 && (2 * p * v + d) % 2 == d % 2
  {
    assert 2 * p * v + d == 2 * (p * v) + d;
  }

  /** The k low bits of 2^k v + d are those of d, the others those of v. */
  lemma {:induction false} NBitSplit(v: nat, d: nat, k: nat, j: nat)
    requires d < Pow2(k)
    ensures NBit(Pow2(k) * v + d, j) == if j < k then NBit(d, j) else NBit(v, j - k)
    decreases k
  {
    if k > 0 {
      HalfSum(Pow2(k - 1), v, d);
      assert Pow2(k) * v == 2 * Pow2(k - 1) * v;
      if j > 0 { NBitSplit(v, d / 2, k - 1, j - 1); }
    } else {
      assert Pow2(0) * v + d == v;
    }
  }

  /** A number below 2^k has no bits from k on. */
  lemma {:induction false} NBitSmall(v: nat, k: nat, j: nat)
    requires v < Pow2(k) && k <= j
    ensures !NBit(v, j)
    decreases j
  {
    if j > 0 { NBitSmall(v / 2, if k == 0 then 0 else k - 1, j - 1); }
  }

  /** Any other number has one. */
  lemma {:induction false} NBitLarge(v: nat, k: nat) returns (j: nat)
    requires v >= Pow2(k)
    ensures k <= j && NBit(v, j)
    decreases v
  {
    if k == 0 && v == 1 {
      j := 0;
    } else {
      var i := NBitLarge(v / 2, if k == 0 then 0 else k - 1);
      j := i + 1;
    }
  }

  /** The bits of w are those of v. */
  ghost predicate Means(w: Word, v: nat) {
    forall j: nat :: Bit(w, j) <==> NBit(v, j)
  }

  lemma {:induction false} MeansZero(v: nat)
    ensures Means(0, v) <==> v == 0
  {
    if v == 0 {
      forall j: nat ensures Bit(0, j) <==> NBit(v, j) {
        ZeroBit(j);
        NBitSmall(0, 0, j);
      }
    } else {
      var j := NBitLarge(v, 0);
      ZeroBit(j);
    }
  }

  lemma {:induction false} DigitHalf(d: nat)
    requires d < 16
    ensures Half(ToWord(d)) == ToWord(d / 2) && Odd(ToWord(d)) == (d % 2 == 1)
  {
    if d < 4 { DigitHalf0(d); } else if d < 8 { DigitHalf4(d); } else if d < 12 { DigitHalf8(d); }
        else { DigitHalf12(d); }
  }

  lemma {:induction false} DigitHalf0(d: nat)
    requires 0 <= d < 4
    ensures Half(ToWord(d)) == ToWord(d / 2) && Odd(ToWord(d)) == (d % 2 == 1)
  {
    if d == 0 {} else if d == 1 {} else if d == 2 {} else {}
  }

  lemma {:induction false} DigitHalf4(d: nat)
    requires 4 <= d < 8
    ensures Half(ToWord(d)) == ToWord(d / 2) && Odd(ToWord(d)) == (d % 2 == 1)
  {
    if d == 4 {} else if d == 5 {} else if d == 6 {} else {}
  }

  lemma {:induction false} DigitHalf8(d: nat)
    requires 8 <= d < 12
    ensures Half(ToWord(d)) == ToWord(d / 2) && Odd(ToWord(d)) == (d % 2 == 1)
  {
    if d == 8 {} else if d == 9 {} else if d == 10 {} else {}
  }

  lemma {:induction false} DigitHalf12(d: nat)
    requires 12 <= d < 16
    ensures Half(ToWord(d)) == ToWord(d / 2) && Odd(ToWord(d)) == (d % 2 == 1)
  {
    if d == 12 {} else if d == 13 {} else if d == 14 {} else {}
  }

  lemma {:induction false} DigitMeans(d: nat, j: nat)
    requires d < 16
    ensures Bit(ToWord(d), j) <==> NBit(d, j)
    decreases j
  {
    hide Half, Odd, ToWord;
    DigitHalf(d);
    if j > 0 { DigitMeans(d / 2, j - 1); }
  }

  /** One more digit. */
  lemma {:induction false} DigitAppended(w: Word, v: nat, d: nat)
    requires Means(w, v) && v < Pow2(CHUNK - 4) && d < 16
    ensures Means(Or(Shl(w, 4), ToWord(d)), 16 * v + d) && 16 * v + d < Pow2(CHUNK)
  {
    hide Bit, NBit, Or, Shl, ToWord;
    Sixteen();
    forall j: nat ensures Bit(Or(Shl(w, 4), ToWord(d)), j) <==> NBit(16 * v + d, j) {
      OrBit(Shl(w, 4), ToWord(d), j);
      ShlBit(w, 4, j);
      DigitMeans(d, j);
      NBitSplit(v, d, 4, j);
      if j >= 4 { NBitSmall(d, 4, j); }
      if j >= BITS { NBitSmall(16 * v + d, CHUNK, j); }
    }
  }

  lemma {:induction false} Sixteen()
    ensures Pow2(4) == 16 && Pow2(CHUNK) == 16 * Pow2(CHUNK - 4)
  {
    assert Pow2(1) == 2 && Pow2(2) == 4 && Pow2(3) == 8;
    var k := CHUNK - 4;
    assert Pow2(k + 1) == 2 * Pow2(k) && Pow2(k + 2) == 4 * Pow2(k);
    assert Pow2(k + 3) == 8 * Pow2(k) && Pow2(k + 4) == 16 * Pow2(k);
  }

  /** The test for room is exact. */
  lemma {:induction false} RoomExactly(w: Word, v: nat)
    requires Means(w, v)
    ensures And(w, Not(LowMask(CHUNK - 4))) == 0 <==> v < Pow2(CHUNK - 4)
  {
    hide Bit, NBit, And, Not, LowMask, Pow2;
    var m := Not(LowMask(CHUNK - 4));
    NonzeroBit(And(w, m));
    forall j: nat ensures Bit(And(w, m), j) <==> Bit(w, j) && CHUNK - 4 <= j {
      AndBit(w, m, j);
      NotBit(LowMask(CHUNK - 4), j);
      LowMaskBit(CHUNK - 4, j);
      if j >= BITS { HighBit(w, j); }
    }
    if v < Pow2(CHUNK - 4) {
      var j := Ffs(And(w, m));
      if j < BITS { NBitSmall(v, CHUNK - 4, j); }
    } else {
      var j := NBitLarge(v, CHUNK - 4);
      if And(w, m) == 0 { ZeroBit(j); }
    }
  }

  // ---------- What a text says ----------

  /** A chunk as it stands in the text, of any size; ret is set where the text goes wrong. */
  datatype HexScan = HexScan(ret: int, value: nat, ndigits: nat, total: nat, next: nat, c: char)

  function ScanDigits(text: string, h: HexScan): (r: HexScan)
    requires h.next <= |text| && (h.ret == 0 || h.ret == EINVAL)
    ensures h.next <= r.next <= |text| && (h.next < |text| ==> h.next < r.next)
    ensures r.value >= h.value && (r.ret == 0 || r.ret == EINVAL)
    decreases |text| - h.next
  {
    if h.next == |text| then h
    else
      var c, step := text[h.next], h.(next := h.next + 1, c := text[h.next]);
      if IsSpace(c) then ScanDigits(text, step)
      else if h.total > 0 && c != '\0' && IsSpace(h.c) then step.(ret := EINVAL)
      else if c == '\0' || c == ',' then step
      else if !IsHexDigit(c) then step.(ret := EINVAL)
      else ScanDigits(text, step.(value := 16 * h.value + HexToBin(c), ndigits := h.ndigits + 1, total := h.total + 1))
  }

  /** The code's scan of a chunk and the chunk agree. */
  ghost predicate Matches(sc: Scan, h: HexScan) {
    && sc.ret == h.ret && sc.ndigits == h.ndigits && sc.total == h.total && sc.next == h.next && sc.c == h.c
    && Means(sc.chunk, h.value) && h.value < Pow2(CHUNK)
  }

  /** The scan finds out exactly whether the chunk, as far as it goes, has more than 32 bits. */
  lemma {:induction false} ScanMatches(text: string, sc: Scan, h: HexScan)
    requires Matches(sc, h) && h.ret == 0 && h.next <= |text|
    ensures var r, q := ScanChunk(text, sc), ScanDigits(text, h);
            if q.value < Pow2(CHUNK) then Matches(r, q) else r.ret == EOVERFLOW
    decreases |text| - h.next
  {
    hide IsSpace, IsHexDigit, HexToBin, Means, And, Not, LowMask, Or, Shl, ToWord, Pow2;
    if h.next < |text| {
      var c := text[h.next];
      var sc', h' := sc.(next := sc.next + 1, c := c), h.(next := h.next + 1, c := c);
      if IsSpace(c) {
        ScanMatches(text, sc', h');
      } else if !(h.total > 0 && c != '\0' && IsSpace(h.c)) && c != '\0' && c != ',' && IsHexDigit(c) {
        HexDigitBound(c);
        var d := HexToBin(c);
        RoomExactly(sc.chunk, h.value);
        if h.value < Pow2(CHUNK - 4) {
          DigitAppended(sc.chunk, h.value, d);
          ScanMatches(text,
              sc'.(chunk := Or(Shl(sc.chunk, 4), ToWord(d)), ndigits := sc.ndigits + 1, total := sc.total + 1),
                      h'.(value := 16 * h.value + d, ndigits := h.ndigits + 1, total := h.total + 1));
        } else {
          Sixteen();
        }
      }
    }
  }

  lemma {:induction false} HexDigitBound(c: char)
    requires IsHexDigit(c)
    ensures 0 <= HexToBin(c) < 16
  {
  }

  /**
   The chunks of a text, of any size, up to the first that is empty or in which the text goes wrong; ok says that
   there is no such chunk, and open that the text breaks off behind a comma, which the code does not notice.
   */
  datatype HexReading = HexReading(chunks: seq<nat>, ok: bool, open: bool) {
    /** The chunks without the one that is at fault. */
    ghost function Whole(): seq<nat>
      requires chunks != []
    {
      if ok then chunks else chunks[..|chunks| - 1]
    }
  }

  function HexBegin(total: nat, next: nat, c: char): HexScan { HexScan(0, 0, 0, total, next, c) }

  function Chunks(text: string, next: nat, c: char, total: nat): (rd: HexReading)
    requires next <= |text|
    ensures rd.chunks != [] && (rd.open ==> rd.ok)
    decreases |text| - next
  {
    var q := ScanDigits(text, HexBegin(total, next, c));
    if q.ret != 0 || q.ndigits == 0 then HexReading([q.value], false, false)
    else if q.next < |text| && q.c == ',' then
      var more := Chunks(text, q.next, q.c, q.total);
      HexReading([q.value] + more.chunks, more.ok, more.open)
    else HexReading([q.value], true, q.c == ',')
  }

  // ---------- The number that the chunks make ----------

  ghost function NumberFrom(acc: nat, chunks: seq<nat>): (v: nat)
    ensures v >= acc
    decreases |chunks|
  {
    if chunks == [] then acc
    else
      Grows(acc, chunks[0]);
      NumberFrom(Appended(acc, chunks[0]), chunks[1..])
  }

  /** A number with 32 more bits behind it. */
  ghost function Appended(acc: nat, v: nat): nat { Pow2(CHUNK) * acc + v }

  lemma {:induction false} Grows(acc: nat, v: nat)
    ensures Appended(acc, v) >= acc
  {
    hide Pow2;
    var p := Pow2(CHUNK);
    assert (p - 1) * acc >= 0;
  }

  ghost predicate TooBig(chunks: seq<nat>) {
    exists i :: 0 <= i < |chunks| && chunks[i] >= Pow2(CHUNK)
  }

  /** The return value: a chunk or the number they make is too large, the text is at fault, or neither. */
  ghost function Outcome(acc: nat, rd: HexReading, n: nat): int
    requires rd.chunks != []
  {
    if TooBig(rd.chunks) || NumberFrom(acc, rd.Whole()) >= Pow2(n) then EOVERFLOW
    else if !rd.ok then EINVAL
    else 0
  }

  lemma {:induction false} OutcomeOne(acc: nat, v: nat, ok: bool, open: bool, n: nat)
    ensures Outcome(acc, HexReading([v], ok, open), n)
         == if v >= Pow2(CHUNK) || (if ok then Appended(acc, v) else acc) >= Pow2(n) then EOVERFLOW
            else if !ok then EINVAL else 0
    ensures NumberFrom(acc, [v]) == Appended(acc, v)
  {
    hide Pow2, Appended;
    var rd := HexReading([v], ok, open);
    assert [v][..0] == [] && [v][1..] == [];
    assert rd.Whole() == if ok then [v] else [];
    assert TooBig(rd.chunks) <==> rd.chunks[0] >= Pow2(CHUNK);
    assert NumberFrom(acc, []) == acc && NumberFrom(Appended(acc, v), []) == Appended(acc, v);
    assert NumberFrom(acc, [v]) == Appended(acc, v);
  }

  lemma {:induction false} OutcomeCons(acc: nat, v: nat, rd: HexReading, n: nat)
    requires rd.chunks != []
    ensures Outcome(acc, HexReading([v] + rd.chunks, rd.ok, rd.open), n)
         == if v >= Pow2(CHUNK) || Appended(acc, v) >= Pow2(n) then EOVERFLOW
            else Outcome(Appended(acc, v), rd, n)
    ensures NumberFrom(acc, [v] + rd.chunks) == NumberFrom(Appended(acc, v), rd.chunks)
  {
    hide Pow2, Appended;
    var all := HexReading([v] + rd.chunks, rd.ok, rd.open);
    assert all.chunks[1..] == rd.chunks;
    assert all.Whole() == [v] + rd.Whole();
    assert ([v] + rd.Whole())[1..] == rd.Whole();
    assert NumberFrom(acc, all.Whole()) == NumberFrom(Appended(acc, v), rd.Whole());
    if i :| 0 <= i < |rd.chunks| && rd.chunks[i] >= Pow2(CHUNK) {
      assert all.chunks[i + 1] >= Pow2(CHUNK);
    }
    if v >= Pow2(CHUNK) { assert all.chunks[0] >= Pow2(CHUNK); }
    if i :| 0 <= i < |all.chunks| && all.chunks[i] >= Pow2(CHUNK) {
      if i > 0 { assert rd.chunks[i - 1] >= Pow2(CHUNK); }
    }
  }

  // ---------- The chunks that have been read ----------

  /** The chunks read so far make the number acc; the first of them is not zero. */
  ghost predicate Make(l: seq<Word>, acc: nat) {
    && (forall p: nat :: ChunksHold(l, p) <==> NBit(acc, p))
    && (l != [] ==> Fls(l[0], CHUNK) > 0)
  }

  lemma {:induction false} MakeNothing(acc: nat)
    ensures Make([], acc) <==> acc == 0
  {
    forall p: nat ensures !ChunksHold([], p) { ChunksHoldNothing(p); }
    if acc == 0 {
      forall p: nat ensures !NBit(acc, p) { NBitSmall(0, 0, p); }
    } else {
      var j := NBitLarge(acc, 0);
      assert !ChunksHold([], j);
    }
  }

  lemma {:induction false} MakeMore(l: seq<Word>, acc: nat, ch: Word, v: nat)
    requires Make(l, acc) && Means(ch, v) && v < Pow2(CHUNK)
    ensures Make(if l == [] && ch == 0 then [] else l + [ch], Appended(acc, v))
  {
    hide Bit, NBit, ChunksHold, Pow2;
    MeansZero(v);
    if l == [] { MakeNothing(acc); }
    if l == [] && ch == 0 {
      assert Pow2(CHUNK) * 0 == 0;
      MakeNothing(0);
    } else {
      forall p: nat ensures ChunksHold(l + [ch], p) <==> NBit(Appended(acc, v), p) {
        ChunksHoldSnoc(l, ch, p);
        NBitSplit(acc, v, CHUNK, p);
      }
      if l == [] {
        NonzeroBit(ch);
        var f := Ffs(ch);
        if f >= CHUNK { NBitSmall(v, CHUNK, f); }
      }
    }
  }

  /** They need more than n bits exactly if the number does. */
  lemma {:induction false} NBitsExactly(l: seq<Word>, acc: nat, n: nat)
    requires Make(l, acc)
    ensures NBits(l) > n <==> acc >= Pow2(n)
  {
    hide Bit, NBit, Pow2;
    if l == [] {
      MakeNothing(acc);
    } else {
      var f := Fls(l[0], CHUNK);
      var top := CHUNK * (|l| - 1) + (f - 1);
      assert top / CHUNK == |l| - 1 && top % CHUNK == f - 1;
      assert ChunksHold(l, top);
      if acc < Pow2(n) {
        if top >= n { NBitSmall(acc, n, top); }
      } else {
        var j := NBitLarge(acc, n);
        assert ChunksHold(l, j);
        HighestChunk(l, j);
      }
    }
  }

  lemma {:induction false} HighestChunk(l: seq<Word>, j: nat)
    requires l != [] && ChunksHold(l, j)
    ensures j <= CHUNK * (|l| - 1) + Fls(l[0], CHUNK) - 1
  {
    hide Bit;
    assert j == CHUNK * (j / CHUNK) + j % CHUNK;
    if j / CHUNK == |l| - 1 { assert j % CHUNK < Fls(l[0], CHUNK); }
  }

  // ---------- The parse of any text ----------

  lemma {:induction false} ParseIsOutcome(text: string, next: nat, c: char, total: nat, l: seq<Word>, n: nat, acc: nat)
    requires next <= |text| && Make(l, acc) && acc < Pow2(n)
    ensures var r, rd := ParseFrom(text, next, c, total, l, n), Chunks(text, next, c, total);
            r.ret == Outcome(acc, rd, n) && (r.ret == 0 ==> Make(r.chunks, NumberFrom(acc, rd.chunks)))
    decreases |text| - next
  {
    hide ScanChunk, ScanDigits, Means, Make, NBits, Outcome, NumberFrom, Pow2, Appended;
    var sc, q := ScanChunk(text, Scan(0, 0, 0, total, next, c)), ScanDigits(text, HexBegin(total, next, c));
    ChunkMatches(text, next, c, total);
    var v, rd := q.value, Chunks(text, next, c, total);
    OutcomeOne(acc, v, false, false, n);
    OutcomeOne(acc, v, true, q.c == ',', n);
    if q.ret == 0 && q.ndigits != 0 && q.next < |text| && q.c == ',' {
      OutcomeCons(acc, v, Chunks(text, q.next, q.c, q.total), n);
    }
    if v < Pow2(CHUNK) && q.ret == 0 && q.ndigits != 0 {
      var l' := if l == [] && sc.chunk == 0 then [] else l + [sc.chunk];
      MakeMore(l, acc, sc.chunk, v);
      NBitsExactly(l', Appended(acc, v), n);
      if NBits(l') <= n && q.next < |text| && q.c == ',' {
        ParseIsOutcome(text, q.next, q.c, q.total, l', n, Appended(acc, v));
      }
    }
  }

  lemma {:induction false} ChunkMatches(text: string, next: nat, c: char, total: nat)
    requires next <= |text|
    ensures var r, q := ScanChunk(text, Scan(0, 0, 0, total, next, c)), ScanDigits(text, HexBegin(total, next, c));
            if q.value < Pow2(CHUNK) then Matches(r, q) else r.ret == EOVERFLOW
  {
    MeansZero(0);
    hide ScanChunk, ScanDigits, Means, Pow2;
    ScanMatches(text, Scan(0, 0, 0, total, next, c), HexBegin(total, next, c));
  }

  ghost function HexRead(text: string): (rd: HexReading)
    ensures rd.chunks != [] && (rd.open ==> rd.ok)
  {
    Chunks(text, 0, '\0', 0)
  }

  ghost function HexParsed(text: string, n: nat): Parse { ParseFrom(text, 0, '\0', 0, [], n) }

  /**
   For every text: -EOVERFLOW if a chunk has more than 32 bits or the number that the chunks make has more than
   n, else -EINVAL if a chunk is empty or the text goes wrong in it, else 0, and then the bits are the number's.
   */
  lemma {:induction false} HexExactly(text: string, n: nat)
    ensures HexParsed(text, n).ret == Outcome(0, HexRead(text), n)
    ensures HexParsed(text, n).ret == 0 ==>
      forall p: nat :: ChunksHold(HexParsed(text, n).chunks, p) <==> NBit(NumberFrom(0, HexRead(text).chunks), p)
  {
    hide ParseFrom, Chunks, Outcome, NumberFrom;
    MakeNothing(0);
    ParseIsOutcome(text, 0, '\0', 0, [], n, 0);
  }

  /** The documentation calls chunks that are missing a grouping error; the code does not notice a last one. */
  ghost function HexDocumented(rd: HexReading, n: nat): int
    requires rd.chunks != []
  {
    if Outcome(0, rd, n) == 0 && rd.open then EINVAL else Outcome(0, rd, n)
  }

  lemma {:induction false} HexDocumentedExactly(text: string, n: nat)
    ensures HexParsed(text, n).ret == HexDocumented(HexRead(text), n) <==>
      !HexRead(text).open || TooBig(HexRead(text).chunks) || NumberFrom(0, HexRead(text).chunks) >= Pow2(n)
  {
    hide HexParsed, HexRead, NumberFrom, TooBig, Pow2;
    HexExactly(text, n);
  }

  /** A comma at the end is not noticed. */
  lemma {:induction false} HexOpenEnd(n: nat)
    requires n > 0
    ensures HexParsed("1,", n).ret == 0 && HexDocumented(HexRead("1,"), n) == EINVAL
  {
    assert HexRead("1,") == HexReading([1], true, true);
    SmallOutcome(1, true, true, n);
    HexExactly("1,", n);
  }

  /** The grouping errors that the documentation names are reported. */
  lemma {:induction false} HexGrouping(n: nat)
    requires n > 0
    ensures HexParsed("1,,5", n).ret == EINVAL && HexParsed(",44", n).ret == EINVAL
    ensures HexParsed(",", n).ret == EINVAL && HexParsed("", n).ret == EINVAL
  {
    hide HexParsed;
    assert HexRead("1,,5") == HexReading([1] + [0], false, false);
    assert HexRead(",44") == HexRead(",") == HexRead("") == HexReading([0], false, false);
    SmallOutcome(0, false, false, n);
    SmallOutcome(1, true, false, n);
    OutcomeCons(0, 1, HexReading([0], false, false), n);
    OutcomeOne(1, 0, false, false, n);
    HexExactly("1,,5", n);
    HexExactly(",44", n);
    HexExactly(",", n);
    HexExactly("", n);
  }

  lemma {:induction false} SmallOutcome(v: nat, ok: bool, open: bool, n: nat)
    requires n > 0 && v <= 1
    ensures Outcome(0, HexReading([v], ok, open), n) == if ok then 0 else EINVAL
    ensures Appended(0, v) == v && 1 < Pow2(n) && 1 < Pow2(CHUNK)
  {
    OutcomeOne(0, v, ok, open, n);
    assert Pow2(n) == 2 * Pow2(n - 1);
  }
}
