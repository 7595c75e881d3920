/** bitmap.c: which texts the hex parser accepts. */
module HexGrammar {
  import opened Powers
  import opened Words
  import opened Bitmap
  import opened HexSpec
  import opened HexVerdict
  import opened Grammar

  /** The scan has come to position i of a field that begins at st. */
  ghost predicate At(text: string, st: nat, i: nat, h: HexScan) {
    && st <= i <= |text| && h.ret == 0 && h.next == i && h.c == (if i == 0 then '\0' else text[i - 1])
    && h.value == Value(text[st..i], 16) && (h.ndigits > 0 <==> HasDigit(text[st..i], 16))
    && (h.total > 0 <==> HasDigit(text[..i], 16))
    && '\0' !in text[..i] && Sound(text[..i], 16) && InField(text, st, i)
  }

  /** The scan of a field ends at e, with the result q. */
  ghost predicate Ended(text: string, st: nat, e: nat, q: HexScan) {
    && StopsAt(text, e, 16) && st <= e && InField(text, st, e)
    && q.value == Value(text[st..e], 16) && (q.ndigits > 0 <==> HasDigit(text[st..e], 16))
    && (q.total > 0 <==> HasDigit(text[..e], 16))
    && (if e == |text| then q.ret == 0 && q.next == e && q.c == (if e == 0 then '\0' else text[e - 1])
        else q.next == e + 1 && q.c == text[e]
             && q.ret == if text[e] == '\0' || Fits(text[..e], text[e], 16) then 0 else EINVAL)
  }

  lemma {:induction false} HexDigits(c: char)
    ensures IsHexDigit(c) <==> IsDigitOf(c, 16)
    ensures IsHexDigit(c) ==> !IsSpace(c) && 0 <= HexToBin(c)
  {
  }

  lemma {:induction false} FieldScanned(text: string, st: nat, h: HexScan) returns (e: nat)
    requires h.next <= |text| && At(text, st, h.next, h)
    ensures Ended(text, st, e, ScanDigits(text, h)) && h.next <= e
    decreases |text| - h.next
  {
    hide IsSpace, IsHexDigit, HexToBin, IsDigitOf, Sound, Value, HasDigit, Fields, InField;
    var i := h.next;
    e := i;
    if i < |text| {
      var c := text[i];
      NextChar(text, st, i);
      HexDigits(c);
      DigitsMore(text[..i], c, 16);
      DigitsMore(text[st..i], c, 16);
      NoDigits(16);
      var step := h.(next := i + 1, c := c);
      if IsSpace(c) {
        FieldGrows(text, st, i, 16);
        e := FieldScanned(text, st, step);
      } else if !(h.total > 0 && IsSpace(h.c)) && c != '\0' && c != ',' && IsHexDigit(c) {
        FieldGrows(text, st, i, 16);
        e := FieldScanned(text, st,
            step.(value := 16 * h.value + HexToBin(c), ndigits := h.ndigits + 1, total := h.total + 1));
      }
    }
  }

  /** Reading goes from field to field: up to one without digits, or to the end of what is read. */
  ghost function HexOf(fields: seq<string>, ok: bool, open: bool): HexReading
    requires fields != []
  {
    var v := Value(fields[0], 16);
    if !HasDigit(fields[0], 16) then HexReading([v], false, false)
    else if |fields| == 1 then HexReading([v], ok, open)
    else
      var more := HexOf(fields[1..], ok, open);
      HexReading([v] + more.chunks, more.ok, more.open)
  }

  lemma {:induction false} ChunksAre(text: string, st: nat, c: char, total: nat)
    requires st <= |text| && (st < |text| || st == 0) && c == (if st == 0 then '\0' else text[st - 1])
    requires '\0' !in text[..st] && Sound(text[..st], 16) && LastField(text[..st]) == ""
    requires total > 0 <==> HasDigit(text[..st], 16)
    ensures var m, fields := |Fields(text[..st])| - 1, Fields(Core(text, 16));
            var ok := Sound(Body(text), 16);
            m < |fields| && Chunks(text, st, c, total) == HexOf(fields[m..], ok, Breaks(text) && ok)
    decreases |text| - st
  {
    hide Sound, Fields, Core, Body, Value, HasDigit, IsSpace, ScanDigits, Fits;
    var h, m, fields := HexBegin(total, st, c), |Fields(text[..st])| - 1, Fields(Core(text, 16));
    assert At(text, st, st, h) by { FieldBegins(text, st, 16); }
    var e := FieldScanned(text, st, h);
    var q := ScanDigits(text, h);
    NotAtComma(text, st, e);
    if Over(text, e, 16) {
      CoreEnds(text, e, 16);
      assert fields[m..] == [text[st..e]];
    } else {
      FieldRead(text, st, e, 16);
      assert fields[m..] == [text[st..e]] + fields[m + 1..];
      if q.ndigits > 0 {
        CommaCounts(text, e, 16);
        ChunksAre(text, e + 1, ',', q.total);
      }
    }
  }

  /** What the parser reads in a text. */
  lemma {:induction false} HexReadIs(text: string)
    ensures var ok := Sound(Body(text), 16);
            HexRead(text) == HexOf(Fields(Core(text, 16)), ok, Breaks(text) && ok)
  {
    hide Sound, Core, Body, HexOf, Chunks;
    NothingSound(16);
    NoDigits(16);
    assert text[..0] == "" && Fields("") == [""];
    ChunksAre(text, 0, '\0', 0);
    var fields := Fields(Core(text, 16));
    assert fields[0..] == fields;
  }

  ghost function Values(fields: seq<string>): (l: seq<nat>)
    ensures |l| == |fields| && forall i :: 0 <= i < |l| ==> l[i] == Value(fields[i], 16)
  {
    if fields == [] then [] else [Value(fields[0], 16)] + Values(fields[1..])
  }

  ghost predicate AllNumbers(fields: seq<string>) {
    forall i :: 0 <= i < |fields| ==> HasDigit(fields[i], 16)
  }

  lemma {:induction false} HexOfWhole(fields: seq<string>, ok: bool, open: bool)
    requires fields != []
    ensures HexOf(fields, ok, open).ok <==> ok && AllNumbers(fields)
    ensures HexOf(fields, ok, open).ok ==> HexOf(fields, ok, open).chunks == Values(fields)
    decreases |fields|
  {
    hide HasDigit, Value;
    if |fields| == 1 {
      assert fields[1..] == [] && Values([]) == [];
    } else {
      var rest := fields[1..];
      HexOfWhole(rest, ok, open);
      assert fields == [fields[0]] + rest;
      assert AllNumbers(fields) <==> HasDigit(fields[0], 16) && AllNumbers(rest);
    }
  }

  lemma {:induction false} OutcomeZero(rd: HexReading, n: nat)
    requires rd.chunks != []
    ensures Outcome(0, rd, n) == 0 <==> rd.ok && !TooBig(rd.chunks) && NumberFrom(0, rd.chunks) < Pow2(n)
    ensures Outcome(0, rd, n) != 0 ==>
              Outcome(0, rd, n) == if TooBig(rd.chunks) || NumberFrom(0, rd.Whole()) >= Pow2(n) then -75 else -22
  {
    hide NumberFrom, TooBig, Pow2;
  }

  /**
   Which texts are accepted: blanks stand only before the first digit or behind all else, every field that is read
   consists of hex digits, of which it has at least one, no field's number has more than 32 bits, and the number that
   they make has no more than n.  Then its bits are the result.
   */
  lemma {:induction false} HexAccepted(text: string, n: nat)
    ensures var l := Fields(Core(text, 16));
            HexParsed(text, n).ret == 0 <==>
            Sound(Body(text), 16) && AllNumbers(l) && !TooBig(Values(l)) && NumberFrom(0, Values(l)) < Pow2(n)
    ensures HexParsed(text, n).ret == 0 ==> forall p: nat ::
              ChunksHold(HexParsed(text, n).chunks, p) <==> NBit(NumberFrom(0, Values(Fields(Core(text, 16)))), p)
    ensures var l, ok := Fields(Core(text, 16)), Sound(Body(text), 16);
            var rd := HexOf(l, ok, Breaks(text) && ok);
            HexParsed(text, n).ret != 0 ==>
              HexParsed(text, n).ret
                == if TooBig(rd.chunks) || NumberFrom(0, rd.Whole()) >= Pow2(n) then -75 else -22
  {
    hide HexParsed, HexRead, NumberFrom, TooBig, Pow2, Outcome, ChunksHold;
    hide Sound, Fields, Core, Body, AllNumbers, Values, HexOf;
    var l, ok := Fields(Core(text, 16)), Sound(Body(text), 16);
    HexExactly(text, n);
    HexReadIs(text);
    HexOfWhole(l, ok, Breaks(text) && ok);
    OutcomeZero(HexRead(text), n);
  }

  // ---------- Letters of either case ----------

  function LowerCase(c: char): char { if 'A' <= c <= 'Z' then (c as int + 32) as char else c }

  ghost predicate SameButCase(t: string, u: string) {
    |t| == |u| && forall i :: 0 <= i < |t| ==> LowerCase(t[i]) == LowerCase(u[i])
  }

  lemma {:induction false} CharCase(c: char, d: char)
    requires LowerCase(c) == LowerCase(d)
    ensures IsSpace(c) == IsSpace(d) && IsHexDigit(c) == IsHexDigit(d) && HexToBin(c) == HexToBin(d)
    ensures (c == '\0') == (d == '\0') && (c == ',') == (d == ',')
  {
  }

  lemma {:induction false} SameLength(t: string, u: string)
    requires SameButCase(t, u)
    ensures |t| == |u|
  {
  }

  lemma {:induction false} SameAt(t: string, u: string, i: nat)
    requires SameButCase(t, u) && i < |t|
    ensures |t| == |u| && LowerCase(t[i]) == LowerCase(u[i])
  {
  }

  ghost predicate Alike(r: Scan, q: Scan) {
    && r.ret == q.ret && r.chunk == q.chunk && r.ndigits == q.ndigits && r.total == q.total && r.next == q.next
    && LowerCase(r.c) == LowerCase(q.c)
  }

  lemma {:induction false} ScanCase(t: string, u: string, sc: Scan, d: char)
    requires SameButCase(t, u) && sc.next <= |t| && LowerCase(sc.c) == LowerCase(d)
    ensures |t| == |u| && Alike(ScanChunk(t, sc), ScanChunk(u, sc.(c := d)))
    decreases |t| - sc.next
  {
    hide IsSpace, IsHexDigit, HexToBin, LowerCase, And, Or, Not, Shl, LowMask, ToWord, SameButCase;
    CharCase(sc.c, d);
    SameLength(t, u);
    if sc.next < |t| {
      var c := t[sc.next];
      SameAt(t, u, sc.next);
      CharCase(c, u[sc.next]);
      var step := sc.(next := sc.next + 1, c := c);
      if IsSpace(c) {
        ScanCase(t, u, step, u[sc.next]);
      } else if !(sc.total > 0 && c != '\0' && IsSpace(sc.c)) && c != '\0' && c != ',' && IsHexDigit(c)
                && And(sc.chunk, Not(LowMask(CHUNK - 4))) == 0 {
        HexDigitBound(c);
        var chunk := Or(Shl(sc.chunk, 4), ToWord(HexToBin(c)));
        ScanCase(t, u, step.(chunk := chunk, ndigits := sc.ndigits + 1, total := sc.total + 1), u[sc.next]);
      }
    }
  }

  lemma {:induction false} ParseCase(t: string, u: string, next: nat, c: char, d: char, total: nat, l: seq<Word>,
                                     n: nat)
    requires SameButCase(t, u) && next <= |t| && LowerCase(c) == LowerCase(d)
    ensures ParseFrom(t, next, c, total, l, n) == ParseFrom(u, next, d, total, l, n)
    decreases |t| - next
  {
    hide ScanChunk, LowerCase, NBits;
    var start := Scan(0, 0, 0, total, next, c);
    ScanCase(t, u, start, d);
    var sc, q := ScanChunk(t, start), ScanChunk(u, Scan(0, 0, 0, total, next, d));
    assert start.(c := d) == Scan(0, 0, 0, total, next, d);
    CharCase(sc.c, q.c);
    var l' := if l == [] && sc.chunk == 0 then [] else l + [sc.chunk];
    if sc.ret == 0 && sc.ndigits != 0 && NBits(l') <= n && sc.next < |t| && sc.c == ',' {
      ParseCase(t, u, sc.next, sc.c, q.c, sc.total, l', n);
    }
  }

  /** The case of letters makes no difference to the parser, whatever the text. */
  lemma {:induction false} CaseIgnored(t: string, u: string, n: nat)
    requires SameButCase(t, u)
    ensures HexParsed(t, n) == HexParsed(u, n)
  {
    hide ParseFrom, LowerCase;
    ParseCase(t, u, 0, '\0', '\0', 0, [], n);
  }

  /** So what was printed restores the n low bits, in whatever case its digits are written. */
  lemma {:induction false} PrintedParsesAnyCase(s: seq<Word>, n: nat, rest: string, text: string)
    requires 0 < n <= BITS * |s| && Ends(rest) && SameButCase(text, Printed(s, n) + rest)
    ensures var r := HexParsed(text, n);
            r.ret == 0 && forall p :: 0 <= p < n ==> (ChunksHold(r.chunks, p) <==> In(s, p))
  {
    hide ParseFrom, Printed, SameButCase, Ends, ChunksHold, In;
    PrintedParses(s, n, rest);
    CaseIgnored(text, Printed(s, n) + rest, n);
  }

  // ---------- What is printed ----------

  /** The number of digits of chunks q down to 0, and the length of their text: there are eight to a group. */
  function Digits(q: nat, sz: nat): nat { 8 * q + (sz + 3) / 4 }

  lemma {:induction false} TextLength(s: seq<Word>, q: nat, sz: nat)
    requires CHUNK * q < BITS * |s| && 0 < sz <= CHUNK
    ensures |HexText(s, q, sz)| == Digits(q, sz) + q
    decreases q
  {
    hide Hex, ChunkOf;
    if q > 0 { TextLength(s, q - 1, CHUNK); }
  }

  /** Digit d, counted from the right, with a comma to the right of it for every eight. */
  lemma {:induction false} TextDigit(s: seq<Word>, q: nat, sz: nat, d: nat)
    requires CHUNK * q < BITS * |s| && 0 < sz <= CHUNK && d < Digits(q, sz)
    ensures |HexText(s, q, sz)| == Digits(q, sz) + q && d / 8 <= q
    ensures HexText(s, q, sz)[Digits(q, sz) + q - 1 - d - d / 8]
         == HexChar(Digit(Shr(ChunkOf(s, d / 8, if d / 8 == q then sz else CHUNK), 4 * (d % 8))))
    decreases q
  {
    hide Hex, ChunkOf, Shr, Digit, HexChar, HexText;
    TextLength(s, q, sz);
    TextUnfold(s, q, sz);
    var w := (sz + 3) / 4;
    if d >= 8 * q {
      assert d / 8 == q && d % 8 == d - 8 * q;
      HexAt(ChunkOf(s, q, sz), w, w - 1 - d % 8);
    } else {
      TextLength(s, q - 1, CHUNK);
      TextDigit(s, q - 1, CHUNK, d);
      var i := Digits(q, sz) + q - 1 - d - d / 8;
      assert HexText(s, q, sz)[i] == HexText(s, q, sz)[w..][i - w];
      assert i - w - 1 == Digits(q - 1, CHUNK) + (q - 1) - 1 - d - d / 8;
    }
  }

  lemma {:induction false} TextUnfold(s: seq<Word>, q: nat, sz: nat)
    requires CHUNK * q < BITS * |s|
    ensures var t, h := HexText(s, q, sz), Hex(ChunkOf(s, q, sz), (sz + 3) / 4);
            |h| == (sz + 3) / 4 <= |t| && forall i :: 0 <= i < |h| ==> t[i] == h[i]
    ensures q > 0 ==> HexText(s, q, sz)[(sz + 3) / 4..] == "," + HexText(s, q - 1, CHUNK)
  {
    hide Hex, ChunkOf;
  }

  /** The commas stand between groups of eight digits, counted from the right. */
  lemma {:induction false} TextComma(s: seq<Word>, q: nat, sz: nat, k: nat)
    requires CHUNK * q < BITS * |s| && 0 < sz <= CHUNK && 0 < k <= q
    ensures |HexText(s, q, sz)| == Digits(q, sz) + q && HexText(s, q, sz)[Digits(q, sz) + q - 9 * k] == ','
    decreases q
  {
    hide Hex, ChunkOf, HexText;
    TextLength(s, q, sz);
    TextLength(s, q - 1, CHUNK);
    TextUnfold(s, q, sz);
    var w, i := (sz + 3) / 4, Digits(q, sz) + q - 9 * k;
    assert HexText(s, q, sz)[i] == HexText(s, q, sz)[w..][i - w];
    if k < q { TextComma(s, q - 1, CHUNK, k); }
  }

  /** The four bits that a digit stands for. */
  lemma {:induction false} NibbleBits(w: Word, j: nat)
    requires j < 4
    ensures NBit(Digit(w), j) <==> Bit(w, j)
  {
    hide Bit, And, NBit, Digit, ToWord;
    DigitWord(w);
    DigitMeans(Digit(w), j);
    AndBit(w, 15, j);
    FifteenBit(j);
  }

  /** Digit d from the right is that of bits 4d to 4d + 3, in the lower case, for exactly the n low bits. */
  lemma {:induction false} PrintedDigit(s: seq<Word>, n: nat, d: nat) returns (v: nat)
    requires 0 < n <= BITS * |s| && 4 * d < n
    ensures v < 16 && |Printed(s, n)| == (n + 3) / 4 + (n - 1) / 32
    ensures Printed(s, n)[|Printed(s, n)| - 1 - d - d / 8] == LOWER[v]
    ensures forall j :: 0 <= j < 4 ==> (NBit(v, j) <==> 4 * d + j < n && In(s, 4 * d + j))
  {
    hide HexText, ChunkOf, Shr, Digit, HexChar, Bit, In, NBit, TopChunk, TopSize, Digits;
    TopIs(n);
    var q, sz := TopChunk(n), TopSize(n);
    var z := if d / 8 == q then sz else CHUNK;
    Place(n, q, sz, d);
    TextDigit(s, q, sz, d);
    v := Digit(Shr(ChunkOf(s, d / 8, z), 4 * (d % 8)));
    DigitExactly(HexChar(v), v);
    forall j: nat | j < 4 ensures NBit(v, j) <==> 4 * d + j < n && In(s, 4 * d + j) {
      DigitBit(s, d, z, j);
      PlaceBit(n, q, sz, d, j);
    }
  }

  lemma {:induction false} TopIs(n: nat)
    requires n > 0
    ensures var q, sz := TopChunk(n), TopSize(n);
            0 < sz <= CHUNK && n == CHUNK * q + sz && Digits(q, sz) == (n + 3) / 4 && q == (n - 1) / 32
  {
  }

  lemma {:induction false} Place(n: nat, q: nat, sz: nat, d: nat)
    requires n == CHUNK * q + sz && sz <= CHUNK && 4 * d < n
    ensures d < Digits(q, sz) && d / 8 <= q
  {
  }

  lemma {:induction false} PlaceBit(n: nat, q: nat, sz: nat, d: nat, j: nat)
    requires n == CHUNK * q + sz && sz <= CHUNK && 4 * d < n && j < 4
    ensures 4 * (d % 8) + j < (if d / 8 == q then sz else CHUNK) <==> 4 * d + j < n
  {
    assert d == 8 * (d / 8) + d % 8;
  }

  lemma {:induction false} DigitBit(s: seq<Word>, d: nat, z: nat, j: nat)
    requires CHUNK * (d / 8) < BITS * |s| && z <= CHUNK && j < 4
    ensures NBit(Digit(Shr(ChunkOf(s, d / 8, z), 4 * (d % 8))), j) <==> 4 * (d % 8) + j < z && In(s, 4 * d + j)
  {
    hide ChunkOf, Shr, Digit, Bit, In, NBit;
    var ch := ChunkOf(s, d / 8, z);
    NibbleBits(Shr(ch, 4 * (d % 8)), j);
    ShrBit(ch, 4 * (d % 8), j);
    ChunkBit(s, d / 8, z, 4 * (d % 8) + j);
    Split8(d, j);
  }

  lemma {:induction false} Split8(d: nat, j: nat)
    ensures CHUNK * (d / 8) + (4 * (d % 8) + j) == 4 * d + j
  {
    assert d == 8 * (d / 8) + d % 8;
  }

  /** What is not a digit is a comma. */
  lemma {:induction false} PrintedComma(s: seq<Word>, n: nat, k: nat)
    requires 0 < n <= BITS * |s| && 0 < k <= (n - 1) / 32
    ensures |Printed(s, n)| == (n + 3) / 4 + (n - 1) / 32 >= 9 * k && Printed(s, n)[|Printed(s, n)| - 9 * k] == ','
  {
    hide HexText, TopChunk, TopSize, Digits;
    TopIs(n);
    TextLength(s, TopChunk(n), TopSize(n));
    TextComma(s, TopChunk(n), TopSize(n), k);
  }
}
