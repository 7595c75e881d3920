/** bitmap.c: the list format of a bitmap, and what reading such a list means. */
module ListSpec {
  import opened Words
  import opened Bitmap
  import opened HexSpec

  const ERANGE := -34

  /** The parser keeps numbers in unsigned 32-bit integers, which wrap around ... */
  const U32 := 0x1_0000_0000

  function Rest(v: nat, wrap: bool): nat { if wrap then v % U32 else v }

  /** ... and compares them as signed ones. */
  function AsInt(b: nat): int { if b < 0x8000_0000 then b else b - U32 }

  /** The size of a bitmap is an int. */
  const MAX_BITS := 0x7FFF_FFFF

  /** The positions from lo to hi. */
  datatype Run = Run(lo: nat, hi: nat) {
    ghost predicate Has(p: int) { lo <= p <= hi }
  }

  ghost predicate Covers(l: seq<Run>, p: int) {
    exists i :: 0 <= i < |l| && l[i].Has(p)
  }

  /** The maximal runs of set bits below n, in increasing order: no two of them touch. */
  ghost predicate RunsOf(l: seq<Run>, s: seq<Word>, n: nat) {
    && (forall p :: 0 <= p < n ==> (In(s, p) <==> Covers(l, p)))
    && (forall i :: 0 <= i < |l| ==> l[i].lo <= l[i].hi < n)
    && (forall i :: 0 <= i < |l| - 1 ==> l[i].hi + 1 < l[i + 1].lo)
  }

  // ---------- The text ----------

  function DecChar(d: nat): char
    requires d < 10
  {
    ('0' as int + d) as char
  }

  /** "%d" */
  function Dec(v: nat): (t: string)
    ensures t != ""
  {
    if v < 10 then [DecChar(v)] else Dec(v / 10) + [DecChar(v % 10)]
  }

  function RunText(r: Run): string {
    if r.lo == r.hi then Dec(r.lo) else Dec(r.lo) + "-" + Dec(r.hi)
  }

  function ListText(l: seq<Run>): string {
    if l == [] then ""
    else if |l| == 1 then RunText(l[0])
    else RunText(l[0]) + "," + ListText(l[1..])
  }

  /** text lists the maximal runs of set bits below n. */
  ghost predicate Lists(text: string, s: seq<Word>, n: nat) {
    exists l :: RunsOf(l, s, n) && text == ListText(l)
  }

  // ---------- Reading one run ----------

  predicate IsDigit(c: char) { '0' <= c <= '9' }

  /** The state of the inner loop of __bitmap_parselist, with ret set when it returns. */
  datatype ListScan = ListScan(ret: int, a: nat, b: nat, expDigit: bool, inRange: bool, total: nat, next: nat, c: char)

  /** Before a run, after total digits, the last character being c. */
  function Begin(total: nat, next: nat, c: char): ListScan {
    ListScan(0, 0, 0, true, false, total, next, c)
  }

  function AddDigit(sc: ListScan, c: char, wrap: bool): ListScan
    requires IsDigit(c)
  {
    var b := Rest(sc.b * 10 + (c as int - '0' as int), wrap);
    sc.(b := b, a := if sc.inRange then sc.a else b, expDigit := false, total := sc.total + 1)
  }

  /** The loop, with numbers that wrap around as in the code, or that do not. */
  function ScanRun(text: string, sc: ListScan, wrap: bool): (r: ListScan)
    requires sc.next <= |text|
    ensures sc.next <= r.next <= |text| && (sc.next < |text| ==> sc.next < r.next)
    decreases |text| - sc.next
  {
    if sc.next == |text| then sc
    else
      var c, step := text[sc.next], sc.(next := sc.next + 1, c := text[sc.next]);
      if IsSpace(c) then ScanRun(text, step, wrap)
      else if sc.total > 0 && c != '\0' && IsSpace(sc.c) then step.(ret := EINVAL)
      else if c == '\0' || c == ',' then step
      else if c == '-' then
        if sc.expDigit || sc.inRange then step.(ret := EINVAL)
        else ScanRun(text, step.(b := 0, inRange := true, expDigit := true), wrap)
      else if !IsDigit(c) then step.(ret := EINVAL)
      else ScanRun(text, AddDigit(step, c, wrap), wrap)
  }

  // ---------- Reading a list ----------

  datatype ListParse = ListParse(ret: int, runs: seq<Run>)

  function ParseListFrom(text: string, next: nat, c: char, total: nat, l: seq<Run>, n: nat): ListParse
    requires next <= |text|
    decreases |text| - next
  {
    var sc := ScanRun(text, Begin(total, next, c), true);
    if sc.ret != 0 then ListParse(sc.ret, l)
    else if sc.a > sc.b then ListParse(EINVAL, l)
    else if AsInt(sc.b) >= n then ListParse(ERANGE, l)
    else
      var l' := l + [Run(sc.a, sc.b)];
      if sc.next < |text| && sc.c == ',' then ParseListFrom(text, sc.next, sc.c, sc.total, l', n)
      else ListParse(0, l')
  }

  // ---------- What a text says ----------

  /** One number or range of a text; it is complete if no number is missing, for which the code takes 0. */
  datatype Item = Item(run: Run, complete: bool)

  /**
   The numbers of a text, of any size, and 0 or the error at which they end.  The reading is open if the text
   breaks off behind a comma, which the code does not notice.
   */
  datatype Reading = Reading(ret: int, items: seq<Item>, open: bool)

  function ItemOf(sc: ListScan): Item { Item(Run(sc.a, sc.b), !sc.expDigit) }

  /** What a text says, before numbers are compared with each other or with the bitmap. */
  function Items(text: string, next: nat, c: char, total: nat): (rd: Reading)
    requires next <= |text|
    ensures rd.open ==> rd.ret == 0
    decreases |text| - next
  {
    var sc := ScanRun(text, Begin(total, next, c), false);
    if sc.ret != 0 then Reading(sc.ret, [], false)
    else if sc.next < |text| && sc.c == ',' then
      var more := Items(text, sc.next, sc.c, sc.total);
      Reading(more.ret, [ItemOf(sc)] + more.items, more.open)
    else Reading(0, [ItemOf(sc)], sc.c == ',')
  }

  /** The same scan with the rests of the numbers modulo 2^32. */
  function Narrow(sc: ListScan): ListScan {
    sc.(a := sc.a % U32, b := sc.b % U32)
  }

  lemma {:induction false} RestStep(b: nat, d: nat)
    ensures (b % U32 * 10 + d) % U32 == (b * 10 + d) % U32
  {
    assert b * 10 + d == b % U32 * 10 + d + U32 * (b / U32 * 10);
  }

  lemma {:induction false} DigitNarrow(sc: ListScan, c: char)
    requires IsDigit(c)
    ensures AddDigit(Narrow(sc), c, true) == Narrow(AddDigit(sc, c, false))
    ensures AddDigit(sc, c, false).next == sc.next
  {
    RestStep(sc.b, c as int - '0' as int);
  }

  /** Numbers that wrap around are the rests of those that do not, all along the scan. */
  lemma {:induction false} ScanNarrow(text: string, sc: ListScan)
    requires sc.next <= |text|
    ensures ScanRun(text, Narrow(sc), true) == Narrow(ScanRun(text, sc, false))
    decreases |text| - sc.next
  {
    hide IsSpace, AddDigit;
    if sc.next < |text| {
      var c, step := text[sc.next], sc.(next := sc.next + 1, c := text[sc.next]);
      if IsSpace(c) {
        ScanNarrow(text, step);
      } else if c == '-' {
        ScanNarrow(text, step.(b := 0, inRange := true, expDigit := true));
      } else if IsDigit(c) {
        DigitNarrow(step, c);
        ScanNarrow(text, AddDigit(step, c, false));
      }
    }
  }

  // ---------- Printing and reading ----------

  /** t stands in text at position i. */
  ghost predicate StandsAt(text: string, i: nat, t: string) {
    i + |t| <= |text| && text[i..i + |t|] == t
  }

  /** The scan after a decimal number v, of m digits, the last of which is c. */
  function Numbered(sc: ListScan, v: nat, m: nat, c: char): ListScan {
    sc.(b := v, a := if sc.inRange then sc.a else v, expDigit := false,
        total := sc.total + m, next := sc.next + m, c := c)
  }

  lemma {:induction false} DigitStep10(text: string, sc: ListScan, d: nat)
    requires sc.next < |text| && d < 10 && text[sc.next] == DecChar(d) && !IsSpace(sc.c)
    ensures ScanRun(text, sc, false) == ScanRun(text, Numbered(sc, sc.b * 10 + d, 1, DecChar(d)), false)
    ensures !IsSpace(DecChar(d)) && DecChar(d) != ','
  {
  }

  /** Reading a printed number. */
  lemma {:induction false} ScanDec(text: string, v: nat, sc: ListScan)
    requires StandsAt(text, sc.next, Dec(v)) && sc.b == 0 && !IsSpace(sc.c)
    ensures var m := |Dec(v)|; var c := Dec(v)[m - 1];
            ScanRun(text, sc, false) == ScanRun(text, Numbered(sc, v, m, c), false) && !IsSpace(c) && c != ','
    decreases v
  {
    hide ScanRun, IsSpace, DecChar;
    var m := |Dec(v)|;
    DecLast(v);
    if v < 10 {
      assert text[sc.next..sc.next + m][0] == text[sc.next];
      DigitStep10(text, sc, v);
    } else {
      var h := Dec(v / 10);
      PrefixAt(text, sc.next, h, DecChar(v % 10));
      ScanDec(text, v / 10, sc);
      DigitStep10(text, Numbered(sc, v / 10, m - 1, h[m - 2]), v % 10);
    }
  }

  lemma {:induction false} DecLast(v: nat)
    ensures if v < 10 then Dec(v) == [DecChar(v)] else Dec(v) == Dec(v / 10) + [DecChar(v % 10)]
  {
  }

  lemma {:induction false} PrefixAt(text: string, i: nat, h: string, c: char)
    requires i + |h| + 1 <= |text| && text[i..i + |h| + 1] == h + [c]
    ensures text[i..i + |h|] == h && text[i + |h|] == c
  {
    assert text[i..i + |h|] == text[i..i + |h| + 1][..|h|];
    assert text[i + |h|] == text[i..i + |h| + 1][|h|];
  }

  /** The scan has come past position e, where a run ends, with the run from a to b. */
  ghost predicate Scanned(sc: ListScan, text: string, e: nat, a: nat, b: nat) {
    && sc.ret == 0 && sc.a == a && sc.b == b && !IsSpace(sc.c) && !sc.expDigit
    && (if e < |text| then sc.next == e + 1 && sc.c == text[e] else sc.next == e && sc.c != ',')
  }

  ghost predicate EndsAt(text: string, e: nat) {
    e <= |text| && (e < |text| ==> text[e] == ',' || text[e] == '\0')
  }

  /** The scan of a printed run, which ends at e. */
  lemma {:induction false} ScanRunText(text: string, r: Run, next: nat, c: char, total: nat, e: nat)
    requires StandsAt(text, next, RunText(r)) && !IsSpace(c)
    requires e == next + |RunText(r)| && EndsAt(text, e)
    ensures Scanned(ScanRun(text, Begin(total, next, c), false), text, e, r.lo, r.hi)
  {
    hide ScanRun, IsSpace, Dec, EndsAt, Scanned, StandsAt;
    if r.lo == r.hi {
      ScanSingle(text, r.lo, next, c, total, e);
    } else {
      RunParts(text, next, Dec(r.lo), Dec(r.hi));
      ScanPair(text, r.lo, r.hi, next, c, total, next + |Dec(r.lo)|, e);
    }
  }

  lemma {:induction false} ScanSingle(text: string, v: nat, next: nat, c: char, total: nat, e: nat)
    requires StandsAt(text, next, Dec(v)) && !IsSpace(c) && e == next + |Dec(v)| && EndsAt(text, e)
    ensures Scanned(ScanRun(text, Begin(total, next, c), false), text, e, v, v)
  {
    hide ScanRun, IsSpace, Dec, StandsAt;
    var start, x := Begin(total, next, c), Dec(v);
    ScanDec(text, v, start);
    RunEnd(text, Numbered(start, v, |x|, x[|x| - 1]));
  }

  lemma {:induction false} ScanPair(text: string, lo: nat, hi: nat, next: nat, c: char, total: nat, m: nat, e: nat)
    requires StandsAt(text, next, Dec(lo)) && m == next + |Dec(lo)| && m < |text| && text[m] == '-' && !IsSpace(c)
    requires StandsAt(text, m + 1, Dec(hi)) && e == m + 1 + |Dec(hi)| && EndsAt(text, e)
    ensures Scanned(ScanRun(text, Begin(total, next, c), false), text, e, lo, hi)
  {
    hide ScanRun, IsSpace, Dec, Scanned, EndsAt, StandsAt;
    var total' := ScanFirst(text, lo, next, c, total, m);
    ScanSecond(text, lo, hi, m + 1, total', e);
  }

  lemma {:induction false} ScanFirst(text: string, lo: nat, next: nat, c: char, total: nat, m: nat)
    returns (total': nat)
    requires StandsAt(text, next, Dec(lo)) && m == next + |Dec(lo)| && m < |text| && text[m] == '-' && !IsSpace(c)
    ensures ScanRun(text, Begin(total, next, c), false)
         == ScanRun(text, ListScan(0, lo, 0, true, true, total', m + 1, '-'), false)
  {
    hide ScanRun, IsSpace, Dec, StandsAt;
    var start, x := Begin(total, next, c), Dec(lo);
    ScanDec(text, lo, start);
    Dash(text, Numbered(start, lo, |x|, x[|x| - 1]));
    total' := total + |x|;
  }

  lemma {:induction false} ScanSecond(text: string, lo: nat, hi: nat, next: nat, total: nat, e: nat)
    requires StandsAt(text, next, Dec(hi)) && e == next + |Dec(hi)| && EndsAt(text, e)
    ensures Scanned(ScanRun(text, ListScan(0, lo, 0, true, true, total, next, '-'), false), text, e, lo, hi)
  {
    hide ScanRun, IsSpace, Dec, StandsAt;
    var start, y := ListScan(0, lo, 0, true, true, total, next, '-'), Dec(hi);
    NoSpace();
    ScanDec(text, hi, start);
    RunEnd(text, Numbered(start, hi, |y|, y[|y| - 1]));
  }

  lemma {:induction false} Dash(text: string, sc: ListScan)
    requires sc.next < |text| && text[sc.next] == '-' && !IsSpace(sc.c) && !sc.expDigit && !sc.inRange
    ensures ScanRun(text, sc, false)
         == ScanRun(text, sc.(b := 0, inRange := true, expDigit := true, next := sc.next + 1, c := '-'), false)
             && !IsSpace('-')
  {
  }

  lemma {:induction false} RunEnd(text: string, sc: ListScan)
    requires sc.next <= |text| && !IsSpace(sc.c) && (sc.next < |text| ==> text[sc.next] == ',' || text[sc.next] == '\0')
    ensures ScanRun(text, sc, false) == if sc.next == |text| then sc else sc.(next := sc.next + 1, c := text[sc.next])
    ensures !IsSpace(ScanRun(text, sc, false).c)
  {
  }

  lemma {:induction false} RunParts(text: string, i: nat, x: string, y: string)
    requires StandsAt(text, i, x + "-" + y)
    ensures StandsAt(text, i, x) && i + |x| < |text| && text[i + |x|] == '-' && StandsAt(text, i + |x| + 1, y)
  {
    var t := text[i..i + |x| + 1 + |y|];
    assert t == x + "-" + y;
    assert t[..|x|] == x && t[|x|] == '-' && t[|x| + 1..] == y;
    assert text[i..i + |x|] == t[..|x|] && text[i + |x| + 1..i + |x| + 1 + |y|] == t[|x| + 1..];
  }

  lemma {:induction false} NoSpace()
    ensures !IsSpace(',') && !IsSpace('\0') && !IsSpace('-')
  {
  }

  lemma {:induction false} NotEmpty(l: seq<Run>)
    requires l != []
    ensures ListText(l) != ""
  {
  }

  /** What stands at the front of a list's text. */
  lemma {:induction false} ListTextAt(l: seq<Run>, text: string, rest: string, next: nat)
    requires l != [] && next <= |text| && text[next..] == ListText(l) + rest && Ends(rest)
    ensures var t := RunText(l[0]);
            && StandsAt(text, next, t)
            && (if |l| > 1 then next + |t| + 1 < |text| && text[next + |t|] == ','
               && text[next + |t| + 1..] == ListText(l[1..]) + rest
                else next + |t| < |text| ==> text[next + |t|] == '\0')
  {
    hide RunText, ListText;
    ListTextIs(l);
    var t := RunText(l[0]);
    if |l| > 1 {
      var more := ListText(l[1..]);
      NotEmpty(l[1..]);
      Comma(t, more, rest);
      Split(t, "," + more + rest, text, next);
    } else {
      Split(t, rest, text, next);
    }
  }

  lemma {:induction false} ListTextIs(l: seq<Run>)
    requires l != []
    ensures ListText(l) == if |l| == 1 then RunText(l[0]) else RunText(l[0]) + "," + ListText(l[1..])
  {
  }

  lemma {:induction false} Comma(t: string, more: string, rest: string)
    ensures (t + "," + more) + rest == t + ("," + more + rest)
    ensures var tail := "," + more + rest; tail[0] == ',' && tail[1..] == more + rest
  {
    var tail := "," + more + rest;
    assert tail[1..] == more + rest;
  }

  ghost function Said(l: seq<Run>): (items: seq<Item>)
    ensures |items| == |l| && forall i :: 0 <= i < |l| ==> items[i] == Item(l[i], true)
  {
    if l == [] then [] else [Item(l[0], true)] + Said(l[1..])
  }

  /** Reading a printed list gives the same list, whatever its numbers. */
  lemma {:induction false} ListReads(l: seq<Run>, text: string, rest: string, next: nat, c: char, total: nat)
    requires l != [] && next <= |text| && text[next..] == ListText(l) + rest && Ends(rest) && !IsSpace(c)
    ensures Items(text, next, c, total) == Reading(0, Said(l), false)
    decreases |l|
  {
    hide RunText, ScanRun, ListText, Ends, IsSpace;
    NoSpace();
    ListTextAt(l, text, rest, next);
    var e := next + |RunText(l[0])|;
    ScanRunText(text, l[0], next, c, total, e);
    var sc := ScanRun(text, Begin(total, next, c), false);
    if |l| > 1 {
      ListReads(l[1..], text, rest, e + 1, ',', sc.total);
    } else {
      assert Said(l) == [Item(l[0], true)];
    }
  }

  lemma {:induction false} ListTextSnoc(l: seq<Run>, r: Run)
    ensures ListText(l + [r]) == if l == [] then RunText(r) else ListText(l) + "," + RunText(r)
    decreases |l|
  {
    hide RunText;
    if |l| > 0 {
      var m := l + [r];
      assert m[1..] == l[1..] + [r] && m[0] == l[0];
      ListTextSnoc(l[1..], r);
      if |l| > 1 {
        CommaMiddle(RunText(l[0]), ListText(l[1..]), RunText(r));
      }
    }
  }

  lemma {:induction false} CommaMiddle(a: string, b: string, c: string)
    ensures a + "," + (b + "," + c) == (a + "," + b) + "," + c
  {
  }
}
