/** bitmap.c: what the list parser makes of any text. */
module ListVerdict {
  import opened Words
  import opened Bitmap
  import opened HexSpec
  import opened ListSpec

  // ---------- Accepting and rejecting runs ----------

  function Rests(r: Run, code: bool): Run { Run(Rest(r.lo, code), Rest(r.hi, code)) }

  /**
   What becomes of one number or range: 0 if it is accepted.  The code takes 0 for a missing number, and compares
   what is left of the numbers modulo 2^32, as ints; the documentation asks for numbers, and for them themselves.
   */
  function Verdict(it: Item, n: nat, code: bool): int {
    var w := Rests(it.run, code);
    if !code && !it.complete then EINVAL
    else if w.lo > w.hi then EINVAL
    else if (if code then AsInt(w.hi) else w.hi) >= n then ERANGE
    else 0
  }

  /** The number of runs before the first that is not accepted. */
  ghost function Accepted(items: seq<Item>, n: nat, code: bool): (k: nat)
    ensures k <= |items| && (k < |items| ==> Verdict(items[k], n, code) != 0)
    ensures forall i :: 0 <= i < k ==> Verdict(items[i], n, code) == 0
  {
    if items == [] || Verdict(items[0], n, code) != 0 then 0 else 1 + Accepted(items[1..], n, code)
  }

  ghost function AllRests(items: seq<Item>, code: bool): (l: seq<Run>)
    ensures |l| == |items| && forall i :: 0 <= i < |l| ==> l[i] == Rests(items[i].run, code)
  {
    if items == [] then [] else [Rests(items[0].run, code)] + AllRests(items[1..], code)
  }

  /** What a parser makes of the numbers of a text: it stops at the first run it does not accept. */
  ghost function Judged(rd: Reading, n: nat, code: bool): ListParse {
    var k := Accepted(rd.items, n, code);
    var ret := if k < |rd.items| then Verdict(rd.items[k], n, code) else if !code && rd.open then EINVAL else rd.ret;
    ListParse(ret, AllRests(rd.items[..k], code))
  }

  lemma {:induction false} JudgedCons(it: Item, rd: Reading, n: nat, code: bool)
    ensures Judged(Reading(rd.ret, [it] + rd.items, rd.open), n, code)
         == if Verdict(it, n, code) != 0 then ListParse(Verdict(it, n, code), [])
            else ListParse(Judged(rd, n, code).ret, [Rests(it.run, code)] + Judged(rd, n, code).runs)
  {
    hide Verdict, Rests;
    var items := [it] + rd.items;
    assert items[1..] == rd.items;
    if Verdict(it, n, code) == 0 {
      var k := Accepted(rd.items, n, code);
      assert items[..k + 1] == [it] + rd.items[..k];
      assert items[..k + 1][1..] == rd.items[..k];
    }
  }

  /** For every text: the parser judges the numbers in it, and stops at the first error in the text. */
  lemma {:induction false} ParseIsJudged(text: string, next: nat, c: char, total: nat, before: seq<Run>, n: nat)
    requires next <= |text|
    ensures var j := Judged(Items(text, next, c, total), n, true);
            ParseListFrom(text, next, c, total, before, n) == ListParse(j.ret, before + j.runs)
    decreases |text| - next
  {
    hide ScanRun, Judged, Verdict, Rests;
    ScanNarrow(text, Begin(total, next, c));
    var sc := ScanRun(text, Begin(total, next, c), false);
    var it, r := ItemOf(sc), Run(sc.a, sc.b);
    NothingJudged(sc.ret, n, false);
    assert before + [] == before;
    if sc.ret == 0 {
      RunJudged(sc, n);
      if sc.next < |text| && sc.c == ',' {
        var more := Items(text, sc.next, sc.c, sc.total);
        ParseIsJudged(text, sc.next, sc.c, sc.total, before + [Rests(r, true)], n);
        JudgedCons(it, more, n, true);
        assert before + [Rests(r, true)] + Judged(more, n, true).runs
            == before + ([Rests(r, true)] + Judged(more, n, true).runs);
      } else {
        NothingJudged(0, n, sc.c == ',');
        JudgedCons(it, Reading(0, [], sc.c == ','), n, true);
        assert [it] + [] == [it] && [Rests(r, true)] + [] == [Rests(r, true)];
      }
    }
  }

  lemma {:induction false} NothingJudged(ret: int, n: nat, open: bool)
    ensures Judged(Reading(ret, [], open), n, true) == ListParse(ret, [])
  {
  }

  lemma {:induction false} RunJudged(sc: ListScan, n: nat)
    ensures Verdict(ItemOf(sc), n, true)
         == if Narrow(sc).a > Narrow(sc).b then EINVAL else if AsInt(Narrow(sc).b) >= n then ERANGE else 0
    ensures Rests(Run(sc.a, sc.b), true) == Run(Narrow(sc).a, Narrow(sc).b)
  {
  }

  // ---------- What the documentation says ----------

  /** What the documentation rejects first, if anything, the code rejects for the same reason. */
  ghost predicate Agreed(rd: Reading, n: nat) {
    var k := Accepted(rd.items, n, false);
    if k < |rd.items| then Verdict(rd.items[k], n, true) == Verdict(rd.items[k], n, false)
    else !rd.open
  }

  lemma {:induction false} JudgedAsDocumented(rd: Reading, n: nat)
    requires n <= MAX_BITS && (rd.open ==> rd.ret == 0)
    ensures Judged(rd, n, true) == Judged(rd, n, false) <==> Agreed(rd, n)
  {
    var k, m := Accepted(rd.items, n, false), Accepted(rd.items, n, true);
    forall i | 0 <= i < k
      ensures Verdict(rd.items[i], n, true) == 0 && Rests(rd.items[i].run, true) == rd.items[i].run
    {
      SmallRun(rd.items[i], n);
    }
    hide Verdict;
    assert k <= m;
    if m == k {
      assert AllRests(rd.items[..k], true) == AllRests(rd.items[..k], false);
    } else {
      assert Judged(rd, n, true) != Judged(rd, n, false);
    }
  }

  lemma {:induction false} SmallRun(it: Item, n: nat)
    requires n <= MAX_BITS && Verdict(it, n, false) == 0
    ensures Verdict(it, n, true) == 0 && Rests(it.run, true) == it.run && it.run.hi < n
  {
  }

  /** A number or range that is complete, and consists of ints. */
  predicate Proper(it: Item) { it.complete && it.run.lo <= MAX_BITS && it.run.hi <= MAX_BITS }

  lemma {:induction false} JudgedInts(rd: Reading, n: nat)
    requires n <= MAX_BITS && !rd.open && forall i :: 0 <= i < |rd.items| ==> Proper(rd.items[i])
    ensures Judged(rd, n, true) == Judged(rd, n, false)
  {
    hide Verdict, Judged, Proper;
    JudgedAsDocumented(rd, n);
    var k := Accepted(rd.items, n, false);
    if k < |rd.items| { IntVerdict(rd.items[k], n); }
  }

  lemma {:induction false} IntVerdict(it: Item, n: nat)
    requires Proper(it)
    ensures Verdict(it, n, true) == Verdict(it, n, false)
  {
  }

  /** The whole text, and what the parser makes of it. */
  ghost function Numbers(text: string): (rd: Reading)
    ensures rd.open ==> rd.ret == 0
  {
    Items(text, 0, '\0', 0)
  }

  ghost function Parsed(text: string, n: nat): ListParse { ParseListFrom(text, 0, '\0', 0, [], n) }

  lemma {:induction false} ParsedIsJudged(text: string, n: nat)
    ensures Parsed(text, n) == Judged(Numbers(text), n, true)
  {
    hide Judged, Items;
    ParseIsJudged(text, 0, '\0', 0, [], n);
    var j := Judged(Items(text, 0, '\0', 0), n, true);
    assert [] + j.runs == j.runs;
  }

  /**
   The documentation asks for numbers, separated by commas, and is about the numbers themselves; the code takes 0
   for a missing one, does not notice a comma at the end, and goes by the rests.  The two agree on a text if and
   only if the first thing in it that the documentation rejects is rejected by the code for the same reason.
   */
  lemma {:induction false} DocumentedExactly(text: string, n: nat)
    requires n <= MAX_BITS
    ensures Parsed(text, n) == Judged(Numbers(text), n, false) <==> Agreed(Numbers(text), n)
  {
    hide Judged, Numbers, Parsed, Verdict, Agreed;
    ParsedIsJudged(text, n);
    JudgedAsDocumented(Numbers(text), n);
  }

  /** So they agree on every text in which no number is missing and all numbers are ints. */
  lemma {:induction false} IntsAsDocumented(text: string, n: nat)
    requires n <= MAX_BITS && !Numbers(text).open && forall it :: it in Numbers(text).items ==> Proper(it)
    ensures Parsed(text, n) == Judged(Numbers(text), n, false)
  {
    hide Judged, Numbers, Parsed, Proper;
    ParsedIsJudged(text, n);
    JudgedInts(Numbers(text), n);
  }

  /** Texts in which a number is missing: the code sets bit 0, of which they do not speak. */
  lemma {:induction false} MissingNumbers(n: nat)
    requires 5 < n <= MAX_BITS
    ensures Parsed("", n) == ListParse(0, [Run(0, 0)]) && Judged(Numbers(""), n, false) == ListParse(EINVAL, [])
    ensures Parsed("0-", n) == ListParse(0, [Run(0, 0)]) && Judged(Numbers("0-"), n, false) == ListParse(EINVAL, [])
    ensures Parsed(",5", n) == ListParse(0, [Run(0, 0), Run(5, 5)])
    ensures Judged(Numbers(",5"), n, false) == ListParse(EINVAL, [])
  {
  }

  /** A comma at the end is not noticed. */
  lemma {:induction false} OpenEnd(n: nat)
    requires 5 < n <= MAX_BITS
    ensures Parsed("5,", n) == ListParse(0, [Run(5, 5)])
            && Judged(Numbers("5,"), n, false) == ListParse(EINVAL, [Run(5, 5)])
  {
  }

  // ---------- Staying within the bitmap ----------

  /** No run that the parser accepts reaches beyond the bitmap. */
  ghost predicate WithinMask(r: ListParse, n: nat) {
    forall i :: 0 <= i < |r.runs| ==> r.runs[i].hi < n
  }

  /** The rests of the run lie in order, and within the bitmap. */
  predicate Lands(it: Item, n: nat) { it.run.lo % U32 <= it.run.hi % U32 < n }

  /** The number of runs before the first that does not. */
  ghost function Landing(items: seq<Item>, n: nat): (k: nat)
    ensures k <= |items| && (k < |items| ==> !Lands(items[k], n))
    ensures forall i :: 0 <= i < k ==> Lands(items[i], n)
  {
    if items == [] || !Lands(items[0], n) then 0 else 1 + Landing(items[1..], n)
  }

  lemma {:induction false} JudgedWithin(rd: Reading, n: nat)
    requires n <= MAX_BITS
    ensures WithinMask(Judged(rd, n, true), n) <==>
      var k := Landing(rd.items, n);
      k < |rd.items| ==> rd.items[k].run.lo % U32 > rd.items[k].run.hi % U32 || rd.items[k].run.hi % U32 <= MAX_BITS
  {
    var k, m, j := Landing(rd.items, n), Accepted(rd.items, n, true), Judged(rd, n, true);
    forall i | 0 <= i < k ensures Verdict(rd.items[i], n, true) == 0 {
      LandsAccepted(rd.items[i], n);
    }
    if k < |rd.items| { LandsAccepted(rd.items[k], n); }
    hide Verdict, Lands;
    assert k <= m;
    if k < m {
      assert j.runs[k] == Rests(rd.items[k].run, true);
    } else {
      forall i | 0 <= i < |j.runs| ensures j.runs[i].hi < n {
        assert j.runs[i] == Rests(rd.items[i].run, true);
        assert Lands(rd.items[i], n);
        LandsAccepted(rd.items[i], n);
      }
    }
  }

  lemma {:induction false} LandsAccepted(it: Item, n: nat)
    requires n <= MAX_BITS
    ensures Lands(it, n) ==> Verdict(it, n, true) == 0 && Rests(it.run, true).hi < n
    ensures !Lands(it, n) ==>
            (Verdict(it, n, true) != 0 <==> it.run.lo % U32 > it.run.hi % U32 || it.run.hi % U32 <= MAX_BITS)
    ensures !Lands(it, n) && Verdict(it, n, true) == 0 ==> Rests(it.run, true).hi >= n
  {
  }

  lemma {:induction false} JudgedSmall(rd: Reading, n: nat)
    requires n <= MAX_BITS && forall i :: 0 <= i < |rd.items| ==> rd.items[i].run.hi % U32 <= MAX_BITS
    ensures WithinMask(Judged(rd, n, true), n)
  {
    JudgedWithin(rd, n);
  }

  /**
   The parser stays within the bitmap if and only if the rests of the first run that does not lie there are
   out of order, or its upper one is not negative as an int, so that it is noticed.
   */
  lemma {:induction false} WithinMaskExactly(text: string, n: nat)
    requires n <= MAX_BITS
    ensures WithinMask(Parsed(text, n), n) <==>
      var items := Numbers(text).items;
      var k := Landing(items, n);
      k < |items| ==> items[k].run.lo % U32 > items[k].run.hi % U32 || items[k].run.hi % U32 <= MAX_BITS
  {
    hide Judged, Numbers, Parsed, WithinMask;
    ParsedIsJudged(text, n);
    JudgedWithin(Numbers(text), n);
  }

  /** In particular if no upper number's rest is negative as an int. */
  lemma {:induction false} SmallRestsWithin(text: string, n: nat)
    requires n <= MAX_BITS && forall it :: it in Numbers(text).items ==> it.run.hi % U32 <= MAX_BITS
    ensures WithinMask(Parsed(text, n), n)
  {
    hide Judged, Numbers, Parsed, WithinMask;
    ParsedIsJudged(text, n);
    JudgedSmall(Numbers(text), n);
  }

  // ---------- Printed lists ----------

  /** A printed list, of any runs whatsoever, is judged by its runs. */
  lemma {:induction false} ListJudged(l: seq<Run>, n: nat, rest: string)
    requires l != [] && Ends(rest)
    ensures Parsed(ListText(l) + rest, n) == Judged(Reading(0, Said(l), false), n, true)
  {
    hide Judged, Items, ListText, Ends, Parsed;
    var text := ListText(l) + rest;
    assert text[0..] == text;
    NoSpace();
    ListReads(l, text, rest, 0, '\0', 0);
    ParsedIsJudged(text, n);
  }

  /** One number: it is its rest modulo 2^32 that counts, read as an int. */
  lemma {:induction false} NumberReads(v: nat, n: nat, rest: string)
    requires Ends(rest)
    ensures Parsed(Dec(v) + rest, n)
         == if AsInt(v % U32) >= n then ListParse(ERANGE, []) else ListParse(0, [Run(v % U32, v % U32)])
  {
    hide Dec, Ends;
    var l := [Run(v, v)];
    ListJudged(l, n, rest);
    assert l[..1] == l && l[1..] == [];
  }

  /** So one number stays within the bitmap if and only if its rest is not negative as an int. */
  lemma {:induction false} NumberWithin(v: nat, n: nat, rest: string)
    requires n <= MAX_BITS && Ends(rest)
    ensures WithinMask(Parsed(Dec(v) + rest, n), n) <==> v % U32 <= MAX_BITS
  {
    NumberReads(v, n, rest);
    var r := Run(v % U32, v % U32);
    assert [r][0] == r;
  }

  /** 2^32 is read as 0, and 2^32 - 1 is accepted although no bitmap has such a bit. */
  lemma {:induction false} LargeNumberAccepted(n: nat)
    requires 0 < n <= MAX_BITS
    ensures Parsed(Dec(U32), n) == ListParse(0, [Run(0, 0)])
    ensures Parsed(Dec(U32 - 1), n) == ListParse(0, [Run(U32 - 1, U32 - 1)])
    ensures !WithinMask(Parsed(Dec(U32 - 1), n), n)
  {
    hide Dec;
    NumberReads(U32, n, "");
    NumberReads(U32 - 1, n, "");
    NumberWithin(U32 - 1, n, "");
    assert Dec(U32) + "" == Dec(U32) && Dec(U32 - 1) + "" == Dec(U32 - 1);
  }

  // ---------- The round trip ----------

  /** Parsing a printed list of runs within the bitmap gives the same list. */
  lemma {:induction false} ListParses(l: seq<Run>, n: nat, rest: string)
    requires n <= MAX_BITS && l != [] && Ends(rest) && forall i :: 0 <= i < |l| ==> l[i].lo <= l[i].hi < n
    ensures Parsed(ListText(l) + rest, n) == ListParse(0, l)
  {
    hide ListText, Ends;
    ListJudged(l, n, rest);
    JudgedInts(Reading(0, Said(l), false), n);
    assert l[..|l|] == l;
  }

  /** The list of a bitmap that is not empty, read back, gives exactly the same bits. */
  lemma {:induction false} ListRoundTrip(l: seq<Run>, s: seq<Word>, n: nat, rest: string)
    requires n <= MAX_BITS && RunsOf(l, s, n) && Ends(rest) && exists p :: 0 <= p < n && In(s, p)
    ensures var r := Parsed(ListText(l) + rest, n);
            r.ret == 0 && WithinMask(r, n) && forall p :: 0 <= p < n ==> (Covers(r.runs, p) <==> In(s, p))
  {
    var p :| 0 <= p < n && In(s, p);
    assert Covers(l, p);
    ListParses(l, n, rest);
  }

  lemma {:induction false} FirstRunSet(l: seq<Run>, s: seq<Word>, n: nat)
    requires l != [] && RunsOf(l, s, n)
    ensures l[0].lo < n && In(s, l[0].lo)
  {
    assert l[0].Has(l[0].lo);
    assert Covers(l, l[0].lo);
  }

  /** The list of an empty bitmap is an empty text, and reading that sets bit 0. */
  lemma {:induction false} EmptyListReadsZero(s: seq<Word>, n: nat, l: seq<Run>, rest: string)
    requires n > 0 && RunsOf(l, s, n) && Ends(rest) && forall p :: 0 <= p < n ==> !In(s, p)
    ensures ListText(l) == "" && Parsed(rest, n) == ListParse(0, [Run(0, 0)])
    ensures Covers([Run(0, 0)], 0)
  {
    if l != [] { FirstRunSet(l, s, n); }
    assert [] + [Run(0, 0)] == [Run(0, 0)];
    assert [Run(0, 0)][0].Has(0);
  }

  /** So the round trip restores a bitmap if and only if the bitmap has a bit set. */
  lemma {:induction false} ListRoundTripExactly(list: string, s: seq<Word>, n: nat, rest: string)
    requires 0 < n <= MAX_BITS && Lists(list, s, n) && Ends(rest)
    ensures var r := Parsed(list + rest, n);
            && r.ret == 0 && WithinMask(r, n)
            && ((forall p :: 0 <= p < n ==> (Covers(r.runs, p) <==> In(s, p))) <==> exists p :: 0 <= p < n && In(s, p))
  {
    var l :| RunsOf(l, s, n) && list == ListText(l);
    if p :| 0 <= p < n && In(s, p) {
      ListRoundTrip(l, s, n, rest);
    } else {
      EmptyListReadsZero(s, n, l, rest);
      assert "" + rest == rest;
    }
  }
}
