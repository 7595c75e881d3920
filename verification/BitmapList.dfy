/** bitmap.c: printing a bitmap as a list of runs, and reading it back. */
module BitmapList {
  import opened Words
  import opened Bitmap
  import opened FindBit
  import opened HexSpec
  import opened ListSpec
  import opened ListVerdict
  import opened Grammar
  import opened ListGrammar
  import opened Ranks

  /** bscnl_emit */
  method Emit(buf: string, rbot: nat, rtop: nat) returns (buf': string)
    ensures buf' == (if buf == "" then "" else buf + ",") + RunText(Run(rbot, rtop))
  {
    buf' := buf;
    if |buf| > 0 {
      buf' := buf' + ",";
    }
    if rbot == rtop {
      buf' := buf' + Dec(rbot);
    } else {
      buf' := buf' + (Dec(rbot) + "-" + Dec(rtop));
    }
  }

  /** The runs of l are the maximal runs of what is set below b; none of them reaches b. */
  ghost predicate RunsBelow(l: seq<Run>, s: seq<Word>, b: nat) {
    && (forall p :: 0 <= p < b ==> (In(s, p) <==> Covers(l, p)))
    && (forall i :: 0 <= i < |l| ==> l[i].lo <= l[i].hi && l[i].hi + 1 < b)
    && (forall i :: 0 <= i < |l| - 1 ==> l[i].hi + 1 < l[i + 1].lo)
  }

  lemma {:induction false} CoversSnoc(l: seq<Run>, r: Run, p: int)
    ensures Covers(l + [r], p) <==> Covers(l, p) || r.Has(p)
  {
    var m := l + [r];
    if Covers(l, p) {
      var i :| 0 <= i < |l| && l[i].Has(p);
      assert m[i].Has(p);
    }
    if r.Has(p) { assert m[|l|].Has(p); }
  }

  /** A run has ended: the next set bit lies beyond the bit behind it. */
  lemma {:induction false} RunEnds(l: seq<Run>, s: seq<Word>, lo: nat, hi: nat, next: nat)
    requires RunsBelow(l, s, lo) && lo <= hi && hi + 1 < next
    requires (forall p :: lo <= p <= hi ==> In(s, p)) && forall p :: hi < p < next ==> !In(s, p)
    ensures RunsBelow(l + [Run(lo, hi)], s, next)
  {
    hide In;
    forall p | 0 <= p < next ensures In(s, p) <==> Covers(l + [Run(lo, hi)], p) {
      CoversSnoc(l, Run(lo, hi), p);
      if p >= lo { NotCovered(l, s, lo, p); }
    }
  }

  lemma {:induction false} NotCovered(l: seq<Run>, s: seq<Word>, b: nat, p: int)
    requires RunsBelow(l, s, b) && p >= b
    ensures !Covers(l, p)
  {
  }

  /** The last run may reach the end of the bitmap. */
  lemma {:induction false} LastRun(l: seq<Run>, s: seq<Word>, lo: nat, hi: nat, n: nat)
    requires RunsBelow(l, s, lo) && lo <= hi < n
    requires (forall p :: lo <= p <= hi ==> In(s, p)) && forall p :: hi < p < n ==> !In(s, p)
    ensures RunsOf(l + [Run(lo, hi)], s, n)
  {
    hide In;
    forall p | 0 <= p < n ensures In(s, p) <==> Covers(l + [Run(lo, hi)], p) {
      CoversSnoc(l, Run(lo, hi), p);
      if p >= lo { NotCovered(l, s, lo, p); }
    }
  }

  lemma {:induction false} NoRuns(s: seq<Word>, n: nat, b: nat)
    requires IsNext(s, true, n, 0, b) && b <= n
    ensures RunsBelow([], s, b) && (b == n ==> RunsOf([], s, n))
  {
  }

  lemma {:induction false} RunTextLength(l: seq<Run>, r: Run)
    ensures RunText(r) != "" && (l != [] ==> ListText(l) != "")
  {
  }

  /** bitmap_scnlistprintf into a buffer that is large enough. */
  method Scnlistprintf(maskp: array<Word>, nmaskbits: nat) returns (buf: string)
    requires nmaskbits <= BITS * maskp.Length
    ensures Lists(buf, maskp[..], nmaskbits)
  {
    hide In, IsNext, RunsBelow, RunsOf, RunText, ListText;
    ghost var s := maskp[..];
    buf := "";
    ghost var runs: seq<Run> := [];
    var cur := FindFirstBit(maskp, nmaskbits);
    var rbot := cur;
    FirstNext(s, nmaskbits, cur);
    NoRuns(s, nmaskbits, cur);
    EmptyText();
    while cur < nmaskbits
      invariant 0 <= rbot <= cur && buf == ListText(runs)
      invariant cur < nmaskbits ==> RunsBelow(runs, s, rbot) && forall p :: rbot <= p <= cur ==> In(s, p)
      invariant cur >= nmaskbits ==> RunsOf(runs, s, nmaskbits)
      decreases nmaskbits - cur
    {
      var rtop := cur;
      cur := FindNextBit(maskp, nmaskbits, cur + 1);
      GapNext(s, nmaskbits, rtop + 1, cur);
      if cur >= nmaskbits || cur > rtop + 1 {
        ListTextSnoc(runs, Run(rbot, rtop));
        RunTextLength(runs, Run(rbot, rtop));
        buf := Emit(buf, rbot, rtop);
        if cur >= nmaskbits {
          LastRun(runs, s, rbot, rtop, nmaskbits);
        } else {
          RunEnds(runs, s, rbot, rtop, cur);
        }
        runs := runs + [Run(rbot, rtop)];
        rbot := cur;
      }
    }
  }

  lemma {:induction false} EmptyText()
    ensures ListText([]) == ""
  {
  }

  lemma {:induction false} FirstNext(s: seq<Word>, n: nat, cur: nat)
    requires IsNext(s, true, n, 0, cur)
    ensures cur <= n && (cur < n ==> In(s, cur))
  {
  }

  lemma {:induction false} GapNext(s: seq<Word>, n: nat, from: nat, cur: nat)
    requires IsNext(s, true, n, from, cur) && from <= n
    ensures from <= cur <= n && (cur < n ==> In(s, cur)) && forall p :: from <= p < cur ==> !In(s, p)
  {
  }

  // ---------- Parsing ----------

  /** The inner loop of __bitmap_parselist: one number or range. */
  method ReadRun(text: string, from: nat, c0: char, total0: nat) returns (sc: ListScan)
    requires from <= |text|
    ensures sc == ScanRun(text, Begin(total0, from, c0), true)
  {
    hide IsSpace;
    ghost var start := Begin(total0, from, c0);
    sc := Begin(total0, from, c0);
    while sc.next < |text|
      invariant sc.next <= |text| && sc.ret == 0 && ScanRun(text, start, true) == ScanRun(text, sc, true)
      decreases |text| - sc.next
    {
      var last, c := sc.c, text[sc.next];
      sc := sc.(next := sc.next + 1, c := c);
      if IsSpace(c) {
        continue;
      }
      if sc.total > 0 && c != '\0' && IsSpace(last) {
        return sc.(ret := EINVAL);
      }
      if c == '\0' || c == ',' {
        return;
      }
      if c == '-' {
        if sc.expDigit || sc.inRange {
          return sc.(ret := EINVAL);
        }
        sc := sc.(b := 0, inRange := true, expDigit := true);
        continue;
      }
      if !IsDigit(c) {
        return sc.(ret := EINVAL);
      }
      sc := AddDigit(sc, c, true);
    }
  }

  lemma {:induction false} RunsGrow(text: string, next: nat, c: char, total: nat, l: seq<Run>, n: nat)
    requires next <= |text|
    ensures l <= ParseListFrom(text, next, c, total, l, n).runs
    decreases |text| - next
  {
    hide ScanRun;
    var sc := ScanRun(text, Begin(total, next, c), true);
    if sc.next < |text| && next < sc.next { RunsGrow(text, sc.next, sc.c, sc.total, l + [Run(sc.a, sc.b)], n); }
  }

  /** A run that is accepted is among those of the whole text. */
  lemma {:induction false} AcceptedRun(text: string, next: nat, c: char, total: nat, l: seq<Run>, sc: ListScan, n: nat)
    requires next <= |text| && sc == ScanRun(text, Begin(total, next, c), true)
    requires sc.ret == 0 && sc.a <= sc.b && AsInt(sc.b) < n
    ensures l + [Run(sc.a, sc.b)] <= ParseListFrom(text, next, c, total, l, n).runs
  {
    hide ScanRun;
    var more := l + [Run(sc.a, sc.b)];
    if sc.next < |text| && sc.c == ',' { RunsGrow(text, sc.next, sc.c, sc.total, more, n); }
  }

  lemma {:induction false} Outside(l: seq<Run>, r: Run, whole: ListParse, n: nat)
    requires l + [r] <= whole.runs && r.hi >= n
    ensures !WithinMask(whole, n) && l <= whole.runs && |l| < |whole.runs|
  {
    assert whole.runs[|l|] == (l + [r])[|l|] == r;
  }

  /** The bits of a bitmap are the runs of l. */
  ghost predicate Holds(s: seq<Word>, l: seq<Run>, n: nat) {
    forall p :: 0 <= p < n ==> (In(s, p) <==> Covers(l, p))
  }

  /**
   __bitmap_parselist.  Where the source would set a bit beyond the bitmap, the model stops and reports that
   it did not stay inside: what happens then depends on what lies there.
   */
  method BitmapParselist(text: string, maskp: array<Word>, nmaskbits: nat) returns (ret: int, inside: bool)
    requires 0 < nmaskbits <= BITS * maskp.Length
    modifies maskp
    ensures inside <==> WithinMask(Parsed(text, nmaskbits), nmaskbits)
    ensures inside ==>
      var r := Parsed(text, nmaskbits);
      ret == r.ret && Holds(maskp[..], r.runs, nmaskbits)
    ensures inside && nmaskbits <= MAX_BITS ==>
              (ret == 0 <==> Sound(Body(text), 10) && AllTaken(Faultless(text), nmaskbits))
    ensures !inside ==>
      var r := Parsed(text, nmaskbits);
      exists k :: 0 <= k < |r.runs| && r.runs[k].hi >= nmaskbits && Holds(maskp[..], r.runs[..k], nmaskbits)
  {
    hide In, ScanRun, Sound, Body, Faultless, AllTaken;
    if nmaskbits <= MAX_BITS { ListAccepted(text, nmaskbits); }
    Zero(maskp, nmaskbits);
    var total, c, next := 0, '\0', 0;
    ghost var l: seq<Run> := [];
    ghost var whole := Parsed(text, nmaskbits);
    inside := true;
    while true
      invariant 0 <= next <= |text| && 0 <= total && inside
      invariant Holds(maskp[..], l, nmaskbits) && WithinMask(ListParse(0, l), nmaskbits)
      invariant whole == ParseListFrom(text, next, c, total, l, nmaskbits)
      decreases |text| - next
    {
      var sc := ReadRun(text, next, c, total);
      if sc.ret != 0 {
        return sc.ret, true;
      }
      if !(sc.a <= sc.b) {
        return EINVAL, true;
      }
      if AsInt(sc.b) >= nmaskbits {
        return ERANGE, true;
      }
      AcceptedRun(text, next, c, total, l, sc, nmaskbits);
      if sc.b >= nmaskbits {
        Outside(l, Run(sc.a, sc.b), whole, nmaskbits);
        assert whole.runs[..|l|] == l;
        return 0, false;
      }
      SetRun(maskp, sc.a, sc.b, l);
      l := l + [Run(sc.a, sc.b)];
      c, total := sc.c, sc.total;
      if !(sc.next < |text| && sc.c == ',') {
        return 0, true;
      }
      next := sc.next;
    }
  }

  method SetRun(maskp: array<Word>, lo: nat, hi: nat, ghost l: seq<Run>)
    requires lo <= hi < BITS * maskp.Length
    modifies maskp
    ensures forall p :: In(maskp[..], p) <==> In(old(maskp[..]), p) || Run(lo, hi).Has(p)
    ensures forall p :: Covers(l + [Run(lo, hi)], p) <==> Covers(l, p) || Run(lo, hi).Has(p)
  {
    hide In;
    var a := lo;
    while a <= hi
      invariant lo <= a <= hi + 1
      invariant forall p :: In(maskp[..], p) <==> In(old(maskp[..]), p) || lo <= p < a
    {
      SetBit(maskp, a);
      a := a + 1;
    }
    forall p ensures Covers(l + [Run(lo, hi)], p) <==> Covers(l, p) || Run(lo, hi).Has(p) {
      CoversSnoc(l, Run(lo, hi), p);
    }
  }
}
