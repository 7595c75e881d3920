/** bitmap.c: which texts the list parser accepts. */
module ListGrammar {
  import opened Words
  import opened Bitmap
  import opened HexSpec
  import opened ListSpec
  import opened ListVerdict
  import opened Grammar

  // ---------- The numbers of a field ----------

  /** The place of the first hyphen of t, or its end. */
  ghost function Dash(t: string): (k: nat)
    ensures k <= |t| && '-' !in t[..k] && (k < |t| ==> t[k] == '-')
  {
    if t == "" || t[0] == '-' then 0
    else
      var k := Dash(t[1..]) + 1;
      assert t[..k] == [t[0]] + t[1..][..k - 1];
      k
  }

  /** What stands before the hyphen, and what behind it; a field without one is both. */
  ghost function Low(t: string): string { t[..Dash(t)] }

  ghost function High(t: string): string { if Dash(t) < |t| then t[Dash(t) + 1..] else t }

  /** The numbers that a field writes; the second is missing if it has no digits. */
  ghost function FieldItem(t: string): Item {
    Item(Run(Value(Low(t), 10), Value(High(t), 10)), HasDigit(High(t), 10))
  }

  lemma {:induction false} DashIs(t: string, k: nat)
    requires k <= |t| && '-' !in t[..k] && (k < |t| ==> t[k] == '-')
    ensures Dash(t) == k
  {
    var j := Dash(t);
    assert forall i :: 0 <= i < k ==> t[i] == t[..k][i];
    assert forall i :: 0 <= i < j ==> t[i] == t[..j][i];
  }

  /** A character that is no hyphen goes to the last number. */
  lemma {:induction false} FieldItemMore(t: string, c: char)
    requires c != '-'
    ensures High(t + [c]) == High(t) + [c]
    ensures Low(t + [c]) == if '-' in t then Low(t) else t + [c]
    ensures '-' !in t ==> Low(t) == High(t) == t
    ensures '-' in t + [c] <==> '-' in t
  {
    var d, k := t + [c], Dash(t);
    if k < |t| {
      assert d[..k] == t[..k];
      DashIs(d, k);
      assert d[k + 1..] == t[k + 1..] + [c];
    } else {
      assert t[..k] == t && d[..|d|] == d;
      DashIs(d, |d|);
    }
  }

  /** Behind a hyphen the second number begins. */
  lemma {:induction false} FieldItemDash(t: string)
    requires '-' !in t
    ensures Low(t + ['-']) == t && High(t + ['-']) == "" && '-' in t + ['-']
  {
    var d := t + ['-'];
    assert d[..|t|] == t && d[|t|] == '-';
    DashIs(d, |t|);
  }

  // ---------- The scan of a field ----------

  /** The state of the scan is what the field says so far. */
  ghost predicate Says(sc: ListScan, t: string) {
    && sc.a == Value(Low(t), 10) && sc.b == Value(High(t), 10)
    && (sc.inRange <==> '-' in t) && (sc.expDigit <==> !HasDigit(High(t), 10))
  }

  /** The scan has come to position i of a field that begins at st. */
  ghost predicate At(text: string, st: nat, i: nat, sc: ListScan) {
    && st <= i <= |text| && sc.ret == 0 && sc.next == i && sc.c == (if i == 0 then '\0' else text[i - 1])
    && Says(sc, text[st..i]) && (sc.total > 0 <==> HasDigit(text[..i], 10))
    && '\0' !in text[..i] && Sound(text[..i], 10) && InField(text, st, i)
  }

  /** The scan of a field ends at e, with the result q. */
  ghost predicate Ended(text: string, st: nat, e: nat, q: ListScan) {
    && StopsAt(text, e, 10) && st <= e && InField(text, st, e)
    && Says(q, text[st..e]) && (q.total > 0 <==> HasDigit(text[..e], 10))
    && (if e == |text| then q.ret == 0 && q.next == e && q.c == (if e == 0 then '\0' else text[e - 1])
        else q.next == e + 1 && q.c == text[e]
             && q.ret == if text[e] == '\0' || Fits(text[..e], text[e], 10) then 0 else EINVAL)
  }

  lemma {:induction false} DecimalDigits(c: char)
    ensures IsDigit(c) <==> IsDigitOf(c, 10)
    ensures IsDigit(c) ==> !IsSpace(c) && c != '-' && HexToBin(c) == c as int - '0' as int
  {
  }

  lemma {:induction false} SaysBlank(sc: ListScan, t: string, c: char)
    requires Says(sc, t) && IsSpace(c)
    ensures Says(sc, t + [c])
  {
    hide HexToBin, IsSpace, IsDigitOf, HasDigit, Value, Low, High;
    NoDigits(10);
    FieldItemMore(t, c);
    DecimalDigits(c);
    DigitsMore(High(t), c, 10);
    DigitsMore(t, c, 10);
  }

  lemma {:induction false} SaysDigit(sc: ListScan, t: string, c: char)
    requires Says(sc, t) && IsDigit(c)
    ensures Says(AddDigit(sc, c, false), t + [c])
  {
    hide HexToBin, IsSpace, IsDigit, IsDigitOf, HasDigit, Value, Low, High;
    DecimalDigits(c);
    FieldItemMore(t, c);
    DigitsMore(High(t), c, 10);
    DigitsMore(t, c, 10);
  }

  lemma {:induction false} SaysDash(sc: ListScan, t: string)
    requires Says(sc, t) && !sc.inRange
    ensures Says(sc.(b := 0, inRange := true, expDigit := true), t + ['-'])
  {
    hide HasDigit, Low, High;
    LowOfNone(t);
    FieldItemDash(t);
    NoDigits(10);
    assert Value("", 10) == 0;
  }

  lemma {:induction false} LowOfNone(t: string)
    requires '-' !in t
    ensures Low(t) == High(t) == t
  {
    assert t[..|t|] == t;
    DashIs(t, |t|);
  }

  lemma {:induction false} FieldScanned(text: string, st: nat, sc: ListScan) returns (e: nat)
    requires sc.next <= |text| && At(text, st, sc.next, sc)
    ensures Ended(text, st, e, ScanRun(text, sc, false)) && sc.next <= e
    decreases |text| - sc.next
  {
    hide IsSpace, IsDigit, AddDigit, HexToBin, IsDigitOf, Sound, Value, HasDigit, Fields, Says;
    var i := sc.next;
    e := i;
    if i < |text| {
      var c, t := text[i], text[st..i];
      NextChar(text, st, i);
      DecimalDigits(c);
      DigitsMore(text[..i], c, 10);
      NoDigits(10);
      DashFits(sc, t);
      DashNoDigit();
      var step := sc.(next := i + 1, c := c);
      SaysOn(sc, step, t);
      SaysOn(sc, step.(ret := EINVAL), t);
      if IsSpace(c) {
        SaysBlank(sc, t, c);
        FieldGrows(text, st, i, 10);
        SaysOn(sc, step, t + [c]);
        e := FieldScanned(text, st, step);
      } else if !(sc.total > 0 && IsSpace(sc.c)) && c != '\0' && c != ',' {
        if c == '-' && !sc.expDigit && !sc.inRange {
          SaysDash(sc, t);
          FieldGrows(text, st, i, 10);
          var more := step.(b := 0, inRange := true, expDigit := true);
          SaysOn(sc.(b := 0, inRange := true, expDigit := true), more, t + [c]);
          e := FieldScanned(text, st, more);
        } else if IsDigit(c) {
          SaysDigit(sc, t, c);
          FieldGrows(text, st, i, 10);
          Added(sc, step, c);
          SaysOn(AddDigit(sc, c, false), AddDigit(step, c, false), t + [c]);
          e := FieldScanned(text, st, AddDigit(step, c, false));
        }
      }
    }
  }

  lemma {:induction false} DashNoDigit()
    ensures !IsDigitOf('-', 10) && !IsDigit('-') && !IsDigit('\0') && !IsDigit(',')
  {
  }

  lemma {:induction false} Added(sc: ListScan, step: ListScan, c: char)
    requires IsDigit(c) && step == sc.(next := step.next, c := step.c)
    ensures var x, y := AddDigit(sc, c, false), AddDigit(step, c, false);
            && x.a == y.a && x.b == y.b && x.inRange == y.inRange && x.expDigit == y.expDigit
            && y.ret == step.ret && y.next == step.next && y.c == step.c && y.total == step.total + 1
  {
  }

  /** Only the numbers and the two flags count. */
  lemma {:induction false} SaysOn(sc: ListScan, sc': ListScan, t: string)
    requires Says(sc, t) && sc'.a == sc.a && sc'.b == sc.b && sc'.inRange == sc.inRange && sc'.expDigit == sc.expDigit
    ensures Says(sc', t)
  {
  }

  /** The two flags tell whether a hyphen fits. */
  lemma {:induction false} DashFits(sc: ListScan, t: string)
    requires Says(sc, t)
    ensures sc.expDigit || sc.inRange <==> !('-' !in t && HasDigit(t, 10))
  {
    hide HasDigit, Value, Low, High;
    if '-' !in t { LowOfNone(t); }
  }

  // ---------- Reading a text ----------

  ghost function FieldItems(fields: seq<string>): (l: seq<Item>)
    ensures |l| == |fields| && forall i :: 0 <= i < |l| ==> l[i] == FieldItem(fields[i])
  {
    if fields == [] then [] else [FieldItem(fields[0])] + FieldItems(fields[1..])
  }

  /** The numbers of all fields that are read, but for one at which the text goes wrong. */
  ghost function ListOf(fields: seq<string>, ok: bool, open: bool): Reading
    requires fields != []
  {
    if ok then Reading(0, FieldItems(fields), open)
    else Reading(EINVAL, FieldItems(fields[..|fields| - 1]), false)
  }

  lemma {:induction false} ListOfCons(t: string, fields: seq<string>, ok: bool, open: bool)
    requires fields != []
    ensures var more := ListOf(fields, ok, open);
            ListOf([t] + fields, ok, open) == Reading(more.ret, [FieldItem(t)] + more.items, more.open)
    ensures ListOf([t], ok, open) == if ok then Reading(0, [FieldItem(t)], open) else Reading(EINVAL, [], false)
  {
    hide FieldItem;
    var l := [t] + fields;
    assert l[..|l| - 1] == [t] + fields[..|fields| - 1];
    assert FieldItems(l) == [FieldItem(t)] + FieldItems(fields);
    assert FieldItems(l[..|l| - 1]) == [FieldItem(t)] + FieldItems(fields[..|fields| - 1]);
    assert [t][..0] == [];
  }

  lemma {:induction false} ItemsAre(text: string, st: nat, c: char, total: nat)
    requires st <= |text| && (st < |text| || st == 0) && c == (if st == 0 then '\0' else text[st - 1])
    requires '\0' !in text[..st] && Sound(text[..st], 10) && LastField(text[..st]) == ""
    requires total > 0 <==> HasDigit(text[..st], 10)
    ensures var m, fields := |Fields(text[..st])| - 1, Fields(Core(text, 10));
            var ok := Sound(Body(text), 10);
            m < |fields| && Items(text, st, c, total) == ListOf(fields[m..], ok, Breaks(text) && ok)
    decreases |text| - st
  {
    hide Sound, Fields, Core, Body, Value, HasDigit, IsSpace, ScanRun, Fits, ListOf, FieldItem, Says;
    var sc, m, fields := Begin(total, st, c), |Fields(text[..st])| - 1, Fields(Core(text, 10));
    var ok := Sound(Body(text), 10);
    FieldBegins(text, st, 10);
    SaysNothing(sc);
    assert At(text, st, st, sc);
    var e := FieldScanned(text, st, sc);
    var q, t := ScanRun(text, sc, false), text[st..e];
    SaysItem(q, t);
    NotAtComma(text, st, e);
    if Over(text, e, 10) {
      CoreEnds(text, e, 10);
      assert fields[m..] == [t];
      ListOfCons(t, fields, ok, Breaks(text) && ok);
    } else {
      FieldRead(text, st, e, 10);
      assert fields[m..] == [t] + fields[m + 1..];
      ListOfCons(t, fields[m + 1..], ok, Breaks(text) && ok);
      CommaCounts(text, e, 10);
      ItemsAre(text, e + 1, ',', q.total);
    }
  }

  lemma {:induction false} SaysNothing(sc: ListScan)
    requires sc.a == sc.b == 0 && sc.expDigit && !sc.inRange
    ensures Says(sc, "")
  {
  }

  lemma {:induction false} SaysItem(sc: ListScan, t: string)
    requires Says(sc, t)
    ensures ItemOf(sc) == FieldItem(t)
  {
  }

  /** What the parser reads in a text. */
  lemma {:induction false} NumbersAre(text: string)
    ensures var ok := Sound(Body(text), 10);
            Numbers(text) == ListOf(Fields(Core(text, 10)), ok, Breaks(text) && ok)
  {
    hide Sound, Core, Body, ListOf, Items;
    NothingSound(10);
    NoDigits(10);
    assert text[..0] == "" && Fields("") == [""];
    ItemsAre(text, 0, '\0', 0);
    var fields := Fields(Core(text, 10));
    assert fields[0..] == fields;
  }

  /** The code takes a range whose rests modulo 2^32 are in order, if the upper one is below n or negative as an int. */
  predicate Taken(it: Item, n: nat) {
    var lo, hi := it.run.lo % 0x1_0000_0000, it.run.hi % 0x1_0000_0000;
    lo <= hi && (hi < n || hi >= 0x8000_0000)
  }

  lemma {:induction false} TakenIs(it: Item, n: nat)
    requires n <= MAX_BITS
    ensures Taken(it, n) <==> Verdict(it, n, true) == 0
    ensures !Taken(it, n) ==>
              Verdict(it, n, true) == if it.run.lo % 0x1_0000_0000 > it.run.hi % 0x1_0000_0000 then -22 else -34
  {
  }

  /** The numbers of the fields that are read without fault. */
  ghost function Faultless(text: string): seq<Item> {
    var l := FieldItems(Fields(Core(text, 10)));
    if Sound(Body(text), 10) then l else l[..|l| - 1]
  }

  ghost predicate AllTaken(items: seq<Item>, n: nat) {
    forall i :: 0 <= i < |items| ==> Taken(items[i], n)
  }

  /** The runs that the code makes of numbers. */
  ghost function Runs(items: seq<Item>): (l: seq<Run>)
    ensures |l| == |items|
    ensures forall i :: 0 <= i < |l| ==>
      l[i] == Run(items[i].run.lo % 0x1_0000_0000, items[i].run.hi % 0x1_0000_0000)
  {
    AllRests(items, true)
  }

  lemma {:induction false} ItemsFaultless(text: string)
    ensures Numbers(text).items == Faultless(text)
    ensures Numbers(text).ret == if Sound(Body(text), 10) then 0 else -22
  {
    hide Sound, Core, Body, Fields, Numbers, FieldItem;
    NumbersAre(text);
    var l := Fields(Core(text, 10));
    assert FieldItems(l)[..|l| - 1] == FieldItems(l[..|l| - 1]);
  }

  lemma {:induction false} AcceptedAll(items: seq<Item>, n: nat)
    requires n <= MAX_BITS
    ensures Accepted(items, n, true) == |items| <==> AllTaken(items, n)
    ensures AllTaken(items[..Accepted(items, n, true)], n)
  {
    hide Verdict, Taken;
    forall i | 0 <= i < |items| ensures Taken(items[i], n) <==> Verdict(items[i], n, true) == 0 {
      TakenIs(items[i], n);
    }
  }

  /**
   Which texts are accepted: blanks stand only before the first digit or behind all else; every field that is read
   consists of digits and at most one hyphen, which has a digit before it; and the code takes its numbers, a missing
   one as 0.
   */
  lemma {:induction false} ListAccepted(text: string, n: nat)
    requires n <= MAX_BITS
    ensures Parsed(text, n).ret == 0 <==> Sound(Body(text), 10) && AllTaken(Faultless(text), n)
    ensures Parsed(text, n).ret == 0 ==> Parsed(text, n).runs == Runs(FieldItems(Fields(Core(text, 10))))
  {
    hide Sound, Core, Body, Parsed, Numbers, FieldItems, Verdict, AllTaken;
    ItemsFaultless(text);
    ParsedIsJudged(text, n);
    var rd := Numbers(text);
    AcceptedAll(rd.items, n);
    var k := Accepted(rd.items, n, true);
    if k == |rd.items| { assert rd.items[..k] == rd.items; }
  }

  /** Any other text is -EINVAL, unless an earlier field is out of order, which is -EINVAL, or too large: -ERANGE. */
  lemma {:induction false} ListRejected(text: string, n: nat)
    requires n <= MAX_BITS
    ensures AllTaken(Faultless(text), n) && !Sound(Body(text), 10) ==> Parsed(text, n).ret == -22
    ensures !AllTaken(Faultless(text), n) ==>
              exists k :: 0 <= k < |Faultless(text)| && !Taken(Faultless(text)[k], n)
                && AllTaken(Faultless(text)[..k], n) && Parsed(text, n).runs == Runs(Faultless(text)[..k])
                && Parsed(text, n).ret
                   == (var r := Faultless(text)[k].run;
                       if r.lo % 0x1_0000_0000 > r.hi % 0x1_0000_0000 then -22 else -34)
  {
    hide Sound, Core, Body, Parsed, Numbers, FieldItems, Verdict, AllTaken, Taken;
    ItemsFaultless(text);
    ParsedIsJudged(text, n);
    var rd := Numbers(text);
    AcceptedAll(rd.items, n);
    var k := Accepted(rd.items, n, true);
    if k < |rd.items| { TakenIs(rd.items[k], n); }
  }

  /** In particular, nothing else stands in an accepted text. */
  lemma {:induction false} AcceptedChars(text: string, n: nat, i: nat)
    requires n <= MAX_BITS && Parsed(text, n).ret == 0 && i < |Body(text)|
    ensures var c := Body(text)[i]; c in "0123456789,-" || c in " \t\n\U{0B}\U{0C}\r"
    ensures IsSpace(Body(text)[i]) ==> (forall j :: 0 <= j < i ==> !IsDigit(Body(text)[j]))
                                       || forall j :: i < j < |Body(text)| ==> IsSpace(Body(text)[j])
  {
    hide Parsed, Core, Body, Sound, IsSpace, IsDigit;
    var b := Body(text);
    ListAccepted(text, n);
    SoundChars(b, 10, i);
    SpaceExactly(b[i]);
    DecimalChars(b[i]);
    if IsSpace(b[i]) { SoundBlanks(b, i); }
  }

  lemma {:induction false} DecimalChars(c: char)
    ensures IsDigitOf(c, 10) <==> c in "0123456789"
    ensures IsDigit(c) <==> c in "0123456789"
  {
  }

  lemma {:induction false} DecCharExactly(d: nat)
    requires d < 10
    ensures DecChar(d) == "0123456789"[d] && HexToBin(DecChar(d)) == d
  {
  }

  lemma {:induction false} SoundBlanks(b: string, i: nat)
    requires Sound(b, 10) && i < |b| && IsSpace(b[i])
    ensures (forall j :: 0 <= j < i ==> !IsDigit(b[j])) || forall j :: i < j < |b| ==> IsSpace(b[j])
  {
    hide IsSpace, IsDigit, IsDigitOf, FieldOk;
    if j :| 0 <= j < i && IsDigit(b[j]) {
      DecimalDigits(b[j]);
      assert IsDigitOf(b[j], 10);
    }
  }

  // ---------- What is printed ----------

  /** The decimal of a number: its digits write it, and there is no zero at the front. */
  lemma {:induction false} DecExactly(v: nat)
    ensures Value(Dec(v), 10) == v && (forall i :: 0 <= i < |Dec(v)| ==> Dec(v)[i] in "0123456789")
    ensures (Dec(v)[0] == '0' ==> v == 0) && (v < 10 ==> |Dec(v)| == 1)
    decreases v
  {
    hide DecChar, IsDigitOf, HexToBin;
    DecLast(v);
    DecCharExactly(v % 10);
    var front := if v < 10 then "" else Dec(v / 10);
    if v >= 10 { DecExactly(v / 10); }
    DecimalChars(DecChar(v % 10));
    assert Dec(v) == front + [DecChar(v % 10)];
    DigitsMore(front, DecChar(v % 10), 10);
    assert Value("", 10) == 0;
    DecZero(v % 10);
  }

  lemma {:induction false} DecZero(d: nat)
    requires d < 10
    ensures DecChar(d) == '0' <==> d == 0
  {
  }

  /** A run is printed as the two numbers with a hyphen between them, or as the one number if they are the same. */
  lemma {:induction false} RunTextExactly(r: Run)
    ensures FieldItem(RunText(r)) == Item(r, true) && ('-' in RunText(r) <==> r.lo != r.hi)
  {
    hide Dec, Value, HasDigit, Low, High;
    DecExactly(r.lo);
    DecExactly(r.hi);
    NumeralHas(Dec(r.lo));
    NumeralHas(Dec(r.hi));
    if r.lo == r.hi { LowOfNone(Dec(r.lo)); } else { TwoNumbers(Dec(r.lo), Dec(r.hi)); }
  }

  lemma {:induction false} NumeralHas(t: string)
    requires t != "" && forall i :: 0 <= i < |t| ==> t[i] in "0123456789"
    ensures HasDigit(t, 10) && '-' !in t
  {
    DecimalChars(t[0]);
  }

  lemma {:induction false} TwoNumbers(x: string, y: string)
    requires '-' !in x
    ensures Low(x + "-" + y) == x && High(x + "-" + y) == y && '-' in x + "-" + y
  {
    var t := x + "-" + y;
    assert t[|x|] == '-' && t[..|x|] == x && t[|x| + 1..] == y;
    DashIs(t, |x|);
  }
}
