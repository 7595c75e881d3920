/** bitmap.c: the texts that its two parsers read. */
module Grammar {
  import opened HexSpec

  // ---------- Characters ----------

  const LOWER := "0123456789abcdef"
  const UPPER := "0123456789ABCDEF"

  /** Each digit has its value in either case, and is printed in the lower one. */
  lemma {:induction false} DigitExactly(c: char, d: nat)
    requires d < 16
    ensures HexToBin(c) == d <==> c == LOWER[d] || c == UPPER[d]
    ensures HexChar(d) == LOWER[d]
  {
    if d < 4 {} else if d < 8 {} else if d < 12 {} else {}
  }

  lemma {:induction false} NoDigitExactly(c: char)
    ensures IsHexDigit(c) <==> c in LOWER || c in UPPER
    ensures HexToBin(c) == -1 <==> !IsHexDigit(c)
    ensures -1 <= HexToBin(c) < 16
  {
    if IsHexDigit(c) {
      DigitExactly(c, HexToBin(c));
    } else {
      forall d: nat | d < 16 ensures c != LOWER[d] && c != UPPER[d] { DigitExactly(c, d); }
    }
  }

  lemma {:induction false} SpaceExactly(c: char)
    ensures IsSpace(c) <==> c in " \t\n\U{0B}\U{0C}\r"
  {
  }

  /** The digits of base 10 or base 16. */
  predicate IsDigitOf(c: char, base: nat) { 0 <= HexToBin(c) < base }

  lemma {:induction false} Apart(c: char, base: nat)
    requires IsDigitOf(c, base)
    ensures !IsSpace(c) && c != ',' && c != '-' && c != '\0'
  {
  }

  // ---------- Fields ----------

  /** A text ends at its first NUL, or where the buffer ends. */
  ghost function Body(text: string): (b: string)
    ensures b <= text && '\0' !in b && (|b| < |text| ==> text[|b|] == '\0')
  {
    if text == "" || text[0] == '\0' then "" else [text[0]] + Body(text[1..])
  }

  /** b, cut at its commas. */
  ghost function Fields(b: string): (l: seq<string>)
    ensures l != []
  {
    if b == "" then [""]
    else
      var l, c := Fields(b[..|b| - 1]), b[|b| - 1];
      if c == ',' then l + [""] else l[..|l| - 1] + [l[|l| - 1] + [c]]
  }

  ghost function LastField(b: string): string {
    var l := Fields(b);
    l[|l| - 1]
  }

  ghost function Join(l: seq<string>): string
    requires l != []
  {
    if |l| == 1 then l[0] else Join(l[..|l| - 1]) + "," + l[|l| - 1]
  }

  /** The fields hold no commas, and with a comma between any two of them they are the text. */
  lemma {:induction false} FieldsJoin(b: string)
    ensures Join(Fields(b)) == b && forall i :: 0 <= i < |Fields(b)| ==> ',' !in Fields(b)[i]
    decreases |b|
  {
    if b != "" {
      var a, c := b[..|b| - 1], b[|b| - 1];
      FieldsJoin(a);
      var l, m := Fields(a), Fields(b);
      if c == ',' {
        assert m[..|m| - 1] == l;
      } else if |l| > 1 {
        assert m[..|m| - 1] == l[..|l| - 1];
      }
      assert a + [c] == b;
    }
  }

  lemma {:induction false} FieldsMore(b: string, c: char)
    ensures Fields(b + [c]) ==
              if c == ',' then Fields(b) + [""] else Fields(b)[..|Fields(b)| - 1] + [LastField(b) + [c]]
    ensures LastField(b + [c]) == if c == ',' then "" else LastField(b) + [c]
  {
    assert (b + [c])[..|b|] == b;
  }

  /** All fields but the last stay as they are, whatever follows; behind a comma, that one stays as well. */
  lemma {:induction false} FieldsStay(b: string, x: string)
    ensures |Fields(b)| <= |Fields(b + x)|
    ensures var k := |Fields(b)| - 1; Fields(b + x)[..k] == Fields(b)[..k]
    decreases |x|
  {
    hide Fields;
    if x == "" {
      assert b + x == b;
    } else {
      var y, c, k := x[..|x| - 1], x[|x| - 1], |Fields(b)| - 1;
      FieldsStay(b, y);
      FieldsMore(b + y, c);
      assert b + x == b + y + [c];
      var l, m := Fields(b + y), Fields(b + x);
      assert m[..|l| - 1] == l[..|l| - 1];
      assert m[..k] == m[..|l| - 1][..k] && l[..k] == l[..|l| - 1][..k];
    }
  }

  // ---------- What may stand in a text ----------

  ghost predicate HasDigit(t: string, base: nat) {
    exists i :: 0 <= i < |t| && IsDigitOf(t[i], base)
  }

  /** The number that the digits of t write. */
  ghost function Value(t: string, base: nat): nat {
    if t == "" then 0
    else
      var v, c := Value(t[..|t| - 1], base), t[|t| - 1];
      if IsDigitOf(c, base) then base * v + HexToBin(c) else v
  }

  /** Behind the first digit, blanks stand only at the end. */
  ghost predicate BlanksOutside(b: string, base: nat) {
    forall i, j, k :: 0 <= i < j < k < |b| && IsDigitOf(b[i], base) && IsSpace(b[j]) ==> IsSpace(b[k])
  }

  /** The first hyphen of a list's field, which has a digit before it. */
  ghost predicate HyphenAt(t: string, i: nat)
    requires i < |t|
  {
    t[i] == '-' && '-' !in t[..i] && HasDigit(t[..i], 10)
  }

  /** One field: blanks, digits, and in a list at most one hyphen. */
  ghost predicate FieldOk(t: string, base: nat) {
    forall i :: 0 <= i < |t| ==> IsSpace(t[i]) || IsDigitOf(t[i], base) || (base == 10 && HyphenAt(t, i))
  }

  ghost predicate Sound(b: string, base: nat) {
    BlanksOutside(b, base) && forall i :: 0 <= i < |Fields(b)| ==> FieldOk(Fields(b)[i], base)
  }

  /** The longest front of b that is sound. */
  ghost function Front(b: string, base: nat): (g: string)
    ensures g <= b && Sound(g, base) && (|g| < |b| ==> !Sound(b[..|g| + 1], base))
  {
    if Sound(b, base) then b
    else
      NothingSound(base);
      var g := Front(b[..|b| - 1], base);
      assert |g| < |b| - 1 ==> b[..|b| - 1][..|g| + 1] == b[..|g| + 1];
      assert b[..|b|] == b;
      g
  }

  lemma {:induction false} NothingSound(base: nat)
    ensures Sound("", base)
  {
  }

  /** What may stand behind b. */
  ghost predicate Fits(b: string, c: char, base: nat) {
    || IsSpace(c)
    || (&& !(HasDigit(b, base) && IsSpace(b[|b| - 1]))
        && (c == ',' || IsDigitOf(c, base)
            || (base == 10 && c == '-' && '-' !in LastField(b) && HasDigit(LastField(b), 10))))
  }

  lemma {:induction false} BlanksKept(b: string, c: char, base: nat)
    requires BlanksOutside(b + [c], base)
    ensures BlanksOutside(b, base) && (IsSpace(c) || !(HasDigit(b, base) && IsSpace(b[|b| - 1])))
  {
    hide IsSpace, IsDigitOf;
    var d := b + [c];
    forall i, j, k | 0 <= i < j < k < |b| && IsDigitOf(b[i], base) && IsSpace(b[j]) ensures IsSpace(b[k]) {
      assert d[i] == b[i] && d[j] == b[j] && d[k] == b[k];
    }
    if HasDigit(b, base) && IsSpace(b[|b| - 1]) {
      var i :| 0 <= i < |b| && IsDigitOf(b[i], base);
      Apart(b[i], base);
      assert IsDigitOf(d[i], base) && IsSpace(d[|b| - 1]) && d[|b|] == c;
    }
  }

  lemma {:induction false} BlanksAdded(b: string, c: char, base: nat)
    requires BlanksOutside(b, base) && (IsSpace(c) || !(HasDigit(b, base) && IsSpace(b[|b| - 1])))
    ensures BlanksOutside(b + [c], base)
  {
    hide IsSpace, IsDigitOf;
    var d := b + [c];
    forall i, j, k | 0 <= i < j < k < |d| && IsDigitOf(d[i], base) && IsSpace(d[j]) ensures IsSpace(d[k]) {
      assert d[i] == b[i] && d[j] == b[j];
      if k < |b| {
        assert d[k] == b[k];
      } else if j < |b| - 1 {
        assert IsSpace(b[|b| - 1]);
      }
    }
  }

  lemma {:induction false} BlanksMore(b: string, c: char, base: nat)
    ensures BlanksOutside(b + [c], base)
       <==> BlanksOutside(b, base) && (IsSpace(c) || !(HasDigit(b, base) && IsSpace(b[|b| - 1])))
  {
    hide BlanksOutside, IsSpace;
    if BlanksOutside(b + [c], base) {
      BlanksKept(b, c, base);
    } else if BlanksOutside(b, base) && (IsSpace(c) || !(HasDigit(b, base) && IsSpace(b[|b| - 1]))) {
      BlanksAdded(b, c, base);
    }
  }

  lemma {:induction false} FieldMore(t: string, c: char, base: nat)
    ensures FieldOk(t + [c], base) <==>
            FieldOk(t, base)
            && (IsSpace(c) || IsDigitOf(c, base) || (base == 10 && c == '-' && '-' !in t && HasDigit(t, 10)))
  {
    hide IsSpace, IsDigitOf, HasDigit;
    var d := t + [c];
    assert d[..|t|] == t;
    assert forall i :: 0 <= i < |t| ==> d[i] == t[i] && d[..i] == t[..i];
    assert forall i :: 0 <= i < |t| ==> HyphenAt(d, i) == HyphenAt(t, i);
    if FieldOk(d, base) {
      assert IsSpace(d[|t|]) || IsDigitOf(d[|t|], base) || (base == 10 && HyphenAt(d, |t|));
    }
  }

  lemma {:induction false} SoundMore(b: string, c: char, base: nat)
    ensures Sound(b + [c], base) <==> Sound(b, base) && Fits(b, c, base)
  {
    hide IsSpace, IsDigitOf, HasDigit, BlanksOutside, FieldOk;
    BlanksMore(b, c, base);
    FieldsMore(b, c);
    var l, m, k := Fields(b), Fields(b + [c]), |Fields(b)| - 1;
    FieldMore(l[k], c, base);
    EmptyOk(base);
    Comma();
    assert forall i :: 0 <= i < k ==> m[i] == l[i];
    if c == ',' {
      assert m[k] == l[k] && m[k + 1] == "";
      if IsDigitOf(c, base) { Apart(c, base); }
    } else {
      assert m[k] == l[k] + [c];
    }
  }

  lemma {:induction false} EmptyOk(base: nat)
    ensures FieldOk("", base)
  {
  }

  lemma {:induction false} Comma()
    ensures !IsSpace(',')
  {
  }

  /** A front of what is sound is sound. */
  lemma {:induction false} SoundFront(b: string, x: string, base: nat)
    requires Sound(b + x, base)
    ensures Sound(b, base)
    decreases |x|
  {
    if x == "" {
      assert b + x == b;
    } else {
      var y, c := x[..|x| - 1], x[|x| - 1];
      assert b + x == b + y + [c];
      SoundMore(b + y, c, base);
      SoundFront(b, y, base);
    }
  }

  /** Nothing else stands in a sound text. */
  lemma {:induction false} SoundChars(b: string, base: nat, i: nat)
    requires Sound(b, base) && i < |b|
    ensures IsSpace(b[i]) || IsDigitOf(b[i], base) || b[i] == ',' || (base == 10 && b[i] == '-')
  {
    hide Sound, IsSpace, IsDigitOf;
    assert b == b[..i] + [b[i]] + b[i + 1..];
    SoundFront(b[..i] + [b[i]], b[i + 1..], base);
    SoundMore(b[..i], b[i], base);
  }

  // ---------- What is read ----------

  /** The text breaks off behind a comma: there is no NUL, and the parsers do not look for another field. */
  ghost predicate Breaks(text: string) {
    text != "" && '\0' !in text && text[|text| - 1] == ','
  }

  /** What is read of a text: as far as it is sound, and without a comma at which it breaks off. */
  ghost function Core(text: string, base: nat): (g: string)
    ensures g <= text
  {
    var b := Body(text);
    if !Sound(b, base) then Front(b, base) else if Breaks(text) then b[..|b| - 1] else b
  }

  /** The text has been read up to e, where a field ends. */
  ghost predicate StopsAt(text: string, e: nat, base: nat) {
    && e <= |text| && '\0' !in text[..e] && Sound(text[..e], base)
    && (e < |text| ==> text[e] == '\0' || text[e] == ',' || !Fits(text[..e], text[e], base))
  }

  /** No other field is read. */
  ghost predicate Over(text: string, e: nat, base: nat)
    requires e <= |text|
  {
    e == |text| || !(text[e] == ',' && Fits(text[..e], ',', base)) || e + 1 == |text|
  }

  lemma {:induction false} BodyPast(text: string, e: nat)
    requires e <= |text| && '\0' !in text[..e]
    ensures text[..e] <= Body(text)
  {
    assert forall i :: 0 <= i < e ==> text[i] == text[..e][i];
  }

  lemma {:induction false} SoundPart(b: string, k: nat, base: nat)
    requires Sound(b, base) && k <= |b|
    ensures Sound(b[..k], base)
  {
    hide Sound;
    assert b == b[..k] + b[k..];
    SoundFront(b[..k], b[k..], base);
  }

  lemma {:induction false} FrontReaches(b: string, u: string, base: nat)
    requires u <= b && Sound(u, base)
    ensures u <= Front(b, base)
  {
    hide Sound, Front;
    var g := Front(b, base);
    if |g| < |u| {
      assert b[..|g| + 1] == u[..|g| + 1];
      SoundPart(u, |g| + 1, base);
    }
  }

  lemma {:induction false} FrontStops(b: string, u: string, c: char, base: nat)
    requires u + [c] <= b && Sound(u, base) && !Sound(u + [c], base)
    ensures !Sound(b, base) && Front(b, base) == u
  {
    hide Sound, Front;
    var g, v := Front(b, base), u + [c];
    assert u <= b;
    FrontReaches(b, u, base);
    if Sound(b, base) { SoundPart(b, |v|, base); }
    if |g| > |u| {
      assert g[..|v|] == b[..|v|] == v;
      SoundPart(g, |v|, base);
    }
  }

  lemma {:induction false} Fault(text: string, e: nat, base: nat)
    requires e < |text| && '\0' !in text[..e] && Sound(text[..e], base)
    requires text[e] != '\0' && !Fits(text[..e], text[e], base)
    ensures !Sound(Body(text), base) && Front(Body(text), base) == text[..e]
  {
    hide Sound, Fits, Front, Body;
    assert text[..e + 1] == text[..e] + [text[e]];
    BodyPast(text, e + 1);
    SoundMore(text[..e], text[e], base);
    FrontStops(Body(text), text[..e], text[e], base);
  }

  /** Where no other field is read, what is read of the text ends. */
  lemma {:induction false} CoreEnds(text: string, e: nat, base: nat)
    requires StopsAt(text, e, base) && Over(text, e, base) && (e == |text| ==> !Breaks(text))
    ensures Core(text, base) == text[..e]
    ensures Sound(Body(text), base) <==> e == |text| || text[e] == '\0' || Fits(text[..e], text[e], base)
    ensures Breaks(text) && Sound(Body(text), base) <==> e < |text| && text[e] == ',' && Fits(text[..e], ',', base)
  {
    hide Sound, Fits;
    BodyPast(text, e);
    if e == |text| {
      assert text[..e] == text && Body(text) == text;
    } else if text[e] == '\0' {
      assert Body(text) == text[..e];
      assert text[e] in text;
    } else if !Fits(text[..e], text[e], base) {
      Fault(text, e, base);
    } else {
      assert text[e] == ',' && text == text[..e] + [','];
      SoundMore(text[..e], ',', base);
      assert text[..|text|] == text;
      BodyPast(text, |text|);
      assert Body(text) == text;
    }
  }

  /** Otherwise it goes on behind the comma. */
  lemma {:induction false} CoreGoesOn(text: string, e: nat, base: nat)
    requires StopsAt(text, e, base) && !Over(text, e, base)
    ensures text[..e + 1] <= Core(text, base)
    ensures Sound(text[..e + 1], base) && '\0' !in text[..e + 1] && text[..e + 1] == text[..e] + [',']
  {
    hide Sound, Fits, Front, Body;
    var b := Body(text);
    assert text[..e + 1] == text[..e] + [','];
    SoundMore(text[..e], ',', base);
    BodyPast(text, e + 1);
    FrontReaches(b, text[..e + 1], base);
    if Sound(b, base) && Breaks(text) {
      BodyPast(text, |text|);
      assert text[..|text|] == text;
    }
  }

  // ---------- Reading on ----------

  /** Field number |Fields(text[..st])| - 1 reaches from st to i, as far as it has been read. */
  ghost predicate InField(text: string, st: nat, i: nat)
    requires st <= i <= |text|
  {
    LastField(text[..i]) == text[st..i] && |Fields(text[..i])| == |Fields(text[..st])|
  }

  lemma {:induction false} DigitsMore(t: string, c: char, base: nat)
    ensures HasDigit(t + [c], base) <==> HasDigit(t, base) || IsDigitOf(c, base)
    ensures Value(t + [c], base) == if IsDigitOf(c, base) then base * Value(t, base) + HexToBin(c) else Value(t, base)
  {
    hide IsDigitOf, HexToBin;
    var d := t + [c];
    assert d[..|t|] == t;
    if HasDigit(t, base) {
      var i :| 0 <= i < |t| && IsDigitOf(t[i], base);
      assert IsDigitOf(d[i], base);
    }
    if IsDigitOf(c, base) { assert IsDigitOf(d[|t|], base); }
    if HasDigit(d, base) {
      var i :| 0 <= i < |d| && IsDigitOf(d[i], base);
      if i < |t| { assert IsDigitOf(t[i], base); }
    }
  }

  lemma {:induction false} NextChar(text: string, st: nat, i: nat)
    requires st <= i < |text|
    ensures text[..i + 1] == text[..i] + [text[i]] && text[st..i + 1] == text[st..i] + [text[i]]
    ensures i > 0 ==> text[..i][i - 1] == text[i - 1]
  {
  }

  /** A character that fits, and ends no field, is read. */
  lemma {:induction false} FieldGrows(text: string, st: nat, i: nat, base: nat)
    requires st <= i < |text| && '\0' !in text[..i] && Sound(text[..i], base) && InField(text, st, i)
    requires text[i] != '\0' && text[i] != ',' && Fits(text[..i], text[i], base)
    ensures '\0' !in text[..i + 1] && Sound(text[..i + 1], base) && InField(text, st, i + 1)
  {
    hide Sound, Fits, Fields;
    NextChar(text, st, i);
    SoundMore(text[..i], text[i], base);
    FieldsMore(text[..i], text[i]);
  }

  lemma {:induction false} NoDigits(base: nat)
    ensures !HasDigit("", base) && !IsSpace('\0') && !IsSpace(',') && !IsSpace('-')
  {
  }

  lemma {:induction false} FieldBegins(text: string, st: nat, base: nat)
    requires st <= |text| && LastField(text[..st]) == ""
    ensures text[st..st] == "" && InField(text, st, st)
    ensures Value(text[st..st], base) == 0 && !HasDigit(text[st..st], base)
  {
  }

  /** A field that has been read to the end of the text is not empty behind a comma. */
  lemma {:induction false} NotAtComma(text: string, st: nat, e: nat)
    requires st <= e <= |text| && (st < |text| || st == 0) && InField(text, st, e)
    ensures e == |text| > 0 ==> text[e - 1] != ',' && !Breaks(text)
  {
    if e == |text| > 0 {
      FieldsJoin(text[..e]);
      assert text[st..e][e - 1 - st] == text[e - 1];
    }
  }

  lemma {:induction false} CommaCounts(text: string, e: nat, base: nat)
    requires e < |text| && text[e] == ','
    ensures HasDigit(text[..e + 1], base) <==> HasDigit(text[..e], base)
    ensures LastField(text[..e + 1]) == "" && |Fields(text[..e + 1])| == |Fields(text[..e])| + 1
  {
    hide Fields, HasDigit;
    assert text[..e + 1] == text[..e] + [','];
    DigitsMore(text[..e], ',', base);
    if IsDigitOf(',', base) { Apart(',', base); }
    FieldsMore(text[..e], ',');
  }

  /** A field behind which the text goes on is among those that are read, and not the last. */
  lemma {:induction false} FieldRead(text: string, st: nat, e: nat, base: nat)
    requires st <= e && StopsAt(text, e, base) && !Over(text, e, base) && InField(text, st, e)
    ensures var m, fields := |Fields(text[..st])| - 1, Fields(Core(text, base));
            m + 1 < |fields| && fields[m] == text[st..e]
    ensures Sound(text[..e + 1], base) && '\0' !in text[..e + 1] && text[e] == ','
  {
    hide Fields, Sound, Core, Fits;
    CoreGoesOn(text, e, base);
    var core, m := Core(text, base), |Fields(text[..st])| - 1;
    assert core == text[..e + 1] + core[e + 1..];
    FieldsStay(text[..e + 1], core[e + 1..]);
    FieldsMore(text[..e], ',');
    assert Fields(core)[..m + 1] == Fields(text[..e + 1])[..m + 1];
    assert Fields(core)[m] == Fields(core)[..m + 1][m] == Fields(text[..e + 1])[..m + 1][m] == LastField(text[..e]);
  }
}
