/** record.c: what the hash table of uids holds. */
module UidSpec {
  import opened RecordSort

  const HASH_SIZE := 128
  const HASHTABLE_SIZE := 256

  type Text = seq<bv8>
  type Table = seq<seq<Record>>

  /** The string in a buffer: everything before the first NUL. */
  ghost function CString(text: Text): Text {
    if text == [] || text[0] == 0 then [] else [text[0]] + CString(text[1..])
  }

  function HashFn(text: Text): (h: nat)
    requires |text| >= 16
    ensures h < HASH_SIZE
  {
    Low7((text[14] ^ text[15]) & 0x7F);
    ((text[14] ^ text[15]) & 0x7F) as int
  }

  lemma {:induction false} Low7(b: bv8)
    ensures (b & 0x7F) as int < 128
  {
  }

  lemma {:induction false} BitsOfInt(a: bv8, b: bv8)
    ensures a as int == b as int ==> a == b
  {
    assert (a as int) as bv8 == a && (b as int) as bv8 == b;
  }

  /** Two buffers are hashed equally exactly if the low bits of the two bytes, taken together, are the same ... */
  lemma {:induction false} HashExactly(a: Text, b: Text)
    requires |a| >= 16 && |b| >= 16
    ensures HashFn(a) == HashFn(b) <==> Mixed(a[14], b[14]) == Mixed(a[15], b[15])
  {
    hide Mixed, HashFn;
    HashIs(a);
    HashIs(b);
    BitsOfInt(Mixed(a[14], a[15]), Mixed(b[14], b[15]));
    MixedSwap(a[14], a[15], b[14], b[15]);
  }

  /** The seven low bits of what two bytes differ in. */
  function Mixed(a: bv8, b: bv8): bv8 { (a ^ b) & 0x7F }

  lemma {:induction false} HashIs(text: Text)
    requires |text| >= 16
    ensures HashFn(text) == Mixed(text[14], text[15]) as int
  {
  }

  lemma {:induction false} MixedChain(a: bv8, b: bv8, c: bv8)
    ensures Mixed(a, c) == Mixed(Mixed(a, b), Mixed(b, c))
  {
  }

  lemma {:induction false} MixedTurn(a: bv8, b: bv8)
    ensures Mixed(a, b) == Mixed(b, a)
  {
  }

  lemma {:induction false} MixedSwap(a: bv8, b: bv8, c: bv8, d: bv8)
    ensures Mixed(a, b) == Mixed(c, d) <==> Mixed(a, c) == Mixed(b, d)
  {
    hide Mixed;
    MixedChain(a, b, c);
    MixedChain(b, c, d);
    MixedTurn(Mixed(b, c), Mixed(c, d));
    MixedChain(a, c, b);
    MixedChain(c, b, d);
    MixedTurn(Mixed(c, b), Mixed(b, d));
    MixedTurn(b, c);
  }

  /** ... and where the second is 0, the hash is what the first says. */
  lemma {:induction false} HashValue(text: Text)
    requires |text| >= 16 && text[15] == 0 && text[14] < 0x80
    ensures HashFn(text) == text[14] as int
  {
    assert (text[14] ^ 0) & 0x7F == text[14];
  }

  /** A buffer whose string is long enough for the hash to depend on the string alone. */
  ghost predicate Long(text: Text) {
    |text| >= 16 && forall i :: 0 <= i < 15 ==> text[i] != 0
  }

  lemma {:induction false} CStringPrefix(text: Text, n: nat)
    requires n <= |text| && forall i :: 0 <= i < n ==> text[i] != 0
    ensures CString(text) == text[..n] + CString(text[n..])
  {
    if n > 0 {
      CStringPrefix(text[1..], n - 1);
      assert text[1..][n - 1..] == text[n..];
      assert text[..n] == [text[0]] + text[1..][..n - 1];
    } else {
      assert text[0..] == text;
    }
  }

  lemma {:induction false} LongHash(a: Text, b: Text)
    requires Long(a) && Long(b) && CString(a) == CString(b)
    ensures HashFn(a) == HashFn(b)
  {
    CStringPrefix(a, 15);
    CStringPrefix(b, 15);
    var s, t := CString(a), CString(b);
    assert s[14] == a[14] && t[14] == b[14];
    assert s[15..] == CString(a[15..]) && t[15..] == CString(b[15..]);
    assert a[15] == if |s| == 15 then 0 else s[15];
    assert b[15] == if |t| == 15 then 0 else t[15];
  }

  ghost function Uid(re: Record): Text { CString(re.text) }

  /** is_same_uid */
  ghost predicate Fits(bucket: seq<Record>, u: Text, ifEmpty: bool) {
    if bucket == [] then ifEmpty else Uid(bucket[0]) == u
  }

  /** The buckets in the order in which an insertion tries them. */
  ghost function Order(key: nat): seq<nat> {
    [key, key + HASH_SIZE] + seq(HASH_SIZE, i requires 0 <= i => HASH_SIZE + i) + seq(HASH_SIZE, i requires 0 <= i => i)
  }

  ghost predicate InTable(order: seq<nat>) {
    forall i :: 0 <= i < |order| ==> order[i] < HASHTABLE_SIZE
  }

  /** The first bucket that is empty or holds u, or -1. */
  ghost function Probe(t: Table, u: Text, order: seq<nat>): (b: int)
    requires |t| == HASHTABLE_SIZE && InTable(order)
    ensures -1 <= b < HASHTABLE_SIZE
  {
    if order == [] then -1
    else if Fits(t[order[0]], u, true) then order[0]
    else Probe(t, u, order[1..])
  }

  /** The bucket a new record goes to, or -1. */
  ghost function Target(t: Table, re: Record): (b: int)
    requires |t| == HASHTABLE_SIZE && |re.text| >= 16
    ensures -1 <= b < HASHTABLE_SIZE
  {
    Probe(t, Uid(re), Order(HashFn(re.text)))
  }

  ghost function Inserted(t: Table, re: Record): (t': Table)
    requires |t| == HASHTABLE_SIZE && |re.text| >= 16
    ensures |t'| == HASHTABLE_SIZE
  {
    var b := Target(t, re);
    if b < 0 then t else t[b := [re] + t[b]]
  }

  /** Every uid buffer has the two bytes that are hashed. */
  ghost predicate Sized(l: seq<Record>) {
    forall i :: 0 <= i < |l| ==> |l[i].text| >= 16
  }

  /** Two records do not have the same uid and different hashes. */
  ghost predicate Alike(a: Record, b: Record)
    requires |a.text| >= 16 && |b.text| >= 16
  {
    Uid(a) == Uid(b) ==> HashFn(a.text) == HashFn(b.text)
  }

  /** The hash of a record is determined by its uid. */
  ghost predicate Consistent(l: seq<Record>) {
    Sized(l) && forall i, j :: 0 <= i < |l| && 0 <= j < |l| ==> Alike(l[i], l[j])
  }

  /** So it is when all uids are long. */
  lemma {:induction false} LongConsistent(l: seq<Record>)
    requires forall i :: 0 <= i < |l| ==> Long(l[i].text)
    ensures Consistent(l)
  {
    hide Long, HashFn, CString;
    forall i, j | 0 <= i < |l| && 0 <= j < |l| ensures |l[i].text| >= 16 && |l[j].text| >= 16 && Alike(l[i], l[j]) {
      LongSized(l[i].text);
      LongSized(l[j].text);
      if Uid(l[i]) == Uid(l[j]) { LongHash(l[i].text, l[j].text); }
    }
  }

  lemma {:induction false} LongSized(text: Text)
    requires Long(text)
    ensures |text| >= 16
  {
  }

  /** The table after the records of l have been inserted in order. */
  ghost function TableOf(l: seq<Record>): (t: Table)
    requires Sized(l)
    ensures |t| == HASHTABLE_SIZE
  {
    if l == [] then seq(HASHTABLE_SIZE, _ => [])
    else Inserted(TableOf(l[..|l| - 1]), l[|l| - 1])
  }

  /** The records of l that have uid u, the last one first. */
  ghost function Chain(l: seq<Record>, u: Text): seq<Record> {
    if l == [] then []
    else if Uid(l[|l| - 1]) == u then [l[|l| - 1]] + Chain(l[..|l| - 1], u)
    else Chain(l[..|l| - 1], u)
  }

  ghost predicate Full(t: Table) {
    forall b :: 0 <= b < |t| ==> t[b] != []
  }

  /** The uids of l in the order of their first appearance. */
  ghost function Uids(l: seq<Record>): seq<Text> {
    if l == [] then []
    else if Uid(l[|l| - 1]) in Uids(l[..|l| - 1]) then Uids(l[..|l| - 1])
    else Uids(l[..|l| - 1]) + [Uid(l[|l| - 1])]
  }

  /** The first 256 of them: there are no buckets for more. */
  ghost function FirstUids(l: seq<Record>): seq<Text> {
    if |Uids(l)| <= HASHTABLE_SIZE then Uids(l) else Uids(l)[..HASHTABLE_SIZE]
  }

  /** The number of buckets below n that are in use. */
  ghost function Used(t: Table, n: nat): (c: nat)
    requires n <= |t|
    ensures c <= n
  {
    if n == 0 then 0 else Used(t, n - 1) + if t[n - 1] != [] then 1 else 0
  }

  ghost predicate At(t: Table, b: int, u: Text) {
    0 <= b < |t| && t[b] != [] && Uid(t[b][0]) == u
  }

  ghost predicate Absent(t: Table, u: Text) {
    forall b :: !At(t, b, u)
  }

  // ---------- What insertions keep ----------

  /** A bucket in use holds all records of one uid, no two hold the same, and a new record finds its own. */
  ghost predicate Exact(t: Table, l: seq<Record>) {
    && |t| == HASHTABLE_SIZE
    && (forall b :: 0 <= b < |t| && t[b] != [] ==> t[b] == Chain(l, Uid(t[b][0])))
    && (forall b, c :: 0 <= b < c < |t| && t[b] != [] && t[c] != [] ==> Uid(t[b][0]) != Uid(t[c][0]))
    && (forall b :: 0 <= b < |t| && t[b] != [] ==> Settled(t, b))
  }

  ghost predicate Settled(t: Table, b: nat)
    requires |t| == HASHTABLE_SIZE && b < |t|
  {
    t[b] != [] ==> |t[b][0].text| >= 16 && Probe(t, Uid(t[b][0]), Order(HashFn(t[b][0].text))) == b
  }

  lemma {:induction false} OrderCovers(key: nat)
    requires key < HASH_SIZE
    ensures InTable(Order(key)) && forall b :: 0 <= b < HASHTABLE_SIZE ==> b in Order(key)
  {
    var o := Order(key);
    forall b | 0 <= b < HASHTABLE_SIZE ensures b in o {
      assert o[if b >= HASH_SIZE then 2 + b - HASH_SIZE else 2 + HASH_SIZE + b] == b;
    }
  }

  /** Trying all buckets fails only when none is empty and none holds u. */
  lemma {:induction false} ProbeMeaning(t: Table, u: Text, order: seq<nat>)
    requires |t| == HASHTABLE_SIZE && InTable(order)
    ensures var b := Probe(t, u, order);
            if b < 0 then forall i :: 0 <= i < |order| ==> !Fits(t[order[i]], u, true) else Fits(t[b], u, true)
    decreases |order|
  {
    if order != [] && !Fits(t[order[0]], u, true) {
      ProbeMeaning(t, u, order[1..]);
      if Probe(t, u, order) < 0 {
        forall i | 0 <= i < |order| ensures !Fits(t[order[i]], u, true) {
          if i > 0 { assert order[i] == order[1..][i - 1]; }
        }
      }
    }
  }

  /** A record put into bucket c of t. */
  ghost function Put(t: Table, c: nat, re: Record): Table
    requires c < |t|
  {
    t[c := [re] + t[c]]
  }

  /** Another uid's new record does not change where a settled uid is found. */
  lemma {:induction false} ProbeStable(t: Table, u: Text, order: seq<nat>, c: nat, re: Record)
    requires |t| == HASHTABLE_SIZE && InTable(order) && c < |t| && Uid(re) != u
    requires Fits(t[c], Uid(re), true) && Probe(t, u, order) >= 0 && t[Probe(t, u, order)] != []
    requires Probe(t, u, order) != c
    ensures Probe(Put(t, c, re), u, order) == Probe(t, u, order)
    decreases |order|
  {
    if !Fits(t[order[0]], u, true) {
      ProbeStable(t, u, order[1..], c, re);
    }
  }

  /** Nor does a new record of the uid itself. */
  lemma {:induction false} ProbeSame(t: Table, u: Text, order: seq<nat>, re: Record)
    requires |t| == HASHTABLE_SIZE && InTable(order) && Uid(re) == u && Probe(t, u, order) >= 0
    ensures Probe(Put(t, Probe(t, u, order), re), u, order) == Probe(t, u, order)
    decreases |order|
  {
    if !Fits(t[order[0]], u, true) {
      ProbeSame(t, u, order[1..], re);
    }
  }

  lemma {:induction false} ChainSnoc(l: seq<Record>, re: Record, u: Text)
    ensures Chain(l + [re], u) == if Uid(re) == u then [re] + Chain(l, u) else Chain(l, u)
  {
    assert (l + [re])[..|l|] == l;
  }

  lemma {:induction false} ChainUid(l: seq<Record>, u: Text)
    ensures forall i :: 0 <= i < |Chain(l, u)| ==> Uid(Chain(l, u)[i]) == u
    decreases |l|
  {
    if l != [] { ChainUid(l[..|l| - 1], u); }
  }

  lemma {:induction false} ChainIn(l: seq<Record>, u: Text)
    ensures forall i :: 0 <= i < |Chain(l, u)| ==> Chain(l, u)[i] in l
    decreases |l|
  {
    if l != [] {
      ChainIn(l[..|l| - 1], u);
      assert l == l[..|l| - 1] + [l[|l| - 1]];
    }
  }

  /** The first record of a bucket in use is hashed like a new record of its uid. */
  lemma {:induction false} SameHash(t: Table, l: seq<Record>, re: Record, b: nat)
    requires Exact(t, l) && Consistent(l + [re]) && At(t, b, Uid(re))
    ensures |re.text| >= 16 && |t[b][0].text| >= 16 && HashFn(t[b][0].text) == HashFn(re.text)
  {
    hide HashFn, CString;
    ChainIn(l, Uid(re));
    var l', first := l + [re], t[b][0];
    assert first in l;
    var i :| 0 <= i < |l| && l[i] == first;
    assert l'[i] == first && l'[|l|] == re;
    assert Alike(l'[i], l'[|l|]);
  }

  /** A new record goes to the bucket of its uid if there is one, and otherwise into an empty bucket or nowhere. */
  lemma {:induction false} Destination(t: Table, l: seq<Record>, re: Record)
    requires Exact(t, l) && Consistent(l + [re]) && |re.text| >= 16
    ensures var b := Target(t, re);
            if b < 0 then Full(t) && Absent(t, Uid(re)) else At(t, b, Uid(re)) || (t[b] == [] && Absent(t, Uid(re)))
  {
    var u, key := Uid(re), HashFn(re.text);
    var b := Probe(t, u, Order(key));
    OrderCovers(key);
    ProbeMeaning(t, u, Order(key));
    if c :| At(t, c, u) {
      assert Settled(t, c);
      SameHash(t, l, re, c);
    } else if b < 0 {
      forall c | 0 <= c < |t| ensures t[c] != [] {
        assert c in Order(key);
        var i :| 0 <= i < |Order(key)| && Order(key)[i] == c;
        assert !Fits(t[Order(key)[i]], u, true);
      }
    }
  }

  lemma {:induction false} SettledAfter(t: Table, c: nat, re: Record, b: nat)
    requires |t| == HASHTABLE_SIZE && c < |t| && b < |t| && Settled(t, b) && |re.text| >= 16
    requires c == Target(t, re) && Fits(t[c], Uid(re), true)
    requires b != c && t[b] != [] ==> Uid(t[b][0]) != Uid(re)
    ensures Settled(Put(t, c, re), b)
  {
    if b == c {
      ProbeSame(t, Uid(re), Order(HashFn(re.text)), re);
    } else if t[b] != [] {
      ProbeStable(t, Uid(t[b][0]), Order(HashFn(t[b][0].text)), c, re);
    }
  }

  lemma {:induction false} ExactAfter(t: Table, l: seq<Record>, re: Record)
    requires Exact(t, l) && Consistent(l + [re]) && |re.text| >= 16
    requires Absent(t, Uid(re)) && !Full(t) ==> Chain(l, Uid(re)) == []
    ensures Exact(Inserted(t, re), l + [re])
  {
    hide Order, Probe, CString, HashFn;
    var c, l', t' := Target(t, re), l + [re], Inserted(t, re);
    Destination(t, l, re);
    forall b | 0 <= b < |t| && t'[b] != [] ensures t'[b] == Chain(l', Uid(t'[b][0])) && Settled(t', b) {
      ChainSnoc(l, re, Uid(t'[b][0]));
      if c >= 0 {
        SettledAfter(t, c, re, b);
        if b == c && t[c] == [] { assert !Full(t); }
      } else {
        assert !At(t, b, Uid(re));
      }
    }
  }

  // ---------- Which uids have a bucket ----------

  lemma {:induction false} UsedFull(t: Table, n: nat)
    requires n <= |t|
    ensures Used(t, n) == n <==> forall b :: 0 <= b < n ==> t[b] != []
    decreases n
  {
    if n > 0 { UsedFull(t, n - 1); }
  }

  lemma {:induction false} UsedPut(t: Table, c: nat, re: Record, n: nat)
    requires c < |t| && n <= |t|
    ensures Used(Put(t, c, re), n) == Used(t, n) + if c < n && t[c] == [] then 1 else 0
    decreases n
  {
    if n > 0 { UsedPut(t, c, re, n - 1); }
  }

  lemma {:induction false} UsedNone(n: nat)
    requires n <= HASHTABLE_SIZE
    ensures Used(TableOf([]), n) == 0
    decreases n
  {
    if n > 0 { UsedNone(n - 1); }
  }

  lemma {:induction false} UidsSnoc(l: seq<Record>, re: Record)
    ensures Uids(l + [re]) == if Uid(re) in Uids(l) then Uids(l) else Uids(l) + [Uid(re)]
  {
    assert (l + [re])[..|l|] == l;
  }

  lemma {:induction false} FirstUidsSnoc(l: seq<Record>, re: Record)
    ensures var f := FirstUids(l);
            FirstUids(l + [re]) == if Uid(re) in f || |f| == HASHTABLE_SIZE then f else f + [Uid(re)]
    ensures |FirstUids(l)| < HASHTABLE_SIZE ==> FirstUids(l) == Uids(l)
  {
    hide CString, Uids;
    UidsSnoc(l, re);
    var d := Uids(l);
    if |d| >= HASHTABLE_SIZE { assert (d + [Uid(re)])[..HASHTABLE_SIZE] == d[..HASHTABLE_SIZE]; }
  }

  lemma {:induction false} ChainEmpty(l: seq<Record>, u: Text)
    ensures Chain(l, u) == [] <==> u !in Uids(l)
    decreases |l|
  {
    if l != [] { ChainEmpty(l[..|l| - 1], u); }
  }

  /** The buckets in use are those of the kept uids. */
  ghost predicate Housed(t: Table, l: seq<Record>) {
    |t| == HASHTABLE_SIZE && Used(t, |t|) == |FirstUids(l)| && forall u :: Absent(t, u) <==> u !in FirstUids(l)
  }

  lemma {:induction false} HousedChain(t: Table, l: seq<Record>, u: Text)
    requires Housed(t, l) && Absent(t, u) && !Full(t)
    ensures Chain(l, u) == []
  {
    UsedFull(t, |t|);
    ChainEmpty(l, u);
  }

  lemma {:induction false} HousedAfter(t: Table, l: seq<Record>, re: Record)
    requires Exact(t, l) && Consistent(l + [re]) && |re.text| >= 16 && Housed(t, l)
    ensures Housed(Inserted(t, re), l + [re])
  {
    hide Order, Probe, CString, HashFn, Chain, FirstUids, Used, Uid, Uids;
    var c, u, t' := Target(t, re), Uid(re), Inserted(t, re);
    Destination(t, l, re);
    FirstUidsSnoc(l, re);
    UsedFull(t, |t|);
    if c >= 0 {
      UsedPut(t, c, re, |t|);
      if t[c] != [] { assert At(t, c, u); }
      forall v ensures Absent(t', v) <==> v != u && Absent(t, v) { AbsentAfter(t, c, re, v); }
    }
  }

  lemma {:induction false} AbsentAfter(t: Table, c: nat, re: Record, v: Text)
    requires c < |t| && Fits(t[c], Uid(re), true)
    ensures Absent(Put(t, c, re), v) <==> v != Uid(re) && Absent(t, v)
  {
    var t' := Put(t, c, re);
    if v == Uid(re) {
      assert At(t', c, v);
    } else {
      assert forall b :: At(t', b, v) <==> At(t, b, v);
    }
  }

  /** The table is exact, and the uids in it are the first 256 different ones. */
  lemma {:induction false} TableExact(l: seq<Record>)
    requires Consistent(l)
    ensures Exact(TableOf(l), l)
    ensures forall u :: Absent(TableOf(l), u) <==> u !in FirstUids(l)
    ensures Housed(TableOf(l), l)
    decreases |l|
  {
    hide Order, Probe, CString, HashFn, Chain, Used, Uids;
    if l == [] {
      NothingHoused();
    } else {
      var front, re := l[..|l| - 1], l[|l| - 1];
      var t := TableOf(front);
      assert l == front + [re];
      assert Consistent(front) by { FrontConsistent(l); }
      TableExact(front);
      if Absent(t, Uid(re)) && !Full(t) { HousedChain(t, front, Uid(re)); }
      ExactAfter(t, front, re);
      HousedAfter(t, front, re);
      assert TableOf(l) == Inserted(t, re);
    }
  }

  lemma {:induction false} FrontConsistent(l: seq<Record>)
    requires Consistent(l) && l != []
    ensures Consistent(l[..|l| - 1])
  {
    hide HashFn, CString;
  }

  lemma {:induction false} NothingHoused()
    ensures Exact(TableOf([]), []) && Housed(TableOf([]), [])
  {
    UsedNone(HASHTABLE_SIZE);
  }

  /** What a search for u finds: the bucket that holds u. */
  ghost function Lookup(t: Table, u: Text): seq<Record> {
    if b :| At(t, b, u) then t[b] else []
  }

  lemma {:induction false} LookupAt(t: Table, l: seq<Record>, b: int, u: Text)
    requires Exact(t, l) && At(t, b, u)
    ensures Lookup(t, u) == t[b]
  {
    var c :| At(t, c, u) && Lookup(t, u) == t[c];
  }

  /** A search finds what a linear filter finds, and nothing for a uid that is not among the first 256. */
  ghost predicate FindsAll(l: seq<Record>)
    requires Sized(l)
  {
    forall u :: Lookup(TableOf(l), u) == if u in FirstUids(l) then Reverse(Filter(l, u)) else []
  }

  lemma {:induction false} LookupIsFilter(l: seq<Record>, u: Text)
    requires Consistent(l)
    ensures Lookup(TableOf(l), u) == if u in FirstUids(l) then Reverse(Filter(l, u)) else []
  {
    hide FirstUids;
    var t := TableOf(l);
    TableExact(l);
    ChainIsFilter(l, u);
    if b :| At(t, b, u) {
      LookupAt(t, l, b, u);
      assert !Absent(t, u);
    } else {
      assert Absent(t, u);
    }
  }

  ghost function Filter(l: seq<Record>, u: Text): seq<Record> {
    if l == [] then []
    else (if Uid(l[0]) == u then [l[0]] else []) + Filter(l[1..], u)
  }

  ghost function Reverse(l: seq<Record>): seq<Record> {
    if l == [] then [] else Reverse(l[1..]) + [l[0]]
  }

  lemma {:induction false} FilterSnoc(l: seq<Record>, re: Record, u: Text)
    ensures Filter(l + [re], u) == Filter(l, u) + if Uid(re) == u then [re] else []
  {
    if l != [] {
      assert (l + [re])[1..] == l[1..] + [re];
      FilterSnoc(l[1..], re, u);
    }
  }

  lemma {:induction false} ReverseSnoc(l: seq<Record>, re: Record)
    ensures Reverse(l + [re]) == [re] + Reverse(l)
  {
    if l != [] {
      assert (l + [re])[1..] == l[1..] + [re];
      ReverseSnoc(l[1..], re);
    }
  }

  lemma {:induction false} ChainIsFilter(l: seq<Record>, u: Text)
    ensures Chain(l, u) == Reverse(Filter(l, u))
  {
    if l != [] {
      var front, re := l[..|l| - 1], l[|l| - 1];
      assert l == front + [re];
      ChainIsFilter(front, u);
      FilterSnoc(front, re, u);
      ReverseSnoc(Filter(front, u), re);
      assert Filter(front, u) + [] == Filter(front, u);
    }
  }

  /**
   A uid of fewer than fifteen characters is hashed together with what happens to follow it in its buffer.
   Two records that differ there are filed in two buckets, and no search finds both.
   */
  lemma {:induction false} ShortUidSplits(a: Record, b: Record)
    requires |a.text| >= 16 && |b.text| >= 16 && Uid(a) == Uid(b) && HashFn(a.text) != HashFn(b.text)
    ensures Sized([a, b])
    ensures var t := TableOf([a, b]);
            t[HashFn(a.text)] == [a] && t[HashFn(b.text)] == [b] && |Lookup(t, Uid(a))| == 1
  {
    hide HashFn, CString;
    var e: Table := seq(HASHTABLE_SIZE, _ => []);
    var i, j := HashFn(a.text), HashFn(b.text);
    assert [a][..0] == [] && [a, b][..1] == [a];
    assert Order(i)[0] == i && Order(j)[0] == j;
    assert TableOf([]) == e && [a] + e[i] == [a] && [b] + e[j] == [b];
    assert Target(e, a) == i;
    var s := TableOf([a]);
    assert s == Inserted(e, a) == e[i := [a]];
    assert Target(s, b) == j;
    var t := TableOf([a, b]);
    assert t == e[i := [a]][j := [b]];
    assert At(t, i, Uid(a));
    forall c | At(t, c, Uid(a)) ensures |t[c]| == 1 {
      assert c == i || c == j;
    }
  }

  /** The lists of records from a given set. */
  ghost predicate Over(l: seq<Record>, all: set<Record>) {
    forall i :: 0 <= i < |l| ==> l[i] in all
  }

  lemma {:induction false} OverSized(l: seq<Record>, all: set<Record>)
    requires Over(l, all) && forall r :: r in all ==> |r.text| >= 16
    ensures Sized(l)
  {
  }

  /** Exactly when the index agrees with a linear filter, for whichever of the records there are, in any order. */
  lemma {:induction false} FindsAllExactly(all: set<Record>)
    requires forall r :: r in all ==> |r.text| >= 16
    ensures (forall l :: Over(l, all) ==> Sized(l) && FindsAll(l)) <==>
            (forall a, b :: a in all && b in all ==> Alike(a, b))
  {
    hide HashFn, CString, TableOf, Lookup, Filter, Reverse, FirstUids, FindsAll;
    if forall a, b :: a in all && b in all ==> Alike(a, b) {
      forall l | Over(l, all) ensures Sized(l) && FindsAll(l) {
        OverSized(l, all);
        ConsistentFindsAll(l);
      }
    } else {
      var a, b :| a in all && b in all && !Alike(a, b);
      var l := [a, b];
      assert Over(l, all);
      SplitMisses(a, b);
    }
  }

  lemma {:induction false} ConsistentFindsAll(l: seq<Record>)
    requires Consistent(l)
    ensures FindsAll(l)
  {
    hide Alike, TableOf, Lookup, Filter, Reverse, FirstUids;
    forall u ensures Lookup(TableOf(l), u) == if u in FirstUids(l) then Reverse(Filter(l, u)) else [] {
      LookupIsFilter(l, u);
    }
  }

  lemma {:induction false} SplitMisses(a: Record, b: Record)
    requires |a.text| >= 16 && |b.text| >= 16 && !Alike(a, b)
    ensures Sized([a, b]) && !FindsAll([a, b])
  {
    hide HashFn, CString, TableOf, Lookup;
    ShortUidSplits(a, b);
    var l, u := [a, b], Uid(a);
    assert l[1..] == [b] && l[1..][1..] == [] && l[..1] == [a] && [a][..0] == [];
    assert Filter([b], u) == [b] && Filter(l, u) == [a] + [b];
    assert Reverse([b]) == [b] && ([a] + [b])[1..] == [b];
    assert |Reverse(Filter(l, u))| == 2;
    assert Uids([]) == [] && Uids([a]) == [u] && Uids(l) == [u];
    assert u in FirstUids(l);
  }

  // ---------- What holds of any table ----------

  /** Whatever the hashes: a bucket holds records of one uid, each as often as it was inserted at most. */
  lemma {:induction false} BucketsPure(l: seq<Record>, b: nat)
    requires Sized(l) && b < HASHTABLE_SIZE
    ensures multiset(TableOf(l)[b]) <= multiset(l)
    ensures forall i :: 0 <= i < |TableOf(l)[b]| ==> Uid(TableOf(l)[b][i]) == Uid(TableOf(l)[b][0])
    decreases |l|
  {
    hide Order, Probe, CString, HashFn;
    if l != [] {
      var front, re := l[..|l| - 1], l[|l| - 1];
      BucketsPure(front, b);
      assert l == front + [re];
      TargetFits(TableOf(front), re);
    }
  }

  lemma {:induction false} TargetFits(t: Table, re: Record)
    requires |t| == HASHTABLE_SIZE && |re.text| >= 16
    ensures Target(t, re) >= 0 ==> Fits(t[Target(t, re)], Uid(re), true)
  {
    hide Order, CString, HashFn;
    OrderCovers(HashFn(re.text));
    ProbeMeaning(t, Uid(re), Order(HashFn(re.text)));
  }

  /** There are such records: with an empty uid, say. */
  lemma {:induction false} ShortUidExample() returns (a: Record, b: Record)
    ensures |a.text| >= 16 && |b.text| >= 16 && Uid(a) == Uid(b) && HashFn(a.text) != HashFn(b.text)
  {
    var z: Text := seq(16, _ => 0);
    a, b := Record(1, z, 0), Record(2, z[14 := 1], 0);
    assert CString(a.text) == [] == CString(b.text);
    assert a.text[14] ^ a.text[15] == 0 && b.text[14] ^ b.text[15] == 1;
    OneAndZero();
  }

  lemma {:induction false} OneAndZero()
    ensures ((0 as bv8) & 0x7F) as int == 0 && ((1 as bv8) & 0x7F) as int == 1
  {
  }
}
