/** record.c: filling the hash table of uids, searching it, and the query loop of main. */
module UidIndex {
  import opened RecordSort
  import opened UidSpec

  /** list_del: the first entry of l that is x is taken out. */
  function Removed(l: seq<Record>, x: Record): seq<Record> {
    if l == [] then [] else if l[0] == x then l[1..] else [l[0]] + Removed(l[1..], x)
  }

  lemma {:induction false} RemovedIs(l: seq<Record>, x: Record)
    requires x in l
    ensures multiset(Removed(l, x)) + multiset{x} == multiset(l)
  {
    assert l == [l[0]] + l[1..];
    if l[0] != x { RemovedIs(l[1..], x); }
  }

  /** The string in a buffer. */
  method Strlen(text: Text) returns (s: Text)
    ensures s == CString(text)
  {
    var n := 0;
    while n < |text| && text[n] != 0
      invariant n <= |text| && forall i :: 0 <= i < n ==> text[i] != 0
    {
      n := n + 1;
    }
    CStringPrefix(text, n);
    assert CString(text[n..]) == [];
    return text[..n];
  }

  /** Where a search for u with hash key looks: first in the bucket key, then in key + 128, then in all of them. */
  ghost predicate Picked(t: Table, u: Text, key: nat, b: int) {
    && At(t, b, u)
    && (At(t, key, u) ==> b == key)
    && (!At(t, key, u) && At(t, key + HASH_SIZE, u) ==> b == key + HASH_SIZE)
    && (!At(t, key, u) && !At(t, key + HASH_SIZE, u) ==> forall c :: 0 <= c < b ==> !At(t, c, u))
  }

  class RecordContext {
    const heads: array<seq<Record>>
    var records: seq<Record>

    /** The records that the index was made from. */
    ghost var indexed: seq<Record>

    ghost predicate Shape() {
      heads.Length == HASHTABLE_SIZE
    }

    /** The table is that of the indexed records, and the list still holds each of them. */
    ghost predicate Valid()
      reads this, heads
    {
      Shape() && Sized(indexed) && heads[..] == TableOf(indexed) && multiset(records) == multiset(indexed)
    }

    constructor (records: seq<Record>)
      ensures Shape() && fresh(heads) && this.records == records
      ensures indexed == [] && heads[..] == TableOf([])
    {
      heads := new seq<Record>[HASHTABLE_SIZE](_ => []);
      this.records := records;
      indexed := [];
    }

    /** is_same_uid */
    method IsSameUid(b: nat, uid: Text, ifEmpty: bool) returns (same: bool)
      requires Shape() && b < HASHTABLE_SIZE
      ensures same == Fits(heads[b], uid, ifEmpty)
    {
      if heads[b] == [] {
        return ifEmpty;
      }
      var s := Strlen(heads[b][0].text);
      same := uid == s;
    }

    /**
     The bucket for a new record with the given buffer, or -1.  In the source the last of the four attempts
     stops at 128 and is then compared with 256, so that a full table goes unreported.
     */
    method Place(text: Text) returns (b: int)
      requires Shape() && |text| >= 16
      ensures b == Probe(heads[..], CString(text), Order(HashFn(text)))
    {
      hide CString, Probe, Order, HashFn;
      var uid := Strlen(text);
      var key := HashFn(text);
      ghost var t, o := heads[..], Order(key);
      OrderAt(key);
      ProbeNothing(t, uid, o[|o|..]);
      ProbeStep(t, uid, o, 0);
      ProbeStep(t, uid, o, 1);
      var same := IsSameUid(key, uid, true);
      if same {
        return key;
      }
      same := IsSameUid(key + HASH_SIZE, uid, true);
      if same {
        return key + HASH_SIZE;
      }
      for i := HASH_SIZE to HASHTABLE_SIZE
        invariant Probe(t, uid, o) == Probe(t, uid, o[2 + i - HASH_SIZE..])
      {
        ProbeStep(t, uid, o, 2 + i - HASH_SIZE);
        same := IsSameUid(i, uid, true);
        if same {
          return i;
        }
      }
      for i := 0 to HASH_SIZE
        invariant Probe(t, uid, o) == Probe(t, uid, o[2 + HASH_SIZE + i..])
      {
        ProbeStep(t, uid, o, 2 + HASH_SIZE + i);
        same := IsSameUid(i, uid, true);
        if same {
          return i;
        }
      }
      return -1;
    }

    /** make_uid_hashtable on an empty table. */
    method MakeUidHashtable()
      requires Shape() && Sized(records) && heads[..] == TableOf([])
      modifies this`indexed, heads
      ensures Valid() && indexed == records
    {
      for i := 0 to |records|
        invariant Sized(records[..i]) && heads[..] == TableOf(records[..i])
      {
        var re := records[i];
        assert records[..i + 1][..i] == records[..i];
        var b := Place(re.text);
        if b >= 0 {
          heads[b] := [re] + heads[b];
        }
        assert heads[..] == Inserted(TableOf(records[..i]), re);
      }
      assert records[..|records|] == records;
      indexed := records;
    }

    /** The bucket that holds uid, or -1; key is the hash of the buffer that uid was read into. */
    method Find(uid: Text, key: nat) returns (b: int)
      requires Shape() && key < HASH_SIZE
      ensures -1 <= b < HASHTABLE_SIZE
      ensures if b >= 0 then Picked(heads[..], uid, key, b) else Absent(heads[..], uid)
    {
      var same := IsSameUid(key, uid, false);
      if same {
        return key;
      }
      same := IsSameUid(key + HASH_SIZE, uid, false);
      if same {
        return key + HASH_SIZE;
      }
      for i := 0 to HASHTABLE_SIZE
        invariant forall c :: 0 <= c < i ==> !At(heads[..], c, uid)
      {
        same := IsSameUid(i, uid, false);
        if same {
          return i;
        }
      }
      return -1;
    }

    /** Moves every record of bucket b from the list of records to the end of a new list. */
    method MoveBucket(b: nat) returns (head: seq<Record>)
      requires Shape() && b < HASHTABLE_SIZE && multiset(heads[b]) <= multiset(records)
      modifies this`records
      ensures head == heads[b] && multiset(records) + multiset(head) == multiset(old(records))
    {
      head := [];
      var bucket := heads[b];
      for i := 0 to |bucket|
        invariant head == bucket[..i] && multiset(records) + multiset(head) == multiset(old(records))
      {
        var rn := bucket[i];
        TakeNext(records, bucket, i, old(records));
        RemovedIs(records, rn);
        records := Removed(records, rn);
        head := head + [rn];
      }
    }

    /**
     search_uid: the records found leave the list and are returned in a list of their own.  They are the
     records of a bucket that holds uid; if equal uids are hashed equally, they are all there are.
     */
    method SearchUid(uid: Text, key: nat) returns (head: seq<Record>)
      requires Valid() && key < HASH_SIZE
      modifies this`records
      ensures Absent(heads[..], uid) ==> head == []
      ensures !Absent(heads[..], uid) ==> exists b :: Picked(heads[..], uid, key, b) && head == heads[b]
      ensures forall i :: 0 <= i < |head| ==> Uid(head[i]) == uid
      ensures Consistent(indexed) ==> head == if uid in FirstUids(indexed) then Reverse(Filter(indexed, uid)) else []
      ensures multiset(records) + multiset(head) == multiset(indexed)
    {
      hide Uid, FirstUids, TableOf, Probe, Consistent, Filter, Reverse, Lookup;
      if Consistent(indexed) { LookupIsFilter(indexed, uid); }
      head := [];
      var b := Find(uid, key);
      if b >= 0 {
        BucketsPure(indexed, b);
        if Consistent(indexed) { LookupBucket(indexed, b, uid); }
        head := MoveBucket(b);
      } else if Consistent(indexed) {
        LookupNothing(heads[..], uid);
      }
    }

    /** One query of main: search, sort what was found, and put it back. */
    method Query(uid: Text, key: nat, sorter: Sorter) returns (found: seq<Record>)
      requires Valid() && key < HASH_SIZE && sorter.Valid() && sorter.stackPtr == 0
      modifies this`records, sorter
      ensures Valid() && indexed == old(indexed) && sorter.Valid() && sorter.stackPtr == 0
      ensures Sorted(found) && multiset(found) <= multiset(indexed)
      ensures forall i :: 0 <= i < |found| ==> Uid(found[i]) == CString(uid)
      ensures Consistent(indexed) ==>
        multiset(found)
          == if CString(uid) in FirstUids(indexed) then multiset(Filter(indexed, CString(uid))) else multiset{}
    {
      hide CString, FirstUids, Filter, Reverse, TableOf, Sorted, Consistent, Sized, Uid;
      var s := Strlen(uid);
      ReverseSame(Filter(indexed, s));
      var head := SearchUid(s, key);
      found := SortList(head, sorter);
      SameUids(head, found, s);
      records := records + found;
    }
  }

  /** sort_record_by, from list to array and back. */
  method SortList(head: seq<Record>, sorter: Sorter) returns (sorted: seq<Record>)
    requires sorter.Valid() && sorter.stackPtr == 0
    modifies sorter
    ensures sorter.Valid() && sorter.stackPtr == 0
    ensures Sorted(sorted) && multiset(sorted) == multiset(head)
  {
    var a := new Record[|head|](i requires 0 <= i < |head| => head[i]);
    assert a[..] == head;
    sorter.QuickSort(a);
    sorted := a[..];
  }

  lemma {:induction false} SameUids(a: seq<Record>, b: seq<Record>, u: Text)
    requires multiset(a) == multiset(b) && forall i :: 0 <= i < |a| ==> Uid(a[i]) == u
    ensures forall i :: 0 <= i < |b| ==> Uid(b[i]) == u
  {
    forall i | 0 <= i < |b| ensures Uid(b[i]) == u {
      assert b[i] in multiset(b);
      assert b[i] in a;
    }
  }

  lemma {:induction false} LookupBucket(l: seq<Record>, b: nat, u: Text)
    requires Consistent(l) && At(TableOf(l), b, u)
    ensures Lookup(TableOf(l), u) == TableOf(l)[b]
  {
    TableExact(l);
    LookupAt(TableOf(l), l, b, u);
  }

  lemma {:induction false} LookupNothing(t: Table, u: Text)
    requires Absent(t, u)
    ensures Lookup(t, u) == []
  {
  }

  lemma {:induction false} OrderAt(key: nat)
    requires key < HASH_SIZE
    ensures var o := Order(key);
            && InTable(o) && |o| == 2 + HASHTABLE_SIZE && o[0] == key && o[1] == key + HASH_SIZE
            && (forall k :: 2 <= k < |o| ==> o[k] == if k < 2 + HASH_SIZE then k - 2 + HASH_SIZE else k - 2 - HASH_SIZE)
  {
  }

  lemma {:induction false} ProbeNothing(t: Table, u: Text, order: seq<nat>)
    requires |t| == HASHTABLE_SIZE && |order| == 0
    ensures Probe(t, u, order) == -1
  {
  }

  lemma {:induction false} ProbeStep(t: Table, u: Text, order: seq<nat>, i: nat)
    requires |t| == HASHTABLE_SIZE && InTable(order) && i < |order|
    ensures InTable(order[i..]) && InTable(order[i + 1..]) && order[0..] == order
    ensures Probe(t, u, order[i..]) == if Fits(t[order[i]], u, true) then order[i] else Probe(t, u, order[i + 1..])
  {
    assert order[i..][1..] == order[i + 1..];
  }

  lemma {:induction false} TakeNext(records: seq<Record>, bucket: seq<Record>, i: nat, all: seq<Record>)
    requires i < |bucket| && multiset(bucket) <= multiset(all)
    requires multiset(records) + multiset(bucket[..i]) == multiset(all)
    ensures bucket[i] in records
  {
    assert bucket == bucket[..i] + [bucket[i]] + bucket[i + 1..];
    assert multiset(bucket)[bucket[i]] > multiset(bucket[..i])[bucket[i]];
  }

  lemma {:induction false} ReverseSame(l: seq<Record>)
    ensures multiset(Reverse(l)) == multiset(l)
  {
    if l != [] {
      ReverseSame(l[1..]);
      assert l == [l[0]] + l[1..];
    }
  }
}
