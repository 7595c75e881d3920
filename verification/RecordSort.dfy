/**
 record.c: sorting an array of records, by a quicksort with a stack of its own and a final insertion pass,
 and by a heapsort whose heap starts at slot 0 with slot 1 as its only child.
 */
module RecordSort {
  /** A record: its address, its uid as the buffer that holds it, and the number it is sorted by. */
  datatype Record = Record(id: nat, text: seq<bv8>, key: int)

  ghost predicate Sorted(s: seq<Record>) {
    forall i, j :: 0 <= i < j < |s| ==> s[i].key <= s[j].key
  }

  ghost function Swapped(s: seq<Record>, i: nat, j: nat): seq<Record>
    requires i < |s| && j < |s|
  {
    s[i := s[j]][j := s[i]]
  }

  lemma {:induction false} SwappedSame(s: seq<Record>, i: nat, j: nat)
    requires i < |s| && j < |s|
    ensures multiset(Swapped(s, i, j)) == multiset(s)
  {
  }

  method Swap(a: array<Record>, i: nat, j: nat)
    requires i < a.Length && j < a.Length
    modifies a
    ensures multiset(a[..]) == multiset(old(a[..]))
    ensures forall x :: 0 <= x < a.Length && x != i && x != j ==> a[x] == old(a[x])
    ensures a[i] == old(a[j]) && a[j] == old(a[i])
  {
    ghost var s := a[..];
    a[i], a[j] := a[j], a[i];
    assert a[..] == Swapped(s, i, j);
    SwappedSame(s, i, j);
  }

  // ---------- quick_sort ----------

  /** Intervals this short are left to the insertion sort. */
  const M := 9

  datatype Interval = Interval(start: int, end: int) {
    ghost function Size(): nat { if start <= end then end - start + 1 else 0 }
  }

  /** The stacked intervals are long, and each lies to the left of the one below it. */
  ghost predicate Descending(s: seq<Interval>, n: nat) {
    && (forall i :: 0 <= i < |s| ==> 0 <= s[i].start && s[i].end < n && s[i].end - s[i].start >= M)
    && (forall i, j :: 0 <= i < j < |s| ==> s[j].end < s[i].start)
  }

  /** The current interval shares no slot with a stacked one, and lies to the left of all if it is long. */
  ghost predicate Beside(s: seq<Interval>, l: int, r: int) {
    forall i :: 0 <= i < |s| ==> r < s[i].start || (s[i].end < l && r - l < M)
  }

  /** So there is never more than one stacked interval for every ten slots. */
  lemma {:induction false} StackBound(s: seq<Interval>, n: nat)
    requires Descending(s, n)
    ensures 10 * |s| <= n && (s != [] ==> 10 * |s| <= n - s[|s| - 1].start)
    decreases |s|
  {
    if s != [] {
      var t, c := s[..|s| - 1], s[|s| - 1];
      assert c.end - c.start >= M;
      if t != [] {
        StackBound(t, n);
        assert c.end < t[|t| - 1].start;
      }
    }
  }

  ghost function TotalSize(s: seq<Interval>): nat {
    if s == [] then 0 else TotalSize(s[..|s| - 1]) + s[|s| - 1].Size()
  }

  lemma {:induction false} TotalSnoc(s: seq<Interval>, c: Interval)
    ensures TotalSize(s + [c]) == TotalSize(s) + c.Size()
  {
    assert (s + [c])[..|s|] == s;
  }

  /** After a pull the pulled interval is the current one. */
  lemma {:induction false} AfterPull(s: seq<Interval>, c: Interval, n: nat)
    requires Descending(s + [c], n)
    ensures Descending(s, n) && Beside(s, c.start, c.end) && 0 <= c.start && c.end < n && c.end - c.start >= M
    ensures TotalSize(s + [c]) == TotalSize(s) + c.Size()
  {
    TotalSnoc(s, c);
    var t := s + [c];
    assert forall i :: 0 <= i < |s| ==> t[i] == s[i];
    assert t[|s|] == c;
  }

  /** Splitting the current interval at j, one part being pushed and the other going on. */
  lemma {:induction false} AfterPush(s: seq<Interval>, l: int, r: int, n: nat, c: Interval, l': int, r': int)
    requires Descending(s, n) && Beside(s, l, r) && r - l >= M && 0 <= l && r < n
    requires l <= c.start && c.end <= r && c.end - c.start >= M
    requires l <= l' && r' <= r && (r' < c.start || (c.end < l' && r' - l' < M))
    ensures Descending(s + [c], n) && Beside(s + [c], l', r')
    ensures TotalSize(s + [c]) == TotalSize(s) + c.Size()
  {
    TotalSnoc(s, c);
  }

  /** quick_sort's stack, which is allocated anew for every call; its fill level is not. */
  class Sorter {
    var stack: array<Interval>
    var stackPtr: nat

    ghost predicate Valid()
      reads this
    {
      stackPtr <= stack.Length
    }

    ghost function Stacked(): seq<Interval>
      requires Valid()
      reads this, stack
    {
      stack[..stackPtr]
    }

    constructor ()
      ensures Valid() && stackPtr == 0
    {
      stack, stackPtr := new Interval[0], 0;
    }

    /** PUSH */
    method Push(l: int, r: int)
      requires Valid() && l < r && stackPtr < stack.Length
      modifies this`stackPtr, stack
      ensures Valid() && Stacked() == old(Stacked()) + [Interval(l, r)]
    {
      stack[stackPtr] := Interval(l, r);
      stackPtr := stackPtr + 1;
    }

    /** PULL */
    method Pull() returns (ok: bool, c: Interval)
      requires Valid()
      modifies this`stackPtr
      ensures Valid() && ok == (old(stackPtr) > 0)
      ensures ok ==> old(Stacked()) == Stacked() + [c]
      ensures !ok ==> stackPtr == old(stackPtr)
    {
      ok, c := false, Interval(0, 0);
      if stackPtr > 0 {
        stackPtr := stackPtr - 1;
        ok, c := true, stack[stackPtr];
      }
    }

    method ScanUp(a: array<Record>, from: int, r: nat, key: int) returns (i: int)
      requires -1 <= from < r < a.Length
      ensures from < i <= r && (i < r ==> a[i].key >= key)
      ensures forall x :: from < x < i ==> a[x].key < key
    {
      i := from + 1;
      while i < r && a[i].key < key
        invariant from < i <= r && forall x :: from < x < i ==> a[x].key < key
      {
        i := i + 1;
      }
    }

    method ScanDown(a: array<Record>, from: int, l: nat, key: int) returns (j: int)
      requires l < from <= a.Length
      ensures l <= j < from && (j > l ==> a[j].key <= key)
      ensures forall x :: j < x < from ==> a[x].key > key
    {
      j := from - 1;
      while j > l && a[j].key > key
        invariant l <= j < from && forall x :: j < x < from ==> a[x].key > key
      {
        j := j - 1;
      }
    }

    /**
     The partitioning loop of quick_sort.  The record that k points to may be moved, and then what is swapped
     in at the end need not be k.  So the two sides are only right up to the slot in the middle.
     */
    method Partition(a: array<Record>, l: nat, r: nat) returns (j: int)
      requires l <= r < a.Length
      modifies a
      ensures l <= j <= r && multiset(a[..]) == multiset(old(a[..]))
      ensures forall x :: 0 <= x < l || r < x < a.Length ==> a[x] == old(a[x])
      ensures forall x :: l <= x < j && x != (l + r) / 2 ==> a[x].key <= old(a[(l + r) / 2].key)
      ensures forall x :: j < x <= r && x != (l + r) / 2 ==> a[x].key >= old(a[(l + r) / 2].key)
    {
      var k := a[(l + r) / 2];
      var i := l - 1;
      j := r + 1;
      while true
        invariant (i == l - 1 && j == r + 1) || (l <= i < j <= r)
        invariant multiset(a[..]) == multiset(old(a[..]))
        invariant forall x :: 0 <= x < l || r < x < a.Length ==> a[x] == old(a[x])
        invariant forall x :: l <= x <= i ==> a[x].key <= k.key
        invariant forall x :: j <= x <= r ==> a[x].key >= k.key
        decreases j - i
      {
        i := ScanUp(a, i, r, k.key);
        j := ScanDown(a, j, l, k.key);
        if i < j {
          Swap(a, i, j);
        } else {
          Swap(a, j, (l + r) / 2);
          return;
        }
      }
    }

    method QuickSort(a: array<Record>)
      requires Valid() && stackPtr == 0
      modifies this, a
      ensures Valid() && stackPtr == 0
      ensures Sorted(a[..]) && multiset(a[..]) == multiset(old(a[..]))
    {
      stack := new Interval[a.Length](_ => Interval(0, 0));
      Coarse(a);
      InsertionSort(a);
    }

    /** The explicit-stack loop. */
    method Coarse(a: array<Record>)
      requires Valid() && stackPtr == 0 && stack.Length == a.Length
      modifies this`stackPtr, stack, a
      ensures Valid() && stackPtr == 0
      ensures multiset(a[..]) == multiset(old(a[..]))
    {
      hide Descending, Beside, TotalSize;
      var n := a.Length;
      var l, r := 0, n - 1;
      NothingStacked(n, l, r);
      while true
        invariant Valid() && multiset(a[..]) == multiset(old(a[..]))
        invariant 0 <= l && r < n
        invariant Descending(Stacked(), n) && Beside(Stacked(), l, r)
        decreases TotalSize(Stacked()) + Interval(l, r).Size()
      {
        if r - l < M {
          var ok, c := PullNext(n);
          if !ok {
            break;
          }
          l, r := c.start, c.end;
        }
        var j := Partition(a, l, r);
        var more;
        more, l, r := Divide(l, r, j, n);
        if !more {
          break;
        }
      }
    }

    method PullNext(ghost n: nat) returns (ok: bool, c: Interval)
      requires Valid() && Descending(Stacked(), n)
      modifies this`stackPtr
      ensures Valid() && ok == (old(stackPtr) > 0) && (!ok ==> stackPtr == 0)
      ensures ok ==> Descending(Stacked(), n) && Beside(Stacked(), c.start, c.end)
      ensures ok ==> 0 <= c.start && c.end < n && c.end - c.start >= M
      ensures ok ==> TotalSize(Stacked()) + c.Size() == old(TotalSize(Stacked()))
    {
      hide Descending, Beside, TotalSize;
      ok, c := Pull();
      if ok { AfterPull(Stacked(), c, n); }
    }

    /** What to go on with after the partition at j, and what to leave on the stack. */
    method Divide(l: int, r: int, j: int, ghost n: nat) returns (more: bool, l': int, r': int)
      requires Valid() && stack.Length == n && Descending(Stacked(), n) && Beside(Stacked(), l, r)
      requires 0 <= l <= j <= r < n && r - l >= M
      modifies this`stackPtr, stack
      ensures Valid() && (!more ==> stackPtr == 0)
      ensures more ==> Descending(Stacked(), n) && Beside(Stacked(), l', r') && 0 <= l' && r' < n
      ensures more ==>
              TotalSize(Stacked()) + Interval(l', r').Size() < old(TotalSize(Stacked())) + Interval(l, r).Size()
    {
      hide Descending, Beside, TotalSize;
      ghost var s := Stacked();
      StackBound(s, n);
      more, l', r' := true, l, r;
      if r - j > M {
        if j - l > M {
          AfterPush(s, l, r, n, Interval(j + 1, r), l, j - 1);
          Push(j + 1, r);
          r' := j - 1;
        } else {
          Narrower(s, l, r, j + 1, r);
          l' := j + 1;
        }
      } else if j - l > M {
        AfterPush(s, l, r, n, Interval(l, j - 1), j + 1, r);
        Push(l, j - 1);
        l' := j + 1;
      } else {
        var c;
        more, c := PullNext(n);
        l', r' := c.start, c.end;
      }
    }
  }

  lemma {:induction false} NothingStacked(n: nat, l: int, r: int)
    ensures Descending([], n) && Beside([], l, r)
  {
  }

  lemma {:induction false} Narrower(s: seq<Interval>, l: int, r: int, l': int, r': int)
    requires Beside(s, l, r) && r - l >= M && l <= l' && r' <= r
    ensures Beside(s, l', r')
  {
  }

  // ---------- The insertion sort that finishes quick_sort ----------

  method InsertionSort(a: array<Record>)
    modifies a
    ensures Sorted(a[..]) && multiset(a[..]) == multiset(old(a[..]))
  {
    var j := 1;
    while j < a.Length
      invariant 1 <= j && (j <= a.Length || a.Length == 0)
      invariant Sorted(a[..if j <= a.Length then j else a.Length])
      invariant multiset(a[..]) == multiset(old(a[..]))
    {
      InsertAt(a, j);
      j := j + 1;
    }
  }

  method InsertAt(a: array<Record>, j: nat)
    requires 1 <= j < a.Length && Sorted(a[..j])
    modifies a
    ensures Sorted(a[..j + 1]) && multiset(a[..]) == multiset(old(a[..]))
  {
    if a[j - 1].key <= a[j].key {
      return;
    }
    var k := a[j];
    var i := j - 1;
    ghost var s := a[..];
    while i >= 0 && a[i].key > k.key
      invariant -1 <= i < j
      invariant forall x :: 0 <= x <= i + 1 || j < x < a.Length ==> a[x] == s[x]
      invariant forall x :: i + 1 < x <= j ==> a[x] == s[x - 1]
      invariant forall x :: i < x < j ==> k.key < s[x].key
    {
      a[i + 1] := a[i];
      i := i - 1;
    }
    a[i + 1] := k;
    Moved(s, a[..], i + 1, j);
  }

  /** Record j has moved up to position p, past everything that is greater. */
  ghost predicate MovedUp(s: seq<Record>, t: seq<Record>, p: nat, j: nat) {
    && p <= j < |s| == |t| && t[p] == s[j]
    && (forall x :: 0 <= x < p || j < x < |s| ==> t[x] == s[x])
    && (forall x :: p < x <= j ==> t[x] == s[x - 1])
  }

  lemma {:induction false} Moved(s: seq<Record>, t: seq<Record>, p: nat, j: nat)
    requires MovedUp(s, t, p, j) && Sorted(s[..j])
    requires p > 0 ==> s[p - 1].key <= s[j].key
    requires forall x :: p <= x < j ==> s[j].key < s[x].key
    ensures Sorted(t[..j + 1]) && multiset(t) == multiset(s)
  {
    MovedSame(s, t, p, j);
    assert forall x :: 0 <= x < j ==> s[x] == s[..j][x];
    forall x, y | 0 <= x < y <= j ensures t[x].key <= t[y].key {
      if y == p && x < p - 1 { assert s[x].key <= s[p - 1].key; }
    }
  }

  lemma {:induction false} MovedSame(s: seq<Record>, t: seq<Record>, p: nat, j: nat)
    requires MovedUp(s, t, p, j)
    ensures multiset(t) == multiset(s)
  {
    var a, b, k, c := s[..p], s[p..j], [s[j]], s[j + 1..];
    assert s == a + b + k + c;
    assert t == a + k + b + c;
    hide MovedUp;
    Regrouped(a, b, k, c);
  }

  lemma {:induction false} Regrouped(a: seq<Record>, b: seq<Record>, k: seq<Record>, c: seq<Record>)
    ensures multiset(a + k + b + c) == multiset(a + b + k + c)
  {
  }

  // ---------- heap_sort ----------

  /**
   The heap whose parent function is i / 2 on slots counted from zero: the children of slot i are 2i and
   2i + 1, so slot 0 is its own child and has slot 1 as its only other one.  From slot l on it is in order.
   */
  ghost predicate Heap(s: seq<Record>, l: int, r: int) {
    forall c :: 0 <= c <= r && c < |s| && l <= c / 2 ==> s[c / 2].key >= s[c].key
  }

  /** A heap but for the children of slot i, which are in order with the slot above i. */
  ghost predicate HeapBut(s: seq<Record>, l: int, r: int, i: int) {
    && (forall c :: 0 <= c <= r && c < |s| && l <= c / 2 && c / 2 != i ==> s[c / 2].key >= s[c].key)
    && (i > l ==> forall c :: 0 <= c <= r && c < |s| && c / 2 == i && 0 <= i / 2 < |s| ==> s[i / 2].key >= s[c].key)
  }

  /** k is at least as great as all that stands below slot i. */
  ghost predicate Tops(s: seq<Record>, r: int, i: int) {
    forall c :: 0 <= c <= r && c < |s| && c / 2 == i < |s| ==> s[i].key >= s[c].key
  }

  lemma {:induction false} HeapDone(s: seq<Record>, l: int, r: int, i: int)
    requires HeapBut(s, l, r, i) && Tops(s, r, i) && 0 <= l <= i < |s|
    ensures Heap(s, l, r)
  {
  }

  /** The greater child j of slot i moves up, and k, which stood in slot i, moves down to slot j. */
  lemma {:induction false} SiftStep(s: seq<Record>, l: int, r: int, i: int, j: int)
    requires HeapBut(s, l, r, i) && 0 <= l <= i < j <= r < |s| && j / 2 == i && s[j].key > s[i].key
    requires forall c :: 0 <= c <= r && c / 2 == i && c != i ==> s[c].key <= s[j].key
    ensures HeapBut(Swapped(s, i, j), l, r, j)
  {
    var t := Swapped(s, i, j);
    forall c | 0 <= c <= r && l <= c / 2 && c / 2 != j ensures t[c / 2].key >= t[c].key {
      if c / 2 == i {
      } else if c == i {
        assert s[c / 2].key >= s[j].key;
      } else {
        assert c != j && c / 2 != j;
      }
    }
    forall c | 0 <= c <= r && c / 2 == j ensures t[j / 2].key >= t[c].key {
      assert s[c / 2].key >= s[c].key;
    }
  }

  /** The top of a whole heap is its greatest element. */
  lemma {:induction false} TopIsGreatest(s: seq<Record>, r: int, c: int)
    requires Heap(s, 0, r) && 0 <= c <= r < |s|
    ensures s[0].key >= s[c].key
    decreases c
  {
    if c > 0 {
      TopIsGreatest(s, r, c / 2);
      assert s[c / 2].key >= s[c].key;
    }
  }

  /** a is s except in slot i, which is about to be overwritten. */
  ghost predicate Except(a: array<Record>, s: seq<Record>, i: int)
    reads a
  {
    |s| == a.Length && forall x :: 0 <= x < a.Length && x != i ==> a[x] == s[x]
  }

  /** What the sift leaves alone, and a bound that it keeps. */
  ghost predicate Kept(s: seq<Record>, t: seq<Record>, l: nat, r: nat, b: int) {
    && |s| == |t| && multiset(s) == multiset(t)
    && (forall x :: 0 <= x < |s| && (x < l || r < x) ==> s[x] == t[x])
    && (forall x :: l <= x <= r && x < |s| ==> s[x].key <= b)
  }

  lemma {:induction false} KeptSwap(s: seq<Record>, t: seq<Record>, l: nat, r: nat, b: int, i: nat, j: nat)
    requires Kept(s, t, l, r, b) && l <= i <= r < |s| && l <= j <= r
    ensures Kept(Swapped(s, i, j), t, l, r, b)
  {
    SwappedSame(s, i, j);
  }

  /** The greater of the children of slot i that are in range. */
  ghost predicate GreaterChild(s: seq<Record>, r: int, i: int, j: int) {
    0 <= i < j <= r < |s| && j / 2 == i && forall c :: 0 <= c <= r && c / 2 == i && c != i ==> s[c].key <= s[j].key
  }

  /** Choosing between slots 2i and 2i + 1; for slot 0 the first of them is slot 0 itself. */
  lemma {:induction false} Greater(s: seq<Record>, r: int, i: int, j: int)
    requires 0 <= i && 2 * i < r < |s|
    requires j == if s[2 * i].key < s[2 * i + 1].key then 2 * i + 1 else 2 * i
    ensures GreaterChild(s, r, i, j) || (i == j == 0 && Tops(s, r, 0))
  {
  }

  lemma {:induction false} OnlyChild(s: seq<Record>, r: int, i: int)
    requires 1 <= i && 2 * i == r < |s|
    ensures GreaterChild(s, r, i, r)
  {
  }

  lemma {:induction false} TopsGreater(s: seq<Record>, r: int, i: int, j: int)
    requires GreaterChild(s, r, i, j) && s[j].key <= s[i].key
    ensures Tops(s, r, i)
  {
  }

  lemma {:induction false} TopsNothing(s: seq<Record>, r: int, i: int)
    requires 0 <= i && (2 * i > r || r == 0)
    ensures Tops(s, r, i)
  {
  }

  lemma {:induction false} KeptStart(s: seq<Record>, l: nat, r: nat, b: int)
    requires forall x :: l <= x <= r && x < |s| ==> s[x].key <= b
    ensures Kept(s, s, l, r, b)
  {
  }

  /** The record in slot j moves up into the slot above it, so that the gap is in slot j. */
  method MoveUp(a: array<Record>, ghost h: seq<Record>, ghost t: seq<Record>, ghost l: nat, ghost r: nat, i: nat,
                j: nat, ghost b: int)
    returns (ghost h': seq<Record>)
    requires Except(a, h, i) && HeapBut(h, l, r, i) && Kept(h, t, l, r, b)
    requires l <= i && GreaterChild(h, r, i, j) && h[j].key > h[i].key
    modifies a
    ensures Except(a, h', j) && h'[j] == h[i] && HeapBut(h', l, r, j) && Kept(h', t, l, r, b)
  {
    hide HeapBut, Kept;
    SiftStep(h, l, r, i, j);
    KeptSwap(h, t, l, r, b, i, j);
    h' := Swapped(h, i, j);
    a[i] := a[j];
  }

  lemma {:induction false} LoopEnd(s: seq<Record>, r: int, i: int)
    requires 0 <= i <= 2 * i && r <= 2 * i && 0 <= r < |s| && i < |s|
    requires 2 * i == r ==> s[2 * i].key <= s[i].key
    ensures Tops(s, r, i)
  {
  }

  /** The sift loop: puts record k, which stands in slot l, where it belongs. */
  method Sift(a: array<Record>, l: nat, r: nat, ghost b: int)
    requires l <= r < a.Length && HeapBut(a[..], l, r, l)
    requires forall x :: l <= x <= r ==> a[x].key <= b
    modifies a
    ensures Heap(a[..], l, r) && Kept(a[..], old(a[..]), l, r, b)
  {
    hide HeapBut, Heap, Kept, Tops, GreaterChild;
    var k := a[l];
    var i, j := l, 2 * l;
    ghost var h, t, settled := a[..], a[..], false;
    KeptStart(h, l, r, b);
    while j < r
      invariant l <= i <= r && j == 2 * i && Except(a, h, i) && h[i] == k && (i == l ==> a[i] == k)
      invariant HeapBut(h, l, r, i) && Kept(h, t, l, r, b) && !settled
      decreases r - i
    {
      if a[j].key < a[j + 1].key {
        j := j + 1;
      }
      Greater(h, r, i, j);
      if a[j].key <= k.key {
        if i != j { TopsGreater(h, r, i, j); }
        settled := true;
        break;
      }
      h := MoveUp(a, h, t, l, r, i, j, b);
      i := j;
      j := 2 * j;
    }
    if !settled && !(j == r && a[j].key > k.key) {
      LoopEnd(h, r, i);
    }
    if j == r && a[j].key > k.key {
      OnlyChild(h, r, i);
      h := MoveUp(a, h, t, l, r, i, j, b);
      i := j;
      TopsNothing(h, r, i);
    }
    a[i] := k;
    assert a[..] == h;
    HeapDone(h, l, r, i);
  }

  /** Behind slot r the array is sorted, and b separates it from the rest. */
  ghost predicate Split(s: seq<Record>, r: int, b: int) {
    && (forall x :: 0 <= x <= r && x < |s| ==> s[x].key <= b)
    && (forall x :: r < x < |s| && 0 <= x ==> b <= s[x].key)
    && (forall x, y :: r < x < y < |s| && 0 <= x ==> s[x].key <= s[y].key)
  }

  lemma {:induction false} KeptSplit(s: seq<Record>, t: seq<Record>, l: nat, r: nat, b: int)
    requires Kept(t, s, l, r, b) && Split(s, r, b) && r < |s|
    ensures Split(t, r, b) && multiset(t) == multiset(s)
  {
  }

  /** One more slot joins the heap. */
  method Grow(a: array<Record>, l: nat, r: nat, ghost b: int)
    requires l <= r < a.Length && Heap(a[..], l + 1, r) && Split(a[..], r, b)
    modifies a
    ensures Heap(a[..], l, r) && Split(a[..], r, b) && multiset(a[..]) == multiset(old(a[..]))
  {
    Sift(a, l, r, b);
    KeptSplit(old(a[..]), a[..], l, r, b);
  }

  /** The greatest record of the heap changes places with the last, and the heap shrinks by it. */
  method Shrink(a: array<Record>, r: nat, ghost b: int) returns (ghost b': int)
    requires 0 < r < a.Length && Heap(a[..], 0, r) && Split(a[..], r, b)
    modifies a
    ensures Heap(a[..], 0, r - 1) && Split(a[..], r - 1, b') && multiset(a[..]) == multiset(old(a[..]))
  {
    b' := a[0].key;
    forall c | 0 <= c <= r ensures a[c].key <= b' {
      TopIsGreatest(a[..], r, c);
    }
    Swap(a, 0, r);
    ghost var s := a[..];
    Sift(a, 0, r - 1, b');
    KeptSplit(s, a[..], 0, r - 1, b');
  }

  method HeapSort(a: array<Record>)
    modifies a
    ensures Sorted(a[..]) && multiset(a[..]) == multiset(old(a[..]))
  {
    hide Heap, Split;
    var n := a.Length;
    var l, r := (if n == 0 then 0 else (n - 1) / 2 + 1), n - 1;
    ghost var b := UpperBound(a[..]);
    NoneBelow(a[..], l, r, b);
    while l > 0 || r > 0
      invariant multiset(a[..]) == multiset(old(a[..])) && Heap(a[..], l, r) && Split(a[..], r, b)
      invariant 0 <= l && -1 <= r < n && (n > 0 ==> 0 <= r) && (l > 0 ==> l <= r + 1)
      decreases l, r
    {
      if l > 0 {
        l := l - 1;
        Grow(a, l, r, b);
      } else {
        b := Shrink(a, r, b);
        r := r - 1;
      }
    }
    AllSplit(a[..], r, b);
  }

  lemma {:induction false} NoneBelow(s: seq<Record>, l: nat, r: int, b: int)
    requires r == |s| - 1 && 2 * l > r && forall x :: 0 <= x < |s| ==> s[x].key <= b
    ensures Heap(s, l, r) && Split(s, r, b)
  {
  }

  lemma {:induction false} AllSplit(s: seq<Record>, r: int, b: int)
    requires Split(s, r, b) && r <= 0
    ensures Sorted(s)
  {
  }

  lemma {:induction false} UpperBound(s: seq<Record>) returns (b: int)
    ensures forall x :: 0 <= x < |s| ==> s[x].key <= b
  {
    if s == [] {
      b := 0;
    } else {
      b := UpperBound(s[..|s| - 1]);
      if b < s[|s| - 1].key { b := s[|s| - 1].key; }
    }
  }
}
