/** timerqueue.c: the order of the queue. */
module TimerOrder {
  import opened RbShape
  import opened Sequences

  // By expiry, and among equal expiries by arrival.

  type Expiry = map<Ptr, int>

  ghost function At(exp: Expiry, x: Ptr): int { if x in exp then exp[x] else 0 }

  ghost predicate Ordered(exp: Expiry, s: seq<Ptr>) {
    forall i, j :: 0 <= i < j < |s| ==> At(exp, s[i]) <= At(exp, s[j])
  }

  /** x put behind everything that does not expire later than it. */
  ghost function Enqueue(exp: Expiry, s: seq<Ptr>, x: Ptr): seq<Ptr> {
    if s == [] then [x]
    else if At(exp, x) < At(exp, s[0]) then [x] + s
    else [s[0]] + Enqueue(exp, s[1..], x)
  }

  /** The queue that results when the nodes of l arrive one after the other. */
  ghost function Arranged(exp: Expiry, l: seq<Ptr>): seq<Ptr> {
    if l == [] then [] else Enqueue(exp, Arranged(exp, l[..|l| - 1]), l[|l| - 1])
  }

  /** The nodes of s that expire at k, in the order in which s has them. */
  ghost function Expiring(exp: Expiry, s: seq<Ptr>, k: int): seq<Ptr> {
    if s == [] then [] else If(At(exp, s[0]) == k, s[0]) + Expiring(exp, s[1..], k)
  }

  /** Where the descent of timerqueue_add ends up. */
  lemma {:induction false} EnqueueSplit(exp: Expiry, a: seq<Ptr>, b: seq<Ptr>, x: Ptr)
    requires forall y :: y in a ==> At(exp, y) <= At(exp, x)
    requires forall y :: y in b ==> At(exp, x) < At(exp, y)
    ensures Enqueue(exp, a + b, x) == a + [x] + b
  {
    if a == [] {
      assert a + b == b;
    } else {
      assert (a + b)[1..] == a[1..] + b;
      EnqueueSplit(exp, a[1..], b, x);
      assert a + [x] + b == [a[0]] + (a[1..] + [x] + b);
    }
  }

  lemma {:induction false} EnqueueSame(exp: Expiry, s: seq<Ptr>, x: Ptr)
    ensures multiset(Enqueue(exp, s, x)) == multiset(s) + multiset{x}
  {
    if s != [] {
      EnqueueSame(exp, s[1..], x);
      assert s == [s[0]] + s[1..];
    }
  }

  lemma {:induction false} EnqueueOrdered(exp: Expiry, s: seq<Ptr>, x: Ptr)
    requires Ordered(exp, s)
    ensures Ordered(exp, Enqueue(exp, s, x))
  {
    if s != [] && At(exp, x) >= At(exp, s[0]) {
      TailOrdered(exp, s);
      EnqueueOrdered(exp, s[1..], x);
      var e := Enqueue(exp, s[1..], x);
      EnqueueSame(exp, s[1..], x);
      forall i | 0 <= i < |e| ensures At(exp, s[0]) <= At(exp, e[i]) {
        assert e[i] in multiset(e);
        assert e[i] == x || e[i] in s[1..];
      }
    }
  }

  lemma {:induction false} TailOrdered(exp: Expiry, s: seq<Ptr>)
    requires Ordered(exp, s) && s != []
    ensures Ordered(exp, s[1..])
    ensures forall x :: x in s[1..] ==> At(exp, s[0]) <= At(exp, x)
  {
    assert forall i :: 0 <= i < |s[1..]| ==> s[1..][i] == s[i + 1];
  }

  lemma {:induction false} ExpiringCons(exp: Expiry, x: Ptr, s: seq<Ptr>, k: int)
    ensures Expiring(exp, [x] + s, k) == If(At(exp, x) == k, x) + Expiring(exp, s, k)
  {
    assert ([x] + s)[1..] == s;
  }

  ghost function If(b: bool, x: Ptr): seq<Ptr> { if b then [x] else [] }

  lemma {:induction false} EnqueueExpiring(exp: Expiry, s: seq<Ptr>, x: Ptr, k: int)
    requires Ordered(exp, s)
    ensures Expiring(exp, Enqueue(exp, s, x), k) == Expiring(exp, s, k) + If(At(exp, x) == k, x)
  {
    var e := Expiring(exp, s, k);
    if s == [] {
      ExpiringCons(exp, x, [], k);
    } else if At(exp, x) < At(exp, s[0]) {
      ExpiringCons(exp, x, s, k);
      if At(exp, x) == k {
        NoneExpiring(exp, s, k);
      } else {
        assert [] + e == e == e + [];
      }
    } else {
      TailOrdered(exp, s);
      EnqueueExpiring(exp, s[1..], x, k);
      ExpiringCons(exp, s[0], Enqueue(exp, s[1..], x), k);
      Assoc(If(At(exp, s[0]) == k, s[0]), Expiring(exp, s[1..], k), If(At(exp, x) == k, x));
    }
  }

  lemma {:induction false} NoneExpiring(exp: Expiry, s: seq<Ptr>, k: int)
    requires forall x :: x in s ==> At(exp, x) != k
    ensures Expiring(exp, s, k) == []
  {
    if s != [] { NoneExpiring(exp, s[1..], k); }
  }

  lemma {:induction false} ExpiringConcat(exp: Expiry, a: seq<Ptr>, b: seq<Ptr>, k: int)
    ensures Expiring(exp, a + b, k) == Expiring(exp, a, k) + Expiring(exp, b, k)
  {
    if a == [] {
      assert a + b == b;
    } else {
      assert (a + b)[1..] == a[1..] + b;
      ExpiringConcat(exp, a[1..], b, k);
    }
  }

  lemma {:induction false} ExpiringSnoc(exp: Expiry, s: seq<Ptr>, x: Ptr, k: int)
    ensures Expiring(exp, s + [x], k) == Expiring(exp, s, k) + If(At(exp, x) == k, x)
  {
    ExpiringConcat(exp, s, [x], k);
    ExpiringCons(exp, x, [], k);
    assert [x] + [] == [x];
  }

  /**
   The queue is a stable sort of the arrivals: in order of expiry, the same nodes, and for every expiry
   the nodes that have it in order of arrival.
   */
  lemma {:induction false} ArrangedIsStableSort(exp: Expiry, l: seq<Ptr>)
    ensures Ordered(exp, Arranged(exp, l)) && multiset(Arranged(exp, l)) == multiset(l)
    ensures forall k :: Expiring(exp, Arranged(exp, l), k) == Expiring(exp, l, k)
  {
    if l != [] {
      var front, x := l[..|l| - 1], l[|l| - 1];
      ArrangedIsStableSort(exp, front);
      var s := Arranged(exp, front);
      EnqueueOrdered(exp, s, x);
      EnqueueSame(exp, s, x);
      assert l == front + [x];
      forall k ensures Expiring(exp, Arranged(exp, l), k) == Expiring(exp, l, k) {
        EnqueueExpiring(exp, s, x, k);
        ExpiringSnoc(exp, front, x, k);
      }
    }
  }

  /** The three properties leave no choice: any two sequences that have them are the same. */
  lemma {:induction false} StableSortUnique(exp: Expiry, s: seq<Ptr>, t: seq<Ptr>)
    requires Ordered(exp, s) && Ordered(exp, t)
    requires forall k :: Expiring(exp, s, k) == Expiring(exp, t, k)
    ensures s == t
  {
    if s == [] || t == [] {
      if s != [] { ExpiringHead(exp, s); }
      if t != [] { ExpiringHead(exp, t); }
    } else {
      LeastExpiring(exp, s, t);
      LeastExpiring(exp, t, s);
      ExpiringHead(exp, s);
      ExpiringHead(exp, t);
      TailOrdered(exp, s);
      TailOrdered(exp, t);
      assert s[0] == t[0];
      forall j ensures Expiring(exp, s[1..], j) == Expiring(exp, t[1..], j) {
        var first := If(At(exp, s[0]) == j, s[0]);
        assert Expiring(exp, s, j) == first + Expiring(exp, s[1..], j);
        assert Expiring(exp, t, j) == first + Expiring(exp, t[1..], j);
        assert Expiring(exp, s, j)[|first|..] == Expiring(exp, s[1..], j);
        assert Expiring(exp, t, j)[|first|..] == Expiring(exp, t[1..], j);
      }
      StableSortUnique(exp, s[1..], t[1..]);
      assert s == [s[0]] + s[1..] && t == [t[0]] + t[1..];
    }
  }

  lemma {:induction false} ExpiringHead(exp: Expiry, s: seq<Ptr>)
    requires s != []
    ensures var e := Expiring(exp, s, At(exp, s[0])); e != [] && e[0] == s[0]
  {
  }

  lemma {:induction false} LeastExpiring(exp: Expiry, s: seq<Ptr>, t: seq<Ptr>)
    requires s != [] && t != [] && Ordered(exp, t)
    requires forall k :: Expiring(exp, s, k) == Expiring(exp, t, k)
    ensures At(exp, t[0]) <= At(exp, s[0])
  {
    var k := At(exp, s[0]);
    assert Expiring(exp, s, k) != [];
    assert Expiring(exp, t, k) != [];
    if At(exp, s[0]) < At(exp, t[0]) {
      forall x | x in t ensures At(exp, x) != k {
        var i :| 0 <= i < |t| && t[i] == x;
        assert At(exp, t[0]) <= At(exp, t[i]);
      }
      NoneExpiring(exp, t, k);
    }
  }

  /** Taking a node out of the arrivals takes it out of the queue. */
  lemma {:induction false} EnqueueWithout(exp: Expiry, s: seq<Ptr>, y: Ptr, x: Ptr)
    requires Ordered(exp, s)
    ensures Without(Enqueue(exp, s, y), x) == if x == y then Without(s, x) else Enqueue(exp, Without(s, x), y)
  {
    if s == [] {
      assert Without([y], x) == if x == y then [] else [y];
    } else if At(exp, y) < At(exp, s[0]) {
      assert ([y] + s)[1..] == s;
      if x != y { FrontEnqueue(exp, s, y, x); }
    } else {
      TailOrdered(exp, s);
      EnqueueWithout(exp, s[1..], y, x);
      var e := Enqueue(exp, s[1..], y);
      assert ([s[0]] + e)[1..] == e;
    }
  }

  lemma {:induction false} FrontEnqueue(exp: Expiry, s: seq<Ptr>, y: Ptr, x: Ptr)
    requires s != [] && Ordered(exp, s) && At(exp, y) < At(exp, s[0])
    ensures Enqueue(exp, Without(s, x), y) == [y] + Without(s, x)
  {
    var w := Without(s, x);
    if w != [] {
      WithoutIn(s, x);
      assert w[0] in s;
      var i :| 0 <= i < |s| && s[i] == w[0];
      assert At(exp, s[0]) <= At(exp, s[i]);
    }
  }

  lemma {:induction false} ArrangedWithout(exp: Expiry, l: seq<Ptr>, x: Ptr)
    ensures Arranged(exp, Without(l, x)) == Without(Arranged(exp, l), x)
  {
    if l != [] {
      var front, y := l[..|l| - 1], l[|l| - 1];
      ArrangedWithout(exp, front, x);
      ArrangedIsStableSort(exp, front);
      EnqueueWithout(exp, Arranged(exp, front), y, x);
      WithoutLast(l, x);
      if x != y { ArrangedSnoc(exp, Without(front, x), y); }
    }
  }

  lemma {:induction false} WithoutLast(l: seq<Ptr>, x: Ptr)
    requires l != []
    ensures var front, y := l[..|l| - 1], l[|l| - 1];
            Without(l, x) == if x == y then Without(front, x) else Without(front, x) + [y]
  {
    var front, y := l[..|l| - 1], l[|l| - 1];
    assert l == front + [y];
    WithoutConcat(front, [y], x);
    assert Without([y], x) == if x == y then [] else [y];
  }

  lemma {:induction false} ArrangedSnoc(exp: Expiry, l: seq<Ptr>, y: Ptr)
    ensures Arranged(exp, l + [y]) == Enqueue(exp, Arranged(exp, l), y)
  {
    var w := l + [y];
    assert w[..|w| - 1] == l;
  }

  /** The expiry of a node outside the queue does not matter to it. */
  lemma {:induction false} EnqueueAgree(exp: Expiry, exp': Expiry, s: seq<Ptr>, x: Ptr)
    requires At(exp, x) == At(exp', x) && forall y :: y in s ==> At(exp, y) == At(exp', y)
    ensures Enqueue(exp, s, x) == Enqueue(exp', s, x)
  {
    if s != [] { EnqueueAgree(exp, exp', s[1..], x); }
  }

  lemma {:induction false} ArrangedAgree(exp: Expiry, exp': Expiry, l: seq<Ptr>)
    requires forall y :: y in l ==> At(exp, y) == At(exp', y)
    ensures Arranged(exp, l) == Arranged(exp', l)
  {
    if l != [] {
      var front, x := l[..|l| - 1], l[|l| - 1];
      ArrangedAgree(exp, exp', front);
      ArrangedIsStableSort(exp, front);
      forall y | y in Arranged(exp, front) ensures y in front {
        assert y in multiset(Arranged(exp, front));
      }
      EnqueueAgree(exp, exp', Arranged(exp, front), x);
    }
  }
}
