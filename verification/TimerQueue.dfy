/** The timer queue: a red-black tree ordered by expiry, with its first node cached. */
module TimerQueue {
  import opened RbShape
  import opened RbHeap
  import opened RbOrder
  import opened RbFrame
  import RbTree
  import opened TimerOrder

  /** The queue's tree is not augmented: its values carry nothing, and the callbacks do nothing. */
  datatype Dummy = Dummy

  const DUMMY_CALLBACKS: Summary<Dummy> := Summary(Dummy, (a, b) => Dummy, x => Dummy)

  /** In an ordered tree, what is left of a node expires no later than it, and what is right no earlier. */
  lemma {:induction false} SubtreeOrdered<A>(exp: Expiry, path: Path<A>, t: Tree<A>)
    requires t.Node? && Ordered(exp, Inorder(Plug(path, t)))
    ensures forall x :: x in Inorder(t.left) ==> At(exp, x) <= At(exp, t.id)
    ensures forall x :: x in Inorder(t.right) ==> At(exp, t.id) <= At(exp, x)
  {
    InorderSplit(path, t);
    var a, l, r, b := Before(path), Inorder(t.left), Inorder(t.right), After(path);
    ShiftNode(a, l, t.id, r, b);
    hide *;
    OrderedAround(exp, a + l, t.id, r + b);
  }

  lemma {:induction false} OrderedAround(exp: Expiry, a: seq<Ptr>, x: Ptr, b: seq<Ptr>)
    requires Ordered(exp, a + [x] + b)
    ensures forall y :: y in a ==> At(exp, y) <= At(exp, x)
    ensures forall y :: y in b ==> At(exp, x) <= At(exp, y)
  {
    var s := a + [x] + b;
    assert s[|a|] == x;
    forall y | y in a ensures At(exp, y) <= At(exp, x) {
      var i :| 0 <= i < |a| && a[i] == y;
      assert s[i] == y;
    }
    forall y | y in b ensures At(exp, x) <= At(exp, y) {
      var i :| 0 <= i < |b| && b[i] == y;
      assert s[|a| + 1 + i] == y;
    }
  }

  lemma {:induction false} ArrangedMembers(exp: Expiry, l: seq<Ptr>)
    ensures forall x :: x in Arranged(exp, l) <==> x in l
  {
    ArrangedIsStableSort(exp, l);
    forall x ensures x in Arranged(exp, l) <==> x in l {
      assert x in Arranged(exp, l) <==> x in multiset(Arranged(exp, l));
      assert x in l <==> x in multiset(l);
    }
  }

  ghost function First(s: seq<Ptr>): Ptr { if s == [] then NULL else s[0] }

  lemma {:induction false} FirstOfEnqueue(exp: Expiry, s: seq<Ptr>, x: Ptr)
    ensures First(Enqueue(exp, s, x)) == if s == [] || At(exp, x) < At(exp, First(s)) then x else First(s)
    ensures NULL !in s ==> (s == [] <==> First(s) == NULL)
    ensures s != [] ==> First(s) in s
  {
  }

  class TimerQueueHead {
    const head: RbTree.RbRoot<Dummy>
    var expires: map<Ptr, int>
    var next: Ptr
    ghost var arrivals: seq<Ptr>

    ghost function Contents(): seq<Ptr>
      reads head
    {
      Inorder(head.tree)
    }

    /** The queue is the stable sort of what has arrived and not left, and next is its first node. */
    ghost predicate Valid()
      reads this, head
    {
      && head.Sound()
      && (forall x :: x in head.mem ==> x in expires)
      && Contents() == Arranged(expires, arrivals)
      && next == First(Contents())
    }

    constructor (mem: Mem<Dummy>, expires: map<Ptr, int>)
      requires forall x :: x in mem ==> x in expires
      ensures Valid() && fresh(head) && arrivals == [] && head.mem == mem && this.expires == expires
    {
      head := new RbTree.RbRoot(DUMMY_CALLBACKS, mem);
      this.expires := expires;
      next := NULL;
      arrivals := [];
    }

    /** timerqueue_init on a node that has just been allocated at address node. */
    method Init(node: Ptr)
      requires Valid() && node != NULL && node !in head.mem
      modifies this`expires, head
      ensures Valid() && arrivals == old(arrivals) && Contents() == old(Contents())
      ensures head.mem.Keys == old(head.mem.Keys) + {node}
      ensures expires == old(expires)[node := 0] && RbTree.Cleared(head.mem, node)
    {
      RbTree.NullNotIn(head.mem, head.tree, NULL);
      ArrangedMembers(expires, arrivals);
      head.Allocate(node, RbNode(node, false, NULL, NULL, Dummy));
      expires := expires[node := 0];
      ArrangedAgree(old(expires), expires, arrivals);
    }

    /** Writing the expiry of a node that is not in the queue. */
    method SetExpires(node: Ptr, t: int)
      requires Valid() && node in head.mem && node !in Contents()
      modifies this`expires
      ensures Valid() && expires == old(expires)[node := t]
    {
      ArrangedMembers(expires, arrivals);
      expires := expires[node := t];
      ArrangedAgree(old(expires), expires, arrivals);
    }

    /** The descent of timerqueue_add: where node is to be linked. */
    method FindPlace(node: Ptr) returns (parent: Ptr, d: Side, ghost path: Path<Dummy>)
      requires Valid() && node in head.mem
      ensures head.tree == Plug(path, Nil) && path.Parent(NULL) == parent && (path.Step? ==> path.side == d)
      ensures Enqueue(expires, Contents(), node) == Before(path) + [node] + After(path)
    {
      ArrangedIsStableSort(expires, arrivals);
      hide Ordered, Unique, Expiring, Inorder, Arranged, Enqueue, Balanced;
      var t, cur := expires[node], head.root;
      parent, d, path := NULL, Left, Top;
      ghost var sub := head.tree;
      while cur != NULL
        invariant Linked(head.mem, sub, parent) && cur == sub.Root() && parent == path.Parent(NULL)
        invariant Plug(path, sub) == head.tree && (path.Step? ==> path.side == d)
        invariant forall x :: x in Before(path) ==> At(expires, x) <= t
        invariant forall x :: x in After(path) ==> t < At(expires, x)
        decreases sub
      {
        SubtreeOrdered(expires, path, sub);
        parent := cur;
        assert expires[cur] == At(expires, cur);
        d := if t < expires[cur] then Left else Right;
        path, sub := Step(d, sub.id, sub.black, sub.aug, sub.Child(d.Other()), path), sub.Child(d);
        cur := head.mem[cur].Child(d);
      }
      PathEnd(head.mem, sub, parent);
      Place(expires, path, node);
    }

    /** timerqueue_add */
    method Add(node: Ptr)
      requires Valid() && node in head.mem && node != NULL && node !in Contents()
      modifies this`next, this`arrivals, head
      ensures Valid() && arrivals == old(arrivals) + [node] && head.mem.Keys == old(head.mem.Keys)
      ensures Contents() == Enqueue(expires, old(Contents()), node) && Kept(old(head.mem), head.mem, Contents())
    {
      hide Linked, Unique, Inorder, Before, After, Plug, Arranged, Ordered, Balanced, Enqueue, First, Leaf, Kept;
      hide Summary.AugOk, Summary.Associative;
      RbTree.NullNotIn(head.mem, head.tree, NULL);
      FirstOfEnqueue(expires, Contents(), node);
      var parent, d, path := FindPlace(node);
      head.Insert(node, parent, d, path);
      arrivals := arrivals + [node];
      ArrangedSnoc(expires, old(arrivals), node);
      if next == NULL || expires[node] < expires[next] {
        next := node;
      }
    }

    /** timerqueue_del */
    method Del(node: Ptr)
      requires Valid() && node in Contents()
      modifies this`next, this`arrivals, head
      ensures Valid() && arrivals == Without(old(arrivals), node) && head.mem.Keys == old(head.mem.Keys)
      ensures Contents() == Without(old(Contents()), node) && node in head.mem && RbTree.Cleared(head.mem, node)
      ensures Kept(old(head.mem), head.mem, old(Contents()))
    {
      hide Kept, Without, Arranged, Linked, Unique, Balanced;
      WithoutFirst(Contents(), node);
      RbTree.NullNotIn(head.mem, head.tree, NULL);
      if next == node {
        next := head.Neighbour(node, Right);
      }
      head.Erase(node);
      WithoutIn(old(Contents()), node);
      ghost var m1 := head.mem;
      head.Clear(node);
      KeptSame(m1, old(Contents()));
      KeptPatched(m1, m1, node, node, false, old(Contents()));
      KeptThen(old(head.mem), m1, head.mem, old(Contents()));
      arrivals := Without(arrivals, node);
      ArrangedWithout(expires, old(arrivals), node);
    }

    /** timerqueue_iterate_next */
    method IterateNext(node: Ptr) returns (r: Ptr)
      requires Valid()
      requires node != NULL ==> node in Contents() || (node in head.mem && RbTree.Cleared(head.mem, node))
      ensures node !in Contents() ==> r == NULL
      ensures forall i :: 0 <= i < |Contents()| && Contents()[i] == node && node != NULL ==>
              r == NextTo(Right, Contents(), i)
    {
      RbTree.NullNotIn(head.mem, head.tree, NULL);
      if node == NULL {
        return NULL;
      }
      r := head.Neighbour(node, Right);
    }
  }

  lemma {:induction false} Place<A>(exp: Expiry, path: Path<A>, x: Ptr)
    requires forall y :: y in Before(path) ==> At(exp, y) <= At(exp, x)
    requires forall y :: y in After(path) ==> At(exp, x) < At(exp, y)
    ensures Enqueue(exp, Inorder(Plug(path, Nil)), x) == Before(path) + [x] + After(path)
  {
    InorderSplit(path, Nil);
    assert Before(path) + Inorder<A>(Nil) + After(path) == Before(path) + After(path);
    EnqueueSplit(exp, Before(path), After(path), x);
  }

  lemma {:induction false} PathEnd<A>(m: Mem<A>, t: Tree<A>, parent: Ptr)
    requires Linked(m, t, parent) && t.Root() == NULL
    ensures t.Nil?
  {
  }

  /** What is first once a node has gone. */
  lemma {:induction false} WithoutFirst(s: seq<Ptr>, x: Ptr)
    requires Unique(s) && x in s
    ensures var w := Without(s, x);
            if s[0] != x then w != [] && w[0] == s[0] else w == s[1..] && NextTo(Right, s, 0) == First(w)
  {
    if s[0] == x { WithoutAbsent(s[1..], x); }
  }
}
