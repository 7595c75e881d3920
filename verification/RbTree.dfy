/**
 The red-black tree in memory: insertion, erasure and augmentation, the walks, and what each of them
 does to the records.
 */
module RbTree {
  import opened RbShape
  import opened RbInsertSpec
  import opened RbEraseSpec
  import opened RbUnlinkSpec
  import opened RbHeap
  import opened RbRotate
  import opened RbUnlinkHeap
  import opened RbOrder
  import opened RbFrame

  /** parent's link to o made to lead to n; m is unchanged when there is no parent. */
  function Relink<A>(m: Mem<A>, parent: Ptr, o: Ptr, n: Ptr): Mem<A>
    requires parent == NULL || parent in m
  {
    if parent == NULL then m else SetChild(m, parent, if m[parent].left == o then Left else Right, n)
  }

  /** What the loop reads around a red parent. */
  lemma {:induction false} InsertReads<A>(rk: Rank, m: Mem<A>, path: Path<A>, t: Tree<A>)
    requires path.Step? && path.up.Step? && Placed(m, path, t, NULL) && rk.PathSorted(path)
    ensures path.id in m && m[path.id].parent == path.up.id && path.up.id in m
    ensures path.up.side == if path.id != m[path.up.id].right then Left else Right
    ensures m[path.up.id].Child(path.up.side.Other()) == path.up.sib.Root()
    ensures path.up.sib.Node? ==>
              path.up.sib.id != NULL && path.up.sib.id in m && m[path.up.sib.id].black == path.up.sib.black
  {
    assert PathLinked(m, path.up, path.id, NULL);
    rk.Nest(path.up);
  }

  lemma {:induction false} FlipPre<A>(rk: Rank, m: Mem<A>, path: Path<A>, t: Tree<A>)
    requires path.Step? && path.up.Step? && path.up.sib.Node? && t.Node? && Placed(m, path, t, NULL)
    requires rk.PathSorted(path)
    ensures path.id in m && path.up.id in m && path.up.sib.id in m
    ensures m[path.up.id].parent == path.up.up.Parent(NULL)
    ensures path.id != path.up.id && path.up.sib.id != path.id && path.up.sib.id != path.up.id
  {
    assert PathLinked(m, path.up, path.id, NULL);
    rk.Nest(path);
    rk.Nest(path.up);
  }

  lemma {:induction false} FlipInorder<A>(path: Path<A>, t: Tree<A>)
    requires path.Step? && path.up.Step?
    ensures Inorder(Plug(path.up.up, Flip(path, t))) == Inorder(Plug(path, t))
  {
    InorderBlacken(path.up.sib);
    InorderPlug(path.up.up, Above(path, t), Flip(path, t));
  }

  /** Insertion case 1: uncle and parent turn black, the grandparent red. */
  lemma {:induction false} FlipPlaced<A>(rk: Rank, m: Mem<A>, m': Mem<A>, path: Path<A>, t: Tree<A>)
    requires path.Step? && path.up.Step? && path.up.sib.Node? && t.Node? && Placed(m, path, t, NULL)
    requires rk.PathSorted(path) && rk.Sorted(t, rk.Lo(path), rk.Hi(path))
    requires Only(m, m', path.id, path.up.id, path.up.sib.id, path.id)
    requires path.id in m && Holds(m', path.id, m[path.id].(parent := path.up.id, black := true))
    requires path.up.id in m && Holds(m', path.up.id, m[path.up.id].(parent := path.up.up.Parent(NULL), black := false))
    requires path.up.sib.id in m && Holds(m', path.up.sib.id, m[path.up.sib.id].(parent := path.up.id, black := true))
    ensures Placed(m', path.up.up, Flip(path, t), NULL)
  {
    var g, d := path.up, path.up.side;
    assert PathLinked(m, g, path.id, NULL);
    rk.Nest(path);
    rk.Nest(g);
    hide Rank.Lo, Rank.Hi, Rank.FarLo, Rank.FarHi, Only;
    rk.Keep(m, m', t, path.id, rk.Lo(path), rk.Hi(path), path.id, g.id, g.sib.id, path.id);
    rk.Keep(m, m', path.sib, path.id, rk.FarLo(path), rk.FarHi(path), path.id, g.id, g.sib.id, path.id);
    rk.KeepBelow(m, m', g.sib, g.id, g.id, true, rk.FarLo(g), rk.FarHi(g), path.id, g.id, g.sib.id, path.id);
    rk.KeepPath(m, m', g.up, g.id, NULL, path.id, g.id, g.sib.id, path.id);
    JoinLinked(m', path.side, path.id, true, path.aug, t, path.sib, g.id);
    JoinLinked(m', d, g.id, false, g.aug, Join(path.side, path.id, true, path.aug, t, path.sib), g.sib.Blacken(),
               g.up.Parent(NULL));
  }

  lemma {:induction false} PlacedIsLinked<A>(m: Mem<A>, path: Path<A>, t: Tree<A>)
    ensures Placed(m, path, t, NULL) <==> Linked(m, Plug(path, t), NULL)
    ensures Plug(path, t).Root() == RootOf(path, t.Root())
  {
    PlugLinked(m, path, t, NULL);
  }

  /** A tree cut open at a node is the path and the subtree, each in memory and in its own interval. */
  lemma {:induction false} CutOpen<A>(m: Mem<A>, path: Path<A>, t: Tree<A>) returns (rk: Rank)
    requires Linked(m, Plug(path, t), NULL) && Unique(Inorder(Plug(path, t)))
    ensures Placed(m, path, t, NULL) && Plug(path, t).Root() == RootOf(path, t.Root())
    ensures rk == RankOf(Inorder(Plug(path, t))) && rk.PathSorted(path) && rk.Sorted(t, rk.Lo(path), rk.Hi(path))
  {
    PlugLinked(m, path, t, NULL);
    rk := RankOf(Inorder(Plug(path, t)));
    RankOfSorted(path, t);
  }

  /** A red sibling has two black children. */
  lemma {:induction false} RedSibling<A>(path: Path<A>, t: Tree<A>, h: nat)
    requires Deficient(path, t, h) && path.sib.Red()
    ensures path.sib.left.Node? && path.sib.right.Node?
    ensures Plug(FromFar(path, t), path.sib.Child(path.side.Other())) == Plug(path, t)
  {
    assert Balanced(path.sib.left, h + 1) && Balanced(path.sib.right, h + 1);
    FromNephews(path, t);
  }

  lemma {:induction false} RecolourInorder<A>(path: Path<A>, t: Tree<A>)
    requires path.Step? && path.sib.Node?
    ensures Inorder(Plug(path.up, Recolour(path, t))) == Inorder(Plug(path, t))
  {
    InorderTint(path.sib, false);
    InorderPlug(path.up, Whole(path, t), Recolour(path, t));
  }

  lemma {:induction false} RecolourPlaced<A>(rk: Rank, m: Mem<A>, m': Mem<A>, path: Path<A>, t: Tree<A>)
    requires path.Step? && path.sib.Node? && Placed(m, path, t, NULL)
    requires rk.PathSorted(path) && rk.Sorted(t, rk.Lo(path), rk.Hi(path))
    requires Only(m, m', path.id, path.sib.id, path.id, path.id)
    requires path.id in m && Holds(m', path.id, m[path.id].(black := true))
    requires path.sib.id in m && Holds(m', path.sib.id, m[path.sib.id].(parent := path.id, black := false))
    ensures Placed(m', path.up, Recolour(path, t), NULL)
  {
    rk.Nest(path);
    hide Rank.Lo, Rank.Hi, Rank.FarLo, Rank.FarHi, Only;
    rk.Keep(m, m', t, path.id, rk.Lo(path), rk.Hi(path), path.id, path.sib.id, path.id, path.id);
    rk.KeepBelow(m, m', path.sib, path.id, path.id, false, rk.FarLo(path), rk.FarHi(path),
                 path.id, path.sib.id, path.id, path.id);
    rk.KeepPath(m, m', path.up, path.id, NULL, path.id, path.sib.id, path.id, path.id);
    JoinLinked(m', path.side, path.id, true, path.aug, t, path.sib.Tint(false), path.up.Parent(NULL));
  }

  lemma {:induction false} NephewReads<A>(m: Mem<A>, path: Path<A>, t: Tree<A>)
    requires path.Step? && path.sib.Node? && Linked(m, path.sib, path.id)
    ensures forall d :: var n := path.sib.Child(d);
                        n.Node? ==> n.id in m && n.id != NULL && m[n.id].black == n.black
  {
    assert Linked(m, path.sib.left, path.sib.id) && Linked(m, path.sib.right, path.sib.id);
  }

  /** What stands at the top after cases 3 and 4, and where the root of the whole tree can be. */
  lemma {:induction false} RotateFacts<A(!new)>(sm: Summary<A>, m: Mem<A>, path: Path<A>, t: Tree<A>)
    requires Linked(m, Plug(path, t), NULL) && path.Step? && path.sib.Node?
    ensures path.sib.id != NULL && (path.up.Parent(NULL) == NULL <==> path.up.Top?)
    ensures path.sib.Child(path.side).Node? ==> RotateNear(sm, path, t).Root() == path.sib.Child(path.side).id
    ensures RotateFar(sm, path, t).Root() == path.sib.id
    ensures forall h: Ptr :: RootOf(path.up, h) == if path.up.Top? then h else Plug(path, t).Root()
  {
    PlacedIsLinked(m, path, t);
    assert Linked(m, path.sib, path.id) && PathLinked(m, path.up, path.id, NULL);
    RootOfStep(path, t.Root(), t.Root());
    forall h: Ptr ensures RootOf(path.up, h) == if path.up.Top? then h else Plug(path, t).Root() {
      if path.up.Step? { RootOfStep(path.up, h, path.id); }
    }
  }

  /** Case 4 may start: x, the child of p that turns black, is apart from everything the rotation relinks. */
  ghost predicate Case4Pre<A>(m: Mem<A>, d: Side, p: Ptr, g: Ptr, c: Ptr, x: Ptr) {
    && x in m && p in m && g in m && x != p && x != g && x != c && x != NULL
    && x != m[g].parent && x != m[g].Child(d.Other())
    && RisePre(SetParentColor(m, x, p, true), d, p, g, c)
  }

  /** With a red far nephew it may start at once. */
  lemma {:induction false} FarReady<A>(rk: Rank, m: Mem<A>, path: Path<A>, t: Tree<A>)
    requires path.Step? && path.sib.Node? && path.sib.Child(path.side.Other()).Node?
    requires var from, far := FromFar(path, t), path.sib.Child(path.side.Other());
             Placed(m, from, far, NULL) && rk.PathSorted(from) && rk.Sorted(far, rk.Lo(from), rk.Hi(from))
    ensures var from, far := FromFar(path, t), path.sib.Child(path.side.Other());
            && Case4Pre(m, path.side.Other(), path.sib.id, path.id, path.sib.Child(path.side).Root(), far.id)
            && Placed(SetParentColor(m, far.id, path.sib.id, true), from, far.Blacken(), NULL)
            && rk.Sorted(far.Blacken(), rk.Lo(from), rk.Hi(from))
  {
    var from, far := FromFar(path, t), path.sib.Child(path.side.Other());
    TintPlaced(rk, m, from, far, true);
    TipApart(rk, from, far);
    RisePreHolds(rk, SetParentColor(m, far.id, path.sib.id, true), from, far.Blacken());
    RotateReads(m, from, far);
  }

  /** After case 3 it may start too. */
  lemma {:induction false} LiftedReady<A(!new)>(sm: Summary<A>, rk: Rank, m: Mem<A>, path: Path<A>, t: Tree<A>)
    requires path.Step? && path.sib.Node? && path.sib.Child(path.side).Node?
    requires path.sib.id in m && path.sib.id != NULL && path.sib.id != path.sib.Child(path.side).id
    requires Lifted(sm, rk, SetParentColor(m, path.sib.id, path.sib.Child(path.side).id, true),
                    FromNear(path, t), path.sib.Child(path.side), true)
    ensures var n := path.sib.Child(path.side);
            && Case4Pre(m, path.side.Other(), n.id, path.id, n.Child(path.side).Root(), path.sib.id)
            && m[n.id].Child(path.side) == n.Child(path.side).Root()
            && m[path.id].parent == path.up.Parent(NULL)
            && Colour(n.Child(path.side)) == (n.Child(path.side).Root() != NULL ==> m[n.Child(path.side).Root()].black)
  {
    var n, near := path.sib.Child(path.side), FromNear(path, t);
    var m1 := SetParentColor(m, path.sib.id, n.id, true);
    var raised, low := RaisedPath(near, n), LoweredTree(sm, near, n, true);
    TipApart(rk, raised, low);
    assert m1[path.id] == m[path.id];
    RotateReads(Patched(m1, path.side.Other(), n.id, path.id), raised, low);
  }

  /** What the erase loop reads around the parent of the deficient node. */
  lemma {:induction false} EraseReads<A>(rk: Rank, m: Mem<A>, path: Path<A>, t: Tree<A>)
    requires path.Step? && path.sib.Node? && Placed(m, path, t, NULL)
    requires rk.PathSorted(path) && rk.Sorted(t, rk.Lo(path), rk.Hi(path))
    ensures path.id in m && path.side == if t.Root() != m[path.id].right then Left else Right
    ensures m[path.id].Child(path.side.Other()) == path.sib.id && m[path.id].parent == path.up.Parent(NULL)
    ensures path.up.Parent(NULL) == NULL <==> path.up.Top?
    ensures SiblingReads(m, path)
  {
    rk.Nest(path);
    NephewReads(m, path, t);
    assert PathLinked(m, path.up, path.id, NULL);
  }

  ghost predicate SiblingReads<A>(m: Mem<A>, path: Path<A>)
    requires path.Step? && path.sib.Node?
  {
    && path.sib.id in m && m[path.sib.id].black == path.sib.black
    && forall d :: var n := path.sib.Child(d);
                   m[path.sib.id].Child(d) == n.Root()
                       && (n.Node? ==> n.id in m && n.id != NULL && m[n.id].black == n.black)
  }

  /** The nodes that change hands are different nodes. */
  ghost predicate HandOverPre<A>(m: Mem<A>, node: Ptr, s: Ptr, c: Ptr) {
    && node in m && s in m && node != s && m[node].left in m && m[node].left != s && m[node].left != node
    && Ok(m, m[node].parent) && m[node].parent != s && m[node].parent != node && m[node].parent != m[node].left
    && Ok(m, c) && (c != NULL ==> c != s && c != node && c != m[node].left && c != m[node].parent)
  }

  ghost predicate HandOverEffect<A>(m: Mem<A>, m': Mem<A>, node: Ptr, s: Ptr, parent: Ptr, c: Ptr)
    requires HandOverPre(m, node, s, c)
  {
    var l, up := m[node].left, m[node].parent;
    && Only(m, m', s, l, Or(c, s), Or(up, s))
    && Holds(m', s, m[s].(left := l, parent := up, black := m[node].black))
    && Holds(m', l, m[l].(parent := s))
    && (up != NULL ==> Holds(m', up, m[up].WithChild(if m[up].left == node then Left else Right, s)))
    && (c != NULL ==> Holds(m', c, m[c].(parent := parent, black := true)))
  }

  lemma {:induction false} HandOverReady<A>(rk: Rank, m: Mem<A>, m1: Mem<A>, path: Path<A>, nd: Tree<A>,
                                            inner: Path<A>, s: Ptr, sb: bool, c: Tree<A>)
    requires nd.Node? && nd.left.Node? && Placed(m, path, nd, NULL)
    requires rk.PathSorted(path) && rk.Sorted(nd, rk.Lo(path), rk.Hi(path))
    requires Taken(rk, m, m1, path, nd, inner, s, sb, c)
    ensures HandOverPre(m1, nd.id, s, c.Root())
    ensures m1[nd.id] == m[nd.id] && m1[s].black == sb && m[nd.id].left == nd.left.id
  {
    var rr := RightRank(rk, path, nd);
    SpliceReads(rk, m, path, nd, nd.left);
    if path.Step? { rk.Nest(path); }
    rr.Bounds(inner);
    hide Rank.Lo, Rank.Hi, Rank.FarLo, Rank.FarHi, PathLinked, Rank.PathSorted;
  }

  lemma {:induction false} HandedOverFromEffect<A>(rk: Rank, m: Mem<A>, m1: Mem<A>, m2: Mem<A>, path: Path<A>,
                                                   nd: Tree<A>, inner: Path<A>, s: Ptr, sb: bool, c: Tree<A>)
    requires nd.Node? && nd.left.Node? && Placed(m, path, nd, NULL)
    requires rk.PathSorted(path) && rk.Sorted(nd, rk.Lo(path), rk.Hi(path))
    requires Taken(rk, m, m1, path, nd, inner, s, sb, c)
    requires HandOverPre(m1, nd.id, s, c.Root()) && HandOverEffect(m1, m2, nd.id, s, inner.Parent(s), c.Root())
    ensures HandedOver(m1, m2, path, nd, inner, s, c) && m2.Keys == m.Keys
  {
    var rr := RightRank(rk, path, nd);
    SpliceReads(rk, m, path, nd, nd.left);
    if path.Step? { rk.Nest(path); }
    rr.Bounds(inner);
    hide Rank.Lo, Rank.Hi, Rank.FarLo, Rank.FarHi, Rank.PathSorted;
  }

  /** Positions for the tree in which the successor has taken over. */
  lemma {:induction false} UnlinkRank<A(!new)>(sm: Summary<A>, path: Path<A>, nd: Tree<A>) returns (rk: Rank)
    requires nd.Node? && nd.left.Node? && nd.right.Node? && Unique(Inorder(Plug(path, nd)))
    ensures var u := Unlink(sm, path, nd);
            Unique(Inorder(Plug(u.path, u.t)))
    ensures var (inner, s) := Leftmost(Top, nd.right);
            var child := s.right.Blacken();
            var r, place := Plug(Propagate(sm, inner, sm.Aug(child)), child), Replaced(path, nd, s.id);
            rk.PathSorted(place) && rk.Sorted(r, rk.Lo(place), rk.Hi(place))
  {
    var (inner, s) := Leftmost(Top, nd.right);
    var child := s.right.Blacken();
    var inner' := Propagate(sm, inner, sm.Aug(child));
    var r, place := Plug(inner', child), Replaced(path, nd, s.id);
    UnlinkInorder(sm, path, nd);
    WithoutUnique(Inorder(Plug(path, nd)), nd.id);
    PropagateKeeps(sm, place, sm.Aug(r), r, r);
    PlugAppend(inner', Propagate(sm, place, sm.Aug(r)), child);
    RankOfSorted(place, r);
    rk := RankOf(Inorder(Plug(place, r)));
  }

  lemma {:induction false} UnlinkUnique<A(!new)>(sm: Summary<A>, path: Path<A>, nd: Tree<A>)
    requires nd.Node? && Unique(Inorder(Plug(path, nd)))
    ensures var u := Unlink(sm, path, nd); Unique(Inorder(Plug(u.path, u.t)))
  {
    UnlinkInorder(sm, path, nd);
    WithoutUnique(Inorder(Plug(path, nd)), nd.id);
  }

  lemma {:induction false} SlotReads<A>(rk: Rank, m: Mem<A>, path: Path<A>, node: Ptr)
    requires PathLinked(m, path, NULL, NULL) && rk.PathSorted(path) && rk.of(node) <= rk.lo
    ensures path.Step? ==> path.id != node
    ensures path.Parent(NULL) == NULL <==> path.Top?
    ensures path.Step? ==> path.id in m && forall h: Ptr :: RootOf(path, h) == RootOf(path, NULL)
  {
    if path.Step? {
      rk.Bounds(path.up);
      forall h: Ptr ensures RootOf(path, h) == RootOf(path, NULL) { RootOfStep(path, h, NULL); }
    }
  }

  lemma {:induction false} ParentNotNull<A>(m: Mem<A>, path: Path<A>, hole: Ptr)
    requires PathLinked(m, path, hole, NULL)
    ensures path.Parent(NULL) == NULL <==> path.Top?
  {
  }

  /** A node outside the tree, linked at an empty slot. */
  lemma {:induction false} LinkedPlaced<A>(rk: Rank, m: Mem<A>, m': Mem<A>, path: Path<A>, node: Ptr)
    requires PathLinked(m, path, NULL, NULL) && rk == RankOf(Inorder(Plug(path, Nil))) && rk.PathSorted(path)
    requires node in m && node != NULL && node !in Inorder(Plug(path, Nil)) && node != path.Parent(NULL)
    requires Only(m, m', node, node, node, Or(path.Parent(NULL), node))
    requires Holds(m', node, RbNode(path.Parent(NULL), false, NULL, NULL, m[node].aug))
    requires path.Step? ==> path.id in m && Holds(m', path.id, m[path.id].WithChild(path.side, node))
    ensures Linked(m', Plug(path, Leaf(node, m[node].aug)), NULL)
    ensures Plug(path, Leaf(node, m[node].aug)).Root() == RootOf(path, node)
  {
    assert rk.of(node) == -1 == rk.lo;
    if path.Step? { LinkedPlacedAbove(rk, m, m', path, node); }
    hide Rank.PathSorted, Rank.Lo, Rank.Hi, Only;
    PlugLinked(m', path, Leaf(node, m[node].aug), NULL);
  }

  lemma {:induction false} LinkedPlacedAbove<A>(rk: Rank, m: Mem<A>, m': Mem<A>, path: Path<A>, node: Ptr)
    requires path.Step? && PathLinked(m, path, NULL, NULL) && rk.PathSorted(path) && rk.of(node) <= rk.lo
    requires Only(m, m', node, node, node, path.id)
    requires path.id in m && Holds(m', path.id, m[path.id].WithChild(path.side, node))
    ensures PathLinked(m', path, node, NULL)
  {
    rk.Nest(path);
    rk.Bounds(path.up);
    assert !rk.Within(node, rk.FarLo(path), rk.FarHi(path));
    rk.Keep(m, m', path.sib, path.id, rk.FarLo(path), rk.FarHi(path), node, path.id, node, node);
    rk.PathFrame(m, m', path.up, path.id, NULL);
  }

  /** RB_EMPTY_NODE: the mark of a node outside any tree is to be its own red parent. */
  predicate Cleared<A>(m: Mem<A>, x: Ptr)
    requires x in m
  {
    m[x].parent == x && !m[x].black
  }

  /** A node of the tree is its own parent never, so it does not look cleared; its parent is NULL at the root only. */
  lemma {:induction false} NotCleared<A>(rk: Rank, m: Mem<A>, path: Path<A>, nd: Tree<A>)
    requires nd.Node? && Placed(m, path, nd, NULL)
    requires rk.PathSorted(path) && rk.Sorted(nd, rk.Lo(path), rk.Hi(path))
    ensures nd.id in m && nd.id != NULL && !Cleared(m, nd.id) && m[nd.id].parent == path.Parent(NULL)
    ensures path.Parent(NULL) == NULL <==> path.Top?
    ensures forall d :: m[nd.id].Child(d) == nd.Child(d).Root()
    ensures rk.Within(nd.id, rk.Lo(path), rk.Hi(path))
  {
    if path.Step? { rk.Nest(path); }
  }

  lemma {:induction false} NullNotIn<A>(m: Mem<A>, t: Tree<A>, parent: Ptr)
    requires Linked(m, t, parent)
    ensures NULL !in Inorder(t)
    ensures forall x :: x in Inorder(t) ==> x in m
    decreases t
  {
    if t.Node? {
      NullNotIn(m, t.left, t.id);
      NullNotIn(m, t.right, t.id);
    }
  }

  lemma {:induction false} LinkedOutside<A>(m: Mem<A>, m': Mem<A>, t: Tree<A>, parent: Ptr, x: Ptr)
    requires Linked(m, t, parent) && x !in Inorder(t)
    requires forall y :: y in m && y != x ==> y in m' && m'[y] == m[y]
    ensures Linked(m', t, parent)
    decreases t
  {
    if t.Node? {
      assert t.id in Inorder(t);
      LinkedOutside(m, m', t.left, t.id, x);
      LinkedOutside(m, m', t.right, t.id, x);
    }
  }

  class RbRoot<A(==, !new)> {
    const sm: Summary<A>
    var root: Ptr
    var mem: Mem<A>
    ghost var tree: Tree<A>

    /** Memory holds the tree t, each of whose nodes stands in it once. */
    ghost predicate Represents(t: Tree<A>)
      reads this
    {
      Linked(mem, t, NULL) && root == t.Root() && Unique(Inorder(t))
    }

    /** The tree in memory is a red-black tree. */
    ghost predicate Sound()
      reads this
    {
      Represents(tree) && Valid(tree)
    }

    constructor (sm: Summary<A>, mem: Mem<A>)
      ensures Sound() && tree == Nil && this.sm == sm && this.mem == mem
    {
      this.sm := sm;
      this.root := NULL;
      this.mem := mem;
      this.tree := Nil;
    }

    method ChangeChild(o: Ptr, n: Ptr, parent: Ptr)
      requires Ok(mem, parent)
      modifies this
      ensures mem == Relink(old(mem), parent, o, n)
      ensures root == if parent == NULL then n else old(root)
    {
      if parent != NULL {
        if mem[parent].left == o {
          mem := SetChild(mem, parent, Left, n);
        } else {
          mem := SetChild(mem, parent, Right, n);
        }
      } else {
        root := n;
      }
    }

    /** x goes below y on the side away from e, and c, the child y gives up, becomes x's child on side e. */
    method Lower(e: Side, x: Ptr, y: Ptr, c: Ptr)
      requires x in mem && y in mem && x != y && Ok(mem, c) && c != x && c != y
      modifies this`mem
      ensures Only(old(mem), mem, x, y, Or(c, x), x)
      ensures mem[x] == old(mem)[x].WithChild(e, c)
      ensures mem[y] == old(mem)[y].WithChild(e.Other(), x)
      ensures c != NULL ==> mem[c] == old(mem)[c].(parent := x, black := true)
    {
      mem := SetChild(mem, x, e, c);
      mem := SetChild(mem, y, e.Other(), x);
      if c != NULL {
        mem := SetParentColor(mem, c, x, true);
      }
    }

    /** n takes o's parent, colour and place; o goes below n. */
    method RotateSetParents(o: Ptr, n: Ptr, black: bool)
      requires o in mem && n in mem && o != n && Ok(mem, mem[o].parent) && mem[o].parent !in {o, n}
      modifies this
      ensures Only(old(mem), mem, o, n, n, Or(old(mem)[o].parent, n))
      ensures mem[n] == old(mem)[n].(parent := old(mem)[o].parent, black := old(mem)[o].black)
      ensures mem[o] == old(mem)[o].(parent := n, black := black)
      ensures var p := old(mem)[o].parent;
              p != NULL ==> mem[p] == old(mem)[p].WithChild(if old(mem)[p].left == o then Left else Right, n)
      ensures root == if old(mem)[o].parent == NULL then n else old(root)
    {
      var parent := mem[o].parent;
      mem := SetParentColor(mem, n, parent, mem[o].black);
      mem := SetParentColor(mem, o, n, black);
      ChangeChild(o, n, parent);
    }

    /** augment_rotate: n takes o's augmented value, and o's is recomputed from its children. */
    method AugmentRotate(o: Ptr, n: Ptr)
      requires o in mem && n in mem && o != n
      requires Ok(mem, mem[o].left) && Ok(mem, mem[o].right) && n != mem[o].left && n != mem[o].right
      requires o != mem[o].left && o != mem[o].right
      modifies this`mem
      ensures Only(old(mem), mem, o, n, n, n)
      ensures mem[n] == old(mem)[n].(aug := old(mem)[o].aug)
      ensures mem[o] == old(mem)[o].(aug := Compute(sm, old(mem), o))
    {
      mem := SetAug(mem, n, mem[o].aug);
      mem := SetAug(mem, o, Compute(sm, mem, o));
    }

    /** p rises above its parent g, and c, the child p gives up, goes below g and turns black. */
    method Rise(d: Side, p: Ptr, g: Ptr, c: Ptr, gb: bool)
      requires RisePre(mem, d, p, g, c)
      modifies this
      ensures RiseEffect(sm, old(mem), mem, d, p, g, c, gb, true)
      ensures root == if old(mem)[g].parent == NULL then p else old(root)
    {
      ghost var u, gg := mem[g].Child(d.Other()), mem[g].parent;
      Lower(d, g, p, c);
      assert mem[g].Child(d) == c && mem[g].Child(d.Other()) == u && mem[g].parent == gg;
      RotateSetParents(g, p, gb);
      assert mem[g].Child(d) == c && mem[g].Child(d.Other()) == u;
      assert AugAt(sm, mem, c) == AugAt(sm, old(mem), c) && AugAt(sm, mem, u) == AugAt(sm, old(mem), u);
      AugmentRotate(g, p);
    }

    // ---------- Insertion ----------

    /** Case 2: n rises above its parent p, and c, the child n gives up, goes below p. */
    method InsertCase2(d: Side, n: Ptr, p: Ptr, c: Ptr, ghost g: Ptr)
      requires SwapPre(mem, d, n, p, c) && g in mem && g != p && g != n && g != c
      modifies this`mem
      ensures SwapEffect(sm, old(mem), mem, d, n, p, c, g, false)
    {
      Lower(d.Other(), p, n, c);
      mem := SetParentColor(mem, p, n, false);
      AugmentRotate(p, n);
    }

    /** Case 1: the grandparent's colour moves to its children. */
    method InsertCase1(p: Ptr, g: Ptr, u: Ptr)
      requires p in mem && g in mem && u in mem && p != g && u != p && u != g
      modifies this`mem
      ensures Only(old(mem), mem, p, g, u, p)
      ensures Holds(mem, p, old(mem)[p].(parent := g, black := true))
      ensures Holds(mem, u, old(mem)[u].(parent := g, black := true))
      ensures Holds(mem, g, old(mem)[g].(black := false))
    {
      mem := SetParentColor(mem, u, g, true);
      mem := SetParentColor(mem, p, g, true);
      var parent := mem[g].parent;
      mem := SetParentColor(mem, g, parent, false);
    }

    /** Case 2 where the tree calls for it; the pointers returned are those case 3 goes on with. */
    method InsertLift(d: Side, node: Ptr, parent: Ptr, ghost rk: Rank, ghost path: Path<A>, ghost t: Tree<A>)
      returns (p: Ptr, tmp: Ptr)
      requires Represents(Plug(path, t)) && Placed(mem, path, t, NULL) && rk == RankOf(Inorder(Plug(path, t)))
      requires rk.PathSorted(path) && rk.Sorted(t, rk.Lo(path), rk.Hi(path)) && t.Node? && t.id == node
      requires path.Step? && path.id == parent && path.up.Step? && path.up.side == d
      modifies this`mem
      ensures mem.Keys == old(mem.Keys) && Kept(old(mem), mem, Inorder(Plug(path, t)))
      ensures path.up.id in mem && mem[path.up.id].parent == path.up.up.Parent(NULL)
      ensures if path.side == d then mem == old(mem) && p == parent && tmp == path.sib.Root()
                                     && RisePre(mem, d, p, path.up.id, tmp)
              else p == node && tmp == t.Child(path.side).Root() && Lifted(sm, rk, mem, path, t, false)
    {
      ghost var m0 := mem;
      LinkSide(rk, mem, path, node);
      RotateReads(mem, path, t);
      AroundCut(path, t);
      RootsIn(t);
      KeptSame(mem, Inorder(Plug(path, t)));
      hide Linked, PathLinked, Placed, Inorder, Unique, RootOf, Only, SwapEffect, Rank.PathSorted, Rank.Sorted, Kept;
      p, tmp := parent, mem[parent].Child(d.Other());
      if node == tmp {
        tmp := mem[node].Child(d);
        SwapPreHolds(rk, mem, path, t);
        SwapReads(sm, rk, mem, path, t);
        InsertCase2(d, node, parent, tmp, path.up.id);
        KeptSwap(sm, m0, mem, d, node, parent, tmp, path.up.id, false, Inorder(Plug(path, t)));
        AfterSwap(sm, rk, m0, mem, path, t, false);
        p, tmp := node, mem[node].Child(d.Other());
      } else {
        RisePreHolds(rk, mem, path, t);
      }
    }

    lemma {:induction false} RotatedTop(sm: Summary<A>, path: Path<A>, t: Tree<A>)
      requires path.Step? && path.up.Step? && t.Node?
      ensures RotateOuter(sm, path, t) == RotateUp(sm, path, t, false, true)
      ensures RotateInner(sm, path, t) ==
              RotateUp(sm, RaisedPath(path, t), LoweredTree(sm, path, t, false), false, true)
      ensures RotateOuter(sm, path, t).Root() == path.id && RotateInner(sm, path, t).Root() == t.id
    {
    }

    lemma {:induction false} RotateWrites(path: Path<A>, t: Tree<A>)
      requires path.Step? && path.up.Step? && t.Node?
      ensures var s := Inorder(Plug(path, t));
              && t.id in s && path.id in s && path.up.id in s && Has(s, path.up.up.Parent(NULL))
              && Has(s, path.sib.Root()) && Has(s, t.Child(path.side).Root())
                 && Has(s, t.Child(path.side.Other()).Root())
    {
      AroundCut(path, t);
      RootsIn(path.sib);
      RootsIn(t);
    }

    /** Cases 2 and 3, which end the loop. */
    method InsertRotate(d: Side, node: Ptr, parent: Ptr, gparent: Ptr, ghost path: Path<A>, ghost t: Tree<A>)
      requires Represents(Plug(path, t)) && t.Node? && t.id == node
      requires path.Step? && path.id == parent && path.up.Step? && path.up.id == gparent && path.up.side == d
      modifies this
      ensures mem.Keys == old(mem.Keys) && Kept(old(mem), mem, Inorder(Plug(path, t)))
      ensures var t' := Plug(path.up.up, if path.side == d then RotateOuter(sm, path, t) else RotateInner(sm, path, t));
              Linked(mem, t', NULL) && root == t'.Root()
    {
      hide RotateOuter, RotateInner, RisePre, Unique, Inorder, RotateUp, Kept, Around;
      ghost var rk := CutOpen(mem, path, t);
      RotateReads(mem, path, t);
      var p, tmp := InsertLift(d, node, parent, rk, path, t);
      ghost var m1 := mem;
      Rise(d, p, gparent, tmp, false);
      RotateWrites(path, t);
      KeptRise(sm, m1, mem, d, p, gparent, tmp, false, true, Inorder(Plug(path, t)));
      KeptThen(old(mem), m1, mem, Inorder(Plug(path, t)));
      ghost var top := if path.side == d then RotateOuter(sm, path, t) else RotateInner(sm, path, t);
      RotatedTop(sm, path, t);
      if path.side == d {
        AfterRise(sm, rk, m1, mem, path, t, false, true);
      } else {
        AfterSwapRise(sm, rk, m1, mem, path, t, false, false, true);
      }
      PlacedIsLinked(mem, path.up.up, top);
    }

    /** Case 1 and the move two levels up. */
    method InsertFlip(parent: Ptr, gparent: Ptr, uncle: Ptr, ghost path: Path<A>, ghost t: Tree<A>)
      returns (node: Ptr, parent': Ptr)
      requires t.Node? && Represents(Plug(path, t))
      requires path.Step? && path.id == parent && path.up.Step? && path.up.id == gparent
      requires path.up.sib.Node? && path.up.sib.id == uncle
      modifies this`mem
      ensures mem.Keys == old(mem.Keys) && Kept(old(mem), mem, Inorder(Plug(path, t)))
      ensures node == gparent && parent' == path.up.up.Parent(NULL)
      ensures Represents(Plug(path.up.up, Flip(path, t)))
    {
      ghost var m := mem;
      ghost var rk := CutOpen(mem, path, t);
      FlipPre(rk, mem, path, t);
      InsertCase1(parent, gparent, uncle);
      AroundCut(path, t);
      RootsIn(path.up.sib);
      KeptOnly(m, mem, parent, gparent, uncle, parent, Inorder(Plug(path, t)));
      FlipPlaced(rk, m, mem, path, t);
      FlipInorder(path, t);
      RootOfStep(path, t.id, t.id);
      RootOfStep(path.up, path.id, path.id);
      PlugLinked(mem, path.up.up, Flip(path, t), NULL);
      node := gparent;
      parent' := mem[node].parent;
    }

    /** The loop ends at the root, which turns black. */
    method InsertAtRoot(node: Ptr, ghost t: Tree<A>)
      requires t.Node? && t.id == node && Represents(t)
      modifies this`mem
      ensures mem.Keys == old(mem.Keys) && Kept(old(mem), mem, Inorder(t))
      ensures Linked(mem, t.Blacken(), NULL)
    {
      ghost var rk := CutOpen(mem, Top, t);
      mem := SetParentColor(mem, node, NULL, true);
      rk.Reparent(old(mem), mem, t, NULL, NULL, true, rk.lo, rk.hi);
    }

    /**
     __rb_insert: node is red and may have a red parent.  The ghost arguments say where it stands;
     memory ends up holding the tree that InsertFix describes.
     */
    method InsertColor(node: Ptr, ghost path: Path<A>, ghost t: Tree<A>)
      requires Represents(Plug(path, t)) && t.Red() && t.id == node && BlackTop(path)
      modifies this
      ensures mem.Keys == old(mem.Keys) && Kept(old(mem), mem, Inorder(Plug(path, t)))
      ensures Represents(InsertFix(sm, path, t))
    {
      ghost var path, t := path, t;
      ghost var rk := CutOpen(mem, path, t);
      InsertFixInorder(sm, path, t);
      ghost var result := InsertFix(sm, path, t);
      ghost var s := Inorder(Plug(path, t));
      KeptSame(mem, s);
      var node, parent := node, mem[node].parent;
      while true
        invariant Represents(Plug(path, t)) && t.Red() && t.id == node && BlackTop(path)
        invariant parent == path.Parent(NULL)
        invariant mem.Keys == old(mem.Keys) && Kept(old(mem), mem, s) && Inorder(Plug(path, t)) == s
        invariant InsertFix(sm, path, t) == result
        decreases path
      {
        rk := CutOpen(mem, path, t);
        ghost var m := mem;
        if parent == NULL {
          assert path.Top?;
          InsertAtRoot(node, t);
          KeptThen(old(mem), m, mem, s);
          break;
        } else if mem[parent].black {
          break;
        }
        BlackTopGrandparent(path);
        InsertReads(rk, mem, path, t);
        hide Linked, PathLinked, BlackTop, Inorder, Unique, RootOf, Plug, Kept;
        var gparent := mem[parent].parent;
        var tmp := mem[gparent].right;
        var d := if parent != tmp then Left else Right;
        tmp := mem[gparent].Child(d.Other());
        if tmp != NULL && !mem[tmp].black {
          FlipInorder(path, t);
          node, parent := InsertFlip(parent, gparent, tmp, path, t);
          KeptThen(old(mem), m, mem, s);
          path, t := path.up.up, Flip(path, t);
        } else {
          InsertRotate(d, node, parent, gparent, path, t);
          KeptThen(old(mem), m, mem, s);
          break;
        }
      }
    }

    // ---------- Erase fix-up ----------

    /**
     Case 4: p rises above its parent g, which turns black; c, the child p gives up, goes below g in its own
     colour, and p's other child x turns black.
     */
    method EraseCase4(d: Side, p: Ptr, g: Ptr, c: Ptr, x: Ptr)
      requires Case4Pre(mem, d, p, g, c, x)
      modifies this
      ensures RiseEffect(sm, SetParentColor(old(mem), x, p, true), mem, d, p, g, c, true,
                         c != NULL ==> old(mem)[c].black)
      ensures root == if old(mem)[g].parent == NULL then p else old(root)
    {
      ghost var u, gg := mem[g].Child(d.Other()), mem[g].parent;
      LowerKeep(d, g, p, c, x);
      assert mem[g].Child(d) == c && mem[g].Child(d.Other()) == u && mem[g].parent == gg;
      RotateSetParents(g, p, true);
      assert mem[g].Child(d) == c && mem[g].Child(d.Other()) == u;
      assert AugAt(sm, mem, c) == AugAt(sm, old(mem), c) && AugAt(sm, mem, u) == AugAt(sm, old(mem), u);
      AugmentRotate(g, p);
    }

    method LowerKeep(e: Side, x: Ptr, y: Ptr, c: Ptr, f: Ptr)
      requires x in mem && y in mem && x != y && Ok(mem, c) && c != x && c != y
      requires f in mem && f != x && f != y && f != c && f != NULL
      modifies this`mem
      ensures var m := SetParentColor(old(mem), f, y, true);
              && Only(m, mem, x, y, Or(c, x), x)
              && mem[x] == m[x].WithChild(e, c) && mem[y] == m[y].WithChild(e.Other(), x)
              && (c != NULL ==> mem[c] == m[c].(parent := x))
    {
      mem := SetChild(mem, x, e, c);
      mem := SetChild(mem, y, e.Other(), x);
      mem := SetParentColor(mem, f, y, true);
      if c != NULL {
        mem := SetParent(mem, c, x);
      }
    }

    /** Case 3: n, the near nephew, rises above its parent s, the sibling; c, the child n gives up, goes below s. */
    method EraseCase3(d: Side, n: Ptr, s: Ptr, g: Ptr, c: Ptr)
      requires SwapPre(mem, d, n, s, c) && g in mem && g != s && g != n && g != c
      modifies this`mem
      ensures n in mem && s in mem && mem[n].parent == old(mem)[n].parent
      ensures SwapEffect(sm, old(mem), SetParentColor(mem, s, n, true), d, n, s, c, g, true)
    {
      hide SwapEffect;
      ghost var m, f := mem, mem[s].Child(d);
      LowerUnder(d.Other(), s, n, c, g);
      assert mem[s].Child(d) == f && mem[s].Child(d.Other()) == c && s != g;
      assert AugAt(sm, mem, c) == AugAt(sm, m, c) && AugAt(sm, mem, f) == AugAt(sm, m, f);
      AugmentRotate(s, n);
      assert mem[s].aug == sm.CombineOn(d, AugAt(sm, m, f), s, AugAt(sm, m, c));
      Case3Effect(m, mem, d, n, s, c, g);
    }

    lemma {:induction false} Case3Effect(m: Mem<A>, m': Mem<A>, d: Side, n: Ptr, s: Ptr, c: Ptr, g: Ptr)
      requires SwapPre(m, d, n, s, c) && g in m && g != s && g != n && g != c && Only(m, m', s, n, Or(c, s), g)
      requires n in m' && m'[n] == m[n].WithChild(d, s).(aug := m[s].aug)
      requires s in m' && m'[s] == m[s].WithChild(d.Other(), c).(
        aug := sm.CombineOn(d, AugAt(sm, m, m[s].Child(d)), s, AugAt(sm, m, c)))
      requires Holds(m', g, m[g].WithChild(d, n)) && (c != NULL ==> Holds(m', c, m[c].(parent := s, black := true)))
      ensures SwapEffect(sm, m, SetParentColor(m', s, n, true), d, n, s, c, g, true)
    {
    }

    method LowerUnder(e: Side, x: Ptr, y: Ptr, c: Ptr, g: Ptr)
      requires x in mem && y in mem && x != y && Ok(mem, c) && c != x && c != y
      requires g in mem && g != x && g != y && g != c
      modifies this`mem
      ensures Only(old(mem), mem, x, y, Or(c, x), g)
      ensures mem[x] == old(mem)[x].WithChild(e, c) && mem[y] == old(mem)[y].WithChild(e.Other(), x)
      ensures mem[g] == old(mem)[g].WithChild(e.Other(), y)
      ensures c != NULL ==> mem[c] == old(mem)[c].(parent := x, black := true)
    {
      mem := SetChild(mem, x, e, c);
      mem := SetChild(mem, y, e.Other(), x);
      mem := SetChild(mem, g, e.Other(), y);
      if c != NULL {
        mem := SetParentColor(mem, c, x, true);
      }
    }

    /** Case 1: the red sibling rises above the parent; the new sibling is its former near child. */
    method EraseCase1(d: Side, parent: Ptr, sibling: Ptr, ghost path: Path<A>, ghost t: Tree<A>, ghost h: nat)
      returns (s: Ptr)
      requires Represents(Plug(path, t)) && Deficient(path, t, h)
      requires path.id == parent && path.side == d && path.sib.Red() && path.sib.id == sibling
      modifies this
      ensures mem.Keys == old(mem.Keys) && Kept(old(mem), mem, Inorder(Plug(path, t)))
      ensures Represents(Plug(RaiseSibling(sm, path, t), t)) && s == RaiseSibling(sm, path, t).sib.Root()
    {
      ghost var far, near := path.sib.Child(d.Other()), path.sib.Child(d);
      ghost var from := FromFar(path, t);
      RedSibling(path, t, h);
      ghost var m0 := mem;
      ghost var rk := CutOpen(mem, from, far);
      RisePreHolds(rk, mem, from, far);
      RotateReads(mem, from, far);
      s := mem[sibling].Child(d);
      Rise(d.Other(), sibling, parent, s, false);
      RotateWrites(from, far);
      KeptRise(sm, m0, mem, d.Other(), sibling, parent, s, false, true, Inorder(Plug(path, t)));
      AfterRise(sm, rk, m0, mem, from, far, false, true);
      PlacedIsLinked(mem, path.up, RotateUp(sm, from, far, false, true));
      RaiseSiblingIsRotateUp(sm, path, t);
      AfterRaiseInorder(sm, path, t);
    }

    /** Case 2: the sibling turns red; a red parent turns black. */
    method FlipSibling(parent: Ptr, sibling: Ptr) returns (wasRed: bool)
      requires parent in mem && sibling in mem && parent != sibling
      modifies this`mem
      ensures Only(old(mem), mem, parent, sibling, parent, parent)
      ensures Holds(mem, parent, old(mem)[parent].(black := true))
      ensures Holds(mem, sibling, old(mem)[sibling].(parent := parent, black := false))
      ensures wasRed == !old(mem)[parent].black
    {
      mem := SetParentColor(mem, sibling, parent, false);
      wasRed := !mem[parent].black;
      if wasRed {
        mem := mem[parent := mem[parent].(black := true)];
      }
    }

    method EraseCase2(parent: Ptr, sibling: Ptr, ghost path: Path<A>, ghost t: Tree<A>) returns (wasRed: bool)
      requires Represents(Plug(path, t))
      requires path.Step? && path.id == parent && path.sib.Node? && path.sib.id == sibling
      modifies this`mem
      ensures mem.Keys == old(mem.Keys) && Kept(old(mem), mem, Inorder(Plug(path, t)))
      ensures Represents(Plug(path.up, Recolour(path, t))) && wasRed == !path.black
      ensures parent in mem && mem[parent].parent == path.up.Parent(NULL)
              && (path.up.Parent(NULL) == NULL <==> path.up.Top?)
    {
      ghost var rk := CutOpen(mem, path, t);
      rk.Nest(path);
      RecolourInorder(path, t);
      RootOfStep(path, t.Root(), t.Root());
      wasRed := FlipSibling(parent, sibling);
      NephewWrites(path, t);
      KeptOnly(old(mem), mem, parent, sibling, parent, parent, Inorder(Plug(path, t)));
      RecolourPlaced(rk, old(mem), mem, path, t);
      PlacedIsLinked(mem, path.up, Recolour(path, t));
    }

    /** Case 3 where the near nephew is the red one; the pointers returned are those case 4 goes on with. */
    method EraseLift(d: Side, parent: Ptr, sibling: Ptr, nephew: Ptr, ghost rk: Rank, ghost path: Path<A>,
                     ghost t: Tree<A>)
      returns (s: Ptr, x: Ptr)
      requires Represents(Plug(path, t)) && rk == RankOf(Inorder(Plug(path, t)))
      requires path.Step? && path.id == parent && path.side == d && path.sib.Node? && path.sib.id == sibling
      requires path.sib.Child(d).Node? && path.sib.Child(d).id == nephew
      modifies this`mem
      ensures mem.Keys == old(mem.Keys) && s == nephew && x == sibling && Kept(old(mem), mem, Inorder(Plug(path, t)))
      ensures x in mem && s in mem && s != x
      ensures Lifted(sm, rk, SetParentColor(mem, x, s, true), FromNear(path, t), path.sib.Child(d), true)
    {
      hide Kept, Has;
      ghost var near, n, m0 := FromNear(path, t), path.sib.Child(d), mem;
      FromNephews(path, t);
      ghost var rk' := CutOpen(mem, near, n);
      SwapPreHolds(rk, mem, near, n);
      SwapReads(sm, rk, mem, near, n);
      var c := mem[nephew].Child(d.Other());
      EraseCase3(d.Other(), nephew, sibling, parent, c);
      NearWrites(path, t);
      KeptSwap(sm, m0, SetParentColor(mem, sibling, nephew, true), d.Other(), nephew, sibling, c, parent, true,
               Inorder(Plug(path, t)));
      KeptPatched(m0, mem, sibling, nephew, true, Inorder(Plug(path, t)));
      AfterSwap(sm, rk, m0, SetParentColor(mem, sibling, nephew, true), near, n, true);
      s, x := nephew, sibling;
    }

    /** Case 3, and what case 4 then reads. */
    method EraseLiftRead(d: Side, parent: Ptr, sibling: Ptr, nephew: Ptr, ghost rk: Rank, ghost path: Path<A>,
                         ghost t: Tree<A>)
      returns (s: Ptr, x: Ptr, c: Ptr)
      requires Represents(Plug(path, t)) && rk == RankOf(Inorder(Plug(path, t)))
      requires path.Step? && path.id == parent && path.side == d && path.sib.Node? && path.sib.id == sibling
      requires path.sib.Child(d).Node? && path.sib.Child(d).id == nephew && sibling != NULL
      modifies this`mem
      ensures mem.Keys == old(mem.Keys) && Kept(old(mem), mem, Inorder(Plug(path, t)))
      ensures s == nephew && x == sibling && c == path.sib.Child(d).Child(d).Root()
      ensures Case4Pre(mem, d.Other(), s, parent, c, x) && mem[parent].parent == path.up.Parent(NULL)
      ensures Lifted(sm, rk, SetParentColor(mem, x, s, true), FromNear(path, t), path.sib.Child(d), true)
      ensures Colour(path.sib.Child(d).Child(d)) == (c != NULL ==> mem[c].black)
    {
      s, x := EraseLift(d, parent, sibling, nephew, rk, path, t);
      LiftedReady(sm, rk, mem, path, t);
      c := mem[s].Child(d);
    }


    /** Cases 3 and 4, which end the loop. */
    method EraseRotate(d: Side, parent: Ptr, sibling: Ptr, far: Ptr, near: Ptr, ghost path: Path<A>, ghost t: Tree<A>)
      requires Represents(Plug(path, t))
      requires path.Step? && path.id == parent && path.side == d && path.sib.Node? && path.sib.id == sibling
      requires far == path.sib.Child(d.Other()).Root() && near == path.sib.Child(d).Root() && !NephewsBlack(path)
      modifies this
      ensures mem.Keys == old(mem.Keys) && Kept(old(mem), mem, Inorder(Plug(path, t)))
      ensures var top := if path.sib.Child(d.Other()).Red() then RotateFar(sm, path, t) else RotateNear(sm, path, t);
              Linked(mem, Plug(path.up, top), NULL) && root == Plug(path.up, top).Root()
    {
      ghost var rk := CutOpen(mem, path, t);
      NephewReads(mem, path, t);
      if far == NULL || mem[far].black {
        EraseNear(d, parent, sibling, near, path, t);
      } else {
        EraseFar(d, parent, sibling, far, path, t);
      }
    }

    /** Case 4, which writes to nodes of s only. */
    method EraseCase4In(d: Side, p: Ptr, g: Ptr, c: Ptr, x: Ptr, ghost s: seq<Ptr>)
      requires Case4Pre(mem, d, p, g, c, x)
      requires p in s && g in s && x in s && Has(s, c) && Has(s, mem[g].parent)
      modifies this
      ensures RiseEffect(sm, SetParentColor(old(mem), x, p, true), mem, d, p, g, c, true,
                         c != NULL ==> old(mem)[c].black)
      ensures root == if old(mem)[g].parent == NULL then p else old(root)
      ensures Kept(old(mem), mem, s)
    {
      hide Kept, Has;
      ghost var m := mem;
      EraseCase4(d, p, g, c, x);
      KeptRise(sm, SetParentColor(m, x, p, true), mem, d, p, g, c, true, c != NULL ==> m[c].black, s);
      KeptPatched(m, mem, x, p, true, s);
    }

    method EraseNear(d: Side, parent: Ptr, sibling: Ptr, near: Ptr, ghost path: Path<A>, ghost t: Tree<A>)
      requires Represents(Plug(path, t))
      requires path.Step? && path.id == parent && path.side == d && path.sib.Node? && path.sib.id == sibling
      requires path.sib.Child(d).Node? && near == path.sib.Child(d).id
      modifies this
      ensures mem.Keys == old(mem.Keys) && Kept(old(mem), mem, Inorder(Plug(path, t)))
      ensures var t' := Plug(path.up, RotateNear(sm, path, t)); Linked(mem, t', NULL) && root == t'.Root()
    {
      hide Kept, Has, Inorder, Unique;
      ghost var from, n, rk := FromNear(path, t), path.sib.Child(d), RankOf(Inorder(Plug(path, t)));
      ghost var m0, all := mem, Inorder(Plug(path, t));
      RotateFacts(sm, mem, path, t);
      NearWrites(path, t);
      var s, x, c := EraseLiftRead(d, parent, sibling, near, rk, path, t);
      ghost var m, m1 := mem, SetParentColor(mem, x, s, true);
      EraseCase4In(d.Other(), s, parent, c, x, all);
      KeptThen(m0, m, mem, all);
      hide Linked, Placed, PathLinked, Plug, RootOf, Inorder, Unique, RankOf, Case4Pre, RisePre, Lifted, Kept;
      AfterSwapRise(sm, rk, m1, mem, from, n, true, true, Colour(n.Child(d)));
      PlacedIsLinked(mem, path.up, RotateNear(sm, path, t));
    }

    method EraseFar(d: Side, parent: Ptr, sibling: Ptr, far: Ptr, ghost path: Path<A>, ghost t: Tree<A>)
      requires Represents(Plug(path, t))
      requires path.Step? && path.id == parent && path.side == d && path.sib.Node? && path.sib.id == sibling
      requires path.sib.Child(d.Other()).Node? && far == path.sib.Child(d.Other()).id
      modifies this
      ensures mem.Keys == old(mem.Keys) && Kept(old(mem), mem, Inorder(Plug(path, t)))
      ensures var t' := Plug(path.up, RotateFar(sm, path, t)); Linked(mem, t', NULL) && root == t'.Root()
    {
      ghost var from, n := FromFar(path, t), path.sib.Child(d.Other());
      ghost var all := Inorder(Plug(path, t));
      NephewWrites(path, t);
      FromNephews(path, t);
      ghost var rk := CutOpen(mem, from, n);
      RotateReads(mem, from, n);
      FarReady(rk, mem, path, t);
      ghost var m1 := SetParentColor(mem, far, sibling, true);
      var c := mem[sibling].Child(d);
      EraseCase4In(d.Other(), sibling, parent, c, far, all);
      AfterRise(sm, rk, m1, mem, from, n.Blacken(), true, Colour(path.sib.Child(d)));
      PlacedIsLinked(mem, path.up, RotateFar(sm, path, t));
    }

    /** The start of the loop body: which side, which sibling, and case 1 if that sibling is red. */
    method EraseSibling(node: Ptr, parent: Ptr, ghost path: Path<A>, ghost t: Tree<A>, ghost h: nat)
      returns (d: Side, sibling: Ptr)
      requires Represents(Plug(path, t)) && Deficient(path, t, h) && node == t.Root() && parent == path.id
      modifies this
      ensures mem.Keys == old(mem.Keys) && path.sib.Node? && Kept(old(mem), mem, Inorder(Plug(path, t)))
      ensures var p := AfterRaise(sm, path, t);
              && Represents(Plug(p, t)) && p.id == parent && p.sib.Node?
              && d == p.side && sibling == p.sib.id && SiblingReads(mem, p)
    {
      ghost var rk := CutOpen(mem, path, t);
      KeptSame(mem, Inorder(Plug(path, t)));
      AfterRaiseDeficient(sm, path, t, h);
      EraseReads(rk, mem, path, t);
      hide Linked, PathLinked, Placed, Deficient, Inorder, Unique, RootOf, Plug;
      sibling := mem[parent].right;
      d := if node != sibling then Left else Right;
      sibling := mem[parent].Child(d.Other());
      if !mem[sibling].black {
        sibling := EraseCase1(d, parent, sibling, path, t, h);
        rk := CutOpen(mem, RaiseSibling(sm, path, t), t);
        EraseReads(rk, mem, RaiseSibling(sm, path, t), t);
      }
    }

    /**
     ____rb_erase_color: t, at the end of path, is empty and one black node short.  Memory ends up holding
     the tree that EraseFix describes.
     */
    method EraseColor(parent: Ptr, ghost path: Path<A>, ghost t: Tree<A>, ghost h: nat)
      requires Represents(Plug(path, t)) && Deficient(path, t, h) && t.Nil? && path.id == parent
      modifies this
      ensures mem.Keys == old(mem.Keys) && Kept(old(mem), mem, Inorder(Plug(path, t)))
      ensures Represents(EraseFix(sm, path, t, h))
    {
      ghost var path, t, h := path, t, h;
      EraseFixInorder(sm, path, t, h);
      ghost var result := EraseFix(sm, path, t, h);
      ghost var s := Inorder(Plug(path, t));
      KeptSame(mem, s);
      var node, parent := NULL, parent;
      while true
        invariant Represents(Plug(path, t)) && Deficient(path, t, h)
        invariant node == t.Root() && parent == path.id
        invariant mem.Keys == old(mem.Keys) && Kept(old(mem), mem, s) && Inorder(Plug(path, t)) == s
        invariant EraseFix(sm, path, t, h) == result
        decreases Depth(path)
      {
        AfterRaiseDeficient(sm, path, t, h);
        AfterRaiseInorder(sm, path, t);
        ghost var m := mem;
        var d, sibling := EraseSibling(node, parent, path, t, h);
        KeptThen(old(mem), m, mem, s);
        m := mem;
        ghost var p := AfterRaise(sm, path, t);
        assert EraseStep(sm, p, t, h) == result;
        var tmp1, tmp2 := mem[sibling].Child(d.Other()), mem[sibling].Child(d);
        hide AfterRaise, Represents, Kept;
        if (tmp1 == NULL || mem[tmp1].black) && (tmp2 == NULL || mem[tmp2].black) {
          RecolourDeficient(p, t, h);
          RecolourInorder(p, t);
          var wasRed := EraseCase2(parent, sibling, p, t);
          KeptThen(old(mem), m, mem, s);
          if wasRed {
            break;
          }
          node, parent := parent, mem[parent].parent;
          if parent == NULL {
            break;
          }
          path, t, h := path.up, Recolour(path, t), h + 1;
        } else {
          EraseRotate(d, parent, sibling, tmp1, tmp2, p, t);
          KeptThen(old(mem), m, mem, s);
          break;
        }
      }
    }

    // ---------- Unlinking ----------

    /** propagate callback: recompute from rb upwards until stop is reached or a value does not change. */
    method PropagateUp(rb: Ptr, stop: Ptr, ghost rk: Rank, ghost path: Path<A>, ghost hole: Ptr, ghost a: A)
      requires PathLinked(mem, path, hole, stop) && rk.PathSorted(path) && rb == path.Parent(stop)
      requires Ok(mem, hole) && AugAt(sm, mem, hole) == a
      requires !OnSpine(path, stop) && !OnSpine(path, hole)
      modifies this`mem
      ensures mem == Propagated(sm, old(mem), path, a)
    {
      var rb := rb;
      ghost var p, h, v := path, hole, a;
      while rb != stop
        invariant rb == p.Parent(stop) && PathLinked(mem, p, h, stop) && rk.PathSorted(p)
        invariant Ok(mem, h) && AugAt(sm, mem, h) == v
        invariant !OnSpine(p, stop) && !OnSpine(p, h)
        invariant Propagated(sm, mem, p, v) == Propagated(sm, old(mem), path, a)
        decreases p
      {
        PropagateReads(sm, mem, p, v, h, stop);
        var augmented := Compute(sm, mem, rb);
        if mem[rb].aug == augmented {
          break;
        }
        ghost var m := mem;
        mem := SetAug(mem, rb, augmented);
        PropagateStep(rk, m, mem, p, h, stop);
        rb := mem[rb].parent;
        p, h, v := p.up, p.id, augmented;
      }
    }

    /** The last step of unlinking: t stands at the end of path, where only augmented values are out of date. */
    method PropagateToRoot(rb: Ptr, ghost path: Path<A>, ghost t: Tree<A>, ghost rk: Rank)
      requires Placed(mem, path, t, NULL) && rb == path.Parent(NULL) && root == RootOf(path, t.Root())
      requires rk.PathSorted(path) && rk.Sorted(t, rk.Lo(path), rk.Hi(path))
      modifies this`mem
      ensures mem.Keys == old(mem.Keys) && forall x :: x in old(mem) && !OnSpine(path, x) ==> mem[x] == old(mem)[x]
      ensures var t' := Plug(Propagate(sm, path, sm.Aug(t)), t); Linked(mem, t', NULL) && root == t'.Root()
    {
      ghost var a, m, hole := sm.Aug(t), mem, t.Root();
      AugAtLinked(sm, mem, t, path.Parent(NULL));
      SpineNotNull(mem, path, hole, NULL);
      if OnSpine(path, hole) { SpineOutside(rk, path, hole); }
      PropagateUp(rb, NULL, rk, path, hole, a);
      PropagatedOnly(sm, m, path, a);
      PropagatedLinked(sm, rk, m, path, a, hole, NULL);
      PropagatedBelow(sm, rk, m, path, a, t, path.Parent(NULL));
      PropagateTop(sm, path, a, NULL);
      PropagateSorted(sm, rk, path, a, hole);
      PlacedIsLinked(mem, Propagate(sm, path, a), t);
    }

    lemma {:induction false} SpliceWrites(path: Path<A>, nd: Tree<A>, c: Tree<A>)
      requires nd.Node? && (c == nd.right || c == nd.left)
      ensures var s := Inorder(Plug(path, nd)); nd.id in s && Has(s, c.Root()) && Has(s, path.Parent(NULL))
    {
      AroundCut(path, nd);
      RootsIn(nd);
      assert c == nd.Child(if c == nd.left then Left else Right);
    }

    /** Case 1 of unlinking: child, the only child of node or NULL, takes its place, parent and colour. */
    method Splice(node: Ptr, child: Ptr, ghost path: Path<A>, ghost nd: Tree<A>, ghost c: Tree<A>, ghost rk: Rank)
      returns (parent: Ptr)
      requires Placed(mem, path, nd, NULL) && root == RootOf(path, node)
      requires rk.PathSorted(path) && rk.Sorted(nd, rk.Lo(path), rk.Hi(path))
      requires nd.Node? && nd.id == node && c.Root() == child
      requires (nd.left.Nil? && c == nd.right) || (nd.right.Nil? && c == nd.left)
      modifies this
      ensures mem.Keys == old(mem.Keys) && parent == path.Parent(NULL) && Kept(old(mem), mem, Inorder(Plug(path, nd)))
      ensures Placed(mem, path, c.Tint(nd.black), NULL) && root == RootOf(path, child)
      ensures rk.Sorted(c.Tint(nd.black), rk.Lo(path), rk.Hi(path))
    {
      hide Kept;
      ghost var m := mem;
      SpliceReads(rk, mem, path, nd, c);
      parent := mem[node].parent;
      var black := mem[node].black;
      ChangeChild(node, child, parent);
      if child != NULL {
        mem := SetParentColor(mem, child, parent, black);
      }
      SpliceWrites(path, nd, c);
      KeptTwo(m, mem, parent, child, Inorder(Plug(path, nd)));
      hide Linked, PathLinked, Rank.PathSorted, Rank.Sorted;
      SplicePlaced(rk, m, mem, path, nd, c);
    }

    /** Cases 2 and 3 of unlinking, first half: find node's successor and take it out. */
    method TakeSuccessor(node: Ptr, child: Ptr, ghost path: Path<A>, ghost nd: Tree<A>, ghost rk: Rank)
      returns (successor: Ptr, parent: Ptr, child2: Ptr)
      requires Placed(mem, path, nd, NULL) && rk.PathSorted(path) && rk.Sorted(nd, rk.Lo(path), rk.Hi(path))
      requires nd.Node? && nd.id == node && nd.right.Node? && nd.right.id == child
      modifies this`mem
      ensures var (inner, s) := Leftmost(Top, nd.right);
              && successor == s.id && parent == inner.Parent(s.id) && child2 == s.right.Root()
              && Taken(rk, old(mem), mem, path, nd, Propagate(sm, inner, sm.Aug(s.right.Blacken())),
                       s.id, s.black, s.right)
    {
      ghost var m := mem;
      SpliceReads(rk, mem, path, nd, nd.right);
      ghost var p, t := Top, nd.right;
      assert Linked(mem, t, node) && Linked(mem, t.left, t.id);
      var tmp := mem[child].left;
      if tmp == NULL {
        successor, parent := child, child;
        child2 := mem[successor].right;
        TakenDirectly(rk, mem, path, nd);
        mem := SetAug(mem, successor, mem[node].aug);
      } else {
        successor, parent := child, child;
        while tmp != NULL
          invariant t.Node? && Linked(mem, t, p.Parent(node)) && successor == t.id && tmp == t.left.Root()
          invariant p.Step? ==> parent == p.id
          invariant Leftmost(p, t) == Leftmost(Top, nd.right) && (tmp == NULL ==> p.Step?)
          decreases t
        {
          parent := successor;
          successor := tmp;
          assert Linked(mem, t.left, t.id);
          p, t := Step(Left, t.id, t.black, t.aug, t.right, p), t.left;
          tmp := mem[tmp].left;
        }
        child2 := mem[successor].right;
        TakenFromBelow(rk, mem, path, nd, p, t);
        TakeOut(node, successor, parent, child, child2);
        ghost var m1 := mem;
        sm.BlackenAug(t.right);
        TakenReads(sm, rk, m, mem, path, nd, p, t);
        PropagateUp(parent, successor, RightRank(rk, path, nd), p, child2, sm.Aug(t.right));
        TakenPropagated(sm, rk, m, m1, path, nd, p, t.id, t.black, t.right, sm.Aug(t.right));
      }
    }

    method TakeOut(node: Ptr, successor: Ptr, parent: Ptr, child: Ptr, child2: Ptr)
      requires node in mem && successor in mem && parent in mem && child in mem && node !in {successor, parent, child}
      modifies this`mem
      ensures mem == Extracted(old(mem), parent, successor, child, child2, old(mem)[node].aug)
    {
      mem := SetChild(mem, parent, Left, child2);
      mem := SetChild(mem, successor, Right, child);
      mem := SetParent(mem, child, successor);
      mem := SetAug(mem, successor, mem[node].aug);
    }

    /**
     Second half: node's left subtree, parent, place and colour go to successor, and child2, which may be
     NULL, goes black below parent.
     */
    method HandOver(node: Ptr, successor: Ptr, parent: Ptr, child2: Ptr)
      returns (rebalance: Ptr)
      requires HandOverPre(mem, node, successor, child2)
      modifies this
      ensures HandOverEffect(old(mem), mem, node, successor, parent, child2)
      ensures root == if old(mem)[node].parent == NULL then successor else old(root)
      ensures rebalance == if child2 == NULL && old(mem)[successor].black then parent else NULL
    {
      LinkInPlace(node, successor);
      var up, black := mem[node].parent, mem[node].black;
      if child2 != NULL {
        mem := SetParentColor(mem, successor, up, black);
        mem := SetParentColor(mem, child2, parent, true);
        rebalance := NULL;
      } else {
        var black2 := mem[successor].black;
        mem := SetParentColor(mem, successor, up, black);
        rebalance := if black2 then parent else NULL;
      }
    }

    /** node's left subtree goes below successor, and node's parent links to successor. */
    method LinkInPlace(node: Ptr, successor: Ptr)
      requires HandOverPre(mem, node, successor, NULL)
      modifies this
      ensures var m, l, up := old(mem), old(mem)[node].left, old(mem)[node].parent;
              && Only(m, mem, successor, l, l, Or(up, l))
              && mem[successor] == m[successor].(left := l) && mem[l] == m[l].(parent := successor)
              && (up != NULL ==> mem[up] == m[up].WithChild(if m[up].left == node then Left else Right, successor))
      ensures root == if old(mem)[node].parent == NULL then successor else old(root)
    {
      var tmp := mem[node].left;
      mem := SetChild(mem, successor, Left, tmp);
      mem := SetParent(mem, tmp, successor);
      ChangeChild(node, successor, mem[node].parent);
    }

    /** Both halves: the tree is in place again, but for augmented values from the successor upwards. */
    method Replace(node: Ptr, child: Ptr, ghost path: Path<A>, ghost nd: Tree<A>, ghost rk: Rank)
      returns (rebalance: Ptr, successor: Ptr)
      requires Placed(mem, path, nd, NULL) && rk.PathSorted(path) && rk.Sorted(nd, rk.Lo(path), rk.Hi(path))
      requires nd.Node? && nd.id == node && nd.left.Node? && nd.right.Node? && nd.right.id == child
      requires root == RootOf(path, node) && rk == RankOf(Inorder(Plug(path, nd)))
      modifies this
      ensures mem.Keys == old(mem.Keys) && Kept(old(mem), mem, Inorder(Plug(path, nd)))
      ensures var (inner, s) := Leftmost(Top, nd.right);
              var child' := s.right.Blacken();
              && successor == s.id && root == RootOf(path, s.id)
              && Placed(mem, Replaced(path, nd, s.id), Plug(Propagate(sm, inner, sm.Aug(child')), child'), NULL)
              && rebalance == if s.right.Nil? && s.black then inner.Parent(s.id) else NULL
    {
      ghost var m := mem;
      ghost var (inner, s) := Leftmost(Top, nd.right);
      ghost var inner' := Propagate(sm, inner, sm.Aug(s.right.Blacken()));
      SpliceReads(rk, mem, path, nd, nd.right);
      var parent, child2;
      successor, parent, child2 := TakeSuccessor(node, child, path, nd, rk);
      HandOverReady(rk, m, mem, path, nd, inner', s.id, s.black, s.right);
      ghost var m1 := mem;
      rebalance := HandOver(node, successor, parent, child2);
      PropagateTop(sm, inner, sm.Aug(s.right.Blacken()), s.id);
      SuccessorIn(path, nd);
      hide Linked, PathLinked, Plug, RootOf, Leftmost, Propagate, Rank.PathSorted, Rank.Sorted, Taken, Kept;
      HandedOverFromEffect(rk, m, m1, mem, path, nd, inner', s.id, s.black, s.right);
      ghost var all := Inorder(Plug(path, nd));
      KeptTaken(rk, m, m1, path, nd, inner', s.id, s.black, s.right, all);
      KeptHandedOver(m1, mem, path, nd, inner', s.id, s.right, all);
      KeptThen(m, m1, mem, all);
      HandedOverPlaced(rk, m, m1, mem, path, nd, inner', s.id, s.black, s.right);
    }

    /** The path to the successor, once it has taken over, is that to the node, but for the successor itself. */
    lemma {:induction false} KeptInner(m: Mem<A>, m': Mem<A>, path: Path<A>, nd: Tree<A>)
      requires nd.Node? && nd.left.Node? && nd.right.Node? && m'.Keys == m.Keys
      requires forall x :: x in m && !OnSpine(Replaced(path, nd, Leftmost(Top, nd.right).1.id), x) ==> m'[x] == m[x]
      ensures Kept(m, m', Inorder(Plug(path, nd)))
    {
      var all := Inorder(Plug(path, nd));
      SuccessorIn(path, nd);
      forall x | x in m && x !in all ensures x in m' && m'[x] == m[x] {
        if OnSpine(path, x) { SpineIn(path, nd, x); }
      }
    }

    /** Cases 2 and 3: node has two children, and its successor takes its place. */
    method UnlinkInner(node: Ptr, child: Ptr, ghost path: Path<A>, ghost nd: Tree<A>)
      returns (rebalance: Ptr)
      requires Represents(Plug(path, nd)) && nd.Node? && nd.id == node
      requires nd.left.Node? && nd.right.Node? && nd.right.id == child
      modifies this
      ensures mem.Keys == old(mem.Keys) && Kept(old(mem), mem, Inorder(Plug(path, nd)))
      ensures var u := Unlink(sm, path, nd);
              && Represents(Plug(u.path, u.t)) && u.path.Step?
              && rebalance == if u.rebalance then u.path.id else NULL
    {
      hide Kept;
      ghost var rk := CutOpen(mem, path, nd);
      ghost var (inner, s) := Leftmost(Top, nd.right);
      ghost var child' := s.right.Blacken();
      ghost var inner' := Propagate(sm, inner, sm.Aug(child'));
      var successor;
      rebalance, successor := Replace(node, child, path, nd, rk);
      ghost var r, place := Plug(inner', child'), Replaced(path, nd, s.id);
      ghost var rk2 := UnlinkRank(sm, path, nd);
      RootOfStep(place, r.Root(), r.Root());
      ghost var m0, m1, all := old(mem), mem, Inorder(Plug(path, nd));
      PropagateToRoot(successor, place, r, rk2);
      KeptInner(m1, mem, path, nd);
      KeptThen(m0, m1, mem, all);
      PlugAppend(inner', Propagate(sm, place, sm.Aug(r)), child');
    }

    lemma {:induction false} KeptSpine(m: Mem<A>, m': Mem<A>, path: Path<A>, t: Tree<A>)
      requires m'.Keys == m.Keys && forall x :: x in m && !OnSpine(path, x) ==> m'[x] == m[x]
      ensures Kept(m, m', Inorder(Plug(path, t)))
    {
      forall x | x in m && x !in Inorder(Plug(path, t)) ensures x in m' && m'[x] == m[x] {
        if OnSpine(path, x) { SpineIn(path, t, x); }
      }
    }

    /** Case 1: node has at most one child. */
    method UnlinkOuter(node: Ptr, child: Ptr, ghost path: Path<A>, ghost nd: Tree<A>, ghost c: Tree<A>)
      returns (parent: Ptr)
      requires Represents(Plug(path, nd)) && nd.Node? && nd.id == node && c.Root() == child
      requires (nd.left.Nil? && c == nd.right) || (nd.right.Nil? && c == nd.left)
      modifies this
      ensures mem.Keys == old(mem.Keys) && parent == path.Parent(NULL) && Kept(old(mem), mem, Inorder(Plug(path, nd)))
      ensures Linked(mem, Plug(Propagate(sm, path, sm.Aug(c.Tint(nd.black))), c.Tint(nd.black)), NULL)
      ensures root == Plug(Propagate(sm, path, sm.Aug(c.Tint(nd.black))), c.Tint(nd.black)).Root()
    {
      ghost var rk := CutOpen(mem, path, nd);
      parent := Splice(node, child, path, nd, c, rk);
      ghost var m1, all := mem, Inorder(Plug(path, nd));
      PropagateToRoot(parent, path, c.Tint(nd.black), rk);
      KeptSpine(m1, mem, path, nd);
      KeptThen(old(mem), m1, mem, all);
    }

    /** __rb_erase_augmented: the node below which a black node is missing, or NULL. */
    method EraseAugmented(node: Ptr, ghost path: Path<A>, ghost nd: Tree<A>) returns (rebalance: Ptr)
      requires Represents(Plug(path, nd)) && nd.Node? && nd.id == node
      modifies this
      ensures mem.Keys == old(mem.Keys) && Kept(old(mem), mem, Inorder(Plug(path, nd)))
      ensures var u := Unlink(sm, path, nd);
              && Represents(Plug(u.path, u.t))
              && rebalance == (if u.rebalance then u.path.Parent(NULL) else NULL)
    {
      ghost var rk := CutOpen(mem, path, nd);
      SpliceReads(rk, mem, path, nd, nd.left);
      SpliceReads(rk, mem, path, nd, nd.right);
      UnlinkUnique(sm, path, nd);
      var child, tmp, black := mem[node].right, mem[node].left, mem[node].black;
      if tmp == NULL {
        PropagateTop(sm, path, sm.Aug(nd.right.Tint(nd.black)), NULL);
        var parent := UnlinkOuter(node, child, path, nd, nd.right);
        rebalance := if child == NULL && black then parent else NULL;
      } else if child == NULL {
        var parent := UnlinkOuter(node, tmp, path, nd, nd.left);
        rebalance := NULL;
      } else {
        rebalance := UnlinkInner(node, child, path, nd);
      }
    }

    // ---------- The operations of the tree ----------

    lemma {:induction false} SlotCut(path: Path<A>, node: Ptr) returns (rk: Rank)
      requires Represents(Plug(path, Nil)) && node !in Inorder(Plug(path, Nil))
      ensures rk == RankOf(Inorder(Plug(path, Nil))) && rk.PathSorted(path) && PathLinked(mem, path, NULL, NULL)
      ensures path.Step? ==> path.id != node && path.id in mem
      ensures path.Parent(NULL) == NULL <==> path.Top?
      ensures forall h: Ptr :: RootOf(path, h) == if path.Top? then h else root
    {
      rk := CutOpen(mem, path, Nil);
      assert rk.of(node) == -1 == rk.lo;
      SlotReads(rk, mem, path, node);
      if path.Top? {
        forall h: Ptr ensures RootOf(path, h) == h {}
      }
    }

    lemma {:induction false} SlotWrites(path: Path<A>, node: Ptr)
      ensures var s := Before(path) + [node] + After(path); node in s && Has(s, path.Parent(NULL))
    {
      if path.Step? {
        LeafFacts(node, sm.unit);
        SpineIn(path, Leaf(node, sm.unit), path.id);
        InorderSplit(path, Leaf(node, sm.unit));
      }
    }

    /** rb_link_node: node becomes a red leaf at the empty slot at the end of path, on side d of parent. */
    method LinkNode(node: Ptr, parent: Ptr, d: Side, ghost path: Path<A>)
      requires Sound() && node in mem && node != NULL && node !in Inorder(tree)
      requires tree == Plug(path, Nil) && path.Parent(NULL) == parent && (path.Step? ==> path.side == d)
      modifies this
      ensures mem.Keys == old(mem.Keys) && Kept(old(mem), mem, Before(path) + [node] + After(path))
      ensures tree == Plug(path, Leaf(node, old(mem)[node].aug)) && Represents(tree)
    {
      hide PathLinked, Rank.PathSorted, Inorder, Unique, RankOf, RootOf, Kept, Before, After, Plug, Linked;
      ghost var rk := SlotCut(path, node);
      ghost var m := mem;
      SlotWrites(path, node);
      mem := mem[node := mem[node].(parent := parent, black := false, left := NULL, right := NULL)];
      if parent == NULL {
        root := node;
      } else {
        mem := SetChild(mem, parent, d, node);
      }
      KeptTwo(m, mem, parent, node, Before(path) + [node] + After(path));
      tree := Plug(path, Leaf(node, m[node].aug));
      LinkedPlaced(rk, m, mem, path, node);
      LinkedBeside(path, node, m[node].aug);
      UniqueInsert(Before(path), node, After(path));
    }

    /**
     Linking and rebalancing.  If the values on the way to the new node have been brought up to date, as
     the caller of the augmented form must, every value is right afterwards.
     */
    method Insert(node: Ptr, parent: Ptr, d: Side, ghost path: Path<A>)
      requires Sound() && node in mem && node != NULL && node !in Inorder(tree)
      requires tree == Plug(path, Nil) && path.Parent(NULL) == parent && (path.Step? ==> path.side == d)
      modifies this
      ensures mem.Keys == old(mem.Keys) && Kept(old(mem), mem, Inorder(tree))
      ensures Sound() && Inorder(tree) == Before(path) + [node] + After(path)
      ensures sm.Associative() && sm.AugOk(Plug(path, Leaf(node, old(mem)[node].aug))) ==> sm.AugOk(tree)
    {
      ghost var leaf := Leaf(node, mem[node].aug);
      ghost var h := PlugValidInverse(path, Nil);
      FitsBlackTop(path, h);
      InsertFixValid(sm, path, leaf, h);
      InsertFixInorder(sm, path, leaf);
      LinkedBeside(path, node, leaf.aug);
      if sm.Associative() && sm.AugOk(Plug(path, leaf)) {
        sm.PlugAugOk(path, leaf);
        InsertFixAugOk(sm, path, leaf);
      }
      LinkNode(node, parent, d, path);
      ghost var m1 := mem;
      InsertColor(node, path, leaf);
      KeptThen(old(mem), m1, mem, Before(path) + [node] + After(path));
      tree := InsertFix(sm, path, leaf);
    }

    /** The values on the path can be brought up to date without changing anything else about it. */
    lemma {:induction false} UpdatedPath(path: Path<A>, leaf: Tree<A>) returns (path': Path<A>)
      requires leaf.Red() && leaf.left.Nil? && leaf.right.Nil? && Valid(Plug(path, Nil))
      ensures path' == Propagate(sm, path, sm.Aug(leaf)) && BlackTop(path')
      ensures Inorder(Plug(path', leaf)) == Inorder(Plug(path, leaf))
      ensures Valid(InsertFix(sm, path', leaf)) && Inorder(InsertFix(sm, path', leaf)) == Inorder(Plug(path, leaf))
      ensures sm.Associative() && sm.AugOk(leaf) && sm.AugOk(Plug(path, Nil)) ==> sm.AugOk(InsertFix(sm, path', leaf))
    {
      path' := Propagate(sm, path, sm.Aug(leaf));
      PropagateKeeps(sm, path, sm.Aug(leaf), leaf, leaf);
      var h := PlugValidInverse(path, Nil);
      SameShapeFits(path, path', h);
      FitsBlackTop(path', h);
      InsertFixValid(sm, path', leaf, h);
      InsertFixInorder(sm, path', leaf);
      if sm.Associative() && sm.AugOk(leaf) && sm.AugOk(Plug(path, Nil)) {
        sm.PlugAugOk(path, Nil);
        PropagateAugOk(sm, path, sm.Aug(leaf));
        InsertFixAugOk(sm, path', leaf);
      }
    }

    /** The node gets its own value and is linked, and the values on the way to it are brought up to date. */
    method LinkAugmented(node: Ptr, parent: Ptr, d: Side, ghost path: Path<A>)
      returns (ghost path': Path<A>, ghost leaf: Tree<A>)
      requires Sound() && node in mem && node != NULL && node !in Inorder(tree)
      requires tree == Plug(path, Nil) && path.Parent(NULL) == parent && (path.Step? ==> path.side == d)
      modifies this
      ensures mem.Keys == old(mem.Keys) && Kept(old(mem), mem, Before(path) + [node] + After(path))
      ensures leaf == Leaf(node, sm.Combine(sm.unit, node, sm.unit)) && path' == Propagate(sm, path, sm.Aug(leaf))
      ensures Represents(Plug(path', leaf))
    {
      hide Kept, Inorder, Valid, Propagate, Before, After;
      ghost var m0, t0 := mem, tree;
      var value := sm.Combine(sm.unit, node, sm.unit);
      mem := SetAug(mem, node, value);
      LinkedOutside(m0, mem, tree, NULL, node);
      ghost var m1, s := mem, Before(path) + [node] + After(path);
      leaf := Leaf(node, value);
      InorderSplit(path, leaf);
      LeafFacts(node, value);
      KeptSetAug(m0, node, value, s);
      LinkNode(node, parent, d, path);
      ghost var m2 := mem;
      KeptThen(m0, m1, m2, s);
      ghost var rk := CutOpen(mem, path, leaf);
      PropagateToRoot(parent, path, leaf, rk);
      KeptSpine(m2, mem, path, leaf);
      KeptThen(m0, m2, mem, s);
      path' := Propagate(sm, path, sm.Aug(leaf));
      PropagateKeeps(sm, path, sm.Aug(leaf), leaf, leaf);
    }

    /** A whole insertion into an augmented tree: the node is linked, values are updated, the tree is rebalanced. */
    method InsertAugmented(node: Ptr, parent: Ptr, d: Side, ghost path: Path<A>)
      requires Sound() && node in mem && node != NULL && node !in Inorder(tree)
      requires tree == Plug(path, Nil) && path.Parent(NULL) == parent && (path.Step? ==> path.side == d)
      modifies this
      ensures mem.Keys == old(mem.Keys) && Kept(old(mem), mem, Inorder(tree))
      ensures Sound() && Inorder(tree) == Before(path) + [node] + After(path)
      ensures sm.Associative() && old(sm.AugOk(tree)) ==> sm.AugOk(tree)
    {
      hide Kept, Inorder, Valid, InsertFix, Propagate, Before, After, Plug;
      ghost var m0, value := mem, sm.Combine(sm.unit, node, sm.unit);
      ghost var updated := UpdatedPath(path, Leaf(node, value));
      InorderSplit(path, Leaf(node, value));
      LeafFacts(node, value);
      ghost var path', leaf := LinkAugmented(node, parent, d, path);
      ghost var m1 := mem;
      InsertColor(node, path', leaf);
      KeptThen(m0, m1, mem, Before(path) + [node] + After(path));
      tree := InsertFix(sm, path', leaf);
    }

    lemma {:induction false} LeafFacts(node: Ptr, value: A)
      ensures Inorder(Leaf(node, value)) == [node]
      ensures value == sm.Combine(sm.unit, node, sm.unit) ==> sm.AugOk(Leaf(node, value))
    {
    }

    lemma {:induction false} KeptSetAug(m: Mem<A>, x: Ptr, a: A, s: seq<Ptr>)
      requires x in m && x in s
      ensures Kept(m, SetAug(m, x, a), s)
    {
    }

    lemma {:induction false} EraseFacts(path: Path<A>, nd: Tree<A>)
      requires nd.Node? && Valid(Plug(path, nd)) && Unique(Inorder(Plug(path, nd)))
      ensures var u, e, s := Unlink(sm, path, nd), RbUnlinkSpec.Erase(sm, path, nd), Inorder(Plug(path, nd));
              && Inorder(Plug(u.path, u.t)) == Without(s, nd.id)
              && (u.rebalance ==> u.t.Nil? && Deficient(u.path, u.t, 0) && u.path.Step?)
              && e == (if u.rebalance then EraseFix(sm, u.path, u.t, 0) else Plug(u.path, u.t))
              && Valid(e) && Inorder(e) == Without(s, nd.id)
              && (sm.Associative() && sm.AugOk(Plug(path, nd)) ==> sm.AugOk(e))
    {
      UnlinkInorder(sm, path, nd);
      UnlinkValid(sm, path, nd);
      EraseCorrect(sm, path, nd);
      if sm.Associative() && sm.AugOk(Plug(path, nd)) { EraseAugOk(sm, path, nd); }
    }

    /** rb_erase and rb_erase_augmented. */
    method Erase(node: Ptr)
      requires Sound() && node in Inorder(tree)
      modifies this
      ensures mem.Keys == old(mem.Keys) && Kept(old(mem), mem, old(Inorder(tree)))
      ensures Sound() && Inorder(tree) == Without(old(Inorder(tree)), node)
      ensures sm.Associative() && old(sm.AugOk(tree)) ==> sm.AugOk(tree)
    {
      hide Kept, Without, Inorder, Unlink, RbUnlinkSpec.Erase, EraseFix, Valid, Deficient;
      ghost var path, nd := Focus(Top, tree, node);
      assert Plug(Top, tree) == tree;
      EraseFacts(path, nd);
      ghost var all := Inorder(tree);
      var rebalance := EraseAugmented(node, path, nd);
      ghost var u, m1 := Unlink(sm, path, nd), mem;
      ghost var rk := CutOpen(mem, u.path, u.t);
      ParentNotNull(mem, u.path, u.t.Root());
      if rebalance != NULL {
        EraseColor(rebalance, u.path, u.t, 0);
        KeptErased(old(mem), m1, mem, all, node);
      }
      tree := RbUnlinkSpec.Erase(sm, path, nd);
    }

    // ---------- Walks ----------

    /** rb_first for d == Left, rb_last for d == Right. */
    method Extreme(d: Side) returns (n: Ptr)
      requires Represents(tree)
      ensures n == if tree.Nil? then NULL else End(d, Inorder(tree))
    {
      n := root;
      if n == NULL {
        return;
      }
      n := Descend(n, d, tree, NULL);
    }

    /** Down the links on side d as far as they go. */
    method Descend(top: Ptr, d: Side, ghost sub: Tree<A>, ghost parent: Ptr) returns (n: Ptr)
      requires sub.Node? && sub.id == top && Linked(mem, sub, parent)
      ensures n == End(d, Inorder(sub))
    {
      n := top;
      ghost var t, up := sub, parent;
      assert Linked(mem, t.Child(d), t.id);
      while mem[n].Child(d) != NULL
        invariant t.Node? && t.id == n && Linked(mem, t, up) && Linked(mem, t.Child(d), t.id)
        invariant End(d, Inorder(t)) == End(d, Inorder(sub))
        decreases t
      {
        up, t := t.id, t.Child(d);
        n := mem[n].Child(d);
        assert Linked(mem, t.Child(d), t.id);
      }
    }

    lemma {:induction false} TreeNode(node: Ptr)
      requires Represents(tree) && node in Inorder(tree)
      ensures node in mem && node != NULL && !Cleared(mem, node)
    {
      var path, nd := Focus(Top, tree, node);
      var rk := CutOpen(mem, path, nd);
      NotCleared(rk, mem, path, nd);
    }

    /** rb_next for d == Right, rb_prev for d == Left, of a node of the tree or one that is marked as in no tree. */
    method Neighbour(node: Ptr, d: Side) returns (r: Ptr)
      requires Represents(tree) && (node in Inorder(tree) || (node in mem && Cleared(mem, node)))
      ensures node !in Inorder(tree) ==> r == NULL
      ensures forall i :: 0 <= i < |Inorder(tree)| && Inorder(tree)[i] == node ==> r == NextTo(d, Inorder(tree), i)
    {
      if node in Inorder(tree) { TreeNode(node); }
      if Cleared(mem, node) {
        return NULL;
      }
      ghost var path, nd := Focus(Top, tree, node);
      ghost var rk := CutOpen(mem, path, nd);
      NotCleared(rk, mem, path, nd);
      forall i | 0 <= i < |Inorder(tree)| && Inorder(tree)[i] == node
        ensures NextTo(d, Inorder(tree), i)
             == if nd.Child(d).Node? then End(d.Other(), Inorder(nd.Child(d))) else Nearest(d, Beyond(d, path))
      {
        NeighbourOf(d, path, nd, i);
      }
      assert Linked(mem, nd.Child(d), nd.id);
      if mem[node].Child(d) != NULL {
        r := Descend(mem[node].Child(d), d.Other(), nd.Child(d), node);
      } else {
        r := Climb(node, d, rk, path, nd);
      }
    }

    /** Up as long as node hangs on side d of its parent. */
    method Climb(node: Ptr, d: Side, ghost rk: Rank, ghost path: Path<A>, ghost nd: Tree<A>) returns (parent: Ptr)
      requires nd.Node? && nd.id == node && Placed(mem, path, nd, NULL)
      requires rk.PathSorted(path) && rk.Within(node, rk.Lo(path), rk.Hi(path))
      ensures parent == Nearest(d, Beyond(d, path))
    {
      var node := node;
      ghost var p := path;
      parent := mem[node].parent;
      while parent != NULL && node == mem[parent].Child(d)
        invariant PathLinked(mem, p, node, NULL) && parent == p.Parent(NULL) && node != NULL
        invariant rk.PathSorted(p) && rk.Within(node, rk.Lo(p), rk.Hi(p))
        invariant Beyond(d, p) == Beyond(d, path)
        decreases p
      {
        LinkSide(rk, mem, p, node);
        rk.Nest(p);
        node, p := parent, p.up;
        parent := mem[node].parent;
      }
      if p.Step? { LinkSide(rk, mem, p, node); }
    }

    /** rb_left_deepest_node: the first node of a subtree in postorder. */
    method LeftDeepest(top: Ptr, ghost sub: Tree<A>, ghost parent: Ptr) returns (n: Ptr)
      requires sub.Node? && sub.id == top && Linked(mem, sub, parent)
      ensures n == Postorder(sub)[0]
    {
      n := top;
      ghost var t, up := sub, parent;
      while true
        invariant t.Node? && t.id == n && Linked(mem, t, up)
        invariant Postorder(t)[0] == Postorder(sub)[0]
        decreases t
      {
        assert Linked(mem, t.left, t.id) && Linked(mem, t.right, t.id);
        if mem[n].left != NULL {
          up, t := t.id, t.left;
          n := mem[n].left;
        } else if mem[n].right != NULL {
          up, t := t.id, t.right;
          n := mem[n].right;
        } else {
          return;
        }
      }
    }

    method FirstPostorder() returns (n: Ptr)
      requires Represents(tree)
      ensures n == if tree.Nil? then NULL else Postorder(tree)[0]
    {
      if root == NULL {
        return NULL;
      }
      n := LeftDeepest(root, tree, NULL);
    }

    lemma {:induction false} PostNextOf(path: Path<A>, nd: Tree<A>)
      requires tree == Plug(path, nd) && nd.Node? && Unique(Inorder(tree))
      ensures forall i :: 0 <= i < |Postorder(tree)| && Postorder(tree)[i] == nd.id ==>
        PostNext(Postorder(tree), i) == if PostAfter(path) == [] then NULL else PostAfter(path)[0]
    {
      hide Inorder, Postorder, Unique, PostNext, PostAfter;
      PostorderIsPermutation(tree);
      UniqueMultiset(Inorder(tree), Postorder(tree));
      forall i | 0 <= i < |Postorder(tree)| && Postorder(tree)[i] == nd.id
        ensures PostNext(Postorder(tree), i) == if PostAfter(path) == [] then NULL else PostAfter(path)[0]
      {
        PostNeighbour(path, nd, i);
      }
    }

    method NextPostorder(node: Ptr) returns (r: Ptr)
      requires Represents(tree) && (node != NULL ==> node in Inorder(tree))
      ensures node == NULL ==> r == NULL
      ensures node != NULL ==> forall i :: 0 <= i < |Postorder(tree)| && Postorder(tree)[i] == node ==>
              r == PostNext(Postorder(tree), i)
    {
      hide Inorder, PostNext;
      if node == NULL {
        return NULL;
      }
      ghost var path, nd := Focus(Top, tree, node);
      ghost var rk := CutOpen(mem, path, nd);
      NotCleared(rk, mem, path, nd);
      PostNextOf(path, nd);
      var parent := mem[node].parent;
      if path.Step? {
        LinkSide(rk, mem, path, node);
        assert Linked(mem, path.sib, path.id);
      }
      if parent != NULL && node == mem[parent].left && mem[parent].right != NULL {
        r := LeftDeepest(mem[parent].right, path.sib, path.id);
      } else {
        r := parent;
      }
    }

    /** for (n = rb_first; n; n = rb_next(n)) */
    method Walk() returns (s: seq<Ptr>)
      requires Represents(tree)
      ensures s == Inorder(tree)
    {
      s := [];
      var n := Extreme(Left);
      NullNotIn(mem, tree, NULL);
      while n != NULL
        invariant |s| <= |Inorder(tree)| && s == Inorder(tree)[..|s|]
        invariant n == if |s| < |Inorder(tree)| then Inorder(tree)[|s|] else NULL
        decreases |Inorder(tree)| - |s|
      {
        s := s + [n];
        n := Neighbour(n, Right);
      }
    }

    /** The postorder loop of rbtree_postorder_for_each_entry_safe, without its body. */
    method WalkPostorder() returns (s: seq<Ptr>)
      requires Represents(tree)
      ensures s == Postorder(tree)
    {
      s := [];
      var n := FirstPostorder();
      NullNotIn(mem, tree, NULL);
      PostorderSameNodes(tree);
      while n != NULL
        invariant |s| <= |Postorder(tree)| && s == Postorder(tree)[..|s|]
        invariant n == if |s| < |Postorder(tree)| then Postorder(tree)[|s|] else NULL
        decreases |Postorder(tree)| - |s|
      {
        s := s + [n];
        n := NextPostorder(n);
      }
    }

    /** A new node, at an address that was not in use. */
    method Allocate(node: Ptr, r: RbNode<A>)
      requires Sound() && node !in mem
      modifies this`mem
      ensures mem == old(mem)[node := r] && Sound()
    {
      NullNotIn(mem, tree, NULL);
      ghost var m := mem;
      mem := mem[node := r];
      LinkedOutside(m, mem, tree, NULL, node);
    }

    /** RB_CLEAR_NODE on a node outside the tree. */
    method Clear(node: Ptr)
      requires Sound() && node in mem && node !in Inorder(tree)
      modifies this`mem
      ensures mem == SetParentColor(old(mem), node, node, false) && Sound() && Cleared(mem, node)
    {
      ghost var m := mem;
      mem := SetParentColor(mem, node, node, false);
      LinkedOutside(m, mem, tree, NULL, node);
    }
  }
}
