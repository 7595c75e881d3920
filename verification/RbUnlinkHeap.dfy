/**
 What propagation and unlinking do to memory: the loops and assignments that take a node out of the
 tree, and those that recompute the values above it, against the functions that specify them.
 */
module RbUnlinkHeap {
  import opened RbShape
  import opened RbUnlinkSpec
  import opened RbHeap

  // ---------- Propagation ----------

  /** Memory after the values from the innermost node of path upwards have been recomputed. */
  ghost function Propagated<A(!new)>(sm: Summary<A>, m: Mem<A>, path: Path<A>, a: A): Mem<A>
    decreases path
  {
    if path.Top? || path.id !in m then m
    else
      var w := sm.CombineOn(path.side, a, path.id, sm.Aug(path.sib));
      if m[path.id].aug == w then m else Propagated(sm, SetAug(m, path.id, w), path.up, w)
  }

  ghost predicate OnSpine<A>(path: Path<A>, x: Ptr) {
    path.Step? && (path.id == x || OnSpine(path.up, x))
  }

  lemma {:induction false} PropagatedOnly<A(!new)>(sm: Summary<A>, m: Mem<A>, path: Path<A>, a: A)
    ensures var m' := Propagated(sm, m, path, a);
            m'.Keys == m.Keys && forall x :: x in m && !OnSpine(path, x) ==> m'[x] == m[x]
    decreases path
  {
    if path.Step? && path.id in m {
      var w := sm.CombineOn(path.side, a, path.id, sm.Aug(path.sib));
      if m[path.id].aug != w { PropagatedOnly(sm, SetAug(m, path.id, w), path.up, w); }
    }
  }

  /** The nodes of a path lie outside the interval of its end, and within the interval of the whole. */
  lemma {:induction false} SpineOutside<A>(rk: Rank, path: Path<A>, x: Ptr)
    requires rk.PathSorted(path) && OnSpine(path, x)
    ensures !rk.Within(x, rk.Lo(path), rk.Hi(path)) && rk.Within(x, rk.lo, rk.hi)
    ensures path.Step? ==> !rk.Within(x, rk.FarLo(path), rk.FarHi(path))
    decreases path
  {
    rk.Nest(path);
    rk.Bounds(path.up);
    if path.id != x { SpineOutside(rk, path.up, x); }
  }

  lemma {:induction false} PropagatedLinked<A(!new)>(sm: Summary<A>, rk: Rank, m: Mem<A>, path: Path<A>, a: A,
                                                     hole: Ptr, top: Ptr)
    requires PathLinked(m, path, hole, top) && rk.PathSorted(path)
    ensures PathLinked(Propagated(sm, m, path, a), Propagate(sm, path, a), hole, top)
    decreases path
  {
    if path.Step? {
      var w := sm.CombineOn(path.side, a, path.id, sm.Aug(path.sib));
      if path.aug != w {
        var m1 := SetAug(m, path.id, w);
        rk.Nest(path);
        rk.PathFrame(m, m1, path.up, path.id, top);
        PropagatedLinked(sm, rk, m1, path.up, w, path.id, top);
        PropagatedOnly(sm, m1, path.up, w);
        var m' := Propagated(sm, m1, path.up, w);
        forall x | OnSpine(path.up, x) ensures !rk.Within(x, rk.Lo(path.up), rk.Hi(path.up)) {
          SpineOutside(rk, path.up, x);
        }
        rk.LinkedFrame(m, m', path.sib, path.id, rk.FarLo(path), rk.FarHi(path));
        assert m'[path.id] == m1[path.id];
        PropagateTop(sm, path.up, w, top);
      }
    }
  }

  lemma {:induction false} PropagateTop<A(!new)>(sm: Summary<A>, path: Path<A>, a: A, top: Ptr)
    ensures Propagate(sm, path, a).Parent(top) == path.Parent(top)
  {
  }

  /** Propagation leaves a subtree at the end of the path alone. */
  lemma {:induction false} PropagatedBelow<A(!new)>(sm: Summary<A>, rk: Rank, m: Mem<A>, path: Path<A>, a: A,
                                                    t: Tree<A>, parent: Ptr)
    requires rk.PathSorted(path) && Linked(m, t, parent) && rk.Sorted(t, rk.Lo(path), rk.Hi(path))
    ensures Linked(Propagated(sm, m, path, a), t, parent)
  {
    PropagatedOnly(sm, m, path, a);
    forall x | OnSpine(path, x) ensures !rk.Within(x, rk.Lo(path), rk.Hi(path)) {
      SpineOutside(rk, path, x);
    }
    rk.LinkedFrame(m, Propagated(sm, m, path, a), t, parent, rk.Lo(path), rk.Hi(path));
  }

  /** What the propagation loop reads at the innermost node. */
  lemma {:induction false} PropagateReads<A(!new)>(sm: Summary<A>, m: Mem<A>, path: Path<A>, a: A, hole: Ptr, top: Ptr)
    requires path.Step? && PathLinked(m, path, hole, top) && Ok(m, hole) && AugAt(sm, m, hole) == a
    ensures path.id in m && Ok(m, m[path.id].left) && Ok(m, m[path.id].right)
    ensures Compute(sm, m, path.id) == sm.CombineOn(path.side, a, path.id, sm.Aug(path.sib))
    ensures m[path.id].parent == path.up.Parent(top)
  {
    AugAtLinked(sm, m, path.sib, path.id);
  }

  /** The rest of the path is as it was, and does not come back to the node just left. */
  lemma {:induction false} PropagateStep<A>(rk: Rank, m: Mem<A>, m': Mem<A>, path: Path<A>, hole: Ptr, top: Ptr)
    requires path.Step? && PathLinked(m, path, hole, top) && rk.PathSorted(path)
    requires m'.Keys == m.Keys && forall x :: x in m && x != path.id ==> m'[x] == m[x]
    ensures PathLinked(m', path.up, path.id, top) && rk.PathSorted(path.up) && !OnSpine(path.up, path.id)
  {
    rk.Nest(path);
    rk.PathFrame(m, m', path.up, path.id, top);
    if OnSpine(path.up, path.id) { SpineOutside(rk, path.up, path.id); }
  }

  // ---------- A node with at most one child ----------

  lemma {:induction false} SortedWiden<A>(rk: Rank, t: Tree<A>, l: int, h: int, l': int, h': int)
    requires rk.Sorted(t, l, h) && l' <= l && h <= h'
    ensures rk.Sorted(t, l', h')
    decreases t
  {
    if t.Node? {
      SortedWiden(rk, t.left, l, rk.of(t.id), l', rk.of(t.id));
      SortedWiden(rk, t.right, rk.of(t.id), h, rk.of(t.id), h');
    }
  }

  /** c takes the place and colour of its parent nd, which has no other child. */
  lemma {:induction false} SplicePlaced<A>(rk: Rank, m: Mem<A>, m': Mem<A>, path: Path<A>, nd: Tree<A>, c: Tree<A>)
    requires Placed(m, path, nd, NULL) && nd.Node?
    requires rk.PathSorted(path) && rk.Sorted(nd, rk.Lo(path), rk.Hi(path))
    requires (nd.left.Nil? && c == nd.right) || (nd.right.Nil? && c == nd.left)
    requires Only(m, m', Or(c.Root(), nd.id), Or(path.Parent(NULL), nd.id), nd.id, nd.id)
    requires c.Node? ==> c.id in m && Holds(m', c.id, m[c.id].(parent := path.Parent(NULL), black := nd.black))
    requires path.Step? ==> path.id in m && Holds(m', path.id, m[path.id].WithChild(path.side, c.Root()))
    ensures PathLinked(m', path, c.Root(), NULL) && Linked(m', c.Tint(nd.black), path.Parent(NULL))
    ensures rk.Sorted(c.Tint(nd.black), rk.Lo(path), rk.Hi(path))
  {
    var l := if c == nd.right then rk.of(nd.id) else rk.Lo(path);
    var h := if c == nd.right then rk.Hi(path) else rk.of(nd.id);
    assert Linked(m, c, nd.id) && rk.Sorted(c, l, h);
    if path.Step? { rk.Nest(path); }
    var x := Or(c.Root(), nd.id);
    rk.KeepRehole(m, m', path, nd.id, c.Root(), x, nd.id, nd.id);
    SortedWiden(rk, c.Tint(nd.black), l, h, rk.Lo(path), rk.Hi(path));
    var y := Or(path.Parent(NULL), nd.id);
    hide Rank.Lo, Rank.Hi, Rank.FarLo, Rank.FarHi;
    rk.KeepBelow(m, m', c, nd.id, path.Parent(NULL), nd.black, l, h, x, y, nd.id, nd.id);
  }

  /** What is read when nd is spliced out. */
  lemma {:induction false} SpliceReads<A>(rk: Rank, m: Mem<A>, path: Path<A>, nd: Tree<A>, c: Tree<A>)
    requires Placed(m, path, nd, NULL) && nd.Node? && (c == nd.right || c == nd.left)
    requires rk.PathSorted(path) && rk.Sorted(nd, rk.Lo(path), rk.Hi(path))
    ensures nd.id in m && nd.id != NULL && m[nd.id].parent == path.Parent(NULL) && m[nd.id].black == nd.black
    ensures m[nd.id].left == nd.left.Root() && m[nd.id].right == nd.right.Root()
    ensures c.Node? ==> c.id in m && c.id != NULL && c.id != nd.id && c.id != path.Parent(NULL)
    ensures path.Step? ==> path.id in m && path.id != NULL && path.id != nd.id
                           && path.side == if m[path.id].left == nd.id then Left else Right
    ensures forall h: Ptr :: RootOf(path, h) == if path.Top? then h else RootOf(path, nd.id)
  {
    assert Linked(m, c, nd.id);
    if path.Step? {
      rk.Nest(path);
      forall h: Ptr ensures RootOf(path, h) == RootOf(path, nd.id) { RootOfStep(path, h, nd.id); }
    }
  }

  lemma {:induction false} SpineNotNull<A>(m: Mem<A>, path: Path<A>, hole: Ptr, top: Ptr)
    requires PathLinked(m, path, hole, top)
    ensures !OnSpine(path, NULL)
    decreases path
  {
    if path.Step? { SpineNotNull(m, path.up, path.id, top); }
  }

  // ---------- A node with two children ----------

  /** The outermost node of a path gets a new parent. */
  lemma {:induction false} ReTop<A>(rk: Rank, m: Mem<A>, m': Mem<A>, path: Path<A>, hole: Ptr, top: Ptr, top': Ptr)
    requires path.Step? && PathLinked(m, path, hole, top) && rk.PathSorted(path)
    requires var r := RootOf(path, hole);
             && r in m && Holds(m', r, m[r].(parent := top'))
             && forall x :: x in m && rk.Within(x, rk.lo, rk.hi) && !rk.Within(x, rk.Lo(path), rk.Hi(path)) && x != r
                            ==> x in m' && m'[x] == m[x]
    ensures PathLinked(m', path, hole, top')
    decreases path
  {
    rk.Nest(path);
    rk.Bounds(path.up);
    var r := RootOf(path, hole);
    RootOfStep(path, hole, hole);
    if path.up.Step? {
      RootOnSpine(path.up, path.id);
      SpineOutside(rk, path.up, r);
      ReTop(rk, m, m', path.up, path.id, top, top');
    }
    rk.LinkedFrame(m, m', path.sib, path.id, rk.FarLo(path), rk.FarHi(path));
  }

  lemma {:induction false} RootOnSpine<A>(path: Path<A>, hole: Ptr)
    requires path.Step?
    ensures OnSpine(path, RootOf(path, hole))
    decreases path
  {
    RootOfStep(path, hole, hole);
    if path.up.Step? { RootOnSpine(path.up, path.id); }
  }

  /** The positions of the right subtree of a node, on their own. */
  ghost function RightRank<A>(rk: Rank, path: Path<A>, nd: Tree<A>): Rank
    requires nd.Node?
  {
    Rank(rk.of, rk.of(nd.id), rk.Hi(path))
  }

  /** The successor and the path to it, as they stand in memory. */
  lemma {:induction false} SuccessorPlaced<A>(rk: Rank, m: Mem<A>, path: Path<A>, nd: Tree<A>)
    requires nd.Node? && nd.right.Node? && Linked(m, nd, path.Parent(NULL))
    requires rk.PathSorted(path) && rk.Sorted(nd, rk.Lo(path), rk.Hi(path))
    ensures var (inner, s) := Leftmost(Top, nd.right);
            var rr := RightRank(rk, path, nd);
            && PathLinked(m, inner, s.id, nd.id) && Linked(m, s, inner.Parent(nd.id))
            && rr.PathSorted(inner) && rr.Sorted(s, rr.Lo(inner), rr.Hi(inner))
            && RootOf(inner, s.id) == nd.right.id && LeftSpine(inner)
  {
    var (inner, s) := Leftmost(Top, nd.right);
    var rr := RightRank(rk, path, nd);
    assert Linked(m, nd.right, nd.id) && rk.Sorted(nd.right, rr.lo, rr.hi);
    SortedOf(rk, rr, nd.right, rr.lo, rr.hi);
    rr.PlugSorted(inner, s);
    PlugLinked(m, inner, s, nd.id);
    LeftmostSpine(Top, nd.right);
  }

  lemma {:induction false} SortedOf<A>(rk: Rank, rk': Rank, t: Tree<A>, l: int, h: int)
    requires rk.Sorted(t, l, h) && rk'.of == rk.of
    ensures rk'.Sorted(t, l, h)
    decreases t
  {
    if t.Node? {
      SortedOf(rk, rk', t.left, l, rk.of(t.id));
      SortedOf(rk, rk', t.right, rk.of(t.id), h);
    }
  }

  /** The successor s, at the end of inner, taken out from below its parent and put above nd's right child r. */
  function Extracted<A>(m: Mem<A>, parent: Ptr, s: Ptr, r: Ptr, c: Ptr, a: A): Mem<A>
    requires parent in m && s in m && r in m
  {
    SetAug(SetParent(SetChild(SetChild(m, parent, Left, c), s, Right, r), r, s), s, a)
  }

  lemma {:induction false} ExtractedRecords<A>(m: Mem<A>, parent: Ptr, s: Ptr, r: Ptr, c: Ptr, a: A)
    requires parent in m && s in m && r in m && parent != s && r != s
    ensures var m1, m' := SetChild(m, parent, Left, c), Extracted(m, parent, s, r, c, a);
            && m'.Keys == m.Keys && Holds(m', s, m[s].(right := r, aug := a)) && Holds(m', r, m1[r].(parent := s))
            && (forall x :: x in m && x != s && x != r ==> m'[x] == m1[x])
            && (forall x :: x in m && x != parent ==> m1[x] == m[x])
  {
  }

  lemma {:induction false} ExtractedPlaced<A>(rk: Rank, m: Mem<A>, inner: Path<A>, s: Tree<A>, top: Ptr, a: A)
    requires inner.Step? && LeftSpine(inner) && s.Node? && s.left.Nil?
    requires PathLinked(m, inner, s.id, top) && Linked(m, s, inner.id)
    requires rk.PathSorted(inner) && rk.Sorted(s, rk.Lo(inner), rk.Hi(inner))
    ensures var r, c := RootOf(inner, s.id), s.right.Root();
            && inner.id in m && s.id in m && r in m
            && var m' := Extracted(m, inner.id, s.id, r, c, a);
               && PathLinked(m', inner, c, s.id) && Linked(m', s.right, s.id)
               && r != s.id && r != NULL && Holds(m', s.id, m[s.id].(right := r, aug := a))
               && forall x :: x in m && !rk.Within(x, rk.lo, rk.hi) ==> m'[x] == m[x]
  {
    hide Extracted, RootOf;
    var r, c := RootOf(inner, s.id), s.right.Root();
    RootOnSpine(inner, s.id);
    SpineOutside(rk, inner, r);
    RootLinked(m, inner, s.id, top);
    rk.Nest(inner);
    rk.Bounds(inner);
    rk.Bounds(inner.up);
    var m1 := SetChild(m, inner.id, Left, c);
    rk.Rehole(m, m1, inner, s.id, c, top);
    var m' := Extracted(m, inner.id, s.id, r, c, a);
    ExtractedRecords(m, inner.id, s.id, r, c, a);
    RootOfStep(inner, s.id, c);
    ReTop(rk, m1, m', inner, c, top, s.id);
    rk.LinkedFrame(m, m', s.right, s.id, rk.of(s.id), rk.Hi(inner));
  }

  lemma {:induction false} RootLinked<A>(m: Mem<A>, path: Path<A>, hole: Ptr, top: Ptr)
    requires path.Step? && PathLinked(m, path, hole, top)
    ensures RootOf(path, hole) in m && RootOf(path, hole) != NULL
    decreases path
  {
    RootOfStep(path, hole, hole);
    if path.up.Step? { RootLinked(m, path.up, path.id, top); }
  }

  /** The successor has been taken out, and the values between it and its old place propagated. */
  ghost predicate Taken<A>(rk: Rank, m: Mem<A>, m1: Mem<A>, path: Path<A>, nd: Tree<A>, inner: Path<A>, s: Ptr,
                           sb: bool, c: Tree<A>)
    requires nd.Node?
  {
    var rr := RightRank(rk, path, nd);
    && m1.Keys == m.Keys && (forall x :: x in m && !rr.Within(x, rr.lo, rr.hi) ==> m1[x] == m[x])
    && PathLinked(m1, inner, c.Root(), s) && Linked(m1, c, s) && rr.PathSorted(inner)
    && s != NULL && s in m1 && m1[s].black == sb && m1[s].right == RootOf(inner, c.Root()) && m1[s].aug == nd.aug
    && rr.Within(s, rr.Lo(inner), rr.Hi(inner)) && rr.Sorted(c, rr.of(s), rr.Hi(inner))
  }

  /** nd's place handed over to s: what the writes after the propagation amount to. */
  ghost predicate HandedOver<A>(m1: Mem<A>, m2: Mem<A>, path: Path<A>, nd: Tree<A>, inner: Path<A>, s: Ptr, c: Tree<A>)
    requires nd.Node? && nd.left.Node?
  {
    var l := nd.left.id;
    && Only(m1, m2, s, l, Or(c.Root(), s), Or(path.Parent(NULL), s))
    && Holds(m2, s, RbNode(path.Parent(NULL), nd.black, l, RootOf(inner, c.Root()), nd.aug))
    && l in m1 && Holds(m2, l, m1[l].(parent := s))
    && (path.Step? ==> path.id in m1 && Holds(m2, path.id, m1[path.id].WithChild(path.side, s)))
    && (c.Node? ==> c.id in m1 && Holds(m2, c.id, m1[c.id].(parent := inner.Parent(s), black := true)))
  }

  lemma {:induction false} HandedOverPlaced<A>(rk: Rank, m: Mem<A>, m1: Mem<A>, m2: Mem<A>, path: Path<A>,
                                               nd: Tree<A>, inner: Path<A>, s: Ptr, sb: bool, c: Tree<A>)
    requires nd.Node? && nd.left.Node? && Placed(m, path, nd, NULL)
    requires rk.PathSorted(path) && rk.Sorted(nd, rk.Lo(path), rk.Hi(path))
    requires Taken(rk, m, m1, path, nd, inner, s, sb, c) && HandedOver(m1, m2, path, nd, inner, s, c)
    ensures Placed(m2, Replaced(path, nd, s), Plug(inner, c.Blacken()), NULL)
  {
    var rr := RightRank(rk, path, nd);
    rr.Bounds(inner);
    if path.Step? { rk.Nest(path); }
    HandedOverAbove(rk, m, m1, m2, path, nd, inner, s, sb, c);
    HandedOverBelow(rk, m, m1, m2, path, nd, inner, s, sb, c);
    PlugLinked(m2, inner, c.Blacken(), s);
  }

  lemma {:induction false} HandedOverAbove<A>(rk: Rank, m: Mem<A>, m1: Mem<A>, m2: Mem<A>, path: Path<A>, nd: Tree<A>,
                                              inner: Path<A>, s: Ptr, sb: bool, c: Tree<A>)
    requires nd.Node? && nd.left.Node? && Placed(m, path, nd, NULL)
    requires rk.PathSorted(path) && rk.Sorted(nd, rk.Lo(path), rk.Hi(path))
    requires Taken(rk, m, m1, path, nd, inner, s, sb, c) && HandedOver(m1, m2, path, nd, inner, s, c)
    ensures PathLinked(m2, path, s, NULL) && Linked(m2, nd.left, s)
  {
    var rr := RightRank(rk, path, nd);
    rr.Bounds(inner);
    if path.Step? { rk.Nest(path); }
    assert rk.Sorted(nd.left, rk.Lo(path), rk.of(nd.id)) && Linked(m, nd.left, nd.id);
    hide Rank.Lo, Rank.Hi, Rank.FarLo, Rank.FarHi, Rank.PathSorted;
    rk.Rehole(m, m2, path, nd.id, s, NULL);
    rk.Reparent(m, m2, nd.left, nd.id, s, nd.left.black, rk.Lo(path), rk.of(nd.id));
  }

  lemma {:induction false} HandedOverBelow<A>(rk: Rank, m: Mem<A>, m1: Mem<A>, m2: Mem<A>, path: Path<A>, nd: Tree<A>,
                                              inner: Path<A>, s: Ptr, sb: bool, c: Tree<A>)
    requires nd.Node? && nd.left.Node? && Placed(m, path, nd, NULL)
    requires rk.PathSorted(path) && rk.Sorted(nd, rk.Lo(path), rk.Hi(path))
    requires Taken(rk, m, m1, path, nd, inner, s, sb, c) && HandedOver(m1, m2, path, nd, inner, s, c)
    ensures PathLinked(m2, inner, c.Root(), s) && Linked(m2, c.Blacken(), inner.Parent(s))
  {
    var rr := RightRank(rk, path, nd);
    rr.Bounds(inner);
    if path.Step? { rk.Nest(path); }
    hide Rank.Lo, Rank.Hi, Rank.FarLo, Rank.FarHi;
    rr.PathFrame(m1, m2, inner, c.Root(), s);
    rr.Reparent(m1, m2, c, s, inner.Parent(s), true, rr.of(s), rr.Hi(inner));
  }

  lemma {:induction false} PropagateSorted<A(!new)>(sm: Summary<A>, rk: Rank, path: Path<A>, a: A, hole: Ptr)
    requires rk.PathSorted(path)
    ensures var p := Propagate(sm, path, a);
            rk.PathSorted(p) && rk.Lo(p) == rk.Lo(path) && rk.Hi(p) == rk.Hi(path)
                && RootOf(p, hole) == RootOf(path, hole)
    decreases path
  {
    if path.Step? {
      var w := sm.CombineOn(path.side, a, path.id, sm.Aug(path.sib));
      if path.aug != w { PropagateSorted(sm, rk, path.up, w, path.id); }
    }
  }

  /** The successor is the right child itself: only its value changes. */
  lemma {:induction false} TakenDirectly<A>(rk: Rank, m: Mem<A>, path: Path<A>, nd: Tree<A>)
    requires nd.Node? && nd.right.Node? && nd.right.left.Nil? && Linked(m, nd, path.Parent(NULL))
    requires rk.PathSorted(path) && rk.Sorted(nd, rk.Lo(path), rk.Hi(path))
    ensures var r := nd.right;
            r.id in m && Taken(rk, m, SetAug(m, r.id, nd.aug), path, nd, Top, r.id, r.black, r.right)
  {
    var r, rr := nd.right, RightRank(rk, path, nd);
    SuccessorPlaced(rk, m, path, nd);
    rr.LinkedFrame(m, SetAug(m, r.id, nd.aug), r.right, r.id, rr.of(r.id), rr.hi);
  }

  /** The successor is further down. */
  lemma {:induction false} TakenFromBelow<A>(rk: Rank, m: Mem<A>, path: Path<A>, nd: Tree<A>, inner: Path<A>,
                                             s: Tree<A>)
    requires nd.Node? && nd.right.Node? && nd.right.left.Node? && Linked(m, nd, path.Parent(NULL))
    requires rk.PathSorted(path) && rk.Sorted(nd, rk.Lo(path), rk.Hi(path))
    requires (inner, s) == Leftmost(Top, nd.right) && inner.Step?
    ensures inner.id in m && s.id in m && nd.right.id in m
    ensures Taken(rk, m, Extracted(m, inner.id, s.id, nd.right.id, s.right.Root(), nd.aug),
                  path, nd, inner, s.id, s.black, s.right)
  {
    var c, rr := s.right, RightRank(rk, path, nd);
    SuccessorPlaced(rk, m, path, nd);
    ExtractedPlaced(rr, m, inner, s, nd.id, nd.aug);
    RootOfStep(inner, s.id, c.Root());
    hide Extracted, PathLinked, Rank.PathSorted, Rank.Lo, Rank.Hi, Leftmost;
  }

  /** What the propagation towards the successor needs of a memory from which it has been taken. */
  lemma {:induction false} TakenReads<A(!new)>(sm: Summary<A>, rk: Rank, m: Mem<A>, m1: Mem<A>, path: Path<A>,
                                               nd: Tree<A>, inner: Path<A>, s: Tree<A>)
    requires nd.Node? && s.Node? && Taken(rk, m, m1, path, nd, inner, s.id, s.black, s.right)
    ensures RightRank(rk, path, nd).PathSorted(inner)
    ensures PathLinked(m1, inner, s.right.Root(), s.id)
    ensures Ok(m1, s.right.Root()) && AugAt(sm, m1, s.right.Root()) == sm.Aug(s.right)
    ensures !OnSpine(inner, s.id) && !OnSpine(inner, s.right.Root())
  {
    var rr := RightRank(rk, path, nd);
    AugAtLinked(sm, m1, s.right, s.id);
    SpineNotNull(m1, inner, s.right.Root(), s.id);
    if OnSpine(inner, s.id) { SpineOutside(rr, inner, s.id); }
    if OnSpine(inner, s.right.Root()) { SpineOutside(rr, inner, s.right.Root()); }
  }

  /** Propagating along the way to the successor's old place changes nothing of this. */
  lemma {:induction false} TakenPropagated<A(!new)>(sm: Summary<A>, rk: Rank, m: Mem<A>, m1: Mem<A>, path: Path<A>,
                                                    nd: Tree<A>, inner: Path<A>, s: Ptr, sb: bool, c: Tree<A>, a: A)
    requires nd.Node? && Taken(rk, m, m1, path, nd, inner, s, sb, c)
    ensures Taken(rk, m, Propagated(sm, m1, inner, a), path, nd, Propagate(sm, inner, a), s, sb, c)
  {
    var rr, m2 := RightRank(rk, path, nd), Propagated(sm, m1, inner, a);
    PropagatedLinked(sm, rr, m1, inner, a, c.Root(), s);
    PropagatedOnly(sm, m1, inner, a);
    PropagateSorted(sm, rr, inner, a, c.Root());
    forall x | OnSpine(inner, x) ensures !rr.Within(x, rr.Lo(inner), rr.Hi(inner)) && rr.Within(x, rr.lo, rr.hi) {
      SpineOutside(rr, inner, x);
    }
    hide Propagated, Propagate, PathLinked, Rank.PathSorted, Rank.Lo, Rank.Hi;
    rr.LinkedFrame(m1, m2, c, s, rr.of(s), rr.Hi(inner));
  }
}
