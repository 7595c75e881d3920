/**
 What rotations do to memory, and to the tree that memory holds: the assignments of each rebalancing
 case, in the order of the source, turn a picture of the old tree into one of the new tree.
 */
module RbRotate {
  import opened RbShape
  import opened RbHeap

  /** A rotation that lifts p above its parent g, whose own parent and subtrees are all different nodes. */
  ghost predicate RisePre<A>(m: Mem<A>, d: Side, p: Ptr, g: Ptr, c: Ptr) {
    && p in m && g in m && p != g && Ok(m, c) && c != p && c != g
    && (var gg := m[g].parent; Ok(m, gg) && gg != p && gg != g && (gg != NULL ==> gg != c))
    && (var u := m[g].Child(d.Other()); Ok(m, u) && u != p && u != g && (c != NULL ==> u != c))
  }

  /** A rotation that lifts n above its parent p. */
  ghost predicate SwapPre<A>(m: Mem<A>, d: Side, n: Ptr, p: Ptr, c: Ptr) {
    && p in m && n in m && p != n && Ok(m, c) && c != p && c != n
    && (var s := m[p].Child(d); Ok(m, s) && s != p && s != n && (c != NULL ==> s != c))
  }

  /**
   What happens to memory when p rises above g and takes its place, colour and value, and p's child c on
   the side of g goes below g: g is recomputed and gets colour gb, and c gets colour cb.
   */
  ghost predicate RiseEffect<A(!new)>(sm: Summary<A>, m: Mem<A>, m': Mem<A>, d: Side, p: Ptr, g: Ptr, c: Ptr,
                                      gb: bool, cb: bool)
    requires RisePre(m, d, p, g, c)
  {
    var gg := m[g].parent;
    && Only(m, m', p, g, Or(c, p), Or(gg, p))
    && Holds(m', p, m[p].WithChild(d.Other(), g).(parent := gg, black := m[g].black, aug := m[g].aug))
    && Holds(m', g, m[g].WithChild(d, c).(parent := p, black := gb,
           aug := sm.CombineOn(d, AugAt(sm, m, c), g, AugAt(sm, m, m[g].Child(d.Other())))))
    && (c != NULL ==> Holds(m', c, m[c].(parent := g, black := cb)))
    && (gg != NULL ==> Holds(m', gg, m[gg].WithChild(if m[gg].left == g then Left else Right, p)))
  }

  /** A node hangs from one side of its parent only. */
  lemma {:induction false} LinkSide<A>(rk: Rank, m: Mem<A>, path: Path<A>, hole: Ptr)
    requires path.Step? && PathLinked(m, path, hole, NULL) && rk.PathSorted(path)
    requires hole != NULL && rk.Within(hole, rk.Lo(path), rk.Hi(path))
    ensures path.side == if m[path.id].left == hole then Left else Right
  {
  }

  /** The same, seen from the path and subtree. */
  ghost predicate RiseRecords<A(!new)>(sm: Summary<A>, m: Mem<A>, m': Mem<A>, path: Path<A>, t: Tree<A>, gb: bool,
                                       cb: bool)
    requires path.Step? && path.up.Step? && path.side == path.up.side
  {
    var g, d, c := path.up, path.side, path.sib.Root();
    var gg := g.up.Parent(NULL);
    && Only(m, m', path.id, g.id, Or(c, path.id), Or(gg, path.id))
    && Holds(m', path.id, Record(gg, g.black, g.aug, d, t.Root(), g.id))
    && Holds(m', g.id, Record(path.id, gb, sm.CombineOn(d, sm.Aug(path.sib), g.id, sm.Aug(g.sib)), d, c, g.sib.Root()))
    && (c != NULL ==> c in m && Holds(m', c, m[c].(parent := g.id, black := cb)))
    && (gg != NULL ==> gg in m && Holds(m', gg, m[gg].WithChild(g.up.side, path.id)))
  }

  lemma {:induction false} RiseRecordsHold<A(!new)>(sm: Summary<A>, rk: Rank, m: Mem<A>, m': Mem<A>, path: Path<A>,
                                                    t: Tree<A>, gb: bool, cb: bool)
    requires path.Step? && path.up.Step? && path.side == path.up.side && t.Node? && Placed(m, path, t, NULL)
    requires rk.PathSorted(path)
    requires RisePre(m, path.side, path.id, path.up.id, path.sib.Root())
    requires RiseEffect(sm, m, m', path.side, path.id, path.up.id, path.sib.Root(), gb, cb)
    ensures RiseRecords(sm, m, m', path, t, gb, cb)
  {
    var g := path.up;
    assert PathLinked(m, g, path.id, NULL);
    AugAtLinked(sm, m, path.sib, path.id);
    AugAtLinked(sm, m, g.sib, g.id);
    if g.up.Step? {
      rk.Nest(g);
      LinkSide(rk, m, g.up, g.id);
    }
    hide Linked, Rank.Sorted, Only;
  }

  /** Where the nodes touched by a rotation at the grandparent stand. */
  ghost predicate Separate<A>(rk: Rank, path: Path<A>)
    requires path.Step? && path.up.Step?
  {
    var p, g := path.id, path.up;
    var x, y := Or(path.sib.Root(), p), Or(g.up.Parent(NULL), p);
    && OutsideAll(rk, rk.Lo(path), rk.Hi(path), p, g.id, x, y)
    && OutsideAll(rk, rk.FarLo(path), rk.FarHi(path), p, g.id, y, if path.sib.Node? then p else x)
    && OutsideAll(rk, rk.FarLo(g), rk.FarHi(g), p, g.id, x, y)
    && rk.Within(p, rk.Lo(g.up), rk.Hi(g.up)) && rk.Within(g.id, rk.Lo(g.up), rk.Hi(g.up))
    && rk.Within(x, rk.Lo(g.up), rk.Hi(g.up))
  }

  ghost predicate OutsideAll(rk: Rank, l: int, h: int, a: Ptr, b: Ptr, c: Ptr, e: Ptr) {
    !rk.Within(a, l, h) && !rk.Within(b, l, h) && !rk.Within(c, l, h) && !rk.Within(e, l, h)
  }

  lemma {:induction false} AreSeparate<A>(rk: Rank, path: Path<A>)
    requires path.Step? && path.up.Step? && rk.PathSorted(path)
    ensures Separate(rk, path)
  {
    var p, g := path.id, path.up;
    var x, y := Or(path.sib.Root(), p), Or(g.up.Parent(NULL), p);
    rk.Nest(path);
    rk.Nest(g);
    assert y == p || !rk.Within(y, rk.Lo(g.up), rk.Hi(g.up)) by {
      if g.up.Step? { rk.Nest(g.up); }
    }
    assert x == p || (path.sib.Node? && rk.Within(x, rk.FarLo(path), rk.FarHi(path)));
    hide Rank.Lo, Rank.Hi, Rank.FarLo, Rank.FarHi, Rank.PathSorted, Rank.Sorted, Or;
    var a, b := rk.Lo(path), rk.Hi(path);
    var c, e := rk.FarLo(path), rk.FarHi(path);
    assert OutsideAll(rk, a, b, p, g.id, x, y);
    assert OutsideAll(rk, c, e, p, g.id, y, if path.sib.Node? then p else x);
    assert OutsideAll(rk, rk.FarLo(g), rk.FarHi(g), p, g.id, x, y);
  }

  lemma {:induction false} RisePlaced<A(!new)>(sm: Summary<A>, rk: Rank, m: Mem<A>, m': Mem<A>, path: Path<A>,
                                               t: Tree<A>, gb: bool, cb: bool)
    requires path.Step? && path.up.Step? && path.side == path.up.side && t.Node? && Placed(m, path, t, NULL)
    requires rk.PathSorted(path) && rk.Sorted(t, rk.Lo(path), rk.Hi(path))
    requires RiseRecords(sm, m, m', path, t, gb, cb)
    ensures Placed(m', path.up.up, RotateUp(sm, path, t, gb, cb), NULL)
  {
    var g, d, p, c := path.up, path.side, path.id, path.sib.Root();
    assert PathLinked(m, g, p, NULL);
    AreSeparate(rk, path);
    var x, y := Or(c, p), Or(g.up.Parent(NULL), p);
    hide Rank.Lo, Rank.Hi, Rank.FarLo, Rank.FarHi, Rank.Within, Only, Record, RbNode.WithChild;
    rk.Keep(m, m', t, p, rk.Lo(path), rk.Hi(path), p, g.id, x, y);
    rk.KeepBelow(m, m', path.sib, p, g.id, cb, rk.FarLo(path), rk.FarHi(path), p, g.id, x, y);
    rk.Keep(m, m', g.sib, g.id, rk.FarLo(g), rk.FarHi(g), p, g.id, x, y);
    rk.KeepRehole(m, m', g.up, g.id, p, p, g.id, x);
    RiseJoined(sm, m', path, t, gb, cb);
  }

  lemma {:induction false} RiseJoined<A(!new)>(sm: Summary<A>, m: Mem<A>, path: Path<A>, t: Tree<A>, gb: bool, cb: bool)
    requires path.Step? && path.up.Step? && path.side == path.up.side && path.id != NULL && path.up.id != NULL
    requires var g := path.up;
             && Linked(m, t, path.id) && Linked(m, path.sib.Tint(cb), g.id) && Linked(m, g.sib, g.id)
             && Holds(m, path.id, Record(g.up.Parent(NULL), g.black, g.aug, path.side, t.Root(), g.id))
             && Holds(m, g.id, Record(path.id, gb, sm.CombineOn(path.side, sm.Aug(path.sib), g.id, sm.Aug(g.sib)),
                                      path.side, path.sib.Root(), g.sib.Root()))
    ensures Linked(m, RotateUp(sm, path, t, gb, cb), path.up.up.Parent(NULL))
  {
    var g, d := path.up, path.side;
    var down := sm.Fresh(d, g.id, gb, path.sib.Tint(cb), g.sib);
    JoinLinked(m, d, g.id, gb, sm.Aug(down), path.sib.Tint(cb), g.sib, path.id);
    JoinLinked(m, d, path.id, g.black, g.aug, t, down, g.up.Parent(NULL));
  }

  // A double rotation lifts n twice: above its parent p, and then above p's old parent g.  The first lift
  // leaves n's own parent link, and on insertion g's link too, for the second to write.  With those two
  // written (Patched), memory represents the path and subtree that the second lift starts from.

  ghost function Patched<A>(m: Mem<A>, d: Side, n: Ptr, g: Ptr): Mem<A>
    requires n in m && g in m
  {
    SetChild(SetParent(m, n, g), g, d, n)
  }

  /** n rises above p on side d of g; p gets colour pb and n's child c. */
  ghost predicate SwapEffect<A(!new)>(sm: Summary<A>, m: Mem<A>, m': Mem<A>, d: Side, n: Ptr, p: Ptr, c: Ptr, g: Ptr,
                                      pb: bool)
    requires SwapPre(m, d, n, p, c)
  {
    && Only(m, m', p, n, Or(c, p), g)
    && g in m && (Holds(m', g, m[g]) || Holds(m', g, m[g].WithChild(d, n)))
    && Holds(m', n, m[n].WithChild(d, p).(aug := m[p].aug))
    && Holds(m', p, m[p].WithChild(d.Other(), c).(parent := n, black := pb,
           aug := sm.CombineOn(d, AugAt(sm, m, m[p].Child(d)), p, AugAt(sm, m, c))))
    && (c != NULL ==> Holds(m', c, m[c].(parent := p, black := true)))
  }

  ghost predicate SwapRecords<A(!new)>(sm: Summary<A>, m: Mem<A>, m': Mem<A>, path: Path<A>, t: Tree<A>, pb: bool)
    requires path.Step? && path.up.Step? && t.Node?
  {
    var g, d, b := path.up.id, path.up.side, t.Child(path.up.side).Root();
    && Only(m, m', t.id, path.id, Or(b, t.id), Or(g, t.id))
    && Holds(m', t.id, Record(g, t.black, path.aug, d, path.id, t.Child(d.Other()).Root()))
    && Holds(m', path.id, Record(t.id, pb, sm.CombineOn(d, sm.Aug(path.sib), path.id, sm.Aug(t.Child(d))),
                                 d, path.sib.Root(), b))
    && (b != NULL ==> b in m && Holds(m', b, m[b].(parent := path.id, black := true)))
    && g in m && Holds(m', g, m[g].WithChild(d, t.id))
  }

  lemma {:induction false} SwapPlaced<A(!new)>(sm: Summary<A>, rk: Rank, m: Mem<A>, m': Mem<A>, path: Path<A>,
                                               t: Tree<A>, pb: bool)
    requires path.Step? && path.up.Step? && path.side != path.up.side && t.Node? && Placed(m, path, t, NULL)
    requires rk.PathSorted(path) && rk.Sorted(t, rk.Lo(path), rk.Hi(path))
    requires SwapRecords(sm, m, m', path, t, pb)
    ensures Placed(m', RaisedPath(path, t), LoweredTree(sm, path, t, pb), NULL)
  {
    var g, d, p, n := path.up, path.up.side, path.id, t.id;
    var b, c := t.Child(d), t.Child(d.Other());
    var inside := Step(d.Other(), n, t.black, t.aug, b, path);
    assert rk.PathSorted(inside) && rk.Sorted(c, rk.Lo(inside), rk.Hi(inside));
    AreSeparate(rk, inside);
    assert PathLinked(m, g, p, NULL) && Linked(m, b, n) && Linked(m, c, n) && rk.PathSorted(g);
    var x, y := Or(b.Root(), n), Or(g.id, n);
    hide Rank.Lo, Rank.Hi, Rank.FarLo, Rank.FarHi, Rank.Within, Only, Record, RbNode.WithChild;
    rk.Keep(m, m', c, n, rk.Lo(inside), rk.Hi(inside), n, p, x, y);
    rk.KeepBelow(m, m', b, n, p, true, rk.FarLo(inside), rk.FarHi(inside), n, p, x, y);
    rk.Keep(m, m', path.sib, p, rk.FarLo(path), rk.FarHi(path), n, p, x, y);
    rk.KeepRehole(m, m', g, p, n, n, p, x);
    JoinLinked(m', d, p, pb, LoweredTree(sm, path, t, pb).aug, path.sib, b.Blacken(), n);
  }

  /** The nodes that the first lift relinks, as they stand before it. */
  lemma {:induction false} SwapReads<A(!new)>(sm: Summary<A>, rk: Rank, m: Mem<A>, path: Path<A>, t: Tree<A>)
    requires path.Step? && path.up.Step? && path.side != path.up.side && t.Node? && Placed(m, path, t, NULL)
    requires rk.PathSorted(path) && rk.Sorted(t, rk.Lo(path), rk.Hi(path))
    ensures var g, d, n, p := path.up.id, path.up.side, t.id, path.id;
            var b := t.Child(d);
            && n != g && p != g && n != p && b.Root() != n && b.Root() != p && b.Root() != g
            && n != NULL && p != NULL && g != NULL
            && g in m && Holds(m, p, Record(g, path.black, path.aug, d, path.sib.Root(), n))
            && Holds(m, n, Record(p, t.black, t.aug, d, b.Root(), t.Child(d.Other()).Root()))
            && Ok(m, path.sib.Root()) && AugAt(sm, m, path.sib.Root()) == sm.Aug(path.sib)
            && Ok(m, b.Root()) && AugAt(sm, m, b.Root()) == sm.Aug(b)
  {
    var g, d, n := path.up, path.up.side, t.id;
    var b := t.Child(d);
    var inside := Step(d.Other(), n, t.black, t.aug, b, path);
    assert rk.PathSorted(inside);
    AreSeparate(rk, inside);
    assert PathLinked(m, g, path.id, NULL) && Linked(m, b, n);
    AugAtLinked(sm, m, path.sib, path.id);
    AugAtLinked(sm, m, b, n);
    hide Rank.Lo, Rank.Hi, Rank.FarLo, Rank.FarHi;
  }

  lemma {:induction false} SwapRecordsHold<A(!new)>(sm: Summary<A>, rk: Rank, m: Mem<A>, m1: Mem<A>, path: Path<A>,
                                                    t: Tree<A>, pb: bool)
    requires path.Step? && path.up.Step? && path.side != path.up.side && t.Node? && Placed(m, path, t, NULL)
    requires rk.PathSorted(path) && rk.Sorted(t, rk.Lo(path), rk.Hi(path))
    requires var d := path.up.side;
             SwapPre(m, d, t.id, path.id, t.Child(d).Root())
             && SwapEffect(sm, m, m1, d, t.id, path.id, t.Child(d).Root(), path.up.id, pb)
    ensures t.id in m1 && path.up.id in m1
    ensures SwapRecords(sm, m, Patched(m1, path.up.side, t.id, path.up.id), path, t, pb)
  {
    SwapReads(sm, rk, m, path, t);
    hide Placed, Linked, PathLinked, Rank.PathSorted, Rank.Sorted;
  }

  /** The second lift overwrites everything that the first leaves for it, so it may as well start patched. */
  lemma {:induction false} RiseAfterPatch<A(!new)>(sm: Summary<A>, m: Mem<A>, m': Mem<A>, d: Side, n: Ptr, g: Ptr,
                                                   c: Ptr, gb: bool, cb: bool)
    requires RisePre(m, d, n, g, c) && RiseEffect(sm, m, m', d, n, g, c, gb, cb)
    ensures RisePre(Patched(m, d, n, g), d, n, g, c)
    ensures RiseEffect(sm, Patched(m, d, n, g), m', d, n, g, c, gb, cb)
  {
    RisePrePatched(m, d, n, g, c);
    PatchedRecords(m, d, n, g);
    RiseEffectFrom(sm, m, Patched(m, d, n, g), m', d, n, g, c, gb, cb);
  }

  lemma {:induction false} PatchedRecords<A(!new)>(m: Mem<A>, d: Side, n: Ptr, g: Ptr)
    requires n in m && g in m && n != g
    ensures var m1 := Patched(m, d, n, g);
            && m1.Keys == m.Keys && m1[n] == m[n].(parent := g) && m1[g] == m[g].WithChild(d, n)
            && forall x :: x in m1 && x != n && x != g ==> m1[x] == m[x]
  {
  }

  /** The effect of a lift depends on the parent of n and the child of g on side d only in that they are overwritten. */
  lemma {:induction false} RiseEffectFrom<A(!new)>(sm: Summary<A>, m: Mem<A>, m1: Mem<A>, m': Mem<A>, d: Side, n: Ptr,
                                                   g: Ptr, c: Ptr, gb: bool, cb: bool)
    requires RisePre(m, d, n, g, c) && RisePre(m1, d, n, g, c) && RiseEffect(sm, m, m', d, n, g, c, gb, cb)
    requires m1.Keys == m.Keys && m1[n] == m[n].(parent := g) && m1[g] == m[g].WithChild(d, n)
    requires forall x :: x in m1 && x != n && x != g ==> m1[x] == m[x]
    ensures RiseEffect(sm, m1, m', d, n, g, c, gb, cb)
  {
    var u, gg := m[g].Child(d.Other()), m[g].parent;
    assert m1[g].Child(d.Other()) == u && m1[g].parent == gg;
    assert AugAt(sm, m1, c) == AugAt(sm, m, c) && AugAt(sm, m1, u) == AugAt(sm, m, u);
  }

  lemma {:induction false} RisePrePatched<A(!new)>(m: Mem<A>, d: Side, n: Ptr, g: Ptr, c: Ptr)
    requires RisePre(m, d, n, g, c)
    ensures RisePre(Patched(m, d, n, g), d, n, g, c)
  {
  }

  lemma {:induction false} PrePatch<A(!new)>(m: Mem<A>, d: Side, n: Ptr, g: Ptr, c: Ptr)
    requires n in m && g in m && n != g && RisePre(Patched(m, d, n, g), d, n, g, c)
    ensures RisePre(m, d, n, g, c)
  {
  }

  lemma {:induction false} RisePreHolds<A>(rk: Rank, m: Mem<A>, path: Path<A>, t: Tree<A>)
    requires path.Step? && path.up.Step? && path.side == path.up.side && t.Node? && Placed(m, path, t, NULL)
    requires rk.PathSorted(path)
    ensures RisePre(m, path.side, path.id, path.up.id, path.sib.Root())
  {
    hide Rank.Lo, Rank.Hi, Rank.FarLo, Rank.FarHi;
    var g := path.up;
    assert PathLinked(m, g, path.id, NULL);
    AreSeparate(rk, path);
    rk.Nest(path);
    rk.Nest(g);
    if g.up.Step? {
      assert PathLinked(m, g.up, g.id, NULL);
      rk.Nest(g.up);
    }
  }

  lemma {:induction false} SwapPreHolds<A>(rk: Rank, m: Mem<A>, path: Path<A>, t: Tree<A>)
    requires path.Step? && path.up.Step? && path.side != path.up.side && t.Node? && Placed(m, path, t, NULL)
    requires rk.PathSorted(path) && rk.Sorted(t, rk.Lo(path), rk.Hi(path))
    ensures SwapPre(m, path.up.side, t.id, path.id, t.Child(path.up.side).Root())
  {
    var d := path.up.side;
    var inside := Step(d.Other(), t.id, t.black, t.aug, t.Child(d), path);
    assert rk.PathSorted(inside) && Linked(m, t.Child(d), t.id);
    assert m[path.id].Child(d) == path.sib.Root();
    rk.Nest(inside);
    rk.Nest(path);
    hide Rank.Lo, Rank.Hi, Rank.FarLo, Rank.FarHi;
  }

  /** Between the two lifts: all that the second needs, from a memory that is the tree but for two links. */
  ghost predicate Lifted<A(!new)>(sm: Summary<A>, rk: Rank, m: Mem<A>, path: Path<A>, t: Tree<A>, pb: bool)
    requires path.Step? && path.up.Step? && t.Node?
  {
    var g, c, raised, low := path.up.id, t.Child(path.side).Root(), RaisedPath(path, t), LoweredTree(sm, path, t, pb);
    && g in m && t.id in m
    && m[g].parent == path.up.up.Parent(NULL)
    && m[t.id].Child(path.side) == c && RisePre(m, path.up.side, t.id, g, c)
    && Placed(Patched(m, path.up.side, t.id, g), raised, low, NULL)
    && rk.PathSorted(raised) && rk.Sorted(low, rk.Lo(raised), rk.Hi(raised))
  }

  lemma {:induction false} AfterSwap<A(!new)>(sm: Summary<A>, rk: Rank, m: Mem<A>, m1: Mem<A>, path: Path<A>,
                                              t: Tree<A>, pb: bool)
    requires path.Step? && path.up.Step? && path.side != path.up.side && t.Node? && Placed(m, path, t, NULL)
    requires Unique(Inorder(Plug(path, t))) && rk == RankOf(Inorder(Plug(path, t)))
    requires rk.PathSorted(path) && rk.Sorted(t, rk.Lo(path), rk.Hi(path))
    requires var d := path.up.side;
             SwapPre(m, d, t.id, path.id, t.Child(d).Root())
             && SwapEffect(sm, m, m1, d, t.id, path.id, t.Child(d).Root(), path.up.id, pb)
    ensures m1.Keys == m.Keys && Lifted(sm, rk, m1, path, t, pb)
  {
    var d, g := path.up.side, path.up.id;
    var path', t' := RaisedPath(path, t), LoweredTree(sm, path, t, pb);
    SwapRecordsHold(sm, rk, m, m1, path, t, pb);
    var m' := Patched(m1, d, t.id, g);
    SwapPlaced(sm, rk, m, m', path, t, pb);
    assert PathLinked(m', path.up, t.id, NULL);
    SwapInorder(sm, path, t, pb);
    RankOfSorted(path', t');
    RisePreHolds(rk, m', path', t');
    assert t.id != g;
    PrePatch(m1, d, t.id, g, path'.sib.Root());
  }

  lemma {:induction false} AfterSwapRise<A(!new)>(sm: Summary<A>, rk: Rank, m1: Mem<A>, m2: Mem<A>, path: Path<A>,
                                                  t: Tree<A>, pb: bool, gb: bool, cb: bool)
    requires path.Step? && path.up.Step? && path.side != path.up.side && t.Node?
    requires Lifted(sm, rk, m1, path, t, pb)
    requires RiseEffect(sm, m1, m2, path.up.side, t.id, path.up.id, t.Child(path.side).Root(), gb, cb)
    ensures m2.Keys == m1.Keys
    ensures Placed(m2, path.up.up, RotateUp(sm, RaisedPath(path, t), LoweredTree(sm, path, t, pb), gb, cb), NULL)
  {
    var path', t' := RaisedPath(path, t), LoweredTree(sm, path, t, pb);
    var m' := Patched(m1, path.up.side, t.id, path.up.id);
    RiseAfterPatch(sm, m1, m2, path.up.side, t.id, path.up.id, path'.sib.Root(), gb, cb);
    AfterRise(sm, rk, m', m2, path', t', gb, cb);
  }

  lemma {:induction false} AfterRise<A(!new)>(sm: Summary<A>, rk: Rank, m: Mem<A>, m': Mem<A>, path: Path<A>,
                                              t: Tree<A>, gb: bool, cb: bool)
    requires path.Step? && path.up.Step? && path.side == path.up.side && t.Node? && Placed(m, path, t, NULL)
    requires rk.PathSorted(path) && rk.Sorted(t, rk.Lo(path), rk.Hi(path))
    requires RisePre(m, path.side, path.id, path.up.id, path.sib.Root())
    requires RiseEffect(sm, m, m', path.side, path.id, path.up.id, path.sib.Root(), gb, cb)
    ensures m'.Keys == m.Keys
    ensures Placed(m', path.up.up, RotateUp(sm, path, t, gb, cb), NULL)
  {
    RiseRecordsHold(sm, rk, m, m', path, t, gb, cb);
    RisePlaced(sm, rk, m, m', path, t, gb, cb);
  }

  /** What the rotations read, and where the root of the whole tree can be. */
  lemma {:induction false} RotateReads<A>(m: Mem<A>, path: Path<A>, t: Tree<A>)
    requires path.Step? && path.up.Step? && t.Node? && Placed(m, path, t, NULL)
    ensures path.id in m && m[path.id].Child(path.side) == t.id
            && m[path.id].Child(path.side.Other()) == path.sib.Root()
    ensures t.id in m && forall d :: m[t.id].Child(d) == t.Child(d).Root()
    ensures path.up.id in m && m[path.up.id].parent == path.up.up.Parent(NULL)
    ensures m[path.up.id].Child(path.up.side.Other()) == path.up.sib.Root()
    ensures path.up.up.Parent(NULL) == NULL <==> path.up.up.Top?
    ensures forall h: Ptr :: RootOf(path.up.up, h) == if path.up.up.Top? then h else RootOf(path, t.id)
  {
    assert PathLinked(m, path.up, path.id, NULL) && PathLinked(m, path.up.up, path.up.id, NULL);
    RootOfStep(path, t.id, t.id);
    RootOfStep(path.up, path.id, path.id);
    forall h: Ptr ensures RootOf(path.up.up, h) == if path.up.up.Top? then h else RootOf(path, t.id) {
      if path.up.up.Step? { RootOfStep(path.up.up, h, path.up.id); }
    }
  }

  /** The root of the subtree at the end of a path is none of the nodes that a rotation relinks. */
  lemma {:induction false} TipApart<A>(rk: Rank, path: Path<A>, t: Tree<A>)
    requires path.Step? && path.up.Step? && t.Node?
    requires rk.PathSorted(path) && rk.Sorted(t, rk.Lo(path), rk.Hi(path))
    ensures t.id != path.id && t.id != path.up.id && (path.sib.Node? ==> t.id != path.sib.id)
    ensures path.up.sib.Node? ==> t.id != path.up.sib.id
    ensures path.up.up.Step? ==> t.id != path.up.up.id
  {
    rk.Nest(path);
    rk.Nest(path.up);
    if path.up.up.Step? { rk.Nest(path.up.up); }
    hide Rank.Lo, Rank.Hi, Rank.FarLo, Rank.FarHi;
  }

  /** Colouring the root of the subtree at the end of a path. */
  lemma {:induction false} TintPlaced<A>(rk: Rank, m: Mem<A>, path: Path<A>, t: Tree<A>, black: bool)
    requires Placed(m, path, t, NULL) && t.Node?
    requires rk.PathSorted(path) && rk.Sorted(t, rk.Lo(path), rk.Hi(path))
    ensures t.id in m && Placed(SetParentColor(m, t.id, path.Parent(NULL), black), path, t.Tint(black), NULL)
  {
    var m' := SetParentColor(m, t.id, path.Parent(NULL), black);
    rk.PathFrame(m, m', path, t.id, NULL);
    rk.Reparent(m, m', t, path.Parent(NULL), path.Parent(NULL), black, rk.Lo(path), rk.Hi(path));
  }
}
