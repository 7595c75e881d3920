/**
 The memory that holds the nodes, and when it represents a tree or a path.  Writing to a node that does
 not occur in a tree or a path leaves what memory represents there as it was.
 */
module RbHeap {
  import opened RbShape

  /** struct rb_node, with the packed parent-and-colour word split in two. */
  datatype RbNode<A> = RbNode(parent: Ptr, black: bool, left: Ptr, right: Ptr, aug: A) {
    function Child(d: Side): Ptr { if d.Left? then left else right }

    function WithChild(d: Side, x: Ptr): RbNode<A> { if d.Left? then this.(left := x) else this.(right := x) }
  }

  type Mem<A> = map<Ptr, RbNode<A>>

  function SetChild<A>(m: Mem<A>, x: Ptr, d: Side, c: Ptr): Mem<A>
    requires x in m
  {
    m[x := m[x].WithChild(d, c)]
  }

  function SetParent<A>(m: Mem<A>, x: Ptr, p: Ptr): Mem<A>
    requires x in m
  {
    m[x := m[x].(parent := p)]
  }

  function SetParentColor<A>(m: Mem<A>, x: Ptr, p: Ptr, black: bool): Mem<A>
    requires x in m
  {
    m[x := m[x].(parent := p, black := black)]
  }

  function SetAug<A>(m: Mem<A>, x: Ptr, a: A): Mem<A>
    requires x in m
  {
    m[x := m[x].(aug := a)]
  }

  function AugAt<A(!new)>(sm: Summary<A>, m: Mem<A>, p: Ptr): A
    requires p == NULL || p in m
  {
    if p == NULL then sm.unit else m[p].aug
  }

  /** rbcompute: the value of node x from the values of its children. */
  function Compute<A(!new)>(sm: Summary<A>, m: Mem<A>, x: Ptr): A
    requires x in m && (m[x].left == NULL || m[x].left in m) && (m[x].right == NULL || m[x].right in m)
  {
    sm.Combine(AugAt(sm, m, m[x].left), x, AugAt(sm, m, m[x].right))
  }

  ghost function Record<A>(parent: Ptr, black: bool, aug: A, d: Side, near: Ptr, far: Ptr): RbNode<A> {
    if d.Left? then RbNode(parent, black, near, far, aug) else RbNode(parent, black, far, near, aug)
  }

  /** The nodes of t are laid out in m as the tree t below parent. */
  ghost predicate Linked<A>(m: Mem<A>, t: Tree<A>, parent: Ptr) {
    match t
    case Nil => true
    case Node(id, black, aug, l, r) =>
      && id != NULL && id in m
      && m[id] == RbNode(parent, black, l.Root(), r.Root(), aug)
      && Linked(m, l, id) && Linked(m, r, id)
  }

  /** The nodes of path are laid out in m, with hole linked at its end; the outermost parent is top. */
  ghost predicate PathLinked<A>(m: Mem<A>, path: Path<A>, hole: Ptr, top: Ptr) {
    match path
    case Top => true
    case Step(d, id, black, aug, sib, up) =>
      && id != NULL && id in m
      && m[id] == Record(up.Parent(top), black, aug, d, hole, sib.Root())
      && Linked(m, sib, id) && PathLinked(m, up, id, top)
  }

  /** The root of the tree with node hole at the end of path. */
  ghost function RootOf<A>(path: Path<A>, hole: Ptr): Ptr {
    if path.Top? then hole else RootOf(path.up, path.id)
  }

  lemma {:induction false} RootOfStep<A>(path: Path<A>, h: Ptr, h': Ptr)
    requires path.Step?
    ensures RootOf(path, h) == RootOf(path.up, path.id) == RootOf(path, h')
  {
  }

  lemma {:induction false} PlugLinked<A>(m: Mem<A>, path: Path<A>, t: Tree<A>, top: Ptr)
    ensures Linked(m, Plug(path, t), top) <==> PathLinked(m, path, t.Root(), top) && Linked(m, t, path.Parent(top))
    ensures Plug(path, t).Root() == RootOf(path, t.Root())
    decreases path
  {
    match path
    case Top =>
    case Step(d, id, black, aug, sib, up) =>
      var j := Join(d, id, black, aug, t, sib);
      PlugLinked(m, up, j, top);
      assert Linked(m, j, up.Parent(top)) <==>
          id != NULL && id in m && m[id] == Record(up.Parent(top), black, aug, d, t.Root(), sib.Root())
          && Linked(m, t, id) && Linked(m, sib, id);
  }

  lemma {:induction false} AppendLinked<A>(m: Mem<A>, inner: Path<A>, outer: Path<A>, hole: Ptr, top: Ptr)
    requires PathLinked(m, inner, hole, outer.Parent(top)) && PathLinked(m, outer, RootOf(inner, hole), top)
    ensures PathLinked(m, Append(inner, outer), hole, top)
    ensures RootOf(Append(inner, outer), hole) == RootOf(outer, RootOf(inner, hole))
    decreases inner
  {
    if inner.Step? { AppendLinked(m, inner.up, outer, inner.id, top); }
  }

  /** The same nodes are allocated, and only the four named ones may differ. */
  ghost predicate Only<A>(m: Mem<A>, m': Mem<A>, a: Ptr, b: Ptr, c: Ptr, d: Ptr) {
    && (forall x :: x in m <==> x in m')
    && (forall x :: x in m && x != a && x != b && x != c && x != d ==> m'[x] == m[x])
  }

  ghost predicate Holds<A>(m: Mem<A>, x: Ptr, r: RbNode<A>) { x in m && m[x] == r }

  function Or(p: Ptr, q: Ptr): Ptr { if p == NULL then q else p }

  /** p may be dereferenced unless it is NULL. */
  ghost predicate Ok<A>(m: Mem<A>, p: Ptr) { p == NULL || p in m }

  // ---------- Which nodes a change can reach ----------

  /** Positions of the nodes along the in-order walk: intervals keep different subtrees apart. */
  datatype Rank = Rank(of: Ptr -> int, lo: int, hi: int) {
    ghost predicate Sorted<A>(t: Tree<A>, l: int, h: int) {
      t.Node? ==> l < of(t.id) < h && Sorted(t.left, l, of(t.id)) && Sorted(t.right, of(t.id), h)
    }

    /** The interval of positions open to whatever stands at the end of path. */
    ghost function Lo<A>(path: Path<A>): int {
      match path
      case Top => lo
      case Step(d, id, _, _, _, up) => if d.Left? then Lo(up) else of(id)
    }

    ghost function Hi<A>(path: Path<A>): int {
      match path
      case Top => hi
      case Step(d, id, _, _, _, up) => if d.Left? then of(id) else Hi(up)
    }

    ghost predicate PathSorted<A>(path: Path<A>) {
      match path
      case Top => true
      case Step(d, id, _, _, sib, up) =>
        && Lo(up) < of(id) < Hi(up) && PathSorted(up)
        && Sorted(sib, FarLo(path), FarHi(path))
    }

    /** The interval of the tree beside the end of path. */
    ghost function FarLo<A>(path: Path<A>): int
      requires path.Step?
    {
      if path.side.Left? then of(path.id) else Lo(path.up)
    }

    ghost function FarHi<A>(path: Path<A>): int
      requires path.Step?
    {
      if path.side.Left? then Hi(path.up) else of(path.id)
    }

    /** One step up: the two intervals below a node lie apart, around it, inside the interval above. */
    lemma {:induction false} Nest<A>(path: Path<A>)
      requires path.Step? && PathSorted(path)
      ensures PathSorted(path.up) && Sorted(path.sib, FarLo(path), FarHi(path))
      ensures Lo(path.up) < of(path.id) < Hi(path.up)
      ensures Lo(path.up) <= Lo(path) && Hi(path) <= Hi(path.up)
      ensures Lo(path.up) <= FarLo(path) && FarHi(path) <= Hi(path.up)
      ensures !(Lo(path) < of(path.id) < Hi(path)) && !(FarLo(path) < of(path.id) < FarHi(path))
      ensures Hi(path) <= FarLo(path) || FarHi(path) <= Lo(path)
    {
    }

    /** m and m' agree on every node positioned in the interval (l, h). */
    ghost predicate Agree<A>(m: Mem<A>, m': Mem<A>, l: int, h: int) {
      forall x :: x in m && l < of(x) < h ==> x in m' && m'[x] == m[x]
    }

    lemma {:induction false} LinkedFrame<A>(m: Mem<A>, m': Mem<A>, t: Tree<A>, parent: Ptr, l: int, h: int)
      requires Linked(m, t, parent) && Sorted(t, l, h) && Agree(m, m', l, h)
      ensures Linked(m', t, parent)
      decreases t
    {
      if t.Node? {
        LinkedFrame(m, m', t.left, t.id, l, of(t.id));
        LinkedFrame(m, m', t.right, t.id, of(t.id), h);
      }
    }

    /** Only the root of t changes, and only in its parent and colour. */
    lemma {:induction false} Reparent<A>(m: Mem<A>, m': Mem<A>, t: Tree<A>, parent: Ptr, parent': Ptr, black: bool,
                                         l: int, h: int)
      requires Linked(m, t, parent) && Sorted(t, l, h)
      requires forall x :: x in m && l < of(x) < h && x != t.Root() ==> x in m' && m'[x] == m[x]
      requires t.Node? ==> t.id in m' && m'[t.id] == m[t.id].(parent := parent', black := black)
      ensures Linked(m', t.Tint(black), parent')
    {
      if t.Node? {
        LinkedFrame(m, m', t.left, t.id, l, of(t.id));
        LinkedFrame(m, m', t.right, t.id, of(t.id), h);
      }
    }

    lemma {:induction false} PathFrame<A>(m: Mem<A>, m': Mem<A>, path: Path<A>, hole: Ptr, top: Ptr)
      requires PathLinked(m, path, hole, top) && PathSorted(path)
      requires forall x :: x in m && lo < of(x) < hi && !(Lo(path) < of(x) < Hi(path)) ==> x in m' && m'[x] == m[x]
      ensures PathLinked(m', path, hole, top)
      decreases path
    {
      match path
      case Top =>
      case Step(d, id, black, aug, sib, up) =>
        Bounds(up);
        LinkedFrame(m, m', sib, id, FarLo(path), FarHi(path));
        PathFrame(m, m', up, id, top);
    }

    lemma {:induction false} Bounds<A>(path: Path<A>)
      requires PathSorted(path)
      ensures lo <= Lo(path) && Hi(path) <= hi
      decreases path
    {
      if path.Step? { Bounds(path.up); }
    }

    /** Outside the interval of the hole only the innermost node changes, and only in what it links there. */
    lemma {:induction false} Rehole<A>(m: Mem<A>, m': Mem<A>, path: Path<A>, hole: Ptr, hole': Ptr, top: Ptr)
      requires PathLinked(m, path, hole, top) && PathSorted(path)
      requires forall x :: x in m && !(Lo(path) < of(x) < Hi(path)) && x != path.Parent(NULL) ==>
                 x in m' && m'[x] == m[x]
      requires path.Step? ==> path.id in m' && m'[path.id] == m[path.id].WithChild(path.side, hole')
      ensures PathLinked(m', path, hole', top)
    {
      match path
      case Top =>
      case Step(d, id, black, aug, sib, up) =>
        LinkedFrame(m, m', sib, id, FarLo(path), FarHi(path));
        PathFrame(m, m', up, id, top);
    }

    ghost predicate Within(x: Ptr, l: int, h: int) { l < of(x) < h }

    /** The frame lemmas again, for a change of at most four nodes. */
    lemma {:induction false} Keep<A>(m: Mem<A>, m': Mem<A>, t: Tree<A>, parent: Ptr, l: int, h: int, a: Ptr, b: Ptr,
                                     c: Ptr, e: Ptr)
      requires Linked(m, t, parent) && Sorted(t, l, h) && Only(m, m', a, b, c, e)
      requires !Within(a, l, h) && !Within(b, l, h) && !Within(c, l, h) && !Within(e, l, h)
      ensures Linked(m', t, parent)
    {
      LinkedFrame(m, m', t, parent, l, h);
    }

    lemma {:induction false} KeepBelow<A>(m: Mem<A>, m': Mem<A>, t: Tree<A>, parent: Ptr, parent': Ptr, black: bool,
                                          l: int, h: int, a: Ptr, b: Ptr, c: Ptr, e: Ptr)
      requires Linked(m, t, parent) && Sorted(t, l, h) && Only(m, m', a, b, c, e)
      requires !Within(a, l, h) || a == t.Root()
      requires !Within(b, l, h) || b == t.Root()
      requires !Within(c, l, h) || c == t.Root()
      requires !Within(e, l, h) || e == t.Root()
      requires t.Node? ==> t.id in m && Holds(m', t.id, m[t.id].(parent := parent', black := black))
      ensures Linked(m', t.Tint(black), parent')
    {
      Reparent(m, m', t, parent, parent', black, l, h);
    }

    lemma {:induction false} KeepPath<A>(m: Mem<A>, m': Mem<A>, path: Path<A>, hole: Ptr, top: Ptr, a: Ptr, b: Ptr,
                                         c: Ptr, e: Ptr)
      requires PathLinked(m, path, hole, top) && PathSorted(path) && Only(m, m', a, b, c, e)
      requires Within(a, Lo(path), Hi(path)) && Within(b, Lo(path), Hi(path))
      requires Within(c, Lo(path), Hi(path)) && Within(e, Lo(path), Hi(path))
      ensures PathLinked(m', path, hole, top)
    {
      PathFrame(m, m', path, hole, top);
    }

    /** Besides nodes in its hole, only the path's innermost node changes, if there is one. */
    lemma {:induction false} KeepRehole<A>(m: Mem<A>, m': Mem<A>, path: Path<A>, hole: Ptr, hole': Ptr, a: Ptr,
                                           b: Ptr, c: Ptr)
      requires PathLinked(m, path, hole, NULL) && PathSorted(path) && Only(m, m', a, b, c, Or(path.Parent(NULL), a))
      requires Within(a, Lo(path), Hi(path)) && Within(b, Lo(path), Hi(path)) && Within(c, Lo(path), Hi(path))
      requires path.Step? ==> path.id in m && Holds(m', path.id, m[path.id].WithChild(path.side, hole'))
      ensures PathLinked(m', path, hole', NULL)
    {
      Rehole(m, m', path, hole, hole', NULL);
    }

    lemma {:induction false} PlugSorted<A>(path: Path<A>, t: Tree<A>)
      ensures Sorted(Plug(path, t), lo, hi) <==> PathSorted(path) && Sorted(t, Lo(path), Hi(path))
      decreases path
    {
      match path
      case Top =>
      case Step(d, id, black, aug, sib, up) => PlugSorted(up, Join(d, id, black, aug, t, sib));
    }

    /** Positions that increase along the in-order walk sort the tree. */
    lemma {:induction false} SortedInorder<A>(t: Tree<A>, l: int, h: int)
      requires forall i :: 0 <= i < |Inorder(t)| ==> l < of(Inorder(t)[i]) < h
      requires forall i, j :: 0 <= i < j < |Inorder(t)| ==> of(Inorder(t)[i]) < of(Inorder(t)[j])
      ensures Sorted(t, l, h)
      decreases t
    {
      if t.Node? {
        var a, b, s := Inorder(t.left), Inorder(t.right), Inorder(t);
        assert s[|a|] == t.id;
        forall i | 0 <= i < |a| ensures l < of(a[i]) < of(t.id) {
          assert s[i] == a[i];
        }
        forall i, j | 0 <= i < j < |a| ensures of(a[i]) < of(a[j]) {
          assert s[i] == a[i] && s[j] == a[j];
        }
        SortedInorder(t.left, l, of(t.id));
        forall i | 0 <= i < |b| ensures of(t.id) < of(b[i]) < h {
          assert s[|a| + 1 + i] == b[i];
        }
        forall i, j | 0 <= i < j < |b| ensures of(b[i]) < of(b[j]) {
          assert s[|a| + 1 + i] == b[i] && s[|a| + 1 + j] == b[j];
        }
        SortedInorder(t.right, of(t.id), h);
      }
    }
  }

  /** path and t stand in m, joined, below the parent top. */
  ghost predicate Placed<A>(m: Mem<A>, path: Path<A>, t: Tree<A>, top: Ptr) {
    PathLinked(m, path, t.Root(), top) && Linked(m, t, path.Parent(top))
  }

  lemma {:induction false} JoinLinked<A>(m: Mem<A>, d: Side, id: Ptr, black: bool, aug: A, near: Tree<A>,
                                         far: Tree<A>, parent: Ptr)
    requires id != NULL && Holds(m, id, Record(parent, black, aug, d, near.Root(), far.Root()))
    requires Linked(m, near, id) && Linked(m, far, id)
    ensures Linked(m, Join(d, id, black, aug, near, far), parent)
  {
  }

  lemma {:induction false} AugAtLinked<A(!new)>(sm: Summary<A>, m: Mem<A>, t: Tree<A>, parent: Ptr)
    requires Linked(m, t, parent)
    ensures Ok(m, t.Root()) && AugAt(sm, m, t.Root()) == sm.Aug(t)
  {
  }

  ghost function IndexOf(s: seq<Ptr>, x: Ptr): (k: int)
    ensures x in s ==> 0 <= k < |s| && s[k] == x
    ensures k < |s|
  {
    if x in s then var i :| 0 <= i < |s| && s[i] == x; i else -1
  }

  /** The positions of the nodes in the walk s. */
  ghost function RankOf(s: seq<Ptr>): Rank {
    Rank((x: Ptr) => IndexOf(s, x), -1, |s|)
  }

  lemma {:induction false} RankOfSorted<A>(path: Path<A>, t: Tree<A>)
    requires Unique(Inorder(Plug(path, t)))
    ensures var rk := RankOf(Inorder(Plug(path, t))); rk.PathSorted(path) && rk.Sorted(t, rk.Lo(path), rk.Hi(path))
  {
    var rk := RankOf(Inorder(Plug(path, t)));
    rk.SortedInorder(Plug(path, t), rk.lo, rk.hi);
    rk.PlugSorted(path, t);
  }
}
