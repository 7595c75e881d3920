/**
 Memory outside the tree is left alone: the nodes that a step of a fix-up, or of unlinking, writes to are
 nodes of the tree, so that records of all other nodes keep their contents.
 */
module RbFrame {
  import opened RbShape
  import opened RbEraseSpec
  import opened RbUnlinkSpec
  import opened RbHeap
  import opened RbRotate
  import opened RbUnlinkHeap
  import opened RbOrder

  /** Records other than those of s are as they were. */
  ghost predicate Kept<A>(m: Mem<A>, m': Mem<A>, s: seq<Ptr>) {
    forall x :: x in m && x !in s ==> x in m' && m'[x] == m[x]
  }

  ghost predicate Has(s: seq<Ptr>, p: Ptr) { p == NULL || p in s }

  lemma {:induction false} KeptSame<A>(m: Mem<A>, s: seq<Ptr>)
    ensures Kept(m, m, s)
  {
  }

  lemma {:induction false} KeptThen<A>(m: Mem<A>, m1: Mem<A>, m2: Mem<A>, s: seq<Ptr>)
    requires Kept(m, m1, s) && Kept(m1, m2, s)
    ensures Kept(m, m2, s)
  {
  }

  lemma {:induction false} KeptMore<A>(m: Mem<A>, m': Mem<A>, s: seq<Ptr>, s': seq<Ptr>)
    requires Kept(m, m', s) && forall x :: x in s ==> x in s'
    ensures Kept(m, m', s')
  {
  }

  lemma {:induction false} KeptOnly<A>(m: Mem<A>, m': Mem<A>, a: Ptr, b: Ptr, c: Ptr, d: Ptr, s: seq<Ptr>)
    requires Only(m, m', a, b, c, d) && a in s && b in s && c in s && d in s
    ensures Kept(m, m', s)
  {
  }

  // ---------- The nodes around a cut ----------

  lemma {:induction false} SubtreeIn<A>(path: Path<A>, t: Tree<A>)
    ensures forall x :: x in Inorder(t) ==> x in Inorder(Plug(path, t))
  {
    InorderSplit(path, t);
  }

  lemma {:induction false} RootsIn<A>(t: Tree<A>)
    ensures Has(Inorder(t), t.Root())
    ensures t.Node? ==> forall d ::
              Has(Inorder(t), t.Child(d).Root()) && forall x :: x in Inorder(t.Child(d)) ==> x in Inorder(t)
  {
    if t.Node? {
      forall d ensures Has(Inorder(t), t.Child(d).Root()) && forall x :: x in Inorder(t.Child(d)) ==> x in Inorder(t) {
        if t.Child(d).Node? { assert t.Child(d).id in Inorder(t.Child(d)); }
      }
    }
  }

  lemma {:induction false} WholeIn<A>(path: Path<A>, t: Tree<A>)
    requires path.Step?
    ensures var w := Inorder(Whole(path, t));
            path.id in w && (forall x :: x in Inorder(t) ==> x in w) && forall x :: x in Inorder(path.sib) ==> x in w
  {
  }

  /** All the nodes that one step of a fix-up writes to. */
  ghost predicate Around<A>(s: seq<Ptr>, path: Path<A>, t: Tree<A>) {
    && (forall x :: x in Inorder(t) ==> x in s)
    && (path.Step? ==> path.id in s && (forall x :: x in Inorder(path.sib) ==> x in s) && Has(s, path.up.Parent(NULL)))
    && (path.Step? && path.up.Step? ==>
          path.up.id in s && (forall x :: x in Inorder(path.up.sib) ==> x in s) && Has(s, path.up.up.Parent(NULL)))
  }

  lemma {:induction false} AroundCut<A>(path: Path<A>, t: Tree<A>)
    ensures Around(Inorder(Plug(path, t)), path, t)
  {
    hide Inorder;
    SubtreeIn(path, t);
    if path.Step? {
      var w := Whole(path, t);
      WholeIn(path, t);
      SubtreeIn(path.up, w);
      if path.up.Step? {
        var w2 := Whole(path.up, w);
        WholeIn(path.up, w);
        SubtreeIn(path.up.up, w2);
        if path.up.up.Step? {
          WholeIn(path.up.up, w2);
          SubtreeIn(path.up.up.up, Whole(path.up.up, w2));
        }
      }
    }
  }

  lemma {:induction false} SpineIn<A>(path: Path<A>, t: Tree<A>, x: Ptr)
    requires OnSpine(path, x)
    ensures x in Inorder(Plug(path, t))
    decreases path
  {
    hide Inorder;
    AroundCut(path, t);
    if path.id != x { SpineIn(path.up, Whole(path, t), x); }
  }

  // ---------- What the rotations write ----------

  lemma {:induction false} KeptRise<A(!new)>(sm: Summary<A>, m: Mem<A>, m': Mem<A>, d: Side, p: Ptr, g: Ptr, c: Ptr,
                                             gb: bool, cb: bool, s: seq<Ptr>)
    requires RisePre(m, d, p, g, c) && RiseEffect(sm, m, m', d, p, g, c, gb, cb)
    requires p in s && g in s && Has(s, c) && Has(s, m[g].parent)
    ensures Kept(m, m', s)
  {
    KeptOnly(m, m', p, g, Or(c, p), Or(m[g].parent, p), s);
  }

  lemma {:induction false} KeptSwap<A(!new)>(sm: Summary<A>, m: Mem<A>, m': Mem<A>, d: Side, n: Ptr, p: Ptr, c: Ptr,
                                             g: Ptr, pb: bool, s: seq<Ptr>)
    requires SwapPre(m, d, n, p, c) && SwapEffect(sm, m, m', d, n, p, c, g, pb)
    requires n in s && p in s && g in s && Has(s, c)
    ensures Kept(m, m', s) && g in m && g in m' && m'[g].parent == m[g].parent
  {
    KeptOnly(m, m', p, n, Or(c, p), g, s);
  }

  /** A write to a node of s can be added or taken away. */
  lemma {:induction false} KeptPatched<A>(m: Mem<A>, m': Mem<A>, x: Ptr, p: Ptr, black: bool, s: seq<Ptr>)
    requires x in m' && x in s
    ensures Kept(m, SetParentColor(m', x, p, black), s) <==> Kept(m, m', s)
    ensures x in m ==> (Kept(SetParentColor(m, x, p, black), m', s) <==> Kept(m, m', s))
  {
    if x in m {
      var m1 := SetParentColor(m, x, p, black);
      forall y | y != x ensures y in m1 <==> y in m {}
      if Kept(m1, m', s) {
        forall y | y in m && y !in s ensures y in m' && m'[y] == m[y] { assert y in m1; }
      }
    }
  }

  /** The nodes of a subtree's sibling, seen from the nephews. */
  lemma {:induction false} NephewWrites<A>(path: Path<A>, t: Tree<A>)
    requires path.Step? && path.sib.Node?
    ensures var s := Inorder(Plug(path, t));
            && path.id in s && path.sib.id in s && Has(s, path.up.Parent(NULL))
            && forall d :: Has(s, path.sib.Child(d).Root())
                           && (path.sib.Child(d).Node? ==> forall e :: Has(s, path.sib.Child(d).Child(e).Root()))
  {
    AroundCut(path, t);
    RootsIn(path.sib);
    RootsIn(path.sib.left);
    RootsIn(path.sib.right);
    var s := Inorder(Plug(path, t));
    forall d ensures Has(s, path.sib.Child(d).Root())
                     && (path.sib.Child(d).Node? ==> forall e :: Has(s, path.sib.Child(d).Child(e).Root()))
    {
      if d.Left? { RootsIn(path.sib.left); } else { RootsIn(path.sib.right); }
    }
  }

  lemma {:induction false} NearWrites<A>(path: Path<A>, t: Tree<A>)
    requires path.Step? && path.sib.Node? && path.sib.Child(path.side).Node?
    ensures var s, n := Inorder(Plug(path, t)), path.sib.Child(path.side);
            && path.id in s && path.sib.id in s && n.id in s && Has(s, path.up.Parent(NULL))
            && Has(s, n.Child(path.side).Root()) && Has(s, n.Child(path.side.Other()).Root())
  {
    NephewWrites(path, t);
    AroundCut(path, t);
    RootsIn(path.sib);
    var n := path.sib.Child(path.side);
    assert n.id in Inorder(n);
  }

  /** What is erased and then fixed up is written to within the old tree. */
  lemma {:induction false} KeptErased<A>(m: Mem<A>, m1: Mem<A>, m2: Mem<A>, all: seq<Ptr>, x: Ptr)
    requires Kept(m, m1, all) && Kept(m1, m2, Without(all, x))
    ensures Kept(m, m2, all)
  {
    WithoutIn(all, x);
  }

  lemma {:induction false} KeptTwo<A>(m: Mem<A>, m': Mem<A>, p: Ptr, q: Ptr, s: seq<Ptr>)
    requires m'.Keys == m.Keys && Has(s, p) && Has(s, q)
    requires forall x :: x in m && (p == NULL || x != p) && (q == NULL || x != q) ==> m'[x] == m[x]
    ensures Kept(m, m', s)
  {
  }

  // ---------- What unlinking writes ----------

  /** The successor of nd and what hangs below it are nodes of the tree. */
  lemma {:induction false} SuccessorIn<A>(path: Path<A>, nd: Tree<A>)
    requires nd.Node? && nd.right.Node? && nd.left.Node?
    ensures var (inner, s) := Leftmost(Top, nd.right);
            var all := Inorder(Plug(path, nd));
            s.id in all && Has(all, s.right.Root()) && nd.left.id in all && nd.id in all && Has(all, path.Parent(NULL))
  {
    var (inner, s) := Leftmost(Top, nd.right);
    SubtreeIn(inner, s);
    RootsIn(nd);
    RootsIn(s);
    AroundCut(path, nd);
    assert s.right == s.Child(Right) && nd.left == nd.Child(Left) && nd.right == nd.Child(Right);
    hide Inorder;
    assert forall x :: x in Inorder(s) ==> x in Inorder(Plug(path, nd));
  }

  /** What the first half writes to lies in the right subtree. */
  lemma {:induction false} KeptTaken<A>(rk: Rank, m: Mem<A>, m1: Mem<A>, path: Path<A>, nd: Tree<A>, inner: Path<A>,
                                        s: Ptr, sb: bool, c: Tree<A>, all: seq<Ptr>)
    requires nd.Node? && rk == RankOf(all) && Taken(rk, m, m1, path, nd, inner, s, sb, c) && nd.id in all
    ensures Kept(m, m1, all)
  {
    hide PathLinked, Linked, Rank.PathSorted, Rank.Sorted, Rank.Lo, Rank.Hi;
    forall x | x in m && x !in all ensures x in m1 && m1[x] == m[x] {
      assert rk.of(x) == -1;
    }
  }

  lemma {:induction false} KeptHandedOver<A>(m1: Mem<A>, m2: Mem<A>, path: Path<A>, nd: Tree<A>, inner: Path<A>,
                                             s: Ptr, c: Tree<A>, all: seq<Ptr>)
    requires nd.Node? && nd.left.Node? && HandedOver(m1, m2, path, nd, inner, s, c)
    requires s in all && nd.left.id in all && Has(all, c.Root()) && Has(all, path.Parent(NULL))
    ensures Kept(m1, m2, all)
  {
    KeptOnly(m1, m2, s, nd.left.id, Or(c.Root(), s), Or(path.Parent(NULL), s), all);
  }
}
