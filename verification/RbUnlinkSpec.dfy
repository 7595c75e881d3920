/** The three unlink cases, and the whole of erase. */
module RbUnlinkSpec {
  import opened RbShape
  import opened RbEraseSpec

  /** The tree after unlinking is Plug(path, t); if rebalance, t is one black node short. */
  datatype Unlinked<A> = Unlinked(path: Path<A>, t: Tree<A>, rebalance: bool)

  /** The augmented values on a path recomputed upwards, stopping at the first one that does not change. */
  ghost function Propagate<A(!new)>(sm: Summary<A>, path: Path<A>, a: A): Path<A>
    decreases path
  {
    match path
    case Top => Top
    case Step(d, id, _, v, sib, up) =>
      var w := sm.CombineOn(d, a, id, sm.Aug(sib));
      if v == w then path else path.(aug := w, up := Propagate(sm, up, w))
  }

  /** Everything on the path is consistent, except that its innermost value may be stale. */
  ghost predicate StaleFirst<A(!new)>(sm: Summary<A>, path: Path<A>) {
    path.Step? ==> sm.AugOk(path.sib) && sm.PathAugOk(path.up, path.aug)
  }

  /** Stopping early is sound: above an unchanged value nothing can be stale. */
  lemma {:induction false} PropagateAugOk<A(!new)>(sm: Summary<A>, path: Path<A>, a: A)
    requires StaleFirst(sm, path)
    ensures sm.PathAugOk(Propagate(sm, path, a), a)
    decreases path
  {
    if path.Step? {
      var w := sm.CombineOn(path.side, a, path.id, sm.Aug(path.sib));
      PropagateAugOk(sm, path.up, w);
    }
  }

  /** Equal colours and side trees all the way up; names and augmented values may differ. */
  ghost predicate SameShape<A>(p: Path<A>, q: Path<A>) {
    if p.Top? then q.Top?
    else q.Step? && p.side == q.side && p.black == q.black && p.sib == q.sib && SameShape(p.up, q.up)
  }

  /** Propagation changes nothing but augmented values. */
  lemma {:induction false} PropagateKeeps<A(!new)>(sm: Summary<A>, path: Path<A>, a: A, t: Tree<A>, t': Tree<A>)
    requires Inorder(t) == Inorder(t')
    ensures Inorder(Plug(Propagate(sm, path, a), t)) == Inorder(Plug(path, t'))
    ensures SameShape(path, Propagate(sm, path, a))
    decreases path
  {
    match path
    case Top =>
    case Step(d, id, black, v, sib, up) =>
      var w := sm.CombineOn(d, a, id, sm.Aug(sib));
      if v == w {
        SameShapeRefl(path);
        InorderPlug(path, t, t');
      } else {
        PropagateKeeps(sm, up, w, Join(d, id, black, w, t, sib), Join(d, id, black, v, t', sib));
      }
  }

  /** From the subtree t at the end of path, down the left links to the node that has none. */
  ghost function Leftmost<A>(path: Path<A>, t: Tree<A>): (r: (Path<A>, Tree<A>))
    requires t.Node?
    ensures r.1.Node? && r.1.left.Nil?
    ensures Plug(r.0, r.1) == Plug(path, t)
    decreases t
  {
    if t.left.Nil? then (path, t) else Leftmost(Step(Left, t.id, t.black, t.aug, t.right, path), t.left)
  }

  /** A path that only ever leaves left links. */
  ghost predicate LeftSpine<A>(path: Path<A>) {
    path.Step? ==> path.side.Left? && LeftSpine(path.up)
  }

  lemma {:induction false} LeftmostSpine<A>(path: Path<A>, t: Tree<A>)
    requires t.Node? && LeftSpine(path)
    ensures LeftSpine(Leftmost(path, t).0)
    decreases t
  {
    if t.left.Node? { LeftmostSpine(Step(Left, t.id, t.black, t.aug, t.right, path), t.left); }
  }

  /** What stands at the end of a left spine is first in order. */
  lemma {:induction false} SpineInorder<A>(path: Path<A>, t: Tree<A>, t': Tree<A>, x: Ptr)
    requires LeftSpine(path) && Inorder(t) == [x] + Inorder(t')
    ensures Inorder(Plug(path, t)) == [x] + Inorder(Plug(path, t'))
    decreases path
  {
    match path
    case Top =>
    case Step(d, id, black, aug, sib, up) =>
      assert [x] + Inorder(t') + [id] + Inorder(sib) == [x] + (Inorder(t') + [id] + Inorder(sib));
      SpineInorder(up, Join(d, id, black, aug, t, sib), Join(d, id, black, aug, t', sib), x);
  }

  /** The path below the erased node's replacement s, which takes over its place, colour and value. */
  ghost function Replaced<A>(path: Path<A>, nd: Tree<A>, s: Ptr): Path<A>
    requires nd.Node?
  {
    Step(Right, s, nd.black, nd.aug, nd.left, path)
  }

  ghost function Unlink<A(!new)>(sm: Summary<A>, path: Path<A>, nd: Tree<A>): Unlinked<A>
    requires nd.Node?
  {
    if nd.left.Nil? then
      var child := if nd.right.Nil? then Nil else nd.right.(black := nd.black);
      Unlinked(Propagate(sm, path, sm.Aug(child)), child, nd.right.Nil? && nd.black && path.Step?)
    else if nd.right.Nil? then
      var child := nd.left.(black := nd.black);
      Unlinked(Propagate(sm, path, sm.Aug(child)), child, false)
    else
      var (inner, s) := Leftmost(Top, nd.right);
      var child := s.right.Blacken();
      var inner' := Propagate(sm, inner, sm.Aug(child));
      var outer := Propagate(sm, Replaced(path, nd, s.id), sm.Aug(Plug(inner', child)));
      Unlinked(Append(inner', outer), child, s.right.Nil? && s.black)
  }

  /** Erasing node nd, which stands at the end of path. */
  ghost function Erase<A(!new)>(sm: Summary<A>, path: Path<A>, nd: Tree<A>): Tree<A>
    requires nd.Node? && Valid(Plug(path, nd))
  {
    var u := Unlink(sm, path, nd);
    UnlinkValid(sm, path, nd);
    if u.rebalance then EraseFix(sm, u.path, u.t, 0) else Plug(u.path, u.t)
  }

  // ---------- Order ----------

  lemma {:induction false} UnlinkInorder<A(!new)>(sm: Summary<A>, path: Path<A>, nd: Tree<A>)
    requires nd.Node? && Unique(Inorder(Plug(path, nd)))
    ensures var u := Unlink(sm, path, nd);
            (Inorder(Plug(u.path, u.t)) == Without(Inorder(Plug(path, nd)), nd.id))
  {
    UniquePlug(path, nd);
    var L, R := Inorder(nd.left), Inorder(nd.right);
    UniqueBeside(Left, L, nd.id, R);
    WithoutMiddle(L, nd.id, R);
    var u := Unlink(sm, path, nd);
    if nd.left.Nil? || nd.right.Nil? {
      assert Inorder(u.t) == L + R;
      PropagateKeeps(sm, path, sm.Aug(u.t), u.t, u.t);
      InorderPlugWithout(path, nd, u.t, nd.id);
    } else {
      var new' := SuccessorInorder(sm, path, nd);
      InorderPlugWithout(path, nd, new', nd.id);
    }
  }

  /** With two children, the successor stands where the node stood. */
  lemma {:induction false} SuccessorInorder<A(!new)>(sm: Summary<A>, path: Path<A>, nd: Tree<A>) returns (new': Tree<A>)
    requires nd.Node? && nd.left.Node? && nd.right.Node?
    ensures Inorder(new') == Inorder(nd.left) + Inorder(nd.right)
    ensures var u := Unlink(sm, path, nd); Inorder(Plug(u.path, u.t)) == Inorder(Plug(path, new'))
  {
    var (inner, s) := Leftmost(Top, nd.right);
    var child := s.right.Blacken();
    InorderBlacken(s.right);
    LeftmostSpine(Top, nd.right);
    SpineInorder(inner, s, child, s.id);
    var inner' := Propagate(sm, inner, sm.Aug(child));
    PropagateKeeps(sm, inner, sm.Aug(child), child, child);
    var r, place := Plug(inner', child), Replaced(path, nd, s.id);
    PropagateKeeps(sm, place, sm.Aug(r), r, r);
    PlugAppend(inner', Propagate(sm, place, sm.Aug(r)), child);
    new' := Node(s.id, nd.black, nd.aug, nd.left, r);
    assert Inorder(nd.left) + [s.id] + Inorder(r) == Inorder(nd.left) + Inorder(nd.right);
  }

  // ---------- Balance ----------

  lemma {:induction false} SameShapeFits<A>(p: Path<A>, q: Path<A>, h: nat)
    requires SameShape(p, q) && Fits(p, h)
    ensures Fits(q, h)
    decreases p
  {
    if p.Step? { SameShapeFits(p.up, q.up, if p.black then h + 1 else h); }
  }

  lemma {:induction false} SameShapeAppend<A>(p: Path<A>, q: Path<A>, p': Path<A>, q': Path<A>)
    requires SameShape(p, q) && SameShape(p', q')
    ensures SameShape(Append(p, p'), Append(q, q'))
    decreases p
  {
    if p.Step? { SameShapeAppend(p.up, q.up, p', q'); }
  }

  lemma {:induction false} SameShapeRefl<A>(p: Path<A>)
    ensures SameShape(p, p)
  {
    if p.Step? { SameShapeRefl(p.up); }
  }

  /** Splicing out x, which has at most one child c, from the end of a path in a valid tree. */
  lemma {:induction false} SpliceValid<A>(p: Path<A>, x: Tree<A>, c: Tree<A>, q: Path<A>)
    requires x.Node? && Valid(Plug(p, x)) && SameShape(p, q)
    requires (x.left.Nil? && c == x.right) || (x.right.Nil? && c == x.left)
    ensures c.Node? ==> x.black
    ensures if c.Nil? && x.black && q.Step? then Deficient(q, c, 0) else Valid(Plug(q, c.Blacken()))
  {
    var h := PlugValidInverse(p, x);
    SameShapeFits(p, q, h);
    if c.Node? {
      assert c.Red();
      BalancedBlacken(c, 0);
      PlugValid(q, c.Blacken(), h);
    } else if !x.black {
      PlugValid(q, c, h);
    }
  }

  /** Unlinking leaves a valid tree, or one whose only fault is the deficit that the fix-up removes. */
  lemma {:induction false} UnlinkValid<A(!new)>(sm: Summary<A>, path: Path<A>, nd: Tree<A>)
    requires nd.Node? && Valid(Plug(path, nd))
    ensures var u := Unlink(sm, path, nd);
            (if u.rebalance then u.t.Nil? && Deficient(u.path, u.t, 0) else Valid(Plug(u.path, u.t)))
  {
    var u := Unlink(sm, path, nd);
    if nd.left.Nil? || nd.right.Nil? {
      PropagateKeeps(sm, path, sm.Aug(u.t), u.t, u.t);
      SpliceValid(path, nd, if nd.left.Nil? then nd.right else nd.left, u.path);
    } else {
      var (inner, s) := Leftmost(Top, nd.right);
      var before := Step(Right, nd.id, nd.black, nd.aug, nd.left, path);
      PlugAppend(inner, before, s);
      assert Plug(before, nd.right) == Plug(path, nd);
      var child := s.right.Blacken();
      var inner' := Propagate(sm, inner, sm.Aug(child));
      PropagateKeeps(sm, inner, sm.Aug(child), child, child);
      var r, place := Plug(inner', child), Replaced(path, nd, s.id);
      PropagateKeeps(sm, place, sm.Aug(r), r, r);
      SameShapeRefl(path);
      SameShapeTrans(before, place, Propagate(sm, place, sm.Aug(r)));
      SameShapeAppend(inner, inner', before, Propagate(sm, place, sm.Aug(r)));
      SpliceValid(Append(inner, before), s, s.right, u.path);
    }
  }

  lemma {:induction false} SameShapeTrans<A>(p: Path<A>, q: Path<A>, r: Path<A>)
    requires SameShape(p, q) && SameShape(q, r)
    ensures SameShape(p, r)
  {
    if p.Step? { SameShapeTrans(p.up, q.up, r.up); }
  }

  // ---------- Augmented values ----------

  lemma {:induction false} UnlinkAugOk<A(!new)>(sm: Summary<A>, path: Path<A>, nd: Tree<A>)
    requires nd.Node? && sm.AugOk(Plug(path, nd))
    ensures var u := Unlink(sm, path, nd); sm.AugOk(u.t) && sm.PathAugOk(u.path, sm.Aug(u.t))
  {
    var u := Unlink(sm, path, nd);
    sm.PlugAugOk(path, nd);
    assert StaleFirst(sm, path);
    if nd.left.Nil? || nd.right.Nil? {
      PropagateAugOk(sm, path, sm.Aug(u.t));
    } else {
      var (inner, s) := Leftmost(Top, nd.right);
      sm.PlugAugOk(inner, s);
      sm.AugOkBlacken(s.right);
      var child := s.right.Blacken();
      var inner' := Propagate(sm, inner, sm.Aug(child));
      PropagateAugOk(sm, inner, sm.Aug(child));
      sm.PlugAugOk(inner', child);
      var r, place := Plug(inner', child), Replaced(path, nd, s.id);
      var outer := Propagate(sm, place, sm.Aug(r));
      PropagateAugOk(sm, place, sm.Aug(r));
      PathAugOkAppend(sm, inner', outer, child);
    }
  }

  lemma {:induction false} PathAugOkAppend<A(!new)>(sm: Summary<A>, inner: Path<A>, outer: Path<A>, t: Tree<A>)
    requires sm.PathAugOk(inner, sm.Aug(t)) && sm.PathAugOk(outer, sm.Aug(Plug(inner, t)))
    ensures sm.PathAugOk(Append(inner, outer), sm.Aug(t))
    decreases inner
  {
    match inner
    case Top =>
    case Step(d, id, black, v, sib, up) => PathAugOkAppend(sm, up, outer, Join(d, id, black, v, t, sib));
  }

  // ---------- Erase ----------

  /** Erasing a node of a valid tree leaves a valid tree with exactly that node gone. */
  lemma {:induction false} EraseCorrect<A(!new)>(sm: Summary<A>, path: Path<A>, nd: Tree<A>)
    requires nd.Node? && Valid(Plug(path, nd)) && Unique(Inorder(Plug(path, nd)))
    ensures Valid(Erase(sm, path, nd))
    ensures Inorder(Erase(sm, path, nd)) == Without(Inorder(Plug(path, nd)), nd.id)
  {
    var u := Unlink(sm, path, nd);
    UnlinkValid(sm, path, nd);
    UnlinkInorder(sm, path, nd);
    if u.rebalance {
      EraseFixValid(sm, u.path, u.t, 0);
      EraseFixInorder(sm, u.path, u.t, 0);
    }
  }

  /** ... in which every augmented value is again the summary of its subtree. */
  lemma {:induction false} EraseAugOk<A(!new)>(sm: Summary<A>, path: Path<A>, nd: Tree<A>)
    requires nd.Node? && Valid(Plug(path, nd))
    requires sm.Associative() && sm.AugOk(Plug(path, nd))
    ensures sm.AugOk(Erase(sm, path, nd))
  {
    var u := Unlink(sm, path, nd);
    UnlinkValid(sm, path, nd);
    UnlinkAugOk(sm, path, nd);
    if u.rebalance {
      EraseFixAugOk(sm, u.path, u.t, 0);
    } else {
      sm.PlugAugOk(u.path, u.t);
    }
  }
}
