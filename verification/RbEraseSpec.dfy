/** The erase fix-up as a function on (path, subtree), and what it achieves. */
module RbEraseSpec {
  import opened RbShape

  // ---------- The fix-up ----------

  /** One subtree's paths have a black node too few: the state the erase loop works on. */
  ghost predicate Deficient<A>(path: Path<A>, t: Tree<A>, h: nat) {
    path.Step? && !t.Red() && Balanced(t, h) && Fits(path, h + 1)
  }

  /** Case 1, red sibling: rotate it above the parent; the new sibling is black. */
  ghost function RaiseSibling<A(!new)>(sm: Summary<A>, path: Path<A>, t: Tree<A>): Path<A>
    requires path.Step? && path.sib.Node?
  {
    var d, s := path.side, path.sib;
    var near := s.Child(d).Blacken();
    Step(d, path.id, false, sm.Aug(sm.Fresh(d, path.id, false, t, near)), near,
         Step(d, s.id, path.black, path.aug, s.Child(d.Other()), path.up))
  }

  /** Case 2, black nephews: the sibling turns red, and the parent absorbs or passes on the deficit. */
  ghost function Recolour<A>(path: Path<A>, t: Tree<A>): Tree<A>
    requires path.Step? && path.sib.Node?
  {
    Join(path.side, path.id, true, path.aug, t, path.sib.(black := false))
  }

  /** The subtree at the parent. */
  ghost function Whole<A>(path: Path<A>, t: Tree<A>): Tree<A>
    requires path.Step?
  {
    Join(path.side, path.id, path.black, path.aug, t, path.sib)
  }

  /** The same subtree seen from the far nephew, with t as the uncle. */
  ghost function FromFar<A>(path: Path<A>, t: Tree<A>): Path<A>
    requires path.Step? && path.sib.Node?
  {
    var s, o := path.sib, path.side.Other();
    Step(o, s.id, s.black, s.aug, s.Child(path.side), Step(o, path.id, path.black, path.aug, t, path.up))
  }

  /** ... and seen from the near nephew. */
  ghost function FromNear<A>(path: Path<A>, t: Tree<A>): Path<A>
    requires path.Step? && path.sib.Node?
  {
    var s, o := path.sib, path.side.Other();
    Step(path.side, s.id, s.black, s.aug, s.Child(o), Step(o, path.id, path.black, path.aug, t, path.up))
  }

  lemma {:induction false} FromNephews<A>(path: Path<A>, t: Tree<A>)
    requires path.Step? && path.sib.Node?
    ensures Above(FromFar(path, t), path.sib.Child(path.side.Other())) == Whole(path, t)
    ensures Above(FromNear(path, t), path.sib.Child(path.side)) == Whole(path, t)
  {
  }

  ghost function Colour<A>(t: Tree<A>): bool { t.Nil? || t.black }

  /** Case 4, red far nephew: it turns black, and the sibling rises above the parent, which turns black. */
  ghost function RotateFar<A(!new)>(sm: Summary<A>, path: Path<A>, t: Tree<A>): Tree<A>
    requires path.Step? && path.sib.Node?
  {
    var s := path.sib;
    RotateUp(sm, FromFar(path, t), s.Child(path.side.Other()).Blacken(), true, Colour(s.Child(path.side)))
  }

  /** Cases 3 and 4, red near nephew: it changes places with the sibling and then rises above the parent. */
  ghost function RotateNear<A(!new)>(sm: Summary<A>, path: Path<A>, t: Tree<A>): Tree<A>
    requires path.Step? && path.sib.Node? && path.sib.Child(path.side).Node?
  {
    var n, near := path.sib.Child(path.side), FromNear(path, t);
    RotateUp(sm, RaisedPath(near, n), LoweredTree(sm, near, n, true), true, Colour(n.Child(path.side)))
  }

  /** What the loop body sees after case 1: a sibling that is not red. */
  ghost function AfterRaise<A(!new)>(sm: Summary<A>, path: Path<A>, t: Tree<A>): Path<A>
    requires path.Step? && path.sib.Node?
  {
    if path.sib.Red() then RaiseSibling(sm, path, t) else path
  }

  ghost predicate NephewsBlack<A>(path: Path<A>)
    requires path.Step? && path.sib.Node?
  {
    !path.sib.left.Red() && !path.sib.right.Red()
  }

  ghost function Depth<A>(path: Path<A>): nat { if path.Top? then 0 else 1 + Depth(path.up) }

  /** Rotating a red sibling up keeps the deficit where it is, below a red parent and beside a black sibling. */
  lemma {:induction false} AfterRaiseDeficient<A(!new)>(sm: Summary<A>, path: Path<A>, t: Tree<A>, h: nat)
    requires Deficient(path, t, h)
    ensures path.sib.Node?
    ensures Deficient(AfterRaise(sm, path, t), t, h)
    ensures var p := AfterRaise(sm, path, t); p.sib.Node? && p.sib.black && (path.sib.Red() ==> !p.black)
  {
    assert path.sib.Red() ==> Balanced(path.sib.Child(path.side), h + 1);
  }

  lemma {:induction false} RecolourDeficient<A>(path: Path<A>, t: Tree<A>, h: nat)
    requires Deficient(path, t, h) && path.sib.black && NephewsBlack(path)
    ensures Balanced(Recolour(path, t), h + 1)
  {
    assert Balanced(path.sib.(black := false), h);
  }

  /** The tree left by the loop when t, at the end of path, is short of one black node. */
  ghost function EraseFix<A(!new)>(sm: Summary<A>, path: Path<A>, t: Tree<A>, h: nat): Tree<A>
    requires Deficient(path, t, h)
    decreases Depth(path), 1
  {
    AfterRaiseDeficient(sm, path, t, h);
    EraseStep(sm, AfterRaise(sm, path, t), t, h)
  }

  /** The loop body after case 1. */
  ghost function EraseStep<A(!new)>(sm: Summary<A>, path: Path<A>, t: Tree<A>, h: nat): Tree<A>
    requires Deficient(path, t, h) && path.sib.Node? && path.sib.black
    decreases if path.black then Depth(path) else 0, 0
  {
    if NephewsBlack(path) then
      RecolourDeficient(path, t, h);
      if !path.black || path.up.Top? then Plug(path.up, Recolour(path, t))
      else EraseFix(sm, path.up, Recolour(path, t), h + 1)
    else if path.sib.Child(path.side.Other()).Red() then Plug(path.up, RotateFar(sm, path, t))
    else Plug(path.up, RotateNear(sm, path, t))
  }

  lemma {:induction false} EraseFixInorder<A(!new)>(sm: Summary<A>, path: Path<A>, t: Tree<A>, h: nat)
    requires Deficient(path, t, h)
    ensures Inorder(EraseFix(sm, path, t, h)) == Inorder(Plug(path, t))
    decreases Depth(path), 1
  {
    AfterRaiseDeficient(sm, path, t, h);
    AfterRaiseInorder(sm, path, t);
    EraseStepInorder(sm, AfterRaise(sm, path, t), t, h);
  }

  lemma {:induction false} AfterRaiseInorder<A(!new)>(sm: Summary<A>, path: Path<A>, t: Tree<A>)
    requires path.Step? && path.sib.Node?
    ensures Inorder(Plug(AfterRaise(sm, path, t), t)) == Inorder(Plug(path, t))
  {
    if path.sib.Red() {
      RaiseSiblingIsRotateUp(sm, path, t);
      FromNephews(path, t);
      var far := path.sib.Child(path.side.Other());
      RotateUpInorder(sm, FromFar(path, t), far, false, true);
      InorderPlug(path.up, Whole(path, t), RotateUp(sm, FromFar(path, t), far, false, true));
    }
  }

  lemma {:induction false} RaiseSiblingIsRotateUp<A(!new)>(sm: Summary<A>, path: Path<A>, t: Tree<A>)
    requires path.Step? && path.sib.Node?
    ensures Plug(RaiseSibling(sm, path, t), t)
         == Plug(path.up, RotateUp(sm, FromFar(path, t), path.sib.Child(path.side.Other()), false, true))
  {
    var raised := RaiseSibling(sm, path, t);
    assert Whole(raised.up, Whole(raised, t)) ==
        RotateUp(sm, FromFar(path, t), path.sib.Child(path.side.Other()), false, true);
    assert Plug(raised, t) == Plug(raised.up, Whole(raised, t));
  }

  lemma {:induction false} EraseStepInorder<A(!new)>(sm: Summary<A>, path: Path<A>, t: Tree<A>, h: nat)
    requires Deficient(path, t, h) && path.sib.Node? && path.sib.black
    ensures Inorder(EraseStep(sm, path, t, h)) == Inorder(Plug(path, t))
    decreases if path.black then Depth(path) else 0, 0
  {
    var s, d := path.sib, path.side;
    if NephewsBlack(path) {
      RecolourDeficient(path, t, h);
      assert Inorder(path.sib.(black := false)) == Inorder(path.sib);
      InorderPlug(path.up, Whole(path, t), Recolour(path, t));
      if path.black && path.up.Step? { EraseFixInorder(sm, path.up, Recolour(path, t), h + 1); }
    } else if s.Child(d.Other()).Red() {
      RotateFarInorder(sm, path, t);
      InorderPlug(path.up, Whole(path, t), RotateFar(sm, path, t));
    } else {
      RotateNearInorder(sm, path, t);
    }
  }

  lemma {:induction false} RotateFarInorder<A(!new)>(sm: Summary<A>, path: Path<A>, t: Tree<A>)
    requires path.Step? && path.sib.Node?
    ensures Inorder(RotateFar(sm, path, t)) == Inorder(Whole(path, t))
  {
    var far := path.sib.Child(path.side.Other());
    FromNephews(path, t);
    InorderBlacken(far);
    RotateUpInorder(sm, FromFar(path, t), far.Blacken(), true, Colour(path.sib.Child(path.side)));
  }

  lemma {:induction false} RotateNearInorder<A(!new)>(sm: Summary<A>, path: Path<A>, t: Tree<A>)
    requires path.Step? && path.sib.Node? && path.sib.Child(path.side).Node?
    ensures Inorder(Plug(path.up, RotateNear(sm, path, t))) == Inorder(Plug(path, t))
  {
    var n, near := path.sib.Child(path.side), FromNear(path, t);
    var path', t' := RaisedPath(near, n), LoweredTree(sm, near, n, true);
    FromNephews(path, t);
    SwapInorder(sm, near, n, true);
    RotateUpInorder(sm, path', t', true, Colour(n.Child(path.side)));
    InorderPlug(path.up, Above(path', t'), RotateNear(sm, path, t));
    assert Plug(path.up, Above(near, n)) == Plug(near, n);
  }

  lemma {:induction false} EraseFixValid<A(!new)>(sm: Summary<A>, path: Path<A>, t: Tree<A>, h: nat)
    requires Deficient(path, t, h)
    ensures Valid(EraseFix(sm, path, t, h))
    decreases Depth(path), 1
  {
    AfterRaiseDeficient(sm, path, t, h);
    EraseStepValid(sm, AfterRaise(sm, path, t), t, h);
  }

  lemma {:induction false} EraseStepValid<A(!new)>(sm: Summary<A>, path: Path<A>, t: Tree<A>, h: nat)
    requires Deficient(path, t, h) && path.sib.Node? && path.sib.black
    ensures Valid(EraseStep(sm, path, t, h))
    decreases if path.black then Depth(path) else 0, 0
  {
    var k := if path.black then h + 2 else h + 1;
    assert Fits(path.up, k);
    if NephewsBlack(path) {
      RecolourDeficient(path, t, h);
      if path.black && path.up.Step? {
        EraseFixValid(sm, path.up, Recolour(path, t), h + 1);
      } else {
        PlugValid(path.up, Recolour(path, t), h + 1);
      }
    } else if path.sib.Child(path.side.Other()).Red() {
      BalancedBlacken(path.sib.Child(path.side.Other()), h);
      assert Balanced(sm.Fresh(path.side, path.id, true, t, path.sib.Child(path.side)), h + 1);
      PlugValid(path.up, RotateFar(sm, path, t), k);
    } else {
      RotateNearBalanced(sm, path, t, h);
      PlugValid(path.up, RotateNear(sm, path, t), k);
    }
  }

  lemma {:induction false} RotateNearBalanced<A(!new)>(sm: Summary<A>, path: Path<A>, t: Tree<A>, h: nat)
    requires Deficient(path, t, h) && path.sib.Node? && path.sib.black && path.sib.Child(path.side).Red()
    ensures Balanced(RotateNear(sm, path, t), if path.black then h + 2 else h + 1)
    ensures RootFits(path.up, RotateNear(sm, path, t))
  {
    var s, d, n := path.sib, path.side, path.sib.Child(path.side);
    assert Balanced(n, h);
    assert Balanced(n.Child(d.Other()).Blacken(), h);
    assert Balanced(sm.Fresh(d, path.id, true, t, n.Child(d)), h + 1);
    assert Balanced(sm.Fresh(d, s.id, true, n.Child(d.Other()).Blacken(), s.Child(d.Other())), h + 1);
  }

  lemma {:induction false} EraseFixAugOk<A(!new)>(sm: Summary<A>, path: Path<A>, t: Tree<A>, h: nat)
    requires sm.Associative() && Deficient(path, t, h)
    requires sm.AugOk(t) && sm.PathAugOk(path, sm.Aug(t))
    ensures sm.AugOk(EraseFix(sm, path, t, h))
    decreases Depth(path), 1
  {
    AfterRaiseDeficient(sm, path, t, h);
    AfterRaiseAugOk(sm, path, t);
    EraseStepAugOk(sm, AfterRaise(sm, path, t), t, h);
  }

  lemma {:induction false} AfterRaiseAugOk<A(!new)>(sm: Summary<A>, path: Path<A>, t: Tree<A>)
    requires sm.Associative() && path.Step? && path.sib.Node?
    requires sm.AugOk(t) && sm.PathAugOk(path, sm.Aug(t))
    ensures sm.PathAugOk(AfterRaise(sm, path, t), sm.Aug(t))
  {
    if path.sib.Red() {
      var far := path.sib.Child(path.side.Other());
      FromFarAugOk(sm, path, t);
      RaiseSiblingIsRotateUp(sm, path, t);
      RotateUpAugOk(sm, FromFar(path, t), far, false, true);
      sm.PlugAugOk(path.up, RotateUp(sm, FromFar(path, t), far, false, true));
      sm.PlugAugOk(RaiseSibling(sm, path, t), t);
    }
  }

  lemma {:induction false} FromFarAugOk<A(!new)>(sm: Summary<A>, path: Path<A>, t: Tree<A>)
    requires path.Step? && path.sib.Node?
    requires sm.AugOk(t) && sm.PathAugOk(path, sm.Aug(t))
    ensures var far := path.sib.Child(path.side.Other()); sm.AugOk(far) && sm.PathAugOk(FromFar(path, t), sm.Aug(far))
    ensures var near := path.sib.Child(path.side); sm.AugOk(near) && sm.PathAugOk(FromNear(path, t), sm.Aug(near))
  {
    sm.AugOkChildren(path.side, path.sib);
  }

  lemma {:induction false} EraseStepAugOk<A(!new)>(sm: Summary<A>, path: Path<A>, t: Tree<A>, h: nat)
    requires sm.Associative() && Deficient(path, t, h) && path.sib.Node? && path.sib.black
    requires sm.AugOk(t) && sm.PathAugOk(path, sm.Aug(t))
    ensures sm.AugOk(EraseStep(sm, path, t, h))
    decreases if path.black then Depth(path) else 0, 0
  {
    var s, d := path.sib, path.side;
    if NephewsBlack(path) {
      RecolourDeficient(path, t, h);
      assert sm.AugOk(s.(black := false));
      sm.PlugAugOk(path.up, Recolour(path, t));
      if path.black && path.up.Step? { EraseFixAugOk(sm, path.up, Recolour(path, t), h + 1); }
    } else if s.Child(d.Other()).Red() {
      RotateFarAugOk(sm, path, t);
      sm.PlugAugOk(path.up, RotateFar(sm, path, t));
    } else {
      RotateNearAugOk(sm, path, t);
      sm.PlugAugOk(path.up, RotateNear(sm, path, t));
    }
  }

  lemma {:induction false} RotateFarAugOk<A(!new)>(sm: Summary<A>, path: Path<A>, t: Tree<A>)
    requires sm.Associative() && path.Step? && path.sib.Node?
    requires sm.AugOk(t) && sm.PathAugOk(path, sm.Aug(t))
    ensures sm.AugOk(RotateFar(sm, path, t)) && sm.Aug(RotateFar(sm, path, t)) == path.aug
  {
    var far := path.sib.Child(path.side.Other());
    FromFarAugOk(sm, path, t);
    sm.AugOkBlacken(far);
    RotateUpAugOk(sm, FromFar(path, t), far.Blacken(), true, Colour(path.sib.Child(path.side)));
  }

  lemma {:induction false} RotateNearAugOk<A(!new)>(sm: Summary<A>, path: Path<A>, t: Tree<A>)
    requires sm.Associative() && path.Step? && path.sib.Node? && path.sib.Child(path.side).Node?
    requires sm.AugOk(t) && sm.PathAugOk(path, sm.Aug(t))
    ensures sm.AugOk(RotateNear(sm, path, t)) && sm.Aug(RotateNear(sm, path, t)) == path.aug
  {
    var n, near := path.sib.Child(path.side), FromNear(path, t);
    FromFarAugOk(sm, path, t);
    SwapAugOk(sm, near, n, true);
    RotateUpAugOk(sm, RaisedPath(near, n), LoweredTree(sm, near, n, true), true, Colour(n.Child(path.side)));
  }
}
