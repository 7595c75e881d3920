/** The insertion fix-up, and what it achieves. */
module RbInsertSpec {
  import opened RbShape

  /** The path never ends in a red root, so that a red node always has a parent. */
  ghost predicate BlackTop<A>(path: Path<A>) {
    path.Step? ==> (path.up.Top? ==> path.black) && BlackTop(path.up)
  }

  /** A red parent has a parent of its own: the node whose children are recoloured or rotated. */
  lemma {:induction false} BlackTopGrandparent<A>(path: Path<A>)
    requires BlackTop(path) && path.Step? && !path.black
    ensures path.up.Step? && BlackTop(path.up.up)
  {
    assert BlackTop(path.up);
  }

  /** Colour flip: the grandparent turns red over a black parent and a black uncle. */
  ghost function Flip<A>(path: Path<A>, t: Tree<A>): Tree<A>
    requires path.Step? && path.up.Step?
  {
    var g := path.up;
    Join(g.side, g.id, false, g.aug, Join(path.side, path.id, true, path.aug, t, path.sib), g.sib.Blacken())
  }

  /** Case 3: the parent takes the grandparent's place. */
  ghost function RotateOuter<A(!new)>(sm: Summary<A>, path: Path<A>, t: Tree<A>): Tree<A>
    requires path.Step? && path.up.Step?
  {
    RotateUp(sm, path, t, false, true)
  }

  /** Cases 2 and 3: the node itself takes the grandparent's place. */
  ghost function RotateInner<A(!new)>(sm: Summary<A>, path: Path<A>, t: Tree<A>): Tree<A>
    requires path.Step? && path.up.Step? && t.Node?
  {
    RotateOuter(sm, RaisedPath(path, t), LoweredTree(sm, path, t, false))
  }

  /** The tree that results from inserting the red node t at the end of path. */
  ghost function InsertFix<A(!new)>(sm: Summary<A>, path: Path<A>, t: Tree<A>): Tree<A>
    requires BlackTop(path) && t.Node?
    decreases path
  {
    if path.Top? then t.Blacken()
    else if path.black then Plug(path, t)
    else
      BlackTopGrandparent(path);
      if path.up.sib.Red() then InsertFix(sm, path.up.up, Flip(path, t))
      else if path.side == path.up.side then Plug(path.up.up, RotateOuter(sm, path, t))
      else Plug(path.up.up, RotateInner(sm, path, t))
  }

  lemma {:induction false} InsertFixInorder<A(!new)>(sm: Summary<A>, path: Path<A>, t: Tree<A>)
    requires BlackTop(path) && t.Node?
    ensures Inorder(InsertFix(sm, path, t)) == Inorder(Plug(path, t))
    decreases path
  {
    if path.Top? || path.black {
    } else {
      var g := path.up;
      var whole := Above(path, t);
      if g.sib.Red() {
        assert Inorder(Flip(path, t)) == Inorder(whole);
        InsertFixInorder(sm, g.up, Flip(path, t));
        InorderPlug(g.up, whole, Flip(path, t));
      } else if path.side == g.side {
        RotateUpInorder(sm, path, t, false, true);
        InorderPlug(g.up, whole, RotateOuter(sm, path, t));
      } else {
        RotateInnerInorder(sm, path, t);
      }
    }
  }

  lemma {:induction false} RotateInnerInorder<A(!new)>(sm: Summary<A>, path: Path<A>, t: Tree<A>)
    requires path.Step? && path.up.Step? && t.Node? && path.side != path.up.side
    ensures Inorder(Plug(path.up.up, RotateInner(sm, path, t))) == Inorder(Plug(path, t))
  {
    var path', t' := RaisedPath(path, t), LoweredTree(sm, path, t, false);
    SwapInorder(sm, path, t, false);
    RotateUpInorder(sm, path', t', false, true);
    InorderPlug(path.up.up, Above(path', t'), RotateOuter(sm, path', t'));
  }

  /** A red node below a possibly red parent is all that is wrong before; nothing is wrong after. */
  lemma {:induction false} InsertFixValid<A(!new)>(sm: Summary<A>, path: Path<A>, t: Tree<A>, h: nat)
    requires Fits(path, h) && BlackTop(path) && t.Red() && Balanced(t, h)
    ensures Valid(InsertFix(sm, path, t))
    decreases path
  {
    if path.Top? {
      BalancedHeight(t.Blacken(), h + 1);
    } else if path.black {
      PlugValid(path, t, h);
    } else if path.up.sib.Red() {
      InsertFixValid(sm, path.up.up, Flip(path, t), h + 1);
    } else if path.side == path.up.side {
      PlugValid(path.up.up, RotateOuter(sm, path, t), h + 1);
    } else {
      PlugValid(path.up.up, RotateInner(sm, path, t), h + 1);
    }
  }

  /** A path that fits below a red root can be reached only through a black root. */
  lemma {:induction false} FitsBlackTop<A>(path: Path<A>, h: nat)
    requires Fits(path, h)
    ensures BlackTop(path)
    decreases path
  {
    if path.Step? { FitsBlackTop(path.up, if path.black then h + 1 else h); }
  }

  lemma {:induction false} InsertFixAugOk<A(!new)>(sm: Summary<A>, path: Path<A>, t: Tree<A>)
    requires sm.Associative() && BlackTop(path) && t.Node?
    requires sm.AugOk(t) && sm.PathAugOk(path, sm.Aug(t))
    ensures sm.AugOk(InsertFix(sm, path, t))
    decreases path
  {
    if path.Top? {
    } else if path.black {
      sm.PlugAugOk(path, t);
    } else if path.up.sib.Red() {
      assert sm.AugOk(path.up.sib.Blacken());
      InsertFixAugOk(sm, path.up.up, Flip(path, t));
    } else if path.side == path.up.side {
      RotateUpAugOk(sm, path, t, false, true);
      sm.PlugAugOk(path.up.up, RotateOuter(sm, path, t));
    } else {
      SwapAugOk(sm, path, t, false);
      RotateUpAugOk(sm, RaisedPath(path, t), LoweredTree(sm, path, t, false), false, true);
      sm.PlugAugOk(path.up.up, RotateInner(sm, path, t));
    }
  }
}
