/** Red-black trees and the paths (zippers) up to their roots. */
module RbShape {
  /**
   Nodes are named by their address (Ptr); NULL is address 0, as in C.  The source writes
   every rebalancing case twice, once per side; the model writes it once for a side d,
   with "near" meaning the child on side d and "far" the child on the other side.
   */
  type Ptr = nat

  const NULL: Ptr := 0

  datatype Side = Left | Right {
    function Other(): Side { if Left? then Right else Left }
  }

  datatype Tree<A> = Nil | Node(id: Ptr, black: bool, aug: A, left: Tree<A>, right: Tree<A>) {
    ghost function Root(): Ptr { if Nil? then NULL else id }

    ghost predicate Red() { Node? && !black }

    ghost function Child(d: Side): Tree<A>
      requires Node?
    {
      if d.Left? then left else right
    }

    /** The tree with its root in the given colour; an empty tree stays empty. */
    ghost function Tint(black: bool): Tree<A> { if Nil? then Nil else this.(black := black) }

    ghost function Blacken(): Tree<A> { Tint(true) }
  }

  /** What lies above a subtree, from the innermost ancestor outwards. */
  datatype Path<A> = Top | Step(side: Side, id: Ptr, black: bool, aug: A, sib: Tree<A>, up: Path<A>) {
    ghost function Parent(top: Ptr): Ptr { if Top? then top else id }
  }

  /** A node whose child on side d is near and whose other child is far. */
  ghost function Join<A>(d: Side, id: Ptr, black: bool, aug: A, near: Tree<A>, far: Tree<A>): Tree<A> {
    if d.Left? then Node(id, black, aug, near, far) else Node(id, black, aug, far, near)
  }

  ghost function Plug<A>(path: Path<A>, t: Tree<A>): Tree<A>
    decreases path
  {
    match path
    case Top => t
    case Step(d, id, black, aug, sib, up) => Plug(up, Join(d, id, black, aug, t, sib))
  }

  /** The path that goes up inner first and then outer. */
  ghost function Append<A>(inner: Path<A>, outer: Path<A>): Path<A> {
    match inner
    case Top => outer
    case Step(_, _, _, _, _, up) => inner.(up := Append(up, outer))
  }

  lemma {:induction false} PlugAppend<A>(inner: Path<A>, outer: Path<A>, t: Tree<A>)
    ensures Plug(Append(inner, outer), t) == Plug(outer, Plug(inner, t))
    decreases inner
  {
    match inner
    case Top =>
    case Step(d, id, black, aug, sib, up) => PlugAppend(up, outer, Join(d, id, black, aug, t, sib));
  }

  // ---------- In-order contents ----------

  ghost function Inorder<A>(t: Tree<A>): seq<Ptr> {
    match t
    case Nil => []
    case Node(id, _, _, l, r) => Inorder(l) + [id] + Inorder(r)
  }

  /** The run near, x, far as read from side d towards the other side. */
  ghost function Beside(d: Side, near: seq<Ptr>, x: Ptr, far: seq<Ptr>): seq<Ptr> {
    if d.Left? then near + [x] + far else far + [x] + near
  }

  /** A rotation regroups a run but does not reorder it. */
  lemma {:induction false} BesideRegroup(d: Side, a: seq<Ptr>, x: Ptr, b: seq<Ptr>, y: Ptr, c: seq<Ptr>)
    ensures Beside(d, Beside(d, a, x, b), y, c) == Beside(d, a, x, Beside(d, b, y, c))
  {
    if d.Left? {
      assert (a + [x] + b) + [y] + c == a + [x] + (b + [y] + c);
    } else {
      assert c + [y] + (b + [x] + a) == (c + [y] + b) + [x] + a;
    }
  }

  lemma {:induction false} InorderTint<A>(t: Tree<A>, black: bool)
    ensures Inorder(t.Tint(black)) == Inorder(t)
  {
  }

  lemma {:induction false} InorderBlacken<A>(t: Tree<A>)
    ensures Inorder(t.Blacken()) == Inorder(t)
  {
  }

  lemma {:induction false} InorderChildren<A>(d: Side, t: Tree<A>)
    requires t.Node?
    ensures Inorder(t) == Beside(d, Inorder(t.Child(d)), t.id, Inorder(t.Child(d.Other())))
  {
  }

  /** s with every occurrence of x taken out. */
  ghost function Without(s: seq<Ptr>, x: Ptr): seq<Ptr> {
    if s == [] then [] else if s[0] == x then Without(s[1..], x) else [s[0]] + Without(s[1..], x)
  }

  ghost predicate Unique(s: seq<Ptr>) {
    forall i, j :: 0 <= i < j < |s| ==> s[i] != s[j]
  }

  lemma {:induction false} WithoutConcat(a: seq<Ptr>, b: seq<Ptr>, x: Ptr)
    ensures Without(a + b, x) == Without(a, x) + Without(b, x)
  {
    if a == [] {
      assert a + b == b;
    } else {
      assert (a + b)[1..] == a[1..] + b;
      WithoutConcat(a[1..], b, x);
    }
  }

  lemma {:induction false} WithoutIn(s: seq<Ptr>, x: Ptr)
    ensures forall y :: y in Without(s, x) ==> y in s && y != x
  {
    if s != [] { WithoutIn(s[1..], x); }
  }

  lemma {:induction false} WithoutAbsent(s: seq<Ptr>, x: Ptr)
    requires x !in s
    ensures Without(s, x) == s
  {
    if s != [] { WithoutAbsent(s[1..], x); }
  }

  lemma {:induction false} WithoutUnique(s: seq<Ptr>, x: Ptr)
    requires Unique(s)
    ensures Unique(Without(s, x)) && forall y :: y in Without(s, x) <==> y in s && y != x
  {
    if s != [] {
      var rest := Without(s[1..], x);
      assert Unique(s[1..]) && forall i :: 0 <= i < |s[1..]| ==> s[1..][i] == s[i + 1];
      WithoutUnique(s[1..], x);
      assert s[0] !in s[1..];
      assert forall y :: y in s <==> y == s[0] || y in s[1..];
    }
  }

  /** Removing x from a sequence in which it stands between a and b, and nowhere else. */
  lemma {:induction false} WithoutMiddle(a: seq<Ptr>, x: Ptr, b: seq<Ptr>)
    requires x !in a && x !in b
    ensures Without(a + [x] + b, x) == a + b
  {
    var ax := a + [x];
    WithoutConcat(ax, b, x);
    WithoutConcat(a, [x], x);
    WithoutAbsent(a, x);
    WithoutAbsent(b, x);
    assert Without([x], x) == [];
    assert Without(ax, x) == a;
  }

  lemma {:induction false} WithoutBeside(d: Side, near: seq<Ptr>, id: Ptr, far: seq<Ptr>, x: Ptr)
    requires id != x && x !in far
    ensures Without(Beside(d, near, id, far), x) == Beside(d, Without(near, x), id, far)
  {
    WithoutAbsent(far, x);
    WithoutAbsent([id], x);
    if d.Left? {
      WithoutConcat(near + [id], far, x);
      WithoutConcat(near, [id], x);
    } else {
      WithoutConcat(far + [id], near, x);
      WithoutConcat(far, [id], x);
    }
  }

  lemma {:induction false} InorderPlug<A>(path: Path<A>, t: Tree<A>, t': Tree<A>)
    requires Inorder(t) == Inorder(t')
    ensures Inorder(Plug(path, t)) == Inorder(Plug(path, t'))
    decreases path
  {
    match path
    case Top =>
    case Step(d, id, black, aug, sib, up) =>
      InorderPlug(up, Join(d, id, black, aug, t, sib), Join(d, id, black, aug, t', sib));
  }

  /** x is neither on the path nor in a tree hanging off it. */
  ghost predicate Absent<A>(path: Path<A>, x: Ptr) {
    path.Step? ==> path.id != x && x !in Inorder(path.sib) && Absent(path.up, x)
  }

  lemma {:induction false} UniqueBeside(d: Side, near: seq<Ptr>, id: Ptr, far: seq<Ptr>)
    requires Unique(Beside(d, near, id, far))
    ensures Unique(near) && Unique(far) && id !in near && id !in far
    ensures forall x :: x in near ==> x !in far
  {
    var s := Beside(d, near, id, far);
    var n, i := if d.Left? then 0 else |far| + 1, if d.Left? then |near| else |far|;
    var f := if d.Left? then |near| + 1 else 0;
    assert forall k :: 0 <= k < |near| ==> s[n + k] == near[k];
    assert forall k :: 0 <= k < |far| ==> s[f + k] == far[k];
    assert s[i] == id;
  }

  /** In a tree without repetitions, what is in a subtree is nowhere else. */
  lemma {:induction false} UniquePlug<A>(path: Path<A>, t: Tree<A>)
    requires Unique(Inorder(Plug(path, t)))
    ensures Unique(Inorder(t))
    ensures forall x :: x in Inorder(t) ==> Absent(path, x)
    decreases path
  {
    match path
    case Top =>
    case Step(d, id, black, aug, sib, up) =>
      UniquePlug(up, Join(d, id, black, aug, t, sib));
      assert Inorder(Join(d, id, black, aug, t, sib)) == Beside(d, Inorder(t), id, Inorder(sib));
      UniqueBeside(d, Inorder(t), id, Inorder(sib));
  }

  lemma {:induction false} InorderPlugWithout<A>(path: Path<A>, t: Tree<A>, t': Tree<A>, x: Ptr)
    requires Absent(path, x) && Inorder(t') == Without(Inorder(t), x)
    ensures Inorder(Plug(path, t')) == Without(Inorder(Plug(path, t)), x)
    decreases path
  {
    match path
    case Top =>
    case Step(d, id, black, aug, sib, up) =>
      WithoutBeside(d, Inorder(t), id, Inorder(sib), x);
      InorderPlugWithout(up, Join(d, id, black, aug, t, sib), Join(d, id, black, aug, t', sib), x);
  }

  // ---------- Rotations ----------

  /** The subtree at the grandparent of t's root. */
  ghost function Above<A>(path: Path<A>, t: Tree<A>): Tree<A>
    requires path.Step? && path.up.Step?
  {
    var g := path.up;
    Join(g.side, g.id, g.black, g.aug, Join(path.side, path.id, path.black, path.aug, t, path.sib), g.sib)
  }

  /**
   path.id rises above its own parent g and takes g's colour and augmented value; its child away from t
   goes below g, tinted cb, and g gets colour gb.
   */
  ghost function RotateUp<A(!new)>(sm: Summary<A>, path: Path<A>, t: Tree<A>, gb: bool, cb: bool): Tree<A>
    requires path.Step? && path.up.Step?
  {
    var g := path.up;
    Join(g.side, path.id, g.black, g.aug, t, sm.Fresh(g.side, g.id, gb, path.sib.Tint(cb), g.sib))
  }

  lemma {:induction false} RotateUpInorder<A(!new)>(sm: Summary<A>, path: Path<A>, t: Tree<A>, gb: bool, cb: bool)
    requires path.Step? && path.up.Step? && path.side == path.up.side
    ensures Inorder(RotateUp(sm, path, t, gb, cb)) == Inorder(Above(path, t))
  {
    InorderTint(path.sib, cb);
    BesideRegroup(path.side, Inorder(t), path.id, Inorder(path.sib), path.up.id, Inorder(path.up.sib));
  }

  lemma {:induction false} RotateUpAugOk<A(!new)>(sm: Summary<A>, path: Path<A>, t: Tree<A>, gb: bool, cb: bool)
    requires sm.Associative() && path.Step? && path.up.Step? && path.side == path.up.side
    requires sm.AugOk(t) && sm.PathAugOk(path, sm.Aug(t))
    ensures sm.AugOk(RotateUp(sm, path, t, gb, cb)) && sm.Aug(RotateUp(sm, path, t, gb, cb)) == path.up.aug
  {
    var g := path.up;
    sm.AugOkTint(path.sib, cb);
    sm.Rotation(g.side, sm.Aug(t), path.id, sm.Aug(path.sib), g.id, sm.Aug(g.sib));
    var down := sm.Fresh(g.side, g.id, gb, path.sib.Tint(cb), g.sib);
    sm.AugOkJoin(g.side, g.id, gb, sm.Aug(down), path.sib.Tint(cb), g.sib);
    sm.AugOkJoin(g.side, path.id, g.black, g.aug, t, down);
  }

  /** t's root n changes places with its parent p: the path to what n keeps away from p's old place ... */
  ghost function RaisedPath<A>(path: Path<A>, t: Tree<A>): Path<A>
    requires path.Step? && t.Node?
  {
    Step(path.side.Other(), t.id, t.black, path.aug, t.Child(path.side), path.up)
  }

  /** ... and the subtree of p, now below n, in colour pb and with n's other child. */
  ghost function LoweredTree<A(!new)>(sm: Summary<A>, path: Path<A>, t: Tree<A>, pb: bool): Tree<A>
    requires path.Step? && t.Node?
  {
    var d := path.side.Other();
    sm.Fresh(d, path.id, pb, path.sib, t.Child(d).Blacken())
  }

  lemma {:induction false} SwapInorder<A(!new)>(sm: Summary<A>, path: Path<A>, t: Tree<A>, pb: bool)
    requires path.Step? && t.Node?
    ensures Inorder(Plug(RaisedPath(path, t), LoweredTree(sm, path, t, pb))) == Inorder(Plug(path, t))
  {
    var d := path.side.Other();
    var b, c := t.Child(d), t.Child(path.side);
    var t' := LoweredTree(sm, path, t, pb);
    InorderBlacken(b);
    InorderChildren(d, t);
    BesideRegroup(d, Inorder(path.sib), path.id, Inorder(b), t.id, Inorder(c));
    var before := Join(path.side, path.id, path.black, path.aug, t, path.sib);
    var after := Join(d, t.id, t.black, path.aug, t', c);
    assert Inorder(before) == Inorder(after);
    InorderPlug(path.up, before, after);
  }

  lemma {:induction false} SwapAugOk<A(!new)>(sm: Summary<A>, path: Path<A>, t: Tree<A>, pb: bool)
    requires sm.Associative() && path.Step? && t.Node?
    requires sm.AugOk(t) && sm.PathAugOk(path, sm.Aug(t))
    ensures var low := LoweredTree(sm, path, t, pb); sm.AugOk(low) && sm.PathAugOk(RaisedPath(path, t), sm.Aug(low))
  {
    var d := path.side.Other();
    var b, c := t.Child(d), t.Child(path.side);
    sm.AugOkChildren(d, t);
    sm.AugOkBlacken(b);
    var low := LoweredTree(sm, path, t, pb);
    sm.AugOkJoin(d, path.id, pb, low.aug, path.sib, b.Blacken());
    sm.Rotation(d, sm.Aug(path.sib), path.id, sm.Aug(b), t.id, sm.Aug(c));
  }

  // ---------- The red-black properties ----------

  /** Every path from t down to a leaf has h black nodes, and no red node has a red child. */
  ghost predicate Balanced<A>(t: Tree<A>, h: nat) {
    match t
    case Nil => h == 0
    case Node(_, black, _, l, r) =>
      if black then h > 0 && Balanced(l, h - 1) && Balanced(r, h - 1)
      else !l.Red() && !r.Red() && Balanced(l, h) && Balanced(r, h)
  }

  ghost function BlackHeight<A>(t: Tree<A>): nat {
    match t
    case Nil => 0
    case Node(_, black, _, l, _) => BlackHeight(l) + if black then 1 else 0
  }

  ghost predicate Valid<A>(t: Tree<A>) {
    !t.Red() && Balanced(t, BlackHeight(t))
  }

  lemma {:induction false} BalancedHeight<A>(t: Tree<A>, h: nat)
    requires Balanced(t, h)
    ensures BlackHeight(t) == h
  {
    match t
    case Nil =>
    case Node(_, black, _, l, r) => BalancedHeight(l, if black then h - 1 else h);
  }

  /** A subtree of black height h with a black root can stand at the end of path. */
  ghost predicate Fits<A>(path: Path<A>, h: nat) {
    match path
    case Top => true
    case Step(_, _, black, _, sib, up) =>
      && Balanced(sib, h)
      && (if black then Fits(up, h + 1) else !sib.Red() && up.Step? && up.black && Fits(up, h))
  }

  /** A black root may stand anywhere; a red one only below a black node. */
  ghost predicate RootFits<A>(path: Path<A>, t: Tree<A>) {
    t.Red() ==> path.Step? && path.black
  }

  lemma {:induction false} BalancedBlacken<A>(t: Tree<A>, h: nat)
    requires Balanced(t, h)
    ensures Balanced(t.Blacken(), if t.Red() then h + 1 else h) && !t.Blacken().Red()
  {
  }

  lemma {:induction false} PlugValid<A>(path: Path<A>, t: Tree<A>, h: nat)
    requires Fits(path, h) && Balanced(t, h) && RootFits(path, t)
    ensures Valid(Plug(path, t))
    decreases path
  {
    match path
    case Top => BalancedHeight(t, h);
    case Step(d, id, black, aug, sib, up) =>
      PlugValid(up, Join(d, id, black, aug, t, sib), if black then h + 1 else h);
  }

  /** Conversely, cutting a valid tree open leaves a path and a subtree that fit. */
  lemma {:induction false} PlugValidInverse<A>(path: Path<A>, t: Tree<A>) returns (h: nat)
    requires Valid(Plug(path, t))
    ensures Fits(path, h) && Balanced(t, h) && RootFits(path, t)
    decreases path
  {
    match path
    case Top => h := BlackHeight(t);
    case Step(d, id, black, aug, sib, up) =>
      var k := PlugValidInverse(up, Join(d, id, black, aug, t, sib));
      h := if black then k - 1 else k;
  }

  // ---------- Augmented values ----------

  /** A summary of a run of nodes: unit for none, and op to combine. */
  datatype Summary<!A(!new)> = Summary(unit: A, op: (A, A) -> A, of: Ptr -> A) {
    ghost predicate Associative() {
      forall a, b, c :: op(op(a, b), c) == op(a, op(b, c))
    }

    /** The summary of a node from the summaries of what is on its left and right. */
    function Combine(l: A, id: Ptr, r: A): A { op(op(l, of(id)), r) }

    ghost function Aug(t: Tree<A>): A { if t.Nil? then unit else t.aug }

    function CombineOn(d: Side, near: A, id: Ptr, far: A): A {
      if d.Left? then Combine(near, id, far) else Combine(far, id, near)
    }

    /** The summary of a sequence of nodes. */
    ghost function Of(s: seq<Ptr>): A {
      if s == [] then unit else Combine(unit, s[0], Of(s[1..]))
    }

    /** A node coloured black or red whose augmented value is recomputed from its children. */
    ghost function Fresh(d: Side, id: Ptr, black: bool, near: Tree<A>, far: Tree<A>): Tree<A> {
      Join(d, id, black, CombineOn(d, Aug(near), id, Aug(far)), near, far)
    }

    /** A rotation regroups the same run of nodes, so an associative summary does not change. */
    lemma {:induction false} Rotation(d: Side, a: A, x: Ptr, b: A, y: Ptr, c: A)
      requires Associative()
      ensures CombineOn(d, CombineOn(d, a, x, b), y, c) == CombineOn(d, a, x, CombineOn(d, b, y, c))
    {
      RotationLeft(a, x, b, y, c);
      RotationLeft(c, y, b, x, a);
    }

    lemma {:induction false} RotationLeft(a: A, x: Ptr, b: A, y: Ptr, c: A)
      requires Associative()
      ensures Combine(Combine(a, x, b), y, c) == Combine(a, x, Combine(b, y, c))
    {
      var l := op(a, of(x));
      assert op(op(op(l, b), of(y)), c) == op(op(l, op(b, of(y))), c) == op(l, op(op(b, of(y)), c));
    }

    /** Every node of t carries what its children's values give. */
    ghost predicate AugOk(t: Tree<A>) {
      t.Nil? || (t.aug == Combine(Aug(t.left), t.id, Aug(t.right)) && AugOk(t.left) && AugOk(t.right))
    }

    lemma {:induction false} OfConcat(a: seq<Ptr>, id: Ptr, b: seq<Ptr>)
      requires Associative()
      ensures Of(a + [id] + b) == Combine(Of(a), id, Of(b))
      decreases |a|
    {
      var s := a + [id] + b;
      if a == [] {
        assert s[1..] == b;
      } else {
        assert s[1..] == a[1..] + [id] + b;
        OfConcat(a[1..], id, b);
        var u, v := op(unit, of(a[0])), Of(a[1..]);
        assert op(op(op(u, v), of(id)), Of(b)) == op(op(u, op(v, of(id))), Of(b)) == op(u, op(op(v, of(id)), Of(b)));
      }
    }

    lemma {:induction false} AugOkTint(t: Tree<A>, black: bool)
      requires AugOk(t)
      ensures AugOk(t.Tint(black)) && Aug(t.Tint(black)) == Aug(t)
    {
    }

    lemma {:induction false} BlackenAug(t: Tree<A>)
      ensures Aug(t.Blacken()) == Aug(t)
    {
    }

    lemma {:induction false} AugOkBlacken(t: Tree<A>)
      requires AugOk(t)
      ensures AugOk(t.Blacken()) && Aug(t.Blacken()) == Aug(t)
    {
    }

    lemma {:induction false} AugOkChildren(d: Side, t: Tree<A>)
      requires t.Node? && AugOk(t)
      ensures AugOk(t.Child(d)) && AugOk(t.Child(d.Other()))
      ensures t.aug == CombineOn(d, Aug(t.Child(d)), t.id, Aug(t.Child(d.Other())))
    {
    }

    lemma {:induction false} AugOkJoin(d: Side, id: Ptr, black: bool, v: A, near: Tree<A>, far: Tree<A>)
      requires AugOk(near) && AugOk(far) && v == CombineOn(d, Aug(near), id, Aug(far))
      ensures AugOk(Join(d, id, black, v, near, far))
    {
    }

    /** Locally consistent values are exactly the summaries of the in-order contents. */
    lemma {:induction false} AugOkMeansOf(t: Tree<A>)
      requires Associative() && AugOk(t)
      ensures Aug(t) == Of(Inorder(t))
    {
      if t.Node? {
        AugOkMeansOf(t.left);
        AugOkMeansOf(t.right);
        OfConcat(Inorder(t.left), t.id, Inorder(t.right));
      }
    }

    /** Every node on the path is consistent when the subtree at its end carries the value a. */
    ghost predicate PathAugOk(path: Path<A>, a: A) {
      match path
      case Top => true
      case Step(d, id, _, v, sib, up) =>
        && AugOk(sib)
        && v == CombineOn(d, a, id, Aug(sib))
        && PathAugOk(up, v)
    }

    lemma {:induction false} PlugAugOk(path: Path<A>, t: Tree<A>)
      ensures AugOk(Plug(path, t)) <==> AugOk(t) && PathAugOk(path, Aug(t))
      decreases path
    {
      match path
      case Top =>
      case Step(d, id, black, v, sib, up) => PlugAugOk(up, Join(d, id, black, v, t, sib));
    }

    /** In a consistent tree the value of every node is the summary of its subtree, wherever it stands. */
    lemma {:induction false} EveryAugIsSummary(path: Path<A>, nd: Tree<A>)
      requires Associative() && AugOk(Plug(path, nd))
      ensures Aug(nd) == Of(Inorder(nd))
    {
      PlugAugOk(path, nd);
      AugOkMeansOf(nd);
    }
  }
}
