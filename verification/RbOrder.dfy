/** Positions in a tree, in both walks, and the height of a valid tree. */
module RbOrder {
  import opened Powers
  import opened RbShape

  /** The nodes that come before, and after, whatever stands at the end of path. */
  ghost function Before<A>(path: Path<A>): seq<Ptr> {
    match path
    case Top => []
    case Step(d, id, _, _, sib, up) => if d.Left? then Before(up) else Before(up) + Inorder(sib) + [id]
  }

  ghost function After<A>(path: Path<A>): seq<Ptr> {
    match path
    case Top => []
    case Step(d, id, _, _, sib, up) => if d.Left? then [id] + Inorder(sib) + After(up) else After(up)
  }

  lemma {:induction false} ShiftRight(a: seq<Ptr>, b: seq<Ptr>, c: seq<Ptr>, d: seq<Ptr>, e: seq<Ptr>)
    ensures a + (b + c + d) + e == a + b + (c + d + e)
  {
  }

  lemma {:induction false} ShiftLeft(a: seq<Ptr>, b: seq<Ptr>, c: seq<Ptr>, d: seq<Ptr>, e: seq<Ptr>)
    ensures a + (b + c + d) + e == (a + b + c) + d + e
  {
  }

  lemma {:induction false} ShiftBoth(a: seq<Ptr>, b: seq<Ptr>, c: seq<Ptr>, d: seq<Ptr>, e: seq<Ptr>)
    ensures a + (b + c + d) + e == (a + b) + c + (d + e)
  {
  }

  lemma {:induction false} InorderSplit<A>(path: Path<A>, t: Tree<A>)
    ensures Inorder(Plug(path, t)) == Before(path) + Inorder(t) + After(path)
    decreases path
  {
    match path
    case Top =>
    case Step(d, id, black, aug, sib, up) =>
      InorderSplit(up, Join(d, id, black, aug, t, sib));
      var b, n, s, a := Before(up), Inorder(t), Inorder(sib), After(up);
      if d.Left? {
        ShiftRight(b, n, [id], s, a);
      } else {
        ShiftLeft(b, s, [id], n, a);
      }
  }

  ghost function Leaf<A>(id: Ptr, aug: A): Tree<A> { Node(id, false, aug, Nil, Nil) }

  /** A leaf linked at the end of path stands right before, or right after, the node it is linked to. */
  lemma {:induction false} LinkedBeside<A>(path: Path<A>, id: Ptr, aug: A)
    ensures Inorder(Plug(path, Nil)) == Before(path) + After(path)
    ensures Inorder(Plug(path, Leaf(id, aug))) == Before(path) + [id] + After(path)
    ensures path.Step? && path.side.Left? ==> After(path) != [] && After(path)[0] == path.id
    ensures path.Step? && path.side.Right? ==> Before(path) != [] && Before(path)[|Before(path)| - 1] == path.id
  {
    InorderSplit(path, Nil);
    InorderSplit(path, Leaf(id, aug));
    assert Inorder(Leaf(id, aug)) == [id];
    assert Inorder<A>(Nil) == [];
    assert Before(path) + [] == Before(path);
  }

  lemma {:induction false} UniqueInsert(a: seq<Ptr>, x: Ptr, b: seq<Ptr>)
    requires Unique(a + b) && x !in a + b
    ensures Unique(a + [x] + b)
  {
    var s, t := a + [x] + b, a + b;
    forall i, j | 0 <= i < j < |s| ensures s[i] != s[j] {
      if i != |a| { assert s[i] == t[if i < |a| then i else i - 1]; }
      if j != |a| { assert s[j] == t[if j < |a| then j else j - 1]; }
    }
  }

  /** In a sequence without repetitions a node has one position. */
  lemma {:induction false} PositionOf(a: seq<Ptr>, x: Ptr, b: seq<Ptr>, i: nat)
    requires var s := a + [x] + b; Unique(s) && i < |s| && s[i] == x
    ensures i == |a|
  {
    var s := a + [x] + b;
    assert s[|a|] == x;
  }

  /** Cutting a tree open at a node that is in it. */
  lemma {:induction false} Focus<A>(above: Path<A>, t: Tree<A>, x: Ptr) returns (path: Path<A>, sub: Tree<A>)
    requires x in Inorder(t)
    ensures Plug(path, sub) == Plug(above, t) && sub.Node? && sub.id == x
    decreases t
  {
    if t.id == x {
      path, sub := above, t;
    } else if x in Inorder(t.left) {
      path, sub := Focus(Step(Left, t.id, t.black, t.aug, t.right, above), t.left, x);
    } else {
      path, sub := Focus(Step(Right, t.id, t.black, t.aug, t.left, above), t.right, x);
    }
  }

  // ---------- Neighbours ----------

  /** The end of a sequence on side d. */
  ghost function End(d: Side, s: seq<Ptr>): Ptr
    requires s != []
  {
    if d.Left? then s[0] else s[|s| - 1]
  }

  /** What lies beyond the end of path on side d, and its nearest element or NULL. */
  ghost function Beyond<A>(d: Side, path: Path<A>): seq<Ptr> { if d.Left? then Before(path) else After(path) }

  ghost function Nearest(d: Side, beyond: seq<Ptr>): Ptr {
    if beyond == [] then NULL else End(d.Other(), beyond)
  }

  /** The element next to position i on side d, or NULL at the end. */
  ghost function NextTo(d: Side, s: seq<Ptr>, i: int): Ptr
    requires 0 <= i < |s|
  {
    if d.Left? then if i > 0 then s[i - 1] else NULL
    else if i + 1 < |s| then s[i + 1] else NULL
  }

  /** The neighbour of a node is the near end of its subtree on that side, or of what lies beyond. */
  lemma {:induction false} NeighbourOf<A>(d: Side, path: Path<A>, nd: Tree<A>, i: nat)
    requires nd.Node? && Unique(Inorder(Plug(path, nd))) && i < |Inorder(Plug(path, nd))|
    requires Inorder(Plug(path, nd))[i] == nd.id
    ensures NextTo(d, Inorder(Plug(path, nd)), i)
         == if nd.Child(d).Node? then End(d.Other(), Inorder(nd.Child(d))) else Nearest(d, Beyond(d, path))
  {
    InorderSplit(path, nd);
    var a, l, r, b := Before(path), Inorder(nd.left), Inorder(nd.right), After(path);
    var s := Inorder(Plug(path, nd));
    ShiftNode(a, l, nd.id, r, b);
    assert s == (a + l) + [nd.id] + (r + b);
    PositionOf(a + l, nd.id, r + b, i);
    if d.Left? {
      assert i > 0 ==> s[i - 1] == (a + l)[i - 1];
    } else {
      assert i + 1 < |s| ==> s[i + 1] == (r + b)[0];
    }
  }

  lemma {:induction false} ShiftNode(a: seq<Ptr>, l: seq<Ptr>, x: Ptr, r: seq<Ptr>, b: seq<Ptr>)
    ensures a + (l + [x] + r) + b == (a + l) + [x] + (r + b)
  {
  }

  // ---------- Height ----------

  ghost function Height<A>(t: Tree<A>): nat {
    match t
    case Nil => 0
    case Node(_, _, _, l, r) => 1 + if Height(l) > Height(r) then Height(l) else Height(r)
  }

  lemma {:induction false} Pow2Sum(a: nat, b: nat)
    ensures Pow2(a + b) == Pow2(a) * Pow2(b)
  {
    if a > 0 {
      Pow2Sum(a - 1, b);
      assert 2 * (Pow2(a - 1) * Pow2(b)) == (2 * Pow2(a - 1)) * Pow2(b);
    }
  }

  lemma {:induction false} Pow2Mono(a: nat, b: nat)
    requires a <= b
    ensures Pow2(a) <= Pow2(b)
  {
    if a < b { Pow2Mono(a, b - 1); }
  }

  /** A tree of black height h has height at most 2h, or 2h + 1 below a red root, and at least 2^h - 1 nodes. */
  lemma {:induction false} BalancedBounds<A>(t: Tree<A>, h: nat)
    requires Balanced(t, h)
    ensures Height(t) <= 2 * h + if t.Red() then 1 else 0
    ensures Pow2(h) <= |Inorder(t)| + 1
  {
    match t
    case Nil =>
    case Node(_, black, _, l, r) =>
      BalancedBounds(l, if black then h - 1 else h);
      BalancedBounds(r, if black then h - 1 else h);
  }

  /** Height is at most 2 log2(n + 1) for n nodes, written without logarithms. */
  lemma {:induction false} HeightBound<A>(t: Tree<A>)
    requires Valid(t)
    ensures Pow2(Height(t)) <= (|Inorder(t)| + 1) * (|Inorder(t)| + 1)
  {
    var h, n := BlackHeight(t), |Inorder(t)|;
    BalancedBounds(t, h);
    Pow2Mono(Height(t), h + h);
    Pow2Sum(h, h);
    Square(Pow2(h), n + 1);
  }

  lemma {:induction false} Square(a: nat, b: nat)
    requires a <= b
    ensures a * a <= b * b
  {
    assert a * a <= a * b <= b * b;
  }

  // ---------- Postorder ----------

  ghost function Postorder<A>(t: Tree<A>): seq<Ptr> {
    match t
    case Nil => []
    case Node(id, _, _, l, r) => Postorder(l) + Postorder(r) + [id]
  }

  ghost function PostBefore<A>(path: Path<A>): seq<Ptr> {
    match path
    case Top => []
    case Step(d, _, _, _, sib, up) => if d.Left? then PostBefore(up) else PostBefore(up) + Postorder(sib)
  }

  ghost function PostAfter<A>(path: Path<A>): seq<Ptr> {
    match path
    case Top => []
    case Step(d, id, _, _, sib, up) => if d.Left? then Postorder(sib) + [id] + PostAfter(up) else [id] + PostAfter(up)
  }

  lemma {:induction false} PostorderSplit<A>(path: Path<A>, t: Tree<A>)
    ensures Postorder(Plug(path, t)) == PostBefore(path) + Postorder(t) + PostAfter(path)
    decreases path
  {
    match path
    case Top =>
    case Step(d, id, black, aug, sib, up) =>
      PostorderSplit(up, Join(d, id, black, aug, t, sib));
      var b, n, s, a := PostBefore(up), Postorder(t), Postorder(sib), PostAfter(up);
      if d.Left? {
        ShiftRight(b, n, s, [id], a);
      } else {
        ShiftBoth(b, s, n, [id], a);
      }
  }

  /** The node after position i of the postorder walk, or NULL at the end. */
  ghost function PostNext(s: seq<Ptr>, i: int): Ptr
    requires 0 <= i < |s|
  {
    if i + 1 < |s| then s[i + 1] else NULL
  }

  lemma {:induction false} PostNeighbour<A>(path: Path<A>, nd: Tree<A>, i: nat)
    requires nd.Node? && Unique(Postorder(Plug(path, nd))) && i < |Postorder(Plug(path, nd))|
    requires Postorder(Plug(path, nd))[i] == nd.id
    ensures PostNext(Postorder(Plug(path, nd)), i) == if PostAfter(path) == [] then NULL else PostAfter(path)[0]
  {
    PostorderSplit(path, nd);
    var a, l, r, b := PostBefore(path), Postorder(nd.left), Postorder(nd.right), PostAfter(path);
    var s, front := Postorder(Plug(path, nd)), a + (l + r);
    assert a + (l + r + [nd.id]) + b == front + [nd.id] + b;
    PositionOf(front, nd.id, b, i);
    assert i + 1 < |s| ==> s[i + 1] == b[0];
  }

  /** Each node comes after everything below it. */
  lemma {:induction false} PostorderChildrenFirst<A>(path: Path<A>, nd: Tree<A>)
    requires nd.Node?
    ensures Postorder(Plug(path, nd))
         == PostBefore(path) + (Postorder(nd.left) + Postorder(nd.right) + [nd.id]) + PostAfter(path)
  {
    PostorderSplit(path, nd);
  }

  /** The two walks visit the same nodes, each as often as the other does. */
  lemma {:induction false} PostorderIsPermutation<A>(t: Tree<A>)
    ensures multiset(Postorder(t)) == multiset(Inorder(t))
  {
    if t.Node? {
      PostorderIsPermutation(t.left);
      PostorderIsPermutation(t.right);
    }
  }

  lemma {:induction false} PostorderSameNodes<A>(t: Tree<A>)
    ensures forall x :: x in Postorder(t) <==> x in Inorder(t)
  {
    PostorderIsPermutation(t);
    forall x ensures x in Postorder(t) <==> x in Inorder(t) {
      assert x in Postorder(t) <==> x in multiset(Postorder(t));
      assert x in Inorder(t) <==> x in multiset(Inorder(t));
    }
  }

  lemma {:induction false} UniqueMultiset(s: seq<Ptr>, t: seq<Ptr>)
    requires Unique(s) && multiset(s) == multiset(t)
    ensures Unique(t)
  {
    forall i, j | 0 <= i < j < |t| ensures t[i] != t[j] {
      if t[i] == t[j] {
        var x := t[i];
        assert t == t[..i] + [x] + t[i + 1..j] + [x] + t[j + 1..];
        assert multiset(t)[x] >= 2;
        UniqueCount(s, x);
      }
    }
  }

  lemma {:induction false} UniqueCount(s: seq<Ptr>, x: Ptr)
    requires Unique(s)
    ensures multiset(s)[x] <= 1
  {
    if s != [] {
      assert s == [s[0]] + s[1..];
      assert forall i :: 0 <= i < |s[1..]| ==> s[1..][i] == s[i + 1];
      UniqueCount(s[1..], x);
      if s[0] == x { assert x !in s[1..]; }
    }
  }
}
