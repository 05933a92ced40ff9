/** Binary trees of node numbers, and trees with a hole ("contexts").

    A context is the path from a hole up to the root: each frame is one ancestor, the side on which
    the hole hangs below it, and the ancestor's other subtree.  Every algorithm that walks along
    parent links is described by a pair (context, subtree) for the node it stands at. */
module Trees {

  datatype Side = Left | Right
  {
    function Other(): Side { if this == Left then Right else Left }
  }

  datatype Tree = Nil | Node(left: Tree, id: int, red: bool, right: Tree)
  {
    function Near(d: Side): Tree
      requires Node?
    {
      if d == Left then left else right
    }

    function Far(d: Side): Tree
      requires Node?
    {
      if d == Left then right else left
    }

    predicate Red() { Node? && red }

    function Paint(r: bool): Tree
    {
      if Nil? then Nil else Node(left, id, r, right)
    }
  }

  datatype Ctx = Top | Frame(side: Side, id: int, red: bool, sib: Tree, up: Ctx)

  /** The node whose child on side d is near and whose other child is far. */
  function Build(d: Side, near: Tree, id: int, red: bool, far: Tree): Tree
  {
    if d == Left then Node(near, id, red, far) else Node(far, id, red, near)
  }

  function Plug(c: Ctx, t: Tree): Tree
    decreases c
  {
    match c
    case Top => t
    case Frame(d, n, r, s, up) => Plug(up, Build(d, t, n, r, s))
  }

  /** The inner context hung in the hole of the outer one. */
  function Compose(inner: Ctx, outer: Ctx): Ctx
  {
    match inner
    case Top => outer
    case Frame(d, n, r, s, up) => Frame(d, n, r, s, Compose(up, outer))
  }

  function Depth(c: Ctx): nat
  {
    if c.Top? then 0 else 1 + Depth(c.up)
  }

  // ----- node sets and distinctness

  function Nodes(t: Tree): set<int>
  {
    match t
    case Nil => {}
    case Node(l, n, _, r) => Nodes(l) + {n} + Nodes(r)
  }

  function CtxNodes(c: Ctx): set<int>
  {
    match c
    case Top => {}
    case Frame(_, n, _, s, up) => {n} + Nodes(s) + CtxNodes(up)
  }

  predicate Distinct(t: Tree)
  {
    match t
    case Nil => true
    case Node(l, n, _, r) =>
      Distinct(l) && Distinct(r) && n !in Nodes(l) && n !in Nodes(r) && Nodes(l) !! Nodes(r)
  }

  predicate DistinctCtx(c: Ctx)
  {
    match c
    case Top => true
    case Frame(_, n, _, s, up) =>
      Distinct(s) && DistinctCtx(up) && n !in Nodes(s) && n !in CtxNodes(up) && Nodes(s) !! CtxNodes(up)
  }

  predicate Apart(c: Ctx, t: Tree)
  {
    Distinct(t) && DistinctCtx(c) && Nodes(t) !! CtxNodes(c)
  }

  /** The ancestors themselves, and the nodes of their other subtrees. */
  function PathNodes(c: Ctx): set<int>
  {
    if c.Top? then {} else {c.id} + PathNodes(c.up)
  }

  function SibNodes(c: Ctx): set<int>
  {
    if c.Top? then {} else Nodes(c.sib) + SibNodes(c.up)
  }

  lemma {:induction false} PathAndSiblings(c: Ctx)
    ensures CtxNodes(c) == PathNodes(c) + SibNodes(c)
    ensures DistinctCtx(c) ==> PathNodes(c) !! SibNodes(c)
  {
    if c.Frame? {
      PathAndSiblings(c.up);
    }
  }

  lemma {:induction false} PlugNodes(c: Ctx, t: Tree)
    ensures Nodes(Plug(c, t)) == CtxNodes(c) + Nodes(t)
    ensures Distinct(Plug(c, t)) <==> Apart(c, t)
    decreases c
  {
    if c.Frame? {
      PlugNodes(c.up, Build(c.side, t, c.id, c.red, c.sib));
    }
  }

  lemma {:induction false} PlugCompose(inner: Ctx, outer: Ctx, t: Tree)
    ensures Plug(Compose(inner, outer), t) == Plug(outer, Plug(inner, t))
    ensures CtxNodes(Compose(inner, outer)) == CtxNodes(inner) + CtxNodes(outer)
    decreases inner
  {
    if inner.Frame? {
      PlugCompose(inner.up, outer, Build(inner.side, t, inner.id, inner.red, inner.sib));
    }
  }

  // ----- in-order sequence

  function Inorder(t: Tree): (s: seq<int>)
    ensures s == [] <==> t.Nil?
  {
    match t
    case Nil => []
    case Node(l, n, _, r) => Inorder(l) + [n] + Inorder(r)
  }

  function Elements(s: seq<int>): set<int>
  {
    set x | x in s
  }

  lemma {:induction false} InorderNodes(t: Tree)
    ensures Nodes(t) == Elements(Inorder(t))
  {
    if t.Node? {
      InorderNodes(t.left);
      InorderNodes(t.right);
      assert Inorder(t) == Inorder(t.left) + [t.id] + Inorder(t.right);
    }
  }

  function Before(c: Ctx): seq<int>
  {
    match c
    case Top => []
    case Frame(d, n, _, s, up) => if d == Left then Before(up) else Before(up) + Inorder(s) + [n]
  }

  function After(c: Ctx): seq<int>
  {
    match c
    case Top => []
    case Frame(d, n, _, s, up) => if d == Left then [n] + Inorder(s) + After(up) else After(up)
  }

  /** The in-order sequence of a node with the given sequences below it. */
  function Join(d: Side, near: seq<int>, n: int, far: seq<int>): seq<int>
  {
    if d == Left then near + [n] + far else far + [n] + near
  }

  lemma Regroup(b: seq<int>, m: seq<int>, n: int, s: seq<int>, a: seq<int>)
    ensures b + (m + [n] + s) + a == b + m + ([n] + s + a)
    ensures b + (s + [n] + m) + a == (b + s + [n]) + m + a
  {
  }

  lemma {:induction false} PlugInorder(c: Ctx, t: Tree)
    ensures Inorder(Plug(c, t)) == Before(c) + Inorder(t) + After(c)
    decreases c
  {
    match c
    case Top =>
      assert [] + Inorder(t) + [] == Inorder(t);
    case Frame(d, n, r, s, up) =>
      PlugInorder(up, Build(d, t, n, r, s));
      Regroup(Before(up), Inorder(t), n, Inorder(s), After(up));
  }

  lemma {:induction false} ComposeOrder(inner: Ctx, outer: Ctx)
    ensures Before(Compose(inner, outer)) == Before(outer) + Before(inner)
    ensures After(Compose(inner, outer)) == After(inner) + After(outer)
    decreases inner
  {
    if inner.Frame? {
      ComposeOrder(inner.up, outer);
    }
  }

  /** Replacing a node by its only child takes one number out of the in-order sequence. */
  lemma UnlinkOrder(c: Ctx, t: Tree, d: Side) returns (x: seq<int>, y: seq<int>)
    requires t.Node? && t.Far(d).Nil?
    ensures Inorder(Plug(c, t)) == x + [t.id] + y && Inorder(Plug(c, t.Near(d))) == x + y
  {
    var m, b, a := Inorder(t.Near(d)), Before(c), After(c);
    PlugInorder(c, t);
    PlugInorder(c, t.Near(d));
    RegroupUnlink(b, m, t.id, a);
    if d == Left {
      x, y := b + m, a;
    } else {
      x, y := b, m + a;
    }
  }

  lemma RegroupUnlink(b: seq<int>, m: seq<int>, n: int, a: seq<int>)
    ensures b + (m + [n] + []) + a == (b + m) + [n] + a
    ensures b + ([] + [n] + m) + a == b + [n] + (m + a)
    ensures b + m + a == b + (m + a)
  {
  }

  predicate NoDup(s: seq<int>)
  {
    forall i, j :: 0 <= i < j < |s| ==> s[i] != s[j]
  }

  lemma NoDupJoin(a: seq<int>, n: int, b: seq<int>)
    ensures NoDup(a + [n] + b) <==>
            NoDup(a) && NoDup(b) && n !in a && n !in b && Elements(a) !! Elements(b)
  {
    var s := a + [n] + b;
    if NoDup(s) {
      assert forall i :: 0 <= i < |a| ==> s[i] == a[i];
      assert forall i :: 0 <= i < |b| ==> s[|a| + 1 + i] == b[i];
      assert s[|a|] == n;
      forall x | x in a ensures x !in b && x != n {
        var i :| 0 <= i < |a| && a[i] == x;
        assert s[i] == x;
      }
      assert n !in b;
    } else {
      var i, j :| 0 <= i < j < |s| && s[i] == s[j];
      if i < |a| < j {
        assert s[i] in Elements(a) && s[j] in Elements(b);
      } else if |a| < i {
        assert b[i - |a| - 1] == b[j - |a| - 1];
      }
    }
  }

  lemma {:induction false} DistinctInorder(t: Tree)
    ensures Distinct(t) <==> NoDup(Inorder(t))
  {
    if t.Node? {
      DistinctInorder(t.left);
      DistinctInorder(t.right);
      InorderNodes(t.left);
      InorderNodes(t.right);
      var a, b := Inorder(t.left), Inorder(t.right);
      NoDupJoin(a, t.id, b);
      assert Inorder(t) == a + [t.id] + b;
    }
  }

  lemma NoDupWithout(x: seq<int>, n: int, y: seq<int>)
    requires NoDup(x + [n] + y)
    ensures NoDup(x + y)
  {
    var s, u := x + [n] + y, x + y;
    forall i, j | 0 <= i < j < |u|
      ensures u[i] != u[j]
    {
      assert u[i] == s[if i < |x| then i else i + 1] && u[j] == s[if j < |x| then j else j + 1];
    }
  }

  lemma RegroupRemove(b: seq<int>, l: seq<int>, x: int, r: seq<int>, a: seq<int>)
    ensures b + (l + [x] + r) + a == (b + l) + [x] + (r + a)
  {
  }

  lemma ElementsWithout(x: seq<int>, n: int, y: seq<int>)
    requires n !in x && n !in y
    ensures Elements(x + y) == Elements(x + [n] + y) - {n} && n in Elements(x + [n] + y)
  {
    assert (x + [n] + y)[|x|] == n;
  }

  // ----- putting the successor in the place of a node with two children

  /** The successor n of the root of Node(l, old, red, r) is the leftmost node of r.  Taking n out of
      r and putting it in the place of old removes exactly old from the in-order sequence. */
  lemma SuccessorOrder(inner: Ctx, old_: int, red: bool, l: Tree, c: Ctx, n: int, nred: bool, rr: Tree, r: Tree)
    requires Before(inner) == [] && Plug(inner, Node(Nil, n, nred, rr)) == r
    ensures Inorder(Plug(c, Node(l, old_, red, r))) == (Before(c) + Inorder(l)) + [old_] + (Inorder(r) + After(c))
    ensures Inorder(Plug(Compose(inner, Frame(Right, n, red, l, c)), rr)) ==
            (Before(c) + Inorder(l)) + (Inorder(r) + After(c))
  {
    var b, a, m, f := Before(c), After(c), Inorder(rr), After(inner);
    var tt := Node(Nil, n, nred, rr);
    var outer := Frame(Right, n, red, l, c);
    PlugInorder(c, Node(l, old_, red, r));
    PlugInorder(inner, tt);
    PlugInorder(Compose(inner, outer), rr);
    ComposeOrder(inner, outer);
    assert Inorder(tt) == [] + [n] + m && Inorder(Node(l, old_, red, r)) == Inorder(l) + [old_] + Inorder(r);
    assert Before(outer) == b + Inorder(l) + [n] && After(outer) == a;
    RegroupSuccessor(b, Inorder(l), old_, n, m, f, a, Inorder(r));
  }

  lemma RegroupSuccessor(b: seq<int>, l: seq<int>, x: int, n: int, m: seq<int>, f: seq<int>, a: seq<int>, r: seq<int>)
    requires r == [] + ([] + [n] + m) + f
    ensures b + (l + [x] + r) + a == (b + l) + [x] + (r + a)
    ensures (b + l + [n] + []) + m + (f + a) == (b + l) + (r + a)
  {
  }

  lemma SuccessorApart(inner: Ctx, old_: int, red: bool, l: Tree, c: Ctx, n: int, nred: bool, rr: Tree, r: Tree)
    requires Before(inner) == [] && Plug(inner, Node(Nil, n, nred, rr)) == r
    requires Apart(c, Node(l, old_, red, r))
    ensures Apart(Compose(inner, Frame(Right, n, red, l, c)), rr)
  {
    var t, c' := Node(l, old_, red, r), Compose(inner, Frame(Right, n, red, l, c));
    PlugNodes(c, t);
    DistinctInorder(Plug(c, t));
    SuccessorOrder(inner, old_, red, l, c, n, nred, rr, r);
    NoDupWithout(Before(c) + Inorder(l), old_, Inorder(r) + After(c));
    DistinctInorder(Plug(c', rr));
    PlugNodes(c', rr);
  }

  // ----- rotation

  /** Rotation towards side d: the child on the other side becomes the root of the subtree. */
  function Turn(d: Side, t: Tree): Tree
    requires t.Node? && t.Far(d).Node?
  {
    var m := t.Far(d);
    Build(d, Build(d, t.Near(d), t.id, t.red, m.Near(d)), m.id, m.red, m.Far(d))
  }

  lemma TurnKeepsOrder(d: Side, t: Tree)
    requires t.Node? && t.Far(d).Node?
    ensures Inorder(Turn(d, t)) == Inorder(t)
    ensures Turn(d, t).Node? && Turn(d.Other(), Turn(d, t)) == t
  {
    var m := t.Far(d);
    var a, b, e := Inorder(t.Near(d)), Inorder(m.Near(d)), Inorder(m.Far(d));
    if d == Left {
      assert (a + [t.id] + b) + [m.id] + e == a + [t.id] + (b + [m.id] + e);
    } else {
      assert e + [m.id] + (b + [t.id] + a) == (e + [m.id] + b) + [t.id] + a;
    }
  }

  lemma SameOrderSameNodes(t: Tree, u: Tree)
    requires Inorder(t) == Inorder(u)
    ensures Nodes(t) == Nodes(u)
    ensures Distinct(t) <==> Distinct(u)
  {
    InorderNodes(t);
    InorderNodes(u);
    DistinctInorder(t);
    DistinctInorder(u);
  }

  // ----- size and height

  function Count(t: Tree): (k: nat)
    ensures k == |Inorder(t)|
  {
    if t.Nil? then 0 else Count(t.left) + 1 + Count(t.right)
  }

  function Height(t: Tree): nat
  {
    if t.Nil? then 0
    else 1 + if Height(t.left) < Height(t.right) then Height(t.right) else Height(t.left)
  }

  lemma {:induction false} DepthBound(c: Ctx, t: Tree)
    ensures Depth(c) + Height(t) <= Height(Plug(c, t))
    decreases c
  {
    if c.Frame? {
      DepthBound(c.up, Build(c.side, t, c.id, c.red, c.sib));
    }
  }

  // ----- recolouring one node, wherever it is

  function Recolour(t: Tree, x: int, r: bool): Tree
  {
    match t
    case Nil => Nil
    case Node(a, n, c, b) => Node(Recolour(a, x, r), n, if n == x then r else c, Recolour(b, x, r))
  }

  function RecolourCtx(c: Ctx, x: int, r: bool): Ctx
  {
    match c
    case Top => Top
    case Frame(d, n, q, s, up) => Frame(d, n, if n == x then r else q, Recolour(s, x, r), RecolourCtx(up, x, r))
  }

  lemma {:induction false} RecolourKeeps(t: Tree, x: int, r: bool)
    ensures Inorder(Recolour(t, x, r)) == Inorder(t) && Nodes(Recolour(t, x, r)) == Nodes(t)
    ensures Distinct(t) ==> Distinct(Recolour(t, x, r))
    ensures x !in Nodes(t) ==> Recolour(t, x, r) == t
  {
    if t.Node? {
      RecolourKeeps(t.left, x, r);
      RecolourKeeps(t.right, x, r);
    }
  }

  lemma {:induction false} RecolourCtxKeeps(c: Ctx, x: int, r: bool)
    ensures Before(RecolourCtx(c, x, r)) == Before(c) && After(RecolourCtx(c, x, r)) == After(c)
    ensures CtxNodes(RecolourCtx(c, x, r)) == CtxNodes(c)
    ensures DistinctCtx(c) ==> DistinctCtx(RecolourCtx(c, x, r))
    ensures x !in CtxNodes(c) ==> RecolourCtx(c, x, r) == c
  {
    if c.Frame? {
      RecolourKeeps(c.sib, x, r);
      RecolourCtxKeeps(c.up, x, r);
    }
  }

  lemma {:induction false} RecolourPlug(c: Ctx, t: Tree, x: int, r: bool)
    ensures Recolour(Plug(c, t), x, r) == Plug(RecolourCtx(c, x, r), Recolour(t, x, r))
    decreases c
  {
    if c.Frame? {
      RecolourPlug(c.up, Build(c.side, t, c.id, c.red, c.sib), x, r);
    }
  }

  lemma RecolourFocus(c: Ctx, t: Tree, r: bool)
    requires Apart(c, t) && t.Node?
    ensures RecolourCtx(c, t.id, r) == c && Recolour(t, t.id, r) == t.Paint(r)
  {
    RecolourCtxKeeps(c, t.id, r);
    RecolourKeeps(t.left, t.id, r);
    RecolourKeeps(t.right, t.id, r);
  }

  lemma RecolourParent(c: Ctx, t: Tree, r: bool)
    requires Apart(c, t) && c.Frame?
    ensures RecolourCtx(c, c.id, r) == c.(red := r) && Recolour(t, c.id, r) == t
  {
    RecolourKeeps(t, c.id, r);
    RecolourKeeps(c.sib, c.id, r);
    RecolourCtxKeeps(c.up, c.id, r);
  }

  lemma RecolourSibling(c: Ctx, t: Tree, r: bool)
    requires Apart(c, t) && c.Frame? && c.sib.Node?
    ensures RecolourCtx(c, c.sib.id, r) == c.(sib := c.sib.Paint(r)) && Recolour(t, c.sib.id, r) == t
  {
    RecolourKeeps(t, c.sib.id, r);
    RecolourFocus(Top, c.sib, r);
    RecolourCtxKeeps(c.up, c.sib.id, r);
  }

  lemma RecolourNephew(c: Ctx, t: Tree, d: Side, r: bool)
    requires Apart(c, t) && c.Frame? && c.sib.Node? && c.sib.Near(d).Node?
    ensures var s := c.sib; var x := s.Near(d).id;
            RecolourCtx(c, x, r) == c.(sib := Build(d, s.Near(d).Paint(r), s.id, s.red, s.Far(d))) &&
              Recolour(t, x, r) == t
  {
    var s := c.sib;
    var x := s.Near(d).id;
    assert x in Nodes(s.Near(d));
    RecolourKeeps(t, x, r);
    RecolourFocus(Top, s.Near(d), r);
    RecolourKeeps(s.Far(d), x, r);
    RecolourCtxKeeps(c.up, x, r);
  }

  lemma RecolourGrandparent(c: Ctx, t: Tree, r: bool)
    requires Apart(c, t) && c.Frame? && c.up.Frame?
    ensures RecolourCtx(c, c.up.id, r) == c.(up := c.up.(red := r)) && Recolour(t, c.up.id, r) == t
  {
    assert c.up.id in CtxNodes(c.up);
    RecolourKeeps(t, c.up.id, r);
    RecolourKeeps(c.sib, c.up.id, r);
    RecolourParent(c.up, c.sib, r);
  }

  lemma RecolourUncle(c: Ctx, t: Tree, r: bool)
    requires Apart(c, t) && c.Frame? && c.up.Frame? && c.up.sib.Node?
    ensures RecolourCtx(c, c.up.sib.id, r) == c.(up := c.up.(sib := c.up.sib.Paint(r))) &&
            Recolour(t, c.up.sib.id, r) == t
  {
    assert c.up.sib.id in CtxNodes(c.up);
    RecolourKeeps(t, c.up.sib.id, r);
    RecolourSibling(c.up, c.sib, r);
  }
}
