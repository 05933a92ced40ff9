/** Nodes joined by parent, left and right numbers, and what it means that such links form a tree. */
module Links {
  import opened Trees

  const NIL: int := 0

  datatype Link = Link(parent: int, left: int, right: int, red: bool)
  {
    function Kid(d: Side): int { if d == Left then left else right }
  }

  type Heap = map<int, Link>

  function SetKid(h: Heap, n: int, d: Side, x: int): Heap
    requires n in h
  {
    h[n := if d == Left then h[n].(left := x) else h[n].(right := x)]
  }

  function SetParent(h: Heap, n: int, p: int): Heap
    requires n in h
  {
    h[n := h[n].(parent := p)]
  }

  function SetRed(h: Heap, n: int, r: bool): Heap
    requires n in h
  {
    h[n := h[n].(red := r)]
  }

  /** The links below x spell out the tree t, and x's parent link is p. */
  predicate IsTree(h: Heap, x: int, p: int, t: Tree)
    decreases t
  {
    match t
    case Nil => x == NIL
    case Node(l, n, r, u) =>
      && x == n && n != NIL && n in h && h[n].parent == p && h[n].red == r
      && IsTree(h, h[n].left, n, l) && IsTree(h, h[n].right, n, u)
  }

  /** The links above x, whose parent is p, spell out the context c; the path ends at node top,
      whose own parent is q. */
  predicate IsCtx(h: Heap, top: int, q: int, x: int, p: int, c: Ctx)
    decreases c
  {
    match c
    case Top => x == top && p == q
    case Frame(d, n, r, s, up) =>
      && p == n && n != NIL && n in h && h[n].red == r && h[n].Kid(d) == x
      && IsTree(h, h[n].Kid(d.Other()), n, s) && IsCtx(h, top, q, n, h[n].parent, up)
  }

  lemma {:induction false} FrameTree(h: Heap, h': Heap, x: int, p: int, t: Tree)
    requires IsTree(h, x, p, t)
    requires forall i :: i in Nodes(t) && i in h ==> i in h' && h'[i] == h[i]
    ensures IsTree(h', x, p, t)
    decreases t
  {
    if t.Node? {
      FrameTree(h, h', h[x].left, x, t.left);
      FrameTree(h, h', h[x].right, x, t.right);
    }
  }

  lemma {:induction false} FrameCtx(h: Heap, h': Heap, top: int, q: int, x: int, p: int, c: Ctx)
    requires IsCtx(h, top, q, x, p, c)
    requires forall i :: i in CtxNodes(c) && i in h ==> i in h' && h'[i] == h[i]
    ensures IsCtx(h', top, q, x, p, c)
    decreases c
  {
    if c.Frame? {
      FrameTree(h, h', h[p].Kid(c.side.Other()), p, c.sib);
      FrameCtx(h, h', top, q, p, h[p].parent, c.up);
    }
  }

  /** Only the root's parent link, and possibly its colour, differ. */
  lemma Regraft(h: Heap, h': Heap, x: int, p: int, q: int, r: bool, t: Tree)
    requires IsTree(h, x, p, t) && Distinct(t)
    requires forall i :: i in Nodes(t) && i in h && i != x ==> i in h' && h'[i] == h[i]
    requires t.Node? ==> x in h' && h'[x] == h[x].(parent := q, red := r)
    ensures IsTree(h', x, q, t.Paint(r))
  {
    if t.Node? {
      FrameTree(h, h', h[x].left, x, t.left);
      FrameTree(h, h', h[x].right, x, t.right);
    }
  }

  /** Only the lowest frame's link to the hole, and possibly its colour, differ. */
  lemma MoveHole(h: Heap, h': Heap, top: int, q: int, x: int, p: int, c: Ctx, x': int, r: bool)
    requires IsCtx(h, top, q, x, p, c) && DistinctCtx(c)
    requires forall i :: i in CtxNodes(c) && i in h && i != p ==> i in h' && h'[i] == h[i]
    requires c.Frame? ==> p in h' && h'[p] == (if c.side == Left then h[p].(left := x', red := r)
                                                                 else h[p].(right := x', red := r))
    ensures IsCtx(h', if c.Top? then x' else top, q, x', p, if c.Top? then c else c.(red := r))
  {
    if c.Frame? {
      FrameTree(h, h', h[p].Kid(c.side.Other()), p, c.sib);
      FrameCtx(h, h', top, q, p, h[p].parent, c.up);
    }
  }

  /** Only the parent link of the path's top node differs. */
  lemma {:induction false} Lift(h: Heap, h': Heap, top: int, q: int, x: int, p: int, c: Ctx, q': int)
    requires IsCtx(h, top, q, x, p, c) && DistinctCtx(c)
    requires forall i :: i in CtxNodes(c) && i in h && i != top ==> i in h' && h'[i] == h[i]
    requires c.Frame? && top in h ==> top in h' && h'[top] == h[top].(parent := q')
    ensures IsCtx(h', top, q', x, if c.Top? then q' else p, c)
    ensures c.Frame? ==> top in CtxNodes(c)
    decreases c
  {
    if c.Frame? {
      Lift(h, h', top, q, p, h[p].parent, c.up, q');
      if c.up.Top? {
        FrameTree(h, h', h[p].Kid(c.side.Other()), p, c.sib);
      } else {
        LiftTop(h, top, q, p, h[p].parent, c.up);
        FrameTree(h, h', h[p].Kid(c.side.Other()), p, c.sib);
      }
    }
  }

  lemma {:induction false} LiftTop(h: Heap, top: int, q: int, x: int, p: int, c: Ctx)
    requires IsCtx(h, top, q, x, p, c) && c.Frame?
    ensures top in CtxNodes(c) && top in h && top != NIL
    decreases c
  {
    if c.up.Frame? {
      LiftTop(h, top, q, p, h[p].parent, c.up);
    }
  }

  lemma {:induction false} PlugLinks(h: Heap, top: int, q: int, x: int, p: int, c: Ctx, t: Tree)
    requires IsCtx(h, top, q, x, p, c) && IsTree(h, x, p, t) && (c.Frame? || t.Node?)
    ensures IsTree(h, top, q, Plug(c, t))
    decreases c
  {
    if c.Frame? {
      PlugLinks(h, top, q, p, h[p].parent, c.up, Build(c.side, t, c.id, c.red, c.sib));
    }
  }

  lemma {:induction false} ComposeLinks(h: Heap, top: int, q: int, mid: int, m: int, x: int, p: int,
                                        inner: Ctx, outer: Ctx)
    requires IsCtx(h, mid, m, x, p, inner) && IsCtx(h, top, q, mid, m, outer)
    ensures IsCtx(h, top, q, x, p, Compose(inner, outer))
    decreases inner
  {
    if inner.Frame? {
      ComposeLinks(h, top, q, mid, m, p, h[p].parent, inner.up, outer);
    }
  }

  /** The links determine the tree. */
  lemma {:induction false} LinksMeanOneTree(h: Heap, x: int, p: int, t: Tree, u: Tree)
    requires IsTree(h, x, p, t) && IsTree(h, x, p, u)
    ensures t == u
    decreases t
  {
    if t.Node? && u.Node? {
      LinksMeanOneTree(h, h[x].left, x, t.left, u.left);
      LinksMeanOneTree(h, h[x].right, x, t.right, u.right);
    }
  }

  // ----- recolouring

  lemma {:induction false} RecolourLinks(h: Heap, x: int, p: int, t: Tree, n: int, r: bool)
    requires IsTree(h, x, p, t) && n in h
    ensures IsTree(SetRed(h, n, r), x, p, Recolour(t, n, r))
    decreases t
  {
    if t.Node? {
      RecolourLinks(h, h[x].left, x, t.left, n, r);
      RecolourLinks(h, h[x].right, x, t.right, n, r);
    }
  }

  lemma {:induction false} RecolourCtxLinks(h: Heap, top: int, q: int, x: int, p: int, c: Ctx, n: int, r: bool)
    requires IsCtx(h, top, q, x, p, c) && n in h
    ensures IsCtx(SetRed(h, n, r), top, q, x, p, RecolourCtx(c, n, r))
    decreases c
  {
    if c.Frame? {
      RecolourLinks(h, h[p].Kid(c.side.Other()), p, c.sib, n, r);
      RecolourCtxLinks(h, top, q, p, h[p].parent, c.up, n, r);
    }
  }

  // ----- rotation, in the two stages between which the source repairs n's summary

  /** n adopts the inner child of its child m on the side away from d. */
  function Unhook(h: Heap, d: Side, n: int): Heap
    requires n in h && h[n].Kid(d.Other()) in h
    requires var b := h[h[n].Kid(d.Other())].Kid(d); b == NIL || b in h
  {
    var m := h[n].Kid(d.Other());
    var b := h[m].Kid(d);
    var h1 := SetKid(h, n, d.Other(), b);
    if b != NIL then SetParent(h1, b, n) else h1
  }

  /** The link that leads to n from above now leads to m. */
  function Redirect(h: Heap, p: int, n: int, m: int): Heap
    requires p == NIL || p in h
  {
    if p == NIL then h else SetKid(h, p, if h[p].left == n then Left else Right, m)
  }

  /** m takes n's place below n's parent, and n becomes m's child on side d. */
  function Hook(h: Heap, d: Side, n: int, m: int): Heap
    requires n in h && m in h && (h[n].parent == NIL || h[n].parent in h)
  {
    var h1 := Redirect(SetParent(h, m, h[n].parent), h[n].parent, n, m);
    SetParent(SetKid(h1, m, d, n), n, m)
  }

  lemma UnhookApart(c: Ctx, t: Tree, d: Side)
    requires Apart(c, t) && t.Node? && t.Far(d).Node?
    ensures var n, m := t.id, t.Far(d); var a, b, e := Nodes(t.Near(d)), Nodes(m.Near(d)), Nodes(m.Far(d));
            && n != m.id && {n, m.id} !! a + b + e + CtxNodes(c)
            && a !! b + e + CtxNodes(c) && b !! e + CtxNodes(c) && e !! CtxNodes(c)
            && Distinct(m.Near(d))
  {
    var m := t.Far(d);
    assert Distinct(m) && Nodes(m) == Nodes(m.Near(d)) + {m.id} + Nodes(m.Far(d));
    assert Nodes(t) == Nodes(t.Near(d)) + {t.id} + Nodes(m);
  }

  lemma UnhookLinks(h: Heap, top: int, d: Side, n: int, p: int, c: Ctx, t: Tree)
    requires IsCtx(h, top, NIL, n, p, c) && IsTree(h, n, p, t) && Apart(c, t)
    requires t.Node? && t.Far(d).Node?
    ensures var m := t.Far(d); var e := d.Other();
            && h[n].Kid(e) == m.id != NIL && m.id in h && (h[m.id].Kid(d) == NIL || h[m.id].Kid(d) in h)
            && var h1 := Unhook(h, d, n);
            && h1.Keys == h.Keys && h1[n].parent == p
            && IsTree(h1, n, p, Build(d, t.Near(d), n, t.red, m.Near(d)))
            && h1[m.id].red == m.red && IsTree(h1, h1[m.id].Kid(e), m.id, m.Far(d))
            && IsCtx(h1, top, NIL, n, p, c)
  {
    var m, e := t.Far(d), d.Other();
    UnhookApart(c, t, d);
    assert DistinctCtx(c);
    hide Distinct, DistinctCtx, CtxNodes;
    assert IsTree(h, m.id, n, m);
    var b := h[m.id].Kid(d);
    assert IsTree(h, b, m.id, m.Near(d));
    assert IsTree(h, h[m.id].Kid(e), m.id, m.Far(d));
    var h1 := Unhook(h, d, n);
    assert b != NIL ==> b in Nodes(m.Near(d));
    assert IsTree(h1, b, n, m.Near(d)) by {
      Regraft(h, h1, b, m.id, n, m.Near(d).Red(), m.Near(d));
      assert m.Near(d).Paint(m.Near(d).Red()) == m.Near(d);
    }
    assert IsTree(h1, h[n].Kid(d), n, t.Near(d)) by {
      FrameTree(h, h1, h[n].Kid(d), n, t.Near(d));
    }
    assert IsTree(h1, h[m.id].Kid(e), m.id, m.Far(d)) by {
      FrameTree(h, h1, h[m.id].Kid(e), m.id, m.Far(d));
    }
    FrameCtx(h, h1, top, NIL, n, p, c);
  }

  lemma ParentSide(h: Heap, top: int, q: int, x: int, p: int, c: Ctx)
    requires IsCtx(h, top, q, x, p, c) && c.Frame? && x != NIL && x !in CtxNodes(c)
    ensures p in h && p in CtxNodes(c) && (h[p].left == x <==> c.side == Left)
  {
  }

  /** Replacing the subtree in the hole by another one at node m. */
  lemma RedirectCtx(h: Heap, h': Heap, top: int, n: int, p: int, c: Ctx, m: int)
    requires IsCtx(h, top, NIL, n, p, c) && DistinctCtx(c) && n != NIL && n !in CtxNodes(c)
    requires p != NIL ==> p in h
    requires forall i :: i in CtxNodes(c) && i in h ==> i in h' && h'[i] == Redirect(h, p, n, m)[i]
    ensures IsCtx(h', if c.Top? then m else top, NIL, m, p, c)
  {
    if c.Frame? {
      ParentSide(h, top, NIL, n, p, c);
    }
    MoveHole(h, h', top, NIL, n, p, c, m, c.Frame? && c.red);
  }

  lemma SpliceApart(c: Ctx, child: Tree, d: Side, n: int, red: bool)
    requires Apart(c, Build(d, child, n, red, Nil))
    ensures Apart(c, child) && n !in Nodes(child) && n !in CtxNodes(c)
  {
  }

  lemma HookApart(c: Ctx, t: Tree, d: Side, m: int, red: bool, far: Tree)
    requires Apart(c, Build(d, t, m, red, far)) && t.Node?
    ensures Distinct(t) && DistinctCtx(c) && t.id in Nodes(t) && m != t.id
    ensures m !in Nodes(t) && m !in Nodes(far) && m !in CtxNodes(c)
    ensures Nodes(t) !! Nodes(far) && Nodes(t) !! CtxNodes(c) && Nodes(far) !! CtxNodes(c)
  {
  }

  lemma {:induction false} NilIsNoCtxNode(h: Heap, top: int, q: int, x: int, p: int, c: Ctx)
    requires IsCtx(h, top, q, x, p, c)
    ensures NIL !in CtxNodes(c)
    decreases c
  {
    if c.Frame? {
      NilIsNoNode(h, h[p].Kid(c.side.Other()), p, c.sib);
      NilIsNoCtxNode(h, top, q, p, h[p].parent, c.up);
    }
  }

  lemma {:induction false} NilIsNoNode(h: Heap, x: int, p: int, t: Tree)
    requires IsTree(h, x, p, t)
    ensures NIL !in Nodes(t)
    decreases t
  {
    if t.Node? {
      NilIsNoNode(h, h[x].left, x, t.left);
      NilIsNoNode(h, h[x].right, x, t.right);
    }
  }

  /** What Hook does, cell by cell: m takes the place of n, with n as its child on side d. */
  ghost predicate Hooked(h: Heap, h': Heap, d: Side, n: int, m: int)
    requires n in h && m in h && (h[n].parent == NIL || h[n].parent in h)
  {
    var p := h[n].parent;
    && h'.Keys == h.Keys && h'[n] == h[n].(parent := m)
    && h'[m].parent == p && h'[m].red == h[m].red && h'[m].Kid(d) == n && h'[m].Kid(d.Other()) == h[m].Kid(d.Other())
    && (forall i :: i in h && i != n && i != m ==> h'[i] == Redirect(h, p, n, m)[i])
    && (forall i :: i in h && i != n && i != m && (i != p || p == NIL) ==> h'[i] == h[i])
  }

  lemma HookCells(h: Heap, d: Side, n: int, m: int)
    requires n in h && m in h && n != m && (h[n].parent == NIL || h[n].parent in h)
    requires h[n].parent != NIL ==> h[n].parent != n && h[n].parent != m
    ensures Hooked(h, Hook(h, d, n, m), d, n, m)
  {
  }

  lemma HookLinks(h: Heap, top: int, d: Side, n: int, p: int, c: Ctx, t: Tree, m: int, red: bool, far: Tree)
    requires IsCtx(h, top, NIL, n, p, c) && IsTree(h, n, p, t) && t.Node?
    requires m in h && m != NIL && h[m].red == red && IsTree(h, h[m].Kid(d.Other()), m, far)
    requires Apart(c, Build(d, t, m, red, far))
    ensures p == NIL || p in h
    ensures var h' := Hook(h, d, n, m); var top' := if c.Top? then m else top;
            h'.Keys == h.Keys && IsCtx(h', top', NIL, m, p, c) && IsTree(h', m, p, Build(d, t, m, red, far))
  {
    HookApart(c, t, d, m, red, far);
    hide Distinct, DistinctCtx, Nodes, CtxNodes, Apart;
    if c.Frame? {
      ParentSide(h, top, NIL, n, p, c);
    }
    NilIsNoNode(h, n, p, t);
    NilIsNoNode(h, h[m].Kid(d.Other()), m, far);
    NilIsNoCtxNode(h, top, NIL, n, p, c);
    hide Hook, Redirect, IsTree, IsCtx;
    HookCells(h, d, n, m);
    var h' := Hook(h, d, n, m);
    RedirectCtx(h, h', top, n, p, c, m);
    Regraft(h, h', n, p, m, t.red, t);
    assert t.Paint(t.red) == t;
    FrameTree(h, h', h[m].Kid(d.Other()), m, far);
    BuildLinks(h', d, n, m, p, t, far);
  }

  lemma BuildLinks(h: Heap, d: Side, n: int, m: int, p: int, t: Tree, far: Tree)
    requires m in h && m != NIL && h[m].parent == p && h[m].Kid(d) == n
    requires IsTree(h, n, m, t) && IsTree(h, h[m].Kid(d.Other()), m, far)
    ensures IsTree(h, m, p, Build(d, t, m, h[m].red, far))
  {
  }

  // ----- unlinking

  /** n, which has at most one child, is replaced below its parent by that child. */
  function Splice(h: Heap, n: int, child: int): Heap
    requires n in h && (child == NIL || child in h) && (h[n].parent == NIL || h[n].parent in h)
  {
    var p := h[n].parent;
    Redirect(if child != NIL then SetParent(h, child, p) else h, p, n, child)
  }

  lemma SpliceLinks(h: Heap, top: int, n: int, p: int, c: Ctx, d: Side, child: Tree, red: bool)
    requires IsCtx(h, top, NIL, n, p, c) && IsTree(h, n, p, Build(d, child, n, red, Nil))
    requires Apart(c, Build(d, child, n, red, Nil))
    ensures n in h && h[n].parent == p && (p == NIL || p in h) && Apart(c, child)
    ensures h[n].Kid(d) == NIL || h[n].Kid(d) in h
    ensures h[n].Kid(d.Other()) == NIL
    ensures var x := h[n].Kid(d); var h' := Splice(h, n, x);
            && h'.Keys == h.Keys && IsCtx(h', if c.Top? then x else top, NIL, x, p, c) && IsTree(h', x, p, child)
            && forall i :: i in h && i != x && i != p ==> h'[i] == h[i]
  {
    var x := h[n].Kid(d);
    SpliceApart(c, child, d, n, red);
    hide Distinct, DistinctCtx;
    if c.Frame? {
      ParentSide(h, top, NIL, n, p, c);
    }
    var h' := Splice(h, n, x);
    RedirectCtx(h, h', top, n, p, c, x);
    Regraft(h, h', x, n, p, child.Red(), child);
    assert child.Paint(child.Red()) == child;
  }

  /** Splits a path at one of its frames. */
  lemma {:induction false} SplitLinks(h: Heap, top: int, q: int, x: int, p: int, inner: Ctx, outer: Ctx)
    requires outer.Frame? && IsCtx(h, top, q, x, p, Compose(inner, outer))
    ensures outer.id in h
    ensures IsCtx(h, h[outer.id].Kid(outer.side), outer.id, x, p, inner)
    ensures IsCtx(h, top, q, h[outer.id].Kid(outer.side), outer.id, outer)
    decreases inner
  {
    if inner.Frame? {
      SplitLinks(h, top, q, p, h[p].parent, inner.up, outer);
    }
  }

  /** Node n takes over the place, the links and the colour of node old, which has a left child. */
  function Substitute(h: Heap, old_: int, n: int): Heap
    requires old_ in h && n in h && old_ != n && (h[old_].parent == NIL || h[old_].parent in h)
    requires h[old_].left in h && (h[old_].right == NIL || h[old_].right in h)
  {
    var h1 := h[n := h[old_]];
    var h2 := SetParent(Redirect(h1, h[old_].parent, old_, n), h[old_].left, n);
    if h[old_].right != NIL then SetParent(h2, h[old_].right, n) else h2
  }

  lemma FrameParts(n: int, red: bool, l: Tree, c: Ctx)
    ensures CtxNodes(Frame(Right, n, red, l, c)) == {n} + Nodes(l) + CtxNodes(c)
    ensures DistinctCtx(Frame(Right, n, red, l, c)) ==>
              Distinct(l) && DistinctCtx(c) && n !in Nodes(l) + CtxNodes(c) && Nodes(l) !! CtxNodes(c)
  {
  }

  lemma SubstituteApart(inner: Ctx, old_: int, red: bool, l: Tree, c: Ctx, t: Tree)
    requires Apart(Compose(inner, Frame(Right, old_, red, l, c)), t)
    ensures DistinctCtx(inner) && DistinctCtx(c) && Distinct(l) && Distinct(t)
    ensures old_ !in CtxNodes(inner) + CtxNodes(c) + Nodes(l) + Nodes(t)
    ensures CtxNodes(inner) !! CtxNodes(c) + Nodes(l) + Nodes(t)
    ensures CtxNodes(c) !! Nodes(l) + Nodes(t) && Nodes(l) !! Nodes(t)
  {
    hide Compose, Apart;
    ComposeApart(inner, Frame(Right, old_, red, l, c), t);
    FrameParts(old_, red, l, c);
    hide CtxNodes, Nodes, Distinct, DistinctCtx;
  }

  lemma ComposeApart(inner: Ctx, outer: Ctx, t: Tree)
    requires Apart(Compose(inner, outer), t)
    ensures Apart(inner, t) && DistinctCtx(outer) && (CtxNodes(inner) + Nodes(t)) !! CtxNodes(outer)
  {
    PlugNodes(Compose(inner, outer), t);
    PlugCompose(inner, outer, t);
    PlugNodes(outer, Plug(inner, t));
    PlugNodes(inner, t);
  }

  /** What Substitute does, cell by cell: n is a copy of the old node, the old node's children point to n, its
      parent's link is redirected, and nothing else changes. */
  ghost predicate Substituted(h: Heap, h': Heap, old_: int, n: int)
    requires old_ in h && (h[old_].parent == NIL || h[old_].parent in h)
  {
    var q, l, r := h[old_].parent, h[old_].left, h[old_].right;
    && h'.Keys == h.Keys && n in h && l in h && (r == NIL || r in h)
    && h'[n] == h[old_] && h'[l] == h[l].(parent := n) && (r != NIL ==> h'[r] == h[r].(parent := n))
    && (forall i :: i in h && i != n && i != l && i != r ==> h'[i] == Redirect(h, q, old_, n)[i])
    && (forall i :: i in h && i != n && i != l && i != r && (i != q || q == NIL) ==> h'[i] == h[i])
  }

  lemma SubstituteCells(h: Heap, old_: int, n: int)
    requires old_ in h && n in h && old_ != n && (h[old_].parent == NIL || h[old_].parent in h)
    requires h[old_].left in h && (h[old_].right == NIL || h[old_].right in h)
    requires var q, l, r := h[old_].parent, h[old_].left, h[old_].right;
             q != NIL ==> q != n && q != l && q != r
    requires h[old_].left != n && h[old_].right != n && h[old_].left != h[old_].right && h[old_].left != NIL
    ensures Substituted(h, Substitute(h, old_, n), old_, n)
  {
  }

  lemma SubstituteLinks(h: Heap, top: int, x: int, p: int, inner: Ctx, old_: int, red: bool, l: Tree, c: Ctx, t: Tree,
                        n: int)
    requires IsCtx(h, top, NIL, x, p, Compose(inner, Frame(Right, old_, red, l, c))) && IsTree(h, x, p, t)
    requires Apart(Compose(inner, Frame(Right, old_, red, l, c)), t)
    requires n in h && n != NIL && n != old_ && l.Node?
    requires n !in CtxNodes(inner) + CtxNodes(c) + Nodes(l) + Nodes(t)
    ensures old_ in h && (h[old_].parent == NIL || h[old_].parent in h)
    ensures h[old_].left in h && (h[old_].right == NIL || h[old_].right in h)
    ensures h[old_].parent == NIL <==> c.Top?
    ensures c.Frame? ==> h[old_].parent == c.id
    ensures IsCtx(Substitute(h, old_, n), if c.Top? then n else top, NIL, x, if inner.Top? then n else p,
                  Compose(inner, Frame(Right, n, red, l, c)))
    ensures IsTree(Substitute(h, old_, n), x, if inner.Top? then n else p, t)
  {
    SubstituteApart(inner, old_, red, l, c, t);
    SplitLinks(h, top, NIL, x, p, inner, Frame(Right, old_, red, l, c));
    var lx, rx, q := h[old_].left, h[old_].right, h[old_].parent;
    SubstituteView(h, top, x, p, inner, old_, l, c, t);
    var h' := Substitute(h, old_, n);
    SubstituteParts(h, top, x, p, inner, old_, l, c, t, n);
    ComposeLinks(h', if c.Top? then n else top, NIL, rx, n, x, if inner.Top? then n else p,
                 inner, Frame(Right, n, red, l, c));
  }

  lemma SubstituteView(h: Heap, top: int, x: int, p: int, inner: Ctx, old_: int, l: Tree, c: Ctx, t: Tree)
    requires old_ in h && old_ != NIL && l.Node? && old_ !in CtxNodes(c)
    requires IsCtx(h, h[old_].right, old_, x, p, inner) && IsTree(h, x, p, t)
    requires IsTree(h, h[old_].left, old_, l) && IsCtx(h, top, NIL, old_, h[old_].parent, c)
    ensures var q := h[old_].parent; if c.Top? then q == NIL else q == c.id && q != NIL && q in h && q in CtxNodes(c)
    ensures var lx := h[old_].left; lx != NIL && lx in h && lx in Nodes(l) && h[lx].red == l.red
    ensures var rx := h[old_].right; rx == NIL || (rx in h && rx in CtxNodes(inner) + Nodes(t))
    ensures inner.Top? ==>
            h[old_].right == x && p == old_ && (t.Node? ==> x == t.id && x != NIL && x in h && h[x].red == t.red)
    ensures inner.Frame? ==> h[old_].right != NIL && h[old_].right in CtxNodes(inner)
  {
    if inner.Frame? {
      LiftTop(h, h[old_].right, old_, x, p, inner);
    }
  }

  /** The subtrees and path pieces around old, one by one. */
  lemma SubstituteAbove(h: Heap, h': Heap, top: int, old_: int, c: Ctx, n: int)
    requires old_ in h && old_ != NIL && IsCtx(h, top, NIL, old_, h[old_].parent, c) && DistinctCtx(c)
    requires h[old_].parent == NIL || h[old_].parent in h
    requires Substituted(h, h', old_, n)
    requires old_ !in CtxNodes(c) && n !in CtxNodes(c)
    requires h[old_].left !in CtxNodes(c) && (h[old_].right != NIL ==> h[old_].right !in CtxNodes(c))
    ensures IsCtx(h', if c.Top? then n else top, NIL, n, h[old_].parent, c)
  {
    hide IsCtx, DistinctCtx, Redirect;
    NilIsNoCtxNode(h, top, NIL, old_, h[old_].parent, c);
    RedirectCtx(h, h', top, old_, h[old_].parent, c, n);
  }

  lemma SubstituteLeft(h: Heap, h': Heap, old_: int, l: Tree, n: int)
    requires old_ in h && IsTree(h, h[old_].left, old_, l) && l.Node? && Distinct(l)
    requires h[old_].parent == NIL || h[old_].parent in h
    requires Substituted(h, h', old_, n) && n !in Nodes(l)
    requires h[old_].right != NIL ==> h[old_].right !in Nodes(l)
    requires h[old_].parent != NIL ==> h[old_].parent !in Nodes(l)
    ensures IsTree(h', h[old_].left, n, l)
  {
    NilIsNoNode(h, h[old_].left, old_, l);
    assert h[h[old_].left].red == l.red;
    hide IsTree, Distinct, Nodes, Redirect;
    Regraft(h, h', h[old_].left, old_, n, l.red, l);
    assert l.Paint(l.red) == l;
  }

  lemma SubstituteBelow(h: Heap, h': Heap, x: int, p: int, inner: Ctx, old_: int, t: Tree, n: int)
    requires old_ in h && IsCtx(h, h[old_].right, old_, x, p, inner) && IsTree(h, x, p, t)
    requires Distinct(t) && DistinctCtx(inner) && Nodes(t) !! CtxNodes(inner)
    requires h[old_].parent == NIL || h[old_].parent in h
    requires Substituted(h, h', old_, n) && n !in Nodes(t) + CtxNodes(inner)
    requires h[old_].left !in Nodes(t) + CtxNodes(inner)
    requires h[old_].parent != NIL ==> h[old_].parent !in Nodes(t) + CtxNodes(inner)
    requires inner.Top? ==> h[old_].right == x && p == old_ && (t.Node? ==> x == t.id && x in h && h[x].red == t.red)
    requires inner.Frame? ==> h[old_].right != NIL && h[old_].right in CtxNodes(inner)
    ensures IsTree(h', x, if inner.Top? then n else p, t)
    ensures IsCtx(h', h[old_].right, n, x, if inner.Top? then n else p, inner)
  {
    NilIsNoNode(h, x, p, t);
    NilIsNoCtxNode(h, h[old_].right, old_, x, p, inner);
    hide IsTree, IsCtx, Distinct, DistinctCtx, Nodes, CtxNodes, Redirect;
    assert t.Paint(t.Red()) == t;
    if inner.Top? {
      Regraft(h, h', x, old_, n, t.Red(), t);
    } else {
      FrameTree(h, h', x, p, t);
    }
    Lift(h, h', h[old_].right, old_, x, p, inner, n);
  }

  lemma SubstituteParts(h: Heap, top: int, x: int, p: int, inner: Ctx, old_: int, l: Tree, c: Ctx, t: Tree, n: int)
    requires old_ in h && old_ != NIL && l.Node? && n in h && n != NIL && n != old_
    requires IsCtx(h, h[old_].right, old_, x, p, inner) && IsTree(h, x, p, t)
    requires IsTree(h, h[old_].left, old_, l) && IsCtx(h, top, NIL, old_, h[old_].parent, c)
    requires DistinctCtx(inner) && DistinctCtx(c) && Distinct(l) && Distinct(t)
    requires old_ !in CtxNodes(inner) + CtxNodes(c) + Nodes(l) + Nodes(t)
    requires n !in CtxNodes(inner) + CtxNodes(c) + Nodes(l) + Nodes(t)
    requires CtxNodes(inner) !! CtxNodes(c) + Nodes(l) + Nodes(t)
    requires CtxNodes(c) !! Nodes(l) + Nodes(t) && Nodes(l) !! Nodes(t)
    ensures h[old_].parent == NIL || h[old_].parent in h
    ensures h[old_].left in h && (h[old_].right == NIL || h[old_].right in h)
    ensures var h' := Substitute(h, old_, n);
            && n in h' && h'[n] == h[old_]
            && IsTree(h', h[old_].left, n, l) && IsTree(h', x, if inner.Top? then n else p, t)
            && IsCtx(h', if c.Top? then n else top, NIL, n, h[old_].parent, c)
            && IsCtx(h', h[old_].right, n, x, if inner.Top? then n else p, inner)
  {
    SubstituteView(h, top, x, p, inner, old_, l, c, t);
    hide Distinct, DistinctCtx, CtxNodes, Nodes, IsTree, IsCtx, Substitute;
    SubstituteCells(h, old_, n);
    var h' := Substitute(h, old_, n);
    assert n in h' && h'[n] == h[old_];
    hide Substituted;
    SubstituteAbove(h, h', top, old_, c, n);
    SubstituteLeft(h, h', old_, l, n);
    SubstituteBelow(h, h', x, p, inner, old_, t, n);
  }

  // ----- attaching a new leaf

  function Attach(h: Heap, i: int, p: int, d: Side, red: bool): Heap
    requires i != p && (p == NIL || p in h)
  {
    var h1 := h[i := Link(p, NIL, NIL, red)];
    if p == NIL then h1 else SetKid(h1, p, d, i)
  }

  lemma AttachLinks(h: Heap, top: int, i: int, p: int, c: Ctx, red: bool)
    requires IsCtx(h, top, NIL, NIL, p, c) && Apart(c, Nil) && i != NIL && i !in CtxNodes(c)
    ensures p != i && (p == NIL || p in h) && (c.Top? <==> p == NIL)
    ensures var h' := Attach(h, i, p, if c.Top? then Left else c.side, red);
            IsCtx(h', if c.Top? then i else top, NIL, i, p, c) && IsTree(h', i, p, Node(Nil, i, red, Nil))
    ensures Apart(c, Node(Nil, i, red, Nil))
  {
    assert c.Frame? ==> p in CtxNodes(c);
    var h' := Attach(h, i, p, if c.Top? then Left else c.side, red);
    MoveHole(h, h', top, NIL, NIL, p, c, i, c.Frame? && c.red);
  }
}
