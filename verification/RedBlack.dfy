/** The red-black conditions, on trees and on contexts, and what each repair step does to them. */
module RedBlack {
  import opened Arithmetic
  import opened Trees

  /** Black nodes on the left spine; on a balanced tree, on every path. */
  function BlackHeight(t: Tree): nat
  {
    if t.Nil? then 0 else BlackHeight(t.left) + if t.red then 0 else 1
  }

  predicate Balanced(t: Tree)
  {
    t.Node? ==> Balanced(t.left) && Balanced(t.right) && BlackHeight(t.left) == BlackHeight(t.right)
  }

  predicate NoRedRed(t: Tree)
  {
    t.Node? ==> NoRedRed(t.left) && NoRedRed(t.right) && (t.red ==> !t.left.Red() && !t.right.Red())
  }

  predicate IsRedBlack(t: Tree)
  {
    !t.Red() && NoRedRed(t) && Balanced(t)
  }

  /** The context becomes a balanced tree when its hole is filled with black height k. */
  predicate CtxBalanced(c: Ctx, k: nat)
  {
    c.Frame? ==>
      Balanced(c.sib) && BlackHeight(c.sib) == k && CtxBalanced(c.up, if c.red then k else k + 1)
  }

  /** The context has a black root and no red-red edge when its hole is filled with a root of the
      given colour. */
  predicate CtxNoRedRed(c: Ctx, red: bool)
  {
    match c
    case Top => !red
    case Frame(_, _, r, s, up) => NoRedRed(s) && (r ==> !red && !s.Red()) && CtxNoRedRed(up, r)
  }

  lemma {:induction false} PlugRedBlack(c: Ctx, t: Tree)
    ensures Balanced(Plug(c, t)) <==> Balanced(t) && CtxBalanced(c, BlackHeight(t))
    ensures !Plug(c, t).Red() && NoRedRed(Plug(c, t)) <==> NoRedRed(t) && CtxNoRedRed(c, t.Red())
    decreases c
  {
    if c.Frame? {
      PlugRedBlack(c.up, Build(c.side, t, c.id, c.red, c.sib));
    }
  }

  lemma RedBlackRootIsBlack(t: Tree)
    ensures IsRedBlack(t) ==> t.Paint(false) == t
    ensures Plug(Top, t) == t
  {
  }

  // ----- insertion

  /** Only the edge from the red node t to its parent may be red-red. */
  predicate InsertState(c: Ctx, t: Tree)
  {
    t.Red() && NoRedRed(t) && Balanced(t) && CtxBalanced(c, BlackHeight(t)) && CtxNoRedRed(c, false)
  }

  lemma InsertStart(c: Ctx, n: int)
    requires IsRedBlack(Plug(c, Nil))
    ensures InsertState(c, Node(Nil, n, true, Nil))
  {
    PlugRedBlack(c, Nil);
  }

  lemma InsertStateNode(c: Ctx, t: Tree)
    requires InsertState(c, t)
    ensures t.Node? && t.red
  {
  }

  /** A red parent is never the root. */
  lemma RedParentHasParent(c: Ctx, t: Tree)
    requires InsertState(c, t) && c.Frame? && c.red
    ensures c.up.Frame? && !c.up.red && !c.sib.Red()
  {
    assert CtxNoRedRed(c.up, true);
  }

  lemma InsertRecolour(c: Ctx, t: Tree)
    requires InsertState(c, t) && c.Frame? && c.red && c.up.Frame? && c.up.sib.Red()
    ensures InsertState(c.up.up,
                        Build(c.up.side, Build(c.side, t, c.id, false, c.sib), c.up.id, true, c.up.sib.Paint(false)))
  {
    var p := Build(c.side, t, c.id, false, c.sib);
    var u := c.up.sib.Paint(false);
    assert CtxNoRedRed(c.up, true) && CtxBalanced(c.up, BlackHeight(t));
    assert NoRedRed(p) && Balanced(p) && BlackHeight(p) == BlackHeight(t) + 1;
    assert NoRedRed(u) && Balanced(u) && BlackHeight(u) == BlackHeight(t) + 1;
  }

  /** t hangs on the inner side; turning its parent moves it to the outer side. */
  lemma InsertInner(c: Ctx, t: Tree)
    requires InsertState(c, t) && c.Frame? && c.red && c.up.Frame? && c.side != c.up.side
    ensures var d := c.up.side;
            InsertState(Frame(d, t.id, true, t.Far(d), c.up), Build(d, c.sib, c.id, true, t.Near(d)))
  {
  }

  lemma InsertOuter(c: Ctx, t: Tree)
    requires InsertState(c, t) && c.Frame? && c.red && c.up.Frame? && c.side == c.up.side && !c.up.sib.Red()
    ensures var d := c.side;
            InsertState(Frame(d, c.id, false, Build(d, c.sib, c.up.id, true, c.up.sib), c.up.up), t)
  {
    var g := Build(c.side, c.sib, c.up.id, true, c.up.sib);
    assert CtxNoRedRed(c.up, true) && CtxBalanced(c.up, BlackHeight(t));
    assert NoRedRed(g) && Balanced(g) && BlackHeight(g) == BlackHeight(t);
  }

  lemma InsertDone(c: Ctx, t: Tree)
    requires InsertState(c, t) && (c.Frame? ==> !c.red)
    ensures c.Frame? ==> IsRedBlack(Plug(c, t))
    ensures IsRedBlack(Plug(c, t).Paint(false))
  {
    if c.Frame? {
      PlugRedBlack(c, t);
      var p := Plug(c, t);
      assert p.Paint(false) == p;
    }
  }

  // ----- removal

  /** Every path through t is one black node short; a red t may have red children. */
  predicate RemoveState(c: Ctx, t: Tree)
  {
    NoRedRed(t.Paint(false)) && Balanced(t) && CtxBalanced(c, BlackHeight(t) + 1) && CtxNoRedRed(c, false)
  }

  lemma SiblingExists(c: Ctx, t: Tree)
    requires RemoveState(c, t) && c.Frame?
    ensures c.sib.Node?
    ensures c.sib.red ==> c.sib.left.Node? && c.sib.right.Node? && !c.sib.left.red && !c.sib.right.red && !c.red
  {
  }

  lemma RemoveRedSibling(c: Ctx, t: Tree)
    requires RemoveState(c, t) && c.Frame? && c.sib.Red()
    ensures var d, s := c.side, c.sib;
            RemoveState(Frame(d, c.id, true, s.Near(d), Frame(d, s.id, false, s.Far(d), c.up)), t)
  {
  }

  lemma RemoveRecolour(c: Ctx, t: Tree)
    requires RemoveState(c, t) && !t.Red() && c.Frame? && c.sib.Node? && !c.sib.red
    requires !c.sib.left.Red() && !c.sib.right.Red()
    ensures RemoveState(c.up, Build(c.side, t, c.id, c.red, c.sib.Paint(true)))
  {
    var s := c.sib.Paint(true);
    assert NoRedRed(s) && Balanced(s) && BlackHeight(s) == BlackHeight(t);
    assert CtxNoRedRed(c.up, c.red);
  }

  /** The sibling's outer child is black: turn the sibling away first. */
  lemma RemoveInnerNephew(c: Ctx, t: Tree)
    requires RemoveState(c, t) && c.Frame? && c.sib.Node? && !c.sib.red
    requires c.sib.Near(c.side).Red() && !c.sib.Far(c.side).Red()
    ensures var d, s := c.side, c.sib; var m := s.Near(d);
            RemoveState(c.(sib := Build(d, m.Near(d), m.id, false, Build(d, m.Far(d), s.id, true, s.Far(d)))), t)
  {
    var d, s := c.side, c.sib;
    var m := s.Near(d);
    var s' := Build(d, m.Far(d), s.id, true, s.Far(d));
    assert NoRedRed(m) && Balanced(m) && BlackHeight(m) == BlackHeight(t);
    assert NoRedRed(s') && Balanced(s') && BlackHeight(s') == BlackHeight(t);
  }

  lemma RemoveOuterNephew(c: Ctx, t: Tree)
    requires RemoveState(c, t) && !t.Red() && c.Frame? && c.sib.Node? && !c.sib.red
    requires c.sib.Far(c.side).Red()
    ensures var d, s := c.side, c.sib;
            IsRedBlack(Plug(c.up, Build(d, Build(d, t, c.id, false, s.Near(d)), s.id, c.red, s.Far(d).Paint(false))))
  {
    var d, s := c.side, c.sib;
    var near, far := Build(d, t, c.id, false, s.Near(d)), s.Far(d).Paint(false);
    assert NoRedRed(s.Far(d)) && Balanced(s.Far(d)) && NoRedRed(s.Near(d)) && Balanced(s.Near(d));
    assert NoRedRed(near) && Balanced(near) && BlackHeight(near) == BlackHeight(t) + 1;
    assert NoRedRed(far) && Balanced(far) && BlackHeight(far) == BlackHeight(t) + 1;
    var b := Build(d, near, s.id, c.red, far);
    assert NoRedRed(b) && Balanced(b);
    PlugRedBlack(c.up, b);
  }

  lemma RemoveDone(c: Ctx, t: Tree)
    requires RemoveState(c, t) && (t.Red() || c.Top?)
    ensures IsRedBlack(Plug(c, t.Paint(false)))
  {
    PlugRedBlack(c, t.Paint(false));
  }

  /** Taking out a black node with at most one child leaves its child one black short; taking out a
      red one leaves a red-black tree. */
  lemma RemoveStart(c: Ctx, d: Side, child: Tree, n: int, red: bool)
    requires IsRedBlack(Plug(c, Build(d, child, n, red, Nil)))
    ensures red ==> IsRedBlack(Plug(c, child))
    ensures !red ==> RemoveState(c, child)
  {
    PlugRedBlack(c, Build(d, child, n, red, Nil));
    PlugRedBlack(c, child);
  }

  /** The conditions do not depend on which node sits at a place of the path. */
  lemma {:induction false} RenameFrame(inner: Ctx, f: Ctx, n: int, k: nat, red: bool)
    requires f.Frame?
    ensures CtxBalanced(Compose(inner, f), k) ==> CtxBalanced(Compose(inner, f.(id := n)), k)
    ensures CtxNoRedRed(Compose(inner, f), red) ==> CtxNoRedRed(Compose(inner, f.(id := n)), red)
    decreases inner
  {
    if inner.Frame? {
      RenameFrame(inner.up, f, n, if inner.red then k else k + 1, inner.red);
    }
  }

  lemma RemoveStartRenamed(inner: Ctx, f: Ctx, n: int, d: Side, child: Tree, red: bool)
    requires f.Frame? && IsRedBlack(Plug(Compose(inner, f), Build(d, child, n, red, Nil)))
    ensures var c := Compose(inner, f.(id := n));
            if red then IsRedBlack(Plug(c, child)) else RemoveState(c, child)
  {
    var c, c' := Compose(inner, f), Compose(inner, f.(id := n));
    RemoveStart(c, d, child, n, red);
    PlugRedBlack(c, child);
    PlugRedBlack(c', child);
    RenameFrame(inner, f, n, BlackHeight(child), child.Red());
    RenameFrame(inner, f, n, BlackHeight(child) + 1, false);
  }

  // ----- height

  lemma {:induction false} HeightAndCount(t: Tree)
    requires NoRedRed(t) && Balanced(t)
    ensures Height(t) <= 2 * BlackHeight(t) + if t.Red() then 1 else 0
    ensures Pow2(BlackHeight(t)) <= Count(t) + 1
  {
    if t.Node? {
      HeightAndCount(t.left);
      HeightAndCount(t.right);
    }
  }

  lemma {:induction false} Pow2Double(h: nat, k: nat)
    requires h <= 2 * k
    ensures Pow2(h) <= Pow2(k) * Pow2(k)
  {
    if k > 0 {
      Pow2Double(if h < 2 then 0 else h - 2, k - 1);
      var q := Pow2(k - 1);
      assert Pow2(k) * Pow2(k) == 4 * (q * q);
      assert h >= 2 ==> Pow2(h) == 4 * Pow2(h - 2);
    }
  }

  lemma SquareMonotone(p: nat, q: nat)
    requires p <= q
    ensures p * p <= q * q
  {
    assert p * p <= p * q <= q * q;
  }

  /** Height at most 2 * log2(n + 1), written without logarithms: 2^height <= (n + 1)^2. */
  lemma HeightIsLogarithmic(t: Tree)
    requires IsRedBlack(t)
    ensures Pow2(Height(t)) <= (Count(t) + 1) * (Count(t) + 1)
  {
    HeightAndCount(t);
    Pow2Double(Height(t), BlackHeight(t));
    SquareMonotone(Pow2(BlackHeight(t)), Count(t) + 1);
  }
}
