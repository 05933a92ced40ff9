/** The red-black tree that both malloc and tsearch keep in linked nodes.

    The source holds the algorithm twice: the malloc_ functions repair the summary fields as they go,
    the tree_ functions are the same text without those repairs.  Here it is one class; augmented
    says which of the two copies is meant.  The mirror-image branches of the source are one branch
    with a side parameter. */
module RbTrees {
  import opened Arithmetic
  import opened Trees
  import opened RedBlack
  import opened Links
  import opened Summaries

  lemma RebuildFromNear(d: Side, t: Tree)
    requires t.Node? && t.Far(d).Nil?
    ensures t == Build(d, t.Near(d), t.id, t.red, Nil)
  {
  }

  lemma SpliceInSteps(h: Heap, n: int, child: int)
    requires n in h && (child == NIL || child in h) && (h[n].parent == NIL || h[n].parent in h)
    ensures Splice(h, n, child) ==
            Redirect(if child != NIL then SetParent(h, child, h[n].parent) else h, h[n].parent, n, child)
  {
  }

  /** The two stages of a rotation, on links alone. */
  lemma RotateLinks(h: Heap, top: int, d: Side, n: int, p: int, c: Ctx, t: Tree)
    requires IsCtx(h, top, NIL, n, p, c) && IsTree(h, n, p, t) && Apart(c, t)
    requires t.Node? && t.Far(d).Node?
    ensures var m := t.Far(d);
            && h[n].Kid(d.Other()) == m.id != NIL && m.id in h && (h[m.id].Kid(d) == NIL || h[m.id].Kid(d) in h)
            && var h1 := Unhook(h, d, n);
            && h1.Keys == h.Keys && h1[n].parent == p && (p == NIL || p in h)
            && IsTree(h1, n, p, Build(d, t.Near(d), n, t.red, m.Near(d)))
            && var h2 := Hook(h1, d, n, m.id);
            && h2.Keys == h.Keys && h2[m.id].parent == p
            && IsCtx(h2, if c.Top? then m.id else top, NIL, m.id, p, c) && IsTree(h2, m.id, p, Turn(d, t))
            && Apart(c, Turn(d, t)) && Distinct(Turn(d, t)) && Distinct(t) && t.id == n
            && n !in CtxNodes(c) && m.id !in CtxNodes(c) && n != m.id && n != NIL && (c.Frame? <==> p != NIL)
  {
    var m := t.Far(d);
    var low := Build(d, t.Near(d), n, t.red, m.Near(d));
    TurnKeepsOrder(d, t);
    SameOrderSameNodes(t, Turn(d, t));
    UnhookLinks(h, top, d, n, p, c, t);
    assert Turn(d, t) == Build(d, low, m.id, m.red, m.Far(d));
    HookLinks(Unhook(h, d, n), top, d, n, p, c, low, m.id, m.red, m.Far(d));
  }

  /** The summary repairs of the two rotated nodes, from the bottom up. */
  lemma RotateSums(h1: Heap, h2: Heap, size: Sizes, sum: Sums, end: int, d: Side, n: int, p: int, t: Tree)
    requires t.Node? && t.Far(d).Node? && t.id == n && Distinct(t) && Distinct(Turn(d, t))
    requires end < U32 && Placed(Inorder(t), size, POOL_LB, end) && SumsOk(sum, size, t)
    requires IsTree(h1, n, p, Build(d, t.Near(d), n, t.red, t.Far(d).Near(d)))
    requires IsTree(h2, t.Far(d).id, p, Turn(d, t))
    ensures Fixable(h1, size, sum, n)
    ensures var sum1 := sum[n := Fixed(h1, size, sum, end, n)];
            Fixable(h2, size, sum1, t.Far(d).id) &&
            SumsOk(sum1[t.Far(d).id := Fixed(h2, size, sum1, end, t.Far(d).id)], size, Turn(d, t))
  {
    hide Describe, Placed, Fixed, Hole, High;
    var m, whole := t.Far(d), Turn(d, t);
    var low := Build(d, t.Near(d), n, t.red, m.Near(d));
    assert whole == Build(d, low, m.id, m.red, m.Far(d)) && Distinct(low) && SumsOk(sum, size, m);
    TurnKeepsOrder(d, t);
    PlacedSub(Frame(d, m.id, m.red, m.Far(d), Top), low, size, POOL_LB, end);
    FixedTree(h1, size, sum, end, n, p, low);
    var sum1 := sum[n := Fixed(h1, size, sum, end, n)];
    assert n in Nodes(low);
    FrameSums(sum, sum1, size, size, m.Far(d));
    FixedTree(h2, size, sum1, end, m.id, p, whole);
  }

  /** A rotation does not change what is true of the parent's summary. */
  lemma RotateSumAbove(h: Heap, size: Sizes, sum: Sums, end: int, top: int, x: int, p: int, c: Ctx, t: Tree)
    requires IsTree(h, x, p, t) && IsCtx(h, top, NIL, x, p, c) && c.Frame?
    requires end < U32 && Placed(Inorder(Plug(c, t)), size, POOL_LB, end)
    requires SumsOk(sum, size, t) && CtxSums(sum, size, c, Inorder(t))
    ensures Fixable(h, size, sum, p) && p in sum && sum[p := Fixed(h, size, sum, end, p)] == sum
  {
    hide Describe, Placed, Fixed, Hole, High;
    var b := Build(c.side, t, c.id, c.red, c.sib);
    PlacedSub(c.up, b, size, POOL_LB, end);
    FixedDescribes(h, size, sum, end, p, h[p].parent, b);
  }

  class RbTree {
    const augmented: bool
    const end: int
    var h: Heap
    var root: int
    var size: Sizes
    var sum: Sums

    constructor (augmented: bool, end: int)
      ensures this.augmented == augmented && this.end == end
      ensures h == map[] && root == NIL && size == map[] && sum == map[]
    {
      this.augmented, this.end := augmented, end;
      h, root, size, sum := map[], NIL, map[], map[];
    }

    /** Node x, with parent p, is the root of subtree t, and c describes everything else. */
    ghost predicate At(c: Ctx, t: Tree, x: int, p: int)
      reads `h, `root
    {
      IsCtx(h, root, NIL, x, p, c) && IsTree(h, x, p, t) && Apart(c, t)
    }

    ghost predicate BlocksPlaced(c: Ctx, t: Tree)
      reads `size
    {
      augmented ==> end < U32 && Placed(Inorder(Plug(c, t)), size, POOL_LB, end)
    }

    /** Every summary in the tree is right. */
    ghost predicate Summed(c: Ctx, t: Tree)
      reads `size, `sum
    {
      && BlocksPlaced(c, t)
      && (augmented ==> SumsOk(sum, size, t) && CtxSums(sum, size, c, Inorder(t)))
    }

    /** The summaries on the path from t's root up to the root may be stale; all others are right. */
    ghost predicate Stale(c: Ctx, t: Tree)
      reads `size, `sum
    {
      && BlocksPlaced(c, t)
      && (augmented && t.Node? ==> SumsOk(sum, size, t.left) && SumsOk(sum, size, t.right))
      && (augmented ==> SibSums(sum, size, c))
    }

    /** The links from the root form exactly the tree t, with right summaries. */
    ghost predicate Is(t: Tree)
      reads this
    {
      At(Top, t, root, NIL) && Summed(Top, t)
    }

    // ----- moving the focus

    lemma Ascend(c: Ctx, t: Tree, x: int, p: int)
      requires At(c, t, x, p) && c.Frame?
      ensures p in h && p == c.id && At(c.up, Build(c.side, t, c.id, c.red, c.sib), p, h[p].parent)
      ensures Summed(c, t) ==> Summed(c.up, Build(c.side, t, c.id, c.red, c.sib))
      ensures Plug(c.up, Build(c.side, t, c.id, c.red, c.sib)) == Plug(c, t)
      ensures Stale(c, t) && (augmented ==> SumsOk(sum, size, t)) ==>
              Stale(c.up, Build(c.side, t, c.id, c.red, c.sib))
    {
      PlugNodes(c, t);
      PlugNodes(c.up, Build(c.side, t, c.id, c.red, c.sib));
    }

    lemma Descend(c: Ctx, t: Tree, x: int, p: int, d: Side)
      requires At(c, t, x, p) && t.Node?
      ensures x in h && x == t.id && At(Frame(d, t.id, t.red, t.Far(d), c), t.Near(d), h[x].Kid(d), x)
      ensures Summed(c, t) ==> Summed(Frame(d, t.id, t.red, t.Far(d), c), t.Near(d))
      ensures Plug(Frame(d, t.id, t.red, t.Far(d), c), t.Near(d)) == Plug(c, t)
      ensures t.Near(d).Node? ==> h[x].Kid(d) == t.Near(d).id
    {
      var c' := Frame(d, t.id, t.red, t.Far(d), c);
      assert Build(d, t.Near(d), t.id, t.red, t.Far(d)) == t;
      PlugNodes(c, t);
      PlugNodes(c', t.Near(d));
    }

    /** Every node of a subtree has a place of its own. */
    lemma {:induction false} Locate(c: Ctx, t: Tree, x: int, p: int, n: int) returns (c': Ctx, t': Tree, p': int)
      requires At(c, t, x, p) && Summed(c, t) && n in Nodes(t)
      ensures At(c', t', n, p') && Summed(c', t') && t'.Node? && t'.id == n && Plug(c', t') == Plug(c, t)
      decreases t
    {
      if n == t.id {
        c', t', p' := c, t, p;
      } else {
        var d := if n in Nodes(t.left) then Left else Right;
        Descend(c, t, x, p, d);
        c', t', p' := Locate(Frame(d, t.id, t.red, t.Far(d), c), t.Near(d), h[x].Kid(d), x, n);
      }
    }

    lemma {:induction false} ToTop(c: Ctx, t: Tree, x: int, p: int)
      requires At(c, t, x, p) && (c.Frame? || t.Node?)
      ensures At(Top, Plug(c, t), root, NIL)
      ensures Summed(c, t) ==> Is(Plug(c, t))
      ensures Plug(c, t).Node?
    {
      PlugLinks(h, root, NIL, x, p, c, t);
      PlugNodes(c, t);
      assert t.Node? ==> t.id in Nodes(t);
      assert c.Frame? ==> c.id in CtxNodes(c);
      PlugSums(sum, size, c, t);
    }

    // ----- summaries

    method FixInvariant(n: int)
      requires augmented && n != NIL ==> Fixable(h, size, sum, n)
      modifies this`sum
      ensures sum == if augmented && n != NIL then old(sum)[n := Fixed(h, size, old(sum), end, n)] else old(sum)
    {
      if n == NIL || !augmented {
        return;
      }
      var l, r := h[n].left, h[n].right;
      var llb := if l != NIL then sum[l].lb else end;
      var rub := if r != NIL then sum[r].ub else POOL_LB;
      var lb := Min(llb, n);
      var ub := Max(rub, Word(n + size[n]));
      var lgap := if l != NIL then sum[l].gap else 0;
      var rgap := if r != NIL then sum[r].gap else 0;
      var gap := Max(lgap, rgap);
      gap := Max(gap, if l != NIL then Word(n - sum[l].ub) else 0);
      gap := Max(gap, if r != NIL then Word(sum[r].lb - Word(n + size[n])) else 0);
      sum := sum[n := Summary(lb, ub, gap)];
    }

    /** After the summary of the focus alone has been set right. */
    lemma FixedFocus(sum0: Sums, c: Ctx, t: Tree)
      requires augmented && t.Node? && Apart(c, t) && Sized(Inorder(t), size)
      requires SumsOk(sum0, size, t.left) && SumsOk(sum0, size, t.right) && SibSums(sum0, size, c)
      requires sum == sum0[t.id := Describe(Inorder(t), size)]
      ensures SumsOk(sum, size, t) && SibSums(sum, size, c)
    {
      FrameSums(sum0, sum, size, size, t.left);
      FrameSums(sum0, sum, size, size, t.right);
      PathAndSiblings(c);
      FrameSibSums(sum0, sum, size, size, c);
    }

    /** Repairs the summaries of m and of all its ancestors. */
    method FixUp(m: int, ghost c: Ctx, ghost t: Tree, ghost p: int)
      requires t.Node? && At(c, t, m, p) && Stale(c, t)
      modifies this`sum
      ensures Summed(c, t)
    {
      if !augmented {
        return;
      }
      ghost var whole := Plug(c, t);
      var n := m;
      ghost var cc, tt, pp := c, t, p;
      while n != NIL
        invariant n != NIL ==> tt.Node? && At(cc, tt, n, pp) && Stale(cc, tt) && Plug(cc, tt) == whole
        invariant n == NIL ==> SumsOk(sum, size, whole)
        decreases Depth(cc), if n == NIL then 0 else 1
      {
        PlacedSub(cc, tt, size, POOL_LB, end);
        FixedDescribes(h, size, sum, end, n, pp, tt);
        ghost var sum0 := sum;
        FixInvariant(n);
        FixedFocus(sum0, cc, tt);
        n := h[n].parent;
        if cc.Frame? {
          Ascend(cc, tt, tt.id, pp);
          tt := Build(cc.side, tt, cc.id, cc.red, cc.sib);
          cc := cc.up;
          pp := h[n].parent;
        }
      }
      PlugSums(sum, size, c, t);
    }

    // ----- rotation

    /** Makes the link that leads to n from its parent p, or the root, lead to m instead. */
    method ReplaceChild(p: int, n: int, m: int)
      requires p == NIL || p in h
      modifies this`h, this`root
      ensures h == Redirect(old(h), p, n, m) && root == if p == NIL then m else old(root)
    {
      if p != NIL {
        if h[p].left == n {
          h := SetKid(h, p, Left, m);
        } else {
          h := SetKid(h, p, Right, m);
        }
      } else {
        root := m;
      }
    }

    /** The three repairs of a rotation make every summary right again; the third changes nothing. */
    lemma RotateSummed(h1: Heap, h2: Heap, d: Side, n: int, p: int, c: Ctx, t: Tree)
      requires augmented && Summed(c, t) && t.Node? && t.Far(d).Node? && t.id == n
      requires Distinct(t) && Distinct(Turn(d, t)) && n !in CtxNodes(c) && t.Far(d).id !in CtxNodes(c)
      requires IsTree(h1, n, p, Build(d, t.Near(d), n, t.red, t.Far(d).Near(d)))
      requires IsTree(h2, t.Far(d).id, p, Turn(d, t)) &&
               IsCtx(h2, if c.Top? then t.Far(d).id else root, NIL, t.Far(d).id, p, c)
      requires Inorder(Turn(d, t)) == Inorder(t) && Inorder(Plug(c, Turn(d, t))) == Inorder(Plug(c, t))
      ensures var m := t.Far(d).id;
              && Fixable(h1, size, sum, n)
              && var sum1 := sum[n := Fixed(h1, size, sum, end, n)];
              && Fixable(h2, size, sum1, m)
              && var sum2 := sum1[m := Fixed(h2, size, sum1, end, m)];
              && SumsOk(sum2, size, Turn(d, t)) && CtxSums(sum2, size, c, Inorder(Turn(d, t)))
              && (c.Frame? ==>
                Fixable(h2, size, sum2, p) && p in sum2 && sum2[p := Fixed(h2, size, sum2, end, p)] == sum2)
    {
      hide IsTree, IsCtx, Distinct, Placed, SumsOk, CtxSums, Fixed, Fixable, Inorder, Plug, Turn, Nodes, CtxNodes;
      var m := t.Far(d).id;
      PlacedSub(c, t, size, POOL_LB, end);
      RotateSums(h1, h2, size, sum, end, d, n, p, t);
      var sum1 := sum[n := Fixed(h1, size, sum, end, n)];
      var sum2 := sum1[m := Fixed(h2, size, sum1, end, m)];
      FrameCtxSums(sum, sum2, size, c, Inorder(t));
      if c.Frame? {
        RotateSumAbove(h2, size, sum2, end, root, m, p, c, Turn(d, t));
      }
    }

    /** Rotates n towards side d: its child on the other side takes its place. */
    method Rotate(d: Side, n: int, ghost c: Ctx, ghost t: Tree, ghost p: int)
      requires At(c, t, n, p) && Summed(c, t) && t.Node? && t.Far(d).Node?
      modifies this`h, this`root, this`sum
      ensures At(c, Turn(d, t), t.Far(d).id, p) && Summed(c, Turn(d, t))
      ensures Inorder(Plug(c, Turn(d, t))) == Inorder(Plug(c, t))
    {
      hide IsTree, IsCtx, Apart, Distinct, Placed, SumsOk, CtxSums, Fixed, Fixable, Inorder, Plug, Turn, Nodes;
      hide CtxNodes, At, Summed, Described, Sized;
      ghost var m := t.Far(d).id;
      RotateView(d, n, c, t, p);
      ghost var h1 := Unhook(h, d, n);
      ghost var h2 := Hook(h1, d, n, m);

      var tmp := h[n].Kid(d.Other());
      h := SetKid(h, n, d.Other(), h[tmp].Kid(d));
      if h[tmp].Kid(d) != NIL {
        h := SetParent(h, h[tmp].Kid(d), n);
      }
      assert h == h1;
      FixInvariant(n);
      h := SetParent(h, tmp, h[n].parent);
      ReplaceChild(h[n].parent, n, tmp);
      h := SetKid(h, tmp, d, n);
      h := SetParent(h, n, tmp);
      assert h == h2;
      FixInvariant(tmp);
      if h[tmp].parent != NIL {
        FixInvariant(h[tmp].parent);
      }
      RotateDone(d, c, t, p);
    }

    /** Everything the rotation of n does, stage by stage. */
    lemma RotateView(d: Side, n: int, c: Ctx, t: Tree, p: int)
      requires At(c, t, n, p) && Summed(c, t) && t.Node? && t.Far(d).Node?
      ensures var m := t.Far(d).id;
              n in h && h[n].Kid(d.Other()) == m && m in h && (h[m].Kid(d) == NIL || h[m].Kid(d) in h)
      ensures n != NIL && t.Far(d).id != NIL && n != t.Far(d).id
      ensures Unhook(h, d, n).Keys == h.Keys && Unhook(h, d, n)[n].parent == p && (p == NIL || p in h) &&
              (c.Top? <==> p == NIL)
      ensures var h1 := Unhook(h, d, n); var m := t.Far(d).id; var h2 := Hook(h1, d, n, m);
              && h2.Keys == h.Keys && h2[m].parent == p
              && IsCtx(h2, if c.Top? then m else root, NIL, m, p, c) && IsTree(h2, m, p, Turn(d, t)) &&
                Apart(c, Turn(d, t))
      ensures augmented ==>
              var h1 := Unhook(h, d, n); var m := t.Far(d).id; var h2 := Hook(h1, d, n, m);
              && Fixable(h1, size, sum, n)
              && var sum1 := sum[n := Fixed(h1, size, sum, end, n)];
              && Fixable(h2, size, sum1, m)
              && var sum2 := sum1[m := Fixed(h2, size, sum1, end, m)];
              && SumsOk(sum2, size, Turn(d, t)) && CtxSums(sum2, size, c, Inorder(Turn(d, t)))
              && (c.Frame? ==>
                Fixable(h2, size, sum2, p) && p in sum2 && sum2[p := Fixed(h2, size, sum2, end, p)] == sum2)
      ensures BlocksPlaced(c, Turn(d, t)) && Inorder(Plug(c, Turn(d, t))) == Inorder(Plug(c, t))
    {
      hide IsTree, IsCtx, Apart, Distinct, Placed, SumsOk, CtxSums, Fixed, Fixable, Inorder, Plug, Before, After;
      hide Turn, Nodes, CtxNodes;
      TurnKeepsOrder(d, t);
      PlugInorder(c, t);
      PlugInorder(c, Turn(d, t));
      RotateLinks(h, root, d, n, p, c, t);
      if augmented {
        RotateSummed(Unhook(h, d, n), Hook(Unhook(h, d, n), d, n, t.Far(d).id), d, n, p, c, t);
      }
    }

    lemma RotateDone(d: Side, c: Ctx, t: Tree, p: int)
      requires t.Node? && t.Far(d).Node?
      requires IsCtx(h, root, NIL, t.Far(d).id, p, c) && IsTree(h, t.Far(d).id, p, Turn(d, t)) && Apart(c, Turn(d, t))
      requires BlocksPlaced(c, Turn(d, t))
      requires augmented ==> SumsOk(sum, size, Turn(d, t)) && CtxSums(sum, size, c, Inorder(Turn(d, t)))
      ensures At(c, Turn(d, t), t.Far(d).id, p) && Summed(c, Turn(d, t))
    {
    }

    // ----- recolouring

    lemma RecolouredTree(c: Ctx, t: Tree, x: int, r: bool)
      requires Apart(c, t)
      ensures Apart(RecolourCtx(c, x, r), Recolour(t, x, r))
      ensures Inorder(Plug(RecolourCtx(c, x, r), Recolour(t, x, r))) == Inorder(Plug(c, t))
      ensures SumsOk(sum, size, Plug(c, t)) ==> SumsOk(sum, size, Plug(RecolourCtx(c, x, r), Recolour(t, x, r)))
    {
      RecolourKeeps(t, x, r);
      RecolourCtxKeeps(c, x, r);
      PlugInorder(c, t);
      PlugInorder(RecolourCtx(c, x, r), Recolour(t, x, r));
      RecolourPlug(c, t, x, r);
      if SumsOk(sum, size, Plug(c, t)) {
        RecolourSums(sum, size, Plug(c, t), x, r);
      }
    }

    method SetColour(x: int, r: bool, ghost c: Ctx, ghost t: Tree, ghost y: int, ghost p: int)
      requires At(c, t, y, p) && Summed(c, t) && x in h
      modifies this`h
      ensures At(RecolourCtx(c, x, r), Recolour(t, x, r), y, p) && Summed(RecolourCtx(c, x, r), Recolour(t, x, r))
      ensures Inorder(Plug(RecolourCtx(c, x, r), Recolour(t, x, r))) == Inorder(Plug(c, t))
      ensures h == SetRed(old(h), x, r)
    {
      hide IsTree, IsCtx, Apart, Placed, SumsOk, CtxSums, Inorder, Plug, Recolour, RecolourCtx;
      RecolouredTree(c, t, x, r);
      RecolourLinks(h, y, p, t, x, r);
      RecolourCtxLinks(h, root, NIL, y, p, c, x, r);
      PlugSums(sum, size, c, t);
      PlugSums(sum, size, RecolourCtx(c, x, r), Recolour(t, x, r));
      h := SetRed(h, x, r);
    }

    // ----- insertion

    lemma CtxParent(c: Ctx, t: Tree, x: int, p: int)
      requires At(c, t, x, p)
      ensures c.Top? ==> p == NIL && x == root
      ensures c.Frame? ==>
              p != NIL && p == c.id && p in h && h[p].red == c.red && IsCtx(h, root, NIL, p, h[p].parent, c.up)
      ensures c.Frame? && x != NIL ==> (h[p].left == x <==> c.side == Left)
      ensures t.Node? ==> x == t.id && x != NIL && x in h && h[x].parent == p && h[x].red == t.red
      ensures t.Nil? ==> x == NIL
      ensures c.Frame? ==> var s := h[p].Kid(c.side.Other());
                           IsTree(h, s, p, c.sib) && (c.sib.Nil? ==> s == NIL) &&
                           (c.sib.Node? ==> s == c.sib.id && s != NIL && s in h && h[s].red == c.sib.red)
    {
      if c.Frame? && x != NIL {
        ParentSide(h, root, NIL, x, p, c);
      }
    }

    /** What the source reads off the links at a red node with a red parent. */
    lemma InsertView(c: Ctx, t: Tree, x: int, p: int)
      requires At(c, t, x, p) && c.Frame? && c.up.Frame? && t.Node?
      ensures p in h && x in h && h[x].parent == p && c.id == p && t.id == x
      ensures h[p].parent in h
      ensures var g := h[p].parent; var d := c.up.side; var u := h[g].Kid(d.Other());
              && g == c.up.id && (p == h[g].left <==> d == Left)
              && (h[p].Kid(d.Other()) == x <==> c.side != d)
              && (u != NIL ==> u in h) && (u != NIL && h[u].red <==> c.up.sib.Red()) &&
                (u != NIL ==> c.up.sib.Node? && c.up.sib.id == u)
    {
      Ascend(c, t, x, p);
      CtxParent(c, t, x, p);
      var g := h[p].parent;
      CtxParent(c.up, Build(c.side, t, c.id, c.red, c.sib), p, g);
    }

    method BlackenRoot(ghost t: Tree) returns (ghost t': Tree)
      requires Is(t) && t.Node?
      modifies this`h
      ensures t' == t.Paint(false) && Is(t') && Inorder(t') == Inorder(t)
    {
      t' := t.Paint(false);
      RecolourFocus(Top, t, false);
      SetColour(root, false, Top, t, root, NIL);
    }

    /** Case "red uncle": the parent's generation turns black and the trouble moves two levels up. */
    method InsertPushUp(n: int, parent: int, gparent: int, tmp: int, ghost c: Ctx, ghost t: Tree)
      returns (ghost c': Ctx, ghost t': Tree)
      requires At(c, t, n, parent) && Summed(c, t) && InsertState(c, t) && c.Frame? && c.up.Frame?
      requires c.red && c.up.sib.Red() && tmp == c.up.sib.id && c.id == parent && gparent == c.up.id &&
               h[parent].parent == gparent
      requires tmp in h && parent in h && gparent in h
      modifies this`h
      ensures c' == c.up.up && gparent in h && t'.Red()
      ensures At(c', t', gparent, h[gparent].parent) && Summed(c', t') && InsertState(c', t')
      ensures Inorder(Plug(c', t')) == Inorder(Plug(c, t))
    {
      hide IsTree, IsCtx, Apart, Inorder, Plug, InsertState, Summed, Recolour, RecolourCtx;
      InsertRecolour(c, t);
      RecolourUncle(c, t, false);
      SetColour(tmp, false, c, t, n, parent);
      c' := c.(up := c.up.(sib := c.up.sib.Paint(false)));
      RecolourParent(c', t, false);
      SetColour(parent, false, c', t, n, parent);
      c' := c'.(red := false);
      RecolourGrandparent(c', t, true);
      SetColour(gparent, true, c', t, n, parent);
      c' := c'.(up := c'.up.(red := true));
      Ascend(c', t, n, parent);
      t' := Build(c'.side, t, c'.id, c'.red, c'.sib);
      c' := c'.up;
      Ascend(c', t', parent, gparent);
      t' := Build(c'.side, t', c'.id, c'.red, c'.sib);
      c' := c'.up;
    }

    /** Case "outer grandchild": one rotation of the grandparent ends the repair. */
    method InsertTurnOuter(n: int, parent: int, gparent: int, d: Side, ghost c: Ctx, ghost t: Tree)
      returns (ghost c': Ctx)
      requires At(c, t, n, parent) && Summed(c, t) && InsertState(c, t) && c.Frame? && c.up.Frame? && t.Node?
      requires c.red && !c.up.sib.Red() && c.side == c.up.side == d && c.id == parent && t.id == n && gparent == c.up.id
      requires parent in h && gparent in h && h[parent].parent == gparent
      modifies this`h, this`root, this`sum
      ensures c'.Frame? && c'.up == c.up.up && !c'.red
      ensures At(c', t, n, parent) && Summed(c', t) && InsertState(c', t)
      ensures Inorder(Plug(c', t)) == Inorder(Plug(c, t))
    {
      hide IsTree, IsCtx, Apart, Inorder, Plug, InsertState, Summed, Recolour, RecolourCtx;
      InsertOuter(c, t);
      RecolourParent(c, t, false);
      SetColour(parent, false, c, t, n, parent);
      c' := c.(red := false);
      RecolourGrandparent(c', t, true);
      SetColour(gparent, true, c', t, n, parent);
      c' := c'.(up := c'.up.(red := true));
      Ascend(c', t, n, parent);
      ghost var b := Build(d, t, parent, false, c.sib);
      Ascend(c'.up, b, parent, gparent);
      ghost var g := Build(d, b, gparent, true, c.up.sib);
      ghost var gp := h[gparent].parent;
      Rotate(d.Other(), gparent, c.up.up, g, gp);
      Descend(c.up.up, Turn(d.Other(), g), parent, gp, d);
      c' := Frame(d, c.id, false, Build(d, c.sib, c.up.id, true, c.up.sib), c.up.up);
    }

    method RebalanceInsert(n0: int, ghost c0: Ctx, ghost t0: Tree, ghost p0: int) returns (ghost whole: Tree)
      requires At(c0, t0, n0, p0) && InsertState(c0, t0) && Stale(c0, t0)
      modifies this`h, this`root, this`sum
      ensures Is(whole) && IsRedBlack(whole) && Inorder(whole) == Inorder(Plug(c0, t0))
    {
      hide IsTree, IsCtx, Apart, Inorder, Plug, InsertState, Summed, Stale, Recolour, RecolourCtx, IsRedBlack;
      InsertStateNode(c0, t0);
      FixUp(n0, c0, t0, p0);
      var n := n0;
      ghost var c, t := c0, t0;
      CtxParent(c, t, n, p0);
      var parent := h[n].parent;
      while parent != NIL && h[parent].red
        invariant At(c, t, n, parent) && Summed(c, t) && InsertState(c, t) && t.Red()
        invariant c.Frame? ==> parent != NIL && parent in h && h[parent].red == c.red
        invariant c.Top? ==> parent == NIL
        invariant Inorder(Plug(c, t)) == Inorder(Plug(c0, t0))
        decreases Depth(c)
      {
        RedParentHasParent(c, t);
        InsertView(c, t, n, parent);
        assert Depth(c) == 2 + Depth(c.up.up);
        var gparent := h[parent].parent;
        var d := if parent == h[gparent].left then Left else Right;
        var tmp := h[gparent].Kid(d.Other());
        if tmp != NIL && h[tmp].red {
          c, t := InsertPushUp(n, parent, gparent, tmp, c, t);
          InsertStateNode(c, t);
          n := gparent;
        } else {
          if h[parent].Kid(d.Other()) == n {
            InsertInner(c, t);
            Ascend(c, t, n, parent);
            ghost var b := Build(c.side, t, c.id, c.red, c.sib);
            Rotate(d, parent, c.up, b, gparent);
            Descend(c.up, Turn(d, b), n, gparent, d);
            c, t := Frame(d, n, true, t.Far(d), c.up), Build(d, c.sib, c.id, true, t.Near(d));
            tmp := parent;
            parent := n;
            n := tmp;
          }
          InsertView(c, t, n, parent);
          c := InsertTurnOuter(n, parent, gparent, d, c, t);
          CtxParent(c, t, n, parent);
        }
        CtxParent(c, t, n, h[n].parent);
        parent := h[n].parent;
      }
      InsertDone(c, t);
      ToTop(c, t, n, parent);
      whole := BlackenRoot(Plug(c, t));
    }

    // ----- removal

    lemma RootIsTop(c: Ctx, t: Tree, x: int, p: int)
      requires At(c, t, x, p)
      ensures c.Top? <==> x == root
    {
      if c.Frame? {
        LiftTop(h, root, NIL, x, p, c);
        assert t.Node? ==> x in Nodes(t);
      }
    }

    ghost predicate KidIs(x: int, d: Side, t: Tree)
      reads `h
    {
      x in h && var k := h[x].Kid(d);
      if t.Nil? then k == NIL else k == t.id && k != NIL && k in h && h[k].red == t.red
    }

    /** What the source reads off the links next to a subtree that is one black node short. */
    lemma RemoveView(c: Ctx, t: Tree, x: int, p: int)
      requires At(c, t, x, p) && c.Frame? && c.sib.Node?
      ensures p in h && c.id == p && h[p].red == c.red && h[p].Kid(c.side) == x && (h[p].left == x <==> c.side == Left)
      ensures h[p].Kid(c.side.Other()) == c.sib.id && c.sib.id in h && h[c.sib.id].red == c.sib.red
      ensures KidIs(c.sib.id, Left, c.sib.left) && KidIs(c.sib.id, Right, c.sib.right)
    {
      var s := c.sib.id;
      assert IsTree(h, s, p, c.sib) && s in CtxNodes(c) && s !in Nodes(t);
      assert t.Node? ==> x in Nodes(t);
      assert IsTree(h, h[s].left, s, c.sib.left) && IsTree(h, h[s].right, s, c.sib.right);
    }

    /** Case "red sibling": rotate it above the parent. */
    method RemoveTurnSibling(n: int, parent: int, d: Side, tmp: int, ghost c: Ctx, ghost t: Tree)
      returns (ghost c': Ctx)
      requires At(c, t, n, parent) && Summed(c, t) && c.Frame? && c.side == d && c.sib.Red() && c.sib.Near(d).Node?
      requires c.id == parent && c.sib.id == tmp && parent in h && tmp in h
      modifies this`h, this`root, this`sum
      ensures c' == Frame(d, parent, true, c.sib.Near(d), Frame(d, tmp, false, c.sib.Far(d), c.up))
      ensures At(c', t, n, parent) && Summed(c', t)
      ensures Inorder(Plug(c', t)) == Inorder(Plug(c, t))
    {
      hide IsTree, IsCtx, Apart, Inorder, Plug, Summed, Recolour, RecolourCtx;
      CtxParent(c, t, n, parent);
      RecolourSibling(c, t, false);
      SetColour(tmp, false, c, t, n, parent);
      c' := c.(sib := c.sib.Paint(false));
      RecolourParent(c', t, true);
      SetColour(parent, true, c', t, n, parent);
      c' := c'.(red := true);
      Ascend(c', t, n, parent);
      ghost var b := Build(d, t, parent, true, c'.sib);
      ghost var gp := h[parent].parent;
      Rotate(d, parent, c.up, b, gp);
      Descend(c.up, Turn(d, b), tmp, gp, d);
      ghost var up := Frame(d, tmp, false, c.sib.Far(d), c.up);
      ghost var low := Build(d, t, parent, true, c.sib.Near(d));
      Descend(up, low, parent, tmp, d);
      c' := Frame(d, parent, true, c.sib.Near(d), up);
      HoleStays(c', t, n, parent);
    }

    /** Case "sibling with two black children": the shortage moves up to the parent. */
    method RemovePushUp(n: int, parent: int, tmp: int, ghost c: Ctx, ghost t: Tree)
      returns (ghost c': Ctx, ghost t': Tree)
      requires At(c, t, n, parent) && Summed(c, t) && RemoveState(c, t) && !t.Red() && c.Frame? && c.sib.Node? &&
               !c.sib.red
      requires !c.sib.left.Red() && !c.sib.right.Red() && c.sib.id == tmp && parent in h && tmp in h
      modifies this`h
      ensures c' == c.up && t'.Node? && (c.red ==> t'.red)
      ensures parent in h && At(c', t', parent, h[parent].parent) && Summed(c', t') && RemoveState(c', t')
      ensures Inorder(Plug(c', t')) == Inorder(Plug(c, t))
    {
      hide IsTree, IsCtx, Apart, Inorder, Plug, Summed, Recolour, RecolourCtx, RemoveState;
      RemoveRecolour(c, t);
      RecolourSibling(c, t, true);
      SetColour(tmp, true, c, t, n, parent);
      c' := c.(sib := c.sib.Paint(true));
      Ascend(c', t, n, parent);
      t' := Build(c'.side, t, c'.id, c'.red, c'.sib);
      c' := c.up;
    }

    /** Case "outer nephew black": rotate the inner nephew into the sibling's place. */
    method RemoveTurnNephew(n: int, parent: int, d: Side, tmp: int, ghost c: Ctx, ghost t: Tree) returns (ghost c': Ctx)
      requires At(c, t, n, parent) && Summed(c, t) && RemoveState(c, t) && c.Frame? && c.side == d
      requires c.sib.Node? && !c.sib.red && c.sib.Near(d).Red() && !c.sib.Far(d).Red()
      requires c.id == parent && c.sib.id == tmp && parent in h && tmp in h
      requires var o := h[tmp].Kid(d); o == c.sib.Near(d).id && o != NIL && o in h
      modifies this`h, this`root, this`sum
      ensures var s := c.sib; var m := s.Near(d);
              c' == c.(sib := Build(d, m.Near(d), m.id, false, Build(d, m.Far(d), s.id, true, s.Far(d))))
      ensures At(c', t, n, parent) && Summed(c', t) && RemoveState(c', t)
      ensures Inorder(Plug(c', t)) == Inorder(Plug(c, t))
    {
      hide IsTree, IsCtx, Apart, Inorder, Plug, Summed, Recolour, RecolourCtx, RemoveState;
      RemoveInnerNephew(c, t);
      CtxParent(c, t, n, parent);
      var oinner := h[tmp].Kid(d);
      var e := d.Other();
      ghost var s, m := c.sib, c.sib.Near(d);
      RecolourNephew(c, t, d, false);
      if oinner != NIL {
        SetColour(oinner, false, c, t, n, parent);
      }
      c' := c.(sib := Build(d, m.Paint(false), s.id, s.red, s.Far(d)));
      RecolourSibling(c', t, true);
      SetColour(tmp, true, c', t, n, parent);
      ghost var s' := Build(d, m.Paint(false), s.id, true, s.Far(d));
      c' := c'.(sib := s');
      ghost var gp := h[parent].parent;
      Ascend(c', t, n, parent);
      Descend(c.up, Build(d, t, parent, c.red, s'), parent, gp, e);
      ghost var side := Frame(e, parent, c.red, t, c.up);
      Rotate(e, tmp, side, s', parent);
      Ascend(side, Turn(e, s'), m.id, parent);
      c' := c.(sib := Turn(e, s'));
      CtxParent(c.up, Build(d, t, parent, c.red, Turn(e, s')), parent, h[parent].parent);
      Descend(c.up, Build(d, t, parent, c.red, Turn(e, s')), parent, h[parent].parent, d);
      HoleStays(c', t, n, parent);
    }

    /** Case "outer nephew red": one rotation of the parent ends the repair. */
    method RemoveFinish(n: int, parent: int, d: Side, tmp: int, ghost c: Ctx, ghost t: Tree) returns (ghost whole: Tree)
      requires At(c, t, n, parent) && Summed(c, t) && RemoveState(c, t) && !t.Red() && c.Frame? && c.side == d
      requires c.sib.Node? && !c.sib.red && c.sib.Far(d).Red()
      requires c.id == parent && c.sib.id == tmp && parent in h && tmp in h && h[parent].red == c.red
      requires var o := h[tmp].Kid(d.Other()); o == c.sib.Far(d).id && o != NIL && o in h
      modifies this`h, this`root, this`sum
      ensures Is(whole) && IsRedBlack(whole) && whole.Node? && Inorder(whole) == Inorder(Plug(c, t))
    {
      hide IsTree, IsCtx, Apart, Inorder, Plug, Summed, Recolour, RecolourCtx, RemoveState, IsRedBlack;
      RemoveOuterNephew(c, t);
      ghost var s, far := c.sib, c.sib.Far(d).Paint(false);
      RecolourSibling(c, t, c.red);
      SetColour(tmp, h[parent].red, c, t, n, parent);
      ghost var c' := c.(sib := s.Paint(c.red));
      RecolourParent(c', t, false);
      SetColour(parent, false, c', t, n, parent);
      c' := c'.(red := false);
      RecolourNephew(c', t, d.Other(), false);
      if h[tmp].Kid(d.Other()) != NIL {
        SetColour(h[tmp].Kid(d.Other()), false, c', t, n, parent);
      }
      c' := c'.(sib := Build(d, s.Near(d), s.id, c.red, far));
      Ascend(c', t, n, parent);
      ghost var b := Build(d, t, parent, false, c'.sib);
      ghost var gp := h[parent].parent;
      Rotate(d, parent, c.up, b, gp);
      whole := Plug(c.up, Turn(d, b));
      ToTop(c.up, Turn(d, b), tmp, gp);
    }

    /** The hole of a context holds exactly one node number. */
    lemma HoleStays(c: Ctx, t: Tree, n: int, p: int)
      requires p in h && c.Frame? && At(c, t, h[p].Kid(c.side), p)
      requires t.Nil? ==> n == NIL
      requires t.Node? ==> n == t.id
      ensures At(c, t, n, p)
    {
    }

    /** The sibling has a red child: at most two rotations end the repair. */
    method RemoveByNephew(n: int, parent: int, d: Side, tmp0: int, ghost c0: Ctx, ghost t: Tree)
      returns (ghost whole: Tree)
      requires At(c0, t, n, parent) && Summed(c0, t) && RemoveState(c0, t) && !t.Red() && c0.Frame? && c0.side == d
      requires c0.sib.Node? && !c0.sib.red && (c0.sib.Near(d).Red() || c0.sib.Far(d).Red()) && c0.sib.id == tmp0
      modifies this`h, this`root, this`sum
      ensures Is(whole) && IsRedBlack(whole) && whole.Node? && Inorder(whole) == Inorder(Plug(c0, t))
    {
      hide IsTree, IsCtx, Apart, Inorder, Plug, Summed, RemoveState, IsRedBlack;
      var tmp := tmp0;
      ghost var c := c0;
      RemoveView(c, t, n, parent);
      if h[tmp].Kid(d.Other()) == NIL || !h[h[tmp].Kid(d.Other())].red {
        c := RemoveTurnNephew(n, parent, d, tmp, c, t);
        RemoveView(c, t, n, parent);
        tmp := h[parent].Kid(d.Other());
      }
      whole := RemoveFinish(n, parent, d, tmp, c, t);
    }

    method BlackenFocus(n: int, ghost c: Ctx, ghost t: Tree, ghost p: int) returns (ghost whole: Tree)
      requires At(c, t, n, p) && Summed(c, t) && (t.Nil? ==> c.Top?)
      modifies this`h
      ensures whole == Plug(c, t.Paint(false)) && Is(whole) && Inorder(whole) == Inorder(Plug(c, t))
    {
      hide IsTree, IsCtx, Apart, Inorder;
      CtxParent(c, t, n, p);
      whole := Plug(c, t.Paint(false));
      if n != NIL {
        RecolourFocus(c, t, false);
        SetColour(n, false, c, t, n, p);
        ToTop(c, t.Paint(false), n, p);
      }
    }

    /** The sibling, which is turned away first if it is red. */
    method RemoveBlackSibling(n: int, parent: int, d: Side, ghost c: Ctx, ghost t: Tree)
      returns (tmp: int, ghost c': Ctx)
      requires At(c, t, n, parent) && Summed(c, t) && RemoveState(c, t) && !t.Red() && c.Frame? && c.side == d
      modifies this`h, this`root, this`sum
      ensures At(c', t, n, parent) && Summed(c', t) && RemoveState(c', t)
      ensures c'.Frame? && c'.side == d && c'.sib.Node? && !c'.sib.red && c'.id == parent && c'.sib.id == tmp
      ensures Depth(c'.up) < Depth(c) || (Depth(c'.up) == Depth(c) && c'.red)
      ensures Inorder(Plug(c', t)) == Inorder(Plug(c, t)) && parent in h && tmp in h
      ensures h[parent].Kid(d.Other()) == tmp
    {
      hide IsTree, IsCtx, Apart, Inorder, Plug, Summed, IsRedBlack, Is;
      SiblingExists(c, t);
      RemoveView(c, t, n, parent);
      c' := c;
      tmp := h[parent].Kid(d.Other());
      if h[tmp].red {
        RemoveRedSibling(c, t);
        hide RemoveState;
        c' := RemoveTurnSibling(n, parent, d, tmp, c, t);
        SiblingExists(c', t);
        RemoveView(c', t, n, parent);
        tmp := h[parent].Kid(d.Other());
      }
    }

    lemma WholeAt(whole: Tree)
      requires Is(whole)
      ensures At(Top, whole, root, NIL) && Summed(Top, whole)
    {
    }

    method RebalanceRemove(parent0: int, n0: int, ghost c0: Ctx, ghost t0: Tree) returns (ghost whole: Tree)
      requires At(c0, t0, n0, parent0) && Summed(c0, t0) && RemoveState(c0, t0)
      modifies this`h, this`root, this`sum
      ensures Is(whole) && IsRedBlack(whole) && Inorder(whole) == Inorder(Plug(c0, t0))
    {
      hide IsTree, IsCtx, Apart, Inorder, Plug, Summed, RemoveState, IsRedBlack, At, Is;
      var n, parent := n0, parent0;
      ghost var c, t := c0, t0;
      ghost var done := false;
      whole := Nil;
      CtxParent(c, t, n, parent);
      while (n == NIL || !h[n].red) && n != root
        invariant !done ==> At(c, t, n, parent) && Summed(c, t) && RemoveState(c, t)
        invariant !done ==> (n == NIL <==> t.Nil?) && (t.Node? ==> n == t.id && n in h && h[n].red == t.red)
        invariant !done ==> Inorder(Plug(c, t)) == Inorder(Plug(c0, t0))
        invariant done ==> n == root && n != NIL && n in h && Is(whole) && IsRedBlack(whole) && whole.Node?
        invariant done ==> Inorder(whole) == Inorder(Plug(c0, t0))
        decreases if done then 0 else 1, Depth(c), if t.Red() then 0 else 1
      {
        RootIsTop(c, t, n, parent);
        SiblingExists(c, t);
        RemoveView(c, t, n, parent);
        var d := if h[parent].left == n then Left else Right;
        ghost var depth := Depth(c);
        var tmp;
        tmp, c := RemoveBlackSibling(n, parent, d, c, t);
        RemoveView(c, t, n, parent);
        assert h[tmp].Kid(Left) == h[tmp].left && h[tmp].Kid(Right) == h[tmp].right;
        assert c.sib.Near(Left) == c.sib.left && c.sib.Near(Right) == c.sib.right;
        if (h[tmp].left == NIL || !h[h[tmp].left].red) && (h[tmp].right == NIL || !h[h[tmp].right].red) {
          c, t := RemovePushUp(n, parent, tmp, c, t);
          n := parent;
          parent := h[n].parent;
          CtxParent(c, t, n, parent);
          assert Depth(c) < depth || (Depth(c) == depth && t.Red());
        } else {
          whole := RemoveByNephew(n, parent, d, tmp, c, t);
          done := true;
          n := root;
          WholeAt(whole);
          CtxParent(Top, whole, root, NIL);
        }
      }
      ghost var p := if done then NIL else parent;
      if done {
        c, t := Top, whole;
        RedBlackRootIsBlack(whole);
        WholeAt(whole);
        CtxParent(c, t, n, p);
      } else {
        RootIsTop(c, t, n, parent);
        RemoveDone(c, t);
      }
      whole := BlackenFocus(n, c, t, p);
    }

    /** Repairs the summaries above a subtree that has just been put in place. */
    method FixAbove(child: int, parent: int, ghost c: Ctx, ghost t: Tree)
      requires At(c, t, child, parent) && BlocksPlaced(c, t)
      requires augmented ==> SumsOk(sum, size, t) && SibSums(sum, size, c)
      modifies this`sum
      ensures Summed(c, t)
    {
      assert Stale(c, t);
      hide IsTree, IsCtx, Apart, SumsOk, CtxSums, SibSums, Placed, Inorder;
      CtxParent(c, t, child, parent);
      if parent != NIL {
        Ascend(c, t, child, parent);
        ghost var b, q := Build(c.side, t, c.id, c.red, c.sib), h[parent].parent;
        FixUp(parent, c.up, b, q);
        Descend(c.up, b, parent, q, c.side);
      } else {
        TopSums(t);
      }
    }

    lemma TopSums(t: Tree)
      ensures CtxSums(sum, size, Top, Inorder(t))
    {
    }

    /** Unlinks n, which has at most one child, on side d. */
    method UnlinkOne(n: int, child: int, ghost d: Side, ghost c: Ctx, ghost t: Tree, ghost p: int) returns (parent: int)
      requires At(c, t, n, p) && Summed(c, t) && t.Node? && t.Far(d).Nil? && n in h && child == h[n].Kid(d)
      modifies this`h, this`root, this`sum
      ensures parent == p && At(c, t.Near(d), child, parent) && Summed(c, t.Near(d))
      ensures Inorder(Plug(c, t.Near(d))) == Before(c) + Inorder(t.Near(d)) + After(c)
    {
      hide IsTree, IsCtx, Apart, Inorder, Plug, SumsOk, CtxSums, SibSums, Placed, Distinct, Summed, Stale, Splice;
      hide Before, After;
      ghost var b := t.Near(d);
      RebuildFromNear(d, t);
      CtxParent(c, t, n, p);
      SpliceLinks(h, root, n, p, c, d, b, t.red);
      UnlinkedBlocks(c, t, d);
      PlugInorder(c, b);
      SpliceInSteps(h, n, child);
      ghost var h0 := h;
      parent := h[n].parent;
      if child != NIL {
        h := SetParent(h, child, parent);
      }
      ReplaceChild(parent, n, child);
      assert h == Splice(h0, n, child);
      CtxParent(c, b, child, parent);
      FixAbove(child, parent, c, b);
    }

    lemma UnlinkedBlocks(c: Ctx, t: Tree, d: Side)
      requires Apart(c, t) && Summed(c, t) && t.Node? && t.Far(d).Nil?
      ensures BlocksPlaced(c, t.Near(d)) && (augmented ==> SumsOk(sum, size, t.Near(d)) && SibSums(sum, size, c))
    {
      hide Placed, SumsOk, CtxSums, SibSums, Plug, Inorder;
      var b := t.Near(d);
      if augmented {
        PlugSums(sum, size, c, t);
        var x, y := UnlinkOrder(c, t, d);
        PlacedWithout(x, t.id, y, size, POOL_LB, end);
        SumsOfChild(t, d);
      }
    }

    lemma SumsOfChild(t: Tree, d: Side)
      requires t.Node? && SumsOk(sum, size, t)
      ensures SumsOk(sum, size, t.Near(d))
      ensures t.Near(d).Node? ==> SumsOk(sum, size, t.Near(d).left) && SumsOk(sum, size, t.Near(d).right)
    {
    }

    lemma FixableHere(t: Tree, x: int, p: int)
      requires IsTree(h, x, p, t) && t.Node? && x in size
      requires SumsOk(sum, size, t.left) && SumsOk(sum, size, t.right)
      ensures Fixable(h, size, sum, x)
    {
    }

    lemma PlacedNode(c: Ctx, t: Tree, x: int)
      requires augmented && BlocksPlaced(c, t) && x in CtxNodes(c) + Nodes(t)
      ensures x in size
    {
      PlugNodes(c, t);
      InorderNodes(Plug(c, t));
    }

    /** The node with the next higher number below n's right child, as a path from there. */
    method Successor(old_: int, ghost c: Ctx, ghost t: Tree, ghost p: int)
      returns (n: int, ghost inner: Ctx, ghost tt: Tree)
      requires At(c, t, old_, p) && Summed(c, t) && t.Node? && t.right.Node? && old_ in h
      ensures var outer := Frame(Right, old_, t.red, t.left, c);
              && tt.Node? && tt.left.Nil? && n in h && At(Compose(inner, outer), tt, n, h[n].parent) &&
                Summed(Compose(inner, outer), tt)
              && Plug(Compose(inner, outer), tt) == Plug(c, t)
      ensures Before(inner) == [] && Plug(inner, tt) == t.right
    {
      hide IsTree, IsCtx, Apart, Inorder, Summed, Plug, Before, Compose;
      ghost var outer := Frame(Right, old_, t.red, t.left, c);
      CtxParent(c, t, old_, p);
      Descend(c, t, old_, p, Right);
      n := h[old_].right;
      inner, tt := Top, t.right;
      ComposeTop(outer, tt);
      CtxParent(outer, tt, n, old_);
      while h[n].left != NIL
        invariant tt.Node? && n in h && At(Compose(inner, outer), tt, n, h[n].parent) &&
                  Summed(Compose(inner, outer), tt)
        invariant Plug(Compose(inner, outer), tt) == Plug(c, t)
        invariant Before(inner) == [] && Plug(inner, tt) == t.right
        decreases tt
      {
        ghost var full := Compose(inner, outer);
        Descend(full, tt, n, h[n].parent, Left);
        CtxParent(Frame(Left, tt.id, tt.red, tt.right, full), tt.left, h[n].left, n);
        ComposeFrame(inner, outer, tt);
        n := h[n].left;
        inner := Frame(Left, tt.id, tt.red, tt.right, inner);
        tt := tt.left;
      }
      Descend(Compose(inner, outer), tt, n, h[n].parent, Left);
      CtxParent(Frame(Left, tt.id, tt.red, tt.right, Compose(inner, outer)), tt.left, h[n].left, n);
    }

    lemma ComposeTop(outer: Ctx, t: Tree)
      ensures Compose(Top, outer) == outer && Before(Top) == [] && Plug(Top, t) == t
    {
    }

    lemma ComposeFrame(inner: Ctx, outer: Ctx, t: Tree)
      requires t.Node?
      ensures var f := Frame(Left, t.id, t.red, t.right, inner);
              && Compose(f, outer) == Frame(Left, t.id, t.red, t.right, Compose(inner, outer))
              && Before(f) == Before(inner) && Plug(f, t.left) == Plug(inner, t)
    {
    }

    /** The successor's old parent, whose child has just changed, can be repaired. */
    lemma SplicedParent(c: Ctx, t: Tree, x: int, p: int)
      requires At(c, t, x, p) && c.Frame? && p in size && SumsOk(sum, size, t) && SibSums(sum, size, c)
      ensures Fixable(h, size, sum, p)
    {
      Ascend(c, t, x, p);
      FixableHere(Build(c.side, t, c.id, c.red, c.sib), p, h[p].parent);
    }

    /** Repairs on the path leave everything beside the path alone. */
    lemma PathRepairs(sum0: Sums, c: Ctx, t: Tree, u: int, v: int)
      requires Apart(c, t) && SumsOk(sum0, size, t) && SibSums(sum0, size, c)
      requires (u == NIL || u in PathNodes(c)) && (v == NIL || v in PathNodes(c))
      requires sum0.Keys <= sum.Keys &&
               forall i :: i in sum0 && (u == NIL || i != u) && (v == NIL || i != v) ==> sum[i] == sum0[i]
      ensures SumsOk(sum, size, t) && SibSums(sum, size, c)
    {
      PathAndSiblings(c);
      FrameSums(sum0, sum, size, size, t);
      FrameSibSums(sum0, sum, size, size, c);
    }

    /** The parent of the removed node, which now has the successor n below it, can be repaired. */
    lemma SubstitutedParent(h0: Heap, h1: Heap, c: Ctx, old_: int, q: int, n: int, top: int)
      requires n !in CtxNodes(c) && h1.Keys == h0.Keys && forall i :: i in h0 && i != n ==> h1[i] == h0[i]
      requires IsCtx(h0, top, NIL, old_, q, c) && c.Frame? && DistinctCtx(c) && old_ != NIL && old_ !in CtxNodes(c)
      requires q in h1 && h == Redirect(h1, q, old_, n)
      requires n in sum && q in size && SibSums(sum, size, c)
      ensures Fixable(h, size, sum, q)
    {
      FrameCtx(h0, h1, top, NIL, old_, q, c);
      ParentSide(h1, top, NIL, old_, q, c);
      assert IsTree(h1, h1[q].Kid(c.side.Other()), q, c.sib);
    }

    /** n takes over the links and the colour of old, and old's parent now points to n. */
    method AdoptLinks(old_: int, n: int, ghost inner: Ctx, ghost red: bool, ghost l: Tree, ghost c: Ctx, ghost t: Tree)
      requires old_ in h && n in h && n != old_ && n !in CtxNodes(c)
      requires IsCtx(h, root, NIL, old_, h[old_].parent, c) && DistinctCtx(c) && old_ !in CtxNodes(c) && old_ != NIL
      requires var q := h[old_].parent;
               q != old_ && (c.Top? ==> q == NIL) && (c.Frame? ==> q != NIL && q in h && q in CtxNodes(c))
      requires h[old_].parent == NIL || h[old_].parent in PathNodes(Compose(inner, Frame(Right, old_, red, l, c)))
      requires augmented ==>
               n in sum && SumsOk(sum, size, t) && SibSums(sum, size, Compose(inner, Frame(Right, old_, red, l, c)))
      requires augmented ==> SibSums(sum, size, c) && forall x :: x in CtxNodes(c) ==> x in size
      requires Apart(Compose(inner, Frame(Right, old_, red, l, c)), t)
      modifies this`h, this`root, this`sum
      ensures h == Redirect(old(h)[n := old(h)[old_]], old(h)[old_].parent, old_, n)
      ensures root == if old(h)[old_].parent == NIL then n else old(root)
      ensures augmented ==> SumsOk(sum, size, t) && SibSums(sum, size, Compose(inner, Frame(Right, n, red, l, c)))
    {
      hide IsTree, IsCtx, SumsOk, SibSums, Distinct, DistinctCtx, Nodes, CtxNodes, PathNodes, SibNodes, Compose;
      hide Apart, Fixed, Fixable;
      ghost var h0, sum0, root0 := h, sum, root;
      h := h[n := Link(h[old_].parent, h[old_].left, h[old_].right, h[old_].red)];
      ghost var h1 := h;
      var q := h[old_].parent;
      ReplaceChild(q, old_, n);
      if q != NIL {
        if augmented {
          SubstitutedParent(h0, h1, c, old_, q, n, root0);
        }
        FixInvariant(q);
      }
      if augmented {
        PlaceSums(sum0, inner, old_, red, l, c, t, q, n);
      }
    }

    /** Puts node n, already unlinked, in the place of old. */
    method TakePlace(old_: int, n: int, child: int, parent0: int, ghost inner: Ctx, ghost red: bool, ghost l: Tree,
                     ghost c: Ctx, ghost t: Tree)
      returns (parent: int)
      requires At(Compose(inner, Frame(Right, old_, red, l, c)), t, child, parent0) && l.Node? && DistinctCtx(c)
      requires n in h && n != NIL && n != old_ && n !in CtxNodes(inner) + CtxNodes(c) + Nodes(l) + Nodes(t)
      requires old_ in h && (h[n].parent == old_ <==> inner.Top?) && h[n].parent == parent0
      requires augmented ==>
               n in sum && SumsOk(sum, size, t) && SibSums(sum, size, Compose(inner, Frame(Right, old_, red, l, c)))
      requires augmented ==> forall x :: x in CtxNodes(c) ==> x in size
      requires Apart(Compose(inner, Frame(Right, n, red, l, c)), t)
      modifies this`h, this`root, this`sum
      ensures At(Compose(inner, Frame(Right, n, red, l, c)), t, child, parent)
      ensures augmented ==> SumsOk(sum, size, t) && SibSums(sum, size, Compose(inner, Frame(Right, n, red, l, c)))
    {
      hide IsTree, IsCtx, SumsOk, SibSums, Distinct, DistinctCtx, Nodes, CtxNodes, PathNodes, SibNodes, Compose;
      hide Apart, At;
      ghost var h0 := h;
      PlaceView(old_, n, child, parent0, inner, red, l, c, t);
      parent := parent0;
      if h[n].parent == old_ {
        parent := n;
      }
      AdoptLinks(old_, n, inner, red, l, c, t);
      h := SetParent(h, h[old_].left, n);
      if h[old_].right != NIL {
        h := SetParent(h, h[old_].right, n);
      }
      assert h == Substitute(h0, old_, n);
      PlacedAt(Compose(inner, Frame(Right, n, red, l, c)), t, child, parent);
    }

    lemma PlaceSums(sum0: Sums, inner: Ctx, old_: int, red: bool, l: Tree, c: Ctx, t: Tree, q: int, n: int)
      requires Apart(Compose(inner, Frame(Right, old_, red, l, c)), t) && SumsOk(sum0, size, t)
      requires SibSums(sum0, size, Compose(inner, Frame(Right, old_, red, l, c)))
      requires q == NIL || q in PathNodes(Compose(inner, Frame(Right, old_, red, l, c)))
      requires sum0.Keys <= sum.Keys && forall i :: i in sum0 && (q == NIL || i != q) ==> sum[i] == sum0[i]
      ensures SumsOk(sum, size, t) && SibSums(sum, size, Compose(inner, Frame(Right, n, red, l, c)))
    {
      PathRepairs(sum0, Compose(inner, Frame(Right, old_, red, l, c)), t, q, NIL);
      SameSibSums(inner, Frame(Right, old_, red, l, c), Frame(Right, n, red, l, c));
    }

    lemma PlacedAt(c: Ctx, t: Tree, x: int, p: int)
      requires IsCtx(h, root, NIL, x, p, c) && IsTree(h, x, p, t) && Apart(c, t)
      ensures At(c, t, x, p)
    {
    }

    lemma PlaceView(old_: int, n: int, x: int, p: int, inner: Ctx, red: bool, l: Tree, c: Ctx, t: Tree)
      requires At(Compose(inner, Frame(Right, old_, red, l, c)), t, x, p) && l.Node?
      requires n in h && n != NIL && n != old_ && n !in CtxNodes(inner) + CtxNodes(c) + Nodes(l) + Nodes(t) && old_ in h
      ensures var q := h[old_].parent;
              q != old_ && (c.Top? ==> q == NIL) && (c.Frame? ==> q != NIL && q in h && q in CtxNodes(c))
      ensures h[old_].left in h && (h[old_].right == NIL || h[old_].right in h)
      ensures h[old_].parent != NIL ==> h[old_].parent in PathNodes(Compose(inner, Frame(Right, old_, red, l, c)))
      ensures var h' := Substitute(h, old_, n); var p' := if inner.Top? then n else p;
              IsCtx(h', if c.Top? then n else root, NIL, x, p', Compose(inner, Frame(Right, n, red, l, c))) &&
                IsTree(h', x, p', t)
      ensures IsCtx(h, root, NIL, old_, h[old_].parent, c) && DistinctCtx(c) && old_ !in CtxNodes(c) && old_ != NIL
      ensures SibSums(sum, size, Compose(inner, Frame(Right, old_, red, l, c))) ==> SibSums(sum, size, c)
      ensures Apart(Compose(inner, Frame(Right, old_, red, l, c)), t)
    {
      var outer := Frame(Right, old_, red, l, c);
      SubstituteLinks(h, root, x, p, inner, old_, red, l, c, t, n);
      SplitLinks(h, root, NIL, x, p, inner, outer);
      SubstituteApart(inner, old_, red, l, c, t);
      ComposeSibSums(sum, size, inner, outer);
    }

    lemma SameSibSums(inner: Ctx, f: Ctx, g: Ctx)
      requires f.Frame? && g.Frame? && f.sib == g.sib && f.up == g.up
      ensures SibSums(sum, size, Compose(inner, f)) <==> SibSums(sum, size, Compose(inner, g))
    {
      ComposeSibSums(sum, size, inner, f);
      ComposeSibSums(sum, size, inner, g);
    }

    lemma SuccessorView(inner: Ctx, old_: int, red: bool, l: Tree, c: Ctx, tt: Tree)
      requires Apart(Compose(inner, Frame(Right, old_, red, l, c)), tt) && tt.Node? && tt.left.Nil?
      ensures var full := Compose(inner, Frame(Right, old_, red, l, c));
              full.Frame? && full.id in PathNodes(full) && full.id in CtxNodes(full) &&
                (full.id == old_ <==> inner.Top?)
      ensures DistinctCtx(c) && tt.id != old_ && tt.id !in CtxNodes(inner) + CtxNodes(c) + Nodes(l) + Nodes(tt.right)
      ensures tt.id !in CtxNodes(Compose(inner, Frame(Right, old_, red, l, c)))
      ensures tt == Build(Right, tt.right, tt.id, tt.red, Nil)
    {
      SubstituteApart(inner, old_, red, l, c, tt);
    }

    /** The summaries a spliced-out successor leaves behind. */
    lemma SuccessorSums(full: Ctx, tt: Tree)
      requires Summed(full, tt) && tt.Node? && augmented
      ensures SumsOk(sum, size, tt.right) && SibSums(sum, size, full) && tt.id in sum
    {
      PlugSums(sum, size, full, tt);
    }

    lemma SuccessorPlaced(inner: Ctx, old_: int, red: bool, l: Tree, c: Ctx, tt: Tree, r: Tree)
      requires Before(inner) == [] && Plug(inner, tt) == r && tt.Node? && tt.left.Nil?
      requires BlocksPlaced(c, Node(l, old_, red, r)) && Apart(c, Node(l, old_, red, r))
      ensures var c' := Compose(inner, Frame(Right, tt.id, red, l, c));
              && BlocksPlaced(c', tt.right) && Apart(c', tt.right)
              && Inorder(Plug(c', tt.right)) == (Before(c) + Inorder(l)) + (Inorder(r) + After(c))
    {
      SuccessorApart(inner, old_, red, l, c, tt.id, tt.red, tt.right, r);
      SuccessorOrder(inner, old_, red, l, c, tt.id, tt.red, tt.right, r);
      if augmented {
        PlacedWithout(Before(c) + Inorder(l), old_, Inorder(r) + After(c), size, POOL_LB, end);
      }
    }

    /** Takes the successor n out of its place; the summary of its parent may be computed from stale ones. */
    method SpliceOut(n: int, ghost full: Ctx, ghost tt: Tree) returns (child: int, parent: int)
      requires tt.Node? && n in h && At(full, tt, n, h[n].parent) && Summed(full, tt) && full.Frame?
      requires tt == Build(Right, tt.right, tt.id, tt.red, Nil) && full.id in PathNodes(full) &&
               full.id in CtxNodes(full)
      requires n !in CtxNodes(full) && n !in Nodes(tt.right)
      modifies this`h, this`root, this`sum
      ensures parent == old(h)[n].parent == full.id && At(full, tt.right, child, parent)
      ensures h.Keys == old(h.Keys) && h[n] == old(h)[n]
      ensures augmented ==> n in sum && SumsOk(sum, size, tt.right) && SibSums(sum, size, full)
    {
      hide IsTree, IsCtx, SumsOk, SibSums, Distinct, DistinctCtx, Nodes, CtxNodes, PathNodes, SibNodes, Apart;
      hide Inorder, Plug, Summed, Splice, Fixable, Fixed;
      ghost var h0, sum0 := h, sum;
      CtxParent(full, tt, n, h[n].parent);
      SpliceLinks(h, root, n, h[n].parent, full, Right, tt.right, tt.red);
      child := h[n].right;
      parent := h[n].parent;
      SpliceInSteps(h, n, child);
      if child != NIL {
        h := SetParent(h, child, parent);
      }
      ReplaceChild(parent, n, child);
      assert h == Splice(h0, n, child);
      CtxParent(full, tt.right, child, parent);
      if augmented {
        SuccessorSums(full, tt);
        PlacedFull(full, tt, parent);
        SplicedParent(full, tt.right, child, parent);
      }
      FixInvariant(parent);
      if augmented {
        PathRepairs(sum0, full, tt.right, parent, NIL);
      }
    }

    lemma PlacedFull(c: Ctx, t: Tree, x: int)
      requires augmented && Summed(c, t) && x in CtxNodes(c)
      ensures x in size
    {
      PlacedNode(c, t, x);
    }

    /** Unlinks a node with two children by moving its successor into its place. */
    method UnlinkTwo(old_: int, ghost c: Ctx, ghost t: Tree, ghost p: int)
      returns (child: int, parent: int, red: bool, ghost c': Ctx, ghost t': Tree)
      requires At(c, t, old_, p) && Summed(c, t) && t.Node? && t.left.Node? && t.right.Node? && old_ in h
      requires IsRedBlack(Plug(c, t))
      modifies this`h, this`root, this`sum
      ensures At(c', t', child, parent) && Summed(c', t')
      ensures if red then IsRedBlack(Plug(c', t')) else RemoveState(c', t')
      ensures Inorder(Plug(c', t')) == (Before(c) + Inorder(t.left)) + (Inorder(t.right) + After(c))
    {
      hide IsTree, IsCtx, SumsOk, SibSums, Distinct, DistinctCtx, Nodes, CtxNodes, PathNodes, SibNodes, Inorder, Plug;
      hide Apart, Summed, Before, After, RemoveState, IsRedBlack;
      var n;
      ghost var inner, tt;
      n, inner, tt := Successor(old_, c, t, p);
      ghost var outer := Frame(Right, old_, t.red, t.left, c);
      ghost var full := Compose(inner, outer);
      CtxParent(c, t, old_, p);
      CtxParent(full, tt, n, h[n].parent);
      SuccessorView(inner, old_, t.red, t.left, c, tt);
      RemoveStartRenamed(inner, outer, n, Right, tt.right, tt.red);
      PlacedAll(c, t);
      SuccessorPlaced(inner, old_, t.red, t.left, c, tt, t.right);
      red := h[n].red;
      child, parent := SpliceOut(n, full, tt);

      c', t' := Compose(inner, outer.(id := n)), tt.right;
      parent := TakePlace(old_, n, child, parent, inner, t.red, t.left, c, tt.right);
      FixAbove(child, parent, c', t');
    }

    lemma PlacedAll(c: Ctx, t: Tree)
      requires Summed(c, t)
      ensures BlocksPlaced(c, t) && (augmented ==> forall x :: x in CtxNodes(c) ==> x in size)
    {
      if augmented {
        forall x | x in CtxNodes(c) ensures x in size {
          PlacedNode(c, t, x);
        }
      }
    }

    /** Removes node n: the other nodes keep their identity and their order. */
    method Remove(n: int, ghost c: Ctx, ghost t: Tree, ghost p: int) returns (ghost whole: Tree)
      requires At(c, t, n, p) && Summed(c, t) && t.Node? && IsRedBlack(Plug(c, t))
      modifies this`h, this`root, this`sum
      ensures Is(whole) && IsRedBlack(whole)
      ensures Inorder(whole) == (Before(c) + Inorder(t.left)) + (Inorder(t.right) + After(c))
    {
      hide IsTree, IsCtx, Inorder, Plug, Apart, Summed, Before, After, RemoveState, IsRedBlack;
      var child, parent, red;
      ghost var c', t';
      CtxParent(c, t, n, p);
      KidLinks(c, t, n, p);
      if h[n].left == NIL {
        child := h[n].right;
        red := h[n].red;
        c', t' := c, t.right;
        RebuildFromNear(Right, t);
        RemoveStart(c, Right, t.right, n, t.red);
        UnlinkOneOrder(c, t, Right);
        parent := UnlinkOne(n, child, Right, c, t, p);
      } else if h[n].right == NIL {
        child := h[n].left;
        red := h[n].red;
        c', t' := c, t.left;
        RebuildFromNear(Left, t);
        RemoveStart(c, Left, t.left, n, t.red);
        UnlinkOneOrder(c, t, Left);
        parent := UnlinkOne(n, child, Left, c, t, p);
      } else {
        child, parent, red, c', t' := UnlinkTwo(n, c, t, p);
      }
      if !red {
        whole := RebalanceRemove(parent, child, c', t');
      } else {
        whole := Plug(c', t');
        WholeIs(c', t', child, parent);
      }
    }

    lemma UnlinkOneOrder(c: Ctx, t: Tree, d: Side)
      requires t.Node? && t.Far(d).Nil?
      ensures Before(c) + Inorder(t.Near(d)) + After(c) == (Before(c) + Inorder(t.left)) + (Inorder(t.right) + After(c))
    {
    }

    lemma KidLinks(c: Ctx, t: Tree, x: int, p: int)
      requires At(c, t, x, p) && t.Node?
      ensures x in h && (h[x].left == NIL <==> t.left.Nil?) && (h[x].right == NIL <==> t.right.Nil?)
    {
      assert IsTree(h, h[x].left, x, t.left) && IsTree(h, h[x].right, x, t.right);
    }

    lemma WholeIs(c: Ctx, t: Tree, x: int, p: int)
      requires At(c, t, x, p) && Summed(c, t)
      ensures Is(Plug(c, t))
    {
      if c.Frame? || t.Node? {
        ToTop(c, t, x, p);
      }
    }

    /** Enters node i as a child of parent in the hole of c; sz is its block size. */
    method Insert(i: int, parent: int, d: Side, sz: int, ghost c: Ctx) returns (ghost whole: Tree)
      requires At(c, Nil, NIL, parent) && Summed(c, Nil) && IsRedBlack(Plug(c, Nil))
      requires i != NIL && i !in CtxNodes(c) && (c.Frame? ==> c.side == d)
      requires augmented ==> end < U32 && Placed(Before(c) + [i] + After(c), size[i := sz], POOL_LB, end)
      modifies this
      ensures Is(whole) && IsRedBlack(whole) && Inorder(whole) == Before(c) + [i] + After(c)
      ensures size == old(size)[i := sz]
    {
      hide IsTree, IsCtx, Apart, Plug, InsertState, SumsOk, SibSums, CtxSums, Placed, IsRedBlack;
      ghost var h0, sum0, size0 := h, sum, size;
      var red := !(augmented && parent == NIL);
      ghost var t := Node(Nil, i, red, Nil);
      AttachLinks(h, root, i, parent, c, red);
      InsertStart(c, i);
      PlugInorder(c, t);
      assert Inorder(t) == [i];
      h := h[i := Link(parent, NIL, NIL, red)];
      size := size[i := sz];
      if augmented {
        sum := sum[i := Summary(i, i + sz, 0)];
        InsertSums(sum0, size0, i, sz, c);
      }
      if parent == NIL {
        root := i;
      } else {
        h := SetKid(h, parent, d, i);
      }
      assert h == Attach(h0, i, parent, if c.Top? then Left else c.side, red);
      if red {
        whole := RebalanceInsert(i, c, t, parent);
      } else {
        whole := t;
        InsertFirst(i, sz);
      }
    }

    lemma InsertSums(sum0: Sums, size0: Sizes, i: int, sz: int, c: Ctx)
      requires CtxSums(sum0, size0, c, []) && i !in CtxNodes(c)
      requires sum == sum0[i := Summary(i, i + sz, 0)] && size == size0[i := sz]
      ensures SibSums(sum, size, c) && SumsOk(sum, size, Nil)
    {
      PlugSums(sum0, size0, c, Nil);
      PathAndSiblings(c);
      FrameSibSums(sum0, sum, size0, size, c);
    }

    lemma InsertFirst(i: int, sz: int)
      requires i in size && size[i] == sz && i in sum && sum[i] == Summary(i, i + sz, 0)
      ensures SumsOk(sum, size, Node(Nil, i, false, Nil)) && CtxSums(sum, size, Top, [i])
      ensures IsRedBlack(Node(Nil, i, false, Nil)) && Plug(Top, Node(Nil, i, false, Nil)) == Node(Nil, i, false, Nil)
    {
      assert Inorder(Node(Nil, i, false, Nil)) == [i];
    }

    /** Changes the size of block n in place and repairs the summaries above it. */
    method Resize(n: int, k: int, ghost c: Ctx, ghost t: Tree, ghost p: int)
      requires At(c, t, n, p) && Summed(c, t) && t.Node? && augmented && t.id == n
      requires Placed(Inorder(Plug(c, t)), size[n := k], POOL_LB, end)
      modifies this`size, this`sum
      ensures size == old(size)[n := k] && Is(Plug(c, t))
    {
      hide IsTree, IsCtx, Inorder, SumsOk, CtxSums, SibSums, Placed;
      ghost var size0 := size;
      size := size[n := k];
      ResizeStale(size0, n, k, c, t);
      FixUp(n, c, t, p);
      ToTop(c, t, n, p);
    }

    lemma ResizeStale(size0: Sizes, n: int, k: int, c: Ctx, t: Tree)
      requires Apart(c, t) && t.Node? && t.id == n && SumsOk(sum, size0, t) && CtxSums(sum, size0, c, Inorder(t))
      requires size == size0[n := k]
      ensures SumsOk(sum, size, t.left) && SumsOk(sum, size, t.right) && SibSums(sum, size, c)
    {
      PlugSums(sum, size0, c, t);
      PathAndSiblings(c);
      FrameSums(sum, sum, size0, size, t.left);
      FrameSums(sum, sum, size0, size, t.right);
      FrameSibSums(sum, sum, size0, size, c);
    }
  }
}
