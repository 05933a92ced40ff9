/** The tsearch family: an ordered set of keys over the same red-black tree, with a caller-supplied
    comparison, and iteration along parent links. */
module SearchTrees {
  import opened Arithmetic
  import opened Trees
  import opened RedBlack
  import opened Links
  import opened RbTrees

  /** The comparison is a total preorder given by signs, as qsort's and tsearch's comparisons must be. */
  ghost predicate IsOrder<K(!new)>(compare: (K, K) -> int)
  {
    && (forall a, b :: compare(a, b) < 0 <==> compare(b, a) > 0)
    && (forall a, b, c :: compare(a, b) <= 0 && compare(b, c) <= 0 ==> compare(a, c) <= 0)
  }

  /** Mixed strict and weak steps compose to a strict one. */
  lemma StrictChain<K(!new)>(compare: (K, K) -> int, a: K, b: K, c: K)
    requires IsOrder(compare) && compare(a, b) <= 0 && compare(b, c) <= 0
    ensures compare(a, b) < 0 || compare(b, c) < 0 ==> compare(a, c) < 0
    ensures compare(a, b) == 0 <==> compare(b, a) == 0
  {
    if compare(a, c) >= 0 {
      assert compare(c, a) <= 0;
      assert compare(c, b) <= 0 && compare(b, a) <= 0;
    }
  }

  datatype Visit = Preorder | Postorder | Endorder | Leaf

  /** tdelete's result: nothing found, or the parent the removed node had. */
  datatype Deleted = NotFound | WasRoot | WasBelow(parent: int)

  datatype Call = Call(node: int, visit: Visit, depth: nat)

  /** The calls tree_walk makes for a subtree. */
  function Visits(t: Tree, depth: nat): seq<Call>
    requires t.Node?
  {
    if t.left.Nil? && t.right.Nil? then [Call(t.id, Leaf, depth)]
    else
      [Call(t.id, Preorder, depth)] +
      (if t.left.Node? then Visits(t.left, depth + 1) else []) +
      [Call(t.id, Postorder, depth)] +
      (if t.right.Node? then Visits(t.right, depth + 1) else []) +
      [Call(t.id, Endorder, depth)]
  }

  /** The nodes of the calls an in-order consumer listens to. */
  function Heard(s: seq<Call>): seq<int>
  {
    if s == [] then []
    else (if s[0].visit == Postorder || s[0].visit == Leaf then [s[0].node] else []) + Heard(s[1..])
  }

  lemma HeardFirst(s: seq<Call>)
    requires s != []
    ensures Heard(s) == Heard([s[0]]) + Heard(s[1..])
  {
    HeardOne(s[0]);
  }

  lemma {:induction false} HeardConcat(a: seq<Call>, b: seq<Call>)
    ensures Heard(a + b) == Heard(a) + Heard(b)
  {
    if a == [] {
      assert a + b == b;
    } else {
      HeardConcat(a[1..], b);
      HeardFirst(a);
      HeardFirst(a + b);
      assert (a + b)[1..] == a[1..] + b;
      hide Heard;
    }
  }

  lemma HeardOne(c: Call)
    ensures Heard([c]) == if c.visit == Postorder || c.visit == Leaf then [c.node] else []
  {
    assert [c][1..] == [];
  }

  /** Listening to postorder and leaf calls gives every key once, in order. */
  lemma {:induction false} WalkIsInorder(t: Tree, depth: nat)
    requires t.Node?
    ensures Heard(Visits(t, depth)) == Inorder(t)
    decreases t
  {
    if !(t.left.Nil? && t.right.Nil?) {
      var l := if t.left.Node? then Visits(t.left, depth + 1) else [];
      var r := if t.right.Node? then Visits(t.right, depth + 1) else [];
      if t.left.Node? {
        WalkIsInorder(t.left, depth + 1);
      }
      if t.right.Node? {
        WalkIsInorder(t.right, depth + 1);
      }
      assert Heard(l) == Inorder(t.left) && Heard(r) == Inorder(t.right);
      HeardJoin(t.id, depth, l, r);
    }
  }

  lemma HeardJoin(n: int, depth: nat, l: seq<Call>, r: seq<Call>)
    ensures Heard([Call(n, Preorder, depth)] + l + [Call(n, Postorder, depth)] + r + [Call(n, Endorder, depth)])
         == Heard(l) + [n] + Heard(r)
  {
    var pre, post, end := [Call(n, Preorder, depth)], [Call(n, Postorder, depth)], [Call(n, Endorder, depth)];
    HeardOne(pre[0]);
    HeardOne(post[0]);
    HeardOne(end[0]);
    hide Heard;
    HeardConcat(pre + l + post + r, end);
    HeardConcat(pre + l + post, r);
    HeardConcat(pre + l, post);
    HeardConcat(pre, l);
  }

  // ----- where the calls stand

  ghost function CalledNodes(s: seq<Call>): set<int>
  {
    set k | 0 <= k < |s| :: s[k].node
  }

  lemma CalledJoin(a: seq<Call>, b: seq<Call>)
    ensures CalledNodes(a + b) == CalledNodes(a) + CalledNodes(b)
  {
    var s := a + b;
    forall n ensures n in CalledNodes(s) <==> n in CalledNodes(a) + CalledNodes(b) {
      if n in CalledNodes(a) {
        var k :| 0 <= k < |a| && a[k].node == n;
        assert s[k] == a[k];
      } else if n in CalledNodes(b) {
        var k :| 0 <= k < |b| && b[k].node == n;
        assert s[|a| + k] == b[k];
      }
    }
  }

  function VisitsOf(t: Tree, depth: nat): seq<Call>
  {
    if t.Nil? then [] else Visits(t, depth)
  }

  lemma CalledAtOnce(n: int, v: Visit, depth: nat)
    ensures CalledNodes([Call(n, v, depth)]) == {n}
  {
    var s := [Call(n, v, depth)];
    assert s[0].node == n;
  }

  /** The nodes called are those of the subtree. */
  lemma {:induction false} CalledAll(t: Tree, depth: nat)
    ensures CalledNodes(VisitsOf(t, depth)) == Nodes(t)
    decreases t
  {
    if t.Node? {
      CalledAll(t.left, depth + 1);
      CalledAll(t.right, depth + 1);
      var n := t.id;
      var pre, post, end := [Call(n, Preorder, depth)], [Call(n, Postorder, depth)], [Call(n, Endorder, depth)];
      var l, r := VisitsOf(t.left, depth + 1), VisitsOf(t.right, depth + 1);
      CalledAtOnce(t.id, Leaf, depth);
      CalledAtOnce(t.id, Preorder, depth);
      CalledAtOnce(t.id, Postorder, depth);
      CalledAtOnce(t.id, Endorder, depth);
      hide CalledNodes;
      CalledJoin(pre + l + post + r, end);
      CalledJoin(pre + l + post, r);
      CalledJoin(pre + l, post);
      CalledJoin(pre, l);
    }
  }

  /** The calls of a subtree stand together in those of the whole tree, at the depth of their place, and all others
      are calls of nodes around it. */
  lemma {:induction false} CalledInside(c: Ctx, t: Tree) returns (pre: seq<Call>, post: seq<Call>)
    requires t.Node?
    ensures Plug(c, t).Node? && Visits(Plug(c, t), 0) == pre + Visits(t, Depth(c)) + post
    ensures CalledNodes(pre) <= CtxNodes(c) && CalledNodes(post) <= CtxNodes(c)
    decreases c
  {
    hide *;
    if c.Top? {
      pre, post := [], [];
      CalledHere(t);
    } else {
      FrameStep(c, t);
      var whole := Build(c.side, t, c.id, c.red, c.sib);
      var k := Depth(c.up);
      var before, after := CalledBeside(c.side, t, c.id, c.red, c.sib, k);
      pre, post := CalledInside(c.up, whole);
      JoinAround(pre, before, Visits(t, Depth(c)), after, post);
      CalledJoin(pre, before);
      CalledJoin(after, post);
      pre, post := pre + before, after + post;
    }
  }

  lemma CalledHere(t: Tree)
    requires t.Node?
    ensures Plug(Top, t) == t && Visits(t, 0) == [] + Visits(t, Depth(Top)) + [] && CalledNodes([]) == {}
  {
    assert [] + Visits(t, 0) + [] == Visits(t, 0);
  }

  lemma FrameStep(c: Ctx, t: Tree)
    requires c.Frame?
    ensures Build(c.side, t, c.id, c.red, c.sib).Node? && Depth(c) == Depth(c.up) + 1
    ensures Plug(c, t) == Plug(c.up, Build(c.side, t, c.id, c.red, c.sib))
    ensures CtxNodes(c) == {c.id} + Nodes(c.sib) + CtxNodes(c.up)
  {
  }

  lemma JoinAround(a: seq<Call>, b: seq<Call>, m: seq<Call>, c: seq<Call>, d: seq<Call>)
    ensures a + (b + m + c) + d == (a + b) + m + (c + d)
  {
  }

  lemma CalledBeside(side: Side, t: Tree, n: int, red: bool, sib: Tree, k: nat)
    returns (before: seq<Call>, after: seq<Call>)
    requires t.Node?
    ensures Visits(Build(side, t, n, red, sib), k) == before + Visits(t, k + 1) + after
    ensures CalledNodes(before) <= {n} + Nodes(sib) && CalledNodes(after) <= {n} + Nodes(sib)
  {
    hide *;
    var pre, post, end := [Call(n, Preorder, k)], [Call(n, Postorder, k)], [Call(n, Endorder, k)];
    var s, m := VisitsOf(sib, k + 1), Visits(t, k + 1);
    CalledAll(sib, k + 1);
    CalledAtOnce(n, Preorder, k);
    CalledAtOnce(n, Postorder, k);
    CalledAtOnce(n, Endorder, k);
    VisitsBuilt(side, t, n, red, sib, k);
    CalledJoin(pre, s);
    CalledJoin(post, s);
    if side == Left {
      before, after := pre, post + s + end;
      JoinLeft(pre, m, post, s, end);
      CalledJoin(post + s, end);
    } else {
      before, after := pre + s + post, end;
      CalledJoin(pre + s, post);
    }
  }

  lemma JoinLeft(a: seq<Call>, b: seq<Call>, c: seq<Call>, d: seq<Call>, e: seq<Call>)
    ensures a + b + c + d + e == a + b + (c + d + e)
  {
  }

  lemma VisitsBuilt(side: Side, t: Tree, n: int, red: bool, sib: Tree, k: nat)
    requires t.Node?
    ensures var pre, post, end := [Call(n, Preorder, k)], [Call(n, Postorder, k)], [Call(n, Endorder, k)];
            var s, m := VisitsOf(sib, k + 1), Visits(t, k + 1);
            Visits(Build(side, t, n, red, sib), k) ==
            if side == Left then pre + m + post + s + end else pre + s + post + m + end
  {
  }

  /** Where the calls of a node stand in a walk: a leaf has one, any other node three, before, between and behind the
      calls of exactly its left and exactly its right subtree, at its distance from the root; no other call is one
      of this subtree. */
  lemma WalkShape(c: Ctx, t: Tree)
    returns (pre: seq<Call>, l: seq<Call>, r: seq<Call>, post: seq<Call>)
    requires t.Node?
    ensures Plug(c, t).Node? && Visits(Plug(c, t), 0) ==
            if t.left.Nil? && t.right.Nil? then pre + [Call(t.id, Leaf, Depth(c))] + post
            else pre + ([Call(t.id, Preorder, Depth(c))] + l + [Call(t.id, Postorder, Depth(c))] + r +
                        [Call(t.id, Endorder, Depth(c))]) + post
    ensures CalledNodes(l) == Nodes(t.left) && CalledNodes(r) == Nodes(t.right)
    ensures CalledNodes(pre) <= CtxNodes(c) && CalledNodes(post) <= CtxNodes(c)
  {
    hide CalledNodes;
    pre, post := CalledInside(c, t);
    l, r := VisitsOf(t.left, Depth(c) + 1), VisitsOf(t.right, Depth(c) + 1);
    CalledAll(t.left, Depth(c) + 1);
    CalledAll(t.right, Depth(c) + 1);
  }

  function EndOf(d: Side, s: seq<int>): int
  {
    if s == [] then NIL else if d == Left then s[0] else s[|s| - 1]
  }

  /** The number listed next to position i on side d. */
  ghost function Next(d: Side, ids: seq<int>, i: int): int
    requires 0 <= i < |ids|
  {
    if d == Right then (if i + 1 < |ids| then ids[i + 1] else NIL) else (if i > 0 then ids[i - 1] else NIL)
  }

  class SearchTree<K(!new)> {
    const tree: RbTree
    const compare: (K, K) -> int
    var key: map<int, K>
    ghost var shape: Tree

    constructor (compare: (K, K) -> int)
      requires IsOrder(compare)
      ensures Valid() && fresh(tree) && shape == Nil && this.compare == compare
    {
      tree := new RbTree(false, 0);
      this.compare := compare;
      key := map[];
      shape := Nil;
    }

    ghost predicate Valid()
      reads this, tree
    {
      && !tree.augmented && IsOrder(compare)
      && tree.Is(shape) && IsRedBlack(shape)
      && Sorted(Inorder(shape))
    }

    /** Keys ascend strictly along the nodes. */
    ghost predicate Sorted(ids: seq<int>)
      reads this
    {
      SortedWith(ids, key)
    }

    /** k lies strictly after all keys of a and strictly before all keys of b. */
    ghost predicate Between(a: seq<int>, k: K, b: seq<int>)
      reads this
    {
      && (forall i :: 0 <= i < |a| ==> a[i] in key && compare(key[a[i]], k) < 0)
      && (forall i :: 0 <= i < |b| ==> b[i] in key && compare(k, key[b[i]]) < 0)
    }

    /** Some node holds a key equal to k. */
    ghost predicate Contains(k: K)
      reads this
    {
      exists n :: n in Nodes(shape) && n in key && compare(k, key[n]) == 0
    }

    lemma NodesAreNumbers()
      requires Valid()
      ensures NIL !in Nodes(shape)
    {
      Links.NilIsNoNode(tree.h, tree.root, NIL, shape);
    }

    lemma OrderOf()
      requires Valid()
      ensures IsOrder(compare)
    {
    }

    lemma Facts()
      requires Valid()
      ensures tree.At(Top, shape, tree.root, NIL) && tree.Summed(Top, shape)
      ensures Plug(Top, shape) == shape && Before(Top) == [] && After(Top) == []
      ensures Nodes(shape) == Elements(Inorder(shape))
    {
      InorderNodes(shape);
    }

    // ----- the common search

    lemma SortedParts(a: seq<int>, n: int, b: seq<int>, k: K)
      requires IsOrder(compare) && Sorted(a + [n] + b)
      ensures n in key
      ensures compare(k, key[n]) <= 0 ==> Between([], k, b)
      ensures compare(k, key[n]) >= 0 ==> Between(a, k, [])
      ensures Between(a, key[n], b)
    {
      var s := a + [n] + b;
      assert s[|a|] == n;
      forall i | 0 <= i < |a|
        ensures a[i] in key && compare(key[a[i]], key[n]) < 0 && (compare(k, key[n]) >= 0 ==> compare(key[a[i]], k) < 0)
      {
        assert s[i] == a[i];
        if compare(k, key[n]) >= 0 {
          StrictChain(compare, key[a[i]], key[n], k);
        }
      }
      forall i | 0 <= i < |b|
        ensures b[i] in key && compare(key[n], key[b[i]]) < 0 && (compare(k, key[n]) <= 0 ==> compare(k, key[b[i]]) < 0)
      {
        assert s[|a| + 1 + i] == b[i];
        if compare(k, key[n]) <= 0 {
          StrictChain(compare, k, key[n], key[b[i]]);
        }
      }
    }

    lemma LookupStep(c: Ctx, t: Tree, k: K)
      requires Valid() && Plug(c, t) == shape && t.Node? && Between(Before(c), k, After(c))
      ensures t.id in key
      ensures compare(k, key[t.id]) < 0 ==>
              var c' := Frame(Left, t.id, t.red, t.right, c); Between(Before(c'), k, After(c'))
      ensures compare(k, key[t.id]) > 0 ==>
              var c' := Frame(Right, t.id, t.red, t.left, c); Between(Before(c'), k, After(c'))
    {
      hide IsRedBlack, IsTree, IsCtx, SortedWith, Between;
      PlugInorder(c, t);
      var l, n, r := Inorder(t.left), t.id, Inorder(t.right);
      assert Inorder(t) == l + [n] + r;
      FrameSides(c, t);
      hide Inorder, Before, After;
      RegroupRemove(Before(c), l, n, r, After(c));
      LookupSides(Before(c), l, n, r, After(c), k);
    }

    lemma FrameSides(c: Ctx, t: Tree)
      requires t.Node?
      ensures var f := Frame(Left, t.id, t.red, t.right, c);
              Before(f) == Before(c) && After(f) == [t.id] + Inorder(t.right) + After(c)
      ensures var f := Frame(Right, t.id, t.red, t.left, c);
              Before(f) == Before(c) + Inorder(t.left) + [t.id] && After(f) == After(c)
    {
    }

    lemma LookupSides(b: seq<int>, l: seq<int>, n: int, r: seq<int>, a: seq<int>, k: K)
      requires SortedWith((b + l) + [n] + (r + a), key) && IsOrder(compare) && Between(b, k, a)
      ensures n in key
      ensures compare(k, key[n]) < 0 ==> Between(b, k, [n] + r + a)
      ensures compare(k, key[n]) > 0 ==> Between(b + l + [n], k, a)
    {
      SortedParts(b + l, n, r + a, k);
      assert [n] + r + a == [n] + (r + a);
    }

    lemma LookupEnd(c: Ctx, k: K)
      requires Valid() && Plug(c, Nil) == shape && Between(Before(c), k, After(c))
      ensures !Contains(k) && Inorder(shape) == Before(c) + After(c)
    {
      hide IsRedBlack, IsTree, IsCtx, SortedWith, Before, After, Between;
      Facts();
      PlugInorder(c, Nil);
      assert Before(c) + [] + After(c) == Before(c) + After(c);
      NothingBetween(Before(c), k, After(c));
    }

    lemma NothingBetween(a: seq<int>, k: K, b: seq<int>)
      requires Between(a, k, b) && IsOrder(compare)
      ensures forall n :: n in Elements(a + b) && n in key ==> compare(k, key[n]) != 0
    {
      forall n | n in Elements(a + b) && n in key ensures compare(k, key[n]) != 0 {
        var j :| 0 <= j < |a + b| && (a + b)[j] == n;
        if j < |a| {
          assert a[j] == n && compare(key[n], k) < 0;
        } else {
          assert b[j - |a|] == n;
        }
      }
    }

    /** The node whose key equals k, or the empty place where k belongs. */
    method Lookup(k: K) returns (n: int, parent: int, side: Side, ghost c: Ctx, ghost t: Tree, ghost steps: nat)
      requires Valid()
      ensures tree.At(c, t, n, parent) && tree.Summed(c, t) && Plug(c, t) == shape && (c.Frame? ==> c.side == side)
      ensures n == NIL <==> t.Nil?
      ensures t.Nil? ==> !Contains(k) && Between(Before(c), k, After(c)) && Inorder(shape) == Before(c) + After(c)
      ensures t.Node? ==> t.id == n && n in Nodes(shape) && n in key && compare(k, key[n]) == 0
      ensures steps == Depth(c) && Pow2(steps) <= (|Inorder(shape)| + 1) * (|Inorder(shape)| + 1)
    {
      hide IsTree, IsCtx, Apart, Inorder, Plug, IsRedBlack, Before, After, Between, Sorted, IsOrder, Nodes, CtxNodes;
      Facts();
      n, parent, side := tree.root, NIL, Right;
      c, t, steps := Top, shape, 0;
      BetweenNothing(k);
      tree.CtxParent(c, t, n, parent);
      while n != NIL
        invariant tree.At(c, t, n, parent) && tree.Summed(c, t) && Plug(c, t) == shape && (c.Frame? ==> c.side == side)
        invariant Between(Before(c), k, After(c)) && steps == Depth(c)
        invariant n == NIL <==> t.Nil?
        decreases t
      {
        LookupStep(c, t, k);
        tree.CtxParent(c, t, n, parent);
        var cmp := compare(k, key[n]);
        if cmp == 0 {
          PlugNodes(c, t);
          RootIsNode(t);
          LookupSteps(c, t);
          return;
        }
        side := if cmp < 0 then Left else Right;
        tree.Descend(c, t, n, parent, side);
        parent := n;
        steps := steps + 1;
        n := tree.h[n].Kid(side);
        c, t := Frame(side, t.id, t.red, t.Far(side), c), t.Near(side);
        tree.CtxParent(c, t, n, parent);
      }
      LookupEnd(c, k);
      LookupSteps(c, t);
    }

    lemma RootIsNode(t: Tree)
      requires t.Node?
      ensures t.id in Nodes(t)
    {
    }

    lemma BetweenNothing(k: K)
      ensures Between([], k, [])
    {
    }

    lemma LookupSteps(c: Ctx, t: Tree)
      requires Valid() && Plug(c, t) == shape
      ensures Pow2(Depth(c)) <= (|Inorder(shape)| + 1) * (|Inorder(shape)| + 1)
    {
      DepthBound(c, t);
      Pow2Monotone(Depth(c), Height(shape));
      HeightIsLogarithmic(shape);
    }

    // ----- tfind, tsearch, tdelete

    method Tfind(k: K) returns (n: int)
      requires Valid()
      ensures n == NIL <==> !Contains(k)
      ensures n != NIL ==> n in Nodes(shape) && n in key && compare(k, key[n]) == 0
    {
      var parent, side;
      ghost var c, t, steps;
      n, parent, side, c, t, steps := Lookup(k);
      if n != NIL {
        assert Contains(k);
      }
    }

    /** mem is the memory for a new node, or NIL when it could not be allocated. */
    method Tsearch(k: K, mem: int) returns (n: int)
      requires Valid() && (mem != NIL ==> mem !in Nodes(shape))
      modifies this`key, this`shape, tree
      ensures Valid()
      ensures old(Contains(k)) || mem == NIL ==> shape == old(shape) && key == old(key)
      ensures old(Contains(k)) ==> n in Nodes(shape) && n in key && compare(k, key[n]) == 0
      ensures !old(Contains(k)) ==> n == mem
      ensures !old(Contains(k)) && mem != NIL ==>
              Nodes(shape) == old(Nodes(shape)) + {mem} && key == old(key)[mem := k]
    {
      hide IsTree, IsCtx, Apart, Inorder, Plug, IsRedBlack, Before, After, Between, SortedWith, IsOrder, Nodes;
      hide CtxNodes;
      var parent, side;
      ghost var c, t, steps;
      n, parent, side, c, t, steps := Lookup(k);
      if n != NIL {
        assert Contains(k);
        return;
      }
      if mem == NIL {
        return NIL;
      }
      ghost var nodes := Nodes(shape);
      PlugNodes(c, Nil);
      InsertedNodes(c, mem, k);
      key := key[mem := k];
      shape := tree.Insert(mem, parent, side, 0, c);
      InorderNodes(shape);
      n := mem;
    }

    lemma InsertedNodes(c: Ctx, i: int, k: K)
      requires Valid() && Inorder(shape) == Before(c) + After(c) && i !in Nodes(shape) &&
               Between(Before(c), k, After(c))
      ensures Elements(Before(c) + [i] + After(c)) == Nodes(shape) + {i}
      ensures SortedWith(Before(c) + [i] + After(c), key[i := k])
    {
      hide IsRedBlack, IsTree, IsCtx, SortedWith;
      InorderNodes(shape);
      var a, b := Before(c), After(c);
      assert i !in a + b by {
        assert i !in Elements(a + b);
      }
      SortedInsert(a, i, b, k);
      assert Elements(a + [i] + b) == Elements(a + b) + {i};
    }

    lemma SortedInsert(a: seq<int>, i: int, b: seq<int>, k: K)
      requires SortedWith(a + b, key) && Between(a, k, b) && i !in a + b && IsOrder(compare)
      ensures SortedWith(a + [i] + b, key[i := k])
    {
      var key' := key[i := k];
      SortedSplit(a, b);
      assert SortedWith(a, key') && SortedWith(b, key') && SortedWith([i], key');
      hide SortedWith, IsOrder;
      SortedJoin(a, [i], key');
      SortedJoin(a + [i], b, key');
    }

    lemma SortedJoin(x: seq<int>, y: seq<int>, keys: map<int, K>)
      requires SortedWith(x, keys) && SortedWith(y, keys)
      requires forall i, j :: 0 <= i < |x| && 0 <= j < |y| ==> compare(keys[x[i]], keys[y[j]]) < 0
      ensures SortedWith(x + y, keys)
    {
      var s := x + y;
      assert forall i :: 0 <= i < |s| ==> s[i] == if i < |x| then x[i] else y[i - |x|];
    }

    lemma SortedSplit(a: seq<int>, b: seq<int>)
      requires SortedWith(a + b, key)
      ensures SortedWith(a, key) && SortedWith(b, key)
      ensures forall i, j :: 0 <= i < |a| && 0 <= j < |b| ==> compare(key[a[i]], key[b[j]]) < 0
    {
      var s := a + b;
      assert forall i :: 0 <= i < |a| ==> a[i] == s[i];
      assert forall i :: 0 <= i < |b| ==> b[i] == s[|a| + i];
      forall i, j | 0 <= i < |a| && 0 <= j < |b| ensures compare(key[a[i]], key[b[j]]) < 0 {
        assert s[i] == a[i] && s[|a| + j] == b[j];
      }
    }

    ghost predicate SortedWith(ids: seq<int>, keys: map<int, K>)
    {
      && (forall i :: 0 <= i < |ids| ==> ids[i] in keys)
      && (forall i, j :: 0 <= i < j < |ids| ==> compare(keys[ids[i]], keys[ids[j]]) < 0)
    }

    /** Removes the node with an equal key; all other nodes stay, with their keys. */
    method Tdelete(k: K) returns (r: Deleted)
      requires Valid()
      modifies this`shape, tree
      ensures Valid() && key == old(key)
      ensures r.NotFound? <==> !old(Contains(k))
      ensures r.NotFound? ==> shape == old(shape)
      ensures !Contains(k)
      ensures !r.NotFound? ==>
              exists n :: n in old(Nodes(shape)) && n in key && compare(k, key[n]) == 0
                && Nodes(shape) == old(Nodes(shape)) - {n} && n in old(tree.h)
                && r == if old(tree.h)[n].parent == NIL then WasRoot else WasBelow(old(tree.h)[n].parent)
      ensures r.WasBelow? ==> r.parent in old(Nodes(shape))
    {
      hide IsTree, IsCtx, Apart, Inorder, Plug, IsRedBlack, Before, After, Between, SortedWith, IsOrder, Nodes;
      hide CtxNodes;
      var n, parent, side;
      ghost var c, t, steps;
      n, parent, side, c, t, steps := Lookup(k);
      if n == NIL {
        return NotFound;
      }
      assert Contains(k);
      ghost var nodes, p := Nodes(shape), parent;
      RemovedNodes(c, t, k);
      ParentNode(c, t, n, p);
      parent := tree.h[n].parent;
      shape := tree.Remove(n, c, t, p);
      InorderNodes(shape);
      assert Nodes(shape) == nodes - {n};
      r := if parent == NIL then WasRoot else WasBelow(parent);
    }

    lemma ParentNode(c: Ctx, t: Tree, n: int, p: int)
      requires Valid() && tree.At(c, t, n, p) && t.Node? && Plug(c, t) == shape
      ensures n in tree.h && tree.h[n].parent == p && (p != NIL ==> p in Nodes(shape))
    {
      PlugNodes(c, t);
    }

    lemma RemovedNodes(c: Ctx, t: Tree, k: K)
      requires Valid() && Plug(c, t) == shape && t.Node? && t.id in key && compare(k, key[t.id]) == 0
      ensures var ids := (Before(c) + Inorder(t.left)) + (Inorder(t.right) + After(c));
              && Elements(ids) == Nodes(shape) - {t.id} && SortedWith(ids, key)
              && forall n :: n in Elements(ids) && n in key ==> compare(k, key[n]) != 0
    {
      hide IsRedBlack, IsTree, IsCtx, Before, After;
      Facts();
      PlugInorder(c, t);
      var x, y := Before(c) + Inorder(t.left), Inorder(t.right) + After(c);
      assert Inorder(t) == Inorder(t.left) + [t.id] + Inorder(t.right);
      hide Inorder, Plug;
      RegroupRemove(Before(c), Inorder(t.left), t.id, Inorder(t.right), After(c));
      SortedRemove(x, t.id, y, k);
      ElementsWithout(x, t.id, y);
    }

    lemma SortedRemove(x: seq<int>, n: int, y: seq<int>, k: K)
      requires SortedWith(x + [n] + y, key) && IsOrder(compare) && n in key && compare(k, key[n]) == 0
      ensures SortedWith(x + y, key) && n !in x && n !in y
      ensures forall m :: m in Elements(x + y) && m in key ==> compare(k, key[m]) != 0
    {
      var s, u := x + [n] + y, x + y;
      SortedParts(x, n, y, k);
      forall i | 0 <= i < |u| ensures u[i] in key && u[i] == s[if i < |x| then i else i + 1] {
      }
      forall m | m in Elements(u) && m in key ensures compare(k, key[m]) != 0 {
        var j :| 0 <= j < |u| && u[j] == m;
        if j < |x| {
          assert x[j] == m;
        } else {
          assert y[j - |x|] == m;
        }
      }
      assert forall i :: 0 <= i < |x| ==> compare(key[x[i]], key[n]) < 0;
      assert forall i :: 0 <= i < |y| ==> compare(key[n], key[y[i]]) < 0;
      assert compare(key[n], key[n]) == 0;
    }

    // ----- iteration

    /** The first or last node of the whole tree: tmin for Left, tmax for Right. */
    method Extreme(d: Side) returns (n: int)
      requires Valid()
      ensures var ids := Inorder(shape); n == if ids == [] then NIL else if d == Left then ids[0] else ids[|ids| - 1]
    {
      hide IsTree, IsCtx, Apart, Inorder, Plug, IsRedBlack, SortedWith;
      Facts();
      n := tree.root;
      tree.CtxParent(Top, shape, n, NIL);
      if n != NIL {
        n := Deepest(d, n, Top, shape, NIL);
      } else {
        EmptyOrder();
      }
    }

    lemma EmptyOrder()
      ensures Inorder(Nil) == []
    {
    }

    /** Walks to the end of a subtree on side d. */
    method Deepest(d: Side, x: int, ghost c0: Ctx, ghost t0: Tree, ghost p0: int) returns (n: int)
      requires Valid() && tree.At(c0, t0, x, p0) && tree.Summed(c0, t0) && t0.Node?
      ensures n == EndOf(d, Inorder(t0))
    {
      hide IsTree, IsCtx, Apart, Inorder, Plug, IsRedBlack, SortedWith, Valid;
      n := x;
      ghost var c, t, p := c0, t0, p0;
      tree.CtxParent(c, t, n, p);
      tree.KidLinks(c, t, n, p);
      while tree.h[n].Kid(d) != NIL
        invariant t.Node? && tree.At(c, t, n, p) && tree.Summed(c, t) && n in tree.h
        invariant EndOf(d, Inorder(t)) == EndOf(d, Inorder(t0))
        invariant tree.h[n].Kid(d) == NIL <==> t.Near(d).Nil?
        invariant n == t.id
        decreases t
      {
        EndStep(d, t);
        tree.Descend(c, t, n, p, d);
        p := n;
        n := tree.h[n].Kid(d);
        c, t := Frame(d, t.id, t.red, t.Far(d), c), t.Near(d);
        tree.CtxParent(c, t, n, p);
        tree.KidLinks(c, t, n, p);
      }
      EndStep(d, t);
    }

    lemma EndStep(d: Side, t: Tree)
      requires t.Node?
      ensures EndOf(d, Inorder(t)) == if t.Near(d).Nil? then t.id else EndOf(d, Inorder(t.Near(d)))
    {
      var a, b := Inorder(t.left), Inorder(t.right);
      var s := a + [t.id] + b;
      assert d == Left ==> s[0] == if a == [] then t.id else a[0];
      assert d == Right ==> s[|s| - 1] == if b == [] then t.id else b[|b| - 1];
    }

    /** What lies beyond a subtree when walking towards side d. */
    ghost function Beyond(d: Side, c: Ctx): seq<int>
    {
      if d == Right then After(c) else Before(c)
    }

    lemma ClimbStep(d: Side, c: Ctx)
      ensures EndOf(d.Other(), Beyond(d, c)) ==
              if c.Top? then NIL else if c.side == d then EndOf(d.Other(), Beyond(d, c.up)) else c.id
    {
      if c.Frame? {
        var s := Inorder(c.sib);
        assert ([c.id] + s + After(c.up))[0] == c.id;
        assert (Before(c.up) + s + [c.id])[|Before(c.up)| + |s|] == c.id;
      }
    }

    /** On which side of its parent a node hangs. */
    lemma HoleSide(c: Ctx, t: Tree, n: int, p: int, d: Side)
      requires tree.At(c, t, n, p) && t.Node?
      ensures n == t.id && n in tree.h && tree.h[n].parent == p && (c.Top? <==> p == NIL)
      ensures c.Frame? ==> p in tree.h && p == c.id && (tree.h[p].Kid(d) == n <==> c.side == d)
    {
      tree.CtxParent(c, t, n, p);
      if c.Frame? {
        assert n in Nodes(t) && IsTree(tree.h, tree.h[p].Kid(c.side.Other()), p, c.sib);
        assert c.sib.Node? ==> c.sib.id in CtxNodes(c);
      }
    }

    /** The neighbour of a node, read off the tree around it. */
    lemma NeighbourPosition(d: Side, c: Ctx, t: Tree)
      requires Valid() && Plug(c, t) == shape && t.Node?
      ensures var ids := Inorder(shape); var e := d.Other();
              var r := if t.Near(d).Node? then EndOf(e, Inorder(t.Near(d))) else EndOf(e, Beyond(d, c));
              forall i :: 0 <= i < |ids| && ids[i] == t.id ==> r == Next(d, ids, i)
    {
      hide IsRedBlack, IsTree, IsCtx, SortedWith, Before, After, Distinct, NoDup;
      DistinctInorder(shape);
      PlugInorder(c, t);
      var l, n, r := Inorder(t.left), t.id, Inorder(t.right);
      assert Inorder(t) == l + [n] + r;
      hide Inorder;
      RegroupRemove(Before(c), l, n, r, After(c));
      NextInParts(d, Before(c), l, n, r, After(c));
    }

    lemma NextInParts(d: Side, b: seq<int>, l: seq<int>, n: int, r: seq<int>, a: seq<int>)
      requires NoDup((b + l) + [n] + (r + a))
      ensures var ids := (b + l) + [n] + (r + a);
              var near, out := if d == Left then l else r, if d == Left then b else a;
              forall i :: 0 <= i < |ids| && ids[i] == n ==>
                Next(d, ids, i) == if near != [] then EndOf(d.Other(), near) else EndOf(d.Other(), out)
    {
      var x, y := b + l, r + a;
      var ids := x + [n] + y;
      assert ids[|x|] == n;
      assert y != [] ==> ids[|x| + 1] == y[0];
      assert x != [] ==> ids[|x| - 1] == x[|x| - 1];
    }

    /** tnext (d = Right) and tprev (d = Left): the neighbour in key order, by links alone. */
    method Neighbour(d: Side, node: int) returns (n: int)
      requires Valid() && (node == NIL || node in Nodes(shape))
      ensures node == NIL ==> n == NIL
      ensures node != NIL ==>
              forall i :: 0 <= i < |Inorder(shape)| && Inorder(shape)[i] == node ==> n == Next(d, Inorder(shape), i)
    {
      hide IsTree, IsCtx, Apart, Inorder, Plug, IsRedBlack, SortedWith, Beyond, EndOf, Valid, Nodes, Next;
      n := node;
      if n == NIL {
        return;
      }
      Facts();
      ghost var c, t, p := tree.Locate(Top, shape, tree.root, NIL, n);
      NeighbourPosition(d, c, t);
      HoleSide(c, t, n, p, d.Other());
      tree.KidLinks(c, t, n, p);
      tree.Descend(c, t, n, p, d);
      if tree.h[n].Kid(d) != NIL {
        n := Deepest(d.Other(), tree.h[n].Kid(d), Frame(d, t.id, t.red, t.Far(d), c), t.Near(d), n);
      } else if tree.h[n].parent != NIL && n == tree.h[tree.h[n].parent].Kid(d.Other()) {
        ClimbStep(d, c);
        n := tree.h[n].parent;
      } else {
        ghost var target := EndOf(d.Other(), Beyond(d, c));
        HoleSide(c, t, n, p, d);
        while tree.h[n].parent != NIL && n == tree.h[tree.h[n].parent].Kid(d)
          invariant t.Node? && tree.At(c, t, n, p) && tree.Summed(c, t) && n in tree.h && tree.h[n].parent == p
          invariant c.Top? <==> p == NIL
          invariant c.Frame? ==> p in tree.h && p == c.id && (tree.h[p].Kid(d) == n <==> c.side == d)
          invariant EndOf(d.Other(), Beyond(d, c)) == target
          decreases c
        {
          ClimbStep(d, c);
          tree.Ascend(c, t, n, p);
          t := Build(c.side, t, c.id, c.red, c.sib);
          c := c.up;
          n := tree.h[n].parent;
          p := tree.h[n].parent;
          HoleSide(c, t, n, p, d);
        }
        ClimbStep(d, c);
        n := tree.h[n].parent;
      }
    }

    lemma NeighboursInvert(d: Side, i: int)
      requires 0 <= i < |Inorder(shape)|
      requires Next(d, Inorder(shape), i) != NIL
      ensures exists j :: 0 <= j < |Inorder(shape)| && Inorder(shape)[j] == Next(d, Inorder(shape), i)
                          && Next(d.Other(), Inorder(shape), j) == Inorder(shape)[i]
    {
      var j := if d == Right then i + 1 else i - 1;
      assert Inorder(shape)[j] == Next(d, Inorder(shape), i);
    }

    /** tprev undoes tnext, and the other way round. */
    method ThereAndBack(d: Side, node: int) returns (n: int, back: int)
      requires Valid() && node in Nodes(shape)
      ensures n != NIL ==> n in Nodes(shape) && back == node
      ensures n == NIL <==> node == EndOf(d, Inorder(shape))
    {
      hide IsTree, IsCtx, Apart, Inorder, Plug, IsRedBlack, SortedWith, EndOf, Valid, Nodes, Next;
      n := Neighbour(d, node);
      back := NIL;
      Facts();
      NodesAreNumbers();
      ghost var ids := Inorder(shape);
      ghost var i :| 0 <= i < |ids| && ids[i] == node;
      NextAtEnd(d, i);
      if n != NIL {
        NeighboursInvert(d, i);
        ghost var j :| 0 <= j < |ids| && ids[j] == n && Next(d.Other(), ids, j) == node;
        back := Neighbour(d.Other(), n);
      }
    }

    lemma NextAtEnd(d: Side, i: int)
      requires Valid() && 0 <= i < |Inorder(shape)|
      ensures Next(d, Inorder(shape), i) == NIL <==> Inorder(shape)[i] == EndOf(d, Inorder(shape))
    {
      Facts();
      DistinctInorder(shape);
      NodesAreNumbers();
      var ids := Inorder(shape);
      assert forall j :: 0 <= j < |ids| ==> ids[j] in Elements(ids);
    }

    /** Starting at the first node and following tnext until it gives nothing visits every node once,
        in ascending key order. */
    method Traverse() returns (visited: seq<int>)
      requires Valid()
      ensures visited == Inorder(shape)
    {
      var n := Extreme(Left);
      visited := [];
      ghost var ids := Inorder(shape);
      InorderNodes(shape);
      while n != NIL
        invariant |visited| <= |ids| && visited == ids[..|visited|]
        invariant n == if |visited| < |ids| then ids[|visited|] else NIL
        decreases |ids| - |visited|
      {
        assert n in Elements(ids);
        visited := visited + [n];
        n := Neighbour(Right, n);
        assert Next(Right, ids, |visited| - 1) == n;
      }
      NilIsNoNode(|visited|);
    }

    lemma NilIsNoNode(i: int)
      requires Valid()
      ensures 0 <= i < |Inorder(shape)| ==> Inorder(shape)[i] != NIL
    {
      Links.NilIsNoNode(tree.h, tree.root, NIL, shape);
      InorderNodes(shape);
      if 0 <= i < |Inorder(shape)| {
        assert Inorder(shape)[i] in Elements(Inorder(shape));
      }
    }

    /** tree_walk: the calls made for the subtree at node n. */
    method TreeWalk(n: int, depth: nat, ghost c: Ctx, ghost t: Tree, ghost p: int) returns (calls: seq<Call>)
      requires Valid() && tree.At(c, t, n, p) && tree.Summed(c, t) && t.Node?
      ensures calls == Visits(t, depth)
      decreases t
    {
      hide IsTree, IsCtx, Apart, Inorder, IsRedBlack, SortedWith, Nodes, Valid, IsOrder, Plug;
      tree.CtxParent(c, t, n, p);
      tree.KidLinks(c, t, n, p);
      var l, r := tree.h[n].left, tree.h[n].right;
      if l == NIL && r == NIL {
        return [Call(n, Leaf, depth)];
      }
      calls := [Call(n, Preorder, depth)];
      if l != NIL {
        tree.Descend(c, t, n, p, Left);
        var s := TreeWalk(l, depth + 1, Frame(Left, t.id, t.red, t.right, c), t.left, n);
        calls := calls + s;
      }
      calls := calls + [Call(n, Postorder, depth)];
      if r != NIL {
        tree.Descend(c, t, n, p, Right);
        var s := TreeWalk(r, depth + 1, Frame(Right, t.id, t.red, t.left, c), t.right, n);
        calls := calls + s;
      }
      calls := calls + [Call(n, Endorder, depth)];
    }
  }

  // ----- whole runs

  /** tsearch with the memory it may use (NIL when allocation fails), or tdelete. */
  datatype Op<K> = Put(key: K, mem: int) | Drop(key: K)

  /** Whether k is in the set after a run of insertions and deletions, up to the comparison. */
  ghost function Member<K(!new)>(compare: (K, K) -> int, ops: seq<Op<K>>, k: K): bool
  {
    if ops == [] then false
    else
      var before, last := Member(compare, ops[..|ops| - 1], k), ops[|ops| - 1];
      if last.Put? then before || (last.mem != NIL && compare(k, last.key) == 0)
      else before && compare(k, last.key) != 0
  }

  lemma SameKeys<K(!new)>(compare: (K, K) -> int, a: K, b: K, c: K)
    requires IsOrder(compare) && compare(a, b) == 0
    ensures compare(a, c) == 0 <==> compare(b, c) == 0
  {
    EqualBothWays(compare, a, b);
    EqualBothWays(compare, a, c);
    EqualBothWays(compare, b, c);
    assert compare(a, c) == 0 ==> compare(b, c) <= 0 && compare(c, b) <= 0;
    assert compare(b, c) == 0 ==> compare(a, c) <= 0 && compare(c, a) <= 0;
  }

  lemma EqualBothWays<K(!new)>(compare: (K, K) -> int, a: K, b: K)
    requires IsOrder(compare)
    ensures compare(a, b) == 0 <==> compare(b, a) == 0
    ensures compare(a, b) <= 0 && compare(b, a) <= 0 ==> compare(a, b) == 0
  {
    assert compare(a, b) < 0 <==> compare(b, a) > 0;
    assert compare(b, a) < 0 <==> compare(a, b) > 0;
  }

  /** Some node holds a key equal to k. */
  ghost predicate Among<K(!new)>(compare: (K, K) -> int, held: map<int, K>, k: K)
  {
    exists n :: n in held && compare(k, held[n]) == 0
  }

  ghost function WithKey<K(!new)>(compare: (K, K) -> int, held: map<int, K>, k: K, mem: int): map<int, K>
  {
    if mem == NIL || Among(compare, held, k) then held else held[mem := k]
  }

  ghost function WithoutKey<K(!new)>(compare: (K, K) -> int, held: map<int, K>, k: K): map<int, K>
  {
    map n | n in held && compare(k, held[n]) != 0 :: held[n]
  }

  /** The nodes of the tree after a run, with their keys: an insertion adds its memory unless an equal key is
      present, a deletion takes out the node with the equal key. */
  ghost function Held<K(!new)>(compare: (K, K) -> int, ops: seq<Op<K>>): map<int, K>
  {
    if ops == [] then map[]
    else
      var held, last := Held(compare, ops[..|ops| - 1]), ops[|ops| - 1];
      if last.Put? then WithKey(compare, held, last.key, last.mem) else WithoutKey(compare, held, last.key)
  }

  /** The tree consists of exactly these nodes, with these keys. */
  ghost predicate Holds<K(!new)>(t: SearchTree<K>, held: map<int, K>)
    reads t
  {
    Nodes(t.shape) == held.Keys && forall n :: n in held ==> n in t.key && t.key[n] == held[n]
  }

  lemma AmongWithKey<K(!new)>(compare: (K, K) -> int, held: map<int, K>, k: K, mem: int, x: K)
    requires IsOrder(compare) && (mem != NIL ==> mem !in held)
    ensures Among(compare, WithKey(compare, held, k, mem), x) <==>
            Among(compare, held, x) || (mem != NIL && compare(x, k) == 0)
  {
    hide IsOrder;
    var after := WithKey(compare, held, k, mem);
    if Among(compare, held, k) && compare(x, k) == 0 {
      var n :| n in held && compare(k, held[n]) == 0;
      SameKeys(compare, x, k, held[n]);
      assert compare(x, held[n]) == 0;
    } else if mem != NIL && !Among(compare, held, k) {
      assert mem in after && after[mem] == k;
      if Among(compare, held, x) {
        var n :| n in held && compare(x, held[n]) == 0;
        assert n in after && after[n] == held[n];
      }
    }
  }

  lemma AmongWithoutKey<K(!new)>(compare: (K, K) -> int, held: map<int, K>, k: K, x: K)
    requires IsOrder(compare)
    ensures Among(compare, WithoutKey(compare, held, k), x) <==> Among(compare, held, x) && compare(x, k) != 0
  {
    hide IsOrder;
    var after := WithoutKey(compare, held, k);
    if Among(compare, held, x) {
      var n :| n in held && compare(x, held[n]) == 0;
      SameKeys(compare, x, held[n], k);
      EqualBothWays(compare, held[n], k);
      assert compare(x, k) != 0 ==> n in after;
    }
    if Among(compare, after, x) {
      var n :| n in after && compare(x, after[n]) == 0;
      SameKeys(compare, x, after[n], k);
      EqualBothWays(compare, after[n], k);
    }
  }

  lemma ContainsIsAmong<K(!new)>(t: SearchTree<K>, held: map<int, K>, k: K)
    requires Holds(t, held)
    ensures t.Contains(k) <==> Among(t.compare, held, k)
  {
    if t.Contains(k) {
      var n :| n in Nodes(t.shape) && n in t.key && t.compare(k, t.key[n]) == 0;
      assert n in held && held[n] == t.key[n];
    }
    if Among(t.compare, held, k) {
      var n :| n in held && t.compare(k, held[n]) == 0;
      assert n in Nodes(t.shape) && t.key[n] == held[n];
    }
  }

  /** tsearch on a tree of known nodes. */
  method ServePut<K(!new)>(t: SearchTree<K>, k: K, mem: int, ghost held: map<int, K>) returns (n: int)
    requires t.Valid() && Holds(t, held) && (mem != NIL ==> mem !in held)
    modifies t, t.tree
    ensures t.Valid() && Holds(t, WithKey(t.compare, held, k, mem))
    ensures n == NIL <==> mem == NIL && !Among(t.compare, held, k)
    ensures n != NIL ==> var after := WithKey(t.compare, held, k, mem); n in after && t.compare(k, after[n]) == 0
    ensures forall x :: t.Contains(x) <==> old(t.Contains(x)) || (mem != NIL && t.compare(x, k) == 0)
  {
    hide SearchTree.Valid, IsOrder, SearchTree.Contains;
    t.OrderOf();
    t.NodesAreNumbers();
    SameKeyIsEqual(t.compare, k);
    forall x ensures t.Contains(x) <==> Among(t.compare, held, x) {
      ContainsIsAmong(t, held, x);
    }
    n := t.Tsearch(k, mem);
    ghost var after := WithKey(t.compare, held, k, mem);
    assert Holds(t, after);
    forall x ensures t.Contains(x) <==> Among(t.compare, held, x) || (mem != NIL && t.compare(x, k) == 0) {
      ContainsIsAmong(t, after, x);
      AmongWithKey(t.compare, held, k, mem, x);
    }
  }

  lemma SameKeyIsEqual<K(!new)>(compare: (K, K) -> int, k: K)
    requires IsOrder(compare)
    ensures compare(k, k) == 0
  {
    assert compare(k, k) < 0 <==> compare(k, k) > 0;
  }

  lemma DroppedNodes<K(!new)>(compare: (K, K) -> int, held: map<int, K>, k: K, keys: map<int, K>, left: set<int>)
    requires forall n :: n in held ==> n in keys && keys[n] == held[n]
    requires forall n :: n in left && n in keys ==> compare(k, keys[n]) != 0
    requires left == held.Keys ||
             exists n :: n in held && n in keys && compare(k, keys[n]) == 0 && left == held.Keys - {n}
    ensures left == WithoutKey(compare, held, k).Keys
  {
    forall n ensures n in left <==> n in WithoutKey(compare, held, k) {
      if n in held && left != held.Keys {
        var m :| m in held && m in keys && compare(k, keys[m]) == 0 && left == held.Keys - {m};
        assert n in left <==> n != m;
      }
    }
  }

  /** tdelete on a tree of known nodes. */
  method ServeDrop<K(!new)>(t: SearchTree<K>, k: K, ghost held: map<int, K>) returns (r: Deleted)
    requires t.Valid() && Holds(t, held)
    modifies t, t.tree
    ensures t.Valid() && Holds(t, WithoutKey(t.compare, held, k))
    ensures r.NotFound? <==> !Among(t.compare, held, k)
    ensures forall x :: t.Contains(x) <==> old(t.Contains(x)) && t.compare(x, k) != 0
  {
    hide SearchTree.Valid, IsOrder, SearchTree.Contains;
    t.OrderOf();
    ghost var nodes := Nodes(t.shape);
    forall x ensures t.Contains(x) <==> Among(t.compare, held, x) {
      ContainsIsAmong(t, held, x);
    }
    r := t.Tdelete(k);
    NoneLeft(t, k);
    ghost var after := WithoutKey(t.compare, held, k);
    DroppedNodes(t.compare, held, k, t.key, Nodes(t.shape));
    forall x ensures t.Contains(x) <==> Among(t.compare, held, x) && t.compare(x, k) != 0 {
      ContainsIsAmong(t, after, x);
      AmongWithoutKey(t.compare, held, k, x);
    }
  }

  lemma NoneLeft<K(!new)>(t: SearchTree<K>, k: K)
    requires !t.Contains(k)
    ensures forall n :: n in Nodes(t.shape) && n in t.key ==> t.compare(k, t.key[n]) != 0
  {
  }

  /** Every run of tsearch and tdelete on an empty tree, with any memory that is not in use at the time,
      leaves a red-black tree of exactly the nodes and keys the run describes, and so exactly its set, for
      any comparison that is a total preorder. */
  method ServeAll<K(!new)>(t: SearchTree<K>, ops: seq<Op<K>>)
    requires t.Valid() && t.shape == Nil
    requires forall i :: 0 <= i < |ops| && ops[i].Put? && ops[i].mem != NIL ==>
               ops[i].mem !in Held(t.compare, ops[..i])
    modifies t, t.tree
    ensures t.Valid() && Holds(t, Held(t.compare, ops))
    ensures forall x :: t.Contains(x) <==> Member(t.compare, ops, x)
  {
    hide SearchTree.Valid, SearchTree.Contains, WithKey, WithoutKey, Holds;
    NothingHeld(t);
    for i := 0 to |ops|
      invariant t.Valid() && Holds(t, Held(t.compare, ops[..i]))
      invariant forall x :: t.Contains(x) <==> Member(t.compare, ops[..i], x)
    {
      assert ops[..i + 1][..i] == ops[..i];
      match ops[i] {
        case Put(k, mem) => var n := ServePut(t, k, mem, Held(t.compare, ops[..i]));
        case Drop(k) => var r := ServeDrop(t, k, Held(t.compare, ops[..i]));
      }
    }
    assert ops[..|ops|] == ops;
  }

  lemma NothingHeld<K(!new)>(t: SearchTree<K>)
    requires t.shape == Nil
    ensures Holds(t, map[]) && forall x :: !t.Contains(x)
  {
  }
}
