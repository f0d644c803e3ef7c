/**
 AVL balance with stored heights, as a property of the ghost trees, and the two rotations of
 `avltree.c` together with the heights they write.
 */
module Balance {
  import opened LinkedTree

  datatype Heights = Heights(hl: int, hr: int)

  function Max(a: int, b: int): (r: int)
    ensures r >= a && r >= b && (r == a || r == b)
  {
    if a > b then a else b
  }

  /** The height a node reports through its two stored fields; 0 for a missing node. */
  ghost function Stored<K, V>(t: Tree<K, V, Heights>): int
  {
    if t.Leaf? then 0 else Max(t.attr.hl, t.attr.hr) + 1
  }

  /** Every stored height is the real height and every node is balanced. */
  ghost predicate Avl<K, V>(t: Tree<K, V, Heights>)
  {
    t.Bin? ==>
      && Avl(t.left) && Avl(t.right)
      && t.attr == Heights(Height(t.left), Height(t.right))
      && -1 <= Height(t.left) - Height(t.right) <= 1
  }

  /** The path is balanced around a hole of height `h`. The heights stored in its frames do
      not matter: the upward loop rewrites them. */
  ghost predicate CtxAvl<K, V>(c: Ctx<K, V, Heights>, h: int)
  {
    c.Top? ||
    (var s := Sibling(c);
     && Avl(s) && -1 <= h - Height(s) <= 1
     && CtxAvl(c.up, Max(h, Height(s)) + 1))
  }

  lemma StoredIsHeight<K, V>(t: Tree<K, V, Heights>)
    requires Avl(t)
    ensures Stored(t) == Height(t)
  {
  }

  ghost function AvlLeft<K, V>(t: Tree<K, V, Heights>): Tree<K, V, Heights>
    requires t.Bin? && t.right.Bin?
  {
    var r := t.right;
    var n := Bin(t.left, t.node, t.key, t.value, Heights(t.attr.hl, Stored(r.left)), r.left);
    Bin(n, r.node, r.key, r.value, Heights(Stored(n), r.attr.hr), r.right)
  }

  ghost function AvlRight<K, V>(t: Tree<K, V, Heights>): Tree<K, V, Heights>
    requires t.Bin? && t.left.Bin?
  {
    var l := t.left;
    var n := Bin(l.right, t.node, t.key, t.value, Heights(Stored(l.right), t.attr.hr), t.right);
    Bin(l.left, l.node, l.key, l.value, Heights(l.attr.hl, Stored(n)), n)
  }

  /** The stored height a rotation writes into the parent of the rotated subtree. */
  ghost function WithHeight<K, V>(c: Ctx<K, V, Heights>, h: int): Ctx<K, V, Heights>
  {
    match c
    case Top => Top
    case InLeft(up, n, k, v, a, r) => InLeft(up, n, k, v, Heights(h, a.hr), r)
    case InRight(up, l, n, k, v, a) => InRight(up, l, n, k, v, Heights(a.hl, h))
  }

  /** Writing a height into the innermost frame is relabelling the node one level up. */
  lemma WithHeightRaised<K, V>(c: Ctx<K, V, Heights>, h: int, t: Tree<K, V, Heights>)
    requires !c.Top?
    ensures var a := if c.InLeft? then Heights(h, c.attr.hr) else Heights(c.attr.hl, h);
      Raise(WithHeight(c, h), t) == Relabeled(Raise(c, t), c.key, c.value, a) && WithHeight(c, h).up == c.up
  {
  }

  lemma WithHeightSame<K, V>(c: Ctx<K, V, Heights>, h: int, t: Tree<K, V, Heights>)
    ensures Before(WithHeight(c, h)) == Before(c) && After(WithHeight(c, h)) == After(c)
    ensures CtxNodes(WithHeight(c, h)) == CtxNodes(c) && Depth(WithHeight(c, h)) == Depth(c)
    ensures forall g :: CtxAvl(WithHeight(c, h), g) <==> CtxAvl(c, g)
    ensures Root(Plug(WithHeight(c, h), t)) == Root(Plug(c, t))
    ensures Inorder(Plug(WithHeight(c, h), t)) == Inorder(Plug(c, t))
  {
    PlugInorder(c, t);
    PlugInorder(WithHeight(c, h), t);
    if !c.Top? && !c.up.Top? {
      PlugRoot(c.up, Raise(c, t), Raise(WithHeight(c, h), t));
    }
  }

  lemma AvlRotationSame<K, V>(t: Tree<K, V, Heights>)
    requires t.Bin?
    ensures t.right.Bin? ==> Inorder(AvlLeft(t)) == Inorder(t) && Nodes(AvlLeft(t)) == Nodes(t)
    ensures t.left.Bin? ==> Inorder(AvlRight(t)) == Inorder(t) && Nodes(AvlRight(t)) == Nodes(t)
  {
    if t.right.Bin? { RotateLeftInorder(t); }
    if t.left.Bin? { RotateRightInorder(t); }
  }

  // ---------- one rebalancing step ----------

  /** Heights the loop of `avlt_balance` may meet at a node whose subtree had height `h`
      before one of its children shrank by one. */
  ghost predicate Near(hl: int, hr: int, h: int)
  {
    && h - 1 <= Max(hl, hr) + 1 <= h
    && -2 <= hl - hr <= 2
    && (hl - hr == 2 || hl - hr == -2 ==> Max(hl, hr) + 1 == h)
  }

  /** Both subtrees are valid and the node itself may be off balance by two. */
  ghost predicate Loose<K, V>(t: Tree<K, V, Heights>, h: int)
  {
    t.Bin? && Avl(t.left) && Avl(t.right) && Near(Height(t.left), Height(t.right), h)
  }

  ghost function Measured<K, V>(t: Tree<K, V, Heights>): Tree<K, V, Heights>
    requires t.Bin?
  {
    Relabeled(t, t.key, t.value, Heights(Stored(t.left), Stored(t.right)))
  }

  /** The right-left case. */
  ghost predicate InnerHeavyRight<K, V>(t: Tree<K, V, Heights>)
  {
    t.Bin? && t.right.Bin? && t.right.attr.hl - t.right.attr.hr == 1
  }

  /** The left-right case. */
  ghost predicate InnerHeavyLeft<K, V>(t: Tree<K, V, Heights>)
  {
    t.Bin? && t.left.Bin? && t.left.attr.hl - t.left.attr.hr == -1
  }

  /** The nodes that the branch for a right-heavy node rotates exist. */
  ghost predicate RightFixable<K, V>(t: Tree<K, V, Heights>)
  {
    t.Bin? && t.right.Bin? && (InnerHeavyRight(t) ==> t.right.left.Bin?)
  }

  ghost predicate LeftFixable<K, V>(t: Tree<K, V, Heights>)
  {
    t.Bin? && t.left.Bin? && (InnerHeavyLeft(t) ==> t.left.right.Bin?)
  }

  /** The subtree after an inner heavy child has been rotated. */
  ghost function StraightRight<K, V>(t: Tree<K, V, Heights>): Tree<K, V, Heights>
    requires RightFixable(t)
  {
    if InnerHeavyRight(t) then InnerRight(t) else t
  }

  /** The subtree after an inner heavy child has been rotated. */
  ghost function StraightLeft<K, V>(t: Tree<K, V, Heights>): Tree<K, V, Heights>
    requires LeftFixable(t)
  {
    if InnerHeavyLeft(t) then InnerLeft(t) else t
  }

  /** The branch for a right-heavy node: an inner heavy child is rotated first. */
  ghost function FixRight<K, V>(t: Tree<K, V, Heights>): Tree<K, V, Heights>
    requires RightFixable(t)
  {
    AvlLeft(StraightRight(t))
  }

  ghost function InnerRight<K, V>(t: Tree<K, V, Heights>): (u: Tree<K, V, Heights>)
    requires t.Bin? && t.right.Bin? && t.right.left.Bin?
    ensures u.Bin? && u.right.Bin?
  {
    var r := AvlRight(t.right);
    Bin(t.left, t.node, t.key, t.value, Heights(t.attr.hl, Stored(r)), r)
  }

  ghost function FixLeft<K, V>(t: Tree<K, V, Heights>): Tree<K, V, Heights>
    requires LeftFixable(t)
  {
    AvlRight(StraightLeft(t))
  }

  ghost function InnerLeft<K, V>(t: Tree<K, V, Heights>): (u: Tree<K, V, Heights>)
    requires t.Bin? && t.left.Bin? && t.left.right.Bin?
    ensures u.Bin? && u.left.Bin?
  {
    var l := AvlLeft(t.left);
    Bin(l, t.node, t.key, t.value, Heights(Stored(l), t.attr.hr), t.right)
  }

  lemma AvlLeftSingle<K, V>(t: Tree<K, V, Heights>, h: int)
    requires Loose(t, h) && t == Measured(t) && t.attr.hl - t.attr.hr <= -2 && t.right.Bin? && !InnerHeavyRight(t)
    ensures Avl(AvlLeft(t)) && h - 1 <= Height(AvlLeft(t)) <= h
  {
    StoredIsHeight(t.left);
    StoredIsHeight(t.right);
    var s := t.right;
    assert Avl(s.left) && Avl(s.right);
    StoredIsHeight(s.left);
  }

  lemma AvlLeftDouble<K, V>(t: Tree<K, V, Heights>, h: int)
    requires Loose(t, h) && t == Measured(t) && t.attr.hl - t.attr.hr <= -2 && InnerHeavyRight(t) && t.right.left.Bin?
    ensures Avl(AvlLeft(InnerRight(t))) && h - 1 <= Height(AvlLeft(InnerRight(t))) <= h
  {
    StoredIsHeight(t.left);
    StoredIsHeight(t.right);
    var s := t.right;
    var m := s.left;
    assert Avl(s.left) && Avl(s.right);
    assert Avl(m.left) && Avl(m.right);
    StoredIsHeight(m.left);
    StoredIsHeight(m.right);
  }

  lemma FixRightAvl<K, V>(t: Tree<K, V, Heights>, h: int)
    requires Loose(t, h) && t == Measured(t) && t.attr.hl - t.attr.hr <= -2
    ensures RightFixable(t) && Avl(FixRight(t)) && h - 1 <= Height(FixRight(t)) <= h
    ensures FixRight(t).left.Bin? && FixRight(t).left.node == t.node
  {
    StoredIsHeight(t.left);
    StoredIsHeight(t.right);
    if InnerHeavyRight(t) {
      AvlLeftDouble(t, h);
    } else {
      AvlLeftSingle(t, h);
    }
  }

  lemma AvlRightSingle<K, V>(t: Tree<K, V, Heights>, h: int)
    requires Loose(t, h) && t == Measured(t) && t.attr.hl - t.attr.hr >= 2 && t.left.Bin? && !InnerHeavyLeft(t)
    ensures Avl(AvlRight(t)) && h - 1 <= Height(AvlRight(t)) <= h
  {
    StoredIsHeight(t.left);
    StoredIsHeight(t.right);
    var s := t.left;
    assert Avl(s.left) && Avl(s.right);
    StoredIsHeight(s.right);
  }

  lemma AvlRightDouble<K, V>(t: Tree<K, V, Heights>, h: int)
    requires Loose(t, h) && t == Measured(t) && t.attr.hl - t.attr.hr >= 2 && InnerHeavyLeft(t) && t.left.right.Bin?
    ensures Avl(AvlRight(InnerLeft(t))) && h - 1 <= Height(AvlRight(InnerLeft(t))) <= h
  {
    StoredIsHeight(t.left);
    StoredIsHeight(t.right);
    var s := t.left;
    var m := s.right;
    assert Avl(s.left) && Avl(s.right);
    assert Avl(m.left) && Avl(m.right);
    StoredIsHeight(m.left);
    StoredIsHeight(m.right);
  }

  lemma FixLeftAvl<K, V>(t: Tree<K, V, Heights>, h: int)
    requires Loose(t, h) && t == Measured(t) && t.attr.hl - t.attr.hr >= 2
    ensures LeftFixable(t) && Avl(FixLeft(t)) && h - 1 <= Height(FixLeft(t)) <= h
    ensures FixLeft(t).right.Bin? && FixLeft(t).right.node == t.node
  {
    StoredIsHeight(t.left);
    StoredIsHeight(t.right);
    if InnerHeavyLeft(t) {
      AvlRightDouble(t, h);
    } else {
      AvlRightSingle(t, h);
    }
  }

  lemma AvlIsLoose<K, V>(t: Tree<K, V, Heights>, h: int)
    requires t.Bin? && Avl(t) && h - 1 <= Height(t) <= h
    ensures Loose(t, h) && -1 <= Height(t.left) - Height(t.right) <= 1
  {
  }

  /** Going up from a repaired subtree meets the next node in a loose state. */
  lemma RaiseLoose<K, V>(c: Ctx<K, V, Heights>, t: Tree<K, V, Heights>, h: int)
    requires !c.Top? && Avl(t) && h - 1 <= Height(t) <= h && CtxAvl(c, h)
    ensures Loose(Raise(c, t), Max(h, Height(Sibling(c))) + 1)
    ensures CtxAvl(c.up, Max(h, Height(Sibling(c))) + 1)
  {
  }

  lemma FixSame<K, V>(c: Ctx<K, V, Heights>, t: Tree<K, V, Heights>, h: int)
    requires Loose(t, h) && t == Measured(t)
    ensures t.attr.hl - t.attr.hr <= -2 ==>
      && RightFixable(t)
      && Nodes(FixRight(t)) == Nodes(t) && Inorder(Plug(c, FixRight(t))) == Inorder(Plug(c, t))
    ensures t.attr.hl - t.attr.hr >= 2 ==>
      && LeftFixable(t)
      && Nodes(FixLeft(t)) == Nodes(t) && Inorder(Plug(c, FixLeft(t))) == Inorder(Plug(c, t))
  {
    if t.attr.hl - t.attr.hr <= -2 {
      FixRightAvl(t, h);
      if InnerHeavyRight(t) {
        AvlRotationSame(t.right);
        AvlRotationSame(InnerRight(t));
      } else {
        AvlRotationSame(t);
      }
      PlugSame(c, t, FixRight(t));
    } else if t.attr.hl - t.attr.hr >= 2 {
      FixLeftAvl(t, h);
      if InnerHeavyLeft(t) {
        AvlRotationSame(t.left);
        AvlRotationSame(InnerLeft(t));
      } else {
        AvlRotationSame(t);
      }
      PlugSame(c, t, FixLeft(t));
    }
  }

  /** How far the loop of `avlt_balance` still has to go: two visits per level at most. */
  ghost function Climb<K, V>(c: Ctx<K, V, Heights>, t: Tree<K, V, Heights>): nat
    requires t.Bin?
  {
    2 * Depth(c) + if -1 <= Height(t.left) - Height(t.right) <= 1 then 1 else 2
  }

  /** The loop goes on one level up, or at the same level with a node that is now balanced. */
  lemma ClimbLess<K, V>(c: Ctx<K, V, Heights>, t: Tree<K, V, Heights>, c': Ctx<K, V, Heights>, t': Tree<K, V, Heights>)
    requires t.Bin? && t'.Bin?
    requires || Depth(c') < Depth(c)
             || (&& Depth(c') == Depth(c) && -1 <= Height(t'.left) - Height(t'.right) <= 1
                 && !(-1 <= Height(t.left) - Height(t.right) <= 1))
    ensures Climb(c', t') < Climb(c, t)
  {
  }

  /** One frame more on a balanced path. */
  lemma FrameAvl<K, V>(e: Ctx<K, V, Heights>, s: Tree<K, V, Heights>, h: int, g: int)
    requires !e.Top? && Sibling(e) == s && Avl(s) && -1 <= h - Height(s) <= 1
    requires g == Max(h, Height(s)) + 1 && CtxAvl(e.up, g)
    ensures CtxAvl(e, h)
  {
  }

  lemma AvlParts<K, V>(t: Tree<K, V, Heights>)
    requires t.Bin? && Avl(t)
    ensures Avl(t.left) && Avl(t.right) && -1 <= Height(t.left) - Height(t.right) <= 1
    ensures Height(t) == Max(Height(t.left), Height(t.right)) + 1 == Max(Height(t.right), Height(t.left)) + 1
  {
  }

  /** Both children of a balanced place have a balanced path above them. */
  lemma EnterAvl<K, V>(c: Ctx<K, V, Heights>, t: Tree<K, V, Heights>, k: K, v: V)
    requires t.Bin? && Avl(t) && CtxAvl(c, Height(t))
    ensures Avl(t.left) && CtxAvl(InLeft(c, t.node, k, v, t.attr, t.right), Height(t.left))
    ensures Avl(t.right) && CtxAvl(InRight(c, t.left, t.node, k, v, t.attr), Height(t.right))
  {
    AvlParts(t);
    FrameAvl(InLeft(c, t.node, k, v, t.attr, t.right), t.right, Height(t.left), Height(t));
    FrameAvl(InRight(c, t.left, t.node, k, v, t.attr), t.left, Height(t.right), Height(t));
  }

  /** Every place in a valid tree has a balanced path above it. */
  lemma {:induction false} DescendAvl<K, V>(cmp: (K, K) -> int, c: Ctx<K, V, Heights>, t: Tree<K, V, Heights>, k: K)
    requires Avl(t) && CtxAvl(c, Height(t))
    ensures var (c', t') := Descend(cmp, c, t, k); Avl(t') && CtxAvl(c', Height(t'))
    decreases t
  {
    if t.Bin? { EnterAvl(c, t, t.key, t.value); }
    if t.Bin? && cmp(t.key, k) > 0 {
      DescendAvl(cmp, InLeft(c, t.node, t.key, t.value, t.attr, t.right), t.left, k);
    } else if t.Bin? && cmp(t.key, k) < 0 {
      DescendAvl(cmp, InRight(c, t.left, t.node, t.key, t.value, t.attr), t.right, k);
    }
  }

  lemma {:induction false} ComposeAvl<K, V>(d: Ctx<K, V, Heights>, c: Ctx<K, V, Heights>, x: Tree<K, V, Heights>)
    requires Avl(Plug(d, x)) && CtxAvl(c, Height(Plug(d, x)))
    ensures Avl(x) && CtxAvl(Compose(d, c), Height(x))
    decreases d
  {
    if !d.Top? {
      assert Plug(d, x) == Plug(d.up, Raise(d, x));
      ComposeAvl(d.up, c, Raise(d, x));
      LowerAvl(d, x, Compose(d, c));
    }
  }

  /** One step down a balanced path: `e` has the innermost frame of `d`. */
  lemma LowerAvl<K, V>(d: Ctx<K, V, Heights>, x: Tree<K, V, Heights>, e: Ctx<K, V, Heights>)
    requires !d.Top? && !e.Top? && Sibling(e) == Sibling(d)
    requires Avl(Raise(d, x)) && CtxAvl(e.up, Height(Raise(d, x)))
    ensures Avl(x) && CtxAvl(e, Height(x))
  {
    RaiseAvl(d, x);
    FrameAvl(e, Sibling(d), Height(x), Height(Raise(d, x)));
  }

  lemma RaiseAvl<K, V>(d: Ctx<K, V, Heights>, x: Tree<K, V, Heights>)
    requires !d.Top? && Avl(Raise(d, x))
    ensures Avl(x) && Avl(Sibling(d)) && -1 <= Height(x) - Height(Sibling(d)) <= 1
    ensures Height(Raise(d, x)) == Max(Height(x), Height(Sibling(d))) + 1
  {
    assert d.InLeft? ==> Raise(d, x).left == x;
    assert d.InRight? ==> Raise(d, x).right == x;
  }

  lemma RelabeledAvl<K, V>(t: Tree<K, V, Heights>, k: K, v: V)
    requires t.Bin? && Avl(t)
    ensures Avl(Relabeled(t, k, v, t.attr)) && Height(Relabeled(t, k, v, t.attr)) == Height(t)
  {
  }

  /** Removing a node with at most one child lowers its place by one level. */
  lemma RemainderLower<K, V>(t: Tree<K, V, Heights>)
    requires t.Bin? && (t.left.Leaf? || t.right.Leaf?) && Avl(t)
    ensures Avl(Remainder(t)) && Height(Remainder(t)) == Height(t) - 1
  {
  }
}
