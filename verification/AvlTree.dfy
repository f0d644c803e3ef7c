/**
 The AVL tree of `avltree.c`: rotations that maintain stored heights, the upward rebalancing
 loop, removal, and the sorted walk.
 */
module AvlTree {
  import opened Order
  import opened Sequences
  import opened LinkedTree
  import opened Balance
  import opened Wrappers

  lemma MoveFromRight<T>(b: seq<T>, l: seq<T>, p: T, r: seq<T>, ad: seq<T>, ac: seq<T>)
    ensures (b + l + [p]) + [] + r + (ad + ac) == (b + l) + (([] + ([] + [p] + r) + ad) + ac)
  {
  }

  lemma MoveFromLeft<T>(bc: seq<T>, bd: seq<T>, l: seq<T>, p: T, r: seq<T>, ac: seq<T>)
    ensures (bc + bd) + l + ([] + ([p] + r + ac)) == (bc + (bd + (l + [p] + []) + [])) + (r + ac)
  {
  }

  /** The contents without a pair, when its node has taken over its successor's pair. */
  lemma NextContents<K, V, A>(c: Ctx<K, V, A>, t: Tree<K, V, A>, d: Ctx<K, V, A>, x: Tree<K, V, A>)
    requires t.Bin? && x.Bin? && Plug(d, x) == t.right && x.left.Leaf? && Before(d) == []
    ensures var e := Compose(d, InRight(c, t.left, t.node, x.key, x.value, t.attr));
      Before(e) + Inorder(Remainder(x)) + After(e) == (Before(c) + Inorder(t.left)) + (Inorder(t.right) + After(c))
  {
    assert Inorder(Remainder(x)) == Inorder(x.right);
    var p := (x.key, x.value);
    var base := InRight(c, t.left, t.node, x.key, x.value, t.attr);
    var e := Compose(d, base);
    ComposeContents(d, base);
    PlugInorder(d, x);
    assert Before(e) == (Before(c) + Inorder(t.left) + [p]) + [];
    assert After(e) == After(d) + After(c);
    assert Inorder(t.right) == [] + ([] + [p] + Inorder(x.right)) + After(d);
    MoveFromRight(Before(c), Inorder(t.left), p, Inorder(x.right), After(d), After(c));
  }

  lemma PrevContents<K, V, A>(c: Ctx<K, V, A>, t: Tree<K, V, A>, d: Ctx<K, V, A>, x: Tree<K, V, A>)
    requires t.Bin? && x.Bin? && Plug(d, x) == t.left && x.right.Leaf? && After(d) == []
    ensures var e := Compose(d, InLeft(c, t.node, x.key, x.value, t.attr, t.right));
      Before(e) + Inorder(Remainder(x)) + After(e) == (Before(c) + Inorder(t.left)) + (Inorder(t.right) + After(c))
  {
    assert Inorder(Remainder(x)) == Inorder(x.left);
    var p := (x.key, x.value);
    var base := InLeft(c, t.node, x.key, x.value, t.attr, t.right);
    var e := Compose(d, base);
    ComposeContents(d, base);
    PlugInorder(d, x);
    assert Before(e) == Before(c) + Before(d);
    assert After(e) == [] + ([p] + Inorder(t.right) + After(c));
    assert Inorder(t.left) == Before(d) + (Inorder(x.left) + [p] + []) + [];
    MoveFromLeft(Before(c), Before(d), Inorder(x.left), p, Inorder(t.right), After(c));
  }

  /** A place with at most one child: without its node the tree holds exactly `rest`. */
  ghost predicate Vacant<K, V>(c: Ctx<K, V, Heights>, t: Tree<K, V, Heights>, v: V, rest: seq<(K, V)>)
  {
    && t.Bin? && (t.left.Leaf? || t.right.Leaf?) && t.value == v
    && Avl(t) && CtxAvl(c, Height(t))
    && Before(c) + Inorder(Remainder(t)) + After(c) == rest
  }

  lemma VacantPlace<K, V>(e: Ctx<K, V, Heights>, x: Tree<K, V, Heights>, k: K, v: V, rest: seq<(K, V)>)
    requires x.Bin? && (x.left.Leaf? || x.right.Leaf?) && Before(e) + Inorder(Remainder(x)) + After(e) == rest
    requires var x' := Relabeled(x, k, v, x.attr); Avl(x') && CtxAvl(e, Height(x'))
    ensures Vacant(e, Relabeled(x, k, v, x.attr), v, rest)
  {
    assert Remainder(Relabeled(x, k, v, x.attr)) == Remainder(x);
  }

  lemma VacantHere<K, V>(c: Ctx<K, V, Heights>, t: Tree<K, V, Heights>)
    requires t.Bin? && (t.left.Leaf? || t.right.Leaf?) && Avl(t) && CtxAvl(c, Height(t))
    ensures Vacant(c, t, t.value, (Before(c) + Inorder(t.left)) + (Inorder(t.right) + After(c)))
  {
    assert Inorder(t.left) + Inorder(t.right) == Inorder(Remainder(t));
    Reassociate(Before(c), Inorder(t.left), [], Inorder(t.right), After(c));
    assert Inorder(t.left) + [] == Inorder(t.left);
    assert (Before(c) + Inorder(t.left)) + [] == Before(c) + Inorder(t.left);
  }

  /** What unlinking the node of a vacant place leaves. */
  lemma VacantRest<K, V>(c: Ctx<K, V, Heights>, t: Tree<K, V, Heights>, v: V, rest: seq<(K, V)>)
    requires Vacant(c, t, v, rest)
    ensures var y := Remainder(t);
      && Avl(y) && Height(y) == Height(t) - 1 && Inorder(Plug(c, y)) == rest
      && (!c.Top? ==> Root(Plug(c, y)) == Root(Plug(c, t)))
  {
    RemainderLower(t);
    PlugInorder(c, Remainder(t));
    RootMoves(c, t, Remainder(t));
  }

  /** The root of the whole tree stays where it is when a subtree keeps its root node. */
  lemma ExchangedRoot<K, V, A>(c: Ctx<K, V, A>, t: Tree<K, V, A>, base: Ctx<K, V, A>, d: Ctx<K, V, A>, x: Tree<K, V, A>)
    requires !base.Top? && base.up == c && Root(t) == base.node
    ensures Root(Plug(Compose(d, base), x)) == Root(Plug(c, t))
  {
    ComposePlug(d, base, x);
    RootMoves(c, t, Raise(base, Plug(d, x)));
  }

  lemma NextAvl<K, V>(c: Ctx<K, V, Heights>, t: Tree<K, V, Heights>, d: Ctx<K, V, Heights>, x: Tree<K, V, Heights>)
    requires t.Bin? && x.Bin? && Plug(d, x) == t.right && Avl(t) && CtxAvl(c, Height(t))
    ensures var e := Compose(d, InRight(c, t.left, t.node, x.key, x.value, t.attr));
      var x' := Relabeled(x, t.key, t.value, x.attr);
      Avl(x') && CtxAvl(e, Height(x'))
  {
    EnterAvl(c, t, x.key, x.value);
    ComposeAvl(d, InRight(c, t.left, t.node, x.key, x.value, t.attr), x);
    RelabeledAvl(x, t.key, t.value);
  }

  /** The pure side of exchanging pairs with the in-order neighbour `x` at the end of `d`. */
  lemma NextExchanged<K, V>(c: Ctx<K, V, Heights>, t: Tree<K, V, Heights>, d: Ctx<K, V, Heights>,
                            x: Tree<K, V, Heights>)
    requires t.Bin? && x.Bin? && Plug(d, x) == t.right && x.left.Leaf? && Before(d) == []
    requires Avl(t) && CtxAvl(c, Height(t))
    ensures var e := Compose(d, InRight(c, t.left, t.node, x.key, x.value, t.attr));
      Vacant(e, Relabeled(x, t.key, t.value, x.attr), t.value,
             (Before(c) + Inorder(t.left)) + (Inorder(t.right) + After(c)))
  {
    NextAvl(c, t, d, x);
    NextContents(c, t, d, x);
    VacantPlace(Compose(d, InRight(c, t.left, t.node, x.key, x.value, t.attr)), x, t.key, t.value,
                (Before(c) + Inorder(t.left)) + (Inorder(t.right) + After(c)));
  }

  lemma PrevAvl<K, V>(c: Ctx<K, V, Heights>, t: Tree<K, V, Heights>, d: Ctx<K, V, Heights>, x: Tree<K, V, Heights>)
    requires t.Bin? && x.Bin? && Plug(d, x) == t.left && Avl(t) && CtxAvl(c, Height(t))
    ensures var e := Compose(d, InLeft(c, t.node, x.key, x.value, t.attr, t.right));
      var x' := Relabeled(x, t.key, t.value, x.attr);
      Avl(x') && CtxAvl(e, Height(x'))
  {
    EnterAvl(c, t, x.key, x.value);
    ComposeAvl(d, InLeft(c, t.node, x.key, x.value, t.attr, t.right), x);
    RelabeledAvl(x, t.key, t.value);
  }

  /** The pure side of exchanging pairs with the in-order neighbour `x` at the end of `d`. */
  lemma PrevExchanged<K, V>(c: Ctx<K, V, Heights>, t: Tree<K, V, Heights>, d: Ctx<K, V, Heights>,
                            x: Tree<K, V, Heights>)
    requires t.Bin? && x.Bin? && Plug(d, x) == t.left && x.right.Leaf? && After(d) == []
    requires Avl(t) && CtxAvl(c, Height(t))
    ensures var e := Compose(d, InLeft(c, t.node, x.key, x.value, t.attr, t.right));
      Vacant(e, Relabeled(x, t.key, t.value, x.attr), t.value,
             (Before(c) + Inorder(t.left)) + (Inorder(t.right) + After(c)))
  {
    PrevAvl(c, t, d, x);
    PrevContents(c, t, d, x);
    VacantPlace(Compose(d, InLeft(c, t.node, x.key, x.value, t.attr, t.right)), x, t.key, t.value,
                (Before(c) + Inorder(t.left)) + (Inorder(t.right) + After(c)));
  }

  class Avlt<K(==, !new), V> {
    const cmp: (K, K) -> int
    const hasFreeCallback: bool
    var root: Node?<K, V, Heights>
    var freed: seq<V>                       // arguments of the free callback, in call order
    ghost var tree: Tree<K, V, Heights>

    ghost predicate Valid()
      reads this, Nodes(tree)
    {
      && Heap(Top, tree) && root == Root(tree)
      && TotalOrder(cmp) && Sorted(cmp, Inorder(tree)) && Avl(tree)
    }

    ghost function Map(): map<K, V>
      reads this
    {
      MapOf(Inorder(tree))
    }

    constructor (cmp: (K, K) -> int, hasFreeCallback: bool)
      requires TotalOrder(cmp)
      ensures Valid() && Map() == map[] && freed == []
      ensures this.cmp == cmp && this.hasFreeCallback == hasFreeCallback
    {
      this.cmp, this.hasFreeCallback := cmp, hasFreeCallback;
      root, freed, tree := null, [], Leaf;
    }

    /** `n ? MAX(n->hl, n->hr) + 1 : 0`. */
    function StoredOf(n: Node?<K, V, Heights>): int
      reads n
    {
      if n == null then 0 else Max(n.attr.hl, n.attr.hr) + 1
    }

    lemma ChildrenStored(c: Ctx<K, V, Heights>, t: Tree<K, V, Heights>)
      requires Heap(c, t) && t.Bin?
      ensures StoredOf(Root(t.left)) == Stored(t.left) && StoredOf(Root(t.right)) == Stored(t.right)
    {
      var l := InLeft(c, t.node, t.key, t.value, t.attr, t.right);
      var r := InRight(c, t.left, t.node, t.key, t.value, t.attr);
      RaiseAll(l, t.left);
      RaiseAll(r, t.right);
      if t.left.Bin? { RootFields(l, t.left); }
      if t.right.Bin? { RootFields(r, t.right); }
    }

    /** The last assignments of both rotations: the parent learns the new height of the side
        the subtree hangs on. */
    method StoreInParent(sub: Node<K, V, Heights>, ghost c: Ctx<K, V, Heights>, ghost t: Tree<K, V, Heights>)
      requires Heap(c, t) && Root(t) == sub
      modifies CtxNodes(c)
      ensures Heap(WithHeight(c, Stored(t)), t)
    {
      RootFields(c, t);
      var parent := sub.parent;
      if parent != null {
        RaiseAll(c, t);
        RootFields(c.up, Raise(c, t));
        var h := StoredOf(sub);
        var heights := if parent.left == sub then Heights(h, parent.attr.hr) else Heights(parent.attr.hl, h);
        WithHeightRaised(c, h, t);
        SetAttr(parent, heights, c.up, Raise(c, t));
        RaiseAll(WithHeight(c, Stored(t)), t);
      }
    }

    method RotateLeft(node: Node<K, V, Heights>, ghost c: Ctx<K, V, Heights>, ghost t: Tree<K, V, Heights>)
      requires Heap(c, t) && Root(t) == node
      modifies CtxNodes(c), Nodes(t)
      ensures t.right.Leaf? ==> Heap(c, t)
      ensures t.right.Bin? ==> Heap(WithHeight(c, Stored(AvlLeft(t))), AvlLeft(t))
    {
      RootFields(c, t);
      var right := node.right;
      if right == null {
        return;
      }
      RotateLeftCells(c, t);
      ghost var u := RotatedLeft(t);
      RotateLeftLinks(node, All(c, t), All(c, u));
      // node->hr, then right->hl
      ghost var d := InLeft(c, u.node, u.key, u.value, u.attr, u.right);
      RaiseAll(d, u.left);
      ChildrenStored(d, u.left);
      RootFields(d, u.left);
      SetAttr(node, Heights(node.attr.hl, StoredOf(node.right)), d, u.left);
      ghost var n := AvlLeft(t).left;
      RaiseAll(d, n);
      ghost var w := Raise(d, n);
      ChildrenStored(c, w);
      RootFields(c, w);
      SetAttr(right, Heights(StoredOf(node), right.attr.hr), c, w);
      StoreInParent(right, c, AvlLeft(t));
    }

    method RotateRight(node: Node<K, V, Heights>, ghost c: Ctx<K, V, Heights>, ghost t: Tree<K, V, Heights>)
      requires Heap(c, t) && Root(t) == node
      modifies CtxNodes(c), Nodes(t)
      ensures t.left.Leaf? ==> Heap(c, t)
      ensures t.left.Bin? ==> Heap(WithHeight(c, Stored(AvlRight(t))), AvlRight(t))
    {
      RootFields(c, t);
      var left := node.left;
      if left == null {
        return;
      }
      RotateRightCells(c, t);
      ghost var u := RotatedRight(t);
      RotateRightLinks(node, All(c, t), All(c, u));
      // node->hl, then left->hr
      ghost var d := InRight(c, u.left, u.node, u.key, u.value, u.attr);
      RaiseAll(d, u.right);
      ChildrenStored(d, u.right);
      RootFields(d, u.right);
      SetAttr(node, Heights(StoredOf(node.left), node.attr.hr), d, u.right);
      ghost var n := AvlRight(t).right;
      RaiseAll(d, n);
      ghost var w := Raise(d, n);
      ChildrenStored(c, w);
      RootFields(c, w);
      SetAttr(left, Heights(left.attr.hl, StoredOf(node)), c, w);
      StoreInParent(left, c, AvlRight(t));
    }

    method Measure(node: Node<K, V, Heights>, ghost c: Ctx<K, V, Heights>, ghost t: Tree<K, V, Heights>)
      requires Heap(c, t) && Root(t) == node
      modifies node`attr
      ensures Heap(c, Measured(t))
    {
      RootFields(c, t);
      ChildrenStored(c, t);
      SetAttr(node, Heights(StoredOf(node.left), StoredOf(node.right)), c, t);
    }

    /** The check for the right-left case: an inner heavy child of `node` is rotated first. */
    method StraightenRight(node: Node<K, V, Heights>, ghost c: Ctx<K, V, Heights>, ghost t: Tree<K, V, Heights>)
      requires Heap(c, t) && Root(t) == node && RightFixable(t)
      modifies CtxNodes(c), Nodes(t)
      ensures Heap(c, StraightRight(t)) && Nodes(StraightRight(t)) == Nodes(t)
    {
      RootFields(c, t);
      if InnerHeavyRight(t) { AvlRotationSame(t.right); }
      var right := node.right;
      ghost var d := InRight(c, t.left, t.node, t.key, t.value, t.attr);
      RaiseAll(d, t.right);
      RootFields(d, t.right);
      if right.attr.hl - right.attr.hr == 1 {
        RotateRight(right, d, t.right);
        RaiseAll(WithHeight(d, Stored(AvlRight(t.right))), AvlRight(t.right));
      }
    }

    /** `balance_factor <= -2` in `avlt_balance`. */
    method RebalanceRight(node: Node<K, V, Heights>, ghost c: Ctx<K, V, Heights>, ghost t: Tree<K, V, Heights>)
      requires Heap(c, t) && Root(t) == node && RightFixable(t) && root == Root(Plug(c, t))
      modifies this`root, CtxNodes(c), Nodes(t)
      ensures Heap(WithHeight(c, Stored(FixRight(t))), FixRight(t))
      ensures root == Root(Plug(c, FixRight(t)))
    {
      StraightenRight(node, c, t);
      RotateLeft(node, c, StraightRight(t));
      FollowRoot(node, c, t, FixRight(t));
    }

    /** The check for the left-right case: an inner heavy child of `node` is rotated first. */
    method StraightenLeft(node: Node<K, V, Heights>, ghost c: Ctx<K, V, Heights>, ghost t: Tree<K, V, Heights>)
      requires Heap(c, t) && Root(t) == node && LeftFixable(t)
      modifies CtxNodes(c), Nodes(t)
      ensures Heap(c, StraightLeft(t)) && Nodes(StraightLeft(t)) == Nodes(t)
    {
      RootFields(c, t);
      if InnerHeavyLeft(t) { AvlRotationSame(t.left); }
      var left := node.left;
      ghost var d := InLeft(c, t.node, t.key, t.value, t.attr, t.right);
      RaiseAll(d, t.left);
      RootFields(d, t.left);
      if left.attr.hl - left.attr.hr == -1 {
        RotateLeft(left, d, t.left);
        RaiseAll(WithHeight(d, Stored(AvlLeft(t.left))), AvlLeft(t.left));
      }
    }

    /** `balance_factor >= 2` in `avlt_balance`. */
    method RebalanceLeft(node: Node<K, V, Heights>, ghost c: Ctx<K, V, Heights>, ghost t: Tree<K, V, Heights>)
      requires Heap(c, t) && Root(t) == node && LeftFixable(t) && root == Root(Plug(c, t))
      modifies this`root, CtxNodes(c), Nodes(t)
      ensures Heap(WithHeight(c, Stored(FixLeft(t))), FixLeft(t))
      ensures root == Root(Plug(c, FixLeft(t)))
    {
      StraightenLeft(node, c, t);
      RotateRight(node, c, StraightLeft(t));
      FollowRoot(node, c, t, FixLeft(t));
    }

    /** `if (tree->root == node) tree->root = node->parent`, after a rotation that put `f` in the
        place of `t` and `node` below its root. */
    method FollowRoot(node: Node<K, V, Heights>, ghost c: Ctx<K, V, Heights>, ghost t: Tree<K, V, Heights>,
                      ghost f: Tree<K, V, Heights>)
      requires Root(t) == node && f.Bin? && Heap(WithHeight(c, Stored(f)), f) && node in Nodes(f)
      requires Root(f.left) == node || Root(f.right) == node
      requires root == Root(Plug(c, t))
      modifies this`root
      ensures Heap(WithHeight(c, Stored(f)), f) && root == Root(Plug(c, f))
    {
      ParentOfChild(WithHeight(c, Stored(f)), f, node);
      RootMoves(c, t, f);
      if root == node {
        root := node.parent;
      }
    }

    lemma ParentOfChild(c: Ctx<K, V, Heights>, f: Tree<K, V, Heights>, node: Node<K, V, Heights>)
      requires Heap(c, f) && f.Bin? && (Root(f.left) == node || Root(f.right) == node)
      ensures node.parent == f.node
    {
      var l := InLeft(c, f.node, f.key, f.value, f.attr, f.right);
      var r := InRight(c, f.left, f.node, f.key, f.value, f.attr);
      RaiseAll(l, f.left);
      RaiseAll(r, f.right);
      if Root(f.left) == node { RootFields(l, f.left); } else { RootFields(r, f.right); }
    }

    /** What holds at the top of the loop of `avlt_balance`, at the node in the root of `t`. */
    ghost predicate Climbing(node: Node?<K, V, Heights>, c: Ctx<K, V, Heights>, t: Tree<K, V, Heights>, h: int)
      reads this`root, CtxNodes(c), Nodes(t)
    {
      && Heap(c, t)
      && if node == null then c.Top? && Avl(t) && root == Root(t)
         else Root(t) == node && Loose(t, h) && CtxAvl(c, h) && root == Root(Plug(c, t))
    }

    /** Above a valid subtree that has not grown and lost at most one level, the loop can go on. */
    lemma ClimbUp(c: Ctx<K, V, Heights>, t: Tree<K, V, Heights>, h: int)
      requires Heap(c, t) && !c.Top? && Avl(t) && h - 1 <= Height(t) <= h && CtxAvl(c, h)
      requires root == Root(Plug(c, t))
      ensures Climbing(c.node, c.up, Raise(c, t), Max(h, Height(Sibling(c))) + 1)
      ensures CtxNodes(c.up) + Nodes(Raise(c, t)) == CtxNodes(c) + Nodes(t)
      ensures Plug(c.up, Raise(c, t)) == Plug(c, t)
    {
      RaiseAll(c, t);
      RaiseLoose(c, t, h);
    }

    /** A balanced node: go on with its parent. */
    method Ascend(node: Node<K, V, Heights>, ghost c: Ctx<K, V, Heights>, ghost t: Tree<K, V, Heights>, ghost h: int)
      returns (next: Node?<K, V, Heights>, ghost c': Ctx<K, V, Heights>, ghost t': Tree<K, V, Heights>, ghost h': int)
      requires Climbing(node, c, t, h) && Avl(t)
      ensures Climbing(next, c', t', h')
      ensures CtxNodes(c') + Nodes(t') == CtxNodes(c) + Nodes(t) && Plug(c', t') == Plug(c, t)
      ensures next != null ==> !c.Top? && c' == c.up && t'.Bin?
    {
      RootFields(c, t);
      next := node.parent;
      if c.Top? {
        c', t', h' := c, t, h;
      } else {
        ClimbUp(c, t, h);
        c', t', h' := c.up, Raise(c, t), Max(h, Height(Sibling(c))) + 1;
      }
    }

    /** The end of the loop body: a rotated node that is balanced passes on to its new parent. */
    function Arrive(node: Node<K, V, Heights>): (next: Node?<K, V, Heights>)
      reads node
    {
      if -1 <= node.attr.hl - node.attr.hr <= 1 then node.parent else node
    }

    lemma ArriveAtTop(c: Ctx<K, V, Heights>, f: Tree<K, V, Heights>, node: Node<K, V, Heights>)
      requires Heap(c, f) && f.Bin? && Avl(f) && (Root(f.left) == node || Root(f.right) == node)
      ensures Arrive(node) == f.node
    {
      var l := InLeft(c, f.node, f.key, f.value, f.attr, f.right);
      var r := InRight(c, f.left, f.node, f.key, f.value, f.attr);
      RaiseAll(l, f.left);
      RaiseAll(r, f.right);
      if Root(f.left) == node { RootFields(l, f.left); } else { RootFields(r, f.right); }
    }

    method StepRight(node: Node<K, V, Heights>, ghost c: Ctx<K, V, Heights>, ghost u: Tree<K, V, Heights>, ghost h: int)
      returns (next: Node?<K, V, Heights>, ghost c': Ctx<K, V, Heights>, ghost t': Tree<K, V, Heights>)
      requires Climbing(node, c, u, h) && u == Measured(u) && u.attr.hl - u.attr.hr <= -2
      modifies this`root, CtxNodes(c), Nodes(u)
      ensures Climbing(next, c', t', h)
      ensures CtxNodes(c') + Nodes(t') == CtxNodes(c) + Nodes(u)
      ensures Inorder(Plug(c', t')) == Inorder(Plug(c, u))
      ensures t'.Bin? && Depth(c') == Depth(c) && -1 <= Height(t'.left) - Height(t'.right) <= 1
    {
      FixSame(c, u, h);
      FixRightAvl(u, h);
      RebalanceRight(node, c, u);
      c', t' := WithHeight(c, Stored(FixRight(u))), FixRight(u);
      WithHeightSame(c, Stored(t'), t');
      AvlIsLoose(t', h);
      ArriveAtTop(c', t', node);
      next := Arrive(node);
    }

    method StepLeft(node: Node<K, V, Heights>, ghost c: Ctx<K, V, Heights>, ghost u: Tree<K, V, Heights>, ghost h: int)
      returns (next: Node?<K, V, Heights>, ghost c': Ctx<K, V, Heights>, ghost t': Tree<K, V, Heights>)
      requires Climbing(node, c, u, h) && u == Measured(u) && u.attr.hl - u.attr.hr >= 2
      modifies this`root, CtxNodes(c), Nodes(u)
      ensures Climbing(next, c', t', h)
      ensures CtxNodes(c') + Nodes(t') == CtxNodes(c) + Nodes(u)
      ensures Inorder(Plug(c', t')) == Inorder(Plug(c, u))
      ensures t'.Bin? && Depth(c') == Depth(c) && -1 <= Height(t'.left) - Height(t'.right) <= 1
    {
      FixSame(c, u, h);
      FixLeftAvl(u, h);
      RebalanceLeft(node, c, u);
      c', t' := WithHeight(c, Stored(FixLeft(u))), FixLeft(u);
      WithHeightSame(c, Stored(t'), t');
      AvlIsLoose(t', h);
      ArriveAtTop(c', t', node);
      next := Arrive(node);
    }

    lemma MeasuredFacts(c: Ctx<K, V, Heights>, t: Tree<K, V, Heights>, h: int)
      requires Loose(t, h)
      ensures var u := Measured(t);
        && Loose(u, h) && u == Measured(u) && Nodes(u) == Nodes(t)
        && u.attr == Heights(Height(t.left), Height(t.right))
        && Inorder(Plug(c, u)) == Inorder(Plug(c, t)) && Root(Plug(c, u)) == Root(Plug(c, t))
        && (-1 <= u.attr.hl - u.attr.hr <= 1 ==> Avl(u))
    {
      StoredIsHeight(t.left);
      StoredIsHeight(t.right);
      PlugSame(c, t, Measured(t));
    }

    /** One round of the loop. */
    method BalanceStep(node: Node<K, V, Heights>, ghost c: Ctx<K, V, Heights>, ghost t: Tree<K, V, Heights>,
                       ghost h: int)
      returns (next: Node?<K, V, Heights>, ghost c': Ctx<K, V, Heights>, ghost t': Tree<K, V, Heights>, ghost h': int)
      requires Climbing(node, c, t, h)
      modifies this`root, CtxNodes(c), Nodes(t)
      ensures Climbing(next, c', t', h')
      ensures CtxNodes(c') + Nodes(t') == CtxNodes(c) + Nodes(t)
      ensures Inorder(Plug(c', t')) == Inorder(Plug(c, t))
      ensures next != null ==> t'.Bin? && Climb(c', t') < Climb(c, t)
    {
      Measure(node, c, t);
      ghost var u := Measured(t);
      MeasuredFacts(c, t, h);
      RootFields(c, u);
      var balanceFactor := node.attr.hl - node.attr.hr;
      h' := h;
      if balanceFactor <= -2 {
        next, c', t' := StepRight(node, c, u, h);
        ClimbLess(c, t, c', t');
      } else if balanceFactor >= 2 {
        next, c', t' := StepLeft(node, c, u, h);
        ClimbLess(c, t, c', t');
      } else {
        next, c', t', h' := Ascend(node, c, u, h);
        if next != null { ClimbLess(c, t, c', t'); }
      }
    }

    /** `avlt_balance`: from a loose node to the root. */
    method Balance(start: Node<K, V, Heights>, ghost c0: Ctx<K, V, Heights>, ghost t0: Tree<K, V, Heights>,
                   ghost h0: int)
      returns (ghost whole: Tree<K, V, Heights>)
      requires Climbing(start, c0, t0, h0)
      modifies this`root, CtxNodes(c0), Nodes(t0)
      ensures Heap(Top, whole) && Avl(whole) && root == Root(whole)
      ensures Inorder(whole) == Inorder(Plug(c0, t0)) && Nodes(whole) == CtxNodes(c0) + Nodes(t0)
    {
      var node: Node?<K, V, Heights> := start;
      ghost var c, t, h := c0, t0, h0;
      while node != null
        invariant Climbing(node, c, t, h)
        invariant CtxNodes(c) + Nodes(t) == CtxNodes(c0) + Nodes(t0)
        invariant Inorder(Plug(c, t)) == Inorder(Plug(c0, t0))
        decreases if node == null then 0 else Climb(c, t)
      {
        node, c, t, h := BalanceStep(node, c, t, h);
      }
      whole := t;
    }

    /** `avlt_find_next`: the leftmost node on the right. */
    method FindNext(node: Node<K, V, Heights>, ghost c: Ctx<K, V, Heights>, ghost t: Tree<K, V, Heights>)
      returns (p: Node?<K, V, Heights>, ghost d: Ctx<K, V, Heights>, ghost x: Tree<K, V, Heights>)
      requires Heap(c, t) && Root(t) == node
      ensures Heap(c, t) && (p == null <==> t.right.Leaf?)
      ensures p != null ==>
        && Plug(d, x) == t.right && Root(x) == p && x.left.Leaf? && Before(d) == []
    {
      RootFields(c, t);
      d, x := Top, t.right;
      if node.right == null {
        return null, d, x;
      }
      p := node.right;
      ghost var base := InRight(c, t.left, t.node, t.key, t.value, t.attr);
      RaiseAll(base, x);
      RootFields(base, x);
      while p.left != null
        invariant p != null && Root(x) == p && Plug(d, x) == t.right && Before(d) == []
        invariant Heap(c, t) && Heap(Compose(d, base), x) && p.left == Root(x.left)
        decreases x
      {
        p := p.left;
        d, x := InLeft(d, x.node, x.key, x.value, x.attr, x.right), x.left;
        RaiseAll(Compose(d, base), x);
        RootFields(Compose(d, base), x);
      }
    }

    /** `avlt_find_prev`: the rightmost node on the left. */
    method FindPrev(node: Node<K, V, Heights>, ghost c: Ctx<K, V, Heights>, ghost t: Tree<K, V, Heights>)
      returns (p: Node?<K, V, Heights>, ghost d: Ctx<K, V, Heights>, ghost x: Tree<K, V, Heights>)
      requires Heap(c, t) && Root(t) == node
      ensures Heap(c, t) && (p == null <==> t.left.Leaf?)
      ensures p != null ==>
        && Plug(d, x) == t.left && Root(x) == p && x.right.Leaf? && After(d) == []
    {
      RootFields(c, t);
      d, x := Top, t.left;
      if node.left == null {
        return null, d, x;
      }
      p := node.left;
      ghost var base := InLeft(c, t.node, t.key, t.value, t.attr, t.right);
      RaiseAll(base, x);
      RootFields(base, x);
      while p.right != null
        invariant p != null && Root(x) == p && Plug(d, x) == t.left && After(d) == []
        invariant Heap(c, t) && Heap(Compose(d, base), x) && p.right == Root(x.right)
        decreases x
      {
        p := p.right;
        d, x := InRight(d, x.left, x.node, x.key, x.value, x.attr), x.right;
        RaiseAll(Compose(d, base), x);
        RootFields(Compose(d, base), x);
      }
    }

    /** The descent of `avlt_remove`. */
    method FindNode(key: K)
      returns (cur: Node?<K, V, Heights>, ghost c: Ctx<K, V, Heights>, ghost t: Tree<K, V, Heights>)
      requires Valid()
      ensures (c, t) == Descend(cmp, Top, tree, key) && Heap(c, t) && Root(t) == cur && Valid()
    {
      cur := root;
      c, t := Top, tree;
      while cur != null
        invariant Valid() && Heap(c, t) && Root(t) == cur
        invariant Descend(cmp, Top, tree, key) == Descend(cmp, c, t, key)
        decreases t
      {
        RootFields(c, t);
        if cmp(cur.key, key) < 0 {
          cur := cur.right;
          c, t := InRight(c, t.left, t.node, t.key, t.value, t.attr), t.right;
        } else if cmp(cur.key, key) > 0 {
          cur := cur.left;
          c, t := InLeft(c, t.node, t.key, t.value, t.attr, t.right), t.left;
        } else {
          return;
        }
        RaiseAll(c, t);
      }
    }

    /** The node to be freed, at `t` under `c`, once it has at most one child: without it the
        tree holds exactly `rest`. */
    ghost predicate Removable(cur: Node<K, V, Heights>, c: Ctx<K, V, Heights>, t: Tree<K, V, Heights>,
                              v: V, rest: seq<(K, V)>)
      reads this`root, CtxNodes(c), Nodes(t)
    {
      Heap(c, t) && Root(t) == cur && root == Root(Plug(c, t)) && Vacant(c, t, v, rest)
    }

    /** The two nodes exchange their pairs: `cur`, in the innermost frame of `base`, and `p`, at the
        end of the path `d` below it. */
    method SwapPairs(cur: Node<K, V, Heights>, p: Node<K, V, Heights>,
                     ghost c: Ctx<K, V, Heights>, ghost t: Tree<K, V, Heights>, ghost base: Ctx<K, V, Heights>,
                     ghost d: Ctx<K, V, Heights>, ghost x: Tree<K, V, Heights>)
      returns (ghost e: Ctx<K, V, Heights>, ghost x': Tree<K, V, Heights>)
      requires Heap(c, t) && Root(t) == cur && Root(x) == p
      requires !base.Top? && base.up == c && Raise(base, Plug(d, x)) == t
      modifies CtxNodes(c), Nodes(t)
      ensures e == Compose(d, Rekeyed(base, x.key, x.value)) && x' == Relabeled(x, t.key, t.value, x.attr)
      ensures Heap(e, x') && CtxNodes(e) + Nodes(x') == CtxNodes(c) + Nodes(t)
      ensures Root(Plug(e, x')) == Root(Plug(c, t))
    {
      RaiseAll(base, Plug(d, x));
      ComposeHeap(d, base, x);
      RootFields(Compose(d, base), x);
      RootFields(c, t);
      var ktmp, vtmp := cur.key, cur.value;
      SetPair(cur, p.key, p.value, c, t);
      RaiseAll(Rekeyed(base, x.key, x.value), Plug(d, x));
      ComposeHeap(d, Rekeyed(base, x.key, x.value), x);
      e, x' := Compose(d, Rekeyed(base, x.key, x.value)), Relabeled(x, t.key, t.value, x.attr);
      SetPair(p, ktmp, vtmp, e, x);
      ExchangedRoot(c, t, Rekeyed(base, x.key, x.value), d, x');
    }

    /** The node and its successor exchange their pairs. */
    method ExchangeNext(cur: Node<K, V, Heights>, p: Node<K, V, Heights>,
                        ghost c: Ctx<K, V, Heights>, ghost t: Tree<K, V, Heights>,
                        ghost d: Ctx<K, V, Heights>, ghost x: Tree<K, V, Heights>)
      returns (ghost e: Ctx<K, V, Heights>, ghost x': Tree<K, V, Heights>)
      requires Heap(c, t) && Root(t) == cur && Avl(t) && CtxAvl(c, Height(t)) && root == Root(Plug(c, t))
      requires Root(x) == p && Plug(d, x) == t.right && x.left.Leaf? && Before(d) == []
      modifies CtxNodes(c), Nodes(t)
      ensures Removable(p, e, x', t.value, (Before(c) + Inorder(t.left)) + (Inorder(t.right) + After(c)))
      ensures CtxNodes(e) + Nodes(x') == CtxNodes(c) + Nodes(t)
    {
      NextExchanged(c, t, d, x);
      e, x' := SwapPairs(cur, p, c, t, InRight(c, t.left, t.node, t.key, t.value, t.attr), d, x);
    }

    /** The node and its predecessor exchange their pairs. */
    method ExchangePrev(cur: Node<K, V, Heights>, p: Node<K, V, Heights>,
                        ghost c: Ctx<K, V, Heights>, ghost t: Tree<K, V, Heights>,
                        ghost d: Ctx<K, V, Heights>, ghost x: Tree<K, V, Heights>)
      returns (ghost e: Ctx<K, V, Heights>, ghost x': Tree<K, V, Heights>)
      requires Heap(c, t) && Root(t) == cur && Avl(t) && CtxAvl(c, Height(t)) && root == Root(Plug(c, t))
      requires Root(x) == p && Plug(d, x) == t.left && x.right.Leaf? && After(d) == []
      modifies CtxNodes(c), Nodes(t)
      ensures Removable(p, e, x', t.value, (Before(c) + Inorder(t.left)) + (Inorder(t.right) + After(c)))
      ensures CtxNodes(e) + Nodes(x') == CtxNodes(c) + Nodes(t)
    {
      PrevExchanged(c, t, d, x);
      e, x' := SwapPairs(cur, p, c, t, InLeft(c, t.node, t.key, t.value, t.attr, t.right), d, x);
    }

    /** Unlinking a node with at most one child; the tree may be loose at its parent. */
    method Detach(cur: Node<K, V, Heights>, ghost c: Ctx<K, V, Heights>, ghost t: Tree<K, V, Heights>)
      returns (parent: Node?<K, V, Heights>, child: Node?<K, V, Heights>)
      requires Heap(c, t) && Root(t) == cur && (t.left.Leaf? || t.right.Leaf?)
      modifies CtxNodes(c), Nodes(t) - {cur}
      ensures Heap(c, Remainder(t)) && Nodes(Remainder(t)) == Nodes(t) - {cur}
      ensures parent == Parent(c) && child == Root(Remainder(t))
      ensures CtxNodes(c) + Nodes(Remainder(t)) == CtxNodes(c) + Nodes(t) - {cur}
    {
      RootFields(c, t);
      parent := cur.parent;
      child := if cur.left != null then cur.left else cur.right;
      UnlinkCells(c, t);
      SpliceOut(cur, All(c, t), All(c, Remainder(t)));
    }

    /** `avlt_balance(tree, parent)` after the subtree in the hole of `c` became `y`. */
    method BalanceAbove(parent: Node<K, V, Heights>, ghost c: Ctx<K, V, Heights>, ghost y: Tree<K, V, Heights>,
                        ghost h: int)
      requires Heap(c, y) && !c.Top? && parent == c.node && Avl(y) && h - 1 <= Height(y) <= h && CtxAvl(c, h)
      requires root == Root(Plug(c, y))
      modifies this`root, this`tree, CtxNodes(c), Nodes(y)
      ensures Heap(Top, tree) && root == Root(tree) && Avl(tree) && Inorder(tree) == Inorder(Plug(c, y))
      ensures Nodes(tree) == CtxNodes(c) + Nodes(y)
    {
      ClimbUp(c, y, h);
      ghost var whole := Balance(parent, c.up, Raise(c, y), Max(h, Height(Sibling(c))) + 1);
      SetTree(whole);
    }

    ghost method SetTree(t: Tree<K, V, Heights>)
      requires Heap(Top, t) && Avl(t)
      modifies this`tree
      ensures Heap(Top, tree) && Avl(tree) && tree == t
    {
      tree := t;
    }

    method Unlink(cur: Node<K, V, Heights>, ghost c: Ctx<K, V, Heights>, ghost t: Tree<K, V, Heights>,
                  ghost v: V, ghost rest: seq<(K, V)>)
      requires Removable(cur, c, t, v, rest)
      modifies this`root, this`tree, CtxNodes(c), Nodes(t) - {cur}
      ensures Heap(Top, tree) && root == Root(tree) && Avl(tree) && Inorder(tree) == rest
      ensures Nodes(tree) == CtxNodes(c) + Nodes(t) - {cur}
    {
      VacantRest(c, t, v, rest);
      var parent, child := Detach(cur, c, t);
      Resettle(parent, child, c, Remainder(t), Height(t));
    }

    /** After the unlinking: balance from the parent upwards, or move the root pointer. */
    method Resettle(parent: Node?<K, V, Heights>, child: Node?<K, V, Heights>,
                    ghost c: Ctx<K, V, Heights>, ghost y: Tree<K, V, Heights>, ghost h: int)
      requires Heap(c, y) && parent == Parent(c) && child == Root(y)
      requires Avl(y) && Height(y) == h - 1 && CtxAvl(c, h) && (!c.Top? ==> root == Root(Plug(c, y)))
      modifies this`root, this`tree, CtxNodes(c), Nodes(y)
      ensures Heap(Top, tree) && root == Root(tree) && Avl(tree)
      ensures Inorder(tree) == Inorder(Plug(c, y)) && Nodes(tree) == CtxNodes(c) + Nodes(y)
    {
      if parent != null {
        BalanceAbove(parent, c, y, h);
      } else {
        assert c == Top && Plug(c, y) == y;
        SetRoot(child, y);
      }
    }

    method SetRoot(node: Node?<K, V, Heights>, ghost t: Tree<K, V, Heights>)
      requires Heap(Top, t) && Root(t) == node && Avl(t)
      modifies this`root, this`tree
      ensures Heap(Top, tree) && root == Root(tree) && Avl(tree) && tree == t
    {
      root, tree := node, t;
    }

    /** The node that is really taken out: `cur`, or with two children its neighbour in key
        order, after the two have exchanged their pairs. */
    method Victim(cur: Node<K, V, Heights>, ghost c: Ctx<K, V, Heights>, ghost t: Tree<K, V, Heights>)
      returns (victim: Node<K, V, Heights>, ghost e: Ctx<K, V, Heights>, ghost x: Tree<K, V, Heights>)
      requires Heap(c, t) && Root(t) == cur && Avl(t) && CtxAvl(c, Height(t)) && root == Root(Plug(c, t))
      modifies CtxNodes(c), Nodes(t)
      ensures Removable(victim, e, x, t.value, (Before(c) + Inorder(t.left)) + (Inorder(t.right) + After(c)))
      ensures CtxNodes(e) + Nodes(x) == CtxNodes(c) + Nodes(t)
    {
      RootFields(c, t);
      if cur.left != null && cur.right != null {
        var p;
        ghost var d, y;
        if cur.attr.hl > cur.attr.hr {
          p, d, y := FindPrev(cur, c, t);
          victim := p;
          e, x := ExchangePrev(cur, p, c, t, d, y);
        } else {
          p, d, y := FindNext(cur, c, t);
          victim := p;
          e, x := ExchangeNext(cur, p, c, t, d, y);
        }
      } else {
        victim, e, x := cur, c, t;
        VacantHere(c, t);
      }
    }

    /** `avlt_remove`: `wantValue` says whether the caller passed a place for the value. */
    method Remove(key: K, wantValue: bool) returns (rc: int, value: Option<V>)
      requires Valid()
      modifies this, Nodes(tree)
      ensures Valid() && Map() == old(Map()) - {key} && Nodes(tree) <= old(Nodes(tree))
      ensures rc == 0
      ensures key !in old(Map()) ==> value == None && freed == old(freed)
      ensures key in old(Map()) && wantValue ==> value == Some(old(Map()[key])) && freed == old(freed)
      ensures key in old(Map()) && !wantValue ==>
        value == None && freed == old(freed) + if hasFreeCallback then [old(Map()[key])] else []
    {
      rc, value := 0, None;
      ghost var t0 := tree;
      var cur, c, t := FindNode(key);
      RemovePure(t0, key);
      if cur != null {
        PlugAll(c, t);
        DescendAvl(cmp, Top, t0, key);
        value := RemoveNode(cur, wantValue, c, t);
      }
    }

    method RemoveNode(cur: Node<K, V, Heights>, wantValue: bool, ghost c: Ctx<K, V, Heights>,
                      ghost t: Tree<K, V, Heights>)
      returns (value: Option<V>)
      requires Heap(c, t) && Root(t) == cur && Avl(t) && CtxAvl(c, Height(t)) && root == Root(Plug(c, t))
      modifies this, CtxNodes(c), Nodes(t)
      ensures Heap(Top, tree) && root == Root(tree) && Avl(tree)
      ensures Inorder(tree) == (Before(c) + Inorder(t.left)) + (Inorder(t.right) + After(c))
      ensures Nodes(tree) <= CtxNodes(c) + Nodes(t)
      ensures value == (if wantValue then Some(t.value) else None)
      ensures freed == old(freed) + if !wantValue && hasFreeCallback then [t.value] else []
    {
      var victim, e, x := Victim(cur, c, t);
      RootFields(e, x);
      var v := victim.value;
      Unlink(victim, e, x, t.value, (Before(c) + Inorder(t.left)) + (Inorder(t.right) + After(c)));
      value := HandOut(v, wantValue);
    }

    /** The removed value goes to the caller or to the free callback. */
    method HandOut(v: V, wantValue: bool) returns (value: Option<V>)
      requires Heap(Top, tree)
      modifies this`freed
      ensures Heap(Top, tree) && value == (if wantValue then Some(v) else None)
      ensures freed == old(freed) + if !wantValue && hasFreeCallback then [v] else []
    {
      value := None;
      if wantValue {
        value := Some(v);
      } else if hasFreeCallback {
        freed := freed + [v];
      }
    }

    /** The pure side of removal: the search decides membership, and dropping the found pair
        from the sorted contents drops its key from the map. */
    lemma RemovePure(t0: Tree<K, V, Heights>, key: K)
      requires TotalOrder(cmp) && Sorted(cmp, Inorder(t0))
      ensures var (c, t) := Descend(cmp, Top, t0, key);
        var rest := if t.Leaf? then [] else (Before(c) + Inorder(t.left)) + (Inorder(t.right) + After(c));
        && Plug(c, t) == t0
        && (key in MapOf(Inorder(t0)) <==> t.Bin?)
        && (t.Leaf? ==> MapOf(Inorder(t0)) - {key} == MapOf(Inorder(t0)))
        && (t.Bin? ==> MapOf(Inorder(t0))[key] == t.value && Sorted(cmp, rest)
                       && MapOf(rest) == MapOf(Inorder(t0)) - {key})
    {
      var (c, t) := Descend(cmp, Top, t0, key);
      DescendCorrect(cmp, Top, t0, key);
      FocusLookup(cmp, c, t, key);
      if t.Bin? {
        FocusInorder(c, t);
        MapOfRemove(cmp, Before(c) + Inorder(t.left), (t.key, t.value), Inorder(t.right) + After(c));
      }
    }

    method WalkSorted() returns (cnt: int, visited: seq<(K, V)>)
      requires Valid()
      ensures Sorted(cmp, visited) && MapOf(visited) == Map()
      ensures cnt == |visited| == |Map()|
    {
      SortedSize(cmp, Inorder(tree));
      cnt, visited := 0, [];
      if root != null {
        var r := SortedWalk(root, Top, tree);
        cnt, visited := r.0, r.1;
      }
    }
  }
}
