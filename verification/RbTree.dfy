/**
 The red-black tree of `rbtree.c`: insertion with its repair by re-adding the grandparent,
 lookup and the sorted walk, on heap nodes with parent links.
 */
module RbTree {
  import opened Order
  import opened LinkedTree
  import opened RedBlack
  import opened Numbers
  import opened Wrappers

  /** What `rbt_add_internal` leaves at the place where its search ended. */
  ghost function Placed<K, V>(f: Tree<K, V, Color>, n: Node<K, V, Color>, k: K, v: V): Tree<K, V, Color>
  {
    WithRoot(f, n, k, v, if f.Leaf? then Red else f.attr)
  }

  /** Placing a pair keeps search order and updates the map at one key. */
  lemma PlacedContents<K(!new), V>(cmp: (K, K) -> int, c: Ctx<K, V, Color>, f: Tree<K, V, Color>,
                                   n: Node<K, V, Color>, k: K, v: V)
    requires TotalOrder(cmp) && Sorted(cmp, Inorder(Plug(c, f)))
    requires Brackets(cmp, c, k) && (f.Bin? ==> f.key == k)
    ensures Sorted(cmp, Inorder(Plug(c, Placed(f, n, k, v))))
    ensures MapOf(Inorder(Plug(c, Placed(f, n, k, v)))) == MapOf(Inorder(Plug(c, f)))[k := v]
  {
    var g := Placed(f, n, k, v);
    FocusInorder(c, g);
    if f.Leaf? {
      PlugInorder(c, f);
      assert Before(c) + Inorder(f) + After(c) == Before(c) + After(c);
      assert Before(c) + Inorder(g.left) == Before(c);
      assert Inorder(g.right) + After(c) == After(c);
      SortedConcat(cmp, Before(c), (k, v), After(c));
      SortedSplit(cmp, Before(c), (k, v), After(c));
      MapOfInsert(Before(c), (k, v), After(c));
    } else {
      FocusInorder(c, f);
      MapOfReplace(cmp, Before(c) + Inorder(f.left), k, f.value, v, Inorder(f.right) + After(c));
    }
  }

  lemma PlacedRB<K, V>(c: Ctx<K, V, Color>, f: Tree<K, V, Color>, n: Node<K, V, Color>, k: K, v: V)
    requires Repairable(c, f)
    ensures Repairable(c, Placed(f, n, k, v))
  {
  }

  /** Case 3 with a red uncle: parent and uncle black, grandparent red. */
  ghost function Recolored<K, V>(c: Ctx<K, V, Color>, f: Tree<K, V, Color>): Tree<K, V, Color>
    requires !c.Top? && !c.up.Top?
  {
    var p := Painted(Raise(c, f), Black);
    Painted(Raise(Across(c.up, p), Painted(Sibling(c.up), Black)), Red)
  }

  lemma RecoloredSame<K, V>(c: Ctx<K, V, Color>, f: Tree<K, V, Color>)
    requires !c.Top? && !c.up.Top?
    ensures Inorder(Plug(c.up.up, Recolored(c, f))) == Inorder(Plug(c, f))
    ensures Root(Plug(c.up.up, Recolored(c, f))) == Root(Plug(c, f))
    ensures CtxNodes(c.up.up) + Nodes(Recolored(c, f)) == CtxNodes(c) + Nodes(f)
  {
    var p := Raise(c, f);
    var g := Raise(c.up, p);
    assert Plug(c, f) == Plug(c.up, p) == Plug(c.up.up, g);
    assert Inorder(Painted(p, Black)) == Inorder(p);
    assert Inorder(Painted(Sibling(c.up), Black)) == Inorder(Sibling(c.up));
    assert Inorder(Recolored(c, f)) == Inorder(g);
    PlugSame(c.up.up, g, Recolored(c, f));
  }

  /** Red uncle: repainting moves the only possible violation two levels up. */
  lemma RecolorRB<K, V>(c: Ctx<K, V, Color>, f: Tree<K, V, Color>)
    requires Repairable(c, f) && IsRed(f) && CtxRed(c) && IsRed(Sibling(c.up))
    ensures Repairable(c.up.up, Recolored(c, f))
  {
    assert RB(Raise(c, f).left) && RB(Raise(c, f).right);
    assert CtxRB(c.up, BlackHeight(f));
  }

  /** Black uncle, outer grandchild: repainting and one rotation end the repair. */
  lemma OuterRB<K, V>(c: Ctx<K, V, Color>, f: Tree<K, V, Color>, g: Tree<K, V, Color>)
    requires Repairable(c, f) && IsRed(f) && CtxRed(c) && !IsRed(Sibling(c.up))
    requires g == OuterPainted(c, f)
    ensures c.InLeft? && c.up.InLeft? ==>
      Repairable(c.up.up, RotatedRight(g)) && !IsRed(RotatedRight(g))
    ensures c.InRight? && c.up.InRight? ==>
      Repairable(c.up.up, RotatedLeft(g)) && !IsRed(RotatedLeft(g))
  {
    assert RB(Raise(c, f).left) && RB(Raise(c, f).right);
    assert CtxRB(c.up, BlackHeight(f));
  }

  /** Case 5 before its rotation: parent black, grandparent red. */
  ghost function OuterPainted<K, V>(c: Ctx<K, V, Color>, f: Tree<K, V, Color>): Tree<K, V, Color>
    requires !c.Top? && !c.up.Top?
  {
    Painted(Raise(c.up, Painted(Raise(c, f), Black)), Red)
  }

  lemma OuterPaintedSame<K, V>(c: Ctx<K, V, Color>, f: Tree<K, V, Color>)
    requires !c.Top? && !c.up.Top?
    ensures Inorder(Plug(c.up.up, OuterPainted(c, f))) == Inorder(Plug(c, f))
    ensures Root(Plug(c.up.up, OuterPainted(c, f))) == Root(Plug(c, f))
    ensures CtxNodes(c.up.up) + Nodes(OuterPainted(c, f)) == CtxNodes(c) + Nodes(f)
  {
    var p := Raise(c, f);
    var g := Raise(c.up, p);
    assert Plug(c, f) == Plug(c.up, p) == Plug(c.up.up, g);
    assert Inorder(Painted(p, Black)) == Inorder(p);
    assert Inorder(OuterPainted(c, f)) == Inorder(g);
    PlugSame(c.up.up, g, OuterPainted(c, f));
  }

  /** Black uncle, inner grandchild: rotating at the parent makes it an outer one. */
  lemma InnerRB<K, V>(c: Ctx<K, V, Color>, f: Tree<K, V, Color>)
    requires Repairable(c, f) && IsRed(f) && CtxRed(c)
    ensures c.InRight? ==>
      var p := RotatedLeft(Raise(c, f));
      var c' := InLeft(c.up, p.node, p.key, p.value, p.attr, p.right);
      Repairable(c', p.left) && IsRed(p.left) && CtxRed(c')
    ensures c.InLeft? ==>
      var p := RotatedRight(Raise(c, f));
      var c' := InRight(c.up, p.left, p.node, p.key, p.value, p.attr);
      Repairable(c', p.right) && IsRed(p.right) && CtxRed(c')
  {
  }

  class Rbt<K(==, !new), V(==)> {
    const cmp: (K, K) -> int
    const hasFreeCallback: bool
    var root: Node?<K, V, Color>
    var freed: seq<V>                       // arguments of the free callback, in call order
    ghost var tree: Tree<K, V, Color>

    ghost predicate Shape()
      reads this, Nodes(tree)
    {
      Heap(Top, tree) && root == Root(tree) && TotalOrder(cmp) && Sorted(cmp, Inorder(tree))
    }

    ghost predicate Valid()
      reads this, Nodes(tree)
    {
      Shape() && RB(tree) && !IsRed(tree)
    }

    /** Everything is in order except perhaps at the node holding `k`. */
    ghost predicate AlmostValid(k: K)
      reads this, Nodes(tree)
    {
      Shape() && var (c, f) := Descend(cmp, Top, tree, k); Repairable(c, f)
    }

    ghost function Map(): map<K, V>
      reads this
    {
      MapOf(Inorder(tree))
    }

    constructor (cmp: (K, K) -> int, hasFreeCallback: bool)
      requires TotalOrder(cmp)
      ensures Valid() && Map() == map[] && freed == [] && Nodes(tree) == {}
      ensures this.cmp == cmp && this.hasFreeCallback == hasFreeCallback
    {
      this.cmp, this.hasFreeCallback := cmp, hasFreeCallback;
      root, freed, tree := null, [], Leaf;
    }

    method Paint(node: Node<K, V, Color>, a: Color, ghost c: Ctx<K, V, Color>, ghost t: Tree<K, V, Color>)
      requires Heap(c, t) && Root(t) == node
      modifies node`attr
      ensures Heap(c, Painted(t, a))
    {
      SetAttr(node, a, c, t);
    }

    /** Without a left child the source cuts the node off and makes it the root; `rbt_add` never does that. */
    method RotateRight(node: Node<K, V, Color>, ghost c: Ctx<K, V, Color>, ghost t: Tree<K, V, Color>)
      requires Heap(c, t) && Root(t) == node && root == Root(Plug(c, t))
      modifies this`root, CtxNodes(c), Nodes(t)
      ensures t.left.Bin? ==>
        && Heap(c, RotatedRight(t)) && root == Root(Plug(c, RotatedRight(t))) && Nodes(RotatedRight(t)) == Nodes(t)
      ensures t.left.Leaf? ==> Heap(Top, t) && root == node
    {
      RootFields(c, t);
      var p := node.left;
      if p != null {
        TurnRight(node, p, c, t);
      } else {
        CutOff(node, c, t);
        root := node;
      }
    }

    method TurnRight(node: Node<K, V, Color>, p: Node<K, V, Color>, ghost c: Ctx<K, V, Color>,
                     ghost t: Tree<K, V, Color>)
      requires Heap(c, t) && Root(t) == node && Root(t.left) == p && root == Root(Plug(c, t))
      modifies this`root, CtxNodes(c), Nodes(t)
      ensures Heap(c, RotatedRight(t)) && root == Root(Plug(c, RotatedRight(t))) && Nodes(RotatedRight(t)) == Nodes(t)
    {
      RootFields(c, t);
      RotateRightCells(c, t);
      var parent := node.parent;
      RotateRightLinks(node, All(c, t), All(c, RotatedRight(t)));
      RootMoves(c, t, RotatedRight(t));
      if parent == null {
        root := p;
      }
    }

    /** Without a right child the source cuts the node off and makes it the root; `rbt_add` never does that. */
    method RotateLeft(node: Node<K, V, Color>, ghost c: Ctx<K, V, Color>, ghost t: Tree<K, V, Color>)
      requires Heap(c, t) && Root(t) == node && root == Root(Plug(c, t))
      modifies this`root, CtxNodes(c), Nodes(t)
      ensures t.right.Bin? ==>
        && Heap(c, RotatedLeft(t)) && root == Root(Plug(c, RotatedLeft(t))) && Nodes(RotatedLeft(t)) == Nodes(t)
      ensures t.right.Leaf? ==> Heap(Top, t) && root == node
    {
      RootFields(c, t);
      var p := node.right;
      if p != null {
        TurnLeft(node, p, c, t);
      } else {
        CutOff(node, c, t);
        root := node;
      }
    }

    method TurnLeft(node: Node<K, V, Color>, p: Node<K, V, Color>, ghost c: Ctx<K, V, Color>,
                    ghost t: Tree<K, V, Color>)
      requires Heap(c, t) && Root(t) == node && Root(t.right) == p && root == Root(Plug(c, t))
      modifies this`root, CtxNodes(c), Nodes(t)
      ensures Heap(c, RotatedLeft(t)) && root == Root(Plug(c, RotatedLeft(t))) && Nodes(RotatedLeft(t)) == Nodes(t)
    {
      RootFields(c, t);
      RotateLeftCells(c, t);
      var parent := node.parent;
      RotateLeftLinks(node, All(c, t), All(c, RotatedLeft(t)));
      RootMoves(c, t, RotatedLeft(t));
      if parent == null {
        root := p;
      }
    }

    /** The new node gets the links and the colour of the old one, whose value is freed. */
    method TakeOver(cur: Node<K, V, Color>, newNode: Node<K, V, Color>)
      requires newNode != cur
      modifies this`freed, newNode
      ensures newNode.parent == cur.parent && newNode.left == cur.left && newNode.right == cur.right
      ensures newNode.attr == cur.attr && newNode.key == old(newNode.key) && newNode.value == old(newNode.value)
      ensures freed == old(freed) +
        if hasFreeCallback && cur.value != old(newNode.value) then [cur.value] else []
    {
      newNode.parent := cur.parent;
      newNode.attr := cur.attr;
      newNode.left := cur.left;
      newNode.right := cur.right;
      if newNode.value != cur.value && hasFreeCallback {
        freed := freed + [cur.value];
      }
    }

    /** The replacement branch of `rbt_add_internal`. */
    method Replace(cur: Node<K, V, Color>, newNode: Node<K, V, Color>, ghost m: Cells<K, V, Color>)
      requires Match(m) && Closed(m, cur) && newNode !in m
      modifies this`freed, newNode, m.Keys
      ensures var m1 := ChildSwapped(m, m[cur].parent, cur, newNode);
        Match(Hung(Hung(m1, m[cur].left, newNode), m[cur].right, newNode))
      ensures Fields(newNode, m[cur].(key := old(newNode.key), value := old(newNode.value)))
      ensures freed == old(freed) +
        if hasFreeCallback && m[cur].value != old(newNode.value) then [m[cur].value] else []
    {
      assert Fields(cur, m[cur]);
      TakeOver(cur, newNode);
      SwapChild(newNode.parent, cur, newNode, m);
      ghost var m1 := ChildSwapped(m, newNode.parent, cur, newNode);
      SetParent(newNode.left, newNode, m1);
      SetParent(newNode.right, newNode, Hung(m1, newNode.left, newNode));
    }

    method ReplaceIn(cur: Node<K, V, Color>, newNode: Node<K, V, Color>,
                     ghost c: Ctx<K, V, Color>, ghost t: Tree<K, V, Color>)
      requires Heap(c, t) && Root(t) == cur && newNode !in CtxNodes(c) + Nodes(t)
      modifies this`freed, newNode, CtxNodes(c), Nodes(t)
      ensures Heap(c, Placed(t, newNode, old(newNode.key), old(newNode.value)))
      ensures freed == old(freed) +
        if hasFreeCallback && t.value != old(newNode.value) then [t.value] else []
    {
      ghost var k, v, a := newNode.key, newNode.value, t.attr;
      ReplaceCells(c, t, newNode, k, v, a);
      Replace(cur, newNode, All(c, t));
      ReplacementMatch(All(c, t), All(c, WithRoot(t, newNode, k, v, a)), cur, newNode, k, v, a);
    }

    method HangLeft(cur: Node<K, V, Color>, newNode: Node<K, V, Color>, ghost c: Ctx<K, V, Color>)
      requires Heap(c, Leaf) && c.InLeft? && c.node == cur && newNode !in CtxNodes(c)
      requires newNode.left == newNode.right == null && newNode.attr.Red?
      modifies cur, newNode
      ensures Heap(c, WithRoot(Leaf, newNode, old(newNode.key), old(newNode.value), Red))
    {
      AttachCells(c, newNode, newNode.key, newNode.value, Red);
      cur.left := newNode;
      newNode.parent := cur;
    }

    method HangRight(cur: Node<K, V, Color>, newNode: Node<K, V, Color>, ghost c: Ctx<K, V, Color>)
      requires Heap(c, Leaf) && c.InRight? && c.node == cur && newNode !in CtxNodes(c)
      requires newNode.left == newNode.right == null && newNode.attr.Red?
      modifies cur, newNode
      ensures Heap(c, WithRoot(Leaf, newNode, old(newNode.key), old(newNode.value), Red))
    {
      AttachCells(c, newNode, newNode.key, newNode.value, Red);
      cur.right := newNode;
      newNode.parent := cur;
    }

    method AddInternal(cur: Node<K, V, Color>, newNode: Node<K, V, Color>,
                       ghost c: Ctx<K, V, Color>, ghost t: Tree<K, V, Color>) returns (rc: int)
      requires Heap(c, t) && Root(t) == cur && TotalOrder(cmp)
      requires newNode !in CtxNodes(c) + Nodes(t)
      requires newNode.left == newNode.right == null && newNode.attr.Red?
      modifies this`freed, newNode, CtxNodes(c), Nodes(t)
      ensures var (c', f) := Descend(cmp, c, t, old(newNode.key));
        && Heap(c', Placed(f, newNode, old(newNode.key), old(newNode.value)))
        && CtxNodes(c') + Nodes(f) == CtxNodes(c) + Nodes(t)
        && rc == (if f.Bin? then 1 else 0)
        && freed == old(freed) +
             if hasFreeCallback && f.Bin? && f.value != old(newNode.value) then [f.value] else []
      decreases t
    {
      RootFields(c, t);
      var k := newNode.key;
      var r := cmp(cur.key, k);
      if r == 0 {
        assert OrderAt(cmp, cur.key, k, k);
        ReplaceIn(cur, newNode, c, t);
        rc := 1;
      } else if r > 0 {
        ghost var c' := InLeft(c, t.node, t.key, t.value, t.attr, t.right);
        RaiseAll(c', t.left);
        if cur.left != null {
          rc := AddInternal(cur.left, newNode, c', t.left);
        } else {
          HangLeft(cur, newNode, c');
          rc := 0;
        }
      } else {
        ghost var c' := InRight(c, t.left, t.node, t.key, t.value, t.attr);
        RaiseAll(c', t.right);
        if cur.right != null {
          rc := AddInternal(cur.right, newNode, c', t.right);
        } else {
          HangRight(cur, newNode, c');
          rc := 0;
        }
      }
    }

    function Grandparent(node: Node<K, V, Color>): (g: Node?<K, V, Color>)
      reads node, node.parent
    {
      if node.parent != null then node.parent.parent else null
    }

    function Uncle(node: Node<K, V, Color>): (u: Node?<K, V, Color>)
      reads node, node.parent, Grandparent(node)
    {
      var g := Grandparent(node);
      if g == null then null
      else if node.parent == g.left then g.right else g.left
    }

    /** What the two helpers return, two levels below the root or deeper. */
    lemma Relatives(c: Ctx<K, V, Color>, f: Tree<K, V, Color>)
      requires Heap(c, f) && f.Bin? && !c.Top? && !c.up.Top?
      ensures f.node.parent == c.node && (f.node == c.node.left <==> c.InLeft?)
      ensures f.node == c.node.right <==> c.InRight?
      ensures Grandparent(f.node) == c.up.node && (c.node == c.up.node.left <==> c.up.InLeft?)
      ensures c.node == c.up.node.right <==> c.up.InRight?
      ensures Uncle(f.node) == Root(Sibling(c.up))
    {
      RootFields(c, f);
      RaiseAll(c, f);
      var p := Raise(c, f);
      RootFields(c.up, p);
      RaiseAll(c.up, p);
      RootFields(c.up.up, Raise(c.up, p));
    }

    /** Bookkeeping at the end of a call: the focused view becomes the whole tree. */
    ghost method Finish(c: Ctx<K, V, Color>, t: Tree<K, V, Color>)
      requires Heap(c, t) && root == Root(Plug(c, t)) && Repairable(c, t) && !Clash(c, t)
      requires TotalOrder(cmp) && Sorted(cmp, Inorder(Plug(c, t)))
      modifies this`tree
      ensures tree == Plug(c, t) && Valid() && Nodes(tree) == CtxNodes(c) + Nodes(t)
    {
      PlugAll(c, t);
      PlugRB(c, t);
      tree := Plug(c, t);
    }

    method PaintOuter(parent: Node<K, V, Color>, grandparent: Node<K, V, Color>,
                      ghost c: Ctx<K, V, Color>, ghost f: Tree<K, V, Color>)
      requires Heap(c, f) && !c.Top? && !c.up.Top? && parent == c.node && grandparent == c.up.node
      modifies parent`attr, grandparent`attr
      ensures Heap(c.up.up, OuterPainted(c, f))
    {
      ghost var p := Raise(c, f);
      RaiseAll(c, f);
      Paint(parent, Black, c.up, p);
      RaiseAll(c.up, Painted(p, Black));
      Paint(grandparent, Red, c.up.up, Raise(c.up, Painted(p, Black)));
    }

    /** Case 5: the red node hangs on the outer side of its red parent. */
    method RepairOuter(node: Node<K, V, Color>, ghost c: Ctx<K, V, Color>, ghost f: Tree<K, V, Color>)
      requires Heap(c, f) && Root(f) == node && IsRed(f) && CtxRed(c) && Repairable(c, f)
      requires !IsRed(Sibling(c.up)) && (c.InLeft? <==> c.up.InLeft?)
      requires root == Root(Plug(c, f)) && TotalOrder(cmp) && Sorted(cmp, Inorder(Plug(c, f)))
      modifies this`root, this`tree, CtxNodes(c), Nodes(f)
      ensures Valid() && Inorder(tree) == Inorder(Plug(c, f)) && Nodes(tree) == CtxNodes(c) + Nodes(f)
    {
      Relatives(c, f);
      var grandparent := Grandparent(node);
      var outerLeft := node == node.parent.left;
      PaintOuter(node.parent, grandparent, c, f);
      ghost var c2, g := c.up.up, OuterPainted(c, f);
      OuterPaintedSame(c, f);
      OuterRB(c, f, g);
      if outerLeft {
        RotateRight(grandparent, c2, g);
        RotateRightInorder(g);
        PlugSame(c2, g, RotatedRight(g));
        Finish(c2, RotatedRight(g));
      } else {
        RotateLeft(grandparent, c2, g);
        RotateLeftInorder(g);
        PlugSame(c2, g, RotatedLeft(g));
        Finish(c2, RotatedLeft(g));
      }
    }

    /** Case 4: an inner red node is first rotated over its parent. */
    method RepairInner(node: Node<K, V, Color>, ghost c: Ctx<K, V, Color>, ghost f: Tree<K, V, Color>)
      requires Heap(c, f) && Root(f) == node && IsRed(f) && CtxRed(c) && Repairable(c, f)
      requires !IsRed(Sibling(c.up)) && (c.InLeft? <==> c.up.InRight?)
      requires root == Root(Plug(c, f)) && TotalOrder(cmp) && Sorted(cmp, Inorder(Plug(c, f)))
      modifies this`root, this`tree, CtxNodes(c), Nodes(f)
      ensures Valid() && Inorder(tree) == Inorder(Plug(c, f)) && Nodes(tree) == CtxNodes(c) + Nodes(f)
    {
      Relatives(c, f);
      RaiseAll(c, f);
      InnerRB(c, f);
      ghost var p := Raise(c, f);
      if node == node.parent.right {
        RotateLeft(node.parent, c.up, p);
        RotateLeftInorder(p);
        PlugSame(c.up, p, RotatedLeft(p));
        ghost var p' := RotatedLeft(p);
        ghost var c' := InLeft(c.up, p'.node, p'.key, p'.value, p'.attr, p'.right);
        RaiseAll(c', p'.left);
        RootFields(c.up, p');
        RepairOuter(node.left, c', p'.left);
      } else {
        RotateRight(node.parent, c.up, p);
        RotateRightInorder(p);
        PlugSame(c.up, p, RotatedRight(p));
        ghost var p' := RotatedRight(p);
        ghost var c' := InRight(c.up, p'.left, p'.node, p'.key, p'.value, p'.attr);
        RaiseAll(c', p'.right);
        RootFields(c.up, p');
        RepairOuter(node.right, c', p'.right);
      }
    }

    method PaintRecolored(parent: Node<K, V, Color>, uncle: Node<K, V, Color>, grandparent: Node<K, V, Color>,
                          ghost c: Ctx<K, V, Color>, ghost f: Tree<K, V, Color>)
      requires Heap(c, f) && !c.Top? && !c.up.Top?
      requires parent == c.node && uncle == Root(Sibling(c.up)) && grandparent == c.up.node
      modifies parent`attr, uncle`attr, grandparent`attr
      ensures Heap(c.up.up, Recolored(c, f))
    {
      ghost var p := Raise(c, f);
      RaiseAll(c, f);
      Paint(parent, Black, c.up, p);
      ghost var p' := Painted(p, Black);
      ghost var d := Across(c.up, p');
      AcrossAll(c.up, p');
      Paint(uncle, Black, d, Sibling(c.up));
      ghost var u' := Painted(Sibling(c.up), Black);
      RaiseAll(d, u');
      Paint(grandparent, Red, c.up.up, Raise(d, u'));
    }

    lemma FocusMap(c: Ctx<K, V, Color>, g: Tree<K, V, Color>)
      requires TotalOrder(cmp) && g.Bin? && Sorted(cmp, Inorder(Plug(c, g)))
      ensures g.key in MapOf(Inorder(Plug(c, g))) && MapOf(Inorder(Plug(c, g)))[g.key] == g.value
      ensures MapOf(Inorder(Plug(c, g)))[g.key := g.value] == MapOf(Inorder(Plug(c, g)))
    {
      FocusInorder(c, g);
      MapOfReplace(cmp, Before(c) + Inorder(g.left), g.key, g.value, g.value, Inorder(g.right) + After(c));
    }

    /** Re-adding a stored pair finds its own node again and changes nothing in the map. */
    lemma FocusSearch(c: Ctx<K, V, Color>, g: Tree<K, V, Color>)
      requires TotalOrder(cmp) && g.Bin? && Sorted(cmp, Inorder(Plug(c, g)))
      ensures Descend(cmp, Top, Plug(c, g), g.key) == (c, g)
      ensures g.key in MapOf(Inorder(Plug(c, g))) && MapOf(Inorder(Plug(c, g)))[g.key] == g.value
      ensures MapOf(Inorder(Plug(c, g)))[g.key := g.value] == MapOf(Inorder(Plug(c, g)))
    {
      var l, r := Before(c) + Inorder(g.left), Inorder(g.right) + After(c);
      FocusInorder(c, g);
      SortedSplit(cmp, l, (g.key, g.value), r);
      BelowPrefix(cmp, Before(c), Inorder(g.left), g.key);
      AboveSuffix(cmp, g.key, Inorder(g.right), After(c));
      DescendFromTop(cmp, c, g, g.key);
      assert OrderAt(cmp, g.key, g.key, g.key);
      FocusMap(c, g);
    }

    /** Case 3 with a red uncle, up to the recursive call. */
    method Recolor(node: Node<K, V, Color>, uncle: Node<K, V, Color>, grandparent: Node<K, V, Color>,
                   ghost c: Ctx<K, V, Color>, ghost f: Tree<K, V, Color>)
      requires Heap(c, f) && Root(f) == node && IsRed(f) && CtxRed(c) && Repairable(c, f)
      requires uncle == Root(Sibling(c.up)) && grandparent == c.up.node && IsRed(Sibling(c.up))
      requires root == Root(Plug(c, f)) && TotalOrder(cmp) && Sorted(cmp, Inorder(Plug(c, f)))
      modifies this`tree, CtxNodes(c), Nodes(f)
      ensures AlmostValid(grandparent.key) && Map() == MapOf(Inorder(Plug(c, f)))
      ensures Nodes(tree) == CtxNodes(c) + Nodes(f)
      ensures Descend(cmp, Top, tree, grandparent.key).0 == c.up.up
      ensures grandparent.key in Map() && Map()[grandparent.key] == grandparent.value
    {
      Relatives(c, f);
      RecoloredView(c, f);
      PaintRecolored(node.parent, uncle, grandparent, c, f);
      RootFields(c.up.up, Recolored(c, f));
      ViewWhole(c.up.up, Recolored(c, f));
    }

    /** The pure side of repainting under a red uncle. */
    lemma RecoloredView(c: Ctx<K, V, Color>, f: Tree<K, V, Color>)
      requires IsRed(f) && CtxRed(c) && Repairable(c, f) && IsRed(Sibling(c.up))
      requires TotalOrder(cmp) && Sorted(cmp, Inorder(Plug(c, f)))
      ensures var c2, g := c.up.up, Recolored(c, f); var t := Plug(c2, g);
        && g.Bin? && Repairable(c2, g) && Descend(cmp, Top, t, g.key) == (c2, g)
        && Inorder(t) == Inorder(Plug(c, f)) && Root(t) == Root(Plug(c, f))
        && g.key in MapOf(Inorder(t)) && MapOf(Inorder(t))[g.key] == g.value
        && CtxNodes(c2) + Nodes(g) == CtxNodes(c) + Nodes(f)
    {
      RecolorRB(c, f);
      RecoloredSame(c, f);
      FocusSearch(c.up.up, Recolored(c, f));
    }

    /** The focused view becomes the whole tree. */
    ghost method ViewWhole(c: Ctx<K, V, Color>, t: Tree<K, V, Color>)
      requires Heap(c, t) && root == Root(Plug(c, t)) && TotalOrder(cmp) && Sorted(cmp, Inorder(Plug(c, t)))
      modifies this`tree
      ensures tree == Plug(c, t) && Shape() && Nodes(tree) == CtxNodes(c) + Nodes(t)
    {
      PlugAll(c, t);
      tree := Plug(c, t);
    }

    /** Case 3 with a red uncle: repaint and add the grandparent's own pair again. */
    method RepairRecolor(node: Node<K, V, Color>, uncle: Node<K, V, Color>, grandparent: Node<K, V, Color>,
                         ghost c: Ctx<K, V, Color>, ghost f: Tree<K, V, Color>)
      requires Heap(c, f) && Root(f) == node && IsRed(f) && CtxRed(c) && Repairable(c, f)
      requires uncle == Root(Sibling(c.up)) && grandparent == c.up.node && IsRed(Sibling(c.up))
      requires root == Root(Plug(c, f)) && TotalOrder(cmp) && Sorted(cmp, Inorder(Plug(c, f)))
      modifies this, CtxNodes(c), Nodes(f)
      ensures Valid() && Map() == MapOf(Inorder(Plug(c, f))) && freed == old(freed)
      ensures forall n :: n in Nodes(tree) ==> n in CtxNodes(c) + Nodes(f) || fresh(n)
      decreases Depth(c), 0
    {
      Recolor(node, uncle, grandparent, c, f);
      assert Depth(c) == 1 + Depth(c.up) == 2 + Depth(c.up.up);
      var _ := Add(grandparent.key, grandparent.value);
    }

    /** Case 3 and below: both the node and its parent are red. */
    method Repair(node: Node<K, V, Color>, ghost c: Ctx<K, V, Color>, ghost f: Tree<K, V, Color>)
      requires Heap(c, f) && Root(f) == node && IsRed(f) && CtxRed(c) && Repairable(c, f)
      requires root == Root(Plug(c, f)) && TotalOrder(cmp) && Sorted(cmp, Inorder(Plug(c, f)))
      modifies this, CtxNodes(c), Nodes(f)
      ensures Valid() && Map() == MapOf(Inorder(Plug(c, f))) && freed == old(freed)
      ensures forall n :: n in Nodes(tree) ==> n in CtxNodes(c) + Nodes(f) || fresh(n)
      decreases Depth(c), 1
    {
      Relatives(c, f);
      UncleColor(c, f);
      var uncle, grandparent := Uncle(node), Grandparent(node);
      if uncle != null && uncle.attr.Red? {
        RepairRecolor(node, uncle, grandparent, c, f);
      } else if (node == node.parent.right && node.parent == grandparent.left)
             || (node == node.parent.left && node.parent == grandparent.right) {
        RepairInner(node, c, f);
      } else {
        RepairOuter(node, c, f);
      }
    }

    lemma UncleColor(c: Ctx<K, V, Color>, f: Tree<K, V, Color>)
      requires Heap(c, f) && f.Bin? && !c.Top? && !c.up.Top?
      ensures var u := Root(Sibling(c.up)); u != null && u.attr.Red? <==> IsRed(Sibling(c.up))
    {
      RaiseAll(c, f);
      AcrossAll(c.up, Raise(c, f));
      if Sibling(c.up).Bin? {
        RootFields(Across(c.up, Raise(c, f)), Sibling(c.up));
      }
    }

    /** The part of `rbt_add` after `rbt_add_internal`. */
    method Settle(node: Node<K, V, Color>, rc: int, ghost c: Ctx<K, V, Color>, ghost g: Tree<K, V, Color>)
      returns (r: int)
      requires Heap(c, g) && Root(g) == node && Repairable(c, g) && (g.attr.Black? ==> rc == 1)
      requires !c.Top? ==> root == Root(Plug(c, g))
      requires TotalOrder(cmp) && Sorted(cmp, Inorder(Plug(c, g)))
      modifies this, CtxNodes(c), Nodes(g)
      ensures Valid() && Map() == MapOf(Inorder(Plug(c, g))) && freed == old(freed)
      ensures r == rc
      ensures forall n :: n in Nodes(tree) ==> n in CtxNodes(c) + Nodes(g) || fresh(n)
      decreases Depth(c), 2
    {
      RootFields(c, g);
      if node.attr.Black? {
        // the key was already present and only its value has changed
        if node.parent == null {
          root := node;
        }
        Finish(c, g);
        return 1;
      }
      if node.parent == null {
        Paint(node, Black, c, g);
        root := node;
        Finish(Top, Painted(g, Black));
      } else {
        RaiseAll(c, g);
        RootFields(c.up, Raise(c, g));
        if node.parent.attr.Black? {
          Finish(c, g);
          return rc;
        } else {
          Repair(node, c, g);
        }
      }
      return rc;
    }

    /** `rbt_add`. Also called by itself on a tree with one red-red violation, at the key added. */
    method Add(k: K, v: V) returns (rc: int)
      requires Valid() || AlmostValid(k)
      modifies this, Nodes(tree)
      ensures Valid() && Map() == old(Map())[k := v]
      ensures rc == if k in old(Map()) then 1 else 0
      ensures freed == old(freed) +
        if hasFreeCallback && k in old(Map()) && old(Map()[k]) != v then [old(Map()[k])] else []
      ensures forall n :: n in Nodes(tree) ==> n in old(Nodes(tree)) || fresh(n)
      decreases Depth(Descend(cmp, Top, tree, k).0), 4
    {
      ghost var t0 := tree;
      assert allocated(t0);
      assert allocated(Nodes(t0));
      var node := new Node(k, v, Red);
      if root == null {
        AddFirst(node);
        rc := 0;
      } else {
        rc := AddNode(node);
      }
    }

    method AddFirst(node: Node<K, V, Color>)
      requires TotalOrder(cmp) && node.left == node.right == node.parent == null
      modifies this`root, this`tree, node`attr
      ensures Valid() && Map() == map[node.key := node.value] && Nodes(tree) == {node}
    {
      node.attr := Black;
      root := node;
      tree := Bin(Leaf, node, node.key, node.value, Black, Leaf);
      SingleNode(node, node.key, node.value, Black);
      MapOfSnoc([], (node.key, node.value));
      assert [] + [(node.key, node.value)] == [(node.key, node.value)];
      assert RB(tree.left) && RB(tree.right);
    }

    /** The part of `rbt_add` for a tree that is not empty. */
    method AddNode(node: Node<K, V, Color>) returns (rc: int)
      requires (Valid() || AlmostValid(node.key)) && root != null && node !in Nodes(tree)
      requires node.left == node.right == null && node.attr.Red?
      modifies this, node, Nodes(tree)
      ensures Valid() && Map() == old(Map())[old(node.key) := old(node.value)]
      ensures rc == if old(node.key) in old(Map()) then 1 else 0
      ensures freed == old(freed) +
        if hasFreeCallback && old(node.key in Map() && Map()[node.key] != node.value)
        then [old(Map()[node.key])] else []
      ensures forall n :: n in Nodes(tree) ==> n in old(Nodes(tree)) || n == node || fresh(n)
      decreases Depth(Descend(cmp, Top, tree, node.key).0), 3
    {
      ghost var t0, k, v := tree, node.key, node.value;
      ghost var (c, f) := Descend(cmp, Top, t0, k);
      SearchPlace(t0, k, node, v);
      rc := AddInternal(root, node, Top, t0);
      RootMoves(c, f, Placed(f, node, k, v));
      ghost var between := CtxNodes(c) + Nodes(Placed(f, node, k, v));
      assert between <= Nodes(t0) + {node};
      rc := Settle(node, rc, c, Placed(f, node, k, v));
    }

    /** The pure side of placing a pair where the search for its key ends. */
    lemma SearchPlace(t: Tree<K, V, Color>, k: K, n: Node<K, V, Color>, v: V)
      requires TotalOrder(cmp) && Sorted(cmp, Inorder(t))
      requires (RB(t) && !IsRed(t)) || var (c, f) := Descend(cmp, Top, t, k); Repairable(c, f)
      ensures var (c, f) := Descend(cmp, Top, t, k);
        && Plug(c, f) == t && Repairable(c, Placed(f, n, k, v))
        && Sorted(cmp, Inorder(Plug(c, Placed(f, n, k, v))))
        && MapOf(Inorder(Plug(c, Placed(f, n, k, v)))) == MapOf(Inorder(t))[k := v]
        && (k in MapOf(Inorder(t)) <==> f.Bin?)
        && (f.Bin? ==> MapOf(Inorder(t))[k] == f.value)
    {
      var (c, f) := Descend(cmp, Top, t, k);
      DescendCorrect(cmp, Top, t, k);
      if RB(t) && !IsRed(t) { DescendRB(cmp, Top, t, k); }
      PlacedRB(c, f, n, k, v);
      PlacedContents(cmp, c, f, n, k, v);
      FocusLookup(cmp, c, f, k);
    }

    /** `rbt_find_internal`: the plain recursion ends where the search path ends. */
    function FindInternal(node: Node?<K, V, Color>, key: K, ghost c: Ctx<K, V, Color>, ghost t: Tree<K, V, Color>)
      : (r: Node?<K, V, Color>)
      requires Heap(c, t) && Root(t) == node
      reads CtxNodes(c), Nodes(t)
      ensures r == Root(Descend(cmp, c, t, key).1)
      ensures r != null ==> r in CtxNodes(c) + Nodes(t) && r.value == Descend(cmp, c, t, key).1.value
      decreases t
    {
      if node == null then null
      else
        RootFields(c, t);
        var rc := cmp(node.key, key);
        if rc == 0 then node
        else if rc > 0 then
          ghost var c' := InLeft(c, t.node, t.key, t.value, t.attr, t.right);
          RaiseAll(c', t.left);
          FindInternal(node.left, key, c', t.left)
        else
          ghost var c' := InRight(c, t.left, t.node, t.key, t.value, t.attr);
          RaiseAll(c', t.right);
          FindInternal(node.right, key, c', t.right)
    }

    method Find(k: K) returns (rc: int, v: Option<V>)
      requires Valid()
      ensures k in Map() ==> rc == 0 && v == Some(Map()[k])
      ensures k !in Map() ==> rc == -1 && v == None
    {
      DescendLookup(cmp, tree, k);
      var node := FindInternal(root, k, Top, tree);
      if node == null {
        return -1, None;
      }
      return 0, Some(node.value);
    }

    method WalkSorted() returns (rc: int, visited: seq<(K, V)>)
      requires Valid()
      ensures Sorted(cmp, visited) && MapOf(visited) == Map()
      ensures rc == |visited| == |Map()|
    {
      SortedSize(cmp, Inorder(tree));
      if root == null {
        return 0, [];
      }
      var r := SortedWalk(root, Top, tree);
      rc, visited := r.0, r.1;
    }

    /** The tree is never higher than 2 log2(n + 1). */
    lemma ValidHeight()
      requires Valid()
      ensures Pow2(Height(tree)) <= (|Map()| + 1) * (|Map()| + 1)
    {
      HeightBound(tree);
      SortedSize(cmp, Inorder(tree));
    }
  }

  function AfterAdds<K(==), V>(adds: seq<(K, V)>): map<K, V>
  {
    if adds == [] then map[] else AfterAdds(adds[..|adds| - 1])[adds[|adds| - 1].0 := adds[|adds| - 1].1]
  }

  /** A run of additions leaves the last value added for every key, and no other key. */
  lemma {:induction false} LastAdded<K, V>(adds: seq<(K, V)>, k: K)
    ensures k in AfterAdds(adds) <==> exists i :: 0 <= i < |adds| && adds[i].0 == k
    ensures forall i :: 0 <= i < |adds| && adds[i].0 == k && (forall j :: i < j < |adds| ==> adds[j].0 != k) ==>
      k in AfterAdds(adds) && AfterAdds(adds)[k] == adds[i].1
  {
    if adds != [] {
      var before, last := adds[..|adds| - 1], |adds| - 1;
      LastAdded(before, k);
      assert forall i :: 0 <= i < |before| ==> before[i] == adds[i];
      if adds[last].0 != k {
        forall i | 0 <= i < |adds| && adds[i].0 == k && (forall j :: i < j < |adds| ==> adds[j].0 != k)
          ensures k in AfterAdds(adds) && AfterAdds(adds)[k] == adds[i].1
        {
          assert before[i].0 == k;
        }
      }
    }
  }

  /** Any run of additions on an empty tree. */
  method AddRun<K(==, !new), V(==)>(cmp: (K, K) -> int, adds: seq<(K, V)>) returns (rbt: Rbt<K, V>)
    requires TotalOrder(cmp)
    ensures rbt.Valid() && rbt.Map() == AfterAdds(adds)
    ensures Pow2(Height(rbt.tree)) <= (|rbt.Map()| + 1) * (|rbt.Map()| + 1)
  {
    rbt := new Rbt(cmp, true);
    for i := 0 to |adds|
      invariant rbt.Valid() && fresh(rbt) && forall n :: n in Nodes(rbt.tree) ==> fresh(n)
      invariant rbt.Map() == AfterAdds(adds[..i])
    {
      assert adds[..i + 1][..i] == adds[..i];
      var _ := rbt.Add(adds[i].0, adds[i].1);
    }
    assert adds[..|adds|] == adds;
    rbt.ValidHeight();
  }
}
