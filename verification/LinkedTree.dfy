/**
 Binary tree nodes with parent links, as both `rbtree.c` and `avltree.c` lay them out, and
 the two ghost views every proof about them uses: the tree below a node (`Tree`) and the
 path above it (`Ctx`). `Heap(c, t)` says that the allocated nodes really are `t` hanging
 in `c`: child and parent links agree, fields hold the recorded data, no node is shared.
 */
module LinkedTree {
  import opened Order
  import opened Sequences

  class Node<K, V, A> {
    var key: K
    var value: V
    var attr: A            // colour, or the two stored heights
    var left: Node?<K, V, A>
    var right: Node?<K, V, A>
    var parent: Node?<K, V, A>

    constructor (k: K, v: V, a: A)
      ensures key == k && value == v && attr == a
      ensures left == null && right == null && parent == null
    {
      key, value, attr := k, v, a;
      left, right, parent := null, null, null;
    }
  }

  datatype Tree<K, V, A> =
    | Leaf
    | Bin(left: Tree<K, V, A>, node: Node<K, V, A>, key: K, value: V, attr: A, right: Tree<K, V, A>)

  /** The path from a position up to the root, innermost frame first. */
  datatype Ctx<K, V, A> =
    | Top
    | InLeft(up: Ctx<K, V, A>, node: Node<K, V, A>, key: K, value: V, attr: A, right: Tree<K, V, A>)
    | InRight(up: Ctx<K, V, A>, left: Tree<K, V, A>, node: Node<K, V, A>, key: K, value: V, attr: A)

  ghost function Root<K, V, A>(t: Tree<K, V, A>): (r: Node?<K, V, A>)
    ensures r != null ==> r in Nodes(t)
  {
    if t.Leaf? then null else t.node
  }

  ghost function Nodes<K, V, A>(t: Tree<K, V, A>): set<Node<K, V, A>>
  {
    if t.Leaf? then {} else Nodes(t.left) + {t.node} + Nodes(t.right)
  }

  ghost predicate Distinct<K, V, A>(t: Tree<K, V, A>)
  {
    t.Bin? ==>
      && Distinct(t.left) && Distinct(t.right)
      && t.node !in Nodes(t.left) && t.node !in Nodes(t.right)
      && Nodes(t.left) !! Nodes(t.right)
  }

  ghost function Parent<K, V, A>(c: Ctx<K, V, A>): Node?<K, V, A>
  {
    if c.Top? then null else c.node
  }

  ghost function CtxNodes<K, V, A>(c: Ctx<K, V, A>): set<Node<K, V, A>>
  {
    match c
    case Top => {}
    case InLeft(up, n, _, _, _, r) => CtxNodes(up) + {n} + Nodes(r)
    case InRight(up, l, n, _, _, _) => CtxNodes(up) + {n} + Nodes(l)
  }

  ghost predicate DistinctCtx<K, V, A>(c: Ctx<K, V, A>)
  {
    match c
    case Top => true
    case InLeft(up, n, _, _, _, r) =>
      && DistinctCtx(up) && Distinct(r)
      && n !in Nodes(r) && n !in CtxNodes(up) && Nodes(r) !! CtxNodes(up)
    case InRight(up, l, n, _, _, _) =>
      && DistinctCtx(up) && Distinct(l)
      && n !in Nodes(l) && n !in CtxNodes(up) && Nodes(l) !! CtxNodes(up)
  }

  ghost predicate Apart<K, V, A>(c: Ctx<K, V, A>, t: Tree<K, V, A>)
  {
    DistinctCtx(c) && Distinct(t) && CtxNodes(c) !! Nodes(t)
  }

  // ---------- what the fields of the nodes must be ----------

  datatype Cell<K, V, A> = Cell(left: Node?<K, V, A>, right: Node?<K, V, A>, parent: Node?<K, V, A>,
                                key: K, value: V, attr: A)

  type Cells<K, V, A> = map<Node<K, V, A>, Cell<K, V, A>>

  /** The fields `t` prescribes for its node `x`, with `p` as the parent of its root. */
  ghost function CellAt<K, V, A>(t: Tree<K, V, A>, p: Node?<K, V, A>, x: Node<K, V, A>): Cell<K, V, A>
    requires x in Nodes(t)
  {
    if x == t.node then Cell(Root(t.left), Root(t.right), p, t.key, t.value, t.attr)
    else if x in Nodes(t.left) then CellAt(t.left, t.node, x)
    else CellAt(t.right, t.node, x)
  }

  ghost function CtxCellAt<K, V, A>(c: Ctx<K, V, A>, child: Node?<K, V, A>, x: Node<K, V, A>): Cell<K, V, A>
    requires x in CtxNodes(c)
  {
    if x == c.node then
      if c.InLeft? then Cell(child, Root(c.right), Parent(c.up), c.key, c.value, c.attr)
      else Cell(Root(c.left), child, Parent(c.up), c.key, c.value, c.attr)
    else if x in CtxNodes(c.up) then CtxCellAt(c.up, c.node, x)
    else CellAt(Sibling(c), c.node, x)
  }

  ghost function FocusCellAt<K, V, A>(c: Ctx<K, V, A>, t: Tree<K, V, A>, x: Node<K, V, A>): Cell<K, V, A>
    requires x in CtxNodes(c) + Nodes(t)
  {
    if x in Nodes(t) then CellAt(t, Parent(c), x) else CtxCellAt(c, Root(t), x)
  }

  ghost function All<K, V, A>(c: Ctx<K, V, A>, t: Tree<K, V, A>): (m: Cells<K, V, A>)
  {
    map x | x in CtxNodes(c) + Nodes(t) :: FocusCellAt(c, t, x)
  }

  ghost predicate Fields<K, V, A>(n: Node<K, V, A>, x: Cell<K, V, A>)
    reads n
  {
    && n.left == x.left && n.right == x.right && n.parent == x.parent
    && n.key == x.key && n.value == x.value && n.attr == x.attr
  }

  /** The neighbours of `x` are recorded too. */
  ghost predicate Closed<K, V, A>(m: Cells<K, V, A>, x: Node<K, V, A>)
  {
    && x in m
    && (m[x].left != null ==> m[x].left in m)
    && (m[x].right != null ==> m[x].right in m)
    && (m[x].parent != null ==> m[x].parent in m)
  }

  ghost predicate Match<K, V, A>(m: Cells<K, V, A>)
    reads m.Keys
  {
    forall n :: n in m ==> Fields(n, m[n])
  }

  ghost predicate Heap<K, V, A>(c: Ctx<K, V, A>, t: Tree<K, V, A>)
    reads CtxNodes(c), Nodes(t)
  {
    Apart(c, t) && Match(All(c, t))
  }

  lemma RootFields<K, V, A>(c: Ctx<K, V, A>, t: Tree<K, V, A>)
    requires Heap(c, t) && t.Bin?
    ensures t.node in All(c, t)
    ensures Fields(t.node, Cell(Root(t.left), Root(t.right), Parent(c), t.key, t.value, t.attr))
  {
    assert t.node in All(c, t) && Fields(t.node, All(c, t)[t.node]);
  }

  /** Fill the hole of `c` with `t`. */
  ghost function Plug<K, V, A>(c: Ctx<K, V, A>, t: Tree<K, V, A>): Tree<K, V, A>
    decreases c
  {
    match c
    case Top => t
    case InLeft(up, n, k, v, a, r) => Plug(up, Bin(t, n, k, v, a, r))
    case InRight(up, l, n, k, v, a) => Plug(up, Bin(l, n, k, v, a, t))
  }

  ghost function Depth<K, V, A>(c: Ctx<K, V, A>): nat
  {
    if c.Top? then 0 else 1 + Depth(c.up)
  }

  /** One step up: the subtree of the innermost frame. */
  ghost function Raise<K, V, A>(c: Ctx<K, V, A>, t: Tree<K, V, A>): (r: Tree<K, V, A>)
    requires !c.Top?
    ensures r.Bin? && r.node == c.node
  {
    match c
    case InLeft(_, n, k, v, a, r) => Bin(t, n, k, v, a, r)
    case InRight(_, l, n, k, v, a) => Bin(l, n, k, v, a, t)
  }

  ghost function Sibling<K, V, A>(c: Ctx<K, V, A>): Tree<K, V, A>
    requires !c.Top?
  {
    if c.InLeft? then c.right else c.left
  }

  /** The same place seen from the sibling's side. */
  ghost function Across<K, V, A>(c: Ctx<K, V, A>, t: Tree<K, V, A>): Ctx<K, V, A>
    requires !c.Top?
  {
    match c
    case InLeft(up, n, k, v, a, r) => InRight(up, t, n, k, v, a)
    case InRight(up, l, n, k, v, a) => InLeft(up, n, k, v, a, t)
  }

  lemma RaiseAll<K, V, A>(c: Ctx<K, V, A>, t: Tree<K, V, A>)
    requires !c.Top?
    ensures Apart(c, t) <==> Apart(c.up, Raise(c, t))
    ensures Apart(c, t) ==> All(c, t) == All(c.up, Raise(c, t))
    ensures CtxNodes(c) + Nodes(t) == CtxNodes(c.up) + Nodes(Raise(c, t))
  {
    if Apart(c, t) {
      forall x | x in CtxNodes(c) + Nodes(t)
        ensures FocusCellAt(c, t, x) == FocusCellAt(c.up, Raise(c, t), x)
      {
      }
    }
  }

  lemma AcrossAll<K, V, A>(c: Ctx<K, V, A>, t: Tree<K, V, A>)
    requires !c.Top?
    ensures Raise(Across(c, t), Sibling(c)) == Raise(c, t)
    ensures Apart(c, t) <==> Apart(Across(c, t), Sibling(c))
    ensures Apart(c, t) ==> All(c, t) == All(Across(c, t), Sibling(c))
    ensures CtxNodes(c) + Nodes(t) == CtxNodes(Across(c, t)) + Nodes(Sibling(c))
  {
    RaiseAll(c, t);
    RaiseAll(Across(c, t), Sibling(c));
  }

  /** A focused view and the whole tree prescribe the same fields. */
  lemma {:induction false} PlugAll<K, V, A>(c: Ctx<K, V, A>, t: Tree<K, V, A>)
    ensures Apart(c, t) <==> Distinct(Plug(c, t))
    ensures Apart(c, t) ==> All(c, t) == All(Top, Plug(c, t))
    ensures Nodes(Plug(c, t)) == CtxNodes(c) + Nodes(t)
    decreases c
  {
    if !c.Top? {
      RaiseAll(c, t);
      PlugAll(c.up, Raise(c, t));
    }
  }

  /** What fills the hole does not matter to the root of a non-empty path. */
  lemma {:induction false} PlugRoot<K, V, A>(c: Ctx<K, V, A>, t: Tree<K, V, A>, u: Tree<K, V, A>)
    requires !c.Top?
    ensures Root(Plug(c, t)) == Root(Plug(c, u)) != null
    ensures Root(Plug(c, t)) in CtxNodes(c)
    decreases c
  {
    if !c.up.Top? {
      match c
      case InLeft(up, n, k, v, a, r) => PlugRoot(up, Bin(t, n, k, v, a, r), Bin(u, n, k, v, a, r));
      case InRight(up, l, n, k, v, a) => PlugRoot(up, Bin(l, n, k, v, a, t), Bin(l, n, k, v, a, u));
    }
  }

  ghost function RotatedRight<K, V, A>(t: Tree<K, V, A>): Tree<K, V, A>
    requires t.Bin? && t.left.Bin?
  {
    var l := t.left;
    Bin(l.left, l.node, l.key, l.value, l.attr, Bin(l.right, t.node, t.key, t.value, t.attr, t.right))
  }

  ghost function RotatedLeft<K, V, A>(t: Tree<K, V, A>): Tree<K, V, A>
    requires t.Bin? && t.right.Bin?
  {
    var r := t.right;
    Bin(Bin(t.left, t.node, t.key, t.value, t.attr, r.left), r.node, r.key, r.value, r.attr, r.right)
  }

  /** `if (x) x->parent = p` on the recorded fields. */
  ghost function Hung<K, V, A>(m: Cells<K, V, A>, x: Node?<K, V, A>, p: Node?<K, V, A>)
    : Cells<K, V, A>
    requires x != null ==> x in m
  {
    if x == null then m else m[x := m[x].(parent := p)]
  }

  /** In the parent `q`, if any, the child `o` is replaced by `n`. */
  ghost function ChildSwapped<K, V, A>(m: Cells<K, V, A>, q: Node?<K, V, A>,
                                       o: Node<K, V, A>, n: Node?<K, V, A>)
    : Cells<K, V, A>
    requires q != null ==> q in m
  {
    if q == null then m
    else m[q := if m[q].left == o then m[q].(left := n) else m[q].(right := n)]
  }

  /** Only the innermost frame depends on what is in the hole. */
  lemma ChildCell<K, V, A>(c: Ctx<K, V, A>, o: Node?<K, V, A>, n: Node?<K, V, A>, x: Node<K, V, A>)
    requires DistinctCtx(c) && x in CtxNodes(c)
    ensures c.node in CtxNodes(c)
    ensures var a, b := CtxCellAt(c, o, x), CtxCellAt(c, n, x);
      && b == (if x != c.node then a else if c.InLeft? then a.(left := n) else a.(right := n))
      && (x == c.node && o != null && o !in CtxNodes(c) ==> (a.left == o <==> c.InLeft?))
  {
  }

  lemma RehangAt<K, V, A>(t: Tree<K, V, A>, p: Node?<K, V, A>, q: Node?<K, V, A>, x: Node<K, V, A>)
    requires x in Nodes(t)
    ensures CellAt(t, q, x) == if x == Root(t) then CellAt(t, p, x).(parent := q) else CellAt(t, p, x)
  {
  }

  method SetParent<K, V, A>(x: Node?<K, V, A>, p: Node?<K, V, A>, ghost m: Cells<K, V, A>)
    requires Match(m) && (x != null ==> x in m)
    modifies if x == null then {} else {x}
    ensures Match(Hung(m, x, p))
  {
    if x != null {
      x.parent := p;
    }
  }

  method SwapChild<K, V, A>(q: Node?<K, V, A>, o: Node<K, V, A>, n: Node?<K, V, A>,
                            ghost m: Cells<K, V, A>)
    requires Match(m) && (q != null ==> q in m)
    modifies if q == null then {} else {q}
    ensures Match(ChildSwapped(m, q, o, n))
  {
    if q != null {
      if q.left == o {
        q.left := n;
      } else {
        q.right := n;
      }
    }
  }

  /** The field changes of a rotation at `n`: four nodes at most. */
  ghost predicate RotationRight<K, V, A>(m: Cells<K, V, A>, m': Cells<K, V, A>,
                                     n: Node<K, V, A>)
  {
    && n in m && m[n].left != null && m[n].left in m
    && var p, q := m[n].left, m[n].parent;
      var b := m[p].right;
      && n != p && b != n && b != p && (b != null ==> b in m)
      && q != n && q != p && (q != null ==> q in m && q != b)
      && m'.Keys == m.Keys
      && m'[n] == m[n].(left := b, parent := p)
      && m'[p] == m[p].(right := n, parent := q)
      && (b != null ==> m'[b] == m[b].(parent := n))
      && (q != null ==> m'[q] == if m[q].left == n then m[q].(left := p) else m[q].(right := p))
      && (forall x :: x in m && x != n && x != p && x != b && x != q ==> m'[x] == m[x])
  }

  lemma RotateRightApart<K, V, A>(c: Ctx<K, V, A>, t: Tree<K, V, A>)
    requires Apart(c, t) && t.Bin? && t.left.Bin?
    ensures Apart(c, RotatedRight(t)) && Nodes(RotatedRight(t)) == Nodes(t)
  {
    assert Distinct(t.left);
  }

  lemma RotateRightAt<K, V, A>(t: Tree<K, V, A>, q: Node?<K, V, A>, x: Node<K, V, A>)
    requires Distinct(t) && t.Bin? && t.left.Bin? && x in Nodes(t)
    requires Nodes(RotatedRight(t)) == Nodes(t)
    ensures var n, p, b := t.node, t.left.node, Root(t.left.right);
      var o, o' := CellAt(t, q, x), CellAt(RotatedRight(t), q, x);
      o' == if x == n then o.(left := b, parent := p)
            else if x == p then o.(right := n, parent := q)
            else if x == b then o.(parent := n)
            else o
  {
    assert Distinct(t.left);
    if x in Nodes(t.left.right) {
      RehangAt(t.left.right, t.left.node, t.node, x);
    }
  }

  lemma RotateRightPivot<K, V, A>(t: Tree<K, V, A>, q: Node?<K, V, A>)
    requires Distinct(t) && t.Bin? && t.left.Bin?
    ensures var p := t.left; var b := Root(p.right);
      && {t.node, p.node} <= Nodes(t) && t.node != p.node
      && CellAt(t, q, t.node) == Cell(Root(t.left), Root(t.right), q, t.key, t.value, t.attr)
      && CellAt(t, q, p.node) == Cell(Root(p.left), Root(p.right), t.node, p.key, p.value, p.attr)
      && (b != null ==> b in Nodes(t) && b != t.node && b != p.node)
  {
    assert Distinct(t.left);
  }

  lemma RotateRightCells<K, V, A>(c: Ctx<K, V, A>, t: Tree<K, V, A>)
    requires Apart(c, t) && t.Bin? && t.left.Bin?
    ensures Apart(c, RotatedRight(t)) && Nodes(RotatedRight(t)) == Nodes(t)
    ensures RotationRight(All(c, t), All(c, RotatedRight(t)), t.node)
    ensures All(c, t)[t.node].parent == Parent(c) && All(c, t)[t.node].left == t.left.node
  {
    RotateRightApart(c, t);
    RotateRightPivot(t, Parent(c));
    forall x | x in Nodes(t) { RotateRightAt(t, Parent(c), x); }
    forall x | x in CtxNodes(c) { ChildCell(c, t.node, t.left.node, x); }
  }

  /** The field changes of a rotation at `n`: four nodes at most. */
  ghost predicate RotationLeft<K, V, A>(m: Cells<K, V, A>, m': Cells<K, V, A>,
                                     n: Node<K, V, A>)
  {
    && n in m && m[n].right != null && m[n].right in m
    && var p, q := m[n].right, m[n].parent;
      var b := m[p].left;
      && n != p && b != n && b != p && (b != null ==> b in m)
      && q != n && q != p && (q != null ==> q in m && q != b)
      && m'.Keys == m.Keys
      && m'[n] == m[n].(right := b, parent := p)
      && m'[p] == m[p].(left := n, parent := q)
      && (b != null ==> m'[b] == m[b].(parent := n))
      && (q != null ==> m'[q] == if m[q].left == n then m[q].(left := p) else m[q].(right := p))
      && (forall x :: x in m && x != n && x != p && x != b && x != q ==> m'[x] == m[x])
  }

  lemma RotateLeftApart<K, V, A>(c: Ctx<K, V, A>, t: Tree<K, V, A>)
    requires Apart(c, t) && t.Bin? && t.right.Bin?
    ensures Apart(c, RotatedLeft(t)) && Nodes(RotatedLeft(t)) == Nodes(t)
  {
    assert Distinct(t.right);
  }

  lemma RotateLeftAt<K, V, A>(t: Tree<K, V, A>, q: Node?<K, V, A>, x: Node<K, V, A>)
    requires Distinct(t) && t.Bin? && t.right.Bin? && x in Nodes(t)
    requires Nodes(RotatedLeft(t)) == Nodes(t)
    ensures var n, p, b := t.node, t.right.node, Root(t.right.left);
      var o, o' := CellAt(t, q, x), CellAt(RotatedLeft(t), q, x);
      o' == if x == n then o.(right := b, parent := p)
            else if x == p then o.(left := n, parent := q)
            else if x == b then o.(parent := n)
            else o
  {
    assert Distinct(t.right);
    if x in Nodes(t.right.left) {
      RehangAt(t.right.left, t.right.node, t.node, x);
    }
  }

  lemma RotateLeftPivot<K, V, A>(t: Tree<K, V, A>, q: Node?<K, V, A>)
    requires Distinct(t) && t.Bin? && t.right.Bin?
    ensures var p := t.right; var b := Root(p.left);
      && {t.node, p.node} <= Nodes(t) && t.node != p.node
      && CellAt(t, q, t.node) == Cell(Root(t.left), Root(t.right), q, t.key, t.value, t.attr)
      && CellAt(t, q, p.node) == Cell(Root(p.left), Root(p.right), t.node, p.key, p.value, p.attr)
      && (b != null ==> b in Nodes(t) && b != t.node && b != p.node)
  {
    assert Distinct(t.right);
  }

  lemma RotateLeftCells<K, V, A>(c: Ctx<K, V, A>, t: Tree<K, V, A>)
    requires Apart(c, t) && t.Bin? && t.right.Bin?
    ensures Apart(c, RotatedLeft(t)) && Nodes(RotatedLeft(t)) == Nodes(t)
    ensures RotationLeft(All(c, t), All(c, RotatedLeft(t)), t.node)
    ensures All(c, t)[t.node].parent == Parent(c) && All(c, t)[t.node].right == t.right.node
  {
    RotateLeftApart(c, t);
    RotateLeftPivot(t, Parent(c));
    forall x | x in Nodes(t) { RotateLeftAt(t, Parent(c), x); }
    forall x | x in CtxNodes(c) { ChildCell(c, t.node, t.right.node, x); }
  }

  /** Putting another node, with its own key, value and attribute, in the place of a root. */
  ghost function WithRoot<K, V, A>(t: Tree<K, V, A>, n: Node<K, V, A>, k: K, v: V, a: A): Tree<K, V, A>
  {
    if t.Leaf? then Bin(Leaf, n, k, v, a, Leaf) else Bin(t.left, n, k, v, a, t.right)
  }

  /** The field changes of a replacement of `o` by the node `n`. */
  ghost predicate Replacement<K, V, A>(m: Cells<K, V, A>, m': Cells<K, V, A>,
                                       o: Node<K, V, A>, n: Node<K, V, A>, k: K, v: V, a: A)
  {
    && o in m && n !in m
    && var l, r, q := m[o].left, m[o].right, m[o].parent;
      && l != o && (l != null ==> l in m && l != r && l != q)
      && r != o && (r != null ==> r in m && r != q)
      && q != o && (q != null ==> q in m)
      && m'.Keys == m.Keys - {o} + {n}
      && m'[n] == Cell(l, r, q, k, v, a)
      && (l != null ==> m'[l] == m[l].(parent := n))
      && (r != null ==> m'[r] == m[r].(parent := n))
      && (q != null ==> m'[q] == if m[q].left == o then m[q].(left := n) else m[q].(right := n))
      && (forall x :: x in m && x != o && x != l && x != r && x != q ==> m'[x] == m[x])
  }

  /** A replacement done by its individual assignments. */
  lemma ReplacementSteps<K, V, A>(m: Cells<K, V, A>, m': Cells<K, V, A>,
                                  o: Node<K, V, A>, n: Node<K, V, A>, k: K, v: V, a: A)
    requires Replacement(m, m', o, n, k, v, a)
    ensures var l, r, q := m[o].left, m[o].right, m[o].parent;
      var m3 := Hung(Hung(ChildSwapped(m, q, o, n), l, n), r, n);
      && m3[o] == m[o]
      && forall x :: x in m' && x != n ==> x in m3 && m3[x] == m'[x]
  {
  }

  lemma ReplacementMatch<K, V, A>(m: Cells<K, V, A>, m': Cells<K, V, A>,
                                  o: Node<K, V, A>, n: Node<K, V, A>, k: K, v: V, a: A)
    requires Replacement(m, m', o, n, k, v, a)
    requires Match(Hung(Hung(ChildSwapped(m, m[o].parent, o, n), m[o].left, n), m[o].right, n))
    requires Fields(n, Cell(m[o].left, m[o].right, m[o].parent, k, v, a))
    ensures Match(m')
  {
    ReplacementSteps(m, m', o, n, k, v, a);
  }

  lemma ReplaceAt<K, V, A>(t: Tree<K, V, A>, q: Node?<K, V, A>, n: Node<K, V, A>, k: K, v: V, a: A, x: Node<K, V, A>)
    requires Distinct(t) && t.Bin? && n !in Nodes(t) && x in Nodes(t) && x != t.node
    ensures var t', l, r := WithRoot(t, n, k, v, a), Root(t.left), Root(t.right);
      && x in Nodes(t')
      && CellAt(t', q, x) == if x == l || x == r then CellAt(t, q, x).(parent := n) else CellAt(t, q, x)
  {
    assert Distinct(t.left) && Distinct(t.right);
  }

  lemma ReplaceApart<K, V, A>(c: Ctx<K, V, A>, t: Tree<K, V, A>, n: Node<K, V, A>, k: K, v: V, a: A)
    requires Apart(c, t) && t.Bin? && n !in CtxNodes(c) + Nodes(t)
    ensures Apart(c, WithRoot(t, n, k, v, a))
    ensures Nodes(WithRoot(t, n, k, v, a)) == Nodes(t) - {t.node} + {n}
  {
  }

  lemma ReplaceCells<K, V, A>(c: Ctx<K, V, A>, t: Tree<K, V, A>, n: Node<K, V, A>, k: K, v: V, a: A)
    requires Apart(c, t) && t.Bin? && n !in CtxNodes(c) + Nodes(t)
    ensures Apart(c, WithRoot(t, n, k, v, a))
    ensures Nodes(WithRoot(t, n, k, v, a)) == Nodes(t) - {t.node} + {n}
    ensures Replacement(All(c, t), All(c, WithRoot(t, n, k, v, a)), t.node, n, k, v, a)
    ensures All(c, t)[t.node] == Cell(Root(t.left), Root(t.right), Parent(c), t.key, t.value, t.attr)
  {
    ReplaceApart(c, t, n, k, v, a);
    forall x | x in Nodes(t) && x != t.node { ReplaceAt(t, Parent(c), n, k, v, a, x); }
    forall x | x in CtxNodes(c) { ChildCell(c, t.node, n, x); }
  }

  /** Hanging a new leaf in an empty place. */
  lemma AttachCells<K, V, A>(c: Ctx<K, V, A>, n: Node<K, V, A>, k: K, v: V, a: A)
    requires DistinctCtx(c) && !c.Top? && n !in CtxNodes(c)
    ensures var t := WithRoot(Leaf, n, k, v, a); var m, m' := All(c, Leaf), All(c, t);
      && Apart(c, t) && Nodes(t) == {n} && c.node in m && m'.Keys == m.Keys + {n}
      && m'[n] == Cell(null, null, c.node, k, v, a)
      && m'[c.node] == (if c.InLeft? then m[c.node].(left := n) else m[c.node].(right := n))
      && forall x :: x in m && x != c.node ==> m'[x] == m[x]
  {
    forall x | x in CtxNodes(c) { ChildCell(c, null, n, x); }
  }

  lemma Regroup<T>(a: seq<T>, x: T, b: seq<T>, y: T, c: seq<T>)
    ensures a + [x] + (b + [y] + c) == (a + [x] + b) + [y] + c
  {
  }

  lemma RotateRightInorder<K, V, A>(t: Tree<K, V, A>)
    requires t.Bin? && t.left.Bin?
    ensures Inorder(RotatedRight(t)) == Inorder(t)
  {
    var l := t.left;
    Regroup(Inorder(l.left), (l.key, l.value), Inorder(l.right), (t.key, t.value), Inorder(t.right));
  }

  lemma RotateLeftInorder<K, V, A>(t: Tree<K, V, A>)
    requires t.Bin? && t.right.Bin?
    ensures Inorder(RotatedLeft(t)) == Inorder(t)
  {
    var r := t.right;
    Regroup(Inorder(t.left), (t.key, t.value), Inorder(r.left), (r.key, r.value), Inorder(r.right));
  }

  // ---------- contents ----------

  ghost function Inorder<K, V, A>(t: Tree<K, V, A>): seq<(K, V)>
  {
    if t.Leaf? then [] else Inorder(t.left) + [(t.key, t.value)] + Inorder(t.right)
  }

  /** What comes before the hole of `c` in key order. */
  ghost function Before<K, V, A>(c: Ctx<K, V, A>): seq<(K, V)>
  {
    match c
    case Top => []
    case InLeft(up, _, _, _, _, _) => Before(up)
    case InRight(up, l, _, k, v, _) => Before(up) + Inorder(l) + [(k, v)]
  }

  ghost function After<K, V, A>(c: Ctx<K, V, A>): seq<(K, V)>
  {
    match c
    case Top => []
    case InLeft(up, _, k, v, _, r) => [(k, v)] + Inorder(r) + After(up)
    case InRight(up, _, _, _, _, _) => After(up)
  }

  lemma RaiseInorder<K, V, A>(c: Ctx<K, V, A>, t: Tree<K, V, A>)
    requires !c.Top?
    ensures Before(c.up) + Inorder(Raise(c, t)) + After(c.up) == Before(c) + Inorder(t) + After(c)
  {
    if c.InLeft? {
      TakeRest(Before(c.up), Inorder(t), [(c.key, c.value)], Inorder(c.right), After(c.up));
    } else {
      TakeFront(Before(c.up), Inorder(c.left), [(c.key, c.value)], Inorder(t), After(c.up));
    }
  }

  lemma {:induction false} PlugInorder<K, V, A>(c: Ctx<K, V, A>, t: Tree<K, V, A>)
    ensures Inorder(Plug(c, t)) == Before(c) + Inorder(t) + After(c)
    decreases c
  {
    if !c.Top? {
      RaiseInorder(c, t);
      PlugInorder(c.up, Raise(c, t));
    }
  }

  /** Replacing a subtree by one with the same contents keeps the contents of the whole. */
  lemma PlugSame<K, V, A>(c: Ctx<K, V, A>, t: Tree<K, V, A>, u: Tree<K, V, A>)
    requires Inorder(t) == Inorder(u)
    ensures Inorder(Plug(c, t)) == Inorder(Plug(c, u))
    ensures Root(t) == Root(u) ==> Root(Plug(c, t)) == Root(Plug(c, u))
  {
    PlugInorder(c, t);
    PlugInorder(c, u);
    if !c.Top? { PlugRoot(c, t, u); }
  }

  /** Inorder contents around a focused node. */
  lemma FocusInorder<K, V, A>(c: Ctx<K, V, A>, f: Tree<K, V, A>)
    requires f.Bin?
    ensures Inorder(Plug(c, f))
         == (Before(c) + Inorder(f.left)) + [(f.key, f.value)] + (Inorder(f.right) + After(c))
  {
    PlugInorder(c, f);
    Reassociate(Before(c), Inorder(f.left), [(f.key, f.value)], Inorder(f.right), After(c));
  }

  // ---------- search ----------

  /** Where a search for `k` starting at `t` under `c` ends: at the node holding `k`, or at
      the empty place where it belongs. */
  ghost function Descend<K, V, A>(cmp: (K, K) -> int, c: Ctx<K, V, A>, t: Tree<K, V, A>, k: K)
    : (r: (Ctx<K, V, A>, Tree<K, V, A>))
    decreases t
  {
    if t.Leaf? || cmp(t.key, k) == 0 then (c, t)
    else if cmp(t.key, k) > 0 then Descend(cmp, InLeft(c, t.node, t.key, t.value, t.attr, t.right), t.left, k)
    else Descend(cmp, InRight(c, t.left, t.node, t.key, t.value, t.attr), t.right, k)
  }

  /** Everything left of the hole is smaller than `k`, everything right of it larger. */
  ghost predicate Brackets<K(!new), V, A>(cmp: (K, K) -> int, c: Ctx<K, V, A>, k: K)
  {
    Below(cmp, Before(c), k) && Above(cmp, k, After(c))
  }

  lemma BracketStep<K(!new), V, A>(cmp: (K, K) -> int, c: Ctx<K, V, A>, t: Tree<K, V, A>, k: K)
    requires TotalOrder(cmp) && t.Bin? && Brackets(cmp, c, k) && Sorted(cmp, Inorder(Plug(c, t)))
    ensures cmp(t.key, k) > 0 ==> Brackets(cmp, InLeft(c, t.node, t.key, t.value, t.attr, t.right), k)
    ensures cmp(t.key, k) < 0 ==> Brackets(cmp, InRight(c, t.left, t.node, t.key, t.value, t.attr), k)
  {
    var l := Before(c) + Inorder(t.left);
    var r := Inorder(t.right) + After(c);
    var x := (t.key, t.value);
    FocusInorder(c, t);
    SortedSplit(cmp, l, x, r);
    if cmp(t.key, k) > 0 {
      AboveCons(cmp, k, x, r);
      Associate([x], Inorder(t.right), After(c));
    } else if cmp(t.key, k) < 0 {
      BelowSnoc(cmp, l, x, k);
    }
  }

  /** Searching keeps the same tree in view and ends between the right neighbours. */
  lemma {:induction false} DescendCorrect<K(!new), V, A>(cmp: (K, K) -> int, c: Ctx<K, V, A>, t: Tree<K, V, A>, k: K)
    requires TotalOrder(cmp) && Brackets(cmp, c, k)
    requires Sorted(cmp, Inorder(Plug(c, t)))
    ensures var (c', t') := Descend(cmp, c, t, k);
      && Plug(c', t') == Plug(c, t)
      && Brackets(cmp, c', k)
      && (t'.Bin? ==> t'.key == k)
    decreases t
  {
    if t.Bin? {
      BracketStep(cmp, c, t, k);
      assert OrderAt(cmp, t.key, k, k);
      if cmp(t.key, k) > 0 {
        DescendCorrect(cmp, InLeft(c, t.node, t.key, t.value, t.attr, t.right), t.left, k);
      } else if cmp(t.key, k) < 0 {
        DescendCorrect(cmp, InRight(c, t.left, t.node, t.key, t.value, t.attr), t.right, k);
      }
    }
  }

  /** A search from the root passes through any place whose neighbours bracket the key. */
  lemma {:induction false} DescendFromTop<K(!new), V, A>(cmp: (K, K) -> int, c: Ctx<K, V, A>, t: Tree<K, V, A>, k: K)
    requires TotalOrder(cmp) && Brackets(cmp, c, k)
    ensures Descend(cmp, Top, Plug(c, t), k) == Descend(cmp, c, t, k)
    decreases c
  {
    match c
    case Top =>
    case InLeft(up, n, nk, v, a, r) =>
      BelowAboveParts(cmp, k, Inorder(r), (nk, v), After(up));
      DescendFromTop(cmp, up, Bin(t, n, nk, v, a, r), k);
    case InRight(up, l, n, nk, v, a) =>
      BelowAboveParts(cmp, k, Before(up), (nk, v), Inorder(l));
      DescendFromTop(cmp, up, Bin(l, n, nk, v, a, t), k);
  }

  lemma FocusLookup<K(!new), V, A>(cmp: (K, K) -> int, c: Ctx<K, V, A>, f: Tree<K, V, A>, k: K)
    requires TotalOrder(cmp) && Sorted(cmp, Inorder(Plug(c, f)))
    requires Brackets(cmp, c, k) && (f.Bin? ==> f.key == k)
    ensures k in MapOf(Inorder(Plug(c, f))) <==> f.Bin?
    ensures f.Bin? ==> MapOf(Inorder(Plug(c, f)))[k] == f.value
  {
    if f.Leaf? {
      PlugInorder(c, f);
      assert Before(c) + Inorder(f) + After(c) == Before(c) + After(c);
      MapOfAbsent(cmp, Before(c), k, After(c));
    } else {
      FocusInorder(c, f);
      MapOfReplace(cmp, Before(c) + Inorder(f.left), k, f.value, f.value, Inorder(f.right) + After(c));
    }
  }

  /** The search result decides membership in the map and gives the value. */
  lemma DescendLookup<K(!new), V, A>(cmp: (K, K) -> int, t: Tree<K, V, A>, k: K)
    requires TotalOrder(cmp) && Sorted(cmp, Inorder(t))
    ensures var f := Descend(cmp, Top, t, k).1;
      && (k in MapOf(Inorder(t)) <==> f.Bin?)
      && (f.Bin? ==> MapOf(Inorder(t))[k] == f.value)
  {
    var (c, f) := Descend(cmp, Top, t, k);
    DescendCorrect(cmp, Top, t, k);
    assert Plug(c, f) == t;
    FocusLookup(cmp, c, f, k);
  }

  // ---------- paths below a node ----------

  /** The path `d` continued upwards by `c`. */
  ghost function Compose<K, V, A>(d: Ctx<K, V, A>, c: Ctx<K, V, A>): Ctx<K, V, A>
  {
    match d
    case Top => c
    case InLeft(up, n, k, v, a, r) => InLeft(Compose(up, c), n, k, v, a, r)
    case InRight(up, l, n, k, v, a) => InRight(Compose(up, c), l, n, k, v, a)
  }

  lemma {:induction false} ComposePlug<K, V, A>(d: Ctx<K, V, A>, c: Ctx<K, V, A>, x: Tree<K, V, A>)
    ensures Plug(Compose(d, c), x) == Plug(c, Plug(d, x))
    decreases d
  {
    if !d.Top? {
      ComposePlug(d.up, c, Raise(d, x));
    }
  }

  lemma {:induction false} ComposeContents<K, V, A>(d: Ctx<K, V, A>, c: Ctx<K, V, A>)
    ensures Before(Compose(d, c)) == Before(c) + Before(d)
    ensures After(Compose(d, c)) == After(d) + After(c)
    decreases d
  {
    match d {
      case Top =>
      case InLeft(up, _, k, v, _, r) =>
        ComposeContents(up, c);
        Associate([(k, v)] + Inorder(r), After(up), After(c));
      case InRight(up, l, _, k, v, _) =>
        ComposeContents(up, c);
        Associate(Before(c), Before(up), Inorder(l));
        Associate(Before(c), Before(up) + Inorder(l), [(k, v)]);
    }
  }

  lemma ComposeHeap<K, V, A>(d: Ctx<K, V, A>, c: Ctx<K, V, A>, x: Tree<K, V, A>)
    ensures Heap(Compose(d, c), x) <==> Heap(c, Plug(d, x))
    ensures CtxNodes(Compose(d, c)) + Nodes(x) == CtxNodes(c) + Nodes(Plug(d, x))
  {
    ComposePlug(d, c, x);
    PlugAll(Compose(d, c), x);
    PlugAll(c, Plug(d, x));
  }

  /** The path with another pair in its innermost frame. */
  ghost function Rekeyed<K, V, A>(c: Ctx<K, V, A>, k: K, v: V): Ctx<K, V, A>
  {
    match c
    case Top => Top
    case InLeft(up, n, _, _, a, r) => InLeft(up, n, k, v, a, r)
    case InRight(up, l, n, _, _, a) => InRight(up, l, n, k, v, a)
  }

  /** The root of the whole tree after the subtree at one place was replaced. */
  lemma RootMoves<K, V, A>(c: Ctx<K, V, A>, t: Tree<K, V, A>, f: Tree<K, V, A>)
    ensures Root(Plug(c, f)) == if c.Top? then Root(f) else Root(Plug(c, t))
    ensures !c.Top? ==> Root(Plug(c, t)) in CtxNodes(c)
  {
    if !c.Top? { PlugRoot(c, t, f); }
  }

  // ---------- taking a node out ----------

  /** What is left of a node with at most one child. */
  ghost function Remainder<K, V, A>(t: Tree<K, V, A>): Tree<K, V, A>
    requires t.Bin?
  {
    if t.left.Bin? then t.left else t.right
  }

  /** The field changes of taking out `o`, which has at most one child. */
  ghost predicate Splice<K, V, A>(m: Cells<K, V, A>, m': Cells<K, V, A>, o: Node<K, V, A>)
  {
    && o in m && (m[o].left == null || m[o].right == null) && m'.Keys == m.Keys - {o}
    && var y, q := if m[o].left != null then m[o].left else m[o].right, m[o].parent;
      && (y != null ==> y in m && y != o && m'[y] == m[y].(parent := q))
      && (q != null ==>
           && q in m && q != y && q != o
           && m'[q] == if m[q].left == o then m[q].(left := y) else m[q].(right := y))
      && forall x :: x in m' && x != y && x != q ==> m'[x] == m[x]
  }

  lemma UnlinkCells<K, V, A>(c: Ctx<K, V, A>, t: Tree<K, V, A>)
    requires Apart(c, t) && t.Bin? && (t.left.Leaf? || t.right.Leaf?)
    ensures Apart(c, Remainder(t)) && Nodes(Remainder(t)) == Nodes(t) - {t.node}
    ensures Splice(All(c, t), All(c, Remainder(t)), t.node)
  {
    var y := Remainder(t);
    forall x | x in Nodes(y) { RehangAt(y, t.node, Parent(c), x); }
    forall x | x in CtxNodes(c) { ChildCell(c, t.node, Root(y), x); }
  }

  // ---------- field updates on the heap ----------

  ghost function Relabeled<K, V, A>(t: Tree<K, V, A>, k: K, v: V, a: A): Tree<K, V, A>
    requires t.Bin?
  {
    Bin(t.left, t.node, k, v, a, t.right)
  }

  lemma RelabelCells<K, V, A>(c: Ctx<K, V, A>, t: Tree<K, V, A>, k: K, v: V, a: A)
    requires Apart(c, t) && t.Bin?
    ensures Apart(c, Relabeled(t, k, v, a)) && Nodes(Relabeled(t, k, v, a)) == Nodes(t)
    ensures var m, m' := All(c, t), All(c, Relabeled(t, k, v, a));
      && t.node in m && m'.Keys == m.Keys
      && m'[t.node] == m[t.node].(key := k, value := v, attr := a)
      && forall x :: x in m && x != t.node ==> m'[x] == m[x]
  {
    forall x | x in Nodes(t) && x != t.node
      ensures CellAt(Relabeled(t, k, v, a), Parent(c), x) == CellAt(t, Parent(c), x)
    {
    }
  }

  method SetAttr<K, V, A>(node: Node<K, V, A>, a: A, ghost c: Ctx<K, V, A>, ghost t: Tree<K, V, A>)
    requires Heap(c, t) && Root(t) == node
    modifies node`attr
    ensures Heap(c, Relabeled(t, t.key, t.value, a))
  {
    RootFields(c, t);
    RelabelCells(c, t, t.key, t.value, a);
    node.attr := a;
  }

  method SetPair<K, V, A>(node: Node<K, V, A>, k: K, v: V, ghost c: Ctx<K, V, A>, ghost t: Tree<K, V, A>)
    requires Heap(c, t) && Root(t) == node
    modifies node`key, node`value
    ensures Heap(c, Relabeled(t, k, v, t.attr))
  {
    RootFields(c, t);
    RelabelCells(c, t, k, v, t.attr);
    node.key := k;
    node.value := v;
  }

  lemma SingleNode<K, V, A>(n: Node<K, V, A>, k: K, v: V, a: A)
    ensures var t := Bin(Leaf, n, k, v, a, Leaf);
      && Apart(Top, t) && Nodes(t) == {n} && Inorder(t) == [(k, v)]
      && All(Top, t) == map[n := Cell(null, null, null, k, v, a)]
  {
    var t := Bin(Leaf, n, k, v, a, Leaf);
    assert Nodes<K, V, A>(Leaf) == {} && CtxNodes<K, V, A>(Top) == {};
    assert Inorder<K, V, A>(Leaf) == [];
  }

  /** A subtree whose root loses its parent link is a tree of its own. */
  method CutOff<K, V, A>(node: Node<K, V, A>, ghost c: Ctx<K, V, A>, ghost t: Tree<K, V, A>)
    requires Heap(c, t) && Root(t) == node
    modifies node`parent
    ensures Heap(Top, t)
  {
    ghost var m := All(c, t);
    assert forall x :: x in Nodes(t) ==> x in m && Fields(x, m[x]);
    node.parent := null;
    forall x | x in Nodes(t) ensures Fields(x, CellAt(t, null, x)) {
      RehangAt(t, Parent(c), null, x);
    }
  }

  method RotateRightLinks<K, V, A>(node: Node<K, V, A>, ghost m: Cells<K, V, A>, ghost m': Cells<K, V, A>)
    requires Match(m) && RotationRight(m, m', node)
    modifies m.Keys
    ensures Match(m')
  {
    var p := node.left;
    var parent := node.parent;
    node.left := p.right;
    p.right := node;
    if node.left != null {
      node.left.parent := node;
    }
    node.parent := p;
    p.parent := parent;
    if parent != null {
      if parent.left == node {
        parent.left := p;
      } else {
        parent.right := p;
      }
    }
  }

  method RotateLeftLinks<K, V, A>(node: Node<K, V, A>, ghost m: Cells<K, V, A>, ghost m': Cells<K, V, A>)
    requires Match(m) && RotationLeft(m, m', node)
    modifies m.Keys
    ensures Match(m')
  {
    var p := node.right;
    var parent := node.parent;
    node.right := p.left;
    p.left := node;
    if node.right != null {
      node.right.parent := node;
    }
    node.parent := p;
    p.parent := parent;
    if parent != null {
      if parent.left == node {
        parent.left := p;
      } else {
        parent.right := p;
      }
    }
  }

  method SpliceOut<K, V, A>(cur: Node<K, V, A>, ghost m: Cells<K, V, A>, ghost m': Cells<K, V, A>)
    requires Match(m) && Splice(m, m', cur)
    modifies m.Keys - {cur}
    ensures Match(m')
  {
    assert Fields(cur, m[cur]);
    var parent := cur.parent;
    var child := if cur.left != null then cur.left else cur.right;
    if parent != null {
      if parent.left == cur {
        parent.left := child;
      } else {
        parent.right := child;
      }
    }
    if child != null {
      child.parent := parent;
    }
  }

  // ---------- sorted walk and height ----------

  /** The recursive in-order walk of both trees, with a callback that always asks to continue: the value
      returned and the pairs the callback has seen. */
  function SortedWalk<K, V, A>(node: Node?<K, V, A>, ghost c: Ctx<K, V, A>, ghost t: Tree<K, V, A>)
    : (r: (int, seq<(K, V)>))
    requires Heap(c, t) && Root(t) == node
    reads CtxNodes(c), Nodes(t)
    ensures r.1 == Inorder(t) && r.0 == |r.1|
    decreases t
  {
    if node == null then (0, [])
    else
      RootFields(c, t);
      ghost var l := InLeft(c, t.node, t.key, t.value, t.attr, t.right);
      ghost var r := InRight(c, t.left, t.node, t.key, t.value, t.attr);
      RaiseAll(l, t.left);
      RaiseAll(r, t.right);
      var before := SortedWalk(node.left, l, t.left);
      var after := SortedWalk(node.right, r, t.right);
      (1 + before.0 + after.0, before.1 + [(node.key, node.value)] + after.1)
  }

  ghost function Height<K, V, A>(t: Tree<K, V, A>): nat
  {
    if t.Leaf? then 0
    else 1 + if Height(t.left) > Height(t.right) then Height(t.left) else Height(t.right)
  }
}
