/**
 Red-black colouring as a property of the ghost trees: what every call of `rbt_add` must
 re-establish, and what is still true half way through a repair.
 */
module RedBlack {
  import opened LinkedTree
  import opened Numbers

  datatype Color = Red | Black

  ghost predicate IsRed<K, V>(t: Tree<K, V, Color>)
  {
    t.Bin? && t.attr.Red?
  }

  /** PAINT_RED / PAINT_BLACK: no effect on a missing node. */
  ghost function Painted<K, V>(t: Tree<K, V, Color>, a: Color): Tree<K, V, Color>
  {
    if t.Leaf? then Leaf else Bin(t.left, t.node, t.key, t.value, a, t.right)
  }

  ghost function One(a: Color): nat
  {
    if a.Black? then 1 else 0
  }

  /** Black nodes on the leftmost path. */
  ghost function BlackHeight<K, V>(t: Tree<K, V, Color>): nat
  {
    if t.Leaf? then 0 else BlackHeight(t.left) + One(t.attr)
  }

  /** No red node has a red child, and all paths to the leaves have equally many black nodes. */
  ghost predicate RB<K, V>(t: Tree<K, V, Color>)
  {
    t.Bin? ==>
      && RB(t.left) && RB(t.right)
      && BlackHeight(t.left) == BlackHeight(t.right)
      && (t.attr.Red? ==> !IsRed(t.left) && !IsRed(t.right))
  }

  ghost predicate CtxRed<K, V>(c: Ctx<K, V, Color>)
  {
    !c.Top? && c.attr.Red?
  }

  /** The path is correctly coloured around a hole of black height `h`. A red frame has a
      black frame above it, so in particular the outermost frame (the root) is black. */
  ghost predicate CtxRB<K, V>(c: Ctx<K, V, Color>, h: nat)
  {
    c.Top? ||
    (var sibling := if c.InLeft? then c.right else c.left;
     && RB(sibling) && BlackHeight(sibling) == h
     && (c.attr.Red? ==> !IsRed(sibling) && !c.up.Top? && !CtxRed(c.up))
     && CtxRB(c.up, h + One(c.attr)))
  }

  /** At most one violation: between the root of `t` and the frame it hangs in. */
  ghost predicate Repairable<K, V>(c: Ctx<K, V, Color>, t: Tree<K, V, Color>)
  {
    RB(t) && CtxRB(c, BlackHeight(t))
  }

  ghost predicate Clash<K, V>(c: Ctx<K, V, Color>, t: Tree<K, V, Color>)
  {
    IsRed(t) && (c.Top? || CtxRed(c))
  }

  /** With no violation at the hole, the whole tree is red-black and its root is black. */
  lemma {:induction false} PlugRB<K, V>(c: Ctx<K, V, Color>, t: Tree<K, V, Color>)
    requires Repairable(c, t) && !Clash(c, t)
    ensures RB(Plug(c, t)) && !IsRed(Plug(c, t))
    decreases c
  {
    match c
    case Top =>
    case InLeft(up, n, k, v, a, r) => PlugRB(up, Bin(t, n, k, v, a, r));
    case InRight(up, l, n, k, v, a) => PlugRB(up, Bin(l, n, k, v, a, t));
  }

  /** Searching in a red-black tree always stops at a place without a violation. */
  lemma {:induction false} DescendRB<K, V>(cmp: (K, K) -> int, c: Ctx<K, V, Color>, t: Tree<K, V, Color>, k: K)
    requires Repairable(c, t) && !Clash(c, t)
    ensures var (c', t') := Descend(cmp, c, t, k); Repairable(c', t') && !Clash(c', t')
    decreases t
  {
    if t.Bin? && cmp(t.key, k) > 0 {
      DescendRB(cmp, InLeft(c, t.node, t.key, t.value, t.attr, t.right), t.left, k);
    } else if t.Bin? && cmp(t.key, k) < 0 {
      DescendRB(cmp, InRight(c, t.left, t.node, t.key, t.value, t.attr), t.right, k);
    }
  }

  // ---------- height ----------

  lemma {:induction false} SizeLowerBound<K, V>(t: Tree<K, V, Color>)
    requires RB(t)
    ensures Pow2(BlackHeight(t)) <= |Inorder(t)| + 1
    ensures Height(t) <= 2 * BlackHeight(t) + if IsRed(t) then 1 else 0
  {
    if t.Bin? {
      SizeLowerBound(t.left);
      SizeLowerBound(t.right);
    }
  }

  /** Height at most 2 log2(n + 1), written without logarithms. */
  lemma HeightBound<K, V>(t: Tree<K, V, Color>)
    requires RB(t) && !IsRed(t)
    ensures Pow2(Height(t)) <= (|Inorder(t)| + 1) * (|Inorder(t)| + 1)
  {
    var b, n := BlackHeight(t), |Inorder(t)| + 1;
    SizeLowerBound(t);
    Pow2Monotone(Height(t), b + b);
    Pow2Add(b, b);
    SquareMonotone(Pow2(b), n);
  }
}
