/**
 The binomial heap of `binheap.c`: insertion as a binary counter, and removal of the extremum.
 */
module BinHeap {
  import opened Wrappers
  import opened Order
  import opened Numbers
  import opened Sequences

  datatype Mode = Max | Min

  /** A node with its subtree; the order of the tree is the number of children of its root. */
  datatype Tree<K, V> = Tree(key: K, value: V, children: seq<Tree<K, V>>)
  {
    function Order(): nat { |children| }
  }

  /** HAS_PRECEDENCE. */
  predicate Prec<K>(cmp: (K, K) -> int, mode: Mode, a: K, b: K)
  {
    (mode.Max? && cmp(a, b) >= 0) || (mode.Min? && cmp(a, b) <= 0)
  }

  lemma PrecTrans<K(!new)>(cmp: (K, K) -> int, mode: Mode, a: K, b: K, c: K)
    requires Preorder(cmp) && Prec(cmp, mode, a, b) && Prec(cmp, mode, b, c)
    ensures Prec(cmp, mode, a, c)
  {
    assert PreorderAt(cmp, a, b, c) && PreorderAt(cmp, c, b, a) && PreorderAt(cmp, b, a, c) && PreorderAt(cmp, c, a, b);
  }

  lemma PrecTotal<K(!new)>(cmp: (K, K) -> int, mode: Mode, a: K, b: K)
    requires Preorder(cmp)
    ensures Prec(cmp, mode, a, b) || Prec(cmp, mode, b, a)
    ensures Prec(cmp, mode, a, a)
  {
    assert PreorderAt(cmp, a, b, a) && PreorderAt(cmp, a, a, a);
  }

  // ---------- contents and heap order ----------

  ghost function Contents<K, V>(t: Tree<K, V>): multiset<(K, V)>
    decreases t, 0
  {
    multiset{(t.key, t.value)} + Forest(t.children)
  }

  ghost function Forest<K, V>(ts: seq<Tree<K, V>>): multiset<(K, V)>
    decreases ts, 1
  {
    if ts == [] then multiset{} else Forest(ts[..|ts| - 1]) + Contents(ts[|ts| - 1])
  }

  ghost predicate Ordered<K, V>(cmp: (K, K) -> int, mode: Mode, t: Tree<K, V>)
    decreases t, 0
  {
    AllOrdered(cmp, mode, t.children) && forall c :: c in t.children ==> Prec(cmp, mode, t.key, c.key)
  }

  ghost predicate AllOrdered<K, V>(cmp: (K, K) -> int, mode: Mode, ts: seq<Tree<K, V>>)
    decreases ts, 1
  {
    forall t :: t in ts ==> Ordered(cmp, mode, t)
  }

  lemma ForestSnoc<K, V>(ts: seq<Tree<K, V>>, t: Tree<K, V>)
    ensures Forest(ts + [t]) == Forest(ts) + Contents(t)
  {
    assert (ts + [t])[..|ts|] == ts;
  }

  lemma {:induction false} ForestConcat<K, V>(a: seq<Tree<K, V>>, b: seq<Tree<K, V>>)
    ensures Forest(a + b) == Forest(a) + Forest(b)
  {
    if b == [] {
      assert a + b == a;
    } else {
      var b', t := b[..|b| - 1], b[|b| - 1];
      ForestConcat(a, b');
      ForestSnoc(a + b', t);
      Associate(a, b', [t]);
      assert b == b' + [t];
      SumAssociates(Forest(a), Forest(b'), Contents(t));
    }
  }

  lemma SumAssociates<T>(x: multiset<T>, y: multiset<T>, z: multiset<T>)
    ensures x + y + z == x + (y + z)
  {
  }

  lemma ForestOne<K, V>(t: Tree<K, V>)
    ensures Forest([t]) == Contents(t)
  {
    ForestSnoc([], t);
    assert [] + [t] == [t];
  }

  /** One tree among others. */
  lemma ForestSplit<K, V>(a: seq<Tree<K, V>>, t: Tree<K, V>, b: seq<Tree<K, V>>)
    ensures Forest(a + [t] + b) == Forest(a) + Contents(t) + Forest(b) == Forest(a + b) + Contents(t)
  {
    ForestSnoc(a, t);
    ForestConcat(a + [t], b);
    ForestConcat(a, b);
  }

  /** Taking one tree out of a list. */
  lemma PickOut<K, V>(ts: seq<Tree<K, V>>, i: nat)
    requires i < |ts|
    ensures var others := ts[..i] + ts[i + 1..];
      && Forest(ts) == Forest(others) + Contents(ts[i])
      && Forest(ts) == Contents(Tree(ts[i].key, ts[i].value, ts[i].children + others))
      && (ts[i].children == [] ==> Forest(ts) == Forest(others) + multiset{(ts[i].key, ts[i].value)})
      && forall t :: t in others ==> t in ts
  {
    var others := ts[..i] + ts[i + 1..];
    assert ts == ts[..i] + [ts[i]] + ts[i + 1..];
    ForestSplit(ts[..i], ts[i], ts[i + 1..]);
    ForestConcat(ts[i].children, others);
    SumAssociates(multiset{(ts[i].key, ts[i].value)}, Forest(ts[i].children), Forest(others));
  }

  /** The promoted tree `r` holds all of the removed root's tree but the pair `e`. */
  lemma PutBack<K, V>(a: seq<Tree<K, V>>, r: Tree<K, V>, b: seq<Tree<K, V>>, e: (K, V))
    ensures Forest(a + b) + (multiset{e} + Contents(r)) == Forest(a + [r] + b) + multiset{e}
  {
    ForestSplit(a, r, b);
    MoveLast(Forest(a + b), multiset{e}, Contents(r));
  }

  lemma MoveLast<T>(x: multiset<T>, y: multiset<T>, z: multiset<T>)
    ensures x + (y + z) == (x + z) + y
  {
  }

  lemma ForestCons<K, V>(t: Tree<K, V>, ts: seq<Tree<K, V>>)
    ensures Forest([t] + ts) == Contents(t) + Forest(ts)
  {
    ForestOne(t);
    ForestConcat([t], ts);
  }

  lemma {:induction false} ForestHas<K, V>(ts: seq<Tree<K, V>>, e: (K, V)) returns (i: nat)
    requires e in Forest(ts)
    ensures i < |ts| && e in Contents(ts[i])
  {
    if e in Contents(ts[|ts| - 1]) {
      i := |ts| - 1;
    } else {
      i := ForestHas(ts[..|ts| - 1], e);
    }
  }

  /** The root of an ordered tree precedes all its keys. */
  lemma {:induction false} RootPrecedes<K(!new), V>(cmp: (K, K) -> int, mode: Mode, t: Tree<K, V>, e: (K, V))
    requires Preorder(cmp) && Ordered(cmp, mode, t) && e in Contents(t)
    ensures Prec(cmp, mode, t.key, e.0)
  {
    if e in Forest(t.children) {
      var i := ForestHas(t.children, e);
      var c := t.children[i];
      assert c in t.children;
      RootPrecedes(cmp, mode, c, e);
      PrecTrans(cmp, mode, t.key, c.key, e.0);
    } else {
      PrecTotal(cmp, mode, t.key, e.0);
    }
  }

  // ---------- linking two trees ----------

  /** `binomial_tree_merge`: the second tree becomes the last child of the first. */
  function Link<K, V>(a: Tree<K, V>, b: Tree<K, V>): Tree<K, V>
  {
    Tree(a.key, a.value, a.children + [b])
  }

  /** Linking so that the root with precedence stays on top. */
  function Join<K, V>(cmp: (K, K) -> int, mode: Mode, a: Tree<K, V>, b: Tree<K, V>): Tree<K, V>
  {
    if Prec(cmp, mode, a.key, b.key) then Link(a, b) else Link(b, a)
  }

  lemma LinkContents<K, V>(a: Tree<K, V>, b: Tree<K, V>)
    ensures Contents(Link(a, b)) == Contents(a) + Contents(b)
  {
    ForestSnoc(a.children, b);
  }

  lemma LinkOrdered<K, V>(cmp: (K, K) -> int, mode: Mode, a: Tree<K, V>, b: Tree<K, V>)
    ensures Ordered(cmp, mode, Link(a, b))
       <==> Ordered(cmp, mode, a) && Ordered(cmp, mode, b) && Prec(cmp, mode, a.key, b.key)
  {
    var l := Link(a, b);
    assert b in l.children && forall c :: c in l.children <==> c in a.children || c == b;
  }

  lemma JoinFacts<K(!new), V>(cmp: (K, K) -> int, mode: Mode, a: Tree<K, V>, b: Tree<K, V>)
    requires Preorder(cmp)
    ensures Contents(Join(cmp, mode, a, b)) == Contents(a) + Contents(b)
    ensures Ordered(cmp, mode, Join(cmp, mode, a, b)) <==> Ordered(cmp, mode, a) && Ordered(cmp, mode, b)
  {
    LinkContents(a, b);
    LinkContents(b, a);
    LinkOrdered(cmp, mode, a, b);
    LinkOrdered(cmp, mode, b, a);
    PrecTotal(cmp, mode, a.key, b.key);
  }

  // ---------- binomial shape ----------

  /** Child i of every node is a binomial tree of order i. */
  ghost predicate Binomial<K, V>(t: Tree<K, V>)
  {
    forall i :: 0 <= i < |t.children| ==> t.children[i].Order() == i && Binomial(t.children[i])
  }

  ghost predicate Increasing<K, V>(ts: seq<Tree<K, V>>)
  {
    forall i, j :: 0 <= i < j < |ts| ==> ts[i].Order() < ts[j].Order()
  }

  /** Binomial trees with strictly increasing orders. */
  ghost predicate BinomialForest<K, V>(ts: seq<Tree<K, V>>)
  {
    Increasing(ts) && forall i :: 0 <= i < |ts| ==> Binomial(ts[i])
  }

  lemma LinkBinomial<K, V>(a: Tree<K, V>, b: Tree<K, V>)
    requires Binomial(a) && Binomial(b) && a.Order() == b.Order()
    ensures Binomial(Link(a, b)) && Link(a, b).Order() == a.Order() + 1
  {
  }

  /** A binomial tree of order n has 2^n nodes. */
  lemma {:induction false} BinomialSize<K, V>(t: Tree<K, V>)
    requires Binomial(t)
    ensures |Contents(t)| == Pow2(t.Order())
    decreases t, 0
  {
    ChildrenSize(t.children);
  }

  lemma {:induction false} ChildrenSize<K, V>(ts: seq<Tree<K, V>>)
    requires forall i :: 0 <= i < |ts| ==> ts[i].Order() == i && Binomial(ts[i])
    ensures |Forest(ts)| == Pow2(|ts|) - 1
    decreases ts, 1
  {
    if ts != [] {
      ChildrenSize(ts[..|ts| - 1]);
      BinomialSize(ts[|ts| - 1]);
    }
  }

  /** The sum of 2^order over the trees. */
  ghost function Weight<K, V>(ts: seq<Tree<K, V>>): nat
  {
    if ts == [] then 0 else Weight(ts[..|ts| - 1]) + Pow2(ts[|ts| - 1].Order())
  }

  lemma {:induction false} WeightIsSize<K, V>(ts: seq<Tree<K, V>>)
    requires BinomialForest(ts)
    ensures Weight(ts) == |Forest(ts)|
  {
    if ts != [] {
      WeightIsSize(ts[..|ts| - 1]);
      BinomialSize(ts[|ts| - 1]);
    }
  }

  ghost predicate HasOrder<K, V>(ts: seq<Tree<K, V>>, n: nat)
  {
    exists i :: 0 <= i < |ts| && ts[i].Order() == n
  }

  /** Bit n of a number. */
  predicate Bit(x: nat, n: nat)
  {
    if n == 0 then x % 2 == 1 else Bit(x / 2, n - 1)
  }

  lemma {:induction false} WeightBound<K, V>(ts: seq<Tree<K, V>>, m: nat)
    requires Increasing(ts) && forall i :: 0 <= i < |ts| ==> ts[i].Order() < m
    ensures Weight(ts) < Pow2(m)
  {
    if ts == [] {
      Pow2Monotone(0, m);
    } else {
      var o := ts[|ts| - 1].Order();
      WeightBound(ts[..|ts| - 1], o);
      Pow2Monotone(o + 1, m);
    }
  }

  lemma {:induction false} BitOfSum(x: nat, m: nat, n: nat)
    requires x < Pow2(m)
    ensures Bit(x + Pow2(m), n) <==> n == m || Bit(x, n)
    ensures n >= m ==> !Bit(x, n)
    decreases m
  {
    if m == 0 {
      ZeroBits(n);
      if n > 0 { ZeroBits(n - 1); }
    } else if n > 0 {
      assert (x + Pow2(m)) / 2 == x / 2 + Pow2(m - 1);
      BitOfSum(x / 2, m - 1, n - 1);
    }
  }

  lemma {:induction false} ZeroBits(n: nat)
    ensures !Bit(0, n)
  {
    if n > 0 { ZeroBits(n - 1); }
  }

  /** With increasing orders the list of roots is the binary form of its weight. */
  lemma {:induction false} BinaryForm<K, V>(ts: seq<Tree<K, V>>, n: nat)
    requires Increasing(ts)
    ensures HasOrder(ts, n) <==> Bit(Weight(ts), n)
  {
    if ts == [] {
      ZeroBits(n);
    } else {
      var ts', t := ts[..|ts| - 1], ts[|ts| - 1];
      BinaryForm(ts', n);
      WeightBound(ts', t.Order());
      BitOfSum(Weight(ts'), t.Order(), n);
      if HasOrder(ts', n) {
        var i :| 0 <= i < |ts'| && ts'[i].Order() == n;
        assert ts[i].Order() == n;
      }
      if HasOrder(ts, n) {
        var i :| 0 <= i < |ts| && ts[i].Order() == n;
        if i < |ts'| { assert ts'[i].Order() == n; }
      }
    }
  }

  /** An insertion takes the first `k` trees: they have the orders 0, 1, ..., k - 1, and the next one
      has not order k. */
  predicate Carries<K, V>(trees: seq<Tree<K, V>>, k: nat)
  {
    k <= |trees| && (forall i :: 0 <= i < k ==> trees[i].Order() == i) && (k < |trees| ==> trees[k].Order() != k)
  }

  // ---------- the heap ----------

  /** Key `a` precedes every key of the collection. */
  ghost predicate PrecedesAll<K(!new), V(!new)>(cmp: (K, K) -> int, mode: Mode, a: K, m: multiset<(K, V)>)
  {
    forall e :: e in m ==> Prec(cmp, mode, a, e.0)
  }

  lemma ExtremalRoot<K(!new), V(!new)>(cmp: (K, K) -> int, mode: Mode, ts: seq<Tree<K, V>>, h: nat)
    requires Preorder(cmp) && AllOrdered(cmp, mode, ts) && h < |ts|
    requires forall i :: 0 <= i < |ts| ==> Prec(cmp, mode, ts[h].key, ts[i].key)
    ensures PrecedesAll(cmp, mode, ts[h].key, Forest(ts))
  {
    forall e | e in Forest(ts) ensures Prec(cmp, mode, ts[h].key, e.0) {
      var i := ForestHas(ts, e);
      assert ts[i] in ts;
      RootPrecedes(cmp, mode, ts[i], e);
      PrecTrans(cmp, mode, ts[h].key, ts[i].key, e.0);
    }
  }

  class Heap<K(!new), V(!new)> {
    const cmp: (K, K) -> int
    const mode: Mode
    var trees: seq<Tree<K, V>>
    var head: Option<nat>          // which root `head` points to
    var count: nat

    /** Everything but the head pointer. */
    ghost predicate Sound()
      reads this
    {
      Preorder(cmp) && AllOrdered(cmp, mode, trees) && count == |Forest(trees)|
    }

    /** The head is an extremal root. */
    ghost predicate Valid()
      reads this
    {
      && Sound()
      && (trees == [] <==> head.None?)
      && (head.Some? ==>
           && head.value < |trees|
           && forall i :: 0 <= i < |trees| ==> Prec(cmp, mode, trees[head.value].key, trees[i].key))
    }

    constructor (cmp: (K, K) -> int, mode: Mode)
      requires Preorder(cmp)
      ensures Valid() && trees == [] && count == 0 && this.cmp == cmp && this.mode == mode
    {
      this.cmp, this.mode := cmp, mode;
      trees, head, count := [], None, 0;
    }

    /** The heap `binheap_merge` allocates: its head pointer is not set. */
    constructor Merged(cmp: (K, K) -> int, mode: Mode, trees: seq<Tree<K, V>>, count: nat)
      ensures this.cmp == cmp && this.mode == mode && this.trees == trees && this.count == count && head.None?
    {
      this.cmp, this.mode := cmp, mode;
      this.trees, this.count, this.head := trees, count, None;
    }

    /** `binheap_maxmin` in the heap's own mode: the last maximum, or the first minimum. */
    method MaxMin() returns (index: Option<nat>)
      requires Preorder(cmp)
      ensures trees == [] <==> index.None?
      ensures index.Some? ==>
        && index.value < |trees|
        && (forall i :: 0 <= i < |trees| ==> Prec(cmp, mode, trees[index.value].key, trees[i].key))
        && (forall i :: 0 <= i < |trees| && Prec(cmp, mode, trees[i].key, trees[index.value].key) ==>
             if mode.Max? then i <= index.value else i >= index.value)
    {
      index := None;
      for i := 0 to |trees|
        invariant i == 0 <==> index.None?
        invariant index.Some? ==> index.value < i
        invariant index.Some? ==> forall k :: 0 <= k < i ==> Prec(cmp, mode, trees[index.value].key, trees[k].key)
        invariant index.Some? ==>
          forall k :: 0 <= k < i && Prec(cmp, mode, trees[k].key, trees[index.value].key) ==>
            if mode.Max? then k <= index.value else k >= index.value
      {
        if index.None? {
          index := Some(i);
          assert PreorderAt(cmp, trees[i].key, trees[i].key, trees[i].key);
        } else {
          var isBigger := cmp(trees[i].key, trees[index.value].key) >= 0;
          ghost var b := index.value;
          assert PreorderAt(cmp, trees[i].key, trees[b].key, trees[b].key);
          assert PreorderAt(cmp, trees[i].key, trees[i].key, trees[i].key);
          if (mode.Max? && isBigger) || (mode.Min? && !isBigger) {
            forall k | 0 <= k < i ensures Prec(cmp, mode, trees[i].key, trees[k].key) {
              PrecTrans(cmp, mode, trees[i].key, trees[b].key, trees[k].key);
            }
            if mode.Min? {
              forall k | 0 <= k < i ensures !Prec(cmp, mode, trees[k].key, trees[i].key) {
                assert PreorderAt(cmp, trees[i].key, trees[k].key, trees[b].key);
                assert PreorderAt(cmp, trees[k].key, trees[b].key, trees[b].key);
                if Prec(cmp, mode, trees[k].key, trees[i].key) {
                  PrecTrans(cmp, mode, trees[b].key, trees[k].key, trees[i].key);
                }
              }
            }
            index := Some(i);
          }
        }
      }
    }

    /** UPDATE_HEAD. */
    method UpdateHead()
      requires Sound()
      modifies this`head
      ensures Valid()
    {
      head := MaxMin();
    }

    /** The loop of `binheap_insert`: carry the new node through the trees of order 0, 1, 2, ... */
    method Carry(key: K, value: V) returns (node: Tree<K, V>)
      modifies this`trees
      ensures var k := node.Order();
        && Carries(old(trees), k) && trees == old(trees)[k..]
        && node == Fold(cmp, mode, Tree(key, value, []), old(trees)[..k])
    {
      node := Tree(key, value, []);
      var order := 0;
      ghost var all := trees;
      while trees != [] && trees[0].Order() == order
        invariant order <= |all| && trees == all[order..] && forall i :: 0 <= i < order ==> all[i].Order() == i
        invariant node.Order() == order && node == Fold(cmp, mode, Tree(key, value, []), all[..order])
        decreases |trees|
      {
        assert all[order..][0] == all[order] && all[order..][1..] == all[order + 1..];
        assert all[..order + 1][..order] == all[..order];
        var tree := trees[0];
        trees := trees[1..];
        if Prec(cmp, mode, node.key, tree.key) {
          node := Link(node, tree);
        } else {
          node := Link(tree, node);
        }
        order := order + 1;
      }
    }

    method Prepend(node: Tree<K, V>)
      modifies this`trees, this`count
      ensures trees == [node] + old(trees) && count == old(count) + 1
    {
      trees := [node] + trees;
      count := count + 1;
    }

    /** `binheap_insert`. */
    method Insert(key: K, value: V)
      requires Valid()
      modifies this
      ensures Valid() && count == old(count) + 1
      ensures trees != [] && var k := trees[0].Order();
        && Carries(old(trees), k)
        && trees == [Fold(cmp, mode, Tree(key, value, []), old(trees)[..k])] + old(trees)[k..]
      ensures Forest(trees) == old(Forest(trees)) + multiset{(key, value)}
      ensures old(BinomialForest(trees)) ==> BinomialForest(trees)
    {
      Store(key, value);
      FirstOrBest();
    }

    /** An insertion up to the head pointer. */
    method Store(key: K, value: V)
      requires Sound()
      modifies this`trees, this`count
      ensures Sound() && trees != [] && (old(trees) == [] ==> |trees| == 1) && count == old(count) + 1
      ensures var k := trees[0].Order();
        && Carries(old(trees), k)
        && trees == [Fold(cmp, mode, Tree(key, value, []), old(trees)[..k])] + old(trees)[k..]
      ensures Forest(trees) == old(Forest(trees)) + multiset{(key, value)}
      ensures old(BinomialForest(trees)) ==> BinomialForest(trees)
    {
      ghost var all := trees;
      var node := Carry(key, value);
      Prepend(node);
      Folded(cmp, mode, Tree(key, value, []), all, node.Order());
    }

    /** The head after an insertion. */
    method FirstOrBest()
      requires Sound() && trees != [] && (head.None? ==> |trees| == 1)
      modifies this`head
      ensures Valid()
    {
      if head.None? {
        PrecTotal(cmp, mode, trees[0].key, trees[0].key);
        head := Some(0);
      } else {
        UpdateHead();
      }
    }

    /** A run of insertions into an empty heap: the list of roots is the binary form of `count`. */
    method InsertAll(entries: seq<(K, V)>)
      requires Valid() && trees == []
      modifies this
      ensures Valid() && Forest(trees) == multiset(entries) && count == |entries|
      ensures BinomialForest(trees) && Weight(trees) == count
      ensures forall n: nat :: HasOrder(trees, n) <==> Bit(count, n)
    {
      for i := 0 to |entries|
        invariant Valid() && BinomialForest(trees) && Forest(trees) == multiset(entries[..i]) && count == i
      {
        TakeOneMore(entries, i);
        Insert(entries[i].0, entries[i].1);
      }
      assert entries[..|entries|] == entries;
      BinaryCount();
    }

    /** As long as the trees are binomial, the list of roots is the binary form of `count`. */
    lemma BinaryCount()
      requires Valid() && BinomialForest(trees)
      ensures Weight(trees) == count
      ensures forall n: nat :: HasOrder(trees, n) <==> Bit(count, n)
    {
      WeightIsSize(trees);
      forall n: nat ensures HasOrder(trees, n) <==> Bit(count, n) { BinaryForm(trees, n); }
    }

    /** `binomial_tree_node_find_max_child` or `..._min_child`: the last extremal child. */
    method FindChild(node: Tree<K, V>) returns (index: nat)
      requires Preorder(cmp) && node.children != []
      ensures index < |node.children|
      ensures forall i :: 0 <= i < |node.children| ==> Prec(cmp, mode, node.children[index].key, node.children[i].key)
      ensures forall i :: index < i < |node.children| ==>
        !Prec(cmp, mode, node.children[i].key, node.children[index].key)
    {
      index := 0;
      for i := 0 to |node.children|
        invariant index <= i && index < |node.children| && (i > 0 ==> index < i)
        invariant forall k :: 0 <= k < i ==> Prec(cmp, mode, node.children[index].key, node.children[k].key)
        invariant forall k :: index < k < i ==> !Prec(cmp, mode, node.children[k].key, node.children[index].key)
      {
        PrecTotal(cmp, mode, node.children[index].key, node.children[i].key);
        if Prec(cmp, mode, node.children[i].key, node.children[index].key) {
          forall k | 0 <= k < i ensures Prec(cmp, mode, node.children[i].key, node.children[k].key) {
            PrecTrans(cmp, mode, node.children[i].key, node.children[index].key, node.children[k].key);
          }
          PrecTotal(cmp, mode, node.children[i].key, node.children[i].key);
          index := i;
        }
      }
    }

    /** The loop that hands the other children to the promoted one. */
    method Adopt(parent: Tree<K, V>, others: seq<Tree<K, V>>) returns (r: Tree<K, V>)
      requires Ordered(cmp, mode, parent) && AllOrdered(cmp, mode, others)
      requires forall c :: c in others ==> Prec(cmp, mode, parent.key, c.key)
      ensures Ordered(cmp, mode, r) && r == Tree(parent.key, parent.value, parent.children + others)
    {
      r := parent;
      for i := 0 to |others|
        invariant Ordered(cmp, mode, r) && r == Tree(parent.key, parent.value, parent.children + others[..i])
      {
        assert others[i] in others;
        LinkOrdered(cmp, mode, r, others[i]);
        assert parent.children + others[..i] + [others[i]] == parent.children + others[..i + 1];
        r := Link(r, others[i]);
      }
      assert others[..|others|] == others;
    }

    /** The extremal child takes the place of the root `node`, with its siblings as further children. */
    method Promote(node: Tree<K, V>) returns (r: Tree<K, V>, ghost index: nat)
      requires Preorder(cmp) && Ordered(cmp, mode, node) && node.children != []
      ensures Ordered(cmp, mode, r) && Contents(r) == Forest(node.children)
      ensures index < |node.children| && var c := node.children;
        && r == Tree(c[index].key, c[index].value, c[index].children + (c[..index] + c[index + 1..]))
        && forall i :: index < i < |c| ==> !Prec(cmp, mode, c[i].key, c[index].key)
    {
      var child := FindChild(node);
      index := child;
      var c := node.children;
      PickOut(c, child);
      assert c[child] in c;
      r := Adopt(c[child], c[..child] + c[child + 1..]);
    }

    /** `binheap_delete_maximum` of a MAX heap, `binheap_delete_minimum` of a MIN heap. The other
        roots keep their places; `put` is what takes the place of the removed one. */
    method DeleteExtremum() returns (rc: int, removed: Option<(K, V)>, ghost put: seq<Tree<K, V>>)
      requires Valid()
      modifies this
      ensures Valid()
      ensures old(trees) == [] ==> rc == -1 && removed.None? && trees == []
      ensures old(trees) != [] ==>
        && rc == 0 && removed.Some? && count == old(count) - 1
        && old(Forest(trees)) == Forest(trees) + multiset{removed.value}
        && PrecedesAll(cmp, mode, removed.value.0, old(Forest(trees)))
        && trees == old(trees[..head.value]) + put + old(trees[head.value + 1..]) && |put| <= 1
      ensures old(trees) != [] ==> forall e :: e in old(Forest(trees)) ==>
        if mode.Max? then cmp(removed.value.0, e.0) >= 0 else cmp(removed.value.0, e.0) <= 0
    {
      rc, removed, put := -1, None, [];
      if head.Some? {
        var e;
        e, put := TakeHead();
        UpdateHead();
        rc, removed := 0, Some(e);
      }
    }

    /** A removal up to the head pointer. */
    method TakeHead() returns (e: (K, V), ghost put: seq<Tree<K, V>>)
      requires Valid() && head.Some?
      modifies this`trees, this`count
      ensures Sound() && count == old(count) - 1 && old(Forest(trees)) == Forest(trees) + multiset{e}
      ensures PrecedesAll(cmp, mode, e.0, old(Forest(trees)))
      ensures trees == old(trees)[..head.value] + put + old(trees)[head.value + 1..] && |put| <= 1
    {
      var node := trees[head.value];
      ExtremalRoot(cmp, mode, trees, head.value);
      put := RemoveRoot(head.value);
      count := count - 1;
      e := (node.key, node.value);
    }

    /** The list of roots without the root at `h`, or with its promoted child in its place. */
    method RemoveRoot(h: nat) returns (ghost put: seq<Tree<K, V>>)
      requires Preorder(cmp) && AllOrdered(cmp, mode, trees) && h < |trees|
      modifies this`trees
      ensures AllOrdered(cmp, mode, trees) && trees == old(trees)[..h] + put + old(trees)[h + 1..]
      ensures |put| == if old(trees)[h].children == [] then 0 else 1
      ensures old(Forest(trees)) == Forest(trees) + multiset{(old(trees[h]).key, old(trees[h]).value)}
    {
      var node := trees[h];
      assert node in trees;
      PickOut(trees, h);
      if node.children == [] {
        put := [];
        trees := trees[..h] + trees[h + 1..];
      } else {
        var r, _ := Promote(node);
        put := [r];
        PutBack(trees[..h], r, trees[h + 1..], (node.key, node.value));
        trees := trees[..h] + [r] + trees[h + 1..];
      }
    }

    /** Taking out the extremum until nothing is left, as `binheap_destroy` does: the keys come
        out in order although the trees are no longer binomial. */
    method Drain() returns (out: seq<(K, V)>)
      requires Valid()
      modifies this
      ensures Valid() && trees == [] && count == 0
      ensures multiset(out) == old(Forest(trees))
      ensures forall i, j :: 0 <= i < j < |out| ==>
        if mode.Max? then cmp(out[i].0, out[j].0) >= 0 else cmp(out[i].0, out[j].0) <= 0
    {
      out := [];
      while head.Some?
        invariant Valid() && multiset(out) + Forest(trees) == old(Forest(trees))
        invariant Descending(cmp, mode, out, Forest(trees))
        decreases |Forest(trees)|
      {
        ghost var before := Forest(trees);
        var rc, e, _ := DeleteExtremum();
        Drained(cmp, mode, out, e.value, before, Forest(trees));
        out := out + [e.value];
      }
    }
  }

  // ---------- insertion keeps the binary counter ----------

  /** A new node that has taken in the trees of `ts` one after the other. */
  function Fold<K, V>(cmp: (K, K) -> int, mode: Mode, node: Tree<K, V>, ts: seq<Tree<K, V>>): Tree<K, V>
  {
    if ts == [] then node else Join(cmp, mode, Fold(cmp, mode, node, ts[..|ts| - 1]), ts[|ts| - 1])
  }

  lemma {:induction false} FoldFacts<K(!new), V>(cmp: (K, K) -> int, mode: Mode, node: Tree<K, V>, ts: seq<Tree<K, V>>)
    requires Preorder(cmp) && Ordered(cmp, mode, node) && AllOrdered(cmp, mode, ts)
    ensures Ordered(cmp, mode, Fold(cmp, mode, node, ts))
    ensures Contents(Fold(cmp, mode, node, ts)) == Contents(node) + Forest(ts)
  {
    if ts != [] {
      var before, t := ts[..|ts| - 1], ts[|ts| - 1];
      assert t in ts && forall x :: x in before ==> x in ts;
      FoldFacts(cmp, mode, node, before);
      JoinFacts(cmp, mode, Fold(cmp, mode, node, before), t);
      SumAssociates(Contents(node), Forest(before), Contents(t));
    }
  }

  lemma {:induction false} FoldBinomial<K, V>(cmp: (K, K) -> int, mode: Mode, node: Tree<K, V>, ts: seq<Tree<K, V>>)
    requires node.children == [] && forall i :: 0 <= i < |ts| ==> ts[i].Order() == i && Binomial(ts[i])
    ensures Binomial(Fold(cmp, mode, node, ts)) && Fold(cmp, mode, node, ts).Order() == |ts|
  {
    if ts != [] {
      var before, t := ts[..|ts| - 1], ts[|ts| - 1];
      FoldBinomial(cmp, mode, node, before);
      LinkBinomial(Fold(cmp, mode, node, before), t);
      LinkBinomial(t, Fold(cmp, mode, node, before));
    }
  }

  /** The list of roots after an insertion: order, contents, size and shape. */
  lemma Folded<K(!new), V>(cmp: (K, K) -> int, mode: Mode, node: Tree<K, V>, all: seq<Tree<K, V>>, k: nat)
    requires Preorder(cmp) && node.children == [] && AllOrdered(cmp, mode, all) && Carries(all, k)
    ensures var ts := [Fold(cmp, mode, node, all[..k])] + all[k..];
      && AllOrdered(cmp, mode, ts) && Forest(ts) == Forest(all) + multiset{(node.key, node.value)}
      && |Forest(ts)| == |Forest(all)| + 1
      && (BinomialForest(all) ==> BinomialForest(ts))
  {
    FoldedOrdered(cmp, mode, node, all, k);
    FoldedContents(Fold(cmp, mode, node, all[..k]), node, all, k);
    if BinomialForest(all) { FoldedShape(cmp, mode, node, all, k); }
  }

  lemma FoldedOrdered<K(!new), V>(cmp: (K, K) -> int, mode: Mode, node: Tree<K, V>, all: seq<Tree<K, V>>, k: nat)
    requires Preorder(cmp) && node.children == [] && AllOrdered(cmp, mode, all) && k <= |all|
    ensures AllOrdered(cmp, mode, [Fold(cmp, mode, node, all[..k])] + all[k..])
    ensures Contents(Fold(cmp, mode, node, all[..k])) == Contents(node) + Forest(all[..k])
  {
    assert forall t :: t in all[..k] || t in all[k..] ==> t in all;
    FoldFacts(cmp, mode, node, all[..k]);
  }

  lemma FoldedShape<K, V>(cmp: (K, K) -> int, mode: Mode, node: Tree<K, V>, all: seq<Tree<K, V>>, k: nat)
    requires node.children == [] && Carries(all, k) && BinomialForest(all)
    ensures BinomialForest([Fold(cmp, mode, node, all[..k])] + all[k..])
  {
    var first := all[..k];
    assert forall i :: 0 <= i < k ==> first[i] == all[i];
    FoldBinomial(cmp, mode, node, first);
    FoldInFront(Fold(cmp, mode, node, first), all, k);
  }

  lemma FoldedContents<K, V>(f: Tree<K, V>, node: Tree<K, V>, all: seq<Tree<K, V>>, k: nat)
    requires k <= |all| && node.children == [] && Contents(f) == Contents(node) + Forest(all[..k])
    ensures Forest([f] + all[k..]) == Forest(all) + multiset{(node.key, node.value)}
    ensures |Forest([f] + all[k..])| == |Forest(all)| + 1
  {
    assert all == all[..k] + all[k..];
    ForestCons(f, all[k..]);
    ForestConcat(all[..k], all[k..]);
    MoveFirst(Contents(node), Forest(all[..k]), Forest(all[k..]));
    assert Contents(node) == multiset{(node.key, node.value)};
  }

  lemma MoveFirst<T>(x: multiset<T>, y: multiset<T>, z: multiset<T>)
    ensures (x + y) + z == (y + z) + x
  {
  }

  lemma FoldInFront<K, V>(f: Tree<K, V>, all: seq<Tree<K, V>>, k: nat)
    requires BinomialForest(all) && Carries(all, k) && Binomial(f) && f.Order() == k
    ensures BinomialForest([f] + all[k..])
  {
    forall i | k <= i < |all| ensures all[i].Order() > k {
      if k > 0 { assert all[k - 1].Order() < all[k].Order(); }
    }
  }

  lemma TakeOneMore<K, V>(s: seq<(K, V)>, i: nat)
    requires i < |s|
    ensures multiset(s[..i + 1]) == multiset(s[..i]) + multiset{(s[i].0, s[i].1)}
  {
    assert s[..i + 1] == s[..i] + [s[i]];
  }

  // ---------- draining ----------

  /** `out` is in order and everything in it precedes what is left. */
  ghost predicate Descending<K(!new), V(!new)>(cmp: (K, K) -> int, mode: Mode, out: seq<(K, V)>, left: multiset<(K, V)>)
  {
    && (forall i, j :: 0 <= i < j < |out| ==> Prec(cmp, mode, out[i].0, out[j].0))
    && (forall i :: 0 <= i < |out| ==> PrecedesAll(cmp, mode, out[i].0, left))
  }

  lemma Drained<K(!new), V(!new)>(cmp: (K, K) -> int, mode: Mode, out: seq<(K, V)>, e: (K, V),
                                  before: multiset<(K, V)>, left: multiset<(K, V)>)
    requires Descending(cmp, mode, out, before) && before == left + multiset{e} && PrecedesAll(cmp, mode, e.0, before)
    ensures Descending(cmp, mode, out + [e], left)
    ensures multiset(out + [e]) + left == multiset(out) + before && |left| < |before|
  {
  }
}
