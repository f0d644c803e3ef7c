/**
 `binheap_merge` seen through the orders of the roots. Until two roots of one order meet while a
 carry is in hand, the course of the loop depends on the orders alone; without such a meeting the
 result is heap-ordered in either mode.
 */
module MergeOrders {
  import opened Wrappers
  import opened Order
  import opened Numbers
  import opened BinHeap
  import opened HeapMerge

  /** A state of the loop with every tree replaced by its order. */
  datatype Orders = Orders(list1: seq<nat>, list2: seq<nat>,
                           node1: Option<nat>, node2: Option<nat>, carry: Option<nat>, out: seq<nat>)

  function RootOrders<K, V>(ts: seq<Tree<K, V>>): (r: seq<nat>)
    ensures |r| == |ts| && forall i :: 0 <= i < |ts| ==> r[i] == ts[i].Order()
  {
    if ts == [] then [] else RootOrders(ts[..|ts| - 1]) + [ts[|ts| - 1].Order()]
  }

  function OrderOf<K, V>(o: Option<Tree<K, V>>): Option<nat>
  {
    if o.None? then None else Some(o.value.Order())
  }

  function OrdersOf<K, V>(s: State<K, V>): Orders
  {
    Orders(RootOrders(s.list1), RootOrders(s.list2), OrderOf(s.node1), OrderOf(s.node2), OrderOf(s.carry),
           RootOrders(s.out))
  }

  function StartOrders(a: seq<nat>, b: seq<nat>): Orders
  {
    Orders(Rest(a), Rest(b), First(a), First(b), None, [])
  }

  predicate Over(o: Orders)
  {
    o.node1.None? && o.node2.None? && o.carry.None?
  }

  // ---------- one iteration ----------

  function AbsorbOrders(o: Orders): Orders
  {
    if o.carry.None? then o else
      var c := o.carry.value;
      if o.node1 == o.carry then Orders(o.list1, o.list2, Some(c + 1), o.node2, None, o.out)
      else if o.node2 == o.carry then Orders(o.list1, o.list2, o.node1, Some(c + 1), None, o.out)
      else if o.node1.Some? && o.node1.value > c then Orders(o.list1, o.list2, o.carry, o.node2, o.node1, o.out)
      else if o.node2.Some? && o.node2.value > c then Orders(o.list1, o.list2, o.node1, o.carry, o.node2, o.out)
      else o
  }

  /** Two roots of one order, with a carry in hand. */
  predicate Meets(o: Orders)
  {
    var p := AbsorbOrders(o);
    p.node1.Some? && p.node1 == p.node2 && p.carry.Some?
  }

  function AdvanceOrders(o: Orders): Orders
    requires o.node1.Some? || o.node2.Some?
  {
    if o.node2.None? || (o.node1.Some? && o.node1.value < o.node2.value) then
      Orders(Rest(o.list1), o.list2, First(o.list1), o.node2, o.carry, o.out + [o.node1.value])
    else if o.node1.None? || o.node1.value > o.node2.value then
      Orders(o.list1, Rest(o.list2), o.node1, First(o.list2), o.carry, o.out + [o.node2.value])
    else Orders(Rest(o.list1), Rest(o.list2), First(o.list1), First(o.list2), Some(o.node1.value + 1), o.out)
  }

  function NextOrders(o: Orders): Orders
    requires !Over(o)
  {
    if o.node1.None? && o.node2.None? then Orders(o.list1, o.list2, None, None, None, o.out + [o.carry.value])
    else AdvanceOrders(AbsorbOrders(o))
  }

  function Left(o: Orders): nat
  {
    |o.list1| + |o.list2| + Ones(o.node1.Some?) + Ones(o.node2.Some?) + Ones(o.carry.Some?)
  }

  lemma NextLeft(o: Orders)
    requires !Over(o)
    ensures Left(NextOrders(o)) < Left(o)
  {
    if o.node1.Some? || o.node2.Some? {
      assert Left(AbsorbOrders(o)) <= Left(o);
    }
  }

  /** Some iteration has such a meeting. */
  predicate EverMeets(o: Orders)
    decreases Left(o)
  {
    if Over(o) then false else
      NextLeft(o);
      Meets(o) || EverMeets(NextOrders(o))
  }

  function FinalOrders(o: Orders): Orders
    decreases Left(o)
  {
    if Over(o) then o else
      NextLeft(o);
      FinalOrders(NextOrders(o))
  }

  // ---------- the trees follow their orders ----------

  lemma OrdersSnoc<K, V>(ts: seq<Tree<K, V>>, t: Tree<K, V>)
    ensures RootOrders(ts + [t]) == RootOrders(ts) + [t.Order()]
  {
    assert (ts + [t])[..|ts|] == ts;
  }

  lemma RestOrders<K, V>(ts: seq<Tree<K, V>>)
    ensures RootOrders(Rest(ts)) == Rest(RootOrders(ts)) && OrderOf(First(ts)) == First(RootOrders(ts))
  {
  }

  lemma AbsorbFollows<K, V>(cmp: (K, K) -> int, mode: Mode, s: State<K, V>)
    ensures OrdersOf(Absorb(cmp, mode, s)) == AbsorbOrders(OrdersOf(s))
  {
    if s.carry.Some? {
      var c := s.carry.value;
      if SameOrder(s.node1, c) {
        JoinOrder(cmp, mode, s.node1.value, c);
      } else if SameOrder(s.node2, c) {
        JoinOrder(cmp, mode, s.node2.value, c);
      } else {
        assert OrderOf(s.node1) != OrderOf(s.carry) && OrderOf(s.node2) != OrderOf(s.carry);
      }
    }
  }

  lemma Emit1Follows<K, V>(s: State<K, V>)
    requires s.node1.Some?
    ensures var o := OrdersOf(s);
      OrdersOf(Emit1(s)) == Orders(Rest(o.list1), o.list2, First(o.list1), o.node2, o.carry, o.out + [o.node1.value])
  {
    RestOrders(s.list1);
    OrdersSnoc(s.out, s.node1.value);
  }

  lemma Emit2Follows<K, V>(s: State<K, V>)
    requires s.node2.Some?
    ensures var o := OrdersOf(s);
      OrdersOf(Emit2(s)) == Orders(o.list1, Rest(o.list2), o.node1, First(o.list2), o.carry, o.out + [o.node2.value])
  {
    RestOrders(s.list2);
    OrdersSnoc(s.out, s.node2.value);
  }

  lemma CombineOrder<K, V>(cmp: (K, K) -> int, mode: Mode, a: Tree<K, V>, b: Tree<K, V>)
    requires a.Order() == b.Order()
    ensures Combine(cmp, mode, a, b, None).Order() == a.Order() + 1
  {
  }

  lemma AdvanceFollows<K, V>(cmp: (K, K) -> int, mode: Mode, s: State<K, V>)
    requires s.node1.Some? || s.node2.Some?
    requires s.carry.None? || OrderOf(s.node1) != OrderOf(s.node2)
    ensures OrdersOf(Advance(cmp, mode, s)) == AdvanceOrders(OrdersOf(s))
  {
    if Gives1(s) {
      Emit1Follows(s);
    } else if Gives2(s) {
      Emit2Follows(s);
    } else {
      RestOrders(s.list1);
      RestOrders(s.list2);
      CombineOrder(cmp, mode, s.node1.value, s.node2.value);
    }
  }

  lemma NoMeeting<K, V>(cmp: (K, K) -> int, mode: Mode, s: State<K, V>)
    requires (s.node1.Some? || s.node2.Some?) && !Meets(OrdersOf(s))
    ensures var p := Absorb(cmp, mode, s);
      && OrdersOf(p) == AbsorbOrders(OrdersOf(s)) && (p.node1.Some? || p.node2.Some?)
      && (p.carry.None? || OrderOf(p.node1) != OrderOf(p.node2))
  {
    AbsorbFollows(cmp, mode, s);
    AbsorbHolds(cmp, mode, s, 0);
    MeetingFields(Absorb(cmp, mode, s), AbsorbOrders(OrdersOf(s)));
  }

  lemma MeetingFields<K, V>(p: State<K, V>, o: Orders)
    requires OrdersOf(p) == o && !(o.node1.Some? && o.node1 == o.node2 && o.carry.Some?)
    requires p.node1.Some? || p.node2.Some?
    ensures p.carry.None? || OrderOf(p.node1) != OrderOf(p.node2)
  {
  }

  lemma NextFollows<K, V>(cmp: (K, K) -> int, mode: Mode, s: State<K, V>)
    requires !Done(s) && !Meets(OrdersOf(s))
    ensures OrdersOf(Next(cmp, mode, s)) == NextOrders(OrdersOf(s))
  {
    if s.node1.Some? || s.node2.Some? {
      NoMeeting(cmp, mode, s);
      AdvanceFollows(cmp, mode, Absorb(cmp, mode, s));
    } else {
      LastFollows(cmp, mode, s);
    }
  }

  lemma LastFollows<K, V>(cmp: (K, K) -> int, mode: Mode, s: State<K, V>)
    requires s.node1.None? && s.node2.None? && s.carry.Some?
    ensures OrdersOf(Next(cmp, mode, s)) == NextOrders(OrdersOf(s))
  {
    OrdersSnoc(s.out, s.carry.value);
  }

  lemma SlipMeets<K, V>(cmp: (K, K) -> int, mode: Mode, s: State<K, V>)
    requires Slips(cmp, mode, s)
    ensures Meets(OrdersOf(s))
  {
    AbsorbFollows(cmp, mode, s);
  }

  lemma {:induction false} NoMeetingNoSlip<K, V>(cmp: (K, K) -> int, mode: Mode, s: State<K, V>)
    requires !EverMeets(OrdersOf(s))
    ensures !EverSlips(cmp, mode, s)
    decreases Pending(s)
  {
    if !Done(s) {
      NextSmaller(cmp, mode, s);
      NextLeft(OrdersOf(s));
      if Slips(cmp, mode, s) { SlipMeets(cmp, mode, s); }
      NextFollows(cmp, mode, s);
      NoMeetingNoSlip(cmp, mode, Next(cmp, mode, s));
    }
  }

  /** A condition on the two sequences of root orders: without a meeting the merged list is
      heap-ordered in either mode, whatever the keys. */
  lemma OrdersSuffice<K(!new), V>(cmp: (K, K) -> int, mode: Mode, a: seq<Tree<K, V>>, b: seq<Tree<K, V>>)
    requires Preorder(cmp) && AllOrdered(cmp, mode, a) && AllOrdered(cmp, mode, b)
    requires !EverMeets(StartOrders(RootOrders(a), RootOrders(b)))
    ensures AllOrdered(cmp, mode, Final(cmp, mode, Start(a, b)).out)
  {
    RestOrders(a);
    RestOrders(b);
    NoMeetingNoSlip(cmp, mode, Start(a, b));
    MergeExact(cmp, mode, a, b);
  }

  lemma {:induction false} FinalFollows<K, V>(cmp: (K, K) -> int, mode: Mode, s: State<K, V>)
    requires !EverMeets(OrdersOf(s))
    ensures OrdersOf(Final(cmp, mode, s)) == FinalOrders(OrdersOf(s))
    decreases Pending(s)
  {
    if !Done(s) {
      NextSmaller(cmp, mode, s);
      NextLeft(OrdersOf(s));
      NextFollows(cmp, mode, s);
      FinalNext(cmp, mode, s);
      FinalFollows(cmp, mode, Next(cmp, mode, s));
    }
  }

  /** Without a meeting the orders of the merged roots are a function of the two sequences. */
  lemma OrdersDecide<K, V>(cmp: (K, K) -> int, mode: Mode, a: seq<Tree<K, V>>, b: seq<Tree<K, V>>)
    requires !EverMeets(StartOrders(RootOrders(a), RootOrders(b)))
    ensures RootOrders(Final(cmp, mode, Start(a, b)).out)
         == FinalOrders(StartOrders(RootOrders(a), RootOrders(b))).out
  {
    RestOrders(a);
    RestOrders(b);
    FinalFollows(cmp, mode, Start(a, b));
  }

  /** One root each of orders 0 and 1, and a root of order 1: orders 0 and 2, as a binary sum. */
  lemma ThreeAndTwo()
    ensures var o := StartOrders([0, 1], [1]); !EverMeets(o) && FinalOrders(o).out == [0, 2]
  {
    var o0 := StartOrders([0, 1], [1]);
    var o1 := Orders([], [], Some(1), Some(1), None, [0]);
    var o2 := Orders([], [], None, None, Some(2), [0]);
    var o3 := Orders([], [], None, None, None, [0, 2]);
    assert NextOrders(o0) == o1 && NextOrders(o1) == o2 && NextOrders(o2) == o3;
    assert !EverMeets(o3) && !EverMeets(o2) && !EverMeets(o1);
    assert FinalOrders(o3) == o3 && FinalOrders(o2) == o3 && FinalOrders(o1) == o3;
  }

  /** Roots of orders 0, 1 and 2 and a single node: order 2 twice, where a binary sum has order 3. */
  lemma OneAndSeven()
    ensures var o := StartOrders([0], [0, 1, 2]); !EverMeets(o) && FinalOrders(o).out == [2, 2]
  {
    var o0 := StartOrders([0], [0, 1, 2]);
    var o1 := Orders([], [2], None, Some(1), Some(1), []);
    var o2 := Orders([], [], None, Some(2), None, [2]);
    var o3 := Orders([], [], None, None, None, [2, 2]);
    assert NextOrders(o0) == o1 && NextOrders(o1) == o2 && NextOrders(o2) == o3;
    assert !EverMeets(o3) && !EverMeets(o2) && !EverMeets(o1);
    assert FinalOrders(o3) == o3 && FinalOrders(o2) == o3 && FinalOrders(o1) == o3;
  }

  // ---------- heaps built by insertion: a condition on the counts ----------

  function Log2(n: nat): (r: nat)
    requires n > 0
    ensures Pow2(r) <= n < Pow2(r + 1)
  {
    if n == 1 then 0 else 1 + Log2(n / 2)
  }

  /** The positions of the bits set in `n`, lowest first. */
  function BitOrders(n: nat): seq<nat>
  {
    if n == 0 then [] else BitOrders(n - Pow2(Log2(n))) + [Log2(n)]
  }

  lemma Log2Unique(n: nat, r: nat)
    requires n > 0 && Pow2(r) <= n < Pow2(r + 1)
    ensures Log2(n) == r
  {
    if Log2(n) < r { Pow2Monotone(Log2(n) + 1, r); } else if Log2(n) > r { Pow2Monotone(r + 1, Log2(n)); }
  }

  lemma TopBit(w: nat, o: nat)
    requires w < Pow2(o)
    ensures BitOrders(w + Pow2(o)) == BitOrders(w) + [o]
  {
    assert Pow2(o + 1) == 2 * Pow2(o);
    Log2Unique(w + Pow2(o), o);
  }

  /** With increasing orders, the orders are the bits of the weight. */
  lemma {:induction false} IncreasingOrders<K, V>(ts: seq<Tree<K, V>>)
    requires Increasing(ts)
    ensures RootOrders(ts) == BitOrders(Weight(ts))
  {
    if ts != [] {
      var ts', o := ts[..|ts| - 1], ts[|ts| - 1].Order();
      IncreasingOrders(ts');
      WeightBound(ts', o);
      TopBit(Weight(ts'), o);
      assert Weight(ts) == Weight(ts') + Pow2(o);
      assert RootOrders(ts) == RootOrders(ts') + [o];
    }
  }

  lemma OrdersOfCount<K, V>(ts: seq<Tree<K, V>>)
    requires BinomialForest(ts)
    ensures RootOrders(ts) == BitOrders(|Forest(ts)|)
  {
    WeightIsSize(ts);
    IncreasingOrders(ts);
  }

  /** So two heaps built by insertion merge correctly in either mode whenever their counts, taken
      as bit positions, have no meeting. */
  lemma CountsSuffice<K(!new), V>(cmp: (K, K) -> int, mode: Mode, a: seq<Tree<K, V>>, b: seq<Tree<K, V>>)
    requires Preorder(cmp) && AllOrdered(cmp, mode, a) && AllOrdered(cmp, mode, b)
    requires BinomialForest(a) && BinomialForest(b)
    requires !EverMeets(StartOrders(BitOrders(|Forest(a)|), BitOrders(|Forest(b)|)))
    ensures AllOrdered(cmp, mode, Final(cmp, mode, Start(a, b)).out)
  {
    OrdersOfCount(a);
    OrdersOfCount(b);
    OrdersSuffice(cmp, mode, a, b);
  }

  /** So do the counts decide the orders of the merged roots. */
  lemma CountsDecide<K, V>(cmp: (K, K) -> int, mode: Mode, a: seq<Tree<K, V>>, b: seq<Tree<K, V>>)
    requires BinomialForest(a) && BinomialForest(b)
    requires !EverMeets(StartOrders(BitOrders(|Forest(a)|), BitOrders(|Forest(b)|)))
    ensures RootOrders(Final(cmp, mode, Start(a, b)).out)
         == FinalOrders(StartOrders(BitOrders(|Forest(a)|), BitOrders(|Forest(b)|))).out
  {
    OrdersOfCount(a);
    OrdersOfCount(b);
    OrdersDecide(cmp, mode, a, b);
  }

  /** Merging a heap of one node with one of seven, both built by insertion, gives two roots of order
      2: the merged list is no longer the binary form of its count. */
  lemma NotBinary<K, V>(cmp: (K, K) -> int, mode: Mode, a: seq<Tree<K, V>>, b: seq<Tree<K, V>>)
    requires BinomialForest(a) && BinomialForest(b) && |Forest(a)| == 1 && |Forest(b)| == 7
    ensures var out := Final(cmp, mode, Start(a, b)).out; RootOrders(out) == [2, 2] && !Increasing(out)
  {
    BitsOf7();
    OneAndSeven();
    CountsDecide(cmp, mode, a, b);
    var out := Final(cmp, mode, Start(a, b)).out;
    assert RootOrders(out)[0] == out[0].Order() && RootOrders(out)[1] == out[1].Order();
  }

  // ---------- a failure by insertion alone ----------

  lemma BitsOf7()
    ensures BitOrders(1) == [0] && BitOrders(7) == [0, 1, 2]
  {
    SmallPowers();
    TopBit(0, 0);
    assert BitOrders(1) == [0];
    TopBit(1, 1);
    assert BitOrders(3) == [0, 1];
    TopBit(3, 2);
  }

  lemma BitsOf15()
    ensures BitOrders(15) == [0, 1, 2, 3]
  {
    SmallPowers();
    BitsOf7();
    TopBit(7, 3);
  }

  lemma BitsOf21()
    ensures BitOrders(21) == [0, 2, 4]
  {
    SmallPowers();
    TopBit(0, 0);
    TopBit(1, 2);
    TopBit(5, 4);
  }

  lemma SmallPowers()
    ensures Pow2(0) == 1 && Pow2(1) == 2 && Pow2(2) == 4 && Pow2(3) == 8 && Pow2(4) == 16
  {
    assert Pow2(2) == 2 * Pow2(1) && Pow2(3) == 2 * Pow2(2) && Pow2(4) == 2 * Pow2(3);
  }

  /** 15 copies of one key in a MIN heap and 21 copies of a larger one in another, both built by
      insertion: whatever trees hold them, the merged list is not heap-ordered. */
  lemma MinMergeFails<K(!new), V>(cmp: (K, K) -> int, a: seq<Tree<K, V>>, b: seq<Tree<K, V>>, x: K, y: K)
    requires Preorder(cmp) && cmp(x, y) < 0 && BinomialForest(a) && BinomialForest(b)
    requires |Forest(a)| == 15 && (forall t :: t in a ==> t.key == x)
    requires |Forest(b)| == 21 && (forall t :: t in b ==> t.key == y)
    ensures !AllOrdered(cmp, Min, Final(cmp, Min, Start(a, b)).out)
  {
    RootsOf15(a);
    RootsOf21(b);
    assert a[0] in a && a[1] in a && a[2] in a && a[3] in a && b[0] in b && b[1] in b && b[2] in b;
    FourIterations(cmp, a[0], a[1], a[2], a[3], b[0], b[1], b[2]);
    MergeExact(cmp, Min, a, b);
  }

  lemma RootsOf15<K, V>(a: seq<Tree<K, V>>)
    requires BinomialForest(a) && |Forest(a)| == 15
    ensures |a| == 4 && a == [a[0], a[1], a[2], a[3]]
    ensures a[0].Order() == 0 && a[1].Order() == 1 && a[2].Order() == 2 && a[3].Order() == 3
  {
    OrdersOfCount(a);
    BitsOf15();
    assert RootOrders(a)[0] == 0 && RootOrders(a)[1] == 1 && RootOrders(a)[2] == 2 && RootOrders(a)[3] == 3;
  }

  lemma RootsOf21<K, V>(b: seq<Tree<K, V>>)
    requires BinomialForest(b) && |Forest(b)| == 21
    ensures |b| == 3 && b == [b[0], b[1], b[2]]
    ensures b[0].Order() == 0 && b[1].Order() == 2 && b[2].Order() == 4
  {
    OrdersOfCount(b);
    BitsOf21();
    assert RootOrders(b)[0] == 0 && RootOrders(b)[1] == 2 && RootOrders(b)[2] == 4;
  }

  lemma FourIterations<K(!new), V>(cmp: (K, K) -> int, a0: Tree<K, V>, a1: Tree<K, V>, a2: Tree<K, V>, a3: Tree<K, V>,
                                   b0: Tree<K, V>, b1: Tree<K, V>, b2: Tree<K, V>)
    requires Preorder(cmp) && cmp(a0.key, b0.key) < 0
    requires a0.key == a1.key == a2.key == a3.key && b0.key == b1.key == b2.key
    requires a0.Order() == 0 && a1.Order() == 1 && a2.Order() == 2 && a3.Order() == 3
    requires b0.Order() == 0 && b1.Order() == 2 && b2.Order() == 4
    ensures EverSlips(cmp, Min, Start([a0, a1, a2, a3], [b0, b1, b2]))
  {
    assert PreorderAt(cmp, a0.key, a0.key, a0.key);
    var s0 := Start([a0, a1, a2, a3], [b0, b1, b2]);
    var c1 := Link(a0, b0);
    var s1 := State([a2, a3], [b2], Some(a1), Some(b1), Some(c1), []);
    assert Next(cmp, Min, s0) == s1;
    var c2 := Link(Link(a1, c1), b1);
    var s2 := State([a3], [], Some(a2), Some(b2), Some(c2), []);
    assert Next(cmp, Min, s1) == s2;
    var s3 := State([], [], Some(a3), Some(c2), Some(b2), [a2]);
    assert Next(cmp, Min, s2) == s3;
    assert Slips(cmp, Min, s3);
    assert EverSlips(cmp, Min, s3);
    assert EverSlips(cmp, Min, s2);
    assert EverSlips(cmp, Min, s1);
  }

  lemma {:induction false} RootKeys<K, V>(ts: seq<Tree<K, V>>, t: Tree<K, V>)
    requires t in ts
    ensures (t.key, t.value) in Forest(ts)
  {
    if t != ts[|ts| - 1] { RootKeys(ts[..|ts| - 1], t); }
  }

  /** The same from the calls themselves: insertions, then one merge. */
  method InsertedMergeFails<K(!new), V(!new)>(cmp: (K, K) -> int, x: K, y: K, v: V) returns (merged: Heap?<K, V>)
    requires Preorder(cmp) && cmp(x, y) < 0
    ensures merged != null && merged.mode == Min && merged.cmp == cmp && merged.count == 36
    ensures !AllOrdered(cmp, Min, merged.trees)
  {
    var bh1 := Copies(cmp, 15, x, v);
    var bh2 := Copies(cmp, 21, y, v);
    MinMergeFails(cmp, bh1.trees, bh2.trees, x, y);
    MergeExact(cmp, Min, bh1.trees, bh2.trees);
    merged := Merge(bh1, bh2);
  }

  /** A MIN heap after `n` insertions of one key. */
  method Copies<K(!new), V(!new)>(cmp: (K, K) -> int, n: nat, k: K, v: V) returns (bh: Heap<K, V>)
    requires Preorder(cmp)
    ensures fresh(bh) && bh.Valid() && bh.cmp == cmp && bh.mode == Min && bh.count == n
    ensures BinomialForest(bh.trees) && forall t :: t in bh.trees ==> t.key == k
  {
    bh := new Heap(cmp, Min);
    bh.InsertAll(seq(n, _ => (k, v)));
    forall t | t in bh.trees ensures t.key == k { RootKeys(bh.trees, t); }
  }
}
