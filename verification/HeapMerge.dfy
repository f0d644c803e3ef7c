/**
 `binheap_merge`: the three-way loop over the roots of two heaps and a carry.
 */
module HeapMerge {
  import opened Wrappers
  import opened Order
  import opened Numbers
  import opened BinHeap

  /** The two lists not yet shifted, the three trees in hand, and the new list. */
  datatype State<K, V> = State(list1: seq<Tree<K, V>>, list2: seq<Tree<K, V>>,
                               node1: Option<Tree<K, V>>, node2: Option<Tree<K, V>>,
                               carry: Option<Tree<K, V>>, out: seq<Tree<K, V>>)

  function First<T>(s: seq<T>): Option<T>
  {
    if s == [] then None else Some(s[0])
  }

  function Rest<T>(s: seq<T>): seq<T>
  {
    if s == [] then [] else s[1..]
  }

  function Start<K, V>(a: seq<Tree<K, V>>, b: seq<Tree<K, V>>): State<K, V>
  {
    State(Rest(a), Rest(b), First(a), First(b), None, [])
  }

  predicate Done<K, V>(s: State<K, V>)
  {
    s.node1.None? && s.node2.None? && s.carry.None?
  }

  predicate SameOrder<K, V>(a: Option<Tree<K, V>>, b: Tree<K, V>)
  {
    a.Some? && a.value.Order() == b.Order()
  }

  predicate HigherOrder<K, V>(a: Option<Tree<K, V>>, b: Tree<K, V>)
  {
    a.Some? && a.value.Order() > b.Order()
  }

  // ---------- one iteration ----------

  /** The carry meets a tree of its own order, or changes places with one of a higher order. */
  function Absorb<K, V>(cmp: (K, K) -> int, mode: Mode, s: State<K, V>): State<K, V>
  {
    if s.carry.None? then s else
      var c := s.carry.value;
      if SameOrder(s.node1, c) then
        State(s.list1, s.list2, Some(Join(cmp, mode, s.node1.value, c)), s.node2, None, s.out)
      else if SameOrder(s.node2, c) then
        State(s.list1, s.list2, s.node1, Some(Join(cmp, mode, s.node2.value, c)), None, s.out)
      else if HigherOrder(s.node1, c) then
        State(s.list1, s.list2, s.carry, s.node2, s.node1, s.out)
      else if HigherOrder(s.node2, c) then
        State(s.list1, s.list2, s.node1, s.carry, s.node2, s.out)
      else s
  }

  function Emit1<K, V>(s: State<K, V>): State<K, V>
    requires s.node1.Some?
  {
    State(Rest(s.list1), s.list2, First(s.list1), s.node2, s.carry, s.out + [s.node1.value])
  }

  function Emit2<K, V>(s: State<K, V>): State<K, V>
    requires s.node2.Some?
  {
    State(s.list1, Rest(s.list2), s.node1, First(s.list2), s.carry, s.out + [s.node2.value])
  }

  /** Two trees of one order and possibly a carry become the next carry. With the first tree on
      top the carry is compared by `cmp` alone, whatever the mode. */
  function Combine<K, V>(cmp: (K, K) -> int, mode: Mode, a: Tree<K, V>, b: Tree<K, V>, carry: Option<Tree<K, V>>)
    : Tree<K, V>
  {
    if Prec(cmp, mode, a.key, b.key) then
      var t := Link(a, b);
      if carry.None? then t
      else if cmp(t.key, carry.value.key) >= 0 then Link(t, carry.value) else Link(carry.value, t)
    else
      var t := Link(b, a);
      if carry.None? then t else Join(cmp, mode, t, carry.value)
  }

  function Advance<K, V>(cmp: (K, K) -> int, mode: Mode, s: State<K, V>): State<K, V>
    requires s.node1.Some? || s.node2.Some?
  {
    if s.node2.None? then Emit1(s)
    else if s.node1.None? then Emit2(s)
    else if s.node1.value.Order() < s.node2.value.Order() then Emit1(s)
    else if s.node1.value.Order() > s.node2.value.Order() then Emit2(s)
    else State(Rest(s.list1), Rest(s.list2), First(s.list1), First(s.list2),
               Some(Combine(cmp, mode, s.node1.value, s.node2.value, s.carry)), s.out)
  }

  function Next<K, V>(cmp: (K, K) -> int, mode: Mode, s: State<K, V>): State<K, V>
    requires !Done(s)
  {
    if s.node1.None? && s.node2.None? then State(s.list1, s.list2, None, None, None, s.out + [s.carry.value])
    else Advance(cmp, mode, Absorb(cmp, mode, s))
  }

  /** Where the carry goes. It is taken in by the first heap's root if both have its order, and the
      second heap's root is given out. Below both roots it is given out itself, and the first heap's
      root becomes the carry. At the end of both lists it comes last. */
  lemma CarryGoes<K, V>(cmp: (K, K) -> int, mode: Mode, s: State<K, V>)
    requires s.carry.Some?
    ensures SameOrder(s.node1, s.carry.value) && SameOrder(s.node2, s.carry.value) ==>
      var q := Next(cmp, mode, s);
      && q.out == s.out + [s.node2.value] && q.carry.None?
      && q.node1 == Some(Join(cmp, mode, s.node1.value, s.carry.value)) && q.node2 == First(s.list2)
    ensures HigherOrder(s.node1, s.carry.value) && (s.node2.None? || HigherOrder(s.node2, s.carry.value)) ==>
      var q := Next(cmp, mode, s);
      q.out == s.out + [s.carry.value] && q.carry == s.node1 && q.node1 == First(s.list1) && q.node2 == s.node2
    ensures s.node1.None? && s.node2.None? ==>
      Next(cmp, mode, s).out == s.out + [s.carry.value] && Done(Next(cmp, mode, s))
  {
  }

  /** The trees that are not in the new list yet. */
  function Pending<K, V>(s: State<K, V>): nat
  {
    |s.list1| + |s.list2| + (if s.node1.Some? then 1 else 0) + (if s.node2.Some? then 1 else 0)
      + (if s.carry.Some? then 1 else 0)
  }

  /** Every iteration leaves fewer trees to deal with. */
  lemma NextSmaller<K, V>(cmp: (K, K) -> int, mode: Mode, s: State<K, V>)
    requires !Done(s)
    ensures Pending(Next(cmp, mode, s)) < Pending(s)
  {
    if s.node1.Some? || s.node2.Some? {
      assert Pending(Absorb(cmp, mode, s)) <= Pending(s);
    }
  }

  function Final<K, V>(cmp: (K, K) -> int, mode: Mode, s: State<K, V>): State<K, V>
    decreases Pending(s)
  {
    if Done(s) then s else
      NextSmaller(cmp, mode, s);
      Final(cmp, mode, Next(cmp, mode, s))
  }

  // ---------- contents ----------

  /** A measure of trees that linking adds up, such as how often they hold an entry. */
  ghost predicate Additive<K(!new), V(!new)>(f: Tree<K, V> -> int)
  {
    forall a, b :: f(Link(a, b)) == f(a) + f(b)
  }

  ghost function Held<K, V>(f: Tree<K, V> -> int, o: Option<Tree<K, V>>): int
  {
    if o.None? then 0 else f(o.value)
  }

  ghost function Sum<K, V>(f: Tree<K, V> -> int, ts: seq<Tree<K, V>>): int
  {
    if ts == [] then 0 else Sum(f, ts[..|ts| - 1]) + f(ts[|ts| - 1])
  }

  ghost function Tally<K, V>(f: Tree<K, V> -> int, s: State<K, V>): int
  {
    Sum(f, s.list1) + Sum(f, s.list2) + Held(f, s.node1) + Held(f, s.node2) + Held(f, s.carry) + Sum(f, s.out)
  }

  lemma PushTally<K, V>(f: Tree<K, V> -> int, ts: seq<Tree<K, V>>, t: Tree<K, V>)
    ensures Sum(f, ts + [t]) == Sum(f, ts) + f(t)
  {
    assert (ts + [t])[..|ts|] == ts;
  }

  lemma {:induction false} ShiftTally<K, V>(f: Tree<K, V> -> int, ts: seq<Tree<K, V>>)
    ensures Held(f, First(ts)) + Sum(f, Rest(ts)) == Sum(f, ts)
  {
    if |ts| == 1 {
      assert ts[..0] == [] && ts[1..] == [];
    } else if |ts| > 1 {
      ShiftTally(f, ts[..|ts| - 1]);
      assert ts[1..][..|ts| - 2] == ts[..|ts| - 1][1..];
    }
  }

  lemma AbsorbTally<K(!new), V(!new)>(cmp: (K, K) -> int, mode: Mode, s: State<K, V>, f: Tree<K, V> -> int)
    requires Additive(f)
    ensures Tally(f, Absorb(cmp, mode, s)) == Tally(f, s)
  {
    if s.carry.Some? {
      var c := s.carry.value;
      if SameOrder(s.node1, c) {
        assert f(Join(cmp, mode, s.node1.value, c)) == f(s.node1.value) + f(c);
      } else if SameOrder(s.node2, c) {
        assert f(Join(cmp, mode, s.node2.value, c)) == f(s.node2.value) + f(c);
      }
    }
  }

  lemma CombineTally<K(!new), V(!new)>(cmp: (K, K) -> int, mode: Mode, a: Tree<K, V>, b: Tree<K, V>,
                                       carry: Option<Tree<K, V>>, f: Tree<K, V> -> int)
    requires Additive(f)
    ensures f(Combine(cmp, mode, a, b, carry)) == f(a) + f(b) + Held(f, carry)
  {
    assert f(Link(a, b)) == f(a) + f(b) == f(Link(b, a));
    if carry.Some? {
      var c := carry.value;
      assert f(Link(Link(a, b), c)) == f(Link(c, Link(a, b))) == f(a) + f(b) + f(c);
      assert f(Link(Link(b, a), c)) == f(Link(c, Link(b, a))) == f(a) + f(b) + f(c);
    }
  }

  lemma AdvanceTally<K(!new), V(!new)>(cmp: (K, K) -> int, mode: Mode, s: State<K, V>, f: Tree<K, V> -> int)
    requires Additive(f) && (s.node1.Some? || s.node2.Some?)
    ensures Tally(f, Advance(cmp, mode, s)) == Tally(f, s)
  {
    var s' := Advance(cmp, mode, s);
    ShiftTally(f, s.list1);
    ShiftTally(f, s.list2);
    if s.node1.Some? && s.node2.Some? && s.node1.value.Order() == s.node2.value.Order() {
      CombineTally(cmp, mode, s.node1.value, s.node2.value, s.carry, f);
    } else if s' == (if s.node1.Some? then Emit1(s) else s) {
      PushTally(f, s.out, s.node1.value);
    } else {
      PushTally(f, s.out, s.node2.value);
    }
  }

  /** No iteration loses or duplicates anything. */
  lemma NextTally<K(!new), V(!new)>(cmp: (K, K) -> int, mode: Mode, s: State<K, V>, f: Tree<K, V> -> int)
    requires Additive(f) && !Done(s)
    ensures Tally(f, Next(cmp, mode, s)) == Tally(f, s)
  {
    if s.node1.None? && s.node2.None? {
      PushTally(f, s.out, s.carry.value);
    } else {
      AbsorbTally(cmp, mode, s, f);
      AdvanceTally(cmp, mode, Absorb(cmp, mode, s), f);
    }
  }

  lemma {:induction false} FinalTally<K(!new), V(!new)>(cmp: (K, K) -> int, mode: Mode, s: State<K, V>,
                                                        f: Tree<K, V> -> int)
    requires Additive(f)
    ensures Tally(f, Final(cmp, mode, s)) == Tally(f, s)
    decreases Pending(s)
  {
    if !Done(s) {
      NextSmaller(cmp, mode, s);
      NextTally(cmp, mode, s, f);
      FinalTally(cmp, mode, Next(cmp, mode, s), f);
    }
  }

  /** How often a tree holds an entry. */
  ghost function Times<K, V>(e: (K, V)): (f: Tree<K, V> -> int)
  {
    t => Contents(t)[e]
  }

  lemma TimesAdditive<K(!new), V(!new)>(e: (K, V))
    ensures Additive(Times(e))
  {
    forall a: Tree<K, V>, b: Tree<K, V>
      ensures Times(e)(Link(a, b)) == Times(e)(a) + Times(e)(b)
    {
      LinkContents(a, b);
    }
  }

  lemma {:induction false} SumTimes<K, V>(ts: seq<Tree<K, V>>, e: (K, V))
    ensures Sum(Times(e), ts) == Forest(ts)[e]
  {
    if ts != [] { SumTimes(ts[..|ts| - 1], e); }
  }

  /** The new list holds exactly the entries of both heaps. */
  lemma FinalContents<K(!new), V(!new)>(cmp: (K, K) -> int, mode: Mode, a: seq<Tree<K, V>>, b: seq<Tree<K, V>>)
    ensures Forest(Final(cmp, mode, Start(a, b)).out) == Forest(a) + Forest(b)
  {
    forall e ensures Forest(Final(cmp, mode, Start(a, b)).out)[e] == Forest(a)[e] + Forest(b)[e] {
      FinalTimes(cmp, mode, a, b, e);
    }
  }

  lemma FinalTimes<K(!new), V(!new)>(cmp: (K, K) -> int, mode: Mode, a: seq<Tree<K, V>>, b: seq<Tree<K, V>>, e: (K, V))
    ensures Forest(Final(cmp, mode, Start(a, b)).out)[e] == Forest(a)[e] + Forest(b)[e]
  {
    var s := Start(a, b);
    TimesAdditive(e);
    FinalTally(cmp, mode, s, Times(e));
    FinalDone(cmp, mode, s);
    ShiftTally(Times(e), a);
    ShiftTally(Times(e), b);
    SumTimes(a, e);
    SumTimes(b, e);
    SumTimes(Final(cmp, mode, s).out, e);
  }

  /** A missing tree means that its list has been used up. */
  predicate Shifted<K, V>(s: State<K, V>)
  {
    (s.node1.None? ==> s.list1 == []) && (s.node2.None? ==> s.list2 == [])
  }

  lemma NextShifted<K, V>(cmp: (K, K) -> int, mode: Mode, s: State<K, V>)
    requires Shifted(s) && !Done(s)
    ensures Shifted(Next(cmp, mode, s))
  {
    if s.node1.Some? || s.node2.Some? {
      assert Shifted(Absorb(cmp, mode, s));
    }
  }

  lemma {:induction false} FinalDone<K, V>(cmp: (K, K) -> int, mode: Mode, s: State<K, V>)
    requires Shifted(s)
    ensures var f := Final(cmp, mode, s); Done(f) && f.list1 == [] && f.list2 == []
    decreases Pending(s)
  {
    if !Done(s) {
      NextSmaller(cmp, mode, s);
      NextShifted(cmp, mode, s);
      FinalDone(cmp, mode, Next(cmp, mode, s));
    }
  }

  // ---------- the orders of the merged roots ----------

  /** Root orders never decrease. */
  ghost predicate Rising<K, V>(ts: seq<Tree<K, V>>)
  {
    forall i, j :: 0 <= i < j < |ts| ==> ts[i].Order() <= ts[j].Order()
  }

  /** A tree in hand does not exceed the next one of its list. */
  predicate Behind<K, V>(node: Option<Tree<K, V>>, list: seq<Tree<K, V>>, strictly: bool)
  {
    node.Some? && list != [] ==>
      && node.value.Order() <= list[0].Order()
      && (strictly ==> node.value.Order() < list[0].Order())
  }

  /** What the loop keeps of two lists with increasing orders. A tree in hand can have the order of
      the next one of its list only after it has absorbed the carry. */
  ghost predicate Tidy<K, V>(s: State<K, V>)
  {
    && Shifted(s) && Increasing(s.list1) && Increasing(s.list2)
    && Behind(s.node1, s.list1, s.carry.Some?) && Behind(s.node2, s.list2, s.carry.Some?)
  }

  predicate AtLeast<K, V>(o: Option<Tree<K, V>>, n: nat)
  {
    o.Some? ==> o.value.Order() >= n
  }

  predicate InHandAtLeast<K, V>(s: State<K, V>, n: nat)
  {
    AtLeast(s.node1, n) && AtLeast(s.node2, n) && AtLeast(s.carry, n)
  }

  predicate Below<K, V>(o: Option<Tree<K, V>>, carry: Option<Tree<K, V>>)
  {
    o.Some? && carry.Some? && o.value.Order() < carry.value.Order()
  }

  lemma JoinOrder<K, V>(cmp: (K, K) -> int, mode: Mode, a: Tree<K, V>, b: Tree<K, V>)
    requires a.Order() == b.Order()
    ensures Join(cmp, mode, a, b).Order() == a.Order() + 1
  {
  }

  lemma AbsorbTidy<K, V>(cmp: (K, K) -> int, mode: Mode, s: State<K, V>)
    requires Tidy(s)
    ensures Tidy(Absorb(cmp, mode, s))
  {
    if s.carry.Some? {
      if SameOrder(s.node1, s.carry.value) {
        JoinOrder(cmp, mode, s.node1.value, s.carry.value);
      } else if SameOrder(s.node2, s.carry.value) {
        JoinOrder(cmp, mode, s.node2.value, s.carry.value);
      }
    }
  }

  /** A carry that is still there after the first half of an iteration is above the lower tree. */
  lemma AbsorbHolds<K, V>(cmp: (K, K) -> int, mode: Mode, s: State<K, V>, n: nat)
    requires (s.node1.Some? || s.node2.Some?) && InHandAtLeast(s, n)
    ensures var p := Absorb(cmp, mode, s);
      && (p.node1.Some? || p.node2.Some?) && InHandAtLeast(p, n)
      && (p.carry.Some? ==> Below(p.node1, p.carry) || Below(p.node2, p.carry))
  {
    if s.carry.Some? {
      if SameOrder(s.node1, s.carry.value) {
        JoinOrder(cmp, mode, s.node1.value, s.carry.value);
      } else if SameOrder(s.node2, s.carry.value) {
        JoinOrder(cmp, mode, s.node2.value, s.carry.value);
      }
    }
  }

  lemma ShiftTidy<K, V>(list: seq<Tree<K, V>>)
    requires Increasing(list)
    ensures Increasing(Rest(list)) && Behind(First(list), Rest(list), true)
  {
  }

  lemma CombineAtLeast<K, V>(cmp: (K, K) -> int, mode: Mode, a: Tree<K, V>, b: Tree<K, V>,
                             carry: Option<Tree<K, V>>, n: nat)
    requires a.Order() >= n && b.Order() >= n && AtLeast(carry, n)
    ensures Combine(cmp, mode, a, b, carry).Order() >= n
  {
  }

  lemma AdvanceTidy<K, V>(cmp: (K, K) -> int, mode: Mode, p: State<K, V>)
    requires Tidy(p) && (p.node1.Some? || p.node2.Some?)
    ensures Tidy(Advance(cmp, mode, p))
  {
    var q := Advance(cmp, mode, p);
    if Gives1(p) {
      ShiftTidy(p.list1);
      assert q == Emit1(p);
    } else if Gives2(p) {
      ShiftTidy(p.list2);
      assert q == Emit2(p);
    } else {
      ShiftTidy(p.list1);
      ShiftTidy(p.list2);
    }
    assert Shifted(q);
  }

  /** The tree given out is not above any tree that stays, and strictly below all of them unless the
      next one of its own list has the same order. */
  lemma AdvanceGives<K, V>(cmp: (K, K) -> int, mode: Mode, p: State<K, V>, n: nat)
    requires Tidy(p) && (p.node1.Some? || p.node2.Some?) && InHandAtLeast(p, n)
    requires p.carry.Some? ==> Below(p.node1, p.carry) || Below(p.node2, p.carry)
    ensures var q := Advance(cmp, mode, p);
      if Gives1(p) || Gives2(p) then
        var t := if Gives1(p) then p.node1.value else p.node2.value;
        && q.out == p.out + [t] && t.Order() >= n && InHandAtLeast(q, t.Order())
        && (!Doubled(p) ==> InHandAtLeast(q, t.Order() + 1))
      else q.out == p.out && InHandAtLeast(q, n)
  {
    if !Gives1(p) && !Gives2(p) {
      CombineAtLeast(cmp, mode, p.node1.value, p.node2.value, p.carry, n);
    }
  }

  predicate Gives1<K, V>(p: State<K, V>)
  {
    p.node1.Some? && (p.node2.None? || p.node1.value.Order() < p.node2.value.Order())
  }

  predicate Gives2<K, V>(p: State<K, V>)
  {
    p.node2.Some? && (p.node1.None? || p.node2.value.Order() < p.node1.value.Order())
  }

  predicate SameAsNext<K, V>(node: Option<Tree<K, V>>, list: seq<Tree<K, V>>)
  {
    node.Some? && list != [] && node.value.Order() == list[0].Order()
  }

  /** The tree about to be given out has the order of the next one of its list. */
  predicate Doubled<K, V>(p: State<K, V>)
  {
    (Gives1(p) && SameAsNext(p.node1, p.list1)) || (Gives2(p) && SameAsNext(p.node2, p.list2))
  }

  predicate Doubles<K, V>(cmp: (K, K) -> int, mode: Mode, s: State<K, V>)
  {
    (s.node1.Some? || s.node2.Some?) && Doubled(Absorb(cmp, mode, s))
  }

  predicate EverDoubles<K, V>(cmp: (K, K) -> int, mode: Mode, s: State<K, V>)
    decreases Pending(s)
  {
    if Done(s) then false else
      NextSmaller(cmp, mode, s);
      Doubles(cmp, mode, s) || EverDoubles(cmp, mode, Next(cmp, mode, s))
  }

  /** The least order a tree in hand may have after what has been given out. */
  function Floor<K, V>(out: seq<Tree<K, V>>, strictly: bool): nat
  {
    if out == [] then 0 else out[|out| - 1].Order() + Ones(strictly)
  }

  ghost predicate RisesTo<K, V>(s: State<K, V>, strictly: bool)
  {
    InHandAtLeast(s, Floor(s.out, strictly)) && if strictly then Increasing(s.out) else Rising(s.out)
  }

  lemma RisingSnoc<K, V>(ts: seq<Tree<K, V>>, t: Tree<K, V>, strictly: bool)
    requires if strictly then Increasing(ts) else Rising(ts)
    requires t.Order() >= Floor(ts, strictly)
    ensures if strictly then Increasing(ts + [t]) else Rising(ts + [t])
    ensures Floor(ts + [t], strictly) == t.Order() + Ones(strictly)
  {
    if ts != [] {
      forall i | 0 <= i < |ts| ensures ts[i].Order() <= ts[|ts| - 1].Order() { }
    }
  }

  lemma NextRises<K, V>(cmp: (K, K) -> int, mode: Mode, s: State<K, V>, strictly: bool)
    requires Tidy(s) && !Done(s) && RisesTo(s, strictly) && (strictly ==> !Doubles(cmp, mode, s))
    ensures Tidy(Next(cmp, mode, s)) && RisesTo(Next(cmp, mode, s), strictly)
  {
    var n := Floor(s.out, strictly);
    var t := NextGives(cmp, mode, s, n);
    if t.Some? { RisingSnoc(s.out, t.value, strictly); }
  }

  /** What one iteration gives out, if anything, and what it leaves in hand. */
  lemma NextGives<K, V>(cmp: (K, K) -> int, mode: Mode, s: State<K, V>, n: nat) returns (t: Option<Tree<K, V>>)
    requires Tidy(s) && !Done(s) && InHandAtLeast(s, n)
    ensures var q := Next(cmp, mode, s);
      && Tidy(q)
      && if t.None? then q.out == s.out && InHandAtLeast(q, n)
         else
           && q.out == s.out + [t.value] && t.value.Order() >= n && InHandAtLeast(q, t.value.Order())
           && (!Doubles(cmp, mode, s) ==> InHandAtLeast(q, t.value.Order() + 1))
  {
    if s.node1.None? && s.node2.None? {
      t := s.carry;
    } else {
      var p := Absorb(cmp, mode, s);
      AbsorbTidy(cmp, mode, s);
      AbsorbHolds(cmp, mode, s, n);
      AbsorbOut(cmp, mode, s);
      AdvanceTidy(cmp, mode, p);
      AdvanceGives(cmp, mode, p, n);
      t := if Gives1(p) then p.node1 else if Gives2(p) then p.node2 else None;
    }
  }

  lemma AbsorbOut<K, V>(cmp: (K, K) -> int, mode: Mode, s: State<K, V>)
    ensures Absorb(cmp, mode, s).out == s.out
  {
  }

  lemma NextOut<K, V>(cmp: (K, K) -> int, mode: Mode, s: State<K, V>)
    requires !Done(s)
    ensures s.out <= Next(cmp, mode, s).out
  {
    AbsorbOut(cmp, mode, s);
  }

  lemma FinalNext<K, V>(cmp: (K, K) -> int, mode: Mode, s: State<K, V>)
    requires !Done(s)
    ensures Final(cmp, mode, s) == Final(cmp, mode, Next(cmp, mode, s))
  {
  }

  lemma {:induction false} FinalRises<K, V>(cmp: (K, K) -> int, mode: Mode, s: State<K, V>, strictly: bool)
    requires Tidy(s) && RisesTo(s, strictly) && (strictly ==> !EverDoubles(cmp, mode, s))
    ensures RisesTo(Final(cmp, mode, s), strictly)
    decreases Pending(s)
  {
    if !Done(s) {
      NextSmaller(cmp, mode, s);
      NextRises(cmp, mode, s, strictly);
      FinalRises(cmp, mode, Next(cmp, mode, s), strictly);
    }
  }

  lemma StartTidy<K, V>(a: seq<Tree<K, V>>, b: seq<Tree<K, V>>)
    requires Increasing(a) && Increasing(b)
    ensures Tidy(Start(a, b)) && RisesTo(Start(a, b), false) && RisesTo(Start(a, b), true)
  {
    ShiftTidy(a);
    ShiftTidy(b);
  }

  /** Two lists with increasing root orders merge into one whose root orders never decrease, in
      either mode and whatever the keys. */
  lemma MergedRising<K, V>(cmp: (K, K) -> int, mode: Mode, a: seq<Tree<K, V>>, b: seq<Tree<K, V>>)
    requires Increasing(a) && Increasing(b)
    ensures Rising(Final(cmp, mode, Start(a, b)).out)
  {
    StartTidy(a, b);
    FinalRises(cmp, mode, Start(a, b), false);
  }

  lemma {:induction false} OutGrows<K, V>(cmp: (K, K) -> int, mode: Mode, s: State<K, V>)
    ensures s.out <= Final(cmp, mode, s).out
    decreases Pending(s)
  {
    if !Done(s) {
      NextSmaller(cmp, mode, s);
      FinalNext(cmp, mode, s);
      NextOut(cmp, mode, s);
      OutGrows(cmp, mode, Next(cmp, mode, s));
    }
  }

  /** A doubled order is given out twice in a row. */
  lemma DoubledTwice<K, V>(cmp: (K, K) -> int, mode: Mode, s: State<K, V>)
    requires Tidy(s) && Doubles(cmp, mode, s)
    ensures !Done(Next(cmp, mode, s))
    ensures var out := Next(cmp, mode, Next(cmp, mode, s)).out;
      |out| >= 2 && out[|out| - 2].Order() == out[|out| - 1].Order()
  {
    AbsorbTidy(cmp, mode, s);
    DoubledAdvance(cmp, mode, Absorb(cmp, mode, s));
  }

  lemma DoubledAdvance<K, V>(cmp: (K, K) -> int, mode: Mode, p: State<K, V>)
    requires Tidy(p) && Doubled(p)
    ensures var q := Advance(cmp, mode, p); !Done(q) && q.carry.None? && (q.node1.Some? || q.node2.Some?)
    ensures var out := Next(cmp, mode, Advance(cmp, mode, p)).out;
      |out| >= 2 && out[|out| - 2].Order() == out[|out| - 1].Order()
  {
    assert p.carry.None?;
    if Gives1(p) {
      var q := Emit1(p);
      assert Advance(cmp, mode, p) == q && Absorb(cmp, mode, q) == q && Gives1(q);
      assert Advance(cmp, mode, q).out == p.out + [p.node1.value] + [p.list1[0]];
    } else {
      var q := Emit2(p);
      assert Advance(cmp, mode, p) == q && Absorb(cmp, mode, q) == q && Gives2(q);
      assert Advance(cmp, mode, q).out == p.out + [p.node2.value] + [p.list2[0]];
    }
  }

  lemma DoubledShows<K, V>(cmp: (K, K) -> int, mode: Mode, s: State<K, V>)
    requires Tidy(s) && !Done(s) && Doubles(cmp, mode, s)
    ensures !Increasing(Final(cmp, mode, s).out)
  {
    var s1 := Next(cmp, mode, s);
    DoubledTwice(cmp, mode, s);
    var s2 := Next(cmp, mode, s1);
    FinalNext(cmp, mode, s);
    FinalNext(cmp, mode, s1);
    OutGrows(cmp, mode, s2);
    var out, k := Final(cmp, mode, s).out, |s2.out|;
    assert out[k - 2] == s2.out[k - 2] && out[k - 1] == s2.out[k - 1];
  }

  lemma {:induction false} DoublesShow<K, V>(cmp: (K, K) -> int, mode: Mode, s: State<K, V>)
    requires Tidy(s) && EverDoubles(cmp, mode, s)
    ensures !Increasing(Final(cmp, mode, s).out)
    decreases Pending(s)
  {
    NextSmaller(cmp, mode, s);
    if Doubles(cmp, mode, s) {
      DoubledShows(cmp, mode, s);
    } else {
      var t := NextGives(cmp, mode, s, 0);
      FinalNext(cmp, mode, s);
      DoublesShow(cmp, mode, Next(cmp, mode, s));
    }
  }

  /** They increase strictly, as in a list built by insertion, if and only if no iteration gives out
      a root whose successor in its list has the same order. */
  lemma MergedIncreasing<K, V>(cmp: (K, K) -> int, mode: Mode, a: seq<Tree<K, V>>, b: seq<Tree<K, V>>)
    requires Increasing(a) && Increasing(b)
    ensures Increasing(Final(cmp, mode, Start(a, b)).out) <==> !EverDoubles(cmp, mode, Start(a, b))
  {
    StartTidy(a, b);
    if EverDoubles(cmp, mode, Start(a, b)) {
      DoublesShow(cmp, mode, Start(a, b));
    } else {
      FinalRises(cmp, mode, Start(a, b), true);
    }
  }

  // ---------- heap order ----------

  ghost predicate Fine<K, V>(cmp: (K, K) -> int, mode: Mode, o: Option<Tree<K, V>>)
  {
    o.Some? ==> Ordered(cmp, mode, o.value)
  }

  ghost predicate Sound<K, V>(cmp: (K, K) -> int, mode: Mode, s: State<K, V>)
  {
    && AllOrdered(cmp, mode, s.list1) && AllOrdered(cmp, mode, s.list2)
    && Fine(cmp, mode, s.node1) && Fine(cmp, mode, s.node2) && Fine(cmp, mode, s.carry)
    && AllOrdered(cmp, mode, s.out)
  }

  /** The guard under which heap order breaks: a MIN heap, two trees of one order the first of
      which has precedence, and a carry whose key compares different from it. */
  predicate Breaks<K, V>(cmp: (K, K) -> int, mode: Mode, s: State<K, V>)
  {
    && mode.Min? && s.node1.Some? && s.node2.Some? && s.carry.Some?
    && s.node1.value.Order() == s.node2.value.Order()
    && cmp(s.node1.value.key, s.node2.value.key) <= 0
    && cmp(s.node1.value.key, s.carry.value.key) != 0
  }

  predicate Slips<K, V>(cmp: (K, K) -> int, mode: Mode, s: State<K, V>)
  {
    Breaks(cmp, mode, Absorb(cmp, mode, s))
  }

  /** Some iteration of the whole loop does. */
  predicate EverSlips<K, V>(cmp: (K, K) -> int, mode: Mode, s: State<K, V>)
    decreases Pending(s)
  {
    if Done(s) then false else
      NextSmaller(cmp, mode, s);
      Slips(cmp, mode, s) || EverSlips(cmp, mode, Next(cmp, mode, s))
  }

  lemma CombineOrdered<K(!new), V>(cmp: (K, K) -> int, mode: Mode, a: Tree<K, V>, b: Tree<K, V>,
                                   carry: Option<Tree<K, V>>)
    requires Preorder(cmp)
    ensures Ordered(cmp, mode, Combine(cmp, mode, a, b, carry))
       <==> && Ordered(cmp, mode, a) && Ordered(cmp, mode, b) && Fine(cmp, mode, carry)
            && !(mode.Min? && carry.Some? && cmp(a.key, b.key) <= 0 && cmp(a.key, carry.value.key) != 0)
  {
    LinkOrdered(cmp, mode, a, b);
    LinkOrdered(cmp, mode, b, a);
    PrecTotal(cmp, mode, a.key, b.key);
    if carry.Some? {
      LinkOrdered(cmp, mode, Link(a, b), carry.value);
      LinkOrdered(cmp, mode, carry.value, Link(a, b));
      JoinFacts(cmp, mode, Link(b, a), carry.value);
      assert PreorderAt(cmp, a.key, carry.value.key, a.key) && PreorderAt(cmp, carry.value.key, a.key, a.key);
    }
  }

  lemma JoinSound<K(!new), V>(cmp: (K, K) -> int, mode: Mode, o: Option<Tree<K, V>>, c: Tree<K, V>)
    requires Preorder(cmp) && o.Some?
    ensures Fine(cmp, mode, Some(Join(cmp, mode, o.value, c))) <==> Fine(cmp, mode, o) && Fine(cmp, mode, Some(c))
  {
    JoinFacts(cmp, mode, o.value, c);
  }

  lemma AbsorbSound<K(!new), V>(cmp: (K, K) -> int, mode: Mode, s: State<K, V>)
    requires Preorder(cmp)
    ensures Sound(cmp, mode, Absorb(cmp, mode, s)) <==> Sound(cmp, mode, s)
  {
    if s.carry.Some? {
      assert Some(s.carry.value) == s.carry;
      if SameOrder(s.node1, s.carry.value) {
        JoinSound(cmp, mode, s.node1, s.carry.value);
      } else if SameOrder(s.node2, s.carry.value) {
        JoinSound(cmp, mode, s.node2, s.carry.value);
      }
    }
  }

  lemma ShiftOrdered<K, V>(cmp: (K, K) -> int, mode: Mode, ts: seq<Tree<K, V>>, t: Tree<K, V>)
    ensures AllOrdered(cmp, mode, ts) <==> Fine(cmp, mode, First(ts)) && AllOrdered(cmp, mode, Rest(ts))
    ensures AllOrdered(cmp, mode, ts + [t]) <==> AllOrdered(cmp, mode, ts) && Ordered(cmp, mode, t)
  {
    assert t in ts + [t] && forall x :: x in ts ==> x in ts + [t];
    if ts != [] {
      assert ts == [ts[0]] + ts[1..];
      assert ts[0] in ts && forall x :: x in ts[1..] ==> x in ts;
    }
  }

  lemma AdvanceSound<K(!new), V>(cmp: (K, K) -> int, mode: Mode, s: State<K, V>)
    requires Preorder(cmp) && (s.node1.Some? || s.node2.Some?)
    ensures Sound(cmp, mode, Advance(cmp, mode, s)) <==> Sound(cmp, mode, s) && !Breaks(cmp, mode, s)
  {
    var t := if s.node1.Some? then s.node1.value else s.node2.value;
    ShiftOrdered(cmp, mode, s.list1, t);
    ShiftOrdered(cmp, mode, s.list2, t);
    if s.node1.Some? { ShiftOrdered(cmp, mode, s.out, s.node1.value); }
    if s.node2.Some? { ShiftOrdered(cmp, mode, s.out, s.node2.value); }
    if s.node1.Some? && s.node2.Some? { CombineOrdered(cmp, mode, s.node1.value, s.node2.value, s.carry); }
  }

  /** One iteration keeps heap order exactly if it does not slip; a broken tree stays broken. */
  lemma NextSound<K(!new), V>(cmp: (K, K) -> int, mode: Mode, s: State<K, V>)
    requires Preorder(cmp) && !Done(s)
    ensures Sound(cmp, mode, Next(cmp, mode, s)) <==> Sound(cmp, mode, s) && !Slips(cmp, mode, s)
  {
    AbsorbSound(cmp, mode, s);
    if s.node1.None? && s.node2.None? {
      ShiftOrdered(cmp, mode, s.out, s.carry.value);
    } else {
      AdvanceSound(cmp, mode, Absorb(cmp, mode, s));
    }
  }

  lemma {:induction false} FinalSound<K(!new), V>(cmp: (K, K) -> int, mode: Mode, s: State<K, V>)
    requires Preorder(cmp)
    ensures Sound(cmp, mode, Final(cmp, mode, s)) <==> Sound(cmp, mode, s) && !EverSlips(cmp, mode, s)
    ensures mode.Max? ==> !EverSlips(cmp, mode, s)
    decreases Pending(s)
  {
    if !Done(s) {
      NextSmaller(cmp, mode, s);
      NextSound(cmp, mode, s);
      FinalSound(cmp, mode, Next(cmp, mode, s));
    }
  }

  /** The exact outcome: the merged list is heap-ordered if and only if both lists are and no
      iteration slips, and in MAX mode none does. */
  lemma MergeExact<K(!new), V>(cmp: (K, K) -> int, mode: Mode, a: seq<Tree<K, V>>, b: seq<Tree<K, V>>)
    requires Preorder(cmp)
    ensures AllOrdered(cmp, mode, Final(cmp, mode, Start(a, b)).out)
       <==> AllOrdered(cmp, mode, a) && AllOrdered(cmp, mode, b) && !EverSlips(cmp, mode, Start(a, b))
    ensures mode.Max? ==> !EverSlips(cmp, mode, Start(a, b))
  {
    var s := Start(a, b);
    FinalSound(cmp, mode, s);
    FinalDone(cmp, mode, s);
    if a != [] { ShiftOrdered(cmp, mode, a, a[0]); }
    if b != [] { ShiftOrdered(cmp, mode, b, b[0]); }
  }

  /** One side is down to a single tree, which is given up as soon as there is a carry. */
  predicate OneSided<K, V>(s: State<K, V>)
  {
    || (s.list1 == [] && (s.carry.Some? ==> s.node1.None?))
    || (s.list2 == [] && (s.carry.Some? ==> s.node2.None?))
  }

  lemma {:induction false} OneSidedNeverSlips<K, V>(cmp: (K, K) -> int, mode: Mode, s: State<K, V>)
    requires OneSided(s)
    ensures !EverSlips(cmp, mode, s)
    decreases Pending(s)
  {
    if !Done(s) {
      NextSmaller(cmp, mode, s);
      OneSidedNeverSlips(cmp, mode, Next(cmp, mode, s));
    }
  }

  /** In either mode a heap with at most one tree merges correctly with any other. */
  lemma SingleTreeMerges<K(!new), V>(cmp: (K, K) -> int, mode: Mode, a: seq<Tree<K, V>>, b: seq<Tree<K, V>>)
    requires Preorder(cmp) && AllOrdered(cmp, mode, a) && AllOrdered(cmp, mode, b) && (|a| <= 1 || |b| <= 1)
    ensures AllOrdered(cmp, mode, Final(cmp, mode, Start(a, b)).out)
  {
    OneSidedNeverSlips(cmp, mode, Start(a, b));
    MergeExact(cmp, mode, a, b);
  }

  // ---------- the loop ----------

  /** `list_shift_value` on the list of roots. */
  method Shift<K(!new), V(!new)>(bh: Heap<K, V>) returns (t: Option<Tree<K, V>>)
    modifies bh`trees
    ensures t == First(old(bh.trees)) && bh.trees == Rest(old(bh.trees))
  {
    t := First(bh.trees);
    bh.trees := Rest(bh.trees);
  }

  /** The first half of an iteration. */
  method MeetCarry<K, V>(cmp: (K, K) -> int, mode: Mode, n1: Option<Tree<K, V>>, n2: Option<Tree<K, V>>,
                         c: Tree<K, V>, ghost s: State<K, V>)
    returns (node1: Option<Tree<K, V>>, node2: Option<Tree<K, V>>, carry: Option<Tree<K, V>>)
    requires s.node1 == n1 && s.node2 == n2 && s.carry == Some(c)
    ensures State(s.list1, s.list2, node1, node2, carry, s.out) == Absorb(cmp, mode, s)
  {
    node1, node2, carry := n1, n2, Some(c);
    if n1.Some? && n1.value.Order() == c.Order() {
      node1 := Some(if Prec(cmp, mode, n1.value.key, c.key) then Link(n1.value, c) else Link(c, n1.value));
      carry := None;
    } else if n2.Some? && n2.value.Order() == c.Order() {
      node2 := Some(if Prec(cmp, mode, n2.value.key, c.key) then Link(n2.value, c) else Link(c, n2.value));
      carry := None;
    } else if n1.Some? && n1.value.Order() > c.Order() {
      node1, carry := Some(c), n1;
    } else if n2.Some? && n2.value.Order() > c.Order() {
      node2, carry := Some(c), n2;
    }
  }

  /** `binheap_merge`, for two different heaps. Both are left without trees. Keys are compared by
      the callback of the first heap. */
  method Merge<K(!new), V(!new)>(bh1: Heap<K, V>, bh2: Heap<K, V>) returns (merged: Heap?<K, V>)
    requires bh1 != bh2 && bh1.Sound() && bh2.Sound()
    modifies bh1`trees, bh2`trees
    ensures bh1.mode != bh2.mode ==> merged == null && bh1.trees == old(bh1.trees) && bh2.trees == old(bh2.trees)
    ensures bh1.mode == bh2.mode ==>
      && merged != null && merged.mode == bh1.mode && merged.cmp == bh1.cmp && merged.head.None?
      && merged.count == bh1.count + bh2.count == |Forest(merged.trees)|
      && Forest(merged.trees) == old(Forest(bh1.trees)) + old(Forest(bh2.trees))
      && (AllOrdered(bh1.cmp, bh1.mode, merged.trees) <==>
           && old(AllOrdered(bh1.cmp, bh1.mode, bh2.trees))
           && !EverSlips(bh1.cmp, bh1.mode, Start(old(bh1.trees), old(bh2.trees))))
      && (bh1.mode.Max? && bh1.cmp == bh2.cmp ==> merged.Sound())
      && (old(Increasing(bh1.trees)) && old(Increasing(bh2.trees)) ==> Rising(merged.trees))
      && bh1.trees == [] && bh2.trees == []
  {
    if bh1.mode != bh2.mode {
      return null;
    }
    FinalContents(bh1.cmp, bh1.mode, bh1.trees, bh2.trees);
    MergeExact(bh1.cmp, bh1.mode, bh1.trees, bh2.trees);
    if Increasing(bh1.trees) && Increasing(bh2.trees) {
      MergedRising(bh1.cmp, bh1.mode, bh1.trees, bh2.trees);
    }
    FinalDone(bh1.cmp, bh1.mode, Start(bh1.trees, bh2.trees));
    var out := MergeTrees(bh1, bh2);
    merged := new Heap.Merged(bh1.cmp, bh1.mode, out, bh1.count + bh2.count);
  }

  /** The loop itself. */
  method MergeTrees<K(!new), V(!new)>(bh1: Heap<K, V>, bh2: Heap<K, V>) returns (out: seq<Tree<K, V>>)
    requires bh1 != bh2
    modifies bh1`trees, bh2`trees
    ensures var f := Final(bh1.cmp, bh1.mode, Start(old(bh1.trees), old(bh2.trees)));
      out == f.out && bh1.trees == f.list1 && bh2.trees == f.list2
  {
    var cmp, mode := bh1.cmp, bh1.mode;
    ghost var start := Start(bh1.trees, bh2.trees);
    var node1 := Shift(bh1);
    var node2 := Shift(bh2);
    var carry: Option<Tree<K, V>> := None;
    out := [];
    while node1.Some? || node2.Some? || carry.Some?
      invariant Final(cmp, mode, State(bh1.trees, bh2.trees, node1, node2, carry, out)) == Final(cmp, mode, start)
      decreases Pending(State(bh1.trees, bh2.trees, node1, node2, carry, out))
    {
      ghost var s := State(bh1.trees, bh2.trees, node1, node2, carry, out);
      NextSmaller(cmp, mode, s);
      if carry.Some? && node1.None? && node2.None? {
        out := out + [carry.value];
        carry := None;
        continue;
      }
      if carry.Some? {
        node1, node2, carry := MeetCarry(cmp, mode, node1, node2, carry.value, s);
      }
      if node2.None? || (node1.Some? && node1.value.Order() < node2.value.Order()) {
        out := out + [node1.value];
        node1 := Shift(bh1);
      } else if node1.None? || node1.value.Order() > node2.value.Order() {
        out := out + [node2.value];
        node2 := Shift(bh2);
      } else {
        carry := Some(Combine(cmp, mode, node1.value, node2.value, carry));
        node1 := Shift(bh1);
        node2 := Shift(bh2);
      }
    }
  }
}
