/**
 `list_sort`: the in-place quicksort of `linklist.c`, which swaps values between entries and,
 when one side of the pivot is exhausted, relinks whole entries to the other side of it.
 */
module ListSort {
  import opened LinkedList
  import opened Order
  import opened Sequences

  // ---------- comparator and permutations ----------

  /** Every earlier/later pair in `v[lo..hi]` compares >= 0. */
  ghost predicate Ordered<V(!new)>(cmp: (V, V) -> int, v: seq<V>, lo: nat, hi: nat)
    requires hi <= |v|
  {
    forall i, j :: lo <= i < j < hi ==> cmp(v[i], v[j]) >= 0
  }

  /** `v` is `u` with the values in `lo..hi` permuted. */
  ghost predicate Rearranged<V>(u: seq<V>, v: seq<V>, lo: nat, hi: nat)
  {
    && |v| == |u| && lo <= hi <= |u|
    && v[..lo] == u[..lo] && v[hi..] == u[hi..]
    && multiset(v[lo..hi]) == multiset(u[lo..hi])
  }

  lemma Split3<V>(v: seq<V>, lo: nat, a: nat, b: nat, hi: nat)
    requires lo <= a <= b <= hi <= |v|
    ensures v[lo..hi] == v[lo..a] + v[a..b] + v[b..hi]
  {
  }

  /** Permuting a part permutes the whole. */
  lemma RearrangedWider<V>(u: seq<V>, v: seq<V>, a: nat, b: nat, lo: nat, hi: nat)
    requires Rearranged(u, v, a, b) && lo <= a && b <= hi <= |u|
    ensures Rearranged(u, v, lo, hi)
  {
    Split3(u, lo, a, b, hi);
    Split3(v, lo, a, b, hi);
    assert v[lo..a] == v[..a][lo..] == u[..a][lo..] == u[lo..a];
    assert v[b..hi] == v[b..][..hi - b] == u[b..][..hi - b] == u[b..hi];
    assert v[..lo] == v[..a][..lo] == u[..a][..lo] == u[..lo];
    assert v[hi..] == v[b..][hi - b..] == u[b..][hi - b..] == u[hi..];
  }

  lemma RearrangedTrans<V>(u: seq<V>, v: seq<V>, w: seq<V>, lo: nat, hi: nat)
    requires Rearranged(u, v, lo, hi) && Rearranged(v, w, lo, hi)
    ensures Rearranged(u, w, lo, hi)
  {
  }

  lemma RearrangedOutside<V>(u: seq<V>, v: seq<V>, lo: nat, hi: nat)
    requires Rearranged(u, v, lo, hi)
    ensures forall k :: (0 <= k < lo || hi <= k < |u|) ==> v[k] == u[k]
  {
    forall k | 0 <= k < lo || hi <= k < |u| ensures v[k] == u[k] {
      if k < lo { assert v[..lo][k] == u[..lo][k]; } else { assert v[hi..][k - hi] == u[hi..][k - hi]; }
    }
  }

  /** Two rearrangements of disjoint segments, with one position kept between them. */
  lemma RearrangedBoth<V>(u: seq<V>, v: seq<V>, w: seq<V>, lo: nat, ip: nat, hi: nat)
    requires Rearranged(u, v, lo, ip) && Rearranged(v, w, ip + 1, hi)
    ensures Rearranged(u, w, lo, hi)
  {
    RearrangedWider(u, v, lo, ip, lo, hi);
    RearrangedWider(v, w, ip + 1, hi, lo, hi);
    RearrangedTrans(u, v, w, lo, hi);
  }

  /** What holds of every value of a segment still does after permuting it. */
  lemma RearrangedAt<V>(u: seq<V>, v: seq<V>, lo: nat, hi: nat, k: nat) returns (j: nat)
    requires Rearranged(u, v, lo, hi) && lo <= k < hi
    ensures lo <= j < hi && u[j] == v[k]
  {
    assert v[lo..hi][k - lo] == v[k];
    assert v[k] in multiset(v[lo..hi]);
    assert v[k] in u[lo..hi];
    var i :| 0 <= i < hi - lo && u[lo..hi][i] == v[k];
    j := lo + i;
  }

  lemma SwapRearranged<V>(v: seq<V>, i: nat, j: nat)
    requires i < j < |v|
    ensures Rearranged(v, v[i := v[j]][j := v[i]], i, j + 1)
  {
    var w := v[i := v[j]][j := v[i]];
    assert v[i..j + 1] == [v[i]] + v[i + 1..j] + [v[j]];
    assert w[i..j + 1] == [v[j]] + v[i + 1..j] + [v[i]];
  }

  lemma MoveDownRearranged<V>(v: seq<V>, i: nat, j: nat)
    requires i < j < |v|
    ensures Rearranged(v, With(Without(v, j), i, v[j]), i, j + 1)
  {
    var w := With(Without(v, j), i, v[j]);
    assert v[i..j + 1] == v[i..j] + [v[j]];
    assert w[i..j + 1] == [v[j]] + v[i..j];
  }

  lemma MoveUpRearranged<V>(v: seq<V>, i: nat, j: nat)
    requires i < j < |v|
    ensures Rearranged(v, With(Without(v, i), j, v[i]), i, j + 1)
  {
    var w := With(Without(v, i), j, v[i]);
    assert v[i..j + 1] == [v[i]] + v[i + 1..j + 1];
    assert w[i..j + 1] == v[i + 1..j + 1] + [v[i]];
  }

  // ---------- the partition, on values ----------

  ghost predicate NotRight<V(!new)>(cmp: (V, V) -> int, v: seq<V>, pv: V, k: int)
  {
    0 <= k < |v| ==> cmp(v[k], pv) >= 0
  }

  ghost predicate NotLeft<V(!new)>(cmp: (V, V) -> int, v: seq<V>, pv: V, k: int)
  {
    0 <= k < |v| ==> cmp(v[k], pv) <= 0
  }

  /** Left of `i1` nothing belongs right of the pivot, right of `i2` nothing belongs left. */
  ghost predicate Parted<V(!new)>(cmp: (V, V) -> int, v: seq<V>, pv: V, lo: nat, i1: nat, ip: nat, i2: nat, hi: nat)
  {
    && lo <= i1 <= ip <= i2 < hi <= |v| && v[ip] == pv
    && (forall k :: lo <= k < i1 ==> NotRight(cmp, v, pv, k))
    && (forall k :: i2 < k < hi ==> NotLeft(cmp, v, pv, k))
  }

  lemma PartedMoveDown<V(!new)>(cmp: (V, V) -> int, v: seq<V>, pv: V, lo: nat, ip: nat, i2: nat, hi: nat)
    requires Parted(cmp, v, pv, lo, ip, ip, i2, hi) && ip < i2 && cmp(v[i2], pv) >= 0
    ensures Parted(cmp, With(Without(v, i2), ip, v[i2]), pv, lo, ip + 1, ip + 1, i2, hi)
    ensures Rearranged(v, With(Without(v, i2), ip, v[i2]), lo, hi)
  {
    var w := With(Without(v, i2), ip, v[i2]);
    MoveDownRearranged(v, ip, i2);
    RearrangedWider(v, w, ip, i2 + 1, lo, hi);
    forall k | lo <= k < ip + 1 ensures NotRight(cmp, w, pv, k) { assert k < ip ==> NotRight(cmp, v, pv, k); }
    forall k | i2 < k < hi ensures NotLeft(cmp, w, pv, k) { assert NotLeft(cmp, v, pv, k); }
  }

  lemma PartedMoveUp<V(!new)>(cmp: (V, V) -> int, v: seq<V>, pv: V, lo: nat, i1: nat, ip: nat, hi: nat)
    requires Parted(cmp, v, pv, lo, i1, ip, ip, hi) && i1 < ip && cmp(v[i1], pv) <= 0
    ensures Parted(cmp, With(Without(v, i1), ip, v[i1]), pv, lo, i1, ip - 1, ip - 1, hi)
    ensures Rearranged(v, With(Without(v, i1), ip, v[i1]), lo, hi)
  {
    var w := With(Without(v, i1), ip, v[i1]);
    MoveUpRearranged(v, i1, ip);
    RearrangedWider(v, w, i1, ip + 1, lo, hi);
    forall k | lo <= k < i1 ensures NotRight(cmp, w, pv, k) { assert NotRight(cmp, v, pv, k); }
    forall k | ip - 1 < k < hi ensures NotLeft(cmp, w, pv, k) { assert k > ip ==> NotLeft(cmp, v, pv, k); }
  }

  lemma PartedSwap<V(!new)>(cmp: (V, V) -> int, v: seq<V>, pv: V, lo: nat, i1: nat, ip: nat, i2: nat, hi: nat)
    requires Parted(cmp, v, pv, lo, i1, ip, i2, hi) && i1 < ip < i2
    requires cmp(v[i1], pv) <= 0 && cmp(v[i2], pv) >= 0
    ensures Parted(cmp, v[i1 := v[i2]][i2 := v[i1]], pv, lo, i1 + 1, ip, i2 - 1, hi)
    ensures Rearranged(v, v[i1 := v[i2]][i2 := v[i1]], lo, hi)
  {
    var w := v[i1 := v[i2]][i2 := v[i1]];
    SwapRearranged(v, i1, i2);
    RearrangedWider(v, w, i1, i2 + 1, lo, hi);
    forall k | lo <= k < i1 + 1 ensures NotRight(cmp, w, pv, k) { assert k < i1 ==> NotRight(cmp, v, pv, k); }
    forall k | i2 - 1 < k < hi ensures NotLeft(cmp, w, pv, k) { assert k > i2 ==> NotLeft(cmp, v, pv, k); }
  }

  /** Scanning inwards keeps the two outer parts. */
  lemma PartedScan<V(!new)>(cmp: (V, V) -> int, v: seq<V>, pv: V,
                            lo: nat, i1: nat, j1: nat, ip: nat, j2: nat, i2: nat, hi: nat)
    requires Parted(cmp, v, pv, lo, i1, ip, i2, hi) && i1 <= j1 <= ip <= j2 <= i2
    requires forall k :: i1 <= k < j1 ==> cmp(v[k], pv) > 0
    requires forall k :: j2 < k <= i2 ==> cmp(v[k], pv) < 0
    ensures Parted(cmp, v, pv, lo, j1, ip, j2, hi)
  {
    forall k | lo <= k < j1 ensures NotRight(cmp, v, pv, k) { assert k < i1 ==> NotRight(cmp, v, pv, k); }
    forall k | j2 < k < hi ensures NotLeft(cmp, v, pv, k) { assert k > i2 ==> NotLeft(cmp, v, pv, k); }
  }

  /** Two sorted halves around the pivot make a sorted whole. */
  lemma Assemble<V(!new)>(cmp: (V, V) -> int, u: seq<V>, v: seq<V>, w: seq<V>, pv: V, lo: nat, ip: nat, hi: nat)
    requires Preorder(cmp) && Parted(cmp, u, pv, lo, ip, ip, ip, hi)
    requires Rearranged(u, v, lo, ip) && Ordered(cmp, v, lo, ip)
    requires Rearranged(v, w, ip + 1, hi) && Ordered(cmp, w, ip + 1, hi)
    ensures Ordered(cmp, w, lo, hi) && Rearranged(u, w, lo, hi)
  {
    RearrangedBoth(u, v, w, lo, ip, hi);
    RearrangedOutside(u, v, lo, ip);
    RearrangedOutside(v, w, ip + 1, hi);
    forall k | lo <= k < ip ensures cmp(w[k], pv) >= 0 {
      var j := RearrangedAt(u, v, lo, ip, k);
      assert NotRight(cmp, u, pv, j);
    }
    forall k | ip < k < hi ensures cmp(pv, w[k]) >= 0 {
      var j := RearrangedAt(v, w, ip + 1, hi, k);
      assert NotLeft(cmp, u, pv, j);
      assert PreorderAt(cmp, pv, w[k], pv);
    }
    forall i, j | lo <= i < j < hi ensures cmp(w[i], w[j]) >= 0 {
      assert PreorderAt(cmp, w[i], pv, w[j]);
    }
  }

  // ---------- the partition, on entries ----------

  lemma OwnedRearranged<V>(list: List<V>, s: seq<Entry<V>>, t: seq<Entry<V>>, lo: nat, hi: nat)
    requires Owned(list, s) && Rearranged(s, t, lo, hi)
    ensures Owned(list, t)
  {
    SameMembers(s, t, lo, hi);
    forall i ensures OwnedAt(list, t, i) {
      if 0 <= i < |t| {
        assert t[i] in s;
        var k :| 0 <= k < |s| && s[k] == t[i];
        assert OwnedAt(list, s, k);
      }
    }
  }

  lemma SameMembers<V>(s: seq<Entry<V>>, t: seq<Entry<V>>, lo: nat, hi: nat)
    requires Rearranged(s, t, lo, hi)
    ensures forall e :: e in t <==> e in s
  {
    assert s == s[..lo] + s[lo..hi] + s[hi..];
    assert t == t[..lo] + t[lo..hi] + t[hi..];
    assert multiset(s) == multiset(t);
    assert forall e :: e in s <==> e in multiset(s);
    assert forall e :: e in t <==> e in multiset(t);
  }

  method SwapValues<V>(p1: Entry<V>, p2: Entry<V>, list: List<V>, ghost i1: nat, ghost i2: nat)
    requires list.Linked() && Owned(list, list.nodes)
    requires i1 < i2 < |list.nodes| && p1 == list.nodes[i1] && p2 == list.nodes[i2]
    modifies p1`value, p2`value, list`contents
    ensures list.Linked() && Owned(list, list.nodes)
    ensures list.contents == old(list.contents[i1 := list.contents[i2]][i2 := list.contents[i1]])
  {
    ghost var s, v := list.nodes, list.contents;
    OnlyAt(s, i1);
    OnlyAt(s, i2);
    assert ValueAt(s, v, i1) && ValueAt(s, v, i2);
    var tmp := p1.value;
    p1.value := p2.value;
    p2.value := tmp;
    list.contents := v[i1 := v[i2]][i2 := v[i1]];
    forall k ensures LinkAt(s, k) {
      assert old(LinkAt(s, k));
    }
    forall k ensures ValueAt(s, list.contents, k) {
      assert old(ValueAt(s, v, k));
    }
    forall k ensures OwnedAt(list, s, k) {
      assert old(OwnedAt(list, s, k));
    }
  }

  /** Unlink an entry and link it again elsewhere in the same chain. `before` says whether it
      comes in front of the pivot or behind it. */
  method Relink<V>(p: Entry<V>, pivot: Entry<V>, before: bool,
                   ghost s: seq<Entry<V>>, ghost v: seq<V>, ghost i: nat, ghost j: nat)
    requires Chain(s) && Values(s, v) && i < |s| && p == s[i] && j < |s|
    requires before ==> j < i && pivot == s[j]
    requires !before ==> i < j && pivot == s[j]
    modifies s`prev, s`next
    ensures Chain(With(Without(s, i), j, p)) && Values(With(Without(s, i), j, p), With(Without(v, i), j, v[i]))
  {
    ghost var s1, v1 := Without(s, i), Without(v, i);
    UniqueWithout(s, i);
    assert forall k :: 0 <= k < |s1| ==> s1[k] in s;
    Unhook(p, s, v, i);
    if before {
      assert LinkAt(s1, j);
      Hook(p, pivot.prev, pivot, s1, v1, j);
    } else {
      assert LinkAt(s1, j - 1);
      Hook(p, pivot, pivot.next, s1, v1, j);
    }
  }

  lemma MovedEnds<V>(s: seq<Entry<V>>, i: nat, j: nat)
    requires i < |s| && j < |s| && i != j
    ensures var t := With(Without(s, i), j, s[i]);
      && |t| == |s|
      && t[0] == (if j == 0 then s[i] else if i == 0 then s[1] else s[0])
      && t[|s| - 1] == (if j == |s| - 1 then s[i] else if i == |s| - 1 then s[|s| - 2] else s[|s| - 1])
  {
  }

  /** The entries are linked in the order `s`: record it. */
  ghost method Rename<V>(list: List<V>, s: seq<Entry<V>>, v: seq<V>)
    requires Chain(s) && Values(s, v) && list.length == |s|
    requires list.head == At(s, 0) && list.tail == At(s, |s| - 1)
    modifies list`nodes, list`contents
    ensures list.Linked() && list.nodes == s && list.contents == v
  {
    list.nodes, list.contents := s, v;
  }

  method EndsBefore<V>(p2: Entry<V>, pivot: Entry<V>, list: List<V>)
    requires pivot.list == list
    modifies list`head, list`tail
    ensures list.head == if pivot.prev == null && pivot == old(list.head) then p2 else old(list.head)
    ensures list.tail == if p2 == old(list.tail) then p2.prev else old(list.tail)
  {
    if pivot.prev == null && pivot == pivot.list.head {
      pivot.list.head := p2;
    }
    if p2 == pivot.list.tail {
      pivot.list.tail := p2.prev;
    }
  }

  /** The branch `p1 == pivot`: entry `p2` is relinked in front of the pivot. */
  method RelinkBefore<V>(p2: Entry<V>, pivot: Entry<V>, list: List<V>, ghost ip: nat, ghost i2: nat)
    requires list.Linked() && ip < i2 < |list.nodes| && pivot == list.nodes[ip] && p2 == list.nodes[i2]
    requires pivot.list == list
    modifies list`head, list`tail, list`nodes, list`contents, list.nodes`prev, list.nodes`next
    ensures list.Linked()
    ensures list.nodes == With(Without(old(list.nodes), i2), ip, p2)
    ensures list.contents == With(Without(old(list.contents), i2), ip, old(list.contents[i2]))
  {
    ghost var s, v := list.nodes, list.contents;
    assert LinkAt(s, i2) && LinkAt(s, ip);
    OnlyAt(s, ip);
    OnlyAt(s, i2);
    MovedEnds(s, i2, ip);
    EndsBefore(p2, pivot, list);
    Relink(p2, pivot, true, s, v, i2, ip);
    Rename(list, With(Without(s, i2), ip, p2), With(Without(v, i2), ip, v[i2]));
  }

  lemma MoveDownOwned<V>(list: List<V>, s: seq<Entry<V>>, ip: nat, i2: nat)
    requires ip < i2 < |s| && Owned(list, s)
    ensures Owned(list, With(Without(s, i2), ip, s[i2]))
  {
    MoveDownRearranged(s, ip, i2);
    OwnedRearranged(list, s, With(Without(s, i2), ip, s[i2]), ip, i2 + 1);
  }

  method MoveBefore<V>(p2: Entry<V>, pivot: Entry<V>, list: List<V>, ghost ip: nat, ghost i2: nat)
    requires list.Linked() && ip < i2 < |list.nodes| && pivot == list.nodes[ip] && p2 == list.nodes[i2]
    requires Owned(list, list.nodes)
    modifies list`head, list`tail, list`nodes, list`contents, list.nodes`prev, list.nodes`next
    ensures list.Linked() && Owned(list, list.nodes)
    ensures list.nodes == With(Without(old(list.nodes), i2), ip, p2)
    ensures list.contents == With(Without(old(list.contents), i2), ip, old(list.contents[i2]))
  {
    ghost var s := list.nodes;
    assert OwnedAt(list, s, ip);
    RelinkBefore(p2, pivot, list, ip, i2);
    forall k ensures OwnedAt(list, s, k) { assert old(OwnedAt(list, s, k)); }
    MoveDownOwned(list, s, ip, i2);
  }

  method EndsAfter<V>(p1: Entry<V>, pivot: Entry<V>, list: List<V>)
    requires pivot.list == list
    modifies list`head, list`tail
    ensures list.tail == if pivot.next == null && pivot == old(list.tail) then p1 else old(list.tail)
    ensures list.head == if p1 == old(list.head) then p1.next else old(list.head)
  {
    if pivot.next == null && pivot == pivot.list.tail {
      pivot.list.tail := p1;
    }
    if p1 == pivot.list.head {
      pivot.list.head := p1.next;
    }
  }

  /** The branch `p2 == pivot`: entry `p1` is relinked behind the pivot. */
  method RelinkAfter<V>(p1: Entry<V>, pivot: Entry<V>, list: List<V>, ghost i1: nat, ghost ip: nat)
    requires list.Linked() && i1 < ip < |list.nodes| && pivot == list.nodes[ip] && p1 == list.nodes[i1]
    requires pivot.list == list
    modifies list`head, list`tail, list`nodes, list`contents, list.nodes`prev, list.nodes`next
    ensures list.Linked()
    ensures list.nodes == With(Without(old(list.nodes), i1), ip, p1)
    ensures list.contents == With(Without(old(list.contents), i1), ip, old(list.contents[i1]))
  {
    ghost var s, v := list.nodes, list.contents;
    assert LinkAt(s, i1) && LinkAt(s, ip);
    OnlyAt(s, ip);
    OnlyAt(s, i1);
    MovedEnds(s, i1, ip);
    EndsAfter(p1, pivot, list);
    Relink(p1, pivot, false, s, v, i1, ip);
    Rename(list, With(Without(s, i1), ip, p1), With(Without(v, i1), ip, v[i1]));
  }

  lemma MoveUpOwned<V>(list: List<V>, s: seq<Entry<V>>, i1: nat, ip: nat)
    requires i1 < ip < |s| && Owned(list, s)
    ensures Owned(list, With(Without(s, i1), ip, s[i1]))
  {
    MoveUpRearranged(s, i1, ip);
    OwnedRearranged(list, s, With(Without(s, i1), ip, s[i1]), i1, ip + 1);
  }

  method MoveAfter<V>(p1: Entry<V>, pivot: Entry<V>, list: List<V>, ghost i1: nat, ghost ip: nat)
    requires list.Linked() && i1 < ip < |list.nodes| && pivot == list.nodes[ip] && p1 == list.nodes[i1]
    requires Owned(list, list.nodes)
    modifies list`head, list`tail, list`nodes, list`contents, list.nodes`prev, list.nodes`next
    ensures list.Linked() && Owned(list, list.nodes)
    ensures list.nodes == With(Without(old(list.nodes), i1), ip, p1)
    ensures list.contents == With(Without(old(list.contents), i1), ip, old(list.contents[i1]))
  {
    ghost var s := list.nodes;
    assert OwnedAt(list, s, ip);
    RelinkAfter(p1, pivot, list, i1, ip);
    forall k ensures OwnedAt(list, s, k) { assert old(OwnedAt(list, s, k)); }
    MoveUpOwned(list, s, i1, ip);
  }

  method ScanForward<V(!new)>(from: Entry<V>, pivot: Entry<V>, pv: V, cmp: (V, V) -> int, list: List<V>,
                              ghost i1: nat, ghost ip: nat) returns (p: Entry<V>, ghost i: nat)
    requires list.Linked() && i1 <= ip < |list.nodes| && from == list.nodes[i1] && pivot == list.nodes[ip]
    ensures list.Linked() && i1 <= i <= ip && p == list.nodes[i]
    ensures forall k :: i1 <= k < i ==> cmp(list.contents[k], pv) > 0
    ensures i < ip ==> cmp(list.contents[i], pv) <= 0
  {
    p, i := from, i1;
    while p != pivot && cmp(p.value, pv) > 0
      invariant list.Linked() && i1 <= i <= ip && p == list.nodes[i]
      invariant forall k :: i1 <= k < i ==> cmp(list.contents[k], pv) > 0
      decreases ip - i
    {
      assert LinkAt(list.nodes, i) && ValueAt(list.nodes, list.contents, i);
      p, i := p.next, i + 1;
    }
    assert ValueAt(list.nodes, list.contents, i);
    OnlyAt(list.nodes, ip);
  }

  method ScanBackward<V(!new)>(from: Entry<V>, pivot: Entry<V>, pv: V, cmp: (V, V) -> int, list: List<V>,
                               ghost ip: nat, ghost i2: nat) returns (p: Entry<V>, ghost i: nat)
    requires list.Linked() && ip <= i2 < |list.nodes| && from == list.nodes[i2] && pivot == list.nodes[ip]
    ensures list.Linked() && ip <= i <= i2 && p == list.nodes[i]
    ensures forall k :: i < k <= i2 ==> cmp(list.contents[k], pv) < 0
    ensures ip < i ==> cmp(list.contents[i], pv) >= 0
  {
    p, i := from, i2;
    while p != pivot && cmp(p.value, pv) < 0
      invariant list.Linked() && ip <= i <= i2 && p == list.nodes[i]
      invariant forall k :: i < k <= i2 ==> cmp(list.contents[k], pv) < 0
      decreases i - ip
    {
      assert LinkAt(list.nodes, i) && ValueAt(list.nodes, list.contents, i);
      p, i := p.prev, i - 1;
    }
    assert ValueAt(list.nodes, list.contents, i);
    OnlyAt(list.nodes, ip);
  }

  /** The loop of `list_quick_sort`: pointers and their positions. */
  ghost predicate Parting<V(!new)>(list: List<V>, cmp: (V, V) -> int, h: Entry<V>, t: Entry<V>,
                                   p1: Entry<V>, pivot: Entry<V>, p2: Entry<V>, pv: V,
                                   lo: nat, i1: nat, ip: nat, i2: nat, hi: nat)
    reads list, list.nodes
  {
    && list.Linked() && Owned(list, list.nodes) && Parted(cmp, list.contents, pv, lo, i1, ip, i2, hi)
    && h == list.nodes[lo] && t == list.nodes[hi - 1]
    && p1 == list.nodes[i1] && pivot == list.nodes[ip] && p2 == list.nodes[i2]
  }

  method RoundBefore<V(!new)>(list: List<V>, cmp: (V, V) -> int, h: Entry<V>, t: Entry<V>,
                              pivot: Entry<V>, p2: Entry<V>, ghost pv: V,
                              ghost lo: nat, ghost ip: nat, ghost i2: nat, ghost hi: nat)
    returns (h': Entry<V>, t': Entry<V>, p2': Entry<V>)
    requires Parting(list, cmp, h, t, pivot, pivot, p2, pv, lo, ip, ip, i2, hi)
    requires ip < i2 && cmp(list.contents[i2], pv) >= 0
    modifies list`head, list`tail, list`nodes, list`contents, list.nodes`prev, list.nodes`next
    ensures Parting(list, cmp, h', t', pivot, pivot, p2', pv, lo, ip + 1, ip + 1, i2, hi)
    ensures Rearranged(old(list.nodes), list.nodes, lo, hi) && Rearranged(old(list.contents), list.contents, lo, hi)
  {
    assert LinkAt(list.nodes, i2);
    PartedMoveDown(cmp, list.contents, pv, lo, ip, i2, hi);
    MoveEntryDown(list.nodes, lo, ip, i2, hi);
    p2' := p2.prev;
    h' := if pivot == h then p2 else h;
    t' := if p2 == t then p2' else t;
    MoveBefore(p2, pivot, list, ip, i2);
  }

  method RoundAfter<V(!new)>(list: List<V>, cmp: (V, V) -> int, h: Entry<V>, t: Entry<V>,
                             p1: Entry<V>, pivot: Entry<V>, ghost pv: V,
                             ghost lo: nat, ghost i1: nat, ghost ip: nat, ghost hi: nat)
    returns (h': Entry<V>, t': Entry<V>, p1': Entry<V>)
    requires Parting(list, cmp, h, t, p1, pivot, pivot, pv, lo, i1, ip, ip, hi)
    requires i1 < ip && cmp(list.contents[i1], pv) <= 0
    modifies list`head, list`tail, list`nodes, list`contents, list.nodes`prev, list.nodes`next
    ensures Parting(list, cmp, h', t', p1', pivot, pivot, pv, lo, i1, ip - 1, ip - 1, hi)
    ensures Rearranged(old(list.nodes), list.nodes, lo, hi) && Rearranged(old(list.contents), list.contents, lo, hi)
  {
    assert LinkAt(list.nodes, i1);
    PartedMoveUp(cmp, list.contents, pv, lo, i1, ip, hi);
    MoveEntryUp(list.nodes, lo, i1, ip, hi);
    p1' := p1.next;
    t' := if pivot == t then p1 else t;
    h' := if p1 == h then p1' else h;
    MoveAfter(p1, pivot, list, i1, ip);
  }

  /** The three branches of one round, after both scans and unless the scans have met. */
  method RoundSwap<V(!new)>(list: List<V>, cmp: (V, V) -> int, h: Entry<V>, t: Entry<V>,
                            p1: Entry<V>, pivot: Entry<V>, p2: Entry<V>, ghost pv: V,
                            ghost lo: nat, ghost i1: nat, ghost ip: nat, ghost i2: nat, ghost hi: nat)
    returns (p1': Entry<V>, p2': Entry<V>)
    requires Parting(list, cmp, h, t, p1, pivot, p2, pv, lo, i1, ip, i2, hi) && i1 < ip < i2
    requires cmp(list.contents[i1], pv) <= 0 && cmp(list.contents[i2], pv) >= 0
    modifies list`contents, list.nodes`value
    ensures Parting(list, cmp, h, t, p1', pivot, p2', pv, lo, i1 + 1, ip, i2 - 1, hi)
    ensures Rearranged(old(list.nodes), list.nodes, lo, hi) && Rearranged(old(list.contents), list.contents, lo, hi)
  {
    OnlyAt(list.nodes, ip);
    PartedSwap(cmp, list.contents, pv, lo, i1, ip, i2, hi);
    SwapValues(p1, p2, list, i1, i2);
    assert LinkAt(list.nodes, i1) && LinkAt(list.nodes, i2);
    p1', p2' := p1.next, p2.prev;
  }

  method PartitionRound<V(!new)>(list: List<V>, cmp: (V, V) -> int, h: Entry<V>, t: Entry<V>,
                                 p1: Entry<V>, pivot: Entry<V>, p2: Entry<V>, ghost pv: V,
                                 ghost lo: nat, ghost i1: nat, ghost ip: nat, ghost i2: nat, ghost hi: nat)
    returns (h': Entry<V>, t': Entry<V>, p1': Entry<V>, p2': Entry<V>, ghost j1: nat, ghost jp: nat, ghost j2: nat)
    requires Parting(list, cmp, h, t, p1, pivot, p2, pv, lo, i1, ip, i2, hi) && p1 != p2
    requires i1 < ip ==> cmp(list.contents[i1], pv) <= 0
    requires ip < i2 ==> cmp(list.contents[i2], pv) >= 0
    modifies list`head, list`tail, list`nodes, list`contents, list.nodes`prev, list.nodes`next, list.nodes`value
    ensures Parting(list, cmp, h', t', p1', pivot, p2', pv, lo, j1, jp, j2, hi) && j2 - j1 < i2 - i1
    ensures Rearranged(old(list.nodes), list.nodes, lo, hi) && Rearranged(old(list.contents), list.contents, lo, hi)
  {
    OnlyAt(list.nodes, ip);
    h', t', p1', p2' := h, t, p1, p2;
    if p1 == pivot {
      h', t', p2' := RoundBefore(list, cmp, h, t, pivot, p2, pv, lo, ip, i2, hi);
      j1, jp, j2 := ip + 1, ip + 1, i2;
    } else if p2 == pivot {
      h', t', p1' := RoundAfter(list, cmp, h, t, p1, pivot, pv, lo, i1, ip, hi);
      j1, jp, j2 := i1, ip - 1, ip - 1;
    } else {
      p1', p2' := RoundSwap(list, cmp, h, t, p1, pivot, p2, pv, lo, i1, ip, i2, hi);
      j1, jp, j2 := i1 + 1, ip, i2 - 1;
    }
  }

  lemma MoveEntryDown<V>(s: seq<Entry<V>>, lo: nat, ip: nat, i2: nat, hi: nat)
    requires Unique(s) && lo <= ip < i2 < hi <= |s|
    ensures var t := With(Without(s, i2), ip, s[i2]);
      && Rearranged(s, t, lo, hi) && (forall e :: e in t <==> e in s)
      && t[ip + 1] == s[ip] && t[i2] == s[i2 - 1]
      && t[lo] == (if ip == lo then s[i2] else s[lo]) && (s[ip] == s[lo] <==> ip == lo)
      && t[hi - 1] == (if i2 == hi - 1 then s[i2 - 1] else s[hi - 1]) && (s[i2] == s[hi - 1] <==> i2 == hi - 1)
  {
    var t := With(Without(s, i2), ip, s[i2]);
    MoveDownRearranged(s, ip, i2);
    RearrangedWider(s, t, ip, i2 + 1, lo, hi);
    SameMembers(s, t, lo, hi);
    OnlyAt(s, ip);
    OnlyAt(s, i2);
  }

  lemma MoveEntryUp<V>(s: seq<Entry<V>>, lo: nat, i1: nat, ip: nat, hi: nat)
    requires Unique(s) && lo <= i1 < ip < hi <= |s|
    ensures var t := With(Without(s, i1), ip, s[i1]);
      && Rearranged(s, t, lo, hi) && (forall e :: e in t <==> e in s)
      && t[ip - 1] == s[ip] && t[i1] == s[i1 + 1]
      && t[lo] == (if i1 == lo then s[lo + 1] else s[lo]) && (s[i1] == s[lo] <==> i1 == lo)
      && t[hi - 1] == (if ip == hi - 1 then s[i1] else s[hi - 1]) && (s[ip] == s[hi - 1] <==> ip == hi - 1)
  {
    var t := With(Without(s, i1), ip, s[i1]);
    MoveUpRearranged(s, i1, ip);
    RearrangedWider(s, t, i1, ip + 1, lo, hi);
    SameMembers(s, t, lo, hi);
    OnlyAt(s, ip);
    OnlyAt(s, i1);
  }

  /** The partitioning loop: afterwards the pivot stands where the sorted list wants it. */
  method Partition<V(!new)>(list: List<V>, cmp: (V, V) -> int, head: Entry<V>, tail: Entry<V>, pivot: Entry<V>,
                            ghost lo: nat, ghost ip0: nat, ghost hi: nat)
    returns (h: Entry<V>, t: Entry<V>, ghost ip: nat)
    requires list.Linked() && Owned(list, list.nodes) && lo <= ip0 < hi <= |list.nodes|
    requires head == list.nodes[lo] && tail == list.nodes[hi - 1] && pivot == list.nodes[ip0]
    modifies list`head, list`tail, list`nodes, list`contents, list.nodes`prev, list.nodes`next, list.nodes`value
    ensures list.Linked() && Owned(list, list.nodes) && lo <= ip < hi <= |list.nodes|
    ensures h == list.nodes[lo] && t == list.nodes[hi - 1] && pivot == list.nodes[ip]
    ensures Parted(cmp, list.contents, list.contents[ip], lo, ip, ip, ip, hi)
    ensures Rearranged(old(list.nodes), list.nodes, lo, hi) && Rearranged(old(list.contents), list.contents, lo, hi)
  {
    var pv := pivot.value;
    assert ValueAt(list.nodes, list.contents, ip0);
    var p1, p2 := head, tail;
    h, t := head, tail;
    ghost var i1: nat, i2: nat := lo, hi - 1;
    ip := ip0;
    while true
      invariant Parting(list, cmp, h, t, p1, pivot, p2, pv, lo, i1, ip, i2, hi)
      invariant Rearranged(old(list.nodes), list.nodes, lo, hi)
      invariant Rearranged(old(list.contents), list.contents, lo, hi)
      decreases i2 - i1
    {
      ghost var n0, c0, j1, j2 := list.nodes, list.contents, i1, i2;
      p1, j1 := ScanForward(p1, pivot, pv, cmp, list, i1, ip);
      p2, j2 := ScanBackward(p2, pivot, pv, cmp, list, ip, i2);
      PartedScan(cmp, list.contents, pv, lo, i1, j1, ip, j2, i2, hi);
      OnlyAt(list.nodes, j1);
      if p1 == p2 {
        return;
      }
      assert list.nodes == n0;
      SameMembers(old(list.nodes), n0, lo, hi);
      assert forall k :: 0 <= k < |n0| ==> n0[k] in old(list.nodes);
      h, t, p1, p2, i1, ip, i2 := PartitionRound(list, cmp, h, t, p1, pivot, p2, pv, lo, j1, ip, j2, hi);
      RearrangedTrans(old(list.nodes), n0, list.nodes, lo, hi);
      RearrangedTrans(old(list.contents), c0, list.contents, lo, hi);
    }
  }

  /** The counting loop after the partition. */
  method CountTo<V>(list: List<V>, head: Entry<V>, pivot: Entry<V>, ghost lo: nat, ghost ip: nat) returns (n: nat)
    requires list.Linked() && lo <= ip < |list.nodes| && head == list.nodes[lo] && pivot == list.nodes[ip]
    ensures n == ip - lo
  {
    var p := head;
    n := 0;
    while p != pivot
      invariant list.Linked() && n <= ip - lo && p == list.nodes[lo + n]
      decreases ip - lo - n
    {
      assert LinkAt(list.nodes, lo + n);
      p := p.next;
      n := n + 1;
    }
    OnlyAt(list.nodes, ip);
  }

  /** The two loops that choose the pivots of the sublists, `steps` entries inwards. */
  method StepForward<V>(list: List<V>, from: Entry<V>, steps: nat, ghost i: nat) returns (p: Entry<V>)
    requires list.Linked() && i + steps < |list.nodes| && from == list.nodes[i]
    ensures p == list.nodes[i + steps] && list.Linked()
  {
    p := from;
    var k := 0;
    while p.next != null && k < steps
      invariant list.Linked() && k <= steps && p == list.nodes[i + k]
    {
      assert LinkAt(list.nodes, i + k);
      p := p.next;
      k := k + 1;
    }
    assert LinkAt(list.nodes, i + k);
  }

  method StepBackward<V>(list: List<V>, from: Entry<V>, steps: nat, ghost i: nat) returns (p: Entry<V>)
    requires list.Linked() && steps <= i < |list.nodes| && from == list.nodes[i]
    ensures p == list.nodes[i - steps] && list.Linked()
  {
    p := from;
    var k := 0;
    while p.prev != null && k < steps
      invariant list.Linked() && k <= steps && p == list.nodes[i - k]
    {
      assert LinkAt(list.nodes, i - k);
      p := p.prev;
      k := k + 1;
    }
    assert LinkAt(list.nodes, i - k);
  }

  /** `list_quick_sort` on the segment of `length` entries from position `lo`. */
  method QuickSort<V(!new)>(list: List<V>, cmp: (V, V) -> int, head: Entry?<V>, tail: Entry?<V>, pivot: Entry?<V>,
                            length: nat, ghost lo: nat, ghost ip: nat)
    requires Preorder(cmp) && list.Linked() && Owned(list, list.nodes) && lo + length <= |list.nodes|
    requires length >= 2 ==>
      && lo <= ip < lo + length && head == list.nodes[lo] && tail == list.nodes[lo + length - 1]
      && pivot == list.nodes[ip]
    modifies list`head, list`tail, list`nodes, list`contents, list.nodes`prev, list.nodes`next, list.nodes`value
    ensures list.Linked() && Owned(list, list.nodes)
    ensures Rearranged(old(list.nodes), list.nodes, lo, lo + length)
    ensures Rearranged(old(list.contents), list.contents, lo, lo + length)
    ensures Ordered(cmp, list.contents, lo, lo + length)
    decreases length, 1
  {
    if head == null || tail == null || pivot == null || length < 2 {
      return;
    }
    if length == 2 {
      SortTwo(list, cmp, head, tail, lo);
    } else {
      SortMany(list, cmp, head, tail, pivot, length, lo, ip);
    }
  }

  /** Three entries or more: partition, then both sides. */
  method SortMany<V(!new)>(list: List<V>, cmp: (V, V) -> int, head: Entry<V>, tail: Entry<V>, pivot: Entry<V>,
                           length: nat, ghost lo: nat, ghost ip: nat)
    requires Preorder(cmp) && list.Linked() && Owned(list, list.nodes) && lo <= ip < lo + length <= |list.nodes|
    requires head == list.nodes[lo] && tail == list.nodes[lo + length - 1] && pivot == list.nodes[ip]
    modifies list`head, list`tail, list`nodes, list`contents, list.nodes`prev, list.nodes`next, list.nodes`value
    ensures list.Linked() && Owned(list, list.nodes)
    ensures Rearranged(old(list.nodes), list.nodes, lo, lo + length)
    ensures Rearranged(old(list.contents), list.contents, lo, lo + length)
    ensures Ordered(cmp, list.contents, lo, lo + length)
    decreases length, 0
  {
    ghost var hi := lo + length;
    var h, t, jp := Partition(list, cmp, head, tail, pivot, lo, ip, hi);
    ghost var n1, c1 := list.nodes, list.contents;
    SameMembers(old(list.nodes), n1, lo, hi);
    assert forall k :: 0 <= k < |n1| ==> n1[k] in old(list.nodes);
    SortHalves(list, cmp, h, t, pivot, length, lo, jp);
    RearrangedTrans(old(list.nodes), n1, list.nodes, lo, hi);
    RearrangedTrans(old(list.contents), c1, list.contents, lo, hi);
  }

  /** What follows the partition: the two lengths, the two new pivots and the two calls. */
  method SortHalves<V(!new)>(list: List<V>, cmp: (V, V) -> int, h: Entry<V>, t: Entry<V>, pivot: Entry<V>,
                             length: nat, ghost lo: nat, ghost ip: nat)
    requires Preorder(cmp) && list.Linked() && Owned(list, list.nodes) && lo <= ip < lo + length <= |list.nodes|
    requires h == list.nodes[lo] && t == list.nodes[lo + length - 1] && pivot == list.nodes[ip]
    requires Parted(cmp, list.contents, list.contents[ip], lo, ip, ip, ip, lo + length)
    modifies list`head, list`tail, list`nodes, list`contents, list.nodes`prev, list.nodes`next, list.nodes`value
    ensures list.Linked() && Owned(list, list.nodes)
    ensures Rearranged(old(list.nodes), list.nodes, lo, lo + length)
    ensures Rearranged(old(list.contents), list.contents, lo, lo + length)
    ensures Ordered(cmp, list.contents, lo, lo + length)
    decreases length - 1, 4
  {
    ghost var hi := lo + length;
    var l1 := CountTo(list, h, pivot, lo, ip);
    var l2 := length - (l1 + 1);
    var pv1 := StepForward(list, h, l1 / 2, lo);
    var pv2 := StepBackward(list, t, l2 / 2, hi - 1);
    SortParts(list, cmp, h, t, pivot, pv1, pv2, l1, l2, lo, ip, hi);
  }

  method SortTwo<V(!new)>(list: List<V>, cmp: (V, V) -> int, head: Entry<V>, tail: Entry<V>, ghost lo: nat)
    requires Preorder(cmp) && list.Linked() && Owned(list, list.nodes) && lo + 2 <= |list.nodes|
    requires head == list.nodes[lo] && tail == list.nodes[lo + 1]
    modifies list`contents, head`value, tail`value
    ensures list.Linked() && Owned(list, list.nodes)
    ensures Rearranged(old(list.contents), list.contents, lo, lo + 2) && Ordered(cmp, list.contents, lo, lo + 2)
  {
    assert ValueAt(list.nodes, list.contents, lo) && ValueAt(list.nodes, list.contents, lo + 1);
    assert PreorderAt(cmp, head.value, tail.value, head.value);
    if cmp(head.value, tail.value) < 0 {
      SwapRearranged(list.contents, lo, lo + 1);
      SwapValues(head, tail, list, lo, lo + 1);
    }
  }

  method SortLeft<V(!new)>(list: List<V>, cmp: (V, V) -> int, h: Entry<V>, pivot: Entry<V>, pv1: Entry<V>, l1: nat,
                           ghost lo: nat, ghost ip: nat)
    requires Preorder(cmp) && list.Linked() && Owned(list, list.nodes) && lo + l1 == ip < |list.nodes|
    requires h == list.nodes[lo] && pivot == list.nodes[ip] && pv1 == list.nodes[lo + l1 / 2]
    modifies list`head, list`tail, list`nodes, list`contents, list.nodes`prev, list.nodes`next, list.nodes`value
    ensures list.Linked() && Owned(list, list.nodes)
    ensures Rearranged(old(list.nodes), list.nodes, lo, ip) && Rearranged(old(list.contents), list.contents, lo, ip)
    ensures Ordered(cmp, list.contents, lo, ip)
    decreases l1, 2
  {
    assert LinkAt(list.nodes, ip);
    OnlyAt(list.nodes, lo);
    if l1 > 1 && pivot.prev != null && h != pivot.prev {
      QuickSort(list, cmp, h, pivot.prev, pv1, l1, lo, lo + l1 / 2);
    }
  }

  method SortRight<V(!new)>(list: List<V>, cmp: (V, V) -> int, t: Entry<V>, pivot: Entry<V>, pv2: Entry<V>, l2: nat,
                            ghost ip: nat, ghost hi: nat)
    requires Preorder(cmp) && list.Linked() && Owned(list, list.nodes) && ip + 1 + l2 == hi <= |list.nodes|
    requires t == list.nodes[hi - 1] && pivot == list.nodes[ip] && pv2 == list.nodes[hi - 1 - l2 / 2]
    modifies list`head, list`tail, list`nodes, list`contents, list.nodes`prev, list.nodes`next, list.nodes`value
    ensures list.Linked() && Owned(list, list.nodes)
    ensures Rearranged(old(list.nodes), list.nodes, ip + 1, hi)
    ensures Rearranged(old(list.contents), list.contents, ip + 1, hi)
    ensures Ordered(cmp, list.contents, ip + 1, hi)
    decreases l2, 2
  {
    assert LinkAt(list.nodes, ip);
    OnlyAt(list.nodes, hi - 1);
    if l2 > 1 && pivot.next != null && t != pivot.next {
      QuickSort(list, cmp, pivot.next, t, pv2, l2, ip + 1, hi - 1 - l2 / 2);
    }
  }

  /** The two recursive calls. */
  method SortParts<V(!new)>(list: List<V>, cmp: (V, V) -> int, h: Entry<V>, t: Entry<V>, pivot: Entry<V>,
                            pv1: Entry<V>, pv2: Entry<V>, l1: nat, l2: nat, ghost lo: nat, ghost ip: nat, ghost hi: nat)
    requires Preorder(cmp) && list.Linked() && Owned(list, list.nodes)
    requires lo + l1 == ip && ip + 1 + l2 == hi <= |list.nodes|
    requires h == list.nodes[lo] && t == list.nodes[hi - 1] && pivot == list.nodes[ip]
    requires pv1 == list.nodes[lo + l1 / 2] && pv2 == list.nodes[hi - 1 - l2 / 2]
    requires Parted(cmp, list.contents, list.contents[ip], lo, ip, ip, ip, hi)
    modifies list`head, list`tail, list`nodes, list`contents, list.nodes`prev, list.nodes`next, list.nodes`value
    ensures list.Linked() && Owned(list, list.nodes)
    ensures Rearranged(old(list.nodes), list.nodes, lo, hi) && Rearranged(old(list.contents), list.contents, lo, hi)
    ensures Ordered(cmp, list.contents, lo, hi)
    decreases l1 + l2, 3
  {
    ghost var n0, c0 := list.nodes, list.contents;
    SortLeft(list, cmp, h, pivot, pv1, l1, lo, ip);
    ghost var n1, c1 := list.nodes, list.contents;
    SameMembers(n0, n1, lo, ip);
    assert forall k :: 0 <= k < |n1| ==> n1[k] in n0;
    RearrangedOutside(n0, n1, lo, ip);
    SortRight(list, cmp, t, pivot, pv2, l2, ip, hi);
    Assemble(cmp, c0, c1, list.contents, c0[ip], lo, ip, hi);
    RearrangedBoth(n0, n1, list.nodes, lo, ip, hi);
  }

  /** `list_sort`. For fewer than two entries `length / 2 - 1` wraps around and picks nothing. */
  method Sort<V(!new)>(list: List<V>, cmp: (V, V) -> int)
    requires Preorder(cmp) && list.Valid() && Owned(list, list.nodes)
    modifies list, list.nodes
    ensures list.Valid() && Owned(list, list.nodes) && list.cur == null && list.pos == 0
    ensures multiset(list.nodes) == old(multiset(list.nodes))
    ensures multiset(list.contents) == old(multiset(list.contents))
    ensures forall i, j :: 0 <= i < j < |list.contents| ==> cmp(list.contents[i], list.contents[j]) >= 0
  {
    var pivot: Entry?<V> := null;
    if list.length >= 2 {
      pivot := list.PickEntry(list.length / 2 - 1);
    }
    QuickSort(list, cmp, list.head, list.tail, pivot, list.length, 0,
              if list.length >= 2 then list.length / 2 - 1 else 0);
    list.ForgetCursor();
    WholeRearranged(old(list.nodes), list.nodes);
    WholeRearranged(old(list.contents), list.contents);
  }

  lemma WholeRearranged<T>(s: seq<T>, t: seq<T>)
    requires Rearranged(s, t, 0, |s|)
    ensures multiset(s) == multiset(t)
  {
    assert s[0..|s|] == s && t[0..|s|] == t;
  }

  lemma WithContents<T>(s: seq<T>, i: nat, x: T)
    requires i <= |s|
    ensures multiset(With(s, i, x)) == multiset(s) + multiset{x}
  {
    assert With(s, i, x) == s[..i] + [x] + s[i..] && s == s[..i] + s[i..];
  }

  /** `list_unshift_value` or `list_push_value`. */
  method AddValue<V>(list: List<V>, v: V, atFront: bool)
    requires list.Valid() && Owned(list, list.nodes)
    modifies list, list.nodes
    ensures list.Valid() && Owned(list, list.nodes)
    ensures forall i :: 0 <= i < |list.nodes| ==> list.nodes[i] in old(list.nodes) || fresh(list.nodes[i])
    ensures multiset(list.contents) == old(multiset(list.contents)) + multiset{v}
  {
    var e := new Entry(v);
    WithContents(list.contents, 0, v);
    WithContents(list.contents, |list.contents|, v);
    if atFront {
      var _ := list.UnshiftEntry(e);
    } else {
      var _ := list.PushEntry(e);
    }
  }

  /** Every list built by pushing and unshifting is sorted by `list_sort`. */
  method SortBuilt<V(!new)>(nil: V, cmp: (V, V) -> int, values: seq<V>, atFront: seq<bool>) returns (list: List<V>)
    requires Preorder(cmp) && |atFront| == |values|
    ensures list.Valid() && multiset(list.contents) == multiset(values)
    ensures forall i, j :: 0 <= i < j < |list.contents| ==> cmp(list.contents[i], list.contents[j]) >= 0
  {
    list := new List(nil);
    for k := 0 to |values|
      invariant list.Valid() && Owned(list, list.nodes) && fresh(list)
      invariant forall i :: 0 <= i < |list.nodes| ==> fresh(list.nodes[i])
      invariant multiset(list.contents) == multiset(values[..k])
    {
      assert values[..k + 1] == values[..k] + [values[k]];
      AddValue(list, values[k], atFront[k]);
    }
    assert values[..|values|] == values;
    Sort(list, cmp);
  }
}
