/**
 Key order and association sequences shared by the search trees.

 The comparator callback of the C code is an arbitrary function value `cmp`; its only
 assumed property is that it is a total order. `TotalOrder` is stated through `OrderAt`
 so that the verifier instantiates it only for the keys a proof names.
 */
module Order {

  ghost predicate OrderAt<K(!new)>(cmp: (K, K) -> int, a: K, b: K, c: K)
  {
    && (cmp(a, b) == 0 <==> a == b)
    && (cmp(a, b) < 0 <==> cmp(b, a) > 0)
    && (cmp(a, b) < 0 && cmp(b, c) < 0 ==> cmp(a, c) < 0)
  }

  ghost predicate TotalOrder<K(!new)>(cmp: (K, K) -> int)
  {
    forall a, b, c :: OrderAt(cmp, a, b, c)
  }

  ghost predicate PreorderAt<K(!new)>(cmp: (K, K) -> int, a: K, b: K, c: K)
  {
    && (cmp(a, b) < 0 <==> cmp(b, a) > 0)
    && (cmp(a, b) >= 0 && cmp(b, c) >= 0 ==> cmp(a, c) >= 0)
  }

  /** The comparator orders everything; different things may compare equal. */
  ghost predicate Preorder<K(!new)>(cmp: (K, K) -> int)
  {
    forall a, b, c :: PreorderAt(cmp, a, b, c)
  }

  /** Keys strictly ascending. */
  ghost predicate Sorted<K(!new), V>(cmp: (K, K) -> int, s: seq<(K, V)>)
  {
    forall i, j :: 0 <= i < j < |s| ==> cmp(s[i].0, s[j].0) < 0
  }

  ghost predicate Below<K(!new), V>(cmp: (K, K) -> int, s: seq<(K, V)>, k: K)
  {
    forall i :: 0 <= i < |s| ==> cmp(s[i].0, k) < 0
  }

  ghost predicate Above<K(!new), V>(cmp: (K, K) -> int, k: K, s: seq<(K, V)>)
  {
    forall i :: 0 <= i < |s| ==> cmp(k, s[i].0) < 0
  }

  /** The finite map an association sequence stands for (later pairs win). */
  ghost function MapOf<K, V>(s: seq<(K, V)>): map<K, V>
  {
    if s == [] then map[] else MapOf(s[..|s| - 1])[s[|s| - 1].0 := s[|s| - 1].1]
  }

  lemma {:induction false} MapOfKeys<K, V>(s: seq<(K, V)>, k: K)
    ensures k in MapOf(s) <==> exists i :: 0 <= i < |s| && s[i].0 == k
  {
    if s != [] {
      var s' := s[..|s| - 1];
      MapOfKeys(s', k);
      if k in MapOf(s') {
        var i :| 0 <= i < |s'| && s'[i].0 == k;
        assert s[i].0 == k;
      }
      if i :| 0 <= i < |s| && s[i].0 == k {
        if i < |s| - 1 {
          assert s'[i].0 == k;
        }
      }
    }
  }

  lemma MapOfSnoc<K, V>(s: seq<(K, V)>, x: (K, V))
    ensures MapOf(s + [x]) == MapOf(s)[x.0 := x.1]
  {
    assert (s + [x])[..|s|] == s;
  }

  /** A pair put in front of pairs with other keys is as good as put last. */
  lemma {:induction false} MapOfInsert<K, V>(l: seq<(K, V)>, x: (K, V), r: seq<(K, V)>)
    requires forall i :: 0 <= i < |r| ==> r[i].0 != x.0
    ensures MapOf(l + [x] + r) == MapOf(l + r)[x.0 := x.1]
  {
    if r == [] {
      assert l + r == l;
      assert l + [x] + r == l + [x];
      MapOfSnoc(l, x);
    } else {
      var r', y := r[..|r| - 1], r[|r| - 1];
      MapOfInsert(l, x, r');
      MapOfSnoc(l + [x] + r', y);
      MapOfSnoc(l + r', y);
      assert r == r' + [y];
      assert l + [x] + r == l + [x] + r' + [y];
      assert l + r == l + r' + [y];
    }
  }

  /** A strictly sorted sequence has as many pairs as its map has keys. */
  lemma {:induction false} SortedSize<K(!new), V>(cmp: (K, K) -> int, s: seq<(K, V)>)
    requires TotalOrder(cmp) && Sorted(cmp, s)
    ensures |MapOf(s)| == |s|
  {
    if s != [] {
      var s', k := s[..|s| - 1], s[|s| - 1].0;
      SortedSize(cmp, s');
      assert OrderAt(cmp, k, k, k);
      forall i | 0 <= i < |s'|
        ensures s'[i].0 != k
      {
        assert cmp(s[i].0, s[|s| - 1].0) < 0;
      }
      MapOfKeys(s', k);
    }
  }

  lemma SortedConcat<K(!new), V>(cmp: (K, K) -> int, l: seq<(K, V)>, x: (K, V), r: seq<(K, V)>)
    requires TotalOrder(cmp)
    requires Sorted(cmp, l + r) && Below(cmp, l, x.0) && Above(cmp, x.0, r)
    ensures Sorted(cmp, l + [x] + r)
  {
    var s := l + [x] + r;
    forall i, j | 0 <= i < j < |s|
      ensures cmp(s[i].0, s[j].0) < 0
    {
      if i < |l| && j > |l| {
        assert (l + r)[i] == s[i] && (l + r)[j - 1] == s[j];
      } else if j < |l| {
        assert (l + r)[i] == s[i] && (l + r)[j] == s[j];
      } else if i > |l| {
        assert (l + r)[i - 1] == s[i] && (l + r)[j - 1] == s[j];
      }
    }
  }

  lemma SortedSplit<K(!new), V>(cmp: (K, K) -> int, l: seq<(K, V)>, x: (K, V), r: seq<(K, V)>)
    requires TotalOrder(cmp) && Sorted(cmp, l + [x] + r)
    ensures Below(cmp, l, x.0) && Above(cmp, x.0, r) && Sorted(cmp, l + r)
    ensures x.0 !in MapOf(l + r)
    ensures forall i :: 0 <= i < |r| ==> r[i].0 != x.0
  {
    var s := l + [x] + r;
    assert s[|l|] == x;
    assert forall i :: 0 <= i < |l| ==> s[i] == l[i];
    assert forall i :: 0 <= i < |r| ==> s[|l| + 1 + i] == r[i];
    forall i, j | 0 <= i < j < |l + r|
      ensures cmp((l + r)[i].0, (l + r)[j].0) < 0
    {
      assert (l + r)[i] == s[if i < |l| then i else i + 1];
      assert (l + r)[j] == s[if j < |l| then j else j + 1];
    }
    assert OrderAt(cmp, x.0, x.0, x.0);
    forall i | 0 <= i < |l + r|
      ensures (l + r)[i].0 != x.0
    {
      if i < |l| { assert cmp(l[i].0, x.0) < 0; } else { assert cmp(x.0, r[i - |l|].0) < 0; }
    }
    MapOfKeys(l + r, x.0);
  }

  lemma AboveCons<K(!new), V>(cmp: (K, K) -> int, k: K, x: (K, V), r: seq<(K, V)>)
    requires TotalOrder(cmp) && cmp(x.0, k) > 0 && Above(cmp, x.0, r)
    ensures Above(cmp, k, [x] + r)
  {
    assert OrderAt(cmp, k, x.0, k);
    forall i | 0 <= i < |[x] + r|
      ensures cmp(k, ([x] + r)[i].0) < 0
    {
      if i > 0 { assert OrderAt(cmp, k, x.0, r[i - 1].0); }
    }
  }

  lemma BelowSnoc<K(!new), V>(cmp: (K, K) -> int, l: seq<(K, V)>, x: (K, V), k: K)
    requires TotalOrder(cmp) && cmp(x.0, k) < 0 && Below(cmp, l, x.0)
    ensures Below(cmp, l + [x], k)
  {
    forall i | 0 <= i < |l + [x]|
      ensures cmp((l + [x])[i].0, k) < 0
    {
      if i < |l| { assert OrderAt(cmp, l[i].0, x.0, k); }
    }
  }

  lemma BelowPrefix<K(!new), V>(cmp: (K, K) -> int, l: seq<(K, V)>, m: seq<(K, V)>, k: K)
    requires Below(cmp, l + m, k)
    ensures Below(cmp, l, k)
  {
    assert forall i :: 0 <= i < |l| ==> l[i] == (l + m)[i];
  }

  lemma AboveSuffix<K(!new), V>(cmp: (K, K) -> int, k: K, m: seq<(K, V)>, r: seq<(K, V)>)
    requires Above(cmp, k, m + r)
    ensures Above(cmp, k, r)
  {
    assert forall i :: 0 <= i < |r| ==> r[i] == (m + r)[|m| + i];
  }

  lemma BelowAboveParts<K(!new), V>(cmp: (K, K) -> int, k: K, l: seq<(K, V)>, x: (K, V), r: seq<(K, V)>)
    requires TotalOrder(cmp)
    ensures Below(cmp, l + r + [x], k) ==> Below(cmp, l, k) && cmp(x.0, k) < 0
    ensures Above(cmp, k, [x] + l + r) ==> Above(cmp, k, r) && cmp(x.0, k) > 0
  {
    if Below(cmp, l + r + [x], k) {
      assert (l + r + [x])[|l| + |r|] == x;
      assert forall i :: 0 <= i < |l| ==> (l + r + [x])[i] == l[i];
    }
    if Above(cmp, k, [x] + l + r) {
      assert ([x] + l + r)[0] == x && OrderAt(cmp, k, x.0, k);
      assert forall i :: 0 <= i < |r| ==> ([x] + l + r)[1 + |l| + i] == r[i];
    }
  }

  /** Replacing the value at a key changes the map at that key alone. */
  lemma MapOfReplace<K(!new), V>(cmp: (K, K) -> int, l: seq<(K, V)>, k: K, v: V, w: V, r: seq<(K, V)>)
    requires TotalOrder(cmp) && Sorted(cmp, l + [(k, v)] + r)
    ensures Sorted(cmp, l + [(k, w)] + r)
    ensures k in MapOf(l + [(k, v)] + r) && MapOf(l + [(k, v)] + r)[k] == v
    ensures MapOf(l + [(k, w)] + r) == MapOf(l + [(k, v)] + r)[k := w]
  {
    SortedSplit(cmp, l, (k, v), r);
    SortedConcat(cmp, l, (k, w), r);
    MapOfInsert(l, (k, v), r);
    MapOfInsert(l, (k, w), r);
  }

  /** Dropping one pair removes exactly its key. */
  lemma MapOfRemove<K(!new), V>(cmp: (K, K) -> int, l: seq<(K, V)>, x: (K, V), r: seq<(K, V)>)
    requires TotalOrder(cmp) && Sorted(cmp, l + [x] + r)
    ensures Sorted(cmp, l + r)
    ensures MapOf(l + r) == MapOf(l + [x] + r) - {x.0}
    ensures x.0 in MapOf(l + [x] + r) && MapOf(l + [x] + r)[x.0] == x.1
  {
    SortedSplit(cmp, l, x, r);
    MapOfInsert(l, x, r);
  }

  /** A key strictly between the two halves is not in the map. */
  lemma MapOfAbsent<K(!new), V>(cmp: (K, K) -> int, l: seq<(K, V)>, k: K, r: seq<(K, V)>)
    requires TotalOrder(cmp) && Below(cmp, l, k) && Above(cmp, k, r)
    ensures k !in MapOf(l + r)
  {
    assert OrderAt(cmp, k, k, k);
    forall i | 0 <= i < |l + r|
      ensures (l + r)[i].0 != k
    {
      if i < |l| { assert cmp(l[i].0, k) < 0; } else { assert cmp(k, r[i - |l|].0) < 0; }
    }
    MapOfKeys(l + r, k);
  }
}
