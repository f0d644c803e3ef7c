/** Sequences without repetition, and regrouping of concatenations. */
module Sequences {

  ghost predicate Differ<T>(s: seq<T>, i: int, j: int)
  {
    0 <= i < j < |s| ==> s[i] != s[j]
  }

  /** No element occurs twice; used through `OnlyAt`, so that proofs choose the positions. */
  ghost predicate Unique<T>(s: seq<T>)
  {
    forall i, j :: Differ(s, i, j)
  }

  lemma OnlyAt<T>(s: seq<T>, i: int)
    requires Unique(s)
    ensures 0 <= i < |s| ==> forall k :: 0 <= k < |s| && k != i ==> s[k] != s[i]
  {
    if 0 <= i < |s| {
      forall k | 0 <= k < |s| && k != i
        ensures s[k] != s[i]
      {
        assert Differ(s, k, i) && Differ(s, i, k);
      }
    }
  }

  lemma Associate<T>(a: seq<T>, b: seq<T>, c: seq<T>)
    ensures a + (b + c) == (a + b) + c
  {
  }

  lemma TakeRest<T>(a: seq<T>, b: seq<T>, c: seq<T>, d: seq<T>, e: seq<T>)
    ensures a + (b + c + d) + e == a + b + (c + d + e)
  {
  }

  lemma TakeFront<T>(a: seq<T>, b: seq<T>, c: seq<T>, d: seq<T>, e: seq<T>)
    ensures a + (b + c + d) + e == (a + b + c) + d + e
  {
  }

  lemma Reassociate<T>(a: seq<T>, b: seq<T>, c: seq<T>, d: seq<T>, e: seq<T>)
    ensures a + (b + c + d) + e == (a + b) + c + (d + e)
  {
  }
}
