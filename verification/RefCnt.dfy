/**
 The reference counter of `refcnt.c` with calls taken one at a time: what reaches the free list,
 when it is collected, and whether the free list can overflow. The free list and the node pool
 are the blocking queues of module `RQueue`, here as bounded sequences.
 */
module RefCnt {
  import opened Numbers
  import opened Sequences

  const HALF := 0x8000_0000
  const MIN_CAPACITY := 256
  const POOL_SIZE := 65536

  // ---------- sizing of the free list ----------

  /** Conversion of an unsigned 32-bit value to a signed one. */
  function ToInt(x: nat): int
  {
    if x < HALF then x else x - WIDTH
  }

  /** The size `refcnt_create` gives the free list: the sum is taken in 32 bits. */
  function Capacity(threshold: nat): nat
  {
    var size := ToInt((threshold + threshold / 2) % WIDTH);
    if size < MIN_CAPACITY then MIN_CAPACITY else size
  }

  /** The free list can hold one node more than the threshold exactly if the sum fits an int. */
  lemma CapacityExact(threshold: nat)
    requires threshold < WIDTH
    ensures Capacity(threshold) > threshold <==> threshold + threshold / 2 < HALF
  {
    var sum := threshold + threshold / 2;
    assert sum < WIDTH ==> sum % WIDTH == sum;
    assert sum >= WIDTH ==> sum % WIDTH == sum - WIDTH;
  }

  // ---------- a run of terminations ----------

  function Collected(threshold: nat, pending: nat): nat
  {
    if pending > threshold then threshold / 2 else pending
  }

  /** Nodes on the free list, and nodes that found it full, after `n` terminations. */
  function After(threshold: nat, n: nat): (nat, nat)
  {
    if n == 0 then (0, 0) else
      var (pending, lost) := After(threshold, n - 1);
      if pending < Capacity(threshold) then (Collected(threshold, pending + 1), lost)
      else (Collected(threshold, pending), lost + 1)
  }

  lemma {:induction false} NothingLost(threshold: nat, n: nat)
    requires threshold < WIDTH && threshold + threshold / 2 < HALF
    ensures After(threshold, n).0 <= threshold && After(threshold, n).1 == 0
  {
    CapacityExact(threshold);
    if n > 0 { NothingLost(threshold, n - 1); }
  }

  lemma AfterBound(threshold: nat, n: nat)
    ensures After(threshold, n).0 <= threshold
  {
  }

  lemma {:induction false} Fills(threshold: nat, n: nat)
    requires n <= Capacity(threshold) <= threshold
    ensures After(threshold, n) == (n, 0)
  {
    if n > 0 { Fills(threshold, n - 1); }
  }

  ghost predicate NeverLoses(threshold: nat)
  {
    forall n: nat :: After(threshold, n).1 == 0
  }

  /** No run loses a node if and only if the size computation does not overflow. */
  lemma NeverLosesExact(threshold: nat)
    requires threshold < WIDTH
    ensures NeverLoses(threshold) <==> threshold + threshold / 2 < HALF
  {
    CapacityExact(threshold);
    if threshold + threshold / 2 < HALF {
      forall n: nat ensures After(threshold, n).1 == 0 { NothingLost(threshold, n); }
    } else {
      Fills(threshold, Capacity(threshold));
      assert After(threshold, Capacity(threshold) + 1).1 == 1;
    }
  }

  // ---------- nodes and the context ----------

  class Node<P> {
    var ptr: P
    var count: nat
    var updating: nat

    constructor (ptr: P)
      ensures this.ptr == ptr && count == 1 && updating == 0
    {
      this.ptr, count, updating := ptr, 1, 0;
    }
  }

  ghost predicate Marked<P>(s: seq<Node<P>>)
    reads s
  {
    forall n :: n in s ==> n.updating == 1
  }

  ghost function Ptrs<P>(s: seq<Node<P>>): (r: seq<P>)
    reads s
    ensures |r| == |s| && forall i :: 0 <= i < |s| ==> r[i] == s[i].ptr
  {
    if s == [] then [] else Ptrs(s[..|s| - 1]) + [s[|s| - 1].ptr]
  }

  /** Which of the collected nodes fit into a pool that holds `n` already: the first ones. */
  ghost function Pooled<P>(moved: seq<Node<P>>, n: nat): (r: seq<Node<P>>)
    ensures r <= moved
    ensures |r| == if n + |moved| <= POOL_SIZE then |moved| else if n < POOL_SIZE then POOL_SIZE - n else 0
  {
    if n + |moved| <= POOL_SIZE then moved else if n < POOL_SIZE then moved[..POOL_SIZE - n] else []
  }

  /** How far a collection has come: the first `k` nodes of `all` are through. */
  ghost predicate Progress<P>(all: seq<Node<P>>, ptrs: seq<P>, k: nat, freeList: seq<Node<P>>,
                              pool0: seq<Node<P>>, pool: seq<Node<P>>, released0: seq<P>, released: seq<P>)
  {
    && k <= |all| == |ptrs| && freeList == all[k..]
    && pool == pool0 + Pooled(all[..k], |pool0|) && released == released0 + ptrs[..k]
  }

  lemma ProgressStart<P>(all: seq<Node<P>>, ptrs: seq<P>, pool: seq<Node<P>>, released: seq<P>)
    requires |all| == |ptrs|
    ensures Progress(all, ptrs, 0, all, pool, pool, released, released)
  {
  }

  lemma ProgressStep<P>(all: seq<Node<P>>, ptrs: seq<P>, k: nat, freeList: seq<Node<P>>,
                        pool0: seq<Node<P>>, pool: seq<Node<P>>, released0: seq<P>, released: seq<P>)
    requires Progress(all, ptrs, k, freeList, pool0, pool, released0, released) && k < |all|
    ensures freeList[0] == all[k] && Progress(all, ptrs, k + 1, freeList[1..], pool0,
      pool + (if |pool| < POOL_SIZE then [all[k]] else []), released0, released + [ptrs[k]])
  {
    var n, next := |pool0|, if |pool| < POOL_SIZE then [all[k]] else [];
    assert all[..k + 1] == all[..k] + [all[k]] && ptrs[..k + 1] == ptrs[..k] + [ptrs[k]];
    PooledSnoc(all[..k], all[k], n);
    Associate(pool0, Pooled(all[..k], n), next);
    Associate(released0, ptrs[..k], [ptrs[k]]);
  }

  lemma PooledSnoc<P>(moved: seq<Node<P>>, ref: Node<P>, n: nat)
    ensures Pooled(moved + [ref], n) == Pooled(moved, n) + if n + |Pooled(moved, n)| < POOL_SIZE then [ref] else []
  {
  }

  class Context<P> {
    const threshold: nat
    const capacity: nat
    var freeList: seq<Node<P>>
    var pool: seq<Node<P>>
    var released: seq<P>              // arguments of free_node_ptr_cb, in call order
    ghost var lost: seq<Node<P>>      // terminated nodes the free list did not take
    ghost var terminations: nat

    /** No node waits twice, and a waiting node is marked. */
    ghost predicate Waiting()
      reads this, freeList, pool
    {
      Unique(freeList + pool) && Marked(freeList) && Marked(pool) && |pool| <= POOL_SIZE
    }

    /** The lists are as long as the number of terminations says. */
    ghost predicate Valid()
      reads this, freeList, pool
    {
      && threshold < WIDTH && capacity == Capacity(threshold) && Waiting()
      && (|freeList|, |lost|) == After(threshold, terminations)
    }

    constructor (threshold: nat)
      requires threshold < WIDTH
      ensures Valid() && freeList == [] && pool == [] && lost == [] && released == []
      ensures this.threshold == threshold
    {
      this.threshold, this.capacity := threshold, Capacity(threshold);
      freeList, pool, released, lost, terminations := [], [], [], [], 0;
    }

    /** With a threshold whose size computation does not overflow, no terminated node is ever
        lost, and between calls the free list stays within the threshold. */
    lemma NeverFull()
      requires Valid() && threshold + threshold / 2 < HALF
      ensures lost == [] && |freeList| <= threshold < capacity
    {
      NothingLost(threshold, terminations);
      CapacityExact(threshold);
    }

    /** One round of `gc`. */
    method CollectOne()
      requires Waiting() && freeList != []
      modifies this`freeList, this`pool, this`released
      ensures Waiting() && freeList == old(freeList)[1..]
      ensures pool == old(pool) + if |old(pool)| < POOL_SIZE then [old(freeList)[0]] else []
      ensures released == old(released) + [old(freeList)[0].ptr]
    {
      ghost var s := freeList + pool;
      var ref := freeList[0];
      freeList := freeList[1..];
      released := released + [ref.ptr];
      if |pool| < POOL_SIZE {
        pool := pool + [ref];
      }
      forall i, j ensures Differ(freeList + pool, i, j) {
        assert Differ(s, i + 1, j + 1) && Differ(s, 0, i + 1);
      }
    }

    /** `gc`: the oldest nodes give up their pointers and go to the pool. */
    method Gc(force: bool) returns (ghost moved: seq<Node<P>>)
      requires Waiting()
      modifies this`freeList, this`pool, this`released
      ensures Waiting() && old(freeList) == moved + freeList && released == old(released) + Ptrs(moved)
      ensures var limit := if force then 0 else threshold / 2;
        |freeList| == if |old(freeList)| > limit then limit else |old(freeList)|
      ensures pool == old(pool) + Pooled(moved, |old(pool)|)
    {
      ghost var all, ptrs, k := freeList, Ptrs(freeList), 0;
      var limit := if force then 0 else threshold / 2;
      ProgressStart(all, ptrs, pool, released);
      while |freeList| > limit
        invariant Waiting() && ptrs == Ptrs(all) && (|freeList| >= limit || k == 0)
        invariant Progress(all, ptrs, k, freeList, old(pool), pool, old(released), released)
        decreases |freeList|
      {
        ProgressStep(all, ptrs, k, freeList, old(pool), pool, old(released), released);
        CollectOne();
        k := k + 1;
      }
      moved := all[..k];
      PtrsPrefix(all, k);
    }

    /** `release_ref`: the result is null exactly when the node was terminated. Every node it
        collects leaves the free list in order. */
    method ReleaseRef(ref: Node<P>) returns (r: Node?<P>, ghost moved: seq<Node<P>>)
      requires Valid()
      modifies this, ref
      ensures Valid() && ref.ptr == old(ref.ptr)
      ensures ref.count == if old(ref.count) > 0 then old(ref.count) - 1 else 0
      ensures r == if old(ref.updating) == 0 && ref.count == 0 then null else ref
      ensures terminations == old(terminations) + if r == null then 1 else 0
      ensures ref.updating == if r == null then 1 else old(ref.updating)
      ensures released == old(released) + Ptrs(moved) && pool == old(pool) + Pooled(moved, |old(pool)|)
      ensures moved + freeList == if r == null && lost == old(lost) then old(freeList) + [ref] else old(freeList)
    {
      AfterBound(threshold, terminations);
      var terminated := Drop(ref);
      moved := CollectIfOver();
      r := if terminated then null else ref;
    }

    method CollectIfOver() returns (ghost moved: seq<Node<P>>)
      requires Waiting()
      modifies this`freeList, this`pool, this`released
      ensures Waiting() && moved + freeList == old(freeList) && released == old(released) + Ptrs(moved)
      ensures |freeList| == Collected(threshold, |old(freeList)|)
      ensures pool == old(pool) + Pooled(moved, |old(pool)|)
    {
      moved := [];
      if |freeList| > threshold {
        moved := Gc(false);
      }
    }

    /** The part of `release_ref` before the collection. */
    method Drop(ref: Node<P>) returns (terminated: bool)
      requires Waiting()
      modifies this`freeList, this`lost, this`terminations, ref`count, ref`updating
      ensures Waiting()
      ensures ref.count == if old(ref.count) > 0 then old(ref.count) - 1 else 0
      ensures terminated == (old(ref.updating) == 0 && ref.count == 0)
      ensures ref.updating == if terminated then 1 else old(ref.updating)
      ensures terminations == old(terminations) + if terminated then 1 else 0
      ensures freeList == if terminated && |old(freeList)| < capacity then old(freeList) + [ref] else old(freeList)
      ensures lost == if terminated && |old(freeList)| >= capacity then old(lost) + [ref] else old(lost)
    {
      terminated := false;
      if ref.count > 0 {
        ref.count := ref.count - 1;
      }
      if ref.updating == 0 {
        ref.updating := 1;
        if ref.count == 0 {
          Terminate(ref);
          terminated := true;
        } else {
          ref.updating := 0;
        }
      }
    }

    /** Writing a terminated node to the free list. */
    method Terminate(ref: Node<P>)
      requires Waiting() && ref !in freeList && ref !in pool && ref.updating == 1
      modifies this`freeList, this`lost, this`terminations
      ensures Waiting() && terminations == old(terminations) + 1
      ensures freeList == if |old(freeList)| < capacity then old(freeList) + [ref] else old(freeList)
      ensures lost == if |old(freeList)| < capacity then old(lost) else old(lost) + [ref]
    {
      ghost var s, n := freeList + pool, |freeList|;
      terminations := terminations + 1;
      if |freeList| < capacity {
        freeList := freeList + [ref];
        forall i, j ensures Differ(freeList + pool, i, j) {
          assert Differ(s, if i < n then i else i - 1, if j < n then j else j - 1);
        }
      } else {
        lost := lost + [ref];
      }
    }

    /** `new_node`: the oldest node of the pool, or a new one; it waits nowhere afterwards. */
    method NewNode(ptr: P) returns (node: Node<P>)
      requires Valid()
      modifies this`pool, pool
      ensures Valid() && freeList == old(freeList)
      ensures node.ptr == ptr && node.count == 1 && node.updating == 0
      ensures node !in freeList && node !in pool
      ensures if old(pool) == [] then fresh(node) && pool == [] else node == old(pool)[0] && pool == old(pool)[1..]
    {
      if pool == [] {
        node := new Node(ptr);
      } else {
        ghost var s, n := freeList + pool, |freeList|;
        node := pool[0];
        pool := pool[1..];
        node.ptr := ptr;
        node.count := 1;
        node.updating := 0;
        forall i, j ensures Differ(freeList + pool, i, j) {
          assert Differ(s, if i < n then i else i + 1, if j < n then j else j + 1);
        }
        OnlyAt(s, n);
        assert forall k :: 0 <= k < |freeList| ==> freeList[k] == s[k];
        assert forall k :: 0 <= k < |pool| ==> pool[k] == s[n + 1 + k];
      }
    }
  }

  lemma PtrsPrefix<P>(s: seq<Node<P>>, k: nat)
    requires k <= |s|
    ensures Ptrs(s[..k]) == Ptrs(s)[..k]
  {
  }
}
