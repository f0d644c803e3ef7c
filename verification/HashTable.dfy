/**
 The hash table of `hashtable.c`, with calls taken one at a time, as a map that survives growth.
 */
module HashTable {
  import opened Wrappers
  import opened Sequences

  const HT_SIZE_MIN := 128

  type Key = seq<bv8>

  datatype Item<D> = Item(hash: nat, key: Key, data: D)

  /** A slot of `table->items`: NULL or a bucket list. */
  datatype Bucket<D> = Absent | Present(list: seq<Item<D>>)

  // ---------- one bucket ----------

  ghost predicate KeysDiffer<D>(l: seq<Item<D>>, i: int, j: int)
  {
    0 <= i < j < |l| ==> l[i].key != l[j].key
  }

  ghost predicate KeyIn<D>(l: seq<Item<D>>, k: Key)
  {
    exists j :: 0 <= j < |l| && l[j].key == k
  }

  /** Item `j` of bucket `b` belongs there and agrees with the map. */
  ghost predicate ItemAt<D>(hash: Key -> nat, size: nat, m: map<Key, D>, l: seq<Item<D>>, b: int, j: int)
  {
    0 <= j < |l| && size > 0 ==>
      && l[j].hash == hash(l[j].key) && l[j].hash % size == b
      && l[j].key in m && m[l[j].key] == l[j].data
  }

  ghost predicate BucketOk<D>(hash: Key -> nat, size: nat, m: map<Key, D>, l: seq<Item<D>>, b: int)
  {
    (forall j :: ItemAt(hash, size, m, l, b, j)) && forall i, j :: KeysDiffer(l, i, j)
  }

  // ---------- the whole table ----------

  ghost predicate BucketAt<D>(hash: Key -> nat, m: map<Key, D>, items: seq<Bucket<D>>, b: int)
  {
    0 <= b < |items| && items[b].Present? ==> BucketOk(hash, |items|, m, items[b].list, b)
  }

  ghost predicate KeyAt<D>(hash: Key -> nat, m: map<Key, D>, items: seq<Bucket<D>>, k: Key)
  {
    k in m && |items| > 0 ==>
      items[hash(k) % |items|].Present? && KeyIn(items[hash(k) % |items|].list, k)
  }

  /** The buckets hold exactly the map: each pair once, in the bucket of its hash. */
  ghost predicate Stores<D>(hash: Key -> nat, m: map<Key, D>, items: seq<Bucket<D>>)
  {
    && |items| > 0
    && (forall b :: BucketAt(hash, m, items, b))
    && (forall k :: KeyAt(hash, m, items, k))
  }

  /** The iterator list names every bucket list once. */
  ghost predicate Listed<D>(items: seq<Bucket<D>>, order: seq<nat>)
  {
    && Unique(order)
    && (forall b :: b in order <==> 0 <= b < |items| && items[b].Present?)
  }

  // ---------- changes of one bucket ----------

  /** Two keys of one bucket list never coincide, so a found position is the only one. */
  lemma LookupDecides<D>(hash: Key -> nat, m: map<Key, D>, items: seq<Bucket<D>>, k: Key)
    requires Stores(hash, m, items)
    ensures var slot := items[hash(k) % |items|];
      && (k in m <==> slot.Present? && KeyIn(slot.list, k))
      && (slot.Present? ==> forall j :: 0 <= j < |slot.list| && slot.list[j].key == k ==>
           k in m && m[k] == slot.list[j].data)
  {
    var b := hash(k) % |items|;
    assert BucketAt(hash, m, items, b) && KeyAt(hash, m, items, k);
    if items[b].Present? {
      var l := items[b].list;
      forall j | 0 <= j < |l| && l[j].key == k
        ensures k in m && m[k] == l[j].data
      {
        assert ItemAt(hash, |items|, m, l, b, j);
      }
    }
  }

  /** A new empty bucket list. */
  lemma StoresCreate<D>(hash: Key -> nat, m: map<Key, D>, items: seq<Bucket<D>>, b: nat)
    requires Stores(hash, m, items) && b < |items| && items[b].Absent?
    ensures Stores(hash, m, items[b := Present([])])
  {
    var items' := items[b := Present([])];
    forall c ensures BucketAt(hash, m, items', c) { assert BucketAt(hash, m, items, c); }
    forall k ensures KeyAt(hash, m, items', k) { assert KeyAt(hash, m, items, k); }
  }

  lemma BucketOther<D>(hash: Key -> nat, size: nat, m: map<Key, D>, m': map<Key, D>, l: seq<Item<D>>, b: int, k: Key)
    requires BucketOk(hash, size, m, l, b) && size > 0 && hash(k) % size != b
    requires forall x :: x != k ==> (x in m <==> x in m') && (x in m ==> m[x] == m'[x])
    ensures BucketOk(hash, size, m', l, b)
  {
    forall j ensures ItemAt(hash, size, m', l, b, j) { assert ItemAt(hash, size, m, l, b, j); }
  }

  /** Replacing the list of the bucket of `k` when the map changes at `k` only. */
  lemma StoresUpdate<D>(hash: Key -> nat, m: map<Key, D>, m': map<Key, D>, items: seq<Bucket<D>>,
                        l: seq<Item<D>>, k: Key)
    requires Stores(hash, m, items) && items[hash(k) % |items|].Present?
    requires BucketOk(hash, |items|, m', l, hash(k) % |items|)
    requires forall x :: x != k ==> (x in m <==> x in m') && (x in m ==> m[x] == m'[x])
    requires forall x :: x in m' && (x == k || KeyIn(items[hash(k) % |items|].list, x)) ==> KeyIn(l, x)
    ensures Stores(hash, m', items[hash(k) % |items| := Present(l)])
  {
    var b := hash(k) % |items|;
    var items' := items[b := Present(l)];
    forall c ensures BucketAt(hash, m', items', c) {
      assert BucketAt(hash, m, items, c);
      if 0 <= c < |items| && c != b && items[c].Present? {
        BucketOther(hash, |items|, m, m', items[c].list, c, k);
      }
    }
    forall x ensures KeyAt(hash, m', items', x) { assert KeyAt(hash, m, items, x); }
  }

  lemma BucketAppend<D>(hash: Key -> nat, size: nat, m: map<Key, D>, l: seq<Item<D>>, item: Item<D>)
    requires size > 0 && item.hash == hash(item.key) && item.key !in m
    requires BucketOk(hash, size, m, l, item.hash % size)
    ensures BucketOk(hash, size, m[item.key := item.data], l + [item], item.hash % size)
    ensures KeyIn(l + [item], item.key) && forall x :: KeyIn(l, x) ==> KeyIn(l + [item], x)
  {
    var l', m', b := l + [item], m[item.key := item.data], item.hash % size;
    forall j ensures ItemAt(hash, size, m', l', b, j) { assert ItemAt(hash, size, m, l, b, j); }
    forall i, j ensures KeysDiffer(l', i, j) {
      assert KeysDiffer(l, i, j) && ItemAt(hash, size, m, l, b, i);
    }
    assert l'[|l|].key == item.key;
    forall x | KeyIn(l, x) ensures KeyIn(l', x) {
      var j :| 0 <= j < |l| && l[j].key == x;
      assert l'[j].key == x;
    }
  }

  lemma StoresAppend<D>(hash: Key -> nat, m: map<Key, D>, items: seq<Bucket<D>>, item: Item<D>)
    requires Stores(hash, m, items) && item.hash == hash(item.key) && item.key !in m
    requires items[item.hash % |items|].Present?
    ensures var b := item.hash % |items|;
      Stores(hash, m[item.key := item.data], items[b := Present(items[b].list + [item])])
  {
    var b := item.hash % |items|;
    assert BucketAt(hash, m, items, b);
    BucketAppend(hash, |items|, m, items[b].list, item);
    StoresUpdate(hash, m, m[item.key := item.data], items, items[b].list + [item], item.key);
  }

  ghost predicate FoundAt<D>(items: seq<Bucket<D>>, b: nat, j: nat)
  {
    b < |items| && items[b].Present? && j < |items[b].list|
  }

  lemma StoresReplace<D>(hash: Key -> nat, m: map<Key, D>, items: seq<Bucket<D>>, b: nat, j: nat, d: D)
    requires Stores(hash, m, items) && FoundAt(items, b, j)
    ensures var it := items[b].list[j];
      && it.key in m && m[it.key] == it.data
      && Stores(hash, m[it.key := d], items[b := Present(items[b].list[j := Item(it.hash, it.key, d)])])
  {
    var l, it := items[b].list, items[b].list[j];
    var l', m' := l[j := Item(it.hash, it.key, d)], m[it.key := d];
    assert BucketAt(hash, m, items, b) && ItemAt(hash, |items|, m, l, b, j);
    forall i ensures ItemAt(hash, |items|, m', l', b, i) {
      assert ItemAt(hash, |items|, m, l, b, i) && KeysDiffer(l, i, j) && KeysDiffer(l, j, i);
    }
    forall x, y ensures KeysDiffer(l', x, y) { assert KeysDiffer(l, x, y); }
    forall x | KeyIn(l, x) ensures KeyIn(l', x) {
      var i :| 0 <= i < |l| && l[i].key == x;
      assert l'[i].key == x;
    }
    assert l'[j].key == it.key;
    StoresUpdate(hash, m, m', items, l', it.key);
  }

  lemma StoresRemove<D>(hash: Key -> nat, m: map<Key, D>, items: seq<Bucket<D>>, b: nat, j: nat)
    requires Stores(hash, m, items) && FoundAt(items, b, j)
    ensures var it := items[b].list[j];
      && it.key in m && m[it.key] == it.data
      && Stores(hash, m - {it.key}, items[b := Present(items[b].list[..j] + items[b].list[j + 1..])])
  {
    var l, it := items[b].list, items[b].list[j];
    var l', m' := l[..j] + l[j + 1..], m - {it.key};
    assert BucketAt(hash, m, items, b) && ItemAt(hash, |items|, m, l, b, j);
    assert forall i :: 0 <= i < |l'| ==> l'[i] == l[if i < j then i else i + 1];
    forall i ensures ItemAt(hash, |items|, m', l', b, i) {
      var i' := if i < j then i else i + 1;
      assert ItemAt(hash, |items|, m, l, b, i') && KeysDiffer(l, i', j) && KeysDiffer(l, j, i');
    }
    forall x, y ensures KeysDiffer(l', x, y) {
      assert KeysDiffer(l, if x < j then x else x + 1, if y < j then y else y + 1);
    }
    forall x | KeyIn(l, x) && x in m' ensures KeyIn(l', x) {
      var i :| 0 <= i < |l| && l[i].key == x;
      assert l'[if i < j then i else i - 1].key == x;
    }
    StoresUpdate(hash, m, m', items, l', it.key);
  }

  /** Dropping an empty bucket list. */
  lemma StoresDrop<D>(hash: Key -> nat, m: map<Key, D>, items: seq<Bucket<D>>, b: nat)
    requires Stores(hash, m, items) && b < |items| && items[b] == Present([])
    ensures Stores(hash, m, items[b := Absent])
  {
    var items' := items[b := Absent];
    forall c ensures BucketAt(hash, m, items', c) { assert BucketAt(hash, m, items, c); }
    forall k ensures KeyAt(hash, m, items', k) { assert KeyAt(hash, m, items, k); }
  }

  /** Without bucket lists there is nothing stored. */
  lemma StoresNothing<D>(hash: Key -> nat, m: map<Key, D>, items: seq<Bucket<D>>)
    requires Stores(hash, m, items) && forall b :: 0 <= b < |items| ==> items[b].Absent?
    ensures m == map[]
  {
    forall k ensures k !in m { assert KeyAt(hash, m, items, k); }
  }

  lemma KeyInSnoc<D>(l: seq<Item<D>>, i: nat)
    requires i < |l|
    ensures forall k :: KeyIn(l[..i + 1], k) <==> KeyIn(l[..i], k) || k == l[i].key
  {
    forall k ensures KeyIn(l[..i + 1], k) <==> KeyIn(l[..i], k) || k == l[i].key {
      assert l[..i + 1][i].key == l[i].key;
      if KeyIn(l[..i], k) {
        var j :| 0 <= j < i && l[..i][j].key == k;
        assert l[..i + 1][j].key == k;
      }
      var l' := l[..i + 1];
      if KeyIn(l', k) {
        var j :| 0 <= j < |l'| && l'[j].key == k;
        if j < i { assert l[..i][j].key == k; }
      }
    }
  }

  ghost predicate GoneAt<D>(m: map<Key, D>, m': map<Key, D>, keys: seq<Key>, k: Key)
  {
    (k in m' <==> k in m && k !in keys) && (k in m' && k in m ==> m'[k] == m[k])
  }

  /** What is in `m` and no longer in `m'`: the keys, each once, with their values. */
  ghost predicate Gone<D>(m: map<Key, D>, m': map<Key, D>, keys: seq<Key>, gone: seq<D>)
  {
    && |keys| == |gone| && |keys| + |m'| == |m|
    && (forall i, j :: 0 <= i < j < |keys| ==> keys[i] != keys[j])
    && (forall i :: 0 <= i < |keys| ==> keys[i] in m && m[keys[i]] == gone[i])
    && (forall k :: GoneAt(m, m', keys, k))
  }

  lemma GoneStep<D>(m: map<Key, D>, m': map<Key, D>, keys: seq<Key>, gone: seq<D>, k: Key)
    requires Gone(m, m', keys, gone) && k in m'
    ensures Gone(m, m' - {k}, keys + [k], gone + [m'[k]])
  {
    assert GoneAt(m, m', keys, k);
    assert |m' - {k}| == |m'| - 1;
    forall x ensures GoneAt(m, m' - {k}, keys + [k], x) { assert GoneAt(m, m', keys, x); }
  }

  // ---------- the map the table refines ----------

  datatype Op<D> = OpSet(key: Key, data: D, ifAbsent: bool) | OpDelete(key: Key) | OpClear

  function MapStep<D>(m: map<Key, D>, op: Op<D>): map<Key, D>
  {
    match op
    case OpSet(k, d, ifAbsent) => if k == [] || (ifAbsent && k in m) then m else m[k := d]
    case OpDelete(k) => m - {k}
    case OpClear => map[]
  }

  function MapRun<D>(m: map<Key, D>, ops: seq<Op<D>>): map<Key, D>
  {
    if ops == [] then m else MapStep(MapRun(m, ops[..|ops| - 1]), ops[|ops| - 1])
  }

  /** Call `i` of a run decides what `k` holds afterwards. */
  predicate Decides<D>(m: map<Key, D>, ops: seq<Op<D>>, i: nat, k: Key)
    requires i < |ops|
  {
    match ops[i]
    case OpSet(x, _, ifAbsent) => x == k && k != [] && (ifAbsent ==> k !in MapRun(m, ops[..i]))
    case OpDelete(x) => x == k
    case OpClear => true
  }

  /** The last-write law: a key holds the data of the last call that decided it, if that was a set,
      and nothing if it was a deletion or a clear; undecided keys are as before the run. */
  lemma {:induction false} LastWrite<D>(m: map<Key, D>, ops: seq<Op<D>>, k: Key, i: int)
    requires -1 <= i < |ops| && (i >= 0 ==> Decides(m, ops, i, k))
    requires forall j :: i < j < |ops| ==> !Decides(m, ops, j, k)
    ensures i == -1 ==> (k in MapRun(m, ops) <==> k in m) && (k in m ==> MapRun(m, ops)[k] == m[k])
    ensures i >= 0 && ops[i].OpSet? ==> k in MapRun(m, ops) && MapRun(m, ops)[k] == ops[i].data
    ensures i >= 0 && !ops[i].OpSet? ==> k !in MapRun(m, ops)
  {
    if ops != [] && i < |ops| - 1 {
      var before := ops[..|ops| - 1];
      assert !Decides(m, ops, |ops| - 1, k);
      forall j | 0 <= j < |before| ensures Decides(m, before, j, k) <==> Decides(m, ops, j, k) {
        assert before[..j] == ops[..j];
      }
      LastWrite(m, before, k, i);
    }
  }

  class Table<D(==)> {
    const hash: Key -> nat
    const maxSize: nat
    const hasFreeCallback: bool
    var size: nat
    var count: nat
    var items: seq<Bucket<D>>
    var order: seq<nat>              // the iterator list, by bucket index
    var freed: seq<D>                // arguments of the free callback, in call order
    ghost var content: map<Key, D>

    /** The buckets hold `content`, and the iterator list names the bucket lists. */
    ghost predicate Stored()
      reads this
    {
      size == |items| && Stores(hash, content, items) && Listed(items, order)
    }

    /** With no maximum size the load factor never exceeds 4/3. */
    ghost predicate Valid()
      reads this
    {
      && Stored() && count == |content| && size >= HT_SIZE_MIN
      && (count <= size + size / 3 || (maxSize != 0 && size >= maxSize))
    }

    constructor (initialSize: nat, maxSize: nat, hasFreeCallback: bool, hash: Key -> nat)
      ensures Valid() && content == map[] && freed == []
      ensures size == (if initialSize > HT_SIZE_MIN then initialSize else HT_SIZE_MIN)
      ensures this.maxSize == maxSize && this.hasFreeCallback == hasFreeCallback && this.hash == hash
    {
      var n := if initialSize > HT_SIZE_MIN then initialSize else HT_SIZE_MIN;
      this.size, this.maxSize, this.hasFreeCallback, this.hash := n, maxSize, hasFreeCallback, hash;
      items, order, count, freed := seq(n, _ => Absent), [], 0, [];
      content := map[];
      new;
      forall b ensures BucketAt(hash, content, items, b) { }
      forall k ensures KeyAt(hash, content, items, k) { }
    }

    /** The TAILQ_FOREACH search of a bucket list. */
    method FindItem(l: seq<Item<D>>, key: Key) returns (j: nat)
      ensures j <= |l| && (j < |l| ==> l[j].key == key)
      ensures j < |l| <==> KeyIn(l, key)
      ensures forall i :: 0 <= i < j ==> l[i].key != key
    {
      j := 0;
      while j < |l| && l[j].key != key
        invariant j <= |l| && forall i :: 0 <= i < j ==> l[i].key != key
      {
        j := j + 1;
      }
    }

    /** `ht_set_list`, when there is no list at the index yet. */
    method CreateBucket(b: nat)
      requires Stored() && b < size && items[b].Absent?
      modifies this`items, this`order
      ensures Stored() && items == old(items)[b := Present([])]
    {
      StoresCreate(hash, content, items, b);
      items := items[b := Present([])];
      ghost var before := order;
      order := order + [b];
      forall i, j ensures Differ(order, i, j) { assert Differ(before, i, j); }
      assert forall x :: x in order <==> x == b || x in before;
    }

    method AppendItem(item: Item<D>)
      requires Stored() && item.hash == hash(item.key) && item.key !in content
      requires items[item.hash % size].Present?
      modifies this`items, this`content
      ensures Stored() && content == old(content)[item.key := item.data]
      ensures var b := item.hash % size; items == old(items)[b := Present(old(items)[b].list + [item])]
    {
      StoresAppend(hash, content, items, item);
      var b := item.hash % size;
      items := items[b := Present(items[b].list + [item])];
      content := content[item.key := item.data];
    }

    method RemoveItem(b: nat, j: nat)
      requires Stored() && FoundAt(items, b, j)
      modifies this`items, this`content, this`count
      requires count == |content|
      ensures Stored() && count == |content| == old(count) - 1
      ensures var it := old(items[b].list[j]);
        it.key in old(content) && old(content)[it.key] == it.data && content == old(content) - {it.key}
      ensures items == old(items)[b := Present(old(items[b].list[..j] + items[b].list[j + 1..]))]
    {
      StoresRemove(hash, content, items, b, j);
      var l := items[b].list;
      items := items[b := Present(l[..j] + l[j + 1..])];
      content := content - {l[j].key};
      count := count - 1;
    }

    method ReplaceData(b: nat, j: nat, data: D)
      requires Stored() && FoundAt(items, b, j)
      modifies this`items, this`content
      ensures Stored() && content == old(content)[old(items[b].list[j].key) := data]
      ensures |content| == |old(content)|
      ensures var l := old(items)[b].list;
        items == old(items)[b := Present(l[j := Item(l[j].hash, l[j].key, data)])]
    {
      StoresReplace(hash, content, items, b, j, data);
      var l := items[b].list;
      items := items[b := Present(l[j := Item(l[j].hash, l[j].key, data)])];
      content := content[l[j].key := data];
    }

    method FreeData(d: D)
      modifies this`freed
      ensures freed == old(freed) + if hasFreeCallback then [d] else []
    {
      if hasFreeCallback {
        freed := freed + [d];
      }
    }

    /** The part of `ht_set_internal` between locking and unlocking the bucket list. */
    method Store(key: Key, data: D, ifAbsent: bool) returns (prev: Option<D>)
      requires Stored() && count == |content|
      modifies this`items, this`order, this`content, this`count
      ensures Stored() && count == |content|
      ensures prev == if key in old(content) then Some(old(content)[key]) else None
      ensures content == if ifAbsent && key in old(content) then old(content) else old(content)[key := data]
      ensures old(count) <= count <= old(count) + 1 && (ifAbsent && prev.Some? ==> count == old(count))
    {
      var h := hash(key);
      var b := h % size;
      if items[b].Absent? {
        CreateBucket(b);
      }
      LookupDecides(hash, content, items, key);
      var j := FindItem(items[b].list, key);
      prev := None;
      if j < |items[b].list| {
        prev := Some(items[b].list[j].data);
        if !ifAbsent {
          ReplaceData(b, j, data);
        }
      } else {
        AppendItem(Item(h, key, data));
        count := count + 1;
      }
    }

    /** `ht_set_internal` without copying. `keep` says that the caller asked for the previous value. */
    method Set(key: Key, data: D, ifAbsent: bool, keep: bool) returns (rc: int, prev: Option<D>)
      requires Valid()
      modifies this
      ensures Valid()
      ensures key == [] ==> rc == -1 && prev == None
      ensures key != [] ==> rc == (if ifAbsent && key in old(content) then 1 else 0)
      ensures key != [] ==> prev == if key in old(content) then Some(old(content)[key]) else None
      ensures rc == 0 ==> content == old(content)[key := data]
      ensures rc != 0 ==> content == old(content)
      ensures var full := |content| > old(size) + old(size) / 3 && (maxSize == 0 || old(size) < maxSize);
        size == if rc != 0 || !full then old(size)
                else if maxSize != 0 && 2 * old(size) > maxSize then maxSize else 2 * old(size)
      ensures freed == old(freed) + if rc == 0 && prev.Some? && !keep && hasFreeCallback then [prev.value] else []
    {
      rc, prev := -1, None;
      if |key| > 0 {
        prev := Store(key, data, ifAbsent);
        if ifAbsent && prev.Some? {
          rc := 1;
        } else {
          if count > size + size / 3 && (maxSize == 0 || size < maxSize) {
            Grow();
          }
          if prev.Some? && !keep {
            FreeData(prev.value);
          }
          rc := 0;
        }
      }
    }

    /** `ht_grow_table`: twice the size, at most `maxSize`; no lookup changes. */
    method Grow()
      requires Stored() && (maxSize == 0 || size < maxSize)
      modifies this`items, this`order, this`content, this`size
      ensures Stored() && content == old(content)
      ensures size == (if maxSize != 0 && 2 * old(size) > maxSize then maxSize else 2 * old(size))
    {
      ghost var before := content;
      var oldItems, oldOrder := items, order;
      var newSize := 2 * size;
      if maxSize != 0 && newSize > maxSize {
        newSize := maxSize;
      }
      Reset(newSize);
      for i := 0 to |oldOrder|
        invariant Stored() && size == newSize && Moved(before, content, oldItems, oldOrder[..i])
      {
        var b := oldOrder[i];
        assert b in oldOrder;
        OnlyAt(oldOrder, i);
        MoveBucket(oldItems[b].list, before, oldItems, oldOrder[..i], b);
        assert oldOrder[..i + 1] == oldOrder[..i] + [b];
      }
      assert oldOrder[..|oldOrder|] == oldOrder;
      MovedAll(before, content, oldItems, oldOrder);
    }

    /** A new array of empty slots takes the place of the old one. */
    method Reset(newSize: nat)
      requires newSize > 0
      modifies this`items, this`order, this`content, this`size
      ensures Stored() && content == map[] && size == newSize
    {
      items, order, size := seq(newSize, _ => Absent), [], newSize;
      content := map[];
      forall b ensures BucketAt(hash, content, items, b) { }
      forall k ensures KeyAt(hash, content, items, k) { }
    }

    ghost predicate MovedAt(m: map<Key, D>, m': map<Key, D>, items: seq<Bucket<D>>, done: seq<nat>, k: Key)
    {
      |items| > 0 ==>
        && (k in m' <==> k in m && hash(k) % |items| in done)
        && (k in m' && k in m ==> m'[k] == m[k])
    }

    /** The pairs of `m` in the buckets `done` of `items`, and no others, are in `m'`. */
    ghost predicate Moved(m: map<Key, D>, m': map<Key, D>, items: seq<Bucket<D>>, done: seq<nat>)
    {
      Stores(hash, m, items) && forall k :: MovedAt(m, m', items, done, k)
    }

    lemma MovedAll(m: map<Key, D>, m': map<Key, D>, items: seq<Bucket<D>>, order: seq<nat>)
      requires Moved(m, m', items, order) && Listed(items, order)
      ensures m' == m
    {
      forall k ensures (k in m' <==> k in m) && (k in m ==> m'[k] == m[k]) {
        assert MovedAt(m, m', items, order, k) && KeyAt(hash, m, items, k);
      }
    }

    /** The inner loop of `ht_grow_table`: the items of one old list, one by one. */
    method MoveBucket(l: seq<Item<D>>, ghost m: map<Key, D>, ghost oldItems: seq<Bucket<D>>,
                      ghost done: seq<nat>, ghost b: nat)
      requires Stored() && Moved(m, content, oldItems, done)
      requires b < |oldItems| && oldItems[b] == Present(l) && b !in done
      modifies this`items, this`order, this`content
      ensures Stored() && Moved(m, content, oldItems, done + [b])
    {
      ghost var start := content;
      var rest := l;
      ghost var i := 0;
      forall k | k in content ensures k in m && content[k] == m[k] { assert MovedAt(m, start, oldItems, done, k); }
      while rest != []
        invariant Stored() && i <= |l| && rest == l[i..]
        invariant forall k :: k in content <==> k in start || KeyIn(l[..i], k)
        invariant forall k :: k in content ==> k in m && content[k] == m[k]
        decreases |rest|
      {
        var item := rest[0];
        assert item == l[i];
        FreshItem(m, start, oldItems, done, b, l, i);
        var c := item.hash % size;
        if items[c].Absent? {
          CreateBucket(c);
        }
        rest := rest[1..];
        AppendItem(item);
        KeyInSnoc(l, i);
        i := i + 1;
      }
      assert l[..i] == l;
      MovedOne(m, start, content, oldItems, done, b);
    }

    lemma FreshItem(m: map<Key, D>, start: map<Key, D>, oldItems: seq<Bucket<D>>, done: seq<nat>, b: nat,
                    l: seq<Item<D>>, i: nat)
      requires Moved(m, start, oldItems, done) && b < |oldItems| && oldItems[b] == Present(l) && b !in done && i < |l|
      ensures l[i].hash == hash(l[i].key) && l[i].key in m && m[l[i].key] == l[i].data
      ensures l[i].key !in start && !KeyIn(l[..i], l[i].key)
    {
      assert BucketAt(hash, m, oldItems, b) && ItemAt(hash, |oldItems|, m, l, b, i);
      assert MovedAt(m, start, oldItems, done, l[i].key);
      forall j | 0 <= j < i ensures l[..i][j].key != l[i].key { assert KeysDiffer(l, j, i); }
    }

    lemma MovedOne(m: map<Key, D>, start: map<Key, D>, m': map<Key, D>, oldItems: seq<Bucket<D>>,
                   done: seq<nat>, b: nat)
      requires Moved(m, start, oldItems, done) && b < |oldItems| && oldItems[b].Present?
      requires forall k :: k in m' <==> k in start || KeyIn(oldItems[b].list, k)
      requires forall k :: k in m' ==> k in m && m'[k] == m[k]
      ensures Moved(m, m', oldItems, done + [b])
    {
      forall k ensures MovedAt(m, m', oldItems, done + [b], k) {
        assert MovedAt(m, start, oldItems, done, k);
        assert KeyAt(hash, m, oldItems, k) && BucketAt(hash, m, oldItems, b);
        if KeyIn(oldItems[b].list, k) {
          var j :| 0 <= j < |oldItems[b].list| && oldItems[b].list[j].key == k;
          assert ItemAt(hash, |oldItems|, m, oldItems[b].list, b, j);
        }
      }
    }

    /** `ht_get`. */
    method Get(key: Key) returns (data: Option<D>)
      requires Valid()
      ensures data == if key in content then Some(content[key]) else None
    {
      LookupDecides(hash, content, items, key);
      data := None;
      var slot := items[hash(key) % size];
      if slot.Present? {
        var j := FindItem(slot.list, key);
        if j < |slot.list| {
          data := Some(slot.list[j].data);
        }
      }
    }

    /** `ht_exists`. */
    method Exists(key: Key) returns (found: bool)
      requires Valid()
      ensures found <==> key in content
    {
      var data := Get(key);
      found := data.Some?;
    }

    /** `ht_delete_internal`: with an expected value only a pair with that value is deleted. */
    method Delete(key: Key, expected: Option<D>, keep: bool) returns (rc: int, prev: Option<D>)
      requires Valid()
      modifies this
      ensures Valid() && size == old(size)
      ensures rc == if key in old(content) && (expected.None? || expected.value == old(content)[key]) then 0 else -1
      ensures rc == 0 ==> content == old(content) - {key} && prev == Some(old(content)[key])
      ensures rc == -1 ==> content == old(content) && prev == None && freed == old(freed)
      ensures rc == 0 ==> freed == old(freed) + if !keep && hasFreeCallback then [prev.value] else []
    {
      LookupDecides(hash, content, items, key);
      rc, prev := -1, None;
      var b := hash(key) % size;
      if items[b].Present? {
        var j := FindItem(items[b].list, key);
        if j < |items[b].list| {
          var data := items[b].list[j].data;
          if expected.None? || expected.value == data {
            if !keep {
              FreeData(data);
            }
            RemoveItem(b, j);
            rc, prev := 0, Some(data);
          }
        }
      }
    }

    method DropBucket(b: nat)
      requires Stored() && order != [] && order[0] == b < size && items[b] == Present([])
      modifies this`items, this`order
      ensures Stored() && order == old(order)[1..]
    {
      StoresDrop(hash, content, items, b);
      items := items[b := Absent];
      ghost var before := order;
      OnlyAt(before, 0);
      order := order[1..];
      forall i, j ensures Differ(order, i, j) { assert Differ(before, i + 1, j + 1); }
      assert before == [b] + order;
      assert b !in order && forall x :: x in before <==> x == b || x in order;
    }

    /** `ht_clear`: the table is empty and every stored value was given up exactly once. */
    method Clear() returns (ghost keys: seq<Key>, ghost gone: seq<D>)
      requires Valid()
      modifies this
      ensures Valid() && content == map[] && count == 0 && order == [] && size == old(size)
      ensures Gone(old(content), map[], keys, gone)
      ensures freed == old(freed) + if hasFreeCallback then gone else []
    {
      ghost var m, f := content, freed;
      keys, gone := [], [];
      forall k ensures GoneAt(m, m, [], k) { }
      while order != []
        invariant Stored() && count == |content| && size == old(size) && count <= old(count)
        invariant Gone(m, content, keys, gone) && freed == f + if hasFreeCallback then gone else []
        decreases |order|
      {
        var b := order[0];
        assert b in order;
        keys, gone := ClearBucket(b, m, keys, gone, f);
        DropBucket(b);
      }
      forall b | 0 <= b < |items| ensures items[b].Absent? { assert b !in order; }
      StoresNothing(hash, content, items);
    }

    /** The inner loop of `ht_clear`. */
    method ClearBucket(b: nat, ghost m: map<Key, D>, ghost keys0: seq<Key>, ghost gone0: seq<D>, ghost f: seq<D>)
      returns (ghost keys: seq<Key>, ghost gone: seq<D>)
      requires Stored() && count == |content| && b < size && items[b].Present?
      requires Gone(m, content, keys0, gone0) && freed == f + if hasFreeCallback then gone0 else []
      modifies this`items, this`content, this`count, this`freed
      ensures Stored() && count == |content| <= old(count) && items == old(items)[b := Present([])]
      ensures Gone(m, content, keys, gone) && freed == f + if hasFreeCallback then gone else []
    {
      keys, gone := keys0, gone0;
      while items[b].list != []
        invariant Stored() && count == |content| <= old(count)
        invariant |items| == |old(items)| && items[b].Present? && items == old(items)[b := items[b]]
        invariant Gone(m, content, keys, gone) && freed == f + if hasFreeCallback then gone else []
        decreases |items[b].list|
      {
        var item := items[b].list[0];
        StoresRemove(hash, content, items, b, 0);
        GoneStep(m, content, keys, gone, item.key);
        RemoveItem(b, 0);
        FreeData(item.data);
        keys, gone := keys + [item.key], gone + [item.data];
      }
    }

    /** Any run of calls leaves what the same run leaves of a plain map. */
    method Replay(ops: seq<Op<D>>)
      requires Valid()
      modifies this
      ensures Valid() && content == MapRun(old(content), ops)
    {
      ghost var m := content;
      for i := 0 to |ops|
        invariant Valid() && content == MapRun(m, ops[..i])
      {
        assert ops[..i + 1][..i] == ops[..i];
        match ops[i]
        case OpSet(k, d, ifAbsent) => var _, _ := Set(k, d, ifAbsent, false);
        case OpDelete(k) => var _, _ := Delete(k, None, false);
        case OpClear => var _, _ := Clear();
      }
      assert ops[..|ops|] == ops;
    }
  }
}
