/**
 The doubly linked list of `linklist.c`, with its cached cursor.
 */
module LinkedList {
  import opened Sequences

  class Entry<V> {
    var list: List?<V>
    var prev: Entry?<V>
    var next: Entry?<V>
    var value: V

    constructor (v: V)
      ensures value == v && list == null && prev == null && next == null
    {
      value, list, prev, next := v, null, null, null;
    }
  }

  ghost function At<V>(s: seq<Entry<V>>, i: int): Entry?<V>
  {
    if 0 <= i < |s| then s[i] else null
  }

  ghost predicate LinkAt<V>(s: seq<Entry<V>>, i: int)
    reads s
  {
    0 <= i < |s| ==> s[i].prev == At(s, i - 1) && s[i].next == At(s, i + 1)
  }

  /** The entries of `s`, in this order, are linked both ways. */
  ghost predicate Chain<V>(s: seq<Entry<V>>)
    reads s
  {
    Unique(s) && forall i :: LinkAt(s, i)
  }

  ghost function Without<T>(s: seq<T>, i: nat): (r: seq<T>)
    requires i < |s|
    ensures |r| == |s| - 1
    ensures forall k :: 0 <= k < |r| ==> r[k] == if k < i then s[k] else s[k + 1]
  {
    s[..i] + s[i + 1..]
  }

  ghost function With<T>(s: seq<T>, i: nat, x: T): (r: seq<T>)
    requires i <= |s|
    ensures |r| == |s| + 1
    ensures forall k :: 0 <= k < |r| ==> r[k] == if k < i then s[k] else if k == i then x else s[k - 1]
  {
    s[..i] + [x] + s[i..]
  }

  lemma UniqueWithout<V>(s: seq<Entry<V>>, i: nat)
    requires Unique(s) && i < |s|
    ensures Unique(Without(s, i)) && s[i] !in Without(s, i)
  {
    var r := Without(s, i);
    OnlyAt(s, i);
    forall a, b ensures Differ(r, a, b) {
      assert Differ(s, if a < i then a else a + 1, if b < i then b else b + 1);
    }
  }

  lemma UniqueWith<V>(s: seq<Entry<V>>, i: nat, e: Entry<V>)
    requires Unique(s) && i <= |s| && e !in s
    ensures Unique(With(s, i, e))
  {
    var r := With(s, i, e);
    forall a, b ensures Differ(r, a, b) {
      assert Differ(s, if a < i then a else a - 1, if b < i then b else b - 1);
    }
  }

  ghost predicate ValueAt<V>(s: seq<Entry<V>>, v: seq<V>, i: int)
    reads s
  {
    0 <= i < |s| && i < |v| ==> s[i].value == v[i]
  }

  ghost predicate Values<V>(s: seq<Entry<V>>, v: seq<V>)
    reads s
  {
    |v| == |s| && forall i :: ValueAt(s, v, i)
  }

  lemma ValuesWithout<V>(s: seq<Entry<V>>, v: seq<V>, i: nat)
    requires Values(s, v) && i < |s|
    ensures Values(Without(s, i), Without(v, i)) && s[i].value == v[i]
  {
    forall k ensures ValueAt(Without(s, i), Without(v, i), k) {
      assert ValueAt(s, v, if k < i then k else k + 1);
    }
    assert ValueAt(s, v, i);
  }

  lemma ValuesWith<V>(s: seq<Entry<V>>, v: seq<V>, i: nat, e: Entry<V>)
    requires Values(s, v) && i <= |s|
    ensures Values(With(s, i, e), With(v, i, e.value))
  {
    forall k ensures ValueAt(With(s, i, e), With(v, i, e.value), k) {
      assert ValueAt(s, v, if k < i then k else k - 1);
    }
  }

  /** Take an entry out of a chain. Its own links are left as they were. */
  method Unhook<V>(entry: Entry<V>, ghost s: seq<Entry<V>>, ghost v: seq<V>, ghost i: nat)
    requires Chain(s) && Values(s, v) && i < |s| && s[i] == entry
    modifies s`prev, s`next
    ensures Chain(Without(s, i)) && Values(Without(s, i), Without(v, i)) && entry.value == v[i]
    ensures entry.prev == At(s, i - 1) && entry.next == At(s, i + 1)
  {
    OnlyAt(s, i - 1);
    OnlyAt(s, i + 1);
    UniqueWithout(s, i);
    assert forall k :: LinkAt(s, k);
    assert LinkAt(s, i);
    var prev, next := entry.prev, entry.next;
    if prev != null {
      prev.next := next;
    }
    if next != null {
      next.prev := prev;
    }
    forall k ensures LinkAt(Without(s, i), k) {
      assert old(LinkAt(s, if k < i then k else k + 1));
    }
    forall k ensures ValueAt(s, v, k) {
      assert old(ValueAt(s, v, k));
    }
    ValuesWithout(s, v, i);
  }

  /** Take an entry out and leave it unlinked. */
  method Cut<V>(entry: Entry<V>, ghost s: seq<Entry<V>>, ghost v: seq<V>, ghost i: nat)
    requires Chain(s) && Values(s, v) && i < |s| && s[i] == entry
    modifies s`prev, s`next, entry`list
    ensures Chain(Without(s, i)) && Values(Without(s, i), Without(v, i)) && entry.value == v[i]
    ensures entry !in Without(s, i)
    ensures entry.list == null && entry.prev == null && entry.next == null
  {
    UniqueWithout(s, i);
    Unhook(entry, s, v, i);
    label before:
    entry.list := null;
    entry.prev := null;
    entry.next := null;
    forall k ensures LinkAt(Without(s, i), k) {
      assert old@before(LinkAt(Without(s, i), k));
    }
    forall k ensures ValueAt(Without(s, i), Without(v, i), k) {
      assert old@before(ValueAt(Without(s, i), Without(v, i), k));
    }
  }

  lemma EndsWithout<V>(s: seq<Entry<V>>, i: nat)
    requires i < |s|
    ensures At(Without(s, i), 0) == if i == 0 then At(s, 1) else s[0]
    ensures At(Without(s, i), |s| - 2) == if i == |s| - 1 then At(s, |s| - 2) else s[|s| - 1]
  {
  }

  lemma CursorWithout<V>(s: seq<Entry<V>>, pos: nat, p: nat)
    requires p < |s|
    ensures pos < |s| && pos != p ==>
      var q := if pos > p then pos - 1 else pos; q < |s| - 1 && Without(s, p)[q] == s[pos]
  {
  }

  lemma PadMore<V>(c: seq<V>, n: nat, nil: V)
    ensures var s := c + seq(n, _ => nil); With(s, |s|, nil) == c + seq(n + 1, _ => nil)
  {
  }

  lemma CursorMoves<V>(s: seq<Entry<V>>, e: Entry<V>, p: nat)
    ensures p < |s| ==> With(s, 0, e)[p + 1] == s[p]
  {
  }

  lemma EndsWith<V>(s: seq<Entry<V>>, i: nat, e: Entry<V>)
    requires i <= |s|
    ensures At(With(s, i, e), 0) == if i == 0 then e else s[0]
    ensures At(With(s, i, e), |s|) == if i == |s| then e else s[|s| - 1]
  {
  }

  /** Put an entry into a chain, between two neighbours. */
  method Hook<V>(entry: Entry<V>, prev: Entry?<V>, next: Entry?<V>,
                 ghost s: seq<Entry<V>>, ghost v: seq<V>, ghost i: nat)
    requires Chain(s) && Values(s, v) && i <= |s| && entry !in s && prev == At(s, i - 1) && next == At(s, i)
    modifies s`prev, s`next, entry`prev, entry`next
    ensures Chain(With(s, i, entry)) && Values(With(s, i, entry), With(v, i, entry.value))
  {
    OnlyAt(s, i - 1);
    OnlyAt(s, i);
    UniqueWith(s, i, entry);
    entry.prev := prev;
    entry.next := next;
    if prev != null {
      prev.next := entry;
    }
    if next != null {
      next.prev := entry;
    }
    forall k ensures LinkAt(With(s, i, entry), k) {
      assert old(LinkAt(s, if k < i then k else k - 1));
    }
    forall k ensures ValueAt(s, v, k) {
      assert old(ValueAt(s, v, k));
    }
    ValuesWith(s, v, i, entry);
  }

  ghost predicate OwnedAt<V>(list: List<V>, s: seq<Entry<V>>, i: int)
    reads s
  {
    0 <= i < |s| ==> s[i].list == list
  }

  /** Every entry knows its list; true for entries that came in by push or unshift. */
  ghost predicate Owned<V>(list: List<V>, s: seq<Entry<V>>)
    reads s
  {
    forall i :: OwnedAt(list, s, i)
  }

  lemma OwnedWith<V>(list: List<V>, s: seq<Entry<V>>, i: nat, e: Entry<V>)
    requires Owned(list, s) && i <= |s| && e.list == list
    ensures Owned(list, With(s, i, e))
  {
    forall k ensures OwnedAt(list, With(s, i, e), k) {
      assert OwnedAt(list, s, if k < i then k else k - 1);
    }
  }

  class List<V> {
    const nil: V                      // what a NULL value pointer is
    var head: Entry?<V>
    var tail: Entry?<V>
    var cur: Entry?<V>
    var pos: nat
    var length: nat
    ghost var nodes: seq<Entry<V>>
    ghost var contents: seq<V>        // the values, in order

    ghost predicate Linked()
      reads this, nodes
    {
      && Chain(nodes) && Values(nodes, contents)
      && head == At(nodes, 0) && tail == At(nodes, |nodes| - 1) && length == |nodes|
    }

    ghost predicate Valid()
      reads this, nodes
    {
      Linked() && (cur != null ==> pos < |nodes| && cur == nodes[pos])
    }

    /** Not in this list, and not linked to anything. */
    ghost predicate Detached(e: Entry<V>)
      reads this, e
    {
      e !in nodes && e.prev == null && e.next == null
    }

    constructor (nil: V)
      ensures Valid() && nodes == [] && contents == [] && this.nil == nil
    {
      this.nil := nil;
      head, tail, cur, pos, length := null, null, null, 0, 0;
      nodes, contents := [], [];
    }

    /** What popping, shifting and removing share: the links and the length. */
    method Extract(entry: Entry<V>, ghost i: nat)
      requires Chain(nodes) && Values(nodes, contents) && length == |nodes| && i < |nodes| && entry == nodes[i]
      modifies this`length, this`nodes, this`contents, nodes`prev, nodes`next, entry`list
      ensures nodes == Without(old(nodes), i) && contents == Without(old(contents), i)
      ensures Chain(nodes) && Values(nodes, contents) && length == |nodes|
      ensures Detached(entry) && entry.list == null && entry.value == old(contents[i])
    {
      Cut(entry, nodes, contents, i);
      length := length - 1;
      nodes, contents := Without(nodes, i), Without(contents, i);
    }

    method PopEntry() returns (entry: Entry?<V>)
      requires Valid()
      modifies this, nodes
      ensures Valid()
      ensures old(nodes) == [] ==> entry == null && nodes == [] && contents == []
      ensures old(nodes) != [] ==>
        && entry == old(nodes[|nodes| - 1]) && Detached(entry) && entry.list == null
        && entry.value == old(contents[|contents| - 1])
        && nodes == Without(old(nodes), |old(nodes)| - 1)
        && contents == Without(old(contents), |old(contents)| - 1)
    {
      entry := tail;
      if entry != null {
        TakeLast(entry);
      }
      if length == 0 {
        head := null;
        tail := null;
      }
    }

    /** `pop_entry` on a list that is not empty, up to its last test. */
    method TakeLast(entry: Entry<V>)
      requires Valid() && nodes != [] && entry == tail
      modifies this`tail, this`cur, this`length, this`nodes, this`contents, nodes`prev, nodes`next, entry`list
      ensures nodes == Without(old(nodes), |old(nodes)| - 1) && contents == Without(old(contents), |old(contents)| - 1)
      ensures Chain(nodes) && Values(nodes, contents) && length == |nodes| && tail == At(nodes, |nodes| - 1)
      ensures nodes != [] ==> head == nodes[0]
      ensures Detached(entry) && entry.list == null && entry.value == old(contents[|contents| - 1])
      ensures cur != null ==> pos < |nodes| && cur == nodes[pos]
    {
      ghost var n := |nodes| - 1;
      EndsWithout(nodes, n);
      OnlyAt(nodes, n);
      assert LinkAt(nodes, n);
      tail := entry.prev;
      Extract(entry, n);
      if cur == entry {
        cur := null;
      }
    }

    /** What pushing and unshifting share: the links, the length and the owner. */
    method Attach(entry: Entry<V>, prev: Entry?<V>, next: Entry?<V>, ghost i: nat)
      requires Linked() && Detached(entry) && i <= |nodes| && prev == At(nodes, i - 1) && next == At(nodes, i)
      modifies this`length, this`nodes, this`contents
      modifies nodes`prev, nodes`next, entry`prev, entry`next, entry`list
      ensures nodes == With(old(nodes), i, entry) && contents == With(old(contents), i, entry.value)
      ensures Chain(nodes) && Values(nodes, contents) && length == |nodes| && entry.list == this
      ensures old(Owned(this, nodes)) ==> Owned(this, nodes)
    {
      entry.list := this;
      Hook(entry, prev, next, nodes, contents, i);
      if old(Owned(this, nodes)) {
        forall k ensures OwnedAt(this, nodes, k) { assert old(OwnedAt(this, nodes, k)); }
        OwnedWith(this, nodes, i, entry);
      }
      Enlist(entry, i);
    }

    /** The length, once the links are in place. */
    method Enlist(entry: Entry<V>, ghost i: nat)
      requires i <= |nodes| == |contents| && length == |nodes|
      requires Chain(With(nodes, i, entry)) && Values(With(nodes, i, entry), With(contents, i, entry.value))
      modifies this`length, this`nodes, this`contents
      ensures nodes == With(old(nodes), i, entry) && contents == With(old(contents), i, entry.value)
      ensures Chain(nodes) && Values(nodes, contents) && length == |nodes|
    {
      length := length + 1;
      nodes, contents := With(nodes, i, entry), With(contents, i, entry.value);
    }

    method PushEntry(entry: Entry<V>) returns (rc: int)
      requires Valid() && Detached(entry)
      modifies this, nodes`prev, nodes`next, entry`prev, entry`next, entry`list
      ensures Valid() && rc == 0 && entry.list == this && entry.value == old(entry.value)
      ensures nodes == With(old(nodes), |old(nodes)|, entry)
      ensures contents == With(old(contents), |old(contents)|, entry.value)
      ensures old(Owned(this, nodes)) ==> Owned(this, nodes)
    {
      EndsWith(nodes, |nodes|, entry);
      Attach(entry, tail, null, |nodes|);
      if length == 1 {
        head := entry;
      }
      tail := entry;
      rc := 0;
    }

    method ShiftEntry() returns (entry: Entry?<V>)
      requires Valid()
      modifies this, nodes
      ensures Valid()
      ensures old(nodes) == [] ==> entry == null && nodes == [] && contents == []
      ensures old(nodes) != [] ==>
        && entry == old(nodes[0]) && Detached(entry) && entry.list == null && entry.value == old(contents[0])
        && nodes == Without(old(nodes), 0) && contents == Without(old(contents), 0)
    {
      entry := head;
      if entry != null {
        TakeFirst(entry);
      }
      if length == 0 {
        head := null;
        tail := null;
      }
    }

    /** `shift_entry` on a list that is not empty, up to its last test. */
    method TakeFirst(entry: Entry<V>)
      requires Valid() && nodes != [] && entry == head
      modifies this`head, this`cur, this`pos, this`length, this`nodes, this`contents
      modifies nodes`prev, nodes`next, entry`list
      ensures nodes == Without(old(nodes), 0) && contents == Without(old(contents), 0)
      ensures Chain(nodes) && Values(nodes, contents) && length == |nodes| && head == At(nodes, 0)
      ensures nodes != [] ==> tail == nodes[|nodes| - 1]
      ensures Detached(entry) && entry.list == null && entry.value == old(contents[0])
      ensures cur != null ==> pos < |nodes| && cur == nodes[pos]
    {
      EndsWithout(nodes, 0);
      assert LinkAt(nodes, 0);
      head := entry.next;
      Extract(entry, 0);
      if cur == entry {
        cur := null;
      } else if pos > 0 {
        pos := pos - 1;
      }
    }

    method UnshiftEntry(entry: Entry<V>) returns (rc: int)
      requires Valid() && Detached(entry)
      modifies this, nodes`prev, nodes`next, entry`prev, entry`next, entry`list
      ensures Valid() && rc == 0 && entry.list == this && entry.value == old(entry.value)
      ensures nodes == With(old(nodes), 0, entry) && contents == With(old(contents), 0, entry.value)
      ensures old(Owned(this, nodes)) ==> Owned(this, nodes)
    {
      EndsWith(nodes, 0, entry);
      CursorMoves(nodes, entry, pos);
      Attach(entry, null, head, 0);
      Lead(entry);
      rc := 0;
    }

    /** The end of `unshift_entry`: head, tail and cursor position. */
    method Lead(entry: Entry<V>)
      modifies this`head, this`tail, this`pos
      ensures head == entry && tail == (if length == 1 then entry else old(tail))
      ensures pos == if cur != null then old(pos) + 1 else old(pos)
    {
      if length == 1 {
        tail := entry;
      }
      head := entry;
      if cur != null {
        pos := pos + 1;
      }
    }

    /** Whichever of its four walks it takes, the entry at `p` is found and cached. */
    method PickEntry(p: nat) returns (entry: Entry?<V>)
      requires Valid()
      modifies this`cur, this`pos
      ensures Valid()
      ensures p >= |nodes| ==> entry == null && cur == old(cur) && pos == old(pos)
      ensures p < |nodes| ==> entry == nodes[p] && cur == entry && pos == p
    {
      if length <= p {
        return null;
      }
      var half := length / 2;
      var distance := if pos < p then p - pos else pos - p;
      if cur != null && distance < half {
        entry := cur;
        if pos < p {
          for i := pos to p
            invariant entry == nodes[i]
          {
            assert LinkAt(nodes, i);
            entry := entry.next;
          }
        } else if pos > p {
          for i := pos downto p
            invariant entry == nodes[i]
          {
            assert LinkAt(nodes, i + 1);
            entry := entry.prev;
          }
        }
      } else if p > half {
        entry := tail;
        for i := length - 1 downto p
          invariant entry == nodes[i]
        {
          assert LinkAt(nodes, i + 1);
          entry := entry.prev;
        }
      } else {
        entry := head;
        for i := 0 to p
          invariant entry == nodes[i]
        {
          assert LinkAt(nodes, i);
          entry := entry.next;
        }
      }
      pos := p;
      cur := entry;
    }

    /** The body of `remove_entry`, for the entry just picked. */
    method RemovePicked(entry: Entry<V>, p: nat)
      requires Valid() && p < |nodes| && entry == nodes[p]
      modifies this, nodes
      ensures Chain(nodes) && Values(nodes, contents) && length == |nodes|
      ensures cur != null ==> pos < |nodes| && cur == nodes[pos]
      ensures nodes == Without(old(nodes), p) && contents == Without(old(contents), p)
      ensures Detached(entry) && entry.list == null && entry.value == old(contents[p])
      ensures head == At(nodes, 0)
      ensures tail == if p == 0 && |old(nodes)| == 1 then entry else At(nodes, |nodes| - 1)
    {
      assert LinkAt(nodes, p);
      OnlyAt(nodes, p);
      EndsWithout(nodes, p);
      var prev, next := entry.prev, entry.next;
      CutEnds(prev, next, p);
      CursorWithout(nodes, pos, p);
      ghost var s := nodes;
      Extract(entry, p);
      assert |nodes| == |s| - 1 && At(nodes, |nodes| - 1) == At(Without(s, p), |s| - 2);
      MoveCursor(entry, p);
    }

    /** Head and tail when the entry at `p` leaves. */
    method CutEnds(prev: Entry?<V>, next: Entry?<V>, p: nat)
      requires Chain(nodes) && Values(nodes, contents)
      modifies this`head, this`tail
      ensures Chain(nodes) && Values(nodes, contents)
      ensures head == if p == 0 then next else old(head)
      ensures tail == if p != 0 && p == length - 1 then prev else old(tail)
    {
      if p == 0 {
        head := next;
      } else if p == length - 1 {
        tail := prev;
      }
    }

    /** The cursor after the entry that was at `p` has left. */
    method MoveCursor(entry: Entry<V>, p: nat)
      requires Chain(nodes) && Values(nodes, contents)
      modifies this`cur, this`pos
      ensures Chain(nodes) && Values(nodes, contents)
      ensures cur == if old(cur) == entry then null else old(cur)
      ensures cur != null ==> pos == if old(pos) > p then old(pos) - 1 else old(pos)
    {
      if cur == entry {
        cur := null;
        pos := 0;
      } else if pos > p {
        pos := pos - 1;
      }
    }

    method ForgetCursor()
      requires Linked()
      modifies this`cur, this`pos
      ensures Valid() && cur == null && pos == 0
    {
      cur := null;
      pos := 0;
    }

    /** `remove_entry`. Unlinking the only entry leaves `tail` pointing at it; every other call
        leaves a well-formed list. `fetch_entry` never makes that call. */
    method RemoveEntry(p: nat) returns (entry: Entry?<V>)
      requires Valid()
      modifies this, nodes
      ensures Valid() <==> !(p == 0 && |old(nodes)| == 1)
      ensures p >= |old(nodes)| ==> entry == null && nodes == old(nodes) && contents == old(contents)
      ensures p < |old(nodes)| ==>
        && entry == old(nodes[p]) && Detached(entry) && entry.list == null && entry.value == old(contents[p])
        && nodes == Without(old(nodes), p) && contents == Without(old(contents), p)
    {
      entry := PickEntry(p);
      if entry != null {
        RemovePicked(entry, p);
      }
    }

    method FetchEntry(p: nat) returns (entry: Entry?<V>)
      requires Valid()
      modifies this, nodes
      ensures Valid()
      ensures p >= |old(nodes)| ==> entry == null && nodes == old(nodes) && contents == old(contents)
      ensures p < |old(nodes)| ==>
        && entry == old(nodes[p]) && Detached(entry) && entry.list == null && entry.value == old(contents[p])
        && nodes == Without(old(nodes), p) && contents == Without(old(contents), p)
    {
      if p == 0 {
        entry := ShiftEntry();
      } else if p == length - 1 {
        entry := PopEntry();
      } else {
        entry := RemoveEntry(p);
      }
    }

    /** Linking an entry behind the one at `p - 1`. Its `list` field is not set here. */
    method InsertAfter(prev: Entry<V>, entry: Entry<V>, ghost p: nat)
      requires Valid() && Detached(entry) && 0 < p < |nodes| && prev == nodes[p - 1]
      requires cur != null ==> pos < p
      modifies this`length, this`nodes, this`contents, nodes, entry
      ensures Valid() && entry.value == old(entry.value) && entry.list == old(entry.list)
      ensures nodes == With(old(nodes), p, entry) && contents == With(old(contents), p, entry.value)
    {
      assert LinkAt(nodes, p - 1);
      EndsWith(nodes, p, entry);
      Hook(entry, prev, prev.next, nodes, contents, p);
      Enlist(entry, p);
    }

    /** The padding loop of `insert_entry`: NULL values up to position `p`. */
    method Pad(p: nat)
      requires Valid() && p >= |nodes|
      modifies this, nodes
      ensures Valid() && |nodes| == p
      ensures old(nodes) <= nodes && (forall i :: |old(nodes)| <= i < p ==> fresh(nodes[i]))
      ensures contents == old(contents) + seq(p - |old(nodes)|, _ => nil)
    {
      ghost var before := nodes;
      for i := length to p
        invariant Valid() && |nodes| == i && before <= nodes
        invariant forall k :: |before| <= k < i ==> fresh(nodes[k])
        invariant contents == old(contents) + seq(i - |before|, _ => nil)
      {
        PadMore(old(contents), i - |before|, nil);
        var empty := new Entry(nil);
        var _ := PushEntry(empty);
      }
    }

    /** `insert_entry`: positions beyond the end are first filled with NULL values. */
    method InsertEntry(entry: Entry<V>, p: nat) returns (rc: int)
      requires Valid() && Detached(entry)
      modifies this, nodes, entry
      ensures Valid() && rc == 0 && entry.value == old(entry.value)
      ensures p <= |old(nodes)| ==>
        nodes == With(old(nodes), p, entry) && contents == With(old(contents), p, entry.value)
      ensures p > |old(nodes)| ==>
        && |nodes| == p + 1 && old(nodes) <= nodes && nodes[p] == entry
        && (forall i :: |old(nodes)| <= i < p ==> fresh(nodes[i]))
        && contents == old(contents) + seq(p - |old(nodes)|, _ => nil) + [entry.value]
    {
      if p == 0 {
        rc := UnshiftEntry(entry);
      } else if p == length {
        rc := PushEntry(entry);
      } else if p > length {
        Pad(p);
        rc := PushEntry(entry);
      } else {
        var prev := PickEntry(p - 1);
        InsertAfter(prev, entry, p);
        rc := 0;
      }
    }

    /** `move_entry`, within range: the sequence operation "take out at `src`, put in at `dst`". */
    method MoveEntry(src: nat, dst: nat) returns (rc: int)
      requires Valid()
      modifies this, nodes
      ensures Valid()
      ensures src >= |old(nodes)| ==> rc == -1 && nodes == old(nodes) && contents == old(contents)
      ensures src < |old(nodes)| ==> rc == 0
      ensures src < |old(nodes)| && dst < |old(nodes)| ==>
        && nodes == With(Without(old(nodes), src), dst, old(nodes[src]))
        && contents == With(Without(old(contents), src), dst, old(contents[src]))
      ensures src < |old(nodes)| <= dst ==>
        contents == Without(old(contents), src) + seq(dst + 1 - |old(nodes)|, _ => nil) + [old(contents[src])]
    {
      var e := FetchEntry(src);
      if e != null {
        rc := InsertEntry(e, dst);
        if rc == 0 {
          return 0;
        }
      }
      rc := -1;
    }

    /** `swap_entries`: exactly the two positions are exchanged. */
    method SwapEntries(p1: nat, p2: nat) returns (rc: int)
      requires Valid() && p1 < |nodes| && p2 < |nodes|
      modifies this, nodes
      ensures Valid() && rc == if p1 == p2 then -1 else 0
      ensures nodes == old(nodes[p1 := nodes[p2]][p2 := nodes[p1]])
      ensures contents == old(contents[p1 := contents[p2]][p2 := contents[p1]])
    {
      if p2 > p1 {
        ExchangeForward(p1, p2);
        rc := 0;
      } else if p1 > p2 {
        ExchangeForward(p2, p1);
        rc := 0;
      } else {
        rc := -1;
      }
    }

    /** Both branches of `swap_entries` are this sequence of calls, for lo < hi. */
    method ExchangeForward(lo: nat, hi: nat)
      requires Valid() && lo < hi < |nodes|
      modifies this, nodes
      ensures Valid()
      ensures nodes == old(nodes[lo := nodes[hi]][hi := nodes[lo]])
      ensures contents == old(contents[lo := contents[hi]][hi := contents[lo]])
    {
      SwapSteps(nodes, lo, hi);
      SwapSteps(contents, lo, hi);
      Relocate(hi, lo);
      Relocate(lo + 1, hi);
    }

    /** Fetching an entry and inserting it again at another position. */
    method Relocate(src: nat, dst: nat)
      requires Valid() && src < |nodes| && dst < |nodes|
      modifies this, nodes
      ensures Valid()
      ensures nodes == With(Without(old(nodes), src), dst, old(nodes[src]))
      ensures contents == With(Without(old(contents), src), dst, old(contents[src]))
      ensures forall k :: 0 <= k < |nodes| ==> nodes[k] in old(nodes)
    {
      MovedMembers(nodes, src, dst);
      var e := FetchEntry(src);
      var _ := InsertEntry(e, dst);
    }
  }

  lemma MovedMembers<T>(s: seq<T>, src: nat, dst: nat)
    requires src < |s| && dst < |s|
    ensures forall k :: 0 <= k < |s| ==> With(Without(s, src), dst, s[src])[k] in s
  {
    var w := Without(s, src);
    assert forall k :: 0 <= k < |w| ==> w[k] in s;
  }

  /** Moving hi to lo and then lo + 1 to hi exchanges the two. */
  lemma SwapSteps<T>(s: seq<T>, lo: nat, hi: nat)
    requires lo < hi < |s|
    ensures var a := With(Without(s, hi), lo, s[hi]);
      a[lo + 1] == s[lo] && With(Without(a, lo + 1), hi, s[lo]) == s[lo := s[hi]][hi := s[lo]]
  {
    var a := With(Without(s, hi), lo, s[hi]);
    var m := Without(a, lo + 1);
    var b := With(m, hi, s[lo]);
    var r := s[lo := s[hi]][hi := s[lo]];
    forall k | 0 <= k < |s|
      ensures b[k] == r[k]
    {
      if k < hi {
        assert b[k] == m[k];
        if k <= lo {
          assert m[k] == a[k];
        } else {
          assert m[k] == a[k + 1] == Without(s, hi)[k];
        }
      } else if k > hi {
        assert b[k] == m[k - 1] == a[k] == Without(s, hi)[k - 1];
      }
    }
    assert b == r;
  }
}
