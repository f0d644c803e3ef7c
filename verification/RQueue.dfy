/**
 The ring queue of `rqueue.c`, with calls taken one at a time: a closed ring of size + 1 pages,
 a reader page outside it, and a HEAD flag kept in the `next` pointer of the page before head.
 */
module RQueue {
  import opened Wrappers
  import opened Sequences

  const READER_MAX_RETRIES := 1500
  const WRITER_CAS_MAX_RETRIES := 100
  const MIN_SIZE := 2

  datatype Mode = Overwrite | Blocking

  /** A page pointer with its embedded RQUEUE_FLAG_HEAD bit. */
  datatype Link<V> = Link(page: Page?<V>, flag: bool)

  class Page<V> {
    var value: Option<V>
    var next: Link<V>
    var prev: Page?<V>

    constructor ()
      ensures value == None && next == Link(null, false) && prev == null
    {
      value, next, prev := None, Link(null, false), null;
    }
  }

  // ---------- the ring ----------

  /** Position `i` of the ring: linked to both neighbours, and flagged exactly before the head. */
  ghost predicate RingAt<V>(s: seq<Page<V>>, i: int)
    reads s
  {
    0 <= i < |s| ==>
      && s[i].next == Link(if i == |s| - 1 then s[0] else s[i + 1], i == |s| - 1)
      && s[i].prev == if i == 0 then s[|s| - 1] else s[i - 1]
  }

  ghost predicate Ring<V>(s: seq<Page<V>>)
    reads s
  {
    Unique(s) && forall i :: RingAt(s, i)
  }

  /** The first pages hold `c`, one value each; those after position `m` hold nothing. */
  ghost predicate ValueAt<V>(s: seq<Page<V>>, c: seq<V>, m: int, i: int)
    reads s
  {
    0 <= i < |s| ==>
      && (i < |c| ==> s[i].value == Some(c[i]))
      && (i > m ==> s[i].value == None)
  }

  ghost predicate Holds<V>(s: seq<Page<V>>, c: seq<V>, m: int)
    reads s
  {
    |c| <= |s| && forall i :: ValueAt(s, c, m, i)
  }

  /** A ring under construction: linked, not yet closed, all pages empty. */
  ghost predicate OpenAt<V>(s: seq<Page<V>>, i: int)
    reads s
  {
    0 <= i < |s| ==>
      && s[i].value == None
      && (i < |s| - 1 ==> s[i].next == Link(s[i + 1], false))
      && (i > 0 ==> s[i].prev == s[i - 1])
  }

  /** One more page at the end of an open ring. */
  method Append<V>(last: Page<V>, page: Page<V>, ghost s: seq<Page<V>>)
    requires Unique(s) && (forall k :: OpenAt(s, k)) && s != [] && last == s[|s| - 1]
    requires page !in s && page.value == None
    modifies last`next, page`prev
    ensures Unique(s + [page]) && forall k :: OpenAt(s + [page], k)
  {
    OnlyAt(s, |s| - 1);
    last.next := Link(page, false);
    page.prev := last;
    forall a, b ensures Differ(s + [page], a, b) { assert Differ(s, a, b); }
    forall k ensures OpenAt(s + [page], k) { assert old(OpenAt(s, k)); }
  }

  ghost predicate Among<V>(p: Page<V>, s: seq<Page<V>>, r: Page<V>)
  {
    p in s || p == r
  }

  /** All pages of one queue state are pages of another. */
  ghost predicate Within<V>(s: seq<Page<V>>, r: Page<V>, s': seq<Page<V>>, r': Page<V>)
  {
    Among(r, s', r') && forall k :: 0 <= k < |s| ==> Among(s[k], s', r')
  }

  /** The first page leaves and another one joins at the end. */
  ghost function Shifted<V>(s: seq<Page<V>>, p: Page<V>): (r: seq<Page<V>>)
    requires |s| > 0
    ensures |r| == |s| && r[|s| - 1] == p && forall k :: 0 <= k < |s| - 1 ==> r[k] == s[k + 1]
  {
    s[1..] + [p]
  }

  lemma UniqueShifted<V>(s: seq<Page<V>>, p: Page<V>)
    requires Unique(s) && |s| > 0 && (p !in s || p == s[0])
    ensures Unique(Shifted(s, p)) && s[0] in {p} + set x | x in s
    ensures p != s[0] ==> s[0] !in Shifted(s, p)
  {
    OnlyAt(s, 0);
    forall i, j ensures Differ(Shifted(s, p), i, j) {
      assert Differ(s, i + 1, j + 1);
    }
  }

  ghost function Opt<V>(o: Option<V>): seq<V>
  {
    if o.None? then [] else [o.value]
  }

  /** The pointer swaps of `rqueue_read`: page `r` takes the place of the head page `h`, whose
      successor becomes the head. */
  method SwapIn<V>(h: Page<V>, r: Page<V>, ghost s: seq<Page<V>>, ghost c: seq<V>) returns (next: Page<V>)
    requires Ring(s) && |s| >= 3 && h == s[0] && r !in s && r.value == None && Holds(s, c, |c|) && 0 < |c| < |s|
    modifies s, r
    ensures next == s[1] && Ring(Shifted(s, r)) && Holds(Shifted(s, r), c[1..], |c| - 1)
    ensures h !in Shifted(s, r) && h.value == Some(c[0]) && s[|c|].value == old(s[|c|].value)
  {
    assert RingAt(s, 0) && RingAt(s, |s| - 1);
    assert ValueAt(s, c, |c|, 0);
    OnlyAt(s, 0);
    OnlyAt(s, 1);
    OnlyAt(s, |s| - 1);
    UniqueShifted(s, r);
    next := h.next.page;
    r.next := Link(next, true);
    r.prev := h.prev;
    h.prev.next := Link(r, false);
    next.prev := r;
    forall i ensures RingAt(Shifted(s, r), i) {
      assert old(RingAt(s, i + 1));
    }
    ghost var m := |c| - 1;
    forall i ensures ValueAt(Shifted(s, r), c[1..], m, i) {
      assert old(ValueAt(s, c, |c|, i + 1));
    }
  }

  /** The head advance of an overwriting write: the flag moves one page on. */
  method AdvanceFlag<V>(h: Page<V>, last: Page<V>, ghost s: seq<Page<V>>, ghost c: seq<V>) returns (next: Page<V>)
    requires Ring(s) && |s| >= 3 && h == s[0] && last == s[|s| - 1] && |c| == |s| - 1 && Holds(s, c, |c|)
    modifies s`next
    ensures next == s[1] && Ring(Shifted(s, h)) && Holds(Shifted(s, h), c[1..], |c|)
    ensures h.value == Some(c[0])
  {
    assert RingAt(s, 0) && RingAt(s, |s| - 1) && ValueAt(s, c, |c|, 0);
    OnlyAt(s, 0);
    OnlyAt(s, |s| - 1);
    UniqueShifted(s, h);
    next := h.next.page;
    h.next := Link(next, true);
    last.next := Link(h, false);
    forall i ensures RingAt(Shifted(s, h), i) {
      assert old(RingAt(s, i + 1));
    }
    forall i ensures ValueAt(Shifted(s, h), c[1..], |c|, i) {
      assert old(ValueAt(s, c, |c|, i + 1));
    }
  }

  /** `rqueue_update_value` on the page at position |c|. */
  method UpdateValue<V>(page: Page<V>, value: V, ghost s: seq<Page<V>>, ghost c: seq<V>, ghost m: nat)
    returns (oldValue: Option<V>)
    requires Ring(s) && Holds(s, c, m) && |c| < |s| - 1 && page == s[|c|] && |c| <= m <= |c| + 1
    modifies page`value
    ensures oldValue == old(page.value) && Ring(s) && Holds(s, c + [value], |c| + 1)
    ensures s[|c| + 1].value == old(s[|c| + 1].value)
  {
    OnlyAt(s, |c|);
    oldValue := page.value;
    page.value := Some(value);
    forall i ensures RingAt(s, i) { assert old(RingAt(s, i)); }
    ghost var n := |c| + 1;
    forall i ensures ValueAt(s, c + [value], n, i) { assert old(ValueAt(s, c, m, i)); }
  }

  ghost predicate AccountAt<V>(accepted: seq<V>, returned: seq<V>, dropped: seq<V>, contents: seq<V>,
                               stale: Option<V>, x: V)
  {
    multiset(accepted)[x]
      == multiset(returned)[x] + multiset(dropped)[x] + multiset(contents)[x] + multiset(Opt(stale))[x]
  }

  /** Every accepted value was returned once, or dropped once, or is held in one page. */
  ghost predicate Account<V(!new)>(accepted: seq<V>, returned: seq<V>, dropped: seq<V>, contents: seq<V>,
                                   stale: Option<V>)
  {
    forall x :: AccountAt(accepted, returned, dropped, contents, stale, x)
  }

  lemma AccountMeaning<V(!new)>(a: seq<V>, r: seq<V>, d: seq<V>, c: seq<V>, o: Option<V>)
    ensures Account(a, r, d, c, o)
       <==> multiset(a) == multiset(r) + multiset(d) + multiset(c) + multiset(Opt(o))
  {
    if Account(a, r, d, c, o) {
      forall x ensures multiset(a)[x] == (multiset(r) + multiset(d) + multiset(c) + multiset(Opt(o)))[x] {
        assert AccountAt(a, r, d, c, o, x);
      }
    }
  }

  lemma AccountRead<V(!new)>(a: seq<V>, r: seq<V>, d: seq<V>, c: seq<V>, o: Option<V>)
    requires Account(a, r, d, c, o) && c != []
    ensures Account(a, r + [c[0]], d, c[1..], o)
  {
    assert c == [c[0]] + c[1..];
    AccountMeaning(a, r, d, c, o);
    AccountMeaning(a, r + [c[0]], d, c[1..], o);
  }

  /** The oldest value leaves the queue but stays in its page for now. */
  lemma AccountAdvance<V(!new)>(a: seq<V>, r: seq<V>, d: seq<V>, c: seq<V>, o: Option<V>)
    requires Account(a, r, d, c, o) && c != []
    ensures Account(a, r, d, c[1..] + [c[0]], o)
  {
    assert c == [c[0]] + c[1..];
    AccountMeaning(a, r, d, c, o);
    AccountMeaning(a, r, d, c[1..] + [c[0]], o);
  }

  lemma AccountWrite<V(!new)>(a: seq<V>, r: seq<V>, d: seq<V>, c: seq<V>, extra: Option<V>, o: Option<V>, v: V)
    requires Account(a, r, d, c + Opt(extra), o)
    ensures Account(a + [v], r, d + Opt(o), c + [v], extra)
  {
    AccountMeaning(a, r, d, c + Opt(extra), o);
    AccountMeaning(a + [v], r, d + Opt(o), c + [v], extra);
  }

  lemma AccountDestroy<V(!new)>(a: seq<V>, r: seq<V>, d: seq<V>, c: seq<V>, o: Option<V>)
    requires Account(a, r, d, c, o)
    ensures multiset(a) == multiset(r) + multiset(d + c + Opt(o))
  {
    AccountMeaning(a, r, d, c, o);
  }

  // ---------- the bounded FIFO the queue refines ----------

  datatype Op<V> = OpWrite(value: V) | OpRead | OpMode(mode: Mode)

  datatype Fifo<V> = Fifo(mode: Mode, items: seq<V>, accepted: seq<V>, returned: seq<V>)

  function FifoStep<V>(size: nat, f: Fifo<V>, op: Op<V>): Fifo<V>
  {
    match op
    case OpMode(m) => Fifo(m, f.items, f.accepted, f.returned)
    case OpRead =>
      if f.items == [] then f else Fifo(f.mode, f.items[1..], f.accepted, f.returned + [f.items[0]])
    case OpWrite(v) =>
      if |f.items| < size then Fifo(f.mode, f.items + [v], f.accepted + [v], f.returned)
      else if f.mode.Blocking? || f.items == [] then f
      else Fifo(f.mode, f.items[1..] + [v], f.accepted + [v], f.returned)
  }

  function FifoRun<V>(size: nat, f: Fifo<V>, ops: seq<Op<V>>): Fifo<V>
  {
    if ops == [] then f else FifoStep(size, FifoRun(size, f, ops[..|ops| - 1]), ops[|ops| - 1])
  }

  /** `a` is `b` with some elements left out. */
  ghost predicate Subsequence<V>(a: seq<V>, b: seq<V>)
  {
    a == [] || (b != [] && (
      || (a[|a| - 1] == b[|b| - 1] && Subsequence(a[..|a| - 1], b[..|b| - 1]))
      || Subsequence(a, b[..|b| - 1])))
  }

  lemma SubsequenceSnoc<V>(a: seq<V>, b: seq<V>, x: V)
    requires Subsequence(a, b)
    ensures Subsequence(a, b + [x]) && Subsequence(a + [x], b + [x])
  {
    assert (b + [x])[..|b|] == b && (a + [x])[..|a|] == a;
  }

  ghost predicate FifoOrdered<V>(size: nat, f: Fifo<V>, past: seq<V>)
  {
    |f.items| <= size && f.accepted == past + f.items && Subsequence(f.returned, past)
  }

  lemma MoveFirst<V>(past: seq<V>, items: seq<V>, more: seq<V>)
    requires items != []
    ensures past + items + more == past + [items[0]] + (items[1..] + more)
  {
    assert items == [items[0]] + items[1..];
  }

  lemma FifoStepOrdered<V>(size: nat, f: Fifo<V>, past: seq<V>, op: Op<V>) returns (past': seq<V>)
    requires FifoOrdered(size, f, past)
    ensures FifoOrdered(size, FifoStep(size, f, op), past')
  {
    past' := past;
    match op {
      case OpMode(_) =>
      case OpRead =>
        if f.items != [] {
          past' := past + [f.items[0]];
          SubsequenceSnoc(f.returned, past, f.items[0]);
          MoveFirst(past, f.items, []);
        }
      case OpWrite(v) =>
        if |f.items| == size && f.mode.Overwrite? && f.items != [] {
          past' := past + [f.items[0]];
          SubsequenceSnoc(f.returned, past, f.items[0]);
          MoveFirst(past, f.items, [v]);
        } else {
          assert past + f.items + [v] == past + (f.items + [v]);
        }
    }
  }

  /** Whatever the calls and the mode switches between them: the queue holds the values accepted
      last, and the values read are earlier ones, each accepted value at most once and in order. */
  lemma {:induction false} FifoOrder<V>(size: nat, mode: Mode, ops: seq<Op<V>>) returns (past: seq<V>)
    ensures FifoOrdered(size, FifoRun(size, Fifo(mode, [], [], []), ops), past)
  {
    past := [];
    if ops != [] {
      past := FifoOrder(size, mode, ops[..|ops| - 1]);
      past := FifoStepOrdered(size, FifoRun(size, Fifo(mode, [], [], []), ops[..|ops| - 1]), past, ops[|ops| - 1]);
    }
  }

  lemma BlockingStep<V>(size: nat, f: Fifo<V>, op: Op<V>)
    requires f.mode.Blocking? && f.accepted == f.returned + f.items && op != OpMode(Overwrite)
    ensures var g := FifoStep(size, f, op); g.mode.Blocking? && g.accepted == g.returned + g.items
  {
    match op {
      case OpMode(_) =>
      case OpRead =>
        if f.items != [] {
          assert f.items == [f.items[0]] + f.items[1..];
          Associate(f.returned, [f.items[0]], f.items[1..]);
        }
      case OpWrite(v) => Associate(f.returned, f.items, [v]);
    }
  }

  /** A run in blocking mode loses nothing: reads hand out exactly what was accepted, in order. */
  lemma {:induction false} BlockingLosesNothing<V>(size: nat, ops: seq<Op<V>>)
    requires OpMode(Overwrite) !in ops
    ensures var f := FifoRun(size, Fifo(Blocking, [], [], []), ops);
      f.mode.Blocking? && f.accepted == f.returned + f.items
  {
    if ops != [] {
      BlockingLosesNothing(size, ops[..|ops| - 1]);
      assert ops[|ops| - 1] in ops;
      BlockingStep(size, FifoRun(size, Fifo(Blocking, [], [], []), ops[..|ops| - 1]), ops[|ops| - 1]);
    }
  }

  /** What a walk that has destroyed the first `i` pages of the ring has taken out of them. */
  ghost function Destroyed<V>(contents: seq<V>, stale: Option<V>, i: nat): seq<V>
  {
    if i <= |contents| then contents[..i] else contents + Opt(stale)
  }

  class Queue<V(!new)> {
    const size: nat
    const hasFreeCallback: bool
    var mode: Mode
    var head: Page<V>
    var tail: Page<V>
    var commit: Page<V>
    var reader: Page<V>
    var isEmpty: bool
    var writeCount: nat
    var readCount: nat
    var freed: seq<V>                 // arguments of the free callback, in call order
    ghost var ring: seq<Page<V>>      // from head onwards
    ghost var contents: seq<V>        // the queue, oldest first
    ghost var accepted: seq<V>        // history: values of successful writes
    ghost var returned: seq<V>        // history: values handed out by reads
    ghost var dropped: seq<V>         // history: values taken out of pages without being read

    ghost predicate Shape()
      reads this`head, this`tail, this`commit, this`reader, this`isEmpty, this`ring, this`contents, ring, reader
    {
      && size >= MIN_SIZE && |ring| == size + 1 && |contents| <= size
      && Ring(ring) && reader !in ring && reader.value == None
      && head == ring[0] && tail == ring[|contents|]
      && isEmpty == (contents == [])
      && (contents != [] ==> commit == ring[|contents| - 1])
      && (contents == [] ==> commit == reader || commit == head)
    }

    /** A value the queue has dropped but not yet freed sits in the tail page, if anywhere. */
    ghost predicate Valid()
      reads this, ring, reader
    {
      && Shape() && Holds(ring, contents, |contents|)
      && Account(accepted, returned, dropped, contents, tail.value)
      && freed == (if hasFreeCallback then dropped else [])
      && writeCount == |accepted| && readCount == |returned|
    }

    constructor (n: nat, mode: Mode, hasFreeCallback: bool)
      ensures Valid() && contents == [] && accepted == [] && freed == []
      ensures size == (if n > MIN_SIZE then n else MIN_SIZE) && this.mode == mode
      ensures this.hasFreeCallback == hasFreeCallback
      ensures reader.next == Link(head, false) && reader.prev == ring[size]
      ensures fresh(reader) && forall k :: 0 <= k < |ring| ==> fresh(ring[k])
    {
      var first := new Page<V>();
      var outside := new Page<V>();
      this.size := if n > MIN_SIZE then n else MIN_SIZE;
      this.mode, this.hasFreeCallback := mode, hasFreeCallback;
      head, tail, commit, reader := first, first, first, outside;
      isEmpty, writeCount, readCount, freed := true, 0, 0, [];
      ring, contents, accepted, returned, dropped := [first], [], [], [], [];
      new;
      Extend();
      Close();
    }

    /** The loop of `rqueue_create`: one page more than the size. */
    method Extend()
      requires size >= MIN_SIZE && |ring| == 1 && head == tail == ring[0] && reader !in ring && reader.value == None
      requires head.value == None
      modifies this`tail, this`ring, ring
      ensures |ring| == size + 1 && head == ring[0] && tail == ring[size] && reader !in ring && reader.value == None
      ensures Unique(ring) && forall k :: OpenAt(ring, k)
      ensures forall k :: 1 <= k < |ring| ==> fresh(ring[k])
    {
      for i := 1 to size + 1
        invariant |ring| == i && head == ring[0] == old(ring[0]) && tail == ring[i - 1]
        invariant Unique(ring) && reader !in ring && reader.value == None && (forall k :: OpenAt(ring, k))
        invariant forall k :: 1 <= k < |ring| ==> fresh(ring[k])
      {
        var page := new Page<V>();
        Append(tail, page, ring);
        tail := page;
        ring := ring + [page];
      }
    }

    /** The end of `rqueue_create`: close the ring, set the flag, attach the reader page. */
    method Close()
      requires size >= MIN_SIZE && |ring| == size + 1 && head == ring[0] && tail == ring[size] && reader !in ring
      requires Unique(ring) && (forall k :: OpenAt(ring, k)) && reader.value == None
      requires contents == [] && accepted == [] && returned == [] && dropped == [] && freed == []
      requires isEmpty && writeCount == 0 && readCount == 0
      modifies this`tail, this`commit, ring, reader
      ensures Valid() && reader.next == Link(head, false) && reader.prev == ring[size]
    {
      ghost var s := ring;
      OnlyAt(s, 0);
      OnlyAt(s, size);
      head.prev := tail;
      tail.next := Link(head, true);
      tail := head;
      commit := tail;
      reader.prev := head.prev;
      reader.next := Link(head, false);
      forall i ensures RingAt(s, i) { assert old(OpenAt(s, i)); }
      forall i ensures ValueAt(s, contents, 0, i) { assert old(OpenAt(s, i)); }
      assert old(OpenAt(s, 0));
    }

    /** The page a new value goes to is never the one committed last, unless the queue is empty:
        the branch that would skip a page never fires. */
    lemma NeverSkips()
      requires Shape()
      ensures commit == tail ==> tail == head
    {
      OnlyAt(ring, |contents|);
    }

    /** Full, and only then, the flag is on the tail's `next`. */
    lemma FullFlag()
      requires Shape()
      ensures tail.next.flag <==> |contents| == size
      ensures tail.next.page == head <==> |contents| == size
      ensures tail.next.page == if |contents| == size then ring[0] else ring[|contents| + 1]
    {
      assert RingAt(ring, |contents|);
      OnlyAt(ring, 0);
    }

    method Read() returns (v: Option<V>)
      requires Valid()
      modifies this, ring, reader
      ensures Valid() && mode == old(mode) && accepted == old(accepted) && dropped == old(dropped)
      ensures v.None? <==> old(contents) == []
      ensures old(contents) == [] ==> contents == [] && returned == old(returned)
      ensures old(contents) != [] ==>
        && v == Some(old(contents[0])) && contents == old(contents[1..]) && returned == old(returned) + [v.value]
      ensures Within(ring, reader, old(ring), old(reader))
    {
      v := None;
      for i := 0 to READER_MAX_RETRIES
        invariant Valid() && v == None && contents == old(contents) && returned == old(returned)
        invariant mode == old(mode) && accepted == old(accepted) && dropped == old(dropped)
        invariant ring == old(ring) && reader == old(reader) && (i > 0 ==> contents == [])
      {
        if reader == commit || isEmpty {
          continue;
        }
        v := Take();
        break;
      }
    }

    /** The ring after the reader page and the head page have changed places. */
    method SwapReader() returns (v: Option<V>)
      requires Shape() && Holds(ring, contents, |contents|) && contents != []
      modifies this`head, this`reader, this`ring, this`contents, ring, reader
      ensures contents == old(contents[1..]) && |ring| == size + 1
      ensures Ring(ring) && reader !in ring && head == ring[0] && tail == ring[|contents|]
      ensures Holds(ring, contents, |contents|) && tail.value == old(tail.value)
      ensures commit == (if contents == [] then reader else ring[|contents| - 1])
      ensures v == Some(old(contents[0])) && reader.value == None
      ensures Within(ring, reader, old(ring), old(reader))
    {
      ghost var s, r := ring, reader;
      var h := head;
      head := SwapIn(h, reader, s, contents);
      reader := h; // the head is the new reader
      ring, contents := Shifted(s, r), contents[1..];
      v := reader.value;
      reader.value := None;
    }

    /** The page of the oldest value leaves the ring, and the queue may become empty. */
    method TakePage() returns (v: Option<V>)
      requires Shape() && Holds(ring, contents, |contents|) && contents != []
      modifies this`head, this`reader, this`ring, this`contents, this`isEmpty, ring, reader
      ensures Shape() && Holds(ring, contents, |contents|) && tail.value == old(tail.value)
      ensures v == Some(old(contents[0])) && contents == old(contents[1..])
      ensures Within(ring, reader, old(ring), old(reader))
    {
      v := SwapReader();
      OnlyAt(ring, 0);
      if head == tail {
        isEmpty := true;
      }
    }

    /** One successful round of `rqueue_read`. */
    method Take() returns (v: Option<V>)
      requires Valid() && contents != []
      modifies this, ring, reader
      ensures Valid() && mode == old(mode) && accepted == old(accepted) && dropped == old(dropped)
      ensures v == Some(old(contents[0])) && contents == old(contents[1..]) && returned == old(returned) + [v.value]
      ensures Within(ring, reader, old(ring), old(reader))
    {
      AccountRead(accepted, returned, dropped, contents, tail.value);
      v := TakePage();
      CountRead(v.value);
    }

    method CountRead(v: V)
      requires Shape() && Holds(ring, contents, |contents|) && readCount == |returned|
      requires Account(accepted, returned + [v], dropped, contents, tail.value)
      modifies this`readCount, this`returned
      ensures Shape() && Holds(ring, contents, |contents|) && readCount == |returned|
      ensures Account(accepted, returned, dropped, contents, tail.value)
      ensures returned == old(returned) + [v]
    {
      readCount, returned := readCount + 1, returned + [v];
    }

    /** Room for one more value; `extra` is what the page after the tail still holds. */
    ghost predicate Ready(extra: Option<V>)
      reads this, ring, reader
    {
      && Shape() && |contents| < size
      && Holds(ring, contents, |contents| + |Opt(extra)|) && ring[|contents| + 1].value == extra
      && Account(accepted, returned, dropped, contents + Opt(extra), tail.value)
      && freed == (if hasFreeCallback then dropped else [])
      && writeCount == |accepted| && readCount == |returned|
    }

    lemma ValidIsReady()
      requires Valid() && |contents| < size
      ensures Ready(None)
    {
      assert ValueAt(ring, contents, |contents|, |contents| + 1);
      assert contents + Opt(None) == contents;
    }

    /** The pointer part of a head advance. */
    method MoveHead()
      requires Shape() && Holds(ring, contents, size) && |contents| == size
      modifies this`head, this`ring, this`contents, ring`next
      ensures Shape() && Holds(ring, contents, size) && contents == old(contents[1..])
      ensures ring[size].value == Some(old(contents[0]))
      ensures forall p :: p in ring ==> p in old(ring)
    {
      ghost var s, c := ring, contents;
      var h := head;
      head := AdvanceFlag(h, tail, s, c);
      ring, contents := Shifted(s, h), c[1..];
    }

    /** The head advance of a full queue in overwrite mode. */
    method AdvanceHead()
      requires Valid() && |contents| == size
      modifies this`head, this`ring, this`contents, ring`next
      ensures Ready(Some(old(contents[0]))) && contents == old(contents[1..])
      ensures forall p :: p in ring ==> p in old(ring)
    {
      AccountAdvance(accepted, returned, dropped, contents, tail.value);
      MoveHead();
    }

    /** The pointer part of a write: the tail page takes the value and the tail moves on. */
    method FillTail(value: V, ghost extra: Option<V>) returns (oldValue: Option<V>)
      requires Shape() && |contents| < size
      requires Holds(ring, contents, |contents| + |Opt(extra)|) && ring[|contents| + 1].value == extra
      modifies this`tail, this`contents, this`isEmpty, this`commit, ring`value
      ensures Shape() && Holds(ring, contents, |contents|) && contents == old(contents) + [value]
      ensures oldValue == old(tail.value) && tail.value == extra
    {
      FullFlag();
      var page := tail;
      tail := page.next.page;
      oldValue := UpdateValue(page, value, ring, contents, |contents| + |Opt(extra)|);
      contents, isEmpty, commit := contents + [value], false, page;
    }

    /** Taking the tail page and storing the value, with `rqueue_update_value`. */
    method Put(value: V, ghost extra: Option<V>)
      requires Ready(extra)
      modifies this, ring
      ensures Valid() && contents == old(contents) + [value] && accepted == old(accepted) + [value]
      ensures mode == old(mode) && returned == old(returned) && dropped == old(dropped) + old(Opt(tail.value))
      ensures reader == old(reader) && ring == old(ring)
    {
      var oldValue := Fill(value, extra);
      Book(value, oldValue);
    }

    /** The counters and histories of a write, on a ring that already holds the value. */
    method Book(value: V, oldValue: Option<V>)
      requires Shape() && Holds(ring, contents, |contents|)
      requires Account(accepted + [value], returned, dropped + Opt(oldValue), contents, tail.value)
      requires freed == (if hasFreeCallback then dropped else [])
      requires writeCount == |accepted| && readCount == |returned|
      modifies this`freed, this`dropped, this`accepted, this`writeCount
      ensures Shape() && Holds(ring, contents, |contents|)
      ensures Account(accepted, returned, dropped, contents, tail.value)
      ensures freed == (if hasFreeCallback then dropped else [])
      ensures writeCount == |accepted| && readCount == |returned|
      ensures dropped == old(dropped) + Opt(oldValue) && accepted == old(accepted) + [value]
    {
      Record(value, oldValue);
    }

    /** A write up to the point where only counters and histories are missing. */
    method Fill(value: V, ghost extra: Option<V>) returns (oldValue: Option<V>)
      requires Ready(extra)
      modifies this`tail, this`contents, this`isEmpty, this`commit, ring`value
      ensures Shape() && Holds(ring, contents, |contents|) && contents == old(contents) + [value]
      ensures oldValue == old(tail.value)
      ensures Account(accepted + [value], returned, dropped + Opt(oldValue), contents, tail.value)
    {
      oldValue := FillTail(value, extra);
      AccountWrite(accepted, returned, dropped, old(contents), extra, oldValue, value);
    }

    /** Freeing a replaced value, the counters and the histories of a write. */
    method Record(value: V, oldValue: Option<V>)
      requires Account(accepted + [value], returned, dropped + Opt(oldValue), contents, tail.value)
      requires freed == (if hasFreeCallback then dropped else [])
      requires writeCount == |accepted| && readCount == |returned|
      modifies this`freed, this`dropped, this`accepted, this`writeCount
      ensures Account(accepted, returned, dropped, contents, tail.value)
      ensures freed == (if hasFreeCallback then dropped else [])
      ensures writeCount == |accepted| && readCount == |returned|
      ensures dropped == old(dropped) + Opt(oldValue) && accepted == old(accepted) + [value]
    {
      FreeValue(oldValue);
      writeCount := writeCount + 1;
      accepted := accepted + [value];
    }

    /** A value taken out of its page goes to the free callback, if there is one. */
    method FreeValue(value: Option<V>)
      requires freed == (if hasFreeCallback then dropped else [])
      modifies this`freed, this`dropped
      ensures dropped == old(dropped) + Opt(value) && (value.None? ==> dropped == old(dropped))
      ensures freed == (if hasFreeCallback then dropped else [])
    {
      if value.Some? && hasFreeCallback {
        freed := freed + [value.value];
      }
      dropped := dropped + Opt(value);
    }

    /** `rqueue_write`. A round that finds the queue full and cannot make room counts twice: once
        where it gives up the lock and once in the loop condition. */
    method Write(value: V) returns (rc: int)
      requires Valid()
      modifies this, ring
      ensures Valid() && mode == old(mode) && returned == old(returned) && reader == old(reader)
      ensures |old(contents)| < size ==> rc == 0 && contents == old(contents) + [value]
      ensures |old(contents)| == size && mode.Overwrite? ==> rc == 0 && contents == old(contents[1..]) + [value]
      ensures |old(contents)| == size && mode.Blocking? ==>
        && rc == -2 && contents == old(contents) && ring == old(ring) && tail == old(tail) && head == old(head)
        && accepted == old(accepted) && dropped == old(dropped)
      ensures rc == 0 ==> accepted == old(accepted) + [value] && dropped == old(dropped) + old(Opt(tail.value))
      ensures Within(ring, reader, old(ring), old(reader))
    {
      rc := -1;
      var retries := 0;
      var taken := false;
      ghost var extra: Option<V> := None;
      while true
        invariant retries <= WRITER_CAS_MAX_RETRIES && mode == old(mode) && returned == old(returned) && !taken
        invariant tail == old(tail) && tail.value == old(tail.value) && rc == -1 && reader == old(reader)
        invariant accepted == old(accepted) && dropped == old(dropped)
        invariant extra.None? ==>
          && Valid() && contents == old(contents) && ring == old(ring) && head == old(head)
          && retries % 2 == 0 && (retries > 0 ==> mode.Blocking?)
        invariant extra.Some? ==>
          && Ready(extra) && |old(contents)| == size && contents == old(contents)[1..] && mode.Overwrite?
          && (forall k :: 0 <= k < |ring| ==> ring[k] in old(ring))
        decreases WRITER_CAS_MAX_RETRIES - retries
      {
        var tempPage := tail;
        var nextPage := tempPage.next.page;
        FullFlag();
        if mode.Blocking? && commit == tempPage && tempPage != head && nextPage != head {
          NeverSkips();
          assert false;
        }
        if tempPage.next.flag || (nextPage == head && !isEmpty) {
          assert RingAt(ring, size - 1);
          if mode.Overwrite? && commit.next == Link(tempPage, false) {
            extra := Some(contents[0]);
            AdvanceHead();
          } else if retries < WRITER_CAS_MAX_RETRIES {
            retries := retries + 1;
          } else {
            rc := -2;
            break;
          }
        } else {
          taken := true;
          break;
        }
        if retries >= WRITER_CAS_MAX_RETRIES {
          break;
        }
        retries := retries + 1;
      }
      if taken {
        if extra.None? { ValidIsReady(); }
        Put(value, extra);
        rc := 0;
      }
    }

    method SetMode(mode: Mode)
      requires Valid()
      modifies this`mode
      ensures Valid() && this.mode == mode
    {
      this.mode := mode;
    }

    lemma DestroyedStep(i: nat)
      requires Shape() && Holds(ring, contents, |contents|) && i < |ring|
      ensures Destroyed(contents, tail.value, i + 1) == Destroyed(contents, tail.value, i) + Opt(ring[i].value)
    {
      assert ValueAt(ring, contents, |contents|, i);
      if i < |contents| {
        assert contents[..i + 1] == contents[..i] + [contents[i]];
      } else if i == |contents| {
        assert contents[..i] == contents;
      }
    }

    /** `rqueue_destroy`: every page is destroyed once, in ring order, and the reader page last. */
    method Destroy()
      requires Valid()
      modifies this`freed, this`dropped
      ensures dropped == old(dropped) + contents + Opt(tail.value)
      ensures freed == (if hasFreeCallback then dropped else [])
      ensures multiset(accepted) == multiset(returned) + multiset(dropped)
    {
      AccountDestroy(accepted, returned, dropped, contents, tail.value);
      DestroyRing();
      FreeValue(reader.value);
    }

    method DestroyRing()
      requires Shape() && Holds(ring, contents, |contents|) && freed == (if hasFreeCallback then dropped else [])
      modifies this`freed, this`dropped
      ensures dropped == old(dropped) + contents + Opt(tail.value)
      ensures freed == (if hasFreeCallback then dropped else [])
    {
      ghost var before, c, stale, i := dropped, contents, tail.value, 0;
      var page, first := head, true;
      OnlyAt(ring, 0);
      while first || page != head
        invariant first == (i == 0) && 0 <= i <= |ring| && page == ring[if i == |ring| then 0 else i]
        invariant dropped == before + Destroyed(c, stale, i) && freed == (if hasFreeCallback then dropped else [])
        decreases |ring| - i
      {
        assert RingAt(ring, i);
        DestroyedStep(i);
        var p := page;
        Associate(before, Destroyed(c, stale, i), Opt(p.value));
        page := p.next.page;
        FreeValue(p.value);
        i, first := i + 1, false;
      }
    }

    /** Any run of calls on the ring of pages computes what the bounded FIFO computes. */
    method Replay(ops: seq<Op<V>>)
      requires Valid()
      modifies this, ring, reader
      ensures Valid()
      ensures Fifo(mode, contents, accepted, returned)
           == FifoRun(size, old(Fifo(mode, contents, accepted, returned)), ops)
    {
      ghost var f := Fifo(mode, contents, accepted, returned);
      for i := 0 to |ops|
        invariant Valid() && Within(ring, reader, old(ring), old(reader))
        invariant Fifo(mode, contents, accepted, returned) == FifoRun(size, f, ops[..i])
      {
        assert ops[..i + 1][..i] == ops[..i];
        match ops[i]
        case OpMode(m) => SetMode(m);
        case OpRead => var _ := Read();
        case OpWrite(v) => var _ := Write(v);
      }
      assert ops[..|ops|] == ops;
    }
  }
}
