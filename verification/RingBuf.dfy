/**
 The byte ring buffer of `rbuf.c`: offsets that run from 0 to `size` inclusive, block copies that
 wrap around, and a blocking and an overwriting mode.
 */
module RingBuf {

  const DEFAULT_SIZE := 4096

  type Byte = bv8

  datatype Mode = Blocking | Overwrite

  /** The cell `i` bytes behind an offset. */
  function Cell(size: nat, offset: nat, i: nat): nat
  {
    if offset + i < size then offset + i else offset + i - size
  }

  /** `a` and `b` differ by a multiple of `size`, within the range the offsets allow. */
  predicate Level(size: nat, a: nat, b: nat)
  {
    a == b || a == b + size || a == b + 2 * size || a + size == b
  }

  lemma Multiple(n: int, d: int)
    requires n > 0
    ensures d >= 1 ==> n * d >= n
    ensures d <= -1 ==> n * d <= -n
  {
    if d >= 1 {
      assert n * d - n == n * (d - 1);
    } else if d <= -1 {
      assert n * d + n == n * (d + 1);
    }
  }

  lemma ModAdd(x: nat, n: nat)
    requires n > 0
    ensures (x + n) % n == x % n
  {
    var p, q := (x + n) / n, x / n;
    assert x + n == n * p + (x + n) % n && x == n * q + x % n;
    assert n * (p - q - 1) == x % n - (x + n) % n;
    Multiple(n, p - q - 1);
  }

  lemma LevelIsCongruent(size: nat, a: nat, b: nat)
    requires size > 0 && Level(size, a, b)
    ensures a % size == b % size
  {
    ModAdd(b, size);
    ModAdd(b + size, size);
    ModAdd(a, size);
  }

  // ---------- the byte queue it refines ----------

  datatype Op = OpWrite(bytes: seq<Byte>) | OpRead(size: nat) | OpSkip(size: nat) | OpClear | OpMode(mode: Mode)

  datatype Queue = Queue(mode: Mode, items: seq<Byte>, accepted: seq<Byte>, returned: seq<Byte>)

  function Min(a: nat, b: nat): nat
  {
    if a < b then a else b
  }

  /** The longest end of `s` that fits into `n` bytes. */
  function Last(s: seq<Byte>, n: nat): seq<Byte>
  {
    if |s| <= n then s else s[|s| - n..]
  }

  /** Which bytes of old contents and input survive in a buffer of a given size. */
  lemma LastOfBoth(c: seq<Byte>, b: seq<Byte>, size: nat)
    requires |c| <= size
    ensures |b| > size ==> Last(c + b, size) == b[|b| - size..]
    ensures size - |c| < |b| <= size ==> Last(c + b, size) == c[|b| - (size - |c|)..] + b
    ensures |b| <= size - |c| ==> Last(c + b, size) == c + b
  {
  }

  function QueueStep(size: nat, q: Queue, op: Op): Queue
  {
    match op
    case OpWrite(b) =>
      if q.mode.Overwrite? then Queue(q.mode, Last(q.items + b, size), q.accepted + b, q.returned)
      else
        var n := if |q.items| < size then Min(|b|, size - |q.items|) else 0;
        Queue(q.mode, q.items + b[..n], q.accepted + b[..n], q.returned)
    case OpRead(n) =>
      var k := Min(n, |q.items|);
      Queue(q.mode, q.items[k..], q.accepted, q.returned + q.items[..k])
    case OpSkip(n) => Queue(q.mode, q.items[Min(n, |q.items|)..], q.accepted, q.returned)
    case OpClear => Queue(q.mode, [], q.accepted, q.returned)
    case OpMode(m) => Queue(m, q.items, q.accepted, q.returned)
  }

  function QueueRun(size: nat, q: Queue, ops: seq<Op>): Queue
  {
    if ops == [] then q else QueueStep(size, QueueRun(size, q, ops[..|ops| - 1]), ops[|ops| - 1])
  }

  lemma BlockingStep(size: nat, q: Queue, op: Op)
    requires q.mode.Blocking? && q.accepted == q.returned + q.items && (op.OpWrite? || op.OpRead?)
    ensures var q' := QueueStep(size, q, op); q'.mode.Blocking? && q'.accepted == q'.returned + q'.items
  {
    if op.OpRead? {
      var k := Min(op.size, |q.items|);
      assert q.items == q.items[..k] + q.items[k..];
      assert q.returned + (q.items[..k] + q.items[k..]) == (q.returned + q.items[..k]) + q.items[k..];
    } else {
      var n := if |q.items| < size then Min(|op.bytes|, size - |q.items|) else 0;
      assert q.returned + q.items + op.bytes[..n] == q.returned + (q.items + op.bytes[..n]);
    }
  }

  /** A run of reads and writes in blocking mode reads back exactly the accepted bytes, in order. */
  lemma {:induction false} BlockingReadsBack(size: nat, ops: seq<Op>)
    requires forall i :: 0 <= i < |ops| ==> ops[i].OpWrite? || ops[i].OpRead?
    ensures var q := QueueRun(size, Queue(Blocking, [], [], []), ops);
      q.mode.Blocking? && q.accepted == q.returned + q.items
  {
    if ops != [] {
      BlockingReadsBack(size, ops[..|ops| - 1]);
      BlockingStep(size, QueueRun(size, Queue(Blocking, [], [], []), ops[..|ops| - 1]), ops[|ops| - 1]);
    }
  }

  class Rbuf {
    const buf: array<Byte>
    const size: nat
    var used: nat
    var rfx: nat
    var wfx: nat
    var mode: Mode
    ghost var contents: seq<Byte>

    ghost predicate ByteAt(i: int)
      reads this, buf
    {
      0 <= i < |contents| && rfx <= size && |contents| <= size == buf.Length ==>
        contents[i] == buf[Cell(size, rfx, i)]
    }

    ghost predicate Valid()
      reads this, buf
    {
      && size > 0 && buf.Length == size && used == |contents| <= size && rfx <= size && wfx <= size
      && Level(size, rfx + used, wfx)
      && forall i :: ByteAt(i)
    }

    lemma OffsetsAgree()
      requires Valid()
      ensures (rfx + used) % size == wfx % size
    {
      LevelIsCongruent(size, rfx + used, wfx);
    }

    /** `rbuf_create`; calloc leaves the mode at blocking. */
    constructor (size: nat)
      ensures Valid() && contents == [] && mode == Blocking && fresh(buf)
      ensures this.size == if size == 0 then DEFAULT_SIZE else size
    {
      var n := if size == 0 then DEFAULT_SIZE else size;
      this.size := n;
      buf := new Byte[n];
      used, rfx, wfx, mode, contents := 0, 0, 0, Blocking, [];
    }

    method SetMode(mode: Mode)
      requires Valid()
      modifies this`mode
      ensures Valid() && this.mode == mode
    {
      this.mode := mode;
      assert forall i :: old(ByteAt(i)) ==> ByteAt(i);
    }

    /** `rbuf_clear`. */
    method Clear()
      requires Valid()
      modifies this`used, this`rfx, this`wfx, this`contents
      ensures Valid() && contents == []
    {
      rfx, wfx, used, contents := 0, 0, 0, [];
    }

    /** `rbuf_skip`. */
    method Skip(n: nat)
      requires Valid()
      modifies this`used, this`rfx, this`contents
      ensures Valid() && contents == old(contents)[if n < |old(contents)| then n else |old(contents)|..]
    {
      if n >= used {
        rfx := wfx;
        used := 0;
        contents := [];
      } else {
        Advance(n);
      }
    }

    /** Moving the read offset over `n` stored bytes. */
    method Advance(n: nat)
      requires Valid() && n <= used
      modifies this`used, this`rfx, this`contents
      ensures Valid() && contents == old(contents)[n..]
    {
      used := used - n;
      if n > size - rfx {
        rfx := n - (size - rfx);
      } else {
        rfx := rfx + n;
      }
      contents := contents[n..];
      forall i ensures ByteAt(i) { assert old(ByteAt(i + n)); }
    }

    /** `rbuf_read`: the two block copies. */
    method Read(n: nat) returns (out: seq<Byte>)
      requires Valid()
      modifies this`used, this`rfx, this`contents
      ensures Valid() && |out| == (if n < |old(contents)| then n else |old(contents)|)
      ensures old(contents) == out + contents
    {
      var readSize := if n > used then used else n;
      var toEnd := size - rfx;
      if readSize > toEnd {
        out := buf[rfx..rfx + toEnd] + buf[..readSize - toEnd];
      } else {
        out := buf[rfx..rfx + readSize];
      }
      forall i | 0 <= i < readSize ensures out[i] == contents[i] { assert ByteAt(i); }
      Advance(readSize);
    }

    /** memcpy into the buffer. */
    method Copy(at: nat, bytes: seq<Byte>)
      requires at + |bytes| <= buf.Length
      modifies buf
      ensures forall k :: 0 <= k < buf.Length ==>
        buf[k] == if at <= k < at + |bytes| then bytes[k - at] else old(buf[k])
    {
      forall i | 0 <= i < |bytes| {
        buf[at + i] := bytes[i];
      }
    }

    /** The end of `rbuf_write`, once there is room for all of `bytes`. */
    method Store(bytes: seq<Byte>)
      requires Valid() && used + |bytes| <= size
      modifies this`used, this`wfx, this`contents, buf
      ensures Valid() && contents == old(contents) + bytes
    {
      var toEnd := size - wfx;
      if |bytes| > toEnd {
        Copy(wfx, bytes[..toEnd]);
        Copy(0, bytes[toEnd..]);
        wfx := |bytes| - toEnd;
      } else {
        Copy(wfx, bytes);
        wfx := wfx + |bytes|;
      }
      used := used + |bytes|;
      contents := contents + bytes;
      forall i ensures ByteAt(i) { assert old(ByteAt(i)); }
    }

    /** `rbuf_write`. */
    method Write(bytes: seq<Byte>) returns (n: nat)
      requires Valid()
      modifies this, buf
      ensures Valid() && mode == old(mode)
      ensures mode.Overwrite? ==> n == |bytes|
      ensures mode.Blocking? ==> n == if |bytes| < size - |old(contents)| then |bytes| else size - |old(contents)|
      ensures mode.Blocking? || |old(contents) + bytes| <= size ==> contents == old(contents) + bytes[..n]
      ensures mode.Overwrite? && |old(contents) + bytes| > size ==>
        |contents| == size && contents == (old(contents) + bytes)[|old(contents) + bytes| - size..]
    {
      n := 0;
      LastOfBoth(contents, bytes, size);
      assert bytes[..|bytes|] == bytes;
      if |bytes| > 0 {
        var writeSize := if |bytes| > size - used then size - used else |bytes|;
        if writeSize < |bytes| && mode.Overwrite? {
          n := |bytes|;
          if |bytes| > size {
            Refill(bytes[|bytes| - size..]);
          } else {
            MakeRoom(|bytes| - writeSize);
            Store(bytes);
          }
        } else {
          n := writeSize;
          Store(bytes[..n]);
        }
      }
    }

    /** More input than the buffer can hold: only the last `size` bytes are stored. */
    method Refill(bytes: seq<Byte>)
      requires Valid() && |bytes| == size
      modifies this`used, this`rfx, this`wfx, this`contents, buf
      ensures Valid() && contents == bytes
    {
      rfx, wfx := 0, 0;
      Copy(0, bytes);
      used := size;
      contents := bytes;
    }

    /** Advancing the read offset over the bytes to be overwritten. */
    method MakeRoom(diff: nat)
      requires Valid() && diff <= used
      modifies this`used, this`rfx, this`contents
      ensures Valid() && contents == old(contents)[diff..]
    {
      rfx := rfx + diff;
      if rfx >= size {
        rfx := rfx - size;
      }
      used := used - diff;
      contents := contents[diff..];
      forall i ensures ByteAt(i) { assert old(ByteAt(i + diff)); }
    }

    /** Any run of calls computes what the byte queue computes. */
    method Replay(ops: seq<Op>) returns (accepted: seq<Byte>, returned: seq<Byte>)
      requires Valid()
      modifies this, buf
      ensures Valid()
      ensures Queue(mode, contents, accepted, returned)
           == QueueRun(size, Queue(old(mode), old(contents), [], []), ops)
    {
      accepted, returned := [], [];
      ghost var q := Queue(mode, contents, [], []);
      for i := 0 to |ops|
        invariant Valid() && Queue(mode, contents, accepted, returned) == QueueRun(size, q, ops[..i])
      {
        assert ops[..i + 1][..i] == ops[..i];
        match ops[i]
        case OpWrite(bytes) =>
          var n := Write(bytes);
          accepted := accepted + bytes[..n];
        case OpRead(n) =>
          var out := Read(n);
          returned := returned + out;
        case OpSkip(n) => Skip(n);
        case OpClear => Clear();
        case OpMode(m) => SetMode(m);
      }
      assert ops[..|ops|] == ops;
    }
  }
}
