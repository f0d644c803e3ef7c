/**
 Reference counting under interleaving: one node of `refcnt.c`, any number of threads that retain
 and release it, and the collector and allocator that carry it from the free list back into use.
 Every atomic access to `count` or `updating` is one step.
 */
module RefCntProtocol {
  import opened Numbers // `count` is a 32-bit word and wraps around

  /** Where the node is. Lost: the free list was full. Gone: the pool was full. */
  datatype Place = InUse | FreeList | Lost | Pool | Gone | Reissue

  /** Where a thread is, named after the access it performs next. */
  datatype Pc =
    | Idle
    | RetainUpdating       // deref_link_internal: read `updating`
    | RetainCount          // read `count`
    | RetainIncrement      // ATOMIC_INCREMENT(count)
    | ReleaseCount         // release_ref: read `count`
    | ReleaseDecrement     // ATOMIC_DECREMENT(count)
    | ReleaseLock          // ATOMIC_CAS(updating, 0, 1)
    | Check                // read `count` again
    | Enqueue              // terminate callback and rqueue_write(free_list)
    | Unlock               // ATOMIC_CAS(updating, 1, 0)

  /** `queued`: how often the node was handed to the free list since new_node() last returned it. */
  datatype State = State(count: nat, updating: nat, place: Place, queued: nat, threads: seq<Pc>)

  datatype Move =
    | StartRetain(tid: nat)
    | StartRelease(tid: nat)
    | Thread(tid: nat, accepted: bool)   // the next access; `accepted`: the free list had room
    | Swap(up: bool)                     // compare_and_swap_ref() on a link to the node
    | Collect(accepted: bool)            // gc(); `accepted`: the pool had room
    | Take                               // new_node(): read from the pool, count := 1
    | Issue                              // new_node(): updating := 0

  function Increment(count: nat): nat { (count + 1) % WIDTH }

  function Decrement(count: nat): nat { (count + WIDTH - 1) % WIDTH }

  function At(s: State, tid: nat, pc: Pc): State
    requires tid < |s.threads|
  {
    State(s.count, s.updating, s.place, s.queued, s.threads[tid := pc])
  }

  function Access(s: State, tid: nat, accepted: bool): State
    requires tid < |s.threads|
  {
    var ts := s.threads;
    match ts[tid]
    case Idle => s
    case RetainUpdating => At(s, tid, if s.updating == 1 then RetainCount else RetainIncrement)
    case RetainCount => At(s, tid, if s.count == 0 then Idle else RetainIncrement)
    case RetainIncrement => State(Increment(s.count), s.updating, s.place, s.queued, ts[tid := Idle])
    case ReleaseCount => At(s, tid, if s.count > 0 then ReleaseDecrement else ReleaseLock)
    case ReleaseDecrement => State(Decrement(s.count), s.updating, s.place, s.queued, ts[tid := ReleaseLock])
    case ReleaseLock =>
      if s.updating == 0 then State(s.count, 1, s.place, s.queued, ts[tid := Check]) else At(s, tid, Idle)
    case Check => At(s, tid, if s.count == 0 then Enqueue else Unlock)
    case Enqueue =>
      State(s.count, s.updating, if accepted then FreeList else Lost, s.queued + 1, ts[tid := Idle])
    case Unlock =>
      State(s.count, if s.updating == 1 then 0 else s.updating, s.place, s.queued, ts[tid := Idle])
  }

  function Step(s: State, m: Move): State
  {
    match m
    case StartRetain(tid) => if tid < |s.threads| && s.threads[tid].Idle? then At(s, tid, RetainUpdating) else s
    case StartRelease(tid) => if tid < |s.threads| && s.threads[tid].Idle? then At(s, tid, ReleaseCount) else s
    case Thread(tid, accepted) => if tid < |s.threads| then Access(s, tid, accepted) else s
    case Swap(up) =>
      State(if up then Increment(s.count) else Decrement(s.count), s.updating, s.place, s.queued, s.threads)
    case Collect(accepted) =>
      if s.place.FreeList? then State(s.count, s.updating, if accepted then Pool else Gone, s.queued, s.threads) else s
    case Take => if s.place.Pool? then State(1, s.updating, Reissue, s.queued, s.threads) else s
    case Issue => if s.place.Reissue? then State(s.count, 0, InUse, 0, s.threads) else s
  }

  function Run(s: State, moves: seq<Move>): State
  {
    if moves == [] then s else Step(Run(s, moves[..|moves| - 1]), moves[|moves| - 1])
  }

  /** A node straight from calloc() in new_node(). */
  function Initial(n: nat): State
  {
    State(1, 0, InUse, 0, seq(n, _ => Idle))
  }

  // ---------- the invariant ----------

  /** The thread has set `updating` and not yet decided what becomes of the node. */
  predicate Owns(pc: Pc)
  {
    pc.Check? || pc.Enqueue? || pc.Unlock?
  }

  ghost function Owners(ts: seq<Pc>): set<nat>
  {
    set i: nat | i < |ts| && Owns(ts[i])
  }

  /** `updating` is set by one owning thread or by the node being out of use, never by both. */
  ghost predicate Inv(s: State)
  {
    && s.count < WIDTH
    && |Owners(s.threads)| + s.queued == s.updating <= 1
    && s.queued == (if s.place.InUse? then 0 else 1)
  }

  lemma OwnersAfter(ts: seq<Pc>, tid: nat, pc: Pc)
    requires tid < |ts|
    ensures |Owners(ts[tid := pc])| + Ones(Owns(ts[tid])) == |Owners(ts)| + Ones(Owns(pc))
    ensures Owns(ts[tid]) ==> |Owners(ts)| >= 1
  {
    OwnersSet(ts, tid, ts[tid]);
    OwnersSet(ts, tid, pc);
    assert ts[tid := ts[tid]] == ts;
    CountAfter(Owners(ts), Owners(ts), tid, Owns(ts[tid]));
    CountAfter(Owners(ts), Owners(ts[tid := pc]), tid, Owns(pc));
  }

  lemma OwnersSet(ts: seq<Pc>, tid: nat, pc: Pc)
    requires tid < |ts|
    ensures Owners(ts[tid := pc]) == if Owns(pc) then Owners(ts) + {tid} else Owners(ts) - {tid}
  {
  }

  lemma AccessInv(s: State, tid: nat, accepted: bool)
    requires Inv(s) && tid < |s.threads|
    ensures Inv(Access(s, tid, accepted))
    ensures s.threads[tid].Unlock? ==> s.updating == 1 && Access(s, tid, accepted).updating == 0
  {
    var ts := s.threads;
    match ts[tid] {
      case Idle =>
      case RetainUpdating => OwnersAfter(ts, tid, if s.updating == 1 then RetainCount else RetainIncrement);
      case RetainCount => OwnersAfter(ts, tid, if s.count == 0 then Idle else RetainIncrement);
      case RetainIncrement => OwnersAfter(ts, tid, Idle);
      case ReleaseCount => OwnersAfter(ts, tid, if s.count > 0 then ReleaseDecrement else ReleaseLock);
      case ReleaseDecrement => OwnersAfter(ts, tid, ReleaseLock);
      case ReleaseLock => OwnersAfter(ts, tid, if s.updating == 0 then Check else Idle);
      case Check => OwnersAfter(ts, tid, if s.count == 0 then Enqueue else Unlock);
      case Enqueue => OwnersAfter(ts, tid, Idle);
      case Unlock => OwnersAfter(ts, tid, Idle);
    }
  }

  lemma StepInv(s: State, m: Move)
    requires Inv(s)
    ensures Inv(Step(s, m))
  {
    match m {
      case StartRetain(tid) => if tid < |s.threads| { OwnersAfter(s.threads, tid, RetainUpdating); }
      case StartRelease(tid) => if tid < |s.threads| { OwnersAfter(s.threads, tid, ReleaseCount); }
      case Thread(tid, accepted) => if tid < |s.threads| { AccessInv(s, tid, accepted); }
      case _ =>
    }
  }

  lemma {:induction false} RunInv(n: nat, moves: seq<Move>)
    ensures Inv(Run(Initial(n), moves))
  {
    if moves == [] {
      assert Owners(Initial(n).threads) == {};
    } else {
      RunInv(n, moves[..|moves| - 1]);
      StepInv(Run(Initial(n), moves[..|moves| - 1]), moves[|moves| - 1]);
    }
  }

  /** In every run the node is handed to the free list at most once between two returns of
      new_node(), a queued node has no thread left that could queue it, and the CAS that takes
      `updating` back always succeeds. */
  lemma QueuedAtMostOnce(n: nat, moves: seq<Move>)
    ensures var s := Run(Initial(n), moves);
      && s.queued <= 1
      && (s.queued == 1 ==> forall i :: 0 <= i < |s.threads| ==> !Owns(s.threads[i]))
      && (forall i, j :: 0 <= i < j < |s.threads| ==> !(Owns(s.threads[i]) && Owns(s.threads[j])))
      && (forall i :: 0 <= i < |s.threads| && s.threads[i].Unlock? ==> s.updating == 1)
  {
    RunInv(n, moves);
    var s := Run(Initial(n), moves);
    var os := Owners(s.threads);
    forall i | 0 <= i < |s.threads| && Owns(s.threads[i])
      ensures os == {i}
    {
      assert i in os;
      OnlyMember(os, i);
    }
  }

  // ---------- what becomes of the node ----------

  /** After the first `j` moves, thread `tid` is at `pc`. */
  predicate PcAt(n: nat, moves: seq<Move>, j: nat, tid: nat, pc: Pc)
  {
    j <= |moves| &&
    var ts := Run(Initial(n), moves[..j]).threads; tid < |ts| && ts[tid] == pc
  }

  /** Only a thread that reads the count at `Check` gets to `Enqueue` or `Unlock`, and the count
      decides to which. */
  lemma StepDecides(s: State, m: Move, tid: nat)
    requires |Step(s, m).threads| == |s.threads| && tid < |s.threads|
    requires var pc := Step(s, m).threads[tid]; pc.Enqueue? || pc.Unlock?
    ensures s.threads[tid].Check? ==>
      m.Thread? && m.tid == tid && (s.count == 0 <==> Step(s, m).threads[tid].Enqueue?)
    ensures !s.threads[tid].Check? ==> s.threads[tid] == Step(s, m).threads[tid]
  {
  }

  lemma StepThreads(s: State, m: Move)
    ensures |Step(s, m).threads| == |s.threads|
  {
  }

  lemma {:induction false} RunThreads(n: nat, moves: seq<Move>)
    ensures |Run(Initial(n), moves).threads| == n
  {
    if moves != [] {
      RunThreads(n, moves[..|moves| - 1]);
      StepThreads(Run(Initial(n), moves[..|moves| - 1]), moves[|moves| - 1]);
    }
  }

  /** From move `i` to move `k` the thread has been at `pc`. */
  predicate Stays(n: nat, moves: seq<Move>, i: nat, k: nat, tid: nat, pc: Pc)
    decreases k
  {
    i < k && PcAt(n, moves, k, tid, pc) && (i + 1 < k ==> Stays(n, moves, i, k - 1, tid, pc))
  }

  /** How a thread got to `Enqueue` or `Unlock` by move `k`. */
  lemma LastMove(n: nat, moves: seq<Move>, k: nat, tid: nat, pc: Pc)
    requires k <= |moves| && PcAt(n, moves, k, tid, pc) && (pc.Enqueue? || pc.Unlock?)
    ensures k > 0
    ensures PcAt(n, moves, k - 1, tid, pc) ||
      (&& PcAt(n, moves, k - 1, tid, Check) && moves[k - 1].Thread? && moves[k - 1].tid == tid
       && (Run(Initial(n), moves[..k - 1]).count == 0 <==> pc.Enqueue?))
  {
    if k > 0 {
      assert moves[..k][..k - 1] == moves[..k - 1];
      var s := Run(Initial(n), moves[..k - 1]);
      StepThreads(s, moves[k - 1]);
      StepDecides(s, moves[k - 1], tid);
    }
  }

  /** In every run, a thread about to queue the node has read a count of 0 since it set `updating`,
      and a thread about to take `updating` back has read another count. */
  lemma {:induction false} DecidedByCount(n: nat, moves: seq<Move>, k: nat, tid: nat, pc: Pc) returns (i: nat)
    requires k <= |moves| && PcAt(n, moves, k, tid, pc) && (pc.Enqueue? || pc.Unlock?)
    ensures i < k && moves[i].Thread? && moves[i].tid == tid
    ensures PcAt(n, moves, i, tid, Check) && (Run(Initial(n), moves[..i]).count == 0 <==> pc.Enqueue?)
    ensures Stays(n, moves, i, k, tid, pc)
  {
    LastMove(n, moves, k, tid, pc);
    i := k - 1;
    if PcAt(n, moves, k - 1, tid, pc) {
      i := DecidedByCount(n, moves, k - 1, tid, pc);
    }
  }

  /** A node that found the free list or the pool full never comes back. */
  lemma {:induction false} LostForGood(n: nat, moves: seq<Move>, more: seq<Move>)
    requires var place := Run(Initial(n), moves).place; place.Lost? || place.Gone?
    ensures Run(Initial(n), moves + more).place == Run(Initial(n), moves).place
  {
    if more == [] {
      assert moves + more == moves;
    } else {
      var some, last := more[..|more| - 1], more[|more| - 1];
      LostForGood(n, moves, some);
      assert (moves + more)[..|moves + more| - 1] == moves + some;
      QueuedAtMostOnce(n, moves + some);
      RunInv(n, moves + some);
    }
  }

  /** A queued node comes back through collector, pool and new_node() as good as new; a node in use
      is none of their business. */
  lemma Recycled(s: State, accepted: bool)
    ensures s.place.FreeList? ==>
      && Step(Step(Step(s, Collect(true)), Take), Issue) == State(1, 0, InUse, 0, s.threads)
      && Step(s, Collect(false)).place == Gone
    ensures s.place.InUse? ==> Step(s, Collect(accepted)) == Step(s, Take) == Step(s, Issue) == s
  {
  }

  /** compare_and_swap_ref() moves the count of the new target up and of the old one down by one. */
  lemma SwapCounts(s: State)
    requires s.count < WIDTH
    ensures Step(Step(s, Swap(true)), Swap(false)) == s == Step(Step(s, Swap(false)), Swap(true))
    ensures s.count + 1 < WIDTH ==> Step(s, Swap(true)).count == s.count + 1
  {
  }

  // ---------- one thread alone ----------

  /** `k` accesses of one thread, none of another. */
  function Alone(s: State, tid: nat, accepted: bool, k: nat): State
    decreases k
  {
    if k == 0 then s else Alone(Step(s, Thread(tid, accepted)), tid, accepted, k - 1)
  }

  lemma {:induction false} RunCons(s: State, m: Move, moves: seq<Move>)
    ensures Run(s, [m] + moves) == Run(Step(s, m), moves)
  {
    if moves == [] {
      assert [m] + moves == [m] && [m][..0] == [];
    } else {
      assert ([m] + moves)[..|moves|] == [m] + moves[..|moves| - 1];
      RunCons(s, m, moves[..|moves| - 1]);
    }
  }

  lemma {:induction false} AloneIsRun(s: State, tid: nat, accepted: bool, k: nat)
    ensures Alone(s, tid, accepted, k) == Run(s, seq(k, _ => Thread(tid, accepted)))
    decreases k
  {
    if k > 0 {
      var m := Thread(tid, accepted);
      assert seq(k, _ => m) == [m] + seq(k - 1, _ => m);
      RunCons(s, m, seq(k - 1, _ => m));
      AloneIsRun(Step(s, m), tid, accepted, k - 1);
    }
  }

  lemma {:induction false} IdleAlone(s: State, tid: nat, accepted: bool, k: nat)
    requires tid < |s.threads| && s.threads[tid].Idle?
    ensures Alone(s, tid, accepted, k) == s
    decreases k
  {
    if k > 0 { IdleAlone(s, tid, accepted, k - 1); }
  }

  lemma Overwrite(ts: seq<Pc>, tid: nat, a: Pc, b: Pc)
    requires tid < |ts|
    ensures ts[tid := a][tid := b] == ts[tid := b]
  {
  }

  /** The second half of a release nobody interrupts. */
  lemma LockAlone(s: State, ts: seq<Pc>, tid: nat, accepted: bool, k: nat)
    requires tid < |ts| && s.threads == ts[tid := ReleaseLock] && s.updating <= 1 && k >= 3
    ensures Alone(s, tid, accepted, k) ==
      if s.updating == 0 && s.count == 0
      then State(s.count, 1, if accepted then FreeList else Lost, s.queued + 1, ts[tid := Idle])
      else State(s.count, s.updating, s.place, s.queued, ts[tid := Idle])
  {
    var m := Thread(tid, accepted);
    var s1 := Step(s, m);
    if s.updating == 0 {
      Overwrite(ts, tid, ReleaseLock, Check);
      var decided := if s.count == 0 then Enqueue else Unlock;
      Overwrite(ts, tid, Check, decided);
      var s2 := Step(s1, m);
      assert s2 == State(s.count, 1, s.place, s.queued, ts[tid := decided]);
      Overwrite(ts, tid, decided, Idle);
      var s3 := Step(s2, m);
      IdleAlone(s3, tid, accepted, k - 3);
      assert Alone(s, tid, accepted, k) == Alone(s1, tid, accepted, k - 1) == Alone(s2, tid, accepted, k - 2) == s3;
    } else {
      Overwrite(ts, tid, ReleaseLock, Idle);
      IdleAlone(s1, tid, accepted, k - 1);
    }
  }

  /** A release nobody interrupts is the sequential `release_ref`: the count goes down by one, but
      not below 0, and an unmarked node is queued exactly if the count is 0 then. */
  lemma ReleaseAlone(s: State, tid: nat, accepted: bool)
    requires tid < |s.threads| && s.threads[tid].Idle? && s.count < WIDTH && s.updating <= 1
    ensures var count := if s.count > 0 then s.count - 1 else 0;
      Alone(Step(s, StartRelease(tid)), tid, accepted, 5) ==
        if s.updating == 0 && count == 0
        then State(count, 1, if accepted then FreeList else Lost, s.queued + 1, s.threads)
        else State(count, s.updating, s.place, s.queued, s.threads)
  {
    var ts, m := s.threads, Thread(tid, accepted);
    var s0 := Step(s, StartRelease(tid));
    var s1 := Step(s0, m);
    assert ts[tid := Idle] == ts;
    if s.count > 0 {
      Overwrite(ts, tid, ReleaseCount, ReleaseDecrement);
      Overwrite(ts, tid, ReleaseDecrement, ReleaseLock);
      var s2 := Step(s1, m);
      LockAlone(s2, ts, tid, accepted, 3);
      assert Alone(s0, tid, accepted, 5) == Alone(s1, tid, accepted, 4) == Alone(s2, tid, accepted, 3);
    } else {
      Overwrite(ts, tid, ReleaseCount, ReleaseLock);
      LockAlone(s1, ts, tid, accepted, 4);
      assert Alone(s0, tid, accepted, 5) == Alone(s1, tid, accepted, 4);
    }
  }

  /** A retain nobody interrupts raises the count by one, unless the node is marked with count 0. */
  lemma RetainAlone(s: State, tid: nat, accepted: bool)
    requires tid < |s.threads| && s.threads[tid].Idle? && s.updating <= 1
    ensures Alone(Step(s, StartRetain(tid)), tid, accepted, 3) ==
      if s.updating == 1 && s.count == 0 then s
      else State((s.count + 1) % WIDTH, s.updating, s.place, s.queued, s.threads)
  {
    var ts, m := s.threads, Thread(tid, accepted);
    var s0 := Step(s, StartRetain(tid));
    var s1 := Step(s0, m);
    var s2 := Step(s1, m);
    assert ts[tid := Idle] == ts;
    Overwrite(ts, tid, RetainUpdating, RetainCount);
    Overwrite(ts, tid, RetainUpdating, RetainIncrement);
    Overwrite(ts, tid, RetainCount, RetainIncrement);
    Overwrite(ts, tid, RetainCount, Idle);
    Overwrite(ts, tid, RetainIncrement, Idle);
    assert Alone(s0, tid, accepted, 3) == Alone(s1, tid, accepted, 2) == Alone(s2, tid, accepted, 1) == Step(s2, m);
  }
}
